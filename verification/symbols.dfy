/** Edge labels of the automata: a concrete character, a character class, or epsilon. */
module Symbols {

  datatype Class = All

  datatype Symbol = Alphabet(c: char) | CharClass(cls: Class) | Epsilon

  /** Whether a character class covers a character. */
  predicate ClassContains(k: Class, c: char) {
    match k
    case All => true
  }

  /** Containment between labels, as implemented: note that a character also "contains"
      a class that covers it, so the relation is symmetric between a char and `All`. */
  predicate Contains(a: Symbol, b: Symbol) {
    match a
    case Alphabet(c0) =>
      (match b
       case Alphabet(c1) => c0 == c1
       case CharClass(k) => ClassContains(k, c0)
       case Epsilon => false)
    case CharClass(k) =>
      (match b
       case Alphabet(c1) => ClassContains(k, c1)
       case CharClass(_) => false
       case Epsilon => false)
    case Epsilon => b.Epsilon?
  }

  /** Position of a variant in the declaration, which the derived order compares first. */
  function Rank(a: Symbol): nat {
    match a
    case Alphabet(_) => 0
    case CharClass(_) => 1
    case Epsilon => 2
  }

  /** The derived strict order: by variant, then by the carried character. */
  predicate Less(a: Symbol, b: Symbol) {
    Rank(a) < Rank(b) || (a.Alphabet? && b.Alphabet? && a.c < b.c)
  }

  predicate LessEq(a: Symbol, b: Symbol) {
    Less(a, b) || a == b
  }

  lemma AlphabetContainsIff(a: char, b: char)
    ensures Contains(Alphabet(a), Alphabet(b)) <==> a == b
  {
  }

  lemma AllContainsEveryChar(c: char)
    ensures Contains(CharClass(All), Alphabet(c))
    ensures Contains(Alphabet(c), CharClass(All))
  {
  }

  lemma ContainsNothingElse(a: Symbol, b: Symbol)
    ensures a.CharClass? && (b.CharClass? || b.Epsilon?) ==> !Contains(a, b)
    ensures a.Alphabet? && b.Epsilon? ==> !Contains(a, b)
    ensures a.Epsilon? ==> (Contains(a, b) <==> b.Epsilon?)
    ensures b.Epsilon? ==> (Contains(a, b) <==> a.Epsilon?)
  {
  }

  /** The only pairs in the relation: equal non-class labels, and a char paired with `All`
      in either direction. */
  lemma ContainsCharacterisation(a: Symbol, b: Symbol)
    ensures Contains(a, b) <==>
              || (a == b && !a.CharClass?)
              || (a.CharClass? && b.Alphabet?)
              || (a.Alphabet? && b.CharClass?)
  {
  }

  lemma OrderLayout(c: char, d: char)
    ensures Less(Alphabet(c), CharClass(All)) && Less(CharClass(All), Epsilon)
    ensures Less(Alphabet(c), Alphabet(d)) <==> c < d
  {
  }

  /** The derived order is a strict total order. */
  lemma LessIsStrictTotalOrder(a: Symbol, b: Symbol, x: Symbol)
    ensures !Less(a, a)
    ensures Less(a, b) ==> !Less(b, a)
    ensures Less(a, b) && Less(b, x) ==> Less(a, x)
    ensures a == b || Less(a, b) || Less(b, a)
  {
  }
}
