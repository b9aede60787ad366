/** A printer from regular-expression trees to pattern text, parenthesising exactly where
    the parser's precedence needs it, and the proof that the parser reads every printed
    tree back as that tree's postfix form. Together with `Nfa.TreeOf` this pins down the
    postfix the parser assigns to every pattern it accepts. */
module Printer {
  import opened Outcomes
  import opened Transform
  import opened Nfa
  import ParserCases

  /** A literal character: itself when it stands for itself, escaped otherwise. */
  function Escape(c: char): string {
    if ParserCases.Plain(c) then [c] else ['\\', c]
  }

  /** The pattern text of a tree, in the parser's precedence (loosest first):
      concatenation, left-associated, of or-level units; `|` with a starred unit on its left
      and an or-level unit on its right; `*` after a character class or a group. */
  function Print(t: Regex): string
    decreases t, 1
  {
    match t
    case Lit(c) => Escape(c)
    case AnyChar => "."
    case Cat(l, r) => Print(l) + Operand(r)
    case Alt(l, r) => AltLeft(l) + "|" + Operand(r)
    case Star(e) => Atom(e) + "*"
  }

  function Grouped(t: Regex): string
    decreases t, 2
  {
    "(" + Print(t) + ")"
  }

  /** An or-level unit: the right operand of a concatenation or of `|`. */
  function Operand(t: Regex): string
    decreases t, 3
  {
    if t.Cat? then Grouped(t) else Print(t)
  }

  /** A starred unit: the left operand of `|`. */
  function AltLeft(t: Regex): string
    decreases t, 3
  {
    if t.Cat? || t.Alt? then Grouped(t) else Print(t)
  }

  /** A character class or a group: the operand of `*`. */
  function Atom(t: Regex): string
    decreases t, 3
  {
    if t.Lit? || t.AnyChar? then Print(t) else Grouped(t)
  }

  // ---------------------------------------------------------------------------
  // Shape of the printed text.

  /** Printed text is never empty and never starts with `*`, `|` or `)`. */
  lemma {:induction false} PrintStart(t: Regex)
    ensures Print(t) != [] && Print(t)[0] !in {'*', '|', ')'}
    ensures Operand(t) != [] && Operand(t)[0] !in {'*', '|', ')'}
    ensures AltLeft(t) != [] && Atom(t) != []
  {
    match t
    case Lit(c) =>
    case AnyChar =>
    case Cat(l, r) =>
      PrintStart(l);
      PrintStart(r);
      assert Print(t)[0] == Print(l)[0];
    case Alt(l, r) =>
      PrintStart(l);
      PrintStart(r);
      assert Print(t)[0] == AltLeft(l)[0];
      assert AltLeft(l)[0] == '(' || AltLeft(l)[0] == Print(l)[0];
    case Star(e) =>
      PrintStart(e);
      assert Print(t)[0] == Atom(e)[0];
      assert Atom(e)[0] == '(' || Atom(e)[0] == Print(e)[0];
  }

  /** Printed text of an operand is shorter than the text of the tree around it. */
  lemma PrintLengths(t: Regex)
    ensures t.Cat? ==> |Print(t.left)| < |Print(t)| && |Operand(t.right)| < |Print(t)|
    ensures t.Alt? ==> |AltLeft(t.left)| < |Print(t)| && |Operand(t.right)| < |Print(t)|
    ensures t.Star? ==> |Atom(t.inner)| < |Print(t)|
  {
    match t
    case Lit(_) =>
    case AnyChar =>
    case Cat(l, r) =>
      PrintStart(l);
      PrintStart(r);
    case Alt(l, r) =>
    case Star(e) =>
  }

  // ---------------------------------------------------------------------------
  // Parsing the printed text, one parser level per lemma, with any continuation the
  // level stops at. The measure is the length of the printed text, with the levels
  // ranked as the parser's own functions are.

  /** A character class or a group parses as a primary, whatever follows. */
  lemma AtomParses(t: Regex, rest: string)
    ensures PostfixPrimary(Atom(t) + rest) == Ok(Parsed(Postfix(t), rest))
    decreases |Atom(t)|, 0
  {
    if t.Lit? {
      LitParses(t.c, rest);
    } else if t.AnyChar? {
      var s := "." + rest;
      assert s[0] == '.' && s[1..] == rest;
      ParserCases.ClassAtom(s);
    } else {
      assert Atom(t) == "(" + Print(t) + ")";
      ParenSplit(Print(t), rest);
      ConcatParses(t, ")" + rest);
      ParserCases.GroupStep(Atom(t) + rest, Parsed(Postfix(t), ")" + rest));
    }
  }

  /** A literal, escaped when it is not plain, parses as itself. */
  lemma LitParses(c: char, rest: string)
    ensures PostfixPrimary(Escape(c) + rest) == Ok(Parsed([Primary(c)], rest))
  {
    var s := Escape(c) + rest;
    if ParserCases.Plain(c) {
      assert s[0] == c && s[1..] == rest;
    } else {
      assert s[0] == '\\' && s[1] == c && s[2..] == rest;
    }
    ParserCases.ClassAtom(s);
  }

  lemma ParenSplit(a: string, rest: string)
    ensures ("(" + a + ")" + rest)[0] == '(' && ("(" + a + ")" + rest)[1..] == a + (")" + rest)
    ensures (")" + rest)[0] == ')' && (")" + rest)[1..] == rest
  {
    assert ("(" + a + ")" + rest)[1..] == a + (")" + rest);
  }

  /** The left operand of `|` parses at the repetition level, before anything but `*`. */
  lemma AltLeftParses(t: Regex, rest: string)
    requires rest == [] || rest[0] != '*'
    ensures PostfixAsterisk(AltLeft(t) + rest) == Ok(Parsed(Postfix(t), rest))
    decreases |AltLeft(t)|, 1
  {
    if t.Star? {
      var e := t.inner;
      PrintLengths(t);
      assert AltLeft(t) + rest == Atom(e) + ("*" + rest);
      AtomParses(e, "*" + rest);
      assert ("*" + rest)[0] == '*' && ("*" + rest)[1..] == rest;
      ParserCases.StarStep(AltLeft(t) + rest, Parsed(Postfix(e), "*" + rest));
    } else {
      assert AltLeft(t) == Atom(t);
      AtomParses(t, rest);
      ParserCases.NoStarStep(AltLeft(t) + rest, Parsed(Postfix(t), rest));
    }
  }

  /** An or-level unit parses at the alternation level, before anything but `*` and `|`. */
  lemma OperandParses(t: Regex, rest: string)
    requires rest == [] || rest[0] !in {'*', '|'}
    ensures PostfixOr(Operand(t) + rest) == Ok(Parsed(Postfix(t), rest))
    decreases |Operand(t)|, 3
  {
    if t.Alt? {
      AltParses(t.left, t.right, rest);
    } else {
      assert Operand(t) == AltLeft(t);
      AltLeftParses(t, rest);
      ParserCases.NoOrStep(Operand(t) + rest, Parsed(Postfix(t), rest));
    }
  }

  /** An alternation parses as its starred left unit, the bar, and its right unit. */
  lemma AltParses(l: Regex, r: Regex, rest: string)
    requires rest == [] || rest[0] !in {'*', '|'}
    ensures PostfixOr(Operand(Alt(l, r)) + rest) == Ok(Parsed(Postfix(Alt(l, r)), rest))
    decreases |Operand(Alt(l, r))|, 2
  {
    var a, b := AltLeft(l), Operand(r);
    assert Operand(Alt(l, r)) == a + "|" + b;
    var tail := "|" + b + rest;
    BarSplit(a, b, rest);
    AltLeftParses(l, tail);
    OperandParses(r, rest);
    ParserCases.OrStep(a + tail, Parsed(Postfix(l), tail), Parsed(Postfix(r), rest));
  }

  lemma Regroup(a: string, b: string, rest: string)
    requires b != []
    ensures (a + b) + rest == a + (b + rest)
    ensures b + rest != [] && (b + rest)[0] == b[0]
  {
  }

  lemma BarSplit(a: string, b: string, rest: string)
    ensures (a + "|" + b) + rest == a + ("|" + b + rest)
    ensures ("|" + b + rest)[0] == '|' && ("|" + b + rest)[1..] == b + rest
  {
  }

  /** A whole printed tree parses at the concatenation level into the loop state that
      holds the tree's postfix form, before anything but `*` and `|`. */
  lemma ChainParses(t: Regex, rest: string)
    requires rest == [] || rest[0] !in {'*', '|'}
    ensures PostfixConcat(Print(t) + rest) == ConcatRest(Postfix(t), rest)
    decreases |Print(t)|, 4
  {
    if t.Cat? {
      CatChainParses(t.left, t.right, rest);
    } else {
      assert Print(t) == Operand(t);
      OperandParses(t, rest);
      ParserCases.ConcatStart(Print(t) + rest, Parsed(Postfix(t), rest));
    }
  }

  /** A printed concatenation parses as its left chain, then its right unit. */
  lemma CatChainParses(l: Regex, r: Regex, rest: string)
    requires rest == [] || rest[0] !in {'*', '|'}
    ensures PostfixConcat(Print(Cat(l, r)) + rest) == ConcatRest(Postfix(Cat(l, r)), rest)
    decreases |Print(Cat(l, r))|, 3
  {
    var a, b := Print(l), Operand(r);
    assert Print(Cat(l, r)) == a + b;
    PrintStart(l);
    PrintStart(r);
    Regroup(a, b, rest);
    ChainParses(l, b + rest);
    OperandParses(r, rest);
    ParserCases.ConcatStep(Postfix(l), b + rest, Parsed(Postfix(r), rest));
  }

  /** A whole printed tree parses at the concatenation level, up to a `)` or the end. */
  lemma ConcatParses(t: Regex, rest: string)
    requires rest == [] || rest[0] == ')'
    ensures PostfixConcat(Print(t) + rest) == Ok(Parsed(Postfix(t), rest))
    decreases |Print(t)|, 5
  {
    ChainParses(t, rest);
    ParserCases.ConcatStop(Postfix(t), rest);
  }

  // ---------------------------------------------------------------------------
  // The round trips.

  /** Every tree, printed, parses to its own postfix form. */
  lemma PrintParses(t: Regex)
    ensures ToThompsonPostfix(Print(t)) == Ok(Postfix(t))
  {
    ConcatParses(t, []);
    assert Print(t) + [] == Print(t);
    ParserCases.Top(Print(t), Parsed(Postfix(t), []));
  }

  /** Parsing the printed tree gives back the tree, and the builder builds its fragment. */
  lemma PrintRoundTrip(t: Regex)
    ensures ToThompsonPostfix(Print(t)).Ok? && WellFormed(ToThompsonPostfix(Print(t)).value)
    ensures TreeOf(ToThompsonPostfix(Print(t)).value) == t
    ensures ConstructNfa(Print(t)) == Ok(Build(EmptyGraph, t))
  {
    PrintParses(t);
    PostfixRoundTrip(t);
    ConstructFromTree(Print(t), t);
  }

  /** Every pattern that parses to a complete postfix sequence means what the printed form
      of its tree means: reprinting the tree gives a pattern with the same postfix. */
  lemma ReprintParses(re: string)
    requires ToThompsonPostfix(re).Ok? && WellFormed(ToThompsonPostfix(re).value)
    ensures ToThompsonPostfix(Print(TreeOf(ToThompsonPostfix(re).value))) == ToThompsonPostfix(re)
  {
    PrintParses(TreeOf(ToThompsonPostfix(re).value));
  }
}
