/** The language of a regular-expression tree, and soundness of the whole pipeline with
    respect to it: every word of the language is read by Thompson's fragment from its start
    to its end, so the subset simulation the DFA builder follows holds the NFA's end after
    the word, and the DFA `construct_dfa` builds from the printed tree accepts the word
    under both acceptance tests. Trees with the any-char class are excluded: the builder's
    `delta` follows only edges labelled with the char itself, never a class edge. */
module Language {
  import opened Outcomes
  import opened Symbols
  import opened State
  import opened Automata
  import opened Nfa
  import opened Subsets
  import opened Dfa
  import opened Matcher
  import opened Printer
  import ParserCases

  /** The words a tree denotes: one char for a literal or the any-char class, a split for
      concatenation, either side for alternation, and for the star the empty word or a
      non-empty word of the operand followed by another word of the star. */
  ghost predicate InLanguage(t: Regex, w: string)
    decreases t, |w|
  {
    match t
    case Lit(c) => w == [c]
    case AnyChar => |w| == 1
    case Cat(l, r) => exists k :: 0 <= k <= |w| && InLanguage(l, w[..k]) && InLanguage(r, w[k..])
    case Alt(l, r) => InLanguage(l, w) || InLanguage(r, w)
    case Star(e) => w == [] || exists k :: 0 < k <= |w| && InLanguage(e, w[..k]) && InLanguage(Star(e), w[k..])
  }

  predicate HasAnyChar(t: Regex) {
    match t
    case Lit(_) => false
    case AnyChar => true
    case Cat(l, r) => HasAnyChar(l) || HasAnyChar(r)
    case Alt(l, r) => HasAnyChar(l) || HasAnyChar(r)
    case Star(e) => HasAnyChar(e)
  }

  // ---------------------------------------------------------------------------
  // Reading a word along the arena.

  /** `w` leads from `x` to `y`: epsilon edges, then an edge labelled with the first char,
      and so on, ending with epsilon edges. */
  ghost predicate Reads(g: Graph, x: nat, w: string, y: nat)
    decreases |w|
  {
    if w == [] then Reaches(g, x, y, Some(Epsilon))
    else exists u, v :: Reaches(g, x, u, Some(Epsilon)) && Step(g, u, v, Some(Alphabet(w[0]))) && Reads(g, v, w[1..], y)
  }

  /** A reading that starts with epsilon edges and one char edge. */
  lemma ReadsCons(g: Graph, x: nat, u: nat, v: nat, w: string, y: nat)
    requires w != [] && Reaches(g, x, u, Some(Epsilon)) && Step(g, u, v, Some(Alphabet(w[0])))
    requires Reads(g, v, w[1..], y)
    ensures Reads(g, x, w, y)
  {
  }

  lemma EpsEdge(g: Graph, x: nat, t: nat)
    requires x in g.nodes && t in g.nodes && t in Delta(g.nodes[x], Epsilon)
    ensures Reaches(g, x, t, Some(Epsilon))
  {
    assert IsPath(g, [x, t], Some(Epsilon));
  }

  /** Epsilon edges before a reading can be absorbed into it. */
  lemma ReadsPrefixEps(g: Graph, x: nat, x': nat, w: string, y: nat)
    requires Reaches(g, x, x', Some(Epsilon)) && Reads(g, x', w, y)
    ensures Reads(g, x, w, y)
  {
    if w == [] {
      ReachesTrans(g, x, x', y, Some(Epsilon));
    } else {
      var u, v :| Reaches(g, x', u, Some(Epsilon)) && Step(g, u, v, Some(Alphabet(w[0]))) && Reads(g, v, w[1..], y);
      ReachesTrans(g, x, x', u, Some(Epsilon));
    }
  }

  lemma ConsAppend(w1: string, w2: string)
    requires w1 != []
    ensures (w1 + w2)[0] == w1[0] && (w1 + w2)[1..] == w1[1..] + w2
  {
  }

  /** Two readings in a row read the concatenated word. */
  lemma {:induction false} ReadsAppend(g: Graph, x: nat, w1: string, y: nat, w2: string, z: nat)
    requires Reads(g, x, w1, y) && Reads(g, y, w2, z)
    ensures Reads(g, x, w1 + w2, z)
    decreases |w1|
  {
    if w1 == [] {
      assert w1 + w2 == w2;
      ReadsPrefixEps(g, x, y, w2, z);
    } else {
      var u, v :| Reaches(g, x, u, Some(Epsilon)) && Step(g, u, v, Some(Alphabet(w1[0]))) && Reads(g, v, w1[1..], y);
      ReadsAppend(g, v, w1[1..], y, w2, z);
      ConsAppend(w1, w2);
      ReadsCons(g, x, u, v, w1 + w2, z);
    }
  }

  /** Epsilon edges after a reading can be absorbed into it. */
  lemma ReadsSuffixEps(g: Graph, x: nat, w: string, y: nat, z: nat)
    requires Reads(g, x, w, y) && Reaches(g, y, z, Some(Epsilon))
    ensures Reads(g, x, w, z)
  {
    ReadsAppend(g, x, w, y, [], z);
    assert w + [] == w;
  }

  // ---------------------------------------------------------------------------
  // Growing an arena. Building a fragment adds nodes and overwrites only accepting ones,
  // so every edge of the old arena is still there.

  /** Every node of `g` is in `h`, and every transition node is unchanged. */
  predicate Grows(g: Graph, h: Graph) {
    forall i :: i in g.nodes ==> i in h.nodes && (g.nodes[i].Transition? ==> h.nodes[i] == g.nodes[i])
  }

  lemma GrowsTrans(a: Graph, b: Graph, c: Graph)
    requires Grows(a, b) && Grows(b, c)
    ensures Grows(a, c)
  {
  }

  /** An arena grows when the only nodes overwritten were accepting ones. */
  lemma PreservesGrows(g: Graph, h: Graph, touched: set<nat>)
    requires g.nodes.Keys <= h.nodes.Keys && Preserves(g, h, touched)
    requires forall i :: i in touched && i in g.nodes ==> g.nodes[i] == Accept
    ensures Grows(g, h)
  {
  }

  lemma StepGrow(g: Graph, h: Graph, u: nat, v: nat, only: Option<Symbol>)
    requires Grows(g, h) && Step(g, u, v, only)
    ensures Step(h, u, v, only)
  {
  }

  lemma ReachesGrow(g: Graph, h: Graph, a: nat, b: nat, only: Option<Symbol>)
    requires Grows(g, h) && Reaches(g, a, b, only)
    ensures Reaches(h, a, b, only)
  {
    var p :| IsPath(g, p, only) && p[0] == a && p[|p| - 1] == b;
    forall i | 0 <= i < |p| - 1
      ensures Step(h, p[i], p[i + 1], only)
    {
      StepGrow(g, h, p[i], p[i + 1], only);
    }
    assert IsPath(h, p, only);
  }

  /** A reading in an arena is a reading in every arena it grows into. */
  lemma {:induction false} ReadsGrow(g: Graph, h: Graph, x: nat, w: string, y: nat)
    requires Grows(g, h) && Reads(g, x, w, y)
    ensures Reads(h, x, w, y)
    decreases |w|
  {
    if w == [] {
      ReachesGrow(g, h, x, y, Some(Epsilon));
    } else {
      var u, v :| Reaches(g, x, u, Some(Epsilon)) && Step(g, u, v, Some(Alphabet(w[0]))) && Reads(g, v, w[1..], y);
      ReachesGrow(g, h, x, u, Some(Epsilon));
      StepGrow(g, h, u, v, Some(Alphabet(w[0])));
      ReadsGrow(g, h, v, w[1..], y);
    }
  }

  // ---------------------------------------------------------------------------
  // Readings are what the subset simulation follows.

  /** The set a word leads to grows with the set it starts from. */
  lemma {:induction false} AfterMono(g: Graph, s: set<nat>, s': set<nat>, w: string)
    requires s <= s'
    ensures After(g, s, w) <= After(g, s', w)
    decreases |w|
  {
    if w != [] {
      forall y | y in StepSet(g, s, w[0])
        ensures y in StepSet(g, s', w[0])
      {
        var x :| x in s && x in g.nodes && y in ClosureOf(g, Delta(g.nodes[x], Alphabet(w[0])));
        assert x in s';
      }
      AfterMono(g, StepSet(g, s, w[0]), StepSet(g, s', w[0]), w[1..]);
    }
  }

  /** In an arena of separated nodes, a node without epsilon edges that `w` leads to from
      `x` is in the set `w` leads to from `x`'s epsilon closure. */
  lemma {:induction false} ReadsAfter(g: Graph, x: nat, w: string, y: nat)
    requires Valid(g) && AllSeparated(g)
    requires y in g.nodes && Delta(g.nodes[y], Epsilon) == []
    requires Reads(g, x, w, y)
    ensures y in After(g, EpsClosure(g, x), w)
    decreases |w|
  {
    if w != [] {
      var c := w[0];
      var u, v :| Reaches(g, x, u, Some(Epsilon)) && Step(g, u, v, Some(Alphabet(c))) && Reads(g, v, w[1..], y);
      assert Separated(g.nodes[u]);
      SeparatedDelta(g.nodes[u], c);
      assert v in Delta(g.nodes[u], Alphabet(c));
      assert u in EpsClosure(g, x);
      TargetsNarrow(EdgesOf(g.nodes[u]), v, Some(Alphabet(c)));
      assert v in g.nodes;
      ReadsAfter(g, v, w[1..], y);
      assert EpsClosure(g, v) <= StepSet(g, EpsClosure(g, x), c) by {
        forall z | z in EpsClosure(g, v)
          ensures z in StepSet(g, EpsClosure(g, x), c)
        {
          assert z in ClosureOf(g, Delta(g.nodes[u], Alphabet(c)));
        }
      }
      AfterMono(g, EpsClosure(g, v), StepSet(g, EpsClosure(g, x), c), w[1..]);
    }
  }

  // ---------------------------------------------------------------------------
  // Thompson's fragment of a tree reads every word of the tree's language.

  lemma SplitJoin(w: string, k: nat)
    requires k <= |w|
    ensures w[..k] + w[k..] == w
  {
  }

  /** A reading followed by an epsilon edge and another reading, all in a larger arena. */
  lemma GlueCat(G: Graph, g1: Graph, g2: Graph, s1: nat, e1: nat, s2: nat, e2: nat, w1: string, w2: string)
    requires Grows(g1, G) && Grows(g2, G)
    requires Reads(g1, s1, w1, e1) && Reads(g2, s2, w2, e2)
    requires e1 in G.nodes && s2 in G.nodes && s2 in Delta(G.nodes[e1], Epsilon)
    ensures Reads(G, s1, w1 + w2, e2)
  {
    ReadsGrow(g1, G, s1, w1, e1);
    ReadsGrow(g2, G, s2, w2, e2);
    EpsEdge(G, e1, s2);
    ReadsPrefixEps(G, e1, s2, w2, e2);
    ReadsAppend(G, s1, w1, e1, w2, e2);
  }

  /** A reading between an epsilon edge in and an epsilon edge out, in a larger arena. */
  lemma GlueAlt(G: Graph, g1: Graph, s: nat, s1: nat, e1: nat, e: nat, w: string)
    requires Grows(g1, G) && Reads(g1, s1, w, e1)
    requires s in G.nodes && s1 in G.nodes && s1 in Delta(G.nodes[s], Epsilon)
    requires e1 in G.nodes && e in G.nodes && e in Delta(G.nodes[e1], Epsilon)
    ensures Reads(G, s, w, e)
  {
    ReadsGrow(g1, G, s1, w, e1);
    EpsEdge(G, s, s1);
    ReadsPrefixEps(G, s, s1, w, e1);
    EpsEdge(G, e1, e);
    ReadsSuffixEps(G, s, w, e1, e);
  }

  /** An epsilon edge, a reading in a smaller arena, then a reading in the larger one. */
  lemma GlueStar(G: Graph, g1: Graph, z: nat, s1: nat, e1: nat, e: nat, w1: string, w2: string)
    requires Grows(g1, G) && Reads(g1, s1, w1, e1)
    requires z in G.nodes && s1 in G.nodes && s1 in Delta(G.nodes[z], Epsilon)
    requires Reads(G, e1, w2, e)
    ensures Reads(G, z, w1 + w2, e)
  {
    ReadsGrow(g1, G, s1, w1, e1);
    EpsEdge(G, z, s1);
    ReadsPrefixEps(G, z, s1, w1, e1);
    ReadsAppend(G, z, w1, e1, w2, e);
  }

  /** The concatenation's fragment: both operands' arenas grow into it, and the left
      operand's end has an epsilon edge to the right operand's start. */
  lemma CatShape(g: Graph, l: Regex, r: Regex)
    requires Valid(g) && AllSeparated(g)
    ensures var m1 := Build(g, l); var m2 := Build(m1.g, r); var m := Build(g, Cat(l, r));
      && Grows(m1.g, m.g) && Grows(m2.g, m.g)
      && m.a.start == m1.a.start && m.a.end == m2.a.end
      && m1.a.end in m.g.nodes && m2.a.start in m.g.nodes
      && m2.a.start in Delta(m.g.nodes[m1.a.end], Epsilon)
  {
    var m1 := Build(g, l);
    var m2 := Build(m1.g, r);
    BuildCat(g, l, r);
    var m := Build(g, Cat(l, r));
    assert m2.g.nodes[m1.a.end] == Accept;
    PreservesGrows(m1.g, m2.g, {});
    PreservesGrows(m2.g, m.g, {m1.a.end});
    GrowsTrans(m1.g, m2.g, m.g);
    DeltaOfTransition(Epsilon, m2.a.start, Epsilon);
  }

  /** `automaton_alternate` overwrites only the two ends, which still accept. */
  lemma AlternateGrows(g: Graph, a1: Automaton, a2: Automaton)
    requires Valid(g)
    requires a1.start in g.nodes && a2.start in g.nodes && a1.end in g.nodes && a2.end in g.nodes
    requires g.nodes[a1.end] == Accept && g.nodes[a2.end] == Accept
    ensures Grows(g, AutomatonAlternate(g, a1, a2).g)
  {
    PreservesGrows(g, AutomatonAlternate(g, a1, a2).g, {a1.end, a2.end});
  }

  /** `automaton_zero_or_one` overwrites only the old end, which still accepts. */
  lemma ZeroOrOneGrows(g: Graph, a: Automaton)
    requires Valid(g) && a.start in g.nodes && a.end in g.nodes && g.nodes[a.end] == Accept
    ensures Grows(g, AutomatonZeroOrOne(g, a).g)
  {
    PreservesGrows(g, AutomatonZeroOrOne(g, a).g, {a.end});
  }

  /** The alternation's fragment: both operands' arenas grow into it. */
  lemma AltGrows(g: Graph, l: Regex, r: Regex)
    requires Valid(g) && AllSeparated(g)
    ensures var m1 := Build(g, l); var m2 := Build(m1.g, r); var m := Build(g, Alt(l, r));
      Grows(m1.g, m.g) && Grows(m2.g, m.g)
  {
    var m1 := Build(g, l);
    var m2 := Build(m1.g, r);
    BuildAlt(g, l, r);
    assert m2.g.nodes[m1.a.end] == Accept;
    AlternateGrows(m2.g, m1.a, m2.a);
    PreservesGrows(m1.g, m2.g, {});
    GrowsTrans(m1.g, m2.g, Build(g, Alt(l, r)).g);
  }

  /** The alternation's fragment: its start has epsilon edges to both operands' starts,
      and both operands' ends one to its end. */
  lemma AltShape(g: Graph, l: Regex, r: Regex)
    requires Valid(g) && AllSeparated(g)
    ensures var m1 := Build(g, l); var m2 := Build(m1.g, r); var m := Build(g, Alt(l, r));
      && m.a.start in m.g.nodes && m.a.end in m.g.nodes
      && m1.a.start in m.g.nodes && m2.a.start in m.g.nodes && m1.a.end in m.g.nodes && m2.a.end in m.g.nodes
      && m1.a.start in Delta(m.g.nodes[m.a.start], Epsilon) && m2.a.start in Delta(m.g.nodes[m.a.start], Epsilon)
      && m.a.end in Delta(m.g.nodes[m1.a.end], Epsilon) && m.a.end in Delta(m.g.nodes[m2.a.end], Epsilon)
  {
    var m1 := Build(g, l);
    var m2 := Build(m1.g, r);
    BuildAlt(g, l, r);
    var m := Build(g, Alt(l, r));
    assert m1.a.end != m2.a.end;
    var split := Transition([Edge(Epsilon, Some(m1.a.start)), Edge(Epsilon, Some(m2.a.start))]);
    var link := Transition([Edge(Epsilon, Some(m.a.end))]);
    assert m.g.nodes[m.a.start] == split;
    assert m.g.nodes[m1.a.end] == link && m.g.nodes[m2.a.end] == link;
    DeltaOfSplit(m1.a.start, m2.a.start, Epsilon);
    DeltaOfTransition(Epsilon, m.a.end, Epsilon);
  }

  /** The star's split node, for an operand start `s` and an end `e`. */
  function Loop(s: nat, e: nat): Node {
    Transition([Edge(Epsilon, Some(s)), Edge(Epsilon, Some(e))])
  }

  /** The star's fragment: the operand's arena grows into it. */
  lemma StarGrows(g: Graph, e: Regex)
    requires Valid(g) && AllSeparated(g)
    ensures Grows(Build(g, e).g, Build(g, Star(e)).g)
  {
    var m := Build(g, e);
    BuildStar(g, e);
    ZeroOrOneGrows(m.g, m.a);
  }

  /** The star's fragment: its start and the operand's old end are both the split to the
      operand's start and the new end. */
  lemma StarShape(g: Graph, e: Regex)
    requires Valid(g) && AllSeparated(g)
    ensures var m := Build(g, e); var top := Build(g, Star(e));
      && m.a.start in top.g.nodes && top.a.end in top.g.nodes
      && top.a.start in top.g.nodes && top.g.nodes[top.a.start] == Loop(m.a.start, top.a.end)
      && m.a.end in top.g.nodes && top.g.nodes[m.a.end] == Loop(m.a.start, top.a.end)
      && m.a.start in Delta(Loop(m.a.start, top.a.end), Epsilon)
      && top.a.end in Delta(Loop(m.a.start, top.a.end), Epsilon)
  {
    var m := Build(g, e);
    BuildStar(g, e);
    DeltaOfSplit(m.a.start, Build(g, Star(e)).a.end, Epsilon);
  }

  /** Every word of the language leads the tree's fragment from its start to its end. */
  lemma {:induction false} BuildReads(g: Graph, t: Regex, w: string)
    requires Valid(g) && AllSeparated(g) && !HasAnyChar(t) && InLanguage(t, w)
    ensures var m := Build(g, t); Reads(m.g, m.a.start, w, m.a.end)
    decreases t, |w|, 1
  {
    if t.Lit? {
      var m := Build(g, t);
      var c := t.c;
      ReachesRefl(m.g, m.a.start, Some(Epsilon));
      ReachesRefl(m.g, m.a.end, Some(Epsilon));
      DeltaOfTransition(Alphabet(c), m.a.end, Alphabet(c));
      assert w[1..] == [];
      ReadsCons(m.g, m.a.start, m.a.start, m.a.end, w, m.a.end);
    } else if t.Cat? {
      CatReads(g, t.left, t.right, w);
    } else if t.Alt? {
      AltReads(g, t.left, t.right, w);
    } else {
      var top := Build(g, t);
      StarShape(g, t.inner);
      StarReads(g, t.inner, w, top.a.start);
    }
  }

  lemma {:induction false} CatReads(g: Graph, l: Regex, r: Regex, w: string)
    requires Valid(g) && AllSeparated(g) && !HasAnyChar(Cat(l, r)) && InLanguage(Cat(l, r), w)
    ensures var m := Build(g, Cat(l, r)); Reads(m.g, m.a.start, w, m.a.end)
    decreases Cat(l, r), |w|, 0
  {
    var k :| 0 <= k <= |w| && InLanguage(l, w[..k]) && InLanguage(r, w[k..]);
    var m1 := Build(g, l);
    var m2 := Build(m1.g, r);
    var m := Build(g, Cat(l, r));
    BuildReads(g, l, w[..k]);
    BuildReads(m1.g, r, w[k..]);
    CatShape(g, l, r);
    GlueCat(m.g, m1.g, m2.g, m1.a.start, m1.a.end, m2.a.start, m2.a.end, w[..k], w[k..]);
    SplitJoin(w, k);
  }

  lemma {:induction false} AltReads(g: Graph, l: Regex, r: Regex, w: string)
    requires Valid(g) && AllSeparated(g) && !HasAnyChar(Alt(l, r)) && InLanguage(Alt(l, r), w)
    ensures var m := Build(g, Alt(l, r)); Reads(m.g, m.a.start, w, m.a.end)
    decreases Alt(l, r), |w|, 0
  {
    var m1 := Build(g, l);
    var m2 := Build(m1.g, r);
    var m := Build(g, Alt(l, r));
    AltGrows(g, l, r);
    AltShape(g, l, r);
    if InLanguage(l, w) {
      BuildReads(g, l, w);
      GlueAlt(m.g, m1.g, m.a.start, m1.a.start, m1.a.end, m.a.end, w);
    } else {
      BuildReads(m1.g, r, w);
      GlueAlt(m.g, m2.g, m.a.start, m2.a.start, m2.a.end, m.a.end, w);
    }
  }

  /** From either split node of the star's fragment, its start or its old end, a word of
      the star's language leads to the new end. */
  lemma {:induction false} StarReads(g: Graph, e: Regex, w: string, z: nat)
    requires Valid(g) && AllSeparated(g) && !HasAnyChar(e) && InLanguage(Star(e), w)
    requires var m := Build(g, e); var top := Build(g, Star(e));
      z in top.g.nodes && top.g.nodes[z] == Loop(m.a.start, top.a.end)
    ensures var top := Build(g, Star(e)); Reads(top.g, z, w, top.a.end)
    decreases Star(e), |w|, 0
  {
    var m := Build(g, e);
    var top := Build(g, Star(e));
    StarGrows(g, e);
    StarShape(g, e);
    if w == [] {
      EpsEdge(top.g, z, top.a.end);
    } else {
      var k :| 0 < k <= |w| && InLanguage(e, w[..k]) && InLanguage(Star(e), w[k..]);
      BuildReads(g, e, w[..k]);
      StarReads(g, e, w[k..], m.a.end);
      GlueStar(top.g, m.g, z, m.a.start, m.a.end, top.a.end, w[..k], w[k..]);
      SplitJoin(w, k);
    }
  }

  // ---------------------------------------------------------------------------
  // Soundness of the compiled pattern.

  /** The pattern printed from a tree compiles to the tree's fragment, and after every word
      of the tree's language the subset simulation holds the fragment's end. */
  lemma NfaAccepts(t: Regex, w: string)
    requires !HasAnyChar(t) && InLanguage(t, w)
    ensures ConstructNfa(Print(t)) == Ok(Build(EmptyGraph, t))
    ensures var nfa := Build(EmptyGraph, t); nfa.a.end in After(nfa.g, EpsClosure(nfa.g, nfa.a.start), w)
  {
    PrintParses(t);
    ConstructFromTree(Print(t), t);
    var nfa := Build(EmptyGraph, t);
    BuildReads(EmptyGraph, t, w);
    DeltaOfAccept(Epsilon);
    ReadsAfter(nfa.g, nfa.a.start, w, nfa.a.end);
  }

  /** `construct_dfa` on the printed tree, then either acceptance test on a word of the
      tree's language: both accept. */
  method CompiledMatches(t: Regex, w: string) returns (asWritten: Outcome<bool>, corrected: Outcome<bool>)
    requires !HasAnyChar(t) && InLanguage(t, w)
    ensures asWritten == Ok(true) && corrected == Ok(true)
  {
    NfaAccepts(t, w);
    var nfa := Build(EmptyGraph, t);
    var r, memo := ConstructDfa(Print(t));
    assert FromNfa(nfa, r.value, memo);
    MatchSemantics(nfa, r.value, memo, w);
    asWritten := MatchInput(r.value, w);
    corrected := MatchInputEnd(r.value, w);
  }

  /** The left-associated concatenation of the literals of a non-empty word. */
  function LitTree(s: string): (t: Regex)
    requires s != []
    ensures !HasAnyChar(t)
    decreases |s|
  {
    if |s| == 1 then Lit(s[0]) else Cat(LitTree(s[..|s| - 1]), Lit(s[|s| - 1]))
  }

  /** A word of plain chars prints as itself and is in its own language. */
  lemma {:induction false} LitTreeWord(s: string)
    requires s != [] && forall i :: 0 <= i < |s| ==> ParserCases.Plain(s[i])
    ensures Print(LitTree(s)) == s && InLanguage(LitTree(s), s)
    decreases |s|
  {
    if |s| == 1 {
      assert s == [s[0]];
    } else {
      var p := s[..|s| - 1];
      var c := s[|s| - 1];
      assert forall i :: 0 <= i < |p| ==> p[i] == s[i];
      LitTreeWord(p);
      assert ParserCases.Plain(c);
      assert Operand(Lit(c)) == [c];
      assert Print(LitTree(s)) == Print(LitTree(p)) + Operand(Lit(c));
      assert s == p + [c];
      assert s[..|p|] == p && s[|p|..] == [c];
      assert InLanguage(Lit(c), s[|p|..]);
    }
  }

  /** `construct_dfa(s)` then either acceptance test on `s` itself accepts, for every
      non-empty pattern of plain chars. */
  method LiteralMatchesItself(s: string) returns (asWritten: Outcome<bool>, corrected: Outcome<bool>)
    requires s != [] && forall i :: 0 <= i < |s| ==> ParserCases.Plain(s[i])
    ensures asWritten == Ok(true) && corrected == Ok(true)
  {
    LitTreeWord(s);
    var t := LitTree(s);
    NfaAccepts(t, s);
    var nfa := Build(EmptyGraph, t);
    var r, memo := ConstructDfa(s);
    assert FromNfa(nfa, r.value, memo);
    MatchSemantics(nfa, r.value, memo, s);
    asWritten := MatchInput(r.value, s);
    corrected := MatchInputEnd(r.value, s);
  }
}
