/** Whole-pipeline examples: a pattern is compiled to a DFA and an input is matched
    against it, for the patterns and inputs of the repository's own regex tests. */
module EndToEnd {
  import opened Outcomes
  import opened Symbols
  import opened State
  import opened Automata
  import opened Transform
  import opened Nfa
  import opened Subsets
  import opened Dfa
  import opened Matcher
  import ParserCases

  function One(s: Symbol, to: nat): Node {
    Transition([Edge(s, Some(to))])
  }

  lemma OneTargets(s: Symbol, to: nat)
    ensures Targets(EdgesOf(One(s, to)), None) == [to]
  {
    TargetsOfSmall(s, s, to, to);
  }

  lemma OneDelta(s: Symbol, to: nat, q: Symbol)
    ensures Delta(One(s, to), q) == if s == q then [to] else []
  {
    DeltaOfTransition(s, to, q);
  }

  function Two(to1: nat, to2: nat): Node {
    Transition([Edge(Epsilon, Some(to1)), Edge(Epsilon, Some(to2))])
  }

  // ---------------------------------------------------------------------------
  // The fragment constructors' allocations, spelled out.

  lemma TransitionNodes(g: Graph, s: Symbol)
    requires Valid(g)
    ensures var n1: nat := g.next + 1;
            AutomatonTransition(g, s) == Machine(Graph(g.nodes[g.next := Accept][n1 := One(s, g.next)], g.next + 2),
                                                 Automaton(g.next + 1, g.next))
  {
    var end := NewAccept(g);
    assert end.id == g.next && end.g == Graph(g.nodes[g.next := Accept], g.next + 1);
    var start := NewTransition(end.g, s, end.id);
    assert start.id == g.next + 1;
  }

  lemma ConcatNodes(g: Graph, a1: Automaton, a2: Automaton)
    requires Valid(g) && a1.end in g.nodes && a2.start in g.nodes && g.nodes[a1.end] == Accept
    ensures ConcatAutomaton(g, a1, a2) == Machine(Graph(g.nodes[a1.end := One(Epsilon, a2.start)], g.next),
                                                  Automaton(a1.start, a2.end))
  {
  }

  lemma AltNodes(g: Graph, a1: Automaton, a2: Automaton)
    requires Valid(g) && IsFragment(g, a1) && IsFragment(g, a2) && a1.end != a2.end
    ensures var n := g.next; var n1: nat := n + 1;
            AutomatonAlternate(g, a1, a2)
              == Machine(Graph(g.nodes[n := Two(a1.start, a2.start)][n1 := Accept]
                                 [a1.end := One(Epsilon, n + 1)][a2.end := One(Epsilon, n + 1)], n + 2),
                         Automaton(n, n + 1))
  {
    var n := g.next;
    var m := AlternateNodes(g, a1, a2);
    AltAlloc(g, a1, a2);
    var h1 := ConnectAt(m.g, a1.end, n + 1);
    assert m.g.nodes[a1.end] == Accept;
    assert h1 == Graph(m.g.nodes[a1.end := One(Epsilon, n + 1)], n + 2);
    assert h1.nodes[a2.end] == Accept;
  }

  lemma AltAlloc(g: Graph, a1: Automaton, a2: Automaton)
    requires Valid(g) && a1.start in g.nodes && a2.start in g.nodes
    ensures var n := g.next; var n1: nat := n + 1;
            AlternateNodes(g, a1, a2) == Machine(Graph(g.nodes[n := Two(a1.start, a2.start)][n1 := Accept], n + 2),
                                                 Automaton(n, n + 1))
  {
    var split := NewSplit(g, a1.start, a2.start);
    assert split.id == g.next;
    var end := NewAccept(split.g);
    assert end.id == g.next + 1;
  }

  lemma StarNodes(g: Graph, a: Automaton)
    requires Valid(g) && IsFragment(g, a)
    ensures var n := g.next; var n1: nat := n + 1;
            AutomatonZeroOrOne(g, a)
              == Machine(Graph(g.nodes[n := Accept][n1 := Two(a.start, n)][a.end := Two(a.start, n)], n + 2),
                         Automaton(n + 1, n))
  {
    var end := NewAccept(g);
    assert end.id == g.next;
    var start := NewSplit(end.g, a.start, end.id);
    assert start.id == g.next + 1;
    var m := ZeroOrOneNodes(g, a);
    assert m == Machine(start.g, Automaton(start.id, end.id));
  }

  /** A starred tree whose operand built to `m`: the star's allocations on top of `m`. */
  lemma StarOver(g: Graph, e: Regex)
    requires Valid(g) && AllSeparated(g)
    ensures var m := Build(g, e);
            var n := m.g.next; var n1: nat := n + 1;
            Build(g, Star(e))
              == Machine(Graph(m.g.nodes[n := Accept][n1 := Two(m.a.start, n)][m.a.end := Two(m.a.start, n)], n + 2),
                         Automaton(n + 1, n))
  {
    var m := Build(g, e);
    BuildStar(g, e);
    StarNodes(m.g, m.a);
  }

  // ---------------------------------------------------------------------------
  // `abc`

  /** The NFA of `abc`: each literal fragment's end is connected to the next start. */
  const AbcGraph: Graph := Graph(map[0 := One(Epsilon, 3), 1 := One(Alphabet('a'), 0), 2 := One(Epsilon, 5),
                                     3 := One(Alphabet('b'), 2), 4 := Accept, 5 := One(Alphabet('c'), 4)], 6)

  lemma AbcChain()
    ensures map[0 := Accept][1 := One(Alphabet('a'), 0)][2 := Accept][3 := One(Alphabet('b'), 2)][0 := One(Epsilon, 3)]
              [4 := Accept][5 := One(Alphabet('c'), 4)][2 := One(Epsilon, 5)] == AbcGraph.nodes
  {
  }

  lemma AbcNfa()
    ensures ConstructNfa("abc") == Ok(Machine(AbcGraph, Automaton(1, 4)))
  {
    BuildConcat();
    var ga := Graph(map[0 := Accept, 1 := One(Alphabet('a'), 0)], 2);
    TransitionNodes(EmptyGraph, Alphabet('a'));
    assert Build(EmptyGraph, Lit('a')) == Machine(ga, Automaton(1, 0));
    var gb := Graph(ga.nodes[2 := Accept][3 := One(Alphabet('b'), 2)], 4);
    TransitionNodes(ga, Alphabet('b'));
    assert Build(ga, Lit('b')) == Machine(gb, Automaton(3, 2));
    BuildCat(EmptyGraph, Lit('a'), Lit('b'));
    ConcatNodes(gb, Automaton(1, 0), Automaton(3, 2));
    var gab := Graph(gb.nodes[0 := One(Epsilon, 3)], 4);
    assert Build(EmptyGraph, Cat(Lit('a'), Lit('b'))) == Machine(gab, Automaton(1, 2));
    var gc := Graph(gab.nodes[4 := Accept][5 := One(Alphabet('c'), 4)], 6);
    TransitionNodes(gab, Alphabet('c'));
    assert Build(gab, Lit('c')) == Machine(gc, Automaton(5, 4));
    BuildCat(EmptyGraph, Cat(Lit('a'), Lit('b')), Lit('c'));
    ConcatNodes(gc, Automaton(1, 2), Automaton(5, 4));
    AbcChain();
  }

  lemma AbcValid()
    ensures Valid(AbcGraph)
  {
    AbcNfa();
  }

  /** A node whose one epsilon edge leads to `y` has the closure of `y`. */
  lemma ClosureVia(g: Graph, x: nat, y: nat)
    requires Valid(g) && x in g.nodes && Delta(g.nodes[x], Epsilon) == [y]
    ensures EpsClosure(g, x) == EpsClosure(g, y)
  {
    ClosureUnfold(g, x);
    ClosureOfOne(g, y);
  }

  /** One char from a one-node set, along its one edge on that char. */
  lemma StepVia(g: Graph, x: nat, c: char, y: nat)
    requires x in g.nodes && Delta(g.nodes[x], Alphabet(c)) == [y]
    ensures StepSet(g, {x}, c) == EpsClosure(g, y)
  {
    StepSetOne(g, x, c);
    ClosureOfOne(g, y);
  }

  /** A node whose two epsilon edges lead to `y1` and `y2` has the union of their closures. */
  lemma ClosureVia2(g: Graph, x: nat, y1: nat, y2: nat)
    requires Valid(g) && x in g.nodes && Delta(g.nodes[x], Epsilon) == [y1, y2]
    ensures EpsClosure(g, x) == EpsClosure(g, y1) + EpsClosure(g, y2)
  {
    ClosureUnfold(g, x);
    ClosureOfOne(g, y1);
    assert [y1, y2] == [y1] + [y2];
    ClosureOfSnoc(g, [y1], y2);
  }

  /** No edge on the char: nothing follows. */
  lemma StepNone(g: Graph, x: nat, c: char)
    requires x in g.nodes && Delta(g.nodes[x], Alphabet(c)) == []
    ensures StepSet(g, {x}, c) == {}
  {
    StepSetOne(g, x, c);
  }

  /** The successor set of a two-node set is the union of theirs. */
  lemma StepPair(g: Graph, x: nat, y: nat, c: char)
    requires x in g.nodes && y in g.nodes
    ensures StepSet(g, {x, y}, c) == StepSet(g, {x}, c) + StepSet(g, {y}, c)
  {
    StepSetAdd(g, {x}, y, c);
    StepSetOne(g, y, c);
    assert {x} + {y} == {x, y};
  }

  lemma AfterCons(g: Graph, s: set<nat>, c: char, w: string)
    ensures After(g, s, [c] + w) == After(g, StepSet(g, s, c), w)
  {
    assert ([c] + w)[1..] == w;
  }

  /** Node `i` of `g` is present and equal to `n`. */
  ghost predicate Has(g: Graph, i: nat, n: Node) {
    i in g.nodes && g.nodes[i] == n
  }

  /** A literal's start has no epsilon edge: it is its own closure. */
  lemma LitStable(g: Graph, x: nat, c: char, y: nat)
    requires Has(g, x, One(Alphabet(c), y))
    ensures EpsClosure(g, x) == {x}
  {
    OneDelta(Alphabet(c), y, Epsilon);
    StableClosure(g, x);
  }

  /** An `Accept` node is its own closure. */
  lemma AcceptStable(g: Graph, x: nat)
    requires Has(g, x, Accept)
    ensures EpsClosure(g, x) == {x}
  {
    DeltaOfAccept(Epsilon);
    StableClosure(g, x);
  }

  /** A node with one epsilon edge to `y` has the closure of `y`. */
  lemma HopClosure(g: Graph, x: nat, y: nat)
    requires Valid(g) && Has(g, x, One(Epsilon, y))
    ensures EpsClosure(g, x) == EpsClosure(g, y)
  {
    OneDelta(Epsilon, y, Epsilon);
    ClosureVia(g, x, y);
  }

  /** A split to `y1` and `y2` has the union of their closures. */
  lemma SplitClosure(g: Graph, x: nat, y1: nat, y2: nat)
    requires Valid(g) && Has(g, x, Two(y1, y2))
    ensures EpsClosure(g, x) == EpsClosure(g, y1) + EpsClosure(g, y2)
  {
    DeltaOfSplit(y1, y2, Epsilon);
    ClosureVia2(g, x, y1, y2);
  }

  /** A literal's start read on its own char: the closure of its target. */
  lemma LitStep(g: Graph, x: nat, c: char, y: nat)
    requires Has(g, x, One(Alphabet(c), y))
    ensures StepSet(g, {x}, c) == EpsClosure(g, y)
  {
    OneDelta(Alphabet(c), y, Alphabet(c));
    StepVia(g, x, c, y);
  }

  /** A literal's start read on another char: nothing. */
  lemma LitNoStep(g: Graph, x: nat, c: char, y: nat, d: char)
    requires Has(g, x, One(Alphabet(c), y)) && c != d
    ensures StepSet(g, {x}, d) == {}
  {
    OneDelta(Alphabet(c), y, Alphabet(d));
    StepNone(g, x, d);
  }

  /** An `Accept` node read on any char: nothing. */
  lemma AcceptNoStep(g: Graph, x: nat, d: char)
    requires Has(g, x, Accept)
    ensures StepSet(g, {x}, d) == {}
  {
    DeltaOfAccept(Alphabet(d));
    StepNone(g, x, d);
  }

  lemma AbcStart()
    ensures EpsClosure(AbcGraph, 1) == {1}
  {
    OneDelta(Alphabet('a'), 0, Epsilon);
    StableClosure(AbcGraph, 1);
  }

  lemma AbcStepA()
    ensures StepSet(AbcGraph, {1}, 'a') == {3}
  {
    AbcValid();
    OneDelta(Alphabet('a'), 0, Alphabet('a'));
    StepVia(AbcGraph, 1, 'a', 0);
    OneDelta(Epsilon, 3, Epsilon);
    ClosureVia(AbcGraph, 0, 3);
    OneDelta(Alphabet('b'), 2, Epsilon);
    StableClosure(AbcGraph, 3);
  }

  lemma AbcStepB()
    ensures StepSet(AbcGraph, {3}, 'b') == {5}
  {
    AbcValid();
    OneDelta(Alphabet('b'), 2, Alphabet('b'));
    StepVia(AbcGraph, 3, 'b', 2);
    OneDelta(Epsilon, 5, Epsilon);
    ClosureVia(AbcGraph, 2, 5);
    OneDelta(Alphabet('c'), 4, Epsilon);
    StableClosure(AbcGraph, 5);
  }

  lemma AbcStepC()
    ensures StepSet(AbcGraph, {5}, 'c') == {4}
  {
    OneDelta(Alphabet('c'), 4, Alphabet('c'));
    StepVia(AbcGraph, 5, 'c', 4);
    DeltaOfAccept(Epsilon);
    StableClosure(AbcGraph, 4);
  }

  /** Reading `abc` from the start closure of the `abc` NFA ends in the set of its end. */
  lemma AbcAfter()
    ensures After(AbcGraph, EpsClosure(AbcGraph, 1), "abc") == {4}
  {
    var g := AbcGraph;
    AbcStart();
    AbcStepA();
    AfterCons(g, {1}, 'a', "bc");
    AbcStepB();
    AfterCons(g, {3}, 'b', "c");
    AbcStepC();
    AfterCons(g, {5}, 'c', "");
  }

  /** `regex_concat`: `abc` compiles, and both acceptance tests accept `abc`. */
  method RegexConcat() returns (asWritten: Outcome<bool>, corrected: Outcome<bool>)
    ensures asWritten == Ok(true) && corrected == Ok(true)
  {
    var d, memo := ConstructDfa("abc");
    AbcNfa();
    AbcValid();
    AbcAfter();
    asWritten, corrected := MatchAccepted(Machine(AbcGraph, Automaton(1, 4)), d.value, memo, "abc");
  }

  // ---------------------------------------------------------------------------
  // `a|bc`, which is `(a|b)c`

  /** The NFA of `a|bc`: a split to the `a` and `b` fragments, their ends joined at one
      node that leads on to the `c` fragment. */
  const OrGraph: Graph := Graph(map[0 := One(Epsilon, 5), 1 := One(Alphabet('a'), 0), 2 := One(Epsilon, 5),
                                    3 := One(Alphabet('b'), 2), 4 := Two(1, 3), 5 := One(Epsilon, 7), 6 := Accept,
                                    7 := One(Alphabet('c'), 6)], 8)

  lemma OrChain()
    ensures map[0 := Accept][1 := One(Alphabet('a'), 0)][2 := Accept][3 := One(Alphabet('b'), 2)][4 := Two(1, 3)]
              [5 := Accept][0 := One(Epsilon, 5)][2 := One(Epsilon, 5)][6 := Accept][7 := One(Alphabet('c'), 6)]
              [5 := One(Epsilon, 7)] == OrGraph.nodes
  {
  }

  /** `a|b` as the left operand: a split to both literals, their ends joined at node 5. */
  lemma OrLeft()
    ensures Build(EmptyGraph, Alt(Lit('a'), Lit('b')))
              == Machine(Graph(map[0 := Accept][1 := One(Alphabet('a'), 0)][2 := Accept][3 := One(Alphabet('b'), 2)]
                                 [4 := Two(1, 3)][5 := Accept][0 := One(Epsilon, 5)][2 := One(Epsilon, 5)], 6),
                         Automaton(4, 5))
  {
    var ga := Graph(map[0 := Accept, 1 := One(Alphabet('a'), 0)], 2);
    TransitionNodes(EmptyGraph, Alphabet('a'));
    assert Build(EmptyGraph, Lit('a')) == Machine(ga, Automaton(1, 0));
    var gb := Graph(ga.nodes[2 := Accept][3 := One(Alphabet('b'), 2)], 4);
    TransitionNodes(ga, Alphabet('b'));
    assert Build(ga, Lit('b')) == Machine(gb, Automaton(3, 2));
    BuildAlt(EmptyGraph, Lit('a'), Lit('b'));
    AltNodes(gb, Automaton(1, 0), Automaton(3, 2));
  }

  lemma OrTree()
    ensures Build(EmptyGraph, Cat(Alt(Lit('a'), Lit('b')), Lit('c'))) == Machine(OrGraph, Automaton(4, 6))
  {
    var ab := Alt(Lit('a'), Lit('b'));
    OrLeft();
    var gab := Build(EmptyGraph, ab).g;
    var gc := Graph(gab.nodes[6 := Accept][7 := One(Alphabet('c'), 6)], 8);
    assert Build(gab, Lit('c')) == Machine(gc, Automaton(7, 6)) by {
      TransitionNodes(gab, Alphabet('c'));
    }
    assert Build(EmptyGraph, Cat(ab, Lit('c'))) == ConcatAutomaton(gc, Automaton(4, 5), Automaton(7, 6)) by {
      BuildCat(EmptyGraph, ab, Lit('c'));
    }
    assert ConcatAutomaton(gc, Automaton(4, 5), Automaton(7, 6))
             == Machine(Graph(gc.nodes[5 := One(Epsilon, 7)], 8), Automaton(4, 6)) by {
      ConcatNodes(gc, Automaton(4, 5), Automaton(7, 6));
    }
    OrChain();
  }

  lemma OrNfa()
    ensures ConstructNfa("a|bc") == Ok(Machine(OrGraph, Automaton(4, 6)))
  {
    OrNfaAt("a|bc", Cat(Alt(Lit('a'), Lit('b')), Lit('c')));
  }

  /** The proof of `OrNfa`. The pattern is a parameter fixed by `requires`, so that the
      parser unfolds on it one level at a time rather than all at once on a literal. */
  lemma OrNfaAt(re: string, t: Regex)
    requires re == "a|bc" && t == Cat(Alt(Lit('a'), Lit('b')), Lit('c'))
    ensures ConstructNfa(re) == Ok(Machine(OrGraph, Automaton(4, 6)))
  {
    ParserCases.OrBindsTighterRightAt(re, Postfix(t));
    ConstructFromTree(re, t);
    OrTree();
  }

  lemma OrValid()
    ensures Valid(OrGraph)
  {
    OrNfa();
  }

  /** The nodes of `a|bc` the closure and step lemmas below rely on. */
  ghost predicate OrArena(g: Graph) {
    && Valid(g)
    && Has(g, 0, One(Epsilon, 5)) && Has(g, 1, One(Alphabet('a'), 0)) && Has(g, 2, One(Epsilon, 5))
    && Has(g, 3, One(Alphabet('b'), 2)) && Has(g, 4, Two(1, 3)) && Has(g, 5, One(Epsilon, 7))
    && Has(g, 6, Accept) && Has(g, 7, One(Alphabet('c'), 6))
  }

  lemma OrArenaHolds()
    ensures OrArena(OrGraph)
  {
    OrValid();
  }

  lemma OrStart(g: Graph)
    requires OrArena(g)
    ensures EpsClosure(g, 4) == {1, 3}
  {
    SplitClosure(g, 4, 1, 3);
    LitStable(g, 1, 'a', 0);
    LitStable(g, 3, 'b', 2);
  }

  /** Both literal ends lead, through the join, to the `c` fragment's start alone. */
  lemma OrJoin(g: Graph)
    requires OrArena(g)
    ensures EpsClosure(g, 0) == {7} && EpsClosure(g, 2) == {7}
  {
    LitStable(g, 7, 'c', 6);
    HopClosure(g, 5, 7);
    HopClosure(g, 0, 5);
    HopClosure(g, 2, 5);
  }

  lemma OrStepA(g: Graph)
    requires OrArena(g)
    ensures StepSet(g, {1, 3}, 'a') == {7}
  {
    StepPair(g, 1, 3, 'a');
    LitStep(g, 1, 'a', 0);
    LitNoStep(g, 3, 'b', 2, 'a');
    OrJoin(g);
  }

  lemma OrStepB(g: Graph)
    requires OrArena(g)
    ensures StepSet(g, {1, 3}, 'b') == {7}
  {
    StepPair(g, 1, 3, 'b');
    LitNoStep(g, 1, 'a', 0, 'b');
    LitStep(g, 3, 'b', 2);
    OrJoin(g);
  }

  lemma OrStepC(g: Graph)
    requires OrArena(g)
    ensures StepSet(g, {7}, 'c') == {6}
  {
    LitStep(g, 7, 'c', 6);
    AcceptStable(g, 6);
  }

  /** Both `bc` and `ac` lead from the start closure of `a|bc` to the set of its end. */
  lemma OrAfter(g: Graph)
    requires OrArena(g)
    ensures After(g, EpsClosure(g, 4), "bc") == {6}
    ensures After(g, EpsClosure(g, 4), "ac") == {6}
  {
    OrStart(g);
    OrStepA(g);
    OrStepB(g);
    OrStepC(g);
    AfterTwo(g, {1, 3}, 'b', {7}, 'c', {6});
    AfterTwo(g, {1, 3}, 'a', {7}, 'c', {6});
  }

  /** `regex_or1`: `a|bc` compiles, and both acceptance tests accept `bc` and `ac`. */
  method RegexOr1() returns (asWritten: seq<Outcome<bool>>, corrected: seq<Outcome<bool>>)
    ensures asWritten == [Ok(true), Ok(true)] && corrected == [Ok(true), Ok(true)]
  {
    var d, memo := ConstructDfa("a|bc");
    OrNfa();
    OrArenaHolds();
    OrAfter(OrGraph);
    var nfa := Machine(OrGraph, Automaton(4, 6));
    var x1, y1 := MatchAccepted(nfa, d.value, memo, "bc");
    var x2, y2 := MatchAccepted(nfa, d.value, memo, "ac");
    asWritten, corrected := [x1, x2], [y1, y2];
  }

  // ---------------------------------------------------------------------------
  // `a(bc)*|d`, which is `a((bc)*|d)`

  /** `a(bc)*|d` parses to `a`, then the alternation of the starred group and `d`.
      The pattern is a parameter fixed by `requires`, so that the parser unfolds on it
      one level at a time rather than all at once on a literal. */
  lemma StarParseAt(s: string, ops: seq<ThompsonOp>)
    requires s == "a(bc)*|d"
    requires ops == [Primary('a')] + ([Primary('b'), Primary('c'), Concat, Asterisk] + [Primary('d')] + [Or]) + [Concat]
    ensures ToThompsonPostfix(s) == Ok(ops)
  {
    var a := Primary('a');
    var s1 := s[1..];
    assert s1 == "(bc)*|d" && s1[5..] == "|d" && s1[5..][1..] == "d" && "d"[1..] == [];
    ParserCases.UnitStep(s);
    ParserCases.ConcatStart(s, Parsed([a], s1));
    var bcs := [Primary('b'), Primary('c'), Concat, Asterisk];
    ParserCases.StarredPairGroup(s1);
    ParserCases.UnitStep("d");
    ParserCases.OrStep(s1, Parsed(bcs, s1[5..]), Parsed([Primary('d')], []));
    var alt := bcs + [Primary('d')] + [Or];
    ParserCases.ConcatStep([a], s1, Parsed(alt, []));
    ParserCases.ConcatStop(ops, []);
    ParserCases.Top(s, Parsed(ops, []));
  }

  /** The NFA of `a(bc)*|d`. The star's old end (4) is overwritten by the same split as its
      new start (7): back to `b` (3) or out to the star's end (6). */
  const StarGraph: Graph := Graph(map[0 := One(Epsilon, 10), 1 := One(Alphabet('a'), 0), 2 := One(Epsilon, 5),
                                      3 := One(Alphabet('b'), 2), 4 := Two(3, 6), 5 := One(Alphabet('c'), 4),
                                      6 := One(Epsilon, 11), 7 := Two(3, 6), 8 := One(Epsilon, 11),
                                      9 := One(Alphabet('d'), 8), 10 := Two(7, 9), 11 := Accept], 12)

  /** `bc` built after a two-node arena (the `a` fragment). */
  lemma PairGroup(g: Graph, e: Regex)
    requires Valid(g) && AllSeparated(g) && g.next == 2 && e == Cat(Lit('b'), Lit('c'))
    ensures Build(g, e)
              == Machine(Graph(g.nodes[2 := Accept][3 := One(Alphabet('b'), 2)][4 := Accept][5 := One(Alphabet('c'), 4)]
                                 [2 := One(Epsilon, 5)], 6),
                         Automaton(3, 4))
  {
    var gb := Graph(g.nodes[2 := Accept][3 := One(Alphabet('b'), 2)], 4);
    assert Build(g, Lit('b')) == Machine(gb, Automaton(3, 2)) by {
      TransitionNodes(g, Alphabet('b'));
    }
    var gc := Graph(gb.nodes[4 := Accept][5 := One(Alphabet('c'), 4)], 6);
    assert Build(gb, Lit('c')) == Machine(gc, Automaton(5, 4)) by {
      TransitionNodes(gb, Alphabet('c'));
    }
    BuildCat(g, Lit('b'), Lit('c'));
    ConcatNodes(gc, Automaton(3, 2), Automaton(5, 4));
  }

  /** `(bc)*` built after a two-node arena. */
  lemma StarGroup(g: Graph, e: Regex)
    requires Valid(g) && AllSeparated(g) && g.next == 2 && e == Cat(Lit('b'), Lit('c'))
    ensures Build(g, Star(e))
              == Machine(Graph(g.nodes[2 := Accept][3 := One(Alphabet('b'), 2)][4 := Accept][5 := One(Alphabet('c'), 4)]
                                 [2 := One(Epsilon, 5)][6 := Accept][7 := Two(3, 6)][4 := Two(3, 6)], 8),
                         Automaton(7, 6))
  {
    PairGroup(g, e);
    StarOver(g, e);
  }

  /** `(bc)*|d` built after a two-node arena. */
  lemma StarAlt(g: Graph)
    requires Valid(g) && AllSeparated(g) && g.next == 2
    ensures Build(g, Alt(Star(Cat(Lit('b'), Lit('c'))), Lit('d')))
              == Machine(Graph(g.nodes[2 := Accept][3 := One(Alphabet('b'), 2)][4 := Accept][5 := One(Alphabet('c'), 4)]
                                 [2 := One(Epsilon, 5)][6 := Accept][7 := Two(3, 6)][4 := Two(3, 6)]
                                 [8 := Accept][9 := One(Alphabet('d'), 8)]
                                 [10 := Two(7, 9)][11 := Accept][6 := One(Epsilon, 11)][8 := One(Epsilon, 11)], 12),
                         Automaton(10, 11))
  {
    var st := Star(Cat(Lit('b'), Lit('c')));
    StarGroup(g, Cat(Lit('b'), Lit('c')));
    var gs := Build(g, st).g;
    var gd := Graph(gs.nodes[8 := Accept][9 := One(Alphabet('d'), 8)], 10);
    assert Build(gs, Lit('d')) == Machine(gd, Automaton(9, 8)) by {
      TransitionNodes(gs, Alphabet('d'));
    }
    BuildAlt(g, st, Lit('d'));
    AltNodes(gd, Automaton(7, 6), Automaton(9, 8));
  }

  lemma StarChain()
    ensures map[0 := Accept, 1 := One(Alphabet('a'), 0)][2 := Accept][3 := One(Alphabet('b'), 2)][4 := Accept]
              [5 := One(Alphabet('c'), 4)][2 := One(Epsilon, 5)][6 := Accept][7 := Two(3, 6)][4 := Two(3, 6)]
              [8 := Accept][9 := One(Alphabet('d'), 8)][10 := Two(7, 9)][11 := Accept][6 := One(Epsilon, 11)]
              [8 := One(Epsilon, 11)][0 := One(Epsilon, 10)] == StarGraph.nodes
  {
  }

  lemma StarTree()
    ensures Build(EmptyGraph, Cat(Lit('a'), Alt(Star(Cat(Lit('b'), Lit('c'))), Lit('d'))))
              == Machine(StarGraph, Automaton(1, 11))
  {
    var alt := Alt(Star(Cat(Lit('b'), Lit('c'))), Lit('d'));
    var ga := Graph(map[0 := Accept, 1 := One(Alphabet('a'), 0)], 2);
    assert Build(EmptyGraph, Lit('a')) == Machine(ga, Automaton(1, 0)) by {
      TransitionNodes(EmptyGraph, Alphabet('a'));
    }
    StarAlt(ga);
    var galt := Build(ga, alt).g;
    assert Build(EmptyGraph, Cat(Lit('a'), alt)) == ConcatAutomaton(galt, Automaton(1, 0), Automaton(10, 11)) by {
      BuildCat(EmptyGraph, Lit('a'), alt);
    }
    ConcatNodes(galt, Automaton(1, 0), Automaton(10, 11));
    StarChain();
  }

  lemma StarNfa()
    ensures ConstructNfa("a(bc)*|d") == Ok(Machine(StarGraph, Automaton(1, 11)))
  {
    StarNfaAt("a(bc)*|d", Cat(Lit('a'), Alt(Star(Cat(Lit('b'), Lit('c'))), Lit('d'))));
  }

  /** The proof of `StarNfa`. The pattern is a parameter fixed by `requires`, so that the
      parser unfolds on it one level at a time rather than all at once on a literal. */
  lemma StarNfaAt(re: string, t: Regex)
    requires re == "a(bc)*|d" && t == Cat(Lit('a'), Alt(Star(Cat(Lit('b'), Lit('c'))), Lit('d')))
    ensures ConstructNfa(re) == Ok(Machine(StarGraph, Automaton(1, 11)))
  {
    StarParseAt(re, Postfix(t));
    ConstructFromTree(re, t);
    StarTree();
  }

  lemma StarValid()
    ensures Valid(StarGraph)
  {
    StarNfa();
  }

  /** The nodes of `a(bc)*|d` the closure and step lemmas below rely on. */
  ghost predicate StarArena(g: Graph) {
    && Valid(g)
    && Has(g, 0, One(Epsilon, 10)) && Has(g, 1, One(Alphabet('a'), 0)) && Has(g, 2, One(Epsilon, 5))
    && Has(g, 3, One(Alphabet('b'), 2)) && Has(g, 4, Two(3, 6)) && Has(g, 5, One(Alphabet('c'), 4))
    && Has(g, 6, One(Epsilon, 11)) && Has(g, 7, Two(3, 6)) && Has(g, 8, One(Epsilon, 11))
    && Has(g, 9, One(Alphabet('d'), 8)) && Has(g, 10, Two(7, 9)) && Has(g, 11, Accept)
  }

  lemma StarArenaHolds()
    ensures StarArena(StarGraph)
  {
    StarValid();
  }

  /** The two splits that leave the group: back to `b` or out to the end. */
  lemma StarLoopSplit(g: Graph)
    requires StarArena(g)
    ensures EpsClosure(g, 4) == {3, 11} && EpsClosure(g, 7) == {3, 11}
  {
    LitStable(g, 3, 'b', 2);
    AcceptStable(g, 11);
    HopClosure(g, 6, 11);
    SplitClosure(g, 4, 3, 6);
    SplitClosure(g, 7, 3, 6);
  }

  /** The split between the starred group and `d`. */
  lemma StarAltSplit(g: Graph)
    requires StarArena(g)
    ensures EpsClosure(g, 10) == {3, 9, 11}
  {
    StarLoopSplit(g);
    LitStable(g, 9, 'd', 8);
    SplitClosure(g, 10, 7, 9);
  }

  /** After `a`: the group's loop set, `d`'s start, and the end. */
  lemma StarAltClosure(g: Graph)
    requires StarArena(g)
    ensures EpsClosure(g, 0) == {3, 9, 11}
  {
    StarAltSplit(g);
    HopClosure(g, 0, 10);
  }

  /** After `b`: the `c` fragment's start alone. */
  lemma StarPairClosure(g: Graph)
    requires StarArena(g)
    ensures EpsClosure(g, 2) == {5}
  {
    LitStable(g, 5, 'c', 4);
    HopClosure(g, 2, 5);
  }

  /** The successor set of a three-node set is the union of theirs. */
  lemma StepTriple(g: Graph, x: nat, y: nat, z: nat, c: char)
    requires x in g.nodes && y in g.nodes && z in g.nodes
    ensures StepSet(g, {x, y, z}, c) == StepSet(g, {x}, c) + StepSet(g, {y}, c) + StepSet(g, {z}, c)
  {
    StepPair(g, x, y, c);
    StepSetAdd(g, {x, y}, z, c);
    StepSetOne(g, z, c);
    assert {x, y} + {z} == {x, y, z};
  }

  lemma StarStepA(g: Graph)
    requires StarArena(g)
    ensures StepSet(g, {1}, 'a') == {3, 9, 11}
  {
    LitStep(g, 1, 'a', 0);
    StarAltClosure(g);
  }

  /** Past `a`, a `b` enters the group. */
  lemma StarStepB(g: Graph)
    requires StarArena(g)
    ensures StepSet(g, {3, 9, 11}, 'b') == {5}
  {
    StepTriple(g, 3, 9, 11, 'b');
    LitStep(g, 3, 'b', 2);
    StarPairClosure(g);
    LitNoStep(g, 9, 'd', 8, 'b');
    AcceptNoStep(g, 11, 'b');
  }

  /** Past `a`, a `d` takes the right alternative to the end. */
  lemma StarStepD(g: Graph)
    requires StarArena(g)
    ensures StepSet(g, {3, 9, 11}, 'd') == {11}
  {
    LitNoStep(g, 3, 'b', 2, 'd');
    LitStep(g, 9, 'd', 8);
    AcceptStable(g, 11);
    HopClosure(g, 8, 11);
    AcceptNoStep(g, 11, 'd');
    StepTriple(g, 3, 9, 11, 'd');
  }

  /** Inside the group, `c` closes it: back to `b` or out to the end. */
  lemma StarStepC(g: Graph)
    requires StarArena(g)
    ensures StepSet(g, {5}, 'c') == {3, 11}
  {
    LitStep(g, 5, 'c', 4);
    StarLoopSplit(g);
  }

  /** From the loop set, `b` re-enters the group. */
  lemma StarStepAgain(g: Graph)
    requires StarArena(g)
    ensures StepSet(g, {3, 11}, 'b') == {5}
  {
    StepPair(g, 3, 11, 'b');
    LitStep(g, 3, 'b', 2);
    StarPairClosure(g);
    AcceptNoStep(g, 11, 'b');
  }

  /** Reading `u` and then `v` is reading `v` from where `u` leads. */
  lemma {:induction false} AfterAppend(g: Graph, s: set<nat>, u: string, v: string)
    ensures After(g, s, u + v) == After(g, After(g, s, u), v)
    decreases |u|
  {
    if u != [] {
      assert (u + v)[0] == u[0] && (u + v)[1..] == u[1..] + v;
      AfterAppend(g, StepSet(g, s, u[0]), u[1..], v);
    } else {
      assert u + v == v;
    }
  }

  /** The word `w` written `n` times. */
  function Repeat(w: string, n: nat): (r: string)
    ensures |r| == n * |w|
    ensures n > 0 ==> r == w + Repeat(w, n - 1)
  {
    if n == 0 then [] else w + Repeat(w, n - 1)
  }

  /** A word that leads from a set back to it can be read any number of times. */
  lemma {:induction false} AfterLoop(g: Graph, s: set<nat>, w: string, n: nat)
    requires After(g, s, w) == s
    ensures After(g, s, Repeat(w, n)) == s
  {
    if n > 0 {
      AfterAppend(g, s, w, Repeat(w, n - 1));
      AfterLoop(g, s, w, n - 1);
    }
  }

  /** A two-char word, one successor set after the other. */
  lemma AfterTwo(g: Graph, s: set<nat>, c1: char, s1: set<nat>, c2: char, s2: set<nat>)
    requires StepSet(g, s, c1) == s1 && StepSet(g, s1, c2) == s2
    ensures After(g, s, [c1, c2]) == s2
  {
    assert [c1, c2] == [c1] + [c2] && [c2] == [c2] + [];
    AfterCons(g, s, c1, [c2]);
    AfterCons(g, s1, c2, []);
  }

  /** Two rounds of a two-char loop. */
  lemma LoopTail(g: Graph, s: set<nat>, s1: set<nat>)
    requires StepSet(g, s, 'b') == s1 && StepSet(g, s1, 'c') == s
    ensures After(g, s, "bcbc") == s
  {
    LoopWords();
    AfterTwo(g, s, 'b', s1, 'c', s);
    AfterLoop(g, s, "bc", 2);
  }

  lemma LoopWords()
    ensures Repeat("bc", 2) == "bcbc" && ['a'] + "bc" + "bcbc" == "abcbcbc"
  {
    assert Repeat("bc", 1) == "bc" + [];
  }

  /** Two further rounds of the group from its loop set. */
  lemma StarRounds(g: Graph, w: string)
    requires StarArena(g) && w == "bcbc"
    ensures After(g, {3, 11}, w) == {3, 11}
  {
    StarStepAgain(g);
    StarStepC(g);
    LoopTail(g, {3, 11}, {5});
  }

  /** The first round of the group, right after `a`. */
  lemma StarFirstRound(g: Graph, w: string)
    requires StarArena(g) && w == "bc"
    ensures After(g, {3, 9, 11}, w) == {3, 11}
  {
    StarStepB(g);
    StarStepC(g);
    AfterTwo(g, {3, 9, 11}, 'b', {5}, 'c', {3, 11});
  }

  lemma StarAfterLong(g: Graph, w: string)
    requires StarArena(g) && w == "abcbcbc"
    ensures After(g, {1}, w) == {3, 11}
  {
    StarStepA(g);
    StarFirstRound(g, "bc");
    StarRounds(g, "bcbc");
    LoopWords();
    AfterAt(g, {1}, 'a', {3, 9, 11}, "bc", "bcbc", {3, 11});
  }

  lemma StarAfterShort(g: Graph)
    requires StarArena(g)
    ensures After(g, {1}, "ad") == {11}
  {
    StarStepA(g);
    StarStepD(g);
    AfterTwo(g, {1}, 'a', {3, 9, 11}, 'd', {11});
  }

  /** `abcbcbc` ends in the group's loop set, which holds the end; `ad` ends at the end. */
  lemma StarAfter(g: Graph)
    requires StarArena(g)
    ensures After(g, EpsClosure(g, 1), "abcbcbc") == {3, 11}
    ensures After(g, EpsClosure(g, 1), "ad") == {11}
  {
    LitStable(g, 1, 'a', 0);
    StarAfterLong(g, "abcbcbc");
    StarAfterShort(g);
  }

  /** A char, then two words, each leading on from the last set. */
  lemma AfterAt(g: Graph, s: set<nat>, c: char, s1: set<nat>, u: string, v: string, s2: set<nat>)
    requires StepSet(g, s, c) == s1 && After(g, s1, u) == s2 && After(g, s2, v) == s2
    ensures After(g, s, [c] + u + v) == s2
  {
    AfterCons(g, s, c, u + v);
    assert [c] + u + v == [c] + (u + v);
    AfterAppend(g, s1, u, v);
  }

  /** `regex_asterisk1`: `a(bc)*|d` compiles, and both acceptance tests accept `abcbcbc` and `ad`. */
  method RegexAsterisk1() returns (asWritten: seq<Outcome<bool>>, corrected: seq<Outcome<bool>>)
    ensures asWritten == [Ok(true), Ok(true)] && corrected == [Ok(true), Ok(true)]
  {
    var d, memo := ConstructDfa("a(bc)*|d");
    StarNfa();
    StarArenaHolds();
    StarAfter(StarGraph);
    var nfa := Machine(StarGraph, Automaton(1, 11));
    var x1, y1 := MatchAccepted(nfa, d.value, memo, "abcbcbc");
    var x2, y2 := MatchAccepted(nfa, d.value, memo, "ad");
    asWritten, corrected := [x1, x2], [y1, y2];
  }
}
