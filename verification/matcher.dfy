/** `match_input` and what it decides: the walk through a DFA one char at a time, the
    acceptance test at its end, and, for a DFA that `construct_dfa` built, both in terms
    of the sets of NFA ids the input leads to. */
module Matcher {
  import opened Outcomes
  import opened Symbols
  import opened State
  import opened Automata
  import opened Transform
  import opened Nfa
  import opened Subsets
  import opened Dfa
  import ParserCases

  /** The node reached from `n` by taking, for each char of `w` in turn, the first target of
      the node's `Alphabet` edges for that char; `None` when some char has no edge. */
  function Walk(g: Graph, n: nat, w: string): (r: Option<nat>)
    requires Valid(g) && n in g.nodes
    ensures r.Some? ==> r.value in g.nodes
    decreases |w|
  {
    if w == [] then Some(n)
    else
      var ts := Delta(g.nodes[n], Alphabet(w[0]));
      if ts == [] then None
      else
        assert ts[0] in ts;
        TargetsNarrow(EdgesOf(g.nodes[n]), ts[0], Some(Alphabet(w[0])));
        Walk(g, ts[0], w[1..])
  }

  /** The acceptance test of `match_input`: some node of the epsilon closure is `Accept`. */
  ghost predicate Accepting(g: Graph, n: nat) {
    exists y :: y in EpsClosure(g, n) && y in g.nodes && g.nodes[y] == Accept
  }

  /** The loop of `match_input`: one step per char along the first `Alphabet` target; a char
      without an edge is the panic of `expect`. */
  method WalkInput(g: Graph, start: nat, input: string) returns (r: Outcome<nat>)
    requires Valid(g) && start in g.nodes
    ensures r.Ok? <==> Walk(g, start, input).Some?
    ensures r.Ok? ==> r.value == Walk(g, start, input).value
    ensures !r.Ok? ==> r == Panic(NoTransition)
  {
    var cur := start;
    var i := 0;
    while i < |input|
      invariant 0 <= i <= |input| && cur in g.nodes
      invariant Walk(g, start, input) == Walk(g, cur, input[i..])
    {
      var ts := Delta(g.nodes[cur], Alphabet(input[i]));
      if ts == [] {
        return Panic(NoTransition);
      }
      assert ts[0] in ts;
      TargetsNarrow(EdgesOf(g.nodes[cur]), ts[0], Some(Alphabet(input[i])));
      assert input[i..][1..] == input[i + 1..];
      cur := ts[0];
      i := i + 1;
    }
    return Ok(cur);
  }

  /** `match_input`: walk the input from the start, then accept when the reached node's
      epsilon closure holds an `Accept` node. */
  method MatchInput(dfa: Machine, input: string) returns (r: Outcome<bool>)
    requires WellFormedMachine(dfa)
    ensures r.Ok? <==> Walk(dfa.g, dfa.a.start, input).Some?
    ensures !r.Ok? ==> r == Panic(NoTransition)
    ensures r.Ok? ==> (r.value <==> Accepting(dfa.g, Walk(dfa.g, dfa.a.start, input).value))
  {
    var n :- WalkInput(dfa.g, dfa.a.start, input);
    var cl := FollowEpsilon(dfa.g, n);
    var found := AnyAccept(dfa.g, cl);
    return Ok(found);
  }

  /** The scan of `match_input` over the closure: whether some listed node is `Accept`. */
  method AnyAccept(g: Graph, cl: seq<nat>) returns (found: bool)
    requires forall y :: y in cl ==> y in g.nodes
    ensures found <==> exists y :: y in cl && g.nodes[y] == Accept
  {
    found := false;
    var k := 0;
    while k < |cl|
      invariant 0 <= k <= |cl|
      invariant found <==> exists j :: 0 <= j < k && g.nodes[cl[j]] == Accept
    {
      assert cl[k] in cl;
      found := found || g.nodes[cl[k]] == Accept;
      k := k + 1;
    }
    if found {
      var j :| 0 <= j < |cl| && g.nodes[cl[j]] == Accept;
      assert cl[j] in cl;
    }
    assert (exists y :: y in cl && g.nodes[y] == Accept) ==> found by {
      if exists y :: y in cl && g.nodes[y] == Accept {
        var y :| y in cl && g.nodes[y] == Accept;
        var j :| 0 <= j < |cl| && cl[j] == y;
      }
    }
  }

  /** The acceptance test that the shared end wired up at `dfa.rs:47-55` is built for:
      accept when the reached node's epsilon closure holds the DFA's end. */
  method MatchInputEnd(dfa: Machine, input: string) returns (r: Outcome<bool>)
    requires WellFormedMachine(dfa)
    ensures r.Ok? <==> Walk(dfa.g, dfa.a.start, input).Some?
    ensures !r.Ok? ==> r == Panic(NoTransition)
    ensures r.Ok? ==> (r.value <==> dfa.a.end in EpsClosure(dfa.g, Walk(dfa.g, dfa.a.start, input).value))
  {
    var n :- WalkInput(dfa.g, dfa.a.start, input);
    var cl := FollowEpsilon(dfa.g, n);
    return Ok(dfa.a.end in cl);
  }

  // ---------------------------------------------------------------------------
  // The matcher on a DFA that `construct_dfa` built.

  /** `dfa` and `memo` are what `construct_dfa` builds from `nfa`. */
  ghost predicate FromNfa(nfa: Machine, dfa: Machine, memo: Memo) {
    && Valid(nfa.g) && nfa.a.start in nfa.g.nodes
    && SubsetDfa(nfa, GetAlphabet(nfa), dfa, memo)
  }

  /** A char outside the alphabet leads nowhere from a set of reachable NFA ids. */
  lemma StepSetInAlphabet(nfa: Machine, s: set<nat>, c: char)
    requires Valid(nfa.g) && nfa.a.start in nfa.g.nodes && AllReachable(nfa.g, nfa.a.start, s)
    ensures StepSet(nfa.g, s, c) != {} ==> c in GetAlphabet(nfa)
  {
    if StepSet(nfa.g, s, c) != {} {
      StepSetWitness(nfa.g, s, c);
      var x, e :| x in s && x in nfa.g.nodes && e in EdgesOf(nfa.g.nodes[x]) && e.sym == Alphabet(c);
      assert Reaches(nfa.g, nfa.a.start, x, None);
    }
  }

  /** No edge with label `s` means a zero count of `s`. */
  lemma CountZero(es: seq<Edge>, s: Symbol)
    ensures Count(es, s) == 0 <==> forall e :: e in es ==> e.sym != s
  {
    if es != [] {
      CountZero(es[1..], s);
      assert forall e :: e in es <==> e == es[0] || e in es[1..];
    }
  }

  /** When every `s` edge goes to `target`, there is an `s` target exactly when the count
      of `s` is positive, and the first is `target`. */
  lemma {:induction false} TargetsOfCount(es: seq<Edge>, s: Symbol, target: nat)
    requires forall e :: e in es && e.sym == s ==> e.to == Some(target)
    ensures Targets(es, Some(s)) == [] <==> Count(es, s) == 0
    ensures Targets(es, Some(s)) != [] ==> Targets(es, Some(s))[0] == target
  {
    if es != [] {
      assert forall e :: e in es[1..] ==> e in es;
      assert es[0] in es;
      TargetsOfCount(es[1..], s, target);
    }
  }

  /** The DFA step on `c` from the node of `t` goes to the node of the successor set, and
      is missing exactly when that set is empty. */
  lemma DfaStep(nfa: Machine, dfa: Machine, memo: Memo, t: set<nat>, c: char)
    requires FromNfa(nfa, dfa, memo) && t in memo
    ensures memo[t] in dfa.g.nodes
    ensures var ts := Delta(dfa.g.nodes[memo[t]], Alphabet(c));
            && (ts == [] <==> StepSet(nfa.g, t, c) == {})
            && (ts != [] ==> StepSet(nfa.g, t, c) in memo && ts[0] == memo[StepSet(nfa.g, t, c)])
  {
    var node := dfa.g.nodes[memo[t]];
    var es := EdgesOf(node);
    var d := StepSet(nfa.g, t, c);
    assert DfaNode(nfa, GetAlphabet(nfa), memo, dfa.a.end, t, node);
    StepSetInAlphabet(nfa, t, c);
    assert Count(es, Alphabet(c)) != 0 ==> d in memo by {
      if Count(es, Alphabet(c)) != 0 {
        CountZero(es, Alphabet(c));
      }
    }
    TargetsOfCount(es, Alphabet(c), if d in memo then memo[d] else 0);
  }

  /** Walking the DFA from the node of `t` tracks the sets of NFA ids the word leads to. */
  lemma {:induction false} WalkTracks(nfa: Machine, dfa: Machine, memo: Memo, t: set<nat>, w: string)
    requires FromNfa(nfa, dfa, memo) && t in memo
    ensures memo[t] in dfa.g.nodes
    ensures Walk(dfa.g, memo[t], w).Some? <==> w == [] || After(nfa.g, t, w) != {}
    ensures Walk(dfa.g, memo[t], w).Some? ==>
              After(nfa.g, t, w) in memo && Walk(dfa.g, memo[t], w).value == memo[After(nfa.g, t, w)]
    decreases |w|
  {
    DfaStep(nfa, dfa, memo, t, 'a');
    if w != [] {
      DfaStep(nfa, dfa, memo, t, w[0]);
      var d := StepSet(nfa.g, t, w[0]);
      if d != {} {
        WalkTracks(nfa, dfa, memo, d, w[1..]);
      } else {
        AfterEmpty(nfa.g, w[1..]);
      }
    }
  }

  /** A node whose epsilon edges all go to an `Accept` node, and which has one, has that
      node as its closure. */
  lemma ClosureToEnd(g: Graph, x: nat, end: nat, e: Edge)
    requires Valid(g) && x in g.nodes && end in g.nodes && g.nodes[end] == Accept && x != end
    requires forall f :: f in EdgesOf(g.nodes[x]) && f.sym == Epsilon ==> f.to == Some(end)
    requires e in EdgesOf(g.nodes[x]) && e.sym == Epsilon
    ensures EpsClosure(g, x) == {end}
  {
    var es := EdgesOf(g.nodes[x]);
    TargetsIff(es, Some(Epsilon), end);
    ReachesRefl(g, x, Some(Epsilon));
    ReachesExtend(g, x, x, end, Some(Epsilon));
    forall u, v | u in {x, end} && u in g.nodes && v in Targets(EdgesOf(g.nodes[u]), Some(Epsilon))
      ensures v in {x, end}
    {
      TargetsIff(EdgesOf(g.nodes[u]), Some(Epsilon), v);
    }
    forall y | y in EpsClosure(g, x)
      ensures y == end
    {
      ClosedHoldsReachable(g, {x, end}, x, y, Some(Epsilon));
    }
  }

  /** A node without epsilon edges is its own closure. */
  lemma ClosureOfPlain(g: Graph, x: nat)
    requires x in g.nodes && forall f :: f in EdgesOf(g.nodes[x]) ==> f.sym != Epsilon
    ensures EpsClosure(g, x) == {x}
  {
    CountZero(EdgesOf(g.nodes[x]), Epsilon);
    TargetsOfCount(EdgesOf(g.nodes[x]), Epsilon, 0);
    StableClosure(g, x);
  }

  /** The epsilon closure of a DFA node: the shared end when the set holds the NFA's end,
      the node itself otherwise. */
  lemma DfaClosure(nfa: Machine, dfa: Machine, memo: Memo, t: set<nat>)
    requires FromNfa(nfa, dfa, memo) && t in memo
    ensures memo[t] in dfa.g.nodes && memo[t] != dfa.a.end
    ensures nfa.a.end in t ==> EpsClosure(dfa.g, memo[t]) == {dfa.a.end}
    ensures nfa.a.end !in t ==> EpsClosure(dfa.g, memo[t]) == {memo[t]}
  {
    var g, x, end := dfa.g, memo[t], dfa.a.end;
    var es := EdgesOf(g.nodes[x]);
    assert DfaNode(nfa, GetAlphabet(nfa), memo, end, t, g.nodes[x]);
    CountZero(es, Epsilon);
    if nfa.a.end in t {
      var e :| e in es && e.sym == Epsilon;
      ClosureToEnd(g, x, end, e);
    } else {
      ClosureOfPlain(g, x);
    }
  }

  /** Acceptance at the node of `t`: as `match_input` tests it, the set holds the NFA's
      end or has no successor on any char; by the end-based test, exactly the first. */
  lemma AcceptingIff(nfa: Machine, dfa: Machine, memo: Memo, t: set<nat>)
    requires FromNfa(nfa, dfa, memo) && t in memo
    ensures memo[t] in dfa.g.nodes
    ensures Accepting(dfa.g, memo[t]) <==> nfa.a.end in t || forall c :: StepSet(nfa.g, t, c) == {}
    ensures dfa.a.end in EpsClosure(dfa.g, memo[t]) <==> nfa.a.end in t
  {
    DfaClosure(nfa, dfa, memo, t);
    if nfa.a.end in t {
      assert dfa.a.end in EpsClosure(dfa.g, memo[t]);
    } else {
      AcceptingUnended(nfa, dfa, memo, t);
    }
  }

  /** Acceptance at the node of a set without the NFA's end: no successor on any char. */
  lemma AcceptingUnended(nfa: Machine, dfa: Machine, memo: Memo, t: set<nat>)
    requires FromNfa(nfa, dfa, memo) && t in memo && nfa.a.end !in t
    ensures memo[t] in dfa.g.nodes
    ensures Accepting(dfa.g, memo[t]) <==> forall c :: StepSet(nfa.g, t, c) == {}
  {
    DfaClosure(nfa, dfa, memo, t);
    var g, x, end := dfa.g, memo[t], dfa.a.end;
    var node := g.nodes[x];
    assert DfaNode(nfa, GetAlphabet(nfa), memo, end, t, node);
    assert Accepting(g, x) <==> node == Accept;
    forall c
      ensures StepSet(nfa.g, t, c) != {} ==> c in GetAlphabet(nfa)
    {
      StepSetInAlphabet(nfa, t, c);
    }
    NodeAccepting(nfa, GetAlphabet(nfa), memo, end, t, node);
  }

  /** A DFA node of a set without the NFA's end has no edge exactly when the set has no
      successor on any char. */
  lemma NodeAccepting(nfa: Machine, alphabet: set<char>, memo: Memo, end: nat, t: set<nat>, node: Node)
    requires DfaNode(nfa, alphabet, memo, end, t, node) && nfa.a.end !in t
    requires forall c :: StepSet(nfa.g, t, c) != {} ==> c in alphabet
    ensures node == Accept <==> forall c :: StepSet(nfa.g, t, c) == {}
  {
    var es := EdgesOf(node);
    CountZero(es, Epsilon);
    forall c
      ensures es == [] ==> StepSet(nfa.g, t, c) == {}
    {
      CountZero(es, Alphabet(c));
    }
    if es != [] {
      var e := es[0];
      assert e in es;
      CountZero(es, e.sym);
      assert StepSet(nfa.g, t, e.sym.c) != {};
    }
  }

  /** The matcher on a DFA built from `nfa`, for the word `w`: the walk succeeds exactly when
      `w` is empty or leads to a non-empty set of NFA ids; `match_input` then accepts when
      that set holds the NFA's end or has no successor at all, and the end-based test when
      it holds the NFA's end. */
  lemma MatchSemantics(nfa: Machine, dfa: Machine, memo: Memo, w: string)
    requires FromNfa(nfa, dfa, memo)
    ensures WellFormedMachine(dfa)
    ensures var t := After(nfa.g, EpsClosure(nfa.g, nfa.a.start), w);
            var n := Walk(dfa.g, dfa.a.start, w);
            && (n.Some? <==> w == [] || t != {})
            && (n.Some? ==> (Accepting(dfa.g, n.value) <==> nfa.a.end in t || forall c :: StepSet(nfa.g, t, c) == {}))
            && (n.Some? ==> (dfa.a.end in EpsClosure(dfa.g, n.value) <==> nfa.a.end in t))
  {
    var t0 := EpsClosure(nfa.g, nfa.a.start);
    WalkTracks(nfa, dfa, memo, t0, w);
    var t := After(nfa.g, t0, w);
    if Walk(dfa.g, dfa.a.start, w).Some? {
      AcceptingIff(nfa, dfa, memo, t);
    }
  }

  /** A word the NFA accepts walks the DFA to a node that both acceptance tests accept. */
  method MatchAccepted(nfa: Machine, dfa: Machine, memo: Memo, w: string) returns (asWritten: Outcome<bool>, corrected: Outcome<bool>)
    requires FromNfa(nfa, dfa, memo)
    requires nfa.a.end in After(nfa.g, EpsClosure(nfa.g, nfa.a.start), w)
    ensures asWritten == Ok(true) && corrected == Ok(true)
  {
    MatchSemantics(nfa, dfa, memo, w);
    asWritten := MatchInput(dfa, w);
    corrected := MatchInputEnd(dfa, w);
  }

  // ---------------------------------------------------------------------------
  // The pattern `.` on the empty input.

  /** `.` parses to the any-char class alone and builds its one-edge fragment. */
  lemma DotPattern()
    ensures ConstructNfa(".") == Ok(Build(EmptyGraph, AnyChar))
  {
    ParserCases.ClassCases('.', []);
    assert ['.'] + [] == ".";
    assert PostfixCharClass(".") == Ok(Parsed([ThompsonOp.All], []));
    assert PostfixPrimary(".") == Ok(Parsed([ThompsonOp.All], []));
    assert PostfixAsterisk(".") == Ok(Parsed([ThompsonOp.All], []));
    assert PostfixOr(".") == Ok(Parsed([ThompsonOp.All], []));
    assert ToThompsonPostfix(".") == Ok([ThompsonOp.All]);
    ConstructFromTree(".", AnyChar);
  }

  /** In a DFA built from `.`, the start node's set is the NFA's start alone, which has no
      `Alphabet` edge: the node keeps its `Accept` placeholder, so `match_input`'s test
      accepts the empty input, while the end-based test, like the NFA, rejects it. */
  lemma DotAcceptsEmpty(dfa: Machine, memo: Memo)
    requires FromNfa(Build(EmptyGraph, AnyChar), dfa, memo)
    ensures WellFormedMachine(dfa)
    ensures Walk(dfa.g, dfa.a.start, "") == Some(dfa.a.start)
    ensures Accepting(dfa.g, dfa.a.start)
    ensures dfa.a.end !in EpsClosure(dfa.g, dfa.a.start)
  {
    var nfa := Build(EmptyGraph, AnyChar);
    var g, x := nfa.g, nfa.a.start;
    assert g.nodes[x] == Transition([Edge(CharClass(Class.All), Some(nfa.a.end))]);
    DeltaOfTransition(CharClass(Class.All), nfa.a.end, Epsilon);
    StableClosure(g, x);
    var t0 := EpsClosure(g, x);
    forall c
      ensures StepSet(g, t0, c) == {}
    {
      DeltaOfTransition(CharClass(Class.All), nfa.a.end, Alphabet(c));
      assert ClosureOf(g, Delta(g.nodes[x], Alphabet(c))) == {};
    }
    MatchSemantics(nfa, dfa, memo, "");
    AcceptingIff(nfa, dfa, memo, t0);
  }

  /** `construct_dfa(".")` followed by `match_input("")` accepts; the end-based test
      rejects. */
  method MatchDotOnEmpty() returns (asWritten: Outcome<bool>, corrected: Outcome<bool>)
    ensures asWritten == Ok(true)
    ensures corrected == Ok(false)
  {
    var r, memo := ConstructDfa(".");
    DotPattern();
    DotAcceptsEmpty(r.value, memo);
    asWritten := MatchInput(r.value, "");
    corrected := MatchInputEnd(r.value, "");
  }
}
