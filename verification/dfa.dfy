/** The DFA builder and matcher: a worklist subset construction over the NFA, with a
    memo from sets of NFA ids to DFA nodes, and a whole-input matcher. The DFA lives in
    an arena of its own; its nodes start out as `Accept` placeholders and gain their
    edges when their set is expanded. */
module Dfa {
  import opened Outcomes
  import opened Symbols
  import opened State
  import opened Automata
  import opened Transform
  import opened Nfa
  import opened Subsets

  /** `visited_dfa`: the DFA node of each NFA-id set seen so far. */
  type Memo = map<set<nat>, nat>

  /** Every set of `a` keeps its node in `b`. */
  predicate Extends(a: Memo, b: Memo) {
    forall s :: s in a ==> s in b && b[s] == a[s]
  }

  /** No two sets share a node. */
  predicate Injective(m: Memo) {
    forall s, t :: s in m && t in m && m[s] == m[t] ==> s == t
  }

  /** The DFA arena: exactly the memo's nodes plus the shared end, an `Accept` node that no
      set maps to. */
  predicate Arena(dg: Graph, memo: Memo, end: nat) {
    && Valid(dg)
    && end in dg.nodes && dg.nodes[end] == Accept
    && end !in memo.Values
    && dg.nodes.Keys == memo.Values + {end}
    && Injective(memo)
  }

  /** The edges `generate_transitions` gives the node of set `s` for the chars in `done`:
      one `Alphabet(c)` edge for each char whose successor set is non-empty, to the node of
      that set, and nothing else; in the derived symbol order. */
  ghost predicate CharEdges(nfa: Graph, s: set<nat>, done: set<char>, memo: Memo, n: Node) {
    && (forall c :: Count(EdgesOf(n), Alphabet(c)) == if c in done && StepSet(nfa, s, c) != {} then 1 else 0)
    && (forall e :: e in EdgesOf(n) ==>
          e.sym.Alphabet? && StepSet(nfa, s, e.sym.c) in memo && e.to == Some(memo[StepSet(nfa, s, e.sym.c)]))
    && Sorted(EdgesOf(n))
    && (n.Transition? ==> n.edges != [])
  }

  /** A finished DFA node of set `s`: the char edges, plus one epsilon edge to the shared
      end exactly when `s` holds the NFA's end. */
  ghost predicate DfaNode(nfa: Machine, alphabet: set<char>, memo: Memo, end: nat, s: set<nat>, n: Node) {
    && (forall c :: Count(EdgesOf(n), Alphabet(c)) == if c in alphabet && StepSet(nfa.g, s, c) != {} then 1 else 0)
    && Count(EdgesOf(n), Epsilon) == (if nfa.a.end in s then 1 else 0)
    && (forall e :: e in EdgesOf(n) ==>
          || (e.sym.Alphabet? && StepSet(nfa.g, s, e.sym.c) in memo && e.to == Some(memo[StepSet(nfa.g, s, e.sym.c)]))
          || (e.sym == Epsilon && e.to == Some(end)))
    && Sorted(EdgesOf(n))
    && (n.Transition? ==> n.edges != [])
  }

  /** Some word leads from the start's epsilon closure to exactly the set `s`. */
  ghost predicate Reached(nfa: Machine, s: set<nat>) {
    exists w :: After(nfa.g, EpsClosure(nfa.g, nfa.a.start), w) == s
  }

  /** A successor set of a reached set is reached, by the word one char longer. */
  lemma ReachedStep(nfa: Machine, s: set<nat>, c: char)
    requires Reached(nfa, s)
    ensures Reached(nfa, StepSet(nfa.g, s, c))
  {
    var w :| After(nfa.g, EpsClosure(nfa.g, nfa.a.start), w) == s;
    AfterSnoc(nfa.g, EpsClosure(nfa.g, nfa.a.start), w, c);
  }

  /** What `construct_dfa` builds from `nfa` over `alphabet`: the start node is the node of
      the start's epsilon closure, every set in the memo is the set of NFA ids some word
      leads to from there (so all its ids are reachable from the start), and every node is
      the finished node of its set. */
  ghost predicate SubsetDfa(nfa: Machine, alphabet: set<char>, dfa: Machine, memo: Memo) {
    && Arena(dfa.g, memo, dfa.a.end)
    && EpsClosure(nfa.g, nfa.a.start) in memo && memo[EpsClosure(nfa.g, nfa.a.start)] == dfa.a.start
    && (forall s :: s in memo ==> s <= nfa.g.nodes.Keys && AllReachable(nfa.g, nfa.a.start, s))
    && (forall s :: s in memo ==> Reached(nfa, s))
    && (forall s :: s in memo ==> DfaNode(nfa, alphabet, memo, dfa.a.end, s, dfa.g.nodes[memo[s]]))
  }

  // ---------------------------------------------------------------------------
  // delta_states

  /** One member's share of `delta_states`: the closures of the targets not seen yet, less
      what was seen. A target already seen has no epsilon edge, so skipping it loses
      nothing. */
  method NewClosures(g: Graph, ts: seq<nat>, seen: set<nat>) returns (found: set<nat>)
    requires Valid(g) && forall t :: t in ts ==> t in g.nodes
    requires forall y :: y in seen ==> y in g.nodes && Delta(g.nodes[y], Epsilon) == []
    ensures found == ClosureOf(g, ts) - seen
  {
    found := {};
    var i := 0;
    while i < |ts|
      invariant 0 <= i <= |ts|
      invariant found == ClosureOf(g, ts[..i]) - seen
    {
      var t := ts[i];
      assert ts[..i + 1] == ts[..i] + [t];
      ClosureOfSnoc(g, ts[..i], t);
      var before := ClosureOf(g, ts[..i]);
      assert ClosureOf(g, ts[..i + 1]) - seen == (before - seen) + (EpsClosure(g, t) - seen);
      if t !in seen {
        var cl := FollowEpsilon(g, t);
        var added := set y | y in cl && y !in seen;
        assert added == EpsClosure(g, t) - seen;
        found := found + added;
      } else {
        StableClosure(g, t);
        assert EpsClosure(g, t) - seen == {};
      }
      i := i + 1;
    }
    assert ts[..i] == ts;
  }

  /** `delta_states`: the successor set of `s` on `c`, the union over the members of the
      closures of their `Alphabet(c)` targets. */
  method DeltaStates(g: Graph, s: set<nat>, c: char) returns (r: set<nat>)
    requires Valid(g) && s <= g.nodes.Keys
    ensures r == StepSet(g, s, c)
  {
    r := {};
    var rest := s;
    while rest != {}
      invariant rest <= s
      invariant r == StepSet(g, s - rest, c)
      invariant forall y :: y in r ==> y in g.nodes && Delta(g.nodes[y], Epsilon) == []
      decreases |rest|
    {
      var x :| x in rest;
      var ts := Delta(g.nodes[x], Alphabet(c));
      forall t | t in ts
        ensures t in g.nodes
      {
        TargetsNarrow(EdgesOf(g.nodes[x]), t, Some(Alphabet(c)));
      }
      var found := NewClosures(g, ts, r);
      StepSetAdd(g, s - rest, x, c);
      assert (s - rest) + {x} == s - (rest - {x});
      r := r + found;
      rest := rest - {x};
    }
    assert s - rest == s;
  }

  // ---------------------------------------------------------------------------
  // generate_transitions

  /** The targets of a node after one ordered insertion. */
  lemma InsertTargets(n: Node, s: Symbol, other: nat)
    ensures forall t :: t in Targets(EdgesOf(InsertTransitionOrd(n, s, other)), None) ==>
              t in Targets(EdgesOf(n), None) || t == other
  {
    var es := EdgesOf(InsertTransitionOrd(n, s, other));
    forall t | t in Targets(es, None)
      ensures t in Targets(EdgesOf(n), None) || t == other
    {
      TargetsIff(es, None, t);
      TargetsIff(EdgesOf(n), None, t);
    }
  }

  /** Adding the edge of a char with a non-empty successor set. */
  lemma CharEdgesInsert(nfa: Graph, s: set<nat>, done: set<char>, memo: Memo, n: Node, c: char)
    requires CharEdges(nfa, s, done, memo, n) && c !in done
    requires StepSet(nfa, s, c) != {} && StepSet(nfa, s, c) in memo
    ensures CharEdges(nfa, s, done + {c}, memo, InsertTransitionOrd(n, Alphabet(c), memo[StepSet(nfa, s, c)]))
  {
    var m := InsertTransitionOrd(n, Alphabet(c), memo[StepSet(nfa, s, c)]);
    assert Edge(Alphabet(c), Some(memo[StepSet(nfa, s, c)])) in m.edges;
  }

  /** A node's char edges stay right when the memo grows. */
  lemma CharEdgesExtend(nfa: Graph, s: set<nat>, done: set<char>, memo: Memo, memo': Memo, n: Node)
    requires CharEdges(nfa, s, done, memo, n) && Extends(memo, memo')
    ensures CharEdges(nfa, s, done, memo', n)
  {
  }

  /** The arena part of `generate_transitions`' state: the memo only grew, and among the
      old nodes only `n` changed. */
  predicate GenArena(dg: Graph, memo: Memo, end: nat, n: nat, dg': Graph, memo': Memo) {
    Arena(dg', memo', end) && Extends(memo, memo') && Preserves(dg, dg', {n}) && n in dg.nodes && n in dg'.nodes
  }

  /** `pairs` lists each new set once, with its node. */
  ghost predicate GenPairs(memo: Memo, memo': Memo, pairs: seq<(nat, set<nat>)>) {
    && (forall p :: p in pairs <==> p.1 in memo' && p.1 !in memo && p.0 == memo'[p.1])
    && NoDup(pairs)
  }

  /** Every new set is reached by some word and is a set of NFA ids reachable from the
      start, and its node is a fresh `Accept` placeholder. */
  ghost predicate GenFresh(nfa: Machine, alphabet: set<char>, dg: Graph, memo: Memo, s: set<nat>, dg': Graph, memo': Memo) {
    forall t :: t in memo' && t !in memo ==>
      && memo'[t] !in dg.nodes && memo'[t] in dg'.nodes && dg'.nodes[memo'[t]] == Accept
      && t <= nfa.g.nodes.Keys && AllReachable(nfa.g, nfa.a.start, t) && Reached(nfa, t)
  }

  /** The state of `generate_transitions` on the node `n` of set `s` after the chars in
      `done`. */
  ghost predicate Generated(nfa: Machine, alphabet: set<char>, dg: Graph, memo: Memo, end: nat, n: nat, s: set<nat>,
                            done: set<char>, dg': Graph, memo': Memo, pairs: seq<(nat, set<nat>)>) {
    && GenArena(dg, memo, end, n, dg', memo')
    && GenPairs(memo, memo', pairs)
    && GenFresh(nfa, alphabet, dg, memo, s, dg', memo')
    && CharEdges(nfa.g, s, done, memo', dg'.nodes[n])
  }

  lemma AllocArena(dg: Graph, memo: Memo, end: nat, n: nat, dg1: Graph, memo1: Memo, d: set<nat>)
    requires GenArena(dg, memo, end, n, dg1, memo1) && d !in memo1
    ensures var a := NewAccept(dg1);
            a.id !in dg1.nodes && GenArena(dg, memo, end, n, a.g, memo1[d := a.id])
  {
    var a := NewAccept(dg1);
    var memo2 := memo1[d := a.id];
    assert memo2.Values == memo1.Values + {a.id} by {
      forall v | v in memo2.Values
        ensures v in memo1.Values + {a.id}
      {
        var t :| t in memo2 && memo2[t] == v;
        if t != d {
          assert t in memo1;
        }
      }
      forall v | v in memo1.Values
        ensures v in memo2.Values
      {
        var t :| t in memo1 && memo1[t] == v;
        assert t != d && memo2[t] == v;
      }
      assert memo2[d] == a.id;
    }
  }

  lemma AllocPairs(memo: Memo, memo1: Memo, pairs1: seq<(nat, set<nat>)>, d: set<nat>, id: nat)
    requires GenPairs(memo, memo1, pairs1) && d !in memo1 && Extends(memo, memo1)
    ensures GenPairs(memo, memo1[d := id], pairs1 + [(id, d)])
  {
    NoDupConcat(pairs1, [(id, d)]);
  }

  lemma AllocFresh(nfa: Machine, alphabet: set<char>, dg: Graph, memo: Memo, s: set<nat>, dg1: Graph, memo1: Memo,
                   d: set<nat>, c: char)
    requires GenFresh(nfa, alphabet, dg, memo, s, dg1, memo1) && Extends(memo, memo1)
    requires Valid(dg1) && dg.nodes.Keys <= dg1.nodes.Keys && d !in memo1
    requires c in alphabet && d == StepSet(nfa.g, s, c) && d != {}
    requires d <= nfa.g.nodes.Keys && AllReachable(nfa.g, nfa.a.start, d) && Reached(nfa, d)
    ensures var a := NewAccept(dg1);
            GenFresh(nfa, alphabet, dg, memo, s, a.g, memo1[d := a.id])
  {
  }

  /** `visited_dfa.entry(d).or_insert_with(..)`: the node of `d`, allocated as a fresh
      `Accept` placeholder and listed in `pairs` when `d` is new. */
  method NodeOf(nfa: Machine, alphabet: set<char>, dg: Graph, memo: Memo, end: nat, n: nat, s: set<nat>,
                done: set<char>, c: char, d: set<nat>, dg1: Graph, memo1: Memo, pairs1: seq<(nat, set<nat>)>)
    returns (dg2: Graph, memo2: Memo, pairs2: seq<(nat, set<nat>)>)
    requires Valid(nfa.g) && s <= nfa.g.nodes.Keys && AllReachable(nfa.g, nfa.a.start, s) && c in alphabet
    requires Reached(nfa, s)
    requires Generated(nfa, alphabet, dg, memo, end, n, s, done, dg1, memo1, pairs1)
    requires d == StepSet(nfa.g, s, c) && d != {}
    ensures Generated(nfa, alphabet, dg, memo, end, n, s, done, dg2, memo2, pairs2)
    ensures d in memo2 && Extends(memo1, memo2)
  {
    if d in memo1 {
      dg2, memo2, pairs2 := dg1, memo1, pairs1;
    } else {
      StepSetReachable(nfa.g, nfa.a.start, s, c);
      ReachedStep(nfa, s, c);
      var a := NewAccept(dg1);
      AllocArena(dg, memo, end, n, dg1, memo1, d);
      AllocPairs(memo, memo1, pairs1, d, a.id);
      AllocFresh(nfa, alphabet, dg, memo, s, dg1, memo1, d, c);
      CharEdgesExtend(nfa.g, s, done, memo1, memo1[d := a.id], dg1.nodes[n]);
      dg2, memo2, pairs2 := a.g, memo1[d := a.id], pairs1 + [(a.id, d)];
    }
  }

  /** Adding the edge for `c` to `n` keeps the state of `generate_transitions`. */
  lemma InsertGenerated(nfa: Machine, alphabet: set<char>, dg: Graph, memo: Memo, end: nat, n: nat, s: set<nat>,
                        done: set<char>, c: char, dg1: Graph, memo1: Memo, pairs1: seq<(nat, set<nat>)>)
    requires Generated(nfa, alphabet, dg, memo, end, n, s, done, dg1, memo1, pairs1)
    requires s in memo && memo[s] == n && c !in done
    requires StepSet(nfa.g, s, c) != {} && StepSet(nfa.g, s, c) in memo1
    ensures var node := InsertTransitionOrd(dg1.nodes[n], Alphabet(c), memo1[StepSet(nfa.g, s, c)]);
            Generated(nfa, alphabet, dg, memo, end, n, s, done + {c}, Rewrite(dg1, n, node), memo1, pairs1)
  {
    var target := memo1[StepSet(nfa.g, s, c)];
    var node := InsertTransitionOrd(dg1.nodes[n], Alphabet(c), target);
    CharEdgesInsert(nfa.g, s, done, memo1, dg1.nodes[n], c);
    InsertTargets(dg1.nodes[n], Alphabet(c), target);
    InsertArena(dg, memo, end, n, dg1, memo1, node, target);
    InsertFresh(nfa, alphabet, dg, memo, n, s, dg1, memo1, node);
  }

  /** Rewriting an old node keeps the fresh placeholders. */
  lemma InsertFresh(nfa: Machine, alphabet: set<char>, dg: Graph, memo: Memo, n: nat, s: set<nat>,
                    dg1: Graph, memo1: Memo, node: Node)
    requires GenFresh(nfa, alphabet, dg, memo, s, dg1, memo1) && n in dg.nodes && n in dg1.nodes
    ensures GenFresh(nfa, alphabet, dg, memo, s, Rewrite(dg1, n, node), memo1)
  {
  }

  /** Rewriting `n` to a node whose targets are in the arena keeps the arena part. */
  lemma InsertArena(dg: Graph, memo: Memo, end: nat, n: nat, dg1: Graph, memo1: Memo, node: Node, target: nat)
    requires GenArena(dg, memo, end, n, dg1, memo1) && n in memo.Values && target in memo1.Values
    requires forall t :: t in Targets(EdgesOf(node), None) ==> t in Targets(EdgesOf(dg1.nodes[n]), None) || t == target
    ensures GenArena(dg, memo, end, n, Rewrite(dg1, n, node), memo1)
  {
    assert n != end;
    assert forall t :: t in Targets(EdgesOf(node), None) ==> t in dg1.nodes;
  }

  /** One iteration of `generate_transitions`, for the char `c`. */
  method CharStep(nfa: Machine, alphabet: set<char>, dg: Graph, memo: Memo, end: nat, n: nat, s: set<nat>,
                  done: set<char>, c: char, dg1: Graph, memo1: Memo, pairs1: seq<(nat, set<nat>)>)
    returns (dg2: Graph, memo2: Memo, pairs2: seq<(nat, set<nat>)>)
    requires Valid(nfa.g) && s <= nfa.g.nodes.Keys && AllReachable(nfa.g, nfa.a.start, s) && Reached(nfa, s)
    requires s in memo && memo[s] == n && c in alphabet && c !in done
    requires Generated(nfa, alphabet, dg, memo, end, n, s, done, dg1, memo1, pairs1)
    ensures Generated(nfa, alphabet, dg, memo, end, n, s, done + {c}, dg2, memo2, pairs2)
  {
    var d := DeltaStates(nfa.g, s, c);
    if d != {} {
      var dg3, memo3, pairs3 := NodeOf(nfa, alphabet, dg, memo, end, n, s, done, c, d, dg1, memo1, pairs1);
      InsertGenerated(nfa, alphabet, dg, memo, end, n, s, done, c, dg3, memo3, pairs3);
      dg2, memo2, pairs2 := Rewrite(dg3, n, InsertTransitionOrd(dg3.nodes[n], Alphabet(c), memo3[d])), memo3, pairs3;
    } else {
      dg2, memo2, pairs2 := dg1, memo1, pairs1;
    }
  }

  /** `generate_transitions`: for every char of the alphabet whose successor set is
      non-empty, looks the set up in the memo, allocating and queueing a fresh `Accept`
      node on first sight, and adds the char's edge from `n` to that set's node. */
  method GenerateTransitions(nfa: Machine, alphabet: set<char>, dg: Graph, memo: Memo, end: nat, n: nat, s: set<nat>)
    returns (dg': Graph, memo': Memo, pairs: seq<(nat, set<nat>)>)
    requires Valid(nfa.g) && s <= nfa.g.nodes.Keys && AllReachable(nfa.g, nfa.a.start, s) && Reached(nfa, s)
    requires Arena(dg, memo, end) && s in memo && memo[s] == n && dg.nodes[n] == Accept
    ensures Arena(dg', memo', end) && Extends(memo, memo')
    ensures forall p :: p in pairs <==> p.1 in memo' && p.1 !in memo && p.0 == memo'[p.1]
    ensures NoDup(pairs)
    ensures forall t :: t in memo' && t !in memo ==>
              && memo'[t] !in dg.nodes && dg'.nodes[memo'[t]] == Accept
              && t <= nfa.g.nodes.Keys && AllReachable(nfa.g, nfa.a.start, t) && Reached(nfa, t)
    ensures Preserves(dg, dg', {n})
    ensures CharEdges(nfa.g, s, alphabet, memo', dg'.nodes[n])
  {
    dg', memo', pairs := CharSteps(nfa, alphabet, dg, memo, end, n, s);
  }

  /** The loop of `generate_transitions` over the alphabet, in some order. */
  method CharSteps(nfa: Machine, alphabet: set<char>, dg: Graph, memo: Memo, end: nat, n: nat, s: set<nat>)
    returns (dg': Graph, memo': Memo, pairs: seq<(nat, set<nat>)>)
    requires Valid(nfa.g) && s <= nfa.g.nodes.Keys && AllReachable(nfa.g, nfa.a.start, s) && Reached(nfa, s)
    requires Arena(dg, memo, end) && s in memo && memo[s] == n && dg.nodes[n] == Accept
    ensures Generated(nfa, alphabet, dg, memo, end, n, s, alphabet, dg', memo', pairs)
  {
    dg', memo', pairs := dg, memo, [];
    var rest := alphabet;
    assert Generated(nfa, alphabet, dg, memo, end, n, s, {}, dg', memo', pairs);
    while rest != {}
      invariant rest <= alphabet
      invariant Generated(nfa, alphabet, dg, memo, end, n, s, alphabet - rest, dg', memo', pairs)
      decreases |rest|
    {
      var c :| c in rest;
      assert alphabet - (rest - {c}) == (alphabet - rest) + {c};
      dg', memo', pairs := CharStep(nfa, alphabet, dg, memo, end, n, s, alphabet - rest, c, dg', memo', pairs);
      rest := rest - {c};
    }
  }

  // ---------------------------------------------------------------------------
  // construct_dfa: the worklist

  type Queue = seq<(nat, set<nat>)>

  /** The sets waiting in the queue. */
  function Queued(queue: Queue): set<set<nat>> {
    set p | p in queue :: p.1
  }

  /** Every set in the memo is reached by some word and is a set of NFA ids reachable
      from the NFA's start. */
  ghost predicate KeysReachable(nfa: Machine, memo: Memo) {
    forall s :: s in memo ==> s <= nfa.g.nodes.Keys && AllReachable(nfa.g, nfa.a.start, s) && Reached(nfa, s)
  }

  /** Each queued set waits once, with its node, still an `Accept` placeholder. */
  predicate QueueOk(dg: Graph, memo: Memo, queue: Queue) {
    && NoDup(queue)
    && forall p :: p in queue ==> p.1 in memo && memo[p.1] == p.0 && p.0 in dg.nodes && dg.nodes[p.0] == Accept
  }

  /** Every set no longer queued has all its char edges. */
  ghost predicate Expanded(nfa: Machine, alphabet: set<char>, dg: Graph, memo: Memo, queue: Queue) {
    forall s :: s in memo && s !in Queued(queue) ==>
      memo[s] in dg.nodes && CharEdges(nfa.g, s, alphabet, memo, dg.nodes[memo[s]])
  }

  /** `success_dfa_states`: once each, the nodes of the expanded sets that hold the NFA's end. */
  predicate SuccessOk(nfa: Machine, memo: Memo, queue: Queue, successes: seq<nat>) {
    && NoDup(successes)
    && (forall x :: x in successes ==> x in memo.Values)
    && forall s :: s in memo ==> (memo[s] in successes <==> s !in Queued(queue) && nfa.a.end in s)
  }

  /** The invariant of the worklist loop of `construct_dfa`. */
  ghost predicate Building(nfa: Machine, alphabet: set<char>, dg: Graph, memo: Memo, end: nat, queue: Queue,
                           successes: seq<nat>) {
    && Arena(dg, memo, end)
    && KeysReachable(nfa, memo)
    && QueueOk(dg, memo, queue)
    && Expanded(nfa, alphabet, dg, memo, queue)
    && SuccessOk(nfa, memo, queue, successes)
  }

  /** Popping the head of the queue removes exactly its set. */
  lemma PopQueued(dg: Graph, memo: Memo, queue: Queue)
    requires QueueOk(dg, memo, queue) && queue != []
    ensures Queued(queue[1..]) == Queued(queue) - {queue[0].1}
  {
    forall p | p in queue[1..]
      ensures p.1 != queue[0].1
    {
      var k :| 0 <= k < |queue[1..]| && queue[1..][k] == p;
      assert queue[k + 1] == p;
    }
    assert forall p :: p in queue <==> p == queue[0] || p in queue[1..];
  }

  /** The queue after a pop and an append of the new pairs. */
  lemma StepQueue(dg: Graph, memo: Memo, n: nat, s: set<nat>, queue: Queue, dg': Graph, memo': Memo, pairs: Queue)
    requires QueueOk(dg, memo, queue) && queue != [] && queue[0] == (n, s) && Injective(memo)
    requires Extends(memo, memo') && Preserves(dg, dg', {n}) && NoDup(pairs)
    requires forall p :: p in pairs <==> p.1 in memo' && p.1 !in memo && p.0 == memo'[p.1]
    requires forall t :: t in memo' && t !in memo ==> memo'[t] in dg'.nodes && dg'.nodes[memo'[t]] == Accept
    ensures QueueOk(dg', memo', queue[1..] + pairs)
    ensures Queued(queue[1..] + pairs) == Queued(queue) - {s} + (memo'.Keys - memo.Keys)
  {
    PopQueued(dg, memo, queue);
    assert forall p :: p in queue <==> p == queue[0] || p in queue[1..];
    forall p | p in queue[1..]
      ensures p.0 != n && p !in pairs
    {
      assert p.1 != s;
    }
    assert NoDup(queue[1..]);
    NoDupConcat(queue[1..], pairs);
    var q := queue[1..] + pairs;
    assert forall p :: p in q <==> p in queue[1..] || p in pairs;
    forall t | t in Queued(q)
      ensures t in Queued(queue) - {s} + (memo'.Keys - memo.Keys)
    {
      var p :| p in q && p.1 == t;
      if p in queue[1..] {
        assert t in Queued(queue[1..]);
      }
    }
    forall t | t in memo'.Keys - memo.Keys
      ensures t in Queued(q)
    {
      assert (memo'[t], t) in pairs;
    }
    forall t | t in Queued(queue) - {s}
      ensures t in Queued(q)
    {
      assert t in Queued(queue[1..]);
      var p :| p in queue[1..] && p.1 == t;
    }
  }

  /** Expanding the head's set keeps every unqueued set expanded. */
  lemma StepExpanded(nfa: Machine, alphabet: set<char>, dg: Graph, memo: Memo, end: nat, n: nat, s: set<nat>,
                     queue: Queue, dg': Graph, memo': Memo, queue': Queue)
    requires Expanded(nfa, alphabet, dg, memo, queue) && Arena(dg, memo, end) && Arena(dg', memo', end)
    requires s in memo && memo[s] == n && Extends(memo, memo') && Preserves(dg, dg', {n})
    requires Queued(queue') == Queued(queue) - {s} + (memo'.Keys - memo.Keys)
    requires CharEdges(nfa.g, s, alphabet, memo', dg'.nodes[n])
    ensures Expanded(nfa, alphabet, dg', memo', queue')
  {
    forall t | t in memo' && t !in Queued(queue')
      ensures memo'[t] in dg'.nodes && CharEdges(nfa.g, t, alphabet, memo', dg'.nodes[memo'[t]])
    {
      if t != s {
        assert t in memo && t !in Queued(queue);
        assert memo[t] != n;
        CharEdgesExtend(nfa.g, t, alphabet, memo, memo', dg.nodes[memo[t]]);
      }
    }
  }

  /** Recording the head's node when its set holds the NFA's end keeps the success list. */
  lemma StepSuccess(nfa: Machine, memo: Memo, queue: Queue, successes: seq<nat>, n: nat, s: set<nat>,
                    memo': Memo, queue': Queue, successes': seq<nat>)
    requires SuccessOk(nfa, memo, queue, successes) && Injective(memo) && Injective(memo')
    requires s in memo && memo[s] == n && s in Queued(queue) && Extends(memo, memo')
    requires Queued(queue') == Queued(queue) - {s} + (memo'.Keys - memo.Keys)
    requires forall t :: t in memo' && t !in memo ==> memo'[t] !in memo.Values
    requires successes' == if nfa.a.end in s then successes + [n] else successes
    ensures SuccessOk(nfa, memo', queue', successes')
  {
    assert n !in successes;
    NoDupConcat(successes, [n]);
    forall t | t in memo'
      ensures memo'[t] in successes' <==> t !in Queued(queue') && nfa.a.end in t
    {
      if t in memo && t != s {
        assert memo[t] != n;
      }
    }
  }

  /** One round of the worklist loop: pop the head, record it when its set holds the NFA's
      end, expand it and queue the new sets. */
  method ExpandNext(nfa: Machine, alphabet: set<char>, dg: Graph, memo: Memo, end: nat, queue: Queue,
                    successes: seq<nat>)
    returns (dg': Graph, memo': Memo, queue': Queue, successes': seq<nat>)
    requires Valid(nfa.g)
    requires Building(nfa, alphabet, dg, memo, end, queue, successes) && queue != []
    ensures Building(nfa, alphabet, dg', memo', end, queue', successes')
    ensures Extends(memo, memo')
    ensures memo.Keys < memo'.Keys || (memo'.Keys == memo.Keys && |queue'| < |queue|)
  {
    var (n, s) := queue[0];
    assert queue[0] in queue;
    var pairs;
    dg', memo', pairs := GenerateTransitions(nfa, alphabet, dg, memo, end, n, s);
    queue' := queue[1..] + pairs;
    successes' := if nfa.a.end in s then successes + [n] else successes;
    StepQueue(dg, memo, n, s, queue, dg', memo', pairs);
    StepExpanded(nfa, alphabet, dg, memo, end, n, s, queue, dg', memo', queue');
    assert s in Queued(queue);
    StepSuccess(nfa, memo, queue, successes, n, s, memo', queue', successes');
    if pairs != [] {
      assert pairs[0] in pairs;
    }
  }

  /** Removing more sets from the pending ones leaves fewer pending. */
  lemma ShrinkPending<T>(all: set<T>, a: set<T>, b: set<T>)
    requires a < b <= all
    ensures |all - b| < |all - a|
  {
    var x :| x in b && x !in a;
    assert x in all - a && x !in all - b;
    SubsetCard(all - b, all - a);
  }

  // ---------------------------------------------------------------------------
  // construct_dfa: the epsilon edges to the shared end

  /** An expanded node of a set without the NFA's end is finished as it is. */
  lemma PlainNode(nfa: Machine, alphabet: set<char>, memo: Memo, end: nat, s: set<nat>, n: Node)
    requires CharEdges(nfa.g, s, alphabet, memo, n) && nfa.a.end !in s
    ensures DfaNode(nfa, alphabet, memo, end, s, n)
  {
    NoEpsilonCount(EdgesOf(n));
  }

  /** A count of epsilon edges in a list of char edges. */
  lemma NoEpsilonCount(es: seq<Edge>)
    requires forall e :: e in es ==> e.sym.Alphabet?
    ensures Count(es, Epsilon) == 0
  {
    if es != [] {
      assert es[0] in es;
      assert forall e :: e in es[1..] ==> e in es;
      NoEpsilonCount(es[1..]);
    }
  }

  /** An expanded node of a set with the NFA's end is finished by one epsilon edge to `end`. */
  lemma SuccessNode(nfa: Machine, alphabet: set<char>, memo: Memo, end: nat, s: set<nat>, n: Node)
    requires CharEdges(nfa.g, s, alphabet, memo, n) && nfa.a.end in s
    ensures DfaNode(nfa, alphabet, memo, end, s, InsertTransitionOrd(n, Epsilon, end))
  {
    NoEpsilonCount(EdgesOf(n));
  }

  /** The invariant of the epsilon loop after the first `i` successes. */
  ghost predicate Finishing(nfa: Machine, alphabet: set<char>, dg: Graph, memo: Memo, end: nat, successes: seq<nat>,
                            i: nat) {
    && Arena(dg, memo, end)
    && i <= |successes| && NoDup(successes) && (forall x :: x in successes ==> x in memo.Values)
    && forall s :: s in memo ==>
         && memo[s] in dg.nodes
         && if memo[s] in successes[..i] then DfaNode(nfa, alphabet, memo, end, s, dg.nodes[memo[s]])
            else CharEdges(nfa.g, s, alphabet, memo, dg.nodes[memo[s]]) && (nfa.a.end in s <==> memo[s] in successes[i..])
  }

  /** The loop's entry: all sets expanded, the successes exactly those holding the NFA's end. */
  lemma FinishingStart(nfa: Machine, alphabet: set<char>, dg: Graph, memo: Memo, end: nat, successes: seq<nat>)
    requires Building(nfa, alphabet, dg, memo, end, [], successes)
    ensures Finishing(nfa, alphabet, dg, memo, end, successes, 0)
  {
    assert successes[0..] == successes;
  }

  /** One round of the epsilon loop. */
  lemma FinishingStep(nfa: Machine, alphabet: set<char>, dg: Graph, memo: Memo, end: nat, successes: seq<nat>,
                      i: nat)
    requires Finishing(nfa, alphabet, dg, memo, end, successes, i) && i < |successes|
    ensures var x := successes[i];
            x in dg.nodes &&
            Finishing(nfa, alphabet, Rewrite(dg, x, InsertTransitionOrd(dg.nodes[x], Epsilon, end)), memo, end, successes, i + 1)
  {
    var x := successes[i];
    assert x in successes;
    var dg' := Rewrite(dg, x, InsertTransitionOrd(dg.nodes[x], Epsilon, end));
    FinishingArena(dg, memo, end, x);
    forall s | s in memo
      ensures memo[s] in dg'.nodes &&
        if memo[s] in successes[..i + 1] then DfaNode(nfa, alphabet, memo, end, s, dg'.nodes[memo[s]])
        else CharEdges(nfa.g, s, alphabet, memo, dg'.nodes[memo[s]]) && (nfa.a.end in s <==> memo[s] in successes[i + 1..])
    {
      FinishingOne(nfa, alphabet, dg, memo, end, successes, i, s);
    }
  }

  /** Adding the epsilon edge to the end keeps the arena well formed. */
  lemma FinishingArena(dg: Graph, memo: Memo, end: nat, x: nat)
    requires Arena(dg, memo, end) && x in memo.Values
    ensures Arena(Rewrite(dg, x, InsertTransitionOrd(dg.nodes[x], Epsilon, end)), memo, end)
  {
    InsertTargets(dg.nodes[x], Epsilon, end);
  }

  /** The round's effect on the node of one set. */
  lemma FinishingOne(nfa: Machine, alphabet: set<char>, dg: Graph, memo: Memo, end: nat, successes: seq<nat>,
                     i: nat, s: set<nat>)
    requires Finishing(nfa, alphabet, dg, memo, end, successes, i) && i < |successes| && s in memo
    ensures var x := successes[i];
            var dg' := Rewrite(dg, x, InsertTransitionOrd(dg.nodes[x], Epsilon, end));
            memo[s] in dg'.nodes &&
            if memo[s] in successes[..i + 1] then DfaNode(nfa, alphabet, memo, end, s, dg'.nodes[memo[s]])
            else CharEdges(nfa.g, s, alphabet, memo, dg'.nodes[memo[s]]) && (nfa.a.end in s <==> memo[s] in successes[i + 1..])
  {
    var x := successes[i];
    assert x in successes;
    NoDupSplit(successes, i);
    if memo[s] == x {
      SuccessNode(nfa, alphabet, memo, end, s, dg.nodes[x]);
    }
  }

  /** An element of a duplicate-free list occurs neither before nor after its position. */
  lemma NoDupSplit<T>(xs: seq<T>, i: nat)
    requires NoDup(xs) && i < |xs|
    ensures xs[..i + 1] == xs[..i] + [xs[i]] && xs[i..] == [xs[i]] + xs[i + 1..]
    ensures xs[i] !in xs[..i] && xs[i] !in xs[i + 1..]
  {
    forall k | 0 <= k < |xs| && k != i
      ensures xs[k] != xs[i]
    {
    }
  }

  /** After the loop every node is finished. */
  lemma FinishingDone(nfa: Machine, alphabet: set<char>, dg: Graph, memo: Memo, end: nat, successes: seq<nat>)
    requires Finishing(nfa, alphabet, dg, memo, end, successes, |successes|)
    ensures forall s :: s in memo ==> DfaNode(nfa, alphabet, memo, end, s, dg.nodes[memo[s]])
  {
    forall s | s in memo
      ensures DfaNode(nfa, alphabet, memo, end, s, dg.nodes[memo[s]])
    {
      assert successes[..|successes|] == successes;
      if memo[s] !in successes {
        PlainNode(nfa, alphabet, memo, end, s, dg.nodes[memo[s]]);
      }
    }
  }

  // ---------------------------------------------------------------------------
  // construct_dfa

  /** The worklist loop of `construct_dfa` (lines 30-45): from the start set's node `0`
      and the shared end `1`, expands queued sets until the queue is empty. */
  method Worklist(nfa: Machine, alphabet: set<char>, startSet: set<nat>)
    returns (dg: Graph, memo: Memo, successes: seq<nat>)
    requires Valid(nfa.g) && nfa.a.start in nfa.g.nodes && startSet == EpsClosure(nfa.g, nfa.a.start)
    ensures Building(nfa, alphabet, dg, memo, 1, [], successes)
    ensures startSet in memo && memo[startSet] == 0
  {
    ClosureReachable(nfa.g, nfa.a.start);
    var st := NewAccept(EmptyGraph);
    var en := NewAccept(st.g);
    dg := en.g;
    memo := map[startSet := st.id];
    var queue: Queue := [(st.id, startSet)];
    successes := [];
    assert st.id == 0 && memo[startSet] == 0;
    assert memo.Values == {0} by {
      forall v | v in memo.Values
        ensures v == 0
      {
        var t :| t in memo && memo[t] == v;
      }
    }
    assert After(nfa.g, startSet, []) == startSet;
    assert Building(nfa, alphabet, dg, memo, 1, queue, successes);
    ghost var all := PowerSet(nfa.g.nodes.Keys);
    while queue != []
      invariant Building(nfa, alphabet, dg, memo, 1, queue, successes)
      invariant startSet in memo && memo[startSet] == 0
      decreases |all - memo.Keys|, |queue|
    {
      ghost var before := memo;
      dg, memo, queue, successes := ExpandNext(nfa, alphabet, dg, memo, 1, queue, successes);
      if before.Keys < memo.Keys {
        ShrinkPending(all, before.Keys, memo.Keys);
      }
    }
  }

  /** The loop of `construct_dfa` at lines 47-49: one epsilon edge from every success node
      to the shared end. */
  method AddEndEdges(nfa: Machine, alphabet: set<char>, dg: Graph, memo: Memo, end: nat, successes: seq<nat>)
    returns (dg': Graph)
    requires Building(nfa, alphabet, dg, memo, end, [], successes)
    ensures Arena(dg', memo, end)
    ensures forall s :: s in memo ==> DfaNode(nfa, alphabet, memo, end, s, dg'.nodes[memo[s]])
  {
    dg' := dg;
    FinishingStart(nfa, alphabet, dg', memo, end, successes);
    var i := 0;
    while i < |successes|
      invariant Finishing(nfa, alphabet, dg', memo, end, successes, i)
    {
      var x := successes[i];
      FinishingStep(nfa, alphabet, dg', memo, end, successes, i);
      dg' := Rewrite(dg', x, InsertTransitionOrd(dg'.nodes[x], Epsilon, end));
      i := i + 1;
    }
    FinishingDone(nfa, alphabet, dg', memo, end, successes);
  }

  /** `construct_dfa`: builds the NFA, then the DFA of the subsets its words reach, in a fresh arena
      whose first two nodes are the start and the shared end; the memo is returned too. */
  method ConstructDfa(re: string) returns (r: Outcome<Machine>, memo: Memo)
    ensures r.Ok? <==> ConstructNfa(re).Ok?
    ensures !r.Ok? ==> r == ConstructNfa(re)
    ensures r.Ok? ==> var nfa := ConstructNfa(re).value;
              r.value.a == Automaton(0, 1) && SubsetDfa(nfa, GetAlphabet(nfa), r.value, memo)
  {
    memo := map[];
    var nfa :- ConstructNfa(re);
    var alphabet := GetAlphabet(nfa);
    var startIds := FollowEpsilon(nfa.g, nfa.a.start);
    var startSet := set y | y in startIds;
    assert startSet == EpsClosure(nfa.g, nfa.a.start);
    var dg, successes;
    dg, memo, successes := Worklist(nfa, alphabet, startSet);
    dg := AddEndEdges(nfa, alphabet, dg, memo, 1, successes);
    r := Ok(Machine(dg, Automaton(0, 1)));
  }
}
