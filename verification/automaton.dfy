/** Automaton fragments: a start and an end node in a shared arena, the four fragment
    constructors of Thompson's construction, alphabet extraction, flattening and the
    id-insensitive equality of automata. */
module Automata {
  import opened Outcomes
  import opened Symbols
  import opened State

  datatype Automaton = Automaton(start: nat, end: nat)

  /** An automaton together with the arena its nodes live in. */
  datatype Machine = Machine(g: Graph, a: Automaton)

  /** A fragment under construction: both ids are nodes and the end still accepts. */
  predicate IsFragment(g: Graph, a: Automaton) {
    a.start in g.nodes && a.end in g.nodes && g.nodes[a.end] == Accept
  }

  /** Nodes other than those in `touched` are present in `h` and unchanged. */
  predicate Preserves(g: Graph, h: Graph, touched: set<nat>) {
    forall i :: i in g.nodes && i !in touched ==> i in h.nodes && h.nodes[i] == g.nodes[i]
  }

  /** `automaton_transition`: a fresh end `Accept`, then a fresh start with one `s` edge to it. */
  function AutomatonTransition(g: Graph, s: Symbol): (r: Machine)
    requires Valid(g)
    ensures r.g.nodes.Keys == g.nodes.Keys + {r.a.start, r.a.end}
    ensures r.a.start !in g.nodes && r.a.end !in g.nodes && r.a.start != r.a.end
    ensures r.g.nodes[r.a.start] == Transition([Edge(s, Some(r.a.end))])
    ensures r.g.nodes[r.a.end] == Accept
    ensures Valid(r.g) && Preserves(g, r.g, {})
    ensures AllSeparated(g) ==> AllSeparated(r.g)
  {
    var end := NewAccept(g);
    var start := NewTransition(end.g, s, end.id);
    Machine(start.g, Automaton(start.id, end.id))
  }

  /** `concat_automaton`: the end of `from` is connected to the start of `to`. */
  function ConcatAutomaton(g: Graph, from: Automaton, to: Automaton): (r: Machine)
    requires Valid(g) && from.end in g.nodes && to.start in g.nodes
    ensures r.a == Automaton(from.start, to.end)
    ensures r.g.nodes.Keys == g.nodes.Keys
    ensures r.g.nodes[from.end] == Connect(g.nodes[from.end], to.start)
    ensures g.nodes[from.end].Accept? ==> r.g.nodes[from.end] == Transition([Edge(Epsilon, Some(to.start))])
    ensures Valid(r.g) && Preserves(g, r.g, {from.end})
    ensures AllSeparated(g) ==> AllSeparated(r.g)
  {
    var h := ConnectAt(g, from.end, to.start);
    Machine(h, Automaton(from.start, to.end))
  }

  /** The two allocations of `automaton_alternate`: a split to both starts, then an `Accept`. */
  function AlternateNodes(g: Graph, a1: Automaton, a2: Automaton): (r: Machine)
    requires Valid(g) && a1.start in g.nodes && a2.start in g.nodes
    ensures r.g.nodes.Keys == g.nodes.Keys + {r.a.start, r.a.end}
    ensures r.a.start !in g.nodes && r.a.end !in g.nodes && r.a.start != r.a.end
    ensures r.g.nodes[r.a.start] == Transition([Edge(Epsilon, Some(a1.start)), Edge(Epsilon, Some(a2.start))])
    ensures r.g.nodes[r.a.end] == Accept
    ensures Valid(r.g) && Preserves(g, r.g, {})
    ensures AllSeparated(g) ==> AllSeparated(r.g)
  {
    var split := NewSplit(g, a1.start, a2.start);
    var end := NewAccept(split.g);
    Machine(end.g, Automaton(split.id, end.id))
  }

  /** `automaton_alternate`: a fresh split start to both starts, and both ends connected to
      one fresh `Accept` end. */
  function AutomatonAlternate(g: Graph, a1: Automaton, a2: Automaton): (r: Machine)
    requires Valid(g)
    requires a1.start in g.nodes && a2.start in g.nodes && a1.end in g.nodes && a2.end in g.nodes
    ensures r.g.nodes.Keys == g.nodes.Keys + {r.a.start, r.a.end}
    ensures r.a.start !in g.nodes && r.a.end !in g.nodes && r.a.start != r.a.end
    ensures r.g.nodes[r.a.start] == Transition([Edge(Epsilon, Some(a1.start)), Edge(Epsilon, Some(a2.start))])
    ensures r.g.nodes[r.a.end] == Accept
    ensures a1.end != a2.end ==> r.g.nodes[a1.end] == Connect(g.nodes[a1.end], r.a.end)
    ensures a1.end != a2.end ==> r.g.nodes[a2.end] == Connect(g.nodes[a2.end], r.a.end)
    ensures Valid(r.g) && Preserves(g, r.g, {a1.end, a2.end})
    ensures AllSeparated(g) ==> AllSeparated(r.g)
  {
    var m := AlternateNodes(g, a1, a2);
    var h1 := ConnectAt(m.g, a1.end, m.a.end);
    var h2 := ConnectAt(h1, a2.end, m.a.end);
    Machine(h2, m.a)
  }

  /** The two allocations of `automaton_zero_or_one`: an `Accept` end, then a split to the
      old start and that end. */
  function ZeroOrOneNodes(g: Graph, a: Automaton): (r: Machine)
    requires Valid(g) && a.start in g.nodes
    ensures r.g.nodes.Keys == g.nodes.Keys + {r.a.start, r.a.end}
    ensures r.a.start !in g.nodes && r.a.end !in g.nodes && r.a.start != r.a.end
    ensures r.g.nodes[r.a.start] == Transition([Edge(Epsilon, Some(a.start)), Edge(Epsilon, Some(r.a.end))])
    ensures r.g.nodes[r.a.end] == Accept
    ensures Valid(r.g) && Preserves(g, r.g, {})
    ensures AllSeparated(g) ==> AllSeparated(r.g)
  {
    var end := NewAccept(g);
    var start := NewSplit(end.g, a.start, end.id);
    Machine(start.g, Automaton(start.id, end.id))
  }

  /** `automaton_zero_or_one`, which is the Kleene star: a fresh end, a fresh split start to
      the old start and the new end, and the old end overwritten by the same split, so the
      fragment loops back to its start. */
  function AutomatonZeroOrOne(g: Graph, a: Automaton): (r: Machine)
    requires Valid(g) && a.start in g.nodes && a.end in g.nodes
    ensures r.g.nodes.Keys == g.nodes.Keys + {r.a.start, r.a.end}
    ensures r.a.start !in g.nodes && r.a.end !in g.nodes && r.a.start != r.a.end
    ensures r.g.nodes[r.a.start] == Transition([Edge(Epsilon, Some(a.start)), Edge(Epsilon, Some(r.a.end))])
    ensures r.g.nodes[a.end] == Transition([Edge(Epsilon, Some(a.start)), Edge(Epsilon, Some(r.a.end))])
    ensures r.g.nodes[r.a.end] == Accept
    ensures Valid(r.g) && Preserves(g, r.g, {a.end})
    ensures AllSeparated(g) ==> AllSeparated(r.g)
  {
    var m := ZeroOrOneNodes(g, a);
    TargetsOfSmall(Epsilon, Epsilon, a.start, m.a.end);
    SmallSeparated(Epsilon, Some(a.start), Some(m.a.end));
    var h := Rewrite(m.g, a.end, m.g.nodes[m.a.start]);
    Machine(h, m.a)
  }

  /** The star's old end has an epsilon edge back to the old start and one out to the new
      end, and the new start reaches both without reading a symbol. */
  lemma ZeroOrOneLoops(g: Graph, a: Automaton)
    requires Valid(g) && a.start in g.nodes && a.end in g.nodes
    ensures var r := AutomatonZeroOrOne(g, a);
      && Step(r.g, a.end, a.start, Some(Epsilon))
      && Step(r.g, a.end, r.a.end, Some(Epsilon))
      && Step(r.g, r.a.start, a.start, Some(Epsilon))
      && Step(r.g, r.a.start, r.a.end, Some(Epsilon))
  {
    var r := AutomatonZeroOrOne(g, a);
    DeltaOfSplit(a.start, r.a.end, Epsilon);
  }

  // ---------------------------------------------------------------------------
  // Alphabet.

  /** The chars on `Alphabet` edges of the listed nodes. */
  function CharsOf(g: Graph, ys: seq<nat>): (r: set<char>)
    requires forall y :: y in ys ==> y in g.nodes
    ensures forall c :: c in r <==> exists y, e :: y in ys && e in EdgesOf(g.nodes[y]) && e.sym == Alphabet(c)
  {
    if ys == [] then {}
    else
      var here := set e | e in EdgesOf(g.nodes[ys[0]]) && e.sym.Alphabet? :: e.sym.c;
      var rest := CharsOf(g, ys[1..]);
      assert forall y :: y in ys <==> y == ys[0] || y in ys[1..];
      here + rest
  }

  /** `get_alphabet`: every char on an `Alphabet` edge of a node reachable from the start;
      `CharClass` and `Epsilon` edges add nothing. */
  function GetAlphabet(m: Machine): (r: set<char>)
    requires Valid(m.g) && m.a.start in m.g.nodes
    ensures forall c :: c in r <==>
      exists y, e :: Reaches(m.g, m.a.start, y, None) && y in m.g.nodes && e in EdgesOf(m.g.nodes[y]) && e.sym == Alphabet(c)
  {
    var ys := Flatten(m.g, m.a.start);
    ReachableInArena(m.g, m.a.start);
    CharsOf(m.g, ys)
  }

  lemma ReachableInArena(g: Graph, a: nat)
    requires Valid(g) && a in g.nodes
    ensures forall y :: Reaches(g, a, y, None) ==> y in g.nodes
  {
    forall y | Reaches(g, a, y, None)
      ensures y in g.nodes
    {
      var p :| IsPath(g, p, None) && p[0] == a && p[|p| - 1] == y;
    }
  }

  // ---------------------------------------------------------------------------
  // Flattening and equality.

  /** `From<Automaton> for Vec<State>`: the nodes in `dfs` order from the start. */
  function FlattenMachine(m: Machine): (r: seq<Node>)
    requires Valid(m.g) && m.a.start in m.g.nodes
    ensures |r| > 0 && r[0] == m.g.nodes[m.a.start]
    ensures forall n :: n in r <==> exists y :: Reaches(m.g, m.a.start, y, None) && y in m.g.nodes && m.g.nodes[y] == n
  {
    var ys := Flatten(m.g, m.a.start);
    ReachableInArena(m.g, m.a.start);
    var r := seq(|ys|, k requires 0 <= k < |ys| => m.g.nodes[ys[k]]);
    forall n | n in r
      ensures exists y :: Reaches(m.g, m.a.start, y, None) && y in m.g.nodes && m.g.nodes[y] == n
    {
      var k :| 0 <= k < |r| && r[k] == n;
      assert ys[k] in ys;
    }
    forall n | exists y :: Reaches(m.g, m.a.start, y, None) && y in m.g.nodes && m.g.nodes[y] == n
      ensures n in r
    {
      var y :| Reaches(m.g, m.a.start, y, None) && y in m.g.nodes && m.g.nodes[y] == n;
      var k :| 0 <= k < |ys| && ys[k] == y;
      assert r[k] == n;
    }
    r
  }

  predicate WellFormedMachine(m: Machine) {
    Valid(m.g) && m.a.start in m.g.nodes && m.a.end in m.g.nodes
  }

  /** `PartialEq for Automaton`: the flattened node lists agree pointwise under node
      equality, and so do the two starts and the two ends. */
  predicate AutomatonEq(m1: Machine, m2: Machine)
    requires WellFormedMachine(m1) && WellFormedMachine(m2)
  {
    var f1 := FlattenMachine(m1);
    var f2 := FlattenMachine(m2);
    && |f1| == |f2|
    && (forall k :: 0 <= k < |f1| ==> NodeEq(f1[k], f2[k]))
    && NodeEq(m1.g.nodes[m1.a.start], m2.g.nodes[m2.a.start])
    && NodeEq(m1.g.nodes[m1.a.end], m2.g.nodes[m2.a.end])
  }

  /** Automaton equality is an equivalence relation. */
  lemma AutomatonEqIsEquivalence(m1: Machine, m2: Machine, m3: Machine)
    requires WellFormedMachine(m1) && WellFormedMachine(m2) && WellFormedMachine(m3)
    ensures AutomatonEq(m1, m1)
    ensures AutomatonEq(m1, m2) ==> AutomatonEq(m2, m1)
    ensures AutomatonEq(m1, m2) && AutomatonEq(m2, m3) ==> AutomatonEq(m1, m3)
  {
    var f1, f2, f3 := FlattenMachine(m1), FlattenMachine(m2), FlattenMachine(m3);
    forall k | 0 <= k < |f1|
      ensures NodeEq(f1[k], f1[k])
    {
      NodeEqIsEquivalence(f1[k], f1[k], f1[k], 0);
    }
    NodeEqIsEquivalence(m1.g.nodes[m1.a.start], m1.g.nodes[m1.a.start], m1.g.nodes[m1.a.start], 0);
    NodeEqIsEquivalence(m1.g.nodes[m1.a.end], m1.g.nodes[m1.a.end], m1.g.nodes[m1.a.end], 0);
    if AutomatonEq(m1, m2) {
      forall k | 0 <= k < |f2|
        ensures NodeEq(f2[k], f1[k])
      {
        NodeEqIsEquivalence(f1[k], f2[k], f2[k], 0);
      }
      NodeEqIsEquivalence(m1.g.nodes[m1.a.start], m2.g.nodes[m2.a.start], m3.g.nodes[m3.a.start], 0);
      NodeEqIsEquivalence(m1.g.nodes[m1.a.end], m2.g.nodes[m2.a.end], m3.g.nodes[m3.a.end], 0);
      if AutomatonEq(m2, m3) {
        forall k | 0 <= k < |f1|
          ensures NodeEq(f1[k], f3[k])
        {
          NodeEqIsEquivalence(f1[k], f2[k], f3[k], 0);
        }
      }
    }
  }
}
