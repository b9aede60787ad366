/** The state graph shared by all automata: an arena of nodes indexed by their id.
    A node is either `Accept` (no edges) or `Transition`, an ordered list of labelled
    edges; the source's single-edge transition is a one-edge list and its split node is a
    two-epsilon-edge list. Edges hold the target's id, so rewriting a node in place is an
    overwrite of its slot. */
module State {
  import opened Outcomes
  import opened Symbols

  datatype Edge = Edge(sym: Symbol, to: Option<nat>)

  datatype Node = Accept | Transition(edges: seq<Edge>)

  /** The arena; `next` is the id the next allocation draws. */
  datatype Graph = Graph(nodes: map<nat, Node>, next: nat)

  datatype Allocated = Allocated(g: Graph, id: nat)

  /** The edges of a node (`adjacent` in the source); `Accept` has none. */
  function EdgesOf(n: Node): seq<Edge> {
    if n.Accept? then [] else n.edges
  }

  /** Whether an edge label passes a filter: `None` lets every label through. */
  predicate Matches(s: Symbol, only: Option<Symbol>) {
    only.None? || s == only.value
  }

  /** Targets of the edges whose label passes the filter, in edge order. */
  function Targets(es: seq<Edge>, only: Option<Symbol>): (r: seq<nat>)
    ensures |r| <= |es|
  {
    if es == [] then []
    else
      var head := if es[0].to.Some? && Matches(es[0].sym, only) then [es[0].to.value] else [];
      var tail := Targets(es[1..], only);
      assert forall e :: e in es <==> e == es[0] || e in es[1..];
      head + tail
  }

  /** The targets are exactly the ids on edges that pass the filter. */
  lemma TargetsIff(es: seq<Edge>, only: Option<Symbol>, t: nat)
    ensures t in Targets(es, only) <==> exists e :: e in es && e.to == Some(t) && Matches(e.sym, only)
  {
    if es != [] {
      TargetsIff(es[1..], only, t);
      assert forall e :: e in es <==> e == es[0] || e in es[1..];
    }
  }

  /** Every id below `next`, every edge target a node of the arena. */
  predicate Valid(g: Graph) {
    && (forall i :: i in g.nodes ==> i < g.next)
    && (forall i, t {:trigger t in Targets(EdgesOf(g.nodes[i]), None)} :: i in g.nodes && t in Targets(EdgesOf(g.nodes[i]), None) ==> t in g.nodes)
  }

  /** A node whose edges are either all epsilon edges or none of them is: every node the
      fragment constructors build is of this kind. */
  predicate Separated(n: Node) {
    forall i, j :: 0 <= i < |EdgesOf(n)| && 0 <= j < |EdgesOf(n)| ==> (EdgesOf(n)[i].sym == Epsilon <==> EdgesOf(n)[j].sym == Epsilon)
  }

  predicate AllSeparated(g: Graph) {
    forall i {:trigger Separated(g.nodes[i])} :: i in g.nodes ==> Separated(g.nodes[i])
  }

  /** The nodes the constructors allocate are separated. */
  lemma SmallSeparated(s: Symbol, t1: Option<nat>, t2: Option<nat>)
    ensures Separated(Accept)
    ensures Separated(Transition([Edge(s, t1)]))
    ensures Separated(Transition([Edge(Epsilon, t1), Edge(Epsilon, t2)]))
  {
  }

  /** Allocation of a node under a fresh id drawn from the increasing counter: the id is
      above every id in use, so no two nodes share one. */
  function Alloc(g: Graph, n: Node): (r: Allocated)
    requires Valid(g)
    ensures r.id == g.next && r.id !in g.nodes && forall i :: i in g.nodes ==> i < r.id
    ensures r.g == Graph(g.nodes[r.id := n], r.id + 1)
    ensures (forall t :: t in Targets(EdgesOf(n), None) ==> t in g.nodes || t == r.id) ==> Valid(r.g)
    ensures AllSeparated(g) && Separated(n) ==> AllSeparated(r.g)
  {
    Allocated(Graph(g.nodes[g.next := n], g.next + 1), g.next)
  }

  /** A fresh one-edge node. */
  function NewTransition(g: Graph, s: Symbol, to: nat): (r: Allocated)
    requires Valid(g) && (to in g.nodes || to == g.next)
    ensures r.id == g.next && r.g == Graph(g.nodes[r.id := Transition([Edge(s, Some(to))])], r.id + 1)
    ensures Valid(r.g) && (AllSeparated(g) ==> AllSeparated(r.g))
  {
    TargetsOfSmall(s, s, to, to);
    SmallSeparated(s, Some(to), Some(to));
    Alloc(g, Transition([Edge(s, Some(to))]))
  }

  /** A fresh split node: two epsilon edges. */
  function NewSplit(g: Graph, to1: nat, to2: nat): (r: Allocated)
    requires Valid(g) && to1 in g.nodes && to2 in g.nodes
    ensures r.id == g.next
    ensures r.g == Graph(g.nodes[r.id := Transition([Edge(Epsilon, Some(to1)), Edge(Epsilon, Some(to2))])], r.id + 1)
    ensures Valid(r.g) && (AllSeparated(g) ==> AllSeparated(r.g))
  {
    TargetsOfSmall(Epsilon, Epsilon, to1, to2);
    SmallSeparated(Epsilon, Some(to1), Some(to2));
    Alloc(g, Transition([Edge(Epsilon, Some(to1)), Edge(Epsilon, Some(to2))]))
  }

  /** A fresh accepting node. */
  function NewAccept(g: Graph): (r: Allocated)
    requires Valid(g)
    ensures r.id == g.next && r.g == Graph(g.nodes[r.id := Accept], r.id + 1)
    ensures Valid(r.g) && (AllSeparated(g) ==> AllSeparated(r.g))
  {
    SmallSeparated(Epsilon, None, None);
    Alloc(g, Accept)
  }

  /** Overwrite of one slot. */
  function Rewrite(g: Graph, id: nat, n: Node): (r: Graph)
    requires id in g.nodes
    ensures r == Graph(g.nodes[id := n], g.next)
    ensures Valid(g) && (forall t :: t in Targets(EdgesOf(n), None) ==> t in g.nodes) ==> Valid(r)
    ensures AllSeparated(g) && Separated(n) ==> AllSeparated(r)
  {
    Graph(g.nodes[id := n], g.next)
  }

  function RetargetAll(es: seq<Edge>, other: nat): (r: seq<Edge>)
    ensures |r| == |es|
    ensures forall k :: 0 <= k < |es| ==> r[k] == Edge(es[k].sym, Some(other))
  {
    if es == [] then [] else [Edge(es[0].sym, Some(other))] + RetargetAll(es[1..], other)
  }

  /** `connect`: every edge of a transition node now leads to `other`, labels kept; an
      accepting node becomes a node with one epsilon edge to `other`. */
  function Connect(n: Node, other: nat): (r: Node)
    ensures r.Transition?
    ensures n.Accept? ==> r.edges == [Edge(Epsilon, Some(other))]
    ensures n.Transition? ==> |r.edges| == |n.edges|
    ensures n.Transition? ==> forall k :: 0 <= k < |n.edges| ==> r.edges[k].sym == n.edges[k].sym
    ensures forall e :: e in r.edges ==> e.to == Some(other)
    ensures forall t :: t in Targets(r.edges, None) ==> t == other
  {
    match n
    case Accept =>
      TargetsAllTo([Edge(Epsilon, Some(other))], other);
      Transition([Edge(Epsilon, Some(other))])
    case Transition(es) =>
      var r := RetargetAll(es, other);
      TargetsAllTo(r, other);
      Transition(r)
  }

  lemma TargetsAllTo(es: seq<Edge>, other: nat)
    requires forall e :: e in es ==> e.to == Some(other)
    ensures forall t :: t in Targets(es, None) ==> t == other
  {
    forall t | t in Targets(es, None)
      ensures t == other
    {
      TargetsIff(es, None, t);
    }
  }

  /** `connect` applied to the node stored under `id`. */
  function ConnectAt(g: Graph, id: nat, other: nat): (r: Graph)
    requires id in g.nodes
    ensures r == Graph(g.nodes[id := Connect(g.nodes[id], other)], g.next)
    ensures Valid(g) && other in g.nodes ==> Valid(r)
    ensures AllSeparated(g) ==> AllSeparated(r)
  {
    ConnectSeparated(g.nodes[id], other);
    Rewrite(g, id, Connect(g.nodes[id], other))
  }

  /** `delta`: the targets reached from `n` by an edge labelled exactly `s`. */
  function Delta(n: Node, s: Symbol): seq<nat> {
    Targets(EdgesOf(n), Some(s))
  }

  lemma DeltaOfTransition(s: Symbol, t: nat, q: Symbol)
    ensures Delta(Transition([Edge(s, Some(t))]), q) == if s == q then [t] else []
  {
  }

  lemma DeltaOfSplit(t1: nat, t2: nat, q: Symbol)
    ensures Delta(Transition([Edge(Epsilon, Some(t1)), Edge(Epsilon, Some(t2))]), q) == if q == Epsilon then [t1, t2] else []
  {
    var es := [Edge(Epsilon, Some(t1)), Edge(Epsilon, Some(t2))];
    assert es[1..] == [Edge(Epsilon, Some(t2))];
    assert es[1..][1..] == [];
    assert Targets(es[1..][1..], Some(q)) == [];
    assert Targets(es[1..], Some(q)) == if q == Epsilon then [t2] else [];
  }

  /** The targets of a one-edge and of a two-edge node, whatever the labels. */
  lemma TargetsOfSmall(s1: Symbol, s2: Symbol, t1: nat, t2: nat)
    ensures Targets([Edge(s1, Some(t1))], None) == [t1]
    ensures Targets([Edge(s1, Some(t1)), Edge(s2, Some(t2))], None) == [t1, t2]
  {
    var es := [Edge(s1, Some(t1)), Edge(s2, Some(t2))];
    assert es[1..] == [Edge(s2, Some(t2))];
    assert [Edge(s1, Some(t1))][1..] == [];
    assert es[1..][1..] == [];
  }

  lemma DeltaOfAccept(q: Symbol)
    ensures Delta(Accept, q) == []
  {
  }

  /** Insertion of `e` before the first edge whose label is greater in the derived order. */
  function InsertOrd(es: seq<Edge>, e: Edge): (r: seq<Edge>)
    ensures |r| == |es| + 1
    ensures forall x :: x in r <==> x in es || x == e
    ensures multiset(r) == multiset(es) + multiset{e}
    ensures forall s :: Count(r, s) == Count(es, s) + (if e.sym == s then 1 else 0)
    ensures Sorted(es) ==> Sorted(r)
  {
    if es == [] then
      assert [e][1..] == [];
      [e]
    else if Less(e.sym, es[0].sym) then
      InsertFront(es, e);
      [e] + es
    else
      var tail := InsertOrd(es[1..], e);
      InsertBehind(es, e, tail);
      assert es == [es[0]] + es[1..];
      [es[0]] + tail
  }

  lemma InsertFront(es: seq<Edge>, e: Edge)
    requires es != [] && Less(e.sym, es[0].sym)
    ensures forall s :: Count([e] + es, s) == Count(es, s) + (if e.sym == s then 1 else 0)
    ensures Sorted(es) ==> Sorted([e] + es)
  {
    assert ([e] + es)[1..] == es;
    if Sorted(es) {
      forall i, j | 0 <= i < j < |[e] + es|
        ensures LessEq(([e] + es)[i].sym, ([e] + es)[j].sym)
      {
        if i == 0 {
          if j > 1 {
            assert LessEq(es[0].sym, es[j - 1].sym);
            LessIsStrictTotalOrder(e.sym, es[0].sym, es[j - 1].sym);
          }
        }
      }
    }
  }

  lemma InsertBehind(es: seq<Edge>, e: Edge, tail: seq<Edge>)
    requires es != [] && !Less(e.sym, es[0].sym)
    requires forall x :: x in tail <==> x in es[1..] || x == e
    requires forall s :: Count(tail, s) == Count(es[1..], s) + (if e.sym == s then 1 else 0)
    requires Sorted(es[1..]) ==> Sorted(tail)
    ensures forall s :: Count([es[0]] + tail, s) == Count(es, s) + (if e.sym == s then 1 else 0)
    ensures Sorted(es) ==> Sorted([es[0]] + tail)
  {
    assert ([es[0]] + tail)[1..] == tail;
    if Sorted(es) {
      LessTotal(e.sym, es[0].sym);
      var r := [es[0]] + tail;
      forall i, j | 0 <= i < j < |r|
        ensures LessEq(r[i].sym, r[j].sym)
      {
        if i == 0 {
          assert r[j] in tail;
          if r[j] != e {
            var k :| 0 <= k < |es[1..]| && es[1..][k] == r[j];
            assert es[k + 1] == r[j];
          }
        } else {
          assert r[i] == tail[i - 1] && r[j] == tail[j - 1];
        }
      }
    }
  }

  /** `insert_transition_ord`: adds one edge at its ordered position; an accepting node
      becomes a transition node with that single edge. */
  function InsertTransitionOrd(n: Node, s: Symbol, other: nat): (r: Node)
    ensures r.Transition?
    ensures forall x :: x in r.edges <==> x in EdgesOf(n) || x == Edge(s, Some(other))
    ensures forall q :: Count(r.edges, q) == Count(EdgesOf(n), q) + (if s == q then 1 else 0)
    ensures Sorted(EdgesOf(n)) ==> Sorted(r.edges)
  {
    match n
    case Accept => Transition([Edge(s, Some(other))])
    case Transition(es) => Transition(InsertOrd(es, Edge(s, Some(other))))
  }

  /** Number of edges labelled `s`. */
  function Count(es: seq<Edge>, s: Symbol): nat {
    if es == [] then 0 else (if es[0].sym == s then 1 else 0) + Count(es[1..], s)
  }

  predicate Sorted(es: seq<Edge>) {
    forall i, j :: 0 <= i < j < |es| ==> LessEq(es[i].sym, es[j].sym)
  }

  lemma LessTotal(a: Symbol, b: Symbol)
    ensures !Less(a, b) ==> LessEq(b, a)
  {
    LessIsStrictTotalOrder(a, b, a);
  }


  /** A node with an epsilon edge has no other kind of edge. */
  lemma SeparatedDelta(n: Node, c: char)
    requires Separated(n)
    ensures Delta(n, Epsilon) != [] ==> Delta(n, Alphabet(c)) == []
  {
    if Delta(n, Epsilon) != [] && Delta(n, Alphabet(c)) != [] {
      var t := Delta(n, Epsilon)[0];
      var u := Delta(n, Alphabet(c))[0];
      TargetsIff(EdgesOf(n), Some(Epsilon), t);
      TargetsIff(EdgesOf(n), Some(Alphabet(c)), u);
    }
  }

  /** `connect` keeps every label, so it keeps a node separated. */
  lemma ConnectSeparated(n: Node, other: nat)
    ensures Separated(n) ==> Separated(Connect(n, other))
  {
    var r := Connect(n, other);
    if n.Transition? && Separated(n) {
      forall i, j | 0 <= i < |EdgesOf(r)| && 0 <= j < |EdgesOf(r)|
        ensures EdgesOf(r)[i].sym == Epsilon <==> EdgesOf(r)[j].sym == Epsilon
      {
        assert EdgesOf(r)[i].sym == EdgesOf(n)[i].sym && EdgesOf(r)[j].sym == EdgesOf(n)[j].sym;
      }
    }
  }


  // ---------------------------------------------------------------------------
  // Equality of nodes, which ignores ids and compares only whether targets are set.

  predicate EdgeEq(a: Edge, b: Edge) {
    a.sym == b.sym && a.to.Some? == b.to.Some?
  }

  predicate NodeEq(a: Node, b: Node) {
    match (a, b)
    case (Accept, Accept) => true
    case (Transition(x), Transition(y)) => |x| == |y| && forall k :: 0 <= k < |x| ==> EdgeEq(x[k], y[k])
    case _ => false
  }

  /** Node equality is an equivalence that cannot see where edges lead. */
  lemma NodeEqIsEquivalence(a: Node, b: Node, c: Node, other: nat)
    ensures NodeEq(a, a)
    ensures NodeEq(a, b) ==> NodeEq(b, a)
    ensures NodeEq(a, b) && NodeEq(b, c) ==> NodeEq(a, c)
    ensures a.Transition? && (forall e :: e in a.edges ==> e.to.Some?) ==> NodeEq(a, Connect(a, other))
  {
    if a.Transition? && (forall e :: e in a.edges ==> e.to.Some?) {
      var r := Connect(a, other);
      forall k | 0 <= k < |a.edges|
        ensures EdgeEq(a.edges[k], r.edges[k])
      {
        assert a.edges[k] in a.edges;
      }
    }
  }

  // ---------------------------------------------------------------------------
  // Paths and reachability, the reference notions for `dfs` and `follow_epsilon`.

  predicate NoDup<T(==)>(s: seq<T>) {
    forall i, j :: 0 <= i < j < |s| ==> s[i] != s[j]
  }

  lemma NoDupConcat<T>(a: seq<T>, b: seq<T>)
    requires NoDup(a) && NoDup(b) && forall x :: x in a ==> x !in b
    ensures NoDup(a + b)
  {
    forall i, j | 0 <= i < j < |a + b|
      ensures (a + b)[i] != (a + b)[j]
    {
      if j < |a| {
      } else if i >= |a| {
        assert (a + b)[i] == b[i - |a|] && (a + b)[j] == b[j - |a|];
      } else {
        assert (a + b)[i] in a && (a + b)[j] == b[j - |a|];
      }
    }
  }

  /** `b` is one edge from `a`, along an edge whose label passes `only`. */
  predicate Step(g: Graph, a: nat, b: nat, only: Option<Symbol>) {
    a in g.nodes && b in Targets(EdgesOf(g.nodes[a]), only)
  }

  ghost predicate IsPath(g: Graph, p: seq<nat>, only: Option<Symbol>) {
    && |p| >= 1
    && (forall i :: 0 <= i < |p| ==> p[i] in g.nodes)
    && (forall i :: 0 <= i < |p| - 1 ==> Step(g, p[i], p[i + 1], only))
  }

  ghost predicate Reaches(g: Graph, a: nat, b: nat, only: Option<Symbol>) {
    exists p :: IsPath(g, p, only) && p[0] == a && p[|p| - 1] == b
  }

  lemma ReachesRefl(g: Graph, a: nat, only: Option<Symbol>)
    requires a in g.nodes
    ensures Reaches(g, a, a, only)
  {
    assert IsPath(g, [a], only);
  }

  lemma ReachesExtend(g: Graph, a: nat, b: nat, c: nat, only: Option<Symbol>)
    requires Valid(g) && Reaches(g, a, b, only) && Step(g, b, c, only)
    ensures Reaches(g, a, c, only)
  {
    var p :| IsPath(g, p, only) && p[0] == a && p[|p| - 1] == b;
    TargetsNarrow(EdgesOf(g.nodes[b]), c, only);
    var q := p + [c];
    forall i | 0 <= i < |q| - 1
      ensures Step(g, q[i], q[i + 1], only)
    {
      if i < |p| - 1 {
        assert q[i] == p[i] && q[i + 1] == p[i + 1];
      }
    }
    assert IsPath(g, q, only) && q[0] == a && q[|q| - 1] == c;
  }

  lemma ReachesTrans(g: Graph, a: nat, b: nat, c: nat, only: Option<Symbol>)
    requires Reaches(g, a, b, only) && Reaches(g, b, c, only)
    ensures Reaches(g, a, c, only)
  {
    var p :| IsPath(g, p, only) && p[0] == a && p[|p| - 1] == b;
    var q :| IsPath(g, q, only) && q[0] == b && q[|q| - 1] == c;
    var pq := p + q[1..];
    assert IsPath(g, pq, only) by {
      forall i | 0 <= i < |pq| - 1
        ensures Step(g, pq[i], pq[i + 1], only)
      {
        if i < |p| - 1 {
          assert pq[i] == p[i] && pq[i + 1] == p[i + 1];
        } else {
          assert pq[i] == q[i - |p| + 1] && pq[i + 1] == q[i - |p| + 2];
        }
      }
    }
  }

  /** An edge that passes a filter passes the empty filter. */
  lemma TargetsNarrow(es: seq<Edge>, t: nat, only: Option<Symbol>)
    ensures t in Targets(es, only) ==> t in Targets(es, None)
  {
    TargetsIff(es, only, t);
    TargetsIff(es, None, t);
    if t in Targets(es, only) {
      var e :| e in es && e.to == Some(t) && Matches(e.sym, only);
      assert Matches(e.sym, None);
    }
  }

  /** A path along epsilon edges is a path. */
  lemma ReachesWiden(g: Graph, a: nat, b: nat, only: Option<Symbol>)
    requires Reaches(g, a, b, only)
    ensures Reaches(g, a, b, None)
  {
    var p :| IsPath(g, p, only) && p[0] == a && p[|p| - 1] == b;
    forall i | 0 <= i < |p| - 1
      ensures Step(g, p[i], p[i + 1], None)
    {
      TargetsNarrow(EdgesOf(g.nodes[p[i]]), p[i + 1], only);
    }
    assert IsPath(g, p, None);
  }

  /** A set that holds `a` and is closed under filtered steps holds all that `a` reaches. */
  lemma ClosedHoldsReachable(g: Graph, d: set<nat>, a: nat, b: nat, only: Option<Symbol>)
    requires a in d
    requires forall x, t :: x in d && x in g.nodes && t in Targets(EdgesOf(g.nodes[x]), only) ==> t in d
    requires Reaches(g, a, b, only)
    ensures b in d
  {
    var p :| IsPath(g, p, only) && p[0] == a && p[|p| - 1] == b;
    var i := 0;
    while i < |p| - 1
      invariant 0 <= i <= |p| - 1
      invariant p[i] in d
    {
      assert Step(g, p[i], p[i + 1], only);
      i := i + 1;
    }
  }

  // ---------------------------------------------------------------------------
  // Depth-first traversal.

  /** `dfs` from `id` with the ids visited so far: the ids newly visited, in preorder,
      following edges in list order. */
  function Dfs(g: Graph, id: nat, visited: set<nat>): (r: (set<nat>, seq<nat>))
    requires Valid(g) && id in g.nodes && visited <= g.nodes.Keys
    ensures visited <= r.0 <= g.nodes.Keys
    ensures NoDup(r.1) && forall y :: y in r.1 <==> y in r.0 && y !in visited
    ensures id in visited ==> r == (visited, [])
    ensures id !in visited ==> |r.1| > 0 && r.1[0] == id
    ensures id in r.0
    ensures forall y :: y in r.0 && y !in visited ==> Reaches(g, id, y, None)
    ensures forall y, t :: y in r.0 && y !in visited && t in Targets(EdgesOf(g.nodes[y]), None) ==> t in r.0
    decreases |g.nodes.Keys - visited|, 0
  {
    if id in visited then (visited, [])
    else
      var ts := Targets(EdgesOf(g.nodes[id]), None);
      assert id in g.nodes.Keys - visited && id !in g.nodes.Keys - (visited + {id});
      SubsetCard(g.nodes.Keys - (visited + {id}), g.nodes.Keys - visited);
      var rest := DfsAll(g, ts, visited + {id});
      DfsStepReach(g, id, ts, visited, rest.0);
      DfsCons(g, id, ts, visited, rest.0, rest.1);
      (rest.0, [id] + rest.1)
  }

  lemma SubsetCard<T>(a: set<T>, b: set<T>)
    requires a <= b
    ensures |a| <= |b| && (a != b ==> |a| < |b|)
  {
    if a != b {
      assert exists y :: y in b && y !in a;
      var x :| x in b && x !in a;
      assert a <= b - {x};
      assert |b - {x}| == |b| - 1;
      SubsetCardLe(a, b - {x});
    } else {
    }
  }

  lemma SubsetCardLe<T>(a: set<T>, b: set<T>)
    requires a <= b
    ensures |a| <= |b|
  {
    assert b == a + (b - a);
  }

  /** `dfs` from each of `ts` in turn, threading the visited set. */
  function DfsAll(g: Graph, ts: seq<nat>, visited: set<nat>): (r: (set<nat>, seq<nat>))
    requires Valid(g) && visited <= g.nodes.Keys && forall t :: t in ts ==> t in g.nodes
    ensures visited <= r.0 <= g.nodes.Keys
    ensures NoDup(r.1) && forall y :: y in r.1 <==> y in r.0 && y !in visited
    ensures forall t :: t in ts ==> t in r.0
    ensures forall y :: y in r.0 && y !in visited ==> exists t :: t in ts && Reaches(g, t, y, None)
    ensures forall y, t :: y in r.0 && y !in visited && t in Targets(EdgesOf(g.nodes[y]), None) ==> t in r.0
    decreases |g.nodes.Keys - visited|, 1, |ts|
  {
    if ts == [] then (visited, [])
    else
      var first := Dfs(g, ts[0], visited);
      SubsetCard(g.nodes.Keys - first.0, g.nodes.Keys - visited);
      var rest := DfsAll(g, ts[1..], first.0);
      assert forall t :: t in ts ==> t == ts[0] || t in ts[1..];
      DfsAllReach(g, ts, visited, first.0, rest.0);
      NoDupConcat(first.1, rest.1);
      (rest.0, first.1 + rest.1)
  }

  lemma DfsCons(g: Graph, id: nat, ts: seq<nat>, visited: set<nat>, v: set<nat>, s: seq<nat>)
    requires id in g.nodes && ts == Targets(EdgesOf(g.nodes[id]), None)
    requires id !in visited && visited + {id} <= v <= g.nodes.Keys
    requires NoDup(s) && forall y :: y in s <==> y in v && y !in visited + {id}
    requires forall t :: t in ts ==> t in v
    requires forall y, t :: y in v && y !in visited + {id} && t in Targets(EdgesOf(g.nodes[y]), None) ==> t in v
    ensures NoDup([id] + s) && forall y :: y in [id] + s <==> y in v && y !in visited
    ensures forall y, t :: y in v && y !in visited && t in Targets(EdgesOf(g.nodes[y]), None) ==> t in v
  {
    NoDupConcat([id], s);
  }

  lemma DfsStepReach(g: Graph, id: nat, ts: seq<nat>, visited: set<nat>, v: set<nat>)
    requires Valid(g) && id in g.nodes && ts == Targets(EdgesOf(g.nodes[id]), None)
    requires forall y :: y in v && y !in visited + {id} ==> exists t :: t in ts && Reaches(g, t, y, None)
    ensures forall y :: y in v && y !in visited ==> Reaches(g, id, y, None)
  {
    ReachesRefl(g, id, None);
    forall y | y in v && y !in visited && y != id
      ensures Reaches(g, id, y, None)
    {
      assert y !in visited + {id};
      var t :| t in ts && Reaches(g, t, y, None);
      ReachesThrough(g, id, t, y);
    }
  }

  lemma ReachesThrough(g: Graph, a: nat, t: nat, y: nat)
    requires Valid(g) && a in g.nodes && t in Targets(EdgesOf(g.nodes[a]), None)
    requires Reaches(g, t, y, None)
    ensures Reaches(g, a, y, None)
  {
    ReachesRefl(g, a, None);
    ReachesExtend(g, a, a, t, None);
    ReachesTrans(g, a, t, y, None);
  }

  lemma DfsAllReach(g: Graph, ts: seq<nat>, visited: set<nat>, v1: set<nat>, v2: set<nat>)
    requires ts != [] && visited <= v1 <= v2
    requires forall y :: y in v1 && y !in visited ==> Reaches(g, ts[0], y, None)
    requires forall y :: y in v2 && y !in v1 ==> exists t :: t in ts[1..] && Reaches(g, t, y, None)
    ensures forall y :: y in v2 && y !in visited ==> exists t :: t in ts && Reaches(g, t, y, None)
  {
    forall y | y in v2 && y !in visited
      ensures exists t :: t in ts && Reaches(g, t, y, None)
    {
      if y in v1 {
        assert ts[0] in ts;
      } else {
        var t :| t in ts[1..] && Reaches(g, t, y, None);
        assert t in ts;
      }
    }
  }

  /** The graph flattened from `start` (`From<Automaton> for Vec<State>`): every node reachable
      from `start`, each once, `start` first. */
  function Flatten(g: Graph, start: nat): (r: seq<nat>)
    requires Valid(g) && start in g.nodes
    ensures NoDup(r) && |r| > 0 && r[0] == start
    ensures forall y :: y in r <==> Reaches(g, start, y, None)
  {
    var res := Dfs(g, start, {});
    forall y | Reaches(g, start, y, None)
      ensures y in res.1
    {
      ClosedHoldsReachable(g, res.0, start, y, None);
    }
    res.1
  }

  // ---------------------------------------------------------------------------
  // Epsilon closure.

  /** The reference epsilon closure: the nodes reachable from `a` along epsilon edges that
      have no epsilon edge of their own. */
  ghost function EpsClosure(g: Graph, a: nat): set<nat> {
    set b | b in g.nodes && Reaches(g, a, b, Some(Epsilon)) && Delta(g.nodes[b], Epsilon) == []
  }

  /** `follow_epsilon`: breadth-first search along epsilon edges from `x`, keeping the nodes
      without epsilon edges. The visited set does not hold `x` itself at first, so `x` may
      enter the queue a second time; every other id enters it at most once. */
  method FollowEpsilon(g: Graph, x: nat) returns (r: seq<nat>)
    requires Valid(g) && x in g.nodes
    ensures NoDup(r)
    ensures forall y :: y in r <==> y in EpsClosure(g, x)
    ensures Delta(g.nodes[x], Epsilon) == [] ==> r == [x]
  {
    var visited: set<nat> := {};
    var queue: seq<nat> := [x];
    r := [];
    ghost var processed: set<nat> := {};
    BfsInit(g, x);
    while queue != []
      invariant BfsInv(g, x, visited, queue, r, processed)
      decreases |g.nodes.Keys - visited|, |queue|
    {
      var y := queue[0];
      var ts := Delta(g.nodes[y], Epsilon);
      if ts == [] {
        BfsKeep(g, x, visited, queue, r, processed);
        queue, r, processed := queue[1..], r + [y], processed + {y};
      } else {
        BfsHead(g, x, visited, queue, r, processed);
        ReachesDelta(g, x, y);
        var visited', queue' := PushTargets(g, ts, visited, queue[1..]);
        BfsPush(g, x, visited, queue, r, processed, visited', queue');
        ShrinkUnvisited(g.nodes.Keys, visited, visited');
        visited, queue, processed := visited', queue', processed + {y};
      }
    }
    BfsDone(g, x, visited, r, processed);
  }

  /** The loop invariant of `follow_epsilon`, in four parts. */
  ghost predicate BfsInv(g: Graph, x: nat, visited: set<nat>, queue: seq<nat>, r: seq<nat>, processed: set<nat>) {
    && BfsFrame(g, x, visited, queue, processed)
    && BfsOrder(x, visited, queue, r, processed)
    && BfsClosed(g, x, visited, r, processed)
    && BfsStart(g, x, visited, queue, r, processed)
  }

  /** Everything lies in the arena and every visited id is epsilon-reachable from `x`. */
  ghost predicate BfsFrame(g: Graph, x: nat, visited: set<nat>, queue: seq<nat>, processed: set<nat>) {
    && Valid(g) && x in g.nodes
    && visited <= g.nodes.Keys && processed <= g.nodes.Keys
    && (forall y :: y in queue ==> y in g.nodes)
    && Reaches(g, x, x, Some(Epsilon))
    && (forall y :: y in visited ==> Reaches(g, x, y, Some(Epsilon)))
  }

  /** The queue and the result hold no id twice and never the same id; every visited id
      waits in the queue or was processed. */
  ghost predicate BfsOrder(x: nat, visited: set<nat>, queue: seq<nat>, r: seq<nat>, processed: set<nat>) {
    && NoDup(queue) && NoDup(r)
    && (forall y :: y in queue ==> y !in r)
    && ((queue == [x] && visited == {} && processed == {}) || forall y :: y in queue ==> y in visited)
    && (x in processed || x in queue)
    && (forall y :: y in visited ==> y in processed || y in queue)
    && (processed == {} ==> r == [])
  }

  /** The epsilon targets of processed nodes are visited, and the result holds exactly the
      processed nodes without epsilon edges. */
  ghost predicate BfsClosed(g: Graph, x: nat, visited: set<nat>, r: seq<nat>, processed: set<nat>)
    requires processed <= g.nodes.Keys
  {
    && (forall y, t :: y in processed && t in Delta(g.nodes[y], Epsilon) ==> t in visited)
    && (forall y :: y in processed && Delta(g.nodes[y], Epsilon) == [] ==> y in r)
    && (forall y :: y in r ==> y in processed && Delta(g.nodes[y], Epsilon) == [] && (y in visited || y == x))
  }

  /** A start without epsilon edges is the whole result. */
  ghost predicate BfsStart(g: Graph, x: nat, visited: set<nat>, queue: seq<nat>, r: seq<nat>, processed: set<nat>)
    requires x in g.nodes
  {
    Delta(g.nodes[x], Epsilon) == [] ==>
      (queue == [x] && visited == {} && processed == {}) || (queue == [] && r == [x])
  }

  lemma BfsInit(g: Graph, x: nat)
    requires Valid(g) && x in g.nodes
    ensures BfsInv(g, x, {}, [x], [], {})
  {
    ReachesRefl(g, x, Some(Epsilon));
  }

  /** The node popped is `x` or was reached from it, and the start is not in the result. */
  lemma BfsHead(g: Graph, x: nat, visited: set<nat>, queue: seq<nat>, r: seq<nat>, processed: set<nat>)
    requires BfsInv(g, x, visited, queue, r, processed) && queue != []
    ensures queue[0] in g.nodes && (queue[0] == x || queue[0] in visited)
    ensures queue[0] == x || Reaches(g, x, queue[0], Some(Epsilon))
    ensures NoDup(queue[1..]) && forall z :: z in queue[1..] ==> z in visited && z != queue[0] && z !in r
    ensures x !in r
  {
    assert queue[0] in queue;
    forall z | z in queue[1..]
      ensures z in queue && z != queue[0]
    {
      var k :| 0 <= k < |queue[1..]| && queue[1..][k] == z;
      assert queue[k + 1] == z;
    }
  }

  /** Popping a node without epsilon edges keeps it in the result. */
  lemma BfsKeep(g: Graph, x: nat, visited: set<nat>, queue: seq<nat>, r: seq<nat>, processed: set<nat>)
    requires BfsInv(g, x, visited, queue, r, processed) && queue != []
    requires Delta(g.nodes[queue[0]], Epsilon) == []
    ensures BfsInv(g, x, visited, queue[1..], r + [queue[0]], processed + {queue[0]})
  {
    BfsHead(g, x, visited, queue, r, processed);
    BfsKeepOrder(x, visited, queue, r, processed);
    BfsKeepClosed(g, x, visited, queue, r, processed);
  }

  lemma BfsKeepOrder(x: nat, visited: set<nat>, queue: seq<nat>, r: seq<nat>, processed: set<nat>)
    requires BfsOrder(x, visited, queue, r, processed) && queue != []
    requires NoDup(queue[1..]) && forall z :: z in queue[1..] ==> z in visited && z != queue[0] && z !in r
    requires queue[0] !in r
    ensures BfsOrder(x, visited, queue[1..], r + [queue[0]], processed + {queue[0]})
  {
    NoDupConcat(r, [queue[0]]);
  }

  lemma BfsKeepClosed(g: Graph, x: nat, visited: set<nat>, queue: seq<nat>, r: seq<nat>, processed: set<nat>)
    requires BfsFrame(g, x, visited, queue, processed) && queue != []
    requires BfsClosed(g, x, visited, r, processed) && BfsStart(g, x, visited, queue, r, processed)
    requires BfsOrder(x, visited, queue, r, processed)
    requires Delta(g.nodes[queue[0]], Epsilon) == [] && (queue[0] == x || queue[0] in visited)
    ensures BfsClosed(g, x, visited, r + [queue[0]], processed + {queue[0]})
    ensures BfsStart(g, x, visited, queue[1..], r + [queue[0]], processed + {queue[0]})
  {
    if Delta(g.nodes[x], Epsilon) == [] && queue == [x] {
      assert queue[1..] == [];
    }
  }

  /** Popping a node with epsilon edges and queueing its unvisited targets keeps the invariant. */
  lemma BfsPush(g: Graph, x: nat, visited: set<nat>, queue: seq<nat>, r: seq<nat>, processed: set<nat>,
                visited': set<nat>, queue': seq<nat>)
    requires BfsInv(g, x, visited, queue, r, processed) && queue != []
    requires Delta(g.nodes[queue[0]], Epsilon) != []
    requires forall t :: t in Delta(g.nodes[queue[0]], Epsilon) ==> t in g.nodes && Reaches(g, x, t, Some(Epsilon))
    requires forall z :: z in visited' <==> z in visited || z in Delta(g.nodes[queue[0]], Epsilon)
    requires forall z :: z in queue' <==> z in queue[1..] || (z in Delta(g.nodes[queue[0]], Epsilon) && z !in visited)
    requires NoDup(queue') && forall z :: z in queue' ==> z in visited'
    requires visited' == visited ==> queue' == queue[1..]
    ensures BfsInv(g, x, visited', queue', r, processed + {queue[0]})
    ensures visited <= visited' <= g.nodes.Keys
  {
    BfsHead(g, x, visited, queue, r, processed);
    var y := queue[0];
    assert BfsFrame(g, x, visited', queue', processed + {y});
    BfsPushOrder(x, visited, queue, r, processed, Delta(g.nodes[y], Epsilon), visited', queue');
    assert BfsClosed(g, x, visited', r, processed + {y});
  }

  lemma BfsPushOrder(x: nat, visited: set<nat>, queue: seq<nat>, r: seq<nat>, processed: set<nat>,
                     ts: seq<nat>, visited': set<nat>, queue': seq<nat>)
    requires BfsOrder(x, visited, queue, r, processed) && queue != [] && x !in r
    requires forall z :: z in r ==> z in visited || z == x
    requires forall z :: z in visited' <==> z in visited || z in ts
    requires forall z :: z in queue' <==> z in queue[1..] || (z in ts && z !in visited)
    requires NoDup(queue') && forall z :: z in queue' ==> z in visited'
    requires forall z :: z in queue[1..] ==> z !in r
    ensures BfsOrder(x, visited', queue', r, processed + {queue[0]})
  {
    assert queue[0] in queue;
  }

  /** Growing the visited set within `k` shrinks what is left of `k` unless nothing grew. */
  lemma ShrinkUnvisited(k: set<nat>, visited: set<nat>, visited': set<nat>)
    requires visited <= visited' <= k
    ensures visited' == visited || |k - visited'| < |k - visited|
  {
    if visited' != visited {
      var z :| z in visited' && z !in visited;
      assert z in k - visited && z !in k - visited';
      SubsetCard(k - visited', k - visited);
    }
  }

  /** When the queue is empty the result is the epsilon closure. */
  lemma BfsDone(g: Graph, x: nat, visited: set<nat>, r: seq<nat>, processed: set<nat>)
    requires BfsInv(g, x, visited, [], r, processed)
    ensures NoDup(r)
    ensures forall y :: y in r <==> y in EpsClosure(g, x)
    ensures Delta(g.nodes[x], Epsilon) == [] ==> r == [x]
  {
    forall b | b in EpsClosure(g, x)
      ensures b in r
    {
      ClosedHoldsReachable(g, processed, x, b, Some(Epsilon));
    }
  }

  /** Every epsilon successor of a node epsilon-reachable from `x` is epsilon-reachable too. */
  lemma ReachesDelta(g: Graph, x: nat, y: nat)
    requires Valid(g) && y in g.nodes && (y == x || Reaches(g, x, y, Some(Epsilon)))
    ensures forall t :: t in Delta(g.nodes[y], Epsilon) ==> t in g.nodes && Reaches(g, x, t, Some(Epsilon))
  {
    if y == x {
      ReachesRefl(g, x, Some(Epsilon));
    }
    forall t | t in Delta(g.nodes[y], Epsilon)
      ensures t in g.nodes && Reaches(g, x, t, Some(Epsilon))
    {
      TargetsNarrow(EdgesOf(g.nodes[y]), t, Some(Epsilon));
      ReachesExtend(g, x, y, t, Some(Epsilon));
    }
  }

  /** The inner loop of `follow_epsilon`: every target not yet visited is queued and marked. */
  method PushTargets(g: Graph, ts: seq<nat>, visited: set<nat>, queue: seq<nat>)
    returns (visited': set<nat>, queue': seq<nat>)
    requires NoDup(queue) && forall z :: z in queue ==> z in visited
    ensures forall z :: z in visited' <==> z in visited || z in ts
    ensures forall z :: z in queue' <==> z in queue || (z in ts && z !in visited)
    ensures NoDup(queue') && forall z :: z in queue' ==> z in visited'
    ensures visited' == visited ==> queue' == queue
    ensures |queue'| >= |queue|
  {
    visited', queue' := visited, queue;
    var i := 0;
    while i < |ts|
      invariant 0 <= i <= |ts|
      invariant forall z :: z in visited' <==> z in visited || z in ts[..i]
      invariant forall z :: z in queue' <==> z in queue || (z in ts[..i] && z !in visited)
      invariant NoDup(queue') && forall z :: z in queue' ==> z in visited'
      invariant visited' == visited ==> queue' == queue
      invariant |queue'| >= |queue|
    {
      var t := ts[i];
      assert ts[..i + 1] == ts[..i] + [t];
      if t !in visited' {
        NoDupConcat(queue', [t]);
        queue' := queue' + [t];
        visited' := visited' + {t};
      }
      i := i + 1;
    }
    assert ts[..i] == ts;
  }
}
