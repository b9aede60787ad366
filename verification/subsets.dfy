/** The subset simulation behind the DFA builder: sets of NFA ids, the successor set of
    one char, and the set a word leads to. These are reference definitions; the builder
    computes them with `follow_epsilon` and is proved to agree. */
module Subsets {
  import opened Outcomes
  import opened Symbols
  import opened State

  /** The union of the epsilon closures of the listed ids. */
  ghost function ClosureOf(g: Graph, ts: seq<nat>): set<nat> {
    set y | y in g.nodes && exists t :: t in ts && y in EpsClosure(g, t)
  }

  /** The NFA ids reached from the set `s` by one edge labelled exactly `Alphabet(c)`,
      each target followed by its epsilon closure. */
  ghost function StepSet(g: Graph, s: set<nat>, c: char): set<nat> {
    set y | y in g.nodes && exists x :: x in s && x in g.nodes && y in ClosureOf(g, Delta(g.nodes[x], Alphabet(c)))
  }

  /** The set of NFA ids the word `w` leads to from the set `s`. */
  ghost function After(g: Graph, s: set<nat>, w: string): set<nat>
    decreases |w|
  {
    if w == [] then s else After(g, StepSet(g, s, w[0]), w[1..])
  }

  /** Reading one more char after `w` takes one more successor step. */
  lemma {:induction false} AfterSnoc(g: Graph, s: set<nat>, w: string, c: char)
    ensures After(g, s, w + [c]) == StepSet(g, After(g, s, w), c)
    decreases |w|
  {
    if w == [] {
      assert [] + [c] == [c] && [c][1..] == [];
    } else {
      assert (w + [c])[0] == w[0] && (w + [c])[1..] == w[1..] + [c];
      AfterSnoc(g, StepSet(g, s, w[0]), w[1..], c);
    }
  }

  /** Every subset of `k`, and nothing else. */
  ghost function PowerSet(k: set<nat>): (r: set<set<nat>>)
    ensures forall x :: x in r <==> x <= k
    decreases |k|
  {
    if k == {} then
      assert forall x: set<nat> :: x <= k ==> x == {};
      {{}}
    else
      var y :| y in k;
      var p := PowerSet(k - {y});
      var r := p + set x | x in p :: x + {y};
      assert forall x :: x <= k ==> x in r by {
        forall x | x <= k
          ensures x in r
        {
          if y in x {
            assert x - {y} in p;
            assert x == (x - {y}) + {y};
          } else {
            assert x <= k - {y};
          }
        }
      }
      r
  }

  /** A node without epsilon edges is its own closure. */
  lemma StableClosure(g: Graph, x: nat)
    requires x in g.nodes && Delta(g.nodes[x], Epsilon) == []
    ensures EpsClosure(g, x) == {x}
  {
    ReachesRefl(g, x, Some(Epsilon));
    forall b | b in EpsClosure(g, x)
      ensures b == x
    {
      ClosedHoldsReachable(g, {x}, x, b, Some(Epsilon));
    }
  }

  /** Closures of a list grow by one closure per appended id. */
  lemma ClosureOfSnoc(g: Graph, ts: seq<nat>, t: nat)
    ensures ClosureOf(g, ts + [t]) == ClosureOf(g, ts) + EpsClosure(g, t)
  {
    forall y | y in ClosureOf(g, ts + [t])
      ensures y in ClosureOf(g, ts) + EpsClosure(g, t)
    {
      var u :| u in ts + [t] && y in EpsClosure(g, u);
      if u != t {
        assert u in ts;
      }
    }
    forall y | y in EpsClosure(g, t)
      ensures y in ClosureOf(g, ts + [t])
    {
      assert t in ts + [t];
    }
    forall y | y in ClosureOf(g, ts)
      ensures y in ClosureOf(g, ts + [t])
    {
      var u :| u in ts && y in EpsClosure(g, u);
      assert u in ts + [t];
    }
  }

  /** The successor set of a set grown by one id. */
  lemma StepSetAdd(g: Graph, a: set<nat>, x: nat, c: char)
    requires x in g.nodes
    ensures StepSet(g, a + {x}, c) == StepSet(g, a, c) + ClosureOf(g, Delta(g.nodes[x], Alphabet(c)))
  {
  }

  /** Nothing follows from the empty set. */
  lemma {:induction false} AfterEmpty(g: Graph, w: string)
    ensures After(g, {}, w) == {}
    decreases |w|
  {
    if w != [] {
      assert StepSet(g, {}, w[0]) == {};
      AfterEmpty(g, w[1..]);
    }
  }

  /** All ids in `s` are reachable from `a`. */
  ghost predicate AllReachable(g: Graph, a: nat, s: set<nat>) {
    forall x :: x in s ==> Reaches(g, a, x, None)
  }

  /** The closure of `x` lies in the arena and is reachable from `x`. */
  lemma ClosureReachable(g: Graph, x: nat)
    ensures forall y :: y in EpsClosure(g, x) ==> y in g.nodes && Delta(g.nodes[y], Epsilon) == [] && Reaches(g, x, y, None)
  {
    forall y | y in EpsClosure(g, x)
      ensures Reaches(g, x, y, None)
    {
      ReachesWiden(g, x, y, Some(Epsilon));
    }
  }

  /** The successor set of a set reachable from `a` is reachable from `a`. */
  lemma StepSetReachable(g: Graph, a: nat, s: set<nat>, c: char)
    requires Valid(g) && AllReachable(g, a, s)
    ensures AllReachable(g, a, StepSet(g, s, c))
    ensures StepSet(g, s, c) <= g.nodes.Keys
  {
    forall y | y in StepSet(g, s, c)
      ensures Reaches(g, a, y, None)
    {
      var x :| x in s && x in g.nodes && y in ClosureOf(g, Delta(g.nodes[x], Alphabet(c)));
      var t :| t in Delta(g.nodes[x], Alphabet(c)) && y in EpsClosure(g, t);
      TargetsNarrow(EdgesOf(g.nodes[x]), t, Some(Alphabet(c)));
      ClosureReachable(g, t);
      ReachesThrough(g, x, t, y);
      ReachesTrans(g, a, x, y, None);
    }
  }

  /** A char with a non-empty successor set labels an edge of some member. */
  lemma StepSetWitness(g: Graph, s: set<nat>, c: char)
    requires StepSet(g, s, c) != {}
    ensures exists x, e :: x in s && x in g.nodes && e in EdgesOf(g.nodes[x]) && e.sym == Alphabet(c)
  {
    var y :| y in StepSet(g, s, c);
    var x :| x in s && x in g.nodes && y in ClosureOf(g, Delta(g.nodes[x], Alphabet(c)));
    var t :| t in Delta(g.nodes[x], Alphabet(c)) && y in EpsClosure(g, t);
    TargetsIff(EdgesOf(g.nodes[x]), Some(Alphabet(c)), t);
  }
  /** A node with epsilon edges is not in its own closure: its closure is the union of the
      closures of its epsilon targets. */
  lemma ClosureUnfold(g: Graph, x: nat)
    requires Valid(g) && x in g.nodes && Delta(g.nodes[x], Epsilon) != []
    ensures EpsClosure(g, x) == ClosureOf(g, Delta(g.nodes[x], Epsilon))
  {
    var ts := Delta(g.nodes[x], Epsilon);
    forall b | b in EpsClosure(g, x)
      ensures b in ClosureOf(g, ts)
    {
      var p :| IsPath(g, p, Some(Epsilon)) && p[0] == x && p[|p| - 1] == b;
      assert |p| >= 2;
      assert Step(g, p[0], p[1], Some(Epsilon));
      var q := p[1..];
      assert IsPath(g, q, Some(Epsilon)) by {
        forall i | 0 <= i < |q| - 1
          ensures Step(g, q[i], q[i + 1], Some(Epsilon))
        {
          assert q[i] == p[i + 1] && q[i + 1] == p[i + 2];
        }
      }
      assert b in EpsClosure(g, p[1]);
    }
    forall b | b in ClosureOf(g, ts)
      ensures b in EpsClosure(g, x)
    {
      var t :| t in ts && b in EpsClosure(g, t);
      var q :| IsPath(g, q, Some(Epsilon)) && q[0] == t && q[|q| - 1] == b;
      var p := [x] + q;
      assert IsPath(g, p, Some(Epsilon)) by {
        forall i | 0 <= i < |p| - 1
          ensures Step(g, p[i], p[i + 1], Some(Epsilon))
        {
          if i > 0 {
            assert p[i] == q[i - 1] && p[i + 1] == q[i];
          }
        }
      }
    }
  }

  /** The closure of a one-element list is the closure of its element. */
  lemma ClosureOfOne(g: Graph, t: nat)
    ensures ClosureOf(g, [t]) == EpsClosure(g, t)
  {
    assert forall u :: u in [t] <==> u == t;
  }

  /** The successor set of a one-element set is the closure of that node's targets. */
  lemma StepSetOne(g: Graph, x: nat, c: char)
    requires x in g.nodes
    ensures StepSet(g, {x}, c) == ClosureOf(g, Delta(g.nodes[x], Alphabet(c)))
  {
  }
}
