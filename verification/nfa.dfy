/** The NFA builder: a stack machine that runs the postfix operators of a pattern,
    pushing one fragment per character class and combining the top fragments for
    `*`, `|` and concatenation. */
module Nfa {
  import opened Outcomes
  import opened Symbols
  import opened State
  import opened Automata
  import opened Transform
  import ParserCases

  /** The builder between two operators: the arena and the fragment stack, top last. */
  datatype Built = Built(g: Graph, stack: seq<Automaton>)

  /** What every step keeps: a closed, separated arena, fragments whose ends still
      accept, and no two fragments sharing an end. */
  predicate StackOk(b: Built) {
    && Valid(b.g)
    && AllSeparated(b.g)
    && (forall i :: 0 <= i < |b.stack| ==> IsFragment(b.g, b.stack[i]))
    && (forall i, j :: 0 <= i < j < |b.stack| ==> b.stack[i].end != b.stack[j].end)
  }

  /** `Primary(c)` and `All`: push a fresh one-edge fragment on `s`. */
  function Push(b: Built, s: Symbol): (r: Built)
    requires StackOk(b)
    ensures StackOk(r)
    ensures |r.stack| == |b.stack| + 1 && r.stack[..|b.stack|] == b.stack
    ensures var top := r.stack[|b.stack|];
            r.g.nodes[top.start] == Transition([Edge(s, Some(top.end))])
  {
    var m := AutomatonTransition(b.g, s);
    var r := Built(m.g, b.stack + [m.a]);
    assert r.stack[..|b.stack|] == b.stack;
    r
  }

  /** `Asterisk`: replace the top fragment by its star. */
  function StarTop(b: Built): (r: Built)
    requires StackOk(b) && |b.stack| >= 1
    ensures StackOk(r)
    ensures |r.stack| == |b.stack| && r.stack[..|b.stack| - 1] == b.stack[..|b.stack| - 1]
  {
    var n := |b.stack|;
    var m := AutomatonZeroOrOne(b.g, b.stack[n - 1]);
    var r := Built(m.g, b.stack[..n - 1] + [m.a]);
    assert r.stack[..n - 1] == b.stack[..n - 1];
    r
  }

  /** `Or` and `Concat`: pop the right operand, then the left, push their combination. */
  function Combine(b: Built, op: ThompsonOp): (r: Built)
    requires StackOk(b) && |b.stack| >= 2 && (op == Or || op == Concat)
    ensures StackOk(r)
    ensures |r.stack| == |b.stack| - 1 && r.stack[..|b.stack| - 2] == b.stack[..|b.stack| - 2]
    ensures op == Concat ==>
              r.stack[|b.stack| - 2] == Automaton(b.stack[|b.stack| - 2].start, b.stack[|b.stack| - 1].end)
  {
    var n := |b.stack|;
    var a1, a2 := b.stack[n - 2], b.stack[n - 1];
    var m := if op == Or then AutomatonAlternate(b.g, a1, a2) else ConcatAutomaton(b.g, a1, a2);
    ReplaceTopTwo(b, m);
    Built(m.g, b.stack[..n - 2] + [m.a])
  }

  /** Replacing the top two fragments by one whose end is the right operand's or a
      fresh node keeps the invariant, when the arena changed only at the two ends. */
  lemma ReplaceTopTwo(b: Built, m: Machine)
    requires StackOk(b) && |b.stack| >= 2
    requires Valid(m.g) && AllSeparated(m.g) && IsFragment(m.g, m.a)
    requires b.g.nodes.Keys <= m.g.nodes.Keys
    requires Preserves(b.g, m.g, {b.stack[|b.stack| - 2].end, b.stack[|b.stack| - 1].end})
    requires m.a.end == b.stack[|b.stack| - 1].end || m.a.end !in b.g.nodes
    ensures var r := Built(m.g, b.stack[..|b.stack| - 2] + [m.a]);
            StackOk(r) && r.stack[..|b.stack| - 2] == b.stack[..|b.stack| - 2]
  {
    var n := |b.stack|;
    var r := Built(m.g, b.stack[..n - 2] + [m.a]);
    assert r.stack[..n - 2] == b.stack[..n - 2];
    assert forall i :: 0 <= i < n - 2 ==> r.stack[i] == b.stack[i] && b.stack[i].end != b.stack[n - 2].end && b.stack[i].end != b.stack[n - 1].end;
  }

  /** The stack effect of a single operator. */
  lemma DepthSingle(op: ThompsonOp, h: nat)
    ensures StackDepth([op], h) == match op
      case Primary(_) => Some(h + 1)
      case All => Some(h + 1)
      case Asterisk => if h >= 1 then Some(h) else None
      case Or => if h >= 2 then Some(h - 1) else None
      case Concat => if h >= 2 then Some(h - 1) else None
      case _ => None
  {
    assert [op][1..] == [];
  }

  /** One iteration of the builder's loop. */
  function StepOp(b: Built, op: ThompsonOp): (r: Outcome<Built>)
    requires StackOk(b)
    ensures r.Ok? ==> StackOk(r.value)
    ensures r.Ok? <==> StackDepth([op], |b.stack|).Some?
    ensures r.Ok? ==> StackDepth([op], |b.stack|) == Some(|r.value.stack|)
    ensures !r.Ok? ==> r == Panic(if op == LeftParen || op == RightParen then UnhandledOp else PopEmpty)
  {
    DepthSingle(op, |b.stack|);
    match op
    case Primary(c) => Ok(Push(b, Alphabet(c)))
    case All => Ok(Push(b, CharClass(Class.All)))
    case Asterisk => if |b.stack| < 1 then Panic(PopEmpty) else Ok(StarTop(b))
    case Or => if |b.stack| < 2 then Panic(PopEmpty) else Ok(Combine(b, Or))
    case Concat => if |b.stack| < 2 then Panic(PopEmpty) else Ok(Combine(b, Concat))
    case _ => Panic(UnhandledOp)
  }

  /** The builder's loop over the postfix operators. It succeeds exactly when the
      operator sequence never finds too few operands and holds no parenthesis, and
      then leaves the stack height that `StackDepth` predicts. */
  function Run(b: Built, ops: seq<ThompsonOp>): (r: Outcome<Built>)
    requires StackOk(b)
    ensures r.Ok? ==> StackOk(r.value)
    ensures r.Ok? <==> StackDepth(ops, |b.stack|).Some?
    ensures r.Ok? ==> StackDepth(ops, |b.stack|) == Some(|r.value.stack|)
    ensures !r.Ok? ==> r.Panic? && (r.site == PopEmpty || r.site == UnhandledOp)
    ensures !r.Ok? && NoParens(ops) ==> r == Panic(PopEmpty)
    decreases |ops|
  {
    if ops == [] then
      Ok(b)
    else
      assert [ops[0]] + ops[1..] == ops;
      DepthAppend([ops[0]], ops[1..], |b.stack|);
      var b1 :- StepOp(b, ops[0]);
      assert NoParens(ops) ==> NoParens(ops[1..]) by {
        if NoParens(ops) {
          forall i | 0 <= i < |ops[1..]| ensures ops[1..][i] != LeftParen && ops[1..][i] != RightParen {
            assert ops[1..][i] == ops[i + 1];
          }
        }
      }
      Run(b1, ops[1..])
  }

  const EmptyGraph: Graph := Graph(map[], 0)

  /** `NFA::construct_nfa`: parse, run the builder from an empty stack, and demand
      exactly one fragment at the end. */
  function ConstructNfa(re: string): (r: Outcome<Machine>)
    ensures r.Err? <==> ToThompsonPostfix(re).Err?
    ensures r.Err? ==> r == Err(ToThompsonPostfix(re).msg)
    ensures r.Ok? <==> ToThompsonPostfix(re).Ok? && WellFormed(ToThompsonPostfix(re).value)
    ensures r.Ok? ==> Valid(r.value.g) && AllSeparated(r.value.g) && IsFragment(r.value.g, r.value.a)
  {
    var ops :- ToThompsonPostfix(re);
    assert StackOk(Built(EmptyGraph, []));
    var b :- Run(Built(EmptyGraph, []), ops);
    if |b.stack| != 1 then Panic(StackHeight) else Ok(Machine(b.g, b.stack[0]))
  }

  // ---------------------------------------------------------------------------
  // Which patterns the builder accepts.

  /** From a non-empty stack the height never drops to zero. */
  lemma {:induction false} DepthFloor(ops: seq<ThompsonOp>, h: nat, k: nat)
    requires h >= 1 && StackDepth(ops, h) == Some(k)
    ensures k >= 1
    decreases |ops|
  {
    if ops != [] {
      match ops[0]
      case Primary(_) => DepthFloor(ops[1..], h + 1, k);
      case All => DepthFloor(ops[1..], h + 1, k);
      case Asterisk => DepthFloor(ops[1..], h, k);
      case Or => DepthFloor(ops[1..], h - 1, k);
      case Concat => DepthFloor(ops[1..], h - 1, k);
    }
  }

  /** A non-empty dangling sequence cannot run from an empty stack. */
  lemma DanglingFails(ops: seq<ThompsonOp>)
    requires ops != [] && Dangling(ops)
    ensures StackDepth(ops, 0) == None
  {
    match StackDepth(ops, 0)
    case None =>
    case Some(k) =>
      assert ops[0].Primary? || ops[0].All?;
      DepthFloor(ops[1..], 1, k);
      DepthShift(ops, 0, k, 1);
  }

  /** The empty pattern parses to nothing and then fails the final height check. */
  lemma EmptyPatternPanics()
    ensures ConstructNfa("") == Panic(StackHeight)
  {
    assert ToThompsonPostfix("") == Ok([]);
  }

  /** A non-empty pattern the parser accepts builds one automaton, unless it ends in
      `|`, whose missing right operand makes the builder pop an empty stack. */
  lemma PatternOutcome(re: string)
    requires re != [] && ToThompsonPostfix(re).Ok?
    ensures ConstructNfa(re).Ok? || ConstructNfa(re) == Panic(PopEmpty)
    ensures Last(re) != '|' ==> ConstructNfa(re).Ok?
  {
    var ops := ToThompsonPostfix(re).value;
    if !WellFormed(ops) {
      DanglingFails(ops);
      assert StackOk(Built(EmptyGraph, []));
    }
  }

  lemma TrailingBarPanics()
    ensures ConstructNfa("a|") == Panic(PopEmpty)
  {
    var s := "a|";
    assert s[1..] == "|" && "|"[1..] == [];
    assert PostfixCharClass(s) == Ok(Parsed([Primary('a')], "|"));
    assert PostfixPrimary(s) == Ok(Parsed([Primary('a')], "|"));
    assert PostfixAsterisk(s) == Ok(Parsed([Primary('a')], "|"));
    assert PostfixOr(s) == Ok(Parsed([Primary('a')] + [] + [Or], []));
    assert [Primary('a')] + [] + [Or] == [Primary('a'), Or];
    assert ConcatRest([Primary('a'), Or], []) == Ok(Parsed([Primary('a'), Or], []));
    assert PostfixConcat(s) == Ok(Parsed([Primary('a'), Or], []));
    var b0 := Built(EmptyGraph, []);
    assert StackOk(b0);
    var ops := [Primary('a'), Or];
    assert ops[1..] == [Or] && [Or][1..] == [];
    var b1 := Push(b0, Alphabet('a'));
    assert Run(b0, ops) == Run(b1, [Or]);
    assert Run(b1, [Or]) == Panic(PopEmpty);
  }

  // ---------------------------------------------------------------------------
  // Reference: Thompson's construction over a regular-expression tree.

  /** A regular expression in the operators the builder knows. */
  datatype Regex = Lit(c: char) | AnyChar | Cat(left: Regex, right: Regex) | Alt(left: Regex, right: Regex) | Star(inner: Regex)

  /** The postfix form the builder reads: operands first, operator last. */
  function Postfix(t: Regex): seq<ThompsonOp> {
    match t
    case Lit(c) => [Primary(c)]
    case AnyChar => [ThompsonOp.All]
    case Cat(l, r) => Postfix(l) + Postfix(r) + [Concat]
    case Alt(l, r) => Postfix(l) + Postfix(r) + [Or]
    case Star(e) => Postfix(e) + [Asterisk]
  }

  /** A fragment built into `g`: a valid arena with `g`'s nodes kept and two fresh ids. */
  predicate BuiltOn(g: Graph, r: Machine) {
    && Valid(r.g) && AllSeparated(r.g) && IsFragment(r.g, r.a)
    && g.nodes.Keys <= r.g.nodes.Keys && Preserves(g, r.g, {})
    && r.a.start !in g.nodes && r.a.end !in g.nodes
  }

  /** The fragment of a tree, built bottom-up, left operand first, into `g`. */
  function Build(g: Graph, t: Regex): (r: Machine)
    requires Valid(g) && AllSeparated(g)
    ensures BuiltOn(g, r)
    decreases t, 1
  {
    match t
    case Lit(c) => AutomatonTransition(g, Alphabet(c))
    case AnyChar => AutomatonTransition(g, CharClass(Class.All))
    case Cat(x, y) => CatFragment(g, x, y)
    case Alt(x, y) => AltFragment(g, x, y)
    case Star(e) => StarFragment(g, e)
  }

  /** The fragment of `Cat(x, y)`: both operands, then the link. */
  function CatFragment(g: Graph, x: Regex, y: Regex): (r: Machine)
    requires Valid(g) && AllSeparated(g)
    ensures BuiltOn(g, r)
    decreases Cat(x, y), 0
  {
    var m1 := Build(g, x);
    var m2 := Build(m1.g, y);
    ConcatAutomaton(m2.g, m1.a, m2.a)
  }

  /** The fragment of `Alt(x, y)`: both operands, then the split. */
  function AltFragment(g: Graph, x: Regex, y: Regex): (r: Machine)
    requires Valid(g) && AllSeparated(g)
    ensures BuiltOn(g, r)
    decreases Alt(x, y), 0
  {
    var m1 := Build(g, x);
    var m2 := Build(m1.g, y);
    AutomatonAlternate(m2.g, m1.a, m2.a)
  }

  /** The fragment of `Star(e)`: the operand, then the zero-or-more wrapping. */
  function StarFragment(g: Graph, e: Regex): (r: Machine)
    requires Valid(g) && AllSeparated(g)
    ensures BuiltOn(g, r)
    decreases Star(e), 0
  {
    var m := Build(g, e);
    AutomatonZeroOrOne(m.g, m.a)
  }

  /** The builder after pushing a freshly built fragment; the invariant survives. */
  function PushTree(b: Built, t: Regex): (r: Built)
    requires StackOk(b)
    ensures StackOk(r)
    ensures |r.stack| == |b.stack| + 1 && r.stack[..|b.stack|] == b.stack
  {
    var m := Build(b.g, t);
    var r := Built(m.g, b.stack + [m.a]);
    assert forall i :: 0 <= i < |b.stack| ==> r.stack[i] == b.stack[i] && b.stack[i].end in b.g.nodes;
    assert r.stack[..|b.stack|] == b.stack;
    r
  }

  /** Running the postfix form of a tree pushes exactly the tree's fragment. */
  lemma {:induction false} RunPostfix(b: Built, t: Regex, rest: seq<ThompsonOp>)
    requires StackOk(b)
    ensures Run(b, Postfix(t) + rest) == Run(PushTree(b, t), rest)
    decreases t, 1
  {
    match t
    case Lit(_) =>
      RunLeaf(b, t, rest);
    case AnyChar =>
      RunLeaf(b, t, rest);
    case Cat(l, r) =>
      BinaryStep(b, l, r, Concat, rest);
    case Alt(l, r) =>
      BinaryStep(b, l, r, Or, rest);
    case Star(e) =>
      StarredStep(b, e, rest);
  }

  /** The leaf cases of `RunPostfix`: one operand pushes one transition fragment. */
  lemma RunLeaf(b: Built, t: Regex, rest: seq<ThompsonOp>)
    requires StackOk(b) && (t.Lit? || t.AnyChar?)
    ensures Run(b, Postfix(t) + rest) == Run(PushTree(b, t), rest)
  {
    var op := if t.Lit? then Primary(t.c) else ThompsonOp.All;
    var s := if t.Lit? then Alphabet(t.c) else CharClass(Class.All);
    // The constructor tests `Build` and `StepOp` branch on, spelled out.
    assert !t.Cat? && !t.Alt? && !t.Star? && op.Primary? == t.Lit? && (op.Primary? ==> op.c == t.c);
    assert Postfix(t) == [op];
    assert StepOp(b, op) == Ok(Push(b, s));
    assert Build(b.g, t) == AutomatonTransition(b.g, s);
    assert ([op] + rest)[0] == op && ([op] + rest)[1..] == rest;
  }

  /** The starred case of `RunPostfix`: the operand, then the operator. */
  lemma {:induction false} StarredStep(b: Built, e: Regex, rest: seq<ThompsonOp>)
    requires StackOk(b)
    ensures Run(b, Postfix(Star(e)) + rest) == Run(PushTree(b, Star(e)), rest)
    decreases Star(e), 0
  {
    var tail := [Asterisk] + rest;
    assert Postfix(Star(e)) + rest == Postfix(e) + tail;
    RunPostfix(b, e, tail);
    RunStar(b, e, rest);
  }

  /** The operator after the operand's fragment wraps it into the starred tree's. */
  lemma RunStar(b: Built, e: Regex, rest: seq<ThompsonOp>)
    requires StackOk(b)
    ensures Run(PushTree(b, e), [Asterisk] + rest) == Run(PushTree(b, Star(e)), rest)
  {
    var b1 := PushTree(b, e);
    assert ([Asterisk] + rest)[0] == Asterisk && ([Asterisk] + rest)[1..] == rest;
    assert StepOp(b1, Asterisk) == Ok(StarTop(b1));
    StarTree(b, e);
  }

  /** Starring the pushed operand's fragment gives the fragment of the starred tree. */
  lemma StarTree(b: Built, e: Regex)
    requires StackOk(b)
    ensures StarTop(PushTree(b, e)) == PushTree(b, Star(e))
  {
    var n := |b.stack|;
    var b1 := PushTree(b, e);
    assert b1.stack[..n] == b.stack && b1.stack[n] == Build(b.g, e).a;
    BuildStar(b.g, e);
    var t := Star(e);
    assert !t.Lit? && !t.AnyChar? && !t.Cat? && !t.Alt? && t.inner == e;
  }

  /** The binary case of `RunPostfix`: left operand, right operand, then the operator. */
  lemma {:induction false} BinaryStep(b: Built, l: Regex, r: Regex, op: ThompsonOp, rest: seq<ThompsonOp>)
    requires StackOk(b) && (op == Or || op == Concat)
    ensures var t := if op == Or then Alt(l, r) else Cat(l, r);
            Run(b, Postfix(t) + rest) == Run(PushTree(b, t), rest)
    decreases if op == Or then Alt(l, r) else Cat(l, r), 0
  {
    var t := if op == Or then Alt(l, r) else Cat(l, r);
    var n := |b.stack|;
    var tail := [op] + rest;
    assert Postfix(t) + rest == Postfix(l) + (Postfix(r) + tail);
    RunPostfix(b, l, Postfix(r) + tail);
    var b1 := PushTree(b, l);
    RunPostfix(b1, r, tail);
    RunCombine(b, l, r, op, rest);
  }

  /** The operator after both operands' fragments combines them into the tree's. */
  lemma RunCombine(b: Built, l: Regex, r: Regex, op: ThompsonOp, rest: seq<ThompsonOp>)
    requires StackOk(b) && (op == Or || op == Concat)
    ensures var t := if op == Or then Alt(l, r) else Cat(l, r);
            Run(PushTree(PushTree(b, l), r), [op] + rest) == Run(PushTree(b, t), rest)
  {
    var b2 := PushTree(PushTree(b, l), r);
    CombineTrees(b, l, r, op);
    RunCons(b2, op, rest);
  }

  /** Combining the two pushed operand fragments gives the fragment of the whole tree. */
  lemma CombineTrees(b: Built, l: Regex, r: Regex, op: ThompsonOp)
    requires StackOk(b) && (op == Or || op == Concat)
    ensures var t := if op == Or then Alt(l, r) else Cat(l, r);
            var b2 := PushTree(PushTree(b, l), r);
            |b2.stack| >= 2 && Combine(b2, op) == PushTree(b, t)
  {
    if op == Or {
      CombineAlt(b, l, r);
    } else {
      CombineCat(b, l, r);
    }
  }

  /** `CombineTrees` for `Or`. */
  lemma CombineAlt(b: Built, l: Regex, r: Regex)
    requires StackOk(b)
    ensures var b2 := PushTree(PushTree(b, l), r);
            |b2.stack| >= 2 && Combine(b2, Or) == PushTree(b, Alt(l, r))
  {
    var m1 := Build(b.g, l);
    var m2 := Build(m1.g, r);
    PushTwo(b, l, r);
    CombinePair(b.stack, m2.g, m1.a, m2.a, Or);
    PushAlt(b, l, r);
  }

  /** `CombineTrees` for `Concat`. */
  lemma CombineCat(b: Built, l: Regex, r: Regex)
    requires StackOk(b)
    ensures var b2 := PushTree(PushTree(b, l), r);
            |b2.stack| >= 2 && Combine(b2, Concat) == PushTree(b, Cat(l, r))
  {
    var m1 := Build(b.g, l);
    var m2 := Build(m1.g, r);
    PushTwo(b, l, r);
    CombinePair(b.stack, m2.g, m1.a, m2.a, Concat);
    PushCat(b, l, r);
  }

  /** Pushing two trees pushes their fragments, the second built into the first's arena. */
  lemma PushTwo(b: Built, l: Regex, r: Regex)
    requires StackOk(b)
    ensures var m1 := Build(b.g, l);
            var m2 := Build(m1.g, r);
            PushTree(PushTree(b, l), r) == Built(m2.g, b.stack + [m1.a, m2.a])
  {
    var m1 := Build(b.g, l);
    assert (b.stack + [m1.a]) + [Build(m1.g, r).a] == b.stack + [m1.a, Build(m1.g, r).a];
  }

  /** Pushing an alternation pushes the split over its operands' fragments. */
  lemma PushAlt(b: Built, l: Regex, r: Regex)
    requires StackOk(b)
    ensures var m1 := Build(b.g, l);
            var m2 := Build(m1.g, r);
            var m := AutomatonAlternate(m2.g, m1.a, m2.a);
            PushTree(b, Alt(l, r)) == Built(m.g, b.stack + [m.a])
  {
    BuildAlt(b.g, l, r);
    var t := Alt(l, r);
    assert !t.Lit? && !t.AnyChar? && !t.Cat? && t.Alt? && t.left == l && t.right == r;
  }

  /** Pushing a concatenation pushes its operands' fragments linked together. */
  lemma PushCat(b: Built, l: Regex, r: Regex)
    requires StackOk(b)
    ensures var m1 := Build(b.g, l);
            var m2 := Build(m1.g, r);
            var m := ConcatAutomaton(m2.g, m1.a, m2.a);
            PushTree(b, Cat(l, r)) == Built(m.g, b.stack + [m.a])
  {
    BuildCat(b.g, l, r);
    var t := Cat(l, r);
    assert !t.Lit? && !t.AnyChar? && t.Cat? && t.left == l && t.right == r;
  }

  /** The alternation case of `Build`: left operand, then right operand, then the split. */
  lemma BuildAlt(g: Graph, l: Regex, r: Regex)
    requires Valid(g) && AllSeparated(g)
    ensures var m1 := Build(g, l);
            var m2 := Build(m1.g, r);
            Build(g, Alt(l, r)) == AutomatonAlternate(m2.g, m1.a, m2.a)
  {
    var t := Alt(l, r);
    assert !t.Lit? && !t.AnyChar? && !t.Cat? && t.Alt? && t.left == l && t.right == r;
  }

  /** The concatenation case of `Build`: left operand, then right operand, then the link. */
  lemma BuildCat(g: Graph, l: Regex, r: Regex)
    requires Valid(g) && AllSeparated(g)
    ensures var m1 := Build(g, l);
            var m2 := Build(m1.g, r);
            Build(g, Cat(l, r)) == ConcatAutomaton(m2.g, m1.a, m2.a)
  {
    var t := Cat(l, r);
    assert !t.Lit? && !t.AnyChar? && t.Cat? && t.left == l && t.right == r;
  }

  /** The starred case of `Build`: the operand, then the zero-or-more wrapping. */
  lemma BuildStar(g: Graph, e: Regex)
    requires Valid(g) && AllSeparated(g)
    ensures var m := Build(g, e); Build(g, Star(e)) == AutomatonZeroOrOne(m.g, m.a)
  {
    var t := Star(e);
    assert !t.Lit? && !t.AnyChar? && !t.Cat? && !t.Alt? && t.Star? && t.inner == e;
  }

  /** `Combine` on a stack whose top two are `a1` and `a2` pushes their combination. */
  lemma CombinePair(s: seq<Automaton>, g: Graph, a1: Automaton, a2: Automaton, op: ThompsonOp)
    requires StackOk(Built(g, s + [a1, a2])) && (op == Or || op == Concat)
    requires IsFragment(g, a1) && IsFragment(g, a2)
    ensures var m := if op == Or then AutomatonAlternate(g, a1, a2) else ConcatAutomaton(g, a1, a2);
            Combine(Built(g, s + [a1, a2]), op) == Built(m.g, s + [m.a])
  {
    var b := Built(g, s + [a1, a2]);
    var n := |b.stack|;
    assert b.stack[n - 2] == a1 && b.stack[n - 1] == a2;
    assert b.stack[..n - 2] == s;
  }

  /** The loop's first iteration on a binary operator with enough operands. */
  lemma RunCons(b: Built, op: ThompsonOp, rest: seq<ThompsonOp>)
    requires StackOk(b) && |b.stack| >= 2 && (op == Or || op == Concat)
    ensures Run(b, [op] + rest) == Run(Combine(b, op), rest)
  {
    assert ([op] + rest)[1..] == rest;
  }

  /** A pattern whose postfix form is that of a tree builds the tree's fragment in a
      fresh arena. */
  lemma ConstructFromTree(re: string, t: Regex)
    requires ToThompsonPostfix(re) == Ok(Postfix(t))
    ensures ConstructNfa(re) == Ok(Build(EmptyGraph, t))
  {
    var b0 := Built(EmptyGraph, []);
    assert StackOk(b0);
    RunPostfix(b0, t, []);
    assert Postfix(t) + [] == Postfix(t);
    var m := Build(EmptyGraph, t);
    var b1 := PushTree(b0, t);
    assert b1 == Built(m.g, [m.a]);
    assert Run(b0, Postfix(t)) == Ok(b1);
  }

  // ---------------------------------------------------------------------------
  // Reading a postfix sequence back into a tree.

  /** The postfix forms of a stack of trees, bottom first. */
  function Flat(ts: seq<Regex>): seq<ThompsonOp>
    decreases |ts|
  {
    if ts == [] then [] else Flat(ts[..|ts| - 1]) + Postfix(ts[|ts| - 1])
  }

  lemma FlatPush(ts: seq<Regex>, t: Regex)
    ensures Flat(ts + [t]) == Flat(ts) + Postfix(t)
  {
    assert (ts + [t])[..|ts|] == ts;
  }

  /** One operator of the tree-building stack machine. */
  function TreeStep(ts: seq<Regex>, op: ThompsonOp): (r: Option<seq<Regex>>)
    ensures r.Some? <==> StackDepth([op], |ts|).Some?
    ensures r.Some? ==> StackDepth([op], |ts|) == Some(|r.value|) && Flat(r.value) == Flat(ts) + [op]
  {
    DepthSingle(op, |ts|);
    var n := |ts|;
    match op
    case Primary(c) =>
      FlatPush(ts, Lit(c));
      Some(ts + [Lit(c)])
    case All =>
      FlatPush(ts, AnyChar);
      Some(ts + [AnyChar])
    case Asterisk =>
      if n < 1 then None
      else
        var below := ts[..n - 1];
        FlatPush(below, Star(ts[n - 1]));
        assert ts == below + [ts[n - 1]];
        FlatPush(below, ts[n - 1]);
        Some(below + [Star(ts[n - 1])])
    case Or =>
      if n < 2 then None else Some(Pair(ts, Or))
    case Concat =>
      if n < 2 then None else Some(Pair(ts, Concat))
    case _ => None
  }

  /** The two top trees replaced by their combination under `op`. */
  function Pair(ts: seq<Regex>, op: ThompsonOp): (r: seq<Regex>)
    requires |ts| >= 2 && (op == Or || op == Concat)
    ensures |r| == |ts| - 1 && Flat(r) == Flat(ts) + [op]
  {
    var n := |ts|;
    var below := ts[..n - 2];
    var t := if op == Or then Alt(ts[n - 2], ts[n - 1]) else Cat(ts[n - 2], ts[n - 1]);
    FlatPush(below, t);
    assert ts == below + [ts[n - 2]] + [ts[n - 1]];
    FlatPush(below + [ts[n - 2]], ts[n - 1]);
    FlatPush(below, ts[n - 2]);
    below + [t]
  }

  /** The tree-building stack machine over a whole sequence; its stacks spell out
      exactly the operators read so far. */
  function Trees(ts: seq<Regex>, ops: seq<ThompsonOp>): (r: Option<seq<Regex>>)
    ensures r.Some? <==> StackDepth(ops, |ts|).Some?
    ensures r.Some? ==> StackDepth(ops, |ts|) == Some(|r.value|) && Flat(r.value) == Flat(ts) + ops
    decreases |ops|
  {
    if ops == [] then
      Some(ts)
    else
      assert [ops[0]] + ops[1..] == ops;
      DepthAppend([ops[0]], ops[1..], |ts|);
      match TreeStep(ts, ops[0])
      case None => None
      case Some(ts1) =>
        var r := Trees(ts1, ops[1..]);
        assert r.Some? ==> Flat(r.value) == Flat(ts) + [ops[0]] + ops[1..];
        r
  }

  /** The tree a complete postfix sequence denotes. */
  function TreeOf(ops: seq<ThompsonOp>): (t: Regex)
    requires WellFormed(ops)
    ensures Postfix(t) == ops
  {
    var ts := Trees([], ops).value;
    assert Flat(ts) == Flat([ts[0]]) by { assert ts == [ts[0]]; }
    assert Flat([ts[0]]) == Postfix(ts[0]) by { FlatPush([], ts[0]); }
    ts[0]
  }

  /** Reading the postfix form of a tree pushes exactly that tree. */
  lemma {:induction false} TreesPostfix(ts: seq<Regex>, t: Regex, rest: seq<ThompsonOp>)
    ensures Trees(ts, Postfix(t) + rest) == Trees(ts + [t], rest)
    decreases t, 1
  {
    match t
    case Lit(c) =>
      assert ([Primary(c)] + rest)[1..] == rest;
    case AnyChar =>
      assert ([ThompsonOp.All] + rest)[1..] == rest;
    case Cat(l, r) =>
      TreesBinary(ts, l, r, Concat, rest);
    case Alt(l, r) =>
      TreesBinary(ts, l, r, Or, rest);
    case Star(e) =>
      TreesStarred(ts, e, rest);
  }

  /** The binary cases of `TreesPostfix`. */
  lemma {:induction false} TreesBinary(ts: seq<Regex>, l: Regex, r: Regex, op: ThompsonOp, rest: seq<ThompsonOp>)
    requires op == Or || op == Concat
    ensures var t := if op == Or then Alt(l, r) else Cat(l, r);
            Trees(ts, Postfix(t) + rest) == Trees(ts + [t], rest)
    decreases if op == Or then Alt(l, r) else Cat(l, r), 0
  {
    var t := if op == Or then Alt(l, r) else Cat(l, r);
    var tail := [op] + rest;
    assert Postfix(t) + rest == Postfix(l) + (Postfix(r) + tail);
    TreesPostfix(ts, l, Postfix(r) + tail);
    TreesPostfix(ts + [l], r, tail);
    TreesCombine(ts, l, r, op, rest);
  }

  /** The starred case of `TreesPostfix`. */
  lemma {:induction false} TreesStarred(ts: seq<Regex>, e: Regex, rest: seq<ThompsonOp>)
    ensures Trees(ts, Postfix(Star(e)) + rest) == Trees(ts + [Star(e)], rest)
    decreases Star(e), 0
  {
    var tail := [Asterisk] + rest;
    assert Postfix(Star(e)) + rest == Postfix(e) + tail;
    TreesPostfix(ts, e, tail);
    TreesStar(ts, e, rest);
  }

  /** A binary operator after its two operand trees combines them. */
  lemma TreesCombine(ts: seq<Regex>, l: Regex, r: Regex, op: ThompsonOp, rest: seq<ThompsonOp>)
    requires op == Or || op == Concat
    ensures var t := if op == Or then Alt(l, r) else Cat(l, r);
            Trees(ts + [l] + [r], [op] + rest) == Trees(ts + [t], rest)
  {
    var n := |ts|;
    var t := if op == Or then Alt(l, r) else Cat(l, r);
    var two := ts + [l] + [r];
    assert ([op] + rest)[0] == op && ([op] + rest)[1..] == rest;
    assert two[..n] == ts && two[n] == l && two[n + 1] == r;
    assert Pair(two, op) == ts + [t];
    assert TreeStep(two, op) == Some(ts + [t]);
  }

  /** `*` after its operand tree stars it. */
  lemma TreesStar(ts: seq<Regex>, e: Regex, rest: seq<ThompsonOp>)
    ensures Trees(ts + [e], [Asterisk] + rest) == Trees(ts + [Star(e)], rest)
  {
    var n := |ts|;
    assert ([Asterisk] + rest)[0] == Asterisk && ([Asterisk] + rest)[1..] == rest;
    assert (ts + [e])[..n] == ts;
    assert TreeStep(ts + [e], Asterisk) == Some(ts + [Star(e)]);
  }

  /** Postfix forms and trees are in one-to-one correspondence. */
  lemma PostfixRoundTrip(t: Regex)
    ensures WellFormed(Postfix(t)) && TreeOf(Postfix(t)) == t
  {
    TreesPostfix([], t, []);
    assert Postfix(t) + [] == Postfix(t);
  }

  /** Every automaton the builder returns is Thompson's construction of the tree its
      postfix sequence denotes. */
  lemma ConstructIsThompson(re: string)
    requires ConstructNfa(re).Ok?
    ensures ConstructNfa(re) == Ok(Build(EmptyGraph, TreeOf(ToThompsonPostfix(re).value)))
  {
    ConstructFromTree(re, TreeOf(ToThompsonPostfix(re).value));
  }

  // ---------------------------------------------------------------------------
  // The example patterns: each builds the fragment its tree describes.

  lemma BuildConcat()
    ensures ConstructNfa("abc") == Ok(Build(EmptyGraph, Cat(Cat(Lit('a'), Lit('b')), Lit('c'))))
  {
    BuildConcatAt("abc", Cat(Cat(Lit('a'), Lit('b')), Lit('c')));
  }

  /** The proof of `BuildConcat`. The pattern is a parameter fixed by `requires`, so that the
      parser unfolds on it one level at a time rather than all at once on a literal. */
  lemma BuildConcatAt(re: string, t: Regex)
    requires re == "abc" && t == Cat(Cat(Lit('a'), Lit('b')), Lit('c'))
    ensures ConstructNfa(re) == Ok(Build(EmptyGraph, t))
  {
    ParserCases.LiteralChain(re);
    assert re[1..] == "bc" && "bc"[1..] == "c" && "c"[1..] == [];
    assert [Primary('a')] + ParserCases.ChainOps("bc") == Postfix(t);
    ConstructFromTree(re, t);
  }

  lemma BuildOr()
    ensures ConstructNfa("ab|c") == Ok(Build(EmptyGraph, Cat(Lit('a'), Alt(Lit('b'), Lit('c')))))
  {
    BuildOrAt("ab|c", Cat(Lit('a'), Alt(Lit('b'), Lit('c'))));
  }

  /** The proof of `BuildOr`. The pattern is a parameter fixed by `requires`, so that the
      parser unfolds on it one level at a time rather than all at once on a literal. */
  lemma BuildOrAt(re: string, t: Regex)
    requires re == "ab|c" && t == Cat(Lit('a'), Alt(Lit('b'), Lit('c')))
    ensures ConstructNfa(re) == Ok(Build(EmptyGraph, t))
  {
    ParserCases.OrBindsTighterLeftAt(re, Postfix(t));
    ConstructFromTree(re, t);
  }

  lemma BuildAsterisk()
    ensures ConstructNfa("ab*|c") == Ok(Build(EmptyGraph, Cat(Lit('a'), Alt(Star(Lit('b')), Lit('c')))))
  {
    BuildAsteriskAt("ab*|c", Cat(Lit('a'), Alt(Star(Lit('b')), Lit('c'))));
  }

  /** The proof of `BuildAsterisk`. The pattern is a parameter fixed by `requires`, so that the
      parser unfolds on it one level at a time rather than all at once on a literal. */
  lemma BuildAsteriskAt(re: string, t: Regex)
    requires re == "ab*|c" && t == Cat(Lit('a'), Alt(Star(Lit('b')), Lit('c')))
    ensures ConstructNfa(re) == Ok(Build(EmptyGraph, t))
  {
    ParserCases.StarBindsTighterThanOrAt(re, Postfix(t));
    ConstructFromTree(re, t);
  }

  lemma BuildParen()
    ensures ConstructNfa("(ab)*|c") == Ok(Build(EmptyGraph, Alt(Star(Cat(Lit('a'), Lit('b'))), Lit('c'))))
  {
    BuildParenAt("(ab)*|c", Alt(Star(Cat(Lit('a'), Lit('b'))), Lit('c')));
  }

  /** The proof of `BuildParen`. The pattern is a parameter fixed by `requires`, so that the
      parser unfolds on it one level at a time rather than all at once on a literal. */
  lemma BuildParenAt(re: string, t: Regex)
    requires re == "(ab)*|c" && t == Alt(Star(Cat(Lit('a'), Lit('b'))), Lit('c'))
    ensures ConstructNfa(re) == Ok(Build(EmptyGraph, t))
  {
    ParserCases.StarredGroupAt(re, 'c', Postfix(t));
    ConstructFromTree(re, t);
  }

  lemma BuildCharClass()
    ensures ConstructNfa("(a.)*|c") == Ok(Build(EmptyGraph, Alt(Star(Cat(Lit('a'), AnyChar)), Lit('c'))))
  {
    BuildCharClassAt("(a.)*|c", Alt(Star(Cat(Lit('a'), AnyChar)), Lit('c')));
  }

  /** The proof of `BuildCharClass`. The pattern is a parameter fixed by `requires`, so that the
      parser unfolds on it one level at a time rather than all at once on a literal. */
  lemma BuildCharClassAt(re: string, t: Regex)
    requires re == "(a.)*|c" && t == Alt(Star(Cat(Lit('a'), AnyChar)), Lit('c'))
    ensures ConstructNfa(re) == Ok(Build(EmptyGraph, t))
  {
    ParserCases.StarredGroupWithAnyCharAt(re, 'c', Postfix(t));
    ConstructFromTree(re, t);
  }
}
