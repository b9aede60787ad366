/** The pattern parser: pattern text to a postfix sequence of Thompson operators.
    Each precedence level returns the operators it produced and the unconsumed input.
    Precedence (loosest first) is the code's own: implicit concatenation, then `|`
    (right-recursive), then `*`, then groups and character classes. */
module Transform {
  import opened Outcomes

  datatype ThompsonOp = LeftParen | RightParen | Asterisk | Or | Concat | All | Primary(c: char)

  /** Classification of one pattern character. */
  function ToThompsonOp(c: char): ThompsonOp {
    match c
    case '(' => LeftParen
    case ')' => RightParen
    case '*' => Asterisk
    case '|' => Or
    case '.' => All
    case _ => Primary(c)
  }

  /** Operators produced by one level, and the input left for the caller. */
  datatype Parsed = Parsed(ops: seq<ThompsonOp>, rest: string)

  predicate IsSuffix(r: string, s: string) {
    |r| <= |s| && r == s[|s| - |r|..]
  }

  predicate NoParens(ops: seq<ThompsonOp>) {
    forall i :: 0 <= i < |ops| ==> ops[i] != LeftParen && ops[i] != RightParen
  }

  /** Depth of the fragment stack of the NFA builder after running `ops` from depth `h`;
      None when an operator finds too few operands or is a parenthesis. */
  function StackDepth(ops: seq<ThompsonOp>, h: nat): Option<nat>
    decreases |ops|
  {
    if ops == [] then Some(h)
    else match ops[0]
      case Primary(_) => StackDepth(ops[1..], h + 1)
      case All => StackDepth(ops[1..], h + 1)
      case Asterisk => if h >= 1 then StackDepth(ops[1..], h) else None
      case Or => if h >= 2 then StackDepth(ops[1..], h - 1) else None
      case Concat => if h >= 2 then StackDepth(ops[1..], h - 1) else None
      case LeftParen => None
      case RightParen => None
  }

  /** A complete postfix expression: from an empty stack it leaves exactly one operand. */
  predicate WellFormed(ops: seq<ThompsonOp>) {
    StackDepth(ops, 0) == Some(1)
  }

  /** A postfix expression whose last binary operator is missing its right operand:
      it needs one operand already on the stack and leaves one. */
  predicate Dangling(ops: seq<ThompsonOp>) {
    StackDepth(ops, 1) == Some(1)
  }

  function Last(s: string): char
    requires s != []
  {
    s[|s| - 1]
  }

  /** The shape every successful level result has: nothing parsed from empty input,
      a complete expression, or (only when the whole input ended with `|`) a dangling one. */
  predicate Shaped(s: string, p: Parsed) {
    || (s == [] && p.ops == [] && p.rest == [])
    || WellFormed(p.ops)
    || (p.rest == [] && s != [] && Last(s) == '|' && Dangling(p.ops))
  }

  function ToThompsonPostfix(s: string): (r: Outcome<seq<ThompsonOp>>)
    ensures r.Ok? ==> NoParens(r.value)
    ensures r.Ok? && s != [] && Last(s) != '|' ==> WellFormed(r.value)
    ensures r.Ok? && s != [] ==> r.value != [] && (WellFormed(r.value) || Dangling(r.value))
    ensures r.Ok? && s == [] ==> r.value == []
  {
    var p :- PostfixConcat(s);
    Ok(p.ops)
  }

  /** Concatenation level: one or-level unit, then more units, each followed by `Concat`,
      until a `)` or the end of the input. */
  function PostfixConcat(s: string): (r: Outcome<Parsed>)
    ensures r.Ok? ==> IsSuffix(r.value.rest, s)
    ensures r.Ok? && s != [] ==> |r.value.rest| < |s|
    ensures r.Ok? ==> r.value.rest == [] || r.value.rest[0] == ')'
    ensures r.Ok? ==> NoParens(r.value.ops)
    ensures r.Ok? ==> Shaped(s, r.value)
    ensures r.Ok? && s != [] ==> r.value.ops != []
    ensures s == [] ==> r == Ok(Parsed([], []))
    decreases |s|, 4
  {
    var p :- PostfixOr(s);
    ConcatRest(p.ops, p.rest)
  }

  /** The loop of the concatenation level, with the operators produced so far in `acc`. */
  function ConcatRest(acc: seq<ThompsonOp>, s: string): (r: Outcome<Parsed>)
    ensures r.Ok? ==> IsSuffix(r.value.rest, s)
    ensures r.Ok? ==> r.value.rest == [] || r.value.rest[0] == ')'
    ensures r.Ok? && NoParens(acc) ==> NoParens(r.value.ops)
    ensures r.Ok? && acc != [] ==> r.value.ops != []
    ensures r.Ok? && (s == [] || s[0] == ')') ==> r.value.ops == acc && r.value.rest == s
    ensures r.Ok? && WellFormed(acc) ==>
              || WellFormed(r.value.ops)
              || (r.value.rest == [] && s != [] && Last(s) == '|' && Dangling(r.value.ops))
    decreases |s|, 3
  {
    if s == [] || ToThompsonOp(s[0]) == RightParen then
      Ok(Parsed(acc, s))
    else
      var p :- PostfixOr(s);
      DepthAppendWellFormed(acc, p.ops, Concat);
      NoParensJoin(acc, p.ops, Concat);
      ConcatRest(acc + p.ops + [Concat], p.rest)
  }

  /** Alternation level: a starred unit, optionally `|` and a recursively parsed right side. */
  function PostfixOr(s: string): (r: Outcome<Parsed>)
    ensures r.Ok? ==> IsSuffix(r.value.rest, s)
    ensures r.Ok? && s != [] ==> |r.value.rest| < |s|
    ensures r.Ok? ==> r.value.rest == [] || r.value.rest[0] != '|'
    ensures r.Ok? ==> NoParens(r.value.ops)
    ensures r.Ok? ==> Shaped(s, r.value)
    ensures r.Ok? && s != [] ==> r.value.ops != []
    ensures s == [] ==> r == Ok(Parsed([], []))
    decreases |s|, 2
  {
    var p :- PostfixAsterisk(s);
    if p.rest != [] && ToThompsonOp(p.rest[0]) == Or then
      var q :- PostfixOr(p.rest[1..]);
      OrShape(s, p, q);
      Ok(Parsed(p.ops + q.ops + [Or], q.rest))
    else
      Ok(p)
  }

  /** Repetition level: one primary, optionally followed by `*`. */
  function PostfixAsterisk(s: string): (r: Outcome<Parsed>)
    ensures r.Ok? ==> IsSuffix(r.value.rest, s)
    ensures r.Ok? && s != [] ==> |r.value.rest| < |s|
    ensures r.Ok? ==> NoParens(r.value.ops)
    ensures r.Ok? ==> (s == [] && r.value.ops == [] && r.value.rest == []) || WellFormed(r.value.ops)
    ensures r.Ok? && s != [] ==> r.value.ops != []
    ensures s == [] ==> r == Ok(Parsed([], []))
    decreases |s|, 1
  {
    var p :- PostfixPrimary(s);
    if p.rest != [] && ToThompsonOp(p.rest[0]) == Asterisk then
      DepthStarWellFormed(p.ops);
      Ok(Parsed(p.ops + [Asterisk], p.rest[1..]))
    else
      Ok(p)
  }

  /** Primary level: a parenthesised concatenation-level expression or a character class. */
  function PostfixPrimary(s: string): (r: Outcome<Parsed>)
    ensures r.Ok? ==> IsSuffix(r.value.rest, s)
    ensures r.Ok? && s != [] ==> |r.value.rest| < |s|
    ensures r.Ok? ==> NoParens(r.value.ops)
    ensures r.Ok? ==> (s == [] && r.value.ops == [] && r.value.rest == []) || WellFormed(r.value.ops)
    ensures r.Ok? && s != [] ==> r.value.ops != []
    ensures s == [] ==> r == Ok(Parsed([], []))
    decreases |s|, 0
  {
    if s == [] then
      Ok(Parsed([], []))
    else if ToThompsonOp(s[0]) == LeftParen then
      var p :- PostfixConcat(s[1..]);
      if p.rest == [] then Panic(SliceOutOfRange) else Ok(Parsed(p.ops, p.rest[1..]))
    else
      PostfixCharClass(s)
  }

  /** Character class: `\x` is the literal `x`, `.` is any character, an operator is fatal. */
  function PostfixCharClass(s: string): (r: Outcome<Parsed>)
    ensures r.Ok? ==> IsSuffix(r.value.rest, s)
    ensures r.Ok? && s != [] ==> |r.value.rest| < |s|
    ensures r.Ok? ==> (s == [] && r.value.ops == [] && r.value.rest == []) || |r.value.ops| == 1
    ensures r.Ok? && s != [] ==> |r.value.ops| == 1 && (r.value.ops[0].Primary? || r.value.ops[0].All?)
    ensures r.Ok? && s != [] ==> WellFormed(r.value.ops)
    ensures r.Err? <==> s == ['\\']
    ensures r.Panic? <==> s != [] && s[0] in {'(', ')', '*', '|'}
  {
    if s == [] then
      Ok(Parsed([], []))
    else if s[0] == '\\' then
      if |s| == 1 then Err("escapted nothing") else Ok(Parsed([Primary(s[1])], s[2..]))
    else
      match ToThompsonOp(s[0])
      case All => Ok(Parsed([All], s[1..]))
      case Primary(_) => Ok(Parsed([Primary(s[0])], s[1..]))
      case _ => Panic(UnexpectedOp)
  }

  // ---------------------------------------------------------------------------
  // Stack-depth arithmetic used by the shape contracts above.

  lemma {:induction false} DepthAppend(a: seq<ThompsonOp>, b: seq<ThompsonOp>, h: nat)
    ensures StackDepth(a + b, h) == (match StackDepth(a, h) case None => None case Some(h1) => StackDepth(b, h1))
    decreases |a|
  {
    if a == [] {
      assert a + b == b;
    } else {
      assert (a + b)[0] == a[0];
      assert (a + b)[1..] == a[1..] + b;
      match a[0]
      case Primary(_) => DepthAppend(a[1..], b, h + 1);
      case All => DepthAppend(a[1..], b, h + 1);
      case Asterisk => if h >= 1 { DepthAppend(a[1..], b, h); }
      case Or => if h >= 2 { DepthAppend(a[1..], b, h - 1); }
      case Concat => if h >= 2 { DepthAppend(a[1..], b, h - 1); }
      case LeftParen =>
      case RightParen =>
    }
  }

  lemma {:induction false} DepthShift(a: seq<ThompsonOp>, h: nat, h1: nat, k: nat)
    requires StackDepth(a, h) == Some(h1)
    ensures StackDepth(a, h + k) == Some(h1 + k)
    decreases |a|
  {
    if a != [] {
      match a[0]
      case Primary(_) => DepthShift(a[1..], h + 1, h1, k);
      case All => DepthShift(a[1..], h + 1, h1, k);
      case Asterisk => DepthShift(a[1..], h, h1, k);
      case Or => DepthShift(a[1..], h - 1, h1, k);
      case Concat => DepthShift(a[1..], h - 1, h1, k);
    }
  }

  /** A complete left operand followed by a complete, dangling or empty right operand and
      a binary operator is complete, dangling, or dangling respectively. */
  lemma DepthAppendWellFormed(a: seq<ThompsonOp>, b: seq<ThompsonOp>, op: ThompsonOp)
    requires op == Or || op == Concat
    ensures WellFormed(a) && WellFormed(b) ==> WellFormed(a + b + [op])
    ensures WellFormed(a) && Dangling(b) ==> Dangling(a + b + [op])
    ensures WellFormed(a) && b == [] ==> Dangling(a + b + [op])
  {
    if WellFormed(a) {
      DepthShift(a, 0, 1, 1);
      DepthAppend(a + b, [op], 0);
      DepthAppend(a + b, [op], 1);
      DepthAppend(a, b, 0);
      DepthAppend(a, b, 1);
      if WellFormed(b) {
        DepthShift(b, 0, 1, 1);
      }
      if Dangling(b) {
        DepthShift(b, 1, 1, 1);
      }
    }
  }

  /** Shape of `left | right` from the shapes of its parts. */
  lemma OrShape(s: string, p: Parsed, q: Parsed)
    requires s != [] && IsSuffix(p.rest, s) && WellFormed(p.ops)
    requires p.rest != [] && p.rest[0] == '|' && IsSuffix(q.rest, p.rest[1..])
    requires Shaped(p.rest[1..], q)
    requires NoParens(p.ops) && NoParens(q.ops)
    ensures Shaped(s, Parsed(p.ops + q.ops + [Or], q.rest))
    ensures NoParens(p.ops + q.ops + [Or])
    ensures IsSuffix(q.rest, s) && |q.rest| < |s|
  {
    DepthAppendWellFormed(p.ops, q.ops, Or);
    if p.rest[1..] == [] {
      assert Last(s) == Last(p.rest);
    } else if !WellFormed(q.ops) {
      assert Last(p.rest[1..]) == Last(p.rest) == Last(s);
    }
  }

  lemma DepthStarWellFormed(a: seq<ThompsonOp>)
    ensures WellFormed(a) ==> WellFormed(a + [Asterisk])
  {
    DepthAppend(a, [Asterisk], 0);
  }

  /** Joining two parenthesis-free sequences with an operator keeps them parenthesis-free. */
  lemma NoParensJoin(a: seq<ThompsonOp>, b: seq<ThompsonOp>, op: ThompsonOp)
    requires op != LeftParen && op != RightParen
    ensures NoParens(a) && NoParens(b) ==> NoParens(a + b + [op])
  {
    if NoParens(a) && NoParens(b) {
      forall i | 0 <= i < |a + b + [op]|
        ensures (a + b + [op])[i] != LeftParen && (a + b + [op])[i] != RightParen
      {
        if i < |a| {
          assert (a + b + [op])[i] == a[i];
        } else if i < |a| + |b| {
          assert (a + b + [op])[i] == b[i - |a|];
        }
      }
    }
  }
}
