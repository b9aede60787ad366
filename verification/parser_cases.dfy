/** What the pattern parser produces for the pattern shapes its authors pin down:
    literal runs, the binding of `|` and `*`, groups, escapes, and the failures. */
module ParserCases {
  import opened Outcomes
  import opened Transform

  /** A character that stands for itself. */
  predicate Plain(c: char) {
    c !in {'(', ')', '*', '|', '.', '\\'}
  }

  /** `Primary(c), Concat` for each character, in order. */
  function ChainOps(cs: string): seq<ThompsonOp> {
    if cs == [] then [] else [Primary(cs[0]), Concat] + ChainOps(cs[1..])
  }

  /** A plain character not followed by `*` or `|` is a whole or-level unit. */
  lemma PlainUnit(c: char, rest: string)
    requires Plain(c) && (rest == [] || (rest[0] != '*' && rest[0] != '|'))
    ensures PostfixOr([c] + rest) == Ok(Parsed([Primary(c)], rest))
  {
    var s := [c] + rest;
    assert s[0] == c && s[1..] == rest;
    assert rest != [] ==> s[1] == rest[0];
    UnitStep(s);
  }

  /** One pass of the concatenation loop over a plain character. */
  lemma ChainStep(acc: seq<ThompsonOp>, s: string)
    requires s != [] && Plain(s[0]) && (|s| == 1 || (s[1] != '*' && s[1] != '|'))
    ensures ConcatRest(acc, s) == ConcatRest(acc + [Primary(s[0]), Concat], s[1..])
  {
    var rest := s[1..];
    assert s == [s[0]] + rest;
    PlainUnit(s[0], rest);
    assert acc + [Primary(s[0])] + [Concat] == acc + [Primary(s[0]), Concat];
  }

  /** The concatenation loop over plain characters appends one `Primary, Concat` pair each. */
  lemma {:induction false} ChainRest(acc: seq<ThompsonOp>, s: string)
    requires forall i :: 0 <= i < |s| ==> Plain(s[i])
    ensures ConcatRest(acc, s) == Ok(Parsed(acc + ChainOps(s), []))
    decreases |s|
  {
    if s == [] {
      assert acc + ChainOps(s) == acc;
    } else {
      ChainStep(acc, s);
      var acc1 := acc + [Primary(s[0]), Concat];
      ChainRest(acc1, s[1..]);
      assert acc1 + ChainOps(s[1..]) == acc + ChainOps(s);
    }
  }

  /** A run of plain characters is a left-associated chain of concatenations. */
  lemma LiteralChain(s: string)
    requires s != [] && forall i :: 0 <= i < |s| ==> Plain(s[i])
    ensures ToThompsonPostfix(s) == Ok([Primary(s[0])] + ChainOps(s[1..]))
  {
    var rest := s[1..];
    assert s == [s[0]] + rest;
    assert rest != [] ==> rest[0] == s[1];
    PlainUnit(s[0], rest);
    ChainRest([Primary(s[0])], rest);
  }

  /** `.` is the any-character class and a backslash makes the next character literal,
      whatever it is. */
  lemma ClassCases(x: char, rest: string)
    ensures PostfixCharClass(['.'] + rest) == Ok(Parsed([All], rest))
    ensures PostfixCharClass(['\\', x] + rest) == Ok(Parsed([Primary(x)], rest))
    ensures Plain(x) ==> PostfixCharClass([x] + rest) == Ok(Parsed([Primary(x)], rest))
  {
    assert (['.'] + rest)[1..] == rest;
    assert (['\\', x] + rest)[2..] == rest;
    assert ([x] + rest)[1..] == rest;
  }

  lemma TrailingBackslashFails()
    ensures ToThompsonPostfix("a\\") == Err("escapted nothing")
  {
    var s := "a\\";
    assert s[1..] == "\\";
    assert PostfixOr("\\") == Err("escapted nothing");
    PlainUnit('a', "\\");
  }

  lemma UnmatchedOpenPanics()
    ensures ToThompsonPostfix("(a") == Panic(SliceOutOfRange)
  {
    var s := "(a";
    assert s[1..] == "a";
    LiteralChain("a");
    assert PostfixConcat("a") == Ok(Parsed([Primary('a')], []));
  }

  /** A pattern that starts with `*`, `|` or `)` has an operator where an operand is due. */
  lemma OperatorAsOperandPanics(s: string)
    requires s != [] && s[0] in {'*', '|', ')'}
    ensures ToThompsonPostfix(s) == Panic(UnexpectedOp)
  {
    assert PostfixCharClass(s) == Panic(UnexpectedOp);
    assert PostfixPrimary(s) == Panic(UnexpectedOp);
    assert PostfixAsterisk(s) == Panic(UnexpectedOp);
    assert PostfixOr(s) == Panic(UnexpectedOp);
    assert PostfixConcat(s) == Panic(UnexpectedOp);
  }

  /** Input after an unmatched `)` is dropped. */
  lemma UnmatchedCloseDropsRest()
    ensures ToThompsonPostfix("a)b") == Ok([Primary('a')])
  {
    var s := "a)b";
    assert s[1..] == ")b";
    UnitStep(s);
    ConcatStart(s, Parsed([Primary('a')], ")b"));
    ConcatStop([Primary('a')], ")b");
    Top(s, Parsed([Primary('a')], ")b"));
  }

  // ---------------------------------------------------------------------------
  // One-level steps of the parser, used to evaluate the example patterns below.

  lemma AtomStep(s: string)
    requires s != [] && Plain(s[0]) && (|s| == 1 || s[1] != '*')
    ensures PostfixAsterisk(s) == Ok(Parsed([Primary(s[0])], s[1..]))
  {
    var c, rest := s[0], s[1..];
    assert PostfixPrimary(s) == Ok(Parsed([Primary(c)], rest)) by {
      assert PostfixCharClass(s) == Ok(Parsed([Primary(c)], rest));
    }
    assert rest == [] || ToThompsonOp(rest[0]) != Asterisk by {
      assert rest != [] ==> rest[0] == s[1];
    }
  }

  lemma UnitStep(s: string)
    requires s != [] && Plain(s[0]) && (|s| == 1 || (s[1] != '*' && s[1] != '|'))
    ensures PostfixOr(s) == Ok(Parsed([Primary(s[0])], s[1..]))
  {
    AtomStep(s);
    assert s[1..] == [] || s[1..][0] != '|' by {
      assert s[1..] != [] ==> s[1..][0] == s[1];
    }
    NoBarStep(s, Parsed([Primary(s[0])], s[1..]));
  }

  lemma NoBarStep(s: string, p: Parsed)
    requires PostfixAsterisk(s) == Ok(p) && (p.rest == [] || p.rest[0] != '|')
    ensures PostfixOr(s) == Ok(p)
  {
  }

  lemma ClassAtom(s: string)
    requires s != [] && s[0] != '('
    ensures PostfixPrimary(s) == PostfixCharClass(s)
    ensures s[0] == '.' ==> PostfixPrimary(s) == Ok(Parsed([All], s[1..]))
    ensures Plain(s[0]) ==> PostfixPrimary(s) == Ok(Parsed([Primary(s[0])], s[1..]))
    ensures |s| >= 2 && s[0] == '\\' ==> PostfixPrimary(s) == Ok(Parsed([Primary(s[1])], s[2..]))
  {
  }

  lemma StarStep(s: string, p: Parsed)
    requires PostfixPrimary(s) == Ok(p) && p.rest != [] && p.rest[0] == '*'
    ensures PostfixAsterisk(s) == Ok(Parsed(p.ops + [Asterisk], p.rest[1..]))
  {
  }

  lemma NoStarStep(s: string, p: Parsed)
    requires PostfixPrimary(s) == Ok(p) && (p.rest == [] || p.rest[0] != '*')
    ensures PostfixAsterisk(s) == Ok(p)
  {
  }

  lemma GroupStep(s: string, p: Parsed)
    requires s != [] && s[0] == '(' && PostfixConcat(s[1..]) == Ok(p) && p.rest != []
    ensures PostfixPrimary(s) == Ok(Parsed(p.ops, p.rest[1..]))
  {
  }

  lemma NoOrStep(s: string, p: Parsed)
    requires PostfixAsterisk(s) == Ok(p) && (p.rest == [] || p.rest[0] != '|')
    ensures PostfixOr(s) == Ok(p)
  {
  }

  lemma OrStep(s: string, p: Parsed, q: Parsed)
    requires PostfixAsterisk(s) == Ok(p) && p.rest != [] && p.rest[0] == '|'
    requires PostfixOr(p.rest[1..]) == Ok(q)
    ensures PostfixOr(s) == Ok(Parsed(p.ops + q.ops + [Or], q.rest))
  {
  }

  lemma ConcatStart(s: string, p: Parsed)
    requires PostfixOr(s) == Ok(p)
    ensures PostfixConcat(s) == ConcatRest(p.ops, p.rest)
  {
  }

  lemma ConcatStep(acc: seq<ThompsonOp>, s: string, p: Parsed)
    requires s != [] && s[0] != ')' && PostfixOr(s) == Ok(p)
    ensures ConcatRest(acc, s) == ConcatRest(acc + p.ops + [Concat], p.rest)
  {
  }

  lemma ConcatStop(acc: seq<ThompsonOp>, s: string)
    requires s == [] || s[0] == ')'
    ensures ConcatRest(acc, s) == Ok(Parsed(acc, s))
  {
  }

  // ---------------------------------------------------------------------------
  // The example patterns: `|` binds tighter than concatenation, `*` tighter than `|`.

  lemma Top(s: string, p: Parsed)
    requires PostfixConcat(s) == Ok(p)
    ensures ToThompsonPostfix(s) == Ok(p.ops)
  {
  }

  // Each example is evaluated by an `...At` lemma over a pattern variable, one parser
  // level at a time; its `ops` parameter is the expected operator list written as the
  // concatenation the levels produce, and the example lemma supplies it as a display.

  lemma OrBindsTighterLeft()
    ensures ToThompsonPostfix("ab|c") == Ok([Primary('a'), Primary('b'), Primary('c'), Or, Concat])
  {
    OrBindsTighterLeftAt("ab|c", [Primary('a'), Primary('b'), Primary('c'), Or, Concat]);
  }

  /** The proof of `OrBindsTighterLeft`. The pattern is a parameter fixed by `requires`, so that the
      parser unfolds on it one level at a time rather than all at once on a literal. */
  lemma OrBindsTighterLeftAt(s: string, ops: seq<ThompsonOp>)
    requires s == "ab|c"
    requires ops == [Primary('a')] + ([Primary('b')] + [Primary('c')] + [Or]) + [Concat]
    ensures ToThompsonPostfix(s) == Ok(ops)
  {
    var a, b, c := Primary('a'), Primary('b'), Primary('c');
    assert s[1..] == "b|c" && "b|c"[1..] == "|c" && "|c"[1..] == "c" && "c"[1..] == [];
    UnitStep(s);
    AtomStep("b|c");
    UnitStep("c");
    OrStep("b|c", Parsed([b], "|c"), Parsed([c], []));
    ConcatStart(s, Parsed([a], "b|c"));
    ConcatStep([a], "b|c", Parsed([b] + [c] + [Or], []));
    ConcatStop(ops, []);
    Top(s, Parsed(ops, []));
  }

  lemma OrBindsTighterRight()
    ensures ToThompsonPostfix("a|bc") == Ok([Primary('a'), Primary('b'), Or, Primary('c'), Concat])
  {
    OrBindsTighterRightAt("a|bc", [Primary('a'), Primary('b'), Or, Primary('c'), Concat]);
  }

  /** The proof of `OrBindsTighterRight`. The pattern is a parameter fixed by `requires`, so that the
      parser unfolds on it one level at a time rather than all at once on a literal. */
  lemma OrBindsTighterRightAt(s: string, ops: seq<ThompsonOp>)
    requires s == "a|bc"
    requires ops == [Primary('a')] + [Primary('b')] + [Or] + [Primary('c')] + [Concat]
    ensures ToThompsonPostfix(s) == Ok(ops)
  {
    var a, b, c := Primary('a'), Primary('b'), Primary('c');
    assert s[1..] == "|bc" && "|bc"[1..] == "bc" && "bc"[1..] == "c" && "c"[1..] == [];
    AtomStep(s);
    UnitStep("bc");
    OrStep(s, Parsed([a], "|bc"), Parsed([b], "c"));
    UnitStep("c");
    var ab := [a] + [b] + [Or];
    ConcatStart(s, Parsed(ab, "c"));
    ConcatStep(ab, "c", Parsed([c], []));
    ConcatStop(ops, []);
    Top(s, Parsed(ops, []));
  }

  lemma OrIsRightAssociative()
    ensures ToThompsonPostfix("a|b|c") == Ok([Primary('a'), Primary('b'), Primary('c'), Or, Or])
  {
    OrIsRightAssociativeAt("a|b|c", [Primary('a'), Primary('b'), Primary('c'), Or, Or]);
  }

  /** The proof of `OrIsRightAssociative`. The pattern is a parameter fixed by `requires`, so that the
      parser unfolds on it one level at a time rather than all at once on a literal. */
  lemma OrIsRightAssociativeAt(s: string, ops: seq<ThompsonOp>)
    requires s == "a|b|c"
    requires ops == [Primary('a')] + ([Primary('b')] + [Primary('c')] + [Or]) + [Or]
    ensures ToThompsonPostfix(s) == Ok(ops)
  {
    var a, b, c := Primary('a'), Primary('b'), Primary('c');
    assert s[1..] == "|b|c" && "|b|c"[1..] == "b|c" && "b|c"[1..] == "|c" && "|c"[1..] == "c" && "c"[1..] == [];
    AtomStep(s);
    AtomStep("b|c");
    UnitStep("c");
    OrStep("b|c", Parsed([b], "|c"), Parsed([c], []));
    OrStep(s, Parsed([a], "|b|c"), Parsed([b] + [c] + [Or], []));
    ConcatStart(s, Parsed(ops, []));
    ConcatStop(ops, []);
    Top(s, Parsed(ops, []));
  }

  lemma StarBindsTighterThanOr()
    ensures ToThompsonPostfix("ab*|c") == Ok([Primary('a'), Primary('b'), Asterisk, Primary('c'), Or, Concat])
  {
    StarBindsTighterThanOrAt("ab*|c", [Primary('a'), Primary('b'), Asterisk, Primary('c'), Or, Concat]);
  }

  /** The proof of `StarBindsTighterThanOr`. The pattern is a parameter fixed by `requires`, so that the
      parser unfolds on it one level at a time rather than all at once on a literal. */
  lemma StarBindsTighterThanOrAt(s: string, ops: seq<ThompsonOp>)
    requires s == "ab*|c"
    requires ops == [Primary('a')] + ([Primary('b')] + [Asterisk] + [Primary('c')] + [Or]) + [Concat]
    ensures ToThompsonPostfix(s) == Ok(ops)
  {
    var a, b, c := Primary('a'), Primary('b'), Primary('c');
    assert s[1..] == "b*|c" && "b*|c"[1..] == "*|c" && "*|c"[1..] == "|c" && "|c"[1..] == "c" && "c"[1..] == [];
    UnitStep(s);
    ClassAtom("b*|c");
    StarStep("b*|c", Parsed([b], "*|c"));
    UnitStep("c");
    var bs := [b] + [Asterisk];
    OrStep("b*|c", Parsed(bs, "|c"), Parsed([c], []));
    ConcatStart(s, Parsed([a], "b*|c"));
    ConcatStep([a], "b*|c", Parsed(bs + [c] + [Or], []));
    ConcatStop(ops, []);
    Top(s, Parsed(ops, []));
  }

  lemma StarOnRightOperand()
    ensures ToThompsonPostfix("a|b*c") == Ok([Primary('a'), Primary('b'), Asterisk, Or, Primary('c'), Concat])
  {
    StarOnRightOperandAt("a|b*c", [Primary('a'), Primary('b'), Asterisk, Or, Primary('c'), Concat]);
  }

  /** The proof of `StarOnRightOperand`. The pattern is a parameter fixed by `requires`, so that the
      parser unfolds on it one level at a time rather than all at once on a literal. */
  lemma StarOnRightOperandAt(s: string, ops: seq<ThompsonOp>)
    requires s == "a|b*c"
    requires ops == [Primary('a')] + ([Primary('b')] + [Asterisk]) + [Or] + [Primary('c')] + [Concat]
    ensures ToThompsonPostfix(s) == Ok(ops)
  {
    var a, b, c := Primary('a'), Primary('b'), Primary('c');
    assert s[1..] == "|b*c" && "|b*c"[1..] == "b*c" && "b*c"[1..] == "*c" && "*c"[1..] == "c" && "c"[1..] == [];
    AtomStep(s);
    ClassAtom("b*c");
    StarStep("b*c", Parsed([b], "*c"));
    var bs := [b] + [Asterisk];
    NoOrStep("b*c", Parsed(bs, "c"));
    OrStep(s, Parsed([a], "|b*c"), Parsed(bs, "c"));
    UnitStep("c");
    var abs := [a] + bs + [Or];
    ConcatStart(s, Parsed(abs, "c"));
    ConcatStep(abs, "c", Parsed([c], []));
    ConcatStop(ops, []);
    Top(s, Parsed(ops, []));
  }

  lemma GroupAsOperand()
    ensures ToThompsonPostfix("a|(b*c)") == Ok([Primary('a'), Primary('b'), Asterisk, Primary('c'), Concat, Or])
  {
    GroupAsOperandAt("a|(b*c)", [Primary('a'), Primary('b'), Asterisk, Primary('c'), Concat, Or]);
  }

  /** The proof of `GroupAsOperand`. The pattern is a parameter fixed by `requires`, so that the
      parser unfolds on it one level at a time rather than all at once on a literal. */
  lemma GroupAsOperandAt(s: string, ops: seq<ThompsonOp>)
    requires s == "a|(b*c)"
    requires ops == [Primary('a')] + ([Primary('b')] + [Asterisk] + [Primary('c')] + [Concat]) + [Or]
    ensures ToThompsonPostfix(s) == Ok(ops)
  {
    var a, b, c := Primary('a'), Primary('b'), Primary('c');
    assert s[1..] == "|(b*c)" && "|(b*c)"[1..] == "(b*c)";
    var bsc := [b] + [Asterisk] + [c] + [Concat];
    GroupBStarC("(b*c)", bsc);
    AtomStep(s);
    OrStep(s, Parsed([a], "|(b*c)"), Parsed(bsc, []));
    ConcatStart(s, Parsed(ops, []));
    ConcatStop(ops, []);
    Top(s, Parsed(ops, []));
  }

  lemma GroupBStarC(s: string, ops: seq<ThompsonOp>)
    requires s == "(b*c)"
    requires ops == [Primary('b')] + [Asterisk] + [Primary('c')] + [Concat]
    ensures PostfixOr(s) == Ok(Parsed(ops, []))
  {
    var b, c := Primary('b'), Primary('c');
    assert s[1..] == "b*c)";
    assert "b*c)"[1..] == "*c)" && "*c)"[1..] == "c)" && "c)"[1..] == ")" && ")"[1..] == [];
    ClassAtom("b*c)");
    StarStep("b*c)", Parsed([b], "*c)"));
    var bs := [b] + [Asterisk];
    NoOrStep("b*c)", Parsed(bs, "c)"));
    UnitStep("c)");
    ConcatStart("b*c)", Parsed(bs, "c)"));
    ConcatStep(bs, "c)", Parsed([c], ")"));
    var bsc := bs + [c] + [Concat];
    ConcatStop(bsc, ")");
    GroupStep(s, Parsed(bsc, ")"));
    NoStarStep(s, Parsed(bsc, []));
    NoOrStep(s, Parsed(bsc, []));
  }

  lemma StarredGroup()
    ensures ToThompsonPostfix("(ab)*|c") == Ok([Primary('a'), Primary('b'), Concat, Asterisk, Primary('c'), Or])
  {
    StarredGroupAt("(ab)*|c", 'c', [Primary('a'), Primary('b'), Concat, Asterisk, Primary('c'), Or]);
  }

  /** `(ab)*|x` for a plain `x`.
      The pattern is a parameter fixed by `requires`, so that the parser unfolds on it
      one level at a time rather than all at once on a literal. */
  lemma StarredGroupAt(s: string, x: char, ops: seq<ThompsonOp>)
    requires s == "(ab)*|" + [x] && Plain(x)
    requires ops == [Primary('a')] + [Primary('b')] + [Concat] + [Asterisk] + [Primary(x)] + [Or]
    ensures ToThompsonPostfix(s) == Ok(ops)
  {
    var a, b := Primary('a'), Primary('b');
    assert s[1..] == "ab)*|" + [x] && s[1..][1..] == "b)*|" + [x] && s[1..][2..] == ")*|" + [x];
    assert s[5..] == "|" + [x] && s[6..] == [x] && [x][1..] == [];
    var inner := s[1..];
    UnitStep(inner);
    UnitStep(inner[1..]);
    ConcatStart(inner, Parsed([a], inner[1..]));
    ConcatStep([a], inner[1..], Parsed([b], inner[2..]));
    var ab := [a] + [b] + [Concat];
    ConcatStop(ab, inner[2..]);
    assert inner[2..][1..] == s[4..];
    GroupStep(s, Parsed(ab, inner[2..]));
    assert s[4..][1..] == s[5..];
    StarStep(s, Parsed(ab, s[4..]));
    UnitStep([x]);
    assert s[5..][1..] == [x];
    OrStep(s, Parsed(ab + [Asterisk], s[5..]), Parsed([Primary(x)], []));
    ConcatStart(s, Parsed(ops, []));
    ConcatStop(ops, []);
    Top(s, Parsed(ops, []));
  }

  /** A starred character class followed by plain characters: the star applies to the
      class alone and the rest is the usual chain. */
  lemma StarThenChain(s: string, k: nat, op: ThompsonOp)
    requires k < |s| - 1 && s[k] == '*' && PostfixPrimary(s) == Ok(Parsed([op], s[k..]))
    requires forall i :: k < i < |s| ==> Plain(s[i])
    ensures ToThompsonPostfix(s) == Ok([op, Asterisk] + ChainOps(s[k + 1..]))
  {
    var rest := s[k + 1..];
    assert s[k..][1..] == rest;
    StarStep(s, Parsed([op], s[k..]));
    assert [op] + [Asterisk] == [op, Asterisk];
    assert rest[0] == s[k + 1] && Plain(rest[0]);
    NoOrStep(s, Parsed([op, Asterisk], rest));
    ConcatStart(s, Parsed([op, Asterisk], rest));
    assert forall i :: 0 <= i < |rest| ==> rest[i] == s[k + 1 + i];
    ChainRest([op, Asterisk], rest);
  }

  lemma StarredAnyChar()
    ensures ToThompsonPostfix(".*abc") == Ok([All, Asterisk, Primary('a'), Concat, Primary('b'), Concat, Primary('c'), Concat])
  {
    StarredClassAt(".*abc", 1, All, [All, Asterisk, Primary('a'), Concat, Primary('b'), Concat, Primary('c'), Concat]);
  }

  lemma StarredEscapedDot()
    ensures ToThompsonPostfix("\\.*abc") == Ok([Primary('.'), Asterisk, Primary('a'), Concat, Primary('b'), Concat, Primary('c'), Concat])
  {
    StarredClassAt("\\.*abc", 2, Primary('.'),
      [Primary('.'), Asterisk, Primary('a'), Concat, Primary('b'), Concat, Primary('c'), Concat]);
  }

  lemma StarredEscapedBackslash()
    ensures ToThompsonPostfix("\\\\*abc") == Ok([Primary('\\'), Asterisk, Primary('a'), Concat, Primary('b'), Concat, Primary('c'), Concat])
  {
    StarredClassAt("\\\\*abc", 2, Primary('\\'),
      [Primary('\\'), Asterisk, Primary('a'), Concat, Primary('b'), Concat, Primary('c'), Concat]);
  }

  /** A class of `k` characters, `*`, then `abc`.
      The pattern is a parameter fixed by `requires`, so that the parser unfolds on it
      one level at a time rather than all at once on a literal. */
  lemma StarredClassAt(s: string, k: nat, op: ThompsonOp, ops: seq<ThompsonOp>)
    requires 1 <= k <= 2 && |s| == k + 4 && s[k..] == "*abc"
    requires k == 1 ==> s[0] == '.' && op == All
    requires k == 2 ==> s[0] == '\\' && op == Primary(s[1])
    requires ops == [op, Asterisk] + ([Primary('a'), Concat] + ([Primary('b'), Concat] + ([Primary('c'), Concat] + [])))
    ensures ToThompsonPostfix(s) == Ok(ops)
  {
    ClassAtom(s);
    assert s[k + 1..] == "abc" && "abc"[1..] == "bc" && "bc"[1..] == "c" && "c"[1..] == [];
    assert ChainOps("abc") == [Primary('a'), Concat] + ([Primary('b'), Concat] + ([Primary('c'), Concat] + []));
    StarThenChain(s, k, op);
  }

  lemma StarredGroupWithAnyChar()
    ensures ToThompsonPostfix("(a.)*|b") == Ok([Primary('a'), All, Concat, Asterisk, Primary('b'), Or])
  {
    StarredGroupWithAnyCharAt("(a.)*|b", 'b', [Primary('a'), All, Concat, Asterisk, Primary('b'), Or]);
  }

  /** `(a.)*|x` for a plain `x`.
      The pattern is a parameter fixed by `requires`, so that the parser unfolds on it
      one level at a time rather than all at once on a literal. */
  lemma StarredGroupWithAnyCharAt(s: string, x: char, ops: seq<ThompsonOp>)
    requires s == "(a.)*|" + [x] && Plain(x)
    requires ops == [Primary('a')] + [All] + [Concat] + [Asterisk] + [Primary(x)] + [Or]
    ensures ToThompsonPostfix(s) == Ok(ops)
  {
    var a := Primary('a');
    var inner := s[1..];
    assert inner == "a.)*|" + [x] && inner[1..] == ".)*|" + [x] && inner[2..] == ")*|" + [x];
    assert inner[1..][1..] == inner[2..] && inner[2..][1..] == s[4..];
    assert s[4..] == "*|" + [x] && s[4..][1..] == s[5..] && s[5..] == "|" + [x] && s[5..][1..] == [x] && [x][1..] == [];
    UnitStep(inner);
    ClassAtom(inner[1..]);
    NoStarStep(inner[1..], Parsed([All], inner[2..]));
    NoOrStep(inner[1..], Parsed([All], inner[2..]));
    ConcatStart(inner, Parsed([a], inner[1..]));
    ConcatStep([a], inner[1..], Parsed([All], inner[2..]));
    var aa := [a] + [All] + [Concat];
    ConcatStop(aa, inner[2..]);
    GroupStep(s, Parsed(aa, inner[2..]));
    StarStep(s, Parsed(aa, s[4..]));
    UnitStep([x]);
    OrStep(s, Parsed(aa + [Asterisk], s[5..]), Parsed([Primary(x)], []));
    ConcatStart(s, Parsed(ops, []));
    ConcatStop(ops, []);
    Top(s, Parsed(ops, []));
  }

  lemma GroupsInsideChain()
    ensures ToThompsonPostfix("12(ab)*|c#*") == Ok([Primary('1'), Primary('2'), Concat, Primary('a'), Primary('b'),
      Concat, Asterisk, Primary('c'), Or, Concat, Primary('#'), Asterisk, Concat])
  {
    GroupsInsideChainAt("12(ab)*|c#*", [Primary('1'), Primary('2'), Concat, Primary('a'), Primary('b'),
      Concat, Asterisk, Primary('c'), Or, Concat, Primary('#'), Asterisk, Concat]);
  }

  /** The proof of `GroupsInsideChain`. The pattern is a parameter fixed by `requires`, so that the
      parser unfolds on it one level at a time rather than all at once on a literal. */
  lemma GroupsInsideChainAt(s: string, ops: seq<ThompsonOp>)
    requires s == "12(ab)*|c#*"
    requires ops == [Primary('1')] + [Primary('2')] + [Concat]
                    + ([Primary('a'), Primary('b'), Concat, Asterisk] + [Primary('c')] + [Or]) + [Concat]
                    + ([Primary('#')] + [Asterisk]) + [Concat]
    ensures ToThompsonPostfix(s) == Ok(ops)
  {
    var one, two, c, hash := Primary('1'), Primary('2'), Primary('c'), Primary('#');
    var abs := [Primary('a'), Primary('b'), Concat, Asterisk];
    var s1, s2, s7, s8, s9 := s[1..], s[2..], s[7..], s[8..], s[9..];
    var t12 := [one] + [two] + [Concat];
    var t2 := abs + [c] + [Or];
    var t3 := t12 + t2 + [Concat];
    var hs := [hash] + [Asterisk];
    LeadingPair(s);
    assert s2 == "(ab)*|c#*" && s2[7..] == s9;
    StarredGroupOrChar(s2, t2);
    assert ConcatRest(t12, s2) == ConcatRest(t3, s9) by {
      ConcatStep(t12, s2, Parsed(t2, s9));
    }
    assert s9 == "#*";
    StarredChar(s9);
    assert ConcatRest(t3, s9) == Ok(Parsed(ops, [])) by {
      assert s9[0] == '#';
      ConcatStep(t3, s9, Parsed(hs, []));
      ConcatStop(ops, []);
    }
    Top(s, Parsed(ops, []));
  }

  /** Two plain characters at the start of a pattern, each a whole unit. */
  lemma LeadingPair(s: string)
    requires |s| >= 3 && Plain(s[0]) && Plain(s[1]) && s[2] !in {'*', '|', ')'}
    ensures PostfixConcat(s) == ConcatRest([Primary(s[0])] + [Primary(s[1])] + [Concat], s[2..])
  {
    var s1 := s[1..];
    assert s1[0] == s[1] && s1[1] == s[2] && s1[1..] == s[2..];
    UnitStep(s);
    UnitStep(s1);
    ConcatStart(s, Parsed([Primary(s[0])], s1));
    ConcatStep([Primary(s[0])], s1, Parsed([Primary(s[1])], s[2..]));
  }

  lemma StarredGroupOrChar(s: string, ops: seq<ThompsonOp>)
    requires s == "(ab)*|c#*"
    requires ops == [Primary('a'), Primary('b'), Concat, Asterisk] + [Primary('c')] + [Or]
    ensures PostfixOr(s) == Ok(Parsed(ops, s[7..]))
  {
    var s7, s8, s9 := s[7..], s[8..], s[9..];
    assert s[5..] == "|c#*" && "|c#*"[1..] == s[6..] && s[6..] == "c#*" && s[6..][1..] == s7;
    StarredPairGroup(s);
    AtomStep(s[6..]);
    NoOrStep(s[6..], Parsed([Primary('c')], s7));
    OrStep(s, Parsed([Primary('a'), Primary('b'), Concat, Asterisk], s[5..]), Parsed([Primary('c')], s7));
  }

  lemma StarredChar(s: string)
    requires |s| == 2 && Plain(s[0]) && s[1] == '*'
    ensures PostfixOr(s) == Ok(Parsed([Primary(s[0])] + [Asterisk], []))
  {
    assert s[1..][1..] == [] && s[1..][0] == '*';
    ClassAtom(s);
    StarStep(s, Parsed([Primary(s[0])], s[1..]));
    NoOrStep(s, Parsed([Primary(s[0])] + [Asterisk], []));
  }

  lemma TwoStarredGroups()
    ensures ToThompsonPostfix("12(ab)*|(c#)*") == Ok([Primary('1'), Primary('2'), Concat, Primary('a'), Primary('b'),
      Concat, Asterisk, Primary('c'), Primary('#'), Concat, Asterisk, Or, Concat])
  {
    TwoStarredGroupsAt("12(ab)*|(c#)*", [Primary('1'), Primary('2'), Concat, Primary('a'), Primary('b'),
      Concat, Asterisk, Primary('c'), Primary('#'), Concat, Asterisk, Or, Concat]);
  }

  /** The proof of `TwoStarredGroups`. The pattern is a parameter fixed by `requires`, so that the
      parser unfolds on it one level at a time rather than all at once on a literal. */
  lemma TwoStarredGroupsAt(s: string, ops: seq<ThompsonOp>)
    requires s == "12(ab)*|(c#)*"
    requires ops == [Primary('1')] + [Primary('2')] + [Concat]
                    + ([Primary('a'), Primary('b'), Concat, Asterisk] + [Primary('c'), Primary('#'), Concat, Asterisk] + [Or])
                    + [Concat]
    ensures ToThompsonPostfix(s) == Ok(ops)
  {
    var one, two := Primary('1'), Primary('2');
    var abs := [Primary('a'), Primary('b'), Concat, Asterisk];
    var chs := [Primary('c'), Primary('#'), Concat, Asterisk];
    var s1, s2, s7, s8 := s[1..], s[2..], s[7..], s[8..];
    var t12 := [one] + [two] + [Concat];
    LeadingPair(s);
    assert PostfixOr(s8) == Ok(Parsed(chs, [])) by {
      assert s8 == "(c#)*" && s8[5..] == [];
      StarredPairGroup(s8);
      NoOrStep(s8, Parsed(chs, []));
    }
    assert PostfixOr(s2) == Ok(Parsed(abs + chs + [Or], [])) by {
      assert s2 == "(ab)*|(c#)*" && s2[5..] == s7 && s7 == "|(c#)*" && s7[1..] == s8;
      StarredPairGroup(s2);
      OrStep(s2, Parsed(abs, s7), Parsed(chs, []));
    }
    assert ConcatRest(t12, s2) == Ok(Parsed(ops, [])) by {
      ConcatStep(t12, s2, Parsed(abs + chs + [Or], []));
      ConcatStop(ops, []);
    }
    Top(s, Parsed(ops, []));
  }

  /** Two plain characters closed by `)`: the body of a two-character group. */
  lemma PairChain(t: string)
    requires |t| >= 3 && Plain(t[0]) && Plain(t[1]) && t[2] == ')'
    ensures PostfixConcat(t) == Ok(Parsed([Primary(t[0]), Primary(t[1]), Concat], t[2..]))
  {
    var px, py := Primary(t[0]), Primary(t[1]);
    var t1 := t[1..];
    var pxy := [px] + [py] + [Concat];
    assert pxy == [px, py, Concat];
    assert PostfixConcat(t) == ConcatRest([px], t1) by {
      UnitStep(t);
      ConcatStart(t, Parsed([px], t1));
    }
    assert ConcatRest([px], t1) == ConcatRest(pxy, t[2..]) by {
      assert t1[0] == t[1] && t1[1] == ')' && t1[1..] == t[2..];
      UnitStep(t1);
      ConcatStep([px], t1, Parsed([py], t[2..]));
    }
    assert ConcatRest(pxy, t[2..]) == Ok(Parsed(pxy, t[2..])) by {
      ConcatStop(pxy, t[2..]);
    }
  }

  /** `(xy)*` for plain `x` and `y`, with what follows it. */
  lemma StarredPairGroup(s: string)
    requires |s| >= 5 && s[0] == '(' && Plain(s[1]) && Plain(s[2]) && s[3] == ')' && s[4] == '*'
    ensures PostfixAsterisk(s) == Ok(Parsed([Primary(s[1]), Primary(s[2]), Concat, Asterisk], s[5..]))
  {
    var pxy := [Primary(s[1]), Primary(s[2]), Concat];
    assert pxy + [Asterisk] == [Primary(s[1]), Primary(s[2]), Concat, Asterisk];
    assert PostfixPrimary(s) == Ok(Parsed(pxy, s[4..])) by {
      var inner := s[1..];
      assert inner[0] == s[1] && inner[1] == s[2] && inner[2] == ')' && inner[2..][1..] == s[4..];
      PairChain(inner);
      GroupStep(s, Parsed(pxy, inner[2..]));
    }
    assert s[4..][0] == '*' && s[4..][1..] == s[5..];
    StarStep(s, Parsed(pxy, s[4..]));
  }
}
