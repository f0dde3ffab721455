/** Round trip and token conservation of the expression parser. */
module ExprProofs {
  import opened Decimal
  import opened ExprSyntax

  /** Where the induction on a tree stands: first outward to the parentheses, then inward to its level. */
  ghost function Stage(e: Expr, level: nat): nat
    requires level <= 9
  {
    if level <= Level(e) then Level(e) - level else 20 - level
  }

  lemma OperatorReadsBack(op: BinaryOp, ts: seq<Token>)
    ensures OperatorAt(LevelOf(op), OpTokens(op) + ts) == Op(op, |OpTokens(op)|)
    ensures Quiet(LevelOf(op) + 1, OpTokens(op) + ts)
    ensures (OpTokens(op) + ts)[|OpTokens(op)|..] == ts
  {}

  lemma NullTestReadsBack(negated: bool, e: Expr, ts: seq<Token>)
    requires !StartsMembership(ts)
    ensures Quiet(4, NullTokens(negated) + ts)
    ensures NullSuffix(e, NullTokens(negated) + ts) == Ok(NullTest(negated, e), ts)
  {
    var all := NullTokens(negated) + ts;
    assert all[if negated then 3 else 2..] == ts;
  }

  lemma LeafReadsBack(e: Expr, ts: seq<Token>)
    requires (e.Literal? || e.Column?) && Representable(e) && Stops(9, e, ts)
    ensures ParseAt(9, Render(9, e) + ts) == Ok(e, ts)
  {
    hide ParseAt, LiteralOf, ValueToken, StopsLoops, EndsInNullTest;
    var all := Render(9, e) + ts;
    match e
    case Literal(v) =>
      ValueReadsBack(v);
      assert Bare(e) == [ValueToken(v)];
      assert all == [ValueToken(v)] + ts;
      ParseAtLiteral(all);
    case Column(t, c) =>
      ColumnReadsBack(t, c, ts);
  }

  lemma ValueReadsBack(v: Value)
    requires v.IntValue? ==> v.n <= INT_MAX
    ensures LiteralOf(ValueToken(v)) == Ok(Literal(v), [])
    ensures !ValueToken(v).Identifier? && ValueToken(v) != LParen
  {
    if v.IntValue? {
      DecimalRoundTrip(v.n);
    }
  }

  lemma ColumnReadsBack(t: string, c: Name, ts: seq<Token>)
    requires t == "" ==> ts == [] || ts[0] != Dot
    ensures ParseAt(9, ColumnTokens(t, c) + ts) == Ok(Column(t, c), ts)
  {
    hide ParseAt;
    var all := ColumnTokens(t, c) + ts;
    assert all[|ColumnTokens(t, c)|..] == ts;
    ParseAtColumn(all);
  }

  /** What an expression can start with. */
  lemma {:induction false} HeadOfBare(e: Expr)
    ensures Bare(e) != [] && Bare(e)[0] != Select
    ensures Level(e) == 9 ==> !StartsUnary(Bare(e))
  {
    match e
    case NullTest(_, x) => HeadOfBare(x);
    case Binary(_, a, _) => HeadOfBare(a);
    case _ =>
  }

  // ---------- One step of each definition ----------

  lemma ParseAtBinary(level: nat, ts: seq<Token>)
    requires 1 <= level <= 7 && level != 3
    ensures var r := ParseAt(level + 1, ts);
      ParseAt(level, ts) == if r.Ok? then Chain(level, r.expr, r.rest) else Error
  {}

  lemma ParseAtNullTest(ts: seq<Token>)
    ensures var r := ParseAt(4, ts);
      ParseAt(3, ts) == if r.Ok? then NullSuffix(r.expr, r.rest) else Error
  {}

  lemma ParseAtUnary(ts: seq<Token>)
    ensures !StartsUnary(ts) ==> ParseAt(8, ts) == ParseAt(9, ts)
    ensures StartsUnary(ts) ==> var r := ParseAt(8, ts[1..]);
      ParseAt(8, ts) == if r.Ok? then Ok(Unary(UnaryAt(ts), r.expr), r.rest) else Error
  {}

  lemma ParseAtParenthesis(ts: seq<Token>)
    requires ts != [] && ts[0] == LParen
    ensures var r := ParseAt(1, ts[1..]);
      ParseAt(9, ts) ==
        if |ts| > 1 && ts[1] != Select && r.Ok? && r.rest != [] && r.rest[0] == RParen
        then Ok(r.expr, r.rest[1..]) else Error
  {}

  lemma ParseAtColumn(ts: seq<Token>)
    requires ts != [] && ts[0].Identifier?
    ensures ParseAt(9, ts) ==
      if |ts| == 1 || ts[1] != Dot then Ok(Column("", ts[0].name), ts[1..])
      else if |ts| > 2 && ts[2].Identifier? then Ok(Column(ts[0].name, ts[2].name), ts[3..])
      else Error
  {}

  lemma ParseAtLiteral(ts: seq<Token>)
    requires ts == [] || !(ts[0].Identifier? || ts[0] == LParen)
    ensures ParseAt(9, ts) ==
      if ts != [] && LiteralOf(ts[0]).Ok? then Ok(LiteralOf(ts[0]).expr, ts[1..]) else Error
  {}

  lemma ChainUnfolds(level: nat, left: Expr, ts: seq<Token>)
    requires 1 <= level <= 7
    ensures OperatorAt(level, ts).NoOp? ==> Chain(level, left, ts) == Ok(left, ts)
    ensures OperatorAt(level, ts).Broken? ==> Chain(level, left, ts) == Error
    ensures OperatorAt(level, ts).Op? ==>
      var o := OperatorAt(level, ts);
      var r := ParseAt(level + 1, ts[o.width..]);
      Chain(level, left, ts) == if r.Ok? then Chain(level, Binary(o.op, left, r.expr), r.rest) else Error
  {}

  lemma RenderBinary(e: Expr)
    requires e.Binary?
    ensures Render(Level(e), e) == Render(Level(e), e.left) + OpTokens(e.bop) + Render(Level(e) + 1, e.right)
    ensures Level(e) == LevelOf(e.bop) <= 7 && Level(e) != 3
  {}

  lemma RenderAtNextLevel(level: nat, e: Expr)
    requires Level(e) != level
    ensures Render(level, e) == Render(level + 1, e)
  {}

  // ---------- Round trip ----------

  lemma ParenthesesReadBack(e: Expr, ts: seq<Token>)
    requires Level(e) < 9
    requires ParseAt(1, Render(1, e) + ([RParen] + ts)) == Ok(e, [RParen] + ts)
    ensures ParseAt(9, Render(9, e) + ts) == Ok(e, ts)
  {
    hide Bare, ParseAt;
    HeadOfBare(e);
    var inner := Bare(e) + ([RParen] + ts);
    var all := Render(9, e) + ts;
    assert all == [LParen] + inner;
    assert all[1..] == inner;
    assert inner[0] == Bare(e)[0];
    assert ([RParen] + ts)[1..] == ts;
    ParseAtParenthesis(all);
  }

  /** A null test inside an expression of a level above it is in parentheses. */
  lemma {:induction false} NoNullTestAbove(level: nat, e: Expr)
    requires level >= 4
    ensures !EndsInNullTest(level, e)
    decreases e
  {
    if e.Binary? && level <= Level(e) {
      NoNullTestAbove(LevelOf(e.bop) + 1, e.right);
    }
  }

  lemma QuietStopsAll(level: nat, e: Expr, ts: seq<Token>)
    requires Quiet(level, ts)
    ensures Stops(level, e, ts)
  {
    if EndsInNullTest(level, e) && level >= 4 {
      NoNullTestAbove(level, e);
    }
  }

  /** What the loop of a binary level asks of the tokens after its last operand. */
  predicate OperandStops(level: nat, e: Expr, ts: seq<Token>) {
    if Level(e) == level && e.Binary? then Stops(level + 1, e.right, ts) else Stops(level + 1, e, ts)
  }

  lemma StopsAtLoop(level: nat, e: Expr, ts: seq<Token>)
    requires 1 <= level <= 7 && level != 3 && Stops(level, e, ts)
    ensures OperatorAt(level, ts) == NoOp && OperandStops(level, e, ts)
  {
    hide OperatorAt;
    var operand := if Level(e) == level && e.Binary? then e.right else e;
    assert EndsInNullTest(level + 1, operand) == EndsInNullTest(level, e);
    assert EndsInBareColumn(level + 1, operand) == EndsInBareColumn(level, e);
    if level >= 4 {
      NoNullTestAbove(level, e);
    }
    assert OperatorAt(level, ts) == NoOp;
  }

  lemma StopsAtNullTest(e: Expr, ts: seq<Token>)
    requires Stops(3, e, ts)
    ensures !StartsMembership(ts)
    ensures !e.NullTest? ==> Stops(4, e, ts) && (ts == [] || ts[0] != Is)
  {
    hide OperatorAt, StartsMembership;
    NoNullTestAbove(4, e);
    if e.Binary? && Level(e) > 3 {
      NoNullTestAbove(LevelOf(e.bop) + 1, e.right);
    }
  }

  lemma StopsAtUnary(e: Expr, ts: seq<Token>)
    requires Stops(8, e, ts)
    ensures if e.Unary? then Stops(8, e.arg, ts) else Stops(9, e, ts)
  {
    NoNullTestAbove(8, e);
    NoNullTestAbove(9, e);
    if e.Unary? {
      NoNullTestAbove(8, e.arg);
    }
  }

  /** The left-associative loop: parsing `e` at its own level leaves the loop with `e` as the left operand. */
  lemma {:induction false} ChainReadsBack(e: Expr, level: nat, ts: seq<Token>)
    requires Representable(e) && 1 <= level <= 7 && level != 3 && OperandStops(level, e, ts)
    ensures ParseAt(level, Render(level, e) + ts) == Chain(level, e, ts)
    decreases e, Stage(e, level), 0
  {
    hide Quiet, Stops, OperatorAt, OpTokens, ParseAt, Chain, Render, Bare;
    if Level(e) == level {
      var tail := Render(level + 1, e.right) + ts;
      var more := OpTokens(e.bop) + tail;
      RenderBinary(e);
      OperatorReadsBack(e.bop, tail);
      QuietStopsAll(level + 1, e.left, more);
      QuietStopsAll(level + 1, if e.left.Binary? then e.left.right else e.left, more);
      ChainReadsBack(e.left, level, more);
      RoundTrip(e.right, level + 1, ts);
      assert Render(level, e) + ts == Render(level, e.left) + more;
      ChainUnfolds(level, e.left, more);
    } else {
      RenderAtNextLevel(level, e);
      RoundTrip(e, level + 1, ts);
      ParseAtBinary(level, Render(level, e) + ts);
    }
  }

  lemma ClosingIsQuiet(ts: seq<Token>)
    ensures Quiet(1, [RParen] + ts)
  {}

  /** Expression round trip: every representable tree, rendered with parentheses only where the
      level demands them, parses back to itself and leaves a suffix that does not continue it. */
  lemma {:induction false} RoundTrip(e: Expr, level: nat, ts: seq<Token>)
    requires Representable(e) && 1 <= level <= 9 && Stops(level, e, ts)
    ensures ParseAt(level, Render(level, e) + ts) == Ok(e, ts)
    decreases e, Stage(e, level), 1
  {
    hide Quiet, Stops, OperandStops, OperatorAt, OpTokens, ParseAt, Chain, Render, Bare, StartsMembership;
    if level == 9 {
      if Level(e) == 9 {
        LeafReadsBack(e, ts);
      } else {
        ClosingIsQuiet(ts);
        QuietStopsAll(1, e, [RParen] + ts);
        RoundTrip(e, 1, [RParen] + ts);
        ParenthesesReadBack(e, ts);
      }
    } else if level == 8 {
      UnaryReadsBack(e, ts);
    } else if level == 3 {
      NullTestLevelReadsBack(e, ts);
    } else {
      StopsAtLoop(level, e, ts);
      ChainReadsBack(e, level, ts);
      ChainUnfolds(level, e, ts);
    }
  }

  lemma {:induction false} NullTestLevelReadsBack(e: Expr, ts: seq<Token>)
    requires Representable(e) && Stops(3, e, ts)
    ensures ParseAt(3, Render(3, e) + ts) == Ok(e, ts)
    decreases e, Stage(e, 3), 0
  {
    hide Quiet, Stops, ParseAt, Render, StartsMembership, NullTokens, NullSuffix;
    StopsAtNullTest(e, ts);
    ParseAtNullTest(Render(3, e) + ts);
    if e.NullTest? {
      NullTestReadsBack(e.negated, e.arg, ts);
      QuietStopsAll(4, e.arg, NullTokens(e.negated) + ts);
      RoundTrip(e.arg, 4, NullTokens(e.negated) + ts);
      RenderNullTest(e);
      assert Render(3, e) + ts == Render(4, e.arg) + (NullTokens(e.negated) + ts);
    } else {
      NoNullSuffix(e, ts);
      RenderAtNextLevel(3, e);
      RoundTrip(e, 4, ts);
    }
  }

  lemma NoNullSuffix(e: Expr, ts: seq<Token>)
    requires !StartsMembership(ts) && (ts == [] || ts[0] != Is)
    ensures NullSuffix(e, ts) == Ok(e, ts)
  {}

  lemma RenderNullTest(e: Expr)
    requires e.NullTest?
    ensures Render(3, e) == Render(4, e.arg) + NullTokens(e.negated)
  {}

  lemma RenderUnary(e: Expr)
    requires e.Unary?
    ensures Render(8, e) == [UnaryToken(e.op)] + Render(8, e.arg)
  {}

  lemma RenderHead(e: Expr)
    requires !e.Unary?
    ensures Render(8, e) != [] && !StartsUnary(Render(8, e))
  {
    HeadOfBare(e);
  }

  lemma {:induction false} UnaryReadsBack(e: Expr, ts: seq<Token>)
    requires Representable(e) && Stops(8, e, ts)
    ensures ParseAt(8, Render(8, e) + ts) == Ok(e, ts)
    decreases e, Stage(e, 8), 0
  {
    hide Stops, ParseAt, Render;
    StopsAtUnary(e, ts);
    var all := Render(8, e) + ts;
    ParseAtUnary(all);
    if e.Unary? {
      RoundTrip(e.arg, 8, ts);
      RenderUnary(e);
      assert all == [UnaryToken(e.op)] + (Render(8, e.arg) + ts);
      assert all[1..] == Render(8, e.arg) + ts;
    } else {
      RenderAtNextLevel(8, e);
      RoundTrip(e, 9, ts);
      RenderHead(e);
      assert all[0] == Render(8, e)[0];
    }
  }

  // ---------- Token conservation ----------

  /** The canonical token of a literal; other tokens are their own. */
  function Canonical(t: Token): Token {
    match LiteralOf(t)
    case Ok(e, _) => if e.Literal? then ValueToken(e.value) else t
    case Error => t
  }

  function StripToken(t: Token): seq<Token> {
    if t == LParen || t == RParen then [] else [Canonical(t)]
  }

  /** The tokens without parentheses, literals in canonical form. */
  function Strip(ts: seq<Token>): seq<Token> {
    if ts == [] then [] else StripToken(ts[0]) + Strip(ts[1..])
  }

  lemma StripHead(ts: seq<Token>)
    requires ts != []
    ensures Strip(ts) == StripToken(ts[0]) + Strip(ts[1..])
  {}

  lemma StripEmpty()
    ensures Strip([]) == []
  {}

  lemma PlainToken(t: Token)
    requires LiteralOf(t).Error? && t != LParen && t != RParen
    ensures StripToken(t) == [t]
  {}

  /** The tokens of a tree in order, without parentheses. */
  function Yield(e: Expr): seq<Token> {
    match e
    case Literal(v) => [ValueToken(v)]
    case Column(t, c) => ColumnTokens(t, c)
    case Unary(op, x) => [UnaryToken(op)] + Yield(x)
    case NullTest(negated, x) => Yield(x) + NullTokens(negated)
    case Binary(op, a, b) => Yield(a) + OpTokens(op) + Yield(b)
  }

  lemma {:induction false} StripConcat(a: seq<Token>, b: seq<Token>)
    ensures Strip(a + b) == Strip(a) + Strip(b)
  {
    hide StripToken, Strip;
    if a == [] {
      assert a + b == b;
      StripEmpty();
    } else {
      StripConcat(a[1..], b);
      StripHead(a);
      StripHead(a + b);
      assert (a + b)[1..] == a[1..] + b;
    }
  }

  predicate IsSuffix(rest: seq<Token>, ts: seq<Token>) {
    |rest| <= |ts| && rest == ts[|ts| - |rest|..]
  }

  lemma SuffixChain(a: seq<Token>, b: seq<Token>, c: seq<Token>)
    requires IsSuffix(a, b) && IsSuffix(b, c)
    ensures IsSuffix(a, c)
  {}

  /** After `pre`, the tokens `ts` spell `e` and then `rest`. */
  ghost predicate Spells(pre: seq<Token>, ts: seq<Token>, e: Expr, rest: seq<Token>) {
    IsSuffix(rest, ts) && Representable(e) && pre + Strip(ts) == Yield(e) + Strip(rest)
  }

  lemma OperatorIsRead(level: nat, ts: seq<Token>)
    requires OperatorAt(level, ts).Op?
    ensures
      var o := OperatorAt(level, ts);
      IsSuffix(ts[o.width..], ts) && Strip(ts) == OpTokens(o.op) + Strip(ts[o.width..])
  {
    hide Strip, StripToken;
    var o := OperatorAt(level, ts);
    StripHead(ts);
    PlainToken(ts[0]);
    if o.width == 2 {
      StripHead(ts[1..]);
      PlainToken(ts[1]);
      assert ts[1..][1..] == ts[2..];
    }
  }

  lemma {:induction false} ChainSpells(level: nat, left: Expr, ts: seq<Token>)
    requires 1 <= level <= 7 && Chain(level, left, ts).Ok? && Representable(left)
    ensures Spells(Yield(left), ts, Chain(level, left, ts).expr, Chain(level, left, ts).rest)
    decreases |ts|, 10 - level, 6
  {
    hide OpTokens, Strip, OperatorAt, ParseAt, Chain, IsSuffix, Yield;
    ChainUnfolds(level, left, ts);
    var o := OperatorAt(level, ts);
    if o.NoOp? {
      SuffixSelf(ts);
    } else {
      var after := ts[o.width..];
      var r := ParseAt(level + 1, after);
      OperatorIsRead(level, ts);
      ParseSpells(level + 1, after);
      var e := Binary(o.op, left, r.expr);
      ChainSpells(level, e, r.rest);
      SuffixChain(r.rest, after, ts);
      SuffixChain(Chain(level, e, r.rest).rest, r.rest, ts);
      YieldBinary(o.op, left, r.expr, Strip(r.rest));
    }
  }

  lemma YieldBinary(op: BinaryOp, a: Expr, b: Expr, ts: seq<Token>)
    ensures Yield(a) + (OpTokens(op) + ([] + (Yield(b) + ts))) == Yield(Binary(op, a, b)) + ts
    ensures Yield(a) + (OpTokens(op) + (Yield(b) + ts)) == Yield(Binary(op, a, b)) + ts
  {
    var e := Binary(op, a, b);
    assert Yield(e) == Yield(a) + OpTokens(op) + Yield(b);
    Regroup(Yield(a), OpTokens(op), Yield(b), ts);
  }

  lemma Regroup(a: seq<Token>, b: seq<Token>, c: seq<Token>, d: seq<Token>)
    ensures a + (b + ([] + (c + d))) == a + b + c + d && a + (b + (c + d)) == a + b + c + d
  {}

  lemma SuffixSelf(ts: seq<Token>)
    ensures IsSuffix(ts, ts)
    ensures ts != [] ==> IsSuffix(ts[1..], ts)
  {}

  lemma NullSuffixTokens(e: Expr, ts: seq<Token>)
    requires NullSuffix(e, ts).Ok?
    ensures var r := NullSuffix(e, ts);
      || r == Ok(e, ts)
      || (r.expr.NullTest? && r.expr.arg == e && ts == NullTokens(r.expr.negated) + r.rest)
  {
    hide StartsMembership;
    var r := NullSuffix(e, ts);
    if r != Ok(e, ts) {
      var words := NullTokens(r.expr.negated);
      assert ts == ts[..|words|] + ts[|words|..];
      assert ts[..|words|] == words;
    }
  }

  lemma NullSuffixSpells(e: Expr, ts: seq<Token>)
    requires NullSuffix(e, ts).Ok? && Representable(e)
    ensures Spells(Yield(e), ts, NullSuffix(e, ts).expr, NullSuffix(e, ts).rest)
  {
    hide Strip, NullSuffix, NullTokens;
    var r := NullSuffix(e, ts);
    NullSuffixTokens(e, ts);
    if r != Ok(e, ts) {
      var words := NullTokens(r.expr.negated);
      StripConcat(words, r.rest);
      StripKeepsNullTokens(r.expr.negated);
      assert Yield(e) + (words + Strip(r.rest)) == (Yield(e) + words) + Strip(r.rest);
    }
  }

  lemma StripKeepsNullTokens(negated: bool)
    ensures Strip(NullTokens(negated)) == NullTokens(negated)
  {
    assert [Is, Not, Null][1..] == [Not, Null] && [Not, Null][1..] == [Null] && [Is, Null][1..] == [Null];
    assert Strip([Null]) == [Null];
  }

  lemma ColumnSpells(ts: seq<Token>)
    requires ts != [] && ts[0].Identifier? && ParseAt(9, ts).Ok?
    ensures Spells([], ts, ParseAt(9, ts).expr, ParseAt(9, ts).rest)
  {
    hide ParseAt, Strip, StripToken, LiteralOf;
    ParseAtColumn(ts);
    StripHead(ts);
    LeafToken(ts[0]);
    if |ts| > 1 && ts[1] == Dot {
      StripHead(ts[1..]);
      StripHead(ts[2..]);
      DotToken();
      LeafToken(ts[2]);
      assert ts[1..][1..] == ts[2..] && ts[2..][1..] == ts[3..];
      assert [ts[0]] + ([Dot] + ([ts[2]] + Strip(ts[3..]))) == [ts[0], Dot, ts[2]] + Strip(ts[3..]);
    }
  }

  lemma DotToken()
    ensures StripToken(Dot) == [Dot]
  {}

  lemma LiteralSpells(ts: seq<Token>)
    requires ts == [] || !(ts[0].Identifier? || ts[0] == LParen)
    requires ParseAt(9, ts).Ok?
    ensures Spells([], ts, ParseAt(9, ts).expr, ParseAt(9, ts).rest)
  {
    hide ParseAt, Strip, StripToken, LiteralOf;
    ParseAtLiteral(ts);
    StripHead(ts);
    LeafToken(ts[0]);
  }

  lemma LeafToken(t: Token)
    ensures t.Identifier? ==> StripToken(t) == [t]
    ensures LiteralOf(t).Ok? ==>
      LiteralOf(t).expr.Literal? && Representable(LiteralOf(t).expr) && StripToken(t) == [ValueToken(LiteralOf(t).expr.value)]
  {}

  lemma {:induction false} ParseSpells(level: nat, ts: seq<Token>)
    requires 1 <= level <= 9 && ParseAt(level, ts).Ok?
    ensures Spells([], ts, ParseAt(level, ts).expr, ParseAt(level, ts).rest)
    decreases |ts|, 10 - level, 5
  {
    hide Strip, OperatorAt, LiteralOf, ParseAt, Chain, IsSuffix, NullSuffix;
    var r := ParseAt(level, ts);
    if level == 9 {
      PrimarySpells(ts);
    } else if level == 8 {
      UnarySpells(ts);
    } else if level == 3 {
      ParseAtNullTest(ts);
      var inner := ParseAt(4, ts);
      ParseSpells(4, ts);
      NullSuffixSpells(inner.expr, inner.rest);
      SuffixChain(r.rest, inner.rest, ts);
    } else {
      ParseAtBinary(level, ts);
      var inner := ParseAt(level + 1, ts);
      ParseSpells(level + 1, ts);
      ChainSpells(level, inner.expr, inner.rest);
      SuffixChain(r.rest, inner.rest, ts);
    }
  }

  lemma {:induction false} UnarySpells(ts: seq<Token>)
    requires ParseAt(8, ts).Ok?
    ensures Spells([], ts, ParseAt(8, ts).expr, ParseAt(8, ts).rest)
    decreases |ts|, 2, 4
  {
    hide OperatorAt, ParseAt, IsSuffix, Strip, StripToken;
    ParseAtUnary(ts);
    if StartsUnary(ts) {
      StripHead(ts);
      PlainToken(ts[0]);
      ParseSpells(8, ts[1..]);
      SuffixSelf(ts);
      SuffixChain(ParseAt(8, ts).rest, ts[1..], ts);
      var r := ParseAt(8, ts[1..]);
      assert UnaryToken(UnaryAt(ts)) == ts[0];
      assert [ts[0]] + (Yield(r.expr) + Strip(r.rest)) == ([ts[0]] + Yield(r.expr)) + Strip(r.rest);
    } else {
      ParseSpells(9, ts);
    }
  }

  lemma {:induction false} PrimarySpells(ts: seq<Token>)
    requires ParseAt(9, ts).Ok?
    ensures Spells([], ts, ParseAt(9, ts).expr, ParseAt(9, ts).rest)
    decreases |ts|, 1, 4
  {
    hide ParseAt, IsSuffix;
    if ts != [] && ts[0] == LParen {
      ParenthesisSpells(ts);
    } else if ts != [] && ts[0].Identifier? {
      ColumnSpells(ts);
    } else {
      LiteralSpells(ts);
    }
  }

  lemma {:induction false} ParenthesisSpells(ts: seq<Token>)
    requires ts != [] && ts[0] == LParen && ParseAt(9, ts).Ok?
    ensures Spells([], ts, ParseAt(9, ts).expr, ParseAt(9, ts).rest)
    decreases |ts|, 1, 3
  {
    hide ParseAt, IsSuffix, Strip;
    ParseAtParenthesis(ts);
    var inner := ParseAt(1, ts[1..]);
    StripHead(ts);
    StripHead(inner.rest);
    ParseSpells(1, ts[1..]);
    SuffixSelf(ts);
    SuffixSelf(inner.rest);
    SuffixChain(inner.rest, ts[1..], ts);
    SuffixChain(inner.rest[1..], inner.rest, ts);
  }

  /** Token conservation: the tokens an accepted expression consumed are, without their
      parentheses, exactly the in-order tokens of the tree, and the rest is left as it was. */
  lemma ParseConserves(level: nat, ts: seq<Token>)
    requires 1 <= level <= 9 && ParseAt(level, ts).Ok?
    ensures
      var r := ParseAt(level, ts);
      var consumed := ts[..|ts| - |r.rest|];
      ts == consumed + r.rest && Strip(consumed) == Yield(r.expr) && Representable(r.expr)
  {
    hide ParseAt, Strip;
    var r := ParseAt(level, ts);
    var consumed := ts[..|ts| - |r.rest|];
    ParseSpells(level, ts);
    assert ts == consumed + r.rest;
    StripConcat(consumed, r.rest);
    CancelSuffix(Strip(consumed), Yield(r.expr), Strip(r.rest));
  }

  lemma CancelSuffix(a: seq<Token>, b: seq<Token>, c: seq<Token>)
    requires a + c == b + c
    ensures a == b
  {
    assert |a| == |b|;
    assert a == (a + c)[..|a|] && b == (b + c)[..|b|];
  }

  /** Whatever is accepted can be rendered and read again as the same tree. */
  lemma AcceptedRoundTrip(level: nat, ts: seq<Token>)
    requires 1 <= level <= 9 && ParseAt(level, ts).Ok?
    ensures ParseAt(level, Render(level, ParseAt(level, ts).expr)) == Ok(ParseAt(level, ts).expr, [])
  {
    hide ParseAt, Render;
    var e := ParseAt(level, ts).expr;
    ParseConserves(level, ts);
    QuietStopsAll(level, e, []);
    RoundTrip(e, level, []);
    assert Render(level, e) + [] == Render(level, e);
  }

  // ---------- The suffix condition is exact ----------

  lemma OperatorHasLevel(level: nat, ts: seq<Token>)
    requires OperatorAt(level, ts).Op?
    ensures LevelOf(OperatorAt(level, ts).op) == level
  {}

  lemma LoopEnds(level: nat, nullTest: bool, ts: seq<Token>)
    requires 1 <= level <= 7 && level != 3 && StopsLoops(level + 1, nullTest, ts) && OperatorAt(level, ts) == NoOp
    ensures StopsLoops(level, nullTest, ts)
  {
    hide OperatorAt, StartsMembership;
  }

  /** The first operand of a loop, which may be in parentheses. */
  lemma FirstOperandStops(level: nat, e: Expr, ts: seq<Token>)
    requires 1 <= level <= 7 && level != 3 && StopsLoops(level + 1, EndsInNullTest(level + 1, e), ts)
    ensures StopsLoops(level + 1, EndsInNullTest(level, e), ts)
  {
    hide OperatorAt, StartsMembership;
    if level >= 4 {
      NoNullTestAbove(level, e);
    }
  }

  lemma {:induction false} ChainIsGreedy(level: nat, left: Expr, ts: seq<Token>)
    requires 1 <= level <= 7 && level != 3 && Chain(level, left, ts).Ok?
    requires StopsLoops(level + 1, EndsInNullTest(level, left), ts)
    ensures var r := Chain(level, left, ts); StopsLoops(level, EndsInNullTest(level, r.expr), r.rest)
    decreases |ts|, 10 - level, 1
  {
    hide OperatorAt, ParseAt, Chain, StopsLoops;
    ChainUnfolds(level, left, ts);
    var o := OperatorAt(level, ts);
    if o.NoOp? {
      LoopEnds(level, EndsInNullTest(level, left), ts);
    } else {
      OperatorHasLevel(level, ts);
      var r := ParseAt(level + 1, ts[o.width..]);
      ParseIsGreedy(level + 1, ts[o.width..]);
      ChainIsGreedy(level, Binary(o.op, left, r.expr), r.rest);
    }
  }

  lemma NullSuffixIsGreedy(e: Expr, ts: seq<Token>)
    requires NullSuffix(e, ts).Ok? && StopsLoops(4, EndsInNullTest(4, e), ts)
    ensures var r := NullSuffix(e, ts); StopsLoops(3, EndsInNullTest(3, r.expr), r.rest)
  {
    hide OperatorAt, StartsMembership;
    NoNullTestAbove(4, e);
    assert OperatorAt(3, ts) == NoOp by {
      NoOperatorAtThree(ts);
    }
  }

  lemma NoOperatorAtThree(ts: seq<Token>)
    ensures OperatorAt(3, ts) == NoOp
  {}

  /** The parser is greedy: what it leaves starts with nothing that its loops could have taken. */
  lemma {:induction false} ParseIsGreedy(level: nat, ts: seq<Token>)
    requires 1 <= level <= 9 && ParseAt(level, ts).Ok?
    ensures var r := ParseAt(level, ts); StopsLoops(level, EndsInNullTest(level, r.expr), r.rest)
    decreases |ts|, 10 - level, 0
  {
    hide OperatorAt, ParseAt, Chain, StopsLoops, NullSuffix, EndsInNullTest;
    if level >= 8 {
      NoNullTestAbove(level, ParseAt(level, ts).expr);
      AboveLoops(level, ParseAt(level, ts).rest);
    } else {
      var inner := ParseAt(level + 1, ts);
      if level == 3 {
        ParseAtNullTest(ts);
        ParseIsGreedy(4, ts);
        NullSuffixIsGreedy(inner.expr, inner.rest);
      } else {
        ParseAtBinary(level, ts);
        ParseIsGreedy(level + 1, ts);
        FirstOperandStops(level, inner.expr, inner.rest);
        ChainIsGreedy(level, inner.expr, inner.rest);
      }
    }
  }

  lemma AboveLoops(level: nat, ts: seq<Token>)
    requires level >= 8
    ensures StopsLoops(level, false, ts)
  {}

  /** The first `n` tokens end in an identifier with no dot before it. */
  predicate EndsInName(ts: seq<Token>, n: nat)
    requires n <= |ts|
  {
    n >= 1 && ts[n - 1].Identifier? && (n == 1 || ts[n - 2] != Dot)
  }

  /** A dot is left only after something other than a bare name. */
  ghost predicate DotIsTaken(ts: seq<Token>, rest: seq<Token>) {
    IsSuffix(rest, ts) && (rest != [] && rest[0] == Dot ==> !EndsInName(ts, |ts| - |rest|))
  }

  /** What holds of the tokens from `mid` on holds of all, when some of them are consumed. */
  lemma DotInTail(ts: seq<Token>, mid: seq<Token>, rest: seq<Token>)
    requires IsSuffix(mid, ts) && |rest| < |mid| && DotIsTaken(mid, rest)
    ensures DotIsTaken(ts, rest)
  {
    var k := |ts| - |mid|;
    assert forall i :: 0 <= i < |mid| ==> mid[i] == ts[k + i];
  }

  lemma NameIsGreedy(ts: seq<Token>)
    requires ts != [] && ts[0].Identifier? && ParseAt(9, ts).Ok?
    ensures DotIsTaken(ts, ParseAt(9, ts).rest)
  {
    hide ParseAt;
    ParseAtColumn(ts);
  }

  /** The last token consumed is not a name. */
  lemma OtherEndTakesDot(ts: seq<Token>, rest: seq<Token>)
    requires IsSuffix(rest, ts) && |rest| < |ts| && !ts[|ts| - |rest| - 1].Identifier?
    ensures DotIsTaken(ts, rest)
  {}

  lemma {:induction false} ChainTakesDot(level: nat, left: Expr, ts: seq<Token>)
    requires 1 <= level <= 7 && Chain(level, left, ts).Ok?
    ensures var rest := Chain(level, left, ts).rest; rest == ts || (|rest| < |ts| && DotIsTaken(ts, rest))
    decreases |ts|, 10 - level, 1
  {
    hide OperatorAt, ParseAt, Chain, DotIsTaken;
    ChainUnfolds(level, left, ts);
    var o := OperatorAt(level, ts);
    if o.Op? {
      var after := ts[o.width..];
      var r := ParseAt(level + 1, after);
      ParseTakesDot(level + 1, after);
      DotInTail(ts, after, r.rest);
      ChainTakesDot(level, Binary(o.op, left, r.expr), r.rest);
      var rest := Chain(level, left, ts).rest;
      if rest != r.rest {
        DotSuffix(ts, r.rest);
        DotInTail(ts, r.rest, rest);
      }
    }
  }

  lemma DotSuffix(ts: seq<Token>, rest: seq<Token>)
    requires DotIsTaken(ts, rest)
    ensures IsSuffix(rest, ts)
  {}

  lemma NullSuffixTakesDot(e: Expr, ts: seq<Token>)
    requires NullSuffix(e, ts).Ok?
    ensures var rest := NullSuffix(e, ts).rest; rest == ts || (|rest| < |ts| && DotIsTaken(ts, rest))
  {
    hide StartsMembership;
    var rest := NullSuffix(e, ts).rest;
    if rest != ts {
      assert ts[|ts| - |rest| - 1] == Null;
      OtherEndTakesDot(ts, rest);
    }
  }

  lemma {:induction false} ParseTakesDot(level: nat, ts: seq<Token>)
    requires 1 <= level <= 9 && ParseAt(level, ts).Ok?
    ensures DotIsTaken(ts, ParseAt(level, ts).rest)
    decreases |ts|, 10 - level, 0
  {
    hide OperatorAt, ParseAt, Chain, NullSuffix, DotIsTaken, LiteralOf;
    var r := ParseAt(level, ts);
    if level == 9 {
      PrimaryTakesDot(ts);
    } else if level == 8 {
      ParseAtUnary(ts);
      if StartsUnary(ts) {
        ParseTakesDot(8, ts[1..]);
        DotInTail(ts, ts[1..], r.rest);
      } else {
        ParseTakesDot(9, ts);
      }
    } else {
      var inner := ParseAt(level + 1, ts);
      if level == 3 {
        ParseAtNullTest(ts);
        NullSuffixTakesDot(inner.expr, inner.rest);
      } else {
        ParseAtBinary(level, ts);
        ChainTakesDot(level, inner.expr, inner.rest);
      }
      ParseTakesDot(level + 1, ts);
      if r.rest != inner.rest {
        DotSuffix(ts, inner.rest);
        DotInTail(ts, inner.rest, r.rest);
      }
    }
  }

  lemma PrimaryTakesDot(ts: seq<Token>)
    requires ParseAt(9, ts).Ok?
    ensures DotIsTaken(ts, ParseAt(9, ts).rest)
  {
    hide ParseAt, LiteralOf, DotIsTaken;
    var r := ParseAt(9, ts);
    ParseSuffix(ts);
    if ts != [] && ts[0].Identifier? {
      NameIsGreedy(ts);
    } else if ts != [] && ts[0] == LParen {
      ParseAtParenthesis(ts);
      ParenthesisIsSuffix(ts);
      OtherEndTakesDot(ts, r.rest);
    } else {
      ParseAtLiteral(ts);
      OtherEndTakesDot(ts, r.rest);
    }
  }

  lemma ParseSuffix(ts: seq<Token>)
    requires ParseAt(9, ts).Ok?
    ensures IsSuffix(ParseAt(9, ts).rest, ts) && |ParseAt(9, ts).rest| < |ts|
  {
    hide Strip, Yield;
    ParseSpells(9, ts);
  }

  lemma ParenthesisIsSuffix(ts: seq<Token>)
    requires ts != [] && ts[0] == LParen && ParseAt(9, ts).Ok?
    ensures var rest := ParseAt(9, ts).rest; |rest| < |ts| && ts[|ts| - |rest| - 1] == RParen
  {
    hide ParseAt, Strip, Yield;
    ParseAtParenthesis(ts);
    ParseSpells(1, ts[1..]);
    var inner := ParseAt(1, ts[1..]);
    assert inner.rest[0] == ts[1..][|ts| - 1 - |inner.rest|];
  }

  /** A rendering that ends in a bare column ends in a name with no dot before it. */
  lemma {:induction false} BareColumnEndsInName(level: nat, e: Expr)
    requires EndsInBareColumn(level, e)
    ensures EndsInName(Render(level, e), |Render(level, e)|)
    decreases e
  {
    match e
    case Column(_, _) =>
    case Unary(op, x) =>
      BareColumnEndsInName(8, x);
      TailEndsInName([UnaryToken(op)], Render(8, x));
    case Binary(op, a, b) =>
      BareColumnEndsInName(LevelOf(op) + 1, b);
      TailEndsInName(Render(LevelOf(op), a) + OpTokens(op), Render(LevelOf(op) + 1, b));
  }

  lemma TailEndsInName(pre: seq<Token>, ts: seq<Token>)
    requires pre != [] && pre[|pre| - 1] != Dot && EndsInName(ts, |ts|)
    ensures EndsInName(pre + ts, |pre + ts|)
  {}

  /** The suffix condition is exact: the rendering parses back to the tree and leaves the suffix
      exactly when the suffix does not continue it. */
  lemma RoundTripIff(e: Expr, level: nat, ts: seq<Token>)
    requires Representable(e) && 1 <= level <= 9
    ensures ParseAt(level, Render(level, e) + ts) == Ok(e, ts) <==> Stops(level, e, ts)
  {
    hide ParseAt, Render, StopsLoops, EndsInNullTest, DotIsTaken;
    var all := Render(level, e) + ts;
    if Stops(level, e, ts) {
      RoundTrip(e, level, ts);
    }
    NameThenDot(level, e, ts);
    if ParseAt(level, all).Ok? {
      ParseIsGreedy(level, all);
      ParseTakesDot(level, all);
    }
  }

  lemma NameThenDot(level: nat, e: Expr, ts: seq<Token>)
    ensures EndsInBareColumn(level, e) && ts != [] && ts[0] == Dot ==> !DotIsTaken(Render(level, e) + ts, ts)
  {
    hide Render;
    if EndsInBareColumn(level, e) {
      BareColumnEndsInName(level, e);
      assert |Render(level, e) + ts| - |ts| == |Render(level, e)|;
    }
  }

  /** A call is a column followed by an unread parenthesis. */
  lemma CallIsColumn(level: nat, f: Name, ts: seq<Token>)
    requires 1 <= level <= 9 && ts != [] && ts[0] == LParen
    ensures ParseAt(level, [Identifier(f)] + ts) == Ok(Column("", f), ts)
  {
    var e := Column("", f);
    assert Render(level, e) == [Identifier(f)];
    RoundTrip(e, level, ts);
  }

  // ---------- Precedence ----------

  /** The words of an operator in SQL. */
  function Words(op: BinaryOp): seq<Token> {
    match op
    case OrOp => [Or]
    case AndOp => [And]
    case EqOp => [Eq]
    case NeOp => [Ne]
    case LtOp => [Lt]
    case LeOp => [Le]
    case GtOp => [Gt]
    case GeOp => [Ge]
    case LikeOp => [Like]
    case NotLikeOp => [Not, Like]
    case AddOp => [Plus]
    case SubOp => [Minus]
    case ConcatOp => [Concat]
    case MulOp => [Star]
    case DivOp => [Slash]
    case ModOp => [Percent]
  }

  /** How tightly an operator binds: OR, AND, equality, comparison, sums, products. */
  function Tightness(op: BinaryOp): nat {
    if op == OrOp then 1
    else if op == AndOp then 2
    else if op == EqOp || op == NeOp then 3
    else if op in {LtOp, LeOp, GtOp, GeOp, LikeOp, NotLikeOp} then 4
    else if op in {AddOp, SubOp, ConcatOp} then 5
    else 6
  }

  lemma LevelsAreTightness(f: BinaryOp, g: BinaryOp)
    ensures OpTokens(f) == Words(f)
    ensures Tightness(f) < Tightness(g) <==> LevelOf(f) < LevelOf(g)
    ensures 1 <= LevelOf(f) <= 7
  {}

  function Col(name: Name): Expr {
    Column("", name)
  }

  lemma ColumnRenders(level: nat, name: Name)
    requires level <= 9
    ensures Render(level, Col(name)) == [Identifier(name)]
  {}

  lemma BinaryRenders(level: nat, f: BinaryOp, x: Expr, y: Expr)
    requires level <= LevelOf(f)
    ensures Render(level, Binary(f, x, y)) == Render(LevelOf(f), x) + OpTokens(f) + Render(LevelOf(f) + 1, y)
  {}

  lemma UnaryRenders(level: nat, u: UnaryOp, x: Expr)
    requires level <= 8
    ensures Render(level, Unary(u, x)) == [UnaryToken(u)] + Render(8, x)
  {}

  lemma NullTestRenders(level: nat, negated: bool, x: Expr)
    requires level <= 3
    ensures Render(level, NullTest(negated, x)) == Render(4, x) + NullTokens(negated)
  {}

  lemma WholeRoundTrip(e: Expr, ts: seq<Token>)
    requires Representable(e) && Render(1, e) == ts
    ensures ParseAt(1, ts) == Ok(e, [])
  {
    hide ParseAt, Render;
    QuietStopsAll(1, e, []);
    RoundTrip(e, 1, []);
    assert ts + [] == ts;
  }

  /** Of two operators the tighter one takes the operand between them, wherever it stands; of two
      equally tight ones the left. */
  lemma TighterBindsFirst(f: BinaryOp, g: BinaryOp, a: Name, b: Name, c: Name)
    ensures
      var ts := [Identifier(a)] + Words(f) + [Identifier(b)] + Words(g) + [Identifier(c)];
      ParseAt(1, ts) == Ok(
        if Tightness(f) < Tightness(g) then Binary(f, Col(a), Binary(g, Col(b), Col(c)))
        else Binary(g, Binary(f, Col(a), Col(b)), Col(c)), [])
  {
    hide ParseAt, Render, Bare, OpTokens, Words, LevelOf, Tightness;
    LevelsAreTightness(f, g);
    LevelsAreTightness(g, f);
    var ts := [Identifier(a)] + Words(f) + [Identifier(b)] + Words(g) + [Identifier(c)];
    var m, n := LevelOf(f), LevelOf(g);
    ColumnRenders(m, a);
    ColumnRenders(m + 1, b);
    ColumnRenders(n, b);
    ColumnRenders(n + 1, c);
    if Tightness(f) < Tightness(g) {
      var right := Binary(g, Col(b), Col(c));
      BinaryRenders(m + 1, g, Col(b), Col(c));
      BinaryRenders(1, f, Col(a), right);
      assert Render(1, Binary(f, Col(a), right)) == ts;
      assert Representable(right);
      WholeRoundTrip(Binary(f, Col(a), right), ts);
    } else {
      var left := Binary(f, Col(a), Col(b));
      BinaryRenders(n, f, Col(a), Col(b));
      BinaryRenders(1, g, left, Col(c));
      assert Render(1, Binary(g, left, Col(c))) == ts;
      assert Representable(left);
      WholeRoundTrip(Binary(g, left, Col(c)), ts);
    }
  }

  /** A prefix operator takes the operand after it before any binary operator does. */
  lemma PrefixBindsFirst(f: BinaryOp, a: Name, b: Name)
    ensures ParseAt(1, [Not, Identifier(a)] + Words(f) + [Identifier(b)]) == Ok(Binary(f, Unary(Negation, Col(a)), Col(b)), [])
    ensures ParseAt(1, [Minus, Identifier(a)] + Words(f) + [Identifier(b)]) == Ok(Binary(f, Unary(Negative, Col(a)), Col(b)), [])
    ensures ParseAt(1, [Plus, Identifier(a)] + Words(f) + [Identifier(b)]) == Ok(Binary(f, Unary(Positive, Col(a)), Col(b)), [])
  {
    hide ParseAt, Render, Bare, OpTokens, Words, LevelOf;
    PrefixBinds(f, Negation, a, b);
    PrefixBinds(f, Negative, a, b);
    PrefixBinds(f, Positive, a, b);
  }

  lemma PrefixBinds(f: BinaryOp, u: UnaryOp, a: Name, b: Name)
    ensures ParseAt(1, [UnaryToken(u), Identifier(a)] + Words(f) + [Identifier(b)]) == Ok(Binary(f, Unary(u, Col(a)), Col(b)), [])
  {
    hide ParseAt, OpTokens, Words, LevelOf, Render;
    LevelsAreTightness(f, f);
    var e := Binary(f, Unary(u, Col(a)), Col(b));
    BinaryRenders(1, f, Unary(u, Col(a)), Col(b));
    UnaryRenders(LevelOf(f), u, Col(a));
    ColumnRenders(8, a);
    assert Representable(Unary(u, Col(a)));
    ColumnRenders(LevelOf(f) + 1, b);
    WholeRoundTrip(e, [UnaryToken(u), Identifier(a)] + Words(f) + [Identifier(b)]);
  }

  /** A null test takes the whole equality, comparison, sum or product before it, but binds tighter
      than AND and OR. */
  lemma NullTestBinds(f: BinaryOp, a: Name, b: Name)
    ensures ParseAt(1, [Identifier(a)] + Words(f) + [Identifier(b), Is, Null]) ==
      Ok(if f == OrOp || f == AndOp then Binary(f, Col(a), NullTest(false, Col(b)))
         else NullTest(false, Binary(f, Col(a), Col(b))), [])
    ensures ParseAt(1, [Identifier(a), Is, Not, Null]) == Ok(NullTest(true, Col(a)), [])
  {
    hide ParseAt, OpTokens, Words, Render;
    LevelsAreTightness(f, f);
    NullTestRenders(1, true, Col(a));
    ColumnRenders(4, a);
    var ts := [Identifier(a)] + Words(f) + [Identifier(b), Is, Null];
    WholeRoundTrip(NullTest(true, Col(a)), [Identifier(a), Is, Not, Null]);
    ColumnRenders(LevelOf(f), a);
    if f == OrOp || f == AndOp {
      BinaryRenders(1, f, Col(a), NullTest(false, Col(b)));
      NullTestRenders(LevelOf(f) + 1, false, Col(b));
      ColumnRenders(4, b);
      assert Representable(NullTest(false, Col(b)));
      assert Render(1, Binary(f, Col(a), NullTest(false, Col(b)))) == ts;
      WholeRoundTrip(Binary(f, Col(a), NullTest(false, Col(b))), ts);
    } else {
      BinaryRenders(4, f, Col(a), Col(b));
      ColumnRenders(LevelOf(f) + 1, b);
      NullTestRenders(1, false, Binary(f, Col(a), Col(b)));
      assert Representable(Binary(f, Col(a), Col(b)));
      assert Render(1, NullTest(false, Binary(f, Col(a), Col(b)))) == ts;
      WholeRoundTrip(NullTest(false, Binary(f, Col(a), Col(b))), ts);
    }
  }

  /** What literals mean: only the text TRUE is true, numbers up to the largest int are read as
      written, larger ones throw, and texts are taken as they are. */
  lemma LiteralsMean(text: string, n: nat)
    ensures ParseAt(1, [Boolean(text)]) == Ok(Literal(BoolValue(text == "TRUE")), [])
    ensures ParseAt(1, [Str(text)]) == Ok(Literal(StringValue(text)), [])
    ensures ParseAt(1, [Null]) == Ok(Literal(NullValue), [])
    ensures ParseAt(1, [Integer(ToDecimal(n))]) == if n <= 2147483647 then Ok(Literal(IntValue(n)), []) else Error
  {
    hide ParseAt;
    DecimalRoundTrip(n);
    LoneToken(Boolean(text));
    LoneToken(Str(text));
    LoneToken(Null);
    LoneToken(Integer(ToDecimal(n)));
  }

  lemma LoneToken(t: Token)
    requires !t.Identifier? && t != LParen && t != Plus && t != Minus && t != Not
    ensures ParseAt(1, [t]) == if LiteralOf(t).Ok? then Ok(LiteralOf(t).expr, []) else Error
  {
    hide ParseAt, Chain;
    ParseAtLiteral([t]);
    ParseAtUnary([t]);
    assert [t][1..] == [];
    var r := ParseAt(9, [t]);
    LoneUpTo(7, [t]);
    LoneUpTo(6, [t]);
    LoneUpTo(5, [t]);
    LoneUpTo(4, [t]);
    ParseAtNullTest([t]);
    LoneUpTo(2, [t]);
    LoneUpTo(1, [t]);
  }

  lemma LoneUpTo(level: nat, ts: seq<Token>)
    requires 1 <= level <= 7 && level != 3
    ensures ParseAt(level + 1, ts).Error? ==> ParseAt(level, ts).Error?
    ensures ParseAt(level + 1, ts).Ok? && ParseAt(level + 1, ts).rest == [] ==> ParseAt(level, ts) == ParseAt(level + 1, ts)
  {
    hide ParseAt, Chain;
    ParseAtBinary(level, ts);
    if ParseAt(level + 1, ts).Ok? && ParseAt(level + 1, ts).rest == [] {
      ChainUnfolds(level, ParseAt(level + 1, ts).expr, []);
    }
  }

  // ---------- What is refused ----------

  /** Open parentheses less closed ones. */
  function Balance(ts: seq<Token>): int {
    if ts == [] then 0 else (if ts[0] == LParen then 1 else if ts[0] == RParen then -1 else 0) + Balance(ts[1..])
  }

  lemma BalanceHead(ts: seq<Token>)
    requires ts != []
    ensures Balance(ts) == (if ts[0] == LParen then 1 else if ts[0] == RParen then -1 else 0) + Balance(ts[1..])
  {}

  lemma OperatorBalances(level: nat, ts: seq<Token>)
    requires OperatorAt(level, ts).Op?
    ensures Balance(ts[OperatorAt(level, ts).width..]) == Balance(ts)
  {
    hide Balance;
    BalanceHead(ts);
    if OperatorAt(level, ts).width == 2 {
      BalanceHead(ts[1..]);
      assert ts[1..][1..] == ts[2..];
    }
  }

  lemma {:induction false} ChainBalances(level: nat, left: Expr, ts: seq<Token>)
    requires 1 <= level <= 7 && Chain(level, left, ts).Ok?
    ensures Balance(Chain(level, left, ts).rest) == Balance(ts)
    decreases |ts|, 10 - level, 1
  {
    hide OperatorAt, ParseAt, Chain, Balance;
    ChainUnfolds(level, left, ts);
    var o := OperatorAt(level, ts);
    if o.Op? {
      OperatorBalances(level, ts);
      var r := ParseAt(level + 1, ts[o.width..]);
      ParseBalances(level + 1, ts[o.width..]);
      ChainBalances(level, Binary(o.op, left, r.expr), r.rest);
    }
  }

  lemma NullSuffixBalances(e: Expr, ts: seq<Token>)
    requires NullSuffix(e, ts).Ok?
    ensures Balance(NullSuffix(e, ts).rest) == Balance(ts)
  {
    hide Balance, NullSuffix, StartsMembership;
    NullSuffixTokens(e, ts);
    var r := NullSuffix(e, ts);
    if r != Ok(e, ts) {
      NullTokensBalance(r.expr.negated, r.rest);
    }
  }

  lemma NullTokensBalance(negated: bool, ts: seq<Token>)
    ensures Balance(NullTokens(negated) + ts) == Balance(ts)
  {
    hide Balance;
    var all := NullTokens(negated) + ts;
    BalanceHead(all);
    BalanceHead(all[1..]);
    assert all[1..][1..] == all[2..];
    if negated {
      BalanceHead(all[2..]);
      assert all[2..][1..] == ts;
    } else {
      assert all[2..] == ts;
    }
  }

  lemma {:induction false} PrimaryBalances(ts: seq<Token>)
    requires ParseAt(9, ts).Ok?
    ensures Balance(ParseAt(9, ts).rest) == Balance(ts)
    decreases |ts|, 0, 0
  {
    hide ParseAt, Balance, LiteralOf;
    if ts != [] && ts[0] == LParen {
      ParseAtParenthesis(ts);
      var inner := ParseAt(1, ts[1..]);
      ParseBalances(1, ts[1..]);
      BalanceHead(ts);
      BalanceHead(inner.rest);
    } else if ts != [] && ts[0].Identifier? {
      ParseAtColumn(ts);
      BalanceHead(ts);
      if |ts| > 1 && ts[1] == Dot {
        BalanceHead(ts[1..]);
        BalanceHead(ts[2..]);
        assert ts[1..][1..] == ts[2..] && ts[2..][1..] == ts[3..];
      }
    } else {
      ParseAtLiteral(ts);
      BalanceHead(ts);
      LiteralIsNoParenthesis(ts[0]);
    }
  }

  lemma LiteralIsNoParenthesis(t: Token)
    requires LiteralOf(t).Ok?
    ensures t != LParen && t != RParen
  {}

  /** Every accepted expression closes exactly the parentheses it opens. */
  lemma {:induction false} ParseBalances(level: nat, ts: seq<Token>)
    requires 1 <= level <= 9 && ParseAt(level, ts).Ok?
    ensures Balance(ParseAt(level, ts).rest) == Balance(ts)
    decreases |ts|, 10 - level, 0
  {
    hide OperatorAt, ParseAt, Chain, NullSuffix, Balance;
    if level == 9 {
      PrimaryBalances(ts);
    } else if level == 8 {
      ParseAtUnary(ts);
      if StartsUnary(ts) {
        BalanceHead(ts);
        ParseBalances(8, ts[1..]);
      } else {
        ParseBalances(9, ts);
      }
    } else {
      var inner := ParseAt(level + 1, ts);
      if level == 3 {
        ParseAtNullTest(ts);
        NullSuffixBalances(inner.expr, inner.rest);
      } else {
        ParseAtBinary(level, ts);
        ChainBalances(level, inner.expr, inner.rest);
      }
      ParseBalances(level + 1, ts);
    }
  }

  lemma ErrorGoesUp(level: nat, ts: seq<Token>)
    requires 1 <= level <= 8 && ParseAt(level, ts).Error?
    ensures ParseAt(1, ts).Error?
    decreases level
  {
    hide ParseAt, Chain, NullSuffix, OperatorAt;
    if level > 1 {
      if level == 4 {
        ParseAtNullTest(ts);
      } else {
        ParseAtBinary(level - 1, ts);
      }
      ErrorGoesUp(level - 1, ts);
    }
  }

  lemma NameFirst(level: nat, a: Name, ts: seq<Token>)
    requires 1 <= level <= 9 && Quiet(level, ts)
    ensures ParseAt(level, [Identifier(a)] + ts) == Ok(Col(a), ts)
  {
    hide ParseAt, Render, Quiet;
    ColumnRenders(level, a);
    QuietStopsAll(level, Col(a), ts);
    RoundTrip(Col(a), level, ts);
  }

  /** Syntax errors: nothing to read, an operator without its right operand, NOT after an operand
      without LIKE, IS without NULL, and a name and a dot without a second name; and the clauses that
      are not modelled, IN and BETWEEN. */
  lemma SyntaxErrors(a: Name, op: BinaryOp, ts: seq<Token>)
    ensures ParseAt(1, []) == Error
    ensures ParseAt(1, [Identifier(a)] + Words(op)) == Error
    ensures ts == [] || ts[0] != Like ==> ParseAt(1, [Identifier(a), Not] + ts) == Error
    ensures !([Null] <= ts) && !([Not, Null] <= ts) ==> ParseAt(1, [Identifier(a), Is] + ts) == Error
    ensures ts == [] || !ts[0].Identifier? ==> ParseAt(1, [Identifier(a), Dot] + ts) == Error
    ensures ParseAt(1, [Identifier(a), In] + ts) == Error && ParseAt(1, [Identifier(a), Between] + ts) == Error
  {
    hide ParseAt, Words, NullSuffix;
    NothingIsError();
    MissingOperand(a, op);
    DanglingNot(a, ts);
    DanglingIs(a, ts);
    DanglingDot(a, ts);
    MembershipIsRefused(a, In, ts);
    MembershipIsRefused(a, Between, ts);
  }

  lemma MembershipIsRefused(a: Name, t: Token, ts: seq<Token>)
    requires t == In || t == Between
    ensures ParseAt(1, [Identifier(a), t] + ts).Error?
  {
    hide ParseAt, Chain;
    var tail := [t] + ts;
    var all := [Identifier(a), t] + ts;
    assert all == [Identifier(a)] + tail;
    NameFirst(4, a, tail);
    ParseAtNullTest(all);
    ErrorGoesUp(3, all);
  }

  lemma NothingIsError()
    ensures ParseAt(8, []).Error? && ParseAt(1, []).Error?
    ensures forall level :: 1 <= level <= 9 ==> ParseAt(level, []).Error?
  {}

  lemma MissingOperand(a: Name, op: BinaryOp)
    ensures ParseAt(1, [Identifier(a)] + Words(op)).Error?
  {
    hide ParseAt, Chain, OperatorAt, Words, OpTokens, LevelOf, Quiet;
    LevelsAreTightness(op, op);
    NothingIsError();
    var n := LevelOf(op);
    var words := Words(op);
    OperatorReadsBack(op, []);
    assert words + [] == words && words[|words|..] == [];
    NameFirst(n + 1, a, words);
    LevelIsBinary(op);
    ParseAtBinary(n, [Identifier(a)] + words);
    ChainUnfolds(n, Col(a), words);
    ErrorGoesUp(n, [Identifier(a)] + words);
  }

  lemma LevelIsBinary(op: BinaryOp)
    ensures LevelOf(op) != 3
  {}

  lemma DanglingNot(a: Name, ts: seq<Token>)
    ensures ts == [] || ts[0] != Like ==> ParseAt(1, [Identifier(a), Not] + ts).Error?
  {
    hide ParseAt, Chain;
    if ts == [] || ts[0] != Like {
      var tail := [Not] + ts;
      var all := [Identifier(a), Not] + ts;
      assert all == [Identifier(a)] + tail;
      NameFirst(6, a, tail);
      ParseAtBinary(5, all);
      ChainUnfolds(5, Col(a), tail);
      ErrorGoesUp(5, all);
    }
  }

  lemma DanglingIs(a: Name, ts: seq<Token>)
    ensures !([Null] <= ts) && !([Not, Null] <= ts) ==> ParseAt(1, [Identifier(a), Is] + ts).Error?
  {
    hide ParseAt, Chain;
    if !([Null] <= ts) && !([Not, Null] <= ts) {
      var tail := [Is] + ts;
      var all := [Identifier(a), Is] + ts;
      assert all == [Identifier(a)] + tail;
      NameFirst(4, a, tail);
      ParseAtNullTest(all);
      IsWithoutNull(ts);
      ErrorGoesUp(3, all);
    }
  }

  lemma IsWithoutNull(ts: seq<Token>)
    requires !([Null] <= ts) && !([Not, Null] <= ts)
    ensures forall e :: NullSuffix(e, [Is] + ts).Error?
  {
    hide StartsMembership;
    var all := [Is] + ts;
    assert forall i :: 0 <= i < |ts| ==> all[i + 1] == ts[i];
  }

  lemma DanglingDot(a: Name, ts: seq<Token>)
    ensures ts == [] || !ts[0].Identifier? ==> ParseAt(1, [Identifier(a), Dot] + ts).Error?
  {
    hide ParseAt;
    if ts == [] || !ts[0].Identifier? {
      var all := [Identifier(a), Dot] + ts;
      ParseAtColumn(all);
      ParseAtUnary(all);
      ErrorGoesUp(8, all);
    }
  }
}
