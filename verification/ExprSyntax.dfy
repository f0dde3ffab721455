/** Tokens and trees of SQL expressions, the parser as a function on token sequences, and the renderer. */
module ExprSyntax {
  import opened Decimal

  /** Identifiers are never empty. */
  type Name = s: string | s != [] witness "x"

  datatype Token =
    | Integer(text: string) | Str(text: string) | Boolean(text: string) | Null | Identifier(name: Name)
    | Dot | LParen | RParen
    | Or | And | Eq | Ne | Lt | Le | Gt | Ge | Like | Not | Is
    | Plus | Minus | Concat | Star | Slash | Percent
    | In | Between | Select | Case
    | Other(text: string)

  datatype Value = IntValue(n: nat) | StringValue(s: string) | BoolValue(b: bool) | NullValue

  datatype BinaryOp =
    | OrOp | AndOp | EqOp | NeOp | LtOp | LeOp | GtOp | GeOp | LikeOp | NotLikeOp
    | AddOp | SubOp | ConcatOp | MulOp | DivOp | ModOp

  datatype UnaryOp = Positive | Negative | Negation

  /** A column without a table has the empty table name. */
  datatype Expr =
    | Literal(value: Value)
    | Column(table: string, column: Name)
    | Unary(op: UnaryOp, arg: Expr)
    | NullTest(negated: bool, arg: Expr)
    | Binary(bop: BinaryOp, left: Expr, right: Expr)

  datatype Result = Ok(expr: Expr, rest: seq<Token>) | Error

  const INT_MAX: nat := 2147483647

  // ---------- Precedence levels, loosest first ----------
  // 1 OR, 2 AND, 3 IS [NOT] NULL, 4 equality, 5 relational, 6 additive, 7 multiplicative, 8 unary, 9 primary

  datatype OpAt = NoOp | Op(op: BinaryOp, width: nat) | Broken

  /** The operator of a binary level at the head of `ts`. At level 5 a NOT must be followed by LIKE. */
  function OperatorAt(level: nat, ts: seq<Token>): (o: OpAt)
    ensures o.Op? ==> 1 <= o.width <= |ts|
  {
    if ts == [] then NoOp
    else match (level, ts[0])
      case (1, Or) => Op(OrOp, 1)
      case (2, And) => Op(AndOp, 1)
      case (4, Eq) => Op(EqOp, 1)
      case (4, Ne) => Op(NeOp, 1)
      case (5, Lt) => Op(LtOp, 1)
      case (5, Le) => Op(LeOp, 1)
      case (5, Gt) => Op(GtOp, 1)
      case (5, Ge) => Op(GeOp, 1)
      case (5, Like) => Op(LikeOp, 1)
      case (5, Not) => if |ts| > 1 && ts[1] == Like then Op(NotLikeOp, 2) else Broken
      case (6, Plus) => Op(AddOp, 1)
      case (6, Minus) => Op(SubOp, 1)
      case (6, Concat) => Op(ConcatOp, 1)
      case (7, Star) => Op(MulOp, 1)
      case (7, Slash) => Op(DivOp, 1)
      case (7, Percent) => Op(ModOp, 1)
      case _ => NoOp
  }

  function UnaryAt(ts: seq<Token>): UnaryOp
    requires StartsUnary(ts)
  {
    if ts[0] == Plus then Positive else if ts[0] == Minus then Negative else Negation
  }

  predicate StartsUnary(ts: seq<Token>) {
    ts != [] && (ts[0] == Plus || ts[0] == Minus || ts[0] == Not)
  }

  /** An IN or BETWEEN clause follows; the parser's code for them is unfinished and not modelled. */
  predicate StartsMembership(ts: seq<Token>) {
    ts != [] && (ts[0] == In || ts[0] == Between
                 || (ts[0] == Not && |ts| > 1 && (ts[1] == In || ts[1] == Between)))
  }

  // ---------- The parser ----------

  function ParseAt(level: nat, ts: seq<Token>): (r: Result)
    requires 1 <= level <= 9
    ensures r.Ok? ==> |r.rest| < |ts|
    decreases |ts|, 10 - level, 0
  {
    if level == 9 then ParsePrimary(ts)
    else if level == 8 then
      if StartsUnary(ts) then
        match ParseAt(8, ts[1..])
        case Ok(e, rest) => Ok(Unary(UnaryAt(ts), e), rest)
        case Error => Error
      else ParseAt(9, ts)
    else
      match ParseAt(level + 1, ts)
      case Error => Error
      case Ok(e, rest) => if level == 3 then NullSuffix(e, rest) else Chain(level, e, rest)
  }

  /** The loop of a binary level, with `left` parsed so far. */
  function Chain(level: nat, left: Expr, ts: seq<Token>): (r: Result)
    requires 1 <= level <= 7
    ensures r.Ok? ==> |r.rest| <= |ts|
    decreases |ts|, 10 - level, 1
  {
    match OperatorAt(level, ts)
    case NoOp => Ok(left, ts)
    case Broken => Error
    case Op(op, width) =>
      match ParseAt(level + 1, ts[width..])
      case Error => Error
      case Ok(right, rest) => Chain(level, Binary(op, left, right), rest)
  }

  /** The optional IS [NOT] NULL after an equality chain. */
  function NullSuffix(e: Expr, ts: seq<Token>): (r: Result)
    ensures r.Ok? ==> |r.rest| <= |ts|
  {
    var negated := |ts| > 1 && ts[0] == Is && ts[1] == Not;
    var n := if negated then 2 else 1;
    if ts == [] || ts[0] != Is then (if StartsMembership(ts) then Error else Ok(e, ts))
    else if |ts| <= n || ts[n] != Null || StartsMembership(ts[n + 1..]) then Error
    else Ok(NullTest(negated, e), ts[n + 1..])
  }

  /** Value of a literal token; none when the conversion throws. */
  function LiteralOf(t: Token): (r: Result)
    ensures r.Ok? ==> r.rest == []
  {
    match t
    case Integer(text) =>
      if IsNumeral(text) && FromDecimal(text) <= INT_MAX then Ok(Literal(IntValue(FromDecimal(text))), []) else Error
    case Str(text) => Ok(Literal(StringValue(text)), [])
    case Boolean(text) => Ok(Literal(BoolValue(text == "TRUE")), [])
    case Null => Ok(Literal(NullValue), [])
    case _ => Error
  }

  function ParsePrimary(ts: seq<Token>): (r: Result)
    ensures r.Ok? ==> |r.rest| < |ts|
    decreases |ts|, 0, 0
  {
    if ts == [] then Error
    else match ts[0]
      case Identifier(name) =>
        if |ts| == 1 || ts[1] != Dot then Ok(Column("", name), ts[1..])
        else if |ts| > 2 && ts[2].Identifier? then Ok(Column(name, ts[2].name), ts[3..])
        else Error
      case LParen =>
        if |ts| == 1 || ts[1] == Select then Error
        else (
          match ParseAt(1, ts[1..])
          case Ok(e, rest) => if rest != [] && rest[0] == RParen then Ok(e, rest[1..]) else Error
          case Error => Error)
      case t =>
        match LiteralOf(t)
        case Ok(e, _) => Ok(e, ts[1..])
        case Error => Error
  }

  // ---------- The renderer ----------

  function LevelOf(op: BinaryOp): nat {
    match op
    case OrOp => 1
    case AndOp => 2
    case EqOp => 4 case NeOp => 4
    case LtOp => 5 case LeOp => 5 case GtOp => 5 case GeOp => 5 case LikeOp => 5 case NotLikeOp => 5
    case AddOp => 6 case SubOp => 6 case ConcatOp => 6
    case MulOp => 7 case DivOp => 7 case ModOp => 7
  }

  function Level(e: Expr): (l: nat)
    ensures 1 <= l <= 9
  {
    match e
    case Literal(_) => 9
    case Column(_, _) => 9
    case Unary(_, _) => 8
    case NullTest(_, _) => 3
    case Binary(op, _, _) => LevelOf(op)
  }

  function OpTokens(op: BinaryOp): (ts: seq<Token>)
    ensures 1 <= |ts| <= 2
  {
    match op
    case OrOp => [Or] case AndOp => [And] case EqOp => [Eq] case NeOp => [Ne]
    case LtOp => [Lt] case LeOp => [Le] case GtOp => [Gt] case GeOp => [Ge]
    case LikeOp => [Like] case NotLikeOp => [Not, Like]
    case AddOp => [Plus] case SubOp => [Minus] case ConcatOp => [Concat]
    case MulOp => [Star] case DivOp => [Slash] case ModOp => [Percent]
  }

  function UnaryToken(op: UnaryOp): Token {
    match op
    case Positive => Plus
    case Negative => Minus
    case Negation => Not
  }

  function ValueToken(v: Value): Token {
    match v
    case IntValue(n) => Integer(ToDecimal(n))
    case StringValue(s) => Str(s)
    case BoolValue(b) => Boolean(if b then "TRUE" else "FALSE")
    case NullValue => Null
  }

  function ColumnTokens(table: string, column: Name): seq<Token> {
    if table == "" then [Identifier(column)] else [Identifier(table), Dot, Identifier(column)]
  }

  function NullTokens(negated: bool): seq<Token> {
    if negated then [Is, Not, Null] else [Is, Null]
  }

  /** Tokens of `e` where an expression of at least `level` is wanted. */
  function Render(level: nat, e: Expr): seq<Token>
    decreases e, 1
  {
    if Level(e) < level then [LParen] + Bare(e) + [RParen] else Bare(e)
  }

  function Bare(e: Expr): seq<Token>
    decreases e, 0
  {
    match e
    case Literal(v) => [ValueToken(v)]
    case Column(t, c) => ColumnTokens(t, c)
    case Unary(op, x) => [UnaryToken(op)] + Render(8, x)
    case NullTest(negated, x) => Render(4, x) + NullTokens(negated)
    case Binary(op, a, b) => Render(LevelOf(op), a) + OpTokens(op) + Render(LevelOf(op) + 1, b)
  }

  /** Trees the parser can produce: integer literals fit an `int`. */
  predicate Representable(e: Expr) {
    match e
    case Literal(v) => v.IntValue? ==> v.n <= INT_MAX
    case Column(_, _) => true
    case Unary(_, x) => Representable(x)
    case NullTest(_, x) => Representable(x)
    case Binary(_, a, b) => Representable(a) && Representable(b)
  }

  // ---------- What may follow ----------

  /** The rendering ends in a null test outside parentheses. */
  predicate EndsInNullTest(level: nat, e: Expr)
    decreases e
  {
    level <= Level(e) &&
    match e
    case NullTest(_, _) => true
    case Binary(op, _, b) => EndsInNullTest(LevelOf(op) + 1, b)
    case _ => false
  }

  /** The rendering ends in a column without a table, outside parentheses. */
  predicate EndsInBareColumn(level: nat, e: Expr)
    decreases e
  {
    level <= Level(e) &&
    match e
    case Column(t, _) => t == ""
    case Unary(_, x) => EndsInBareColumn(8, x)
    case Binary(op, _, b) => EndsInBareColumn(LevelOf(op) + 1, b)
    case _ => false
  }

  /** No binary operator of a level from `low` to `high` stands at the head of `ts`. */
  predicate NoOperator(low: nat, high: nat, ts: seq<Token>) {
    forall k :: low <= k <= high ==> OperatorAt(k, ts) == NoOp
  }

  /** No loop or option of the levels from `level` on takes a token of `ts` after an expression that
      ends, or does not end, in a null test. */
  predicate StopsLoops(level: nat, nullTest: bool, ts: seq<Token>) {
    if nullTest then NoOperator(level, 2, ts) && !StartsMembership(ts)
    else NoOperator(level, 7, ts) && (level <= 3 ==> !StartsMembership(ts) && (ts == [] || ts[0] != Is))
  }

  /** `ts` does not continue the rendering of `e`. */
  predicate Stops(level: nat, e: Expr, ts: seq<Token>) {
    && StopsLoops(level, EndsInNullTest(level, e), ts)
    && (EndsInBareColumn(level, e) ==> ts == [] || ts[0] != Dot)
  }

  /** `ts` continues no expression of `level`. */
  predicate Quiet(level: nat, ts: seq<Token>) {
    StopsLoops(level, false, ts) && (ts == [] || ts[0] != Dot)
  }
}
