/** The recursive-descent expression parser: one method per precedence level over a token stream. */
module ExprParser {
  import opened ExprSyntax
  import opened ExprProofs

  datatype Parsed = Tree(expr: Expr) | SyntaxError

  predicate StartsRelational(ts: seq<Token>) {
    && ts != []
    && (ts[0] == Lt || ts[0] == Le || ts[0] == Gt || ts[0] == Ge || ts[0] == Like || ts[0] == Not)
  }

  lemma NotRelational(ts: seq<Token>)
    requires !StartsRelational(ts)
    ensures OperatorAt(5, ts) == NoOp
  {}

  class SqlParser {
    /** The tokens not yet consumed; the current token is the first of them. */
    var rest: seq<Token>

    constructor (tokens: seq<Token>)
      ensures rest == tokens
    {
      rest := tokens;
    }

    /** The outcome of a method agrees with the parsing function; after an error the position is free. */
    ghost predicate Matches(r: Parsed, spec: Result)
      reads this
    {
      match spec
      case Ok(e, ts) => r == Tree(e) && rest == ts
      case Error => r == SyntaxError
    }

    method ParseExpression() returns (r: Parsed)
      modifies this
      ensures Matches(r, ParseAt(1, old(rest)))
      decreases |rest|, 10
    {
      r := ParseLogicalOr();
    }

    method ParseLogicalOr() returns (r: Parsed)
      modifies this
      ensures Matches(r, ParseAt(1, old(rest)))
      decreases |rest|, 9
    {
      hide ParseAt, Chain;
      ParseAtBinary(1, rest);
      r := ParseLogicalAnd();
      while r.Tree? && rest != [] && rest[0] == Or
        invariant if r.Tree? then Chain(1, r.expr, rest) == ParseAt(1, old(rest)) else ParseAt(1, old(rest)).Error?
        invariant r.Tree? ==> |rest| < |old(rest)|
        decreases if r.Tree? then |rest| + 1 else 0
      {
        ChainUnfolds(1, r.expr, rest);
        var left := r.expr;
        rest := rest[1..];
        r := ParseLogicalAnd();
        if r.Tree? {
          r := Tree(Binary(OrOp, left, r.expr));
        }
      }
      if r.Tree? {
        ChainUnfolds(1, r.expr, rest);
      }
    }

    method ParseLogicalAnd() returns (r: Parsed)
      modifies this
      ensures Matches(r, ParseAt(2, old(rest)))
      decreases |rest|, 8
    {
      hide ParseAt, Chain;
      ParseAtBinary(2, rest);
      r := ParseEquality();
      while r.Tree? && rest != [] && rest[0] == And
        invariant if r.Tree? then Chain(2, r.expr, rest) == ParseAt(2, old(rest)) else ParseAt(2, old(rest)).Error?
        invariant r.Tree? ==> |rest| < |old(rest)|
        decreases if r.Tree? then |rest| + 1 else 0
      {
        ChainUnfolds(2, r.expr, rest);
        var left := r.expr;
        rest := rest[1..];
        r := ParseEquality();
        if r.Tree? {
          r := Tree(Binary(AndOp, left, r.expr));
        }
      }
      if r.Tree? {
        ChainUnfolds(2, r.expr, rest);
      }
    }

    /** The equality chain followed by at most one IS [NOT] NULL. */
    method ParseEquality() returns (r: Parsed)
      modifies this
      ensures Matches(r, ParseAt(3, old(rest)))
      decreases |rest|, 7
    {
      hide ParseAt, Chain;
      ParseAtNullTest(rest);
      ParseAtBinary(4, rest);
      r := ParseRelational();
      while r.Tree? && rest != [] && (rest[0] == Eq || rest[0] == Ne)
        invariant if r.Tree? then Chain(4, r.expr, rest) == ParseAt(4, old(rest)) else ParseAt(4, old(rest)).Error?
        invariant r.Tree? ==> |rest| < |old(rest)|
        decreases if r.Tree? then |rest| + 1 else 0
      {
        ChainUnfolds(4, r.expr, rest);
        var left, op := r.expr, if rest[0] == Eq then EqOp else NeOp;
        rest := rest[1..];
        r := ParseRelational();
        if r.Tree? {
          r := Tree(Binary(op, left, r.expr));
        }
      }
      if r.Tree? {
        ChainUnfolds(4, r.expr, rest);
        r := ParseNullSuffix(r.expr);
      }
    }

    method ParseNullSuffix(left: Expr) returns (r: Parsed)
      modifies this
      ensures Matches(r, NullSuffix(left, old(rest)))
    {
      r := Tree(left);
      if rest != [] && rest[0] == Is {
        rest := rest[1..];
        var negated := rest != [] && rest[0] == Not;
        if negated {
          rest := rest[1..];
        }
        if rest == [] || rest[0] != Null {
          return SyntaxError;
        }
        rest := rest[1..];
        r := Tree(NullTest(negated, left));
      }
      if StartsMembership(rest) {
        r := SyntaxError;
      }
    }

    method ParseRelational() returns (r: Parsed)
      modifies this
      ensures Matches(r, ParseAt(5, old(rest)))
      decreases |rest|, 6
    {
      hide ParseAt, Chain, OperatorAt;
      ParseAtBinary(5, rest);
      r := ParseAdditive();
      while r.Tree? && StartsRelational(rest)
        invariant if r.Tree? then Chain(5, r.expr, rest) == ParseAt(5, old(rest)) else ParseAt(5, old(rest)).Error?
        invariant r.Tree? ==> |rest| < |old(rest)|
        decreases if r.Tree? then |rest| + 1 else 0
      {
        ChainUnfolds(5, r.expr, rest);
        var left := r.expr;
        var op := TakeRelationalOperator();
        if op.Broken? {
          return SyntaxError;
        }
        r := ParseAdditive();
        if r.Tree? {
          r := Tree(Binary(op.op, left, r.expr));
        }
      }
      if r.Tree? {
        NotRelational(rest);
        ChainUnfolds(5, r.expr, rest);
      }
    }

    /** The operator of a turn of the relational loop; NOT must be followed by LIKE. */
    method TakeRelationalOperator() returns (o: OpAt)
      requires StartsRelational(rest)
      modifies this
      ensures o == OperatorAt(5, old(rest)) && !o.NoOp?
      ensures o.Op? ==> rest == old(rest)[o.width..]
    {
      var t := rest[0];
      rest := rest[1..];
      match t
      case Lt => o := Op(LtOp, 1);
      case Le => o := Op(LeOp, 1);
      case Gt => o := Op(GtOp, 1);
      case Ge => o := Op(GeOp, 1);
      case Like => o := Op(LikeOp, 1);
      case Not =>
        if rest == [] || rest[0] != Like {
          return Broken;
        }
        rest := rest[1..];
        o := Op(NotLikeOp, 2);
    }

    method ParseAdditive() returns (r: Parsed)
      modifies this
      ensures Matches(r, ParseAt(6, old(rest)))
      decreases |rest|, 5
    {
      hide ParseAt, Chain;
      ParseAtBinary(6, rest);
      r := ParseMultiplicative();
      while r.Tree? && rest != [] && (rest[0] == Plus || rest[0] == Minus || rest[0] == Concat)
        invariant if r.Tree? then Chain(6, r.expr, rest) == ParseAt(6, old(rest)) else ParseAt(6, old(rest)).Error?
        invariant r.Tree? ==> |rest| < |old(rest)|
        decreases if r.Tree? then |rest| + 1 else 0
      {
        ChainUnfolds(6, r.expr, rest);
        var left := r.expr;
        var op := if rest[0] == Plus then AddOp else if rest[0] == Minus then SubOp else ConcatOp;
        rest := rest[1..];
        r := ParseMultiplicative();
        if r.Tree? {
          r := Tree(Binary(op, left, r.expr));
        }
      }
      if r.Tree? {
        ChainUnfolds(6, r.expr, rest);
      }
    }

    method ParseMultiplicative() returns (r: Parsed)
      modifies this
      ensures Matches(r, ParseAt(7, old(rest)))
      decreases |rest|, 4
    {
      hide ParseAt, Chain;
      ParseAtBinary(7, rest);
      r := ParseUnary();
      while r.Tree? && rest != [] && (rest[0] == Star || rest[0] == Slash || rest[0] == Percent)
        invariant if r.Tree? then Chain(7, r.expr, rest) == ParseAt(7, old(rest)) else ParseAt(7, old(rest)).Error?
        invariant r.Tree? ==> |rest| < |old(rest)|
        decreases if r.Tree? then |rest| + 1 else 0
      {
        ChainUnfolds(7, r.expr, rest);
        var left := r.expr;
        var op := if rest[0] == Star then MulOp else if rest[0] == Slash then DivOp else ModOp;
        rest := rest[1..];
        r := ParseUnary();
        if r.Tree? {
          r := Tree(Binary(op, left, r.expr));
        }
      }
      if r.Tree? {
        ChainUnfolds(7, r.expr, rest);
      }
    }

    method ParseUnary() returns (r: Parsed)
      modifies this
      ensures Matches(r, ParseAt(8, old(rest)))
      decreases |rest|, 3
    {
      hide ParseAt;
      ParseAtUnary(rest);
      if rest != [] && (rest[0] == Plus || rest[0] == Minus || rest[0] == Not) {
        var op := if rest[0] == Plus then Positive else if rest[0] == Minus then Negative else Negation;
        rest := rest[1..];
        r := ParseUnary();
        if r.Tree? {
          r := Tree(Unary(op, r.expr));
        }
        return;
      }
      r := ParsePrimaryToken();
    }

    method ParsePrimaryToken() returns (r: Parsed)
      modifies this
      ensures Matches(r, ParseAt(9, old(rest)))
      decreases |rest|, 2
    {
      hide ParseAt, LiteralOf;
      if rest == [] {
        ParseAtLiteral(rest);
        return SyntaxError;
      }
      var t := rest[0];
      if t.Identifier? {
        ParseAtColumn(rest);
        rest := rest[1..];
        if rest != [] && rest[0] == Dot {
          rest := rest[1..];
          if rest == [] || !rest[0].Identifier? {
            return SyntaxError;
          }
          var column := rest[0].name;
          rest := rest[1..];
          return Tree(Column(t.name, column));
        }
        return Tree(Column("", t.name));
      }
      if t == LParen {
        ParseAtParenthesis(rest);
        rest := rest[1..];
        if rest == [] || rest[0] == Select {
          return SyntaxError;
        }
        r := ParseExpression();
        if r.Tree? {
          if rest == [] || rest[0] != RParen {
            return SyntaxError;
          }
          rest := rest[1..];
        }
        return;
      }
      ParseAtLiteral(rest);
      var literal := LiteralOf(t);
      if literal.Error? {
        return SyntaxError;
      }
      rest := rest[1..];
      r := Tree(literal.expr);
    }
  }
}
