/** Printing expressions: every operand that is not a value or a call is put in parentheses. */
module ExprPrinting {
  import opened CGrammar

  /** What a value's name may be: an identifier, a literal, a negative literal, an address. */
  datatype Leaf = Name(x: string) | Number(n: nat) | Negative(n: nat) | Address(x: string)

  /** Bitwise "and" of two booleans is printed as the logical one; of each operand it is known whether its
      type is boolean. */
  datatype SourceOp = Plain(op: BinOp) | AndExpr(leftBool: bool, rightBool: bool)

  /** `Member` covers member access through values and pointers, `Last` the element-pointer and
      extract-value expressions. A logical right shift of a signed operand casts it first. */
  datatype Expr =
    | Value(v: Leaf)
    | Member(e: Expr, name: string, pointer: bool)
    | Element(e: Expr, i: Expr)
    | Last(indices: seq<Expr>)
    | CallExpr(callee: Expr, params: seq<Expr>)
    | PointerShift(ty: string, p: Expr, move: Expr)
    | Select(comp: Expr, l: Expr, r: Expr, negate: bool)
    | Unary(u: UnOp, e: Expr)
    | CastExpr(ty: string, e: Expr)
    | Binary(op: SourceOp, l: Expr, r: Expr)
    | AssignExpr(l: Expr, r: Expr)
    | Lshr(l: Expr, r: Expr, cast: Option<string>)

  function Symbol(op: SourceOp): BinOp {
    match op
    case Plain(o) => o
    case AndExpr(leftBool, rightBool) => if leftBool && rightBool then And else BitAnd
  }

  predicate IsSimple(e: Expr) {
    e.Value? || e.CallExpr?
  }

  predicate IsZero(e: Expr) {
    e == Value(Number(0))
  }

  /** Index lists are not empty; `--` is not an operator of the translator. */
  predicate Valid(e: Expr) {
    match e
    case Value(_) => true
    case Member(x, _, _) => Valid(x)
    case Element(x, i) => Valid(x) && Valid(i)
    case Last(es) => es != [] && Valid(es[|es| - 1])
    case CallExpr(f, ps) => Valid(f) && forall i :: 0 <= i < |ps| ==> Valid(ps[i])
    case PointerShift(_, p, m) => Valid(p) && Valid(m)
    case Select(c, l, r, _) => Valid(c) && Valid(l) && Valid(r)
    case Unary(u, x) => u != Decrement && Valid(x)
    case CastExpr(_, x) => Valid(x)
    case Binary(_, l, r) => Valid(l) && Valid(r)
    case AssignExpr(l, r) => Valid(l) && Valid(r)
    case Lshr(l, r, _) => Valid(l) && Valid(r)
  }

  // ----- the text -----

  /** What is written: tokens, and spaces between some of them. */
  datatype Piece = Space | P(t: Tok)

  function UnaryTok(u: UnOp): Tok
    requires u != Decrement
  {
    match u
    case AddressOf => Op(BitAnd)
    case Indirect => Op(Mul)
    case Negate => Op(Sub)
    case Not => Bang
  }

  function Spaced(t: Tok): seq<Piece> {
    [Space, P(t), Space]
  }

  function CastText(ty: string): seq<Piece> {
    [P(LParen), P(TypeName(ty)), P(RParen)]
  }

  function Text(e: Expr): seq<Piece>
    requires Valid(e)
    decreases e, 0
  {
    match e
    case Value(Name(x)) => [P(Id(x))]
    case Value(Number(n)) => [P(Num(n))]
    case Value(Negative(n)) => [P(Op(Sub)), P(Num(n))]
    case Value(Address(x)) => [P(Op(BitAnd)), P(Id(x))]
    case Member(x, name, pointer) => Operand(x) + [P(if pointer then Arrow else Dot), P(Id(name))]
    case Element(x, i) => Operand(x) + [P(LBracket)] + Text(i) + [P(RBracket)]
    case Last(es) => Text(es[|es| - 1])
    case CallExpr(f, ps) => Operand(f) + [P(LParen)] + Params(ps, 0) + [P(RParen)]
    case PointerShift(ty, p, m) =>
      if IsZero(m) then Text(p)
      else [P(Op(Mul)), P(LParen), P(LParen)] + CastText(ty) + [P(LParen)] + Text(p) + [P(RParen), P(RParen)]
           + Spaced(Op(Add)) + Operand(m) + [P(RParen)]
    case Select(c, l, r, negate) =>
      Condition(c, negate) + Spaced(Question) + Operand(l) + Spaced(Colon) + Operand(r)
    case Unary(u, x) => [P(UnaryTok(u))] + Operand(x)
    case CastExpr(ty, x) => CastText(ty) + Operand(x)
    case Binary(op, l, r) => Operand(l) + Spaced(Op(Symbol(op))) + Operand(r)
    case AssignExpr(l, r) => Operand(l) + Spaced(Equals) + Operand(r)
    case Lshr(l, r, cast) =>
      (if cast.Some? then CastText(cast.value) else [])
      + [P(LParen)] + Text(l) + [P(RParen)] + Spaced(Op(Shr)) + [P(LParen)] + Text(r) + [P(RParen)]
  }

  function Operand(e: Expr): seq<Piece>
    requires Valid(e)
    decreases e, 1
  {
    if IsSimple(e) then Text(e) else [P(LParen)] + Text(e) + [P(RParen)]
  }

  function Condition(c: Expr, negate: bool): seq<Piece>
    requires Valid(c)
    decreases c, 2
  {
    if negate then [P(Bang), P(LParen)] + Operand(c) + [P(RParen)] else Operand(c)
  }

  /** The parameters from number `i` on; all but the first are preceded by a comma. */
  function Params(ps: seq<Expr>, i: nat): seq<Piece>
    requires i <= |ps| && forall j :: 0 <= j < |ps| ==> Valid(ps[j])
    decreases ps, |ps| - i
  {
    if i == |ps| then [] else (if i > 0 then [P(Comma), Space] else []) + Text(ps[i]) + Params(ps, i + 1)
  }

  /** An operand stands without parentheses exactly if it is a value or a call. */
  lemma {:induction false} BareOperands(e: Expr)
    requires Valid(e)
    ensures Operand(e) == Text(e) <==> e.Value? || e.CallExpr?
    ensures !(e.Value? || e.CallExpr?) ==> Operand(e) == [P(LParen)] + Text(e) + [P(RParen)]
  {
    assert |Operand(e)| == |Text(e)| + if IsSimple(e) then 0 else 2;
  }

  lemma {:induction false} Assoc(a: seq<Piece>, b: seq<Piece>, c: seq<Piece>)
    ensures (a + b) + c == a + (b + c)
  {
  }

  /** The writer appends to its stream; `Operand` is `parensIfNotSimple`. */
  class ExprWriter {
    var ss: seq<Piece>

    constructor ()
      ensures ss == []
    {
      ss := [];
    }

    /** Output, seen as what was there at the start and what has been added since. */
    method Put(ps: seq<Piece>, ghost start: seq<Piece>, ghost done: seq<Piece>)
      requires ss == start + done
      modifies this
      ensures ss == start + (done + ps)
    {
      ss := ss + ps;
      Assoc(start, done, ps);
    }

    method PutOperand(e: Expr, ghost start: seq<Piece>, ghost done: seq<Piece>)
      requires Valid(e) && ss == start + done
      modifies this
      ensures ss == start + (done + Operand(e))
      decreases e, 3
    {
      ParensIfNotSimple(e);
      Assoc(start, done, Operand(e));
    }

    method PutText(e: Expr, ghost start: seq<Piece>, ghost done: seq<Piece>)
      requires Valid(e) && ss == start + done
      modifies this
      ensures ss == start + (done + Text(e))
      decreases e, 3
    {
      Visit(e);
      Assoc(start, done, Text(e));
    }

    method ParensIfNotSimple(e: Expr)
      requires Valid(e)
      modifies this
      ensures ss == old(ss) + Operand(e)
      decreases e, 2
    {
      ghost var start := ss;
      if !IsSimple(e) {
        ss := ss + [P(LParen)];
      }
      Visit(e);
      if !IsSimple(e) {
        Assoc(start, [P(LParen)], Text(e));
        Put([P(RParen)], start, [P(LParen)] + Text(e));
      }
    }

    method WriteCastType(ty: string)
      modifies this
      ensures ss == old(ss) + CastText(ty)
    {
      ss := ss + [P(LParen), P(TypeName(ty)), P(RParen)];
    }

    method VisitParams(ps: seq<Expr>, ghost all: Expr)
      requires all.CallExpr? && all.params == ps && Valid(all)
      modifies this
      ensures ss == old(ss) + Params(ps, 0)
      decreases all, 0, 0
    {
      for i := 0 to |ps|
        invariant ss + Params(ps, i) == old(ss) + Params(ps, 0)
      {
        ghost var before := ss;
        ghost var comma := if i > 0 then [P(Comma), Space] else [];
        if i > 0 {
          ss := ss + [P(Comma), Space];
        }
        PutText(ps[i], before, comma);
        Assoc(before, comma + Text(ps[i]), Params(ps, i + 1));
      }
    }

    method VisitCall(e: Expr)
      requires Valid(e) && e.CallExpr?
      modifies this
      ensures ss == old(ss) + Text(e)
      decreases e, 0, 1
    {
      ghost var start := ss;
      ParensIfNotSimple(e.callee);
      Put([P(LParen)], start, Operand(e.callee));
      ghost var done := Operand(e.callee) + [P(LParen)];
      VisitParams(e.params, e);
      Assoc(start, done, Params(e.params, 0));
      Put([P(RParen)], start, done + Params(e.params, 0));
    }

    method VisitShift(e: Expr)
      requires Valid(e) && e.PointerShift?
      modifies this
      ensures ss == old(ss) + Text(e)
      decreases e, 0
    {
      if IsZero(e.move) {
        Visit(e.p);
        return;
      }
      ghost var start := ss;
      ghost var done := [P(Op(Mul)), P(LParen), P(LParen)];
      ss := ss + [P(Op(Mul)), P(LParen), P(LParen)];
      WriteCastType(e.ty);
      Assoc(start, done, CastText(e.ty));
      done := done + CastText(e.ty);
      Put([P(LParen)], start, done);
      done := done + [P(LParen)];
      PutText(e.p, start, done);
      done := done + Text(e.p);
      Put([P(RParen), P(RParen)], start, done);
      done := done + [P(RParen), P(RParen)];
      Put(Spaced(Op(Add)), start, done);
      done := done + Spaced(Op(Add));
      PutOperand(e.move, start, done);
      Put([P(RParen)], start, done + Operand(e.move));
    }

    method VisitCondition(c: Expr, negate: bool)
      requires Valid(c)
      modifies this
      ensures ss == old(ss) + Condition(c, negate)
      decreases c, 4
    {
      ghost var start := ss;
      if negate {
        ss := ss + [P(Bang), P(LParen)];
        PutOperand(c, start, [P(Bang), P(LParen)]);
        Put([P(RParen)], start, [P(Bang), P(LParen)] + Operand(c));
      } else {
        ParensIfNotSimple(c);
      }
    }

    method VisitSelect(e: Expr)
      requires Valid(e) && e.Select?
      modifies this
      ensures ss == old(ss) + Text(e)
      decreases e, 0
    {
      ghost var start := ss;
      VisitCondition(e.comp, e.negate);
      ghost var done := Condition(e.comp, e.negate);
      Put(Spaced(Question), start, done);
      done := done + Spaced(Question);
      PutOperand(e.l, start, done);
      done := done + Operand(e.l);
      Put(Spaced(Colon), start, done);
      PutOperand(e.r, start, done + Spaced(Colon));
    }

    method VisitLshr(e: Expr)
      requires Valid(e) && e.Lshr?
      modifies this
      ensures ss == old(ss) + Text(e)
      decreases e, 0
    {
      ghost var start := ss;
      ghost var done := if e.cast.Some? then CastText(e.cast.value) else [];
      if e.cast.Some? {
        WriteCastType(e.cast.value);
      }
      Put([P(LParen)], start, done);
      done := done + [P(LParen)];
      PutText(e.l, start, done);
      done := done + Text(e.l);
      Put([P(RParen)], start, done);
      done := done + [P(RParen)];
      Put(Spaced(Op(Shr)), start, done);
      done := done + Spaced(Op(Shr));
      Put([P(LParen)], start, done);
      done := done + [P(LParen)];
      PutText(e.r, start, done);
      Put([P(RParen)], start, done + Text(e.r));
    }

    method VisitPair(l: Expr, symbol: Tok, r: Expr, ghost e: Expr)
      requires Valid(l) && Valid(r) && (e == AssignExpr(l, r) || (e.Binary? && e.l == l && e.r == r))
      modifies this
      ensures ss == old(ss) + (Operand(l) + Spaced(symbol) + Operand(r))
      decreases e, 0
    {
      ghost var start := ss;
      ParensIfNotSimple(l);
      Put(Spaced(symbol), start, Operand(l));
      PutOperand(r, start, Operand(l) + Spaced(symbol));
    }

    method VisitPostfix(e: Expr)
      requires Valid(e) && (e.Member? || e.Element?)
      modifies this
      ensures ss == old(ss) + Text(e)
      decreases e, 0
    {
      ghost var start := ss;
      ParensIfNotSimple(e.e);
      if e.Member? {
        ss := ss + [P(if e.pointer then Arrow else Dot)];
        ss := ss + [P(Id(e.name))];
      } else {
        Put([P(LBracket)], start, Operand(e.e));
        PutText(e.i, start, Operand(e.e) + [P(LBracket)]);
        Put([P(RBracket)], start, Operand(e.e) + [P(LBracket)] + Text(e.i));
      }
    }

    method Visit(e: Expr)
      requires Valid(e)
      modifies this
      ensures ss == old(ss) + Text(e)
      decreases e, 1
    {
      ghost var start := ss;
      match e {
        case Value(Name(x)) =>
          ss := ss + [P(Id(x))];
        case Value(Number(n)) =>
          ss := ss + [P(Num(n))];
        case Value(Negative(n)) =>
          ss := ss + [P(Op(Sub)), P(Num(n))];
        case Value(Address(x)) =>
          ss := ss + [P(Op(BitAnd)), P(Id(x))];
        case Member(_, _, _) =>
          VisitPostfix(e);
        case Element(_, _) =>
          VisitPostfix(e);
        case Last(es) =>
          Visit(es[|es| - 1]);
        case CallExpr(_, _) =>
          VisitCall(e);
        case PointerShift(_, _, _) =>
          VisitShift(e);
        case Select(_, _, _, _) =>
          VisitSelect(e);
        case Unary(u, x) =>
          ss := ss + [P(UnaryTok(u))];
          PutOperand(x, start, [P(UnaryTok(u))]);
        case CastExpr(ty, x) =>
          WriteCastType(ty);
          PutOperand(x, start, CastText(ty));
        case Binary(op, l, r) =>
          VisitPair(l, Op(Symbol(op)), r, e);
        case AssignExpr(l, r) =>
          VisitPair(l, Equals, r, e);
        case Lshr(_, _, _) =>
          VisitLshr(e);
      }
    }
  }
}
