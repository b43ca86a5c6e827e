/** The tokens of printed expressions. Adjacent characters are taken together as far as possible
    (section 6.4 of ISO/IEC 9899:2011), so a sign before a negative literal becomes `--`, an address
    before an address becomes `&&`, and a number before `.` swallows the member's name. */
module ExprTokens {
  import opened CGrammar
  import opened ExprPrinting

  predicate Merge(t: Tok) {
    t == Op(Sub) || t == Op(BitAnd)
  }

  function Merged(t: Tok): Tok {
    if t == Op(Sub) then MinusMinus else Op(And)
  }

  function Lex(ps: seq<Piece>): Toks {
    if ps == [] then End
    else if ps[0].Space? then Lex(ps[1..])
    else if |ps| > 1 && Merge(ps[0].t) && ps[1] == ps[0] then Cons(Merged(ps[0].t), Lex(ps[2..]))
    else if |ps| > 1 && ps[0].t.Num? && ps[1] == P(Dot) then
      Cons(PPNumber, if |ps| > 2 && ps[2].P? && ps[2].t.Id? then Lex(ps[3..]) else Lex(ps[2..]))
    else Cons(ps[0].t, Lex(ps[1..]))
  }

  // ----- the same, token by token, with what follows -----

  predicate StartsDot(k: Toks) {
    k.Cons? && k.head.Dot?
  }

  function NumTo(n: nat, k: Toks): Toks {
    if !StartsDot(k) then Cons(Num(n), k)
    else Cons(PPNumber, if k.tail.Cons? && k.tail.head.Id? then k.tail.tail else k.tail)
  }

  function Munch(t: Tok, k: Toks): Toks {
    if Merge(t) && k.Cons? && k.head == t then Cons(Merged(t), k.tail) else Cons(t, k)
  }

  function CastTo(ty: string, k: Toks): Toks {
    Cons(LParen, Cons(TypeName(ty), Cons(RParen, k)))
  }

  function TextTo(e: Expr, k: Toks): Toks
    requires Valid(e)
    decreases e, 0
  {
    match e
    case Value(Name(x)) => Cons(Id(x), k)
    case Value(Number(n)) => NumTo(n, k)
    case Value(Negative(n)) => Cons(Op(Sub), NumTo(n, k))
    case Value(Address(x)) => Cons(Op(BitAnd), Cons(Id(x), k))
    case Member(x, name, pointer) => OperandTo(x, Cons(if pointer then Arrow else Dot, Cons(Id(name), k)))
    case Element(x, i) => OperandTo(x, Cons(LBracket, TextTo(i, Cons(RBracket, k))))
    case Last(es) => TextTo(es[|es| - 1], k)
    case CallExpr(f, ps) => OperandTo(f, Cons(LParen, ParamsTo(ps, 0, Cons(RParen, k))))
    case PointerShift(ty, p, m) =>
      if IsZero(m) then TextTo(p, k)
      else
        Cons(Op(Mul), Cons(LParen, Cons(LParen, CastTo(ty, ParenTo(p, Cons(RParen, Cons(Op(Add), OperandTo(m, Cons(RParen, k)))))))))
    case Select(c, l, r, negate) => ConditionTo(c, negate, Cons(Question, OperandTo(l, Cons(Colon, OperandTo(r, k)))))
    case Unary(u, x) => Munch(UnaryTok(u), OperandTo(x, k))
    case CastExpr(ty, x) => CastTo(ty, OperandTo(x, k))
    case Binary(op, l, r) => OperandTo(l, Cons(Op(Symbol(op)), OperandTo(r, k)))
    case AssignExpr(l, r) => OperandTo(l, Cons(Equals, OperandTo(r, k)))
    case Lshr(l, r, cast) =>
      var shift := ParenTo(l, Cons(Op(Shr), ParenTo(r, k)));
      if cast.Some? then CastTo(cast.value, shift) else shift
  }

  function ParenTo(e: Expr, k: Toks): Toks
    requires Valid(e)
    decreases e, 1
  {
    Cons(LParen, TextTo(e, Cons(RParen, k)))
  }

  function OperandTo(e: Expr, k: Toks): Toks
    requires Valid(e)
    decreases e, 2
  {
    if IsSimple(e) then TextTo(e, k) else ParenTo(e, k)
  }

  function ConditionTo(c: Expr, negate: bool, k: Toks): Toks
    requires Valid(c)
    decreases c, 3
  {
    if negate then Cons(Bang, Cons(LParen, OperandTo(c, Cons(RParen, k)))) else OperandTo(c, k)
  }

  function ParamsTo(ps: seq<Expr>, i: nat, k: Toks): Toks
    requires i <= |ps| && forall j :: 0 <= j < |ps| ==> Valid(ps[j])
    decreases ps, |ps| - i
  {
    if i == |ps| then k
    else
      var rest := TextTo(ps[i], ParamsTo(ps, i + 1, k));
      if i > 0 then Cons(Comma, rest) else rest
  }

  // ----- lexing what is written -----

  lemma {:induction false} LexTok(t: Tok, ps: seq<Piece>)
    requires !Merge(t) && !t.Num?
    ensures Lex([P(t)] + ps) == Cons(t, Lex(ps))
  {
    assert ([P(t)] + ps)[1..] == ps;
  }

  lemma {:induction false} LexTwo(t: Tok, u: Tok, ps: seq<Piece>)
    requires !Merge(t) && !t.Num? && !Merge(u) && !u.Num?
    ensures Lex([P(t), P(u)] + ps) == Cons(t, Cons(u, Lex(ps)))
  {
    assert [P(t), P(u)] + ps == [P(t)] + ([P(u)] + ps);
    LexTok(t, [P(u)] + ps);
    LexTok(u, ps);
  }

  lemma {:induction false} LexSpaced(t: Tok, ps: seq<Piece>)
    ensures Lex(Spaced(t) + ps) == Cons(t, Lex(ps))
  {
    var all := Spaced(t) + ps;
    assert all[1..][1..] == [Space] + ps && ([Space] + ps)[1..] == ps;
    assert Lex([Space] + ps) == Lex(ps);
  }

  lemma {:induction false} LexCast(ty: string, ps: seq<Piece>)
    ensures Lex(CastText(ty) + ps) == CastTo(ty, Lex(ps))
  {
    assert CastText(ty) + ps == [P(LParen)] + ([P(TypeName(ty))] + ([P(RParen)] + ps));
    LexTok(LParen, [P(TypeName(ty))] + ([P(RParen)] + ps));
    LexTok(TypeName(ty), [P(RParen)] + ps);
    LexTok(RParen, ps);
  }

  /** A member access follows its operand without a space. */
  predicate Follows(ps: seq<Piece>) {
    && (ps != [] && ps[0].Space? ==> !StartsDot(Lex(ps)))
    && (ps != [] && ps[0] == P(Dot) ==> |ps| > 1 && ps[1].P? && ps[1].t.Id?)
  }

  lemma {:induction false} LexNumber(n: nat, ps: seq<Piece>)
    requires Follows(ps)
    ensures Lex([P(Num(n))] + ps) == NumTo(n, Lex(ps))
  {
    var all := [P(Num(n))] + ps;
    assert all[1..] == ps;
    if ps != [] && ps[0] == P(Dot) {
      assert all[3..] == ps[2..] && ps[1..][1..] == ps[2..];
      assert Lex(ps) == Cons(Dot, Cons(ps[1].t, Lex(ps[2..])));
    }
  }

  lemma {:induction false} LexSign(t: Tok, ps: seq<Piece>)
    requires Merge(t) && ps != [] && ps[0].P? && ps[0].t != t
    ensures Lex([P(t)] + ps) == Cons(t, Lex(ps))
  {
    assert ([P(t)] + ps)[1..] == ps;
  }

  /** How an operand begins: with a token, and after a sign with a number or a name. */
  lemma {:induction false} OperandBegins(e: Expr)
    requires Valid(e)
    ensures |Operand(e)| > 0 && Operand(e)[0].P?
    ensures Merge(Operand(e)[0].t) ==> |Operand(e)| > 1 && Operand(e)[1].P? && (Operand(e)[1].t.Num? || Operand(e)[1].t.Id?)
    decreases e
  {
    if e.CallExpr? {
      OperandBegins(e.callee);
    }
  }

  lemma {:induction false} LexPrefix(t: Tok, e: Expr, ps: seq<Piece>)
    requires Valid(e) && !t.Num?
    ensures Lex([P(t)] + (Operand(e) + ps)) == Munch(t, Lex(Operand(e) + ps))
  {
    OperandBegins(e);
    var rest := Operand(e) + ps;
    var all := [P(t)] + rest;
    assert all[1..] == rest && all[2..] == rest[1..];
  }

  lemma {:induction false} FollowsSpaced(t: Tok, ps: seq<Piece>)
    requires !t.Dot?
    ensures Follows(Spaced(t) + ps)
  {
    LexSpaced(t, ps);
  }

  lemma {:induction false} FourParts(a: seq<Piece>, b: seq<Piece>, c: seq<Piece>, d: seq<Piece>)
    ensures a + b + c + d == a + (b + (c + d))
  {
    Assoc(a + b, c, d);
    Assoc(a, b, c + d);
  }

  lemma {:induction false} FiveParts(a: seq<Piece>, b: seq<Piece>, c: seq<Piece>, d: seq<Piece>, e: seq<Piece>)
    ensures a + b + c + d + e == a + (b + (c + (d + e)))
  {
    Assoc(a + b + c, d, e);
    FourParts(a, b, c, d + e);
  }

  lemma {:induction false} ManyParts(a: seq<Piece>, b: seq<Piece>, c: seq<Piece>, d: seq<Piece>, e: seq<Piece>, f: seq<Piece>,
                                     g: seq<Piece>, h: seq<Piece>, i: seq<Piece>)
    ensures a + b + c + d + e + f + g + h + i == a + (b + (c + (d + (e + (f + (g + (h + i)))))))
  {
    Assoc(a + b + c + d + e + f + g, h, i);
    Assoc(a + b + c + d + e + f, g, h + i);
    Assoc(a + b + c + d + e, f, g + (h + i));
    Assoc(a + b + c + d, e, f + (g + (h + i)));
    Assoc(a + b + c, d, e + (f + (g + (h + i))));
    Assoc(a + b, c, d + (e + (f + (g + (h + i)))));
    Assoc(a, b, c + (d + (e + (f + (g + (h + i))))));
  }

  /** The tokens of a text, followed by anything a text can be followed by. */
  lemma {:induction false} LexText(e: Expr, rest: seq<Piece>)
    requires Valid(e) && Follows(rest)
    ensures Lex(Text(e) + rest) == TextTo(e, Lex(rest))
    decreases e, 0
  {
    match e
    case Value(v) => LexValue(v, rest);
    case Member(x, name, pointer) =>
      var tail := [P(if pointer then Arrow else Dot), P(Id(name))];
      Assoc(Operand(x), tail, rest);
      LexTwo(tail[0].t, tail[1].t, rest);
      LexOperand(x, tail + rest);
    case Element(x, i) => LexElement(x, i, rest);
    case Last(es) => LexText(es[|es| - 1], rest);
    case CallExpr(f, ps) => LexCall(f, ps, rest);
    case PointerShift(_, _, _) => LexShift(e, rest);
    case Select(_, _, _, _) => LexSelect(e, rest);
    case Unary(u, x) =>
      LexOperand(x, rest);
      Assoc([P(UnaryTok(u))], Operand(x), rest);
      LexPrefix(UnaryTok(u), x, rest);
    case CastExpr(ty, x) =>
      LexOperand(x, rest);
      Assoc(CastText(ty), Operand(x), rest);
      LexCast(ty, Operand(x) + rest);
    case Binary(op, l, r) => LexPair(l, Op(Symbol(op)), r, rest, e);
    case AssignExpr(l, r) => LexPair(l, Equals, r, rest, e);
    case Lshr(_, _, _) => LexLshr(e, rest);
  }

  /** A sign or an address operator and what it applies to. */
  lemma {:induction false} LexSigned(t: Tok, u: Tok, rest: seq<Piece>)
    requires Merge(t) && u != t
    ensures Lex([P(t), P(u)] + rest) == Cons(t, Lex([P(u)] + rest))
  {
    assert [P(t), P(u)] + rest == [P(t)] + ([P(u)] + rest);
    LexSign(t, [P(u)] + rest);
  }

  lemma {:induction false} LexValue(v: Leaf, rest: seq<Piece>)
    requires Follows(rest)
    ensures Lex(Text(Value(v)) + rest) == TextTo(Value(v), Lex(rest))
  {
    match v
    case Name(x) => LexTok(Id(x), rest);
    case Number(n) => LexNumber(n, rest);
    case Negative(n) =>
      LexNumber(n, rest);
      LexSigned(Op(Sub), Num(n), rest);
    case Address(x) =>
      LexTok(Id(x), rest);
      LexSigned(Op(BitAnd), Id(x), rest);
  }

  lemma {:induction false} LexOperand(e: Expr, rest: seq<Piece>)
    requires Valid(e) && Follows(rest)
    ensures Lex(Operand(e) + rest) == OperandTo(e, Lex(rest))
    decreases e, 2
  {
    if IsSimple(e) {
      LexText(e, rest);
    } else {
      LexParen(e, rest);
    }
  }

  lemma {:induction false} LexParen(e: Expr, rest: seq<Piece>)
    requires Valid(e)
    ensures Lex([P(LParen)] + Text(e) + [P(RParen)] + rest) == ParenTo(e, Lex(rest))
    decreases e, 1
  {
    LexTok(RParen, rest);
    LexText(e, [P(RParen)] + rest);
    FourParts([P(LParen)], Text(e), [P(RParen)], rest);
    LexTok(LParen, Text(e) + ([P(RParen)] + rest));
  }

  lemma {:induction false} LexElement(x: Expr, i: Expr, rest: seq<Piece>)
    requires Valid(x) && Valid(i)
    ensures Lex(Text(Element(x, i)) + rest) == TextTo(Element(x, i), Lex(rest))
    decreases Element(x, i), 0, 0
  {
    var r3 := [P(RBracket)] + rest;
    var r2 := Text(i) + r3;
    var r1 := [P(LBracket)] + r2;
    LexTok(RBracket, rest);
    LexText(i, r3);
    LexTok(LBracket, r2);
    LexOperand(x, r1);
    FiveParts(Operand(x), [P(LBracket)], Text(i), [P(RBracket)], rest);
  }

  lemma {:induction false} LexComma(ps: seq<Piece>)
    ensures Lex([P(Comma), Space] + ps) == Cons(Comma, Lex(ps))
  {
    assert [P(Comma), Space] + ps == [P(Comma)] + ([Space] + ps);
    LexTok(Comma, [Space] + ps);
    assert ([Space] + ps)[1..] == ps;
  }

  lemma {:induction false} LexParams(ps: seq<Expr>, i: nat, rest: seq<Piece>)
    requires i <= |ps| && (forall j :: 0 <= j < |ps| ==> Valid(ps[j])) && rest != [] && rest[0] == P(RParen)
    ensures Lex(Params(ps, i) + rest) == ParamsTo(ps, i, Lex(rest))
    decreases ps, |ps| - i
  {
    if i < |ps| {
      var more := Params(ps, i + 1) + rest;
      var comma := if i > 0 then [P(Comma), Space] else [];
      LexParams(ps, i + 1, rest);
      ParamsFollow(ps, i + 1, rest);
      LexText(ps[i], more);
      FourParts(comma, Text(ps[i]), Params(ps, i + 1), rest);
      if i > 0 {
        LexComma(Text(ps[i]) + more);
      } else {
        assert comma + (Text(ps[i]) + more) == Text(ps[i]) + more;
      }
    } else {
      assert Params(ps, i) + rest == rest;
    }
  }

  lemma {:induction false} ParamsFollow(ps: seq<Expr>, i: nat, rest: seq<Piece>)
    requires 0 < i <= |ps| && (forall j :: 0 <= j < |ps| ==> Valid(ps[j])) && rest != [] && rest[0] == P(RParen)
    ensures Follows(Params(ps, i) + rest)
  {
    if i == |ps| {
      assert Params(ps, i) + rest == rest;
    }
  }

  lemma {:induction false} LexCall(f: Expr, ps: seq<Expr>, rest: seq<Piece>)
    requires Valid(CallExpr(f, ps))
    ensures Lex(Text(CallExpr(f, ps)) + rest) == TextTo(CallExpr(f, ps), Lex(rest))
    decreases CallExpr(f, ps), 0, 0
  {
    var r3 := [P(RParen)] + rest;
    var r2 := Params(ps, 0) + r3;
    var r1 := [P(LParen)] + r2;
    LexTok(RParen, rest);
    LexParams(ps, 0, r3);
    LexTok(LParen, r2);
    LexOperand(f, r1);
    FiveParts(Operand(f), [P(LParen)], Params(ps, 0), [P(RParen)], rest);
  }

  lemma {:induction false} LexPair(l: Expr, t: Tok, r: Expr, rest: seq<Piece>, e: Expr)
    requires e == AssignExpr(l, r) || (e.Binary? && e.l == l && e.r == r)
    requires Valid(l) && Valid(r) && Follows(rest) && !t.Dot?
    ensures Lex(Operand(l) + Spaced(t) + Operand(r) + rest) == OperandTo(l, Cons(t, OperandTo(r, Lex(rest))))
    decreases e, 0, 0
  {
    var r2 := Operand(r) + rest;
    LexOperand(r, rest);
    LexSpaced(t, r2);
    FollowsSpaced(t, r2);
    LexOperand(l, Spaced(t) + r2);
    FourParts(Operand(l), Spaced(t), Operand(r), rest);
  }

  lemma {:induction false} LexCondition(c: Expr, negate: bool, rest: seq<Piece>)
    requires Valid(c) && Follows(rest)
    ensures Lex(Condition(c, negate) + rest) == ConditionTo(c, negate, Lex(rest))
    decreases c, 3
  {
    if negate {
      var r2 := [P(RParen)] + rest;
      LexTok(RParen, rest);
      LexOperand(c, r2);
      FourParts([P(Bang), P(LParen)], Operand(c), [P(RParen)], rest);
      LexTwo(Bang, LParen, Operand(c) + r2);
    } else {
      LexOperand(c, rest);
    }
  }

  lemma {:induction false} SelectParts(c: seq<Piece>, l: seq<Piece>, r: seq<Piece>, rest: seq<Piece>)
    ensures c + Spaced(Question) + l + Spaced(Colon) + r + rest
            == c + (Spaced(Question) + (l + (Spaced(Colon) + (r + rest))))
  {
    Assoc(c + Spaced(Question) + l + Spaced(Colon), r, rest);
    FiveParts(c, Spaced(Question), l, Spaced(Colon), r + rest);
  }

  lemma {:induction false} LexSelect(e: Expr, rest: seq<Piece>)
    requires Valid(e) && e.Select? && Follows(rest)
    ensures Lex(Text(e) + rest) == TextTo(e, Lex(rest))
    decreases e, 0, 0
  {
    var r4 := Operand(e.r) + rest;
    var r3 := Spaced(Colon) + r4;
    var r2 := Operand(e.l) + r3;
    var r1 := Spaced(Question) + r2;
    LexOperand(e.r, rest);
    LexSpaced(Colon, r4);
    FollowsSpaced(Colon, r4);
    LexOperand(e.l, r3);
    LexSpaced(Question, r2);
    FollowsSpaced(Question, r2);
    LexCondition(e.comp, e.negate, r1);
    FiveParts(Spaced(Question), Operand(e.l), Spaced(Colon), Operand(e.r), rest);
    SelectParts(Condition(e.comp, e.negate), Operand(e.l), Operand(e.r), rest);
  }

  lemma {:induction false} LexShift(e: Expr, rest: seq<Piece>)
    requires Valid(e) && e.PointerShift? && Follows(rest)
    ensures Lex(Text(e) + rest) == TextTo(e, Lex(rest))
    decreases e, 0, 0
  {
    if IsZero(e.move) {
      LexText(e.p, rest);
    } else {
      var r4 := [P(RParen)] + rest;
      var r3 := Operand(e.move) + r4;
      var r2 := [P(RParen)] + (Spaced(Op(Add)) + r3);
      var r1 := [P(LParen)] + Text(e.p) + [P(RParen)] + r2;
      var r0 := CastText(e.ty) + r1;
      LexTok(RParen, rest);
      LexOperand(e.move, r4);
      LexSpaced(Op(Add), r3);
      LexTok(RParen, Spaced(Op(Add)) + r3);
      LexParen(e.p, r2);
      LexCast(e.ty, r1);
      LexTwo(LParen, LParen, r0);
      LexTok(Op(Mul), [P(LParen), P(LParen)] + r0);
      ShiftText(e, rest, r3, r1);
    }
  }

  lemma {:induction false} ShiftText(e: Expr, rest: seq<Piece>, r3: seq<Piece>, r1: seq<Piece>)
    requires Valid(e) && e.PointerShift? && !IsZero(e.move)
    requires r3 == Operand(e.move) + ([P(RParen)] + rest)
    requires r1 == [P(LParen)] + Text(e.p) + [P(RParen)] + ([P(RParen)] + (Spaced(Op(Add)) + r3))
    ensures Text(e) + rest == [P(Op(Mul))] + ([P(LParen), P(LParen)] + (CastText(e.ty) + r1))
  {
    var a := [P(Op(Mul)), P(LParen), P(LParen)];
    var c, t, m := CastText(e.ty), Text(e.p), Operand(e.move);
    assert r1 == [P(LParen)] + (t + ([P(RParen), P(RParen)] + (Spaced(Op(Add)) + r3)));
    assert Text(e) == a + c + [P(LParen)] + t + [P(RParen), P(RParen)] + Spaced(Op(Add)) + m + [P(RParen)];
    ManyParts(a, c, [P(LParen)], t, [P(RParen), P(RParen)], Spaced(Op(Add)), m, [P(RParen)], rest);
    assert a + (c + r1) == [P(Op(Mul))] + ([P(LParen), P(LParen)] + (c + r1));
  }

  lemma {:induction false} LexLshr(e: Expr, rest: seq<Piece>)
    requires Valid(e) && e.Lshr?
    ensures Lex(Text(e) + rest) == TextTo(e, Lex(rest))
    decreases e, 0, 0
  {
    var r2 := [P(LParen)] + Text(e.r) + [P(RParen)] + rest;
    var r1 := [P(LParen)] + Text(e.l) + [P(RParen)] + (Spaced(Op(Shr)) + r2);
    LexParen(e.r, rest);
    LexSpaced(Op(Shr), r2);
    LexParen(e.l, Spaced(Op(Shr)) + r2);
    var c := if e.cast.Some? then CastText(e.cast.value) else [];
    ManyParts(c, [P(LParen)], Text(e.l), [P(RParen)], Spaced(Op(Shr)), [P(LParen)], Text(e.r), [P(RParen)], rest);
    FourParts([P(LParen)], Text(e.r), [P(RParen)], rest);
    FourParts([P(LParen)], Text(e.l), [P(RParen)], Spaced(Op(Shr)) + r2);
    assert Text(e) + rest == c + r1;
    if e.cast.Some? {
      LexCast(e.cast.value, r1);
    } else {
      assert c + r1 == r1;
    }
  }
}
