/** Arithmetic of 8 and 16 bits. C promotes its operands to `int` and does not come back: a sum or a product
    keeps bits that the IR drops, until a cast drops them. This module says exactly when an expression with
    the sign casts, and all its parts, are nevertheless the numbers of the IR. */
module NarrowArithmetic {
  import opened CIntegers
  import opened ModularArithmetic
  import opened SignCasts

  const INT := IntType(W32, false)

  lemma {:induction false} WithCastsUniform(t: Tree)
    requires Uniform(t)
    ensures Uniform(WithCasts(t))
  {
    if !t.kind.Other? {
      forall i | 0 <= i < |t.kids|
        ensures var o := WithCasts(t).kids[i]; Uniform(o) && !o.kind.Cmp? && o.ty.width == t.ty.width
      {
        WithCastsUniform(t.kids[i]);
      }
    }
  }

  ghost function CValueOf(t: Tree, env: Env): Option<CValue>
    requires Uniform(t)
  {
    WithCastsUniform(t);
    UniformShaped(WithCasts(t));
    CEval(WithCasts(t), env)
  }

  /** C has the IR's number, where the IR has one. */
  ghost predicate Right(t: Tree, env: Env)
    requires Uniform(t) && !t.kind.Cmp?
  {
    var b := Llvm(t, env);
    b.Some? ==> CValueOf(t, env).Some? && CValueOf(t, env).value.v == Interpret(b.value, t.ty)
  }

  // ----- promoted operands -----

  lemma {:induction false} NarrowPromotes(t: Tree, env: Env)
    requires Uniform(t) && !t.kind.Cmp? && !IsWide(t.ty.width)
    ensures Shaped(t) && (CEval(t, env).Some? ==> Promote(CEval(t, env).value.ty) == INT)
  {
    UniformShaped(t);
    if t.kind.Arith? || t.kind.Bitwise? || t.kind.Shl? {
      NarrowPromotes(t.kids[0], env);
      NarrowPromotes(t.kids[1], env);
    }
  }

  predicate Small(v: int) {
    -0x8000 <= v < 0x1_0000
  }

  lemma {:induction false} NarrowIsSmall(b: nat, ty: IntType)
    requires !IsWide(ty.width) && b < Modulus(ty.width)
    ensures Small(Interpret(b, ty))
  {
  }

  lemma {:induction false} BothInInt(c: CValue, d: CValue)
    requires Promote(c.ty) == INT && Promote(d.ty) == INT && Small(c.v) && Small(d.v)
    ensures Common(c.ty, d.ty) == INT && Convert(c, INT) == CValue(INT, c.v) && Convert(d, INT) == CValue(INT, d.v)
  {
    ConvertFits(c, INT);
    ConvertFits(d, INT);
  }

  // ----- arithmetic -----

  /** An unsigned operation whose result needs no more bits than its operands; of signed ones the IR says so. */
  predicate NoWrap(op: ArithOp, unsigned: bool, m: int, a: int, b: int) {
    unsigned ==> match op
      case Add => a + b < m
      case Sub => b <= a
      case Mul => a * b < m
      case _ => true
  }

  lemma {:induction false} SmallQuotients(x: int, y: int)
    requires y != 0 && Small(x) && Small(y)
    ensures Fits(Quotient(x, y), INT) && Fits(Remainder(x, y), INT)
    ensures x >= 0 && y > 0 ==> 0 <= Quotient(x, y) <= x && 0 <= Remainder(x, y) <= x
  {
    var a, b := Magnitude(x), Magnitude(y);
    QuotientBound(a, b);
    RemainderValue(x, y);
    assert 0 <= a / b <= a && 0 <= a % b <= a <= 0x1_0000;
  }

  /** Done in `int`: the exact result, if `int` has it. */
  lemma {:induction false} InInt(op: ArithOp, c: CValue, d: CValue)
    requires Promote(c.ty) == INT && Promote(d.ty) == INT && Small(c.v) && Small(d.v)
    ensures CArith(op, c, d) == match Exact(op, c.v, d.v) {
              case None => None
              case Some(v) => if Fits(v, INT) then Some(CValue(INT, v)) else None
            }
  {
    BothInInt(c, d);
    if d.v != 0 {
      SmallQuotients(c.v, d.v);
    }
  }

  lemma {:induction false} ProductPositive(a: nat, b: nat)
    ensures a * b >= 0
  {
  }

  /** What the IR's operation gives, by its exact result. */
  lemma {:induction false} LlvmExact(op: ArithOp, unsigned: bool, w: Width, a: nat, b: nat)
    requires !IsWide(w) && a < Modulus(w) && b < Modulus(w)
    ensures var ty := IntType(w, unsigned);
            var v, r := Exact(op, Interpret(a, ty), Interpret(b, ty)), LlvmArith(op, unsigned, w, a, b);
            r.Some? ==> && v.Some?
                        && (Interpret(r.value, ty) == v.value <==> Fits(v.value, ty))
                        && (!unsigned ==> Fits(v.value, ty))
                        && (Fits(v.value, ty) ==> Fits(v.value, INT))
  {
    var ty := IntType(w, unsigned);
    var v := Exact(op, Interpret(a, ty), Interpret(b, ty));
    if v.Some? && Fits(v.value, ty) {
      ValueOfBits(v.value, ty);
    }
    if v.Some? {
      InterpretFits(Bits(v.value, w), ty);
    }
  }

  lemma {:induction false} FitsIsNoWrap(op: ArithOp, w: Width, a: nat, b: nat)
    requires !IsWide(w) && a < Modulus(w) && b < Modulus(w) && Exact(op, a, b).Some?
    ensures Fits(Exact(op, a, b).value, IntType(w, true)) <==> NoWrap(op, true, Modulus(w), a, b)
  {
    ProductPositive(a, b);
    if op.Div? || op.Rem? {
      SmallQuotients(a, b);
    }
  }

  /** One operation on the IR's numbers: right exactly if it does not wrap. */
  lemma {:induction false} ArithExact(op: ArithOp, unsigned: bool, w: Width, a: nat, b: nat, c: CValue, d: CValue)
    requires !IsWide(w) && a < Modulus(w) && b < Modulus(w) && LlvmArith(op, unsigned, w, a, b).Some?
    requires Promote(c.ty) == INT && Promote(d.ty) == INT
    requires c.v == Interpret(a, IntType(w, unsigned)) && d.v == Interpret(b, IntType(w, unsigned))
    ensures var r := LlvmArith(op, unsigned, w, a, b).value;
            (CArith(op, c, d).Some? && CArith(op, c, d).value.v == Interpret(r, IntType(w, unsigned)))
            <==> NoWrap(op, unsigned, Modulus(w), a, b)
  {
    NarrowIsSmall(a, IntType(w, unsigned));
    NarrowIsSmall(b, IntType(w, unsigned));
    InInt(op, c, d);
    LlvmExact(op, unsigned, w, a, b);
    if unsigned {
      FitsIsNoWrap(op, w, a, b);
    }
  }

  // ----- bitwise operations -----

  predicate Bit(op: BitOp, p: bool, q: bool) {
    match op
    case And => p && q
    case Or => p || q
    case Xor => p != q
  }

  /** Digits `n` to `n + j - 1`, all one. */
  function Fill(on: bool, n: nat, j: nat): (f: int) {
    if on then Pow2(n + j) - Pow2(n) else 0
  }

  lemma {:induction false} FillHalf(on: bool, n: nat, j: nat)
    requires n > 0
    ensures Fill(on, n, j) == 2 * Fill(on, n - 1, j) && Fill(on, n, j) >= 0 && Fill(on, n - 1, j) >= 0
    decreases j
  {
    if j > 0 {
      FillHalf(on, n, j - 1);
    }
  }

  lemma {:induction false} LastDigit(op: BitOp, a: nat, b: nat, n: nat, c: nat, d: nat, p: bool, q: bool)
    requires n > 0 && a == 2 * c + (if p then 1 else 0) && b == 2 * d + (if q then 1 else 0)
    ensures BitwiseDigits(op, a, b, n) == 2 * BitwiseDigits(op, c, d, n - 1) + if Bit(op, p, q) then 1 else 0
  {
    assert a / 2 == c && b / 2 == d && a % 2 == (if p then 1 else 0) && b % 2 == (if q then 1 else 0);
  }

  lemma {:induction false} FillNext(on: bool, j: nat)
    requires j > 0
    ensures Fill(on, 0, j) == 2 * Fill(on, 0, j - 1) + if on then 1 else 0
  {
  }

  lemma {:induction false} OnlyFill(op: BitOp, p: bool, q: bool, j: nat)
    ensures Fill(p, 0, j) >= 0 && Fill(q, 0, j) >= 0
    ensures BitwiseDigits(op, Fill(p, 0, j), Fill(q, 0, j), j) == Fill(Bit(op, p, q), 0, j)
  {
    if j > 0 {
      OnlyFill(op, p, q, j - 1);
      FillNext(p, j);
      FillNext(q, j);
      FillNext(Bit(op, p, q), j);
      LastDigit(op, Fill(p, 0, j), Fill(q, 0, j), j, Fill(p, 0, j - 1), Fill(q, 0, j - 1), p, q);
    }
  }

  lemma {:induction false} NothingExtended(op: BitOp, a: nat, b: nat, j: nat, p: bool, q: bool)
    requires a < Pow2(0) && b < Pow2(0)
    ensures Fill(p, 0, j) >= 0 && Fill(q, 0, j) >= 0
    ensures BitwiseDigits(op, a + Fill(p, 0, j), b + Fill(q, 0, j), j) == BitwiseDigits(op, a, b, 0) + Fill(Bit(op, p, q), 0, j)
  {
    OnlyFill(op, p, q, j);
    assert a == 0 && b == 0 && BitwiseDigits(op, a, b, 0) == 0;
  }

  ghost predicate ExtendsTo(op: BitOp, a: nat, b: nat, n: nat, j: nat, p: bool, q: bool) {
    && Fill(p, n, j) >= 0 && Fill(q, n, j) >= 0
    && BitwiseDigits(op, a + Fill(p, n, j), b + Fill(q, n, j), n + j) == BitwiseDigits(op, a, b, n) + Fill(Bit(op, p, q), n, j)
  }

  lemma {:induction false} ExtendsNext(op: BitOp, a: nat, b: nat, n: nat, j: nat, p: bool, q: bool)
    requires n > 0 && ExtendsTo(op, a / 2, b / 2, n - 1, j, p, q)
    ensures ExtendsTo(op, a, b, n, j, p, q)
  {
    FillHalf(p, n, j);
    FillHalf(q, n, j);
    FillHalf(Bit(op, p, q), n, j);
    DoubleDigits(op, a, b, n, j, Fill(p, n, j), Fill(q, n, j), Fill(Bit(op, p, q), n, j),
                 Fill(p, n - 1, j), Fill(q, n - 1, j), Fill(Bit(op, p, q), n - 1, j));
  }

  /** Bitwise operations on extended operands give the extended result. */
  lemma {:induction false} Extended(op: BitOp, a: nat, b: nat, n: nat, j: nat, p: bool, q: bool)
    requires a < Pow2(n) && b < Pow2(n)
    ensures ExtendsTo(op, a, b, n, j, p, q)
    decreases n
  {
    if n == 0 {
      NothingExtended(op, a, b, j, p, q);
    } else {
      HalfBelow(a, n);
      HalfBelow(b, n);
      Extended(op, a / 2, b / 2, n - 1, j, p, q);
      ExtendsNext(op, a, b, n, j, p, q);
    }
  }

  lemma {:induction false} HalfBelow(a: nat, n: nat)
    requires n > 0 && a < Pow2(n)
    ensures a / 2 < Pow2(n - 1)
  {
  }

  lemma {:induction false} DoubleDigits(op: BitOp, a: nat, b: nat, n: nat, j: nat, f: nat, h: nat, r: int, f': nat, h': nat, r': int)
    requires n > 0 && f == 2 * f' && h == 2 * h' && r == 2 * r'
    requires BitwiseDigits(op, a / 2 + f', b / 2 + h', n - 1 + j) == BitwiseDigits(op, a / 2, b / 2, n - 1) + r'
    ensures BitwiseDigits(op, a + f, b + h, n + j) == BitwiseDigits(op, a, b, n) + r
  {
    var x, y := a % 2 == 1, b % 2 == 1;
    LastDigit(op, a, b, n, a / 2, b / 2, x, y);
    LastDigit(op, a + f, b + h, n + j, a / 2 + f', b / 2 + h', x, y);
  }

  lemma {:induction false} TopDigit(op: BitOp, a: nat, b: nat, n: nat)
    requires n > 0 && a < Pow2(n) && b < Pow2(n)
    ensures BitwiseDigits(op, a, b, n) >= Pow2(n - 1) <==> Bit(op, a >= Pow2(n - 1), b >= Pow2(n - 1))
  {
    if n == 1 {
      assert BitwiseDigits(op, a / 2, b / 2, 0) == 0;
    } else {
      TopDigit(op, a / 2, b / 2, n - 1);
    }
  }

  /** A narrow number, as 32 bits. */
  lemma {:induction false} SignExtended(a: nat, ty: IntType)
    requires !IsWide(ty.width) && a < Modulus(ty.width)
    ensures var n := Digits(ty.width);
            && n < 32 && Pow2(n) == Modulus(ty.width) && Pow2(n - 1) == Modulus(ty.width) / 2 && Pow2(32) == Modulus(W32)
            && Bits(Interpret(a, ty), W32) == a + Fill(Interpret(a, ty) < 0, n, 32 - n)
  {
    Pow2Values();
    SmallRemainder(Interpret(a, ty), Modulus(W32));
  }

  lemma {:induction false} BitwiseBits(op: BitOp, s: IntType, a: nat, t: IntType, b: nat)
    requires !IsWide(s.width) && t.width == s.width && a < Modulus(s.width) && b < Modulus(s.width)
    ensures var x, y, n := Interpret(a, s), Interpret(b, t), Digits(s.width);
            n < 32 && BitwiseValue(op, Bits(x, W32), Bits(y, W32), W32)
                      == BitwiseValue(op, a, b, s.width) + Fill(Bit(op, x < 0, y < 0), n, 32 - n)
  {
    var n := Digits(s.width);
    var p, q := Interpret(a, s) < 0, Interpret(b, t) < 0;
    SignExtended(a, s);
    SignExtended(b, t);
    Extended(op, a, b, n, 32 - n, p, q);
    assert n + (32 - n) == 32;
  }

  lemma {:induction false} FillInterpreted(r: nat, w: Width, on: bool)
    requires !IsWide(w) && r < Modulus(w)
    ensures Digits(w) < 32
    ensures var v := r + Fill(on, Digits(w), 32 - Digits(w));
            0 <= v < Modulus(W32) && Interpret(v, INT) == if on then r - Modulus(w) else r
  {
    Pow2Values();
  }

  /** Two narrow numbers under a bitwise operation in `int`: the digits of the IR, negative if the
      operation makes the signs so. */
  lemma {:induction false} BitwiseInInt(op: BitOp, s: IntType, a: nat, t: IntType, b: nat, c: CValue, d: CValue)
    requires !IsWide(s.width) && t.width == s.width && a < Modulus(s.width) && b < Modulus(s.width)
    requires Promote(c.ty) == INT && Promote(d.ty) == INT && c.v == Interpret(a, s) && d.v == Interpret(b, t)
    ensures var r := BitwiseValue(op, a, b, s.width);
            CBitwise(op, c, d).v == if Bit(op, c.v < 0, d.v < 0) then r - Modulus(s.width) else r
  {
    NarrowIsSmall(a, s);
    NarrowIsSmall(b, t);
    BothInInt(c, d);
    BitwiseBits(op, s, a, t, b);
    FillInterpreted(BitwiseValue(op, a, b, s.width), s.width, Bit(op, c.v < 0, d.v < 0));
  }

  /** A signed operand on the right of an unsigned one must not be negative, unless for `&`. */
  predicate NoMix(op: BitOp, s: IntType, t: IntType, b: nat) {
    s == t || op.And? || b < Modulus(t.width) / 2
  }

  lemma {:induction false} BitwiseExact(op: BitOp, s: IntType, a: nat, t: IntType, b: nat, c: CValue, d: CValue)
    requires !IsWide(s.width) && t.width == s.width && a < Modulus(s.width) && b < Modulus(s.width) && (t.unsigned ==> s.unsigned)
    requires Promote(c.ty) == INT && Promote(d.ty) == INT && c.v == Interpret(a, s) && d.v == Interpret(b, t)
    ensures CBitwise(op, c, d).v == Interpret(BitwiseValue(op, a, b, s.width), s) <==> NoMix(op, s, t, b)
  {
    BitwiseInInt(op, s, a, t, b, c, d);
    SignExtended(a, s);
    SignExtended(b, t);
    TopDigit(op, a, b, Digits(s.width));
  }

  // ----- shifts -----

  /** An unsigned shift that loses no digit, or a signed one of a value that is not negative. */
  predicate NoLoss(unsigned: bool, w: Width, a: nat, b: nat) {
    if unsigned then a * Pow2(b) < Modulus(w) else a < Modulus(w) / 2
  }

  lemma {:induction false} SmallPower(b: nat)
    requires b < 16
    ensures Pow2(b) <= 0x8000
    decreases 16 - b
  {
    if b == 15 {
      Pow2Values();
    } else {
      SmallPower(b + 1);
    }
  }

  lemma {:induction false} ShiftedFits(a: int, b: nat)
    requires 0 <= a < 0x1_0000 && b < 16
    ensures 0 <= a * Pow2(b) < 0x8000_0000
  {
    SmallPower(b);
    var p := Pow2(b);
    assert 0 <= a * p;
    assert (0xFFFF - a) * p >= 0 && a * p == 0xFFFF * p - (0xFFFF - a) * p;
  }

  /** One shift, done in `int`: right exactly if nothing is lost. */
  lemma {:induction false} ShiftExact(unsigned: bool, w: Width, a: nat, b: nat, c: CValue, d: CValue)
    requires !IsWide(w) && a < Modulus(w) && b < Modulus(w) && LlvmShl(unsigned, w, a, b).Some?
    requires Promote(c.ty) == INT && Promote(d.ty) == INT
    requires c.v == Interpret(a, IntType(w, unsigned)) && d.v == Interpret(b, IntType(w, unsigned))
    ensures var r := LlvmShl(unsigned, w, a, b).value;
            (CShl(c, d).Some? && CShl(c, d).value.v == Interpret(r, IntType(w, unsigned))) <==> NoLoss(unsigned, w, a, b)
  {
    var ty := IntType(w, unsigned);
    NarrowIsSmall(a, ty);
    NarrowIsSmall(b, ty);
    BothInInt(c, d);
    ShiftCount(b, ty);
    if c.v >= 0 {
      ShiftedFits(c.v, b);
      ShiftedNumber(unsigned, w, a, b);
    }
  }

  lemma {:induction false} BitsBelow(v: nat, w: Width)
    ensures Bits(v, w) == v <==> v < Modulus(w)
  {
    if v < Modulus(w) {
      SmallRemainder(v, Modulus(w));
    }
  }

  lemma {:induction false} ShiftedNumber(unsigned: bool, w: Width, a: nat, b: nat)
    requires a < Modulus(w) && LlvmShl(unsigned, w, a, b).Some? && Interpret(a, IntType(w, unsigned)) >= 0
    ensures var v, r := a * Pow2(b), LlvmShl(unsigned, w, a, b).value;
            Interpret(r, IntType(w, unsigned)) == v <==> (unsigned ==> v < Modulus(w))
  {
    var p := Pow2(b);
    var v := a * p;
    assert v >= 0;
    if unsigned {
      BitsBelow(v, w);
    } else {
      assert SignedValue(a, w) == a;
      ValueOfBits(v, IntType(w, false));
    }
  }

  // ----- whole expressions -----

  ghost predicate RightEverywhere(t: Tree, env: Env)
    requires Uniform(t) && !t.kind.Cmp?
  {
    Right(t, env) && (!t.kind.Other? ==> forall i :: 0 <= i < |t.kids| ==> RightEverywhere(t.kids[i], env))
  }

  /** No unsigned operation wraps, no bitwise one mixes signs, and no shift loses anything, on the IR's
      values. */
  ghost predicate FitsEverywhere(t: Tree, env: Env)
    requires Uniform(t) && !t.kind.Cmp?
  {
    !t.kind.Other? ==>
      && (forall i :: 0 <= i < |t.kids| ==> FitsEverywhere(t.kids[i], env))
      && (Llvm(t, env).Some? ==> FitsHere(t, env))
  }

  ghost predicate FitsHere(t: Tree, env: Env)
    requires Uniform(t) && !t.kind.Cmp? && Llvm(t, env).Some?
  {
    match t.kind
    case Arith(op, unsigned) => NoWrap(op, unsigned, Modulus(t.ty.width), Llvm(t.kids[0], env).value, Llvm(t.kids[1], env).value)
    case Bitwise(op) => NoMix(op, t.ty, t.kids[1].ty, Llvm(t.kids[1], env).value)
    case Shl(unsigned) => NoLoss(unsigned, t.ty.width, Llvm(t.kids[0], env).value, Llvm(t.kids[1], env).value)
    case _ => true
  }

  /** An operand after the pass: the IR's number, read with the sign its parent wants. */
  lemma {:induction false} OperandRight(t: Tree, i: nat, env: Env)
    requires WellTyped(t) && !t.kind.Other? && i < |t.kids| && !IsWide(t.ty.width)
    requires Right(t.kids[i], env) && Llvm(t.kids[i], env).Some?
    ensures var o := KidOf(t.kind, WithCasts(t.kids[i]));
            var ty := if CastsKids(t.kind) then IntType(t.ty.width, t.kind.isUnsigned) else t.kids[i].ty;
            && Shaped(o) && CEval(o, env).Some? && Promote(CEval(o, env).value.ty) == INT
            && CEval(o, env).value.v == Interpret(Llvm(t.kids[i], env).value, ty)
  {
    var k := WithCasts(t.kids[i]);
    WithCastsUniform(t.kids[i]);
    NarrowPromotes(k, env);
    var b := Llvm(t.kids[i], env).value;
    BitsOfValue(b, t.kids[i].ty);
  }

  /** A binary node over operands with the IR's numbers. */
  lemma {:induction false} PairExact(t: Tree, env: Env, x: CValue, y: CValue, a: nat, b: nat)
    requires WellTyped(t) && !IsWide(t.ty.width) && (t.kind.Arith? || t.kind.Bitwise? || t.kind.Shl?) && Llvm(t, env).Some?
    requires Llvm(t.kids[0], env) == Some(a) && Llvm(t.kids[1], env) == Some(b)
    requires Promote(x.ty) == INT && x.v == Interpret(a, if CastsKids(t.kind) then IntType(t.ty.width, t.kind.isUnsigned) else t.kids[0].ty)
    requires Promote(y.ty) == INT && y.v == Interpret(b, if CastsKids(t.kind) then IntType(t.ty.width, t.kind.isUnsigned) else t.kids[1].ty)
    ensures var c := match t.kind { case Arith(op, _) => CArith(op, x, y) case Bitwise(op) => Some(CBitwise(op, x, y)) case _ => CShl(x, y) };
            (c.Some? && c.value.v == Interpret(Llvm(t, env).value, t.ty)) <==> FitsHere(t, env)
  {
    if t.kind.Arith? {
      ArithExact(t.kind.op, t.kind.isUnsigned, t.ty.width, a, b, x, y);
    } else if t.kind.Shl? {
      ShiftExact(t.kind.isUnsigned, t.ty.width, a, b, x, y);
    } else {
      BitwiseExact(t.kind.bit, t.ty, a, t.kids[1].ty, b, x, y);
    }
  }

  /** A node over right operands is right exactly if it fits. */
  lemma {:induction false} NodeExact(t: Tree, env: Env)
    requires WellTyped(t) && !t.kind.Other? && !t.kind.Cmp? && !IsWide(t.ty.width)
    requires forall i :: 0 <= i < |t.kids| ==> Right(t.kids[i], env)
    ensures Right(t, env) <==> (Llvm(t, env).Some? ==> FitsHere(t, env))
  {
    if Llvm(t, env).Some? {
      var c := WithCasts(t);
      WithCastsUniform(t);
      UniformShaped(c);
      OperandRight(t, 0, env);
      assert c.kids[0] == KidOf(t.kind, WithCasts(t.kids[0]));
      var a := Llvm(t.kids[0], env).value;
      if t.kind.Cast? {
        BitsOfValue(a, t.kids[0].ty);
      } else {
        OperandRight(t, 1, env);
        assert c.kids[1] == KidOf(t.kind, WithCasts(t.kids[1]));
        PairExact(t, env, CEval(c.kids[0], env).value, CEval(c.kids[1], env).value, a, Llvm(t.kids[1], env).value);
      }
    }
  }

  /** The main result: a narrow expression and all its parts are the IR's numbers in C exactly if nothing in
      it wraps, mixes signs, or is lost in a shift. */
  lemma {:induction false} NarrowRightExact(t: Tree, env: Env)
    requires WellTyped(t) && !t.kind.Cmp? && !IsWide(t.ty.width)
    ensures RightEverywhere(t, env) <==> FitsEverywhere(t, env)
  {
    if t.kind.Other? {
      assert WithCasts(t).kind == t.kind;
    } else {
      forall i | 0 <= i < |t.kids|
        ensures RightEverywhere(t.kids[i], env) <==> FitsEverywhere(t.kids[i], env)
      {
        NarrowRightExact(t.kids[i], env);
      }
      if forall i :: 0 <= i < |t.kids| ==> RightEverywhere(t.kids[i], env) {
        NodeExact(t, env);
      }
    }
  }

  /** A comparison of right operands is right. */
  lemma {:induction false} NarrowComparison(t: Tree, env: Env)
    requires WellTyped(t) && t.kind.Cmp? && !IsWide(t.ty.width)
    requires Right(t.kids[0], env) && Right(t.kids[1], env) && Llvm(t, env).Some?
    ensures CValueOf(t, env) == Truth(Llvm(t, env))
  {
    var c := WithCasts(t);
    OperandRight(t, 0, env);
    OperandRight(t, 1, env);
    assert c.kids[0] == KidOf(t.kind, WithCasts(t.kids[0])) && c.kids[1] == KidOf(t.kind, WithCasts(t.kids[1]));
    var x, y := CEval(c.kids[0], env).value, CEval(c.kids[1], env).value;
    NarrowIsSmall(Llvm(t.kids[0], env).value, IntType(t.ty.width, t.kind.isUnsigned));
    NarrowIsSmall(Llvm(t.kids[1], env).value, IntType(t.ty.width, t.kind.isUnsigned));
    BothInInt(x, y);
  }

  const BYTE := IntType(W8, true)

  function Byte(v: nat): Tree {
    Tree(Other(v, 0, 0), BYTE, [])
  }

  lemma {:induction false} ByteIs(v: nat, env: Env)
    requires env(v) < 256
    ensures WellTyped(Byte(v)) && WithCasts(Byte(v)) == Byte(v) && Shaped(Byte(v))
    ensures Llvm(Byte(v), env) == Some(env(v)) && CEval(Byte(v), env) == Some(CValue(BYTE, env(v)))
  {
    assert WithCasts(Byte(v)).kids == [];
  }

  /** The sum of two bytes, in C. */
  lemma {:induction false} ByteSum(env: Env, sum: Tree)
    requires env(0) == 255 && env(1) == 1 && sum == Tree(Arith(Add, true), BYTE, [Byte(0), Byte(1)])
    ensures WellTyped(sum) && WithCasts(sum) == sum && Shaped(sum)
    ensures Llvm(sum, env) == Some(0) && CEval(sum, env) == Some(CValue(INT, 256))
  {
    ByteIs(0, env);
    ByteIs(1, env);
    assert WithCasts(sum).kids == sum.kids;
    InInt(Add, CValue(BYTE, 255), CValue(BYTE, 1));
  }

  /** `(unsigned char)255 + (unsigned char)1 == 0`: true in the IR, false in C. */
  lemma {:induction false} SumNotWrapped(env: Env, t: Tree, sum: Tree)
    requires env(0) == 255 && env(1) == 1 && env(2) == 0
    requires sum == Tree(Arith(Add, true), BYTE, [Byte(0), Byte(1)]) && t == Tree(Cmp(Eq, true), BYTE, [sum, Byte(2)])
    ensures WellTyped(t) && Llvm(t, env) == Some(1) && CValueOf(t, env) == Some(CValue(INT, 0))
  {
    ByteSum(env, sum);
    ByteIs(2, env);
    assert WithCasts(t).kids == t.kids;
    BothInInt(CValue(INT, 256), CValue(BYTE, 0));
  }
}
