/** The casts emitted for `sext`, `zext` and `trunc`, and what they compute. */
module IntegerCasts {
  import opened CIntegers
  import opened ModularArithmetic

  datatype CType = Bool | Int(ty: IntType)

  /** The C type chosen for an LLVM integer type; signed types appear only through casts. */
  function GetType(bits: nat): CType
    requires 1 <= bits <= 64
  {
    if bits == 1 then Bool
    else if bits <= 8 then Int(IntType(W8, true))
    else if bits <= 16 then Int(IntType(W16, true))
    else if bits <= 32 then Int(IntType(W32, true))
    else Int(IntType(W64, true))
  }

  function SetSigned(ty: CType): CType {
    match ty
    case Bool => Bool
    case Int(t) => Int(t.(unsigned := false))
  }

  function SetUnsigned(ty: CType): CType {
    match ty
    case Bool => Bool
    case Int(t) => Int(t.(unsigned := true))
  }

  /** `Operand` is the translated operand; its type is whatever is recorded for it. */
  datatype Expr = Operand | Literal(c: int) | Cast(ty: CType, e: Expr) | Select(cond: Expr, l: Expr, r: Expr)

  /** Conversion to `_Bool` asks whether the value is zero; section 6.3.1.2. */
  function ConvertTo(v: int, ty: CType): int {
    match ty
    case Bool => if v != 0 then 1 else 0
    case Int(t) => Interpret(Bits(v, t.width), t)
  }

  function Eval(e: Expr, operand: int): int {
    match e
    case Operand => operand
    case Literal(c) => c
    case Cast(ty, x) => ConvertTo(Eval(x, operand), ty)
    case Select(c, l, r) => if Eval(c, operand) != 0 then Eval(l, operand) else Eval(r, operand)
  }

  // ----- what is emitted -----

  /** The operand is first cast to its own LLVM type, made signed, and then to the new type; a boolean
      selects. */
  function SExt(from: nat, to: nat): Expr
    requires 1 <= from < to <= 64
  {
    if from == 1 then Select(Operand, Literal(-1), Literal(0))
    else Cast(SetSigned(GetType(to)), Cast(SetSigned(GetType(from)), Operand))
  }

  function ZExt(from: nat, to: nat): Expr
    requires 1 <= from < to <= 64
  {
    Cast(SetUnsigned(GetType(to)), Cast(SetUnsigned(GetType(from)), Operand))
  }

  function Trunc(from: nat, to: nat): Expr
    requires 1 <= to < from <= 64
  {
    Cast(GetType(to), Operand)
  }

  // ----- LLVM -----

  /** The sign bit is copied into the new bits. */
  function SextBits(b: nat, from: nat, to: nat): int
    requires 1 <= from <= to && b < Pow2(from)
  {
    if b < Pow2(from - 1) then b else b + Pow2(to) - Pow2(from)
  }

  // ----- operands -----

  /** Widths that a C type has exactly. */
  predicate IsCWidth(bits: nat) {
    bits == 8 || bits == 16 || bits == 32 || bits == 64
  }

  function WidthOf(bits: nat): Width
    requires IsCWidth(bits)
  {
    if bits == 8 then W8 else if bits == 16 then W16 else if bits == 32 then W32 else W64
  }

  /** The number that an operand with bits `b` is in C: in its type's width, read with either sign. */
  function OperandValue(b: nat, bits: nat, unsigned: bool): int
    requires 1 <= bits <= 64 && b < Pow2(bits)
  {
    match GetType(bits)
    case Bool => b
    case Int(t) => Interpret(Bits(b, t.width), IntType(t.width, unsigned))
  }

  /** The bits of a result of a C width. */
  function ResultBits(e: Expr, operand: int, to: nat): nat
    requires IsCWidth(to)
  {
    Bits(Eval(e, operand), WidthOf(to))
  }

  lemma {:induction false} Pow2Grows(m: nat, n: nat)
    requires m < n
    ensures 2 * Pow2(m) <= Pow2(n)
    decreases n
  {
    if m < n - 1 {
      Pow2Grows(m, n - 1);
    }
  }

  // ----- agreement -----

  lemma {:induction false} WidthsMatch(bits: nat)
    requires IsCWidth(bits)
    ensures GetType(bits) == Int(IntType(WidthOf(bits), true))
    ensures Modulus(WidthOf(bits)) == Pow2(bits) && Modulus(WidthOf(bits)) / 2 == Pow2(bits - 1)
  {
    Pow2Values();
  }

  lemma {:induction false} SmallBits(b: nat, w: Width)
    requires b < Modulus(w)
    ensures Bits(b, w) == b
  {
    SmallRemainder(b, Modulus(w));
  }

  lemma {:induction false} OperandIs(b: nat, bits: nat, recorded: bool)
    requires IsCWidth(bits) && b < Pow2(bits)
    ensures b < Modulus(WidthOf(bits)) && OperandValue(b, bits, recorded) == Interpret(b, IntType(WidthOf(bits), recorded))
  {
    WidthsMatch(bits);
    SmallBits(b, WidthOf(bits));
  }

  /** Casting an operand to its own width reads its bits with the sign of the cast. */
  lemma {:induction false} CastToOwnWidth(b: nat, bits: nat, recorded: bool, ty: IntType)
    requires IsCWidth(bits) && b < Pow2(bits) && ty.width == WidthOf(bits)
    ensures b < Modulus(ty.width)
    ensures Eval(Cast(Int(ty), Operand), OperandValue(b, bits, recorded)) == Interpret(b, ty)
  {
    OperandIs(b, bits, recorded);
    BitsOfValue(b, IntType(ty.width, recorded));
  }

  lemma {:induction false} SExtAgrees(b: nat, from: nat, to: nat, recorded: bool)
    requires IsCWidth(from) && IsCWidth(to) && from < to && b < Pow2(from)
    ensures ResultBits(SExt(from, to), OperandValue(b, from, recorded), to) == SextBits(b, from, to)
  {
    WidthsMatch(from);
    WidthsMatch(to);
    Pow2Grows(from, to);
    CastToOwnWidth(b, from, recorded, IntType(WidthOf(from), false));
    var v := SignedValue(b, WidthOf(from));
    ValueOfBits(v, IntType(WidthOf(to), false));
  }

  lemma {:induction false} ZExtAgrees(b: nat, from: nat, to: nat, recorded: bool)
    requires IsCWidth(from) && IsCWidth(to) && from < to && b < Pow2(from)
    ensures ResultBits(ZExt(from, to), OperandValue(b, from, recorded), to) == b
  {
    WidthsMatch(from);
    WidthsMatch(to);
    Pow2Grows(from, to);
    CastToOwnWidth(b, from, recorded, IntType(WidthOf(from), true));
    BitsOfValue(b, IntType(WidthOf(to), true));
  }

  /** Narrowing, in terms of C's widths. */
  lemma {:induction false} Narrowing(b: nat, w: Width, n: Width, recorded: bool)
    requires Modulus(n) < Modulus(w) && b < Modulus(w)
    ensures Bits(Interpret(b, IntType(w, recorded)), n) == b % Modulus(n)
  {
    var k := Modulus(w) / Modulus(n);
    assert Modulus(w) == k * Modulus(n);
    AddMultiple(b, -k, Modulus(n));
    assert b + (-k) * Modulus(n) == b - Modulus(w);
  }

  lemma {:induction false} TruncAgrees(b: nat, from: nat, to: nat, recorded: bool)
    requires IsCWidth(from) && IsCWidth(to) && to < from && b < Pow2(from)
    ensures ResultBits(Trunc(from, to), OperandValue(b, from, recorded), to) == b % Pow2(to)
  {
    WidthsMatch(from);
    WidthsMatch(to);
    Pow2Grows(to, from);
    OperandIs(b, from, recorded);
    Narrowing(b, WidthOf(from), WidthOf(to), recorded);
    var v := OperandValue(b, from, recorded);
    assert Eval(Trunc(from, to), v) == Bits(v, WidthOf(to));
    SmallBits(Bits(v, WidthOf(to)), WidthOf(to));
  }

  /** A boolean extends to all ones or to zero, or to itself. */
  lemma {:induction false} BoolExtends(b: nat, to: nat, recorded: bool)
    requires b < 2 && IsCWidth(to)
    ensures Pow2(1) == 2
    ensures ResultBits(SExt(1, to), OperandValue(b, 1, recorded), to) == (if b == 1 then Pow2(to) - 1 else 0)
    ensures ResultBits(SExt(1, to), OperandValue(b, 1, recorded), to) == SextBits(b, 1, to)
    ensures ResultBits(ZExt(1, to), OperandValue(b, 1, recorded), to) == b
  {
    Pow2Values();
    WidthsMatch(to);
    var w := WidthOf(to);
    SmallRemainder(-1, Modulus(w));
    SmallBits(b, w);
    ValueOfBits(b, IntType(w, true));
  }

  lemma {:induction false} SextBelow(b: nat, from: nat, to: nat)
    requires 1 <= from < to && b < Pow2(from)
    ensures 0 <= SextBits(b, from, to) < Pow2(to)
  {
    Pow2Grows(from, to);
  }

  /** Truncating after sign extension gives back the bits, whatever signs are recorded in between. */
  lemma {:induction false} TruncAfterSExt(b: nat, from: nat, to: nat, recorded: bool, between: bool)
    requires IsCWidth(from) && IsCWidth(to) && from < to && b < Pow2(from)
    ensures var s := ResultBits(SExt(from, to), OperandValue(b, from, recorded), to);
            s < Pow2(to) && ResultBits(Trunc(to, from), OperandValue(s, to, between), from) == b
  {
    SExtAgrees(b, from, to, recorded);
    SextBelow(b, from, to);
    SextModulo(b, from, to);
    TruncAgrees(SextBits(b, from, to), to, from, between);
  }

  lemma {:induction false} TruncAfterZExt(b: nat, from: nat, to: nat, recorded: bool, between: bool)
    requires IsCWidth(from) && IsCWidth(to) && from < to && b < Pow2(from)
    ensures var z := ResultBits(ZExt(from, to), OperandValue(b, from, recorded), to);
            z < Pow2(to) && ResultBits(Trunc(to, from), OperandValue(z, to, between), from) == b
  {
    ZExtAgrees(b, from, to, recorded);
    Pow2Grows(from, to);
    TruncAgrees(b, to, from, between);
    SmallRemainder(b, Pow2(from));
  }

  lemma {:induction false} Pow2Product(m: nat, n: nat)
    ensures Pow2(m + n) == Pow2(n) * Pow2(m)
  {
    if n > 0 {
      Pow2Product(m, n - 1);
    }
  }

  lemma {:induction false} SextModulo(b: nat, from: nat, to: nat)
    requires 1 <= from < to && b < Pow2(from)
    ensures SextBits(b, from, to) % Pow2(from) == b
  {
    var m, k := Pow2(from), Pow2(to - from);
    Pow2Product(from, to - from);
    SmallRemainder(b, m);
    AddMultiple(b, k - 1, m);
    assert (k - 1) * m == k * m - m;
  }

  // ----- where the casts do not agree -----

  ghost predicate SExtRight(from: nat, to: nat)
    requires 1 <= from < to && IsCWidth(to)
  {
    forall b: nat, recorded: bool {:trigger OperandValue(b, from, recorded)} :: b < Pow2(from) ==>
      ResultBits(SExt(from, to), OperandValue(b, from, recorded), to) == SextBits(b, from, to)
  }

  /** Sign extension is right for every operand exactly if C has a type of the operand's width. */
  lemma {:induction false} SExtExact(from: nat, to: nat)
    requires 1 <= from < to && IsCWidth(to)
    ensures SExtRight(from, to) <==> from == 1 || IsCWidth(from)
  {
    if from == 1 {
      Pow2Values();
      forall b: nat, recorded: bool | b < Pow2(1)
        ensures ResultBits(SExt(1, to), OperandValue(b, 1, recorded), to) == SextBits(b, 1, to)
      {
        BoolExtends(b, to, recorded);
      }
    } else if IsCWidth(from) {
      forall b: nat, recorded: bool | b < Pow2(from)
        ensures ResultBits(SExt(from, to), OperandValue(b, from, recorded), to) == SextBits(b, from, to)
      {
        SExtAgrees(b, from, to, recorded);
      }
    } else {
      NarrowSignLost(from, to);
    }
  }

  /** The C width that holds an operand of a width C lacks. */
  function Container(from: nat): (c: nat)
    requires 1 < from < 64 && !IsCWidth(from)
    ensures IsCWidth(c) && from < c && GetType(from) == GetType(c)
    ensures forall to :: IsCWidth(to) && from < to ==> c <= to
  {
    if from < 8 then 8 else if from < 16 then 16 else if from < 32 then 32 else 64
  }

  /** The sign bit of a width that C lacks is an ordinary bit of the wider type it is kept in. */
  lemma {:induction false} NarrowSignLost(from: nat, to: nat)
    requires 1 < from < to && IsCWidth(to) && !IsCWidth(from)
    ensures var b := Pow2(from - 1);
            && b < Pow2(from)
            && ResultBits(SExt(from, to), OperandValue(b, from, true), to) == b
            && SextBits(b, from, to) != b
  {
    var b := Pow2(from - 1);
    var c := Container(from);
    Pow2Grows(from - 1, c - 1);
    Pow2Grows(from, to);
    Pow2Grows(from - 1, from);
    PositiveStays(b, c, to);
    assert SExt(from, to) == Cast(SetSigned(GetType(to)), Cast(SetSigned(GetType(c)), Operand));
  }

  /** What is positive in a type is itself in any type at least as wide. */
  lemma {:induction false} PositiveStays(b: nat, c: nat, to: nat)
    requires IsCWidth(c) && IsCWidth(to) && c <= to && b < Pow2(c - 1)
    ensures b < Pow2(c) && OperandValue(b, c, true) == b
    ensures ResultBits(Cast(SetSigned(GetType(to)), Cast(SetSigned(GetType(c)), Operand)), b, to) == b
  {
    WidthsMatch(c);
    WidthsMatch(to);
    if c < to {
      Pow2Grows(c - 1, to - 1);
    }
    OperandIs(b, c, true);
    CastToOwnWidth(b, c, true, IntType(WidthOf(c), false));
    ValueOfBits(b, IntType(WidthOf(to), false));
    SmallBits(b, WidthOf(to));
  }

  /** Every width fits into the type chosen for it, where only zero is zero, whatever the sign. */
  lemma {:induction false} OperandIsZero(b: nat, from: nat, recorded: bool)
    requires 1 < from <= 64 && b < Pow2(from)
    ensures OperandValue(b, from, recorded) == 0 <==> b == 0
  {
    var c := if IsCWidth(from) then from else Container(from);
    WidthsMatch(c);
    if from < c {
      Pow2Grows(from, c);
    }
    SmallBits(b, WidthOf(c));
    BitsOfValue(b, IntType(WidthOf(c), recorded));
  }

  /** Truncation to one bit asks for zero instead of taking the last bit. */
  lemma {:induction false} TruncToBool(b: nat, from: nat, recorded: bool)
    requires 1 < from <= 64 && b < Pow2(from)
    ensures Eval(Trunc(from, 1), OperandValue(b, from, recorded)) == b % 2 <==> b == 0 || b % 2 == 1
  {
    OperandIsZero(b, from, recorded);
  }
}
