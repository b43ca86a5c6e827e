/** C's integer types of 8 to 64 bits: two's complement, conversions, promotions; sections 6.3.1.1,
    6.3.1.3 and 6.3.1.8 of ISO/IEC 9899:2011, with 32-bit `int` and 64-bit `long long`. */
module CIntegers {
  datatype Option<T> = None | Some(value: T)

  datatype Width = W8 | W16 | W32 | W64

  function Modulus(w: Width): int {
    match w
    case W8 => 0x100
    case W16 => 0x1_0000
    case W32 => 0x1_0000_0000
    case W64 => 0x1_0000_0000_0000_0000
  }

  /** At least as wide as `int`. */
  predicate IsWide(w: Width) {
    w.W32? || w.W64?
  }

  datatype IntType = IntType(width: Width, unsigned: bool)

  function SignedValue(bits: nat, w: Width): int
    requires bits < Modulus(w)
  {
    if bits < Modulus(w) / 2 then bits else bits - Modulus(w)
  }

  function Interpret(bits: nat, ty: IntType): int
    requires bits < Modulus(ty.width)
  {
    if ty.unsigned then bits else SignedValue(bits, ty.width)
  }

  function Bits(v: int, w: Width): (b: nat)
    ensures b < Modulus(w)
  {
    v % Modulus(w)
  }

  predicate Fits(v: int, ty: IntType) {
    if ty.unsigned then 0 <= v < Modulus(ty.width) else -Modulus(ty.width) / 2 <= v < Modulus(ty.width) / 2
  }

  /** A C value: its type and the number it is. */
  datatype CValue = CValue(ty: IntType, v: int)

  /** Conversion; to a signed type that cannot represent the value it wraps around. */
  function Convert(c: CValue, ty: IntType): (r: CValue)
    ensures r.ty == ty && Fits(r.v, ty)
  {
    CValue(ty, Interpret(Bits(c.v, ty.width), ty))
  }

  /** Types narrower than `int` are promoted to `int`, which holds all their values. */
  function Promote(ty: IntType): IntType {
    if IsWide(ty.width) then ty else IntType(W32, false)
  }

  /** The usual arithmetic conversions. */
  function Common(a: IntType, b: IntType): (ty: IntType)
    ensures IsWide(ty.width)
  {
    CommonOfWide(Promote(a), Promote(b))
  }

  function CommonOfWide(a: IntType, b: IntType): (ty: IntType)
    requires IsWide(a.width) && IsWide(b.width)
    ensures IsWide(ty.width)
  {
    if a.unsigned == b.unsigned then (if a.width.W64? then a else b)
    else
      var u, s := if a.unsigned then a else b, if a.unsigned then b else a;
      if u.width == s.width || u.width.W64? then u else s
  }

  lemma {:induction false} BitsOfValue(b: nat, ty: IntType)
    requires b < Modulus(ty.width)
    ensures Bits(Interpret(b, ty), ty.width) == b
  {
  }

  lemma {:induction false} ValueOfBits(v: int, ty: IntType)
    requires Fits(v, ty)
    ensures Interpret(Bits(v, ty.width), ty) == v
  {
  }

  lemma {:induction false} InterpretFits(b: nat, ty: IntType)
    requires b < Modulus(ty.width)
    ensures Fits(Interpret(b, ty), ty)
  {
  }

  /** Conversion to a type that holds the value changes nothing. */
  lemma {:induction false} ConvertFits(c: CValue, ty: IntType)
    requires Fits(c.v, ty)
    ensures Convert(c, ty) == CValue(ty, c.v)
  {
    ValueOfBits(c.v, ty);
  }

  function Pow2(n: nat): (p: nat)
    ensures p > 0
  {
    if n == 0 then 1 else 2 * Pow2(n - 1)
  }

  lemma {:induction false} Pow2Values()
    ensures Pow2(0) == 1 && Pow2(1) == 2 && Pow2(7) == 0x80 && Pow2(8) == 0x100
    ensures Pow2(15) == 0x8000 && Pow2(16) == 0x1_0000
    ensures Pow2(31) == 0x8000_0000 && Pow2(32) == 0x1_0000_0000
    ensures Pow2(63) == 0x8000_0000_0000_0000 && Pow2(64) == 0x1_0000_0000_0000_0000
  {
    Pow2Adds(0);
    Pow2Adds(7);
    Pow2Adds(8);
    Pow2Adds(15);
    Pow2Adds(23);
    Pow2Adds(31);
    Pow2Adds(39);
    Pow2Adds(47);
    Pow2Adds(55);
  }

  lemma {:induction false} Pow2Adds(n: nat)
    ensures Pow2(n + 8) == 0x100 * Pow2(n)
  {
    assert Pow2(n + 2) == 4 * Pow2(n);
    assert Pow2(n + 4) == 4 * Pow2(n + 2);
    assert Pow2(n + 6) == 4 * Pow2(n + 4);
    assert Pow2(n + 8) == 4 * Pow2(n + 6);
  }
}
