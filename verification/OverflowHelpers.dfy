/** The C functions generated for the unsigned `with.overflow` intrinsics. */
module OverflowHelpers {
  import opened CIntegers
  import opened ModularArithmetic

  datatype Intrinsic = UAdd | USub | UMul

  /** The mathematical result. */
  function Exact(op: Intrinsic, a: int, b: int): int {
    match op
    case UAdd => a + b
    case USub => a - b
    case UMul => a * b
  }

  lemma {:induction false} QuotientOfProduct(a: nat, b: nat)
    requires a != 0
    ensures (a * b) / a == b
  {
    RemainderUnique(a * b, b, 0, a);
  }

  /** Multiplication: dividing the wrapped product tells whether it wrapped. */
  lemma {:induction false} ProductWraps(a: nat, b: nat, m: nat)
    requires m > 0
    ensures var sum := (a * b) % m; (a != 0 && sum / a != b) <==> a * b >= m
  {
    var sum := (a * b) % m;
    if a == 0 {
      assert a * b == 0;
    } else if a * b < m {
      assert a * b >= 0;
      SmallRemainder(a * b, m);
      QuotientOfProduct(a, b);
    } else {
      var q := (a * b) / m;
      assert a * b == q * m + sum;
      SmallerThanProduct(q, m, sum);
      assert sum / a * a <= sum < a * b;
    }
  }

  lemma {:induction false} SmallerThanProduct(q: int, m: nat, sum: nat)
    requires sum < m && q * m + sum >= m
    ensures sum < q * m + sum
  {
    if q >= 1 {
      Times(q, m);
    } else {
      Times(1 - q, m);
    }
  }

  /** Addition: the wrapped sum is smaller than a summand exactly if it wrapped. */
  lemma {:induction false} SumWraps(a: nat, b: nat, m: nat)
    requires a < m && b < m
    ensures var sum := (a + b) % m; (sum < a || sum < b) <==> a + b >= m
  {
    if a + b >= m {
      RemainderUnique(a + b, 1, a + b - m, m);
    } else {
      SmallRemainder(a + b, m);
    }
  }

  /** The flag, as the generated expression computes it from the wrapped result. */
  predicate Flag(op: Intrinsic, m: nat, a: nat, b: nat)
    requires m > 0
  {
    var sum := Exact(op, a, b) % m;
    match op
    case UAdd => sum < a || sum < b
    case USub => a < b
    case UMul => a != 0 && sum / a != b
  }

  /** The generated function: unsigned arithmetic wraps, the flag is computed from the wrapped result. */
  method Generated(op: Intrinsic, w: Width, a: nat, b: nat) returns (sum: nat, overflow: bool)
    requires IsWide(w) && a < Modulus(w) && b < Modulus(w)
    ensures sum < Modulus(w) && sum == Exact(op, a, b) % Modulus(w)
    ensures overflow <==> !(0 <= Exact(op, a, b) < Modulus(w))
    ensures overflow <==> Flag(op, Modulus(w), a, b)
  {
    var m := Modulus(w);
    match op {
      case UAdd =>
        SumWraps(a, b, m);
        sum := (a + b) % m;
        overflow := sum < a || sum < b;
      case USub =>
        sum := (a - b) % m;
        overflow := a < b;
      case UMul =>
        ProductWraps(a, b, m);
        assert a * b >= 0;
        sum := (a * b) % m;
        overflow := a != 0 && sum / a != b;
    }
  }

  lemma {:induction false} FlagIsUnsigned(op: Intrinsic, m: nat, a: nat, b: nat)
    requires a < m && b < m
    ensures Flag(op, m, a, b) <==> !(0 <= Exact(op, a, b) < m)
  {
    match op
    case UAdd => SumWraps(a, b, m);
    case USub =>
    case UMul =>
      ProductWraps(a, b, m);
      assert a * b >= 0;
  }

  // ----- the same code for the signed intrinsics -----

  predicate SignedOverflow(op: Intrinsic, w: Width, a: nat, b: nat)
    requires a < Modulus(w) && b < Modulus(w)
  {
    !Fits(Exact(op, SignedValue(a, w), SignedValue(b, w)), IntType(w, false))
  }

  /** Where the unsigned flag happens to be the signed one, with `h` half the modulus `m`: `a` is negative
      if it is at least `h`. */
  predicate SignedFlagRight(op: Intrinsic, m: int, h: int, a: int, b: int) {
    match op
    case UAdd => a + b < if a < h && b < h then h else if a >= h && b >= h then m + h else m
    case USub => if (a < h) == (b < h) then b <= a else if a < h then b - a <= h else a - b >= h
    case UMul => ProductFlagRight(m, h, a, b)
  }

  predicate ProductFlagRight(m: int, h: int, a: int, b: int) {
    if a < h && b < h then a * b < h || a * b >= m
    else if a >= h && b >= h then (m - a) * (m - b) >= h
    else if a < h then a <= 1 || a * (m - b) > h
    else b <= 1 || (m - a) * b > h
  }

  lemma {:induction false} AtLeast(a: nat, b: nat, c: nat, d: nat)
    requires a >= c && b >= d
    ensures a * b >= c * d
  {
    assert a * b - c * d == (a - c) * b + c * (b - d);
    assert (a - c) * b >= 0 && c * (b - d) >= 0;
  }

  /** Products of signed values, from the unsigned ones. */
  lemma {:induction false} SignedProducts(a: int, b: int, m: int)
    ensures (a - m) * b == a * b - m * b && a * (b - m) == a * b - a * m
    ensures (a - m) * (b - m) == (m - a) * (m - b) == a * b - (a + b - m) * m
  {
  }

  lemma {:induction false} NegativeProduct(a: nat, b: nat, m: nat, h: nat)
    requires 2 <= h <= a < m && h <= b < m == 2 * h
    ensures a * b >= m && (a - m) * (b - m) == (m - a) * (m - b) >= 0
  {
    SignedProducts(a, b, m);
    AtLeast(a, b, h, h);
    AtLeast(h, h, 2, h);
    AtLeast(m - a, m - b, 1, 1);
  }

  /** Signed products of either sign, from the unsigned ones. */
  lemma {:induction false} ProductRange(a: nat, b: nat, m: nat, h: nat, x: int, y: int)
    requires 2 <= h && m == 2 * h && a < m && b < m
    requires x == (if a < h then a else a - m) && y == (if b < h then b else b - m)
    ensures a < h && b < h ==> x * y == a * b >= 0
    ensures a >= h && b >= h ==> a * b >= m && x * y == (m - a) * (m - b) >= 0
    ensures a < h && b >= h ==> (a * b < m <==> a <= 1) && (a <= 1 ==> a * (m - b) <= h) && x * y == -(a * (m - b)) <= 0
    ensures a >= h && b < h ==> (a * b < m <==> b <= 1) && (b <= 1 ==> (m - a) * b <= h) && x * y == -((m - a) * b) <= 0
  {
    if a < h && b < h {
      AtLeast(a, b, 0, 0);
    } else if a >= h && b >= h {
      NegativeProduct(a, b, m, h);
    } else if a < h {
      MixedProduct(a, b, m, h);
    } else {
      MixedProduct(b, a, m, h);
      assert a * b == b * a;
    }
  }

  lemma {:induction false} SignedProduct(a: nat, b: nat, m: nat, h: int, x: int, y: int)
    requires 2 <= h && m == 2 * h && a < m && b < m
    requires x == (if a < h then a else a - m) && y == (if b < h then b else b - m)
    ensures !(0 <= a * b < m) == !(-h <= x * y < h) <==> ProductFlagRight(m, h, a, b)
  {
    ProductRange(a, b, m, h, x, y);
    AtLeast(a, b, 0, 0);
  }

  lemma {:induction false} MixedProduct(p: nat, n: nat, m: nat, h: nat)
    requires p < h <= n < m == 2 * h
    ensures p * n < m <==> p <= 1
    ensures p <= 1 ==> p * (m - n) <= h
    ensures p * (n - m) == -(p * (m - n)) <= 0 && (m - n) * p == p * (m - n) && (n - m) * p == p * (n - m)
  {
    AtLeast(p, m - n, 0, 0);
    if p <= 1 {
      assert p * n == if p == 0 then 0 else n;
      assert p * (m - n) == if p == 0 then 0 else m - n;
    } else {
      AtLeast(p, n, 2, h);
    }
  }

  lemma {:induction false} SignedFlag(op: Intrinsic, a: nat, b: nat, m: nat, h: int, x: int, y: int)
    requires 2 <= h && m == 2 * h && a < m && b < m
    requires x == (if a < h then a else a - m) && y == (if b < h then b else b - m)
    ensures !(0 <= Exact(op, a, b) < m) == !(-h <= Exact(op, x, y) < h) <==> SignedFlagRight(op, m, h, a, b)
  {
    if op.UMul? {
      SignedProduct(a, b, m, h, x, y);
    }
  }

  lemma {:induction false} SignedRange(op: Intrinsic, w: Width, a: nat, b: nat, x: int, y: int)
    requires a < Modulus(w) && b < Modulus(w) && x == SignedValue(a, w) && y == SignedValue(b, w)
    ensures var h := Modulus(w) / 2;
            && Modulus(w) == 2 * h && h >= 2
            && x == (if a < h then a else a - Modulus(w)) && y == (if b < h then b else b - Modulus(w))
            && (SignedOverflow(op, w, a, b) <==> !(-h <= Exact(op, x, y) < h))
  {
  }

  /** The helper for a signed intrinsic: the result has the right bits for all operands, and the flag is
      right exactly under the condition above. */
  lemma {:induction false} SignedExact(op: Intrinsic, w: Width, a: nat, b: nat)
    requires IsWide(w) && a < Modulus(w) && b < Modulus(w)
    ensures Exact(op, a, b) % Modulus(w) == Bits(Exact(op, SignedValue(a, w), SignedValue(b, w)), w)
    ensures Flag(op, Modulus(w), a, b) == SignedOverflow(op, w, a, b)
            <==> SignedFlagRight(op, Modulus(w), Modulus(w) / 2, a, b)
  {
    SignedResult(op, w, a, b);
    var m, h := Modulus(w), Modulus(w) / 2;
    var x, y := SignedValue(a, w), SignedValue(b, w);
    SignedRange(op, w, a, b, x, y);
    assert Flag(op, m, a, b) == SignedOverflow(op, w, a, b) <==> SignedFlagRight(op, m, h, a, b) by {
      FlagIsUnsigned(op, m, a, b);
      SignedFlag(op, a, b, m, h, x, y);
    }
  }

  lemma {:induction false} SignedResult(op: Intrinsic, w: Width, a: nat, b: nat)
    requires a < Modulus(w) && b < Modulus(w)
    ensures Exact(op, a, b) % Modulus(w) == Bits(Exact(op, SignedValue(a, w), SignedValue(b, w)), w)
  {
    var m := Modulus(w);
    var x, y := SignedValue(a, w), SignedValue(b, w);
    var i, j := if a < m / 2 then 0 else 1, if b < m / 2 then 0 else 1;
    assert x == a - i * m && y == b - j * m;
    match op
    case UAdd => AddMultiple(a + b, -(i + j), m);
    case USub => AddMultiple(a - b, j - i, m);
    case UMul =>
      SignedProducts(a, b, m);
      var c: int, d: int := a, b;
      var k := if i == 0 then (if j == 0 then 0 else -c) else if j == 0 then -d else m - c - d;
      assert x * y == a * b + k * m;
      AddMultiple(a * b, k, m);
  }

  /** Signed addition reports -1 + 1 as an overflow. */
  lemma {:induction false} SignedAdditionMisreported(w: Width)
    requires IsWide(w)
    ensures Flag(UAdd, Modulus(w), Modulus(w) - 1, 1) && !SignedOverflow(UAdd, w, Modulus(w) - 1, 1)
    ensures !SignedFlagRight(UAdd, Modulus(w), Modulus(w) / 2, Modulus(w) - 1, 1)
  {
    FlagIsUnsigned(UAdd, Modulus(w), Modulus(w) - 1, 1);
  }

  // ----- narrow intrinsics -----

  /** Operands narrower than 32 bits are converted to 64 bits, with the sign recorded for them, and the flag
      is computed there: whether the unsigned result of the converted operands leaves 64 bits. */
  predicate WideFlag(op: Intrinsic, x: int, y: int) {
    match op
    case UAdd => (x < 0 && y < 0) || ((x < 0 || y < 0) && x + y >= 0)
    case USub => if (x < 0) == (y < 0) then x < y else y < 0
    case UMul => (x < 0 && y < 0) || (x < 0 && y >= 2) || (y < 0 && x >= 2)
  }

  lemma {:induction false} NarrowFlag(op: Intrinsic, x: int, y: int)
    requires -0x8000 <= x < 0x1_0000 && -0x8000 <= y < 0x1_0000
    ensures Flag(op, Modulus(W64), Bits(x, W64), Bits(y, W64)) <==> WideFlag(op, x, y)
  {
    var n := Modulus(W64);
    SmallRemainder(x, n);
    SmallRemainder(y, n);
    FlagIsUnsigned(op, n, Bits(x, W64), Bits(y, W64));
    if op.UMul? {
      WideProduct(x, y, n);
    }
  }

  lemma {:induction false} WideProduct(x: int, y: int, n: int)
    requires -0x8000 <= x < 0x1_0000 && -0x8000 <= y < 0x1_0000 && n == 0x1_0000_0000_0000_0000
    ensures var a, b := if x < 0 then x + n else x, if y < 0 then y + n else y;
            0 <= a * b && (a * b >= n <==> WideFlag(UMul, x, y))
  {
    var a, b := if x < 0 then x + n else x, if y < 0 then y + n else y;
    AtLeast(a, b, 0, 0);
    if x >= 0 && y >= 0 {
      AtLeast(0x1_0000, 0x1_0000, a, b);
    } else if x < 0 && y < 0 {
      AtLeast(a, b, n / 2, 2);
    } else if x < 0 {
      SmallFactor(y, a, n);
    } else {
      SmallFactor(x, b, n);
      assert a * b == b * a;
    }
  }

  lemma {:induction false} SmallFactor(p: nat, a: int, n: int)
    requires n > 0 && n % 2 == 0 && n / 2 <= a < n
    ensures a * p >= n <==> p >= 2
    ensures p * a == a * p
  {
    if p >= 2 {
      AtLeast(a, p, n / 2, 2);
    } else if p == 1 {
      assert a * p == a;
    }
  }

  /** Where the flag computed in 64 bits is right, for operands recorded as unsigned, as narrow types are
      unless a declaration says otherwise. */
  predicate NarrowFlagRight(op: Intrinsic, signed: bool, m: int, h: int, a: int, b: int) {
    if !signed then op.USub? || (if op.UAdd? then a + b else a * b) < m
    else
      match op
      case UAdd => if a < h && b < h then a + b < h else if a >= h && b >= h then a + b >= m + h else true
      case USub => SignedFlagRight(USub, m, h, a, b)
      case UMul =>
        if a < h && b < h then a * b < h
        else if a >= h && b >= h then (m - a) * (m - b) < h
        else if a < h then a * (m - b) <= h
        else (m - a) * b <= h
  }

  predicate Overflows(op: Intrinsic, signed: bool, w: Width, a: nat, b: nat)
    requires a < Modulus(w) && b < Modulus(w)
  {
    if signed then SignedOverflow(op, w, a, b) else !(0 <= Exact(op, a, b) < Modulus(w))
  }

  lemma {:induction false} NarrowSigned(op: Intrinsic, a: nat, b: nat, m: nat, h: int, x: int, y: int)
    requires 2 <= h && m == 2 * h && a < m && b < m
    requires x == (if a < h then a else a - m) && y == (if b < h then b else b - m)
    ensures (op.USub? && a < b) == !(-h <= Exact(op, x, y) < h) <==> NarrowFlagRight(op, true, m, h, a, b)
  {
    if op.UMul? {
      ProductRange(a, b, m, h, x, y);
    }
  }

  /** For 8 and 16 bits, unsigned and signed: the stored result has the right bits, and the flag is right
      exactly in these ranges. */
  lemma {:induction false} NarrowExact(op: Intrinsic, signed: bool, w: Width, a: nat, b: nat)
    requires !IsWide(w) && a < Modulus(w) && b < Modulus(w)
    ensures Exact(op, a, b) % Modulus(W64) % Modulus(w) == Exact(op, a, b) % Modulus(w)
    ensures Exact(op, a, b) % Modulus(w) == Bits(Exact(op, SignedValue(a, w), SignedValue(b, w)), w)
    ensures Flag(op, Modulus(W64), Bits(a, W64), Bits(b, W64)) == Overflows(op, signed, w, a, b)
            <==> NarrowFlagRight(op, signed, Modulus(w), Modulus(w) / 2, a, b)
  {
    NarrowBits(op, w, a, b);
    SignedResult(op, w, a, b);
    NarrowFlag(op, a, b);
    NarrowOverflow(op, signed, w, a, b);
  }

  lemma {:induction false} NarrowOverflow(op: Intrinsic, signed: bool, w: Width, a: nat, b: nat)
    requires !IsWide(w) && a < Modulus(w) && b < Modulus(w)
    ensures (op.USub? && a < b) == Overflows(op, signed, w, a, b)
            <==> NarrowFlagRight(op, signed, Modulus(w), Modulus(w) / 2, a, b)
  {
    if signed {
      var x, y := SignedValue(a, w), SignedValue(b, w);
      SignedRange(op, w, a, b, x, y);
      NarrowSigned(op, a, b, Modulus(w), Modulus(w) / 2, x, y);
    } else {
      AtLeast(a, b, 0, 0);
    }
  }

  lemma {:induction false} NarrowBits(op: Intrinsic, w: Width, a: nat, b: nat)
    requires !IsWide(w) && a < Modulus(w) && b < Modulus(w)
    ensures Exact(op, a, b) % Modulus(W64) % Modulus(w) == Exact(op, a, b) % Modulus(w)
  {
    var m, n := Modulus(w), Modulus(W64);
    var v := Exact(op, a, b);
    NarrowRange(op, w, a, b);
    SmallRemainder(v, n);
    if v < 0 {
      AddMultiple(v, n / m, m);
    }
  }

  lemma {:induction false} NarrowRange(op: Intrinsic, w: Width, a: nat, b: nat)
    requires !IsWide(w) && a < Modulus(w) && b < Modulus(w)
    ensures -Modulus(W64) < Exact(op, a, b) < Modulus(W64) && (!op.USub? ==> Exact(op, a, b) >= 0)
  {
    AtLeast(Modulus(w), Modulus(w), a, b);
    AtLeast(a, b, 0, 0);
  }
}
