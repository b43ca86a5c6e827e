/** Quotients and remainders by a modulus that need not be a constant. */
module ModularArithmetic {
  lemma {:induction false} Times(k: int, m: int)
    requires k >= 1 && m >= 0
    ensures k * m >= m && (k > 1 ==> k * m >= m + m)
  {
    assert (k - 1) * m >= 0 && (k - 1) * m == k * m - m;
    if k > 1 {
      assert (k - 2) * m >= 0 && (k - 2) * m == k * m - m - m;
    }
  }

  lemma {:induction false} SmallMultiple(k: int, m: int)
    requires m > 0 && -m < k * m < m
    ensures k == 0
  {
    if k > 0 {
      Times(k, m);
    } else if k < 0 {
      Times(-k, m);
    }
  }

  lemma {:induction false} RemainderUnique(a: int, q: int, r: int, m: int)
    requires 0 <= r < m && a == q * m + r
    ensures a % m == r && a / m == q
  {
    var p, s := a / m, a % m;
    assert a == p * m + s;
    assert (p - q) * m == r - s;
    SmallMultiple(p - q, m);
  }

  lemma {:induction false} AddMultiple(a: int, k: int, m: int)
    requires m > 0
    ensures (a + k * m) % m == a % m
  {
    var q, r := a / m, a % m;
    assert a == q * m + r;
    assert (q + k) * m == q * m + k * m;
    RemainderUnique(a + k * m, q + k, r, m);
  }

  lemma {:induction false} SmallRemainder(a: int, m: int)
    requires -m < a < m
    ensures a % m == if a < 0 then a + m else a
  {
    if a < 0 {
      RemainderUnique(a, -1, a + m, m);
    } else {
      RemainderUnique(a, 0, a, m);
    }
  }

  lemma {:induction false} SameRemainder(a: int, b: int, m: int)
    requires m > 0
    ensures a % m == b % m <==> (a - b) % m == 0
  {
    var p, q := a / m, b / m;
    assert a == p * m + a % m && b == q * m + b % m;
    assert a - b == (p - q) * m + (a % m - b % m) by {
      assert (p - q) * m == p * m - q * m;
    }
    AddMultiple(a % m - b % m, p - q, m);
    SmallRemainder(a % m - b % m, m);
  }
}
