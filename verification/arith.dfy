/** Quotient and remainder facts the decoders and the cursor arithmetic rest on. */
module Arith {

  /** A high part and a low part below `m`, packed as hi * m + lo, unpack again. */
  lemma Unpack(hi: nat, lo: nat, m: nat)
    requires 0 < m && lo < m
    ensures (hi * m + lo) / m == hi && (hi * m + lo) % m == lo
  {
    DivModUnique(hi * m + lo, m, hi, lo);
  }

  /** q * m + r with 0 <= r < m has quotient q and remainder r. */
  lemma DivModUnique(x: int, m: int, q: int, r: int)
    requires 0 < m && 0 <= r < m && x == q * m + r
    ensures x / m == q && x % m == r
  {
    var d := x / m - q;
    assert d * m == r - x % m by {
      assert x / m * m + x % m == x;
      assert d * m == x / m * m - q * m;
    }
    if d > 0 {
      MulAtLeast(d, m);
    } else if d < 0 {
      MulAtLeast(-d, m);
    }
  }

  lemma MulAtLeast(d: int, m: int)
    requires 1 <= d && 0 < m
    ensures d * m >= m
  {
    assert d * m == (d - 1) * m + m;
    assert (d - 1) * m >= 0;
  }


  /** Quotient and remainder put back together give the value. */
  lemma DivMod(x: int, m: int)
    requires 0 < m
    ensures x == x / m * m + x % m && 0 <= x % m < m
  {
  }

  /** A value below m * k has a quotient by m below k. */
  lemma DivBelow(x: int, m: int, k: int)
    requires 0 < m && 0 <= x < m * k
    ensures 0 <= x / m < k
  {
    var q := x / m;
    DivMod(x, m);
    if q >= k {
      MulMono(q, k, m);
      assert false;
    }
    if q < 0 {
      MulAtLeast(-q, m);
      assert false;
    }
  }

  lemma MulMono(a: int, b: int, m: int)
    requires a >= b && m >= 0
    ensures a * m >= b * m
  {
    assert a * m == b * m + (a - b) * m;
  }

  /** Adding the modulus does not change the remainder. */
  lemma ModShift(x: int, m: int)
    requires 0 < m
    ensures (x + m) % m == x % m
  {
    DivModUnique(x + m, m, x / m + 1, x % m);
  }

  /** A value already in [0, m) is its own remainder. */
  lemma ModSmall(x: int, m: int)
    requires 0 <= x < m
    ensures x % m == x
  {
    DivModUnique(x, m, 0, x);
  }

  /** The smaller and the larger of two integers. */
  function Min(a: int, b: int): int { if a <= b then a else b }

  function Max(a: int, b: int): int { if a <= b then b else a }
}
