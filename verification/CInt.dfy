/** Integer semantics of the C++ host that the truncation code relies on:
    division and remainder that round toward zero, and the conversions
    between signed and unsigned 64-bit integers. Dafny's own `/` and `%`
    are Euclidean, so every C division in the model goes through `CDiv`. */
module CInt {

  /** C's `a / b` for a positive divisor: the quotient rounds toward zero. */
  function CDiv(a: int, b: int): (q: int)
    requires b > 0
    ensures 0 <= a ==> 0 <= a - q * b < b
    ensures a < 0 ==> -b < a - q * b <= 0
    ensures 0 <= a ==> 0 <= q
    ensures a < 0 ==> q <= 0
  {
    if a >= 0 then
      QuotientNonNegative(a, b);
      a / b
    else
      var m := (-a) / b;
      QuotientNonNegative(-a, b);
      assert -a == m * b + (-a) % b;
      -m
  }

  lemma QuotientNonNegative(a: int, b: int)
    requires a >= 0 && b > 0
    ensures a / b >= 0
  {
    var d := a / b;
    assert a == d * b + a % b;
  }

  /** C's quotient and the floor quotient (Dafny's Euclidean `/` for a
      positive divisor) agree exactly for non-negative dividends and exact
      multiples; otherwise C's is one larger. */
  lemma CDivMatchesFloorIff(a: int, b: int)
    requires b > 0
    ensures CDiv(a, b) == a / b <==> a >= 0 || a % b == 0
    ensures a < 0 && a % b != 0 ==> CDiv(a, b) == a / b + 1
  {
    var q := CDiv(a, b);
    var f := a / b;
    assert a == f * b + a % b;
    DividesIffCRemZero(a, b, q);
    if a < 0 {
      assert (q - f) * b == a % b - (a - q * b);
      assert -b < a % b - (a - q * b) < 2 * b;
      if a % b == 0 {
        SameResidueClass(q - f, b, a % b - (a - q * b));
      } else {
        assert 0 < a % b - (a - q * b) < 2 * b;
        OneMultipleBetween(q - f, b);
      }
    }
  }

  /** The only multiple of `b` strictly between 0 and `2b` is `b`. */
  lemma OneMultipleBetween(k: int, b: int)
    requires b > 0 && 0 < k * b < 2 * b
    ensures k == 1
  {
  }

  /** C's `a % b`: what is left after `CDiv`; it takes the sign of `a`. */
  function CRem(a: int, b: int): (r: int)
    requires b > 0
    ensures r == 0 <==> a % b == 0
    ensures 0 <= a ==> 0 <= r < b
    ensures a < 0 ==> -b < r <= 0
  {
    var q := CDiv(a, b);
    DividesIffCRemZero(a, b, q);
    a - q * b
  }

  /** With `q` the truncating quotient, `b` divides `a` exactly when nothing is left over. */
  lemma DividesIffCRemZero(a: int, b: int, q: int)
    requires b > 0 && q == CDiv(a, b)
    ensures a - q * b == 0 <==> a % b == 0
  {
    if a < 0 {
      var m := (-a) / b;
      assert q == -m;
      assert a - q * b == -((-a) % b) by {
        assert -a == m * b + (-a) % b;
      }
      if (-a) % b == 0 {
        assert a == q * b;
        MultipleModZero(a, b, q);
      }
      if a % b == 0 {
        assert -a == (-(a / b)) * b;
        MultipleModZero(-a, b, -(a / b));
      }
    }
  }

  /** A multiple of `b` leaves no Euclidean remainder. */
  lemma MultipleModZero(a: int, b: int, k: int)
    requires b > 0 && a == k * b
    ensures a % b == 0
  {
    var e := a / b;
    assert a == e * b + a % b;
    assert (k - e) * b == a % b;
    SameResidueClass(k - e, b, a % b);
  }

  /** The Euclidean remainder of `k * b + d` is `d` when `0 <= d < b`. */
  lemma ModOfOffset(k: int, b: int, d: int)
    requires b > 0 && 0 <= d < b
    ensures (k * b + d) % b == d
  {
    var a := k * b + d;
    var e := a / b;
    assert a == e * b + a % b;
    assert (k - e) * b == a % b - d;
    SameResidueClass(k - e, b, a % b - d);
  }

  /** A multiple of `b` strictly between `-b` and `b` is zero. */
  lemma SameResidueClass(k: int, b: int, d: int)
    requires b > 0 && k * b == d && -b < d < b
    ensures d == 0
  {
  }

  const TWO_63: int := 0x8000_0000_0000_0000
  const TWO_64: int := 0x1_0000_0000_0000_0000

  predicate IsInt64(x: int)
  {
    -TWO_63 <= x < TWO_63
  }

  /** A signed value converted to `uint64_t`: reduced modulo 2^64. */
  function ToUint64(x: int): nat
  {
    x % TWO_64
  }

  /** An unsigned 64-bit value stored into a signed 64-bit `time_t`
      (two's complement, as every supported compiler does it). */
  function ToInt64(u: int): int
  {
    var m := u % TWO_64;
    if m < TWO_63 then m else m - TWO_64
  }

  /** `(uint64_t)q * p` computed in unsigned 64-bit arithmetic and stored
      back into a `time_t`, the shape of lines 58, 65, 72, 79, 96 and 105. */
  function UnsignedMulBack(q: int, p: nat): int
  {
    ToInt64((ToUint64(q) * p) % TWO_64)
  }

  /** For every 64-bit timestamp the unsigned detour is harmless: the
      product of the truncated quotient and the period comes back intact. */
  lemma UnsignedMulBackExact(t: int, p: int)
    requires IsInt64(t) && p > 0
    ensures UnsignedMulBack(CDiv(t, p), p) == CDiv(t, p) * p
  {
    var q := CDiv(t, p);
    TruncatedProductFits(t, p);
    UnsignedProductResidue(q, p);
    ToInt64OfInt64(q * p);
  }

  /** The truncated product lies between zero and the dividend. */
  lemma TruncatedProductFits(t: int, p: int)
    requires IsInt64(t) && p > 0
    ensures IsInt64(CDiv(t, p) * p)
  {
    var x := CDiv(t, p) * p;
    if t >= 0 {
      assert 0 <= x <= t;
    } else {
      assert t <= x <= 0;
    }
  }

  /** Multiplying in unsigned arithmetic agrees with the signed product modulo 2^64. */
  lemma UnsignedProductResidue(q: int, p: int)
    ensures (ToUint64(q) * p) % TWO_64 == (q * p) % TWO_64
  {
    var k := q / TWO_64;
    var u := ToUint64(q);
    assert q == k * TWO_64 + u;
    assert u * p == q * p + (-(k * p)) * TWO_64 by {
      assert u * p == q * p - (k * TWO_64) * p;
      assert (k * TWO_64) * p == (k * p) * TWO_64;
    }
    ModShift(q * p, -(k * p));
  }

  /** Adding a multiple of 2^64 does not change the residue. */
  lemma ModShift(x: int, j: int)
    ensures (x + j * TWO_64) % TWO_64 == x % TWO_64
  {
    var y := x + j * TWO_64;
    var a := x / TWO_64;
    var b := y / TWO_64;
    assert y == b * TWO_64 + y % TWO_64;
    assert x == a * TWO_64 + x % TWO_64;
    assert (a + j - b) * TWO_64 == y % TWO_64 - x % TWO_64;
    SameResidueClass(a + j - b, TWO_64, y % TWO_64 - x % TWO_64);
  }

  /** Converting a value that already fits in 64 signed bits changes nothing. */
  lemma ToInt64OfInt64(x: int)
    requires IsInt64(x)
    ensures ToInt64(x % TWO_64) == x
  {
    if x >= 0 {
      assert x % TWO_64 == x;
    } else {
      ModShift(x, 1);
      assert (x + TWO_64) % TWO_64 == x + TWO_64;
    }
  }
}
