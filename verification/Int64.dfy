/**
 Go's signed 64-bit arithmetic, written out on unbounded integers: every operation that the
 program performs on an int64 is followed by `Wrap`, and `Quot`/`Rem` truncate toward zero.
 */
module Int64 {
  const TWO_63: int := 0x8000_0000_0000_0000
  const TWO_64: int := 0x1_0000_0000_0000_0000
  const MAX: int := 0x7FFF_FFFF_FFFF_FFFF

  predicate InRange(x: int) {
    -TWO_63 <= x <= MAX
  }

  /** The int64 that is left of the integer x after two's-complement overflow. */
  function Wrap(x: int): (r: int)
    ensures InRange(r)
    ensures InRange(x) ==> r == x
  {
    (x + TWO_63) % TWO_64 - TWO_63
  }

  /** It is congruent to x modulo 2^64, and the only int64 that is. */
  lemma WrapIsCongruent(x: int, r: int)
    requires InRange(r)
    ensures r == Wrap(x) <==> (x - r) % TWO_64 == 0
  {
    var q := (x + TWO_63) / TWO_64;
    assert x == Wrap(x) + q * TWO_64;
    QuotientUnique(x - Wrap(x), TWO_64, q, 0);
    if (x - r) % TWO_64 == 0 {
      var p := (x - r) / TWO_64;
      assert r - Wrap(x) == (q - p) * TWO_64;
      NoSmallMultiple(q - p, TWO_64);
    }
  }

  /** Past the top of the range by less than a full turn, the result is negative. */
  lemma WrapsNegative(x: int)
    requires MAX < x < TWO_63 + TWO_64
    ensures Wrap(x) == x - TWO_64
  {
    assert x + TWO_63 == TWO_64 * 1 + (x + TWO_63 - TWO_64);
  }

  lemma WrapInjective(x: int, y: int)
    requires 0 <= x < TWO_64 && 0 <= y < TWO_64 && Wrap(x) == Wrap(y)
    ensures x == y
  {
    var r := Wrap(x);
    WrapIsCongruent(x, r);
    WrapIsCongruent(y, r);
    var p, q := (x - r) / TWO_64, (y - r) / TWO_64;
    assert x - y == (p - q) * TWO_64;
    NoSmallMultiple(p - q, TWO_64);
  }

  /** Wrapping before a further step does not matter. */
  lemma WrapTwice(x: int, d: int)
    ensures Wrap(Wrap(x) + d) == Wrap(x + d)
  {
    var q := (x + TWO_63) / TWO_64;
    assert x == Wrap(x) + q * TWO_64;
    var y := Wrap(x) + d + TWO_63;
    QuotientUnique(y + q * TWO_64, TWO_64, y / TWO_64 + q, y % TWO_64);
  }

  /** Go's `/` for a positive divisor. */
  function Quot(a: int, b: int): int
    requires b > 0
  {
    if a >= 0 then a / b else -((-a) / b)
  }

  /** Go's `%` for a positive divisor. */
  function Rem(a: int, b: int): int
    requires b > 0
  {
    a - b * Quot(a, b)
  }

  // ----- products and quotients -----

  lemma MulMonotone(a: int, b: int, n: int)
    requires a <= b && n >= 0
    ensures a * n <= b * n
  {
    assert b * n - a * n == (b - a) * n >= 0;
  }

  lemma MulAtLeast(k: int, n: int)
    requires k >= 1 && n >= 0
    ensures k * n >= n
  {
    assert (k - 1) * n >= 0;
  }

  lemma NoSmallMultiple(q: int, n: int)
    requires n >= 1 && -n < q * n < n
    ensures q == 0
  {
    if q >= 1 {
      MulAtLeast(q, n);
    } else if q <= -1 {
      MulAtLeast(-q, n);
    }
  }

  lemma BelowOneMultiple(q: int, n: int)
    requires n >= 1 && q * n < n
    ensures q <= 0 && q * n <= 0
  {
    if q >= 1 {
      MulAtLeast(q, n);
    } else {
      assert (-q) * n >= 0;
    }
  }

  lemma QuotientUnique(a: int, n: int, q: int, r: int)
    requires n >= 1 && a == n * q + r && 0 <= r < n
    ensures a / n == q && a % n == r
  {
    var q', r' := a / n, a % n;
    assert (q - q') * n == r' - r;
    NoSmallMultiple(q - q', n);
  }

  lemma DivideTwice(y: nat, a: nat, b: nat)
    requires a >= 1 && b >= 1
    ensures a * b >= 1 && y / (a * b) == y / a / b
  {
    var u := y / a;
    var t, q, s := y - a * u, u / b, u - b * (u / b);
    MulAtLeast(a, b);
    MulMonotone(s, b - 1, a);
    Associate(a, b, q);
    assert y == (a * b) * q + (s * a + t);
    QuotientUnique(y, a * b, q, s * a + t);
  }

  lemma Associate(a: int, b: int, q: int)
    ensures a * (b * q) == (a * b) * q
  {
  }
}
