/** Java's 64-bit signed `long` arithmetic, as the expiry computations of the credential use it. */
module JavaLong {

  const MIN_LONG: int := -0x8000_0000_0000_0000
  const MAX_LONG: int := 0x7FFF_FFFF_FFFF_FFFF
  const TWO_TO_64: int := 0x1_0000_0000_0000_0000

  predicate InLongRange(x: int) {
    MIN_LONG <= x <= MAX_LONG
  }

  /** The values a Java `long` can hold. */
  type Long = x: int | InLongRange(x)

  /** Two's-complement wrap-around: the unique `long` congruent to `x` modulo 2^64. */
  function Wrap(x: int): (r: Long)
    ensures InLongRange(x) ==> r == x
    ensures (x - r) % TWO_TO_64 == 0
  {
    (x - MIN_LONG) % TWO_TO_64 + MIN_LONG
  }

  /** Java `a + b` on longs. */
  function Add(a: Long, b: Long): Long {
    Wrap(a + b)
  }

  /** Java `a - b` on longs. */
  function Sub(a: Long, b: Long): Long {
    Wrap(a - b)
  }

  /** Java `a * b` on longs. */
  function Mul(a: Long, b: Long): Long {
    Wrap(a * b)
  }

  /** Java `a / b` on longs for a positive divisor: the quotient is truncated toward zero,
      so it never lies further from zero than `a` itself (see DivBounds). */
  function Div(a: Long, b: Long): (r: Long)
    requires b > 0
    ensures a >= 0 ==> 0 <= r <= a
    ensures a < 0 ==> a <= r <= 0
  {
    if a >= 0 then
      NatDiv(a, b);
      assert InLongRange(a);
      a / b
    else
      var n: nat := -(a as int);
      NatDiv(n, b);
      assert InLongRange(a);
      -(n / b)
  }

  /** The truncated quotient times the divisor is the multiple of `b` next to `a` on the
      side of zero. */
  lemma DivBounds(a: Long, b: Long)
    requires b > 0
    ensures 0 <= a ==> Div(a, b) * b <= a < Div(a, b) * b + b
    ensures a < 0 ==> Div(a, b) * b - b < a <= Div(a, b) * b
  {
    var r := Div(a, b);
    if a >= 0 {
      NatDiv(a, b);
    } else {
      var n: nat := -(a as int);
      NatDiv(n, b);
      var q := n / b;
      assert r == -q;
      assert r * b == -(q * b);
    }
  }

  /** Dafny's `/` on a natural number and a positive divisor. */
  lemma NatDiv(n: nat, b: int)
    requires b > 0
    ensures 0 <= n / b <= n
    ensures (n / b) * b <= n < (n / b) * b + b
  {
    var q, m := n / b, n % b;
    assert n == q * b + m && 0 <= m < b;
    if q > 0 {
      MulStep(0, q, b);
      MulStep(0, b, q);
    }
  }

  /** Dividing an exact multiple gives the factor back, whatever its sign. */
  lemma DivOfMultiple(k: Long, b: Long)
    requires b > 0 && InLongRange(k as int * b as int)
    ensures Div(k as int * b as int, b) == k
  {
    var r := Div(k * b, b);
    DivBounds(k as int * b as int, b);
    if k < r {
      MulStep(k, r - k, b);
    } else if k > r {
      MulStep(r, k - r, b);
    }
  }

  /** Adding `d >= 1` to a factor adds at least `b` to the product. */
  lemma MulStep(x: int, d: int, b: int)
    requires d >= 1 && b > 0
    ensures (x + d) * b >= x * b + b
  {
    assert (x + d) * b == x * b + d * b;
    assert d * b == b + (d - 1) * b;
    assert (d - 1) * b >= 0;
  }

  /** Truncating division by a positive divisor preserves order. */
  lemma DivMonotone(a1: Long, a2: Long, b: Long)
    requires b > 0 && a1 <= a2
    ensures Div(a1, b) <= Div(a2, b)
  {
    var r1, r2 := Div(a1, b), Div(a2, b);
    if a1 < 0 <= a2 {
      // r1 <= 0 <= r2 by the contract of Div
    } else if r1 > r2 {
      MulStep(r2, r1 - r2, b);
      assert r1 * b >= r2 * b + b;
      DivBounds(a1, b);
      DivBounds(a2, b);
    }
  }
}
