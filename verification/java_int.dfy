/** Java's 32-bit `int` and its division operator, written out over Dafny's
    unbounded integers.  Dafny's `/` is Euclidean; Java's `/` truncates toward
    zero, which differs for a negative dividend. */
module JavaInt {

  /** The bounds of Java's `Integer.MIN_VALUE` and `Integer.MAX_VALUE`. */
  const MinInt: int := -0x8000_0000
  const MaxInt: int := 0x7fff_ffff

  /** A value of Java type `int`. */
  newtype int32 = x: int | MinInt <= x <= MaxInt

  /** Java's `a / b` for a positive divisor: the quotient truncated toward
      zero.  It has the dividend's sign (or is zero) and is no further from
      zero than the dividend; `DivTruncates` pins it down exactly. */
  function Div(a: int, b: int): (q: int)
    requires b > 0
    ensures a >= 0 ==> 0 <= q <= a
    ensures a < 0 ==> a <= q <= 0
  {
    if a >= 0 then
      EuclidDiv(a, b);
      a / b
    else
      EuclidDiv(-a, b);
      -((-a) / b)
  }

  /** `q * b` is the multiple of `b` closest to `a` on the side of zero: less
      than one whole divisor is dropped, toward zero. */
  lemma DivTruncates(a: int, b: int)
    requires b > 0
    ensures a >= 0 ==> 0 <= Div(a, b) * b <= a < Div(a, b) * b + b
    ensures a < 0 ==> Div(a, b) * b - b < a <= Div(a, b) * b <= 0
  {
    if a >= 0 {
      EuclidDiv(a, b);
    } else {
      EuclidDiv(-a, b);
      assert Div(a, b) * b == -(((-a) / b) * b);
    }
  }

  /** Dafny's own quotient and remainder for a non-negative dividend. */
  lemma EuclidDiv(a: int, b: int)
    requires a >= 0 && b > 0
    ensures a == (a / b) * b + a % b
    ensures 0 <= a % b < b
    ensures 0 <= a / b <= a
  {
    var q := a / b;
    assert a == q * b + a % b;
    assert q >= 0;
    MulNonNegative(q, b - 1);
    assert q * b == q + q * (b - 1);
  }

  lemma MulNonNegative(x: int, y: int)
    requires x >= 0 && y >= 0
    ensures x * y >= 0
  {
  }

  /** Cancelling a positive factor from a strict product inequality. */
  lemma MulLessCancel(x: int, z: int, p: int)
    requires p > 0 && x * p < z * p
    ensures x < z
  {
    assert (z - x) * p == z * p - x * p;
  }

  /** A larger divisor never gives a larger quotient for a non-negative dividend. */
  lemma DivAntitone(a: int, p: int, q: int)
    requires a >= 0 && 0 < p <= q
    ensures Div(a, q) <= Div(a, p)
  {
    var x, y := Div(a, q), Div(a, p);
    DivTruncates(a, q);
    DivTruncates(a, p);
    assert x * p <= x * q;
    assert x * p < (y + 1) * p;
    MulLessCancel(x, y + 1, p);
  }

  /** A larger dividend never gives a smaller quotient. */
  lemma DivMonotone(a: int, a': int, b: int)
    requires a <= a' && b > 0
    ensures Div(a, b) <= Div(a', b)
    decreases if a < 0 then 1 else 0
  {
    if 0 <= a {
      var x, x' := Div(a, b), Div(a', b);
      DivTruncates(a, b);
      DivTruncates(a', b);
      assert x * b <= a <= a' < x' * b + b;
      assert x' * b + b == (x' + 1) * b;
      MulLessCancel(x, x' + 1, b);
    } else if a' < 0 {
      DivMonotone(-a', -a, b);
    }
  }
}
