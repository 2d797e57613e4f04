/**
  Numeric building blocks shared by the pipeline: Python's `round`, the
  truncating `int(a / b)`, and the sum / mean / max / min of a non-empty list.
  Python floats are modelled as exact reals.
*/
module PyNum {

  function Pow10(n: nat): (p: nat)
    ensures p >= 1
  {
    if n == 0 then 1 else 10 * Pow10(n - 1)
  }

  /** The nearest integer to `x`, ties to the even neighbour (Python's rounding rule). */
  function RoundHalfEven(x: real): (n: int)
    ensures x - 0.5 <= n as real <= x + 0.5
    ensures x == x.Floor as real ==> n == x.Floor
  {
    var f := x.Floor;
    var d := x - f as real;
    if d < 0.5 then f
    else if d > 0.5 then f + 1
    else if f % 2 == 0 then f
    else f + 1
  }

  /** `n` hundredths: the value of a number written with two decimals. */
  function Hundredths(n: int): real
  {
    n as real / 100.0
  }

  /** Python's `round(x, ndigits)`. */
  function Round(x: real, ndigits: nat): (r: real)
    ensures -0.5 / Pow10(ndigits) as real <= r - x <= 0.5 / Pow10(ndigits) as real
  {
    var scale := Pow10(ndigits) as real;
    var n := RoundHalfEven(x * scale);
    assert x * scale - 0.5 <= n as real <= x * scale + 0.5;
    DivBounds(n as real, x, scale);
    n as real / scale
  }

  lemma DivBounds(n: real, x: real, scale: real)
    requires scale >= 1.0
    requires x * scale - 0.5 <= n <= x * scale + 0.5
    ensures -0.5 / scale <= n / scale - x <= 0.5 / scale
  {
    assert n / scale - x == (n - x * scale) / scale;
  }

  /** Python's `int(a / b)` for a positive divisor: the quotient truncated toward zero. */
  function TruncDiv(a: int, b: int): (q: int)
    requires b > 0
    ensures a >= 0 ==> q == a / b
    ensures a >= 0 ==> q * b <= a < (q + 1) * b
    ensures a < 0 ==> q <= 0 && (q - 1) * b < a <= q * b
  {
    if a >= 0 then a / b else -((-a) / b)
  }

  /** Truncating division by a positive divisor keeps the order of non-negative dividends. */
  lemma TruncDivMonotone(a: int, b: int, d: int)
    requires 0 <= a <= b && d > 0
    ensures TruncDiv(a, d) <= TruncDiv(b, d)
  {
    var p, q := a / d, b / d;
    if p > q {
      assert p * d >= (q + 1) * d by {
        assert (p - (q + 1)) * d >= 0;
      }
    }
  }

  /** Python's `int(a // b)` on floats with a positive divisor: the floor of the quotient. */
  function FloorDiv(a: real, b: real): (q: int)
    requires b > 0.0
    ensures q as real <= a / b < q as real + 1.0
  {
    (a / b).Floor
  }

  /** Python's `a % b` on floats with a positive divisor: what is left after `a // b` whole `b`s. */
  function FloatMod(a: real, b: real): real
    requires b > 0.0
  {
    a - FloorDiv(a, b) as real * b
  }

  /** Shifting by an even integer shifts the half-to-even rounding by the same amount. */
  lemma RoundHalfEvenShift(x: real, k: int)
    ensures RoundHalfEven(x + (2 * k) as real) == RoundHalfEven(x) + 2 * k
  {
    var y := x + (2 * k) as real;
    assert y.Floor == x.Floor + 2 * k;
    assert y - y.Floor as real == x - x.Floor as real;
    assert (x.Floor + 2 * k) % 2 == x.Floor % 2;
  }

  function Sum(xs: seq<real>): real
  {
    if xs == [] then 0.0 else Sum(xs[..|xs| - 1]) + xs[|xs| - 1]
  }

  /** `sum(xs) / len(xs)` */
  function Mean(xs: seq<real>): real
    requires |xs| > 0
  {
    Sum(xs) / |xs| as real
  }

  /** Python's `max(xs)`: an element of `xs` no smaller than any other. */
  function MaxOf(xs: seq<real>): (m: real)
    requires |xs| > 0
    ensures m in xs
    ensures forall i :: 0 <= i < |xs| ==> xs[i] <= m
  {
    if |xs| == 1 then xs[0]
    else
      var rest := MaxOf(xs[..|xs| - 1]);
      assert forall i :: 0 <= i < |xs| - 1 ==> xs[..|xs| - 1][i] == xs[i];
      if xs[|xs| - 1] > rest then xs[|xs| - 1] else rest
  }

  /** Python's `min(xs)`: an element of `xs` no larger than any other. */
  function MinOf(xs: seq<real>): (m: real)
    requires |xs| > 0
    ensures m in xs
    ensures forall i :: 0 <= i < |xs| ==> m <= xs[i]
  {
    if |xs| == 1 then xs[0]
    else
      var rest := MinOf(xs[..|xs| - 1]);
      assert forall i :: 0 <= i < |xs| - 1 ==> xs[..|xs| - 1][i] == xs[i];
      if xs[|xs| - 1] < rest then xs[|xs| - 1] else rest
  }

  /** Every element bounded by `lo` and `hi` puts the sum between `n*lo` and `n*hi`. */
  lemma {:induction false} SumBetween(xs: seq<real>, lo: real, hi: real)
    requires forall i :: 0 <= i < |xs| ==> lo <= xs[i] <= hi
    ensures |xs| as real * lo <= Sum(xs) <= |xs| as real * hi
  {
    if xs != [] {
      var init := xs[..|xs| - 1];
      assert forall i :: 0 <= i < |init| ==> init[i] == xs[i];
      SumBetween(init, lo, hi);
      var k := |init| as real;
      assert Sum(xs) == Sum(init) + xs[|xs| - 1];
      assert |xs| as real == k + 1.0;
      assert (k + 1.0) * lo == k * lo + lo && (k + 1.0) * hi == k * hi + hi;
    }
  }

  /** The mean lies between the minimum and the maximum. */
  lemma {:induction false} MeanBetween(xs: seq<real>)
    requires |xs| > 0
    ensures MinOf(xs) <= Mean(xs) <= MaxOf(xs)
  {
    var lo, hi := MinOf(xs), MaxOf(xs);
    SumBetween(xs, lo, hi);
    DivideBounds(Sum(xs), |xs| as real, lo, hi);
  }

  lemma {:induction false} DivideBounds(a: real, n: real, lo: real, hi: real)
    requires n > 0.0
    requires n * lo <= a <= n * hi
    ensures lo <= a / n <= hi
  {
    assert a / n * n == a;
  }
}
