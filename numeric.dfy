/**
 * Exact-real stand-ins for the numpy and pandas reductions the scripts use.
 *
 * A numpy result that is not a finite number (the mean of an empty array,
 * a division by zero) is `None`.  Square roots and fractional powers are not
 * computed: callers receive them as function-typed parameters, and the lemmas
 * that need square-root semantics assume `IsSqrt`.
 */
module Numeric {

  datatype Option<+T> = None | Some(value: T)

  datatype Result<+T, +E> = Success(value: T) | Failure(error: E)

  function Abs(x: real): real
  {
    if x < 0.0 then -x else x
  }

  /** Python's built-in `max(a, b)`: the first argument unless the second is larger. */
  function Max(a: real, b: real): (r: real)
    ensures r >= a && r >= b && (r == a || r == b)
  {
    if b > a then b else a
  }

  /** `x - 1` lifted to a value that may be missing. */
  function MinusOne(o: Option<real>): Option<real>
  {
    match o
    case None => None
    case Some(x) => Some(x - 1.0)
  }

  /** Division; a zero divisor gives a non-finite numpy value. */
  function Quot(a: real, b: real): (r: Option<real>)
    ensures r.Some? <==> b != 0.0
  {
    if b == 0.0 then None else Some(a / b)
  }

  predicate AllPositive(xs: seq<real>)
  {
    forall i :: 0 <= i < |xs| ==> xs[i] > 0.0
  }

  // ---------------------------------------------------------------- sums

  function Sum(xs: seq<real>): real
  {
    if |xs| == 0 then 0.0 else Sum(xs[..|xs| - 1]) + xs[|xs| - 1]
  }

  lemma {:induction false} SumAppend(a: seq<real>, b: seq<real>)
    ensures Sum(a + b) == Sum(a) + Sum(b)
  {
    if |b| == 0 {
      assert a + b == a;
    } else {
      assert (a + b)[..|a + b| - 1] == a + b[..|b| - 1];
      SumAppend(a, b[..|b| - 1]);
    }
  }

  lemma {:induction false} SumNonNegative(xs: seq<real>)
    requires forall i :: 0 <= i < |xs| ==> xs[i] >= 0.0
    ensures Sum(xs) >= 0.0
  {
    if |xs| > 0 {
      SumNonNegative(xs[..|xs| - 1]);
    }
  }

  lemma {:induction false} SumPositive(xs: seq<real>)
    requires |xs| > 0 && AllPositive(xs)
    ensures Sum(xs) > 0.0
  {
    if |xs| > 1 {
      SumPositive(xs[..|xs| - 1]);
    }
  }

  /** A sum of non-negative terms is zero only when every term is. */
  lemma {:induction false} SumZeroAllZero(xs: seq<real>)
    requires forall i :: 0 <= i < |xs| ==> xs[i] >= 0.0
    requires Sum(xs) == 0.0
    ensures forall i :: 0 <= i < |xs| ==> xs[i] == 0.0
  {
    if |xs| > 0 {
      SumNonNegative(xs[..|xs| - 1]);
      SumZeroAllZero(xs[..|xs| - 1]);
    }
  }

  /** `Sum` of a constant sequence. */
  lemma {:induction false} SumConstant(xs: seq<real>, c: real)
    requires forall i :: 0 <= i < |xs| ==> xs[i] == c
    ensures Sum(xs) == |xs| as real * c
  {
    if |xs| > 0 {
      SumConstant(xs[..|xs| - 1], c);
    }
  }

  /** The number of `true` entries. */
  function Count(bs: seq<bool>): (r: nat)
    ensures r <= |bs|
  {
    if |bs| == 0 then 0 else Count(bs[..|bs| - 1]) + (if bs[|bs| - 1] then 1 else 0)
  }

  /** Every entry is counted exactly when all are `true`; none is exactly when all are `false`. */
  lemma {:induction false} CountExtremes(bs: seq<bool>)
    ensures Count(bs) == |bs| <==> forall i :: 0 <= i < |bs| ==> bs[i]
    ensures Count(bs) == 0 <==> forall i :: 0 <= i < |bs| ==> !bs[i]
  {
    if |bs| > 0 {
      var init := bs[..|bs| - 1];
      CountExtremes(init);
      assert forall i :: 0 <= i < |init| ==> init[i] == bs[i];
    }
  }

  // ------------------------------------------------- elementwise helpers

  function Deviations(xs: seq<real>, m: real): (r: seq<real>)
    ensures |r| == |xs| && forall i :: 0 <= i < |xs| ==> r[i] == xs[i] - m
  {
    seq(|xs|, i requires 0 <= i < |xs| => xs[i] - m)
  }

  function Scale(xs: seq<real>, c: real): (r: seq<real>)
    ensures |r| == |xs| && forall i :: 0 <= i < |xs| ==> r[i] == c * xs[i]
  {
    seq(|xs|, i requires 0 <= i < |xs| => c * xs[i])
  }

  function Squares(xs: seq<real>): (r: seq<real>)
    ensures |r| == |xs| && forall i :: 0 <= i < |xs| ==> r[i] == xs[i] * xs[i]
  {
    seq(|xs|, i requires 0 <= i < |xs| => xs[i] * xs[i])
  }

  lemma ScaleInit(xs: seq<real>, c: real)
    requires |xs| > 0
    ensures Scale(xs, c)[..|xs| - 1] == Scale(xs[..|xs| - 1], c)
  {
    var init := xs[..|xs| - 1];
    forall i | 0 <= i < |init| ensures Scale(xs, c)[..|xs| - 1][i] == Scale(init, c)[i] {
      assert init[i] == xs[i];
    }
  }

  lemma {:induction false} SumScale(xs: seq<real>, c: real)
    ensures Sum(Scale(xs, c)) == c * Sum(xs)
  {
    if |xs| > 0 {
      var init, last := xs[..|xs| - 1], xs[|xs| - 1];
      var a := Sum(init);
      assert Sum(Scale(xs, c)) == c * a + c * last by {
        ScaleInit(xs, c);
        SumScale(init, c);
      }
      Distribute(c, a, last);
    }
  }

  lemma Distribute(c: real, a: real, b: real)
    ensures c * a + c * b == c * (a + b)
  {
  }

  lemma {:induction false} SumDeviations(xs: seq<real>, m: real)
    ensures Sum(Deviations(xs, m)) == Sum(xs) - |xs| as real * m
  {
    if |xs| > 0 {
      assert Deviations(xs, m)[..|xs| - 1] == Deviations(xs[..|xs| - 1], m);
      SumDeviations(xs[..|xs| - 1], m);
    }
  }

  lemma SquaresOfScale(xs: seq<real>, c: real)
    ensures Squares(Scale(xs, c)) == Scale(Squares(xs), c * c)
  {
    var l, r := Squares(Scale(xs, c)), Scale(Squares(xs), c * c);
    forall i | 0 <= i < |xs| ensures l[i] == r[i] {
      calc {
        l[i];
        (c * xs[i]) * (c * xs[i]);
        (c * c) * (xs[i] * xs[i]);
      }
    }
  }

  // --------------------------------------------- mean, variance, std

  /** numpy `mean`: not finite for an empty array. */
  function Mean(xs: seq<real>): (r: Option<real>)
    ensures r.Some? <==> |xs| > 0
    ensures r.Some? ==> r.value * |xs| as real == Sum(xs)
  {
    if |xs| == 0 then None else Some(Sum(xs) / |xs| as real)
  }

  lemma MeanConstant(xs: seq<real>, c: real)
    requires |xs| > 0 && forall i :: 0 <= i < |xs| ==> xs[i] == c
    ensures Mean(xs) == Some(c)
  {
    var n := |xs| as real;
    SumConstant(xs, c);
    var m := Mean(xs).value;
    assert m * n == n * c;
    assert (m - c) * n == 0.0;
  }

  lemma MeanPositive(xs: seq<real>)
    requires |xs| > 0 && AllPositive(xs)
    ensures Mean(xs).value > 0.0
  {
    SumPositive(xs);
  }

  lemma MeanNonNegative(xs: seq<real>)
    requires |xs| > 0 && forall i :: 0 <= i < |xs| ==> xs[i] >= 0.0
    ensures Mean(xs).value >= 0.0
  {
    SumNonNegative(xs);
  }

  /** A mean is zero exactly when every non-negative term is. */
  lemma MeanZeroIff(xs: seq<real>)
    requires |xs| > 0 && forall i :: 0 <= i < |xs| ==> xs[i] >= 0.0
    ensures Mean(xs).value == 0.0 <==> forall i :: 0 <= i < |xs| ==> xs[i] == 0.0
  {
    SumNonNegative(xs);
    if Mean(xs).value == 0.0 {
      SumZeroAllZero(xs);
    }
    if forall i :: 0 <= i < |xs| ==> xs[i] == 0.0 {
      SumConstant(xs, 0.0);
    }
  }

  /** Sum of squared deviations from the mean (numpy's `((x - x.mean())**2).sum()`). */
  function SumSquaredDeviations(xs: seq<real>): real
    requires |xs| > 0
  {
    Sum(Squares(Deviations(xs, Mean(xs).value)))
  }

  /** numpy `var` (ddof = 0). */
  function PopVariance(xs: seq<real>): Option<real>
  {
    if |xs| == 0 then None else Some(SumSquaredDeviations(xs) / |xs| as real)
  }

  /** pandas `var` (ddof = 1): needs at least two values. */
  function SampleVariance(xs: seq<real>): Option<real>
  {
    if |xs| < 2 then None else Some(SumSquaredDeviations(xs) / (|xs| - 1) as real)
  }

  /** numpy `std` (ddof = 0), with the square root supplied by the caller. */
  function Std(xs: seq<real>, sqrt: real -> real): Option<real>
  {
    if |xs| == 0 then None else Some(sqrt(PopVariance(xs).value))
  }

  /** pandas `std` (ddof = 1), with the square root supplied by the caller. */
  function SampleStd(xs: seq<real>, sqrt: real -> real): Option<real>
  {
    if |xs| < 2 then None else Some(sqrt(SampleVariance(xs).value))
  }

  /** `sqrt` is a square root on the non-negative reals. */
  ghost predicate IsSqrt(sqrt: real -> real)
  {
    forall v: real {:trigger sqrt(v)} :: v >= 0.0 ==> sqrt(v) >= 0.0 && sqrt(v) * sqrt(v) == v
  }

  lemma SqrtZeroIff(sqrt: real -> real, v: real)
    requires IsSqrt(sqrt) && v >= 0.0
    ensures sqrt(v) >= 0.0
    ensures sqrt(v) == 0.0 <==> v == 0.0
  {
    var s := sqrt(v);
    assert s * s == v;
    if v == 0.0 {
      SquareZero(s, v);
    }
  }

  // The solver's nonlinear reasoning about `x * x` is brittle; these lemmas
  // state the facts about products through a separate name for the product.

  lemma ProductPositive(a: real, b: real, p: real)
    requires a > 0.0 && b > 0.0 && p == a * b
    ensures p > 0.0
  {
  }

  lemma SquarePositive(x: real, sq: real)
    requires x != 0.0 && sq == x * x
    ensures sq > 0.0
  {
    if x > 0.0 {
      ProductPositive(x, x, sq);
    } else {
      var y := -x;
      assert sq == y * y;
      ProductPositive(y, y, sq);
    }
  }

  lemma SquareNonNegative(x: real, sq: real)
    requires sq == x * x
    ensures sq >= 0.0
  {
    if x != 0.0 {
      SquarePositive(x, sq);
    }
  }

  lemma SquareZero(x: real, sq: real)
    requires sq == x * x && sq == 0.0
    ensures x == 0.0
  {
    if x != 0.0 {
      SquarePositive(x, sq);
    }
  }

  lemma {:induction false} SumSquaresNonNegative(xs: seq<real>)
    ensures Sum(Squares(xs)) >= 0.0
  {
    var sq := Squares(xs);
    forall i | 0 <= i < |sq| ensures sq[i] >= 0.0 {
      SquareNonNegative(xs[i], sq[i]);
    }
    SumNonNegative(sq);
  }

  /** A sum of squares vanishes exactly when every term is zero. */
  lemma SumSquaresZeroIff(xs: seq<real>)
    ensures Sum(Squares(xs)) == 0.0 <==> forall i :: 0 <= i < |xs| ==> xs[i] == 0.0
  {
    var sq := Squares(xs);
    forall i | 0 <= i < |sq| ensures sq[i] >= 0.0 {
      SquareNonNegative(xs[i], sq[i]);
    }
    if Sum(sq) == 0.0 {
      SumZeroAllZero(sq);
      forall i | 0 <= i < |xs| ensures xs[i] == 0.0 {
        SquareZero(xs[i], sq[i]);
      }
    }
    if forall i :: 0 <= i < |xs| ==> xs[i] == 0.0 {
      SumConstant(sq, 0.0);
    }
  }

  lemma ZeroSquaredDeviationsConstant(xs: seq<real>)
    requires |xs| > 0 && SumSquaredDeviations(xs) == 0.0
    ensures forall i :: 0 <= i < |xs| ==> xs[i] == xs[0]
  {
    var m := Mean(xs).value;
    var d := Deviations(xs, m);
    var sq := Squares(d);
    forall i | 0 <= i < |sq| ensures sq[i] >= 0.0 {
      SquareNonNegative(d[i], sq[i]);
    }
    SumZeroAllZero(sq);
    forall i | 0 <= i < |xs| ensures xs[i] == m {
      SquareZero(d[i], sq[i]);
    }
  }

  lemma ConstantZeroSquaredDeviations(xs: seq<real>)
    requires |xs| > 0 && forall i :: 0 <= i < |xs| ==> xs[i] == xs[0]
    ensures SumSquaredDeviations(xs) == 0.0
  {
    MeanConstant(xs, xs[0]);
    var d := Deviations(xs, xs[0]);
    var sq := Squares(d);
    forall i | 0 <= i < |sq| ensures sq[i] == 0.0 {
      assert d[i] == 0.0;
    }
    SumConstant(sq, 0.0);
  }

  /** Both variances are non-negative and vanish exactly on constant data. */
  lemma VarianceZeroIffConstant(xs: seq<real>)
    requires |xs| > 0
    ensures SumSquaredDeviations(xs) >= 0.0
    ensures SumSquaredDeviations(xs) == 0.0 <==> forall i :: 0 <= i < |xs| ==> xs[i] == xs[0]
  {
    SumSquaresNonNegative(Deviations(xs, Mean(xs).value));
    if SumSquaredDeviations(xs) == 0.0 {
      ZeroSquaredDeviationsConstant(xs);
    }
    if forall i :: 0 <= i < |xs| ==> xs[i] == xs[0] {
      ConstantZeroSquaredDeviations(xs);
    }
  }

  /** A centred sample, scaled, sums to zero. */
  lemma CentredScaledSum(xs: seq<real>, k: real)
    requires |xs| > 0
    ensures Sum(Scale(Deviations(xs, Mean(xs).value), k)) == 0.0
  {
    var m := Mean(xs).value;
    var dev := Deviations(xs, m);
    assert Sum(dev) == 0.0 by {
      SumDeviations(xs, m);
      assert m * |xs| as real == Sum(xs);
    }
    SumScale(dev, k);
  }

  /** A centred sample, scaled, still has mean zero. */
  lemma CentredScaledMean(xs: seq<real>, k: real)
    requires |xs| > 0
    ensures Mean(Scale(Deviations(xs, Mean(xs).value), k)) == Some(0.0)
  {
    CentredScaledSum(xs, k);
  }

  /** Scaling a centred sample by `k` scales its sum of squared deviations by `k * k`. */
  lemma CentredScaledSquares(xs: seq<real>, k: real)
    requires |xs| > 0
    ensures SumSquaredDeviations(Scale(Deviations(xs, Mean(xs).value), k)) == k * k * SumSquaredDeviations(xs)
  {
    var dev := Deviations(xs, Mean(xs).value);
    var z := Scale(dev, k);
    CentredScaledMean(xs, k);
    assert Deviations(z, 0.0) == z;
    SquaresOfScale(dev, k);
    SumScale(Squares(dev), k * k);
  }

  /** Centring a sample and scaling it by `k` multiplies its population variance by `k * k`. */
  lemma ScaledDeviationsVariance(xs: seq<real>, k: real)
    requires |xs| > 0
    ensures var v := PopVariance(Scale(Deviations(xs, Mean(xs).value), k));
      v.Some? && v.value == k * k * PopVariance(xs).value
  {
    var z := Scale(Deviations(xs, Mean(xs).value), k);
    CentredScaledSquares(xs, k);
    assert |z| == |xs|;
    QuotientOfScaled(SumSquaredDeviations(z), SumSquaredDeviations(xs), k * k, |xs| as real);
  }

  lemma QuotientOfScaled(a: real, b: real, c: real, n: real)
    requires n > 0.0 && a == c * b
    ensures a / n == c * (b / n)
  {
    var p, q := a / n, b / n;
    assert p * n == a;
    assert q * n == b;
    assert (p - c * q) * n == p * n - c * (q * n);
    assert (p - c * q) * n == 0.0;
  }

  /** Dividing by the square root of a positive variance leaves unit variance. */
  lemma InverseSquareTimes(sd: real, v: real)
    requires v > 0.0 && sd * sd == v
    ensures (1.0 / sd) * (1.0 / sd) * v == 1.0
  {
    var k := 1.0 / sd;
    assert sd != 0.0;
    assert k * sd == 1.0;
    assert (k * sd) * (k * sd) == 1.0;
  }

  /** Dividing a sample's deviations by a square root of its positive variance gives variance 1. */
  lemma UnitVarianceFromRoot(xs: seq<real>, sd: real)
    requires |xs| > 0 && PopVariance(xs).value > 0.0
    requires sd * sd == PopVariance(xs).value
    ensures sd != 0.0
    ensures PopVariance(Scale(Deviations(xs, Mean(xs).value), 1.0 / sd)) == Some(1.0)
  {
    var v := PopVariance(xs).value;
    var k := 1.0 / sd;
    var pz := PopVariance(Scale(Deviations(xs, Mean(xs).value), k));
    ScaledDeviationsVariance(xs, k);
    assert pz.Some? && pz.value == k * k * v;
    InverseSquareTimes(sd, v);
    assert pz.value == 1.0;
  }

  /** Dividing a non-constant sample's deviations by its (true) population std gives variance 1. */
  lemma StandardizedUnitVariance(xs: seq<real>, sqrt: real -> real)
    requires |xs| > 0 && IsSqrt(sqrt)
    requires exists i :: 0 <= i < |xs| && xs[i] != xs[0]
    ensures Std(xs, sqrt).value != 0.0
    ensures PopVariance(Scale(Deviations(xs, Mean(xs).value), 1.0 / Std(xs, sqrt).value)) == Some(1.0)
  {
    var v := PopVariance(xs).value;
    assert v > 0.0 by {
      VarianceZeroIffConstant(xs);
      assert SumSquaredDeviations(xs) > 0.0;
    }
    var sd := Std(xs, sqrt).value;
    assert sd * sd == v;
    UnitVarianceFromRoot(xs, sd);
  }

  /** The relative distance of a positive value below its positive peak. */
  lemma DrawdownRange(x: real, peak: real)
    requires 0.0 < x <= peak
    ensures -1.0 < x / peak - 1.0 <= 0.0
    ensures -1.0 < (x - peak) / peak <= 0.0
  {
    var q := x / peak;
    assert q * peak == x;
    assert 0.0 < q <= 1.0;
    var r := (x - peak) / peak;
    assert r * peak == x - peak;
    assert (q - 1.0) * peak == x - peak;
    assert (r - (q - 1.0)) * peak == 0.0;
  }

  // ----------------------------------------------- extrema of sequences

  function SeqMax(xs: seq<real>): (r: real)
    requires |xs| > 0
    ensures forall i :: 0 <= i < |xs| ==> xs[i] <= r
    ensures exists i :: 0 <= i < |xs| && xs[i] == r
  {
    if |xs| == 1 then xs[0]
    else
      var m := SeqMax(xs[..|xs| - 1]);
      assert forall i :: 0 <= i < |xs| - 1 ==> xs[..|xs| - 1][i] == xs[i];
      if xs[|xs| - 1] > m then xs[|xs| - 1] else m
  }

  function SeqMin(xs: seq<real>): (r: real)
    requires |xs| > 0
    ensures forall i :: 0 <= i < |xs| ==> r <= xs[i]
    ensures exists i :: 0 <= i < |xs| && xs[i] == r
  {
    if |xs| == 1 then xs[0]
    else
      var m := SeqMin(xs[..|xs| - 1]);
      assert forall i :: 0 <= i < |xs| - 1 ==> xs[..|xs| - 1][i] == xs[i];
      if xs[|xs| - 1] < m then xs[|xs| - 1] else m
  }

  /** numpy `maximum.accumulate`: the running peak. */
  function RunningMax(xs: seq<real>): (r: seq<real>)
    ensures |r| == |xs|
  {
    seq(|xs|, i requires 0 <= i < |xs| => SeqMax(xs[..i + 1]))
  }

  lemma RunningMaxBounds(xs: seq<real>, i: nat)
    requires i < |xs|
    ensures RunningMax(xs)[i] >= xs[i]
    ensures forall j :: 0 <= j <= i ==> xs[j] <= RunningMax(xs)[i]
    ensures exists j :: 0 <= j <= i && xs[j] == RunningMax(xs)[i]
  {
    var p := xs[..i + 1];
    assert forall j :: 0 <= j <= i ==> p[j] == xs[j];
    assert p[i] == xs[i];
  }

  /** `(x - peak) / peak` against the running peak; missing where the peak is zero. */
  function Drawdowns(x: seq<real>): (dd: seq<Option<real>>)
    ensures |dd| == |x|
  {
    var peak := RunningMax(x);
    seq(|x|, i requires 0 <= i < |x| => Quot(x[i] - peak[i], peak[i]))
  }

  /** On a positive series every drawdown is defined, never positive and above -1. */
  lemma DrawdownsInRange(x: seq<real>)
    requires AllPositive(x)
    ensures forall i :: 0 <= i < |x| ==> Drawdowns(x)[i].Some? && -1.0 < Drawdowns(x)[i].value <= 0.0
  {
    var peak := RunningMax(x);
    var dd := Drawdowns(x);
    forall i | 0 <= i < |x| ensures dd[i].Some? && -1.0 < dd[i].value <= 0.0 {
      RunningMaxBounds(x, i);
      assert 0.0 < x[i] <= peak[i];
      assert dd[i] == Some((x[i] - peak[i]) / peak[i]);
      DrawdownRange(x[i], peak[i]);
    }
  }

  /** The deepest of values that all lie in `(-1, 0]` lies there too. */
  lemma SeqMinInRange(v: seq<real>)
    requires |v| > 0 && forall i :: 0 <= i < |v| ==> -1.0 < v[i] <= 0.0
    ensures -1.0 < SeqMin(v) <= 0.0
  {
    var j :| 0 <= j < |v| && v[j] == SeqMin(v);
  }

  // ------------------------------------------------------- option columns

  predicate AllSome(xs: seq<Option<real>>)
  {
    forall i :: 0 <= i < |xs| ==> xs[i].Some?
  }

  function Values(xs: seq<Option<real>>): (r: seq<real>)
    requires AllSome(xs)
    ensures |r| == |xs| && forall i :: 0 <= i < |xs| ==> r[i] == xs[i].value
  {
    seq(|xs|, i requires 0 <= i < |xs| => xs[i].value)
  }

  /** pandas `dropna` on one column: the defined values, in order. */
  function DropMissing(xs: seq<Option<real>>): (r: seq<real>)
    ensures |r| <= |xs|
  {
    if |xs| == 0 then []
    else
      DropMissing(xs[..|xs| - 1]) + (if xs[|xs| - 1].Some? then [xs[|xs| - 1].value] else [])
  }

  lemma {:induction false} DropMissingAllSome(xs: seq<Option<real>>)
    requires AllSome(xs)
    ensures DropMissing(xs) == Values(xs)
  {
    if |xs| > 0 {
      DropMissingAllSome(xs[..|xs| - 1]);
      assert Values(xs[..|xs| - 1]) + [xs[|xs| - 1].value] == Values(xs);
    }
  }

  /** `dropna` commutes with concatenation. */
  lemma {:induction false} DropMissingAppend(a: seq<Option<real>>, b: seq<Option<real>>)
    ensures DropMissing(a + b) == DropMissing(a) + DropMissing(b)
  {
    if |b| == 0 {
      assert a + b == a;
    } else {
      assert (a + b)[..|a + b| - 1] == a + b[..|b| - 1];
      DropMissingAppend(a, b[..|b| - 1]);
    }
  }

  /** A column missing only in its first row loses exactly that row. */
  lemma DropMissingAfterFirst(xs: seq<Option<real>>)
    requires |xs| > 0 && xs[0].None? && AllSome(xs[1..])
    ensures DropMissing(xs) == Values(xs[1..])
  {
    assert xs == [xs[0]] + xs[1..];
    DropMissingAppend([xs[0]], xs[1..]);
    assert DropMissing([xs[0]]) == [] by {
      assert [xs[0]][..0] == [];
    }
    DropMissingAllSome(xs[1..]);
  }
}
