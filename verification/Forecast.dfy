/** The least-squares forecast of the shared-cooling proof: a fitted line and the
    first sample at which it reaches a threshold. Products and quotients have
    names of their own, so that proofs about sums can leave them folded. */
module Forecast {
  import opened Core

  datatype Sample = Sample(x: real, y: real)

  /** `slope` and `intercept` of the fitted line, and the sample it crosses the threshold at. */
  datatype Fit = Fit(slope: real, intercept: real, crossing: Option<int>)

  datatype FitError = NoSamples | ZeroDivision

  function Mul(a: real, b: real): real {
    a * b
  }

  function Div(a: real, b: real): real
    requires b != 0.0
  {
    a / b
  }

  // ---- Sums ----

  function SumX(s: seq<Sample>): real {
    if s == [] then 0.0 else s[0].x + SumX(s[1..])
  }

  function SumY(s: seq<Sample>): real {
    if s == [] then 0.0 else s[0].y + SumY(s[1..])
  }

  function SumXX(s: seq<Sample>): real {
    if s == [] then 0.0 else Mul(s[0].x, s[0].x) + SumXX(s[1..])
  }

  function SumXY(s: seq<Sample>): real {
    if s == [] then 0.0 else Mul(s[0].x, s[0].y) + SumXY(s[1..])
  }

  function SumYY(s: seq<Sample>): real {
    if s == [] then 0.0 else Mul(s[0].y, s[0].y) + SumYY(s[1..])
  }

  /** The sum of (x - mx)(x - mx). */
  function Spread(s: seq<Sample>, mx: real): real {
    if s == [] then 0.0 else Mul(s[0].x - mx, s[0].x - mx) + Spread(s[1..], mx)
  }

  /** The sum of (x - mx)(y - my). */
  function CoSpread(s: seq<Sample>, mx: real, my: real): real {
    if s == [] then 0.0 else Mul(s[0].x - mx, s[0].y - my) + CoSpread(s[1..], mx, my)
  }

  function Residual(p: Sample, a: real, b: real): real {
    p.y - (b + Mul(a, p.x))
  }

  /** The sum of squared residuals of the line with slope `a` and intercept `b`. */
  function Error(s: seq<Sample>, a: real, b: real): real {
    if s == [] then 0.0 else Mul(Residual(s[0], a, b), Residual(s[0], a, b)) + Error(s[1..], a, b)
  }

  // ---- The forecast ----

  function Ceiling(r: real): int {
    -((-r).Floor)
  }

  const TOLERANCE := 0.000000001

  function LinearForecast(s: seq<Sample>, threshold: real): Result<Fit, FitError> {
    if s == [] then Err(NoSamples)
    else
      var mx, my := Div(SumX(s), |s| as real), Div(SumY(s), |s| as real);
      var denominator := Spread(s, mx);
      if denominator == 0.0 then Err(ZeroDivision)
      else
        var slope := Div(CoSpread(s, mx, my), denominator);
        var intercept := my - Mul(slope, mx);
        Ok(Fit(slope, intercept, Crossing(slope, intercept, threshold)))
  }

  function Crossing(slope: real, intercept: real, threshold: real): Option<int> {
    if slope > 0.0 then Some(Ceiling(Div(threshold - intercept, slope) - TOLERANCE)) else None
  }

  // ---- Moments: each sum as a polynomial in the five plain sums ----

  function SpreadPoly(n: real, sx: real, sxx: real, m: real): real {
    sxx - 2.0 * m * sx + n * (m * m)
  }

  lemma {:induction false} SpreadMoments(s: seq<Sample>, m: real)
    ensures Spread(s, m) == SpreadPoly(|s| as real, SumX(s), SumXX(s), m)
  {
    if s != [] {
      hide Mul;
      hide SpreadPoly;
      var t := s[1..];
      SpreadMoments(t, m);
      SpreadStep(|t| as real, SumX(t), SumXX(t), m, s[0].x);
    }
  }

  lemma SpreadStep(n: real, sx: real, sxx: real, m: real, x: real)
    ensures Mul(x - m, x - m) + SpreadPoly(n, sx, sxx, m) == SpreadPoly(n + 1.0, x + sx, Mul(x, x) + sxx, m)
  {
  }

  function CoSpreadPoly(n: real, sx: real, sy: real, sxy: real, mx: real, my: real): real {
    sxy - my * sx - mx * sy + n * (mx * my)
  }

  lemma {:induction false} CoSpreadMoments(s: seq<Sample>, mx: real, my: real)
    ensures CoSpread(s, mx, my) == CoSpreadPoly(|s| as real, SumX(s), SumY(s), SumXY(s), mx, my)
  {
    if s != [] {
      hide Mul;
      hide CoSpreadPoly;
      var t := s[1..];
      CoSpreadMoments(t, mx, my);
      CoSpreadStep(|t| as real, SumX(t), SumY(t), SumXY(t), mx, my, s[0].x, s[0].y);
    }
  }

  lemma CoSpreadStep(n: real, sx: real, sy: real, sxy: real, mx: real, my: real, x: real, y: real)
    ensures Mul(x - mx, y - my) + CoSpreadPoly(n, sx, sy, sxy, mx, my)
         == CoSpreadPoly(n + 1.0, x + sx, y + sy, Mul(x, y) + sxy, mx, my)
  {
  }

  function ErrorPoly(n: real, sx: real, sy: real, sxx: real, sxy: real, syy: real, a: real, b: real): real {
    syy - 2.0 * b * sy - 2.0 * a * sxy + n * (b * b) + 2.0 * (a * b) * sx + a * a * sxx
  }

  lemma {:induction false} ErrorIsMoments(s: seq<Sample>, a: real, b: real)
    ensures Error(s, a, b) == ErrorPoly(|s| as real, SumX(s), SumY(s), SumXX(s), SumXY(s), SumYY(s), a, b)
  {
    if s != [] {
      hide Mul;
      hide ErrorPoly;
      var t := s[1..];
      ErrorIsMoments(t, a, b);
      ErrorStep(|t| as real, SumX(t), SumY(t), SumXX(t), SumXY(t), SumYY(t), a, b, s[0].x, s[0].y, Residual(s[0], a, b));
    }
  }

  lemma ErrorStep(n: real, sx: real, sy: real, sxx: real, sxy: real, syy: real, a: real, b: real, x: real, y: real, r: real)
    requires r == y - (b + Mul(a, x))
    ensures Mul(r, r) + ErrorPoly(n, sx, sy, sxx, sxy, syy, a, b)
         == ErrorPoly(n + 1.0, x + sx, y + sy, Mul(x, x) + sxx, Mul(x, y) + sxy, Mul(y, y) + syy, a, b)
  {
    var ax := a * x;
    assert r * r == y * y - 2.0 * b * y - 2.0 * (ax * y) + b * b + 2.0 * (ax * b) + ax * ax;
    assert ax * y == a * (x * y) && ax * b == a * b * x && ax * ax == a * a * (x * x);
  }

  // ---- When a line exists ----

  lemma SquareSign(d: real)
    ensures Mul(d, d) >= 0.0 && (Mul(d, d) == 0.0 <==> d == 0.0)
  {
    if d > 0.0 { PositiveProduct(d, d, Mul(d, d)); }
    if d < 0.0 { PositiveProduct(-d, -d, Mul(d, d)); }
  }

  lemma PositiveProduct(a: real, b: real, q: real)
    requires a > 0.0 && b > 0.0 && q == a * b
    ensures q > 0.0
  {
  }

  lemma {:induction false} SpreadNonNegative(s: seq<Sample>, mx: real)
    ensures Spread(s, mx) >= 0.0
    ensures Spread(s, mx) == 0.0 <==> forall i :: 0 <= i < |s| ==> s[i].x == mx
  {
    if s != [] {
      hide Mul;
      SpreadNonNegative(s[1..], mx);
      SquareSign(s[0].x - mx);
      assert forall i :: 1 <= i < |s| ==> s[i] == s[1..][i - 1];
      assert forall i :: 0 <= i < |s[1..]| ==> s[1..][i] == s[i + 1];
    }
  }

  lemma {:induction false} SumOfEqual(s: seq<Sample>, c: real)
    requires forall i :: 0 <= i < |s| ==> s[i].x == c
    ensures SumX(s) == |s| as real * c
  {
    if s != [] {
      SumOfEqual(s[1..], c);
    }
  }

  lemma MeanOfEqual(n: real, c: real, sum: real)
    requires n > 0.0 && sum == n * c
    ensures Div(sum, n) == c
  {
    var m := Div(sum, n);
    assert m * n == n * c;
    assert (m - c) * n == 0.0;
  }

  predicate TwoPositions(s: seq<Sample>) {
    exists i, j :: 0 <= i < j < |s| && s[i].x != s[j].x
  }

  /** A line is fitted exactly when two samples stand at different positions. */
  lemma FitExistsExactlyWhen(s: seq<Sample>, threshold: real)
    ensures LinearForecast(s, threshold).Ok? <==> TwoPositions(s)
  {
    if s != [] {
      hide Mul;
      hide Div;
      SpreadNonNegative(s, Div(SumX(s), |s| as real));
      if !TwoPositions(s) {
        var c := s[0].x;
        assert forall i :: 0 <= i < |s| ==> s[i].x == c;
        SumOfEqual(s, c);
        MeanOfEqual(|s| as real, c, SumX(s));
      }
    }
  }

  // ---- The fitted line is the best one ----

  /** The two normal equations: the residuals of the line sum to zero and are
      uncorrelated with the positions. */
  predicate Normal(n: real, sx: real, sy: real, sxx: real, sxy: real, slope: real, intercept: real) {
    && n * intercept + slope * sx == sy
    && intercept * sx + slope * sxx == sxy
  }

  predicate NormalLine(s: seq<Sample>, slope: real, intercept: real) {
    Normal(|s| as real, SumX(s), SumY(s), SumXX(s), SumXY(s), slope, intercept)
  }

  lemma FitIsNormal(s: seq<Sample>, threshold: real)
    requires LinearForecast(s, threshold).Ok?
    ensures NormalLine(s, LinearForecast(s, threshold).value.slope, LinearForecast(s, threshold).value.intercept)
  {
    hide Mul;
    hide Div;
    hide SpreadPoly;
    hide CoSpreadPoly;
    hide Normal;
    hide Crossing;
    var n, f := |s| as real, LinearForecast(s, threshold).value;
    var mx, my := Div(SumX(s), n), Div(SumY(s), n);
    SpreadMoments(s, mx);
    CoSpreadMoments(s, mx, my);
    NormalFromMoments(n, SumX(s), SumY(s), SumXX(s), SumXY(s), mx, my,
                      Spread(s, mx), CoSpread(s, mx, my), f.slope, f.intercept);
  }

  lemma NormalFromMoments(n: real, sx: real, sy: real, sxx: real, sxy: real, mx: real, my: real,
                          d: real, c: real, slope: real, intercept: real)
    requires n > 0.0 && d != 0.0
    requires mx == Div(sx, n) && my == Div(sy, n) && slope == Div(c, d) && intercept == my - Mul(slope, mx)
    requires d == SpreadPoly(n, sx, sxx, mx) && c == CoSpreadPoly(n, sx, sy, sxy, mx, my)
    ensures Normal(n, sx, sy, sxx, sxy, slope, intercept)
  {
    assert mx * n == sx && my * n == sy && slope * d == c;
    NormalFromProducts(n, sx, sy, sxx, sxy, mx, my, d, c, slope, intercept, slope * mx);
  }

  lemma NormalFromProducts(n: real, sx: real, sy: real, sxx: real, sxy: real, mx: real, my: real,
                           d: real, c: real, slope: real, intercept: real, sm: real)
    requires mx * n == sx && my * n == sy && slope * d == c
    requires sm == slope * mx && intercept == my - sm
    requires d == SpreadPoly(n, sx, sxx, mx) && c == CoSpreadPoly(n, sx, sy, sxy, mx, my)
    ensures Normal(n, sx, sy, sxx, sxy, slope, intercept)
  {
    assert n * (mx * mx) == mx * sx && n * (mx * my) == mx * sy;
    assert d == sxx - mx * sx && c == sxy - my * sx;
    assert n * sm == slope * sx;
    assert sm * sx == slope * (mx * sx);
  }

  /** The gap between two lines that differ by `u` in slope and `v` in intercept. */
  function LineGap(s: seq<Sample>, u: real, v: real): real {
    if s == [] then 0.0 else Mul(v + Mul(u, s[0].x), v + Mul(u, s[0].x)) + LineGap(s[1..], u, v)
  }

  function GapPoly(n: real, sx: real, sxx: real, u: real, v: real): real {
    n * (v * v) + 2.0 * (u * v) * sx + u * u * sxx
  }

  lemma {:induction false} LineGapMoments(s: seq<Sample>, u: real, v: real)
    ensures LineGap(s, u, v) == GapPoly(|s| as real, SumX(s), SumXX(s), u, v)
  {
    if s != [] {
      hide Mul;
      hide GapPoly;
      var t := s[1..];
      LineGapMoments(t, u, v);
      LineGapStep(|t| as real, SumX(t), SumXX(t), u, v, s[0].x, v + Mul(u, s[0].x));
    }
  }

  lemma LineGapStep(n: real, sx: real, sxx: real, u: real, v: real, x: real, r: real)
    requires r == v + Mul(u, x)
    ensures Mul(r, r) + GapPoly(n, sx, sxx, u, v) == GapPoly(n + 1.0, x + sx, Mul(x, x) + sxx, u, v)
  {
    var ux := u * x;
    assert r * r == v * v + 2.0 * (v * ux) + ux * ux;
    assert v * ux == u * v * x && ux * ux == u * u * (x * x);
  }

  lemma {:induction false} LineGapSign(s: seq<Sample>, u: real, v: real)
    ensures LineGap(s, u, v) >= 0.0
    ensures LineGap(s, u, v) == 0.0 ==> forall i :: 0 <= i < |s| ==> v + Mul(u, s[i].x) == 0.0
  {
    if s != [] {
      hide Mul;
      LineGapSign(s[1..], u, v);
      SquareSign(v + Mul(u, s[0].x));
      assert forall i :: 1 <= i < |s| ==> s[i] == s[1..][i - 1];
    }
  }

  /** Every line's squared error is that of a normal line plus the gap between the two lines. */
  lemma ErrorSplits(s: seq<Sample>, m: real, c: real, a: real, b: real)
    requires NormalLine(s, m, c)
    ensures Error(s, a, b) == Error(s, m, c) + LineGap(s, a - m, b - c)
  {
    hide Mul;
    hide ErrorPoly;
    hide GapPoly;
    hide Normal;
    ErrorIsMoments(s, a, b);
    ErrorIsMoments(s, m, c);
    LineGapMoments(s, a - m, b - c);
    MomentsSplit(|s| as real, SumX(s), SumY(s), SumXX(s), SumXY(s), SumYY(s), m, c, a - m, b - c, a, b);
  }

  lemma MomentsSplit(n: real, sx: real, sy: real, sxx: real, sxy: real, syy: real, m: real, c: real, u: real, v: real,
                     a: real, b: real)
    requires a == m + u && b == c + v && Normal(n, sx, sy, sxx, sxy, m, c)
    ensures ErrorPoly(n, sx, sy, sxx, sxy, syy, a, b)
         == ErrorPoly(n, sx, sy, sxx, sxy, syy, m, c) + GapPoly(n, sx, sxx, u, v)
  {
    assert b * b == c * c + 2.0 * (c * v) + v * v;
    assert a * b == m * c + m * v + u * c + u * v;
    assert a * a == m * m + 2.0 * (m * u) + u * u;
    assert v * sy == n * (c * v) + m * v * sx by { assert v * (n * c + m * sx) == n * (c * v) + m * v * sx; }
    assert u * sxy == u * c * sx + m * u * sxx by { assert u * (c * sx + m * sxx) == u * c * sx + m * u * sxx; }
  }

  lemma NormalLineIsBest(s: seq<Sample>, m: real, c: real, a: real, b: real)
    requires TwoPositions(s) && NormalLine(s, m, c)
    ensures Error(s, m, c) <= Error(s, a, b)
    ensures Error(s, a, b) == Error(s, m, c) ==> a == m && b == c
  {
    hide Mul;
    hide Normal;
    ErrorSplits(s, m, c, a, b);
    LineGapSign(s, a - m, b - c);
    if LineGap(s, a - m, b - c) == 0.0 {
      var i, j :| 0 <= i < j < |s| && s[i].x != s[j].x;
      LineThroughTwoZeros(a - m, b - c, s[i].x, s[j].x);
    }
  }

  lemma LineThroughTwoZeros(u: real, v: real, x: real, y: real)
    requires x != y && v + Mul(u, x) == 0.0 && v + Mul(u, y) == 0.0
    ensures u == 0.0 && v == 0.0
  {
    assert u * (x - y) == 0.0;
  }

  /** The fitted line is the one and only least-squares line: no line has a
      smaller squared error, and any line with as small an error is this line. */
  lemma FitIsTheLeastSquaresLine(s: seq<Sample>, threshold: real, a: real, b: real)
    requires TwoPositions(s)
    ensures LinearForecast(s, threshold).Ok?
    ensures
      var f := LinearForecast(s, threshold).value;
      && Error(s, f.slope, f.intercept) <= Error(s, a, b)
      && (Error(s, a, b) == Error(s, f.slope, f.intercept) ==> a == f.slope && b == f.intercept)
  {
    hide Mul;
    hide Normal;
    FitExistsExactlyWhen(s, threshold);
    hide LinearForecast;
    FitIsNormal(s, threshold);
    var f := LinearForecast(s, threshold).value;
    NormalLineIsBest(s, f.slope, f.intercept, a, b);
  }

  // ---- The crossing ----

  /** The line, moved ahead by the tolerance, has reached the threshold at sample `c`. */
  predicate Reached(slope: real, intercept: real, threshold: real, c: int) {
    intercept + slope * (c as real + 0.000000001) >= threshold
  }

  /** A crossing is forecast exactly for a rising line, and it is the first whole
      sample at which the line has reached the threshold. */
  lemma CrossingIsFirstSample(slope: real, intercept: real, threshold: real)
    ensures
      var crossing := Crossing(slope, intercept, threshold);
      && (crossing.Some? <==> slope > 0.0)
      && (crossing.Some? ==> forall c: int :: Reached(slope, intercept, threshold, c) <==> c >= crossing.value)
  {
    if slope > 0.0 {
      hide Mul;
      hide Div;
      var t := Div(threshold - intercept, slope);
      forall c: int
        ensures Reached(slope, intercept, threshold, c) <==> c >= Crossing(slope, intercept, threshold).value
      {
        CeilingIsLeast(t - TOLERANCE, c);
        ReachesAt(slope, intercept, threshold, t, c as real + TOLERANCE);
      }
    }
  }

  lemma CeilingIsLeast(r: real, c: int)
    ensures c >= Ceiling(r) <==> c as real >= r
  {
    if c as real >= r {
      assert (-c) as real <= -r;
      assert -c <= (-r).Floor;
    }
  }

  lemma ReachesAt(slope: real, intercept: real, threshold: real, t: real, x: real)
    requires slope > 0.0 && t == Div(threshold - intercept, slope)
    ensures x >= t <==> intercept + slope * x >= threshold
  {
    assert t * slope == threshold - intercept;
    var d := x - t;
    assert slope * d == slope * x - (threshold - intercept);
    if d >= 0.0 { assert slope * d >= 0.0; } else { assert slope * d < 0.0; }
  }

  /** The crossing that the forecast reports is the fitted line's. */
  lemma ForecastReportsItsCrossing(s: seq<Sample>, threshold: real)
    requires LinearForecast(s, threshold).Ok?
    ensures
      var f := LinearForecast(s, threshold).value;
      && (f.crossing.Some? <==> f.slope > 0.0)
      && (f.crossing.Some? ==> forall c: int :: Reached(f.slope, f.intercept, threshold, c) <==> c >= f.crossing.value)
  {
    hide Mul;
    hide Div;
    hide Spread;
    hide CoSpread;
    var f := LinearForecast(s, threshold).value;
    CrossingIsFirstSample(f.slope, f.intercept, threshold);
  }
}
