/** The Wilson score interval of the evidence gate, over exact real arithmetic.
    The square root is a non-negative number whose square is the radicand. */
module Wilson {
  import opened Core

  datatype Interval = Interval(lower: real, upper: real)

  datatype CountError = InvalidCounts

  predicate ValidCounts(successes: int, trials: int) {
    trials > 0 && 0 <= successes <= trials
  }

  predicate IsRoot(root: real, x: real) {
    root >= 0.0 && root * root == x
  }

  function Proportion(successes: int, trials: int): real
    requires trials > 0
  {
    successes as real / trials as real
  }

  // The three formulas of the interval, in n trials, proportion p and w = z * z.

  function RadicandOf(n: real, p: real, w: real): real
    requires n > 0.0
  {
    p * (1.0 - p) / n + w / (4.0 * n * n)
  }

  function CenterOf(n: real, p: real, w: real): real
    requires n > 0.0 && w >= 0.0
  {
    (p + w / (2.0 * n)) / (1.0 + w / n)
  }

  function MarginOf(n: real, w: real, zRoot: real): real
    requires n > 0.0 && w >= 0.0
  {
    zRoot / (1.0 + w / n)
  }

  function Radicand(successes: int, trials: int, z: real): real
    requires trials > 0
  {
    RadicandOf(trials as real, Proportion(successes, trials), Square(z))
  }

  function Center(successes: int, trials: int, z: real): real
    requires trials > 0
  {
    CenterOf(trials as real, Proportion(successes, trials), Square(z))
  }

  function Margin(trials: int, z: real, root: real): real
    requires trials > 0
  {
    MarginOf(trials as real, Square(z), z * root)
  }

  function Square(z: real): (w: real)
    ensures w >= 0.0
  {
    z * z
  }

  function Max(a: real, b: real): real {
    if a >= b then a else b
  }

  function Min(a: real, b: real): real {
    if a <= b then a else b
  }

  function WilsonInterval(successes: int, trials: int, z: real, root: real): Result<Interval, CountError>
    requires ValidCounts(successes, trials) ==> IsRoot(root, Radicand(successes, trials, z))
  {
    if !ValidCounts(successes, trials) then Err(InvalidCounts)
    else
      var center := Center(successes, trials, z);
      var margin := Margin(trials, z, root);
      Ok(Interval(Max(0.0, center - margin), Min(1.0, center + margin)))
  }

  /** Both sides of the score equation n(s/n - p)^2 = z^2 p(1-p), subtracted. */
  function Score(successes: int, trials: int, z: real, p: real): real
    requires trials > 0
  {
    ScoreOf(trials as real, Proportion(successes, trials), Square(z), p)
  }

  function ScoreOf(n: real, ph: real, w: real, p: real): real {
    n * ((ph - p) * (ph - p)) - w * (p * (1.0 - p))
  }

  // ---- Algebra ----

  lemma Quotient(a: real, b: real)
    requires b != 0.0
    ensures a / b * b == a
  {
  }

  lemma Positive(a: real, b: real, product: real)
    requires a > 0.0 && b > 0.0 && product == a * b
    ensures product > 0.0
  {
  }

  lemma ProportionRange(successes: int, trials: int)
    requires ValidCounts(successes, trials)
    ensures 0.0 <= Proportion(successes, trials) <= 1.0
    ensures Proportion(successes, trials) * trials as real == successes as real
  {
    var n, s := trials as real, successes as real;
    Quotient(s, n);
  }

  lemma RadicandScaled(n: real, p: real, w: real, r: real)
    requires n > 0.0 && r == RadicandOf(n, p, w)
    ensures n * n * r == n * p * (1.0 - p) + w / 4.0
  {
    var m := 4.0 * n;
    var d := m * n;
    Positive(m, n, d);
    RadicandParts(n, d, p * (1.0 - p), w, r);
  }

  lemma RadicandParts(n: real, d: real, q: real, w: real, r: real)
    requires n != 0.0 && d != 0.0 && d == 4.0 * n * n && r == q / n + w / d
    ensures n * n * r == n * q + w / 4.0
  {
    var u, v := q / n, w / d;
    assert u * n == q;
    assert v * d == w;
    assert n * n * u == n * q;
    assert n * n * v == w / 4.0;
  }

  lemma DenominatorScaled(n: real, w: real)
    requires n > 0.0 && w >= 0.0
    ensures 1.0 + w / n > 0.0 && (1.0 + w / n) * n == n + w
  {
    Quotient(w, n);
    var q := w / n;
    assert q >= 0.0;
  }

  lemma CenterScaled(n: real, p: real, w: real, c: real)
    requires n > 0.0 && w >= 0.0 && c == CenterOf(n, p, w)
    ensures c * (n + w) == n * p + w / 2.0
  {
    DenominatorScaled(n, w);
    var d, v := 1.0 + w / n, w / (2.0 * n);
    Quotient(w, 2.0 * n);
    Quotient(p + v, d);
    assert c * d == p + v;
    assert c * (d * n) == (p + v) * n;
  }

  lemma MarginScaled(n: real, w: real, x: real, m: real)
    requires n > 0.0 && w >= 0.0 && m == MarginOf(n, w, x)
    ensures m * (n + w) == n * x
  {
    DenominatorScaled(n, w);
    var d := 1.0 + w / n;
    Quotient(x, d);
    assert m * d == x;
    assert m * (d * n) == x * n;
  }

  lemma MarginSquared(n: real, z: real, root: real, radicand: real, w: real, m: real, u: real)
    requires m == n * (z * root) && root * root == radicand && z * z == w && u == n * n * radicand
    ensures m * m == w * u
  {
    var d := z * root;
    assert d * d == w * radicand by { assert d * d == z * z * (root * root); }
    assert m * m == n * n * (d * d) by { assert m == n * d; }
    assert n * n * (w * radicand) == w * (n * n * radicand);
  }

  /** The score, scaled by `n + w`, factors at centre - margin and centre + margin. */
  lemma ScoreExpanded(n: real, w: real, ph: real, p: real, c: real, m: real, u: real, f: real, g: real)
    requires f == (n + w) * p - c + m && g == (n + w) * p - c - m
    requires c == n * ph + w / 2.0
    requires m * m == w * u && u == n * ph * (1.0 - ph) + w / 4.0
    ensures (n + w) * ScoreOf(n, ph, w, p) == f * g
  {
    var a, s := n + w, n * ph;
    var x := a * p;
    assert f * g == x * x - 2.0 * c * x + c * c - m * m;
    var score := ScoreOf(n, ph, w, p);
    assert score == s * ph - 2.0 * s * p - w * p + x * p by {
      assert n * ((ph - p) * (ph - p)) == n * ph * ph - 2.0 * (n * ph) * p + n * p * p;
      assert x * p == n * p * p + w * p * p;
    }
    assert a * score == a * s * ph - 2.0 * s * x - w * x + x * x by {
      assert a * (s * p) == s * x;
      assert a * (w * p) == w * x;
      assert a * (x * p) == x * x;
    }
    assert a * s * ph == s * s + w * s * ph by { assert n * s * ph == s * s; }
    assert c * c == s * s + s * w + w * w / 4.0;
    assert m * m == w * s - w * s * ph + w * w / 4.0;
  }

  // ---- What the interval means ----

  /** The number `root` and the z-score are those of one call with valid counts. */
  predicate ValidCall(successes: int, trials: int, z: real, root: real) {
    ValidCounts(successes, trials) && z >= 0.0 && IsRoot(root, Radicand(successes, trials, z))
  }

  function Lower(successes: int, trials: int, z: real, root: real): real
    requires trials > 0
  {
    Center(successes, trials, z) - Margin(trials, z, root)
  }

  function Upper(successes: int, trials: int, z: real, root: real): real
    requires trials > 0
  {
    Center(successes, trials, z) + Margin(trials, z, root)
  }

  lemma Factors(successes: int, trials: int, z: real, root: real, p: real) returns (a: real, f: real, g: real)
    requires ValidCall(successes, trials, z, root)
    ensures a == trials as real + Square(z) && a > 0.0
    ensures f == a * (p - Lower(successes, trials, z, root))
    ensures g == a * (p - Upper(successes, trials, z, root))
    ensures a * Score(successes, trials, z, p) == f * g
  {
    var n, w, ph := trials as real, Square(z), Proportion(successes, trials);
    var center, margin := Center(successes, trials, z), Margin(trials, z, root);
    a := n + w;
    f, g := a * (p - (center - margin)), a * (p - (center + margin));
    ScoreFactors(n, w, ph, z, root, p, center, margin, f, g);
    hide ScoreOf;
    hide CenterOf;
    hide MarginOf;
    hide RadicandOf;
  }

  lemma ScoreFactors(n: real, w: real, ph: real, z: real, root: real, p: real, center: real, margin: real, f: real, g: real)
    requires n > 0.0 && w >= 0.0 && z * z == w && root * root == RadicandOf(n, ph, w)
    requires center == CenterOf(n, ph, w) && margin == MarginOf(n, w, z * root)
    requires f == (n + w) * (p - (center - margin)) && g == (n + w) * (p - (center + margin))
    ensures (n + w) * ScoreOf(n, ph, w, p) == f * g
  {
    var radicand := root * root;
    CenterScaled(n, ph, w, center);
    MarginScaled(n, w, z * root, margin);
    RadicandScaled(n, ph, w, radicand);
    hide CenterOf;
    hide MarginOf;
    hide RadicandOf;
    var c, m := center * (n + w), margin * (n + w);
    var u := n * n * radicand;
    MarginSquared(n, z, root, radicand, w, m, u);
    Distribute(n + w, p, center, margin, c, m, f, g);
    ScoreExpanded(n, w, ph, p, c, m, u, f, g);
  }

  lemma Distribute(a: real, p: real, center: real, margin: real, c: real, m: real, f: real, g: real)
    requires c == center * a && m == margin * a
    requires f == a * (p - (center - margin)) && g == a * (p - (center + margin))
    ensures f == a * p - c + m && g == a * p - c - m
  {
  }

  lemma SameSign(a: real, x: real, y: real)
    requires a > 0.0 && y == a * x
    ensures (x > 0.0 <==> y > 0.0) && (x < 0.0 <==> y < 0.0) && (x == 0.0 <==> y == 0.0)
  {
  }

  lemma MarginNonNegative(trials: int, z: real, root: real)
    requires trials > 0 && z >= 0.0 && root >= 0.0
    ensures Margin(trials, z, root) >= 0.0
    ensures z == 0.0 ==> Margin(trials, z, root) == 0.0
  {
    var n, w, m := trials as real, Square(z), Margin(trials, z, root);
    MarginScaled(n, w, z * root, m);
    SameSign(n + w, m, m * (n + w));
    assert z * root >= 0.0;
    assert n * (z * root) >= 0.0;
  }

  /** The endpoints solve the score equation, and nothing else does. */
  lemma EndpointsSolveScore(successes: int, trials: int, z: real, root: real, p: real)
    requires ValidCall(successes, trials, z, root)
    ensures Score(successes, trials, z, p) == 0.0
       <==> p == Lower(successes, trials, z, root) || p == Upper(successes, trials, z, root)
  {
    hide Score;
    hide Lower;
    hide Upper;
    hide Square;
    var a, f, g := Factors(successes, trials, z, root, p);
    SameSign(a, Score(successes, trials, z, p), f * g);
    SameSign(a, p - Lower(successes, trials, z, root), f);
    SameSign(a, p - Upper(successes, trials, z, root), g);
  }

  lemma ScoreAtEnds(successes: int, trials: int, z: real)
    requires ValidCounts(successes, trials)
    ensures Score(successes, trials, z, 0.0) >= 0.0 && Score(successes, trials, z, 1.0) >= 0.0
    ensures
      var ph := Proportion(successes, trials);
      Score(successes, trials, z, ph) <= 0.0 && (0.0 < ph < 1.0 && z > 0.0 ==> Score(successes, trials, z, ph) < 0.0)
  {
    var n, w, ph := trials as real, Square(z), Proportion(successes, trials);
    ProportionRange(successes, trials);
    ScoreOutside(n, ph, w);
    ScoreAtProportion(n, ph, w);
    if z > 0.0 {
      Positive(z, z, w);
    }
  }

  lemma ScoreOutside(n: real, ph: real, w: real)
    requires n > 0.0
    ensures ScoreOf(n, ph, w, 0.0) >= 0.0 && ScoreOf(n, ph, w, 1.0) >= 0.0
  {
    var x, h := ph * ph, ph - 1.0;
    var y := h * h;
    ScaleOrdered(n, 0.0, x);
    ScaleOrdered(n, 0.0, y);
    assert ScoreOf(n, ph, w, 0.0) == n * x;
    assert ScoreOf(n, ph, w, 1.0) == n * y;
  }

  lemma ScoreAtProportion(n: real, ph: real, w: real)
    requires w >= 0.0 && 0.0 <= ph <= 1.0
    ensures ScoreOf(n, ph, w, ph) <= 0.0
    ensures w > 0.0 && 0.0 < ph < 1.0 ==> ScoreOf(n, ph, w, ph) < 0.0
  {
    var q := ph * (1.0 - ph);
    ProductSign(ph, 1.0 - ph);
    ProductSign(w, q);
    assert ScoreOf(n, ph, w, ph) == -(w * q);
  }

  lemma CenterRange(successes: int, trials: int, z: real)
    requires ValidCounts(successes, trials)
    ensures 0.0 <= Center(successes, trials, z) <= 1.0
    ensures z > 0.0 ==> 0.0 < Center(successes, trials, z) < 1.0
  {
    var n, w, ph, c := trials as real, Square(z), Proportion(successes, trials), Center(successes, trials, z);
    ProportionRange(successes, trials);
    CenterScaled(n, ph, w, c);
    var x, y := (n + w) * c, (n + w) * (1.0 - c);
    assert x == n * ph + w / 2.0 && y == n + w - x;
    SameSign(n + w, c, x);
    SameSign(n + w, 1.0 - c, y);
    if z > 0.0 {
      Positive(z, z, w);
      ProductSign(n, ph);
      ProductSign(n, 1.0 - ph);
      assert y == n * (1.0 - ph) + w / 2.0;
    }
  }

  /** For every valid call the endpoints bracket the observed proportion inside
      [0, 1], so that neither clamp of the interval ever changes its operand. */
  lemma EndpointsBracketProportion(successes: int, trials: int, z: real, root: real)
    requires ValidCall(successes, trials, z, root)
    ensures 0.0 <= Lower(successes, trials, z, root) <= Proportion(successes, trials)
                <= Upper(successes, trials, z, root) <= 1.0
    ensures WilsonInterval(successes, trials, z, root)
         == Ok(Interval(Lower(successes, trials, z, root), Upper(successes, trials, z, root)))
  {
    var ph, l, u := Proportion(successes, trials), Lower(successes, trials, z, root), Upper(successes, trials, z, root);
    ProportionRange(successes, trials);
    CenterRange(successes, trials, z);
    MarginNonNegative(trials, z, root);
    ScoreAtEnds(successes, trials, z);
    SignsAt(successes, trials, z, root, ph);
    SignsAt(successes, trials, z, root, 0.0);
    SignsAt(successes, trials, z, root, 1.0);
  }

  /** Where the score is negative and where it is positive. */
  lemma SignsAt(successes: int, trials: int, z: real, root: real, p: real)
    requires ValidCall(successes, trials, z, root)
    ensures
      var s, l, u := Score(successes, trials, z, p), Lower(successes, trials, z, root), Upper(successes, trials, z, root);
      && (s < 0.0 <==> l < p < u)
      && (s > 0.0 <==> p < l || u < p)
  {
    var a, f, g := Factors(successes, trials, z, root, p);
    var l, u := Lower(successes, trials, z, root), Upper(successes, trials, z, root);
    MarginNonNegative(trials, z, root);
    SameSign(a, Score(successes, trials, z, p), f * g);
    SameSign(a, p - l, f);
    SameSign(a, p - u, g);
    ProductSign(f, g);
  }

  lemma ProductSign(f: real, g: real)
    ensures f * g > 0.0 <==> (f > 0.0 && g > 0.0) || (f < 0.0 && g < 0.0)
    ensures f * g < 0.0 <==> (f > 0.0 && g < 0.0) || (f < 0.0 && g > 0.0)
  {
  }

  /** At a z-score of zero the interval is a point; otherwise it reaches inside (0, 1). */
  lemma IntervalReach(successes: int, trials: int, z: real, root: real)
    requires ValidCall(successes, trials, z, root)
    ensures z == 0.0 ==> Lower(successes, trials, z, root) == Upper(successes, trials, z, root)
    ensures z > 0.0 ==> Lower(successes, trials, z, root) < 1.0 && 0.0 < Upper(successes, trials, z, root)
  {
    CenterRange(successes, trials, z);
    MarginNonNegative(trials, z, root);
  }

  /** The upper endpoint meets a limit, any limit, exactly when the score test does: a
      check that takes no square root. */
  lemma UpperMeetsLimit(successes: int, trials: int, z: real, root: real, limit: real)
    requires ValidCall(successes, trials, z, root)
    ensures Upper(successes, trials, z, root) <= limit
       <==> Proportion(successes, trials) <= limit && Score(successes, trials, z, limit) >= 0.0
            && (limit > 0.0 || z == 0.0)
  {
    hide Lower;
    hide Upper;
    hide Score;
    EndpointsBracketProportion(successes, trials, z, root);
    IntervalReach(successes, trials, z, root);
    SignsAt(successes, trials, z, root, limit);
    ScoreAtEnds(successes, trials, z);
    ProportionRange(successes, trials);
  }

  lemma LowerMeetsLimit(successes: int, trials: int, z: real, root: real, limit: real)
    requires ValidCall(successes, trials, z, root)
    ensures Lower(successes, trials, z, root) >= limit
       <==> Proportion(successes, trials) >= limit && Score(successes, trials, z, limit) >= 0.0
            && (limit < 1.0 || z == 0.0)
  {
    hide Lower;
    hide Upper;
    hide Score;
    EndpointsBracketProportion(successes, trials, z, root);
    IntervalReach(successes, trials, z, root);
    SignsAt(successes, trials, z, root, limit);
    ScoreAtEnds(successes, trials, z);
    ProportionRange(successes, trials);
  }

  /** A negative z-score turns the interval round. */
  lemma NegatedCall(successes: int, trials: int, z: real, root: real)
    requires ValidCounts(successes, trials) && z < 0.0 && IsRoot(root, Radicand(successes, trials, z))
    ensures ValidCall(successes, trials, -z, root)
    ensures WilsonInterval(successes, trials, z, root)
         == Ok(Interval(Upper(successes, trials, -z, root), Lower(successes, trials, -z, root)))
    ensures forall p :: Score(successes, trials, -z, p) == Score(successes, trials, z, p)
  {
    assert Square(-z) == Square(z);
    MarginNegated(trials, z, root);
    EndpointsBracketProportion(successes, trials, -z, root);
  }

  lemma MarginNegated(trials: int, z: real, root: real)
    requires trials > 0
    ensures Margin(trials, -z, root) == -Margin(trials, z, root)
  {
    var n, w := trials as real, Square(z);
    assert Square(-z) == w;
    var m, k := Margin(trials, z, root), Margin(trials, -z, root);
    MarginScaled(n, w, z * root, m);
    MarginScaled(n, w, -z * root, k);
    assert (m + k) * (n + w) == 0.0;
    SameSign(n + w, m + k, (n + w) * (m + k));
  }

  lemma SquaresOrdered(x: real, y: real)
    requires 0.0 <= x <= y || y <= x <= 0.0
    ensures x * x <= y * y
  {
    ProductSign(y - x, y + x);
    assert (y - x) * (y + x) == y * y - x * x;
  }

  lemma ScaleOrdered(n: real, x: real, y: real)
    requires n > 0.0 && x <= y
    ensures n * x <= n * y
  {
  }

  /** Moving the proportion towards `p` lowers the score at `p`. */
  lemma ScoreMovesWithGap(n: real, a: real, b: real, w: real, p: real)
    requires n > 0.0 && (p <= a <= b || b <= a <= p)
    ensures ScoreOf(n, a, w, p) <= ScoreOf(n, b, w, p)
  {
    SquaresOrdered(a - p, b - p);
    var x, y := (a - p) * (a - p), (b - p) * (b - p);
    ScaleOrdered(n, x, y);
  }

  lemma ProportionMonotone(s: int, t: int, trials: int)
    requires ValidCounts(s, trials) && ValidCounts(t, trials) && s <= t
    ensures Proportion(s, trials) <= Proportion(t, trials)
  {
    ProportionRange(s, trials);
    ProportionRange(t, trials);
    var d := Proportion(t, trials) - Proportion(s, trials);
    SameSign(trials as real, d, trials as real * d);
  }

  /** For a fixed number of trials both endpoints rise with the successes. */
  lemma EndpointsMonotone(s: int, t: int, trials: int, z: real, rootS: real, rootT: real)
    requires ValidCall(s, trials, z, rootS) && ValidCall(t, trials, z, rootT) && s <= t
    ensures Lower(s, trials, z, rootS) <= Lower(t, trials, z, rootT)
    ensures Upper(s, trials, z, rootS) <= Upper(t, trials, z, rootT)
  {
    var l, u := Lower(t, trials, z, rootT), Upper(s, trials, z, rootS);
    EndpointsBracketProportion(s, trials, z, rootS);
    EndpointsBracketProportion(t, trials, z, rootT);
    ProportionMonotone(s, t, trials);
    if Lower(s, trials, z, rootS) > l {
      ScoreMovesWithGap(trials as real, Proportion(s, trials), Proportion(t, trials), Square(z), l);
      EndpointsSolveScore(t, trials, z, rootT, l);
      SignsAt(s, trials, z, rootS, l);
      assert false;
    }
    if u > Upper(t, trials, z, rootT) {
      ScoreMovesWithGap(trials as real, Proportion(t, trials), Proportion(s, trials), Square(z), u);
      EndpointsSolveScore(s, trials, z, rootS, u);
      SignsAt(t, trials, z, rootT, u);
      assert false;
    }
  }

  // ---- In the numbers of the call ----

  /** The score, written out in the successes, the trials and the z-score. */
  lemma ScoreMeans(successes: int, trials: int, z: real, p: real)
    requires trials > 0
    ensures var n, ph := trials as real, successes as real / trials as real;
            Score(successes, trials, z, p) == n * ((ph - p) * (ph - p)) - z * z * (p * (1.0 - p))
  {
  }

  lemma RadicandMeans(successes: int, trials: int, z: real)
    requires trials > 0
    ensures var n, ph := trials as real, successes as real / trials as real;
            n * n * Radicand(successes, trials, z) == n * ph * (1.0 - ph) + z * z / 4.0
  {
    RadicandScaled(trials as real, Proportion(successes, trials), Square(z), Radicand(successes, trials, z));
  }

  /** The two ends of the reported interval are exactly the solutions of
      n(s/n - p)^2 = z^2 p(1 - p), and they enclose s/n inside [0, 1]. */
  lemma IntervalSolvesEquation(successes: int, trials: int, z: real, root: real, p: real)
    requires ValidCounts(successes, trials) && z >= 0.0 && IsRoot(root, Radicand(successes, trials, z))
    ensures var n, ph := trials as real, successes as real / trials as real;
            var r := WilsonInterval(successes, trials, z, root);
            && r.Ok?
            && 0.0 <= r.value.lower <= ph <= r.value.upper <= 1.0
            && (n * ((ph - p) * (ph - p)) == z * z * (p * (1.0 - p)) <==> p == r.value.lower || p == r.value.upper)
  {
    hide Lower;
    hide Upper;
    hide Radicand;
    ScoreMeans(successes, trials, z, p);
    EndpointsBracketProportion(successes, trials, z, root);
    EndpointsSolveScore(successes, trials, z, root, p);
    hide Score;
    hide WilsonInterval;
  }
}
