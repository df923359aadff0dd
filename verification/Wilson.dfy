/**
 The Wilson score interval of the product-proof evaluator, over exact reals.

 The square root is a parameter: any function that returns a non-negative root of every
 non-negative real. The normal quantile `z` is a parameter too; the evaluator passes Z95.
 The score test below removes the root from every comparison with the lower bound, and all
 monotonicity results follow from it.
 */
module Wilson {
  import opened Outcomes

  const Z95: real := 1.959963984540054

  ghost predicate IsSquareRoot(sqrt: real -> real) {
    forall x: real | x >= 0.0 :: sqrt(x) >= 0.0 && sqrt(x) * sqrt(x) == x
  }

  datatype Interval = Interval(lower: real, upper: real)

  function Max(a: real, b: real): real { if a < b then b else a }

  function Min(a: real, b: real): real { if b < a then b else a }

  /** The value under the root. */
  function Radicand(z: real, n: int, d: int): real
    requires d > 0
  {
    var p := n as real / d as real;
    (p * (1.0 - p) + z * z / (4.0 * d as real)) / d as real
  }

  function Scale(z: real, d: int): real
    requires d > 0
  {
    1.0 + z * z / d as real
  }

  function Center(z: real, n: int, d: int): real
    requires d > 0 && Scale(z, d) != 0.0
  {
    (n as real / d as real + z * z / (2.0 * d as real)) / Scale(z, d)
  }

  function Margin(sqrt: real -> real, z: real, n: int, d: int): real
    requires d > 0 && Scale(z, d) != 0.0
  {
    z * sqrt(Radicand(z, n, d)) / Scale(z, d)
  }

  function Bounds(sqrt: real -> real, z: real, n: int, d: int): Option<Interval>
    requires d >= 0 && z > 0.0
  {
    if d == 0 then None
    else
      assert Scale(z, d) > 0.0;
      Some(Interval(
        Max(0.0, Center(z, n, d) - Margin(sqrt, z, n, d)),
        Min(1.0, Center(z, n, d) + Margin(sqrt, z, n, d))))
  }

  // ----- The score statistic -----

  /** The score statistic of success probability `t`, times the sample size; `w` is z^2. */
  function Score(n: real, d: real, w: real, t: real): real {
    (n - t * d) * (n - t * d) - w * t * (1.0 - t) * d
  }

  /** `lo` and `hi` are the two roots of the score statistic, given by their sum and product. */
  ghost predicate AreRoots(n: real, d: real, w: real, lo: real, hi: real) {
    && lo < hi
    && (d + w) * (lo + hi) == 2.0 * n + w
    && (d + w) * d * (lo * hi) == n * n
  }

  lemma ClearedRadicand(n: real, d: real, w: real, x: real)
    requires d > 0.0 && w > 0.0 && 0.0 <= n <= d
    requires x == (n / d * (1.0 - n / d) + w / (4.0 * d)) / d
    ensures d * d * d * x == n * (d - n) + w * d / 4.0
    ensures x > 0.0
  {
    assert d * d * d * x == n * (d - n) + w * d / 4.0;
    assert n * (d - n) >= 0.0;
    assert d * d * d > 0.0;
  }

  /** `s` is the root of the radicand, freed of its denominators. */
  ghost predicate IsRootOfRadicand(n: real, d: real, w: real, s: real) {
    s > 0.0 && d * d * d * (s * s) == n * (d - n) + w * d / 4.0
  }

  /** `c` and `m` are the center and the margin for that root; `w` is r^2. */
  ghost predicate AreCenterAndMargin(n: real, d: real, r: real, w: real, s: real, c: real, m: real)
    requires d > 0.0 && w > 0.0
  {
    assert 1.0 + w / d > 0.0;
    && w == r * r
    && c == (n / d + w / (2.0 * d)) / (1.0 + w / d)
    && m == r * s / (1.0 + w / d)
  }

  lemma RootsFromDefinitions(n: real, d: real, r: real, w: real, s: real, c: real, m: real)
    requires d > 0.0 && r > 0.0 && w > 0.0 && IsRootOfRadicand(n, d, w, s)
    requires AreCenterAndMargin(n, d, r, w, s, c, m)
    ensures AreRoots(n, d, w, c - m, c + m)
  {}

  // ----- Order of the roots -----

  /** The score statistic is positive exactly outside the two roots and zero exactly at them. */
  lemma ScoreSign(n: real, d: real, w: real, lo: real, hi: real, t: real)
    requires d > 0.0 && w > 0.0 && AreRoots(n, d, w, lo, hi)
    ensures Score(n, d, w, t) > 0.0 <==> t < lo || hi < t
    ensures Score(n, d, w, t) == 0.0 <==> t == lo || t == hi
  {}

  lemma Landmarks(n: real, d: real, w: real, p: real)
    requires 0.0 <= n <= d && d > 0.0 && w > 0.0 && p * d == n
    ensures 0.0 <= p <= 1.0
    ensures Score(n, d, w, 0.0) == n * n
    ensures Score(n, d, w, 1.0) == (d - n) * (d - n)
    ensures Score(n, d, w, p) <= 0.0 && (Score(n, d, w, p) < 0.0 <==> 0.0 < n < d)
  {
    var u := 1.0 - p;
    RestOfProportion(n, d, p, u);
    SignOfFactor(d, p, n);
    SignOfFactor(d, u, d - n);
    ScoreAtProportion(n, d, w, p, u);
    ProductSign(p, u, p * u);
    ProductSign(w * d, p * u, w * d * (p * u));
    ProductSign(w, d, w * d);
    hide Score;
  }

  lemma RestOfProportion(n: real, d: real, p: real, u: real)
    requires p * d == n && u == 1.0 - p
    ensures u * d == d - n
  {}

  lemma ScoreAtProportion(n: real, d: real, w: real, p: real, u: real)
    requires p * d == n && u == 1.0 - p
    ensures Score(n, d, w, p) == -(w * d * (p * u))
    ensures Score(n, d, w, 0.0) == n * n
    ensures Score(n, d, w, 1.0) == (d - n) * (d - n)
  {
    assert n - p * d == 0.0;
  }

  /** A factor has the sign of its product with a positive number. */
  lemma SignOfFactor(d: real, x: real, product: real)
    requires d > 0.0 && product == x * d
    ensures x >= 0.0 <==> product >= 0.0
    ensures x > 0.0 <==> product > 0.0
  {}

  lemma ProductSign(x: real, y: real, product: real)
    requires product == x * y && x >= 0.0 && y >= 0.0
    ensures product >= 0.0
    ensures product > 0.0 <==> x > 0.0 && y > 0.0
  {
    if x > 0.0 && y > 0.0 {
      PositiveProduct(x, y, product);
    } else if x == 0.0 {
      assert product == 0.0 * y;
    } else {
      assert product == x * 0.0;
    }
  }

  lemma SquareSign(x: real)
    ensures x != 0.0 ==> x * x > 0.0
    ensures x == 0.0 ==> x * x == 0.0
  {}

  ghost function Proportion(n: real, d: real): (p: real)
    requires d > 0.0
    ensures p * d == n
  {
    n / d
  }

  lemma MeanOfRoots(d: real, w: real, lo: real, hi: real, n: real)
    requires 0.0 <= n <= d && d > 0.0 && w > 0.0 && lo < hi && (d + w) * (lo + hi) == 2.0 * n + w
    ensures hi > 0.0 && lo < 1.0
  {}

  /** The roots enclose the proportion `p` inside the unit interval. */
  lemma OrderOfRoots(n: real, d: real, w: real, lo: real, hi: real, p: real)
    requires 0.0 <= n <= d && d > 0.0 && w > 0.0 && p * d == n
    requires AreRoots(n, d, w, lo, hi)
    ensures 0.0 <= lo <= p <= hi <= 1.0 && lo < 1.0 && lo < hi
    ensures lo > 0.0 <==> n > 0.0
    ensures hi < 1.0 <==> n < d
    ensures p < 1.0 ==> p < hi
  {
    MeanOfRoots(d, w, lo, hi, n);
    hide *;
    ScoreSign(n, d, w, lo, hi, 0.0);
    ScoreSign(n, d, w, lo, hi, 1.0);
    ScoreSign(n, d, w, lo, hi, p);
    Landmarks(n, d, w, p);
    SquareSign(n);
    SquareSign(d - n);
  }

  // ----- The score test -----

  /** A threshold is met by the lower root exactly when it is below 1, at most the
      proportion, and its score statistic is not negative. */
  lemma RootTest(n: real, d: real, w: real, lo: real, hi: real, t: real)
    requires 0.0 <= n <= d && d > 0.0 && w > 0.0
    requires AreRoots(n, d, w, lo, hi)
    ensures t < lo <==> t * d < n && Score(n, d, w, t) > 0.0
    ensures t <= lo <==> t < 1.0 && t * d <= n && Score(n, d, w, t) >= 0.0
  {
    hide *;
    var p := Proportion(n, d);
    BelowProportion(n, d, p, t);
    OrderOfRoots(n, d, w, lo, hi, p);
    ScoreSign(n, d, w, lo, hi, t);
    TestFromSigns(lo, hi, p, t, Score(n, d, w, t));
  }

  lemma BelowProportion(n: real, d: real, p: real, t: real)
    requires d > 0.0 && p * d == n
    ensures t < p <==> t * d < n
    ensures t <= p <==> t * d <= n
  {}

  lemma TestFromSigns(lo: real, hi: real, p: real, t: real, score: real)
    requires lo < hi && lo <= p <= hi && lo < 1.0 && (p < 1.0 ==> p < hi)
    requires score > 0.0 <==> t < lo || hi < t
    requires score == 0.0 <==> t == lo || t == hi
    ensures t < lo <==> t < p && score > 0.0
    ensures t <= lo <==> t < 1.0 && t <= p && score >= 0.0
  {}

  // ----- More evidence, at the roots -----

  lemma ScoreAfterSuccess(n: real, d: real, w: real, t: real)
    requires 0.0 <= n <= d && d > 0.0 && w > 0.0
    requires 0.0 <= t < 1.0 && t * d <= n && Score(n, d, w, t) == 0.0
    ensures Score(n + 1.0, d + 1.0, w, t) > 0.0
  {
    var x, u := n - t * d, 1.0 - t;
    assert x * x == w * t * (u * d);
    if t > 0.0 {
      assert w * t * (u * d) > 0.0;
      ExcessAtRoot(x, w * t, u * d);
    }
    assert Score(n + 1.0, d + 1.0, w, t) == Score(n, d, w, t) + u * (2.0 * x + u - w * t);
    assert u * (2.0 * x + u - w * t) > 0.0;
  }

  lemma ExcessAtRoot(x: real, a: real, b: real)
    requires 0.0 <= x <= b && a > 0.0 && x * x == a * b
    ensures x == 0.0 || x >= a
  {}

  lemma ScaledOrder(d: real, a: real, b: real)
    requires d > 0.0
    ensures a < b <==> a * d < b * d
    ensures a <= b <==> a * d <= b * d
  {}

  /** Facts about one pair of roots that the comparisons below start from. */
  lemma AtLowerRoot(n: real, d: real, w: real, lo: real, hi: real)
    requires 0.0 <= n <= d && d > 0.0 && w > 0.0
    requires AreRoots(n, d, w, lo, hi)
    ensures 0.0 <= lo < 1.0 && lo * d <= n && Score(n, d, w, lo) == 0.0
    ensures lo > 0.0 <==> n > 0.0
  {
    hide *;
    RootTest(n, d, w, lo, hi, lo);
    ScoreSign(n, d, w, lo, hi, lo);
    OrderOfRoots(n, d, w, lo, hi, Proportion(n, d));
  }

  /** One more success strictly raises the lower root. */
  lemma SuccessRaises(n: real, d: real, w: real, lo: real, hi: real, lo': real, hi': real)
    requires 0.0 <= n <= d && d > 0.0 && w > 0.0
    requires AreRoots(n, d, w, lo, hi) && AreRoots(n + 1.0, d + 1.0, w, lo', hi')
    ensures lo < lo'
  {
    hide *;
    AtLowerRoot(n, d, w, lo, hi);
    ScoreAfterSuccess(n, d, w, lo);
    RootTest(n + 1.0, d + 1.0, w, lo', hi', lo);
    assert lo * (d + 1.0) == lo * d + lo;
  }

  lemma ScoreWithoutFailure(n: real, d: real, w: real, t: real)
    requires d > 0.0 && w > 0.0 && n > 0.0
    requires 0.0 < t < 1.0 && t * (d + 1.0) <= n && Score(n, d + 1.0, w, t) == 0.0
    ensures t * d < n
    ensures Score(n, d, w, t) > 0.0
  {
    var x, v := n - t * (d + 1.0), t * (1.0 - t);
    assert n - t * d == x + t;
    ScoreOneLess(n, d, w, t, x);
    PositiveProduct(t, 1.0 - t, v);
    PositiveProduct(w, v, w * v);
    PositiveProduct(t, 2.0 * x + t, t * (2.0 * x + t));
    hide Score;
  }

  lemma ScoreOneLess(n: real, d: real, w: real, t: real, x: real)
    requires x == n - t * (d + 1.0)
    ensures Score(n, d, w, t) == Score(n, d + 1.0, w, t) + t * (2.0 * x + t) + w * (t * (1.0 - t))
  {}

  /** One more failure strictly lowers the lower root, unless nothing had succeeded. */
  lemma FailureLowers(n: real, d: real, w: real, lo: real, hi: real, lo': real, hi': real)
    requires 0.0 <= n <= d && d > 0.0 && w > 0.0
    requires AreRoots(n, d, w, lo, hi) && AreRoots(n, d + 1.0, w, lo', hi')
    ensures if n > 0.0 then lo' < lo else lo' == lo == 0.0
  {
    hide *;
    AtLowerRoot(n, d, w, lo, hi);
    AtLowerRoot(n, d + 1.0, w, lo', hi');
    if n > 0.0 {
      ScoreWithoutFailure(n, d, w, lo');
      RootTest(n, d, w, lo, hi, lo');
    }
  }

  lemma ScoreOfScaled(n: real, d: real, w: real, k: real, t: real)
    requires 0.0 < t < 1.0 && d > 0.0 && w > 0.0 && k > 1.0
    requires t * d <= n && Score(n, d, w, t) == 0.0
    ensures t * (k * d) < k * n
    ensures Score(k * n, k * d, w, t) > 0.0
  {
    var x, v := n - t * d, w * d * (t * (1.0 - t));
    assert t * (1.0 - t) > 0.0;
    PositiveProduct(w * d, t * (1.0 - t), v);
    assert x * x == v;
    assert x > 0.0;
    PositiveProduct(k, k - 1.0, k * (k - 1.0));
    PositiveProduct(k * (k - 1.0), v, k * (k - 1.0) * v);
    ScaledScore(n, d, w, k, t);
    ScaledOrder(k, t * d, n);
  }

  lemma ScaledScore(n: real, d: real, w: real, k: real, t: real)
    ensures Score(k * n, k * d, w, t) == k * k * Score(n, d, w, t) + k * (k - 1.0) * (w * d * (t * (1.0 - t)))
  {}

  /** The same proportion from `k` times as many trials strictly raises the lower root,
      unless nothing had succeeded. */
  lemma RepetitionRaises(n: real, d: real, n': real, d': real, w: real, k: real,
                         lo: real, hi: real, lo': real, hi': real)
    requires 0.0 <= n <= d && d > 0.0 && w > 0.0 && k > 1.0
    requires n' == k * n && d' == k * d
    requires AreRoots(n, d, w, lo, hi) && AreRoots(n', d', w, lo', hi')
    ensures if n > 0.0 then lo < lo' else lo' == lo == 0.0
  {
    hide *;
    AtLowerRoot(n, d, w, lo, hi);
    ScaledRange(n, d, k);
    AtLowerRoot(n', d', w, lo', hi');
    if n > 0.0 {
      ScoreOfScaled(n, d, w, k, lo);
      RootTest(n', d', w, lo', hi', lo);
    }
  }

  lemma ScaledRange(n: real, d: real, k: real)
    requires 0.0 <= n <= d && d > 0.0 && k > 1.0
    ensures 0.0 <= k * n <= k * d && k * d > 0.0
    ensures n > 0.0 <==> k * n > 0.0
  {}

  /** More successes out of the same trials strictly raise the lower root. */
  lemma BetterRateRaises(n: real, n': real, d: real, w: real, lo: real, hi: real, lo': real, hi': real)
    requires 0.0 <= n < n' <= d && d > 0.0 && w > 0.0
    requires AreRoots(n, d, w, lo, hi) && AreRoots(n', d, w, lo', hi')
    ensures lo < lo'
  {
    hide *;
    AtLowerRoot(n, d, w, lo, hi);
    ScoreOfBetterRate(n, n', d, w, lo);
    RootTest(n', d, w, lo', hi', lo);
  }

  lemma ScoreOfBetterRate(n: real, n': real, d: real, w: real, t: real)
    requires n < n' && t * d <= n && Score(n, d, w, t) == 0.0
    ensures Score(n', d, w, t) > 0.0
  {
    var x, g := n - t * d, n' - n;
    ScoreOfMore(n, d, w, t, g);
    PositiveProduct(g, 2.0 * x + g, g * (2.0 * x + g));
    hide Score;
  }

  lemma ScoreOfMore(n: real, d: real, w: real, t: real, g: real)
    ensures Score(n + g, d, w, t) == Score(n, d, w, t) + g * (2.0 * (n - t * d) + g)
  {
    var x := n - t * d;
    assert (x + g) * (x + g) == x * x + g * (2.0 * x + g);
  }

  /** Exchanging successes and failures reflects the two roots. */
  lemma Reflection(n: real, d: real, w: real, lo: real, hi: real)
    requires d > 0.0 && w > 0.0 && AreRoots(n, d, w, lo, hi)
    ensures AreRoots(d - n, d, w, 1.0 - hi, 1.0 - lo)
  {}

  /** The score statistic has only one pair of roots. */
  lemma RootsAreUnique(n: real, d: real, w: real, lo: real, hi: real, lo': real, hi': real)
    requires d > 0.0 && w > 0.0
    requires AreRoots(n, d, w, lo, hi) && AreRoots(n, d, w, lo', hi')
    ensures lo == lo' && hi == hi'
  {}

  // ----- The gate as a sample size -----

  /** When the proportion is at least `q` and the trials are enough for the pair (`q`, `t`),
      the lower root is at least `t`; at exactly `q` the number of trials decides. */
  lemma EnoughTrials(n: real, d: real, w: real, lo: real, hi: real, q: real, t: real)
    requires 0.0 <= n <= d && d > 0.0 && w > 0.0 && AreRoots(n, d, w, lo, hi)
    requires 0.0 <= t < q && q * d <= n
    ensures d * ((q - t) * (q - t)) >= w * (t * (1.0 - t)) ==> t <= lo
    ensures n == q * d ==> (d * ((q - t) * (q - t)) >= w * (t * (1.0 - t)) <==> t <= lo)
  {
    hide *;
    ScoreAboveTarget(n, d, w, q, t);
    BelowOne(n, d, q, t);
    RootTest(n, d, w, lo, hi, t);
  }

  lemma BelowOne(n: real, d: real, q: real, t: real)
    requires 0.0 <= n <= d && d > 0.0 && t < q && q * d <= n
    ensures t < 1.0 && t * d <= n
  {
    ScaledOrder(d, t, q);
    ScaledOrder(d, q, 1.0);
  }

  lemma SignOfMultiple(d: real, x: real)
    requires d > 0.0
    ensures d * x >= 0.0 <==> x >= 0.0
  {}

  lemma ScoreAboveTarget(n: real, d: real, w: real, q: real, t: real)
    requires d > 0.0 && t < q && q * d <= n
    ensures Score(n, d, w, t) >= d * (d * ((q - t) * (q - t)) - w * (t * (1.0 - t)))
    ensures d * ((q - t) * (q - t)) >= w * (t * (1.0 - t)) ==> Score(n, d, w, t) >= 0.0
    ensures n == q * d ==> (d * ((q - t) * (q - t)) >= w * (t * (1.0 - t)) <==> Score(n, d, w, t) >= 0.0)
  {
    SignOfMultiple(d, d * ((q - t) * (q - t)) - w * (t * (1.0 - t)));
    var x, g := (q - t) * d, n - q * d;
    assert Score(n, d, w, t) == d * (d * ((q - t) * (q - t)) - w * (t * (1.0 - t))) + g * (2.0 * x + g);
    assert x > 0.0;
    assert g * (2.0 * x + g) >= 0.0;
  }

  // ----- The bounds of the evaluator -----

  /** The clamped bounds are the two roots of the score statistic: over exact reals neither
      clamp ever changes a value, and the bounds enclose the proportion. */
  lemma BoundsAreTheRoots(sqrt: real -> real, z: real, n: int, d: int)
    requires IsSquareRoot(sqrt) && z > 0.0
    requires 0 <= n <= d && d > 0
    ensures Scale(z, d) > 0.0
    ensures
      var lo, hi := Center(z, n, d) - Margin(sqrt, z, n, d), Center(z, n, d) + Margin(sqrt, z, n, d);
      && AreRoots(n as real, d as real, Square(z), lo, hi)
      && Bounds(sqrt, z, n, d) == Some(Interval(lo, hi))
      && 0.0 <= lo <= n as real / d as real <= hi <= 1.0
  {
    CenterAndMargin(sqrt, z, n, d);
    hide *;
    Enclosing(n as real, d as real, Square(z), Center(z, n, d) - Margin(sqrt, z, n, d),
              Center(z, n, d) + Margin(sqrt, z, n, d));
    Unclamped(sqrt, z, n, d);
  }

  lemma Enclosing(n: real, d: real, w: real, lo: real, hi: real)
    requires 0.0 <= n <= d && d > 0.0 && w > 0.0 && AreRoots(n, d, w, lo, hi)
    ensures 0.0 <= lo <= n / d <= hi <= 1.0
  {
    hide AreRoots;
    assert n / d * d == n;
    OrderOfRoots(n, d, w, lo, hi, n / d);
  }

  ghost function Square(z: real): (w: real)
    requires z > 0.0
    ensures w > 0.0
  {
    PositiveProduct(z, z, z * z);
    z * z
  }

  lemma PositiveProduct(x: real, y: real, product: real)
    requires x > 0.0 && y > 0.0 && product == x * y
    ensures product > 0.0
  {}

  lemma CenterAndMargin(sqrt: real -> real, z: real, n: int, d: int)
    requires IsSquareRoot(sqrt) && z > 0.0
    requires 0 <= n <= d && d > 0
    ensures Scale(z, d) > 0.0
    ensures AreRoots(n as real, d as real, Square(z), Center(z, n, d) - Margin(sqrt, z, n, d),
                     Center(z, n, d) + Margin(sqrt, z, n, d))
  {
    var s := sqrt(Radicand(z, n, d));
    Definitions(sqrt, z, n, d);
    RootOfRadicand(sqrt, z, n, d);
    hide *;
    RootsFromDefinitions(n as real, d as real, z, Square(z), s, Center(z, n, d), Margin(sqrt, z, n, d));
  }

  lemma Definitions(sqrt: real -> real, z: real, n: int, d: int)
    requires z > 0.0 && d > 0
    ensures Scale(z, d) > 0.0
    ensures AreCenterAndMargin(n as real, d as real, z, Square(z), sqrt(Radicand(z, n, d)), Center(z, n, d),
                               Margin(sqrt, z, n, d))
  {
    hide Radicand;
  }

  lemma RootOfRadicand(sqrt: real -> real, z: real, n: int, d: int)
    requires IsSquareRoot(sqrt) && z > 0.0 && 0 <= n <= d && d > 0
    ensures IsRootOfRadicand(n as real, d as real, Square(z), sqrt(Radicand(z, n, d)))
  {
    var x := Radicand(z, n, d);
    ClearedRadicand(n as real, d as real, Square(z), x);
    assert sqrt(x) >= 0.0 && sqrt(x) * sqrt(x) == x;
    hide Radicand, Square;
    assert sqrt(x) != 0.0;
  }

  lemma Unclamped(sqrt: real -> real, z: real, n: int, d: int)
    requires z > 0.0 && d > 0 && Scale(z, d) > 0.0
    requires 0.0 <= Center(z, n, d) - Margin(sqrt, z, n, d) && Center(z, n, d) + Margin(sqrt, z, n, d) <= 1.0
    ensures Bounds(sqrt, z, n, d)
         == Some(Interval(Center(z, n, d) - Margin(sqrt, z, n, d), Center(z, n, d) + Margin(sqrt, z, n, d)))
  {
    hide Center, Margin, Scale, Radicand;
  }

  /** How evidence moves the bounds of the evaluator: a success raises the lower bound, a
      failure lowers it, the same proportion from more trials raises it, and so does a better
      rate; without any success it stays at zero. The upper bound mirrors the lower bound of
      the failures, so it also rises with the successes. */
  lemma EvidenceMovesTheBounds(sqrt: real -> real, z: real, n: int, d: int, k: int)
    requires IsSquareRoot(sqrt) && z > 0.0
    requires 0 <= n <= d && d > 0 && k > 1
    ensures Bounds(sqrt, z, n, d).value.lower < Bounds(sqrt, z, n + 1, d + 1).value.lower
    ensures n > 0 ==> Bounds(sqrt, z, n, d + 1).value.lower < Bounds(sqrt, z, n, d).value.lower
    ensures n > 0 ==> k * d > 0 && Bounds(sqrt, z, n, d).value.lower < Bounds(sqrt, z, k * n, k * d).value.lower
    ensures n == 0 ==> Bounds(sqrt, z, n, d).value.lower == 0.0
    ensures n < d ==> Bounds(sqrt, z, n, d).value.lower < Bounds(sqrt, z, n + 1, d).value.lower
    ensures n < d ==> Bounds(sqrt, z, n, d).value.upper < Bounds(sqrt, z, n + 1, d).value.upper
    ensures Bounds(sqrt, z, n, d).value.lower == 1.0 - Bounds(sqrt, z, d - n, d).value.upper
  {
    hide *;
    MoreTrials(sqrt, z, n, d);
    ScaledCounts(n, d, k);
    MoreOfTheSame(sqrt, z, n, d, k);
    Mirror(sqrt, z, n, d);
    if n < d {
      BetterRateRaisesBoth(sqrt, z, n, d);
    }
  }

  lemma MoreTrials(sqrt: real -> real, z: real, n: int, d: int)
    requires IsSquareRoot(sqrt) && z > 0.0
    requires 0 <= n <= d && d > 0
    ensures RootsOf(sqrt, z, n, d).lower < RootsOf(sqrt, z, n + 1, d + 1).lower
    ensures n > 0 ==> RootsOf(sqrt, z, n, d + 1).lower < RootsOf(sqrt, z, n, d).lower
    ensures n == 0 ==> RootsOf(sqrt, z, n, d).lower == 0.0
  {
    hide *;
    var w, nr, dr := Square(z), n as real, d as real;
    var b, s, f := RootsOf(sqrt, z, n, d), RootsOf(sqrt, z, n + 1, d + 1), RootsOf(sqrt, z, n, d + 1);
    SuccessRaises(nr, dr, w, b.lower, b.upper, s.lower, s.upper);
    FailureLowers(nr, dr, w, b.lower, b.upper, f.lower, f.upper);
  }

  lemma MoreOfTheSame(sqrt: real -> real, z: real, n: int, d: int, k: int)
    requires IsSquareRoot(sqrt) && z > 0.0
    requires 0 <= n <= d && d > 0 && k > 1 && 0 <= k * n <= k * d && k * d > 0
    ensures n > 0 ==> RootsOf(sqrt, z, n, d).lower < RootsOf(sqrt, z, k * n, k * d).lower
  {
    hide *;
    ScaledCounts(n, d, k);
    var b, r := RootsOf(sqrt, z, n, d), RootsOf(sqrt, z, k * n, k * d);
    RepetitionRaises(n as real, d as real, (k * n) as real, (k * d) as real, Square(z), k as real,
                     b.lower, b.upper, r.lower, r.upper);
  }

  lemma BetterRateRaisesBoth(sqrt: real -> real, z: real, n: int, d: int)
    requires IsSquareRoot(sqrt) && z > 0.0
    requires 0 <= n < d
    ensures RootsOf(sqrt, z, n, d).lower < RootsOf(sqrt, z, n + 1, d).lower
    ensures RootsOf(sqrt, z, n, d).upper < RootsOf(sqrt, z, n + 1, d).upper
  {
    hide *;
    var w, nr, dr := Square(z), n as real, d as real;
    var b, m := RootsOf(sqrt, z, n, d), RootsOf(sqrt, z, n + 1, d);
    BetterRateRaises(nr, nr + 1.0, dr, w, b.lower, b.upper, m.lower, m.upper);
    Mirror(sqrt, z, n, d);
    Mirror(sqrt, z, n + 1, d);
    var u, v := RootsOf(sqrt, z, d - (n + 1), d), RootsOf(sqrt, z, d - n, d);
    BetterRateRaises(dr - nr - 1.0, dr - nr, dr, w, u.lower, u.upper, v.lower, v.upper);
  }

  lemma ScaledCounts(n: int, d: int, k: int)
    requires 0 <= n <= d && d > 0 && k > 1
    ensures 0 <= k * n <= k * d && k * d > 0
    ensures (k * n) as real == k as real * n as real
    ensures (k * d) as real == k as real * d as real
  {}

  /** The bounds, known only as the roots of the score statistic. */
  ghost function RootsOf(sqrt: real -> real, z: real, n: int, d: int): (b: Interval)
    requires IsSquareRoot(sqrt) && z > 0.0
    requires 0 <= n <= d && d > 0
    ensures Bounds(sqrt, z, n, d) == Some(b)
    ensures AreRoots(n as real, d as real, Square(z), b.lower, b.upper)
  {
    BoundsAreTheRoots(sqrt, z, n, d);
    Bounds(sqrt, z, n, d).value
  }

  lemma Mirror(sqrt: real -> real, z: real, n: int, d: int)
    requires IsSquareRoot(sqrt) && z > 0.0
    requires 0 <= n <= d && d > 0
    ensures RootsOf(sqrt, z, n, d).lower == 1.0 - RootsOf(sqrt, z, d - n, d).upper
    ensures RootsOf(sqrt, z, n, d).upper == 1.0 - RootsOf(sqrt, z, d - n, d).lower
  {
    hide *;
    var b, r := RootsOf(sqrt, z, n, d), RootsOf(sqrt, z, d - n, d);
    Reflection(n as real, d as real, Square(z), b.lower, b.upper);
    RootsAreUnique((d - n) as real, d as real, Square(z), r.lower, r.upper, 1.0 - b.upper, 1.0 - b.lower);
  }
}
