/** Locating a short audio envelope inside a longer one by normalised correlation, with the
    window statistics taken from prefix sums. */
module AudioAlignment {
  import opened Counting
  import opened Outcomes

  const VARIANCE_FLOOR := 0.000000000001
  const NORM_FLOOR := 0.00000001
  /** The square of the norm floor. */
  const ENERGY_FLOOR := 0.0000000000000001

  // ---- Sums ----

  function Sum(s: seq<real>): real {
    if s == [] then 0.0 else Sum(s[..|s| - 1]) + s[|s| - 1]
  }

  function Dot(a: seq<real>, b: seq<real>): real
    requires |a| == |b|
  {
    if a == [] then 0.0 else Dot(a[..|a| - 1], b[..|a| - 1]) + a[|a| - 1] * b[|a| - 1]
  }

  function Square(x: real): real {
    x * x
  }

  function Squares(s: seq<real>): (r: seq<real>)
    ensures |r| == |s| && forall i :: 0 <= i < |s| ==> r[i] == Square(s[i])
  {
    seq(|s|, i requires 0 <= i < |s| => Square(s[i]))
  }

  /** `np.concatenate(([0.0], np.cumsum(s)))` */
  function PrefixSums(s: seq<real>): (p: seq<real>)
    ensures |p| == |s| + 1
  {
    if s == [] then [0.0] else
      var p := PrefixSums(s[..|s| - 1]);
      p + [p[|s| - 1] + s[|s| - 1]]
  }

  function Shift(s: seq<real>, m: real): (r: seq<real>)
    ensures |r| == |s| && forall i :: 0 <= i < |s| ==> r[i] == s[i] - m
  {
    seq(|s|, i requires 0 <= i < |s| => s[i] - m)
  }

  function Mean(s: seq<real>): real
    requires s != []
  {
    Sum(s) / |s| as real
  }

  function Centered(s: seq<real>): (r: seq<real>)
    requires s != []
    ensures |r| == |s|
  {
    Shift(s, Mean(s))
  }

  // ---- Scores ----

  ghost predicate SquareRoot(sqrt: real -> real) {
    forall x :: x >= 0.0 ==> sqrt(x) >= 0.0 && sqrt(x) * sqrt(x) == x
  }

  function Window(r: seq<real>, k: nat, n: nat): (w: seq<real>)
    requires k + n <= |r|
    ensures |w| == n
  {
    r[k..k + n]
  }

  /** The window's variance (times its size) from the two prefix sums, floored. */
  function Variance(r: seq<real>, k: nat, n: nat): real
    requires 0 < n && k + n <= |r|
  {
    var sums := PrefixSums(r)[k + n] - PrefixSums(r)[k];
    var sums2 := PrefixSums(Squares(r))[k + n] - PrefixSums(Squares(r))[k];
    Floored(Spread(sums, sums2, n))
  }

  function Spread(sums: real, sums2: real, n: nat): real
    requires n > 0
  {
    sums2 - sums * sums / n as real
  }

  function Floored(spread: real): (r: real)
    ensures r >= spread && r >= VARIANCE_FLOOR && (r == spread || r == VARIANCE_FLOOR)
  {
    if spread < VARIANCE_FLOOR then VARIANCE_FLOOR else spread
  }

  function Energy(q: seq<real>): real
    requires q != []
  {
    Dot(Centered(q), Centered(q))
  }

  function Norm(q: seq<real>, sqrt: real -> real): real
    requires q != []
  {
    sqrt(Energy(q))
  }

  function Ratio(numerator: real, deviation: real, norm: real): real {
    if deviation * norm == 0.0 then 0.0 else numerator / (deviation * norm)
  }

  function Score(r: seq<real>, q: seq<real>, k: nat, sqrt: real -> real): real
    requires q != [] && k + |q| <= |r|
  {
    Ratio(Dot(Window(r, k, |q|), Centered(q)), sqrt(Variance(r, k, |q|)), Norm(q, sqrt))
  }

  function Scores(r: seq<real>, q: seq<real>, sqrt: real -> real): (s: seq<real>)
    requires q != [] && |q| <= |r|
    ensures |s| == |r| - |q| + 1 && forall k :: 0 <= k < |s| ==> s[k] == Score(r, q, k, sqrt)
  {
    seq(|r| - |q| + 1, k requires 0 <= k <= |r| - |q| => Score(r, q, k, sqrt))
  }

  /** `np.argmax`: the first position of the maximum. */
  function ArgMax(s: seq<real>): (k: nat)
    requires s != []
    ensures k < |s| && forall i :: 0 <= i < |s| ==> s[i] <= s[k] && (i < k ==> s[i] < s[k])
  {
    if |s| == 1 then 0 else
      var n := |s| - 1;
      var k := ArgMax(s[..n]);
      assert forall i :: 0 <= i < n ==> s[..n][i] == s[i];
      if s[n] > s[k] then n else k
  }

  /** `contained_audio_offset`; an empty query has no norm to speak of. */
  function ContainedOffset(r: seq<real>, q: seq<real>, hop: real, sqrt: real -> real): Result<(real, real)> {
    if |q| > |r| then Failure("reference audio must be at least as long as the query")
    else if q == [] || Norm(q, sqrt) <= NORM_FLOOR then Failure("query audio envelope has no usable variation")
    else
      var scores := Scores(r, q, sqrt);
      var index := ArgMax(scores);
      Success((Seconds(index, hop), scores[index]))
  }

  function Seconds(index: nat, hop: real): real {
    index as real * hop
  }

  // ---- Prefix sums ----

  lemma {:induction false} PrefixSumIs(s: seq<real>, i: nat)
    requires i <= |s|
    ensures PrefixSums(s)[i] == Sum(s[..i])
  {
    if i == |s| {
      if s != [] { PrefixSumIs(s[..i - 1], i - 1); }
      assert s[..i] == s;
      if s != [] { assert s[..i - 1][..i - 1] == s[..i - 1]; }
    } else {
      PrefixSumIs(s[..|s| - 1], i);
      assert s[..|s| - 1][..i] == s[..i];
    }
  }

  lemma {:induction false} SumAppend(a: seq<real>, b: seq<real>)
    ensures Sum(a + b) == Sum(a) + Sum(b)
  {
    if b == [] {
      assert a + b == a;
    } else {
      SumAppend(a, b[..|b| - 1]);
      assert (a + b)[..|a + b| - 1] == a + b[..|b| - 1];
    }
  }

  /** A difference of prefix sums is the direct sum of the window. */
  lemma PrefixDifference(s: seq<real>, k: nat, n: nat)
    requires k + n <= |s|
    ensures PrefixSums(s)[k + n] - PrefixSums(s)[k] == Sum(Window(s, k, n))
  {
    hide *;
    PrefixSumIs(s, k);
    PrefixSumIs(s, k + n);
    SumToWindow(s, k, n);
  }

  lemma SumToWindow(s: seq<real>, k: nat, n: nat)
    requires k + n <= |s|
    ensures Sum(s[..k + n]) == Sum(s[..k]) + Sum(Window(s, k, n))
  {
    hide Sum;
    assert s[..k + n] == s[..k] + s[k..k + n];
    SumAppend(s[..k], s[k..k + n]);
  }

  lemma SquaresOfFront(s: seq<real>)
    requires s != []
    ensures Squares(s)[..|s| - 1] == Squares(s[..|s| - 1])
  {
    hide Square;
  }

  lemma {:induction false} SumOfSquares(s: seq<real>)
    ensures Sum(Squares(s)) == Dot(s, s)
  {
    if s != [] {
      var n := |s| - 1;
      SumOfSquares(s[..n]);
      SquaresOfFront(s);
    }
  }

  // ---- Centring ----

  lemma ShiftOfFront(s: seq<real>, m: real)
    requires s != []
    ensures Shift(s, m)[..|s| - 1] == Shift(s[..|s| - 1], m)
  {
  }

  lemma {:induction false} ShiftSum(s: seq<real>, m: real)
    ensures Sum(Shift(s, m)) == Sum(s) - |s| as real * m
  {
    if s != [] {
      var n := |s| - 1;
      ShiftSum(s[..n], m);
      ShiftOfFront(s, m);
      OneMoreTimes(n, m);
    }
  }

  lemma {:induction false} ShiftDot(s: seq<real>, c: seq<real>, m: real)
    requires |s| == |c|
    ensures Dot(Shift(s, m), c) == Dot(s, c) - m * Sum(c)
  {
    if s != [] {
      var n := |s| - 1;
      ShiftDot(s[..n], c[..n], m);
      ShiftOfFront(s, m);
      ShiftTerm(Dot(s[..n], c[..n]), Sum(c[..n]), s[n], c[n], m);
    }
  }

  lemma ShiftTerm(dot: real, sum: real, x: real, y: real, m: real)
    ensures (dot - m * sum) + (x - m) * y == (dot + x * y) - m * (sum + y)
  {
  }

  lemma {:induction false} DotSymmetric(a: seq<real>, b: seq<real>)
    requires |a| == |b|
    ensures Dot(a, b) == Dot(b, a)
  {
    if a != [] { DotSymmetric(a[..|a| - 1], b[..|a| - 1]); }
  }

  lemma CenteredSumsToZero(s: seq<real>)
    requires s != []
    ensures Sum(Centered(s)) == 0.0
  {
    ShiftSum(s, Mean(s));
    assert |s| as real * (Sum(s) / |s| as real) == Sum(s);
  }

  /** The energy of a window is its sum of squares less its squared sum over its size. */
  lemma EnergyIs(w: seq<real>)
    requires w != []
    ensures Energy(w) == Spread(Sum(w), Dot(w, w), |w|)
  {
    hide Dot, Sum, Shift, Mean, Spread;
    var m, c := Mean(w), Centered(w);
    CenteredSumsToZero(w);
    CenteredDot(w, c, m);
    DotSymmetric(w, c);
    ShiftDot(w, w, m);
    SpreadFromMean(w, Dot(w, w));
  }

  lemma SpreadFromMean(w: seq<real>, squares: real)
    requires w != []
    ensures squares - Mean(w) * Sum(w) == Spread(Sum(w), squares, |w|)
  {
    hide Sum;
    MeanTimesSum(Sum(w), |w| as real, Mean(w));
  }

  lemma CenteredDot(s: seq<real>, c: seq<real>, m: real)
    requires |s| == |c| && Sum(c) == 0.0
    ensures Dot(Shift(s, m), c) == Dot(s, c)
  {
    ShiftDot(s, c, m);
    assert m * 0.0 == 0.0;
  }

  lemma MeanTimesSum(sum: real, n: real, m: real)
    requires n > 0.0 && m == sum / n
    ensures m * sum == sum * sum / n
  {
    var x := sum * sum / n;
    assert m * n == sum && x * n == sum * sum;
    assert (m * sum) * n == (m * n) * sum;
    assert (m * sum - x) * n == 0.0;
  }

  /** The prefix-sum variance is the window's energy, floored. */
  lemma VarianceIsEnergy(r: seq<real>, k: nat, n: nat)
    requires 0 < n && k + n <= |r|
    ensures Variance(r, k, n) == Floored(Energy(Window(r, k, n)))
  {
    hide Energy, PrefixSums, Spread, Floored, Sum, Dot;
    var w := Window(r, k, n);
    PrefixDifference(r, k, n);
    PrefixDifference(Squares(r), k, n);
    SquaresOfWindow(r, k, n);
    SumOfSquares(w);
    EnergyIs(w);
  }

  lemma SquaresOfWindow(r: seq<real>, k: nat, n: nat)
    requires k + n <= |r|
    ensures Window(Squares(r), k, n) == Squares(Window(r, k, n))
  {
    hide Square;
    assert forall i :: 0 <= i < n ==> Window(Squares(r), k, n)[i] == Square(r[k + i]) == Squares(Window(r, k, n))[i];
  }

  // ---- Cauchy-Schwarz ----

  /** The squared length of `a - t b`, from the three inner products. */
  function Quadratic(aa: real, ab: real, bb: real, t: real): real {
    aa - 2.0 * t * ab + t * t * bb
  }

  lemma Distributes(c: real, u: real, v: real)
    ensures c * (u + v) == c * u + c * v
  {
  }

  lemma SquareOfDifference(x: real, y: real, t: real, xx: real, xy: real, yy: real)
    requires xx == x * x && xy == x * y && yy == y * y
    ensures Quadratic(xx, xy, yy, t) >= 0.0
  {
    var d := x - t * y;
    assert d * d >= 0.0;
    assert d * d == x * x - 2.0 * t * (x * y) + t * t * (y * y);
  }

  lemma QuadraticAdds(aa: real, ab: real, bb: real, xx: real, xy: real, yy: real, t: real)
    ensures Quadratic(aa + xx, ab + xy, bb + yy, t) == Quadratic(aa, ab, bb, t) + Quadratic(xx, xy, yy, t)
  {
    Distributes(2.0 * t, ab, xy);
    Distributes(t * t, bb, yy);
  }

  lemma GrownByOneTerm(aa: real, ab: real, bb: real, xx: real, xy: real, yy: real, aaNext: real, abNext: real,
                       bbNext: real, t: real)
    requires aaNext == aa + xx && abNext == ab + xy && bbNext == bb + yy
    requires Quadratic(aa, ab, bb, t) >= 0.0 && Quadratic(xx, xy, yy, t) >= 0.0
    ensures Quadratic(aaNext, abNext, bbNext, t) >= 0.0
  {
    QuadraticAdds(aa, ab, bb, xx, xy, yy, t);
  }

  lemma NoTerms(aa: real, ab: real, bb: real, t: real)
    requires aa == 0.0 && ab == 0.0 && bb == 0.0
    ensures Quadratic(aa, ab, bb, t) == 0.0
  {
    assert 2.0 * t * 0.0 == 0.0 && t * t * 0.0 == 0.0;
  }

  lemma {:induction false} QuadraticIsNonNegative(a: seq<real>, b: seq<real>, t: real)
    requires |a| == |b|
    ensures Quadratic(Dot(a, a), Dot(a, b), Dot(b, b), t) >= 0.0
  {
    hide Quadratic;
    if a == [] {
      assert b == [] && Dot(a, a) == 0.0 && Dot(a, b) == 0.0 && Dot(b, b) == 0.0;
      NoTerms(Dot(a, a), Dot(a, b), Dot(b, b), t);
    } else {
      var n := |a| - 1;
      QuadraticIsNonNegative(a[..n], b[..n], t);
      DotStep(a, a, n);
      DotStep(a, b, n);
      DotStep(b, b, n);
      var xx, xy, yy := a[n] * a[n], a[n] * b[n], b[n] * b[n];
      SquareOfDifference(a[n], b[n], t, xx, xy, yy);
      GrownByOneTerm(Dot(a[..n], a[..n]), Dot(a[..n], b[..n]), Dot(b[..n], b[..n]), xx, xy, yy,
                     Dot(a, a), Dot(a, b), Dot(b, b), t);
    }
  }

  lemma DotStep(a: seq<real>, b: seq<real>, n: nat)
    requires |a| == |b| == n + 1
    ensures Dot(a, b) == Dot(a[..n], b[..n]) + a[n] * b[n]
  {
  }

  lemma CauchySchwarz(a: seq<real>, b: seq<real>)
    requires |a| == |b| && Dot(b, b) > 0.0
    ensures Dot(a, b) * Dot(a, b) <= Dot(a, a) * Dot(b, b)
  {
    var t := Dot(a, b) / Dot(b, b);
    QuadraticIsNonNegative(a, b, t);
    AtMinimum(Dot(a, a), Dot(a, b), Dot(b, b), t);
  }

  lemma AtMinimum(aa: real, ab: real, bb: real, t: real)
    requires bb > 0.0 && t * bb == ab && Quadratic(aa, ab, bb, t) >= 0.0
    ensures ab * ab <= aa * bb
  {
    assert t * t * bb == t * ab;
    assert aa - t * ab >= 0.0;
    assert (aa - t * ab) * bb >= 0.0;
    assert t * ab * bb == ab * ab;
  }

  // ---- Main results ----

  lemma CorrelationBound(r: seq<real>, q: seq<real>, k: nat)
    requires q != [] && k + |q| <= |r| && Energy(q) > 0.0
    ensures var numerator := Dot(Window(r, k, |q|), Centered(q));
      numerator * numerator <= Variance(r, k, |q|) * Energy(q) && Variance(r, k, |q|) > 0.0
  {
    hide Dot, Sum, Shift, Variance, Floored;
    var w, c := Window(r, k, |q|), Centered(q);
    CenteredSumsToZero(q);
    CenteredDot(w, c, Mean(w));
    CauchySchwarz(Centered(w), c);
    VarianceIsEnergy(r, k, |q|);
    MonotoneProduct(Energy(w), Variance(r, k, |q|), Energy(q));
  }

  lemma MonotoneProduct(a: real, b: real, c: real)
    requires a <= b && c >= 0.0
    ensures a * c <= b * c
  {
    assert (b - a) * c >= 0.0;
  }

  lemma BoundedRatio(numerator: real, deviation: real, norm: real)
    requires deviation > 0.0 && norm > 0.0
    requires numerator * numerator <= (deviation * deviation) * (norm * norm)
    ensures -1.0 <= Ratio(numerator, deviation, norm) <= 1.0
  {
    var d := deviation * norm;
    ProductSquare(deviation, norm);
    SquareBounds(numerator, d);
    UnitQuotient(numerator, d);
  }

  lemma SquareBounds(x: real, d: real)
    requires d >= 0.0 && x * x <= d * d
    ensures -d <= x <= d
  {
    assert -x * -x == x * x;
    if x > d { LargerSquare(x, d); }
    if -x > d { LargerSquare(-x, d); }
  }

  lemma UnitQuotient(x: real, d: real)
    requires d > 0.0 && -d <= x <= d
    ensures -1.0 <= x / d <= 1.0
  {
    var q := x / d;
    assert q * d == x;
    StrictProduct(1.0, q, d);
    StrictProduct(q, -1.0, d);
  }

  lemma ProductSquare(x: real, y: real)
    requires x > 0.0 && y > 0.0
    ensures x * y > 0.0 && (x * y) * (x * y) == (x * x) * (y * y)
  {
    assert (x * y) * (x * y) == x * (y * (x * y));
  }

  lemma LargerSquare(a: real, b: real)
    requires a > b >= 0.0
    ensures a * a > b * b
  {
    SquareOfSum(b, a - b);
  }

  lemma SquareOfSum(b: real, d: real)
    requires d > 0.0 && b >= 0.0
    ensures (b + d) * (b + d) > b * b
  {
    assert b * d >= 0.0 && d * d > 0.0;
    assert (b + d) * (b + d) == b * b + 2.0 * (b * d) + d * d;
  }

  lemma StrictProduct(a: real, b: real, c: real)
    requires c > 0.0
    ensures a < b ==> a * c < b * c
  {
    assert a < b ==> (b - a) * c > 0.0;
  }

  lemma RootOfPositive(x: real, sqrt: real -> real)
    requires SquareRoot(sqrt) && x > 0.0
    ensures sqrt(x) > 0.0 && sqrt(x) * sqrt(x) == x
  {
  }

  /** Every score is a correlation: between -1 and 1. */
  lemma ScoresAreCorrelations(r: seq<real>, q: seq<real>, k: nat, sqrt: real -> real)
    requires SquareRoot(sqrt) && q != [] && k + |q| <= |r| && Energy(q) > 0.0
    ensures -1.0 <= Score(r, q, k, sqrt) <= 1.0
  {
    hide Energy, Variance, SquareRoot;
    CorrelationBound(r, q, k);
    RootOfPositive(Variance(r, k, |q|), sqrt);
    RootOfPositive(Energy(q), sqrt);
    BoundedRatio(Dot(Window(r, k, |q|), Centered(q)), sqrt(Variance(r, k, |q|)), sqrt(Energy(q)));
  }

  /** A window equal to the query scores exactly one if and only if the query's energy reaches
      the variance floor. */
  lemma ExactWindowScoresOne(r: seq<real>, q: seq<real>, k: nat, sqrt: real -> real)
    requires SquareRoot(sqrt) && q != [] && k + |q| <= |r| && Energy(q) > 0.0 && Window(r, k, |q|) == q
    ensures Score(r, q, k, sqrt) == 1.0 <==> Energy(q) >= 0.000000000001
  {
    hide SquareRoot, Variance;
    CenteredSumsToZero(q);
    CenteredDot(q, Centered(q), Mean(q));
    VarianceIsEnergy(r, k, |q|);
    var e, v := Energy(q), Variance(r, k, |q|);
    RootOfPositive(e, sqrt);
    RootOfPositive(v, sqrt);
    RatioOfRoots(e, v, sqrt(e), sqrt(v));
  }

  lemma RatioOfRoots(e: real, v: real, n: real, d: real)
    requires e > 0.0 && v > 0.0 && n > 0.0 && d > 0.0 && n * n == e && d * d == v
    ensures Ratio(e, d, n) == 1.0 <==> e == v
  {
    assert d * n > 0.0;
    var x := e / (d * n);
    assert x * (d * n) == e && Ratio(e, d, n) == x;
    assert (x * d - n) * n == 0.0;
    ZeroProduct(x * d - n, n);
    if e == v {
      assert (d - n) * (d + n) == 0.0;
      ZeroProduct(d - n, d + n);
      assert (x - 1.0) * d == 0.0;
      ZeroProduct(x - 1.0, d);
    }
  }

  lemma ZeroProduct(a: real, b: real)
    requires a * b == 0.0 && b > 0.0
    ensures a == 0.0
  {
  }

  /** When the query is a window of the reference and has enough energy, the located offset is
      the first window with score one, no later than that window. */
  lemma ContainedQueryIsLocated(r: seq<real>, q: seq<real>, hop: real, sqrt: real -> real, k: nat)
    requires SquareRoot(sqrt) && q != [] && k + |q| <= |r| && Window(r, k, |q|) == q
    requires Energy(q) >= 0.000000000001
    ensures ContainedOffset(r, q, hop, sqrt).Success?
    ensures var index := ArgMax(Scores(r, q, sqrt));
      && index <= k && Score(r, q, index, sqrt) == 1.0
      && (forall i :: 0 <= i < index ==> Score(r, q, i, sqrt) < 1.0)
      && ContainedOffset(r, q, hop, sqrt).value.0 == index as real * hop
      && ContainedOffset(r, q, hop, sqrt).value.1 == 1.0
  {
    hide Energy, Score, SquareRoot, Seconds;
    ExactWindowScoresOne(r, q, k, sqrt);
    var scores := Scores(r, q, sqrt);
    ScoresAreCorrelations(r, q, ArgMax(scores), sqrt);
    assert scores[k] == 1.0 && scores[ArgMax(scores)] == 1.0;
    RootOfPositive(Energy(q), sqrt);
    CompareRoots(Energy(q), Norm(q, sqrt));
    SecondsAre(ArgMax(scores), hop);
  }

  lemma SecondsAre(index: nat, hop: real)
    ensures Seconds(index, hop) == index as real * hop
  {
  }

  /** The search fails exactly for a query that is longer than the reference, empty or flat. */
  lemma SearchFailsExactlyWhen(r: seq<real>, q: seq<real>, hop: real, sqrt: real -> real)
    requires SquareRoot(sqrt)
    ensures ContainedOffset(r, q, hop, sqrt).Failure? <==>
      |q| > |r| || q == [] || Energy(q) <= 0.0000000000000001
  {
    if q != [] {
      EnergyIsNonNegative(Centered(q));
      CompareRoots(Energy(q), Norm(q, sqrt));
    }
  }

  lemma CompareRoots(energy: real, norm: real)
    requires norm >= 0.0 && norm * norm == energy
    ensures norm <= NORM_FLOOR <==> energy <= ENERGY_FLOOR
  {
    assert NORM_FLOOR * NORM_FLOOR == ENERGY_FLOOR;
    if norm > NORM_FLOOR {
      LargerSquare(norm, NORM_FLOOR);
    } else if norm < NORM_FLOOR {
      LargerSquare(NORM_FLOOR, norm);
    }
  }

  lemma {:induction false} EnergyIsNonNegative(c: seq<real>)
    ensures Dot(c, c) >= 0.0
  {
    if c != [] {
      EnergyIsNonNegative(c[..|c| - 1]);
      SquareIsNonNegative(c[|c| - 1]);
    }
  }

  // ---- In plain sums ----

  ghost function Times(x: real, y: real): real {
    x * y
  }

  ghost function Products(a: seq<real>, b: seq<real>): (p: seq<real>)
    requires |a| == |b|
    ensures |p| == |a| && forall i :: 0 <= i < |a| ==> p[i] == Times(a[i], b[i])
  {
    seq(|a|, i requires 0 <= i < |a| => Times(a[i], b[i]))
  }

  lemma ProductsOfFront(a: seq<real>, b: seq<real>)
    requires |a| == |b| > 0
    ensures Products(a, b)[..|a| - 1] == Products(a[..|a| - 1], b[..|a| - 1])
  {
    hide Times;
  }

  lemma {:induction false} DotIsSum(a: seq<real>, b: seq<real>)
    requires |a| == |b|
    ensures Dot(a, b) == Sum(Products(a, b))
  {
    if a != [] {
      var n := |a| - 1;
      DotIsSum(a[..n], b[..n]);
      ProductsOfFront(a, b);
    }
  }

  /** `c` is `s` less its mean. */
  ghost predicate LessMean(c: seq<real>, s: seq<real>, mean: real) {
    |c| == |s| && mean * |s| as real == Sum(s) && forall i :: 0 <= i < |s| ==> c[i] == s[i] - mean
  }

  lemma LessMeanIsCentered(c: seq<real>, s: seq<real>, mean: real)
    requires s != [] && LessMean(c, s, mean)
    ensures c == Centered(s) && Energy(s) == Sum(Products(c, c))
  {
    QuotientBack(Sum(s), |s| as real);
    assert (mean - Mean(s)) * |s| as real == 0.0;
    ZeroProduct(mean - Mean(s), |s| as real);
    DotIsSum(c, c);
    hide Dot, Sum;
    assert c == Shift(s, mean);
  }

  /** A window's score, times the roots of its energy (at least 1e-12) and of the query's, is the sum
      of its values times the query's less their mean. */
  lemma ScoreInSums(r: seq<real>, q: seq<real>, k: nat, sqrt: real -> real, c: seq<real>, mean: real,
                    d: seq<real>, windowMean: real)
    requires SquareRoot(sqrt) && q != [] && k + |q| <= |r|
    requires LessMean(c, q, mean) && LessMean(d, r[k..k + |q|], windowMean) && Sum(Products(c, c)) > 0.0
    ensures var energy := Sum(Products(d, d));
      Score(r, q, k, sqrt) * (sqrt(if energy < 0.000000000001 then 0.000000000001 else energy)
        * sqrt(Sum(Products(c, c)))) == Sum(Products(r[k..k + |q|], c))
  {
    hide Dot, Sum, Energy, Variance, SquareRoot, LessMean;
    LessMeanIsCentered(c, q, mean);
    LessMeanIsCentered(d, r[k..k + |q|], windowMean);
    assert |c| == |q| by { LengthOfCentered(c, q, mean); }
    VarianceIsEnergy(r, k, |q|);
    DotIsSum(Window(r, k, |q|), c);
    RootOfPositive(Variance(r, k, |q|), sqrt);
    RootOfPositive(Energy(q), sqrt);
    RatioBack(Dot(Window(r, k, |q|), c), sqrt(Variance(r, k, |q|)), sqrt(Energy(q)));
  }

  lemma LengthOfCentered(c: seq<real>, s: seq<real>, mean: real)
    requires LessMean(c, s, mean)
    ensures |c| == |s|
  {
  }

  lemma RatioBack(numerator: real, deviation: real, norm: real)
    requires deviation > 0.0 && norm > 0.0
    ensures Ratio(numerator, deviation, norm) * (deviation * norm) == numerator
  {
    ProductSquare(deviation, norm);
    QuotientBack(numerator, deviation * norm);
  }

  /** A successful search gives the time of the first window with the best score, and that score. */
  lemma OffsetIsFirstBest(r: seq<real>, q: seq<real>, hop: real, sqrt: real -> real) returns (index: nat)
    requires ContainedOffset(r, q, hop, sqrt).Success?
    ensures q != [] && index + |q| <= |r|
    ensures ContainedOffset(r, q, hop, sqrt).value == (index as real * hop, Score(r, q, index, sqrt))
    ensures forall i: nat :: i + |q| <= |r| ==> Score(r, q, i, sqrt) <= Score(r, q, index, sqrt)
    ensures forall i: nat :: i < index ==> Score(r, q, i, sqrt) < Score(r, q, index, sqrt)
  {
    hide Score, Norm, Seconds;
    var scores := Scores(r, q, sqrt);
    index := ArgMax(scores);
    SecondsAre(index, hop);
    forall i: nat | i + |q| <= |r|
      ensures Score(r, q, i, sqrt) <= Score(r, q, index, sqrt)
      ensures i < index ==> Score(r, q, i, sqrt) < Score(r, q, index, sqrt)
    {
      assert scores[i] == Score(r, q, i, sqrt);
    }
  }
}
