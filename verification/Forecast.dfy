/** Capacity forecasting: a least-squares line through a share's used-bytes history.
    Numbers are real: floating-point rounding is not modelled. */
module Forecast {
  import opened Shared
  import Sorting

  const MS_PER_DAY := 86_400_000

  /** The largest distance from the epoch, in milliseconds, a Date can represent. */
  const MAX_TIME := 8_640_000_000_000_000.0

  /** An instant that a Date can represent, as parsing a timestamp yields it. */
  type instant = t: int | -8_640_000_000_000_000 <= t <= 8_640_000_000_000_000

  /** One history point; `time` is `None` when the timestamp does not parse. */
  datatype Point = Point(time: Option<instant>, used: Option<real>, total: Option<real>)

  datatype Sample = Sample(t: instant, used: real, total: Option<real>)

  datatype Projection = Projection(daysToFull: real, fullAt: int)

  datatype Forecast = Forecast(growth: real, full: Option<Projection>, spanDays: real, samples: nat)

  /** `RangeError` is thrown when the projected date is not representable. */
  datatype Outcome = NotEnough | RangeError | Estimated(forecast: Forecast)

  function Usable(points: seq<Point>): seq<Sample> {
    if points == [] then []
    else
      var p := points[0];
      (if p.time.Some? && p.used.Some? then [Sample(p.time.value, p.used.value, p.total)] else [])
      + Usable(points[1..])
  }

  function Time(s: Sample): int {
    s.t
  }

  function Days(s: Sample, t0: int): real {
    (s.t - t0) as real / MS_PER_DAY as real
  }

  function Xs(pts: seq<Sample>, t0: int): (xs: seq<real>)
    ensures |xs| == |pts|
  {
    seq(|pts|, i requires 0 <= i < |pts| => Days(pts[i], t0))
  }

  function Ys(pts: seq<Sample>): (ys: seq<real>)
    ensures |ys| == |pts|
  {
    seq(|pts|, i requires 0 <= i < |pts| => pts[i].used)
  }

  function Sum(xs: seq<real>): real {
    if xs == [] then 0.0 else Sum(xs[..|xs| - 1]) + xs[|xs| - 1]
  }

  function Dot(xs: seq<real>, ys: seq<real>): real
    requires |xs| == |ys|
  {
    if xs == [] then 0.0 else Dot(xs[..|xs| - 1], ys[..|ys| - 1]) + Times(xs[|xs| - 1], ys[|ys| - 1])
  }

  function Times(x: real, y: real): real {
    x * y
  }

  /** The denominator and the slope from a count and the sums of the data. */
  function Denom(n: real, sx: real, sxx: real): real {
    n * sxx - sx * sx
  }

  function Ratio(n: real, sx: real, sy: real, sxx: real, sxy: real): real {
    if Denom(n, sx, sxx) == 0.0 then 0.0 else (n * sxy - sx * sy) / Denom(n, sx, sxx)
  }

  function Denominator(xs: seq<real>): real {
    Denom(|xs| as real, Sum(xs), Dot(xs, xs))
  }

  function Slope(xs: seq<real>, ys: seq<real>): real
    requires |xs| == |ys|
  {
    Ratio(|xs| as real, Sum(xs), Sum(ys), Dot(xs, xs), Dot(xs, ys))
  }

  /** `new Date(ms)`: the integer part towards zero, if the date exists. */
  function ToDate(ms: real): Option<int> {
    if ms > MAX_TIME || ms < -MAX_TIME then None
    else Some(if ms >= 0.0 then ms.Floor else -(-ms).Floor)
  }

  function ForecastStorage(points: seq<Point>): Outcome {
    Estimate(Sorting.SortBy(Usable(points), Time))
  }

  /** The forecast from samples in time order. */
  function Estimate(pts: seq<Sample>): Outcome {
    if |pts| < 2 then NotEnough
    else
      var t0, last := pts[0].t, pts[|pts| - 1];
      var xs := Xs(pts, t0);
      var slope := Slope(xs, Ys(pts));
      var base := Forecast(slope, None, xs[|pts| - 1], |pts|);
      if last.total.None? || last.total.value == 0.0 || slope <= 0.0 then Estimated(base)
      else
        var days := DaysToFull(last.total.value - last.used, slope);
        match ToDate(last.t as real + days * MS_PER_DAY as real)
        case None => RangeError
        case Some(ms) => Estimated(base.(full := Some(Projection(days, ms))))
  }

  function DaysToFull(remaining: real, slope: real): real
    requires slope > 0.0
  {
    if remaining > 0.0 then remaining / slope else 0.0
  }

  // ---------------------------------------------------------------------
  // The denominator
  // ---------------------------------------------------------------------

  ghost function Square(x: real): real {
    Times(x, x)
  }

  lemma SameSignProduct(x: real, y: real)
    requires (x > 0.0 && y > 0.0) || (x < 0.0 && y < 0.0)
    ensures Times(x, y) > 0.0
  {
  }

  lemma SquarePositive(x: real)
    ensures Square(x) >= 0.0
    ensures Square(x) == 0.0 <==> x == 0.0
  {
    hide Times;
    if x == 0.0 {
      ZeroProduct(x);
    } else {
      SameSignProduct(x, x);
    }
  }

  lemma ZeroProduct(x: real)
    ensures Times(0.0, x) == 0.0
  {
  }

  /** The squared distances from `x`. */
  ghost function SquaresFrom(xs: seq<real>, x: real): real {
    if xs == [] then 0.0 else SquaresFrom(xs[..|xs| - 1], x) + Square(xs[|xs| - 1] - x)
  }

  /** The squared distances of all pairs. */
  ghost function PairSquares(xs: seq<real>): real {
    if xs == [] then 0.0 else PairSquares(xs[..|xs| - 1]) + SquaresFrom(xs[..|xs| - 1], xs[|xs| - 1])
  }

  ghost function Around(n: real, sx: real, sxx: real, x: real): real {
    sxx - 2.0 * (x * sx) + n * (x * x)
  }

  lemma AroundStep(n: real, sx: real, sxx: real, x: real, a: real)
    ensures Around(n + 1.0, sx + a, sxx + Times(a, a), x) == Around(n, sx, sxx, x) + Square(a - x)
  {
  }

  lemma DenomStep(n: real, sx: real, sxx: real, x: real)
    ensures Denom(n + 1.0, sx + x, sxx + Times(x, x)) == Denom(n, sx, sxx) + Around(n, sx, sxx, x)
  {
  }

  ghost predicate AllAt(xs: seq<real>, x: real) {
    forall i :: 0 <= i < |xs| ==> xs[i] == x
  }

  lemma {:induction false} SquaresFromExpand(xs: seq<real>, x: real)
    ensures SquaresFrom(xs, x) == Around(|xs| as real, Sum(xs), Dot(xs, xs), x)
    ensures SquaresFrom(xs, x) >= 0.0
    ensures SquaresFrom(xs, x) == 0.0 <==> AllAt(xs, x)
  {
    hide Square, Around, Times;
    if xs == [] {
      AroundNothing(x);
    } else {
      var init, a := xs[..|xs| - 1], xs[|xs| - 1];
      SquaresFromExpand(init, x);
      AroundStep(|init| as real, Sum(init), Dot(init, init), x, a);
      SquarePositive(a - x);
      assert |xs| as real == |init| as real + 1.0;
      AllAtLast(xs, x);
    }
  }

  lemma AroundNothing(x: real)
    ensures Around(0.0, 0.0, 0.0, x) == 0.0
  {
  }

  lemma AllAtLast(xs: seq<real>, x: real)
    requires xs != []
    ensures AllAt(xs, x) <==> AllAt(xs[..|xs| - 1], x) && xs[|xs| - 1] == x
  {
    assert xs == xs[..|xs| - 1] + [xs[|xs| - 1]];
  }

  /** The denominator is the sum of the squared distances of all pairs of times: it
      is never negative, and zero exactly when all times coincide. */
  lemma {:induction false} DenominatorIsPairSquares(xs: seq<real>)
    ensures Denominator(xs) == PairSquares(xs) >= 0.0
    ensures xs != [] ==> (Denominator(xs) == 0.0 <==> AllAt(xs, xs[0]))
  {
    hide Denom, Around, AllAt, Times;
    if xs == [] {
      DenomNothing();
    } else {
      var init, x := xs[..|xs| - 1], xs[|xs| - 1];
      DenominatorIsPairSquares(init);
      SquaresFromExpand(init, x);
      DenomStep(|init| as real, Sum(init), Dot(init, init), x);
      assert |xs| as real == |init| as real + 1.0;
      Coinciding(xs);
    }
  }

  lemma DenomNothing()
    ensures Denom(0.0, 0.0, 0.0) == 0.0
  {
  }

  lemma Coinciding(xs: seq<real>)
    requires xs != []
    ensures var init, x := xs[..|xs| - 1], xs[|xs| - 1];
      AllAt(xs, xs[0]) <==> AllAt(init, x) && (init != [] ==> AllAt(init, init[0]))
  {
    AllAtLast(xs, xs[0]);
  }

  // ---------------------------------------------------------------------
  // Least squares
  // ---------------------------------------------------------------------

  /** The squared error of the line `a * x + b`. */
  ghost function Error(xs: seq<real>, ys: seq<real>, a: real, b: real): real
    requires |xs| == |ys|
  {
    if xs == [] then 0.0
    else Error(xs[..|xs| - 1], ys[..|ys| - 1], a, b) + Square(ys[|ys| - 1] - Line(a, b, xs[|xs| - 1]))
  }

  function Base(n: real, sx: real, sy: real, m: real): real
    requires n != 0.0
  {
    (sy - m * sx) / n
  }

  ghost function Intercept(xs: seq<real>, ys: seq<real>): real
    requires |xs| == |ys| > 0
  {
    Base(|xs| as real, Sum(xs), Sum(ys), Slope(xs, ys))
  }

  /** The squared error as a polynomial in the line's two coefficients. */
  ghost function ErrorPoly(n: real, sx: real, sy: real, sxx: real, sxy: real, syy: real, a: real, b: real): real {
    syy - 2.0 * (a * sxy) - 2.0 * (b * sy) + a * a * sxx + 2.0 * (a * b * sx) + b * b * n
  }

  lemma {:induction false} ErrorExpand(xs: seq<real>, ys: seq<real>, a: real, b: real)
    requires |xs| == |ys|
    ensures Error(xs, ys, a, b)
         == ErrorPoly(|xs| as real, Sum(xs), Sum(ys), Dot(xs, xs), Dot(xs, ys), Dot(ys, ys), a, b)
    ensures Error(xs, ys, a, b) >= 0.0
  {
    hide ErrorPoly, Square, Times, Line;
    if xs == [] {
      ErrorPolyNothing(a, b);
    } else {
      var n := |xs| - 1;
      ErrorExpand(xs[..n], ys[..n], a, b);
      ErrorPolyStep(n as real, Sum(xs[..n]), Sum(ys[..n]), Dot(xs[..n], xs[..n]), Dot(xs[..n], ys[..n]),
        Dot(ys[..n], ys[..n]), a, b, xs[n], ys[n]);
      SquarePositive(ys[n] - Line(a, b, xs[n]));
      assert |xs| as real == n as real + 1.0;
    }
  }

  lemma ErrorPolyNothing(a: real, b: real)
    ensures ErrorPoly(0.0, 0.0, 0.0, 0.0, 0.0, 0.0, a, b) == 0.0
  {
  }

  lemma ErrorPolyStep(n: real, sx: real, sy: real, sxx: real, sxy: real, syy: real, a: real, b: real, x: real, y: real)
    ensures ErrorPoly(n + 1.0, sx + x, sy + y, sxx + Times(x, x), sxy + Times(x, y), syy + Times(y, y), a, b)
         == ErrorPoly(n, sx, sy, sxx, sxy, syy, a, b) + Square(y - Line(a, b, x))
  {
  }

  /** The fitted line satisfies both normal equations, also when all times coincide. */
  lemma NormalEquations(xs: seq<real>, ys: seq<real>)
    requires |xs| == |ys| > 0
    ensures Normal(|xs| as real, Sum(xs), Sum(ys), Dot(xs, xs), Dot(xs, ys), Slope(xs, ys), Intercept(xs, ys))
  {
    hide Denom, Ratio, Base, Normal, Times;
    var n, sx, sy, sxx, sxy := |xs| as real, Sum(xs), Sum(ys), Dot(xs, xs), Dot(xs, ys);
    if Denominator(xs) == 0.0 {
      DenominatorIsPairSquares(xs);
      Coincident(xs, ys, xs[0]);
      Coincident(xs, xs, xs[0]);
      NormalFlat(n, xs[0], sy);
    } else {
      NormalSloped(n, sx, sy, sxx, sxy);
    }
  }

  ghost predicate Normal(n: real, sx: real, sy: real, sxx: real, sxy: real, m: real, c: real) {
    m * sx + c * n == sy && m * sxx + c * sx == sxy
  }

  lemma NormalFlat(n: real, x: real, sy: real)
    requires n > 0.0
    ensures var sx, sxy := Times(n, x), Times(x, sy);
      var sxx := Times(x, sx);
      var m := Ratio(n, sx, sy, sxx, sxy);
      Normal(n, sx, sy, sxx, sxy, m, Base(n, sx, sy, m))
  {
    assert Denom(n, n * x, x * (n * x)) == 0.0;
    var c := sy / n;
    assert c * n == sy;
    assert c * (n * x) == (c * n) * x;
  }

  lemma NormalSloped(n: real, sx: real, sy: real, sxx: real, sxy: real)
    requires n > 0.0 && Denom(n, sx, sxx) != 0.0
    ensures var m := Ratio(n, sx, sy, sxx, sxy);
      Normal(n, sx, sy, sxx, sxy, m, Base(n, sx, sy, m))
  {
    var d, m := Denom(n, sx, sxx), Ratio(n, sx, sy, sxx, sxy);
    var c := Base(n, sx, sy, m);
    assert m * d == n * sxy - sx * sy;
    assert c * n == sy - m * sx;
    SecondNormal(n, sx, sy, sxx, sxy, m, c);
  }

  lemma SecondNormal(n: real, sx: real, sy: real, sxx: real, sxy: real, m: real, c: real)
    requires n > 0.0 && c * n == sy - m * sx
    requires m * Denom(n, sx, sxx) == n * sxy - sx * sy
    ensures m * sxx + c * sx == sxy
  {
    var e := m * sxx + c * sx - sxy;
    assert m * Denom(n, sx, sxx) == m * (n * sxx) - m * (sx * sx);
    assert (c * n) * sx == sy * sx - m * (sx * sx);
    assert e * n == m * (n * sxx) + (c * n) * sx - n * sxy;
    assert e * n == 0.0;
    Cancel(e, n);
  }

  lemma Cancel(e: real, n: real)
    requires e * n == 0.0 && n != 0.0
    ensures e == 0.0
  {
  }

  lemma CoincidentStep(x: real, sy: real, y: real, n: real)
    ensures Times(x, sy + y) == Times(x, sy) + Times(x, y)
    ensures Times(n + 1.0, x) == Times(n, x) + x
    ensures Times(0.0, x) == Times(x, 0.0) == 0.0
  {
  }

  lemma {:induction false} Coincident(xs: seq<real>, ys: seq<real>, x: real)
    requires |xs| == |ys| && AllAt(xs, x)
    ensures Sum(xs) == Times(|xs| as real, x) && Dot(xs, ys) == Times(x, Sum(ys))
  {
    hide Times;
    if xs != [] {
      var n := |xs| - 1;
      Coincident(xs[..n], ys[..n], x);
      assert xs[n] == x;
      CoincidentStep(x, Sum(ys[..n]), ys[n], n as real);
      assert |xs| as real == n as real + 1.0;
    } else {
      CoincidentStep(x, 0.0, 0.0, 0.0);
    }
  }

  lemma Scale(k: real, a: real, b: real)
    ensures k * (a + b) == k * a + k * b
  {
  }

  /** No line has a smaller squared error than the fitted one. */
  lemma SlopeIsOptimal(xs: seq<real>, ys: seq<real>, a: real, b: real)
    requires |xs| == |ys| > 0
    ensures Error(xs, ys, Slope(xs, ys), Intercept(xs, ys)) <= Error(xs, ys, a, b)
  {
    hide ErrorPoly, Slope, Intercept, Error, Dot, Sum, Normal;
    var m, c := Slope(xs, ys), Intercept(xs, ys);
    NormalEquations(xs, ys);
    ErrorExpand(xs, ys, m, c);
    ErrorExpand(xs, ys, a, b);
    var zeros := seq(|xs|, _ => 0.0);
    ErrorExpand(xs, zeros, a - m, b - c);
    ZeroSums(xs, zeros);
    CompleteSquare(|xs| as real, Sum(xs), Sum(ys), Dot(xs, xs), Dot(xs, ys), Dot(ys, ys), m, c, a, b);
  }

  lemma {:induction false} ZeroSums(xs: seq<real>, zeros: seq<real>)
    requires |xs| == |zeros| && AllAt(zeros, 0.0)
    ensures Sum(zeros) == 0.0 && Dot(xs, zeros) == 0.0 && Dot(zeros, zeros) == 0.0
  {
    if xs != [] {
      assert zeros[|zeros| - 1] == 0.0;
      ZeroSums(xs[..|xs| - 1], zeros[..|zeros| - 1]);
    }
  }

  /** Any line's error exceeds the fitted line's by the error of their difference. */
  lemma CompleteSquare(n: real, sx: real, sy: real, sxx: real, sxy: real, syy: real, m: real, c: real, a: real, b: real)
    requires Normal(n, sx, sy, sxx, sxy, m, c)
    ensures ErrorPoly(n, sx, sy, sxx, sxy, syy, a, b)
         == ErrorPoly(n, sx, sy, sxx, sxy, syy, m, c) + ErrorPoly(n, sx, 0.0, sxx, 0.0, 0.0, a - m, b - c)
  {
    var p, q := a - m, b - c;
    assert p * sxy == p * (m * sxx) + p * (c * sx);
    assert q * sy == q * (m * sx) + q * (c * n);
  }

  // ---------------------------------------------------------------------
  // Exactness on lines
  // ---------------------------------------------------------------------

  ghost predicate OnLine(xs: seq<real>, ys: seq<real>, a: real, b: real)
    requires |xs| == |ys|
  {
    forall i :: 0 <= i < |xs| ==> ys[i] == Line(a, b, xs[i])
  }

  function Line(a: real, b: real, x: real): real {
    a * x + b
  }

  ghost function Mixed(a: real, b: real, u: real, v: real): real {
    a * u + b * v
  }

  lemma {:induction false} LineSums(xs: seq<real>, ys: seq<real>, a: real, b: real)
    requires |xs| == |ys| && OnLine(xs, ys, a, b)
    ensures Sum(ys) == Mixed(a, b, Sum(xs), |xs| as real)
    ensures Dot(xs, ys) == Mixed(a, b, Dot(xs, xs), Sum(xs))
  {
    hide Mixed, Line, Times;
    if xs == [] {
      MixedNothing(a, b);
    } else {
      var n := |xs| - 1;
      LineSums(xs[..n], ys[..n], a, b);
      assert ys[n] == Line(a, b, xs[n]);
      MixedStep(a, b, Sum(xs[..n]), n as real, Dot(xs[..n], xs[..n]), xs[n]);
      assert |xs| as real == n as real + 1.0;
    }
  }

  lemma MixedNothing(a: real, b: real)
    ensures Mixed(a, b, 0.0, 0.0) == 0.0
  {
  }

  lemma MixedStep(a: real, b: real, sx: real, n: real, sxx: real, x: real)
    ensures Mixed(a, b, sx + x, n + 1.0) == Mixed(a, b, sx, n) + Line(a, b, x)
    ensures Mixed(a, b, sxx + Times(x, x), sx + x) == Mixed(a, b, sxx, sx) + Times(x, Line(a, b, x))
  {
  }

  /** Collinear data gives back its true slope, unless all times coincide. */
  lemma SlopeExactOnLine(xs: seq<real>, ys: seq<real>, a: real, b: real)
    requires |xs| == |ys| && OnLine(xs, ys, a, b) && Denominator(xs) != 0.0
    ensures Slope(xs, ys) == a
  {
    hide Mixed, Ratio, Denom, OnLine, Sum, Dot;
    LineSums(xs, ys, a, b);
    RatioOnLine(|xs| as real, Sum(xs), Dot(xs, xs), a, b);
  }

  lemma RatioOnLine(n: real, sx: real, sxx: real, a: real, b: real)
    requires Denom(n, sx, sxx) != 0.0
    ensures Ratio(n, sx, Mixed(a, b, sx, n), sxx, Mixed(a, b, sxx, sx)) == a
  {
    var d := Denom(n, sx, sxx);
    assert n * Mixed(a, b, sxx, sx) == a * (n * sxx) + b * (n * sx);
    assert sx * Mixed(a, b, sx, n) == a * (sx * sx) + b * (n * sx);
    assert a * d == a * (n * sxx) - a * (sx * sx);
    assert n * Mixed(a, b, sxx, sx) - sx * Mixed(a, b, sx, n) == a * d;
    Undo(a, d);
  }

  lemma Undo(a: real, d: real)
    requires d != 0.0
    ensures a * d / d == a
    ensures d * (a / d) == a
  {
  }

  /** A share that fills along a straight line is projected to be full exactly when
      that line reaches its capacity. */
  lemma ProjectionReachesTotal(pts: seq<Sample>, a: real, b: real)
    requires |pts| >= 2 && Sorting.Sorted(pts, Time) && pts[0].t != pts[|pts| - 1].t
    requires OnLine(Xs(pts, pts[0].t), Ys(pts), a, b)
    ensures Estimate(pts).Estimated? ==>
      var f, last := Estimate(pts).forecast, pts[|pts| - 1];
      && f.growth == a
      && (f.full.Some? <==> a > 0.0 && last.total.Some? && last.total.value != 0.0)
      && (f.full.Some? && last.total.value > last.used ==>
        Line(a, b, f.spanDays + f.full.value.daysToFull) == last.total.value)
  {
    hide Slope, Denom, Sum, Dot, Line, Days, ToDate;
    var xs, ys := Xs(pts, pts[0].t), Ys(pts);
    var n := |pts| - 1;
    var last := pts[n];
    DenominatorIsPairSquares(xs);
    DaysDiffer(pts[0], last, pts[0].t);
    assert xs[0] != xs[n];
    SlopeExactOnLine(xs, ys, a, b);
    assert ys[n] == Line(a, b, xs[n]);
    if a > 0.0 && last.total.Some? && last.total.value > last.used {
      LineReaches(a, b, xs[n], last.total.value - last.used);
    }
  }

  lemma LineReaches(a: real, b: real, x: real, remaining: real)
    requires a > 0.0
    ensures Line(a, b, x + remaining / a) == Line(a, b, x) + remaining
  {
    Undo(remaining, a);
    Scale(a, x, remaining / a);
  }

  lemma DaysDiffer(p: Sample, q: Sample, t0: int)
    requires p.t != q.t
    ensures Days(p, t0) != Days(q, t0)
  {
    var k := MS_PER_DAY as real;
    assert Days(p, t0) * k == (p.t - t0) as real;
    assert Days(q, t0) * k == (q.t - t0) as real;
  }

  // ---------------------------------------------------------------------
  // Order of the history
  // ---------------------------------------------------------------------

  lemma {:induction false} UsableConcat(a: seq<Point>, b: seq<Point>)
    ensures Usable(a + b) == Usable(a) + Usable(b)
  {
    if a == [] {
      assert a + b == b;
    } else {
      assert (a + b)[1..] == a[1..] + b;
      UsableConcat(a[1..], b);
    }
  }

  lemma RemoveOne(a: seq<Point>, b: seq<Point>, i: nat)
    requires a != [] && multiset(a) == multiset(b) && i < |b| && b[i] == a[0]
    ensures multiset(a[1..]) == multiset(b[..i] + b[i + 1..])
  {
    assert a == [a[0]] + a[1..];
    assert b == b[..i] + [b[i]] + b[i + 1..];
    assert multiset(a[1..]) == multiset(a) - multiset{a[0]};
    assert multiset(b[..i] + b[i + 1..]) == multiset(b) - multiset{b[i]};
  }

  lemma CutAround<T>(s: seq<T>, i: nat)
    requires i < |s|
    ensures s == s[..i] + [s[i]] + s[i + 1..]
  {
  }

  lemma UsableSplit(b: seq<Point>, i: nat)
    requires i < |b|
    ensures Usable(b) == Usable(b[..i]) + Usable([b[i]]) + Usable(b[i + 1..])
  {
    hide Usable;
    CutAround(b, i);
    UsableConcat(b[..i], [b[i]]);
    UsableConcat(b[..i] + [b[i]], b[i + 1..]);
  }

  lemma {:induction false} UsableShuffled(a: seq<Point>, b: seq<Point>)
    requires multiset(a) == multiset(b)
    ensures multiset(Usable(a)) == multiset(Usable(b))
    decreases |a|
  {
    hide Usable;
    assert |a| == |multiset(a)| == |multiset(b)| == |b|;
    if a == [] {
    } else {
      assert a[0] in multiset(a);
      assert a[0] in b;
      var i :| 0 <= i < |b| && b[i] == a[0];
      var front, back := b[..i], b[i + 1..];
      RemoveOne(a, b, i);
      UsableShuffled(a[1..], front + back);
      UsableSplit(b, i);
      UsableConcat(front, back);
      UsableConcat([a[0]], a[1..]);
      assert a == [a[0]] + a[1..];
    }
  }

  /** The forecast does not depend on the order of the history. */
  lemma OrderIrrelevant(a: seq<Point>, b: seq<Point>)
    requires multiset(a) == multiset(b) && Sorting.DistinctKeys(Usable(a), Time)
    ensures ForecastStorage(a) == ForecastStorage(b)
  {
    var u, v := Usable(a), Usable(b);
    UsableShuffled(a, b);
    Sorting.SortBySorts(u, Time);
    Sorting.SortBySorts(v, Time);
    Sorting.SortByDistinct(u, Time);
    Sorting.SortedUnique(Sorting.SortBy(u, Time), Sorting.SortBy(v, Time), Time);
  }

  // ---------------------------------------------------------------------
  // When the forecast fails
  // ---------------------------------------------------------------------

  /** The forecast throws exactly when the share fills so slowly that the full date
      lies beyond the last representable one. */
  lemma ThrowsExactly(pts: seq<Sample>)
    requires |pts| >= 2
    ensures var last, slope := pts[|pts| - 1], Slope(Xs(pts, pts[0].t), Ys(pts));
      Estimate(pts) == RangeError <==>
      && last.total.Some? && last.total.value != 0.0 && slope > 0.0
      && last.t as real + DaysToFull(last.total.value - last.used, slope) * MS_PER_DAY as real > MAX_TIME
  {
    var last, slope := pts[|pts| - 1], Slope(Xs(pts, pts[0].t), Ys(pts));
    if last.total.Some? && slope > 0.0 {
      NotBefore(last.total.value - last.used, slope);
    }
  }

  lemma NotBefore(remaining: real, slope: real)
    requires slope > 0.0
    ensures DaysToFull(remaining, slope) * MS_PER_DAY as real >= 0.0
  {
    if remaining > 0.0 {
      var days := remaining / slope;
      assert days * slope == remaining;
    }
  }

  /** One byte a day towards a terabyte is already too slow. */
  lemma SlowGrowthThrows()
    ensures Estimate([Sample(0, 0.0, None), Sample(MS_PER_DAY, 1.0, Some(1_000_000_000_000.0))]) == RangeError
  {
    var pts := [Sample(0, 0.0, None), Sample(MS_PER_DAY, 1.0, Some(1_000_000_000_000.0))];
    var xs, ys := Xs(pts, 0), Ys(pts);
    assert xs == [0.0, 1.0] && ys == [0.0, 1.0];
    LineOfTwo();
  }

  lemma LineOfTwo()
    ensures Slope([0.0, 1.0], [0.0, 1.0]) == 1.0
  {
    var xs := [0.0, 1.0];
    assert xs[..1] == [0.0] && [0.0][..0] == [];
    assert Sum([0.0]) == 0.0 && Dot([0.0], [0.0]) == 0.0;
    assert Sum(xs) == 1.0 && Dot(xs, xs) == 1.0;
    assert Denominator(xs) == 1.0;
  }
}
