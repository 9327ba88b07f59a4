/** What a forecast says of the history it was given, field by field. */
module ForecastResult {
  import opened Forecast
  import opened Shared
  import Sorting

  /** The squared error of a line, over the samples themselves: `a` bytes per day and
      `b` bytes at `t0`. */
  ghost function SquaredError(pts: seq<Sample>, t0: int, a: real, b: real): real {
    if pts == [] then 0.0
    else
      var s := pts[|pts| - 1];
      var off := s.used - (a * ((s.t - t0) as real / 86_400_000.0) + b);
      SquaredError(pts[..|pts| - 1], t0, a, b) + off * off
  }

  lemma {:induction false} ErrorIs(pts: seq<Sample>, t0: int, a: real, b: real)
    ensures SquaredError(pts, t0, a, b) == Error(Xs(pts, t0), Ys(pts), a, b)
  {
    if pts != [] {
      var n := |pts| - 1;
      ErrorIs(pts[..n], t0, a, b);
      assert Xs(pts, t0)[..n] == Xs(pts[..n], t0) && Ys(pts)[..n] == Ys(pts[..n]);
    }
  }

  /** No other line has a smaller squared error. */
  ghost predicate BestLine(pts: seq<Sample>, t0: int, m: real, c: real) {
    forall a, b :: SquaredError(pts, t0, m, c) <= SquaredError(pts, t0, a, b)
  }

  /** `growth` is the slope of such a line. */
  ghost predicate BestSlope(pts: seq<Sample>, t0: int, growth: real) {
    exists c :: BestLine(pts, t0, growth, c)
  }

  /** The points that count: those whose time parses and whose used bytes are known. */
  lemma OneUsable(p: Point)
    ensures Usable([p]) ==
      if p.time.Some? && p.used.Some? then [Sample(p.time.value, p.used.value, p.total)] else []
    ensures Usable([]) == []
  {
    assert [p][1..] == [];
  }

  /** The projection from the last sample on: the rest is filled at the rate of growth,
      and the date is cut to whole milliseconds. */
  ghost predicate Projects(last: Sample, total: real, growth: real, p: Projection) {
    && (total <= last.used ==> p.daysToFull == 0.0)
    && (last.used < total ==> growth * p.daysToFull == total - last.used)
    && var ms := last.t as real + p.daysToFull * 86_400_000.0;
      && -1.0 < ms - p.fullAt as real < 1.0
      && (0.0 <= ms ==> 0.0 <= p.fullAt as real <= ms) && (ms <= 0.0 ==> ms <= p.fullAt as real <= 0.0)
  }

  ghost predicate Describes(pts: seq<Sample>, f: Forecast)
    requires |pts| >= 2
  {
    var first, last := pts[0], pts[|pts| - 1];
    && f.samples == |pts|
    && f.spanDays * 86_400_000.0 == (last.t - first.t) as real
    && BestSlope(pts, first.t, f.growth)
    && (first.t == last.t ==> f.growth == 0.0)
    && (f.full.None? <==> last.total.None? || last.total.value == 0.0 || f.growth <= 0.0)
    && (f.full.Some? ==> Projects(last, last.total.value, f.growth, f.full.value))
  }

  /** With fewer than two usable points there is no forecast; otherwise it describes the
      usable points in the order of their times, unless its date cannot be represented. */
  lemma ForecastExactly(points: seq<Point>)
    ensures var pts := Sorting.SortBy(Usable(points), Time);
      && Sorting.Sorted(pts, Time) && multiset(pts) == multiset(Usable(points))
      && (ForecastStorage(points) == NotEnough <==> |pts| < 2)
      && (ForecastStorage(points).Estimated? ==> Describes(pts, ForecastStorage(points).forecast))
  {
    var pts := Sorting.SortBy(Usable(points), Time);
    Sorting.SortBySorts(Usable(points), Time);
    if ForecastStorage(points).Estimated? {
      EstimateDescribes(pts);
    }
  }

  lemma EstimateDescribes(pts: seq<Sample>)
    requires |pts| >= 2 && Sorting.Sorted(pts, Time) && Estimate(pts).Estimated?
    ensures Describes(pts, Estimate(pts).forecast)
  {
    hide Slope, BestSlope, Projects;
    var t0, last := pts[0].t, pts[|pts| - 1];
    var growth := Slope(Xs(pts, t0), Ys(pts));
    SlopeIsBest(pts, t0);
    if t0 == last.t {
      FlatSlope(pts, t0);
    }
    if last.total.Some? && last.total.value != 0.0 && growth > 0.0 {
      DateProjects(last, last.total.value, growth);
    }
  }

  lemma SlopeIsBest(pts: seq<Sample>, t0: int)
    requires pts != []
    ensures BestSlope(pts, t0, Slope(Xs(pts, t0), Ys(pts)))
  {
    hide Slope, Intercept, SquaredError, Error;
    var xs, ys := Xs(pts, t0), Ys(pts);
    var m, c := Slope(xs, ys), Intercept(xs, ys);
    forall a, b
      ensures SquaredError(pts, t0, m, c) <= SquaredError(pts, t0, a, b)
    {
      ErrorIs(pts, t0, m, c);
      ErrorIs(pts, t0, a, b);
      SlopeIsOptimal(xs, ys, a, b);
    }
    assert BestLine(pts, t0, m, c);
  }

  lemma FlatSlope(pts: seq<Sample>, t0: int)
    requires pts != [] && Sorting.Sorted(pts, Time) && pts[0].t == t0 == pts[|pts| - 1].t
    ensures Slope(Xs(pts, t0), Ys(pts)) == 0.0
  {
    hide Sum, Dot, Denom, PairSquares;
    var xs := Xs(pts, t0);
    forall i | 0 <= i < |pts|
      ensures xs[i] == xs[0]
    {
      assert Time(pts[0]) <= Time(pts[i]) <= Time(pts[|pts| - 1]);
    }
    DenominatorIsPairSquares(xs);
  }

  lemma DateProjects(last: Sample, total: real, growth: real)
    requires growth > 0.0
    ensures var days := DaysToFull(total - last.used, growth);
      var date := ToDate(last.t as real + days * 86_400_000.0);
      date.Some? ==> Projects(last, total, growth, Projection(days, date.value))
  {
    var remaining := total - last.used;
    if remaining > 0.0 {
      Undo(remaining, growth);
    }
  }
}
