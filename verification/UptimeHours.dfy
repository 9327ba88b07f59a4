/** How much time one hour bucket holds. A gap is credited to the hour it began in, so
    a bucket can hold more than its hour. */
module UptimeHours {
  import opened Diff
  import opened Pipeline
  import opened Uptime

  const HOUR_SEC := 3600

  /** The seconds between consecutive samples of which the earlier lies in the hour. */
  ghost function HeldIn(marks: seq<Mark>, hour: int): int {
    if |marks| < 2 then 0
    else
      var a, b := marks[|marks| - 2], marks[|marks| - 1];
      HeldIn(marks[..|marks| - 1], hour) +
      if a.Seen? && b.Seen? && HourOf(a.at) == hour then Gap(a.at, b.at) else 0
  }

  ghost function BucketSec(buckets: map<Slot, Bucket>, slot: Slot): int {
    if slot in buckets then buckets[slot].totalSec else 0
  }

  lemma HeldInAppend(marks: seq<Mark>, more: seq<Mark>, hour: int)
    requires |more| <= 1
    ensures HeldIn(marks + more, hour) == HeldIn(marks, hour) +
      if more != [] && LastMark(marks).Seen? && more[0].Seen? && HourOf(LastMark(marks).at) == hour
      then Gap(LastMark(marks).at, more[0].at) else 0
  {
    hide Gap, HourOf;
    var all := marks + more;
    if more == [] {
      assert all == marks;
    } else {
      assert all[..|all| - 1] == marks && all[|all| - 1] == more[0];
    }
  }

  /** A bucket holds exactly the gaps that began in its hour. */
  lemma {:induction false} BucketHolds(steps: seq<Step>, slot: Slot)
    requires DistinctRun(steps)
    ensures BucketSec(Run(steps).buckets, slot) == HeldIn(Timeline(steps, slot.key), slot.hour)
  {
    hide Gap, HourOf, Credits, LastSample, Refreshed, Events, AllApplied, HeldIn;
    if steps == [] {
      HeldInNothing(slot.hour);
    } else {
      var init, last := steps[..|steps| - 1], steps[|steps| - 1];
      BucketHolds(init, slot);
      BaselineIsLastMark(init, slot.key);
      var marks, more := Timeline(init, slot.key), MarksOf(last, slot.key);
      HeldInAppend(marks, more, slot.hour);
      if last.Batch? {
        var prev := Baseline(Run(init).states, last.source);
        BatchBucket(Run(init).buckets, prev, last.source, last.units, last.now, slot);
        BaselineAt(Run(init).states, Key(last.source, slot.key.entity));
        if slot.key.entity in prev {
          GapNonNegative(prev[slot.key.entity].updatedAt, last.now);
        }
      }
    }
  }

  lemma HeldInNothing(hour: int)
    ensures HeldIn([], hour) == 0
  {
  }

  // ---------------------------------------------------------------------
  // More than the hour
  // ---------------------------------------------------------------------

  predicate InHour(marks: seq<Mark>, hour: int, i: int) {
    0 <= i < |marks| && marks[i].Seen? && HourOf(marks[i].at) == hour
  }

  predicate PastHour(marks: seq<Mark>, hour: int, i: int) {
    0 <= i < |marks| && marks[i].Seen? && marks[i].at >= hour + MS_PER_HOUR
  }

  /** `i` is the first sample of the hour, `j` a later one at another time, and `n` the
      first one after the hour, more than an hour after `i`. */
  ghost predicate SpillsAt(marks: seq<Mark>, hour: int, i: int, j: int, n: int) {
    && InHour(marks, hour, i) && InHour(marks, hour, j) && PastHour(marks, hour, n)
    && (forall m :: 0 <= m < i ==> !InHour(marks, hour, m))
    && (forall m :: 0 <= m < n ==> !PastHour(marks, hour, m))
    && i < j < n && marks[i].at < marks[j].at
    && marks[n].at - marks[i].at > HOUR_SEC * 1000
  }

  ghost predicate Spills(marks: seq<Mark>, hour: int) {
    exists i, j, n :: SpillsAt(marks, hour, i, j, n)
  }

  lemma InHourBounds(marks: seq<Mark>, hour: int, i: int)
    requires InHour(marks, hour, i)
    ensures hour % MS_PER_HOUR == 0 && hour <= marks[i].at < hour + MS_PER_HOUR
  {
  }

  lemma GapBounds(since: int, now: int)
    requires since <= now
    ensures 0 <= Gap(since, now) * 1000 <= now - since && Gap(since, now) <= HOUR_SEC
  {
  }

  lemma {:induction false} NothingInHour(marks: seq<Mark>, hour: int)
    requires forall m :: 0 <= m < |marks| - 1 ==> !InHour(marks, hour, m)
    ensures HeldIn(marks, hour) == 0
  {
    hide HourOf, Gap;
    if |marks| >= 2 {
      var init := marks[..|marks| - 1];
      forall m | 0 <= m < |init| - 1
        ensures !InHour(init, hour, m)
      {
        assert !InHour(marks, hour, m);
      }
      NothingInHour(init, hour);
      assert !InHour(marks, hour, |marks| - 2);
    }
  }

  /** What the hour holds is bounded by its own span, or by that and one more gap. */
  ghost predicate Bounded(marks: seq<Mark>, hour: int, i: int, j: int, n: int, held: int)
    requires InHour(marks, hour, i)
  {
    && InHour(marks, hour, j) && i <= j
    && if n < 0 then held * 1000 <= marks[j].at - marks[i].at
       else
         && PastHour(marks, hour, n) && j < n && (forall m :: 0 <= m < n ==> !PastHour(marks, hour, m))
         && held * 1000 <= marks[j].at - marks[i].at + HOUR_SEC * 1000
         && held * 1000 <= marks[n].at - marks[i].at
  }

  lemma BoundedLonger(init: seq<Mark>, marks: seq<Mark>, hour: int, i: int, j: int, n: int, held: int)
    requires |init| <= |marks| && init == marks[..|init|] && InHour(init, hour, i) && Bounded(init, hour, i, j, n, held)
    ensures InHour(marks, hour, i) && Bounded(marks, hour, i, j, n, held)
  {
    hide HourOf;
    if n >= 0 {
      forall m | 0 <= m < n
        ensures !PastHour(marks, hour, m)
      {
        assert !PastHour(init, hour, m);
      }
    }
  }

  lemma {:induction false} HourBounded(marks: seq<Mark>, hour: int, i: int) returns (j: int, n: int)
    requires Forward(marks) && InHour(marks, hour, i) && forall m :: 0 <= m < i ==> !InHour(marks, hour, m)
    ensures Bounded(marks, hour, i, j, n, HeldIn(marks, hour))
    decreases |marks|
  {
    hide HourOf, Gap;
    var last := |marks| - 1;
    if i == last {
      NothingInHour(marks, hour);
      j, n := i, -1;
    } else {
      var init := marks[..last];
      forall m | 0 <= m < i
        ensures !InHour(init, hour, m)
      {
        assert !InHour(marks, hour, m);
      }
      j, n := HourBounded(init, hour, i);
      BoundedLonger(init, marks, hour, i, j, n, HeldIn(init, hour));
      if InHour(marks, hour, last - 1) && marks[last].Seen? {
        j, n := LastGap(marks, hour, i, j, n);
      }
    }
  }

  /** The last two marks are samples, the first of them in the hour. */
  lemma LastGap(marks: seq<Mark>, hour: int, i: int, j: int, n: int) returns (j': int, n': int)
    requires Forward(marks) && InHour(marks, hour, i) && i < |marks| - 1
    requires InHour(marks, hour, |marks| - 2) && marks[|marks| - 1].Seen?
    requires j < |marks| - 1 && n < |marks| - 1
    requires Bounded(marks, hour, i, j, n, HeldIn(marks[..|marks| - 1], hour))
    ensures Bounded(marks, hour, i, j', n', HeldIn(marks, hour))
  {
    hide HourOf, Gap;
    var last := |marks| - 1;
    InHourBounds(marks, hour, last - 1);
    GapBounds(marks[last - 1].at, marks[last].at);
    assert n < 0;
    forall m | 0 <= m < last
      ensures !PastHour(marks, hour, m)
    {
      assert marks[m].Seen? ==> marks[m].at <= marks[last - 1].at;
    }
    if PastHour(marks, hour, last) {
      j', n' := last - 1, last;
    } else {
      InHourIs(marks, hour, last);
      j', n' := last, -1;
    }
  }

  lemma InHourIs(marks: seq<Mark>, hour: int, i: int)
    requires hour % MS_PER_HOUR == 0 && 0 <= i < |marks| && marks[i].Seen?
    ensures InHour(marks, hour, i) <==> hour <= marks[i].at < hour + MS_PER_HOUR
  {
  }

  lemma FirstInHour(marks: seq<Mark>, hour: int) returns (i: int)
    requires exists m :: InHour(marks, hour, m)
    ensures InHour(marks, hour, i) && forall m :: 0 <= m < i ==> !InHour(marks, hour, m)
  {
    i := 0;
    while !InHour(marks, hour, i)
      invariant 0 <= i <= |marks| && forall m :: 0 <= m < i ==> !InHour(marks, hour, m)
      decreases |marks| - i
    {
      i := i + 1;
    }
  }

  /** More than the hour is held only where samples spill, whatever was pruned. */
  lemma OverMeansSpill(marks: seq<Mark>, hour: int)
    requires Forward(marks) && HeldIn(marks, hour) > HOUR_SEC
    ensures Spills(marks, hour)
  {
    hide HourOf, Gap, HeldIn;
    if forall m :: 0 <= m < |marks| ==> !InHour(marks, hour, m) {
      NothingInHour(marks, hour);
    }
    var i := FirstInHour(marks, hour);
    var j, n := HourBounded(marks, hour, i);
    InHourBounds(marks, hour, i);
    InHourBounds(marks, hour, j);
    assert SpillsAt(marks, hour, i, j, n);
  }

  // ---------------------------------------------------------------------
  // Exactly, for whole seconds and no pruning
  // ---------------------------------------------------------------------

  ghost predicate WholeSeconds(marks: seq<Mark>) {
    forall i :: 0 <= i < |marks| ==> marks[i].Seen? && marks[i].at % 1000 == 0
  }

  lemma GapExact(since: int, now: int)
    requires since <= now && since % 1000 == 0 && now % 1000 == 0
    ensures now - since <= HOUR_SEC * 1000 ==> Gap(since, now) * 1000 == now - since
    ensures now - since > HOUR_SEC * 1000 ==> Gap(since, now) == HOUR_SEC
  {
  }

  /** The hour's samples are those from `lo` to `hi`: their span is held, and the gap
      to the sample after them. */
  lemma {:induction false} Telescopes(marks: seq<Mark>, hour: int, lo: nat, hi: nat)
    requires WholeSeconds(marks) && Forward(marks) && lo < hi <= |marks|
    requires forall m :: 0 <= m < |marks| ==> (InHour(marks, hour, m) <==> lo <= m < hi)
    ensures HeldIn(marks, hour) * 1000 == marks[hi - 1].at - marks[lo].at +
      if hi < |marks| then Gap(marks[hi - 1].at, marks[hi].at) * 1000 else 0
    decreases |marks|
  {
    hide HourOf, Gap;
    var last := |marks| - 1;
    if lo == last {
      NothingInHour(marks, hour);
    } else {
      var init := marks[..last];
      forall m | 0 <= m < |init|
        ensures InHour(init, hour, m) <==> InHour(marks, hour, m)
      {
      }
      assert InHour(marks, hour, last - 1) <==> lo <= last - 1 < hi;
      Telescopes(init, hour, lo, if hi > last then last else hi);
      if hi > last {
        InHourBounds(marks, hour, last);
        InHourBounds(marks, hour, last - 1);
        GapExact(marks[last - 1].at, marks[last].at);
      }
    }
  }

  lemma SpillMeansOver(marks: seq<Mark>, hour: int)
    requires WholeSeconds(marks) && Forward(marks) && Spills(marks, hour)
    ensures HeldIn(marks, hour) > HOUR_SEC
  {
    hide HourOf, Gap, HeldIn;
    var i, j, n :| SpillsAt(marks, hour, i, j, n);
    InHourBounds(marks, hour, i);
    forall m | 0 <= m < |marks|
      ensures InHour(marks, hour, m) <==> i <= m < n
    {
      InHourIs(marks, hour, m);
      assert m < i ==> !InHour(marks, hour, m);
      assert m < n ==> !PastHour(marks, hour, m);
    }
    Telescopes(marks, hour, i, n);
    GapExact(marks[n - 1].at, marks[n].at);
  }

  // ---------------------------------------------------------------------
  // Over runs
  // ---------------------------------------------------------------------

  /** No prune concerns the unit, and every batch comes at a whole second. */
  ghost predicate Plain(steps: seq<Step>, key: Key) {
    forall i :: 0 <= i < |steps| ==>
      match steps[i]
      case Batch(_, _, now) => now % 1000 == 0
      case Prune(source, names) => source == key.source && names != {} ==> key.entity in names
  }

  lemma {:induction false} PlainTimeline(steps: seq<Step>, key: Key)
    requires Plain(steps, key)
    ensures WholeSeconds(Timeline(steps, key))
  {
    hide LastSample;
    if steps != [] {
      var init := steps[..|steps| - 1];
      assert forall i :: 0 <= i < |init| ==> init[i] == steps[i];
      PlainTimeline(init, key);
    }
  }

  /** Over any run, a bucket that holds more than its hour has at least two samples at
      different times in it, and the first sample after the hour comes more than an hour
      after the first one in it. */
  lemma OverfullMeansSpill(steps: seq<Step>, slot: Slot)
    requires DistinctRun(steps) && ForwardRun(steps)
    requires BucketSec(Run(steps).buckets, slot) > HOUR_SEC
    ensures Spills(Timeline(steps, slot.key), slot.hour)
  {
    hide Run, Timeline, HeldIn, Spills, Forward, ForwardRun, DistinctRun, BucketSec;
    BucketHolds(steps, slot);
    RunForward(steps, slot.key);
    OverMeansSpill(Timeline(steps, slot.key), slot.hour);
  }

  /** For a unit that is never pruned, and whole-second times, that is exactly when. */
  lemma OverfullExactly(steps: seq<Step>, slot: Slot)
    requires DistinctRun(steps) && ForwardRun(steps) && Plain(steps, slot.key)
    ensures BucketSec(Run(steps).buckets, slot) > HOUR_SEC <==> Spills(Timeline(steps, slot.key), slot.hour)
  {
    hide Run, Timeline, HeldIn, Spills, Forward, ForwardRun, DistinctRun, Plain, WholeSeconds, BucketSec;
    BucketHolds(steps, slot);
    RunForward(steps, slot.key);
    PlainTimeline(steps, slot.key);
    if Spills(Timeline(steps, slot.key), slot.hour) {
      SpillMeansOver(Timeline(steps, slot.key), slot.hour);
    }
    if HeldIn(Timeline(steps, slot.key), slot.hour) > HOUR_SEC {
      OverMeansSpill(Timeline(steps, slot.key), slot.hour);
    }
  }

  lemma RunForward(steps: seq<Step>, key: Key)
    requires ForwardRun(steps)
    ensures Forward(Timeline(steps, key))
  {
    hide ForwardRun, Timeline, Forward;
    var first := EarliestBatch(steps);
    var last := LatestBatch(steps);
    TimelineForward(steps, key, first, last);
  }

  lemma {:induction false} LatestBatch(steps: seq<Step>) returns (t: int)
    ensures forall i :: 0 <= i < |steps| && steps[i].Batch? ==> steps[i].now <= t
  {
    t := 0;
    if steps != [] {
      t := LatestBatch(steps[..|steps| - 1]);
      var last := steps[|steps| - 1];
      if last.Batch? && last.now > t {
        t := last.now;
      }
    }
  }
}
