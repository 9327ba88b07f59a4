/** Uptime accounting over whole runs of the ingest pipeline. */
module Uptime {
  import opened Diff
  import opened Pipeline
  import opened Shared

  // ---------------------------------------------------------------------
  // What was observed of one unit
  // ---------------------------------------------------------------------

  datatype Mark = Seen(at: int, status: Health) | Gone

  ghost function MarksOf(step: Step, key: Key): seq<Mark> {
    match step
    case Batch(source, units, now) =>
      if source == key.source && LastSample(units, key.entity).Some?
      then [Seen(now, LastSample(units, key.entity).value.status)] else []
    case Prune(source, names) =>
      if source == key.source && names != {} && key.entity !in names then [Gone] else []
  }

  ghost function Timeline(steps: seq<Step>, key: Key): seq<Mark> {
    if steps == [] then [] else Timeline(steps[..|steps| - 1], key) + MarksOf(steps[|steps| - 1], key)
  }

  /** The time from one sample to the next counts for the status of the earlier one. */
  function Between(a: Mark, b: Mark): Bucket {
    if a.Seen? && b.Seen? then Bucket(if a.status == UP then Gap(a.at, b.at) else 0, Gap(a.at, b.at)) else EMPTY
  }

  ghost function Held(marks: seq<Mark>): Bucket {
    if |marks| < 2 then EMPTY
    else Held(marks[..|marks| - 1]).Plus(Between(marks[|marks| - 2], marks[|marks| - 1]))
  }

  ghost function LastMark(marks: seq<Mark>): Mark {
    if marks == [] then Gone else marks[|marks| - 1]
  }

  /** The baseline row of a unit is its latest sample, unless it was pruned since. */
  lemma {:induction false} BaselineIsLastMark(steps: seq<Step>, key: Key)
    ensures var m, states := LastMark(Timeline(steps, key)), Run(steps).states;
      && (key in states <==> m.Seen?)
      && (m.Seen? ==> states[key].updatedAt == m.at && states[key].status == m.status)
  {
    hide AllApplied, Credits, Events, Refreshed, LastSample;
    if steps != [] {
      var init, last := steps[..|steps| - 1], steps[|steps| - 1];
      BaselineIsLastMark(init, key);
      match last {
        case Batch(source, units, now) =>
          RefreshedAt(Run(init).states, source, units, now, key);
        case Prune(source, names) =>
      }
    }
  }

  // ---------------------------------------------------------------------
  // Buckets as folds of the core accumulator
  // ---------------------------------------------------------------------

  ghost function RunCredits(steps: seq<Step>): seq<Credit> {
    if steps == [] then []
    else
      var init, last := steps[..|steps| - 1], steps[|steps| - 1];
      RunCredits(init) + (if last.Batch?
        then Credits(Baseline(Run(init).states, last.source), last.source, last.units, last.now) else [])
  }

  ghost function SlotFold(credits: seq<Credit>, slot: Slot): Bucket {
    if credits == [] then EMPTY
    else
      var before, c := SlotFold(credits[..|credits| - 1], slot), credits[|credits| - 1];
      if c.slot == slot then Accumulate(before, c.status, c.sec) else before
  }

  lemma {:induction false} AllAppliedAppend(buckets: map<Slot, Bucket>, a: seq<Credit>, b: seq<Credit>)
    ensures AllApplied(buckets, a + b) == AllApplied(AllApplied(buckets, a), b)
  {
    if b == [] {
      assert a + b == a;
    } else {
      assert (a + b)[..|a + b| - 1] == a + b[..|b| - 1];
      AllAppliedAppend(buckets, a, b[..|b| - 1]);
    }
  }

  lemma {:induction false} RunBuckets(steps: seq<Step>)
    ensures Run(steps).buckets == AllApplied(map[], RunCredits(steps))
  {
    hide Credits, Events, Refreshed;
    if steps != [] {
      var init, last := steps[..|steps| - 1], steps[|steps| - 1];
      RunBuckets(init);
      if last.Batch? {
        AllAppliedAppend(map[], RunCredits(init),
          Credits(Baseline(Run(init).states, last.source), last.source, last.units, last.now));
      } else {
        assert RunCredits(init) + [] == RunCredits(init);
      }
    }
  }

  lemma {:induction false} AppliedAt(credits: seq<Credit>, slot: Slot)
    ensures var b := AllApplied(map[], credits);
      if slot in b then b[slot] == SlotFold(credits, slot) else SlotFold(credits, slot) == EMPTY
  {
    hide Accumulate;
    if credits != [] {
      AppliedAt(credits[..|credits| - 1], slot);
    }
  }

  /** Every bucket is the core accumulator folded over the credits of its hour. */
  lemma BucketIsFold(steps: seq<Step>, slot: Slot)
    ensures var b := Run(steps).buckets;
      if slot in b then b[slot] == SlotFold(RunCredits(steps), slot) else SlotFold(RunCredits(steps), slot) == EMPTY
    ensures slot in Run(steps).buckets ==> 0 <= Run(steps).buckets[slot].upSec <= Run(steps).buckets[slot].totalSec
  {
    RunBuckets(steps);
    AppliedAt(RunCredits(steps), slot);
    FoldOrdered(RunCredits(steps), slot);
  }

  lemma {:induction false} FoldOrdered(credits: seq<Credit>, slot: Slot)
    ensures 0 <= SlotFold(credits, slot).upSec <= SlotFold(credits, slot).totalSec
  {
    if credits != [] {
      FoldOrdered(credits[..|credits| - 1], slot);
    }
  }

  // ---------------------------------------------------------------------
  // Conservation: all buckets of a unit together
  // ---------------------------------------------------------------------

  ghost function KeyFold(credits: seq<Credit>, key: Key): Bucket {
    if credits == [] then EMPTY
    else
      var before, c := KeyFold(credits[..|credits| - 1], key), credits[|credits| - 1];
      if c.slot.key == key then Accumulate(before, c.status, c.sec) else before
  }

  ghost function Sum(slots: set<Slot>, buckets: map<Slot, Bucket>): Bucket
    requires slots <= buckets.Keys
  {
    if slots == {} then EMPTY
    else
      var s :| s in slots;
      buckets[s].Plus(Sum(slots - {s}, buckets))
  }

  ghost function SlotsOf(buckets: map<Slot, Bucket>, key: Key): set<Slot> {
    set s | s in buckets && s.key == key
  }

  /** The total over all hour buckets of a unit. */
  ghost function UnitTotal(buckets: map<Slot, Bucket>, key: Key): Bucket {
    Sum(SlotsOf(buckets, key), buckets)
  }

  lemma {:induction false} SumRemove(slots: set<Slot>, buckets: map<Slot, Bucket>, s: Slot)
    requires slots <= buckets.Keys && s in slots
    ensures Sum(slots, buckets) == buckets[s].Plus(Sum(slots - {s}, buckets))
    decreases slots
  {
    var t :| t in slots && Sum(slots, buckets) == buckets[t].Plus(Sum(slots - {t}, buckets));
    if t != s {
      SumRemove(slots - {t}, buckets, s);
      SumRemove(slots - {s}, buckets, t);
      assert slots - {t} - {s} == slots - {s} - {t};
      PlusSwaps(buckets[t], buckets[s], Sum(slots - {s} - {t}, buckets));
    }
  }

  lemma PlusSwaps(a: Bucket, b: Bucket, c: Bucket)
    ensures a.Plus(b.Plus(c)) == b.Plus(a.Plus(c))
  {
  }

  lemma PlusEmpty(a: Bucket)
    ensures a.Plus(EMPTY) == a == EMPTY.Plus(a)
  {
  }

  lemma PlusAccumulates(a: Bucket, b: Bucket, status: Health, sec: int)
    ensures a.Plus(Accumulate(b, status, sec)) == Accumulate(a.Plus(b), status, sec)
  {
  }

  lemma {:induction false} SumSame(slots: set<Slot>, a: map<Slot, Bucket>, b: map<Slot, Bucket>)
    requires slots <= a.Keys && slots <= b.Keys
    requires forall s :: s in slots ==> a[s] == b[s]
    ensures Sum(slots, a) == Sum(slots, b)
    decreases slots
  {
    if slots != {} {
      var s :| s in slots;
      SumRemove(slots, a, s);
      SumRemove(slots, b, s);
      SumSame(slots - {s}, a, b);
    }
  }

  lemma UnitTotalApplied(buckets: map<Slot, Bucket>, c: Credit, key: Key)
    ensures UnitTotal(Applied(buckets, c), key) ==
      if c.slot.key == key then Accumulate(UnitTotal(buckets, key), c.status, c.sec) else UnitTotal(buckets, key)
  {
    hide Sum;
    var after := Applied(buckets, c);
    var slots, more := SlotsOf(buckets, key), SlotsOf(after, key);
    if c.slot.key == key {
      assert more == slots + {c.slot};
      SumRemove(more, after, c.slot);
      assert more - {c.slot} == slots - {c.slot};
      SumSame(slots - {c.slot}, after, buckets);
      if c.slot in slots {
        SumRemove(slots, buckets, c.slot);
      } else {
        assert slots - {c.slot} == slots;
        PlusEmpty(Sum(slots, buckets));
      }
    } else {
      assert more == slots;
      SumSame(slots, after, buckets);
    }
  }

  lemma {:induction false} UnitTotalFold(credits: seq<Credit>, key: Key)
    ensures UnitTotal(AllApplied(map[], credits), key) == KeyFold(credits, key)
  {
    hide UnitTotal, Accumulate, Applied;
    if credits == [] {
      NothingYet(key);
    } else {
      UnitTotalFold(credits[..|credits| - 1], key);
      UnitTotalApplied(AllApplied(map[], credits[..|credits| - 1]), credits[|credits| - 1], key);
    }
  }

  lemma NothingYet(key: Key)
    ensures UnitTotal(map[], key) == EMPTY
  {
    assert SlotsOf(map[], key) == {};
  }

  lemma {:induction false} KeyFoldAppend(a: seq<Credit>, b: seq<Credit>, key: Key)
    ensures KeyFold(a + b, key) == KeyFold(a, key).Plus(KeyFold(b, key))
  {
    hide Accumulate, Bucket.Plus;
    if b == [] {
      assert a + b == a;
      PlusEmpty(KeyFold(a, key));
    } else {
      var init, last := b[..|b| - 1], b[|b| - 1];
      assert (a + b)[..|a + b| - 1] == a + init && (a + b)[|a + b| - 1] == last;
      KeyFoldAppend(a, init, key);
      PlusAccumulates(KeyFold(a, key), KeyFold(init, key), last.status, last.sec);
    }
  }

  lemma {:induction false} NoBatchCredit(prev: map<string, Row>, source: string, units: seq<UnitSample>, now: int,
    key: Key)
    requires key.source == source ==> forall u :: u in units ==> u.entity != key.entity
    ensures KeyFold(Credits(prev, source, units, now), key) == EMPTY
  {
    hide Gap, HourOf, Accumulate, Bucket.Plus;
    if units != [] {
      var init, u := units[..|units| - 1], units[|units| - 1];
      assert units == init + [u];
      assert u in units;
      NoBatchCredit(prev, source, init, now, key);
      var c := CreditOf(prev, source, u, now);
      KeyFoldAppend(Credits(prev, source, init, now), c, key);
      KeyFoldOne(c, key);
      assert c != [] ==> c[0].slot.key != key;
      PlusEmpty(EMPTY);
    }
  }

  lemma KeyFoldOne(c: seq<Credit>, key: Key)
    requires |c| <= 1
    ensures KeyFold(c, key) ==
      if c != [] && c[0].slot.key == key then Accumulate(EMPTY, c[0].status, c[0].sec) else EMPTY
  {
    if c != [] {
      assert c[..0] == [];
    }
  }

  /** With distinct entities, a batch credits a unit once, for its own gap. */
  lemma {:induction false} BatchCredit(prev: map<string, Row>, source: string, units: seq<UnitSample>, now: int,
    key: Key)
    requires DistinctEntities(units)
    ensures KeyFold(Credits(prev, source, units, now), key) ==
      if key.source == source && LastSample(units, key.entity).Some? && key.entity in prev
      then Accumulate(EMPTY, prev[key.entity].status, Gap(prev[key.entity].updatedAt, now)) else EMPTY
  {
    hide Gap, HourOf, Accumulate, Bucket.Plus;
    if units != [] {
      var init, u := units[..|units| - 1], units[|units| - 1];
      assert units == init + [u];
      var c := CreditOf(prev, source, u, now);
      KeyFoldAppend(Credits(prev, source, init, now), c, key);
      KeyFoldOne(c, key);
      PlusEmpty(KeyFold(Credits(prev, source, init, now), key));
      PlusEmpty(KeyFold(c, key));
      if key == Key(source, u.entity) {
        NoBatchCredit(prev, source, init, now, key);
        if u.entity in prev {
          if Gap(prev[u.entity].updatedAt, now) <= 0 {
            ZeroGap(prev[u.entity].status, Gap(prev[u.entity].updatedAt, now));
          }
        }
      } else {
        BatchCredit(prev, source, init, now, key);
        assert c != [] ==> c[0].slot.key != key;
      }
    }
  }

  lemma ZeroGap(status: Health, sec: int)
    requires sec <= 0
    ensures Accumulate(EMPTY, status, sec) == EMPTY
  {
  }

  lemma GapNonNegative(since: int, now: int)
    ensures 0 <= Gap(since, now) <= MAX_INTERVAL_SEC
    ensures Gap(since, now) > 0 ==> Gap(since, now) * 1000 <= now - since
  {
  }

  lemma {:induction false} CreditsAreGaps(steps: seq<Step>, key: Key)
    requires DistinctRun(steps)
    ensures KeyFold(RunCredits(steps), key) == Held(Timeline(steps, key))
  {
    hide Gap, Credits, Accumulate, LastSample, Refreshed, Events, AllApplied, Held, Bucket.Plus;
    if steps == [] {
      assert Held([]) == EMPTY by { NothingHeld(); }
    } else {
      var init, last := steps[..|steps| - 1], steps[|steps| - 1];
      CreditsAreGaps(init, key);
      BaselineIsLastMark(init, key);
      var marks, more := Timeline(init, key), MarksOf(last, key);
      HeldAppend(marks, more);
      PlusEmpty(Held(marks));
      if last.Batch? {
        var prev := Baseline(Run(init).states, last.source);
        KeyFoldAppend(RunCredits(init), Credits(prev, last.source, last.units, last.now), key);
        BatchCredit(prev, last.source, last.units, last.now, key);
        BaselineAt(Run(init).states, Key(last.source, key.entity));
        if LastMark(marks).Seen? && more != [] {
          BetweenIs(LastMark(marks), more[0]);
        }
      } else {
        assert RunCredits(init) + [] == RunCredits(init);
      }
    }
  }

  lemma BetweenIs(a: Mark, b: Mark)
    requires a.Seen? && b.Seen?
    ensures Between(a, b) == Accumulate(EMPTY, a.status, Gap(a.at, b.at))
  {
    GapNonNegative(a.at, b.at);
  }

  lemma NothingHeld()
    ensures Held([]) == EMPTY
  {
  }

  lemma HeldAppend(marks: seq<Mark>, more: seq<Mark>)
    requires |more| <= 1
    ensures Held(marks + more) ==
      if more == [] then Held(marks) else Held(marks).Plus(Between(LastMark(marks), more[0]))
  {
    hide Gap, Accumulate, Bucket.Plus;
    var all := marks + more;
    if more == [] {
      assert all == marks;
    } else {
      assert all[..|all| - 1] == marks && all[|all| - 1] == more[0];
      if marks == [] {
        PlusEmpty(EMPTY);
      } else {
        assert all[|all| - 2] == LastMark(marks);
      }
    }
  }

  /** The buckets of a unit together hold exactly the clamped gaps between its
      consecutive samples, as up time where the earlier sample was up. */
  lemma UptimeConserved(steps: seq<Step>, key: Key)
    requires DistinctRun(steps)
    ensures UnitTotal(Run(steps).buckets, key) == Held(Timeline(steps, key))
  {
    RunBuckets(steps);
    UnitTotalFold(RunCredits(steps), key);
    CreditsAreGaps(steps, key);
  }

  // ---------------------------------------------------------------------
  // Bounds, with a clock that does not run backwards
  // ---------------------------------------------------------------------

  ghost predicate Forward(marks: seq<Mark>) {
    forall i, j :: 0 <= i < j < |marks| && marks[i].Seen? && marks[j].Seen? ==> marks[i].at <= marks[j].at
  }

  /** A unit is never credited more time than has passed since its first sample. */
  lemma {:induction false} HeldWithinElapsed(marks: seq<Mark>, first: int, last: int)
    requires Forward(marks) && first <= last
    requires forall i :: 0 <= i < |marks| && marks[i].Seen? ==> first <= marks[i].at <= last
    ensures Held(marks).totalSec * 1000 <= last - first
    ensures 0 <= Held(marks).upSec <= Held(marks).totalSec
  {
    hide Gap;
    if |marks| >= 2 {
      var init, a, b := marks[..|marks| - 1], marks[|marks| - 2], marks[|marks| - 1];
      if a.Seen? && b.Seen? {
        assert forall i :: 0 <= i < |init| && init[i].Seen? ==> marks[i].at <= a.at;
        HeldWithinElapsed(init, first, a.at);
        GapNonNegative(a.at, b.at);
      } else {
        HeldWithinElapsed(init, first, last);
      }
    }
  }

  ghost predicate ForwardRun(steps: seq<Step>) {
    forall i, j :: 0 <= i < j < |steps| && steps[i].Batch? && steps[j].Batch? ==> steps[i].now <= steps[j].now
  }

  /** Marks carry the times of the batches, in their order. */
  lemma {:induction false} TimelineForward(steps: seq<Step>, key: Key, first: int, last: int)
    requires ForwardRun(steps)
    requires forall i :: 0 <= i < |steps| && steps[i].Batch? ==> first <= steps[i].now <= last
    ensures var marks := Timeline(steps, key);
      Forward(marks) && forall i :: 0 <= i < |marks| && marks[i].Seen? ==> first <= marks[i].at <= last
  {
    if steps != [] {
      var init, step := steps[..|steps| - 1], steps[|steps| - 1];
      var end := if step.Batch? then step.now else last;
      assert forall i :: 0 <= i < |init| ==> init[i] == steps[i];
      TimelineForward(init, key, first, end);
      assert |MarksOf(step, key)| <= 1;
    }
  }

  /** Over any run with a clock that does not run backwards the buckets of a unit
      together never hold more time than has passed. */
  lemma NeverMoreThanElapsed(steps: seq<Step>, key: Key, first: int, last: int)
    requires DistinctRun(steps) && ForwardRun(steps) && first <= last
    requires forall i :: 0 <= i < |steps| && steps[i].Batch? ==> first <= steps[i].now <= last
    ensures UnitTotal(Run(steps).buckets, key).totalSec * 1000 <= last - first
  {
    hide UnitTotal, Run, Timeline, Held, DistinctRun, ForwardRun, Forward;
    UptimeConserved(steps, key);
    TimelineForward(steps, key, first, last);
    HeldWithinElapsed(Timeline(steps, key), first, last);
  }

  /** What one batch does to one bucket. */
  lemma {:induction false} BatchBucket(buckets: map<Slot, Bucket>, prev: map<string, Row>, source: string,
    units: seq<UnitSample>, now: int, slot: Slot)
    requires DistinctEntities(units)
    ensures
      var after := AllApplied(buckets, Credits(prev, source, units, now));
      var e := slot.key.entity;
      if slot.key.source == source && LastSample(units, e).Some? && e in prev
         && Gap(prev[e].updatedAt, now) > 0 && slot.hour == HourOf(prev[e].updatedAt)
      then slot in after && after[slot] == Accumulate(if slot in buckets then buckets[slot] else EMPTY,
        prev[e].status, Gap(prev[e].updatedAt, now))
      else (slot in after <==> slot in buckets) && (slot in after ==> after[slot] == buckets[slot])
  {
    hide Gap, HourOf, Accumulate, AllApplied, Credits;
    if units == [] {
      NoCredits(buckets, prev, source, now);
    } else {
      var init, u := units[..|units| - 1], units[|units| - 1];
      assert units == init + [u];
      CreditStep(buckets, prev, source, units, |init|, now);
      assert units[..|init| + 1] == units;
      BatchBucket(buckets, prev, source, init, now, slot);
      if slot.key.entity == u.entity {
        NotSampled(init, u.entity);
      }
    }
  }

  lemma NoCredits(buckets: map<Slot, Bucket>, prev: map<string, Row>, source: string, now: int)
    ensures AllApplied(buckets, Credits(prev, source, [], now)) == buckets
  {
  }

  lemma {:induction false} NotSampled(units: seq<UnitSample>, entity: string)
    requires forall u :: u in units ==> u.entity != entity
    ensures LastSample(units, entity) == None
  {
    if units != [] {
      NotSampled(units[..|units| - 1], entity);
    }
  }

  const MOST := 7199

  /** Credited time in an hour lies between its start and the unit's last sample. */
  ghost predicate HourBound(db: Db, clock: int, slot: Slot) {
    && (slot.key in db.states ==> db.states[slot.key].updatedAt <= clock)
    && (slot in db.buckets ==>
      var total := db.buckets[slot].totalSec;
      && 0 <= total <= MOST
      && slot.hour + total * 1000 <= if slot.key in db.states then db.states[slot.key].updatedAt else clock)
  }

  lemma HourOfBound(t: int)
    ensures HourOf(t) <= t < HourOf(t) + MS_PER_HOUR
  {
  }

  lemma BatchHourBound(db: Db, clock: int, source: string, units: seq<UnitSample>, now: int, slot: Slot)
    requires HourBound(db, clock, slot) && clock <= now && DistinctEntities(units)
    ensures HourBound(AfterBatch(db, source, units, now), now, slot)
  {
    hide Gap, HourOf, LastSample, Refreshed, AllApplied, Credits, Events;
    var prev := Baseline(db.states, source);
    var e := slot.key.entity;
    RefreshedAt(db.states, source, units, now, slot.key);
    BatchBucket(db.buckets, prev, source, units, now, slot);
    assert slot.key == Key(slot.key.source, e);
    if slot.key.source == source && e in prev {
      var since := prev[e].updatedAt;
      GapNonNegative(since, now);
      HourOfBound(since);
    }
  }

  /** The time of the last batch, from `start` on. */
  ghost function Clock(steps: seq<Step>, start: int): int {
    if steps == [] then start
    else if steps[|steps| - 1].Batch? then steps[|steps| - 1].now
    else Clock(steps[..|steps| - 1], start)
  }

  lemma {:induction false} ClockBelow(steps: seq<Step>, start: int, t: int)
    requires start <= t && forall i :: 0 <= i < |steps| && steps[i].Batch? ==> steps[i].now <= t
    ensures Clock(steps, start) <= t
  {
    if steps != [] {
      assert steps[|steps| - 1].Batch? ==> steps[|steps| - 1].now <= t;
      ClockBelow(steps[..|steps| - 1], start, t);
    }
  }

  lemma {:induction false} RunHourBound(steps: seq<Step>, start: int, slot: Slot)
    requires DistinctRun(steps) && ForwardRun(steps)
    requires forall i :: 0 <= i < |steps| && steps[i].Batch? ==> start <= steps[i].now
    ensures HourBound(Run(steps), Clock(steps, start), slot)
  {
    hide AfterBatch;
    if steps != [] {
      var init, last := steps[..|steps| - 1], steps[|steps| - 1];
      RunHourBound(init, start, slot);
      if last.Batch? {
        forall i | 0 <= i < |init| && init[i].Batch?
          ensures init[i].now <= last.now
        {
          assert steps[i] == init[i];
        }
        ClockBelow(init, start, last.now);
        BatchHourBound(Run(init), Clock(init, start), last.source, last.units, last.now, slot);
      }
    }
  }

  /** No hour bucket ever exceeds one hour less a second plus the cap on one gap. */
  lemma HourNeverOver(steps: seq<Step>, slot: Slot)
    requires DistinctRun(steps) && ForwardRun(steps) && slot in Run(steps).buckets
    ensures Run(steps).buckets[slot].totalSec <= MOST
  {
    var start := EarliestBatch(steps);
    RunHourBound(steps, start, slot);
  }

  lemma {:induction false} EarliestBatch(steps: seq<Step>) returns (t: int)
    ensures forall i :: 0 <= i < |steps| && steps[i].Batch? ==> t <= steps[i].now
  {
    t := 0;
    if steps != [] {
      t := EarliestBatch(steps[..|steps| - 1]);
      var last := steps[|steps| - 1];
      if last.Batch? && last.now < t {
        t := last.now;
      }
    }
  }

  /** The bound is reached: three samples fill the first hour with 7199 seconds. */
  lemma HourCanSpill()
    ensures exists steps, slot ::
      && DistinctRun(steps) && ForwardRun(steps)
      && slot in Run(steps).buckets && Run(steps).buckets[slot].totalSec == MOST
  {
    hide AfterBatch, Gap, HourOf;
    var u := UnitSample("svc", UP, None);
    var slot := Slot(Key("agent", "svc"), 0);
    var a, b, c := Batch("agent", [u], 0), Batch("agent", [u], 3_599_000), Batch("agent", [u], 7_199_000);
    var steps := [a, b, c];
    assert steps[..2] == [a, b] && [a, b][..1] == [a] && [a][..0] == [];
    var zero, one, two := Run([]), Run([a]), Run([a, b]);
    NextSample(zero, "agent", u, 0, slot);
    SpillGaps();
    NextSample(one, "agent", u, 3_599_000, slot);
    NextSample(two, "agent", u, 7_199_000, slot);
    assert Run(steps).buckets[slot].totalSec == MOST;
  }

  lemma SpillGaps()
    ensures Gap(0, 3_599_000) == 3599 && Gap(3_599_000, 7_199_000) == 3600
    ensures HourOf(0) == 0 && HourOf(3_599_000) == 0
  {
  }

  lemma FirstSample(source: string, u: UnitSample)
    ensures LastSample([u], u.entity) == Some(u) && DistinctEntities([u])
  {
  }

  lemma NextSample(db: Db, source: string, u: UnitSample, now: int, slot: Slot)
    requires slot.key == Key(source, u.entity)
    ensures var after := AfterBatch(db, source, [u], now);
      && slot.key in after.states && after.states[slot.key] == Row(u.status, u.pid, now)
      && (slot.key !in db.states && slot !in db.buckets ==> slot !in after.buckets)
      && (slot.key in db.states ==>
        var gap := Gap(db.states[slot.key].updatedAt, now);
        gap > 0 && slot.hour == HourOf(db.states[slot.key].updatedAt) ==>
        && slot in after.buckets
        && after.buckets[slot].totalSec == (if slot in db.buckets then db.buckets[slot].totalSec else 0) + gap)
  {
    hide Gap, HourOf, AllApplied, Credits, Events, Refreshed;
    FirstSample(source, u);
    RefreshedAt(db.states, source, [u], now, slot.key);
    BatchBucket(db.buckets, Baseline(db.states, source), source, [u], now, slot);
    assert slot.key == Key(slot.key.source, slot.key.entity);
  }
}
