/** Durable events derived from two successive snapshots of monitored units, and the
    uptime counters they feed. */
module Diff {
  import opened Shared

  datatype Health = UP | DEGRADED | HANG | DOWN | UNKNOWN

  datatype UnitSample = UnitSample(entity: string, status: Health, pid: Option<int>)

  datatype Event =
    | StatusChange(entity: string, oldStatus: Option<Health>, newStatus: Health)
    | ServiceRestart(entity: string, oldPid: int, newPid: int)

  type Snapshot = map<string, UnitSample>

  /** The events of one sample: a status change comes before a restart. */
  function EventsOf(prev: Snapshot, s: UnitSample): seq<Event> {
    var was := if s.entity in prev then Some(prev[s.entity]) else None;
    (if was.None? then [StatusChange(s.entity, None, s.status)]
     else if was.value.status != s.status then [StatusChange(s.entity, Some(was.value.status), s.status)]
     else [])
    + (if was.Some? && was.value.pid.Some? && s.pid.Some?
          && was.value.pid.value > 0 && s.pid.value > 0 && was.value.pid.value != s.pid.value
       then [ServiceRestart(s.entity, was.value.pid.value, s.pid.value)] else [])
  }

  function Events(prev: Snapshot, current: seq<UnitSample>): seq<Event> {
    if current == [] then []
    else Events(prev, current[..|current| - 1]) + EventsOf(prev, current[|current| - 1])
  }

  method DiffStates(prev: Snapshot, current: seq<UnitSample>) returns (events: seq<Event>)
    ensures events == Events(prev, current)
  {
    events := [];
    for i := 0 to |current|
      invariant events == Events(prev, current[..i])
    {
      var sample := current[i];
      assert current[..i + 1][..i] == current[..i];
      ghost var before := events;
      var isNew := sample.entity !in prev;
      if isNew || prev[sample.entity].status != sample.status {
        events := events + [StatusChange(sample.entity,
          if isNew then None else Some(prev[sample.entity].status), sample.status)];
      }
      var oldPid := if isNew then None else prev[sample.entity].pid;
      if oldPid.Some? && oldPid.value > 0 && sample.pid.Some? && sample.pid.value > 0
         && oldPid.value != sample.pid.value {
        events := events + [ServiceRestart(sample.entity, oldPid.value, sample.pid.value)];
      }
      assert events == before + EventsOf(prev, sample);
    }
    assert current[..|current|] == current;
  }

  // ---------------------------------------------------------------------
  // Which events there are
  // ---------------------------------------------------------------------

  /** A sample makes at most one event of each kind, a status change before a restart. */
  lemma OneSample(prev: Snapshot, s: UnitSample)
    ensures Events(prev, [s]) == EventsOf(prev, s) && |EventsOf(prev, s)| <= 2
    ensures |EventsOf(prev, s)| == 2 ==> EventsOf(prev, s)[0].StatusChange? && EventsOf(prev, s)[1].ServiceRestart?
  {
    assert [s][..0] == [];
  }

  /** The samples of a batch are compared independently of each other. */
  lemma {:induction false} EventsJoin(prev: Snapshot, a: seq<UnitSample>, b: seq<UnitSample>)
    ensures Events(prev, a + b) == Events(prev, a) + Events(prev, b)
  {
    hide EventsOf;
    if b == [] {
      assert a + b == a;
    } else {
      assert (a + b)[..|a + b| - 1] == a + b[..|b| - 1];
      EventsJoin(prev, a, b[..|b| - 1]);
    }
  }

  /** The status changes of a batch: a unit seen for the first time, or one whose status
      is no longer what the snapshot says. */
  lemma {:induction false} ChangesExactly(prev: Snapshot, current: seq<UnitSample>, entity: string,
                                          was: Option<Health>, status: Health)
    ensures StatusChange(entity, was, status) in Events(prev, current) <==>
      exists s ::
        && s in current && s.entity == entity && s.status == status
        && (if entity in prev then was == Some(prev[entity].status) && prev[entity].status != status else was == None)
  {
    if current != [] {
      ChangesExactly(prev, current[..|current| - 1], entity, was, status);
      assert current == current[..|current| - 1] + [current[|current| - 1]];
    }
  }

  /** The restarts of a batch: both process ids are known and positive, and differ. */
  lemma {:induction false} RestartsExactly(prev: Snapshot, current: seq<UnitSample>, entity: string, a: int, b: int)
    ensures ServiceRestart(entity, a, b) in Events(prev, current) <==>
      && entity in prev && prev[entity].pid == Some(a) && 0 < a && 0 < b && a != b
      && exists s :: s in current && s.entity == entity && s.pid == Some(b)
  {
    if current != [] {
      RestartsExactly(prev, current[..|current| - 1], entity, a, b);
      assert current == current[..|current| - 1] + [current[|current| - 1]];
    }
  }

  /** Seconds an entity was seen in a window, and seconds it was up. */
  datatype Bucket = Bucket(upSec: int, totalSec: int) {
    function Plus(b: Bucket): Bucket {
      Bucket(upSec + b.upSec, totalSec + b.totalSec)
    }
  }

  const EMPTY := Bucket(0, 0)

  function Accumulate(b: Bucket, status: Health, deltaSec: int): Bucket {
    var delta := if deltaSec > 0 then deltaSec else 0;
    Bucket(b.upSec + (if status == UP then delta else 0), b.totalSec + delta)
  }

  /** Time counts as up time only for a unit that was up; negative time not at all. */
  lemma AccumulateExactly(b: Bucket, status: Health, deltaSec: nat)
    ensures Accumulate(b, UP, deltaSec) == Bucket(b.upSec + deltaSec, b.totalSec + deltaSec)
    ensures status != UP ==> Accumulate(b, status, deltaSec) == Bucket(b.upSec, b.totalSec + deltaSec)
    ensures Accumulate(b, status, -(deltaSec as int)) == b
  {
  }
}
