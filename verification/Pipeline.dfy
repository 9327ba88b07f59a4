/** The ingest pipeline: a batch of unit samples of one source becomes durable
    events, uptime seconds and a refreshed baseline. */
module Pipeline {
  import opened Diff
  import opened Shared

  const MAX_INTERVAL_SEC := 3600
  const MS_PER_HOUR := 3_600_000

  datatype Key = Key(source: string, entity: string)

  /** The baseline of one unit; `updatedAt` in milliseconds. */
  datatype Row = Row(status: Health, pid: Option<int>, updatedAt: int)

  datatype Logged = Logged(source: string, event: Event)

  /** A bucket is identified by its unit and the start of its hour. */
  datatype Slot = Slot(key: Key, hour: int)

  datatype Db = Db(states: map<Key, Row>, events: seq<Logged>, buckets: map<Slot, Bucket>)

  function HourOf(t: int): int {
    t - t % MS_PER_HOUR
  }

  /** Whole seconds between two instants, within 0 and the cap. */
  function Gap(since: int, now: int): int {
    var s := (now - since) / 1000;
    if s < 0 then 0 else if s > MAX_INTERVAL_SEC then MAX_INTERVAL_SEC else s
  }

  /** Between 0 and an hour, the whole seconds that have passed. */
  lemma GapExactly(since: int, now: int)
    ensures 0 <= Gap(since, now) <= 3600
    ensures now <= since ==> Gap(since, now) == 0
    ensures since <= now && Gap(since, now) < 3600 ==>
      1000 * Gap(since, now) <= now - since < 1000 * Gap(since, now) + 1000
    ensures Gap(since, now) == 3600 ==> now - since >= 3_600_000
  {
  }

  /** The start of the hour an instant lies in. */
  lemma HourExactly(t: int)
    ensures HourOf(t) <= t < HourOf(t) + 3_600_000 && HourOf(t) % 3_600_000 == 0
  {
  }

  // ---------------------------------------------------------------------
  // Specification of one batch
  // ---------------------------------------------------------------------

  function Baseline(states: map<Key, Row>, source: string): map<string, Row> {
    map k | k in states && k.source == source :: k.entity := states[k]
  }

  function Core(prev: map<string, Row>): Snapshot {
    map e | e in prev :: UnitSample(e, prev[e].status, prev[e].pid)
  }

  function LogAll(source: string, events: seq<Event>): (r: seq<Logged>)
    ensures |r| == |events|
    ensures forall i :: 0 <= i < |events| ==> r[i] == Logged(source, events[i])
  {
    seq(|events|, i requires 0 <= i < |events| => Logged(source, events[i]))
  }

  /** The credit one sample gives: the time since the previous sample, to the status
      held meanwhile, in the hour it began. */
  datatype Credit = Credit(slot: Slot, status: Health, sec: int)

  ghost function CreditOf(prev: map<string, Row>, source: string, u: UnitSample, now: int): seq<Credit> {
    if u.entity in prev && Gap(prev[u.entity].updatedAt, now) > 0 then
      [Credit(Slot(Key(source, u.entity), HourOf(prev[u.entity].updatedAt)), prev[u.entity].status,
        Gap(prev[u.entity].updatedAt, now))]
    else []
  }

  ghost function Credits(prev: map<string, Row>, source: string, units: seq<UnitSample>, now: int): seq<Credit> {
    if units == [] then []
    else Credits(prev, source, units[..|units| - 1], now) + CreditOf(prev, source, units[|units| - 1], now)
  }

  function Applied(buckets: map<Slot, Bucket>, c: Credit): map<Slot, Bucket> {
    buckets[c.slot := Accumulate(if c.slot in buckets then buckets[c.slot] else EMPTY, c.status, c.sec)]
  }

  ghost function AllApplied(buckets: map<Slot, Bucket>, credits: seq<Credit>): map<Slot, Bucket> {
    if credits == [] then buckets
    else Applied(AllApplied(buckets, credits[..|credits| - 1]), credits[|credits| - 1])
  }

  ghost function Refreshed(states: map<Key, Row>, source: string, units: seq<UnitSample>, now: int): map<Key, Row> {
    if units == [] then states
    else
      var u := units[|units| - 1];
      Refreshed(states, source, units[..|units| - 1], now)[Key(source, u.entity) := Row(u.status, u.pid, now)]
  }

  ghost function AfterBatch(db: Db, source: string, units: seq<UnitSample>, now: int): Db {
    var prev := Baseline(db.states, source);
    Db(Refreshed(db.states, source, units, now),
       db.events + LogAll(source, Events(Core(prev), units)),
       AllApplied(db.buckets, Credits(prev, source, units, now)))
  }

  // ---------------------------------------------------------------------
  // The pipeline
  // ---------------------------------------------------------------------

  class TelemetryDb {
    var unitStates: map<Key, Row>
    var statusEvents: seq<Logged>
    var uptimeBuckets: map<Slot, Bucket>

    ghost function Value(): Db
      reads this
    {
      Db(unitStates, statusEvents, uptimeBuckets)
    }

    constructor ()
      ensures Value() == Db(map[], [], map[])
    {
      unitStates, statusEvents, uptimeBuckets := map[], [], map[];
    }

    method ProcessUnits(source: string, units: seq<UnitSample>, now: int)
      modifies this
      ensures Value() == AfterBatch(old(Value()), source, units, now)
      ensures forall i :: 0 <= i < |units| && (forall j :: i < j < |units| ==> units[j].entity != units[i].entity) ==>
        && Key(source, units[i].entity) in unitStates
        && unitStates[Key(source, units[i].entity)] == Row(units[i].status, units[i].pid, now)
      ensures forall k :: k in unitStates && (k.source != source || forall u :: u in units ==> u.entity != k.entity) ==>
        k in old(unitStates) && unitStates[k] == old(unitStates)[k]
      ensures old(unitStates).Keys <= unitStates.Keys
    {
      hide AllApplied, Credits, Refreshed, Gap, HourOf, Baseline, Applied, Events;
      if |units| == 0 {
        NothingToDo(Value(), source, now);
        assert units == [];
        return;
      }
      NothingToDo(Value(), source, now);
      var prev := Baseline(unitStates, source);
      var events := DiffStates(Core(prev), units);
      statusEvents := statusEvents + LogAll(source, events);
      for i := 0 to |units|
        invariant unitStates == old(unitStates)
        invariant statusEvents == old(statusEvents) + LogAll(source, events)
        invariant uptimeBuckets == AllApplied(old(uptimeBuckets), Credits(prev, source, units[..i], now))
      {
        CreditStep(old(uptimeBuckets), prev, source, units, i, now);
        var u := units[i];
        if u.entity in prev {
          var p := prev[u.entity];
          var deltaSec := Gap(p.updatedAt, now);
          if deltaSec > 0 {
            uptimeBuckets := Applied(uptimeBuckets,
              Credit(Slot(Key(source, u.entity), HourOf(p.updatedAt)), p.status, deltaSec));
          }
        }
      }
      assert units[..|units|] == units;
      for i := 0 to |units|
        invariant unitStates == Refreshed(old(unitStates), source, units[..i], now)
        invariant statusEvents == old(statusEvents) + LogAll(source, events)
        invariant uptimeBuckets == AllApplied(old(uptimeBuckets), Credits(prev, source, units, now))
      {
        RefreshStep(old(unitStates), source, units, i, now);
        unitStates := unitStates[Key(source, units[i].entity) := Row(units[i].status, units[i].pid, now)];
      }
      RefreshedRows(old(unitStates), source, units, now);
    }

    /** Baseline rows of units that are no longer monitored are removed. */
    method PruneOrphans(source: string, names: set<string>)
      modifies this
      ensures Value() == Pruned(old(Value()), source, names)
      ensures statusEvents == old(statusEvents) && uptimeBuckets == old(uptimeBuckets)
      ensures unitStates ==
        map k | k in old(unitStates) && (names == {} || k.source != source || k.entity in names) :: old(unitStates)[k]
    {
      if names == {} {
        return;
      }
      unitStates := unitStates - Orphans(unitStates, source, names);
    }
  }

  lemma NothingToDo(db: Db, source: string, now: int)
    ensures AfterBatch(db, source, [], now) == db
    ensures AllApplied(db.buckets, Credits(Baseline(db.states, source), source, [], now)) == db.buckets
    ensures Refreshed(db.states, source, [], now) == db.states
  {
    assert db.events + LogAll(source, []) == db.events;
  }

  lemma CreditStep(buckets: map<Slot, Bucket>, prev: map<string, Row>, source: string, units: seq<UnitSample>,
    i: nat, now: int)
    requires i < |units|
    ensures
      var before := AllApplied(buckets, Credits(prev, source, units[..i], now));
      var c := CreditOf(prev, source, units[i], now);
      AllApplied(buckets, Credits(prev, source, units[..i + 1], now)) ==
      if c == [] then before else Applied(before, c[0])
  {
    hide Gap, HourOf, Applied;
    var before, c := Credits(prev, source, units[..i], now), CreditOf(prev, source, units[i], now);
    assert units[..i + 1][..i] == units[..i];
    if c == [] {
      assert before + c == before;
    } else {
      assert (before + c)[..|before|] == before;
    }
  }

  lemma RefreshStep(states: map<Key, Row>, source: string, units: seq<UnitSample>, i: nat, now: int)
    requires i < |units|
    ensures Refreshed(states, source, units[..i + 1], now) ==
      var before := Refreshed(states, source, units[..i], now);
      before[Key(source, units[i].entity) := Row(units[i].status, units[i].pid, now)]
  {
    assert units[..i + 1][..i] == units[..i];
  }

  function Orphans(states: map<Key, Row>, source: string, names: set<string>): set<Key> {
    set k | k in states && k.source == source && k.entity !in names
  }

  ghost function Pruned(db: Db, source: string, names: set<string>): Db {
    if names == {} then db else db.(states := db.states - Orphans(db.states, source, names))
  }

  // ---------------------------------------------------------------------
  // Replay: the event log against the baseline
  // ---------------------------------------------------------------------

  /** The status the event log leaves a unit in. */
  ghost function Replay(log: seq<Logged>, key: Key): Option<Health> {
    if log == [] then None
    else
      var last := log[|log| - 1];
      if last.event.StatusChange? && last.source == key.source && last.event.entity == key.entity
      then Some(last.event.newStatus)
      else Replay(log[..|log| - 1], key)
  }

  ghost predicate Replays(db: Db) {
    forall k :: k in db.states ==> Replay(db.events, k) == Some(db.states[k].status)
  }

  /** The last sample of an entity in a batch, if there is one. */
  ghost function LastSample(units: seq<UnitSample>, entity: string): Option<UnitSample> {
    if units == [] then None
    else if units[|units| - 1].entity == entity then Some(units[|units| - 1])
    else LastSample(units[..|units| - 1], entity)
  }

  /** No unit leaves its previous status and returns to it within the batch. */
  ghost predicate NoReturn(states: map<Key, Row>, source: string, units: seq<UnitSample>) {
    forall e | Key(source, e) in states && LastSample(units, e).Some?
      && LastSample(units, e).value.status == states[Key(source, e)].status ::
      forall u :: u in units && u.entity == e ==> u.status == states[Key(source, e)].status
  }

  lemma {:induction false} ReplayAppend(a: seq<Logged>, b: seq<Logged>, key: Key)
    ensures Replay(a + b, key) == if Replay(b, key).Some? then Replay(b, key) else Replay(a, key)
  {
    if b == [] {
      assert a + b == a;
    } else {
      assert (a + b)[..|a + b| - 1] == a + b[..|b| - 1];
      ReplayAppend(a, b[..|b| - 1], key);
    }
  }

  /** What the events of a batch say about one unit. */
  ghost function BatchStatus(prev: Snapshot, units: seq<UnitSample>, entity: string): Option<Health> {
    if units == [] then None
    else
      var u := units[|units| - 1];
      if u.entity == entity && (entity !in prev || prev[entity].status != u.status) then Some(u.status)
      else BatchStatus(prev, units[..|units| - 1], entity)
  }

  lemma LogAllConcat(source: string, a: seq<Event>, b: seq<Event>)
    ensures LogAll(source, a + b) == LogAll(source, a) + LogAll(source, b)
  {
  }

  lemma {:induction false} ReplayBatch(prev: Snapshot, source: string, units: seq<UnitSample>, key: Key)
    ensures Replay(LogAll(source, Events(prev, units)), key) ==
      if key.source == source then BatchStatus(prev, units, key.entity) else None
  {
    if units == [] {
      assert LogAll(source, Events(prev, units)) == [];
      assert Replay([], key) == None;
    } else {
      var init, u := units[..|units| - 1], units[|units| - 1];
      hide Replay, EventsOf, LogAll;
      ReplayBatch(prev, source, init, key);
      var a, b := LogAll(source, Events(prev, init)), LogAll(source, EventsOf(prev, u));
      LogAllConcat(source, Events(prev, init), EventsOf(prev, u));
      ReplayAppend(a, b, key);
      ReplayOne(prev, source, u, key);
    }
  }

  lemma ReplayOne(prev: Snapshot, source: string, u: UnitSample, key: Key)
    ensures Replay(LogAll(source, EventsOf(prev, u)), key) ==
      if key.source == source && u.entity == key.entity && (u.entity !in prev || prev[u.entity].status != u.status)
      then Some(u.status) else None
  {
    var b := LogAll(source, EventsOf(prev, u));
    assert |b| <= 2;
    assert Replay([], key) == None;
    if |b| == 2 {
      assert b[..1][..0] == [];
      assert Replay(b[..1], key) == if key.source == source && u.entity == key.entity then Some(u.status) else None;
    } else if |b| == 1 {
      assert b[..0] == [];
    }
  }

  lemma {:induction false} RefreshedAt(states: map<Key, Row>, source: string, units: seq<UnitSample>, now: int,
    key: Key)
    ensures var r := Refreshed(states, source, units, now);
      var last := if key.source == source then LastSample(units, key.entity) else None;
      if last.Some? then key in r && r[key] == Row(last.value.status, last.value.pid, now)
      else (key in r <==> key in states) && (key in r ==> r[key] == states[key])
  {
    if units != [] {
      RefreshedAt(states, source, units[..|units| - 1], now, key);
    }
  }

  lemma {:induction false} LastSampleAt(units: seq<UnitSample>, i: nat)
    requires i < |units| && forall j :: i < j < |units| ==> units[j].entity != units[i].entity
    ensures LastSample(units, units[i].entity) == Some(units[i])
  {
    if i < |units| - 1 {
      assert units[|units| - 1].entity != units[i].entity;
      LastSampleAt(units[..|units| - 1], i);
    }
  }

  lemma {:induction false} NoSample(units: seq<UnitSample>, entity: string)
    requires forall u :: u in units ==> u.entity != entity
    ensures LastSample(units, entity) == None
  {
    if units != [] {
      NoSample(units[..|units| - 1], entity);
    }
  }

  /** After a batch each unit's row is its last sample, and no other row has changed. */
  lemma RefreshedRows(states: map<Key, Row>, source: string, units: seq<UnitSample>, now: int)
    ensures var r := Refreshed(states, source, units, now);
      && (forall i :: 0 <= i < |units| && (forall j :: i < j < |units| ==> units[j].entity != units[i].entity) ==>
        && Key(source, units[i].entity) in r
        && r[Key(source, units[i].entity)] == Row(units[i].status, units[i].pid, now))
      && (forall k :: k in r && (k.source != source || forall u :: u in units ==> u.entity != k.entity) ==>
        k in states && r[k] == states[k])
      && states.Keys <= r.Keys
  {
    hide Refreshed, LastSample;
    var r := Refreshed(states, source, units, now);
    forall i | 0 <= i < |units| && (forall j :: i < j < |units| ==> units[j].entity != units[i].entity)
      ensures Key(source, units[i].entity) in r
      ensures r[Key(source, units[i].entity)] == Row(units[i].status, units[i].pid, now)
    {
      LastSampleAt(units, i);
      RefreshedAt(states, source, units, now, Key(source, units[i].entity));
    }
    forall k | k in r && (k.source != source || forall u :: u in units ==> u.entity != k.entity)
      ensures k in states && r[k] == states[k]
    {
      RefreshedAt(states, source, units, now, k);
      if k.source == source {
        NoSample(units, k.entity);
      }
    }
    forall k | k in states
      ensures k in r
    {
      RefreshedAt(states, source, units, now, k);
    }
  }

  /** What one batch does to one unit's agreement, given agreement before. */
  lemma {:induction false} BatchAgrees(prev: Snapshot, units: seq<UnitSample>, entity: string)
    ensures BatchStatus(prev, units, entity).Some? ==> LastSample(units, entity).Some?
    ensures LastSample(units, entity).Some? ==>
      var last := LastSample(units, entity).value;
      var after := if BatchStatus(prev, units, entity).Some? then BatchStatus(prev, units, entity)
        else if entity in prev then Some(prev[entity].status) else None;
      after == Some(last.status) <==>
      (entity in prev && last.status == prev[entity].status ==>
        forall u :: u in units && u.entity == entity ==> u.status == prev[entity].status)
    ensures entity in prev && BatchStatus(prev, units, entity).None? ==>
      forall u :: u in units && u.entity == entity ==> u.status == prev[entity].status
    ensures entity in prev && BatchStatus(prev, units, entity).Some? ==>
      BatchStatus(prev, units, entity).value != prev[entity].status &&
      exists u :: u in units && u.entity == entity && u.status != prev[entity].status
    ensures LastSample(units, entity).Some? ==>
      LastSample(units, entity).value in units && LastSample(units, entity).value.entity == entity
  {
    if units != [] {
      var init, u := units[..|units| - 1], units[|units| - 1];
      assert units == init + [u];
      BatchAgrees(prev, init, entity);
    }
  }

  /** A batch keeps the log and the baseline in agreement exactly when no unit in it
      leaves its previous status and comes back. */
  lemma BatchReplaysExactly(db: Db, source: string, units: seq<UnitSample>, now: int)
    requires Replays(db)
    ensures Replays(AfterBatch(db, source, units, now)) <==> NoReturn(db.states, source, units)
  {
    hide BatchStatus, LastSample, Events, Credits, AllApplied, Refreshed;
    var prev := Core(Baseline(db.states, source));
    var after := AfterBatch(db, source, units, now);
    forall k
      ensures k in after.states ==> (Replay(after.events, k) == Some(after.states[k].status) <==>
        (k.source == source && k in db.states && LastSample(units, k.entity).Some?
         && LastSample(units, k.entity).value.status == db.states[k].status ==>
         forall u :: u in units && u.entity == k.entity ==> u.status == db.states[k].status))
      ensures k in db.states ==> k in after.states
    {
      RefreshedAt(db.states, source, units, now, k);
      ReplayAppend(db.events, LogAll(source, Events(prev, units)), k);
      ReplayBatch(prev, source, units, k);
      BatchAgrees(prev, units, k.entity);
      BaselineAt(db.states, k);
      assert k.source == source ==> (k in db.states <==> k.entity in prev);
    }
    if Replays(after) {
      forall e | Key(source, e) in db.states && LastSample(units, e).Some?
        && LastSample(units, e).value.status == db.states[Key(source, e)].status
        ensures forall u :: u in units && u.entity == e ==> u.status == db.states[Key(source, e)].status
      {
        assert Key(source, e) in after.states;
      }
    }
    if NoReturn(db.states, source, units) {
      forall k | k in after.states
        ensures Replay(after.events, k) == Some(after.states[k].status)
      {
        assert k == Key(k.source, k.entity);
      }
    }
  }

  /** Such a batch: a unit that is up goes down and comes back. The log then says that
      it is down. */
  lemma ReturnBreaksReplay()
    ensures var key := Key("agent", "svc");
      var db := Db(map[key := Row(UP, None, 0)], [Logged("agent", StatusChange("svc", None, UP))], map[]);
      var units := [UnitSample("svc", DOWN, None), UnitSample("svc", UP, None)];
      Replays(db) && !Replays(AfterBatch(db, "agent", units, 1000))
  {
    hide AfterBatch;
    var key := Key("agent", "svc");
    var db := Db(map[key := Row(UP, None, 0)], [Logged("agent", StatusChange("svc", None, UP))], map[]);
    var down, up := UnitSample("svc", DOWN, None), UnitSample("svc", UP, None);
    var units := [down, up];
    assert LastSample(units, "svc") == Some(up);
    assert down in units && down.entity == "svc";
    assert !NoReturn(db.states, "agent", units);
    BatchReplaysExactly(db, "agent", units, 1000);
  }

  lemma BaselineAt(states: map<Key, Row>, k: Key)
    ensures var prev := Core(Baseline(states, k.source));
      && (k in states <==> k.entity in prev)
      && (k in states ==> prev[k.entity] == UnitSample(k.entity, states[k].status, states[k].pid))
  {
    assert k == Key(k.source, k.entity);
  }

  ghost predicate DistinctEntities(units: seq<UnitSample>) {
    forall i, j :: 0 <= i < j < |units| ==> units[i].entity != units[j].entity
  }

  lemma {:induction false} DistinctLast(units: seq<UnitSample>, u: UnitSample)
    requires DistinctEntities(units) && u in units
    ensures LastSample(units, u.entity) == Some(u)
  {
    var init, last := units[..|units| - 1], units[|units| - 1];
    if u != last {
      assert units == init + [last];
      assert u in init;
      DistinctLast(init, u);
    }
  }

  lemma DistinctNoReturn(states: map<Key, Row>, source: string, units: seq<UnitSample>)
    requires DistinctEntities(units)
    ensures NoReturn(states, source, units)
  {
    forall u | u in units
      ensures LastSample(units, u.entity) == Some(u)
    {
      DistinctLast(units, u);
    }
  }

  // ---------------------------------------------------------------------
  // The chain of events of each unit
  // ---------------------------------------------------------------------

  /** Every status change departs from where the log had left the unit, and changes it. */
  ghost predicate WellChained(log: seq<Logged>) {
    forall i :: 0 <= i < |log| && log[i].event.StatusChange? ==>
      var e := log[i].event;
      && e.oldStatus != Some(e.newStatus)
      && (e.oldStatus.Some? ==> Replay(log[..i], Key(log[i].source, e.entity)) == e.oldStatus)
  }

  lemma {:induction false} NoBatchStatus(prev: Snapshot, units: seq<UnitSample>, entity: string)
    requires forall u :: u in units ==> u.entity != entity
    ensures BatchStatus(prev, units, entity) == None
  {
    if units != [] {
      NoBatchStatus(prev, units[..|units| - 1], entity);
    }
  }

  lemma BaselineReplays(db: Db, k: Key)
    requires Replays(db)
    ensures var prev := Core(Baseline(db.states, k.source));
      k.entity in prev ==> Replay(db.events, k) == Some(prev[k.entity].status)
  {
    hide Replay;
    BaselineAt(db.states, k);
  }

  lemma {:induction false} BatchChained(db: Db, source: string, units: seq<UnitSample>)
    requires Replays(db) && WellChained(db.events) && DistinctEntities(units)
    ensures WellChained(db.events + LogAll(source, Events(Core(Baseline(db.states, source)), units)))
  {
    var prev := Core(Baseline(db.states, source));
    if units == [] {
      assert db.events + LogAll(source, []) == db.events;
    } else {
      hide WellChained, Replay, BatchStatus, EventsOf, Replays, Core, Baseline, LogAll;
      var init, u := units[..|units| - 1], units[|units| - 1];
      BatchChained(db, source, init);
      var a, b := LogAll(source, Events(prev, init)), LogAll(source, EventsOf(prev, u));
      LogAllConcat(source, Events(prev, init), EventsOf(prev, u));
      assert db.events + (a + b) == db.events + a + b;
      var k := Key(source, u.entity);
      ReplayAppend(db.events, a, k);
      ReplayBatch(prev, source, init, k);
      NoBatchStatus(prev, init, u.entity);
      BaselineReplays(db, k);
      ChainAppend(db.events + a, prev, source, u);
    }
  }

  lemma ChainAppend(log: seq<Logged>, prev: Snapshot, source: string, u: UnitSample)
    requires WellChained(log)
    requires u.entity in prev ==> Replay(log, Key(source, u.entity)) == Some(prev[u.entity].status)
    ensures WellChained(log + LogAll(source, EventsOf(prev, u)))
  {
    var b := LogAll(source, EventsOf(prev, u));
    var more := log + b;
    forall i | 0 <= i < |more| && more[i].event.StatusChange?
      ensures var e := more[i].event;
        && e.oldStatus != Some(e.newStatus)
        && (e.oldStatus.Some? ==> Replay(more[..i], Key(more[i].source, e.entity)) == e.oldStatus)
    {
      if i < |log| {
        assert more[..i] == log[..i] && more[i] == log[i];
      } else {
        assert i == |log|;
        assert more[..i] == log;
      }
    }
  }

  // ---------------------------------------------------------------------
  // Runs
  // ---------------------------------------------------------------------

  datatype Step =
    | Batch(source: string, units: seq<UnitSample>, now: int)
    | Prune(source: string, names: set<string>)

  ghost function AfterStep(db: Db, step: Step): Db {
    match step
    case Batch(source, units, now) => AfterBatch(db, source, units, now)
    case Prune(source, names) => Pruned(db, source, names)
  }

  ghost function Run(steps: seq<Step>): Db {
    if steps == [] then Db(map[], [], map[]) else AfterStep(Run(steps[..|steps| - 1]), steps[|steps| - 1])
  }

  ghost predicate DistinctRun(steps: seq<Step>) {
    forall i :: 0 <= i < |steps| && steps[i].Batch? ==> DistinctEntities(steps[i].units)
  }

  /** Whatever batches arrive and whatever is pruned in between, replaying the event
      log gives the baseline, and each unit's events form a chain. */
  lemma {:induction false} LogReplaysToBaseline(steps: seq<Step>)
    requires DistinctRun(steps)
    ensures Replays(Run(steps)) && WellChained(Run(steps).events)
  {
    if steps != [] {
      var init, last := steps[..|steps| - 1], steps[|steps| - 1];
      LogReplaysToBaseline(init);
      if last.Batch? {
        DistinctNoReturn(Run(init).states, last.source, last.units);
        BatchReplaysExactly(Run(init), last.source, last.units, last.now);
        BatchChained(Run(init), last.source, last.units);
      }
    }
  }
}
