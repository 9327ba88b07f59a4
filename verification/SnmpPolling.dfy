/** Polling SNMP devices at two speeds: light polls every sweep, heavy ones (with the
    table walks) only now and then, each followed by a cooldown. A flap guard
    tolerates a few failed polls before a device is recorded as down. */
module SnmpPolling {
  import opened Shared

  /** The limits read from the environment, already clamped. */
  datatype Policy = Policy(threshold: int, tablesInterval: int, cooldown: int)

  ghost predicate Clamped(p: Policy) {
    p.threshold >= 1 && p.cooldown >= 0
  }

  /** `scalars` stands for CPU, memory and the single readings. */
  datatype Sample = Sample(reachable: bool, scalars: string, tables: Option<string>, disks: Option<string>)

  /** One monitor in one sweep: whether it has a host, the clock when it is decided
      whether tables are due, when the cooldown is checked, and when the reply has
      been taken in; `reply` is what the device would answer to a heavy poll. */
  datatype Attempt = Attempt(host: bool, due: int, check: int, end: int, cool: int, reply: Sample)

  /** A light poll does not ask for tables and disks. */
  function Collect(a: Attempt, heavy: bool): Sample {
    if heavy then a.reply else a.reply.(tables := None, disks := None)
  }

  datatype Readings = Readings(tables: Option<string>, disks: Option<string>)

  /** What is remembered about one device. */
  datatype Device = Device(misses: nat, heavyAt: Option<int>, coolUntil: Option<int>, cache: Option<Readings>)

  const UNKNOWN := Device(0, None, None, None)

  /** `display` goes into the unit state, `history` into the metrics. */
  datatype Outcome =
    | NoHost
    | Cooling
    | Tolerated(heavy: bool)
    | Down(heavy: bool, display: Sample)
    | Up(heavy: bool, display: Sample, history: Sample)

  function OrZero(x: Option<int>): int {
    if x.Some? then x.value else 0
  }

  predicate Heavy(p: Policy, d: Device, a: Attempt) {
    a.due - OrZero(d.heavyAt) >= p.tablesInterval
  }

  predicate Performed(p: Policy, d: Device, a: Attempt) {
    a.host && (Heavy(p, d, a) || a.check >= OrZero(d.coolUntil))
  }

  function Shown(s: Sample, heavy: bool, cache: Option<Readings>): Sample {
    if s.reachable && !heavy && cache.Some? then
      s.(tables := if cache.value.tables.Some? then cache.value.tables else s.tables,
         disks := if cache.value.disks.Some? then cache.value.disks else s.disks)
    else s
  }

  function Result(p: Policy, d: Device, a: Attempt): Outcome {
    var heavy := Heavy(p, d, a);
    var s := Collect(a, heavy);
    if !a.host then NoHost
    else if !Performed(p, d, a) then Cooling
    else if s.reachable then Up(heavy, Shown(s, heavy, d.cache), s)
    else if d.misses + 1 < p.threshold then Tolerated(heavy)
    else Down(heavy, s)
  }

  function Next(p: Policy, d: Device, a: Attempt): Device {
    if !Performed(p, d, a) then d
    else if !a.reply.reachable then d.(misses := d.misses + 1)
    else if Heavy(p, d, a) then
      Device(0, Some(a.end), Some(a.cool + p.cooldown), Some(Readings(a.reply.tables, a.reply.disks)))
    else d.(misses := 0)
  }

  // ---------------------------------------------------------------------
  // Runs of one device, since it was last unknown
  // ---------------------------------------------------------------------

  function Init<T>(s: seq<T>): seq<T>
    requires s != []
  {
    s[..|s| - 1]
  }

  function Last<T>(s: seq<T>): T
    requires s != []
  {
    s[|s| - 1]
  }

  function After(p: Policy, run: seq<Attempt>): Device {
    if run == [] then UNKNOWN else Next(p, After(p, Init(run)), Last(run))
  }

  /** The outcome of the run's last attempt. */
  function LastOutcome(p: Policy, run: seq<Attempt>): Outcome
    requires run != []
  {
    Result(p, After(p, Init(run)), Last(run))
  }

  predicate WasPerformed(o: Outcome) {
    o.Tolerated? || o.Down? || o.Up?
  }

  /** The outcomes of the polls that were performed: true where the device answered. */
  function Answers(p: Policy, run: seq<Attempt>): seq<bool> {
    if run == [] then []
    else Answers(p, Init(run)) + if WasPerformed(LastOutcome(p, run)) then [Last(run).reply.reachable] else []
  }

  /** The last `n` answers are failures. */
  predicate FailedTail(answers: seq<bool>, n: int) {
    n <= |answers| && forall i :: |answers| - n <= i < |answers| && 0 <= i ==> !answers[i]
  }

  predicate FullPoll(o: Outcome) {
    o.Up? && o.heavy
  }

  /** The index of the latest heavy poll that succeeded. */
  function LatestFull(p: Policy, run: seq<Attempt>): (r: Option<nat>)
    ensures r.Some? ==> r.value < |run|
  {
    if run == [] then None
    else if FullPoll(LastOutcome(p, run)) then Some(|run| - 1)
    else LatestFull(p, Init(run))
  }

  predicate FullAt(p: Policy, run: seq<Attempt>, i: nat)
    requires i < |run|
  {
    FullPoll(LastOutcome(p, run[..i + 1]))
  }

  lemma {:induction false} LatestFullIs(p: Policy, run: seq<Attempt>)
    ensures match LatestFull(p, run)
      case None => forall i :: 0 <= i < |run| ==> !FullAt(p, run, i)
      case Some(k) => FullAt(p, run, k) && forall i :: k < i < |run| ==> !FullAt(p, run, i)
  {
    hide LastOutcome, FullPoll;
    if run != [] {
      assert run[..|run|] == run;
      LatestFullIs(p, Init(run));
      forall i: nat | i < |run| - 1
        ensures FullAt(p, Init(run), i) <==> FullAt(p, run, i)
      {
        assert Init(run)[..i + 1] == run[..i + 1];
      }
    }
  }

  /** The counter of misses counts the failures since the last answer. */
  lemma {:induction false} MissesCount(p: Policy, run: seq<Attempt>)
    ensures var d := After(p, run);
      var h := Answers(p, run);
      FailedTail(h, d.misses) && (d.misses < |h| ==> h[|h| - d.misses - 1])
  {
    if run != [] {
      MissesCount(p, Init(run));
      var h := Answers(p, Init(run));
      assert WasPerformed(LastOutcome(p, run)) <==> Performed(p, After(p, Init(run)), Last(run));
    }
  }

  /** The other memories come from the latest successful heavy poll. */
  lemma {:induction false} MemoryIsLatestFull(p: Policy, run: seq<Attempt>)
    ensures var d := After(p, run);
      match LatestFull(p, run)
      case None => d.heavyAt.None? && d.coolUntil.None? && d.cache.None?
      case Some(k) =>
        && d.heavyAt == Some(run[k].end) && d.coolUntil == Some(run[k].cool + p.cooldown)
        && d.cache == Some(Readings(run[k].reply.tables, run[k].reply.disks))
  {
    if run != [] {
      MemoryIsLatestFull(p, Init(run));
      assert FullPoll(LastOutcome(p, run)) <==>
             Performed(p, After(p, Init(run)), Last(run)) && Last(run).reply.reachable &&
             Heavy(p, After(p, Init(run)), Last(run));
    }
  }

  // ---------------------------------------------------------------------
  // The flap guard
  // ---------------------------------------------------------------------

  /** A device is recorded as down exactly when this poll and enough performed polls
      right before it failed, as up exactly when this poll was answered, and nothing
      is recorded otherwise. */
  lemma FlapGuard(p: Policy, run: seq<Attempt>)
    requires Clamped(p) && run != []
    ensures var o := LastOutcome(p, run);
      && (o.Down? <==> WasPerformed(o) && FailedTail(Answers(p, run), p.threshold))
      && (o.Up? <==> WasPerformed(o) && Last(run).reply.reachable)
  {
    var init := Init(run);
    var o := LastOutcome(p, run);
    MissesCount(p, init);
    var h, all := Answers(p, init), Answers(p, run);
    var misses := After(p, init).misses;
    if WasPerformed(o) {
      assert all == h + [Last(run).reply.reachable];
      if o.Down? {
        assert forall i :: 0 <= i < |h| ==> all[i] == h[i];
      } else if o.Tolerated? && misses < |h| {
        assert all[|h| - misses - 1];
      } else if o.Up? {
        assert all[|all| - 1];
      }
    }
  }

  // ---------------------------------------------------------------------
  // Two speeds
  // ---------------------------------------------------------------------

  ghost predicate Chronological(run: seq<Attempt>) {
    && (forall i :: 0 <= i < |run| ==> 0 <= run[i].due <= run[i].check <= run[i].end <= run[i].cool)
    && (forall i, j :: 0 <= i < j < |run| ==> run[i].cool <= run[j].due)
  }

  /** A performed poll is heavy exactly when no heavy poll has succeeded within the
      tables interval. */
  lemma HeavyExactly(p: Policy, run: seq<Attempt>)
    requires run != [] && WasPerformed(LastOutcome(p, run))
    ensures var heavy := LastOutcome(p, run).heavy;
      match LatestFull(p, Init(run))
      case None => heavy <==> Last(run).due >= p.tablesInterval
      case Some(k) => heavy <==> Last(run).due - run[k].end >= p.tablesInterval
  {
    MemoryIsLatestFull(p, Init(run));
  }

  /** Successful heavy polls never come closer than the tables interval to any later
      heavy poll, and no light poll falls into a cooldown. */
  lemma Spacing(p: Policy, run: seq<Attempt>, i: nat)
    requires Clamped(p) && Chronological(run) && i < |run| - 1
    requires FullAt(p, run, i)
    requires WasPerformed(LastOutcome(p, run))
    ensures LastOutcome(p, run).heavy ==> Last(run).due - run[i].end >= p.tablesInterval
    ensures !LastOutcome(p, run).heavy ==> Last(run).check >= run[i].cool + p.cooldown
  {
    hide LastOutcome, FullPoll, After;
    var init := Init(run);
    LatestFullIs(p, init);
    assert init[..i + 1] == run[..i + 1];
    assert FullAt(p, init, i);
    var k := LatestFull(p, init).value;
    assert i <= k;
    assert run[i].end <= run[k].end && run[i].cool <= run[k].cool;
    MemoryIsLatestFull(p, init);
    LastDecides(p, run);
  }

  lemma LastDecides(p: Policy, run: seq<Attempt>)
    requires run != [] && WasPerformed(LastOutcome(p, run))
    ensures LastOutcome(p, run).heavy <==> Heavy(p, After(p, Init(run)), Last(run))
    ensures Performed(p, After(p, Init(run)), Last(run))
  {
  }

  /** A monitor with a host is left out of a sweep exactly when tables are not due and
      the cooldown after a successful heavy poll is still running. */
  lemma SkippedExactly(p: Policy, run: seq<Attempt>)
    requires run != [] && Last(run).host && Last(run).check >= 0
    ensures LastOutcome(p, run).Cooling? <==>
      match LatestFull(p, Init(run))
      case None => false
      case Some(k) => Last(run).due - run[k].end < p.tablesInterval && Last(run).check < run[k].cool + p.cooldown
  {
    MemoryIsLatestFull(p, Init(run));
  }

  // ---------------------------------------------------------------------
  // What is shown and what is recorded
  // ---------------------------------------------------------------------

  /** On an answered poll the tables and disks shown are those of the latest heavy
      poll that succeeded, this one included; everything else is fresh. History gets
      only what this poll brought, so no tables at all from a light one. */
  lemma ShownAndRecorded(p: Policy, run: seq<Attempt>)
    requires run != [] && LastOutcome(p, run).Up?
    ensures var o := LastOutcome(p, run);
      && o.display.scalars == Last(run).reply.scalars && o.display.reachable
      && (match LatestFull(p, run)
          case None => o.display.tables.None? && o.display.disks.None?
          case Some(k) => o.display.tables == run[k].reply.tables && o.display.disks == run[k].reply.disks)
      && o.history.scalars == Last(run).reply.scalars
      && o.history.tables == (if LatestFull(p, run) == Some(|run| - 1) then Last(run).reply.tables else None)
  {
    MemoryIsLatestFull(p, Init(run));
  }
}
