/** Whole runs of sweeps, over which monitors come and go: what the scheduler remembers
    about a monitor and decides for it is what it does for the monitor's own polls
    since it was last absent. */
module SnmpRuns {
  import opened Shared
  import opened SnmpPolling

  datatype Monitor = Monitor(id: string, attempt: Attempt)

  /** What is remembered about all monitors. */
  type Devices = map<string, Device>

  function DeviceIn(devices: Devices, id: string): Device {
    if id in devices then devices[id] else UNKNOWN
  }

  /** The part of a sweep that a monitor takes. */
  function AttemptOf(monitors: seq<Monitor>, id: string): (r: Option<Attempt>)
    ensures r.Some? ==> Monitor(id, r.value) in monitors
    ensures r.None? ==> forall m :: m in monitors ==> m.id != id
  {
    if monitors == [] then None
    else if monitors[0].id == id then Some(monitors[0].attempt)
    else AttemptOf(monitors[1..], id)
  }

  ghost predicate DistinctIds(monitors: seq<Monitor>) {
    forall i, j :: 0 <= i < j < |monitors| ==> monitors[i].id != monitors[j].id
  }

  /** One sweep: absent monitors are forgotten, the others polled. */
  function Swept(p: Policy, devices: Devices, monitors: seq<Monitor>): Devices {
    map m | m in monitors :: m.id := Next(p, DeviceIn(devices, m.id), AttemptOf(monitors, m.id).value)
  }

  function Outcomes(p: Policy, devices: Devices, monitors: seq<Monitor>): (r: seq<Outcome>)
    ensures |r| == |monitors|
  {
    seq(|monitors|, i requires 0 <= i < |monitors| => Result(p, DeviceIn(devices, monitors[i].id), monitors[i].attempt))
  }

  /** The memory after a run of sweeps, from a fresh start. */
  function AfterSweeps(p: Policy, sweeps: seq<seq<Monitor>>): Devices {
    if sweeps == [] then map[] else Swept(p, AfterSweeps(p, Init(sweeps)), Last(sweeps))
  }

  /** What the last sweep of a run yields. */
  function LastOutcomes(p: Policy, sweeps: seq<seq<Monitor>>): seq<Outcome>
    requires sweeps != []
  {
    Outcomes(p, AfterSweeps(p, Init(sweeps)), Last(sweeps))
  }

  /** The number of latest sweeps that a monitor was in without a break. */
  function Streak(sweeps: seq<seq<Monitor>>, id: string): (n: nat)
    ensures n <= |sweeps|
    ensures n < |sweeps| ==> AttemptOf(sweeps[|sweeps| - n - 1], id).None?
    ensures forall k :: |sweeps| - n <= k < |sweeps| ==> AttemptOf(sweeps[k], id).Some?
  {
    if sweeps == [] || AttemptOf(Last(sweeps), id).None? then 0 else Streak(Init(sweeps), id) + 1
  }

  /** The monitor's polls since it was last absent. */
  function RunOf(sweeps: seq<seq<Monitor>>, id: string): (run: seq<Attempt>)
    ensures |run| == Streak(sweeps, id)
  {
    var n := Streak(sweeps, id);
    seq(n, i requires 0 <= i < n => AttemptOf(sweeps[|sweeps| - n + i], id).value)
  }

  lemma RunStep(sweeps: seq<seq<Monitor>>, id: string)
    requires sweeps != []
    ensures RunOf(sweeps, id) ==
      match AttemptOf(Last(sweeps), id)
      case None => []
      case Some(a) => RunOf(Init(sweeps), id) + [a]
  {
  }

  lemma SweptIs(p: Policy, devices: Devices, monitors: seq<Monitor>, id: string)
    ensures DeviceIn(Swept(p, devices, monitors), id) ==
      match AttemptOf(monitors, id)
      case None => UNKNOWN
      case Some(a) => Next(p, DeviceIn(devices, id), a)
  {
    hide Next;
  }

  /** Over any run of sweeps the memory of a monitor is that of its own polls since it
      was last absent. */
  lemma {:induction false} MemoryIsOwnRun(p: Policy, sweeps: seq<seq<Monitor>>, id: string)
    ensures DeviceIn(AfterSweeps(p, sweeps), id) == After(p, RunOf(sweeps, id))
  {
    hide Next, Swept, RunOf;
    if sweeps == [] {
      assert RunOf(sweeps, id) == [];
    } else {
      MemoryIsOwnRun(p, Init(sweeps), id);
      RunStep(sweeps, id);
      SweptIs(p, AfterSweeps(p, Init(sweeps)), Last(sweeps), id);
    }
  }

  /** And so is what it yields, so that all that is proved of one device's run is true
      of every monitor of every run of sweeps. */
  lemma OutcomeIsOwnRun(p: Policy, sweeps: seq<seq<Monitor>>, i: nat)
    requires sweeps != [] && DistinctIds(Last(sweeps)) && i < |Last(sweeps)|
    ensures var m, run := Last(sweeps)[i], RunOf(sweeps, Last(sweeps)[i].id);
      && run != [] && Last(run) == m.attempt
      && LastOutcomes(p, sweeps)[i] == LastOutcome(p, run)
  {
    hide Result, RunOf, AfterSweeps, After;
    var m := Last(sweeps)[i];
    AttemptIs(Last(sweeps), i);
    RunStep(sweeps, m.id);
    MemoryIsOwnRun(p, Init(sweeps), m.id);
    assert Init(RunOf(sweeps, m.id)) == RunOf(Init(sweeps), m.id);
  }

  lemma AttemptIs(monitors: seq<Monitor>, i: nat)
    requires DistinctIds(monitors) && i < |monitors|
    ensures AttemptOf(monitors, monitors[i].id) == Some(monitors[i].attempt)
  {
    var m := monitors[i];
    var r := AttemptOf(monitors, m.id);
    assert m in monitors;
    var j :| 0 <= j < |monitors| && monitors[j] == Monitor(m.id, r.value);
  }

  lemma {:induction false} AnswersShorter(p: Policy, run: seq<Attempt>)
    ensures |Answers(p, run)| <= |run|
  {
    if run != [] {
      AnswersShorter(p, Init(run));
    }
  }

  /** A monitor that was absent starts over: it is not recorded as down before it has
      been in as many sweeps as the flap guard asks for. */
  lemma ReturnStartsOver(p: Policy, sweeps: seq<seq<Monitor>>, i: nat, k: nat)
    requires Clamped(p) && sweeps != [] && DistinctIds(Last(sweeps)) && i < |Last(sweeps)|
    requires k < |sweeps| && AttemptOf(sweeps[k], Last(sweeps)[i].id).None?
    ensures LastOutcomes(p, sweeps)[i].Down? ==> |sweeps| - 1 - k >= p.threshold
  {
    hide LastOutcomes, LastOutcome, Answers;
    var run := RunOf(sweeps, Last(sweeps)[i].id);
    OutcomeIsOwnRun(p, sweeps, i);
    FlapGuard(p, run);
    AnswersShorter(p, run);
  }
}
