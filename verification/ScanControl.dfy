/** Background folder scans, one at a time per monitor, with pause, resume and
    cancel. A scan is an asynchronous function; its code between two awaits is one
    step, and the operators' calls fall between any two steps. */
module ScanControl {
  import opened Shared

  datatype Status = Idle | Running | Paused | Done | Cancelled | Error

  /** What a scan is waiting for. `Blocked` waits for a resume, `Woken` has been
      resumed but has not run since. */
  datatype Await =
    | Monitor
    | Secret
    | Capacity
    | Turn
    | Blocked
    | Woken
    | Listing
    | Apply(reachable: bool)
    | Record
    | Ended(how: Status)

  datatype Scan = Scan(at: Await, calls: nat)

  /** How an await turned out: whether it threw; whether what it brought is usable (a
      storage monitor with a path, a well-formed share path, an admissible folder
      name); whether the walk then has a folder left and budget for it. */
  datatype Outcome = Outcome(rejected: bool, accepted: bool, more: bool)

  /** The bookkeeping of one monitor. `scans` are all scans ever started for it. */
  datatype State = State(
    status: Status,
    paused: bool,
    cancelled: bool,
    waiters: seq<nat>,
    running: Option<nat>,
    scans: seq<Scan>,
    cached: Option<nat>
  )

  const FRESH := State(Idle, false, false, [], None, [], None)

  // ---------------------------------------------------------------------
  // The operators' calls
  // ---------------------------------------------------------------------

  function Pause(s: State): State {
    if s.running.Some? then s.(paused := true) else s
  }

  function Wake(scans: seq<Scan>, waiters: seq<nat>): (r: seq<Scan>)
    ensures |r| == |scans|
    decreases |waiters|
  {
    if waiters == [] then scans
    else
      var rest := Wake(scans, waiters[..|waiters| - 1]);
      var w := waiters[|waiters| - 1];
      if w < |rest| then rest[w := rest[w].(at := Woken)] else rest
  }

  function Resume(s: State): State {
    s.(paused := false, waiters := [], scans := Wake(s.scans, s.waiters))
  }

  function Cancel(s: State): State {
    if s.running.Some? then Resume(s).(cancelled := true) else s
  }

  /** A call while a scan is in flight joins it. */
  function Start(s: State): State {
    if s.running.Some? then s
    else s.(status := Running, paused := false, cancelled := false,
            running := Some(|s.scans|), scans := s.scans + [Scan(Monitor, 0)])
  }

  /** Exactly the waiters are let go. */
  ghost predicate AllWoken(scans: seq<Scan>, waiters: seq<nat>, after: seq<Scan>) {
    && |after| == |scans|
    && forall k :: 0 <= k < |scans| ==>
      after[k] == if k in waiters then Scan(Woken, scans[k].calls) else scans[k]
  }

  lemma {:induction false} WakeExactly(scans: seq<Scan>, waiters: seq<nat>)
    ensures AllWoken(scans, waiters, Wake(scans, waiters))
    decreases |waiters|
  {
    if waiters != [] {
      var init, w := waiters[..|waiters| - 1], waiters[|waiters| - 1];
      WakeExactly(scans, init);
      assert waiters == init + [w];
    }
  }

  // ---------------------------------------------------------------------
  // The steps of a scan
  // ---------------------------------------------------------------------

  function Goto(s: State, k: nat, at: Await): State
    requires k < |s.scans|
  {
    s.(scans := s.scans[k := s.scans[k].(at := at)])
  }

  function Call(s: State, k: nat, at: Await): State
    requires k < |s.scans|
  {
    s.(scans := s.scans[k := Scan(at, s.scans[k].calls + 1)])
  }

  function Finish(s: State, k: nat, how: Status): State
    requires k < |s.scans|
  {
    Goto(s, k, Ended(how)).(status := how, running := None)
  }

  /** The head of the walk's loop: the budget, then cancellation, then the pause. */
  function LoopHead(s: State, k: nat, more: bool): State
    requires k < |s.scans|
  {
    if !more then Goto(s, k, Apply(true)).(cached := Some(k))
    else if s.cancelled then Finish(s, k, Cancelled)
    else if s.paused then Goto(s, k, Blocked).(status := Paused, waiters := s.waiters + [k])
    else Goto(s, k, Turn)
  }

  function TakeFolder(s: State, k: nat, o: Outcome): State
    requires k < |s.scans|
  {
    if o.accepted then Call(s, k, Listing) else LoopHead(s, k, o.more)
  }

  function Proceed(s: State, k: nat, o: Outcome): State
    requires k < |s.scans|
  {
    match s.scans[k].at
    case Monitor => if o.rejected || !o.accepted then Finish(s, k, Error) else Goto(s, k, Secret)
    case Secret =>
      if o.rejected then Finish(s, k, Error)
      else if !o.accepted then Goto(s, k, Apply(false))
      else Call(s, k, Capacity)
    case Capacity => if o.rejected then Goto(s, k, Apply(false)) else LoopHead(s, k, o.more)
    case Turn => TakeFolder(s, k, o)
    case Woken => TakeFolder(if s.cancelled then s else s.(status := Running), k, o)
    case Listing => LoopHead(s, k, o.more)
    case Apply(reachable) =>
      if o.rejected then Finish(s, k, Error)
      else if reachable then Goto(s, k, Record)
      else Finish(s, k, Done)
    case Record => Finish(s, k, if o.rejected then Error else Done)
    case Blocked => s
    case Ended(_) => s
  }

  /** Where a scan goes from the head of the walk's loop. */
  function Onward(paused: bool, cancelled: bool, more: bool): Await {
    if !more then Apply(true) else if cancelled then Ended(Cancelled) else if paused then Blocked else Turn
  }

  /** Where a scan goes from each of its awaits, by how the await turned out. */
  function Destination(paused: bool, cancelled: bool, at: Await, o: Outcome): Await {
    var onward := Onward(paused, cancelled, o.more);
    match at
    case Monitor => if !o.rejected && o.accepted then Secret else Ended(Error)
    case Secret => if o.rejected then Ended(Error) else if o.accepted then Capacity else Apply(false)
    case Capacity => if o.rejected then Apply(false) else onward
    case Turn => if o.accepted then Listing else onward
    case Woken => if o.accepted then Listing else onward
    case Listing => onward
    case Apply(reachable) => if o.rejected then Ended(Error) else if reachable then Record else Ended(Done)
    case Record => if o.rejected then Ended(Error) else Ended(Done)
    case Blocked => Blocked
    case Ended(how) => Ended(how)
  }

  /** What a step does to the bookkeeping: a call is counted when the share is asked, the
      status follows the scan's end, its blocking and its return from a pause, and a walk
      that ends by itself is kept. */
  ghost predicate Progressed(s: State, k: nat, o: Outcome, t: State)
    requires k < |s.scans|
  {
    var from := s.scans[k].at;
    var to := Destination(s.paused, s.cancelled, from, o);
    var ends, blocks := to.Ended? && !from.Ended?, to.Blocked? && !from.Blocked?;
    && t.scans == s.scans[k := Scan(to, s.scans[k].calls + if to in {Capacity, Listing} then 1 else 0)]
    && t.paused == s.paused && t.cancelled == s.cancelled
    && t.running == (if ends then None else s.running)
    && t.waiters == (if blocks then s.waiters + [k] else s.waiters)
    && t.cached == (if to == Apply(true) then Some(k) else s.cached)
    && t.status == (if ends then to.how
                    else if blocks then Paused
                    else if from.Woken? && !s.cancelled then Running
                    else s.status)
  }

  datatype Event = PauseScan | ResumeScan | CancelScan | RunScan | Step(scan: nat, outcome: Outcome)

  function Next(s: State, e: Event): State {
    match e
    case PauseScan => Pause(s)
    case ResumeScan => Resume(s)
    case CancelScan => Cancel(s)
    case RunScan => Start(s)
    case Step(k, o) => if k < |s.scans| then Proceed(s, k, o) else s
  }

  function After(s: State, events: seq<Event>): State
    decreases |events|
  {
    if events == [] then s else After(Next(s, events[0]), events[1..])
  }

  // ---------------------------------------------------------------------
  // What every run keeps
  // ---------------------------------------------------------------------

  predicate InFlight(s: State, k: nat) {
    k < |s.scans| && !s.scans[k].at.Ended?
  }

  /** Where the latest scan is. */
  function Where(s: State): Await {
    if s.scans == [] then Ended(s.status) else s.scans[|s.scans| - 1].at
  }

  /** Only the latest scan can be in flight, and `running` tells whether it is. */
  ghost predicate Single(s: State) {
    && (forall k :: 0 <= k < |s.scans| - 1 ==> s.scans[k].at.Ended?)
    && s.running == (if Where(s).Ended? then None else Some(|s.scans| - 1))
  }

  ghost predicate Told(s: State) {
    && s.waiters == (if Where(s).Blocked? then [|s.scans| - 1] else [])
    && (Where(s).Blocked? ==> s.paused && !s.cancelled)
    && (if Where(s).Ended? then Where(s) == Ended(s.status) && s.status in {Idle, Done, Cancelled, Error}
        else s.status in {Running, Paused})
    && (!Where(s).Ended? && !s.cancelled ==> (s.status == Paused <==> Where(s) in {Blocked, Woken}))
    && CacheFits(s)
  }

  ghost predicate CacheFits(s: State) {
    s.cached.Some? ==> s.cached.value < |s.scans| && Walked(s.scans[s.cached.value].at)
  }

  ghost predicate Valid(s: State) {
    Single(s) && Told(s)
  }

  /** The walk ended by itself, with a result. */
  predicate Walked(at: Await) {
    match at
    case Apply(reachable) => reachable
    case Record => true
    case Ended(how) => how in {Done, Error}
    case _ => false
  }

  /** What the head of the loop leads to. */
  predicate Headed(paused: bool, cancelled: bool, at: Await) {
    at == Apply(true) || at == if cancelled then Ended(Cancelled) else if paused then Blocked else Turn
  }

  /** What one step of a scan can lead to. */
  predicate Moved(paused: bool, cancelled: bool, a: Scan, b: Scan) {
    match a.at
    case Monitor => b.calls == a.calls && b.at in {Ended(Error), Secret}
    case Secret => (b.calls == a.calls && b.at in {Ended(Error), Apply(false)}) || b == Scan(Capacity, a.calls + 1)
    case Capacity => b.calls == a.calls && (b.at == Apply(false) || Headed(paused, cancelled, b.at))
    case Turn => b == Scan(Listing, a.calls + 1) || (b.calls == a.calls && Headed(paused, cancelled, b.at))
    case Woken => b == Scan(Listing, a.calls + 1) || (b.calls == a.calls && Headed(paused, cancelled, b.at))
    case Listing => b.calls == a.calls && Headed(paused, cancelled, b.at)
    case Apply(reachable) => b.calls == a.calls && b.at in {Ended(Error), if reachable then Record else Ended(Done)}
    case Record => b.calls == a.calls && b.at in {Ended(Error), Ended(Done)}
    case Blocked => b == a
    case Ended(_) => b == a
  }

  /** What a step of one scan leaves alone, and where it takes that scan. */
  ghost predicate Stepped(s: State, k: nat, t: State) {
    && k < |s.scans| == |t.scans|
    && (forall j :: 0 <= j < |s.scans| && j != k ==> t.scans[j] == s.scans[j])
    && t.paused == s.paused && t.cancelled == s.cancelled
    && (t.cached == s.cached || (t.cached == Some(k) && t.scans[k].at == Apply(true)))
    && Moved(s.paused, s.cancelled, s.scans[k], t.scans[k])
  }

  lemma StartExactly(s: State, k: nat, o: Outcome)
    requires k < |s.scans| && s.scans[k].at in {Monitor, Secret}
    ensures Progressed(s, k, o, Proceed(s, k, o))
  {
    hide LoopHead;
  }

  lemma HeadExactly(s: State, k: nat, o: Outcome)
    requires k < |s.scans| && s.scans[k].at in {Capacity, Listing}
    ensures Progressed(s, k, o, Proceed(s, k, o))
  {
  }

  lemma FolderExactly(s: State, k: nat, o: Outcome)
    requires k < |s.scans| && s.scans[k].at in {Turn, Woken}
    ensures Progressed(s, k, o, Proceed(s, k, o))
  {
  }

  lemma EndExactly(s: State, k: nat, o: Outcome)
    requires k < |s.scans|
    requires s.scans[k].at.Apply? || s.scans[k].at in {Record, Blocked} || s.scans[k].at.Ended?
    ensures Progressed(s, k, o, Proceed(s, k, o))
    ensures s.scans[k].at.Ended? ==> Proceed(s, k, o) == s
  {
    hide LoopHead;
  }

  /** A step goes where the table says and books what belongs to it. */
  lemma ProceedExactly(s: State, k: nat, o: Outcome)
    requires k < |s.scans|
    ensures Progressed(s, k, o, Proceed(s, k, o))
    ensures s.scans[k].at.Ended? ==> Proceed(s, k, o) == s
  {
    hide Proceed, Progressed;
    match s.scans[k].at
    case Monitor => StartExactly(s, k, o);
    case Secret => StartExactly(s, k, o);
    case Capacity => HeadExactly(s, k, o);
    case Listing => HeadExactly(s, k, o);
    case Turn => FolderExactly(s, k, o);
    case Woken => FolderExactly(s, k, o);
    case _ => EndExactly(s, k, o);
  }

  lemma DestinationMoves(paused: bool, cancelled: bool, a: Scan, o: Outcome)
    ensures var to := Destination(paused, cancelled, a.at, o);
      Moved(paused, cancelled, a, Scan(to, a.calls + if to in {Capacity, Listing} then 1 else 0))
    ensures Destination(paused, cancelled, a.at, o) == Apply(true) ==> !a.at.Ended?
  {
  }

  lemma ProceedMoves(s: State, k: nat, o: Outcome)
    requires k < |s.scans|
    ensures Stepped(s, k, Proceed(s, k, o))
    ensures s.scans[k].at.Ended? ==> Proceed(s, k, o) == s
  {
    hide Proceed, Moved, Destination;
    ProceedExactly(s, k, o);
    DestinationMoves(s.paused, s.cancelled, s.scans[k], o);
  }

  lemma ProceedSingle(s: State, k: nat, o: Outcome)
    requires Valid(s) && k < |s.scans|
    ensures Single(Proceed(s, k, o))
  {
    hide Moved, Told;
    if !s.scans[k].at.Ended? {
      assert k == |s.scans| - 1;
      ProceedMoves(s, k, o);
    }
  }

  lemma ProceedTold(s: State, k: nat, o: Outcome)
    requires Valid(s) && k < |s.scans|
    ensures Told(Proceed(s, k, o))
  {
    hide Moved, Proceed, Valid, Told;
    CacheKept(s, k, o);
    if s.scans[k].at in {Capacity, Listing, Turn, Woken} {
      WalkTold(s, k, o);
    } else if s.scans[k].at in {Monitor, Secret} {
      StartTold(s, k, o);
    } else {
      EndTold(s, k, o);
    }
  }

  /** A step that can reach the head of the walk's loop. */
  lemma WalkTold(s: State, k: nat, o: Outcome)
    requires Valid(s) && k < |s.scans| && s.scans[k].at in {Capacity, Listing, Turn, Woken}
    requires CacheFits(Proceed(s, k, o))
    ensures Told(Proceed(s, k, o))
  {
    hide Moved, Walked;
    assert k == |s.scans| - 1;
  }

  lemma StartTold(s: State, k: nat, o: Outcome)
    requires Valid(s) && k < |s.scans| && s.scans[k].at in {Monitor, Secret}
    requires CacheFits(Proceed(s, k, o))
    ensures Told(Proceed(s, k, o))
  {
    hide Moved, Walked;
    assert k == |s.scans| - 1;
  }

  lemma EndTold(s: State, k: nat, o: Outcome)
    requires Valid(s) && k < |s.scans|
    requires s.scans[k].at.Apply? || s.scans[k].at in {Record, Blocked} || s.scans[k].at.Ended?
    requires CacheFits(Proceed(s, k, o))
    ensures Told(Proceed(s, k, o))
  {
    hide Moved, Walked;
    if !s.scans[k].at.Ended? {
      assert k == |s.scans| - 1;
    }
  }

  lemma WalkedMoves(paused: bool, cancelled: bool, a: Scan, b: Scan)
    requires Moved(paused, cancelled, a, b) && Walked(a.at)
    ensures Walked(b.at)
  {
  }

  lemma CacheKept(s: State, k: nat, o: Outcome)
    requires Valid(s) && k < |s.scans|
    ensures CacheFits(Proceed(s, k, o))
  {
    hide Moved, Proceed, Single;
    ProceedMoves(s, k, o);
    if s.cached == Some(k) {
      WalkedMoves(s.paused, s.cancelled, s.scans[k], Proceed(s, k, o).scans[k]);
    }
  }

  /** The waiter, if any, is the scan in flight, and it is let go. */
  lemma ResumeMoves(s: State)
    requires Valid(s)
    ensures var t := Resume(s);
      && |t.scans| == |s.scans|
      && (forall j :: 0 <= j < |s.scans| ==>
            t.scans[j] == if s.scans[j].at.Blocked? then s.scans[j].(at := Woken) else s.scans[j])
      && Single(t) && t.waiters == []
  {
    if Where(s).Blocked? {
      assert s.waiters[..0] == [];
      assert Wake(s.scans, []) == s.scans;
    }
  }

  lemma ResumeKeeps(s: State)
    requires Valid(s)
    ensures Valid(Resume(s))
  {
    hide Resume;
    ResumeMoves(s);
    assert Resume(s).status == s.status && Resume(s).cached == s.cached && Resume(s).cancelled == s.cancelled by {
      ResumeFrame(s);
    }
  }

  lemma ResumeFrame(s: State)
    ensures Resume(s) == s.(paused := false, waiters := [], scans := Resume(s).scans)
  {
  }

  lemma NextKeeps(s: State, e: Event)
    requires Valid(s)
    ensures Valid(Next(s, e))
  {
    hide Proceed, Resume;
    match e
    case PauseScan =>
    case ResumeScan =>
      ResumeKeeps(s);
    case CancelScan =>
      ResumeKeeps(s);
      ResumeMoves(s);
    case RunScan =>
    case Step(k, o) =>
      if k < |s.scans| {
        ProceedSingle(s, k, o);
        ProceedTold(s, k, o);
      }
  }

  lemma FreshValid()
    ensures Valid(FRESH)
  {
  }

  /** Every reachable state is valid. */
  lemma {:induction false} AfterKeeps(s: State, events: seq<Event>)
    requires Valid(s)
    ensures Valid(After(s, events))
    decreases |events|
  {
    hide Valid, Next;
    if events != [] {
      NextKeeps(s, events[0]);
      AfterKeeps(Next(s, events[0]), events[1..]);
    }
  }

  /** However calls and steps are interleaved, at most one scan of a monitor is in
      flight. */
  lemma AtMostOneInFlight(events: seq<Event>, j: nat, k: nat)
    ensures var s := After(FRESH, events);
      InFlight(s, j) && InFlight(s, k) ==> j == k && s.running == Some(k)
  {
    hide After;
    AfterKeeps(FRESH, events);
  }

  /** Without a scan in flight the status is a final one, and otherwise it is not. A
      waiter means that the scan in flight is paused and blocked. A cancelled scan's
      result is never kept. */
  lemma StatusTells(events: seq<Event>)
    ensures var s := After(FRESH, events);
      && (s.running.None? <==> s.status in {Idle, Done, Cancelled, Error})
      && (s.waiters != [] ==> s.paused && s.running.Some?)
      && (s.waiters != [] <==> exists k: nat :: InFlight(s, k) && s.scans[k].at.Blocked?)
      && (s.cached.Some? ==> s.cached.value < |s.scans| && s.scans[s.cached.value].at != Ended(Cancelled))
  {
    hide After;
    AfterKeeps(FRESH, events);
    var s := After(FRESH, events);
    if s.waiters != [] {
      assert InFlight(s, |s.scans| - 1);
    }
  }

  // ---------------------------------------------------------------------
  // One event, seen from one scan
  // ---------------------------------------------------------------------

  /** What an event does to a scan in flight. */
  lemma FlightMoves(s: State, e: Event, k: nat)
    requires Valid(s) && InFlight(s, k)
    ensures var t := Next(s, e);
      && Valid(t) && |t.scans| == |s.scans| && s.running == Some(k)
      && (if e.Step? && e.scan == k then Moved(s.paused, s.cancelled, s.scans[k], t.scans[k])
          else if e.ResumeScan? || e.CancelScan? then
            t.scans[k] == if s.scans[k].at.Blocked? then s.scans[k].(at := Woken) else s.scans[k]
          else t.scans[k] == s.scans[k])
      && t.paused == (e.PauseScan? || (s.paused && !e.ResumeScan? && !e.CancelScan?))
      && t.cancelled == (e.CancelScan? || s.cancelled)
      && (t.running == Some(k) <==> InFlight(t, k))
  {
    hide Proceed, Resume, Moved, Told;
    NextKeeps(s, e);
    ResumeMoves(s);
    ResumeFrame(s);
    if e.Step? && e.scan < |s.scans| {
      ProceedMoves(s, e.scan, e.outcome);
    }
  }

  /** What has ended stays as it is. */
  lemma EndedMoves(s: State, e: Event, k: nat)
    requires Valid(s) && k < |s.scans| && !InFlight(s, k)
    ensures var t := Next(s, e);
      && Valid(t) && k < |t.scans| && t.scans[k] == s.scans[k] && t.running != Some(k)
  {
    hide Proceed, Resume, Moved, Told;
    NextKeeps(s, e);
    ResumeMoves(s);
    ResumeFrame(s);
    if e.Step? && e.scan < |s.scans| {
      ProceedMoves(s, e.scan, e.outcome);
    }
  }

  // ---------------------------------------------------------------------
  // Resuming, pausing and cancelling
  // ---------------------------------------------------------------------

  lemma UnpausedNext(s: State, e: Event)
    requires Valid(s) && !s.paused && e != PauseScan
    ensures Valid(Next(s, e)) && !Next(s, e).paused
  {
    hide Proceed, Valid;
    NextKeeps(s, e);
    if e.Step? && e.scan < |s.scans| {
      ProceedMoves(s, e.scan, e.outcome);
    }
  }

  lemma {:induction false} UnpausedNeverBlocks(s: State, events: seq<Event>)
    requires Valid(s) && !s.paused && PauseScan !in events
    ensures var t := After(s, events); Valid(t) && !t.paused
    decreases |events|
  {
    hide Next, Valid;
    if events != [] {
      assert events[0] != PauseScan;
      UnpausedNext(s, events[0]);
      UnpausedNeverBlocks(Next(s, events[0]), events[1..]);
    }
  }

  /** No wake-up is lost: from a resume or a cancellation of the scan in flight until
      the next pause, no scan is blocked. */
  lemma NoLostWakeup(before: seq<Event>, wake: Event, events: seq<Event>, k: nat)
    requires wake.ResumeScan? || (wake.CancelScan? && After(FRESH, before).running.Some?)
    requires PauseScan !in events
    ensures var s := After(Next(After(FRESH, before), wake), events);
      s.waiters == [] && (InFlight(s, k) ==> !s.scans[k].at.Blocked?)
  {
    hide After;
    AfterKeeps(FRESH, before);
    NextKeeps(After(FRESH, before), wake);
    UnpausedNeverBlocks(Next(After(FRESH, before), wake), events);
  }

  /** The share calls a scan that has been told to stop may still start. */
  function Allowance(at: Await): nat {
    if at in {Monitor, Secret, Turn, Woken} then 1 else 0
  }

  function CallsOf(s: State, k: nat): nat {
    if k < |s.scans| then s.scans[k].calls else 0
  }

  function AllowanceOf(s: State, k: nat): nat {
    if k < |s.scans| then Allowance(s.scans[k].at) else 0
  }

  lemma StoppedStep(paused: bool, cancelled: bool, a: Scan, b: Scan)
    requires Moved(paused, cancelled, a, b)
    ensures a.calls <= b.calls
    ensures paused || cancelled ==> b.calls + Allowance(b.at) <= a.calls + Allowance(a.at)
  {
  }

  /** The scan has ended, or it has been cancelled. */
  ghost predicate Stopping(s: State, k: nat) {
    Valid(s) && k < |s.scans| && (InFlight(s, k) ==> s.cancelled && !s.scans[k].at.Blocked?)
  }

  lemma StoppingNext(s: State, e: Event, k: nat)
    requires Stopping(s, k)
    ensures var t := Next(s, e);
      && Stopping(t, k)
      && CallsOf(s, k) <= CallsOf(t, k)
      && CallsOf(t, k) + AllowanceOf(t, k) <= CallsOf(s, k) + AllowanceOf(s, k)
  {
    hide Next, Moved, Single;
    if InFlight(s, k) {
      FlightMoves(s, e, k);
      if e.Step? && e.scan == k {
        StoppedStep(s.paused, s.cancelled, s.scans[k], Next(s, e).scans[k]);
        StillStopping(s.paused, s.scans[k], Next(s, e).scans[k]);
      }
    } else {
      EndedMoves(s, e, k);
    }
  }

  lemma StillStopping(paused: bool, a: Scan, b: Scan)
    requires Moved(paused, true, a, b) && !a.at.Blocked?
    ensures !b.at.Blocked? && (!a.at.Ended? ==> Rank(b.at) < Rank(a.at))
  {
  }

  lemma {:induction false} CancelBoundsCalls(s: State, k: nat, events: seq<Event>)
    requires Stopping(s, k)
    ensures k < |After(s, events).scans|
    ensures CallsOf(s, k) <= CallsOf(After(s, events), k) <= CallsOf(s, k) + AllowanceOf(s, k)
    decreases |events|
  {
    hide Next;
    if events != [] {
      StoppingNext(s, events[0], k);
      CancelBoundsCalls(Next(s, events[0]), k, events[1..]);
    }
  }

  lemma CancelStops(s: State)
    requires Valid(s) && s.running.Some?
    ensures var k := s.running.value;
      && k < |s.scans| && Where(s) == s.scans[k].at
      && Stopping(Cancel(s), k) && CallsOf(Cancel(s), k) == CallsOf(s, k)
      && (Where(s) in {Capacity, Listing, Apply(true), Apply(false), Record} ==> AllowanceOf(Cancel(s), k) == 0)
  {
    hide Resume;
    FlightMoves(s, CancelScan, s.running.value);
    ResumeMoves(s);
  }

  /** After a cancellation the scan starts at most one more share call, whatever
      follows; none if it was waiting for the share or past the walk. */
  lemma OneCallAfterCancel(before: seq<Event>, events: seq<Event>)
    requires After(FRESH, before).running.Some?
    ensures var s := After(FRESH, before);
      var k, t := s.running.value, After(Next(s, CancelScan), events);
      && k < |s.scans| && k < |t.scans|
      && s.scans[k].calls <= t.scans[k].calls <= s.scans[k].calls + 1
      && (s.scans[k].at in {Capacity, Listing, Apply(true), Apply(false), Record} ==>
            t.scans[k].calls == s.scans[k].calls)
  {
    hide After, Valid, Cancel;
    var s := After(FRESH, before);
    FreshValid();
    AfterKeeps(FRESH, before);
    CancelStops(s);
    CancelBoundsCalls(Cancel(s), s.running.value, events);
  }

  /** A pause that nobody lifts lets the scan start at most one more share call. */
  lemma {:induction false} PauseBoundsCalls(s: State, k: nat, events: seq<Event>)
    requires Valid(s) && k < |s.scans| && (InFlight(s, k) ==> s.paused)
    requires ResumeScan !in events && CancelScan !in events
    ensures var t := After(s, events);
      && k < |t.scans|
      && s.scans[k].calls <= t.scans[k].calls
      && t.scans[k].calls <= s.scans[k].calls + if s.scans[k].at in {Monitor, Secret, Turn, Woken} then 1 else 0
    decreases |events|
  {
    hide Next, Valid, Moved;
    if events != [] {
      var t := Next(s, events[0]);
      assert events[0] != ResumeScan && events[0] != CancelScan;
      if InFlight(s, k) {
        FlightMoves(s, events[0], k);
        if events[0].Step? && events[0].scan == k {
          StoppedStep(s.paused, s.cancelled, s.scans[k], t.scans[k]);
        }
      } else {
        EndedMoves(s, events[0], k);
      }
      PauseBoundsCalls(t, k, events[1..]);
    }
  }

  // ---------------------------------------------------------------------
  // A cancelled scan ends
  // ---------------------------------------------------------------------

  /** The steps a scan that is not held up by a pause has at most left, once it has
      been cancelled. */
  function Rank(at: Await): nat {
    match at
    case Monitor => 7
    case Secret => 6
    case Capacity => 5
    case Turn => 4
    case Blocked => 4
    case Woken => 4
    case Listing => 3
    case Apply(_) => 2
    case Record => 1
    case Ended(_) => 0
  }

  function StepsOf(events: seq<Event>, k: nat): nat
    decreases |events|
  {
    if events == [] then 0
    else (if events[0].Step? && events[0].scan == k then 1 else 0) + StepsOf(events[1..], k)
  }

  function RankOf(s: State, k: nat): nat {
    if k < |s.scans| then Rank(s.scans[k].at) else 0
  }

  lemma RankDrops(s: State, e: Event, k: nat)
    requires Stopping(s, k)
    ensures var t := Next(s, e);
      && RankOf(t, k) <= RankOf(s, k)
      && (e.Step? && e.scan == k && RankOf(s, k) > 0 ==> RankOf(t, k) < RankOf(s, k))
  {
    hide Next, Moved, Valid;
    if InFlight(s, k) {
      FlightMoves(s, e, k);
      if e.Step? && e.scan == k {
        StillStopping(s.paused, s.scans[k], Next(s, e).scans[k]);
      }
    } else {
      EndedMoves(s, e, k);
    }
  }

  lemma {:induction false} StoppingEnds(s: State, k: nat, events: seq<Event>)
    requires Stopping(s, k)
    ensures Stopping(After(s, events), k)
    ensures RankOf(After(s, events), k) == 0 || StepsOf(events, k) + RankOf(After(s, events), k) <= RankOf(s, k)
    ensures RankOf(s, k) == 0 ==> RankOf(After(s, events), k) == 0
    decreases |events|
  {
    hide Next, Stopping, RankOf;
    if events != [] {
      StoppingNext(s, events[0], k);
      RankDrops(s, events[0], k);
      StoppingEnds(Next(s, events[0]), k, events[1..]);
    }
  }

  /** A cancelled scan has ended after at most seven of its own steps, whatever calls
      come in between: it is never held up by a pause again. */
  lemma CancelledScanEnds(before: seq<Event>, events: seq<Event>)
    requires After(FRESH, before).running.Some?
    requires |set i | 0 <= i < |events| && events[i].Step? && events[i].scan == After(FRESH, before).running.value| >= 7
    ensures var s := After(FRESH, before);
      !InFlight(After(Next(s, CancelScan), events), s.running.value)
  {
    hide After, Valid, Cancel, CallsOf, Where, StepsOf, Stopping;
    var s := After(FRESH, before);
    FreshValid();
    AfterKeeps(FRESH, before);
    CancelStops(s);
    StepsCounted(events, s.running.value, 0);
    assert events[0..] == events;
    StoppingEnds(Cancel(s), s.running.value, events);
  }

  lemma {:induction false} StepsCounted(events: seq<Event>, k: nat, n: nat)
    requires n <= |events|
    ensures StepsOf(events[n..], k) == |set i | n <= i < |events| && events[i].Step? && events[i].scan == k|
    decreases |events| - n
  {
    var own := set i | n <= i < |events| && events[i].Step? && events[i].scan == k;
    if n < |events| {
      StepsCounted(events, k, n + 1);
      var later := set i | n + 1 <= i < |events| && events[i].Step? && events[i].scan == k;
      assert events[n..][1..] == events[n + 1..];
      if n in own {
        assert own == later + {n};
      } else {
        assert own == later;
      }
    } else {
      assert own == {};
    }
  }

  // ---------------------------------------------------------------------
  // How a cancelled scan ends
  // ---------------------------------------------------------------------

  /** The outcomes of the scan's own awaits, in order. */
  function OutcomesOf(events: seq<Event>, k: nat): seq<Outcome>
    decreases |events|
  {
    if events == [] then []
    else (if events[0].Step? && events[0].scan == k then [events[0].outcome] else []) + OutcomesOf(events[1..], k)
  }

  /** A cancelled scan that is waiting at `at` comes to a loop head with a folder left,
      without an error on the way. Past the walk there is no loop head any more. */
  predicate FindsMore(at: Await, o: seq<Outcome>) {
    match at
    case Monitor =>
      && |o| >= 3 && !o[0].rejected && o[0].accepted && !o[1].rejected && o[1].accepted
      && !o[2].rejected && o[2].more
    case Secret => |o| >= 2 && !o[0].rejected && o[0].accepted && !o[1].rejected && o[1].more
    case Capacity => |o| >= 1 && !o[0].rejected && o[0].more
    case Turn => FolderThenMore(o)
    case Blocked => FolderThenMore(o)
    case Woken => FolderThenMore(o)
    case Listing => |o| >= 1 && o[0].more
    case Apply(_) => false
    case Record => false
    case Ended(how) => how == Cancelled
  }

  /** The next folder is listed first, unless its name is refused. */
  predicate FolderThenMore(o: seq<Outcome>) {
    |o| >= 1 && if o[0].accepted then |o| >= 2 && o[1].more else o[0].more
  }

  /** Where one step takes a cancelled scan. */
  function CancelledStep(at: Await, o: Outcome): Await {
    Destination(false, true, at, o)
  }

  lemma StoppingStep(s: State, k: nat, o: Outcome)
    requires Stopping(s, k)
    ensures k < |Proceed(s, k, o).scans| && Proceed(s, k, o).scans[k].at == CancelledStep(s.scans[k].at, o)
  {
    hide Valid, Proceed;
    ProceedExactly(s, k, o);
  }

  lemma FindsMoreStep(at: Await, o: Outcome, rest: seq<Outcome>)
    requires !at.Blocked?
    ensures FindsMore(at, [o] + rest) <==> FindsMore(CancelledStep(at, o), rest)
  {
  }

  lemma OtherEvent(s: State, e: Event, k: nat)
    requires Stopping(s, k) && !(e.Step? && e.scan == k)
    ensures k < |Next(s, e).scans| && Next(s, e).scans[k].at == s.scans[k].at
  {
    hide Next, Moved, Single;
    if InFlight(s, k) {
      FlightMoves(s, e, k);
    } else {
      EndedMoves(s, e, k);
    }
  }

  lemma {:induction false} StoppingOutcome(s: State, k: nat, events: seq<Event>)
    requires Stopping(s, k)
    ensures var t := After(s, events);
      k < |t.scans| && (t.scans[k].at == Ended(Cancelled) <==> FindsMore(s.scans[k].at, OutcomesOf(events, k)))
    decreases |events|
  {
    hide Next, Stopping, FindsMore, CancelledStep, Proceed;
    StoppingIs(s, k);
    if events == [] {
      NotYet(s.scans[k].at);
    } else {
      var e, t := events[0], Next(s, events[0]);
      StoppingNext(s, e, k);
      StoppingOutcome(t, k, events[1..]);
      if e.Step? && e.scan == k {
        NextIsProceed(s, k, e.outcome);
        StoppingStep(s, k, e.outcome);
        FindsMoreStep(s.scans[k].at, e.outcome, OutcomesOf(events[1..], k));
      } else {
        OtherEvent(s, e, k);
        assert OutcomesOf(events, k) == OutcomesOf(events[1..], k);
      }
    }
  }

  lemma StoppingIs(s: State, k: nat)
    requires Stopping(s, k)
    ensures k < |s.scans| && !s.scans[k].at.Blocked?
  {
  }

  lemma NotYet(at: Await)
    ensures FindsMore(at, []) <==> at == Ended(Cancelled)
  {
  }

  lemma NextIsProceed(s: State, k: nat, o: Outcome)
    requires k < |s.scans|
    ensures Next(s, Step(k, o)) == Proceed(s, k, o)
  {
  }

  /** Whatever follows its cancellation, a scan in flight ends as cancelled exactly when
      its own outcomes lead it to a loop head with a folder left. */
  lemma EndsCancelledExactly(before: seq<Event>, events: seq<Event>)
    requires After(FRESH, before).running.Some?
    ensures var s := After(FRESH, before);
      var k := s.running.value;
      var t := After(Next(s, CancelScan), events);
      && k < |s.scans| && k < |t.scans|
      && (t.scans[k].at == Ended(Cancelled) <==> FindsMore(s.scans[k].at, OutcomesOf(events, k)))
  {
    hide After, Valid, Cancel, OutcomesOf, Stopping, FindsMore;
    var s := After(FRESH, before);
    var k := s.running.value;
    FreshValid();
    AfterKeeps(FRESH, before);
    CancelStops(s);
    CancelledWhere(s);
    StoppingOutcome(Cancel(s), k, events);
  }

  /** Cancelling wakes a blocked scan, which changes nothing about what it finds. */
  lemma CancelledWhere(s: State)
    requires Valid(s) && s.running.Some?
    ensures var k := s.running.value;
      && k < |s.scans| && k < |Cancel(s).scans|
      && forall o :: FindsMore(Cancel(s).scans[k].at, o) <==> FindsMore(s.scans[k].at, o)
  {
    hide Resume;
    FlightMoves(s, CancelScan, s.running.value);
  }

  /** A cancellation that arrives during the last listing comes too late: the scan
      still ends as done, and its result is kept. */
  lemma CancelTooLate()
    ensures var s := After(FRESH, TO_LISTING + [CancelScan]);
      s.cancelled && Where(s) == Listing
    ensures var s := After(FRESH, TO_LISTING + [CancelScan] + TO_END);
      s.status == Done && s.cancelled && s.cached == Some(0)
  {
    hide After, TO_LISTING, TO_END;
    var s := State(Running, false, false, [], Some(0), [Scan(Listing, 2)], None);
    var t := s.(cancelled := true);
    ReachesListing();
    AfterSplit(FRESH, TO_LISTING, [CancelScan]);
    AfterOne(s, CancelScan);
    assert Wake(s.scans, []) == s.scans;
    AfterSplit(FRESH, TO_LISTING + [CancelScan], TO_END);
    ReachesEnd(t);
  }

  lemma AfterOne(s: State, e: Event)
    ensures After(s, [e]) == Next(s, e)
  {
    hide Next;
    assert [e][1..] == [];
  }

  lemma ReachesEnd(t: State)
    requires t == State(Running, false, true, [], Some(0), [Scan(Listing, 2)], None)
    ensures After(t, TO_END) == State(Done, false, true, [], None, [Scan(Ended(Done), 2)], Some(0))
  {
    hide After;
    var t1 := t.(scans := [Scan(Apply(true), 2)], cached := Some(0));
    var t2 := t1.(scans := [Scan(Record, 2)]);
    assert Next(t, STOP) == t1 && Next(t1, STOP) == t2;
    assert [STOP] + [STOP, STOP] == TO_END && [STOP] + [STOP] == [STOP, STOP];
    AfterCons(t, STOP, [STOP, STOP]);
    AfterCons(t1, STOP, [STOP]);
    AfterOne(t2, STOP);
  }

  const GO := Step(0, Outcome(false, true, true))
  const STOP := Step(0, Outcome(false, true, false))
  const TO_LISTING := [RunScan, GO, GO, GO, GO]
  const TO_END := [STOP, STOP, STOP]

  lemma ReachesListing()
    ensures After(FRESH, TO_LISTING) == State(Running, false, false, [], Some(0), [Scan(Listing, 2)], None)
  {
    var s1 := State(Running, false, false, [], Some(0), [Scan(Monitor, 0)], None);
    var s2 := s1.(scans := [Scan(Secret, 0)]);
    var s3 := s1.(scans := [Scan(Capacity, 1)]);
    var s4 := s1.(scans := [Scan(Turn, 1)]);
    var s5 := s1.(scans := [Scan(Listing, 2)]);
    assert Next(FRESH, RunScan) == s1 && Next(s1, GO) == s2 && Next(s2, GO) == s3 && Next(s3, GO) == s4;
    assert Next(s4, GO) == s5;
    AfterCons(FRESH, RunScan, [GO, GO, GO, GO]);
    AfterCons(s1, GO, [GO, GO, GO]);
    AfterCons(s2, GO, [GO, GO]);
    AfterCons(s3, GO, [GO]);
    AfterCons(s4, GO, []);
    assert [RunScan] + [GO, GO, GO, GO] == TO_LISTING && [GO] + [GO, GO, GO] == [GO, GO, GO, GO];
    assert [GO] + [GO, GO] == [GO, GO, GO] && [GO] + [GO] == [GO, GO] && [GO] + [] == [GO];
  }

  lemma AfterCons(s: State, e: Event, rest: seq<Event>)
    ensures After(s, [e] + rest) == After(Next(s, e), rest)
  {
    assert ([e] + rest)[1..] == rest;
  }

  lemma {:induction false} AfterSplit(s: State, a: seq<Event>, b: seq<Event>)
    ensures After(s, a + b) == After(After(s, a), b)
    decreases |a|
  {
    hide Next;
    if a == [] {
      assert a + b == b;
    } else {
      assert (a + b)[1..] == a[1..] + b;
      AfterSplit(Next(s, a[0]), a[1..], b);
    }
  }
}
