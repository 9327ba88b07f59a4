/** The scan registry of the backend: one mutable entry per monitor, updated in place
    by the operators' calls and by the steps of the scan itself. */
module ScanManager {
  import opened Control = ScanControl
  import opened Shared

  class Entry {
    var status: Status
    var paused: bool
    var cancelled: bool
    var resumeWaiters: seq<nat>
    var running: Option<nat>
    var scans: seq<Scan>
    var cached: Option<nat>

    ghost function View(): State
      reads this
    {
      State(status, paused, cancelled, resumeWaiters, running, scans, cached)
    }

    constructor ()
      ensures View() == FRESH
    {
      status, paused, cancelled, resumeWaiters, running, scans, cached := Idle, false, false, [], None, [], None;
    }

    method Pause()
      modifies this
      ensures View() == Control.Pause(old(View()))
      ensures View() == old(View()).(paused := old(paused) || old(running).Some?)
    {
      if running.Some? {
        paused := true;
      }
    }

    method CallWaiters()
      modifies this
      ensures View() == old(View()).(waiters := [], scans := Wake(old(scans), old(resumeWaiters)))
      ensures AllWoken(old(scans), old(resumeWaiters), scans)
    {
      WakeExactly(scans, resumeWaiters);
      var waiters := resumeWaiters;
      resumeWaiters := [];
      for i := 0 to |waiters|
        invariant View() == old(View()).(waiters := [], scans := Wake(old(scans), waiters[..i]))
      {
        assert waiters[..i + 1][..i] == waiters[..i];
        if waiters[i] < |scans| {
          scans := scans[waiters[i] := scans[waiters[i]].(at := Woken)];
        }
      }
      assert waiters[..|waiters|] == waiters;
    }

    method Resume()
      modifies this
      ensures View() == Control.Resume(old(View()))
      ensures View() == old(View()).(paused := false, waiters := [], scans := scans)
      ensures AllWoken(old(scans), old(resumeWaiters), scans)
    {
      paused := false;
      CallWaiters();
    }

    method Cancel()
      modifies this
      ensures View() == Control.Cancel(old(View()))
      ensures old(running).None? ==> View() == old(View())
      ensures old(running).Some? ==>
        && View() == old(View()).(cancelled := true, paused := false, waiters := [], scans := scans)
        && AllWoken(old(scans), old(resumeWaiters), scans)
    {
      if running.Some? {
        cancelled := true;
        paused := false;
        CallWaiters();
      }
    }

    method Start()
      modifies this
      ensures View() == Control.Start(old(View()))
      ensures old(running).Some? ==> View() == old(View())
      ensures old(running).None? ==>
        && status == Running && !paused && !cancelled && running == Some(|old(scans)|)
        && scans == old(scans) + [Scan(Monitor, 0)]
        && resumeWaiters == old(resumeWaiters) && cached == old(cached)
    {
      if running.None? {
        cancelled := false;
        paused := false;
        status := Running;
        running := Some(|scans|);
        scans := scans + [Scan(Monitor, 0)];
      }
    }

    method Proceed(k: nat, o: Outcome)
      requires k < |scans|
      modifies this
      ensures View() == Control.Proceed(old(View()), k, o)
      ensures Progressed(old(View()), k, o, View())
    {
      ProceedExactly(View(), k, o);
      match scans[k].at
      case Monitor =>
        if o.rejected || !o.accepted {
          Finish(k, Error);
        } else {
          Goto(k, Secret);
        }
      case Secret =>
        if o.rejected {
          Finish(k, Error);
        } else if !o.accepted {
          Goto(k, Apply(false));
        } else {
          scans := scans[k := Scan(Capacity, scans[k].calls + 1)];
        }
      case Capacity =>
        if o.rejected {
          Goto(k, Apply(false));
        } else {
          LoopHead(k, o.more);
        }
      case Turn =>
        TakeFolder(k, o);
      case Woken =>
        if !cancelled {
          status := Running;
        }
        TakeFolder(k, o);
      case Listing =>
        LoopHead(k, o.more);
      case Apply(reachable) =>
        if o.rejected {
          Finish(k, Error);
        } else if reachable {
          Goto(k, Record);
        } else {
          Finish(k, Done);
        }
      case Record =>
        Finish(k, if o.rejected then Error else Done);
      case Blocked =>
      case Ended(_) =>
    }

    method Goto(k: nat, at: Await)
      requires k < |scans|
      modifies this`scans
      ensures View() == Control.Goto(old(View()), k, at)
    {
      scans := scans[k := scans[k].(at := at)];
    }

    method Finish(k: nat, how: Status)
      requires k < |scans|
      modifies this
      ensures View() == Control.Finish(old(View()), k, how)
      ensures View() == old(View()).(status := how, running := None, scans := scans)
      ensures scans == old(scans)[k := Scan(Ended(how), old(scans)[k].calls)]
    {
      status := how;
      Goto(k, Ended(how));
      running := None;
    }

    method LoopHead(k: nat, more: bool)
      requires k < |scans|
      modifies this
      ensures View() == Control.LoopHead(old(View()), k, more)
    {
      if !more {
        cached := Some(k);
        Goto(k, Apply(true));
      } else if cancelled {
        Finish(k, Cancelled);
      } else if paused {
        status := Paused;
        resumeWaiters := resumeWaiters + [k];
        Goto(k, Blocked);
      } else {
        Goto(k, Turn);
      }
    }

    method TakeFolder(k: nat, o: Outcome)
      requires k < |scans|
      modifies this
      ensures View() == Control.TakeFolder(old(View()), k, o)
    {
      if o.accepted {
        scans := scans[k := Scan(Listing, scans[k].calls + 1)];
      } else {
        LoopHead(k, o.more);
      }
    }
  }

  /** `reg`: the entries, created on first use. */
  class Registry {
    var reg: map<string, Entry>

    /** Different monitors have different entries. */
    ghost predicate Valid()
      reads this
    {
      forall a, b :: a in reg && b in reg && reg[a] == reg[b] ==> a == b
    }

    ghost function StateOf(id: string): State
      reads this, reg.Values
    {
      if id in reg then reg[id].View() else FRESH
    }

    constructor ()
      ensures Valid() && reg == map[]
    {
      reg := map[];
    }

    method EntryOf(id: string) returns (e: Entry)
      requires Valid()
      modifies this
      ensures Valid() && id in reg && reg[id] == e && e.View() == old(StateOf(id))
      ensures id in old(reg) ==> reg == old(reg)
      ensures id !in old(reg) ==> fresh(e) && reg == old(reg)[id := e]
    {
      if id !in reg {
        e := new Entry();
        reg := reg[id := e];
      } else {
        e := reg[id];
      }
    }

    /** Every call and every step concerns one monitor and leaves all others alone. */
    method Handle(id: string, event: Event)
      requires Valid()
      modifies this, reg.Values
      ensures Valid()
      ensures forall m :: StateOf(m) == if m == id then Next(old(StateOf(id)), event) else old(StateOf(m))
    {
      var e := EntryOf(id);
      match event
      case PauseScan => e.Pause();
      case ResumeScan => e.Resume();
      case CancelScan => e.Cancel();
      case RunScan => e.Start();
      case Step(k, o) =>
        if k < |e.scans| {
          e.Proceed(k, o);
        }
    }
  }

  // ---------------------------------------------------------------------
  // All monitors together
  // ---------------------------------------------------------------------

  datatype Item = Item(id: string, event: Event)

  function StateIn(states: map<string, State>, id: string): State {
    if id in states then states[id] else FRESH
  }

  /** The states after a log of calls and steps of all monitors. */
  function AfterAll(states: map<string, State>, log: seq<Item>): map<string, State>
    decreases |log|
  {
    if log == [] then states
    else AfterAll(states[log[0].id := Next(StateIn(states, log[0].id), log[0].event)], log[1..])
  }

  function EventsOf(log: seq<Item>, id: string): seq<Event>
    decreases |log|
  {
    if log == [] then []
    else (if log[0].id == id then [log[0].event] else []) + EventsOf(log[1..], id)
  }

  /** Scans of different monitors do not interfere: a monitor's state depends only on
      its own events, in their order. */
  lemma {:induction false} MonitorsIndependent(states: map<string, State>, log: seq<Item>, id: string)
    ensures StateIn(AfterAll(states, log), id) == After(StateIn(states, id), EventsOf(log, id))
    decreases |log|
  {
    hide Next;
    if log != [] {
      var next := states[log[0].id := Next(StateIn(states, log[0].id), log[0].event)];
      MonitorsIndependent(next, log[1..], id);
      if log[0].id == id {
        AfterCons(StateIn(states, id), log[0].event, EventsOf(log[1..], id));
      } else {
        assert EventsOf(log, id) == EventsOf(log[1..], id);
      }
    }
  }
}
