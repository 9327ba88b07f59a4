/** Whole runs of the spool directory against the bounded queue. */
module SpoolRuns {
  import Order = StringOrder
  import Queue = SpoolQueue
  import opened Spool

  /** `Spoil` makes the queued file at a position unreadable. */
  datatype Call =
    | Enqueue(data: string, now: nat, written: bool)
    | Drain(replies: seq<bool>)
    | Spoil(at: nat)

  ghost function Next(d: Disk, call: Call): Disk {
    match call
    case Enqueue(data, now, written) => Enqueued(d, data, now, written)
    case Drain(replies) => DrainedTo(d, replies)
    case Spoil(at) =>
      if at < |Names(d.dir)| then d.(dir := d.dir[Names(d.dir)[at] := File(Queue.Unreadable)]) else d
  }

  ghost function After(d: Disk, calls: seq<Call>): Disk
    decreases |calls|
  {
    if calls == [] then d else After(Next(d, calls[0]), calls[1..])
  }

  /** All that the drains of a run deliver. */
  ghost function Delivered(d: Disk, calls: seq<Call>): seq<string>
    decreases |calls|
  {
    if calls == [] then []
    else
      var items := Items(d.dir);
      (if calls[0].Drain? then Queue.Payloads(items[..Queue.Drained(items, calls[0].replies)]) else [])
      + Delivered(Next(d, calls[0]), calls[1..])
  }

  /** What a call means for the queue: a failed write means nothing. */
  ghost function OpOf(d: Disk, call: Call): seq<Queue.Op> {
    match call
    case Enqueue(data, now, written) => if Writes(d, now, written) then [Queue.Put(data)] else []
    case Drain(replies) => [Queue.Drain(replies)]
    case Spoil(at) => [Queue.Spoil(at)]
  }

  ghost function OpsOf(d: Disk, calls: seq<Call>): seq<Queue.Op>
    decreases |calls|
  {
    if calls == [] then [] else OpOf(d, calls[0]) + OpsOf(Next(d, calls[0]), calls[1..])
  }

  /** Every stamp of the run comes in order. */
  ghost predicate InOrderRun(d: Disk, calls: seq<Call>)
    decreases |calls|
  {
    calls == [] ||
    ((calls[0].Enqueue? ==> calls[0].now < CLOCK_LIMIT && InOrder(d, calls[0].now)) &&
     InOrderRun(Next(d, calls[0]), calls[1..]))
  }

  lemma SpoilItems(d: Disk, at: nat)
    requires Ordered(d)
    ensures Ordered(Next(d, Spoil(at)))
    ensures Items(Next(d, Spoil(at)).dir) ==
      if at < |Items(d.dir)| then Items(d.dir)[at := Queue.Unreadable] else Items(d.dir)
  {
    hide Listed, Names, Order.Less, FileName;
    if at < |Names(d.dir)| {
      ItemAt(d.dir, at);
      SpoilNames(d.dir, at);
      SpoilAt(d.dir, at);
    }
  }

  lemma SpoilNames(dir: Dir, at: nat)
    requires at < |Names(dir)|
    ensures var next := dir[Names(dir)[at] := File(Queue.Unreadable)];
      Names(next) == Names(dir) && forall y :: Listed(next, y) <==> Listed(dir, y)
  {
    hide Listed;
    var names := Names(dir);
    assert names[at] in names;
    SameListed(dir, names[at]);
    NamesAre(dir[names[at] := File(Queue.Unreadable)], names);
  }

  lemma SpoilAt(dir: Dir, at: nat)
    requires at < |Names(dir)|
    ensures Items(dir[Names(dir)[at] := File(Queue.Unreadable)]) == Items(dir)[at := Queue.Unreadable]
  {
    hide Listed, Names, Items;
    var names, next := Names(dir), dir[Names(dir)[at] := File(Queue.Unreadable)];
    SpoilNames(dir, at);
    forall i: nat | i < |names|
      ensures Items(next)[i] == if i == at then Queue.Unreadable else Items(dir)[i]
    {
      ItemAt(dir, i);
      ItemAt(next, i);
      DistinctNames(names, i, at);
    }
  }

  lemma SameListed(dir: Dir, name: string)
    requires Listed(dir, name)
    ensures forall y :: Listed(dir[name := File(Queue.Unreadable)], y) <==> Listed(dir, y)
  {
  }

  lemma DistinctNames(names: seq<string>, i: nat, j: nat)
    requires Order.Ascending(names) && i < |names| && j < |names|
    ensures i != j ==> names[i] != names[j]
  {
    Order.LessTotal(names[i], names[j]);
  }

  /** One call on the directory is its operation on the queue. */
  lemma NextRefines(d: Disk, h: Queue.History, call: Call)
    requires Ordered(d) && d.clock < CLOCK_LIMIT && Items(d.dir) == h.items
    requires call.Enqueue? ==> call.now < CLOCK_LIMIT && InOrder(d, call.now)
    ensures var t, g := Next(d, call), Queue.After(h, OpOf(d, call));
      && Ordered(t) && t.clock < CLOCK_LIMIT && Items(t.dir) == g.items
      && g.sent == h.sent + if call.Drain? then Queue.Payloads(h.items[..Queue.Drained(h.items, call.replies)]) else []
  {
    hide Ordered, InOrder, Items, Enqueued, DrainedTo, Names, Queue.Drained, Queue.Payloads, Queue.Settle;
    match call
    case Enqueue(data, now, written) =>
      EnqueuePushes(d, data, now, written);
      EnqueuedClock(d, data, now, written);
      AfterOne(h, Queue.Put(data));
    case Drain(replies) =>
      DrainKeeps(d, replies);
      DrainedClock(d, replies);
      AfterOne(h, Queue.Drain(replies));
    case Spoil(at) =>
      SpoilItems(d, at);
      AfterOne(h, Queue.Spoil(at));
  }

  lemma EnqueuedClock(d: Disk, data: string, now: nat, written: bool)
    ensures Enqueued(d, data, now, written).clock == now
  {
  }

  lemma DrainedClock(d: Disk, replies: seq<bool>)
    ensures DrainedTo(d, replies).clock == d.clock
  {
  }

  lemma AfterOne(h: Queue.History, op: Queue.Op)
    ensures Queue.After(h, [op]) == Queue.Next(h, op)
  {
    assert [op][1..] == [];
  }

  lemma {:induction false} AfterJoined(h: Queue.History, a: seq<Queue.Op>, b: seq<Queue.Op>)
    ensures Queue.After(h, a + b) == Queue.After(Queue.After(h, a), b)
    decreases |a|
  {
    hide Queue.Next;
    if a == [] {
      assert a + b == b;
    } else {
      assert (a + b)[1..] == a[1..] + b;
      AfterJoined(Queue.Next(h, a[0]), a[1..], b);
    }
  }

  /** Over any run with stamps in order, the directory holds what the bounded queue
      holds after the same operations, and has delivered what the queue has. */
  lemma {:induction false} DirectoryIsQueue(d: Disk, h: Queue.History, calls: seq<Call>)
    requires Ordered(d) && d.clock < CLOCK_LIMIT && Items(d.dir) == h.items && InOrderRun(d, calls)
    ensures var g := Queue.After(h, OpsOf(d, calls));
      Items(After(d, calls).dir) == g.items && h.sent + Delivered(d, calls) == g.sent
    decreases |calls|
  {
    hide Ordered, InOrder, Items, Next, OpOf, Queue.Drained, Queue.Payloads, Queue.After;
    if calls == [] {
      NoOps(h);
    } else {
      var t, ops := Next(d, calls[0]), OpOf(d, calls[0]);
      var g := Queue.After(h, ops);
      NextRefines(d, h, calls[0]);
      DirectoryIsQueue(t, g, calls[1..]);
      AfterJoined(h, ops, OpsOf(t, calls[1..]));
    }
  }

  lemma NoOps(h: Queue.History)
    ensures Queue.After(h, []) == h
  {
  }

  /** So every payload written into an empty directory is accounted for. */
  lemma DirectoryAccounted(d: Disk, calls: seq<Call>)
    requires Ordered(d) && d.clock < CLOCK_LIMIT && Items(d.dir) == [] && InOrderRun(d, calls)
    ensures var g := Queue.After(Queue.NOTHING, OpsOf(d, calls));
      Queue.Accounted(g) && Items(After(d, calls).dir) == g.items && Delivered(d, calls) == g.sent
  {
    hide Ordered, InOrderRun, Items, After, OpsOf, Delivered, Queue.After, Queue.Fated;
    DirectoryIsQueue(d, Queue.NOTHING, calls);
    EmptyAccounted();
    Queue.EveryPayloadAccounted(Queue.NOTHING, OpsOf(d, calls));
  }

  lemma EmptyAccounted()
    ensures Queue.Accounted(Queue.NOTHING)
  {
  }
}
