/** The spool as a bounded queue, and what becomes of every payload put into it. */
module SpoolQueue {

  /** A spooled file: its payload, or one that can no longer be read. */
  datatype File = Data(payload: string) | Unreadable

  const MAX_ITEMS: nat := 5000

  function Excess(n: nat): nat {
    if n > MAX_ITEMS then n - MAX_ITEMS else 0
  }

  /** The newest items are kept. */
  function Push(items: seq<File>, x: File): seq<File> {
    (items + [x])[Excess(|items| + 1)..]
  }

  /** How many items a drain deals with, given the replies to its sends in order; a
      send without a reply fails. */
  function Drained(items: seq<File>, replies: seq<bool>): (p: nat)
    ensures p <= |items|
  {
    if items == [] then 0
    else match items[0]
      case Unreadable => 1 + Drained(items[1..], replies)
      case Data(_) => if replies != [] && replies[0] then 1 + Drained(items[1..], replies[1..]) else 0
  }

  function Payloads(items: seq<File>): seq<string> {
    if items == [] then []
    else (match items[0] case Data(x) => [x] case Unreadable => []) + Payloads(items[1..])
  }

  lemma {:induction false} PayloadsSplit(a: seq<File>, b: seq<File>)
    ensures Payloads(a + b) == Payloads(a) + Payloads(b)
  {
    if a == [] {
      assert a + b == b;
    } else {
      assert (a + b)[1..] == a[1..] + b && (a + b)[0] == a[0];
      PayloadsSplit(a[1..], b);
      var head := if a[0].Data? then [a[0].payload] else [];
      assert head + (Payloads(a[1..]) + Payloads(b)) == head + Payloads(a[1..]) + Payloads(b);
    }
  }

  /** A drain stops at the first payload that is refused, and only there: every
      payload before it was sent with success, in order. */
  lemma {:induction false} DrainedExactly(items: seq<File>, replies: seq<bool>)
    ensures var p := Drained(items, replies);
      var n := |Payloads(items[..p])|;
      && n <= |replies| && (forall i :: 0 <= i < n ==> replies[i])
      && (p < |items| ==> items[p].Data? && !(n < |replies| && replies[n]))
  {
    var p := Drained(items, replies);
    if p > 0 {
      assert items[..p][1..] == items[1..][..p - 1];
      DrainedExactly(items[1..], if items[0].Data? then replies[1..] else replies);
      if items[0].Data? {
        var n := |Payloads(items[..p])|;
        forall i | 0 <= i < n
          ensures i < |replies| && replies[i]
        {
          assert i > 0 ==> replies[1..][i - 1] == replies[i];
        }
        assert n < |replies| ==> replies[n] == replies[1..][n - 1];
      }
    }
  }

  // ---------------------------------------------------------------------
  // Runs
  // ---------------------------------------------------------------------

  /** `Spoil` makes a queued file unreadable; it happens to the spool, not by it. */
  datatype Op = Put(payload: string) | Drain(replies: seq<bool>) | Spoil(at: nat)

  datatype Fate = Queued | Sent | Lost | Trimmed

  /** `log` has every payload ever put, with its fate; `sent` what was delivered. */
  datatype History = History(items: seq<File>, log: seq<string>, fates: seq<Fate>, sent: seq<string>)

  const NOTHING := History([], [], [], [])

  function Gone(h: History): int {
    |h.log| - |h.items|
  }

  function FateOf(f: File): Fate {
    if f.Data? then Sent else Lost
  }

  /** The fates after the first `n` queued items have met theirs. */
  function Settle(fates: seq<Fate>, from: int, items: seq<File>, n: nat, trimmed: bool): (r: seq<Fate>)
    ensures |r| == |fates|
  {
    seq(|fates|, i requires 0 <= i < |fates| =>
      if from <= i < from + n && i - from < |items| then (if trimmed then Trimmed else FateOf(items[i - from]))
      else fates[i])
  }

  function Next(h: History, op: Op): History {
    match op
    case Put(x) =>
      var items := h.items + [Data(x)];
      History(Push(h.items, Data(x)), h.log + [x],
              Settle(h.fates + [Queued], Gone(h), items, Excess(|items|), true), h.sent)
    case Drain(replies) =>
      var p := Drained(h.items, replies);
      History(h.items[p..], h.log, Settle(h.fates, Gone(h), h.items, p, false), h.sent + Payloads(h.items[..p]))
    case Spoil(i) => if i < |h.items| then h.(items := h.items[i := Unreadable]) else h
  }

  function After(h: History, ops: seq<Op>): History
    decreases |ops|
  {
    if ops == [] then h else After(Next(h, ops[0]), ops[1..])
  }

  /** The payloads with the fate `Sent`, in the order they were put. */
  function Delivered(log: seq<string>, fates: seq<Fate>): seq<string>
    requires |log| == |fates|
  {
    if log == [] then []
    else (if fates[0] == Sent then [log[0]] else []) + Delivered(log[1..], fates[1..])
  }

  /** Every payload has one fate. The queued ones are the latest, in order; the others
      have been delivered in order, were dropped because their files had become
      unreadable, or had at least MAX_ITEMS newer ones after them. */
  ghost predicate Accounted(h: History) {
    Fated(h) && h.sent == Delivered(h.log, h.fates)
  }

  ghost predicate Fated(h: History) {
    && |h.fates| == |h.log| && 0 <= Gone(h) && |h.items| <= MAX_ITEMS
    && (forall i :: 0 <= i < |h.log| ==> (h.fates[i] == Queued <==> i >= Gone(h)))
    && (forall j :: 0 <= j < |h.items| ==> h.items[j] == Data(h.log[Gone(h) + j]) || h.items[j] == Unreadable)
    && (forall i :: 0 <= i < |h.log| && h.fates[i] == Trimmed ==> i + MAX_ITEMS < |h.log|)
  }

  lemma {:induction false} DeliveredSplit(a: seq<string>, f: seq<Fate>, b: seq<string>, g: seq<Fate>)
    requires |a| == |f| && |b| == |g|
    ensures Delivered(a + b, f + g) == Delivered(a, f) + Delivered(b, g)
  {
    if a == [] {
      assert a + b == b && f + g == g;
    } else {
      assert (a + b)[1..] == a[1..] + b && (f + g)[1..] == f[1..] + g;
      assert (a + b)[0] == a[0] && (f + g)[0] == f[0];
      DeliveredSplit(a[1..], f[1..], b, g);
      var head := if f[0] == Sent then [a[0]] else [];
      assert head + (Delivered(a[1..], f[1..]) + Delivered(b, g)) == head + Delivered(a[1..], f[1..]) + Delivered(b, g);
    }
  }

  lemma {:induction false} NoneDelivered(a: seq<string>, f: seq<Fate>)
    requires |a| == |f| && forall i :: 0 <= i < |f| ==> f[i] != Sent
    ensures Delivered(a, f) == []
  {
    if a != [] {
      NoneDelivered(a[1..], f[1..]);
    }
  }

  lemma {:induction false} DeliveredArePayloads(items: seq<File>, a: seq<string>, f: seq<Fate>)
    requires |items| == |a| == |f|
    requires forall j :: 0 <= j < |items| ==> items[j] in {Data(a[j]), Unreadable} && f[j] == FateOf(items[j])
    ensures Delivered(a, f) == Payloads(items)
  {
    if items != [] {
      DeliveredArePayloads(items[1..], a[1..], f[1..]);
    }
  }

  /** Only the first `n` queued payloads change their fate. */
  lemma SettleDelivers(log: seq<string>, fates: seq<Fate>, from: nat, items: seq<File>, n: nat, trimmed: bool)
    requires |log| == |fates| && from + n <= |log| && n <= |items|
    requires forall i :: from <= i < |log| ==> fates[i] == Queued
    requires forall j :: 0 <= j < n ==> items[j] == Data(log[from + j]) || items[j] == Unreadable
    ensures Delivered(log, Settle(fates, from, items, n, trimmed)) ==
            Delivered(log, fates) + if trimmed then [] else Payloads(items[..n])
  {
    hide Delivered, Payloads, Settle;
    var mid := SettledAt(fates, from, items, n, trimmed);
    MiddleDelivers(log, fates, from, n, Settle(fates, from, items, n, trimmed), mid);
    if trimmed {
      NoneDelivered(log[from..from + n], mid);
    } else {
      DeliveredArePayloads(items[..n], log[from..from + n], mid);
    }
  }

  lemma MiddleDelivers(log: seq<string>, f: seq<Fate>, from: nat, n: nat, g: seq<Fate>, mid: seq<Fate>)
    requires |log| == |f| && from + n <= |log| && |mid| == n
    requires forall i :: from <= i < |log| ==> f[i] == Queued
    requires g == f[..from] + mid + f[from + n..]
    ensures Delivered(log, g) == Delivered(log, f) + Delivered(log[from..from + n], mid)
  {
    hide Delivered;
    Cut(log, from, n);
    Cut(f, from, n);
    MiddleChanged(log[..from], f[..from], log[from..from + n], f[from..from + n], mid, log[from + n..], f[from + n..]);
  }

  lemma Cut<T>(s: seq<T>, from: nat, n: nat)
    requires from + n <= |s|
    ensures s == s[..from] + s[from..from + n] + s[from + n..]
  {
  }

  lemma MiddleChanged(a: seq<string>, f: seq<Fate>, b: seq<string>, g: seq<Fate>, mid: seq<Fate>,
                      c: seq<string>, h: seq<Fate>)
    requires |a| == |f| && |b| == |g| == |mid| && |c| == |h|
    requires forall i :: 0 <= i < |g| ==> g[i] == Queued
    requires forall i :: 0 <= i < |h| ==> h[i] == Queued
    ensures Delivered(a + b + c, f + mid + h) == Delivered(a + b + c, f + g + h) + Delivered(b, mid)
  {
    hide Delivered;
    Pieces(a, f, b, g, c, h);
    Pieces(a, f, b, mid, c, h);
    NoneDelivered(b, g);
    NoneDelivered(c, h);
    NothingAfter(Delivered(a, f), Delivered(b, mid));
  }

  lemma NothingAfter<T>(x: seq<T>, y: seq<T>)
    ensures x + [] + [] == x && x + y + [] == x + y
  {
  }

  lemma SettledAt(fates: seq<Fate>, from: nat, items: seq<File>, n: nat, trimmed: bool) returns (mid: seq<Fate>)
    requires from + n <= |fates| && n <= |items|
    ensures Settle(fates, from, items, n, trimmed) == fates[..from] + mid + fates[from + n..]
    ensures |mid| == n && forall j :: 0 <= j < n ==> mid[j] == if trimmed then Trimmed else FateOf(items[j])
  {
    var all := Settle(fates, from, items, n, trimmed);
    mid := all[from..from + n];
    assert all[..from] == fates[..from] && all[from + n..] == fates[from + n..];
    assert all == all[..from] + mid + all[from + n..];
    forall j | 0 <= j < n
      ensures mid[j] == if trimmed then Trimmed else FateOf(items[j])
    {
      assert mid[j] == all[from + j];
    }
  }

  lemma Pieces(a: seq<string>, f: seq<Fate>, b: seq<string>, g: seq<Fate>, c: seq<string>, h: seq<Fate>)
    requires |a| == |f| && |b| == |g| && |c| == |h|
    ensures Delivered(a + b + c, f + g + h) == Delivered(a, f) + Delivered(b, g) + Delivered(c, h)
  {
    hide Delivered;
    DeliveredSplit(a + b, f + g, c, h);
    DeliveredSplit(a, f, b, g);
  }

  lemma PutFated(h: History, x: string)
    requires Fated(h)
    ensures Fated(Next(h, Put(x)))
  {
    hide Delivered, Payloads;
    assert Gone(Next(h, Put(x))) == Gone(h) + Excess(|h.items| + 1);
  }

  lemma PutAccounted(h: History, x: string)
    requires Accounted(h)
    ensures Accounted(Next(h, Put(x)))
  {
    hide Settle, Delivered, Payloads;
    PutFated(h, x);
    NoneDelivered([x], [Queued]);
    DeliveredSplit(h.log, h.fates, [x], [Queued]);
    SettleDelivers(h.log + [x], h.fates + [Queued], Gone(h), h.items + [Data(x)], Excess(|h.items| + 1), true);
  }

  lemma DrainFated(h: History, replies: seq<bool>)
    requires Fated(h)
    ensures Fated(Next(h, Drain(replies)))
  {
    hide Delivered, Payloads;
    var t := Next(h, Drain(replies));
    var p := Drained(h.items, replies);
    assert t.items == h.items[p..] && t.log == h.log;
    assert Gone(t) == Gone(h) + p;
    forall i | 0 <= i < |t.log|
      ensures t.fates[i] == if Gone(h) <= i < Gone(t) then FateOf(h.items[i - Gone(h)]) else h.fates[i]
    {
    }
  }

  lemma DrainAccounted(h: History, replies: seq<bool>)
    requires Accounted(h)
    ensures Accounted(Next(h, Drain(replies)))
  {
    hide Settle, Delivered, Payloads, Drained;
    DrainFated(h, replies);
    SettleDelivers(h.log, h.fates, Gone(h), h.items, Drained(h.items, replies), false);
  }

  /** After any run every payload is accounted for. */
  lemma {:induction false} EveryPayloadAccounted(h: History, ops: seq<Op>)
    requires Accounted(h)
    ensures Accounted(After(h, ops))
    decreases |ops|
  {
    hide Accounted, Next;
    if ops != [] {
      NextAccounted(h, ops[0]);
      EveryPayloadAccounted(Next(h, ops[0]), ops[1..]);
    }
  }

  lemma NextAccounted(h: History, op: Op)
    requires Accounted(h)
    ensures Accounted(Next(h, op))
  {
    match op
    case Put(x) => PutAccounted(h, x);
    case Drain(replies) => DrainAccounted(h, replies);
    case Spoil(_) =>
  }

  ghost predicate NoSpoil(ops: seq<Op>) {
    forall i :: 0 <= i < |ops| ==> !ops[i].Spoil?
  }

  ghost predicate Intact(h: History) {
    (forall i :: 0 <= i < |h.fates| ==> h.fates[i] != Lost) && (forall j :: 0 <= j < |h.items| ==> h.items[j].Data?)
  }

  lemma IntactNext(h: History, op: Op)
    requires Intact(h) && !op.Spoil?
    ensures Intact(Next(h, op))
  {
    hide Payloads;
    if op.Drain? {
      var t := Next(h, op);
      var p := Drained(h.items, op.replies);
      forall i | 0 <= i < |h.fates|
        ensures t.fates[i] != Lost
      {
        assert t.fates[i] == (if Gone(h) <= i < Gone(h) + p then FateOf(h.items[i - Gone(h)]) else h.fates[i]);
      }
    }
  }

  lemma {:induction false} IntactAfter(h: History, ops: seq<Op>)
    requires Intact(h) && NoSpoil(ops)
    ensures Intact(After(h, ops))
    decreases |ops|
  {
    hide Intact, Next;
    if ops != [] {
      IntactNext(h, ops[0]);
      IntactAfter(Next(h, ops[0]), ops[1..]);
    }
  }

  /** While no more than MAX_ITEMS payloads have been put and no file is spoiled,
      nothing is ever lost: what was delivered, followed by what is queued, is what
      was put. */
  lemma Lossless(ops: seq<Op>)
    requires NoSpoil(ops) && |After(NOTHING, ops).log| <= MAX_ITEMS
    ensures var h := After(NOTHING, ops); h.sent + Payloads(h.items) == h.log
  {
    hide After;
    EveryPayloadAccounted(NOTHING, ops);
    IntactAfter(NOTHING, ops);
    var h := After(NOTHING, ops);
    LosslessState(h);
  }

  lemma LosslessState(h: History)
    requires Accounted(h) && Intact(h) && |h.log| <= MAX_ITEMS
    ensures h.sent + Payloads(h.items) == h.log
  {
    hide Delivered, Payloads;
    var g := Gone(h);
    assert h.log == h.log[..g] + h.log[g..] && h.fates == h.fates[..g] + h.fates[g..];
    DeliveredSplit(h.log[..g], h.fates[..g], h.log[g..], h.fates[g..]);
    AllDelivered(h.log[..g], h.fates[..g]);
    NoneDelivered(h.log[g..], h.fates[g..]);
    AllPayloads(h.items, h.log[g..]);
  }

  lemma {:induction false} AllDelivered(a: seq<string>, f: seq<Fate>)
    requires |a| == |f| && forall i :: 0 <= i < |f| ==> f[i] == Sent
    ensures Delivered(a, f) == a
  {
    if a != [] {
      AllDelivered(a[1..], f[1..]);
    }
  }

  lemma {:induction false} AllPayloads(items: seq<File>, a: seq<string>)
    requires |items| == |a| && forall j :: 0 <= j < |items| ==> items[j] == Data(a[j])
    ensures Payloads(items) == a
  {
    if a != [] {
      AllPayloads(items[1..], a[1..]);
    }
  }
}
