/** The spool directory: one file per payload, named by time and sequence number so
    that the order of the names is the order of the payloads. */
module Spool {
  import opened Decimal
  import opened SpoolQueue
  import opened StringOrder

  datatype Entry = File(file: File) | Folder

  type Dir = map<string, Entry>

  const EXTENSION := ".json"

  /** `now` is the clock in nanoseconds, which fits 63 bits. */
  function FileName(now: nat, number: nat): string {
    Pad(now, 20) + ("-" + (Pad(number, 6) + EXTENSION))
  }

  predicate Listed(dir: Dir, name: string) {
    name in dir && dir[name].File? && |name| >= |EXTENSION| && name[|name| - |EXTENSION|..] == EXTENSION
  }

  // ---------------------------------------------------------------------
  // The order of the names
  // ---------------------------------------------------------------------

  const CLOCK_LIMIT: nat := 0x8000_0000_0000_0000

  lemma Pow10Values()
    ensures Pow10(6) == 1_000_000 && Pow10(20) > CLOCK_LIMIT
  {
    assert Pow10(3) == 1000;
    assert Pow10(6) == 1000 * Pow10(3);
    assert Pow10(9) == 1000 * Pow10(6);
    assert Pow10(12) == 1000 * Pow10(9);
    assert Pow10(15) == 1000 * Pow10(12);
    assert Pow10(18) == 1000 * Pow10(15);
    assert Pow10(20) == 100 * Pow10(18);
  }

  /** The clock decides; on the same reading, the numerals of the sequence numbers. */
  lemma NameOrder(t: nat, s: nat, t': nat, s': nat)
    requires t < CLOCK_LIMIT && t' < CLOCK_LIMIT
    ensures Less(FileName(t, s), FileName(t', s')) <==>
            t < t' || (t == t' && Less(Pad(s, 6) + EXTENSION, Pad(s', 6) + EXTENSION))
  {
    hide Pad, Pow10, Less;
    Pow10Values();
    PadWidth(t, 20);
    PadWidth(t', 20);
    PadOrder(t, t', 20);
    LessConcat(Pad(t, 20), Pad(t', 20), "-" + (Pad(s, 6) + EXTENSION), "-" + (Pad(s', 6) + EXTENSION));
    LessConcat("-", "-", Pad(s, 6) + EXTENSION, Pad(s', 6) + EXTENSION);
    LessTotal("-", "-");
    if Pad(t, 20) == Pad(t', 20) {
      PadInjective(t, t', 20);
    }
  }

  /** Sequence numbers of the same width are in order. */
  lemma SameWidth(s: nat, s': nat, w: nat)
    requires w >= 6 && |Pad(s, 6)| == |Pad(s', 6)| == w
    ensures Less(Pad(s, 6) + EXTENSION, Pad(s', 6) + EXTENSION) <==> s < s'
  {
    hide Less;
    NumeralOrder(Pad(s, 6), Pad(s', 6));
    NumberOfPad(s, 6);
    NumberOfPad(s', 6);
    LessConcat(Pad(s, 6), Pad(s', 6), EXTENSION, EXTENSION);
    LessTotal(EXTENSION, EXTENSION);
  }

  /** Below a million the names are ordered by time, then by sequence number. */
  lemma StampOrder(t: nat, s: nat, t': nat, s': nat)
    requires t < CLOCK_LIMIT && t' < CLOCK_LIMIT && s < 1_000_000 && s' < 1_000_000
    ensures Less(FileName(t, s), FileName(t', s')) <==> t < t' || (t == t' && s < s')
  {
    hide Less, Pad, FileName;
    NameOrder(t, s, t', s');
    Pow10Values();
    PadWidth(s, 6);
    PadWidth(s', 6);
    SameWidth(s, s', 6);
  }

  /** `n` is a power of ten with more than six digits. */
  ghost predicate Rollover(n: nat) {
    exists w: nat :: w >= 6 && n == Pow10(w)
  }

  lemma {:induction false} DigitsOfPow10(w: nat)
    ensures Digits(Pow10(w))[0] == '1' && |Digits(Pow10(w))| == w + 1
    ensures w > 0 ==> Digits(Pow10(w) - 1)[0] == '9' && |Digits(Pow10(w) - 1)| == w
  {
    if w > 0 {
      DigitsOfPow10(w - 1);
      assert Pow10(w) / 10 == Pow10(w - 1);
      if w > 1 {
        assert (Pow10(w) - 1) / 10 == Pow10(w - 1) - 1;
      }
    }
  }

  /** The next sequence number is as wide as the last one, except at a rollover. */
  lemma {:induction false} NextWidth(s: nat)
    ensures |Digits(s + 1)| == |Digits(s)| || s + 1 == Pow10(|Digits(s)|)
  {
    var w := |Digits(s)|;
    DigitsBound(s, w);
    DigitsBound(s + 1, w);
    if s + 1 < Pow10(w) && w > 1 {
      DigitsBound(s, w - 1);
      DigitsBound(s + 1, w - 1);
    }
  }

  lemma PadWide(s: nat)
    ensures |Pad(s, 6)| == (if |Digits(s)| > 6 then |Digits(s)| else 6)
    ensures |Digits(s)| >= 6 ==> Pad(s, 6) == Digits(s)
  {
  }

  /** The next file is ordered after the last one exactly when the clock has gone on,
      or stands still while the sequence number does not roll over to a seventh or
      later digit. */
  lemma NextStamp(t: nat, s: nat, t': nat)
    requires t < CLOCK_LIMIT && t' < CLOCK_LIMIT
    ensures Less(FileName(t, s), FileName(t', s + 1)) <==> t < t' || (t == t' && !Rollover(s + 1))
    ensures Less(FileName(t', s + 1), FileName(t, s)) <==> t' < t || (t == t' && Rollover(s + 1))
  {
    hide Less, Pad, FileName, Pow10, Digits;
    NameOrder(t, s, t', s + 1);
    NameOrder(t', s + 1, t, s);
    NextNumeral(s);
  }

  lemma NextNumeral(s: nat)
    ensures Less(Pad(s, 6) + EXTENSION, Pad(s + 1, 6) + EXTENSION) <==> !Rollover(s + 1)
    ensures Less(Pad(s + 1, 6) + EXTENSION, Pad(s, 6) + EXTENSION) <==> Rollover(s + 1)
  {
    hide Less, Pad, Pow10, Digits;
    NextWidth(s);
    PadWide(s);
    PadWide(s + 1);
    if Rollover(s + 1) {
      var w: nat :| w >= 6 && s + 1 == Pow10(w);
      DigitsOfPow10(w);
      FirstCharDecides(Pad(s + 1, 6) + EXTENSION, Pad(s, 6) + EXTENSION);
    } else {
      PowerIsRollover(s + 1, |Digits(s)|);
      if |Digits(s + 1)| != |Digits(s)| {
        DigitsOfPow10(|Digits(s)|);
      }
      SameWidth(s, s + 1, |Pad(s, 6)|);
      SameWidth(s + 1, s, |Pad(s, 6)|);
    }
  }

  /** On one clock reading the millionth file comes before the one written before it. */
  lemma MillionthSortsFirst(t: nat)
    requires t < CLOCK_LIMIT
    ensures Less(FileName(t, 1_000_000), FileName(t, 999_999))
  {
    hide Less, FileName;
    Pow10Values();
    PowerIsRollover(1_000_000, 6);
    NextStamp(t, 999_999, t);
  }

  lemma PowerIsRollover(n: nat, w: nat)
    ensures n == Pow10(w) && w >= 6 ==> Rollover(n)
  {
  }

  lemma FirstCharDecides(a: string, b: string)
    requires a != "" && b != "" && a[0] < b[0]
    ensures Less(a, b) && !Less(b, a)
  {
  }

  // ---------------------------------------------------------------------
  // Listings
  // ---------------------------------------------------------------------

  ghost function SortNames(names: set<string>): (r: seq<string>)
    ensures Ascending(r) && forall y :: y in r <==> y in names
  {
    if names == {} then []
    else
      var x :| x in names;
      InsertAscends(SortNames(names - {x}), x);
      InsertName(SortNames(names - {x}), x)
  }

  ghost function Names(dir: Dir): (r: seq<string>)
    ensures Ascending(r) && forall y :: y in r <==> Listed(dir, y)
  {
    SortNames(set y | y in dir && Listed(dir, y))
  }

  lemma NamesAre(dir: Dir, names: seq<string>)
    requires Ascending(names) && forall y :: y in names <==> Listed(dir, y)
    ensures Names(dir) == names
  {
    AscendingUnique(Names(dir), names);
  }

  /** The queue: the listed files, oldest first. */
  ghost function Items(dir: Dir): (r: seq<File>)
    ensures |r| == |Names(dir)|
  {
    seq(|Names(dir)|, i requires 0 <= i < |Names(dir)| => assert Names(dir)[i] in Names(dir); dir[Names(dir)[i]].file)
  }

  /** The directory without its first `n` listed files. */
  ghost function Without(dir: Dir, n: nat): Dir
    requires n <= |Names(dir)|
  {
    map y | y in dir && y !in Names(dir)[..n] :: dir[y]
  }

  lemma WithoutNames(dir: Dir, n: nat)
    requires n <= |Names(dir)|
    ensures Names(Without(dir, n)) == Names(dir)[n..]
  {
    var names := Names(dir);
    forall y
      ensures y in names[n..] <==> Listed(Without(dir, n), y)
    {
      AscendingCut(names, n, y);
    }
    NamesAre(Without(dir, n), names[n..]);
  }

  lemma AscendingCut(names: seq<string>, n: nat, y: string)
    requires Ascending(names) && n <= |names|
    ensures y in names[n..] <==> y in names && y !in names[..n]
  {
    assert names == names[..n] + names[n..];
    if y in names[..n] && y in names[n..] {
      var i :| 0 <= i < n && names[..n][i] == y;
      var j :| 0 <= j < |names| - n && names[n..][j] == y;
      assert Less(names[i], names[n + j]);
      LessTotal(y, y);
      assert false;
    }
  }

  lemma ItemAt(dir: Dir, i: nat)
    requires i < |Names(dir)|
    ensures Names(dir)[i] in dir && dir[Names(dir)[i]] == File(Items(dir)[i])
  {
    assert Names(dir)[i] in Names(dir);
  }

  lemma WithoutItems(dir: Dir, n: nat)
    requires n <= |Names(dir)|
    ensures Items(Without(dir, n)) == Items(dir)[n..]
  {
    hide Names, Items, Listed, Ascending;
    WithoutNames(dir, n);
    var names := Names(dir);
    forall i: nat | i < |names| - n
      ensures Items(Without(dir, n))[i] == Items(dir)[n + i]
    {
      assert names[n..][i] == names[n + i];
      ItemAt(dir, n + i);
      ItemAt(Without(dir, n), i);
    }
  }

  lemma AddName(dir: Dir, name: string, file: File)
    requires Listed(map[name := File(file)], name)
    requires forall y :: Listed(dir, y) ==> Less(y, name)
    ensures name !in Names(dir) && Names(dir[name := File(file)]) == Names(dir) + [name]
  {
    hide Names, Less, Ascending;
    var names := Names(dir);
    LessTotal(name, name);
    forall i | 0 <= i < |names|
      ensures Less(names[i], name)
    {
      assert names[i] in names;
    }
    AppendAscends(names, name);
    forall y
      ensures y in names + [name] <==> Listed(dir[name := File(file)], y)
    {
      assert y in names <==> Listed(dir, y);
    }
    NamesAre(dir[name := File(file)], names + [name]);
  }

  /** A file ordered after all others becomes the newest item. */
  lemma AddItem(dir: Dir, name: string, file: File)
    requires Listed(map[name := File(file)], name)
    requires forall y :: Listed(dir, y) ==> Less(y, name)
    ensures Items(dir[name := File(file)]) == Items(dir) + [file]
  {
    hide Names, Less, Listed, Items;
    var names, next := Names(dir), dir[name := File(file)];
    AddName(dir, name, file);
    ItemAt(next, |names|);
    forall i: nat | i < |names|
      ensures Items(next)[i] == Items(dir)[i]
    {
      ItemAt(dir, i);
      ItemAt(next, i);
      assert names[i] in names && (names + [name])[i] == names[i];
    }
  }

  // ---------------------------------------------------------------------
  // Specification of the operations
  // ---------------------------------------------------------------------

  /** The directory, the latest sequence number and the clock of the latest enqueue. */
  datatype Disk = Disk(dir: Dir, number: nat, clock: nat)

  /** Every queued file is at most as new as the latest stamp. */
  ghost predicate Ordered(d: Disk) {
    forall y :: Listed(d.dir, y) ==> y == FileName(d.clock, d.number) || Less(y, FileName(d.clock, d.number))
  }

  /** The clock has moved on, or stands still and the number does not roll over. */
  ghost predicate InOrder(d: Disk, now: nat) {
    d.clock < now || (d.clock == now && !Rollover(d.number + 1))
  }

  /** The directory without the files beyond the newest MAX_ITEMS. */
  ghost function Newest(dir: Dir): Dir {
    Without(dir, Excess(|Names(dir)|))
  }

  /** Writing over a folder fails. */
  predicate Writes(d: Disk, now: nat, written: bool) {
    var name := FileName(now, d.number + 1);
    written && !(name in d.dir && d.dir[name].Folder?)
  }

  ghost function Enqueued(d: Disk, data: string, now: nat, written: bool): Disk {
    Disk(if Writes(d, now, written) then Newest(d.dir[FileName(now, d.number + 1) := File(Data(data))]) else d.dir,
         d.number + 1, now)
  }

  ghost function DrainedTo(d: Disk, replies: seq<bool>): Disk {
    d.(dir := Without(d.dir, Drained(Items(d.dir), replies)))
  }

  /** With its stamp in order, a payload becomes the newest item of the bounded queue. */
  lemma EnqueuePushes(d: Disk, data: string, now: nat, written: bool)
    requires Ordered(d) && InOrder(d, now) && now < CLOCK_LIMIT && d.clock < CLOCK_LIMIT
    ensures var after := Enqueued(d, data, now, written);
      && Ordered(after)
      && Items(after.dir) == if Writes(d, now, written) then Push(Items(d.dir), Data(data)) else Items(d.dir)
  {
    hide Less, FileName, Names, Items, Ascending, Rollover, Listed, Without;
    StampFollows(d.dir, d.clock, d.number, now);
    if Writes(d, now, written) {
      var name := FileName(now, d.number + 1);
      var full := d.dir[name := File(Data(data))];
      ExtensionListed(now, d.number + 1, Data(data));
      AddItem(d.dir, name, Data(data));
      ListedAdded(d.dir, name, Data(data));
      assert |Names(full)| == |Items(d.dir)| + 1;
      WithoutItems(full, Excess(|Names(full)|));
      WithoutListed(full, Excess(|Names(full)|));
      forall y | Listed(Newest(full), y)
        ensures y == name || Less(y, name)
      {
        assert Listed(full, y);
      }
    }
  }

  /** A drain keeps the order, and exactly the items it did not deal with. */
  lemma DrainKeeps(d: Disk, replies: seq<bool>)
    ensures Items(DrainedTo(d, replies).dir) == Items(d.dir)[Drained(Items(d.dir), replies)..]
    ensures Ordered(d) ==> Ordered(DrainedTo(d, replies))
  {
    hide Less, FileName, Items, Listed, Without;
    WithoutItems(d.dir, Drained(Items(d.dir), replies));
    WithoutListed(d.dir, Drained(Items(d.dir), replies));
  }

  // ---------------------------------------------------------------------
  // The program
  // ---------------------------------------------------------------------

  class Spool {
    var dir: Dir
    var number: nat
    /** The clock reading of the latest enqueue. */
    ghost var clock: nat

    ghost function View(): Disk
      reads this
    {
      Disk(dir, number, clock)
    }

    constructor (dir: Dir, ghost clock: nat)
      ensures View() == Disk(dir, 0, clock)
    {
      this.dir := dir;
      number := 0;
      this.clock := clock;
    }

    method List() returns (names: seq<string>)
      ensures names == Names(dir)
    {
      names := [];
      var rest := dir.Keys;
      while rest != {}
        invariant rest <= dir.Keys
        invariant Ascending(names) && forall y :: y in names <==> Listed(dir, y) && y !in rest
        decreases |rest|
      {
        var name :| name in rest;
        if Listed(dir, name) {
          InsertAscends(names, name);
          names := InsertName(names, name);
        }
        rest := rest - {name};
      }
      NamesAre(dir, names);
    }

    method Trim()
      modifies this`dir
      ensures dir == Newest(old(dir))
      ensures var names := Names(old(dir));
        dir == map y | y in old(dir) && (forall i :: 0 <= i < |names| - 5000 ==> names[i] != y) :: old(dir)[y]
    {
      var names := List();
      var i := 0;
      while i < |names| - MAX_ITEMS
        invariant 0 <= i <= |names| && (i == 0 || i <= |names| - MAX_ITEMS)
        invariant dir == Without(old(dir), i)
      {
        assert names[..i + 1] == names[..i] + [names[i]];
        dir := dir - {names[i]};
        i := i + 1;
      }
      CutNames(old(dir), i);
    }

    /** A failed write leaves the directory as it was. */
    method Enqueue(data: string, now: nat, written: bool) returns (ok: bool)
      requires now < CLOCK_LIMIT && clock < CLOCK_LIMIT
      modifies this
      ensures View() == Enqueued(old(View()), data, now, written)
      ensures ok <==> Writes(old(View()), now, written)
      ensures number == old(number) + 1 && clock == now && (!ok ==> dir == old(dir))
      ensures var name := FileName(now, number);
        ok <==> written && !(name in old(dir) && old(dir)[name].Folder?)
      ensures Ordered(old(View())) && InOrder(old(View()), now) ==>
        && Ordered(View())
        && Items(dir) == if ok then Push(old(Items(dir)), Data(data)) else old(Items(dir))
      ensures Ordered(old(View())) && InOrder(old(View()), now) ==>
        var all := old(Items(dir)) + [Data(data)];
        Items(dir) == if !ok then old(Items(dir)) else if |all| > 5000 then all[|all| - 5000..] else all
    {
      hide Ordered, InOrder, FileName, Newest, Items, Push;
      ghost var before := View();
      if Ordered(before) && InOrder(before, now) {
        EnqueuePushes(before, data, now, written);
        PushIs(Items(before.dir), Data(data));
      }
      clock := now;
      number := number + 1;
      var name := FileName(now, number);
      if !written || (name in dir && dir[name].Folder?) {
        return false;
      }
      dir := dir[name := File(Data(data))];
      Trim();
      ok := true;
    }

    /** Sends the queued payloads in order, deleting each after it has been sent;
        unreadable files are dropped. `replies` are the answers to the sends. */
    method Drain(replies: seq<bool>) returns (ok: bool, sent: seq<string>)
      modifies this`dir
      ensures var items := old(Items(dir));
        var p := Drained(items, replies);
        && View() == DrainedTo(old(View()), replies) && Items(dir) == items[p..]
        && sent == Payloads(items[..p])
        && (ok <==> p == |items|)
      ensures Ordered(old(View())) ==> Ordered(View())
    {
      DrainKeeps(View(), replies);
      hide Ordered, Drained, Payloads, Names, Items, Without, Listed, Ascending;
      var files := List();
      ghost var items := Items(dir);
      var calls := 0;
      sent := [];
      ok := true;
      ghost var all := Drained(items, replies);
      WithoutNone(dir);
      assert items[0..] == items && replies[0..] == replies;
      for i := 0 to |files|
        invariant dir == Without(old(dir), i) && files == Names(old(dir))
        invariant calls <= |replies|
        invariant all == i + Drained(items[i..], replies[calls..])
        invariant sent == Payloads(items[..i])
      {
        DrainStep(items, i, replies, calls);
        NextFile(old(dir), i);
        match dir[files[i]].file
        case Unreadable =>
          dir := dir - {files[i]};
        case Data(data) =>
          if calls < |replies| && replies[calls] {
            sent := sent + [data];
            calls := calls + 1;
            dir := dir - {files[i]};
          } else {
            ok := false;
            return;
          }
      }
      assert items[..|files|] == items && items[|files|..] == [];
      DrainedNone(replies[calls..]);
    }
  }

  lemma CutNames(dir: Dir, n: nat)
    requires n <= |Names(dir)|
    ensures var names := Names(dir);
      Without(dir, n) == map y | y in dir && (forall i :: 0 <= i < n ==> names[i] != y) :: dir[y]
  {
    hide Names;
    var names := Names(dir);
    assert forall y :: y in names[..n] <==> exists i :: 0 <= i < n && names[i] == y;
  }

  lemma PushIs(items: seq<File>, x: File)
    ensures var all := items + [x];
      Push(items, x) == if |all| > 5000 then all[|all| - 5000..] else all
  {
  }

  lemma WithoutListed(dir: Dir, n: nat)
    requires n <= |Names(dir)|
    ensures forall y :: Listed(Without(dir, n), y) ==> Listed(dir, y)
  {
  }

  lemma ListedAdded(dir: Dir, name: string, file: File)
    ensures forall y :: Listed(dir[name := File(file)], y) ==> y == name || Listed(dir, y)
  {
  }

  lemma WithoutNone(dir: Dir)
    ensures Without(dir, 0) == dir && Payloads(Items(dir)[..0]) == []
  {
  }

  lemma DrainedNone(replies: seq<bool>)
    ensures Drained([], replies) == 0
  {
  }

  /** The next file of a listing is still there, and deleting it is the next cut. */
  lemma NextFile(dir: Dir, i: nat)
    requires i < |Names(dir)|
    ensures var name := Names(dir)[i];
      && name in Without(dir, i) && Without(dir, i)[name] == File(Items(dir)[i])
      && Without(dir, i + 1) == Without(dir, i) - {name}
  {
    hide Names, Items, Listed, Ascending;
    var names := Names(dir);
    ItemAt(dir, i);
    assert names[i] in names;
    assert names[..i + 1] == names[..i] + [names[i]];
    AscendingCut(names, i, names[i]);
    assert names[i..][0] == names[i];
  }

  /** One turn of the drain's loop. */
  lemma DrainStep(items: seq<File>, i: nat, replies: seq<bool>, calls: nat)
    requires i < |items| && calls <= |replies|
    ensures Payloads(items[..i + 1]) == Payloads(items[..i]) + (if items[i].Data? then [items[i].payload] else [])
    ensures var now, later := Drained(items[i..], replies[calls..]), items[i + 1..];
      if items[i].Unreadable? then now == 1 + Drained(later, replies[calls..])
      else if calls < |replies| && replies[calls] then now == 1 + Drained(later, replies[calls + 1..])
      else now == 0
  {
    assert items[i..][0] == items[i] && items[i..][1..] == items[i + 1..];
    assert items[..i + 1] == items[..i] + [items[i]];
    PayloadsSplit(items[..i], [items[i]]);
    if calls < |replies| {
      assert replies[calls..][0] == replies[calls] && replies[calls..][1..] == replies[calls + 1..];
    }
  }

  lemma ExtensionListed(now: nat, number: nat, file: File)
    ensures Listed(map[FileName(now, number) := File(file)], FileName(now, number))
  {
    hide Pad;
    var front := Pad(now, 20) + "-" + Pad(number, 6);
    assert FileName(now, number) == front + EXTENSION;
  }

  /** What makes up a file name: 20 digits of the clock and at least six of the number,
      a dash between them, and the extension. */
  lemma NameParts(t: nat, s: nat)
    requires t < CLOCK_LIMIT
    ensures var name := FileName(t, s);
      && |name| >= 32 && name[20] == '-' && name[|name| - 5..] == ".json"
      && AllDigits(name[..20]) && Number(name[..20]) == t
      && AllDigits(name[21..|name| - 5]) && Number(name[21..|name| - 5]) == s
  {
    hide Pad, Pow10, Number;
    Pow10Values();
    PadWidth(t, 20);
    NumberOfPad(t, 20);
    NumberOfPad(s, 6);
    var name := FileName(t, s);
    assert name[..20] == Pad(t, 20) && name[21..|name| - 5] == Pad(s, 6);
  }

  /** Listed are the files, not the folders, whose name ends with the extension. */
  lemma ListedExactly(dir: Dir, name: string)
    ensures Listed(dir, name) <==> name in dir && dir[name].File? && exists stem :: name == stem + ".json"
  {
    if |name| >= 5 && name[|name| - 5..] == EXTENSION {
      assert name == name[..|name| - 5] + EXTENSION;
    }
    if stem :| name == stem + ".json" {
      assert name[|stem|..] == EXTENSION;
    }
  }

  lemma StampFollows(dir: Dir, clock: nat, number: nat, now: nat)
    requires now < CLOCK_LIMIT && clock < CLOCK_LIMIT
    requires clock < now || (clock == now && !Rollover(number + 1))
    requires forall y :: Listed(dir, y) ==> y == FileName(clock, number) || Less(y, FileName(clock, number))
    ensures forall y :: Listed(dir, y) ==> Less(y, FileName(now, number + 1))
  {
    hide Less, FileName;
    NextStamp(clock, number, now);
    forall y | Listed(dir, y)
      ensures Less(y, FileName(now, number + 1))
    {
      if y != FileName(clock, number) {
        LessTransitive(y, FileName(clock, number), FileName(now, number + 1));
      }
    }
  }
}
