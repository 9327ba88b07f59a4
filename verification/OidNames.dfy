/** Friendly names for numeric OIDs by longest known prefix, computed in two ways:
    sorting the table by length and taking the first match, and scanning it for the
    longest match. */
module OidNames {
  import opened Decimal
  import Mib
  import opened Shared
  import Sorting

  /** One table row: a dotted OID and its name. */
  datatype Row = Row(oid: string, name: string)

  // ---------------------------------------------------------------------
  // Dotted text and its components
  // ---------------------------------------------------------------------

  function Dot(s: string): (i: nat)
    ensures i <= |s|
    ensures i < |s| ==> s[i] == '.'
    ensures forall j :: 0 <= j < i ==> s[j] != '.'
  {
    if s == "" || s[0] == '.' then 0 else 1 + Dot(s[1..])
  }

  /** `s.split(".")`. */
  function Split(s: string): (parts: seq<string>)
    ensures parts != []
    decreases |s|
  {
    var i := Dot(s);
    if i == |s| then [s] else [s[..i]] + Split(s[i + 1..])
  }

  /** `o === k || o.startsWith(k + ".")`. */
  predicate Matches(o: string, k: string) {
    o == k || k + "." <= o
  }

  lemma DotUnique(s: string, i: nat)
    requires i <= |s| && (i < |s| ==> s[i] == '.')
    requires forall j :: 0 <= j < i ==> s[j] != '.'
    ensures Dot(s) == i
  {
  }

  /** The textual prefix test is the component-wise one. */
  lemma {:induction false} MatchesIsPrefix(o: string, k: string)
    ensures Matches(o, k) <==> Split(k) <= Split(o)
    decreases |k|
  {
    hide Split, Dot, Matches;
    var i := Dot(k);
    SplitStep(k);
    SplitStep(o);
    if Matches(o, k) {
      MatchesHead(o, k);
    }
    if i == |k| {
      SplitSingle(o, k);
    } else if Dot(o) == i && i < |o| && o[..i] == k[..i] {
      MatchesIsPrefix(o[i + 1..], k[i + 1..]);
      MatchesTail(o, k, i);
      PrefixCons(k[..i], Split(k[i + 1..]), Split(o[i + 1..]));
    } else {
      PrefixHead(Split(k), Split(o));
    }
  }

  lemma SplitStep(s: string)
    ensures Split(s) == if Dot(s) == |s| then [s] else [s[..Dot(s)]] + Split(s[Dot(s) + 1..])
  {
    hide Dot;
  }

  lemma PrefixHead(a: seq<string>, b: seq<string>)
    requires a != []
    ensures a <= b ==> b != [] && a[0] == b[0] && |a| <= |b|
  {
  }

  /** A match agrees up to and including the first separator. */
  lemma MatchesHead(o: string, k: string)
    requires Matches(o, k)
    ensures Dot(o) == Dot(k) && o[..Dot(k)] == k[..Dot(k)]
    ensures Dot(k) < |k| ==> Dot(k) < |o|
  {
    var i := Dot(k);
    assert forall j :: 0 <= j < |k| ==> o[j] == k[j];
    DotUnique(o, i);
  }

  /** A single component is a prefix exactly if it is the first component. */
  lemma SplitSingle(o: string, k: string)
    requires Dot(k) == |k|
    ensures Split(k) == [k]
    ensures [k] <= Split(o) <==> Matches(o, k)
  {
    SplitStep(o);
    assert [k] <= Split(o) <==> Split(o)[0] == k;
    if Matches(o, k) {
      MatchesHead(o, k);
    }
    assert o[..Dot(o)] == k && Dot(o) < |o| ==> k + "." == o[..Dot(o) + 1];
  }

  lemma PrefixCons<T>(x: T, a: seq<T>, b: seq<T>)
    ensures [x] + a <= [x] + b <==> a <= b
  {
    assert ([x] + a)[1..] == a && ([x] + b)[1..] == b;
    if [x] + a <= [x] + b {
      assert a == ([x] + b)[..|a| + 1][1..];
    }
  }

  lemma MatchesTail(o: string, k: string, i: nat)
    requires i < |o| && i < |k| && o[..i + 1] == k[..i + 1]
    ensures Matches(o, k) <==> Matches(o[i + 1..], k[i + 1..])
  {
    var head := k[..i + 1];
    assert k == head + k[i + 1..] && o == head + o[i + 1..];
    assert k + "." == head + (k[i + 1..] + ".");
    PrefixAfter(head, k[i + 1..] + ".", o[i + 1..]);
  }

  lemma PrefixAfter<T>(head: seq<T>, a: seq<T>, b: seq<T>)
    ensures head + a <= head + b <==> a <= b
  {
    assert (head + a)[|head|..] == a && (head + b)[|head|..] == b;
    if head + a <= head + b {
      assert a == (head + b)[..|head + a|][|head|..];
    }
  }

  /** Dotted text determines the numeric OID, so objects merge only on equal OIDs. */
  lemma {:induction false} DottedTextInjective(a: Mib.Oid, b: Mib.Oid)
    requires a != [] && b != [] && Mib.DottedText(a) == Mib.DottedText(b)
    ensures a == b
  {
    DottedHead(a);
    DottedHead(b);
    NumberOfDigits(a[0]);
    NumberOfDigits(b[0]);
    if |a| > 1 {
      DottedTextInjective(a[1..], b[1..]);
      assert a == [a[0]] + a[1..] && b == [b[0]] + b[1..];
    }
  }

  lemma DottedHead(a: Mib.Oid)
    requires a != []
    ensures var s := Mib.DottedText(a);
      && s[..Dot(s)] == Digits(a[0])
      && (Dot(s) < |s| <==> |a| > 1)
      && (|a| > 1 ==> s[Dot(s) + 1..] == Mib.DottedText(a[1..]))
  {
    var s, d := Mib.DottedText(a), Digits(a[0]);
    assert forall j :: 0 <= j < |d| ==> s[j] == d[j];
    DotUnique(s, |d|);
  }

  // ---------------------------------------------------------------------
  // Longest match
  // ---------------------------------------------------------------------

  ghost predicate UniqueOids(table: seq<Row>) {
    forall i, j :: 0 <= i < j < |table| ==> table[i].oid != table[j].oid
  }

  /** Row `r` is a longest match, in characters. */
  ghost predicate Longest(table: seq<Row>, o: string, r: Row) {
    && r in table && Matches(o, r.oid)
    && forall q :: q in table && Matches(o, q.oid) ==> |q.oid| <= |r.oid|
  }

  /** A longest match in characters is the one with the most components, and there
      is only one. */
  lemma LongestIsDeepest(table: seq<Row>, o: string, r: Row, q: Row)
    requires UniqueOids(table) && Longest(table, o, r)
    requires q in table && Matches(o, q.oid)
    ensures Split(q.oid) <= Split(r.oid) <= Split(o)
    ensures Longest(table, o, q) ==> q == r
  {
    MatchesIsPrefix(o, r.oid);
    MatchesIsPrefix(o, q.oid);
    MatchesNested(o, r.oid, q.oid);
    MatchesIsPrefix(r.oid, q.oid);
    if |q.oid| == |r.oid| {
      var i, j :| 0 <= i < |table| && 0 <= j < |table| && table[i] == r && table[j] == q;
      assert r.oid == o[..|r.oid|] && q.oid == o[..|q.oid|];
      assert i == j;
    }
  }

  lemma MatchesNested(o: string, r: string, q: string)
    requires Matches(o, r) && Matches(o, q) && |q| <= |r|
    ensures Matches(r, q)
  {
    assert r == o[..|r|] && q == o[..|q|];
    if |q| < |r| {
      assert q + "." == o[..|q| + 1];
      assert q + "." == r[..|q| + 1];
    }
  }

  function Shorter(r: Row): int {
    -|r.oid|
  }

  lemma SortedRows(table: seq<Row>)
    ensures var known := Sorting.SortBy(table, Shorter);
      Sorting.Sorted(known, Shorter) && forall q :: q in known <==> q in table
  {
    var known := Sorting.SortBy(table, Shorter);
    Sorting.SortBySorts(table, Shorter);
    forall q
      ensures q in known <==> q in table
    {
      assert q in multiset(known) <==> q in multiset(table);
    }
  }

  lemma FirstIsLongest(table: seq<Row>, known: seq<Row>, o: string, i: nat)
    requires Sorting.Sorted(known, Shorter) && forall q :: q in known <==> q in table
    requires i < |known| && Matches(o, known[i].oid)
    requires forall j :: 0 <= j < i ==> !Matches(o, known[j].oid)
    ensures Longest(table, o, known[i])
  {
    hide Matches;
    forall q | q in table && Matches(o, q.oid)
      ensures |q.oid| <= |known[i].oid|
    {
      var j :| 0 <= j < |known| && known[j] == q;
      assert Shorter(known[i]) <= Shorter(known[j]);
    }
  }

  /** Sorted by length, longest first; the first match. */
  method FindSorted(table: seq<Row>, o: string) returns (r: Option<Row>)
    ensures r.None? ==> forall q :: q in table ==> !Matches(o, q.oid)
    ensures r.Some? ==> Longest(table, o, r.value)
  {
    hide Matches, Shorter, Sorting.SortBy;
    var known := Sorting.SortBy(table, Shorter);
    SortedRows(table);
    for i := 0 to |known|
      invariant forall j :: 0 <= j < i ==> !Matches(o, known[j].oid)
    {
      if Matches(o, known[i].oid) {
        FirstIsLongest(table, known, o, i);
        return Some(known[i]);
      }
    }
    r := None;
  }

  /** One pass keeping the longest match so far; the empty text means none yet. */
  method ScanLongest(table: seq<Row>, o: string) returns (bestBase: string, found: string)
    requires forall q :: q in table ==> q.oid != ""
    ensures bestBase == "" ==> found == "" && forall q :: q in table ==> !Matches(o, q.oid)
    ensures bestBase != "" ==> Longest(table, o, Row(bestBase, found))
  {
    bestBase, found := "", "";
    for i := 0 to |table|
      invariant forall j :: 0 <= j < i && Matches(o, table[j].oid) ==> |table[j].oid| <= |bestBase|
      invariant bestBase == "" ==> found == ""
      invariant bestBase != "" ==> Row(bestBase, found) in table && Matches(o, bestBase)
    {
      if Matches(o, table[i].oid) && |table[i].oid| > |bestBase| {
        bestBase, found := table[i].oid, table[i].name;
      }
    }
  }

  // ---------------------------------------------------------------------
  // The two labellings
  // ---------------------------------------------------------------------

  function StripDot(s: string): string {
    if s != "" && s[0] == '.' then s[1..] else s
  }

  function Rest(o: string, base: string): string
    requires Matches(o, base)
  {
    StripDot(o[|base|..])
  }

  /** The name of one OID among imported MIB objects; deep remainders stay unnamed. */
  ghost predicate Resolves(table: seq<Row>, oid: string, out: Option<string>) {
    var o := StripDot(oid);
    if exists r :: Longest(table, o, r) then
      exists r :: Longest(table, o, r) && out == ResolvedLabel(r.name, Rest(o, r.oid))
    else out == None
  }

  function ResolvedLabel(name: string, rest: string): Option<string> {
    if rest == "" || rest == "0" then Some(name)
    else if AllDigits(rest) then Some(name + " #" + rest)
    else None
  }

  /** The browse label: any remainder is shown. */
  function BrowseLabel(name: string, rest: string): string {
    if rest != "" && rest != "0" then name + " #" + rest else name
  }

  ghost predicate Browses(table: seq<Row>, oid: string, out: string) {
    var o := StripDot(oid);
    if exists r :: Longest(table, o, r) && r.name != "" then
      exists r :: Longest(table, o, r) && out == BrowseLabel(r.name, Rest(o, r.oid))
    else out == ""
  }

  method ResolveOidNames(table: seq<Row>, oids: seq<string>) returns (out: map<string, string>)
    requires UniqueOids(table)
    ensures forall x :: x in out ==> x in oids
    ensures forall x :: x in oids ==> Resolves(table, x, if x in out then Some(out[x]) else None)
  {
    hide Matches, AllDigits, StripDot, Longest;
    out := map[];
    for i := 0 to |oids|
      invariant forall x :: x in out ==> x in oids[..i]
      invariant forall x :: x in oids[..i] ==> Resolves(table, x, if x in out then Some(out[x]) else None)
    {
      assert oids[..i + 1] == oids[..i] + [oids[i]];
      var found := ResolveOne(table, oids[i]);
      ResolvesUnique(table, oids[i], found, if oids[i] in out then Some(out[oids[i]]) else None);
      if found.Some? {
        out := out[oids[i] := found.value];
      }
    }
    assert oids[..|oids|] == oids;
  }

  /** The loop body: an exact match first, else the longest prefix. */
  method ResolveOne(table: seq<Row>, oid: string) returns (found: Option<string>)
    requires UniqueOids(table)
    ensures Resolves(table, oid, found)
  {
    var o := StripDot(oid);
    for i := 0 to |table|
      invariant forall j :: 0 <= j < i ==> table[j].oid != o
    {
      if table[i].oid == o {
        ExactIsLongest(table, o, i);
        return Some(table[i].name);
      }
    }
    var base := FindSorted(table, o);
    if base.None? {
      return None;
    }
    found := ResolvedLabel(base.value.name, Rest(o, base.value.oid));
  }

  lemma ExactIsLongest(table: seq<Row>, o: string, i: nat)
    requires i < |table| && table[i].oid == o
    ensures Longest(table, o, table[i]) && Rest(o, table[i].oid) == ""
  {
  }

  lemma ResolvesUnique(table: seq<Row>, oid: string, a: Option<string>, b: Option<string>)
    requires UniqueOids(table) && Resolves(table, oid, a)
    ensures Resolves(table, oid, b) ==> a == b
  {
    hide Matches;
    var o := StripDot(oid);
    if Resolves(table, oid, b) && exists r :: Longest(table, o, r) {
      var r :| Longest(table, o, r) && a == ResolvedLabel(r.name, Rest(o, r.oid));
      var q :| Longest(table, o, q) && b == ResolvedLabel(q.name, Rest(o, q.oid));
      LongestIsDeepest(table, o, r, q);
    }
  }

  method OidName(table: seq<Row>, oid: string) returns (out: string)
    requires UniqueOids(table) && forall q :: q in table ==> q.oid != ""
    ensures Browses(table, oid, out)
  {
    var o := StripDot(oid);
    var bestBase, found := ScanLongest(table, o);
    if found == "" {
      if r :| Longest(table, o, r) && r.name != "" {
        LongestIsDeepest(table, o, Row(bestBase, found), r);
        assert false;
      }
      return "";
    }
    out := BrowseLabel(found, Rest(o, bestBase));
  }

  /** On the same table both labellings choose the same row; they differ only where
      more than one component is left over, which the browse label shows and the
      other one refuses. */
  lemma LabellingsAgree(table: seq<Row>, oid: string, resolved: Option<string>, browsed: string)
    requires UniqueOids(table) && forall q :: q in table ==> q.oid != "" && q.name != ""
    requires Resolves(table, oid, resolved) && Browses(table, oid, browsed)
    ensures resolved.Some? ==> browsed == resolved.value
    ensures resolved.None? && browsed != "" ==>
      exists r :: Longest(table, StripDot(oid), r) && !AllDigits(Rest(StripDot(oid), r.oid))
  {
    hide Matches, AllDigits, StripDot;
    var o := StripDot(oid);
    if exists r :: Longest(table, o, r) {
      var r :| Longest(table, o, r) && resolved == ResolvedLabel(r.name, Rest(o, r.oid));
      var q :| Longest(table, o, q) && browsed == BrowseLabel(q.name, Rest(o, q.oid));
      LongestIsDeepest(table, o, r, q);
    }
  }

  // ---------------------------------------------------------------------
  // The names in numbers
  // ---------------------------------------------------------------------

  /** The parts of dotted text are the numerals of the components. */
  lemma {:induction false} DottedParts(oid: Mib.Oid)
    requires oid != []
    ensures var parts := Split(Mib.DottedText(oid));
      |parts| == |oid| && forall i :: 0 <= i < |oid| ==> parts[i] == Digits(oid[i])
  {
    hide Digits, Dot, Mib.DottedText;
    var s := Mib.DottedText(oid);
    DottedHead(oid);
    SplitStep(s);
    if |oid| > 1 {
      DottedParts(oid[1..]);
    } else {
      assert s[..Dot(s)] == s;
    }
  }

  /** The OID `base` with the index `index` after it: the scalar instance and the object
      itself have its name, one other number becomes an index, more than one only shows
      in the browse label. */
  lemma InstanceNames(name: string, base: Mib.Oid, index: Mib.Oid)
    requires base != []
    ensures var o, b := Mib.DottedText(base + index), Mib.DottedText(base);
      && Matches(o, b)
      && Rest(o, b) == Mib.DottedText(index)
      && ResolvedLabel(name, Rest(o, b)) ==
         (if index == [] || index == [0] then Some(name)
          else if |index| == 1 then Some(name + " #" + Digits(index[0])) else None)
      && BrowseLabel(name, Rest(o, b)) ==
         (if index == [] || index == [0] then name else name + " #" + Mib.DottedText(index))
  {
    hide Digits;
    DottedJoin(base, index);
    ZeroText(index);
    if |index| > 1 {
      DotInText(index);
    }
  }

  lemma {:induction false} DottedJoin(base: Mib.Oid, index: Mib.Oid)
    requires base != []
    ensures Mib.DottedText(base + index) ==
      if index == [] then Mib.DottedText(base) else Mib.DottedText(base) + "." + Mib.DottedText(index)
  {
    if index == [] {
      assert base + index == base;
    } else if |base| == 1 {
      assert (base + index)[1..] == index;
    } else {
      assert (base + index)[1..] == base[1..] + index;
      DottedJoin(base[1..], index);
    }
  }

  lemma ZeroText(index: Mib.Oid)
    ensures Mib.DottedText(index) == "" <==> index == []
    ensures Mib.DottedText(index) == "0" <==> index == [0]
    ensures |index| == 1 ==> Mib.DottedText(index) == Digits(index[0]) && AllDigits(Mib.DottedText(index))
    ensures index != [] ==> Mib.DottedText(index)[0] != '.'
  {
    assert Digits(0) == "0";
    if index != [] {
      DottedHead(index);
      if Mib.DottedText(index) == "0" {
        NumberOfDigits(index[0]);
        NumberOfDigits(0);
      }
    }
  }

  lemma DotInText(index: Mib.Oid)
    requires |index| > 1
    ensures !AllDigits(Mib.DottedText(index))
  {
    DottedHead(index);
    assert Mib.DottedText(index)[Dot(Mib.DottedText(index))] == '.';
  }
}
