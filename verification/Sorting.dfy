/** The stable sort of the language runtime, by an integer key. */
module Sorting {

  /** Inserts `x` in front of the first element whose key is not smaller. */
  function Insert<T>(x: T, s: seq<T>, key: T -> int): seq<T> {
    if s == [] then [x]
    else if key(x) <= key(s[0]) then [x] + s
    else [s[0]] + Insert(x, s[1..], key)
  }

  function SortBy<T>(s: seq<T>, key: T -> int): (r: seq<T>) {
    if s == [] then [] else Insert(s[0], SortBy(s[1..], key), key)
  }

  ghost predicate Sorted<T>(s: seq<T>, key: T -> int) {
    forall i, j :: 0 <= i < j < |s| ==> key(s[i]) <= key(s[j])
  }

  ghost predicate DistinctKeys<T>(s: seq<T>, key: T -> int) {
    forall i, j :: 0 <= i < j < |s| ==> key(s[i]) != key(s[j])
  }

  lemma {:induction false} InsertKeepsAll<T>(x: T, s: seq<T>, key: T -> int)
    ensures multiset(Insert(x, s, key)) == multiset(s) + multiset{x}
  {
    if s != [] && key(x) > key(s[0]) {
      InsertKeepsAll(x, s[1..], key);
      assert s == [s[0]] + s[1..];
    }
  }

  ghost predicate NotBelow<T>(s: seq<T>, key: T -> int, k: int) {
    forall i :: 0 <= i < |s| ==> k <= key(s[i])
  }

  lemma {:induction false} InsertSorted<T>(x: T, s: seq<T>, key: T -> int, k: int)
    requires Sorted(s, key)
    ensures Sorted(Insert(x, s, key), key)
    ensures NotBelow(s, key, k) && k <= key(x) ==> NotBelow(Insert(x, s, key), key, k)
  {
    if s != [] && key(x) > key(s[0]) {
      InsertSorted(x, s[1..], key, key(s[0]));
      InsertSorted(x, s[1..], key, k);
      assert NotBelow(s[1..], key, key(s[0]));
    }
  }

  lemma NothingSorted<T>(s: seq<T>, key: T -> int)
    requires s == []
    ensures Sorted(s, key)
  {
  }

  lemma {:induction false} SortBySorts<T>(s: seq<T>, key: T -> int)
    ensures Sorted(SortBy(s, key), key)
    ensures multiset(SortBy(s, key)) == multiset(s)
    ensures |SortBy(s, key)| == |s|
  {
    hide Insert, Sorted;
    if s == [] {
      NothingSorted(s, key);
    } else {
      SortBySorts(s[1..], key);
      InsertSorted(s[0], SortBy(s[1..], key), key, 0);
      InsertKeepsAll(s[0], SortBy(s[1..], key), key);
      assert s == [s[0]] + s[1..];
    }
    assert |multiset(SortBy(s, key))| == |multiset(s)|;
  }

  ghost predicate Lacks<T>(s: seq<T>, key: T -> int, k: int) {
    forall i :: 0 <= i < |s| ==> key(s[i]) != k
  }

  lemma {:induction false} InsertDistinct<T>(x: T, s: seq<T>, key: T -> int, k: int)
    ensures Lacks(Insert(x, s, key), key, k) <==> Lacks(s, key, k) && key(x) != k
    ensures DistinctKeys(s, key) && Lacks(s, key, key(x)) ==> DistinctKeys(Insert(x, s, key), key)
  {
    if s != [] {
      assert s == [s[0]] + s[1..];
      InsertDistinct(x, s[1..], key, k);
      InsertDistinct(x, s[1..], key, key(s[0]));
      LacksCons(s[0], s[1..], key, k);
      LacksCons(x, s, key, k);
      LacksCons(s[0], Insert(x, s[1..], key), key, k);
    }
  }

  lemma LacksCons<T>(x: T, s: seq<T>, key: T -> int, k: int)
    ensures Lacks([x] + s, key, k) <==> key(x) != k && Lacks(s, key, k)
    ensures DistinctKeys([x] + s, key) <==> Lacks(s, key, key(x)) && DistinctKeys(s, key)
  {
    var r := [x] + s;
    assert forall i :: 0 <= i < |s| ==> r[i + 1] == s[i];
    assert r[0] == x;
  }

  /** Sorting neither loses nor doubles a key. */
  lemma {:induction false} SortByLacks<T>(s: seq<T>, key: T -> int, k: int)
    ensures Lacks(SortBy(s, key), key, k) <==> Lacks(s, key, k)
  {
    if s != [] {
      SortByLacks(s[1..], key, k);
      InsertDistinct(s[0], SortBy(s[1..], key), key, k);
      assert s == [s[0]] + s[1..];
    }
  }

  lemma {:induction false} SortByDistinct<T>(s: seq<T>, key: T -> int)
    requires DistinctKeys(s, key)
    ensures DistinctKeys(SortBy(s, key), key)
  {
    if s != [] {
      SortByDistinct(s[1..], key);
      SortByLacks(s[1..], key, key(s[0]));
      InsertDistinct(s[0], SortBy(s[1..], key), key, 0);
    }
  }

  lemma HeadsAgree<T>(a: seq<T>, b: seq<T>, key: T -> int)
    requires a != [] && b != [] && multiset(a) == multiset(b)
    requires Sorted(a, key) && Sorted(b, key) && DistinctKeys(a, key)
    ensures a[0] == b[0]
  {
    assert a[0] in multiset(b) && b[0] in multiset(a);
    var i :| 0 <= i < |b| && b[i] == a[0];
    var j :| 0 <= j < |a| && a[j] == b[0];
    assert key(b[0]) <= key(b[i]) && key(a[0]) <= key(a[j]);
  }

  lemma TailsAgree<T>(a: seq<T>, b: seq<T>)
    requires a != [] && b != [] && multiset(a) == multiset(b) && a[0] == b[0]
    ensures multiset(a[1..]) == multiset(b[1..])
  {
    assert a == [a[0]] + a[1..] && b == [b[0]] + b[1..];
    assert multiset(a[1..]) == multiset(a) - multiset{a[0]};
    assert multiset(b[1..]) == multiset(b) - multiset{b[0]};
  }

  /** With distinct keys the sorted order is the only one. */
  lemma {:induction false} SortedUnique<T>(a: seq<T>, b: seq<T>, key: T -> int)
    requires multiset(a) == multiset(b)
    requires Sorted(a, key) && Sorted(b, key) && DistinctKeys(a, key)
    ensures a == b
  {
    assert |a| == |multiset(a)| == |multiset(b)| == |b|;
    if a != [] {
      HeadsAgree(a, b, key);
      TailsAgree(a, b);
      SortedUnique(a[1..], b[1..], key);
      assert a == [a[0]] + a[1..] && b == [b[0]] + b[1..];
    }
  }

  /** The elements with one key, in their order. */
  ghost function OfKey<T>(s: seq<T>, key: T -> int, k: int): seq<T> {
    if s == [] then [] else (if key(s[0]) == k then [s[0]] else []) + OfKey(s[1..], key, k)
  }

  lemma {:induction false} OfKeyMembers<T>(s: seq<T>, key: T -> int, k: int)
    ensures forall x :: x in OfKey(s, key, k) ==> x in s && key(x) == k
    ensures forall x :: x in s && key(x) == k ==> x in OfKey(s, key, k)
  {
    if s != [] {
      OfKeyMembers(s[1..], key, k);
    }
  }

  lemma {:induction false} InsertStable<T>(x: T, s: seq<T>, key: T -> int, k: int)
    ensures OfKey(Insert(x, s, key), key, k) == OfKey([x] + s, key, k)
  {
    assert ([x] + s)[1..] == s;
    if s != [] && key(x) > key(s[0]) {
      InsertStable(x, s[1..], key, k);
      assert ([x] + s[1..])[1..] == s[1..];
      assert ([s[0]] + Insert(x, s[1..], key))[1..] == Insert(x, s[1..], key);
    }
  }

  /** The sort is stable: elements with equal keys keep their order. */
  lemma {:induction false} SortByStable<T>(s: seq<T>, key: T -> int, k: int)
    ensures OfKey(SortBy(s, key), key, k) == OfKey(s, key, k)
    ensures forall x :: x in OfKey(s, key, k) ==> x in s && key(x) == k
    ensures forall x :: x in s && key(x) == k ==> x in OfKey(s, key, k)
  {
    OfKeyMembers(s, key, k);
    if s != [] {
      SortByStable(s[1..], key, k);
      InsertStable(s[0], SortBy(s[1..], key), key, k);
      assert ([s[0]] + SortBy(s[1..], key))[1..] == SortBy(s[1..], key);
    }
  }
}
