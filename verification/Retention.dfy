/** Retention of backup copies: a copy survives when it is among the newest of its
    scope, or the newest of one of the most recent day, ISO-week or month buckets. */
module Retention {
  import opened BucketKeys
  import opened Shared
  import Sorting

  datatype Backup = Backup(name: string, createdAt: int, scope: Scope)

  datatype Policy = Policy(keepAll: int, keepConfig: int, keepData: int, daily: int, weekly: int, monthly: int) {
    function KeepLatest(scope: Scope): int {
      match scope
      case All => keepAll
      case Config => keepConfig
      case Data => keepData
    }
  }

  function By(keyOf: int -> string): Backup -> string {
    (b: Backup) => keyOf(b.createdAt)
  }

  // ---------------------------------------------------------------------
  // The selection on listings
  // ---------------------------------------------------------------------

  function Names(s: seq<Backup>): set<string> {
    set b | b in s :: b.name
  }

  /** `s.slice(0, Math.max(0, n))`. */
  function Front<T>(s: seq<T>, n: int): seq<T> {
    if n <= 0 then [] else if n < |s| then s[..n] else s
  }

  /** The first backup of every bucket, in order. */
  ghost function Reps<K>(list: seq<Backup>, key: Backup -> K): seq<Backup> {
    if list == [] then []
    else
      var init, last := list[..|list| - 1], list[|list| - 1];
      if key(last) in Keys(init, key) then Reps(init, key) else Reps(init, key) + [last]
  }

  ghost function Keys<K>(list: seq<Backup>, key: Backup -> K): set<K> {
    set b | b in list :: key(b)
  }

  function OfScope(backups: seq<Backup>, scope: Scope): seq<Backup> {
    if backups == [] then []
    else (if backups[0].scope == scope then [backups[0]] else []) + OfScope(backups[1..], scope)
  }

  function Age(b: Backup): int {
    -b.createdAt
  }

  /** The backups of one scope, newest first. */
  function Listing(backups: seq<Backup>, scope: Scope): seq<Backup> {
    Sorting.SortBy(OfScope(backups, scope), Age)
  }

  ghost function KeepOf(backups: seq<Backup>, policy: Policy, scope: Scope): set<string> {
    var list := Listing(backups, scope);
    Names(Front(list, policy.KeepLatest(scope)))
    + Names(Front(Reps(list, By(DayKey)), policy.daily))
    + Names(Front(Reps(list, By(WeekKey)), policy.weekly))
    + Names(Front(Reps(list, By(MonthKey)), policy.monthly))
  }

  ghost function KeepNames(backups: seq<Backup>, policy: Policy): set<string> {
    KeepOf(backups, policy, All) + KeepOf(backups, policy, Config) + KeepOf(backups, policy, Data)
  }

  ghost function NamesOutside(backups: seq<Backup>, keep: set<string>): seq<string> {
    if backups == [] then []
    else
      var rest := NamesOutside(backups[..|backups| - 1], keep);
      var last := backups[|backups| - 1];
      if last.name in keep then rest else rest + [last.name]
  }

  method ProtectBuckets(sortedDesc: seq<Backup>, count: int, keyOf: int -> string, keep: set<string>)
    returns (kept: set<string>)
    ensures kept == keep + Names(Front(Reps(sortedDesc, By(keyOf)), count))
  {
    hide Reps, Keys, Names, Front;
    kept := keep;
    if count <= 0 {
      NoneInFront(Reps(sortedDesc, By(keyOf)), count);
      return;
    }
    var seen: set<string>, newestPerBucket: seq<string> := {}, [];
    ghost var reps: seq<Backup> := [];
    NoReps(By(keyOf));
    for n := 0 to |sortedDesc|
      invariant reps == Reps(sortedDesc[..n], By(keyOf))
      invariant seen == Keys(sortedDesc[..n], By(keyOf))
      invariant |newestPerBucket| == |reps|
      invariant forall i :: 0 <= i < |reps| ==> newestPerBucket[i] == reps[i].name
    {
      var b := sortedDesc[n];
      var k := keyOf(b.createdAt);
      RepsStep(sortedDesc, By(keyOf), n);
      if k !in seen {
        seen, newestPerBucket, reps := seen + {k}, newestPerBucket + [b.name], reps + [b];
      }
    }
    assert sortedDesc[..|sortedDesc|] == sortedDesc;
    var i := 0;
    NoneInFront(reps, 0);
    while i < |newestPerBucket| && i < count
      invariant 0 <= i <= |reps| && i <= count
      invariant kept == keep + Names(reps[..i])
    {
      NamesStep(reps, i);
      kept := kept + {newestPerBucket[i]};
      i := i + 1;
    }
    FrontIs(reps, count, i);
  }

  lemma NoReps<K>(key: Backup -> K)
    ensures Reps([], key) == [] && Keys([], key) == {}
  {
  }

  lemma NoneInFront(s: seq<Backup>, count: int)
    requires count <= 0
    ensures Names(Front(s, count)) == {} == Names(s[..0])
  {
  }

  lemma RepsStep<K>(list: seq<Backup>, key: Backup -> K, n: nat)
    requires n < |list|
    ensures Keys(list[..n + 1], key) == Keys(list[..n], key) + {key(list[n])}
    ensures Reps(list[..n + 1], key) == Reps(list[..n], key)
                                        + if key(list[n]) in Keys(list[..n], key) then [] else [list[n]]
  {
    assert list[..n + 1] == list[..n] + [list[n]];
    assert list[..n + 1][..n] == list[..n];
  }

  lemma NamesStep(s: seq<Backup>, i: nat)
    requires i < |s|
    ensures Names(s[..i + 1]) == Names(s[..i]) + {s[i].name}
  {
    assert s[..i + 1] == s[..i] + [s[i]];
  }

  lemma FrontIs(s: seq<Backup>, count: int, i: nat)
    requires count > 0 && i <= |s| && i <= count && (i == |s| || i == count)
    ensures Front(s, count) == s[..i]
  {
  }

  method BackupsToPrune(backups: seq<Backup>, policy: Policy) returns (names: seq<string>)
    ensures names == NamesOutside(backups, KeepNames(backups, policy))
  {
    hide DayKey, WeekKey, MonthKey, Listing, Reps, Front, Names;
    var keep: set<string> := {};
    var scopes := [All, Config, Data];
    for s := 0 to |scopes|
      invariant keep == (if s > 0 then KeepOf(backups, policy, All) else {})
        + (if s > 1 then KeepOf(backups, policy, Config) else {})
        + (if s > 2 then KeepOf(backups, policy, Data) else {})
    {
      var scope := scopes[s];
      var list := Listing(backups, scope);
      ghost var before := keep;
      keep := keep + Names(Front(list, policy.KeepLatest(scope)));
      keep := ProtectBuckets(list, policy.daily, DayKey, keep);
      keep := ProtectBuckets(list, policy.weekly, WeekKey, keep);
      keep := ProtectBuckets(list, policy.monthly, MonthKey, keep);
      assert keep == before + KeepOf(backups, policy, scope);
    }
    names := [];
    for i := 0 to |backups|
      invariant names == NamesOutside(backups[..i], keep)
    {
      assert backups[..i + 1][..i] == backups[..i];
      if backups[i].name !in keep {
        names := names + [backups[i].name];
      }
    }
    assert backups[..|backups|] == backups;
  }

  // ---------------------------------------------------------------------
  // The meaning: a rule on the set of backups, without any order of processing
  // ---------------------------------------------------------------------

  ghost predicate Newer(a: Backup, b: Backup) {
    a.createdAt > b.createdAt
  }

  ghost function NewerThan(pool: set<Backup>, b: Backup): set<Backup> {
    set x | x in pool && Newer(x, b)
  }

  ghost function KeysOf<K>(pool: set<Backup>, key: Backup -> K): set<K> {
    set b | b in pool :: key(b)
  }

  /** `b` is the newest of its bucket, and fewer than `count` buckets are more recent. */
  ghost predicate Protected<K>(pool: set<Backup>, key: Backup -> K, count: int, b: Backup) {
    && b in pool
    && key(b) !in KeysOf(NewerThan(pool, b), key)
    && |KeysOf(NewerThan(pool, b), key)| < count
  }

  function Itself(b: Backup): Backup {
    b
  }

  ghost function InScope(pool: set<Backup>, scope: Scope): set<Backup> {
    set b | b in pool && b.scope == scope
  }

  /** Keeping the newest `n` is the bucket rule with every backup its own bucket. */
  ghost predicate Kept(pool: set<Backup>, policy: Policy, b: Backup) {
    var peers := InScope(pool, b.scope);
    || Protected(peers, Itself, policy.KeepLatest(b.scope), b)
    || Protected(peers, By(DayKey), policy.daily, b)
    || Protected(peers, By(WeekKey), policy.weekly, b)
    || Protected(peers, By(MonthKey), policy.monthly, b)
  }

  ghost function Survivors(pool: set<Backup>, policy: Policy): set<Backup> {
    set b | b in pool && Kept(pool, policy, b)
  }

  // ---------------------------------------------------------------------
  // Pruning early never changes what pruning later leaves
  // ---------------------------------------------------------------------

  lemma SubsetSize<T>(a: set<T>, b: set<T>)
    requires a <= b
    ensures |a| <= |b|
  {
    assert b == a + (b - a);
    assert |b| == |a| + |b - a|;
  }

  /** What is protected among more stays protected among fewer. */
  lemma ProtectedInSubset<K>(all: set<Backup>, part: set<Backup>, key: Backup -> K, count: int, b: Backup)
    requires part <= all && b in part && Protected(all, key, count, b)
    ensures Protected(part, key, count, b)
  {
    assert KeysOf(NewerThan(part, b), key) <= KeysOf(NewerThan(all, b), key);
    SubsetSize(KeysOf(NewerThan(part, b), key), KeysOf(NewerThan(all, b), key));
  }

  ghost function ProtectedNewer<K>(pool: set<Backup>, key: Backup -> K, count: int, b: Backup): set<Backup> {
    set x | x in NewerThan(pool, b) && Protected(pool, key, count, x)
  }

  lemma NewestWithKey<K>(s: set<Backup>, key: Backup -> K, k: K) returns (r: Backup)
    requires k in KeysOf(s, key)
    ensures r in s && key(r) == k
    ensures forall x :: x in s && key(x) == k ==> !Newer(x, r)
    decreases s
  {
    r :| r in s && key(r) == k;
    if x :| x in s && key(x) == k && Newer(x, r) {
      var above := NewerThan(s, r);
      assert x in above && r !in above;
      assert k in KeysOf(above, key);
      r := NewestWithKey(above, key, k);
    }
  }

  /** Once `count` buckets are more recent than `b`, `count` buckets more recent
      than `b` have a protected backup. */
  lemma {:induction false} ProtectedFill<K>(pool: set<Backup>, key: Backup -> K, count: int, b: Backup)
    requires |KeysOf(NewerThan(pool, b), key)| >= count
    ensures |KeysOf(ProtectedNewer(pool, key, count, b), key)| >= count
    decreases NewerThan(pool, b)
  {
    var above := NewerThan(pool, b);
    var keys, covered := KeysOf(above, key), KeysOf(ProtectedNewer(pool, key, count, b), key);
    if keys <= covered {
      SubsetSize(keys, covered);
    } else {
      var k :| k in keys && k !in covered;
      var r := NewestWithKey(above, key, k);
      assert NewerThan(pool, r) < above by {
        assert r in above && r !in NewerThan(pool, r);
      }
      assert key(r) !in KeysOf(NewerThan(pool, r), key) by {
        assert forall x :: x in NewerThan(pool, r) ==> x in above;
      }
      assert !Protected(pool, key, count, r) by {
        assert r in above && key(r) == k;
      }
      ProtectedFill(pool, key, count, r);
      assert KeysOf(ProtectedNewer(pool, key, count, r), key) <= covered;
      SubsetSize(KeysOf(ProtectedNewer(pool, key, count, r), key), covered);
    }
  }

  /** Dropping only unprotected backups protects no backup that was not protected. */
  lemma ProtectedInSuperset<K>(all: set<Backup>, part: set<Backup>, key: Backup -> K, count: int, b: Backup)
    requires part <= all
    requires forall x :: Protected(all, key, count, x) ==> x in part
    requires Protected(part, key, count, b)
    ensures Protected(all, key, count, b)
  {
    var above := KeysOf(NewerThan(part, b), key);
    assert |KeysOf(NewerThan(all, b), key)| < count by {
      if |KeysOf(NewerThan(all, b), key)| >= count {
        ProtectedFill(all, key, count, b);
        assert KeysOf(ProtectedNewer(all, key, count, b), key) <= above;
        SubsetSize(KeysOf(ProtectedNewer(all, key, count, b), key), above);
      }
    }
    if key(b) in KeysOf(NewerThan(all, b), key) {
      var r := ProtectedOfBucket(all, key, count, b);
      assert false;
    }
  }

  /** The newest backup of a recent enough bucket is protected. */
  lemma ProtectedOfBucket<K>(pool: set<Backup>, key: Backup -> K, count: int, b: Backup) returns (r: Backup)
    requires key(b) in KeysOf(NewerThan(pool, b), key)
    requires |KeysOf(NewerThan(pool, b), key)| < count
    ensures r in NewerThan(pool, b) && key(r) == key(b) && Protected(pool, key, count, r)
  {
    r := NewestWithKey(NewerThan(pool, b), key, key(b));
    assert NewerThan(pool, r) <= NewerThan(pool, b);
    assert KeysOf(NewerThan(pool, r), key) <= KeysOf(NewerThan(pool, b), key);
    SubsetSize(KeysOf(NewerThan(pool, r), key), KeysOf(NewerThan(pool, b), key));
  }

  lemma SurvivorsBetween(all: set<Backup>, part: set<Backup>, policy: Policy)
    requires Survivors(all, policy) <= part <= all
    ensures Survivors(part, policy) == Survivors(all, policy)
  {
    forall b | b in part
      ensures Kept(all, policy, b) <==> Kept(part, policy, b)
    {
      var peersAll, peersPart := InScope(all, b.scope), InScope(part, b.scope);
      assert forall x :: x in peersAll && Kept(all, policy, x) ==> x in Survivors(all, policy);
      ProtectedBetween(peersAll, peersPart, Itself, policy.KeepLatest(b.scope), b);
      ProtectedBetween(peersAll, peersPart, By(DayKey), policy.daily, b);
      ProtectedBetween(peersAll, peersPart, By(WeekKey), policy.weekly, b);
      ProtectedBetween(peersAll, peersPart, By(MonthKey), policy.monthly, b);
    }
  }

  lemma ProtectedBetween<K>(all: set<Backup>, part: set<Backup>, key: Backup -> K, count: int, b: Backup)
    requires part <= all && b in part
    requires forall x :: Protected(all, key, count, x) ==> x in part
    ensures Protected(all, key, count, b) <==> Protected(part, key, count, b)
  {
    if Protected(all, key, count, b) {
      ProtectedInSubset(all, part, key, count, b);
    } else if Protected(part, key, count, b) {
      ProtectedInSuperset(all, part, key, count, b);
    }
  }

  /** Pruning before more backups arrive changes nothing about a later prune. */
  lemma PruneEarly(pool: set<Backup>, arriving: set<Backup>, policy: Policy)
    ensures Survivors(Survivors(pool, policy) + arriving, policy) == Survivors(pool + arriving, policy)
  {
    var all := pool + arriving;
    forall b | b in Survivors(all, policy)
      ensures b in Survivors(pool, policy) + arriving
    {
      if b in pool {
        var peers, mine := InScope(all, b.scope), InScope(pool, b.scope);
        if Protected(peers, Itself, policy.KeepLatest(b.scope), b) {
          ProtectedInSubset(peers, mine, Itself, policy.KeepLatest(b.scope), b);
        } else if Protected(peers, By(DayKey), policy.daily, b) {
          ProtectedInSubset(peers, mine, By(DayKey), policy.daily, b);
        } else if Protected(peers, By(WeekKey), policy.weekly, b) {
          ProtectedInSubset(peers, mine, By(WeekKey), policy.weekly, b);
        } else {
          ProtectedInSubset(peers, mine, By(MonthKey), policy.monthly, b);
        }
      }
    }
    SurvivorsBetween(all, Survivors(pool, policy) + arriving, policy);
  }

  datatype Event = Written(backup: Backup) | Pruned

  ghost function Run(pool: set<Backup>, events: seq<Event>, policy: Policy): set<Backup> {
    if events == [] then pool
    else
      var before := Run(pool, events[..|events| - 1], policy);
      match events[|events| - 1]
      case Written(b) => before + {b}
      case Pruned => Survivors(before, policy)
  }

  ghost function AllWritten(pool: set<Backup>, events: seq<Event>): set<Backup> {
    pool + set i | 0 <= i < |events| && events[i].Written? :: events[i].backup
  }

  /** However often copies are pruned while backups are being written, in whatever
      order they arrive, the next prune leaves what a single prune of everything
      ever written would leave. */
  lemma {:induction false} IncrementalEqualsBatch(pool: set<Backup>, events: seq<Event>, policy: Policy)
    ensures Survivors(Run(pool, events, policy), policy) == Survivors(AllWritten(pool, events), policy)
    ensures Run(pool, events, policy) <= AllWritten(pool, events)
    ensures Run(pool, events + [Pruned], policy) == Survivors(AllWritten(pool, events), policy)
  {
    assert (events + [Pruned])[..|events|] == events;
    if events == [] {
      assert AllWritten(pool, events) == pool;
    } else {
      var init, last := events[..|events| - 1], events[|events| - 1];
      var before, written := Run(pool, init, policy), AllWritten(pool, init);
      IncrementalEqualsBatch(pool, init, policy);
      assert events == init + [last];
      match last {
        case Written(b) =>
          assert AllWritten(pool, events) == written + {b};
          PruneEarly(before, {b}, policy);
          PruneEarly(written, {b}, policy);
        case Pruned =>
          assert AllWritten(pool, events) == written;
          PruneEarly(before, {}, policy);
          assert before + {} == before && Survivors(before, policy) + {} == Survivors(before, policy);
      }
    }
  }

  // ---------------------------------------------------------------------
  // How much survives
  // ---------------------------------------------------------------------

  /** No two backups of one scope were written at the same instant. */
  ghost predicate DistinctTimes(pool: set<Backup>) {
    forall a, b :: a in pool && b in pool && a.scope == b.scope && a.createdAt == b.createdAt ==> a == b
  }

  ghost function ProtectedSet<K>(pool: set<Backup>, key: Backup -> K, count: int): set<Backup> {
    set b | b in pool && Protected(pool, key, count, b)
  }

  lemma OldestOf(s: set<Backup>) returns (r: Backup)
    requires s != {}
    ensures r in s && forall x :: x in s ==> x.createdAt >= r.createdAt
    decreases s
  {
    r :| r in s;
    if s != {r} {
      var o := OldestOf(s - {r});
      r := if o.createdAt < r.createdAt then o else r;
    }
  }

  lemma {:induction false} InjectiveSize<K>(s: set<Backup>, key: Backup -> K)
    requires forall a, b :: a in s && b in s && key(a) == key(b) ==> a == b
    ensures |KeysOf(s, key)| == |s|
    decreases s
  {
    if s == {} {
      assert KeysOf(s, key) == {};
    } else {
      var x :| x in s;
      InjectiveSize(s - {x}, key);
      assert KeysOf(s, key) == KeysOf(s - {x}, key) + {key(x)};
    }
  }

  /** A rule never protects more backups than it counts buckets. */
  lemma ProtectedBound<K>(peers: set<Backup>, key: Backup -> K, count: int)
    requires forall a, b :: a in peers && b in peers && a.createdAt == b.createdAt ==> a == b
    ensures |ProtectedSet(peers, key, count)| <= if count <= 0 then 0 else count
  {
    var s := ProtectedSet(peers, key, count);
    if s != {} {
      var o := OldestOf(s);
      InjectiveSize(s - {o}, key);
      assert KeysOf(s - {o}, key) <= KeysOf(NewerThan(peers, o), key);
      SubsetSize(KeysOf(s - {o}, key), KeysOf(NewerThan(peers, o), key));
    }
  }

  function AtLeastZero(n: int): nat {
    if n < 0 then 0 else n
  }

  /** The copies a policy can leave in one scope. */
  function Capacity(policy: Policy, scope: Scope): nat {
    AtLeastZero(policy.KeepLatest(scope)) + AtLeastZero(policy.daily)
    + AtLeastZero(policy.weekly) + AtLeastZero(policy.monthly)
  }

  lemma UnionSize<T>(a: set<T>, b: set<T>)
    ensures |a + b| <= |a| + |b|
  {
    assert a + b == a + (b - a);
    SubsetSize(b - a, b);
  }

  ghost function LongTerm(peers: set<Backup>, policy: Policy): set<Backup> {
    ProtectedSet(peers, By(DayKey), policy.daily) + ProtectedSet(peers, By(WeekKey), policy.weekly)
    + ProtectedSet(peers, By(MonthKey), policy.monthly)
  }

  lemma SurvivorsByRule(pool: set<Backup>, policy: Policy, scope: Scope)
    ensures var peers := InScope(pool, scope);
      InScope(Survivors(pool, policy), scope)
      == ProtectedSet(peers, Itself, policy.KeepLatest(scope)) + LongTerm(peers, policy)
  {
    hide Protected, By, DayKey, WeekKey, MonthKey;
    var peers := InScope(pool, scope);
    forall b | b in pool && b.scope == scope
      ensures Kept(pool, policy, b) <==>
        b in ProtectedSet(peers, Itself, policy.KeepLatest(scope)) + LongTerm(peers, policy)
    {
      assert b in peers;
    }
  }

  /** A scope never retains more copies than its policy has room for. */
  lemma SurvivorsBound(pool: set<Backup>, policy: Policy, scope: Scope)
    requires DistinctTimes(pool)
    ensures |InScope(Survivors(pool, policy), scope)| <= Capacity(policy, scope)
  {
    hide ProtectedSet, By, DayKey, WeekKey, MonthKey;
    var peers := InScope(pool, scope);
    SurvivorsByRule(pool, policy, scope);
    ProtectedBound(peers, Itself, policy.KeepLatest(scope));
    ProtectedBound(peers, By(DayKey), policy.daily);
    ProtectedBound(peers, By(WeekKey), policy.weekly);
    ProtectedBound(peers, By(MonthKey), policy.monthly);
    var days, weeks := ProtectedSet(peers, By(DayKey), policy.daily), ProtectedSet(peers, By(WeekKey), policy.weekly);
    UnionSize(days, weeks);
    UnionSize(days + weeks, ProtectedSet(peers, By(MonthKey), policy.monthly));
    UnionSize(ProtectedSet(peers, Itself, policy.KeepLatest(scope)), LongTerm(peers, policy));
  }

  /** The newest backup of a scope survives exactly when some rule has room at all. */
  lemma NewestSurvives(pool: set<Backup>, policy: Policy, b: Backup)
    requires b in pool && NewerThan(InScope(pool, b.scope), b) == {}
    ensures b in Survivors(pool, policy) <==> Capacity(policy, b.scope) > 0
  {
    hide DayKey, WeekKey, MonthKey, By;
    var none := NewerThan(InScope(pool, b.scope), b);
    assert KeysOf(none, Itself) == {};
    assert KeysOf(none, By(DayKey)) == {};
    assert KeysOf(none, By(WeekKey)) == {};
    assert KeysOf(none, By(MonthKey)) == {};
  }

  // ---------------------------------------------------------------------
  // The listing-based selection computes the rule
  // ---------------------------------------------------------------------

  ghost function Pool(backups: seq<Backup>): set<Backup> {
    set b | b in backups
  }

  /** A directory of backups: names are unique, and so are times within a scope. */
  ghost predicate Directory(backups: seq<Backup>) {
    forall i, j :: 0 <= i < j < |backups| ==>
      && backups[i].name != backups[j].name
      && (backups[i].scope == backups[j].scope ==> backups[i].createdAt != backups[j].createdAt)
  }

  ghost predicate NewestFirst(list: seq<Backup>) {
    forall i, j :: 0 <= i < j < |list| ==> list[i].createdAt > list[j].createdAt
  }

  lemma {:induction false} OfScopeMember(backups: seq<Backup>, scope: Scope, b: Backup)
    ensures b in OfScope(backups, scope) <==> b in backups && b.scope == scope
  {
    if backups != [] {
      OfScopeMember(backups[1..], scope, b);
      assert backups == [backups[0]] + backups[1..];
    }
  }

  lemma OfScopeMembers(backups: seq<Backup>, scope: Scope)
    ensures Pool(OfScope(backups, scope)) == InScope(Pool(backups), scope)
  {
    hide OfScope;
    forall b
      ensures b in OfScope(backups, scope) <==> b in backups && b.scope == scope
    {
      OfScopeMember(backups, scope, b);
    }
  }

  lemma {:induction false} OfScopeDistinct(backups: seq<Backup>, scope: Scope)
    requires Directory(backups)
    ensures Sorting.DistinctKeys(OfScope(backups, scope), Age)
  {
    if backups != [] {
      var rest := OfScope(backups[1..], scope);
      OfScopeDistinct(backups[1..], scope);
      OfScopeMembers(backups[1..], scope);
      forall i | 0 <= i < |rest|
        ensures backups[0].scope == scope ==> Age(rest[i]) != Age(backups[0])
      {
        assert rest[i] in Pool(rest);
      }
    }
  }

  lemma ListingOrder(backups: seq<Backup>, scope: Scope)
    requires Directory(backups)
    ensures NewestFirst(Listing(backups, scope))
    ensures Pool(Listing(backups, scope)) == InScope(Pool(backups), scope)
  {
    var s, list := OfScope(backups, scope), Listing(backups, scope);
    OfScopeMembers(backups, scope);
    OfScopeDistinct(backups, scope);
    Sorting.SortBySorts(s, Age);
    Sorting.SortByDistinct(s, Age);
    forall b
      ensures b in list <==> b in s
    {
      assert b in multiset(list) <==> b in multiset(s);
    }
    forall i, j | 0 <= i < j < |list|
      ensures list[i].createdAt > list[j].createdAt
    {
      assert Age(list[i]) <= Age(list[j]) && Age(list[i]) != Age(list[j]);
    }
  }

  lemma {:induction false} RepsCount<K>(list: seq<Backup>, key: Backup -> K)
    ensures |Reps(list, key)| == |Keys(list, key)|
    ensures forall b :: b in Reps(list, key) ==> b in list
  {
    if list != [] {
      var init, last := list[..|list| - 1], list[|list| - 1];
      RepsCount(init, key);
      assert list == init + [last];
      assert Keys(list, key) == Keys(init, key) + {key(last)};
      if key(last) in Keys(init, key) {
        assert Reps(list, key) == Reps(init, key) && Keys(list, key) == Keys(init, key);
      } else {
        assert Reps(list, key) == Reps(init, key) + [last];
      }
    } else {
      assert Keys(list, key) == {};
    }
  }

  lemma {:induction false} RepsPosition<K>(list: seq<Backup>, key: Backup -> K, count: int, p: nat)
    requires NewestFirst(list) && p < |list|
    ensures list[p] in Front(Reps(list, key), count) <==>
      key(list[p]) !in Keys(list[..p], key) && |Keys(list[..p], key)| < count
  {
    var init, last := list[..|list| - 1], list[|list| - 1];
    RepsCount(init, key);
    assert last !in init;
    if p == |init| {
      assert list[..p] == init;
      FrontAppend(Reps(init, key), last, count, last);
      FrontIncluded(Reps(init, key), count);
    } else {
      RepsPosition(init, key, count, p);
      assert init[..p] == list[..p] && init[p] == list[p];
      FrontAppend(Reps(init, key), last, count, list[p]);
    }
  }

  lemma FrontIncluded<T>(s: seq<T>, n: int)
    ensures forall x :: x in Front(s, n) ==> x in s
  {
  }

  lemma FrontAppend<T>(s: seq<T>, last: T, n: int, x: T)
    ensures x in Front(s + [last], n) <==> x in Front(s, n) || (x == last && |s| < n)
  {
    if 0 < n <= |s| {
      assert (s + [last])[..n] == s[..n];
    } else if n > |s| {
      assert Front(s + [last], n) == s + [last];
      assert Front(s, n) == s;
    }
  }

  lemma PrefixIsNewer(list: seq<Backup>, p: nat)
    requires NewestFirst(list) && p < |list|
    ensures NewerThan(Pool(list), list[p]) == Pool(list[..p])
    ensures |Pool(list[..p])| == p
  {
    PoolSize(list[..p]);
    forall b | b in NewerThan(Pool(list), list[p])
      ensures b in list[..p]
    {
      var q :| 0 <= q < |list| && list[q] == b;
      assert q < p;
      assert list[..p][q] == b;
    }
    forall b | b in list[..p]
      ensures b in list && Newer(b, list[p])
    {
      var q :| 0 <= q < p && list[..p][q] == b;
      assert list[q] == b;
    }
  }

  lemma {:induction false} PoolSize(list: seq<Backup>)
    requires NewestFirst(list)
    ensures |Pool(list)| == |list|
  {
    if list != [] {
      var init, last := list[..|list| - 1], list[|list| - 1];
      PoolSize(init);
      assert list == init + [last];
      assert Pool(list) == Pool(init) + {last};
    } else {
      assert Pool(list) == {};
    }
  }

  /** First-of-its-bucket among the first `count` buckets is the bucket rule. */
  lemma FrontOfReps<K>(list: seq<Backup>, key: Backup -> K, count: int, b: Backup)
    requires NewestFirst(list) && b in list
    ensures b in Front(Reps(list, key), count) <==> Protected(Pool(list), key, count, b)
  {
    var p :| 0 <= p < |list| && list[p] == b;
    RepsPosition(list, key, count, p);
    PrefixIsNewer(list, p);
    assert KeysOf(NewerThan(Pool(list), b), key) == Keys(list[..p], key);
  }

  lemma FrontOfList(list: seq<Backup>, n: int, b: Backup)
    requires NewestFirst(list) && b in list
    ensures b in Front(list, n) <==> Protected(Pool(list), Itself, n, b)
  {
    var p :| 0 <= p < |list| && list[p] == b;
    PrefixIsNewer(list, p);
    assert KeysOf(NewerThan(Pool(list), b), Itself) == NewerThan(Pool(list), b);
    assert !Newer(b, b);
    assert forall q :: 0 <= q < |Front(list, n)| ==> Front(list, n)[q] == list[q];
    if p < n {
      assert Front(list, n)[p] == b;
    } else {
      assert forall q :: 0 <= q < p ==> list[q].createdAt > b.createdAt;
    }
  }

  lemma SameName(backups: seq<Backup>, part: seq<Backup>, b: Backup)
    requires Directory(backups) && b in backups
    requires forall x :: x in part ==> x in backups
    ensures b.name in Names(part) <==> b in part
  {
    if b.name in Names(part) {
      var x :| x in part && x.name == b.name;
      var i, j :| 0 <= i < |backups| && 0 <= j < |backups| && backups[i] == b && backups[j] == x;
      assert i == j;
    }
  }

  lemma KeepOfRule(backups: seq<Backup>, policy: Policy, scope: Scope, b: Backup)
    requires Directory(backups) && b in backups
    ensures b.name in KeepOf(backups, policy, scope) <==> b.scope == scope && Kept(Pool(backups), policy, b)
  {
    hide DayKey, WeekKey, MonthKey, By, Listing, Reps, Front, Directory, NewestFirst, Protected;
    var list := Listing(backups, scope);
    ListingOrder(backups, scope);
    assert forall x :: x in list <==> x in backups && x.scope == scope by {
      assert forall x :: x in list <==> x in Pool(list);
    }
    RuleSlice(backups, list, list, policy.KeepLatest(scope), b);
    RuleSlice(backups, list, Reps(list, By(DayKey)), policy.daily, b);
    RuleSlice(backups, list, Reps(list, By(WeekKey)), policy.weekly, b);
    RuleSlice(backups, list, Reps(list, By(MonthKey)), policy.monthly, b);
    if b in list {
      FrontOfList(list, policy.KeepLatest(scope), b);
      FrontOfReps(list, By(DayKey), policy.daily, b);
      FrontOfReps(list, By(WeekKey), policy.weekly, b);
      FrontOfReps(list, By(MonthKey), policy.monthly, b);
    }
  }

  /** The names a rule keeps are the names of the backups it keeps. */
  lemma RuleSlice(backups: seq<Backup>, list: seq<Backup>, reps: seq<Backup>, n: int, b: Backup)
    requires Directory(backups) && b in backups
    requires forall x :: x in list ==> x in backups
    requires reps == list || exists keyOf: int -> string :: reps == Reps(list, By(keyOf))
    ensures b.name in Names(Front(reps, n)) <==> b in Front(reps, n)
    ensures b in Front(reps, n) ==> b in list
  {
    if reps != list {
      var keyOf: int -> string :| reps == Reps(list, By(keyOf));
      RepsCount(list, By(keyOf));
    }
    FrontIncluded(reps, n);
    SameName(backups, Front(reps, n), b);
  }

  lemma {:induction false} NamesOutsideMembers(backups: seq<Backup>, keep: set<string>, name: string)
    ensures name in NamesOutside(backups, keep) <==> name !in keep && exists b :: b in backups && b.name == name
  {
    if backups != [] {
      var init, last := backups[..|backups| - 1], backups[|backups| - 1];
      assert backups == init + [last];
      NamesOutsideMembers(init, keep, name);
    }
  }

  ghost function Remaining(backups: seq<Backup>, deleted: seq<string>): set<Backup> {
    set b | b in backups && b.name !in deleted
  }

  /** Deleting the files the selection names leaves exactly the survivors of the rule. */
  lemma PruneLeavesSurvivors(backups: seq<Backup>, policy: Policy)
    requires Directory(backups)
    ensures Remaining(backups, NamesOutside(backups, KeepNames(backups, policy)))
         == Survivors(Pool(backups), policy)
  {
    var keep := KeepNames(backups, policy);
    forall b | b in backups
      ensures b.name !in NamesOutside(backups, keep) <==> Kept(Pool(backups), policy, b)
    {
      NamesOutsideMembers(backups, keep, b.name);
      KeepOfRule(backups, policy, All, b);
      KeepOfRule(backups, policy, Config, b);
      KeepOfRule(backups, policy, Data, b);
    }
  }
}
