/** The worker's tick: every enabled, due schedule writes one backup, then the
    directory is pruned. "Last run" is the newest file of the schedule's scope, so
    scheduling and retention act on each other. */
module BackupWorker {
  import opened Retention
  import opened Schedule
  import opened Shared
  import Sorting

  // ---------------------------------------------------------------------
  // Specification on sets of backups
  // ---------------------------------------------------------------------

  ghost predicate IsNewest(pool: set<Backup>, scope: Scope, t: int) {
    && (forall b :: b in InScope(pool, scope) ==> b.createdAt <= t)
    && if InScope(pool, scope) == {} then t == 0 else exists b :: b in InScope(pool, scope) && b.createdAt == t
  }

  lemma NewestExists(pool: set<Backup>, scope: Scope)
    ensures exists t :: IsNewest(pool, scope, t)
  {
    if InScope(pool, scope) == {} {
      assert IsNewest(pool, scope, 0);
    } else {
      var b := LatestOf(InScope(pool, scope));
      assert IsNewest(pool, scope, b.createdAt);
    }
  }

  lemma LatestOf(s: set<Backup>) returns (r: Backup)
    requires s != {}
    ensures r in s && forall x :: x in s ==> x.createdAt <= r.createdAt
    decreases s
  {
    r :| r in s;
    if s != {r} {
      var o := LatestOf(s - {r});
      r := if o.createdAt > r.createdAt then o else r;
    }
  }

  /** The newest modification time in a scope, 0 without a backup. */
  ghost function Newest(pool: set<Backup>, scope: Scope): (t: int)
    ensures IsNewest(pool, scope, t)
  {
    NewestExists(pool, scope);
    var t :| IsNewest(pool, scope, t);
    t
  }

  lemma NewestUnique(pool: set<Backup>, scope: Scope, t: int)
    requires IsNewest(pool, scope, t)
    ensures Newest(pool, scope) == t
  {
  }

  /** What an export comes to if it is attempted. */
  datatype Write = Failed | Wrote(name: string, mtime: int)

  /** One tick: the clock at its start, and the outcome of each schedule's export. */
  datatype Tick = Tick(now: int, writes: seq<Write>)

  /** The worker's configuration, constant over a run. */
  datatype Setup = Setup(scheds: seq<BackupSchedule>, zone: int, policy: Policy) {
    ghost predicate Valid() {
      forall s :: s in scheds ==> s.Valid()
    }
  }

  ghost predicate IsDueIn(pool: set<Backup>, sched: BackupSchedule, now: int, zone: int) {
    sched.Due(Newest(pool, sched.scope), now, zone)
  }

  /** One schedule's turn on the directory as it stands. */
  ghost predicate FiresOn(pool: set<Backup>, sched: BackupSchedule, write: Write, now: int, zone: int) {
    sched.enabled && write.Wrote? && IsDueIn(pool, sched, now, zone)
  }

  /** The directory after the first `n` schedules have had their turn. */
  ghost function After(pool: set<Backup>, setup: Setup, tick: Tick, n: nat): set<Backup>
    requires n <= |setup.scheds| == |tick.writes|
  {
    if n == 0 then pool
    else
      var before, sched, write := After(pool, setup, tick, n - 1), setup.scheds[n - 1], tick.writes[n - 1];
      if FiresOn(before, sched, write, tick.now, setup.zone)
      then before + {Backup(write.name, write.mtime, sched.scope)}
      else before
  }

  /** Schedule `n` writes a backup in this tick. */
  ghost predicate Fires(pool: set<Backup>, setup: Setup, tick: Tick, n: nat)
    requires n < |setup.scheds| == |tick.writes|
  {
    FiresOn(After(pool, setup, tick, n), setup.scheds[n], tick.writes[n], tick.now, setup.zone)
  }

  ghost predicate Writes(pool: set<Backup>, setup: Setup, tick: Tick)
    requires |setup.scheds| == |tick.writes|
  {
    exists n :: 0 <= n < |setup.scheds| && Fires(pool, setup, tick, n)
  }

  ghost function AfterTick(pool: set<Backup>, setup: Setup, tick: Tick): set<Backup>
    requires |setup.scheds| == |tick.writes|
  {
    var written := After(pool, setup, tick, |setup.scheds|);
    if Writes(pool, setup, tick) then Survivors(written, setup.policy) else written
  }

  /** File names carry their writing time: they are new, and time moves on from
      the newest file through the tick's start and its exports. */
  ghost predicate Fresh(pool: set<Backup>, tick: Tick) {
    && tick.now > 0
    && (forall i :: 0 <= i < |tick.writes| && tick.writes[i].Wrote? ==>
      && tick.now <= tick.writes[i].mtime
      && forall b :: b in pool ==> b.name != tick.writes[i].name && b.createdAt < tick.writes[i].mtime)
    && (forall i, j :: 0 <= i < j < |tick.writes| && tick.writes[i].Wrote? && tick.writes[j].Wrote? ==>
      tick.writes[i].name != tick.writes[j].name && tick.writes[i].mtime < tick.writes[j].mtime)
  }

  // ---------------------------------------------------------------------
  // The worker
  // ---------------------------------------------------------------------

  /** Some of the first `n` schedules has written a backup. */
  ghost predicate WroteBefore(pool: set<Backup>, setup: Setup, tick: Tick, n: nat)
    requires n <= |setup.scheds| == |tick.writes|
  {
    exists m :: 0 <= m < n && Fires(pool, setup, tick, m)
  }

  lemma NothingWritten(pool: set<Backup>, setup: Setup, tick: Tick)
    requires |setup.scheds| == |tick.writes|
    ensures !WroteBefore(pool, setup, tick, 0) && After(pool, setup, tick, 0) == pool
  {
  }

  lemma AllTurns(pool: set<Backup>, setup: Setup, tick: Tick)
    requires |setup.scheds| == |tick.writes|
    ensures WroteBefore(pool, setup, tick, |setup.scheds|) <==> Writes(pool, setup, tick)
  {
  }

  /** What the turn of schedule `n` does to the files. */
  lemma TurnTaken(files: seq<Backup>, pool: set<Backup>, setup: Setup, tick: Tick, n: nat)
    requires n < |setup.scheds| == |tick.writes| && Fresh(pool, tick)
    requires Directory(files) && Pool(files) == After(pool, setup, tick, n)
    ensures var sched, write := setup.scheds[n], tick.writes[n];
      var fires := sched.enabled && write.Wrote? && IsDueIn(Pool(files), sched, tick.now, setup.zone);
      var after := if fires then files + [Backup(write.name, write.mtime, sched.scope)] else files;
      && (WroteBefore(pool, setup, tick, n + 1) <==> WroteBefore(pool, setup, tick, n) || fires)
      && Directory(after) && Pool(after) == After(pool, setup, tick, n + 1)
  {
    hide Directory, Fresh, Newest, BackupSchedule.Due, Pool;
    var write := tick.writes[n];
    assert Fires(pool, setup, tick, n) <==>
      FiresOn(Pool(files), setup.scheds[n], write, tick.now, setup.zone);
    if Fires(pool, setup, tick, n) {
      AfterIsOlder(pool, setup, tick, n, n);
      DirectoryAppend(files, Backup(write.name, write.mtime, setup.scheds[n].scope));
    }
  }

  class Worker {
    /** The backup directory, in whatever order it is listed. */
    var files: seq<Backup>

    constructor ()
      ensures files == []
    {
      files := [];
    }

    method NewestBackupMtime(scope: Scope) returns (t: int)
      ensures t == Newest(Pool(files), scope)
      ensures forall b :: b in files && b.scope == scope ==> b.createdAt <= t
      ensures if exists b :: b in files && b.scope == scope
              then exists b :: b in files && b.scope == scope && b.createdAt == t else t == 0
    {
      NewestOfFiles(files, scope);
      hide Newest, IsNewest, Sorting.SortBy;
      var all := Sorting.SortBy(files, Age);
      SortedFiles(files);
      for i := 0 to |all|
        invariant forall j :: 0 <= j < i ==> all[j].scope != scope
      {
        if all[i].scope == scope {
          FirstIsNewest(Pool(files), scope, all, i);
          return all[i].createdAt;
        }
      }
      NoneInScope(Pool(files), scope, all);
      t := 0;
    }

    method RunTick(setup: Setup, tick: Tick)
      requires setup.Valid() && |setup.scheds| == |tick.writes|
      requires Directory(files) && Fresh(Pool(files), tick)
      modifies this
      ensures Directory(files)
      ensures Pool(files) == AfterTick(old(Pool(files)), setup, tick)
    {
      hide Directory, Fresh, Fires, WroteBefore, Newest, BackupSchedule.Due, Pool, Remaining, Survivors, KeepNames;
      var wrote := false;
      ghost var pool := Pool(files);
      NothingWritten(pool, setup, tick);
      for n := 0 to |setup.scheds|
        invariant Directory(files) && Pool(files) == After(pool, setup, tick, n)
        invariant wrote <==> WroteBefore(pool, setup, tick, n)
      {
        var sched, write := setup.scheds[n], tick.writes[n];
        TurnTaken(files, pool, setup, tick, n);
        if sched.enabled {
          var newest := NewestBackupMtime(sched.scope);
          var due := IsDue(sched, newest, tick.now, setup.zone);
          if due && write.Wrote? {
            files := files + [Backup(write.name, write.mtime, sched.scope)];
            wrote := true;
          }
        }
      }
      AllTurns(pool, setup, tick);
      if wrote {
        var names := BackupsToPrune(files, setup.policy);
        PruneLeavesSurvivors(files, setup.policy);
        files := Without(files, names);
      }
    }
  }

  lemma NewestOfFiles(files: seq<Backup>, scope: Scope)
    ensures var t := Newest(Pool(files), scope);
      && (forall b :: b in files && b.scope == scope ==> b.createdAt <= t)
      && if exists b :: b in files && b.scope == scope
         then exists b :: b in files && b.scope == scope && b.createdAt == t else t == 0
  {
    hide Newest;
    var t := Newest(Pool(files), scope);
    NewestIs(Pool(files), scope);
    assert forall b :: b in InScope(Pool(files), scope) <==> b in files && b.scope == scope;
  }

  lemma NewestIs(pool: set<Backup>, scope: Scope)
    ensures IsNewest(pool, scope, Newest(pool, scope))
  {
  }

  /** What one tick leaves: a schedule runs if it is enabled, its export succeeds, and it
      is due by the newest backup of its scope as of its turn; its backup carries its
      scope and the export's name and time; and once something has been written,
      everything the policy does not keep goes. */
  lemma TickExactly(pool: set<Backup>, setup: Setup, tick: Tick, b: Backup)
    requires |setup.scheds| == |tick.writes|
    ensures forall n :: 0 <= n < |setup.scheds| ==>
      var sched, write := setup.scheds[n], tick.writes[n];
      Fires(pool, setup, tick, n) <==>
        && sched.enabled && write.Wrote?
        && sched.Due(Newest(After(pool, setup, tick, n), sched.scope), tick.now, setup.zone)
    ensures var all := After(pool, setup, tick, |setup.scheds|);
      && (b in all <==> b in pool || WrittenBy(pool, setup, tick, |setup.scheds|, b))
      && (b in AfterTick(pool, setup, tick) <==>
            && b in all
            && ((exists n :: 0 <= n < |setup.scheds| && Fires(pool, setup, tick, n)) ==> Kept(all, setup.policy, b)))
  {
    hide Newest, Kept, BackupSchedule.Due;
    AfterMembers(pool, setup, tick, |setup.scheds|, b);
  }

  /** The backup is what one of the first `n` schedules writes. */
  ghost predicate WrittenBy(pool: set<Backup>, setup: Setup, tick: Tick, n: nat, b: Backup)
    requires n <= |setup.scheds| == |tick.writes|
  {
    exists m ::
      && 0 <= m < n && Fires(pool, setup, tick, m)
      && b == Backup(tick.writes[m].name, tick.writes[m].mtime, setup.scheds[m].scope)
  }

  lemma {:induction false} AfterMembers(pool: set<Backup>, setup: Setup, tick: Tick, n: nat, b: Backup)
    requires n <= |setup.scheds| == |tick.writes|
    ensures b in After(pool, setup, tick, n) <==> b in pool || WrittenBy(pool, setup, tick, n, b)
  {
    hide Newest, BackupSchedule.Due;
    if n > 0 {
      AfterMembers(pool, setup, tick, n - 1, b);
    }
  }

  lemma SortedFiles(files: seq<Backup>)
    ensures Sorting.Sorted(Sorting.SortBy(files, Age), Age)
    ensures forall b :: b in Sorting.SortBy(files, Age) <==> b in Pool(files)
  {
    var all := Sorting.SortBy(files, Age);
    Sorting.SortBySorts(files, Age);
    forall b
      ensures b in all <==> b in Pool(files)
    {
      assert b in multiset(all) <==> b in multiset(files);
    }
  }

  lemma NoneInScope(pool: set<Backup>, scope: Scope, all: seq<Backup>)
    requires forall j :: 0 <= j < |all| ==> all[j].scope != scope
    requires forall b :: b in all <==> b in pool
    ensures Newest(pool, scope) == 0
  {
    assert InScope(pool, scope) == {};
    NewestUnique(pool, scope, 0);
  }

  /** Removes the files named in `names`. */
  function Without(files: seq<Backup>, names: seq<string>): (left: seq<Backup>)
    ensures Pool(left) == Remaining(files, names)
    ensures Directory(files) ==> Directory(left)
  {
    if files == [] then []
    else
      var rest := Without(files[1..], names);
      WithoutStep(files, names, rest);
      if files[0].name in names then rest else [files[0]] + rest
  }

  lemma WithoutStep(files: seq<Backup>, names: seq<string>, rest: seq<Backup>)
    requires files != [] && Pool(rest) == Remaining(files[1..], names)
    requires Directory(files[1..]) ==> Directory(rest)
    ensures var left := if files[0].name in names then rest else [files[0]] + rest;
      Pool(left) == Remaining(files, names) && (Directory(files) ==> Directory(left))
  {
    hide Directory;
    assert files == [files[0]] + files[1..];
    assert forall b :: b in files <==> b == files[0] || b in files[1..];
    assert forall b :: b in [files[0]] + rest <==> b == files[0] || b in rest;
    assert forall b :: b in rest <==> b in Pool(rest);
    if Directory(files) {
      DirectoryTail(files);
      if files[0].name !in names {
        DirectoryCons(files, rest);
      }
    }
  }

  lemma DirectoryTail(files: seq<Backup>)
    requires files != [] && Directory(files)
    ensures Directory(files[1..])
  {
  }

  lemma DirectoryCons(files: seq<Backup>, rest: seq<Backup>)
    requires files != [] && Directory(files) && Directory(rest)
    requires forall b :: b in rest ==> b in files[1..]
    ensures Directory([files[0]] + rest)
  {
    forall i | 0 <= i < |rest|
      ensures rest[i].name != files[0].name
      ensures rest[i].scope == files[0].scope ==> rest[i].createdAt != files[0].createdAt
    {
      assert rest[i] in files[1..];
      var j :| 0 <= j < |files[1..]| && files[1..][j] == rest[i];
      assert files[j + 1] == rest[i];
    }
  }

  lemma FirstIsNewest(pool: set<Backup>, scope: Scope, all: seq<Backup>, i: nat)
    requires i < |all| && all[i].scope == scope
    requires forall j :: 0 <= j < i ==> all[j].scope != scope
    requires Sorting.Sorted(all, Age) && forall b :: b in all <==> b in pool
    ensures Newest(pool, scope) == all[i].createdAt
  {
    assert all[i] in InScope(pool, scope);
    forall b | b in InScope(pool, scope)
      ensures b.createdAt <= all[i].createdAt
    {
      var j :| 0 <= j < |all| && all[j] == b;
      assert Age(all[i]) <= Age(all[j]);
    }
    NewestUnique(pool, scope, all[i].createdAt);
  }

  lemma DirectoryAppend(files: seq<Backup>, b: Backup)
    requires Directory(files)
    requires forall x :: x in Pool(files) ==> x.name != b.name && x.createdAt < b.createdAt
    ensures Directory(files + [b])
    ensures Pool(files + [b]) == Pool(files) + {b}
  {
    assert forall i :: 0 <= i < |files| ==> files[i] in Pool(files);
  }

  // ---------------------------------------------------------------------
  // What a tick does to the newest backup of a scope
  // ---------------------------------------------------------------------

  /** The backups present after `n` turns are older than what turn `m >= n` writes. */
  lemma {:induction false} AfterIsOlder(pool: set<Backup>, setup: Setup, tick: Tick, n: nat, m: nat)
    requires n <= m < |setup.scheds| == |tick.writes|
    requires Fresh(pool, tick) && tick.writes[m].Wrote?
    ensures forall b :: b in After(pool, setup, tick, n) ==>
      b.name != tick.writes[m].name && b.createdAt < tick.writes[m].mtime
  {
    if n > 0 {
      AfterIsOlder(pool, setup, tick, n - 1, m);
    }
  }

  lemma NewestGrows(pool: set<Backup>, more: set<Backup>, scope: Scope)
    requires pool <= more
    requires forall b :: b in more ==> b.createdAt >= 0
    ensures Newest(pool, scope) <= Newest(more, scope)
  {
    assert InScope(pool, scope) <= InScope(more, scope);
  }

  ghost predicate NonNegative(pool: set<Backup>) {
    forall b :: b in pool ==> b.createdAt >= 0
  }

  /** Turns from `n` to `m` only add backups, none from before the tick. */
  lemma {:induction false} AfterGrows(pool: set<Backup>, setup: Setup, tick: Tick, n: nat, m: nat)
    requires n <= m <= |setup.scheds| == |tick.writes|
    requires Fresh(pool, tick) && NonNegative(pool)
    ensures After(pool, setup, tick, n) <= After(pool, setup, tick, m)
    ensures NonNegative(After(pool, setup, tick, m))
    ensures forall b :: b in After(pool, setup, tick, m) && b !in After(pool, setup, tick, n) ==>
      b.createdAt >= tick.now
    decreases m
  {
    if n < m {
      AfterGrows(pool, setup, tick, n, m - 1);
    } else if m > 0 {
      AfterGrows(pool, setup, tick, n - 1, m - 1);
    }
  }

  /** Once its scope has a backup from this tick, a schedule is no longer due. */
  lemma NotDueAfter(sched: BackupSchedule, last: int, now: int, zone: int)
    requires sched.Valid() && last >= now > 0
    ensures !sched.Due(last, now, zone)
  {
  }

  /** At the end of its turn and of the whole tick, an enabled schedule whose
      export succeeds is not due. */
  lemma SettledBeforePrune(pool: set<Backup>, setup: Setup, tick: Tick, n: nat)
    requires n < |setup.scheds| == |tick.writes|
    requires setup.Valid() && Fresh(pool, tick) && NonNegative(pool)
    requires setup.scheds[n].enabled && tick.writes[n].Wrote?
    ensures !IsDueIn(After(pool, setup, tick, |setup.scheds|), setup.scheds[n], tick.now, setup.zone)
  {
    var sched := setup.scheds[n];
    var at, after, end := After(pool, setup, tick, n), After(pool, setup, tick, n + 1),
      After(pool, setup, tick, |setup.scheds|);
    AfterGrows(pool, setup, tick, n, n + 1);
    AfterGrows(pool, setup, tick, n + 1, |setup.scheds|);
    var t := Newest(end, sched.scope);
    if Fires(pool, setup, tick, n) {
      var b := Backup(tick.writes[n].name, tick.writes[n].mtime, sched.scope);
      assert b in InScope(end, sched.scope);
      NotDueAfter(sched, t, tick.now, setup.zone);
    } else if InScope(end, sched.scope) == InScope(at, sched.scope) {
      NewestUnique(at, sched.scope, t);
    } else {
      assert InScope(at, sched.scope) <= InScope(end, sched.scope);
      var b :| b in InScope(end, sched.scope) && b !in InScope(at, sched.scope);
      assert b.createdAt >= tick.now;
      NotDueAfter(sched, t, tick.now, setup.zone);
    }
  }

  /** Pruning keeps a scope's newest backup, or, with no room for any, empties it. */
  lemma NewestAfterPrune(pool: set<Backup>, policy: Policy, scope: Scope)
    ensures Newest(Survivors(pool, policy), scope) ==
      if Capacity(policy, scope) > 0 then Newest(pool, scope) else 0
  {
    var peers, left := InScope(pool, scope), Survivors(pool, policy);
    if peers == {} {
      assert InScope(left, scope) == {};
      NewestUnique(left, scope, 0);
    } else {
      var b := LatestOf(peers);
      NewestUnique(pool, scope, b.createdAt);
      assert NewerThan(peers, b) == {};
      NewestSurvives(pool, policy, b);
      if Capacity(policy, scope) > 0 {
        assert b in InScope(left, scope);
        NewestUnique(left, scope, b.createdAt);
      } else {
        assert InScope(left, scope) == {} by {
          forall x | x in InScope(left, scope)
            ensures false
          {
            NoRoomNoSurvivor(pool, policy, x);
          }
        }
        NewestUnique(left, scope, 0);
      }
    }
  }

  lemma NoRoomNoSurvivor(pool: set<Backup>, policy: Policy, b: Backup)
    requires Capacity(policy, b.scope) == 0
    ensures b !in Survivors(pool, policy)
  {
  }

  /** After a tick whose exports succeed, an enabled schedule is due again at once
      exactly when something was written and the retention policy has no room for
      its scope: then every tick writes a backup and prunes it. */
  lemma TickSettles(pool: set<Backup>, setup: Setup, tick: Tick, n: nat)
    requires n < |setup.scheds| == |tick.writes|
    requires setup.Valid() && Fresh(pool, tick) && NonNegative(pool)
    requires setup.scheds[n].enabled && tick.writes[n].Wrote?
    ensures IsDueIn(AfterTick(pool, setup, tick), setup.scheds[n], tick.now, setup.zone)
      <==> Writes(pool, setup, tick) && Capacity(setup.policy, setup.scheds[n].scope) == 0
  {
    SettledBeforePrune(pool, setup, tick, n);
    NewestAfterPrune(After(pool, setup, tick, |setup.scheds|), setup.policy, setup.scheds[n].scope);
  }

  /** A daily schedule of everything under a policy that keeps nothing: the first tick
      writes a backup and leaves none, and the schedule is due again. */
  lemma NothingKeptDueAgain()
    ensures var sched := BackupSchedule(true, All, Daily, 1, 0, 0, 0, 1);
      var setup := Setup([sched], 0, Policy(0, 0, 0, 0, 0, 0));
      var tick := Tick(1, [Wrote("backup", 1)]);
      Writes({}, setup, tick) && IsDueIn(AfterTick({}, setup, tick), sched, 1, 0)
  {
    hide Newest, AfterTick;
    var sched := BackupSchedule(true, All, Daily, 1, 0, 0, 0, 1);
    var setup := Setup([sched], 0, Policy(0, 0, 0, 0, 0, 0));
    var tick := Tick(1, [Wrote("backup", 1)]);
    NewestUnique({}, All, 0);
    assert Fires({}, setup, tick, 0);
    TickSettles({}, setup, tick, 0);
  }

  // ---------------------------------------------------------------------
  // Runs
  // ---------------------------------------------------------------------

  ghost function RunTicks(pool: set<Backup>, setup: Setup, ticks: seq<Tick>): set<Backup>
    requires forall t :: t in ticks ==> |t.writes| == |setup.scheds|
  {
    if ticks == [] then pool
    else AfterTick(RunTicks(pool, setup, ticks[..|ticks| - 1]), setup, ticks[|ticks| - 1])
  }

  ghost predicate FreshRun(pool: set<Backup>, setup: Setup, ticks: seq<Tick>)
    requires forall t :: t in ticks ==> |t.writes| == |setup.scheds|
  {
    && NonNegative(pool)
    && forall i :: 0 <= i < |ticks| ==> Fresh(RunTicks(pool, setup, ticks[..i]), ticks[i])
  }

  lemma TickKeepsNewest(pool: set<Backup>, setup: Setup, tick: Tick, scope: Scope)
    requires |setup.scheds| == |tick.writes|
    requires Fresh(pool, tick) && NonNegative(pool) && Capacity(setup.policy, scope) > 0
    ensures NonNegative(AfterTick(pool, setup, tick))
    ensures Newest(pool, scope) <= Newest(AfterTick(pool, setup, tick), scope)
  {
    hide Newest, Survivors, Capacity;
    var end := After(pool, setup, tick, |setup.scheds|);
    AfterGrows(pool, setup, tick, 0, |setup.scheds|);
    NewestGrows(pool, end, scope);
    NewestAfterPrune(end, setup.policy, scope);
    SurvivorsSubset(end, setup.policy);
  }

  lemma SurvivorsSubset(pool: set<Backup>, policy: Policy)
    ensures Survivors(pool, policy) <= pool
  {
  }

  lemma TickRecordsRun(pool: set<Backup>, setup: Setup, tick: Tick, n: nat)
    requires n < |setup.scheds| == |tick.writes|
    requires Fresh(pool, tick) && NonNegative(pool) && Capacity(setup.policy, setup.scheds[n].scope) > 0
    requires Fires(pool, setup, tick, n)
    ensures 0 < tick.now <= Newest(AfterTick(pool, setup, tick), setup.scheds[n].scope)
  {
    hide Survivors, Capacity;
    var scope := setup.scheds[n].scope;
    var end := After(pool, setup, tick, |setup.scheds|);
    AfterGrows(pool, setup, tick, n + 1, |setup.scheds|);
    assert Backup(tick.writes[n].name, tick.writes[n].mtime, scope) in InScope(end, scope);
    NewestAfterPrune(end, setup.policy, scope);
  }

  lemma {:induction false} RunKeepsNewest(pool: set<Backup>, setup: Setup, ticks: seq<Tick>, i: nat, scope: Scope)
    requires forall t :: t in ticks ==> |t.writes| == |setup.scheds|
    requires FreshRun(pool, setup, ticks) && i <= |ticks| && Capacity(setup.policy, scope) > 0
    ensures NonNegative(RunTicks(pool, setup, ticks))
    ensures Newest(RunTicks(pool, setup, ticks[..i]), scope) <= Newest(RunTicks(pool, setup, ticks), scope)
    decreases |ticks|
  {
    hide Fresh, FreshRun, NonNegative, Newest, AfterTick, Capacity;
    if ticks == [] {
      assert ticks[..i] == ticks && RunTicks(pool, setup, ticks) == pool;
      assert NonNegative(pool) by {
        StartsNonNegative(pool, setup, ticks);
      }
    } else {
      var init := ticks[..|ticks| - 1];
      FreshPrefix(pool, setup, ticks);
      if i < |ticks| {
        RunKeepsNewest(pool, setup, init, i, scope);
        assert init[..i] == ticks[..i];
      } else {
        RunKeepsNewest(pool, setup, init, 0, scope);
        assert ticks[..i] == ticks;
      }
      TickKeepsNewest(RunTicks(pool, setup, init), setup, ticks[|ticks| - 1], scope);
    }
  }

  lemma StartsNonNegative(pool: set<Backup>, setup: Setup, ticks: seq<Tick>)
    requires forall t :: t in ticks ==> |t.writes| == |setup.scheds|
    requires FreshRun(pool, setup, ticks)
    ensures NonNegative(pool)
  {
  }

  lemma FreshPrefix(pool: set<Backup>, setup: Setup, ticks: seq<Tick>)
    requires forall t :: t in ticks ==> |t.writes| == |setup.scheds|
    requires FreshRun(pool, setup, ticks) && ticks != []
    ensures forall k :: 0 <= k < |ticks| ==> FreshRun(pool, setup, ticks[..k])
    ensures Fresh(RunTicks(pool, setup, ticks[..|ticks| - 1]), ticks[|ticks| - 1])
  {
    hide Fresh, RunTicks, NonNegative;
    forall k | 0 <= k < |ticks|
      ensures FreshRun(pool, setup, ticks[..k])
    {
      forall i | 0 <= i < k
        ensures Fresh(RunTicks(pool, setup, ticks[..k][..i]), ticks[..k][i])
      {
        assert ticks[..k][..i] == ticks[..i];
      }
    }
  }

  /** A daily, weekly or monthly schedule never runs twice for one scheduled
      instant: between any two of its runs another one has passed. Two runs of an
      interval schedule are at least the interval apart. Whatever else the worker
      wrote or pruned meanwhile does not matter. */
  lemma OncePerInstant(pool: set<Backup>, setup: Setup, ticks: seq<Tick>, i: nat, j: nat, n: nat)
    requires setup.Valid() && n < |setup.scheds|
    requires forall t :: t in ticks ==> |t.writes| == |setup.scheds|
    requires FreshRun(pool, setup, ticks) && i < j < |ticks|
    requires Capacity(setup.policy, setup.scheds[n].scope) > 0
    requires Fires(RunTicks(pool, setup, ticks[..i]), setup, ticks[i], n)
    requires Fires(RunTicks(pool, setup, ticks[..j]), setup, ticks[j], n)
    ensures var sched := setup.scheds[n];
      if sched.frequency == Interval then ticks[j].now - ticks[i].now >= sched.intervalHours * 60 * 60 * 1000
      else sched.Crossed(ticks[i].now, ticks[j].now, setup.zone)
  {
    var sched := setup.scheds[n];
    var mid := RunTicks(pool, setup, ticks[..j]);
    NewestSince(pool, setup, ticks, i, j, n);
    FreshPrefix(pool, setup, ticks);
    RunKeepsNewest(pool, setup, ticks[..j], 0, sched.scope);
    AfterGrows(mid, setup, ticks[j], 0, n);
    NewestGrows(mid, After(mid, setup, ticks[j], n), sched.scope);
    NotDueAtZero(After(mid, setup, ticks[j], n), sched, ticks[j].now, setup.zone);
  }

  lemma NotDueAtZero(pool: set<Backup>, sched: BackupSchedule, now: int, zone: int)
    requires IsDueIn(pool, sched, now, zone) && Newest(pool, sched.scope) > 0
    ensures if sched.frequency == Interval then now - Newest(pool, sched.scope) >= sched.intervalHours * 60 * 60 * 1000
            else sched.Crossed(Newest(pool, sched.scope), now, zone)
  {
  }

  lemma RunStep(pool: set<Backup>, setup: Setup, ticks: seq<Tick>, i: nat)
    requires forall t :: t in ticks ==> |t.writes| == |setup.scheds|
    requires FreshRun(pool, setup, ticks) && i < |ticks|
    ensures Fresh(RunTicks(pool, setup, ticks[..i]), ticks[i])
    ensures RunTicks(pool, setup, ticks[..i + 1]) == AfterTick(RunTicks(pool, setup, ticks[..i]), setup, ticks[i])
  {
    hide Fresh, AfterTick, NonNegative;
    assert ticks[..i + 1][..i] == ticks[..i];
  }

  /** From a run of a schedule on, its scope's newest backup is at least that recent. */
  lemma NewestSince(pool: set<Backup>, setup: Setup, ticks: seq<Tick>, i: nat, j: nat, n: nat)
    requires n < |setup.scheds|
    requires forall t :: t in ticks ==> |t.writes| == |setup.scheds|
    requires FreshRun(pool, setup, ticks) && i < j < |ticks|
    requires Capacity(setup.policy, setup.scheds[n].scope) > 0
    requires Fires(RunTicks(pool, setup, ticks[..i]), setup, ticks[i], n)
    ensures 0 < ticks[i].now <= Newest(RunTicks(pool, setup, ticks[..j]), setup.scheds[n].scope)
  {
    hide Newest, Fires, Fresh, AfterTick, NonNegative, Capacity, FreshRun, RunTicks;
    var scope := setup.scheds[n].scope;
    var before := RunTicks(pool, setup, ticks[..i]);
    FreshPrefix(pool, setup, ticks);
    RunKeepsNewest(pool, setup, ticks[..i], 0, scope);
    RunStep(pool, setup, ticks, i);
    TickRecordsRun(before, setup, ticks[i], n);
    assert ticks[..j][..i + 1] == ticks[..i + 1];
    RunKeepsNewest(pool, setup, ticks[..j], i + 1, scope);
  }
}
