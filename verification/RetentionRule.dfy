/** The retention rule in terms of the calendar: which count governs which scope, and
    what a day, a week and a month are. */
module RetentionRule {
  import opened BucketKeys
  import opened Calendar
  import opened Retention
  import opened Shared

  /** The more recent backups of the same scope. */
  ghost function Later(pool: set<Backup>, b: Backup): set<Backup> {
    set x | x in pool && x.scope == b.scope && x.createdAt > b.createdAt
  }

  function Day(b: Backup): int {
    b.createdAt / 86_400_000
  }

  /** Weeks begin on Mondays; 29 December 1969 was one. */
  function Week(b: Backup): int {
    (Day(b) + 3) / 7
  }

  function Month(b: Backup): (int, int) {
    (YearOf(Day(b)), MonthOf(Day(b)))
  }

  /** `b` is the newest of its period, and fewer than `count` later periods have backups. */
  ghost predicate NewestOf<K>(later: set<Backup>, period: Backup -> K, count: int, b: Backup) {
    && (forall x :: x in later ==> period(x) != period(b))
    && |set x | x in later :: period(x)| < count
  }

  ghost predicate KeptByCalendar(pool: set<Backup>, policy: Policy, b: Backup) {
    var later := Later(pool, b);
    || (b.scope == All && |later| < policy.keepAll)
    || (b.scope == Config && |later| < policy.keepConfig)
    || (b.scope == Data && |later| < policy.keepData)
    || NewestOf(later, Day, policy.daily, b)
    || NewestOf(later, Week, policy.weekly, b)
    || NewestOf(later, Month, policy.monthly, b)
  }

  /** The years in which keys of days, weeks and months are exact. */
  ghost predicate Datable(pool: set<Backup>) {
    forall b :: b in pool ==> 100 <= YearOf(b.createdAt / 86_400_000) < 10_000
  }

  /** Two ways to name the periods agree if they tell the same backups apart. */
  lemma {:induction false} KeysAlike<K, L>(s: set<Backup>, f: Backup -> K, g: Backup -> L)
    requires forall a, b :: a in s && b in s ==> (f(a) == f(b) <==> g(a) == g(b))
    ensures |KeysOf(s, f)| == |KeysOf(s, g)|
    decreases s
  {
    if s == {} {
      assert KeysOf(s, f) == {} && KeysOf(s, g) == {};
    } else {
      var x :| x in s;
      KeysAlike(s - {x}, f, g);
      KeysPlus(s, f, x);
      KeysPlus(s, g, x);
    }
  }

  lemma KeysPlus<K>(s: set<Backup>, f: Backup -> K, x: Backup)
    requires x in s
    ensures var rest := KeysOf(s - {x}, f);
      && |KeysOf(s, f)| == |rest| + (if f(x) in rest then 0 else 1)
      && (f(x) in rest <==> exists y :: y in s && y != x && f(y) == f(x))
  {
    assert KeysOf(s, f) == KeysOf(s - {x}, f) + {f(x)};
  }

  lemma RuleAlike<K, L>(pool: set<Backup>, f: Backup -> K, g: Backup -> L, count: int, b: Backup)
    requires b in pool
    requires forall x, y :: x in pool && y in pool ==> (f(x) == f(y) <==> g(x) == g(y))
    ensures Protected(InScope(pool, b.scope), f, count, b) <==> NewestOf(Later(pool, b), g, count, b)
  {
    var later := Later(pool, b);
    assert NewerThan(InScope(pool, b.scope), b) == later;
    KeysAlike(later, f, g);
    assert KeysOf(later, g) == set x | x in later :: g(x);
  }

  lemma SameDay(a: Backup, b: Backup)
    requires 100 <= YearOf(Day(a)) < 10_000 && 100 <= YearOf(Day(b)) < 10_000
    ensures By(DayKey)(a) == By(DayKey)(b) <==> Day(a) == Day(b)
    ensures By(MonthKey)(a) == By(MonthKey)(b) <==> Month(a) == Month(b)
  {
    hide DayKey, MonthKey, YearOf, MonthOf;
    DateKeysExact(a.createdAt, b.createdAt);
  }

  lemma SameWeek(a: Backup, b: Backup)
    requires 100 <= YearOf(Day(a)) < 10_000 && 100 <= YearOf(Day(b)) < 10_000
    ensures By(WeekKey)(a) == By(WeekKey)(b) <==> Week(a) == Week(b)
  {
    hide WeekKey, YearOf;
    WeekKeyExact(a.createdAt, b.createdAt);
    MondayIs(Day(a));
    MondayIs(Day(b));
  }

  lemma MondayIs(day: int)
    ensures Monday(day) == (day + 3) / 7 * 7 - 3
  {
    var q, w := (day + 4) / 7, (day + 4) % 7;
    assert day == 7 * q + w - 4;
    assert (w + 6) % 7 == if w == 0 then 6 else w - 1;
    assert (day + 3) / 7 == if w == 0 then q - 1 else q;
  }

  /** A backup survives exactly if it is among the newest of its scope, as many as the
      scope's own count says, or the newest of one of the latest days, weeks or months. */
  lemma SurvivesExactly(pool: set<Backup>, policy: Policy, b: Backup)
    requires Datable(pool) && b in pool
    ensures b in Survivors(pool, policy) <==> KeptByCalendar(pool, policy, b)
  {
    hide By, DayKey, WeekKey, MonthKey, YearOf, MonthOf, Protected, NewestOf, Day, Week, Month;
    forall x, y | x in pool && y in pool
      ensures By(DayKey)(x) == By(DayKey)(y) <==> Day(x) == Day(y)
      ensures By(WeekKey)(x) == By(WeekKey)(y) <==> Week(x) == Week(y)
      ensures By(MonthKey)(x) == By(MonthKey)(y) <==> Month(x) == Month(y)
    {
      DayIs(x);
      DayIs(y);
      SameDay(x, y);
      SameWeek(x, y);
    }
    RuleAlike(pool, By(DayKey), Day, policy.daily, b);
    RuleAlike(pool, By(WeekKey), Week, policy.weekly, b);
    RuleAlike(pool, By(MonthKey), Month, policy.monthly, b);
    NewestCount(pool, policy.KeepLatest(b.scope), b);
  }

  /** The names that pruning deletes are those of the backups the rule does not keep. */
  lemma PrunedExactly(backups: seq<Backup>, policy: Policy, b: Backup)
    requires Directory(backups) && Datable(Pool(backups)) && b in backups
    ensures b.name in NamesOutside(backups, KeepNames(backups, policy)) <==>
            !KeptByCalendar(Pool(backups), policy, b)
  {
    hide KeptByCalendar, Survivors, KeepNames, NamesOutside, Directory;
    PruneLeavesSurvivors(backups, policy);
    SurvivesExactly(Pool(backups), policy, b);
    assert b in Remaining(backups, NamesOutside(backups, KeepNames(backups, policy))) <==>
           b.name !in NamesOutside(backups, KeepNames(backups, policy));
  }

  /** They come in the order of the backups, each as often as it is listed. */
  lemma {:induction false} PrunedInOrder(a: seq<Backup>, b: seq<Backup>, keep: set<string>, x: Backup)
    ensures NamesOutside([], keep) == []
    ensures NamesOutside([x], keep) == if x.name in keep then [] else [x.name]
    ensures NamesOutside(a + b, keep) == NamesOutside(a, keep) + NamesOutside(b, keep)
    decreases |b|
  {
    assert [x][..0] == [];
    if b == [] {
      assert a + b == a;
    } else {
      var n := |b| - 1;
      PrunedInOrder(a, b[..n], keep, x);
      assert (a + b)[..|a + b| - 1] == a + b[..n];
      assert (a + b)[|a + b| - 1] == b[n];
      assert b == b[..n] + [b[n]];
    }
  }

  lemma DayIs(b: Backup)
    ensures Day(b) == b.createdAt / 86_400_000
  {
  }

  lemma NewestCount(pool: set<Backup>, count: int, b: Backup)
    requires b in pool
    ensures Protected(InScope(pool, b.scope), Itself, count, b) <==> |Later(pool, b)| < count
  {
    var later := Later(pool, b);
    assert NewerThan(InScope(pool, b.scope), b) == later;
    assert KeysOf(later, Itself) == later;
  }
}
