/** The lockout of an account after failed logins, and the order of the checks in the
    login handler. */
module Lockout {
  import opened Shared

  /** Whole attempts and minutes, both positive. */
  datatype Policy = Policy(maxAttempts: int, windowMinutes: int)

  const MINUTE := 60_000

  ghost predicate Sound(p: Policy) {
    p.maxAttempts >= 1 && p.windowMinutes >= 1
  }

  function Window(p: Policy): int {
    p.windowMinutes * MINUTE
  }

  /** The columns of a user row that take part; times in milliseconds. */
  datatype User = User(failedLoginCount: nat, lockedUntil: Option<int>)

  const CLEAR := User(0, None)

  predicate IsLocked(u: User, now: int) {
    u.lockedUntil.Some? && u.lockedUntil.value > now
  }

  /** One login request: the clock at the lock check and at the end, whether the
      password is right, and whether a second factor, if any is enabled, is passed. */
  datatype Attempt = Attempt(at: int, end: int, password: bool, second: bool)

  datatype Outcome = UnknownUser | AccountLocked(until: int) | InvalidCredentials | SecondFactorFailed | LoggedIn

  function Failed(p: Policy, u: User, now: int): User {
    if u.failedLoginCount + 1 >= p.maxAttempts then User(0, Some(now + Window(p)))
    else u.(failedLoginCount := u.failedLoginCount + 1)
  }

  function Result(u: User, a: Attempt): Outcome {
    if IsLocked(u, a.at) then AccountLocked(u.lockedUntil.value)
    else if !a.password then InvalidCredentials
    else if !a.second then SecondFactorFailed
    else LoggedIn
  }

  function Next(p: Policy, u: User, a: Attempt): User {
    match Result(u, a)
    case InvalidCredentials => Failed(p, u, a.end)
    case LoggedIn => CLEAR
    case _ => u
  }

  // ---------------------------------------------------------------------
  // The program
  // ---------------------------------------------------------------------

  class Users {
    var rows: map<string, User>

    constructor (rows: map<string, User>)
      ensures this.rows == rows
    {
      this.rows := rows;
    }

    method RecordFailure(id: string, policy: Policy, now: int) returns (locked: bool)
      requires id in rows
      modifies this
      ensures rows == old(rows)[id := Failed(policy, old(rows)[id], now)]
      ensures locked <==> old(rows)[id].failedLoginCount + 1 >= policy.maxAttempts
      ensures rows == old(rows)[id :=
        if locked then User(0, Some(now + 60_000 * policy.windowMinutes))
        else User(old(rows)[id].failedLoginCount + 1, old(rows)[id].lockedUntil)]
    {
      var user := rows[id];
      var nextCount := user.failedLoginCount + 1;
      if nextCount >= policy.maxAttempts {
        rows := rows[id := User(0, Some(now + policy.windowMinutes * MINUTE))];
        return true;
      }
      rows := rows[id := user.(failedLoginCount := nextCount)];
      return false;
    }

    method RecordSuccess(id: string)
      requires id in rows
      modifies this
      ensures rows == old(rows)[id := CLEAR]
    {
      rows := rows[id := User(0, None)];
    }

    /** `checked` tells whether the password was looked at. */
    method Login(id: string, policy: Policy, a: Attempt) returns (r: Outcome, checked: bool)
      modifies this
      ensures id !in old(rows) ==> r == UnknownUser && !checked && rows == old(rows)
      ensures id in old(rows) ==>
        && r == Result(old(rows)[id], a)
        && rows == old(rows)[id := Next(policy, old(rows)[id], a)]
        && (checked <==> !IsLocked(old(rows)[id], a.at))
      ensures id in old(rows) ==>
        var u := old(rows)[id];
        if u.lockedUntil.Some? && a.at < u.lockedUntil.value then
          r == AccountLocked(u.lockedUntil.value) && !checked && rows == old(rows)
        else if !a.password then
          && r == InvalidCredentials && checked
          && rows == old(rows)[id :=
            if u.failedLoginCount + 1 >= policy.maxAttempts then User(0, Some(a.end + 60_000 * policy.windowMinutes))
            else User(u.failedLoginCount + 1, u.lockedUntil)]
        else if !a.second then r == SecondFactorFailed && checked && rows == old(rows)
        else r == LoggedIn && checked && rows == old(rows)[id := User(0, None)]
    {
      checked := false;
      if id !in rows {
        return UnknownUser, false;
      }
      var user := rows[id];
      if user.lockedUntil.Some? && user.lockedUntil.value > a.at {
        return AccountLocked(user.lockedUntil.value), false;
      }
      checked := true;
      if !a.password {
        var _ := RecordFailure(id, policy, a.end);
        return InvalidCredentials, true;
      }
      if !a.second {
        return SecondFactorFailed, true;
      }
      RecordSuccess(id);
      r := LoggedIn;
    }
  }

  // ---------------------------------------------------------------------
  // Runs against one account
  // ---------------------------------------------------------------------

  function After(p: Policy, u: User, run: seq<Attempt>): User
    decreases |run|
  {
    if run == [] then u else After(p, Next(p, u, run[0]), run[1..])
  }

  function Outcomes(p: Policy, u: User, run: seq<Attempt>): (r: seq<Outcome>)
    ensures |r| == |run|
    decreases |run|
  {
    if run == [] then [] else [Result(u, run[0])] + Outcomes(p, Next(p, u, run[0]), run[1..])
  }

  ghost predicate Chronological(run: seq<Attempt>) {
    && (forall i :: 0 <= i < |run| ==> run[i].at <= run[i].end)
    && (forall i, j :: 0 <= i < j < |run| ==> run[i].end <= run[j].at)
  }

  /** The counter stays below the limit; reaching it locks the account. */
  lemma {:induction false} CounterBelowLimit(p: Policy, u: User, run: seq<Attempt>)
    requires Sound(p) && u.failedLoginCount < p.maxAttempts
    ensures After(p, u, run).failedLoginCount < p.maxAttempts
    decreases |run|
  {
    if run != [] {
      CounterBelowLimit(p, Next(p, u, run[0]), run[1..]);
    }
  }

  /** Attempts on a locked account neither prolong the lock nor count. */
  lemma {:induction false} LockedChangesNothing(p: Policy, u: User, run: seq<Attempt>)
    requires forall i :: 0 <= i < |run| ==> IsLocked(u, run[i].at)
    ensures After(p, u, run) == u
    ensures forall i :: 0 <= i < |run| ==> Outcomes(p, u, run)[i] == AccountLocked(u.lockedUntil.value)
    decreases |run|
  {
    if run != [] {
      LockedChangesNothing(p, u, run[1..]);
      forall i | 0 < i < |run|
        ensures Outcomes(p, u, run)[i] == Outcomes(p, u, run[1..])[i - 1]
      {
      }
    }
  }

  /** The attempts of a run that were counted as failures. */
  function Counted(p: Policy, u: User, run: seq<Attempt>): seq<Attempt>
    decreases |run|
  {
    if run == [] then []
    else (if Result(u, run[0]).InvalidCredentials? then [run[0]] else []) + Counted(p, Next(p, u, run[0]), run[1..])
  }

  /** The attempts, made one after the other, all count as failures. */
  ghost predicate Failing(p: Policy, u: User, c: seq<Attempt>)
    decreases |c|
  {
    c == [] || (Result(u, c[0]).InvalidCredentials? && Failing(p, Next(p, u, c[0]), c[1..]))
  }

  /** What is not counted leaves no trace, unless it is a login. */
  lemma {:induction false} CountedFail(p: Policy, u: User, run: seq<Attempt>)
    requires LoggedIn !in Outcomes(p, u, run)
    ensures Failing(p, u, Counted(p, u, run))
    decreases |run|
  {
    if run != [] {
      var o := Outcomes(p, u, run);
      var next := Next(p, u, run[0]);
      assert o[0] in o;
      assert forall x :: x in o[1..] ==> x in o;
      assert o[1..] == Outcomes(p, next, run[1..]);
      CountedFail(p, next, run[1..]);
      if Result(u, run[0]).InvalidCredentials? {
        assert Counted(p, u, run)[1..] == Counted(p, next, run[1..]);
      } else {
        assert Counted(p, u, run) == Counted(p, u, run[1..]);
      }
    }
  }

  lemma {:induction false} CountedChronological(p: Policy, u: User, run: seq<Attempt>, start: int)
    requires Chronological(run) && forall i :: 0 <= i < |run| ==> start <= run[i].at
    ensures Chronological(Counted(p, u, run))
    ensures forall i :: 0 <= i < |Counted(p, u, run)| ==> start <= Counted(p, u, run)[i].at
    decreases |run|
  {
    if run != [] {
      var next := Next(p, u, run[0]);
      CountedChronological(p, next, run[1..], run[0].end);
    }
  }

  /** `n` more failures reach the limit: after the last of them the next attempt that
      counts has to wait for the whole window. */
  lemma {:induction false} LimitReached(p: Policy, u: User, c: seq<Attempt>, n: nat)
    requires Sound(p) && Failing(p, u, c) && n < |c|
    requires n >= 1 && u.failedLoginCount + n == p.maxAttempts
    ensures c[n].at >= c[n - 1].end + Window(p)
    decreases n
  {
    var next := Next(p, u, c[0]);
    assert c[1..][0] == c[1];
    if n > 1 {
      LimitReached(p, next, c[1..], n - 1);
      assert c[1..][n - 1] == c[n] && c[1..][n - 2] == c[n - 1];
    }
  }

  lemma OneWindow(p: Policy, u: User, c: seq<Attempt>)
    requires Sound(p) && u.failedLoginCount < p.maxAttempts && Failing(p, u, c) && Chronological(c)
    requires |c| > p.maxAttempts
    ensures c[p.maxAttempts].at >= c[0].end + Window(p)
  {
    hide Failing, Window;
    var n := p.maxAttempts - u.failedLoginCount;
    LimitReached(p, u, c, n);
    if n > 1 {
      assert c[0].end <= c[n - 1].at <= c[n - 1].end;
    }
    if n < p.maxAttempts {
      assert c[n].at <= c[n].end <= c[p.maxAttempts].at;
    }
  }

  lemma {:induction false} Suffix(p: Policy, u: User, c: seq<Attempt>, i: nat)
    requires Sound(p) && u.failedLoginCount < p.maxAttempts && Failing(p, u, c) && i <= |c|
    ensures Failing(p, After(p, u, c[..i]), c[i..]) && After(p, u, c[..i]).failedLoginCount < p.maxAttempts
    decreases i
  {
    if i > 0 {
      assert c[..i][1..] == c[1..][..i - 1] && c[1..][i - 1..] == c[i..];
      Suffix(p, Next(p, u, c[0]), c[1..], i - 1);
    } else {
      assert c[..0] == [] && c[0..] == c;
    }
  }

  function Times(k: nat, m: int): int {
    k * m
  }

  lemma TimesStep(k: nat, m: int)
    requires k >= 1
    ensures Times(k, m) == Times(k - 1, m) + m && Times(0, m) == 0
    ensures m >= 0 ==> Times(k - 1, m) >= 0
  {
  }

  lemma {:induction false} ManyWindows(p: Policy, u: User, c: seq<Attempt>, k: nat, i: nat)
    requires Sound(p) && u.failedLoginCount < p.maxAttempts && Failing(p, u, c) && Chronological(c)
    requires k >= 1 && i + Times(k, p.maxAttempts) < |c|
    ensures 0 <= i + Times(k, p.maxAttempts)
    ensures c[i + Times(k, p.maxAttempts)].at - c[i].end >= Times(k, Window(p))
    decreases k
  {
    hide Failing, Window, Times;
    var m := p.maxAttempts;
    TimesStep(k, m);
    TimesStep(k, Window(p));
    var j: nat := i + Times(k - 1, m);
    Suffix(p, u, c, j);
    OneWindow(p, After(p, u, c[..j]), c[j..]);
    assert c[j..][m] == c[j + m] && c[j..][0] == c[j];
    if k > 1 {
      ManyWindows(p, u, c, k - 1, i);
      assert c[j].at <= c[j].end;
    }
  }

  /** The rate bound: in a run without a successful login, any k * maxAttempts + 1
      counted failures in a row take at least k windows, whatever comes in between. */
  lemma RateBound(p: Policy, u: User, run: seq<Attempt>, k: nat, i: nat)
    requires Sound(p) && u.failedLoginCount < p.maxAttempts
    requires Chronological(run) && LoggedIn !in Outcomes(p, u, run)
    requires k >= 1 && i + k * p.maxAttempts < |Counted(p, u, run)|
    ensures 0 <= i + k * p.maxAttempts
    ensures Counted(p, u, run)[i + k * p.maxAttempts].at - Counted(p, u, run)[i].end >= k * Window(p)
  {
    hide Failing, Window, Counted;
    CountedFail(p, u, run);
    CountedChronological(p, u, run, if run == [] then 0 else run[0].at);
    assert Times(k, p.maxAttempts) == k * p.maxAttempts;
    ManyWindows(p, u, Counted(p, u, run), k, i);
  }

  /** The attempt at `i` is a counted failure that reaches the limit. */
  ghost predicate Trips(p: Policy, u: User, run: seq<Attempt>, i: nat)
    requires i < |run|
  {
    var before := After(p, u, run[..i]);
    Result(before, run[i]).InvalidCredentials? && before.failedLoginCount + 1 >= p.maxAttempts
  }

  lemma {:induction false} AfterLast(p: Policy, u: User, run: seq<Attempt>)
    requires run != []
    ensures After(p, u, run) == Next(p, After(p, u, run[..|run| - 1]), run[|run| - 1])
    decreases |run|
  {
    if |run| == 1 {
      assert run[..0] == [] && run[1..] == [];
    } else {
      AfterLast(p, Next(p, u, run[0]), run[1..]);
      assert run[..|run| - 1][1..] == run[1..][..|run| - 2];
    }
  }

  /** A lock on record is the one set by the latest failure that reached the limit. */
  lemma {:induction false} LatestTrip(p: Policy, u: User, run: seq<Attempt>) returns (i: nat)
    requires u.lockedUntil.None? && After(p, u, run).lockedUntil.Some?
    ensures i < |run| && Trips(p, u, run, i) && After(p, u, run).lockedUntil == Some(run[i].end + Window(p))
    ensures forall j :: i < j < |run| ==> !Trips(p, u, run, j)
    decreases |run|
  {
    hide Window;
    AfterLast(p, u, run);
    var init := run[..|run| - 1];
    if Trips(p, u, run, |run| - 1) {
      i := |run| - 1;
    } else {
      i := LatestTrip(p, u, init);
      forall j: nat | j < |init|
        ensures Trips(p, u, init, j) <==> Trips(p, u, run, j)
      {
        assert init[..j] == run[..j];
      }
    }
  }

  lemma {:induction false} AfterSplit(p: Policy, u: User, run: seq<Attempt>, i: nat)
    requires i <= |run|
    ensures After(p, u, run) == After(p, After(p, u, run[..i]), run[i..])
    decreases i
  {
    hide Next;
    if i > 0 {
      assert run[..i][1..] == run[1..][..i - 1] && run[1..][i - 1..] == run[i..];
      AfterSplit(p, Next(p, u, run[0]), run[1..], i - 1);
    } else {
      assert run[..0] == [] && run[0..] == run;
    }
  }

  /** An account is locked exactly for one window after a failure that reached the
      limit, whatever else is tried in the meantime. */
  lemma LockedExactly(p: Policy, run: seq<Attempt>, now: int)
    requires Chronological(run) && forall i :: 0 <= i < |run| ==> run[i].end <= now
    ensures IsLocked(After(p, CLEAR, run), now) <==>
            exists i :: 0 <= i < |run| && Trips(p, CLEAR, run, i) && now < run[i].end + Window(p)
  {
    hide Window, After, Trips;
    if IsLocked(After(p, CLEAR, run), now) {
      var i := LatestTrip(p, CLEAR, run);
    }
    if i: nat :| i < |run| && Trips(p, CLEAR, run, i) && now < run[i].end + Window(p) {
      TripLocks(p, CLEAR, run, i, now);
    }
  }

  lemma TripLocks(p: Policy, u: User, run: seq<Attempt>, i: nat, now: int)
    requires Chronological(run) && i < |run| && Trips(p, u, run, i)
    requires now < run[i].end + Window(p) && forall j :: 0 <= j < |run| ==> run[j].end <= now
    ensures IsLocked(After(p, u, run), now)
  {
    hide Window;
    var head := run[..i + 1];
    AfterLast(p, u, head);
    assert head[..i] == run[..i] && head[i] == run[i];
    assert After(p, u, head).lockedUntil == Some(run[i].end + Window(p));
    AfterSplit(p, u, run, i + 1);
    var rest := run[i + 1..];
    forall j | 0 <= j < |rest|
      ensures IsLocked(After(p, u, head), rest[j].at)
    {
      assert rest[j].at <= rest[j].end;
    }
    LockedChangesNothing(p, After(p, u, head), rest);
  }
}
