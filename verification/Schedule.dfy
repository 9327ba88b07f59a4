/** When automatic backups run. Local time is UTC plus a fixed `zone`. */
module Schedule {
  import opened Calendar
  import opened Shared

  datatype Frequency = Interval | Daily | Weekly | Monthly

  datatype BackupSchedule = BackupSchedule(
    enabled: bool,
    scope: Scope,
    frequency: Frequency,
    intervalHours: int,
    hour: int,
    minute: int,
    weekday: int,
    dayOfMonth: int)
  {
    /** The field ranges the schedule endpoint accepts. */
    predicate Valid() {
      && intervalHours > 0
      && 0 <= hour < 24 && 0 <= minute < 60
      && 0 <= weekday <= 6
      && 1 <= dayOfMonth <= 31
    }

    /** The instant at which local day `day` shows the scheduled time. */
    function At(day: int, zone: int): int {
      day * MS_PER_DAY + (hour * 60 + minute) * 60_000 - zone
    }

    /** The days a daily, weekly or monthly schedule runs on; a monthly one moves to
        the last date of a month that is too short. */
    predicate RunsOn(day: int) {
      match frequency
      case Interval => false
      case Daily => true
      case Weekly => WeekDay(day) == weekday
      case Monthly => DateOf(day) == Clamped(day)
    }

    function Clamped(day: int): (d: int)
      ensures Valid() ==> 1 <= d <= 31 && d <= DaysInMonth(YearOf(day), MonthOf(day))
    {
      var dim := LastDate(YearOf(day), MonthOf(day));
      if dayOfMonth < dim then dayOfMonth else dim
    }

    /** At instant `t` the local clock shows the scheduled time, to the millisecond, on a
        day the schedule is meant for. */
    ghost predicate Strikes(t: int, zone: int) {
      var minutes := (t + zone) / 60_000;
      var hours := minutes / 60;
      var day := hours / 24;
      && hours % 24 == hour && minutes % 60 == minute && (t + zone) % 60_000 == 0
      && match frequency
         case Interval => false
         case Daily => true
         case Weekly => WeekDay(day) == weekday
         case Monthly =>
           var last := LastDate(YearOf(day), MonthOf(day));
           DateOf(day) == if dayOfMonth <= last then dayOfMonth else last
    }

    /** Some scheduled instant lies after `last` and not after `now`. */
    ghost predicate Crossed(last: int, now: int, zone: int) {
      exists t :: last < t <= now && Strikes(t, zone)
    }

    ghost predicate Due(last: int, now: int, zone: int) {
      || last == 0
      || if frequency == Interval then now >= last + intervalHours * 60 * 60 * 1000 else Crossed(last, now, zone)
    }
  }

  // ---------------------------------------------------------------------
  // Scheduled instants
  // ---------------------------------------------------------------------

  /** The run days give the instants at which the clock shows the scheduled time. */
  lemma StrikesExactly(sched: BackupSchedule, t: int, zone: int)
    requires sched.Valid()
    ensures sched.Strikes(t, zone) <==> exists day :: sched.RunsOn(day) && t == sched.At(day, zone)
  {
    hide WeekDay, YearOf, MonthOf, DateOf, LastDate;
    if sched.Strikes(t, zone) {
      var minutes := (t + zone) / 60_000;
      var day := minutes / 60 / 24;
      assert minutes == (24 * day + sched.hour) * 60 + sched.minute;
      assert sched.RunsOn(day) && t == sched.At(day, zone);
    }
    if d :| sched.RunsOn(d) && t == sched.At(d, zone) {
      ShownAt(t + zone, d, sched.hour, sched.minute);
    }
  }

  lemma ShownAt(clock: int, day: int, hour: int, minute: int)
    requires 0 <= hour < 24 && 0 <= minute < 60
    requires clock == 60_000 * (60 * (24 * day + hour) + minute)
    ensures clock % 60_000 == 0 && clock / 60_000 == 60 * (24 * day + hour) + minute
    ensures clock / 60_000 / 60 == 24 * day + hour && clock / 60_000 % 60 == minute
    ensures clock / 60_000 / 60 / 24 == day && clock / 60_000 / 60 % 24 == hour
  {
    var minutes := 60 * (24 * day + hour) + minute;
    assert clock / 60_000 == minutes;
    assert minutes / 60 == 24 * day + hour;
  }

  // ---------------------------------------------------------------------
  // Walking back through the calendar
  // ---------------------------------------------------------------------

  /** The last local day whose scheduled time is not after `now`. */
  function LatestDay(sched: BackupSchedule, now: int, zone: int): (day: int)
    requires sched.Valid()
    ensures sched.At(day, zone) <= now < sched.At(day + 1, zone)
  {
    var today := DayOf(now + zone);
    if sched.At(today, zone) > now then today - 1 else today
  }

  lemma BackWithinMonth(day: int, j: nat)
    requires j < DateOf(day)
    ensures YearOf(day - j) == YearOf(day) && MonthOf(day - j) == MonthOf(day)
    ensures DateOf(day - j) == DateOf(day) - j
  {
    hide YearOf, MonthOf, DayFromYear, DaysBefore, DaysInMonth;
    assert day == DayNumber(YearOf(day), MonthOf(day), DateOf(day));
    CivilUnique(YearOf(day), MonthOf(day), DateOf(day) - j);
  }

  /** From any day, a monthly run day is at most thirty days back; in the year 0, whose
      29 February is not taken for the last date of its month, at most thirty-one. */
  lemma MonthlyWithinThirty(sched: BackupSchedule, day: int) returns (k: nat)
    requires sched.Valid() && sched.frequency == Monthly
    ensures sched.RunsOn(day - k) && k <= if YearOf(day) == 0 then 31 else 30
  {
    hide YearOf, MonthOf, DateOf, DaysInMonth, LastDate;
    var d, c := DateOf(day), sched.Clamped(day);
    if d >= c {
      k := d - c;
      var _ := LastDateBounds(day);
      BackWithinMonth(day, k);
    } else {
      k := MonthBeforeRuns(sched, day);
    }
  }

  /** Before this month's run day, the run day of the month before counts. */
  lemma MonthBeforeRuns(sched: BackupSchedule, day: int) returns (k: nat)
    requires sched.Valid() && sched.frequency == Monthly && DateOf(day) < sched.Clamped(day)
    ensures sched.RunsOn(day - k) && k <= if YearOf(day) == 0 then 31 else 30
  {
    hide YearOf, MonthOf, DateOf, DaysInMonth, LastDate, IsMonthEnd, BackupSchedule.RunsOn;
    var end := LastMonthEnd(day);
    var back := RunOfMonth(sched, end);
    NextMonth(end);
    BackWithinMonth(day, DateOf(day) - 1);
    assert day - (DateOf(day) - 1) == end + 1;
    ClampedBound(sched, day);
    k := DateOf(day) + back;
  }

  lemma ClampedBound(sched: BackupSchedule, day: int)
    requires sched.Valid()
    ensures sched.Clamped(day) <= sched.dayOfMonth && sched.Clamped(day) <= 31
  {
    hide YearOf, MonthOf;
  }

  /** The run day of a month, seen from its last day. */
  lemma RunOfMonth(sched: BackupSchedule, end: int) returns (back: nat)
    requires sched.Valid() && sched.frequency == Monthly && IsMonthEnd(end)
    ensures sched.RunsOn(end - back)
    ensures back + sched.dayOfMonth <= 31 || back == 0 || (back == 1 && YearOf(end) == 0 && MonthOf(end) == 1)
  {
    hide YearOf, MonthOf, DateOf, DaysInMonth, LastDate, IsMonthEnd;
    var last := LastDateBounds(end);
    MonthEndIs(end);
    var run := if sched.dayOfMonth < last then sched.dayOfMonth else last;
    assert sched.Clamped(end) == run;
    back := DateOf(end) - run;
    BackWithinMonth(end, back);
  }

  lemma MonthEndIs(end: int)
    requires IsMonthEnd(end)
    ensures DateOf(end) == DaysInMonth(YearOf(end), MonthOf(end))
  {
  }

  lemma LastDateBounds(day: int) returns (last: int)
    ensures last == LastDate(YearOf(day), MonthOf(day)) && 28 <= last
    ensures var dim := DaysInMonth(YearOf(day), MonthOf(day));
      dim <= 31 && (last == dim || (last == dim - 1 && YearOf(day) == 0 && MonthOf(day) == 1))
  {
    hide YearOf, MonthOf;
    last := LastDate(YearOf(day), MonthOf(day));
  }

  lemma NextMonth(end: int)
    requires IsMonthEnd(end)
    ensures MonthOf(end) == 1 ==> YearOf(end + 1) == YearOf(end)
  {
    hide YearOf, MonthOf, DayFromYear, DaysInMonth;
    if MonthOf(end) == 1 {
      assert end == DayNumber(YearOf(end), MonthOf(end), DateOf(end));
      CivilUnique(YearOf(end), 2, 1);
    }
  }

  lemma LastMonthEnd(day: int) returns (end: int)
    ensures end == day - DateOf(day) && IsMonthEnd(end)
  {
    hide YearOf, MonthOf, DateOf, DaysInMonth, IsMonthEnd;
    BackWithinMonth(day, DateOf(day) - 1);
    MonthBefore(day - (DateOf(day) - 1));
    end := day - DateOf(day);
  }

  lemma WeeklyWithinSix(sched: BackupSchedule, day: int) returns (k: nat)
    requires sched.Valid() && sched.frequency == Weekly
    ensures k <= 6 && sched.RunsOn(day - k)
  {
    k := (WeekDay(day) - sched.weekday) % 7;
  }

  /** Every later instant is later than the whole of the days before it. */
  lemma InstantsOrdered(sched: BackupSchedule, d: int, e: int, zone: int)
    ensures d < e <==> sched.At(d, zone) < sched.At(e, zone)
  {
  }

  lemma DueExactly(sched: BackupSchedule, last: int, now: int, zone: int)
    ensures sched.Due(last, now, zone) <==>
      || last == 0
      || if sched.frequency == Interval then now - last >= 3_600_000 * sched.intervalHours
         else exists t :: last < t <= now && sched.Strikes(t, zone)
  {
    hide BackupSchedule.Strikes;
  }

  method IsDue(sched: BackupSchedule, lastMs: int, now: int, zone: int) returns (due: bool)
    requires sched.Valid()
    ensures due <==> sched.Due(lastMs, now, zone)
    ensures due <==>
      || lastMs == 0
      || if sched.frequency == Interval then now - lastMs >= 3_600_000 * sched.intervalHours
         else exists t :: lastMs < t <= now && sched.Strikes(t, zone)
  {
    hide LatestDay, DateOf, WeekDay, YearOf, MonthOf, DaysInMonth, LastDate;
    hide BackupSchedule.At, BackupSchedule.Crossed, BackupSchedule.RunsOn;
    hide BackupSchedule.Strikes;
    DueExactly(sched, lastMs, now, zone);
    if lastMs == 0 {
      return true;
    }
    if sched.frequency == Interval {
      return now >= lastMs + sched.intervalHours * 60 * 60 * 1000;
    }
    var target := LatestDay(sched, now, zone);
    ghost var start := target;
    if sched.frequency == Weekly {
      ghost var k := WeeklyWithinSix(sched, start);
      RunsWeekly(sched, target);
      while WeekDay(target) != sched.weekday
        invariant start - k <= target <= start
        invariant sched.RunsOn(target) <==> WeekDay(target) == sched.weekday
        invariant forall d :: target < d <= start ==> !sched.RunsOn(d)
        decreases target - (start - k)
      {
        target := target - 1;
        RunsWeekly(sched, target);
      }
      assert start - target <= 6;
    } else if sched.frequency == Monthly {
      ghost var k := MonthlyWithinThirty(sched, start);
      for i := 0 to 40
        invariant i <= k && target == start - i
        invariant forall d :: target < d <= start ==> !sched.RunsOn(d)
      {
        RunsMonthly(sched, target);
        var dim := LastDate(YearOf(target), MonthOf(target));
        if DateOf(target) == (if sched.dayOfMonth < dim then sched.dayOfMonth else dim) {
          break;
        }
        target := target - 1;
      }
    } else {
      RunsDaily(sched, target);
    }
    LatestRunDecides(sched, lastMs, now, zone, start, target);
    due := lastMs < sched.At(target, zone);
  }

  lemma RunsDaily(sched: BackupSchedule, day: int)
    requires sched.frequency == Daily
    ensures sched.RunsOn(day)
  {
  }

  lemma RunsWeekly(sched: BackupSchedule, day: int)
    requires sched.frequency == Weekly
    ensures sched.RunsOn(day) <==> WeekDay(day) == sched.weekday
  {
  }

  lemma RunsMonthly(sched: BackupSchedule, day: int)
    requires sched.frequency == Monthly
    ensures var dim := LastDate(YearOf(day), MonthOf(day));
      sched.RunsOn(day) <==> DateOf(day) == if sched.dayOfMonth < dim then sched.dayOfMonth else dim
  {
  }

  /** The most recent run day decides whether any run day was crossed. */
  lemma LatestRunDecides(sched: BackupSchedule, last: int, now: int, zone: int, start: int, target: int)
    requires sched.Valid() && start == LatestDay(sched, now, zone)
    requires target <= start && sched.RunsOn(target)
    requires forall d :: target < d <= start ==> !sched.RunsOn(d)
    ensures sched.Crossed(last, now, zone) <==> last < sched.At(target, zone)
  {
    hide BackupSchedule.Strikes, BackupSchedule.RunsOn, BackupSchedule.At;
    InstantsOrdered(sched, start, target, zone);
    StrikesExactly(sched, sched.At(target, zone), zone);
    if sched.Crossed(last, now, zone) {
      var t :| last < t <= now && sched.Strikes(t, zone);
      StrikesExactly(sched, t, zone);
      var d :| sched.RunsOn(d) && t == sched.At(d, zone);
      InstantsOrdered(sched, start + 1, d, zone);
      InstantsOrdered(sched, target, d, zone);
    }
  }
}
