/**
 The scheduled update check: once per day, per ISO week or per month, decided by comparing an
 occurrence key with the last one claimed in the state file.
 */
module UpdateSchedule {
  import opened Wrappers

  // ---------------------------------------------------------------------------
  // The calendar
  // ---------------------------------------------------------------------------

  predicate Leap(year: nat) {
    year % 4 == 0 && (year % 100 != 0 || year % 400 == 0)
  }

  function MonthLength(year: nat, month: nat): nat {
    if month == 2 then (if Leap(year) then 29 else 28)
    else if month in {4, 6, 9, 11} then 30
    else 31
  }

  datatype Date = Date(year: nat, month: nat, day: nat)

  predicate Valid(d: Date) {
    d.year >= 1 && 1 <= d.month <= 12 && 1 <= d.day <= MonthLength(d.year, d.month)
  }

  predicate Earlier(a: Date, b: Date) {
    a.year < b.year || (a.year == b.year && (a.month < b.month || (a.month == b.month && a.day < b.day)))
  }

  predicate NotLater(a: Date, b: Date) {
    a == b || Earlier(a, b)
  }

  function YearLength(year: nat): nat {
    if Leap(year) then 366 else 365
  }

  /** Days before the first of January, counted from the year 0. */
  function YearStart(year: nat): nat {
    if year == 0 then 0 else YearStart(year - 1) + YearLength(year - 1)
  }

  /** Days of the year before the first of the month. */
  function MonthStart(year: nat, month: nat): nat {
    if month <= 1 then 0 else MonthStart(year, month - 1) + MonthLength(year, month - 1)
  }

  function DayNumber(d: Date): nat
    requires Valid(d)
  {
    YearStart(d.year) + MonthStart(d.year, d.month) + d.day - 1
  }

  lemma {:induction false} YearStartMonotone(a: nat, b: nat)
    requires a < b
    ensures YearStart(a) + YearLength(a) <= YearStart(b)
  {
    if a < b - 1 {
      YearStartMonotone(a, b - 1);
    }
  }

  lemma {:induction false} MonthStartMonotone(year: nat, a: nat, b: nat)
    requires 1 <= a < b
    ensures MonthStart(year, a) + MonthLength(year, a) <= MonthStart(year, b)
  {
    if a < b - 1 {
      MonthStartMonotone(year, a, b - 1);
    }
  }

  lemma DecemberStart(year: nat)
    ensures MonthStart(year, 12) + 31 == YearLength(year)
  {
    assert MonthStart(year, 2) == MonthStart(year, 1) + 31;
    assert MonthStart(year, 3) == 31 + MonthLength(year, 2);
    assert MonthStart(year, 5) == MonthStart(year, 3) + 61;
    assert MonthStart(year, 7) == MonthStart(year, 5) + 61;
    assert MonthStart(year, 9) == MonthStart(year, 7) + 62;
    assert MonthStart(year, 11) == MonthStart(year, 9) + 61;
  }

  lemma MonthFitsYear(year: nat, month: nat)
    requires 1 <= month <= 12
    ensures MonthStart(year, month) + MonthLength(year, month) <= YearLength(year)
  {
    DecemberStart(year);
    if month < 12 {
      MonthStartMonotone(year, month, 12);
    }
  }

  /** Days are numbered in calendar order. */
  lemma DayNumberOrder(a: Date, b: Date)
    requires Valid(a) && Valid(b)
    ensures DayNumber(a) < DayNumber(b) <==> Earlier(a, b)
    ensures DayNumber(a) == DayNumber(b) <==> a == b
  {
    DayNumberIncreases(a, b);
    DayNumberIncreases(b, a);
    assert a == b || Earlier(a, b) || Earlier(b, a);
  }

  lemma DayNumberIncreases(a: Date, b: Date)
    requires Valid(a) && Valid(b)
    ensures Earlier(a, b) ==> DayNumber(a) < DayNumber(b)
  {
    MonthFitsYear(a.year, a.month);
    if a.year < b.year {
      YearStartMonotone(a.year, b.year);
    } else if a.year == b.year && a.month < b.month {
      MonthStartMonotone(a.year, a.month, b.month);
    }
  }

  /** Monday is 0; the first of January of the year 0 was a Saturday. */
  function Weekday(dayNumber: nat): nat {
    (dayNumber + 5) % 7
  }

  /** Days before a year, in closed form: a leap day every fourth year, but not every hundredth,
      but every four hundredth. */
  lemma {:induction false} YearStartIs(year: nat)
    ensures YearStart(year) == 365 * year + (year + 3) / 4 - (year + 99) / 100 + (year + 399) / 400
  {
    if year > 0 {
      YearStartIs(year - 1);
      LeapDays(year - 1);
    }
  }

  lemma LeapDays(year: nat)
    ensures (year + 4) / 4 - (year + 3) / 4 == if year % 4 == 0 then 1 else 0
    ensures (year + 100) / 100 - (year + 99) / 100 == if year % 100 == 0 then 1 else 0
    ensures (year + 400) / 400 - (year + 399) / 400 == if year % 400 == 0 then 1 else 0
    ensures year % 400 == 0 ==> year % 100 == 0
    ensures year % 100 == 0 ==> year % 4 == 0
  {
    assert year == 400 * (year / 400) + year % 400;
    assert year == 100 * (year / 100) + year % 100;
  }

  /** The calendar is the one in use: the first of January 2024 was a Monday, and each day is
      followed by the next weekday. */
  lemma WeekdaysAreThoseInUse(dayNumber: nat)
    ensures Weekday(DayNumber(Date(2024, 1, 1))) == 0
    ensures Weekday(dayNumber + 1) == (if Weekday(dayNumber) == 6 then 0 else Weekday(dayNumber) + 1)
  {
    YearStartIs(2024);
  }

  /** The Thursday of the ISO week of a day: the day that gives the week its year. */
  function WeekThursday(dayNumber: nat): int {
    dayNumber - Weekday(dayNumber) + 3
  }

  function IsoYear(d: Date): nat
    requires Valid(d)
  {
    var thursday := WeekThursday(DayNumber(d));
    if thursday < YearStart(d.year) then d.year - 1
    else if thursday >= YearStart(d.year + 1) then d.year + 1
    else d.year
  }

  function IsoWeek(d: Date): int
    requires Valid(d)
  {
    (WeekThursday(DayNumber(d)) - YearStart(IsoYear(d))) / 7 + 1
  }

  /** The year and week numbers are those of the Thursday's position in its own year. */
  lemma IsoYearHoldsTheThursday(d: Date)
    requires Valid(d)
    ensures YearStart(IsoYear(d)) <= WeekThursday(DayNumber(d)) < YearStart(IsoYear(d) + 1)
    ensures 1 <= IsoWeek(d) <= 53
  {
    MonthFitsYear(d.year, d.month);
    assert YearStart(d.year + 1) == YearStart(d.year) + YearLength(d.year);
    assert YearStart(d.year) == YearStart(d.year - 1) + YearLength(d.year - 1);
    assert YearStart(d.year + 2) == YearStart(d.year + 1) + YearLength(d.year + 1);
  }

  /** A weekday of an ISO week is one date. */
  lemma WeekAndWeekdayDetermineTheDate(a: Date, b: Date)
    requires Valid(a) && Valid(b)
    requires IsoYear(a) == IsoYear(b) && IsoWeek(a) == IsoWeek(b)
    requires Weekday(DayNumber(a)) == Weekday(DayNumber(b))
    ensures a == b
  {
    SameWeekSameWeekday(DayNumber(a), DayNumber(b), YearStart(IsoYear(a)));
    DayNumberOrder(a, b);
  }

  lemma SameWeekSameWeekday(m: nat, n: nat, start: int)
    requires (WeekThursday(m) - start) / 7 == (WeekThursday(n) - start) / 7
    requires Weekday(m) == Weekday(n)
    ensures m == n
  {
    var i, j := (m + 5) / 7, (n + 5) / 7;
    assert WeekThursday(m) == 7 * i - 2 && WeekThursday(n) == 7 * j - 2;
    assert -7 < (7 * i - 2 - start) - (7 * j - 2 - start) < 7;
  }

  // ---------------------------------------------------------------------------
  // The month's last day
  // ---------------------------------------------------------------------------

  const MAX_YEAR: nat := 262142

  function DayBefore(d: Date): Date
    requires Valid(d) && (d.year > 1 || d.month > 1 || d.day > 1)
  {
    if d.day > 1 then d.(day := d.day - 1)
    else if d.month > 1 then Date(d.year, d.month - 1, MonthLength(d.year, d.month - 1))
    else Date(d.year - 1, 12, 31)
  }

  /** The day before the first of the next month, unless that is past the calendar's end. */
  function LastDayOfMonth(year: nat, month: nat): Option<nat>
    requires year >= 1 && 1 <= month <= 12
  {
    var nextYear := if month == 12 then year + 1 else year;
    var nextMonth := if month == 12 then 1 else month + 1;
    if nextYear > MAX_YEAR then None else Some(DayBefore(Date(nextYear, nextMonth, 1)).day)
  }

  /** It is the month's length, and the next day is in the next month. */
  lemma LastDayIsMonthLength(year: nat, month: nat)
    requires 1 <= year < MAX_YEAR && 1 <= month <= 12
    ensures LastDayOfMonth(year, month) == Some(MonthLength(year, month))
    ensures DayNumber(Date(year, month, MonthLength(year, month))) + 1
         == DayNumber(Date(if month == 12 then year + 1 else year, if month == 12 then 1 else month + 1, 1))
  {
    DecemberStart(year);
  }

  // ---------------------------------------------------------------------------
  // Occurrence keys
  // ---------------------------------------------------------------------------

  datatype Frequency = Daily | Weekly | Monthly

  /** `time` is the parsed time of day in minutes, if the text parses. */
  datatype Settings = Settings(enabled: bool, frequency: Frequency, time: Option<nat>, weekday: nat,
                               monthDays: set<nat>)

  datatype Key =
    | DayKey(year: nat, month: nat, day: nat)
    | WeekKey(isoYear: nat, isoWeek: int, weekday: nat)
    | MonthLast(year: nat, month: nat)
    | MonthFirst(year: nat, month: nat)

  /** The key of the occurrence due on a date, if one is. */
  function KeyFor(s: Settings, d: Date): Option<Key>
    requires Valid(d)
  {
    match s.frequency
    case Daily => Some(DayKey(d.year, d.month, d.day))
    case Weekly =>
      if Weekday(DayNumber(d)) == s.weekday then Some(WeekKey(IsoYear(d), IsoWeek(d), s.weekday)) else None
    case Monthly =>
      var isFirst := 1 in s.monthDays && d.day == 1;
      var isLast := 31 in s.monthDays && LastDayOfMonth(d.year, d.month) == Some(d.day);
      if !isFirst && !isLast then None
      else if isLast then Some(MonthLast(d.year, d.month))
      else Some(MonthFirst(d.year, d.month))
  }

  /** An occurrence is due every day; or on the chosen weekday; or on the first of the month, the
      last, or both, as chosen. */
  lemma OccurrencesAreDueIff(s: Settings, d: Date)
    requires Valid(d) && d.year < MAX_YEAR
    ensures KeyFor(s, d).Some? <==>
            || s.frequency == Daily
            || (s.frequency == Weekly && Weekday(DayNumber(d)) == s.weekday)
            || (s.frequency == Monthly && 1 in s.monthDays && d.day == 1)
            || (s.frequency == Monthly && 31 in s.monthDays && d.day == MonthLength(d.year, d.month))
  {
    LastDayIsMonthLength(d.year, d.month);
  }

  /** Under fixed settings a key belongs to one date only. */
  lemma KeyDeterminesDate(s: Settings, a: Date, b: Date)
    requires Valid(a) && Valid(b)
    requires KeyFor(s, a).Some? && KeyFor(s, a) == KeyFor(s, b)
    ensures a == b
  {
    if s.frequency == Weekly {
      WeekAndWeekdayDetermineTheDate(a, b);
    }
  }

  // ---------------------------------------------------------------------------
  // Ticks
  // ---------------------------------------------------------------------------

  /** What happens when a tick finds an occurrence due and unclaimed: the claim cannot be
      saved, the process stops after saving it, or the check is started. */
  datatype Outcome = SaveFails | StopsAfterClaim | Runs

  datatype Tick = Tick(date: Date, minute: nat, outcome: Outcome)

  /** The claim in the state file and the dates on which a check was started. */
  datatype State = State(lastRun: Option<Key>, runs: seq<Date>)

  predicate Due(s: Settings, t: Tick)
    requires Valid(t.date)
  {
    s.enabled && s.time.Some? && t.minute >= s.time.value && KeyFor(s, t.date).Some?
  }

  function AfterTick(st: State, s: Settings, t: Tick): State
    requires Valid(t.date)
  {
    if !Due(s, t) || st.lastRun == KeyFor(s, t.date) || t.outcome == SaveFails then st
    else State(KeyFor(s, t.date), if t.outcome == Runs then st.runs + [t.date] else st.runs)
  }

  predicate ValidTicks(ts: seq<Tick>) {
    forall t :: t in ts ==> Valid(t.date)
  }

  predicate Nondecreasing(ts: seq<Tick>) {
    forall i, j :: 0 <= i < j < |ts| ==> NotLater(ts[i].date, ts[j].date)
  }

  function Exec(st: State, s: Settings, ts: seq<Tick>): State
    requires ValidTicks(ts)
  {
    if ts == [] then st
    else AfterTick(Exec(st, s, ts[..|ts| - 1]), s, ts[|ts| - 1])
  }

  predicate Increasing(ds: seq<Date>) {
    forall i, j :: 0 <= i < j < |ds| ==> Earlier(ds[i], ds[j])
  }

  /** A tick claims and starts the check exactly if checking is on, the time of day has come, an
      occurrence is due on the date and it is not claimed yet. */
  lemma TickStartsIff(st: State, s: Settings, t: Tick)
    requires Valid(t.date)
    ensures var st' := AfterTick(st, s, t);
            var ready := s.enabled && (exists m :: s.time == Some(m) && m <= t.minute)
                         && KeyFor(s, t.date).Some? && st.lastRun != KeyFor(s, t.date);
            && (st'.runs != st.runs <==> ready && t.outcome == Runs)
            && (st'.runs != st.runs ==> st'.runs == st.runs + [t.date])
            && st'.lastRun == if ready && t.outcome != SaveFails then KeyFor(s, t.date) else st.lastRun
  {
    assert |st.runs + [t.date]| != |st.runs|;
  }

  /** The runs so far are in strictly increasing order, none is later than the last tick, and
      a run on the date of the last tick is the one claimed. */
  predicate RunsInOrder(st: State, s: Settings, now: Date) {
    && Valid(now)
    && Increasing(st.runs)
    && (forall d :: d in st.runs ==> Valid(d) && KeyFor(s, d).Some? && NotLater(d, now))
    && (now in st.runs ==> st.lastRun == KeyFor(s, now))
  }

  lemma TickKeepsOrder(st: State, s: Settings, before: Date, t: Tick)
    requires RunsInOrder(st, s, before) && Valid(t.date) && NotLater(before, t.date)
    ensures RunsInOrder(AfterTick(st, s, t), s, t.date)
  {
    if t.date in st.runs {
      assert t.date == before;
    } else {
      assert forall d :: d in st.runs ==> Earlier(d, t.date);
    }
  }

  lemma {:induction false} ExecKeepsOrder(last: Option<Key>, s: Settings, ts: seq<Tick>)
    requires ts != [] && ValidTicks(ts) && Nondecreasing(ts)
    ensures RunsInOrder(Exec(State(last, []), s, ts), s, ts[|ts| - 1].date)
  {
    var n := |ts| - 1;
    assert ts[n] in ts;
    var st := Exec(State(last, []), s, ts[..n]);
    if n == 0 {
      assert ts[..0] == [];
      TickKeepsOrder(st, s, ts[n].date, ts[n]);
    } else {
      ExecKeepsOrder(last, s, ts[..n]);
      TickKeepsOrder(st, s, ts[..n][n - 1].date, ts[n]);
    }
  }

  /** Whatever the state file holds at first, and wherever saving fails or the process stops,
      no two checks are started for the same occurrence. */
  lemma AtMostOneRunPerOccurrence(last: Option<Key>, s: Settings, ts: seq<Tick>)
    requires ValidTicks(ts) && Nondecreasing(ts)
    ensures var runs := Exec(State(last, []), s, ts).runs;
            && (forall i :: 0 <= i < |runs| ==> Valid(runs[i]) && KeyFor(s, runs[i]).Some?)
            && (forall i, j :: 0 <= i < j < |runs| ==> KeyFor(s, runs[i]) != KeyFor(s, runs[j]))
            && Increasing(runs)
  {
    if ts != [] {
      ExecKeepsOrder(last, s, ts);
      var runs := Exec(State(last, []), s, ts).runs;
      forall i, j | 0 <= i < j < |runs| ensures KeyFor(s, runs[i]) != KeyFor(s, runs[j]) {
        if KeyFor(s, runs[i]) == KeyFor(s, runs[j]) {
          KeyDeterminesDate(s, runs[i], runs[j]);
        }
      }
    }
  }

  lemma {:induction false} EveryDueDateRuns(s: Settings, ts: seq<Tick>, d: Date)
    requires ValidTicks(ts) && Nondecreasing(ts) && Valid(d)
    requires forall t :: t in ts ==> t.outcome == Runs
    ensures var st := Exec(State(None, []), s, ts);
            && (d in st.runs <==> exists t :: t in ts && t.date == d && Due(s, t))
            && (st.lastRun.Some? ==> exists r :: r in st.runs && Valid(r) && KeyFor(s, r) == st.lastRun)
  {
    if ts != [] {
      var n := |ts| - 1;
      var last := ts[n];
      assert last in ts;
      assert ts == ts[..n] + [last];
      EveryDueDateRuns(s, ts[..n], d);
      var st := Exec(State(None, []), s, ts[..n]);
      var st' := AfterTick(st, s, last);
      if Due(s, last) && st.lastRun == KeyFor(s, last.date) {
        var r :| r in st.runs && Valid(r) && KeyFor(s, r) == st.lastRun;
        KeyDeterminesDate(s, r, last.date);
      }
      if st' != st {
        assert last.date in st'.runs;
      }
    }
  }

  /** With working saves and no stops, a check is started on a date exactly when some tick of
      that date found an occurrence due, and on no date twice. */
  lemma ExactlyOncePerDueDate(s: Settings, ts: seq<Tick>, d: Date)
    requires ValidTicks(ts) && Nondecreasing(ts) && Valid(d)
    requires forall t :: t in ts ==> t.outcome == Runs
    ensures var runs := Exec(State(None, []), s, ts).runs;
            && (d in runs <==> exists t :: t in ts && t.date == d && Due(s, t))
            && Increasing(runs)
  {
    EveryDueDateRuns(s, ts, d);
    AtMostOneRunPerOccurrence(None, s, ts);
  }

  // ---------------------------------------------------------------------------
  // The checker
  // ---------------------------------------------------------------------------

  class UpdateChecker {
    var lastAutoCheckRun: Option<Key>
    ghost var runs: seq<Date>

    constructor (last: Option<Key>)
      ensures Now() == State(last, [])
    {
      lastAutoCheckRun, runs := last, [];
    }

    ghost function Now(): State
      reads this
    {
      State(lastAutoCheckRun, runs)
    }

    /** One turn of the periodic loop; returns whether a check was started. */
    method OnTick(s: Settings, t: Tick) returns (started: bool)
      requires Valid(t.date)
      modifies this
      ensures Now() == AfterTick(old(Now()), s, t)
      ensures started <==> runs == old(runs) + [t.date]
    {
      started := false;
      if !s.enabled {
        return;
      }
      if s.time.None? || t.minute < s.time.value {
        return;
      }
      var key := KeyFor(s, t.date);
      if key.None? || lastAutoCheckRun == key {
        return;
      }
      if t.outcome == SaveFails {
        return;
      }
      lastAutoCheckRun := key;
      if t.outcome == StopsAfterClaim {
        return;
      }
      runs := runs + [t.date];
      started := true;
    }
  }
}
