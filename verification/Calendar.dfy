/** The calendar arithmetic of path/local/sys_time.c: tenths of a second since the start of 1989
    against year, month, day and time of day. */
module Calendar {
  import opened Arith

  const TENTHS_SEC_PER_SEC := 10
  const TENTHS_SEC_PER_MIN := 600
  const TENTHS_SEC_PER_HR := 36000
  const TENTHS_SEC_PER_DAY := 864000
  const ONE_MONTH := 26784000
  const MAX_SYS_TIME := 2147040000
  const SYS_TIME_MIN_YEAR := 89
  const SYS_TIME_MAX_YEAR := 95
  const ERROR := -1

  /** Days elapsed at the end of each year, 1989 on. */
  const ELAPSED_DAYS := [365, 730, 1095, 1461, 1826, 2191, 0]

  /** Days per month, a row for each year from 1989 to 1995. */
  const CALENDAR := [
    [31, 28, 31, 30, 31, 30, 31, 31, 30, 31, 30, 31],
    [31, 28, 31, 30, 31, 30, 31, 31, 30, 31, 30, 31],
    [31, 28, 31, 30, 31, 30, 31, 31, 30, 31, 30, 31],
    [31, 29, 31, 30, 31, 30, 31, 31, 30, 31, 30, 31],
    [31, 28, 31, 30, 31, 30, 31, 31, 30, 31, 30, 31],
    [31, 28, 31, 30, 31, 30, 31, 31, 30, 31, 30, 31],
    [31, 28, 31, 30, 31, 30, 31, 31, 30, 31, 30, 31]]

  /** The table read row after row, with the zero that ends it. */
  function CalendarAt(i: nat): int
    requires i <= MONTHS
  {
    if i == MONTHS then 0
    else
      assert |CALENDAR| == 7 && |CALENDAR[i / 12]| == 12;
      CALENDAR[i / 12][i % 12]
  }

  const MONTHS := 84

  datatype NewTime = NewTime(year: int, month: int, day: int, hour: int, minute: int, sec: int, tenths: int)

  // ------------------------------------------------------------------ the calendar by rule

  /** Gregorian month lengths, for the years of the table. */
  function DaysIn(year: int, month: int): int {
    if month == 2 then (if year % 4 == 0 then 29 else 28)
    else if month == 4 || month == 6 || month == 9 || month == 11 then 30
    else 31
  }

  /** A date and time of day from 1989 to 1995. */
  predicate ValidTime(t: NewTime) {
    && SYS_TIME_MIN_YEAR <= t.year <= SYS_TIME_MAX_YEAR && 1 <= t.month <= 12 && 1 <= t.day <= DaysIn(t.year, t.month)
    && 0 <= t.hour < 24 && 0 <= t.minute < 60 && 0 <= t.sec < 60 && 0 <= t.tenths < 10
  }

  function YearOf(i: nat): int {
    SYS_TIME_MIN_YEAR + i / 12
  }

  function MonthOf(i: nat): int {
    i % 12 + 1
  }

  lemma TableFollowsRule(i: nat)
    requires i < MONTHS
    ensures CalendarAt(i) == DaysIn(YearOf(i), MonthOf(i))
    ensures 28 <= CalendarAt(i) <= 31
  {
  }

  /** Days before the i-th month of the table. */
  function Before(i: nat): nat
    requires i <= MONTHS
  {
    if i == 0 then 0
    else
      TableFollowsRule(i - 1);
      Before(i - 1) + CalendarAt(i - 1)
  }

  lemma NextMonth(p: nat)
    requires p < MONTHS
    ensures Before(p + 1) == Before(p) + CalendarAt(p)
  {
  }

  /** Days before the month of a year. */
  function InYear(year: int, month: int): int
    requires 1 <= month <= 13
  {
    if month == 1 then 0 else InYear(year, month - 1) + DaysIn(year, month - 1)
  }

  lemma TableAt(year: nat, month: nat)
    requires year < 7 && 1 <= month <= 12
    ensures CalendarAt(12 * year + month - 1) == DaysIn(SYS_TIME_MIN_YEAR + year, month)
    ensures Before(12 * year + month) == Before(12 * year + month - 1) + DaysIn(SYS_TIME_MIN_YEAR + year, month)
  {
    hide CalendarAt, Before, DaysIn;
    var i := 12 * year + month - 1;
    TableFollowsRule(i);
    DivModUnique(12, year, month - 1);
    NextMonth(i);
  }

  /** Within a year the table and the rule count the same days. */
  lemma {:induction false} BeforeInYear(year: nat, month: nat)
    requires year < 7 && 1 <= month <= 13
    ensures Before(12 * year + month - 1) == Before(12 * year) + InYear(SYS_TIME_MIN_YEAR + year, month)
  {
    hide Before, DaysIn;
    if month > 1 {
      BeforeInYear(year, month - 1);
      TableAt(year, month - 1);
    }
  }

  lemma YearLength(year: int)
    ensures InYear(year, 13) == if year % 4 == 0 then 366 else 365
    ensures InYear(year, 11) == if year % 4 == 0 then 305 else 304
  {
    var leap := if year % 4 == 0 then 1 else 0;
    assert InYear(year, 2) == 31;
    assert InYear(year, 3) == 59 + leap;
    assert InYear(year, 5) == 120 + leap;
    assert InYear(year, 7) == 181 + leap;
    assert InYear(year, 9) == 243 + leap;
    assert InYear(year, 11) == 304 + leap;
  }

  function YearStart(year: nat): nat {
    if year <= 3 then 365 * year else 365 * year + 1
  }

  /** The table of elapsed days agrees with the month table. */
  lemma ElapsedTable(year: nat)
    requires 1 <= year <= 6
    ensures ELAPSED_DAYS[year - 1] == YearStart(year) == Before(12 * year)
  {
    BeforeYear(year);
    hide Before;
  }

  lemma BeforeFirst()
    ensures Before(0) == 0
  {
  }

  lemma {:induction false} BeforeYear(year: nat)
    requires year <= 7
    ensures Before(12 * year) == YearStart(year)
  {
    hide Before, InYear;
    if year == 0 {
      BeforeFirst();
    } else {
      BeforeYear(year - 1);
      BeforeInYear(year - 1, 13);
      YearLength(SYS_TIME_MIN_YEAR + year - 1);
      assert (SYS_TIME_MIN_YEAR + year - 1) % 4 == 0 <==> year == 4;
    }
  }

  /** What sys_time_days reads for a month, the leap year corrected. */
  lemma MonthDays(year: int, i: nat)
    requires i < 12
    ensures DaysIn(year, i + 1) == if i == 1 && year % 4 == 0 then 29 else CalendarAt(i)
  {
    TableFollowsRule(i);
  }

  lemma TableEnds(p: nat)
    requires p <= MONTHS
    ensures CalendarAt(p) >= 0 && (CalendarAt(p) == 0 <==> p == MONTHS)
  {
    if p < MONTHS {
      TableFollowsRule(p);
    }
  }

  lemma {:induction false} BeforeMonotone(i: nat, j: nat)
    requires i <= j <= MONTHS
    ensures Before(i) <= Before(j)
    ensures i < j ==> Before(i) + CalendarAt(i) <= Before(j)
  {
    hide CalendarAt, Before;
    if i < j {
      if i + 1 < j {
        BeforeMonotone(i, j - 1);
      }
      TableFollowsRule(j - 1);
      NextMonth(j - 1);
    }
  }

  // ------------------------------------------------------------------ conversions

  /** sys_time_days: days from the start of 1989 to a date. */
  method SysTimeDays(year: int, month: int, day: int) returns (days: int)
    requires SYS_TIME_MIN_YEAR <= year <= SYS_TIME_MAX_YEAR && 1 <= month <= 12
    ensures days == Before(12 * (year - SYS_TIME_MIN_YEAR) + month - 1) + day - 1
  {
    hide Before, CalendarAt, DaysIn;
    var mDays, yDays := 0, 0;
    if year > SYS_TIME_MIN_YEAR {
      yDays := ELAPSED_DAYS[year - SYS_TIME_MIN_YEAR - 1];
    }
    if year > SYS_TIME_MIN_YEAR {
      ElapsedTable(year - SYS_TIME_MIN_YEAR);
    } else {
      BeforeFirst();
    }
    BeforeInYear(year - SYS_TIME_MIN_YEAR, month);
    var i := 0;
    while i < month - 1
      invariant 0 <= i <= month - 1 && mDays == InYear(year, i + 1)
    {
      var temp := CalendarAt(i);
      MonthDays(year, i);
      if i == 1 && year % 4 == 0 {
        temp := 29;
      }
      mDays := mDays + temp;
      i := i + 1;
    }
    days := yDays + mDays + day - 1;
  }

  function Ticks(days: int, t: NewTime): int {
    (((days * 24 + t.hour) * 60 + t.minute) * 60 + t.sec) * TENTHS_SEC_PER_SEC + t.tenths
  }

  /** One more second, minute, hour or day is that many ticks more, whatever the fields; the clock starts
      with midnight of the first day. */
  lemma TicksAdvance(days: int, t: NewTime, n: int)
    ensures Ticks(days, t.(sec := t.sec + n)) == Ticks(days, t) + 10 * n
    ensures Ticks(days, t.(minute := t.minute + n)) == Ticks(days, t) + 600 * n
    ensures Ticks(days, t.(hour := t.hour + n)) == Ticks(days, t) + 36000 * n
    ensures Ticks(days + n, t) == Ticks(days, t) + 864000 * n
    ensures Ticks(days, t.(tenths := t.tenths + n)) == Ticks(days, t) + n
    ensures Ticks(0, t.(hour := 0, minute := 0, sec := 0, tenths := 0)) == 0
  {
  }

  /** The month of the table that a date falls in. */
  function IndexOf(t: NewTime): int {
    12 * (t.year - SYS_TIME_MIN_YEAR) + t.month - 1
  }

  /** time_newtosys. */
  method TimeNewToSys(t: NewTime) returns (ticks: int)
    ensures !(SYS_TIME_MIN_YEAR <= t.year <= SYS_TIME_MAX_YEAR && 1 <= t.month <= 12) ==> ticks == ERROR
    ensures SYS_TIME_MIN_YEAR <= t.year <= SYS_TIME_MAX_YEAR && 1 <= t.month <= 12 ==>
              var total := Ticks(Before(IndexOf(t)) + t.day - 1, t);
              ticks == if total < 0 then ERROR else total
    ensures ValidTime(t) ==> ticks >= 0 && ticks % 10 == t.tenths && ClockAt(ticks / 10) == t.(tenths := 0)
  {
    hide Before, CalendarAt, DaysIn, ClockAt;
    if t.year < SYS_TIME_MIN_YEAR || t.year > SYS_TIME_MAX_YEAR || t.month < 1 || t.month > 12 {
      return ERROR;
    }
    var days := SysTimeDays(t.year, t.month, t.day);
    ticks := (((days * 24 + t.hour) * 60 + t.minute) * 60 + t.sec) * TENTHS_SEC_PER_SEC + t.tenths;
    if ValidTime(t) {
      TicksCountSeconds(t);
    }
    if ticks < 0 {
      return ERROR;
    }
  }

  /** time_systonew: fails exactly outside 1989 to 1995; otherwise a valid date and time whose ticks
      are the argument without its tenths. */
  method TimeSysToNew(sysTime: int) returns (ok: bool, t: NewTime)
    ensures ok <==> 0 <= sysTime < Before(MONTHS) * TENTHS_SEC_PER_DAY
    ensures ok ==> ValidTime(t) && t.tenths == 0
    ensures ok ==> t.hour == sysTime / 36000 % 24 && t.minute == sysTime / 600 % 60 && t.sec == sysTime / 10 % 60
    ensures ok ==> Ticks(Before(IndexOf(t)) + t.day - 1, t) == sysTime - sysTime % 10
    ensures ok ==> t == ClockAt(sysTime / 10)
  {
    hide Before, DaysIn, ClockAt;
    t := NewTime(0, 0, 0, 0, 0, 0, 0);
    if sysTime < 0 || sysTime == ERROR {
      return false, t;
    }
    var days := sysTime / TENTHS_SEC_PER_DAY;
    var rest := sysTime % TENTHS_SEC_PER_DAY;
    var hour := rest / TENTHS_SEC_PER_HR;
    var rest1 := rest % TENTHS_SEC_PER_HR;
    var minute := rest1 / TENTHS_SEC_PER_MIN;
    var rest2 := rest1 % TENTHS_SEC_PER_MIN;
    var sec := rest2 / TENTHS_SEC_PER_SEC;
    var rest3 := rest2 % TENTHS_SEC_PER_SEC;
    var tenths := rest3 / TENTHS_SEC_PER_SEC;
    TimeOfDay(sysTime, days, hour, minute, sec);
    FieldsOfTime(sysTime, hour, minute, sec);
    var found, calcDay, month, year := MonthWalk(days);
    if !found {
      return false, t;
    }
    t := NewTime(year, month, calcDay, hour, minute, sec, tenths);
    TicksCountSeconds(t);
    ok := true;
  }

  /** Days, hours, minutes and seconds of a time make it up again, but for the tenths. */
  lemma TimeOfDay(sysTime: nat, days: int, hour: int, minute: int, sec: int)
    requires days == sysTime / TENTHS_SEC_PER_DAY
    requires var rest := sysTime % TENTHS_SEC_PER_DAY;
      && hour == rest / TENTHS_SEC_PER_HR
      && minute == (rest % TENTHS_SEC_PER_HR) / TENTHS_SEC_PER_MIN
      && sec == ((rest % TENTHS_SEC_PER_HR) % TENTHS_SEC_PER_MIN) / TENTHS_SEC_PER_SEC
    ensures 0 <= hour < 24 && 0 <= minute < 60 && 0 <= sec < 60
    ensures (((days * 24 + hour) * 60 + minute) * 60 + sec) * 10 == sysTime - sysTime % 10
    ensures forall n: nat :: days < n <==> sysTime < n * TENTHS_SEC_PER_DAY
  {
  }

  /** A remainder of a * b divided by a, and taken modulo a. */
  lemma NestedDivision(x: nat, a: nat, b: nat)
    requires a > 0 && b > 0
    ensures a * b > 0
    ensures x % (a * b) / a == x / a % b && x % (a * b) % a == x % a
  {
    var q, r := x / a, x % a;
    var k, e := q / b, q % b;
    MulPositive(a, b);
    assert x == a * q + r && q == b * k + e;
    assert a * (b * k + e) == (a * b) * k + a * e;
    RemainderFits(a, b, e, r);
    DivModUnique(a * b, k, a * e + r);
    DivModUnique(a, e, r);
  }

  lemma MulPositive(a: nat, b: nat)
    requires a > 0 && b > 0
    ensures a * b > 0
  {
  }

  lemma RemainderFits(a: nat, b: nat, e: nat, r: nat)
    requires e < b && r < a
    ensures 0 <= a * e + r < a * b
  {
    assert a * (e + 1) <= a * b;
  }

  lemma FieldsOfTime(sysTime: nat, hour: int, minute: int, sec: int)
    requires var rest := sysTime % TENTHS_SEC_PER_DAY;
      && hour == rest / TENTHS_SEC_PER_HR
      && minute == (rest % TENTHS_SEC_PER_HR) / TENTHS_SEC_PER_MIN
      && sec == ((rest % TENTHS_SEC_PER_HR) % TENTHS_SEC_PER_MIN) / TENTHS_SEC_PER_SEC
    ensures hour == sysTime / 36000 % 24 && minute == sysTime / 600 % 60 && sec == sysTime / 10 % 60
  {
    NestedDivision(sysTime, 36000, 24);
    NestedDivision(sysTime, 600, 60);
    NestedDivision(sysTime, 10, 60);
  }

  /** The loop of time_systonew over the month table. */
  method MonthWalk(days: nat) returns (found: bool, calcDay: int, month: int, year: int)
    ensures found <==> days < Before(MONTHS)
    ensures found ==>
              && SYS_TIME_MIN_YEAR <= year <= SYS_TIME_MAX_YEAR && 1 <= month <= 12
              && 1 <= calcDay <= DaysIn(year, month)
              && days == Before(12 * (year - SYS_TIME_MIN_YEAR) + month - 1) + calcDay - 1
  {
    hide CalendarAt, DaysIn;
    var p := 0;
    calcDay, month, year := days + 1, 1, SYS_TIME_MIN_YEAR;
    while calcDay > CalendarAt(p)
      invariant 0 <= p <= MONTHS && calcDay >= 1 && calcDay + Before(p) == days + 1
      invariant 1 <= month <= 12 && p == 12 * (year - SYS_TIME_MIN_YEAR) + month - 1
      decreases MONTHS - p
    {
      TableEnds(p);
      if CalendarAt(p) == 0 {
        return false, calcDay, month, year;
      }
      calcDay := calcDay - CalendarAt(p);
      p := p + 1;
      if month % 12 == 0 {
        year := year + 1;
        month := month - 12;
      }
      month := month + 1;
    }
    TableEnds(p);
    TableAt(year - SYS_TIME_MIN_YEAR, month);
    BeforeMonotone(p, MONTHS);
    found := true;
  }

  // ------------------------------------------------------------------ round trips

  /** The table covers 2556 days. */
  lemma TableDays()
    ensures Before(MONTHS) == 2556
  {
    BeforeYear(7);
  }

  /** There and back: a time loses its tenths and nothing else, for all of 1989 to 1995. */
  method SysThereAndBack(sysTime: int) returns (back: int)
    requires 0 <= sysTime < 2556 * TENTHS_SEC_PER_DAY
    ensures back == sysTime - sysTime % 10
  {
    TableDays();
    hide Before, DaysIn;
    var ok, t := TimeSysToNew(sysTime);
    back := TimeNewToSys(t);
  }

  /** Different dates and times have different ticks. */
  lemma TicksApart(t: NewTime, u: NewTime)
    requires ValidTime(t) && ValidTime(u)
    requires Ticks(Before(IndexOf(t)) + t.day - 1, t) == Ticks(Before(IndexOf(u)) + u.day - 1, u)
    ensures t == u
  {
    hide Before, DaysIn, CalendarAt, Ticks;
    var i, j := IndexOf(t), IndexOf(u);
    TableAt(t.year - SYS_TIME_MIN_YEAR, t.month);
    TableAt(u.year - SYS_TIME_MIN_YEAR, u.month);
    SameDay(Before(i) + t.day - 1, t, Before(j) + u.day - 1, u);
    DaysApart(i, t.day, j, u.day);
    SameMonth(t, u);
  }

  lemma DaysApart(i: nat, a: int, j: nat, b: int)
    requires i < MONTHS && j < MONTHS && 1 <= a <= CalendarAt(i) && 1 <= b <= CalendarAt(j)
    requires Before(i) + a == Before(j) + b
    ensures i == j && a == b
  {
    hide Before, CalendarAt;
    if i < j {
      BeforeMonotone(i, j);
    } else if j < i {
      BeforeMonotone(j, i);
    }
  }

  lemma SameMonth(t: NewTime, u: NewTime)
    requires 1 <= t.month <= 12 && 1 <= u.month <= 12 && IndexOf(t) == IndexOf(u)
    ensures t.year == u.year && t.month == u.month
  {
  }

  lemma SameDay(d: int, t: NewTime, e: int, u: NewTime)
    requires ValidTime(t) && ValidTime(u) && Ticks(d, t) == Ticks(e, u)
    ensures d == e && t.hour == u.hour && t.minute == u.minute && t.sec == u.sec && t.tenths == u.tenths
  {
    hide DaysIn;
  }

  lemma TicksInRange(t: NewTime)
    requires ValidTime(t)
    ensures var ticks := Ticks(Before(IndexOf(t)) + t.day - 1, t);
      && 0 <= ticks < Before(MONTHS) * TENTHS_SEC_PER_DAY
      && Ticks(Before(IndexOf(t)) + t.day - 1, t.(tenths := 0)) == ticks - ticks % 10
      && IndexOf(t.(tenths := 0)) == IndexOf(t)
  {
    hide Before, CalendarAt, DaysIn, Ticks;
    TableAt(t.year - SYS_TIME_MIN_YEAR, t.month);
    BeforeMonotone(IndexOf(t), MONTHS);
    TicksOfDay(Before(IndexOf(t)) + t.day - 1, t, Before(MONTHS));
  }

  lemma TicksOfDay(days: int, t: NewTime, limit: int)
    requires 0 <= t.hour < 24 && 0 <= t.minute < 60 && 0 <= t.sec < 60 && 0 <= t.tenths < 10 && 0 <= days < limit
    ensures 0 <= Ticks(days, t) < limit * TENTHS_SEC_PER_DAY
    ensures Ticks(days, t.(tenths := 0)) == Ticks(days, t) - Ticks(days, t) % 10
  {
    var secs := ((days * 24 + t.hour) * 60 + t.minute) * 60 + t.sec;
    DivModUnique(10, secs, t.tenths);
  }

  /** Back and there: every date and time of 1989 to 1995 comes back, without its tenths. */
  method NewThereAndBack(t: NewTime) returns (ok: bool, back: NewTime)
    requires ValidTime(t)
    ensures ok && back == t.(tenths := 0)
  {
    hide Before, DaysIn, CalendarAt, Ticks, IndexOf;
    var sysTime := TimeNewToSys(t);
    TicksInRange(t);
    ok, back := TimeSysToNew(sysTime);
    TicksApart(back, t.(tenths := 0));
  }

  // ------------------------------------------------------------------ a ticking clock

  /** The next second by the clock and the calendar. */
  function NextSecond(t: NewTime): NewTime {
    if t.sec < 59 then t.(sec := t.sec + 1)
    else if t.minute < 59 then t.(minute := t.minute + 1, sec := 0)
    else if t.hour < 23 then t.(hour := t.hour + 1, minute := 0, sec := 0)
    else
      var midnight := t.(hour := 0, minute := 0, sec := 0);
      if t.day < DaysIn(t.year, t.month) then midnight.(day := t.day + 1)
      else if t.month < 12 then midnight.(day := 1, month := t.month + 1)
      else midnight.(day := 1, month := 1, year := t.year + 1)
  }

  const FIRST := NewTime(89, 1, 1, 0, 0, 0, 0)

  /** The ticks of a date and time. */
  function TicksOf(t: NewTime): int
    requires ValidTime(t)
  {
    IndexInTable(t);
    Ticks(Before(IndexOf(t)) + t.day - 1, t)
  }

  lemma IndexInTable(t: NewTime)
    requires SYS_TIME_MIN_YEAR <= t.year <= SYS_TIME_MAX_YEAR && 1 <= t.month <= 12
    ensures 0 <= IndexOf(t) < MONTHS
  {
  }

  /** From the first second of 1989 to the last one of 1995 the ticks count ten for every second. */
  lemma ClockTicks(t: NewTime)
    requires ValidTime(t) && NextSecond(t).year <= SYS_TIME_MAX_YEAR
    ensures ValidTime(NextSecond(t)) && TicksOf(NextSecond(t)) == TicksOf(t) + 10
    ensures TicksOf(FIRST) == 0
  {
    BeforeFirst();
    hide Before, CalendarAt, DaysIn;
    IndexInTable(t);
    TableAt(t.year - SYS_TIME_MIN_YEAR, t.month);
    FirstDayExists(t.year, t.month);
    FirstDayExists(NextSecond(t).year, NextSecond(t).month);
  }

  lemma FirstDayExists(year: int, month: int)
    ensures DaysIn(year, month) >= 28
  {
  }

  /** The clock leaves 1995 after its last second only. */
  lemma LastSecond(t: NewTime)
    requires ValidTime(t) && t.tenths == 0 && NextSecond(t).year > SYS_TIME_MAX_YEAR
    ensures TicksOf(t) == 2556 * TENTHS_SEC_PER_DAY - 10
  {
    TableDays();
    hide Before, CalendarAt, DaysIn;
    TableAt(6, 12);
  }

  /** What a clock shows that was set to midnight on 1 January 1989 that many seconds ago. */
  function ClockAt(n: nat): NewTime {
    if n == 0 then FIRST else NextSecond(ClockAt(n - 1))
  }

  lemma {:induction false} ClockIsValid(n: nat)
    requires n < 2556 * 86400
    ensures ValidTime(ClockAt(n)) && ClockAt(n).tenths == 0 && TicksOf(ClockAt(n)) == 10 * n
  {
    if n == 0 {
      BeforeFirst();
    } else {
      ClockIsValid(n - 1);
      hide TicksOf, DaysIn;
      if NextSecond(ClockAt(n - 1)).year > SYS_TIME_MAX_YEAR {
        LastSecond(ClockAt(n - 1));
      } else {
        ClockTicks(ClockAt(n - 1));
      }
    }
  }

  /** The ticks of a date and time are ten times the seconds after which the clock shows it. */
  lemma TicksCountSeconds(t: NewTime)
    requires ValidTime(t)
    ensures 0 <= TicksOf(t) < 2556 * TENTHS_SEC_PER_DAY && TicksOf(t) % 10 == t.tenths
    ensures ClockAt(TicksOf(t) / 10) == t.(tenths := 0)
  {
    TableDays();
    hide Before, CalendarAt, DaysIn, ClockAt, NextSecond;
    TicksInRange(t);
    var n := TicksOf(t) / 10;
    ClockIsValid(n);
    TicksApart(ClockAt(n), t.(tenths := 0));
  }

  // ------------------------------------------------------------------ time since midnight

  /** inc_sys_time: a negative time is refused untouched, a sum out of range is stored and refused. */
  method IncSysTime(time: int, delta: int, before: int) returns (ok: bool, adjusted: int)
    ensures ok <==> 0 <= time && 0 <= time + delta <= MAX_SYS_TIME
    ensures adjusted == if time < 0 then before else time + delta
  {
    if time < 0 || time == ERROR {
      return false, before;
    }
    adjusted := time + delta;
    ok := !(adjusted < 0 || adjusted > MAX_SYS_TIME);
  }

  /** The end of October 1995 lies beyond the last representable time. */
  lemma LastMonth(i: nat)
    requires i <= MONTHS && Before(i) * TENTHS_SEC_PER_DAY <= MAX_SYS_TIME
    ensures i < 82
  {
    hide Before, InYear;
    BeforeInYear(6, 11);
    BeforeYear(6);
    YearLength(95);
    if i >= 82 {
      BeforeMonotone(82, i);
    }
  }

  /** sys_time_from_midnight: the time modulo a day, computed month by month and then day by day,
      exactly as long as the time is at most a day past the last one the loops can count to. */
  method SysTimeFromMidnight(now: int) returns (r: int)
    ensures now < 0 ==> r == ERROR
    ensures now >= 0 ==> (r == now % TENTHS_SEC_PER_DAY <==> now < MAX_SYS_TIME + TENTHS_SEC_PER_DAY)
    ensures now >= MAX_SYS_TIME ==> r == now - MAX_SYS_TIME
  {
    if now == ERROR || now < 0 {
      return ERROR;
    }
    var running := 0;
    if ONE_MONTH <= now {
      running := LastMonthStart(now);
    }
    if TENTHS_SEC_PER_DAY <= now {
      running := LastDayStart(now, running);
    }
    MidnightIs(now, running);
    r := now - running;
  }

  lemma MidnightIs(now: int, start: int)
    requires 0 <= start <= now && start <= MAX_SYS_TIME && start % TENTHS_SEC_PER_DAY == 0
    requires now < start + TENTHS_SEC_PER_DAY || start == MAX_SYS_TIME
    ensures now - start == now % TENTHS_SEC_PER_DAY <==> now < MAX_SYS_TIME + TENTHS_SEC_PER_DAY
  {
  }

  /** The loop over months: the start of some month that is not after now. */
  method LastMonthStart(now: int) returns (last: int)
    requires 0 <= now
    ensures 0 <= last <= now && last <= MAX_SYS_TIME && last % TENTHS_SEC_PER_DAY == 0
  {
    BeforeFirst();
    hide Before, CalendarAt;
    var running, p, ok := 0, 0, true;
    last := 0;
    while running <= now
      invariant 0 <= p < MONTHS && running == Before(p) * TENTHS_SEC_PER_DAY <= MAX_SYS_TIME
      invariant 0 <= last <= now && last <= MAX_SYS_TIME && last % TENTHS_SEC_PER_DAY == 0
      decreases MONTHS - p
    {
      last := running;
      NextMonth(p);
      ok, running := IncSysTime(running, CalendarAt(p) * TENTHS_SEC_PER_DAY, running);
      if !ok {
        break;
      }
      p := p + 1;
      LastMonth(p);
      TableEnds(p);
    }
  }

  /** The loop over days: the midnight before now, or the last time the loop can count to. */
  method LastDayStart(now: int, from: int) returns (last: int)
    requires 0 <= from <= now && from <= MAX_SYS_TIME && from % TENTHS_SEC_PER_DAY == 0
    ensures 0 <= last <= now && last % TENTHS_SEC_PER_DAY == 0
    ensures if now < MAX_SYS_TIME then now < last + TENTHS_SEC_PER_DAY else last == MAX_SYS_TIME
  {
    var running, ok := from, true;
    last := 0;
    while running <= now
      invariant 0 <= running <= MAX_SYS_TIME && running % TENTHS_SEC_PER_DAY == 0
      invariant running > now ==> 0 <= last <= now && last == running - TENTHS_SEC_PER_DAY
      decreases MAX_SYS_TIME - running
    {
      last := running;
      ok, running := IncSysTime(running, TENTHS_SEC_PER_DAY, running);
      if !ok {
        break;
      }
    }
  }
}
