/** `my_timegm`: a broken-down UTC time as seconds since 1970, without leap seconds.  Its only
    caller `parsedate` refuses months outside 0 to 11, so the branches for them are dead. */
module Calendar {

  /** `year` counts from 1900, `mon` from 0, `mday` from 1. */
  datatype Tm = Tm(year: int, mon: int, mday: int, hour: int, min: int, sec: int)

  // ---------------------------------------------------------------- the C code

  /** C division rounds toward zero. */
  function Div(a: int, b: int): (q: int)
    requires b > 0
  {
    if a >= 0 then a / b else -((-a) / b)
  }

  function Mod(a: int, b: int): (r: int)
    requires b > 0
  {
    a - b * Div(a, b)
  }

  const CUMULATIVE := [0, 31, 59, 90, 120, 151, 181, 212, 243, 273, 304, 334]

  /** Leap days in the years 1 to `n`. */
  function LeapDays(n: int): (d: int) {
    Div(n, 4) - Div(n, 100) + Div(n, 400)
  }

  function TimeGm(tm: Tm): (t: int) {
    if tm.year < 70 then -1
    else
      var y := tm.year + 1900;
      var year := if tm.mon < 0 then y + Div(11 - tm.mon, 12) else if tm.mon >= 12 then y - Div(tm.mon, 12) else y;
      var month := if tm.mon < 0 then 11 - Mod(11 - tm.mon, 12) else if tm.mon >= 12 then Mod(tm.mon, 12) else tm.mon;
      var leapDays := LeapDays(year - if tm.mon <= 1 then 1 else 0) - LeapDays(1969);
      ((((year - 1970) * 365 + leapDays + CUMULATIVE[month] + tm.mday - 1) * 24 + tm.hour) * 60 + tm.min) * 60 + tm.sec
  }

  // ---------------------------------------------------------------- the Gregorian calendar

  predicate IsLeap(y: int) {
    y % 4 == 0 && (y % 100 != 0 || y % 400 == 0)
  }

  function DaysInYear(y: int): (d: nat) {
    if IsLeap(y) then 366 else 365
  }

  function DaysInMonth(y: int, m: nat): (d: nat)
    requires m < 12
  {
    if m == 1 then if IsLeap(y) then 29 else 28
    else if m == 3 || m == 5 || m == 8 || m == 10 then 30
    else 31
  }

  function DaysBeforeYear(y: int): (d: nat)
    requires y >= 1970
    decreases y
  {
    if y == 1970 then 0 else DaysBeforeYear(y - 1) + DaysInYear(y - 1)
  }

  function DaysBeforeMonth(y: int, m: nat): (d: nat)
    requires m <= 12
  {
    if m == 0 then 0 else DaysBeforeMonth(y, m - 1) + DaysInMonth(y, m - 1)
  }

  predicate Valid(tm: Tm) {
    && tm.year >= 70 && 0 <= tm.mon <= 11 && 1 <= tm.mday <= DaysInMonth(tm.year + 1900, tm.mon)
    && 0 <= tm.hour <= 23 && 0 <= tm.min <= 59 && 0 <= tm.sec <= 59
  }

  /** A month from 1970 on, with any day and time. */
  predicate InMonth(tm: Tm) {
    tm.year >= 70 && 0 <= tm.mon <= 11
  }

  /** What `parsedate` lets through: day 0 ("20230200"), days up to 31 in every month, second
      60, and the one-digit negative minutes and seconds that `sscanf` reads. */
  predicate Passed(tm: Tm) {
    InMonth(tm) && 0 <= tm.mday <= 31 && 0 <= tm.hour <= 23 && -9 <= tm.min <= 59 && -9 <= tm.sec <= 60
  }

  /** Days and seconds counted out year by year and month by month. */
  function Day(tm: Tm): (d: int)
    requires InMonth(tm)
  {
    DaysBeforeYear(tm.year + 1900) + DaysBeforeMonth(tm.year + 1900, tm.mon) + tm.mday - 1
  }

  function SecondOfDay(tm: Tm): (s: int) {
    (tm.hour * 60 + tm.min) * 60 + tm.sec
  }

  function Seconds(tm: Tm): (s: int)
    requires InMonth(tm)
  {
    Day(tm) * 86400 + SecondOfDay(tm)
  }

  predicate Earlier(a: Tm, b: Tm) {
    a.year < b.year || (a.year == b.year &&
      (a.mon < b.mon || (a.mon == b.mon &&
        (a.mday < b.mday || (a.mday == b.mday &&
          (a.hour < b.hour || (a.hour == b.hour &&
            (a.min < b.min || (a.min == b.min && a.sec < b.sec)))))))))
  }

  // ---------------------------------------------------------------- the closed forms

  lemma OneMoreYear(y: int)
    requires y > 0
    ensures LeapDays(y) == LeapDays(y - 1) + if IsLeap(y) then 1 else 0
  {
    assert y / 4 == (y - 1) / 4 + if y % 4 == 0 then 1 else 0;
    assert y / 100 == (y - 1) / 100 + if y % 100 == 0 then 1 else 0;
    assert y / 400 == (y - 1) / 400 + if y % 400 == 0 then 1 else 0;
  }

  lemma {:induction false} YearsInClosedForm(y: int)
    requires y >= 1970
    ensures DaysBeforeYear(y) == (y - 1970) * 365 + LeapDays(y - 1) - LeapDays(1969)
    decreases y
  {
    hide LeapDays;
    if y > 1970 {
      YearsInClosedForm(y - 1);
      OneMoreYear(y - 1);
    }
  }

  lemma {:induction false} MonthsInClosedForm(y: int, m: nat)
    requires m < 12
    ensures DaysBeforeMonth(y, m) == CUMULATIVE[m] + if m >= 2 && IsLeap(y) then 1 else 0
  {
    hide IsLeap;
    if m > 0 {
      MonthsInClosedForm(y, m - 1);
    }
  }

  /** From 1970 on, `my_timegm` is the number of seconds counted out on the calendar, for
      every day number and every time of day. */
  lemma TimeGmCounts(tm: Tm)
    requires InMonth(tm)
    ensures TimeGm(tm) == Seconds(tm)
  {
    hide LeapDays, DaysBeforeYear, DaysBeforeMonth, IsLeap;
    var y := tm.year + 1900;
    YearsInClosedForm(y);
    MonthsInClosedForm(y, tm.mon);
    OneMoreYear(y);
  }

  lemma {:induction false} YearsGrow(a: int, b: int)
    requires 1970 <= a < b
    ensures DaysBeforeYear(a) + DaysInYear(a) <= DaysBeforeYear(b)
    decreases b
  {
    if a + 1 < b {
      YearsGrow(a, b - 1);
    }
  }

  lemma {:induction false} MonthsGrow(y: int, a: nat, b: nat)
    requires a < b <= 12
    ensures DaysBeforeMonth(y, a) + DaysInMonth(y, a) <= DaysBeforeMonth(y, b)
    decreases b
  {
    if a + 1 < b {
      MonthsGrow(y, a, b - 1);
    }
  }

  lemma {:induction false} YearIsItsMonths(y: int)
    ensures DaysBeforeMonth(y, 12) == DaysInYear(y)
  {
    MonthsInClosedForm(y, 11);
  }

  // ---------------------------------------------------------------- order

  /** `b` is in the month of `a`, or in the one behind it. */
  predicate SameMonth(a: Tm, b: Tm) {
    a.year == b.year && a.mon == b.mon
  }

  predicate NextMonth(a: Tm, b: Tm) {
    if a.mon < 11 then b.year == a.year && b.mon == a.mon + 1 else b.year == a.year + 1 && b.mon == 0
  }

  /** From the first of one month to the first of a later one. */
  lemma MonthsApart(a: Tm, b: Tm)
    requires InMonth(a) && InMonth(b) && a.mday == b.mday
    requires a.year < b.year || (a.year == b.year && a.mon < b.mon)
    ensures NextMonth(a, b) ==> Day(b) - Day(a) == DaysInMonth(a.year + 1900, a.mon)
    ensures !NextMonth(a, b) ==> Day(b) - Day(a) >= 59
  {
    hide DaysBeforeYear, DaysBeforeMonth, DaysInYear, IsLeap;
    var y := a.year + 1900;
    YearIsItsMonths(y);
    if a.year < b.year {
      YearsGrow(y, b.year + 1900);
      NextYear(y);
      if a.mon < 11 {
        TwoMonths(y, a.mon, 12);
      } else {
        LastMonth(y);
        LastMonth(y + 1);
        if b.year > a.year + 1 {
          YearsGrow(y + 1, b.year + 1900);
          TwoMonths(y + 1, 0, 12);
          YearIsItsMonths(y + 1);
        } else if b.mon > 0 {
          MonthsGrow(y + 1, 0, b.mon);
        }
      }
    } else if NextMonth(a, b) {
      NextOfYear(y, a.mon);
    } else {
      TwoMonths(y, a.mon, b.mon);
    }
  }

  lemma NextYear(y: int)
    requires y >= 1970
    ensures DaysBeforeYear(y + 1) == DaysBeforeYear(y) + DaysInYear(y)
  {
  }

  lemma NextOfYear(y: int, m: nat)
    requires m < 12
    ensures DaysBeforeMonth(y, m + 1) == DaysBeforeMonth(y, m) + DaysInMonth(y, m)
  {
  }

  lemma {:induction false} LastMonth(y: int)
    ensures DaysBeforeMonth(y, 11) + 31 == DaysBeforeMonth(y, 12) && DaysBeforeMonth(y, 0) == 0
  {
  }

  lemma {:induction false} TwoMonths(y: int, a: nat, b: nat)
    requires a + 2 <= b <= 12
    ensures DaysBeforeMonth(y, a) + 59 <= DaysBeforeMonth(y, b)
  {
    NextOfYear(y, a);
    MonthsGrow(y, a + 1, b);
  }

  /** The earlier time `a` has run over the end of its month, or of its minute, as far as `b`
      or beyond. */
  predicate Overtakes(a: Tm, b: Tm)
    requires InMonth(a)
  {
    && (SameMonth(a, b) || NextMonth(a, b))
    && var over := a.mday - if SameMonth(a, b) then 0 else DaysInMonth(a.year + 1900, a.mon);
       (over - b.mday) * 86400 + SecondOfDay(a) >= SecondOfDay(b)
  }

  /** On everything `parsedate` passes on: an earlier time has a smaller value if and only if
      it does not run over its month or minute up to the later one. */
  lemma OrderedUnlessOvertaken(a: Tm, b: Tm)
    requires Passed(a) && Passed(b) && Earlier(a, b)
    ensures TimeGm(a) < TimeGm(b) <==> !Overtakes(a, b)
  {
    hide TimeGm, Day, DaysInMonth;
    TimeGmCounts(a);
    TimeGmCounts(b);
    var c := b.(mday := a.mday);
    ShiftDay(b, a.mday);
    if SameMonth(a, b) {
      SameDay(a, c);
    } else {
      MonthsApart(a, c);
    }
  }

  lemma ShiftDay(tm: Tm, mday: int)
    requires InMonth(tm)
    ensures Day(tm) == Day(tm.(mday := mday)) + tm.mday - mday
  {
  }

  lemma SameDay(a: Tm, b: Tm)
    requires InMonth(a) && InMonth(b) && a.year == b.year && a.mon == b.mon && a.mday == b.mday
    ensures Day(a) == Day(b)
  {
  }

  /** The 31st of a February comes out behind the 1st of March, and a leap second with the
      first second of the next day. */
  lemma OrderFails()
    ensures var a, b := Tm(123, 1, 31, 0, 0, 0), Tm(123, 2, 1, 0, 0, 0);
            Passed(a) && Passed(b) && Earlier(a, b) && TimeGm(a) > TimeGm(b)
    ensures var a, b := Tm(116, 11, 31, 23, 59, 60), Tm(117, 0, 1, 0, 0, 0);
            Passed(a) && Passed(b) && Earlier(a, b) && TimeGm(a) == TimeGm(b)
  {
  }

  /** Days of the month and times of the day that exist never run over. */
  lemma TimeGmOrdered(a: Tm, b: Tm)
    requires Valid(a) && Valid(b)
    ensures Earlier(a, b) <==> TimeGm(a) < TimeGm(b)
  {
    hide TimeGm;
    if Earlier(a, b) {
      OrderedUnlessOvertaken(a, b);
    } else if Earlier(b, a) {
      OrderedUnlessOvertaken(b, a);
    } else {
      assert a == b;
    }
  }

  /** Before 1970 the value is -1, the error that `parsedate` rules out first. */
  lemma BeforeEpoch(tm: Tm)
    requires tm.year < 70
    ensures TimeGm(tm) == -1
  {
  }

  /** The branch for months behind December, which no call reaches, counts whole years backwards
      and takes January and February for months behind a leap day. */
  lemma LateMonths(tm: Tm)
    requires tm.mon >= 12 && tm.year - tm.mon / 12 >= 70
    ensures var c := tm.(year := tm.year - tm.mon / 12, mon := tm.mon % 12);
            TimeGm(tm) == Seconds(c) + if c.mon <= 1 && IsLeap(c.year + 1900) then 86400 else 0
  {
    hide LeapDays, DaysBeforeYear, DaysBeforeMonth, IsLeap, DaysInMonth;
    var c := tm.(year := tm.year - tm.mon / 12, mon := tm.mon % 12);
    TimeGmCounts(c);
    OneMoreYear(c.year + 1900);
  }

  /** So does the branch for negative months, forwards. */
  lemma EarlyMonths(tm: Tm)
    requires tm.mon < 0 && tm.year >= 70
    ensures var c := tm.(year := tm.year + (11 - tm.mon) / 12, mon := 11 - (11 - tm.mon) % 12);
            TimeGm(tm) == Seconds(c) - if c.mon >= 2 && IsLeap(c.year + 1900) then 86400 else 0
  {
    hide LeapDays, DaysBeforeYear, DaysBeforeMonth, IsLeap, DaysInMonth;
    var c := tm.(year := tm.year + (11 - tm.mon) / 12, mon := 11 - (11 - tm.mon) % 12);
    TimeGmCounts(c);
    OneMoreYear(c.year + 1900);
  }

  /** Of everything passed on, only the last second before 1970 has the value that also means
      an error. */
  lemma MinusOneIsRare(tm: Tm)
    requires Passed(tm)
    ensures TimeGm(tm) == -1 <==>
            tm.year == 70 && tm.mon == 0 && (tm.mday - 1) * 86400 + SecondOfDay(tm) == -1
  {
    hide TimeGm, Day, DaysInMonth;
    TimeGmCounts(tm);
    var first := Tm(70, 0, tm.mday, 0, 0, 0);
    FirstMonth(first);
    if !SameMonth(first, tm) {
      MonthsApart(first, tm);
      ShortestMonth(first);
    } else {
      SameDay(first, tm);
    }
  }

  lemma FirstMonth(tm: Tm)
    requires tm.year == 70 && tm.mon == 0
    ensures Day(tm) == tm.mday - 1
  {
  }

  lemma ShortestMonth(tm: Tm)
    requires InMonth(tm)
    ensures DaysInMonth(tm.year + 1900, tm.mon) >= 28
  {
  }
}
