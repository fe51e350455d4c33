/** gmtime_r() and timegm(): seconds since 1970 to broken-down time and back. */
module Gmtime {
  import opened Arithmetic
  import opened Calendar

  // ----- C arithmetic -----

  /** Division and remainder that truncate toward zero. */
  function CDiv(a: int, b: int): int
    requires b > 0
  {
    if a >= 0 then a / b else -(-a / b)
  }

  function CMod(a: int, b: int): int
    requires b > 0
  {
    a - b * CDiv(a, b)
  }

  predicate Int64(x: int) { -0x8000_0000_0000_0000 <= x < 0x8000_0000_0000_0000 }

  /** The idiom that corrects a truncated division of a negative number. */
  method Floored(a: int, b: int) returns (q: int, r: int)
    requires b > 0
    ensures a == b * q + r && 0 <= r < b
  {
    q, r := CDiv(a, b), CMod(a, b);
    if a < 0 { assert -a == b * (-a / b) + (-a) % b; }
    if r < 0 { q, r := q - 1, r + b; }
  }

  // ----- leap years between 2000 and a year -----

  /** A year as 400-year, 100-year and 4-year cycles. */
  lemma Cycles(a: int, b: int, c: int, d: int)
    requires 0 <= b <= 3 && 0 <= c <= 24 && 0 <= d <= 3
    ensures var n := 400 * a + 100 * b + 4 * c + d;
      Leaps(n) == 97 * a + 24 * b + c && (IsLeap(n) <==> d == 0 && (c != 0 || b == 0))
  {
    var n := 400 * a + 100 * b + 4 * c + d;
    assert n / 4 == 100 * a + 25 * b + c && n % 4 == d;
    assert n / 100 == 4 * a + b && n % 100 == 4 * c + d;
    assert n / 400 == a && n % 400 == 100 * b + 4 * c + d;
  }

  lemma Since2000(n: int)
    ensures Leaps(2000 + n) == 485 + Leaps(n) && IsLeap(2000 + n) == IsLeap(n)
    ensures YearStart(2000 + n) == 10957 + 365 * n + Leaps(n) + 1 - if IsLeap(n) then 1 else 0
  {
    assert (2000 + n) / 4 == 500 + n / 4 && (2000 + n) % 4 == n % 4;
    assert (2000 + n) / 100 == 20 + n / 100 && (2000 + n) % 100 == n % 100;
    assert (2000 + n) / 400 == 5 + n / 400 && (2000 + n) % 400 == n % 400;
    YearStartIs(2000 + n);
    LeapsStep(2000 + n);
  }

  // ----- to seconds -----

  /** The days of the years 1902 to 2038 are counted with one division. */
  lemma FastYears(y: int)
    requires 2 <= y <= 138
    ensures YearStart(1900 + y) == 365 * (y - 70) + (y - 69) / 4 && (IsLeap(1900 + y) <==> y % 4 == 0)
  {
    YearStartIs(1900 + y);
    var n := 1899 + y;
    assert n / 100 - n / 400 == 15;
    assert n / 4 == 492 + (y - 69) / 4;
    assert IsLeap(1900 + y) <==> y % 4 == 0 by {
      assert (1900 + y) % 100 == 0 ==> y == 100;
      assert (1900 + y) % 4 == y % 4;
    }
  }

  /** __year_to_secs: no intermediate `int` overflows, on the fast path or off it. */
  method YearToSecs(year: int) returns (secs: int, leap: bool)
    requires -0x9000_0000 <= year <= 0x9000_0000
    ensures secs == 86400 * YearStart(1900 + year) && leap == IsLeap(1900 + year)
  {
    hide YearStart, Leaps, IsLeap;
    if 2 <= year <= 138 {
      FastYears(year);
      var leaps := (year - 68) / 4;
      leap := (year - 68) % 4 == 0;
      if leap { leaps := leaps - 1; }
      assert leaps == (year - 69) / 4;
      secs := 31536000 * (year - 70) + 86400 * leaps;
      assert Int32(31536000 * (year - 70)) && Int32(secs);
      return;
    }
    var cycles, rem := Floored(year - 100, 400);
    var centuries, leaps;
    centuries, leaps, leap := Century(rem, cycles);
    Since2000(year - 100);
    leaps := leaps + 97 * cycles + 24 * centuries - if leap then 1 else 0;
    assert Int32(cycles) && Int32(97 * cycles) && Int32(leaps);
    secs := (year - 100) * 31536000 + leaps * 86400 + 946684800 + 86400;
  }

  /** The centuries and leap years in what is left of a 400-year cycle. */
  method Century(rem0: int, ghost cycles: int) returns (centuries: int, leaps: int, leap: bool)
    requires 0 <= rem0 < 400
    ensures 0 <= centuries <= 3 && 0 <= leaps <= 24
    ensures var n := 400 * cycles + rem0; leap == IsLeap(n) && Leaps(n) == 97 * cycles + 24 * centuries + leaps
  {
    hide Leaps, IsLeap;
    var rem := rem0;
    if rem == 0 {
      Cycles(cycles, 0, 0, 0);
      return 0, 0, true;
    }
    if rem >= 200 {
      if rem >= 300 { centuries, rem := 3, rem - 300; } else { centuries, rem := 2, rem - 200; }
    } else {
      if rem >= 100 { centuries, rem := 1, rem - 100; } else { centuries := 0; }
    }
    if rem == 0 {
      leap, leaps := false, 0;
      Cycles(cycles, centuries, 0, 0);
    } else {
      leaps := rem / 4;
      leap := rem % 4 == 0;
      Cycles(cycles, centuries, leaps, rem % 4);
    }
  }

  /** __month_to_secs */
  function MonthToSecs(month: int, leap: bool): int
    requires 0 <= month < 12
  {
    var t := [0, 31, 59, 90, 120, 151, 181, 212, 243, 273, 304, 334][month] * 86400;
    if leap && month >= 2 then t + 86400 else t
  }

  lemma MonthSecs(y: int, m: int)
    requires 0 <= m < 12
    ensures MonthToSecs(m, IsLeap(y)) == 86400 * MonthStart(y, m)
  {
    hide MonthStart, IsLeap;
    MonthStarts(y);
  }

  /** struct tm */
  datatype Tm = Tm(sec: int, min: int, hour: int, mday: int, mon: int, year: int, wday: int, yday: int)

  /** Every field an `int`, and so is the day of the month less one. */
  predicate Fields(tm: Tm) {
    && Int32(tm.sec) && Int32(tm.min) && Int32(tm.hour) && Int32(tm.mday) && Int32(tm.mday - 1)
    && Int32(tm.mon) && Int32(tm.year)
  }

  /** The seconds that the fields stand for, in range or not: months carry into years, and
      everything else just adds up. */
  function Seconds(tm: Tm): int {
    var y := 1900 + tm.year + tm.mon / 12;
    86400 * (YearStart(y) + MonthStart(y, tm.mon % 12) + tm.mday - 1) + 3600 * tm.hour + 60 * tm.min + tm.sec
  }

  /** __tm_to_secs */
  method TmToSecs(tm: Tm) returns (t: int)
    requires Fields(tm)
    ensures t == Seconds(tm) && Int64(t)
  {
    hide YearStart, MonthStart, IsLeap, MonthToSecs;
    var year, month := tm.year, tm.mon;
    if month >= 12 || month < 0 {
      var adj;
      adj, month := Floored(tm.mon, 12);
      year := year + adj;
    }
    assert year == tm.year + tm.mon / 12 && month == tm.mon % 12;
    var leap;
    t, leap := YearToSecs(year);
    MonthSecs(1900 + year, month);
    YearRange(1900 + year);
    MonthStarts(1900 + year);
    t := t + MonthToSecs(month, leap);
    t := t + 86400 * (tm.mday - 1);
    t := t + 3600 * tm.hour;
    t := t + 60 * tm.min;
    t := t + tm.sec;
  }

  lemma YearRange(y: int)
    requires -0x9800_0000 <= y <= 0x9800_0000
    ensures -400 * 0x9900_0000 <= YearStart(y) <= 400 * 0x9900_0000
  {
    YearStartIs(y);
  }

  // ----- from seconds -----

  const LEAPOCH := 946684800 + 86400 * (31 + 29)

  const DAYS_PER_400Y := 365 * 400 + 97

  const DAYS_PER_100Y := 365 * 100 + 24

  const DAYS_PER_4Y := 365 * 4 + 1

  /** The months from March on, with February last and long. */
  const DAYS_IN_MONTH: seq<int> := [31, 30, 31, 30, 31, 31, 30, 31, 30, 31, 31, 29]

  /** Days before month `m`, counted from March. */
  function FromMarch(m: int): int
    requires 0 <= m <= 12
  {
    if m == 0 then 0 else FromMarch(m - 1) + DAYS_IN_MONTH[m - 1]
  }

  lemma MarchTable()
    ensures FromMarch(0) == 0 && FromMarch(1) == 31 && FromMarch(2) == 61 && FromMarch(3) == 92
    ensures FromMarch(4) == 122 && FromMarch(5) == 153 && FromMarch(6) == 184 && FromMarch(7) == 214
    ensures FromMarch(8) == 245 && FromMarch(9) == 275 && FromMarch(10) == 306 && FromMarch(11) == 337
    ensures FromMarch(12) == 366
  {
    MarchNext(1);
    MarchNext(2);
    MarchNext(3);
    MarchNext(4);
    MarchNext(5);
    MarchNext(6);
    MarchNext(7);
    MarchNext(8);
    MarchNext(9);
    MarchNext(10);
    MarchNext(11);
    MarchNext(12);
  }

  lemma MarchNext(m: int)
    requires 1 <= m <= 12
    ensures FromMarch(m) == FromMarch(m - 1) + DAYS_IN_MONTH[m - 1]
  {
  }

  /** The years since March 2000 and the day in the last of them. */
  datatype Cycle = Cycle(qc: int, c: int, q: int, y: int, day: int)

  function Years(k: Cycle): int { 400 * k.qc + 100 * k.c + 4 * k.q + k.y }

  /** The day of the year that begins in March; a 366th one is a 29 February. */
  predicate ValidCycle(k: Cycle) {
    && 0 <= k.c <= 3 && 0 <= k.q <= 24 && 0 <= k.y <= 3 && 0 <= k.day <= 365
    && (k.day == 365 ==> IsLeap(2000 + Years(k) + 1))
  }

  /** How often the unit is in the rest of the days, less than `most` times: one unit too many
      is left in the rest. */
  method Share(rem: int, unit: int, most: int) returns (n: int, rest: int)
    requires unit > 0 && most > 0 && 0 <= rem <= unit * most
    ensures rem == unit * n + rest && 0 <= n < most && 0 <= rest <= unit
    ensures rest == unit ==> n == most - 1 && rem == unit * most
  {
    n := rem / unit;
    assert 0 <= n <= most by { Multiplied(unit, n - most); }
    assert n == most ==> rem == unit * most by { Multiplied(unit, n - most); }
    if n == most { n := n - 1; }
    assert unit * most == unit * (most - 1) + unit;
    rest := rem - unit * n;
  }

  /** The 400-, 100-, 4- and 1-year cycles, with the corrections at the ends of the longer ones. */
  method SplitDays(days: int) returns (k: Cycle)
    requires -0x100_0000_0000 <= days <= 0x100_0000_0000
    ensures ValidCycle(k)
    ensures days == DAYS_PER_400Y * k.qc + DAYS_PER_100Y * k.c + DAYS_PER_4Y * k.q + 365 * k.y + k.day
    ensures Int32(k.qc)
  {
    hide IsLeap;
    var qc, remdays := Floored(days, DAYS_PER_400Y);
    var c, q, y;
    c, remdays := Share(remdays, DAYS_PER_100Y, 4);
    q, remdays := Share(remdays, DAYS_PER_4Y, 25);
    y, remdays := Share(remdays, 365, 4);
    k := Cycle(qc, c, q, y, remdays);
    if remdays == 365 {
      assert y == 3 && (q < 24 || c == 3);
      NextLeap(qc, c, q);
    }
  }

  lemma NextLeap(qc: int, c: int, q: int)
    requires 0 <= c <= 3 && 0 <= q <= 24 && (q < 24 || c == 3)
    ensures IsLeap(2000 + 400 * qc + 100 * c + 4 * q + 3 + 1)
  {
    if q < 24 {
      Cycles(qc, c, q + 1, 0);
      Since2000(400 * qc + 100 * c + 4 * q + 4);
    } else {
      Cycles(qc + 1, 0, 0, 0);
      Since2000(400 * qc + 400);
    }
  }

  /** The day the March year begins on. */
  lemma MarchStart(k: Cycle)
    requires ValidCycle(k)
    ensures var y := 2000 + Years(k); var leap := k.y == 0 && (k.q != 0 || k.c == 0);
      && leap == IsLeap(y)
      && YearStart(y) + 59 + (if leap then 1 else 0)
         == 11017 + DAYS_PER_400Y * k.qc + DAYS_PER_100Y * k.c + DAYS_PER_4Y * k.q + 365 * k.y
      && YearStart(y + 1) == YearStart(y) + 365 + if leap then 1 else 0
  {
    hide YearStart, Leaps, IsLeap;
    Cycles(k.qc, k.c, k.q, k.y);
    Since2000(Years(k));
    NextYear(2000 + Years(k));
  }

  /** The month loop never runs past the last entry of its table. */
  method SplitMonths(remdays0: int) returns (months: int, remdays: int)
    requires 0 <= remdays0 <= 365
    ensures 0 <= months <= 11 && 0 <= remdays < DAYS_IN_MONTH[months] && remdays0 == FromMarch(months) + remdays
  {
    MarchTable();
    hide FromMarch;
    months, remdays := 0, remdays0;
    while DAYS_IN_MONTH[months] <= remdays
      invariant 0 <= months <= 11 && 0 <= remdays && remdays0 == FromMarch(months) + remdays
      decreases 12 - months
    {
      MarchNext(months + 1);
      remdays := remdays - DAYS_IN_MONTH[months];
      months := months + 1;
    }
  }

  /** Back from the March calendar: January and February belong to the next year. */
  lemma MonthDate(k: Cycle, months: int, remdays: int)
    requires ValidCycle(k) && 0 <= months <= 11 && 0 <= remdays < DAYS_IN_MONTH[months]
    requires k.day == FromMarch(months) + remdays
    ensures var late := months >= 10; var m := if late then months - 10 else months + 2;
      var y := 2000 + Years(k) + if late then 1 else 0;
      && ValidDate(y, m, remdays + 1)
      && DayNumber(y, m, remdays + 1)
         == 11017 + DAYS_PER_400Y * k.qc + DAYS_PER_100Y * k.c + DAYS_PER_4Y * k.q + 365 * k.y + k.day
      && (late <==> k.day >= 306)
  {
    hide YearStart, MonthStart, IsLeap, FromMarch;
    MarchStart(k);
    MarchTable();
    MonthStarts(2000 + Years(k));
    MonthStarts(2000 + Years(k) + 1);
  }

  datatype Broken = Overflow | Broken(tm: Tm)

  function Day(t: int): int { t / 86400 }

  /** The fields are the true date, weekday, day of the year and time of `t`. */
  predicate TrueDate(t: int, tm: Tm) {
    && ValidDate(1900 + tm.year, tm.mon, tm.mday)
    && DayNumber(1900 + tm.year, tm.mon, tm.mday) == Day(t)
    && tm.wday == Weekday(Day(t))
    && tm.yday == Day(t) - YearStart(1900 + tm.year)
    && 0 <= tm.hour < 24 && 0 <= tm.min < 60 && 0 <= tm.sec < 60
    && 3600 * tm.hour + 60 * tm.min + tm.sec == t % 86400
  }

  /** Seconds that the first test rejects are in a year no `int` can hold. */
  lemma FarAway(t: int, y: int)
    requires t < -0x8000_0000 * 31622400 || t > 0x7fff_ffff * 31622400
    requires InYear(Day(t), y)
    ensures !Int32(y - 1900)
  {
    hide YearStart;
    var lo, hi := 1900 - 0x8000_0000, 1900 + 0x8000_0000;
    YearStartIs(lo);
    YearStartIs(hi);
    if y >= lo { YearsGrow(lo, y); }
    if y < hi { YearsGrow(y + 1, hi); }
  }

  /** The part of __secs_to_tm that finds the date: years since 2000, months from January. */
  method DateOf(days: int) returns (years: int, months: int, mday: int, wday: int, yday: int)
    requires -0x100_0000_0000 <= days <= 0x100_0000_0000
    ensures ValidDate(2000 + years, months, mday) && DayNumber(2000 + years, months, mday) == days + 11017
    ensures wday == Weekday(days + 11017) && yday == days + 11017 - YearStart(2000 + years)
  {
    hide YearStart, MonthStart, IsLeap, FromMarch;
    wday := CMod(3 + days, 7);
    if wday < 0 { wday := wday + 7; }
    WeekdayFixed(3 + days);
    WeekdayIs(days);
    var k := SplitDays(days);
    MarchStart(k);
    var leap := if k.y == 0 && (k.q != 0 || k.c == 0) then 1 else 0;
    yday := k.day + 31 + 28 + leap;
    if yday >= 365 + leap { yday := yday - (365 + leap); }
    years := k.y + 4 * k.q + 100 * k.c + 400 * k.qc;
    var remdays;
    months, remdays := SplitMonths(k.day);
    MonthDate(k, months, remdays);
    if months >= 10 { months, years := months - 12, years + 1; }
    months, mday := months + 2, remdays + 1;
  }

  lemma WeekdayIs(days: int)
    ensures Weekday(days + 11017) == (3 + days) % 7
  {
  }

  /** __secs_to_tm: it succeeds exactly if the year, less 1900, fits an `int`. */
  method SecsToTm(t: int) returns (r: Broken)
    requires Int64(t)
    ensures forall y :: InYear(Day(t), y) ==> (r.Broken? <==> Int32(y - 1900))
    ensures r.Broken? ==> TrueDate(t, r.tm) && Fields(r.tm)
  {
    hide YearStart, MonthStart, IsLeap, Weekday;
    if t < -0x8000_0000 * 31622400 || t > 0x7fff_ffff * 31622400 {
      forall y | InYear(Day(t), y) ensures !Int32(y - 1900) { FarAway(t, y); }
      return Overflow;
    }
    var days, remsecs := Floored(t - LEAPOCH, 86400);
    DaySplit(t, days, remsecs);
    var years, months, mday, wday, yday := DateOf(days);
    DateInYear(2000 + years, months, mday);
    forall y | InYear(Day(t), y) ensures y == 2000 + years { YearUnique(Day(t), y, 2000 + years); }
    if years + 100 > 0x7fff_ffff || years + 100 < -0x8000_0000 { return Overflow; }
    ClockFields(remsecs);
    r := Broken(Tm(remsecs % 60, remsecs / 60 % 60, remsecs / 3600, mday, months, years + 100, wday, yday));
  }

  lemma DaySplit(t: int, days: int, remsecs: int)
    requires t - LEAPOCH == 86400 * days + remsecs && 0 <= remsecs < 86400
    ensures Day(t) == days + 11017 && t % 86400 == remsecs
  {
  }

  lemma WeekdayFixed(d: int)
    ensures d % 7 == if CMod(d, 7) < 0 then CMod(d, 7) + 7 else CMod(d, 7)
  {
    if d < 0 { assert -d == 7 * (-d / 7) + (-d) % 7; }
  }

  lemma ClockFields(s: int)
    requires 0 <= s < 86400
    ensures 0 <= s / 3600 < 24 && 0 <= s / 60 % 60 < 60 && 3600 * (s / 3600) + 60 * (s / 60 % 60) + s % 60 == s
  {
    assert s / 3600 == s / 60 / 60;
  }

  // ----- there and back -----

  /** The true date of `t` stands for `t`. */
  lemma TrueSeconds(t: int, tm: Tm)
    requires TrueDate(t, tm)
    ensures Seconds(tm) == t
  {
    hide YearStart, MonthStart;
    assert tm.mon / 12 == 0 && tm.mon % 12 == tm.mon;
  }

  /** Only one set of fields is the true date of `t`. */
  lemma ClockUnique(h: int, m: int, s: int, h': int, m': int, s': int)
    requires 0 <= m < 60 && 0 <= s < 60 && 0 <= m' < 60 && 0 <= s' < 60
    requires 3600 * h + 60 * m + s == 3600 * h' + 60 * m' + s'
    ensures h == h' && m == m' && s == s'
  {
  }

  lemma TrueDateUnique(t: int, a: Tm, b: Tm)
    requires TrueDate(t, a) && TrueDate(t, b)
    ensures a == b
  {
    hide YearStart, MonthStart, DayNumber, ValidDate, Day, Weekday;
    DateUnique(1900 + a.year, a.mon, a.mday, 1900 + b.year, b.mon, b.mday);
    ClockUnique(a.hour, a.min, a.sec, b.hour, b.min, b.sec);
  }

  /** timegm: the time the fields stand for, and the fields put in order. A time out of range
      leaves them as they were. */
  method Timegm(tm: Tm) returns (t: int, tm': Tm, ok: bool)
    requires Fields(tm)
    ensures forall y :: InYear(Day(Seconds(tm)), y) ==> (ok <==> Int32(y - 1900))
    ensures ok ==> t == Seconds(tm) && TrueDate(t, tm') && Fields(tm')
    ensures !ok ==> t == -1 && tm' == tm
  {
    hide Seconds, TrueDate, InYear;
    t := TmToSecs(tm);
    var r := SecsToTm(t);
    if r.Overflow? { return -1, tm, false; }
    tm', ok := r.tm, true;
  }

  /** timegm undoes gmtime_r, and a second timegm changes nothing: the fields that are the true
      date of `t` stand for `t`, and no others are the true date of what they stand for. */
  lemma TimegmSettles(t: int, tm: Tm, tm': Tm)
    requires TrueDate(t, tm)
    ensures Seconds(tm) == t
    ensures TrueDate(Seconds(tm), tm') <==> tm' == tm
  {
    hide Seconds, TrueDate;
    TrueSeconds(t, tm);
    if TrueDate(t, tm') { TrueDateUnique(t, tm, tm'); }
  }
}
