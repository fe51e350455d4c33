/** The proleptic Gregorian calendar, day by day, counted from 1 January 1970. */
module Calendar {
  import opened Arithmetic

  predicate IsLeap(y: int) { y % 4 == 0 && (y % 100 != 0 || y % 400 == 0) }

  function YearLen(y: int): int { if IsLeap(y) then 366 else 365 }

  /** Months are numbered from 0. */
  function MonthLen(y: int, m: int): int
    requires 0 <= m < 12
  {
    if m == 1 then (if IsLeap(y) then 29 else 28)
    else if m == 3 || m == 5 || m == 8 || m == 10 then 30
    else 31
  }

  /** The day a year begins on: the years between are counted one by one. */
  function YearStart(y: int): int
    decreases if y >= 1970 then y - 1970 else 1970 - y
  {
    if y == 1970 then 0
    else if y > 1970 then YearStart(y - 1) + YearLen(y - 1)
    else YearStart(y + 1) - YearLen(y)
  }

  function MonthStart(y: int, m: int): int
    requires 0 <= m < 12
  {
    if m == 0 then 0 else MonthStart(y, m - 1) + MonthLen(y, m - 1)
  }

  predicate ValidDate(y: int, m: int, d: int) { 0 <= m < 12 && 1 <= d <= MonthLen(y, m) }

  function DayNumber(y: int, m: int, d: int): int
    requires 0 <= m < 12
  {
    YearStart(y) + MonthStart(y, m) + d - 1
  }

  predicate InYear(day: int, y: int) { YearStart(y) <= day < YearStart(y + 1) }

  /** 1 January 1970 was a Thursday. */
  function Weekday(day: int): int { (4 + day) % 7 }

  // ----- the calendar in closed form -----

  function Leaps(n: int): int { n / 4 - n / 100 + n / 400 }

  lemma LeapsStep(n: int)
    ensures Leaps(n) == Leaps(n - 1) + if IsLeap(n) then 1 else 0
  {
    DivStep(n, 4);
    DivStep(n, 100);
    DivStep(n, 400);
    Multiples(n);
  }

  lemma Multiples(n: int)
    ensures n % 400 == 0 ==> n % 100 == 0
    ensures n % 100 == 0 ==> n % 4 == 0
  {
    if n % 400 == 0 { Whole(n, 400, 100, 4); }
    if n % 100 == 0 { Whole(n, 100, 4, 25); }
  }

  lemma Whole(n: int, a: int, b: int, c: int)
    requires a > 0 && b > 0 && a == b * c && n % a == 0
    ensures n % b == 0
  {
    var k := n / a;
    assert n == a * k;
    assert a * k == b * (c * k);
    WholeTimes(b, c * k);
  }

  lemma WholeTimes(b: int, k: int)
    requires b > 0
    ensures b * k % b == 0
  {
    var q, r := b * k / b, b * k % b;
    assert b * (k - q) == r;
    Multiplied(b, k - q);
  }

  lemma DivStep(n: int, k: int)
    requires k == 4 || k == 100 || k == 400
    ensures n / k == (n - 1) / k + if n % k == 0 then 1 else 0
  {
  }

  lemma {:induction false} YearStartIs(y: int)
    ensures YearStart(y) == 365 * (y - 1970) + Leaps(y - 1) - 477
    decreases if y >= 1970 then y - 1970 else 1970 - y
  {
    hide Leaps;
    if y == 1970 {
      assert Leaps(1969) == 477 by { LeapsOf1969(); }
    } else if y > 1970 {
      YearStartIs(y - 1);
      LeapsStep(y - 1);
    } else {
      YearStartIs(y + 1);
      LeapsStep(y);
    }
  }

  lemma LeapsOf1969()
    ensures Leaps(1969) == 477
  {
  }

  lemma {:induction false} YearsGrow(y: int, z: int)
    requires y <= z
    ensures YearStart(y) + 365 * (z - y) <= YearStart(z)
    decreases z - y
  {
    if y < z {
      YearsGrow(y, z - 1);
      NextYear(z - 1);
    }
  }

  lemma NextYear(y: int)
    ensures YearStart(y + 1) == YearStart(y) + YearLen(y)
  {
    hide IsLeap;
  }

  lemma YearUnique(day: int, y: int, z: int)
    requires InYear(day, y) && InYear(day, z)
    ensures y == z
  {
    hide YearStart;
    if y < z { YearsGrow(y + 1, z); }
    if z < y { YearsGrow(z + 1, y); }
  }

  /** Every day is in a year. */
  lemma {:induction false} SomeYear(day: int, from: int) returns (y: int)
    ensures InYear(day, y)
    decreases if day >= YearStart(from) then day - YearStart(from) else YearStart(from) - day + 400
  {
    hide YearStart;
    NextYear(from);
    if InYear(day, from) {
      y := from;
    } else if day >= YearStart(from) {
      y := SomeYear(day, from + 1);
    } else {
      NextYear(from - 1);
      y := SomeYear(day, from - 1);
    }
  }

  // ----- months -----

  lemma MonthStarts(y: int)
    ensures MonthStart(y, 0) == 0 && MonthStart(y, 1) == 31
    ensures var f := 28 + if IsLeap(y) then 1 else 0;
      && MonthStart(y, 2) == 31 + f && MonthStart(y, 3) == 62 + f && MonthStart(y, 4) == 92 + f
      && MonthStart(y, 5) == 123 + f && MonthStart(y, 6) == 153 + f && MonthStart(y, 7) == 184 + f
      && MonthStart(y, 8) == 215 + f && MonthStart(y, 9) == 245 + f && MonthStart(y, 10) == 276 + f
      && MonthStart(y, 11) == 306 + f
  {
    MonthNext(y, 1);
    MonthNext(y, 2);
    MonthNext(y, 3);
    MonthNext(y, 4);
    MonthNext(y, 5);
    MonthNext(y, 6);
    MonthNext(y, 7);
    MonthNext(y, 8);
    MonthNext(y, 9);
    MonthNext(y, 10);
    MonthNext(y, 11);
  }

  lemma MonthNext(y: int, m: int)
    requires 1 <= m < 12
    ensures MonthStart(y, m) == MonthStart(y, m - 1) + MonthLen(y, m - 1)
  {
  }

  /** A day of a valid date lies in the year of the date. */
  lemma DateInYear(y: int, m: int, d: int)
    requires ValidDate(y, m, d)
    ensures InYear(DayNumber(y, m, d), y)
  {
    hide YearStart, MonthStart;
    MonthStarts(y);
    NextYear(y);
  }

  /** No day has two dates. */
  lemma DateUnique(y: int, m: int, d: int, y': int, m': int, d': int)
    requires ValidDate(y, m, d) && ValidDate(y', m', d') && DayNumber(y, m, d) == DayNumber(y', m', d')
    ensures y == y' && m == m' && d == d'
  {
    hide YearStart, MonthStart;
    DateInYear(y, m, d);
    DateInYear(y', m', d');
    YearUnique(DayNumber(y, m, d), y, y');
    MonthsApart(y, m, d, m', d');
  }

  lemma MonthsApart(y: int, m: int, d: int, m': int, d': int)
    requires ValidDate(y, m, d) && ValidDate(y, m', d') && MonthStart(y, m) + d == MonthStart(y, m') + d'
    ensures m == m' && d == d'
  {
    hide MonthStart, MonthLen;
    if m < m' { MonthsGrow(y, m, m'); }
    if m' < m { MonthsGrow(y, m', m); }
  }

  lemma {:induction false} MonthsGrow(y: int, m: int, n: int)
    requires 0 <= m < n < 12
    ensures MonthStart(y, m) + MonthLen(y, m) <= MonthStart(y, n)
    decreases n - m
  {
    hide IsLeap;
    MonthNext(y, n);
    if m + 1 < n { MonthsGrow(y, m, n - 1); }
  }

  /** Every day of a year is in a month. */
  lemma {:induction false} SomeMonth(y: int, rest: int, m: int) returns (n: int)
    requires 0 <= m < 12 && MonthStart(y, m) <= rest < YearLen(y)
    ensures 0 <= n < 12 && MonthStart(y, n) <= rest < MonthStart(y, n) + MonthLen(y, n)
    decreases 12 - m
  {
    hide MonthStart;
    if rest < MonthStart(y, m) + MonthLen(y, m) {
      n := m;
    } else if m < 11 {
      MonthNext(y, m + 1);
      n := SomeMonth(y, rest, m + 1);
    } else {
      MonthStarts(y);
      assert false;
    }
  }

  /** Every day has exactly one date. */
  lemma OneDate(day: int) returns (y: int, m: int, d: int)
    ensures ValidDate(y, m, d) && DayNumber(y, m, d) == day
    ensures forall y', m', d' :: ValidDate(y', m', d') && DayNumber(y', m', d') == day ==> y' == y && m' == m && d' == d
  {
    hide YearStart, MonthStart, MonthLen;
    y := SomeYear(day, 1970);
    NextYear(y);
    MonthStarts(y);
    m := SomeMonth(y, day - YearStart(y), 0);
    d := day - YearStart(y) - MonthStart(y, m) + 1;
    forall y', m', d' | ValidDate(y', m', d') && DayNumber(y', m', d') == day
      ensures y' == y && m' == m && d' == d
    {
      DateUnique(y', m', d', y, m, d);
    }
  }
}
