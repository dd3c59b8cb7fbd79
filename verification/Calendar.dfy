/**
  The proleptic Gregorian calendar on day numbers: day 0 is 1 January of year 1.
  Months are numbered through all years by a month index, 12 * year + month - 1,
  so that month arithmetic never has to carry between two fields.
 */
module Calendar {

  predicate IsLeap(y: int) {
    y % 4 == 0 && (y % 100 != 0 || y % 400 == 0)
  }

  /** Days from 1 January of year 1 to 1 January of year y. */
  function YearStart(y: int): int {
    var p := y - 1;
    365 * p + p / 4 - p / 100 + p / 400
  }

  /** Days before month m of a year; m == 13 gives the length of the year. */
  function DaysBefore(leap: bool, m: int): int
    requires 1 <= m <= 13
  {
    if m == 1 then 0
    else if m == 2 then 31
    else (if leap then 1 else 0) +
         (if m == 3 then 59 else if m == 4 then 90 else if m == 5 then 120
          else if m == 6 then 151 else if m == 7 then 181 else if m == 8 then 212
          else if m == 9 then 243 else if m == 10 then 273 else if m == 11 then 304
          else if m == 12 then 334 else 365)
  }

  /** The day number of the first day of the month with index k. */
  function MonthStart(k: int): int {
    YearStart(k / 12) + DaysBefore(IsLeap(k / 12), k % 12 + 1)
  }

  lemma YearLength(y: int)
    ensures YearStart(y + 1) == YearStart(y) + DaysBefore(IsLeap(y), 13)
  {
    var p := y - 1;
    assert (p + 1) / 4 == p / 4 + (if y % 4 == 0 then 1 else 0);
    assert (p + 1) / 100 == p / 100 + (if y % 100 == 0 then 1 else 0);
    assert (p + 1) / 400 == p / 400 + (if y % 400 == 0 then 1 else 0);
    assert y % 400 == 0 ==> y % 100 == 0;
    assert y % 100 == 0 ==> y % 4 == 0;
  }

  /** Every month has between 28 and 31 days. */
  lemma MonthLength(k: int)
    ensures 28 <= MonthStart(k + 1) - MonthStart(k) <= 31
  {
    if k % 12 == 11 {
      assert (k + 1) / 12 == k / 12 + 1 && (k + 1) % 12 == 0;
      YearLength(k / 12);
    } else {
      assert (k + 1) / 12 == k / 12 && (k + 1) % 12 == k % 12 + 1;
    }
  }

  /** The lengths of the months, in every year, and where the day numbers stand at a known date. */
  lemma GregorianMonths(y: int, m: int)
    requires 1 <= m <= 12
    ensures MonthStart(12 * y + m) - MonthStart(12 * y + m - 1) ==
            if m == 2 then (if y % 4 == 0 && (y % 100 != 0 || y % 400 == 0) then 29 else 28)
            else if m in {4, 6, 9, 11} then 30 else 31
    ensures MonthStart(12 * 1970) == 719162 && MonthStart(12) == 0
  {
    hide YearStart, MonthStart;
    IndexParts(y, m);
    YearLength(y);
    EpochDays();
  }

  lemma EpochDays()
    ensures MonthStart(12 * 1970) == 719162 && MonthStart(12) == 0
  {
    hide MonthStart;
    IndexParts(1970, 1);
    IndexParts(1, 1);
    assert YearStart(1970) == 719162;
  }

  lemma {:induction false} MonthStartIncreasing(j: int, k: int)
    requires j <= k
    ensures MonthStart(j) + 28 * (k - j) <= MonthStart(k)
    decreases k - j
  {
    hide MonthStart;
    if j < k {
      MonthLength(j);
      MonthStartIncreasing(j + 1, k);
    }
  }

  /** The year of a day number, by 400-, 100-, 4- and 1-year cycles. */
  function YearOfDay(d: int): (y: int)
    ensures YearStart(y) <= d < YearStart(y + 1)
  {
    hide YearStart, IsLeap;
    var n400, r400 := d / 146097, d % 146097;
    var n100 := if r400 / 36524 == 4 then 3 else r400 / 36524;
    var r100 := r400 - 36524 * n100;
    var n4, r4 := r100 / 1461, r100 % 1461;
    var n1 := if r4 / 365 == 4 then 3 else r4 / 365;
    var p := 400 * n400 + 100 * n100 + 4 * n4 + n1;
    CycleStart(n400, n100, n4, n1);
    CycleLeap(n400, n100, n4, n1);
    YearLength(p + 1);
    p + 1
  }

  lemma CycleStart(n400: int, n100: int, n4: int, n1: int)
    requires 0 <= n100 <= 3 && 0 <= n4 <= 24 && 0 <= n1 <= 3
    ensures YearStart(400 * n400 + 100 * n100 + 4 * n4 + n1 + 1) ==
            146097 * n400 + 36524 * n100 + 1461 * n4 + 365 * n1
  {
    var p := 400 * n400 + 100 * n100 + 4 * n4 + n1;
    QuotientIs(p, 4, 100 * n400 + 25 * n100 + n4, n1);
    QuotientIs(p, 100, 4 * n400 + n100, 4 * n4 + n1);
    QuotientIs(p, 400, n400, 100 * n100 + 4 * n4 + n1);
  }

  lemma CycleLeap(n400: int, n100: int, n4: int, n1: int)
    requires 0 <= n100 <= 3 && 0 <= n4 <= 24 && 0 <= n1 <= 3
    ensures IsLeap(400 * n400 + 100 * n100 + 4 * n4 + n1 + 1) <==> n1 == 3 && (n4 != 24 || n100 == 3)
  {
    var y := 400 * n400 + 100 * n100 + 4 * n4 + n1 + 1;
    if n1 != 3 {
      QuotientIs(y, 4, 100 * n400 + 25 * n100 + n4, n1 + 1);
    } else {
      QuotientIs(y, 4, 100 * n400 + 25 * n100 + n4 + 1, 0);
      if n4 != 24 {
        QuotientIs(y, 100, 4 * n400 + n100, 4 * n4 + 4);
      } else {
        QuotientIs(y, 100, 4 * n400 + n100 + 1, 0);
        if n100 != 3 {
          QuotientIs(y, 400, n400, 100 * n100 + 100);
        } else {
          QuotientIs(y, 400, n400 + 1, 0);
        }
      }
    }
  }

  lemma QuotientIs(n: int, d: int, q: int, r: int)
    requires d in {4, 100, 400} && 0 <= r < d && n == d * q + r
    ensures n / d == q && n % d == r
  {
  }

  /** The month index of a day number. */
  function MonthOfDay(d: int): (k: int)
    ensures MonthStart(k) <= d < MonthStart(k + 1)
  {
    var y := YearOfDay(d);
    YearLength(y);
    hide MonthStart, YearStart;
    var m := MonthInYear(IsLeap(y), d - YearStart(y));
    MonthSpan(d, y, m);
    12 * y + m - 1
  }

  lemma MonthSpan(d: int, y: int, m: int)
    requires 1 <= m <= 12
    requires DaysBefore(IsLeap(y), m) <= d - YearStart(y) < DaysBefore(IsLeap(y), m + 1)
    ensures MonthStart(12 * y + m - 1) <= d < MonthStart(12 * y + m)
  {
    IndexParts(y, m);
    if m == 12 {
      YearLength(y);
    }
  }

  function MonthInYear(leap: bool, doy: int): (m: int)
    requires 0 <= doy < DaysBefore(leap, 13)
    ensures 1 <= m <= 12 && DaysBefore(leap, m) <= doy < DaysBefore(leap, m + 1)
  {
    if doy < DaysBefore(leap, 2) then 1
    else if doy < DaysBefore(leap, 3) then 2
    else if doy < DaysBefore(leap, 4) then 3
    else if doy < DaysBefore(leap, 5) then 4
    else if doy < DaysBefore(leap, 6) then 5
    else if doy < DaysBefore(leap, 7) then 6
    else if doy < DaysBefore(leap, 8) then 7
    else if doy < DaysBefore(leap, 9) then 8
    else if doy < DaysBefore(leap, 10) then 9
    else if doy < DaysBefore(leap, 11) then 10
    else if doy < DaysBefore(leap, 12) then 11
    else 12
  }

  lemma IndexParts(y: int, m: int)
    requires 1 <= m <= 12
    ensures MonthStart(12 * y + m - 1) == YearStart(y) + DaysBefore(IsLeap(y), m)
    ensures MonthStart(12 * y + m) ==
            if m == 12 then YearStart(y + 1) else YearStart(y) + DaysBefore(IsLeap(y), m + 1)
  {
    assert (12 * y + m - 1) / 12 == y && (12 * y + m - 1) % 12 == m - 1;
    if m == 12 {
      assert (12 * y + 12) / 12 == y + 1 && (12 * y + 12) % 12 == 0;
    } else {
      assert (12 * y + m) / 12 == y && (12 * y + m) % 12 == m;
    }
  }

  /** A day belongs to the one month whose days surround it. */
  lemma MonthOfDayUnique(d: int, k: int)
    requires MonthStart(k) <= d < MonthStart(k + 1)
    ensures MonthOfDay(d) == k
  {
    hide MonthStart, MonthOfDay;
    MonthsDisjoint(d, MonthOfDay(d), k);
  }

  lemma MonthsDisjoint(d: int, j: int, k: int)
    requires MonthStart(j) <= d < MonthStart(j + 1)
    requires MonthStart(k) <= d < MonthStart(k + 1)
    ensures j == k
  {
    hide MonthStart;
    if j < k {
      MonthStartIncreasing(j + 1, k);
    } else if k < j {
      MonthStartIncreasing(k + 1, j);
    }
  }
}
