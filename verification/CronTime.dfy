/**
  Instants and their civil fields in a zone with a fixed offset from UTC.
  `Local` seconds count from midnight, 1 January of year 1, on the zone's wall clock.
 */
module CronTime {
  import opened Calendar

  const DAY := 86400
  const HOUR := 3600
  const MINUTE := 60
  const NANOS := 1_000_000_000

  // Positions of a local second in the sequence of all minutes, hours, days and months.
  function MinuteNo(l: int): int { l / MINUTE }
  function HourNo(l: int): int { MinuteNo(l) / 60 }
  function DayNo(l: int): int { HourNo(l) / 24 }
  function MonthNo(l: int): int { MonthOfDay(DayNo(l)) }
  function MonthFirst(k: int): int { MonthStart(k) * DAY }

  // Civil fields of a local second.
  function YearOf(l: int): int { MonthNo(l) / 12 }
  function MonthOf(l: int): (m: int) ensures 1 <= m <= 12 { MonthNo(l) % 12 + 1 }
  function DayOf(l: int): (d: int)
    ensures 1 <= d <= 31
  {
    MonthLength(MonthNo(l));
    hide MonthStart, MonthOfDay;
    DayNo(l) - MonthStart(MonthNo(l)) + 1
  }
  /** Sunday is 0; 1 January of year 1 is a Monday. */
  function WeekdayOf(l: int): (w: int) ensures 0 <= w <= 6 { (DayNo(l) + 1) % 7 }
  function HourOf(l: int): (h: int) ensures 0 <= h <= 23 { HourNo(l) % 24 }
  function MinuteOf(l: int): (m: int) ensures 0 <= m <= 59 { MinuteNo(l) % 60 }
  function SecondOf(l: int): (s: int) ensures 0 <= s <= 59 { l % 60 }

  /** The local second of a date whose fields may lie outside their usual ranges. */
  function DateLocal(y: int, m: int, d: int, hh: int, mm: int, ss: int): int {
    (MonthStart(12 * y + m - 1) + d - 1) * DAY + hh * HOUR + mm * MINUTE + ss
  }

  /** An instant: seconds and nanoseconds since the zero time, and a zone offset in minutes. */
  datatype Time = Time(sec: int, nsec: int, offset: int) {
    predicate Valid() { 0 <= nsec < NANOS }
    function Local(): int { sec + MINUTE * offset }
    function Year(): int { YearOf(Local()) }
    function Month(): int { MonthOf(Local()) }
    function Day(): int { DayOf(Local()) }
    function Weekday(): int { WeekdayOf(Local()) }
    function Hour(): int { HourOf(Local()) }
    function Minute(): int { MinuteOf(Local()) }
    function Second(): int { SecondOf(Local()) }
    predicate IsZero() { sec == 0 && nsec == 0 }
    predicate Before(u: Time) { sec < u.sec || (sec == u.sec && nsec < u.nsec) }
    predicate After(u: Time) { u.Before(this) }
    function In(zone: int): Time { this.(offset := zone) }
    function AddNanos(d: int): Time { Time(sec + (nsec + d) / NANOS, (nsec + d) % NANOS, offset) }
    function AddSeconds(d: int): Time { this.(sec := sec + d) }
    function AddDate(years: int, months: int, days: int): Time {
      Date(Year() + years, Month() + months, Day() + days, Hour(), Minute(), Second(), offset).(nsec := nsec)
    }
    /** Rounds down to whole seconds since the zero time, which is UTC whatever the zone. */
    function Truncate(seconds: int): Time {
      if seconds <= 0 then this else Time(sec / seconds * seconds, 0, offset)
    }
  }

  const ZeroTime := Time(0, 0, 0)

  function Date(y: int, m: int, d: int, hh: int, mm: int, ss: int, zone: int): Time {
    Time(DateLocal(y, m, d, hh, mm, ss) - MINUTE * zone, 0, zone)
  }

  // ----- How units of time nest

  /** A local second lies in month k exactly between the first seconds of months k and k + 1. */
  lemma InMonth(l: int, k: int)
    ensures MonthNo(l) == k <==> MonthFirst(k) <= l < MonthFirst(k + 1)
  {
    hide MonthStart, MonthOfDay;
    DayBetween(l, MonthStart(k), MonthStart(k + 1));
    if MonthStart(k) <= DayNo(l) < MonthStart(k + 1) {
      MonthOfDayUnique(DayNo(l), k);
    }
  }

  lemma DayBetween(l: int, a: int, b: int)
    ensures a <= DayNo(l) < b <==> a * DAY <= l < b * DAY
  {
    var h, m := HourNo(l), MinuteNo(l);
    assert a <= DayNo(l) < b <==> 24 * a <= h < 24 * b;
    assert 24 * a <= h < 24 * b <==> 1440 * a <= m < 1440 * b;
  }

  lemma MonthNoMonotone(l: int, r: int)
    requires l <= r
    ensures MonthNo(l) <= MonthNo(r) && YearOf(l) <= YearOf(r)
  {
    hide MonthStart, MonthOfDay, MonthFirst, MonthNo;
    var j, k := MonthNo(l), MonthNo(r);
    InMonth(l, j);
    InMonth(r, k);
    if k < j {
      FirstsIncrease(k + 1, j);
    }
  }

  lemma FirstsIncrease(j: int, k: int)
    requires j <= k
    ensures MonthFirst(j) <= MonthFirst(k)
  {
    hide MonthStart;
    MonthStartIncreasing(j, k);
  }

  /** The civil date fields of a second determine the first second of its day and month. */
  lemma DateOfFields(l: int)
    ensures DateLocal(YearOf(l), MonthOf(l), 1, 0, 0, 0) == MonthFirst(MonthNo(l))
    ensures DateLocal(YearOf(l), MonthOf(l) + 1, 1, 0, 0, 0) == MonthFirst(MonthNo(l) + 1)
    ensures DateLocal(YearOf(l), MonthOf(l), DayOf(l), 0, 0, 0) == DayNo(l) * DAY
    ensures DateLocal(YearOf(l), MonthOf(l), DayOf(l) + 1, 0, 0, 0) == (DayNo(l) + 1) * DAY
    ensures DateLocal(YearOf(l), MonthOf(l), DayOf(l), HourOf(l), 0, 0) == HourNo(l) * HOUR
  {
    hide MonthStart, MonthOfDay, MonthNo;
    var k := MonthNo(l);
    assert 12 * YearOf(l) + MonthOf(l) - 1 == k;
    HourInDay(l);
  }

  /** Fields within their ranges are the fields of the date they make. */
  lemma FieldsOfDate(y: int, m: int, d: int, hh: int, mm: int, ss: int)
    requires 1 <= m <= 12 && 1 <= d <= MonthStart(12 * y + m) - MonthStart(12 * y + m - 1)
    requires 0 <= hh <= 23 && 0 <= mm <= 59 && 0 <= ss <= 59
    ensures var l := DateLocal(y, m, d, hh, mm, ss);
            YearOf(l) == y && MonthOf(l) == m && DayOf(l) == d && HourOf(l) == hh && MinuteOf(l) == mm && SecondOf(l) == ss
  {
    hide MonthStart, MonthOfDay;
    var l := DateLocal(y, m, d, hh, mm, ss);
    var k := 12 * y + m - 1;
    var n := MonthStart(k) + d - 1;
    assert l == 60 * (60 * (24 * n + hh) + mm) + ss;
    assert MinuteNo(l) == 60 * (24 * n + hh) + mm;
    assert HourNo(l) == 24 * n + hh;
    assert DayNo(l) == n;
    MonthOfDayUnique(n, k);
    assert k / 12 == y && k % 12 == m - 1;
  }

  /** The weekday of a day number, counted from Thursday, 1 January 1970. */
  lemma WeekdayFromEpoch(n: int, r: int)
    requires 0 <= r < DAY
    ensures WeekdayOf(n * DAY + r) == (n - MonthStart(12 * 1970) + 4) % 7
  {
    EpochDays();
    hide MonthStart;
    var l := n * DAY + r;
    assert MinuteNo(l) == 1440 * n + r / 60;
    assert HourNo(l) == 24 * n + r / 60 / 60;
    assert DayNo(l) == n;
    assert n + 1 == (n - 719162 + 4) + 7 * 102737;
  }

  lemma HourInDay(l: int)
    ensures HourNo(l) == 24 * DayNo(l) + HourOf(l)
    ensures MinuteNo(l) == 60 * HourNo(l) + MinuteOf(l)
    ensures l == 60 * MinuteNo(l) + SecondOf(l)
  {
  }

  /** The second before a whole minute: it is in the same hour or day unless those begin too. */
  lemma BeforeMinute(l: int)
    requires SecondOf(l) == 0
    ensures MinuteNo(l - 1) == MinuteNo(l) - 1
    ensures MinuteOf(l) != 0 ==> HourNo(l - 1) == HourNo(l)
    ensures MinuteOf(l) == 0 ==> HourNo(l - 1) == HourNo(l) - 1
    ensures MinuteOf(l) != 0 || HourOf(l) != 0 ==> DayNo(l - 1) == DayNo(l)
  {
    hide HourNo;
    assert MinuteNo(l - 1) == MinuteNo(l) - 1;
    BeforeHour(l);
  }

  lemma BeforeHour(l: int)
    requires MinuteNo(l - 1) == MinuteNo(l) - 1
    ensures MinuteOf(l) != 0 ==> HourNo(l - 1) == HourNo(l)
    ensures MinuteOf(l) == 0 ==> HourNo(l - 1) == HourNo(l) - 1
    ensures MinuteOf(l) != 0 || HourOf(l) != 0 ==> DayNo(l - 1) == DayNo(l)
  {
    hide MinuteNo;
  }

  lemma AtMinute(l: int, n: int)
    requires l == MINUTE * n
    ensures MinuteNo(l) == n && SecondOf(l) == 0
  {
  }

  lemma AtHour(l: int, n: int)
    requires l == HOUR * n
    ensures HourNo(l) == n && MinuteOf(l) == 0 && SecondOf(l) == 0 && MinuteNo(l) == 60 * n
  {
    AtMinute(l, 60 * n);
  }

  lemma AtDay(l: int, n: int)
    requires l == DAY * n
    ensures DayNo(l) == n && HourOf(l) == 0 && MinuteOf(l) == 0 && SecondOf(l) == 0
    ensures HourNo(l) == 24 * n && MinuteNo(l) == 1440 * n
  {
    AtHour(l, 24 * n);
  }
}
