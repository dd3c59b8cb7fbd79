/**
  SpecSchedule: a crontab schedule stored as six bit sets, and its Next method, which
  finds the next activation by bumping one calendar field at a time.
  Zones are fixed offsets of whole minutes.
 */
module CronSpec {
  import opened Calendar
  import opened CronBits
  import opened CronTime

  /** Where a schedule's fields are read: in the zone of the time given, or in its own. */
  datatype Zone = Given | Fixed(minutes: int)

  datatype SpecSchedule =
    SpecSchedule(second: Word, minute: Word, hour: Word, dom: Word, month: Word, dow: Word, location: Zone)

  // ----- What a schedule means

  predicate MonthOk(s: SpecSchedule, l: int) { HasBit(s.month, MonthOf(l)) }
  /** Day of month and day of week must both match if either is a star; otherwise one is enough. */
  predicate DayOk(s: SpecSchedule, l: int) {
    var domMatch := HasBit(s.dom, DayOf(l));
    var dowMatch := HasBit(s.dow, WeekdayOf(l));
    if And(s.dom, STAR_BIT) != ZERO || And(s.dow, STAR_BIT) != ZERO then domMatch && dowMatch else domMatch || dowMatch
  }
  predicate HourOk(s: SpecSchedule, l: int) { HasBit(s.hour, HourOf(l)) }
  predicate MinuteOk(s: SpecSchedule, l: int) { HasBit(s.minute, MinuteOf(l)) }
  predicate SecondOk(s: SpecSchedule, l: int) { HasBit(s.second, SecondOf(l)) }

  predicate Matches(s: SpecSchedule, l: int) {
    MonthOk(s, l) && DayOk(s, l) && HourOk(s, l) && MinuteOk(s, l) && SecondOk(s, l)
  }

  function ZoneFor(s: SpecSchedule, t: Time): int {
    if s.location.Given? then t.offset else s.location.minutes
  }

  /**
    `v` is a second the schedule may pick after `t`: strictly later, matching on the wall
    clock, and at most five years past the year of the second after `t`.
   */
  predicate Candidate(s: SpecSchedule, t: Time, v: int) {
    var shift := MINUTE * ZoneFor(s, t);
    v > t.sec && Matches(s, v + shift) && YearOf(v + shift) <= YearOf(t.sec + 1 + shift) + 5
  }

  // ----- Runs of seconds that cannot match

  ghost predicate NoMatch(s: SpecSchedule, a: int, b: int) {
    forall v :: a <= v < b ==> !Matches(s, v)
  }

  lemma SkipMonth(s: SpecSchedule, l: int)
    requires !MonthOk(s, l)
    ensures NoMatch(s, MonthFirst(MonthNo(l)), MonthFirst(MonthNo(l) + 1))
  {
    hide MonthNo, MonthFirst, HasBit;
    var k := MonthNo(l);
    forall v | MonthFirst(k) <= v < MonthFirst(k + 1)
      ensures !Matches(s, v)
    {
      InMonth(v, k);
      assert MonthOf(v) == MonthOf(l);
    }
  }

  lemma SkipDay(s: SpecSchedule, l: int)
    requires !DayOk(s, l)
    ensures NoMatch(s, DAY * DayNo(l), DAY * (DayNo(l) + 1))
  {
    hide MonthOfDay, MonthStart, HasBit;
    var d := DayNo(l);
    forall v | DAY * d <= v < DAY * (d + 1)
      ensures !Matches(s, v)
    {
      DayBetween(v, d, d + 1);
      assert DayOf(v) == DayOf(l) && WeekdayOf(v) == WeekdayOf(l);
    }
  }

  lemma SkipHour(s: SpecSchedule, l: int)
    requires !HourOk(s, l)
    ensures NoMatch(s, HOUR * HourNo(l), HOUR * (HourNo(l) + 1))
  {
    hide HasBit, DayOk, MonthOk, MinuteOk, SecondOk;
    forall v | HOUR * HourNo(l) <= v < HOUR * (HourNo(l) + 1)
      ensures !Matches(s, v)
    {
      assert HourNo(v) == HourNo(l);
    }
  }

  lemma SkipMinute(s: SpecSchedule, l: int)
    requires !MinuteOk(s, l)
    ensures NoMatch(s, MINUTE * MinuteNo(l), MINUTE * (MinuteNo(l) + 1))
  {
    hide HasBit, DayOk, MonthOk, HourOk;
    forall v | MINUTE * MinuteNo(l) <= v < MINUTE * (MinuteNo(l) + 1)
      ensures !Matches(s, v)
    {
      assert MinuteNo(v) == MinuteNo(l);
    }
  }

  // ----- The search invariant

  /** Whenever a field of `l` does not match, every smaller field is at its minimum. */
  ghost predicate Aligned(s: SpecSchedule, l: int) {
    && (!MonthOk(s, l) ==> l == MonthFirst(MonthNo(l)))
    && (!DayOk(s, l) ==> l == DAY * DayNo(l))
    && (!HourOk(s, l) ==> l == HOUR * HourNo(l))
    && (!MinuteOk(s, l) ==> l == MINUTE * MinuteNo(l))
  }

  ghost predicate Searching(s: SpecSchedule, start: int, l: int, added: bool) {
    && start <= l
    && NoMatch(s, start, l)
    && (!added ==> l == start)
    && (added ==> Aligned(s, l))
  }

  /** A whole minute whose predecessor matched down to the field that rolled over is aligned. */
  lemma AlignedAtBoundary(s: SpecSchedule, l: int)
    requires SecondOf(l) == 0
    requires MonthOk(s, l - 1)
    requires MinuteOf(l) != 0 || HourOf(l) != 0 ==> DayOk(s, l - 1)
    requires MinuteOf(l) != 0 ==> HourOk(s, l - 1)
    ensures Aligned(s, l)
    ensures MinuteOf(l) != 0 || HourOf(l) != 0 ==> MonthOk(s, l) && DayOk(s, l)
  {
    hide MonthOfDay, MonthStart, HasBit, MonthFirst, DayOk, MonthOk;
    HourInDay(l);
    BeforeMinute(l);
    if MinuteOf(l) != 0 || HourOf(l) != 0 {
      SameDay(s, l - 1, l);
    }
    if l != MonthFirst(MonthNo(l)) {
      SameMonth(s, l);
    }
  }

  lemma SameMonth(s: SpecSchedule, l: int)
    requires l != MonthFirst(MonthNo(l))
    ensures MonthNo(l - 1) == MonthNo(l) && MonthOk(s, l - 1) == MonthOk(s, l)
  {
    hide MonthNo, HasBit, MonthFirst;
    InMonth(l, MonthNo(l));
    InMonth(l - 1, MonthNo(l));
  }

  lemma SameDay(s: SpecSchedule, l: int, r: int)
    requires DayNo(l) == DayNo(r)
    ensures MonthNo(l) == MonthNo(r) && DayOk(s, l) == DayOk(s, r) && MonthOk(s, l) == MonthOk(s, r)
  {
    hide MonthOfDay, MonthStart, HasBit;
  }

  lemma BumpMonth(s: SpecSchedule, start: int, l: int, added: bool, n: int)
    requires Searching(s, start, l, added) && !MonthOk(s, l) && n == MonthFirst(MonthNo(l) + 1)
    ensures Searching(s, start, n, true) && l < n && MonthNo(n) == MonthNo(l) + 1
  {
    hide MonthOfDay, MonthStart, MonthNo, MonthOk, DayOk, HourOk, MinuteOk, Matches;
    var k := MonthNo(l);
    InMonth(l, k);
    InMonth(n, k + 1);
    MonthLength(k + 1);
    SkipMonth(s, l);
    FirstIsMidnight(n);
  }

  lemma FirstIsMidnight(l: int)
    requires l == MonthFirst(MonthNo(l))
    ensures l == DAY * DayNo(l) == HOUR * HourNo(l) == MINUTE * MinuteNo(l)
    ensures DayOf(l) == 1 && HourOf(l) == 0 && MinuteOf(l) == 0 && SecondOf(l) == 0
  {
    hide MonthStart, MonthOfDay, MonthNo;
    AtDay(l, MonthStart(MonthNo(l)));
  }

  lemma BumpDay(s: SpecSchedule, start: int, l: int, added: bool, n: int)
    requires Searching(s, start, l, added) && MonthOk(s, l) && !DayOk(s, l) && n == DAY * (DayNo(l) + 1)
    ensures Searching(s, start, n, true) && l < n && HourOf(n) == 0
    ensures DayOf(n) != 1 ==> MonthNo(n) == MonthNo(l) && DayOf(n) == DayOf(l) + 1
  {
    hide MonthOfDay, MonthStart, MonthOk, DayOk, HourOk, MinuteOk, Matches, MonthFirst, DayNo, HourNo, MinuteNo;
    SkipDay(s, l);
    DayBetween(l, DayNo(l), DayNo(l) + 1);
    DayBetween(n - 1, DayNo(l), DayNo(l) + 1);
    SameDay(s, l, n - 1);
    AtDay(n, DayNo(l) + 1);
    if DayOf(n) == 1 {
      OnFirst(n);
    } else {
      if n == MonthFirst(MonthNo(n)) {
        FirstIsMidnight(n);
        assert false;
      }
      SameMonth(s, n);
    }
  }

  lemma OnFirst(l: int)
    requires DayOf(l) == 1 && l == DAY * DayNo(l)
    ensures l == MonthFirst(MonthNo(l))
  {
    hide MonthOfDay, MonthStart;
  }

  lemma BumpHour(s: SpecSchedule, start: int, l: int, added: bool, n: int)
    requires Searching(s, start, l, added) && MonthOk(s, l) && DayOk(s, l) && !HourOk(s, l)
    requires n == HOUR * (HourNo(l) + 1)
    ensures Searching(s, start, n, true) && l < n
    ensures HourOf(n) != 0 ==> DayNo(n) == DayNo(l) && HourOf(n) == HourOf(l) + 1
  {
    hide MonthOfDay, MonthStart, Matches, MonthFirst, MonthOk, DayOk, HourOk, MinuteOk, HourNo, MinuteNo;
    SkipHour(s, l);
    AtHour(n, HourNo(l) + 1);
    HourInDay(l);
    BeforeMinute(n);
    SameDay(s, l, n - 1);
    AlignedAtBoundary(s, n);
  }

  lemma BumpMinute(s: SpecSchedule, start: int, l: int, added: bool, n: int)
    requires Searching(s, start, l, added) && MonthOk(s, l) && DayOk(s, l) && HourOk(s, l) && !MinuteOk(s, l)
    requires n == MINUTE * (MinuteNo(l) + 1)
    ensures Searching(s, start, n, true) && l < n
    ensures MinuteOf(n) != 0 ==> HourNo(n) == HourNo(l) && MinuteOf(n) == MinuteOf(l) + 1
  {
    hide MonthOfDay, MonthStart, Matches, MonthFirst, MonthOk, DayOk, MinuteOk, MinuteNo;
    SkipMinute(s, l);
    AtMinute(n, MinuteNo(l) + 1);
    HourInDay(l);
    BeforeMinute(n);
    SameDay(s, l, n - 1);
    AlignedAtBoundary(s, n);
  }

  lemma BumpSecond(s: SpecSchedule, start: int, l: int, added: bool, n: int)
    requires Searching(s, start, l, added) && n == l + 1 && !SecondOk(s, l)
    requires MonthOk(s, l) && DayOk(s, l) && HourOk(s, l) && MinuteOk(s, l)
    ensures Searching(s, start, n, true) && l < n
    ensures SecondOf(n) != 0 ==> MinuteNo(n) == MinuteNo(l) && SecondOf(n) == SecondOf(l) + 1
  {
    hide MonthOfDay, MonthStart, MonthFirst, MonthOk, DayOk, HourOk, MinuteOk, HourNo;
    assert !Matches(s, l);
    if SecondOf(n) == 0 {
      AlignedAtBoundary(s, n);
    } else {
      SameMinuteFields(s, l, n);
    }
  }

  // ----- What the operations on Time do to local seconds

  /** The whole local second `l` in the given zone. */
  function AtLocal(l: int, zone: int): (t: Time)
    ensures t.Local() == l
  {
    Time(l - MINUTE * zone, 0, zone)
  }

  lemma FirstOfMonth(t: Time)
    ensures var k := MonthNo(t.Local());
            && Date(t.Year(), t.Month(), 1, 0, 0, 0, t.offset) == AtLocal(MonthFirst(k), t.offset)
            && (t == AtLocal(MonthFirst(k), t.offset) ==>
                  t.AddDate(0, 1, 0) == AtLocal(MonthFirst(k + 1), t.offset))
  {
    hide MonthOfDay, MonthStart, MonthNo, DateLocal, MonthFirst;
    DateOfFields(t.Local());
    if t == AtLocal(MonthFirst(MonthNo(t.Local())), t.offset) {
      FirstIsMidnight(t.Local());
    }
  }

  lemma StartOfDay(t: Time)
    ensures var d := DayNo(t.Local());
            && Date(t.Year(), t.Month(), t.Day(), 0, 0, 0, t.offset) == AtLocal(DAY * d, t.offset)
            && (t == AtLocal(DAY * d, t.offset) ==> t.AddDate(0, 0, 1) == AtLocal(DAY * (d + 1), t.offset))
  {
    hide MonthOfDay, MonthStart, MonthNo, DateLocal, DayNo, DayOf;
    DateOfFields(t.Local());
    if t == AtLocal(DAY * DayNo(t.Local()), t.offset) {
      AtDay(t.Local(), DayNo(t.Local()));
    }
  }

  lemma StartOfHour(t: Time)
    ensures Date(t.Year(), t.Month(), t.Day(), t.Hour(), 0, 0, t.offset) ==
            AtLocal(HOUR * HourNo(t.Local()), t.offset)
  {
    hide MonthOfDay, MonthStart, MonthNo, DateLocal, HourNo, DayOf;
    DateOfFields(t.Local());
  }

  /** Truncation counts from the zero time in UTC, which agrees with the wall clock at whole-minute offsets. */
  lemma StartOfMinute(t: Time)
    ensures t.Truncate(MINUTE) == AtLocal(MINUTE * MinuteNo(t.Local()), t.offset)
  {
  }

  /** The first unit of a month, day, hour or minute lies in that unit. */
  lemma FirstsBelong(l: int)
    ensures MonthNo(MonthFirst(MonthNo(l))) == MonthNo(l)
    ensures DayNo(DAY * DayNo(l)) == DayNo(l)
  {
    hide MonthNo, MonthFirst, DayNo;
    InMonth(l, MonthNo(l));
    InMonth(MonthFirst(MonthNo(l)), MonthNo(l));
    AtDay(DAY * DayNo(l), DayNo(l));
  }

  // ----- Next

  lemma PastTheYears(s: SpecSchedule, t0: Time, start: int, l: int, added: bool, yearLimit: int)
    requires start == t0.sec + 1 + MINUTE * ZoneFor(s, t0) && yearLimit == YearOf(start) + 5
    requires Searching(s, start, l, added) && YearOf(l) > yearLimit
    ensures !exists v :: Candidate(s, t0, v)
  {
    hide MonthNo, YearOf, Matches, Aligned;
    forall v | Candidate(s, t0, v)
      ensures false
    {
      var w := v + MINUTE * ZoneFor(s, t0);
      if w >= l {
        MonthNoMonotone(l, w);
      }
    }
  }

  lemma FoundLeast(s: SpecSchedule, t0: Time, start: int, l: int, added: bool)
    requires start == t0.sec + 1 + MINUTE * ZoneFor(s, t0)
    requires Searching(s, start, l, added) && Matches(s, l) && YearOf(l) <= YearOf(start) + 5
    ensures Candidate(s, t0, l - MINUTE * ZoneFor(s, t0))
    ensures forall v :: Candidate(s, t0, v) ==> l - MINUTE * ZoneFor(s, t0) <= v
  {
    hide MonthNo, YearOf, Matches, Aligned;
    forall v | Candidate(s, t0, v)
      ensures l <= v + MINUTE * ZoneFor(s, t0)
    {
    }
  }

  lemma BeforeYearEnd(l: int, y: int)
    requires YearOf(l) <= y
    ensures l < MonthFirst(12 * (y + 1))
  {
    hide MonthNo, MonthFirst;
    InMonth(l, MonthNo(l));
    FirstsIncrease(MonthNo(l) + 1, 12 * (y + 1));
  }

  // ----- One bump of each loop of Next, as it happens to a Time

  /** A search state of Next: whole second, right zone, nothing missed, within the year limit. */
  ghost predicate At(s: SpecSchedule, start: int, t: Time, added: bool, zone: int) {
    t.nsec == 0 && t.offset == zone && Searching(s, start, t.Local(), added)
  }

  lemma MonthStep(s: SpecSchedule, start: int, t: Time, added: bool, zone: int)
    requires At(s, start, t, added, zone) && !MonthOk(s, t.Local())
    ensures var u := if added then t else Date(t.Year(), t.Month(), 1, 0, 0, 0, zone);
            var n := u.AddDate(0, 1, 0);
            && At(s, start, n, true, zone) && t.Local() < n.Local()
            && (n.Month() != 1 ==> n.Year() == t.Year() && n.Month() == t.Month() + 1)
  {
    hide MonthOfDay, MonthStart, MonthNo, MonthFirst, DateLocal, HasBit, DayOk, Date, NoMatch, HourNo, MinuteNo;
    var l := t.Local();
    var u := if added then t else Date(t.Year(), t.Month(), 1, 0, 0, 0, zone);
    FirstOfMonth(t);
    FirstsBelong(l);
    FirstOfMonth(u);
    BumpMonth(s, start, l, added, MonthFirst(MonthNo(l) + 1));
    NextMonth(l, MonthFirst(MonthNo(l) + 1));
  }

  lemma DayStep(s: SpecSchedule, start: int, t: Time, added: bool, zone: int)
    requires At(s, start, t, added, zone) && MonthOk(s, t.Local()) && !DayOk(s, t.Local())
    ensures var u := if added then t else Date(t.Year(), t.Month(), t.Day(), 0, 0, 0, zone);
            var n := u.AddDate(0, 0, 1);
            && At(s, start, n, true, zone) && t.Local() < n.Local() && n.Hour() == 0
            && (n.Day() != 1 ==> MonthOk(s, n.Local()) && n.Year() == t.Year() && n.Day() == t.Day() + 1)
  {
    hide MonthOfDay, MonthStart, MonthNo, MonthFirst, DateLocal, HasBit, DayOk, Date, NoMatch, MonthOk, DayOf, YearOf,
      HourNo, MinuteNo, DayNo;
    var l := t.Local();
    var u := if added then t else Date(t.Year(), t.Month(), t.Day(), 0, 0, 0, zone);
    StartOfDay(t);
    FirstsBelong(l);
    StartOfDay(u);
    var n := DAY * (DayNo(l) + 1);
    BumpDay(s, start, l, added, n);
    if DayOf(n) != 1 {
      SameMonthFields(s, l, n);
    }
  }

  lemma HourStep(s: SpecSchedule, start: int, t: Time, added: bool, zone: int)
    requires At(s, start, t, added, zone)
    requires MonthOk(s, t.Local()) && DayOk(s, t.Local()) && !HourOk(s, t.Local())
    ensures var u := if added then t else Date(t.Year(), t.Month(), t.Day(), t.Hour(), 0, 0, zone);
            var n := u.AddSeconds(HOUR);
            && At(s, start, n, true, zone) && t.Local() < n.Local()
            && (n.Hour() != 0 ==> && MonthOk(s, n.Local()) && DayOk(s, n.Local())
                                  && n.Year() == t.Year() && n.Hour() == t.Hour() + 1)
  {
    hide MonthOfDay, MonthStart, MonthNo, MonthFirst, DateLocal, DayOk, HourOk, Date, NoMatch, MonthOk, YearOf,
      HourNo, MinuteNo, HourOf;
    var l := t.Local();
    StartOfHour(t);
    var n := HOUR * (HourNo(l) + 1);
    BumpHour(s, start, l, added, n);
    if HourOf(n) != 0 {
      SameDayFields(s, l, n);
    }
  }

  lemma MinuteStep(s: SpecSchedule, start: int, t: Time, added: bool, zone: int)
    requires At(s, start, t, added, zone)
    requires MonthOk(s, t.Local()) && DayOk(s, t.Local()) && HourOk(s, t.Local()) && !MinuteOk(s, t.Local())
    ensures var u := if added then t else t.Truncate(MINUTE);
            var n := u.AddSeconds(MINUTE);
            && At(s, start, n, true, zone) && t.Local() < n.Local()
            && (n.Minute() != 0 ==> && MonthOk(s, n.Local()) && DayOk(s, n.Local()) && HourOk(s, n.Local())
                                    && n.Year() == t.Year() && n.Minute() == t.Minute() + 1)
  {
    hide MonthOfDay, MonthStart, MonthNo, MonthFirst, DayOk, HourOk, MinuteOk, NoMatch, MonthOk, YearOf, MinuteNo,
      MinuteOf;
    var l := t.Local();
    StartOfMinute(t);
    var n := MINUTE * (MinuteNo(l) + 1);
    BumpMinute(s, start, l, added, n);
    if MinuteOf(n) != 0 {
      SameHourFields(s, l, n);
    }
  }

  lemma SecondStep(s: SpecSchedule, start: int, t: Time, added: bool, zone: int)
    requires At(s, start, t, added, zone) && MonthOk(s, t.Local()) && DayOk(s, t.Local())
    requires HourOk(s, t.Local()) && MinuteOk(s, t.Local()) && !SecondOk(s, t.Local())
    ensures var u := if added then t else t.Truncate(1);
            var n := u.AddSeconds(1);
            && At(s, start, n, true, zone) && t.Local() < n.Local()
            && (n.Second() != 0 ==> && MonthOk(s, n.Local()) && DayOk(s, n.Local()) && HourOk(s, n.Local())
                                    && MinuteOk(s, n.Local()) && n.Year() == t.Year()
                                    && n.Second() == t.Second() + 1)
  {
    hide MonthOfDay, MonthStart, MonthNo, MonthFirst, DayOk, HourOk, MinuteOk, NoMatch, MonthOk, YearOf, MinuteNo,
      SecondOf;
    var l := t.Local();
    BumpSecond(s, start, l, added, l + 1);
    if SecondOf(l + 1) != 0 {
      SameMinuteFields(s, l, l + 1);
    }
  }

  /** The first second tried: the whole second after `t0`, on the schedule's wall clock. */
  lemma StartStep(s: SpecSchedule, t0: Time)
    requires t0.Valid()
    ensures var u := if s.location.Given? then t0 else t0.In(s.location.minutes);
            var n := u.AddNanos(NANOS - u.nsec);
            && At(s, n.Local(), n, false, ZoneFor(s, t0))
            && n.Local() == t0.sec + 1 + MINUTE * ZoneFor(s, t0)
            && n.Year() == YearOf(n.Local())
  {
    hide Matches, MonthNo;
  }

  lemma FoundStep(s: SpecSchedule, t0: Time, start: int, t: Time, added: bool)
    requires start == t0.sec + 1 + MINUTE * ZoneFor(s, t0) && At(s, start, t, added, ZoneFor(s, t0))
    requires MonthOk(s, t.Local()) && DayOk(s, t.Local()) && HourOk(s, t.Local())
    requires MinuteOk(s, t.Local()) && SecondOk(s, t.Local()) && t.Year() <= YearOf(start) + 5
    ensures t.In(t0.offset) == Time(t.sec, 0, t0.offset) && Candidate(s, t0, t.sec)
    ensures forall v :: Candidate(s, t0, v) ==> t.sec <= v
  {
    hide MonthNo, YearOf, MonthOk, DayOk, HourOk, MinuteOk, SecondOk, NoMatch, Candidate;
    FoundLeast(s, t0, start, t.Local(), added);
  }

  lemma LimitStep(s: SpecSchedule, t0: Time, start: int, t: Time, added: bool, yearLimit: int)
    requires start == t0.sec + 1 + MINUTE * ZoneFor(s, t0) && yearLimit == YearOf(start) + 5
    requires At(s, start, t, added, ZoneFor(s, t0))
    ensures t.Year() > yearLimit ==> !exists v :: Candidate(s, t0, v)
    ensures t.Year() <= yearLimit ==> t.Local() < MonthFirst(12 * (yearLimit + 1))
  {
    hide MonthNo, YearOf, NoMatch, Candidate, MonthFirst;
    if t.Year() > yearLimit {
      PastTheYears(s, t0, start, t.Local(), added, yearLimit);
    } else {
      BeforeYearEnd(t.Local(), yearLimit);
    }
  }

  // ----- Next

  /**
    The least candidate second after `t0`, expressed in the zone of `t0`, or the zero time
    if there is none.
   */
  method Next(s: SpecSchedule, t0: Time) returns (r: Time)
    requires t0.Valid()
    ensures (exists v :: Candidate(s, t0, v)) ==>
              && r.nsec == 0 && r.offset == t0.offset
              && Candidate(s, t0, r.sec)
              && forall v :: Candidate(s, t0, v) ==> r.sec <= v
    ensures !(exists v :: Candidate(s, t0, v)) ==> r == ZeroTime
  {
    hide *;
    StartStep(s, t0);
    var loc := if s.location.Given? then t0.offset else s.location.minutes;
    assert loc == ZoneFor(s, t0) by { ZoneIs(s, t0); }
    var t := t0;
    if !s.location.Given? {
      t := t.In(s.location.minutes);
    }
    t := t.AddNanos(NANOS - t.nsec);
    var added := false;
    var yearLimit := t.Year() + 5;
    ghost var start := t.Local();

    label Wrap:
    while true
      invariant At(s, start, t, added, loc)
      decreases MonthFirst(12 * (yearLimit + 1)) - t.Local()
    {
      LimitStep(s, t0, start, t, added, yearLimit);
      if t.Year() > yearLimit {
        return ZeroTime;
      }
      ghost var wrapped := t.Local();

      while !MonthOk(s, t.Local())
        invariant At(s, start, t, added, loc) && wrapped <= t.Local() && t.Year() <= yearLimit
        decreases 12 - t.Month()
      {
        MonthStep(s, start, t, added, loc);
        MonthRange(t);
        if !added {
          added := true;
          t := Date(t.Year(), t.Month(), 1, 0, 0, 0, loc);
        }
        t := t.AddDate(0, 1, 0);
        if t.Month() == 1 {
          continue Wrap;
        }
      }

      while !DayOk(s, t.Local())
        invariant At(s, start, t, added, loc) && wrapped <= t.Local() && t.Year() <= yearLimit
        invariant MonthOk(s, t.Local())
        decreases 31 - t.Day()
      {
        DayStep(s, start, t, added, loc);
        MonthRange(t);
        if !added {
          added := true;
          t := Date(t.Year(), t.Month(), t.Day(), 0, 0, 0, loc);
        }
        t := t.AddDate(0, 0, 1);
        // The repair for a missing midnight: at a fixed offset it never applies.
        if t.Hour() != 0 {
          if t.Hour() > 12 {
            t := t.AddSeconds((24 - t.Hour()) * HOUR);
          } else {
            t := t.AddSeconds(-t.Hour() * HOUR);
          }
        }
        if t.Day() == 1 {
          continue Wrap;
        }
      }

      while !HourOk(s, t.Local())
        invariant At(s, start, t, added, loc) && wrapped <= t.Local() && t.Year() <= yearLimit
        invariant MonthOk(s, t.Local()) && DayOk(s, t.Local())
        decreases 23 - t.Hour()
      {
        HourStep(s, start, t, added, loc);
        ClockRange(t);
        if !added {
          added := true;
          t := Date(t.Year(), t.Month(), t.Day(), t.Hour(), 0, 0, loc);
        }
        t := t.AddSeconds(HOUR);
        if t.Hour() == 0 {
          continue Wrap;
        }
      }

      while !MinuteOk(s, t.Local())
        invariant At(s, start, t, added, loc) && wrapped <= t.Local() && t.Year() <= yearLimit
        invariant MonthOk(s, t.Local()) && DayOk(s, t.Local()) && HourOk(s, t.Local())
        decreases 59 - t.Minute()
      {
        MinuteStep(s, start, t, added, loc);
        ClockRange(t);
        if !added {
          added := true;
          t := t.Truncate(MINUTE);
        }
        t := t.AddSeconds(MINUTE);
        if t.Minute() == 0 {
          continue Wrap;
        }
      }

      while !SecondOk(s, t.Local())
        invariant At(s, start, t, added, loc) && wrapped <= t.Local() && t.Year() <= yearLimit
        invariant MonthOk(s, t.Local()) && DayOk(s, t.Local()) && HourOk(s, t.Local()) && MinuteOk(s, t.Local())
        decreases 59 - t.Second()
      {
        SecondStep(s, start, t, added, loc);
        ClockRange(t);
        if !added {
          added := true;
          t := t.Truncate(1);
        }
        t := t.AddSeconds(1);
        if t.Second() == 0 {
          continue Wrap;
        }
      }

      FoundStep(s, t0, start, t, added);
      return t.In(t0.offset);
    }
  }

  lemma ZoneIs(s: SpecSchedule, t: Time)
    ensures ZoneFor(s, t) == if s.location.Given? then t.offset else s.location.minutes
  {
  }

  lemma MonthRange(t: Time)
    ensures 1 <= t.Month() <= 12 && 1 <= t.Day() <= 31
  {
    hide MonthOf, DayOf;
  }

  lemma ClockRange(t: Time)
    ensures 0 <= t.Hour() <= 23 && 0 <= t.Minute() <= 59 && 0 <= t.Second() <= 59
  {
    hide HourOf, MinuteOf, SecondOf;
  }

  lemma SameMonthFields(s: SpecSchedule, l: int, r: int)
    requires MonthNo(l) == MonthNo(r)
    ensures YearOf(l) == YearOf(r) && MonthOk(s, l) == MonthOk(s, r)
  {
    hide MonthNo, HasBit;
  }

  lemma SameDayFields(s: SpecSchedule, l: int, r: int)
    requires DayNo(l) == DayNo(r)
    ensures YearOf(l) == YearOf(r) && MonthOk(s, l) == MonthOk(s, r) && DayOk(s, l) == DayOk(s, r)
  {
    hide DayOk, MonthOk, DayNo, MonthOfDay;
    SameDay(s, l, r);
  }

  lemma SameHourFields(s: SpecSchedule, l: int, r: int)
    requires HourNo(l) == HourNo(r)
    ensures YearOf(l) == YearOf(r) && MonthOk(s, l) == MonthOk(s, r) && DayOk(s, l) == DayOk(s, r)
    ensures HourOk(s, l) == HourOk(s, r)
  {
    hide DayOk, MonthOk, YearOf, HourNo, HasBit;
    SameDayFields(s, l, r);
  }

  lemma SameMinuteFields(s: SpecSchedule, l: int, r: int)
    requires MinuteNo(l) == MinuteNo(r)
    ensures YearOf(l) == YearOf(r) && MonthOk(s, l) == MonthOk(s, r) && DayOk(s, l) == DayOk(s, r)
    ensures HourOk(s, l) == HourOk(s, r) && MinuteOk(s, l) == MinuteOk(s, r)
  {
    hide DayOk, MonthOk, YearOf, MinuteNo, HasBit;
    SameHourFields(s, l, r);
  }

  lemma NextMonth(l: int, n: int)
    requires MonthNo(n) == MonthNo(l) + 1
    ensures MonthOf(n) != 1 ==> YearOf(n) == YearOf(l) && MonthOf(n) == MonthOf(l) + 1
  {
    hide MonthNo;
  }
}
