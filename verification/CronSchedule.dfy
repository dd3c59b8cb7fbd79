/**
  The two kinds of schedule, a crontab specification and a constant delay, behind one
  notion of next activation.
 */
module CronSchedule {
  import opened CronTime
  import opened CronSpec

  datatype Schedule = Spec(spec: SpecSchedule) | Delay(nanos: int) {
    /** Constant delays come from Every. */
    predicate Valid() {
      Delay? ==> nanos >= NANOS && nanos % NANOS == 0
    }
  }

  /** The schedule that activates once every duration, in nanoseconds. */
  function Every(duration: int): (s: Schedule)
    ensures s.Delay? && s.Valid()
    ensures duration >= NANOS ==> s.nanos <= duration < s.nanos + NANOS
    ensures duration < NANOS ==> s.nanos == NANOS
  {
    var d := if duration < NANOS then NANOS else duration;
    Delay(d - d % NANOS)
  }

  ghost predicate IsLeast(s: SpecSchedule, t: Time, v: int) {
    Candidate(s, t, v) && forall w :: Candidate(s, t, w) ==> v <= w
  }

  lemma {:induction false} LeastCandidate(s: SpecSchedule, t: Time, v: int)
    requires Candidate(s, t, v)
    ensures exists least :: IsLeast(s, t, least)
    decreases v - t.sec
  {
    hide Matches, YearOf;
    if w :| Candidate(s, t, w) && w < v {
      LeastCandidate(s, t, w);
    } else {
      assert IsLeast(s, t, v);
    }
  }

  /** When a schedule next activates after `t`; the zero time if never. */
  ghost function NextActivation(s: Schedule, t: Time): Time {
    match s
    case Spec(spec) =>
      if exists v :: Candidate(spec, t, v) then
        var v :| Candidate(spec, t, v);
        LeastCandidate(spec, t, v);
        var least :| IsLeast(spec, t, least);
        Time(least, 0, t.offset)
      else
        ZeroTime
    case Delay(nanos) => t.AddNanos(nanos - t.nsec)
  }

  lemma SpecNextIs(s: SpecSchedule, t: Time, v: int)
    requires IsLeast(s, t, v)
    ensures NextActivation(Spec(s), t) == Time(v, 0, t.offset)
  {
    hide Candidate;
  }

  method NextOf(s: Schedule, t: Time) returns (r: Time)
    requires t.Valid()
    ensures r == NextActivation(s, t)
  {
    match s
    case Spec(spec) => {
      hide Candidate, NextActivation;
      r := Next(spec, t);
      if exists v :: Candidate(spec, t, v) {
        SpecNextIs(spec, t, r.sec);
      } else {
        NeverIs(spec, t);
      }
    }
    case Delay(nanos) => {
      r := t.AddNanos(nanos - t.nsec);
    }
  }

  lemma NeverIs(s: SpecSchedule, t: Time)
    requires !exists v :: Candidate(s, t, v)
    ensures NextActivation(Spec(s), t) == ZeroTime
  {
    hide Candidate;
  }

  /** Next activations lie strictly in the future, on whole seconds. */
  lemma NextIsLater(s: Schedule, t: Time)
    requires s.Valid() && t.Valid()
    ensures var n := NextActivation(s, t);
            n == ZeroTime || (n.After(t) && n.nsec == 0 && n.offset == t.offset)
  {
    hide Matches, YearOf;
  }

  /** A constant delay counts whole seconds from the second that `t` lies in. */
  lemma DelayIsExact(duration: int, t: Time)
    requires t.Valid()
    ensures var n := NextActivation(Every(duration), t);
            && n.nsec == 0 && n.offset == t.offset
            && n.sec - t.sec == if duration < NANOS then 1 else duration / NANOS
  {
    var d := Every(duration).nanos;
    var k := d / NANOS;
    assert d == NANOS * k;
    assert (t.nsec + (d - t.nsec)) / NANOS == k;
  }

  /** From the zero time on, the zero time is returned exactly when nothing will ever match. */
  lemma ZeroMeansNever(s: SpecSchedule, t: Time)
    requires t.Valid() && t.sec >= 0
    ensures NextActivation(Spec(s), t).IsZero() <==> !exists v :: Candidate(s, t, v)
  {
    hide Matches, YearOf;
  }
}
