/**
  The cron job runner: a list of entries kept sorted by next activation, an event loop
  over wake-ups and requests, and what holds over every order of events.
  A job's run is recorded as an activation of its entry.
 */
module CronRunner {
  import opened CronTime
  import opened CronSpec
  import opened CronSchedule
  import opened Sorting

  datatype Entry = Entry(id: nat, schedule: Schedule, next: Time, prev: Time)
  datatype Activation = Activation(id: nat, schedule: Schedule, scheduled: Time, now: Time)

  datatype State =
    State(entries: seq<Entry>, nextID: nat, running: bool, location: int, log: seq<Activation>)

  /** The order of byTime: zero times last. */
  predicate Less(a: Entry, b: Entry) {
    !a.next.IsZero() && (b.next.IsZero() || a.next.Before(b.next))
  }

  ghost predicate Sorted(es: seq<Entry>) {
    SortedBy(es, Less)
  }

  function Id(e: Entry): nat { e.id }

  predicate Due(e: Entry, now: Time) {
    !e.next.After(now) && !e.next.IsZero()
  }

  // ----- Events and what each does to the state

  datatype Event =
    | Add(schedule: Schedule, at: Time)
    | Remove(id: nat)
    | Start(at: Time)
    | Stop
    | Wake(at: Time)
    | Snapshot

  ghost function Rescheduled(es: seq<Entry>, now: Time): seq<Entry> {
    seq(|es|, i requires 0 <= i < |es| => es[i].(next := NextActivation(es[i].schedule, now)))
  }

  ghost function Fired(es: seq<Entry>, now: Time): seq<Entry> {
    seq(|es|, i requires 0 <= i < |es| => FiredEntry(es[i], now))
  }

  ghost function FiredEntry(e: Entry, now: Time): Entry {
    if Due(e, now) then e.(prev := e.next, next := NextActivation(e.schedule, now)) else e
  }

  function Activations(es: seq<Entry>, now: Time): seq<Activation> {
    if es == [] then []
    else (if Due(es[0], now) then [ActivationOf(es[0], now)] else []) + Activations(es[1..], now)
  }

  function ActivationOf(e: Entry, now: Time): Activation { Activation(e.id, e.schedule, e.next, now) }

  function Without(es: seq<Entry>, id: nat): (r: seq<Entry>)
    ensures forall e :: e in r <==> e in es && e.id != id
  {
    if es == [] then [] else (if es[0].id != id then [es[0]] else []) + Without(es[1..], id)
  }

  ghost predicate SortedFrom(es: seq<Entry>, r: seq<Entry>) {
    Sorted(r) && multiset(r) == multiset(es)
  }

  /** One event. The order of entries with equal next activations is left open. */
  ghost predicate Step(s: State, ev: Event, s': State) {
    match ev
    case Add(schedule, at) =>
      var e := Entry(s.nextID + 1, schedule, if s.running then NextActivation(schedule, at) else ZeroTime, ZeroTime);
      && s' == s.(entries := s'.entries, nextID := s.nextID + 1)
      && (if s.running then SortedFrom(s.entries + [e], s'.entries) else s'.entries == s.entries + [e])
    case Remove(id) =>
      && s' == s.(entries := s'.entries)
      && (if s.running then SortedFrom(Without(s.entries, id), s'.entries) else s'.entries == Without(s.entries, id))
    case Start(at) =>
      if s.running then s' == s
      else s' == s.(running := true, entries := s'.entries) && SortedFrom(Rescheduled(s.entries, at), s'.entries)
    case Stop => s' == s.(running := false)
    case Wake(at) =>
      && s.running
      && s' == s.(entries := s'.entries, log := s.log + Activations(s.entries, at))
      && SortedFrom(Fired(s.entries, at), s'.entries)
    case Snapshot => s' == s
  }

  // ----- The invariant

  ghost predicate UniqueIds(es: seq<Entry>) {
    Distinct(es, Id)
  }

  /** A planned time of a crontab schedule is a second its fields accept, on its wall clock. */
  predicate OnSchedule(schedule: Schedule, t: Time) {
    schedule.Spec? ==> t.nsec == 0 && Matches(schedule.spec, t.sec + MINUTE * ZoneFor(schedule.spec, t))
  }

  predicate WellPlanned(e: Entry) {
    e.schedule.Valid() && e.next.Valid() && (e.next == ZeroTime || OnSchedule(e.schedule, e.next))
  }

  /** No job runs early or off its schedule. */
  predicate WellRun(a: Activation) {
    OnSchedule(a.schedule, a.scheduled) && !a.scheduled.After(a.now)
  }

  ghost predicate Inv(s: State) {
    && UniqueIds(s.entries)
    && (forall e :: e in s.entries ==> 0 < e.id <= s.nextID && WellPlanned(e))
    && (s.running ==> Sorted(s.entries))
    && (forall a :: a in s.log ==> WellRun(a))
  }

  const Initial := State([], 0, false, 0, [])

  ghost predicate ValidEvent(ev: Event) {
    match ev
    case Add(schedule, at) => schedule.Valid() && at.Valid()
    case Start(at) => at.Valid()
    case Wake(at) => at.Valid()
    case _ => true
  }

  lemma WithoutDistinct(es: seq<Entry>, id: nat)
    requires UniqueIds(es)
    ensures UniqueIds(Without(es, id))
  {
    if es != [] {
      assert UniqueIds(es[1..]);
      WithoutDistinct(es[1..], id);
      var r := Without(es[1..], id);
      forall j | 0 <= j < |r|
        ensures es[0].id != r[j].id
      {
        assert r[j] in es[1..];
      }
    }
  }

  /** The entries of a step before they are sorted. */
  ghost function Unsorted(s: State, ev: Event): seq<Entry> {
    match ev
    case Add(schedule, at) =>
      s.entries +
      [Entry(s.nextID + 1, schedule, if s.running then NextActivation(schedule, at) else ZeroTime, ZeroTime)]
    case Remove(id) => Without(s.entries, id)
    case Start(at) => if s.running then s.entries else Rescheduled(s.entries, at)
    case Wake(at) => Fired(s.entries, at)
    case _ => s.entries
  }

  lemma StepPermutes(s: State, ev: Event, s': State)
    requires Step(s, ev, s')
    ensures multiset(s'.entries) == multiset(Unsorted(s, ev))
  {
    hide NextActivation;
  }

  lemma StepKeepsInv(s: State, ev: Event, s': State)
    requires Inv(s) && ValidEvent(ev) && Step(s, ev, s')
    ensures Inv(s') && s.nextID <= s'.nextID && s.log <= s'.log
  {
    hide NextActivation, SortedBy, OnSchedule;
    var es := Unsorted(s, ev);
    StepPermutes(s, ev, s');
    UnsortedKeeps(s, ev);
    DistinctPermuted(es, s'.entries, Id);
    SameMembers(es, s'.entries);
    if ev.Wake? {
      ActivationsExact(s.entries, ev.at);
    }
  }

  lemma UnsortedKeeps(s: State, ev: Event)
    requires Inv(s) && ValidEvent(ev)
    ensures UniqueIds(Unsorted(s, ev))
    ensures forall e :: e in Unsorted(s, ev) ==>
              0 < e.id <= (if ev.Add? then s.nextID + 1 else s.nextID) && WellPlanned(e)
  {
    hide NextActivation, SortedBy, OnSchedule, Due;
    match ev
    case Remove(id) =>
      WithoutDistinct(s.entries, id);
    case Add(schedule, at) =>
      NextOnSchedule(schedule, at);
    case Start(at) =>
      forall e | e in s.entries
        ensures WellPlanned(e.(next := NextActivation(e.schedule, at)))
      {
        NextOnSchedule(e.schedule, at);
      }
    case Wake(at) =>
      forall e | e in s.entries
        ensures WellPlanned(FiredEntry(e, at))
      {
        NextOnSchedule(e.schedule, at);
      }
    case _ =>
  }

  lemma NextOnSchedule(schedule: Schedule, t: Time)
    requires schedule.Valid() && t.Valid()
    ensures var n := NextActivation(schedule, t); n.Valid() && (n == ZeroTime || OnSchedule(schedule, n))
  {
    hide Matches, YearOf;
  }

  // ----- What a wake-up does

  function ActivationId(a: Activation): nat { a.id }

  ghost predicate ExactlyDue(es: seq<Entry>, now: Time, acts: seq<Activation>) {
    && Distinct(acts, ActivationId)
    && (forall e :: e in es && Due(e, now) ==> ActivationOf(e, now) in acts)
    && (forall a :: a in acts ==> exists e :: e in es && Due(e, now) && a == ActivationOf(e, now))
  }

  lemma {:induction false} ActivationsExact(es: seq<Entry>, now: Time)
    requires UniqueIds(es)
    ensures ExactlyDue(es, now, Activations(es, now))
  {
    hide Due;
    if es != [] {
      var rest := es[1..];
      ActivationsExact(rest, now);
      assert es == [es[0]] + rest;
      forall a | a in Activations(rest, now)
        ensures a.id != es[0].id
      {
        var e :| e in rest && Due(e, now) && a == ActivationOf(e, now);
        var i :| 0 <= i < |rest| && rest[i] == e;
        assert es[i + 1] == e;
      }
    }
  }

  /**
    A wake-up activates every due entry once and nothing else, and leaves no entry due:
    whatever is still planned lies after `now`.
   */
  lemma WakeExact(s: State, now: Time, s': State)
    requires Inv(s) && now.Valid() && Step(s, Wake(now), s')
    ensures ExactlyDue(s.entries, now, s'.log[|s.log|..])
    ensures forall e :: e in s'.entries && !e.next.IsZero() ==> e.next.After(now)
    ensures forall e :: e in s.entries ==> FiredEntry(e, now) in s'.entries
    ensures |s'.entries| == |s.entries|
  {
    hide NextActivation, SortedBy, ExactlyDue;
    ActivationsExact(s.entries, now);
    assert s'.log[|s.log|..] == Activations(s.entries, now);
    var es := Fired(s.entries, now);
    SameMembers(es, s'.entries);
    forall e | e in s'.entries && !e.next.IsZero()
      ensures e.next.After(now)
    {
      var i :| 0 <= i < |es| && es[i] == e;
      NextIsLater(s.entries[i].schedule, now);
    }
    forall e | e in s.entries
      ensures FiredEntry(e, now) in s'.entries
    {
      var i :| 0 <= i < |s.entries| && s.entries[i] == e;
      assert es[i] == FiredEntry(e, now);
    }
  }

  // ----- Runs

  ghost predicate Run(states: seq<State>, events: seq<Event>) {
    && |states| == |events| + 1
    && states[0] == Initial.(location := states[0].location)
    && forall i :: 0 <= i < |events| ==> ValidEvent(events[i]) && Step(states[i], events[i], states[i + 1])
  }

  lemma {:induction false} RunKeepsInv(states: seq<State>, events: seq<Event>, i: nat)
    requires Run(states, events) && i <= |events|
    ensures Inv(states[i])
  {
    hide Step;
    if i > 0 {
      RunKeepsInv(states, events, i - 1);
      StepKeepsInv(states[i - 1], events[i - 1], states[i]);
    }
  }

  /** In every run, every job that ran was scheduled then by its own crontab fields, and never early. */
  lemma RunIsOnSchedule(states: seq<State>, events: seq<Event>, i: nat, a: Activation)
    requires Run(states, events) && i <= |events| && a in states[i].log
    ensures OnSchedule(a.schedule, a.scheduled) && !a.scheduled.After(a.now)
  {
    hide Step, OnSchedule;
    RunKeepsInv(states, events, i);
  }

  /** In every run, every wake-up is exact. */
  lemma RunWakesExactly(states: seq<State>, events: seq<Event>, i: nat)
    requires Run(states, events) && i < |events| && events[i].Wake?
    ensures states[i].log <= states[i + 1].log
    ensures ExactlyDue(states[i].entries, events[i].at, states[i + 1].log[|states[i].log|..])
    ensures forall e :: e in states[i + 1].entries && !e.next.IsZero() ==> e.next.After(events[i].at)
  {
    hide Step, Inv, ExactlyDue;
    RunKeepsInv(states, events, i);
    assert Step(states[i], events[i], states[i + 1]);
    StepKeepsInv(states[i], events[i], states[i + 1]);
    WakeExact(states[i], events[i].at, states[i + 1]);
  }

  ghost predicate Gone(s: State, id: nat) {
    id <= s.nextID && forall e :: e in s.entries ==> e.id != id
  }

  lemma GoneStays(s: State, ev: Event, s': State, id: nat)
    requires Inv(s) && ValidEvent(ev) && Step(s, ev, s') && Gone(s, id)
    ensures Gone(s', id) && s.log <= s'.log && forall a :: a in s'.log[|s.log|..] ==> a.id != id
  {
    hide NextActivation, SortedBy;
    StepPermutes(s, ev, s');
    SameMembers(Unsorted(s, ev), s'.entries);
    if ev.Wake? {
      ActivationsExact(s.entries, ev.at);
      assert s'.log[|s.log|..] == Activations(s.entries, ev.at);
    } else {
      assert s'.log[|s.log|..] == [];
    }
  }

  lemma RemoveMakesGone(s: State, id: nat, s': State)
    requires Step(s, Remove(id), s') && id <= s.nextID
    ensures Gone(s', id)
  {
    hide SortedBy;
    StepPermutes(s, Remove(id), s');
    SameMembers(Without(s.entries, id), s'.entries);
  }

  /** Once an allotted ID is removed, no later wake-up activates it, in any order of events. */
  lemma {:induction false} RemovedNeverRuns(states: seq<State>, events: seq<Event>, i: nat, j: nat, id: nat)
    requires Run(states, events) && i < j <= |events|
    requires events[i] == Remove(id) && id <= states[i].nextID
    ensures Gone(states[j], id) && states[i].log <= states[j].log
    ensures forall a :: a in states[j].log[|states[i].log|..] ==> a.id != id
    decreases j
  {
    hide Step, Gone;
    if j == i + 1 {
      RemoveMakesGone(states[i], id, states[j]);
      assert states[j].log == states[i].log by { RemoveKeepsLog(states[i], id, states[j]); }
    } else {
      RemovedNeverRuns(states, events, i, j - 1, id);
      RunKeepsInv(states, events, j - 1);
      GoneStays(states[j - 1], events[j - 1], states[j], id);
      var a, b, c := states[i].log, states[j - 1].log, states[j].log;
      assert c[|a|..] == b[|a|..] + c[|b|..];
    }
  }

  lemma RemoveKeepsLog(s: State, id: nat, s': State)
    requires Step(s, Remove(id), s')
    ensures s'.log == s.log
  {
  }

  lemma LessIsWeakOrder()
    ensures WeakOrder(Less)
  {
  }

  // ----- What each event does, said of every entry

  /** The new entry is planned if the runner runs, and every other is kept. */
  lemma AddExactly(s: State, schedule: Schedule, at: Time, s': State)
    requires Step(s, Add(schedule, at), s')
    ensures s'.running == s.running && s'.log == s.log && s'.nextID == s.nextID + 1
    ensures var added := Entry(s'.nextID, schedule, if s.running then NextActivation(schedule, at) else ZeroTime, ZeroTime);
            forall e :: e in s'.entries <==> e in s.entries || e == added
    ensures |s'.entries| == |s.entries| + 1
  {
    hide NextActivation, SortedBy;
    StepPermutes(s, Add(schedule, at), s');
    SameMembers(Unsorted(s, Add(schedule, at)), s'.entries);
  }

  lemma RemoveExactly(s: State, id: nat, s': State)
    requires Step(s, Remove(id), s')
    ensures s' == s.(entries := s'.entries)
    ensures forall e :: e in s'.entries <==> e in s.entries && e.id != id
  {
    hide SortedBy;
    StepPermutes(s, Remove(id), s');
    SameMembers(Without(s.entries, id), s'.entries);
  }

  /** A start plans every entry anew, and keeps the rest of it. */
  lemma StartExactly(s: State, at: Time, s': State)
    requires Step(s, Start(at), s')
    ensures s'.running && s'.log == s.log && s'.nextID == s.nextID && |s'.entries| == |s.entries|
    ensures s.running ==> s' == s
    ensures !s.running ==> forall e :: e in s.entries ==>
              Entry(e.id, e.schedule, NextActivation(e.schedule, at), e.prev) in s'.entries
    ensures !s.running ==> forall e :: e in s'.entries ==> e.next == NextActivation(e.schedule, at)
  {
    hide NextActivation, SortedBy;
    StepPermutes(s, Start(at), s');
    var es := Unsorted(s, Start(at));
    SameMembers(es, s'.entries);
    if !s.running {
      forall e | e in s.entries
        ensures Entry(e.id, e.schedule, NextActivation(e.schedule, at), e.prev) in s'.entries
      {
        var i :| 0 <= i < |s.entries| && s.entries[i] == e;
        assert es[i] == Entry(e.id, e.schedule, NextActivation(e.schedule, at), e.prev);
      }
    }
  }

  /** A wake-up plans every due entry anew, remembers when it was due, and leaves every other alone. */
  lemma WakeReplans(s: State, now: Time, s': State)
    requires Step(s, Wake(now), s')
    ensures s'.running && s'.nextID == s.nextID && |s'.entries| == |s.entries|
    ensures forall e :: e in s.entries && Due(e, now) ==>
              Entry(e.id, e.schedule, NextActivation(e.schedule, now), e.next) in s'.entries
    ensures forall e :: e in s.entries && !Due(e, now) ==> e in s'.entries
    ensures forall e :: e in s'.entries && e !in s.entries ==> e.next == NextActivation(e.schedule, now)
  {
    hide NextActivation, SortedBy, Due;
    var es := Fired(s.entries, now);
    SameMembers(es, s'.entries);
    forall e | e in s.entries
      ensures Due(e, now) ==> Entry(e.id, e.schedule, NextActivation(e.schedule, now), e.next) in s'.entries
      ensures !Due(e, now) ==> e in s'.entries
    {
      var i :| 0 <= i < |s.entries| && s.entries[i] == e;
      assert es[i] == FiredEntry(e, now);
    }
  }

  /** A stop ends the running and nothing else, and a snapshot changes nothing. */
  lemma StopExactly(s: State, s': State)
    ensures Step(s, Stop, s') <==>
              !s'.running && s'.entries == s.entries && s'.nextID == s.nextID && s'.log == s.log && s'.location == s.location
    ensures Step(s, Snapshot, s') <==> s' == s
  {
  }

  /** Event `j` planned the entry as it is at `i`, and it has not been touched since. */
  ghost predicate PlannedBy(states: seq<State>, events: seq<Event>, i: nat, j: nat, e: Entry)
    requires j < i <= |events| < |states|
  {
    && (events[j].Add? || events[j].Start? || events[j].Wake?)
    && e.next == NextActivation(e.schedule, events[j].at)
    && forall k :: j < k <= i ==> e in states[k].entries
  }

  /** While the runner runs, an entry that was not there before has just been planned. */
  lemma NewIsPlanned(s: State, ev: Event, s': State, e: Entry)
    requires Step(s, ev, s') && s'.running && e in s'.entries && (!s.running || e !in s.entries)
    ensures ev.Add? || ev.Start? || ev.Wake?
    ensures e.next == NextActivation(e.schedule, ev.at)
  {
    hide NextActivation, Fired, Rescheduled, Without, SortedFrom, Activations;
    match ev
    case Add(schedule, at) => AddExactly(s, schedule, at, s');
    case Remove(id) => RemoveExactly(s, id, s');
    case Start(at) => StartExactly(s, at, s');
    case Wake(now) => WakeReplans(s, now, s');
    case _ =>
  }

  /** In every run, while the runner runs, every entry stands as its own schedule planned it. */
  lemma {:induction false} AlwaysPlanned(states: seq<State>, events: seq<Event>, i: nat, e: Entry) returns (j: nat)
    requires Run(states, events) && i <= |events| && states[i].running && e in states[i].entries
    ensures j < i && PlannedBy(states, events, i, j, e)
    decreases i
  {
    hide Step, NextActivation;
    assert i > 0;
    if states[i - 1].running && e in states[i - 1].entries {
      j := AlwaysPlanned(states, events, i - 1, e);
    } else {
      j := i - 1;
      assert Step(states[j], events[j], states[j + 1]);
      NewIsPlanned(states[j], events[j], states[i], e);
    }
  }

  /** So an entry is put off for ever only if its schedule had nothing left when it was planned. */
  lemma ZeroOnlyWhenNever(states: seq<State>, events: seq<Event>, i: nat, e: Entry) returns (j: nat)
    requires Run(states, events) && i <= |events| && states[i].running && e in states[i].entries && e.next.IsZero()
    ensures j < i && PlannedBy(states, events, i, j, e)
    ensures events[j].at.sec >= 0 ==> e.schedule.Spec? && !exists v :: Candidate(e.schedule.spec, events[j].at, v)
  {
    hide Step, NextActivation, Candidate, WellPlanned, WellRun;
    j := AlwaysPlanned(states, events, i, e);
    RunKeepsInv(states, events, i);
    if events[j].at.sec >= 0 {
      assert e.schedule.Valid() by { PlannedValid(e, states[i]); }
      ZeroNever(e.schedule, events[j].at);
    }
  }

  lemma PlannedValid(e: Entry, s: State)
    requires Inv(s) && e in s.entries
    ensures e.schedule.Valid()
  {
    hide OnSchedule;
  }

  lemma ZeroNever(schedule: Schedule, t: Time)
    requires schedule.Valid() && t.Valid() && t.sec >= 0 && NextActivation(schedule, t).IsZero()
    ensures schedule.Spec? && !exists v :: Candidate(schedule.spec, t, v)
  {
    hide Candidate;
    if schedule.Spec? {
      ZeroMeansNever(schedule.spec, t);
    }
  }

  // ----- The runner

  lemma {:induction false} ActivationsSplit(a: seq<Entry>, b: seq<Entry>, now: Time)
    ensures Activations(a + b, now) == Activations(a, now) + Activations(b, now)
  {
    hide Due;
    if a == [] {
      assert a + b == b;
    } else {
      assert (a + b)[1..] == a[1..] + b;
      ActivationsSplit(a[1..], b, now);
    }
  }

  lemma {:induction false} NothingDue(es: seq<Entry>, now: Time)
    requires forall i :: 0 <= i < |es| ==> !Due(es[i], now)
    ensures Activations(es, now) == []
  {
    if es != [] {
      NothingDue(es[1..], now);
    }
  }

  /** Stopping at the first entry that is not due misses nothing. */
  lemma EarlyBreak(es: seq<Entry>, i: nat, now: Time)
    requires Sorted(es) && i < |es| && !Due(es[i], now)
    ensures forall j :: i <= j < |es| ==> !Due(es[j], now)
  {
    forall j | i < j < |es|
      ensures !Due(es[j], now)
    {
      assert !Less(es[j], es[i]);
    }
  }

  // ----- The loops of the runner

  method Filter(es: seq<Entry>, id: nat) returns (kept: seq<Entry>)
    ensures kept == Without(es, id)
  {
    hide Without;
    kept := [];
    WithoutNone(id);
    for i := 0 to |es|
      invariant kept == Without(es[..i], id)
    {
      assert es[..i + 1] == es[..i] + [es[i]];
      WithoutLast(es[..i], es[i], id);
      if es[i].id != id {
        kept := kept + [es[i]];
      }
    }
    assert es[..|es|] == es;
  }

  lemma WithoutNone(id: nat)
    ensures Without([], id) == []
  {
  }

  lemma {:induction false} WithoutLast(es: seq<Entry>, e: Entry, id: nat)
    ensures Without(es + [e], id) == Without(es, id) + (if e.id != id then [e] else [])
  {
    if es != [] {
      assert (es + [e])[1..] == es[1..] + [e];
      WithoutLast(es[1..], e, id);
    }
  }

  method Plan(es: seq<Entry>, now: Time) returns (r: seq<Entry>)
    requires now.Valid()
    ensures r == Rescheduled(es, now)
  {
    hide NextActivation;
    r := es;
    for i := 0 to |es|
      invariant |r| == |es|
      invariant forall j :: i <= j < |es| ==> r[j] == es[j]
      invariant forall j :: 0 <= j < i ==> r[j] == Rescheduled(es, now)[j]
    {
      var next := NextOf(es[i].schedule, now);
      r := r[i := r[i].(next := next)];
    }
  }

  /** Runs entries in order, up to the first one that is not due. */
  method FireDue(es: seq<Entry>, now: Time) returns (r: seq<Entry>, acts: seq<Activation>)
    requires Sorted(es) && now.Valid()
    ensures r == Fired(es, now) && acts == Activations(es, now)
  {
    hide NextActivation, Due, SortedBy, Activations;
    r := es;
    acts := [];
    var i := 0;
    NothingDue([], now);
    assert es[..0] == [];
    while i < |es|
      invariant 0 <= i <= |es| == |r|
      invariant forall j :: i <= j < |es| ==> r[j] == es[j]
      invariant forall j :: 0 <= j < i ==> r[j] == FiredEntry(es[j], now)
      invariant acts == Activations(es[..i], now)
    {
      var e := r[i];
      if e.next.After(now) || e.next.IsZero() {
        NotDue(e, now);
        EarlyBreak(es, i, now);
        break;
      }
      IsDue(e, now);
      assert es[..i + 1] == es[..i] + [e];
      ActivationsSplit(es[..i], [e], now);
      acts := acts + [ActivationOf(e, now)];
      var next := NextOf(e.schedule, now);
      r := r[i := e.(prev := e.next, next := next)];
      i := i + 1;
    }
    assert es == es[..i] + es[i..];
    ActivationsSplit(es[..i], es[i..], now);
    NothingDue(es[i..], now);
  }

  lemma NotDue(e: Entry, now: Time)
    requires e.next.After(now) || e.next.IsZero()
    ensures !Due(e, now)
  {
  }

  lemma IsDue(e: Entry, now: Time)
    requires !(e.next.After(now) || e.next.IsZero())
    ensures Due(e, now) && Activations([e], now) == [ActivationOf(e, now)]
  {
  }

  /** How long the runner sleeps when nothing is planned: 100000 hours. */
  const IDLE: int := 100_000 * 3600 * NANOS

  function NanosUntil(e: Entry, now: Time): int {
    (e.next.sec - now.sec) * NANOS + e.next.nsec - now.nsec
  }

  class Cron {
    var entries: seq<Entry>
    var nextID: nat
    var running: bool
    const location: int
    var log: seq<Activation>

    ghost function St(): State
      reads this
    {
      State(entries, nextID, running, location, log)
    }

    constructor (location: int)
      ensures St() == Initial.(location := location)
    {
      this.location := location;
      entries, nextID, running, log := [], 0, false, [];
    }

    /** Registers a schedule and returns its ID. */
    method AddEntry(schedule: Schedule, clock: Time) returns (id: nat)
      requires Inv(St()) && schedule.Valid() && clock.Valid()
      modifies this
      ensures Step(old(St()), Add(schedule, clock.In(location)), St()) && Inv(St())
      ensures id == nextID && forall e :: e in old(entries) ==> e.id != id
    {
      hide NextActivation;
      nextID := nextID + 1;
      var entry := Entry(nextID, schedule, ZeroTime, ZeroTime);
      if !running {
        entries := entries + [entry];
      } else {
        var now := clock.In(location);
        var next := NextOf(schedule, now);
        entries := entries + [entry.(next := next)];
        SortEntries();
      }
      id := nextID;
      StepKeepsInv(old(St()), Add(schedule, clock.In(location)), St());
    }

    method RemoveEntry(id: nat)
      requires Inv(St())
      modifies this
      ensures Step(old(St()), Remove(id), St()) && Inv(St())
    {
      hide Without, Distinct, SortedBy;
      entries := Filter(entries, id);
      if running {
        SortEntries();
      }
      StepKeepsInv(old(St()), Remove(id), St());
    }

    /** Plans every entry, as the runner does when it starts. */
    method StartRun(clock: Time)
      requires Inv(St()) && clock.Valid()
      modifies this
      ensures Step(old(St()), Start(clock.In(location)), St()) && Inv(St())
    {
      hide NextActivation, Rescheduled, Distinct, SortedBy;
      if !running {
        running := true;
        entries := Plan(entries, clock.In(location));
        SortEntries();
      }
      StepKeepsInv(old(St()), Start(clock.In(location)), St());
    }

    method StopRun()
      requires Inv(St())
      modifies this
      ensures Step(old(St()), Stop, St()) && Inv(St())
    {
      running := false;
    }

    /** Runs the due entries and plans them anew. */
    method WakeUp(tick: Time)
      requires Inv(St()) && running && tick.Valid()
      modifies this
      ensures Step(old(St()), Wake(tick.In(location)), St()) && Inv(St())
    {
      hide NextActivation, Fired, Activations, Distinct, SortedBy;
      var now := tick.In(location);
      var acts;
      entries, acts := FireDue(entries, now);
      log := log + acts;
      SortEntries();
      StepKeepsInv(old(St()), Wake(now), St());
    }

    method SortEntries()
      modifies this`entries
      ensures SortedFrom(old(entries), entries)
    {
      LessIsWeakOrder();
      SortBySorted(entries, Less);
      entries := SortBy(entries, Less);
    }

    /** A copy of the entries. */
    method Entries() returns (es: seq<Entry>)
      ensures es == entries
    {
      es := [];
      for i := 0 to |entries|
        invariant es == entries[..i]
      {
        es := es + [entries[i]];
      }
    }

    /** The timer the loop sleeps on: exactly until the earliest planned activation, if there is one. */
    method Timer(now: Time) returns (wait: int)
      requires Inv(St()) && running
      ensures (forall e :: e in entries ==> e.next.IsZero()) ==> wait == IDLE
      ensures (exists e :: e in entries && !e.next.IsZero()) ==>
                && (exists e :: e in entries && !e.next.IsZero() && NanosUntil(e, now) == wait)
                && forall e :: e in entries && !e.next.IsZero() ==> wait <= NanosUntil(e, now)
    {
      if |entries| == 0 || entries[0].next.IsZero() {
        forall j | 0 < j < |entries|
          ensures entries[j].next.IsZero()
        {
          assert !Less(entries[j], entries[0]);
        }
        return IDLE;
      }
      forall j | 0 < j < |entries| && !entries[j].next.IsZero()
        ensures NanosUntil(entries[0], now) <= NanosUntil(entries[j], now)
      {
        assert !Less(entries[j], entries[0]);
      }
      assert entries[0] in entries;
      return NanosUntil(entries[0], now);
    }
  }
}
