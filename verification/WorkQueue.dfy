/**
  The scheduled work queue: one timer and one goroutine for each Add, a map from each key
  to the timer that was added last, and the callbacks that forget their key when they end.
  Each action below is one step under the queue's lock, of a timer, or of a goroutine.
 */
module WorkQueue {

  type Key = string

  /** Where a timer's goroutine is: in its select, in the callback, or finished. */
  datatype Phase = Waiting | Processing | Finished

  datatype Timer = Timer(key: Key, ticked: bool, cancelled: bool, phase: Phase) {
    /** Armed, not expired, not cancelled. */
    predicate Live() { phase.Waiting? && !ticked && !cancelled }
  }

  /** `log` lists the timers whose callback was started, in order. */
  datatype State = State(timers: seq<Timer>, work: map<Key, nat>, log: seq<nat>)

  const Empty := State([], map[], [])

  datatype Action =
    | Add(key: Key)
    | Forget(key: Key)
    | Tick(timer: nat)
    | Process(timer: nat)
    | Quit(timer: nat)
    | Finish(timer: nat)

  predicate Enabled(s: State, a: Action) {
    match a
    case Tick(i) => i < |s.timers| && s.timers[i].Live()
    case Process(i) => i < |s.timers| && s.timers[i].phase.Waiting? && s.timers[i].ticked
    case Quit(i) => i < |s.timers| && s.timers[i].phase.Waiting? && s.timers[i].cancelled
    case Finish(i) => i < |s.timers| && s.timers[i].phase.Processing?
    case _ => true
  }

  ghost predicate Mapped(s: State) {
    forall k :: k in s.work ==> s.work[k] < |s.timers|
  }

  function Cancelled(s: State, k: Key): State
    requires k in s.work ==> s.work[k] < |s.timers|
  {
    if k in s.work then
      State(s.timers[s.work[k] := s.timers[s.work[k]].(cancelled := true)], s.work - {k}, s.log)
    else s
  }

  function Step(s: State, a: Action): State
    requires Enabled(s, a)
    requires forall k :: k in s.work ==> s.work[k] < |s.timers|
  {
    match a
    case Add(k) =>
      var s1 := Cancelled(s, k);
      State(s1.timers + [Timer(k, false, false, Waiting)], s1.work[k := |s1.timers|], s1.log)
    case Forget(k) => Cancelled(s, k)
    case Tick(i) => s.(timers := s.timers[i := s.timers[i].(ticked := true)])
    case Process(i) => s.(timers := s.timers[i := s.timers[i].(phase := Processing)], log := s.log + [i])
    case Quit(i) => s.(timers := s.timers[i := s.timers[i].(phase := Finished)])
    case Finish(i) =>
      var s1 := Cancelled(s, s.timers[i].key);
      s1.(timers := s1.timers[i := s1.timers[i].(cancelled := true, phase := Finished)])
  }

  // ----- What every interleaving keeps

  ghost predicate Inv(s: State) {
    WorkOk(s) && LiveOk(s) && LogOk(s)
  }

  /** The map holds uncancelled timers, under their own keys. */
  ghost predicate WorkOk(s: State) {
    Mapped(s) && forall k :: k in s.work ==> s.timers[s.work[k]].key == k && !s.timers[s.work[k]].cancelled
  }

  /** A timer that can still tick is the one its key maps to. */
  ghost predicate LiveOk(s: State) {
    forall i :: 0 <= i < |s.timers| && s.timers[i].Live() ==>
      s.timers[i].key in s.work && s.work[s.timers[i].key] == i
  }

  /** Callbacks were started by ticked timers, each once. */
  ghost predicate LogOk(s: State) {
    && (forall i :: 0 <= i < |s.log| ==>
          s.log[i] < |s.timers| && s.timers[s.log[i]].ticked && !s.timers[s.log[i]].phase.Waiting?)
    && (forall i, j :: 0 <= i < j < |s.log| ==> s.log[i] != s.log[j])
    && (forall i :: 0 <= i < |s.timers| && s.timers[i].phase.Processing? ==> s.timers[i].ticked)
  }

  lemma CancelledKeepsInv(s: State, k: Key)
    requires Inv(s)
    ensures var t := Cancelled(s, k);
            && Inv(t) && k !in t.work && |t.timers| == |s.timers| && t.log == s.log
            && forall i :: 0 <= i < |s.timers| ==>
                 t.timers[i] == s.timers[i].(cancelled := s.timers[i].cancelled || (k in s.work && s.work[k] == i))
  {
  }

  lemma AddKeepsInv(s: State, k: Key)
    requires Inv(s)
    ensures Inv(Step(s, Add(k)))
  {
    hide Cancelled;
    CancelledKeepsInv(s, k);
  }

  lemma FinishKeepsInv(s: State, i: nat)
    requires Inv(s) && Enabled(s, Finish(i))
    ensures Inv(Step(s, Finish(i)))
  {
    hide Cancelled;
    CancelledKeepsInv(s, s.timers[i].key);
  }

  /** Ticks, starts and exits change one timer and nothing else but the log. */
  lemma TimerKeepsInv(s: State, a: Action)
    requires Inv(s) && Enabled(s, a) && (a.Tick? || a.Process? || a.Quit?)
    ensures Inv(Step(s, a))
  {
    var t := Step(s, a);
    assert WorkOk(t);
    assert LiveOk(t);
    if a.Process? {
      assert forall i :: 0 <= i < |s.log| ==> s.log[i] != a.timer;
    }
    assert LogOk(t);
  }

  lemma IsMapped(s: State)
    requires Inv(s)
    ensures Mapped(s)
  {
  }

  lemma StepKeepsInv(s: State, a: Action)
    requires Inv(s) && Enabled(s, a)
    ensures Inv(Step(s, a))
  {
    hide WorkOk, LiveOk, LogOk;
    assert Mapped(s) by { IsMapped(s); }
    match a
    case Add(k) => AddKeepsInv(s, k);
    case Forget(k) => CancelledKeepsInv(s, k);
    case Finish(i) => FinishKeepsInv(s, i);
    case _ => TimerKeepsInv(s, a);
  }

  /** Keys, ticks and cancellations are never taken back, and a cancelled timer never ticks. */
  ghost predicate Later(s: State, t: State) {
    && |s.timers| <= |t.timers|
    && s.log <= t.log
    && forall i :: 0 <= i < |s.timers| ==>
         && t.timers[i].key == s.timers[i].key
         && (s.timers[i].ticked ==> t.timers[i].ticked)
         && (s.timers[i].cancelled ==> t.timers[i].cancelled && t.timers[i].ticked == s.timers[i].ticked)
  }

  lemma StepIsLater(s: State, a: Action)
    requires Inv(s) && Enabled(s, a)
    ensures Later(s, Step(s, a))
  {
  }

  // ----- Runs

  ghost predicate Run(states: seq<State>, actions: seq<Action>) {
    && |states| == |actions| + 1
    && states[0] == Empty
    && (forall i :: 0 <= i < |states| ==> Mapped(states[i]))
    && forall i :: 0 <= i < |actions| ==> Enabled(states[i], actions[i]) && states[i + 1] == Step(states[i], actions[i])
  }

  lemma {:induction false} RunKeepsInv(states: seq<State>, actions: seq<Action>, i: nat)
    requires Run(states, actions) && i <= |actions|
    ensures Inv(states[i])
  {
    hide Step, Enabled;
    if i > 0 {
      RunKeepsInv(states, actions, i - 1);
      StepKeepsInv(states[i - 1], actions[i - 1]);
    }
  }

  lemma {:induction false} RunIsLater(states: seq<State>, actions: seq<Action>, i: nat, j: nat)
    requires Run(states, actions) && i <= j <= |actions|
    ensures Later(states[i], states[j])
    decreases j
  {
    hide Step, Enabled, Inv;
    if i < j {
      RunIsLater(states, actions, i, j - 1);
      RunKeepsInv(states, actions, j - 1);
      StepIsLater(states[j - 1], actions[j - 1]);
    }
  }

  /** In every run, at most one timer per key can still fire, and it is the one the map holds. */
  lemma OneLiveTimerPerKey(states: seq<State>, actions: seq<Action>, n: nat, i: nat, j: nat)
    requires Run(states, actions) && n <= |actions| && i < |states[n].timers| && j < |states[n].timers|
    requires states[n].timers[i].Live() && states[n].timers[j].Live()
    requires states[n].timers[i].key == states[n].timers[j].key
    ensures i == j && states[n].timers[i].key in states[n].work && states[n].work[states[n].timers[i].key] == i
  {
    hide Step, Enabled;
    RunKeepsInv(states, actions, n);
  }

  function Adds(actions: seq<Action>): nat {
    if actions == [] then 0
    else Adds(actions[..|actions| - 1]) + if actions[|actions| - 1].Add? then 1 else 0
  }

  lemma {:induction false} OneTimerPerAdd(states: seq<State>, actions: seq<Action>, n: nat)
    requires Run(states, actions) && n <= |actions|
    ensures |states[n].timers| == Adds(actions[..n])
  {
    if n > 0 {
      OneTimerPerAdd(states, actions, n - 1);
      assert actions[..n][..n - 1] == actions[..n - 1];
      assert states[n] == Step(states[n - 1], actions[n - 1]);
    }
  }

  /** In every run, each Add leads to at most one call of the callback. */
  lemma AtMostOneCallPerAdd(states: seq<State>, actions: seq<Action>, n: nat)
    requires Run(states, actions) && n <= |actions|
    ensures forall i, j :: 0 <= i < j < |states[n].log| ==> states[n].log[i] != states[n].log[j]
    ensures |states[n].log| <= Adds(actions[..n])
  {
    hide Step, Enabled;
    RunKeepsInv(states, actions, n);
    OneTimerPerAdd(states, actions, n);
    DistinctBelow(states[n].log, |states[n].timers|);
  }

  /** A sequence of distinct numbers below n has at most n of them. */
  lemma {:induction false} DistinctBelow(s: seq<nat>, n: nat)
    requires forall i :: 0 <= i < |s| ==> s[i] < n
    requires forall i, j :: 0 <= i < j < |s| ==> s[i] != s[j]
    ensures |s| <= n
  {
    if s != [] {
      assert s[0] < n;
      if n - 1 in s {
        var k :| 0 <= k < |s| && s[k] == n - 1;
        DistinctBelow(s[..k] + s[k + 1..], n - 1);
      } else {
        DistinctBelow(s, n - 1);
      }
    }
  }

  /** In every run, a timer cancelled before its tick never calls the callback. */
  lemma CancelledNeverRuns(states: seq<State>, actions: seq<Action>, m: nat, n: nat, i: nat)
    requires Run(states, actions) && m <= n <= |actions| && i < |states[m].timers|
    requires states[m].timers[i].cancelled && !states[m].timers[i].ticked
    ensures i !in states[n].log
  {
    hide Step, Enabled;
    RunIsLater(states, actions, m, n);
    RunKeepsInv(states, actions, n);
  }

  // ----- What Add, Forget and the timers do

  /** Timers and map entries of other keys are as they were, and no callback was started. */
  ghost predicate OthersKept(s: State, t: State, k: Key) {
    && t.log == s.log && |s.timers| <= |t.timers|
    && (forall i :: 0 <= i < |s.timers| && s.timers[i].key != k ==> t.timers[i] == s.timers[i])
    && (forall l :: l != k ==> ((l in t.work <==> l in s.work) && (l in s.work ==> t.work[l] == s.work[l])))
  }

  /** Cancelled before its tick. */
  ghost predicate Lost(s: State, j: nat) { j < |s.timers| && s.timers[j].cancelled && !s.timers[j].ticked }

  lemma CancelledExactly(s: State, k: Key)
    requires Inv(s)
    ensures var t := Cancelled(s, k);
            && OthersKept(s, t, k) && k !in t.work && |t.timers| == |s.timers|
            && forall i: nat :: i < |s.timers| && s.timers[i].key == k && s.timers[i].Live() ==> Lost(t, i)
  {
  }

  /** In every run, a Forget cancels what waits for its key, for good, and touches no other key. */
  lemma ForgetCancels(states: seq<State>, actions: seq<Action>, m: nat, k: Key, n: nat)
    requires Run(states, actions) && m < n <= |actions| && actions[m] == Forget(k)
    ensures OthersKept(states[m], states[m + 1], k) && k !in states[m + 1].work
    ensures forall i: nat :: i < |states[m].timers| && states[m].timers[i].key == k && states[m].timers[i].Live() ==>
              Lost(states[m + 1], i) && i !in states[n].log
  {
    hide Enabled, Inv, Cancelled, Lost, OthersKept;
    RunKeepsInv(states, actions, m);
    assert states[m + 1] == Step(states[m], Forget(k));
    CancelledExactly(states[m], k);
    forall i: nat | i < |states[m].timers| && states[m].timers[i].key == k && states[m].timers[i].Live()
      ensures i !in states[n].log
    {
      LostNeverRuns(states, actions, m + 1, n, i);
    }
  }

  lemma LostNeverRuns(states: seq<State>, actions: seq<Action>, m: nat, n: nat, i: nat)
    requires Run(states, actions) && m <= n <= |actions| && Lost(states[m], i)
    ensures i !in states[n].log
  {
    hide Step, Enabled;
    CancelledNeverRuns(states, actions, m, n, i);
  }

  /** In every run, an Add cancels what waited for its key, for good, and arms a new timer in its place. */
  lemma AddReplaces(states: seq<State>, actions: seq<Action>, m: nat, k: Key, n: nat)
    requires Run(states, actions) && m < n <= |actions| && actions[m] == Add(k)
    ensures OthersKept(states[m], states[m + 1], k)
    ensures |states[m + 1].timers| == |states[m].timers| + 1
    ensures states[m + 1].timers[|states[m].timers|] == Timer(k, false, false, Waiting)
    ensures k in states[m + 1].work && states[m + 1].work[k] == |states[m].timers|
    ensures forall i: nat :: i < |states[m].timers| && states[m].timers[i].key == k && states[m].timers[i].Live() ==>
              Lost(states[m + 1], i) && i !in states[n].log
  {
    hide Enabled, Inv, Cancelled;
    RunKeepsInv(states, actions, m);
    assert states[m + 1] == Step(states[m], Add(k));
    CancelledExactly(states[m], k);
    forall i: nat | i < |states[m].timers| && states[m].timers[i].key == k && states[m].timers[i].Live()
      ensures Lost(states[m + 1], i) && i !in states[n].log
    {
      assert Lost(Cancelled(states[m], k), i);
      LostNeverRuns(states, actions, m + 1, n, i);
    }
  }

  /** In every run, the callbacks in the log are those that were started, and no others. */
  lemma {:induction false} LogExactly(states: seq<State>, actions: seq<Action>, n: nat, i: nat)
    requires Run(states, actions) && n <= |actions|
    ensures i in states[n].log <==> exists m :: 0 <= m < n && actions[m] == Process(i)
  {
    hide Step, Enabled;
    if n > 0 {
      LogExactly(states, actions, n - 1, i);
      LogStep(states[n - 1], actions[n - 1], i);
      assert states[n] == Step(states[n - 1], actions[n - 1]);
    }
  }

  lemma LogStep(s: State, a: Action, i: nat)
    requires Enabled(s, a) && Mapped(s)
    ensures i in Step(s, a).log <==> i in s.log || a == Process(i)
  {
  }

  /** The end of a callback clears its key, cancels what waits there, and ends its own timer and no other. */
  lemma FinishExactly(s: State, i: nat)
    requires Inv(s) && Enabled(s, Finish(i))
    ensures var t := Step(s, Finish(i));
            && OthersKept(s, t, s.timers[i].key) && s.timers[i].key !in t.work && |t.timers| == |s.timers|
            && t.timers[i].phase.Finished?
            && (forall j: nat :: j < |s.timers| && j != i ==> t.timers[j].phase == s.timers[j].phase)
            && (forall j: nat :: j < |s.timers| && s.timers[j].key == s.timers[i].key && s.timers[j].Live() ==> Lost(t, j))
  {
    hide LogOk;
  }

  /** The steps of a timer and its goroutine concern nothing else. */
  lemma TimerExactly(s: State, i: nat)
    requires Inv(s) && i < |s.timers|
    ensures Enabled(s, Tick(i)) ==>
              Step(s, Tick(i)) == s.(timers := s.timers[i := Timer(s.timers[i].key, true, false, Waiting)])
    ensures Enabled(s, Quit(i)) ==>
              var t := Step(s, Quit(i));
              t.log == s.log && t.work == s.work && t.timers[i].phase.Finished? && t.timers[i].cancelled
    ensures Enabled(s, Quit(i)) <==> s.timers[i].cancelled && s.timers[i].phase.Waiting?
  {
  }

  /** A waiting timer that is let alone ticks, starts its callback, ends it, and clears its key. */
  lemma LiveRuns(s: State, i: nat)
    requires Inv(s) && i < |s.timers| && s.timers[i].Live()
    ensures Enabled(s, Tick(i))
    ensures var s1 := Step(s, Tick(i));
            && Mapped(s1) && Enabled(s1, Process(i))
            && var s2 := Step(s1, Process(i));
               && Mapped(s2) && s2.log == s.log + [i] && Enabled(s2, Finish(i))
               && var s3 := Step(s2, Finish(i));
                  s.timers[i].key !in s3.work && s3.timers[i].phase.Finished? && s3.log == s2.log
  {
    hide LogOk, LiveOk;
  }

  // ----- When an Add is lost

  /** A callback that ends while another timer waits under its key cancels that timer, and no other. */
  lemma FinishCancels(s: State, i: nat, j: nat)
    requires Inv(s) && Enabled(s, Finish(i)) && j < |s.timers| && s.timers[j].Live()
    ensures Step(s, Finish(i)).timers[j].cancelled <==> s.timers[i].key == s.timers[j].key
  {
  }

  /** Some timer of the key has expired, and its callback is still to start or to end. */
  ghost predicate Busy(s: State, k: Key) {
    exists i :: 0 <= i < |s.timers| && Pending(s.timers[i], k)
  }

  predicate Pending(t: Timer, k: Key) { t.key == k && t.ticked && !t.phase.Finished? }

  /** Timer `j` waits or has ticked, and no other callback of its key can still end. */
  ghost predicate Safe(s: State, j: nat) {
    && j < |s.timers| && (s.timers[j].Live() || s.timers[j].ticked)
    && forall i :: 0 <= i < |s.timers| && i != j ==>
         !Pending(s.timers[i], s.timers[j].key) && !(s.timers[i].Live() && s.timers[i].key == s.timers[j].key)
  }

  predicate Concerns(a: Action, k: Key) { (a.Add? && a.key == k) || (a.Forget? && a.key == k) }

  lemma AddIsSafe(s: State, k: Key)
    requires Inv(s) && !Busy(s, k)
    ensures Safe(Step(s, Add(k)), |s.timers|)
  {
    hide Cancelled;
    CancelledKeepsInv(s, k);
    var t := Step(s, Add(k));
    forall i | 0 <= i < |s.timers|
      ensures !Pending(t.timers[i], k)
    {
      assert !Pending(s.timers[i], k);
    }
    AddKeepsInv(s, k);
  }

  lemma StepKeepsSafe(s: State, a: Action, j: nat)
    requires Inv(s) && Enabled(s, a) && Safe(s, j) && !Concerns(a, s.timers[j].key)
    ensures Safe(Step(s, a), j)
  {
  }

  /** Action `m` of the run adds the key, and nothing is asked for the key after it. */
  ghost predicate LastAskedFor(states: seq<State>, actions: seq<Action>, m: nat, k: Key) {
    && Run(states, actions) && m < |actions| && actions[m] == Add(k)
    && forall l :: m < l < |actions| ==> !Concerns(actions[l], k)
  }


  /** An Add while the key is not busy is never lost, in any interleaving that leaves the key to it. */
  lemma {:induction false} NotBusyNotLost(states: seq<State>, actions: seq<Action>, m: nat, k: Key, n: nat)
    requires LastAskedFor(states, actions, m, k) && m < n <= |actions| && !Busy(states[m], k)
    ensures Safe(states[n], |states[m].timers|) && states[n].timers[|states[m].timers|].key == k
    decreases n
  {
    hide Step, Enabled, Inv, Safe, Busy;
    var j := |states[m].timers|;
    if n == m + 1 {
      RunKeepsInv(states, actions, m);
      AddIsSafe(states[m], k);
      AddedKey(states[m], k);
    } else {
      NotBusyNotLost(states, actions, m, k, n - 1);
      RunKeepsInv(states, actions, n - 1);
      assert Safe(states[n], j) by { StepKeepsSafe(states[n - 1], actions[n - 1], j); }
      StepIsLater(states[n - 1], actions[n - 1]);
      SafeExists(states[n - 1], j);
    }
  }

  lemma SafeExists(s: State, j: nat)
    requires Safe(s, j)
    ensures j < |s.timers| && !Lost(s, j)
  {
  }

  lemma AddedKey(s: State, k: Key)
    requires Inv(s)
    ensures var t := Step(s, Add(k)); |t.timers| == |s.timers| + 1 && t.timers[|s.timers|].key == k
  {
  }

  /** A run to which another follows: the same actions, and then more. */
  ghost predicate Extends(states: seq<State>, actions: seq<Action>, states': seq<State>, actions': seq<Action>) {
    Run(states', actions') && actions <= actions' && states <= states'
  }

  lemma Extend(states: seq<State>, actions: seq<Action>, a: Action) returns (states': seq<State>, actions': seq<Action>)
    requires Run(states, actions) && Enabled(states[|actions|], a)
    ensures Extends(states, actions, states', actions') && actions' == actions + [a]
    ensures states' == states + [Step(states[|actions|], a)]
  {
    hide Step, Enabled;
    var s := states[|actions|];
    RunKeepsInv(states, actions, |actions|);
    StepKeepsInv(s, a);
    IsMapped(Step(s, a));
    return states + [Step(s, a)], actions + [a];
  }

  /** Once added while the key is busy, two more steps can lose it. */
  lemma BusyLoses(states: seq<State>, actions: seq<Action>, k: Key)
    returns (states': seq<State>, actions': seq<Action>)
    requires Run(states, actions) && Busy(states[|actions|], k)
    ensures Extends(states, actions, states', actions') && LastAskedFor(states', actions', |actions|, k)
    ensures Lost(states'[|actions'|], |states[|actions|].timers|)
  {
    hide Step, Inv, Mapped;
    var s := states[|actions|];
    var i: nat :| 0 <= i < |s.timers| && Pending(s.timers[i], k);
    RunKeepsInv(states, actions, |actions|);
    states', actions' := Extend(states, actions, Add(k));
    var s1 := states'[|actions'|];
    AddDuring(s, i, k);
    StepKeepsInv(s, Add(k));
    var s2 := s1;
    if s1.timers[i].phase.Waiting? {
      states', actions' := Extend(states', actions', Process(i));
      s2 := states'[|actions'|];
      ProcessDuring(s1, i, |s.timers|);
      StepKeepsInv(s1, Process(i));
    }
    states', actions' := Extend(states', actions', Finish(i));
    FinishDuring(s2, i, |s.timers|);
  }

  lemma AddDuring(s: State, i: nat, k: Key)
    requires Inv(s) && i < |s.timers| && Pending(s.timers[i], k)
    ensures var t := Step(s, Add(k));
            && |t.timers| == |s.timers| + 1 && t.timers[|s.timers|].Live() && t.timers[|s.timers|].key == k
            && Pending(t.timers[i], k)
  {
  }

  lemma ProcessDuring(s: State, i: nat, j: nat)
    requires Inv(s) && i != j && i < |s.timers| && j < |s.timers| && s.timers[i].ticked && s.timers[i].phase.Waiting?
    ensures var t := Step(s, Process(i));
            |t.timers| == |s.timers| && t.timers[j] == s.timers[j] && t.timers[i] == s.timers[i].(phase := Processing)
  {
  }

  lemma FinishDuring(s: State, i: nat, j: nat)
    requires Inv(s) && i < |s.timers| && j < |s.timers| && s.timers[i].phase.Processing?
    requires s.timers[j].Live() && s.timers[i].key == s.timers[j].key
    ensures Lost(Step(s, Finish(i)), j)
  {
  }

  /**
    Whether an Add can be lost, though nothing is asked for its key afterwards, is settled when
    it is called: exactly if an expired timer of the key has a callback still to start or to end.
   */
  lemma LostExactly(states: seq<State>, actions: seq<Action>, k: Key)
    requires Run(states, actions)
    ensures (exists states', actions' ::
               Extends(states, actions, states', actions') && LastAskedFor(states', actions', |actions|, k) &&
               Lost(states'[|actions'|], |states[|actions|].timers|)) <==>
            Busy(states[|actions|], k)
  {
    hide Step, Enabled, Busy, Lost, Mapped;
    if Busy(states[|actions|], k) {
      var states', actions' := BusyLoses(states, actions, k);
    } else {
      forall states', actions' | Extends(states, actions, states', actions') && LastAskedFor(states', actions', |actions|, k)
        ensures !Lost(states'[|actions'|], |states[|actions|].timers|)
      {
        assert states'[|actions|] == states[|actions|];
        NotBusyNotLost(states', actions', |actions|, k, |actions'|);
        SafeExists(states'[|actions'|], |states[|actions|].timers|);
      }
    }
  }

  /** A run in which the last thing asked for a key is an Add, and its callback is never called. */
  lemma ReAddLost(k: Key) returns (states: seq<State>, actions: seq<Action>)
    ensures Run(states, actions)
    ensures actions == [Add(k), Tick(0), Process(0), Add(k), Finish(0)]
    ensures var s := states[5]; |s.timers| == 2 && s.timers[1].cancelled && !s.timers[1].ticked && 1 !in s.log
  {
    actions := [Add(k), Tick(0), Process(0), Add(k), Finish(0)];
    var s1 := Step(Empty, actions[0]);
    var s2 := Step(s1, actions[1]);
    var s3 := Step(s2, actions[2]);
    var s4 := Step(s3, actions[3]);
    var s5 := Step(s4, actions[4]);
    states := [Empty, s1, s2, s3, s4, s5];
  }

  // ----- The queue itself

  class ScheduledWorkQueue {
    var work: map<Key, nat>
    var timers: seq<Timer>
    ghost var log: seq<nat>

    ghost function St(): State
      reads this
    {
      State(timers, work, log)
    }

    constructor ()
      ensures St() == Empty
    {
      work, timers, log := map[], [], [];
    }

    method CancelFor(obj: Key)
      requires Mapped(St())
      modifies this
      ensures St() == Cancelled(old(St()), obj)
    {
      if obj in work {
        var id := work[obj];
        timers := timers[id := timers[id].(cancelled := true)];
        work := work - {obj};
      }
    }

    method AddItem(obj: Key)
      requires Inv(St())
      modifies this
      ensures St() == Step(old(St()), Add(obj)) && Inv(St())
    {
      StepKeepsInv(St(), Add(obj));
      CancelFor(obj);
      work := work[obj := |timers|];
      timers := timers + [Timer(obj, false, false, Waiting)];
    }

    method ForgetItem(obj: Key)
      requires Inv(St())
      modifies this
      ensures St() == Step(old(St()), Forget(obj)) && Inv(St())
    {
      StepKeepsInv(St(), Forget(obj));
      CancelFor(obj);
    }

    /** The callback's end: the deferred Forget of the key, then the deferred cancel of its own timer. */
    method EndCallback(id: nat)
      requires Inv(St()) && Enabled(St(), Finish(id))
      modifies this
      ensures St() == Step(old(St()), Finish(id)) && Inv(St())
    {
      StepKeepsInv(St(), Finish(id));
      CancelFor(timers[id].key);
      timers := timers[id := timers[id].(cancelled := true)];
      timers := timers[id := timers[id].(phase := Finished)];
    }
  }
}
