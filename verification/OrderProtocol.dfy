/**
  Runs of the Order controller: Syncs with stale reads, failing calls and lost writes,
  interleaved with the moves of the ACME server.
 */
module OrderProtocol {
  import opened Wrappers
  import opened Acme
  import opened Order

  /** A Sync between its calls and its status write. */
  datatype InFlight = InFlight(seen: nat, status: Status)

  /** All versions of the stored Order, the last one current, and the orders at the server. */
  datatype Sys = Sys(
    history: seq<Status>, server: Server, nextOrder: nat, sync: Option<InFlight>, requested: set<nat>)
  {
    function Current(): Status
      requires history != []
    {
      history[|history| - 1]
    }
  }

  datatype Action =
    | SyncCalls(seen: nat, env: Env, view: View)
    | SyncWrite(delivered: bool)
    | Crash
    | Touch
    | Move(order: nat, to: State)

  const Initial := Sys([NewStatus], map[], 0, None, {})

  ghost predicate Enabled(s: Sys, a: Action) {
    && s.history != []
    && match a
       case SyncCalls(seen, env, _) => s.sync.None? && seen < |s.history| && Honest(env)
       case SyncWrite(_) => s.sync.Some? && s.sync.value.seen < |s.history|
       case Move(u, to) => u in s.server && ServerMove(s.server[u].status, to)
       case _ => true
  }

  function Step(s: Sys, a: Action): Sys
    requires s.history != []
    requires a.SyncCalls? ==> a.seen < |s.history|
    requires a.SyncWrite? ==> s.sync.Some? && s.sync.value.seen < |s.history|
    requires a.Move? ==> a.order in s.server
  {
    match a
    case SyncCalls(seen, env, view) =>
      var o := SyncOrder(s.history[seen], s.server, s.nextOrder, env, view);
      s.(server := o.server, nextOrder := o.nextOrder, sync := Some(InFlight(seen, o.status)),
         requested := s.requested + o.requested)
    case SyncWrite(delivered) =>
      var f := s.sync.value;
      var swapped := delivered && f.status != s.history[f.seen] && f.seen == |s.history| - 1;
      s.(history := if swapped then s.history + [f.status] else s.history, sync := None)
    case Crash => s.(sync := None)
    case Touch => s.(history := s.history + [s.Current()])
    case Move(u, to) => s.(server := s.server[u := s.server[u].(status := to)])
  }

  // ----- What every run keeps

  ghost predicate Monotone(h: seq<Status>) {
    forall i, j :: 0 <= i <= j < |h| ==> Follows(h[i], h[j])
  }

  ghost predicate AllTruthful(h: seq<Status>, server: Server) {
    forall i :: 0 <= i < |h| ==> Truthful(h[i], server)
  }

  ghost predicate Inv(s: Sys) {
    && s.history != []
    && ServerOk(s.server, s.nextOrder)
    && AllTruthful(s.history, s.server)
    && Monotone(s.history)
    && (forall u :: u in s.requested ==> s.Current().url == Some(u) && !MissingMetadata(s.Current()))
    && (forall u :: u in s.server && Issuing(s.server[u]) ==> u in s.requested)
    && (s.sync.Some? ==>
          && s.sync.value.seen < |s.history|
          && Good(s.history[s.sync.value.seen], s.sync.value.status, s.server))
  }

  lemma HistoryLater(h: seq<Status>, a: Server, b: Server)
    requires AllTruthful(h, a) && ServerLater(a, b)
    ensures AllTruthful(h, b)
  {
    hide Truthful, ServerLater;
    forall i | 0 <= i < |h|
      ensures Truthful(h[i], b)
    {
      TruthfulLater(h[i], a, b);
    }
  }

  lemma AppendMonotone(h: seq<Status>, t: Status)
    requires h != [] && Monotone(h) && Follows(h[|h| - 1], t)
    ensures Monotone(h + [t])
  {
    hide Follows;
    FollowsItself(t);
    forall i | 0 <= i < |h|
      ensures Follows(h[i], t)
    {
      FollowsTransitive(h[i], h[|h| - 1], t);
    }
  }

  lemma FollowsItself(s: Status)
    ensures Follows(s, s)
  {
  }

  /** A URL, and authorizations with complete metadata, are the same in every later version. */
  lemma UrlStays(h: seq<Status>, i: nat, j: nat)
    requires Monotone(h) && i <= j < |h| && h[i].url.Some?
    ensures h[j].url == h[i].url
    ensures !MissingMetadata(h[i]) ==> h[j].authorizations == h[i].authorizations && !MissingMetadata(h[j])
  {
    assert Follows(h[i], h[j]);
    if !MissingMetadata(h[i]) {
      forall k | 0 <= k < |h[i].authorizations|
        ensures h[j].authorizations[k] == h[i].authorizations[k]
      {
        assert h[i].authorizations[k] in h[i].authorizations;
      }
    }
  }

  lemma CallsKeepInv(s: Sys, a: Action)
    requires Inv(s) && Enabled(s, a) && a.SyncCalls?
    ensures Inv(Step(s, a))
  {
    hide SyncOrder, Truthful, Follows, ServerOk, ServerLater, MissingMetadata;
    var seen := s.history[a.seen];
    assert Truthful(seen, s.server);
    SyncOrderGood(seen, s.server, s.nextOrder, a.env, a.view);
    var o := SyncOrder(seen, s.server, s.nextOrder, a.env, a.view);
    HistoryLater(s.history, s.server, o.server);
    forall u | u in o.requested
      ensures s.Current().url == Some(u) && !MissingMetadata(s.Current())
    {
      UrlStays(s.history, a.seen, |s.history| - 1);
    }
    forall u | u in o.server && Issuing(o.server[u])
      ensures u in s.requested + o.requested
    {
      SyncIssues(seen, s.server, s.nextOrder, a.env, a.view, u);
    }
  }

  lemma WriteKeepsInv(s: Sys, a: Action)
    requires Inv(s) && Enabled(s, a) && a.SyncWrite?
    ensures Inv(Step(s, a))
  {
    hide Truthful, Follows, ServerOk, MissingMetadata;
    var f := s.sync.value;
    if f.seen == |s.history| - 1 {
      AppendMonotone(s.history, f.status);
      if s.Current().url.Some? {
        UrlStays(s.history + [f.status], f.seen, |s.history|);
      }
    }
  }

  lemma OthersKeepInv(s: Sys, a: Action)
    requires Inv(s) && Enabled(s, a) && (a.Crash? || a.Touch? || a.Move?)
    ensures Inv(Step(s, a))
  {
    hide Truthful, Follows, MissingMetadata;
    if a.Touch? {
      FollowsItself(s.Current());
      AppendMonotone(s.history, s.Current());
    } else if a.Move? {
      var server1 := s.server[a.order := s.server[a.order].(status := a.to)];
      assert ServerLater(s.server, server1);
      HistoryLater(s.history, s.server, server1);
      if s.sync.Some? {
        TruthfulLater(s.sync.value.status, s.server, server1);
      }
    }
  }

  lemma StepKeepsInv(s: Sys, a: Action)
    requires Inv(s) && Enabled(s, a)
    ensures Inv(Step(s, a)) && s.history <= Step(s, a).history && s.requested <= Step(s, a).requested
  {
    hide Inv, SyncOrder;
    assert Inv(Step(s, a)) by {
      match a
      case SyncCalls(_, _, _) => CallsKeepInv(s, a);
      case SyncWrite(_) => WriteKeepsInv(s, a);
      case _ => OthersKeepInv(s, a);
    }
  }

  // ----- Runs

  ghost predicate Run(states: seq<Sys>, actions: seq<Action>) {
    && |states| == |actions| + 1
    && states[0] == Initial
    && forall i :: 0 <= i < |actions| ==> Enabled(states[i], actions[i]) && states[i + 1] == Step(states[i], actions[i])
  }

  lemma {:induction false} RunKeepsInv(states: seq<Sys>, actions: seq<Action>, i: nat)
    requires Run(states, actions) && i <= |actions|
    ensures Inv(states[i])
  {
    hide Step;
    if i > 0 {
      RunKeepsInv(states, actions, i - 1);
      StepKeepsInv(states[i - 1], actions[i - 1]);
    } else {
      assert Inv(Initial);
    }
  }

  lemma {:induction false} HistoryGrows(states: seq<Sys>, actions: seq<Action>, i: nat, j: nat)
    requires Run(states, actions) && i <= j <= |actions|
    ensures states[i].history <= states[j].history && states[i].requested <= states[j].requested
    decreases j
  {
    hide Step, Inv, Enabled;
    if i < j {
      HistoryGrows(states, actions, i, j - 1);
      RunKeepsInv(states, actions, j - 1);
      StepKeepsInv(states[j - 1], actions[j - 1]);
    }
  }

  /**
    In every run the stored Order never moves backwards along pending, ready, processing,
    valid, failed; a failed status never changes again; a URL, the list of authorizations and
    their metadata are fixed once stored; and a failure time is set exactly in failure states.
   */
  lemma OrderOnlyMovesForward(states: seq<Sys>, actions: seq<Action>, i: nat, j: nat)
    requires Run(states, actions) && i <= j <= |actions|
    ensures states[i].history != [] && states[j].history != []
    ensures var a, b := states[i].Current(), states[j].Current();
            && Rank(a.state) <= Rank(b.state)
            && (IsFailureState(a.state) ==> b == a)
            && (a.url.Some? ==> b.url == a.url && |b.authorizations| == |a.authorizations|)
            && (a.url.Some? ==> forall k :: 0 <= k < |a.authorizations| && a.authorizations[k].identifier != "" ==>
                  b.authorizations[k] == a.authorizations[k])
            && (a.certificate != "" ==> b == a)
            && (a.failureTime.Some? <==> IsFailureState(a.state))
  {
    hide Step, Enabled;
    RunKeepsInv(states, actions, i);
    RunKeepsInv(states, actions, j);
    HistoryGrows(states, actions, i, j);
    var h := states[j].history;
    var k := |states[i].history| - 1;
    assert h[k] == states[i].Current();
    assert Follows(h[k], h[|h| - 1]);
    assert Truthful(h[k], states[j].server);
  }

  /**
    In every run, however often the Order was created at the server, at most one of the
    server's orders is ever finalized, at whatever times one looks: the one whose URL is stored.
   */
  lemma AtMostOneFinalized(states: seq<Sys>, actions: seq<Action>, i: nat, j: nat, u: nat, v: nat)
    requires Run(states, actions) && i <= j <= |actions|
    requires u in states[i].server && Issuing(states[i].server[u])
    requires v in states[j].server && Issuing(states[j].server[v])
    ensures u == v && states[i].history != [] && states[i].Current().url == Some(u)
  {
    hide Step, Enabled;
    RunKeepsInv(states, actions, i);
    RunKeepsInv(states, actions, j);
    HistoryGrows(states, actions, i, j);
    assert u in states[j].requested;
  }

  // ----- An issued certificate is not stranded

  /** A Sync of the current version whose write goes through. */
  function SyncAll(s: Sys, env: Env, view: View): (r: Sys)
    requires s.history != []
    ensures r.history != []
  {
    Step(Step(s, SyncCalls(|s.history| - 1, env, view)), SyncWrite(true))
  }

  predicate Complete(c: Status) { c.state.Valid? && c.certificate != "" }

  lemma SyncAllWrites(s: Sys, env: Env, view: View)
    requires s.history != []
    ensures var o := SyncOrder(s.Current(), s.server, s.nextOrder, env, view);
            var t := SyncAll(s, env, view);
            t.Current() == o.status && t.server == o.server && t.sync.None? && t.nextOrder == o.nextOrder
  {
    hide SyncOrder;
  }

  lemma SyncAllKeepsInv(s: Sys, env: Env, view: View)
    requires Inv(s) && s.sync.None? && Honest(env)
    ensures Inv(SyncAll(s, env, view))
  {
    hide SyncOrder, Truthful;
    StepKeepsInv(s, SyncCalls(|s.history| - 1, env, view));
    StepKeepsInv(Step(s, SyncCalls(|s.history| - 1, env, view)), SyncWrite(true));
  }

  /**
    From every state a run can reach in which some order is valid at the server, the Order has
    not failed and its challenges are done, two Syncs without faults reach Valid with the
    certificate stored, whatever was lost before.
   */
  lemma NeverStranded(s: Sys, u: nat, env1: Env, env2: Env, view1: View, view2: View)
    requires Inv(s) && s.sync.None? && !IsFailureState(s.Current().state)
    requires u in s.server && s.server[u].status.Valid?
    requires FaultFree(env1) && Honest(env1) && FaultFree(env2) && Honest(env2) && ChallengesDone(view1)
    ensures Complete(s.Current()) || Complete(SyncAll(s, env1, view1).Current()) ||
            Complete(SyncAll(SyncAll(s, env1, view1), env2, view2).Current())
  {
    hide SyncOrder, Truthful, SyncAll, MissingMetadata, FaultFree, Follows, Monotone;
    var c := s.Current();
    assert u in s.requested && c.url == Some(u);
    assert Truthful(c, s.server);
    TruthfulFacts(c, s.server);
    StatusesKnown(s.server, s.nextOrder, c.url.value);
    if c.certificate == "" {
      SyncAllWrites(s, env1, view1);
      if c.state.Valid? || c.state.Ready? {
        SyncStores(c, s.server, s.nextOrder, env1, view1);
      } else {
        SyncLearns(c, s.server, s.nextOrder, env1, view1);
        var t := SyncAll(s, env1, view1);
        var d := t.Current();
        SyncAllKeepsInv(s, env1, view1);
        SyncAllWrites(t, env2, view2);
        SameAuthorizations(c, d);
        assert Truthful(d, t.server);
        SyncStores(d, t.server, t.nextOrder, env2, view2);
      }
    }
  }

  // ----- The ordinary course

  /**
    From every state a run can reach in which the server's order is ready, the Order is not,
    and its challenges are done, two Syncs without faults finalize it and store its certificate.
   */
  lemma Completes(s: Sys, env1: Env, env2: Env, view1: View, view2: View)
    requires Inv(s) && s.sync.None? && Open(s.Current(), s.server)
    requires s.server[s.Current().url.value].status.Ready? && !s.Current().state.Ready?
    requires FaultFree(env1) && Honest(env1) && ChallengesDone(view1)
    requires FaultFree(env2) && Honest(env2) && ChallengesDone(view2)
    ensures var c := SyncAll(SyncAll(s, env1, view1), env2, view2).Current();
            c.state.Valid? && c.certificate == Delivered(env2, s.server[s.Current().url.value])
  {
    hide SyncOrder, Truthful, SyncAll, MissingMetadata, FaultFree, Follows, Monotone;
    var c := s.Current();
    NotValidYet(c, s.server);
    SyncLearns(c, s.server, s.nextOrder, env1, view1);
    SyncAllWrites(s, env1, view1);
    SyncAllKeepsInv(s, env1, view1);
    var t := SyncAll(s, env1, view1);
    assert Truthful(t.Current(), t.server);
    SameAuthorizations(c, t.Current());
    SyncFinalizes(t.Current(), t.server, t.nextOrder, env2, view2);
    SyncAllWrites(t, env2, view2);
  }

  lemma NotValidYet(s: Status, server: Server)
    requires Open(s, server) && server[s.url.value].status.Ready?
    ensures !s.state.Valid?
  {
  }

  /** The server creates the order, and answers about every authorization. */
  predicate Creates(env: Env) {
    env.issuer && env.client && env.authorizeError.None? && env.newStatus.Pending?
  }

  predicate Answers(env: Env, n: nat) {
    && env.issuer && env.client && n <= |env.metadata|
    && forall i :: 0 <= i < n ==> env.metadata[i].Done? && env.metadata[i].value.identifier != ""
  }

  lemma CreateSync(s: Sys, env: Env, view: View)
    requires Inv(s) && s.sync.None? && s.Current().url.None? && !IsFailureState(s.Current().state)
    requires Honest(env) && Creates(env)
    ensures var t := SyncAll(s, env, view);
            && Inv(t) && t.sync.None? && t.Current().url == Some(s.nextOrder) && t.Current().state.Pending?
            && t.Current().certificate == "" && |t.Current().authorizations| == |env.newAuthz|
            && t.server == s.server[s.nextOrder := ServerOrder(Pending, env.newAuthz, env.newCertificate)]
  {
    hide SyncOrder, SyncAll, Follows, Monotone, MissingMetadata;
    var c := s.Current();
    assert Truthful(c, s.server);
    CreateExactly(c, s.server, s.nextOrder, env, view);
    SyncAllWrites(s, env, view);
    SyncAllKeepsInv(s, env, view);
    assert |Urls(SyncAll(s, env, view).Current().authorizations)| == |env.newAuthz|;
    assert Truthful(SyncAll(s, env, view).Current(), SyncAll(s, env, view).server);
  }

  /** One Sync records the metadata of all authorizations. */
  lemma MetadataSync(s: Sys, env: Env, view: View)
    requires Inv(s) && s.sync.None? && s.Current().url.Some? && s.Current().state.Pending? && s.Current().certificate == ""
    requires MissingMetadata(s.Current()) && Honest(env) && Answers(env, |s.Current().authorizations|)
    ensures var t := SyncAll(s, env, view);
            && Inv(t) && t.sync.None? && t.server == s.server && Open(t.Current(), t.server)
            && t.Current().url == s.Current().url && t.Current().state.Pending?
            && forall i :: 0 <= i < |s.Current().authorizations| && s.Current().authorizations[i].identifier == "" ==>
                 i < |t.Current().authorizations| &&
                 t.Current().authorizations[i] == env.metadata[i].value.(url := s.Current().authorizations[i].url)
  {
    hide SyncAll, Follows, Monotone, FetchFrom;
    var c := s.Current();
    assert Truthful(c, s.server);
    SyncAllWrites(s, env, view);
    SyncAllKeepsInv(s, env, view);
    var k := FetchExactly(c, 0, env);
    var d := SyncAll(s, env, view).Current();
    assert d == FetchFrom(c, 0, env);
    assert k == |c.authorizations|;
    assert Truthful(d, s.server);
    forall a | a in d.authorizations
      ensures a.identifier != ""
    {
      var i :| 0 <= i < |d.authorizations| && d.authorizations[i] == a;
      assert a == Recorded(c.authorizations[i], env, i);
    }
  }

  /**
    The whole course of an Order, from any state a run can reach in which it is still new: it is
    created, its authorizations are looked up, the server's order becomes ready, and two more
    Syncs finalize it and store the certificate of that very order.
   */
  lemma Issues(s: Sys, env1: Env, env2: Env, env3: Env, env4: Env, view: View, done: View)
    requires Inv(s) && s.sync.None? && s.Current().url.None? && !IsFailureState(s.Current().state)
    requires Honest(env1) && Creates(env1) && env1.newAuthz != []
    requires Honest(env2) && Answers(env2, |env1.newAuthz|)
    requires FaultFree(env3) && Honest(env3) && FaultFree(env4) && Honest(env4) && ChallengesDone(done)
    ensures var t := SyncAll(SyncAll(s, env1, view), env2, view);
            && Enabled(t, Move(s.nextOrder, Ready))
            && var c := SyncAll(SyncAll(Step(t, Move(s.nextOrder, Ready)), env3, done), env4, done).Current();
               && c.state.Valid? && c.url == Some(s.nextOrder)
               && c.certificate == if env4.preferred.Found? then env4.preferred.chain else env1.newCertificate
  {
    hide SyncAll, SyncOrder, Truthful, Follows, Monotone, MissingMetadata;
    CreateSync(s, env1, view);
    var t1 := SyncAll(s, env1, view);
    NewLacksMetadata(s, env1, view);
    MetadataSync(t1, env2, view);
    var t := SyncAll(t1, env2, view);
    var r := Step(t, Move(s.nextOrder, Ready));
    StepKeepsInv(t, Move(s.nextOrder, Ready));
    assert Truthful(r.Current(), r.server);
    Completes(r, env3, env4, done, done);
    SyncAllKeepsInv(r, env3, done);
    SyncAllWrites(r, env3, done);
    UrlKept(r, env3, done);
    UrlKept(SyncAll(r, env3, done), env4, done);
  }

  lemma NewLacksMetadata(s: Sys, env: Env, view: View)
    requires Inv(s) && s.sync.None? && s.Current().url.None? && !IsFailureState(s.Current().state)
    requires Honest(env) && Creates(env) && env.newAuthz != []
    ensures MissingMetadata(SyncAll(s, env, view).Current())
  {
    hide SyncOrder, SyncAll, Follows, Monotone;
    assert Truthful(s.Current(), s.server);
    CreateExactly(s.Current(), s.server, s.nextOrder, env, view);
    SyncAllWrites(s, env, view);
    var c := SyncAll(s, env, view).Current();
    assert |Urls(c.authorizations)| == |env.newAuthz|;
    assert c.authorizations[0] in c.authorizations;
  }

  lemma UrlKept(s: Sys, env: Env, view: View)
    requires Inv(s) && s.sync.None? && Honest(env) && s.Current().url.Some?
    ensures SyncAll(s, env, view).Current().url == s.Current().url
  {
    hide SyncOrder, Truthful, Follows;
    SyncAllKeepsInv(s, env, view);
    var h := SyncAll(s, env, view).history;
    UrlStays(h, |s.history| - 1, |h| - 1);
  }

  // ----- How it can still be stranded

  const Well := Env(true, true, 0, "", true, None, Ready, [7], "chain", None, true, true,
                    [Done(Authz(7, "example.com", Valid, false, []))], true, true, None, Valid, None, NotSet, true, true)

  const Bare := View(true, false, false, false, true)

  lemma EmptyRun()
    ensures Run([Initial], [])
  {
  }

  lemma Extend(states: seq<Sys>, actions: seq<Action>, a: Action, next: Sys)
    returns (states': seq<Sys>, actions': seq<Action>)
    requires Run(states, actions) && Enabled(states[|actions|], a) && next == Step(states[|actions|], a)
    ensures Run(states', actions') && states' == states + [next] && actions' == actions + [a]
  {
    hide Step, Enabled;
    return states + [next], actions + [a];
  }

  const Created := Status(Ready, Some(0), Some(0), [Authz(7, "", Unset, false, [])], "", None, "")
  const Filled := Created.(authorizations := [Authz(7, "example.com", Valid, false, [])])

  /** A run to an Order that is ready to be finalized. */
  lemma FilledRun() returns (states: seq<Sys>, actions: seq<Action>)
    ensures Run(states, actions) && |states| == |actions| + 1
    ensures states[|actions|] ==
            Sys([NewStatus, Created, Filled], map[0 := ServerOrder(Ready, [7], "chain")], 1, None, {})
  {
    hide Run;
    EmptyRun();
    var server: Server := map[0 := ServerOrder(Ready, [7], "chain")];
    states, actions := [Initial], [];
    assert Construct([7]) == [Authz(7, "", Unset, false, [])];
    assert SyncOrder(NewStatus, map[], 0, Well, Bare) == Outcome(Created, server, 1, Nothing, {});
    states, actions := Extend(states, actions, SyncCalls(0, Well, Bare), Sys([NewStatus], server, 1, Some(InFlight(0, Created)), {}));
    states, actions := Extend(states, actions, SyncWrite(true), Sys([NewStatus, Created], server, 1, None, {}));
    assert SyncOrder(Created, server, 1, Well, Bare) == Outcome(Filled, server, 1, Nothing, {}) by {
      assert Created.authorizations[0].identifier == "";
      assert FetchFrom(Filled, 1, Well) == Filled;
    }
    states, actions := Extend(states, actions, SyncCalls(1, Well, Bare), Sys([NewStatus, Created], server, 1, Some(InFlight(1, Filled)), {}));
    states, actions := Extend(states, actions, SyncWrite(true), Sys([NewStatus, Created, Filled], server, 1, None, {}));
  }

  /**
    A run that ends with a certificate issued for a failed Order: the answer to the finalize
    request and the status write are lost, and the next Sync is refused with 403 while the
    server is still processing.
   */
  lemma StrandedRun() returns (states: seq<Sys>, actions: seq<Action>)
    ensures Run(states, actions) && |states| == |actions| + 1
    ensures var s := states[|actions|];
            && s.history != [] && s.Current().state.Errored? && s.Current().url == Some(0)
            && 0 in s.server && s.server[0].status.Valid?
  {
    hide Run;
    states, actions := FilledRun();
    var h := [NewStatus, Created, Filled];
    var before: Server := map[0 := ServerOrder(Ready, [7], "chain")];
    var during: Server := map[0 := ServerOrder(Processing, [7], "chain")];
    var after: Server := map[0 := ServerOrder(Valid, [7], "chain")];
    var lost := Well.(finalizeError := Some(Transient), finalizeTo := Processing, getError := Some(Transient));
    var failed := Filled.(state := Errored, failureTime := Some(0));
    assert before[0 := ServerOrder(Processing, [7], "chain")] == during;
    assert SyncOrder(Filled, before, 1, lost, Bare) == Outcome(Filled, during, 1, Nothing, {0});
    states, actions := Extend(states, actions, SyncCalls(2, lost, Bare), Sys(h, during, 1, Some(InFlight(2, Filled)), {0}));
    states, actions := Extend(states, actions, SyncWrite(false), Sys(h, during, 1, None, {0}));
    assert SyncOrder(Filled, during, 1, Well, Bare) == Outcome(failed, during, 1, Nothing, {0});
    states, actions := Extend(states, actions, SyncCalls(2, Well, Bare), Sys(h, during, 1, Some(InFlight(2, failed)), {0}));
    states, actions := Extend(states, actions, SyncWrite(true), Sys(h + [failed], during, 1, None, {0}));
    assert during[0 := ServerOrder(Valid, [7], "chain")] == after;
    states, actions := Extend(states, actions, Move(0, Valid), Sys(h + [failed], after, 1, None, {0}));
  }

  /**
    A run that ends with a certificate issued for a failed Order though the server was done:
    the answer to the finalize request is lost, and when the next Sync learns that the order is
    valid, the server refuses to hand out the certificate just then.
   */
  lemma RateLimitedRun() returns (states: seq<Sys>, actions: seq<Action>)
    ensures Run(states, actions) && |states| == |actions| + 1
    ensures var s := states[|actions|];
            && s.history != [] && s.Current().state.Errored? && s.Current().url == Some(0)
            && 0 in s.server && s.server[0].status.Valid?
    ensures states[|actions| - 2].server == states[|actions|].server
    ensures !IsFailureState(states[|actions| - 2].Current().state)
  {
    hide Run;
    states, actions := FilledRun();
    var h := [NewStatus, Created, Filled];
    var before: Server := map[0 := ServerOrder(Ready, [7], "chain")];
    var after: Server := map[0 := ServerOrder(Valid, [7], "chain")];
    var lost := Well.(finalizeError := Some(Transient), finalizeTo := Valid, getError := Some(Transient));
    var limited := Well.(fetchError := Some(ClientError));
    var failed := Filled.(state := Errored, failureTime := Some(0));
    assert before[0 := ServerOrder(Valid, [7], "chain")] == after;
    assert SyncOrder(Filled, before, 1, lost, Bare) == Outcome(Filled, after, 1, Nothing, {0});
    states, actions := Extend(states, actions, SyncCalls(2, lost, Bare), Sys(h, after, 1, Some(InFlight(2, Filled)), {0}));
    states, actions := Extend(states, actions, SyncWrite(false), Sys(h, after, 1, None, {0}));
    assert SyncOrder(Filled, after, 1, limited, Bare) == Outcome(failed, after, 1, Nothing, {0});
    states, actions := Extend(states, actions, SyncCalls(2, limited, Bare), Sys(h, after, 1, Some(InFlight(2, failed)), {0}));
    states, actions := Extend(states, actions, SyncWrite(true), Sys(h + [failed], after, 1, None, {0}));
  }
}
