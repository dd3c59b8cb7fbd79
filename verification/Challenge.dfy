/**
  The ACME Challenge controller as a protocol over one stored Challenge object.
  A Sync reads the object from a cache that may lag behind, makes its calls, applies
  finalizers, and writes the status last; deletes, scheduling and other writers may come
  between any two of these.
 */
module Challenge {
  import opened Wrappers
  import opened Acme

  datatype Finalizer = Legacy | DomainQualified | Foreign(name: string)

  const ACME := {Legacy, DomainQualified}

  datatype Status = Status(state: State, presented: bool, processing: bool, reason: string)

  datatype Challenge =
    Challenge(uid: nat, version: nat, status: Status, finalizers: set<Finalizer>, deleting: bool)
  {
    predicate HasAcmeFinalizer() { Legacy in finalizers || DomainQualified in finalizers }
    /** Deleted or in a final state: all that is left to do is clean up. */
    predicate Finished() { deleting || IsFinalState(status.state) }
  }

  // ----- One Sync

  datatype Upgrade = NotNeeded | Upgraded | UpgradeFailed
  datatype Waited = Authorized(state: State) | AuthorizationError | WaitFailed(error: CallError)

  /** What the calls of one Sync return. */
  datatype Env = Env(
    upgrade: Upgrade, solver: bool, cleanUp: bool, issuer: bool, client: bool,
    authorization: Result<State>, authorizationError: CallError,
    present: bool, check: bool,
    acceptStatus: Option<State>, acceptError: Option<CallError>, waited: Waited,
    message: string)

  /** The solver's resources: possibly outstanding, and known to be up since a successful Present. */
  datatype World = World(outstanding: bool, live: bool)

  /** What a Sync leaves to do after its calls: finalizers to apply, and a status to write. */
  datatype Effect = Effect(ch: Challenge, apply: Option<set<Finalizer>>, world: World, accepted: bool)

  /** Errors after which the workqueue tries again. */
  predicate Retryable(e: CallError) { e.Transient? || e.ServerError? }

  function HandleError(s: Status, e: CallError, message: string): (r: Status)
    ensures r.presented == s.presented && r.processing == s.processing
    ensures Retryable(e) ==> r == s
    ensures !Retryable(e) ==> r.state == if e.Malformed? then Expired else Errored
  {
    match e
    case Transient => s
    case Unexpected => s.(state := Errored, reason := message)
    case ProfileUnsupported => s.(state := Errored, reason := message)
    case Malformed => s.(state := Expired)
    case Forbidden => s.(state := Errored, reason := message)
    case ClientError => s.(state := Errored, reason := message)
    case ServerError => s
  }

  /** The error that ended an acceptance, if one did. */
  function AcceptFailure(env: Env): Option<CallError> {
    if env.acceptError.Some? then env.acceptError
    else if env.waited.WaitFailed? then Some(env.waited.error) else None
  }

  /** The outcome of the authorization, a failure, or for a retry what the server last said. */
  function AcceptChallenge(s: Status, env: Env): (r: Status)
    ensures r.presented == s.presented && r.processing == s.processing
    ensures AcceptFailure(env).None? ==>
              r.state == if env.waited.AuthorizationError? then Invalid else env.waited.state
    ensures AcceptFailure(env).Some? && !Retryable(AcceptFailure(env).value) ==>
              r.state == if AcceptFailure(env).value.Malformed? then Expired else Errored
    ensures AcceptFailure(env).Some? && Retryable(AcceptFailure(env).value) ==>
              r.state == if env.acceptStatus.Some? then env.acceptStatus.value else s.state
  {
    var s1 := if env.acceptStatus.Some? then s.(state := env.acceptStatus.value) else s;
    if env.acceptError.Some? then
      HandleError(s1.(reason := env.message), env.acceptError.value, env.message)
    else match env.waited
      case Authorized(state) => s1.(state := state, reason := "Successfully authorized domain")
      case AuthorizationError => s1.(state := Invalid, reason := env.message)
      case WaitFailed(e) => HandleError(s1, e, env.message)
  }

  /** Cleaning up a finished challenge. */
  function Clean(c: Challenge, env: Env, w: World): Effect {
    if !c.HasAcmeFinalizer() then
      Effect(c.(status := c.status.(presented := false, processing := false)), None, w, false)
    else if !env.solver then Effect(c, None, w, false)
    else if !env.cleanUp then
      Effect(c.(status := c.status.(reason := env.message)), None, w.(live := false), false)
    else Effect(c, Some({}), World(false, false), false)
  }

  /** Presenting, checking and accepting an open challenge. */
  function Solve(c: Challenge, env: Env, w: World): Effect {
    if !c.status.presented && !env.present then
      Effect(c.(status := c.status.(reason := env.message)), None, w.(outstanding := true), false)
    else
      var w1 := if c.status.presented then w else World(true, true);
      var s := c.status.(presented := true);
      if !env.check then Effect(c.(status := s.(reason := env.message)), None, w1, false)
      else Effect(c.(status := AcceptChallenge(s, env)), None, w1, true)
  }

  /** All calls of a Sync that read `c`. */
  function Calls(c: Challenge, env: Env, w: World): Effect {
    if !env.upgrade.NotNeeded? then Effect(c, None, w, false)
    else if c.Finished() then Clean(c, env, w)
    else if !c.status.processing then Effect(c, None, w, false)
    else if DomainQualified !in c.finalizers || Legacy in c.finalizers then
      Effect(c, Some({DomainQualified}), w, false)
    else if !env.issuer || !env.client then Effect(c, None, w, false)
    else if c.status.state.Unset? then
      Effect(c.(status := if env.authorization.Ok?
                          then c.status.(state := env.authorization.value, reason := env.message)
                          else HandleError(c.status, env.authorizationError, env.message)), None, w, false)
    else if !env.solver then Effect(c, None, w, false)
    else Solve(c, env, w)
  }

  /** The calls of Sync, in the order the controller makes them. */
  method Sync(seen: Challenge, env: Env, w: World) returns (r: Effect)
    ensures r == Calls(seen, env, w)
  {
    var ch := seen;
    var world := w;
    if !env.upgrade.NotNeeded? {
      return Effect(ch, None, world, false);
    }
    var challengeFinished := ch.deleting || IsFinalState(ch.status.state);
    if challengeFinished {
      if Legacy in ch.finalizers || DomainQualified in ch.finalizers {
        if !env.solver {
          return Effect(ch, None, world, false);
        }
        world := world.(live := false);
        if !env.cleanUp {
          ch := ch.(status := ch.status.(reason := env.message));
          return Effect(ch, None, world, false);
        }
        world := world.(outstanding := false);
        return Effect(ch, Some({}), world, false);
      }
      ch := ch.(status := ch.status.(presented := false));
      ch := ch.(status := ch.status.(processing := false));
      return Effect(ch, None, world, false);
    }
    if !ch.status.processing {
      return Effect(ch, None, world, false);
    }
    if DomainQualified !in ch.finalizers || Legacy in ch.finalizers {
      return Effect(ch, Some({DomainQualified}), world, false);
    }
    if !env.issuer || !env.client {
      return Effect(ch, None, world, false);
    }
    if ch.status.state.Unset? {
      if env.authorization.Ok? {
        ch := ch.(status := ch.status.(reason := env.message));
        ch := ch.(status := ch.status.(state := env.authorization.value));
      } else {
        ch := ch.(status := HandleError(ch.status, env.authorizationError, env.message));
      }
      return Effect(ch, None, world, false);
    }
    if !env.solver {
      return Effect(ch, None, world, false);
    }
    if !ch.status.presented {
      world := world.(outstanding := true);
      if !env.present {
        ch := ch.(status := ch.status.(reason := env.message));
        return Effect(ch, None, world, false);
      }
      world := world.(live := true);
      ch := ch.(status := ch.status.(presented := true));
    }
    if !env.check {
      ch := ch.(status := ch.status.(reason := env.message));
      return Effect(ch, None, world, false);
    }
    ch := ch.(status := AcceptChallenge(ch.status, env));
    return Effect(ch, None, world, true);
  }

  // ----- Which calls are made, and what becomes of the status

  predicate HeldAlone(c: Challenge) { DomainQualified in c.finalizers && Legacy !in c.finalizers }

  /** Open, scheduled, held by the domain-qualified finalizer alone, and nothing in the way. */
  predicate Engaged(c: Challenge, env: Env) {
    && env.upgrade.NotNeeded? && !c.Finished() && c.status.processing && HeldAlone(c)
    && env.issuer && env.client
  }

  /** Whether the Sync asks for the state of the authorization. */
  predicate Asks(c: Challenge, env: Env) { Engaged(c, env) && c.status.state.Unset? }

  /** Whether it calls Present. */
  predicate Presents(c: Challenge, env: Env) {
    Engaged(c, env) && !c.status.state.Unset? && env.solver && !c.status.presented
  }

  /** Whether it accepts the challenge. */
  predicate Accepts(c: Challenge, env: Env) {
    Engaged(c, env) && !c.status.state.Unset? && env.solver && (c.status.presented || env.present) && env.check
  }

  /** Whether it cleans up. */
  predicate Cleans(c: Challenge, env: Env) {
    env.upgrade.NotNeeded? && c.Finished() && c.HasAcmeFinalizer() && env.solver
  }

  /** Whether it records that all is over. */
  predicate Rests(c: Challenge, env: Env) {
    env.upgrade.NotNeeded? && c.Finished() && !c.HasAcmeFinalizer()
  }

  function StateAfterError(s: State, e: CallError): State {
    if Retryable(e) then s else if e.Malformed? then Expired else Errored
  }

  /** The state a Sync leads to, by the answers to its calls. */
  function StateAfter(c: Challenge, env: Env): State {
    var said := if env.acceptStatus.Some? then env.acceptStatus.value else c.status.state;
    if Asks(c, env) then
      if env.authorization.Ok? then env.authorization.value else StateAfterError(Unset, env.authorizationError)
    else if !Accepts(c, env) then c.status.state
    else if AcceptFailure(env).Some? then StateAfterError(said, AcceptFailure(env).value)
    else if env.waited.AuthorizationError? then Invalid
    else env.waited.state
  }

  /** The status ends up by the calls that were made, and each is made exactly when its condition holds. */
  lemma StatusExactly(c: Challenge, env: Env, w: World)
    ensures var e := Calls(c, env, w);
            && e.ch == c.(status := e.ch.status)
            && (e.accepted <==> Accepts(c, env))
            && e.ch.status.state == StateAfter(c, env)
            && (e.ch.status.presented <==> !Rests(c, env) && (c.status.presented || (Presents(c, env) && env.present)))
            && (e.ch.status.processing <==> !Rests(c, env) && c.status.processing)
  {
    hide HandleError, AcceptChallenge, IsFinalState;
  }

  /** A Challenge that was settled, refused or rejected for good is finished, and nothing but clean-up is left. */
  lemma OutcomesFinish(c: Challenge, env: Env, w: World)
    requires Accepts(c, env)
    requires match AcceptFailure(env)
             case Some(e) => !Retryable(e)
             case None => env.waited.AuthorizationError? || env.waited.state.Valid? || env.waited.state.Invalid?
    ensures Calls(c, env, w).ch.Finished()
    ensures var d := Calls(c, env, w).ch;
            forall env2 :: !Accepts(d, env2) && !Presents(d, env2) && !Asks(d, env2)
  {
    hide Calls;
    StatusExactly(c, env, w);
  }

  /** So do the solver's resources and the finalizers to apply. */
  lemma CallsExactly(c: Challenge, env: Env, w: World)
    ensures var e := Calls(c, env, w);
            && (e.world.outstanding <==>
                  if Cleans(c, env) then w.outstanding && !env.cleanUp else w.outstanding || Presents(c, env))
            && (e.world.live <==> !Cleans(c, env) && (w.live || (Presents(c, env) && env.present)))
            && e.apply == (if Cleans(c, env) && env.cleanUp then Some({})
                           else if env.upgrade.NotNeeded? && !c.Finished() && c.status.processing && !HeldAlone(c)
                           then Some({DomainQualified}) else None)
  {
    hide HandleError, AcceptChallenge, IsFinalState;
  }

  // ----- The system around it

  datatype InFlight = InFlight(seen: Challenge, ch: Challenge, apply: Option<set<Finalizer>>)

  /** What was true of the solver when a challenge was accepted. */
  datatype Accept = Accept(live: bool)

  /**
    `past` holds every version that was ever stored, `last` is the version read last, and
    `released` the objects whose ACME finalizers were removed after a clean-up.
   */
  datatype Sys = Sys(
    store: Option<Challenge>, clock: nat, world: World, sync: Option<InFlight>, accepts: seq<Accept>,
    past: set<Challenge>, last: nat, released: set<nat>)

  datatype Action =
    | SyncCalls(seen: Challenge, env: Env)
    | SyncApply(delivered: bool)
    | SyncWrite(delivered: bool)
    | Crash
    | Schedule
    | Delete
    | Foreigners(names: set<string>)
    | Create

  /** Stores a changed object under a new version, unless deletion was only waiting for finalizers. */
  function Put(s: Sys, c: Challenge): Sys {
    if c.deleting && c.finalizers == {} then s.(store := None, clock := s.clock + 1)
    else
      var d := c.(version := s.clock);
      s.(store := Some(d), clock := s.clock + 1, past := s.past + {d})
  }

  /** The cache may show any earlier version, also of an object that is gone, but it never goes back. */
  predicate Enabled(s: Sys, a: Action) {
    match a
    case SyncCalls(seen, _) => s.sync.None? && seen in s.past && s.last <= seen.version
    case SyncApply(_) => s.sync.Some? && s.sync.value.apply.Some?
    case SyncWrite(_) => s.sync.Some? && s.sync.value.apply.None?
    case Schedule => s.store.Some?
    case Delete => s.store.Some?
    case Foreigners(names) => s.store.Some?
    case Create => s.store.None?
    case Crash => true
  }

  /** Forced apply of the ACME finalizers; an object being deleted accepts no new ones. */
  function ApplyFinalizers(s: Sys, f: InFlight, delivered: bool): Sys
    requires f.apply.Some?
  {
    if delivered && s.store.Some? && s.store.value.uid == f.seen.uid then
      var c := s.store.value;
      var wanted := (c.finalizers - ACME) + f.apply.value;
      var s1 := if f.apply.value == {} then s.(released := s.released + {c.uid}) else s;
      if wanted == c.finalizers || (c.deleting && !(wanted <= c.finalizers)) then s1
      else Put(s1, c.(finalizers := wanted))
    else s
  }

  /** Status update, only if changed and only over the version that was read. */
  function WriteStatus(s: Sys, f: InFlight, delivered: bool): Sys {
    if delivered && f.ch.status != f.seen.status && s.store.Some? && s.store.value.version == f.seen.version then
      Put(s, s.store.value.(status := f.ch.status))
    else s
  }

  /** A read and the calls that follow from it; an upgrade only goes through over the current version. */
  function ReadAndCall(s: Sys, seen: Challenge, env: Env): Sys {
    var e := Calls(seen, env, s.world);
    var s1 := s.(last := seen.version);
    if env.upgrade.UpgradeFailed? then s1
    else if env.upgrade.Upgraded? then
      if s.store.Some? && s.store.value.version == seen.version then Put(s1, s.store.value) else s1
    else s1.(world := e.world, sync := Some(InFlight(seen, e.ch, e.apply)),
             accepts := if e.accepted then s.accepts + [Accept(e.world.live)] else s.accepts)
  }

  function Step(s: Sys, a: Action): Sys
    requires Enabled(s, a)
  {
    match a
    case SyncCalls(seen, env) => ReadAndCall(s, seen, env)
    case SyncApply(delivered) =>
      ApplyFinalizers(s, s.sync.value, delivered).(sync := Some(s.sync.value.(apply := None)))
    case SyncWrite(delivered) => WriteStatus(s, s.sync.value, delivered).(sync := None)
    case Crash => s.(sync := None)
    case Schedule =>
      var c := s.store.value;
      if c.status.processing then s else Put(s, c.(status := c.status.(processing := true)))
    case Delete =>
      var c := s.store.value;
      if c.deleting then s else Put(s, c.(deleting := true))
    case Foreigners(names) =>
      var c := s.store.value;
      var wanted := (c.finalizers * ACME) + (set n | n in names :: Foreign(n));
      if c.deleting && !(wanted <= c.finalizers) then s else Put(s, c.(finalizers := wanted))
    case Create =>
      Put(s, Challenge(s.clock, s.clock, Status(Unset, false, false, ""), {}, false))
  }

  // ----- What every run keeps

  ghost predicate Inv(s: Sys) {
    Ordered(s) && Guarded(s) && Released(s) && Presented(s) && (s.sync.Some? ==> Flight(s, s.sync.value))
  }

  /** Versions are numbered as they come; a later version of an object is finished if an earlier one was. */
  ghost predicate Ordered(s: Sys) {
    && (s.store.Some? ==>
          && s.store.value in s.past && s.last <= s.store.value.version
          && (s.store.value.deleting ==> s.store.value.finalizers != {}))
    && s.last <= s.clock
    && (forall c :: c in s.past ==>
          c.uid <= c.version < s.clock && (s.store.Some? ==> c.version <= s.store.value.version))
    && (forall c, d :: c in s.past && d in s.past && c.version <= d.version ==> Precedes(c, d))
  }

  predicate Precedes(c: Challenge, d: Challenge) {
    && (c.version == d.version ==> c == d)
    && (c.version < d.uid || (c.uid == d.uid && (c.Finished() ==> d.Finished())))
  }

  /** No leak: outstanding resources, and every object that still holds on, are guarded in the store. */
  ghost predicate Guarded(s: Sys) {
    && (s.world.outstanding ==>
          && s.store.Some? && s.store.value.HasAcmeFinalizer() && s.store.value.status.processing
          && s.store.value.uid <= s.last)
    && (forall c :: c in s.past && c.HasAcmeFinalizer() && c.uid !in s.released ==>
          && s.store.Some? && s.store.value.uid == c.uid && s.store.value.HasAcmeFinalizer()
          && (c.status.processing ==> s.store.value.status.processing))
  }

  /** A released object is finished, in every version that can still be read, and never held again. */
  ghost predicate Released(s: Sys) {
    && (forall u :: u in s.released ==> u < s.clock)
    && (s.store.Some? && s.store.value.uid in s.released ==>
          s.store.value.Finished() && !s.store.value.HasAcmeFinalizer())
    && (forall c :: c in s.past && c.uid in s.released && s.last <= c.version ==> c.Finished())
  }

  /** A recorded Present has really happened, and nothing was cleaned up since. */
  ghost predicate Presented(s: Sys) {
    && (s.world.live ==> s.world.outstanding)
    && (forall c :: c in s.past && c.status.presented ==> c.uid <= s.last)
    && (forall c :: c in s.past && s.last <= c.version && c.status.presented && !c.Finished() ==> s.world.live)
    && (forall a :: a in s.accepts ==> a.live)
  }

  ghost predicate Flight(s: Sys, f: InFlight) {
    && f.seen in s.past && f.seen.version == s.last
    && f.ch == f.seen.(status := f.ch.status)
    && (f.ch.status.presented && !f.ch.Finished() ==> s.world.live)
    && (IsFinalState(f.seen.status.state) ==> f.ch.status.state == f.seen.status.state)
    && (f.seen.HasAcmeFinalizer() ==> f.ch.status.processing == f.seen.status.processing)
    && (f.apply.Some? ==>
          || (f.apply.value == {DomainQualified} && !f.seen.Finished())
          || (f.apply.value == {} && f.seen.Finished() && !s.world.outstanding))
  }

  const Initial := Sys(None, 0, World(false, false), None, [], {}, 0, {})

  /** What the calls of a Sync may do, given that a recorded Present is live. */
  lemma CallsFacts(c: Challenge, env: Env, w: World)
    requires c.status.presented && !c.Finished() ==> w.live
    requires w.live ==> w.outstanding
    ensures var e := Calls(c, env, w);
            && e.ch == c.(status := e.ch.status)
            && (IsFinalState(c.status.state) ==> e.ch.status.state == c.status.state)
            && (c.HasAcmeFinalizer() ==> e.ch.status.processing == c.status.processing)
            && (e.ch.status.presented && !e.ch.Finished() ==> e.world.live)
            && (e.world.live ==> e.world.outstanding)
            && (e.world.outstanding && !w.outstanding ==> !c.Finished() && c.HasAcmeFinalizer() && c.status.processing)
            && (w.live && !e.world.live ==> c.Finished())
            && (e.apply.Some? ==>
                  || (e.apply.value == {DomainQualified} && !c.Finished())
                  || (e.apply.value == {} && c.Finished() && !e.world.outstanding))
            && (e.accepted ==> e.world.live)
  {
    hide HandleError, AcceptChallenge;
  }

  lemma CallsKeepInv(s: Sys, seen: Challenge, env: Env)
    requires Inv(s) && Enabled(s, SyncCalls(seen, env)) && env.upgrade.NotNeeded?
    ensures Inv(Step(s, SyncCalls(seen, env)))
  {
    hide Calls;
    CallsFacts(seen, env, s.world);
    var t := Step(s, SyncCalls(seen, env));
    forall c | c in t.past && t.last <= c.version && c.status.presented && !c.Finished()
      ensures t.world.live
    {
      assert Precedes(seen, c);
    }
  }

  lemma PutOrdered(s: Sys, c: Challenge)
    requires Ordered(s) && s.store.Some? && c.uid == s.store.value.uid
    requires s.store.value.Finished() ==> c.Finished()
    ensures Ordered(Put(s, c))
  {
    forall e | e in s.past
      ensures Precedes(e, c.(version := s.clock))
    {
      assert Precedes(e, s.store.value);
    }
  }

  /** Storing a changed version of the stored object. */
  lemma PutKeeps(s: Sys, c: Challenge)
    requires Inv(s) && s.store.Some?
    requires var d := s.store.value;
             && c.uid == d.uid && (d.Finished() ==> c.Finished())
             && (c.status.presented ==> d.uid <= s.last)
             && (c.status.presented && !c.Finished() ==> s.world.live)
             && (d.HasAcmeFinalizer() ==> c.HasAcmeFinalizer() && (d.status.processing ==> c.status.processing))
             && (d.uid in s.released ==> !c.HasAcmeFinalizer())
    ensures Inv(Put(s, c))
  {
    hide IsFinalState;
    assert Ordered(Put(s, c)) by { PutOrdered(s, c); }
  }

  lemma UpgradeKeepsInv(s: Sys, seen: Challenge, env: Env)
    requires Inv(s) && Enabled(s, SyncCalls(seen, env)) && !env.upgrade.NotNeeded?
    ensures Inv(Step(s, SyncCalls(seen, env)))
  {
    hide Calls;
    var s1 := s.(last := seen.version);
    assert Inv(s1);
    if env.upgrade.Upgraded? && s.store.Some? && s.store.value.version == seen.version {
      PutKeeps(s1, s.store.value);
    }
  }

  lemma HoldKeepsInv(s: Sys)
    requires Inv(s) && s.sync.Some? && s.sync.value.apply == Some({DomainQualified})
    ensures Inv(ApplyFinalizers(s, s.sync.value, true))
  {
    hide Put;
    var f := s.sync.value;
    if s.store.Some? && s.store.value.uid == f.seen.uid {
      var c := s.store.value;
      var wanted := (c.finalizers - ACME) + {DomainQualified};
      assert c.(finalizers := wanted).HasAcmeFinalizer();
      PutKeeps(s, c.(finalizers := wanted));
    }
  }

  /** `t` is `s` with the stored object, read as finished and cleaned up, free of ACME finalizers. */
  ghost predicate Releases(s: Sys, t: Sys) {
    && Inv(s) && s.sync.Some? && s.store.Some? && !s.world.outstanding
    && s.sync.value.seen.Finished() && s.sync.value.seen.uid == s.store.value.uid
    && t == s.(store := t.store, clock := t.clock, past := t.past, released := s.released + {s.store.value.uid})
    && s.clock <= t.clock
    && (t.store.Some? ==>
          && t.store.value in t.past && !t.store.value.HasAcmeFinalizer()
          && t.store.value == s.store.value.(finalizers := t.store.value.finalizers, version := t.store.value.version))
    && (forall c :: c in t.past <==> c in s.past || t.store == Some(c))
  }

  lemma ReleaseGuards(s: Sys, t: Sys)
    requires Releases(s, t)
    ensures Guarded(t) && Presented(t)
  {
    hide Released;
  }

  lemma ReleaseReleased(s: Sys, t: Sys)
    requires Releases(s, t)
    ensures Released(t)
  {
    hide Guarded, Presented;
    var seen := s.sync.value.seen;
    assert Precedes(seen, s.store.value);
    forall c | c in s.past && c.uid == seen.uid && s.last <= c.version
      ensures c.Finished()
    {
      assert Precedes(seen, c);
    }
  }

  /** Removing the ACME finalizers of an object that was read as finished, and cleaned up. */
  lemma ReleaseKeepsInv(s: Sys)
    requires Inv(s) && s.sync.Some? && s.sync.value.apply == Some({})
    ensures Inv(ApplyFinalizers(s, s.sync.value, true).(sync := Some(s.sync.value.(apply := None))))
  {
    hide Guarded, Released, Presented, IsFinalState;
    var f := s.sync.value;
    if s.store.Some? && s.store.value.uid == f.seen.uid {
      var d := s.store.value;
      var c := d.(finalizers := (d.finalizers - ACME) + {});
      var s1 := s.(released := s.released + {d.uid});
      assert c.finalizers <= d.finalizers;
      var t := ApplyFinalizers(s, f, true);
      assert t == (if c.finalizers == d.finalizers then s1 else Put(s1, c));
      assert Ordered(t) by { PutOrdered(s1, c); }
      assert Releases(s, t);
      ReleaseGuards(s, t);
      ReleaseReleased(s, t);
    }
    AppliedPieces(ApplyFinalizers(s, f, true));
  }

  lemma AppliedPieces(s: Sys)
    requires s.sync.Some?
    ensures var t := s.(sync := Some(s.sync.value.(apply := None)));
            && (Ordered(s) ==> Ordered(t)) && (Guarded(s) ==> Guarded(t))
            && (Released(s) ==> Released(t)) && (Presented(s) ==> Presented(t))
  {
  }

  lemma ApplyKeepsInv(s: Sys, delivered: bool)
    requires Inv(s) && Enabled(s, SyncApply(delivered))
    ensures Inv(Step(s, SyncApply(delivered)))
  {
    hide ApplyFinalizers, Inv;
    ApplyKeepsSync(s, delivered);
    if !delivered {
      AppliedKeepsInv(s);
    } else if s.sync.value.apply.value == {} {
      ReleaseKeepsInv(s);
    } else {
      InFlightApply(s);
      HoldKeepsInv(s);
      AppliedKeepsInv(ApplyFinalizers(s, s.sync.value, true));
    }
  }

  lemma InFlightApply(s: Sys)
    requires Inv(s) && s.sync.Some? && s.sync.value.apply.Some?
    ensures s.sync.value.apply.value in {{DomainQualified}, {}}
  {
  }

  lemma ApplyKeepsSync(s: Sys, delivered: bool)
    requires s.sync.Some? && s.sync.value.apply.Some?
    ensures ApplyFinalizers(s, s.sync.value, delivered).sync == s.sync
    ensures ApplyFinalizers(s, s.sync.value, false) == s
  {
  }

  lemma AppliedKeepsInv(s: Sys)
    requires Inv(s) && s.sync.Some?
    ensures Inv(s.(sync := Some(s.sync.value.(apply := None))))
  {
  }

  lemma WriteKeepsInv(s: Sys, delivered: bool)
    requires Inv(s) && Enabled(s, SyncWrite(delivered))
    ensures Inv(Step(s, SyncWrite(delivered)))
  {
    var f := s.sync.value;
    if delivered && f.ch.status != f.seen.status && s.store.Some? && s.store.value.version == f.seen.version {
      assert Precedes(s.store.value, f.seen);
      PutKeeps(s, s.store.value.(status := f.ch.status));
    }
  }

  lemma OthersKeepInv(s: Sys, a: Action)
    requires Inv(s) && Enabled(s, a)
    requires a.Crash? || a.Schedule? || a.Delete?
    ensures Inv(Step(s, a))
  {
    hide Put;
    if !a.Crash? {
      var c := s.store.value;
      if a.Schedule? {
        PutKeeps(s, c.(status := c.status.(processing := true)));
      } else {
        PutKeeps(s, c.(deleting := true));
      }
    }
  }

  lemma CreateKeepsInv(s: Sys)
    requires Inv(s) && Enabled(s, Create)
    ensures Inv(Step(s, Create))
  {
  }

  lemma ForeignersKeepInv(s: Sys, names: set<string>)
    requires Inv(s) && Enabled(s, Foreigners(names))
    ensures Inv(Step(s, Foreigners(names)))
  {
    hide Put;
    var c := s.store.value;
    var wanted := (c.finalizers * ACME) + (set n | n in names :: Foreign(n));
    assert c.HasAcmeFinalizer() <==> c.(finalizers := wanted).HasAcmeFinalizer();
    PutKeeps(s, c.(finalizers := wanted));
  }

  lemma StepKeepsInv(s: Sys, a: Action)
    requires Inv(s) && Enabled(s, a)
    ensures Inv(Step(s, a))
  {
    hide Step, Inv;
    match a
    case SyncCalls(seen, env) =>
      if env.upgrade.NotNeeded? {
        CallsKeepInv(s, seen, env);
      } else {
        UpgradeKeepsInv(s, seen, env);
      }
    case SyncApply(delivered) => ApplyKeepsInv(s, delivered);
    case SyncWrite(delivered) => WriteKeepsInv(s, delivered);
    case Foreigners(names) => ForeignersKeepInv(s, names);
    case Create => CreateKeepsInv(s);
    case _ => OthersKeepInv(s, a);
  }

  // ----- Runs

  ghost predicate Run(states: seq<Sys>, actions: seq<Action>) {
    && |states| == |actions| + 1
    && states[0] == Initial
    && forall i :: 0 <= i < |actions| ==> Enabled(states[i], actions[i]) && states[i + 1] == Step(states[i], actions[i])
  }

  lemma {:induction false} RunKeepsInv(states: seq<Sys>, actions: seq<Action>, i: nat)
    requires Run(states, actions) && i <= |actions|
    ensures Inv(states[i])
  {
    hide Step, Enabled;
    if i > 0 {
      RunKeepsInv(states, actions, i - 1);
      StepKeepsInv(states[i - 1], actions[i - 1]);
    } else {
      assert Inv(Initial);
    }
  }

  /**
    In every run, with reads as stale as a cache that never goes back can make them: while
    solver resources may be outstanding, the stored challenge carries an ACME finalizer and is
    still being processed; so the object can only disappear after a successful clean-up.
   */
  lemma NoLeak(states: seq<Sys>, actions: seq<Action>, i: nat)
    requires Run(states, actions) && i <= |actions|
    ensures states[i].world.outstanding ==>
              && states[i].store.Some? && states[i].store.value.HasAcmeFinalizer()
              && states[i].store.value.status.processing
    ensures states[i].store.None? ==> !states[i].world.outstanding
  {
    hide Step, Enabled;
    RunKeepsInv(states, actions, i);
  }

  /** In every run, a challenge is accepted only while a successful Present stands, with no clean-up since. */
  lemma AcceptedOnlyWhenPresented(states: seq<Sys>, actions: seq<Action>, i: nat, a: Accept)
    requires Run(states, actions) && i <= |actions| && a in states[i].accepts
    ensures a.live
  {
    hide Step, Enabled;
    RunKeepsInv(states, actions, i);
  }

  /** Acceptance also means that the check has just passed. */
  lemma AcceptedOnlyWhenChecked(c: Challenge, env: Env, w: World)
    requires Calls(c, env, w).accepted
    ensures env.check && !c.Finished() && c.status.processing && DomainQualified in c.finalizers
    ensures !c.status.presented ==> env.present
  {
  }

  /** The object with identity `uid`, as long as it is stored, has state `state`. */
  ghost predicate StaysIn(s: Sys, uid: nat, state: State) {
    uid < s.clock && (s.store.Some? && s.store.value.uid == uid ==> s.store.value.status.state == state)
  }

  lemma StepStaysIn(s: Sys, a: Action, uid: nat, state: State)
    requires Inv(s) && Enabled(s, a) && StaysIn(s, uid, state) && IsFinalState(state)
    ensures StaysIn(Step(s, a), uid, state)
  {
    hide Calls, HandleError, AcceptChallenge, Guarded, Released, Presented;
    if a.SyncWrite? && s.store.Some? && s.store.value.version == s.sync.value.seen.version {
      assert Precedes(s.store.value, s.sync.value.seen);
    }
  }

  /** In every run, the final state of a challenge object never changes. */
  lemma {:induction false} FinalForever(states: seq<Sys>, actions: seq<Action>, i: nat, j: nat)
    requires Run(states, actions) && i <= j <= |actions|
    requires states[i].store.Some? && IsFinalState(states[i].store.value.status.state)
    ensures StaysIn(states[j], states[i].store.value.uid, states[i].store.value.status.state)
    decreases j
  {
    hide Step, Enabled, Guarded, Released, Presented, Flight;
    var c := states[i].store.value;
    RunKeepsInv(states, actions, i);
    if i < j {
      FinalForever(states, actions, i, j - 1);
      RunKeepsInv(states, actions, j - 1);
      StepStaysIn(states[j - 1], actions[j - 1], c.uid, c.status.state);
    }
  }

  // ----- Coming to rest

  /** No call of the Sync fails. */
  predicate FaultFree(env: Env) {
    env.upgrade.NotNeeded? && env.solver && env.cleanUp
  }

  /** No Sync is under way, and the cache may show the stored object. */
  predicate Current(s: Sys) {
    s.sync.None? && s.store.Some? && s.store.value in s.past && s.last <= s.store.value.version
  }

  /** A whole Sync of the stored object with nothing in between and no write lost. */
  function SyncAll(s: Sys, env: Env): Sys
    requires Current(s) && env.upgrade.NotNeeded?
  {
    var s1 := Step(s, SyncCalls(s.store.value, env));
    var s2 := if s1.sync.value.apply.Some? then Step(s1, SyncApply(true)) else s1;
    Step(s2, SyncWrite(true))
  }

  predicate AtRest(c: Challenge) {
    c.Finished() && !c.HasAcmeFinalizer() && !c.status.presented && !c.status.processing
  }

  lemma CleanSync(s: Sys, env: Env)
    requires Inv(s) && Current(s) && FaultFree(env) && s.store.value.Finished()
    ensures var t := SyncAll(s, env);
            && Inv(t) && t.sync.None?
            && (t.store.Some? ==> Current(t) && t.store.value.Finished() && !t.store.value.HasAcmeFinalizer())
            && !t.world.outstanding
            && (t.store.Some? && !s.store.value.HasAcmeFinalizer() ==> AtRest(t.store.value))
  {
    hide HandleError, AcceptChallenge, Inv;
    var c := s.store.value;
    SyncAllKeepsInv(s, env);
    InvFacts(s);
    InvFacts(SyncAll(s, env));
    assert !c.HasAcmeFinalizer() ==> c.finalizers - ACME == c.finalizers;
    assert Legacy !in c.finalizers - ACME && DomainQualified !in c.finalizers - ACME;
  }

  lemma InvFacts(s: Sys)
    requires Inv(s)
    ensures s.world.outstanding ==> s.store.Some? && s.store.value.HasAcmeFinalizer()
    ensures s.sync.None? && s.store.Some? ==> Current(s)
  {
  }

  lemma SyncAllKeepsInv(s: Sys, env: Env)
    requires Inv(s) && Current(s) && env.upgrade.NotNeeded?
    ensures Inv(SyncAll(s, env))
  {
    hide Inv, Calls;
    var call := SyncCalls(s.store.value, env);
    StepKeepsInv(s, call);
    var s1 := Step(s, call);
    if s1.sync.value.apply.Some? {
      StepKeepsInv(s1, SyncApply(true));
      StepKeepsInv(Step(s1, SyncApply(true)), SyncWrite(true));
    } else {
      StepKeepsInv(s1, SyncWrite(true));
    }
  }

  /**
    From any state a run can reach, a finished challenge whose clean-up succeeds is gone or at
    rest after two undisturbed Syncs, with no resources left; and at rest a Sync changes nothing.
   */
  lemma Quiesces(s: Sys, env1: Env, env2: Env)
    requires Inv(s) && Current(s) && s.store.value.Finished()
    requires FaultFree(env1) && FaultFree(env2)
    ensures var t := SyncAll(s, env1);
            && !t.world.outstanding
            && (t.store.Some? ==> Current(t))
            && (t.store.None? || (var u := SyncAll(t, env2); u.store.None? || (AtRest(u.store.value) && !u.world.outstanding)))
  {
    hide SyncAll, AtRest, Inv;
    CleanSync(s, env1);
    var t := SyncAll(s, env1);
    if t.store.Some? {
      CleanSync(t, env2);
    }
  }

  lemma RestIsStable(s: Sys, env: Env)
    requires Current(s) && env.upgrade.NotNeeded? && AtRest(s.store.value)
    ensures SyncAll(s, env) == s.(last := s.store.value.version)
  {
  }

  // ----- Getting somewhere

  /** Every call succeeds, and the authorization is still open when asked about. */
  predicate AllFine(env: Env) {
    && FaultFree(env) && env.issuer && env.client && env.present && env.check
    && env.authorization.Ok? && !env.authorization.value.Unset? && !IsFinalState(env.authorization.value)
    && AcceptFailure(env).None? && env.waited.Authorized?
  }

  /** Open and scheduled, with nothing under way. */
  ghost predicate Begun(s: Sys) {
    Inv(s) && Current(s) && !s.store.value.Finished() && s.store.value.status.processing
  }

  /** The first Sync takes hold of the Challenge. */
  lemma HoldSync(s: Sys, env: Env)
    requires Begun(s) && AllFine(env) && !HeldAlone(s.store.value)
    ensures var t := SyncAll(s, env);
            && Begun(t) && HeldAlone(t.store.value) && t.accepts == s.accepts
            && t.store.value.status == s.store.value.status && t.store.value.uid == s.store.value.uid
  {
    hide HandleError, AcceptChallenge, Inv;
    SyncAllKeepsInv(s, env);
    InvFacts(SyncAll(s, env));
    var c := s.store.value;
    assert DomainQualified in (c.finalizers - ACME) + {DomainQualified};
    assert Legacy !in (c.finalizers - ACME) + {DomainQualified};
  }

  /** The next one learns the state of the authorization. */
  lemma AskSync(s: Sys, env: Env)
    requires Begun(s) && AllFine(env) && HeldAlone(s.store.value) && s.store.value.status.state.Unset?
    ensures var t := SyncAll(s, env);
            && Begun(t) && HeldAlone(t.store.value) && t.accepts == s.accepts
            && t.store.value.status.state == env.authorization.value && t.store.value.uid == s.store.value.uid
  {
    hide HandleError, AcceptChallenge, Inv;
    SyncAllKeepsInv(s, env);
    InvFacts(SyncAll(s, env));
  }

  /** The Challenge is presented, accepted, and takes the state of its authorization. */
  ghost predicate Accepted(s: Sys, t: Sys, env: Env) {
    && s.store.Some? && t.store.Some? && t.store.value.uid == s.store.value.uid
    && t.accepts == s.accepts + [Accept(true)] && t.store.value.status.presented
    && env.waited.Authorized? && t.store.value.status.state == env.waited.state
  }

  lemma AcceptSync(s: Sys, env: Env)
    requires Begun(s) && AllFine(env) && HeldAlone(s.store.value) && !s.store.value.status.state.Unset?
    ensures Accepted(s, SyncAll(s, env), env)
  {
    hide HandleError;
    assert s.store.value.status.presented ==> s.world.live;
  }

  /** Some Sync of a sequence, each of the object as the one before left it, is the accepting one. */
  ghost predicate SolvedBy(s: Sys, envs: seq<Env>)
    decreases |envs|
  {
    && envs != [] && Current(s) && AllFine(envs[0])
    && (Accepted(s, SyncAll(s, envs[0]), envs[0]) || SolvedBy(SyncAll(s, envs[0]), envs[1..]))
  }

  /**
    From any state a run can reach: an open Challenge, once scheduled, is accepted and takes
    the state of its authorization within three Syncs in which nothing fails.
   */
  lemma Solves(s: Sys, envs: seq<Env>)
    requires Inv(s) && Current(s) && !s.store.value.Finished()
    requires |envs| == 3 && forall i :: 0 <= i < 3 ==> AllFine(envs[i])
    ensures SolvedBy(Step(s, Schedule), envs)
  {
    hide Inv, Step, SyncAll, Accepted, Begun;
    ScheduleBegins(s);
    BegunFacts(Step(s, Schedule));
    SolvesFrom(Step(s, Schedule), envs);
  }

  lemma ScheduleBegins(s: Sys)
    requires Inv(s) && Current(s) && !s.store.value.Finished()
    ensures Begun(Step(s, Schedule))
  {
    hide Inv;
    StepKeepsInv(s, Schedule);
    InvFacts(Step(s, Schedule));
  }

  /** How many Syncs are needed. */
  function Needed(c: Challenge): nat {
    1 + (if HeldAlone(c) then 0 else 1) + (if c.status.state.Unset? then 1 else 0)
  }

  lemma {:induction false} SolvesFrom(s: Sys, envs: seq<Env>)
    requires Begun(s) && Current(s) && |envs| >= Needed(s.store.value)
    requires forall i :: 0 <= i < |envs| ==> AllFine(envs[i])
    ensures SolvedBy(s, envs)
    decreases |envs|
  {
    hide Inv, SyncAll, Accepted, Begun;
    var t := SyncAll(s, envs[0]);
    BegunFacts(s);
    if !HeldAlone(s.store.value) {
      HoldSync(s, envs[0]);
      BegunFacts(t);
      SolvesFrom(t, envs[1..]);
    } else if s.store.value.status.state.Unset? {
      AskSync(s, envs[0]);
      BegunFacts(t);
      SolvesFrom(t, envs[1..]);
    } else {
      AcceptSync(s, envs[0]);
    }
  }

  lemma BegunFacts(s: Sys)
    requires Begun(s)
    ensures Current(s) && !s.store.value.Finished()
  {
  }

  // ----- A cache that goes back

  /** The stored object is the one with identity `uid`, and guards resources. */
  predicate Guards(s: Sys, uid: nat) {
    && s.store.Some? && s.store.value.uid == uid
    && s.store.value.HasAcmeFinalizer() && s.store.value.status.processing
  }

  /**
    For a read of any version, however old: what it presents is guarded by its own object
    exactly if the controller has not released that object after a clean-up. A read that does
    not go back behind the last one never presents for a released object.
   */
  lemma StaleReadExact(s: Sys, seen: Challenge, env: Env)
    requires Inv(s) && seen in s.past && Presents(seen, env)
    ensures ReadAndCall(s, seen, env).world.outstanding
    ensures Guards(ReadAndCall(s, seen, env), seen.uid) <==> seen.uid !in s.released
    ensures s.last <= seen.version ==> seen.uid !in s.released
  {
    hide HandleError, AcceptChallenge;
  }

  const AllWell := Env(NotNeeded, true, true, true, true, Ok(Pending), Transient, true, true,
                       None, None, Authorized(Valid), "")

  const Idle := World(false, false)
  const Fresh := Challenge(0, 0, Status(Unset, false, false, ""), {}, false)
  const Scheduled := Challenge(0, 1, Status(Unset, false, true, ""), {}, false)
  const Held := Challenge(0, 2, Status(Unset, false, true, ""), {DomainQualified}, false)
  const Opened := Challenge(0, 3, Status(Pending, false, true, ""), {DomainQualified}, false)
  const Dead := Challenge(0, 4, Status(Pending, false, true, ""), {DomainQualified}, true)

  function Quiet(c: Challenge, past: set<Challenge>, last: nat): Sys {
    Sys(Some(c), c.version + 1, Idle, None, [], past, last, {})
  }

  lemma EmptyRun()
    ensures Run([Initial], [])
  {
  }

  lemma Extend(states: seq<Sys>, actions: seq<Action>, a: Action, next: Sys)
    returns (states': seq<Sys>, actions': seq<Action>)
    requires Run(states, actions) && Enabled(states[|actions|], a) && next == Step(states[|actions|], a)
    ensures Run(states', actions') && states' == states + [next] && actions' == actions + [a]
  {
    hide Step, Enabled;
    return states + [next], actions + [a];
  }

  lemma HeldRun() returns (states: seq<Sys>, actions: seq<Action>)
    ensures Run(states, actions) && |states| == |actions| + 1
    ensures states[|actions|] == Quiet(Held, {Fresh, Scheduled, Held}, 1)
  {
    hide Run;
    EmptyRun();
    states, actions := [Initial], [];
    states, actions := Extend(states, actions, Create, Quiet(Fresh, {Fresh}, 0));
    var s := Quiet(Scheduled, {Fresh, Scheduled}, 0);
    states, actions := Extend(states, actions, Schedule, s);
    var f := InFlight(Scheduled, Scheduled, Some({DomainQualified}));
    states, actions := Extend(states, actions, SyncCalls(Scheduled, AllWell), s.(last := 1, sync := Some(f)));
    assert ({} - ACME) + {DomainQualified} == {DomainQualified};
    s := Quiet(Held, {Fresh, Scheduled, Held}, 1);
    states, actions := Extend(states, actions, SyncApply(true), s.(sync := Some(f.(apply := None))));
    states, actions := Extend(states, actions, SyncWrite(true), s);
  }

  /**
    A run after which a cache that goes back, behind the version read last, makes a Sync
    present with no object left to guard the resources.
   */
  lemma StaleReadLeaks() returns (states: seq<Sys>, actions: seq<Action>, seen: Challenge, env: Env)
    ensures Run(states, actions) && |states| == |actions| + 1
    ensures var s := states[|actions|];
            && s.sync.None? && seen in s.past && seen.version < s.last
            && ReadAndCall(s, seen, env).world.outstanding && ReadAndCall(s, seen, env).store.None?
  {
    hide Run;
    env, seen := AllWell, Opened;
    states, actions := HeldRun();
    var s := Quiet(Held, {Fresh, Scheduled, Held}, 1);
    var f := InFlight(Held, Opened.(version := 2), None);
    states, actions := Extend(states, actions, SyncCalls(Held, AllWell), s.(last := 2, sync := Some(f)));
    s := Quiet(Opened, {Fresh, Scheduled, Held, Opened}, 2);
    states, actions := Extend(states, actions, SyncWrite(true), s);
    s := Quiet(Dead, {Fresh, Scheduled, Held, Opened, Dead}, 2);
    states, actions := Extend(states, actions, Delete, s);
    f := InFlight(Dead, Dead, Some({}));
    states, actions := Extend(states, actions, SyncCalls(Dead, AllWell), s.(last := 4, sync := Some(f)));
    assert ({DomainQualified} - ACME) + {} == {};
    s := s.(store := None, clock := 6, last := 4, released := {0});
    states, actions := Extend(states, actions, SyncApply(true), s.(sync := Some(f.(apply := None))));
    states, actions := Extend(states, actions, SyncWrite(true), s);
  }
}
