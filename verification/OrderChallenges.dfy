/**
  The Order and Challenge controllers together: which Challenge objects an Order needs,
  which it creates and deletes, and how their set settles.
  Challenge objects are numbered by their names.
 */
module OrderChallenges {
  import opened Wrappers
  import opened Acme
  import opened Order
  import P = OrderProtocol
  import C = Challenge

  /** Picks the name of the Challenge for an authorization, if some solver can be used for it. */
  type Picker = Authz -> Option<nat>

  /** The Challenges an Order needs: one for each authorization that was not valid from the start. */
  function RequiredNames(auths: seq<Authz>, pick: Picker): Option<seq<nat>> {
    if auths == [] then Some([])
    else
      var rest := RequiredNames(auths[1..], pick);
      if auths[0].initialState.Valid? then rest
      else if pick(auths[0]).None? || rest.None? then None
      else Some([pick(auths[0]).value] + rest.value)
  }

  ghost predicate Needs(auths: seq<Authz>, pick: Picker, name: nat) {
    exists a :: a in auths && !a.initialState.Valid? && pick(a) == Some(name)
  }

  lemma {:induction false} RequiredExactly(auths: seq<Authz>, pick: Picker)
    ensures RequiredNames(auths, pick).Some? <==> forall a :: a in auths && !a.initialState.Valid? ==> pick(a).Some?
    ensures RequiredNames(auths, pick).Some? ==>
              forall name: nat :: name in RequiredNames(auths, pick).value <==> Needs(auths, pick, name)
  {
    if auths != [] {
      RequiredExactly(auths[1..], pick);
      assert auths == [auths[0]] + auths[1..];
      var r := RequiredNames(auths, pick);
      if r.Some? {
        forall name: nat
          ensures name in r.value <==> Needs(auths, pick, name)
        {
          assert Needs(auths, pick, name) <==>
                 (!auths[0].initialState.Valid? && pick(auths[0]) == Some(name)) || Needs(auths[1..], pick, name);
        }
      }
    }
  }

  lemma {:induction false} RequiredLast(auths: seq<Authz>, a: Authz, pick: Picker)
    ensures RequiredNames(auths + [a], pick) ==
            (var r := RequiredNames(auths, pick);
             if a.initialState.Valid? then r
             else if r.None? || pick(a).None? then None
             else Some(r.value + [pick(a).value]))
  {
    if auths != [] {
      assert (auths + [a])[1..] == auths[1..] + [a];
      RequiredLast(auths[1..], a, pick);
      var rest := RequiredNames(auths[1..], pick);
      if rest.Some? && pick(auths[0]).Some? && pick(a).Some? {
        var x, y := [pick(auths[0]).value], [pick(a).value];
        assert x + (rest.value + y) == (x + rest.value) + y;
      }
    } else {
      assert (auths + [a])[1..] == [];
      if pick(a).Some? {
        var x := [pick(a).value];
        assert x + [] == [] + x;
      }
    }
  }

  method BuildPartialRequiredChallenges(auths: seq<Authz>, pick: Picker) returns (r: Option<seq<nat>>)
    ensures r == RequiredNames(auths, pick)
    ensures r.Some? ==> forall name: nat :: name in r.value <==> Needs(auths, pick, name)
  {
    RequiredExactly(auths, pick);
    var names := [];
    for i := 0 to |auths|
      invariant RequiredNames(auths[..i], pick) == Some(names)
    {
      assert auths[..i + 1] == auths[..i] + [auths[i]];
      RequiredLast(auths[..i], auths[i], pick);
      if !auths[i].initialState.Valid? {
        if pick(auths[i]).None? {
          RequiredExactly(auths[..i + 1], pick);
          assert auths[i] in auths;
          return None;
        }
        names := names + [pick(auths[i]).value];
      }
    }
    assert auths[..|auths|] == auths;
    return Some(names);
  }

  // ----- The composed system

  datatype Net = Net(order: P.Sys, kids: seq<C.Sys>)

  /** Which names belong to this Order, and how names are picked. */
  datatype Config = Config(mine: set<nat>, pick: Picker)

  ghost predicate Proper(cfg: Config, size: nat) {
    forall a :: cfg.pick(a).Some? ==> cfg.pick(a).value in cfg.mine && cfg.pick(a).value < size
  }

  datatype Action =
    | OrderCalls(seen: nat, env: Env, listed: set<nat>, anyFailed: bool, allFinal: bool, done: set<nat>)
    | OrderOther(action: P.Action)
    | Kid(name: nat, kidAction: C.Action)

  /** The names an Order with these authorizations needs; empty if they cannot be determined. */
  function RequiredSet(auths: seq<Authz>, cfg: Config): set<nat> {
    var r := RequiredNames(auths, cfg.pick);
    if r.Some? then set n | n in r.value else {}
  }

  /** What a Sync makes of the names its lister shows. */
  function ViewOf(s: Status, listed: set<nat>, anyFailed: bool, allFinal: bool, cfg: Config): View {
    var required := RequiredSet(s.authorizations, cfg);
    View(RequiredNames(s.authorizations, cfg.pick).Some?, !(required <= listed), listed * cfg.mine - required != {},
         anyFailed, allFinal)
  }

  /** The names a Sync sets out to create or delete. */
  function Created(s: Status, intent: Intent, cfg: Config): set<nat> {
    if intent.CreateRequired? then RequiredSet(s.authorizations, cfg) else {}
  }

  function Deleted(s: Status, intent: Intent, listed: set<nat>, cfg: Config): set<nat> {
    match intent
    case DeleteLeftover => listed * cfg.mine - RequiredSet(s.authorizations, cfg)
    case DeleteAll => listed * cfg.mine
    case _ => {}
  }

  function CreateKid(k: C.Sys): C.Sys {
    if k.store.None? then C.Step(k, C.Create) else k
  }

  function DeleteKid(k: C.Sys): C.Sys {
    if k.store.Some? then C.Step(k, C.Delete) else k
  }

  function Touched(kids: seq<C.Sys>, created: set<nat>, deleted: set<nat>): (r: seq<C.Sys>)
    ensures |r| == |kids|
  {
    seq(|kids|, i requires 0 <= i < |kids| =>
      if i in created then CreateKid(kids[i]) else if i in deleted then DeleteKid(kids[i]) else kids[i])
  }

  function IntentOf(net: Net, a: Action, cfg: Config): Intent
    requires a.OrderCalls? && a.seen < |net.order.history|
  {
    var s := net.order.history[a.seen];
    SyncOrder(s, net.order.server, net.order.nextOrder, a.env, ViewOf(s, a.listed, a.anyFailed, a.allFinal, cfg)).intent
  }

  ghost predicate Enabled(net: Net, a: Action) {
    match a
    case OrderCalls(seen, env, _, _, _, _) => net.order.sync.None? && seen < |net.order.history| && Honest(env)
    case OrderOther(action) => !action.SyncCalls? && P.Enabled(net.order, action)
    case Kid(name, kidAction) => name < |net.kids| && C.Enabled(net.kids[name], kidAction)
  }

  /** A Sync carries out only the part `done` of what it set out to do, if calls fail. */
  function Step(net: Net, a: Action, cfg: Config): Net
    requires net.order.history != []
    requires a.OrderCalls? ==> a.seen < |net.order.history|
    requires a.OrderOther? ==> !a.action.SyncCalls?
    requires a.OrderOther? && a.action.SyncWrite? ==>
               net.order.sync.Some? && net.order.sync.value.seen < |net.order.history|
    requires a.OrderOther? && a.action.Move? ==> a.action.order in net.order.server
    requires a.Kid? ==> a.name < |net.kids| && C.Enabled(net.kids[a.name], a.kidAction)
  {
    match a
    case OrderCalls(seen, env, listed, anyFailed, allFinal, done) =>
      var s := net.order.history[seen];
      var intent := IntentOf(net, a, cfg);
      Net(P.Step(net.order, P.SyncCalls(seen, env, ViewOf(s, listed, anyFailed, allFinal, cfg))),
          Touched(net.kids, Created(s, intent, cfg) * done, Deleted(s, intent, listed, cfg) * done))
    case OrderOther(action) => net.(order := P.Step(net.order, action))
    case Kid(name, kidAction) => net.(kids := net.kids[name := C.Step(net.kids[name], kidAction)])
  }

  ghost predicate Inv(net: Net) {
    P.Inv(net.order) && forall i :: 0 <= i < |net.kids| ==> C.Inv(net.kids[i])
  }

  lemma StepKeepsInv(net: Net, a: Action, cfg: Config)
    requires Inv(net) && Enabled(net, a)
    ensures Inv(Step(net, a, cfg)) && |Step(net, a, cfg).kids| == |net.kids|
  {
    hide P.Inv, C.Inv, SyncOrder, C.Step, P.Step;
    assert net.order.history != [] by { NonEmptyHistory(net.order); }
    match a
    case OrderCalls(seen, env, listed, anyFailed, allFinal, done) =>
      var view := ViewOf(net.order.history[seen], listed, anyFailed, allFinal, cfg);
      P.StepKeepsInv(net.order, P.SyncCalls(seen, env, view));
      forall i | 0 <= i < |net.kids|
        ensures C.Inv(CreateKid(net.kids[i])) && C.Inv(DeleteKid(net.kids[i]))
      {
        TouchKeepsInv(net.kids[i]);
      }
    case OrderOther(action) => P.StepKeepsInv(net.order, action);
    case Kid(name, kidAction) => C.StepKeepsInv(net.kids[name], kidAction);
  }

  lemma NonEmptyHistory(s: P.Sys)
    requires P.Inv(s)
    ensures s.history != []
  {
  }

  lemma TouchKeepsInv(k: C.Sys)
    requires C.Inv(k)
    ensures C.Inv(CreateKid(k)) && C.Inv(DeleteKid(k))
  {
    hide C.Inv, C.Step;
    if k.store.None? {
      C.StepKeepsInv(k, C.Create);
    } else {
      C.StepKeepsInv(k, C.Delete);
    }
  }

  // ----- Only what is not needed is ever deleted

  ghost predicate Run(nets: seq<Net>, actions: seq<Action>, cfg: Config) {
    && |nets| == |actions| + 1
    && nets[0].order == P.Initial && (forall i :: 0 <= i < |nets[0].kids| ==> nets[0].kids[i] == C.Initial)
    && (forall i :: 0 <= i < |nets| ==> nets[i].order.history != [])
    && forall i :: 0 <= i < |actions| ==> Enabled(nets[i], actions[i]) && nets[i + 1] == Step(nets[i], actions[i], cfg)
  }

  lemma {:induction false} RunKeepsInv(nets: seq<Net>, actions: seq<Action>, cfg: Config, i: nat)
    requires Run(nets, actions, cfg) && i <= |actions|
    ensures Inv(nets[i])
  {
    hide Step, P.Inv, C.Inv;
    if i > 0 {
      RunKeepsInv(nets, actions, cfg, i - 1);
      StepKeepsInv(nets[i - 1], actions[i - 1], cfg);
    } else {
      assert P.Inv(P.Initial) by { InitialInv(); }
      assert C.Inv(C.Initial) by { InitialInv(); }
    }
  }

  lemma InitialInv()
    ensures P.Inv(P.Initial) && C.Inv(C.Initial)
  {
  }

  lemma IntentMeans(s: Status, server: Server, nextOrder: nat, env: Env, view: View)
    ensures var o := SyncOrder(s, server, nextOrder, env, view);
            && (o.intent.DeleteLeftover? ==> s.url.Some? && !MissingMetadata(s) && view.buildable && !view.missing)
            && (o.intent.DeleteAll? ==> P.Complete(s))
            && (o.intent != Nothing ==> o.status == s && o.server == server && o.nextOrder == nextOrder)
  {
    hide MissingMetadata;
  }

  /**
    In every run, with any caches, stale reads and failing calls: a Sync deletes only
    Challenges of its own Order, and before that Order is valid with a certificate it never
    deletes one that the Order needs.
   */
  lemma OnlyUnneededDeleted(nets: seq<Net>, actions: seq<Action>, cfg: Config, i: nat, name: nat)
    requires Run(nets, actions, cfg) && i < |actions| && actions[i].OrderCalls?
    requires actions[i].seen < |nets[i].order.history|
    requires name in Deleted(nets[i].order.history[actions[i].seen], IntentOf(nets[i], actions[i], cfg),
                             actions[i].listed, cfg)
    ensures name in cfg.mine
    ensures P.Complete(nets[i].order.Current()) || !Needs(nets[i].order.Current().authorizations, cfg.pick, name)
  {
    hide Step, C.Inv, SyncOrder, MissingMetadata, Truthful, Follows;
    RunKeepsInv(nets, actions, cfg, i);
    var a, h := actions[i], nets[i].order.history;
    var s := h[a.seen];
    var view := ViewOf(s, a.listed, a.anyFailed, a.allFinal, cfg);
    IntentMeans(s, nets[i].order.server, nets[i].order.nextOrder, a.env, view);
    if IntentOf(nets[i], a, cfg).DeleteLeftover? {
      P.UrlStays(h, a.seen, |h| - 1);
      RequiredExactly(s.authorizations, cfg.pick);
    } else {
      CompleteStays(h, a.seen, |h| - 1);
    }
  }

  lemma CompleteStays(h: seq<Status>, i: nat, j: nat)
    requires P.Monotone(h) && i <= j < |h| && P.Complete(h[i])
    ensures h[j] == h[i]
  {
    assert Follows(h[i], h[j]);
  }

  // ----- The Challenges settle on exactly the required ones

  /** A name costs what is still to be done about it: create, or delete and clean up, or both. */
  function Weight(k: C.Sys, mine: bool, required: bool): nat {
    if !mine then 0
    else match k.store
      case None => if required then 1 else 0
      case Some(c) => if required then (if c.deleting then 2 else 0) else if c.deleting then 1 else 2
  }

  function Measure(kids: seq<C.Sys>, i: nat, mine: set<nat>, required: set<nat>): nat
    requires i <= |kids|
    decreases |kids| - i
  {
    if i == |kids| then 0 else Weight(kids[i], i in mine, i in required) + Measure(kids, i + 1, mine, required)
  }

  lemma {:induction false} MeasureDrops(a: seq<C.Sys>, b: seq<C.Sys>, i: nat, mine: set<nat>, required: set<nat>)
    requires |a| == |b| && i <= |a|
    requires forall j :: i <= j < |a| ==> Weight(b[j], j in mine, j in required) <= Weight(a[j], j in mine, j in required)
    ensures Measure(b, i, mine, required) <= Measure(a, i, mine, required)
    ensures (exists j :: i <= j < |a| && Weight(b[j], j in mine, j in required) < Weight(a[j], j in mine, j in required))
              ==> Measure(b, i, mine, required) < Measure(a, i, mine, required)
    decreases |a| - i
  {
    hide Weight;
    if i < |a| {
      MeasureDrops(a, b, i + 1, mine, required);
    }
  }

  lemma {:induction false} MeasureZero(kids: seq<C.Sys>, i: nat, mine: set<nat>, required: set<nat>)
    requires i <= |kids|
    ensures Measure(kids, i, mine, required) == 0 <==>
            forall j :: i <= j < |kids| ==> Weight(kids[j], j in mine, j in required) == 0
    decreases |kids| - i
  {
    hide Weight;
    if i < |kids| {
      MeasureZero(kids, i + 1, mine, required);
    }
  }

  function Names(kids: seq<C.Sys>): set<nat> {
    set i | 0 <= i < |kids| && kids[i].store.Some?
  }

  /** The setting: an open Order with complete metadata, idle controllers, no foreign finalizers. */
  ghost predicate Ready(net: Net, cfg: Config) {
    && Inv(net) && Proper(cfg, |net.kids|) && net.order.history != [] && net.order.sync.None?
    && (var c := net.order.Current();
        && c.url.Some? && !IsFailureState(c.state) && !c.state.Valid? && !MissingMetadata(c)
        && RequiredNames(c.authorizations, cfg.pick).Some?)
    && forall i :: 0 <= i < |net.kids| ==> net.kids[i].sync.None? && Own(net.kids[i])
  }

  predicate Own(k: C.Sys) { k.store.Some? ==> k.store.value.finalizers <= C.ACME }

  function Required(net: Net, cfg: Config): set<nat>
    requires net.order.history != []
  {
    RequiredSet(net.order.Current().authorizations, cfg)
  }

  function Cost(net: Net, cfg: Config): nat
    requires net.order.history != []
  {
    Measure(net.kids, 0, cfg.mine, Required(net, cfg))
  }

  /** What a whole Sync of the Order, with a current cache and no failing call, does to the Challenges. */
  function OrderMove(net: Net, cfg: Config): Net
    requires net.order.history != []
  {
    var c, listed := net.order.Current(), Names(net.kids);
    var required := Required(net, cfg);
    if !(required <= listed) then net.(kids := Touched(net.kids, required, {}))
    else net.(kids := Touched(net.kids, {}, listed * cfg.mine - required))
  }

  /** Some required Challenge is missing, or one of the Order's is not required. */
  predicate Unmatched(net: Net, cfg: Config)
    requires net.order.history != []
  {
    var listed := Names(net.kids);
    !(Required(net, cfg) <= listed) || listed * cfg.mine - Required(net, cfg) != {}
  }

  /** A whole Sync of the Order: the composed step, with a current cache, and its write. */
  function OrderSyncAll(net: Net, env: Env, anyFailed: bool, allFinal: bool, cfg: Config): (r: Net)
    requires net.order.history != []
    ensures r.order.history != []
  {
    var listed := Names(net.kids);
    var a := OrderCalls(|net.order.history| - 1, env, listed, anyFailed, allFinal, Required(net, cfg) + listed);
    Step(Step(net, a, cfg), OrderOther(P.SyncWrite(true)), cfg)
  }

  predicate Fine(env: Env) { env.issuer && env.client && env.keys }

  /** While Challenges are missing or left over, that is what the Sync does. */
  lemma OrderMoveIsSync(net: Net, cfg: Config, env: Env, anyFailed: bool, allFinal: bool)
    requires Ready(net, cfg) && Fine(env) && Unmatched(net, cfg)
    ensures OrderSyncAll(net, env, anyFailed, allFinal, cfg) == OrderMove(net, cfg)
  {
    hide MissingMetadata, P.Inv, C.Inv, P.Step, SyncOrder, Touched, Names, RequiredSet;
    var c, listed := net.order.Current(), Names(net.kids);
    var required := Required(net, cfg);
    var view := ViewOf(c, listed, anyFailed, allFinal, cfg);
    FinalizeKnown(net.order);
    OutcomeOf(c, net.order.server, net.order.nextOrder, env, view);
    QuietSync(net.order, env, view);
    assert required * (required + listed) == required;
    assert (listed * cfg.mine - required) * (required + listed) == listed * cfg.mine - required;
    assert {} * (required + listed) == {};
  }

  /** Otherwise it leaves all Challenges alone. */
  lemma MatchedIsLeftAlone(net: Net, cfg: Config, env: Env, anyFailed: bool, allFinal: bool)
    requires Ready(net, cfg) && !Unmatched(net, cfg)
    ensures OrderSyncAll(net, env, anyFailed, allFinal, cfg).kids == net.kids
  {
    hide MissingMetadata, P.Inv, C.Inv, P.Step, SyncOrder, Names, RequiredSet;
    var c, listed := net.order.Current(), Names(net.kids);
    var view := ViewOf(c, listed, anyFailed, allFinal, cfg);
    assert SyncOrder(c, net.order.server, net.order.nextOrder, env, view).intent == Nothing by {
      NothingToDo(c, net.order.server, net.order.nextOrder, env, view);
    }
  }

  lemma NothingToDo(s: Status, server: Server, nextOrder: nat, env: Env, view: View)
    requires !view.missing && !view.leftover && !s.state.Valid?
    ensures SyncOrder(s, server, nextOrder, env, view).intent == Nothing
  {
    hide MissingMetadata;
  }

  /** For the Order itself the Sync is the one of its own protocol. */
  lemma OrderPart(net: Net, cfg: Config, env: Env, anyFailed: bool, allFinal: bool)
    requires net.order.history != []
    ensures OrderSyncAll(net, env, anyFailed, allFinal, cfg).order ==
            P.SyncAll(net.order, env, ViewOf(net.order.Current(), Names(net.kids), anyFailed, allFinal, cfg))
  {
    hide SyncOrder, Names, RequiredSet;
  }

  /** A Sync of an Order with complete metadata keeps what it needs. */
  lemma SyncKeepsNeeds(s: P.Sys, env: Env, view: View)
    requires P.Inv(s) && s.sync.None? && Honest(env) && s.Current().url.Some? && !MissingMetadata(s.Current())
    ensures var t := P.SyncAll(s, env, view);
            && P.Inv(t) && t.sync.None? && t.Current().url.Some? && !MissingMetadata(t.Current())
            && t.Current().authorizations == s.Current().authorizations
  {
    hide SyncOrder, Truthful, MissingMetadata;
    P.SyncAllKeepsInv(s, env, view);
    var h := P.SyncAll(s, env, view).history;
    assert s.history <= h;
    P.UrlStays(h, |s.history| - 1, |h| - 1);
  }

  /** A Sync that leaves the status alone and asks nothing of the server leaves the Order as it was. */
  lemma QuietSync(s: P.Sys, env: Env, view: View)
    requires s.history != [] && s.sync.None?
    requires var o := SyncOrder(s.Current(), s.server, s.nextOrder, env, view);
             o == Outcome(s.Current(), s.server, s.nextOrder, o.intent, {})
    ensures var called := P.Step(s, P.SyncCalls(|s.history| - 1, env, view));
            && called.history == s.history && called.sync.Some? && called.sync.value.seen == |s.history| - 1
            && P.Step(called, P.SyncWrite(true)) == s
  {
    hide SyncOrder;
    assert s.requested + {} == s.requested;
  }

  lemma OutcomeOf(s: Status, server: Server, nextOrder: nat, env: Env, view: View)
    requires env.issuer && env.client && env.keys && view.buildable && (view.missing || view.leftover)
    requires s.url.Some? && s.finalizeURL == s.url && !IsFailureState(s.state) && !s.state.Valid? && !MissingMetadata(s)
    ensures SyncOrder(s, server, nextOrder, env, view) ==
            Outcome(s, server, nextOrder, if view.missing then CreateRequired else DeleteLeftover, {})
  {
    hide MissingMetadata;
  }

  lemma FinalizeKnown(s: P.Sys)
    requires P.Inv(s)
    ensures s.Current().finalizeURL == s.Current().url
  {
    assert Truthful(s.Current(), s.server);
  }

  lemma TouchedWeights(k: C.Sys)
    requires C.Inv(k) && Own(k)
    ensures Own(CreateKid(k)) && Own(DeleteKid(k)) && CreateKid(k).sync == k.sync && DeleteKid(k).sync == k.sync
    ensures k.store.None? ==> CreateKid(k).store.Some? && !CreateKid(k).store.value.deleting
    ensures k.store.Some? ==> CreateKid(k) == k
    ensures k.store.Some? && !k.store.value.deleting ==>
              DeleteKid(k).store.None? || DeleteKid(k).store.value.deleting
    ensures k.store.Some? && k.store.value.deleting ==> DeleteKid(k) == k
  {
  }

  lemma RequiredMine(net: Net, cfg: Config, m: nat)
    requires net.order.history != [] && Proper(cfg, |net.kids|) && m in Required(net, cfg)
    ensures m < |net.kids| && m in cfg.mine
  {
    RequiredExactly(net.order.Current().authorizations, cfg.pick);
  }

  /** A deleted Challenge without foreign finalizers is gone after one Sync without faults. */
  lemma KidGone(k: C.Sys, env: C.Env)
    requires C.Inv(k) && Own(k) && C.Current(k) && k.store.value.deleting && C.FaultFree(env)
    ensures C.SyncAll(k, env).store.None? && C.SyncAll(k, env).sync.None? && C.Inv(C.SyncAll(k, env))
  {
    hide C.Ordered, C.Guarded, C.Released, C.Presented, C.Precedes;
    C.SyncAllKeepsInv(k, env);
    var c := k.store.value;
    assert c.HasAcmeFinalizer() by {
      assert c.finalizers != {} by { DeletingHeld(k); }
      var f :| f in c.finalizers;
      assert f in C.ACME;
    }
    assert (c.finalizers - C.ACME) + {} == {};
  }

  lemma DeletingHeld(k: C.Sys)
    requires C.Inv(k) && k.store.Some? && k.store.value.deleting
    ensures k.store.value.finalizers != {}
  {
  }

  /** A Challenge that is not being deleted is still there after it. */
  lemma KidStays(k: C.Sys, env: C.Env)
    requires C.Inv(k) && Own(k) && C.Current(k) && !k.store.value.deleting && C.FaultFree(env)
    ensures var t := C.SyncAll(k, env);
            C.Inv(t) && t.sync.None? && t.store.Some? && !t.store.value.deleting && Own(t)
  {
    hide C.Inv, C.HandleError, C.AcceptChallenge;
    C.SyncAllKeepsInv(k, env);
  }

  /** The fault-free Sync of one Challenge. */
  function KidMove(net: Net, i: nat, env: C.Env): Net
    requires i < |net.kids| && C.Current(net.kids[i]) && env.upgrade.NotNeeded?
  {
    net.(kids := net.kids[i := C.SyncAll(net.kids[i], env)])
  }

  // ----- Schedules of fault-free Syncs

  datatype Move = ByOrder(env: Env, anyFailed: bool, allFinal: bool) | ByKid(name: nat, kidEnv: C.Env)

  ghost predicate CanMove(net: Net, m: Move) {
    && net.order.history != []
    && match m
       case ByOrder(env, _, _) => Fine(env) && Honest(env)
       case ByKid(i, kidEnv) => i < |net.kids| && C.Current(net.kids[i]) && C.FaultFree(kidEnv)
  }

  function Moved(net: Net, m: Move, cfg: Config): (r: Net)
    requires net.order.history != []
    requires m.ByKid? ==> m.name < |net.kids| && C.Current(net.kids[m.name]) && m.kidEnv.upgrade.NotNeeded?
    ensures r.order.history != []
  {
    match m
    case ByOrder(env, anyFailed, allFinal) => OrderSyncAll(net, env, anyFailed, allFinal, cfg)
    case ByKid(i, kidEnv) => KidMove(net, i, kidEnv)
  }

  ghost predicate Schedule(nets: seq<Net>, moves: seq<Move>, cfg: Config) {
    && |nets| == |moves| + 1
    && nets[0].order.history != []
    && forall i :: 0 <= i < |moves| ==> CanMove(nets[i], moves[i]) && nets[i + 1] == Moved(nets[i], moves[i], cfg)
  }

  /** The Order has failed or become valid, so that its Challenges are no longer what it waits for. */
  predicate Closed(net: Net)
    requires net.order.history != []
  {
    IsFailureState(net.order.Current().state) || net.order.Current().state.Valid?
  }

  function WeightOf(net: Net, cfg: Config, i: nat): nat
    requires net.order.history != [] && i < |net.kids|
  {
    Weight(net.kids[i], i in cfg.mine, i in Required(net, cfg))
  }

  predicate Deleting(k: C.Sys) { k.store.Some? && k.store.value.deleting }

  /** No weight is greater in `n`, and what the two Orders need is the same. */
  ghost predicate Falls(net: Net, n: Net, cfg: Config) {
    && net.order.history != [] && n.order.history != [] && |n.kids| == |net.kids|
    && Required(n, cfg) == Required(net, cfg)
    && forall i :: 0 <= i < |net.kids| ==> WeightOf(n, cfg, i) <= WeightOf(net, cfg, i)
  }

  ghost predicate Level(net: Net, n: Net, cfg: Config)
    requires Falls(net, n, cfg)
  {
    forall i :: 0 <= i < |net.kids| ==> WeightOf(n, cfg, i) == WeightOf(net, cfg, i)
  }

  /** All that is left to do is in the hands of Challenges on their way out. */
  ghost predicate OnlyDeleting(net: Net, cfg: Config)
    requires net.order.history != []
  {
    forall i :: 0 <= i < |net.kids| && WeightOf(net, cfg, i) > 0 ==> Deleting(net.kids[i])
  }

  lemma OrderMoveFalls(net: Net, cfg: Config)
    requires Ready(net, cfg)
    ensures var n := OrderMove(net, cfg);
            && Ready(n, cfg) && n.order == net.order && Falls(net, n, cfg)
            && (Level(net, n, cfg) ==> OnlyDeleting(net, cfg))
  {
    hide MissingMetadata, P.Inv, C.Inv, C.Step, CreateKid, DeleteKid, RequiredSet;
    var n := OrderMove(net, cfg);
    var required, listed := Required(net, cfg), Names(net.kids);
    forall i | 0 <= i < |net.kids|
      ensures C.Inv(n.kids[i]) && Own(n.kids[i]) && n.kids[i].sync.None?
      ensures WeightOf(n, cfg, i) <= WeightOf(net, cfg, i)
    {
      TouchKeepsInv(net.kids[i]);
      TouchedWeights(net.kids[i]);
    }
    if m :| m in required && m !in listed {
      RequiredMine(net, cfg, m);
      TouchedWeights(net.kids[m]);
      assert WeightOf(n, cfg, m) < WeightOf(net, cfg, m);
    }
    if Level(net, n, cfg) {
      assert required <= listed;
      forall i | 0 <= i < |net.kids| && WeightOf(net, cfg, i) > 0
        ensures Deleting(net.kids[i])
      {
        TouchedWeights(net.kids[i]);
        assert WeightOf(n, cfg, i) == WeightOf(net, cfg, i);
      }
    }
  }

  lemma MatchedMeans(net: Net, cfg: Config)
    requires net.order.history != [] && !Unmatched(net, cfg)
    ensures OnlyDeleting(net, cfg)
  {
    hide RequiredSet;
    forall i | 0 <= i < |net.kids| && WeightOf(net, cfg, i) > 0
      ensures Deleting(net.kids[i])
    {
      if net.kids[i].store.Some? {
        assert i in Names(net.kids);
        assert i !in Names(net.kids) * cfg.mine - Required(net, cfg);
      }
    }
  }

  /** A fault-free Sync of the Order, whether or not it has to do with Challenges. */
  lemma OrderSyncFalls(net: Net, cfg: Config, env: Env, anyFailed: bool, allFinal: bool)
    requires Ready(net, cfg) && Fine(env) && Honest(env)
    ensures var n := OrderSyncAll(net, env, anyFailed, allFinal, cfg);
            && Falls(net, n, cfg) && (Level(net, n, cfg) ==> OnlyDeleting(net, cfg))
            && (Closed(n) || Ready(n, cfg))
  {
    hide MissingMetadata, P.Inv, C.Inv, OrderSyncAll, OrderMove, Unmatched, Names, P.SyncAll, OnlyDeleting, Weight,
      RequiredNames;
    if Unmatched(net, cfg) {
      OrderMoveIsSync(net, cfg, env, anyFailed, allFinal);
      OrderMoveFalls(net, cfg);
    } else {
      MatchedIsLeftAlone(net, cfg, env, anyFailed, allFinal);
      MatchedMeans(net, cfg);
      OrderPart(net, cfg, env, anyFailed, allFinal);
      SyncKeepsNeeds(net.order, env, ViewOf(net.order.Current(), Names(net.kids), anyFailed, allFinal, cfg));
    }
  }

  /** A fault-free Sync of a Challenge lowers its weight if it is on its way out, and else keeps it. */
  lemma KidMoveFalls(net: Net, cfg: Config, i: nat, env: C.Env)
    requires Ready(net, cfg) && i < |net.kids| && C.Current(net.kids[i]) && C.FaultFree(env)
    ensures var n := KidMove(net, i, env);
            && Ready(n, cfg) && n.order == net.order && Falls(net, n, cfg)
            && (if Deleting(net.kids[i]) && i in cfg.mine then WeightOf(n, cfg, i) < WeightOf(net, cfg, i)
                else Level(net, n, cfg))
  {
    hide MissingMetadata, P.Inv, C.Inv, C.SyncAll, RequiredSet, RequiredNames;
    if Deleting(net.kids[i]) {
      KidGone(net.kids[i], env);
    } else {
      KidStays(net.kids[i], env);
    }
  }

  lemma MoveFalls(net: Net, m: Move, cfg: Config)
    requires Ready(net, cfg) && CanMove(net, m) && !Closed(Moved(net, m, cfg))
    ensures var n := Moved(net, m, cfg);
            && Ready(n, cfg) && Falls(net, n, cfg)
            && (m.ByOrder? && Level(net, n, cfg) ==> OnlyDeleting(net, cfg))
            && (m.ByKid? && Deleting(net.kids[m.name]) && m.name in cfg.mine ==> !Level(net, n, cfg))
  {
    hide Ready, OrderSyncAll, KidMove, Falls, Level, OnlyDeleting, WeightOf, C.Current, C.FaultFree;
    match m
    case ByOrder(env, anyFailed, allFinal) => OrderSyncFalls(net, cfg, env, anyFailed, allFinal);
    case ByKid(i, env) => KidMoveLevels(net, cfg, i, env);
  }

  lemma KidMoveLevels(net: Net, cfg: Config, i: nat, env: C.Env)
    requires Ready(net, cfg) && i < |net.kids| && C.Current(net.kids[i]) && C.FaultFree(env)
    ensures var n := KidMove(net, i, env);
            && Ready(n, cfg) && Falls(net, n, cfg)
            && (Deleting(net.kids[i]) && i in cfg.mine ==> !Level(net, n, cfg))
  {
    hide Ready, KidMove, WeightOf, C.Current, C.FaultFree;
    KidMoveFalls(net, cfg, i, env);
  }

  lemma CostFalls(net: Net, n: Net, cfg: Config)
    requires Falls(net, n, cfg)
    ensures Cost(n, cfg) <= Cost(net, cfg)
    ensures Cost(n, cfg) == Cost(net, cfg) <==> Level(net, n, cfg)
  {
    hide Weight, RequiredSet;
    var required := Required(net, cfg);
    assert forall j :: 0 <= j < |net.kids| ==>
        WeightOf(n, cfg, j) == Weight(n.kids[j], j in cfg.mine, j in required) &&
        WeightOf(net, cfg, j) == Weight(net.kids[j], j in cfg.mine, j in required);
    MeasureDrops(net.kids, n.kids, 0, cfg.mine, required);
    if Level(net, n, cfg) {
      MeasureDrops(n.kids, net.kids, 0, cfg.mine, required);
    }
  }

  lemma OrderMoveDrops(net: Net, cfg: Config)
    requires Ready(net, cfg)
    ensures var n := OrderMove(net, cfg);
            && Ready(n, cfg) && n.order == net.order && Cost(n, cfg) <= Cost(net, cfg)
            && (Cost(n, cfg) == Cost(net, cfg) ==> OnlyDeleting(net, cfg))
  {
    hide Ready, OrderMove, Falls, Level, Cost, OnlyDeleting;
    ReadyFacts(net, cfg);
    OrderMoveFalls(net, cfg);
    CostFalls(net, OrderMove(net, cfg), cfg);
  }

  lemma KidMoveDrops(net: Net, cfg: Config, i: nat, env: C.Env)
    requires Ready(net, cfg) && i < |net.kids| && C.Current(net.kids[i]) && C.FaultFree(env)
    ensures var n := KidMove(net, i, env);
            && Ready(n, cfg) && n.order == net.order
            && (if Deleting(net.kids[i]) && i in cfg.mine then Cost(n, cfg) < Cost(net, cfg)
                else Cost(n, cfg) == Cost(net, cfg))
  {
    hide Ready, KidMove, Cost, C.Current, WeightOf;
    ReadyFacts(net, cfg);
    KidMoveFalls(net, cfg, i, env);
    CostFalls(net, KidMove(net, i, env), cfg);
  }

  /** The Order's Challenges are exactly the required ones, and none of them is on its way out. */
  ghost predicate Settled(net: Net, cfg: Config)
    requires net.order.history != []
  {
    && Names(net.kids) * cfg.mine == Required(net, cfg)
    && forall i :: i in Required(net, cfg) ==>
         i < |net.kids| && net.kids[i].store.Some? && !net.kids[i].store.value.deleting
  }

  lemma ZeroIsSettled(net: Net, cfg: Config)
    requires Ready(net, cfg)
    ensures Cost(net, cfg) == 0 <==> Settled(net, cfg)
  {
    hide MissingMetadata, P.Inv, C.Inv, RequiredSet;
    var required := Required(net, cfg);
    MeasureZero(net.kids, 0, cfg.mine, required);
    forall m | m in required
      ensures m < |net.kids| && m in cfg.mine
    {
      RequiredMine(net, cfg, m);
    }
    if Cost(net, cfg) == 0 {
      forall i: nat
        ensures i in Names(net.kids) * cfg.mine <==> i in required
      {
        if i < |net.kids| {
          assert Weight(net.kids[i], i in cfg.mine, i in required) == 0;
        }
      }
    }
    if Settled(net, cfg) {
      forall i | 0 <= i < |net.kids|
        ensures Weight(net.kids[i], i in cfg.mine, i in required) == 0
      {
        assert i in Names(net.kids) * cfg.mine <==> i in required;
      }
    }
  }

  // ----- When the Order is complete

  /** A Sync of a complete Order deletes all Challenges of that Order, and touches no other. */
  lemma CompleteCleansUp(net: Net, cfg: Config, env: Env, anyFailed: bool, allFinal: bool)
    requires Inv(net) && net.order.history != [] && net.order.sync.None? && P.Complete(net.order.Current()) && Fine(env)
    ensures var n := OrderSyncAll(net, env, anyFailed, allFinal, cfg);
            && n.order == net.order && |n.kids| == |net.kids|
            && forall i :: 0 <= i < |net.kids| ==>
                 if i in cfg.mine then n.kids[i].store.None? || Deleting(n.kids[i]) else n.kids[i] == net.kids[i]
  {
    hide MissingMetadata, P.Inv, C.Inv, P.Step, SyncOrder, RequiredSet, Touched, Names, Truthful;
    var c, listed := net.order.Current(), Names(net.kids);
    var view := ViewOf(c, listed, anyFailed, allFinal, cfg);
    CompleteFacts(net.order);
    IntentExactly(c, net.order.server, net.order.nextOrder, env, view);
    QuietSync(net.order, env, view);
    assert {} * (Required(net, cfg) + listed) == {};
    assert (listed * cfg.mine) * (Required(net, cfg) + listed) == listed * cfg.mine;
    AllDeleted(net.kids, cfg.mine);
  }

  lemma AllDeleted(kids: seq<C.Sys>, mine: set<nat>)
    ensures var r := Touched(kids, {}, Names(kids) * mine);
            forall i :: 0 <= i < |kids| ==>
              if i in mine then r[i].store.None? || Deleting(r[i]) else r[i] == kids[i]
  {
    hide DeleteKid, CreateKid;
    forall i | 0 <= i < |kids|
      ensures DeleteKid(kids[i]).store.None? || Deleting(DeleteKid(kids[i]))
    {
      DeleteDeletes(kids[i]);
    }
  }

  lemma CompleteFacts(s: P.Sys)
    requires P.Inv(s) && P.Complete(s.Current())
    ensures Truthful(s.Current(), s.server) && s.Current().url.Some? && !MissingMetadata(s.Current())
  {
    hide MissingMetadata;
    assert Truthful(s.Current(), s.server);
  }

  lemma DeleteDeletes(k: C.Sys)
    ensures DeleteKid(k).store.None? || Deleting(DeleteKid(k))
  {
  }

  // ----- Every fair schedule settles

  /** As long as the Order is not closed, a schedule keeps the setting, and weights only fall. */
  lemma {:induction false} ScheduleFalls(nets: seq<Net>, moves: seq<Move>, cfg: Config, a: nat, b: nat)
    requires Schedule(nets, moves, cfg) && a <= b <= |moves| && Ready(nets[a], cfg)
    requires forall i :: a <= i <= b ==> nets[i].order.history != [] && !Closed(nets[i])
    ensures Ready(nets[b], cfg) && Falls(nets[a], nets[b], cfg)
    decreases b
  {
    hide Ready, Closed, Moved, C.Current, Honest, Fine;
    if a == b {
      FallsItself(nets[a], cfg);
    } else {
      ScheduleFalls(nets, moves, cfg, a, b - 1);
      assert nets[b - 1 + 1] == Moved(nets[b - 1], moves[b - 1], cfg);
      MoveFalls(nets[b - 1], moves[b - 1], cfg);
    }
  }

  /** Every net of a schedule has an Order. */
  lemma HasOrder(nets: seq<Net>, moves: seq<Move>, cfg: Config, i: nat)
    requires Schedule(nets, moves, cfg) && i <= |moves|
    ensures nets[i].order.history != []
  {
    hide Moved, C.Current, Honest, Fine;
    if i > 0 {
      assert nets[i] == Moved(nets[i - 1], moves[i - 1], cfg);
    }
  }

  /** From `a` to `b`, the Order gets a turn, and so does each of its Challenges then on its way out. */
  ghost predicate Round(nets: seq<Net>, moves: seq<Move>, cfg: Config, a: nat, b: nat)
    requires a <= b <= |moves| < |nets|
  {
    && (exists t :: a <= t < b && moves[t].ByOrder?)
    && forall j :: 0 <= j < |nets[a].kids| && j in cfg.mine && Deleting(nets[a].kids[j]) ==> Turn(moves, a, b, j)
  }

  ghost predicate Turn(moves: seq<Move>, a: nat, b: nat, j: nat)
    requires a <= b <= |moves|
  {
    exists u :: a <= u < b && moves[u].ByKid? && moves[u].name == j
  }

  /** A weight says whether a Challenge is on its way out. */
  lemma SameWeight(net: Net, n: Net, cfg: Config, i: nat)
    requires Falls(net, n, cfg) && i < |net.kids| && WeightOf(n, cfg, i) == WeightOf(net, cfg, i) > 0
    ensures Deleting(n.kids[i]) <==> Deleting(net.kids[i])
    ensures i in cfg.mine
  {
    hide RequiredSet;
  }

  /** If a round leaves the weights as they were, they are the same at every point of it. */
  lemma LevelBetween(nets: seq<Net>, moves: seq<Move>, cfg: Config, a: nat, t: nat, b: nat)
    requires Schedule(nets, moves, cfg) && a <= t < b <= |moves| && Ready(nets[a], cfg)
    requires forall i :: a <= i <= b ==> nets[i].order.history != [] && !Closed(nets[i])
    requires Falls(nets[a], nets[b], cfg) && Level(nets[a], nets[b], cfg)
    ensures Ready(nets[t], cfg) && Falls(nets[a], nets[t], cfg) && Level(nets[a], nets[t], cfg)
    ensures Falls(nets[t], nets[t + 1], cfg) && Level(nets[t], nets[t + 1], cfg)
  {
    hide Ready, Closed, Moved, CanMove, WeightOf;
    ScheduleFalls(nets, moves, cfg, a, t);
    ScheduleFalls(nets, moves, cfg, t, t + 1);
    ScheduleFalls(nets, moves, cfg, t + 1, b);
  }

  lemma RoundLowers(nets: seq<Net>, moves: seq<Move>, cfg: Config, a: nat, b: nat)
    requires Schedule(nets, moves, cfg) && a < b <= |moves| && Ready(nets[a], cfg) && Round(nets, moves, cfg, a, b)
    requires forall i :: a <= i <= b ==> nets[i].order.history != [] && !Closed(nets[i])
    ensures Cost(nets[b], cfg) < Cost(nets[a], cfg) || Cost(nets[b], cfg) == 0
  {
    hide Ready, Closed, Moved, CanMove, WeightOf, Falls, Cost, Level, OnlyDeleting, Deleting;
    ScheduleFalls(nets, moves, cfg, a, b);
    CostFalls(nets[a], nets[b], cfg);
    if Level(nets[a], nets[b], cfg) && Cost(nets[a], cfg) > 0 {
      var t :| a <= t < b && moves[t].ByOrder?;
      LevelBetween(nets, moves, cfg, a, t, b);
      MoveFalls(nets[t], moves[t], cfg);
      var j := SomeDeleting(nets[a], nets[t], cfg);
      assert Turn(moves, a, b, j);
      var u :| a <= u < b && moves[u].ByKid? && moves[u].name == j;
      LevelBetween(nets, moves, cfg, a, u, b);
      LevelDeleting(nets[a], nets[u], cfg, j);
      MoveFalls(nets[u], moves[u], cfg);
    }
  }

  lemma SomeDeleting(net: Net, n: Net, cfg: Config) returns (i: nat)
    requires net.order.history != [] && Cost(net, cfg) > 0
    requires Falls(net, n, cfg) && Level(net, n, cfg) && OnlyDeleting(n, cfg)
    ensures i < |net.kids| && i in cfg.mine && Deleting(net.kids[i]) && WeightOf(net, cfg, i) > 0
  {
    hide Weight, RequiredSet, Deleting;
    var required := Required(net, cfg);
    MeasureZero(net.kids, 0, cfg.mine, required);
    i :| 0 <= i < |net.kids| && Weight(net.kids[i], i in cfg.mine, i in required) != 0;
    assert WeightOf(net, cfg, i) > 0 && WeightOf(n, cfg, i) == WeightOf(net, cfg, i);
    SameWeight(net, n, cfg, i);
  }

  lemma LevelDeleting(net: Net, n: Net, cfg: Config, i: nat)
    requires Falls(net, n, cfg) && Level(net, n, cfg) && i < |net.kids| && WeightOf(net, cfg, i) > 0
    ensures Deleting(n.kids[i]) <==> Deleting(net.kids[i])
  {
    hide Weight, RequiredSet, Deleting;
    SameWeight(net, n, cfg, i);
  }

  /** `marks` cuts the schedule into rounds. */
  ghost predicate Rounds(nets: seq<Net>, moves: seq<Move>, cfg: Config, marks: seq<nat>)
    requires |moves| < |nets|
  {
    && marks != [] && marks[0] == 0
    && (forall k :: 0 <= k < |marks| ==> marks[k] <= |moves|)
    && forall k :: 0 <= k < |marks| - 1 ==> marks[k] < marks[k + 1] && Round(nets, moves, cfg, marks[k], marks[k + 1])
  }

  lemma {:induction false} RoundsLower(nets: seq<Net>, moves: seq<Move>, cfg: Config, marks: seq<nat>, k: nat)
    requires Schedule(nets, moves, cfg) && Rounds(nets, moves, cfg, marks) && k < |marks| && Ready(nets[0], cfg)
    requires forall i :: 0 <= i <= |moves| ==> nets[i].order.history != [] && !Closed(nets[i])
    ensures Cost(nets[marks[k]], cfg) == 0 || Cost(nets[marks[k]], cfg) + k <= Cost(nets[0], cfg)
    decreases k
  {
    hide Ready, Closed, Moved, CanMove, Cost, Round;
    if k > 0 {
      RoundsLower(nets, moves, cfg, marks, k - 1);
      ScheduleFalls(nets, moves, cfg, 0, marks[k - 1]);
      RoundLowers(nets, moves, cfg, marks[k - 1], marks[k]);
    }
  }

  /**
    Every schedule of fault-free Syncs, of the Order and of any Challenges in any order, that
    has as many rounds as the cost of its start, ends with exactly the required Challenges,
    unless the Order fails or becomes valid on the way.
   */
  lemma FairConverges(nets: seq<Net>, moves: seq<Move>, cfg: Config, marks: seq<nat>)
    requires Schedule(nets, moves, cfg) && Rounds(nets, moves, cfg, marks) && Ready(nets[0], cfg)
    requires |marks| > Cost(nets[0], cfg)
    ensures forall i :: 0 <= i <= |moves| ==> nets[i].order.history != []
    ensures (exists i :: 0 <= i <= |moves| && Closed(nets[i])) || Settled(nets[|moves|], cfg)
  {
    hide Ready, Closed, Moved, CanMove, Cost, Round, Settled, Falls;
    forall i | 0 <= i <= |moves|
      ensures nets[i].order.history != []
    {
      HasOrder(nets, moves, cfg, i);
    }
    if forall i :: 0 <= i <= |moves| ==> !Closed(nets[i]) {
      var k := |marks| - 1;
      RoundsLower(nets, moves, cfg, marks, k);
      ScheduleFalls(nets, moves, cfg, 0, marks[k]);
      ScheduleFalls(nets, moves, cfg, marks[k], |moves|);
      CostFalls(nets[marks[k]], nets[|moves|], cfg);
      ZeroIsSettled(nets[|moves|], cfg);
    }
  }

  /** And there are such schedules: one no longer than the cost, during which the Order stays as it is. */
  lemma Converges(net: Net, cfg: Config, env: Env, kidEnv: C.Env) returns (nets: seq<Net>, moves: seq<Move>)
    requires Ready(net, cfg) && C.FaultFree(kidEnv) && Fine(env) && Honest(env)
    ensures Schedule(nets, moves, cfg) && nets[0] == net && |moves| <= Cost(net, cfg)
    ensures var last := nets[|moves|]; Ready(last, cfg) && last.order == net.order && Settled(last, cfg)
    decreases Cost(net, cfg)
  {
    hide Ready, OrderMove, OrderSyncAll, KidMove, Cost, Settled, OnlyDeleting, Unmatched, Falls, Level;
    assert net.order.history != [] by { ReadyFacts(net, cfg); }
    ZeroIsSettled(net, cfg);
    if Cost(net, cfg) == 0 {
      return [net], [];
    }
    OrderMoveDrops(net, cfg);
    var move, next;
    if Unmatched(net, cfg) && Cost(OrderMove(net, cfg), cfg) < Cost(net, cfg) {
      OrderMoveIsSync(net, cfg, env, false, false);
      move, next := ByOrder(env, false, false), OrderMove(net, cfg);
    } else {
      if !Unmatched(net, cfg) {
        MatchedMeans(net, cfg);
      }
      FallsItself(net, cfg);
      var i := SomeDeleting(net, net, cfg);
      assert C.Current(net.kids[i]) by { ReadyFacts(net, cfg); }
      KidMoveDrops(net, cfg, i, kidEnv);
      move, next := ByKid(i, kidEnv), KidMove(net, i, kidEnv);
    }
    nets, moves := Converges(next, cfg, env, kidEnv);
    nets, moves := [net] + nets, [move] + moves;
  }

  lemma FallsItself(net: Net, cfg: Config)
    requires net.order.history != []
    ensures Falls(net, net, cfg) && Level(net, net, cfg)
  {
  }

  lemma ReadyFacts(net: Net, cfg: Config)
    requires Ready(net, cfg)
    ensures net.order.history != []
    ensures forall i :: 0 <= i < |net.kids| && net.kids[i].store.Some? ==> C.Current(net.kids[i])
  {
    forall i | 0 <= i < |net.kids| && net.kids[i].store.Some?
      ensures C.Current(net.kids[i])
    {
      C.InvFacts(net.kids[i]);
    }
  }
}
