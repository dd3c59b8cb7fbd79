/**
  The ACME Order controller as a protocol: one stored Order, written by compare-and-swap,
  Syncs that may read any earlier version of it, and an ACME server with orders of its own.
 */
module Order {
  import opened Wrappers
  import opened Acme

  datatype Call<+T> = Done(value: T) | Failed(error: CallError)

  /** An authorization; its metadata is missing while the identifier is empty. */
  datatype Authz = Authz(url: nat, identifier: string, initialState: State, wildcard: bool, challenges: seq<string>)

  /** Order URLs and finalize URLs are given by the number of the server's order. */
  datatype Status = Status(
    state: State, url: Option<nat>, finalizeURL: Option<nat>, authorizations: seq<Authz>,
    certificate: string, failureTime: Option<nat>, reason: string)

  const NewStatus := Status(Unset, None, None, [], "", None, "")

  // ----- The ACME server

  datatype ServerOrder = ServerOrder(status: State, authorizations: seq<nat>, certificate: string)

  type Server = map<nat, ServerOrder>

  /** An order as the server reports it. */
  datatype Response = Response(
    uri: Option<nat>, finalizeURL: Option<nat>, status: State, authorizations: seq<nat>, certificate: string)

  /** The statuses of section 7.1.6 of RFC 8555. */
  predicate IsServerStatus(s: State) { s.Pending? || s.Ready? || s.Processing? || s.Valid? || s.Invalid? }

  /** The status changes the server makes by itself. */
  predicate ServerMove(s: State, t: State) {
    || (s.Pending? && (t.Ready? || t.Invalid?))
    || (s.Ready? && t.Invalid?)
    || (s.Processing? && (t.Valid? || t.Invalid?))
  }

  /** How far an order has come; the failure states are the end. */
  function Rank(s: State): int {
    match s
    case Unset => -1
    case Pending => 0
    case Ready => 1
    case Processing => 2
    case Valid => 3
    case _ => 4
  }

  // ----- One Sync

  datatype Preferred = NotSet | Found(chain: string) | NotFound | Unavailable

  /** What the calls of one Sync return, and how the server reacts. */
  datatype Env = Env(
    issuer: bool, client: bool, now: nat, message: string,
    authorizeReached: bool, authorizeError: Option<CallError>, newStatus: State, newAuthz: seq<nat>, newCertificate: string,
    getError: Option<CallError>, showURI: bool, showFinalize: bool,
    metadata: seq<Call<Authz>>,
    csr: bool, finalizeReached: bool, finalizeError: Option<CallError>, finalizeTo: State,
    fetchError: Option<CallError>, preferred: Preferred, encode: bool, keys: bool)

  /** What the Sync finds out about the Challenge objects of the Order. */
  datatype View = View(buildable: bool, missing: bool, leftover: bool, anyFailed: bool, allFinal: bool)

  datatype Intent = Nothing | CreateRequired | DeleteLeftover | DeleteAll

  datatype Outcome = Outcome(status: Status, server: Server, nextOrder: nat, intent: Intent, requested: set<nat>)

  function SetState(s: Status, state: State, now: nat): Status {
    s.(state := state, failureTime := if IsFailureState(state) then Some(now) else s.failureTime)
  }

  function Fail(s: Status, env: Env): Status {
    SetState(s, Errored, env.now).(reason := env.message)
  }

  /** An error: 4xx fails the Order, anything else is left for a retry. */
  function OnError(s: Status, e: CallError, env: Env): Status {
    if e.Is4xx() then Fail(s, env) else s
  }

  function Construct(urls: seq<nat>): seq<Authz> {
    seq(|urls|, i requires 0 <= i < |urls| => Authz(urls[i], "", Unset, false, []))
  }

  function UpdateFrom(s: Status, r: Response, now: nat): Status {
    var s1 := s.(url := if r.uri.Some? then r.uri else s.url, finalizeURL := r.finalizeURL);
    var s2 := SetState(s1, r.status, now);
    if s2.authorizations == [] then s2.(authorizations := Construct(r.authorizations)) else s2
  }

  function GetOrder(s: Status, server: Server, env: Env): Call<Response> {
    if s.url.None? then Failed(Unexpected)
    else if env.getError.Some? then Failed(env.getError.value)
    else if s.url.value !in server then Failed(ClientError)
    else
      var o := server[s.url.value];
      Done(Response(if env.showURI then s.url else None, if env.showFinalize then s.url else None,
                    o.status, o.authorizations, o.certificate))
  }

  function Refresh(s: Status, server: Server, env: Env): Status {
    match GetOrder(s, server, env)
    case Done(r) => UpdateFrom(s, r, env.now)
    case Failed(e) => OnError(s, e, env)
  }

  function Store(s: Status, chain: string, env: Env): Status {
    if env.encode then s.(certificate := chain) else Fail(s, env)
  }

  function StorePreferred(s: Status, chain: string, env: Env): Status {
    match env.preferred
    case Unavailable => s
    case Found(other) => Store(s, other, env)
    case _ => Store(s, chain, env)
  }

  /** Fetching the certificate of an order the server reported. */
  function FetchCertificate(s: Status, r: Response, env: Env): Status {
    if !r.status.Valid? then s
    else if env.fetchError.Some? then OnError(s, env.fetchError.value, env)
    else StorePreferred(s, r.certificate, env)
  }

  /** The finalize request of section 7.4 of RFC 8555: refused with 403 unless the order is ready. */
  function Finalize(server: Server, id: nat, env: Env): (Server, Call<string>) {
    if !env.finalizeReached || id !in server then
      (server, Failed(if env.finalizeError.Some? then env.finalizeError.value else Transient))
    else if !server[id].status.Ready? then (server, Failed(Forbidden))
    else if env.finalizeError.None? then
      (server[id := server[id].(status := Valid)], Done(server[id].certificate))
    else
      (server[id := server[id].(status := if env.finalizeTo.Valid? || env.finalizeTo.Invalid?
                                          then env.finalizeTo else Processing)],
       Failed(env.finalizeError.value))
  }

  function FinalizeOrder(s: Status, server: Server, env: Env): (Status, Server)
    requires s.finalizeURL.Some?
  {
    if !env.csr then (s, server)
    else
      var (server1, result) := Finalize(server, s.finalizeURL.value, env);
      match result
      case Done(chain) =>
        (match GetOrder(s, server1, env)
         case Failed(e) => OnError(s, e, env)
         case Done(r) => StorePreferred(UpdateFrom(s, r, env.now), chain, env), server1)
      case Failed(e) =>
        if e.Forbidden? then
          (match GetOrder(s, server1, env)
           case Failed(e) => OnError(s, e, env)
           case Done(r) =>
             if r.status.Valid? then FetchCertificate(SetState(s, Valid, env.now), r, env) else Fail(s, env), server1)
        else if e.Is4xx() then (Fail(s, env), server1)
        else (Refresh(s, server1, env), server1)
  }

  /** Whether an authorization still lacks its metadata. */
  predicate MissingMetadata(s: Status) {
    exists a :: a in s.authorizations && a.identifier == ""
  }

  /** Metadata is fetched in order, each authorization once, until a call fails. */
  function FetchFrom(s: Status, i: nat, env: Env): Status
    requires i <= |s.authorizations|
    decreases |s.authorizations| - i
  {
    if i == |s.authorizations| then s
    else
      var a := s.authorizations[i];
      if a.identifier != "" then FetchFrom(s, i + 1, env)
      else if i >= |env.metadata| then s
      else match env.metadata[i]
        case Failed(e) => OnError(s, e, env)
        case Done(m) => FetchFrom(s.(authorizations := s.authorizations[i := m.(url := a.url)]), i + 1, env)
  }

  function Create(s: Status, server: Server, nextOrder: nat, env: Env): (Status, Server, nat) {
    var created := env.authorizeReached || env.authorizeError.None?;
    var server1 := if created
                   then server[nextOrder := ServerOrder(env.newStatus, env.newAuthz, env.newCertificate)] else server;
    var next1 := if created then nextOrder + 1 else nextOrder;
    if env.authorizeError.None? then
      (SetState(s.(url := Some(nextOrder),
                   finalizeURL := if env.showFinalize then Some(nextOrder) else None,
                   authorizations := Construct(env.newAuthz)), env.newStatus, env.now), server1, next1)
    else
      var e := env.authorizeError.value;
      (if e.Is4xx() || e.ProfileUnsupported? then Fail(s, env) else s, server1, next1)
  }

  /** The whole Sync of an Order whose status was read as `s`. */
  function SyncOrder(s: Status, server: Server, nextOrder: nat, env: Env, view: View): Outcome {
    var idle := Outcome(s, server, nextOrder, Nothing, {});
    if !env.issuer || !env.client || IsFailureState(s.state) then idle
    else if s.url.None? then
      var (s1, server1, next1) := Create(s, server, nextOrder, env);
      Outcome(s1, server1, next1, Nothing, {})
    else if s.finalizeURL.None? then idle.(status := Refresh(s, server, env))
    else if MissingMetadata(s) then idle.(status := FetchFrom(s, 0, env))
    else if s.state.Valid? then
      if s.certificate == "" then
        idle.(status := match GetOrder(s, server, env)
                        case Failed(e) => OnError(s, e, env)
                        case Done(r) => FetchCertificate(UpdateFrom(s, r, env.now), r, env))
      else idle.(intent := DeleteAll)
    else if !view.buildable then idle
    else if view.missing then if env.keys then idle.(intent := CreateRequired) else idle
    else if view.leftover then idle.(intent := DeleteLeftover)
    else if s.state.Ready? then
      var (s1, server1) := FinalizeOrder(s, server, env);
      Outcome(s1, server1, nextOrder, Nothing, if env.csr && env.finalizeReached then {s.finalizeURL.value} else {})
    else if !view.anyFailed && !view.allFinal then idle
    else
      idle.(status := match GetOrder(s, server, env)
                      case Failed(e) => OnError(s, e, env)
                      case Done(r) =>
                        if !view.anyFailed && r.status.Pending? then SetState(s, Pending, env.now)
                        else UpdateFrom(s, r, env.now))
  }

  // ----- What one Sync keeps

  ghost predicate ServerOk(server: Server, nextOrder: nat) {
    forall u :: u in server ==> u < nextOrder && IsServerStatus(server[u].status) && server[u].certificate != ""
  }

  predicate StatusLater(s: State, t: State) {
    s == t || (Rank(s) < Rank(t) && !s.Valid? && !s.Invalid?)
  }

  /** The server only moves its orders forward, and never changes what they are for. */
  ghost predicate ServerLater(a: Server, b: Server) {
    forall u :: u in a ==>
      && u in b && b[u] == a[u].(status := b[u].status) && StatusLater(a[u].status, b[u].status)
  }

  /** A server that follows RFC 8555; section 7.1.3 requires the finalize URL in every order. */
  ghost predicate Honest(env: Env) {
    && (env.newStatus.Pending? || env.newStatus.Ready?) && env.newCertificate != ""
    && env.showFinalize
    && (env.preferred.Found? ==> env.preferred.chain != "")
  }

  function Urls(authorizations: seq<Authz>): seq<nat> {
    seq(|authorizations|, i requires 0 <= i < |authorizations| => authorizations[i].url)
  }

  /** A status that agrees with what the server has told. */
  ghost predicate Truthful(s: Status, server: Server) {
    && (s.failureTime.Some? <==> IsFailureState(s.state))
    && (s.certificate != "" ==> s.state.Valid? && !MissingMetadata(s))
    && match s.url
       case None => (s.state.Unset? || IsFailureState(s.state)) && s.finalizeURL.None? && s.authorizations == []
       case Some(u) =>
         && u in server
         && s.finalizeURL == s.url
         && Urls(s.authorizations) == server[u].authorizations
         && (IsFailureState(s.state) || StatusLater(s.state, server[u].status))
         && !s.state.Unset?
  }

  /** A status that may follow another in the store. */
  ghost predicate Follows(a: Status, b: Status) {
    && (a.url.Some? ==> b.url == a.url)
    && Rank(a.state) <= Rank(b.state)
    && (IsFailureState(a.state) || a.certificate != "" ==> b == a)
    && (a.url.Some? ==> |a.authorizations| == |b.authorizations|)
    && (a.url.Some? ==> forall i :: 0 <= i < |a.authorizations| ==>
          b.authorizations[i].url == a.authorizations[i].url &&
          (a.authorizations[i].identifier != "" ==> b.authorizations[i] == a.authorizations[i]))
  }

  lemma FollowsTransitive(a: Status, b: Status, c: Status)
    requires Follows(a, b) && Follows(b, c)
    ensures Follows(a, c)
  {
  }

  lemma TruthfulLater(s: Status, a: Server, b: Server)
    requires Truthful(s, a) && ServerLater(a, b)
    ensures Truthful(s, b)
  {
  }

  ghost predicate Good(s: Status, t: Status, server: Server) {
    Follows(s, t) && Truthful(t, server)
  }

  lemma FailGood(s: Status, server: Server, env: Env)
    requires Truthful(s, server) && !IsFailureState(s.state) && s.certificate == ""
    ensures Good(s, Fail(s, env), server)
  {
  }

  lemma UpdateGood(s: Status, server: Server, env: Env)
    requires Truthful(s, server) && env.showFinalize && s.url.Some? && !IsFailureState(s.state) && s.certificate == ""
    requires GetOrder(s, server, env).Done? && IsServerStatus(server[s.url.value].status)
    ensures Good(s, UpdateFrom(s, GetOrder(s, server, env).value, env.now), server)
    ensures UpdateFrom(s, GetOrder(s, server, env).value, env.now).authorizations == s.authorizations
  {
    var t := UpdateFrom(s, GetOrder(s, server, env).value, env.now);
    assert |s.authorizations| == |Urls(s.authorizations)| == |server[s.url.value].authorizations|;
    assert t.authorizations == s.authorizations;
  }

  lemma RefreshGood(s: Status, server: Server, nextOrder: nat, env: Env)
    requires Truthful(s, server) && ServerOk(server, nextOrder) && s.url.Some? && env.showFinalize
    requires !IsFailureState(s.state) && s.certificate == ""
    ensures Good(s, Refresh(s, server, env), server)
  {
    hide Truthful, UpdateFrom, Fail, Follows;
    assert s.url.value in server by { UrlKnown(s, server); }
    SameGood(s, server);
    FailGood(s, server, env);
    if GetOrder(s, server, env).Done? {
      UpdateGood(s, server, env);
    }
  }

  lemma UrlKnown(s: Status, server: Server)
    requires Truthful(s, server) && s.url.Some?
    ensures s.url.value in server
  {
  }

  lemma SameGood(s: Status, server: Server)
    requires Truthful(s, server)
    ensures Good(s, s, server)
  {
  }

  /** Storing a certificate for an order both sides hold to be valid. */
  lemma StoreGood(s: Status, t: Status, server: Server, chain: string, env: Env)
    requires Good(s, t, server) && !IsFailureState(s.state) && s.certificate == ""
    requires t.state.Valid? && t.certificate == "" && chain != "" && Honest(env) && !MissingMetadata(t)
    ensures Good(s, StorePreferred(t, chain, env), server)
  {
    var u := StorePreferred(t, chain, env);
    assert u == t || u == t.(certificate := u.certificate) || u == Fail(t, env);
  }

  lemma FetchCertificateGood(s: Status, t: Status, server: Server, nextOrder: nat, env: Env)
    requires Good(s, t, server) && ServerOk(server, nextOrder) && Honest(env)
    requires !IsFailureState(s.state) && s.certificate == "" && t.certificate == "" && s.url.Some?
    requires GetOrder(s, server, env).Done? && t.state == server[s.url.value].status && !MissingMetadata(t)
    ensures Good(s, FetchCertificate(t, GetOrder(s, server, env).value, env), server)
  {
    hide StorePreferred, Truthful;
    var r := GetOrder(s, server, env).value;
    if r.status.Valid? && env.fetchError.Some? {
      FailGood(t, server, env);
      FollowsTransitive(s, t, Fail(t, env));
    } else if r.status.Valid? {
      StoreGood(s, t, server, r.certificate, env);
    }
  }

  lemma FinalizeLater(server: Server, nextOrder: nat, id: nat, env: Env)
    requires ServerOk(server, nextOrder)
    ensures var (server1, result) := Finalize(server, id, env);
            && ServerOk(server1, nextOrder) && ServerLater(server, server1)
            && (result.Done? ==> id in server1 && server1[id].status.Valid? && result.value != "")
  {
  }

  lemma FinalizeOrderGood(s: Status, server: Server, nextOrder: nat, env: Env)
    requires Truthful(s, server) && ServerOk(server, nextOrder) && Honest(env)
    requires s.state.Ready? && s.certificate == "" && s.url.Some? && s.finalizeURL == s.url && !MissingMetadata(s)
    ensures var (t, server1) := FinalizeOrder(s, server, env);
            Good(s, t, server1) && ServerOk(server1, nextOrder) && ServerLater(server, server1)
  {
    hide Truthful, UpdateFrom, Fail, Follows, ServerOk, ServerLater, Finalize, StorePreferred, FetchCertificate,
      MissingMetadata;
    FinalizeLater(server, nextOrder, s.url.value, env);
    var (server1, result) := Finalize(server, s.url.value, env);
    ServerUnchanged(server);
    TruthfulLater(s, server, server1);
    UrlKnown(s, server1);
    SameGood(s, server);
    SameGood(s, server1);
    FailGood(s, server1, env);
    RefreshGood(s, server1, nextOrder, env);
    if GetOrder(s, server1, env).Done? {
      var r := GetOrder(s, server1, env).value;
      StatusesKnown(server1, nextOrder, s.url.value);
      UpdateGood(s, server1, env);
      if result.Done? {
        UpdateFields(s, r, env.now);
        SameAuthorizations(s, UpdateFrom(s, r, env.now));
        StoreGood(s, UpdateFrom(s, r, env.now), server1, result.value, env);
      }
      if r.status.Valid? {
        ValidGood(s, server1, env.now);
        SameAuthorizations(s, SetState(s, Valid, env.now));
        FetchCertificateGood(s, SetState(s, Valid, env.now), server1, nextOrder, env);
      }
    }
  }

  lemma ServerUnchanged(server: Server)
    ensures ServerLater(server, server)
  {
  }

  lemma StatusesKnown(server: Server, nextOrder: nat, u: nat)
    requires ServerOk(server, nextOrder) && u in server
    ensures IsServerStatus(server[u].status) && server[u].certificate != ""
  {
  }

  lemma UpdateFields(s: Status, r: Response, now: nat)
    ensures var t := UpdateFrom(s, r, now); t.state == r.status && t.certificate == s.certificate
  {
  }

  lemma ValidGood(s: Status, server: Server, now: nat)
    requires Truthful(s, server) && s.url.Some? && !IsFailureState(s.state) && s.certificate == ""
    requires server[s.url.value].status.Valid?
    ensures Good(s, SetState(s, Valid, now), server)
  {
  }

  lemma {:induction false} FetchFromGood(s: Status, i: nat, server: Server, env: Env)
    requires Truthful(s, server) && i <= |s.authorizations| && s.url.Some?
    requires !IsFailureState(s.state) && s.certificate == ""
    ensures Good(s, FetchFrom(s, i, env), server)
    decreases |s.authorizations| - i
  {
    hide Fail;
    SameGood(s, server);
    FailGood(s, server, env);
    if i < |s.authorizations| {
      var a := s.authorizations[i];
      if a.identifier != "" {
        FetchFromGood(s, i + 1, server, env);
      } else if i < |env.metadata| && env.metadata[i].Done? {
        var t := s.(authorizations := s.authorizations[i := env.metadata[i].value.(url := a.url)]);
        assert Urls(t.authorizations) == Urls(s.authorizations);
        FetchFromGood(t, i + 1, server, env);
        FollowsTransitive(s, t, FetchFrom(t, i + 1, env));
      }
    }
  }

  lemma CreateGood(s: Status, server: Server, nextOrder: nat, env: Env)
    requires Truthful(s, server) && ServerOk(server, nextOrder) && Honest(env)
    requires s.url.None? && !IsFailureState(s.state)
    ensures var (t, server1, next1) := Create(s, server, nextOrder, env);
            && Good(s, t, server1) && ServerOk(server1, next1) && ServerLater(server, server1)
            && nextOrder <= next1
  {
    var (t, server1, next1) := Create(s, server, nextOrder, env);
    assert Urls(Construct(env.newAuthz)) == env.newAuthz;
    assert Good(s, t, server1);
  }

  /** One Sync keeps the status truthful and moving forward, and asks to finalize no order but its own. */
  lemma SyncOrderGood(s: Status, server: Server, nextOrder: nat, env: Env, view: View)
    requires Truthful(s, server) && ServerOk(server, nextOrder) && Honest(env)
    ensures var o := SyncOrder(s, server, nextOrder, env, view);
            && Good(s, o.status, o.server) && ServerOk(o.server, o.nextOrder) && ServerLater(server, o.server)
            && nextOrder <= o.nextOrder
            && (forall u :: u in o.requested ==> s.url == Some(u) && s.state.Ready? && !MissingMetadata(s))
  {
    hide Truthful, UpdateFrom, Fail, Follows, ServerOk, ServerLater, Finalize, FinalizeOrder, Create, FetchFrom,
      FetchCertificate, GetOrder, Good, MissingMetadata;
    SameGood(s, server);
    ServerUnchanged(server);
    TruthfulFacts(s, server);
    if IsFailureState(s.state) {
    } else if s.url.None? {
      CreateGood(s, server, nextOrder, env);
    } else if s.certificate == "" {
      RefreshGood(s, server, nextOrder, env);
      FetchFromGood(s, 0, server, env);
      if s.state.Ready? && !MissingMetadata(s) {
        FinalizeOrderGood(s, server, nextOrder, env);
      }
      if GetOrder(s, server, env).Done? {
        ReadGood(s, server, nextOrder, env);
      }
    }
  }

  lemma SameAuthorizations(s: Status, t: Status)
    requires s.authorizations == t.authorizations
    ensures MissingMetadata(s) == MissingMetadata(t)
  {
  }

  lemma TruthfulFacts(s: Status, server: Server)
    requires Truthful(s, server)
    ensures s.certificate != "" ==> s.state.Valid? && !MissingMetadata(s)
    ensures s.url == s.finalizeURL
  {
  }

  /** The other uses of a freshly read order. */
  lemma ReadGood(s: Status, server: Server, nextOrder: nat, env: Env)
    requires Truthful(s, server) && ServerOk(server, nextOrder) && Honest(env) && s.url.Some?
    requires !IsFailureState(s.state) && s.certificate == "" && GetOrder(s, server, env).Done?
    ensures var r := GetOrder(s, server, env).value;
            && Good(s, UpdateFrom(s, r, env.now), server)
            && (r.status.Pending? ==> Good(s, SetState(s, Pending, env.now), server))
            && (!MissingMetadata(s) ==> Good(s, FetchCertificate(UpdateFrom(s, r, env.now), r, env), server))
  {
    hide FetchCertificate, MissingMetadata;
    UrlKnown(s, server);
    StatusesKnown(server, nextOrder, s.url.value);
    UpdateGood(s, server, env);
    UpdateFields(s, GetOrder(s, server, env).value, env.now);
    if !MissingMetadata(s) {
      var t := UpdateFrom(s, GetOrder(s, server, env).value, env.now);
      SameAuthorizations(s, t);
      FetchCertificateGood(s, t, server, nextOrder, env);
    }
  }

  predicate Issuing(o: ServerOrder) { o.status.Processing? || o.status.Valid? }

  /** Orders come to be processed or valid only through a finalize request of a Sync. */
  lemma SyncIssues(s: Status, server: Server, nextOrder: nat, env: Env, view: View, u: nat)
    requires Truthful(s, server) && ServerOk(server, nextOrder) && Honest(env)
    ensures var o := SyncOrder(s, server, nextOrder, env, view);
            u in o.server && Issuing(o.server[u]) ==> u in o.requested || (u in server && Issuing(server[u]))
  {
    hide UpdateFrom, Fail, FetchFrom, FetchCertificate, GetOrder, MissingMetadata, StorePreferred, Refresh, OnError;
  }

  // ----- What a Sync achieves when nothing fails

  predicate FaultFree(env: Env) {
    && env.issuer && env.client && env.getError.None? && env.showFinalize
    && env.csr && env.finalizeReached && env.finalizeError.None?
    && env.fetchError.None? && !env.preferred.Unavailable? && env.encode
  }

  /** The required challenges exist, nothing is left over, and they are done. */
  predicate ChallengesDone(view: View) {
    view.buildable && !view.missing && !view.leftover && (view.anyFailed || view.allFinal)
  }

  /** A status whose order the server knows, with nothing left to look up. */
  ghost predicate Open(s: Status, server: Server) {
    && Truthful(s, server) && s.url.Some? && !IsFailureState(s.state) && !MissingMetadata(s) && s.certificate == ""
  }

  function Delivered(env: Env, o: ServerOrder): string {
    if env.preferred.Found? then env.preferred.chain else o.certificate
  }

  /** If the server's order is valid, a Sync of a ready or valid Order stores the certificate. */
  lemma SyncStores(s: Status, server: Server, nextOrder: nat, env: Env, view: View)
    requires Open(s, server) && FaultFree(env) && server[s.url.value].status.Valid?
    requires s.state.Valid? || (s.state.Ready? && ChallengesDone(view))
    ensures var o := SyncOrder(s, server, nextOrder, env, view);
            o.status.state.Valid? && o.status.certificate == Delivered(env, server[s.url.value]) && o.server == server
  {
  }

  /** A Sync of any other open Order takes over the status of the server's order, whatever it is. */
  lemma SyncLearns(s: Status, server: Server, nextOrder: nat, env: Env, view: View)
    requires Open(s, server) && FaultFree(env) && ChallengesDone(view)
    requires !s.state.Valid? && !s.state.Ready?
    ensures var o := SyncOrder(s, server, nextOrder, env, view);
            && o.status.state == server[s.url.value].status && o.status.url == s.url && o.status.certificate == ""
            && o.status.authorizations == s.authorizations && o.server == server
  {
    hide MissingMetadata;
    var t := SyncOrder(s, server, nextOrder, env, view).status;
    assert |s.authorizations| == |Urls(s.authorizations)| == |server[s.url.value].authorizations|;
    assert t.authorizations == s.authorizations;
  }

  /** If the server's order is ready, a Sync of a ready Order has it finalized, and stores the certificate. */
  lemma SyncFinalizes(s: Status, server: Server, nextOrder: nat, env: Env, view: View)
    requires Open(s, server) && FaultFree(env) && ChallengesDone(view)
    requires s.state.Ready? && server[s.url.value].status.Ready?
    ensures var o := SyncOrder(s, server, nextOrder, env, view);
            && o.status.state.Valid? && o.status.certificate == Delivered(env, server[s.url.value])
            && o.server == server[s.url.value := server[s.url.value].(status := Valid)] && o.requested == {s.url.value}
  {
  }

  // ----- A new Order

  /** What the answer to the creation of an order makes of a new Order. */
  lemma CreateExactly(s: Status, server: Server, nextOrder: nat, env: Env, view: View)
    requires Truthful(s, server) && s.url.None? && !IsFailureState(s.state) && env.issuer && env.client
    ensures var o := SyncOrder(s, server, nextOrder, env, view);
            var e := env.authorizeError;
            && (IsFailureState(o.status.state) && o.status.url.None? <==> Refused(e) || e == Some(ProfileUnsupported))
            && (e.Some? ==> o.status.url.None? && (!Refused(e) && !e.value.ProfileUnsupported? ==> o.status == s))
            && (e.None? ==>
                  && o.status.url == Some(nextOrder) && o.status.state == env.newStatus
                  && Urls(o.status.authorizations) == env.newAuthz
                  && forall a :: a in o.status.authorizations ==> a.identifier == "")
            && (if e.None? || env.authorizeReached
                then o.server == server[nextOrder := ServerOrder(env.newStatus, env.newAuthz, env.newCertificate)] &&
                     o.nextOrder == nextOrder + 1
                else o.server == server && o.nextOrder == nextOrder)
            && o.intent == Nothing && o.requested == {}
  {
    assert Urls(Construct(env.newAuthz)) == env.newAuthz;
  }

  predicate Answered(env: Env, i: nat) { i < |env.metadata| && env.metadata[i].Done? }

  /** What is recorded of an authorization: what was known, or else what the server answered. */
  function Recorded(a: Authz, env: Env, i: nat): Authz
    requires a.identifier == "" ==> Answered(env, i)
  {
    if a.identifier != "" then a else env.metadata[i].value.(url := a.url)
  }

  /**
    Up to some authorization `k` all metadata is recorded as answered, and from there on nothing
    changes; `k` is the first one that lacks metadata and got no answer, if there is one, and the
    Order fails exactly if that one was refused.
   */
  lemma {:induction false} FetchExactly(s: Status, i: nat, env: Env) returns (k: nat)
    requires i <= |s.authorizations| && !IsFailureState(s.state)
    ensures i <= k <= |s.authorizations| == |FetchFrom(s, i, env).authorizations|
    ensures forall j :: i <= j < k && s.authorizations[j].identifier == "" ==> Answered(env, j)
    ensures k < |s.authorizations| ==> s.authorizations[k].identifier == "" && !Answered(env, k)
    ensures forall j :: i <= j < k ==> FetchFrom(s, i, env).authorizations[j] == Recorded(s.authorizations[j], env, j)
    ensures forall j :: 0 <= j < |s.authorizations| && !(i <= j < k) ==>
              FetchFrom(s, i, env).authorizations[j] == s.authorizations[j]
    ensures var t := FetchFrom(s, i, env);
            && t.url == s.url && t.certificate == s.certificate
            && if k < |s.authorizations| && k < |env.metadata| && env.metadata[k].error.Is4xx() then t.state.Errored?
               else t.state == s.state
    decreases |s.authorizations| - i
  {
    if i == |s.authorizations| {
      return i;
    }
    var a := s.authorizations[i];
    if a.identifier != "" {
      k := FetchExactly(s, i + 1, env);
    } else if Answered(env, i) {
      var s1 := s.(authorizations := s.authorizations[i := env.metadata[i].value.(url := a.url)]);
      k := FetchExactly(s1, i + 1, env);
    } else {
      k := i;
    }
  }

  /** What a Sync sets out to do with Challenges. */
  lemma IntentExactly(s: Status, server: Server, nextOrder: nat, env: Env, view: View)
    requires Truthful(s, server) && s.url.Some?
    ensures var o := SyncOrder(s, server, nextOrder, env, view);
            var able := env.issuer && env.client && !MissingMetadata(s);
            var busy := able && !s.state.Valid? && !IsFailureState(s.state) && view.buildable;
            && (o.intent.DeleteAll? <==> able && s.state.Valid? && s.certificate != "")
            && (o.intent.CreateRequired? <==> busy && view.missing && env.keys)
            && (o.intent.DeleteLeftover? <==> busy && !view.missing && view.leftover)
            && (o.intent != Nothing ==> o == Outcome(s, server, nextOrder, o.intent, {}))
  {
    hide MissingMetadata;
  }

  // ----- When a Sync fails the Order

  /** A call answered with a 4xx status. */
  predicate Refused(e: Option<CallError>) { e.Some? && e.value.Is4xx() }

  predicate Unencodable(env: Env) { !env.preferred.Unavailable? && !env.encode }

  /** The certificate of a valid order is refused, or cannot be encoded. */
  predicate CertificateLost(env: Env) {
    Refused(env.fetchError) || (env.fetchError.None? && Unencodable(env))
  }

  /** The error a finalize request is answered with, by a server whose order has status `t`. */
  function FinalizeAnswer(t: State, env: Env): Option<CallError> {
    if env.finalizeReached && !t.Ready? then Some(Forbidden)
    else if env.finalizeReached || env.finalizeError.Some? then env.finalizeError
    else Some(Transient)
  }

  /** The status of that order after the request. */
  function FinalizedTo(t: State, env: Env): State {
    if !env.finalizeReached || !t.Ready? then t
    else if env.finalizeError.None? then Valid
    else if env.finalizeTo.Valid? || env.finalizeTo.Invalid? then env.finalizeTo
    else Processing
  }

  /** A ready Order fails on a 4xx of any call, on an invalid order, or on a 403 before the order is valid. */
  predicate FinalizeFails(t: State, env: Env) {
    var answer, after := FinalizeAnswer(t, env), FinalizedTo(t, env);
    || (Refused(answer) && !answer.value.Forbidden?)
    || Refused(env.getError)
    || (env.getError.None? && answer == Some(Forbidden) && (!after.Valid? || CertificateLost(env)))
    || (env.getError.None? && answer.None? && Unencodable(env))
    || (env.getError.None? && after.Invalid?)
  }

  /** What makes a Sync fail an open Order, in terms of the server's order and of the answers to its calls. */
  predicate Fails(s: Status, t: State, env: Env, view: View) {
    && env.issuer && env.client
    && if s.state.Valid? then Refused(env.getError) || (env.getError.None? && CertificateLost(env))
       else
         && view.buildable && !view.missing && !view.leftover
         && if s.state.Ready? then env.csr && FinalizeFails(t, env)
            else (view.anyFailed || view.allFinal) && (Refused(env.getError) || (env.getError.None? && t.Invalid?))
  }

  lemma FetchFails(s: Status, r: Response, chain: string, env: Env)
    requires !IsFailureState(s.state) && r.status.Valid?
    ensures IsFailureState(FetchCertificate(s, r, env).state) <==> CertificateLost(env)
    ensures IsFailureState(StorePreferred(s, chain, env).state) <==> Unencodable(env)
  {
  }

  lemma ReadFails(s: Status, server: Server, env: Env)
    requires s.url.Some? && s.url.value in server && !IsFailureState(s.state)
    requires IsServerStatus(server[s.url.value].status)
    ensures IsFailureState(Refresh(s, server, env).state) <==>
              Refused(env.getError) || (env.getError.None? && server[s.url.value].status.Invalid?)
  {
  }

  lemma FinalizeIs(server: Server, id: nat, env: Env)
    requires id in server
    ensures var (server1, result) := Finalize(server, id, env);
            var t := server[id].status;
            && id in server1 && server1[id] == server[id].(status := FinalizedTo(t, env))
            && (if FinalizeAnswer(t, env).Some? then result == Failed(FinalizeAnswer(t, env).value) else result.Done?)
  {
  }

  lemma FinalizeFailsExactly(s: Status, server: Server, nextOrder: nat, env: Env)
    requires Open(s, server) && ServerOk(server, nextOrder) && s.state.Ready?
    ensures IsFailureState(FinalizeOrder(s, server, env).0.state) <==>
              env.csr && FinalizeFails(server[s.url.value].status, env)
  {
    hide Finalize, FetchCertificate, StorePreferred, MissingMetadata, ServerOk, CertificateLost, Unencodable,
      FinalizeAnswer, FinalizedTo, Urls;
    var u := s.url.value;
    FinalizeIs(server, u, env);
    StatusesKnown(server, nextOrder, u);
    var (server1, result) := Finalize(server, u, env);
    AfterIsServerStatus(server[u].status, env);
    ReadFails(s, server1, env);
    if GetOrder(s, server1, env).Done? {
      var r := GetOrder(s, server1, env).value;
      UpdateFields(s, r, env.now);
      if r.status.Valid? {
        FetchFails(SetState(s, Valid, env.now), r, "", env);
        if result.Done? {
          FetchFails(UpdateFrom(s, r, env.now), r, result.value, env);
        }
      }
    }
  }

  lemma AfterIsServerStatus(t: State, env: Env)
    requires IsServerStatus(t)
    ensures IsServerStatus(FinalizedTo(t, env))
    ensures FinalizeAnswer(t, env).None? ==> FinalizedTo(t, env).Valid?
  {
  }

  /** Whatever the calls return, a Sync of an open Order marks it failed exactly then. */
  lemma FailsExactly(s: Status, server: Server, nextOrder: nat, env: Env, view: View)
    requires Open(s, server) && ServerOk(server, nextOrder)
    ensures IsFailureState(SyncOrder(s, server, nextOrder, env, view).status.state) <==>
              Fails(s, server[s.url.value].status, env, view)
  {
    hide FinalizeOrder, FinalizeFails, FetchCertificate, MissingMetadata, ServerOk, CertificateLost, Urls;
    StatusesKnown(server, nextOrder, s.url.value);
    ReadFails(s, server, env);
    if s.state.Ready? {
      FinalizeFailsExactly(s, server, nextOrder, env);
    } else if s.state.Valid? && GetOrder(s, server, env).Done? {
      var r := GetOrder(s, server, env).value;
      FetchFails(UpdateFrom(s, r, env.now), r, "", env);
    }
  }

  /** The state a ready Order gets from a finalize request, if that does not fail it. */
  function StateFinalized(t: State, env: Env): State {
    var answer, after := FinalizeAnswer(t, env), FinalizedTo(t, env);
    if Refused(answer) && !answer.value.Forbidden? then Errored
    else if Refused(env.getError) then Errored
    else if env.getError.Some? then Ready
    else if answer == Some(Forbidden) then (if after.Valid? && !CertificateLost(env) then Valid else Errored)
    else if answer.None? && Unencodable(env) then Errored
    else after
  }

  /** The state of an open Order after a Sync, by the server's status and the answers to its calls. */
  function StateAfter(s: Status, t: State, env: Env, view: View): State {
    if !env.issuer || !env.client then s.state
    else if s.state.Valid? then if Fails(s, t, env, view) then Errored else Valid
    else if !view.buildable || view.missing || view.leftover then s.state
    else if s.state.Ready? then if env.csr then StateFinalized(t, env) else Ready
    else if !view.anyFailed && !view.allFinal then s.state
    else if Refused(env.getError) then Errored
    else if env.getError.Some? then s.state
    else t
  }

  /** Whether a Sync gets hold of the certificate. */
  predicate Obtains(s: Status, t: State, env: Env, view: View) {
    && env.issuer && env.client && env.getError.None? && !env.preferred.Unavailable? && env.encode
    && if s.state.Valid? then env.fetchError.None?
       else
         && view.buildable && !view.missing && !view.leftover && s.state.Ready? && env.csr
         && (FinalizeAnswer(t, env).None? ||
             (FinalizeAnswer(t, env) == Some(Forbidden) && FinalizedTo(t, env).Valid? && env.fetchError.None?))
  }

  lemma FinalizeStateExactly(s: Status, server: Server, nextOrder: nat, env: Env)
    requires Open(s, server) && ServerOk(server, nextOrder) && s.state.Ready? && env.csr
    ensures var t := FinalizeOrder(s, server, env).0;
            var u := server[s.url.value].status;
            && t.state == StateFinalized(u, env)
            && t.certificate == if env.getError.None? && !env.preferred.Unavailable? && env.encode &&
                                   (FinalizeAnswer(u, env).None? || (FinalizeAnswer(u, env) == Some(Forbidden) &&
                                    FinalizedTo(u, env).Valid? && env.fetchError.None?))
                                then Delivered(env, server[s.url.value]) else ""
  {
    hide MissingMetadata, ServerOk, Urls;
    FinalizeIs(server, s.url.value, env);
    StatusesKnown(server, nextOrder, s.url.value);
  }

  /** Whatever the calls return: the state of an open Order after a Sync, and the certificate it stores. */
  lemma SyncExactly(s: Status, server: Server, nextOrder: nat, env: Env, view: View)
    requires Open(s, server) && ServerOk(server, nextOrder)
    ensures var o := SyncOrder(s, server, nextOrder, env, view);
            var t := server[s.url.value].status;
            && o.status.state == StateAfter(s, t, env, view)
            && o.status.certificate == if Obtains(s, t, env, view) then Delivered(env, server[s.url.value]) else ""
  {
    hide FinalizeOrder, StateFinalized, MissingMetadata, ServerOk, Urls, FinalizeAnswer, FinalizedTo;
    StatusesKnown(server, nextOrder, s.url.value);
    if s.state.Ready? && env.csr {
      FinalizeStateExactly(s, server, nextOrder, env);
    } else if s.state.Ready? {
      assert FinalizeOrder(s, server, env).0 == s by { NoRequest(s, server, env); }
    }
  }

  /** It asks to finalize exactly a ready Order, and changes nothing else at the server. */
  lemma RequestsExactly(s: Status, server: Server, nextOrder: nat, env: Env, view: View)
    requires Open(s, server) && ServerOk(server, nextOrder)
    ensures var o := SyncOrder(s, server, nextOrder, env, view);
            var t := server[s.url.value].status;
            var asks := env.issuer && env.client && view.buildable && !view.missing && !view.leftover &&
                        s.state.Ready? && env.csr && env.finalizeReached;
            && o.requested == (if asks then {s.url.value} else {})
            && o.server == (if asks then server[s.url.value := server[s.url.value].(status := FinalizedTo(t, env))] else server)
            && o.nextOrder == nextOrder
  {
    hide MissingMetadata, ServerOk, Urls, FetchFrom, FetchCertificate, StorePreferred, GetOrder, UpdateFrom, SetState,
      OnError, Refresh, Fail, Finalize, FinalizedTo;
    FinalizeServer(server, s.url.value, env);
  }

  lemma FinalizeServer(server: Server, id: nat, env: Env)
    requires id in server
    ensures Finalize(server, id, env).0 == server[id := server[id].(status := FinalizedTo(server[id].status, env))]
    ensures !env.finalizeReached ==> Finalize(server, id, env).0 == server
  {
    assert server == server[id := server[id]];
  }

  /** A failure is dated by the clock of the Sync that found it. */
  predicate Dated(s: Status, env: Env) { IsFailureState(s.state) ==> s.failureTime == Some(env.now) }

  lemma ReadDated(s: Status, r: Response, chain: string, e: CallError, env: Env)
    ensures Dated(UpdateFrom(s, r, env.now), env) && Dated(SetState(s, r.status, env.now), env) && Dated(Fail(s, env), env)
    ensures Dated(s, env) ==> Dated(OnError(s, e, env), env)
    ensures Dated(s, env) ==> Dated(FetchCertificate(s, r, env), env) && Dated(StorePreferred(s, chain, env), env)
  {
  }

  lemma FinalizeDated(s: Status, server: Server, env: Env)
    requires s.finalizeURL.Some? && Dated(s, env)
    ensures Dated(FinalizeOrder(s, server, env).0, env)
  {
    hide Finalize, UpdateFrom, Fail, SetState, FetchCertificate, StorePreferred, OnError, Dated, GetOrder;
    var (server1, result) := Finalize(server, s.finalizeURL.value, env);
    var get := GetOrder(s, server1, env);
    var chain := if result.Done? then result.value else "";
    match get
    case Failed(e) => ReadDated(s, Response(None, None, Valid, [], ""), chain, e, env);
    case Done(r) =>
      ReadDated(s, r, chain, Transient, env);
      ReadDated(s, r.(status := Valid), chain, Transient, env);
      ReadDated(UpdateFrom(s, r, env.now), r, chain, Transient, env);
      ReadDated(SetState(s, Valid, env.now), r, chain, Transient, env);
  }

  lemma SyncDates(s: Status, server: Server, nextOrder: nat, env: Env, view: View)
    requires Open(s, server)
    ensures Dated(SyncOrder(s, server, nextOrder, env, view).status, env)
  {
    hide FinalizeOrder, UpdateFrom, Fail, SetState, FetchCertificate, OnError, Dated, GetOrder, MissingMetadata, Urls, FetchFrom;
    assert Dated(s, env) by { NotFailed(s, server, env); }
    FinalizeDated(s, server, env);
    match GetOrder(s, server, env)
    case Failed(e) => ReadDated(s, Response(None, None, Valid, [], ""), "", e, env);
    case Done(r) =>
      ReadDated(s, r, "", Transient, env);
      ReadDated(s, r.(status := Pending), "", Transient, env);
      ReadDated(UpdateFrom(s, r, env.now), r, "", Transient, env);
  }

  lemma NotFailed(s: Status, server: Server, env: Env)
    requires Open(s, server)
    ensures Dated(s, env)
  {
  }

  lemma NoRequest(s: Status, server: Server, env: Env)
    requires s.finalizeURL.Some? && !env.csr
    ensures FinalizeOrder(s, server, env) == (s, server)
  {
  }

  /**
    If the server's order is already valid, the Order fails exactly on a 4xx from GetOrder, on
    a certificate that is refused or cannot be encoded, or on a 4xx other than 403 in place of
    the answer to the finalize request.
   */
  lemma StrandsExactly(s: Status, server: Server, nextOrder: nat, env: Env, view: View)
    requires Open(s, server) && ServerOk(server, nextOrder) && server[s.url.value].status.Valid?
    requires env.issuer && env.client && env.csr && ChallengesDone(view)
    ensures IsFailureState(SyncOrder(s, server, nextOrder, env, view).status.state) <==>
              || Refused(env.getError)
              || ((s.state.Valid? || (s.state.Ready? && FinalizeAnswer(Valid, env) == Some(Forbidden))) &&
                    env.getError.None? && CertificateLost(env))
              || (s.state.Ready? && !env.finalizeReached && Refused(env.finalizeError) &&
                    !env.finalizeError.value.Forbidden?)
  {
    hide SyncOrder, Open;
    FailsExactly(s, server, nextOrder, env, view);
  }

  /**
    With nothing failing, that is: exactly when the server's order is invalid, or when the
    Order is still ready while the server's order, finalized by an earlier Sync whose status
    was lost, is being processed.
   */
  lemma FailsWithoutFaults(s: Status, server: Server, nextOrder: nat, env: Env, view: View)
    requires Open(s, server) && ServerOk(server, nextOrder) && FaultFree(env) && ChallengesDone(view)
    ensures var o := SyncOrder(s, server, nextOrder, env, view);
            var t := server[s.url.value].status;
            IsFailureState(o.status.state) <==> t.Invalid? || (s.state.Ready? && t.Processing?)
  {
    hide SyncOrder;
    FailsExactly(s, server, nextOrder, env, view);
  }
}
