/** The Sync of an Order as the controller runs it, updating the status in place. */
module OrderSync {
  import opened Wrappers
  import opened Acme
  import opened Order

  /** The Order being reconciled, and the server it talks to. */
  class Reconciler {
    var o: Status
    var server: Server
    var nextOrder: nat
    var intent: Intent
    var requested: set<nat>

    constructor (seen: Status, server: Server, nextOrder: nat)
      ensures o == seen && this.server == server && this.nextOrder == nextOrder
      ensures intent == Nothing && requested == {}
    {
      o := seen;
      this.server := server;
      this.nextOrder := nextOrder;
      intent := Nothing;
      requested := {};
    }

    method SetOrderState(state: State, now: nat)
      modifies this`o
      ensures o == SetState(old(o), state, now)
    {
      o := o.(state := state);
      if IsFailureState(o.state) {
        o := o.(failureTime := Some(now));
      }
    }

    method MarkFailed(env: Env)
      modifies this`o
      ensures o == Fail(old(o), env)
    {
      SetOrderState(Errored, env.now);
      o := o.(reason := env.message);
    }

    method UpdateOrderStatusFromACMEOrder(r: Response, now: nat)
      modifies this`o
      ensures o == UpdateFrom(old(o), r, now)
    {
      if r.uri.Some? {
        o := o.(url := r.uri);
      }
      o := o.(finalizeURL := r.finalizeURL);
      SetOrderState(r.status, now);
      if |o.authorizations| == 0 {
        o := o.(authorizations := Construct(r.authorizations));
      }
    }

    method UpdateOrderStatus(env: Env) returns (r: Call<Response>)
      modifies this`o
      ensures r == GetOrder(old(o), server, env)
      ensures o == if r.Done? then UpdateFrom(old(o), r.value, env.now) else old(o)
    {
      r := GetOrder(o, server, env);
      if r.Done? {
        UpdateOrderStatusFromACMEOrder(r.value, env.now);
      }
    }

    method CreateOrder(env: Env)
      requires o.url.None?
      modifies this`o, this`server, this`nextOrder
      ensures (o, server, nextOrder) == Create(old(o), old(server), old(nextOrder), env)
    {
      var id := nextOrder;
      if env.authorizeReached || env.authorizeError.None? {
        server := server[id := ServerOrder(env.newStatus, env.newAuthz, env.newCertificate)];
        nextOrder := id + 1;
      }
      if env.authorizeError.Some? {
        if env.authorizeError.value.Is4xx() || env.authorizeError.value.ProfileUnsupported? {
          MarkFailed(env);
        }
        return;
      }
      o := o.(url := Some(id));
      o := o.(finalizeURL := if env.showFinalize then Some(id) else None);
      o := o.(authorizations := Construct(env.newAuthz));
      SetOrderState(env.newStatus, env.now);
    }

    /** Fills in the metadata of each authorization that lacks it, stopping at the first error. */
    method FetchMetadataForAuthorizations(env: Env)
      modifies this`o
      ensures o == FetchFrom(old(o), 0, env)
    {
      var n := |o.authorizations|;
      for i := 0 to n
        invariant |o.authorizations| == n && FetchFrom(o, i, env) == FetchFrom(old(o), 0, env)
      {
        var authz := o.authorizations[i];
        if authz.identifier == "" {
          if i >= |env.metadata| {
            return;
          }
          match env.metadata[i] {
            case Failed(e) =>
              if e.Is4xx() {
                MarkFailed(env);
              }
              return;
            case Done(m) =>
              o := o.(authorizations := o.authorizations[i := m.(url := authz.url)]);
          }
        }
      }
    }

    method StoreCertificateOnStatus(chain: string, env: Env)
      modifies this`o
      ensures o == Store(old(o), chain, env)
    {
      if !env.encode {
        MarkFailed(env);
        return;
      }
      o := o.(certificate := chain);
    }

    method SyncCertificateDataWithOrder(r: Response, env: Env)
      modifies this`o
      ensures o == FetchCertificate(old(o), r, env)
    {
      if !r.status.Valid? {
        return;
      }
      if env.fetchError.Some? {
        if env.fetchError.value.Is4xx() {
          MarkFailed(env);
        }
        return;
      }
      match env.preferred {
        case Unavailable => return;
        case Found(other) => StoreCertificateOnStatus(other, env);
        case _ => StoreCertificateOnStatus(r.certificate, env);
      }
    }

    method SyncCertificateData(env: Env)
      modifies this`o
      ensures o == match GetOrder(old(o), server, env)
                   case Failed(e) => OnError(old(o), e, env)
                   case Done(r) => FetchCertificate(UpdateFrom(old(o), r, env.now), r, env)
    {
      var r := UpdateOrderStatus(env);
      if r.Failed? {
        if r.error.Is4xx() {
          MarkFailed(env);
        }
        return;
      }
      SyncCertificateDataWithOrder(r.value, env);
    }

    method FinalizeReady(env: Env)
      requires o.finalizeURL.Some?
      modifies this`o, this`server, this`requested
      ensures (o, server) == FinalizeOrder(old(o), old(server), env)
      ensures requested == old(requested) + if env.csr && env.finalizeReached then {old(o).finalizeURL.value} else {}
    {
      if !env.csr {
        return;
      }
      var (server1, result) := Finalize(server, o.finalizeURL.value, env);
      server := server1;
      if env.finalizeReached {
        requested := requested + {o.finalizeURL.value};
      }
      if result.Failed? && result.error.Forbidden? {
        var r := GetOrder(o, server, env);
        if r.Failed? {
          if r.error.Is4xx() {
            MarkFailed(env);
          }
          return;
        }
        if r.value.status.Valid? {
          SetOrderState(Valid, env.now);
          SyncCertificateDataWithOrder(r.value, env);
          return;
        }
      }
      if result.Failed? && result.error.Is4xx() {
        MarkFailed(env);
        return;
      }
      var r := UpdateOrderStatus(env);
      if r.Failed? {
        if r.error.Is4xx() {
          MarkFailed(env);
        }
        return;
      }
      if result.Failed? {
        return;
      }
      match env.preferred {
        case Unavailable => return;
        case Found(other) => StoreCertificateOnStatus(other, env);
        case _ => StoreCertificateOnStatus(result.value, env);
      }
    }

    method Sync(env: Env, view: View)
      requires intent == Nothing && requested == {}
      modifies this
      ensures Outcome(o, server, nextOrder, intent, requested) ==
              SyncOrder(old(o), old(server), old(nextOrder), env, view)
    {
      if !env.issuer || !env.client {
        return;
      }
      if IsFailureState(o.state) {
        return;
      } else if o.url.None? {
        CreateOrder(env);
        return;
      } else if o.finalizeURL.None? {
        var r := UpdateOrderStatus(env);
        if r.Failed? && r.error.Is4xx() {
          MarkFailed(env);
        }
        return;
      } else if MissingMetadata(o) {
        FetchMetadataForAuthorizations(env);
        return;
      } else if o.state.Valid? && o.certificate == "" {
        SyncCertificateData(env);
        return;
      } else if o.state.Valid? && o.certificate != "" {
        intent := DeleteAll;
        return;
      }
      if !view.buildable {
        return;
      }
      if view.missing {
        if env.keys {
          intent := CreateRequired;
        }
        return;
      }
      if view.leftover {
        intent := DeleteLeftover;
        return;
      }
      if o.state.Ready? {
        FinalizeReady(env);
        return;
      }
      if !view.anyFailed && !view.allFinal {
        return;
      }
      var r := GetOrder(o, server, env);
      if r.Failed? {
        if r.error.Is4xx() {
          MarkFailed(env);
        }
        return;
      }
      if view.anyFailed {
        UpdateOrderStatusFromACMEOrder(r.value, env.now);
      } else if view.allFinal && r.value.status.Pending? {
        SetOrderState(Pending, env.now);
      } else {
        UpdateOrderStatusFromACMEOrder(r.value, env.now);
      }
    }
  }

  // ----- Choosing a certificate chain

  datatype Cert = Parsed(issuer: string) | Garbage

  datatype Choice = Chosen(chain: seq<Cert>) | NoMatch | ChainError

  /** Whether the topmost certificate of a chain was issued under the preferred name. */
  predicate Matches(chain: seq<Cert>, preferred: string) {
    chain != [] && chain[|chain| - 1] == Parsed(preferred)
  }

  predicate Unreadable(chain: seq<Cert>) { chain != [] && chain[|chain| - 1].Garbage? }

  predicate Ok(chain: Option<seq<Cert>>) { chain.Some? && !Unreadable(chain.value) }

  /** The first `i` chains can be fetched and read, and none of them matches. */
  ghost predicate PassedOver(chains: seq<Option<seq<Cert>>>, i: nat, preferred: string)
    requires i <= |chains|
  {
    forall j :: 0 <= j < i ==> Ok(chains[j]) && !Matches(chains[j].value, preferred)
  }

  /** The default chain and then the alternates, as far as they can be listed. */
  function Offered(default: seq<Cert>, alternates: Option<seq<Option<seq<Cert>>>>): seq<Option<seq<Cert>>> {
    [Some(default)] + if alternates.Some? then alternates.value else [None]
  }

  /** The first chain issued under the preferred name; an error if one before it cannot be had. */
  method PreferredChain(default: seq<Cert>, alternates: Option<seq<Option<seq<Cert>>>>, preferred: string)
    returns (r: Choice)
    ensures var all := Offered(default, alternates);
            match r
            case Chosen(chain) =>
              exists i :: 0 <= i < |all| && PassedOver(all, i, preferred) && all[i] == Some(chain) && Matches(chain, preferred)
            case NoMatch => PassedOver(all, |all|, preferred)
            case ChainError => exists i :: 0 <= i < |all| && PassedOver(all, i, preferred) && !Ok(all[i])
  {
    ghost var all := Offered(default, alternates);
    assert PassedOver(all, 0, preferred);
    if default != [] && default[|default| - 1].Garbage? {
      return ChainError;
    }
    if default != [] && default[|default| - 1].issuer == preferred {
      return Chosen(default);
    }
    assert PassedOver(all, 1, preferred);
    if alternates.None? {
      return ChainError;
    }
    var chains := alternates.value;
    for i := 0 to |chains|
      invariant PassedOver(all, i + 1, preferred)
    {
      assert all[i + 1] == chains[i];
      if chains[i].None? {
        return ChainError;
      }
      var chain := chains[i].value;
      if chain != [] {
        if chain[|chain| - 1].Garbage? {
          return ChainError;
        }
        if chain[|chain| - 1].issuer == preferred {
          return Chosen(chain);
        }
      }
    }
    return NoMatch;
  }
}
