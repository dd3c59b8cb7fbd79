/** CA bundles that grow by merging, and what they hold after any history of merges. */
module Bundle {
  import opened Wrappers

  /** A certificate is known by its raw bytes. */
  type Raw = string

  /** PEM data: certificates in order, none for the empty text, or text that does not parse. */
  datatype Data = Certificates(raw: seq<Raw>) | Unreadable(bytes: string)

  /** The first occurrence of every certificate. */
  function Dedup(s: seq<Raw>): (r: seq<Raw>)
    ensures forall c :: c in r <==> c in s
  {
    if s == [] then []
    else
      var n := |s| - 1;
      assert s == s[..n] + [s[n]];
      if s[n] in s[..n] then Dedup(s[..n]) else Dedup(s[..n]) + [s[n]]
  }

  /** The certificates that have not expired. */
  function Alive(now: int, s: seq<Raw>, notAfter: Raw -> int): (r: seq<Raw>)
    ensures forall c :: c in r <==> c in s && now <= notAfter(c)
  {
    if s == [] then []
    else
      var n := |s| - 1;
      assert s == s[..n] + [s[n]];
      if now <= notAfter(s[n]) then Alive(now, s[..n], notAfter) + [s[n]] else Alive(now, s[..n], notAfter)
  }

  function Merge(bundle: seq<Raw>, additional: seq<Raw>, now: int, notAfter: Raw -> int): seq<Raw> {
    Alive(now, Dedup(bundle + additional), notAfter)
  }

  // ----- The algebra of the two filters

  lemma DedupSnoc(s: seq<Raw>, c: Raw)
    ensures Dedup(s + [c]) == if c in s then Dedup(s) else Dedup(s) + [c]
  {
    assert (s + [c])[..|s|] == s;
  }

  lemma AliveSnoc(now: int, s: seq<Raw>, c: Raw, notAfter: Raw -> int)
    ensures Alive(now, s + [c], notAfter) ==
            if now <= notAfter(c) then Alive(now, s, notAfter) + [c] else Alive(now, s, notAfter)
  {
    assert (s + [c])[..|s|] == s;
  }

  lemma NothingMerged(now: int, notAfter: Raw -> int)
    ensures Alive(now, Dedup([]), notAfter) == [] == Dedup(Alive(now, [], notAfter))
  {
  }

  lemma {:induction false} AliveAppend(now: int, s: seq<Raw>, t: seq<Raw>, notAfter: Raw -> int)
    ensures Alive(now, s + t, notAfter) == Alive(now, s, notAfter) + Alive(now, t, notAfter)
  {
    hide Alive;
    if t == [] {
      assert s + t == s;
      NothingAlive(now, notAfter);
    } else {
      var n := |t| - 1;
      assert s + t == (s + t[..n]) + [t[n]] && t == t[..n] + [t[n]];
      AliveAppend(now, s, t[..n], notAfter);
      AliveSnoc(now, s + t[..n], t[n], notAfter);
      AliveSnoc(now, t[..n], t[n], notAfter);
    }
  }

  lemma NothingAlive(now: int, notAfter: Raw -> int)
    ensures Alive(now, [], notAfter) == []
  {
  }

  /** Removing expired certificates and removing repeats commute. */
  lemma {:induction false} AliveDedup(now: int, s: seq<Raw>, notAfter: Raw -> int)
    ensures Alive(now, Dedup(s), notAfter) == Dedup(Alive(now, s, notAfter))
  {
    hide Alive, Dedup;
    if s == [] {
      NothingMerged(now, notAfter);
    } else {
      var n := |s| - 1;
      assert s == s[..n] + [s[n]];
      AliveDedup(now, s[..n], notAfter);
      DedupSnoc(s[..n], s[n]);
      AliveSnoc(now, s[..n], s[n], notAfter);
      AliveSnoc(now, Dedup(s[..n]), s[n], notAfter);
      DedupSnoc(Alive(now, s[..n], notAfter), s[n]);
    }
  }

  /** A certificate that has expired stays expired. */
  lemma {:induction false} AliveTwice(earlier: int, later: int, s: seq<Raw>, notAfter: Raw -> int)
    requires earlier <= later
    ensures Alive(later, Alive(earlier, s, notAfter), notAfter) == Alive(later, s, notAfter)
  {
    hide Alive;
    if s == [] {
      NothingAlive(earlier, notAfter);
    } else {
      var n := |s| - 1;
      assert s == s[..n] + [s[n]];
      AliveTwice(earlier, later, s[..n], notAfter);
      AliveSnoc(earlier, s[..n], s[n], notAfter);
      AliveSnoc(later, s[..n], s[n], notAfter);
      AliveSnoc(later, Alive(earlier, s[..n], notAfter), s[n], notAfter);
    }
  }

  lemma {:induction false} DedupPrefix(s: seq<Raw>, t: seq<Raw>)
    ensures Dedup(Dedup(s) + t) == Dedup(s + t)
  {
    if t == [] {
      assert Dedup(s) + t == Dedup(s) && s + t == s;
      DedupTwice(s);
    } else {
      var n := |t| - 1;
      assert Dedup(s) + t == (Dedup(s) + t[..n]) + [t[n]] && s + t == (s + t[..n]) + [t[n]];
      DedupPrefix(s, t[..n]);
      DedupSnoc(Dedup(s) + t[..n], t[n]);
      DedupSnoc(s + t[..n], t[n]);
    }
  }

  lemma {:induction false} DedupTwice(s: seq<Raw>)
    ensures Dedup(Dedup(s)) == Dedup(s)
  {
    if s != [] {
      var n := |s| - 1;
      DedupTwice(s[..n]);
      DedupSnoc(Dedup(s[..n]), s[n]);
    }
  }

  /** No certificate twice, and each where it was first supplied. */
  lemma {:induction false} DedupIsFirst(s: seq<Raw>, i: nat, j: nat)
    requires i < j < |Dedup(s)|
    ensures Dedup(s)[i] != Dedup(s)[j]
    ensures exists p, q :: 0 <= p < q < |s| && s[p] == Dedup(s)[i] && s[q] == Dedup(s)[j] && s[q] !in s[..q]
  {
    var n := |s| - 1;
    var d := Dedup(s[..n]);
    if j < |d| {
      DedupIsFirst(s[..n], i, j);
      var p, q :| 0 <= p < q < n && s[..n][p] == d[i] && s[..n][q] == d[j] && s[..n][q] !in s[..n][..q];
      assert s[..n][..q] == s[..q];
      assert s[p] == Dedup(s)[i] && s[q] == Dedup(s)[j] && s[q] !in s[..q];
    } else {
      assert d[i] in s[..n];
      var p :| 0 <= p < n && s[p] == d[i];
      assert s[p] == Dedup(s)[i] && s[n] == Dedup(s)[j] && s[n] !in s[..n];
    }
  }

  // ----- Histories of merges

  datatype Supply = Supply(now: int, certs: seq<Raw>)

  /** The bundle after every supply has been merged in, each at its own time. */
  function Folded(start: seq<Raw>, supplies: seq<Supply>, notAfter: Raw -> int): seq<Raw> {
    if supplies == [] then start
    else
      var n := |supplies| - 1;
      Merge(Folded(start, supplies[..n], notAfter), supplies[n].certs, supplies[n].now, notAfter)
  }

  /** Everything ever supplied, oldest first. */
  function Supplied(start: seq<Raw>, supplies: seq<Supply>): seq<Raw> {
    if supplies == [] then start
    else Supplied(start, supplies[..|supplies| - 1]) + supplies[|supplies| - 1].certs
  }

  ghost predicate ClockRuns(supplies: seq<Supply>) {
    forall i, j :: 0 <= i < j < |supplies| ==> supplies[i].now <= supplies[j].now
  }

  /** A merge into the result of an earlier merge is a merge into all that went into it. */
  lemma MergeTwice(past: seq<Raw>, more: seq<Raw>, earlier: int, later: int, notAfter: Raw -> int)
    requires earlier <= later
    ensures Merge(Alive(earlier, Dedup(past), notAfter), more, later, notAfter) == Merge(past, more, later, notAfter)
  {
    hide Alive, Dedup;
    var held := Alive(earlier, Dedup(past), notAfter);
    AliveDedup(later, held + more, notAfter);
    AliveAppend(later, held, more, notAfter);
    AliveTwice(earlier, later, Dedup(past), notAfter);
    AliveDedup(later, past, notAfter);
    DedupPrefix(Alive(later, past, notAfter), Alive(later, more, notAfter));
    AliveAppend(later, past, more, notAfter);
    AliveDedup(later, past + more, notAfter);
  }

  /**
    After any history, the bundle holds the first occurrences of everything ever supplied
    that had not expired at the last merge.
   */
  lemma {:induction false} BundleIsHistory(start: seq<Raw>, supplies: seq<Supply>, notAfter: Raw -> int)
    requires supplies != [] && ClockRuns(supplies)
    ensures Folded(start, supplies, notAfter) ==
            Alive(supplies[|supplies| - 1].now, Dedup(Supplied(start, supplies)), notAfter)
  {
    hide Alive, Dedup;
    var n := |supplies| - 1;
    if n > 0 {
      BundleIsHistory(start, supplies[..n], notAfter);
      MergeTwice(Supplied(start, supplies[..n]), supplies[n].certs, supplies[n - 1].now, supplies[n].now, notAfter);
    } else {
      assert supplies[..0] == [];
    }
  }

  /** Supplying the same certificates again, or any that the bundle holds, only removes what has expired. */
  lemma MergeIdempotent(start: seq<Raw>, certs: seq<Raw>, again: seq<Raw>, earlier: int, later: int,
                        notAfter: Raw -> int)
    requires earlier <= later && forall c :: c in again ==> c in start + certs
    ensures Merge(Merge(start, certs, earlier, notAfter), again, later, notAfter) ==
            Alive(later, Merge(start, certs, earlier, notAfter), notAfter)
  {
    hide Alive, Dedup;
    MergeTwice(start + certs, again, earlier, later, notAfter);
    DedupKnown(start + certs, again);
    AliveTwice(earlier, later, Dedup(start + certs), notAfter);
  }

  lemma {:induction false} DedupKnown(s: seq<Raw>, t: seq<Raw>)
    requires forall c :: c in t ==> c in s
    ensures Dedup(s + t) == Dedup(s)
  {
    if t == [] {
      assert s + t == s;
    } else {
      var n := |t| - 1;
      assert s + t == (s + t[..n]) + [t[n]];
      DedupKnown(s, t[..n]);
      DedupSnoc(s + t[..n], t[n]);
    }
  }

  /** Two batches merged at once or one after the other give the same bundle. */
  lemma BatchesCompose(start: seq<Raw>, first: seq<Raw>, second: seq<Raw>, earlier: int, later: int,
                       notAfter: Raw -> int)
    requires earlier <= later
    ensures Merge(Merge(start, first, earlier, notAfter), second, later, notAfter) ==
            Merge(start, first + second, later, notAfter)
  {
    hide Alive, Dedup;
    MergeTwice(start + first, second, earlier, later, notAfter);
    assert start + first + second == start + (first + second);
  }

  // ----- The code

  method AppendCertificatesToBundle(bundle: Data, additional: Data, now: int, notAfter: Raw -> int)
    returns (r: Result<Data>)
    ensures r.Err? <==> bundle.Unreadable? || additional.Unreadable?
    ensures r.Ok? ==> r.value == Certificates(Merge(bundle.raw, additional.raw, now, notAfter))
  {
    hide Alive, Dedup;
    if bundle.Unreadable? {
      return Err;
    }
    if additional.Unreadable? {
      return Err;
    }
    var seen: set<Raw> := {};
    var merged: seq<Raw> := [];
    ghost var done: seq<Raw> := [];
    NothingMerged(now, notAfter);
    for i := 0 to |bundle.raw|
      invariant done == bundle.raw[..i]
      invariant merged == Alive(now, Dedup(done), notAfter) && forall c :: c in seen <==> c in merged
    {
      MergeOne(now, done, bundle.raw[i], notAfter);
      if bundle.raw[i] !in seen && now <= notAfter(bundle.raw[i]) {
        merged := merged + [bundle.raw[i]];
        seen := seen + {bundle.raw[i]};
      }
      done := done + [bundle.raw[i]];
    }
    assert done == bundle.raw + additional.raw[..0];
    for i := 0 to |additional.raw|
      invariant done == bundle.raw + additional.raw[..i]
      invariant merged == Alive(now, Dedup(done), notAfter) && forall c :: c in seen <==> c in merged
    {
      MergeOne(now, done, additional.raw[i], notAfter);
      if additional.raw[i] !in seen && now <= notAfter(additional.raw[i]) {
        merged := merged + [additional.raw[i]];
        seen := seen + {additional.raw[i]};
      }
      done := done + [additional.raw[i]];
    }
    assert done == bundle.raw + additional.raw;
    return Ok(Certificates(merged));
  }

  lemma MergeOne(now: int, done: seq<Raw>, c: Raw, notAfter: Raw -> int)
    ensures Alive(now, Dedup(done + [c]), notAfter) ==
            if c !in Alive(now, Dedup(done), notAfter) && now <= notAfter(c)
            then Alive(now, Dedup(done), notAfter) + [c]
            else Alive(now, Dedup(done), notAfter)
  {
    DedupSnoc(done, c);
    AliveSnoc(now, Dedup(done), c, notAfter);
  }

  /** The webhooks of a MutatingWebhookConfiguration, each with its own CA bundle. */
  class MutatingWebhookTarget {
    var webhooks: seq<Data>

    /** The CA data is merged into every bundle, or replaces it when merging is off or impossible. */
    method SetCA(data: Data, merging: bool, now: int, notAfter: Raw -> int)
      modifies this
      ensures |webhooks| == |old(webhooks)|
      ensures forall i :: 0 <= i < |webhooks| ==>
                webhooks[i] == Injected(old(webhooks)[i], data, merging, now, notAfter)
    {
      for ind := 0 to |webhooks|
        invariant |webhooks| == |old(webhooks)|
        invariant forall i :: 0 <= i < ind ==>
                    webhooks[i] == Injected(old(webhooks)[i], data, merging, now, notAfter)
        invariant forall i :: ind <= i < |webhooks| ==> webhooks[i] == old(webhooks)[i]
      {
        if merging {
          var bundle := AppendCertificatesToBundle(webhooks[ind], data, now, notAfter);
          if bundle.Err? {
            bundle := Ok(data);
          }
          webhooks := webhooks[ind := bundle.value];
        } else {
          webhooks := webhooks[ind := data];
        }
      }
    }
  }

  function Injected(bundle: Data, data: Data, merging: bool, now: int, notAfter: Raw -> int): Data {
    if merging && bundle.Certificates? && data.Certificates? then
      Certificates(Merge(bundle.raw, data.raw, now, notAfter))
    else data
  }

  /** The bundle of one webhook after CA data has been injected again and again. */
  function InjectedAll(bundle: Data, supplies: seq<Supply>, notAfter: Raw -> int): Data {
    if supplies == [] then bundle
    else
      var n := |supplies| - 1;
      Injected(InjectedAll(bundle, supplies[..n], notAfter), Certificates(supplies[n].certs), true, supplies[n].now, notAfter)
  }

  lemma {:induction false} InjectionsFold(start: seq<Raw>, supplies: seq<Supply>, notAfter: Raw -> int)
    ensures InjectedAll(Certificates(start), supplies, notAfter) == Certificates(Folded(start, supplies, notAfter))
  {
    hide Merge;
    if supplies != [] {
      InjectionsFold(start, supplies[..|supplies| - 1], notAfter);
    }
  }

  /** A webhook trusts exactly what it was ever given and has not expired since. */
  lemma InjectionsAreHistory(start: seq<Raw>, supplies: seq<Supply>, notAfter: Raw -> int)
    requires supplies != [] && ClockRuns(supplies)
    ensures InjectedAll(Certificates(start), supplies, notAfter) ==
            Certificates(Alive(supplies[|supplies| - 1].now, Dedup(Supplied(start, supplies)), notAfter))
  {
    hide InjectedAll, Folded, Alive, Dedup, Supplied;
    InjectionsFold(start, supplies, notAfter);
    BundleIsHistory(start, supplies, notAfter);
  }

  /** A trusted certificate that has not expired survives an injection exactly when the data was merged or holds it. */
  lemma TrustKeptExactly(bundle: seq<Raw>, data: Data, merging: bool, now: int, notAfter: Raw -> int, c: Raw)
    requires c in bundle && now <= notAfter(c)
    ensures var after := Injected(Certificates(bundle), data, merging, now, notAfter);
            (after.Certificates? && c in after.raw) <==> data.Certificates? && (merging || c in data.raw)
  {
    if merging && data.Certificates? {
      assert c in bundle + data.raw;
    }
  }

  /** Whatever the bundle was, readable data that has not expired is trusted after an injection. */
  lemma DataTrusted(bundle: Data, data: seq<Raw>, merging: bool, now: int, notAfter: Raw -> int, c: Raw)
    requires c in data && now <= notAfter(c)
    ensures var after := Injected(bundle, Certificates(data), merging, now, notAfter);
            after.Certificates? && c in after.raw
  {
    if bundle.Certificates? {
      assert c in bundle.raw + data;
    }
  }
}
