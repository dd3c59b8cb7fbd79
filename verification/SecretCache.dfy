/**
  The filtered Secret lister: a cache of full Secrets labelled as cert-manager's, a cache of
  the metadata of unlabelled Secrets, and a live read, against the API server's own state.
 */
module SecretCache {
  import opened Wrappers

  type Name = string

  datatype Secret = Secret(partOf: Option<string>, data: string)

  /** Selected by the typed cache: labelled "true". */
  predicate IsManaged(s: Secret) { s.partOf == Some("true") }

  /** Selected by the metadata cache: no such label at all. */
  predicate IsUnlabelled(s: Secret) { s.partOf == None }

  datatype Write = Put(name: Name, secret: Secret) | Delete(name: Name)

  type Store = map<Name, Secret>

  function Apply(m: Store, w: Write): Store {
    match w
    case Put(name, secret) => m[name := secret]
    case Delete(name) => m - {name}
  }

  /** The API server's state after the first `n` writes. */
  function StateAt(writes: seq<Write>, n: nat): Store
    requires n <= |writes|
  {
    if n == 0 then map[] else Apply(StateAt(writes, n - 1), writes[n - 1])
  }

  function Select(m: Store, keep: Secret -> bool): Store {
    map name | name in m && keep(m[name]) :: m[name]
  }

  /** What a watch with a selector delivers for a write: the object if selected, else its removal. */
  function Deliver(m: Store, w: Write, keep: Secret -> bool): Store {
    if w.Put? && keep(w.secret) then m[w.name := w.secret] else m - {w.name}
  }

  datatype Answer = Found(secret: Secret) | NotFound | Failed

  function Lookup(m: Store, name: Name): Answer {
    if name in m then Found(m[name]) else NotFound
  }

  class Caches {
    ghost var writes: seq<Write>
    ghost var typedAt: nat
    ghost var metaAt: nat
    var live: Store
    var typed: Store
    var meta: set<Name>

    /** Each cache holds the selected part of the state it has caught up with. */
    ghost predicate Valid()
      reads this
    {
      && typedAt <= |writes| && metaAt <= |writes|
      && live == StateAt(writes, |writes|)
      && typed == Select(StateAt(writes, typedAt), IsManaged)
      && meta == Select(StateAt(writes, metaAt), IsUnlabelled).Keys
    }

    constructor ()
      ensures Valid() && writes == []
    {
      writes, typedAt, metaAt := [], 0, 0;
      live, typed, meta := map[], map[], {};
    }

    /** A write at the API server. */
    method Accept(w: Write)
      requires Valid()
      modifies this
      ensures Valid() && writes == old(writes) + [w]
      ensures typedAt == old(typedAt) && metaAt == old(metaAt) && typed == old(typed) && meta == old(meta)
    {
      PrefixStates(writes, w, typedAt);
      PrefixStates(writes, w, metaAt);
      PrefixStates(writes, w, |writes|);
      writes := writes + [w];
      live := Apply(live, w);
    }

    /** The typed cache receives the next event. */
    method DeliverTyped(w: Write)
      requires Valid() && typedAt < |writes| && w == writes[typedAt]
      modifies this
      ensures Valid() && typedAt == old(typedAt) + 1
      ensures writes == old(writes) && metaAt == old(metaAt) && live == old(live) && meta == old(meta)
    {
      DeliverSelects(StateAt(writes, typedAt), w, IsManaged);
      typed := Deliver(typed, w, IsManaged);
      typedAt := typedAt + 1;
    }

    /** The metadata cache receives the next event. */
    method DeliverMeta(w: Write)
      requires Valid() && metaAt < |writes| && w == writes[metaAt]
      modifies this
      ensures Valid() && metaAt == old(metaAt) + 1
      ensures writes == old(writes) && typedAt == old(typedAt) && live == old(live) && typed == old(typed)
    {
      ghost var before := StateAt(writes, metaAt);
      DeliverSelects(before, w, IsUnlabelled);
      meta := if w.Put? && IsUnlabelled(w.secret) then meta + {w.name} else meta - {w.name};
      assert meta == Deliver(Select(before, IsUnlabelled), w, IsUnlabelled).Keys;
      metaAt := metaAt + 1;
    }

    /** What the API server's writes, as far as each cache has seen them, and the live read amount to. */
    method Get(name: Name, liveFails: bool) returns (r: Answer)
      requires Valid()
      ensures r.Failed? <==>
                liveFails && (var past := StateAt(writes, metaAt); name in past && IsUnlabelled(past[name]))
      ensures !r.Failed? ==> r == GetAt(writes, typedAt, metaAt, name)
    {
      var secretFoundInTypedCache := name in typed;
      var secretFoundInMetadataCache := name in meta;
      if secretFoundInMetadataCache {
        if liveFails {
          return Failed;
        }
        if name in live {
          return Found(live[name]);
        }
        return NotFound;
      }
      if secretFoundInTypedCache {
        return Found(typed[name]);
      }
      return NotFound;
    }
  }

  lemma {:induction false} PrefixStates(writes: seq<Write>, w: Write, n: nat)
    requires n <= |writes|
    ensures StateAt(writes + [w], n) == StateAt(writes, n)
  {
    if n > 0 {
      PrefixStates(writes, w, n - 1);
    }
  }

  /** Delivering events one by one keeps a cache equal to the selected part of the state. */
  lemma DeliverSelects(m: Store, w: Write, keep: Secret -> bool)
    ensures Deliver(Select(m, keep), w, keep) == Select(Apply(m, w), keep)
  {
  }

  /** Write `m` is the last one of the first `n` to the name. */
  ghost predicate IsLastWrite(writes: seq<Write>, m: nat, n: nat, name: Name)
    requires n <= |writes|
  {
    m < n && writes[m].name == name && forall i :: m < i < n ==> writes[i].name != name
  }

  /** The API server holds what was last put under a name and not deleted since, and nothing else. */
  lemma {:induction false} StateExactly(writes: seq<Write>, m: nat, n: nat, name: Name)
    requires n <= |writes| && IsLastWrite(writes, m, n, name)
    ensures name in StateAt(writes, n) <==> writes[m].Put?
    ensures writes[m].Put? ==> StateAt(writes, n)[name] == writes[m].secret
  {
    if m < n - 1 {
      assert writes[n - 1].name != name;
      StateExactly(writes, m, n - 1, name);
    }
  }

  lemma {:induction false} NeverWritten(writes: seq<Write>, n: nat, name: Name)
    requires n <= |writes| && forall i :: 0 <= i < n ==> writes[i].name != name
    ensures name !in StateAt(writes, n)
  {
    if n > 0 {
      NeverWritten(writes, n - 1, name);
    }
  }

  // ----- Agreement with the API server

  /** What Get answers when the caches have seen `p` and `q` of the writes. */
  function GetAt(writes: seq<Write>, p: nat, q: nat, name: Name): Answer
    requires p <= |writes| && q <= |writes|
  {
    if name in Select(StateAt(writes, q), IsUnlabelled) then Lookup(StateAt(writes, |writes|), name)
    else Lookup(Select(StateAt(writes, p), IsManaged), name)
  }

  /**
    Once both caches have caught up, Get agrees with the API server exactly on the names that
    are free or whose Secret is labelled "true" or not at all.
   */
  lemma CaughtUpAgrees(writes: seq<Write>, name: Name)
    ensures var live := StateAt(writes, |writes|);
            GetAt(writes, |writes|, |writes|, name) == Lookup(live, name) <==>
              name !in live || IsManaged(live[name]) || IsUnlabelled(live[name])
  {
  }

  /** By the label: "true" and none are found, any other value hides an existing Secret. */
  lemma FoundByLabel(writes: seq<Write>, name: Name)
    requires name in StateAt(writes, |writes|)
    ensures var s := StateAt(writes, |writes|)[name];
            GetAt(writes, |writes|, |writes|, name) ==
              match s.partOf
              case None => Found(s)
              case Some(v) => if v == "true" then Found(s) else NotFound
  {
  }

  /** A name the metadata cache holds is answered by the live object, however stale the typed cache is. */
  lemma MetadataMeansLive(writes: seq<Write>, p: nat, q: nat, name: Name)
    requires p <= |writes| && q <= |writes|
    requires var past := StateAt(writes, q); name in past && IsUnlabelled(past[name])
    ensures GetAt(writes, p, q, name) == Lookup(StateAt(writes, |writes|), name)
  {
  }

  /** Two caches at the same point never lose a Secret that was there then and still is. */
  lemma InStepNeverMisses(writes: seq<Write>, p: nat, name: Name)
    requires p <= |writes| && name in StateAt(writes, |writes|)
    requires var past := StateAt(writes, p); name in past && IsSelected(past[name])
    ensures GetAt(writes, p, p, name).Found?
  {
  }

  /**
    Out of step they can: a Secret that exists throughout, always with a selected label, is
    reported missing when the label was added and only the metadata cache has seen that.
   */
  lemma OutOfStepMisses(name: Name, data: string)
    ensures var writes := [Put(name, Secret(None, data)), Put(name, Secret(Some("true"), data))];
            && GetAt(writes, 1, 2, name) == NotFound
            && name in StateAt(writes, 1) && name in StateAt(writes, 2)
  {
    var writes := [Put(name, Secret(None, data)), Put(name, Secret(Some("true"), data))];
    assert StateAt(writes, 0) == map[];
    var one := StateAt(writes, 1);
    assert one == map[name := Secret(None, data)];
    var two := StateAt(writes, 2);
    assert two == map[name := Secret(Some("true"), data)];
  }

  predicate IsSelected(s: Secret) { IsManaged(s) || IsUnlabelled(s) }

  /**
    A Secret that one of the caches selects at the position of either, and that still exists,
    is reported missing exactly when its label was added between the two positions and the
    typed cache is the one behind, or removed and the metadata cache is.
   */
  lemma MissesExactly(writes: seq<Write>, p: nat, q: nat, name: Name)
    requires p <= |writes| && q <= |writes| && name in StateAt(writes, |writes|)
    requires var typed, meta := StateAt(writes, p), StateAt(writes, q);
             name in typed && name in meta && IsSelected(typed[name]) && IsSelected(meta[name])
    ensures GetAt(writes, p, q, name) == NotFound <==>
              IsUnlabelled(StateAt(writes, p)[name]) && IsManaged(StateAt(writes, q)[name])
  {
  }

  /** No write from `m` up to `n` deletes the Secret or changes its label. */
  ghost predicate LabelSteady(writes: seq<Write>, m: nat, n: nat, name: Name)
    requires m <= n <= |writes|
  {
    && name in StateAt(writes, m)
    && forall i :: m <= i < n && writes[i].name == name ==>
         writes[i].Put? && writes[i].secret.partOf == StateAt(writes, m)[name].partOf
  }

  lemma {:induction false} LabelKept(writes: seq<Write>, m: nat, n: nat, name: Name)
    requires m <= n <= |writes| && LabelSteady(writes, m, n, name)
    ensures name in StateAt(writes, n) && StateAt(writes, n)[name].partOf == StateAt(writes, m)[name].partOf
    decreases n
  {
    if m < n {
      LabelKept(writes, m, n - 1, name);
    }
  }

  /**
    However far apart the caches are, and however much else was written: a Secret that still
    exists, selected and with a label that no write between the two positions changed, is found.
   */
  lemma SteadyNeverMisses(writes: seq<Write>, p: nat, q: nat, name: Name)
    requires p <= |writes| && q <= |writes| && name in StateAt(writes, |writes|)
    requires var m, n := if p <= q then p else q, if p <= q then q else p;
             LabelSteady(writes, m, n, name) && IsSelected(StateAt(writes, m)[name])
    ensures GetAt(writes, p, q, name).Found?
  {
    LabelKept(writes, if p <= q then p else q, if p <= q then q else p, name);
    MissesExactly(writes, p, q, name);
  }
}
