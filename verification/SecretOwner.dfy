/**
  Which of the Certificates that share a Secret owns it. The answer must not depend on the
  order in which a lister returns them.
 */
module SecretOwner {
  import opened Wrappers
  import opened Sorting
  import opened Unsorted

  datatype Certificate = Certificate(name: string, secretName: string, created: int)

  /** Older first; certificates of the same age by name. */
  predicate Older(a: Certificate, b: Certificate) {
    a.created < b.created || (a.created == b.created && Compare(a.name, b.name) < 0)
  }

  function CertName(c: Certificate): string { c.name }

  lemma OlderIsWeakOrder()
    ensures WeakOrder(Older)
  {
    forall a, b | Older(a, b)
      ensures !Older(b, a)
    {
      CompareSymmetric(a.name, b.name);
    }
    forall a, b, c | !Older(a, b) && !Older(b, c)
      ensures !Older(a, c)
    {
      CompareSymmetric(a.name, b.name);
      CompareSymmetric(b.name, c.name);
      CompareSymmetric(a.name, c.name);
      if a.created == b.created == c.created {
        CompareTransitive(c.name, b.name, a.name);
      }
    }
  }

  function Sharing(crts: seq<Certificate>, secretName: string): (r: seq<Certificate>)
    ensures forall c :: c in r <==> c in crts && c.secretName == secretName
  {
    if crts == [] then []
    else
      var last := crts[|crts| - 1];
      assert crts == crts[..|crts| - 1] + [last];
      Sharing(crts[..|crts| - 1], secretName) + (if last.secretName == secretName then [last] else [])
  }

  function CertNames(crts: seq<Certificate>): seq<string> {
    seq(|crts|, i requires 0 <= i < |crts| => crts[i].name)
  }

  function Without(names: seq<string>, name: string): seq<string> {
    if names == [] then [] else (if names[0] != name then [names[0]] else []) + Without(names[1..], name)
  }

  datatype SecretRead = Missing | Present(annotation: Option<string>) | ReadError

  function SortedPeers(crts: seq<Certificate>, secretName: string): seq<Certificate> {
    SortBy(Sharing(crts, secretName), Older)
  }

  /** The annotated certificate if it shares the Secret, else the oldest that does. */
  function OwnerName(crts: seq<Certificate>, secretName: string, read: SecretRead): string
    requires SortedPeers(crts, secretName) != []
  {
    var names := CertNames(SortedPeers(crts, secretName));
    if read.Present? && read.annotation.Some? && read.annotation.value in names then read.annotation.value
    else names[0]
  }

  lemma SharingStep(crts: seq<Certificate>, secretName: string, i: nat)
    requires i < |crts|
    ensures Sharing(crts[..i + 1], secretName) ==
            Sharing(crts[..i], secretName) + (if crts[i].secretName == secretName then [crts[i]] else [])
  {
    assert crts[..i + 1][..i] == crts[..i];
  }

  lemma PeersExist(crts: seq<Certificate>, secretName: string)
    ensures |SortedPeers(crts, secretName)| == |Sharing(crts, secretName)|
    ensures |Sharing(crts, secretName)| == 1 ==> SortedPeers(crts, secretName) == Sharing(crts, secretName)
  {
    var peers := Sharing(crts, secretName);
    assert |multiset(SortBy(peers, Older))| == |multiset(peers)|;
  }

  /**
    The secret's owner as seen by one certificate, and the others that share the Secret. A
    certificate that has the Secret to itself is told so without a read of the Secret.
   */
  method CertificateOwnsSecret(crts: seq<Certificate>, crt: Certificate, read: SecretRead)
    returns (r: Result<(bool, seq<string>)>)
    requires Sharing(crts, crt.secretName) != []
    ensures SortedPeers(crts, crt.secretName) != []
    ensures r.Err? <==> read.ReadError? && CertNames(Sharing(crts, crt.secretName)) != [crt.name]
    ensures r.Ok? ==> r.value.0 == (crt.name == OwnerName(crts, crt.secretName, read))
    ensures r.Ok? ==> r.value.1 == Without(CertNames(SortedPeers(crts, crt.secretName)), crt.name)
  {
    hide Sharing, SortedPeers, SortBy;
    PeersExist(crts, crt.secretName);
    var duplicateCrts := [];
    assert Sharing(crts[..0], crt.secretName) == [] by {
      SharingNone(crt.secretName);
      assert crts[..0] == [];
    }
    for i := 0 to |crts|
      invariant duplicateCrts == Sharing(crts[..i], crt.secretName)
    {
      SharingStep(crts, crt.secretName, i);
      if crts[i].secretName == crt.secretName {
        duplicateCrts := duplicateCrts + [crts[i]];
      }
    }
    assert crts[..|crts|] == crts;
    if |duplicateCrts| == 1 && duplicateCrts[0].name == crt.name {
      assert CertNames(duplicateCrts) == [crt.name];
      return Ok((true, []));
    }
    duplicateCrts := SortedPeers(crts, crt.secretName);
    var duplicateNames := [];
    for i := 0 to |duplicateCrts|
      invariant duplicateNames == CertNames(duplicateCrts)[..i]
    {
      duplicateNames := duplicateNames + [duplicateCrts[i].name];
    }
    assert duplicateNames == CertNames(duplicateCrts);
    var ownerCertificate := duplicateNames[0];
    if read.ReadError? {
      return Err;
    }
    if read.Present? && read.annotation.Some? && read.annotation.value in duplicateNames {
      ownerCertificate := read.annotation.value;
    }
    return Ok((crt.name == ownerCertificate, Without(duplicateNames, crt.name)));
  }

  lemma SharingNone(secretName: string)
    ensures Sharing([], secretName) == []
  {
  }

  // ----- Exactly one owner, whatever the order

  lemma OwnerIsPeer(crts: seq<Certificate>, secretName: string, read: SecretRead)
    requires SortedPeers(crts, secretName) != []
    ensures exists c :: c in Sharing(crts, secretName) && c.name == OwnerName(crts, secretName, read)
  {
    var peers := SortedPeers(crts, secretName);
    SameMembers(Sharing(crts, secretName), peers);
    var owner := OwnerName(crts, secretName, read);
    assert owner in CertNames(peers);
    var i :| 0 <= i < |peers| && CertNames(peers)[i] == owner;
    assert peers[i] in Sharing(crts, secretName) && peers[i].name == owner;
  }

  /** Of the certificates that share a Secret, one and only one is told that it is the owner. */
  lemma ExactlyOneOwner(crts: seq<Certificate>, secretName: string, read: SecretRead)
    requires Distinct(crts, CertName) && SortedPeers(crts, secretName) != []
    ensures exists c :: c in crts && c.secretName == secretName && c.name == OwnerName(crts, secretName, read)
    ensures forall c, d | c in crts && d in crts && c.name == OwnerName(crts, secretName, read) == d.name :: c == d
  {
    OwnerIsPeer(crts, secretName, read);
    forall c, d | c in crts && d in crts && c.name == d.name
      ensures c == d
    {
      var i :| 0 <= i < |crts| && crts[i] == c;
      var j :| 0 <= j < |crts| && crts[j] == d;
      assert CertName(crts[i]) == CertName(crts[j]);
      assert i == j;
    }
  }

  /** Without a usable annotation, the owner is older than every other certificate sharing the Secret. */
  lemma DefaultOwnerIsOldest(crts: seq<Certificate>, secretName: string, read: SecretRead, c: Certificate)
    requires Distinct(crts, CertName) && c in Sharing(crts, secretName)
    requires SortedPeers(crts, secretName) != []
    requires !(read.Present? && read.annotation.Some? && read.annotation.value in CertNames(SortedPeers(crts, secretName)))
    ensures var owner := SortedPeers(crts, secretName)[0];
            && owner.name == OwnerName(crts, secretName, read)
            && (c == owner || owner.created < c.created ||
                (owner.created == c.created && Compare(owner.name, c.name) < 0))
  {
    hide SortBy;
    var peers := SortedPeers(crts, secretName);
    OlderIsWeakOrder();
    SortBySorted(Sharing(crts, secretName), Older);
    SameMembers(Sharing(crts, secretName), peers);
    assert c in peers;
    var i :| 0 <= i < |peers| && peers[i] == c;
    if i > 0 {
      assert !Older(peers[i], peers[0]);
      CompareSymmetric(c.name, peers[0].name);
    }
  }

  /** An annotation that names a certificate sharing the Secret decides. */
  lemma AnnotatedOwner(crts: seq<Certificate>, secretName: string, c: Certificate)
    requires c in Sharing(crts, secretName) && SortedPeers(crts, secretName) != []
    ensures OwnerName(crts, secretName, Present(Some(c.name))) == c.name
  {
    hide SortBy;
    var peers := SortedPeers(crts, secretName);
    SameMembers(Sharing(crts, secretName), peers);
    var i :| 0 <= i < |peers| && peers[i] == c;
    assert CertNames(peers)[i] == c.name;
  }

  lemma {:induction false} WithoutExactly(names: seq<string>, name: string)
    ensures forall n :: n in Without(names, name) <==> n in names && n != name
  {
    if names != [] {
      assert names == [names[0]] + names[1..];
      WithoutExactly(names[1..], name);
    }
  }

  lemma {:induction false} WithoutInOrder(names: seq<string>, name: string, i: nat, j: nat) returns (p: nat, q: nat)
    requires i < j < |Without(names, name)|
    ensures p < q < |names| && names[p] == Without(names, name)[i] && names[q] == Without(names, name)[j]
  {
    var rest := Without(names[1..], name);
    if names[0] == name {
      assert Without(names, name) == rest;
      p, q := WithoutInOrder(names[1..], name, i, j);
      p, q := p + 1, q + 1;
    } else {
      assert Without(names, name) == [names[0]] + rest;
      if i > 0 {
        p, q := WithoutInOrder(names[1..], name, i - 1, j - 1);
        p, q := p + 1, q + 1;
      } else {
        WithoutExactly(names[1..], name);
        assert rest[j - 1] in rest;
        q :| 0 <= q < |names[1..]| && names[1..][q] == rest[j - 1];
        p, q := 0, q + 1;
      }
    }
  }

  /** A certificate of that name shares the Secret. */
  ghost predicate Shares(crts: seq<Certificate>, secretName: string, name: string) {
    exists c :: c in crts && c.secretName == secretName && c.name == name
  }

  /** Certificates of these names are there, the first older than the second. */
  ghost predicate OlderNames(crts: seq<Certificate>, a: string, b: string) {
    exists c, d :: c in crts && d in crts && c.name == a && d.name == b && Older(c, d)
  }

  /** The other names a certificate is told are those of all others sharing the Secret, the older first. */
  lemma OthersExactly(crts: seq<Certificate>, secretName: string, name: string)
    requires Distinct(crts, CertName)
    ensures var others := Without(CertNames(SortedPeers(crts, secretName)), name);
            && (forall n :: n in others <==> n != name && Shares(crts, secretName, n))
            && (forall i, j :: 0 <= i < j < |others| ==> OlderNames(crts, others[i], others[j]))
  {
    hide SortBy, Without, CertNames;
    var peers := SortedPeers(crts, secretName);
    var names := CertNames(peers);
    var others := Without(names, name);
    SameMembers(Sharing(crts, secretName), peers);
    WithoutExactly(names, name);
    forall n
      ensures n in others <==> n != name && Shares(crts, secretName, n)
    {
      NamesOf(peers, n);
    }
    OlderIsWeakOrder();
    SortBySorted(Sharing(crts, secretName), Older);
    SharingDistinct(crts, secretName);
    DistinctPermuted(Sharing(crts, secretName), peers, CertName);
    forall i, j | 0 <= i < j < |others|
      ensures OlderNames(crts, others[i], others[j])
    {
      var p, q := WithoutInOrder(names, name, i, j);
      NamedAt(peers, p);
      NamedAt(peers, q);
      SortedPair(peers, p, q);
      assert peers[p] in peers && peers[q] in peers;
    }
  }

  lemma NamedAt(crts: seq<Certificate>, i: nat)
    ensures |CertNames(crts)| == |crts|
    ensures i < |crts| ==> CertNames(crts)[i] == crts[i].name
  {
  }

  lemma NamesOf(crts: seq<Certificate>, n: string)
    ensures n in CertNames(crts) <==> exists c :: c in crts && c.name == n
  {
    if n in CertNames(crts) {
      var i :| 0 <= i < |crts| && CertNames(crts)[i] == n;
      assert crts[i] in crts && crts[i].name == n;
    }
    if c :| c in crts && c.name == n {
      var i :| 0 <= i < |crts| && crts[i] == c;
      assert CertNames(crts)[i] == n;
    }
  }

  lemma SortedPair(peers: seq<Certificate>, p: nat, q: nat)
    requires SortedBy(peers, Older) && Distinct(peers, CertName) && p < q < |peers|
    ensures Older(peers[p], peers[q])
  {
    assert !Older(peers[q], peers[p]) && CertName(peers[p]) != CertName(peers[q]);
    CompareSymmetric(peers[p].name, peers[q].name);
  }

  lemma {:induction false} SortedUnique(a: seq<Certificate>, b: seq<Certificate>)
    requires multiset(a) == multiset(b) && Distinct(a, CertName) && Distinct(b, CertName)
    requires SortedBy(a, Older) && SortedBy(b, Older)
    ensures a == b
    decreases |a|
  {
    SameMembers(a, b);
    if a != [] {
      assert a[0] in b && b[0] in a;
      var i :| 0 <= i < |b| && b[i] == a[0];
      var j :| 0 <= j < |a| && a[j] == b[0];
      assert !Older(b[i], b[0]) || i == 0;
      assert !Older(a[j], a[0]) || j == 0;
      CompareSymmetric(a[0].name, b[0].name);
      assert a[0] == b[0];
      assert a == [a[0]] + a[1..] && b == [b[0]] + b[1..];
      Cancel(a[0], multiset(a[1..]), multiset(b[1..]));
      SortedUnique(a[1..], b[1..]);
    }
  }

  lemma {:induction false} SharingPermuted(a: seq<Certificate>, b: seq<Certificate>, secretName: string)
    requires multiset(a) == multiset(b)
    ensures multiset(Sharing(a, secretName)) == multiset(Sharing(b, secretName))
  {
    forall c
      ensures multiset(Sharing(a, secretName))[c] == multiset(Sharing(b, secretName))[c]
    {
      SharingCounts(a, secretName, c);
      SharingCounts(b, secretName, c);
    }
  }

  lemma {:induction false} SharingCounts(a: seq<Certificate>, secretName: string, c: Certificate)
    ensures multiset(Sharing(a, secretName))[c] == if c.secretName == secretName then multiset(a)[c] else 0
  {
    if a != [] {
      assert a == a[..|a| - 1] + [a[|a| - 1]];
      SharingCounts(a[..|a| - 1], secretName, c);
    }
  }

  lemma {:induction false} SharingDistinct(a: seq<Certificate>, secretName: string)
    requires Distinct(a, CertName)
    ensures Distinct(Sharing(a, secretName), CertName)
  {
    if a != [] {
      var n := |a| - 1;
      SharingDistinct(a[..n], secretName);
      var rest := Sharing(a[..n], secretName);
      forall j | 0 <= j < |rest|
        ensures CertName(rest[j]) != CertName(a[n])
      {
        assert rest[j] in a[..n];
        var k :| 0 <= k < n && a[k] == rest[j];
      }
    }
  }

  /** Two listers that return the same certificates in different orders lead to the same answers. */
  lemma OrderDoesNotMatter(a: seq<Certificate>, b: seq<Certificate>, secretName: string)
    requires multiset(a) == multiset(b) && Distinct(a, CertName)
    ensures SortedPeers(a, secretName) == SortedPeers(b, secretName)
  {
    hide SortBy, SortedBy;
    OlderIsWeakOrder();
    SharingPermuted(a, b, secretName);
    SharingDistinct(a, secretName);
    var x, y := SortedPeers(a, secretName), SortedPeers(b, secretName);
    DistinctPermuted(Sharing(a, secretName), x, CertName);
    DistinctPermuted(Sharing(a, secretName), y, CertName);
    SortBySorted(Sharing(a, secretName), Older);
    SortBySorted(Sharing(b, secretName), Older);
    SortedUnique(x, y);
  }
}
