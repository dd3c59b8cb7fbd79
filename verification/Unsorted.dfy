/** Comparison of lists up to order, by sorting copies of them. */
module Unsorted {
  import opened Sorting

  /** A three-way comparison that orders its arguments up to equivalence. */
  ghost predicate TotalPreorder<T(!new)>(cmp: (T, T) -> int) {
    && (forall a, b :: (cmp(a, b) < 0 <==> cmp(b, a) > 0) && (cmp(a, b) == 0 <==> cmp(b, a) == 0))
    && (forall a, b, c {:trigger cmp(a, b), cmp(b, c)} :: cmp(a, b) <= 0 && cmp(b, c) <= 0 ==> cmp(a, c) <= 0)
  }

  function Class<T>(s: seq<T>, x: T, cmp: (T, T) -> int): nat {
    if s == [] then 0 else (if cmp(s[0], x) == 0 then 1 else 0) + Class(s[1..], x, cmp)
  }

  /** The same number of elements of each equivalence class. */
  ghost predicate SameClasses<T(!new)>(s: seq<T>, t: seq<T>, cmp: (T, T) -> int) {
    forall x :: Class(s, x, cmp) == Class(t, x, cmp)
  }

  function Less<T>(cmp: (T, T) -> int): (T, T) -> bool {
    (a, b) => cmp(a, b) < 0
  }

  lemma LessIsWeakOrder<T(!new)>(cmp: (T, T) -> int)
    requires TotalPreorder(cmp)
    ensures WeakOrder(Less(cmp))
  {
    var lt := Less(cmp);
    forall a, b, c | !lt(a, b) && !lt(b, c)
      ensures !lt(a, c)
    {
      assert cmp(b, a) <= 0 && cmp(c, b) <= 0;
      assert cmp(c, a) <= 0;
    }
  }

  lemma {:induction false} ClassSplit<T>(a: seq<T>, b: seq<T>, x: T, cmp: (T, T) -> int)
    ensures Class(a + b, x, cmp) == Class(a, x, cmp) + Class(b, x, cmp)
  {
    if a == [] {
      assert a + b == b;
    } else {
      assert (a + b)[1..] == a[1..] + b;
      ClassSplit(a[1..], b, x, cmp);
    }
  }

  lemma Cancel<T>(x: T, a: multiset<T>, b: multiset<T>)
    requires multiset{x} + a == multiset{x} + b
    ensures a == b
  {
    assert a == (multiset{x} + a) - multiset{x};
    assert b == (multiset{x} + b) - multiset{x};
  }

  /** Taking the same element out of two permutations leaves permutations. */
  lemma RestPermuted<T>(s: seq<T>, t: seq<T>, k: nat)
    requires multiset(s) == multiset(t) && s != [] && k < |t| && t[k] == s[0]
    ensures multiset(s[1..]) == multiset(t[..k] + t[k + 1..])
  {
    assert t == t[..k] + [t[k]] + t[k + 1..];
    assert s == [s[0]] + s[1..];
    Cancel(s[0], multiset(s[1..]), multiset(t[..k] + t[k + 1..]));
  }

  lemma {:induction false} ClassPermuted<T>(s: seq<T>, t: seq<T>, x: T, cmp: (T, T) -> int)
    requires multiset(s) == multiset(t)
    ensures Class(s, x, cmp) == Class(t, x, cmp)
    decreases |s|
  {
    SameMembers(s, t);
    if s != [] {
      assert s[0] in t;
      var k :| 0 <= k < |t| && t[k] == s[0];
      RestPermuted(s, t, k);
      ClassPermuted(s[1..], t[..k] + t[k + 1..], x, cmp);
      assert t == t[..k] + [t[k]] + t[k + 1..];
      ClassSplit(t[..k], t[k + 1..], x, cmp);
      ClassSplit(t[..k] + [t[k]], t[k + 1..], x, cmp);
      ClassSplit(t[..k], [t[k]], x, cmp);
    }
  }

  lemma {:induction false} PointwiseSame<T(!new)>(s: seq<T>, t: seq<T>, x: T, cmp: (T, T) -> int)
    requires TotalPreorder(cmp) && |s| == |t| && forall i :: 0 <= i < |s| ==> cmp(s[i], t[i]) == 0
    ensures Class(s, x, cmp) == Class(t, x, cmp)
  {
    if s != [] {
      PointwiseSame(s[1..], t[1..], x, cmp);
      Congruent(s[0], t[0], x, cmp);
    }
  }

  lemma Congruent<T(!new)>(a: T, b: T, x: T, cmp: (T, T) -> int)
    requires TotalPreorder(cmp) && cmp(a, b) == 0
    ensures cmp(a, x) == 0 <==> cmp(b, x) == 0
  {
    assert cmp(b, a) == 0;
    assert cmp(a, x) <= 0 ==> cmp(b, x) <= 0;
    assert cmp(x, a) <= 0 ==> cmp(x, b) <= 0;
    assert cmp(b, x) <= 0 ==> cmp(a, x) <= 0;
    assert cmp(x, b) <= 0 ==> cmp(x, a) <= 0;
  }

  lemma {:induction false} NoneEqual<T>(s: seq<T>, x: T, cmp: (T, T) -> int)
    requires forall i :: 0 <= i < |s| ==> cmp(s[i], x) != 0
    ensures Class(s, x, cmp) == 0
  {
    if s != [] {
      NoneEqual(s[1..], x, cmp);
    }
  }

  /** Sorted lists with the same classes agree at every position. */
  lemma {:induction false} SortedAgree<T(!new)>(s: seq<T>, t: seq<T>, cmp: (T, T) -> int)
    requires TotalPreorder(cmp) && |s| == |t| && SameClasses(s, t, cmp)
    requires SortedBy(s, Less(cmp)) && SortedBy(t, Less(cmp))
    ensures forall i :: 0 <= i < |s| ==> cmp(s[i], t[i]) == 0
  {
    if s != [] {
      SmallestFirst(s, t, cmp);
      SmallestFirst(t, s, cmp);
      assert cmp(s[0], t[0]) == 0;
      forall x
        ensures Class(s[1..], x, cmp) == Class(t[1..], x, cmp)
      {
        Congruent(s[0], t[0], x, cmp);
        assert Class(s, x, cmp) == Class(t, x, cmp);
      }
      SortedAgree(s[1..], t[1..], cmp);
    }
  }

  /** The first of one sorted list is not above the first of another that has its class. */
  lemma SmallestFirst<T(!new)>(s: seq<T>, t: seq<T>, cmp: (T, T) -> int)
    requires TotalPreorder(cmp) && |s| == |t| && s != [] && SameClasses(s, t, cmp)
    requires SortedBy(s, Less(cmp)) && SortedBy(t, Less(cmp))
    ensures cmp(t[0], s[0]) <= 0
  {
    assert Class(s, s[0], cmp) == Class(t, s[0], cmp);
    assert cmp(s[0], s[0]) == 0;
    if forall i :: 0 <= i < |t| ==> cmp(t[i], s[0]) != 0 {
      NoneEqual(t, s[0], cmp);
      assert false;
    }
    var i :| 0 <= i < |t| && cmp(t[i], s[0]) == 0;
    if i > 0 {
      assert !Less(cmp)(t[i], t[0]);
      assert cmp(t[0], t[i]) <= 0;
    }
  }

  lemma HeadCounts<T(!new)>(s: seq<T>, cmp: (T, T) -> int)
    requires TotalPreorder(cmp)
    ensures s != [] ==> exists x :: Class(s, x, cmp) >= 1
  {
    if s != [] {
      assert cmp(s[0], s[0]) == 0;
      assert Class(s, s[0], cmp) >= 1;
    }
  }

  lemma {:induction false} SameLength<T(!new)>(s: seq<T>, t: seq<T>, cmp: (T, T) -> int)
    requires TotalPreorder(cmp) && SameClasses(s, t, cmp)
    ensures |s| == |t|
    decreases |s|
  {
    if s == [] {
      HeadCounts(t, cmp);
    } else {
      var x := s[0];
      assert cmp(x, x) == 0 && Class(s, x, cmp) == Class(t, x, cmp);
      if forall i :: 0 <= i < |t| ==> cmp(t[i], x) != 0 {
        NoneEqual(t, x, cmp);
        assert false;
      }
      var k :| 0 <= k < |t| && cmp(t[k], x) == 0;
      var rest := t[..k] + t[k + 1..];
      assert t == (t[..k] + [t[k]]) + t[k + 1..];
      forall y
        ensures Class(s[1..], y, cmp) == Class(rest, y, cmp)
      {
        ClassSplit(t[..k], t[k + 1..], y, cmp);
        ClassSplit(t[..k] + [t[k]], t[k + 1..], y, cmp);
        ClassSplit(t[..k], [t[k]], y, cmp);
        Congruent(t[k], x, y, cmp);
        assert Class(s, y, cmp) == Class(t, y, cmp);
      }
      SameLength(s[1..], rest, cmp);
    }
  }

  /** Comparing the sorted lists position by position compares the classes. */
  lemma SortedDecides<T(!new)>(s: seq<T>, t: seq<T>, cmp: (T, T) -> int)
    requires TotalPreorder(cmp)
    ensures var a, b := SortBy(s, Less(cmp)), SortBy(t, Less(cmp));
            && |a| == |s| && |b| == |t|
            && (SameClasses(s, t, cmp) <==> |s| == |t| && forall i :: 0 <= i < |a| ==> cmp(a[i], b[i]) == 0)
  {
    hide SortBy, SortedBy, Class;
    var a, b := SortBy(s, Less(cmp)), SortBy(t, Less(cmp));
    LessIsWeakOrder(cmp);
    SortBySorted(s, Less(cmp));
    SortBySorted(t, Less(cmp));
    SameMembers(s, a);
    SameMembers(t, b);
    forall x
      ensures Class(s, x, cmp) == Class(a, x, cmp) && Class(t, x, cmp) == Class(b, x, cmp)
    {
      ClassPermuted(s, a, x, cmp);
      ClassPermuted(t, b, x, cmp);
    }
    if SameClasses(s, t, cmp) {
      SameLength(s, t, cmp);
      SortedAgree(a, b, cmp);
    } else if |s| == |t| && forall i :: 0 <= i < |a| ==> cmp(a[i], b[i]) == 0 {
      forall x
        ensures Class(s, x, cmp) == Class(t, x, cmp)
      {
        PointwiseSame(a, b, x, cmp);
      }
    }
  }

  /** True exactly when the lists hold equally many elements of every class, in whatever order. */
  method EqualUnsorted<T(!new)>(s1: seq<T>, s2: seq<T>, cmp: (T, T) -> int) returns (r: bool)
    requires TotalPreorder(cmp)
    ensures r <==> SameClasses(s1, s2, cmp)
  {
    hide SortBy, Class, TotalPreorder, SameClasses;
    SortedDecides(s1, s2, cmp);
    if |s1| != |s2| {
      return false;
    }
    var a, b := SortBy(s1, Less(cmp)), SortBy(s2, Less(cmp));
    for i := 0 to |a|
      invariant forall j :: 0 <= j < i ==> cmp(a[j], b[j]) == 0
    {
      if cmp(a[i], b[i]) != 0 {
        return false;
      }
    }
    return true;
  }

  // ----- Strings in order

  /** Lexicographic comparison. */
  function Compare(a: string, b: string): int {
    if a == "" && b == "" then 0
    else if a == "" then -1
    else if b == "" then 1
    else if a[0] != b[0] then (if a[0] < b[0] then -1 else 1)
    else Compare(a[1..], b[1..])
  }

  /** After a common beginning, the shorter text or the smaller character comes first. */
  lemma {:induction false} CompareExactly(p: string, a: string, b: string)
    requires (a == "" && b != "") || (a != "" && b != "" && a[0] < b[0])
    ensures Compare(p + a, p + b) < 0 && Compare(p, p) == 0
  {
    if p == "" {
      assert p + a == a && p + b == b;
    } else {
      assert (p + a)[1..] == p[1..] + a && (p + b)[1..] == p[1..] + b;
      CompareExactly(p[1..], a, b);
    }
  }

  lemma {:induction false} CompareSymmetric(a: string, b: string)
    ensures Compare(a, b) == -Compare(b, a) && (Compare(a, b) == 0 <==> a == b)
  {
    if a != "" && b != "" && a[0] == b[0] {
      CompareSymmetric(a[1..], b[1..]);
      assert a == [a[0]] + a[1..] && b == [b[0]] + b[1..];
    }
  }

  lemma {:induction false} CompareTransitive(a: string, b: string, c: string)
    requires Compare(a, b) <= 0 && Compare(b, c) <= 0
    ensures Compare(a, c) <= 0
  {
    if a != "" && b != "" && c != "" && a[0] == b[0] == c[0] {
      CompareTransitive(a[1..], b[1..], c[1..]);
    }
  }

  lemma CompareIsTotalPreorder()
    ensures TotalPreorder(Compare)
  {
    forall a, b
      ensures (Compare(a, b) < 0 <==> Compare(b, a) > 0) && (Compare(a, b) == 0 <==> Compare(b, a) == 0)
    {
      CompareSymmetric(a, b);
    }
    forall a, b, c | Compare(a, b) <= 0 && Compare(b, c) <= 0
      ensures Compare(a, c) <= 0
    {
      CompareTransitive(a, b, c);
    }
  }

  /** For strings, equal up to order means equal as multisets. */
  method EqualStringsUnsorted(s1: seq<string>, s2: seq<string>) returns (r: bool)
    ensures r <==> multiset(s1) == multiset(s2)
  {
    CompareIsTotalPreorder();
    r := EqualUnsorted(s1, s2, Compare);
    forall x
      ensures Class(s1, x, Compare) == multiset(s1)[x] && Class(s2, x, Compare) == multiset(s2)[x]
    {
      ClassIsCount(s1, x);
      ClassIsCount(s2, x);
    }
  }

  lemma {:induction false} ClassIsCount(s: seq<string>, x: string)
    ensures Class(s, x, Compare) == multiset(s)[x]
  {
    if s != [] {
      ClassIsCount(s[1..], x);
      CompareSymmetric(s[0], x);
      assert s == [s[0]] + s[1..];
    }
  }
}
