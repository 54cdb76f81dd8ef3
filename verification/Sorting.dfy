/** The standard library's `sort.Slice` and the byte-wise order on strings.
    Sorting promises an ordered rearrangement and nothing about ties. */
module Sorting {

  ghost predicate TotalPreorder<T(!new)>(leq: (T, T) -> bool)
  {
    && (forall x, y :: leq(x, y) || leq(y, x))
    && (forall x, y, z :: leq(x, y) && leq(y, z) ==> leq(x, z))
  }

  ghost predicate Sorted<T>(s: seq<T>, leq: (T, T) -> bool)
  {
    forall i, j :: 0 <= i < j < |s| ==> leq(s[i], s[j])
  }

  predicate Distinct<T(==)>(s: seq<T>)
  {
    forall i, j :: 0 <= i < j < |s| ==> s[i] != s[j]
  }

  lemma InsertedSorted<T(!new)>(s: seq<T>, x: T, i: nat, leq: (T, T) -> bool)
    requires TotalPreorder(leq) && Sorted(s, leq) && i <= |s|
    requires i > 0 ==> leq(s[i - 1], x)
    requires forall j :: i <= j < |s| ==> leq(x, s[j])
    ensures Sorted(s[..i] + [x] + s[i..], leq)
  {
    var r := s[..i] + [x] + s[i..];
    forall j, k | 0 <= j < k < |r|
      ensures leq(r[j], r[k])
    {
      if k == i {
        assert r[j] == s[j];
        assert j == i - 1 || leq(s[j], s[i - 1]);
      } else if j != i {
        assert r[j] == s[if j < i then j else j - 1];
        assert r[k] == s[if k < i then k else k - 1];
      }
    }
  }

  method InsertInto<T(!new)>(s: seq<T>, x: T, leq: (T, T) -> bool) returns (r: seq<T>)
    requires TotalPreorder(leq) && Sorted(s, leq)
    ensures Sorted(r, leq)
    ensures multiset(r) == multiset(s) + multiset{x}
  {
    var i := |s|;
    while i > 0 && !leq(s[i - 1], x)
      invariant 0 <= i <= |s|
      invariant forall j :: i <= j < |s| ==> leq(x, s[j])
    {
      i := i - 1;
    }
    InsertedSorted(s, x, i, leq);
    r := s[..i] + [x] + s[i..];
    assert s == s[..i] + s[i..];
  }

  method SortBy<T(!new)>(s: seq<T>, leq: (T, T) -> bool) returns (r: seq<T>)
    requires TotalPreorder(leq)
    ensures Sorted(r, leq)
    ensures multiset(r) == multiset(s)
  {
    r := [];
    for n := 0 to |s|
      invariant Sorted(r, leq)
      invariant multiset(r) == multiset(s[..n])
    {
      r := InsertInto(r, s[n], leq);
      assert s[..n + 1] == s[..n] + [s[n]];
    }
    assert s[..|s|] == s;
  }

  /** Rearranging a sequence keeps its members and its distinctness. */
  lemma SameMembers<T>(s: seq<T>, r: seq<T>)
    requires multiset(s) == multiset(r)
    ensures |s| == |r|
    ensures forall x :: x in s <==> x in r
  {
    assert |multiset(s)| == |s| && |multiset(r)| == |r|;
    forall x
      ensures x in s <==> x in r
    {
      assert x in s <==> x in multiset(s);
      assert x in r <==> x in multiset(r);
    }
  }

  lemma {:induction false} DistinctIsOnce<T>(s: seq<T>)
    ensures Distinct(s) <==> forall x :: multiset(s)[x] <= 1
  {
    if s == [] {
      assert forall x :: multiset(s)[x] == 0;
    } else {
      var head, rest := s[0], s[1..];
      assert s == [head] + rest;
      DistinctIsOnce(rest);
      assert multiset(s) == multiset{head} + multiset(rest);
      if Distinct(s) {
        assert forall i :: 0 <= i < |rest| ==> rest[i] == s[i + 1];
        assert head !in rest;
      } else if Distinct(rest) {
        var i, j :| 0 <= i < j < |s| && s[i] == s[j];
        assert i == 0 && rest[j - 1] == head;
        assert head in multiset(rest);
        assert multiset(s)[head] >= 2;
      } else {
        var x :| multiset(rest)[x] > 1;
        assert multiset(s)[x] > 1;
      }
    }
  }

  lemma DistinctKept<T>(s: seq<T>, r: seq<T>)
    requires multiset(s) == multiset(r) && Distinct(s)
    ensures Distinct(r)
  {
    DistinctIsOnce(s);
    DistinctIsOnce(r);
  }

  // ---------------------------------------------------------- string order

  /** Go's `<=` on strings. */
  predicate StringLeq(a: string, b: string)
  {
    a == "" || (b != "" && (a[0] < b[0] || (a[0] == b[0] && StringLeq(a[1..], b[1..]))))
  }

  ghost predicate DiffersAt(a: string, b: string, k: int)
  {
    0 <= k < |a| && k < |b| && a[..k] == b[..k] && a[k] < b[k]
  }

  lemma DiffersLater(a: string, b: string, k: int)
    requires a != "" && b != "" && a[0] == b[0]
    ensures DiffersAt(a[1..], b[1..], k - 1) <==> DiffersAt(a, b, k) && k > 0
  {
    if 0 < k <= |a| && k <= |b| {
      assert a[..k] == [a[0]] + a[1..][..k - 1] && b[..k] == [b[0]] + b[1..][..k - 1];
      assert a[..k][1..] == a[1..][..k - 1] && b[..k][1..] == b[1..][..k - 1];
    }
  }

  lemma SameStart(a: string, b: string, k: int)
    requires DiffersAt(a, b, k) && k > 0
    ensures a[0] == b[0]
  {
    assert a[..k][0] == b[..k][0];
  }

  /** A prefix comes first; else the first difference decides. */
  lemma {:induction false} StringLeqMeaning(a: string, b: string)
    ensures StringLeq(a, b) <==> a <= b || exists k :: DiffersAt(a, b, k)
  {
    if a != "" && b != "" {
      assert a == [a[0]] + a[1..] && b == [b[0]] + b[1..];
      if a[0] == b[0] {
        StringLeqMeaning(a[1..], b[1..]);
        if k :| DiffersAt(a, b, k) {
          DiffersLater(a, b, k);
        }
        if k :| DiffersAt(a[1..], b[1..], k) {
          DiffersLater(a, b, k + 1);
        }
      } else {
        assert a[0] < b[0] ==> DiffersAt(a, b, 0);
        if k :| DiffersAt(a, b, k) && k > 0 {
          SameStart(a, b, k);
        }
      }
    }
  }

  lemma {:induction false} StringLeqTotal(a: string, b: string)
    ensures StringLeq(a, b) || StringLeq(b, a)
  {
    if a != "" && b != "" && a[0] == b[0] {
      StringLeqTotal(a[1..], b[1..]);
    }
  }

  lemma {:induction false} StringLeqTransitive(a: string, b: string, c: string)
    requires StringLeq(a, b) && StringLeq(b, c)
    ensures StringLeq(a, c)
  {
    if a != "" && a[0] == b[0] && b[0] == c[0] {
      StringLeqTransitive(a[1..], b[1..], c[1..]);
    }
  }

  lemma {:induction false} StringLeqAntisymmetric(a: string, b: string)
    requires StringLeq(a, b) && StringLeq(b, a)
    ensures a == b
  {
    if a != "" {
      StringLeqAntisymmetric(a[1..], b[1..]);
      assert a == [a[0]] + a[1..] && b == [b[0]] + b[1..];
    }
  }

  lemma StringLeqOrder()
    ensures TotalPreorder(StringLeq)
  {
    forall a: string, b: string
      ensures StringLeq(a, b) || StringLeq(b, a)
    {
      StringLeqTotal(a, b);
    }
    forall a: string, b: string, c: string | StringLeq(a, b) && StringLeq(b, c)
      ensures StringLeq(a, c)
    {
      StringLeqTransitive(a, b, c);
    }
  }

  // -------------------------------------------------------------- searching

  /** `sort.Search`: the least index from which a monotone test holds. */
  method Search(n: nat, test: nat -> bool) returns (i: nat)
    requires forall j, k :: 0 <= j <= k < n && test(j) ==> test(k)
    ensures i <= n
    ensures forall j: nat :: j < i ==> !test(j)
    ensures forall j: nat :: i <= j < n ==> test(j)
  {
    i := 0;
    var hi := n;
    while i < hi
      invariant i <= hi <= n
      invariant forall j: nat :: j < i ==> !test(j)
      invariant forall j: nat :: hi <= j < n ==> test(j)
    {
      var mid := (i + hi) / 2;
      if !test(mid) {
        i := mid + 1;
      } else {
        hi := mid;
      }
    }
  }
}
