/** The reverse indexes over the geodata (`internal/geo/index.go`): which geoip
    lists hold an address, and which geosite tags match a name. */
module GeoIndex {
  import opened Ipv4
  import opened Model
  import opened Sorting
  import opened Domains
  import opened GeoEntry
  import opened Routing

  const WINDOW: nat := 16
  const MAX_TAGS: nat := 65535

  // ---------------------------------------------------------------- geoip

  /** The file behind the index; a list that does not decode is None. */
  datatype IpSource = IpSource(version: string, lists: map<string, Option<seq<Prefix>>>)

  predicate ByStart(p: Prefix, q: Prefix) { p.addr <= q.addr }

  lemma ByStartOrder()
    ensures TotalPreorder(ByStart)
  {
  }

  ghost predicate MaskedList(ps: seq<Prefix>)
  {
    forall p :: p in ps ==> IsMasked(p)
  }

  /** How many entries after the j-th start at or before a. */
  function Later(ps: seq<Prefix>, j: nat, a: Addr): nat
    decreases |ps|
  {
    if |ps| <= j + 1 then 0
    else Later(ps[..|ps| - 1], j, a) + if ps[|ps| - 1].addr <= a then 1 else 0
  }

  /** The list is reported: a prefix that holds the address has fewer than
      sixteen later entries starting at or before it. */
  ghost predicate Hit(ps: seq<Prefix>, a: Addr)
  {
    exists j :: 0 <= j < |ps| && Contains(ps[j], a) && Later(ps, j, a) < 16
  }

  lemma {:induction false} LaterIsDistance(ps: seq<Prefix>, j: nat, n: nat, a: Addr)
    requires Sorted(ps, ByStart) && j < n <= |ps|
    requires forall k :: 0 <= k < n ==> ps[k].addr <= a
    requires forall k :: n <= k < |ps| ==> ps[k].addr > a
    ensures Later(ps, j, a) == n - 1 - j
    decreases |ps|
  {
    if |ps| > j + 1 {
      var front := ps[..|ps| - 1];
      LaterIsDistance(front, j, if n == |ps| then n - 1 else n, a);
    }
  }

  lemma {:induction false} LaterBound(ps: seq<Prefix>, j: nat, a: Addr)
    requires j < |ps|
    ensures Later(ps, j, a) <= |ps| - 1 - j
    decreases |ps|
  {
    if |ps| > j + 1 {
      LaterBound(ps[..|ps| - 1], j, a);
    }
  }

  /** Every report is right. */
  lemma HitIsSound(ps: seq<Prefix>, a: Addr)
    requires Hit(ps, a)
    ensures InPrefixes(ps, a)
  {
  }

  /** In a sorted list without overlaps the holding prefix starts last, so the
      index agrees with a linear scan. */
  lemma DisjointListsAgree(ps: seq<Prefix>, a: Addr)
    requires Sorted(ps, ByStart) && MaskedList(ps)
    requires forall i, j :: 0 <= i < j < |ps| ==> Disjoint(ps[i], ps[j])
    ensures Hit(ps, a) <==> InPrefixes(ps, a)
  {
    if j :| 0 <= j < |ps| && Contains(ps[j], a) {
      MaskedIsFirst(ps[j], a);
      forall k | j < k < |ps|
        ensures ps[k].addr > a
      {
        if ps[k].addr <= a {
          ContainsOwn(ps[j]);
          assert ByStart(ps[j], ps[k]);
          ContainsConvex(ps[j], ps[j].addr, ps[k].addr, a);
          ContainsOwn(ps[k]);
        }
      }
      forall k | 0 <= k < j + 1
        ensures ps[k].addr <= a
      {
        assert k == j || ByStart(ps[k], ps[j]);
      }
      LaterIsDistance(ps, j, j + 1, a);
    }
  }

  /** So does a list no longer than the window. */
  lemma ShortListsAgree(ps: seq<Prefix>, a: Addr)
    requires |ps| <= 16
    ensures Hit(ps, a) <==> InPrefixes(ps, a)
  {
    if j :| 0 <= j < |ps| && Contains(ps[j], a) {
      LaterBound(ps, j, a);
    }
  }

  lemma {:induction false} LaterFalls(ps: seq<Prefix>, j: nat, k: nat, a: Addr)
    requires j <= k
    ensures Later(ps, k, a) <= Later(ps, j, a)
    decreases |ps|
  {
    if |ps| > k + 1 {
      LaterFalls(ps[..|ps| - 1], j, k, a);
    }
  }

  /** The index disagrees with a linear scan exactly when the last prefix that
      holds the address has sixteen or more later entries starting at or before
      it. */
  lemma ScanAgreesIff(ps: seq<Prefix>, a: Addr, j: nat)
    requires j < |ps| && Contains(ps[j], a)
    requires forall k :: j < k < |ps| ==> !Contains(ps[k], a)
    ensures (Hit(ps, a) <==> InPrefixes(ps, a)) <==> Later(ps, j, a) < 16
  {
    if i :| 0 <= i < |ps| && Contains(ps[i], a) && Later(ps, i, a) < WINDOW {
      LaterFalls(ps, i, j, a);
    }
  }

  lemma ShlOfMultiple(x: nat)
    requires x % 32 == 0
    ensures Shl(Shr(x, 5), 5) == x
  {
    var y := x / 32;
    assert Shl(y, 1) == 2 * y && Shl(y, 2) == 4 * y && Shl(y, 3) == 8 * y && Shl(y, 4) == 16 * y;
    assert Shl(y, 5) == x;
    ShrShl(y, 5);
  }

  /** A wide prefix followed by sixteen single addresses loses the rest of what
      it holds. */
  lemma CrowdedListMisses(base: Addr)
    requires base + 31 < 0x1_0000_0000 && base % 32 == 0
    ensures var ps := [Prefix(base, 27)] + seq(16, k requires 0 <= k < 16 => Prefix(base + k, 32));
      Sorted(ps, ByStart) && MaskedList(ps) && InPrefixes(ps, base + 31) && !Hit(ps, base + 31)
  {
    var ps := [Prefix(base, 27)] + seq(16, k requires 0 <= k < 16 => Prefix(base + k, 32));
    var a := base + 31;
    assert Shr(a, 1) == a / 2 && Shr(base, 1) == base / 2;
    assert Shr(a, 2) == a / 4 && Shr(base, 2) == base / 4;
    assert Shr(a, 3) == a / 8 && Shr(base, 3) == base / 8;
    assert Shr(a, 4) == a / 16 && Shr(base, 4) == base / 16;
    assert Shr(a, 5) == a / 32 && Shr(base, 5) == base / 32;
    assert Contains(ps[0], a);
    ShlOfMultiple(base);
    LaterIsDistance(ps, 0, 17, a);
    forall k | 1 <= k < 17
      ensures !Contains(ps[k], a)
    {
      assert ps[k] == Prefix(base + k - 1, 32);
    }
  }

  /** Where the entries starting past the address begin. */
  method FirstPast(ps: seq<Prefix>, a: Addr) returns (n: nat)
    requires Sorted(ps, ByStart)
    ensures n <= |ps|
    ensures forall k :: 0 <= k < n ==> ps[k].addr <= a
    ensures forall k :: n <= k < |ps| ==> ps[k].addr > a
  {
    var startsPast := (i: nat) => i < |ps| && a < ps[i].addr;
    forall j: nat, k: nat | j <= k < |ps| && startsPast(j)
      ensures startsPast(k)
    {
      assert j == k || ByStart(ps[j], ps[k]);
    }
    n := Search(|ps|, startsPast);
    forall k: nat | k < |ps|
      ensures if k < n then ps[k].addr <= a else ps[k].addr > a
    {
      assert startsPast(k) <==> k >= n;
    }
  }

  /** A binary search for the last entry starting at or before the address,
      and a scan back over at most sixteen entries. */
  method Scan(ps: seq<Prefix>, a: Addr) returns (hit: bool)
    requires Sorted(ps, ByStart) && MaskedList(ps)
    ensures hit <==> Hit(ps, a)
  {
    var n := FirstPast(ps, a);
    var i: int := n as int - 1;
    var j: int := i;
    while j >= 0 && j > i - WINDOW
      invariant -1 <= j <= i && i - WINDOW <= j
      invariant forall k :: j < k <= i ==> !Contains(ps[k], a)
    {
      if Contains(ps[j], a) {
        LaterIsDistance(ps, j, n, a);
        return true;
      }
      j := j - 1;
    }
    forall k | 0 <= k < |ps| && Contains(ps[k], a)
      ensures Later(ps, k, a) >= WINDOW
    {
      MaskedIsFirst(ps[k], a);
      assert k < n;
      LaterIsDistance(ps, k, n, a);
    }
    return false;
  }

  class IPIndex {
    var ver: string
    var loaded: bool
    var tags: map<string, seq<Prefix>>
    ghost var built: IpSource

    ghost predicate Valid()
      reads this
    {
      loaded ==>
        && ver == built.version
        && (forall t :: t in tags <==> t in built.lists && built.lists[t].Some?)
        && (forall t :: t in tags ==>
             multiset(tags[t]) == multiset(built.lists[t].value) && Sorted(tags[t], ByStart) && MaskedList(tags[t]))
    }

    constructor ()
      ensures Valid() && !loaded
    {
      ver, loaded, tags := "", false, map[];
    }

    /** `ensure`: rebuild when the file's version changed. */
    method Ensure(src: Option<IpSource>) returns (ok: bool)
      requires Valid()
      requires src.Some? ==> forall t :: t in src.value.lists && src.value.lists[t].Some? ==> MaskedList(src.value.lists[t].value)
      requires src.Some? && loaded && src.value.version == ver ==> src.value == built
      modifies this
      ensures Valid() && (ok <==> src.Some?)
      ensures ok ==> loaded && built == src.value
    {
      if src.None? {
        return false;
      }
      if loaded && src.value.version == ver {
        return true;
      }
      var lists := src.value.lists;
      var idx: map<string, seq<Prefix>> := map[];
      var todo := lists.Keys;
      while todo != {}
        invariant todo <= lists.Keys
        invariant forall t :: t in idx <==> t in lists && t !in todo && lists[t].Some?
        invariant forall t :: t in idx ==>
          multiset(idx[t]) == multiset(lists[t].value) && Sorted(idx[t], ByStart) && MaskedList(idx[t])
      {
        var t :| t in todo;
        if lists[t].Some? {
          ByStartOrder();
          var ps := SortBy(lists[t].value, ByStart);
          SameMembers(ps, lists[t].value);
          idx := idx[t := ps];
        }
        todo := todo - {t};
      }
      tags, ver, loaded, built := idx, src.value.version, true, src.value;
      return true;
    }

    /** `Lookup`: the tags that are hit, sorted. */
    method Lookup(src: Option<IpSource>, a: Addr) returns (r: Option<seq<string>>)
      requires Valid()
      requires src.Some? ==> forall t :: t in src.value.lists && src.value.lists[t].Some? ==> MaskedList(src.value.lists[t].value)
      requires src.Some? && loaded && src.value.version == ver ==> src.value == built
      modifies this
      ensures Valid() && (r.Some? <==> src.Some?)
      ensures r.Some? ==> built == src.value && Sorted(r.value, StringLeq) && Distinct(r.value)
      ensures r.Some? ==> forall t :: t in r.value <==> t in tags && Hit(tags[t], a)
      ensures r.Some? ==> forall t :: t in r.value ==> InPrefixes(tags[t], a)
    {
      var ok := Ensure(src);
      if !ok {
        return None;
      }
      var out: seq<string> := [];
      var todo := tags.Keys;
      while todo != {}
        invariant todo <= tags.Keys && Valid() && loaded && built == src.value
        invariant Distinct(out)
        invariant forall t :: t in out <==> t in tags && t !in todo && Hit(tags[t], a)
        invariant forall t :: t in out ==> InPrefixes(tags[t], a)
      {
        var t :| t in todo;
        var hit := Scan(tags[t], a);
        if hit {
          HitIsSound(tags[t], a);
          out := out + [t];
        }
        todo := todo - {t};
      }
      StringLeqOrder();
      var sorted := SortBy(out, StringLeq);
      SameMembers(sorted, out);
      DistinctKept(out, sorted);
      return Some(sorted);
    }
  }

  // --------------------------------------------------------------- geosite

  /** The file behind the index; a tag that does not decode is None. */
  datatype SiteSource = SiteSource(version: string, tags: map<string, Option<seq<Entry>>>)

  /** A key and the index of the tag it belongs to. */
  datatype Ref = Ref(key: string, tag: nat)

  /** Regular expressions: which compile, and what they match. */
  datatype Regex = Regex(compiles: string -> bool, matches: (string, string) -> bool)

  predicate ByKey(x: Ref, y: Ref) { StringLeq(x.key, y.key) }

  lemma ByKeyOrder()
    ensures TotalPreorder(ByKey)
  {
    StringLeqOrder();
  }

  /** What `ensure` files an entry under. */
  function RefOf(e: Entry, kind: EntryKind, tag: nat, rx: Regex): seq<Ref>
  {
    if e.kind != kind then []
    else if kind == KindRegex then if rx.compiles(e.value) then [Ref(e.value, tag)] else []
    else [Ref(Lower(e.value), tag)]
  }

  function RefsOf(es: seq<Entry>, kind: EntryKind, tag: nat, rx: Regex): seq<Ref>
  {
    if es == [] then [] else RefsOf(es[..|es| - 1], kind, tag, rx) + RefOf(es[|es| - 1], kind, tag, rx)
  }

  function EntriesOf(src: SiteSource, name: string): seq<Entry>
  {
    if name in src.tags && src.tags[name].Some? then src.tags[name].value else []
  }

  function TagRefs(src: SiteSource, name: string, kind: EntryKind, tag: nat, rx: Regex): seq<Ref>
  {
    RefsOf(EntriesOf(src, name), kind, tag, rx)
  }

  /** All references of one kind, tag by tag. */
  function AllRefs(src: SiteSource, names: seq<string>, kind: EntryKind, rx: Regex): seq<Ref>
  {
    if names == [] then []
    else
      var n := |names| - 1;
      AllRefs(src, names[..n], kind, rx) + TagRefs(src, names[n], kind, n, rx)
  }

  lemma {:induction false} RefsOfExact(es: seq<Entry>, kind: EntryKind, tag: nat, rx: Regex, r: Ref)
    ensures r in RefsOf(es, kind, tag, rx) <==> exists i :: 0 <= i < |es| && r in RefOf(es[i], kind, tag, rx)
  {
    if es != [] {
      var front, last := es[..|es| - 1], es[|es| - 1];
      RefsOfExact(front, kind, tag, rx, r);
      assert forall i :: 0 <= i < |front| ==> front[i] == es[i];
      if r in RefOf(last, kind, tag, rx) {
        assert r in RefOf(es[|es| - 1], kind, tag, rx);
      }
    }
  }

  lemma {:induction false} AllRefsExact(src: SiteSource, names: seq<string>, kind: EntryKind, rx: Regex, r: Ref)
    ensures r in AllRefs(src, names, kind, rx) <==>
      r.tag < |names| && r in TagRefs(src, names[r.tag], kind, r.tag, rx)
  {
    if names != [] {
      var n := |names| - 1;
      AllRefsExact(src, names[..n], kind, rx, r);
      RefsOfExact(EntriesOf(src, names[n]), kind, n, rx, r);
    }
  }

  /** Entries as the decoder yields them: lower-case values, none empty; and
      only what compiles can match. */
  ghost predicate CleanSource(src: SiteSource, rx: Regex)
  {
    && (forall t, e :: t in src.tags && src.tags[t].Some? && e in src.tags[t].value ==>
         e.value != "" && Lower(e.value) == e.value)
    && (forall v, h :: rx.matches(v, h) ==> rx.compiles(v))
  }

  predicate Boundary(h: string, p: nat)
  {
    p <= |h| && (p == 0 || h[p - 1] == '.')
  }

  /** h is k, or ends in k after a dot. */
  ghost predicate DottedSuffix(h: string, k: string)
  {
    k != "" && exists p: nat :: Boundary(h, p) && h[p..] == k
  }

  lemma DottedSuffixIff(h: string, k: string)
    requires k != ""
    ensures DottedSuffix(h, k) <==> h == k || HasSuffix(h, "." + k)
  {
    if p: nat :| Boundary(h, p) && h[p..] == k {
      if p > 0 {
        assert h[p - 1..] == "." + k;
      }
    }
    if h == k {
      assert Boundary(h, 0) && h[0..] == k;
    } else if HasSuffix(h, "." + k) {
      var p := |h| - |k|;
      assert h[p - 1..] == "." + k;
      assert h[p..] == h[p - 1..][1..] && h[p - 1] == h[p - 1..][0];
      assert Boundary(h, p) && h[p..] == k;
    }
  }

  /** A filed reference accepts a normalised name. */
  ghost predicate RefMatches(r: Ref, kind: EntryKind, h: string, rx: Regex)
  {
    match kind
    case KindFull => h == r.key
    case KindRoot => DottedSuffix(h, r.key)
    case KindPlain => ContainsText(h, r.key)
    case KindRegex => rx.matches(r.key, h)
    case KindUnknown => false
  }

  /** The references of clean entries accept what the linear matcher does. */
  lemma RefAgrees(e: Entry, tag: nat, h: string, rx: Regex)
    requires e.value != "" && Lower(e.value) == e.value
    requires rx.matches(e.value, h) ==> rx.compiles(e.value)
    ensures EntryMatches(e, h, rx.matches) <==>
      exists r :: r in RefOf(e, e.kind, tag, rx) && RefMatches(r, e.kind, h, rx)
  {
    DottedSuffixIff(h, e.value);
    var r, refs := Ref(e.value, tag), RefOf(e, e.kind, tag, rx);
    if e.kind == KindRegex && !rx.compiles(e.value) {
      assert refs == [];
    } else {
      assert refs == [r] && r in refs;
      assert EntryMatches(e, h, rx.matches) <==> RefMatches(r, e.kind, h, rx);
    }
  }

  ghost predicate TagMatches(src: SiteSource, name: string, h: string, rx: Regex)
  {
    name in src.tags && src.tags[name].Some? && exists e :: e in src.tags[name].value && EntryMatches(e, h, rx.matches)
  }

  /** Some reference of the list accepts the name for the tag. */
  ghost predicate ListMatches(list: seq<Ref>, kind: EntryKind, h: string, tag: nat, rx: Regex)
  {
    exists i :: 0 <= i < |list| && list[i].tag == tag && RefMatches(list[i], kind, h, rx)
  }

  ghost predicate SameRefs(list: seq<Ref>, all: seq<Ref>)
  {
    forall r :: r in list <==> r in all
  }

  lemma ListMatchesSame(list: seq<Ref>, all: seq<Ref>, kind: EntryKind, h: string, tag: nat, rx: Regex)
    requires SameRefs(list, all)
    ensures ListMatches(list, kind, h, tag, rx) <==> ListMatches(all, kind, h, tag, rx)
  {
    if i :| 0 <= i < |list| && list[i].tag == tag && RefMatches(list[i], kind, h, rx) {
      assert list[i] in all;
    }
    if i :| 0 <= i < |all| && all[i].tag == tag && RefMatches(all[i], kind, h, rx) {
      assert all[i] in list;
    }
  }

  ghost predicate KindFiled(src: SiteSource, names: seq<string>, kind: EntryKind, h: string, tag: nat, rx: Regex)
  {
    ListMatches(AllRefs(src, names, kind, rx), kind, h, tag, rx)
  }

  ghost predicate Filed(src: SiteSource, names: seq<string>, h: string, tag: nat, rx: Regex)
  {
    || KindFiled(src, names, KindFull, h, tag, rx)
    || KindFiled(src, names, KindRoot, h, tag, rx)
    || KindFiled(src, names, KindPlain, h, tag, rx)
    || KindFiled(src, names, KindRegex, h, tag, rx)
  }

  /** Some entry of this kind in the tag matches. */
  ghost predicate KindMatches(src: SiteSource, name: string, kind: EntryKind, h: string, rx: Regex)
  {
    var es := EntriesOf(src, name);
    exists i :: 0 <= i < |es| && es[i].kind == kind && EntryMatches(es[i], h, rx.matches)
  }

  lemma FiledMatches(src: SiteSource, names: seq<string>, kind: EntryKind, h: string, r: Ref, rx: Regex)
    requires CleanSource(src, rx) && r in AllRefs(src, names, kind, rx) && RefMatches(r, kind, h, rx)
    ensures r.tag < |names| && KindMatches(src, names[r.tag], kind, h, rx)
  {
    AllRefsExact(src, names, kind, rx, r);
    var es := EntriesOf(src, names[r.tag]);
    RefsOfExact(es, kind, r.tag, rx, r);
    var i :| 0 <= i < |es| && r in RefOf(es[i], kind, r.tag, rx);
    assert names[r.tag] in src.tags;
    RefAgrees(es[i], r.tag, h, rx);
  }

  lemma MatchIsFiled(src: SiteSource, names: seq<string>, kind: EntryKind, h: string, tag: nat, rx: Regex)
    requires CleanSource(src, rx) && tag < |names| && KindMatches(src, names[tag], kind, h, rx)
    ensures exists r :: r in AllRefs(src, names, kind, rx) && r.tag == tag && RefMatches(r, kind, h, rx)
  {
    var es := EntriesOf(src, names[tag]);
    var i :| 0 <= i < |es| && es[i].kind == kind && EntryMatches(es[i], h, rx.matches);
    assert names[tag] in src.tags;
    RefAgrees(es[i], tag, h, rx);
    var r :| r in RefOf(es[i], kind, tag, rx) && RefMatches(r, kind, h, rx);
    RefsOfExact(es, kind, tag, rx, r);
    AllRefsExact(src, names, kind, rx, r);
  }

  lemma KindFiledIff(src: SiteSource, names: seq<string>, kind: EntryKind, h: string, tag: nat, rx: Regex)
    requires CleanSource(src, rx)
    ensures KindFiled(src, names, kind, h, tag, rx) <==> tag < |names| && KindMatches(src, names[tag], kind, h, rx)
  {
    var all := AllRefs(src, names, kind, rx);
    if n :| 0 <= n < |all| && all[n].tag == tag && RefMatches(all[n], kind, h, rx) {
      FiledMatches(src, names, kind, h, all[n], rx);
    }
    if tag < |names| && KindMatches(src, names[tag], kind, h, rx) {
      MatchIsFiled(src, names, kind, h, tag, rx);
      var r :| r in all && r.tag == tag && RefMatches(r, kind, h, rx);
      var n :| 0 <= n < |all| && all[n] == r;
    }
  }

  lemma FiledIff(src: SiteSource, names: seq<string>, h: string, tag: nat, rx: Regex)
    requires CleanSource(src, rx)
    ensures Filed(src, names, h, tag, rx) <==> tag < |names| && TagMatches(src, names[tag], h, rx)
  {
    KindFiledIff(src, names, KindFull, h, tag, rx);
    KindFiledIff(src, names, KindRoot, h, tag, rx);
    KindFiledIff(src, names, KindPlain, h, tag, rx);
    KindFiledIff(src, names, KindRegex, h, tag, rx);
    if tag < |names| && TagMatches(src, names[tag], h, rx) {
      var i :| 0 <= i < |EntriesOf(src, names[tag])| && EntryMatches(EntriesOf(src, names[tag])[i], h, rx.matches);
      assert EntriesOf(src, names[tag])[i].kind != KindUnknown;
    }
  }

  // ------------------------------------------------------- the search itself

  /** Tags of the references with key k. */
  function TagsWith(list: seq<Ref>, k: string): set<nat>
  {
    set i | 0 <= i < |list| && list[i].key == k :: list[i].tag
  }

  /** Where the keys not below k begin. */
  method FirstAtLeast(list: seq<Ref>, k: string) returns (start: nat)
    requires Sorted(list, ByKey)
    ensures start <= |list|
    ensures forall n :: 0 <= n < |list| ==> (StringLeq(k, list[n].key) <==> start <= n)
  {
    var from := (i: nat) => i < |list| && StringLeq(k, list[i].key);
    forall j: nat, n: nat | j <= n < |list| && from(j)
      ensures from(n)
    {
      if j != n {
        assert ByKey(list[j], list[n]);
        StringLeqTransitive(k, list[j].key, list[n].key);
      }
    }
    start := Search(|list|, from);
    forall n: nat | n < |list|
      ensures StringLeq(k, list[n].key) <==> start <= n
    {
      assert from(n) <==> start <= n;
    }
  }

  lemma RunOfEqual(list: seq<Ref>, k: string, start: nat, end: nat)
    requires Sorted(list, ByKey) && start <= end <= |list|
    requires forall n :: 0 <= n < |list| ==> (StringLeq(k, list[n].key) <==> start <= n)
    requires forall n :: start <= n < end ==> list[n].key == k
    requires end < |list| ==> list[end].key != k
    ensures TagsWith(list, k) == set n | start <= n < end :: list[n].tag
  {
    forall n | 0 <= n < |list| && list[n].key == k
      ensures start <= n < end
    {
      StringLeqTotal(k, k);
      if n >= end {
        assert n == end || ByKey(list[end], list[n]);
        StringLeqAntisymmetric(k, list[end].key);
      }
    }
  }

  /** `refsFor`: a binary search, then the run of equal keys. */
  method RefsFor(list: seq<Ref>, k: string, found: set<nat>) returns (r: set<nat>)
    requires Sorted(list, ByKey)
    ensures r == found + TagsWith(list, k)
  {
    var start := FirstAtLeast(list, k);
    var i := start;
    r := found;
    while i < |list| && list[i].key == k
      invariant start <= i <= |list|
      invariant forall n :: start <= n < i ==> list[n].key == k
      invariant r == found + set n | start <= n < i :: list[n].tag
    {
      r := r + {list[i].tag};
      i := i + 1;
    }
    RunOfEqual(list, k, start, i);
  }

  method IndexDot(d: string) returns (i: int)
    ensures -1 <= i < |d|
    ensures i >= 0 ==> d[i] == '.' && forall j :: 0 <= j < i ==> d[j] != '.'
    ensures i < 0 ==> forall j :: 0 <= j < |d| ==> d[j] != '.'
  {
    i := 0;
    while i < |d|
      invariant 0 <= i <= |d|
      invariant forall j :: 0 <= j < i ==> d[j] != '.'
    {
      if d[i] == '.' {
        return;
      }
      i := i + 1;
    }
    return -1;
  }

  /** Tags with a root reference for some non-empty suffix of h at a boundary
      before position n. */
  ghost predicate Walked(root: seq<Ref>, h: string, n: int, tag: nat)
  {
    exists p: nat :: p < n && p < |h| && Boundary(h, p) && tag in TagsWith(root, h[p..])
  }

  lemma WalkOn(root: seq<Ref>, h: string, p: nat, n: nat)
    requires p < n <= |h| && Boundary(h, p)
    requires forall q :: p <= q < n - 1 ==> h[q] != '.'
    ensures forall tag :: Walked(root, h, n, tag) <==> Walked(root, h, p, tag) || tag in TagsWith(root, h[p..])
  {
    forall tag
      ensures Walked(root, h, n, tag) <==> Walked(root, h, p, tag) || tag in TagsWith(root, h[p..])
    {
      if Walked(root, h, n, tag) {
        var q: nat :| q < n && q < |h| && Boundary(h, q) && tag in TagsWith(root, h[q..]);
        assert q <= p;
      }
    }
  }

  /** The walk over the suffixes of a name. */
  method WalkRoots(root: seq<Ref>, h: string, found: set<nat>) returns (r: set<nat>)
    requires Sorted(root, ByKey)
    ensures forall tag :: tag in r <==> tag in found || Walked(root, h, |h|, tag)
  {
    r := found;
    var d := h;
    ghost var p: nat := 0;
    while d != ""
      invariant p <= |h| && d == h[p..] && Boundary(h, p)
      invariant forall tag :: tag in r <==> tag in found || Walked(root, h, p, tag)
      decreases |d|
    {
      ghost var was := r;
      r := RefsFor(root, d, r);
      var i := IndexDot(d);
      WalkOn(root, h, p, if i < 0 then |h| else p + i + 1);
      if i < 0 {
        p := |h|;
        break;
      }
      d := d[i + 1..];
      p := p + i + 1;
    }
  }

  method SortRefs(list: seq<Ref>) returns (r: seq<Ref>)
    ensures Sorted(r, ByKey) && SameRefs(r, list)
  {
    ByKeyOrder();
    r := SortBy(list, ByKey);
    SameMembers(list, r);
  }

  /** The tags that are indexed: the first 65535 in order. */
  ghost predicate Names(src: SiteSource, names: seq<string>)
  {
    exists all: seq<string> ::
      && Sorted(all, StringLeq) && Distinct(all) && (forall t :: t in all <==> t in src.tags)
      && names == if |all| > 65535 then all[..65535] else all
  }

  lemma {:induction false} DistinctCount(s: seq<string>, all: set<string>)
    requires Distinct(s) && forall t :: t in s <==> t in all
    ensures |s| == |all|
  {
    if s == [] {
      assert all == {};
    } else {
      var front, last := s[..|s| - 1], s[|s| - 1];
      assert s == front + [last];
      DistinctCount(front, all - {last});
    }
  }

  /** Up to 65535 tags, none is left out. */
  lemma EveryTagIsIndexed(src: SiteSource, names: seq<string>)
    requires Names(src, names)
    ensures (forall t :: t in src.tags ==> t in names) <==> |src.tags.Keys| <= 65535
  {
    var all: seq<string> :| Sorted(all, StringLeq) && Distinct(all) && (forall t :: t in all <==> t in src.tags) &&
      names == if |all| > MAX_TAGS then all[..MAX_TAGS] else all;
    DistinctCount(all, src.tags.Keys);
    if |all| > MAX_TAGS {
      var dropped := all[MAX_TAGS];
      assert dropped in src.tags && dropped !in all[..MAX_TAGS];
    }
  }

  ghost predicate Indexes(src: SiteSource, names: seq<string>, full: seq<Ref>, root: seq<Ref>,
                          keyword: seq<Ref>, regex: seq<Ref>, rx: Regex)
  {
    && Names(src, names)
    && Sorted(full, ByKey) && SameRefs(full, AllRefs(src, names, KindFull, rx))
    && Sorted(root, ByKey) && SameRefs(root, AllRefs(src, names, KindRoot, rx))
    && keyword == AllRefs(src, names, KindPlain, rx)
    && regex == AllRefs(src, names, KindRegex, rx)
  }

  lemma ListMatchesSnoc(list: seq<Ref>, n: nat, kind: EntryKind, h: string, rx: Regex)
    requires n < |list|
    ensures forall tag: nat :: ListMatches(list[..n + 1], kind, h, tag, rx) <==>
      (ListMatches(list[..n], kind, h, tag, rx) || (tag == list[n].tag && RefMatches(list[n], kind, h, rx)))
  {
    forall tag: nat
      ensures ListMatches(list[..n + 1], kind, h, tag, rx) <==>
        (ListMatches(list[..n], kind, h, tag, rx) || (tag == list[n].tag && RefMatches(list[n], kind, h, rx)))
    {
      var xs, ys := list[..n], list[..n + 1];
      assert ys[n] == list[n];
      if i :| 0 <= i < |xs| && xs[i].tag == tag && RefMatches(xs[i], kind, h, rx) {
        assert ys[i] == xs[i];
      }
      if i :| 0 <= i < |ys| && ys[i].tag == tag && RefMatches(ys[i], kind, h, rx) {
        assert i < n ==> ys[i] == xs[i];
      }
    }
  }

  lemma FullSearch(full: seq<Ref>, h: string, tag: nat, rx: Regex)
    ensures tag in TagsWith(full, h) <==> ListMatches(full, KindFull, h, tag, rx)
  {
    if i :| 0 <= i < |full| && full[i].tag == tag && RefMatches(full[i], KindFull, h, rx) {
      assert full[i].key == h;
    }
  }

  /** Walking the suffixes finds exactly the root references that accept. */
  lemma RootSearch(root: seq<Ref>, h: string, tag: nat, rx: Regex)
    ensures Walked(root, h, |h|, tag) <==> ListMatches(root, KindRoot, h, tag, rx)
  {
    if p: nat :| p < |h| && Boundary(h, p) && tag in TagsWith(root, h[p..]) {
      var i :| 0 <= i < |root| && root[i].key == h[p..] && root[i].tag == tag;
      assert RefMatches(root[i], KindRoot, h, rx);
    }
    if i :| 0 <= i < |root| && root[i].tag == tag && RefMatches(root[i], KindRoot, h, rx) {
      var p: nat :| Boundary(h, p) && h[p..] == root[i].key;
      assert tag in TagsWith(root, h[p..]);
    }
  }

  class SiteIndex {
    const rx: Regex
    var ver: string
    var loaded: bool
    var names: seq<string>
    var full: seq<Ref>
    var root: seq<Ref>
    var keyword: seq<Ref>
    var regex: seq<Ref>
    ghost var built: SiteSource

    ghost predicate Valid()
      reads this
    {
      loaded ==> ver == built.version && Indexes(built, names, full, root, keyword, regex, rx)
    }

    constructor (rx: Regex)
      ensures Valid() && !loaded && this.rx == rx
    {
      this.rx, ver, loaded, names := rx, "", false, [];
      full, root, keyword, regex := [], [], [], [];
    }

    /** `ensure`: rebuild when the file's version changed. */
    method Ensure(src: Option<SiteSource>) returns (ok: bool)
      requires Valid()
      requires src.Some? && loaded && src.value.version == ver ==> src.value == built
      modifies this
      ensures Valid() && (ok <==> src.Some?)
      ensures ok ==> loaded && built == src.value
    {
      if src.None? {
        return false;
      }
      if loaded && src.value.version == ver {
        return true;
      }
      Rebuild(src.value);
      return true;
    }

    method Rebuild(src: SiteSource)
      modifies this
      ensures Valid() && loaded && built == src
    {
      names, full, root, keyword, regex := Build(src);
      ver, loaded, built := src.version, true, src;
    }

    method Build(src: SiteSource)
      returns (tags: seq<string>, f: seq<Ref>, r: seq<Ref>, k: seq<Ref>, x: seq<Ref>)
      ensures Indexes(src, tags, f, r, k, x, rx)
    {
      tags := SortedNames(src);
      f, r, k, x := Collect(src, tags);
      f := SortRefs(f);
      r := SortRefs(r);
    }

    method SortedNames(src: SiteSource) returns (names: seq<string>)
      ensures Names(src, names)
    {
      var out: seq<string> := [];
      var todo := src.tags.Keys;
      while todo != {}
        invariant todo <= src.tags.Keys && Distinct(out)
        invariant forall t :: t in out <==> t in src.tags && t !in todo
      {
        var t :| t in todo;
        out := out + [t];
        todo := todo - {t};
      }
      StringLeqOrder();
      var all := SortBy(out, StringLeq);
      SameMembers(out, all);
      DistinctKept(out, all);
      names := if |all| > MAX_TAGS then all[..MAX_TAGS] else all;
    }

    /** The walk over every entry of every tag. */
    method Collect(src: SiteSource, names: seq<string>)
      returns (full: seq<Ref>, root: seq<Ref>, keyword: seq<Ref>, regex: seq<Ref>)
      ensures full == AllRefs(src, names, KindFull, rx) && root == AllRefs(src, names, KindRoot, rx)
      ensures keyword == AllRefs(src, names, KindPlain, rx) && regex == AllRefs(src, names, KindRegex, rx)
    {
      full, root, keyword, regex := [], [], [], [];
      for i := 0 to |names|
        invariant full == AllRefs(src, names[..i], KindFull, rx) && root == AllRefs(src, names[..i], KindRoot, rx)
        invariant keyword == AllRefs(src, names[..i], KindPlain, rx) && regex == AllRefs(src, names[..i], KindRegex, rx)
      {
        assert names[..i + 1][..i] == names[..i];
        var f, r, k, x := CollectTag(EntriesOf(src, names[i]), i);
        full, root, keyword, regex := full + f, root + r, keyword + k, regex + x;
      }
      assert names[..|names|] == names;
    }

    method CollectTag(es: seq<Entry>, tag: nat)
      returns (full: seq<Ref>, root: seq<Ref>, keyword: seq<Ref>, regex: seq<Ref>)
      ensures full == RefsOf(es, KindFull, tag, rx) && root == RefsOf(es, KindRoot, tag, rx)
      ensures keyword == RefsOf(es, KindPlain, tag, rx) && regex == RefsOf(es, KindRegex, tag, rx)
    {
      full, root, keyword, regex := [], [], [], [];
      for i := 0 to |es|
        invariant full == RefsOf(es[..i], KindFull, tag, rx) && root == RefsOf(es[..i], KindRoot, tag, rx)
        invariant keyword == RefsOf(es[..i], KindPlain, tag, rx) && regex == RefsOf(es[..i], KindRegex, tag, rx)
      {
        assert es[..i + 1][..i] == es[..i];
        var v := Lower(es[i].value);
        match es[i].kind {
          case KindFull => full := full + [Ref(v, tag)];
          case KindRoot => root := root + [Ref(v, tag)];
          case KindPlain => keyword := keyword + [Ref(v, tag)];
          case KindRegex =>
            if rx.compiles(es[i].value) {
              regex := regex + [Ref(es[i].value, tag)];
            }
          case KindUnknown =>
        }
      }
      assert es[..|es|] == es;
    }

    /** `Lookup`: exactly the indexed tags with an entry that the linear
        matcher accepts, sorted. */
    method Lookup(src: Option<SiteSource>, domain: string) returns (r: Option<seq<string>>)
      requires Valid()
      requires src.Some? ==> CleanSource(src.value, rx)
      requires src.Some? && loaded && src.value.version == ver ==> src.value == built
      modifies this
      ensures Valid() && (r.Some? <==> src.Some?)
      ensures r.Some? ==> built == src.value && Sorted(r.value, StringLeq) && Distinct(r.value)
      ensures r.Some? ==> forall t :: t in r.value <==> t in names && TagMatches(src.value, t, Normalise(domain), rx)
    {
      var ok := Ensure(src);
      if !ok {
        return None;
      }
      var h := Normalise(domain);
      var found := RefsFor(full, h, {});
      found := WalkRoots(root, h, found);
      found := ScanList(keyword, KindPlain, h, found);
      found := ScanList(regex, KindRegex, h, found);
      forall tag: nat
        ensures tag in found <==> tag < |names| && TagMatches(built, names[tag], h, rx)
      {
        FoundIff(h, tag);
        FiledIff(built, names, h, tag, rx);
      }
      var out := NamesOf(found);
      return Some(out);
    }

    /** The keyword and regular-expression loops. */
    method ScanList(list: seq<Ref>, kind: EntryKind, h: string, found: set<nat>) returns (r: set<nat>)
      requires kind == KindPlain || kind == KindRegex
      ensures forall tag: nat :: tag in r <==> (tag in found || ListMatches(list, kind, h, tag, rx))
    {
      r := found;
      for n := 0 to |list|
        invariant forall tag: nat :: tag in r <==> (tag in found || ListMatches(list[..n], kind, h, tag, rx))
      {
        ListMatchesSnoc(list, n, kind, h, rx);
        var hit := if kind == KindPlain then ContainsText(h, list[n].key) else rx.matches(list[n].key, h);
        if hit {
          r := r + {list[n].tag};
        }
      }
      assert list[..|list|] == list;
    }

    /** The names behind the indexes, sorted. */
    method NamesOf(found: set<nat>) returns (out: seq<string>)
      requires Distinct(names) && forall tag :: tag in found ==> tag < |names|
      ensures Sorted(out, StringLeq) && Distinct(out)
      ensures forall t :: t in out <==> exists tag :: tag in found && names[tag] == t
    {
      var list: seq<string> := [];
      var todo := found;
      while todo != {}
        invariant todo <= found && Distinct(list)
        invariant forall t :: t in list <==> exists tag :: tag in found && tag !in todo && names[tag] == t
      {
        var tag :| tag in todo;
        assert names[tag] !in list;
        list := list + [names[tag]];
        todo := todo - {tag};
      }
      StringLeqOrder();
      out := SortBy(list, StringLeq);
      SameMembers(list, out);
      DistinctKept(list, out);
    }

    /** What the four searches reach is what is filed. */
    lemma FoundIff(h: string, tag: nat)
      requires Valid() && loaded
      ensures Filed(built, names, h, tag, rx) <==>
        || tag in TagsWith(full, h)
        || Walked(root, h, |h|, tag)
        || ListMatches(keyword, KindPlain, h, tag, rx)
        || ListMatches(regex, KindRegex, h, tag, rx)
    {
      ListMatchesSame(full, AllRefs(built, names, KindFull, rx), KindFull, h, tag, rx);
      ListMatchesSame(root, AllRefs(built, names, KindRoot, rx), KindRoot, h, tag, rx);
      FullSearch(full, h, tag, rx);
      RootSearch(root, h, tag, rx);
    }
  }
}
