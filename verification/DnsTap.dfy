/** The DNS tap (`internal/observe/dnstap.go`): a bounded cache of which name a
    client resolved to which address, entries expiring by age.

    Addresses are plain numbers, already unmapped. */
module DnsTap {
  import opened Model
  import opened Domains

  type Ip = nat

  datatype Hint = Hint(name: string, at: int)

  /** One address of one answer that was taken in. */
  datatype Seen = Seen(client: Ip, addr: Ip, hint: Hint)

  // ------------------------------------------------------- the plain meaning

  /** The last the client resolved to the address. */
  function Last(log: seq<Seen>, client: Ip, addr: Ip): Option<Hint>
  {
    if log == [] then None
    else
      var s := log[|log| - 1];
      if s.client == client && s.addr == addr then Some(s.hint) else Last(log[..|log| - 1], client, addr)
  }

  /** The last anyone resolved to the address. */
  function LastAny(log: seq<Seen>, addr: Ip): Option<Hint>
  {
    if log == [] then None
    else
      var s := log[|log| - 1];
      if s.addr == addr then Some(s.hint) else LastAny(log[..|log| - 1], addr)
  }

  predicate Fresh(h: Option<Hint>, t: int, ttl: int)
  {
    h.Some? && t - h.value.at < ttl
  }

  /** What a lookup at time t should say. */
  function Answered(log: seq<Seen>, client: Ip, addr: Ip, t: int, ttl: int): string
  {
    if Fresh(Last(log, client, addr), t, ttl) then Last(log, client, addr).value.name
    else if Fresh(LastAny(log, addr), t, ttl) then LastAny(log, addr).value.name
    else ""
  }

  /** The i-th entry is the last the client resolved to the address. */
  ghost predicate LatestAt(log: seq<Seen>, client: Ip, addr: Ip, i: int)
  {
    && 0 <= i < |log| && log[i].client == client && log[i].addr == addr
    && forall j :: i < j < |log| ==> !(log[j].client == client && log[j].addr == addr)
  }

  /** The i-th entry is the last anyone resolved to the address. */
  ghost predicate LatestAnyAt(log: seq<Seen>, addr: Ip, i: int)
  {
    0 <= i < |log| && log[i].addr == addr && forall j :: i < j < |log| ==> log[j].addr != addr
  }

  lemma {:induction false} LastIsLatest(log: seq<Seen>, client: Ip, addr: Ip)
    ensures Last(log, client, addr).None? <==> forall i :: !LatestAt(log, client, addr, i)
    ensures forall i :: LatestAt(log, client, addr, i) ==> Last(log, client, addr) == Some(log[i].hint)
    ensures LastAny(log, addr).None? <==> forall i :: !LatestAnyAt(log, addr, i)
    ensures forall i :: LatestAnyAt(log, addr, i) ==> LastAny(log, addr) == Some(log[i].hint)
  {
    if log != [] {
      var n := |log| - 1;
      LastIsLatest(log[..n], client, addr);
      forall i
        ensures LatestAt(log, client, addr, i) <==>
          (if log[n].client == client && log[n].addr == addr then i == n else LatestAt(log[..n], client, addr, i))
        ensures LatestAnyAt(log, addr, i) <==> if log[n].addr == addr then i == n else LatestAnyAt(log[..n], addr, i)
      {
        assert forall j :: 0 <= j < n ==> log[..n][j] == log[j];
      }
      if log[n].client == client && log[n].addr == addr {
        assert LatestAt(log, client, addr, n);
      } else if Last(log[..n], client, addr).Some? {
        var i :| LatestAt(log[..n], client, addr, i);
        assert LatestAt(log, client, addr, i);
      }
      if log[n].addr == addr {
        assert LatestAnyAt(log, addr, n);
      } else if LastAny(log[..n], addr).Some? {
        var i :| LatestAnyAt(log[..n], addr, i);
        assert LatestAnyAt(log, addr, i);
      }
    }
  }

  /** What a lookup says, on the log: the client's own latest answer for the
      address if it is younger than the time to live, else anyone's latest if
      that is, else nothing. */
  ghost predicate Says(log: seq<Seen>, client: Ip, addr: Ip, t: int, ttl: int, name: string)
  {
    if exists i :: LatestAt(log, client, addr, i) && t - log[i].hint.at < ttl then
      exists i :: LatestAt(log, client, addr, i) && name == log[i].hint.name
    else if exists i :: LatestAnyAt(log, addr, i) && t - log[i].hint.at < ttl then
      exists i :: LatestAnyAt(log, addr, i) && name == log[i].hint.name
    else name == ""
  }

  lemma AnsweredSays(log: seq<Seen>, client: Ip, addr: Ip, t: int, ttl: int)
    ensures Says(log, client, addr, t, ttl, Answered(log, client, addr, t, ttl))
  {
    LastIsLatest(log, client, addr);
    if Last(log, client, addr).Some? {
      var i :| LatestAt(log, client, addr, i);
    }
    if LastAny(log, addr).Some? {
      var i :| LatestAnyAt(log, addr, i);
    }
  }

  function SeenOf(client: Ip, answers: seq<Ip>, h: Hint): seq<Seen>
  {
    if answers == [] then []
    else SeenOf(client, answers[..|answers| - 1], h) + [Seen(client, answers[|answers| - 1], h)]
  }

  /** One answer gives an entry for each of its addresses, in order. */
  lemma {:induction false} SeenExact(client: Ip, answers: seq<Ip>, h: Hint)
    ensures |SeenOf(client, answers, h)| == |answers|
    ensures forall i :: 0 <= i < |answers| ==> SeenOf(client, answers, h)[i] == Seen(client, answers[i], h)
  {
    if answers != [] {
      SeenExact(client, answers[..|answers| - 1], h);
    }
  }

  // -------------------------------------------------------------- the tables

  type Table = map<Ip, map<Ip, Hint>>

  /** The entries of all client maps. */
  function Pairs(t: Table): set<(Ip, Ip)>
  {
    set c, a | c in t && a in t[c] :: (c, a)
  }

  function Entry(t: Table, client: Ip, addr: Ip): Option<Hint>
  {
    if client in t && addr in t[client] then Some(t[client][addr]) else None
  }

  function EntryAny(g: map<Ip, Hint>, addr: Ip): Option<Hint>
  {
    if addr in g then Some(g[addr]) else None
  }

  /** What is stored is the last that was seen, or that has expired. */
  ghost predicate Faithful(stored: Option<Hint>, last: Option<Hint>, clock: int, ttl: int)
  {
    stored == last || (stored.None? && clock - last.value.at > ttl)
  }

  /** What a lookup at t finds, read off the tables. */
  function Found(t: Table, g: map<Ip, Hint>, client: Ip, addr: Ip, at: int, ttl: int): string
  {
    if Fresh(Entry(t, client, addr), at, ttl) then Entry(t, client, addr).value.name
    else if Fresh(EntryAny(g, addr), at, ttl) then EntryAny(g, addr).value.name
    else ""
  }

  function Kept(m: map<Ip, Hint>, now: int, ttl: int): map<Ip, Hint>
  {
    map a | a in m && now - m[a].at <= ttl :: m[a]
  }

  function Pruned(t: Table, now: int, ttl: int): Table
  {
    map c | c in t && Kept(t[c], now, ttl) != map[] :: Kept(t[c], now, ttl)
  }

  /** The entries that have not expired. */
  ghost function Young(t: Table, now: int, ttl: int): set<(Ip, Ip)>
  {
    set c, a | c in t && a in t[c] && now - t[c][a].at <= ttl :: (c, a)
  }

  lemma PrunedEntry(t: Table, now: int, ttl: int, client: Ip, addr: Ip)
    ensures var e := Entry(t, client, addr);
      Entry(Pruned(t, now, ttl), client, addr) == if e.Some? && now - e.value.at <= ttl then e else None
  {
    if client in t {
      var kept := Kept(t[client], now, ttl);
      if kept == map[] {
        assert addr !in kept;
      }
    }
  }

  /** Pruning at one time changes no lookup then or later. */
  lemma PruningIsInvisible(t: Table, g: map<Ip, Hint>, now: int, client: Ip, addr: Ip, at: int, ttl: int)
    requires at >= now
    ensures Found(Pruned(t, now, ttl), Kept(g, now, ttl), client, addr, at, ttl) == Found(t, g, client, addr, at, ttl)
  {
    PrunedEntry(t, now, ttl, client, addr);
  }

  /** After pruning only unexpired entries are left, and all of them. */
  lemma PrunedPairs(t: Table, now: int, ttl: int)
    ensures Pairs(Pruned(t, now, ttl)) == Young(t, now, ttl) <= Pairs(t)
  {
    forall c, a
      ensures (c, a) in Pairs(Pruned(t, now, ttl)) <==> (c, a) in Pairs(t) && now - t[c][a].at <= ttl
    {
      PrunedEntry(t, now, ttl, c, a);
    }
  }

  /** Storing one entry adds at most one pair. */
  lemma StoreCounts(t: Table, c: Ip, a: Ip, h: Hint)
    ensures var m := if c in t then t[c] else map[];
      |Pairs(t[c := m[a := h]])| == |Pairs(t)| + if a in m then 0 else 1
  {
    var m := if c in t then t[c] else map[];
    var u := t[c := m[a := h]];
    forall x, y
      ensures (x, y) in Pairs(u) <==> (x, y) in Pairs(t) || (x == c && y == a)
    {
      if x != c {
        assert x in u <==> x in t;
        assert x in t ==> u[x] == t[x];
      }
    }
    assert Pairs(u) == Pairs(t) + {(c, a)};
    assert a in m <==> (c, a) in Pairs(t);
  }

  lemma DropCounts(t: Table, c: Ip, a: Ip)
    requires c in t && a in t[c]
    ensures |Pairs(t[c := t[c] - {a}])| == |Pairs(t)| - 1
  {
    assert Pairs(t[c := t[c] - {a}]) == Pairs(t) - {(c, a)};
    assert (c, a) in Pairs(t);
  }

  lemma EmptyCountsNothing(t: Table, c: Ip)
    requires c in t && t[c] == map[]
    ensures Pairs(t - {c}) == Pairs(t)
  {
  }

  // -------------------------------------------------------------- the code

  /** The table while the clients in todo still wait for pruning. */
  function Halfway(t: Table, todo: set<Ip>, now: int, ttl: int): Table
  {
    map c | c in t && (c in todo || Kept(t[c], now, ttl) != map[]) :: if c in todo then t[c] else Kept(t[c], now, ttl)
  }

  lemma HalfwayStep(t: Table, todo: set<Ip>, c: Ip, now: int, ttl: int)
    requires c in todo && c in t
    ensures Halfway(t, todo - {c}, now, ttl) ==
      if Kept(t[c], now, ttl) == map[] then Halfway(t, todo, now, ttl) - {c}
      else Halfway(t, todo, now, ttl)[c := Kept(t[c], now, ttl)]
  {
  }

  lemma {:induction false} SubsetSize<T>(a: set<T>, b: set<T>)
    requires a <= b
    ensures |a| <= |b|
    decreases a
  {
    if a != {} {
      var x :| x in a;
      SubsetSize(a - {x}, b - {x});
    }
  }

  lemma FewerPairs(t: Table, u: Table)
    requires Pairs(u) <= Pairs(t)
    ensures |Pairs(u)| <= |Pairs(t)|
  {
    SubsetSize(Pairs(u), Pairs(t));
  }

  class DnsTap {
    const ttl: int
    const max: nat
    var byClient: Table
    var global: map<Ip, Hint>
    var count: int
    var seen: nat
    /** Every address taken in, in order; the latest time it was called with;
        the longest answer taken in. */
    ghost var log: seq<Seen>
    ghost var clock: int
    ghost var longest: nat

    ghost predicate Valid()
      reads this
    {
      && count == |Pairs(byClient)|
      && (count == 0 || count < max + longest)
      && (forall c, a :: Faithful(Entry(byClient, c, a), Last(log, c, a), clock, ttl))
      && (forall a :: Faithful(EntryAny(global, a), LastAny(log, a), clock, ttl))
    }

    constructor (ttl: int, max: nat)
      ensures Valid() && this.ttl == ttl && this.max == max && log == []
    {
      this.ttl, this.max := ttl, max;
      byClient, global, count, seen := map[], map[], 0, 0;
      log, clock, longest := [], 0, 0;
    }

    /** `Lookup`: what the client last resolved to the address, else what
        anyone did, unless it has expired. */
    method Lookup(client: Ip, addr: Ip, t: int) returns (name: string)
      requires Valid() && t >= clock
      ensures Says(log, client, addr, t, ttl, name)
    {
      AnsweredSays(log, client, addr, t, ttl);
      assert Faithful(Entry(byClient, client, addr), Last(log, client, addr), clock, ttl);
      assert Faithful(EntryAny(global, addr), LastAny(log, addr), clock, ttl);
      if client in byClient {
        var m := byClient[client];
        if addr in m && t - m[addr].at < ttl {
          return m[addr].name;
        }
      }
      if addr in global && t - global[addr].at < ttl {
        return global[addr].name;
      }
      return "";
    }

    /** One client's expired entries, counted off one by one. */
    method PruneClient(c: Ip, now: int)
      requires c in byClient && count == |Pairs(byClient)|
      modifies `byClient, `count
      ensures byClient == if Kept(old(byClient)[c], now, ttl) == map[] then old(byClient) - {c}
        else old(byClient)[c := Kept(old(byClient)[c], now, ttl)]
      ensures count == |Pairs(byClient)|
    {
      var t, m := byClient, byClient[c];
      var todo := m.Keys;
      while todo != {}
        invariant todo <= m.Keys && c in byClient
        invariant byClient == t[c := byClient[c]]
        invariant byClient[c] == map a | a in m && (a in todo || now - m[a].at <= ttl) :: m[a]
        invariant count == |Pairs(byClient)|
      {
        var a :| a in todo;
        todo := todo - {a};
        if now - m[a].at > ttl {
          DropCounts(byClient, c, a);
          byClient := byClient[c := byClient[c] - {a}];
          count := count - 1;
        }
      }
      assert byClient[c] == Kept(m, now, ttl);
      if byClient[c] == map[] {
        EmptyCountsNothing(byClient, c);
        assert byClient - {c} == t - {c};
        byClient := byClient - {c};
      }
    }

    method PruneClients(now: int)
      requires count == |Pairs(byClient)|
      modifies `byClient, `count
      ensures byClient == Pruned(old(byClient), now, ttl)
      ensures count == |Pairs(byClient)|
    {
      var t := byClient;
      var todo := t.Keys;
      while todo != {}
        invariant todo <= t.Keys
        invariant byClient == Halfway(t, todo, now, ttl)
        invariant count == |Pairs(byClient)|
      {
        var c :| c in todo;
        PruneClient(c, now);
        HalfwayStep(t, todo, c, now, ttl);
        todo := todo - {c};
      }
      assert Halfway(t, {}, now, ttl) == Pruned(t, now, ttl);
    }

    method PruneGlobal(now: int)
      modifies `global
      ensures global == Kept(old(global), now, ttl)
    {
      var g := global;
      var todo := g.Keys;
      while todo != {}
        invariant todo <= g.Keys
        invariant global == map a | a in g && (a in todo || now - g[a].at <= ttl) :: g[a]
      {
        var a :| a in todo;
        todo := todo - {a};
        if now - g[a].at > ttl {
          global := global - {a};
        }
      }
    }

    /** `pruneLocked`. */
    method Prune(now: int)
      requires Valid() && now >= clock
      modifies this
      ensures Valid() && clock == now && log == old(log) && longest == old(longest) && seen == old(seen)
      ensures byClient == Pruned(old(byClient), now, ttl) && global == Kept(old(global), now, ttl)
      ensures forall c, a :: c in byClient && a in byClient[c] <==>
        (c in old(byClient) && a in old(byClient)[c] && now - old(byClient)[c][a].at <= ttl)
      ensures forall c, a :: c in byClient && a in byClient[c] ==> byClient[c][a] == old(byClient)[c][a]
      ensures forall a :: a in global <==> a in old(global) && now - old(global)[a].at <= ttl
    {
      ghost var t, g := byClient, global;
      PruneClients(now);
      PruneGlobal(now);
      PrunedPairs(t, now, ttl);
      forall c, a
        ensures c in byClient && a in byClient[c] <==> c in t && a in t[c] && now - t[c][a].at <= ttl
        ensures c in byClient && a in byClient[c] ==> byClient[c][a] == t[c][a]
      {
        PrunedEntry(t, now, ttl, c, a);
      }
      FewerPairs(t, byClient);
      forall c, a
        ensures Faithful(Entry(byClient, c, a), Last(log, c, a), now, ttl)
      {
        PrunedEntry(t, now, ttl, c, a);
        assert Faithful(Entry(t, c, a), Last(log, c, a), clock, ttl);
      }
      forall a
        ensures Faithful(EntryAny(global, a), LastAny(log, a), now, ttl)
      {
        assert Faithful(EntryAny(g, a), LastAny(log, a), clock, ttl);
      }
      clock := now;
    }

    /** `Record`: an answer is taken in unless it is empty or the cache is full
        of entries that have not expired. */
    method Record(client: Ip, rawName: string, answers: seq<Ip>, now: int) returns (taken: bool)
      requires Valid() && now >= clock
      modifies this
      ensures Valid()
      ensures var name := TrimDot(Lower(rawName));
        taken <==>
          && name != "" && answers != []
          && (old(count) < max || |Young(old(byClient), now, ttl)| < max)
      ensures |log| == |old(log)| + (if taken then |answers| else 0) && old(log) <= log
      ensures taken ==> forall i :: 0 <= i < |answers| ==>
        log[|old(log)| + i] == Seen(client, answers[i], Hint(TrimDot(Lower(rawName)), now))
      ensures seen == old(seen) + if taken then 1 else 0
      ensures longest == if taken && |answers| > old(longest) then |answers| else old(longest)
    {
      var name := TrimDot(Lower(rawName));
      if name == "" || |answers| == 0 {
        return false;
      }
      if count >= max {
        PrunedPairs(byClient, now, ttl);
        Prune(now);
        if count >= max {
          return false;
        }
      }
      StoreAll(client, answers, Hint(name, now));
      SeenExact(client, answers, Hint(name, now));
      seen := seen + 1;
      return true;
    }

    /** The entries of one answer. */
    method StoreAll(client: Ip, answers: seq<Ip>, h: Hint)
      requires Valid() && h.at >= clock && count < max && answers != []
      modifies `byClient, `global, `count, `log, `clock, `longest
      ensures Valid() && log == old(log) + SeenOf(client, answers, h)
      ensures longest == if |answers| > old(longest) then |answers| else old(longest)
    {
      ghost var start := count;
      ghost var before := log;
      clock := h.at;
      ghost var bound := if |answers| > longest then |answers| else longest;
      longest := bound;
      for i := 0 to |answers|
        invariant log == before + SeenOf(client, answers[..i], h)
        invariant clock == h.at && longest == bound
        invariant count == |Pairs(byClient)| && count <= start + i
        invariant forall c, a :: Faithful(Entry(byClient, c, a), Last(log, c, a), clock, ttl)
        invariant forall a :: Faithful(EntryAny(global, a), LastAny(log, a), clock, ttl)
      {
        assert answers[..i + 1][..i] == answers[..i];
        StoreOne(client, answers[i], h);
      }
      assert answers[..|answers|] == answers;
    }

    method StoreOne(client: Ip, a: Ip, h: Hint)
      requires count == |Pairs(byClient)|
      requires forall c, a :: Faithful(Entry(byClient, c, a), Last(log, c, a), clock, ttl)
      requires forall a :: Faithful(EntryAny(global, a), LastAny(log, a), clock, ttl)
      modifies `byClient, `global, `count, `log
      ensures log == old(log) + [Seen(client, a, h)]
      ensures count == |Pairs(byClient)| && old(count) <= count <= old(count) + 1
      ensures forall c, a :: Faithful(Entry(byClient, c, a), Last(log, c, a), clock, ttl)
      ensures forall a :: Faithful(EntryAny(global, a), LastAny(log, a), clock, ttl)
    {
      ghost var t, g, was := byClient, global, log;
      var m := if client in byClient then byClient[client] else map[];
      StoreCounts(byClient, client, a, h);
      if a !in m {
        count := count + 1;
      }
      byClient := byClient[client := m[a := h]];
      global := global[a := h];
      log := log + [Seen(client, a, h)];
      forall c, b
        ensures Faithful(Entry(byClient, c, b), Last(log, c, b), clock, ttl)
      {
        assert log[..|log| - 1] == was;
        assert Faithful(Entry(t, c, b), Last(was, c, b), clock, ttl);
      }
      forall b
        ensures Faithful(EntryAny(global, b), LastAny(log, b), clock, ttl)
      {
        assert log[..|log| - 1] == was;
        assert Faithful(EntryAny(g, b), LastAny(was, b), clock, ttl);
      }
    }
  }
}
