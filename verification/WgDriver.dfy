/** Kernel WireGuard (`internal/driver/wg`, `internal/render/wg.go`): numbering
    the interfaces by index, planning against what was last applied, and
    changing the kernel one call at a time, any of which may fail. */
module WgDriver {
  import opened Model
  import opened Sorting

  const TABLE_BASE: nat := 300
  const MARK_BASE: nat := 0x100
  const MAX_IFACES: nat := 64

  datatype Fam = V4 | V6

  /** An interface address; families are taken from those that parse. */
  datatype Cidr = Cidr4(text: string) | Cidr6(text: string) | Junk(text: string)

  /** A peer, its allowed addresses joined by commas as they are compared. */
  datatype Peer = Peer(publicKey: string, presharedKey: string, endpoint: string, allowed: string, keepalive: nat)

  datatype Iface = Iface(
    nodeId: string, name: string, privateKey: string, addresses: seq<Cidr>,
    mtu: nat, peers: seq<Peer>, table: nat, mark: nat)

  // ----------------------------------------------------------- the renderer

  function Converted(candidates: seq<Option<Iface>>): seq<Iface>
  {
    if candidates == [] then []
    else
      var last := candidates[|candidates| - 1];
      Converted(candidates[..|candidates| - 1]) + if last.Some? then [last.value] else []
  }

  /** Each node that converts gives its interface, as often as it is there. */
  lemma {:induction false} ConvertedExact(candidates: seq<Option<Iface>>, w: Iface)
    ensures multiset(Converted(candidates))[w] == multiset(candidates)[Some(w)]
  {
    if candidates != [] {
      var front, last := candidates[..|candidates| - 1], candidates[|candidates| - 1];
      assert candidates == front + [last];
      ConvertedExact(front, w);
      var more: seq<Iface> := if last.Some? then [last.value] else [];
      assert multiset(Converted(front) + more) == multiset(Converted(front)) + multiset(more);
    }
  }

  predicate ByNode(a: Iface, b: Iface) { StringLeq(a.nodeId, b.nodeId) }

  predicate ByIfaceName(a: Iface, b: Iface) { StringLeq(a.name, b.name) }

  lemma ByNodeOrder()
    ensures TotalPreorder(ByNode) && TotalPreorder(ByIfaceName)
  {
    StringLeqOrder();
  }

  /** Table and mark follow the index. */
  function Numbered(ws: seq<Iface>): (out: seq<Iface>)
    ensures |out| == |ws|
    ensures forall i :: 0 <= i < |ws| ==> out[i] == ws[i].(table := 300 + i, mark := 0x100 + i)
  {
    seq(|ws|, i requires 0 <= i < |ws| => ws[i].(table := TABLE_BASE + i, mark := MARK_BASE + i))
  }

  /** `renderWG` on the interfaces that enabled WireGuard nodes convert to;
      None is a node that stays on userspace. */
  method RenderWG(kernelWG: bool, candidates: seq<Option<Iface>>) returns (out: seq<Iface>)
    ensures !kernelWG ==> out == []
    ensures kernelWG ==> exists all: seq<Iface> ::
      && multiset(all) == multiset(Converted(candidates)) && Sorted(all, ByNode)
      && out == Numbered(if |all| > 64 then all[..64] else all)
  {
    out := [];
    if !kernelWG {
      return;
    }
    for i := 0 to |candidates|
      invariant out == Converted(candidates[..i])
    {
      assert candidates[..i + 1][..i] == candidates[..i];
      if candidates[i].Some? {
        out := out + [candidates[i].value];
      }
    }
    assert candidates[..|candidates|] == candidates;
    ByNodeOrder();
    ghost var all;
    out := SortBy(out, ByNode);
    all := out;
    if |out| > MAX_IFACES {
      out := out[..MAX_IFACES];
    }
    ghost var kept := out;
    for i := 0 to |out|
      invariant |out| == |kept|
      invariant forall j :: 0 <= j < i ==> out[j] == kept[j].(table := TABLE_BASE + j, mark := MARK_BASE + j)
      invariant forall j :: i <= j < |out| ==> out[j] == kept[j]
    {
      out := out[i := out[i].(table := TABLE_BASE + i, mark := MARK_BASE + i)];
    }
    assert out == Numbered(kept);
  }

  /** The interfaces by name; of two with one name the later wins. */
  function ByName(ws: seq<Iface>): (m: map<string, Iface>)
    ensures forall n :: n in m ==> m[n] in ws && m[n].name == n
  {
    if ws == [] then map[]
    else
      var last := ws[|ws| - 1];
      ByName(ws[..|ws| - 1])[last.name := last]
  }

  /** No later interface has the name of the i-th. */
  ghost predicate LastNamed(ws: seq<Iface>, i: int)
  {
    0 <= i < |ws| && forall j :: i < j < |ws| ==> ws[j].name != ws[i].name
  }

  /** Every name of the list is there, with its last interface. */
  lemma {:induction false} NamedLast(ws: seq<Iface>, i: int)
    requires LastNamed(ws, i)
    ensures ws[i].name in ByName(ws) && ByName(ws)[ws[i].name] == ws[i]
  {
    if i < |ws| - 1 {
      assert LastNamed(ws[..|ws| - 1], i);
      NamedLast(ws[..|ws| - 1], i);
    }
  }

  lemma {:induction false} LastOf(ws: seq<Iface>, k: int) returns (i: int)
    requires 0 <= k < |ws|
    ensures LastNamed(ws, i) && ws[i].name == ws[k].name
    decreases |ws| - k
  {
    if j :| k < j < |ws| && ws[j].name == ws[k].name {
      i := LastOf(ws, j);
    } else {
      i := k;
    }
  }

  lemma {:induction false} NamesKept(ws: seq<Iface>, n: string)
    ensures n in ByName(ws) <==> exists i :: 0 <= i < |ws| && ws[i].name == n
  {
    if ws != [] {
      var front, last := ws[..|ws| - 1], ws[|ws| - 1];
      NamesKept(front, n);
      assert ws == front + [last];
      if i :| 0 <= i < |front| && front[i].name == n {
        assert ws[i].name == n;
      }
    }
  }

  /** The interface kept for a name, by its place. */
  lemma PlaceOf(ws: seq<Iface>, n: string) returns (i: int)
    requires n in ByName(ws)
    ensures LastNamed(ws, i) && ws[i].name == n && ByName(ws)[n] == ws[i]
  {
    NamesKept(ws, n);
    var k :| 0 <= k < |ws| && ws[k].name == n;
    i := LastOf(ws, k);
    NamedLast(ws, i);
  }

  /** Distinct interfaces own distinct tables. */
  ghost predicate OwnTables(m: map<string, Iface>)
  {
    && (forall n :: n in m ==> m[n].name == n && TABLE_BASE <= m[n].table < TABLE_BASE + MAX_IFACES)
    && (forall n :: n in m ==> m[n].mark == m[n].table - TABLE_BASE + MARK_BASE)
    && (forall n, k :: n in m && k in m && n != k ==> m[n].table != m[k].table)
  }

  /** What the renderer hands to the driver owns its tables. */
  lemma NumberedOwnTables(ws: seq<Iface>)
    requires |ws| <= MAX_IFACES
    ensures OwnTables(ByName(Numbered(ws)))
  {
    var m := ByName(Numbered(ws));
    forall n | n in m
      ensures m[n].name == n && TABLE_BASE <= m[n].table < TABLE_BASE + MAX_IFACES
      ensures m[n].mark == m[n].table - TABLE_BASE + MARK_BASE
    {
      var i :| 0 <= i < |ws| && Numbered(ws)[i] == m[n];
    }
    forall n, k | n in m && k in m && n != k
      ensures m[n].table != m[k].table
    {
      var i :| 0 <= i < |ws| && Numbered(ws)[i] == m[n];
      var j :| 0 <= j < |ws| && Numbered(ws)[j] == m[k];
      assert i != j;
    }
  }

  // -------------------------------------------------------------- the kernel

  /** A link as configured. Its addresses are those the driver looks after:
      link-local ones of the kernel are left out. */
  datatype Link = Link(privateKey: string, mtu: nat, peers: seq<Peer>, addresses: set<Cidr>)

  datatype PolicyRule = PolicyRule(fam: Fam, mark: nat, table: nat)

  /** The program's links, the default route of each table, and the rules that
      send a mark to a table. */
  datatype Kernel = Kernel(links: map<string, Link>, routes: map<(Fam, nat), string>, rules: set<PolicyRule>)

  function Wanted(w: Iface): set<Cidr>
  {
    set a | a in w.addresses
  }

  function LinkOf(w: Iface): Link
  {
    Link(w.privateKey, w.mtu, w.peers, Wanted(w))
  }

  /** `families`. */
  predicate Uses(w: Iface, fam: Fam)
  {
    exists i :: 0 <= i < |w.addresses| && if fam.V4? then w.addresses[i].Cidr4? else w.addresses[i].Cidr6?
  }

  predicate Routed(k: Kernel, w: Iface, fam: Fam)
  {
    && (fam, w.table) in k.routes && k.routes[(fam, w.table)] == w.name
    && PolicyRule(fam, w.mark, w.table) in k.rules
  }

  /** The interface works as wanted: configured, with its addresses, and marked
      traffic goes through it. Addresses of an earlier configuration may still
      be there. */
  predicate Good(k: Kernel, w: Iface)
  {
    && w.name in k.links
    && k.links[w.name] == LinkOf(w).(addresses := k.links[w.name].addresses)
    && Wanted(w) <= k.links[w.name].addresses
    && (Uses(w, V4) ==> Routed(k, w, V4))
    && (Uses(w, V6) ==> Routed(k, w, V6))
  }

  /** Good, and no address too many. */
  predicate Exact(k: Kernel, w: Iface)
  {
    Good(k, w) && k.links[w.name] == LinkOf(w)
  }

  lemma UsesMeans(w: Iface)
    ensures Uses(w, V4) <==> exists text :: Cidr.Cidr4(text) in w.addresses
    ensures Uses(w, V6) <==> exists text :: Cidr6(text) in w.addresses
  {
    if i :| 0 <= i < |w.addresses| && w.addresses[i].Cidr4? {
      assert Cidr.Cidr4(w.addresses[i].text) in w.addresses;
    }
    if i :| 0 <= i < |w.addresses| && w.addresses[i].Cidr6? {
      assert Cidr6(w.addresses[i].text) in w.addresses;
    }
  }

  /** An exact interface, field by field. */
  lemma ExactMeans(k: Kernel, w: Iface)
    ensures Exact(k, w) <==>
      && w.name in k.links
      && (var link := k.links[w.name];
          && link.privateKey == w.privateKey && link.mtu == w.mtu && link.peers == w.peers
          && forall a :: a in link.addresses <==> a in w.addresses)
      && ((exists text :: Cidr.Cidr4(text) in w.addresses) ==>
            (V4, w.table) in k.routes && k.routes[(V4, w.table)] == w.name && PolicyRule(V4, w.mark, w.table) in k.rules)
      && ((exists text :: Cidr6(text) in w.addresses) ==>
            (V6, w.table) in k.routes && k.routes[(V6, w.table)] == w.name && PolicyRule(V6, w.mark, w.table) in k.rules)
  {
    UsesMeans(w);
    if w.name in k.links && forall a :: a in k.links[w.name].addresses <==> a in w.addresses {
      assert k.links[w.name].addresses == Wanted(w);
    }
  }

  /** Every wanted interface is exact and there is no other. */
  ghost predicate Matches(k: Kernel, want: map<string, Iface>)
  {
    && (forall n :: n in want ==> Exact(k, want[n]))
    && k.links.Keys == want.Keys
  }

  /** A removal never reports a rule or route it could not delete, nor a link it
      could not look up; then the link is stuck. */
  ghost predicate RemoveStep(k: Kernel, k': Kernel, r: Iface, ok: bool, stuck: bool)
  {
    && k'.links == (if ok && !stuck then k.links - {r.name} else k.links)
    && (stuck ==> ok && r.name in k.links)
    && k'.rules <= k.rules
    && (forall x :: x in k.rules && x !in k'.rules ==>
         r.table != 0 && x.table == r.table && (r.mark == 0 || x.mark == r.mark))
    && k'.routes.Keys <= k.routes.Keys
    && (forall t :: t in k'.routes ==> k'.routes[t] == k.routes[t])
    && (forall t :: t in k.routes && t !in k'.routes ==> (r.table != 0 && t.1 == r.table) || k.routes[t] == r.name)
  }

  /** Configuring touches only the interface's own link, table and rule. It
      never reports an old address it could not delete; then that is stuck. */
  ghost predicate EnsureStep(k: Kernel, k': Kernel, w: Iface, ok: bool, stuck: bool)
  {
    && k'.links.Keys <= k.links.Keys + {w.name} && k.links.Keys <= k'.links.Keys
    && (forall n :: n in k.links && n != w.name ==> k'.links[n] == k.links[n])
    && (forall t :: t in k.routes && t.1 != w.table ==> t in k'.routes && k'.routes[t] == k.routes[t])
    && (forall t :: t in k'.routes && t.1 != w.table ==> t in k.routes)
    && k.rules <= k'.rules
    && (forall x :: x in k'.rules && x !in k.rules ==> x.table == w.table && x.mark == w.mark)
    && (ok ==> Good(k', w) && (Exact(k', w) <==> !stuck))
  }

  class Backend {
    var kernel: Kernel

    constructor (kernel: Kernel)
      ensures this.kernel == kernel
    {
      this.kernel := kernel;
    }

    /** `Remove`: rules and routes first, their failures ignored, then the
        link, which takes its routes with it. A link that cannot be looked up
        counts as gone. */
    method Remove(r: Iface) returns (ok: bool, ghost stuck: bool)
      modifies this
      ensures RemoveStep(old(kernel), kernel, r, ok, stuck)
    {
      var k := kernel;
      var rules := set x | x in k.rules && r.table != 0 && x.table == r.table &&
        TABLE_BASE <= x.table < TABLE_BASE + MAX_IFACES && (r.mark == 0 || x.mark == r.mark);
      var routes := set t | t in k.routes && r.table != 0 && t.1 == r.table;
      var stuckRules: set<PolicyRule>, stuckRoutes: set<(Fam, nat)> := *, *;
      k := k.(rules := k.rules - (rules - stuckRules), routes := k.routes - (routes - stuckRoutes));
      kernel := k;
      var found: bool := *;
      stuck := false;
      if r.name !in k.links || !found {
        assert r.name !in k.links ==> k.links - {r.name} == k.links;
        stuck := r.name in k.links;
        return true, stuck;
      }
      ok := *;
      if ok {
        var via := set t | t in k.routes && k.routes[t] == r.name;
        kernel := Kernel(k.links - {r.name}, k.routes - via, k.rules);
      }
    }

    /** `Ensure`: link, addresses, then per family route and rule. */
    method Ensure(w: Iface) returns (ok: bool, ghost stuck: bool)
      modifies this
      ensures EnsureStep(old(kernel), kernel, w, ok, stuck)
    {
      stuck := false;
      ok := EnsureDevice(w);
      if !ok {
        return;
      }
      ok, stuck := EnsureAddresses(w);
      if !ok {
        return;
      }
      if Uses(w, V4) {
        ok := EnsureFamily(w, V4);
        if !ok {
          return;
        }
      }
      if Uses(w, V6) {
        ok := EnsureFamily(w, V6);
      }
    }

    /** The link, its MTU, its key and its peers. */
    method EnsureDevice(w: Iface) returns (ok: bool)
      modifies this
      ensures kernel == old(kernel).(links := kernel.links)
      ensures kernel.links.Keys <= old(kernel).links.Keys + {w.name} && old(kernel).links.Keys <= kernel.links.Keys
      ensures forall n :: n in old(kernel).links && n != w.name ==> kernel.links[n] == old(kernel).links[n]
      ensures ok ==> w.name in kernel.links && kernel.links[w.name] == LinkOf(w).(addresses := kernel.links[w.name].addresses)
    {
      if w.name !in kernel.links {
        ok := *;
        if !ok {
          return;
        }
        kernel := kernel.(links := kernel.links[w.name := Link("", w.mtu, [], {})]);
      }
      if kernel.links[w.name].mtu != w.mtu {
        ok := *;
        if !ok {
          return;
        }
        kernel := kernel.(links := kernel.links[w.name := kernel.links[w.name].(mtu := w.mtu)]);
      }
      ok := *;
      if !ok {
        var key: string, peers: seq<Peer> := *, *;
        kernel := kernel.(links := kernel.links[w.name := kernel.links[w.name].(privateKey := key, peers := peers)]);
        return;
      }
      kernel := kernel.(links := kernel.links[w.name := kernel.links[w.name].(privateKey := w.privateKey, peers := w.peers)]);
    }

    /** Old addresses go, as far as they can be listed and deleted; then the
        wanted ones are put in order, and the link is brought up. */
    method EnsureAddresses(w: Iface) returns (ok: bool, ghost stuck: bool)
      requires w.name in kernel.links
      modifies this
      ensures w.name in kernel.links
      ensures kernel == old(kernel).(links := old(kernel).links[w.name := kernel.links[w.name]])
      ensures kernel.links[w.name] == old(kernel).links[w.name].(addresses := kernel.links[w.name].addresses)
      ensures ok ==> Wanted(w) <= kernel.links[w.name].addresses <= old(kernel).links[w.name].addresses + Wanted(w)
      ensures ok ==> (stuck <==> kernel.links[w.name].addresses != Wanted(w))
    {
      var link := kernel.links[w.name];
      var kept: set<Cidr> := *;
      var left := set a | a in link.addresses && (a in Wanted(w) || a in kept);
      kernel := kernel.(links := kernel.links[w.name := link.(addresses := left)]);
      stuck := !(left <= Wanted(w));
      for i := 0 to |w.addresses|
        invariant w.name in kernel.links
        invariant kernel == old(kernel).(links := old(kernel).links[w.name := kernel.links[w.name]])
        invariant kernel.links[w.name] == link.(addresses := left + set a | a in w.addresses[..i])
      {
        assert w.addresses[..i + 1] == w.addresses[..i] + [w.addresses[i]];
        ok := *;
        if w.addresses[i].Junk? || !ok {
          return false, stuck;
        }
        kernel := kernel.(links := kernel.links[w.name := link.(addresses := kernel.links[w.name].addresses + {w.addresses[i]})]);
      }
      assert w.addresses[..|w.addresses|] == w.addresses;
      ok := *;
    }

    method EnsureFamily(w: Iface, fam: Fam) returns (ok: bool)
      modifies this
      ensures kernel.links == old(kernel).links
      ensures forall t :: t != (fam, w.table) ==>
        (t in kernel.routes <==> t in old(kernel).routes) &&
        (t in kernel.routes ==> kernel.routes[t] == old(kernel).routes[t])
      ensures old(kernel).rules <= kernel.rules <= old(kernel).rules + {PolicyRule(fam, w.mark, w.table)}
      ensures ok ==> Routed(kernel, w, fam)
    {
      ok := *;
      if !ok {
        return;
      }
      kernel := kernel.(routes := kernel.routes[(fam, w.table) := w.name]);
      ok := *;
      if !ok {
        return;
      }
      kernel := kernel.(rules := kernel.rules + {PolicyRule(fam, w.mark, w.table)});
    }
  }

  /** The interface stands in one kernel as in the other. */
  predicate Stands(k: Kernel, k': Kernel, w: Iface)
  {
    (Good(k', w) <==> Good(k, w)) && (Exact(k', w) <==> Exact(k, w))
  }

  /** A removal spares an interface with another name and table. */
  lemma RemoveSpares(k: Kernel, k': Kernel, r: Iface, ok: bool, stuck: bool, w: Iface)
    requires RemoveStep(k, k', r, ok, stuck) && r.name != w.name && r.table != w.table
    ensures Stands(k, k', w)
  {
    assert forall fam :: Routed(k, w, fam) <==> Routed(k', w, fam);
  }

  /** So does configuring another interface: it neither breaks nor mends. */
  lemma EnsureSpares(k: Kernel, k': Kernel, x: Iface, ok: bool, stuck: bool, w: Iface)
    requires EnsureStep(k, k', x, ok, stuck) && x.name != w.name && x.table != w.table
    ensures Stands(k, k', w)
  {
    assert forall fam :: Routed(k, w, fam) <==> Routed(k', w, fam);
  }

  // -------------------------------------------------------------- the driver

  /** `sameIface`, for two interfaces of one name. */
  method SameIface(a: Iface, b: Iface) returns (same: bool)
    requires a.name == b.name
    ensures same <==> a == b
  {
    if a.nodeId != b.nodeId || a.privateKey != b.privateKey || a.mtu != b.mtu || a.table != b.table ||
       a.mark != b.mark || |a.addresses| != |b.addresses| || |a.peers| != |b.peers| {
      return false;
    }
    for i := 0 to |a.addresses|
      invariant a.addresses[..i] == b.addresses[..i]
    {
      if a.addresses[i] != b.addresses[i] {
        return false;
      }
    }
    for i := 0 to |a.peers|
      invariant a.peers[..i] == b.peers[..i]
    {
      if a.peers[i] != b.peers[i] {
        return false;
      }
    }
    assert a.addresses == a.addresses[..|a.addresses|] == b.addresses;
    assert a.peers == a.peers[..|a.peers|] == b.peers;
    return true;
  }

  datatype Plan = Plan(add: seq<Iface>, update: seq<Iface>, remove: seq<Iface>)

  /** s holds each interface m gives to the names once, and nothing else. */
  ghost predicate Lists(s: seq<Iface>, m: map<string, Iface>, names: set<string>)
  {
    && Distinct(s)
    && (forall i :: 0 <= i < |s| ==> s[i].name in names && s[i].name in m && m[s[i].name] == s[i])
    && (forall n :: n in names ==> exists i :: 0 <= i < |s| && s[i].name == n)
  }

  /** Names present on both sides and known to be the same. */
  function LeftAlone(known: bool, have: map<string, Iface>, want: map<string, Iface>): set<string>
  {
    set n | n in want && known && n in have && have[n] == want[n]
  }

  /** The plan turns have into want, touching nothing that is left alone. */
  ghost predicate Turns(p: Plan, known: bool, have: map<string, Iface>, want: map<string, Iface>)
  {
    && Lists(p.add, want, want.Keys - have.Keys)
    && Lists(p.update, want, want.Keys * have.Keys - LeftAlone(known, have, want))
    && Lists(p.remove, have, have.Keys - want.Keys)
    && Sorted(p.add, ByIfaceName) && Sorted(p.update, ByIfaceName)
  }

  /** What exists as far as the driver knows: what it applied, or the bare names
      the kernel lists. */
  function Have(prev: Option<seq<Iface>>, k: Kernel): map<string, Iface>
  {
    if prev.Some? then ByName(prev.value)
    else map n | n in k.links :: Iface("", n, "", [], 0, [], 0, 0)
  }

  lemma ListsSnoc(s: seq<Iface>, m: map<string, Iface>, names: set<string>, n: string)
    requires Lists(s, m, names) && n in m && n !in names && m[n].name == n
    ensures Lists(s + [m[n]], m, names + {n})
  {
    var t := s + [m[n]];
    forall x | x in names + {n}
      ensures exists i :: 0 <= i < |t| && t[i].name == x
    {
      if x == n {
        assert t[|s|].name == n;
      } else {
        var i :| 0 <= i < |s| && s[i].name == x;
        assert t[i].name == x;
      }
    }
  }

  method SortIfaces(s: seq<Iface>, ghost m: map<string, Iface>, ghost names: set<string>) returns (r: seq<Iface>)
    requires Lists(s, m, names)
    ensures Lists(r, m, names) && Sorted(r, ByIfaceName)
  {
    ByNodeOrder();
    r := SortBy(s, ByIfaceName);
    DistinctKept(s, r);
    SameMembers(s, r);
    forall i | 0 <= i < |r|
      ensures r[i].name in names && r[i].name in m && m[r[i].name] == r[i]
    {
      assert r[i] in r;
    }
    forall n | n in names
      ensures exists i :: 0 <= i < |r| && r[i].name == n
    {
      var i :| 0 <= i < |s| && s[i].name == n;
      assert s[i] in r;
    }
  }

  /** What a pass that returned no error did; stuck names the interfaces for
      which a failure was swallowed. */
  ghost predicate Settled(k: Kernel, k': Kernel, known: bool, have: map<string, Iface>, want: map<string, Iface>,
                          stuck: set<string>)
  {
    var alone, gone := LeftAlone(known, have, want), have.Keys - want.Keys;
    && (forall n :: n in alone ==> Stands(k, k', want[n]))
    && (forall n :: n in want && n !in alone ==> Good(k', want[n]) && (Exact(k', want[n]) <==> n !in stuck))
    && k'.links.Keys == (k.links.Keys - (gone - stuck)) + (want.Keys - alone)
    && stuck <= (gone * k.links.Keys) + (want.Keys - alone)
  }

  /** A pass can bring the kernel to want: what it will not touch is exact
      already, and there is no link it does not know of. */
  ghost predicate Repairable(k: Kernel, known: bool, have: map<string, Iface>, want: map<string, Iface>)
  {
    && (forall n :: n in LeftAlone(known, have, want) ==> Exact(k, want[n]))
    && k.links.Keys <= have.Keys + want.Keys
  }

  /** After a pass without error every wanted interface works, whatever was
      swallowed, exactly when those left alone did. */
  lemma WorksIff(k: Kernel, k': Kernel, known: bool, have: map<string, Iface>, want: map<string, Iface>, stuck: set<string>)
    requires Settled(k, k', known, have, want, stuck)
    ensures (forall n :: n in want ==> Good(k', want[n])) <==>
            (forall n :: n in LeftAlone(known, have, want) ==> Good(k, want[n]))
  {
    assert forall n :: n in LeftAlone(known, have, want) ==> Stands(k, k', want[n]);
  }

  lemma StuckShows(k: Kernel, k': Kernel, known: bool, have: map<string, Iface>, want: map<string, Iface>,
                   stuck: set<string>, n: string)
    requires Settled(k, k', known, have, want, stuck) && n in stuck
    ensures !Matches(k', want)
  {
    if n in want {
      assert !Exact(k', want[n]);
    } else {
      assert n in k'.links;
    }
  }

  /** A pass without error leaves exactly the wanted interfaces, exactly
      configured, if and only if it started from a repairable kernel and
      nothing got stuck. */
  lemma MatchesIff(k: Kernel, k': Kernel, known: bool, have: map<string, Iface>, want: map<string, Iface>, stuck: set<string>)
    requires Settled(k, k', known, have, want, stuck) && forall n :: n in want ==> want[n].name == n
    ensures Matches(k', want) <==> Repairable(k, known, have, want) && stuck == {}
  {
    var alone := LeftAlone(known, have, want);
    assert forall n :: n in alone ==> Stands(k, k', want[n]);
    if Matches(k', want) {
      forall n | n in k.links
        ensures n in have.Keys + want.Keys
      {
        assert n !in have && n !in want ==> n in k'.links;
      }
    }
    if n :| n in stuck {
      StuckShows(k, k', known, have, want, stuck, n);
    }
    if Repairable(k, known, have, want) && stuck == {} {
      forall n | n in alone
        ensures n in k.links
      {
        assert Exact(k, want[n]);
      }
      assert k'.links.Keys == want.Keys;
    }
  }

  /** A kernel that matches what was last applied is repairable, whatever is
      wanted next; so is any kernel after a restart of the program. */
  lemma MatchingIsRepairable(k: Kernel, prev: Option<seq<Iface>>, want: map<string, Iface>)
    requires prev.Some? ==> Matches(k, ByName(prev.value))
    ensures Repairable(k, prev.Some?, Have(prev, k), want)
  {
  }

  /** What got stuck stays: the next pass for the same interfaces compares with
      this one, touches nothing, and cannot repair it. */
  lemma StuckStays(k: Kernel, k': Kernel, known: bool, have: map<string, Iface>, want: map<string, Iface>, stuck: set<string>)
    requires Settled(k, k', known, have, want, stuck) && stuck != {}
    ensures !Repairable(k', true, want, want)
  {
    var n :| n in stuck;
    if n in want {
      assert n in LeftAlone(true, want, want) && !Exact(k', want[n]);
    } else {
      assert n in k'.links;
    }
  }

  /** The kernel that has this interface and nothing else. */
  ghost function KernelWith(w: Iface): Kernel
  {
    var rules := {PolicyRule(V4, w.mark, w.table), PolicyRule(V6, w.mark, w.table)};
    Kernel(map[w.name := LinkOf(w)], map[(V4, w.table) := w.name, (V6, w.table) := w.name], rules)
  }

  lemma KernelWithMatches(w: Iface)
    ensures Matches(KernelWith(w), map[w.name := w])
  {
    assert Exact(KernelWith(w), w);
  }

  lemma MtuAttempt(w: Iface, changed: Iface)
    requires changed == w.(mtu := w.mtu + 1)
    ensures var k := KernelWith(w);
      EnsureStep(k, k.(links := map[w.name := LinkOf(w).(mtu := changed.mtu)]), changed, false, false)
  {
  }

  lemma AwryIsNotRepairable(k: Kernel, w: Iface)
    requires !Exact(k, w)
    ensures !Repairable(k, true, map[w.name := w], map[w.name := w])
  {
    assert w.name in LeftAlone(true, map[w.name := w], map[w.name := w]);
  }

  /** A kernel k that is as w wants it and, after an attempt to raise the MTU
      that set it and then failed, the kernel k'. */
  ghost predicate HalfRaised(w: Iface, k: Kernel, k': Kernel)
  {
    var changed := w.(mtu := w.mtu + 1);
    && Matches(k, map[w.name := w]) && EnsureStep(k, k', changed, false, false)
    && k' == k.(links := map[w.name := LinkOf(w).(mtu := changed.mtu)])
  }

  /** Repairability is not for granted: an attempt to change the MTU gets as far
      as setting it and then fails, the change is taken back, and the plan,
      which compares with the last success, has nothing to do. */
  lemma AbandonedAttempt(w: Iface)
    ensures exists k: Kernel, k': Kernel ::
      HalfRaised(w, k, k') && !Repairable(k', true, map[w.name := w], map[w.name := w])
  {
    var k := KernelWith(w);
    var k' := k.(links := map[w.name := LinkOf(w).(mtu := w.mtu + 1)]);
    KernelWithMatches(w);
    MtuAttempt(w, w.(mtu := w.mtu + 1));
    assert HalfRaised(w, k, k');
    AwryIsNotRepairable(k', w);
  }

  function Names(s: seq<Iface>): set<string> { set i | 0 <= i < |s| :: s[i].name }

  lemma NamesSnoc(s: seq<Iface>, i: nat)
    requires i < |s|
    ensures Names(s[..i + 1]) == Names(s[..i]) + {s[i].name}
  {
    assert s[..i + 1][i] == s[i];
    forall n | n in Names(s[..i])
      ensures n in Names(s[..i + 1])
    {
      var j :| 0 <= j < i && s[..i][j].name == n;
      assert s[..i + 1][j].name == n;
    }
    forall n | n in Names(s[..i + 1])
      ensures n in Names(s[..i]) + {s[i].name}
    {
      var j :| 0 <= j < i + 1 && s[..i + 1][j].name == n;
      assert j < i ==> s[..i][j].name == n;
    }
  }

  /** Throughout the trail the interfaces left alone stand as they stood. */
  ghost predicate Spared(trail: seq<Kernel>, k: Kernel, was: Kernel, want: map<string, Iface>, alone: set<string>)
    requires alone <= want.Keys
  {
    && |trail| > 0 && trail[|trail| - 1] == k
    && forall n, i :: n in alone && 0 <= i < |trail| ==> Stands(was, trail[i], want[n])
  }

  /** Configured, up to what is stuck. */
  ghost predicate Done(k: Kernel, w: Iface, stuck: set<string>)
  {
    Good(k, w) && (Exact(k, w) <==> w.name !in stuck)
  }

  ghost predicate NamedApart(s: seq<Iface>)
  {
    forall j, i :: 0 <= j < i < |s| ==> s[j].name != s[i].name
  }

  lemma FreshName(s: seq<Iface>, i: nat)
    requires NamedApart(s) && i < |s|
    ensures s[i].name !in Names(s[..i])
  {
  }

  lemma SparedOn(trail: seq<Kernel>, between: Kernel, was: Kernel, more: seq<Kernel>, k: Kernel,
                 want: map<string, Iface>, alone: set<string>)
    requires alone <= want.Keys
    requires Spared(trail, between, was, want, alone) && Spared(more, k, between, want, alone)
    ensures Spared(trail + more, k, was, want, alone)
  {
    forall n, i | n in alone && 0 <= i < |trail + more|
      ensures Stands(was, (trail + more)[i], want[n])
    {
      if i < |trail| {
        assert Stands(was, trail[i], want[n]);
      } else {
        assert Stands(between, more[i - |trail|], want[n]);
        assert Stands(was, trail[|trail| - 1], want[n]);
      }
    }
  }

  lemma TodoEntry(p: Plan, known: bool, have: map<string, Iface>, want: map<string, Iface>, i: nat)
    requires Turns(p, known, have, want) && i < |p.add + p.update|
    ensures var w := (p.add + p.update)[i]; w.name in want && want[w.name] == w && w.name !in LeftAlone(known, have, want)
  {
  }

  lemma ListsNames(s: seq<Iface>, m: map<string, Iface>, names: set<string>)
    requires Lists(s, m, names)
    ensures Names(s) == names
  {
    forall n | n in names
      ensures n in Names(s)
    {
      var i :| 0 <= i < |s| && s[i].name == n;
    }
  }

  lemma NamesAppend(s: seq<Iface>, t: seq<Iface>)
    ensures Names(s + t) == Names(s) + Names(t)
  {
    forall n | n in Names(s) + Names(t)
      ensures n in Names(s + t)
    {
      if n in Names(s) {
        var i :| 0 <= i < |s| && s[i].name == n;
        assert (s + t)[i].name == n;
      } else {
        var i :| 0 <= i < |t| && t[i].name == n;
        assert (s + t)[|s| + i].name == n;
      }
    }
  }

  lemma TodoNames(p: Plan, known: bool, have: map<string, Iface>, want: map<string, Iface>)
    requires Turns(p, known, have, want)
    ensures Names(p.add + p.update) == want.Keys - LeftAlone(known, have, want)
    ensures Names(p.remove) == have.Keys - want.Keys
    ensures forall n :: n in want.Keys - LeftAlone(known, have, want) ==>
      exists i :: 0 <= i < |p.add + p.update| && (p.add + p.update)[i] == want[n] && want[n].name == n
  {
    var todo := p.add + p.update;
    ListsNames(p.add, want, want.Keys - have.Keys);
    ListsNames(p.update, want, want.Keys * have.Keys - LeftAlone(known, have, want));
    ListsNames(p.remove, have, have.Keys - want.Keys);
    NamesAppend(p.add, p.update);
    forall n | n in Names(todo)
      ensures exists i :: 0 <= i < |todo| && todo[i] == want[n] && want[n].name == n
    {
      var i :| 0 <= i < |todo| && todo[i].name == n;
      TodoEntry(p, known, have, want, i);
    }
  }

  lemma AllSettled(p: Plan, was: Kernel, k: Kernel, known: bool, have: map<string, Iface>, want: map<string, Iface>,
                   stuck: set<string>, late: set<string>)
    requires Turns(p, known, have, want)
    requires forall n :: n in LeftAlone(known, have, want) ==> Stands(was, k, want[n])
    requires forall j :: 0 <= j < |p.add + p.update| ==> Done(k, (p.add + p.update)[j], late)
    requires stuck <= Names(p.remove) * was.links.Keys && late <= Names(p.add + p.update)
    requires was.links.Keys - (Names(p.remove) - stuck) <= k.links.Keys
    requires k.links.Keys <= (was.links.Keys - (Names(p.remove) - stuck)) + Names(p.add + p.update)
    ensures Settled(was, k, known, have, want, stuck + late)
  {
    TodoNames(p, known, have, want);
    var alone, todo := LeftAlone(known, have, want), p.add + p.update;
    forall n | n in want && n !in alone
      ensures Good(k, want[n]) && n in k.links && (Exact(k, want[n]) <==> n !in stuck + late)
    {
      var i :| 0 <= i < |todo| && todo[i] == want[n] && want[n].name == n;
      assert Done(k, todo[i], late);
    }
  }

  /** No interface of s shares a name or a table with one left alone. */
  ghost predicate Apart(s: seq<Iface>, want: map<string, Iface>, alone: set<string>)
    requires alone <= want.Keys
  {
    forall i, n :: 0 <= i < |s| && n in alone ==> s[i].name != want[n].name && s[i].table != want[n].table
  }

  ghost predicate PairwiseApart(s: seq<Iface>)
  {
    forall j, i :: 0 <= j < i < |s| ==> s[j].name != s[i].name && s[j].table != s[i].table
  }

  lemma TodoDistinct(p: Plan, known: bool, have: map<string, Iface>, want: map<string, Iface>, j: nat, i: nat)
    requires Turns(p, known, have, want) && j < i < |p.add + p.update|
    ensures (p.add + p.update)[j].name != (p.add + p.update)[i].name
  {
    var todo := p.add + p.update;
    if j < |p.add| {
      if i < |p.add| {
        assert p.add[j] != p.add[i];
      }
    } else {
      assert p.update[j - |p.add|] != p.update[i - |p.add|];
    }
  }

  /** Removals cannot hit the table of a kept interface, nor additions and
      updates one another's: the tables of one rendering are distinct. */
  lemma PlanIsApart(p: Plan, known: bool, have: map<string, Iface>, want: map<string, Iface>)
    requires Turns(p, known, have, want) && OwnTables(want) && (known ==> OwnTables(have))
    requires !known ==> forall n :: n in have ==> have[n].name == n && have[n].table == 0
    ensures Apart(p.remove, want, LeftAlone(known, have, want))
    ensures Apart(p.add + p.update, want, LeftAlone(known, have, want))
    ensures PairwiseApart(p.add + p.update) && NamedApart(p.remove)
  {
    forall j, i | 0 <= j < i < |p.remove|
      ensures p.remove[j].name != p.remove[i].name
    {
      assert p.remove[j] != p.remove[i];
    }
    var todo := p.add + p.update;
    forall j, i | 0 <= j < i < |todo|
      ensures todo[j].name != todo[i].name && todo[j].table != todo[i].table
    {
      TodoEntry(p, known, have, want, j);
      TodoEntry(p, known, have, want, i);
      TodoDistinct(p, known, have, want, j, i);
    }
    forall i, n | 0 <= i < |todo| && n in LeftAlone(known, have, want)
      ensures todo[i].name != want[n].name && todo[i].table != want[n].table
    {
      TodoEntry(p, known, have, want, i);
    }
  }

  /** The i-th interface was there before in the same form, so that a pass
      leaves it alone. */
  ghost predicate Unchanged(prev: Option<seq<Iface>>, next: seq<Iface>, i: int)
  {
    LastNamed(next, i) && prev.Some? && exists j :: LastNamed(prev.value, j) && prev.value[j] == next[i]
  }

  /** A pass can bring this kernel to next: what it leaves alone is exact, and
      it knows of every link. */
  ghost predicate CanBring(k: Kernel, prev: Option<seq<Iface>>, next: seq<Iface>)
  {
    && (forall i :: Unchanged(prev, next, i) ==> Exact(k, next[i]))
    && (prev.Some? ==> forall n :: n in k.links ==>
          (exists i :: 0 <= i < |prev.value| && prev.value[i].name == n) || exists i :: 0 <= i < |next| && next[i].name == n)
  }

  /** The kernel has exactly the listed interfaces, of one name the last. */
  ghost predicate Holds(k: Kernel, next: seq<Iface>)
  {
    && (forall i :: LastNamed(next, i) ==> Exact(k, next[i]))
    && (forall n :: n in k.links ==> exists i :: 0 <= i < |next| && next[i].name == n)
  }

  lemma MatchesMeans(k: Kernel, next: seq<Iface>)
    ensures Matches(k, ByName(next)) <==> Holds(k, next)
  {
    var want := ByName(next);
    forall i | LastNamed(next, i)
      ensures next[i].name in want && want[next[i].name] == next[i]
    {
      NamedLast(next, i);
    }
    forall n
      ensures n in want <==> exists i :: 0 <= i < |next| && next[i].name == n
    {
      NamesKept(next, n);
    }
    if Holds(k, next) {
      forall n | n in want
        ensures Exact(k, want[n])
      {
        var i := PlaceOf(next, n);
      }
      assert k.links.Keys == want.Keys;
    }
  }

  /** What is left alone, by its place. */
  lemma LeftAlonePlace(prev: seq<Iface>, k: Kernel, next: seq<Iface>, n: string) returns (i: int)
    requires n in LeftAlone(true, Have(Some(prev), k), ByName(next))
    ensures Unchanged(Some(prev), next, i) && ByName(next)[n] == next[i]
  {
    i := PlaceOf(next, n);
    var j := PlaceOf(prev, n);
    assert prev[j] == next[i];
  }

  lemma UnchangedIsLeftAlone(prev: seq<Iface>, k: Kernel, next: seq<Iface>, i: int)
    requires Unchanged(Some(prev), next, i)
    ensures next[i].name in LeftAlone(true, Have(Some(prev), k), ByName(next)) && ByName(next)[next[i].name] == next[i]
  {
    var j :| LastNamed(prev, j) && prev[j] == next[i];
    NamedLast(next, i);
    NamedLast(prev, j);
  }

  lemma KnowsLinks(k: Kernel, prev: seq<Iface>, next: seq<Iface>)
    ensures k.links.Keys <= Have(Some(prev), k).Keys + ByName(next).Keys <==>
      forall n :: n in k.links ==>
        (exists i :: 0 <= i < |prev| && prev[i].name == n) || exists i :: 0 <= i < |next| && next[i].name == n
  {
    forall n
      ensures n in ByName(prev) <==> exists i :: 0 <= i < |prev| && prev[i].name == n
      ensures n in ByName(next) <==> exists i :: 0 <= i < |next| && next[i].name == n
    {
      NamesKept(prev, n);
      NamesKept(next, n);
    }
    assert k.links.Keys <= ByName(prev).Keys + ByName(next).Keys <==>
      forall n :: n in k.links ==> n in ByName(prev) || n in ByName(next);
  }

  lemma RepairableMeans(k: Kernel, prev: Option<seq<Iface>>, next: seq<Iface>)
    ensures Repairable(k, prev.Some?, Have(prev, k), ByName(next)) <==> CanBring(k, prev, next)
  {
    if prev.Some? {
      KnowsLinks(k, prev.value, next);
      if Repairable(k, true, Have(prev, k), ByName(next)) {
        forall i | Unchanged(prev, next, i)
          ensures Exact(k, next[i])
        {
          UnchangedIsLeftAlone(prev.value, k, next, i);
        }
      } else if CanBring(k, prev, next) {
        forall n | n in LeftAlone(true, Have(prev, k), ByName(next))
          ensures Exact(k, ByName(next)[n])
        {
          var i := LeftAlonePlace(prev.value, k, next, n);
        }
        assert false;
      }
    }
  }

  lemma WantedGood(k: Kernel, next: seq<Iface>)
    ensures (forall n :: n in ByName(next) ==> Good(k, ByName(next)[n])) <==> forall i :: LastNamed(next, i) ==> Good(k, next[i])
  {
    if i :| LastNamed(next, i) && !Good(k, next[i]) {
      NamedLast(next, i);
      assert !Good(k, ByName(next)[next[i].name]);
    }
    if n :| n in ByName(next) && !Good(k, ByName(next)[n]) {
      var i := PlaceOf(next, n);
      assert !Good(k, next[i]);
    }
  }

  lemma AloneGood(was: Kernel, prev: Option<seq<Iface>>, next: seq<Iface>)
    ensures var alone := LeftAlone(prev.Some?, Have(prev, was), ByName(next));
      (forall n :: n in alone ==> Good(was, ByName(next)[n])) <==> forall i :: Unchanged(prev, next, i) ==> Good(was, next[i])
  {
    var alone := LeftAlone(prev.Some?, Have(prev, was), ByName(next));
    if i :| Unchanged(prev, next, i) && !Good(was, next[i]) {
      UnchangedIsLeftAlone(prev.value, was, next, i);
      assert !Good(was, ByName(next)[next[i].name]);
    }
    if n :| n in alone && !Good(was, ByName(next)[n]) {
      var i := LeftAlonePlace(prev.value, was, next, n);
      assert !Good(was, next[i]);
    }
  }

  class Driver {
    const backend: Backend
    var lastErr: bool
    var wanted: seq<Iface>

    constructor (backend: Backend)
      ensures this.backend == backend && !lastErr && wanted == []
    {
      this.backend, lastErr, wanted := backend, false, [];
    }

    /** `Plan`: reads only. */
    method MakePlan(prev: Option<seq<Iface>>, next: seq<Iface>) returns (ok: bool, p: Plan)
      ensures prev.Some? ==> ok
      ensures ok ==> Turns(p, prev.Some?, Have(prev, backend.kernel), ByName(next))
    {
      p := Plan([], [], []);
      var want := ByName(next);
      ok := true;
      if prev.None? {
        ok := *;
        if !ok {
          return;
        }
      }
      var have := Have(prev, backend.kernel);
      var add, update := Incoming(prev.Some?, have, want);
      var remove := Outgoing(have, want);
      add := SortIfaces(add, want, want.Keys - have.Keys);
      update := SortIfaces(update, want, want.Keys * have.Keys - LeftAlone(prev.Some?, have, want));
      p := Plan(add, update, remove);
    }

    method Incoming(known: bool, have: map<string, Iface>, want: map<string, Iface>)
      returns (add: seq<Iface>, update: seq<Iface>)
      requires forall n :: n in want ==> want[n].name == n
      requires known ==> forall n :: n in have ==> have[n].name == n
      ensures Lists(add, want, want.Keys - have.Keys)
      ensures Lists(update, want, want.Keys * have.Keys - LeftAlone(known, have, want))
    {
      add, update := [], [];
      ghost var added: set<string>, updated: set<string> := {}, {};
      var todo := want.Keys;
      while todo != {}
        invariant todo <= want.Keys
        invariant added == want.Keys - have.Keys - todo
        invariant updated == want.Keys * have.Keys - LeftAlone(known, have, want) - todo
        invariant Lists(add, want, added) && Lists(update, want, updated)
      {
        var name :| name in todo;
        var w := want[name];
        if name !in have {
          ListsSnoc(add, want, added, name);
          add := add + [w];
          added := added + {name};
        } else {
          var same := false;
          if known {
            same := SameIface(have[name], w);
          }
          if !same {
            ListsSnoc(update, want, updated, name);
            update := update + [w];
            updated := updated + {name};
          }
        }
        todo := todo - {name};
      }
      assert added == want.Keys - have.Keys;
      assert updated == want.Keys * have.Keys - LeftAlone(known, have, want);
    }

    method Outgoing(have: map<string, Iface>, want: map<string, Iface>) returns (remove: seq<Iface>)
      requires forall n :: n in have ==> have[n].name == n
      ensures Lists(remove, have, have.Keys - want.Keys)
    {
      remove := [];
      ghost var removed: set<string> := {};
      var todo := have.Keys;
      while todo != {}
        invariant todo <= have.Keys
        invariant removed == have.Keys - want.Keys - todo
        invariant Lists(remove, have, removed)
      {
        var name :| name in todo;
        if name !in want {
          ListsSnoc(remove, have, removed, name);
          remove := remove + [have[name]];
          removed := removed + {name};
        }
        todo := todo - {name};
      }
      assert removed == have.Keys - want.Keys;
    }

    /** `Apply`: removals, then additions and updates, carrying on after an
        error. An interface that is left alone stands as it stood at any point;
        unless an error is returned every other wanted one works, and nothing
        else of what was known is left but what got stuck. */
    method Apply(p: Plan, next: seq<Iface>, ghost known: bool, ghost have: map<string, Iface>)
      returns (ok: bool, ghost trail: seq<Kernel>, ghost stuck: set<string>)
      requires Turns(p, known, have, ByName(next))
      requires OwnTables(ByName(next)) && (known ==> OwnTables(have))
      requires !known ==> forall n :: n in have ==> have[n].name == n && have[n].table == 0
      modifies this, backend
      ensures wanted == next && lastErr == !ok
      ensures Spared(trail, backend.kernel, old(backend.kernel), ByName(next), LeftAlone(known, have, ByName(next)))
      ensures backend.kernel.links.Keys <= old(backend.kernel).links.Keys + ByName(next).Keys
      ensures ok ==> Settled(old(backend.kernel), backend.kernel, known, have, ByName(next), stuck)
    {
      wanted := next;
      ghost var want := ByName(next);
      ghost var alone := LeftAlone(known, have, want);
      ghost var was := backend.kernel;
      var todo := p.add + p.update;
      PlanIsApart(p, known, have, want);
      TodoNames(p, known, have, want);
      ok, trail, stuck := RemoveAll(p.remove, want, alone);
      ghost var between, more, late := backend.kernel, trail, stuck;
      var done;
      done, more, late := EnsureAll(todo, want, alone);
      SparedOn(trail, between, was, more, backend.kernel, want, alone);
      trail := trail + more;
      ok := ok && done;
      lastErr := !ok;
      if ok {
        AllSettled(p, was, backend.kernel, known, have, want, stuck, late);
      }
      stuck := stuck + late;
    }

    method RemoveAll(remove: seq<Iface>, ghost want: map<string, Iface>, ghost alone: set<string>)
      returns (ok: bool, ghost trail: seq<Kernel>, ghost stuck: set<string>)
      requires alone <= want.Keys && Apart(remove, want, alone) && NamedApart(remove)
      modifies backend
      ensures Spared(trail, backend.kernel, old(backend.kernel), want, alone)
      ensures backend.kernel.links.Keys <= old(backend.kernel).links.Keys
      ensures stuck <= Names(remove) * old(backend.kernel).links.Keys
      ensures ok ==> backend.kernel.links.Keys == old(backend.kernel).links.Keys - (Names(remove) - stuck)
    {
      ghost var was := backend.kernel;
      trail, ok, stuck := [was], true, {};
      for i := 0 to |remove|
        invariant Spared(trail, backend.kernel, was, want, alone)
        invariant backend.kernel.links.Keys <= was.links.Keys
        invariant stuck <= Names(remove[..i]) * was.links.Keys
        invariant ok ==> backend.kernel.links.Keys == was.links.Keys - (Names(remove[..i]) - stuck)
      {
        ghost var before := backend.kernel;
        var done;
        ghost var left;
        done, left := backend.Remove(remove[i]);
        forall n | n in alone
          ensures Stands(before, backend.kernel, want[n])
        {
          RemoveSpares(before, backend.kernel, remove[i], done, left, want[n]);
        }
        NamesSnoc(remove, i);
        FreshName(remove, i);
        stuck := stuck + if left then {remove[i].name} else {};
        ok := ok && done;
        trail := trail + [backend.kernel];
      }
      assert remove[..|remove|] == remove;
    }

    method EnsureAll(todo: seq<Iface>, ghost want: map<string, Iface>, ghost alone: set<string>)
      returns (ok: bool, ghost trail: seq<Kernel>, ghost stuck: set<string>)
      requires alone <= want.Keys && Apart(todo, want, alone) && PairwiseApart(todo)
      modifies backend
      ensures Spared(trail, backend.kernel, old(backend.kernel), want, alone)
      ensures old(backend.kernel).links.Keys <= backend.kernel.links.Keys <= old(backend.kernel).links.Keys + Names(todo)
      ensures stuck <= Names(todo)
      ensures ok ==> forall j :: 0 <= j < |todo| ==> Done(backend.kernel, todo[j], stuck)
    {
      ghost var was := backend.kernel;
      trail, ok, stuck := [was], true, {};
      for i := 0 to |todo|
        invariant Spared(trail, backend.kernel, was, want, alone)
        invariant was.links.Keys <= backend.kernel.links.Keys <= was.links.Keys + Names(todo[..i])
        invariant stuck <= Names(todo[..i])
        invariant ok ==> forall j :: 0 <= j < i ==> Done(backend.kernel, todo[j], stuck)
      {
        ghost var before, earlier := backend.kernel, stuck;
        var done;
        ghost var left;
        done, left := backend.Ensure(todo[i]);
        forall n | n in alone
          ensures Stands(before, backend.kernel, want[n])
        {
          EnsureSpares(before, backend.kernel, todo[i], done, left, want[n]);
        }
        NamesSnoc(todo, i);
        FreshName(todo, i);
        stuck := stuck + if left then {todo[i].name} else {};
        forall j | 0 <= j < i && Done(before, todo[j], earlier)
          ensures Done(backend.kernel, todo[j], stuck)
        {
          EnsureSpares(before, backend.kernel, todo[i], done, left, todo[j]);
        }
        ok := ok && done;
        trail := trail + [backend.kernel];
      }
      assert todo[..|todo|] == todo;
    }

    /** Plan and apply. Without an error every wanted interface works if those
        left alone did, and the kernel holds exactly the listed interfaces if
        and only if the pass could bring it there and nothing got stuck. An
        error leaves a kernel from which the same pass can be tried again. */
    method Pass(prev: Option<seq<Iface>>, next: seq<Iface>) returns (ok: bool, ghost stuck: set<string>)
      requires OwnTables(ByName(next)) && (prev.Some? ==> OwnTables(ByName(prev.value)))
      modifies this, backend
      ensures var k := old(backend.kernel);
        && (ok ==>
             ((forall i :: LastNamed(next, i) ==> Good(backend.kernel, next[i])) <==>
              (forall i :: Unchanged(prev, next, i) ==> Good(k, next[i]))))
        && (ok ==> (Holds(backend.kernel, next) <==> CanBring(k, prev, next) && stuck == {}))
        && (CanBring(k, prev, next) ==> CanBring(backend.kernel, prev, next))
    {
      ghost var was := backend.kernel;
      ghost var have := Have(prev, was);
      stuck := {};
      var p;
      ok, p := MakePlan(prev, next);
      if !ok {
        return;
      }
      ghost var trail;
      ok, trail, stuck := Apply(p, next, prev.Some?, have);
      RepairableMeans(was, prev, next);
      RepairableMeans(backend.kernel, prev, next);
      assert trail[|trail| - 1] == backend.kernel;
      if ok {
        WorksIff(was, backend.kernel, prev.Some?, have, ByName(next), stuck);
        MatchesIff(was, backend.kernel, prev.Some?, have, ByName(next), stuck);
        MatchesMeans(backend.kernel, next);
        WantedGood(backend.kernel, next);
        AloneGood(was, prev, next);
      }
    }
  }
}
