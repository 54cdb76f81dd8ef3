/** The desired state as the renderer and the route engine see it, with the
    small derived lists of `desired.Snapshot`. */
module Model {
  import opened Ipv4

  datatype Option<+T> = None | Some(value: T)

  datatype Mode = ModeA | ModeB | ModeC

  /** The text of an address rule or allow-list entry, after parsing. */
  datatype IpValue = Cidr4(prefix: Prefix) | Bare4(addr: Addr) | Ipv6 | Malformed

  /** What a rule matches on; domains and tags keep their text. */
  datatype Match = Domain(pattern: string) | Geosite(tag: string) | Ip(value: IpValue) | GeoIp(tag: string)

  datatype Action = Direct | Block | Proxy | ToNode(node: string) | ToGroup(group: string)

  /** An endpoint address: an IPv4 literal, or a lower-cased name. */
  datatype Host = Literal(addr: Addr) | Name(name: string)

  /** `builds` says whether the renderer can turn the node into an outbound. */
  datatype Node = Node(id: string, host: Host, enabled: bool, isDefault: bool, builds: bool)

  datatype GroupKind = Failover | LoadBalance

  datatype Group = Group(id: string, kind: GroupKind, members: seq<string>, strategy: string)

  datatype RuleSet = RuleSet(id: string, enabled: bool)

  datatype Rule = Rule(id: string, setId: string, what: Match, action: Action, enabled: bool)

  datatype Resolved = Resolved(domain: string, ips: seq<Option<Addr>>)

  /** A public remote DNS upstream, by literal address or by name. */
  datatype Upstream = Private | PublicIp(addr: Addr) | PublicName(name: string)

  datatype Snapshot = Snapshot(
    mode: Mode,
    fakeIpPool: Option<Prefix>,
    publishAllow: seq<IpValue>,
    strictFailover: bool,
    defaultToProxy: bool,
    nodes: seq<Node>,
    groups: seq<Group>,
    ruleSets: seq<RuleSet>,
    rules: seq<Rule>,
    resolved: seq<Resolved>,
    protectedHosts: seq<Host>,
    upstreams: seq<Upstream>)

  // ------------------------------------------------------------- filtering

  function Filter<T(!new)>(s: seq<T>, keep: T -> bool): (r: seq<T>)
    ensures forall x :: x in r <==> x in s && keep(x)
    ensures |r| <= |s|
  {
    if s == [] then []
    else
      var last := s[|s| - 1];
      assert s == s[..|s| - 1] + [last];
      Filter(s[..|s| - 1], keep) + if keep(last) then [last] else []
  }

  lemma FilterStep<T(!new)>(s: seq<T>, n: nat, keep: T -> bool)
    requires n < |s|
    ensures Filter(s[..n + 1], keep) == Filter(s[..n], keep) + if keep(s[n]) then [s[n]] else []
  {
    assert s[..n + 1][..n] == s[..n];
  }

  /** Filtering with two tests that agree on every element is the same. */
  lemma {:induction false} FilterCongruent<T(!new)>(s: seq<T>, p: T -> bool, q: T -> bool)
    requires forall x :: x in s ==> (p(x) <==> q(x))
    ensures Filter(s, p) == Filter(s, q)
  {
    if s != [] {
      assert s == s[..|s| - 1] + [s[|s| - 1]];
      FilterCongruent(s[..|s| - 1], p, q);
    }
  }

  /** The places of s whose elements are kept, in order. */
  ghost predicate KeptAt<T(!new)>(s: seq<T>, keep: T -> bool, at: seq<nat>)
  {
    && (forall k :: 0 <= k < |at| ==> at[k] < |s| && keep(s[at[k]]))
    && (forall k, l :: 0 <= k < l < |at| ==> at[k] < at[l])
    && (forall i :: 0 <= i < |s| && keep(s[i]) ==> i in at)
  }

  lemma KeptAtStep<T(!new)>(s: seq<T>, keep: T -> bool, n: nat, before: seq<nat>)
    requires n < |s| && KeptAt(s[..n], keep, before)
    ensures KeptAt(s[..n + 1], keep, if keep(s[n]) then before + [n] else before)
  {
    var front, more := s[..n], s[..n + 1];
    var at := if keep(s[n]) then before + [n] else before;
    forall k | 0 <= k < |at|
      ensures at[k] < |more| && keep(more[at[k]])
    {
      if k < |before| {
        assert front[before[k]] == more[at[k]];
      }
    }
    forall i | 0 <= i < |more| && keep(more[i])
      ensures i in at
    {
      if i < n {
        assert front[i] == more[i];
        var k :| 0 <= k < |before| && before[k] == i;
        assert at[k] == i;
      } else {
        assert at[|before|] == n;
      }
    }
  }

  /** picked lists the elements of s at these places. */
  ghost predicate Picks<T(!new)>(s: seq<T>, at: seq<nat>, picked: seq<T>)
  {
    |picked| == |at| && forall k :: 0 <= k < |at| ==> at[k] < |s| && picked[k] == s[at[k]]
  }

  lemma PicksStep<T(!new)>(s: seq<T>, n: nat, at: seq<nat>, picked: seq<T>)
    requires n < |s| && Picks(s[..n], at, picked)
    ensures Picks(s[..n + 1], at, picked) && Picks(s[..n + 1], at + [n], picked + [s[n]])
  {
    assert s[..n + 1] == s[..n] + [s[n]];
  }

  lemma {:induction false} PlacesTo<T(!new)>(s: seq<T>, keep: T -> bool, n: nat) returns (at: seq<nat>)
    requires n <= |s|
    ensures KeptAt(s[..n], keep, at) && Picks(s[..n], at, Filter(s[..n], keep))
  {
    at := [];
    if n > 0 {
      var before := PlacesTo(s, keep, n - 1);
      FilterStep(s, n - 1, keep);
      KeptAtStep(s, keep, n - 1, before);
      PicksStep(s, n - 1, before, Filter(s[..n - 1], keep));
      at := if keep(s[n - 1]) then before + [n - 1] else before;
    }
  }

  lemma FilterPlaces<T(!new)>(s: seq<T>, keep: T -> bool) returns (at: seq<nat>)
    ensures KeptAt(s, keep, at) && |Filter(s, keep)| == |at|
    ensures forall k :: 0 <= k < |at| ==> Filter(s, keep)[k] == s[at[k]]
  {
    at := PlacesTo(s, keep, |s|);
    assert s[..|s|] == s;
  }

  // ------------------------------------------------------- snapshot queries

  ghost predicate UniqueIds(nodes: seq<Node>)
  {
    forall i, j :: 0 <= i < j < |nodes| ==> nodes[i].id != nodes[j].id
  }

  predicate IsOn(n: Node) { n.enabled }

  function Enabled(s: Snapshot): seq<Node>
  {
    Filter(s.nodes, IsOn)
  }

  method EnabledNodes(s: Snapshot) returns (out: seq<Node>)
    ensures out == Enabled(s)
  {
    out := [];
    for i := 0 to |s.nodes|
      invariant out == Filter(s.nodes[..i], IsOn)
    {
      FilterStep(s.nodes, i, IsOn);
      if s.nodes[i].enabled {
        out := out + [s.nodes[i]];
      }
    }
    assert s.nodes[..|s.nodes|] == s.nodes;
  }

  /** The first node of the list with this id. */
  function FindNode(nodes: seq<Node>, id: string): (r: Option<Node>)
    ensures r.Some? ==> r.value in nodes && r.value.id == id
    ensures r.None? ==> forall n :: n in nodes ==> n.id != id
  {
    if nodes == [] then None
    else if nodes[0].id == id then Some(nodes[0])
    else FindNode(nodes[1..], id)
  }

  lemma {:induction false} FindUnique(nodes: seq<Node>, n: Node)
    requires UniqueIds(nodes) && n in nodes
    ensures FindNode(nodes, n.id) == Some(n)
  {
    if nodes[0].id == n.id {
      var j :| 0 <= j < |nodes| && nodes[j] == n;
      assert j == 0 || nodes[0].id != nodes[j].id;
    } else {
      assert forall i, j :: 0 <= i < j < |nodes[1..]| ==>
        nodes[1..][i] == nodes[i + 1] && nodes[1..][j] == nodes[j + 1];
      FindUnique(nodes[1..], n);
    }
  }

  function FindGroup(groups: seq<Group>, id: string): (r: Option<Group>)
    ensures r.Some? ==> r.value in groups && r.value.id == id
    ensures r.None? ==> forall g :: g in groups ==> g.id != id
  {
    if groups == [] then None
    else if groups[0].id == id then Some(groups[0])
    else FindGroup(groups[1..], id)
  }

  function FirstFlagged(nodes: seq<Node>): (r: Option<Node>)
    ensures r.Some? ==> r.value.isDefault
    ensures r.Some? ==>
      exists i :: 0 <= i < |nodes| && nodes[i] == r.value && forall j :: 0 <= j < i ==> !nodes[j].isDefault
    ensures r.None? ==> forall n :: n in nodes ==> !n.isDefault
  {
    if nodes == [] then None
    else if nodes[0].isDefault then Some(nodes[0])
    else FirstFlagged(nodes[1..])
  }

  /** The flagged default if it is enabled, else the only enabled node. */
  function DefaultNode(s: Snapshot): (r: Option<Node>)
    ensures r.Some? ==> r.value in s.nodes && r.value.enabled
    ensures r.Some? ==> r.value.isDefault || Enabled(s) == [r.value]
    ensures (exists n :: n in s.nodes && n.enabled && n.isDefault) ==> r.Some? && r.value.isDefault
    ensures |Enabled(s)| == 1 ==> r.Some?
  {
    var enabled := Enabled(s);
    var flagged := FirstFlagged(enabled);
    if flagged.Some? then flagged
    else if |enabled| == 1 then Some(enabled[0])
    else None
  }

  predicate Active(s: Snapshot, r: Rule)
  {
    r.enabled && exists i :: 0 <= i < |s.ruleSets| && s.ruleSets[i].enabled && s.ruleSets[i].id == r.setId
  }

  function Actives(s: Snapshot): seq<Rule>
  {
    Filter(s.rules, (r: Rule) => Active(s, r))
  }

  method ActiveRules(s: Snapshot) returns (out: seq<Rule>)
    ensures out == Actives(s)
  {
    var enabledSets: set<string> := {};
    for i := 0 to |s.ruleSets|
      invariant forall id :: id in enabledSets <==>
        exists k :: 0 <= k < i && s.ruleSets[k].enabled && s.ruleSets[k].id == id
    {
      if s.ruleSets[i].enabled {
        enabledSets := enabledSets + {s.ruleSets[i].id};
      }
    }
    out := [];
    for i := 0 to |s.rules|
      invariant out == Filter(s.rules[..i], (r: Rule) => Active(s, r))
    {
      var r := s.rules[i];
      FilterStep(s.rules, i, (r: Rule) => Active(s, r));
      if r.enabled && r.setId in enabledSets {
        out := out + [r];
      }
    }
    assert s.rules[..|s.rules|] == s.rules;
  }
}
