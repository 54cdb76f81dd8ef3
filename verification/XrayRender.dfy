/** The Xray renderer (`internal/render/xray.go`): node outbounds, the ordered
    rule list, and the balancers collected while walking the rules. */
module XrayRender {
  import opened Ipv4
  import opened Model
  import opened Sorting
  import opened Domains
  import opened Routing

  const PROBE_SLOTS: nat := 64

  datatype Selector = AllNodes | Select(tag: Tag)

  datatype BalancerDef = BalancerDef(selectors: seq<Selector>, strategy: string, fallback: Option<Tag>)

  /** observed says whether the observatory that feeds the balancers runs. */
  datatype Config = Config(
    outbounds: seq<Tag>, rules: seq<XrayRule>, balancers: map<Tag, BalancerDef>, observed: bool)

  // ------------------------------------------- what each piece should yield

  /** Ids of the enabled nodes that have an outbound. */
  function LiveIds(nodes: seq<Node>): set<string>
  {
    set n | n in nodes && n.enabled && n.builds :: n.id
  }

  function DefaultTo(s: Snapshot): Target
  {
    if DefaultNode(s).Some? then Outbound(NodeTag(DefaultNode(s).value.id))
    else if LiveIds(s.nodes) == {} then Outbound(TagDirect)
    else Balancer(TagAutoProxy)
  }

  function MissingTo(s: Snapshot): Target
  {
    if s.strictFailover then Outbound(TagBlock) else DefaultTo(s)
  }

  function LiveOf(s: Snapshot, g: Group): seq<string>
  {
    Filter(g.members, id => id in LiveIds(s.nodes))
  }

  function GroupTo(s: Snapshot, id: string): Target
  {
    var g := FindGroup(s.groups, id);
    if g.None? then MissingTo(s)
    else
      var live := LiveOf(s, g.value);
      if |live| == 0 then MissingTo(s)
      else if |live| == 1 then Outbound(NodeTag(live[0]))
      else Balancer(GroupTag(g.value.id))
  }

  function ActionTo(s: Snapshot, a: Action): Target
  {
    match a
    case Direct => Outbound(TagDirect)
    case Block => Outbound(TagBlock)
    case ToNode(id) => if id in LiveIds(s.nodes) then Outbound(NodeTag(id)) else MissingTo(s)
    case ToGroup(id) => GroupTo(s, id)
    case Proxy => DefaultTo(s)
  }

  function CatchAllTo(s: Snapshot): Target
  {
    if s.defaultToProxy then DefaultTo(s) else Outbound(TagDirect)
  }

  function SelectEach(ids: seq<string>): (r: seq<Selector>)
    ensures |r| == |ids| && forall i :: 0 <= i < |ids| ==> r[i] == Select(NodeTag(ids[i]))
  {
    seq(|ids|, i requires 0 <= i < |ids| => Select(NodeTag(ids[i])))
  }

  /** A group's balancer depends on the snapshot alone. */
  function GroupDef(s: Snapshot, g: Group): BalancerDef
    requires |LiveOf(s, g)| >= 2
  {
    var live := LiveOf(s, g);
    match g.kind
    case Failover => BalancerDef([Select(NodeTag(live[0]))], "", Some(NodeTag(live[1])))
    case LoadBalance =>
      var d := DefaultNode(s);
      var fallback :=
        if s.strictFailover then TagBlock
        else if d.Some? && d.value.id in LiveIds(s.nodes) && d.value.id !in live then NodeTag(d.value.id)
        else TagDirect;
      BalancerDef(SelectEach(live), if g.strategy == "" then "leastPing" else g.strategy, Some(fallback))
  }

  /** A balancer a rule may use: the automatic one if any node is live, a
      group's if at least two members are. */
  predicate Usable(s: Snapshot, tag: Tag)
  {
    match tag
    case TagAutoProxy => LiveIds(s.nodes) != {}
    case GroupTag(id) => FindGroup(s.groups, id).Some? && |LiveOf(s, FindGroup(s.groups, id).value)| >= 2
    case _ => false
  }

  /** What the balancer behind a usable tag should be. */
  function DefOf(s: Snapshot, tag: Tag): BalancerDef
  {
    if tag.GroupTag? && Usable(s, tag) then GroupDef(s, FindGroup(s.groups, tag.id).value)
    else BalancerDef([AllNodes], "leastPing", None)
  }

  predicate RightDef(s: Snapshot, tag: Tag, def: BalancerDef)
  {
    Usable(s, tag) && def == DefOf(s, tag)
  }

  /** The condition a user rule compiles to; a rule with an invalid value is
      skipped. */
  function Compile(m: Match): Option<XrayRule>
  {
    var bare := XrayRule(None, None, None, None, Outbound(TagDirect));
    match m
    case Domain(value) =>
      var p := ParseDomain(value);
      if p.Ok? then Some(bare.(domain := Some(HostText(XrayValue(p.pattern))))) else None
    case Geosite(v) =>
      var tag := NormalizeGeoTag(v);
      if tag.Some? then Some(bare.(domain := Some(GeositeTag(tag.value)))) else None
    case Ip(value) =>
      match value {
        case Cidr4(p) => Some(bare.(ip := Some(Cidrs([Masked(p)]))))
        case Bare4(a) => Some(bare.(ip := Some(Cidrs([Prefix(a, 32)]))))
        case Ipv6 => Some(bare.(ip := Some(CidrV6)))
        case Malformed => None
      }
    case GeoIp(v) =>
      var tag := NormalizeGeoTag(v);
      if tag.None? then None
      else if tag.value == "private" then Some(bare.(ip := Some(Cidrs(PRIVATE_RANGES))))
      else Some(bare.(ip := Some(GeoIpTag(tag.value))))
  }

  function CompileRule(s: Snapshot, r: Rule): seq<XrayRule>
  {
    var c := Compile(r.what);
    if c.None? then [] else [c.value.(target := ActionTo(s, r.action))]
  }

  function UserRules(s: Snapshot, rules: seq<Rule>): seq<XrayRule>
  {
    if rules == [] then [] else UserRules(s, rules[..|rules| - 1]) + CompileRule(s, rules[|rules| - 1])
  }

  function CatchAllRule(s: Snapshot): XrayRule
  {
    XrayRule(None, None, None, None, CatchAllTo(s))
  }

  function NodeOutbounds(nodes: seq<Node>): seq<Tag>
  {
    if nodes == [] then []
    else
      var n := nodes[|nodes| - 1];
      NodeOutbounds(nodes[..|nodes| - 1]) + if n.enabled && n.builds then [NodeTag(n.id)] else []
  }

  function FixedOutbounds(s: Snapshot): seq<Tag>
  {
    [TagDirect, TagBlock] + if s.mode == ModeB then [TagDnsOut] else []
  }

  lemma {:induction false} NodeOutboundsExact(nodes: seq<Node>, t: Tag)
    ensures t in NodeOutbounds(nodes) <==> t.NodeTag? && t.id in LiveIds(nodes)
  {
    if nodes != [] {
      var front, n := nodes[..|nodes| - 1], nodes[|nodes| - 1];
      NodeOutboundsExact(front, t);
      assert nodes == front + [n];
    }
  }

  /** The tag a rule sends to. */
  predicate Refers(rules: seq<XrayRule>, t: Target)
  {
    exists i :: 0 <= i < |rules| && rules[i].target == t
  }

  lemma RefersAppend(xs: seq<XrayRule>, ys: seq<XrayRule>, t: Target)
    ensures Refers(xs + ys, t) <==> Refers(xs, t) || Refers(ys, t)
  {
    if i :| 0 <= i < |xs| && xs[i].target == t {
      assert (xs + ys)[i].target == t;
    }
    if i :| 0 <= i < |ys| && ys[i].target == t {
      assert (xs + ys)[|xs| + i].target == t;
    }
  }

  function IdsOf(nodes: seq<Node>): (ids: seq<string>)
    ensures |ids| == |nodes| && forall i :: 0 <= i < |ids| ==> ids[i] == nodes[i].id
  {
    seq(|nodes|, i requires 0 <= i < |nodes| => nodes[i].id)
  }

  /** Ids holding probe slots: the enabled nodes by id, the first 64 of them. */
  ghost predicate ProbeOrder(s: Snapshot, ids: seq<string>)
  {
    exists all: seq<string> :: multiset(all) == multiset(IdsOf(Enabled(s))) && Sorted(all, StringLeq) &&
      ids == if |all| > PROBE_SLOTS then all[..PROBE_SLOTS] else all
  }

  function ProbeRules(ids: seq<string>): (r: seq<XrayRule>)
    ensures |r| == |ids|
    ensures forall i :: 0 <= i < |ids| ==> r[i] == XrayRule(Some(ProbeIn), Some(i), None, None, Outbound(NodeTag(ids[i])))
  {
    seq(|ids|, i requires 0 <= i < |ids| => XrayRule(Some(ProbeIn), Some(i), None, None, Outbound(NodeTag(ids[i]))))
  }

  function UpstreamRule(s: Snapshot, up: Upstream): seq<XrayRule>
  {
    var base := XrayRule(Some(SocksIn), None, None, None, DefaultTo(s));
    match up
    case Private => []
    case PublicIp(a) => [base.(ip := Some(Cidrs([Prefix(a, 32)])))]
    case PublicName(n) => [base.(domain := Some(HostText(FullHost(n))))]
  }

  function UpstreamRules(s: Snapshot, ups: seq<Upstream>): seq<XrayRule>
  {
    if ups == [] then []
    else UpstreamRules(s, ups[..|ups| - 1]) + UpstreamRule(s, ups[|ups| - 1])
  }

  function ServiceRules(s: Snapshot): seq<XrayRule>
  {
    [XrayRule(Some(ApiIn), None, None, None, Outbound(TagApi))] +
    if s.mode == ModeB then [XrayRule(Some(DnsIn), None, None, None, Outbound(TagDnsOut))] else []
  }

  const PROBE_NONE: XrayRule := XrayRule(Some(ProbeIn), None, None, None, Outbound(TagBlock))

  function SystemRules(s: Snapshot, probeIds: seq<string>): seq<XrayRule>
  {
    ServiceRules(s) + ProbeRules(probeIds) + [PROBE_NONE] + UpstreamRules(s, s.upstreams)
  }

  /** The whole rule list. */
  function AllRules(s: Snapshot, probeIds: seq<string>): seq<XrayRule>
  {
    SystemRules(s, probeIds) + UserRules(s, Actives(s)) + [CatchAllRule(s)]
  }

  /** Tags of the balancers a rule list uses. */
  function Targeted(rules: seq<XrayRule>): set<Tag>
  {
    set i | 0 <= i < |rules| && rules[i].target.Balancer? :: rules[i].target.tag
  }

  /** The configuration of a snapshot, given who holds the probe slots. */
  function ConfigOf(s: Snapshot, probeIds: seq<string>): Config
  {
    var rules := AllRules(s, probeIds);
    var balancers := map t | t in Targeted(rules) :: DefOf(s, t);
    Config(FixedOutbounds(s) + NodeOutbounds(s.nodes), rules, balancers, exists i :: 0 <= i < |rules| && rules[i].target.Balancer?)
  }

  // -------------------------------------------------------------- the code

  lemma TargetedOne(r: XrayRule)
    ensures Targeted([r]) == if r.target.Balancer? then {r.target.tag} else {}
  {
    if r.target.Balancer? {
      assert [r][0].target.tag in Targeted([r]);
    }
  }

  lemma OutboundStep(nodes: seq<Node>, i: nat)
    requires i < |nodes|
    ensures var n := nodes[i];
      && LiveIds(nodes[..i + 1]) == LiveIds(nodes[..i]) + (if n.enabled && n.builds then {n.id} else {})
      && NodeOutbounds(nodes[..i + 1]) == NodeOutbounds(nodes[..i]) + (if n.enabled && n.builds then [NodeTag(n.id)] else [])
  {
    assert nodes[..i + 1] == nodes[..i] + [nodes[i]];
    assert nodes[..i + 1][..i] == nodes[..i];
  }

  /** Walking the enabled nodes only builds the same outbounds. */
  lemma {:induction false} EnabledOutbounds(nodes: seq<Node>)
    ensures NodeOutbounds(Filter(nodes, IsOn)) == NodeOutbounds(nodes)
    ensures LiveIds(Filter(nodes, IsOn)) == LiveIds(nodes)
  {
    if nodes != [] {
      var front, n := nodes[..|nodes| - 1], nodes[|nodes| - 1];
      EnabledOutbounds(front);
      var kept := Filter(front, IsOn);
      if n.enabled {
        assert Filter(nodes, IsOn) == kept + [n];
        assert (kept + [n])[..|kept + [n]| - 1] == kept;
      } else {
        assert Filter(nodes, IsOn) == kept;
      }
    }
  }

  class Renderer {
    const s: Snapshot
    var live: set<string>
    var balancers: map<Tag, BalancerDef>

    ghost predicate Ready()
      reads this
    {
      && live == LiveIds(s.nodes)
      && forall t :: t in balancers ==> RightDef(s, t, balancers[t])
    }

    /** The call asked for target t: its balancer, if it is one, now exists. */
    ghost predicate Collected(before: map<Tag, BalancerDef>, t: Target)
      reads this
    {
      balancers.Keys == before.Keys + if t.Balancer? then {t.tag} else {}
    }

    constructor (s: Snapshot)
      ensures this.s == s && live == {} && balancers == map[]
    {
      this.s, live, balancers := s, {}, map[];
    }

    method DefaultTarget() returns (t: Target)
      requires Ready()
      modifies this`balancers
      ensures Ready() && t == DefaultTo(s) && Collected(old(balancers), t)
    {
      var n := DefaultNode(s);
      if n.Some? {
        return Outbound(NodeTag(n.value.id));
      }
      if live == {} {
        return Outbound(TagDirect);
      }
      balancers := balancers[TagAutoProxy := BalancerDef([AllNodes], "leastPing", None)];
      return Balancer(TagAutoProxy);
    }

    method MissingTarget() returns (t: Target)
      requires Ready()
      modifies this`balancers
      ensures Ready() && t == MissingTo(s) && Collected(old(balancers), t)
    {
      if s.strictFailover {
        return Outbound(TagBlock);
      }
      t := DefaultTarget();
    }

    method CatchAll() returns (t: Target)
      requires Ready()
      modifies this`balancers
      ensures Ready() && t == CatchAllTo(s) && Collected(old(balancers), t)
    {
      if s.defaultToProxy {
        t := DefaultTarget();
      } else {
        t := Outbound(TagDirect);
      }
    }

    method LiveMembers(g: Group) returns (members: seq<string>)
      requires Ready()
      ensures members == LiveOf(s, g)
    {
      members := [];
      for i := 0 to |g.members|
        invariant members == Filter(g.members[..i], id => id in LiveIds(s.nodes))
      {
        FilterStep(g.members, i, id => id in LiveIds(s.nodes));
        if g.members[i] in live {
          members := members + [g.members[i]];
        }
      }
      assert g.members[..|g.members|] == g.members;
    }

    /** The balancer of a group with at least two live members. */
    method DefineGroup(g: Group, members: seq<string>) returns (def: BalancerDef)
      requires Ready() && members == LiveOf(s, g) && |members| >= 2
      ensures def == GroupDef(s, g)
    {
      if g.kind == Failover {
        return BalancerDef([Select(NodeTag(members[0]))], "", Some(NodeTag(members[1])));
      }
      var strategy := if g.strategy == "" then "leastPing" else g.strategy;
      var fallback := TagBlock;
      if !s.strictFailover {
        fallback := TagDirect;
        var d := DefaultNode(s);
        if d.Some? && d.value.id in live && d.value.id !in members {
          fallback := NodeTag(d.value.id);
        }
      }
      return BalancerDef(SelectEach(members), strategy, Some(fallback));
    }

    method GroupTarget(id: string) returns (t: Target)
      requires Ready()
      modifies this`balancers
      ensures Ready() && t == GroupTo(s, id) && Collected(old(balancers), t)
    {
      var found := FindGroup(s.groups, id);
      if found.None? {
        t := MissingTarget();
        return;
      }
      var g := found.value;
      var members := LiveMembers(g);
      if |members| == 0 {
        t := MissingTarget();
        return;
      }
      if |members| == 1 {
        return Outbound(NodeTag(members[0]));
      }
      var tag := GroupTag(g.id);
      if tag in balancers {
        assert balancers.Keys == balancers.Keys + {tag};
        return Balancer(tag);
      }
      var def := DefineGroup(g, members);
      balancers := balancers[tag := def];
      return Balancer(tag);
    }

    method ResolveAction(a: Action) returns (t: Target)
      requires Ready()
      modifies this`balancers
      ensures Ready() && t == ActionTo(s, a) && Collected(old(balancers), t)
    {
      match a {
        case Direct => t := Outbound(TagDirect);
        case Block => t := Outbound(TagBlock);
        case ToNode(id) =>
          if id in live {
            t := Outbound(NodeTag(id));
          } else {
            t := MissingTarget();
          }
        case ToGroup(id) => t := GroupTarget(id);
        case Proxy => t := DefaultTarget();
      }
    }

    /** The node outbounds, noting which nodes are live. */
    method BuildOutbounds() returns (out: seq<Tag>)
      requires live == {} && balancers == map[]
      modifies this`live
      ensures Ready() && out == FixedOutbounds(s) + NodeOutbounds(s.nodes)
    {
      var nodes := EnabledNodes(s);
      out := FixedOutbounds(s);
      for i := 0 to |nodes|
        invariant live == LiveIds(nodes[..i])
        invariant out == FixedOutbounds(s) + NodeOutbounds(nodes[..i])
      {
        OutboundStep(nodes, i);
        assert nodes[i] in nodes;
        if nodes[i].builds {
          live := live + {nodes[i].id};
          out := out + [NodeTag(nodes[i].id)];
        }
      }
      assert nodes[..|nodes|] == nodes;
      EnabledOutbounds(s.nodes);
    }

    /** One user rule; none when its value is invalid. */
    method RenderRule(r: Rule) returns (out: seq<XrayRule>)
      requires Ready()
      modifies this`balancers
      ensures Ready() && out == CompileRule(s, r)
      ensures balancers.Keys == old(balancers).Keys + Targeted(out)
    {
      var c := Compile(r.what);
      if c.None? {
        return [];
      }
      var t := ResolveAction(r.action);
      out := [c.value.(target := t)];
      TargetedOne(out[0]);
    }
  }

  lemma TargetedAppend(xs: seq<XrayRule>, ys: seq<XrayRule>)
    ensures Targeted(xs + ys) == Targeted(xs) + Targeted(ys)
  {
    forall t | t in Targeted(xs) + Targeted(ys)
      ensures t in Targeted(xs + ys)
    {
      if t in Targeted(xs) {
        var i :| 0 <= i < |xs| && xs[i].target == Balancer(t);
        assert (xs + ys)[i].target.tag == t;
      } else {
        var i :| 0 <= i < |ys| && ys[i].target == Balancer(t);
        assert (xs + ys)[|xs| + i].target.tag == t;
      }
    }
  }

  /** The first 64 enabled node ids, in order: the probe slots. */
  method ProbeSlots(s: Snapshot) returns (ids: seq<string>)
    ensures ProbeOrder(s, ids)
    ensures |ids| == if |Enabled(s)| < 64 then |Enabled(s)| else 64
  {
    var nodes := EnabledNodes(s);
    StringLeqOrder();
    var all := SortBy(IdsOf(nodes), StringLeq);
    SameMembers(all, IdsOf(nodes));
    ids := if |all| > PROBE_SLOTS then all[..PROBE_SLOTS] else all;
  }

  method RenderUpstream(r: Renderer, up: Upstream) returns (out: seq<XrayRule>)
    requires r.Ready()
    modifies r`balancers
    ensures r.Ready() && out == UpstreamRule(r.s, up)
    ensures r.balancers.Keys == old(r.balancers).Keys + Targeted(out)
  {
    if up == Private {
      return [];
    }
    var t := r.DefaultTarget();
    var base := XrayRule(Some(SocksIn), None, None, None, t);
    var xr := if up.PublicIp? then base.(ip := Some(Cidrs([Prefix(up.addr, 32)])))
              else base.(domain := Some(HostText(FullHost(up.name))));
    TargetedOne(xr);
    out := [xr];
  }

  lemma UpstreamStep(s: Snapshot, ups: seq<Upstream>, i: nat)
    requires i < |ups|
    ensures UpstreamRules(s, ups[..i + 1]) == UpstreamRules(s, ups[..i]) + UpstreamRule(s, ups[i])
  {
    assert ups[..i + 1][..i] == ups[..i];
  }

  /** The rules that come before the user's: service, probe channel, and the
      pinned flows to remote upstreams. */
  method RenderSystemRules(r: Renderer, ids: seq<string>) returns (rules: seq<XrayRule>)
    requires r.Ready() && r.balancers == map[]
    modifies r`balancers
    ensures r.Ready() && rules == SystemRules(r.s, ids)
    ensures r.balancers.Keys == Targeted(rules)
  {
    var head := ServiceRules(r.s) + ProbeRules(ids) + [PROBE_NONE];
    rules := head;
    assert Targeted(rules) == {};
    for i := 0 to |r.s.upstreams|
      invariant r.Ready() && rules == head + UpstreamRules(r.s, r.s.upstreams[..i])
      invariant r.balancers.Keys == Targeted(rules)
    {
      var more := RenderUpstream(r, r.s.upstreams[i]);
      UpstreamStep(r.s, r.s.upstreams, i);
      TargetedAppend(rules, more);
      rules := rules + more;
    }
    assert r.s.upstreams[..|r.s.upstreams|] == r.s.upstreams;
  }

  lemma UserStep(s: Snapshot, rules: seq<Rule>, i: nat)
    requires i < |rules|
    ensures UserRules(s, rules[..i + 1]) == UserRules(s, rules[..i]) + CompileRule(s, rules[i])
  {
    assert rules[..i + 1][..i] == rules[..i];
  }

  method RenderUserRules(r: Renderer, system: seq<XrayRule>) returns (rules: seq<XrayRule>)
    requires r.Ready() && r.balancers.Keys == Targeted(system)
    modifies r`balancers
    ensures r.Ready() && rules == system + UserRules(r.s, Actives(r.s))
    ensures r.balancers.Keys == Targeted(rules)
  {
    rules := system;
    var active := ActiveRules(r.s);
    for i := 0 to |active|
      invariant r.Ready() && rules == system + UserRules(r.s, active[..i])
      invariant r.balancers.Keys == Targeted(rules)
    {
      UserStep(r.s, active, i);
      var more := r.RenderRule(active[i]);
      TargetedAppend(rules, more);
      rules := rules + more;
    }
    assert active[..|active|] == active;
  }

  /** System rules, user rules, catch-all. */
  method RenderRules(r: Renderer, probeIds: seq<string>) returns (rules: seq<XrayRule>)
    requires r.Ready() && r.balancers == map[]
    modifies r`balancers
    ensures r.Ready() && rules == AllRules(r.s, probeIds)
    ensures r.balancers.Keys == Targeted(rules)
  {
    rules := RenderSystemRules(r, probeIds);
    rules := RenderUserRules(r, rules);
    var catch := r.CatchAll();
    var last := XrayRule(None, None, None, None, catch);
    TargetedAppend(rules, [last]);
    TargetedOne(last);
    rules := rules + [last];
  }

  lemma TargetedSome(rules: seq<XrayRule>)
    ensures Targeted(rules) != {} <==> exists i :: 0 <= i < |rules| && rules[i].target.Balancer?
  {
    if i :| 0 <= i < |rules| && rules[i].target.Balancer? {
      assert rules[i].target.tag in Targeted(rules);
    }
    if Targeted(rules) != {} {
      var t :| t in Targeted(rules);
    }
  }

  lemma BalancersFixed(s: Snapshot, rules: seq<XrayRule>, balancers: map<Tag, BalancerDef>)
    requires balancers.Keys == Targeted(rules) && forall t :: t in balancers ==> RightDef(s, t, balancers[t])
    ensures balancers == map t | t in Targeted(rules) :: DefOf(s, t)
    ensures |balancers| > 0 <==> exists i :: 0 <= i < |rules| && rules[i].target.Balancer?
  {
    TargetedSome(rules);
    assert |balancers| > 0 <==> balancers.Keys != {};
  }

  /** The whole rendering. */
  method RenderXray(s: Snapshot) returns (cfg: Config, probeIds: seq<string>)
    ensures ProbeOrder(s, probeIds)
    ensures cfg == ConfigOf(s, probeIds)
  {
    var r := new Renderer(s);
    var outbounds := r.BuildOutbounds();
    probeIds := ProbeSlots(s);
    var rules := RenderRules(r, probeIds);
    BalancersFixed(s, rules, r.balancers);
    cfg := Config(outbounds, rules, r.balancers, |r.balancers| > 0);
  }
}
