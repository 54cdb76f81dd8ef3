/** The routing trace (`internal/trace/trace.go`): where the desired state says
    traffic to a destination goes. This is the source meaning of the rules. */
module Trace {
  import opened Ipv4
  import opened Model
  import opened Domains
  import opened GeoEntry
  import opened Routing

  function DefaultOutbound(s: Snapshot): Tag
  {
    if DefaultNode(s).Some? then NodeTag(DefaultNode(s).value.id)
    else if |Enabled(s)| > 0 then TagAutoProxy
    else TagDirect
  }

  function Fallback(s: Snapshot): Tag
  {
    if s.strictFailover then TagBlock else DefaultOutbound(s)
  }

  predicate NodeUp(s: Snapshot, id: string)
  {
    FindNode(s.nodes, id).Some? && FindNode(s.nodes, id).value.enabled
  }

  function LiveMembers(s: Snapshot, g: Group): seq<string>
  {
    Filter(g.members, id => NodeUp(s, id))
  }

  /** `resolve`. */
  function Resolve(s: Snapshot, a: Action): Tag
  {
    match a
    case Direct => TagDirect
    case Block => TagBlock
    case ToNode(id) => if NodeUp(s, id) then NodeTag(id) else Fallback(s)
    case ToGroup(id) =>
      var g := FindGroup(s.groups, id);
      if g.None? then Fallback(s)
      else
        var live := LiveMembers(s, g.value);
        if |live| == 0 then Fallback(s)
        else if |live| == 1 then NodeTag(live[0])
        else GroupTag(g.value.id)
    case Proxy => DefaultOutbound(s)
  }

  /** The six private ranges without carrier-grade NAT space. */
  predicate PrivateLoopbackLinkLocal(a: Addr)
  {
    InPrefixes(PRIVATE_RANGES[..5], a)
  }

  /** `matches`. The trace asks about a name or about an address; of a
      destination with both, either part may match. */
  predicate RuleMatches(m: Match, d: Dest, geo: Geo)
  {
    match m
    case Domain(value) =>
      HasHost(d) && ParseDomain(value).Ok? && Matches(ParseDomain(value).pattern, d.host)
    case Geosite(tag) =>
      HasHost(d) && tag in geo.site && exists e :: e in geo.site[tag] && EntryMatches(e, d.host, geo.regex)
    case Ip(value) => HasIp(d) && value.Cidr4? && Contains(value.prefix, d.ip)
    case GeoIp(tag) =>
      HasIp(d) &&
      if tag == "private" then PrivateLoopbackLinkLocal(d.ip)
      else StripBang(tag) in geo.ip && InPrefixes(geo.ip[StripBang(tag)], d.ip) != ("!" <= tag)
  }

  function FirstRule(rules: seq<Rule>, d: Dest, geo: Geo): (hit: Option<Rule>)
    ensures hit.Some? ==> hit.value in rules && RuleMatches(hit.value.what, d, geo)
    ensures hit.None? ==> forall r :: r in rules ==> !RuleMatches(r.what, d, geo)
  {
    if rules == [] then None
    else if RuleMatches(rules[0].what, d, geo) then Some(rules[0])
    else FirstRule(rules[1..], d, geo)
  }

  /** The tag the trace reports. */
  function Reported(s: Snapshot, d: Dest, geo: Geo): Tag
  {
    var hit := FirstRule(Actives(s), d, geo);
    if hit.Some? then Resolve(s, hit.value.action)
    else if s.defaultToProxy then DefaultOutbound(s)
    else TagDirect
  }

  datatype Result = Result(matched: Option<Rule>, outbound: Tag, considered: nat)

  /** `Run`: walk the active rules and resolve the first that matches. */
  method Run(s: Snapshot, d: Dest, geo: Geo) returns (res: Result)
    ensures res.outbound == Reported(s, d, geo)
    ensures res.matched == FirstRule(Actives(s), d, geo)
    ensures res.matched.Some? ==> 0 < res.considered <= |Actives(s)| && Actives(s)[res.considered - 1] == res.matched.value
    ensures res.matched.None? ==> res.considered == |Actives(s)|
  {
    var rules := ActiveRules(s);
    for i := 0 to |rules|
      invariant FirstRule(rules, d, geo) == FirstRule(rules[i..], d, geo)
    {
      assert rules[i..][0] == rules[i] && rules[i..][1..] == rules[i + 1..];
      if RuleMatches(rules[i].what, d, geo) {
        return Result(Some(rules[i]), Resolve(s, rules[i].action), i + 1);
      }
    }
    return Result(None, if s.defaultToProxy then DefaultOutbound(s) else TagDirect, |rules|);
  }
}
