/** Vocabulary shared by the trace and the Xray renderer: outbound tags, flows
    and the meaning of an Xray routing rule list. */
module Routing {
  import opened Ipv4
  import opened Model
  import opened Domains
  import opened GeoEntry

  // ------------------------------------------------------------------ tags

  datatype Tag = TagDirect | TagBlock | TagDnsOut | TagApi | TagAutoProxy | NodeTag(id: string) | GroupTag(id: string)

  /** The text written into the configuration. */
  function Text(t: Tag): string
  {
    match t
    case TagDirect => "direct"
    case TagBlock => "block"
    case TagDnsOut => "dns-out"
    case TagApi => "api"
    case TagAutoProxy => "proxy-auto"
    case NodeTag(id) => "node-" + id
    case GroupTag(id) => "group-" + id
  }

  lemma TagsNeverCollide(s: Tag, t: Tag)
    requires Text(s) == Text(t)
    ensures s == t
  {
    assert |Text(s)| == |Text(t)|;
    assert Text(s)[0] == Text(t)[0];
    if s.NodeTag? && t.NodeTag? {
      assert Text(s)[5..] == s.id && Text(t)[5..] == t.id;
    } else if s.GroupTag? && t.GroupTag? {
      assert Text(s)[6..] == s.id && Text(t)[6..] == t.id;
    } else if s.TagDirect? || t.TagDirect? {
      assert Text(s)[1] == Text(t)[1];
    } else if s.TagAutoProxy? || t.TagAutoProxy? || s.TagApi? || t.TagApi? || s.TagBlock? || t.TagBlock? {
    }
  }

  /** The balancer selector "node-" picks exactly the node outbounds. */
  lemma SelectorPrefix(t: Tag)
    ensures "node-" <= Text(t) <==> t.NodeTag?
  {
    if "node-" <= Text(t) {
      assert Text(t)[0] == 'n' && |Text(t)| >= 5;
    }
  }

  // ----------------------------------------------------------------- flows

  datatype Inbound = TProxyIn | ApiIn | SocksIn | HttpIn | ProbeIn | DnsIn

  /** A destination is a requested name, an IPv4 address, or an address together
      with the name sniffed from the traffic. */
  datatype Dest = ToHost(host: string) | ToIp(ip: Addr) | Sniffed(host: string, ip: Addr)

  predicate HasHost(d: Dest) { !d.ToIp? }

  predicate HasIp(d: Dest) { !d.ToHost? }

  datatype Flow = Flow(inbound: Inbound, user: Option<nat>, dest: Dest)

  /** Installed geodata, and the regular-expression oracle. */
  datatype Geo = Geo(site: map<string, seq<Entry>>, ip: map<string, seq<Prefix>>, regex: (string, string) -> bool)

  predicate InPrefixes(ps: seq<Prefix>, a: Addr)
  {
    exists i :: 0 <= i < |ps| && Contains(ps[i], a)
  }

  function StripBang(tag: string): string { if "!" <= tag then tag[1..] else tag }

  // ------------------------------------------------------------ Xray rules

  datatype DomainCond = HostText(text: HostPattern) | GeositeTag(tag: string)

  datatype IpCond = Cidrs(list: seq<Prefix>) | GeoIpTag(tag: string) | CidrV6

  datatype Target = Outbound(tag: Tag) | Balancer(tag: Tag)

  /** A field rule: every condition that is present must hold. */
  datatype XrayRule = XrayRule(
    inbound: Option<Inbound>, user: Option<nat>,
    domain: Option<DomainCond>, ip: Option<IpCond>, target: Target)

  ghost predicate DomainHolds(c: DomainCond, d: Dest, geo: Geo)
  {
    HasHost(d) &&
    match c
    case HostText(text) => Accepts(text, d.host, geo.regex)
    case GeositeTag(tag) => tag in geo.site && exists e :: e in geo.site[tag] && e.kind != KindUnknown && Accepts(EntryValue(e), d.host, geo.regex)
  }

  predicate IpHolds(c: IpCond, d: Dest, geo: Geo)
  {
    HasIp(d) &&
    match c
    case Cidrs(list) => InPrefixes(list, d.ip)
    case CidrV6 => false
    case GeoIpTag(tag) =>
      StripBang(tag) in geo.ip && InPrefixes(geo.ip[StripBang(tag)], d.ip) != ("!" <= tag)
  }

  ghost predicate Holds(r: XrayRule, f: Flow, geo: Geo)
  {
    && (r.inbound.Some? ==> r.inbound.value == f.inbound)
    && (r.user.Some? ==> r.user == f.user)
    && (r.domain.Some? ==> DomainHolds(r.domain.value, f.dest, geo))
    && (r.ip.Some? ==> IpHolds(r.ip.value, f.dest, geo))
  }

  /** Xray takes the first rule that holds. */
  ghost function FirstMatch(rules: seq<XrayRule>, f: Flow, geo: Geo): Option<Target>
  {
    if rules == [] then None
    else if Holds(rules[0], f, geo) then Some(rules[0].target)
    else FirstMatch(rules[1..], f, geo)
  }

  lemma {:induction false} FirstMatchAppend(xs: seq<XrayRule>, ys: seq<XrayRule>, f: Flow, geo: Geo)
    ensures FirstMatch(xs + ys, f, geo) ==
      if FirstMatch(xs, f, geo).Some? then FirstMatch(xs, f, geo) else FirstMatch(ys, f, geo)
  {
    if xs == [] {
      assert xs + ys == ys;
    } else {
      FirstMatchAppend(xs[1..], ys, f, geo);
      assert (xs + ys)[1..] == xs[1..] + ys;
    }
  }

  lemma {:induction false} NoMatch(rules: seq<XrayRule>, f: Flow, geo: Geo)
    requires forall r :: r in rules ==> !Holds(r, f, geo)
    ensures FirstMatch(rules, f, geo).None?
  {
    if rules != [] {
      assert forall r :: r in rules[1..] ==> r in rules;
      assert rules[0] in rules;
      NoMatch(rules[1..], f, geo);
    }
  }

  // ------------------------------------------------------------- geo tags

  predicate TagChar(c: char)
  {
    Alnum(c) || c in {'_', '@', '!', '.', '-'}
  }

  /** The tag pattern: an optional bang, then 1 to 64 tag characters of which
      the first is alphanumeric. */
  predicate ValidTag(t: string)
  {
    var body := StripBang(t);
    1 <= |body| <= 64 && Alnum(body[0]) && forall c :: c in body ==> TagChar(c)
  }

  /** An optional bang, an alphanumeric and at most 63 tag characters. */
  ghost predicate TagShape(t: string, bang: string, first: char, rest: string)
  {
    && bang in ["", "!"] && t == bang + [first] + rest && Alnum(first) && |rest| <= 63
    && forall x :: x in rest ==> Alnum(x) || x == '_' || x == '@' || x == '!' || x == '.' || x == '-'
  }

  /** A tag as the pattern of the source has it. */
  lemma TagPattern(t: string)
    ensures ValidTag(t) <==> exists bang, first, rest :: TagShape(t, bang, first, rest)
  {
    if ValidTag(t) {
      var bang := if "!" <= t then "!" else "";
      var body := StripBang(t);
      assert t == bang + [body[0]] + body[1..];
      assert forall x :: x in body[1..] ==> x in body;
      assert TagShape(t, bang, body[0], body[1..]);
    }
    if bang, first, rest :| TagShape(t, bang, first, rest) {
      assert t[0] == '!' <==> bang == "!";
      assert StripBang(t) == [first] + rest;
    }
  }

  function Unprefix(t: string, p: string): string { if p <= t then t[|p|..] else t }

  function NormalizeGeoTag(v: string): Option<string>
  {
    var t := Unprefix(Unprefix(Lower(TrimSpace(v)), "geosite:"), "geoip:");
    if ValidTag(t) then Some(t) else None
  }

  lemma TagChars(t: string)
    requires ValidTag(t)
    ensures t != "" && forall c :: c in t ==> TagChar(c)
  {
    if "!" <= t {
      assert t == "!" + t[1..];
    }
  }

  lemma TagTextIdle(pre: string, t: string)
    requires ValidTag(t) && pre in ["", "geosite:", "geoip:"]
    ensures Lower(TrimSpace(pre + t)) == pre + t
  {
    TagChars(t);
    var s := pre + t;
    forall c | c in s
      ensures !IsSpace(c) && LowerChar(c) == c
    {
      assert c in pre || TagChar(c);
    }
    assert s[0] in s && s[|s| - 1] in s;
    TrimSpaceIdle(s);
    LowerIdle(s);
  }

  lemma NoListName(t: string)
    requires ValidTag(t)
    ensures Unprefix(t, "geosite:") == t && Unprefix(t, "geoip:") == t
  {
    TagChars(t);
    assert ':' !in t;
    assert "geosite:"[7] == ':' && "geoip:"[5] == ':';
  }

  lemma ListNameGoes(t: string)
    ensures Unprefix("geosite:" + t, "geosite:") == t && Unprefix("geoip:" + t, "geoip:") == t
    ensures Unprefix("geoip:" + t, "geosite:") == "geoip:" + t
  {
    assert ("geosite:" + t)[8..] == t && ("geoip:" + t)[6..] == t;
    assert ("geoip:" + t)[3] == 'i' && "geosite:"[3] == 's';
  }

  /** A stored tag stays what it is, with or without a list name in front. */
  lemma TagIsStable(t: string)
    requires ValidTag(t)
    ensures NormalizeGeoTag(t) == Some(t)
    ensures NormalizeGeoTag("geosite:" + t) == Some(t)
    ensures NormalizeGeoTag("geoip:" + t) == Some(t)
  {
    NoListName(t);
    ListNameGoes(t);
    TagTextIdle("", t);
    TagTextIdle("geosite:", t);
    TagTextIdle("geoip:", t);
    assert "" + t == t;
  }

  const PRIVATE_RANGES: seq<Prefix> := [
    Prefix(0x0A00_0000, 8), Prefix(0xAC10_0000, 12), Prefix(0xC0A8_0000, 16),
    Prefix(0x7F00_0000, 8), Prefix(0xA9FE_0000, 16), Prefix(0x6440_0000, 10)
  ]

  const CGNAT: Prefix := Prefix(0x6440_0000, 10)
}
