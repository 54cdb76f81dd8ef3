/** The rule compiler against its source meaning: what `XrayRender` emits sends
    a LAN flow where `Trace` says the desired state sends it, and refers only
    to things the configuration defines. */
module Compile {
  import opened Ipv4
  import opened Model
  import opened Sorting
  import opened Domains
  import opened GeoEntry
  import opened Routing
  import opened XrayRender
  import Trace

  /** Every enabled node can be turned into an outbound. */
  ghost predicate AllBuild(s: Snapshot)
  {
    forall n :: n in s.nodes && n.enabled ==> n.builds
  }

  /** Tags are stored normalised. */
  predicate NormalTag(m: Match)
  {
    match m
    case Geosite(tag) => NormalizeGeoTag(tag) == Some(tag)
    case GeoIp(tag) => NormalizeGeoTag(tag) == Some(tag)
    case _ => true
  }

  /** The two places where the trace and the renderer read a value
      differently: a bare address, which the trace does not parse, and
      carrier-grade NAT space, which only the renderer counts as private. */
  predicate Divergent(m: Match, d: Dest)
  {
    HasIp(d) &&
    match m
    case Ip(Bare4(a)) => d.ip == a
    case GeoIp(tag) => tag == "private" && Contains(CGNAT, d.ip)
    case _ => false
  }

  ghost predicate NormalDest(d: Dest)
  {
    HasHost(d) ==> IsNormal(d.host)
  }

  ghost predicate CompiledHolds(m: Match, f: Flow, geo: Geo)
  {
    Compile(m).Some? && Holds(Compile(m).value, f, geo)
  }

  lemma TopBits(p: Prefix, a: Addr)
    requires p.bits in {8, 10, 12, 16}
    ensures Contains(p, a) <==>
      var k := if p.bits == 8 then 256 else if p.bits == 10 then 64 else if p.bits == 12 then 16 else 1;
      a / 65536 / k == p.addr / 65536 / k
  {
    ShrDivides(a);
    ShrDivides(p.addr);
  }

  lemma CgnatIsApart(a: Addr)
    requires Contains(CGNAT, a)
    ensures !InPrefixes(PRIVATE_RANGES[..5], a)
  {
    TopBits(CGNAT, a);
    forall i | 0 <= i < 5
      ensures !Contains(PRIVATE_RANGES[i], a)
    {
      TopBits(PRIVATE_RANGES[i], a);
    }
  }

  lemma BlockInNumbers(p: Prefix, a: Addr, high: nat, k: nat)
    requires (p.bits, k) in {(8, 256), (10, 64), (12, 16), (16, 1)}
    requires p.addr == high * 65536 && high % k == 0
    ensures Contains(p, a) <==> high * 65536 <= a < (high + k) * 65536
  {
    TopBits(p, a);
    var w := a / 65536;
    assert p.addr / 65536 == high;
    assert w / k == high / k <==> high <= w < high + k;
  }

  /** What the trace and the renderer count as private, in plain numbers. */
  lemma PrivateInNumbers(a: Addr)
    ensures InPrefixes(PRIVATE_RANGES[..5], a) <==>
      || 0x0A00_0000 <= a <= 0x0AFF_FFFF || 0xAC10_0000 <= a <= 0xAC1F_FFFF || 0xC0A8_0000 <= a <= 0xC0A8_FFFF
      || 0x7F00_0000 <= a <= 0x7FFF_FFFF || 0xA9FE_0000 <= a <= 0xA9FE_FFFF
    ensures Contains(CGNAT, a) <==> 0x6440_0000 <= a <= 0x647F_FFFF
  {
    BlockInNumbers(PRIVATE_RANGES[0], a, 0x0A00, 256);
    BlockInNumbers(PRIVATE_RANGES[1], a, 0xAC10, 16);
    BlockInNumbers(PRIVATE_RANGES[2], a, 0xC0A8, 1);
    BlockInNumbers(PRIVATE_RANGES[3], a, 0x7F00, 256);
    BlockInNumbers(PRIVATE_RANGES[4], a, 0xA9FE, 1);
    BlockInNumbers(CGNAT, a, 0x6440, 64);
    var five := PRIVATE_RANGES[..5];
    assert InPrefixes(five, a) <==>
      (Contains(five[0], a) || Contains(five[1], a) || Contains(five[2], a) || Contains(five[3], a) || Contains(five[4], a));
  }

  lemma PrivateRanges(a: Addr)
    ensures InPrefixes(PRIVATE_RANGES, a) <==> InPrefixes(PRIVATE_RANGES[..5], a) || Contains(CGNAT, a)
  {
    if InPrefixes(PRIVATE_RANGES[..5], a) {
      var i :| 0 <= i < 5 && Contains(PRIVATE_RANGES[..5][i], a);
      assert Contains(PRIVATE_RANGES[i], a);
    }
    if InPrefixes(PRIVATE_RANGES, a) {
      var i :| 0 <= i < |PRIVATE_RANGES| && Contains(PRIVATE_RANGES[i], a);
      assert i == 5 || PRIVATE_RANGES[..5][i] == PRIVATE_RANGES[i];
    }
    assert PRIVATE_RANGES[5] == CGNAT;
  }

  lemma GeositeAgrees(tag: string, d: Dest, geo: Geo)
    requires tag in geo.site && HasHost(d)
    ensures DomainHolds(GeositeTag(tag), d, geo) <==>
      exists e :: e in geo.site[tag] && EntryMatches(e, d.host, geo.regex)
  {
    forall e
      ensures EntryMatches(e, d.host, geo.regex) <==>
        (e.kind != KindUnknown && Accepts(EntryValue(e), d.host, geo.regex))
    {
      EntryMeaning(e, d.host, geo.regex);
    }
  }

  lemma OnePrefix(p: Prefix, a: Addr)
    ensures InPrefixes([p], a) <==> Contains(p, a)
  {
    assert [p][0] == p;
  }

  /** A compiled condition and the traced condition agree on a flow exactly
      outside the two divergent cases. */
  lemma MatchAgreesIff(m: Match, f: Flow, geo: Geo)
    requires NormalTag(m) && NormalDest(f.dest)
    ensures (Trace.RuleMatches(m, f.dest, geo) <==> CompiledHolds(m, f, geo)) <==> !Divergent(m, f.dest)
  {
    match m
    case Domain(value) =>
      if HasHost(f.dest) && ParseDomain(value).Ok? {
        SameHosts(value, f.dest.host, geo.regex);
      }
    case Geosite(tag) =>
      if HasHost(f.dest) && tag in geo.site {
        GeositeAgrees(tag, f.dest, geo);
      }
    case Ip(value) =>
      if value.Cidr4? && HasIp(f.dest) {
        OnePrefix(Masked(value.prefix), f.dest.ip);
        assert Contains(Masked(value.prefix), f.dest.ip) <==> Contains(value.prefix, f.dest.ip);
      }
      if value.Bare4? && HasIp(f.dest) {
        OnePrefix(Prefix(value.addr, 32), f.dest.ip);
      }
    case GeoIp(tag) =>
      if HasIp(f.dest) && tag == "private" {
        PrivateRanges(f.dest.ip);
        if Contains(CGNAT, f.dest.ip) {
          CgnatIsApart(f.dest.ip);
        }
      }
  }

  // --------------------------------------------------------------- actions

  /** The default outbound is the same: there is a default node, or nodes are
      enabled exactly when some are live. */
  predicate DefaultSame(s: Snapshot)
  {
    DefaultNode(s).Some? || (|Enabled(s)| == 0 <==> LiveIds(s.nodes) == {})
  }

  predicate MissingSame(s: Snapshot)
  {
    s.strictFailover || DefaultSame(s)
  }

  /** What is not live is replaced by the default, and the default is the node
      itself. */
  predicate OwnFallback(s: Snapshot, id: string)
  {
    !s.strictFailover && DefaultNode(s).Some? && DefaultNode(s).value.id == id
  }

  /** Renderer and trace send an action the same way, judged by which nodes are
      live and which are only enabled. */
  predicate ActionSame(s: Snapshot, a: Action)
  {
    match a
    case Direct => true
    case Block => true
    case Proxy => DefaultSame(s)
    case ToNode(id) =>
      if id in LiveIds(s.nodes) then true
      else if Trace.NodeUp(s, id) then OwnFallback(s, id)
      else MissingSame(s)
    case ToGroup(id) =>
      var g := FindGroup(s.groups, id);
      if g.None? then MissingSame(s)
      else
        var live, up := LiveOf(s, g.value), Trace.LiveMembers(s, g.value);
        if |live| >= 2 then true
        else if |live| == 1 then |up| == 1
        else if |up| == 0 then MissingSame(s)
        else |up| == 1 && OwnFallback(s, up[0])
  }

  lemma LiveIsUp(s: Snapshot, id: string)
    requires UniqueIds(s.nodes) && id in LiveIds(s.nodes)
    ensures Trace.NodeUp(s, id)
  {
    var n :| n in s.nodes && n.enabled && n.builds && n.id == id;
    FindUnique(s.nodes, n);
  }

  /** Live members are among the enabled ones. */
  lemma {:induction false} FilterFewer(ids: seq<string>, p: string -> bool, q: string -> bool)
    requires forall id :: id in ids && p(id) ==> q(id)
    ensures |Filter(ids, p)| <= |Filter(ids, q)|
    ensures |Filter(ids, q)| == 1 && |Filter(ids, p)| == 1 ==> Filter(ids, p) == Filter(ids, q)
  {
    if ids != [] {
      assert ids == ids[..|ids| - 1] + [ids[|ids| - 1]];
      FilterFewer(ids[..|ids| - 1], p, q);
    }
    if |Filter(ids, q)| == 1 && |Filter(ids, p)| == 1 {
      assert Filter(ids, p)[0] in Filter(ids, p);
      assert Filter(ids, p)[0] in Filter(ids, q);
    }
  }

  lemma MembersLiveAreUp(s: Snapshot, g: Group)
    requires UniqueIds(s.nodes)
    ensures |LiveOf(s, g)| <= |Trace.LiveMembers(s, g)|
    ensures |LiveOf(s, g)| == 1 && |Trace.LiveMembers(s, g)| == 1 ==> LiveOf(s, g) == Trace.LiveMembers(s, g)
  {
    forall m | m in g.members && m in LiveIds(s.nodes)
      ensures Trace.NodeUp(s, m)
    {
      LiveIsUp(s, m);
    }
    FilterFewer(g.members, m => m in LiveIds(s.nodes), m => Trace.NodeUp(s, m));
  }

  lemma DefaultAgreesIff(s: Snapshot)
    ensures DefaultTo(s).tag == Trace.DefaultOutbound(s) <==> DefaultSame(s)
  {
  }

  /** Whatever builds, an action compiles to the traced tag exactly in these
      cases. */
  lemma ActionAgreesIff(s: Snapshot, a: Action)
    requires UniqueIds(s.nodes)
    ensures ActionTo(s, a).tag == Trace.Resolve(s, a) <==> ActionSame(s, a)
  {
    DefaultAgreesIff(s);
    match a
    case ToNode(id) =>
      if id in LiveIds(s.nodes) {
        LiveIsUp(s, id);
      }
    case ToGroup(id) =>
      if FindGroup(s.groups, id).Some? {
        MembersLiveAreUp(s, FindGroup(s.groups, id).value);
      }
    case _ =>
  }

  /** If every enabled node builds, they all do. */
  lemma AllBuildSame(s: Snapshot, a: Action)
    requires UniqueIds(s.nodes) && AllBuild(s)
    ensures ActionSame(s, a) && DefaultSame(s)
  {
    forall id
      ensures id in LiveIds(s.nodes) <==> Trace.NodeUp(s, id)
    {
      if id in LiveIds(s.nodes) {
        LiveIsUp(s, id);
      }
    }
    if |Enabled(s)| > 0 {
      assert Enabled(s)[0] in Enabled(s);
      assert Enabled(s)[0].id in LiveIds(s.nodes);
    }
    if LiveIds(s.nodes) != {} {
      var id :| id in LiveIds(s.nodes);
      var n :| n in s.nodes && n.enabled && n.builds && n.id == id;
      assert n in Enabled(s);
    }
    if a.ToGroup? && FindGroup(s.groups, a.group).Some? {
      var g := FindGroup(s.groups, a.group).value;
      FilterCongruent(g.members, m => m in LiveIds(s.nodes), m => Trace.NodeUp(s, m));
      assert LiveOf(s, g) == Trace.LiveMembers(s, g);
    }
  }

  // ----------------------------------------------------------- whole lists

  /** The rule decides the compiled flow: the trace says it matches, or it is
      read differently. */
  predicate Touches(m: Match, d: Dest, geo: Geo)
  {
    Trace.RuleMatches(m, d, geo) || Divergent(m, d)
  }

  /** The first rule of the list that touches the destination. */
  function FirstTouched(rules: seq<Rule>, d: Dest, geo: Geo): Option<Rule>
  {
    if rules == [] then None
    else
      var front := FirstTouched(rules[..|rules| - 1], d, geo);
      if front.Some? then front
      else if Touches(rules[|rules| - 1].what, d, geo) then Some(rules[|rules| - 1])
      else None
  }

  lemma DivergentIsUntraced(m: Match, d: Dest, geo: Geo)
    requires Divergent(m, d)
    ensures !Trace.RuleMatches(m, d, geo)
  {
    if m.GeoIp? {
      CgnatIsApart(d.ip);
    }
  }

  lemma TouchesIff(m: Match, f: Flow, geo: Geo)
    requires NormalTag(m) && NormalDest(f.dest)
    ensures CompiledHolds(m, f, geo) <==> Touches(m, f.dest, geo)
  {
    MatchAgreesIff(m, f, geo);
    if Divergent(m, f.dest) {
      DivergentIsUntraced(m, f.dest, geo);
    }
  }

  lemma PrivateIsNormal()
    ensures NormalizeGeoTag("private") == Some("private")
  {
    var t := "private";
    TrimSpaceIdle(t);
    LowerIdle(t);
    assert StripBang(t) == t;
  }

  /** Shared address space: the compiled condition holds, the trace says it does
      not match. */
  lemma PrivateAtSharedSpace(geo: Geo)
    ensures var m, f := GeoIp("private"), Flow(TProxyIn, None, ToIp(0x6440_0001));
      CompiledHolds(m, f, geo) && !Trace.RuleMatches(m, f.dest, geo)
  {
    var m, f := GeoIp("private"), Flow(TProxyIn, None, ToIp(0x6440_0001));
    PrivateIsNormal();
    TopBits(CGNAT, 0x6440_0001);
    TouchesIff(m, f, geo);
    DivergentIsUntraced(m, f.dest, geo);
  }

  /** A bare address, which only an unchecked import can leave in a rule: the
      compiled condition holds at the address, the trace says it does not
      match. */
  lemma BareAddressDiffers(a: Addr, geo: Geo)
    ensures var m, f := Ip(Bare4(a)), Flow(TProxyIn, None, ToIp(a));
      CompiledHolds(m, f, geo) && !Trace.RuleMatches(m, f.dest, geo)
  {
    TouchesIff(Ip(Bare4(a)), Flow(TProxyIn, None, ToIp(a)), geo);
  }

  lemma OneRuleAgrees(s: Snapshot, r: Rule, f: Flow, geo: Geo)
    requires NormalDest(f.dest) && NormalTag(r.what)
    ensures FirstMatch(CompileRule(s, r), f, geo) ==
      if Touches(r.what, f.dest, geo) then Some(ActionTo(s, r.action)) else None
  {
    TouchesIff(r.what, f, geo);
    var c := Compile(r.what);
    if c.Some? {
      var xr := c.value.(target := ActionTo(s, r.action));
      assert Holds(xr, f, geo) <==> Holds(c.value, f, geo);
      assert [xr][1..] == [];
    }
  }

  lemma UserRulesSnoc(s: Snapshot, front: seq<Rule>, last: Rule, f: Flow, geo: Geo)
    requires NormalDest(f.dest) && NormalTag(last.what)
    requires var hit := FirstTouched(front, f.dest, geo);
      FirstMatch(UserRules(s, front), f, geo) == if hit.Some? then Some(ActionTo(s, hit.value.action)) else None
    ensures var hit := FirstTouched(front + [last], f.dest, geo);
      FirstMatch(UserRules(s, front + [last]), f, geo) == if hit.Some? then Some(ActionTo(s, hit.value.action)) else None
  {
    var all := front + [last];
    assert all[..|all| - 1] == front;
    OneRuleAgrees(s, last, f, geo);
    FirstMatchAppend(UserRules(s, front), CompileRule(s, last), f, geo);
    assert UserRules(s, all) == UserRules(s, front) + CompileRule(s, last);
  }

  /** The first compiled user rule a flow meets is the compilation of the first
      rule that touches its destination. */
  lemma {:induction false} UserRulesAgree(s: Snapshot, rules: seq<Rule>, f: Flow, geo: Geo)
    requires NormalDest(f.dest) && forall r :: r in rules ==> NormalTag(r.what)
    ensures FirstMatch(UserRules(s, rules), f, geo) ==
      var hit := FirstTouched(rules, f.dest, geo);
      if hit.Some? then Some(ActionTo(s, hit.value.action)) else None
  {
    if rules != [] {
      var front, last := rules[..|rules| - 1], rules[|rules| - 1];
      assert rules == front + [last] && last in rules;
      assert forall r :: r in front ==> r in rules;
      UserRulesAgree(s, front, f, geo);
      UserRulesSnoc(s, front, last, f, geo);
    }
  }

  lemma {:induction false} FirstRuleAppend(xs: seq<Rule>, r: Rule, d: Dest, geo: Geo)
    ensures Trace.FirstRule(xs + [r], d, geo) ==
      if Trace.FirstRule(xs, d, geo).Some? then Trace.FirstRule(xs, d, geo)
      else if Trace.RuleMatches(r.what, d, geo) then Some(r) else None
  {
    if xs == [] {
      assert xs + [r] == [r] && [r][1..] == [];
    } else {
      FirstRuleAppend(xs[1..], r, d, geo);
      assert (xs + [r])[1..] == xs[1..] + [r];
    }
  }

  lemma {:induction false} TouchedIsTraced(rules: seq<Rule>, d: Dest, geo: Geo)
    ensures var hit := FirstTouched(rules, d, geo);
      (hit.Some? ==> hit.value in rules && Touches(hit.value.what, d, geo)) &&
      (hit.None? || !Divergent(hit.value.what, d) ==> Trace.FirstRule(rules, d, geo) == hit)
  {
    if rules != [] {
      var front, last := rules[..|rules| - 1], rules[|rules| - 1];
      assert rules == front + [last];
      TouchedIsTraced(front, d, geo);
      FirstRuleAppend(front, last, d, geo);
    }
  }

  /** The rule that decides the compiled list is the one that decides the trace
      exactly when it is not read differently. */
  lemma SameRuleDecidesIff(rules: seq<Rule>, d: Dest, geo: Geo)
    ensures var hit := FirstTouched(rules, d, geo);
      Trace.FirstRule(rules, d, geo) == hit <==> hit.None? || !Divergent(hit.value.what, d)
  {
    TouchedIsTraced(rules, d, geo);
    var hit := FirstTouched(rules, d, geo);
    if hit.Some? && Divergent(hit.value.what, d) {
      DivergentIsUntraced(hit.value.what, d, geo);
    }
  }

  lemma {:induction false} UpstreamInbound(s: Snapshot, ups: seq<Upstream>)
    ensures forall r :: r in UpstreamRules(s, ups) ==> r.inbound == Some(SocksIn) && r.target == DefaultTo(s)
  {
    if ups != [] {
      UpstreamInbound(s, ups[..|ups| - 1]);
    }
  }

  /** Traffic from the LAN never meets the system rules. */
  lemma SystemRulesIgnoreLan(s: Snapshot, ids: seq<string>, f: Flow, geo: Geo)
    requires f.inbound == TProxyIn
    ensures FirstMatch(SystemRules(s, ids), f, geo).None?
  {
    UpstreamInbound(s, s.upstreams);
    NoMatch(SystemRules(s, ids), f, geo);
  }

  /** Where the rendered list sends a LAN flow. */
  lemma LanFlowGoes(s: Snapshot, ids: seq<string>, f: Flow, geo: Geo)
    requires f.inbound == TProxyIn && NormalDest(f.dest) && forall r :: r in Actives(s) ==> NormalTag(r.what)
    ensures FirstMatch(AllRules(s, ids), f, geo) ==
      var hit := FirstTouched(Actives(s), f.dest, geo);
      Some(if hit.Some? then ActionTo(s, hit.value.action) else CatchAllTo(s))
  {
    var system, user, last := SystemRules(s, ids), UserRules(s, Actives(s)), [CatchAllRule(s)];
    SystemRulesIgnoreLan(s, ids, f, geo);
    FirstMatchAppend(system + user, last, f, geo);
    FirstMatchAppend(system, user, f, geo);
    UserRulesAgree(s, Actives(s), f, geo);
  }

  /** The action of the deciding rule is sent the same way; without a rule it
      is the default that counts. */
  predicate Carried(s: Snapshot, hit: Option<Rule>)
  {
    if hit.Some? then ActionSame(s, hit.value.action) else s.defaultToProxy ==> DefaultSame(s)
  }

  /** Whatever builds: the rendered list is decided by the first rule touching
      the flow. Unless that rule is read differently, the trace is decided by it
      too, and the tags agree exactly when its action is sent the same way. */
  lemma CompilationAgreesIff(s: Snapshot, ids: seq<string>, f: Flow, geo: Geo)
    requires UniqueIds(s.nodes) && f.inbound == TProxyIn && NormalDest(f.dest)
    requires forall r :: r in Actives(s) ==> NormalTag(r.what)
    ensures var hit := FirstTouched(Actives(s), f.dest, geo);
      && FirstMatch(AllRules(s, ids), f, geo) == Some(if hit.Some? then ActionTo(s, hit.value.action) else CatchAllTo(s))
      && (Trace.FirstRule(Actives(s), f.dest, geo) == hit <==> hit.None? || !Divergent(hit.value.what, f.dest))
      && (hit.None? || !Divergent(hit.value.what, f.dest) ==>
            (FirstMatch(AllRules(s, ids), f, geo).value.tag == Trace.Reported(s, f.dest, geo) <==> Carried(s, hit)))
  {
    LanFlowGoes(s, ids, f, geo);
    SameRuleDecidesIff(Actives(s), f.dest, geo);
    DefaultAgreesIff(s);
    var hit := FirstTouched(Actives(s), f.dest, geo);
    if hit.Some? {
      ActionAgreesIff(s, hit.value.action);
    }
  }

  /** Compilation preserves meaning: if every enabled node builds, a LAN flow
      goes where the trace reports, unless the first rule touching it is one of
      the two that are read differently. Later rules do not matter. */
  lemma CompilationPreservesMeaning(s: Snapshot, ids: seq<string>, f: Flow, geo: Geo)
    requires UniqueIds(s.nodes) && AllBuild(s)
    requires f.inbound == TProxyIn && NormalDest(f.dest)
    requires forall r :: r in Actives(s) ==> NormalTag(r.what)
    requires var hit := FirstTouched(Actives(s), f.dest, geo); hit.Some? ==> !Divergent(hit.value.what, f.dest)
    ensures FirstMatch(AllRules(s, ids), f, geo).Some?
    ensures FirstMatch(AllRules(s, ids), f, geo).value.tag == Trace.Reported(s, f.dest, geo)
  {
    CompilationAgreesIff(s, ids, f, geo);
    var hit := FirstTouched(Actives(s), f.dest, geo);
    AllBuildSame(s, if hit.Some? then hit.value.action else Proxy);
  }

  /** The rule asks about an address. */
  predicate AboutAddress(m: Match) { m.Ip? || m.GeoIp? }

  lemma {:induction false} SniffedFirst(rules: seq<Rule>, host: string, ip: Addr, geo: Geo)
    ensures var hit := Trace.FirstRule(rules, Sniffed(host, ip), geo);
      hit.None? || !AboutAddress(hit.value.what) ==> Trace.FirstRule(rules, ToHost(host), geo) == hit
  {
    if rules != [] {
      SniffedFirst(rules[1..], host, ip, geo);
    }
  }

  /** A flow with a sniffed name is decided by the rule that the trace of the
      name alone finds exactly when the first rule matching the flow is not
      about addresses; then it also goes where that trace says. */
  lemma SniffedAgreesIff(s: Snapshot, host: string, ip: Addr, geo: Geo)
    ensures var hit := Trace.FirstRule(Actives(s), Sniffed(host, ip), geo);
      && (Trace.FirstRule(Actives(s), ToHost(host), geo) == hit <==> hit.None? || !AboutAddress(hit.value.what))
      && (hit.None? || !AboutAddress(hit.value.what) ==>
            Trace.Reported(s, Sniffed(host, ip), geo) == Trace.Reported(s, ToHost(host), geo))
  {
    SniffedFirst(Actives(s), host, ip, geo);
  }

  lemma OneFirst(r: Rule, d: Dest, geo: Geo)
    ensures Trace.FirstRule([r], d, geo) == if Trace.RuleMatches(r.what, d, geo) then Some(r) else None
  {
    assert [r][1..] == [];
    assert Trace.FirstRule([], d, geo) == None;
  }

  lemma OnlyOne<T(!new)>(xs: seq<T>, keep: T -> bool)
    requires |xs| == 1 && keep(xs[0])
    ensures Filter(xs, keep) == xs
  {
    assert xs[..0] == [] && xs == [xs[0]];
    assert Filter(xs[..0], keep) == [];
  }

  /** An address rule that sends direct decides a flow to a sniffed name that
      no rule names and that the trace therefore sends to the proxy. */
  lemma SniffedCanDiffer(geo: Geo) returns (s: Snapshot)
    ensures Trace.Reported(s, Sniffed("a.example", 1), geo) == TagDirect
    ensures Trace.Reported(s, ToHost("a.example"), geo) == NodeTag("n")
  {
    var n := Node("n", Literal(2), true, true, true);
    var r := Rule("r", "set", Ip(Cidr4(Prefix(1, 32))), Direct, true);
    s := Snapshot(ModeA, None, [], false, true, [n], [], [RuleSet("set", true)], [r], [], [], []);
    assert s.ruleSets[0].enabled && s.ruleSets[0].id == r.setId;
    assert Active(s, s.rules[0]);
    var active := Actives(s);
    assert active == [r] by {
      assert s.rules[..0] == [] && s.rules == [r];
    }
    OnlyOne(s.nodes, IsOn);
    assert FirstFlagged([n]) == Some(n);
    assert DefaultNode(s) == Some(n);
    OneFirst(r, Sniffed("a.example", 1), geo);
    OneFirst(r, ToHost("a.example"), geo);
  }

  /** Every flow is decided in the first pass over the rules, so the fallback
      of matching again on resolved addresses never happens. */
  lemma EveryFlowIsDecided(s: Snapshot, ids: seq<string>, f: Flow, geo: Geo)
    ensures FirstMatch(AllRules(s, ids), f, geo).Some?
  {
    var head := SystemRules(s, ids) + UserRules(s, Actives(s));
    FirstMatchAppend(head, [CatchAllRule(s)], f, geo);
  }

  // --------------------------------------------------------- probe channel

  lemma {:induction false} ProbeRulesRoute(ids: seq<string>, n: nat, slot: nat, d: Dest, geo: Geo)
    requires n <= |ids|
    ensures FirstMatch(ProbeRules(ids)[n..], Flow(ProbeIn, Some(slot), d), geo) ==
      if n <= slot < |ids| then Some(Outbound(NodeTag(ids[slot]))) else None
    decreases |ids| - n
  {
    if n < |ids| {
      ProbeRulesRoute(ids, n + 1, slot, d, geo);
      assert ProbeRules(ids)[n..][1..] == ProbeRules(ids)[n + 1..];
    }
  }

  lemma ProbeSystem(s: Snapshot, ids: seq<string>, slot: nat, d: Dest, geo: Geo)
    ensures FirstMatch(SystemRules(s, ids), Flow(ProbeIn, Some(slot), d), geo) ==
      Some(if slot < |ids| then Outbound(NodeTag(ids[slot])) else Outbound(TagBlock))
  {
    var f := Flow(ProbeIn, Some(slot), d);
    var service, probes := ServiceRules(s), ProbeRules(ids);
    NoMatch(service, f, geo);
    ProbeRulesRoute(ids, 0, slot, d, geo);
    assert probes[0..] == probes;
    FirstMatchAppend(service, probes, f, geo);
    FirstMatchAppend(service + probes, [PROBE_NONE], f, geo);
    FirstMatchAppend(service + probes + [PROBE_NONE], UpstreamRules(s, s.upstreams), f, geo);
  }

  /** A probe account reaches the node of its slot, and an unassigned account
      is dropped. */
  lemma ProbeReachesItsNode(s: Snapshot, ids: seq<string>, slot: nat, d: Dest, geo: Geo)
    ensures FirstMatch(AllRules(s, ids), Flow(ProbeIn, Some(slot), d), geo) ==
      Some(if slot < |ids| then Outbound(NodeTag(ids[slot])) else Outbound(TagBlock))
  {
    var f := Flow(ProbeIn, Some(slot), d);
    ProbeSystem(s, ids, slot, d, geo);
    FirstMatchAppend(SystemRules(s, ids), UserRules(s, Actives(s)), f, geo);
    FirstMatchAppend(SystemRules(s, ids) + UserRules(s, Actives(s)), [CatchAllRule(s)], f, geo);
  }

  lemma ServiceFirst(s: Snapshot, ids: seq<string>, f: Flow, t: Target, geo: Geo)
    requires FirstMatch(ServiceRules(s), f, geo) == Some(t)
    ensures FirstMatch(AllRules(s, ids), f, geo) == Some(t)
  {
    var service := ServiceRules(s);
    var rest := ProbeRules(ids) + [PROBE_NONE] + UpstreamRules(s, s.upstreams) + UserRules(s, Actives(s)) + [CatchAllRule(s)];
    assert AllRules(s, ids) == service + rest;
    FirstMatchAppend(service, rest, f, geo);
  }

  /** The service flows: the API to itself, and in Mode B the resolver's queries
      to the DNS outbound. */
  lemma ServiceFlows(s: Snapshot, ids: seq<string>, user: Option<nat>, d: Dest, geo: Geo)
    ensures FirstMatch(AllRules(s, ids), Flow(ApiIn, user, d), geo) == Some(Outbound(TagApi))
    ensures s.mode == ModeB ==> FirstMatch(AllRules(s, ids), Flow(DnsIn, user, d), geo) == Some(Outbound(TagDnsOut))
  {
    ServiceFirst(s, ids, Flow(ApiIn, user, d), Outbound(TagApi), geo);
    if s.mode == ModeB {
      var service := ServiceRules(s);
      assert service[1..] == [service[1]];
      assert FirstMatch([service[1]], Flow(DnsIn, user, d), geo) == Some(Outbound(TagDnsOut));
      ServiceFirst(s, ids, Flow(DnsIn, user, d), Outbound(TagDnsOut), geo);
    }
  }

  lemma {:induction false} FoundTarget(s: Snapshot, rules: seq<XrayRule>, f: Flow, geo: Geo)
    ensures FirstMatch(rules, f, geo).Some? ==> exists r :: r in rules && FirstMatch(rules, f, geo).value == r.target
  {
    if rules != [] {
      FoundTarget(s, rules[1..], f, geo);
    }
  }

  lemma {:induction false} UpstreamMet(s: Snapshot, ups: seq<Upstream>, up: Upstream, f: Flow, geo: Geo)
    requires up in ups && f.inbound == SocksIn
    requires (up.PublicIp? && f.dest == ToIp(up.addr)) || (up.PublicName? && f.dest == ToHost(up.name))
    ensures FirstMatch(UpstreamRules(s, ups), f, geo) == Some(DefaultTo(s))
  {
    var front, last := ups[..|ups| - 1], ups[|ups| - 1];
    assert ups == front + [last];
    FirstMatchAppend(UpstreamRules(s, front), UpstreamRule(s, last), f, geo);
    UpstreamInbound(s, ups);
    if up in front {
      UpstreamMet(s, front, up, f, geo);
    } else {
      if up.PublicIp? {
        OnePrefix(Prefix(up.addr, 32), up.addr);
      }
      FoundTarget(s, UpstreamRules(s, front), f, geo);
      assert UpstreamRules(s, ups) == UpstreamRules(s, front) + UpstreamRule(s, last);
      assert UpstreamRule(s, last)[1..] == [];
    }
  }

  /** A query of the local resolver to one of its public upstreams leaves by the
      default outbound, before any rule of the user. */
  lemma UpstreamFlow(s: Snapshot, ids: seq<string>, up: Upstream, user: Option<nat>, d: Dest, geo: Geo)
    requires up in s.upstreams && ((up.PublicIp? && d == ToIp(up.addr)) || (up.PublicName? && d == ToHost(up.name)))
    ensures FirstMatch(AllRules(s, ids), Flow(SocksIn, user, d), geo) == Some(DefaultTo(s))
  {
    var f := Flow(SocksIn, user, d);
    var before := ServiceRules(s) + ProbeRules(ids) + [PROBE_NONE];
    NoMatch(before, f, geo);
    UpstreamMet(s, s.upstreams, up, f, geo);
    FirstMatchAppend(before, UpstreamRules(s, s.upstreams), f, geo);
    FirstMatchAppend(SystemRules(s, ids), UserRules(s, Actives(s)), f, geo);
    FirstMatchAppend(SystemRules(s, ids) + UserRules(s, Actives(s)), [CatchAllRule(s)], f, geo);
  }

  // ------------------------------------------------------------- closedness

  /** The target names something the configuration provides; the api tag is
      Xray's own. */
  ghost predicate Defined(cfg: Config, t: Target)
  {
    if t.Balancer? then t.tag in cfg.balancers else t.tag == TagApi || t.tag in cfg.outbounds
  }

  ghost predicate SelectorDefined(cfg: Config, x: Selector)
  {
    match x
    case Select(t) => t in cfg.outbounds
    case AllNodes => exists i :: 0 <= i < |cfg.outbounds| && cfg.outbounds[i].NodeTag?
  }

  ghost predicate BalancerDefined(cfg: Config, b: BalancerDef)
  {
    && |b.selectors| > 0
    && (forall i :: 0 <= i < |b.selectors| ==> SelectorDefined(cfg, b.selectors[i]))
    && (b.fallback.Some? ==> b.fallback.value in cfg.outbounds)
  }

  /** Every reference resolves, and no balancer is left unused. */
  ghost predicate Closed(cfg: Config)
  {
    && (forall i :: 0 <= i < |cfg.rules| ==> Defined(cfg, cfg.rules[i].target))
    && cfg.balancers.Keys == Targeted(cfg.rules)
    && (cfg.observed <==> cfg.balancers != map[])
    && (forall t :: t in cfg.balancers ==> BalancerDefined(cfg, cfg.balancers[t]))
  }

  lemma Provided(s: Snapshot, ids: seq<string>, id: string)
    ensures var out := ConfigOf(s, ids).outbounds;
      && (NodeTag(id) in out <==> id in LiveIds(s.nodes))
      && TagDirect in out && TagBlock in out
      && (s.mode == ModeB ==> TagDnsOut in out)
  {
    NodeOutboundsExact(s.nodes, NodeTag(id));
    assert NodeTag(id) !in FixedOutbounds(s);
    assert FixedOutbounds(s)[0] == TagDirect && FixedOutbounds(s)[1] == TagBlock;
    assert s.mode == ModeB ==> FixedOutbounds(s)[2] == TagDnsOut;
  }

  lemma SelectorsAreDefined(s: Snapshot, ids: seq<string>, g: Group)
    ensures forall i :: 0 <= i < |LiveOf(s, g)| ==> NodeTag(LiveOf(s, g)[i]) in ConfigOf(s, ids).outbounds
  {
    var members := LiveOf(s, g);
    forall i | 0 <= i < |members|
      ensures NodeTag(members[i]) in ConfigOf(s, ids).outbounds
    {
      assert members[i] in members;
      Provided(s, ids, members[i]);
    }
  }

  lemma GroupIsDefined(s: Snapshot, ids: seq<string>, g: Group)
    requires |LiveOf(s, g)| >= 2
    ensures BalancerDefined(ConfigOf(s, ids), GroupDef(s, g))
  {
    var def := GroupDef(s, g);
    SelectorsAreDefined(s, ids, g);
    if g.kind == Failover {
      assert SelectorDefined(ConfigOf(s, ids), def.selectors[0]);
    } else {
      var d := DefaultNode(s);
      Provided(s, ids, if d.Some? then d.value.id else "");
      assert def.selectors == SelectEach(LiveOf(s, g));
    }
  }

  /** The action falls back on the default target. */
  predicate FallsBack(s: Snapshot, a: Action)
  {
    match a
    case Proxy => true
    case ToNode(id) => !s.strictFailover && id !in LiveIds(s.nodes)
    case ToGroup(id) =>
      var g := FindGroup(s.groups, id);
      !s.strictFailover && (g.None? || |LiveOf(s, g.value)| == 0)
    case _ => false
  }

  /** Something is sent to the default target: what no rule decides, a remote
      upstream, or an active rule that can be compiled. */
  predicate UsesDefault(s: Snapshot)
  {
    || s.defaultToProxy
    || (exists i :: 0 <= i < |s.upstreams| && s.upstreams[i] != Private)
    || (exists r :: r in Actives(s) && Compile(r.what).Some? && FallsBack(s, r.action))
  }

  /** What a rule's target can be: a usable balancer, a node the renderer
      checked, the default target it did not check, or a fixed tag. */
  ghost predicate Expected(s: Snapshot, t: Target)
  {
    if t.Balancer? then Usable(s, t.tag)
    else
      (t == DefaultTo(s) && UsesDefault(s)) || t.tag in {TagDirect, TagBlock} || (t.tag.NodeTag? && t.tag.id in LiveIds(s.nodes))
  }

  /** A usable balancer, the block outbound or a live node. */
  ghost predicate Resolved(s: Snapshot, t: Target)
  {
    if t.Balancer? then Usable(s, t.tag) else t.tag == TagBlock || (t.tag.NodeTag? && t.tag.id in LiveIds(s.nodes))
  }

  lemma GroupTarget(s: Snapshot, id: string)
    ensures FallsBack(s, ToGroup(id)) || Resolved(s, GroupTo(s, id))
    ensures FallsBack(s, ToGroup(id)) ==> GroupTo(s, id) == DefaultTo(s)
  {
    if FindGroup(s.groups, id).Some? {
      var g := FindGroup(s.groups, id).value;
      assert |LiveOf(s, g)| == 1 ==> LiveOf(s, g)[0] in LiveOf(s, g);
    }
  }

  lemma OneTarget(s: Snapshot, r: Rule)
    requires r in Actives(s) && Compile(r.what).Some?
    ensures Expected(s, ActionTo(s, r.action))
    ensures FallsBack(s, r.action) ==> ActionTo(s, r.action) == DefaultTo(s)
  {
    assert FallsBack(s, r.action) ==> UsesDefault(s);
    if r.action.ToGroup? {
      GroupTarget(s, r.action.group);
    }
  }

  lemma {:induction false} UserTargets(s: Snapshot, rules: seq<Rule>)
    requires forall r :: r in rules ==> r in Actives(s)
    ensures forall r :: r in UserRules(s, rules) ==> Expected(s, r.target)
  {
    if rules != [] {
      var front, last := rules[..|rules| - 1], rules[|rules| - 1];
      assert rules == front + [last] && last in rules;
      UserTargets(s, front);
      if Compile(last.what).Some? {
        OneTarget(s, last);
      }
    }
  }

  lemma CatchAllTarget(s: Snapshot)
    ensures Expected(s, CatchAllTo(s))
  {
  }

  /** Rules only ever use balancers that are usable. */
  lemma TargetsAreUsable(s: Snapshot, ids: seq<string>, tag: Tag)
    requires tag in Targeted(AllRules(s, ids))
    ensures Usable(s, tag)
  {
    var rules := AllRules(s, ids);
    var i :| 0 <= i < |rules| && rules[i].target == Balancer(tag);
    UpstreamInbound(s, s.upstreams);
    UserTargets(s, Actives(s));
    CatchAllTarget(s);
    assert rules[i] in rules;
    assert forall r :: r in ProbeRules(ids) ==> !r.target.Balancer?;
    assert rules[i] in UpstreamRules(s, s.upstreams) || rules[i] in UserRules(s, Actives(s)) || rules[i] == CatchAllRule(s);
  }

  /** Some enabled node of this id has an outbound. */
  ghost predicate IsLive(s: Snapshot, id: string)
  {
    exists n :: n in s.nodes && n.enabled && n.builds && n.id == id
  }

  /** The selectors are the live members at these places of the list. */
  ghost predicate Selects(s: Snapshot, g: Group, selectors: seq<Selector>, at: seq<nat>)
  {
    && KeptAt(g.members, (m: string) => IsLive(s, m), at) && |selectors| == |at|
    && forall k :: 0 <= k < |at| ==> selectors[k] == Select(NodeTag(g.members[at[k]]))
  }

  /** The only live members up to place j are those at i and j. */
  ghost predicate FirstTwoLive(s: Snapshot, g: Group, i: int, j: int)
  {
    0 <= i < j < |g.members| && forall k :: 0 <= k <= j ==> (IsLive(s, g.members[k]) <==> k == i || k == j)
  }

  /** A failover group sends to its first live member and falls back on the
      second. */
  ghost predicate FailsOver(s: Snapshot, g: Group, b: BalancerDef)
  {
    exists i, j :: FirstTwoLive(s, g, i, j) &&
      b.selectors == [Select(NodeTag(g.members[i]))] && b.fallback == Some(NodeTag(g.members[j]))
  }

  /** A balanced group sends to its live members and falls back on the block
      outbound, on a live default that is no member, or on direct. */
  ghost predicate Balances(s: Snapshot, g: Group, b: BalancerDef)
  {
    && (exists at :: Selects(s, g, b.selectors, at) && |at| >= 2)
    && b.strategy == (if g.strategy == "" then "leastPing" else g.strategy)
    && (if s.strictFailover then b.fallback == Some(TagBlock)
        else
          var d := DefaultNode(s);
          b.fallback == Some(if d.Some? && d.value.builds && d.value.id !in g.members then NodeTag(d.value.id) else TagDirect))
  }

  lemma DefaultIsLiveIff(s: Snapshot, n: Node)
    requires UniqueIds(s.nodes) && n in s.nodes && n.enabled
    ensures n.id in LiveIds(s.nodes) <==> n.builds
  {
    if n.id in LiveIds(s.nodes) {
      var m :| m in s.nodes && m.enabled && m.builds && m.id == n.id;
      FindUnique(s.nodes, n);
      FindUnique(s.nodes, m);
    }
  }

  lemma LivePlaces(s: Snapshot, g: Group) returns (at: seq<nat>)
    ensures KeptAt(g.members, (m: string) => IsLive(s, m), at) && |LiveOf(s, g)| == |at|
    ensures forall k :: 0 <= k < |at| ==> at[k] < |g.members| && LiveOf(s, g)[k] == g.members[at[k]]
  {
    at := FilterPlaces(g.members, m => m in LiveIds(s.nodes));
    forall m
      ensures m in LiveIds(s.nodes) <==> IsLive(s, m)
    {
    }
  }

  lemma FailoverMeans(s: Snapshot, g: Group)
    requires |LiveOf(s, g)| >= 2 && g.kind == Failover
    ensures FailsOver(s, g, GroupDef(s, g))
  {
    var at := LivePlaces(s, g);
    var i, j := at[0], at[1];
    forall k | 0 <= k <= j
      ensures IsLive(s, g.members[k]) <==> k == i || k == j
    {
      if IsLive(s, g.members[k]) {
        var x :| 0 <= x < |at| && at[x] == k;
      }
    }
    assert FirstTwoLive(s, g, i, j);
  }

  lemma BalanceMeans(s: Snapshot, g: Group)
    requires UniqueIds(s.nodes) && |LiveOf(s, g)| >= 2 && g.kind == LoadBalance
    ensures Balances(s, g, GroupDef(s, g))
  {
    var at := LivePlaces(s, g);
    assert Selects(s, g, GroupDef(s, g).selectors, at);
    var d := DefaultNode(s);
    if d.Some? {
      DefaultIsLiveIff(s, d.value);
    }
  }

  /** What each rendered balancer does, told from the members of its group and
      the state of the nodes. */
  lemma BalancersMean(s: Snapshot, ids: seq<string>, tag: Tag)
    requires UniqueIds(s.nodes) && tag in ConfigOf(s, ids).balancers
    ensures var b := ConfigOf(s, ids).balancers[tag];
      if tag == TagAutoProxy then b == BalancerDef([AllNodes], "leastPing", None)
      else exists g :: g in s.groups && tag == GroupTag(g.id) && if g.kind == Failover then FailsOver(s, g, b) else Balances(s, g, b)
  {
    TargetsAreUsable(s, ids, tag);
    if tag.GroupTag? {
      var g := FindGroup(s.groups, tag.id).value;
      if g.kind == Failover {
        FailoverMeans(s, g);
      } else {
        BalanceMeans(s, g);
      }
    }
  }

  /** The balancers are sound whether or not every node builds. */
  lemma BalancersAreDefined(s: Snapshot, ids: seq<string>, tag: Tag)
    requires tag in ConfigOf(s, ids).balancers
    ensures BalancerDefined(ConfigOf(s, ids), ConfigOf(s, ids).balancers[tag])
  {
    var cfg := ConfigOf(s, ids);
    TargetsAreUsable(s, ids, tag);
    if tag == TagAutoProxy {
      var id :| id in LiveIds(s.nodes);
      Provided(s, ids, id);
      var i :| 0 <= i < |cfg.outbounds| && cfg.outbounds[i] == NodeTag(id);
      assert cfg.outbounds[i].NodeTag?;
    } else {
      GroupIsDefined(s, ids, FindGroup(s.groups, tag.id).value);
    }
  }

  lemma {:induction false} UpstreamUses(s: Snapshot, ups: seq<Upstream>)
    ensures UpstreamRules(s, ups) == [] <==> forall i :: 0 <= i < |ups| ==> ups[i] == Private
  {
    if ups != [] {
      UpstreamUses(s, ups[..|ups| - 1]);
      assert forall i :: 0 <= i < |ups| - 1 ==> ups[..|ups| - 1][i] == ups[i];
    }
  }

  lemma {:induction false} CompiledIsThere(s: Snapshot, rules: seq<Rule>, r: Rule)
    requires r in rules && Compile(r.what).Some?
    ensures Refers(UserRules(s, rules), ActionTo(s, r.action))
  {
    var front, last := rules[..|rules| - 1], rules[|rules| - 1];
    assert rules == front + [last];
    var t := ActionTo(s, r.action);
    RefersAppend(UserRules(s, front), CompileRule(s, last), t);
    if r == last {
      assert CompileRule(s, last)[0].target == t;
    } else {
      CompiledIsThere(s, front, r);
    }
  }

  /** What uses the default is in the rendered list. */
  lemma UseIsReferred(s: Snapshot, ids: seq<string>)
    requires UsesDefault(s)
    ensures Refers(AllRules(s, ids), DefaultTo(s))
  {
    var t, user := DefaultTo(s), UserRules(s, Actives(s));
    var before := ServiceRules(s) + ProbeRules(ids) + [PROBE_NONE];
    RefersAppend(before, UpstreamRules(s, s.upstreams), t);
    RefersAppend(SystemRules(s, ids), user, t);
    RefersAppend(SystemRules(s, ids) + user, [CatchAllRule(s)], t);
    if s.defaultToProxy {
      assert [CatchAllRule(s)][0].target == t;
    } else if exists i :: 0 <= i < |s.upstreams| && s.upstreams[i] != Private {
      UpstreamUses(s, s.upstreams);
      UpstreamInbound(s, s.upstreams);
      assert UpstreamRules(s, s.upstreams)[0] in UpstreamRules(s, s.upstreams);
      assert Refers(UpstreamRules(s, s.upstreams), t);
    } else {
      var r :| r in Actives(s) && Compile(r.what).Some? && FallsBack(s, r.action);
      OneTarget(s, r);
      CompiledIsThere(s, Actives(s), r);
    }
  }

  lemma UpstreamTargets(s: Snapshot)
    ensures forall r :: r in UpstreamRules(s, s.upstreams) ==> Expected(s, r.target)
  {
    UpstreamInbound(s, s.upstreams);
    UpstreamUses(s, s.upstreams);
    CatchAllTarget(s);
  }

  lemma SystemTargets(s: Snapshot, ids: seq<string>)
    requires forall j :: 0 <= j < |ids| ==> ids[j] in LiveIds(s.nodes)
    ensures forall r :: r in SystemRules(s, ids) ==>
      Expected(s, r.target) || r.target.tag == TagApi || (s.mode == ModeB && r.target.tag == TagDnsOut)
  {
    UpstreamTargets(s);
    forall r | r in ProbeRules(ids)
      ensures Expected(s, r.target)
    {
      var j :| 0 <= j < |ids| && ProbeRules(ids)[j] == r;
    }
  }

  /** The two references made without consulting the live tags: the node of
      each probe slot, and the default node if anything is sent to it. */
  ghost predicate UncheckedLive(s: Snapshot, ids: seq<string>)
  {
    && (forall j :: 0 <= j < |ids| ==> ids[j] in LiveIds(s.nodes))
    && (UsesDefault(s) && DefaultNode(s).Some? ==> DefaultNode(s).value.id in LiveIds(s.nodes))
  }

  lemma BalancerIsKept(cfg: Config, i: nat)
    requires i < |cfg.rules| && cfg.balancers.Keys == Targeted(cfg.rules)
    ensures cfg.rules[i].target.Balancer? ==> cfg.rules[i].target.tag in cfg.balancers
  {
    if cfg.rules[i].target.Balancer? {
      assert cfg.rules[i].target.tag in Targeted(cfg.rules);
    }
  }

  lemma ExpectedIsDefined(s: Snapshot, ids: seq<string>, t: Target)
    requires UncheckedLive(s, ids) && !t.Balancer?
    requires Expected(s, t) || t.tag == TagApi || (s.mode == ModeB && t.tag == TagDnsOut)
    ensures Defined(ConfigOf(s, ids), t)
  {
    Provided(s, ids, if t.tag.NodeTag? then t.tag.id else "");
  }

  lemma RuleDefined(s: Snapshot, ids: seq<string>, i: nat)
    requires UncheckedLive(s, ids) && i < |AllRules(s, ids)|
    ensures Defined(ConfigOf(s, ids), AllRules(s, ids)[i].target)
  {
    var r := AllRules(s, ids)[i];
    BalancerIsKept(ConfigOf(s, ids), i);
    if !r.target.Balancer? {
      var system, user := SystemRules(s, ids), UserRules(s, Actives(s));
      assert r in system || r in user || r == CatchAllRule(s);
      SystemTargets(s, ids);
      UserTargets(s, Actives(s));
      CatchAllTarget(s);
      ExpectedIsDefined(s, ids, r.target);
    }
  }

  lemma ProbeRuleAt(s: Snapshot, ids: seq<string>, j: nat)
    requires j < |ids|
    ensures Refers(AllRules(s, ids), Outbound(NodeTag(ids[j])))
  {
    var t := Outbound(NodeTag(ids[j]));
    var service, probes := ServiceRules(s), ProbeRules(ids);
    assert probes[j].target == t;
    RefersAppend(service, probes, t);
    RefersAppend(service + probes, [PROBE_NONE], t);
    RefersAppend(service + probes + [PROBE_NONE], UpstreamRules(s, s.upstreams), t);
    RefersAppend(SystemRules(s, ids), UserRules(s, Actives(s)), t);
    RefersAppend(SystemRules(s, ids) + UserRules(s, Actives(s)), [CatchAllRule(s)], t);
  }

  lemma ClosedMeansLive(s: Snapshot, ids: seq<string>)
    requires forall i :: 0 <= i < |AllRules(s, ids)| ==> Defined(ConfigOf(s, ids), AllRules(s, ids)[i].target)
    ensures UncheckedLive(s, ids)
  {
    forall j | 0 <= j < |ids|
      ensures ids[j] in LiveIds(s.nodes)
    {
      ProbeRuleAt(s, ids, j);
      Provided(s, ids, ids[j]);
    }
    if UsesDefault(s) && DefaultNode(s).Some? {
      UseIsReferred(s, ids);
      Provided(s, ids, DefaultNode(s).value.id);
    }
  }

  /** The configuration is closed exactly when the nodes holding probe slots
      build, and so does the default node if a rule sends to it. */
  lemma ClosedIff(s: Snapshot, ids: seq<string>)
    ensures Closed(ConfigOf(s, ids)) <==> UncheckedLive(s, ids)
  {
    var cfg := ConfigOf(s, ids);
    TargetedSome(cfg.rules);
    if UncheckedLive(s, ids) {
      forall i | 0 <= i < |cfg.rules|
        ensures Defined(cfg, cfg.rules[i].target)
      {
        RuleDefined(s, ids, i);
      }
      forall t | t in cfg.balancers
        ensures BalancerDefined(cfg, cfg.balancers[t])
      {
        BalancersAreDefined(s, ids, t);
      }
    }
    if Closed(cfg) {
      ClosedMeansLive(s, ids);
    }
  }

  lemma OneProbe(s: Snapshot)
    requires |s.nodes| == 1 && s.nodes[0].enabled
    ensures ProbeOrder(s, [s.nodes[0].id])
  {
    OnlyOne(s.nodes, IsOn);
    var ids := [s.nodes[0].id];
    assert IdsOf(Enabled(s)) == ids;
    assert multiset(ids) == multiset(IdsOf(Enabled(s))) && Sorted(ids, StringLeq);
  }

  /** An enabled node that does not build still gets a probe rule. */
  lemma UnbuiltNodeIsReferred() returns (s: Snapshot, ids: seq<string>)
    ensures ProbeOrder(s, ids) && UniqueIds(s.nodes) && |s.nodes| == 1
    ensures !Closed(ConfigOf(s, ids))
  {
    var n := Node("n", Literal(2), true, false, false);
    s := Snapshot(ModeA, None, [], false, false, [n], [], [], [], [], [], []);
    ids := ["n"];
    OneProbe(s);
    assert ids[0] !in LiveIds(s.nodes);
    ClosedIff(s, ids);
  }

  /** The ids behind the probe slots, before the cut. */
  lemma ProbeIds(s: Snapshot, ids: seq<string>) returns (all: seq<string>)
    requires ProbeOrder(s, ids)
    ensures |all| == |Enabled(s)| && forall id :: id in all <==> id in IdsOf(Enabled(s))
    ensures ids == if |all| > PROBE_SLOTS then all[..PROBE_SLOTS] else all
  {
    all :| multiset(all) == multiset(IdsOf(Enabled(s))) && Sorted(all, StringLeq) &&
      ids == if |all| > PROBE_SLOTS then all[..PROBE_SLOTS] else all;
    SameMembers(all, IdsOf(Enabled(s)));
  }

  lemma EnabledIds(s: Snapshot, id: string)
    ensures id in IdsOf(Enabled(s)) <==> exists n :: n in s.nodes && n.enabled && n.id == id
  {
    var on := Enabled(s);
    if id in IdsOf(on) {
      var i :| 0 <= i < |on| && IdsOf(on)[i] == id;
      assert on[i] in on && IsOn(on[i]);
    }
    if n :| n in s.nodes && n.enabled && n.id == id {
      assert n in on;
      var i :| 0 <= i < |on| && on[i] == n;
      assert IdsOf(on)[i] == id;
    }
  }

  lemma ProbesAreEnabled(s: Snapshot, ids: seq<string>, id: string)
    requires ProbeOrder(s, ids)
    ensures id in ids ==> exists n :: n in s.nodes && n.enabled && n.id == id
    ensures |Enabled(s)| <= PROBE_SLOTS && (exists n :: n in s.nodes && n.enabled && n.id == id) ==> id in ids
  {
    var all := ProbeIds(s, ids);
    EnabledIds(s, id);
    if id in ids {
      assert id in all;
    }
  }

  /** If every enabled node builds, every reference resolves. */
  lemma AllBuildCloses(s: Snapshot, ids: seq<string>)
    requires ProbeOrder(s, ids) && AllBuild(s)
    ensures Closed(ConfigOf(s, ids))
  {
    forall j | 0 <= j < |ids|
      ensures ids[j] in LiveIds(s.nodes)
    {
      assert ids[j] in ids;
      ProbesAreEnabled(s, ids, ids[j]);
    }
    ClosedIff(s, ids);
  }

  /** With no more enabled nodes than probe slots, the configuration is closed
      exactly when every enabled node builds. */
  lemma ClosedIffAllBuild(s: Snapshot, ids: seq<string>)
    requires ProbeOrder(s, ids) && UniqueIds(s.nodes) && |Enabled(s)| <= PROBE_SLOTS
    ensures Closed(ConfigOf(s, ids)) <==> AllBuild(s)
  {
    var cfg := ConfigOf(s, ids);
    if AllBuild(s) {
      AllBuildCloses(s, ids);
    }
    if Closed(cfg) {
      ClosedIff(s, ids);
      forall n | n in s.nodes && n.enabled
        ensures n.builds
      {
        ProbesAreEnabled(s, ids, n.id);
        var j :| 0 <= j < |ids| && ids[j] == n.id;
        var m :| m in s.nodes && m.enabled && m.builds && m.id == n.id;
        FindUnique(s.nodes, n);
        FindUnique(s.nodes, m);
      }
    }
  }
}
