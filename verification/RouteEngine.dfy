/** The route engine (`internal/routes/engine.go`): which IPv4 prefixes a
    desired state publishes over OSPF. */
module RouteEngine {
  import opened Ipv4
  import opened Model
  import opened Sorting
  import Domains
  import opened GeoEntry

  datatype Source = FakeIp | FromRule | FromGeo | FromDomain

  datatype Route = Route(prefix: Prefix, source: Source, ruleId: string)

  datatype Refusal =
    | DefaultRoute | Unspecified | Loopback | LinkLocal | MulticastOrReserved
    | PrivateOrReserved | PrivateSpace | Cgnat

  /** Why policy refused a candidate: the tests in the order they are made. */
  datatype Reason = Invalid(refusal: Refusal) | ContainsEndpoint(addr: Addr) | OutsideAllowlist

  datatype Rejection = Rejection(route: Route, reason: Reason)

  /** Geodata as the readers serve it: `None` is a tag that fails to decode. */
  datatype Cidr = V4(prefix: Prefix) | V6

  datatype Sources = Sources(
    geoip: Option<map<string, Option<seq<Cidr>>>>,
    geosite: Option<map<string, Option<seq<Entry>>>>)

  const MAX_GEOSITE_DOMAINS: nat := 2000

  datatype Result = Result(publish: seq<Route>, rejected: seq<Rejection>, domains: seq<string>)

  // ------------------------------------------------------------ validation

  function Octet0(a: Addr): nat { Shr(a, 24) }

  function Octet1(a: Addr): nat { Shr(a, 16) % 256 }

  function Validate(p: Prefix): Option<Refusal>
  {
    var a := p.addr;
    var b0, b1 := Octet0(a), Octet1(a);
    if p.bits == 0 then Some(DefaultRoute)
    else if a == 0 then Some(Unspecified)
    else if b0 == 127 then Some(Loopback)
    else if b0 == 169 && b1 == 254 then Some(LinkLocal)
    else if b0 >= 224 then Some(MulticastOrReserved)
    else if b0 == 10 || b0 == 0 then Some(PrivateOrReserved)
    else if b0 == 172 && 16 <= b1 <= 31 then Some(PrivateSpace)
    else if b0 == 192 && b1 == 168 then Some(PrivateSpace)
    else if b0 == 100 && 64 <= b1 <= 127 then Some(Cgnat)
    else None
  }

  /** Address space that must never be announced. */
  const RESERVED: seq<Prefix> := [
    Prefix(0x0000_0000, 8),   // this network
    Prefix(0x0A00_0000, 8),   // private
    Prefix(0x6440_0000, 10),  // carrier-grade NAT
    Prefix(0x7F00_0000, 8),   // loopback
    Prefix(0xA9FE_0000, 16),  // link-local
    Prefix(0xAC10_0000, 12),  // private
    Prefix(0xC0A8_0000, 16),  // private
    Prefix(0xE000_0000, 3)    // multicast and reserved
  ]

  predicate Reserved(a: Addr)
  {
    exists i :: 0 <= i < |RESERVED| && Contains(RESERVED[i], a)
  }

  predicate InBlock(w: nat, block: Prefix)
  {
    var v := block.addr / 65536;
    match block.bits
    case 3 => w / 8192 == v / 8192
    case 8 => w / 256 == v / 256
    case 10 => w / 64 == v / 64
    case 12 => w / 16 == v / 16
    case _ => w == v
  }

  lemma BlockByHalfWord(block: Prefix, a: Addr)
    requires block.bits in {3, 8, 10, 12, 16}
    ensures Contains(block, a) <==> InBlock(Shr(a, 16), block)
  {
    ShrDivides(block.addr);
    ShrDivides(a);
  }

  lemma ReservedByHalfWord(a: Addr)
    ensures Reserved(a) <==> exists i :: 0 <= i < |RESERVED| && InBlock(Shr(a, 16), RESERVED[i])
  {
    forall i | 0 <= i < |RESERVED|
      ensures Contains(RESERVED[i], a) <==> InBlock(Shr(a, 16), RESERVED[i])
    {
      BlockByHalfWord(RESERVED[i], a);
    }
  }

  lemma BlocksByOctets(w: nat)
    requires w < 65536
    ensures (exists i :: 0 <= i < |RESERVED| && InBlock(w, RESERVED[i])) <==>
      var b0, b1 := w / 256, w % 256;
      || b0 in {0, 10, 127} || b0 >= 224 || (b0 == 169 && b1 == 254)
      || (b0 == 172 && 16 <= b1 <= 31) || (b0 == 192 && b1 == 168) || (b0 == 100 && 64 <= b1 <= 127)
  {
    assert InBlock(w, RESERVED[0]) <==> w / 256 == 0;
    assert InBlock(w, RESERVED[1]) <==> w / 256 == 10;
    assert InBlock(w, RESERVED[2]) <==> w / 64 == 0x191;
    assert InBlock(w, RESERVED[3]) <==> w / 256 == 127;
    assert InBlock(w, RESERVED[4]) <==> w == 0xA9FE;
    assert InBlock(w, RESERVED[5]) <==> w / 16 == 0xAC1;
    assert InBlock(w, RESERVED[6]) <==> w == 0xC0A8;
    assert InBlock(w, RESERVED[7]) <==> w / 8192 == 7;
  }

  lemma OctetsOf(a: Addr)
    ensures Shr(a, 16) == a / 65536 < 65536
    ensures Octet0(a) == a / 65536 / 256 && Octet1(a) == a / 65536 % 256
  {
    ShrDivides(a);
  }

  /** The octet tests look at the network address only, and accept it exactly
      when it is outside every reserved block. */
  lemma ValidateReadsNetwork(p: Prefix)
    ensures Validate(p).None? <==> p.bits != 0 && !Reserved(p.addr)
  {
    ReservedByHalfWord(p.addr);
    OctetsOf(p.addr);
    BlocksByOctets(p.addr / 65536);
  }

  lemma HalfWordRange(a: Addr, k: nat, v: nat)
    requires k in {1, 16, 64, 256, 8192}
    ensures a / 65536 / k == v <==> v * k * 65536 <= a < (v + 1) * k * 65536
  {
    var w := a / 65536;
    assert w * 65536 <= a < (w + 1) * 65536;
  }

  lemma RangesByOctets(a: Addr)
    ensures var b0, b1 := a / 65536 / 256, a / 65536 % 256;
      && (b0 == 0 <==> a <= 0x00FF_FFFF) && (b0 == 10 <==> 0x0A00_0000 <= a <= 0x0AFF_FFFF)
      && (b0 == 127 <==> 0x7F00_0000 <= a <= 0x7FFF_FFFF) && (b0 >= 224 <==> 0xE000_0000 <= a)
      && (b0 == 169 && b1 == 254 <==> 0xA9FE_0000 <= a <= 0xA9FE_FFFF)
      && (b0 == 172 && 16 <= b1 <= 31 <==> 0xAC10_0000 <= a <= 0xAC1F_FFFF)
      && (b0 == 192 && b1 == 168 <==> 0xC0A8_0000 <= a <= 0xC0A8_FFFF)
      && (b0 == 100 && 64 <= b1 <= 127 <==> 0x6440_0000 <= a <= 0x647F_FFFF)
  {
    HalfWordRange(a, 1, 0xA9FE);
    HalfWordRange(a, 1, 0xC0A8);
    HalfWordRange(a, 16, 0xAC1);
    HalfWordRange(a, 64, 0x191);
    HalfWordRange(a, 256, 0);
    HalfWordRange(a, 256, 10);
    HalfWordRange(a, 256, 127);
    HalfWordRange(a, 8192, 7);
  }

  /** The blocks in plain numbers. */
  lemma ReservedRanges(a: Addr)
    ensures Reserved(a) <==>
      || a <= 0x00FF_FFFF || 0x0A00_0000 <= a <= 0x0AFF_FFFF || 0x6440_0000 <= a <= 0x647F_FFFF
      || 0x7F00_0000 <= a <= 0x7FFF_FFFF || 0xA9FE_0000 <= a <= 0xA9FE_FFFF || 0xAC10_0000 <= a <= 0xAC1F_FFFF
      || 0xC0A8_0000 <= a <= 0xC0A8_FFFF || 0xE000_0000 <= a
  {
    ReservedByHalfWord(a);
    ShrDivides(a);
    BlocksByOctets(Shr(a, 16));
    RangesByOctets(a);
  }

  /** A refusal names the block the network address is in. */
  lemma RefusalNamesBlock(p: Prefix)
    ensures Validate(p) == Some(DefaultRoute) <==> p.bits == 0
    ensures p.bits > 0 ==>
      var a := p.addr;
      && (Validate(p) == Some(Unspecified) <==> a == 0)
      && (Validate(p) == Some(PrivateOrReserved) <==> 0 < a <= 0x00FF_FFFF || 0x0A00_0000 <= a <= 0x0AFF_FFFF)
      && (Validate(p) == Some(Cgnat) <==> 0x6440_0000 <= a <= 0x647F_FFFF)
      && (Validate(p) == Some(Loopback) <==> 0x7F00_0000 <= a <= 0x7FFF_FFFF)
      && (Validate(p) == Some(LinkLocal) <==> 0xA9FE_0000 <= a <= 0xA9FE_FFFF)
      && (Validate(p) == Some(PrivateSpace) <==> 0xAC10_0000 <= a <= 0xAC1F_FFFF || 0xC0A8_0000 <= a <= 0xC0A8_FFFF)
      && (Validate(p) == Some(MulticastOrReserved) <==> 0xE000_0000 <= a)
  {
    OctetsOf(p.addr);
    RangesByOctets(p.addr);
  }

  /** Announcing p would also announce a whole reserved block. */
  predicate Swallows(p: Prefix)
  {
    exists i :: 0 <= i < |RESERVED| && Within(RESERVED[i], p)
  }

  ghost predicate Clean(p: Prefix)
  {
    forall a: Addr :: Contains(p, a) ==> !Reserved(a)
  }

  /** An accepted prefix covers no reserved address exactly when it is not the
      supernet of a reserved block. */
  lemma AcceptedIsCleanIffNoSwallow(p: Prefix)
    requires Validate(p).None?
    ensures Clean(p) <==> !Swallows(p)
  {
    ValidateReadsNetwork(p);
    forall i | 0 <= i < |RESERVED| && Within(RESERVED[i], p)
      ensures !Clean(p)
    {
      ContainsOwn(RESERVED[i]);
    }
    forall a: Addr | Contains(p, a) && Reserved(a)
      ensures Swallows(p)
    {
      var i :| 0 <= i < |RESERVED| && Contains(RESERVED[i], a);
      NestedOrDisjoint(p, RESERVED[i]);
    }
  }

  /** From /16 on, validation accepts exactly the prefixes without reserved
      addresses. */
  lemma ValidateExact(p: Prefix)
    requires p.bits >= 16
    ensures Validate(p).None? <==> Clean(p)
  {
    ValidateReadsNetwork(p);
    ContainsOwn(p);
    if Validate(p).None? {
      AcceptedIsCleanIffNoSwallow(p);
    }
  }

  lemma ShlOctet(x: nat)
    ensures Shl(x, 8) == 256 * x
  {
    assert Shl(x, 2) == 4 * x;
    assert Shl(x, 4) == 16 * x;
    assert Shl(x, 6) == 64 * x;
  }

  lemma ThreeOctets(x: nat)
    ensures Shl(x, 24) == 0x100_0000 * x
  {
    ShlOctet(x);
    ShlOctet(256 * x);
    ShlOctet(65536 * x);
    ShlAdd(x, 8, 8);
    ShlAdd(x, 16, 8);
  }

  /** Shorter prefixes can slip through: 172.0.0.0/8 swallows 172.16.0.0/12. */
  lemma ShortSupernetAccepted()
    ensures var p := Prefix(0xAC00_0000, 8);
      IsMasked(p) && Validate(p).None? && Swallows(p) && !Clean(p)
  {
    var p := Prefix(0xAC00_0000, 8);
    ShrDivides(0xAC00_0000);
    ShrDivides(0xAC10_0000);
    assert Shr(p.addr, 24) == 172;
    ThreeOctets(172);
    assert Within(RESERVED[5], p);
    AcceptedIsCleanIffNoSwallow(p);
  }

  // ------------------------------------------------------------ candidates

  predicate ProxyAction(a: Action) { a.Proxy? || a.ToNode? || a.ToGroup? }

  /** The domain to answers index; a later row for a name wins. */
  function ResolvedIndex(rows: seq<Resolved>): map<string, seq<Option<Addr>>>
  {
    if rows == [] then map[]
    else
      var last := rows[|rows| - 1];
      ResolvedIndex(rows[..|rows| - 1])[last.domain := last.ips]
  }

  datatype View = View(mode: Mode, resolved: map<string, seq<Option<Addr>>>, src: Sources)

  function ViewOf(s: Snapshot, src: Sources): View
  {
    View(s.mode, ResolvedIndex(s.resolved), src)
  }

  function CidrRoutes(cidrs: seq<Cidr>, ruleId: string): seq<Route>
  {
    if cidrs == [] then []
    else
      var c := cidrs[|cidrs| - 1];
      CidrRoutes(cidrs[..|cidrs| - 1], ruleId) +
      if c.V4? then [Route(Masked(c.prefix), FromGeo, ruleId)] else []
  }

  function AnswerRoutes(ips: seq<Option<Addr>>, ruleId: string): seq<Route>
  {
    if ips == [] then []
    else
      var ip := ips[|ips| - 1];
      AnswerRoutes(ips[..|ips| - 1], ruleId) +
      if ip.Some? then [Route(Masked(Prefix(ip.value, 32)), FromDomain, ruleId)] else []
  }

  function NameRoutes(name: string, v: View, ruleId: string): seq<Route>
  {
    if name in v.resolved then AnswerRoutes(v.resolved[name], ruleId) else []
  }

  function NamesRoutes(names: seq<string>, v: View, ruleId: string): seq<Route>
  {
    if names == [] then []
    else NamesRoutes(names[..|names| - 1], v, ruleId) + NameRoutes(names[|names| - 1], v, ruleId)
  }

  /** The tag's decoded list, unless it has none. */
  function TagCidrs(v: View, tag: string): Option<seq<Cidr>>
  {
    if v.src.geoip.Some? && tag in v.src.geoip.value then v.src.geoip.value[tag] else None
  }

  function TagEntries(v: View, tag: string): Option<seq<Entry>>
  {
    if v.src.geosite.Some? && tag in v.src.geosite.value then v.src.geosite.value[tag] else None
  }

  /** Names of the first MAX_GEOSITE_DOMAINS resolvable records, in order. */
  function TrackedNames(entries: seq<Entry>): (names: seq<string>)
    ensures |names| <= MAX_GEOSITE_DOMAINS
  {
    if entries == [] then []
    else
      var before := TrackedNames(entries[..|entries| - 1]);
      var e := entries[|entries| - 1];
      if Resolvable(e) && |before| < MAX_GEOSITE_DOMAINS then before + [e.value] else before
  }

  /** The names a rule makes the resolver follow. */
  function RuleNames(r: Rule, v: View): seq<string>
  {
    if !ProxyAction(r.action) || v.mode != ModeC then []
    else match r.what
      case Domain(pattern) =>
        var p := Domains.ParseDomain(pattern);
        if p.Ok? && !Domains.Wildcard(p.pattern) then [p.pattern.base] else []
      case Geosite(tag) =>
        if TagCidrs(v, tag).Some? then []
        else if TagEntries(v, tag).Some? then TrackedNames(TagEntries(v, tag).value) else []
      case _ => []
  }

  /** The prefixes a rule names by itself, without resolution. */
  function RuleCidrs(r: Rule, v: View): seq<Route>
  {
    if !ProxyAction(r.action) then []
    else match r.what
      case Ip(Cidr4(p)) => [Route(Masked(p), FromRule, r.id)]
      case Ip(Bare4(a)) => [Route(Masked(Prefix(a, 32)), FromRule, r.id)]
      case Ip(_) => []
      case GeoIp(tag) =>
        if tag == "private" || "!" <= tag || TagCidrs(v, tag).None? then []
        else CidrRoutes(TagCidrs(v, tag).value, r.id)
      case Geosite(tag) =>
        if v.mode == ModeC && TagCidrs(v, tag).Some? then CidrRoutes(TagCidrs(v, tag).value, r.id) else []
      case Domain(_) => []
  }

  function Offers(r: Rule, v: View): seq<Route>
  {
    RuleCidrs(r, v) + NamesRoutes(RuleNames(r, v), v, r.id)
  }

  function AllOffers(rules: seq<Rule>, v: View): seq<Route>
  {
    if rules == [] then []
    else AllOffers(rules[..|rules| - 1], v) + Offers(rules[|rules| - 1], v)
  }

  function PoolOffers(s: Snapshot): seq<Route>
  {
    if s.mode == ModeB && s.fakeIpPool.Some? then [Route(Masked(s.fakeIpPool.value), FakeIp, "")] else []
  }

  ghost predicate InList(cidrs: Option<seq<Cidr>>, p: Prefix)
  {
    cidrs.Some? && exists c :: c in cidrs.value && c.V4? && p == Masked(c.prefix)
  }

  ghost predicate Answered(v: View, name: string, p: Prefix)
  {
    name in v.resolved && p.bits == 32 && Some(p.addr) in v.resolved[name]
  }

  // ------------------------------------- the source's promise, on the snapshot

  /** Row i is the last one for the name. */
  ghost predicate LastFor(rows: seq<Resolved>, name: string, i: nat)
  {
    i < |rows| && rows[i].domain == name && forall j :: i < j < |rows| ==> rows[j].domain != name
  }

  ghost predicate RowAnswers(s: Snapshot, name: string, p: Prefix)
  {
    p.bits == 32 && exists i: nat :: LastFor(s.resolved, name, i) && Some(p.addr) in s.resolved[i].ips
  }

  /** A list of the tag decodes. */
  ghost predicate Decodes<T>(lists: Option<map<string, Option<T>>>, tag: string)
  {
    lists.Some? && tag in lists.value && lists.value[tag].Some?
  }

  ghost predicate IsConcrete(e: Entry) { e.kind == KindRoot || e.kind == KindFull }

  /** A record that names a host, with fewer than 2000 of its sort before. */
  ghost predicate Tracked(entries: seq<Entry>, name: string)
  {
    exists i :: 0 <= i < |entries| && IsConcrete(entries[i]) && entries[i].value == name &&
      |Filter(entries[..i], (e: Entry) => IsConcrete(e))| < 2000
  }

  /** The rule makes the resolver follow the name. */
  ghost predicate Follows(s: Snapshot, src: Sources, r: Rule, name: string)
  {
    !r.action.Direct? && !r.action.Block? && s.mode == ModeC &&
    match r.what
    case Domain(pattern) =>
      var parsed := Domains.ParseDomain(pattern);
      parsed.Ok? && parsed.pattern.kind == Domains.Full && parsed.pattern.base == name
    case Geosite(tag) =>
      !Decodes(src.geoip, tag) && Decodes(src.geosite, tag) && Tracked(src.geosite.value[tag].value, name)
    case _ => false
  }

  /** The rule itself, or a list it names, says the prefix. */
  ghost predicate Spells(s: Snapshot, src: Sources, r: Rule, p: Prefix)
  {
    !r.action.Direct? && !r.action.Block? &&
    match r.what
    case Ip(Cidr4(q)) => p == Masked(q)
    case Ip(Bare4(a)) => p == Prefix(a, 32)
    case GeoIp(tag) =>
      tag != "private" && !("!" <= tag) && Decodes(src.geoip, tag) && InList(src.geoip.value[tag], p)
    case Geosite(tag) => s.mode == ModeC && Decodes(src.geoip, tag) && InList(src.geoip.value[tag], p)
    case _ => false
  }

  /** What a rule contributes: what it spells out, and the answers for the names
      it follows. */
  ghost predicate Names(s: Snapshot, src: Sources, r: Rule, p: Prefix)
  {
    Spells(s, src, r, p) || exists name :: Follows(s, src, r, name) && RowAnswers(s, name, p)
  }

  ghost predicate InForce(s: Snapshot, r: Rule)
  {
    r in s.rules && r.enabled && exists x :: x in s.ruleSets && x.enabled && x.id == r.setId
  }

  lemma ActiveIsInForce(s: Snapshot, r: Rule)
    ensures r in Actives(s) <==> InForce(s, r)
  {
    if r in s.rules && Active(s, r) {
      var i :| 0 <= i < |s.ruleSets| && s.ruleSets[i].enabled && s.ruleSets[i].id == r.setId;
      assert s.ruleSets[i] in s.ruleSets;
    }
  }

  ghost predicate Has(routes: seq<Route>, p: Prefix)
  {
    exists r :: r in routes && r.prefix == p
  }

  lemma HasConcat(xs: seq<Route>, ys: seq<Route>, p: Prefix)
    ensures Has(xs + ys, p) <==> Has(xs, p) || Has(ys, p)
  {
    assert forall r :: r in xs + ys <==> r in xs || r in ys;
  }

  lemma HasOne(r: Route, p: Prefix)
    ensures Has([r], p) <==> r.prefix == p
  {
    assert r in [r];
  }

  /** Offered routes carry the rule's id, where they come from, and a masked
      prefix. */
  ghost predicate Tagged(routes: seq<Route>, ruleId: string, source: Source)
  {
    forall r :: r in routes ==> r.ruleId == ruleId && r.source == source && IsMasked(r.prefix)
  }

  lemma HostRouteMasked(a: Addr)
    ensures Masked(Prefix(a, 32)) == Prefix(a, 32)
  {
  }

  lemma {:induction false} CidrRoutesExact(cidrs: seq<Cidr>, ruleId: string, p: Prefix)
    ensures Has(CidrRoutes(cidrs, ruleId), p) <==> InList(Some(cidrs), p)
    ensures Tagged(CidrRoutes(cidrs, ruleId), ruleId, FromGeo)
  {
    if cidrs != [] {
      var front, c := cidrs[..|cidrs| - 1], cidrs[|cidrs| - 1];
      CidrRoutesExact(front, ruleId, p);
      assert cidrs == front + [c];
      if c.V4? {
        var r := Route(Masked(c.prefix), FromGeo, ruleId);
        HasConcat(CidrRoutes(front, ruleId), [r], p);
        HasOne(r, p);
      }
    }
  }

  lemma {:induction false} AnswerRoutesExact(ips: seq<Option<Addr>>, ruleId: string, p: Prefix)
    ensures Has(AnswerRoutes(ips, ruleId), p) <==> p.bits == 32 && Some(p.addr) in ips
    ensures Tagged(AnswerRoutes(ips, ruleId), ruleId, FromDomain)
  {
    if ips != [] {
      var front, ip := ips[..|ips| - 1], ips[|ips| - 1];
      AnswerRoutesExact(front, ruleId, p);
      assert ips == front + [ip];
      if ip.Some? {
        HostRouteMasked(ip.value);
        var r := Route(Prefix(ip.value, 32), FromDomain, ruleId);
        HasConcat(AnswerRoutes(front, ruleId), [r], p);
        HasOne(r, p);
      }
    }
  }

  lemma {:induction false} NamesRoutesExact(names: seq<string>, v: View, ruleId: string, p: Prefix)
    ensures Has(NamesRoutes(names, v, ruleId), p) <==> exists name :: name in names && Answered(v, name, p)
    ensures Tagged(NamesRoutes(names, v, ruleId), ruleId, FromDomain)
  {
    if names != [] {
      var front, name := names[..|names| - 1], names[|names| - 1];
      NamesRoutesExact(front, v, ruleId, p);
      assert names == front + [name];
      if name in v.resolved {
        AnswerRoutesExact(v.resolved[name], ruleId, p);
      }
      HasConcat(NamesRoutes(front, v, ruleId), NameRoutes(name, v, ruleId), p);
      assert Has(NameRoutes(name, v, ruleId), p) <==> Answered(v, name, p);
    }
  }

  lemma {:induction false} LastRowIndexed(rows: seq<Resolved>, name: string)
    ensures name in ResolvedIndex(rows) <==> exists i: nat :: LastFor(rows, name, i)
    ensures forall i: nat :: LastFor(rows, name, i) ==> name in ResolvedIndex(rows) && ResolvedIndex(rows)[name] == rows[i].ips
  {
    if rows != [] {
      var n := |rows| - 1;
      LastRowIndexed(rows[..n], name);
      if rows[n].domain == name {
        assert LastFor(rows, name, n);
      } else {
        assert forall i: nat :: i < n ==> (LastFor(rows[..n], name, i) <==> LastFor(rows, name, i));
        assert !LastFor(rows, name, n);
      }
    }
  }

  /** The index answers with the last row for a name. */
  lemma AnsweredByLastRow(s: Snapshot, src: Sources, name: string, p: Prefix)
    ensures Answered(ViewOf(s, src), name, p) <==> RowAnswers(s, name, p)
  {
    LastRowIndexed(s.resolved, name);
    if Answered(ViewOf(s, src), name, p) {
      var i: nat :| LastFor(s.resolved, name, i);
      assert Some(p.addr) in s.resolved[i].ips;
    }
  }

  lemma TrackedSnoc(front: seq<Entry>, last: Entry, name: string)
    ensures Tracked(front + [last], name) <==>
      (Tracked(front, name) || (IsConcrete(last) && last.value == name && |Filter(front, (e: Entry) => IsConcrete(e))| < 2000))
  {
    var es := front + [last];
    assert forall i :: 0 <= i <= |front| ==> es[..i] == front[..i];
    assert front[..|front|] == front && es[|front|] == last;
    assert forall i :: 0 <= i < |front| ==> es[i] == front[i];
  }

  /** The names followed for a list are the first 2000 it has. */
  lemma {:induction false} TrackedExact(entries: seq<Entry>, name: string)
    ensures name in TrackedNames(entries) <==> Tracked(entries, name)
    ensures var n := |Filter(entries, (e: Entry) => IsConcrete(e))|; |TrackedNames(entries)| == if n < 2000 then n else 2000
  {
    if entries != [] {
      var front, last := entries[..|entries| - 1], entries[|entries| - 1];
      assert entries == front + [last];
      TrackedExact(front, name);
      TrackedSnoc(front, last, name);
    }
  }

  lemma FollowsExact(s: Snapshot, src: Sources, r: Rule, name: string)
    ensures name in RuleNames(r, ViewOf(s, src)) <==> Follows(s, src, r, name)
  {
    if r.what.Geosite? && Decodes(src.geosite, r.what.tag) {
      TrackedExact(src.geosite.value[r.what.tag].value, name);
    }
  }

  lemma SpellsExact(s: Snapshot, src: Sources, r: Rule, p: Prefix)
    ensures Has(RuleCidrs(r, ViewOf(s, src)), p) <==> Spells(s, src, r, p)
    ensures Tagged(RuleCidrs(r, ViewOf(s, src)), r.id, if r.what.Ip? then FromRule else FromGeo)
  {
    match r.what
    case Ip(value) =>
      if value.Cidr4? {
        HasOne(Route(Masked(value.prefix), FromRule, r.id), p);
      } else if value.Bare4? {
        HostRouteMasked(value.addr);
        HasOne(Route(Prefix(value.addr, 32), FromRule, r.id), p);
      }
    case GeoIp(tag) =>
      if Decodes(src.geoip, tag) {
        CidrRoutesExact(src.geoip.value[tag].value, r.id, p);
      }
    case Geosite(tag) =>
      if Decodes(src.geoip, tag) {
        CidrRoutesExact(src.geoip.value[tag].value, r.id, p);
      }
    case Domain(pattern) =>
  }

  lemma FollowedRoutesExact(s: Snapshot, src: Sources, r: Rule, p: Prefix)
    ensures Has(NamesRoutes(RuleNames(r, ViewOf(s, src)), ViewOf(s, src), r.id), p) <==>
      exists name :: Follows(s, src, r, name) && RowAnswers(s, name, p)
  {
    var v := ViewOf(s, src);
    NamesRoutesExact(RuleNames(r, v), v, r.id, p);
    forall name
      ensures name in RuleNames(r, v) && Answered(v, name, p) <==> Follows(s, src, r, name) && RowAnswers(s, name, p)
    {
      FollowsExact(s, src, r, name);
      AnsweredByLastRow(s, src, name, p);
    }
  }

  /** A rule contributes exactly the prefixes it names. */
  lemma OffersExact(s: Snapshot, src: Sources, r: Rule, p: Prefix)
    ensures Has(Offers(r, ViewOf(s, src)), p) <==> Names(s, src, r, p)
  {
    var v := ViewOf(s, src);
    HasConcat(RuleCidrs(r, v), NamesRoutes(RuleNames(r, v), v, r.id), p);
    SpellsExact(s, src, r, p);
    FollowedRoutesExact(s, src, r, p);
  }

  ghost predicate SomeNames(s: Snapshot, src: Sources, rules: seq<Rule>, p: Prefix)
  {
    exists r :: r in rules && Names(s, src, r, p)
  }

  lemma {:induction false} AllOffersExact(s: Snapshot, src: Sources, rules: seq<Rule>, p: Prefix)
    ensures Has(AllOffers(rules, ViewOf(s, src)), p) <==> SomeNames(s, src, rules, p)
  {
    if rules != [] {
      var front, r := rules[..|rules| - 1], rules[|rules| - 1];
      AllOffersExact(s, src, front, p);
      OffersExact(s, src, r, p);
      assert forall q :: q in rules <==> q in front || q == r;
      HasConcat(AllOffers(front, ViewOf(s, src)), Offers(r, ViewOf(s, src)), p);
    }
  }

  /** The rule and the route fit: the id, the kind of source, and the prefix. */
  ghost predicate ComesFrom(s: Snapshot, src: Sources, o: Route, r: Rule)
  {
    && r.id == o.ruleId && IsMasked(o.prefix) && Names(s, src, r, o.prefix)
    && (match o.source
        case FakeIp => false
        case FromRule => r.what.Ip?
        case FromGeo => (r.what.GeoIp? || r.what.Geosite?) && Decodes(src.geoip, r.what.tag)
        case FromDomain => r.what.Domain? || (r.what.Geosite? && !Decodes(src.geoip, r.what.tag)))
  }

  lemma OfferTraceable(s: Snapshot, src: Sources, r: Rule, o: Route)
    requires o in Offers(r, ViewOf(s, src))
    ensures ComesFrom(s, src, o, r)
  {
    var v := ViewOf(s, src);
    OffersExact(s, src, r, o.prefix);
    SpellsExact(s, src, r, o.prefix);
    NamesRoutesExact(RuleNames(r, v), v, r.id, o.prefix);
    assert Has(Offers(r, v), o.prefix);
    if o in RuleCidrs(r, v) {
      assert Has(RuleCidrs(r, v), o.prefix);
    } else {
      assert Has(NamesRoutes(RuleNames(r, v), v, r.id), o.prefix);
      var name :| name in RuleNames(r, v) && Answered(v, name, o.prefix);
      FollowsExact(s, src, r, name);
    }
  }

  /** Every offered route is masked and carries the id of a rule naming it. */
  lemma {:induction false} AllOffersTraceable(s: Snapshot, src: Sources, rules: seq<Rule>, o: Route)
    requires o in AllOffers(rules, ViewOf(s, src))
    ensures exists r :: r in rules && ComesFrom(s, src, o, r)
  {
    var front, r := rules[..|rules| - 1], rules[|rules| - 1];
    if o in AllOffers(front, ViewOf(s, src)) {
      AllOffersTraceable(s, src, front, o);
      var q :| q in front && ComesFrom(s, src, o, q);
      assert q in rules;
    } else {
      OfferTraceable(s, src, r, o);
      assert r in rules;
    }
  }

  ghost predicate Candidate(s: Snapshot, src: Sources, p: Prefix)
  {
    || (s.mode == ModeB && s.fakeIpPool.Some? && p == Masked(s.fakeIpPool.value))
    || exists r :: InForce(s, r) && Names(s, src, r, p)
  }

  // ---------------------------------------------------------------- policy

  ghost predicate HostHas(s: Snapshot, h: Host, a: Addr)
  {
    match h
    case Literal(b) => a == b
    case Name(n) => exists i :: 0 <= i < |s.resolved| && s.resolved[i].domain == n && Some(a) in s.resolved[i].ips
  }

  /** Addresses of nodes and managed hosts, which traffic must reach directly. */
  ghost predicate Protected(s: Snapshot, a: Addr)
  {
    || (exists i :: 0 <= i < |s.nodes| && HostHas(s, s.nodes[i].host, a))
    || (exists i :: 0 <= i < |s.protectedHosts| && HostHas(s, s.protectedHosts[i], a))
  }

  /** The parsed, masked publish allow-list. */
  function Allowed(list: seq<IpValue>): (r: seq<Prefix>)
  {
    if list == [] then []
    else
      var v := list[|list| - 1];
      Allowed(list[..|list| - 1]) + if v.Cidr4? then [Masked(v.prefix)] else []
  }

  predicate InAllowlist(p: Prefix, allow: seq<Prefix>)
  {
    exists i :: 0 <= i < |allow| && Within(p, allow[i])
  }

  ghost predicate InSome(list: seq<IpValue>, p: Prefix)
  {
    exists q :: Cidr4(q) in list && Within(p, q)
  }

  /** The list as written: it does not count without an IPv4 prefix, and else
      the prefix must lie in one of these. */
  ghost predicate Permits(list: seq<IpValue>, p: Prefix)
  {
    (exists q :: Cidr4(q) in list) ==> InSome(list, p)
  }

  lemma InAllowlistSnoc(p: Prefix, allow: seq<Prefix>, q: Prefix)
    ensures InAllowlist(p, allow + [q]) <==> InAllowlist(p, allow) || Within(p, q)
  {
    var all := allow + [q];
    assert all[|allow|] == q && forall i :: 0 <= i < |allow| ==> all[i] == allow[i];
    if i :| 0 <= i < |allow| && Within(p, allow[i]) {
      assert Within(p, all[i]);
    }
  }

  lemma InSomeSnoc(front: seq<IpValue>, v: IpValue, p: Prefix)
    ensures InSome(front + [v], p) <==> InSome(front, p) || (v.Cidr4? && Within(p, v.prefix))
  {
    var list := front + [v];
    if q :| Cidr4(q) in list && Within(p, q) {
      assert Cidr4(q) in front || v == Cidr4(q);
    }
    if q :| Cidr4(q) in front && Within(p, q) {
      assert Cidr4(q) in list;
    }
    if v.Cidr4? {
      assert v == Cidr4(v.prefix) && v in list;
    }
  }

  lemma {:induction false} AllowedExact(list: seq<IpValue>, p: Prefix)
    ensures Allowed(list) == [] <==> forall q :: Cidr4(q) !in list
    ensures InAllowlist(p, Allowed(list)) <==> InSome(list, p)
  {
    if list != [] {
      var front, v := list[..|list| - 1], list[|list| - 1];
      assert list == front + [v];
      AllowedExact(front, p);
      InSomeSnoc(front, v, p);
      if v.Cidr4? {
        assert v == Cidr4(v.prefix) && v in list;
        InAllowlistSnoc(p, Allowed(front), Masked(v.prefix));
        assert Allowed(list) == Allowed(front) + [Masked(v.prefix)];
        assert Within(p, Masked(v.prefix)) <==> Within(p, v.prefix);
      } else {
        assert Allowed(list) == Allowed(front) + [] == Allowed(front);
      }
    }
  }

  ghost predicate HitsEndpoint(s: Snapshot, p: Prefix)
  {
    exists a: Addr :: Protected(s, a) && Contains(p, a)
  }

  ghost predicate Admissible(s: Snapshot, p: Prefix)
  {
    Validate(p).None? && !HitsEndpoint(s, p) && Permits(s.publishAllow, p)
  }

  /** The recorded reason is the first test the candidate fails. */
  ghost predicate Justified(s: Snapshot, rej: Rejection)
  {
    var p := rej.route.prefix;
    match rej.reason
    case Invalid(why) => Validate(p) == Some(why)
    case ContainsEndpoint(a) => Validate(p).None? && Protected(s, a) && Contains(p, a)
    case OutsideAllowlist => Validate(p).None? && !HitsEndpoint(s, p) && !Permits(s.publishAllow, p)
  }

  method HostAddrs(s: Snapshot, h: Host) returns (out: seq<Addr>)
    ensures forall a: Addr :: a in out <==> HostHas(s, h, a)
  {
    out := [];
    match h {
      case Literal(b) =>
        out := [b];
      case Name(n) =>
        for i := 0 to |s.resolved|
          invariant forall a: Addr :: a in out <==>
            exists k :: 0 <= k < i && s.resolved[k].domain == n && Some(a) in s.resolved[k].ips
        {
          if s.resolved[i].domain == n {
            var ips := s.resolved[i].ips;
            ghost var before := out;
            for j := 0 to |ips|
              invariant forall a: Addr :: a in out <==> a in before || Some(a) in ips[..j]
            {
              if ips[j].Some? {
                out := out + [ips[j].value];
              }
            }
            assert ips[..|ips|] == ips;
          }
        }
    }
  }

  method ProtectedPrefixes(s: Snapshot) returns (out: seq<Addr>)
    ensures forall a: Addr :: a in out <==> Protected(s, a)
  {
    out := [];
    for i := 0 to |s.nodes|
      invariant forall a: Addr :: a in out <==> exists k :: 0 <= k < i && HostHas(s, s.nodes[k].host, a)
    {
      var more := HostAddrs(s, s.nodes[i].host);
      out := out + more;
    }
    ghost var fromNodes := out;
    for i := 0 to |s.protectedHosts|
      invariant forall a: Addr :: a in out <==>
        (a in fromNodes || exists k :: 0 <= k < i && HostHas(s, s.protectedHosts[k], a))
    {
      var more := HostAddrs(s, s.protectedHosts[i]);
      out := out + more;
    }
  }

  method CoveredBy(p: Prefix, endpoints: seq<Addr>) returns (hit: Option<Addr>)
    ensures hit.Some? ==> hit.value in endpoints && Contains(p, hit.value)
    ensures hit.None? ==> forall a: Addr :: a in endpoints ==> !Contains(p, a)
  {
    for i := 0 to |endpoints|
      invariant forall k :: 0 <= k < i ==> !Contains(p, endpoints[k])
    {
      if Contains(p, endpoints[i]) {
        return Some(endpoints[i]);
      }
    }
    return None;
  }

  method Allowlist(list: seq<IpValue>) returns (out: seq<Prefix>)
    ensures out == Allowed(list)
  {
    out := [];
    for i := 0 to |list|
      invariant out == Allowed(list[..i])
    {
      assert list[..i + 1][..i] == list[..i];
      if list[i].Cidr4? {
        out := out + [Masked(list[i].prefix)];
      }
    }
    assert list[..|list|] == list;
  }

  // ----------------------------------------------------------------- prune

  predicate ByLength(x: Route, y: Route)
  {
    x.prefix.bits < y.prefix.bits || (x.prefix.bits == y.prefix.bits && x.prefix.addr <= y.prefix.addr)
  }

  predicate ByAddress(x: Route, y: Route)
  {
    x.prefix.addr < y.prefix.addr || (x.prefix.addr == y.prefix.addr && x.prefix.bits <= y.prefix.bits)
  }

  /** No published prefix lies in another, at any two places of the list. */
  ghost predicate Antichain(routes: seq<Route>)
  {
    forall i, j :: 0 <= i < |routes| && 0 <= j < |routes| && i != j ==>
      !Within(routes[i].prefix, routes[j].prefix)
  }

  ghost predicate AllMasked(routes: seq<Route>)
  {
    forall r :: r in routes ==> IsMasked(r.prefix)
  }

  ghost predicate Covers(routes: seq<Route>, p: Prefix)
  {
    exists r :: r in routes && Within(p, r.prefix)
  }

  /** Whole-list coverage of one address. */
  ghost predicate Reaches(routes: seq<Route>, a: Addr)
  {
    exists r :: r in routes && Contains(r.prefix, a)
  }

  /** p is offered and inside no other offered prefix. */
  ghost predicate Maximal(routes: seq<Route>, p: Prefix)
  {
    Has(routes, p) && forall r :: r in routes && Within(p, r.prefix) ==> r.prefix == p
  }

  method AnyCovers(out: seq<Route>, p: Prefix) returns (covered: bool)
    ensures covered <==> Covers(out, p)
  {
    for i := 0 to |out|
      invariant forall k :: 0 <= k < i ==> !Within(p, out[k].prefix)
    {
      if Within(p, out[i].prefix) {
        return true;
      }
    }
    return false;
  }

  /** Appending an uncovered route that is at least as long as all kept ones. */
  lemma PruneKeeps(out: seq<Route>, r: Route)
    requires Antichain(out) && AllMasked(out) && IsMasked(r.prefix)
    requires !Covers(out, r.prefix)
    requires forall o :: o in out ==> o.prefix.bits <= r.prefix.bits
    ensures Antichain(out + [r])
    ensures forall p: Prefix :: Covers(out, p) || Within(p, r.prefix) ==> Covers(out + [r], p)
  {
    var next := out + [r];
    forall i | 0 <= i < |out|
      ensures !Within(out[i].prefix, r.prefix) && !Within(r.prefix, out[i].prefix)
    {
      assert out[i] in out;
      if Within(out[i].prefix, r.prefix) {
        assert Within(r.prefix, out[i].prefix);
        assert false;
      }
    }
    forall p: Prefix | Covers(out, p) || Within(p, r.prefix)
      ensures Covers(next, p)
    {
      if Covers(out, p) {
        var o :| o in out && Within(p, o.prefix);
        assert o in next;
      } else {
        assert r in next;
      }
    }
  }

  lemma AntichainRearranged(xs: seq<Route>, ys: seq<Route>)
    requires multiset(xs) == multiset(ys) && Antichain(xs)
    ensures Antichain(ys)
  {
    SameMembers(xs, ys);
    assert Distinct(xs) by {
      forall i, j | 0 <= i < j < |xs|
        ensures xs[i] != xs[j]
      {
        ContainsOwn(xs[i].prefix);
      }
    }
    DistinctKept(xs, ys);
    forall i, j | 0 <= i < |ys| && 0 <= j < |ys| && i != j
      ensures !Within(ys[i].prefix, ys[j].prefix)
    {
      assert ys[i] in xs && ys[j] in xs;
      var k :| 0 <= k < |xs| && xs[k] == ys[i];
      var l :| 0 <= l < |xs| && xs[l] == ys[j];
      assert ys[i] != ys[j];
    }
  }

  method Prune(given: seq<Route>) returns (out: seq<Route>)
    requires AllMasked(given)
    ensures forall r :: r in out ==> r in given
    ensures forall r :: r in given ==> Covers(out, r.prefix)
    ensures Antichain(out)
    ensures Sorted(out, ByAddress)
  {
    var sorted := SortBy(given, ByLength);
    SameMembers(given, sorted);
    out := [];
    for i := 0 to |sorted|
      invariant forall r :: r in out ==> r in sorted[..i]
      invariant forall r :: r in sorted[..i] ==> Covers(out, r.prefix)
      invariant Antichain(out)
    {
      var r := sorted[i];
      var covered := AnyCovers(out, r.prefix);
      forall o | o in out
        ensures o.prefix.bits <= r.prefix.bits
      {
        assert o in sorted[..i];
      }
      assert sorted[..i + 1] == sorted[..i] + [r];
      if !covered {
        PruneKeeps(out, r);
        out := out + [r];
      }
    }
    assert sorted[..|sorted|] == sorted;
    ghost var kept := out;
    out := SortBy(out, ByAddress);
    SameMembers(kept, out);
    AntichainRearranged(kept, out);
    forall r | r in given
      ensures Covers(out, r.prefix)
    {
      assert Covers(kept, r.prefix);
    }
  }

  /** What pruning promises pins the result down: it is the set of
      inclusion-maximal prefixes, each once. */
  lemma PruneIsMaximal(given: seq<Route>, out: seq<Route>, p: Prefix)
    requires AllMasked(given) && Antichain(out)
    requires forall r :: r in out ==> r in given
    requires forall r :: r in given ==> Covers(out, r.prefix)
    ensures Has(out, p) <==> Maximal(given, p)
  {
    if Has(out, p) {
      var o :| o in out && o.prefix == p;
      forall r | r in given && Within(p, r.prefix)
        ensures r.prefix == p
      {
        assert Covers(out, r.prefix);
        var q :| q in out && Within(r.prefix, q.prefix);
        WithinTransitive(p, r.prefix, q.prefix);
        var i :| 0 <= i < |out| && out[i] == o;
        var j :| 0 <= j < |out| && out[j] == q;
        assert i == j;
        WithinAntisymmetric(p, r.prefix);
      }
    }
    if Maximal(given, p) {
      var r :| r in given && r.prefix == p;
      assert Covers(out, p);
      var o :| o in out && Within(p, o.prefix);
      assert o in given;
    }
  }

  /** Pruning loses no address and invents none. */
  lemma PruneKeepsUnion(given: seq<Route>, out: seq<Route>, a: Addr)
    requires forall r :: r in out ==> r in given
    requires forall r :: r in given ==> Covers(out, r.prefix)
    ensures Reaches(out, a) <==> Reaches(given, a)
  {
    if Reaches(given, a) {
      var r :| r in given && Contains(r.prefix, a);
      assert Covers(out, r.prefix);
      var o :| o in out && Within(r.prefix, o.prefix);
      WithinIffSubset(r.prefix, o.prefix);
    }
  }

  // --------------------------------------------------------------- compute

  method OfferCidrs(cands: seq<Route>, cidrs: seq<Cidr>, ruleId: string) returns (out: seq<Route>)
    ensures out == cands + CidrRoutes(cidrs, ruleId)
  {
    out := cands;
    for i := 0 to |cidrs|
      invariant out == cands + CidrRoutes(cidrs[..i], ruleId)
    {
      assert cidrs[..i + 1][..i] == cidrs[..i];
      if cidrs[i].V4? {
        out := out + [Route(Masked(cidrs[i].prefix), FromGeo, ruleId)];
      }
    }
    assert cidrs[..|cidrs|] == cidrs;
  }

  method OfferAnswers(cands: seq<Route>, name: string, v: View, ruleId: string) returns (out: seq<Route>)
    ensures out == cands + NameRoutes(name, v, ruleId)
  {
    out := cands;
    if name in v.resolved {
      var ips := v.resolved[name];
      for i := 0 to |ips|
        invariant out == cands + AnswerRoutes(ips[..i], ruleId)
      {
        assert ips[..i + 1][..i] == ips[..i];
        if ips[i].Some? {
          out := out + [Route(Masked(Prefix(ips[i].value, 32)), FromDomain, ruleId)];
        }
      }
      assert ips[..|ips|] == ips;
    }
  }

  lemma TrackedStep(entries: seq<Entry>, i: nat)
    requires i < |entries|
    ensures var before := TrackedNames(entries[..i]);
      TrackedNames(entries[..i + 1]) ==
        if Resolvable(entries[i]) && |before| < MAX_GEOSITE_DOMAINS then before + [entries[i].value] else before
  {
    assert entries[..i + 1][..i] == entries[..i];
  }

  lemma NamesRoutesSnoc(cands: seq<Route>, names: seq<string>, name: string, v: View, ruleId: string)
    ensures (cands + NamesRoutes(names, v, ruleId)) + NameRoutes(name, v, ruleId) ==
      cands + NamesRoutes(names + [name], v, ruleId)
  {
    assert (names + [name])[..|names|] == names;
  }

  /** Walk a geosite list, following at most MAX_GEOSITE_DOMAINS names. */
  method OfferEntries(cands: seq<Route>, entries: seq<Entry>, v: View, ruleId: string)
    returns (out: seq<Route>, names: seq<string>)
    ensures names == TrackedNames(entries)
    ensures out == cands + NamesRoutes(names, v, ruleId)
  {
    out, names := cands, [];
    for i := 0 to |entries|
      invariant names == TrackedNames(entries[..i])
      invariant out == cands + NamesRoutes(names, v, ruleId)
    {
      var e := entries[i];
      TrackedStep(entries, i);
      if Resolvable(e) && |names| < MAX_GEOSITE_DOMAINS {
        NamesRoutesSnoc(cands, names, e.value, v, ruleId);
        names := names + [e.value];
        out := OfferAnswers(out, e.value, v, ruleId);
      }
    }
    assert entries[..|entries|] == entries;
  }

  lemma Together(cands: seq<Route>, own: seq<Route>, named: seq<Route>)
    ensures (cands + own) + named == cands + (own + named)
    ensures own == [] ==> cands + own == cands
    ensures named == [] ==> (cands + own) + named == cands + own
  {
  }

  /** One rule of the candidate loop. */
  method OfferRule(cands: seq<Route>, r: Rule, v: View) returns (out: seq<Route>, names: seq<string>)
    ensures names == RuleNames(r, v)
    ensures out == cands + Offers(r, v)
  {
    out, names := cands, [];
    ghost var own: seq<Route> := [];
    if ProxyAction(r.action) {
      match r.what {
        case Ip(value) =>
          if value.Cidr4? {
            own := [Route(Masked(value.prefix), FromRule, r.id)];
            out := out + [Route(Masked(value.prefix), FromRule, r.id)];
          } else if value.Bare4? {
            own := [Route(Masked(Prefix(value.addr, 32)), FromRule, r.id)];
            out := out + [Route(Masked(Prefix(value.addr, 32)), FromRule, r.id)];
          }
        case GeoIp(tag) =>
          if tag != "private" && !("!" <= tag) && TagCidrs(v, tag).Some? {
            own := CidrRoutes(TagCidrs(v, tag).value, r.id);
            out := OfferCidrs(out, TagCidrs(v, tag).value, r.id);
          }
        case Domain(pattern) =>
          if v.mode == ModeC {
            var p := Domains.ParseDomain(pattern);
            if p.Ok? && !Domains.Wildcard(p.pattern) {
              names := [p.pattern.base];
              assert names[..0] == [];
              out := OfferAnswers(out, p.pattern.base, v, r.id);
            }
          }
        case Geosite(tag) =>
          if v.mode == ModeC {
            if TagCidrs(v, tag).Some? {
              own := CidrRoutes(TagCidrs(v, tag).value, r.id);
              out := OfferCidrs(out, TagCidrs(v, tag).value, r.id);
            } else if TagEntries(v, tag).Some? {
              out, names := OfferEntries(out, TagEntries(v, tag).value, v, r.id);
            }
          }
      }
    }
    assert own == RuleCidrs(r, v);
    Together(cands, own, NamesRoutes(names, v, r.id));
    assert out == cands + own + NamesRoutes(names, v, r.id);
  }

  function AllNames(rules: seq<Rule>, v: View): seq<string>
  {
    if rules == [] then []
    else AllNames(rules[..|rules| - 1], v) + RuleNames(rules[|rules| - 1], v)
  }

  lemma AllStep(rules: seq<Rule>, i: nat, v: View)
    requires i < |rules|
    ensures AllOffers(rules[..i + 1], v) == AllOffers(rules[..i], v) + Offers(rules[i], v)
    ensures AllNames(rules[..i + 1], v) == AllNames(rules[..i], v) + RuleNames(rules[i], v)
  {
    var upTo := rules[..i + 1];
    assert upTo[..|upTo| - 1] == rules[..i] && upTo[|upTo| - 1] == rules[i];
  }

  lemma AllStepFrom(pool: seq<Route>, rules: seq<Rule>, i: nat, v: View)
    requires i < |rules|
    ensures (pool + AllOffers(rules[..i], v)) + Offers(rules[i], v) == pool + AllOffers(rules[..i + 1], v)
    ensures AllNames(rules[..i + 1], v) == AllNames(rules[..i], v) + RuleNames(rules[i], v)
  {
    AllStep(rules, i, v);
  }

  lemma {:induction false} AllNamesExact(rules: seq<Rule>, v: View, name: string)
    ensures name in AllNames(rules, v) <==> exists r :: r in rules && name in RuleNames(r, v)
  {
    if rules != [] {
      var front, last := rules[..|rules| - 1], rules[|rules| - 1];
      AllNamesExact(front, v, name);
      assert forall q :: q in rules <==> q in front || q == last;
    }
  }

  lemma NamesStep(want: set<string>, names: seq<string>, all: seq<string>)
    requires forall n :: n in want <==> n in all
    ensures forall n :: n in want + (set n | n in names) <==> n in all + names
  {
  }

  /** The loop body: the state after i rules becomes the state after i + 1. */
  method OfferNext(cands: seq<Route>, want: set<string>, rules: seq<Rule>, i: nat, v: View, ghost pool: seq<Route>)
    returns (out: seq<Route>, wanted: set<string>)
    requires i < |rules|
    requires cands == pool + AllOffers(rules[..i], v)
    requires forall n :: n in want <==> n in AllNames(rules[..i], v)
    ensures out == pool + AllOffers(rules[..i + 1], v)
    ensures forall n :: n in wanted <==> n in AllNames(rules[..i + 1], v)
  {
    AllStepFrom(pool, rules, i, v);
    var names;
    out, names := OfferRule(cands, rules[i], v);
    wanted := want + set n | n in names;
    NamesStep(want, names, AllNames(rules[..i], v));
  }

  function Candidates(s: Snapshot, src: Sources): seq<Route>
  {
    PoolOffers(s) + AllOffers(Actives(s), ViewOf(s, src))
  }

  method BuildCandidates(s: Snapshot, src: Sources) returns (cands: seq<Route>, want: set<string>)
    requires s.mode != ModeA
    ensures cands == Candidates(s, src)
    ensures forall n :: n in want <==> n in AllNames(Actives(s), ViewOf(s, src))
  {
    var v := ViewOf(s, src);
    cands, want := PoolOffers(s), {};
    var rules := ActiveRules(s);
    for i := 0 to |rules|
      invariant cands == PoolOffers(s) + AllOffers(rules[..i], v)
      invariant forall n :: n in want <==> n in AllNames(rules[..i], v)
    {
      cands, want := OfferNext(cands, want, rules, i, v, PoolOffers(s));
    }
    assert rules[..|rules|] == rules;
  }

  method SetToSeq(s: set<string>) returns (r: seq<string>)
    ensures forall x :: x in r <==> x in s
    ensures Distinct(r)
  {
    r := [];
    var left := s;
    while left != {}
      invariant left <= s
      invariant forall x :: x in r <==> x in s && x !in left
      invariant Distinct(r)
    {
      var x :| x in left;
      r := r + [x];
      left := left - {x};
    }
  }

  method Judge(s: Snapshot, r: Route, endpoints: seq<Addr>, allow: seq<Prefix>) returns (why: Option<Reason>)
    requires forall a: Addr :: a in endpoints <==> Protected(s, a)
    requires allow == Allowed(s.publishAllow)
    ensures why.None? <==> Admissible(s, r.prefix)
    ensures why.Some? ==> Justified(s, Rejection(r, why.value))
  {
    var bad := Validate(r.prefix);
    if bad.Some? {
      return Some(Invalid(bad.value));
    }
    var hit := CoveredBy(r.prefix, endpoints);
    if hit.Some? {
      return Some(ContainsEndpoint(hit.value));
    }
    AllowedExact(s.publishAllow, r.prefix);
    if |allow| > 0 && !InAllowlist(r.prefix, allow) {
      return Some(OutsideAllowlist);
    }
    return None;
  }

  ghost predicate Refused(rejected: seq<Rejection>, r: Route)
  {
    exists rej :: rej in rejected && rej.route == r
  }

  lemma RefusedGrows(rejected: seq<Rejection>, rej: Rejection)
    ensures Refused(rejected + [rej], rej.route)
    ensures forall r :: Refused(rejected, r) ==> Refused(rejected + [rej], r)
  {
    assert rej in rejected + [rej];
    forall r | Refused(rejected, r)
      ensures Refused(rejected + [rej], r)
    {
      var q :| q in rejected && q.route == r;
      assert q in rejected + [rej];
    }
  }

  /** The policy pass over the candidates. */
  method Policy(s: Snapshot, cands: seq<Route>, endpoints: seq<Addr>, allow: seq<Prefix>)
    returns (ok: seq<Route>, rejected: seq<Rejection>)
    requires forall a: Addr :: a in endpoints <==> Protected(s, a)
    requires allow == Allowed(s.publishAllow)
    ensures forall r :: r in ok <==> r in cands && Admissible(s, r.prefix)
    ensures forall rej :: rej in rejected ==> rej.route in cands && Justified(s, rej)
    ensures forall r :: r in cands && r !in ok ==> Refused(rejected, r)
  {
    ok, rejected := [], [];
    for i := 0 to |cands|
      invariant forall r :: r in ok <==> r in cands[..i] && Admissible(s, r.prefix)
      invariant forall rej :: rej in rejected ==> rej.route in cands[..i] && Justified(s, rej)
      invariant forall r :: r in cands[..i] && r !in ok ==> Refused(rejected, r)
    {
      var r := cands[i];
      assert cands[..i + 1] == cands[..i] + [r];
      var verdict := Judge(s, r, endpoints, allow);
      if verdict.Some? {
        RefusedGrows(rejected, Rejection(r, verdict.value));
        rejected := rejected + [Rejection(r, verdict.value)];
      } else {
        ok := ok + [r];
      }
    }
    assert cands[..|cands|] == cands;
  }

  lemma CandidatesTraceable(s: Snapshot, src: Sources, o: Route)
    requires o in Candidates(s, src)
    ensures IsMasked(o.prefix)
  {
    if o in AllOffers(Actives(s), ViewOf(s, src)) {
      AllOffersTraceable(s, src, Actives(s), o);
    }
  }

  /** What one computation establishes, without naming its steps. */
  ghost predicate Computed(s: Snapshot, src: Sources, res: Result)
  {
    && (forall r :: r in res.publish ==> r in Candidates(s, src) && Admissible(s, r.prefix))
    && (forall r :: r in Candidates(s, src) && Admissible(s, r.prefix) ==> Covers(res.publish, r.prefix))
    && (forall r :: r in Candidates(s, src) && !Admissible(s, r.prefix) ==> Refused(res.rejected, r))
    && (forall rej :: rej in res.rejected ==> rej.route in Candidates(s, src) && Justified(s, rej))
    && Antichain(res.publish)
    && Sorted(res.publish, ByAddress)
    && (forall n :: n in res.domains <==> exists r :: InForce(s, r) && Follows(s, src, r, n))
    && Sorted(res.domains, StringLeq) && Distinct(res.domains)
  }

  lemma AllNamesFollowed(s: Snapshot, src: Sources, n: string)
    ensures n in AllNames(Actives(s), ViewOf(s, src)) <==> exists r :: InForce(s, r) && Follows(s, src, r, n)
  {
    AllNamesExact(Actives(s), ViewOf(s, src), n);
    forall r
      ensures r in Actives(s) && n in RuleNames(r, ViewOf(s, src)) <==> InForce(s, r) && Follows(s, src, r, n)
    {
      ActiveIsInForce(s, r);
      FollowsExact(s, src, r, n);
    }
  }

  method Compute(s: Snapshot, src: Sources) returns (res: Result)
    ensures s.mode == ModeA ==> res == Result([], [], [])
    ensures s.mode != ModeA ==> Computed(s, src, res)
  {
    if s.mode == ModeA {
      return Result([], [], []);
    }
    var endpoints := ProtectedPrefixes(s);
    var allow := Allowlist(s.publishAllow);
    var cands, want := BuildCandidates(s, src);
    var names := SetToSeq(want);
    forall n
      ensures n in names <==> exists r :: InForce(s, r) && Follows(s, src, r, n)
    {
      AllNamesFollowed(s, src, n);
    }
    StringLeqOrder();
    var domains := SortBy(names, StringLeq);
    SameMembers(names, domains);
    DistinctKept(names, domains);

    var ok, rejected := Policy(s, cands, endpoints, allow);
    forall r | r in ok
      ensures IsMasked(r.prefix)
    {
      CandidatesTraceable(s, src, r);
    }
    var publish := Prune(ok);
    res := Result(publish, rejected, domains);
  }

  // -------------------------------------------------- published address set

  lemma CandidatesExact(s: Snapshot, src: Sources, p: Prefix)
    ensures Has(Candidates(s, src), p) <==> Candidate(s, src, p)
  {
    AllOffersExact(s, src, Actives(s), p);
    HasConcat(PoolOffers(s), AllOffers(Actives(s), ViewOf(s, src)), p);
    if PoolOffers(s) != [] {
      HasOne(PoolOffers(s)[0], p);
    }
    forall r
      ensures r in Actives(s) <==> InForce(s, r)
    {
      ActiveIsInForce(s, r);
    }
  }

  /** An address is announced exactly when some offered prefix holding it is
      valid, free of endpoints and inside the allow-list. */
  lemma PublishedExactly(s: Snapshot, src: Sources, res: Result, a: Addr)
    requires Computed(s, src, res)
    ensures Reaches(res.publish, a) <==>
      exists p: Prefix :: Candidate(s, src, p) && Contains(p, a) && Admissible(s, p)
  {
    if Reaches(res.publish, a) {
      var r :| r in res.publish && Contains(r.prefix, a);
      CandidatesExact(s, src, r.prefix);
      assert Candidate(s, src, r.prefix);
    }
    forall p: Prefix | Candidate(s, src, p) && Contains(p, a) && Admissible(s, p)
      ensures Reaches(res.publish, a)
    {
      CandidatesExact(s, src, p);
      var r :| r in Candidates(s, src) && r.prefix == p;
      assert Covers(res.publish, p);
      var o :| o in res.publish && Within(p, o.prefix);
      WithinIffSubset(p, o.prefix);
    }
  }

  /** No address of a node or managed host, literal or resolved, is ever
      announced: the way to it cannot be attracted to the gateway. */
  lemma EndpointsNeverAnnounced(s: Snapshot, src: Sources, res: Result, h: Host, a: Addr)
    requires Computed(s, src, res)
    requires h in s.protectedHosts || exists n :: n in s.nodes && n.host == h
    requires h == Literal(a) || (h.Name? && exists row :: row in s.resolved && row.domain == h.name && Some(a) in row.ips)
    ensures !Reaches(res.publish, a)
  {
    if h.Name? {
      var row :| row in s.resolved && row.domain == h.name && Some(a) in row.ips;
      var k :| 0 <= k < |s.resolved| && s.resolved[k] == row;
    }
    assert HostHas(s, h, a);
    if h in s.protectedHosts {
      var i :| 0 <= i < |s.protectedHosts| && s.protectedHosts[i] == h;
    } else {
      var n :| n in s.nodes && n.host == h;
      var i :| 0 <= i < |s.nodes| && s.nodes[i] == n;
    }
    assert Protected(s, a);
    assert forall r :: r in res.publish && Contains(r.prefix, a) ==> HitsEndpoint(s, r.prefix);
  }

  /** Only such an address is ever a reason for a refusal. */
  lemma RefusedForEndpoint(s: Snapshot, rej: Rejection)
    requires Justified(s, rej) && rej.reason.ContainsEndpoint?
    ensures var a := rej.reason.addr;
      Contains(rej.route.prefix, a) && exists h: Host ::
        && (h in s.protectedHosts || exists n :: n in s.nodes && n.host == h)
        && (h == Literal(a) || (h.Name? && exists row :: row in s.resolved && row.domain == h.name && Some(a) in row.ips))
  {
    var a := rej.reason.addr;
    var h: Host;
    if i :| 0 <= i < |s.nodes| && HostHas(s, s.nodes[i].host, a) {
      h := s.nodes[i].host;
      assert s.nodes[i] in s.nodes;
    } else {
      var i :| 0 <= i < |s.protectedHosts| && HostHas(s, s.protectedHosts[i], a);
      h := s.protectedHosts[i];
    }
    if h.Name? {
      var k :| 0 <= k < |s.resolved| && s.resolved[k].domain == h.name && Some(a) in s.resolved[k].ips;
      assert s.resolved[k] in s.resolved;
    }
  }

  /** With an IPv4 prefix in the allow-list, every announced address lies in one
      of the list. */
  lemma AllowListBounds(s: Snapshot, src: Sources, res: Result, a: Addr)
    requires Computed(s, src, res) && Reaches(res.publish, a)
    requires exists q :: Cidr4(q) in s.publishAllow
    ensures exists q :: Cidr4(q) in s.publishAllow && Contains(q, a)
  {
    var r :| r in res.publish && Contains(r.prefix, a);
    assert Permits(s.publishAllow, r.prefix);
    var q :| Cidr4(q) in s.publishAllow && Within(r.prefix, q);
    WithinIffSubset(r.prefix, q);
  }

  /** A refusal for the list means it has an IPv4 prefix, and the candidate
      sticks out of each. */
  lemma RefusedForAllowList(s: Snapshot, rej: Rejection)
    requires Justified(s, rej) && rej.reason.OutsideAllowlist?
    ensures exists q :: Cidr4(q) in s.publishAllow
    ensures forall q :: Cidr4(q) in s.publishAllow ==> exists a: Addr :: Contains(rej.route.prefix, a) && !Contains(q, a)
  {
    forall q | Cidr4(q) in s.publishAllow
      ensures exists a: Addr :: Contains(rej.route.prefix, a) && !Contains(q, a)
    {
      WithinIffSubset(rej.route.prefix, q);
    }
  }

  /** A sorted list without nesting goes up by address. */
  lemma SortedAscends(routes: seq<Route>, i: nat, j: nat)
    requires Antichain(routes) && Sorted(routes, ByAddress) && i < j < |routes|
    ensures routes[i].prefix.addr < routes[j].prefix.addr
  {
    var p, q := routes[i].prefix, routes[j].prefix;
    assert ByAddress(routes[i], routes[j]) && !Within(q, p);
    if p.addr == q.addr {
      ContainsOwn(p);
      assert false;
    }
  }

  /** Reserved space is announced exactly when some candidate that passes the
      policy is the supernet of a reserved block. */
  lemma ReservedAnnouncedIff(s: Snapshot, src: Sources, res: Result)
    requires Computed(s, src, res)
    ensures (exists a: Addr :: Reserved(a) && Reaches(res.publish, a)) <==>
            (exists p: Prefix :: Candidate(s, src, p) && Admissible(s, p) && Swallows(p))
  {
    forall a: Addr | Reserved(a) && Reaches(res.publish, a)
      ensures exists p: Prefix :: Candidate(s, src, p) && Admissible(s, p) && Swallows(p)
    {
      var r :| r in res.publish && Contains(r.prefix, a);
      CandidatesExact(s, src, r.prefix);
      AcceptedIsCleanIffNoSwallow(r.prefix);
    }
    forall p: Prefix | Candidate(s, src, p) && Admissible(s, p) && Swallows(p)
      ensures exists a: Addr :: Reserved(a) && Reaches(res.publish, a)
    {
      AcceptedIsCleanIffNoSwallow(p);
      var a: Addr :| Contains(p, a) && Reserved(a);
      PublishedExactly(s, src, res, a);
    }
  }

  /** A name whose answers can be announced is a name being followed, and no
      other name is. */
  lemma AnsweredNamesAreFollowed(s: Snapshot, src: Sources, res: Result, r: Rule, p: Prefix)
    requires Computed(s, src, res) && InForce(s, r) && Names(s, src, r, p)
    ensures Spells(s, src, r, p) || exists name :: name in res.domains && RowAnswers(s, name, p)
  {
    if !Spells(s, src, r, p) {
      var name :| Follows(s, src, r, name) && RowAnswers(s, name, p);
      assert name in res.domains;
    }
  }
}
