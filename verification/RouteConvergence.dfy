/** The reconciler, the FRR driver it asks and the route driver behind that,
    together: when everything is quiet, kernel table 200 holds what the engine
    publishes for the latest generation, exactly when the last successful turn
    got to ask the route driver. */
module RouteConvergence {
  import opened Ipv4
  import opened Model
  import opened Sorting
  import RouteEngine
  import RouteDriver
  import FrrDriver
  import Protocol = Reconciler

  /** Which snapshots may be loaded at a generation. Their governed part is one
      and the same; the resolver's answers in them may differ. */
  type Loads = (nat, Snapshot) -> bool

  /** What is rendered for the FRR driver. */
  datatype Rendered = Rendered(mode: Mode, target: set<Prefix>)

  ghost predicate ResultOf(s: Snapshot, src: RouteEngine.Sources, res: RouteEngine.Result, r: Rendered)
  {
    && (if s.mode == ModeA then res == RouteEngine.Result([], [], []) else RouteEngine.Computed(s, src, res))
    && r == Rendered(s.mode, RouteDriver.Members(RouteDriver.Prefixes(res.publish)))
  }

  /** What the engine publishes for a snapshot. */
  ghost predicate Publishes(s: Snapshot, r: Rendered)
  {
    exists src: RouteEngine.Sources, res: RouteEngine.Result :: ResultOf(s, src, res, r)
  }

  ghost predicate Renders(loads: Loads, g: nat, r: Rendered)
  {
    exists s :: loads(g, s) && Publishes(s, r)
  }

  /** A successful turn of the FRR driver: what it was given, whether it asked
      the route driver, and the table it found. */
  datatype Good = Good(given: Rendered, asked: bool, found: set<Prefix>)

  /** The protocol, the table, what the pass in progress rendered, and the FRR
      driver's last turn, if that was a success. */
  datatype Joint = Joint(proto: Protocol.State, table: set<Prefix>, given: Rendered, good: Option<Good>)

  /** One event; loaded is what a successful load renders. If it is the FRR
      driver's turn: whether FRR is installed, whether the table could be
      listed, and what is done to it. */
  datatype Step = Step(event: Protocol.Event, loaded: Rendered, installed: bool, listed: bool, ops: seq<RouteDriver.Op>)

  /** It is the turn of the FRR driver, the one numbered frr. */
  predicate FrrTurn(j: Joint, st: Step, frr: nat)
  {
    (st.event.DriverOk? || st.event.DriverFails?) && j.proto.phase.Driving? && j.proto.phase.next == frr
  }

  ghost predicate Possible(j: Joint, st: Step, frr: nat, loads: Loads)
  {
    && Protocol.Enabled(j.proto, st.event)
    && (st.event.LoadOk? ==> Renders(loads, j.proto.gen, st.loaded))
    && (FrrTurn(j, st, frr) ==>
          FrrDriver.Turn(j.table, j.given.mode, j.given.target, st.event.DriverOk?, st.installed, st.listed, st.ops))
  }

  function After(j: Joint, st: Step, frr: nat): Joint
    requires Protocol.Enabled(j.proto, st.event)
  {
    var table := if FrrTurn(j, st, frr) then RouteDriver.Replay(j.table, st.ops) else j.table;
    var given := if st.event.LoadOk? then st.loaded else j.given;
    var good :=
      if !FrrTurn(j, st, frr) then j.good
      else if st.event.DriverFails? then None
      else Some(Good(j.given, FrrDriver.Asked(j.given.mode, st.installed, st.listed), j.table));
    Joint(Protocol.Next(j.proto, st.event), table, given, good)
  }

  /** The FRR driver's turn in a run is what its code does. */
  method FrrStep(d: FrrDriver.Driver, next: FrrDriver.Artifacts) returns (ok: bool, ghost st: Step)
    requires Distinct(next.routes)
    modifies d, d.routes, d.routes.kernel
    ensures st.event == if ok then Protocol.DriverOk else Protocol.DriverFails
    ensures st.installed == d.installed == old(d.installed)
    ensures FrrDriver.Turn(old(d.routes.kernel.table), next.mode, RouteDriver.Members(next.routes),
                           ok, st.installed, st.listed, st.ops)
    ensures d.routes.kernel.table == RouteDriver.Replay(old(d.routes.kernel.table), st.ops)
  {
    ghost var listed, seen, ops;
    ok, listed, seen, ops := d.Pass(next);
    st := Step(if ok then Protocol.DriverOk else Protocol.DriverFails, Rendered(next.mode, {}), d.installed, listed, ops);
  }

  ghost predicate Inv(j: Joint, frr: nat, loads: Loads)
  {
    var p := j.proto;
    && Protocol.Inv(p) && frr < |p.lastGood|
    && (j.good.Some? ==>
          var good := j.good.value;
          && Renders(loads, p.lastGood[frr], good.given)
          && j.table == if good.asked then good.given.target else good.found)
    && (p.phase.Driving? ==> Renders(loads, p.phase.loaded, j.given))
    && (p.phase.Driving? && !p.phase.failed && p.phase.next > frr ==> j.good.Some? && j.good.value.given == j.given)
    && (j.good.None? ==>
          || p.retry || (p.phase.Driving? && p.phase.failed)
          || p.loop == Protocol.Entering || p.loop == Protocol.InPass)
  }

  lemma FrrTurnKeeps(j: Joint, st: Step, frr: nat, loads: Loads)
    requires Inv(j, frr, loads) && Possible(j, st, frr, loads) && FrrTurn(j, st, frr)
    ensures Inv(After(j, st, frr), frr, loads)
  {
    Protocol.StepInv(j.proto, st.event);
  }

  lemma StepKeeps(j: Joint, st: Step, frr: nat, loads: Loads)
    requires Inv(j, frr, loads) && Possible(j, st, frr, loads)
    ensures Inv(After(j, st, frr), frr, loads)
  {
    if FrrTurn(j, st, frr) {
      FrrTurnKeeps(j, st, frr, loads);
    } else {
      Protocol.StepInv(j.proto, st.event);
    }
  }

  ghost predicate Legal(j: Joint, trace: seq<Step>, frr: nat, loads: Loads)
    decreases |trace|
  {
    trace == [] || (Possible(j, trace[0], frr, loads) && Legal(After(j, trace[0], frr), trace[1..], frr, loads))
  }

  ghost function End(j: Joint, trace: seq<Step>, frr: nat, loads: Loads): Joint
    requires Legal(j, trace, frr, loads)
    decreases |trace|
  {
    if trace == [] then j else End(After(j, trace[0], frr), trace[1..], frr, loads)
  }

  lemma {:induction false} RunKeeps(j: Joint, trace: seq<Step>, frr: nat, loads: Loads)
    requires Inv(j, frr, loads) && Legal(j, trace, frr, loads)
    ensures Inv(End(j, trace, frr, loads), frr, loads)
    decreases |trace|
  {
    if trace != [] {
      StepKeeps(j, trace[0], frr, loads);
      RunKeeps(After(j, trace[0], frr), trace[1..], frr, loads);
    }
  }

  /** A fresh process, with whatever table it found. */
  predicate Fresh(j: Joint, frr: nat)
  {
    Protocol.Init(j.proto) && j.good.None? && frr < |j.proto.lastGood|
  }

  /** In every quiet state of every run, whatever failed on the way, the latest
      generation counts as applied and was given to the FRR driver. The table
      is what the engine publishes for it exactly when the last turn asked the
      route driver or happened to find the table so. */
  lemma QuietTableIff(j: Joint, trace: seq<Step>, frr: nat, loads: Loads)
    requires Fresh(j, frr) && Legal(j, trace, frr, loads)
    ensures var e := End(j, trace, frr, loads);
      Protocol.Quiet(e.proto) ==>
        && e.proto.applied == e.proto.gen
        && e.good.Some? && Renders(loads, e.proto.gen, e.good.value.given)
        && (e.table == e.good.value.given.target <==> e.good.value.asked || e.good.value.found == e.good.value.given.target)
        && (!e.good.value.asked ==> e.table == e.good.value.found)
  {
    Protocol.InitInv(j.proto);
    RunKeeps(j, trace, frr, loads);
    var e := End(j, trace, frr, loads);
    if Protocol.Quiet(e.proto) {
      Protocol.QuietIsCurrent(e.proto);
    }
  }

  lemma {:induction false} InstalledIsAsked(j: Joint, trace: seq<Step>, frr: nat, loads: Loads)
    requires Legal(j, trace, frr, loads)
    requires j.good.Some? ==> j.good.value.asked
    requires forall i :: 0 <= i < |trace| ==> trace[i].installed
    ensures var e := End(j, trace, frr, loads); e.good.Some? ==> e.good.value.asked
    decreases |trace|
  {
    if trace != [] {
      assert trace[0].installed;
      InstalledIsAsked(After(j, trace[0], frr), trace[1..], frr, loads);
    }
  }

  /** With FRR installed throughout, a quiet state has the published routes. */
  lemma QuietTableIsPublished(j: Joint, trace: seq<Step>, frr: nat, loads: Loads)
    requires Fresh(j, frr) && Legal(j, trace, frr, loads)
    requires forall i :: 0 <= i < |trace| ==> trace[i].installed
    ensures var e := End(j, trace, frr, loads);
      Protocol.Quiet(e.proto) ==>
        exists r :: Renders(loads, e.proto.gen, r) && e.table == r.target
  {
    QuietTableIff(j, trace, frr, loads);
    InstalledIsAsked(j, trace, frr, loads);
  }

  /** What the desired state announces: in Mode B and C the addresses of the
      admissible candidates. */
  ghost predicate Announces(s: Snapshot, src: RouteEngine.Sources, a: Addr)
  {
    s.mode != ModeA &&
    exists p: Prefix :: RouteEngine.Candidate(s, src, p) && Contains(p, a) && RouteEngine.Admissible(s, p)
  }

  ghost predicate Covered(table: set<Prefix>, a: Addr)
  {
    exists p :: p in table && Contains(p, a)
  }

  lemma CoveredIffReached(routes: seq<RouteEngine.Route>, a: Addr)
    ensures Covered(RouteDriver.Members(RouteDriver.Prefixes(routes)), a) <==> RouteEngine.Reaches(routes, a)
  {
    var ps := RouteDriver.Prefixes(routes);
    if p :| p in ps && Contains(p, a) {
      var i :| 0 <= i < |ps| && ps[i] == p;
      assert routes[i] in routes;
    }
    if r :| r in routes && Contains(r.prefix, a) {
      var i :| 0 <= i < |routes| && routes[i] == r;
      assert ps[i] in ps;
    }
  }

  lemma TargetAnnounces(s: Snapshot, src: RouteEngine.Sources, res: RouteEngine.Result, r: Rendered, a: Addr)
    requires ResultOf(s, src, res, r)
    ensures Covered(r.target, a) <==> Announces(s, src, a)
  {
    CoveredIffReached(res.publish, a);
    if s.mode != ModeA {
      RouteEngine.PublishedExactly(s, src, res, a);
    }
  }

  /** Mode B with the pool 198.18.0.0/16 and nothing else. */
  const POOL: Prefix := Prefix(0xC612_0000, 16)

  const POOL_ONLY: Snapshot := Snapshot(ModeB, Some(POOL), [], false, false, [], [], [], [], [], [], [])

  /** From the desired state to the kernel: with FRR installed throughout, in a
      quiet state table 200 routes exactly the addresses that the latest
      generation announces, for some answers of the resolver. */
  lemma QuietTableAnnounces(j: Joint, trace: seq<Step>, frr: nat, loads: Loads)
    returns (s: Snapshot, src: RouteEngine.Sources)
    requires Fresh(j, frr) && Legal(j, trace, frr, loads)
    requires forall i :: 0 <= i < |trace| ==> trace[i].installed
    ensures var e := End(j, trace, frr, loads);
      Protocol.Quiet(e.proto) ==>
        loads(e.proto.gen, s) && forall a: Addr :: Covered(e.table, a) <==> Announces(s, src, a)
  {
    s, src := POOL_ONLY, RouteEngine.Sources(None, None);
    var e := End(j, trace, frr, loads);
    QuietTableIsPublished(j, trace, frr, loads);
    if Protocol.Quiet(e.proto) {
      var r :| Renders(loads, e.proto.gen, r) && e.table == r.target;
      s :| loads(e.proto.gen, s) && Publishes(s, r);
      var res;
      src, res :| ResultOf(s, src, res, r);
      forall a: Addr
        ensures Covered(e.table, a) <==> Announces(s, src, a)
      {
        TargetAnnounces(s, src, res, r, a);
      }
    }
  }

  // ----------------------------------------------------- FRR not installed

  lemma PoolMasked()
    ensures Masked(POOL) == POOL && RouteEngine.Validate(POOL).None?
  {
    ShrDivides(POOL.addr);
    RouteEngine.ShlOctet(0xC612);
    RouteEngine.ShlOctet(0xC6_1200);
    ShlAdd(0xC612, 8, 8);
    assert Shr(POOL.addr, 16) == 0xC612 && Shr(POOL.addr, 24) == 0xC6;
  }

  const POOL_ROUTE: RouteEngine.Route := RouteEngine.Route(POOL, RouteEngine.FakeIp, "")

  lemma PoolIsCandidate(src: RouteEngine.Sources)
    ensures RouteEngine.Candidates(POOL_ONLY, src) == [POOL_ROUTE]
    ensures RouteEngine.AllNames(Actives(POOL_ONLY), RouteEngine.ViewOf(POOL_ONLY, src)) == []
    ensures RouteEngine.Admissible(POOL_ONLY, POOL)
  {
    PoolMasked();
    assert Actives(POOL_ONLY) == [];
    assert RouteEngine.PoolOffers(POOL_ONLY) == [POOL_ROUTE];
    assert RouteEngine.AllOffers([], RouteEngine.ViewOf(POOL_ONLY, src)) == [];
    assert forall a: Addr :: !RouteEngine.Protected(POOL_ONLY, a);
  }

  /** Of one candidate that is covered, that one is published. */
  lemma OnlyOneToPublish(publish: seq<RouteEngine.Route>, route: RouteEngine.Route)
    requires forall r :: r in publish ==> r == route
    requires publish != []
    ensures RouteDriver.Members(RouteDriver.Prefixes(publish)) == {route.prefix}
  {
    var ps := RouteDriver.Prefixes(publish);
    forall k | 0 <= k < |ps|
      ensures ps[k] == route.prefix
    {
      assert publish[k] in publish;
    }
    assert ps[0] in ps;
  }

  lemma PoolPublish(src: RouteEngine.Sources, res: RouteEngine.Result)
    requires RouteEngine.Computed(POOL_ONLY, src, res)
    ensures RouteDriver.Members(RouteDriver.Prefixes(res.publish)) == {POOL}
  {
    PoolIsCandidate(src);
    assert POOL_ROUTE in RouteEngine.Candidates(POOL_ONLY, src);
    assert RouteEngine.Covers(res.publish, POOL);
    OnlyOneToPublish(res.publish, POOL_ROUTE);
  }

  lemma NoRuleInForce()
    ensures forall r :: !RouteEngine.InForce(POOL_ONLY, r)
  {
  }

  lemma PoolResult(src: RouteEngine.Sources)
    ensures RouteEngine.Computed(POOL_ONLY, src, RouteEngine.Result([POOL_ROUTE], [], []))
  {
    var res := RouteEngine.Result([POOL_ROUTE], [], []);
    PoolIsCandidate(src);
    NoRuleInForce();
    ContainsOwn(POOL);
    assert POOL_ROUTE in res.publish && RouteEngine.Covers(res.publish, POOL);
  }

  /** The engine publishes exactly the pool. */
  lemma PoolIsPublished(r: Rendered)
    ensures Publishes(POOL_ONLY, r) <==> r == Rendered(ModeB, {POOL})
  {
    if Publishes(POOL_ONLY, r) {
      var src, res :| ResultOf(POOL_ONLY, src, res, r);
      PoolPublish(src, res);
    }
    var src, res := RouteEngine.Sources(None, None), RouteEngine.Result([POOL_ROUTE], [], []);
    PoolResult(src);
    PoolPublish(src, res);
    assert ResultOf(POOL_ONLY, src, res, Rendered(ModeB, {POOL}));
  }

  lemma PoolIsRendered(loads: Loads, g: nat, r: Rendered)
    requires forall s :: loads(g, s) <==> s == POOL_ONLY
    ensures Renders(loads, g, r) <==> r == Rendered(ModeB, {POOL})
  {
    PoolIsPublished(r);
    assert loads(g, POOL_ONLY);
  }

  lemma RunCons(j: Joint, st: Step, rest: seq<Step>, frr: nat, loads: Loads)
    requires Possible(j, st, frr, loads) && Legal(After(j, st, frr), rest, frr, loads)
    ensures Legal(j, [st] + rest, frr, loads)
    ensures End(j, [st] + rest, frr, loads) == End(After(j, st, frr), rest, frr, loads)
  {
    assert ([st] + rest)[1..] == rest;
  }

  /** Whatever is rendered outside Mode A, without FRR there is a run in which
      nothing fails, nothing is left to do, and the table is as it was. */
  lemma SkippedRun(table: set<Prefix>, r: Rendered, loads: Loads) returns (j: Joint, trace: seq<Step>)
    requires r.mode != ModeA && Renders(loads, 1, r)
    ensures Fresh(j, 0) && j.table == table && Legal(j, trace, 0, loads)
    ensures var e := End(j, trace, 0, loads);
      Protocol.Quiet(e.proto) && e.proto.applied == e.proto.gen == 1 && e.table == table
  {
    var start := Protocol.State(1, {}, false, Protocol.Entering, Protocol.Free, Protocol.Idle, false, 0, 0, [0]);
    RouteDriver.EmptyPass(table, r.target);
    j := Joint(start, table, r, None);
    var s0 := Step(Protocol.Enter(false), r, false, false, []);
    var s1 := s0.(event := Protocol.LoadOk);
    var s2 := s0.(event := Protocol.DriverOk);
    var s3 := s0.(event := Protocol.Finish(true));
    var j1 := After(j, s0, 0);
    var j2 := After(j1, s1, 0);
    var j3 := After(j2, s2, 0);
    var j4 := After(j3, s3, 0);
    assert Legal(j4, [], 0, loads) && End(j4, [], 0, loads) == j4;
    RunCons(j3, s3, [], 0, loads);
    RunCons(j2, s2, [s3] + [], 0, loads);
    RunCons(j1, s1, [s2] + ([s3] + []), 0, loads);
    RunCons(j, s0, [s1] + ([s2] + ([s3] + [])), 0, loads);
    trace := [s0] + ([s1] + ([s2] + ([s3] + [])));
  }

  /** So it is with the pool: it is published on paper and the table stays
      empty. */
  lemma SkippedTurnIsQuiet() returns (j: Joint, trace: seq<Step>, loads: Loads)
    ensures loads == ((g, s) => s == POOL_ONLY)
    ensures Fresh(j, 0) && j.table == {} && Legal(j, trace, 0, loads)
    ensures var e := End(j, trace, 0, loads);
      && Protocol.Quiet(e.proto) && e.proto.applied == e.proto.gen && e.table == {}
      && forall r :: Renders(loads, e.proto.gen, r) ==> r.target == {POOL}
  {
    loads := (g, s) => s == POOL_ONLY;
    forall r
      ensures Renders(loads, 1, r) <==> r == Rendered(ModeB, {POOL})
    {
      PoolIsRendered(loads, 1, r);
    }
    j, trace := SkippedRun({}, Rendered(ModeB, {POOL}), loads);
  }
}
