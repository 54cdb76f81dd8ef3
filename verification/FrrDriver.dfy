/** The FRR driver (`internal/driver/frr/frr.go`), the one the reconciler asks:
    it keeps FRR's files and unit in line with the rendered configuration and
    passes the routes on to the route driver, unless it has nothing to do with
    them. */
module FrrDriver {
  import opened Ipv4
  import opened Model
  import opened Sorting
  import Routes = RouteDriver

  /** What the daemon reads when it starts: frr.conf, if there is one, and
      whether the daemons file has ospfd. */
  datatype Files = Files(conf: Option<string>, ospf: bool)

  /** The files, and what the unit read when it was last started, if it is
      active. */
  datatype Service = Service(files: Files, unit: Option<Files>)

  /** Steps of a plan; entries that only inform are left out. */
  datatype Action = WriteConf | WriteDaemons | StartUnit | RestartUnit | StopUnit | PushRoutes

  datatype Artifacts = Artifacts(mode: Mode, conf: string, routes: seq<Prefix>)

  datatype Plan = Plan(actions: seq<Action>, routes: Routes.Plan)

  // ------------------------------------------------------------ the service

  function Do(v: Service, a: Action, conf: string): Service
  {
    match a
    case WriteConf => v.(files := v.files.(conf := Some(conf)))
    case WriteDaemons => v.(files := v.files.(ospf := true))
    case StartUnit | RestartUnit => v.(unit := Some(v.files))
    case StopUnit => v.(unit := None)
    case PushRoutes => v
  }

  function DoAll(v: Service, actions: seq<Action>, conf: string): Service
  {
    if actions == [] then v else Do(DoAll(v, actions[..|actions| - 1], conf), actions[|actions| - 1], conf)
  }

  lemma DoNext(v: Service, actions: seq<Action>, i: nat, conf: string)
    requires i < |actions|
    ensures DoAll(v, actions[..i + 1], conf) == Do(DoAll(v, actions[..i], conf), actions[i], conf)
  {
    assert actions[..i + 1][..i] == actions[..i];
  }

  lemma {:induction false} DoAppend(v: Service, xs: seq<Action>, ys: seq<Action>, conf: string)
    ensures DoAll(v, xs + ys, conf) == DoAll(DoAll(v, xs, conf), ys, conf)
  {
    if ys == [] {
      assert xs + ys == xs;
    } else {
      DoAppend(v, xs, ys[..|ys| - 1], conf);
      assert (xs + ys)[..|xs + ys| - 1] == xs + ys[..|ys| - 1];
    }
  }

  /** A failed write leaves the old file. A request to systemd that fails may
      leave the unit as it was, down, or, unless it was to stop, started after
      all. */
  predicate Missed(v: Service, a: Action, w: Service)
  {
    || w == v
    || (a in {StartUnit, RestartUnit, StopUnit} && w == v.(unit := None))
    || (a in {StartUnit, RestartUnit} && w == v.(unit := Some(v.files)))
  }

  /** The first n actions were carried out and the next one, if there is one,
      failed. */
  ghost predicate CutAt(v: Service, actions: seq<Action>, n: nat, conf: string, w: Service)
  {
    && n <= |actions|
    && (if n < |actions| then Missed(DoAll(v, actions[..n], conf), actions[n], w) else w == DoAll(v, actions, conf))
  }

  function Wanted(conf: string): Files { Files(Some(conf), true) }

  function FileSteps(v: Service, conf: string): seq<Action>
  {
    (if v.files.conf != Some(conf) then [WriteConf] else []) + if !v.files.ospf then [WriteDaemons] else []
  }

  function UnitSteps(v: Service, conf: string): seq<Action>
  {
    if v.unit.None? then [StartUnit] else if FileSteps(v, conf) != [] then [RestartUnit] else []
  }

  function Push(plan: Routes.Plan): seq<Action>
  {
    if Routes.Changes(plan) then [PushRoutes] else []
  }

  /** What is planned. In Mode A the unit is stopped if it is seen to be
      active; a state that cannot be read is taken for inactive. */
  ghost predicate Planned(v: Service, installed: bool, seen: bool, next: Artifacts, plan: Plan)
  {
    if next.mode == ModeA then
      plan.actions == Push(plan.routes) + if installed && seen && v.unit.Some? then [StopUnit] else []
    else
      plan.actions == if installed then FileSteps(v, next.conf) + UnitSteps(v, next.conf) + Push(plan.routes) else []
  }

  lemma FilesWritten(v: Service, conf: string)
    ensures var w := DoAll(v, FileSteps(v, conf), conf); w.files == Wanted(conf) && w.unit == v.unit
    ensures FileSteps(v, conf) == [] <==> v.files == Wanted(conf)
  {
    assert [WriteConf, WriteDaemons][..1] == [WriteConf];
    assert DoAll(v, [], conf) == v;
    assert DoAll(v, [WriteConf], conf) == Do(v, WriteConf, conf);
    assert [WriteConf] + [WriteDaemons] == [WriteConf, WriteDaemons];
  }

  /** The files as wanted and the unit active. What it runs is what was rendered
      exactly when something had to be written, the unit was down, or it ran
      that before. */
  ghost predicate ServedBy(v: Service, conf: string, w: Service)
  {
    && w.files.conf == Some(conf) && w.files.ospf && w.unit.Some?
    && (w.unit == Some(w.files) <==> v.files != w.files || v.unit.None? || v.unit == Some(w.files))
  }

  /** With FRR in use, this is what a complete plan comes to. */
  lemma ServiceIsCurrentIff(v: Service, conf: string, push: seq<Action>)
    requires push == [] || push == [PushRoutes]
    ensures ServedBy(v, conf, DoAll(v, FileSteps(v, conf) + UnitSteps(v, conf) + push, conf))
  {
    var files, unit := FileSteps(v, conf), UnitSteps(v, conf);
    FilesWritten(v, conf);
    DoAppend(v, files, unit, conf);
    DoAppend(v, files + unit, push, conf);
    if unit != [] {
      assert DoAll(DoAll(v, files, conf), unit[..0], conf) == DoAll(v, files, conf);
    }
    if push != [] {
      assert DoAll(DoAll(v, files + unit, conf), push[..0], conf) == DoAll(v, files + unit, conf);
    }
  }

  /** A restart that fails and leaves the unit running is forgotten: the files
      are as wanted, so the next pass has nothing to do and the old
      configuration stays in force. */
  lemma FailedRestartIsForgotten(prior: string, conf: string) returns (v: Service, w: Service)
    requires prior != conf
    ensures v == Service(Wanted(prior), Some(Wanted(prior)))
    ensures FileSteps(v, conf) + UnitSteps(v, conf) == [WriteConf, RestartUnit]
    ensures CutAt(v, [WriteConf, RestartUnit], 1, conf, w)
    ensures FileSteps(w, conf) + UnitSteps(w, conf) == [] && w.unit == Some(Wanted(prior))
  {
    v := Service(Wanted(prior), Some(Wanted(prior)));
    w := Service(Wanted(conf), Some(Wanted(prior)));
    assert [WriteConf, RestartUnit][..1] == [WriteConf];
    assert DoAll(v, [], conf) == v;
    assert DoAll(v, [WriteConf], conf) == Do(v, WriteConf, conf);
  }

  // ------------------------------------------------------------- the routes

  /** The route driver gets to compare the table. Without FRR that takes Mode A
      and a table that can be listed. */
  predicate Asked(mode: Mode, installed: bool, listed: bool)
  {
    installed || (mode == ModeA && listed)
  }

  /** What one pass may do to the table. If the route driver is asked, it makes
      a pass of its own and success means the target; if not, the pass succeeds
      and the table stays. */
  ghost predicate Turn(table: set<Prefix>, mode: Mode, target: set<Prefix>,
                       ok: bool, installed: bool, listed: bool, ops: seq<Routes.Op>)
  {
    && Routes.IsPass(table, target, ops)
    && (if Asked(mode, installed, listed) then ok ==> Routes.Replay(table, ops) == target else ok && ops == [])
  }

  // ----------------------------------------------------------------- driver

  lemma ServedOnSuccess(v: Service, installed: bool, seen: bool, next: Artifacts, plan: Plan)
    requires Planned(v, installed, seen, next, plan)
    ensures var w := DoAll(v, plan.actions, next.conf);
      if !installed then w == v
      else if next.mode == ModeA then w == if seen then v.(unit := None) else v
      else ServedBy(v, next.conf, w)
  {
    var push := Push(plan.routes);
    if next.mode == ModeA {
      DoAppend(v, push, [StopUnit], next.conf);
      assert push + [] == push;
      assert [StopUnit][..0] == [] && [PushRoutes][..0] == [];
      assert DoAll(v, push, next.conf) == v;
    } else if installed {
      ServiceIsCurrentIff(v, next.conf, push);
    }
  }

  /** Nothing was done, or a plan was cut off at some action. */
  ghost predicate Interrupted(v: Service, installed: bool, next: Artifacts, w: Service)
  {
    w == v || exists seen: bool, plan: Plan, n: nat :: Planned(v, installed, seen, next, plan) && CutAt(v, plan.actions, n, next.conf, w)
  }

  /** What applying the route part of a plan did is a pass of the route driver,
      and all of it leads to the target. */
  lemma PassOf(table: set<Prefix>, target: set<Prefix>, plan: Routes.Plan, d: nat, a: nat, listed: bool)
    requires d <= |plan.del| && a <= |plan.add| && (a > 0 ==> d == |plan.del|)
    requires if listed then Routes.Enumerates(plan.del, table - target) && Routes.Enumerates(plan.add, target - table)
             else plan == Routes.Plan([], [])
    ensures var ops := Routes.Dels(plan.del[..d]) + Routes.Adds(plan.add[..a]);
      && Routes.IsPass(table, target, ops)
      && (if listed then d == |plan.del| && a == |plan.add| ==> Routes.Replay(table, ops) == target else ops == [])
  {
    var ops := Routes.Dels(plan.del[..d]) + Routes.Adds(plan.add[..a]);
    if listed {
      assert Routes.IsPassOf(table, target, ops, plan, d, a);
      if d == |plan.del| && a == |plan.add| {
        assert plan.del[..d] == plan.del && plan.add[..a] == plan.add;
        Routes.FullPass(table, target, plan);
      }
    } else {
      assert ops == [];
      Routes.EmptyPass(table, target);
    }
  }

  class Driver {
    const routes: Routes.Driver
    /** FRR's configuration directory exists. */
    var installed: bool
    var service: Service
    var lastErr: bool

    constructor (routes: Routes.Driver, installed: bool, service: Service)
      ensures this.routes == routes && this.installed == installed && this.service == service && !lastErr
    {
      this.routes, this.installed, this.service, lastErr := routes, installed, service, false;
    }

    /** `Plan`; listed says whether the routes were asked for and could be
        compared. Only with FRR installed can it fail. */
    method MakePlan(next: Artifacts) returns (plan: Plan, ok: bool, ghost listed: bool, ghost seen: bool)
      requires Distinct(next.routes)
      ensures !ok ==> installed
      ensures ok ==> Planned(service, installed, seen, next, plan)
      ensures ok ==> (listed <==> Asked(next.mode, installed, listed))
      ensures ok && listed ==>
        && Routes.Enumerates(plan.routes.del, routes.kernel.table - Routes.Members(next.routes))
        && Routes.Enumerates(plan.routes.add, Routes.Members(next.routes) - routes.kernel.table)
      ensures ok && !listed ==> plan.routes == Routes.Plan([], [])
    {
      plan, ok, listed, seen := Plan([], Routes.Plan([], [])), true, false, false;
      var rp, rok, known: bool;
      if next.mode == ModeA {
        rp, rok := routes.MakePlan(next.routes);
        if !rok && installed {
          return plan, false, false, seen;
        }
        plan, listed := Plan(Push(rp), rp), rok;
        known := *;
        seen := known;
        if installed && known && service.unit.Some? {
          plan := plan.(actions := plan.actions + [StopUnit]);
        }
        return;
      }
      if !installed {
        return;
      }
      var actions := FileSteps(service, next.conf);
      known := *;
      seen := known;
      if !known {
        return plan, false, false, seen;
      }
      if service.unit.None? {
        actions := actions + [StartUnit];
      } else if actions != [] {
        actions := actions + [RestartUnit];
      }
      rp, rok := routes.MakePlan(next.routes);
      if !rok {
        return plan, false, false, seen;
      }
      plan, listed := Plan(actions + Push(rp), rp), true;
    }

    /** One action other than the routes, which may fail. */
    method Act(a: Action, conf: string) returns (ok: bool)
      modifies this`service
      ensures ok ==> service == Do(old(service), a, conf)
      ensures !ok ==> Missed(old(service), a, service)
    {
      ok := a == PushRoutes;
      if !ok {
        ok := *;
      }
      if ok {
        service := Do(service, a, conf);
      } else if a in {StartUnit, RestartUnit, StopUnit} {
        var down: bool := *;
        var up: bool := *;
        if down {
          service := service.(unit := None);
        } else if up && a != StopUnit {
          service := service.(unit := Some(service.files));
        }
      }
    }

    /** The loop over the actions. */
    method ActAll(actions: seq<Action>, conf: string) returns (ok: bool, ghost n: nat)
      modifies this`service
      ensures CutAt(old(service), actions, n, conf, service) && (ok <==> n == |actions|)
    {
      n := 0;
      assert actions[..0] == [];
      for i := 0 to |actions|
        invariant n == i && service == DoAll(old(service), actions[..i], conf)
      {
        DoNext(old(service), actions, i, conf);
        ok := Act(actions[i], conf);
        if !ok {
          return;
        }
        n := i + 1;
      }
      assert actions[..|actions|] == actions;
      ok := true;
    }

    /** `Apply`: the routes first; if they succeed, the actions in order. The
        first failure ends it. */
    method Apply(plan: Plan, next: Artifacts) returns (ok: bool, ghost dels: nat, ghost adds: nat, ghost acted: bool, ghost n: nat)
      modifies this`service, this`lastErr, routes, routes.kernel
      ensures dels <= |plan.routes.del| && adds <= |plan.routes.add|
      ensures adds > 0 ==> dels == |plan.routes.del|
      ensures acted ==> dels == |plan.routes.del| && adds == |plan.routes.add|
      ensures routes.kernel.table ==
        Routes.Replay(old(routes.kernel.table), Routes.Dels(plan.routes.del[..dels]) + Routes.Adds(plan.routes.add[..adds]))
      ensures if acted then CutAt(old(service), plan.actions, n, next.conf, service) else service == old(service)
      ensures ok <==> acted && n == |plan.actions|
      ensures lastErr == !ok
    {
      ok, dels, adds, acted, n := true, 0, 0, false, 0;
      if Routes.Changes(plan.routes) {
        ghost var dbeats, abeats;
        ok, dels, adds, dbeats, abeats := routes.Apply(plan.routes);
      } else {
        assert Routes.Dels(plan.routes.del[..0]) + Routes.Adds(plan.routes.add[..0]) == [];
      }
      if ok {
        acted := true;
        ok, n := ActAll(plan.actions, next.conf);
      }
      lastErr := !ok;
    }

    /** One pass of the reconciler over this driver: plan, and apply unless
        there is nothing to do. In Mode A the unit is down afterwards if its
        state could be seen. */
    method Pass(next: Artifacts) returns (ok: bool, ghost listed: bool, ghost seen: bool, ghost ops: seq<Routes.Op>)
      requires Distinct(next.routes)
      modifies this`service, this`lastErr, routes, routes.kernel
      ensures Turn(old(routes.kernel.table), next.mode, Routes.Members(next.routes), ok, installed, listed, ops)
      ensures routes.kernel.table == Routes.Replay(old(routes.kernel.table), ops)
      ensures ok && next.mode != ModeA && installed ==> ServedBy(old(service), next.conf, service)
      ensures ok && !installed ==> service == old(service)
      ensures ok && installed && next.mode == ModeA ==> service == if seen then old(service).(unit := None) else old(service)
      ensures !ok ==> Interrupted(old(service), installed, next, service)
    {
      ghost var before, table0, target := service, routes.kernel.table, Routes.Members(next.routes);
      var plan;
      ops := [];
      Routes.EmptyPass(table0, target);
      plan, ok, listed, seen := MakePlan(next);
      if !ok {
        return;
      }
      ServedOnSuccess(before, installed, seen, next, plan);
      if listed {
        Routes.NoChange(plan.routes, table0, target);
      }
      if plan.actions != [] {
        ghost var d, a, acted, n;
        ok, d, a, acted, n := Apply(plan, next);
        ops := Routes.Dels(plan.routes.del[..d]) + Routes.Adds(plan.routes.add[..a]);
        PassOf(table0, target, plan.routes, d, a, listed);
      }
    }
  }
}
