/** The Xray driver (`internal/driver/xray/xray.go`): choosing between a hot
    update and a restart, and carrying the choice out step by step against a
    unit whose commands may fail.

    Outbounds and rules are opaque texts. The structural hash stands for the
    structural part itself. */
module XrayDriver {
  import opened Model
  import opened Sorting

  type Outbounds = map<string, string>

  /** What the renderer produced; order is the order of the outbounds in the
      file, which a running instance does not keep. */
  datatype Artifact = Artifact(structural: string, order: seq<string>, outbounds: Outbounds, rules: string)

  /** What a running instance holds. */
  datatype Instance = Instance(structural: string, outbounds: Outbounds, rules: string)

  datatype File = Absent | Rendered(art: Artifact) | Foreign(inst: Instance)

  datatype Unit = Inactive | Running(inst: Instance)

  datatype World = World(file: File, unit: Unit)

  datatype Kind = Noop | Write | Hot | Restart | Start | Skipped

  datatype Plan = Plan(actions: seq<Kind>, state: Option<Outbounds>)

  function Loaded(a: Artifact): Instance
  {
    Instance(a.structural, a.outbounds, a.rules)
  }

  /** What the unit holds after it was started from this file. */
  function Boot(f: File): Unit
  {
    match f
    case Absent => Inactive
    case Rendered(a) => Running(Loaded(a))
    case Foreign(inst) => Running(inst)
  }

  /** The unit runs the artifact: its structure, its outbounds, its rules. */
  ghost predicate Runs(u: Unit, a: Artifact)
  {
    u.Running? && u.inst.structural == a.structural && u.inst.outbounds == a.outbounds && u.inst.rules == a.rules
  }

  // -------------------------------------------------------------- the diff

  function Differs(prev: Outbounds, next: Outbounds): set<string>
  {
    set t | t in next && (t !in prev || prev[t] != next[t])
  }

  function Range(s: seq<string>): (r: set<string>)
    ensures forall t :: t in r <==> t in s
  {
    set t | t in s
  }

  lemma RangeSnoc(s: seq<string>, t: string)
    ensures Range(s + [t]) == Range(s) + {t}
  {
  }

  method SortedTags(s: seq<string>) returns (r: seq<string>)
    requires Distinct(s)
    ensures Sorted(r, StringLeq) && Distinct(r) && Range(r) == Range(s)
  {
    StringLeqOrder();
    r := SortBy(s, StringLeq);
    SameMembers(s, r);
    DistinctKept(s, r);
  }

  method DiffOutbounds(prev: Outbounds, next: Outbounds) returns (add: seq<string>, remove: seq<string>)
    ensures Sorted(add, StringLeq) && Sorted(remove, StringLeq)
    ensures Distinct(add) && Distinct(remove)
    ensures forall t :: t in add <==> t in next && !(t in prev && prev[t] == next[t])
    ensures forall t :: t in remove <==> t in prev && !(t in next && prev[t] == next[t])
    ensures Range(add) == Differs(prev, next) && Range(remove) == Differs(next, prev)
  {
    add, remove := [], [];
    var todo := next.Keys;
    while todo != {}
      invariant todo <= next.Keys
      invariant Distinct(add) && Range(add) == Differs(prev, next) - todo
      invariant Distinct(remove) && Range(remove) == (Differs(next, prev) * next.Keys) - todo
    {
      var tag :| tag in todo;
      if tag !in prev || prev[tag] != next[tag] {
        RangeSnoc(add, tag);
        add := add + [tag];
        if tag in prev {
          RangeSnoc(remove, tag);
          remove := remove + [tag];
        }
      }
      todo := todo - {tag};
    }
    todo := prev.Keys;
    while todo != {}
      invariant todo <= prev.Keys
      invariant Distinct(remove) && Range(remove) == Differs(next, prev) - (todo - next.Keys)
    {
      var tag :| tag in todo;
      if tag !in next {
        RangeSnoc(remove, tag);
        remove := remove + [tag];
      }
      todo := todo - {tag};
    }
    StringLeqOrder();
    add := SortedTags(add);
    remove := SortedTags(remove);
  }

  // ---------------------------------------------------- meaning of a hot step

  /** Remove the tags in gone, add the outbounds that differ, replace the
      rules. */
  function HotEffect(inst: Instance, gone: set<string>, prev: Outbounds, next: Artifact): Instance
  {
    var added := map t | t in Differs(prev, next.outbounds) :: next.outbounds[t];
    inst.(outbounds := (inst.outbounds - gone) + added, rules := next.rules)
  }

  /** A hot update that reported success: the tags that were not found aside,
      everything to be dropped was dropped. */
  ghost predicate HotRan(before: Instance, after: Instance, prev: Outbounds, next: Artifact)
  {
    var drop := Differs(next.outbounds, prev);
    exists gone ::
      && gone <= drop
      && (drop <= before.outbounds.Keys ==> gone == drop)
      && after == HotEffect(before, gone, prev, next)
  }

  predicate SameAt(m: Outbounds, n: Outbounds, t: string)
  {
    (t in m <==> t in n) && (t in m ==> m[t] == n[t])
  }

  /** The instance holds what prev says wherever the diff has nothing to do. */
  ghost predicate AgreesOutside(inst: Outbounds, prev: Outbounds, next: Outbounds)
  {
    forall t :: SameAt(prev, next, t) ==> SameAt(inst, prev, t)
  }

  /** A hot update whose commands were all accepted leaves the instance as a
      restart would exactly when the instance agreed with the plan's idea of it
      outside the diff and no outbound to be dropped was left behind. */
  lemma HotEqualsRestartIff(inst: Instance, gone: set<string>, prev: Artifact, next: Artifact)
    requires gone <= Differs(next.outbounds, prev.outbounds)
    ensures HotEffect(inst, gone, prev.outbounds, next) == Loaded(next) <==>
      && inst.structural == next.structural
      && AgreesOutside(inst.outbounds, prev.outbounds, next.outbounds)
      && (forall t :: t in prev.outbounds && t !in next.outbounds ==> t in gone || t !in inst.outbounds)
  {
    var after := HotEffect(inst, gone, prev.outbounds, next).outbounds;
    forall t
      ensures SameAt(after, next.outbounds, t) <==>
        if t in Differs(prev.outbounds, next.outbounds) then true
        else if t in prev.outbounds && t !in next.outbounds then t in gone || t !in inst.outbounds
        else SameAt(inst.outbounds, prev.outbounds, t)
    {
    }
    if forall t :: SameAt(after, next.outbounds, t) {
      assert after.Keys == next.outbounds.Keys;
      assert after == next.outbounds;
    }
  }

  /** Starting from what the diff was taken against, every tag to remove is
      there and, those gone, none to add is. */
  lemma HotPathIsAccepted(prev: Outbounds, next: Outbounds)
    ensures Differs(next, prev) <= prev.Keys
    ensures Differs(prev, next) !! (prev - Differs(next, prev)).Keys
  {
  }

  // ------------------------------------------------------- planning, as a map

  /** `Plan`, on what it reads: the file, the unit, whether the binary is
      missing, and what was last applied. */
  function PlanFor(w: World, missing: bool, prev: Option<Artifact>, next: Artifact): Plan
  {
    var changed := w.file != Rendered(next);
    var write := if changed then [Write] else [];
    if w.unit.Inactive? then Plan(write + [if missing then Skipped else Start], None)
    else if !changed then Plan([Noop], None)
    else if prev.Some? && prev.value.structural == next.structural then
      Plan(write + [Hot], Some(prev.value.outbounds))
    else Plan(write + [Restart], None)
  }

  /** One action with no failure. */
  function Do(w: World, k: Kind, from: Outbounds, next: Artifact): World
  {
    match k
    case Write => w.(file := Rendered(next))
    case Start => w.(unit := Boot(w.file))
    case Restart => w.(unit := Boot(w.file))
    case Hot =>
      if w.unit.Inactive? then w
      else w.(unit := Running(HotEffect(w.unit.inst, Differs(next.outbounds, from), from, next)))
    case _ => w
  }

  function Execute(w: World, actions: seq<Kind>, from: Outbounds, next: Artifact): World
    decreases |actions|
  {
    if actions == [] then w else Execute(Do(w, actions[0], from, next), actions[1..], from, next)
  }

  lemma ExecuteOne(w: World, k: Kind, from: Outbounds, next: Artifact)
    ensures Execute(w, [k], from, next) == Do(w, k, from, next)
  {
    assert [k][1..] == [];
    assert Execute(w, [k], from, next) == Execute(Do(w, k, from, next), [], from, next);
  }

  function FromOf(p: Plan): Outbounds { if p.state.Some? then p.state.value else map[] }

  /** What the choice of branch takes for granted. */
  ghost predicate Favourable(w: World, missing: bool, prev: Option<Artifact>, next: Artifact)
  {
    if w.unit.Inactive? then !missing
    else if w.file == Rendered(next) then w.unit.inst == Loaded(next)
    else if prev.Some? && prev.value.structural == next.structural then
      w.unit.inst.structural == next.structural &&
      AgreesOutside(w.unit.inst.outbounds, prev.value.outbounds, next.outbounds)
    else true
  }

  /** Whatever the world, a pass in which no command fails writes the file, and
      leaves the unit holding the new configuration exactly in the favourable
      case of its branch. */
  lemma FaultFreeIff(w: World, missing: bool, prev: Option<Artifact>, next: Artifact)
    ensures var p := PlanFor(w, missing, prev, next);
      var after := Execute(w, p.actions, FromOf(p), next);
      && after.file == Rendered(next)
      && (Runs(after.unit, next) <==> Favourable(w, missing, prev, next))
  {
    var p := PlanFor(w, missing, prev, next);
    var from := FromOf(p);
    var last := p.actions[|p.actions| - 1];
    var written := w.(file := Rendered(next));
    if |p.actions| == 1 {
      assert p.actions == [last] && w == written;
    } else {
      assert p.actions[1..] == [last];
      assert Do(w, Write, from, next) == written;
    }
    ExecuteOne(written, last, from, next);
    assert Execute(w, p.actions, from, next) == Execute(written, [last], from, next);
    if last == Hot {
      HotEqualsRestartIff(w.unit.inst, Differs(next.outbounds, prev.value.outbounds), prev.value, next);
    }
  }

  // ---------------------------------------------------------- the invariant

  /** A running unit holds what the file says, and what the reconciler last
      saw applied. */
  ghost predicate Coherent(w: World, prev: Option<Artifact>)
  {
    w.unit.Running? ==>
      && w.file.Rendered? && w.unit.inst == Loaded(w.file.art)
      && (prev.Some? ==> w.unit.inst == Loaded(prev.value))
  }

  /** In a coherent world a pass without failures goes wrong only by having no
      binary to start. */
  lemma CoherentIsFavourable(w: World, missing: bool, prev: Option<Artifact>, next: Artifact)
    requires Coherent(w, prev)
    ensures Favourable(w, missing, prev, next) <==> !(w.unit.Inactive? && missing)
  {
  }

  /** What coherence rules out: a restart fails after the file was written, the
      unit is then started by someone else, and the next change is planned
      against the last success. The hot update is accepted and leaves the
      structure of the failed configuration running. */
  lemma OutsideStartCanDrift()
    ensures exists prev: Artifact, failed: Artifact, next: Artifact ::
      var w := World(Rendered(failed), Boot(Rendered(failed)));
      var p := PlanFor(w, false, Some(prev), next);
      && Hot in p.actions
      && Differs(next.outbounds, prev.outbounds) <= w.unit.inst.outbounds.Keys
      && !Runs(Execute(w, p.actions, FromOf(p), next).unit, next)
  {
    var prev := Artifact("old", ["node-a"], map["node-a" := "1"], "r");
    var failed := Artifact("new", ["node-a"], map["node-a" := "1"], "r");
    var next := Artifact("old", ["node-a"], map["node-a" := "2"], "r");
    var w := World(Rendered(failed), Boot(Rendered(failed)));
    FaultFreeIff(w, false, Some(prev), next);
    var p := PlanFor(w, false, Some(prev), next);
    assert p.actions[1] == Hot;
  }

  // -------------------------------------------------------------- the code

  datatype Answer = Done | NotFound | Failed

  /** The disk, the unit and the instance's API. Every operation may fail. */
  class Host {
    var world: World

    constructor (w: World)
      ensures world == w
    {
      world := w;
    }

    method WriteFile(a: Artifact) returns (ok: bool)
      modifies this
      ensures world == if ok then old(world).(file := Rendered(a)) else old(world)
    {
      ok := *;
      if ok {
        world := world.(file := Rendered(a));
      }
    }

    /** Start or restart; a failure leaves the unit down. */
    method StartUnit() returns (ok: bool)
      modifies this
      ensures ok ==> world == old(world).(unit := Boot(old(world).file)) && world.unit.Running?
      ensures !ok ==> world == old(world).(unit := Inactive)
    {
      ok := *;
      ok := ok && !world.file.Absent?;
      world := world.(unit := if ok then Boot(world.file) else Inactive);
    }

    /** `xray api rmo`: on an error any part of the tags may be gone. */
    method Rmo(tags: seq<string>) returns (answer: Answer, ghost gone: set<string>)
      requires world.unit.Running?
      modifies this
      ensures gone <= Range(tags)
      ensures world == old(world).(unit := Running(old(world).unit.inst.(outbounds := old(world).unit.inst.outbounds - gone)))
      ensures answer.Done? ==> gone == Range(tags) && gone <= old(world).unit.inst.outbounds.Keys
      ensures answer.NotFound? ==> !(Range(tags) <= old(world).unit.inst.outbounds.Keys)
    {
      var inst := world.unit.inst;
      var n := 0;
      while n < |tags| && tags[n] in inst.outbounds
        invariant n <= |tags| && Range(tags[..n]) <= inst.outbounds.Keys
      {
        assert tags[..n + 1] == tags[..n] + [tags[n]];
        n := n + 1;
      }
      assert tags[..|tags|] == tags;
      answer := if n < |tags| then NotFound else Done;
      if * {
        answer := Failed;
        n :| 0 <= n <= |tags|;
      }
      gone := Range(tags[..n]);
      var cut := set t | t in tags[..n];
      world := world.(unit := Running(inst.(outbounds := inst.outbounds - cut)));
    }

    /** `xray api ado`: refuses a tag that is already there. */
    method Ado(tags: seq<string>, next: Artifact) returns (ok: bool)
      requires world.unit.Running? && Range(tags) <= next.outbounds.Keys
      modifies this
      ensures world.file == old(world).file && world.unit.Running?
      ensures world.unit.inst.structural == old(world).unit.inst.structural
      ensures forall t :: t !in tags ==> SameAt(world.unit.inst.outbounds, old(world).unit.inst.outbounds, t)
      ensures ok ==>
        && Range(tags) !! old(world).unit.inst.outbounds.Keys
        && world.unit.inst == old(world).unit.inst.(
             outbounds := old(world).unit.inst.outbounds + (map t | t in tags :: next.outbounds[t]))
    {
      var inst := world.unit.inst;
      var put := map t | t in tags :: next.outbounds[t];
      ok := *;
      ok := ok && forall t :: t in tags ==> t !in inst.outbounds;
      if !ok {
        var n :| 0 <= n <= |tags|;
        put := map t | t in tags[..n] :: next.outbounds[t];
      }
      world := world.(unit := Running(inst.(outbounds := inst.outbounds + put)));
    }

    /** `xray api adrules` replaces the whole rule list. */
    method AdRules(rules: string) returns (ok: bool)
      requires world.unit.Running?
      modifies this
      ensures world.unit.Running? && (ok ==> world.unit.inst.rules == rules)
      ensures world == old(world).(unit := Running(old(world).unit.inst.(rules := world.unit.inst.rules)))
    {
      ok := *;
      if ok {
        world := world.(unit := Running(world.unit.inst.(rules := rules)));
      }
    }
  }

  /** The hot path from a coherent world. */
  lemma HotLands(inst: Instance, prev: Artifact, next: Artifact, after: Instance)
    requires inst == Loaded(prev) && prev.structural == next.structural
    requires HotRan(inst, after, prev.outbounds, next)
    ensures after == Loaded(next)
  {
    var gone := Differs(next.outbounds, prev.outbounds);
    HotEqualsRestartIff(inst, gone, prev, next);
  }

  class Driver {
    const host: Host
    var prev: Option<Artifact>

    constructor (host: Host)
      ensures this.host == host && prev == None
    {
      this.host, prev := host, None;
    }

    /** `Plan`: reads only. A unit whose state cannot be read plans nothing. */
    method MakePlan(next: Artifact, missing: bool) returns (ok: bool, plan: Plan)
      ensures ok ==> plan == PlanFor(host.world, missing, prev, next)
    {
      plan := Plan([], None);
      var fileChanged := host.world.file != Rendered(next);
      if fileChanged {
        plan := plan.(actions := plan.actions + [Write]);
      }
      ok := *;
      if !ok {
        return;
      }
      if host.world.unit.Inactive? {
        if missing {
          plan := plan.(actions := plan.actions + [Skipped]);
          return;
        }
        plan := plan.(actions := plan.actions + [Start]);
        return;
      }
      if !fileChanged {
        plan := plan.(actions := [Noop]);
        return;
      }
      if prev.Some? && prev.value.structural == next.structural {
        plan := Plan(plan.actions + [Hot], Some(prev.value.outbounds));
        return;
      }
      plan := plan.(actions := plan.actions + [Restart]);
    }

    /** The removals; tags that are not there are tolerated. */
    method DropAll(tags: seq<string>) returns (ok: bool, ghost gone: set<string>)
      requires host.world.unit.Running?
      modifies host
      ensures gone <= Range(tags)
      ensures host.world == old(host.world).(unit :=
        Running(old(host.world).unit.inst.(outbounds := old(host.world).unit.inst.outbounds - gone)))
      ensures ok && Range(tags) <= old(host.world).unit.inst.outbounds.Keys ==> gone == Range(tags)
    {
      gone := {};
      if |tags| == 0 {
        assert host.world.unit.inst.outbounds - gone == host.world.unit.inst.outbounds;
        return true, gone;
      }
      var answer;
      answer, gone := host.Rmo(tags);
      ok := answer != Failed;
    }

    /** The additions, in one command. */
    method AddEach(tags: seq<string>, next: Artifact) returns (ok: bool)
      requires host.world.unit.Running? && Range(tags) <= next.outbounds.Keys
      modifies host
      ensures host.world.file == old(host.world).file && host.world.unit.Running?
      ensures host.world.unit.inst.structural == old(host.world).unit.inst.structural
      ensures forall t :: t !in Range(tags) ==>
        SameAt(host.world.unit.inst.outbounds, old(host.world).unit.inst.outbounds, t)
      ensures ok ==> host.world.unit.inst == old(host.world).unit.inst.(
        outbounds := old(host.world).unit.inst.outbounds + (map t | t in Range(tags) :: next.outbounds[t]))
    {
      if |tags| == 0 {
        assert Range(tags) == {};
        assert host.world.unit.inst.outbounds ==
          host.world.unit.inst.outbounds + (map t | t in Range(tags) :: next.outbounds[t]);
        return true;
      }
      ghost var before := host.world.unit.inst.outbounds;
      ok := host.Ado(tags, next);
      assert forall t :: t in tags <==> t in Range(tags);
      assert before + (map t | t in tags :: next.outbounds[t]) == before + (map t | t in Range(tags) :: next.outbounds[t]);
    }

    /** `hotUpdate`. On any instance, outbounds outside the diff are never
        touched, even on failure. */
    method HotUpdate(from: Outbounds, next: Artifact) returns (ok: bool)
      requires host.world.unit.Running?
      modifies host
      ensures host.world.unit.Running? && host.world.file == old(host.world).file
      ensures host.world.unit.inst.structural == old(host.world).unit.inst.structural
      ensures forall t :: SameAt(from, next.outbounds, t) ==>
        SameAt(host.world.unit.inst.outbounds, old(host.world).unit.inst.outbounds, t)
      ensures ok ==> HotRan(old(host.world).unit.inst, host.world.unit.inst, from, next)
    {
      var add, remove := DiffOutbounds(from, next.outbounds);
      ghost var before := host.world.unit.inst;
      ghost var gone: set<string>;
      ok, gone := DropAll(remove);
      if !ok {
        return;
      }
      ghost var between := host.world.unit.inst.outbounds;
      ok := AddEach(add, next);
      if !ok {
        return;
      }
      assert host.world.unit.inst.outbounds ==
        between + (map t | t in Differs(from, next.outbounds) :: next.outbounds[t]);
      ok := host.AdRules(next.rules);
      if ok {
        assert host.world.unit.inst == HotEffect(before, gone, from, next);
      }
    }

    /** `apply`, for a plan made for this world: a success leaves the unit
        holding next unless there was no binary to start, and a failure leaves
        the world coherent with what was last applied. */
    method Apply(plan: Plan, next: Artifact, missing: bool) returns (ok: bool)
      requires Coherent(host.world, prev)
      requires exists m :: plan == PlanFor(host.world, m, prev, next)
      modifies host
      ensures Coherent(host.world, prev) || ok
      ensures ok ==> host.world.file == Rendered(next)
      ensures ok ==> Runs(host.world.unit, next) || (Skipped in plan.actions && host.world.unit.Inactive?)
    {
      ghost var was := host.world;
      var from := plan.state;
      for i := 0 to |plan.actions|
        invariant i == 0 ==> host.world == was
        invariant i > 0 && i < |plan.actions| ==> host.world == was.(file := Rendered(next))
        invariant i > 0 && i == |plan.actions| ==> host.world.file == Rendered(next)
        invariant i > 0 && i == |plan.actions| ==>
          host.world.unit == Running(Loaded(next)) || (Skipped in plan.actions && host.world.unit.Inactive?)
        invariant plan.state.Some? ==> from == plan.state
      {
        match plan.actions[i] {
          case Write =>
            if !missing {
              ok := *;
              if !ok {
                return;
              }
            }
            if from.None? && host.world.file.Rendered? {
              from := Some(host.world.file.art.outbounds);
            }
            ok := host.WriteFile(next);
            if !ok {
              return;
            }
          case Start =>
            ok := host.StartUnit();
            if !ok {
              return;
            }
          case Restart =>
            ok := host.StartUnit();
            if !ok {
              return;
            }
          case Hot =>
            ghost var inst := host.world.unit.inst;
            var start := if from.Some? then from.value else map[];
            ok := HotUpdate(start, next);
            if ok {
              HotLands(inst, prev.value, next, host.world.unit.inst);
            } else {
              ok := host.StartUnit();
              if !ok {
                return;
              }
            }
          case _ =>
        }
      }
      ok := true;
    }

    /** One pass: plan, apply, and on success remember what was applied. */
    method Pass(next: Artifact, missing: bool, missingLater: bool) returns (ok: bool)
      requires Coherent(host.world, prev)
      modifies host, this
      ensures Coherent(host.world, prev)
      ensures prev == if ok then Some(next) else old(prev)
      ensures ok ==> host.world.file == Rendered(next)
      ensures ok ==>
        Runs(host.world.unit, next) ||
        (missing && old(host.world).unit.Inactive? && host.world.unit.Inactive?)
    {
      var plan;
      ok, plan := MakePlan(next, missing);
      if !ok {
        return;
      }
      ok := Apply(plan, next, missingLater);
      if ok {
        prev := Some(next);
      }
    }
  }
}
