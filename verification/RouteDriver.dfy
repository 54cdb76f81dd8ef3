/** The route driver (`internal/driver/route`): it moves kernel table 200 to
    the rendered prefix set, deletes first, one prefix operation at a time, and
    any operation may fail. */
module RouteDriver {
  import opened Ipv4
  import opened Model
  import opened Sorting
  import RouteEngine

  // ------------------------------------------------- operations on a table

  datatype Op = Del(prefix: Prefix) | Add(prefix: Prefix)

  function Step(table: set<Prefix>, op: Op): set<Prefix>
  {
    match op
    case Del(p) => table - {p}
    case Add(p) => table + {p}
  }

  function Replay(table: set<Prefix>, ops: seq<Op>): set<Prefix>
  {
    if ops == [] then table else Step(Replay(table, ops[..|ops| - 1]), ops[|ops| - 1])
  }

  function Dels(ps: seq<Prefix>): (ops: seq<Op>)
    ensures |ops| == |ps| && forall i :: 0 <= i < |ps| ==> ops[i] == Del(ps[i])
  {
    seq(|ps|, i requires 0 <= i < |ps| => Del(ps[i]))
  }

  function Adds(ps: seq<Prefix>): (ops: seq<Op>)
    ensures |ops| == |ps| && forall i :: 0 <= i < |ps| ==> ops[i] == Add(ps[i])
  {
    seq(|ps|, i requires 0 <= i < |ps| => Add(ps[i]))
  }

  function Ops(deleting: bool, ps: seq<Prefix>): seq<Op>
  {
    if deleting then Dels(ps) else Adds(ps)
  }

  /** No prefix of the table lies in another one. */
  ghost predicate Unnested(table: set<Prefix>)
  {
    forall p, q :: p in table && q in table && Within(p, q) ==> p == q
  }

  // ---------------------------------------------------------------- kernel

  datatype Beat = Burst(size: nat) | Pause

  /** Requests of at most this size, with a pause between any two. */
  ghost predicate Spaced(beats: seq<Beat>, size: nat)
  {
    forall i :: 0 <= i < |beats| ==> if i % 2 == 0 then beats[i].Burst? && beats[i].size <= size else beats[i].Pause?
  }

  /** The kernel's side: requests are carried out prefix by prefix, and a
      request stops at the first prefix that fails. */
  class Kernel {
    var table: set<Prefix>
    ghost var log: seq<Op>
    /** The requests by size, and the pauses between them. */
    ghost var beats: seq<Beat>

    constructor (initial: set<Prefix>)
      ensures table == initial && log == [] && beats == []
    {
      table, log, beats := initial, [], [];
    }

    /** The driver waits before its next request. */
    ghost method Rest()
      modifies this`beats
      ensures beats == old(beats) + [Pause]
    {
      beats := beats + [Pause];
    }

    method List() returns (have: seq<Prefix>, ok: bool)
      ensures ok ==> Distinct(have) && forall p :: p in have <==> p in table
    {
      have := [];
      ok := *;
      if ok {
        var left := table;
        while left != {}
          invariant left <= table
          invariant forall p :: p in have <==> p in table && p !in left
          invariant Distinct(have)
        {
          var p :| p in left;
          have, left := have + [p], left - {p};
        }
      }
    }

    method DelAll(ps: seq<Prefix>) returns (ok: bool, ghost done: nat)
      modifies this
      ensures done <= |ps| && (ok ==> done == |ps|)
      ensures beats == old(beats) + [Burst(|ps|)]
      ensures log == old(log) + Dels(ps[..done])
      ensures table == Replay(old(table), Dels(ps[..done]))
    {
      done, beats := 0, beats + [Burst(|ps|)];
      for i := 0 to |ps|
        invariant done == i
        invariant beats == old(beats) + [Burst(|ps|)]
        invariant log == old(log) + Dels(ps[..i])
        invariant table == Replay(old(table), Dels(ps[..i]))
      {
        ok := *;
        if !ok {
          return;
        }
        // Deleting a route that is already gone counts as success.
        table := table - {ps[i]};
        log := log + [Del(ps[i])];
        done := i + 1;
        assert Dels(ps[..i + 1]) == Dels(ps[..i]) + [Del(ps[i])];
      }
      ok := true;
    }

    method AddAll(ps: seq<Prefix>) returns (ok: bool, ghost done: nat)
      modifies this
      ensures done <= |ps| && (ok ==> done == |ps|)
      ensures beats == old(beats) + [Burst(|ps|)]
      ensures log == old(log) + Adds(ps[..done])
      ensures table == Replay(old(table), Adds(ps[..done]))
    {
      done, beats := 0, beats + [Burst(|ps|)];
      for i := 0 to |ps|
        invariant done == i
        invariant beats == old(beats) + [Burst(|ps|)]
        invariant log == old(log) + Adds(ps[..i])
        invariant table == Replay(old(table), Adds(ps[..i]))
      {
        ok := *;
        if !ok {
          return;
        }
        table := table + {ps[i]};
        log := log + [Add(ps[i])];
        done := i + 1;
        assert Adds(ps[..i + 1]) == Adds(ps[..i]) + [Add(ps[i])];
      }
      ok := true;
    }
  }

  // ---------------------------------------------------------------- driver

  datatype Plan = Plan(add: seq<Prefix>, del: seq<Prefix>)

  predicate Changes(p: Plan) { p.add != [] || p.del != [] }

  function Members(ps: seq<Prefix>): (s: set<Prefix>)
    ensures forall p :: p in s <==> p in ps
  {
    set p | p in ps
  }

  /** ps lists the set, each member once. */
  ghost predicate Enumerates(ps: seq<Prefix>, s: set<Prefix>)
  {
    Distinct(ps) && forall p :: p in ps <==> p in s
  }

  predicate PrefixOrder(p: Prefix, q: Prefix)
  {
    p.addr < q.addr || (p.addr == q.addr && p.bits <= q.bits)
  }

  /** By address, shorter first. */
  ghost predicate Ascends(ps: seq<Prefix>)
  {
    forall i, j :: 0 <= i < j < |ps| ==>
      ps[i].addr < ps[j].addr || (ps[i].addr == ps[j].addr && ps[i].bits <= ps[j].bits)
  }

  lemma {:induction false} Counted(ps: seq<Prefix>, s: set<Prefix>)
    requires Enumerates(ps, s)
    ensures |ps| == |s|
  {
    if ps == [] {
      assert s == {};
    } else {
      var front, last := ps[..|ps| - 1], ps[|ps| - 1];
      assert ps == front + [last];
      Counted(front, s - {last});
    }
  }

  lemma NoChange(plan: Plan, table: set<Prefix>, target: set<Prefix>)
    requires Enumerates(plan.del, table - target) && Enumerates(plan.add, target - table)
    ensures Changes(plan) <==> table != target
  {
    if !Changes(plan) {
      assert forall p :: p in table <==> p in target by {
        assert forall p :: p in table - target ==> p in plan.del;
        assert forall p :: p in target - table ==> p in plan.add;
      }
    } else if plan.add != [] {
      assert plan.add[0] in plan.add;
    } else {
      assert plan.del[0] in plan.del;
    }
  }

  lemma {:induction false} ReplayAppend(table: set<Prefix>, xs: seq<Op>, ys: seq<Op>)
    ensures Replay(table, xs + ys) == Replay(Replay(table, xs), ys)
  {
    if ys == [] {
      assert xs + ys == xs;
    } else {
      ReplayAppend(table, xs, ys[..|ys| - 1]);
      assert (xs + ys)[..|xs + ys| - 1] == xs + ys[..|ys| - 1];
    }
  }

  /** Deletions up to some point, then additions up to some point. */
  lemma TwoStages(plan: Plan, d: nat, a: nat, table: set<Prefix>, log: seq<Op>, table1: set<Prefix>, log1: seq<Op>)
    requires d <= |plan.del| && a <= |plan.add|
    requires log1 == log + Dels(plan.del[..d]) && table1 == Replay(table, Dels(plan.del[..d]))
    ensures var ops := Dels(plan.del[..d]) + Adds(plan.add[..a]);
      && log1 + Adds(plan.add[..a]) == log + ops
      && Replay(table1, Adds(plan.add[..a])) == Replay(table, ops)
    ensures a == 0 ==> log1 + Adds(plan.add[..a]) == log1 && Replay(table1, Adds(plan.add[..a])) == table1
  {
    ReplayAppend(table, Dels(plan.del[..d]), Adds(plan.add[..a]));
    if a == 0 {
      assert Adds(plan.add[..a]) == [];
    }
  }

  lemma OpsAppend(deleting: bool, xs: seq<Prefix>, ys: seq<Prefix>)
    ensures Ops(deleting, xs + ys) == Ops(deleting, xs) + Ops(deleting, ys)
  {
    if deleting {
      assert Dels(xs + ys) == Dels(xs) + Dels(ys);
    } else {
      assert Adds(xs + ys) == Adds(xs) + Adds(ys);
    }
  }

  /** The table and the log are those after the first n operations on ps. */
  ghost predicate Carried(ps: seq<Prefix>, deleting: bool, n: nat,
    table0: set<Prefix>, log0: seq<Op>, table: set<Prefix>, log: seq<Op>)
    requires n <= |ps|
  {
    log == log0 + Ops(deleting, ps[..n]) && table == Replay(table0, Ops(deleting, ps[..n]))
  }

  /** Two consecutive stretches of a list are one longer stretch. */
  lemma Batched(ps: seq<Prefix>, deleting: bool, i: nat, end: nat, n: nat,
    table0: set<Prefix>, log0: seq<Op>, table: set<Prefix>, log: seq<Op>)
    requires i <= end <= |ps| && n <= end - i && Carried(ps, deleting, i, table0, log0, table, log)
    ensures var ops := Ops(deleting, ps[i..end][..n]);
      Carried(ps, deleting, i + n, table0, log0, Replay(table, ops), log + ops)
  {
    var xs, ys := ps[..i], ps[i..end][..n];
    assert ps[..i + n] == xs + ys;
    OpsAppend(deleting, xs, ys);
    assert (log0 + Ops(deleting, xs)) + Ops(deleting, ys) == log0 + (Ops(deleting, xs) + Ops(deleting, ys));
    ReplayAppend(table0, Ops(deleting, xs), Ops(deleting, ys));
  }

  ghost predicate IsPassOf(table: set<Prefix>, target: set<Prefix>, ops: seq<Op>, plan: Plan, d: nat, a: nat)
  {
    && Enumerates(plan.del, table - target) && Enumerates(plan.add, target - table)
    && d <= |plan.del| && a <= |plan.add| && (a > 0 ==> d == |plan.del|)
    && ops == Dels(plan.del[..d]) + Adds(plan.add[..a])
  }

  /** What a pass may do to the table: some deletions of the plan, then, only
      when all are done, some additions; the rest was cut off by a failure. */
  ghost predicate IsPass(table: set<Prefix>, target: set<Prefix>, ops: seq<Op>)
  {
    exists plan: Plan, d: nat, a: nat :: IsPassOf(table, target, ops, plan, d, a)
  }

  function Touched(ops: seq<Op>): (ps: seq<Prefix>)
    ensures |ps| == |ops| && forall i :: 0 <= i < |ops| ==> ps[i] == ops[i].prefix
  {
    seq(|ops|, i requires 0 <= i < |ops| => ops[i].prefix)
  }

  ghost predicate TouchesOnce(ops: seq<Op>, table: set<Prefix>, target: set<Prefix>)
  {
    Enumerates(Touched(ops), (table - target) + (target - table))
  }

  lemma EnumerationExists(s: set<Prefix>) returns (ps: seq<Prefix>)
    ensures Enumerates(ps, s)
  {
    if s == {} {
      ps := [];
    } else {
      var p :| p in s;
      ps := EnumerationExists(s - {p});
      ps := [p] + ps;
    }
  }

  lemma EmptyPass(table: set<Prefix>, target: set<Prefix>)
    ensures IsPass(table, target, [])
    ensures table == target ==> TouchesOnce([], table, target)
  {
    var del := EnumerationExists(table - target);
    var add := EnumerationExists(target - table);
    assert IsPassOf(table, target, [], Plan(add, del), 0, 0);
  }

  lemma {:induction false} ReplayDels(table: set<Prefix>, ps: seq<Prefix>)
    ensures Replay(table, Dels(ps)) == table - Members(ps)
  {
    if ps != [] {
      ReplayDels(table, ps[..|ps| - 1]);
      assert Dels(ps)[..|ps| - 1] == Dels(ps[..|ps| - 1]);
      assert ps == ps[..|ps| - 1] + [ps[|ps| - 1]];
    }
  }

  lemma {:induction false} ReplayAdds(table: set<Prefix>, ps: seq<Prefix>)
    ensures Replay(table, Adds(ps)) == table + Members(ps)
  {
    if ps != [] {
      ReplayAdds(table, ps[..|ps| - 1]);
      assert Adds(ps)[..|ps| - 1] == Adds(ps[..|ps| - 1]);
      assert ps == ps[..|ps| - 1] + [ps[|ps| - 1]];
    }
  }

  lemma DistinctAppend(xs: seq<Prefix>, ys: seq<Prefix>)
    requires Distinct(xs) && Distinct(ys) && forall p :: p in xs ==> p !in ys
    ensures Distinct(xs + ys)
  {
    forall i, j | 0 <= i < j < |xs + ys|
      ensures (xs + ys)[i] != (xs + ys)[j]
    {
      if i < |xs| <= j {
        assert xs[i] in xs && ys[j - |xs|] in ys;
      }
    }
  }

  /** A pass without failures ends at the target and handles every prefix of
      the symmetric difference exactly once. */
  lemma FullPass(table: set<Prefix>, target: set<Prefix>, plan: Plan)
    requires Enumerates(plan.del, table - target) && Enumerates(plan.add, target - table)
    ensures var ops := Dels(plan.del) + Adds(plan.add);
      Replay(table, ops) == target && TouchesOnce(ops, table, target)
  {
    var ops := Dels(plan.del) + Adds(plan.add);
    ReplayAppend(table, Dels(plan.del), Adds(plan.add));
    ReplayDels(table, plan.del);
    ReplayAdds(table - Members(plan.del), plan.add);
    assert Touched(ops) == plan.del + plan.add;
    DistinctAppend(plan.del, plan.add);
  }

  class Driver {
    const kernel: Kernel
    var batch: int
    var lastErr: bool
    var installed: nat

    constructor (kernel: Kernel, batch: int)
      ensures this.kernel == kernel && this.batch == batch && !lastErr && installed == 0
    {
      this.kernel, this.batch, lastErr, installed := kernel, batch, false, 0;
    }

    /** Compare the table with the rendered routes; changes nothing. */
    method MakePlan(next: seq<Prefix>) returns (plan: Plan, ok: bool)
      requires Distinct(next)
      ensures ok ==> Enumerates(plan.del, kernel.table - Members(next))
      ensures ok ==> Enumerates(plan.add, Members(next) - kernel.table)
      ensures ok ==> Ascends(plan.del) && Ascends(plan.add)
      ensures ok ==> (Changes(plan) <==> kernel.table != Members(next))
      ensures !ok ==> plan == Plan([], [])
    {
      plan := Plan([], []);
      var want := Members(next);
      var have;
      have, ok := kernel.List();
      if !ok {
        return;
      }
      var haveSet: set<Prefix> := {};
      var del: seq<Prefix> := [];
      for i := 0 to |have|
        invariant haveSet == Members(have[..i])
        invariant Distinct(del) && forall p :: p in del <==> p in haveSet && p !in want
      {
        assert have[..i + 1] == have[..i] + [have[i]];
        assert have[i] !in have[..i];
        haveSet := haveSet + {have[i]};
        if have[i] !in want {
          del := del + [have[i]];
        }
      }
      assert have[..|have|] == have;
      assert haveSet == kernel.table;
      var add: seq<Prefix> := [];
      for i := 0 to |next|
        invariant Distinct(add) && forall p :: p in add <==> p in next[..i] && p !in haveSet
      {
        assert next[..i + 1] == next[..i] + [next[i]];
        assert next[i] !in next[..i];
        if next[i] !in haveSet {
          add := add + [next[i]];
        }
      }
      assert next[..|next|] == next;
      var sortedAdd := SortBy(add, PrefixOrder);
      var sortedDel := SortBy(del, PrefixOrder);
      SameMembers(add, sortedAdd);
      SameMembers(del, sortedDel);
      DistinctKept(add, sortedAdd);
      DistinctKept(del, sortedDel);
      plan := Plan(sortedAdd, sortedDel);
      NoChange(plan, kernel.table, Members(next));
    }

    /** The request for one batch, ps[i..end]. */
    method Issue(ps: seq<Prefix>, i: nat, end: nat, deleting: bool, ghost table0: set<Prefix>, ghost log0: seq<Op>)
      returns (ok: bool, ghost done: nat)
      requires i <= end <= |ps| && Carried(ps, deleting, i, table0, log0, kernel.table, kernel.log)
      modifies kernel
      ensures i <= done <= end && (ok ==> done == end)
      ensures kernel.beats == old(kernel.beats) + [Burst(end - i)]
      ensures Carried(ps, deleting, done, table0, log0, kernel.table, kernel.log)
    {
      var part := ps[i..end];
      ghost var n: nat;
      if deleting {
        ok, n := kernel.DelAll(part);
      } else {
        ok, n := kernel.AddAll(part);
      }
      Batched(ps, deleting, i, end, n, table0, log0, old(kernel.table), old(kernel.log));
      done := i + n;
    }

    /** Hand a list to the kernel in batches, pausing in between; a failed
        request or an interrupted pause ends it. */
    method Paced(ps: seq<Prefix>, size: nat, deleting: bool) returns (ok: bool, ghost done: nat, ghost more: seq<Beat>)
      requires size > 0
      modifies kernel
      ensures kernel.beats == old(kernel.beats) + more && Spaced(more, size)
      ensures done <= |ps| && (ok ==> done == |ps|)
      ensures Carried(ps, deleting, done, old(kernel.table), old(kernel.log), kernel.table, kernel.log)
    {
      var i: nat := 0;
      done, more := 0, [];
      while i < |ps|
        invariant kernel.beats == old(kernel.beats) + more && Spaced(more, size) && |more| % 2 == 0
        invariant done == if i < |ps| then i else |ps|
        invariant Carried(ps, deleting, done, old(kernel.table), old(kernel.log), kernel.table, kernel.log)
      {
        var end: nat := if i + size > |ps| then |ps| else i + size;
        ok, done := Issue(ps, i, end, deleting, old(kernel.table), old(kernel.log));
        more := more + [Burst(end - i)];
        if !ok {
          return;
        }
        if end == |ps| {
          break;
        }
        kernel.Rest();
        more := more + [Pause];
        ok := *;
        if !ok {
          return;
        }
        i := i + size;
      }
      ok := true;
    }

    /** After a success the installed prefixes are counted, if they can be
        listed. */
    method CountInstalled()
      modifies this`installed
      ensures installed == old(installed) || installed == |kernel.table|
    {
      var have, listed := kernel.List();
      if listed {
        Counted(have, kernel.table);
        installed := |have|;
      }
    }

    method Apply(plan: Plan)
      returns (ok: bool, ghost dels: nat, ghost adds: nat, ghost dbeats: seq<Beat>, ghost abeats: seq<Beat>)
      modifies this, kernel
      ensures batch == old(batch)
      ensures dels <= |plan.del| && adds <= |plan.add|
      ensures adds > 0 ==> dels == |plan.del|
      ensures ok ==> dels == |plan.del| && adds == |plan.add|
      ensures var ops := Dels(plan.del[..dels]) + Adds(plan.add[..adds]);
        kernel.log == old(kernel.log) + ops && kernel.table == Replay(old(kernel.table), ops)
      ensures var size: nat := if batch <= 0 then 500 else batch;
        kernel.beats == old(kernel.beats) + dbeats + abeats && Spaced(dbeats, size) && Spaced(abeats, size)
      ensures lastErr == !ok
      ensures installed == old(installed) || (ok && installed == |kernel.table|)
    {
      var size: nat := if batch <= 0 then 500 else batch;
      adds, abeats := 0, [];
      ghost var table0, log0 := kernel.table, kernel.log;
      ok, dels, dbeats := Paced(plan.del, size, true);
      ghost var table1, log1 := kernel.table, kernel.log;
      if ok {
        ok, adds, abeats := Paced(plan.add, size, false);
      }
      TwoStages(plan, dels, adds, table0, log0, table1, log1);
      if ok {
        CountInstalled();
      }
      lastErr := !ok;
    }

    /** One pass of the reconciler over this driver. */
    method Reconcile(next: seq<Prefix>) returns (ok: bool, ghost ops: seq<Op>)
      requires Distinct(next)
      modifies this, kernel
      ensures kernel.log == old(kernel.log) + ops
      ensures kernel.table == Replay(old(kernel.table), ops)
      ensures IsPass(old(kernel.table), Members(next), ops)
      ensures ok ==> forall p :: p in kernel.table <==> p in next
      ensures ok ==> TouchesOnce(ops, old(kernel.table), Members(next))
    {
      var plan;
      plan, ok := MakePlan(next);
      ops := [];
      ghost var table0 := kernel.table;
      EmptyPass(table0, Members(next));
      if ok && Changes(plan) {
        ghost var d, a, dbeats, abeats;
        ok, d, a, dbeats, abeats := Apply(plan);
        ops := Dels(plan.del[..d]) + Adds(plan.add[..a]);
        assert IsPassOf(table0, Members(next), ops, plan, d, a);
        if ok {
          assert plan.del[..d] == plan.del && plan.add[..a] == plan.add;
          FullPass(table0, Members(next), plan);
        }
      }
    }
  }

  // --------------------------------------------------------- passes and runs

  /** A prefix of a pass is itself a pass: cutting it anywhere is a failure. */
  lemma PassPrefix(table: set<Prefix>, target: set<Prefix>, ops: seq<Op>, k: nat)
    requires IsPass(table, target, ops) && k <= |ops|
    ensures IsPass(table, target, ops[..k])
  {
    var plan, d: nat, a: nat :| IsPassOf(table, target, ops, plan, d, a);
    if k <= d {
      assert ops[..k] == Dels(plan.del[..k]) + Adds(plan.add[..0]);
      assert IsPassOf(table, target, ops[..k], plan, k, 0);
    } else {
      assert ops[..k] == Dels(plan.del[..d]) + Adds(plan.add[..k - d]);
      assert IsPassOf(table, target, ops[..k], plan, d, k - d);
    }
  }

  /** Deletes first: the table stays within the old contents or the target. */
  lemma PassStaysWithin(table: set<Prefix>, target: set<Prefix>, ops: seq<Op>)
    requires IsPass(table, target, ops)
    ensures Replay(table, ops) <= table || Replay(table, ops) <= target
  {
    var plan, d: nat, a: nat :| IsPassOf(table, target, ops, plan, d, a);
    ReplayAppend(table, Dels(plan.del[..d]), Adds(plan.add[..a]));
    ReplayDels(table, plan.del[..d]);
    ReplayAdds(table - Members(plan.del[..d]), plan.add[..a]);
    if a > 0 {
      assert plan.del[..d] == plan.del;
      assert forall p :: p in plan.add[..a] ==> p in plan.add;
      assert table - Members(plan.del) <= target;
    }
  }

  datatype Pass = Pass(target: set<Prefix>, ops: seq<Op>)

  /** A sequence of passes, each starting where the previous one stopped. */
  ghost predicate IsRun(table: set<Prefix>, run: seq<Pass>)
    decreases |run|
  {
    run == [] ||
    (IsPass(table, run[0].target, run[0].ops) && IsRun(Replay(table, run[0].ops), run[1..]))
  }

  function RunOps(run: seq<Pass>): seq<Op>
  {
    if run == [] then [] else run[0].ops + RunOps(run[1..])
  }

  /** The operations of a run are those of its passes, one pass after another. */
  lemma {:induction false} RunOpsSnoc(run: seq<Pass>, last: Pass)
    ensures RunOps([]) == [] && RunOps(run + [last]) == RunOps(run) + last.ops
  {
    if run != [] {
      RunOpsSnoc(run[1..], last);
      assert (run + [last])[1..] == run[1..] + [last];
    } else {
      assert [last][1..] == [] && RunOps([last]) == last.ops + [];
    }
  }

  /** At no instant of any run, whatever fails and whenever, does the table
      hold two prefixes of which one contains the other. */
  lemma {:induction false} RunNeverNests(table: set<Prefix>, run: seq<Pass>, k: nat)
    requires IsRun(table, run) && Unnested(table)
    requires forall i :: 0 <= i < |run| ==> Unnested(run[i].target)
    requires k <= |RunOps(run)|
    ensures Unnested(Replay(table, RunOps(run)[..k]))
    decreases |run|
  {
    if run != [] {
      var first, rest := run[0], run[1..];
      if k <= |first.ops| {
        PassPrefix(table, first.target, first.ops, k);
        assert RunOps(run)[..k] == first.ops[..k];
        PassStaysWithin(table, first.target, first.ops[..k]);
      } else {
        PassStaysWithin(table, first.target, first.ops);
        assert RunOps(run)[..k] == first.ops + RunOps(rest)[..k - |first.ops|];
        ReplayAppend(table, first.ops, RunOps(rest)[..k - |first.ops|]);
        RunNeverNests(Replay(table, first.ops), rest, k - |first.ops|);
      }
    }
  }

  function Prefixes(routes: seq<RouteEngine.Route>): (ps: seq<Prefix>)
    ensures |ps| == |routes| && forall i :: 0 <= i < |ps| ==> ps[i] == routes[i].prefix
  {
    seq(|routes|, i requires 0 <= i < |routes| => routes[i].prefix)
  }

  /** What the engine publishes is a legal target for the driver. */
  lemma PublishedIsTarget(routes: seq<RouteEngine.Route>)
    requires RouteEngine.Antichain(routes)
    ensures Distinct(Prefixes(routes)) && Unnested(Members(Prefixes(routes)))
  {
    var ps := Prefixes(routes);
    forall i, j | 0 <= i < |ps| && 0 <= j < |ps| && i != j
      ensures ps[i] != ps[j] && !Within(ps[i], ps[j])
    {
      ContainsOwn(ps[i]);
      assert !Within(routes[i].prefix, routes[j].prefix);
    }
  }
}
