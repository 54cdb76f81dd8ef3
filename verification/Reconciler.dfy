/** The reconciler (`internal/reconcile/reconcile.go`) as a protocol: writers
    that commit and then notify through a one-slot channel, a loop that
    coalesces, and passes serialised by a lock whose every stage may fail. */
module Reconciler {

  /** Where `Run` is: in its select, absorbing a burst, or calling `pass`. */
  datatype Loop = Selecting | Coalescing | Entering | InPass

  datatype Lock = Free | LoopHolds | CallerHolds

  /** How far the pass holding the lock has come. Driving keeps the loaded
      generation, the next driver to ask and whether one has failed. */
  datatype Phase = Idle | Starting | Driving(loaded: nat, next: nat, failed: bool)

  /** `applied` is both the reported and the recorded generation; `lastGood`
      holds, per driver, the generation of the artifacts it last took. `cover`
      is the generation the failure behind `retry` had to deal with. */
  datatype State = State(
    gen: nat,
    unnotified: set<nat>,
    token: bool,
    loop: Loop,
    lock: Lock,
    phase: Phase,
    retry: bool,
    cover: nat,
    applied: nat,
    lastGood: seq<nat>)

  datatype Event =
    | Commit                  // a mutation commits; its writer has yet to notify
    | Notify(gen: nat)        // that writer puts the token in the channel, if there is room
    | TakeToken               // the loop's select receives
    | Absorb                  // the coalescing window receives
    | WindowCloses
    | Tick                    // resync or retry timer
    | Enter(caller: bool)     // pass takes the lock, for the loop or for an API call
    | LoadOk
    | LoadFails
    | RenderFails
    | DriverOk                // plan without changes, or applied
    | DriverFails             // plan or apply failed
    | Finish(recorded: bool)  // all drivers asked; recording the generation may fail

  predicate Enabled(s: State, e: Event)
  {
    match e
    case Commit => true
    case Notify(g) => g in s.unnotified
    case TakeToken => s.loop == Selecting && s.token
    case Absorb => s.loop == Coalescing && s.token
    case WindowCloses => s.loop == Coalescing
    case Tick => s.loop == Selecting
    case Enter(caller) => s.lock == Free && (caller || s.loop == Entering)
    case LoadOk => s.phase == Starting
    case LoadFails => s.phase == Starting
    case RenderFails => s.phase.Driving? && s.phase.next == 0
    case DriverOk => s.phase.Driving? && s.phase.next < |s.lastGood|
    case DriverFails => s.phase.Driving? && s.phase.next < |s.lastGood|
    case Finish(_) => s.phase.Driving? && s.phase.next == |s.lastGood|
  }

  /** Leaving `pass`: the lock is free and the loop, if it held it, selects. */
  function Leave(s: State): State
  {
    s.(lock := Free, phase := Idle, loop := if s.lock == LoopHolds then Selecting else s.loop)
  }

  /** `fail`: a retry is scheduled. */
  function Fail(s: State, cover: nat): State
  {
    Leave(s.(retry := true, cover := cover))
  }

  function Next(s: State, e: Event): State
    requires Enabled(s, e)
  {
    match e
    case Commit => s.(gen := s.gen + 1, unnotified := s.unnotified + {s.gen + 1})
    case Notify(g) => s.(token := true, unnotified := s.unnotified - {g})
    case TakeToken => s.(token := false, loop := Coalescing)
    case Absorb => s.(token := false)
    case WindowCloses => s.(loop := Entering)
    case Tick => s.(loop := Entering)
    case Enter(caller) =>
      if caller then s.(lock := CallerHolds, phase := Starting)
      else s.(lock := LoopHolds, phase := Starting, loop := InPass)
    case LoadOk => s.(phase := Driving(s.gen, 0, false))
    case LoadFails => Fail(s, s.gen)
    case RenderFails => Fail(s, s.phase.loaded)
    case DriverOk =>
      s.(lastGood := s.lastGood[s.phase.next := s.phase.loaded],
         phase := s.phase.(next := s.phase.next + 1))
    case DriverFails => s.(phase := s.phase.(next := s.phase.next + 1, failed := true))
    case Finish(recorded) =>
      if s.phase.failed || !recorded then Fail(s, s.phase.loaded)
      else Leave(s.(applied := s.phase.loaded, retry := false))
  }

  /** A fresh process: `Run` is about to make its first pass. */
  predicate Init(s: State)
  {
    && !s.token && s.loop == Entering && s.lock == Free && s.phase == Idle
    && !s.retry && s.applied == 0 && s.unnotified == {}
    && forall d :: 0 <= d < |s.lastGood| ==> s.lastGood[d] == 0
  }

  ghost predicate Legal(s: State, trace: seq<Event>)
    decreases |trace|
  {
    trace == [] || (Enabled(s, trace[0]) && Legal(Next(s, trace[0]), trace[1..]))
  }

  ghost function After(s: State, trace: seq<Event>): State
    requires Legal(s, trace)
    decreases |trace|
  {
    if trace == [] then s else After(Next(s, trace[0]), trace[1..])
  }

  lemma {:induction false} Chain(s: State, xs: seq<Event>, ys: seq<Event>)
    requires Legal(s, xs) && Legal(After(s, xs), ys)
    ensures Legal(s, xs + ys) && After(s, xs + ys) == After(After(s, xs), ys)
    decreases |xs|
  {
    if xs == [] {
      assert xs + ys == ys;
    } else {
      Chain(Next(s, xs[0]), xs[1..], ys);
      assert (xs + ys)[1..] == xs[1..] + ys;
    }
  }

  // ------------------------------------------------------------- invariant

  /** Some mechanism is bound to bring generation g to the drivers. */
  predicate Pending(s: State, g: nat)
  {
    || s.token
    || s.loop == Coalescing || s.loop == Entering
    || s.phase == Starting
    || (s.phase.Driving? && s.phase.loaded >= g)
    || (s.retry && s.cover >= g)
  }

  ghost predicate NothingLost(s: State)
  {
    forall g: nat :: g <= s.gen && g !in s.unnotified ==> g <= s.applied || Pending(s, g)
  }

  ghost predicate WellKept(s: State)
  {
    && (s.lock == Free <==> s.phase == Idle)
    && (s.loop == InPass <==> s.lock == LoopHolds)
    && (forall g :: g in s.unnotified ==> g <= s.gen)
    && s.applied <= s.gen
    && (s.retry ==> s.cover <= s.gen)
    && (forall d :: 0 <= d < |s.lastGood| ==> s.applied <= s.lastGood[d] <= s.gen)
    && (s.phase.Driving? ==>
          && s.phase.next <= |s.lastGood|
          && s.applied <= s.phase.loaded <= s.gen
          && (s.retry ==> s.cover <= s.phase.loaded)
          && (forall d :: 0 <= d < |s.lastGood| ==> s.lastGood[d] <= s.phase.loaded)
          && (!s.phase.failed ==> forall d :: 0 <= d < s.phase.next ==> s.lastGood[d] == s.phase.loaded))
  }

  ghost predicate Inv(s: State)
  {
    WellKept(s) && NothingLost(s)
  }

  lemma InitInv(s: State)
    requires Init(s)
    ensures Inv(s)
  {
  }

  lemma StepWellKept(s: State, e: Event)
    requires WellKept(s) && Enabled(s, e)
    ensures WellKept(Next(s, e))
  {
    match e
    case Commit => case Notify(_) => case TakeToken => case Absorb => case WindowCloses => case Tick =>
    case Enter(_) =>
    case LoadOk => case LoadFails => case RenderFails =>
    case DriverOk => case DriverFails =>
    case Finish(_) =>
  }

  lemma StepNothingLost(s: State, e: Event)
    requires WellKept(s) && NothingLost(s) && Enabled(s, e)
    ensures NothingLost(Next(s, e))
  {
    var t := Next(s, e);
    forall g: nat | g <= t.gen && g !in t.unnotified
      ensures g <= t.applied || Pending(t, g)
    {
      if e != Commit && !e.Notify? {
        assert g <= s.applied || Pending(s, g);
      } else if e == Commit {
        assert g <= s.gen;
        assert g <= s.applied || Pending(s, g);
      }
    }
  }

  lemma StepInv(s: State, e: Event)
    requires Inv(s) && Enabled(s, e)
    ensures Inv(Next(s, e))
  {
    StepWellKept(s, e);
    StepNothingLost(s, e);
  }

  /** Over every run of a process: no committed and notified generation is
      forgotten. It is applied, or the channel, the loop, a pass that loaded it
      or a scheduled retry still answers for it. */
  lemma {:induction false} NoLostUpdate(s: State, trace: seq<Event>)
    requires Inv(s) && Legal(s, trace)
    ensures Inv(After(s, trace))
    decreases |trace|
  {
    if trace != [] {
      StepInv(s, trace[0]);
      NoLostUpdate(Next(s, trace[0]), trace[1..]);
    }
  }

  /** The events by which a pass leaves the lock. */
  predicate EndsPass(e: Event)
  {
    e == LoadFails || e == RenderFails || e.Finish?
  }

  /** The events of a pass, from taking the lock to leaving it. */
  predicate IsPass(trace: seq<Event>, caller: bool)
  {
    |trace| > 1 && trace[0] == Enter(caller) && EndsPass(trace[|trace| - 1])
  }

  lemma PassEnds(trace: seq<Event>, longer: seq<Event>, e: Event, caller: bool)
    requires trace < longer && longer[|trace|] == Enter(caller) && EndsPass(e)
    ensures trace < longer + [e] && IsPass((longer + [e])[|trace|..], caller)
  {
    var added := (longer + [e])[|trace|..];
    assert added[0] == longer[|trace|] && added[|added| - 1] == e;
  }

  /** A whole pass of the loop is among the events from place n on. */
  ghost predicate HasPass(trace: seq<Event>, n: nat)
  {
    exists i, j :: n <= i < j <= |trace| && IsPass(trace[i..j], false)
  }

  lemma LaterPass(trace: seq<Event>, n: nat, m: nat)
    requires HasPass(trace, n) && m <= n
    ensures HasPass(trace, m)
  {
  }

  /** Nothing is left to do. */
  predicate Quiet(s: State)
  {
    s.loop == Selecting && !s.token && s.lock == Free && !s.retry && s.unnotified == {}
  }

  lemma QuietIsCurrent(s: State)
    requires Inv(s) && Quiet(s)
    ensures s.applied == s.gen && forall d :: 0 <= d < |s.lastGood| ==> s.lastGood[d] == s.gen
  {
    assert NothingLost(s);
    assert s.gen in s.unnotified || s.gen <= s.applied || Pending(s, s.gen);
  }

  /** When nothing is left to do, the latest generation is applied and every
      driver holds its artifacts. */
  lemma QuietMeansConverged(s: State, trace: seq<Event>)
    requires Init(s) && Legal(s, trace)
    ensures var t := After(s, trace);
      Quiet(t) ==> t.applied == t.gen && forall d :: 0 <= d < |t.lastGood| ==> t.lastGood[d] == t.gen
  {
    InitInv(s);
    NoLostUpdate(s, trace);
    if Quiet(After(s, trace)) {
      QuietIsCurrent(After(s, trace));
    }
  }

  /** The applied generation moves forward only, and no driver is handed older
      artifacts than it holds. */
  lemma {:induction false} NothingGoesBack(s: State, trace: seq<Event>)
    requires Inv(s) && Legal(s, trace)
    ensures var t := After(s, trace);
      s.applied <= t.applied <= t.gen && |t.lastGood| == |s.lastGood| &&
      forall d :: 0 <= d < |s.lastGood| ==> s.lastGood[d] <= t.lastGood[d]
    decreases |trace|
  {
    if trace != [] {
      StepInv(s, trace[0]);
      NothingGoesBack(Next(s, trace[0]), trace[1..]);
    }
  }

  /** The applied generation changes only when every driver, in this very pass,
      planned and applied that generation without error. */
  lemma AppliedOnlyWhenAllDriversAgree(s: State, e: Event)
    requires Inv(s) && Enabled(s, e) && Next(s, e).applied != s.applied
    ensures e == Finish(true) && s.phase.Driving? && !s.phase.failed
    ensures Next(s, e).applied == s.phase.loaded
    ensures forall d :: 0 <= d < |s.lastGood| ==> s.lastGood[d] == s.phase.loaded
  {
  }

  function AllOk(n: nat): seq<Event>
  {
    if n == 0 then [] else [DriverOk] + AllOk(n - 1)
  }

  lemma {:induction false} DriversAllOk(s: State, n: nat)
    requires Inv(s) && s.phase.Driving? && !s.phase.failed && s.phase.next + n == |s.lastGood|
    ensures Legal(s, AllOk(n))
    ensures var t := After(s, AllOk(n));
      t == s.(phase := s.phase.(next := |s.lastGood|), lastGood := t.lastGood) && |t.lastGood| == |s.lastGood|
    decreases n
  {
    if n > 0 {
      StepInv(s, DriverOk);
      DriversAllOk(Next(s, DriverOk), n - 1);
      assert AllOk(n)[1..] == AllOk(n - 1);
    }
  }

  lemma Cons(s: State, e: Event, rest: seq<Event>)
    requires Enabled(s, e) && Legal(Next(s, e), rest)
    ensures Legal(s, [e] + rest) && After(s, [e] + rest) == After(Next(s, e), rest)
  {
    assert ([e] + rest)[1..] == rest;
  }

  lemma Snoc(s: State, trace: seq<Event>, e: Event)
    requires Legal(s, trace) && Enabled(After(s, trace), e)
    ensures Legal(s, trace + [e]) && After(s, trace + [e]) == Next(After(s, trace), e)
  {
    var t := After(s, trace);
    assert Legal(Next(t, e), []);
    Cons(t, e, []);
    assert [e] + [] == [e];
    Chain(s, trace, [e]);
  }

  lemma {:induction false} AllOkOnly(n: nat)
    ensures Commit !in AllOk(n)
  {
    if n > 0 {
      AllOkOnly(n - 1);
    }
  }

  /** A pass in which nothing fails and nobody commits. */
  lemma CleanPass(s: State) returns (trace: seq<Event>)
    requires Inv(s) && s.loop == Entering && s.lock == Free
    ensures Legal(s, trace) && Commit !in trace
    ensures var t := After(s, trace);
      && t == s.(loop := Selecting, applied := s.gen, retry := false, lastGood := t.lastGood)
      && forall d :: 0 <= d < |t.lastGood| ==> t.lastGood[d] == s.gen
  {
    var s2 := Next(s, Enter(false));
    var s3 := Next(s2, LoadOk);
    StepInv(s, Enter(false));
    StepInv(s2, LoadOk);
    var n := |s.lastGood|;
    DriversAllOk(s3, n);
    AllOkOnly(n);
    NoLostUpdate(s3, AllOk(n));
    Snoc(s3, AllOk(n), Finish(true));
    trace := AllOk(n) + [Finish(true)];
    Cons(s2, LoadOk, trace);
    Cons(s, Enter(false), [LoadOk] + trace);
    trace := [Enter(false)] + ([LoadOk] + trace);
  }

  /** The writers that have committed get to notify. */
  lemma {:induction false} AllNotify(s: State) returns (trace: seq<Event>)
    requires Inv(s)
    ensures Legal(s, trace) && Commit !in trace
    ensures After(s, trace) == s.(unnotified := {}, token := s.token || s.unnotified != {})
    decreases s.unnotified
  {
    trace := [];
    if s.unnotified != {} {
      var g :| g in s.unnotified;
      StepInv(s, Notify(g));
      trace := AllNotify(Next(s, Notify(g)));
      Cons(s, Notify(g), trace);
      trace := [Notify(g)] + trace;
    }
  }

  /** Whatever happened before, once the writers have notified, one undisturbed
      pass from the select brings the current generation everywhere and leaves
      nothing to do. The token makes it, or without one the resync timer. */
  lemma UndisturbedPassConverges(s: State) returns (trace: seq<Event>)
    requires Inv(s) && s.loop == Selecting && s.lock == Free
    ensures Legal(s, trace) && Commit !in trace
    ensures s.token ==> TakeToken in trace
    ensures var t := After(s, trace);
      t.applied == t.gen == s.gen && Quiet(t) && forall d :: 0 <= d < |t.lastGood| ==> t.lastGood[d] == s.gen
  {
    var notes := AllNotify(s);
    NoLostUpdate(s, notes);
    var s1 := After(s, notes);
    var start := if s1.token then [TakeToken, WindowCloses] else [Tick];
    var s2 := if s1.token then Next(Next(s1, TakeToken), WindowCloses) else Next(s1, Tick);
    assert Legal(s1, start) && After(s1, start) == s2 by {
      if s1.token {
        var a := Next(s1, TakeToken);
        assert Legal(s2, []);
        Cons(a, WindowCloses, []);
        Cons(s1, TakeToken, [WindowCloses] + []);
        assert start == [TakeToken] + ([WindowCloses] + []);
      } else {
        Cons(s1, Tick, []);
        assert start == [Tick] + [];
      }
    }
    NoLostUpdate(s1, start);
    var pass := CleanPass(s2);
    Chain(s1, start, pass);
    Chain(s, notes, start + pass);
    trace := notes + (start + pass);
  }

  // -------------------------------------------------------------- the code

  /** The store's counter, the writers about to notify, and the reconciler's
      fields. The ghost fields say where the loop and the pass are, so that
      every method can be read as a run of the protocol above. */
  class Process {
    var gen: nat
    var writers: set<nat>
    var notify: bool
    var appliedGen: nat
    var retryAt: bool
    var lastGood: seq<nat>
    ghost var loop: Loop
    ghost var lock: Lock
    ghost var phase: Phase
    ghost var cover: nat

    ghost function View(): State
      reads this
    {
      State(gen, writers, notify, loop, lock, phase, retryAt, cover, appliedGen, lastGood)
    }

    /** The process got from start to here by the protocol's events. */
    ghost predicate Came(start: State, trace: seq<Event>)
      reads this
    {
      Legal(start, trace) && View() == After(start, trace)
    }

    constructor (gen: nat, drivers: nat)
      ensures Init(View()) && this.gen == gen && |lastGood| == drivers
    {
      this.gen, writers, notify, appliedGen, retryAt := gen, {}, false, 0, false;
      lastGood := seq(drivers, _ => 0);
      loop, lock, phase, cover := Entering, Free, Idle, 0;
    }

    /** `Store.Mutate`, as seen by the reconciler. */
    method Mutate()
      modifies this`gen, this`writers
      ensures View() == Next(old(View()), Commit)
    {
      gen := gen + 1;
      writers := writers + {gen};
    }

    /** `Notify`: a non-blocking send on a channel of capacity one. */
    method NotifyChange(g: nat)
      requires g in writers
      modifies this`notify, this`writers
      ensures View() == Next(old(View()), Notify(g))
    {
      if !notify {
        notify := true;
      }
      writers := writers - {g};
    }

    /** Writers run while the reconciler is between two of its own steps. */
    method Writers(ghost start: State, ghost trace: seq<Event>) returns (ghost longer: seq<Event>)
      requires Came(start, trace)
      modifies this`gen, this`writers, this`notify
      ensures Came(start, longer) && gen >= old(gen) && trace <= longer
      ensures old(notify) ==> notify
    {
      longer := trace;
      var steps: nat := *;
      while steps > 0
        invariant Came(start, longer) && gen >= old(gen) && trace <= longer
        invariant old(notify) ==> notify
      {
        var commit: bool := *;
        if commit {
          Snoc(start, longer, Commit);
          longer := longer + [Commit];
          Mutate();
        } else if writers != {} {
          var g :| g in writers;
          Snoc(start, longer, Notify(g));
          longer := longer + [Notify(g)];
          NotifyChange(g);
        }
        steps := steps - 1;
      }
    }

    /** `coalesce`: swallow notifications until the window closes; after the last
        of its wake-ups none is left. */
    method Coalesce(wakeups: nat, ghost start: State, ghost trace: seq<Event>) returns (ghost longer: seq<Event>)
      requires Came(start, trace) && loop == Coalescing
      modifies this`gen, this`writers, this`notify, this`loop
      ensures Came(start, longer) && loop == Entering && trace <= longer && gen >= old(gen)
      ensures wakeups > 0 ==> !notify
    {
      longer := trace;
      for i := 0 to wakeups
        invariant Came(start, longer) && loop == Coalescing && trace <= longer && gen >= old(gen)
        invariant i > 0 ==> !notify
      {
        longer := Writers(start, longer);
        if notify {
          Snoc(start, longer, Absorb);
          longer := longer + [Absorb];
          notify := false;
        }
      }
      Snoc(start, longer, WindowCloses);
      longer := longer + [WindowCloses];
      loop := Entering;
    }

    ghost method LeavePass()
      modifies this`lock, this`phase, this`loop
      ensures View() == Leave(old(View()))
    {
      loop := if lock == LoopHolds then Selecting else loop;
      lock, phase := Free, Idle;
    }

    /** `fail` and the deferred unlock: a retry is scheduled. */
    method FailPass(ghost covered: nat)
      modifies this`retryAt, this`cover, this`lock, this`phase, this`loop
      ensures View() == Fail(old(View()), covered)
    {
      retryAt, cover := true, covered;
      LeavePass();
    }

    /** First part of `pass`: take the lock, load the snapshot, render it. */
    method LoadAndRender(caller: bool, ghost start: State, ghost trace: seq<Event>)
      returns (ok: bool, loaded: nat, ghost longer: seq<Event>)
      requires Came(start, trace) && lock == Free && (caller || loop == Entering)
      modifies this`gen, this`writers, this`notify, this`loop, this`lock, this`phase, this`retryAt, this`cover
      ensures Came(start, longer) && trace < longer && longer[|trace|] == Enter(caller) && gen >= old(gen)
      ensures !ok ==> IsPass(longer[|trace|..], caller)
      ensures ok ==> phase == Driving(loaded, 0, false) && loaded >= old(gen)
      ensures ok ==> lock == (if caller then CallerHolds else LoopHolds) && loop == if caller then old(loop) else InPass
      ensures !ok ==> retryAt && lock == Free && loop == if caller then old(loop) else Selecting
    {
      ok, loaded := false, 0;
      Snoc(start, trace, Enter(caller));
      longer := trace + [Enter(caller)];
      lock, phase := if caller then CallerHolds else LoopHolds, Starting;
      loop := if caller then loop else InPass;
      longer := Writers(start, longer);
      var loadOk: bool := *;
      if !loadOk {
        Snoc(start, longer, LoadFails);
        PassEnds(trace, longer, LoadFails, caller);
        longer := longer + [LoadFails];
        FailPass(gen);
        return;
      }
      loaded := gen;
      Snoc(start, longer, LoadOk);
      longer := longer + [LoadOk];
      phase := Driving(loaded, 0, false);
      longer := Writers(start, longer);
      ok := *;
      if !ok {
        Snoc(start, longer, RenderFails);
        PassEnds(trace, longer, RenderFails, caller);
        longer := longer + [RenderFails];
        FailPass(loaded);
      }
    }

    /** The loop over the drivers; one that fails does not stop the others. */
    method Drive(loaded: nat, ghost start: State, ghost trace: seq<Event>)
      returns (failed: bool, ghost longer: seq<Event>)
      requires Came(start, trace) && phase == Driving(loaded, 0, false)
      modifies this`gen, this`writers, this`notify, this`phase, this`lastGood
      ensures Came(start, longer) && phase == Driving(loaded, |lastGood|, failed) && trace <= longer && gen >= old(gen)
      ensures |lastGood| == |old(lastGood)|
      ensures !failed ==> forall d :: 0 <= d < |lastGood| ==> lastGood[d] == loaded
    {
      failed, longer := false, trace;
      for d := 0 to |lastGood|
        invariant Came(start, longer) && phase == Driving(loaded, d, failed) && trace <= longer && gen >= old(gen)
        invariant |lastGood| == |old(lastGood)|
        invariant !failed ==> forall i :: 0 <= i < d ==> lastGood[i] == loaded
      {
        longer := Writers(start, longer);
        var good: bool := *;
        if good {
          Snoc(start, longer, DriverOk);
          longer := longer + [DriverOk];
          lastGood := lastGood[d := loaded];
        } else {
          Snoc(start, longer, DriverFails);
          longer := longer + [DriverFails];
          failed := true;
        }
        phase := Driving(loaded, d + 1, failed);
      }
    }

    /** `pass`: load, render, ask every driver in turn, record. Writers go on
        all the while. */
    method Pass(caller: bool, ghost start: State, ghost trace: seq<Event>)
      returns (ok: bool, loaded: nat, ghost longer: seq<Event>)
      requires Came(start, trace) && lock == Free && (caller || loop == Entering)
      modifies this
      ensures Came(start, longer) && trace <= longer && IsPass(longer[|trace|..], caller) && gen >= old(gen)
      ensures lock == Free && (if caller then loop == old(loop) else loop == Selecting)
      ensures ok ==> appliedGen == loaded >= old(gen) && !retryAt
      ensures ok ==> forall d :: 0 <= d < |lastGood| ==> lastGood[d] == loaded
      ensures !ok ==> retryAt && appliedGen == old(appliedGen)
    {
      ok, loaded, longer := LoadAndRender(caller, start, trace);
      if !ok {
        return;
      }
      var failed;
      failed, longer := Drive(loaded, start, longer);
      longer := Writers(start, longer);
      var recorded: bool := *;
      Snoc(start, longer, Finish(recorded));
      PassEnds(trace, longer, Finish(recorded), caller);
      longer := longer + [Finish(recorded)];
      if failed || !recorded {
        ok := false;
        FailPass(loaded);
      } else {
        appliedGen, retryAt := loaded, false;
        LeavePass();
      }
    }

    /** One turn of `Run`: wait for a token or a timer, then make a pass. A
        token is taken unless a timer is ready too. Afterwards a retry is
        scheduled, or what was committed before the turn is applied and with
        every driver. */
    method Turn(timer: bool, ghost start: State, ghost trace: seq<Event>) returns (ghost longer: seq<Event>)
      requires Came(start, trace) && loop == Selecting && lock == Free
      modifies this
      ensures Came(start, longer) && loop == Selecting && lock == Free && trace <= longer && gen >= old(gen)
      ensures HasPass(longer, |trace|)
      ensures old(notify) && !timer ==> TakeToken in longer[|trace|..]
      ensures retryAt || (appliedGen >= old(gen) && forall d :: 0 <= d < |lastGood| ==> lastGood[d] == appliedGen)
    {
      longer := Writers(start, trace);
      // With a token and an expired timer both ready, either may be taken.
      var first: bool := *;
      if notify && (first || !timer) {
        Snoc(start, longer, TakeToken);
        longer := longer + [TakeToken];
        notify, loop := false, Coalescing;
        ghost var taken := longer;
        var wakeups: nat := *;
        longer := Coalesce(wakeups, start, longer);
        assert longer[|taken| - 1] == TakeToken;
      } else {
        Snoc(start, longer, Tick);
        longer := longer + [Tick];
        loop := Entering;
      }
      ghost var before := longer;
      var ok, loaded;
      ok, loaded, longer := Pass(false, start, longer);
      assert longer[|before|..|longer|] == longer[|before|..];
    }

    /** `Run`, for a number of turns: a first pass at once, then the turns. */
    method Run(turns: nat, ghost start: State, ghost trace: seq<Event>) returns (ghost longer: seq<Event>)
      requires Came(start, trace) && loop == Entering && lock == Free
      modifies this
      ensures Came(start, longer) && loop == Selecting && lock == Free && trace <= longer
      ensures HasPass(longer, |trace|)
      ensures retryAt || (appliedGen >= old(gen) && forall d :: 0 <= d < |lastGood| ==> lastGood[d] == appliedGen)
    {
      var ok, loaded;
      ok, loaded, longer := Pass(false, start, trace);
      assert longer[|trace|..|longer|] == longer[|trace|..];
      for i := 0 to turns
        invariant Came(start, longer) && loop == Selecting && lock == Free && trace <= longer && gen >= old(gen)
        invariant HasPass(longer, |trace|)
        invariant retryAt || (appliedGen >= old(gen) && forall d :: 0 <= d < |lastGood| ==> lastGood[d] == appliedGen)
      {
        var timer: bool := *;
        ghost var before := longer;
        longer := Turn(timer, start, longer);
        LaterPass(longer, |before|, |trace|);
      }
    }
  }
}
