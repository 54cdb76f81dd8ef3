/** `desired.Load`: an optimistic read of the desired state, table by table,
    against writers that commit in between (`store.Mutate`). */
module SnapshotLoad {

  /** The governed tables, each read by one statement: network, DNS, nodes,
      groups, group members, rule sets, rules, device policies, bypass. */
  const TABLES: nat := 9

  const ATTEMPTS: nat := 3

  /** The database at one instant. `governed` is what only a generation-bumping
      transaction writes; `derived` is everything written without a bump. */
  datatype Db<T> = Db(gen: nat, governed: seq<T>, derived: seq<T>)

  /** One transaction: a mutation bumps the generation, and anything else
      leaves the generation and the governed tables alone. */
  ghost predicate Commit<T>(before: Db<T>, after: Db<T>)
  {
    && |after.governed| == |before.governed| == TABLES
    && (after.gen == before.gen + 1 || (after.gen == before.gen && after.governed == before.governed))
  }

  ghost predicate History<T(!new)>(h: seq<Db<T>>)
  {
    && h != [] && |h[0].governed| == TABLES
    && forall i :: 0 <= i < |h| - 1 ==> Commit(h[i], h[i + 1])
  }

  lemma {:induction false} GenerationsGrow<T(!new)>(h: seq<Db<T>>, i: nat, j: nat)
    requires History(h) && i <= j < |h|
    ensures h[i].gen <= h[j].gen
    ensures |h[j].governed| == TABLES
    decreases j
  {
    if j > i {
      GenerationsGrow(h, i, j - 1);
      assert Commit(h[j - 1], h[j]);
    } else if j > 0 {
      GenerationsGrow(h, 0, j - 1);
      assert Commit(h[j - 1], h[j]);
    }
  }

  /** A generation identifies the governed tables. */
  lemma {:induction false} GenerationFixesTables<T(!new)>(h: seq<Db<T>>, i: nat, j: nat)
    requires History(h) && i <= j < |h| && h[i].gen == h[j].gen
    ensures h[i].governed == h[j].governed
    decreases j
  {
    if j > i {
      GenerationsGrow(h, i, j - 1);
      assert Commit(h[j - 1], h[j]);
      GenerationFixesTables(h, i, j - 1);
    }
  }

  /** Reads spread over a window at whose ends the generation is the same all
      saw the tables of one instant. */
  lemma StableWindow<T(!new)>(h: seq<Db<T>>, i: nat, j: nat, at: seq<nat>, tables: seq<T>)
    requires History(h) && i <= j < |h| && h[i].gen == h[j].gen
    requires |at| == |tables| == TABLES
    requires forall t :: 0 <= t < TABLES ==> i <= at[t] <= j && |h[at[t]].governed| == TABLES && tables[t] == h[at[t]].governed[t]
    ensures tables == h[j].governed
  {
    GenerationsGrow(h, i, j);
    forall t | 0 <= t < TABLES
      ensures tables[t] == h[j].governed[t]
    {
      GenerationsGrow(h, i, at[t]);
      GenerationsGrow(h, at[t], j);
      GenerationFixesTables(h, at[t], j);
    }
  }

  /** What is written without a bump is not covered: the same generation can
      stand over different derived data. */
  lemma DerivedDataCanDiffer<T(!new)>(tables: seq<T>, x: T)
    requires |tables| == TABLES
    ensures var h := [Db(1, tables, []), Db(1, tables, [x])];
      History(h) && h[0].gen == h[1].gen && h[0].derived != h[1].derived
  {
    var h := [Db(1, tables, []), Db(1, tables, [x])];
    assert Commit(h[0], h[1]);
  }

  datatype Outcome<T> = Loaded(gen: nat, tables: seq<T>) | ReadFailed | KeptChanging

  class Store<T(!new)> {
    var db: Db<T>
    ghost var history: seq<Db<T>>
    /** How many statements have read, and how many of these failed. */
    ghost var statements: nat
    ghost var failures: nat

    ghost predicate Valid()
      reads this
    {
      History(history) && db == history[|history| - 1]
    }

    constructor (initial: Db<T>)
      requires |initial.governed| == TABLES
      ensures Valid() && db == initial && history == [initial]
    {
      db, history, statements, failures := initial, [initial], 0, 0;
    }

    /** Other connections commit any number of transactions. */
    method Interfere()
      requires Valid()
      modifies this`db, this`history
      ensures Valid() && old(history) <= history
    {
      var steps: nat := *;
      while steps > 0
        invariant Valid() && old(history) <= history
      {
        var next: Db<T> := *;
        var isCommit := *;
        if isCommit && |next.governed| == TABLES {
          next := next.(gen := db.gen + 1);
        } else {
          next := next.(gen := db.gen, governed := db.governed);
        }
        GenerationsGrow(history, 0, |history| - 1);
        assert Commit(db, next);
        db, history := next, history + [next];
        steps := steps - 1;
      }
    }

    /** `Meta`: one statement, so one instant. */
    method ReadGeneration() returns (gen: nat, ok: bool)
      requires Valid()
      modifies this
      ensures Valid() && old(history) <= history
      ensures ok ==> gen == history[|history| - 1].gen
      ensures failures == old(failures) + (if ok then 0 else 1) && statements == old(statements) + 1
    {
      Interfere();
      gen, ok := db.gen, *;
      failures, statements := failures + (if ok then 0 else 1), statements + 1;
    }

    method ReadTable(t: nat) returns (rows: T, ok: bool)
      requires Valid() && t < TABLES
      modifies this
      ensures Valid() && old(history) <= history
      ensures |db.governed| == TABLES && (ok ==> rows == history[|history| - 1].governed[t])
      ensures failures == old(failures) + (if ok then 0 else 1) && statements == old(statements) + 1
    {
      Interfere();
      GenerationsGrow(history, 0, |history| - 1);
      rows, ok := db.governed[t], *;
      failures, statements := failures + (if ok then 0 else 1), statements + 1;
    }

    /** The lower-case `load`: every table in order, each at its own instant. */
    method ReadAll() returns (tables: seq<T>, ok: bool, ghost at: seq<nat>)
      requires Valid()
      modifies this
      ensures Valid() && old(history) <= history
      ensures failures == old(failures) + (if ok then 0 else 1)
      ensures ok ==> statements == old(statements) + TABLES
      ensures ok ==> |at| == |tables| == TABLES
      ensures ok ==> forall t :: 0 <= t < TABLES ==> |old(history)| - 1 <= at[t] < |history|
      ensures ok ==> forall t :: 0 <= t < TABLES ==>
        |history[at[t]].governed| == TABLES && tables[t] == history[at[t]].governed[t]
    {
      tables, at, ok := [], [], true;
      for i := 0 to TABLES
        invariant Valid() && old(history) <= history && failures == old(failures) && statements == old(statements) + i
        invariant |at| == |tables| == i
        invariant forall t :: 0 <= t < i ==> |old(history)| - 1 <= at[t] < |history|
        invariant forall t :: 0 <= t < i ==>
          |history[at[t]].governed| == TABLES && tables[t] == history[at[t]].governed[t]
      {
        var rows;
        rows, ok := ReadTable(i);
        if !ok {
          return;
        }
        tables, at := tables + [rows], at + [|history| - 1];
      }
      ok := true;
    }

    /** A returned snapshot is the governed state of one instant within the
        call, and then no read failed. A failure means a read did, one; giving
        up, after three attempts of eleven reads each, that three commits landed
        during the call. */
    method Load() returns (result: Outcome<T>)
      requires Valid()
      modifies this
      ensures Valid() && old(history) <= history
      ensures result.Loaded? ==>
        exists k :: |old(history)| - 1 <= k < |history| &&
          history[k].gen == result.gen && history[k].governed == result.tables
      ensures result.KeptChanging? ==> db.gen >= old(db.gen) + 3
      ensures failures == old(failures) + if result.ReadFailed? then 1 else 0
      ensures result.KeptChanging? ==> statements == old(statements) + 33
      ensures result.Loaded? ==> statements - old(statements) in {11, 22, 33}
    {
      for attempt := 0 to ATTEMPTS
        invariant Valid() && old(history) <= history && failures == old(failures)
        invariant statements == old(statements) + 11 * attempt
        invariant db.gen >= old(db.gen) + attempt
      {
        ghost var h0 := history;
        var before, ok := ReadGeneration();
        if !ok {
          return ReadFailed;
        }
        ghost var start := |history| - 1;
        GenerationsGrow(history, |h0| - 1, start);
        ghost var h1 := history;
        var tables;
        ghost var at;
        tables, ok, at := ReadAll();
        if !ok {
          return ReadFailed;
        }
        ghost var h2 := history;
        var after;
        after, ok := ReadGeneration();
        if !ok {
          return ReadFailed;
        }
        ghost var end := |history| - 1;
        assert history[start] == h1[start];
        assert forall k :: 0 <= k < |h2| ==> history[k] == h2[k];
        if before == after {
          StableWindow(history, start, end, at, tables);
          return Loaded(after, tables);
        }
        GenerationsGrow(history, start, end);
      }
      return KeptChanging;
    }
  }
}
