/** The changeset ledger (`internal/store/mutate.go`, `internal/store/snapshot.go`,
    `internal/store/retention.go`): every write bumps the generation and records
    the state it left, old snapshots are dropped, and a recorded generation can
    be restored as a new one. */
module Ledger {
  import opened Model

  /** Columns of the two single-row tables. */
  datatype Column =
    | Mode | ManagementIface | ServiceIface | FakeipPool | TproxyPort | LanDefaultPolicy | PushBatch | PushInterval
    | ResolveWorkers | PublishAllowlist | FailoverMode | SniffOverride
    | LocalUpstreams | RemoteUpstreams | CacheSize | LazyCache | LazyCacheTtl | LogLevel | Hijack | BlockDot
    | Tap | EcsSubnet | ForwardRules | Ipv6Mode

  type Row = map<Column, string>

  const RETENTION: nat := 200

  datatype RuleSetRow = RuleSetRow(name: string, position: int, enabled: bool, builtin: bool)

  /** The desired-state tables by id, and the two single-row tables by column.
      Rows whose every column is captured are kept as one text. */
  datatype Desired = Desired(
    nodes: map<string, string>, groups: map<string, string>, ruleSets: map<string, RuleSetRow>,
    rules: map<string, string>, devices: map<string, string>, bypass: map<string, string>,
    network: Row, dns: Row)

  datatype SnapSet = SnapSet(name: string, position: int, enabled: bool)

  /** What a changeset records. An old one may lack columns added since. */
  datatype Saved = Saved(
    nodes: map<string, string>, groups: map<string, string>, ruleSets: map<string, SnapSet>,
    rules: map<string, string>, devices: map<string, string>, bypass: map<string, string>,
    network: Row, dns: Row)

  /** Which of the two rows a column belongs to. */
  predicate OfNetwork(c: Column)
  {
    match c
    case Mode | ManagementIface | ServiceIface | FakeipPool | TproxyPort | LanDefaultPolicy => true
    case PushBatch | PushInterval | ResolveWorkers | PublishAllowlist | FailoverMode | SniffOverride => true
    case _ => false
  }

  /** What `restoreDesired` writes; the rest are captured but not written. */
  predicate Written(c: Column)
  {
    match c
    case SniffOverride | Tap | EcsSubnet | ForwardRules | Ipv6Mode => false
    case _ => true
  }

  /** Columns for which a missing value becomes 1. */
  predicate Defaulted(c: Column) { c.Hijack? || c.BlockDot? }

  /** The rows of the database have every column. */
  ghost predicate Full(network: Row, dns: Row)
  {
    (forall c :: c in network <==> OfNetwork(c)) && (forall c :: c in dns <==> !OfNetwork(c))
  }

  ghost predicate Shaped(d: Desired)
  {
    Full(d.network, d.dns)
  }

  /** A snapshot may lack columns, but none is in the wrong row. */
  ghost predicate Proper(s: Saved)
  {
    (forall c :: c in s.network ==> OfNetwork(c)) && (forall c :: c in s.dns ==> !OfNetwork(c))
  }

  // ------------------------------------------------------ capture and restore

  function Shown(sets: map<string, RuleSetRow>): map<string, SnapSet>
  {
    map id | id in sets :: SnapSet(sets[id].name, sets[id].position, sets[id].enabled)
  }

  /** `captureDesired`. */
  function Capture(d: Desired): Saved
  {
    Saved(d.nodes, d.groups, Shown(d.ruleSets), d.rules, d.devices, d.bypass, d.network, d.dns)
  }

  /** Inserted rule sets get the default for the column not captured. */
  function Inserted(sets: map<string, SnapSet>): map<string, RuleSetRow>
  {
    map id | id in sets :: RuleSetRow(sets[id].name, sets[id].position, sets[id].enabled, false)
  }

  function Overwritten(row: Row, from: Row): Row
  {
    map c | c in row :: if !Written(c) then row[c] else if c in from then from[c] else "1"
  }

  /** A snapshot lacking a column that must have a value cannot be written. */
  predicate Restorable(s: Saved)
  {
    forall c :: Written(c) && !Defaulted(c) ==> if OfNetwork(c) then c in s.network else c in s.dns
  }

  /** What `restoreDesired` leaves: tables replaced, and only some columns of
      the single rows written. */
  function Restore(d: Desired, s: Saved): Desired
  {
    Desired(s.nodes, s.groups, Inserted(s.ruleSets), s.rules, s.devices, s.bypass,
      Overwritten(d.network, s.network), Overwritten(d.dns, s.dns))
  }

  ghost predicate SameColumns(r: Row, q: Row, written: bool)
  {
    forall c :: Written(c) == written ==> (c in r <==> c in q) && (c in r && c in q ==> r[c] == q[c])
  }

  /** Equal on everything a restore writes. */
  ghost predicate AgreeWhereWritten(s: Saved, t: Saved)
  {
    && s.nodes == t.nodes && s.groups == t.groups && s.rules == t.rules
    && s.devices == t.devices && s.bypass == t.bypass && s.ruleSets == t.ruleSets
    && SameColumns(s.network, t.network, true) && SameColumns(s.dns, t.dns, true)
  }

  /** The snapshot with the value that columns added later get. */
  function Completed(s: Saved): Saved
  {
    s.(dns := s.dns + map c: Column | Defaulted(c) && c !in s.dns :: "1")
  }

  lemma NetworkBack(row: Row, from: Row)
    requires (forall c :: c in row <==> OfNetwork(c)) && forall c :: c in from ==> OfNetwork(c)
    requires forall c :: Written(c) && OfNetwork(c) ==> c in from
    ensures SameColumns(Overwritten(row, from), from, true)
  {
  }

  lemma DnsBack(row: Row, from: Row)
    requires (forall c :: c in row <==> !OfNetwork(c)) && forall c :: c in from ==> !OfNetwork(c)
    requires forall c :: Written(c) && !Defaulted(c) && !OfNetwork(c) ==> c in from
    ensures SameColumns(Overwritten(row, from), from + (map c: Column | Defaulted(c) && c !in from :: "1"), true)
  {
  }

  /** Restoring a snapshot that can be written brings back every column a
      restore writes, whichever version took it. */
  lemma RestoreBringsBack(cur: Desired, s: Saved)
    requires Shaped(cur) && Proper(s) && Restorable(s)
    ensures Shaped(Restore(cur, s))
    ensures AgreeWhereWritten(Capture(Restore(cur, s)), Completed(s))
  {
    assert Shown(Inserted(s.ruleSets)) == s.ruleSets;
    NetworkBack(cur.network, s.network);
    DnsBack(cur.dns, s.dns);
  }

  /** The columns a restore takes from the snapshot: of the network row, of the
      DNS row, and those of it that become 1 if the snapshot has none. */
  ghost predicate TakenNetwork(c: Column)
  {
    match c
    case Mode | ManagementIface | ServiceIface | FakeipPool | TproxyPort | LanDefaultPolicy | PushBatch => true
    case PushInterval | ResolveWorkers | PublishAllowlist | FailoverMode => true
    case _ => false
  }

  ghost predicate TakenDns(c: Column)
  {
    match c
    case LocalUpstreams | RemoteUpstreams | CacheSize | LazyCache | LazyCacheTtl | LogLevel => true
    case _ => false
  }

  ghost predicate TakenOrOne(c: Column) { c == Hijack || c == BlockDot }

  /** The column is in both rows, with one value. */
  ghost predicate SameIn(c: Column, r: Row, q: Row) { c in r && c in q && r[c] == q[c] }

  ghost predicate SetsOver(saved: map<string, SnapSet>, sets: map<string, RuleSetRow>)
  {
    && sets.Keys == saved.Keys
    && forall id :: id in sets ==> sets[id] == RuleSetRow(saved[id].name, saved[id].position, saved[id].enabled, false)
  }

  ghost predicate NetworkOver(row0: Row, from: Row, row: Row)
  {
    (forall c :: TakenNetwork(c) ==> SameIn(c, row, from)) && SameIn(SniffOverride, row, row0)
  }

  ghost predicate DnsOver(row0: Row, from: Row, row: Row)
  {
    && (forall c :: TakenDns(c) ==> SameIn(c, row, from))
    && (forall c :: TakenOrOne(c) ==> c in row && row[c] == if c in from then from[c] else "1")
    && SameIn(Tap, row, row0) && SameIn(EcsSubnet, row, row0) && SameIn(ForwardRules, row, row0) && SameIn(Ipv6Mode, row, row0)
  }

  /** After a restore of s over d0, column by column: the tables are those of
      the snapshot; so are eleven columns of the network row and six of the DNS
      row; hijack and block-dot are, or 1 if the snapshot has none; the other
      five stand as they stood; and no rule set is marked built-in. */
  ghost predicate RestoredOver(d0: Desired, s: Saved, d: Desired)
  {
    && d.nodes == s.nodes && d.groups == s.groups && d.rules == s.rules && d.devices == s.devices && d.bypass == s.bypass
    && SetsOver(s.ruleSets, d.ruleSets)
    && NetworkOver(d0.network, s.network, d.network) && DnsOver(d0.dns, s.dns, d.dns)
  }

  lemma ColumnsTaken(c: Column)
    ensures TakenNetwork(c) <==> Written(c) && OfNetwork(c)
    ensures TakenDns(c) <==> Written(c) && !OfNetwork(c) && !Defaulted(c)
    ensures TakenOrOne(c) <==> Written(c) && Defaulted(c)
    ensures Defaulted(c) ==> !OfNetwork(c)
  {
  }

  /** A snapshot can be written exactly when it has the seventeen columns that
      must have a value. */
  lemma RestorableMeans(s: Saved)
    ensures Restorable(s) <==> (forall c :: TakenNetwork(c) ==> c in s.network) && forall c :: TakenDns(c) ==> c in s.dns
  {
    forall c: Column
      ensures TakenNetwork(c) || TakenDns(c) <==> Written(c) && !Defaulted(c)
      ensures TakenNetwork(c) ==> OfNetwork(c)
      ensures TakenDns(c) ==> !OfNetwork(c)
    {
      ColumnsTaken(c);
    }
  }

  lemma RowTaken(row: Row, from: Row, c: Column)
    requires c in row
    ensures Written(c) && c in from ==> SameIn(c, Overwritten(row, from), from)
    ensures !Written(c) ==> SameIn(c, Overwritten(row, from), row)
    ensures Written(c) ==> Overwritten(row, from)[c] == if c in from then from[c] else "1"
  {
  }

  lemma NetworkTaken(row: Row, from: Row)
    requires forall c :: c in row <==> OfNetwork(c)
    requires forall c :: TakenNetwork(c) ==> c in from
    ensures NetworkOver(row, from, Overwritten(row, from))
  {
    forall c | TakenNetwork(c)
      ensures SameIn(c, Overwritten(row, from), from)
    {
      ColumnsTaken(c);
      RowTaken(row, from, c);
    }
    RowTaken(row, from, SniffOverride);
  }

  lemma DnsTaken(row: Row, from: Row)
    requires forall c :: c in row <==> !OfNetwork(c)
    requires forall c :: TakenDns(c) ==> c in from
    ensures DnsOver(row, from, Overwritten(row, from))
  {
    var after := Overwritten(row, from);
    forall c
      ensures TakenDns(c) ==> SameIn(c, after, from)
      ensures TakenOrOne(c) ==> c in after && after[c] == if c in from then from[c] else "1"
    {
      ColumnsTaken(c);
      if !OfNetwork(c) {
        RowTaken(row, from, c);
      }
    }
    RowTaken(row, from, Tap);
    RowTaken(row, from, EcsSubnet);
    RowTaken(row, from, ForwardRules);
    RowTaken(row, from, Ipv6Mode);
  }

  lemma RestoreMeans(cur: Desired, s: Saved)
    requires Shaped(cur) && Restorable(s)
    ensures RestoredOver(cur, s, Restore(cur, s))
  {
    RestorableMeans(s);
    NetworkTaken(cur.network, s.network);
    DnsTaken(cur.dns, s.dns);
    assert SetsOver(s.ruleSets, Inserted(s.ruleSets));
  }

  /** A snapshot of the present schema can be written and lacks nothing. */
  lemma FullIsComplete(s: Saved)
    requires Full(s.network, s.dns)
    ensures Proper(s) && Restorable(s) && Completed(s) == s
  {
    assert Completed(s).dns == s.dns;
  }

  lemma RowsEqual(r: Row, q: Row)
    ensures r == q <==> SameColumns(r, q, true) && SameColumns(r, q, false)
  {
    if SameColumns(r, q, true) && SameColumns(r, q, false) {
      forall c
        ensures (c in r <==> c in q) && (c in r ==> r[c] == q[c])
      {
        assert Written(c) == true || Written(c) == false;
      }
      assert r.Keys == q.Keys;
    }
  }

  /** After an overwrite by a full row, equality with it is equality, before, on
      the columns that are not written. */
  lemma OverwrittenIff(row: Row, from: Row)
    requires row.Keys == from.Keys
    ensures Overwritten(row, from) == from <==> SameColumns(row, from, false)
  {
    RowsEqual(Overwritten(row, from), from);
  }

  lemma RuleSetsBackIff(sets: map<string, RuleSetRow>)
    ensures Inserted(Shown(sets)) == sets <==> forall id :: id in sets ==> !sets[id].builtin
  {
    var back := Inserted(Shown(sets));
    if forall id :: id in sets ==> !sets[id].builtin {
      assert back == sets;
    } else {
      var id :| id in sets && sets[id].builtin;
      assert !back[id].builtin;
    }
  }

  /** A restore brings back the whole state exactly when the columns it does not
      write stand as they stood and no rule set was the built-in one. */
  lemma RestoreIsExactIff(cur: Desired, was: Desired)
    requires Shaped(cur) && Shaped(was)
    ensures Restore(cur, Capture(was)) == was <==>
      && (forall id :: id in was.ruleSets ==> !was.ruleSets[id].builtin)
      && SameColumns(cur.network, was.network, false)
      && SameColumns(cur.dns, was.dns, false)
  {
    assert cur.network.Keys == was.network.Keys && cur.dns.Keys == was.dns.Keys;
    RuleSetsBackIff(was.ruleSets);
    OverwrittenIff(cur.network, was.network);
    OverwrittenIff(cur.dns, was.dns);
  }

  /** The simplest state that does not survive: one built-in rule set. */
  lemma BuiltinIsLost(cur: Desired)
    ensures var was := cur.(ruleSets := map["default" := RuleSetRow("default", 0, true, true)]);
      Restore(cur, Capture(was)).ruleSets == map["default" := RuleSetRow("default", 0, true, false)]
  {
  }

  /** A restore can be taken back by restoring the state it replaced, exactly
      when that had no built-in rule set: the mark is lost in any restore. */
  lemma RestoreCanBeUndone(cur: Desired, s: Saved)
    requires Shaped(cur)
    ensures Restore(Restore(cur, s), Capture(cur)) == cur <==>
      forall id :: id in cur.ruleSets ==> !cur.ruleSets[id].builtin
  {
    var between := Restore(cur, s);
    assert between.network.Keys == cur.network.Keys && between.dns.Keys == cur.dns.Keys;
    assert SameColumns(between.network, cur.network, false) && SameColumns(between.dns, cur.dns, false);
    RestoreIsExactIff(between, cur);
  }

  // -------------------------------------------------------------- the ledger

  datatype Diff = Nothing | Snap(state: Saved) | Custom(text: string)

  datatype Changeset = Changeset(id: string, generation: nat, diff: Diff, revertedBy: Option<string>, createdAt: int)

  /** The changeset target recorded generation g and still has its snapshot. */
  ghost predicate Holds(log: seq<Changeset>, target: string, g: nat)
  {
    exists i :: 0 <= i < |log| && log[i].id == target && log[i].generation == g && log[i].diff.Snap?
  }

  /** The first changeset of that name has its snapshot. */
  ghost predicate Keeps(log: seq<Changeset>, target: string, s: Saved)
  {
    exists i :: 0 <= i < |log| && log[i].id == target && log[i].diff == Snap(s) && forall j :: 0 <= j < i ==> log[j].id != target
  }

  ghost predicate Ordered(log: seq<Changeset>)
  {
    forall i, j :: 0 <= i < j < |log| ==> log[i].generation < log[j].generation
  }

  ghost predicate Records(c: Changeset, past: map<nat, Saved>)
  {
    c.generation in past && (c.diff.Snap? ==> c.diff.state == past[c.generation])
  }

  predicate Within(g: nat, newest: nat) { g + RETENTION > newest }

  /** Recorded: every recent generation has its snapshot. */
  ghost predicate Recent(log: seq<Changeset>, past: map<nat, Saved>, newest: nat)
  {
    forall g :: g in past && Within(g, newest) ==>
      exists i :: 0 <= i < |log| && log[i].generation == g && log[i].diff.Snap?
  }

  /** Generations in the ledger are distinct and in order; a snapshot is of
      the state its generation was recorded with; the newest 200 have theirs. */
  ghost predicate Consistent(generation: nat, log: seq<Changeset>, past: map<nat, Saved>)
  {
    && Ordered(log) && Recent(log, past, generation)
    && (forall g :: g in past ==> g <= generation)
    && (forall i :: 0 <= i < |log| ==> Records(log[i], past))
    && (log != [] ==> log[|log| - 1].generation == generation)
  }

  /** Old, and past the newest 200 generations. */
  predicate Stale(c: Changeset, cut: int, generation: nat)
  {
    c.createdAt < cut && c.generation + RETENTION <= generation
  }

  lemma OrderedSnoc(kept: seq<Changeset>, log: seq<Changeset>, i: nat)
    requires Ordered(kept) && Ordered(log) && i < |log| && forall c :: c in kept ==> c in log[..i]
    ensures Ordered(kept + [log[i]])
  {
    forall j | 0 <= j < |kept|
      ensures kept[j].generation < log[i].generation
    {
      assert kept[j] in log[..i];
      var n :| 0 <= n < i && log[n] == kept[j];
    }
  }

  /** A row after the snapshots older than the newest 200 were dropped. */
  ghost predicate Thinned(c: Changeset, d: Changeset, newest: nat)
  {
    d == c || (c.generation + RETENTION <= newest && d == c.(diff := Nothing))
  }

  lemma KeepsRecent(log: seq<Changeset>, pruned: seq<Changeset>, entry: Changeset,
                    past: map<nat, Saved>, g: nat, d: Saved)
    requires g > 0 && Recent(log, past, g - 1) && |pruned| == |log|
    requires forall i :: 0 <= i < |log| ==> Thinned(log[i], pruned[i], g)
    requires entry.generation == g && entry.diff.Snap?
    ensures Recent(pruned + [entry], past[g := d], g)
  {
    var all := pruned + [entry];
    forall n | n in past[g := d] && Within(n, g)
      ensures exists i :: 0 <= i < |all| && all[i].generation == n && all[i].diff.Snap?
    {
      if n == g {
        assert all[|pruned|] == entry;
      } else {
        var i :| 0 <= i < |log| && log[i].generation == n && log[i].diff.Snap?;
        assert all[i] == pruned[i] && Thinned(log[i], pruned[i], g);
      }
    }
  }

  /** A write keeps the ledger consistent. */
  lemma MutateKeeps(generation: nat, log: seq<Changeset>, past: map<nat, Saved>,
                    pruned: seq<Changeset>, entry: Changeset, next: Saved)
    requires Consistent(generation, log, past)
    requires |pruned| == |log| && forall i :: 0 <= i < |log| ==> Thinned(log[i], pruned[i], generation + 1)
    requires entry.generation == generation + 1 && entry.diff == Snap(next)
    ensures Consistent(generation + 1, pruned + [entry], past[generation + 1 := next])
  {
    var all, after := pruned + [entry], past[generation + 1 := next];
    KeepsRecent(log, pruned, entry, past, generation + 1, next);
    forall i | 0 <= i < |log|
      ensures all[i].generation == log[i].generation <= generation && log[i].generation in past
      ensures all[i].diff.Snap? ==> all[i].diff == log[i].diff
    {
      assert Thinned(log[i], pruned[i], generation + 1);
    }
  }

  /** In a consistent ledger the newest 200 generations have their snapshots. */
  lemma RecentKept(generation: nat, log: seq<Changeset>, past: map<nat, Saved>)
    requires Consistent(generation, log, past)
    ensures forall n :: n in past && generation < n + 200 ==>
      exists i :: 0 <= i < |log| && log[i].generation == n && log[i].diff == Snap(past[n])
  {
    forall n | n in past && generation < n + 200
      ensures exists i :: 0 <= i < |log| && log[i].generation == n && log[i].diff == Snap(past[n])
    {
      assert Within(n, generation);
      var i :| 0 <= i < |log| && log[i].generation == n && log[i].diff.Snap?;
      assert Records(log[i], past);
    }
  }

  lemma KeptRecords(log: seq<Changeset>, past: map<nat, Saved>, kept: seq<Changeset>)
    requires forall i :: 0 <= i < |log| ==> Records(log[i], past)
    requires forall c :: c in kept ==> c in log
    ensures forall i :: 0 <= i < |kept| ==> kept[i] in log && Records(kept[i], past)
  {
    forall i | 0 <= i < |kept|
      ensures kept[i] in log && Records(kept[i], past)
    {
      assert kept[i] in kept;
    }
  }

  /** If the last row is kept, it is the last that is kept. */
  lemma LastIsNewest(kept: seq<Changeset>, log: seq<Changeset>)
    requires log != [] && Ordered(log) && Ordered(kept)
    requires log[|log| - 1] in kept && forall i :: 0 <= i < |kept| ==> kept[i] in log
    ensures kept != [] && kept[|kept| - 1].generation == log[|log| - 1].generation
  {
    var n :| 0 <= n < |kept| && kept[n] == log[|log| - 1];
    assert kept[|kept| - 1] in log;
  }

  /** Pruning keeps it. */
  lemma PruneKeeps(generation: nat, log: seq<Changeset>, past: map<nat, Saved>,
                   kept: seq<Changeset>, cut: int)
    requires Consistent(generation, log, past) && Ordered(kept)
    requires forall c :: c in kept <==> c in log && !Stale(c, cut, generation)
    ensures Consistent(generation, kept, past)
  {
    KeptRecords(log, past, kept);
    forall g | g in past && Within(g, generation)
      ensures exists i :: 0 <= i < |kept| && kept[i].generation == g && kept[i].diff.Snap?
    {
      var i :| 0 <= i < |log| && log[i].generation == g && log[i].diff.Snap?;
      assert log[i] in kept;
    }
    if log != [] {
      var last := log[|log| - 1];
      assert last in log && !Stale(last, cut, generation);
      LastIsNewest(kept, log);
    }
  }

  /** Only a row strictly in between may get its mark, and nothing else of it
      changes. */
  ghost predicate Marked(c: Changeset, d: Changeset, target: string, after: nat, before: nat)
  {
    d == c || (after < c.generation < before && d == c.(revertedBy := Some(target)))
  }

  /** So does marking what a revert passed over. */
  lemma MarkKeeps(generation: nat, log: seq<Changeset>, past: map<nat, Saved>,
                  marked: seq<Changeset>, target: string, after: nat, before: nat)
    requires Consistent(generation, log, past) && |marked| == |log|
    requires forall i :: 0 <= i < |log| ==> Marked(log[i], marked[i], target, after, before)
    ensures Consistent(generation, marked, past)
  {
    assert forall i :: 0 <= i < |log| ==>
      Marked(log[i], marked[i], target, after, before) ==>
      marked[i].generation == log[i].generation && marked[i].diff == log[i].diff;
    forall g | g in past && Within(g, generation)
      ensures exists i :: 0 <= i < |marked| && marked[i].generation == g && marked[i].diff.Snap?
    {
      var i :| 0 <= i < |log| && log[i].generation == g && log[i].diff.Snap?;
      assert marked[i].generation == g;
    }
  }

  /** `pruneSnapshots`, whose failure is ignored. */
  method PruneSnapshots(log: seq<Changeset>, newest: nat, works: bool) returns (r: seq<Changeset>)
    ensures |r| == |log|
    ensures forall i :: 0 <= i < |log| ==>
      r[i] == if works && log[i].generation + 200 <= newest then log[i].(diff := Nothing) else log[i]
  {
    r := log;
    if !works {
      return;
    }
    for i := 0 to |log|
      invariant |r| == |log|
      invariant forall j :: 0 <= j < i ==>
        r[j] == if works && log[j].generation + 200 <= newest then log[j].(diff := Nothing) else log[j]
      invariant forall j :: i <= j < |log| ==> r[j] == log[j]
    {
      if log[i].generation + RETENTION <= newest {
        r := r[i := log[i].(diff := Nothing)];
      }
    }
  }

  /** The old rows, whatever became of their snapshots, and a new one. */
  ghost predicate Extended(before: seq<Changeset>, after: seq<Changeset>)
  {
    |after| == |before| + 1 && forall i :: 0 <= i < |before| ==>
      (after[i] == before[i] || after[i] == before[i].(diff := Nothing))
  }

  /** Everything the store holds, and the state each generation was recorded
      with. */
  datatype Contents = Contents(desired: Desired, generation: nat, log: seq<Changeset>, past: map<nat, Saved>)

  /** The same changeset, whatever became of its snapshot, with this mark. */
  ghost predicate SameRow(c: Changeset, d: Changeset, mark: Option<string>)
  {
    d == c.(revertedBy := mark) || d == c.(revertedBy := mark, diff := Nothing)
  }

  /** A revert brings back a kept snapshot of the name, of an earlier generation,
      as a new generation with an entry of its own; the old rows stay, and those
      after the restored one get the mark if that works. */
  ghost predicate Reverts(was: Contents, now: Contents, target: string, id: string, at: int, restored: nat, marks: bool)
  {
    && now.generation == was.generation + 1 && restored <= was.generation
    && restored in was.past && Keeps(was.log, target, was.past[restored]) && Holds(was.log, target, restored)
    && now.desired == Restore(was.desired, was.past[restored]) && RestoredOver(was.desired, was.past[restored], now.desired)
    && AgreeWhereWritten(Capture(now.desired), Completed(was.past[restored]))
    && now.past == was.past[now.generation := Capture(now.desired)]
    && |now.log| == |was.log| + 1
    && now.log[|was.log|] == Changeset(id, now.generation, Snap(Capture(now.desired)), None, at)
    && (forall i :: 0 <= i < |was.log| ==> was.log[i].generation <= was.generation)
    && (forall i :: 0 <= i < |was.log| ==>
          SameRow(was.log[i], now.log[i], if marks && restored < was.log[i].generation then Some(target) else was.log[i].revertedBy))
  }

  /** A saved state became a new generation with an entry of its own. */
  ghost predicate Reinstates(was: Contents, now: Contents, s: Saved, id: string, at: int)
  {
    && now.generation == was.generation + 1
    && now.desired == Restore(was.desired, s) && RestoredOver(was.desired, s, now.desired)
    && AgreeWhereWritten(Capture(now.desired), Completed(s))
    && now.past == was.past[now.generation := Capture(now.desired)]
    && Extended(was.log, now.log)
    && now.log[|was.log|] == Changeset(id, now.generation, Snap(Capture(now.desired)), None, at)
  }

  /** The rows strictly between two generations got the mark, if that works, and
      nothing else changed. */
  ghost predicate MarkedBetween(was: seq<Changeset>, log: seq<Changeset>, target: string, after: nat, before: nat, works: bool)
  {
    |log| == |was| && forall i :: 0 <= i < |log| ==>
      log[i] == if works && after < was[i].generation < before then was[i].(revertedBy := Some(target)) else was[i]
  }

  lemma OlderRows(generation: nat, log: seq<Changeset>, past: map<nat, Saved>)
    requires Consistent(generation, log, past)
    ensures forall i :: 0 <= i < |log| ==> log[i].generation <= generation
  {
    forall i | 0 <= i < |log|
      ensures log[i].generation <= generation
    {
      assert Records(log[i], past);
    }
  }

  lemma ReinstatedReverts(was: Contents, now: Contents, target: string, id: string, at: int, restored: nat)
    requires Consistent(was.generation, was.log, was.past)
    requires Holds(was.log, target, restored) && restored in was.past && restored <= was.generation
    requires Keeps(was.log, target, was.past[restored]) && Reinstates(was, now, was.past[restored], id, at)
    ensures Reverts(was, now, target, id, at, restored, false)
  {
    OlderRows(was.generation, was.log, was.past);
    forall i | 0 <= i < |was.log|
      ensures SameRow(was.log[i], now.log[i], was.log[i].revertedBy)
    {
    }
  }

  /** The snapshot of a name is the only one of that name. */
  lemma OnlyKept(log: seq<Changeset>, target: string, s: Saved)
    requires Keeps(log, target, s)
    ensures forall x :: Keeps(log, target, x) ==> x == s
  {
  }

  /** The entry of a write: the generation, and the state it left. */
  ghost predicate Newest(c: Changeset, id: string, generation: nat, d: Desired, at: int)
  {
    c == Changeset(id, generation, Snap(Capture(d)), None, at)
  }

  lemma RevertMarks(was: Contents, between: Contents, log: seq<Changeset>, target: string, id: string, at: int,
                    restored: nat, marks: bool)
    requires Reverts(was, between, target, id, at, restored, false)
    requires MarkedBetween(between.log, log, target, restored, between.generation, marks)
    ensures Reverts(was, between.(log := log), target, id, at, restored, marks)
  {
    forall i | 0 <= i < |was.log|
      ensures SameRow(was.log[i], log[i], if marks && restored < was.log[i].generation then Some(target) else was.log[i].revertedBy)
    {
      assert SameRow(was.log[i], between.log[i], was.log[i].revertedBy);
    }
  }

  class Store {
    var desired: Desired
    var generation: nat
    var log: seq<Changeset>
    /** The state every generation was recorded with. */
    ghost var past: map<nat, Saved>

    ghost predicate Valid()
      reads this
    {
      && Shaped(desired) && Consistent(generation, log, past)
      && (forall g :: g in past ==> Proper(past[g]))
    }

    ghost function View(): Contents
      reads this
    {
      Contents(desired, generation, log, past)
    }

    /** A database as it is found, possibly written by earlier versions. */
    constructor (d: Desired, g: nat, log: seq<Changeset>, ghost past: map<nat, Saved>)
      requires Shaped(d) && Consistent(g, log, past)
      requires forall n :: n in past ==> Proper(past[n])
      ensures Valid() && desired == d && generation == g && this.log == log && this.past == past
    {
      desired, generation, this.log, this.past := d, g, log, past;
    }

    /** `Mutate`, with the state its body leaves, or None if the body fails, and
        whether the database carries the transaction through. A failure changes
        nothing. What is recorded can be restored in full. */
    method Mutate(body: Option<Desired>, id: string, at: int, commits: bool) returns (gen: Option<nat>)
      requires Valid() && (body.Some? ==> Shaped(body.value))
      modifies this
      ensures Valid()
      ensures gen.Some? <==> body.Some? && commits
      ensures gen.None? ==> desired == old(desired) && generation == old(generation) && log == old(log) && past == old(past)
      ensures gen.Some? ==>
        && gen.value == old(generation) + 1 == generation && desired == body.value
        && past == old(past)[generation := Capture(desired)]
        && |log| == |old(log)| + 1 && Newest(log[|log| - 1], id, generation, desired, at)
        && (forall i :: 0 <= i < |old(log)| ==> Thinned(old(log)[i], log[i], generation))
        && (forall n :: n in past && generation < n + 200 ==>
              exists i :: 0 <= i < |log| && log[i].generation == n && log[i].diff == Snap(past[n]))
        && Restorable(past[generation]) && Completed(past[generation]) == past[generation]
    {
      if body.None? || !commits {
        return None;
      }
      var g := generation + 1;
      var entry := Changeset(id, g, Snap(Capture(body.value)), None, at);
      var thins: bool := *;
      var pruned := PruneSnapshots(log, g, thins);
      MutateKeeps(generation, log, past, pruned, entry, entry.diff.state);
      FullIsComplete(entry.diff.state);
      RecentKept(g, pruned + [entry], past[g := entry.diff.state]);
      desired, generation, log, past := body.value, g, pruned + [entry], past[g := entry.diff.state];
      return Some(g);
    }

    /** `UpdateNodeLatency` and `UpdateBypassRemark` write captured columns
        without a new generation: the ledger is not touched, and from then on
        the newest snapshot is older than the state. */
    method Annotate(nodes: map<string, string>, bypass: map<string, string>)
      requires Valid() && nodes.Keys == desired.nodes.Keys && bypass.Keys == desired.bypass.Keys
      modifies this`desired
      ensures Valid() && desired == old(desired).(nodes := nodes, bypass := bypass)
    {
      desired := desired.(nodes := nodes, bypass := bypass);
    }

    /** `PruneHistory` on the ledger: drop rows that are old and past the
        newest 200 generations. */
    method PruneHistory(cut: int)
      requires Valid()
      modifies this`log
      ensures Valid()
      ensures forall c :: c in log <==>
        c in old(log) && !(c.createdAt < cut && c.generation + 200 <= generation)
    {
      var was := log;
      var kept: seq<Changeset> := [];
      for i := 0 to |was|
        invariant log == was && Ordered(kept)
        invariant forall c :: c in kept <==> c in was[..i] && !Stale(c, cut, generation)
      {
        assert was[..i + 1] == was[..i] + [was[i]];
        if !Stale(was[i], cut, generation) {
          OrderedSnoc(kept, was, i);
          kept := kept + [was[i]];
        }
      }
      assert was[..|was|] == was;
      PruneKeeps(generation, log, past, kept, cut);
      log := kept;
    }

    /** `RevertTo`: a snapshot that is still kept becomes a new generation
        whose state agrees with the recorded one on every column that is
        written; changesets in between are marked. Anything else is an error
        that changes nothing. It succeeds exactly when the first changeset of
        that name still has its snapshot, every column that must have a value is
        in it, and the transaction goes through. */
    method RevertTo(target: string, id: string, at: int, commits: bool, marks: bool) returns (gen: Option<nat>, restored: nat)
      requires Valid()
      modifies this
      ensures Valid()
      ensures gen.Some? <==> commits && exists x :: Keeps(old(log), target, x) && Restorable(x)
      ensures gen.None? ==> View() == old(View())
      ensures gen.Some? ==> gen.value == generation && Reverts(old(View()), View(), target, id, at, restored, marks)
    {
      ghost var before := View();
      gen, restored := RestoreKept(target, id, at, commits);
      if gen.Some? {
        ghost var between := View();
        MarkReverted(target, restored, gen.value, marks);
        RevertMarks(before, between, log, target, id, at, restored, marks);
      }
    }

    /** All of it but the marks. */
    method RestoreKept(target: string, id: string, at: int, commits: bool) returns (gen: Option<nat>, restored: nat)
      requires Valid()
      modifies this
      ensures Valid()
      ensures gen.Some? <==> commits && exists x :: Keeps(old(log), target, x) && Restorable(x)
      ensures gen.None? ==> View() == old(View())
      ensures gen.Some? ==> gen.value == generation && Reverts(old(View()), View(), target, id, at, restored, false)
    {
      ghost var before := View();
      var found;
      found, restored := FindSnapshot(target);
      if found.None? {
        return None, restored;
      }
      OnlyKept(log, target, found.value);
      gen := Reinstate(found.value, id, at, commits);
      if gen.Some? {
        ReinstatedReverts(before, View(), target, id, at, restored);
      }
    }

    /** The state of a snapshot becomes a new generation. */
    method Reinstate(s: Saved, id: string, at: int, commits: bool) returns (gen: Option<nat>)
      requires Valid() && Proper(s)
      modifies this
      ensures Valid()
      ensures gen.Some? <==> Restorable(s) && commits
      ensures gen.None? ==> View() == old(View())
      ensures gen.Some? ==> gen.value == generation && Reinstates(old(View()), View(), s, id, at)
    {
      if !Restorable(s) {
        return None;
      }
      RestoreBringsBack(desired, s);
      RestoreMeans(desired, s);
      gen := Mutate(Some(Restore(desired, s)), id, at, commits);
    }

    /** The snapshot of a changeset, if it exists and is still kept. */
    method FindSnapshot(target: string) returns (found: Option<Saved>, restored: nat)
      requires Valid()
      ensures found.Some? ==> Holds(log, target, restored) && restored in past && restored <= generation
      ensures found.Some? ==> found.value == past[restored] && Proper(found.value)
      ensures found.Some? ==> Keeps(log, target, found.value)
      ensures found.None? ==> forall s :: !Keeps(log, target, s)
    {
      var n := Find(target);
      if n == |log| {
        return None, 0;
      }
      restored := log[n].generation;
      assert Records(log[n], past);
      if !log[n].diff.Snap? {
        return None, restored;
      }
      return Some(log[n].diff.state), restored;
    }

    method Find(target: string) returns (n: nat)
      ensures n <= |log|
      ensures n < |log| ==> log[n].id == target
      ensures forall i :: 0 <= i < n ==> log[i].id != target
    {
      n := 0;
      while n < |log| && log[n].id != target
        invariant n <= |log|
        invariant forall i :: 0 <= i < n ==> log[i].id != target
      {
        n := n + 1;
      }
    }

    /** The final update, whose failure is ignored. */
    method MarkReverted(target: string, after: nat, before: nat, works: bool)
      requires Valid()
      modifies this`log
      ensures Valid() && |log| == |old(log)|
      ensures MarkedBetween(old(log), log, target, after, before, works)
    {
      if !works {
        return;
      }
      var was := log;
      for i := 0 to |was|
        invariant |log| == |was|
        invariant forall j :: i <= j < |was| ==> log[j] == was[j]
        invariant forall j :: 0 <= j < i ==>
          log[j] == if after < was[j].generation < before then was[j].(revertedBy := Some(target)) else was[j]
      {
        if after < was[i].generation < before {
          log := log[i := was[i].(revertedBy := Some(target))];
        }
      }
      MarkKeeps(generation, was, past, log, target, after, before);
    }
  }
}
