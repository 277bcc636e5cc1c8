/**
 The version counter across compactions and restarts.  Compacting a database without
 live keys writes no records, so a restart after it begins at version 0 again.
 */
module VersionRuns {
  import opened Strings
  import opened Mvcc
  import opened Compaction
  import opened Sorting
  import opened Transactions
  import opened TransactionRuns
  import opened StatementCommits

  predicate NoEmptyRecord(recs: seq<Record>)
  {
    forall i :: 0 <= i < |recs| ==> recs[i].ops != []
  }

  /** What the counter has to do with the records: the log ends at it, the file ends at
      it unless it holds nothing, and no record is without operations. */
  ghost predicate Counted<T>(s: Sys<T>)
  {
    && MaxVersion(s.log) == s.version && NoEmptyRecord(s.log)
    && NoEmptyRecord(s.disk) && (s.disk == [] || MaxVersion(s.disk) == s.version)
  }

  lemma {:induction false} MaxVersionSnoc(recs: seq<Record>, version: nat, r: Record)
    requires LogOk(recs, version) && r.version == version + 1
    ensures MaxVersion(recs + [r]) == r.version
  {
    MaxVersionIsMax(recs);
    assert (recs + [r])[..|recs|] == recs;
  }

  lemma {:induction false} NoEmptySnoc(recs: seq<Record>, r: Record)
    requires NoEmptyRecord(recs) && r.ops != []
    ensures NoEmptyRecord(recs + [r])
  {
  }

  lemma {:induction false} WritesNotEmpty(writes: map<Key, Op>)
    requires writes != map[] && forall k :: k in writes ==> writes[k].key == k
    ensures WriteOps(writes) != []
  {
    hide WriteOps;
    WriteOpsFacts(writes);
    var k :| k in writes;
    assert LastOp(WriteOps(writes), k) == Some(writes[k]);
  }

  // -------------------------------------------------------- what Compact writes

  /** In the general case the newest version of the log is still in the history. */
  lemma {:induction false} NewestKept(h: History, log: seq<Record>, version: nat, retain: nat)
    requires HistoryAgrees(h, log, retain) && LogOk(log, version) && retain < version
    requires MaxVersion(log) == version && NoEmptyRecord(log)
    ensures version in AllVersions(h)
  {
    hide Cut, LastWrite, LogVersions, Increasing;
    MaxVersionIsMax(log);
    var i :| 0 <= i < |log| && log[i].version == version;
    assert i == |log| - 1;
    var last := log[i];
    var k := last.ops[0].key;
    LastWriteOfLast(log, k);
    LogVersionsOrdered(log, version, k);
    var full := LogVersions(log, k);
    assert full[|full| - 1].version == version;
    CutLast(full, Versions(h, k), retain);
    assert h[k][|h[k]| - 1].version == version;
  }

  lemma {:induction false} LastWriteOfLast(log: seq<Record>, k: Key)
    requires log != [] && log[|log| - 1].ops != [] && k == log[|log| - 1].ops[0].key && DistinctKeys(log[|log| - 1].ops)
    ensures LastWrite(log, k) == log[|log| - 1].version
  {
    OneVersionPerRecord(0, log[|log| - 1].ops, k);
  }

  lemma {:induction false} GeneralCounted(h: History, version: nat)
    requires HistoryOk(h, version) && version in AllVersions(h)
    ensures var recs := Groups(h, SortKeys(h.Keys), SortNats(AllVersions(h)));
            recs != [] && NoEmptyRecord(recs) && MaxVersion(recs) == version
  {
    hide GroupOps, Groups, AllVersions;
    var keys, ns := SortKeys(h.Keys), SortNats(AllVersions(h));
    var recs := Groups(h, keys, ns);
    GroupsAt(h, keys, ns);
    forall i | 0 <= i < |ns| ensures recs[i].ops != [] && recs[i].version <= version {
      assert ns[i] in AllVersions(h);
      GroupNonEmpty(h, keys, ns[i]);
      VersionHasKey(h, keys, ns[i]);
      VersionsBounded(h, version, ns[i]);
    }
    assert version in ns;
    var j :| 0 <= j < |ns| && ns[j] == version;
    assert recs[j].version == version;
    MaxVersionIsMax(recs);
  }

  lemma {:induction false} VersionsBounded(h: History, version: nat, v: nat)
    requires HistoryOk(h, version) && v in AllVersions(h)
    ensures v <= version
  {
    var k, i :| k in h && 0 <= i < |h[k]| && h[k][i].version == v;
  }

  /** The snapshot case writes a record exactly if some key is live. */
  lemma {:induction false} SnapshotCounted(h: History, log: seq<Record>, version: nat)
    requires HistoryAgrees(h, log, version) && LogOk(log, version)
    ensures var recs := CompactRecords(h, version, version);
            && (recs == [] <==> forall k :: View(log, version, k).None?)
            && NoEmptyRecord(recs) && (recs == [] || MaxVersion(recs) == version)
  {
    hide LogOk, HistoryAgrees, View, LiveOps;
    var recs := CompactRecords(h, version, version);
    CompactDiskAgrees(h, log, version, version);
    if recs == [] {
      forall k ensures View(log, version, k).None? {
        assert View(recs, version, k) == View(log, version, k);
        NoRecordsNoView(version, k);
      }
    } else {
      var k := recs[0].ops[0].key;
      assert View(recs, version, k) == View(log, version, k);
      LiveIsSeen(h, SortKeys(h.Keys), version);
      assert recs == [recs[0]] && recs[..0] == [];
    }
  }

  lemma {:induction false} NoRecordsNoView(v: nat, k: Key)
    ensures View([], v, k) == None
  {
  }

  lemma {:induction false} LiveIsSeen(h: History, keys: seq<Key>, version: nat)
    requires SortedKeys(keys) && LiveOps(h, keys) != []
    ensures View([Record(version, LiveOps(h, keys))], version, LiveOps(h, keys)[0].key).Some?
  {
    hide LiveOps, LastOp, SortedKeys, DistinctKeys;
    var ops := LiveOps(h, keys);
    var k := ops[0].key;
    LiveOpsDistinct(h, keys);
    LiveOpsLast(h, keys, k);
    OneVersionPerRecord(0, ops, k);
    assert LastOp(ops, k).Some?;
  }

  lemma {:induction false} CompactCounted(h: History, log: seq<Record>, version: nat, retain: nat)
    requires HistoryAgrees(h, log, retain) && LogOk(log, version) && retain <= version
    requires MaxVersion(log) == version && NoEmptyRecord(log)
    ensures var recs := CompactRecords(h, version, retain);
            && NoEmptyRecord(recs) && (recs == [] || MaxVersion(recs) == version)
            && (recs == [] <==> retain == version && forall k :: View(log, version, k).None?)
  {
    hide LogOk, HistoryAgrees, View, NoEmptyRecord, MaxVersion, AllVersions, Groups;
    if retain == version {
      SnapshotCounted(h, log, version);
    } else {
      HistoryIsOk(h, log, retain, version);
      NewestKept(h, log, version, retain);
      GeneralCounted(h, version);
    }
  }

  // ------------------------------------------------------------------- runs

  lemma {:induction false} CommitCounted<T>(s: Sys<T>, t: T)
    requires Inv(s) && Counted(s) && t in s.txs && Persists(s, t)
    ensures Counted(CommitTx(s, t))
  {
    hide HistoryAgrees, DiskAgrees, CommitsOk, LogOk, NoEmptyRecord, MaxVersion, WriteOps;
    var r := CommitRecord(s, t);
    assert TxOk(s.txs[t], s.low, s.version);
    WritesNotEmpty(s.txs[t].writes);
    MaxVersionSnoc(s.log, s.version, r);
    MaxVersionSnoc(s.disk, s.version, r);
    NoEmptySnoc(s.log, r);
    NoEmptySnoc(s.disk, r);
  }

  lemma {:induction false} CompactStepCounted<T>(s: Sys<T>, renamed: bool)
    requires Inv(s) && Counted(s)
    ensures Counted(Compact(s, renamed))
    ensures Compact(s, true).disk == [] <==> Oldest(s) == s.version && forall k :: View(s.log, s.version, k).None?
  {
    hide LogOk, HistoryAgrees, DiskAgrees, CommitsOk, CompactRecords, PruneHistory, Oldest, View, NoEmptyRecord, MaxVersion;
    OldestBounds(s);
    PruneAgrees(s.history, s.log, s.low, Oldest(s));
    CompactCounted(PruneHistory(s.history, Oldest(s)), s.log, s.version, Oldest(s));
  }

  lemma {:induction false} LiveIsWritten<T>(s: Sys<T>, k: Key)
    requires Inv(s) && Counted(s) && View(s.log, s.version, k).Some?
    ensures Compact(s, true).disk != []
  {
    hide Inv, Counted, View, Compact, Oldest;
    CompactStepCounted(s, true);
  }

  lemma {:induction false} ReopenCounted<T>(s: Sys<T>)
    requires NoEmptyRecord(s.disk)
    ensures Counted(Reopen(s))
  {
  }

  lemma {:induction false} StepCounted<T>(s: Sys<T>, l: Label<T>)
    requires Inv(s) && Counted(s) && Enabled(s, l)
    ensures Counted(Step(s, l))
  {
    hide Inv, CommitTx, Compact, Reopen, CommitRecord, MaxVersion, NoEmptyRecord;
    match l
    case LBegin(t, writable) =>
    case LWrite(t, op) =>
    case LRollback(t) =>
    case LCommit(t) => if Persists(s, t) { CommitCounted(s, t); } else { CommitCloses(s, t); }
    case LCompact(renamed) => CompactStepCounted(s, renamed);
    case LCrash => ReopenCounted(s);
    case LCrashInCommit(t, landed) =>
      if landed && Persists(s, t) {
        CommitInv(s, t);
        CommitCounted(s, t);
        LandedReopen(s, t);
        ReopenCounted(CommitTx(s, t));
      } else {
        ReopenCounted(s);
      }
    case LCrashInCompact(renamed) =>
      CompactStepCounted(s, renamed);
      ReopenCounted(Compact(s, renamed));
  }

  lemma {:induction false} RunCounted<T>(s: Sys<T>, ls: seq<Label<T>>)
    requires Inv(s) && Counted(s) && Legal(s, ls)
    ensures Inv(Run(s, ls)) && Counted(Run(s, ls))
    decreases |ls|
  {
    hide Inv, Counted, Step;
    if ls != [] {
      StepInv(s, ls[0]);
      StepCounted(s, ls[0]);
      RunCounted(Step(s, ls[0]), ls[1..]);
    }
  }

  lemma {:induction false} FreshCounted<T>()
    ensures Counted(Fresh<T>())
  {
  }

  /** After any run, a restart finds the version counter again exactly if the file holds a
      record or nothing was ever committed. */
  lemma {:induction false} CounterSurvivesRestart<T>(ls: seq<Label<T>>)
    requires Legal(Fresh<T>(), ls)
    ensures var s := Run(Fresh<T>(), ls);
            Reopen(s).version == s.version <==> s.version == 0 || s.disk != []
  {
    hide Inv, Run, Legal;
    FreshInv<T>();
    FreshCounted<T>();
    RunCounted(Fresh<T>(), ls);
  }

  /** After any run, a compaction followed by a restart keeps the version counter exactly
      if nothing was ever committed, or a reader holds an older snapshot, or a key is live. */
  lemma {:induction false} CounterSurvivesCompaction<T>(ls: seq<Label<T>>)
    requires Legal(Fresh<T>(), ls)
    ensures var s := Run(Fresh<T>(), ls);
            Reopen(Compact(s, true)).version == s.version <==>
              s.version == 0 || Oldest(s) < s.version || exists k :: View(s.log, s.version, k).Some?
  {
    hide Inv, Run, Legal, Compact, View, Oldest;
    FreshInv<T>();
    FreshCounted<T>();
    RunCounted(Fresh<T>(), ls);
    var s := Run(Fresh<T>(), ls);
    OldestBounds(s);
    CompactStepCounted(s, true);
    SameVersion(s);
  }

  lemma {:induction false} SameVersion<T>(s: Sys<T>)
    ensures Compact(s, true).version == s.version
  {
  }

  // ------------------------------------------------------------- a failing run

  /** One transaction, alone, with the given operation. */
  function Alone<T>(t: T, op: Op): seq<Label<T>>
  {
    [LBegin(t, true), LWrite(t, op), LCommit(t)]
  }

  lemma {:induction false} AloneRuns<T>(s: Sys<T>, t: T, op: Op, m: map<Key, Str>)
    requires Inv(s) && Shows(s, m) && s.txs == map[]
    ensures Legal(s, Alone(t, op))
    ensures var s' := Run(s, Alone(t, op));
            && Inv(s') && s'.txs == map[] && s'.version == s.version + 1
            && Shows(s', if op.delete then m - {op.key} else m[op.key := op.value])
            && s'.disk == s.disk + [Record(s.version + 1, [op])]
  {
    hide Inv, View, Conflict, Apply, WriteOps;
    UpdateIsMapUpdate(s, t, [op], m, op.key);
    var a := Begin(s, t, true);
    var b := Write(a, t, op);
    assert [op][..0] == [];
    assert AfterWrites(a, t, []) == a;
    assert AfterWrites(a, t, [op]) == b;
    assert MapAfter(m, []) == m;
    assert b.txs[t].writes == map[op.key := op];
    assert op.key in b.txs[t].writes;
    assert Persists(b, t);
    OneWrite(op);
    RunThree(s, LBegin(t, true), LWrite(t, op), LCommit(t));
  }

  lemma {:induction false} OneWrite(op: Op)
    ensures WriteOps(map[op.key := op]) == [op]
  {
    hide SortKeys;
    var writes := map[op.key := op];
    SortedCount(writes.Keys);
    assert writes.Keys == {op.key};
    assert SortKeys(writes.Keys)[0] in SortKeys(writes.Keys);
  }

  lemma {:induction false} RunThree<T>(s: Sys<T>, x: Label<T>, y: Label<T>, z: Label<T>)
    requires Enabled(s, x) && Enabled(Step(s, x), y) && Enabled(Step(Step(s, x), y), z)
    ensures Legal(s, [x, y, z]) && Run(s, [x, y, z]) == Step(Step(Step(s, x), y), z)
  {
    hide Step, Enabled;
    var a, b := Step(s, x), Step(Step(s, x), y);
    RunCons(b, z, []);
    RunCons(a, y, [z]);
    RunCons(s, x, [y, z]);
    assert [z] + [] == [z] && [y] + [z] == [y, z] && [x] + [y, z] == [x, y, z];
  }

  lemma {:induction false} RunCons<T>(s: Sys<T>, l: Label<T>, ls: seq<Label<T>>)
    requires Enabled(s, l) && Legal(Step(s, l), ls)
    ensures Legal(s, [l] + ls) && Run(s, [l] + ls) == Run(Step(s, l), ls)
  {
    hide Step, Enabled;
    assert ([l] + ls)[1..] == ls;
  }

  /** Put a key, delete it, compact and restart: the counter falls from 2 to 0. */
  lemma {:induction false} CounterLost<T>(t: T, k: Key, v: Str)
    ensures var ls := Alone(t, Op(k, v, false)) + Alone(t, Op(k, [], true));
            && Legal(Fresh<T>(), ls)
            && Run(Fresh<T>(), ls).version == 2
            && Reopen(Compact(Run(Fresh<T>(), ls), true)).version == 0
  {
    hide Inv, View, Step, Compact, Oldest;
    var f, a, b := Fresh<T>(), Alone(t, Op(k, v, false)), Alone(t, Op(k, [], true));
    FreshInv<T>();
    FreshShows<T>();
    FreshCounted<T>();
    AloneRuns(f, t, Op(k, v, false), map[]);
    var s1 := Run(f, a);
    AloneRuns(s1, t, Op(k, [], true), map[k := v]);
    RunConcat(f, a, b);
    var s := Run(f, a + b);
    assert map[k := v] - {k} == map[];
    CounterSurvivesCompaction(a + b);
    RunCounted(f, a + b);
    NoReaders(s);
    CompactStepCounted(s, true);
    forall q ensures View(s.log, s.version, q).None? { assert View(s.log, s.version, q) == Lookup(map[], q); }
  }

  lemma {:induction false} NoReaders<T>(s: Sys<T>)
    requires s.txs == map[]
    ensures Oldest(s) == s.version
  {
    var rs := set t | t in s.txs :: s.txs[t].readVersion;
    assert rs == {};
  }

  lemma {:induction false} RunConcat<T>(s: Sys<T>, a: seq<Label<T>>, b: seq<Label<T>>)
    requires Legal(s, a) && Legal(Run(s, a), b)
    ensures Legal(s, a + b) && Run(s, a + b) == Run(Run(s, a), b)
    decreases |a|
  {
    hide Step;
    if a == [] {
      assert a + b == b;
    } else {
      assert (a + b)[0] == a[0] && (a + b)[1..] == a[1..] + b;
      RunConcat(Step(s, a[0]), a[1..], b);
    }
  }
}
