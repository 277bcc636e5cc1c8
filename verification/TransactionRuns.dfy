/**
 What holds over every run of the transaction kernel: snapshot reads, first committer
 wins, agreement of the WAL with memory, and durability across compactions and crashes.
 */
module TransactionRuns {
  import opened Strings
  import opened Mvcc
  import opened Compaction
  import opened Transactions
  import opened Sorting

  ghost predicate Legal<T>(s: Sys<T>, ls: seq<Label<T>>)
    decreases |ls|
  {
    ls == [] || (Enabled(s, ls[0]) && Legal(Step(s, ls[0]), ls[1..]))
  }

  ghost function Run<T>(s: Sys<T>, ls: seq<Label<T>>): Sys<T>
    requires Legal(s, ls)
    decreases |ls|
  {
    if ls == [] then s else Run(Step(s, ls[0]), ls[1..])
  }

  /** The invariant holds in every state of every run. */
  lemma {:induction false} RunInv<T>(s: Sys<T>, ls: seq<Label<T>>)
    requires Inv(s) && Legal(s, ls)
    ensures Inv(Run(s, ls))
    decreases |ls|
  {
    hide Inv, Step;
    if ls != [] {
      StepInv(s, ls[0]);
      RunInv(Step(s, ls[0]), ls[1..]);
    }
  }

  lemma {:induction false} FreshInv<T>()
    ensures Inv(Fresh<T>())
  {
  }

  // --------------------------------------------------- snapshot isolation

  /** The step neither ends transaction `t` nor crashes the process. */
  predicate Spares<T(==)>(l: Label<T>, t: T)
  {
    match l
    case LRollback(u) => u != t
    case LCommit(u) => u != t
    case LCrash => false
    case LCrashInCommit(_, _) => false
    case LCrashInCompact(_) => false
    case _ => true
  }

  /** What `t` reads of a key it has not written. */
  function SnapshotGet<T>(s: Sys<T>, t: T, k: Key): Option<Str>
    requires t in s.txs
  {
    Visible(Versions(s.history, k), s.txs[t].readVersion)
  }

  lemma {:induction false} SnapshotIsView<T>(s: Sys<T>, t: T, k: Key)
    requires Inv(s) && t in s.txs
    ensures SnapshotGet(s, t, k) == View(s.log, s.txs[t].readVersion, k)
  {
    hide LogOk, HistoryAgrees, DiskAgrees, CommitsOk;
    assert TxOk(s.txs[t], s.low, s.version);
    ReadIsView(s.history, s.log, s.low, s.txs[t].readVersion, k);
  }

  /** A step by others only adds records above every open snapshot. */
  lemma {:induction false} StepLog<T>(s: Sys<T>, l: Label<T>, t: T)
    requires Inv(s) && Enabled(s, l) && t in s.txs && Spares(l, t)
    ensures t in Step(s, l).txs && Step(s, l).txs[t].readVersion == s.txs[t].readVersion
    ensures Step(s, l).log == s.log ||
            exists r :: Step(s, l).log == s.log + [r] && r.version == s.version + 1
    ensures s.low <= Step(s, l).low
  {
    hide LogOk, HistoryAgrees, DiskAgrees, CommitsOk, Apply, PruneHistory, CompactRecords, WriteOps, Conflict, Oldest;
    if l.LCompact? { OldestBounds(s); }
    if l.LCommit? && Persists(s, l.t) {
      var r := CommitRecord(s, l.t);
      assert Step(s, l).log == s.log + [r];
    }
  }

  lemma {:induction false} StepSnapshot<T>(s: Sys<T>, l: Label<T>, t: T, k: Key)
    requires Inv(s) && Enabled(s, l) && t in s.txs && Spares(l, t)
    ensures t in Step(s, l).txs && SnapshotGet(Step(s, l), t, k) == SnapshotGet(s, t, k)
  {
    hide View, Visible, Step, LogOk, HistoryAgrees, DiskAgrees, CommitsOk;
    var s', v := Step(s, l), s.txs[t].readVersion;
    StepInv(s, l);
    StepLog(s, l, t);
    SnapshotIsView(s, t, k);
    SnapshotIsView(s', t, k);
    assert TxOk(s.txs[t], s.low, s.version);
    if s'.log != s.log {
      var r :| s'.log == s.log + [r] && r.version == s.version + 1;
      ViewStable(s.log, [r], v, k);
    }
  }

  /** Repeatable reads: while a transaction is open, what it reads of a key it does not
      write never changes, however many commits and compactions take place. */
  lemma {:induction false} RepeatableRead<T>(s: Sys<T>, ls: seq<Label<T>>, t: T, k: Key)
    requires Inv(s) && Legal(s, ls) && t in s.txs && forall i :: 0 <= i < |ls| ==> Spares(ls[i], t)
    ensures t in Run(s, ls).txs && SnapshotGet(Run(s, ls), t, k) == SnapshotGet(s, t, k)
    decreases |ls|
  {
    hide Inv, Step, SnapshotGet;
    if ls != [] {
      StepInv(s, ls[0]);
      StepSnapshot(s, ls[0], t, k);
      RepeatableRead(Step(s, ls[0]), ls[1..], t, k);
    }
  }

  /** Snapshot isolation: at any later point of any run a transaction still reads, of
      every key it has not written, the value committed when it began; of a key it has
      written, its own last write. */
  lemma {:induction false} SnapshotIsolation<T>(before: seq<Label<T>>, t: T, writable: bool, after: seq<Label<T>>, k: Key)
    requires Legal(Fresh<T>(), before)
    requires t !in Run(Fresh<T>(), before).txs
    requires Legal(Begin(Run(Fresh<T>(), before), t, writable), after)
    requires forall i :: 0 <= i < |after| ==> Spares(after[i], t)
    ensures var s := Run(Fresh<T>(), before);
            var s' := Run(Begin(s, t, writable), after);
            && t in s'.txs
            && Get(s', t, k) == if k in s'.txs[t].writes then OpValue(s'.txs[t].writes[k]) else View(s.log, s.version, k)
  {
    hide Inv, Step, View, Visible;
    FreshInv<T>();
    RunInv(Fresh<T>(), before);
    var s := Run(Fresh<T>(), before);
    StepInv(s, LBegin(t, writable));
    BeginIsStep(s, t, writable);
    var b := Begin(s, t, writable);
    SnapshotIsView(b, t, k);
    RepeatableRead(b, after, t, k);
  }

  lemma {:induction false} BeginIsStep<T>(s: Sys<T>, t: T, writable: bool)
    requires t !in s.txs
    ensures Step(s, LBegin(t, writable)) == Begin(s, t, writable)
  {
  }

  // ------------------------------------------------------- conflict detection

  /** Two committed transactions that wrote a common key never overlap, in any run,
      although compaction drops versions the conflict check would look at. */
  lemma {:induction false} FirstCommitterWins<T>(ls: seq<Label<T>>)
    requires Legal(Fresh<T>(), ls)
    ensures NoOverlap(Run(Fresh<T>(), ls).commits)
  {
    FreshInv<T>();
    RunInv(Fresh<T>(), ls);
  }

  /** A commit is refused exactly when a written key was committed after the snapshot. */
  lemma {:induction false} ConflictIff<T>(ls: seq<Label<T>>, t: T)
    requires Legal(Fresh<T>(), ls) && t in Run(Fresh<T>(), ls).txs
    ensures var s := Run(Fresh<T>(), ls);
            Conflict(s, t) <==> exists k :: k in s.txs[t].writes && LastWrite(s.log, k) > s.txs[t].readVersion
  {
    hide LogOk, HistoryAgrees, DiskAgrees, CommitsOk, LastWrite, KeyConflict, Run, Legal;
    FreshInv<T>();
    RunInv(Fresh<T>(), ls);
    var s := Run(Fresh<T>(), ls);
    var x := s.txs[t];
    assert TxOk(x, s.low, s.version);
    forall k ensures KeyConflict(s.history, k, x.readVersion) <==> LastWrite(s.log, k) > x.readVersion {
      ConflictExact(s.history, s.log, s.low, s.version, k, x.readVersion);
    }
  }

  /** The same on the records: a written key is in a record committed after the snapshot. */
  ghost predicate Overtaken<T>(s: Sys<T>, t: T)
    requires t in s.txs
  {
    exists k :: k in s.txs[t].writes && WrittenAfter(s.log, k, s.txs[t].readVersion)
  }

  /** What Commit does, in every reachable state: a writable transaction that wrote something
      and was not overtaken adds one record with the next version, after which every key it
      wrote has its last write and every other key its old value; any other commit only ends
      the transaction. */
  lemma {:induction false} CommitOutcome<T>(ls: seq<Label<T>>, t: T, k: Key)
    requires Legal(Fresh<T>(), ls) && t in Run(Fresh<T>(), ls).txs
    ensures var s := Run(Fresh<T>(), ls);
            var x, s' := s.txs[t], CommitTx(s, t);
            if x.writable && x.writes != map[] && !Overtaken(s, t) then
              && s'.version == s.version + 1 && s'.txs == s.txs - {t}
              && |s'.disk| == |s.disk| + 1 && s'.disk[..|s.disk|] == s.disk && s'.disk[|s.disk|].version == s.version + 1
              && s'.commits == s.commits + [Commit(x.readVersion, s.version + 1, x.writes.Keys)]
              && View(s'.log, s'.version, k) == if k in x.writes then OpValue(x.writes[k]) else View(s.log, s.version, k)
            else s' == s.(txs := s.txs - {t})
  {
    hide Inv, Run, Legal, View, Overtaken, Conflict, CommitTx;
    FreshInv<T>();
    RunInv(Fresh<T>(), ls);
    var s := Run(Fresh<T>(), ls);
    ConflictIsOvertaken(s, t);
    if Persists(s, t) { PersistsOutcome(s, t, k); } else { CommitCloses(s, t); }
  }

  lemma {:induction false} ConflictIsOvertaken<T>(s: Sys<T>, t: T)
    requires Inv(s) && t in s.txs
    ensures Conflict(s, t) <==> Overtaken(s, t)
  {
    hide LogOk, HistoryAgrees, DiskAgrees, CommitsOk, LastWrite, WrittenAfter, KeyConflict;
    var x := s.txs[t];
    assert TxOk(x, s.low, s.version);
    forall k ensures KeyConflict(s.history, k, x.readVersion) <==> WrittenAfter(s.log, k, x.readVersion) {
      ConflictExact(s.history, s.log, s.low, s.version, k, x.readVersion);
      LastWriteIff(s.log, s.version, k, x.readVersion);
    }
  }

  lemma {:induction false} PersistsOutcome<T>(s: Sys<T>, t: T, k: Key)
    requires Inv(s) && t in s.txs && Persists(s, t)
    ensures var x, s' := s.txs[t], CommitTx(s, t);
            && s'.version == s.version + 1 && s'.txs == s.txs - {t}
            && |s'.disk| == |s.disk| + 1 && s'.disk[..|s.disk|] == s.disk && s'.disk[|s.disk|].version == s.version + 1
            && s'.commits == s.commits + [Commit(x.readVersion, s.version + 1, x.writes.Keys)]
            && View(s'.log, s'.version, k) == if k in x.writes then OpValue(x.writes[k]) else View(s.log, s.version, k)
  {
    hide LogOk, HistoryAgrees, DiskAgrees, CommitsOk, View, Apply, WriteOps, Persists, LastOp, DistinctKeys, LastWrite, LogVersions, OpVersions;
    var x, r := s.txs[t], CommitRecord(s, t);
    assert TxOk(x, s.low, s.version);
    WriteOpsFacts(x.writes);
    ViewSnoc(s.log, r, s.version + 1, k);
    LogBeyond(s, k);
  }

  lemma {:induction false} LogBeyond<T>(s: Sys<T>, k: Key)
    requires Inv(s)
    ensures View(s.log, s.version + 1, k) == View(s.log, s.version, k)
  {
    hide HistoryAgrees, DiskAgrees, CommitsOk, View;
    ViewBeyond(s.log, s.version, s.version + 1, k);
  }

  // ------------------------------------------------- read-only transactions

  lemma {:induction false} ReadOnlyStep<T>(s: Sys<T>, l: Label<T>, t: T)
    requires Enabled(s, l) && t in s.txs && !s.txs[t].writable && s.txs[t].writes == map[] && Spares(l, t)
    ensures t in Step(s, l).txs && !Step(s, l).txs[t].writable && Step(s, l).txs[t].writes == map[]
  {
    hide Apply, PruneHistory, CompactRecords, WriteOps, Conflict, Oldest;
  }

  lemma {:induction false} ReadOnlyRun<T>(s: Sys<T>, ls: seq<Label<T>>, t: T)
    requires Legal(s, ls) && t in s.txs && !s.txs[t].writable && s.txs[t].writes == map[]
    requires forall i :: 0 <= i < |ls| ==> Spares(ls[i], t)
    ensures t in Run(s, ls).txs && !Run(s, ls).txs[t].writable && Run(s, ls).txs[t].writes == map[]
    decreases |ls|
  {
    hide Step;
    if ls != [] {
      ReadOnlyStep(s, ls[0], t);
      ReadOnlyRun(Step(s, ls[0]), ls[1..], t);
    }
  }

  /** A transaction begun read-only never has a write of its own, whatever it is asked to
      write, and its commit only ends it. */
  lemma {:induction false} ReadOnlyChangesNothing<T>(before: seq<Label<T>>, t: T, after: seq<Label<T>>, m: map<Key, Str>)
    requires Legal(Fresh<T>(), before) && t !in Run(Fresh<T>(), before).txs
    requires Legal(Begin(Run(Fresh<T>(), before), t, false), after) && forall i :: 0 <= i < |after| ==> Spares(after[i], t)
    ensures var s := Run(Begin(Run(Fresh<T>(), before), t, false), after);
            && t in s.txs && s.txs[t].writes == map[]
            && CommitTx(s, t) == s.(txs := s.txs - {t}) && Effect(s, LCommit(t), m) == m
  {
    hide Run, Legal;
    ReadOnlyRun(Begin(Run(Fresh<T>(), before), t, false), after, t);
  }

  // ------------------------------------------------- what compaction leaves

  lemma {:induction false} PrunedAt(h: History, retain: nat, k: Key)
    ensures Versions(PruneHistory(h, retain), k) == if k in h then Prune(h[k], retain) else []
    ensures k in PruneHistory(h, retain) ==> PruneHistory(h, retain)[k] != []
  {
    hide Prune;
  }

  lemma {:induction false} CompactPrunes<T>(s: Sys<T>, renamed: bool, k: Key)
    requires Inv(s)
    ensures var s' := Compact(s, renamed);
            && Pruned(Versions(s.history, k), Oldest(s), Versions(s'.history, k))
            && (k in s'.history <==> Versions(s'.history, k) != [])
  {
    hide Prune, Oldest, CompactRecords, LogOk, HistoryAgrees, DiskAgrees, CommitsOk, Increasing, Pruned;
    PrunedAt(s.history, Oldest(s), k);
    HistoryIsOk(s.history, s.log, s.low, s.version);
    if k in s.history {
      PruneExact(s.history[k], Oldest(s));
    } else {
      NothingPruned(Oldest(s));
    }
  }

  lemma {:induction false} NothingPruned(retain: nat)
    ensures Pruned([], retain, [])
  {
  }

  /** After a compaction in any reachable state, a key has at most one version that is not
      above the oldest snapshot, and no key is left whose newest version is a deletion there. */
  lemma {:induction false} CompactLeavesOne<T>(ls: seq<Label<T>>, renamed: bool, k: Key)
    requires Legal(Fresh<T>(), ls)
    ensures var s := Run(Fresh<T>(), ls);
            var vs, out := Versions(s.history, k), Versions(Compact(s, renamed).history, k);
            && (forall i :: 1 <= i < |out| ==> out[i].version > Oldest(s))
            && (k in Compact(s, renamed).history <==> vs != [] && !(vs[|vs| - 1].version <= Oldest(s) && vs[|vs| - 1].deleted))
  {
    hide Inv, Run, Legal, Compact, Oldest, Versions;
    FreshInv<T>();
    RunInv(Fresh<T>(), ls);
    CompactPrunes(Run(Fresh<T>(), ls), renamed, k);
  }

  /** With no reader the history then holds exactly the live keys, each with its value as the
      only version, and the new file holds exactly these, at the current version. */
  lemma {:induction false} CompactLeavesLive<T>(ls: seq<Label<T>>, k: Key)
    requires Legal(Fresh<T>(), ls) && Run(Fresh<T>(), ls).txs == map[]
    ensures var s := Run(Fresh<T>(), ls);
            var s' := Compact(s, true);
            match View(s.log, s.version, k)
            case None => k !in s'.history && LogVersions(s'.disk, k) == []
            case Some(v) =>
              && k in s'.history && |s'.history[k]| == 1 && s'.history[k][0].value == v && !s'.history[k][0].deleted
              && LogVersions(s'.disk, k) == [Ver(s.version, v, false)]
  {
    hide Inv, Run, Legal, View, Oldest;
    FreshInv<T>();
    RunInv(Fresh<T>(), ls);
    var s := Run(Fresh<T>(), ls);
    OldestBounds(s);
    CompactPrunes(s, true, k);
    SnapshotKept(s, k);
  }

  lemma {:induction false} SnapshotKept<T>(s: Sys<T>, k: Key)
    requires Inv(s) && Oldest(s) == s.version
    ensures var vs, out := Versions(s.history, k), Versions(Compact(s, true).history, k);
            && |out| <= 1
            && View(s.log, s.version, k) == (if out == [] then None else Some(out[0].value))
            && (out != [] ==> !out[0].deleted)
            && LogVersions(Compact(s, true).disk, k) == if out == [] then [] else [Ver(s.version, out[0].value, false)]
  {
    hide Oldest, HistoryAgrees, DiskAgrees, CommitsOk, LogOk, View, LogVersions, Prune, PruneHistory, CompactRecords;
    var s' := Compact(s, true);
    var vs, out := Versions(s.history, k), Versions(s'.history, k);
    CompactPrunes(s, true, k);
    HistoryIsOk(s.history, s.log, s.low, s.version);
    AllUpTo(s.history, s.version, k);
    ReadIsView(s.history, s.log, s.low, s.version, k);
    VisibleLast(vs, s.version);
    SnapshotVersions(s'.history, s.version, k);
  }

  lemma {:induction false} AllUpTo(h: History, version: nat, k: Key)
    requires HistoryOk(h, version)
    ensures forall i :: 0 <= i < |Versions(h, k)| ==> Versions(h, k)[i].version <= version
  {
  }

  lemma {:induction false} VisibleLast(vs: seq<Ver>, v: nat)
    requires forall i :: 0 <= i < |vs| ==> vs[i].version <= v
    ensures Visible(vs, v) == if vs == [] || vs[|vs| - 1].deleted then None else Some(vs[|vs| - 1].value)
  {
    BaseIndexUnique(vs, v, |vs| - 1);
  }

  lemma {:induction false} SnapshotVersions(h: History, version: nat, k: Key)
    ensures var vs := Versions(h, k);
            LogVersions(CompactRecords(h, version, version), k) ==
              if vs == [] || vs[|vs| - 1].deleted then [] else [Ver(version, vs[|vs| - 1].value, false)]
  {
    hide LiveOps, LastOp, OpVersions, DistinctKeys;
    var keys := SortKeys(h.Keys);
    var ops := LiveOps(h, keys);
    LiveOpsLast(h, keys, k);
    LiveOpsDistinct(h, keys);
    OneVersionPerRecord(version, ops, k);
    var recs := CompactRecords(h, version, version);
    if ops == [] {
      NoOps(version, k);
      OneVersionPerRecord(version, [], k);
    } else {
      assert recs[..0] == [] && LogVersions([], k) == [];
      assert LogVersions(recs, k) == [] + OpVersions(version, ops, k);
    }
  }

  // ------------------------------------------------------------ the WAL

  /** In every state of every run, replaying the WAL gives what memory shows, for every
      key and every version from the retention mark upward. */
  lemma {:induction false} WalAgreesWithMemory<T>(ls: seq<Label<T>>, v: nat, k: Key)
    requires Legal(Fresh<T>(), ls) && Run(Fresh<T>(), ls).low <= v
    ensures var s := Run(Fresh<T>(), ls);
            Visible(Versions(Replay(s.disk), k), v) == Visible(Versions(s.history, k), v) == View(s.log, v, k)
  {
    hide LogOk, HistoryAgrees, CommitsOk, View, Visible, Run, Legal;
    FreshInv<T>();
    RunInv(Fresh<T>(), ls);
    var s := Run(Fresh<T>(), ls);
    ReplayVersions(s.disk, k);
    VisibleIsView(s.disk, v, k);
    ReadIsView(s.history, s.log, s.low, v, k);
  }

  /** Every open snapshot is at or above the mark, so the agreement covers it. */
  lemma {:induction false} MarkBelowSnapshots<T>(ls: seq<Label<T>>, t: T)
    requires Legal(Fresh<T>(), ls) && t in Run(Fresh<T>(), ls).txs
    ensures var s := Run(Fresh<T>(), ls);
            s.low <= Oldest(s) <= s.txs[t].readVersion <= s.version
  {
    FreshInv<T>();
    RunInv(Fresh<T>(), ls);
    var s := Run(Fresh<T>(), ls);
    OldestBounds(s);
    assert TxOk(s.txs[t], s.low, s.version);
  }

  // ------------------------------------------------------------ durability

  /** The effect of a write set on a plain map. */
  function ApplyWrites(m: map<Key, Str>, writes: map<Key, Op>): map<Key, Str>
  {
    (map k | k in m && k !in writes :: m[k]) + (map k | k in writes && !writes[k].delete :: writes[k].value)
  }

  /** What a step does to the database seen as a plain map: only a commit that persists changes it. */
  function Effect<T>(s: Sys<T>, l: Label<T>, m: map<Key, Str>): map<Key, Str>
    requires Enabled(s, l)
  {
    if (l.LCommit? || (l.LCrashInCommit? && l.landed)) && Persists(s, l.t) then ApplyWrites(m, s.txs[l.t].writes) else m
  }

  ghost function RunEffect<T>(s: Sys<T>, ls: seq<Label<T>>, m: map<Key, Str>): map<Key, Str>
    requires Legal(s, ls)
    decreases |ls|
  {
    if ls == [] then m else RunEffect(Step(s, ls[0]), ls[1..], Effect(s, ls[0], m))
  }

  function Lookup(m: map<Key, Str>, k: Key): Option<Str>
  {
    if k in m then Some(m[k]) else None
  }

  /** The current version of the database shows the map. */
  ghost predicate Shows<T>(s: Sys<T>, m: map<Key, Str>)
  {
    forall k :: View(s.log, s.version, k) == Lookup(m, k)
  }

  lemma {:induction false} CommitShows<T>(s: Sys<T>, t: T, m: map<Key, Str>)
    requires Inv(s) && t in s.txs && Persists(s, t) && Shows(s, m)
    ensures Shows(CommitTx(s, t), ApplyWrites(m, s.txs[t].writes))
  {
    hide HistoryAgrees, DiskAgrees, CommitsOk, Apply, View, LastOp, WriteOps;
    var r, writes := CommitRecord(s, t), s.txs[t].writes;
    assert TxOk(s.txs[t], s.low, s.version);
    WriteOpsFacts(writes);
    forall k ensures View(s.log + [r], s.version + 1, k) == Lookup(ApplyWrites(m, writes), k) {
      ViewSnoc(s.log, r, s.version + 1, k);
      ViewBeyond(s.log, s.version, s.version + 1, k);
    }
  }

  lemma {:induction false} ReopenShows<T>(s: Sys<T>, m: map<Key, Str>)
    requires Inv(s) && Shows(s, m)
    ensures Shows(Reopen(s), m)
  {
    hide HistoryAgrees, CommitsOk, View;
    var v := MaxVersion(s.disk);
    MaxVersionIsMax(s.disk);
    if s.disk != [] {
      var i :| 0 <= i < |s.disk| && s.disk[i].version == v;
    }
    forall k ensures View(s.disk, v, k) == Lookup(m, k) {
      ViewBeyond(s.disk, v, s.version, k);
    }
  }

  lemma {:induction false} StepShows<T>(s: Sys<T>, l: Label<T>, m: map<Key, Str>)
    requires Inv(s) && Enabled(s, l) && Shows(s, m)
    ensures Shows(Step(s, l), Effect(s, l, m))
  {
    hide Inv, View, CommitTx, Reopen, CommitRecord, ApplyWrites, Lookup;
    match l
    case LBegin(t, writable) =>
    case LWrite(t, op) =>
    case LRollback(t) =>
    case LCommit(t) =>
      if Persists(s, t) { CommitShows(s, t, m); } else { CommitCloses(s, t); }
    case LCompact(renamed) =>
    case LCrash => ReopenShows(s, m);
    case LCrashInCommit(t, landed) =>
      if landed && Persists(s, t) {
        CommitInv(s, t);
        CommitShows(s, t, m);
        LandedReopen(s, t);
        ReopenShows(CommitTx(s, t), ApplyWrites(m, s.txs[t].writes));
      } else {
        ReopenShows(s, m);
      }
    case LCrashInCompact(renamed) =>
      CompactInv(s, renamed);
      ReopenShows(Compact(s, renamed), m);
  }

  lemma {:induction false} CommitCloses<T>(s: Sys<T>, t: T)
    requires t in s.txs && !Persists(s, t)
    ensures CommitTx(s, t) == Close(s, t)
  {
  }

  /** Durability and atomicity: after any run, with compactions and crashes at any
      point, the database shows exactly the committed write sets applied in order; a
      commit cut short by a crash counts as a whole or not at all. */
  lemma {:induction false} Durable<T>(s: Sys<T>, ls: seq<Label<T>>, m: map<Key, Str>)
    requires Inv(s) && Legal(s, ls) && Shows(s, m)
    ensures Shows(Run(s, ls), RunEffect(s, ls, m))
    decreases |ls|
  {
    hide Inv, Step, Shows, Effect;
    if ls != [] {
      StepInv(s, ls[0]);
      StepShows(s, ls[0], m);
      Durable(Step(s, ls[0]), ls[1..], Effect(s, ls[0], m));
    }
  }

  /** The same from an empty database, as a new reader sees it. */
  lemma {:induction false} NewReaderSeesCommitted<T>(ls: seq<Label<T>>, t: T, k: Key)
    requires Legal(Fresh<T>(), ls) && t !in Run(Fresh<T>(), ls).txs
    ensures Get(Begin(Run(Fresh<T>(), ls), t, false), t, k) == Lookup(RunEffect(Fresh<T>(), ls, map[]), k)
  {
    hide Inv, Step, View, Visible, Effect, Run, RunEffect, Legal;
    var f := Fresh<T>();
    FreshInv<T>();
    FreshShows<T>();
    Durable(f, ls, map[]);
    RunInv(f, ls);
    var s := Run(f, ls);
    StepInv(s, LBegin(t, false));
    BeginIsStep(s, t, false);
    SnapshotIsView(Begin(s, t, false), t, k);
  }

  lemma {:induction false} FreshShows<T>()
    ensures Shows(Fresh<T>(), map[])
  {
  }
}
