/**
 The transaction kernel as a state machine: Begin, writes, Commit, Rollback, Compact,
 crash and reopen, each atomic under the database lock.  The log of committed records
 is kept beside the code's own state as the specification.
 */
module Transactions {
  import opened Strings
  import opened Mvcc
  import opened Compaction
  import opened Sorting

  /** An open transaction. */
  datatype TxState = TxState(readVersion: nat, writable: bool, writes: map<Key, Op>)

  /** A committed transaction: the snapshot it read, the version it got, the keys it wrote. */
  datatype Commit = Commit(read: nat, version: nat, keys: set<Key>)

  /** `history`, `version` and the open transactions are the code's state, `disk` the
      records in the WAL.  `log` holds every record committed since the database was
      opened on top of those found then, `low` is the highest retention mark used so
      far, `commits` lists the committed transactions. */
  datatype Sys<T(==)> = Sys(
    history: History, version: nat, txs: map<T, TxState>, disk: seq<Record>,
    log: seq<Record>, low: nat, commits: seq<Commit>)

  // ------------------------------------------------------------------ steps

  function Begin<T>(s: Sys<T>, t: T, writable: bool): Sys<T>
    requires t !in s.txs
  {
    s.(txs := s.txs[t := TxState(s.version, writable, map[])])
  }

  /** `put` and `del`; a read-only transaction refuses. */
  function Write<T>(s: Sys<T>, t: T, op: Op): Sys<T>
    requires t in s.txs
  {
    var x := s.txs[t];
    if x.writable then s.(txs := s.txs[t := x.(writes := x.writes[op.key := op])]) else s
  }

  /** `Tx.Get`: own writes first, then the history at the read version. */
  function Get<T>(s: Sys<T>, t: T, k: Key): Option<Str>
    requires t in s.txs
  {
    var x := s.txs[t];
    if k in x.writes then OpValue(x.writes[k]) else Visible(Versions(s.history, k), x.readVersion)
  }

  function Close<T>(s: Sys<T>, t: T): Sys<T>
  {
    s.(txs := s.txs - {t})
  }

  /** The conflict check of `Commit`: a written key has a version above the snapshot. */
  predicate KeyConflict(h: History, k: Key, readVersion: nat)
  {
    var vs := Versions(h, k);
    vs != [] && vs[|vs| - 1].version > readVersion
  }

  predicate Conflict<T>(s: Sys<T>, t: T)
    requires t in s.txs
  {
    exists k :: k in s.txs[t].writes && KeyConflict(s.history, k, s.txs[t].readVersion)
  }

  /** The operations of a write set in key order. */
  ghost function WriteOps(writes: map<Key, Op>): seq<Op>
  {
    var ks := SortKeys(writes.Keys);
    seq(|ks|, i requires 0 <= i < |ks| => assert ks[i] in ks; writes[ks[i]])
  }

  /** Commit writes a record: the transaction is writable, wrote something, and has no conflict. */
  predicate Persists<T>(s: Sys<T>, t: T)
    requires t in s.txs
  {
    s.txs[t].writable && s.txs[t].writes != map[] && !Conflict(s, t)
  }

  ghost function CommitRecord<T>(s: Sys<T>, t: T): Record
    requires t in s.txs
  {
    Record(s.version + 1, WriteOps(s.txs[t].writes))
  }

  ghost function CommitTx<T>(s: Sys<T>, t: T): Sys<T>
    requires t in s.txs
  {
    if !Persists(s, t) then Close(s, t) else
      var r := CommitRecord(s, t);
      Sys(Apply(s.history, r), s.version + 1, s.txs - {t}, s.disk + [r], s.log + [r], s.low,
          s.commits + [Commit(s.txs[t].readVersion, r.version, s.txs[t].writes.Keys)])
  }

  /** `oldestReadVersion` */
  ghost function Oldest<T>(s: Sys<T>): nat
  {
    var rs := set t | t in s.txs :: s.txs[t].readVersion;
    if rs == {} then s.version else LeastNatOf(rs)
  }

  /** `Compact`: prune, then rewrite the WAL; `renamed` says whether the new file took the old one's place. */
  ghost function Compact<T>(s: Sys<T>, renamed: bool): Sys<T>
  {
    var retain := Oldest(s);
    var h := PruneHistory(s.history, retain);
    s.(history := h, low := retain, disk := if renamed then CompactRecords(h, s.version, retain) else s.disk)
  }

  /** A crash loses everything but the file; opening it again replays it. */
  function Reopen<T>(s: Sys<T>): Sys<T>
  {
    Sys(Replay(s.disk), MaxVersion(s.disk), map[], s.disk, s.disk, 0, [])
  }

  /** A crash while Commit appends: the record did or did not reach the file in full. */
  ghost function CrashInCommit<T>(s: Sys<T>, t: T, landed: bool): Sys<T>
    requires t in s.txs
  {
    if landed && Persists(s, t) then Reopen(s.(disk := s.disk + [CommitRecord(s, t)])) else Reopen(s)
  }

  datatype Label<T> =
    | LBegin(t: T, writable: bool)
    | LWrite(t: T, op: Op)
    | LRollback(t: T)
    | LCommit(t: T)
    | LCompact(renamed: bool)
    | LCrash
    | LCrashInCommit(t: T, landed: bool)
    | LCrashInCompact(renamed: bool)

  predicate Enabled<T>(s: Sys<T>, l: Label<T>)
  {
    match l
    case LBegin(t, _) => t !in s.txs
    case LWrite(t, _) => t in s.txs
    case LRollback(t) => t in s.txs
    case LCommit(t) => t in s.txs
    case LCrashInCommit(t, _) => t in s.txs
    case _ => true
  }

  ghost function Step<T>(s: Sys<T>, l: Label<T>): Sys<T>
    requires Enabled(s, l)
  {
    match l
    case LBegin(t, writable) => Begin(s, t, writable)
    case LWrite(t, op) => Write(s, t, op)
    case LRollback(t) => Close(s, t)
    case LCommit(t) => CommitTx(s, t)
    case LCompact(renamed) => Compact(s, renamed)
    case LCrash => Reopen(s)
    case LCrashInCommit(t, landed) => CrashInCommit(s, t, landed)
    case LCrashInCompact(renamed) => Reopen(Compact(s, renamed))
  }

  function Fresh<T(==)>(): Sys<T>
  {
    Sys(map[], 0, map[], [], [], 0, [])
  }

  // -------------------------------------------------------------- invariant

  /** History and log: what is gone is invisible from `low` upward. */
  ghost predicate HistoryAgrees(h: History, log: seq<Record>, low: nat)
  {
    && (forall k :: Cut(LogVersions(log, k), Versions(h, k), low))
    && (forall k :: k in h ==> h[k] != [])
  }

  /** The records on disk say the same as the log, for every reader from `low` upward. */
  ghost predicate DiskAgrees(disk: seq<Record>, log: seq<Record>, low: nat)
  {
    forall v: nat, k :: low <= v ==> View(disk, v, k) == View(log, v, k)
  }

  predicate TxOk(x: TxState, low: nat, version: nat)
  {
    low <= x.readVersion <= version && forall k :: k in x.writes ==> x.writes[k].key == k
  }

  ghost predicate CommitsOk(commits: seq<Commit>, log: seq<Record>, version: nat)
  {
    && (forall i :: 0 <= i < |commits| ==> commits[i].version <= version)
    && (forall i, k :: 0 <= i < |commits| && k in commits[i].keys ==> commits[i].version <= LastWrite(log, k))
    && NoOverlap(commits)
  }

  /** Of two committed transactions with a common written key, the later one read a
      snapshot that includes the earlier one. */
  ghost predicate NoOverlap(commits: seq<Commit>)
  {
    forall i, j, k :: 0 <= i < j < |commits| && k in commits[i].keys && k in commits[j].keys ==>
      commits[i].version <= commits[j].read
  }

  ghost predicate Inv<T>(s: Sys<T>)
  {
    && LogOk(s.log, s.version) && LogOk(s.disk, s.version) && s.low <= s.version
    && HistoryAgrees(s.history, s.log, s.low)
    && DiskAgrees(s.disk, s.log, s.low)
    && (forall t :: t in s.txs ==> TxOk(s.txs[t], s.low, s.version))
    && CommitsOk(s.commits, s.log, s.version)
  }

  // -------------------------------------------------- consequences of Inv

  /** The history is well formed. */
  lemma {:induction false} HistoryIsOk(h: History, log: seq<Record>, low: nat, version: nat)
    requires HistoryAgrees(h, log, low) && LogOk(log, version)
    ensures HistoryOk(h, version)
  {
    hide LogOk, Cut, CutOk, LogVersions, LastWrite;
    forall k | k in h ensures VersOk(h[k], version) {
      LogVersionsOrdered(log, version, k);
      var full := LogVersions(log, k);
      assert Cut(full, Versions(h, k), low);
      var j := CutAt(full, h[k], low);
      SuffixOk(full, j, version);
    }
  }

  lemma {:induction false} SuffixOk(vs: seq<Ver>, j: nat, version: nat)
    requires VersOk(vs, version) && j <= |vs|
    ensures VersOk(vs[j..], version)
  {
  }

  /** Reading the pruned history at or above `low` gives the committed value. */
  lemma {:induction false} ReadIsView(h: History, log: seq<Record>, low: nat, v: nat, k: Key)
    requires HistoryAgrees(h, log, low) && low <= v
    ensures Visible(Versions(h, k), v) == View(log, v, k)
  {
    hide Visible, View;
    CutVisible(LogVersions(log, k), Versions(h, k), low, v);
    VisibleIsView(log, v, k);
  }

  /** The conflict check is exact for every snapshot at or above `low`, although the
      history it looks at has lost versions and whole keys. */
  lemma {:induction false} ConflictExact(h: History, log: seq<Record>, low: nat, version: nat, k: Key, v: nat)
    requires HistoryAgrees(h, log, low) && LogOk(log, version) && low <= v
    ensures KeyConflict(h, k, v) <==> LastWrite(log, k) > v
  {
    hide LogOk;
    CutLast(LogVersions(log, k), Versions(h, k), low);
    LogVersionsOrdered(log, version, k);
  }

  lemma {:induction false} OldestBounds<T>(s: Sys<T>)
    requires Inv(s)
    ensures s.low <= Oldest(s) <= s.version
    ensures forall t :: t in s.txs ==> Oldest(s) <= s.txs[t].readVersion
    ensures if s.txs == map[] then Oldest(s) == s.version else exists t :: t in s.txs && Oldest(s) == s.txs[t].readVersion
  {
    hide HistoryAgrees, DiskAgrees, CommitsOk, LogOk;
    var rs := set t | t in s.txs :: s.txs[t].readVersion;
    forall t | t in s.txs ensures s.txs[t].readVersion in rs { }
    if s.txs != map[] {
      var t :| t in s.txs;
      assert s.txs[t].readVersion in rs;
    }
    if rs != {} {
      var m := LeastNatOf(rs);
      var t :| t in s.txs && s.txs[t].readVersion == m;
      assert TxOk(s.txs[t], s.low, s.version);
    }
  }

  // ------------------------------------------------------------ preservation

  lemma {:induction false} WriteOpsFacts(writes: map<Key, Op>)
    requires forall k :: k in writes ==> writes[k].key == k
    ensures DistinctKeys(WriteOps(writes))
    ensures forall k :: LastOp(WriteOps(writes), k) == if k in writes then Some(writes[k]) else None
  {
    hide StrLess;
    var ks, ops := SortKeys(writes.Keys), WriteOps(writes);
    forall i | 0 <= i < |ks| ensures ops[i].key == ks[i] && ks[i] in writes {
      assert ks[i] in ks;
    }
    forall i, j | 0 <= i < j < |ops| ensures ops[i].key != ops[j].key {
      StrLessTotal(ks[i], ks[j]);
    }
    forall k ensures LastOp(ops, k) == if k in writes then Some(writes[k]) else None {
      OneVersionPerRecord(0, ops, k);
      if k in writes {
        assert k in ks;
        var i :| 0 <= i < |ks| && ks[i] == k;
        assert ops[i].key == k;
        var j :| 0 <= j < |ops| && ops[j] == LastOp(ops, k).value;
        assert ops[j].key == ks[j] == k;
      }
    }
  }

  /** A record lists its operations in key order, one for each key written. */
  lemma {:induction false} WriteOpsSorted(writes: map<Key, Op>)
    requires forall k :: k in writes ==> writes[k].key == k
    ensures |WriteOps(writes)| == |writes|
    ensures forall i, j :: 0 <= i < j < |WriteOps(writes)| ==> StrLess(WriteOps(writes)[i].key, WriteOps(writes)[j].key)
    ensures forall i :: 0 <= i < |WriteOps(writes)| ==> WriteOps(writes)[i].key in writes && WriteOps(writes)[i] == writes[WriteOps(writes)[i].key]
  {
    hide StrLess, SortKeys;
    var ks, ops := SortKeys(writes.Keys), WriteOps(writes);
    SortedCount(writes.Keys);
    forall i | 0 <= i < |ks| ensures ks[i] in writes && ops[i] == writes[ks[i]] && ops[i].key == ks[i] { assert ks[i] in ks; }
  }

  lemma {:induction false} ViewSnoc(log: seq<Record>, r: Record, v: nat, k: Key)
    ensures View(log + [r], v, k) ==
              if r.version <= v && LastOp(r.ops, k).Some? then OpValue(LastOp(r.ops, k).value) else View(log, v, k)
    ensures LastWrite(log + [r], k) == if LastOp(r.ops, k).Some? then r.version else LastWrite(log, k)
    ensures LogVersions(log + [r], k) == LogVersions(log, k) + OpVersions(r.version, r.ops, k)
  {
    assert (log + [r])[..|log|] == log;
  }

  /** Applying the committed record keeps history and log in agreement. */
  lemma {:induction false} ApplyAgrees(h: History, log: seq<Record>, low: nat, r: Record)
    requires HistoryAgrees(h, log, low) && low < r.version && DistinctKeys(r.ops)
    ensures HistoryAgrees(Apply(h, r), log + [r], low)
  {
    hide Cut, LogVersions, OpVersions, ApplyOps;
    forall k ensures Cut(LogVersions(log + [r], k), Versions(Apply(h, r), k), low) {
      ViewSnoc(log, r, 0, k);
      ApplyOpsVersions(h, r.version, r.ops, k);
      OneVersionPerRecord(r.version, r.ops, k);
      CutAppend(LogVersions(log, k), Versions(h, k), low, OpVersions(r.version, r.ops, k));
    }
    ApplyOpsKeys(h, r.version, r.ops);
  }

  lemma {:induction false} DiskSnoc(disk: seq<Record>, log: seq<Record>, low: nat, r: Record)
    requires DiskAgrees(disk, log, low)
    ensures DiskAgrees(disk + [r], log + [r], low)
  {
    hide View;
    forall v: nat, k | low <= v ensures View(disk + [r], v, k) == View(log + [r], v, k) {
      ViewSnoc(disk, r, v, k);
      ViewSnoc(log, r, v, k);
    }
  }

  lemma {:induction false} LogOkSnoc(log: seq<Record>, version: nat, r: Record)
    requires LogOk(log, version) && r.version == version + 1 && DistinctKeys(r.ops)
    ensures LogOk(log + [r], version + 1)
  {
  }

  lemma {:induction false} CommitsSnoc<T>(s: Sys<T>, t: T)
    requires Inv(s) && t in s.txs && Persists(s, t)
    ensures CommitsOk(CommitTx(s, t).commits, CommitTx(s, t).log, s.version + 1)
  {
    hide LogOk, HistoryAgrees, DiskAgrees, Apply, LastWrite;
    var x, r := s.txs[t], CommitRecord(s, t);
    var c := Commit(x.readVersion, r.version, x.writes.Keys);
    WriteOpsFacts(x.writes);
    assert TxOk(x, s.low, s.version);
    forall k ensures LastWrite(s.log + [r], k) == if k in x.writes then r.version else LastWrite(s.log, k) {
      ViewSnoc(s.log, r, 0, k);
    }
    forall i, k | 0 <= i < |s.commits| && k in s.commits[i].keys && k in c.keys
      ensures s.commits[i].version <= c.read
    {
      ConflictExact(s.history, s.log, s.low, s.version, k, x.readVersion);
    }
  }

  lemma {:induction false} CommitInv<T>(s: Sys<T>, t: T)
    requires Inv(s) && t in s.txs
    ensures Inv(CommitTx(s, t))
  {
    hide LogOk, HistoryAgrees, DiskAgrees, CommitsOk, Apply, Persists, WriteOps, DistinctKeys, LastOp;
    if Persists(s, t) {
      var x, r := s.txs[t], CommitRecord(s, t);
      assert TxOk(x, s.low, s.version);
      WriteOpsFacts(x.writes);
      CommitsSnoc(s, t);
      ApplyAgrees(s.history, s.log, s.low, r);
      DiskSnoc(s.disk, s.log, s.low, r);
      LogOkSnoc(s.log, s.version, r);
      LogOkSnoc(s.disk, s.version, r);
      assert forall u :: u in s.txs - {t} ==> TxOk(s.txs[u], s.low, s.version);
    }
  }

  lemma {:induction false} PruneAgrees(h: History, log: seq<Record>, low: nat, retain: nat)
    requires HistoryAgrees(h, log, low) && low <= retain
    ensures HistoryAgrees(PruneHistory(h, retain), log, retain)
  {
    hide Cut, LogVersions, Prune;
    var h' := PruneHistory(h, retain);
    forall k ensures Cut(LogVersions(log, k), Versions(h', k), retain) {
      CutPrune(LogVersions(log, k), Versions(h, k), low, retain);
      PruneEmpty(retain);
      assert Versions(h', k) == Prune(Versions(h, k), retain);
    }
  }

  lemma {:induction false} PruneEmpty(retain: nat)
    ensures Prune([], retain) == []
  {
  }

  lemma {:induction false} SomeVersion(vs: seq<Ver>, version: nat)
    requires VersOk(vs, version) && vs != []
    ensures version > 0
  {
    assert 0 < vs[0].version <= version;
  }

  lemma {:induction false} EmptyHistory(h: History, version: nat)
    requires HistoryOk(h, version) && version == 0
    ensures h == map[]
  {
    forall k ensures k !in h {
      if k in h { SomeVersion(h[k], version); }
    }
  }

  lemma {:induction false} CompactedLogOk(h: History, version: nat, retain: nat)
    requires HistoryOk(h, version) && retain <= version
    ensures LogOk(CompactRecords(h, version, retain), version)
  {
    if version > 0 {
      CompactRecordsOk(h, version, retain);
    } else {
      EmptyHistory(h, version);
      assert SortKeys({}) == [] && LiveOps(h, []) == [];
    }
  }

  lemma {:induction false} CompactDiskAgrees(h: History, log: seq<Record>, version: nat, retain: nat)
    requires HistoryAgrees(h, log, retain) && LogOk(log, version) && retain <= version
    ensures DiskAgrees(CompactRecords(h, version, retain), log, retain)
    ensures LogOk(CompactRecords(h, version, retain), version)
  {
    hide LogOk, Cut, View, CompactRecords, Visible;
    HistoryIsOk(h, log, retain, version);
    CompactedLogOk(h, version, retain);
    forall v: nat, k | retain <= v ensures View(CompactRecords(h, version, retain), v, k) == View(log, v, k) {
      CompactView(h, version, retain, v, k);
      ReadIsView(h, log, retain, v, k);
    }
  }

  lemma {:induction false} CompactInv<T>(s: Sys<T>, renamed: bool)
    requires Inv(s)
    ensures Inv(Compact(s, renamed))
  {
    hide LogOk, HistoryAgrees, CommitsOk, CompactRecords, PruneHistory, Oldest;
    OldestBounds(s);
    var retain := Oldest(s);
    var h := PruneHistory(s.history, retain);
    PruneAgrees(s.history, s.log, s.low, retain);
    CompactDiskAgrees(h, s.log, s.version, retain);
    forall t | t in s.txs ensures TxOk(s.txs[t], retain, s.version) {
      assert TxOk(s.txs[t], s.low, s.version);
    }
  }

  lemma {:induction false} ReopenInv<T>(s: Sys<T>)
    requires LogOk(s.disk, s.version)
    ensures Inv(Reopen(s)) && Reopen(s).version <= s.version
  {
    MaxVersionIsMax(s.disk);
    var h := Replay(s.disk);
    forall k ensures Cut(LogVersions(s.disk, k), Versions(h, k), 0) {
      ReplayVersions(s.disk, k);
    }
    ReplayKeys(s.disk);
  }

  /** Every step of the machine keeps the invariant. */
  lemma {:induction false} StepInv<T>(s: Sys<T>, l: Label<T>)
    requires Inv(s) && Enabled(s, l)
    ensures Inv(Step(s, l))
  {
    hide LogOk, HistoryAgrees, DiskAgrees, CommitsOk, CommitTx, Compact, Reopen, CommitRecord, TxOk;
    match l
    case LBegin(t, writable) =>
      BeginOk(s.low, s.version, writable);
    case LWrite(t, op) =>
      WriteOk(s.txs[t], op, s.low, s.version);
    case LRollback(t) =>
    case LCommit(t) => CommitInv(s, t);
    case LCompact(renamed) => CompactInv(s, renamed);
    case LCrash => ReopenInv(s);
    case LCrashInCommit(t, landed) =>
      if landed && Persists(s, t) {
        CommitInv(s, t);
        LandedReopen(s, t);
      } else {
        ReopenInv(s);
      }
    case LCrashInCompact(renamed) =>
      CompactInv(s, renamed);
      ReopenInv(Compact(s, renamed));
  }

  lemma {:induction false} BeginOk(low: nat, version: nat, writable: bool)
    requires low <= version
    ensures TxOk(TxState(version, writable, map[]), low, version)
  {
  }

  lemma {:induction false} WriteOk(x: TxState, op: Op, low: nat, version: nat)
    requires TxOk(x, low, version)
    ensures TxOk(x.(writes := x.writes[op.key := op]), low, version)
  {
  }

  lemma {:induction false} LandedReopen<T>(s: Sys<T>, t: T)
    requires t in s.txs && Persists(s, t) && Inv(CommitTx(s, t))
    ensures Reopen(s.(disk := s.disk + [CommitRecord(s, t)])) == Reopen(CommitTx(s, t))
    ensures Inv(Reopen(CommitTx(s, t)))
  {
    ReopenInv(CommitTx(s, t));
  }
}
