/**
 The database and transaction objects of db.go, tx.go and compact.go.  Their methods
 update fields in place; each is proved to take the abstract state `Abs()` to the one
 the state machine of `Transactions` gives, so what holds of its runs holds here.
 */
module Engine {
  import opened Strings
  import opened Mvcc
  import opened Compaction
  import opened Sorting
  import opened Transactions
  import Wal
  import WalRecovery

  // ------------------------------------------------- loops over plain values

  /** `pruneVersions` */
  method PruneVersions(versions: seq<Ver>, retain: nat) returns (out: seq<Ver>)
    ensures out == Prune(versions, retain)
    ensures Increasing(versions) ==> Pruned(versions, retain, out)
  {
    hide Increasing, Pruned, BaseIndex;
    if Increasing(versions) { PruneExact(versions, retain); }
    if |versions| == 0 {
      return [];
    }
    var baseIdx := -1;
    var i := |versions| - 1;
    while i >= 0
      invariant -1 <= i < |versions| && baseIdx == -1
      invariant forall j :: i < j < |versions| ==> versions[j].version > retain
    {
      if versions[i].version <= retain {
        baseIdx := i;
        break;
      }
      i := i - 1;
    }
    BaseIndexUnique(versions, retain, baseIdx);
    if baseIdx < 0 {
      return versions;
    }
    out := [];
    if versions[baseIdx].deleted {
      // A deletion is kept only under newer versions.
      var hasNewer := false;
      var j := baseIdx + 1;
      while j < |versions| && !hasNewer
        invariant baseIdx < j <= |versions|
        invariant hasNewer ==> baseIdx + 1 < |versions|
        invariant !hasNewer ==> j == baseIdx + 1
      {
        hasNewer := versions[j].version > retain;
        j := j + 1;
      }
      if hasNewer {
        out := [versions[baseIdx]];
      }
    } else {
      out := [versions[baseIdx]];
    }
    var j := baseIdx + 1;
    assert versions[baseIdx..j] == [versions[baseIdx]];
    while j < |versions|
      invariant baseIdx < j <= |versions|
      invariant out == (if versions[baseIdx].deleted && baseIdx == |versions| - 1 then [] else versions[baseIdx..j])
    {
      if versions[j].version > retain {
        out := out + [versions[j]];
      }
      j := j + 1;
    }
  }

  /** `compactRecords` */
  method MakeRecords(history: History, version: nat, retain: nat) returns (recs: seq<Record>)
    ensures recs == CompactRecords(history, version, retain)
  {
    hide StrLess, SortKeys, SortNats, LiveOps, Groups, GroupOps, AllVersions;
    var keys := SortedKeysOf(history.Keys);
    if retain == version {
      var ops := CollectLive(history, keys);
      return if |ops| == 0 then [] else [Record(version, ops)];
    }
    var groups := GroupByVersion(history, keys);
    var versions := SortedVersionsOf(groups.Keys);
    recs := CollectGroups(history, keys, groups, versions);
  }

  method CollectLive(history: History, keys: seq<Key>) returns (ops: seq<Op>)
    ensures ops == LiveOps(history, keys)
  {
    hide Versions;
    ops := [];
    var i := 0;
    while i < |keys|
      invariant i <= |keys| && ops == LiveOps(history, keys[..i])
    {
      var vs := Versions(history, keys[i]);
      assert keys[..i + 1][..i] == keys[..i] && keys[..i + 1][i] == keys[i];
      if |vs| > 0 && !vs[|vs| - 1].deleted {
        ops := ops + [Op(keys[i], vs[|vs| - 1].value, false)];
      }
      i := i + 1;
    }
    assert keys[..|keys|] == keys;
  }

  method CollectGroups(history: History, keys: seq<Key>, groups: map<nat, seq<Op>>, versions: seq<nat>) returns (recs: seq<Record>)
    requires forall v :: v in versions ==> v in groups && groups[v] == GroupOps(history, v, keys)
    ensures recs == Groups(history, keys, versions)
  {
    hide GroupOps;
    recs := [];
    var i := 0;
    while i < |versions|
      invariant i <= |versions| && recs == Groups(history, keys, versions[..i])
    {
      assert versions[..i + 1][..i] == versions[..i] && versions[i] in versions;
      recs := recs + [Record(versions[i], groups[versions[i]])];
      i := i + 1;
    }
    assert versions[..|versions|] == versions;
  }

  function Group(groups: map<nat, seq<Op>>, v: nat): seq<Op>
  {
    if v in groups then groups[v] else []
  }

  /** The map of version groups that `compactRecords` fills. */
  method GroupByVersion(history: History, keys: seq<Key>) returns (groups: map<nat, seq<Op>>)
    requires forall k :: k in keys <==> k in history
    ensures groups.Keys == AllVersions(history)
    ensures forall v :: v in groups ==> groups[v] == GroupOps(history, v, keys)
  {
    hide KeyOps, Versions, AllVersions;
    groups := map[];
    var i := 0;
    while i < |keys|
      invariant i <= |keys|
      invariant forall v: nat :: Group(groups, v) == GroupOps(history, v, keys[..i])
      invariant forall v :: v in groups ==> groups[v] != []
    {
      groups := AddToGroups(groups, keys[i], Versions(history, keys[i]));
      assert keys[..i + 1][..i] == keys[..i] && keys[..i + 1][i] == keys[i];
      i := i + 1;
    }
    assert keys[..|keys|] == keys;
    forall v: nat ensures v in groups <==> v in AllVersions(history) {
      GroupNonEmpty(history, keys, v);
      VersionHasKey(history, keys, v);
    }
  }

  method AddToGroups(before: map<nat, seq<Op>>, k: Key, vs: seq<Ver>) returns (groups: map<nat, seq<Op>>)
    requires forall v :: v in before ==> before[v] != []
    ensures forall v: nat :: Group(groups, v) == Group(before, v) + KeyOps(vs, v, k)
    ensures forall v :: v in groups ==> groups[v] != []
  {
    hide Extended;
    groups := before;
    var j := 0;
    ExtendedNone(before, k, vs);
    while j < |vs|
      invariant j <= |vs| && Extended(before, groups, k, vs, j)
    {
      var x := vs[j];
      ExtendedStep(before, groups, k, vs, j);
      groups := groups[x.version := Group(groups, x.version) + [Op(k, x.value, x.deleted)]];
      j := j + 1;
    }
    ExtendedAll(before, groups, k, vs);
  }

  /** Every group has the operations of the first `j` versions of `k` added. */
  ghost predicate Extended(before: map<nat, seq<Op>>, groups: map<nat, seq<Op>>, k: Key, vs: seq<Ver>, j: nat)
    requires j <= |vs|
  {
    && (forall v: nat :: Group(groups, v) == Group(before, v) + KeyOps(vs[..j], v, k))
    && forall v :: v in groups ==> groups[v] != []
  }

  lemma {:induction false} ExtendedNone(before: map<nat, seq<Op>>, k: Key, vs: seq<Ver>)
    requires forall v :: v in before ==> before[v] != []
    ensures Extended(before, before, k, vs, 0)
  {
    hide KeyOps;
    assert vs[..0] == [];
    forall v: nat ensures Group(before, v) == Group(before, v) + KeyOps(vs[..0], v, k) {
      KeyOpsNone(v, k);
    }
  }

  lemma {:induction false} ExtendedStep(before: map<nat, seq<Op>>, groups: map<nat, seq<Op>>, k: Key, vs: seq<Ver>, j: nat)
    requires j < |vs| && Extended(before, groups, k, vs, j)
    ensures Extended(before, groups[vs[j].version := Group(groups, vs[j].version) + [Op(k, vs[j].value, vs[j].deleted)]], k, vs, j + 1)
  {
    hide KeyOps, Group;
    forall v: nat
      ensures Group(groups[vs[j].version := Group(groups, vs[j].version) + [Op(k, vs[j].value, vs[j].deleted)]], v)
           == Group(before, v) + KeyOps(vs[..j + 1], v, k)
    {
      assert Group(groups, v) == Group(before, v) + KeyOps(vs[..j], v, k);
      GroupStep(Group(before, v), groups, k, vs, j, v);
    }
  }

  lemma {:induction false} GroupStep(a: seq<Op>, groups: map<nat, seq<Op>>, k: Key, vs: seq<Ver>, j: nat, v: nat)
    requires j < |vs| && Group(groups, v) == a + KeyOps(vs[..j], v, k)
    ensures Group(groups[vs[j].version := Group(groups, vs[j].version) + [Op(k, vs[j].value, vs[j].deleted)]], v)
         == a + KeyOps(vs[..j + 1], v, k)
  {
    hide KeyOps;
    KeyOpsSnoc(vs, j, v, k);
    var b, op := KeyOps(vs[..j], v, k), Op(k, vs[j].value, vs[j].deleted);
    assert (a + b) + [op] == a + (b + [op]) && b + [] == b;
  }

  lemma {:induction false} ExtendedAll(before: map<nat, seq<Op>>, groups: map<nat, seq<Op>>, k: Key, vs: seq<Ver>)
    requires Extended(before, groups, k, vs, |vs|)
    ensures forall v: nat :: Group(groups, v) == Group(before, v) + KeyOps(vs, v, k)
    ensures forall v :: v in groups ==> groups[v] != []
  {
    hide KeyOps;
    assert vs[..|vs|] == vs;
  }

  lemma {:induction false} KeyOpsNone(v: nat, k: Key)
    ensures KeyOps([], v, k) == []
  {
  }

  lemma {:induction false} KeyOpsSnoc(vs: seq<Ver>, j: nat, v: nat, k: Key)
    requires j < |vs|
    ensures KeyOps(vs[..j + 1], v, k) == KeyOps(vs[..j], v, k) + if vs[j].version == v then [Op(k, vs[j].value, vs[j].deleted)] else []
  {
    assert vs[..j + 1][..j] == vs[..j];
  }

  // --------------------------------------------------------------- objects

  datatype TxError = NoError | TxClosed | ReadOnly | ConflictError | DbClosed

  /** `DB` */
  class Db {
    const codec: Wal.Codec
    var file: Str
    var history: History
    var version: nat
    var closed: bool
    var active: map<Tx, nat>
    ghost var disk: seq<Record>
    ghost var log: seq<Record>
    ghost var low: nat
    ghost var commits: seq<Commit>

    /** The state of the machine in `Transactions`. */
    ghost function Abs(): Sys<Tx>
      reads this, active.Keys
    {
      Sys(history, version, Txs(), disk, log, low, commits)
    }

    /** The open transactions. */
    ghost function Txs(): map<Tx, TxState>
      reads this`active, active.Keys
    {
      map t | t in active :: t.State()
    }

    lemma {:induction false} TxsAt(t: Tx)
      requires t in active
      ensures t in Txs() && Txs()[t] == t.State()
    {
    }

    ghost predicate TxsOk()
      reads this`active, active.Keys
    {
      forall t :: t in active ==> t.db == this && !t.closed && t.readVersion == active[t]
    }

    /** The file holds the records of `disk`, every registered transaction is open and
        remembers its read version, and the machine's invariant holds. */
    ghost predicate Valid()
      reads this, active.Keys
    {
      && file == Wal.Header() + Wal.Frames(codec, disk)
      && TxsOk()
      && Inv(Abs())
    }

    /** The replay part of `OpenWithOptions`: an empty database with the recovered records applied. */
    constructor (codec: Wal.Codec, recs: seq<Record>, bytes: Str)
      ensures this.codec == codec && file == bytes && !closed && active == map[]
      ensures history == Replay(recs) && version == MaxVersion(recs)
      ensures disk == recs && log == recs && low == 0 && commits == []
    {
      this.codec, file, closed, active := codec, bytes, false, map[];
      history, version := map[], 0;
      disk, log, low, commits := recs, recs, 0, [];
      new;
      var i := 0;
      while i < |recs|
        invariant i <= |recs| && file == bytes && !closed && active == map[]
        invariant history == Replay(recs[..i]) && version == MaxVersion(recs[..i])
        invariant disk == recs && log == recs && low == 0 && commits == []
      {
        assert recs[..i + 1][..i] == recs[..i];
        ApplyRecord(recs[i]);
        i := i + 1;
      }
      assert recs[..|recs|] == recs;
    }

    /** `apply` */
    method ApplyRecord(rec: Record)
      modifies this`history, this`version
      ensures history == Apply(old(history), rec)
      ensures version == if rec.version > old(version) then rec.version else old(version)
    {
      var i := 0;
      while i < |rec.ops|
        invariant i <= |rec.ops|
        invariant history == ApplyOps(old(history), rec.version, rec.ops[..i]) && version == old(version)
      {
        var op := rec.ops[i];
        assert rec.ops[..i + 1][..i] == rec.ops[..i];
        history := history[op.key := Versions(history, op.key) + [Ver(rec.version, op.value, op.delete)]];
        i := i + 1;
      }
      assert rec.ops[..|rec.ops|] == rec.ops;
      if rec.version > version {
        version := rec.version;
      }
    }

    /** `Begin`; none when the database is closed. */
    method Begin(writable: bool) returns (r: Option<Tx>)
      requires Valid()
      modifies this`active
      ensures Valid()
      ensures r.None? <==> closed
      ensures closed ==> Abs() == old(Abs())
      ensures !closed ==> fresh(r.value) && r.value.writable == writable && r.value.readVersion == version && !r.value.closed
      ensures !closed ==> Abs() == Transactions.Begin(old(Abs()), r.value, writable)
    {
      hide Inv, Wal.Frames;
      if closed {
        return None;
      }
      ghost var before := Abs();
      var t := new Tx(this, version, writable);
      active := active[t := version];
      StepInv(before, LBegin(t, writable));
      assert Abs() == Transactions.Begin(before, t, writable);
      r := Some(t);
    }

    /** `oldestReadVersion` */
    method OldestReadVersion() returns (oldest: nat)
      requires Valid()
      ensures oldest == Oldest(Abs())
      ensures if active == map[] then oldest == version else (exists t :: t in active && active[t] == oldest) && forall t :: t in active ==> oldest <= active[t]
    {
      hide Inv, Wal.Frames;
      if active == map[] {
        return version;
      }
      oldest := 0;
      var first := true;
      var rest := active.Keys;
      ghost var least: Tx :| least in active;
      while rest != {}
        invariant rest <= active.Keys && (first ==> rest == active.Keys)
        invariant least in active && (!first ==> active[least] == oldest)
        invariant !first ==> forall t :: t in active && t !in rest ==> oldest <= active[t]
        decreases |rest|
      {
        var t :| t in rest;
        if first || active[t] < oldest {
          oldest, first, least := active[t], false, t;
        }
        rest := rest - {t};
      }
      OldestIs(Abs(), least);
    }

    /** `pruneHistory` */
    method PruneAll(retain: nat)
      modifies this`history
      ensures history == PruneHistory(old(history), retain)
    {
      hide Prune;
      var rest := history.Keys;
      var whole := history;
      while rest != {}
        invariant rest <= whole.Keys
        invariant forall k :: k in rest ==> k in history && history[k] == whole[k]
        invariant forall k :: k !in rest ==>
                    Versions(history, k) == (if k in whole then Prune(whole[k], retain) else []) &&
                    (k in history ==> history[k] != [])
        decreases |rest|
      {
        var k :| k in rest;
        var kept := PruneVersions(history[k], retain);
        if |kept| == 0 {
          history := history - {k};
        } else {
          history := history[k := kept];
        }
        rest := rest - {k};
      }
      PrunedIs(whole, history, retain);
    }

    /** `Compact` when every file operation succeeds and the new file replaces the old
        one; the state machine also has the other outcomes. */
    method Compact() returns (ok: bool)
      requires Valid()
      modifies this
      ensures Valid() && closed == old(closed) && active == old(active)
      ensures ok == !closed
      ensures Abs() == if ok then Transactions.Compact(old(Abs()), true) else old(Abs())
    {
      hide Inv, CompactRecords, PruneHistory, Oldest, Wal.Frames, Txs, TxsOk;
      if closed {
        return false;
      }
      ghost var before := Abs();
      CompactInv(before, true);
      var retain := OldestReadVersion();
      Rewrite(retain);
      ok := true;
      assert Abs() == Transactions.Compact(before, true);
    }

    /** Prunes the history and puts a file with the compacted records in place of the old one. */
    method Rewrite(retain: nat)
      modifies this`history, this`file, this`disk, this`low
      ensures history == PruneHistory(old(history), retain) && low == retain
      ensures disk == CompactRecords(history, version, retain)
      ensures file == Wal.Header() + Wal.Frames(codec, disk)
    {
      hide CompactRecords, PruneHistory, Wal.Frames;
      PruneAll(retain);
      var recs := MakeRecords(history, version, retain);
      file := WriteFile(codec, recs);
      disk, low := recs, retain;
    }

    /** `appendRecord` and `apply` on the same record. */
    method AppendAndApply(rec: Record)
      requires file == Wal.Header() + Wal.Frames(codec, disk)
      modifies this`file, this`history, this`version, this`disk, this`log
      ensures file == Wal.Header() + Wal.Frames(codec, disk)
      ensures history == Apply(old(history), rec)
      ensures version == if rec.version > old(version) then rec.version else old(version)
      ensures disk == old(disk) + [rec] && log == old(log) + [rec]
    {
      hide Wal.Frames, Wal.EncodeRecord, Apply;
      WalRecovery.FramesSnoc(codec, disk, rec);
      file := file + Wal.EncodeRecord(codec, rec);
      ApplyRecord(rec);
      disk, log := disk + [rec], log + [rec];
    }
  }

  /** The new file of a compaction: header and one frame per record. */
  method WriteFile(codec: Wal.Codec, recs: seq<Record>) returns (bytes: Str)
    ensures bytes == Wal.Header() + Wal.Frames(codec, recs)
  {
    hide Wal.EncodeRecord, Wal.Header;
    bytes := Wal.Header();
    var i := 0;
    while i < |recs|
      invariant i <= |recs| && bytes == Wal.Header() + Wal.Frames(codec, recs[..i])
    {
      bytes := bytes + Wal.EncodeRecord(codec, recs[i]);
      WalRecovery.FramesSnoc(codec, recs[..i], recs[i]);
      assert recs[..i] + [recs[i]] == recs[..i + 1];
      i := i + 1;
    }
    assert recs[..|recs|] == recs;
  }

  lemma {:induction false} OldestIs<T>(s: Sys<T>, least: T)
    requires least in s.txs && forall t :: t in s.txs ==> s.txs[least].readVersion <= s.txs[t].readVersion
    ensures Oldest(s) == s.txs[least].readVersion
  {
    var rs := set t | t in s.txs :: s.txs[t].readVersion;
    assert s.txs[least].readVersion in rs;
  }

  lemma {:induction false} PrunedIs(whole: History, h: History, retain: nat)
    requires forall k :: Versions(h, k) == (if k in whole then Prune(whole[k], retain) else []) && (k in h ==> h[k] != [])
    ensures h == PruneHistory(whole, retain)
  {
    hide Prune;
    var p := PruneHistory(whole, retain);
    forall k ensures Versions(h, k) == Versions(p, k) {
    }
    SameHistory(h, p);
  }

  lemma {:induction false} CommitUnfold<T>(s: Sys<T>, t: T, r: Mvcc.Record)
    requires t in s.txs && Transactions.Persists(s, t) && r == CommitRecord(s, t)
    ensures CommitTx(s, t) == Sys(Apply(s.history, r), s.version + 1, s.txs - {t}, s.disk + [r], s.log + [r], s.low,
                                  s.commits + [Transactions.Commit(s.txs[t].readVersion, r.version, s.txs[t].writes.Keys)])
  {
  }

  datatype OpenResult = OpenedDb(db: Db) | OpenFailed(error: Wal.OpenError)

  /** `OpenWithOptions`: recover the records of the file, cut it back, apply them. */
  method OpenDb(codec: Wal.Codec, data: Str) returns (r: OpenResult)
    ensures match Wal.OpenSpec(codec, data)
            case Failed(e) => r == OpenFailed(e)
            case Opened(recs, file) =>
              && r.OpenedDb? && fresh(r.db) && r.db.file == file && r.db.codec == codec
              && !r.db.closed && r.db.active == map[]
              && r.db.history == Replay(recs) && r.db.version == MaxVersion(recs)
              && r.db.disk == recs && r.db.log == recs && r.db.low == 0 && r.db.commits == []
  {
    hide Wal.OpenSpec;
    var o := Wal.Open(codec, data);
    match o
    case Failed(e) =>
      r := OpenFailed(e);
    case Opened(recs, file) =>
      var db := new Db(codec, recs, file);
      r := OpenedDb(db);
  }

  /** A crash at any byte of the append of record `r`, and the reopening after it: the
      new database is in the state the machine gives for a crash with that record
      landed or not. */
  method RecoverFromTornAppend(crashed: Db, r: Record, n: nat) returns (db: Db)
    requires crashed.Valid() && r.version == crashed.version + 1 && DistinctKeys(r.ops)
    requires WalRecovery.AllStorable(crashed.codec, crashed.disk) && Wal.Storable(crashed.codec, r)
    requires n <= |Wal.EncodeRecord(crashed.codec, r)|
    ensures fresh(db) && db.Valid()
    ensures db.Abs() == if n == |Wal.EncodeRecord(crashed.codec, r)|
                        then Transactions.Reopen(crashed.Abs().(disk := crashed.disk + [r]))
                        else Transactions.Reopen(crashed.Abs())
  {
    hide Wal.OpenSpec, Wal.Frames, Wal.EncodeRecord, Inv;
    var frame := Wal.EncodeRecord(crashed.codec, r);
    var whole := n == |frame|;
    WalRecovery.CrashInAppend(crashed.codec, crashed.disk, r, n);
    var result := OpenDb(crashed.codec, crashed.file + frame[..n]);
    db := result.db;
    ghost var s := crashed.Abs();
    ghost var s' := if whole then s.(disk := s.disk + [r], version := s.version + 1) else s;
    DiskIsOk(s, r);
    ReopenInv(s');
    assert db.Abs() == Transactions.Reopen(s');
  }

  /** A crash during a compaction, and the reopening after it from the new file or, if the
      rename did not take place, from the old one. */
  method RecoverFromTornCompact(crashed: Db, renamed: bool) returns (db: Db)
    requires crashed.Valid() && !crashed.closed
    requires WalRecovery.AllStorable(crashed.codec, Transactions.Compact(crashed.Abs(), renamed).disk)
    modifies crashed
    ensures fresh(db) && db.Valid()
    ensures db.Abs() == Transactions.Reopen(Transactions.Compact(old(crashed.Abs()), renamed))
  {
    hide Wal.OpenSpec, Wal.Frames, Wal.Header, Inv, Wal.Storable, CompactRecords, PruneHistory, Oldest;
    ghost var s := crashed.Abs();
    ghost var s' := Transactions.Compact(s, renamed);
    var file := crashed.file;
    var done := crashed.Compact();
    if renamed {
      file := crashed.file;
    }
    WalRecovery.Reopens(crashed.codec, s'.disk);
    var result := OpenDb(crashed.codec, file);
    db := result.db;
    CompactInv(s, renamed);
    CompactedDiskOk(s');
    ReopenInv(s');
    assert db.Abs() == Transactions.Reopen(s');
  }

  lemma {:induction false} CompactedDiskOk<T>(s: Sys<T>)
    requires Inv(s)
    ensures LogOk(s.disk, s.version)
  {
  }

  lemma {:induction false} DiskIsOk<T>(s: Sys<T>, r: Record)
    requires Inv(s) && r.version == s.version + 1 && DistinctKeys(r.ops)
    ensures LogOk(s.disk, s.version) && LogOk(s.disk + [r], s.version + 1)
  {
    LogOkSnoc(s.disk, s.version, r);
  }

  /** `Tx` */
  class Tx {
    const db: Db
    const readVersion: nat
    const writable: bool
    var writes: map<Key, Op>
    var closed: bool

    ghost function State(): TxState
      reads this
    {
      TxState(readVersion, writable, writes)
    }

    /** An open transaction is registered with its database. */
    ghost predicate Valid()
      reads this, db, db.active.Keys
    {
      db.Valid() && (!closed ==> this in db.active)
    }

    constructor (db: Db, readVersion: nat, writable: bool)
      ensures this.db == db && this.readVersion == readVersion && this.writable == writable
      ensures writes == map[] && !closed
    {
      this.db, this.readVersion, this.writable := db, readVersion, writable;
      writes, closed := map[], false;
    }

    /** `Get` */
    method Get(key: Key) returns (r: Option<Str>)
      requires Valid()
      ensures r == if closed then None else Transactions.Get(db.Abs(), this, key)
    {
      if closed {
        return None;
      }
      if key in writes {
        return OpValue(writes[key]);
      }
      var versions := Versions(db.history, key);
      var i := |versions| - 1;
      while i >= 0
        invariant -1 <= i < |versions|
        invariant forall j :: i < j < |versions| ==> versions[j].version > readVersion
      {
        if versions[i].version <= readVersion {
          BaseIndexUnique(versions, readVersion, i);
          return if versions[i].deleted then None else Some(versions[i].value);
        }
        i := i - 1;
      }
      BaseIndexUnique(versions, readVersion, -1);
      r := None;
    }

    /** `put` and `del` */
    method Record(op: Op) returns (err: TxError)
      requires Valid()
      modifies this`writes
      ensures Valid() && unchanged(db)
      ensures err == if closed then TxClosed else if !writable then ReadOnly else NoError
      ensures db.Abs() == if closed then old(db.Abs()) else Transactions.Write(old(db.Abs()), this, op)
    {
      hide Inv;
      ghost var before := db.Abs();
      if closed {
        return TxClosed;
      }
      if !writable {
        return ReadOnly;
      }
      writes := writes[op.key := op];
      StepInv(before, LWrite(this, op));
      assert db.Abs() == Transactions.Write(before, this, op);
      err := NoError;
    }

    method Put(key: Key, value: Str) returns (err: TxError)
      requires Valid()
      modifies this`writes
      ensures Valid() && unchanged(db)
      ensures err == if closed then TxClosed else if !writable then ReadOnly else NoError
      ensures db.Abs() == if closed then old(db.Abs()) else Transactions.Write(old(db.Abs()), this, Op(key, value, false))
    {
      err := Record(Op(key, value, false));
    }

    method Del(key: Key) returns (err: TxError)
      requires Valid()
      modifies this`writes
      ensures Valid() && unchanged(db)
      ensures err == if closed then TxClosed else if !writable then ReadOnly else NoError
      ensures db.Abs() == if closed then old(db.Abs()) else Transactions.Write(old(db.Abs()), this, Op(key, [], true))
    {
      err := Record(Op(key, [], true));
    }

    /** `Rollback`; safe to call more than once. */
    method Rollback()
      requires Valid()
      modifies this, db`active
      ensures Valid() && closed
      ensures db.Abs() == if old(closed) then old(db.Abs()) else Transactions.Close(old(db.Abs()), this)
    {
      if closed {
        return;
      }
      Unregister();
      writes := map[];
    }

    /** Marks the transaction closed and takes it off the active list. */
    method Unregister()
      requires Valid() && !closed
      modifies this`closed, db`active
      ensures Valid() && closed && db.active == old(db.active) - {this}
      ensures db.Abs() == Transactions.Close(old(db.Abs()), this)
    {
      hide Inv;
      ghost var before := db.Abs();
      Detach();
      StepInv(before, LRollback(this));
      assert db.Abs() == Transactions.Close(before, this);
    }

    /** The bookkeeping of `unregister`. */
    method Detach()
      requires db.TxsOk() && this in db.active
      modifies this`closed, db`active
      ensures closed && db.active == old(db.active) - {this}
      ensures db.TxsOk() && db.Txs() == old(db.Txs()) - {this}
    {
      closed := true;
      db.active := db.active - {this};
    }

    /** The validation loop of `Commit`. */
    method FindConflict(keys: seq<Key>) returns (found: bool)
      requires Valid() && !closed && forall k :: k in keys <==> k in writes
      ensures found <==> Transactions.Conflict(db.Abs(), this)
    {
      hide Inv;
      var i := 0;
      while i < |keys|
        invariant i <= |keys|
        invariant forall j :: 0 <= j < i ==> !KeyConflict(db.history, keys[j], readVersion)
      {
        var versions := Versions(db.history, keys[i]);
        if |versions| > 0 && versions[|versions| - 1].version > readVersion {
          assert keys[i] in keys && KeyConflict(db.Abs().history, keys[i], db.Abs().txs[this].readVersion);
          assert keys[i] in db.Abs().txs[this].writes;
          return true;
        }
        i := i + 1;
      }
      found := false;
    }

    method CollectOps(keys: seq<Key>) returns (ops: seq<Op>)
      requires keys == SortKeys(writes.Keys)
      ensures ops == WriteOps(writes)
    {
      hide SortKeys;
      ops := [];
      var i := 0;
      while i < |keys|
        invariant i <= |keys| && |ops| == i
        invariant forall j :: 0 <= j < i ==> keys[j] in writes && ops[j] == writes[keys[j]]
      {
        assert keys[i] in keys;
        ops := ops + [writes[keys[i]]];
        i := i + 1;
      }
    }

    /** The end of `Commit` once validation passed: append the record, apply it, unregister. */
    method Persist(keys: seq<Key>)
      requires Valid() && !closed && keys == SortKeys(writes.Keys) && Transactions.Persists(db.Abs(), this)
      modifies this`closed, db
      ensures Valid() && closed && db.closed == old(db.closed)
      ensures db.Abs() == Transactions.CommitTx(old(db.Abs()), this)
    {
      hide Inv, WriteOps, SortKeys, Wal.Frames, Wal.EncodeRecord, Apply, Transactions.Persists, CommitTx, Db.Txs;
      ghost var before := db.Abs();
      db.TxsAt(this);
      CommitInv(before, this);
      var ops := CollectOps(keys);
      var rec := Mvcc.Record(db.version + 1, ops);
      db.AppendAndApply(rec);
      db.commits := db.commits + [Transactions.Commit(readVersion, rec.version, writes.Keys)];
      assert db.Txs() == before.txs;
      Detach();
      CommitUnfold(before, this, rec);
    }

    /** `Commit`; the append to the file succeeds in full (a failing one is a crash). */
    method Commit() returns (err: TxError)
      requires Valid()
      modifies this`closed, db
      ensures Valid() && closed && db.closed == old(db.closed)
      ensures err == (if old(closed) then TxClosed
                      else if writable && db.closed then DbClosed
                      else if writable && Transactions.Conflict(old(db.Abs()), this) then ConflictError
                      else NoError)
      ensures db.Abs() == (if old(closed) then old(db.Abs())
                           else if writable && db.closed then Transactions.Close(old(db.Abs()), this)
                           else Transactions.CommitTx(old(db.Abs()), this))
    {
      hide Inv, WriteOps, SortKeys, Wal.Frames, Wal.EncodeRecord, Apply;
      if closed {
        return TxClosed;
      }
      ghost var before := db.Abs();
      if !writable {
        Unregister();
        return NoError;
      }
      if db.closed {
        Unregister();
        return DbClosed;
      }
      var keys := SortedKeysOf(writes.Keys);
      var conflict := FindConflict(keys);
      if conflict {
        Unregister();
        return ConflictError;
      }
      if |keys| == 0 {
        assert writes == map[];
        Unregister();
        return NoError;
      }
      assert keys[0] in keys;
      Persist(keys);
      err := NoError;
    }
  }
}
