/**
 Versioned values: the in-memory history of db.go, how records are applied to it and
 how a reader finds its version, against the plain log of committed records as the
 specification of what a reader at a version must see.
 */
module Mvcc {
  import opened Strings

  type Key = Str

  /** `operation` and `record` */
  datatype Op = Op(key: Key, value: Str, delete: bool)
  datatype Record = Record(version: nat, ops: seq<Op>)

  /** `valueVersion` */
  datatype Ver = Ver(version: nat, value: Str, deleted: bool)

  type History = map<Key, seq<Ver>>

  function Versions(h: History, k: Key): seq<Ver>
  {
    if k in h then h[k] else []
  }

  // ----------------------------------------------------- specification: the log

  /** The last operation on `k` in a list of operations. */
  function LastOp(ops: seq<Op>, k: Key): Option<Op>
  {
    if ops == [] then None
    else if ops[|ops| - 1].key == k then Some(ops[|ops| - 1])
    else LastOp(ops[..|ops| - 1], k)
  }

  function OpValue(op: Op): Option<Str>
  {
    if op.delete then None else Some(op.value)
  }

  /** The committed value of `k` as of version `v`: that of the latest record up to `v` that writes `k`. */
  function View(log: seq<Record>, v: nat, k: Key): Option<Str>
  {
    if log == [] then None else
      var last := log[|log| - 1];
      var op := LastOp(last.ops, k);
      if last.version <= v && op.Some? then OpValue(op.value) else View(log[..|log| - 1], v, k)
  }

  /** The version of the latest record that writes `k`, 0 if there is none. */
  function LastWrite(log: seq<Record>, k: Key): nat
  {
    if log == [] then 0
    else if LastOp(log[|log| - 1].ops, k).Some? then log[|log| - 1].version
    else LastWrite(log[..|log| - 1], k)
  }

  /** All versions of `k` in the log, oldest first. */
  function LogVersions(log: seq<Record>, k: Key): seq<Ver>
  {
    if log == [] then [] else
      LogVersions(log[..|log| - 1], k) + OpVersions(log[|log| - 1].version, log[|log| - 1].ops, k)
  }

  function OpVersions(v: nat, ops: seq<Op>, k: Key): seq<Ver>
  {
    if ops == [] then [] else
      var last := ops[|ops| - 1];
      OpVersions(v, ops[..|ops| - 1], k) + if last.key == k then [Ver(v, last.value, last.delete)] else []
  }

  /** Versions strictly increase along the log and stay within `1..version`; no record writes a key twice. */
  predicate LogOk(log: seq<Record>, version: nat)
  {
    && (forall i, j :: 0 <= i < j < |log| ==> log[i].version < log[j].version)
    && (forall i :: 0 <= i < |log| ==> 0 < log[i].version <= version && DistinctKeys(log[i].ops))
  }

  predicate DistinctKeys(ops: seq<Op>)
  {
    forall i, j :: 0 <= i < j < |ops| ==> ops[i].key != ops[j].key
  }

  // ------------------------------------------------------- the code's functions

  /** `DB.apply` on the history: one appended version per operation, in order. */
  function ApplyOps(h: History, v: nat, ops: seq<Op>): History
  {
    if ops == [] then h else
      var h' := ApplyOps(h, v, ops[..|ops| - 1]);
      var op := ops[|ops| - 1];
      h'[op.key := Versions(h', op.key) + [Ver(v, op.value, op.delete)]]
  }

  function Apply(h: History, r: Record): History
  {
    ApplyOps(h, r.version, r.ops)
  }

  /** The history that replaying a log builds from nothing. */
  function Replay(recs: seq<Record>): History
  {
    if recs == [] then map[] else Apply(Replay(recs[..|recs| - 1]), recs[|recs| - 1])
  }

  /** The version counter that replaying a log leaves. */
  function MaxVersion(recs: seq<Record>): nat
  {
    if recs == [] then 0 else
      var m := MaxVersion(recs[..|recs| - 1]);
      if recs[|recs| - 1].version > m then recs[|recs| - 1].version else m
  }

  /** The last position whose version is at most `v`, or -1: the backward scans of
      `Tx.Get`, `scanPrefix` and `pruneVersions`. */
  function BaseIndex(vs: seq<Ver>, v: nat): (i: int)
    ensures -1 <= i < |vs|
    ensures i >= 0 ==> vs[i].version <= v
    ensures forall j :: i < j < |vs| ==> vs[j].version > v
  {
    if vs == [] then -1
    else if vs[|vs| - 1].version <= v then |vs| - 1
    else BaseIndex(vs[..|vs| - 1], v)
  }

  /** What `Tx.Get` finds among the versions of a key. */
  function Visible(vs: seq<Ver>, v: nat): Option<Str>
  {
    var i := BaseIndex(vs, v);
    if i < 0 || vs[i].deleted then None else Some(vs[i].value)
  }

  /** `pruneVersions` */
  function Prune(vs: seq<Ver>, retain: nat): seq<Ver>
  {
    var b := BaseIndex(vs, retain);
    if b < 0 then vs
    else if vs[b].deleted && b == |vs| - 1 then []
    else vs[b..]
  }

  /** `pruneHistory` */
  function PruneHistory(h: History, retain: nat): History
  {
    map k | k in h && Prune(h[k], retain) != [] :: Prune(h[k], retain)
  }

  // ------------------------------------------------------------ replay is the log

  lemma {:induction false} ApplyOpsVersions(h: History, v: nat, ops: seq<Op>, k: Key)
    ensures Versions(ApplyOps(h, v, ops), k) == Versions(h, k) + OpVersions(v, ops, k)
  {
    if ops != [] {
      ApplyOpsVersions(h, v, ops[..|ops| - 1], k);
    }
  }

  /** Replaying a log gives every key its versions in the log, and an entry only to keys written. */
  lemma {:induction false} ReplayVersions(log: seq<Record>, k: Key)
    ensures Versions(Replay(log), k) == LogVersions(log, k)
  {
    if log != [] {
      ReplayVersions(log[..|log| - 1], k);
      ApplyOpsVersions(Replay(log[..|log| - 1]), log[|log| - 1].version, log[|log| - 1].ops, k);
    }
  }

  /** `BaseIndex` is the one position with these two properties. */
  lemma {:induction false} BaseIndexUnique(vs: seq<Ver>, v: nat, i: int)
    requires -1 <= i < |vs| && (i >= 0 ==> vs[i].version <= v)
    requires forall j :: i < j < |vs| ==> vs[j].version > v
    ensures BaseIndex(vs, v) == i
  {
  }

  lemma {:induction false} VisibleAppend(vs: seq<Ver>, x: Ver, v: nat)
    ensures Visible(vs + [x], v) == if x.version <= v then (if x.deleted then None else Some(x.value)) else Visible(vs, v)
  {
    var i := if x.version <= v then |vs| else BaseIndex(vs, v);
    BaseIndexUnique(vs + [x], v, i);
  }

  lemma {:induction false} VisibleOps(vs: seq<Ver>, w: nat, ops: seq<Op>, k: Key, v: nat)
    ensures Visible(vs + OpVersions(w, ops, k), v)
              == if w <= v && LastOp(ops, k).Some? then OpValue(LastOp(ops, k).value) else Visible(vs, v)
  {
    if ops == [] {
      assert vs + [] == vs;
    } else {
      var init, last := ops[..|ops| - 1], ops[|ops| - 1];
      VisibleOps(vs, w, init, k, v);
      var a := OpVersions(w, init, k);
      if last.key == k {
        var x := Ver(w, last.value, last.delete);
        assert vs + (a + [x]) == (vs + a) + [x];
        VisibleAppend(vs + a, x, v);
      } else {
        assert a + [] == a;
      }
    }
  }

  /** A reader that scans the replayed versions sees what the log says it must. */
  lemma {:induction false} VisibleIsView(log: seq<Record>, v: nat, k: Key)
    ensures Visible(LogVersions(log, k), v) == View(log, v, k)
  {
    if log != [] {
      var init, last := log[..|log| - 1], log[|log| - 1];
      VisibleIsView(init, v, k);
      VisibleOps(LogVersions(init, k), last.version, last.ops, k, v);
    }
  }

  // ------------------------------------------------ what pruning may forget

  /** `vs` is what is left of `full` when versions that only readers below `low` could
      see are gone: a suffix that starts no later than the version visible at `low`,
      or right after it if that version is a deletion. */
  predicate Cut(full: seq<Ver>, vs: seq<Ver>, low: nat)
  {
    |vs| <= |full| && vs == full[|full| - |vs|..] && CutOk(full, |full| - |vs|, low)
  }

  lemma {:induction false} BaseIndexMonotone(vs: seq<Ver>, v: nat, w: nat)
    requires v <= w
    ensures BaseIndex(vs, v) <= BaseIndex(vs, w)
  {
  }

  lemma {:induction false} BaseIndexSuffix(vs: seq<Ver>, j: nat, v: nat)
    requires j <= |vs|
    ensures BaseIndex(vs[j..], v) == if BaseIndex(vs, v) >= j then BaseIndex(vs, v) - j else -1
  {
    var i := BaseIndex(vs, v);
    BaseIndexUnique(vs[j..], v, if i >= j then i - j else -1);
  }

  /** Forgetting below `low` changes nothing for a reader at or above `low`. */
  lemma {:induction false} CutVisible(full: seq<Ver>, vs: seq<Ver>, low: nat, v: nat)
    requires Cut(full, vs, low) && low <= v
    ensures Visible(vs, v) == Visible(full, v)
  {
    BaseIndexMonotone(full, low, v);
    BaseIndexSuffix(full, |full| - |vs|, v);
  }

  /** Pruning at a higher mark forgets no more than that mark allows. */
  lemma {:induction false} CutPrune(full: seq<Ver>, vs: seq<Ver>, low: nat, retain: nat)
    requires Cut(full, vs, low) && low <= retain
    ensures Cut(full, Prune(vs, retain), retain)
  {
    hide BaseIndex, Cut;
    var j := CutAt(full, vs, low);
    var b := BaseIndex(vs, retain);
    BaseIndexMonotone(full, low, retain);
    BaseIndexSuffix(full, j, retain);
    if b < 0 {
      MakeCut(full, j, retain);
    } else if vs[b].deleted && b == |vs| - 1 {
      MakeCut(full, |full|, retain);
    } else {
      MakeCut(full, j + b, retain);
      assert vs[b..] == full[j + b..];
    }
  }

  predicate CutOk(full: seq<Ver>, j: nat, low: nat)
  {
    var b := BaseIndex(full, low);
    j == 0 || j <= b || (b >= 0 && j == b + 1 && full[b].deleted)
  }

  /** The position where a cut starts. */
  lemma {:induction false} CutAt(full: seq<Ver>, vs: seq<Ver>, low: nat) returns (j: nat)
    requires Cut(full, vs, low)
    ensures j <= |full| && vs == full[j..] && CutOk(full, j, low)
  {
    j := |full| - |vs|;
  }

  lemma {:induction false} MakeCut(full: seq<Ver>, j: nat, low: nat)
    requires j <= |full| && CutOk(full, j, low)
    ensures Cut(full, full[j..], low)
  {
  }

  lemma {:induction false} CutAppend(full: seq<Ver>, vs: seq<Ver>, low: nat, more: seq<Ver>)
    requires Cut(full, vs, low) && forall i :: 0 <= i < |more| ==> more[i].version > low
    ensures Cut(full + more, vs + more, low)
  {
    BaseIndexUnique(full + more, low, BaseIndex(full, low));
  }

  /** Pruning never hides the latest version of a key from the conflict check, unless
      that version is a deletion every open reader already sees. */
  lemma {:induction false} CutLast(full: seq<Ver>, vs: seq<Ver>, low: nat)
    requires Cut(full, vs, low)
    ensures vs != [] ==> full != [] && vs[|vs| - 1] == full[|full| - 1]
    ensures vs == [] && full != [] ==> full[|full| - 1].version <= low && full[|full| - 1].deleted
  {
  }

  /** What pruning may and must keep of a list of versions, said of the versions themselves:
      a suffix of it, with everything above the mark and the one version below it that readers
      at the mark need; nothing at all exactly if the list ends in a deletion at or below it. */
  predicate Pruned(vs: seq<Ver>, retain: nat, out: seq<Ver>)
  {
    && |out| <= |vs| && out == vs[|vs| - |out|..]
    && (forall i :: 1 <= i < |out| ==> out[i].version > retain)
    && (forall i :: 0 <= i < |vs| && vs[i].version > retain ==> i >= |vs| - |out|)
    && (out == [] <==> vs == [] || (vs[|vs| - 1].version <= retain && vs[|vs| - 1].deleted))
    && (out != [] && |out| < |vs| ==> out[0].version <= retain)
  }

  lemma {:induction false} PruneExact(vs: seq<Ver>, retain: nat)
    requires Increasing(vs)
    ensures Pruned(vs, retain, Prune(vs, retain))
  {
    hide BaseIndex;
    var b, out := BaseIndex(vs, retain), Prune(vs, retain);
    assert vs == vs[0..];
    if b >= 0 {
      assert forall i :: 0 <= i < b ==> vs[i].version < vs[b].version;
    }
  }

  // ------------------------------------------------ versions of an ordered log

  /** A key's last write is above a version exactly if some record above it writes the key. */
  lemma {:induction false} LastWriteIff(log: seq<Record>, version: nat, k: Key, v: nat)
    requires LogOk(log, version)
    ensures LastWrite(log, k) > v <==> WrittenAfter(log, k, v)
  {
    hide DistinctKeys;
    if log != [] {
      var init, last := log[..|log| - 1], log[|log| - 1];
      LogOkInit(log, version);
      LastWriteIff(init, last.version - 1, k, v);
      OneVersionPerRecord(0, last.ops, k);
      if WrittenAfter(log, k, v) {
        var i: nat :| i < |log| && log[i].version > v && WritesKey(log[i], k);
        if i < |init| { assert init[i] == log[i] && WrittenAfter(init, k, v); }
      }
      if WrittenAfter(init, k, v) {
        var i: nat :| i < |init| && init[i].version > v && WritesKey(init[i], k);
        assert log[i] == init[i];
        if LastWrite(log, k) == last.version { assert last.version > init[i].version; }
      }
      if LastOp(last.ops, k).Some? && last.version > v { assert WritesKey(log[|log| - 1], k); }
    }
  }

  predicate WritesKey(r: Record, k: Key)
  {
    exists j :: 0 <= j < |r.ops| && r.ops[j].key == k
  }

  /** Some record above version `v` writes `k`. */
  predicate WrittenAfter(log: seq<Record>, k: Key, v: nat)
  {
    exists i: nat :: i < |log| && log[i].version > v && WritesKey(log[i], k)
  }

  predicate Increasing(vs: seq<Ver>)
  {
    forall i, j :: 0 <= i < j < |vs| ==> vs[i].version < vs[j].version
  }

  lemma {:induction false} LogOkInit(log: seq<Record>, version: nat)
    requires LogOk(log, version) && log != []
    ensures 0 < log[|log| - 1].version <= version && DistinctKeys(log[|log| - 1].ops)
    ensures LogOk(log[..|log| - 1], log[|log| - 1].version - 1)
    ensures forall i :: 0 <= i < |log| - 1 ==> log[i].version < log[|log| - 1].version
  {
  }

  lemma {:induction false} OneVersionPerRecord(v: nat, ops: seq<Op>, k: Key)
    requires DistinctKeys(ops)
    ensures match LastOp(ops, k)
            case None => OpVersions(v, ops, k) == []
            case Some(op) => OpVersions(v, ops, k) == [Ver(v, op.value, op.delete)]
    ensures LastOp(ops, k).Some? <==> exists i :: 0 <= i < |ops| && ops[i].key == k
    ensures LastOp(ops, k).Some? ==> LastOp(ops, k).value in ops && LastOp(ops, k).value.key == k
  {
    if ops != [] {
      var init, last := ops[..|ops| - 1], ops[|ops| - 1];
      OneVersionPerRecord(v, init, k);
      if last.key == k {
        assert LastOp(init, k) == None;
      }
    }
  }

  /** In an ordered log the versions of a key increase and end with its last write. */
  lemma {:induction false} LogVersionsOrdered(log: seq<Record>, version: nat, k: Key)
    requires LogOk(log, version)
    ensures var vs := LogVersions(log, k);
            && Increasing(vs) && (forall i :: 0 <= i < |vs| ==> 0 < vs[i].version <= version)
            && LastWrite(log, k) == if vs == [] then 0 else vs[|vs| - 1].version
  {
    hide OpVersions, LastOp, DistinctKeys, Increasing, LogOk;
    if log == [] {
      NoneIncreasing();
    } else {
      var init, last := log[..|log| - 1], log[|log| - 1];
      LogOkInit(log, version);
      LogVersionsOrdered(init, last.version - 1, k);
      OneVersionPerRecord(last.version, last.ops, k);
      var vs := LogVersions(init, k);
      if LastOp(last.ops, k).Some? {
        IncreasingSnoc(vs, Ver(last.version, LastOp(last.ops, k).value.value, LastOp(last.ops, k).value.delete));
      } else {
        assert vs + [] == vs;
      }
    }
  }

  lemma {:induction false} NoneIncreasing()
    ensures Increasing([])
  {
  }

  lemma {:induction false} IncreasingSnoc(vs: seq<Ver>, x: Ver)
    requires Increasing(vs) && forall i :: 0 <= i < |vs| ==> vs[i].version < x.version
    ensures Increasing(vs + [x])
  {
  }

  /** A later record does not change what was visible at an earlier version. */
  lemma {:induction false} ViewStable(log: seq<Record>, more: seq<Record>, v: nat, k: Key)
    requires forall i :: 0 <= i < |more| ==> more[i].version > v
    ensures View(log + more, v, k) == View(log, v, k)
  {
    if more == [] {
      assert log + more == log;
    } else {
      var init := more[..|more| - 1];
      assert (log + more)[..|log + more| - 1] == log + init;
      ViewStable(log, init, v, k);
    }
  }

  lemma {:induction false} ViewBeyond(log: seq<Record>, version: nat, v: nat, k: Key)
    requires (forall i :: 0 <= i < |log| ==> log[i].version <= version) && version <= v
    ensures View(log, v, k) == View(log, version, k)
  {
    if log != [] { ViewBeyond(log[..|log| - 1], version, v, k); }
  }

  lemma {:induction false} MaxVersionIsMax(log: seq<Record>)
    ensures forall i :: 0 <= i < |log| ==> log[i].version <= MaxVersion(log)
    ensures log == [] ==> MaxVersion(log) == 0
    ensures log != [] ==> exists i :: 0 <= i < |log| && log[i].version == MaxVersion(log)
  {
    if log != [] {
      var init := log[..|log| - 1];
      MaxVersionIsMax(init);
      if log[|log| - 1].version <= MaxVersion(init) && init != [] {
        var i :| 0 <= i < |init| && init[i].version == MaxVersion(init);
        assert log[i].version == MaxVersion(log);
      } else {
        assert log[|log| - 1].version >= MaxVersion(init);
        assert log[|log| - 1].version == MaxVersion(log);
      }
    }
  }
}
