/**
 The store under the SQL layer: a statement runs as one `DB.Update` with nobody else
 writing, and this is the update of a plain map.
 */
module StatementCommits {
  import opened Strings
  import opened Mvcc
  import opened Transactions
  import opened TransactionRuns
  import opened Row
  import opened Keys
  import opened SqlStore
  import opened SqlCollect
  import opened SqlStatements

  // ------------------------------------------------------------- the kernel

  /** The map after the operations of a transaction, in order. */
  function MapAfter(m: Kv, ops: seq<Op>): Kv
  {
    if ops == [] then m else
      var op := ops[|ops| - 1];
      var m' := MapAfter(m, ops[..|ops| - 1]);
      if op.delete then m' - {op.key} else m'[op.key := op.value]
  }

  /** The machine after transaction `t` makes the operations. */
  function AfterWrites<T>(s: Sys<T>, t: T, ops: seq<Op>): (s': Sys<T>)
    requires t in s.txs
    ensures t in s'.txs
  {
    if ops == [] then s else Write(AfterWrites(s, t, ops[..|ops| - 1]), t, ops[|ops| - 1])
  }

  /** Writes touch the write set only, which amounts to the operations made. */
  lemma {:induction false} WritesFacts<T>(s: Sys<T>, t: T, ops: seq<Op>, m: Kv)
    requires Inv(s) && t in s.txs && s.txs[t].writable && s.txs[t].writes == map[]
    ensures var s' := AfterWrites(s, t, ops);
            && Inv(s') && s' == s.(txs := s.txs[t := s.txs[t].(writes := s'.txs[t].writes)])
            && ApplyWrites(m, s'.txs[t].writes) == MapAfter(m, ops)
  {
    hide Inv;
    if ops == [] {
      assert ApplyWrites(m, map[]) == m;
    } else {
      var init, op := ops[..|ops| - 1], ops[|ops| - 1];
      WritesFacts(s, t, init, m);
      var b := AfterWrites(s, t, init);
      StepInv(b, LWrite(t, op));
      OneMoreWrite(m, b.txs[t].writes, op);
    }
  }

  lemma {:induction false} OneMoreWrite(m: Kv, writes: map<Key, Op>, op: Op)
    ensures ApplyWrites(m, writes[op.key := op]) ==
              if op.delete then ApplyWrites(m, writes) - {op.key} else ApplyWrites(m, writes)[op.key := op.value]
  {
    hide ApplyWrites;
    var a, b := ApplyWrites(m, writes), ApplyWrites(m, writes[op.key := op]);
    forall k ensures Lookup(b, k) == if k == op.key then OpValue(op) else Lookup(a, k) {
      LookupWrites(m, writes, k);
      LookupWrites(m, writes[op.key := op], k);
    }
    SameLookups(b, if op.delete then a - {op.key} else a[op.key := op.value]);
  }

  lemma {:induction false} SameLookups(a: Kv, b: Kv)
    requires forall k :: Lookup(a, k) == Lookup(b, k)
    ensures a == b
  {
    forall k ensures k in a <==> k in b { assert Lookup(a, k) == Lookup(b, k); }
    forall k | k in a ensures a[k] == b[k] { assert Lookup(a, k) == Lookup(b, k); }
  }

  /** A transaction that began at the current version never conflicts. */
  lemma {:induction false} NoConflict<T>(s: Sys<T>, t: T)
    requires Inv(s) && t in s.txs && s.txs[t].readVersion == s.version
    ensures !Conflict(s, t)
  {
    hide HistoryAgrees, DiskAgrees, CommitsOk, LogOk, LastWrite, KeyConflict, Increasing, LogVersions;
    forall k ensures !KeyConflict(s.history, k, s.version) {
      ConflictExact(s.history, s.log, s.low, s.version, k, s.version);
      LogVersionsOrdered(s.log, s.version, k);
    }
  }

  lemma {:induction false} LookupWrites(m: Kv, writes: map<Key, Op>, k: Key)
    ensures Lookup(ApplyWrites(m, writes), k) == if k in writes then OpValue(writes[k]) else Lookup(m, k)
  {
  }

  /** `DB.Update` with nobody else writing: the transaction reads the map with its own
      operations made, its commit succeeds, and the database then shows that map. */
  lemma {:induction false} UpdateIsMapUpdate<T>(s: Sys<T>, t: T, ops: seq<Op>, m: Kv, k: Key)
    requires Inv(s) && Shows(s, m) && t !in s.txs
    ensures var b := AfterWrites(Begin(s, t, true), t, ops);
            && Get(b, t, k) == Lookup(MapAfter(m, ops), k)
            && !Conflict(b, t)
            && Inv(CommitTx(b, t)) && Shows(CommitTx(b, t), MapAfter(m, ops))
  {
    hide Inv, View, Visible, CommitTx, Conflict, ApplyWrites, Lookup, MapAfter, AfterWrites;
    var b0 := Begin(s, t, true);
    BeginIsStep(s, t, true);
    StepInv(s, LBegin(t, true));
    WritesFacts(b0, t, ops, m);
    var b := AfterWrites(b0, t, ops);
    NoConflict(b, t);
    SnapshotIsView(b, t, k);
    LookupWrites(m, b.txs[t].writes, k);
    CommitInv(b, t);
    if Persists(b, t) {
      CommitShows(b, t, m);
    } else {
      CommitCloses(b, t);
      NoWrites(m);
    }
  }

  lemma {:induction false} NoWrites(m: Kv)
    ensures ApplyWrites(m, map[]) == m
  {
  }

  // --------------------------------------------------------- the statements

  /** The operations of an UPDATE's transaction. */
  ghost function UpdateOps(t: Str, items: seq<UpdateItem>): seq<Op>
    requires forall i :: 0 <= i < |items| ==> PackRow(items[i].newRow).Some?
  {
    if items == [] then [] else
      var last := items[|items| - 1];
      UpdateOps(t, items[..|items| - 1]) + [Op(RowKey(t, last.pk), PackRow(last.newRow).value, false)]
  }

  /** The store an UPDATE leaves is what committing its writes leaves. */
  lemma {:induction false} UpdateStores(kv: Kv, t: Str, items: seq<UpdateItem>)
    requires forall i :: 0 <= i < |items| ==> PackRow(items[i].newRow).Some?
    ensures UpdateKv(kv, t, items) == MapAfter(kv, UpdateOps(t, items))
  {
    hide PackRow, RowKey;
    if items != [] {
      var init := items[..|items| - 1];
      UpdateStores(kv, t, init);
      var ops := UpdateOps(t, items);
      assert ops[..|ops| - 1] == UpdateOps(t, init);
    }
  }

  /** The operations of a DELETE's transaction. */
  ghost function DeleteOps(items: seq<RowItem>): seq<Op>
  {
    if items == [] then [] else DeleteOps(items[..|items| - 1]) + [Op(items[|items| - 1].rowKey, [], true)]
  }

  /** The store a DELETE leaves is what committing its deletions leaves. */
  lemma {:induction false} DeleteStores(kv: Kv, t: Str, items: seq<RowItem>)
    ensures DeleteKv(kv, t, items) == MapAfter(kv, DeleteOps(items))
  {
    if items != [] {
      var init := items[..|items| - 1];
      DeleteStores(kv, t, init);
      var ops := DeleteOps(items);
      assert ops[..|ops| - 1] == DeleteOps(init);
    }
  }

  /** The store an INSERT leaves is what committing its write leaves. */
  lemma {:induction false} InsertStores(kv: Kv, key: Str, page: Str)
    ensures kv[key := page] == MapAfter(kv, [Op(key, page, false)])
  {
    assert [Op(key, page, false)][..0] == [] && MapAfter(kv, []) == kv;
  }
}
