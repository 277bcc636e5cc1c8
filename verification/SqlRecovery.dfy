/**
 SQL statements across a crash: a statement is one committed record, the crash cuts its
 append at any byte, and opening the file again rebuilds tables, rows and indexes as they
 were before the statement or after it.
 */
module SqlRecovery {
  import opened Strings
  import opened Mvcc
  import opened Transactions
  import opened TransactionRuns
  import opened StatementCommits
  import opened CrashRuns
  import Wal
  import WalRecovery
  import opened BTreeModel
  import opened Row
  import opened Keys
  import opened SqlModel
  import opened SqlIndexes
  import opened SqlStore
  import opened SqlCollect
  import opened SqlStatements
  import opened SqlCatalog
  import opened Scan
  import Engine

  // ------------------------------------------------------ the catalog in the store

  /** `json.Marshal` and `json.Unmarshal` of definitions. */
  datatype CatCodec = CatCodec(
    encTable: TableDef -> Str,
    decTable: Str -> Option<TableDef>,
    encIndex: IndexDef -> Str,
    decIndex: Str -> Option<IndexDef>)

  /** JSON reads definitions back. */
  ghost predicate CatOk(cc: CatCodec)
  {
    && (forall d: TableDef :: cc.decTable(cc.encTable(d)) == Some(d))
    && (forall d: IndexDef :: cc.decIndex(cc.encIndex(d)) == Some(d))
  }

  /** `catalogTablePrefix` and `catalogIndexPrefix` */
  function TablePrefix(): Str { Ascii("__rdb__/meta/tables/") }

  function IndexPrefix(): Str { Ascii("__rdb__/meta/indexes/") }

  /** `catalogTableKey` and `catalogIndexKey` */
  function TableKey(name: Str): Str { TablePrefix() + name }

  function IndexKey(name: Str): Str { IndexPrefix() + name }

  lemma {:induction false} PrefixAt(k: Str, p: Str, i: nat)
    requires HasPrefix(k, p) && i < |p|
    ensures i < |k| && k[i] == p[i]
  {
    assert k[..|p|][i] == p[i];
  }

  /** Row keys, table definitions and index definitions do not mix. */
  lemma {:induction false} KeySpaces(k: Str, t: Str)
    ensures HasPrefix(k, RowPrefix(t)) ==> !HasPrefix(k, TablePrefix()) && !HasPrefix(k, IndexPrefix())
    ensures HasPrefix(k, TablePrefix()) ==> !HasPrefix(k, IndexPrefix())
  {
    hide HasPrefix;
    var r, a, b := RowPrefix(t), TablePrefix(), IndexPrefix();
    assert r[8] == Ascii("__rdb__/t/")[8] == 116 && a[8] == 109 && b[8] == 109 && a[13] == 116 && b[13] == 105;
    if HasPrefix(k, r) { PrefixAt(k, r, 8); }
    if HasPrefix(k, a) { PrefixAt(k, a, 8); PrefixAt(k, a, 13); }
    if HasPrefix(k, b) { PrefixAt(k, b, 8); PrefixAt(k, b, 13); }
  }

  /** What the store holds under `k` in state `s`: definitions under their catalog keys,
      everything else as the state says. */
  function ImageAt(cc: CatCodec, s: State, k: Str): Option<Str>
  {
    if HasPrefix(k, TablePrefix()) then
      var name := k[|TablePrefix()|..];
      if name in s.catTables then Some(cc.encTable(s.catTables[name])) else None
    else if HasPrefix(k, IndexPrefix()) then
      var name := k[|IndexPrefix()|..];
      if name in s.catIndexes then Some(cc.encIndex(s.catIndexes[name])) else None
    else Lookup(s.kv, k)
  }

  /** The visible store `m` holds state `s`. */
  ghost predicate IsImage(cc: CatCodec, s: State, m: Kv)
  {
    forall k :: Lookup(m, k) == ImageAt(cc, s, k)
  }

  lemma {:induction false} ImageRowKey(cc: CatCodec, s: State, t: Str, k: Str)
    requires HasPrefix(k, RowPrefix(t))
    ensures ImageAt(cc, s, k) == Lookup(s.kv, k)
  {
    hide HasPrefix, RowPrefix;
    KeySpaces(k, t);
  }

  lemma {:induction false} ImageTableKey(cc: CatCodec, s: State, name: Str)
    ensures HasPrefix(TableKey(name), TablePrefix()) && TableKey(name)[|TablePrefix()|..] == name
    ensures ImageAt(cc, s, TableKey(name)) == if name in s.catTables then Some(cc.encTable(s.catTables[name])) else None
  {
    var p := TablePrefix();
    assert (p + name)[..|p|] == p && (p + name)[|p|..] == name;
  }

  lemma {:induction false} ImageIndexKey(cc: CatCodec, s: State, name: Str)
    ensures HasPrefix(IndexKey(name), IndexPrefix()) && IndexKey(name)[|IndexPrefix()|..] == name
    ensures !HasPrefix(IndexKey(name), TablePrefix())
    ensures ImageAt(cc, s, IndexKey(name)) == if name in s.catIndexes then Some(cc.encIndex(s.catIndexes[name])) else None
  {
    hide HasPrefix;
    var p := IndexPrefix();
    IsPrefix(p, name);
    assert (p + name)[|p|..] == name;
    KeySpaces(p + name, []);
  }

  lemma {:induction false} IsPrefix(p: Str, s: Str)
    ensures HasPrefix(p + s, p)
  {
    assert (p + s)[..|p|] == p;
  }

  // ------------------------------------------------ the state is as in its image

  lemma {:induction false} ImageRows(cc: CatCodec, s: State, m: Kv, t: Str)
    requires IsImage(cc, s, m)
    ensures RowsOf(m, t) == RowsOf(s.kv, t)
  {
    hide RowsOf, RowKey, RowPrefix, HasPrefix, ImageAt;
    forall qk ensures Lookup(m, RowKey(t, qk)) == Lookup(s.kv, RowKey(t, qk)) {
      RowKeyRoundTrip(t, qk);
      ImageRowKey(cc, s, t, RowKey(t, qk));
      assert Lookup(m, RowKey(t, qk)) == ImageAt(cc, s, RowKey(t, qk));
    }
    SameRows(s.kv, m, t);
  }

  lemma {:induction false} ImageUnder(cc: CatCodec, s: State, m: Kv, t: Str)
    requires IsImage(cc, s, m)
    ensures forall key :: key in m && HasPrefix(key, RowPrefix(t)) ==> key in s.kv && m[key] == s.kv[key]
  {
    hide RowPrefix, HasPrefix, ImageAt;
    forall key | key in m && HasPrefix(key, RowPrefix(t)) ensures key in s.kv && m[key] == s.kv[key] {
      ImageRowKey(cc, s, t, key);
      assert Lookup(m, key) == ImageAt(cc, s, key);
    }
  }

  lemma {:induction false} ImageStored(cc: CatCodec, s: State, m: Kv)
    requires IsImage(cc, s, m) && StoreOk(s.kv, s.tables)
    ensures StoreOk(m, s.tables)
  {
    hide RowAt, RowPrefix, HasPrefix, ImageAt, TableName, TableOk;
    forall t | t in s.tables ensures TableStored(m, s.tables[t]) {
      assert TableStored(s.kv, s.tables[t]);
      ImageUnder(cc, s, m, s.tables[t].name);
    }
    forall t | TableName(t) && t !in s.tables ensures NoRows(m, t) {
      assert NoRows(s.kv, t);
      ImageUnder(cc, s, m, t);
    }
  }

  /** A consistent state stays consistent on top of the store that holds it. */
  lemma {:induction false} ImageConsistent(env: Env, cc: CatCodec, s: State, m: Kv)
    requires Consistent(env, s) && IsImage(cc, s, m)
    ensures Consistent(env, s.(kv := m))
  {
    hide StoreOk, RowsOf, PkIndexed, IsImage, SecOk;
    ImageStored(cc, s, m);
    forall t ensures RowsOf(m, t) == RowsOf(s.kv, t) { ImageRows(cc, s, m, t); }
    forall n | n in s.secs ensures SecOk(env, m, s.tables[s.secs[n].def.table], s.secs[n]) {
      SecOkSame(env, s.kv, m, s.tables[s.secs[n].def.table], s.secs[n]);
    }
  }

  // --------------------------------------------------- operations on the image

  lemma {:induction false} SameAfter(a: Kv, b: Kv, ops: seq<Op>, k: Str)
    requires Lookup(a, k) == Lookup(b, k)
    ensures Lookup(MapAfter(a, ops), k) == Lookup(MapAfter(b, ops), k)
  {
    if ops != [] { SameAfter(a, b, ops[..|ops| - 1], k); }
  }

  predicate Touches(ops: seq<Op>, k: Str)
  {
    exists i :: 0 <= i < |ops| && ops[i].key == k
  }

  lemma {:induction false} Untouched(a: Kv, ops: seq<Op>, k: Str)
    requires !Touches(ops, k)
    ensures Lookup(MapAfter(a, ops), k) == Lookup(a, k)
  {
    if ops != [] {
      var init := ops[..|ops| - 1];
      assert forall i :: 0 <= i < |init| ==> init[i] == ops[i];
      assert ops[|ops| - 1].key != k;
      Untouched(a, init, k);
    }
  }

  /** The operations write row keys only. */
  predicate RowOps(ops: seq<Op>, t: Str)
  {
    forall i :: 0 <= i < |ops| ==> HasPrefix(ops[i].key, RowPrefix(t))
  }

  /** A transaction on rows takes the image of a state to the image of the next one. */
  lemma {:induction false} RowOpsImage(cc: CatCodec, s: State, s': State, m: Kv, ops: seq<Op>, t: Str)
    requires IsImage(cc, s, m) && RowOps(ops, t)
    requires s'.kv == MapAfter(s.kv, ops) && s'.catTables == s.catTables && s'.catIndexes == s.catIndexes
    ensures IsImage(cc, s', MapAfter(m, ops))
  {
    hide HasPrefix, RowPrefix, MapAfter;
    forall k ensures Lookup(MapAfter(m, ops), k) == ImageAt(cc, s', k) {
      assert Lookup(m, k) == ImageAt(cc, s, k);
      if HasPrefix(k, TablePrefix()) || HasPrefix(k, IndexPrefix()) {
        KeySpaces(k, t);
        Untouched(m, ops, k);
      } else {
        SameAfter(m, s.kv, ops, k);
      }
    }
  }

  /** INSERT: one page under the row's key. */
  lemma {:induction false} InsertImage(env: Env, cc: CatCodec, s: State, m: Kv, t: Str, pk: PkKey, vals: seq<Value>)
    requires IsImage(cc, s, m) && t in s.tables && t in s.indexes && PackRow(vals).Some?
    ensures IsImage(cc, WithInsert(env, s, t, pk, vals), MapAfter(m, [Op(RowKey(t, pk), PackRow(vals).value, false)]))
  {
    hide IsImage, HasPrefix, RowPrefix, RowKey, PackRow, PutSorted, InsertSecs;
    var ops := [Op(RowKey(t, pk), PackRow(vals).value, false)];
    RowKeyRoundTrip(t, pk);
    InsertStores(s.kv, RowKey(t, pk), PackRow(vals).value);
    RowOpsImage(cc, s, WithInsert(env, s, t, pk, vals), m, ops, t);
  }

  /** UPDATE: the new pages. */
  lemma {:induction false} UpdateImage(env: Env, cc: CatCodec, s: State, m: Kv, t: Str, items: seq<UpdateItem>)
    requires IsImage(cc, s, m) && t in s.tables && forall i :: 0 <= i < |items| ==> PackRow(items[i].newRow).Some?
    ensures IsImage(cc, WithUpdate(env, s, t, items), MapAfter(m, UpdateOps(t, items)))
  {
    hide IsImage, PackRow, UpdateKv, UpdateSecs, MapAfter, UpdateOps;
    UpdateStores(s.kv, t, items);
    UpdateOpsRows(t, items);
    RowOpsImage(cc, s, WithUpdate(env, s, t, items), m, UpdateOps(t, items), t);
  }

  lemma {:induction false} UpdateOpsRows(t: Str, items: seq<UpdateItem>)
    requires forall i :: 0 <= i < |items| ==> PackRow(items[i].newRow).Some?
    ensures RowOps(UpdateOps(t, items), t)
  {
    hide PackRow, HasPrefix, RowPrefix, RowKey;
    if items != [] {
      UpdateOpsRows(t, items[..|items| - 1]);
      RowKeyRoundTrip(t, items[|items| - 1].pk);
    }
  }

  /** DELETE: the row keys go. */
  lemma {:induction false} DeleteImage(env: Env, cc: CatCodec, s: State, m: Kv, t: Str, items: seq<RowItem>)
    requires IsImage(cc, s, m) && t in s.tables && t in s.indexes
    requires forall i :: 0 <= i < |items| ==> items[i].rowKey == RowKey(t, items[i].pk)
    ensures IsImage(cc, WithDelete(env, s, t, items), MapAfter(m, DeleteOps(items)))
  {
    hide IsImage, DeleteKv, DeleteKeys, DeleteSecs, MapAfter, DeleteOps, RowKey;
    DeleteStores(s.kv, t, items);
    DeleteOpsRows(t, items);
    RowOpsImage(cc, s, WithDelete(env, s, t, items), m, DeleteOps(items), t);
  }

  lemma {:induction false} DeleteOpsRows(t: Str, items: seq<RowItem>)
    requires forall i :: 0 <= i < |items| ==> items[i].rowKey == RowKey(t, items[i].pk)
    ensures RowOps(DeleteOps(items), t)
  {
    hide HasPrefix, RowPrefix, RowKey;
    if items != [] {
      DeleteOpsRows(t, items[..|items| - 1]);
      RowKeyRoundTrip(t, items[|items| - 1].pk);
    }
  }

  lemma {:induction false} OneOp(m: Kv, op: Op, k: Str)
    ensures Lookup(MapAfter(m, [op]), k) == if k == op.key then OpValue(op) else Lookup(m, k)
  {
    assert [op][..0] == [] && MapAfter(m, []) == m;
  }

  /** CREATE TABLE: the definition under its catalog key. */
  lemma {:induction false} CreateImage(cc: CatCodec, s: State, m: Kv, def: TableDef)
    requires IsImage(cc, s, m)
    ensures IsImage(cc, WithTable(s, def), MapAfter(m, [Op(TableKey(def.name), cc.encTable(def), false)]))
  {
    hide HasPrefix, MapAfter, TablePrefix, IndexPrefix;
    var op := Op(TableKey(def.name), cc.encTable(def), false);
    ImageTableKey(cc, s, def.name);
    forall k ensures Lookup(MapAfter(m, [op]), k) == ImageAt(cc, WithTable(s, def), k) {
      assert Lookup(m, k) == ImageAt(cc, s, k);
      OneOp(m, op, k);
      if HasPrefix(k, TablePrefix()) { KeyOfName(k, TablePrefix()); }
    }
  }

  lemma {:induction false} KeyOfName(k: Str, p: Str)
    requires HasPrefix(k, p)
    ensures |p| <= |k| && k == p + k[|p|..]
  {
  }

  /** CREATE INDEX and DROP INDEX: the definition comes or goes. */
  lemma {:induction false} IndexImage(cc: CatCodec, s: State, m: Kv, si: SecIdx)
    requires IsImage(cc, s, m)
    ensures IsImage(cc, WithIndex(s, si), MapAfter(m, [Op(IndexKey(si.def.name), cc.encIndex(si.def), false)]))
  {
    hide HasPrefix, MapAfter, TablePrefix, IndexPrefix;
    var op := Op(IndexKey(si.def.name), cc.encIndex(si.def), false);
    ImageIndexKey(cc, s, si.def.name);
    forall k ensures Lookup(MapAfter(m, [op]), k) == ImageAt(cc, WithIndex(s, si), k) {
      assert Lookup(m, k) == ImageAt(cc, s, k);
      OneOp(m, op, k);
      if HasPrefix(k, IndexPrefix()) { KeyOfName(k, IndexPrefix()); }
    }
  }

  lemma {:induction false} UnindexImage(cc: CatCodec, s: State, m: Kv, n: Str)
    requires IsImage(cc, s, m)
    ensures IsImage(cc, WithoutIndex(s, n), MapAfter(m, [Op(IndexKey(n), [], true)]))
  {
    hide HasPrefix, MapAfter, TablePrefix, IndexPrefix;
    var op := Op(IndexKey(n), [], true);
    ImageIndexKey(cc, s, n);
    forall k ensures Lookup(MapAfter(m, [op]), k) == ImageAt(cc, WithoutIndex(s, n), k) {
      assert Lookup(m, k) == ImageAt(cc, s, k);
      OneOp(m, op, k);
      if HasPrefix(k, IndexPrefix()) { KeyOfName(k, IndexPrefix()); }
    }
  }

  /** What DROP TABLE deletes: the table's rows, its indexes' definitions, and its own. */
  ghost predicate DropsKey(s: State, t: Str, k: Str)
  {
    || k == TableKey(t)
    || (HasPrefix(k, IndexPrefix()) && k[|IndexPrefix()|..] in s.catIndexes && s.catIndexes[k[|IndexPrefix()|..]].table == t)
    || (HasPrefix(k, RowPrefix(t)) && k in s.kv)
  }

  predicate AllDeletes(ops: seq<Op>)
  {
    forall i :: 0 <= i < |ops| ==> ops[i].delete
  }

  lemma {:induction false} DeletesLookup(m: Kv, ops: seq<Op>, k: Str)
    requires AllDeletes(ops)
    ensures Lookup(MapAfter(m, ops), k) == if Touches(ops, k) then None else Lookup(m, k)
  {
    if !Touches(ops, k) {
      Untouched(m, ops, k);
    } else {
      var init, last := ops[..|ops| - 1], ops[|ops| - 1];
      var i :| 0 <= i < |ops| && ops[i].key == k;
      assert last.delete;
      DeletesLookup(m, init, k);
      if last.key != k { assert init[i].key == k; }
    }
  }

  /** DROP TABLE: deletions of exactly these keys. */
  lemma {:induction false} DropImage(cc: CatCodec, s: State, m: Kv, t: Str, ops: seq<Op>)
    requires IsImage(cc, s, m) && AllDeletes(ops) && forall k :: Touches(ops, k) <==> DropsKey(s, t, k)
    ensures IsImage(cc, WithoutTable(s, t), MapAfter(m, ops))
  {
    hide HasPrefix, MapAfter, RowPrefix, Touches, AllDeletes, TablePrefix, IndexPrefix;
    var s' := WithoutTable(s, t);
    forall k ensures Lookup(MapAfter(m, ops), k) == ImageAt(cc, s', k) {
      assert Lookup(m, k) == ImageAt(cc, s, k);
      DeletesLookup(m, ops, k);
      KeySpaces(k, t);
      ImageTableKey(cc, s, t);
      if HasPrefix(k, TablePrefix()) { KeyOfName(k, TablePrefix()); }
    }
  }

  // ------------------------------------------------------------ reading it back

  /** `listTableDefs`, keyed by name. */
  method LoadTables(cc: CatCodec, m: Kv, ghost s: State) returns (tables: map<Str, TableDef>)
    requires CatOk(cc) && IsImage(cc, s, m) && forall t :: t in s.catTables ==> s.catTables[t].name == t
    ensures tables == s.catTables
  {
    hide HasPrefix, ImageAt, CatOk, IsImage, SortedPairs, DistinctPairs, TablePrefix;
    var ps := Pairs(m, TablePrefix());
    tables := map[];
    var i := 0;
    while i < |ps|
      invariant i <= |ps|
      invariant forall t :: t in tables ==> t in s.catTables && tables[t] == s.catTables[t]
      invariant forall j :: 0 <= j < i ==> LoadedTable(ps[j].key, tables)
    {
      assert ps[i] in ps;
      TableOfPair(cc, s, m, ps[i]);
      var def := cc.decTable(ps[i].value).value;
      LoadedMore(tables, def.name, def);
      tables := tables[def.name := def];
      i := i + 1;
    }
    forall t | t in s.catTables ensures t in tables {
      PairOfTable(cc, s, m, t);
      assert Pair(TableKey(t), m[TableKey(t)]) in ps;
      var j :| 0 <= j < |ps| && ps[j] == Pair(TableKey(t), m[TableKey(t)]);
      assert LoadedTable(ps[j].key, tables);
      ImageTableKey(cc, s, t);
    }
  }

  predicate LoadedTable(key: Str, tables: map<Str, TableDef>)
  {
    HasPrefix(key, TablePrefix()) && key[|TablePrefix()|..] in tables
  }

  lemma {:induction false} LoadedMore(tables: map<Str, TableDef>, name: Str, def: TableDef)
    ensures forall key :: LoadedTable(key, tables) ==> LoadedTable(key, tables[name := def])
  {
    hide HasPrefix, TablePrefix;
  }

  lemma {:induction false} TableOfPair(cc: CatCodec, s: State, m: Kv, p: Pair)
    requires CatOk(cc) && IsImage(cc, s, m) && forall t :: t in s.catTables ==> s.catTables[t].name == t
    requires HasPrefix(p.key, TablePrefix()) && p.key in m && m[p.key] == p.value
    ensures var t := p.key[|TablePrefix()|..];
            && t in s.catTables && cc.decTable(p.value) == Some(s.catTables[t]) && s.catTables[t].name == t
  {
    hide HasPrefix, TablePrefix;
    assert Lookup(m, p.key) == ImageAt(cc, s, p.key);
    KeyOfName(p.key, TablePrefix());
    var t := p.key[|TablePrefix()|..];
    assert cc.decTable(cc.encTable(s.catTables[t])) == Some(s.catTables[t]);
  }

  lemma {:induction false} PairOfTable(cc: CatCodec, s: State, m: Kv, t: Str)
    requires IsImage(cc, s, m) && t in s.catTables
    ensures HasPrefix(TableKey(t), TablePrefix()) && TableKey(t) in m
  {
    hide ImageAt;
    ImageTableKey(cc, s, t);
    assert Lookup(m, TableKey(t)) == ImageAt(cc, s, TableKey(t));
  }

  /** `listIndexDefs`, keyed by name. */
  method LoadIndexes(cc: CatCodec, m: Kv, ghost s: State) returns (indexes: map<Str, IndexDef>)
    requires CatOk(cc) && IsImage(cc, s, m) && forall n :: n in s.catIndexes ==> s.catIndexes[n].name == n
    ensures indexes == s.catIndexes
  {
    hide HasPrefix, ImageAt, CatOk, IsImage, SortedPairs, DistinctPairs, IndexPrefix;
    var ps := Pairs(m, IndexPrefix());
    indexes := map[];
    var i := 0;
    while i < |ps|
      invariant i <= |ps|
      invariant forall n :: n in indexes ==> n in s.catIndexes && indexes[n] == s.catIndexes[n]
      invariant forall j :: 0 <= j < i ==> LoadedIndex(ps[j].key, indexes)
    {
      assert ps[i] in ps;
      IndexOfPair(cc, s, m, ps[i]);
      var def := cc.decIndex(ps[i].value).value;
      LoadedIndexMore(indexes, def.name, def);
      indexes := indexes[def.name := def];
      i := i + 1;
    }
    forall n | n in s.catIndexes ensures n in indexes {
      PairOfIndex(cc, s, m, n);
      assert Pair(IndexKey(n), m[IndexKey(n)]) in ps;
      var j :| 0 <= j < |ps| && ps[j] == Pair(IndexKey(n), m[IndexKey(n)]);
      assert LoadedIndex(ps[j].key, indexes);
      ImageIndexKey(cc, s, n);
    }
  }

  predicate LoadedIndex(key: Str, indexes: map<Str, IndexDef>)
  {
    HasPrefix(key, IndexPrefix()) && key[|IndexPrefix()|..] in indexes
  }

  lemma {:induction false} LoadedIndexMore(indexes: map<Str, IndexDef>, name: Str, def: IndexDef)
    ensures forall key :: LoadedIndex(key, indexes) ==> LoadedIndex(key, indexes[name := def])
  {
    hide HasPrefix, IndexPrefix;
  }

  lemma {:induction false} IndexOfPair(cc: CatCodec, s: State, m: Kv, p: Pair)
    requires CatOk(cc) && IsImage(cc, s, m) && forall n :: n in s.catIndexes ==> s.catIndexes[n].name == n
    requires HasPrefix(p.key, IndexPrefix()) && p.key in m && m[p.key] == p.value
    ensures var n := p.key[|IndexPrefix()|..];
            && n in s.catIndexes && cc.decIndex(p.value) == Some(s.catIndexes[n]) && s.catIndexes[n].name == n
  {
    hide HasPrefix, IndexPrefix, TablePrefix;
    assert Lookup(m, p.key) == ImageAt(cc, s, p.key);
    KeySpaces(p.key, []);
    KeyOfName(p.key, IndexPrefix());
    var n := p.key[|IndexPrefix()|..];
    assert cc.decIndex(cc.encIndex(s.catIndexes[n])) == Some(s.catIndexes[n]);
  }

  lemma {:induction false} PairOfIndex(cc: CatCodec, s: State, m: Kv, n: Str)
    requires IsImage(cc, s, m) && n in s.catIndexes
    ensures HasPrefix(IndexKey(n), IndexPrefix()) && IndexKey(n) in m
  {
    hide ImageAt;
    ImageIndexKey(cc, s, n);
    assert Lookup(m, IndexKey(n)) == ImageAt(cc, s, IndexKey(n));
  }

  /** What a transaction at the current version sees of a history. */
  method VisibleMap(history: History, version: nat) returns (m: Kv)
    ensures forall k :: Lookup(m, k) == Visible(Versions(history, k), version)
  {
    hide Visible, BaseIndex;
    m := map[];
    var rest := history.Keys;
    NothingVisible(version);
    while rest != {}
      invariant rest <= history.Keys
      invariant forall k :: Lookup(m, k) == if k in rest then None else Visible(Versions(history, k), version)
      decreases |rest|
    {
      var k :| k in rest;
      var v := Visible(history[k], version);
      if v.Some? {
        m := m[k := v.value];
      }
      rest := rest - {k};
    }
  }

  lemma {:induction false} NothingVisible(version: nat)
    ensures Visible([], version) == None
  {
  }

  /** Opening a file whose records show the image of a state: the SQL layer comes up in that
      state, every table, row and index entry of it. */
  method OpenSql<T(==)>(c: Wal.Codec, env: Env, cc: CatCodec, data: Str, ghost s: State, ghost m: Kv) returns (r: State)
    requires CatOk(cc) && Consistent(env, s) && IsImage(cc, s, m)
    requires OpenFile<T>(c, data).Some? && Shows(OpenFile<T>(c, data).value.sys, m)
    ensures r == s.(kv := m)
  {
    hide Wal.OpenSpec, Consistent, IsImage, CatOk, View, Visible;
    var o := Wal.Open(c, data);
    var db := new Engine.Db(c, o.recs, o.file);
    var kv := VisibleMap(db.history, db.version);
    forall k ensures Lookup(kv, k) == Lookup(m, k) {
      ReplayVersions(o.recs, k);
      VisibleIsView(o.recs, MaxVersion(o.recs), k);
    }
    SameLookups(kv, m);
    ImageConsistent(env, cc, s, m);
    ConsistentKeys(env, s);
    CatalogNames(env, s);
    var catTables := LoadTables(cc, kv, s);
    var catIndexes := LoadIndexes(cc, kv, s);
    var tables, indexes, secs := RebuildSqlState(env, kv, catTables, catIndexes, s.(kv := m));
    r := State(kv, catTables, catIndexes, tables, indexes, secs);
  }

  lemma {:induction false} CatalogNames(env: Env, s: State)
    requires Consistent(env, s)
    ensures forall t :: t in s.catTables ==> s.catTables[t].name == t
    ensures forall n :: n in s.catIndexes ==> s.catIndexes[n].name == n
  {
    hide PkIndexed, SecOk, RowsOf, TableStored, NoRows, TableOk, TableName;
  }

  // ------------------------------------------------------------------ the crash

  /** A crash `n` bytes into the append of a statement's record: the file opens, and shows the
      store with the statement's operations made if the record is complete, else without. */
  lemma {:induction false} StatementTorn<T>(c: Wal.Codec, s: Sys<T>, t: T, ops: seq<Op>, m: Kv, n: nat)
    requires Inv(s) && Shows(s, m) && t !in s.txs
    requires var b := AfterWrites(Begin(s, t, true), t, ops);
             && n <= |Appended(c, b, t)|
             && WalRecovery.AllStorable(c, s.disk) && (Persists(b, t) ==> Wal.Storable(c, CommitRecord(b, t)))
    ensures var b := AfterWrites(Begin(s, t, true), t, ops);
            var o := OpenFile<T>(c, FileOf(c, s.disk) + Appended(c, b, t)[..n]);
            o.Some? && Shows(o.value.sys, if n == |Appended(c, b, t)| then MapAfter(m, ops) else m)
  {
    hide Inv, View, Persists, CommitRecord, Appended, OpenFile, Wal.Storable, ApplyWrites, MapAfter, AfterWrites, FileOf, Step;
    var a := Begin(s, t, true);
    BeginIsStep(s, t, true);
    StepInv(s, LBegin(t, true));
    WritesFacts(a, t, ops, m);
    var b := AfterWrites(a, t, ops);
    var f, l := FileSys(b, FileOf(c, b.disk)), CrashAppending(t, n);
    FileStepRefines(c, f, l);
    StepShows(b, Abstract(c, f, l), m);
    NoConflict(b, t);
    if n == |Appended(c, b, t)| { LandedEffect(c, b, t, ops, m); } else { TornEffect(c, f, t, n, m); }
  }

  lemma {:induction false} LandedEffect<T>(c: Wal.Codec, b: Sys<T>, t: T, ops: seq<Op>, m: Kv)
    requires t in b.txs && b.txs[t].writable && !Conflict(b, t) && ApplyWrites(m, b.txs[t].writes) == MapAfter(m, ops)
    ensures Effect(b, LCrashInCommit(t, true), m) == MapAfter(m, ops)
  {
    hide ApplyWrites, MapAfter;
    NoWrites(m);
  }

  lemma {:induction false} TornEffect<T>(c: Wal.Codec, f: FileSys<T>, t: T, n: nat, m: Kv)
    requires t in f.sys.txs && n < |Appended(c, f.sys, t)|
    ensures Effect(f.sys, Abstract(c, f, CrashAppending(t, n)), m) == m
  {
  }

  /** A statement cut at any byte of its commit: after opening again, tables, rows and indexes
      are those of the state after the statement if its record is complete, and else those of
      the state before it. */
  method RecoverStatement<T(==)>(c: Wal.Codec, env: Env, cc: CatCodec, data: Str,
                          ghost s: Sys<T>, ghost t: T, ghost ops: seq<Op>, ghost n: nat,
                          ghost before: State, ghost after: State, ghost m: Kv) returns (r: State)
    requires CatOk(cc) && Consistent(env, before) && Consistent(env, after)
    requires IsImage(cc, before, m) && IsImage(cc, after, MapAfter(m, ops))
    requires Inv(s) && Shows(s, m) && t !in s.txs
    requires var b := AfterWrites(Begin(s, t, true), t, ops);
             && n <= |Appended(c, b, t)| && data == FileOf(c, s.disk) + Appended(c, b, t)[..n]
             && WalRecovery.AllStorable(c, s.disk) && (Persists(b, t) ==> Wal.Storable(c, CommitRecord(b, t)))
    ensures r == if n == |Appended(c, AfterWrites(Begin(s, t, true), t, ops), t)|
                 then after.(kv := MapAfter(m, ops)) else before.(kv := m)
  {
    hide CatOk, Consistent, IsImage, Inv, Shows, OpenFile, FileOf, Appended, AfterWrites, MapAfter, Wal.Storable, Persists, CommitRecord;
    StatementTorn(c, s, t, ops, m, n);
    ghost var whole := n == |Appended(c, AfterWrites(Begin(s, t, true), t, ops), t)|;
    r := OpenSql<T>(c, env, cc, data, if whole then after else before, if whole then MapAfter(m, ops) else m);
  }

  // ------------------------------------------------------------- the scan

  /** Sorted pairs are determined by which pairs they are. */
  lemma {:induction false} SortedPairsUnique(a: seq<Pair>, b: seq<Pair>)
    requires SortedPairs(a) && SortedPairs(b) && forall p :: p in a <==> p in b
    ensures a == b
  {
    hide StrLess;
    assert a != [] ==> a[0] in a;
    assert b != [] ==> b[0] in b;
    if a != [] && b != [] {
      LeastPair(a, b[0]);
      LeastPair(b, a[0]);
      StrLessTotal(a[0].key, b[0].key);
      assert a == [a[0]] + a[1..] && b == [b[0]] + b[1..];
      OthersBehind(a);
      OthersBehind(b);
      forall p ensures p in a[1..] <==> p in b[1..] {
        assert p in a <==> p == a[0] || p in a[1..];
        assert p in b <==> p == b[0] || p in b[1..];
      }
      SortedPairsUnique(a[1..], b[1..]);
    }
  }

  lemma {:induction false} LeastPair(a: seq<Pair>, p: Pair)
    requires SortedPairs(a) && p in a
    ensures p == a[0] || StrLess(a[0].key, p.key)
  {
    hide StrLess;
    var i :| 0 <= i < |a| && a[i] == p;
  }

  lemma {:induction false} OthersBehind(a: seq<Pair>)
    requires SortedPairs(a) && a != []
    ensures SortedPairs(a[1..]) && a[0] !in a[1..]
  {
    hide StrLess;
    forall i | 1 <= i < |a| ensures a[i] != a[0] { StrLessTotal(a[0].key, a[i].key); }
  }

  /** What `ScanPrefix` returns in a transaction that has written nothing is what a scan of
      the map the database shows returns. */
  lemma {:induction false} ScanIsPairs<T>(s: Sys<T>, t: T, m: Kv, prefix: Str, ps: seq<Pair>, qs: seq<Pair>)
    requires Inv(s) && Shows(s, m) && t in s.txs && s.txs[t].readVersion == s.version && s.txs[t].writes == map[]
    requires SortedPairs(ps) && forall k, v :: Pair(k, v) in ps <==> HasPrefix(k, prefix) && Get(s, t, k) == Some(v)
    requires SortedPairs(qs) && forall p: Pair :: p in qs <==> HasPrefix(p.key, prefix) && p.key in m && m[p.key] == p.value
    ensures ps == qs
  {
    hide Inv, View, Visible, HasPrefix, SortedPairs;
    forall p: Pair ensures p in ps <==> p in qs {
      SnapshotIsView(s, t, p.key);
      assert View(s.log, s.version, p.key) == Lookup(m, p.key);
      assert p == Pair(p.key, p.value);
      assert Pair(p.key, p.value) in ps <==> HasPrefix(p.key, prefix) && Get(s, t, p.key) == Some(p.value);
    }
    SortedPairsUnique(ps, qs);
  }
}
