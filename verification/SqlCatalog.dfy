/**
 Tables and indexes coming and going, building an index from the stored rows, and the
 rebuild of the in-memory state when the database is opened.
 */
module SqlCatalog {
  import opened Strings
  import opened BTreeModel
  import opened Row
  import opened Keys
  import opened SqlModel
  import opened SqlAnswers
  import opened SqlIndexes
  import opened SqlStore
  import opened SqlCollect
  import opened SqlStatements
  import opened Scan

  // ------------------------------------------------------------ definitions

  ghost function WithTable(s: State, def: TableDef): State
  {
    s.(catTables := s.catTables[def.name := def], tables := s.tables[def.name := def], indexes := s.indexes[def.name := []])
  }

  lemma {:induction false} CreateConsistent(env: Env, s: State, def: TableDef)
    requires Consistent(env, s) && TableOk(def) && def.name !in s.tables
    ensures Consistent(env, WithTable(s, def))
    ensures RowsOf(s.kv, def.name) == map[]
  {
    hide RowsOf, PkIndexed, SecOk, TableStored, NoRows, TableOk;
    TableNameOk(def);
    assert NoRows(s.kv, def.name);
    NoRowsEmpty(s.kv, def.name);
    NoRowsStored(s.kv, def);
    NoneIndexed(def.name);
  }

  lemma {:induction false} NoRowsStored(kv: Kv, def: TableDef)
    requires NoRows(kv, def.name)
    ensures TableStored(kv, def)
  {
    hide HasPrefix, RowPrefix, RowAt;
  }

  lemma {:induction false} NoneIndexed(name: Str)
    ensures PkIndexed(name, map[], [])
  {
  }

  /** The store without the rows of `t`. */
  function WithoutRows(kv: Kv, t: Str): Kv
  {
    map k | k in kv && !HasPrefix(k, RowPrefix(t)) :: kv[k]
  }

  ghost function WithoutTable(s: State, t: Str): State
  {
    State(WithoutRows(s.kv, t), s.catTables - {t}, map n | n in s.catIndexes && s.catIndexes[n].table != t :: s.catIndexes[n],
          s.tables - {t}, s.indexes - {t}, map n | n in s.secs && s.secs[n].def.table != t :: s.secs[n])
  }

  lemma {:induction false} OtherRowsKept(kv: Kv, t: Str, u: Str)
    requires TableName(t) && TableName(u) && t != u
    ensures RowsOf(WithoutRows(kv, t), u) == RowsOf(kv, u)
  {
    hide RowKey, RowsOf, RowPrefix, HasPrefix, TableName;
    forall qk ensures !HasPrefix(RowKey(u, qk), RowPrefix(t)) {
      RowKeyRoundTrip(u, qk);
      if HasPrefix(RowKey(u, qk), RowPrefix(t)) { TablesDisjoint(t, u, RowKey(u, qk)); }
    }
    SameRows(kv, WithoutRows(kv, t), u);
  }

  lemma {:induction false} DroppedStoreOk(kv: Kv, tables: map<Str, TableDef>, t: Str)
    requires StoreOk(kv, tables)
    ensures StoreOk(WithoutRows(kv, t), tables - {t})
  {
    hide RowAt, RowPrefix, HasPrefix, TableName, TableStored, NoRows;
    StoreLess(kv, WithoutRows(kv, t), tables);
    assert NoRows(WithoutRows(kv, t), t) by { DroppedNoRows(kv, t); }
  }

  lemma {:induction false} DroppedNoRows(kv: Kv, t: Str)
    ensures NoRows(WithoutRows(kv, t), t)
  {
  }

  lemma {:induction false} OthersKept(env: Env, s: State, t: Str)
    requires Consistent(env, s) && t in s.tables
    ensures forall u :: u in s.tables && u != t ==> RowsOf(WithoutRows(s.kv, t), u) == RowsOf(s.kv, u) && s.tables[u].name == u
  {
    hide RowsOf, WithoutRows, TableName, Consistent, TableOk, TableStored, PkIndexed, SecsOf, RowsOk;
    ConsistentTable(env, s, t);
    TableNameOk(s.tables[t]);
    forall u | u in s.tables && u != t ensures RowsOf(WithoutRows(s.kv, t), u) == RowsOf(s.kv, u) && s.tables[u].name == u {
      ConsistentTable(env, s, u);
      TableNameOk(s.tables[u]);
      OtherRowsKept(s.kv, t, u);
    }
  }

  lemma {:induction false} DropConsistent(env: Env, s: State, t: Str)
    requires Consistent(env, s) && t in s.tables
    ensures Consistent(env, WithoutTable(s, t))
    ensures forall u :: u in s.tables && u != t ==> RowsOf(WithoutTable(s, t).kv, u) == RowsOf(s.kv, u)
  {
    hide RowsOf, PkIndexed, SecOk, StoreOk, TableOk, WithoutRows, TableName, SecIndexesOk;
    DroppedStoreOk(s.kv, s.tables, t);
    OthersKept(env, s, t);
    DropSecs(env, s, t);
  }

  lemma {:induction false} DropSecs(env: Env, s: State, t: Str)
    requires SecIndexesOk(env, s) && t in s.tables
    requires forall u :: u in s.tables && u != t ==> RowsOf(WithoutRows(s.kv, t), u) == RowsOf(s.kv, u) && s.tables[u].name == u
    ensures SecIndexesOk(env, WithoutTable(s, t))
  {
    hide RowsOf, SecOk, WithoutRows;
    var s' := WithoutTable(s, t);
    assert s'.secs.Keys == s'.catIndexes.Keys;
    forall n | n in s'.secs ensures SecOk(env, s'.kv, s'.tables[s'.secs[n].def.table], s'.secs[n]) {
      SecOkSame(env, s.kv, s'.kv, s.tables[s.secs[n].def.table], s.secs[n]);
    }
  }

  ghost function WithIndex(s: State, si: SecIdx): State
  {
    s.(catIndexes := s.catIndexes[si.def.name := si.def], secs := s.secs[si.def.name := si])
  }

  lemma {:induction false} IndexConsistent(env: Env, s: State, si: SecIdx)
    requires Consistent(env, s) && si.def.table in s.tables && SecOk(env, s.kv, s.tables[si.def.table], si)
    ensures Consistent(env, WithIndex(s, si))
  {
    hide RowsOf, PkIndexed, SecOk, StoreOk;
  }

  ghost function WithoutIndex(s: State, n: Str): State
  {
    s.(catIndexes := s.catIndexes - {n}, secs := s.secs - {n})
  }

  lemma {:induction false} UnindexConsistent(env: Env, s: State, n: Str)
    requires Consistent(env, s)
    ensures Consistent(env, WithoutIndex(s, n))
  {
    hide RowsOf, PkIndexed, SecOk, StoreOk;
  }

  // ------------------------------------------------------ building an index

  ghost function PairPk(def: TableDef, p: Pair): PkKey
  {
    match ParseRowKey(def.name, p.key) case Some(pk) => pk case None => PkStr([])
  }

  /** The rows the first pairs of a scan hold. */
  ghost function RowsIn(def: TableDef, ps: seq<Pair>): Rows
  {
    if ps == [] then map[] else
      var last := ps[|ps| - 1];
      RowsIn(def, ps[..|ps| - 1])[PairPk(def, last) := Unpacked(last.value)]
  }

  lemma {:induction false} RowsInNext(def: TableDef, ps: seq<Pair>, i: nat)
    requires i < |ps|
    ensures RowsIn(def, ps[..i + 1]) == RowsIn(def, ps[..i])[PairPk(def, ps[i]) := Unpacked(ps[i].value)]
  {
    hide PairPk, Unpacked;
    assert ps[..i + 1][..i] == ps[..i] && ps[..i + 1][i] == ps[i];
  }

  lemma {:induction false} PairRow(ps: seq<Pair>, kv: Kv, def: TableDef, i: nat)
    requires PairsOf(ps, kv, def) && TableStored(kv, def) && i < |ps|
    ensures ps[i].key == RowKey(def.name, PairPk(def, ps[i]))
    ensures ParseRowKey(def.name, ps[i].key) == Some(PairPk(def, ps[i])) && UnpackRow(ps[i].value) == Some(Unpacked(ps[i].value))
    ensures PairPk(def, ps[i]) in RowsOf(kv, def.name) && RowsOf(kv, def.name)[PairPk(def, ps[i])] == Unpacked(ps[i].value)
  {
    hide RowKey, RowsOf, UnpackRow, ParseRowKey, TableStored, PairsOf;
    PairIsRow(ps, kv, def, i);
  }

  /** The rows of the first `i` pairs are rows of the table. */
  lemma {:induction false} RowsInOk(ps: seq<Pair>, kv: Kv, def: TableDef, i: nat)
    requires PairsOf(ps, kv, def) && TableStored(kv, def) && i <= |ps|
    ensures forall pk :: pk in RowsIn(def, ps[..i]) ==> pk in RowsOf(kv, def.name) && RowsIn(def, ps[..i])[pk] == RowsOf(kv, def.name)[pk]
  {
    hide RowKey, RowsOf, UnpackRow, ParseRowKey, TableStored, PairsOf, PairPk, Unpacked, RowsIn;
    if i == 0 {
      EmptyScan(def, ps);
    } else {
      RowsInOk(ps, kv, def, i - 1);
      RowsInNext(def, ps, i - 1);
      PairRow(ps, kv, def, i - 1);
    }
  }

  /** A row is among them exactly if its pair is. */
  lemma {:induction false} RowsInIff(ps: seq<Pair>, kv: Kv, def: TableDef, i: nat, pk: PkKey)
    requires PairsOf(ps, kv, def) && TableStored(kv, def) && i <= |ps|
    ensures pk in RowsIn(def, ps[..i]) <==> AmongFirst(ps, i, def, pk)
  {
    hide RowKey, RowsOf, UnpackRow, ParseRowKey, TableStored, PairsOf, PairPk, Unpacked, RowsIn;
    if i == 0 {
      EmptyScan(def, ps);
    } else {
      RowsInIff(ps, kv, def, i - 1, pk);
      RowsInNext(def, ps, i - 1);
      PairRow(ps, kv, def, i - 1);
      AmongNext(ps, i - 1, def, PairPk(def, ps[i - 1]), pk);
    }
  }

  lemma {:induction false} NextPairNew(ps: seq<Pair>, kv: Kv, def: TableDef, i: nat)
    requires PairsOf(ps, kv, def) && TableStored(kv, def) && i < |ps|
    ensures PairPk(def, ps[i]) !in RowsIn(def, ps[..i])
  {
    hide RowKey, RowsOf, UnpackRow, ParseRowKey, TableStored, PairPk, Unpacked, RowsIn, HasPrefix, RowPrefix;
    RowsInIff(ps, kv, def, i, PairPk(def, ps[i]));
    PairRow(ps, kv, def, i);
  }

  /** A whole scan holds the table's rows. */
  lemma {:induction false} RowsInAll(ps: seq<Pair>, kv: Kv, def: TableDef)
    requires PairsOf(ps, kv, def) && TableStored(kv, def)
    ensures RowsIn(def, ps) == RowsOf(kv, def.name)
  {
    hide RowKey, RowsOf, UnpackRow, ParseRowKey, TableStored, PairPk, Unpacked, RowsIn, PairsOf;
    RowsInOk(ps, kv, def, |ps|);
    assert ps[..|ps|] == ps;
    forall pk | pk in RowsOf(kv, def.name) ensures pk in RowsIn(def, ps) {
      var i := RowHasPair(ps, kv, def, pk);
      RowsInIff(ps, kv, def, |ps|, pk);
    }
  }

  lemma {:induction false} RowsInCount(ps: seq<Pair>, kv: Kv, def: TableDef, i: nat)
    requires PairsOf(ps, kv, def) && TableStored(kv, def) && i <= |ps|
    ensures |RowsIn(def, ps[..i])| == i
  {
    hide TableStored, PairPk, Unpacked, RowsIn, PairsOf;
    if i == 0 {
      EmptyScan(def, ps);
    } else {
      RowsInCount(ps, kv, def, i - 1);
      RowsInNext(def, ps, i - 1);
      NextPairNew(ps, kv, def, i - 1);
      var before := RowsIn(def, ps[..i - 1]);
      assert RowsIn(def, ps[..i]).Keys == before.Keys + {PairPk(def, ps[i - 1])};
    }
  }

  /** A scan has as many pairs as the table has rows. */
  lemma {:induction false} PairsCount(ps: seq<Pair>, kv: Kv, def: TableDef)
    requires PairsOf(ps, kv, def) && TableStored(kv, def)
    ensures |ps| == |RowsOf(kv, def.name)|
  {
    hide TableStored, RowsIn, PairsOf, RowsOf;
    RowsInCount(ps, kv, def, |ps|);
    assert ps[..|ps|] == ps;
    RowsInAll(ps, kv, def);
  }

  /** The primary-key index of the rows found by a scan. */
  method BuildPkIndex(ghost kv: Kv, def: TableDef, ps: seq<Pair>) returns (es: seq<Entry>)
    requires PairsOf(ps, kv, def) && TableStored(kv, def)
    ensures PkIndexed(def.name, RowsOf(kv, def.name), es)
  {
    hide RowKey, RowsOf, UnpackRow, ParseRowKey, TableStored, PairPk, Unpacked, PkIndexed, RowsIn, PairsOf, PutSorted;
    es := [];
    var i := 0;
    NoneIndexed(def.name);
    EmptyScan(def, ps);
    while i < |ps|
      invariant i <= |ps| && PkIndexed(def.name, RowsIn(def, ps[..i]), es)
    {
      PairRow(ps, kv, def, i);
      RowsInNext(def, ps, i);
      var pk := ParseRowKey(def.name, ps[i].key).value;
      PkIndexedPut(def.name, RowsIn(def, ps[..i]), es, pk, Unpacked(ps[i].value));
      es := PutSorted(es, pk, ps[i].key);
      i := i + 1;
    }
    assert ps[..|ps|] == ps;
    RowsInAll(ps, kv, def);
  }

  lemma {:induction false} EmptyScan(def: TableDef, ps: seq<Pair>)
    ensures RowsIn(def, ps[..0]) == map[]
  {
  }

  lemma {:induction false} FitPart(env: Env, def: TableDef, column: Str, path: Str, rows: Rows, part: Rows)
    requires Fit(env, def, column, path, rows) && forall pk :: pk in part ==> pk in rows && part[pk] == rows[pk]
    ensures Fit(env, def, column, path, part)
  {
    hide RowOk, IndexOk, Separable;
  }

  /** The secondary index of the rows found by a scan. */
  method BuildSecIndex(env: Env, ghost kv: Kv, def: TableDef, column: Str, path: Str, ps: seq<Pair>) returns (es: seq<Entry>)
    requires PairsOf(ps, kv, def) && TableStored(kv, def) && Fit(env, def, column, path, RowsOf(kv, def.name))
    ensures SecIndexed(env, def, column, path, RowsOf(kv, def.name), es)
  {
    hide RowKey, RowsOf, UnpackRow, ParseRowKey, TableStored, PairPk, Unpacked, SecIndexed, RowsIn, PairsOf, IndexRow, Fit;
    es := [];
    var i := 0;
    EmptyScan(def, ps);
    NoneSecIndexed(env, def, column, path);
    while i < |ps|
      invariant i <= |ps| && SecIndexed(env, def, column, path, RowsIn(def, ps[..i]), es)
    {
      PairRow(ps, kv, def, i);
      RowsInNext(def, ps, i);
      NextPairNew(ps, kv, def, i);
      RowsInOk(ps, kv, def, i + 1);
      FitPart(env, def, column, path, RowsOf(kv, def.name), RowsIn(def, ps[..i + 1]));
      var vals := UnpackRow(ps[i].value).value;
      var pk := ParseRowKey(def.name, ps[i].key).value;
      SecIndexedPut(env, def, column, path, RowsIn(def, ps[..i]), es, pk, vals);
      es := IndexRow(env, def, column, path, pk, ps[i].key, vals, es);
      i := i + 1;
    }
    assert ps[..|ps|] == ps;
    RowsInAll(ps, kv, def);
  }

  lemma {:induction false} NoneSecIndexed(env: Env, def: TableDef, column: Str, path: Str)
    ensures SecIndexed(env, def, column, path, map[], [])
  {
  }

  method TablePairs(kv: Kv, def: TableDef) returns (ps: seq<Pair>)
    ensures PairsOf(ps, kv, def)
  {
    hide HasPrefix, RowPrefix, SortedPairs, DistinctPairs;
    ps := Pairs(kv, RowPrefix(def.name));
  }

  // ---------------------------------------------------------------- reopening

  /** One table of the rebuild: its scan, and its primary-key index. */
  method RebuildTable(kv: Kv, def: TableDef, ghost env: Env, ghost s: State, ghost n: Str) returns (ps: seq<Pair>, es: seq<Entry>)
    requires Consistent(env, s) && kv == s.kv && n in s.tables && def == s.tables[n]
    ensures def.name == n && PairsOf(ps, kv, def) && n in s.indexes && es == s.indexes[n]
  {
    hide Consistent, RowsOf, RowsOk, TableStored, PkIndexed, PairsOf, SecsOf, TableOk;
    ConsistentTable(env, s, n);
    ps := TablePairs(kv, def);
    es := BuildPkIndex(kv, def, ps);
    PkIndexedUnique(n, RowsOf(kv, n), es, s.indexes[n]);
  }

  /** The tables in `done` are rebuilt, with their scans at hand. */
  ghost predicate Rebuilt(s: State, done: set<Str>, tables: map<Str, TableDef>, indexes: map<Str, seq<Entry>>, rowCache: map<Str, seq<Pair>>)
  {
    && tables.Keys == done && indexes.Keys == done && rowCache.Keys == done
    && forall t :: t in done ==>
         && t in s.tables && tables[t] == s.tables[t]
         && t in s.indexes && indexes[t] == s.indexes[t]
         && PairsOf(rowCache[t], s.kv, tables[t])
  }

  lemma {:induction false} RebuiltAdd(s: State, done: set<Str>, tables: map<Str, TableDef>, indexes: map<Str, seq<Entry>>, rowCache: map<Str, seq<Pair>>, n: Str, ps: seq<Pair>)
    requires Rebuilt(s, done, tables, indexes, rowCache)
    requires n in s.tables && n in s.indexes && PairsOf(ps, s.kv, s.tables[n])
    ensures Rebuilt(s, done + {n}, tables[n := s.tables[n]], indexes[n := s.indexes[n]], rowCache[n := ps])
  {
    hide PairsOf;
  }

  lemma {:induction false} RebuiltAll(s: State, done: set<Str>, tables: map<Str, TableDef>, indexes: map<Str, seq<Entry>>, rowCache: map<Str, seq<Pair>>)
    requires Rebuilt(s, done, tables, indexes, rowCache) && done == s.tables.Keys && s.indexes.Keys == s.tables.Keys
    ensures tables == s.tables && indexes == s.indexes
    ensures rowCache.Keys == tables.Keys && forall t :: t in tables ==> PairsOf(rowCache[t], s.kv, tables[t])
  {
    hide PairsOf;
  }

  lemma {:induction false} NoneRebuilt(s: State)
    ensures Rebuilt(s, {}, map[], map[], map[])
  {
  }

  /** `rebuildSQLState`, first half: definitions and primary-key indexes from the store. */
  method RebuildTables(kv: Kv, catTables: map<Str, TableDef>, ghost env: Env, ghost s: State)
    returns (tables: map<Str, TableDef>, indexes: map<Str, seq<Entry>>, rowCache: map<Str, seq<Pair>>)
    requires Consistent(env, s) && kv == s.kv && catTables == s.catTables
    ensures tables == s.tables && indexes == s.indexes
    ensures rowCache.Keys == tables.Keys && forall t :: t in tables ==> PairsOf(rowCache[t], kv, tables[t])
  {
    hide Consistent, PairsOf, Rebuilt;
    tables, indexes, rowCache := map[], map[], map[];
    var rest := catTables.Keys;
    ghost var done: set<Str> := {};
    ConsistentKeys(env, s);
    NoneRebuilt(s);
    while rest != {}
      invariant rest <= catTables.Keys && done == catTables.Keys - rest
      invariant Rebuilt(s, done, tables, indexes, rowCache)
      decreases |rest|
    {
      var n :| n in rest;
      var def := catTables[n];
      var ps, es := RebuildTable(kv, def, env, s, n);
      RebuiltAdd(s, done, tables, indexes, rowCache, n, ps);
      tables, indexes, rowCache := tables[def.name := def], indexes[def.name := es], rowCache[def.name := ps];
      rest, done := rest - {n}, done + {n};
    }
    RebuiltAll(s, done, tables, indexes, rowCache);
  }

  lemma {:induction false} ConsistentKeys(env: Env, s: State)
    requires Consistent(env, s)
    ensures s.tables == s.catTables && s.indexes.Keys == s.tables.Keys && s.secs.Keys == s.catIndexes.Keys
    ensures forall n :: n in s.secs ==> s.secs[n].def == s.catIndexes[n] && s.secs[n].def.name == n && s.secs[n].def.table in s.tables
  {
    hide RowsOf, PkIndexed, SecOk, StoreOk;
  }

  lemma {:induction false} ConsistentSec(env: Env, s: State, n: Str)
    requires Consistent(env, s) && n in s.secs
    ensures s.secs[n].def.table in s.tables
    ensures var si := s.secs[n];
            var def := s.tables[si.def.table];
            && Fit(env, def, si.def.column, si.def.path, RowsOf(s.kv, def.name))
            && SecIndexed(env, def, si.def.column, si.def.path, RowsOf(s.kv, def.name), si.entries)
  {
    hide RowsOf, PkIndexed, Fit, SecIndexed, StoreOk;
  }

  /** `rebuildSQLState`: what is rebuilt from the catalog and the stored rows is what the
      statements had kept up to date. */
  method RebuildSqlState(env: Env, kv: Kv, catTables: map<Str, TableDef>, catIndexes: map<Str, IndexDef>, ghost s: State)
    returns (tables: map<Str, TableDef>, indexes: map<Str, seq<Entry>>, secs: Secs)
    requires Consistent(env, s) && kv == s.kv && catTables == s.catTables && catIndexes == s.catIndexes
    ensures State(kv, catTables, catIndexes, tables, indexes, secs) == s
  {
    hide Consistent, RowsOf, RowsOk, TableStored, PkIndexed, PairsOf, SecIndexed, Fit, TableOk, SecsOf;
    var rowCache;
    tables, indexes, rowCache := RebuildTables(kv, catTables, env, s);
    secs := map[];
    ConsistentKeys(env, s);
    var rest := catIndexes.Keys;
    while rest != {}
      invariant rest <= catIndexes.Keys
      invariant secs.Keys == catIndexes.Keys - rest
      invariant forall n :: n in secs ==> secs[n] == s.secs[n]
      decreases |rest|
    {
      var n :| n in rest;
      rest := rest - {n};
      var idef := catIndexes[n];
      ConsistentSec(env, s, n);
      var tdef := tables[idef.table];
      ConsistentTable(env, s, idef.table);
      var es := BuildSecIndex(env, kv, tdef, idef.column, idef.path, rowCache[idef.table]);
      SecIndexedUnique(env, tdef, idef.column, idef.path, RowsOf(kv, tdef.name), es, s.secs[n].entries);
      secs := secs[idef.name := SecIdx(idef, es)];
    }
  }
}
