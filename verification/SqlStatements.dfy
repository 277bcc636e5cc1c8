/**
 Whole SQL statements on the state of the SQL layer: what each one makes of the stored
 rows, the catalog and the in-memory indexes, and that they stay consistent.
 */
module SqlStatements {
  import opened Strings
  import opened BTreeModel
  import opened Row
  import opened Keys
  import opened Secondary
  import opened SqlModel
  import opened SqlAnswers
  import opened SqlIndexes
  import opened SqlStore
  import opened SqlCollect

  type Secs = map<Str, SecIdx>

  /** The visible store, the persisted catalog, and the tables and indexes kept in memory. */
  datatype State = State(
    kv: Kv,
    catTables: map<Str, TableDef>,
    catIndexes: map<Str, IndexDef>,
    tables: map<Str, TableDef>,
    indexes: map<Str, seq<Entry>>,
    secs: Secs)

  ghost predicate PkIndexesOk(s: State)
  {
    && s.indexes.Keys == s.tables.Keys
    && forall t :: t in s.tables ==> PkIndexed(t, RowsOf(s.kv, t), s.indexes[t])
  }

  ghost predicate SecIndexesOk(env: Env, s: State)
  {
    && s.secs.Keys == s.catIndexes.Keys
    && forall n :: n in s.secs ==>
         && s.secs[n].def == s.catIndexes[n] && s.secs[n].def.name == n
         && s.secs[n].def.table in s.tables
         && SecOk(env, s.kv, s.tables[s.secs[n].def.table], s.secs[n])
  }

  /** The in-memory tables are those of the catalog, the store holds rows of tables only, and
      every index holds what its table's rows call for. */
  ghost predicate Consistent(env: Env, s: State)
  {
    s.tables == s.catTables && StoreOk(s.kv, s.tables) && PkIndexesOk(s) && SecIndexesOk(env, s)
  }

  lemma {:induction false} ConsistentTable(env: Env, s: State, t: Str)
    requires Consistent(env, s) && t in s.tables
    ensures s.tables[t].name == t && TableOk(s.tables[t]) && TableStored(s.kv, s.tables[t])
    ensures RowsOk(s.tables[t], RowsOf(s.kv, t))
    ensures t in s.indexes && PkIndexed(t, RowsOf(s.kv, t), s.indexes[t])
    ensures SecsOf(env, s.kv, s.tables[t], s.secs)
  {
    hide RowsOf, RowsOk, TableStored, PkIndexed, SecOk, TableOk;
    StoredRowsOk(s.kv, s.tables[t]);
  }

  // --------------------------------------------------------- building rows

  datatype Assign = Assign(column: Str, value: Expr)

  function NullRow(def: TableDef): (r: seq<Value>)
    ensures |r| == |def.columns|
  {
    seq(|def.columns|, i requires 0 <= i < |def.columns| => NullOf(def.columns[i].typ))
  }

  /** The row after the first `j` assignments. */
  ghost function SetRow(env: Env, def: TableDef, base: seq<Value>, sets: seq<Assign>, j: nat): (r: Option<seq<Value>>)
    requires |base| == |def.columns| && j <= |sets|
    ensures r.Some? ==> |r.value| == |def.columns|
  {
    if j == 0 then Some(base) else
      match SetRow(env, def, base, sets, j - 1)
      case None => None
      case Some(vals) =>
        match ColumnIndex(def, sets[j - 1].column)
        case None => None
        case Some(ci) =>
          match ExprToValue(env, sets[j - 1].value, def.columns[ci].typ)
          case None => None
          case Some(v) => Some(vals[ci := v])
  }

  lemma {:induction false} SetRowNone(env: Env, def: TableDef, base: seq<Value>, sets: seq<Assign>)
    requires |base| == |def.columns|
    ensures SetRow(env, def, base, sets, 0) == Some(base)
  {
  }

  lemma {:induction false} SetRowNext(env: Env, def: TableDef, base: seq<Value>, sets: seq<Assign>, j: nat)
    requires |base| == |def.columns| && j < |sets|
    ensures SetRow(env, def, base, sets, j + 1) ==
              match SetRow(env, def, base, sets, j)
              case None => None
              case Some(vals) =>
                match ColumnIndex(def, sets[j].column)
                case None => None
                case Some(ci) =>
                  match ExprToValue(env, sets[j].value, def.columns[ci].typ)
                  case None => None
                  case Some(v) => Some(vals[ci := v])
  {
  }

  ghost predicate CleanRow(def: TableDef, vals: seq<Value>)
  {
    && |vals| == |def.columns|
    && forall i :: 0 <= i < |vals| ==> Clean(vals[i], def.columns[i].typ) && JsonOk(vals[i])
  }

  lemma {:induction false} SetRowClean(env: Env, def: TableDef, base: seq<Value>, sets: seq<Assign>, j: nat)
    requires CleanRow(def, base) && j <= |sets|
    ensures match SetRow(env, def, base, sets, j) case None => true case Some(vals) => CleanRow(def, vals)
  {
    hide ExprToValue, Clean, JsonOk;
    if j > 0 && SetRow(env, def, base, sets, j).Some? {
      SetRowClean(env, def, base, sets, j - 1);
      var ci := ColumnIndex(def, sets[j - 1].column).value;
      ExprMakesClean(env, sets[j - 1].value, def.columns[ci].typ);
    }
  }

  /** A cell holds the last value assigned to its column, or what it held before. */
  lemma {:induction false} SetRowAt(env: Env, def: TableDef, base: seq<Value>, sets: seq<Assign>, j: nat, ci: nat)
    requires |base| == |def.columns| && j <= |sets| && ci < |def.columns| && SetRow(env, def, base, sets, j).Some?
    ensures (forall i :: 0 <= i < j ==> ColumnIndex(def, sets[i].column) != Some(ci)) ==>
              SetRow(env, def, base, sets, j).value[ci] == base[ci]
    ensures forall i :: 0 <= i < j && ColumnIndex(def, sets[i].column) == Some(ci) &&
                        (forall k :: i < k < j ==> ColumnIndex(def, sets[k].column) != Some(ci)) ==>
              Some(SetRow(env, def, base, sets, j).value[ci]) == ExprToValue(env, sets[i].value, def.columns[ci].typ)
  {
    hide ExprToValue, ColumnIndex, SetRow;
    if j == 0 {
      SetRowNone(env, def, base, sets);
    } else {
      SetRowNext(env, def, base, sets, j - 1);
      SetRowAt(env, def, base, sets, j - 1, ci);
    }
  }

  lemma {:induction false} SetRowStops(env: Env, def: TableDef, base: seq<Value>, sets: seq<Assign>, j: nat, n: nat)
    requires |base| == |def.columns| && j <= n <= |sets|
    requires SetRow(env, def, base, sets, j).None? || (j < n && ColumnIndex(def, sets[j].column).None?)
    ensures SetRow(env, def, base, sets, n).None?
  {
    hide ExprToValue, ColumnIndex;
    if n > j && (SetRow(env, def, base, sets, j).None? || n > j + 1) {
      SetRowStops(env, def, base, sets, j, n - 1);
    }
  }

  lemma {:induction false} NamedColumn(def: TableDef, i: nat)
    requires TableOk(def) && i < |def.columns|
    ensures ColumnIndex(def, def.columns[i].name) == Some(i)
  {
    var c := ColumnIndex(def, def.columns[i].name);
    assert c.Some? && def.columns[c.value].name == def.columns[i].name;
  }

  lemma {:induction false} StoredClean(def: TableDef, pk: PkKey, vals: seq<Value>)
    requires RowOk(def, pk, vals)
    ensures CleanRow(def, vals)
  {
    hide PkOf, Stored;
    forall i | 0 <= i < |vals| ensures Clean(vals[i], def.columns[i].typ) && JsonOk(vals[i]) {
      assert CellOk(def.columns[i].typ, vals[i]);
    }
  }

  lemma {:induction false} NullRowClean(def: TableDef)
    ensures CleanRow(def, NullRow(def))
  {
  }

  /** Assignments to other columns leave the key alone. */
  lemma {:induction false} SetRowKeepsKey(env: Env, def: TableDef, p: nat, base: seq<Value>, sets: seq<Assign>)
    requires |base| == |def.columns| && PkIndex(def) == Some(p) && SetRow(env, def, base, sets, |sets|).Some?
    requires forall i :: 0 <= i < |sets| ==> sets[i].column != def.columns[p].name
    ensures PkOf(def, SetRow(env, def, base, sets, |sets|).value) == PkOf(def, base)
  {
    hide ExprToValue, SetRow, ColumnIndex;
    SetRowAt(env, def, base, sets, |sets|, p);
    forall i | 0 <= i < |sets| ensures ColumnIndex(def, sets[i].column) != Some(p) {
      var c := ColumnIndex(def, sets[i].column);
      assert c.Some? ==> def.columns[c.value].name == sets[i].column;
    }
  }

  // ----------------------------------------------------------------- INSERT

  function InsertColumns(def: TableDef, columns: seq<Str>): seq<Str>
  {
    if columns == [] then seq(|def.columns|, i requires 0 <= i < |def.columns| => def.columns[i].name) else columns
  }

  function InsertSets(def: TableDef, columns: seq<Str>, values: seq<Expr>): seq<Assign>
  {
    var cs := InsertColumns(def, columns);
    seq(if |cs| <= |values| then |cs| else |values|, i requires 0 <= i < |cs| && i < |values| => Assign(cs[i], values[i]))
  }

  /** The row an INSERT describes. */
  ghost function InsertedRow(env: Env, def: TableDef, columns: seq<Str>, values: seq<Expr>): (r: Option<seq<Value>>)
    ensures r.Some? ==> |r.value| == |def.columns|
  {
    if |InsertColumns(def, columns)| != |values| then None
    else SetRow(env, def, NullRow(def), InsertSets(def, columns, values), |values|)
  }

  /** When an INSERT succeeds: the row can be built, has a key, fits a page, and is new. */
  ghost predicate CanInsert(env: Env, s: State, t: Str, columns: seq<Str>, values: seq<Expr>)
  {
    && t in s.tables
    && match InsertedRow(env, s.tables[t], columns, values)
       case None => false
       case Some(vals) =>
         && PkOf(s.tables[t], vals).Some?
         && PackRow(vals).Some?
         && RowKey(t, PkOf(s.tables[t], vals).value) !in s.kv
  }

  /** Every index on the table takes a separator-free value from the row. */
  ghost predicate SeparableIn(env: Env, secs: Secs, def: TableDef, vals: seq<Value>)
  {
    forall n :: n in secs && secs[n].def.table == def.name ==> Separable(env, def, secs[n].def.column, secs[n].def.path, vals)
  }

  ghost function InsertSecs(env: Env, secs: Secs, def: TableDef, pk: PkKey, vals: seq<Value>): Secs
  {
    map n | n in secs :: InsertSec(env, secs[n], def, pk, vals)
  }

  function InsertSec(env: Env, si: SecIdx, def: TableDef, pk: PkKey, vals: seq<Value>): SecIdx
  {
    if si.def.table != def.name then si
    else si.(entries := IndexRow(env, def, si.def.column, si.def.path, pk, RowKey(def.name, pk), vals, si.entries))
  }

  /** The state after a row is inserted. */
  ghost function WithInsert(env: Env, s: State, t: Str, pk: PkKey, vals: seq<Value>): State
    requires t in s.tables && t in s.indexes && PackRow(vals).Some?
  {
    s.(kv := s.kv[RowKey(t, pk) := PackRow(vals).value],
       indexes := s.indexes[t := PutSorted(s.indexes[t], pk, RowKey(t, pk))],
       secs := InsertSecs(env, s.secs, s.tables[t], pk, vals))
  }

  /** Inserting a row keeps every index in step with the rows. */
  lemma {:induction false} InsertConsistent(env: Env, s: State, t: Str, pk: PkKey, vals: seq<Value>)
    requires Consistent(env, s) && t in s.tables && t in s.indexes && CleanRow(s.tables[t], vals) && PackRow(vals).Some?
    requires PkOf(s.tables[t], vals) == Some(pk) && RowKey(t, pk) !in s.kv && SeparableIn(env, s.secs, s.tables[t], vals)
    ensures Consistent(env, WithInsert(env, s, t, pk, vals))
    ensures RowsOf(WithInsert(env, s, t, pk, vals).kv, t) == RowsOf(s.kv, t)[pk := StoredRow(vals)]
    ensures forall u :: u in s.tables && u != t ==> RowsOf(WithInsert(env, s, t, pk, vals).kv, u) == RowsOf(s.kv, u)
  {
    hide RowsOf, RowsOk, RowOk, TableStored, PkIndexed, TableOk, PutSorted, PackRow, UnpackRow, PkOf, Clean, JsonOk, RowKey, InsertSecs, SeparableIn, StoredRow, TableName, SecIndexesOk, SecsOf, NoRows;
    var def := s.tables[t];
    var s' := WithInsert(env, s, t, pk, vals);
    ConsistentTable(env, s, t);
    PackedRowOk(def, vals);
    RowsPut(s.kv, t, pk, PackRow(vals).value);
    StorePut(s.kv, s.tables, t, pk, PackRow(vals).value);
    PkIndexedPut(t, RowsOf(s.kv, t), s.indexes[t], pk, StoredRow(vals));
    RowsOfKeys(s.kv, t);
    forall u | u in s.tables && u != t ensures RowsOf(s'.kv, u) == RowsOf(s.kv, u) {
      ConsistentTable(env, s, u);
      TableNameOk(s.tables[t]);
      TableNameOk(s.tables[u]);
      RowsPutOther(s.kv, t, pk, PackRow(vals).value, u);
    }
    InsertSecsOk(env, s, t, pk, vals);
  }

  lemma {:induction false} InsertSecsOk(env: Env, s: State, t: Str, pk: PkKey, vals: seq<Value>)
    requires SecIndexesOk(env, s) && t in s.tables && t in s.indexes && PackRow(vals).Some? && CleanRow(s.tables[t], vals)
    requires forall u :: u in s.tables ==> s.tables[u].name == u
    requires pk !in RowsOf(s.kv, t) && RowOk(s.tables[t], pk, StoredRow(vals)) && SeparableIn(env, s.secs, s.tables[t], vals)
    requires RowsOf(s.kv[RowKey(t, pk) := PackRow(vals).value], t) == RowsOf(s.kv, t)[pk := StoredRow(vals)]
    requires forall u :: u in s.tables && u != t ==> RowsOf(s.kv[RowKey(t, pk) := PackRow(vals).value], u) == RowsOf(s.kv, u)
    ensures SecIndexesOk(env, WithInsert(env, s, t, pk, vals))
  {
    hide RowsOf, RowOk, SecIndexed, Fit, PutSorted, PackRow, CleanRow, RowKey, IndexRow, Separable, StoredRow;
    var def := s.tables[t];
    var s' := WithInsert(env, s, t, pk, vals);
    forall n | n in s'.secs ensures SecOk(env, s'.kv, s'.tables[s'.secs[n].def.table], s'.secs[n]) {
      if s.secs[n].def.table == t {
        InsertSecOk(env, s.kv, s'.kv, def, s.secs[n], pk, vals);
      } else {
        SecOkSame(env, s.kv, s'.kv, s.tables[s.secs[n].def.table], s.secs[n]);
      }
    }
  }

  lemma {:induction false} TableNameOk(def: TableDef)
    requires TableOk(def)
    ensures TableName(def.name)
  {
  }

  lemma {:induction false} SecOkSame(env: Env, kv: Kv, kv': Kv, def: TableDef, si: SecIdx)
    requires SecOk(env, kv, def, si) && RowsOf(kv', def.name) == RowsOf(kv, def.name)
    ensures SecOk(env, kv', def, si)
  {
  }

  lemma {:induction false} FitPut(env: Env, def: TableDef, column: Str, path: Str, rows: Rows, pk: PkKey, vals: seq<Value>)
    requires Fit(env, def, column, path, rows) && RowOk(def, pk, vals) && Separable(env, def, column, path, vals)
    ensures Fit(env, def, column, path, rows[pk := vals])
  {
    hide RowOk, IndexOk, Separable;
  }

  lemma {:induction false} FitLess(env: Env, def: TableDef, column: Str, path: Str, rows: Rows, pks: set<PkKey>)
    requires Fit(env, def, column, path, rows)
    ensures Fit(env, def, column, path, rows - pks)
  {
    hide RowOk, IndexOk, Separable;
  }

  lemma {:induction false} StoredSeparable(env: Env, def: TableDef, column: Str, path: Str, vals: seq<Value>)
    requires CleanRow(def, vals) && Separable(env, def, column, path, vals)
    ensures Separable(env, def, column, path, StoredRow(vals))
    ensures IndexValue(env, def, column, path, StoredRow(vals)) == IndexValue(env, def, column, path, vals)
  {
    hide IndexValue, Clean;
    StoredKeepsMeaning(env, def, column, path, vals);
  }

  lemma {:induction false} InsertSecOk(env: Env, kv: Kv, kv': Kv, def: TableDef, si: SecIdx, pk: PkKey, vals: seq<Value>)
    requires SecOk(env, kv, def, si) && si.def.table == def.name && CleanRow(def, vals)
    requires pk !in RowsOf(kv, def.name) && RowsOf(kv', def.name) == RowsOf(kv, def.name)[pk := StoredRow(vals)]
    requires RowOk(def, pk, StoredRow(vals)) && Separable(env, def, si.def.column, si.def.path, vals)
    ensures SecOk(env, kv', def, InsertSec(env, si, def, pk, vals))
  {
    hide RowsOf, RowOk, SecIndexed, Fit, CleanRow, IndexValue, Separable, PutSorted, RowKey, CompositeKey;
    var column, path, rows := si.def.column, si.def.path, RowsOf(kv, def.name);
    StoredSeparable(env, def, column, path, vals);
    FitPut(env, def, column, path, rows, pk, StoredRow(vals));
    SecIndexedPut(env, def, column, path, rows, si.entries, pk, StoredRow(vals));
  }

  // ----------------------------------------------------------------- UPDATE

  datatype UpdateItem = UpdateItem(pk: PkKey, oldRow: seq<Value>, newRow: seq<Value>)

  /** The store after the items' pages are written. */
  ghost function UpdateKv(kv: Kv, t: Str, items: seq<UpdateItem>): Kv
  {
    if items == [] then kv else
      var last := items[|items| - 1];
      var kv' := UpdateKv(kv, t, items[..|items| - 1]);
      match PackRow(last.newRow) case None => kv' case Some(page) => kv'[RowKey(t, last.pk) := page]
  }

  ghost function UpdatedRows(rows: Rows, items: seq<UpdateItem>): Rows
  {
    if items == [] then rows else
      var last := items[|items| - 1];
      UpdatedRows(rows, items[..|items| - 1])[last.pk := StoredRow(last.newRow)]
  }

  /** The entries after removing every item's old row and inserting its new one. */
  ghost function UpdateEntries(env: Env, def: TableDef, column: Str, path: Str, es: seq<Entry>, items: seq<UpdateItem>): seq<Entry>
  {
    if items == [] then es else
      var last := items[|items| - 1];
      UpdateEntry(env, def, column, path, UpdateEntries(env, def, column, path, es, items[..|items| - 1]), last)
  }

  function UpdateEntry(env: Env, def: TableDef, column: Str, path: Str, es: seq<Entry>, u: UpdateItem): seq<Entry>
  {
    IndexRow(env, def, column, path, u.pk, RowKey(def.name, u.pk), u.newRow,
             UnindexRow(env, def, column, path, u.pk, u.oldRow, es))
  }

  ghost function UpdateSecs(env: Env, secs: Secs, def: TableDef, items: seq<UpdateItem>): Secs
  {
    map n | n in secs :: UpdateSec(env, secs[n], def, items)
  }

  ghost function UpdateSec(env: Env, si: SecIdx, def: TableDef, items: seq<UpdateItem>): SecIdx
  {
    if si.def.table != def.name then si
    else si.(entries := UpdateEntries(env, def, si.def.column, si.def.path, si.entries, items))
  }

  ghost function WithUpdate(env: Env, s: State, t: Str, items: seq<UpdateItem>): State
    requires t in s.tables
  {
    s.(kv := UpdateKv(s.kv, t, items), secs := UpdateSecs(env, s.secs, s.tables[t], items))
  }

  /** An item rewrites a row of the table into another row with the same key. */
  ghost predicate ItemOk(def: TableDef, rows: Rows, u: UpdateItem)
  {
    && u.pk in rows && rows[u.pk] == u.oldRow
    && CleanRow(def, u.newRow) && PkOf(def, u.newRow) == Some(u.pk) && PackRow(u.newRow).Some?
  }

  ghost predicate ItemsOk(def: TableDef, rows: Rows, items: seq<UpdateItem>)
  {
    && (forall i :: 0 <= i < |items| ==> ItemOk(def, rows, items[i]))
    && (forall i, j :: 0 <= i < j < |items| ==> items[i].pk != items[j].pk)
  }

  lemma {:induction false} ItemsInit(def: TableDef, rows: Rows, items: seq<UpdateItem>)
    requires ItemsOk(def, rows, items) && items != []
    ensures ItemsOk(def, rows, items[..|items| - 1])
    ensures ItemOk(def, rows, items[|items| - 1])
    ensures forall i :: 0 <= i < |items| - 1 ==> items[i].pk != items[|items| - 1].pk
  {
    hide ItemOk;
  }

  /** The rows after an UPDATE: the new row for every item, the old row for every other key. */
  lemma {:induction false} UpdatedAt(def: TableDef, rows: Rows, items: seq<UpdateItem>)
    requires ItemsOk(def, rows, items)
    ensures UpdatedRows(rows, items).Keys == rows.Keys
    ensures forall i :: 0 <= i < |items| ==> UpdatedRows(rows, items)[items[i].pk] == StoredRow(items[i].newRow)
    ensures forall pk :: pk in rows && (forall i :: 0 <= i < |items| ==> items[i].pk != pk) ==> UpdatedRows(rows, items)[pk] == rows[pk]
  {
    hide StoredRow, CleanRow, PkOf, PackRow;
    if items != [] {
      ItemsInit(def, rows, items);
      var init, last := items[..|items| - 1], items[|items| - 1];
      UpdatedAt(def, rows, init);
      forall i | 0 <= i < |items| ensures UpdatedRows(rows, items)[items[i].pk] == StoredRow(items[i].newRow) {
        if i < |items| - 1 { assert items[i] == init[i]; }
      }
      forall pk | pk in rows && (forall i :: 0 <= i < |items| ==> items[i].pk != pk) ensures UpdatedRows(rows, items)[pk] == rows[pk] {
        assert items[|items| - 1].pk != pk;
        assert forall i :: 0 <= i < |init| ==> init[i] == items[i];
      }
    }
  }

  lemma {:induction false} UpdateKvRows(kv: Kv, tables: map<Str, TableDef>, t: Str, items: seq<UpdateItem>)
    requires StoreOk(kv, tables) && t in tables && ItemsOk(tables[t], RowsOf(kv, t), items)
    ensures StoreOk(UpdateKv(kv, t, items), tables)
    ensures RowsOf(UpdateKv(kv, t, items), t) == UpdatedRows(RowsOf(kv, t), items)
    ensures forall u :: u in tables && u != t ==> RowsOf(UpdateKv(kv, t, items), u) == RowsOf(kv, u)
  {
    hide RowsOf, RowOk, TableStored, TableOk, PackRow, UnpackRow, PkOf, Clean, JsonOk, RowKey, StoredRow, TableName, NoRows;
    if items != [] {
      ItemsInit(tables[t], RowsOf(kv, t), items);
      var init, last := items[..|items| - 1], items[|items| - 1];
      UpdateKvRows(kv, tables, t, init);
      var kv', page := UpdateKv(kv, t, init), PackRow(last.newRow).value;
      PackedRowOk(tables[t], last.newRow);
      RowsPut(kv', t, last.pk, page);
      StorePut(kv', tables, t, last.pk, page);
      forall u | u in tables && u != t ensures RowsOf(kv'[RowKey(t, last.pk) := page], u) == RowsOf(kv, u) {
        TableNameOk(tables[t]);
        TableNameOk(tables[u]);
        RowsPutOther(kv', t, last.pk, page, u);
      }
    }
  }

  lemma {:induction false} UpdateEntryOk(env: Env, def: TableDef, column: Str, path: Str, rows: Rows, es: seq<Entry>, u: UpdateItem)
    requires SecIndexed(env, def, column, path, rows, es) && Fit(env, def, column, path, rows)
    requires ItemOk(def, rows, u) && Separable(env, def, column, path, u.newRow)
    ensures SecIndexed(env, def, column, path, rows[u.pk := StoredRow(u.newRow)], UpdateEntry(env, def, column, path, es, u))
    ensures Fit(env, def, column, path, rows[u.pk := StoredRow(u.newRow)])
  {
    hide RowOk, SecIndexed, Fit, Clean, JsonOk, IndexValue, Separable, PutSorted, DropKey, RowKey, CompositeKey, PkOf, PackRow, UnpackRow, StoredRow;
    var without := rows - {u.pk};
    SecIndexedDrop(env, def, column, path, rows, es, u.pk);
    FitLess(env, def, column, path, rows, {u.pk});
    PackedRowOk(def, u.newRow);
    StoredSeparable(env, def, column, path, u.newRow);
    FitPut(env, def, column, path, rows, u.pk, StoredRow(u.newRow));
    assert without[u.pk := StoredRow(u.newRow)] == rows[u.pk := StoredRow(u.newRow)];
    SecIndexedPut(env, def, column, path, without, UnindexRow(env, def, column, path, u.pk, u.oldRow, es), u.pk, StoredRow(u.newRow));
  }

  lemma {:induction false} UpdateEntriesOk(env: Env, def: TableDef, column: Str, path: Str, rows: Rows, es: seq<Entry>, items: seq<UpdateItem>)
    requires SecIndexed(env, def, column, path, rows, es) && Fit(env, def, column, path, rows)
    requires ItemsOk(def, rows, items) && forall i :: 0 <= i < |items| ==> Separable(env, def, column, path, items[i].newRow)
    ensures SecIndexed(env, def, column, path, UpdatedRows(rows, items), UpdateEntries(env, def, column, path, es, items))
    ensures Fit(env, def, column, path, UpdatedRows(rows, items))
  {
    hide SecIndexed, Fit, Separable, UpdateEntry, StoredRow, CleanRow, PkOf, PackRow;
    if items != [] {
      ItemsInit(def, rows, items);
      var init, last := items[..|items| - 1], items[|items| - 1];
      UpdateEntriesOk(env, def, column, path, rows, es, init);
      UpdatedAt(def, rows, init);
      assert forall i :: 0 <= i < |init| ==> init[i] == items[i];
      UpdateEntryOk(env, def, column, path, UpdatedRows(rows, init), UpdateEntries(env, def, column, path, es, init), last);
    }
  }

  /** Updating rows keeps every index in step with the rows. */
  lemma {:induction false} UpdateConsistent(env: Env, s: State, t: Str, items: seq<UpdateItem>)
    requires Consistent(env, s) && t in s.tables && ItemsOk(s.tables[t], RowsOf(s.kv, t), items)
    requires forall i :: 0 <= i < |items| ==> SeparableIn(env, s.secs, s.tables[t], items[i].newRow)
    ensures Consistent(env, WithUpdate(env, s, t, items))
    ensures RowsOf(WithUpdate(env, s, t, items).kv, t) == UpdatedRows(RowsOf(s.kv, t), items)
    ensures forall u :: u in s.tables && u != t ==> RowsOf(WithUpdate(env, s, t, items).kv, u) == RowsOf(s.kv, u)
  {
    hide RowsOf, RowsOk, TableStored, PkIndexed, TableOk, ItemsOk, UpdatedRows, UpdateKv, UpdateSecs, SeparableIn, NoRows, TableName, SecIndexesOk, SecsOf;
    ConsistentTable(env, s, t);
    UpdateKvRows(s.kv, s.tables, t, items);
    UpdatedAt(s.tables[t], RowsOf(s.kv, t), items);
    PkIndexedKeys(t, RowsOf(s.kv, t), UpdatedRows(RowsOf(s.kv, t), items), s.indexes[t]);
    UpdateSecsOk(env, s, t, items);
  }

  lemma {:induction false} UpdateSecsOk(env: Env, s: State, t: Str, items: seq<UpdateItem>)
    requires SecIndexesOk(env, s) && t in s.tables && ItemsOk(s.tables[t], RowsOf(s.kv, t), items)
    requires forall u :: u in s.tables ==> s.tables[u].name == u
    requires RowsOf(UpdateKv(s.kv, t, items), t) == UpdatedRows(RowsOf(s.kv, t), items)
    requires forall u :: u in s.tables && u != t ==> RowsOf(UpdateKv(s.kv, t, items), u) == RowsOf(s.kv, u)
    requires forall i :: 0 <= i < |items| ==> SeparableIn(env, s.secs, s.tables[t], items[i].newRow)
    ensures SecIndexesOk(env, WithUpdate(env, s, t, items))
  {
    hide RowsOf, SecIndexed, Fit, ItemsOk, UpdatedRows, UpdateKv, UpdateEntries, Separable;
    var def := s.tables[t];
    var s' := WithUpdate(env, s, t, items);
    forall n | n in s'.secs ensures SecOk(env, s'.kv, s'.tables[s'.secs[n].def.table], s'.secs[n]) {
      var si := s.secs[n];
      if si.def.table == t {
        assert SecOk(env, s.kv, def, si);
        UpdateEntriesOk(env, def, si.def.column, si.def.path, RowsOf(s.kv, t), si.entries, items);
      } else {
        SecOkSame(env, s.kv, s'.kv, s.tables[si.def.table], si);
      }
    }
  }

  lemma {:induction false} PkIndexedKeys(name: Str, rows: Rows, rows': Rows, es: seq<Entry>)
    requires PkIndexed(name, rows, es) && rows.Keys == rows'.Keys
    ensures PkIndexed(name, rows', es)
  {
    hide RowKey, ToMap, SortedEntries;
    assert PkMap(name, rows) == PkMap(name, rows');
  }

  // ----------------------------------------------------------------- DELETE

  ghost function DeleteKv(kv: Kv, t: Str, items: seq<RowItem>): Kv
  {
    if items == [] then kv else DeleteKv(kv, t, items[..|items| - 1]) - {items[|items| - 1].rowKey}
  }

  ghost function DeletedRows(rows: Rows, items: seq<RowItem>): Rows
  {
    if items == [] then rows else DeletedRows(rows, items[..|items| - 1]) - {items[|items| - 1].pk}
  }

  ghost function DeleteKeys(es: seq<Entry>, items: seq<RowItem>): seq<Entry>
  {
    if items == [] then es else DropKey(DeleteKeys(es, items[..|items| - 1]), items[|items| - 1].pk)
  }

  ghost function DeleteEntries(env: Env, def: TableDef, column: Str, path: Str, es: seq<Entry>, items: seq<RowItem>): seq<Entry>
  {
    if items == [] then es else
      var last := items[|items| - 1];
      UnindexRow(env, def, column, path, last.pk, last.values, DeleteEntries(env, def, column, path, es, items[..|items| - 1]))
  }

  ghost function DeleteSecs(env: Env, secs: Secs, def: TableDef, items: seq<RowItem>): Secs
  {
    map n | n in secs :: DeleteSec(env, secs[n], def, items)
  }

  ghost function DeleteSec(env: Env, si: SecIdx, def: TableDef, items: seq<RowItem>): SecIdx
  {
    if si.def.table != def.name then si
    else si.(entries := DeleteEntries(env, def, si.def.column, si.def.path, si.entries, items))
  }

  ghost function WithDelete(env: Env, s: State, t: Str, items: seq<RowItem>): State
    requires t in s.tables && t in s.indexes
  {
    s.(kv := DeleteKv(s.kv, t, items),
       indexes := s.indexes[t := DeleteKeys(s.indexes[t], items)],
       secs := DeleteSecs(env, s.secs, s.tables[t], items))
  }

  ghost predicate RowItemsOk(name: Str, rows: Rows, items: seq<RowItem>)
  {
    (forall i :: 0 <= i < |items| ==> ItemOf(items[i], name, rows)) && DistinctItems(items)
  }

  lemma {:induction false} RowItemsInit(name: Str, rows: Rows, items: seq<RowItem>)
    requires RowItemsOk(name, rows, items) && items != []
    ensures RowItemsOk(name, rows, items[..|items| - 1])
    ensures ItemOf(items[|items| - 1], name, rows)
    ensures forall i :: 0 <= i < |items| - 1 ==> items[i].pk != items[|items| - 1].pk
  {
    hide ItemOf;
  }

  /** The rows after a DELETE: those no item names. */
  lemma {:induction false} DeletedAt(rows: Rows, items: seq<RowItem>)
    ensures forall pk :: pk in DeletedRows(rows, items) <==> pk in rows && !Listed(items, pk)
    ensures forall pk :: pk in DeletedRows(rows, items) ==> DeletedRows(rows, items)[pk] == rows[pk]
  {
    if items != [] {
      var init, last := items[..|items| - 1], items[|items| - 1];
      DeletedAt(rows, init);
      assert items == init + [last];
      forall pk ensures Listed(items, pk) <==> Listed(init, pk) || pk == last.pk {
        ListedMore(init, last);
        if Listed(items, pk) && pk != last.pk {
          var i :| 0 <= i < |items| && items[i].pk == pk;
          assert init[i].pk == pk;
        }
      }
    }
  }

  lemma {:induction false} DeleteKvRows(kv: Kv, tables: map<Str, TableDef>, t: Str, items: seq<RowItem>)
    requires StoreOk(kv, tables) && t in tables && RowItemsOk(t, RowsOf(kv, t), items)
    ensures StoreOk(DeleteKv(kv, t, items), tables)
    ensures RowsOf(DeleteKv(kv, t, items), t) == DeletedRows(RowsOf(kv, t), items)
    ensures forall u :: u in tables && u != t ==> RowsOf(DeleteKv(kv, t, items), u) == RowsOf(kv, u)
  {
    hide RowsOf, TableStored, TableOk, RowKey, TableName, NoRows;
    if items != [] {
      RowItemsInit(t, RowsOf(kv, t), items);
      var init, last := items[..|items| - 1], items[|items| - 1];
      DeleteKvRows(kv, tables, t, init);
      var kv' := DeleteKv(kv, t, init);
      RowsDel(kv', t, last.pk);
      StoreLess(kv', kv' - {last.rowKey}, tables);
      forall u | u in tables && u != t ensures RowsOf(kv' - {last.rowKey}, u) == RowsOf(kv, u) {
        TableNameOk(tables[t]);
        TableNameOk(tables[u]);
        RowsDelOther(kv', t, last.pk, u);
      }
    }
  }

  lemma {:induction false} DeleteKeysOk(name: Str, rows: Rows, es: seq<Entry>, items: seq<RowItem>)
    requires PkIndexed(name, rows, es)
    ensures PkIndexed(name, DeletedRows(rows, items), DeleteKeys(es, items))
  {
    hide PkIndexed;
    if items != [] {
      var init, last := items[..|items| - 1], items[|items| - 1];
      DeleteKeysOk(name, rows, es, init);
      PkIndexedDrop(name, DeletedRows(rows, init), DeleteKeys(es, init), last.pk);
    }
  }

  lemma {:induction false} DeleteEntriesOk(env: Env, def: TableDef, column: Str, path: Str, rows: Rows, es: seq<Entry>, items: seq<RowItem>)
    requires SecIndexed(env, def, column, path, rows, es) && Fit(env, def, column, path, rows) && RowItemsOk(def.name, rows, items)
    ensures SecIndexed(env, def, column, path, DeletedRows(rows, items), DeleteEntries(env, def, column, path, es, items))
    ensures Fit(env, def, column, path, DeletedRows(rows, items))
  {
    hide SecIndexed, Fit, UnindexRow, Listed, RowKey;
    if items != [] {
      RowItemsInit(def.name, rows, items);
      var init, last := items[..|items| - 1], items[|items| - 1];
      DeleteEntriesOk(env, def, column, path, rows, es, init);
      DeletedAt(rows, init);
      NotListed(init, last, items);
      SecIndexedDrop(env, def, column, path, DeletedRows(rows, init), DeleteEntries(env, def, column, path, es, init), last.pk);
      FitLess(env, def, column, path, DeletedRows(rows, init), {last.pk});
    }
  }

  lemma {:induction false} NotListed(init: seq<RowItem>, last: RowItem, items: seq<RowItem>)
    requires items == init + [last] && DistinctItems(items)
    ensures !Listed(init, last.pk)
  {
    forall i | 0 <= i < |init| ensures init[i].pk != last.pk {
      assert items[i].pk != items[|init|].pk;
    }
  }

  /** Deleting rows keeps every index in step with the rows. */
  lemma {:induction false} DeleteConsistent(env: Env, s: State, t: Str, items: seq<RowItem>)
    requires Consistent(env, s) && t in s.tables && t in s.indexes && RowItemsOk(t, RowsOf(s.kv, t), items)
    ensures Consistent(env, WithDelete(env, s, t, items))
    ensures RowsOf(WithDelete(env, s, t, items).kv, t) == DeletedRows(RowsOf(s.kv, t), items)
    ensures forall u :: u in s.tables && u != t ==> RowsOf(WithDelete(env, s, t, items).kv, u) == RowsOf(s.kv, u)
  {
    hide RowsOf, RowsOk, TableStored, PkIndexed, TableOk, RowItemsOk, DeletedRows, DeleteKv, DeleteSecs, DeleteKeys, NoRows, TableName, SecIndexesOk, SecsOf;
    ConsistentTable(env, s, t);
    DeleteKvRows(s.kv, s.tables, t, items);
    DeleteKeysOk(t, RowsOf(s.kv, t), s.indexes[t], items);
    DeleteSecsOk(env, s, t, items);
  }

  lemma {:induction false} DeleteSecsOk(env: Env, s: State, t: Str, items: seq<RowItem>)
    requires SecIndexesOk(env, s) && t in s.tables && t in s.indexes && RowItemsOk(t, RowsOf(s.kv, t), items)
    requires forall u :: u in s.tables ==> s.tables[u].name == u
    requires RowsOf(DeleteKv(s.kv, t, items), t) == DeletedRows(RowsOf(s.kv, t), items)
    requires forall u :: u in s.tables && u != t ==> RowsOf(DeleteKv(s.kv, t, items), u) == RowsOf(s.kv, u)
    ensures SecIndexesOk(env, WithDelete(env, s, t, items))
  {
    hide RowsOf, SecIndexed, Fit, RowItemsOk, DeletedRows, DeleteKv, DeleteEntries, DeleteKeys;
    var def := s.tables[t];
    var s' := WithDelete(env, s, t, items);
    forall n | n in s'.secs ensures SecOk(env, s'.kv, s'.tables[s'.secs[n].def.table], s'.secs[n]) {
      var si := s.secs[n];
      if si.def.table == t {
        assert SecOk(env, s.kv, def, si);
        DeleteEntriesOk(env, def, si.def.column, si.def.path, RowsOf(s.kv, t), si.entries, items);
      } else {
        SecOkSame(env, s.kv, s'.kv, s.tables[si.def.table], si);
      }
    }
  }
}
