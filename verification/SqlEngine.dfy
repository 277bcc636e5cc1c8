/**
 The SQL layer as an object: statements run one after another on the store, the catalog
 and the in-memory indexes (sql_exec.go).
 */
module SqlEngine {
  import opened Strings
  import opened BTreeModel
  import opened Row
  import opened Keys
  import opened SqlModel
  import opened SqlIndexes
  import opened SqlStore
  import opened SqlCollect
  import opened SqlStatements
  import opened SqlCatalog
  import opened Scan

  // ------------------------------------------------------------- row building

  /** The values of an INSERT put into a row of NULLs. */
  method BuildRow(env: Env, def: TableDef, columns: seq<Str>, values: seq<Expr>) returns (r: Option<seq<Value>>)
    requires TableOk(def)
    ensures r == InsertedRow(env, def, columns, values)
  {
    hide TableOk, ColumnIndex, ExprToValue, SetRow;
    var cs := InsertColumns(def, columns);
    if |cs| != |values| {
      return None;
    }
    ghost var sets := InsertSets(def, columns, values);
    var idxs := ResolveColumns(env, def, columns, values);
    if idxs.None? {
      return None;
    }
    var vals := NullRow(def);
    var j := 0;
    SetRowNone(env, def, NullRow(def), sets);
    while j < |values|
      invariant j <= |values| && |vals| == |def.columns| && SetRow(env, def, NullRow(def), sets, j) == Some(vals)
    {
      var ci := idxs.value[j];
      SetRowNext(env, def, NullRow(def), sets, j);
      var v := ToValue(env, values[j], def.columns[ci].typ);
      if v.None? {
        SetRowStops(env, def, NullRow(def), sets, j + 1, |values|);
        return None;
      }
      vals := vals[ci := v.value];
      j := j + 1;
    }
    r := Some(vals);
  }

  /** The positions of the named columns, or of all columns if none is named. */
  method ResolveColumns(ghost env: Env, def: TableDef, columns: seq<Str>, ghost values: seq<Expr>) returns (r: Option<seq<nat>>)
    requires TableOk(def) && |InsertColumns(def, columns)| == |values|
    ensures match r
            case None => InsertedRow(env, def, columns, values).None?
            case Some(idxs) =>
              |idxs| == |values| &&
              forall i :: 0 <= i < |idxs| ==>
                idxs[i] < |def.columns| && ColumnIndex(def, InsertColumns(def, columns)[i]) == Some(idxs[i])
  {
    hide TableOk, ColumnIndex, ExprToValue, SetRow;
    var idxs: seq<nat> := [];
    if columns == [] {
      var i := 0;
      while i < |def.columns|
        invariant i <= |def.columns| && |idxs| == i
        invariant forall j :: 0 <= j < i ==> idxs[j] == j && ColumnIndex(def, def.columns[j].name) == Some(j)
      {
        NamedColumn(def, i);
        idxs := idxs + [i];
        i := i + 1;
      }
    } else {
      var i := 0;
      while i < |columns|
        invariant i <= |columns| && |idxs| == i
        invariant forall j :: 0 <= j < i ==> idxs[j] < |def.columns| && ColumnIndex(def, columns[j]) == Some(idxs[j])
      {
        var ci := ColumnIndex(def, columns[i]);
        if ci.None? {
          SetRowStops(env, def, NullRow(def), InsertSets(def, columns, values), i, |values|);
          return None;
        }
        ColumnInRange(def, columns[i]);
        idxs := idxs + [ci.value];
        i := i + 1;
      }
    }
    r := Some(idxs);
  }

  lemma {:induction false} ColumnInRange(def: TableDef, name: Str)
    ensures ColumnIndex(def, name).Some? ==> ColumnIndex(def, name).value < |def.columns|
  {
  }

  /** The assignments of an UPDATE applied to one row. */
  method ApplySets(env: Env, def: TableDef, base: seq<Value>, sets: seq<Assign>) returns (r: Option<seq<Value>>)
    requires |base| == |def.columns|
    ensures r == SetRow(env, def, base, sets, |sets|)
  {
    hide ColumnIndex, ExprToValue, SetRow;
    var vals := base;
    var j := 0;
    SetRowNone(env, def, base, sets);
    while j < |sets|
      invariant j <= |sets| && |vals| == |def.columns| && SetRow(env, def, base, sets, j) == Some(vals)
    {
      SetRowNext(env, def, base, sets, j);
      ColumnInRange(def, sets[j].column);
      var ci := ColumnIndex(def, sets[j].column);
      if ci.None? {
        SetRowStops(env, def, base, sets, j + 1, |sets|);
        return None;
      }
      var v := ToValue(env, sets[j].value, def.columns[ci.value].typ);
      if v.None? {
        SetRowStops(env, def, base, sets, j + 1, |sets|);
        return None;
      }
      vals := vals[ci.value := v.value];
      j := j + 1;
    }
    r := Some(vals);
  }

  // -------------------------------------------------------- index maintenance

  /** After an INSERT: the row goes into every index on its table. */
  method InsertIntoIndexes(env: Env, secs: Secs, def: TableDef, pk: PkKey, vals: seq<Value>) returns (r: Secs)
    ensures r == InsertSecs(env, secs, def, pk, vals)
  {
    hide InsertSec;
    r := secs;
    var rest := secs.Keys;
    while rest != {}
      invariant rest <= secs.Keys && r.Keys == secs.Keys
      invariant forall n :: n in secs ==> r[n] == if n in rest then secs[n] else InsertSec(env, secs[n], def, pk, vals)
      decreases |rest|
    {
      var n :| n in rest;
      r := r[n := InsertSec(env, secs[n], def, pk, vals)];
      rest := rest - {n};
    }
  }

  /** After an UPDATE: in every index on the table, old rows out and new rows in. */
  method UpdateIndexes(env: Env, secs: Secs, def: TableDef, items: seq<UpdateItem>) returns (r: Secs)
    ensures r == UpdateSecs(env, secs, def, items)
  {
    hide UpdateEntries;
    r := secs;
    var rest := secs.Keys;
    while rest != {}
      invariant rest <= secs.Keys && r.Keys == secs.Keys
      invariant forall n :: n in secs ==> r[n] == if n in rest then secs[n] else UpdateSec(env, secs[n], def, items)
      decreases |rest|
    {
      var n :| n in rest;
      var si := secs[n];
      if si.def.table == def.name {
        var es := UpdateIndex(env, si, def, items);
        r := r[n := si.(entries := es)];
      }
      rest := rest - {n};
    }
  }

  method UpdateIndex(env: Env, si: SecIdx, def: TableDef, items: seq<UpdateItem>) returns (es: seq<Entry>)
    ensures es == UpdateEntries(env, def, si.def.column, si.def.path, si.entries, items)
  {
    hide UpdateEntry;
    es := si.entries;
    var i := 0;
    while i < |items|
      invariant i <= |items| && es == UpdateEntries(env, def, si.def.column, si.def.path, si.entries, items[..i])
    {
      assert items[..i + 1][..i] == items[..i] && items[..i + 1][i] == items[i];
      es := UpdateEntry(env, def, si.def.column, si.def.path, es, items[i]);
      i := i + 1;
    }
    assert items[..|items|] == items;
  }

  /** After a DELETE: the rows leave every index on their table. */
  method DeleteFromIndexes(env: Env, secs: Secs, def: TableDef, items: seq<RowItem>) returns (r: Secs)
    ensures r == DeleteSecs(env, secs, def, items)
  {
    hide DeleteEntries;
    r := secs;
    var rest := secs.Keys;
    while rest != {}
      invariant rest <= secs.Keys && r.Keys == secs.Keys
      invariant forall n :: n in secs ==> r[n] == if n in rest then secs[n] else DeleteSec(env, secs[n], def, items)
      decreases |rest|
    {
      var n :| n in rest;
      var si := secs[n];
      if si.def.table == def.name {
        var es := DeleteFromIndex(env, si, def, items);
        r := r[n := si.(entries := es)];
      }
      rest := rest - {n};
    }
  }

  method DeleteFromIndex(env: Env, si: SecIdx, def: TableDef, items: seq<RowItem>) returns (es: seq<Entry>)
    ensures es == DeleteEntries(env, def, si.def.column, si.def.path, si.entries, items)
  {
    hide UnindexRow;
    es := si.entries;
    var i := 0;
    while i < |items|
      invariant i <= |items| && es == DeleteEntries(env, def, si.def.column, si.def.path, si.entries, items[..i])
    {
      assert items[..i + 1][..i] == items[..i] && items[..i + 1][i] == items[i];
      es := UnindexRow(env, def, si.def.column, si.def.path, items[i].pk, items[i].values, es);
      i := i + 1;
    }
    assert items[..|items|] == items;
  }

  // ------------------------------------------------------- updates and deletes

  /** The row an UPDATE makes of a selected row, if it can. */
  ghost predicate CanRewrite(env: Env, def: TableDef, sets: seq<Assign>, vals: seq<Value>)
  {
    && |vals| == |def.columns|
    && match SetRow(env, def, vals, sets, |sets|) case None => false case Some(new_) => PackRow(new_).Some?
  }

  ghost function Rewritten(env: Env, def: TableDef, sets: seq<Assign>, vals: seq<Value>): seq<Value>
    requires CanRewrite(env, def, sets, vals)
  {
    SetRow(env, def, vals, sets, |sets|).value
  }

  ghost predicate ItemFrom(env: Env, def: TableDef, sets: seq<Assign>, u: UpdateItem, it: RowItem)
  {
    && u.pk == it.pk && u.oldRow == it.values
    && CanRewrite(env, def, sets, it.values) && u.newRow == Rewritten(env, def, sets, it.values)
  }

  /** The loop of UPDATE over the selected rows, writing into the transaction. */
  method RewriteRows(env: Env, kv: Kv, def: TableDef, sets: seq<Assign>, rows: seq<RowItem>)
    returns (r: Option<Kv>, items: seq<UpdateItem>)
    requires forall i :: 0 <= i < |rows| ==> |rows[i].values| == |def.columns| && rows[i].rowKey == RowKey(def.name, rows[i].pk)
    ensures r.Some? <==> forall i :: 0 <= i < |rows| ==> CanRewrite(env, def, sets, rows[i].values)
    ensures r.Some? ==> |items| == |rows| && r.value == UpdateKv(kv, def.name, items)
    ensures r.Some? ==> forall i :: 0 <= i < |rows| ==> ItemFrom(env, def, sets, items[i], rows[i])
  {
    hide SetRow, PackRow, RowKey, UpdateKv;
    var staged := kv;
    items := [];
    var i := 0;
    NothingStaged(kv, def.name);
    while i < |rows|
      invariant i <= |rows| && |items| == i && staged == UpdateKv(kv, def.name, items)
      invariant forall j :: 0 <= j < i ==> ItemFrom(env, def, sets, items[j], rows[j])
    {
      var vals := ApplySets(env, def, rows[i].values, sets);
      if vals.None? {
        return None, items;
      }
      var page := PackRow(vals.value);
      if page.None? {
        return None, items;
      }
      staged := staged[rows[i].rowKey := page.value];
      var u := UpdateItem(rows[i].pk, rows[i].values, vals.value);
      StageOne(kv, def.name, items, u);
      items := items + [u];
      i := i + 1;
    }
    r := Some(staged);
  }

  lemma {:induction false} NothingStaged(kv: Kv, t: Str)
    ensures UpdateKv(kv, t, []) == kv
  {
  }

  lemma {:induction false} StageOne(kv: Kv, t: Str, items: seq<UpdateItem>, u: UpdateItem)
    requires PackRow(u.newRow).Some?
    ensures UpdateKv(kv, t, items + [u]) == UpdateKv(kv, t, items)[RowKey(t, u.pk) := PackRow(u.newRow).value]
  {
    hide PackRow, RowKey;
    assert (items + [u])[..|items|] == items;
  }

  /** The items of an UPDATE that leaves the key alone are fit for the indexes. */
  lemma {:induction false} RewrittenOk(env: Env, def: TableDef, p: nat, sets: seq<Assign>, rows: Rows, selected: seq<RowItem>, items: seq<UpdateItem>)
    requires RowsOk(def, rows) && PkIndex(def) == Some(p) && RowItemsOk(def.name, rows, selected)
    requires forall i :: 0 <= i < |sets| ==> sets[i].column != def.columns[p].name
    requires |items| == |selected| && forall i :: 0 <= i < |items| ==> ItemFrom(env, def, sets, items[i], selected[i])
    ensures ItemsOk(def, rows, items)
  {
    hide RowOk, SetRow, PackRow, PkOf, CleanRow, RowKey, PkIndex;
    forall i | 0 <= i < |items| ensures ItemOk(def, rows, items[i]) {
      var u := items[i];
      assert ItemFrom(env, def, sets, u, selected[i]) && ItemOf(selected[i], def.name, rows);
      assert RowOk(def, u.pk, u.oldRow);
      RewrittenItem(env, def, p, sets, u);
    }
    forall i, j | 0 <= i < j < |items| ensures items[i].pk != items[j].pk {
      assert ItemFrom(env, def, sets, items[i], selected[i]) && ItemFrom(env, def, sets, items[j], selected[j]);
    }
  }

  lemma {:induction false} RewrittenItem(env: Env, def: TableDef, p: nat, sets: seq<Assign>, u: UpdateItem)
    requires RowOk(def, u.pk, u.oldRow) && PkIndex(def) == Some(p)
    requires forall i :: 0 <= i < |sets| ==> sets[i].column != def.columns[p].name
    requires CanRewrite(env, def, sets, u.oldRow) && u.newRow == Rewritten(env, def, sets, u.oldRow)
    ensures CleanRow(def, u.newRow) && PkOf(def, u.newRow) == Some(u.pk) && PackRow(u.newRow).Some?
  {
    hide CellOk, SetRow, PackRow, PkOf, CleanRow, PkIndex;
    StoredClean(def, u.pk, u.oldRow);
    SetRowClean(env, def, u.oldRow, sets, |sets|);
    SetRowKeepsKey(env, def, p, u.oldRow, sets);
  }

  /** The loop of DELETE over the selected rows. */
  method DeleteRows(kv: Kv, index: seq<Entry>, ghost t: Str, rows: seq<RowItem>) returns (kv': Kv, index': seq<Entry>)
    ensures kv' == DeleteKv(kv, t, rows) && index' == DeleteKeys(index, rows)
  {
    hide DropKey;
    kv', index' := kv, index;
    var i := 0;
    while i < |rows|
      invariant i <= |rows| && kv' == DeleteKv(kv, t, rows[..i]) && index' == DeleteKeys(index, rows[..i])
    {
      assert rows[..i + 1][..i] == rows[..i] && rows[..i + 1][i] == rows[i];
      kv' := kv' - {rows[i].rowKey};
      index' := DropKey(index', rows[i].pk);
      i := i + 1;
    }
    assert rows[..|rows|] == rows;
  }

  /** The loop of DROP TABLE over the table's rows. */
  method DeletePairs(kv: Kv, def: TableDef) returns (kv': Kv, n: nat)
    requires TableStored(kv, def)
    ensures kv' == WithoutRows(kv, def.name) && n == |RowsOf(kv, def.name)|
  {
    hide HasPrefix, RowPrefix, SortedPairs, DistinctPairs, TableStored, RowsOf;
    var ps := Pairs(kv, RowPrefix(def.name));
    n := |ps|;
    PairsCount(ps, kv, def);
    kv' := kv;
    var i := 0;
    while i < |ps|
      invariant i <= |ps|
      invariant forall k :: k in kv' <==> k in kv && forall j :: 0 <= j < i ==> ps[j].key != k
      invariant forall k :: k in kv' ==> kv'[k] == kv[k]
    {
      kv' := kv' - {ps[i].key};
      i := i + 1;
    }
    forall k | k in kv ensures k in kv' <==> !HasPrefix(k, RowPrefix(def.name)) {
      if HasPrefix(k, RowPrefix(def.name)) {
        assert Pair(k, kv[k]) in ps;
      } else {
        assert forall j :: 0 <= j < |ps| ==> ps[j] in ps;
      }
    }
  }
}
