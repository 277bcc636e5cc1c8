/**
 The database object of the SQL layer.  Every statement keeps the in-memory indexes in
 step with the stored rows, so a query by index equals a query by scan, and rebuilding
 after a restart changes nothing.
 */
module SqlDatabase {
  import opened Strings
  import opened BTreeModel
  import opened Row
  import opened Keys
  import opened SqlModel
  import opened SqlAnswers
  import opened SqlIndexes
  import opened SqlStore
  import opened SqlCollect
  import opened SqlStatements
  import opened SqlMeaning
  import opened SqlCatalog
  import opened SqlEngine

  /** Bound statements other than SELECT. */
  datatype Stmt =
    | CreateTable(def: TableDef)
    | DropTable(table: Str)
    | Insert(table: Str, columns: seq<Str>, values: seq<Expr>)
    | Update(table: Str, sets: seq<Assign>, where: seq<Pred>)
    | Delete(table: Str, where: seq<Pred>)
    | CreateIndex(idef: IndexDef)
    | DropIndex(index: Str)

  // ---------------------------------------------------------- what they need

  /** The rows a WHERE clause selects in table `t`. */
  ghost function Chosen(env: Env, s: State, t: Str, where: seq<Pred>): Answer
    requires Consistent(env, s) && t in s.tables
  {
    ConsistentTable(env, s, t);
    CollectAnswer(env, s.tables[t], s.secs, RowsOf(s.kv, t), where)
  }

  ghost predicate SetsKey(def: TableDef, sets: seq<Assign>)
  {
    match PkIndex(def)
    case None => false
    case Some(p) => exists i :: 0 <= i < |sets| && sets[i].column == def.columns[p].name
  }

  /** When an UPDATE succeeds. */
  ghost predicate CanUpdate(env: Env, s: State, t: Str, sets: seq<Assign>, where: seq<Pred>)
    requires Consistent(env, s)
  {
    && t in s.tables && PkIndex(s.tables[t]).Some? && !SetsKey(s.tables[t], sets)
    && match Chosen(env, s, t, where)
       case Failed => false
       case Selected(rows) => forall pk :: pk in rows ==> CanRewrite(env, s.tables[t], sets, rows[pk])
  }

  /** When a DELETE succeeds. */
  ghost predicate CanDelete(env: Env, s: State, t: Str, where: seq<Pred>)
    requires Consistent(env, s)
  {
    t in s.tables && PkIndex(s.tables[t]).Some? && Chosen(env, s, t, where).Selected?
  }

  /** When a CREATE INDEX succeeds. */
  ghost predicate CanIndex(env: Env, s: State, idef: IndexDef)
  {
    && idef.table in s.tables && idef.name !in s.secs
    && match PkIndex(s.tables[idef.table])
       case None => false
       case Some(p) =>
         && idef.column != s.tables[idef.table].columns[p].name
         && IndexOk(env, s.tables[idef.table], idef.column, idef.path)
  }

  /** No index is made to take a text that holds the separator. */
  ghost predicate InsertSeparable(env: Env, s: State, t: Str, columns: seq<Str>, values: seq<Expr>)
  {
    t in s.tables ==>
      match InsertedRow(env, s.tables[t], columns, values)
      case None => true
      case Some(vals) => SeparableIn(env, s.secs, s.tables[t], vals)
  }

  ghost predicate UpdateSeparable(env: Env, s: State, t: Str, sets: seq<Assign>, where: seq<Pred>)
    requires Consistent(env, s)
  {
    t in s.tables ==>
      match Chosen(env, s, t, where)
      case Failed => true
      case Selected(rows) =>
        forall pk :: pk in rows && CanRewrite(env, s.tables[t], sets, rows[pk]) ==>
          SeparableIn(env, s.secs, s.tables[t], Rewritten(env, s.tables[t], sets, rows[pk]))
  }

  ghost predicate IndexSeparable(env: Env, s: State, idef: IndexDef)
  {
    idef.table in s.tables ==> SeparableRows(env, s.tables[idef.table], idef.column, idef.path, RowsOf(s.kv, idef.table))
  }

  /** What a statement must respect: identifiers as table names, distinct column names, and
      no separator in indexed text. */
  ghost predicate StmtOk(env: Env, s: State, st: Stmt)
    requires Consistent(env, s)
  {
    match st
    case CreateTable(def) => TableOk(def)
    case DropTable(_) => true
    case Insert(t, columns, values) => InsertSeparable(env, s, t, columns, values)
    case Update(t, sets, where) => UpdateSeparable(env, s, t, sets, where)
    case Delete(_, _) => true
    case CreateIndex(idef) => IndexSeparable(env, s, idef)
    case DropIndex(_) => true
  }

  /** When a statement succeeds. */
  ghost predicate CanExec(env: Env, s: State, st: Stmt)
    requires Consistent(env, s)
  {
    match st
    case CreateTable(def) => def.name !in s.catTables
    case DropTable(t) => t in s.catTables
    case Insert(t, columns, values) => CanInsert(env, s, t, columns, values)
    case Update(t, sets, where) => CanUpdate(env, s, t, sets, where)
    case Delete(t, where) => CanDelete(env, s, t, where)
    case CreateIndex(idef) => CanIndex(env, s, idef)
    case DropIndex(n) => n in s.secs
  }

  // ------------------------------------------------------------ what they do

  /** What a statement that succeeds does. */
  ghost predicate Executed(env: Env, s: State, s': State, st: Stmt)
    requires Consistent(env, s) && CanExec(env, s, st)
  {
    match st
    case CreateTable(def) => s' == WithTable(s, def)
    case DropTable(t) => s' == WithoutTable(s, t)
    case Insert(t, columns, values) =>
      var vals := InsertedRow(env, s.tables[t], columns, values).value;
      && RowsOf(s'.kv, t) == RowsOf(s.kv, t)[PkOf(s.tables[t], vals).value := StoredRow(vals)]
      && InsertHolds(env, s.tables[t], columns, values, StoredRow(vals)) && OthersSame(s, s', t)
    case Update(t, sets, where) =>
      RowsUpdated(env, s.tables[t], sets, RowsOf(s.kv, t), Chosen(env, s, t, where).rows, RowsOf(s'.kv, t)) && OthersSame(s, s', t)
    case Delete(t, where) =>
      RowsOf(s'.kv, t) == RowsOf(s.kv, t) - Chosen(env, s, t, where).rows.Keys && OthersSame(s, s', t)
    case CreateIndex(idef) => idef.name in s'.secs && s'.secs[idef.name].def == idef && s' == WithIndex(s, s'.secs[idef.name])
    case DropIndex(n) => s' == WithoutIndex(s, n)
  }

  /** The rows after an UPDATE that selects `chosen`. */
  ghost predicate RowsUpdated(env: Env, def: TableDef, sets: seq<Assign>, before: Rows, chosen: Rows, after: Rows)
  {
    && after.Keys == before.Keys
    && forall pk :: pk in before ==>
         if pk in chosen then
           && CanRewrite(env, def, sets, before[pk]) && after[pk] == StoredRow(Rewritten(env, def, sets, before[pk]))
           && UpdateHolds(env, def, sets, before[pk], after[pk])
         else after[pk] == before[pk]
  }

  ghost predicate OthersSame(s: State, s': State, t: Str)
  {
    && s'.tables == s.tables && s'.catTables == s.catTables && s'.catIndexes == s.catIndexes
    && forall u :: u in s.tables && u != t ==> RowsOf(s'.kv, u) == RowsOf(s.kv, u)
  }

  lemma {:induction false} ListsCount(items: seq<RowItem>, name: Str, rows: Rows)
    requires Lists(items, name, rows)
    ensures |items| == |rows|
  {
    hide RowKey;
    var pks := set i | 0 <= i < |items| :: items[i].pk;
    DistinctCount(items, |items|);
    assert rows.Keys == pks;
    assert |rows| == |rows.Keys|;
  }

  lemma {:induction false} DistinctCount(items: seq<RowItem>, n: nat)
    requires DistinctItems(items) && n <= |items|
    ensures |set i | 0 <= i < n :: items[i].pk| == n
  {
    if n > 0 {
      DistinctCount(items, n - 1);
      var small := set i | 0 <= i < n - 1 :: items[i].pk;
      assert (set i | 0 <= i < n :: items[i].pk) == small + {items[n - 1].pk};
    }
  }

  /** The chosen rows are rows of the table. */
  lemma {:induction false} ChosenAreRows(env: Env, s: State, t: Str, where: seq<Pred>)
    requires Consistent(env, s) && t in s.tables && Chosen(env, s, t, where).Selected?
    ensures forall pk :: pk in Chosen(env, s, t, where).rows ==>
              pk in RowsOf(s.kv, t) && Chosen(env, s, t, where).rows[pk] == RowsOf(s.kv, t)[pk]
  {
    hide RowsOf, Consistent, RowsOk, ExprToValue, MatchAll, Hit, PkIndexed, SecsOf, TableStored, TableOk, PkIndex;
    ConsistentTable(env, s, t);
  }

  lemma {:induction false} SelectedItems(env: Env, s: State, t: Str, where: seq<Pred>, items: seq<RowItem>)
    requires Consistent(env, s) && t in s.tables && Chosen(env, s, t, where).Selected?
    requires Lists(items, t, Chosen(env, s, t, where).rows)
    ensures RowItemsOk(t, RowsOf(s.kv, t), items)
    ensures forall pk :: Listed(items, pk) <==> pk in Chosen(env, s, t, where).rows
    ensures forall i :: 0 <= i < |items| ==> items[i].values == Chosen(env, s, t, where).rows[items[i].pk]
  {
    hide RowsOf, Consistent, Chosen, RowKey;
    ChosenAreRows(env, s, t, where);
  }

  lemma {:induction false} RewrittenMeans(env: Env, def: TableDef, pk: PkKey, sets: seq<Assign>, vals: seq<Value>)
    requires TableOk(def) && RowOk(def, pk, vals) && CanRewrite(env, def, sets, vals)
    ensures UpdateHolds(env, def, sets, vals, StoredRow(Rewritten(env, def, sets, vals)))
  {
    hide TableOk, RowOk, SetRow, PackRow, UpdateHolds, StoredRow;
    UpdateMeans(env, def, pk, sets, vals, Rewritten(env, def, sets, vals));
  }

  /** For a usable clause, the rows a statement works on are those that meet every predicate. */
  lemma {:induction false} ChosenMeans(env: Env, s: State, t: Str, where: seq<Pred>)
    requires Consistent(env, s) && t in s.tables && PkIndex(s.tables[t]).Some?
    requires GoodWhere(env, s.tables[t], where) && NoFalseHits(env, s.tables[t], s.secs, RowsOf(s.kv, t), where)
    ensures match Chosen(env, s, t, where)
            case Failed => true
            case Selected(sel) => forall pk :: pk in sel <==> pk in RowsOf(s.kv, t) && Meets(env, s.tables[t], RowsOf(s.kv, t)[pk], where)
  {
    hide Consistent, RowsOf, RowsOk, TableStored, PkIndexed, SecsOf, TableOk, PkIndex, CollectAnswer, ScanAnswer, Meets, ErrsAt, GoodWhere, NoFalseHits;
    ConsistentTable(env, s, t);
    IndexesAgreeWithScan(env, s.kv, s.tables[t], s.secs, where);
    ScanMeans(env, s.tables[t], RowsOf(s.kv, t), where);
  }

  lemma {:induction false} UpdateEffect(env: Env, def: TableDef, sets: seq<Assign>, rows: Rows, chosen: Rows, selected: seq<RowItem>, items: seq<UpdateItem>)
    requires TableOk(def) && RowsOk(def, rows) && ItemsOk(def, rows, items) && |items| == |selected|
    requires forall i :: 0 <= i < |items| ==> ItemFrom(env, def, sets, items[i], selected[i])
    requires forall pk :: Listed(selected, pk) <==> pk in chosen
    ensures RowsUpdated(env, def, sets, rows, chosen, UpdatedRows(rows, items))
  {
    hide CanRewrite, Rewritten, StoredRow, UpdatedRows, CleanRow, PkOf, PackRow, UpdateHolds, TableOk, RowOk;
    UpdatedAt(def, rows, items);
    forall pk | pk in rows
      ensures if pk in chosen then
                && CanRewrite(env, def, sets, rows[pk]) && UpdatedRows(rows, items)[pk] == StoredRow(Rewritten(env, def, sets, rows[pk]))
                && UpdateHolds(env, def, sets, rows[pk], UpdatedRows(rows, items)[pk])
              else UpdatedRows(rows, items)[pk] == rows[pk]
    {
      if pk in chosen {
        var i :| 0 <= i < |selected| && selected[i].pk == pk;
        assert ItemFrom(env, def, sets, items[i], selected[i]) && ItemOk(def, rows, items[i]);
        RewrittenMeans(env, def, pk, sets, rows[pk]);
      } else {
        forall i | 0 <= i < |items| ensures items[i].pk != pk {
          assert ItemFrom(env, def, sets, items[i], selected[i]);
          assert selected[i].pk == pk ==> Listed(selected, pk);
        }
      }
    }
  }

  // ------------------------------------------------------------ the database

  class SqlDb {
    const env: Env
    var kv: Kv
    var catTables: map<Str, TableDef>
    var catIndexes: map<Str, IndexDef>
    var tables: map<Str, TableDef>
    var indexes: map<Str, seq<Entry>>
    var secs: Secs

    ghost function Abs(): State
      reads this
    {
      State(kv, catTables, catIndexes, tables, indexes, secs)
    }

    ghost predicate Valid()
      reads this
    {
      Consistent(env, Abs())
    }

    /** A database with no tables. */
    constructor (env: Env)
      ensures Valid() && this.env == env && Abs() == State(map[], map[], map[], map[], map[], map[])
    {
      this.env := env;
      kv, catTables, catIndexes, tables, indexes, secs := map[], map[], map[], map[], map[], map[];
    }

    /** `execCreate` */
    method ExecCreate(def: TableDef) returns (ok: bool)
      requires Valid() && TableOk(def)
      modifies this
      ensures Valid() && (ok <==> def.name !in old(catTables))
      ensures Abs() == if ok then WithTable(old(Abs()), def) else old(Abs())
      ensures ok ==> RowsOf(kv, def.name) == map[] && tables == old(tables)[def.name := def] && catTables == tables && kv == old(kv) && secs == old(secs)
    {
      hide Consistent, TableOk, RowsOf;
      if def.name in catTables {
        return false;
      }
      ConsistentKeys(env, Abs());
      CreateConsistent(env, Abs(), def);
      catTables := catTables[def.name := def];
      tables := tables[def.name := def];
      indexes := indexes[def.name := []];
      ok := true;
    }

    /** `execDrop` */
    method ExecDrop(t: Str) returns (ok: bool, affected: nat)
      requires Valid()
      modifies this
      ensures Valid() && (ok <==> t in old(catTables))
      ensures Abs() == if ok then WithoutTable(old(Abs()), t) else old(Abs())
      ensures ok ==> affected == |old(RowsOf(kv, t))| && forall u :: u in tables ==> RowsOf(kv, u) == old(RowsOf(kv, u))
    {
      hide Consistent, WithoutRows, RowsOf, TableOk, TableStored, PkIndexed, SecsOf, RowsOk;
      if t !in catTables {
        return false, 0;
      }
      ConsistentKeys(env, Abs());
      DropConsistent(env, Abs(), t);
      var kv', n := PlanDrop(env, kv, catTables[t], t, Abs());
      var catIndexes' := map i | i in catIndexes && catIndexes[i].table != t :: catIndexes[i];
      var secs' := map i | i in secs && secs[i].def.table != t :: secs[i];
      assert State(kv', catTables - {t}, catIndexes', tables - {t}, indexes - {t}, secs') == WithoutTable(Abs(), t);
      kv, catTables, catIndexes, tables, indexes, secs := kv', catTables - {t}, catIndexes', tables - {t}, indexes - {t}, secs';
      return true, n;
    }

    /** `execInsert` */
    method ExecInsert(t: Str, columns: seq<Str>, values: seq<Expr>) returns (ok: bool)
      requires Valid() && InsertSeparable(env, Abs(), t, columns, values)
      modifies this
      ensures Valid() && (ok <==> CanInsert(env, old(Abs()), t, columns, values))
      ensures !ok ==> Abs() == old(Abs())
      ensures ok ==>
                var def := old(tables)[t];
                var vals := InsertedRow(env, def, columns, values).value;
                && RowsOf(kv, t) == old(RowsOf(kv, t))[PkOf(def, vals).value := StoredRow(vals)]
                && PkOf(def, StoredRow(vals)) == PkOf(def, vals) && InsertHolds(env, def, columns, values, StoredRow(vals))
                && OthersSame(old(Abs()), Abs(), t)
    {
      hide Consistent, TableOk, TableStored, PkIndexed, SecsOf, RowsOk, RowsOf, InsertedRow, PkOf, PackRow, RowKey, SeparableIn, PutSorted, InsertSecs, CleanRow, StoredRow, InsertHolds;
      if t !in tables {
        return false;
      }
      var def := tables[t];
      ConsistentTable(env, Abs(), t);
      var row := BuildRow(env, def, columns, values);
      if row.None? {
        return false;
      }
      var vals := row.value;
      var pk := PkOf(def, vals);
      if pk.None? {
        return false;
      }
      var page := PackRow(vals);
      if page.None? {
        return false;
      }
      var rk := RowKey(t, pk.value);
      if rk in kv {
        return false;
      }
      InsertedClean(env, def, columns, values);
      InsertMeans(env, def, columns, values, vals);
      CleanRowKey(def, vals);
      InsertConsistent(env, Abs(), t, pk.value, vals);
      kv := kv[rk := page.value];
      indexes := indexes[t := PutSorted(indexes[t], pk.value, rk)];
      secs := InsertIntoIndexes(env, secs, def, pk.value, vals);
      ok := true;
    }

    /** `execUpdate` */
    method ExecUpdate(t: Str, sets: seq<Assign>, where: seq<Pred>) returns (ok: bool, affected: nat)
      requires Valid() && UpdateSeparable(env, Abs(), t, sets, where)
      modifies this
      ensures Valid() && (ok <==> CanUpdate(env, old(Abs()), t, sets, where))
      ensures !ok ==> Abs() == old(Abs())
      ensures ok ==>
                var chosen := Chosen(env, old(Abs()), t, where).rows;
                && RowsUpdated(env, old(tables)[t], sets, old(RowsOf(kv, t)), chosen, RowsOf(kv, t))
                && affected == |chosen| && OthersSame(old(Abs()), Abs(), t)
    {
      hide Consistent, TableOk, TableStored, PkIndexed, SecsOf, RowsOk, RowsOf, PkIndex, RowsUpdated, UpdateKv, UpdateSecs, Chosen, UpdateSeparable;
      if t !in tables {
        return false, 0;
      }
      var def := tables[t];
      ConsistentTable(env, Abs(), t);
      var p := PkIndex(def);
      if p.None? {
        return false, 0;
      }
      PkInRange(def);
      if exists i :: 0 <= i < |sets| && sets[i].column == def.columns[p.value].name {
        return false, 0;
      }
      var staged, items := PlanUpdate(env, kv, def, p.value, indexes[t], secs, sets, where, Abs());
      if staged.None? {
        return false, 0;
      }
      kv := staged.value;
      secs := UpdateIndexes(env, secs, def, items);
      return true, |items|;
    }

    /** `execDelete` */
    method ExecDelete(t: Str, where: seq<Pred>) returns (ok: bool, affected: nat)
      requires Valid()
      modifies this
      ensures Valid() && (ok <==> CanDelete(env, old(Abs()), t, where))
      ensures !ok ==> Abs() == old(Abs())
      ensures ok ==>
                var chosen := Chosen(env, old(Abs()), t, where).rows;
                && RowsOf(kv, t) == old(RowsOf(kv, t)) - chosen.Keys
                && affected == |chosen| && OthersSame(old(Abs()), Abs(), t)
                && RowsMeeting(env, old(Abs()), t, where, RowsOf(kv, t))
    {
      hide Consistent, TableOk, TableStored, PkIndexed, SecsOf, RowsOk, RowsOf, PkIndex, DeleteKv, DeleteKeys, DeleteSecs, Chosen, RowsMeeting;
      if t !in tables {
        return false, 0;
      }
      var def := tables[t];
      ConsistentTable(env, Abs(), t);
      if PkIndex(def).None? {
        return false, 0;
      }
      var rows := PlanDelete(env, kv, def, indexes[t], secs, where, Abs());
      if rows.None? {
        return false, 0;
      }
      var kv', index' := DeleteRows(kv, indexes[t], t, rows.value);
      var secs' := DeleteFromIndexes(env, secs, def, rows.value);
      kv, indexes, secs := kv', indexes[t := index'], secs';
      return true, |rows.value|;
    }

    /** `execCreateIndex` */
    method ExecCreateIndex(idef: IndexDef) returns (ok: bool)
      requires Valid() && IndexSeparable(env, Abs(), idef)
      modifies this`catIndexes, this`secs
      ensures Valid() && (ok <==> CanIndex(env, old(Abs()), idef))
      ensures ok <==> idef.table in tables && idef.name !in old(secs) && PkIndex(tables[idef.table]).Some? &&
                      idef.column != tables[idef.table].columns[PkIndex(tables[idef.table]).value].name &&
                      IndexOk(env, tables[idef.table], idef.column, idef.path)
      ensures !ok ==> Abs() == old(Abs())
      ensures ok ==> idef.name in secs && secs[idef.name].def == idef && Abs() == WithIndex(old(Abs()), secs[idef.name])
    {
      hide Consistent, TableOk, TableStored, PkIndexed, SecsOf, RowsOk, RowsOf, PkIndex, ParsePath, ColumnIndex, SeparableRows, SecIndexed, PairsOf;
      if idef.table !in tables || idef.name in secs {
        return false;
      }
      var def := tables[idef.table];
      ConsistentTable(env, Abs(), idef.table);
      var p := PkIndex(def);
      if p.None? {
        return false;
      }
      PkInRange(def);
      if idef.column == def.columns[p.value].name {
        return false;
      }
      var ci := ColumnIndex(def, idef.column);
      if ci.None? {
        return false;
      }
      ColumnInRange(def, idef.column);
      var ct := def.columns[ci.value].typ;
      if idef.path != [] {
        if ct != Json || ParsePath(env, idef.path).None? {
          return false;
        }
      } else if ct != Integer && ct != Text {
        return false;
      }
      var ps := TablePairs(kv, def);
      var es := BuildSecIndex(env, kv, def, idef.column, idef.path, ps);
      var si := SecIdx(idef, es);
      IndexConsistent(env, Abs(), si);
      catIndexes := catIndexes[idef.name := idef];
      secs := secs[idef.name := si];
      ok := true;
    }

    /** `execDropIndex` */
    method ExecDropIndex(n: Str) returns (ok: bool)
      requires Valid()
      modifies this`catIndexes, this`secs
      ensures Valid() && (ok <==> n in old(secs))
      ensures Abs() == if ok then WithoutIndex(old(Abs()), n) else old(Abs())
    {
      hide Consistent;
      if n !in secs {
        return false;
      }
      UnindexConsistent(env, Abs(), n);
      catIndexes := catIndexes - {n};
      secs := secs - {n};
      ok := true;
    }

    /** `Exec` on bound statements: every one of them keeps the database consistent, and a
        failing one changes nothing. */
    method Exec(st: Stmt) returns (ok: bool)
      requires Valid() && StmtOk(env, Abs(), st)
      modifies this
      ensures Valid() && (ok <==> CanExec(env, old(Abs()), st))
      ensures if ok then Executed(env, old(Abs()), Abs(), st) else Abs() == old(Abs())
    {
      hide Consistent, TableOk, InsertSeparable, UpdateSeparable, IndexSeparable, CanInsert, CanUpdate, CanDelete, CanIndex, InsertHolds, RowsUpdated, Chosen, RowsOf, InsertedRow, PkOf, OthersSame;
      match st
      case CreateTable(def) => ok := ExecCreate(def);
      case DropTable(t) => var n; ok, n := ExecDrop(t);
      case Insert(t, columns, values) => ok := ExecInsert(t, columns, values);
      case Update(t, sets, where) => var n; ok, n := ExecUpdate(t, sets, where);
      case Delete(t, where) => var n; ok, n := ExecDelete(t, where);
      case CreateIndex(idef) => ok := ExecCreateIndex(idef);
      case DropIndex(n) => ok := ExecDropIndex(n);
    }

    /** The rows of a SELECT: for a usable equality literal, those of the table scan. */
    method Select(t: Str, where: seq<Pred>) returns (r: Option<seq<RowItem>>)
      requires Valid()
      ensures t !in tables ==> r.None?
      ensures t in tables ==> Answers(r, t, Chosen(env, Abs(), t, where))
      ensures t in tables && PkIndex(tables[t]).Some? && GoodWhere(env, tables[t], where) && NoFalseHits(env, tables[t], secs, RowsOf(kv, t), where) ==>
                && RowsOk(tables[t], RowsOf(kv, t)) && Answers(r, t, ScanAnswer(env, tables[t], RowsOf(kv, t), where))
                && (r.Some? ==> forall pk :: Listed(r.value, pk) <==> pk in RowsOf(kv, t) && Meets(env, tables[t], RowsOf(kv, t)[pk], where))
    {
      hide Meets, Listed, CollectAnswer, Consistent, TableOk, TableStored, PkIndexed, SecsOf, RowsOk, RowsOf, PkIndex, Answers, GoodWhere, NoFalseHits, ScanAnswer;
      if t !in tables {
        return None;
      }
      ConsistentTable(env, Abs(), t);
      r := CollectRows(env, kv, tables[t], indexes[t], secs, where);
      if PkIndex(tables[t]).Some? && GoodWhere(env, tables[t], where) && NoFalseHits(env, tables[t], secs, RowsOf(kv, t), where) {
        ChosenMeans(env, Abs(), t, where);
        AnswerLists(r, t, Chosen(env, Abs(), t, where));
      }
    }

    /** Closing and opening again: `rebuildSQLState` reproduces the in-memory state exactly. */
    method Reopen()
      requires Valid()
      modifies this`tables, this`indexes, this`secs
      ensures Valid() && Abs() == old(Abs())
    {
      hide Consistent;
      tables, indexes, secs := RebuildSqlState(env, kv, catTables, catIndexes, Abs());
    }
  }

  /** For a usable clause, the rows left are those that do not meet it. */
  ghost predicate RowsMeeting(env: Env, s: State, t: Str, where: seq<Pred>, left: Rows)
    requires t in s.tables
  {
    var def, rows := s.tables[t], RowsOf(s.kv, t);
    GoodWhere(env, def, where) && NoFalseHits(env, def, s.secs, rows, where) ==>
      forall pk :: pk in left <==> pk in rows && !Meets(env, def, rows[pk], where)
  }

  /** The transaction of a DELETE: the rows to remove. */
  method PlanDelete(env: Env, kv: Kv, def: TableDef, index: seq<Entry>, secs: Secs, where: seq<Pred>, ghost s: State)
    returns (items: Option<seq<RowItem>>)
    requires Consistent(env, s) && def.name in s.tables && def.name in s.indexes && s.tables[def.name] == def
    requires kv == s.kv && index == s.indexes[def.name] && secs == s.secs && PkIndex(def).Some?
    ensures items.Some? <==> CanDelete(env, s, def.name, where)
    ensures items.Some? ==>
              var chosen := Chosen(env, s, def.name, where).rows;
              var s' := WithDelete(env, s, def.name, items.value);
              && Consistent(env, s') && OthersSame(s, s', def.name) && |items.value| == |chosen|
              && RowsOf(s'.kv, def.name) == RowsOf(kv, def.name) - chosen.Keys
              && RowsMeeting(env, s, def.name, where, RowsOf(s'.kv, def.name))
  {
    hide Consistent, TableOk, TableStored, PkIndexed, SecsOf, RowsOk, RowsOf, PkIndex, Lists, DeleteKv, DeleteKeys, DeleteSecs, Listed, DeletedRows, RowItemsOk, Meets, GoodWhere, NoFalseHits, CollectAnswer;
    var t := def.name;
    ConsistentTable(env, s, t);
    items := CollectRows(env, kv, def, index, secs, where);
    if items.Some? {
      ghost var chosen := Chosen(env, s, t, where).rows;
      SelectedItems(env, s, t, where, items.value);
      ListsCount(items.value, t, chosen);
      DeleteConsistent(env, s, t, items.value);
      DeletedAt(RowsOf(kv, t), items.value);
      assert DeletedRows(RowsOf(kv, t), items.value) == RowsOf(kv, t) - chosen.Keys;
      if GoodWhere(env, def, where) && NoFalseHits(env, def, secs, RowsOf(kv, t), where) { ChosenMeans(env, s, t, where); }
    }
  }

  /** The rows a DROP TABLE deletes. */
  method PlanDrop(env: Env, kv: Kv, def: TableDef, t: Str, ghost s: State) returns (kv': Kv, n: nat)
    requires Consistent(env, s) && t in s.tables && def == s.tables[t] && kv == s.kv
    ensures kv' == WithoutRows(kv, t) && n == |RowsOf(kv, t)|
  {
    hide Consistent, WithoutRows, RowsOf, TableOk, TableStored, PkIndexed, SecsOf, RowsOk;
    ConsistentTable(env, s, t);
    kv', n := DeletePairs(kv, def);
  }

  /** The transaction of an UPDATE: select, rewrite, and stage the pages. */
  method PlanUpdate(env: Env, kv: Kv, def: TableDef, p: nat, index: seq<Entry>, secs: Secs, sets: seq<Assign>, where: seq<Pred>, ghost s: State)
    returns (staged: Option<Kv>, items: seq<UpdateItem>)
    requires Consistent(env, s) && def.name in s.tables && def.name in s.indexes && s.tables[def.name] == def
    requires kv == s.kv && index == s.indexes[def.name] && secs == s.secs
    requires PkIndex(def) == Some(p) && !SetsKey(def, sets) && UpdateSeparable(env, s, def.name, sets, where)
    ensures staged.Some? <==> CanUpdate(env, s, def.name, sets, where)
    ensures staged.Some? ==>
              var chosen := Chosen(env, s, def.name, where).rows;
              var s' := WithUpdate(env, s, def.name, items);
              && staged.value == s'.kv && Consistent(env, s') && OthersSame(s, s', def.name) && |items| == |chosen|
              && RowsUpdated(env, def, sets, RowsOf(kv, def.name), chosen, RowsOf(s'.kv, def.name))
  {
    hide Consistent, TableOk, TableStored, PkIndexed, SecsOf, RowsOk, RowsOf, PkIndex, RowsUpdated, CanRewrite, Lists, UpdateKv, UpdateSecs, ItemFrom, Listed, UpdatedRows, SeparableIn;
    var t := def.name;
    ConsistentTable(env, s, t);
    items := [];
    var rows := CollectRows(env, kv, def, index, secs, where);
    if rows.None? {
      return None, items;
    }
    ghost var chosen := Chosen(env, s, t, where).rows;
    SelectedItems(env, s, t, where, rows.value);
    ListsCount(rows.value, t, chosen);
    ItemsFit(def, RowsOf(kv, t), rows.value);
    ItemsChosen(rows.value, t, chosen);
    CanRewriteAll(env, def, sets, chosen, rows.value);
    staged, items := RewriteRows(env, kv, def, sets, rows.value);
    if staged.Some? {
      RewrittenOk(env, def, p, sets, RowsOf(kv, t), rows.value, items);
      UpdateItemsSeparable(env, secs, def, sets, chosen, rows.value, items);
      UpdateConsistent(env, s, t, items);
      UpdateEffect(env, def, sets, RowsOf(kv, t), chosen, rows.value, items);
    }
  }

  lemma {:induction false} AnswerLists(r: Option<seq<RowItem>>, name: Str, a: Answer)
    requires Answers(r, name, a)
    ensures match a case Failed => r.None? case Selected(rows) => r.Some? && forall pk :: Listed(r.value, pk) <==> pk in rows
  {
    hide RowKey;
    if a.Selected? {
      forall i | 0 <= i < |r.value| ensures r.value[i].pk in a.rows { assert ItemOf(r.value[i], name, a.rows); }
    }
  }

  lemma {:induction false} ItemsChosen(items: seq<RowItem>, name: Str, rows: Rows)
    requires Lists(items, name, rows)
    ensures forall i :: 0 <= i < |items| ==> items[i].pk in rows && items[i].values == rows[items[i].pk]
  {
    hide RowKey;
    forall i | 0 <= i < |items| ensures items[i].pk in rows && items[i].values == rows[items[i].pk] {
      assert ItemOf(items[i], name, rows);
    }
  }

  lemma {:induction false} PkInRange(def: TableDef)
    ensures PkIndex(def).Some? ==> PkIndex(def).value < |def.columns|
  {
  }

  lemma {:induction false} InsertedClean(env: Env, def: TableDef, columns: seq<Str>, values: seq<Expr>)
    ensures match InsertedRow(env, def, columns, values) case None => true case Some(vals) => CleanRow(def, vals)
  {
    hide CleanRow, SetRow;
    NullRowClean(def);
    if |InsertColumns(def, columns)| == |values| {
      SetRowClean(env, def, NullRow(def), InsertSets(def, columns, values), |values|);
    }
  }

  lemma {:induction false} CleanRowKey(def: TableDef, vals: seq<Value>)
    requires CleanRow(def, vals)
    ensures PkOf(def, StoredRow(vals)) == PkOf(def, vals)
  {
    hide PkOf, StoredRow, Clean, JsonOk;
    CleanKey(def, vals);
  }

  lemma {:induction false} ItemsFit(def: TableDef, rows: Rows, items: seq<RowItem>)
    requires RowsOk(def, rows) && RowItemsOk(def.name, rows, items)
    ensures forall i :: 0 <= i < |items| ==> |items[i].values| == |def.columns| && items[i].rowKey == RowKey(def.name, items[i].pk)
  {
    hide RowKey, CellOk, PkOf;
    forall i | 0 <= i < |items| ensures |items[i].values| == |def.columns| && items[i].rowKey == RowKey(def.name, items[i].pk) {
      assert ItemOf(items[i], def.name, rows) && RowOk(def, items[i].pk, rows[items[i].pk]);
    }
  }

  lemma {:induction false} CanRewriteAll(env: Env, def: TableDef, sets: seq<Assign>, chosen: Rows, items: seq<RowItem>)
    requires forall pk :: Listed(items, pk) <==> pk in chosen
    requires forall i :: 0 <= i < |items| ==> items[i].pk in chosen && items[i].values == chosen[items[i].pk]
    ensures (forall i :: 0 <= i < |items| ==> CanRewrite(env, def, sets, items[i].values)) <==>
              (forall pk :: pk in chosen ==> CanRewrite(env, def, sets, chosen[pk]))
  {
    hide CanRewrite;
    if forall i :: 0 <= i < |items| ==> CanRewrite(env, def, sets, items[i].values) {
      forall pk | pk in chosen ensures CanRewrite(env, def, sets, chosen[pk]) {
        var i :| 0 <= i < |items| && items[i].pk == pk;
      }
    }
  }

  lemma {:induction false} UpdateItemsSeparable(env: Env, secs: Secs, def: TableDef, sets: seq<Assign>, chosen: Rows, selected: seq<RowItem>, items: seq<UpdateItem>)
    requires |items| == |selected| && forall i :: 0 <= i < |items| ==> ItemFrom(env, def, sets, items[i], selected[i])
    requires forall i :: 0 <= i < |selected| ==> selected[i].pk in chosen && selected[i].values == chosen[selected[i].pk]
    requires forall pk :: pk in chosen && CanRewrite(env, def, sets, chosen[pk]) ==> SeparableIn(env, secs, def, Rewritten(env, def, sets, chosen[pk]))
    ensures forall i :: 0 <= i < |items| ==> SeparableIn(env, secs, def, items[i].newRow)
  {
    hide CanRewrite, SeparableIn, Rewritten;
    forall i | 0 <= i < |items| ensures SeparableIn(env, secs, def, items[i].newRow) {
      assert ItemFrom(env, def, sets, items[i], selected[i]);
    }
  }
}
