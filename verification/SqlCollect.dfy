/**
 `collectRows`: the rows a WHERE clause selects, by primary key, by a secondary or path
 index, or by a scan of the table.
 */
module SqlCollect {
  import opened Strings
  import opened BTreeModel
  import opened Row
  import opened Keys
  import opened Secondary
  import opened SqlModel
  import opened SqlAnswers
  import opened SqlIndexes
  import opened SqlStore
  import opened Scan

  /** `rowItem` */
  datatype RowItem = RowItem(pk: PkKey, rowKey: Str, values: seq<Value>)

  datatype SecIdx = SecIdx(def: IndexDef, entries: seq<Entry>)

  predicate ItemOf(it: RowItem, name: Str, rows: Rows)
  {
    it.pk in rows && it.values == rows[it.pk] && it.rowKey == RowKey(name, it.pk)
  }

  predicate DistinctItems(items: seq<RowItem>)
  {
    forall i, j :: 0 <= i < j < |items| ==> items[i].pk != items[j].pk
  }

  /** The item of row `pk` is listed. */
  predicate Listed(items: seq<RowItem>, pk: PkKey)
  {
    exists i :: 0 <= i < |items| && items[i].pk == pk
  }

  /** The items are the rows, once each, with their keys and values. */
  ghost predicate Lists(items: seq<RowItem>, name: Str, rows: Rows)
  {
    && (forall i :: 0 <= i < |items| ==> ItemOf(items[i], name, rows))
    && DistinctItems(items)
    && (forall pk :: pk in rows ==> Listed(items, pk))
  }

  ghost predicate Answers(r: Option<seq<RowItem>>, name: Str, a: Answer)
  {
    match a case Failed => r.None? case Selected(rows) => r.Some? && Lists(r.value, name, rows)
  }

  lemma {:induction false} ListedMore(items: seq<RowItem>, it: RowItem)
    ensures forall pk :: Listed(items, pk) || pk == it.pk ==> Listed(items + [it], pk)
  {
    forall pk | Listed(items, pk) || pk == it.pk ensures Listed(items + [it], pk) {
      if Listed(items, pk) {
        var i :| 0 <= i < |items| && items[i].pk == pk;
        assert (items + [it])[i].pk == pk;
      } else {
        assert (items + [it])[|items|].pk == pk;
      }
    }
  }

  // ------------------------------------------------------------ primary key

  /** The primary-key path: one index lookup. */
  method PkRows(env: Env, kv: Kv, def: TableDef, p: nat, index: seq<Entry>, w: Pred) returns (r: Option<seq<RowItem>>)
    requires TableStored(kv, def) && p < |def.columns|
    requires PkIndexed(def.name, RowsOf(kv, def.name), index)
    ensures Answers(r, def.name, PkAnswer(env, def, p, RowsOf(kv, def.name), w))
  {
    hide ExprToValue, RowKey, RowsOf, RowOk, UnpackRow, ToMap, SortedEntries;
    ghost var rows := RowsOf(kv, def.name);
    RowsOfKeys(kv, def.name);
    var v := ToValue(env, w.value, def.columns[p].typ);
    if v.None? {
      return None;
    }
    var k := KeyFor(def.columns[p].typ, v.value);
    FindIsMapLookup(index, k);
    var rk := Find(index, k);
    if rk.None? {
      return Some([]);
    }
    assert k in rows && rk.value == RowKey(def.name, k);
    StoredRowsOk(kv, def);
    StoredAt(kv, def, k);
    var vals := UnpackRow(kv[rk.value]);
    r := Some([RowItem(k, rk.value, vals.value)]);
    assert Listed(r.value, k) by { assert r.value[0].pk == k; }
  }

  /** A row of the table is in the store and unpacks to its values. */
  lemma {:induction false} StoredAt(kv: Kv, def: TableDef, pk: PkKey)
    requires TableStored(kv, def) && pk in RowsOf(kv, def.name)
    ensures RowKey(def.name, pk) in kv && UnpackRow(kv[RowKey(def.name, pk)]) == Some(RowsOf(kv, def.name)[pk])
    ensures ParseRowKey(def.name, RowKey(def.name, pk)) == Some(pk)
  {
    hide RowKey, RowsOf, RowOk, UnpackRow, ParseRowKey, RowPrefix, HasPrefix;
    RowsOfKeys(kv, def.name);
    RowKeyRoundTrip(def.name, pk);
    assert RowAt(def, RowKey(def.name, pk), kv[RowKey(def.name, pk)]);
  }

  // -------------------------------------------------------- secondary index

  /** The secondary or path index path: fetch every row the lookup names. */
  method IndexRows(env: Env, kv: Kv, def: TableDef, index: seq<Entry>, w: Pred) returns (r: Option<seq<RowItem>>)
    requires TableStored(kv, def)
    requires SecIndexed(env, def, w.column, PredPath(w), RowsOf(kv, def.name), index)
    ensures Answers(r, def.name, IndexAnswer(env, def, RowsOf(kv, def.name), w))
  {
    hide ExprToValue, RowKey, RowsOf, UnpackRow, ParseRowKey, WithPrefix, Hit, TableStored, SecIndexed, RowPrefix, HasPrefix, CompositePrefix;
    ghost var rows := RowsOf(kv, def.name);
    var v := None;
    if w.OnPath? {
      v := PredValue(w.value);
    } else {
      var ci := ColumnIndex(def, w.column);
      if ci.Some? {
        v := ToValue(env, w.value, def.columns[ci.value].typ);
      }
    }
    if v.None? {
      return None;
    }
    LookupFindsRows(env, def, w.column, PredPath(w), rows, index, v.value);
    var rks := WithPrefix(index, CompositePrefix(v.value));
    ghost var want := IndexAnswer(env, def, rows, w).rows;
    var items := FetchAll(kv, def, rks, want);
    r := Some(items);
  }

  /** The loop over the row keys a lookup returned. */
  method FetchAll(kv: Kv, def: TableDef, rks: seq<Str>, ghost want: Rows) returns (out: seq<RowItem>)
    requires TableStored(kv, def) && DistinctKeys(rks)
    requires forall pk :: pk in want ==> pk in RowsOf(kv, def.name) && want[pk] == RowsOf(kv, def.name)[pk]
    requires forall rk :: rk in rks ==> exists pk :: pk in want && rk == RowKey(def.name, pk)
    requires forall pk :: pk in want ==> RowKey(def.name, pk) in rks
    ensures Lists(out, def.name, want)
  {
    hide RowKey, RowsOf, UnpackRow, ParseRowKey, TableStored, RowPrefix, HasPrefix;
    out := [];
    var i := 0;
    while i < |rks|
      invariant i <= |rks| && |out| == i
      invariant forall j :: 0 <= j < i ==> ItemOf(out[j], def.name, want) && out[j].rowKey == rks[j]
    {
      var rk := rks[i];
      assert rk in rks;
      ghost var pk :| pk in want && rk == RowKey(def.name, pk);
      StoredAt(kv, def, pk);
      out := out + [RowItem(ParseRowKey(def.name, rk).value, rk, UnpackRow(kv[rk]).value)];
      i := i + 1;
    }
    forall pk | pk in want ensures Listed(out, pk) {
      var j :| 0 <= j < |rks| && rks[j] == RowKey(def.name, pk);
      RowKeyInjective(def.name, out[j].pk, pk);
    }
  }

  // --------------------------------------------------------------- the scan

  /** `scanPrefix` in a transaction that has written nothing: the visible pairs in key order. */
  method Pairs(kv: Kv, prefix: Str) returns (ps: seq<Pair>)
    ensures SortedPairs(ps) && DistinctPairs(ps)
    ensures forall p: Pair :: p in ps <==> HasPrefix(p.key, prefix) && p.key in kv && kv[p.key] == p.value
  {
    hide HasPrefix, StrLess;
    var rest := kv.Keys;
    var out: seq<Pair> := [];
    while rest != {}
      invariant rest <= kv.Keys && DistinctPairs(out)
      invariant forall p: Pair :: p in out <==> HasPrefix(p.key, prefix) && p.key in kv && p.key !in rest && kv[p.key] == p.value
      decreases |rest|
    {
      var k :| k in rest;
      rest := rest - {k};
      if HasPrefix(k, prefix) {
        assert forall p: Pair :: p in out ==> p.key != k;
        out := out + [Pair(k, kv[k])];
      }
    }
    ps := SortPairs(out);
    forall i, j | 0 <= i < j < |ps| ensures ps[i].key != ps[j].key {
      StrLessTotal(ps[i].key, ps[j].key);
    }
  }

  /** The pairs under a table's row prefix are its rows. */
  ghost predicate PairsOf(ps: seq<Pair>, kv: Kv, def: TableDef)
  {
    && DistinctPairs(ps)
    && forall p: Pair :: p in ps <==> HasPrefix(p.key, RowPrefix(def.name)) && p.key in kv && kv[p.key] == p.value
  }

  lemma {:induction false} PairIsRow(ps: seq<Pair>, kv: Kv, def: TableDef, i: nat)
    requires PairsOf(ps, kv, def) && TableStored(kv, def) && i < |ps|
    ensures ParseRowKey(def.name, ps[i].key).Some? && UnpackRow(ps[i].value).Some?
    ensures var pk := ParseRowKey(def.name, ps[i].key).value;
            ps[i].key == RowKey(def.name, pk) && pk in RowsOf(kv, def.name) && UnpackRow(ps[i].value).value == RowsOf(kv, def.name)[pk]
  {
    hide RowKey, RowsOf, RowOk, UnpackRow, ParseRowKey, RowPrefix, HasPrefix;
    assert ps[i] in ps;
    assert RowAt(def, ps[i].key, kv[ps[i].key]);
    RowsOfKeys(kv, def.name);
  }

  lemma {:induction false} RowHasPair(ps: seq<Pair>, kv: Kv, def: TableDef, pk: PkKey) returns (i: nat)
    requires PairsOf(ps, kv, def) && pk in RowsOf(kv, def.name)
    ensures i < |ps| && ps[i].key == RowKey(def.name, pk)
  {
    hide RowKey, RowsOf, RowPrefix, HasPrefix;
    RowsOfKeys(kv, def.name);
    RowKeyRoundTrip(def.name, pk);
    var p := Pair(RowKey(def.name, pk), kv[RowKey(def.name, pk)]);
    assert p in ps;
    i :| 0 <= i < |ps| && ps[i] == p;
  }

  /** The rows of the first `n` pairs. */
  ghost predicate AmongFirst(ps: seq<Pair>, n: nat, def: TableDef, pk: PkKey)
    requires n <= |ps|
  {
    exists i :: 0 <= i < n && ps[i].key == RowKey(def.name, pk)
  }

  lemma {:induction false} AmongNext(ps: seq<Pair>, n: nat, def: TableDef, next: PkKey, pk: PkKey)
    requires n < |ps| && ps[n].key == RowKey(def.name, next)
    ensures AmongFirst(ps, n + 1, def, pk) <==> AmongFirst(ps, n, def, pk) || pk == next
  {
    hide RowKey;
    if AmongFirst(ps, n + 1, def, pk) && !AmongFirst(ps, n, def, pk) {
      var i :| 0 <= i < n + 1 && ps[i].key == RowKey(def.name, pk);
      RowKeyInjective(def.name, pk, next);
    }
    if AmongFirst(ps, n, def, pk) {
      var i :| 0 <= i < n && ps[i].key == RowKey(def.name, pk);
      assert 0 <= i < n + 1;
    }
  }

  /** What the scan has collected after `n` pairs. */
  ghost predicate Scanned(env: Env, def: TableDef, rows: Rows, where: seq<Pred>, ps: seq<Pair>, n: nat, out: seq<RowItem>)
    requires n <= |ps| && RowsOk(def, rows)
  {
    && DistinctItems(out)
    && (forall j :: 0 <= j < |out| ==> ItemOf(out[j], def.name, rows) && MatchAll(env, def, rows[out[j].pk], where) == Yes && AmongFirst(ps, n, def, out[j].pk))
    && (forall pk :: pk in rows && AmongFirst(ps, n, def, pk) ==> MatchAll(env, def, rows[pk], where) != MatchError)
    && (forall pk :: pk in rows && AmongFirst(ps, n, def, pk) && MatchAll(env, def, rows[pk], where) == Yes ==> Listed(out, pk))
  }

  lemma {:induction false} ScannedNext(env: Env, def: TableDef, rows: Rows, where: seq<Pred>, ps: seq<Pair>, n: nat, out: seq<RowItem>, it: RowItem)
    requires n < |ps| && DistinctPairs(ps) && RowsOk(def, rows) && Scanned(env, def, rows, where, ps, n, out)
    requires ItemOf(it, def.name, rows) && ps[n].key == it.rowKey && MatchAll(env, def, rows[it.pk], where) != MatchError
    ensures Scanned(env, def, rows, where, ps, n + 1, if MatchAll(env, def, rows[it.pk], where) == Yes then out + [it] else out)
  {
    hide RowKey, MatchAll, RowOk, Listed, AmongFirst;
    forall pk ensures AmongFirst(ps, n + 1, def, pk) <==> AmongFirst(ps, n, def, pk) || pk == it.pk {
      AmongNext(ps, n, def, it.pk, pk);
    }
    NotYetAmong(ps, n, def, it.pk);
    ListedMore(out, it);
    ItemsMore(out, it);
  }

  lemma {:induction false} NotYetAmong(ps: seq<Pair>, n: nat, def: TableDef, pk: PkKey)
    requires n < |ps| && DistinctPairs(ps) && ps[n].key == RowKey(def.name, pk)
    ensures !AmongFirst(ps, n, def, pk)
  {
    hide RowKey;
  }

  lemma {:induction false} ItemsMore(items: seq<RowItem>, it: RowItem)
    requires DistinctItems(items) && forall i :: 0 <= i < |items| ==> items[i].pk != it.pk
    ensures DistinctItems(items + [it])
  {
  }

  lemma {:induction false} ScannedAll(env: Env, kv: Kv, def: TableDef, where: seq<Pred>, ps: seq<Pair>, out: seq<RowItem>)
    requires PairsOf(ps, kv, def) && RowsOk(def, RowsOf(kv, def.name))
    requires Scanned(env, def, RowsOf(kv, def.name), where, ps, |ps|, out)
    ensures Answers(Some(out), def.name, ScanAnswer(env, def, RowsOf(kv, def.name), where))
  {
    hide RowKey, MatchAll, RowOk, Listed, RowsOf, PairsOf;
    var rows := RowsOf(kv, def.name);
    forall pk | pk in rows ensures AmongFirst(ps, |ps|, def, pk) {
      var i := RowHasPair(ps, kv, def, pk);
    }
  }

  /** The table scan. */
  method ScanRows(env: Env, kv: Kv, def: TableDef, where: seq<Pred>) returns (r: Option<seq<RowItem>>)
    requires TableStored(kv, def) && RowsOk(def, RowsOf(kv, def.name))
    ensures Answers(r, def.name, ScanAnswer(env, def, RowsOf(kv, def.name), where))
  {
    hide RowKey, RowsOf, UnpackRow, ParseRowKey, TableStored, RowPrefix, HasPrefix, MatchAll, RowOk, Scanned, SortedPairs, DistinctPairs;
    ghost var rows := RowsOf(kv, def.name);
    RowLengths(def, rows);
    var ps := Pairs(kv, RowPrefix(def.name));
    var out: seq<RowItem> := [];
    var i := 0;
    NothingScanned(env, def, rows, where, ps);
    while i < |ps|
      invariant i <= |ps| && Scanned(env, def, rows, where, ps, i, out)
    {
      PairIsRow(ps, kv, def, i);
      var vals := UnpackRow(ps[i].value).value;
      var ok := MatchWhere(env, def, vals, where);
      if ok == MatchError {
        return None;
      }
      var it := RowItem(ParseRowKey(def.name, ps[i].key).value, ps[i].key, vals);
      ScannedNext(env, def, rows, where, ps, i, out, it);
      if ok == Yes {
        out := out + [it];
      }
      i := i + 1;
    }
    ScannedAll(env, kv, def, where, ps, out);
    r := Some(out);
  }

  lemma {:induction false} NothingScanned(env: Env, def: TableDef, rows: Rows, where: seq<Pred>, ps: seq<Pair>)
    requires RowsOk(def, rows)
    ensures Scanned(env, def, rows, where, ps, 0, [])
  {
  }

  // ------------------------------------------------------------ the choice

  /** The index can answer the predicate. */
  predicate Serves(idef: IndexDef, def: TableDef, w: Pred)
  {
    && idef.table == def.name
    && if w.OnColumn? then idef.path == [] && idef.column == w.column
       else idef.path == w.path && idef.column == w.column
  }

  ghost predicate ByPk(def: TableDef, p: nat, where: seq<Pred>)
    requires p < |def.columns|
  {
    |where| == 1 && where[0].OnColumn? && where[0].column == def.columns[p].name
  }

  ghost predicate ByIndex(def: TableDef, secs: map<Str, SecIdx>, where: seq<Pred>)
  {
    |where| == 1 && exists n :: n in secs && Serves(secs[n].def, def, where[0])
  }

  /** What `collectRows` answers. */
  ghost function CollectAnswer(env: Env, def: TableDef, secs: map<Str, SecIdx>, rows: Rows, where: seq<Pred>): Answer
    requires RowsOk(def, rows)
  {
    match PkIndex(def)
    case None => Failed
    case Some(p) =>
      if ByPk(def, p, where) then PkAnswer(env, def, p, rows, where[0])
      else if ByIndex(def, secs, where) then IndexAnswer(env, def, rows, where[0])
      else ScanAnswer(env, def, rows, where)
  }

  /** Which path answers: a single equality on the key column by the primary-key index, one
      that some index of the table serves by that index, everything else by the scan. */
  lemma {:induction false} ChoiceIs(env: Env, def: TableDef, secs: map<Str, SecIdx>, rows: Rows, w: Pred)
    requires RowsOk(def, rows) && PkIndex(def).Some?
    ensures w.OnColumn? && w.column == def.columns[PkIndex(def).value].name ==>
              CollectAnswer(env, def, secs, rows, [w]) == PkAnswer(env, def, PkIndex(def).value, rows, w)
    ensures forall n :: !(w.OnColumn? && w.column == def.columns[PkIndex(def).value].name) && n in secs && secs[n].def.table == def.name &&
                        secs[n].def.column == w.column && secs[n].def.path == PredPath(w) ==>
              CollectAnswer(env, def, secs, rows, [w]) == IndexAnswer(env, def, rows, w)
    ensures forall where: seq<Pred> :: |where| != 1 ==> CollectAnswer(env, def, secs, rows, where) == ScanAnswer(env, def, rows, where)
  {
    hide RowsOk, PkAnswer, IndexAnswer, ScanAnswer;
    forall n | n in secs && secs[n].def.table == def.name && secs[n].def.column == w.column && secs[n].def.path == PredPath(w)
      ensures Serves(secs[n].def, def, w)
    {
    }
  }

  /** A secondary index of the table agrees with the table's rows. */
  ghost predicate SecOk(env: Env, kv: Kv, def: TableDef, si: SecIdx)
  {
    && Fit(env, def, si.def.column, si.def.path, RowsOf(kv, def.name))
    && SecIndexed(env, def, si.def.column, si.def.path, RowsOf(kv, def.name), si.entries)
  }

  ghost predicate SecsOf(env: Env, kv: Kv, def: TableDef, secs: map<Str, SecIdx>)
  {
    forall n :: n in secs && secs[n].def.table == def.name ==> SecOk(env, kv, def, secs[n])
  }

  /** A single equality with a literal of the right type that is not NULL; any other clause
      is scanned anyway. */
  ghost predicate GoodWhere(env: Env, def: TableDef, where: seq<Pred>)
  {
    |where| == 1 ==> GoodLiteral(env, def, where[0]) && (where[0].OnPath? ==> where[0].path != [])
  }

  /** If an index other than the primary one answers, no row passes its prefix test falsely. */
  ghost predicate NoFalseHits(env: Env, def: TableDef, secs: map<Str, SecIdx>, rows: Rows, where: seq<Pred>)
  {
    match PkIndex(def)
    case None => true
    case Some(p) => !ByPk(def, p, where) && ByIndex(def, secs, where) ==> NoFalseRow(env, def, where[0], rows)
  }

  /** Whichever index answers, the rows are those of the table scan, exactly if no row passes
      the prefix test falsely. */
  lemma {:induction false} IndexesAgreeWithScan(env: Env, kv: Kv, def: TableDef, secs: map<Str, SecIdx>, where: seq<Pred>)
    requires TableOk(def) && PkIndex(def).Some? && RowsOk(def, RowsOf(kv, def.name)) && SecsOf(env, kv, def, secs)
    requires GoodWhere(env, def, where)
    ensures CollectAnswer(env, def, secs, RowsOf(kv, def.name), where) == ScanAnswer(env, def, RowsOf(kv, def.name), where)
            <==> NoFalseHits(env, def, secs, RowsOf(kv, def.name), where)
  {
    hide RowsOf, RowsOk, ExprToValue, SecIndexed, IndexOk, SeparableRows, PkAnswer, IndexAnswer, ScanAnswer, PkIndex, TableOk, NoFalseRow;
    var rows := RowsOf(kv, def.name);
    var p := PkIndex(def).value;
    if |where| == 1 {
      assert where == [where[0]];
      if ByPk(def, p, where) {
        PkColumn(def, p);
        PkPathAgreesIff(env, def, p, rows, where[0]);
      } else if ByIndex(def, secs, where) {
        var n :| n in secs && Serves(secs[n].def, def, where[0]);
        IndexPathAgreesIff(env, def, rows, where[0]);
      }
    }
  }

  /** Separator-free literals and texts have no false hits. */
  lemma {:induction false} NulFreeNoFalseHits(env: Env, def: TableDef, secs: map<Str, SecIdx>, rows: Rows, where: seq<Pred>)
    requires GoodWhere(env, def, where)
    requires |where| == 1 ==>
               && NulFree(Sought(env, def, where[0]).value)
               && NulFreeRows(env, def, where[0].column, PredPath(where[0]), rows)
    ensures NoFalseHits(env, def, secs, rows, where)
  {
    hide NulFree, Sought, NulFreeRows, NoFalseRow, PkIndex;
    if |where| == 1 { NulFreeNoFalse(env, def, rows, where[0]); }
  }

  /** The search for an index that serves the predicate, in whatever order the map gives. */
  method ChooseIndex(def: TableDef, secs: map<Str, SecIdx>, w: Pred) returns (r: Option<Str>)
    ensures match r
            case Some(n) => n in secs && Serves(secs[n].def, def, w)
            case None => forall n :: n in secs ==> !Serves(secs[n].def, def, w)
  {
    hide Serves;
    var rest := secs.Keys;
    while rest != {}
      invariant rest <= secs.Keys && forall n :: n in secs && n !in rest ==> !Serves(secs[n].def, def, w)
      decreases |rest|
    {
      var n :| n in rest;
      if Serves(secs[n].def, def, w) {
        return Some(n);
      }
      rest := rest - {n};
    }
    r := None;
  }

  /** `collectRows` */
  method CollectRows(env: Env, kv: Kv, def: TableDef, index: seq<Entry>, secs: map<Str, SecIdx>, where: seq<Pred>)
    returns (r: Option<seq<RowItem>>)
    requires TableStored(kv, def) && RowsOk(def, RowsOf(kv, def.name))
    requires PkIndexed(def.name, RowsOf(kv, def.name), index) && SecsOf(env, kv, def, secs)
    ensures Answers(r, def.name, CollectAnswer(env, def, secs, RowsOf(kv, def.name), where))
    ensures TableOk(def) && PkIndex(def).Some? && GoodWhere(env, def, where) && NoFalseHits(env, def, secs, RowsOf(kv, def.name), where) ==>
              Answers(r, def.name, ScanAnswer(env, def, RowsOf(kv, def.name), where))
  {
    hide RowsOf, RowsOk, TableStored, PkIndexed, SecIndexed, Fit, PkIndex, TableOk, GoodWhere, NoFalseHits, PkAnswer, IndexAnswer, ScanAnswer, Answers;
    if PkIndex(def).Some? && TableOk(def) && GoodWhere(env, def, where) {
      IndexesAgreeWithScan(env, kv, def, secs, where);
    }
    var p := PkIndex(def);
    if p.None? {
      FailedAnswer(def.name);
      return None;
    }
    if |where| == 1 && where[0].OnColumn? && where[0].column == def.columns[p.value].name {
      r := PkRows(env, kv, def, p.value, index, where[0]);
      return;
    }
    if |where| == 1 {
      var n := ChooseIndex(def, secs, where[0]);
      if n.Some? {
        r := IndexRows(env, kv, def, secs[n.value].entries, where[0]);
        return;
      }
    }
    r := ScanRows(env, kv, def, where);
  }

  lemma {:induction false} FailedAnswer(name: Str)
    ensures Answers(None, name, Failed)
  {
  }
}
