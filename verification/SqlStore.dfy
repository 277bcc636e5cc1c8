/**
 Rows in the key-value store: which rows a table has, and how a write to one row key
 changes that.
 */
module SqlStore {
  import opened Strings
  import opened BTreeModel
  import opened Row
  import opened Keys
  import opened SqlModel

  /** The visible keys and values of the store. */
  type Kv = map<Str, Str>

  ghost function PksOf(kv: Kv, t: Str): set<PkKey>
  {
    set key | key in kv && ParseRowKey(t, key).Some? && key == RowKey(t, ParseRowKey(t, key).value) :: ParseRowKey(t, key).value
  }

  ghost function Unpacked(page: Str): seq<Value>
  {
    match UnpackRow(page) case Some(vals) => vals case None => []
  }

  ghost function RowValues(kv: Kv, key: Str): seq<Value>
  {
    if key in kv then Unpacked(kv[key]) else []
  }

  /** The rows of table `t`. */
  ghost function RowsOf(kv: Kv, t: Str): Rows
  {
    map pk | pk in PksOf(kv, t) :: RowValues(kv, RowKey(t, pk))
  }

  lemma {:induction false} RowsOfKeys(kv: Kv, t: Str)
    ensures forall pk :: pk in RowsOf(kv, t) <==> RowKey(t, pk) in kv
    ensures forall pk :: pk in RowsOf(kv, t) ==> RowsOf(kv, t)[pk] == RowValues(kv, RowKey(t, pk))
  {
    hide RowKey, ParseRowKey;
    forall pk ensures pk in RowsOf(kv, t) <==> RowKey(t, pk) in kv {
      RowKeyRoundTrip(t, pk);
    }
  }

  /** Writing a row changes that row of that table and nothing else. */
  lemma {:induction false} RowsPut(kv: Kv, t: Str, pk: PkKey, page: Str)
    ensures RowsOf(kv[RowKey(t, pk) := page], t) == RowsOf(kv, t)[pk := Unpacked(page)]
  {
    hide RowKey, RowsOf, Unpacked;
    var kv' := kv[RowKey(t, pk) := page];
    RowsOfKeys(kv, t);
    RowsOfKeys(kv', t);
    forall q | q in RowsOf(kv', t) ensures q in RowsOf(kv, t)[pk := Unpacked(page)] && RowsOf(kv', t)[q] == RowsOf(kv, t)[pk := Unpacked(page)][q] {
      if q != pk && RowKey(t, q) == RowKey(t, pk) { RowKeyInjective(t, q, pk); }
    }
  }

  lemma {:induction false} RowsDel(kv: Kv, t: Str, pk: PkKey)
    ensures RowsOf(kv - {RowKey(t, pk)}, t) == RowsOf(kv, t) - {pk}
  {
    hide RowKey, RowsOf, Unpacked;
    var kv' := kv - {RowKey(t, pk)};
    RowsOfKeys(kv, t);
    RowsOfKeys(kv', t);
    forall q | q in RowsOf(kv, t) && q != pk ensures q in RowsOf(kv', t) {
      if RowKey(t, q) == RowKey(t, pk) { RowKeyInjective(t, q, pk); }
    }
  }

  lemma {:induction false} OtherRow(t: Str, u: Str, pk: PkKey, qk: PkKey)
    requires TableName(t) && TableName(u) && t != u
    ensures RowKey(t, pk) != RowKey(u, qk)
  {
    hide RowKey, RowPrefix, HasPrefix;
    RowKeyRoundTrip(t, pk);
    RowKeyRoundTrip(u, qk);
    if RowKey(t, pk) == RowKey(u, qk) { TablesDisjoint(t, u, RowKey(t, pk)); }
  }

  /** Stores that agree on the row keys of `u` have the same rows of `u`. */
  lemma {:induction false} SameRows(kv: Kv, kv': Kv, u: Str)
    requires forall qk :: RowKey(u, qk) in kv <==> RowKey(u, qk) in kv'
    requires forall qk :: RowKey(u, qk) in kv ==> kv[RowKey(u, qk)] == kv'[RowKey(u, qk)]
    ensures RowsOf(kv', u) == RowsOf(kv, u)
  {
    hide RowKey, RowsOf, Unpacked;
    RowsOfKeys(kv, u);
    RowsOfKeys(kv', u);
  }

  lemma {:induction false} RowsPutOther(kv: Kv, t: Str, pk: PkKey, page: Str, u: Str)
    requires TableName(t) && TableName(u) && t != u
    ensures RowsOf(kv[RowKey(t, pk) := page], u) == RowsOf(kv, u)
  {
    hide RowKey, RowsOf;
    forall qk ensures RowKey(u, qk) != RowKey(t, pk) { OtherRow(t, u, pk, qk); }
    SameRows(kv, kv[RowKey(t, pk) := page], u);
  }

  lemma {:induction false} RowsDelOther(kv: Kv, t: Str, pk: PkKey, u: Str)
    requires TableName(t) && TableName(u) && t != u
    ensures RowsOf(kv - {RowKey(t, pk)}, u) == RowsOf(kv, u)
  {
    hide RowKey, RowsOf;
    forall qk ensures RowKey(u, qk) != RowKey(t, pk) { OtherRow(t, u, pk, qk); }
    SameRows(kv, kv - {RowKey(t, pk)}, u);
  }

  // --------------------------------------------------------- what is stored

  /** `key` is a row key of the table and `page` a row of it. */
  ghost predicate RowAt(def: TableDef, key: Str, page: Str)
  {
    && ParseRowKey(def.name, key).Some?
    && key == RowKey(def.name, ParseRowKey(def.name, key).value)
    && UnpackRow(page).Some?
    && RowOk(def, ParseRowKey(def.name, key).value, UnpackRow(page).value)
  }

  /** Everything under the table's row prefix is a row of it. */
  ghost predicate TableStored(kv: Kv, def: TableDef)
  {
    forall key :: key in kv && HasPrefix(key, RowPrefix(def.name)) ==> RowAt(def, key, kv[key])
  }

  ghost predicate NoRows(kv: Kv, t: Str)
  {
    forall key :: key in kv ==> !HasPrefix(key, RowPrefix(t))
  }

  /** Every row prefix is that of a table and holds its rows only. */
  ghost predicate StoreOk(kv: Kv, tables: map<Str, TableDef>)
  {
    && (forall t :: t in tables ==> tables[t].name == t && TableOk(tables[t]) && TableStored(kv, tables[t]))
    && (forall t :: TableName(t) && t !in tables ==> NoRows(kv, t))
  }

  lemma {:induction false} StoredRowsOk(kv: Kv, def: TableDef)
    requires TableStored(kv, def)
    ensures RowsOk(def, RowsOf(kv, def.name))
  {
    hide RowKey, ParseRowKey, RowsOf, RowOk, UnpackRow, RowPrefix, HasPrefix;
    RowsOfKeys(kv, def.name);
    forall pk | pk in RowsOf(kv, def.name) ensures RowOk(def, pk, RowsOf(kv, def.name)[pk]) {
      RowKeyRoundTrip(def.name, pk);
      assert RowAt(def, RowKey(def.name, pk), kv[RowKey(def.name, pk)]);
    }
  }

  lemma {:induction false} NoRowsEmpty(kv: Kv, t: Str)
    requires NoRows(kv, t)
    ensures RowsOf(kv, t) == map[]
  {
    hide RowKey, RowsOf, RowPrefix, HasPrefix;
    RowsOfKeys(kv, t);
    forall pk ensures pk !in RowsOf(kv, t) { RowKeyRoundTrip(t, pk); }
  }

  lemma {:induction false} StorePut(kv: Kv, tables: map<Str, TableDef>, t: Str, pk: PkKey, page: Str)
    requires StoreOk(kv, tables) && t in tables
    requires UnpackRow(page).Some? && RowOk(tables[t], pk, UnpackRow(page).value)
    ensures StoreOk(kv[RowKey(t, pk) := page], tables)
  {
    hide RowKey, ParseRowKey, RowOk, UnpackRow, RowPrefix, HasPrefix, TableName;
    var key := RowKey(t, pk);
    var kv' := kv[key := page];
    RowKeyRoundTrip(t, pk);
    forall u | TableName(u) && HasPrefix(key, RowPrefix(u)) ensures u == t {
      TablesDisjoint(t, u, key);
    }
    assert RowAt(tables[t], key, page);
    forall u | u in tables ensures TableStored(kv', tables[u]) {
      forall k | k in kv' && HasPrefix(k, RowPrefix(u)) ensures RowAt(tables[u], k, kv'[k]) {
        if k != key { assert k in kv && TableStored(kv, tables[u]); }
      }
    }
    forall u | TableName(u) && u !in tables ensures NoRows(kv', u) {
      forall k | k in kv' ensures !HasPrefix(k, RowPrefix(u)) {
        if k != key { assert k in kv && NoRows(kv, u); }
      }
    }
  }

  lemma {:induction false} StoreLess(kv: Kv, kv': Kv, tables: map<Str, TableDef>)
    requires StoreOk(kv, tables) && kv'.Keys <= kv.Keys && forall k :: k in kv' ==> kv'[k] == kv[k]
    ensures StoreOk(kv', tables)
  {
    hide RowAt, RowPrefix, HasPrefix, TableName;
    forall t | t in tables ensures TableStored(kv', tables[t]) {
      assert TableStored(kv, tables[t]);
    }
    forall t | TableName(t) && t !in tables ensures NoRows(kv', t) {
      assert NoRows(kv, t);
    }
  }
}
