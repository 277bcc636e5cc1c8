/**
 The contents of primary and secondary indexes, as the sorted entries of their B+trees,
 against the rows of the table.
 */
module SqlIndexes {
  import opened Strings
  import opened BTreeModel
  import opened Row
  import opened Keys
  import opened Secondary
  import opened SqlModel
  import opened SqlAnswers

  // ----------------------------------------------------------- sorted entries

  lemma {:induction false} PutIn(es: seq<Entry>, k: PkKey, v: Str)
    requires SortedEntries(es)
    ensures SortedEntries(PutSorted(es, k, v))
    ensures forall e :: e in PutSorted(es, k, v) ==> e in es || e == Entry(k, v)
  {
    hide Less;
    Order();
    if es != [] && es[0].key != k && !Less(k, es[0].key) {
      SortedTail(es);
      PutIn(es[1..], k, v);
      Prepended(es[0], PutSorted(es[1..], k, v));
    } else if es != [] && Less(k, es[0].key) {
      Prepended(Entry(k, v), es);
    } else if es != [] {
      SortedTail(es);
      Prepended(Entry(k, v), es[1..]);
    }
  }

  lemma {:induction false} Prepended(e: Entry, es: seq<Entry>)
    requires SortedEntries(es) && forall x :: x in es ==> Less(e.key, x.key)
    ensures SortedEntries([e] + es)
  {
    hide Less;
    var r := [e] + es;
    forall i, j | 0 <= i < j < |r| ensures Less(r[i].key, r[j].key) {
      assert r[j] == es[j - 1];
      if i > 0 { assert r[i] == es[i - 1]; }
    }
  }

  lemma {:induction false} DropIn(es: seq<Entry>, k: PkKey)
    requires SortedEntries(es)
    ensures SortedEntries(DropKey(es, k))
    ensures forall e :: e in DropKey(es, k) ==> e in es
  {
    hide Less;
    if es != [] {
      SortedTail(es);
      if es[0].key != k {
        DropIn(es[1..], k);
        Prepended(es[0], DropKey(es[1..], k));
      }
    }
  }

  lemma {:induction false} ToMapAt(es: seq<Entry>, i: nat)
    requires SortedEntries(es) && i < |es|
    ensures es[i].key in ToMap(es) && ToMap(es)[es[i].key] == es[i].val
  {
    hide Less;
    Order();
    if i > 0 {
      SortedTail(es);
      ToMapAt(es[1..], i - 1);
    }
  }

  /** Sorted entries are determined by the map they stand for. */
  lemma {:induction false} SortedUnique(a: seq<Entry>, b: seq<Entry>)
    requires SortedEntries(a) && SortedEntries(b) && ToMap(a) == ToMap(b)
    ensures a == b
  {
    hide Less, ToMap;
    Order();
    ToMapKeys(a);
    ToMapKeys(b);
    assert a != [] ==> a[0].key in ToMap(a);
    assert b != [] ==> b[0].key in ToMap(b);
    if a != [] && b != [] {
      ToMapAt(a, 0);
      ToMapAt(b, 0);
      assert a[0].key == b[0].key by {
        var i :| 0 <= i < |a| && a[i].key == b[0].key;
        var j :| 0 <= j < |b| && b[j].key == a[0].key;
      }
      TailMap(a);
      TailMap(b);
      SortedTail(a);
      SortedTail(b);
      SortedUnique(a[1..], b[1..]);
      assert a == [a[0]] + a[1..] && b == [b[0]] + b[1..];
    }
  }

  lemma {:induction false} TailMap(es: seq<Entry>)
    requires SortedEntries(es) && es != []
    ensures ToMap(es[1..]) == ToMap(es) - {es[0].key}
  {
    hide Less;
    Order();
    SortedTail(es);
  }

  // ------------------------------------------------------------ primary index

  ghost function PkMap(name: Str, rows: Rows): map<PkKey, Str>
  {
    map pk | pk in rows :: RowKey(name, pk)
  }

  /** The primary-key index of a table holds exactly its rows. */
  ghost predicate PkIndexed(name: Str, rows: Rows, es: seq<Entry>)
  {
    SortedEntries(es) && ToMap(es) == PkMap(name, rows)
  }

  lemma {:induction false} PkIndexedPut(name: Str, rows: Rows, es: seq<Entry>, pk: PkKey, vals: seq<Value>)
    requires PkIndexed(name, rows, es)
    ensures PkIndexed(name, rows[pk := vals], PutSorted(es, pk, RowKey(name, pk)))
  {
    hide Less, SortedEntries, PutSorted, ToMap, RowKey;
    PutIn(es, pk, RowKey(name, pk));
    PutIsMapUpdate(es, pk, RowKey(name, pk));
  }

  lemma {:induction false} PkIndexedDrop(name: Str, rows: Rows, es: seq<Entry>, pk: PkKey)
    requires PkIndexed(name, rows, es)
    ensures PkIndexed(name, rows - {pk}, DropKey(es, pk))
  {
    hide Less, SortedEntries, DropKey, ToMap, RowKey;
    DropIn(es, pk);
    DropIsMapRemoval(es, pk);
  }

  /** The index is a function of the keys of the rows. */
  lemma {:induction false} PkIndexedUnique(name: Str, rows: Rows, a: seq<Entry>, b: seq<Entry>)
    requires PkIndexed(name, rows, a) && PkIndexed(name, rows, b)
    ensures a == b
  {
    hide SortedEntries, ToMap;
    SortedUnique(a, b);
  }

  // ---------------------------------------------------------- secondary index

  /** The composite key of the row, if the index takes a value from it. */
  ghost predicate Keyed(env: Env, def: TableDef, column: Str, path: Str, pk: PkKey, vals: seq<Value>, k: PkKey)
  {
    match IndexValue(env, def, column, path, vals) case Found(v) => k == CompositeKey(v, pk) case _ => false
  }

  ghost predicate SecMap(env: Env, def: TableDef, column: Str, path: Str, rows: Rows, m: map<PkKey, Str>)
  {
    && (forall pk, k :: pk in rows && Keyed(env, def, column, path, pk, rows[pk], k) ==> k in m && m[k] == RowKey(def.name, pk))
    && (forall k :: k in m ==> exists pk :: pk in rows && Keyed(env, def, column, path, pk, rows[pk], k))
  }

  /** A secondary index holds exactly one entry for every row it takes a value from. */
  ghost predicate SecIndexed(env: Env, def: TableDef, column: Str, path: Str, rows: Rows, es: seq<Entry>)
  {
    SortedEntries(es) && SecMap(env, def, column, path, rows, ToMap(es))
  }

  /** The rows of a table and an index on it are as the index needs them. */
  ghost predicate Fit(env: Env, def: TableDef, column: Str, path: Str, rows: Rows)
  {
    RowsOk(def, rows) && IndexOk(env, def, column, path) && SeparableRows(env, def, column, path, rows)
  }

  lemma {:induction false} SameKind(def: TableDef, pk: PkKey, vals: seq<Value>, qk: PkKey, ws: seq<Value>)
    requires RowOk(def, pk, vals) && RowOk(def, qk, ws)
    ensures pk.PkInt? == qk.PkInt? == IntKeyed(def)
  {
  }

  /** No two rows share a composite key. */
  lemma {:induction false} KeysDistinct(env: Env, def: TableDef, column: Str, path: Str, rows: Rows, pk: PkKey, qk: PkKey, k: PkKey)
    requires Fit(env, def, column, path, rows) && pk in rows && qk in rows
    requires Keyed(env, def, column, path, pk, rows[pk], k) && Keyed(env, def, column, path, qk, rows[qk], k)
    ensures pk == qk
  {
    hide RowOk, IndexOk, IndexValue, CompositeKey, NulFree, Indexable, PkIndex;
    assert Separable(env, def, column, path, rows[pk]) && Separable(env, def, column, path, rows[qk]);
    IndexValueOk(env, def, column, path, pk, rows[pk]);
    IndexValueOk(env, def, column, path, qk, rows[qk]);
    SameKind(def, pk, rows[pk], qk, rows[qk]);
    var v, w := IndexValue(env, def, column, path, rows[pk]).value, IndexValue(env, def, column, path, rows[qk]).value;
    if IntKeyed(def) {
      CompositeInjectiveInt(v, pk, w, qk);
    } else {
      CompositeInjective(v, pk, w, qk);
    }
  }

  ghost function SecPut(env: Env, def: TableDef, column: Str, path: Str, pk: PkKey, vals: seq<Value>, m: map<PkKey, Str>): map<PkKey, Str>
  {
    match IndexValue(env, def, column, path, vals)
    case Found(v) => m[CompositeKey(v, pk) := RowKey(def.name, pk)]
    case _ => m
  }

  ghost function SecDrop(env: Env, def: TableDef, column: Str, path: Str, pk: PkKey, vals: seq<Value>, m: map<PkKey, Str>): map<PkKey, Str>
  {
    match IndexValue(env, def, column, path, vals)
    case Found(v) => m - {CompositeKey(v, pk)}
    case _ => m
  }

  lemma {:induction false} SecMapPut(env: Env, def: TableDef, column: Str, path: Str, rows: Rows, m: map<PkKey, Str>, pk: PkKey, vals: seq<Value>)
    requires SecMap(env, def, column, path, rows, m) && pk !in rows
    requires Fit(env, def, column, path, rows[pk := vals])
    ensures SecMap(env, def, column, path, rows[pk := vals], SecPut(env, def, column, path, pk, vals, m))
  {
    hide Fit, IndexValue, CompositeKey, RowKey;
    var rows', m' := rows[pk := vals], SecPut(env, def, column, path, pk, vals, m);
    forall qk, k | qk in rows' && Keyed(env, def, column, path, qk, rows'[qk], k)
      ensures k in m' && m'[k] == RowKey(def.name, qk)
    {
      if qk != pk && Keyed(env, def, column, path, pk, vals, k) {
        KeysDistinct(env, def, column, path, rows', pk, qk, k);
      }
    }
    forall k | k in m' ensures exists qk :: qk in rows' && Keyed(env, def, column, path, qk, rows'[qk], k) {
      if Keyed(env, def, column, path, pk, vals, k) {
        assert rows'[pk] == vals;
      } else {
        var qk :| qk in rows && Keyed(env, def, column, path, qk, rows[qk], k);
        assert rows'[qk] == rows[qk];
      }
    }
  }

  lemma {:induction false} SecMapDrop(env: Env, def: TableDef, column: Str, path: Str, rows: Rows, m: map<PkKey, Str>, pk: PkKey)
    requires SecMap(env, def, column, path, rows, m) && pk in rows && Fit(env, def, column, path, rows)
    ensures SecMap(env, def, column, path, rows - {pk}, SecDrop(env, def, column, path, pk, rows[pk], m))
  {
    hide Fit, IndexValue, CompositeKey, RowKey;
    var rows', m' := rows - {pk}, SecDrop(env, def, column, path, pk, rows[pk], m);
    forall qk, k | qk in rows' && Keyed(env, def, column, path, qk, rows'[qk], k)
      ensures k in m' && m'[k] == RowKey(def.name, qk)
    {
      if Keyed(env, def, column, path, pk, rows[pk], k) {
        KeysDistinct(env, def, column, path, rows, pk, qk, k);
      }
    }
    forall k | k in m' ensures exists qk :: qk in rows' && Keyed(env, def, column, path, qk, rows'[qk], k) {
      var qk :| qk in rows && Keyed(env, def, column, path, qk, rows[qk], k);
      assert qk in rows';
    }
  }

  /** `valueFromRow` and `insert` on the entries of an index. */
  function IndexRow(env: Env, def: TableDef, column: Str, path: Str, pk: PkKey, rk: Str, vals: seq<Value>, es: seq<Entry>): seq<Entry>
  {
    match IndexValue(env, def, column, path, vals)
    case Found(v) => PutSorted(es, CompositeKey(v, pk), rk)
    case _ => es
  }

  /** `valueFromRow` and `remove`. */
  function UnindexRow(env: Env, def: TableDef, column: Str, path: Str, pk: PkKey, vals: seq<Value>, es: seq<Entry>): seq<Entry>
  {
    match IndexValue(env, def, column, path, vals)
    case Found(v) => DropKey(es, CompositeKey(v, pk))
    case _ => es
  }

  lemma {:induction false} SecIndexedPut(env: Env, def: TableDef, column: Str, path: Str, rows: Rows, es: seq<Entry>, pk: PkKey, vals: seq<Value>)
    requires SecIndexed(env, def, column, path, rows, es) && pk !in rows
    requires Fit(env, def, column, path, rows[pk := vals])
    ensures SecIndexed(env, def, column, path, rows[pk := vals], IndexRow(env, def, column, path, pk, RowKey(def.name, pk), vals, es))
  {
    hide Fit, SecMap, IndexValue, SortedEntries, PutSorted, ToMap, CompositeKey, RowKey;
    SecMapPut(env, def, column, path, rows, ToMap(es), pk, vals);
    match IndexValue(env, def, column, path, vals)
    case Found(v) =>
      PutIn(es, CompositeKey(v, pk), RowKey(def.name, pk));
      PutIsMapUpdate(es, CompositeKey(v, pk), RowKey(def.name, pk));
    case _ =>
  }

  lemma {:induction false} SecIndexedDrop(env: Env, def: TableDef, column: Str, path: Str, rows: Rows, es: seq<Entry>, pk: PkKey)
    requires SecIndexed(env, def, column, path, rows, es) && pk in rows && Fit(env, def, column, path, rows)
    ensures SecIndexed(env, def, column, path, rows - {pk}, UnindexRow(env, def, column, path, pk, rows[pk], es))
  {
    hide Fit, SecMap, IndexValue, SortedEntries, DropKey, ToMap, CompositeKey;
    SecMapDrop(env, def, column, path, rows, ToMap(es), pk);
    match IndexValue(env, def, column, path, rows[pk])
    case Found(v) =>
      DropIn(es, CompositeKey(v, pk));
      DropIsMapRemoval(es, CompositeKey(v, pk));
    case _ =>
  }

  /** A secondary index is a function of the rows: rebuilt and maintained ones are equal. */
  lemma {:induction false} SecIndexedUnique(env: Env, def: TableDef, column: Str, path: Str, rows: Rows, a: seq<Entry>, b: seq<Entry>)
    requires SecIndexed(env, def, column, path, rows, a) && SecIndexed(env, def, column, path, rows, b)
    ensures a == b
  {
    hide SortedEntries, ToMap, Keyed, RowKey;
    assert ToMap(a) == ToMap(b) by {
      SecMapUnique(env, def, column, path, rows, ToMap(a), ToMap(b));
    }
    SortedUnique(a, b);
  }

  lemma {:induction false} SecMapUnique(env: Env, def: TableDef, column: Str, path: Str, rows: Rows, a: map<PkKey, Str>, b: map<PkKey, Str>)
    requires SecMap(env, def, column, path, rows, a) && SecMap(env, def, column, path, rows, b)
    ensures a == b
  {
    hide Keyed, RowKey;
    forall k | k in a ensures k in b && a[k] == b[k] {
      var pk :| pk in rows && Keyed(env, def, column, path, pk, rows[pk], k);
    }
    forall k | k in b ensures k in a {
      var pk :| pk in rows && Keyed(env, def, column, path, pk, rows[pk], k);
    }
  }

  // ----------------------------------------------------------------- lookup

  predicate DistinctKeys(s: seq<Str>)
  {
    forall i, j :: 0 <= i < j < |s| ==> s[i] != s[j]
  }

  lemma {:induction false} WithPrefixDistinct(es: seq<Entry>, p: Str)
    requires forall i, j :: 0 <= i < j < |es| ==> es[i].val != es[j].val
    ensures DistinctKeys(WithPrefix(es, p))
    ensures forall rk :: rk in WithPrefix(es, p) ==> exists i :: 0 <= i < |es| && es[i].val == rk
  {
    hide HasPrefix;
    if es != [] {
      WithPrefixDistinct(es[1..], p);
      var rest := WithPrefix(es[1..], p);
      forall rk | rk in rest ensures rk != es[0].val && exists i :: 0 <= i < |es| && es[i].val == rk {
        var i :| 0 <= i < |es[1..]| && es[1..][i].val == rk;
        assert es[i + 1].val == rk;
      }
      var whole := [es[0].val] + rest;
      forall i, j | 0 <= i < j < |whole| ensures whole[i] != whole[j] {
        assert whole[j] == rest[j - 1] && whole[j] in rest;
      }
    }
  }

  /** The entries of a secondary index point to different rows. */
  lemma {:induction false} RowKeysDistinct(env: Env, def: TableDef, column: Str, path: Str, rows: Rows, es: seq<Entry>)
    requires SecIndexed(env, def, column, path, rows, es)
    ensures forall i, j :: 0 <= i < j < |es| ==> es[i].val != es[j].val
  {
    hide ToMap, RowKey;
    forall i, j | 0 <= i < j < |es| ensures es[i].val != es[j].val {
      ToMapAt(es, i);
      ToMapAt(es, j);
      var a :| a in rows && Keyed(env, def, column, path, a, rows[a], es[i].key);
      var b :| b in rows && Keyed(env, def, column, path, b, rows[b], es[j].key);
      CompareIsOrder(es[i].key, es[j].key, es[i].key);
      assert es[i].key != es[j].key;
      if es[i].val == es[j].val { RowKeyInjective(def.name, a, b); }
    }
  }

  /** `lookup` returns the row keys of exactly the rows whose entry is under the prefix, once each. */
  lemma {:induction false} LookupFindsRows(env: Env, def: TableDef, column: Str, path: Str, rows: Rows, es: seq<Entry>, v: Value)
    requires SecIndexed(env, def, column, path, rows, es)
    ensures DistinctKeys(WithPrefix(es, CompositePrefix(v)))
    ensures forall rk :: rk in WithPrefix(es, CompositePrefix(v)) ==>
              exists pk :: pk in rows && Hit(env, def, column, path, pk, rows[pk], v) && rk == RowKey(def.name, pk)
    ensures forall pk :: pk in rows && Hit(env, def, column, path, pk, rows[pk], v) ==>
              RowKey(def.name, pk) in WithPrefix(es, CompositePrefix(v))
  {
    hide SortedEntries, ToMap, WithPrefix, RowKey, HasPrefix, IndexValue, CompositeKey;
    var p, m := CompositePrefix(v), ToMap(es);
    RowKeysDistinct(env, def, column, path, rows, es);
    WithPrefixDistinct(es, p);
    forall rk | rk in WithPrefix(es, p)
      ensures exists pk :: pk in rows && Hit(env, def, column, path, pk, rows[pk], v) && rk == RowKey(def.name, pk)
    {
      LookupIsMapQuery(es, p, rk);
      var k :| k in m && k.PkStr? && HasPrefix(k.s, p) && m[k] == rk;
      var pk :| pk in rows && Keyed(env, def, column, path, pk, rows[pk], k);
      assert Hit(env, def, column, path, pk, rows[pk], v);
    }
    forall pk | pk in rows && Hit(env, def, column, path, pk, rows[pk], v)
      ensures RowKey(def.name, pk) in WithPrefix(es, p)
    {
      var k := CompositeKey(IndexValue(env, def, column, path, rows[pk]).value, pk);
      assert Keyed(env, def, column, path, pk, rows[pk], k);
      LookupIsMapQuery(es, p, RowKey(def.name, pk));
      CompositeIsText(IndexValue(env, def, column, path, rows[pk]).value, pk);
    }
  }
}
