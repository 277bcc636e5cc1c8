/**
 `compactRecords`: the records that a compaction writes, and what replaying them gives.
 */
module Compaction {
  import opened Strings
  import opened Mvcc
  import opened Sorting

  // -------------------------------------------------------- the records written

  /** The single-snapshot case: every key whose latest version is live. */
  function LiveOps(h: History, keys: seq<Key>): seq<Op>
  {
    if keys == [] then [] else
      var k := keys[|keys| - 1];
      var vs := Versions(h, k);
      LiveOps(h, keys[..|keys| - 1]) +
      if vs == [] || vs[|vs| - 1].deleted then [] else [Op(k, vs[|vs| - 1].value, false)]
  }

  /** The operations of one version group of one key. */
  function KeyOps(vs: seq<Ver>, v: nat, k: Key): seq<Op>
  {
    if vs == [] then [] else
      var x := vs[|vs| - 1];
      KeyOps(vs[..|vs| - 1], v, k) + if x.version == v then [Op(k, x.value, x.deleted)] else []
  }

  function GroupOps(h: History, v: nat, keys: seq<Key>): seq<Op>
  {
    if keys == [] then [] else
      var k := keys[|keys| - 1];
      GroupOps(h, v, keys[..|keys| - 1]) + KeyOps(Versions(h, k), v, k)
  }

  /** The general case: one record per version still in the history. */
  function Groups(h: History, keys: seq<Key>, versions: seq<nat>): seq<Record>
  {
    if versions == [] then [] else
      var v := versions[|versions| - 1];
      Groups(h, keys, versions[..|versions| - 1]) + [Record(v, GroupOps(h, v, keys))]
  }

  ghost function AllVersions(h: History): set<nat>
  {
    set k, i | k in h && 0 <= i < |h[k]| :: h[k][i].version
  }

  /** `compactRecords` */
  ghost function CompactRecords(h: History, version: nat, retain: nat): seq<Record>
  {
    var keys := SortKeys(h.Keys);
    if retain == version then
      var ops := LiveOps(h, keys);
      if ops == [] then [] else [Record(version, ops)]
    else
      Groups(h, keys, SortNats(AllVersions(h)))
  }

  /** What the history holds: for each key a non-empty, increasing list of versions in `1..version`. */
  predicate HistoryOk(h: History, version: nat)
  {
    forall k :: k in h ==> VersOk(h[k], version) && h[k] != []
  }

  predicate VersOk(vs: seq<Ver>, version: nat)
  {
    Increasing(vs) && forall i :: 0 <= i < |vs| ==> 0 < vs[i].version <= version
  }

  // ------------------------------------- the general case reproduces the history

  /** The versions equal to `v`. */
  function Only(vs: seq<Ver>, v: nat): seq<Ver>
  {
    if vs == [] then [] else
      Only(vs[..|vs| - 1], v) + if vs[|vs| - 1].version == v then [vs[|vs| - 1]] else []
  }

  function Regrouped(vs: seq<Ver>, versions: seq<nat>): seq<Ver>
  {
    if versions == [] then [] else
      Regrouped(vs, versions[..|versions| - 1]) + Only(vs, versions[|versions| - 1])
  }

  lemma {:induction false} OnlyAbsent(vs: seq<Ver>, v: nat)
    requires forall i :: 0 <= i < |vs| ==> vs[i].version != v
    ensures Only(vs, v) == []
  {
    if vs != [] { OnlyAbsent(vs[..|vs| - 1], v); }
  }

  lemma {:induction false} RegroupedSkips(vs: seq<Ver>, x: Ver, versions: seq<nat>)
    requires x.version !in versions
    ensures Regrouped(vs + [x], versions) == Regrouped(vs, versions)
  {
    if versions != [] {
      RegroupedSkips(vs, x, versions[..|versions| - 1]);
      assert (vs + [x])[..|vs|] == vs;
      assert Only(vs, versions[|versions| - 1]) + [] == Only(vs, versions[|versions| - 1]);
    }
  }

  lemma {:induction false} RegroupedEmpty(versions: seq<nat>)
    ensures Regrouped([], versions) == []
  {
    if versions != [] { RegroupedEmpty(versions[..|versions| - 1]); }
  }

  /** Grouping an increasing list by version and concatenating the groups gives it back. */
  lemma {:induction false} RegroupedIsSame(vs: seq<Ver>, versions: seq<nat>)
    requires Increasing(vs) && SortedNats(versions)
    requires forall i :: 0 <= i < |vs| ==> vs[i].version in versions
    ensures Regrouped(vs, versions) == vs
  {
    hide Only, Increasing, SortedNats;
    if vs == [] {
      RegroupedEmpty(versions);
    } else {
      BelowLast(vs, versions);
      InitsOrdered(vs, versions);
      var n, init := versions[|versions| - 1], versions[..|versions| - 1];
      var vs', x := vs[..|vs| - 1], vs[|vs| - 1];
      assert vs == vs' + [x];
      if x.version == n {
        RegroupedIsSame(vs', init);
        RegroupedSkips(vs', x, init);
        OnlyAbsent(vs', n);
        OnlySnoc(vs', x);
      } else {
        RegroupedIsSame(vs, init);
        OnlyAbsent(vs, n);
        assert vs + [] == vs;
      }
    }
  }

  lemma {:induction false} OnlySnoc(vs: seq<Ver>, x: Ver)
    ensures Only(vs + [x], x.version) == Only(vs, x.version) + [x]
  {
    assert (vs + [x])[..|vs|] == vs;
  }

  lemma {:induction false} InitsOrdered(vs: seq<Ver>, versions: seq<nat>)
    requires Increasing(vs) && SortedNats(versions) && vs != [] && versions != []
    ensures Increasing(vs[..|vs| - 1]) && SortedNats(versions[..|versions| - 1])
    ensures forall i :: 0 <= i < |vs| - 1 ==> vs[i].version < vs[|vs| - 1].version
  {
  }

  lemma {:induction false} BelowLast(vs: seq<Ver>, versions: seq<nat>)
    requires Increasing(vs) && SortedNats(versions) && vs != []
    requires forall i :: 0 <= i < |vs| ==> vs[i].version in versions
    ensures versions != []
    ensures var n, init := versions[|versions| - 1], versions[..|versions| - 1];
            && n !in init
            && forall i :: 0 <= i < |vs| ==> vs[i].version in init || (i == |vs| - 1 && vs[i].version == n)
  {
    assert vs[0].version in versions;
    var n, init := versions[|versions| - 1], versions[..|versions| - 1];
    forall i | 0 <= i < |vs| ensures vs[i].version in init || (i == |vs| - 1 && vs[i].version == n) {
      assert vs[i].version in versions && vs[|vs| - 1].version in versions;
      assert forall v :: v in versions ==> v <= n;
      assert i == |vs| - 1 || vs[i].version < vs[|vs| - 1].version <= n;
    }
  }

  lemma {:induction false} OpVersionsConcat(v: nat, a: seq<Op>, b: seq<Op>, k: Key)
    ensures OpVersions(v, a + b, k) == OpVersions(v, a, k) + OpVersions(v, b, k)
  {
    if b == [] {
      assert a + b == a;
    } else {
      assert (a + b)[..|a + b| - 1] == a + b[..|b| - 1];
      OpVersionsConcat(v, a, b[..|b| - 1], k);
    }
  }

  lemma {:induction false} KeyOpsVersions(vs: seq<Ver>, v: nat, k: Key, k': Key)
    ensures OpVersions(v, KeyOps(vs, v, k), k') == if k == k' then Only(vs, v) else []
  {
    if vs != [] {
      var init, x := vs[..|vs| - 1], vs[|vs| - 1];
      KeyOpsVersions(init, v, k, k');
      var a := KeyOps(init, v, k);
      if x.version == v {
        var op := Op(k, x.value, x.deleted);
        assert (a + [op])[..|a|] == a;
      } else {
        assert a + [] == a;
      }
    }
  }

  lemma {:induction false} NoOps(v: nat, k: Key)
    ensures OpVersions(v, [], k) == []
  {
  }

  lemma {:induction false} GroupOpsVersions(h: History, v: nat, keys: seq<Key>, k: Key)
    requires SortedKeys(keys)
    ensures OpVersions(v, GroupOps(h, v, keys), k) == if k in keys then Only(Versions(h, k), v) else []
  {
    hide OpVersions, KeyOps, Versions, Only, SortedKeys;
    if keys != [] {
      var init, last := keys[..|keys| - 1], keys[|keys| - 1];
      LastIsNew(keys);
      GroupOpsVersions(h, v, init, k);
      KeyOpsVersions(Versions(h, last), v, last, k);
      OpVersionsConcat(v, GroupOps(h, v, init), KeyOps(Versions(h, last), v, last), k);
      assert k in keys <==> k in init || k == last by { assert keys == init + [last]; }
      assert forall s: seq<Ver> :: s + [] == s && [] + s == s;
    } else {
      NoOps(v, k);
    }
  }

  lemma {:induction false} GroupsVersions(h: History, keys: seq<Key>, versions: seq<nat>, k: Key)
    requires SortedKeys(keys)
    ensures LogVersions(Groups(h, keys, versions), k) == if k in keys then Regrouped(Versions(h, k), versions) else []
  {
    if versions != [] {
      var v, init := versions[|versions| - 1], versions[..|versions| - 1];
      GroupsVersions(h, keys, init, k);
      GroupOpsVersions(h, v, keys, k);
      var recs := Groups(h, keys, init);
      assert (recs + [Record(v, GroupOps(h, v, keys))])[..|recs|] == recs;
    }
  }

  lemma {:induction false} ReplayKeys(recs: seq<Record>)
    ensures forall k :: k in Replay(recs) ==> Replay(recs)[k] != []
  {
    if recs != [] {
      ReplayKeys(recs[..|recs| - 1]);
      ApplyOpsKeys(Replay(recs[..|recs| - 1]), recs[|recs| - 1].version, recs[|recs| - 1].ops);
    }
  }

  lemma {:induction false} ApplyOpsKeys(h: History, v: nat, ops: seq<Op>)
    requires forall k :: k in h ==> h[k] != []
    ensures forall k :: k in ApplyOps(h, v, ops) ==> ApplyOps(h, v, ops)[k] != []
  {
    if ops != [] { ApplyOpsKeys(h, v, ops[..|ops| - 1]); }
  }

  /** Histories with the same versions for every key, none of them empty, are equal. */
  lemma {:induction false} SameHistory(a: History, b: History)
    requires forall k :: Versions(a, k) == Versions(b, k)
    requires forall k :: k in a ==> a[k] != []
    requires forall k :: k in b ==> b[k] != []
    ensures a == b
  {
    forall k ensures k in a <==> k in b {
      assert Versions(a, k) == Versions(b, k);
    }
    forall k | k in a ensures a[k] == b[k] {
      assert Versions(a, k) == Versions(b, k);
    }
  }

  lemma {:induction false} GeneralVersions(h: History, version: nat, k: Key)
    requires HistoryOk(h, version)
    ensures LogVersions(Groups(h, SortKeys(h.Keys), SortNats(AllVersions(h))), k) == Versions(h, k)
  {
    var keys, versions := SortKeys(h.Keys), SortNats(AllVersions(h));
    GroupsVersions(h, keys, versions, k);
    if k in h {
      forall i | 0 <= i < |h[k]| ensures h[k][i].version in versions {
        assert h[k][i].version in AllVersions(h);
      }
      RegroupedIsSame(h[k], versions);
    }
  }

  /** Below the current version, replaying the compacted records gives exactly the history they came from. */
  lemma {:induction false} GeneralReplay(h: History, version: nat, retain: nat)
    requires HistoryOk(h, version) && retain < version
    ensures Replay(CompactRecords(h, version, retain)) == h
  {
    var recs := CompactRecords(h, version, retain);
    forall k ensures Versions(Replay(recs), k) == Versions(h, k) {
      ReplayVersions(recs, k);
      GeneralVersions(h, version, k);
    }
    ReplayKeys(recs);
    SameHistory(Replay(recs), h);
  }

  // -------------------------------------- the snapshot case keeps what is visible

  lemma {:induction false} LastIsNew(keys: seq<Key>)
    requires SortedKeys(keys) && keys != []
    ensures SortedKeys(keys[..|keys| - 1]) && keys[|keys| - 1] !in keys[..|keys| - 1]
  {
    var init, last := keys[..|keys| - 1], keys[|keys| - 1];
    forall i | 0 <= i < |init| ensures init[i] != last {
      StrLessTotal(keys[i], last);
    }
  }

  lemma {:induction false} LiveOpsDistinct(h: History, keys: seq<Key>)
    requires SortedKeys(keys)
    ensures DistinctKeys(LiveOps(h, keys))
    ensures forall i :: 0 <= i < |LiveOps(h, keys)| ==> LiveOps(h, keys)[i].key in keys
  {
    hide StrLess, SortedKeys;
    if keys != [] {
      LastIsNew(keys);
      LiveOpsDistinct(h, keys[..|keys| - 1]);
    }
  }

  lemma {:induction false} LastOpSnoc(ops: seq<Op>, op: Op, k: Key)
    ensures LastOp(ops + [op], k) == if op.key == k then Some(op) else LastOp(ops, k)
  {
    assert (ops + [op])[..|ops|] == ops;
  }

  lemma {:induction false} LiveOpsLast(h: History, keys: seq<Key>, k: Key)
    requires SortedKeys(keys)
    ensures var vs := Versions(h, k);
            LastOp(LiveOps(h, keys), k) ==
              if k !in keys || vs == [] || vs[|vs| - 1].deleted then None else Some(Op(k, vs[|vs| - 1].value, false))
  {
    hide StrLess, SortedKeys;
    if keys != [] {
      var init, last := keys[..|keys| - 1], keys[|keys| - 1];
      LastIsNew(keys);
      LiveOpsLast(h, init, k);
      assert k in keys <==> k in init || k == last;
      var a := LiveOps(h, init);
      var vs := Versions(h, last);
      if vs == [] || vs[|vs| - 1].deleted {
        assert a + [] == a;
      } else {
        LastOpSnoc(a, Op(last, vs[|vs| - 1].value, false), k);
      }
    }
  }

  lemma {:induction false} SnapshotView(h: History, version: nat, v: nat, k: Key)
    requires HistoryOk(h, version) && version <= v
    ensures View(CompactRecords(h, version, version), v, k) == Visible(Versions(h, k), v)
  {
    var keys := SortKeys(h.Keys);
    LiveOpsLast(h, keys, k);
    var vs, ops := Versions(h, k), LiveOps(h, keys);
    BaseIndexUnique(vs, v, |vs| - 1);
    if ops != [] {
      var r := Record(version, ops);
      assert [r][..0] == [] && View([], v, k) == None;
    }
  }

  // ------------------------------------------------------------- both cases

  /** The compacted records are an ordered log. */
  lemma {:induction false} CompactRecordsOk(h: History, version: nat, retain: nat)
    requires HistoryOk(h, version) && 0 < version
    ensures LogOk(CompactRecords(h, version, retain), version)
  {
    var keys := SortKeys(h.Keys);
    if retain == version {
      LiveOpsDistinct(h, keys);
    } else {
      var ns := SortNats(AllVersions(h));
      forall i | 0 <= i < |ns| ensures 0 < ns[i] <= version {
        assert ns[i] in AllVersions(h);
      }
      GroupsOk(h, keys, ns, version);
    }
  }

  lemma {:induction false} GroupsOk(h: History, keys: seq<Key>, versions: seq<nat>, version: nat)
    requires HistoryOk(h, version) && SortedKeys(keys) && SortedNats(versions)
    requires forall i :: 0 <= i < |versions| ==> 0 < versions[i] <= version
    ensures LogOk(Groups(h, keys, versions), version)
  {
    hide GroupOps, Groups, DistinctKeys, HistoryOk, SortedKeys;
    GroupsAt(h, keys, versions);
    forall i | 0 <= i < |versions| ensures DistinctKeys(Groups(h, keys, versions)[i].ops) {
      GroupDistinct(h, versions[i], keys, version);
    }
  }

  lemma {:induction false} GroupsAt(h: History, keys: seq<Key>, versions: seq<nat>)
    ensures |Groups(h, keys, versions)| == |versions|
    ensures forall i :: 0 <= i < |versions| ==> Groups(h, keys, versions)[i] == Record(versions[i], GroupOps(h, versions[i], keys))
  {
    hide GroupOps;
    if versions != [] {
      GroupsAt(h, keys, versions[..|versions| - 1]);
    }
  }

  lemma {:induction false} KeyOpsOne(vs: seq<Ver>, v: nat, k: Key)
    requires Increasing(vs)
    ensures |KeyOps(vs, v, k)| <= 1 && (forall i :: 0 <= i < |KeyOps(vs, v, k)| ==> KeyOps(vs, v, k)[i].key == k)
    ensures (forall i :: 0 <= i < |vs| ==> vs[i].version != v) ==> KeyOps(vs, v, k) == []
  {
    if vs != [] { KeyOpsOne(vs[..|vs| - 1], v, k); }
  }

  lemma {:induction false} GroupDistinct(h: History, v: nat, keys: seq<Key>, version: nat)
    requires HistoryOk(h, version) && SortedKeys(keys)
    ensures DistinctKeys(GroupOps(h, v, keys))
    ensures forall i :: 0 <= i < |GroupOps(h, v, keys)| ==> GroupOps(h, v, keys)[i].key in keys
  {
    if keys != [] {
      LastIsNew(keys);
      GroupDistinct(h, v, keys[..|keys| - 1], version);
      KeyOpsOne(Versions(h, keys[|keys| - 1]), v, keys[|keys| - 1]);
    }
  }

  /** For every reader at or above the retention mark the compacted records say what the history says. */
  lemma {:induction false} CompactView(h: History, version: nat, retain: nat, v: nat, k: Key)
    requires HistoryOk(h, version) && retain <= version && retain <= v
    ensures View(CompactRecords(h, version, retain), v, k) == Visible(Versions(h, k), v)
  {
    if retain == version {
      SnapshotView(h, version, v, k);
    } else {
      GeneralVersions(h, version, k);
      VisibleIsView(CompactRecords(h, version, retain), v, k);
    }
  }

  // ------------------------------------------------------------- key order

  predicate KeyOrder(ops: seq<Op>)
  {
    forall i, j :: 0 <= i < j < |ops| ==> StrLess(ops[i].key, ops[j].key)
  }

  lemma {:induction false} KeyOrderSnoc(ops: seq<Op>, more: seq<Op>, keys: seq<Key>)
    requires SortedKeys(keys) && keys != [] && KeyOrder(ops) && |more| <= 1
    requires forall i :: 0 <= i < |more| ==> more[i].key == keys[|keys| - 1]
    requires forall i :: 0 <= i < |ops| ==> ops[i].key in keys[..|keys| - 1]
    ensures KeyOrder(ops + more)
  {
    hide StrLess;
    var all := ops + more;
    forall i, j | 0 <= i < j < |all| ensures StrLess(all[i].key, all[j].key) {
      if j == |ops| {
        var q :| 0 <= q < |keys| - 1 && keys[..|keys| - 1][q] == ops[i].key;
      }
    }
  }

  /** Compaction writes the operations of a record in key order too. */
  lemma {:induction false} LiveOpsOrdered(h: History, keys: seq<Key>)
    requires SortedKeys(keys)
    ensures KeyOrder(LiveOps(h, keys))
  {
    hide StrLess, SortedKeys, KeyOrder;
    if keys == [] {
      NothingOrdered();
    } else {
      var init := keys[..|keys| - 1];
      LastIsNew(keys);
      LiveOpsOrdered(h, init);
      LiveOpsDistinct(h, init);
      var vs := Versions(h, keys[|keys| - 1]);
      KeyOrderSnoc(LiveOps(h, init), if vs == [] || vs[|vs| - 1].deleted then [] else [Op(keys[|keys| - 1], vs[|vs| - 1].value, false)], keys);
    }
  }

  lemma {:induction false} NothingOrdered()
    ensures KeyOrder([])
  {
  }

  lemma {:induction false} GroupOpsOrdered(h: History, v: nat, keys: seq<Key>, version: nat)
    requires HistoryOk(h, version) && SortedKeys(keys)
    ensures KeyOrder(GroupOps(h, v, keys))
  {
    hide StrLess, SortedKeys, KeyOrder, KeyOps, DistinctKeys;
    if keys == [] {
      NothingOrdered();
    } else {
      var init, last := keys[..|keys| - 1], keys[|keys| - 1];
      LastIsNew(keys);
      GroupOpsOrdered(h, v, init, version);
      GroupDistinct(h, v, init, version);
      KeyOpsOne(Versions(h, last), v, last);
      KeyOrderSnoc(GroupOps(h, v, init), KeyOps(Versions(h, last), v, last), keys);
    }
  }

  // ---------------------------------------------------- groups are not empty

  lemma {:induction false} KeyOpsNonEmpty(vs: seq<Ver>, v: nat, k: Key)
    ensures KeyOps(vs, v, k) != [] <==> exists i :: 0 <= i < |vs| && vs[i].version == v
  {
    if vs != [] {
      KeyOpsNonEmpty(vs[..|vs| - 1], v, k);
    }
  }

  lemma {:induction false} GroupNonEmpty(h: History, keys: seq<Key>, v: nat)
    ensures GroupOps(h, v, keys) != [] <==> exists i :: 0 <= i < |keys| && KeyOps(Versions(h, keys[i]), v, keys[i]) != []
  {
    hide KeyOps, Versions;
    if keys != [] {
      var init := keys[..|keys| - 1];
      GroupNonEmpty(h, init, v);
      assert forall i :: 0 <= i < |init| ==> init[i] == keys[i];
    }
  }

  lemma {:induction false} VersionHasKey(h: History, keys: seq<Key>, v: nat)
    requires forall k :: k in keys <==> k in h
    ensures v in AllVersions(h) <==> exists i :: 0 <= i < |keys| && KeyOps(Versions(h, keys[i]), v, keys[i]) != []
  {
    if v in AllVersions(h) {
      var k, j :| k in h && 0 <= j < |h[k]| && h[k][j].version == v;
      assert k in keys;
      var i :| 0 <= i < |keys| && keys[i] == k;
      KeyOpsNonEmpty(Versions(h, k), v, k);
    }
    if i :| 0 <= i < |keys| && KeyOps(Versions(h, keys[i]), v, keys[i]) != [] {
      assert keys[i] in keys;
      KeyOpsNonEmpty(Versions(h, keys[i]), v, keys[i]);
    }
  }
}
