/**
 `scanPrefix`: a transaction's view of all keys with a prefix, own writes included.
 */
module Scan {
  import opened Strings
  import opened Mvcc
  import Transactions
  import opened Engine

  /** `kvPair` */
  datatype Pair = Pair(key: Key, value: Str)

  predicate SortedPairs(ps: seq<Pair>)
  {
    forall i, j :: 0 <= i < j < |ps| ==> StrLess(ps[i].key, ps[j].key)
  }

  predicate DistinctPairs(ps: seq<Pair>)
  {
    forall i, j :: 0 <= i < j < |ps| ==> ps[i].key != ps[j].key
  }

  /** What the scan must return, as a map: every key with the prefix that Get finds. */
  predicate Found(ps: seq<Pair>, k: Key, v: Str)
  {
    exists i :: 0 <= i < |ps| && ps[i] == Pair(k, v)
  }

  /** The scan's list of what has been collected for the keys in `seen`. */
  ghost predicate Collected(s: Transactions.Sys<Tx>, t: Tx, prefix: Str, seen: set<Key>, out: seq<Pair>)
  {
    && t in s.txs
    && DistinctPairs(out)
    && (forall i :: 0 <= i < |out| ==> out[i].key in seen && Transactions.Get(s, t, out[i].key) == Some(out[i].value))
    && (forall k :: k in seen ==> HasPrefix(k, prefix))
    && (forall k :: k in seen && Transactions.Get(s, t, k).Some? ==> Found(out, k, Transactions.Get(s, t, k).value))
  }

  lemma {:induction false} CollectedAdd(s: Transactions.Sys<Tx>, t: Tx, prefix: Str, seen: set<Key>, out: seq<Pair>, k: Key)
    requires Collected(s, t, prefix, seen, out) && k !in seen && HasPrefix(k, prefix)
    ensures match Transactions.Get(s, t, k)
            case None => Collected(s, t, prefix, seen + {k}, out)
            case Some(v) => Collected(s, t, prefix, seen + {k}, out + [Pair(k, v)])
  {
    hide Transactions.Get, HasPrefix;
    if Transactions.Get(s, t, k).Some? {
      var v := Transactions.Get(s, t, k).value;
      var more := out + [Pair(k, v)];
      assert more[|out|] == Pair(k, v);
      forall q | q in seen + {k} && Transactions.Get(s, t, q).Some? ensures Found(more, q, Transactions.Get(s, t, q).value) {
        if q in seen {
          var i :| 0 <= i < |out| && out[i] == Pair(q, Transactions.Get(s, t, q).value);
          assert more[i] == out[i];
        }
      }
    }
  }

  /** `sort.Slice` by key. */
  method SortPairs(ps: seq<Pair>) returns (r: seq<Pair>)
    requires DistinctPairs(ps)
    ensures SortedPairs(r) && forall p :: p in r <==> p in ps
  {
    hide StrLess;
    r := [];
    var i := 0;
    while i < |ps|
      invariant i <= |ps| && SortedPairs(r) && forall p :: p in r <==> p in ps[..i]
    {
      assert forall p :: p in r ==> p.key != ps[i].key;
      ghost var before := r;
      r := InsertPair(r, ps[i]);
      assert ps[..i + 1] == ps[..i] + [ps[i]];
      i := i + 1;
    }
    assert ps[..|ps|] == ps;
  }

  method InsertPair(r: seq<Pair>, p: Pair) returns (out: seq<Pair>)
    requires SortedPairs(r) && forall q :: q in r ==> q.key != p.key
    ensures SortedPairs(out) && forall q :: q in out <==> q in r || q == p
  {
    hide StrLess;
    var i := 0;
    while i < |r| && StrLess(r[i].key, p.key)
      invariant i <= |r| && forall j :: 0 <= j < i ==> StrLess(r[j].key, p.key)
    {
      i := i + 1;
    }
    forall j | i <= j < |r| ensures StrLess(p.key, r[j].key) {
      assert r[i] in r;
      StrLessTotal(p.key, r[i].key);
      if j > i { StrLessTransitive(p.key, r[i].key, r[j].key); }
    }
    out := r[..i] + [p] + r[i..];
    assert r == r[..i] + r[i..];
  }

  /** `scanPrefix` */
  method ScanPrefix(tx: Tx, prefix: Str) returns (pairs: seq<Pair>)
    requires tx.Valid()
    ensures tx.closed ==> pairs == []
    ensures SortedPairs(pairs)
    ensures !tx.closed ==> forall k, v ::
              Pair(k, v) in pairs <==> HasPrefix(k, prefix) && Transactions.Get(tx.db.Abs(), tx, k) == Some(v)
  {
    if tx.closed {
      return [];
    }
    ghost var s := tx.db.Abs();
    var seen: set<Key> := {};
    var out: seq<Pair> := [];
    // The transaction's own writes.
    var rest := tx.writes.Keys;
    while rest != {}
      invariant rest <= tx.writes.Keys
      invariant Collected(s, tx, prefix, seen, out)
      invariant forall k :: k in tx.writes && k !in rest && HasPrefix(k, prefix) ==> k in seen
      invariant seen <= tx.writes.Keys - rest
      decreases |rest|
    {
      var k :| k in rest;
      rest := rest - {k};
      var op := tx.writes[k];
      if HasPrefix(k, prefix) {
        CollectedAdd(s, tx, prefix, seen, out, k);
        seen := seen + {k};
        if !op.delete {
          out := out + [Pair(k, op.value)];
        }
      }
    }
    // Then the snapshot.
    rest := tx.db.history.Keys;
    while rest != {}
      invariant rest <= tx.db.history.Keys
      invariant Collected(s, tx, prefix, seen, out)
      invariant forall k :: k in tx.writes && HasPrefix(k, prefix) ==> k in seen
      invariant forall k :: k in tx.db.history && k !in rest && HasPrefix(k, prefix) && Transactions.Get(s, tx, k).Some? ==> k in seen
      decreases |rest|
    {
      var k :| k in rest;
      rest := rest - {k};
      if k !in seen && HasPrefix(k, prefix) {
        var i := NewestUpTo(tx.db.history[k], tx.readVersion);
        if i >= 0 {
          CollectedAdd(s, tx, prefix, seen, out, k);
          seen := seen + {k};
          if !tx.db.history[k][i].deleted {
            out := out + [Pair(k, tx.db.history[k][i].value)];
          }
        }
      }
    }
    pairs := SortPairs(out);
    ScanComplete(s, tx, prefix, seen, out, pairs);
  }

  /** The backward scan over the versions of a key. */
  method NewestUpTo(versions: seq<Ver>, v: nat) returns (i: int)
    ensures i == BaseIndex(versions, v)
  {
    i := |versions| - 1;
    while i >= 0 && versions[i].version > v
      invariant -1 <= i < |versions|
      invariant forall j :: i < j < |versions| ==> versions[j].version > v
    {
      i := i - 1;
    }
    BaseIndexUnique(versions, v, i);
  }

  lemma {:induction false} ScanComplete(s: Transactions.Sys<Tx>, t: Tx, prefix: Str, seen: set<Key>, out: seq<Pair>, pairs: seq<Pair>)
    requires Collected(s, t, prefix, seen, out) && forall p :: p in pairs <==> p in out
    requires forall k :: HasPrefix(k, prefix) && Transactions.Get(s, t, k).Some? ==> k in seen
    ensures forall k, v :: Pair(k, v) in pairs <==> HasPrefix(k, prefix) && Transactions.Get(s, t, k) == Some(v)
  {
    hide Transactions.Get, HasPrefix;
    forall k, v ensures Pair(k, v) in pairs <==> HasPrefix(k, prefix) && Transactions.Get(s, t, k) == Some(v) {
      if Pair(k, v) in pairs {
        var i :| 0 <= i < |out| && out[i] == Pair(k, v);
        assert out[i].key == k;
      }
      if HasPrefix(k, prefix) && Transactions.Get(s, t, k) == Some(v) {
        assert Found(out, k, v);
      }
    }
  }
}
