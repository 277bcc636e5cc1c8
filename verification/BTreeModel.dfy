/**
 The B+tree of btree.go as a value: the algorithm of `insert`, `splitLeaf`,
 `splitInterior` and `delete` on an algebraic tree.  Module `BTreeNodes` proves that the
 heap nodes compute exactly these trees.
 */
module BTreeModel {
  import opened Strings

  /** `btreeOrder`: the largest number of keys in a node. */
  const ORDER := 8

  type Int64 = i: int | -0x8000_0000_0000_0000 <= i < 0x8000_0000_0000_0000

  datatype PkKey = PkInt(i: Int64) | PkStr(s: Str)

  datatype Entry = Entry(key: PkKey, val: Str)

  datatype Tree =
    | Leaf(keys: seq<PkKey>, vals: seq<Str>)
    | Node(keys: seq<PkKey>, kids: seq<Tree>)

  /** What an insertion leaves behind: one tree, or two trees and a separator. */
  datatype Grown = One(t: Tree) | Two(l: Tree, sep: PkKey, r: Tree)

  // ---------------------------------------------------------------- order

  /** `pkKey.compare` */
  function Compare(a: PkKey, b: PkKey): int
  {
    if a.PkInt? != b.PkInt? then (if a.PkInt? then -1 else 1)
    else if a.PkInt? then (if a.i < b.i then -1 else if a.i > b.i then 1 else 0)
    else if StrLess(a.s, b.s) then -1 else if StrLess(b.s, a.s) then 1 else 0
  }

  predicate Less(a: PkKey, b: PkKey)
  {
    Compare(a, b) < 0
  }

  /** `compare` is a strict total order and 0 only on equal keys. */
  lemma {:induction false} CompareIsOrder(a: PkKey, b: PkKey, c: PkKey)
    ensures Compare(a, b) == 0 <==> a == b
    ensures Compare(a, b) < 0 <==> Compare(b, a) > 0
    ensures Less(a, b) && Less(b, c) ==> Less(a, c)
    ensures Less(a, b) || a == b || Less(b, a)
    ensures Less(a, b) ==> !Less(b, a)
  {
    if a.PkStr? && b.PkStr? {
      StrLessTotal(a.s, b.s);
      if c.PkStr? && StrLess(a.s, b.s) && StrLess(b.s, c.s) {
        StrLessTransitive(a.s, b.s, c.s);
        StrLessTotal(a.s, c.s);
      }
    }
  }

  /** The same facts in quantified form, for the proofs below. */
  lemma {:induction false} Order()
    ensures forall a, b, c :: Less(a, b) && Less(b, c) ==> Less(a, c)
    ensures forall a, b :: Less(a, b) || a == b || Less(b, a)
    ensures forall a, b :: Less(a, b) ==> !Less(b, a)
    ensures forall a, b :: Compare(a, b) == 0 <==> a == b
    ensures forall a, b :: Compare(a, b) > 0 <==> Less(b, a)
  {
    forall a, b, c
      ensures Less(a, b) && Less(b, c) ==> Less(a, c)
    {
      CompareIsOrder(a, b, c);
    }
    forall a, b
      ensures Less(a, b) || a == b || Less(b, a)
      ensures Less(a, b) ==> !Less(b, a)
      ensures Compare(a, b) == 0 <==> a == b
      ensures Compare(a, b) > 0 <==> Less(b, a)
    {
      CompareIsOrder(a, b, a);
      CompareIsOrder(b, a, a);
    }
  }

  predicate Sorted(keys: seq<PkKey>)
  {
    forall i, j :: 0 <= i < j < |keys| ==> Less(keys[i], keys[j])
  }

  /** `lo <= k < hi`, an absent bound being infinite. */
  predicate InRange(k: PkKey, lo: Option<PkKey>, hi: Option<PkKey>)
  {
    (lo.Some? ==> !Less(k, lo.value)) && (hi.Some? ==> Less(k, hi.value))
  }

  // ------------------------------------------------- specification: sorted list

  predicate SortedEntries(es: seq<Entry>)
  {
    forall i, j :: 0 <= i < j < |es| ==> Less(es[i].key, es[j].key)
  }

  predicate AllInRange(es: seq<Entry>, lo: Option<PkKey>, hi: Option<PkKey>)
  {
    forall i :: 0 <= i < |es| ==> InRange(es[i].key, lo, hi)
  }

  /** Insertion into a sorted list of entries, replacing an equal key. */
  function PutSorted(es: seq<Entry>, k: PkKey, v: Str): seq<Entry>
  {
    if es == [] || Less(k, es[0].key) then [Entry(k, v)] + es
    else if es[0].key == k then [Entry(k, v)] + es[1..]
    else [es[0]] + PutSorted(es[1..], k, v)
  }

  function DropKey(es: seq<Entry>, k: PkKey): seq<Entry>
  {
    if es == [] then []
    else if es[0].key == k then es[1..]
    else [es[0]] + DropKey(es[1..], k)
  }

  /** The entries with key at least `k`. */
  function From(es: seq<Entry>, k: PkKey): seq<Entry>
  {
    if es == [] || !Less(es[0].key, k) then es else From(es[1..], k)
  }

  function Find(es: seq<Entry>, k: PkKey): Option<Str>
  {
    if es == [] then None else if es[0].key == k then Some(es[0].val) else Find(es[1..], k)
  }

  /** The finite map a sorted list of entries stands for. */
  function ToMap(es: seq<Entry>): map<PkKey, Str>
  {
    if es == [] then map[] else ToMap(es[1..])[es[0].key := es[0].val]
  }

  lemma {:induction false} SortedTail(es: seq<Entry>)
    requires es != [] && SortedEntries(es)
    ensures SortedEntries(es[1..])
    ensures forall k :: k in ToMap(es[1..]) ==> Less(es[0].key, k)
  {
    ToMapKeys(es[1..]);
  }

  lemma {:induction false} ToMapKeys(es: seq<Entry>)
    ensures forall k :: k in ToMap(es) ==> exists i :: 0 <= i < |es| && es[i].key == k
    ensures forall i :: 0 <= i < |es| ==> es[i].key in ToMap(es)
  {
    if es != [] {
      ToMapKeys(es[1..]);
      forall k | k in ToMap(es) ensures exists i :: 0 <= i < |es| && es[i].key == k {
        if k == es[0].key {
          assert es[0].key == k;
        } else {
          var i :| 0 <= i < |es[1..]| && es[1..][i].key == k;
          assert es[i + 1].key == k;
        }
      }
      forall i | 0 <= i < |es| ensures es[i].key in ToMap(es) {
        if i > 0 { assert es[i] == es[1..][i - 1]; }
      }
    }
  }

  /** On sorted lists the list operations are the operations of the finite map. */
  lemma {:induction false} PutIsMapUpdate(es: seq<Entry>, k: PkKey, v: Str)
    requires SortedEntries(es)
    ensures ToMap(PutSorted(es, k, v)) == ToMap(es)[k := v]
  {
    hide Less, SortedEntries;
    if es == [] {
      assert ToMap([Entry(k, v)][1..]) == map[];
    } else if Less(k, es[0].key) {
      assert ([Entry(k, v)] + es)[1..] == es;
    } else if es[0].key == k {
      assert ([Entry(k, v)] + es[1..])[1..] == es[1..];
    } else {
      SortedTail(es);
      PutIsMapUpdate(es[1..], k, v);
      assert ([es[0]] + PutSorted(es[1..], k, v))[1..] == PutSorted(es[1..], k, v);
    }
  }

  lemma {:induction false} DropIsMapRemoval(es: seq<Entry>, k: PkKey)
    requires SortedEntries(es)
    ensures ToMap(DropKey(es, k)) == ToMap(es) - {k}
  {
    hide Less, SortedEntries;
    if es != [] {
      SortedTail(es);
      if es[0].key == k {
        CompareIsOrder(k, k, k);
        assert k !in ToMap(es[1..]);
      } else {
        DropIsMapRemoval(es[1..], k);
        assert ([es[0]] + DropKey(es[1..], k))[1..] == DropKey(es[1..], k);
      }
    }
  }

  lemma {:induction false} FindIsMapLookup(es: seq<Entry>, k: PkKey)
    ensures Find(es, k) == if k in ToMap(es) then Some(ToMap(es)[k]) else None
  {
    if es != [] {
      FindIsMapLookup(es[1..], k);
    }
  }

  /** `From` keeps exactly the entries at or above `k`, in order. */
  lemma {:induction false} FromIsSuffix(es: seq<Entry>, k: PkKey)
    requires SortedEntries(es)
    ensures |From(es, k)| <= |es| && From(es, k) == es[|es| - |From(es, k)|..]
    ensures forall i :: 0 <= i < |es| ==> (Less(es[i].key, k) <==> i < |es| - |From(es, k)|)
  {
    Order();
    if es != [] && Less(es[0].key, k) {
      FromIsSuffix(es[1..], k);
      forall i | 1 <= i < |es|
        ensures Less(es[i].key, k) <==> i < |es| - |From(es, k)|
      {
        assert es[i] == es[1..][i - 1];
      }
    }
  }

  predicate AllBelow(es: seq<Entry>, k: PkKey)
  {
    forall i :: 0 <= i < |es| ==> Less(es[i].key, k)
  }

  predicate AllAbove(es: seq<Entry>, k: PkKey)
  {
    forall i :: 0 <= i < |es| ==> Less(k, es[i].key)
  }

  lemma {:induction false} PutSkipsLeft(a: seq<Entry>, es: seq<Entry>, k: PkKey, v: Str)
    requires AllBelow(a, k)
    ensures PutSorted(a + es, k, v) == a + PutSorted(es, k, v)
  {
    if a == [] {
      assert a + es == es;
    } else {
      CompareIsOrder(a[0].key, k, k);
      assert (a + es)[0] == a[0] && (a + es)[1..] == a[1..] + es;
      PutSkipsLeft(a[1..], es, k, v);
      assert PutSorted(a + es, k, v) == [a[0]] + PutSorted(a[1..] + es, k, v);
      assert a == [a[0]] + a[1..];
    }
  }

  lemma {:induction false} PutSkipsRight(es: seq<Entry>, b: seq<Entry>, k: PkKey, v: Str)
    requires AllAbove(b, k)
    ensures PutSorted(es + b, k, v) == PutSorted(es, k, v) + b
  {
    if es == [] {
      assert es + b == b;
    } else {
      assert (es + b)[1..] == es[1..] + b;
      PutSkipsRight(es[1..], b, k, v);
    }
  }

  lemma {:induction false} DropSkipsLeft(a: seq<Entry>, es: seq<Entry>, k: PkKey)
    requires AllBelow(a, k)
    ensures DropKey(a + es, k) == a + DropKey(es, k)
    ensures Find(a + es, k) == Find(es, k)
    ensures From(a + es, k) == From(es, k)
  {
    if a == [] {
      assert a + es == es;
    } else {
      CompareIsOrder(a[0].key, k, k);
      assert (a + es)[1..] == a[1..] + es;
      DropSkipsLeft(a[1..], es, k);
    }
  }

  lemma {:induction false} DropSkipsRight(es: seq<Entry>, b: seq<Entry>, k: PkKey)
    requires AllAbove(b, k)
    ensures DropKey(es + b, k) == DropKey(es, k) + b
    ensures Find(es + b, k) == Find(es, k)
    ensures From(es + b, k) == From(es, k) + b
  {
    if es == [] {
      assert es + b == b;
      NotPresent(b, k);
    } else {
      assert (es + b)[1..] == es[1..] + b;
      DropSkipsRight(es[1..], b, k);
    }
  }

  lemma {:induction false} NotPresent(b: seq<Entry>, k: PkKey)
    requires AllAbove(b, k)
    ensures DropKey(b, k) == b && Find(b, k) == None && From(b, k) == b
  {
    if b != [] {
      CompareIsOrder(k, b[0].key, k);
      NotPresent(b[1..], k);
    }
  }

  /** Each list operation only touches the segment its key belongs to. */
  lemma {:induction false} Localised(a: seq<Entry>, es: seq<Entry>, b: seq<Entry>, k: PkKey, v: Str)
    requires AllBelow(a, k) && AllAbove(b, k)
    ensures PutSorted(a + es + b, k, v) == a + PutSorted(es, k, v) + b
    ensures DropKey(a + es + b, k) == a + DropKey(es, k) + b
    ensures Find(a + es + b, k) == Find(es, k)
    ensures From(a + es + b, k) == From(es, k) + b
  {
    PutSkipsRight(a + es, b, k, v);
    PutSkipsLeft(a, es, k, v);
    DropSkipsRight(a + es, b, k);
    DropSkipsLeft(a, es, k);
  }

  // ------------------------------------------------------------- the tree

  function Zip(keys: seq<PkKey>, vals: seq<Str>): (es: seq<Entry>)
    ensures |es| == if |keys| <= |vals| then |keys| else |vals|
  {
    seq(if |keys| <= |vals| then |keys| else |vals|,
        i requires 0 <= i < |keys| && i < |vals| => Entry(keys[i], vals[i]))
  }

  /** The entries of a tree, left to right. */
  function Entries(t: Tree): seq<Entry>
  {
    match t
    case Leaf(keys, vals) => Zip(keys, vals)
    case Node(_, kids) => Flat(kids)
  }

  function Flat(ts: seq<Tree>): seq<Entry>
  {
    if ts == [] then [] else Entries(ts[0]) + Flat(ts[1..])
  }

  function GrownEntries(g: Grown): seq<Entry>
  {
    match g
    case One(t) => Entries(t)
    case Two(l, _, r) => Entries(l) + Entries(r)
  }

  function Lo(keys: seq<PkKey>, lo: Option<PkKey>, i: nat): Option<PkKey>
    requires i <= |keys|
  {
    if i == 0 then lo else Some(keys[i - 1])
  }

  function Hi(keys: seq<PkKey>, hi: Option<PkKey>, i: nat): Option<PkKey>
    requires i <= |keys|
  {
    if i == |keys| then hi else Some(keys[i])
  }

  /** Well-formedness: `h` interior levels above every leaf, at most ORDER keys a
      node, keys sorted, separators bounding their subtrees. */
  predicate WF(t: Tree, h: nat, lo: Option<PkKey>, hi: Option<PkKey>)
  {
    && |t.keys| <= ORDER
    && Sorted(t.keys)
    && (forall i :: 0 <= i < |t.keys| ==> InRange(t.keys[i], lo, hi))
    && match t
       case Leaf(keys, vals) => h == 0 && |vals| == |keys|
       case Node(keys, kids) =>
         && h > 0
         && |kids| == |keys| + 1
         && forall i :: 0 <= i < |kids| ==> WF(kids[i], h - 1, Lo(keys, lo, i), Hi(keys, hi, i))
  }

  /** `childIndex`: the number of separators not above `k`. */
  function ChildIndex(keys: seq<PkKey>, k: PkKey): (i: nat)
    ensures i <= |keys|
    ensures forall j :: 0 <= j < i ==> !Less(k, keys[j])
    ensures i < |keys| ==> Less(k, keys[i])
  {
    if keys == [] || Compare(k, keys[0]) < 0 then 0 else
      var i := 1 + ChildIndex(keys[1..], k);
      assert forall j :: 1 <= j < i ==> keys[j] == keys[1..][j - 1];
      i
  }

  /** The leaf position of `k`: the number of leading keys below it. */
  function LeafIndex(keys: seq<PkKey>, k: PkKey): (i: nat)
    ensures i <= |keys|
    ensures forall j :: 0 <= j < i ==> Less(keys[j], k)
    ensures i < |keys| ==> !Less(keys[i], k)
  {
    if keys == [] || Compare(keys[0], k) >= 0 then 0 else
      var i := 1 + LeafIndex(keys[1..], k);
      assert forall j :: 1 <= j < i ==> keys[j] == keys[1..][j - 1];
      i
  }

  /** The first position holding `k`, or the length when there is none. */
  function KeyIndex(keys: seq<PkKey>, k: PkKey): (i: nat)
    ensures i <= |keys|
    ensures i < |keys| ==> keys[i] == k
    ensures forall j :: 0 <= j < i ==> keys[j] != k
  {
    if keys == [] then 0 else
      CompareIsOrder(keys[0], k, k);
      if Compare(keys[0], k) == 0 then 0 else
        var i := 1 + KeyIndex(keys[1..], k);
        assert forall j :: 1 <= j < i ==> keys[j] == keys[1..][j - 1];
        i
  }

  function InsertLeaf(keys: seq<PkKey>, vals: seq<Str>, k: PkKey, v: Str): Grown
    requires |keys| == |vals|
  {
    var i := LeafIndex(keys, k);
    if i < |keys| && Compare(keys[i], k) == 0 then One(Leaf(keys, vals[i := v]))
    else
      var ks, vs := keys[..i] + [k] + keys[i..], vals[..i] + [v] + vals[i..];
      if |ks| <= ORDER then One(Leaf(ks, vs)) else SplitLeaf(ks, vs)
  }

  function SplitLeaf(ks: seq<PkKey>, vs: seq<Str>): Grown
    requires |ks| == |vs| > 0
  {
    var mid := |ks| / 2;
    Two(Leaf(ks[..mid], vs[..mid]), ks[mid], Leaf(ks[mid..], vs[mid..]))
  }

  function SplitInterior(ks: seq<PkKey>, ts: seq<Tree>): Grown
    requires |ts| == |ks| + 1 > 1
  {
    var mid := |ks| / 2;
    Two(Node(ks[..mid], ts[..mid + 1]), ks[mid], Node(ks[mid + 1..], ts[mid + 1..]))
  }

  /** An interior node after its child `i` became `g`. */
  function Absorb(keys: seq<PkKey>, kids: seq<Tree>, i: nat, g: Grown): Grown
    requires i <= |keys| && |kids| == |keys| + 1
  {
    match g
    case One(c) => One(Node(keys, kids[i := c]))
    case Two(l, sep, r) =>
      var ks, ts := keys[..i] + [sep] + keys[i..], kids[..i] + [l, r] + kids[i + 1..];
      if |ks| <= ORDER then One(Node(ks, ts)) else SplitInterior(ks, ts)
  }

  /** One value per leaf key, one more child than keys. */
  predicate Proper(t: Tree)
  {
    match t
    case Leaf(keys, vals) => |vals| == |keys|
    case Node(keys, kids) => |kids| == |keys| + 1 && forall i :: 0 <= i < |kids| ==> Proper(kids[i])
  }

  function Insert(t: Tree, k: PkKey, v: Str): Grown
    requires Proper(t)
  {
    match t
    case Leaf(keys, vals) => InsertLeaf(keys, vals, k, v)
    case Node(keys, kids) =>
      var i := ChildIndex(keys, k);
      Absorb(keys, kids, i, Insert(kids[i], k, v))
  }

  function Delete(t: Tree, k: PkKey): Tree
    requires Proper(t)
  {
    match t
    case Leaf(keys, vals) =>
      var i := KeyIndex(keys, k);
      if i < |keys| then Leaf(keys[..i] + keys[i + 1..], vals[..i] + vals[i + 1..]) else t
    case Node(keys, kids) =>
      var i := ChildIndex(keys, k);
      Node(keys, kids[i := Delete(kids[i], k)])
  }

  /** `btree.Put`: a new root when the old one split. */
  function PutRoot(t: Tree, k: PkKey, v: Str): Tree
    requires Proper(t)
  {
    match Insert(t, k, v)
    case One(r) => r
    case Two(l, sep, r) => Node([sep], [l, r])
  }
}
