/**
 What `insert` and `delete` keep: the shape of the tree, the sorted list of its
 entries, the fill of interior nodes, and the count of leaves.
 */
module BTreeProofs {
  import opened Strings
  import opened BTreeModel

  // -------------------------------------------------------- flattening

  lemma {:induction false} FlatConcat(a: seq<Tree>, b: seq<Tree>)
    ensures Flat(a + b) == Flat(a) + Flat(b)
  {
    hide Less, Compare;
    if a == [] {
      assert a + b == b;
    } else {
      assert (a + b)[1..] == a[1..] + b;
      FlatConcat(a[1..], b);
    }
  }

  /** The entries of a list of trees, split at one of them. */
  lemma {:induction false} FlatAround(a: seq<Tree>, t: Tree, b: seq<Tree>)
    ensures Flat(a + [t] + b) == Flat(a) + Entries(t) + Flat(b)
  {
    assert a + [t] + b == a + ([t] + b);
    FlatConcat(a, [t] + b);
    assert ([t] + b)[1..] == b;
  }

  lemma {:induction false} FlatBelow(ts: seq<Tree>, k: PkKey)
    requires forall j :: 0 <= j < |ts| ==> AllBelow(Entries(ts[j]), k)
    ensures AllBelow(Flat(ts), k)
  {
    hide Less, Compare;
    if ts != [] {
      FlatBelow(ts[1..], k);
    }
  }

  lemma {:induction false} FlatAbove(ts: seq<Tree>, k: PkKey)
    requires forall j :: 0 <= j < |ts| ==> AllAbove(Entries(ts[j]), k)
    ensures AllAbove(Flat(ts), k)
  {
    hide Less, Compare;
    if ts != [] {
      FlatAbove(ts[1..], k);
    }
  }

  lemma {:induction false} WFProper(t: Tree, h: nat, lo: Option<PkKey>, hi: Option<PkKey>)
    requires WF(t, h, lo, hi)
    ensures Proper(t)
  {
    hide Less, Compare;
    if t.Node? {
      forall i | 0 <= i < |t.kids| ensures Proper(t.kids[i]) {
        WFProper(t.kids[i], h - 1, Lo(t.keys, lo, i), Hi(t.keys, hi, i));
      }
    }
  }

  // ------------------------------------------- entries are sorted and bounded

  lemma {:induction false} EntriesSorted(t: Tree, h: nat, lo: Option<PkKey>, hi: Option<PkKey>)
    requires WF(t, h, lo, hi)
    ensures Proper(t) && SortedEntries(Entries(t)) && AllInRange(Entries(t), lo, hi)
    decreases t, 1, 0
  {
    hide Less, Compare;
    WFProper(t, h, lo, hi);
    if t.Node? {
      KidsSorted(t, h, lo, hi, 0);
      assert t.kids[0..] == t.kids;
    }
  }

  lemma {:induction false} KidsSorted(t: Tree, h: nat, lo: Option<PkKey>, hi: Option<PkKey>, i: nat)
    requires t.Node? && WF(t, h, lo, hi) && Proper(t) && i < |t.kids|
    ensures SortedEntries(Flat(t.kids[i..])) && AllInRange(Flat(t.kids[i..]), Lo(t.keys, lo, i), hi)
    decreases t, 0, |t.kids| - i
  {
    hide Less, Compare;
    var e := Entries(t.kids[i]);
    EntriesSorted(t.kids[i], h - 1, Lo(t.keys, lo, i), Hi(t.keys, hi, i));
    assert t.kids[i..][1..] == t.kids[i + 1..];
    if i + 1 < |t.kids| {
      KidsSorted(t, h, lo, hi, i + 1);
      assert InRange(t.keys[i], lo, hi);
      if i > 0 { CompareIsOrder(t.keys[i - 1], t.keys[i], t.keys[i]); }
      JoinSorted(e, Flat(t.kids[i + 1..]), Lo(t.keys, lo, i), t.keys[i], hi);
    } else {
      assert Flat(t.kids[i..]) == e + [];
    }
  }

  lemma {:induction false} JoinSorted(a: seq<Entry>, b: seq<Entry>, lo: Option<PkKey>, mid: PkKey, hi: Option<PkKey>)
    requires SortedEntries(a) && AllInRange(a, lo, Some(mid))
    requires SortedEntries(b) && AllInRange(b, Some(mid), hi)
    requires hi.Some? ==> Less(mid, hi.value)
    requires lo.Some? ==> !Less(mid, lo.value)
    ensures SortedEntries(a + b) && AllInRange(a + b, lo, hi)
  {
    hide Less, Compare;
    var c := a + b;
    forall i, j | 0 <= i < j < |c| ensures Less(c[i].key, c[j].key) {
      if i < |a| <= j {
        assert InRange(a[i].key, lo, Some(mid)) && InRange(b[j - |a|].key, Some(mid), hi);
        CompareIsOrder(b[j - |a|].key, mid, mid);
        CompareIsOrder(a[i].key, mid, b[j - |a|].key);
      }
    }
    forall i | 0 <= i < |c| ensures InRange(c[i].key, lo, hi) {
      if i < |a| {
        assert InRange(a[i].key, lo, Some(mid));
        if hi.Some? { CompareIsOrder(a[i].key, mid, hi.value); }
      } else {
        assert InRange(b[i - |a|].key, Some(mid), hi);
        if lo.Some? { NotLessTransitive(b[i - |a|].key, mid, lo.value); }
      }
    }
  }

  lemma {:induction false} NotLessTransitive(a: PkKey, b: PkKey, c: PkKey)
    requires !Less(a, b) && !Less(b, c)
    ensures !Less(a, c)
  {
    hide Less, Compare;
    CompareIsOrder(a, b, c);
    CompareIsOrder(c, b, a);
    CompareIsOrder(b, c, a);
    CompareIsOrder(a, c, b);
  }

  // --------------------------------- the child chosen isolates the key's segment

  lemma {:induction false} KidBelow(t: Tree, h: nat, lo: Option<PkKey>, hi: Option<PkKey>, j: nat, k: PkKey)
    requires t.Node? && WF(t, h, lo, hi) && j < |t.keys| && !Less(k, t.keys[j])
    ensures AllBelow(Entries(t.kids[j]), k)
  {
    hide Less, Compare;
    EntriesSorted(t.kids[j], h - 1, Lo(t.keys, lo, j), Hi(t.keys, hi, j));
    var es := Entries(t.kids[j]);
    forall x | 0 <= x < |es| ensures Less(es[x].key, k) {
      assert InRange(es[x].key, Lo(t.keys, lo, j), Hi(t.keys, hi, j));
      CompareIsOrder(k, t.keys[j], k);
      CompareIsOrder(es[x].key, t.keys[j], k);
    }
  }

  lemma {:induction false} KidAbove(t: Tree, h: nat, lo: Option<PkKey>, hi: Option<PkKey>, j: nat, k: PkKey)
    requires t.Node? && WF(t, h, lo, hi) && 0 < j < |t.kids| && Less(k, t.keys[j - 1])
    ensures AllAbove(Entries(t.kids[j]), k)
  {
    hide Less, Compare;
    EntriesSorted(t.kids[j], h - 1, Lo(t.keys, lo, j), Hi(t.keys, hi, j));
    var es := Entries(t.kids[j]);
    forall x | 0 <= x < |es| ensures Less(k, es[x].key) {
      assert InRange(es[x].key, Lo(t.keys, lo, j), Hi(t.keys, hi, j));
      CompareIsOrder(es[x].key, t.keys[j - 1], k);
      CompareIsOrder(k, t.keys[j - 1], es[x].key);
    }
  }

  lemma {:induction false} Around(t: Tree, h: nat, lo: Option<PkKey>, hi: Option<PkKey>, k: PkKey)
    requires t.Node? && WF(t, h, lo, hi) && InRange(k, lo, hi)
    ensures var i := ChildIndex(t.keys, k);
            && AllBelow(Flat(t.kids[..i]), k) && AllAbove(Flat(t.kids[i + 1..]), k)
            && Entries(t) == Flat(t.kids[..i]) + Entries(t.kids[i]) + Flat(t.kids[i + 1..])
            && InRange(k, Lo(t.keys, lo, i), Hi(t.keys, hi, i))
  {
    hide Less, Compare, Flat;
    var i := ChildIndex(t.keys, k);
    forall j | 0 <= j < i ensures AllBelow(Entries(t.kids[j]), k) {
      KidBelow(t, h, lo, hi, j, k);
    }
    FlatBelow(t.kids[..i], k);
    forall j | i < j < |t.kids| ensures AllAbove(Entries(t.kids[j]), k) {
      CompareIsOrder(k, t.keys[i], t.keys[j - 1]);
      KidAbove(t, h, lo, hi, j, k);
    }
    FlatAbove(t.kids[i + 1..], k);
    FlatAround(t.kids[..i], t.kids[i], t.kids[i + 1..]);
    assert t.kids == t.kids[..i] + [t.kids[i]] + t.kids[i + 1..];
  }

  // ------------------------------------------------------------ insertion

  lemma {:induction false} ZipConcat(ks: seq<PkKey>, vs: seq<Str>, ks': seq<PkKey>, vs': seq<Str>)
    requires |ks| == |vs|
    ensures Zip(ks + ks', vs + vs') == Zip(ks, vs) + Zip(ks', vs')
  {
  }

  lemma {:induction false} Zip3(a: seq<PkKey>, va: seq<Str>, k: PkKey, v: Str, b: seq<PkKey>, vb: seq<Str>)
    requires |a| == |va|
    ensures Zip(a + [k] + b, va + [v] + vb) == Zip(a, va) + [Entry(k, v)] + Zip(b, vb)
  {
    ZipConcat(a + [k], va + [v], b, vb);
    ZipConcat(a, va, [k], [v]);
    assert Zip([k], [v]) == [Entry(k, v)];
  }

  lemma {:induction false} ReplaceEntries(keys: seq<PkKey>, vals: seq<Str>, i: nat, v: Str)
    requires |keys| == |vals| && Sorted(keys) && i < |keys|
    ensures Zip(keys, vals[i := v]) == PutSorted(Zip(keys, vals), keys[i], v)
  {
    hide Less, Compare;
    var k, a, b := keys[i], Zip(keys[..i], vals[..i]), Zip(keys[i + 1..], vals[i + 1..]);
    assert keys == keys[..i] + [k] + keys[i + 1..];
    assert vals == vals[..i] + [vals[i]] + vals[i + 1..];
    assert vals[i := v] == vals[..i] + [v] + vals[i + 1..];
    Zip3(keys[..i], vals[..i], k, vals[i], keys[i + 1..], vals[i + 1..]);
    Zip3(keys[..i], vals[..i], k, v, keys[i + 1..], vals[i + 1..]);
    assert AllBelow(a, k) && AllAbove(b, k);
    Localised(a, [Entry(k, vals[i])], b, k, v);
    CompareIsOrder(k, k, k);
  }

  lemma {:induction false} PutEmpty(k: PkKey, v: Str)
    ensures PutSorted([], k, v) == [Entry(k, v)]
  {
  }

  lemma {:induction false} AddEntries(keys: seq<PkKey>, vals: seq<Str>, i: nat, k: PkKey, v: Str)
    requires |keys| == |vals| && i <= |keys|
    requires forall j :: 0 <= j < i ==> Less(keys[j], k)
    requires forall j :: i <= j < |keys| ==> Less(k, keys[j])
    ensures Zip(keys[..i] + [k] + keys[i..], vals[..i] + [v] + vals[i..]) == PutSorted(Zip(keys, vals), k, v)
  {
    hide Less, Compare, PutSorted, DropKey, Find, From;
    var a, b := Zip(keys[..i], vals[..i]), Zip(keys[i..], vals[i..]);
    assert keys == keys[..i] + keys[i..] && vals == vals[..i] + vals[i..];
    ZipConcat(keys[..i], vals[..i], keys[i..], vals[i..]);
    Zip3(keys[..i], vals[..i], k, v, keys[i..], vals[i..]);
    assert AllBelow(a, k) && AllAbove(b, k);
    Localised(a, [], b, k, v);
    assert a + [] + b == a + b;
    PutEmpty(k, v);
  }

  lemma {:induction false} InsertLeafEntries(keys: seq<PkKey>, vals: seq<Str>, k: PkKey, v: Str)
    requires |keys| == |vals| && Sorted(keys)
    ensures GrownEntries(InsertLeaf(keys, vals, k, v)) == PutSorted(Zip(keys, vals), k, v)
  {
    hide Less, Compare, PutSorted, Zip;
    var i := LeafIndex(keys, k);
    if i < |keys| { CompareIsOrder(keys[i], k, k); }
    if i < |keys| && keys[i] == k {
      ReplaceEntries(keys, vals, i, v);
    } else {
      var ks, vs := keys[..i] + [k] + keys[i..], vals[..i] + [v] + vals[i..];
      forall j | i <= j < |keys| ensures Less(k, keys[j]) {
        CompareIsOrder(k, keys[i], keys[j]);
      }
      AddEntries(keys, vals, i, k, v);
      if |ks| > ORDER {
        var mid := |ks| / 2;
        ZipConcat(ks[..mid], vs[..mid], ks[mid..], vs[mid..]);
        assert ks == ks[..mid] + ks[mid..] && vs == vs[..mid] + vs[mid..];
      }
    }
  }

  lemma {:induction false} SplitInteriorEntries(ks: seq<PkKey>, ts: seq<Tree>)
    requires |ts| == |ks| + 1 > 1
    ensures GrownEntries(SplitInterior(ks, ts)) == Flat(ts)
  {
    var mid := |ks| / 2;
    FlatConcat(ts[..mid + 1], ts[mid + 1..]);
    assert ts == ts[..mid + 1] + ts[mid + 1..];
  }

  lemma {:induction false} AbsorbEntries(keys: seq<PkKey>, kids: seq<Tree>, i: nat, g: Grown)
    requires i <= |keys| && |kids| == |keys| + 1
    ensures GrownEntries(Absorb(keys, kids, i, g)) == Flat(kids[..i]) + GrownEntries(g) + Flat(kids[i + 1..])
  {
    hide Flat;
    var a, b := kids[..i], kids[i + 1..];
    match g
    case One(c) =>
      assert kids[i := c] == a + [c] + b;
      FlatAround(a, c, b);
    case Two(l, sep, r) =>
      var ks, ts := keys[..i] + [sep] + keys[i..], a + [l, r] + b;
      assert ts == (a + [l]) + [r] + b && a + [l] == a + [l] + [];
      FlatAround(a + [l], r, b);
      FlatAround(a, l, []);
      EmptyFlat();
      if |ks| > ORDER { SplitInteriorEntries(ks, ts); }
  }

  lemma {:induction false} EmptyFlat()
    ensures Flat([]) == []
  {
  }

  /** Insertion acts on the entries as on a sorted list. */
  lemma {:induction false} InsertEntries(t: Tree, h: nat, lo: Option<PkKey>, hi: Option<PkKey>, k: PkKey, v: Str)
    requires WF(t, h, lo, hi) && InRange(k, lo, hi)
    ensures Proper(t)
    ensures GrownEntries(Insert(t, k, v)) == PutSorted(Entries(t), k, v)
  {
    hide Less, Compare, Flat, PutSorted, DropKey, Find, From, Sorted;
    WFProper(t, h, lo, hi);
    match t
    case Leaf(keys, vals) => InsertLeafEntries(keys, vals, k, v);
    case Node(keys, kids) =>
      var i := ChildIndex(keys, k);
      Around(t, h, lo, hi, k);
      InsertEntries(kids[i], h - 1, Lo(keys, lo, i), Hi(keys, hi, i), k, v);
      AbsorbEntries(keys, kids, i, Insert(kids[i], k, v));
      Localised(Flat(kids[..i]), Entries(kids[i]), Flat(kids[i + 1..]), k, v);
  }

  /** What a well-formed outcome of an insertion is: both halves well formed on
      either side of a separator strictly inside the old bounds. */
  predicate WFGrown(g: Grown, h: nat, lo: Option<PkKey>, hi: Option<PkKey>)
  {
    match g
    case One(t) => WF(t, h, lo, hi)
    case Two(l, sep, r) =>
      && InRange(sep, lo, hi) && (lo.Some? ==> Less(lo.value, sep))
      && WF(l, h, lo, Some(sep)) && WF(r, h, Some(sep), hi)
  }

  lemma {:induction false} SortedInsert(keys: seq<PkKey>, i: nat, k: PkKey)
    requires Sorted(keys) && i <= |keys|
    requires i > 0 ==> Less(keys[i - 1], k)
    requires i < |keys| ==> Less(k, keys[i])
    ensures Sorted(keys[..i] + [k] + keys[i..])
  {
    hide Less, Compare;
    var ks := keys[..i] + [k] + keys[i..];
    forall x, y | 0 <= x < y < |ks| ensures Less(ks[x], ks[y]) {
      if x < i && y == i {
        CompareIsOrder(keys[x], keys[i - 1], k);
      } else if x == i && y > i {
        CompareIsOrder(k, keys[i], keys[y - 1]);
      }
    }
  }

  lemma {:induction false} InsertLeafWF(keys: seq<PkKey>, vals: seq<Str>, lo: Option<PkKey>, hi: Option<PkKey>, k: PkKey, v: Str)
    requires WF(Leaf(keys, vals), 0, lo, hi) && InRange(k, lo, hi)
    ensures WFGrown(InsertLeaf(keys, vals, k, v), 0, lo, hi)
  {
    hide Less, Compare;
    var i := LeafIndex(keys, k);
    if i < |keys| { CompareIsOrder(keys[i], k, k); }
    if !(i < |keys| && Compare(keys[i], k) == 0) {
      var ks, vs := keys[..i] + [k] + keys[i..], vals[..i] + [v] + vals[i..];
      SortedInsert(keys, i, k);
      assert forall j :: 0 <= j < |ks| ==> InRange(ks[j], lo, hi);
      if |ks| > ORDER { SplitLeafWF(ks, vs, lo, hi); }
    }
  }

  lemma {:induction false} SplitLeafWF(ks: seq<PkKey>, vs: seq<Str>, lo: Option<PkKey>, hi: Option<PkKey>)
    requires |ks| == |vs| == ORDER + 1 && Sorted(ks)
    requires forall j :: 0 <= j < |ks| ==> InRange(ks[j], lo, hi)
    ensures WFGrown(SplitLeaf(ks, vs), 0, lo, hi)
  {
    hide Less, Compare;
    var mid := |ks| / 2;
    if lo.Some? { AboveBound(ks[0], ks[mid], lo.value); }
    forall j | mid <= j < |ks| ensures InRange(ks[j], Some(ks[mid]), hi) {
      CompareIsOrder(ks[mid], ks[j], ks[j]);
    }
  }

  lemma {:induction false} AboveBound(a: PkKey, b: PkKey, lo: PkKey)
    requires !Less(a, lo) && Less(a, b)
    ensures Less(lo, b)
  {
    hide Less, Compare;
    CompareIsOrder(a, lo, b);
    CompareIsOrder(lo, a, b);
  }

  lemma {:induction false} SepInRange(keys: seq<PkKey>, lo: Option<PkKey>, hi: Option<PkKey>, i: nat, sep: PkKey)
    requires i <= |keys| && (forall j :: 0 <= j < |keys| ==> InRange(keys[j], lo, hi))
    requires InRange(sep, Lo(keys, lo, i), Hi(keys, hi, i))
    ensures InRange(sep, lo, hi)
  {
    hide Less, Compare;
    if i > 0 && lo.Some? { NotLessTransitive(sep, keys[i - 1], lo.value); }
    if i < |keys| && hi.Some? { CompareIsOrder(sep, keys[i], hi.value); }
  }

  /** Separator bounds of the children once a split child took two places. */
  lemma {:induction false} BoundsAfterInsert(keys: seq<PkKey>, lo: Option<PkKey>, hi: Option<PkKey>, i: nat, sep: PkKey, j: nat)
    requires i <= |keys| && j <= |keys| + 1
    ensures var ks := keys[..i] + [sep] + keys[i..];
            && Lo(ks, lo, j) == (if j <= i then Lo(keys, lo, j) else if j == i + 1 then Some(sep) else Lo(keys, lo, j - 1))
            && Hi(ks, hi, j) == (if j < i then Hi(keys, hi, j) else if j == i then Some(sep) else Hi(keys, hi, j - 1))
  {
  }

  lemma {:induction false} KidsAfterInsert(t: Tree, h: nat, lo: Option<PkKey>, hi: Option<PkKey>, i: nat, l: Tree, sep: PkKey, r: Tree)
    requires t.Node? && WF(t, h, lo, hi) && i <= |t.keys|
    requires WFGrown(Two(l, sep, r), h - 1, Lo(t.keys, lo, i), Hi(t.keys, hi, i))
    ensures var ks, ts := t.keys[..i] + [sep] + t.keys[i..], t.kids[..i] + [l, r] + t.kids[i + 1..];
            forall j :: 0 <= j < |ts| ==> WF(ts[j], h - 1, Lo(ks, lo, j), Hi(ks, hi, j))
  {
    hide Less, Compare;
    var ks, ts := t.keys[..i] + [sep] + t.keys[i..], t.kids[..i] + [l, r] + t.kids[i + 1..];
    forall j | 0 <= j < |ts| ensures WF(ts[j], h - 1, Lo(ks, lo, j), Hi(ks, hi, j)) {
      BoundsAfterInsert(t.keys, lo, hi, i, sep, j);
      assert ts[j] == if j < i then t.kids[j] else if j == i then l else if j == i + 1 then r else t.kids[j - 1];
    }
  }

  lemma {:induction false} AbsorbWF(t: Tree, h: nat, lo: Option<PkKey>, hi: Option<PkKey>, i: nat, g: Grown)
    requires t.Node? && WF(t, h, lo, hi) && i <= |t.keys|
    requires WFGrown(g, h - 1, Lo(t.keys, lo, i), Hi(t.keys, hi, i))
    ensures WFGrown(Absorb(t.keys, t.kids, i, g), h, lo, hi)
  {
    hide Less, Compare;
    match g
    case One(c) =>
    case Two(l, sep, r) =>
      var ks, ts := t.keys[..i] + [sep] + t.keys[i..], t.kids[..i] + [l, r] + t.kids[i + 1..];
      SortedInsert(t.keys, i, sep);
      SepInRange(t.keys, lo, hi, i, sep);
      assert forall j :: 0 <= j < |ks| ==> InRange(ks[j], lo, hi);
      KidsAfterInsert(t, h, lo, hi, i, l, sep, r);
      if |ks| > ORDER { SplitInteriorWF(ks, ts, h, lo, hi); }
  }

  lemma {:induction false} SplitInteriorWF(ks: seq<PkKey>, ts: seq<Tree>, h: nat, lo: Option<PkKey>, hi: Option<PkKey>)
    requires h > 0 && |ks| == ORDER + 1 && |ts| == |ks| + 1 && Sorted(ks)
    requires forall j :: 0 <= j < |ks| ==> InRange(ks[j], lo, hi)
    requires forall j :: 0 <= j < |ts| ==> WF(ts[j], h - 1, Lo(ks, lo, j), Hi(ks, hi, j))
    ensures WFGrown(SplitInterior(ks, ts), h, lo, hi)
  {
    hide Less, Compare;
    var mid := |ks| / 2;
    var sep := ks[mid];
    if lo.Some? { AboveBound(ks[0], sep, lo.value); }
    forall j | mid < j < |ks| ensures InRange(ks[j], Some(sep), hi) {
      CompareIsOrder(sep, ks[j], ks[j]);
    }
    var l, r := Node(ks[..mid], ts[..mid + 1]), Node(ks[mid + 1..], ts[mid + 1..]);
    forall j | 0 <= j < |l.kids| ensures WF(l.kids[j], h - 1, Lo(l.keys, lo, j), Hi(l.keys, Some(sep), j)) {
      assert WF(ts[j], h - 1, Lo(ks, lo, j), Hi(ks, hi, j));
    }
    forall j | 0 <= j < |r.kids| ensures WF(r.kids[j], h - 1, Lo(r.keys, Some(sep), j), Hi(r.keys, hi, j)) {
      assert WF(ts[j + mid + 1], h - 1, Lo(ks, lo, j + mid + 1), Hi(ks, hi, j + mid + 1));
    }
  }

  /** Insertion keeps the tree well formed. */
  lemma {:induction false} InsertWF(t: Tree, h: nat, lo: Option<PkKey>, hi: Option<PkKey>, k: PkKey, v: Str)
    requires WF(t, h, lo, hi) && InRange(k, lo, hi)
    ensures Proper(t) && WFGrown(Insert(t, k, v), h, lo, hi)
  {
    hide Less, Compare;
    WFProper(t, h, lo, hi);
    match t
    case Leaf(keys, vals) => InsertLeafWF(keys, vals, lo, hi, k, v);
    case Node(keys, kids) =>
      var i := ChildIndex(keys, k);
      Around(t, h, lo, hi, k);
      InsertWF(kids[i], h - 1, Lo(keys, lo, i), Hi(keys, hi, i), k, v);
      AbsorbWF(t, h, lo, hi, i, Insert(kids[i], k, v));
  }

  // ------------------------------------------------------------- deletion

  /** Deletion keeps the tree well formed, its height, and acts on the entries as on
      a sorted list; it may leave a leaf empty. */
  lemma {:induction false} DeleteCorrect(t: Tree, h: nat, lo: Option<PkKey>, hi: Option<PkKey>, k: PkKey)
    requires WF(t, h, lo, hi) && InRange(k, lo, hi)
    ensures Proper(t) && WF(Delete(t, k), h, lo, hi) && Proper(Delete(t, k))
    ensures Entries(Delete(t, k)) == DropKey(Entries(t), k)
  {
    hide Less, Compare, Flat, PutSorted, DropKey, Find, From, Sorted;
    WFProper(t, h, lo, hi);
    match t
    case Leaf(keys, vals) => DeleteLeafCorrect(keys, vals, lo, hi, k);
    case Node(keys, kids) =>
      var i := ChildIndex(keys, k);
      Around(t, h, lo, hi, k);
      DeleteCorrect(kids[i], h - 1, Lo(keys, lo, i), Hi(keys, hi, i), k);
      AbsorbEntries(keys, kids, i, One(Delete(kids[i], k)));
      Localised(Flat(kids[..i]), Entries(kids[i]), Flat(kids[i + 1..]), k, []);
      AbsorbWF(t, h, lo, hi, i, One(Delete(kids[i], k)));
  }

  lemma {:induction false} DeleteLeafCorrect(keys: seq<PkKey>, vals: seq<Str>, lo: Option<PkKey>, hi: Option<PkKey>, k: PkKey)
    requires WF(Leaf(keys, vals), 0, lo, hi)
    ensures WF(Delete(Leaf(keys, vals), k), 0, lo, hi)
    ensures Entries(Delete(Leaf(keys, vals), k)) == DropKey(Zip(keys, vals), k)
  {
    hide Less, Compare, DropKey, Find, Sorted, Zip;
    var i := KeyIndex(keys, k);
    KeyIndexDrops(keys, vals, k);
    if i < |keys| {
      SortedRemove(keys, i);
      ZipRemove(keys, vals, i);
      assert Delete(Leaf(keys, vals), k) == Leaf(keys[..i] + keys[i + 1..], vals[..i] + vals[i + 1..]);
    } else {
      assert Delete(Leaf(keys, vals), k) == Leaf(keys, vals);
    }
  }

  /** The position found by the scan is the entry that a lookup finds and a removal drops. */
  lemma {:induction false} KeyIndexDrops(keys: seq<PkKey>, vals: seq<Str>, k: PkKey)
    requires |keys| == |vals|
    ensures var i := KeyIndex(keys, k);
            var es := Zip(keys, vals);
            && DropKey(es, k) == (if i < |keys| then es[..i] + es[i + 1..] else es)
            && Find(es, k) == (if i < |keys| then Some(vals[i]) else None)
  {
    hide DropKey, Find, KeyIndex, Compare;
    var i := KeyIndex(keys, k);
    var es := Zip(keys, vals);
    DropAt(es, i, k);
  }

  lemma {:induction false} SortedRemove(keys: seq<PkKey>, i: nat)
    requires Sorted(keys) && i < |keys|
    ensures Sorted(keys[..i] + keys[i + 1..])
  {
    hide Less;
  }

  lemma {:induction false} ZipRemove(keys: seq<PkKey>, vals: seq<Str>, i: nat)
    requires |keys| == |vals| && i < |keys|
    ensures Zip(keys[..i] + keys[i + 1..], vals[..i] + vals[i + 1..]) == Zip(keys, vals)[..i] + Zip(keys, vals)[i + 1..]
  {
    ZipConcat(keys[..i], vals[..i], keys[i + 1..], vals[i + 1..]);
  }

  lemma {:induction false} DropAt(es: seq<Entry>, i: nat, k: PkKey)
    requires i <= |es| && (i < |es| ==> es[i].key == k)
    requires forall j :: 0 <= j < i ==> es[j].key != k
    ensures DropKey(es, k) == if i < |es| then es[..i] + es[i + 1..] else es
    ensures Find(es, k) == if i < |es| then Some(es[i].val) else None
  {
    hide Less, Compare;
    if es != [] && i > 0 {
      var rest := es[1..];
      DropAt(rest, i - 1, k);
      assert DropKey(es, k) == [es[0]] + DropKey(rest, k);
      if i < |es| {
        assert rest[..i - 1] == es[1..i] && rest[i..] == es[i + 1..] && [es[0]] + es[1..i] == es[..i];
      } else {
        assert [es[0]] + rest == es;
      }
    }
  }
}
