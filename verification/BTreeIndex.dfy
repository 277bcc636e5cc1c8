/**
 The public B+tree: Get, Put, Delete, Seek and Ascend over the heap nodes of `BTreeNodes`,
 and the iterator that walks the leaf chain.
 */
module BTreeIndex {
  import opened Strings
  import opened BTreeModel
  import opened BTreeProofs
  import opened BTreeRuns
  import opened BTreeNodes

  /** The entries held by a run of leaves. */
  ghost function LeafEntries(ns: seq<BNode>): seq<Entry>
    reads ns
  {
    if ns == [] then [] else Zip(ns[0].keys, ns[0].vals) + LeafEntries(ns[1..])
  }

  lemma {:induction false} LeafEntriesConcat(a: seq<BNode>, b: seq<BNode>)
    ensures LeafEntries(a + b) == LeafEntries(a) + LeafEntries(b)
  {
    if a == [] {
      assert a + b == b;
    } else {
      assert (a + b)[1..] == a[1..] + b;
      LeafEntriesConcat(a[1..], b);
    }
  }

  /** The leaf chain carries the tree's entries in order. */
  lemma {:induction false} LeavesCarryEntries(s: Shape)
    requires Rep(s)
    ensures LeafEntries(LeafNodes(s)) == Entries(Erase(s))
  {
    if s.SNode? {
      ForestCarriesEntries(s.kids);
    } else {
      assert [s.n][1..] == [];
    }
  }

  lemma {:induction false} ForestCarriesEntries(ss: seq<Shape>)
    requires RepAll(ss)
    ensures LeafEntries(LeafNodesAll(ss)) == Flat(EraseAll(ss))
  {
    if ss != [] {
      LeavesCarryEntries(ss[0]);
      ForestCarriesEntries(ss[1..]);
      LeafEntriesConcat(LeafNodes(ss[0]), LeafNodesAll(ss[1..]));
      assert EraseAll(ss)[1..] == EraseAll(ss[1..]);
    }
  }

  /** Every leaf of a well-shaped subtree is marked as one and pairs keys with values. */
  ghost predicate LeavesOk(ns: seq<BNode>)
    reads ns
  {
    forall j :: 0 <= j < |ns| ==> ns[j].leaf && |ns[j].keys| == |ns[j].vals|
  }

  lemma {:induction false} LeavesAreLeaves(s: Shape)
    requires Rep(s) && Proper(Erase(s))
    ensures LeavesOk(LeafNodes(s))
  {
    if s.SNode? {
      forall i | 0 <= i < |s.kids| ensures Proper(Erase(s.kids[i])) {
        assert Erase(s.kids[i]) == Erase(s).kids[i];
      }
      ForestLeavesAreLeaves(s.kids);
    }
  }

  lemma {:induction false} ForestLeavesAreLeaves(ss: seq<Shape>)
    requires RepAll(ss) && forall i :: 0 <= i < |ss| ==> Proper(Erase(ss[i]))
    ensures LeavesOk(LeafNodesAll(ss))
  {
    if ss != [] {
      LeavesAreLeaves(ss[0]);
      ForestLeavesAreLeaves(ss[1..]);
    }
  }

  /** One step of the descent of Get and Seek: the child chosen isolates the key. */
  lemma {:induction false} Descend(s: Shape, h: nat, lo: Option<PkKey>, hi: Option<PkKey>, k: PkKey)
    requires s.SNode? && Rep(s) && Proper(Erase(s)) && WF(Erase(s), h, lo, hi) && InRange(k, lo, hi)
    ensures var i := ChildIndex(s.keys, k);
            && h > 0 && i < |s.kids| == |s.n.children| && s.n.children[i] == s.kids[i].n
            && Rep(s.kids[i]) && Proper(Erase(s.kids[i]))
            && WF(Erase(s.kids[i]), h - 1, Lo(s.keys, lo, i), Hi(s.keys, hi, i))
            && InRange(k, Lo(s.keys, lo, i), Hi(s.keys, hi, i))
            && Find(Entries(Erase(s)), k) == Find(Entries(Erase(s.kids[i])), k)
            && LeafNodes(s) == LeafNodesAll(s.kids[..i]) + LeafNodes(s.kids[i]) + LeafNodesAll(s.kids[i + 1..])
            && From(Entries(Erase(s)), k) == From(Entries(Erase(s.kids[i])), k) + LeafEntries(LeafNodesAll(s.kids[i + 1..]))
  {
    hide Less, Compare, Flat, Find, From, PutSorted, DropKey;
    var i := ChildIndex(s.keys, k);
    var t := Erase(s);
    assert Erase(s.kids[i]) == t.kids[i];
    Around(t, h, lo, hi, k);
    Localised(Flat(t.kids[..i]), Entries(t.kids[i]), Flat(t.kids[i + 1..]), k, []);
    LeafNodesAt(s.kids, i);
    assert RepAll(s.kids[i + 1..]);
    ForestCarriesEntries(s.kids[i + 1..]);
    assert EraseAll(s.kids[i + 1..]) == t.kids[i + 1..];
  }

  /** The descent of Get has reached node `n`, which alone decides about `k`. */
  ghost predicate AtNode(n: BNode, s: Shape, h: nat, lo: Option<PkKey>, hi: Option<PkKey>, k: PkKey, es: seq<Entry>)
    reads Foot(s)
  {
    && n == s.n && Rep(s) && Proper(Erase(s)) && WF(Erase(s), h, lo, hi) && InRange(k, lo, hi)
    && Find(Entries(Erase(s)), k) == Find(es, k)
  }

  lemma {:induction false} AtRoot(s: Shape, k: PkKey)
    requires Holds(s, null) && Sound(Erase(s))
    ensures AtNode(s.n, s, Height(Erase(s)), None, None, k, Entries(Erase(s)))
  {
    hide Less, Compare, Flat, Find, Entries, WF;
  }

  lemma {:induction false} AtChild(n: BNode, s: Shape, h: nat, lo: Option<PkKey>, hi: Option<PkKey>, k: PkKey, es: seq<Entry>)
    requires AtNode(n, s, h, lo, hi, k, es) && !n.leaf
    ensures var i := ChildIndex(n.keys, k);
            && s.SNode? && h > 0 && i < |n.children| && i < |s.kids| && i <= |s.keys|
            && AtNode(n.children[i], s.kids[i], h - 1, Lo(s.keys, lo, i), Hi(s.keys, hi, i), k, es)
  {
    hide Less, Compare, Flat, Find, Entries, WF, From;
    Descend(s, h, lo, hi, k);
  }

  lemma {:induction false} AtLeaf(n: BNode, s: Shape, h: nat, lo: Option<PkKey>, hi: Option<PkKey>, k: PkKey, es: seq<Entry>)
    requires AtNode(n, s, h, lo, hi, k, es) && n.leaf
    ensures |n.keys| == |n.vals| && Find(Zip(n.keys, n.vals), k) == Find(es, k)
  {
    hide Less, Compare, Flat, Find;
  }

  /** The entries from position `idx` of leaf `pos` onwards. */
  ghost function Rest(leaves: seq<BNode>, pos: nat, idx: nat): seq<Entry>
    requires pos <= |leaves| && LeavesOk(leaves) && (pos < |leaves| ==> idx <= |leaves[pos].keys|)
    reads leaves
  {
    if pos == |leaves| then []
    else Zip(leaves[pos].keys, leaves[pos].vals)[idx..] + LeafEntries(leaves[pos + 1..])
  }

  lemma {:induction false} ZipIndex(keys: seq<PkKey>, vals: seq<Str>, i: nat)
    requires i < |keys| == |vals|
    ensures Zip(keys, vals)[i] == Entry(keys[i], vals[i])
  {
  }

  lemma {:induction false} RestWithin(leaves: seq<BNode>, pos: nat, idx: nat)
    requires pos < |leaves| && LeavesOk(leaves) && idx < |leaves[pos].keys|
    ensures Rest(leaves, pos, idx) == [Entry(leaves[pos].keys[idx], leaves[pos].vals[idx])] + Rest(leaves, pos, idx + 1)
  {
    hide LeafEntries, Zip;
    var z := Zip(leaves[pos].keys, leaves[pos].vals);
    assert z[idx] == Entry(leaves[pos].keys[idx], leaves[pos].vals[idx]) by { ZipIndex(leaves[pos].keys, leaves[pos].vals, idx); }
    assert z[idx..] == [z[idx]] + z[idx + 1..];
  }

  lemma {:induction false} RestNextLeaf(leaves: seq<BNode>, pos: nat)
    requires pos < |leaves| && LeavesOk(leaves)
    ensures Rest(leaves, pos, |leaves[pos].keys|) == Rest(leaves, pos + 1, 0)
  {
    if pos + 1 < |leaves| {
      assert leaves[pos + 1..][0] == leaves[pos + 1] && leaves[pos + 1..][1..] == leaves[pos + 2..];
    }
  }

  lemma {:induction false} NextLeaf(leaves: seq<BNode>, pos: nat)
    requires pos < |leaves| && Linked(leaves, null)
    ensures leaves[pos].next == if pos + 1 < |leaves| then leaves[pos + 1] else null
  {
    assert leaves[pos].next == Following(leaves, null, pos);
  }

  lemma {:induction false} PairedLeaf(leaves: seq<BNode>, pos: nat)
    requires pos < |leaves| && LeavesOk(leaves)
    ensures |leaves[pos].keys| == |leaves[pos].vals|
  {
  }

  /** Where a descent for `k` stands: `pre` and `post` are the leaves left and right of
      the subtree `s`, and the entries sought are in `s` or in `post`. */
  ghost predicate OnPath(s: Shape, h: nat, lo: Option<PkKey>, hi: Option<PkKey>, k: PkKey,
                         all: seq<BNode>, es: seq<Entry>, pre: seq<BNode>, post: seq<BNode>)
    reads Foot(s), post
  {
    && Rep(s) && Proper(Erase(s)) && WF(Erase(s), h, lo, hi) && InRange(k, lo, hi)
    && all == pre + LeafNodes(s) + post
    && From(es, k) == From(Entries(Erase(s)), k) + LeafEntries(post)
  }

  lemma {:induction false} PathStart(s: Shape, h: nat, k: PkKey)
    requires Rep(s) && Proper(Erase(s)) && WF(Erase(s), h, None, None)
    ensures OnPath(s, h, None, None, k, LeafNodes(s), Entries(Erase(s)), [], []) && s.n in Foot(s)
  {
    EmptyLeaves();
  }

  lemma {:induction false} PathStep(s: Shape, h: nat, lo: Option<PkKey>, hi: Option<PkKey>, k: PkKey,
                                    all: seq<BNode>, es: seq<Entry>, pre: seq<BNode>, post: seq<BNode>)
    requires OnPath(s, h, lo, hi, k, all, es, pre, post) && s.n in Foot(s) && !s.n.leaf
    ensures s.SNode? && s.n.keys == s.keys && h > 0
    ensures var i := ChildIndex(s.keys, k);
            && i < |s.kids| == |s.n.children| && s.n.children[i] == s.kids[i].n && s.kids[i].n in Foot(s.kids[i])
            && OnPath(s.kids[i], h - 1, Lo(s.keys, lo, i), Hi(s.keys, hi, i), k, all, es,
                      pre + LeafNodesAll(s.kids[..i]), LeafNodesAll(s.kids[i + 1..]) + post)
  {
    hide Less, From, LeafEntries, LeafNodesAll, WF, Entries;
    Descend(s, h, lo, hi, k);
    var i := ChildIndex(s.keys, k);
    var a, b := LeafNodesAll(s.kids[..i]), LeafNodesAll(s.kids[i + 1..]);
    LeafEntriesConcat(b, post);
    assert pre + (a + LeafNodes(s.kids[i]) + b) + post == (pre + a) + LeafNodes(s.kids[i]) + (b + post);
  }

  lemma {:induction false} PathEnd(s: Shape, h: nat, lo: Option<PkKey>, hi: Option<PkKey>, k: PkKey,
                                   all: seq<BNode>, es: seq<Entry>, pre: seq<BNode>, post: seq<BNode>)
    requires OnPath(s, h, lo, hi, k, all, es, pre, post) && s.n in Foot(s) && s.n.leaf && LeavesOk(all)
    ensures var p, i := |pre|, LeafIndex(s.n.keys, k);
            && p < |all| && all[p] == s.n && i <= |s.n.keys|
            && Rest(all, p, i) == From(es, k)
  {
    hide Less, From, LeafEntries, Entries, LeafIndex;
    var p := |pre|;
    assert LeafNodes(s) == [s.n] && all[p] == s.n && all[p + 1..] == post;
    LeafOnly(s);
    LeafFrom(s.n.keys, s.n.vals, k);
    RestIs(all, p, LeafIndex(s.n.keys, k));
  }

  lemma {:induction false} LeafOnly(s: Shape)
    requires s.SLeaf?
    ensures Entries(Erase(s)) == Zip(s.keys, s.vals)
  {
  }

  /** `btreeIter` */
  class Iter {
    var node: BNode?
    var idx: nat
    ghost var leaves: seq<BNode>
    ghost var pos: nat

    ghost predicate Valid()
      reads this, leaves
    {
      && pos <= |leaves|
      && node == (if pos < |leaves| then leaves[pos] else null)
      && (pos < |leaves| ==> idx <= |leaves[pos].keys|)
      && Linked(leaves, null) && LeavesOk(leaves)
    }

    /** The entries still to be returned. */
    ghost function Remaining(): seq<Entry>
      requires Valid()
      reads this, leaves
    {
      Rest(leaves, pos, idx)
    }

    constructor (n: BNode, i: nat, ghost ns: seq<BNode>, ghost p: nat)
      requires p < |ns| && ns[p] == n && i <= |n.keys| && Linked(ns, null) && LeavesOk(ns)
      ensures Valid() && leaves == ns && pos == p && idx == i
    {
      node, idx, leaves, pos := n, i, ns, p;
    }

    /** Returns the remaining entries one by one, skipping leaves that deletion emptied. */
    method Next() returns (r: Option<Entry>)
      requires Valid()
      modifies this
      ensures Valid() && leaves == old(leaves)
      ensures r == if old(Remaining()) == [] then None else Some(old(Remaining())[0])
      ensures Remaining() == if old(Remaining()) == [] then [] else old(Remaining())[1..]
    {
      hide Rest, Linked, LeavesOk;
      while node != null
        invariant Valid() && leaves == old(leaves)
        invariant Remaining() == old(Remaining())
        decreases |leaves| - pos
      {
        PairedLeaf(leaves, pos);
        if idx < |node.keys| {
          r := Some(Entry(node.keys[idx], node.vals[idx]));
          RestWithin(leaves, pos, idx);
          idx := idx + 1;
          return;
        }
        NextLeaf(leaves, pos);
        RestNextLeaf(leaves, pos);
        node, idx, pos := node.next, 0, pos + 1;
      }
      r := None;
      RestEnd(leaves);
    }
  }

  lemma {:induction false} RestEnd(leaves: seq<BNode>)
    requires LeavesOk(leaves)
    ensures Rest(leaves, |leaves|, 0) == []
    ensures forall i: nat :: Rest(leaves, |leaves|, i) == []
  {
  }

  lemma {:induction false} SoundProper(t: BTreeModel.Tree)
    requires Sound(t)
    ensures Proper(t)
  {
  }

  lemma {:induction false} NoCollapse(s: Shape)
    requires Holds(s, null) && Sound(Erase(s))
    ensures s.n in Foot(s) && (!s.n.leaf ==> |s.n.keys| > 0)
  {
  }

  /** A split root under a new one. */
  lemma {:induction false} RootOver(r: BNode, up: PkKey, out: seq<Shape>, before: seq<BNode>)
    requires |out| == 2 && Grove(out, null, before) && r !in FootAll(out)
    requires !r.leaf && r.keys == [up] && r.children == [out[0].n, out[1].n]
    requires Proper(Node([up], [Erase(out[0]), Erase(out[1])]))
    ensures var s := SNode(r, [up], out);
            && Holds(s, null) && Foot(s) == {r} + FootAll(out)
            && Erase(s) == Node([up], [Erase(out[0]), Erase(out[1])])
  {
    hide Foot, FootAll, LeafNodes, Erase, Linked;
    assert forall j :: 0 <= j < |out| ==> r.children[j] == out[j].n;
    NodeOver(r, out);
    assert EraseAll(out) == [Erase(out[0]), Erase(out[1])];
  }

  lemma {:induction false} OnlyRoot(out: seq<Shape>, before: seq<BNode>)
    requires |out| == 1 && Grove(out, null, before) && Proper(Erase(out[0]))
    ensures Holds(out[0], null) && Foot(out[0]) == FootAll(out)
  {
    hide Foot, LeafNodes, Erase, Linked, Rep, Separate;
    Singleton(out[0]);
    assert out == [out[0]];
  }

  lemma {:induction false} EmptyLeaves()
    ensures LeafEntries([]) == []
  {
  }

  /** Within its leaf, the entries at or above `k` start at the scan's position. */
  lemma {:induction false} LeafFrom(keys: seq<PkKey>, vals: seq<Str>, k: PkKey)
    requires |keys| == |vals|
    ensures From(Zip(keys, vals), k) == Zip(keys, vals)[LeafIndex(keys, k)..]
  {
    hide Less, Compare;
    FromAt(Zip(keys, vals), LeafIndex(keys, k), k);
  }

  lemma {:induction false} FromAt(es: seq<Entry>, i: nat, k: PkKey)
    requires i <= |es| && (i < |es| ==> !Less(es[i].key, k))
    requires forall j :: 0 <= j < i ==> Less(es[j].key, k)
    ensures From(es, k) == es[i..]
  {
    hide Less;
    if i > 0 { FromAt(es[1..], i - 1, k); }
  }

  lemma {:induction false} RestIs(leaves: seq<BNode>, pos: nat, idx: nat)
    requires pos < |leaves| && LeavesOk(leaves) && idx <= |leaves[pos].keys|
    ensures Rest(leaves, pos, idx) == Zip(leaves[pos].keys, leaves[pos].vals)[idx..] + LeafEntries(leaves[pos + 1..])
  {
  }

  /** `btree` */
  class BTree {
    var root: BNode
    ghost var shape: Shape

    ghost predicate Valid()
      reads this, Foot(shape)
    {
      shape.n == root && Holds(shape, null) && Sound(Erase(shape))
    }

    /** The tree as a value. */
    ghost function Tree(): BTreeModel.Tree
      reads this
    {
      Erase(shape)
    }

    /** The finite map the tree stands for. */
    ghost function Map(): map<PkKey, Str>
      reads this
    {
      Contents(Tree())
    }

    constructor ()
      ensures Valid() && fresh(Foot(shape)) && Map() == map[] && Entries(Tree()) == []
    {
      var n := new BNode.MakeLeaf([], [], null);
      root, shape := n, SLeaf(n, [], []);
    }

    method Get(k: PkKey) returns (r: Option<Str>)
      requires Valid()
      ensures r == if k in Map() then Some(Map()[k]) else None
    {
      hide AtNode, Find, ToMap, Foot, Rep, Holds, Sound, Erase, Entries, WF, LeafNodes, Linked;
      ghost var es := Entries(Tree());
      FindIsMapLookup(es, k);
      var n := root;
      ghost var s, h, lo: Option<PkKey>, hi: Option<PkKey> := shape, Height(Tree()), None, None;
      AtRoot(shape, k);
      while !n.leaf
        invariant AtNode(n, s, h, lo, hi, k, es)
        decreases h
      {
        FootAllocated(s);
        var i := n.ChildPosition(k);
        AtChild(n, s, h, lo, hi, k, es);
        n := n.children[i];
        h, lo, hi, s := h - 1, Lo(s.keys, lo, i), Hi(s.keys, hi, i), s.kids[i];
      }
      AtLeaf(n, s, h, lo, hi, k, es);
      KeyIndexDrops(n.keys, n.vals, k);
      var i := n.KeyPosition(k);
      r := if i < |n.keys| then Some(n.vals[i]) else None;
    }

    method Put(k: PkKey, v: Str)
      requires Valid()
      modifies this, Foot(shape)
      ensures Valid() && fresh(Foot(shape) - old(Foot(shape)))
      ensures Tree() == PutRoot(old(Tree()), k, v)
      ensures Map() == old(Map())[k := v]
      ensures Entries(Tree()) == PutSorted(old(Entries(Tree())), k, v)
    {
      hide Foot, FootAll, LeafNodes, Erase, EraseAll, Entries, PutSorted, Contents, Sound, Insert, Weight;
      ghost var t := Tree();
      SoundProper(t);
      StepSound(t, PutCmd(k, v));
      SoundProper(PutRoot(t, k, v));
      var up, right, grew, out := root.Insert(k, v, shape, null);
      if grew {
        FootAllocatedAll(out);
        label Split:
        var r := new BNode.MakeInterior([up], [root, right]);
        assert unchanged@Split(FootAll(out));
        RootOver(r, up, out, old(LeafNodes(shape)));
        root, shape := r, SNode(r, [up], out);
      } else {
        shape := out[0];
        OnlyRoot(out, old(LeafNodes(shape)));
      }
    }

    method Delete(k: PkKey)
      requires Valid()
      modifies this, Foot(shape)
      ensures Valid() && Foot(shape) == old(Foot(shape))
      ensures Tree() == BTreeModel.Delete(old(Tree()), k)
      ensures Map() == old(Map()) - {k}
      ensures Entries(Tree()) == DropKey(old(Entries(Tree())), k)
    {
      hide Foot, LeafNodes, Erase, Entries, DropKey, Contents, Sound, BTreeModel.Delete, Weight;
      ghost var t := Tree();
      SoundProper(t);
      StepSound(t, DeleteCmd(k));
      ghost var s := root.Delete(k, shape, null);
      shape := s;
      NoCollapse(s);
      // The code would make the only child of an interior root without keys the new
      // root; no such root occurs.
      if !root.leaf && |root.keys| == 0 {
        assert false;
      }
    }

    /** The descent of Seek: the leaf and position where the entries at or above `k` start. */
    method Locate(k: PkKey) returns (n: BNode, i: nat, ghost p: nat)
      requires Valid()
      ensures var all := LeafNodes(shape);
              && p < |all| && all[p] == n && LeavesOk(all) && Linked(all, null) && i <= |n.keys|
              && Rest(all, p, i) == From(Entries(Tree()), k)
    {
      hide OnPath, LeavesOk, Linked;
      ghost var es, all := Entries(Tree()), LeafNodes(shape);
      LeavesAreLeaves(shape);
      n := root;
      ghost var s, h, lo: Option<PkKey>, hi: Option<PkKey> := shape, Height(Tree()), None, None;
      ghost var pre, post: seq<BNode> := [], [];
      PathStart(shape, h, k);
      assert n == s.n && n in Foot(s) && LeavesOk(all) && Linked(all, null);
      hide *;
      while !n.leaf
        invariant n == s.n && n in Foot(s) && OnPath(s, h, lo, hi, k, all, es, pre, post)
        invariant LeavesOk(all) && Linked(all, null)
        decreases h
      {
        PathStep(s, h, lo, hi, k, all, es, pre, post);
        i := ChildIndex(n.keys, k);
        n := n.children[i];
        pre, post := pre + LeafNodesAll(s.kids[..i]), LeafNodesAll(s.kids[i + 1..]) + post;
        h, lo, hi, s := h - 1, Lo(s.keys, lo, i), Hi(s.keys, hi, i), s.kids[i];
      }
      p := |pre|;
      i := LeafIndex(n.keys, k);
      PathEnd(s, h, lo, hi, k, all, es, pre, post);
    }

    /** An iterator over the entries with key at least `k`. */
    method Seek(k: PkKey) returns (it: Iter)
      requires Valid()
      ensures fresh(it) && it.Valid() && it.leaves == LeafNodes(shape)
      ensures it.Remaining() == From(Entries(Tree()), k)
    {
      hide Foot, LeafNodes, Erase, Entries, From, Rest, LeavesOk, Linked, Holds, Sound;
      ghost var all := LeafNodes(shape);
      FootAllocated(shape);
      LeafNodesInFoot(shape);
      var n, i, p := Locate(k);
      it := new Iter(n, i, all, p);
    }

    /** An iterator over all entries. */
    method Ascend() returns (it: Iter)
      requires Valid()
      ensures fresh(it) && it.Valid() && it.leaves == LeafNodes(shape)
      ensures it.Remaining() == Entries(Tree())
    {
      hide Less, Flat, LeafEntries;
      ghost var all := LeafNodes(shape);
      FootAllocated(shape);
      LeafNodesInFoot(shape);
      LeavesAreLeaves(shape);
      LeavesCarryEntries(shape);
      var n := root;
      ghost var s, h := shape, Height(Tree());
      HasLeaf(shape);
      while !n.leaf
        invariant n == s.n && Rep(s) && Proper(Erase(s)) && Height(Erase(s)) == h
        invariant LeafNodes(s) != [] && LeafNodes(s)[0] == all[0]
        decreases h
      {
        FirstChild(s);
        n := n.children[0];
        h, s := h - 1, s.kids[0];
      }
      RestAll(all);
      it := new Iter(n, 0, all, 0);
    }
  }

  lemma {:induction false} FirstChild(s: Shape)
    requires s.SNode? && Rep(s) && Proper(Erase(s))
    ensures |s.kids| > 0 && |s.n.children| == |s.kids| && s.n.children[0] == s.kids[0].n
    ensures Rep(s.kids[0]) && Proper(Erase(s.kids[0])) && Height(Erase(s)) == 1 + Height(Erase(s.kids[0]))
    ensures LeafNodes(s.kids[0]) != [] && LeafNodes(s) != [] && LeafNodes(s)[0] == LeafNodes(s.kids[0])[0]
  {
    assert Erase(s.kids[0]) == Erase(s).kids[0];
    HasLeaf(s.kids[0]);
    assert LeafNodesAll(s.kids) == LeafNodes(s.kids[0]) + LeafNodesAll(s.kids[1..]);
  }

  lemma {:induction false} RestAll(leaves: seq<BNode>)
    requires leaves != [] && LeavesOk(leaves)
    ensures Rest(leaves, 0, 0) == LeafEntries(leaves)
  {
  }

  /** Seek followed by Next until it reports the end: exactly the entries at or above
      `k`, once each, in ascending order. */
  method CollectFrom(t: BTree, k: PkKey) returns (out: seq<Entry>)
    requires t.Valid()
    ensures out == From(Entries(t.Tree()), k)
    ensures SortedEntries(out) && forall e :: e in out <==> e in Entries(t.Tree()) && !Less(e.key, k)
  {
    hide Foot, LeafNodes, Erase, Entries, From, Rest, LeafEntries, Holds, WF, Less, SortedEntries, Linked, LeavesOk;
    ghost var es := Entries(t.Tree());
    EntriesSorted(t.Tree(), Height(t.Tree()), None, None);
    FromExact(es, k);
    var it := t.Seek(k);
    out := [];
    var more := true;
    while more
      invariant fresh(it) && it.Valid() && unchanged(t)
      invariant out + it.Remaining() == From(es, k)
      invariant !more ==> it.Remaining() == []
      decreases |it.Remaining()|, more
    {
      var r := it.Next();
      match r {
        case Some(e) => out := out + [e];
        case None => more := false;
      }
    }
  }

  lemma {:induction false} FromExact(es: seq<Entry>, k: PkKey)
    requires SortedEntries(es)
    ensures SortedEntries(From(es, k)) && forall e :: e in From(es, k) <==> e in es && !Less(e.key, k)
  {
    hide Less, From;
    FromIsSuffix(es, k);
    var f := From(es, k);
    var d := |es| - |f|;
    forall e | e in es && !Less(e.key, k) ensures e in f {
      var i :| 0 <= i < |es| && es[i] == e;
      assert f[i - d] == e;
    }
    forall e | e in f ensures e in es && !Less(e.key, k) {
      var i :| 0 <= i < |f| && f[i] == e;
      assert es[i + d] == e;
    }
  }
}
