/**
 The B+tree on the heap: nodes with mutable key, value and child lists and a chain
 of leaves, as in btree.go.  A ghost `Shape` names the nodes of a subtree; `Rep` says
 the heap holds that shape, and every method is proved to turn the erased shape into
 the tree that `BTreeModel` computes.
 */
module BTreeNodes {
  import opened Strings
  import opened BTreeModel

  /** A subtree with the identities of its nodes. */
  datatype Shape =
    | SLeaf(n: BNode, keys: seq<PkKey>, vals: seq<Str>)
    | SNode(n: BNode, keys: seq<PkKey>, kids: seq<Shape>)

  /** The nodes of a subtree. */
  ghost function Foot(s: Shape): set<BNode>
  {
    match s
    case SLeaf(n, _, _) => {n}
    case SNode(n, _, kids) => {n} + FootAll(kids)
  }

  ghost function FootAll(ss: seq<Shape>): set<BNode>
  {
    set i, x | 0 <= i < |ss| && x in Foot(ss[i]) :: x
  }

  /** The leaf nodes of a subtree, left to right. */
  ghost function LeafNodes(s: Shape): seq<BNode>
  {
    match s
    case SLeaf(n, _, _) => [n]
    case SNode(_, _, kids) => LeafNodesAll(kids)
  }

  ghost function LeafNodesAll(ss: seq<Shape>): seq<BNode>
  {
    if ss == [] then [] else LeafNodes(ss[0]) + LeafNodesAll(ss[1..])
  }

  ghost function Erase(s: Shape): Tree
  {
    match s
    case SLeaf(_, keys, vals) => Leaf(keys, vals)
    case SNode(_, keys, kids) => Node(keys, EraseAll(kids))
  }

  ghost function EraseAll(ss: seq<Shape>): (ts: seq<Tree>)
    ensures |ts| == |ss|
    ensures forall i :: 0 <= i < |ss| ==> ts[i] == Erase(ss[i])
  {
    seq(|ss|, i requires 0 <= i < |ss| => Erase(ss[i]))
  }

  /** No node occurs twice. */
  ghost predicate Separate(s: Shape)
  {
    match s
    case SLeaf(_, _, _) => true
    case SNode(n, _, kids) => n !in FootAll(kids) && Apart(kids)
  }

  ghost predicate Apart(ss: seq<Shape>)
  {
    && (forall i :: 0 <= i < |ss| ==> Separate(ss[i]))
    && (forall i, j :: 0 <= i < j < |ss| ==> Foot(ss[i]) !! Foot(ss[j]))
  }

  /** The heap holds the shape. */
  ghost predicate Rep(s: Shape)
    reads Foot(s)
  {
    match s
    case SLeaf(n, keys, vals) => n.leaf && n.keys == keys && n.vals == vals
    case SNode(n, keys, kids) =>
      && !n.leaf && n.keys == keys && |n.children| == |kids|
      && (forall i :: 0 <= i < |kids| ==> n.children[i] == kids[i].n)
      && RepAll(kids)
  }

  ghost predicate RepAll(ss: seq<Shape>)
    reads FootAll(ss)
  {
    forall i :: 0 <= i < |ss| ==> Rep(ss[i])
  }

  /** Each node's `next` is the following one; the last one's is `tail`. */
  ghost predicate Linked(ns: seq<BNode>, tail: BNode?)
    reads ns
  {
    forall i :: 0 <= i < |ns| ==> ns[i].next == Following(ns, tail, i)
  }

  ghost function Following(ns: seq<BNode>, tail: BNode?, i: nat): BNode?
    requires i < |ns|
  {
    if i + 1 < |ns| then ns[i + 1] else tail
  }

  /** The subtree is in the heap, its nodes are distinct, and its leaves are linked up to `tail`. */
  ghost predicate Holds(s: Shape, tail: BNode?)
    reads Foot(s)
  {
    LeafNodesInFoot(s);
    Rep(s) && Separate(s) && Proper(Erase(s)) && Linked(LeafNodes(s), tail)
  }

  /** The same for a forest, whose first leaf is also that of `before`. */
  ghost predicate Grove(ss: seq<Shape>, tail: BNode?, before: seq<BNode>)
    reads FootAll(ss)
  {
    LeafNodesInFootAll(ss);
    && RepAll(ss) && Apart(ss) && Linked(LeafNodesAll(ss), tail)
    && LeafNodesAll(ss) != [] && before != [] && LeafNodesAll(ss)[0] == before[0]
  }

  /** What the trees left by an insertion stand for. */
  ghost function Outcome(out: seq<Shape>, up: PkKey): Grown
    requires 1 <= |out| <= 2
  {
    if |out| == 1 then One(Erase(out[0])) else Two(Erase(out[0]), up, Erase(out[1]))
  }

  // ---------------------------------------------------------- shape lemmas

  lemma {:induction false} LeafNodesConcat(a: seq<Shape>, b: seq<Shape>)
    ensures LeafNodesAll(a + b) == LeafNodesAll(a) + LeafNodesAll(b)
  {
    if a == [] {
      assert a + b == b;
    } else {
      assert (a + b)[1..] == a[1..] + b;
      LeafNodesConcat(a[1..], b);
    }
  }

  lemma {:induction false} LeafNodesInFoot(s: Shape)
    ensures forall x :: x in LeafNodes(s) ==> x in Foot(s)
    ensures forall j :: 0 <= j < |LeafNodes(s)| ==> LeafNodes(s)[j] in Foot(s)
  {
    if s.SNode? { LeafNodesInFootAll(s.kids); }
  }

  lemma {:induction false} LeafNodesInFootAll(ss: seq<Shape>)
    ensures forall x :: x in LeafNodesAll(ss) ==> x in FootAll(ss)
    ensures forall j :: 0 <= j < |LeafNodesAll(ss)| ==> LeafNodesAll(ss)[j] in FootAll(ss)
  {
    if ss != [] {
      LeafNodesInFoot(ss[0]);
      LeafNodesInFootAll(ss[1..]);
      forall x | x in LeafNodesAll(ss) ensures x in FootAll(ss) {
        if x in LeafNodes(ss[0]) {
          assert x in Foot(ss[0]);
        } else {
          assert x in LeafNodesAll(ss[1..]);
          var i :| 0 <= i < |ss[1..]| && x in Foot(ss[1..][i]);
          assert x in Foot(ss[i + 1]);
        }
      }
    }
  }

  /** The nodes of a shape exist, so what no method changes stays as it is. */
  lemma {:induction false} FootAllocated(s: Shape)
    ensures forall x :: x in Foot(s) ==> allocated(x)
  {
    if s.SNode? {
      forall i | 0 <= i < |s.kids| ensures forall x :: x in Foot(s.kids[i]) ==> allocated(x) {
        FootAllocated(s.kids[i]);
      }
      forall x | x in Foot(s) ensures allocated(x) {
        if x != s.n {
          assert x in FootAll(s.kids);
          var i :| 0 <= i < |s.kids| && x in Foot(s.kids[i]);
        }
      }
    }
  }

  /** A proper subtree has a leaf. */
  lemma {:induction false} HasLeaf(s: Shape)
    requires Proper(Erase(s))
    ensures LeafNodes(s) != []
  {
    if s.SNode? {
      assert Proper(Erase(s).kids[0]);
      HasLeaf(s.kids[0]);
      assert LeafNodesAll(s.kids) == LeafNodes(s.kids[0]) + LeafNodesAll(s.kids[1..]);
    }
  }

  lemma {:induction false} LinkedConcat(a: seq<BNode>, b: seq<BNode>, tail: BNode?)
    ensures Linked(a + b, tail) <==> Linked(a, if b == [] then tail else b[0]) && Linked(b, tail)
  {
    var c := a + b;
    var mid := if b == [] then tail else b[0];
    forall i | 0 <= i < |a| ensures c[i] == a[i] && Following(c, tail, i) == Following(a, mid, i) {
    }
    forall i | 0 <= i < |b| ensures c[|a| + i] == b[i] && Following(c, tail, |a| + i) == Following(b, tail, i) {
    }
    if Linked(a, mid) && Linked(b, tail) {
      forall i | 0 <= i < |c| ensures c[i].next == Following(c, tail, i) {
        if i >= |a| {
          assert Following(c, tail, |a| + (i - |a|)) == Following(b, tail, i - |a|);
          assert c[i] == b[i - |a|];
        } else {
          assert Following(c, tail, i) == Following(a, mid, i);
        }
      }
    }
    if Linked(c, tail) {
      forall i | 0 <= i < |a| ensures a[i].next == Following(a, mid, i) {
        assert c[i].next == Following(c, tail, i);
      }
      forall i | 0 <= i < |b| ensures b[i].next == Following(b, tail, i) {
        assert c[|a| + i].next == Following(c, tail, |a| + i);
      }
    }
  }

  /** Replacing one subtree of a forest by subtrees on its own or new nodes. */
  lemma {:induction false} ApartSplice(kids: seq<Shape>, i: nat, out: seq<Shape>)
    requires i < |kids| && Apart(kids) && Apart(out)
    requires forall j :: 0 <= j < |kids| && j != i ==> FootAll(out) !! Foot(kids[j])
    ensures Apart(kids[..i] + out + kids[i + 1..])
  {
    var f := kids[..i] + out + kids[i + 1..];
    forall x | 0 <= x < |out| ensures Foot(out[x]) <= FootAll(out) { }
    forall x | 0 <= x < |f| ensures Separate(f[x]) {
      assert f[x] == Spliced(kids, i, out, x);
    }
    forall x, y | 0 <= x < y < |f| ensures Foot(f[x]) !! Foot(f[y]) {
      assert f[x] == Spliced(kids, i, out, x) && f[y] == Spliced(kids, i, out, y);
    }
  }

  ghost function Spliced(kids: seq<Shape>, i: nat, out: seq<Shape>, x: nat): Shape
    requires i < |kids| && x < |kids| - 1 + |out|
  {
    if x < i then kids[x] else if x < i + |out| then out[x - i] else kids[x - |out| + 1]
  }

  class BNode {
    var leaf: bool
    var keys: seq<PkKey>
    var children: seq<BNode>
    var vals: seq<Str>
    var next: BNode?

    constructor MakeLeaf(keys: seq<PkKey>, vals: seq<Str>, next: BNode?)
      ensures leaf && this.keys == keys && this.vals == vals && this.next == next
      ensures Rep(SLeaf(this, keys, vals))
    {
      leaf, children := true, [];
      this.keys, this.vals, this.next := keys, vals, next;
    }

    constructor MakeInterior(keys: seq<PkKey>, children: seq<BNode>)
      ensures !leaf && this.keys == keys && this.children == children
    {
      leaf, vals, next := false, [], null;
      this.keys, this.children := keys, children;
    }

    /** The scan of `insertLeaf` and `Seek`: the first key not below `k`. */
    method LeafPosition(k: PkKey) returns (i: nat)
      ensures i == LeafIndex(keys, k)
    {
      i := 0;
      while i < |keys| && Compare(keys[i], k) < 0
        invariant i <= |keys|
        invariant i + LeafIndex(keys[i..], k) == LeafIndex(keys, k)
      {
        assert keys[i..][0] == keys[i] && keys[i..][1..] == keys[i + 1..];
        i := i + 1;
      }
    }

    /** `childIndex` as a loop; the methods below use the function it computes. */
    method ChildPosition(k: PkKey) returns (i: nat)
      ensures i == ChildIndex(keys, k)
    {
      i := 0;
      while i < |keys| && Compare(k, keys[i]) >= 0
        invariant i <= |keys|
        invariant i + ChildIndex(keys[i..], k) == ChildIndex(keys, k)
      {
        assert keys[i..][0] == keys[i] && keys[i..][1..] == keys[i + 1..];
        i := i + 1;
      }
    }

    /** The scan of `Get` and `delete`: the first key equal to `k`. */
    method KeyPosition(k: PkKey) returns (i: nat)
      ensures i == KeyIndex(keys, k)
    {
      i := 0;
      while i < |keys| && Compare(keys[i], k) != 0
        invariant i <= |keys|
        invariant i + KeyIndex(keys[i..], k) == KeyIndex(keys, k)
      {
        assert keys[i..][0] == keys[i] && keys[i..][1..] == keys[i + 1..];
        i := i + 1;
      }
    }

    /** `insertLeaf` */
    method InsertLeaf(k: PkKey, v: Str) returns (up: PkKey, right: BNode?, grew: bool)
      requires leaf && |keys| == |vals|
      modifies this
      ensures leaf && grew == (right != null)
      ensures match BTreeModel.InsertLeaf(old(keys), old(vals), k, v)
              case One(t) => !grew && t.Leaf? && keys == t.keys && vals == t.vals && next == old(next)
              case Two(l, sep, r) =>
                && grew && up == sep && l.Leaf? && r.Leaf?
                && keys == l.keys && vals == l.vals && next == right
                && fresh(right) && right.leaf && right.keys == r.keys && right.vals == r.vals && right.next == old(next)
    {
      hide LeafIndex, Compare;
      up, right, grew := PkInt(0), null, false;
      var i := LeafPosition(k);
      if i < |keys| && Compare(keys[i], k) == 0 {
        vals := vals[i := v];
        return;
      }
      keys := keys[..i] + [k] + keys[i..];
      vals := vals[..i] + [v] + vals[i..];
      if |keys| <= ORDER {
        return;
      }
      up, right := SplitLeaf();
      grew := true;
    }

    /** `splitLeaf`: the new right half takes over the sibling pointer. */
    method SplitLeaf() returns (up: PkKey, right: BNode)
      requires leaf && |keys| == |vals| > 0
      modifies this
      ensures leaf && fresh(right) && right.leaf
      ensures Two(Leaf(keys, vals), up, Leaf(right.keys, right.vals)) == BTreeModel.SplitLeaf(old(keys), old(vals))
      ensures next == right && right.next == old(next)
    {
      var mid := |keys| / 2;
      right := new BNode.MakeLeaf(keys[mid..], vals[mid..], next);
      keys, vals, next := keys[..mid], vals[..mid], right;
      up := right.keys[0];
    }

    /** `insert` */
    method Insert(k: PkKey, v: Str, ghost s: Shape, ghost tail: BNode?)
        returns (up: PkKey, right: BNode?, grew: bool, ghost out: seq<Shape>)
      requires s.n == this && Holds(s, tail)
      modifies Foot(s)
      ensures Result(this, right, grew, out, tail, LeafNodes(s))
      ensures fresh(FootAll(out) - Foot(s))
      ensures Outcome(out, up) == BTreeModel.Insert(Erase(s), k, v)
      decreases s, 2
    {
      if leaf {
        up, right, grew, out := InsertAtLeaf(k, v, s, tail);
      } else {
        up, right, grew, out := InsertAtInterior(k, v, s, tail);
      }
    }

    method InsertAtLeaf(k: PkKey, v: Str, ghost s: Shape, ghost tail: BNode?)
        returns (up: PkKey, right: BNode?, grew: bool, ghost out: seq<Shape>)
      requires s.SLeaf? && s.n == this && Holds(s, tail)
      modifies this
      ensures Result(this, right, grew, out, tail, LeafNodes(s))
      ensures fresh(FootAll(out) - {this})
      ensures Outcome(out, up) == BTreeModel.Insert(Erase(s), k, v)
    {
      assert LeafNodes(s) == [this] && Following([this], tail, 0) == tail;
      assert next == tail;
      hide Grove, BTreeModel.InsertLeaf;
      up, right, grew := InsertLeaf(k, v);
      out := [SLeaf(this, keys, vals)];
      if grew { out := out + [SLeaf(right, right.keys, right.vals)]; }
      LeafResult(this, right, grew, out, tail);
    }

    method InsertAtInterior(k: PkKey, v: Str, ghost s: Shape, ghost tail: BNode?)
        returns (up: PkKey, right: BNode?, grew: bool, ghost out: seq<Shape>)
      requires s.SNode? && s.n == this && Holds(s, tail)
      modifies Foot(s)
      ensures Result(this, right, grew, out, tail, LeafNodes(s))
      ensures fresh(FootAll(out) - Foot(s))
      ensures Outcome(out, up) == BTreeModel.Insert(Erase(s), k, v)
      decreases s, 1
    {
      hide Foot, FootAll, Rep, LeafNodes, Erase, EraseAll, Proper, BTreeModel.Insert, Holds, Grove, Absorb;
      NodeFacts(s, tail);
      var i := ChildIndex(keys, k);
      InsertUnfold(s, k, v);
      ghost var sub;
      up, right, grew, sub := InsertChild(i, k, v, s, tail);
      ghost var f := Splice(s.kids, i, sub);
      EraseSplice(s.kids, i, sub);
      if grew {
        up, right, grew, out := Adopt(i, up, right, s, sub, tail);
      } else {
        out := [SNode(this, keys, f)];
        OneResult(this, f, tail, LeafNodes(s));
        AbsorbOne(s, i, Outcome(sub, up));
      }
      assert FootAll(out) - Foot(s) == (FootAll(f) - Foot(s)) + if grew then {right} - Foot(s) else {};
    }

    /** The rest of `insert` once child `i` split: take in the new right half and the
        separator, and split if the node is now over-full. */
    method Adopt(i: nat, sep: PkKey, half: BNode, ghost s: Shape, ghost sub: seq<Shape>, ghost tail: BNode?)
        returns (up: PkKey, right: BNode?, grew: bool, ghost out: seq<Shape>)
      requires s.SNode? && i <= |s.keys| && |s.kids| == |s.keys| + 1 && |sub| == 2
      requires !leaf && keys == s.keys && |children| == |s.kids|
      requires forall j :: 0 <= j < |s.kids| ==> children[j] == s.kids[j].n
      requires sub[0].n == s.kids[i].n && sub[1].n == half
      requires var f := Splice(s.kids, i, sub);
               Grove(f, tail, LeafNodes(s)) && this !in FootAll(f)
      modifies this
      ensures Result(this, right, grew, out, tail, LeafNodes(s))
      ensures FootAll(out) == {this} + FootAll(Splice(s.kids, i, sub)) + if grew then {right} else {}
      ensures grew ==> fresh(right)
      ensures Outcome(out, up) == Absorb(s.keys, EraseAll(s.kids), i, Outcome(sub, sep))
    {
      ghost var f := Splice(s.kids, i, sub);
      hide Foot, FootAll, LeafNodes, Erase, EraseAll, Grove, Absorb, BTreeModel.SplitInterior;
      FootAllocatedAll(f);
      AbsorbTwo(s, i, sub, sep);
      label Before:
      keys := keys[..i] + [sep] + keys[i..];
      children := children[..i + 1] + [half] + children[i + 1..];
      AdoptChildren(old(children), children, s.kids, i, sub);
      assert unchanged@Before(FootAll(f));
      if |keys| <= ORDER {
        up, right, grew, out := sep, null, false, [SNode(this, keys, f)];
        OneResult(this, f, tail, LeafNodes(s));
      } else {
        grew := true;
        up, right, out := SplitOver(f, tail, LeafNodes(s));
      }
    }

    /** Splits an over-full node that stands over the forest `f`. */
    method SplitOver(ghost f: seq<Shape>, ghost tail: BNode?, ghost before: seq<BNode>)
        returns (up: PkKey, right: BNode, ghost out: seq<Shape>)
      requires !leaf && |children| == |f| == |keys| + 1 > 1
      requires forall j :: 0 <= j < |f| ==> children[j] == f[j].n
      requires Grove(f, tail, before) && this !in FootAll(f)
      modifies this
      ensures Result(this, right, true, out, tail, before) && fresh(right)
      ensures FootAll(out) == {this} + FootAll(f) + {right}
      ensures Outcome(out, up) == BTreeModel.SplitInterior(old(keys), EraseAll(f))
    {
      hide Foot, FootAll, LeafNodes, Erase, EraseAll, Grove;
      FootAllocatedAll(f);
      ghost var mid := |keys| / 2;
      up, right := SplitInterior();
      assert unchanged(FootAll(f));
      out := [SNode(this, keys, f[..mid + 1]), SNode(right, right.keys, f[mid + 1..])];
      TwoResult(this, right, f, mid + 1, tail, before);
    }

    /** `splitInterior` */
    method SplitInterior() returns (up: PkKey, right: BNode)
      requires !leaf && |children| == |keys| + 1 > 1
      modifies this
      ensures !leaf && fresh(right) && !right.leaf
      ensures var mid := |old(keys)| / 2;
              && keys == old(keys)[..mid] && children == old(children)[..mid + 1]
              && up == old(keys)[mid]
              && right.keys == old(keys)[mid + 1..] && right.children == old(children)[mid + 1..]
    {
      var mid := |keys| / 2;
      up := keys[mid];
      right := new BNode.MakeInterior(keys[mid + 1..], children[mid + 1..]);
      keys, children := keys[..mid], children[..mid + 1];
    }

    /** `delete`: removes the key from its leaf, and never merges nodes. */
    method Delete(k: PkKey, ghost s: Shape, ghost tail: BNode?) returns (ghost s': Shape)
      requires s.n == this && Holds(s, tail)
      modifies Foot(s)
      ensures s'.n == this && Holds(s', tail) && Foot(s') == Foot(s) && LeafNodes(s') == LeafNodes(s)
      ensures Erase(s') == BTreeModel.Delete(Erase(s), k)
      decreases s, 1
    {
      if leaf {
        s' := DeleteAtLeaf(k, s, tail);
      } else {
        s' := DeleteAtInterior(k, s, tail);
      }
    }

    method DeleteAtLeaf(k: PkKey, ghost s: Shape, ghost tail: BNode?) returns (ghost s': Shape)
      requires s.SLeaf? && s.n == this && Holds(s, tail)
      modifies this
      ensures s'.n == this && Holds(s', tail) && Foot(s') == Foot(s) && LeafNodes(s') == LeafNodes(s)
      ensures Erase(s') == BTreeModel.Delete(Erase(s), k)
    {
      hide KeyIndex;
      assert LeafNodes(s) == [this] && Linked([this], tail);
      var i := KeyPosition(k);
      if i < |keys| {
        keys := keys[..i] + keys[i + 1..];
        vals := vals[..i] + vals[i + 1..];
      }
      s' := SLeaf(this, keys, vals);
      assert LeafNodes(s') == [this];
    }

    method DeleteAtInterior(k: PkKey, ghost s: Shape, ghost tail: BNode?) returns (ghost s': Shape)
      requires s.SNode? && s.n == this && Holds(s, tail)
      modifies Foot(s)
      ensures s'.n == this && Holds(s', tail) && Foot(s') == Foot(s) && LeafNodes(s') == LeafNodes(s)
      ensures Erase(s') == BTreeModel.Delete(Erase(s), k)
      decreases s, 0
    {
      hide Foot, FootAll, Separate, Apart, Rep, RepAll, LeafNodes, LeafNodesAll, Erase, EraseAll, Proper, BTreeModel.Delete, Linked, Holds, Grove;
      NodeFacts(s, tail);
      FootAllocated(s);
      var i := ChildIndex(keys, k);
      BeforeChild(s, i, tail);
      ghost var kid, a, b := s.kids[i], LeafNodesAll(s.kids[..i]), LeafNodesAll(s.kids[i + 1..]);
      label Before:
      ghost var kid' := children[i].Delete(k, kid, if b == [] then tail else b[0]);
      forall j | 0 <= j < |s.kids| && j != i ensures Rep(s.kids[j]) {
        assert unchanged@Before(Foot(s.kids[j]));
      }
      assert unchanged@Before(a) && unchanged@Before(b);
      s' := SNode(this, keys, s.kids[i := kid']);
      ReplaceChild(s, i, kid', k, tail);
    }

    /** The recursive call of `insert`: child `i` becomes one or two subtrees. */
    method InsertChild(i: nat, k: PkKey, v: Str, ghost s: Shape, ghost tail: BNode?)
        returns (up: PkKey, right: BNode?, grew: bool, ghost sub: seq<Shape>)
      requires s.SNode? && s.n == this && i <= |s.keys| && Holds(s, tail)
      modifies Foot(s)
      ensures unchanged(this) && |s.kids| == |s.keys| + 1
      ensures grew == (right != null) && |sub| == (if grew then 2 else 1)
      ensures sub[0].n == s.kids[i].n && (grew ==> right == sub[1].n)
      ensures Outcome(sub, up) == BTreeModel.Insert(Erase(s.kids[i]), k, v)
      ensures var f := Splice(s.kids, i, sub);
              Grove(f, tail, LeafNodes(s)) && this !in FootAll(f) && fresh(FootAll(f) - Foot(s))
      decreases s, 0
    {
      hide Foot, FootAll, Separate, Apart, Rep, RepAll, LeafNodes, LeafNodesAll, Erase, Proper, BTreeModel.Insert, Linked, Holds, Grove;
      FootAllocated(s);
      BeforeChild(s, i, tail);
      ghost var kid, a, b := s.kids[i], LeafNodesAll(s.kids[..i]), LeafNodesAll(s.kids[i + 1..]);
      ghost var c, tail' := LeafNodes(kid)[0], if b == [] then tail else b[0];
      label Before:
      up, right, grew, sub := children[i].Insert(k, v, kid, tail');
      forall j | 0 <= j < |s.kids| && j != i ensures Rep(s.kids[j]) {
        assert unchanged@Before(Foot(s.kids[j]));
      }
      assert unchanged@Before(a) && unchanged@Before(b);
      AfterChild(s, i, sub, tail);
    }
  }

  // ------------------------------------------------------------- deletion

  lemma {:induction false} DeleteProper(t: Tree, k: PkKey)
    requires Proper(t)
    ensures Proper(Delete(t, k))
  {
    if t.Node? { DeleteProper(t.kids[ChildIndex(t.keys, k)], k); }
  }

  /** The trees an insertion leaves at node `n`. */
  ghost predicate Result(n: BNode, right: BNode?, grew: bool, out: seq<Shape>, tail: BNode?, before: seq<BNode>)
    reads FootAll(out)
  {
    && grew == (right != null) && |out| == (if grew then 2 else 1)
    && out[0].n == n && (grew ==> right == out[1].n)
    && Grove(out, tail, before)
  }

  ghost function Splice(kids: seq<Shape>, i: nat, out: seq<Shape>): seq<Shape>
    requires i < |kids|
  {
    kids[..i] + out + kids[i + 1..]
  }

  lemma {:induction false} LeafResult(n: BNode, right: BNode?, grew: bool, out: seq<Shape>, tail: BNode?)
    requires n.leaf && grew == (right != null) && n.next == if grew then right else tail
    requires grew ==> right != n && right.leaf && right.next == tail
    requires out == [SLeaf(n, n.keys, n.vals)] + if grew then [SLeaf(right, right.keys, right.vals)] else []
    ensures Result(n, right, grew, out, tail, [n])
    ensures FootAll(out) == {n} + if grew then {right} else {}
  {
    assert LeafNodesAll(out[1..]) == if grew then [right] else [] by {
      if grew { assert out[1..][1..] == []; }
    }
    assert LeafNodesAll(out) == [n] + if grew then [right] else [];
    assert Foot(out[0]) == {n} && (grew ==> Foot(out[1]) == {right});
  }

  lemma {:induction false} LeafNodesAt(kids: seq<Shape>, i: nat)
    requires i < |kids|
    ensures LeafNodesAll(kids) == LeafNodesAll(kids[..i]) + LeafNodes(kids[i]) + LeafNodesAll(kids[i + 1..])
  {
    assert kids == kids[..i] + kids[i..];
    LeafNodesConcat(kids[..i], kids[i..]);
    assert kids[i..][1..] == kids[i + 1..];
  }

  /** The part of the leaf chain that a child owns. */
  lemma {:induction false} ChildChain(s: Shape, i: nat, tail: BNode?)
    requires s.SNode? && i < |s.kids| && Linked(LeafNodes(s), tail)
    ensures var a, b := LeafNodesAll(s.kids[..i]), LeafNodesAll(s.kids[i + 1..]);
            var c := LeafNodes(s.kids[i]);
            var tail' := if b == [] then tail else b[0];
            && LeafNodes(s) == LeafNodesAll(s.kids) == a + c + b
            && Linked(c, tail') && Linked(b, tail) && Linked(a, if c == [] then tail' else c[0])
  {
    var a, b := LeafNodesAll(s.kids[..i]), LeafNodesAll(s.kids[i + 1..]);
    var c := LeafNodes(s.kids[i]);
    LeafNodesAt(s.kids, i);
    LinkedConcat(a + c, b, tail);
    LinkedConcat(a, c, if b == [] then tail else b[0]);
  }

  /** What a node knows about its child `i` and about the rest of its subtree. */
  lemma {:induction false} BeforeChild(s: Shape, i: nat, tail: BNode?)
    requires s.SNode? && i <= |s.keys| && Holds(s, tail)
    ensures |s.n.children| == |s.kids| == |s.keys| + 1
    ensures s.n in Foot(s) && s.n !in Foot(s.kids[i]) && Separate(s) && LeafNodes(s) != []
    ensures forall j :: 0 <= j < |s.kids| ==> Rep(s.kids[j]) && Foot(s.kids[j]) <= Foot(s) && s.n.children[j] == s.kids[j].n
    ensures forall j :: 0 <= j < |s.kids| && j != i ==> Foot(s.kids[j]) !! Foot(s.kids[i])
    ensures LeafNodes(s.kids[i]) != []
    ensures var a, b, c := LeafNodesAll(s.kids[..i]), LeafNodesAll(s.kids[i + 1..]), LeafNodes(s.kids[i]);
            && Holds(s.kids[i], if b == [] then tail else b[0]) && Linked(b, tail) && Linked(a, c[0])
            && (forall j :: 0 <= j < |a| ==> a[j] in Foot(s) - Foot(s.kids[i]) && allocated(a[j]))
            && (forall j :: 0 <= j < |b| ==> b[j] in Foot(s) - Foot(s.kids[i]) && allocated(b[j]))
  {
    assert Erase(s.kids[i]) == Erase(s).kids[i];
    assert RepAll(s.kids) && Apart(s.kids);
    HasLeaf(s);
    HasLeaf(s.kids[i]);
    ChildChain(s, i, tail);
    OtherLeaves(s, i);
    FootAllocated(s);
  }

  /** The forest below a node after its child `i` became the subtrees `sub`. */
  lemma {:induction false} AfterChild(s: Shape, i: nat, sub: seq<Shape>, tail: BNode?)
    requires s.SNode? && i < |s.kids| && Separate(s)
    requires FootAll(sub) !! (Foot(s) - Foot(s.kids[i]))
    requires forall j :: 0 <= j < |s.kids| && j != i ==> Rep(s.kids[j])
    requires var a, b := LeafNodesAll(s.kids[..i]), LeafNodesAll(s.kids[i + 1..]);
             var c := LeafNodes(s.kids[i]);
             && c != [] && Linked(b, tail) && Linked(a, c[0])
             && Grove(sub, if b == [] then tail else b[0], c)
    ensures var f := Splice(s.kids, i, sub);
            Grove(f, tail, LeafNodes(s)) && s.n !in FootAll(f) && FootAll(f) <= Foot(s) + FootAll(sub)
  {
    hide Foot, FootAll, Rep, RepAll, Linked;
    SpliceFoot(s, i, sub);
    RepSplice(s.kids, i, sub);
    ChainSplice(s.kids, i, sub, tail);
  }

  /** The leaves of the other children are no nodes of child `i`. */
  lemma {:induction false} OtherLeaves(s: Shape, i: nat)
    requires s.SNode? && i < |s.kids| && Separate(s)
    ensures var a, b := LeafNodesAll(s.kids[..i]), LeafNodesAll(s.kids[i + 1..]);
            && (forall j :: 0 <= j < |a| ==> a[j] in Foot(s) - Foot(s.kids[i]))
            && (forall j :: 0 <= j < |b| ==> b[j] in Foot(s) - Foot(s.kids[i]))
  {
    hide LeafNodesAll;
    LeafNodesInFootAll(s.kids[..i]);
    LeafNodesInFootAll(s.kids[i + 1..]);
    forall x | x in FootAll(s.kids[..i]) ensures x !in Foot(s.kids[i]) && x in Foot(s) {
      var j :| 0 <= j < i && x in Foot(s.kids[..i][j]);
      assert x in Foot(s.kids[j]);
    }
    forall x | x in FootAll(s.kids[i + 1..]) ensures x !in Foot(s.kids[i]) && x in Foot(s) {
      var j :| 0 <= j < |s.kids| - i - 1 && x in Foot(s.kids[i + 1..][j]);
      assert x in Foot(s.kids[i + 1 + j]);
    }
  }

  lemma {:induction false} SpliceFoot(s: Shape, i: nat, sub: seq<Shape>)
    requires s.SNode? && i < |s.kids| && Separate(s) && Apart(sub)
    requires FootAll(sub) !! (Foot(s) - Foot(s.kids[i]))
    ensures Apart(Splice(s.kids, i, sub)) && s.n !in FootAll(Splice(s.kids, i, sub))
    ensures FootAll(Splice(s.kids, i, sub)) <= Foot(s) + FootAll(sub)
  {
    var f := Splice(s.kids, i, sub);
    forall j | 0 <= j < |s.kids| && j != i ensures FootAll(sub) !! Foot(s.kids[j]) {
      assert Foot(s.kids[j]) <= FootAll(s.kids) && Foot(s.kids[j]) !! Foot(s.kids[i]);
    }
    ApartSplice(s.kids, i, sub);
    forall x | x in FootAll(f) ensures x in FootAll(s.kids) || x in FootAll(sub) {
      var j :| 0 <= j < |f| && x in Foot(f[j]);
      assert f[j] == Spliced(s.kids, i, sub, j);
    }
  }

  lemma {:induction false} RepSplice(kids: seq<Shape>, i: nat, sub: seq<Shape>)
    requires i < |kids| && RepAll(sub)
    requires forall j :: 0 <= j < |kids| && j != i ==> Rep(kids[j])
    ensures RepAll(Splice(kids, i, sub))
  {
    var f := Splice(kids, i, sub);
    forall j | 0 <= j < |f| ensures Rep(f[j]) {
      assert f[j] == Spliced(kids, i, sub, j);
    }
  }

  lemma {:induction false} ChainSplice(kids: seq<Shape>, i: nat, sub: seq<Shape>, tail: BNode?)
    requires i < |kids|
    requires var a, b := LeafNodesAll(kids[..i]), LeafNodesAll(kids[i + 1..]);
             var c := LeafNodes(kids[i]);
             && c != [] && Linked(b, tail) && Linked(a, c[0])
             && Linked(LeafNodesAll(sub), if b == [] then tail else b[0])
             && LeafNodesAll(sub) != [] && LeafNodesAll(sub)[0] == c[0]
    ensures var ns := LeafNodesAll(Splice(kids, i, sub));
            Linked(ns, tail) && ns != [] && LeafNodesAll(kids) != [] && ns[0] == LeafNodesAll(kids)[0]
  {
    var a, b, m := LeafNodesAll(kids[..i]), LeafNodesAll(kids[i + 1..]), LeafNodesAll(sub);
    LeafNodesConcat(kids[..i] + sub, kids[i + 1..]);
    LeafNodesConcat(kids[..i], sub);
    LeafNodesAt(kids, i);
    LinkedConcat(a + m, b, tail);
    LinkedConcat(a, m, if b == [] then tail else b[0]);
  }

  lemma {:induction false} FootAllocatedAll(ss: seq<Shape>)
    ensures forall x :: x in FootAll(ss) ==> allocated(x)
  {
    forall i | 0 <= i < |ss| ensures forall x :: x in Foot(ss[i]) ==> allocated(x) {
      FootAllocated(ss[i]);
    }
    forall x | x in FootAll(ss) ensures allocated(x) {
      var i :| 0 <= i < |ss| && x in Foot(ss[i]);
    }
  }

  lemma {:induction false} EraseSplice(kids: seq<Shape>, i: nat, sub: seq<Shape>)
    requires i < |kids|
    ensures EraseAll(Splice(kids, i, sub)) == EraseAll(kids)[..i] + EraseAll(sub) + EraseAll(kids)[i + 1..]
    ensures |sub| == 1 ==> EraseAll(Splice(kids, i, sub)) == EraseAll(kids)[i := Erase(sub[0])]
    ensures |sub| == 2 ==> EraseAll(sub) == [Erase(sub[0]), Erase(sub[1])]
  {
  }

  /** An interior node over a forest it does not belong to is a subtree. */
  lemma {:induction false} NodeOver(n: BNode, f: seq<Shape>)
    requires !n.leaf && |n.children| == |f| && (forall j :: 0 <= j < |f| ==> n.children[j] == f[j].n)
    requires RepAll(f) && Apart(f) && n !in FootAll(f)
    ensures var t := SNode(n, n.keys, f);
            && Rep(t) && Separate(t) && Foot(t) == {n} + FootAll(f)
            && LeafNodes(t) == LeafNodesAll(f) && Erase(t) == Node(n.keys, EraseAll(f))
  {
  }

  lemma {:induction false} Singleton(t: Shape)
    ensures LeafNodesAll([t]) == LeafNodes(t) && FootAll([t]) == Foot(t)
    ensures Separate(t) ==> Apart([t])
    ensures Rep(t) ==> RepAll([t])
  {
    assert [t][1..] == [] && LeafNodesAll([]) == [];
    assert [t][0] == t;
  }

  lemma {:induction false} Pair(l: Shape, r: Shape)
    ensures LeafNodesAll([l, r]) == LeafNodes(l) + LeafNodes(r) && FootAll([l, r]) == Foot(l) + Foot(r)
    ensures Separate(l) && Separate(r) && Foot(l) !! Foot(r) ==> Apart([l, r])
    ensures Rep(l) && Rep(r) ==> RepAll([l, r])
  {
    Singleton(r);
    assert [l, r][1..] == [r];
    assert [l, r][0] == l && [l, r][1] == r;
  }

  /** A node over a forest is one tree with the forest's leaves. */
  lemma {:induction false} OneResult(n: BNode, f: seq<Shape>, tail: BNode?, before: seq<BNode>)
    requires !n.leaf && |n.children| == |f| && (forall j :: 0 <= j < |f| ==> n.children[j] == f[j].n)
    requires Grove(f, tail, before) && n !in FootAll(f)
    ensures Result(n, null, false, [SNode(n, n.keys, f)], tail, before)
    ensures FootAll([SNode(n, n.keys, f)]) == {n} + FootAll(f)
    ensures Erase(SNode(n, n.keys, f)) == Node(n.keys, EraseAll(f))
  {
    hide Foot, FootAll, Separate, Apart, Rep, RepAll, LeafNodes, LeafNodesAll, Erase, EraseAll, Linked;
    NodeOver(n, f);
    Singleton(SNode(n, n.keys, f));
  }

  /** Two nodes over the halves of a forest are two trees with the forest's leaves. */
  lemma {:induction false} TwoResult(n: BNode, right: BNode, f: seq<Shape>, m: nat, tail: BNode?, before: seq<BNode>)
    requires m <= |f| && !n.leaf && !right.leaf && n != right
    requires |n.children| == m && (forall j :: 0 <= j < m ==> n.children[j] == f[j].n)
    requires |right.children| == |f| - m && (forall j :: m <= j < |f| ==> right.children[j - m] == f[j].n)
    requires Grove(f, tail, before) && n !in FootAll(f) && right !in FootAll(f)
    ensures var l, r := SNode(n, n.keys, f[..m]), SNode(right, right.keys, f[m..]);
            && Result(n, right, true, [l, r], tail, before)
            && FootAll([l, r]) == {n, right} + FootAll(f)
            && Erase(l) == Node(n.keys, EraseAll(f)[..m]) && Erase(r) == Node(right.keys, EraseAll(f)[m..])
  {
    hide Foot, FootAll, Separate, Apart, Rep, RepAll, LeafNodes, LeafNodesAll, Erase, EraseAll, Linked;
    var l, r := SNode(n, n.keys, f[..m]), SNode(right, right.keys, f[m..]);
    HalfFoots(f, m);
    HalfForests(f, m);
    NodeOver(n, f[..m]);
    NodeOver(right, f[m..]);
    Pair(l, r);
  }

  lemma {:induction false} HalfForests(f: seq<Shape>, m: nat)
    requires m <= |f| && RepAll(f) && Apart(f)
    ensures RepAll(f[..m]) && RepAll(f[m..]) && Apart(f[..m]) && Apart(f[m..])
    ensures LeafNodesAll(f) == LeafNodesAll(f[..m]) + LeafNodesAll(f[m..])
    ensures EraseAll(f[..m]) == EraseAll(f)[..m] && EraseAll(f[m..]) == EraseAll(f)[m..]
  {
    hide Foot, Separate, Rep;
    assert f == f[..m] + f[m..];
    LeafNodesConcat(f[..m], f[m..]);
  }

  lemma {:induction false} HalfFoots(f: seq<Shape>, m: nat)
    requires m <= |f| && Apart(f)
    ensures FootAll(f) == FootAll(f[..m]) + FootAll(f[m..]) && FootAll(f[..m]) !! FootAll(f[m..])
  {
    forall x | x in FootAll(f) ensures x in FootAll(f[..m]) + FootAll(f[m..]) {
      var j :| 0 <= j < |f| && x in Foot(f[j]);
      if j < m { assert x in Foot(f[..m][j]); } else { assert x in Foot(f[m..][j - m]); }
    }
    forall x | x in FootAll(f[..m]) ensures x in FootAll(f) && x !in FootAll(f[m..]) {
      var j :| 0 <= j < m && x in Foot(f[..m][j]);
      assert x in Foot(f[j]);
    }
    forall x | x in FootAll(f[m..]) ensures x in FootAll(f) {
      var j :| 0 <= j < |f| - m && x in Foot(f[m..][j]);
      assert x in Foot(f[j + m]);
    }
  }

  lemma {:induction false} NodeFacts(s: Shape, tail: BNode?)
    requires s.SNode? && Holds(s, tail)
    ensures |s.n.children| == |s.kids| == |s.keys| + 1 && !s.n.leaf && s.n.keys == s.keys
    ensures forall j :: 0 <= j < |s.kids| ==> s.n.children[j] == s.kids[j].n
    ensures s.n in Foot(s) && Proper(Erase(s))
  {
  }

  lemma {:induction false} InsertUnfold(s: Shape, k: PkKey, v: Str)
    requires s.SNode? && Proper(Erase(s))
    ensures var i := ChildIndex(s.keys, k);
            && i < |s.kids| && Proper(Erase(s.kids[i]))
            && BTreeModel.Insert(Erase(s), k, v) == Absorb(s.keys, EraseAll(s.kids), i, BTreeModel.Insert(Erase(s.kids[i]), k, v))
  {
    assert Erase(s.kids[ChildIndex(s.keys, k)]) == Erase(s).kids[ChildIndex(s.keys, k)];
  }

  lemma {:induction false} AbsorbOne(s: Shape, i: nat, g: Grown)
    requires s.SNode? && i <= |s.keys| && |s.kids| == |s.keys| + 1 && g.One?
    ensures Absorb(s.keys, EraseAll(s.kids), i, g) == One(Node(s.keys, EraseAll(s.kids)[i := g.t]))
  {
  }

  lemma {:induction false} AbsorbTwo(s: Shape, i: nat, sub: seq<Shape>, sep: PkKey)
    requires s.SNode? && i <= |s.keys| && |s.kids| == |s.keys| + 1 && |sub| == 2
    ensures var ks, ts := s.keys[..i] + [sep] + s.keys[i..], EraseAll(Splice(s.kids, i, sub));
            && |ts| == |ks| + 1
            && Absorb(s.keys, EraseAll(s.kids), i, Outcome(sub, sep))
                 == if |ks| <= ORDER then One(Node(ks, ts)) else BTreeModel.SplitInterior(ks, ts)
  {
    hide Erase, EraseAll;
    EraseSplice(s.kids, i, sub);
  }

  lemma {:induction false} AdoptChildren(before: seq<BNode>, after: seq<BNode>, kids: seq<Shape>, i: nat, sub: seq<Shape>)
    requires |before| == |kids| && i < |kids| && |sub| == 2
    requires forall j :: 0 <= j < |kids| ==> before[j] == kids[j].n
    requires sub[0].n == kids[i].n && after == before[..i + 1] + [sub[1].n] + before[i + 1..]
    ensures |after| == |Splice(kids, i, sub)|
    ensures forall j :: 0 <= j < |after| ==> after[j] == Splice(kids, i, sub)[j].n
  {
    var f := Splice(kids, i, sub);
    forall j | 0 <= j < |after| ensures after[j] == f[j].n {
      assert f[j] == Spliced(kids, i, sub, j);
    }
  }

  /** A node's subtree after child `i` was replaced in place by a subtree on the same nodes. */
  lemma {:induction false} ReplaceChild(s: Shape, i: nat, kid: Shape, k: PkKey, tail: BNode?)
    requires s.SNode? && i == ChildIndex(s.keys, k) && |s.kids| == |s.keys| + 1 && Separate(s) && Proper(Erase(s))
    requires !s.n.leaf && s.n.keys == s.keys && |s.n.children| == |s.kids|
    requires forall j :: 0 <= j < |s.kids| ==> s.n.children[j] == s.kids[j].n
    requires forall j :: 0 <= j < |s.kids| && j != i ==> Rep(s.kids[j])
    requires kid.n == s.kids[i].n && Foot(kid) == Foot(s.kids[i]) && LeafNodes(kid) == LeafNodes(s.kids[i]) != []
    requires Proper(Erase(s.kids[i])) && Erase(kid) == BTreeModel.Delete(Erase(s.kids[i]), k)
    requires var a, b := LeafNodesAll(s.kids[..i]), LeafNodesAll(s.kids[i + 1..]);
             && Linked(b, tail) && Linked(a, LeafNodes(kid)[0]) && Holds(kid, if b == [] then tail else b[0])
    ensures var s' := SNode(s.n, s.keys, s.kids[i := kid]);
            && Holds(s', tail) && Foot(s') == Foot(s) && LeafNodes(s') == LeafNodes(s)
            && Erase(s') == BTreeModel.Delete(Erase(s), k)
  {
    var f := s.kids[i := kid];
    var s' := SNode(s.n, s.keys, f);
    ReplaceErase(s, i, kid, k);
    ReplaceNodes(s.kids, i, kid);
    ReplaceRep(s, i, kid, tail);
  }

  lemma {:induction false} ReplaceErase(s: Shape, i: nat, kid: Shape, k: PkKey)
    requires s.SNode? && i == ChildIndex(s.keys, k) && Proper(Erase(s)) && |s.kids| == |s.keys| + 1
    requires Proper(Erase(s.kids[i])) && Erase(kid) == BTreeModel.Delete(Erase(s.kids[i]), k)
    ensures var s' := SNode(s.n, s.keys, s.kids[i := kid]);
            Proper(Erase(s')) && Erase(s') == BTreeModel.Delete(Erase(s), k)
  {
    var s' := SNode(s.n, s.keys, s.kids[i := kid]);
    assert Erase(s.kids[i]) == Erase(s).kids[i];
    assert EraseAll(s'.kids) == EraseAll(s.kids)[i := Erase(kid)];
    DeleteProper(Erase(s), k);
  }

  lemma {:induction false} ReplaceNodes(kids: seq<Shape>, i: nat, kid: Shape)
    requires i < |kids| && Foot(kid) == Foot(kids[i]) && LeafNodes(kid) == LeafNodes(kids[i])
    ensures FootAll(kids[i := kid]) == FootAll(kids) && LeafNodesAll(kids[i := kid]) == LeafNodesAll(kids)
  {
    var f := kids[i := kid];
    LeafNodesAt(kids, i);
    LeafNodesAt(f, i);
    assert f[..i] == kids[..i] && f[i + 1..] == kids[i + 1..];
    forall x | x in FootAll(f) ensures x in FootAll(kids) {
      var j :| 0 <= j < |f| && x in Foot(f[j]);
      assert x in Foot(kids[j]);
    }
    forall x | x in FootAll(kids) ensures x in FootAll(f) {
      var j :| 0 <= j < |f| && x in Foot(kids[j]);
      assert x in Foot(f[j]);
    }
  }

  lemma {:induction false} ReplaceRep(s: Shape, i: nat, kid: Shape, tail: BNode?)
    requires s.SNode? && i < |s.kids| && Separate(s)
    requires !s.n.leaf && s.n.keys == s.keys && |s.n.children| == |s.kids|
    requires forall j :: 0 <= j < |s.kids| ==> s.n.children[j] == s.kids[j].n
    requires forall j :: 0 <= j < |s.kids| && j != i ==> Rep(s.kids[j])
    requires kid.n == s.kids[i].n && Foot(kid) == Foot(s.kids[i]) && LeafNodes(kid) == LeafNodes(s.kids[i]) != []
    requires var a, b := LeafNodesAll(s.kids[..i]), LeafNodesAll(s.kids[i + 1..]);
             && Linked(b, tail) && Linked(a, LeafNodes(kid)[0]) && Holds(kid, if b == [] then tail else b[0])
    ensures var s' := SNode(s.n, s.keys, s.kids[i := kid]);
            Rep(s') && Separate(s') && Linked(LeafNodes(s'), tail)
  {
    Singleton(kid);
    AfterChild(s, i, [kid], tail);
    assert Splice(s.kids, i, [kid]) == s.kids[i := kid];
    NodeOver(s.n, s.kids[i := kid]);
  }
}
