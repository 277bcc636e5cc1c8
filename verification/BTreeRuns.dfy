/**
 Whole runs of Put and Delete on a fresh tree: the tree is the sorted map the run
 describes, interior nodes stay half full, and the number of leaves is bounded from
 both sides although deletion never merges nodes.
 */
module BTreeRuns {
  import opened Strings
  import opened BTreeModel
  import opened BTreeProofs

  /** Smallest number of keys an interior node other than the root ever has. */
  const MIN_KEYS := 4

  datatype Cmd = PutCmd(k: PkKey, v: Str) | DeleteCmd(k: PkKey)

  function Step(t: Tree, c: Cmd): Tree
    requires Proper(t)
  {
    match c
    case PutCmd(k, v) => PutRoot(t, k, v)
    case DeleteCmd(k) => Delete(t, k)
  }

  function MapStep(m: map<PkKey, Str>, c: Cmd): map<PkKey, Str>
  {
    match c
    case PutCmd(k, v) => m[k := v]
    case DeleteCmd(k) => m - {k}
  }

  /** What a run of commands does to a finite map. */
  function MapRun(cmds: seq<Cmd>): map<PkKey, Str>
  {
    if cmds == [] then map[] else MapStep(MapRun(cmds[..|cmds| - 1]), cmds[|cmds| - 1])
  }

  function Puts(cmds: seq<Cmd>): nat
  {
    if cmds == [] then 0 else Puts(cmds[..|cmds| - 1]) + if cmds[|cmds| - 1].PutCmd? then 1 else 0
  }

  // ------------------------------------------------------------- measures

  function Height(t: Tree): nat
  {
    if t.Leaf? || t.kids == [] then 0 else 1 + Height(t.kids[0])
  }

  function Leaves(t: Tree): nat
  {
    if t.Leaf? then 1 else LeavesOf(t.kids)
  }

  function LeavesOf(ts: seq<Tree>): nat
  {
    if ts == [] then 0 else Leaves(ts[0]) + LeavesOf(ts[1..])
  }

  /** A leaf weighs 4, plus one for every key beyond its fifth.  A split takes a leaf
      of nine keys, weight 8, to leaves of four and five keys, weight 4 each. */
  function Weight(t: Tree): nat
  {
    if t.Leaf? then 4 + (if |t.keys| > 5 then |t.keys| - 5 else 0) else WeightOf(t.kids)
  }

  function WeightOf(ts: seq<Tree>): nat
  {
    if ts == [] then 0 else Weight(ts[0]) + WeightOf(ts[1..])
  }

  function GrownWeight(g: Grown): nat
  {
    match g
    case One(t) => Weight(t)
    case Two(l, _, r) => Weight(l) + Weight(r)
  }

  function Power5(n: nat): nat
  {
    if n == 0 then 1 else 5 * Power5(n - 1)
  }

  /** The node has at least `min` keys if it is interior, interior nodes below it at least MIN_KEYS. */
  predicate Filled(t: Tree, min: nat)
  {
    t.Leaf? || (|t.keys| >= min && forall i :: 0 <= i < |t.kids| ==> Filled(t.kids[i], MIN_KEYS))
  }

  predicate FilledGrown(g: Grown, min: nat)
  {
    match g
    case One(t) => Filled(t, min)
    case Two(l, _, r) => Filled(l, MIN_KEYS) && Filled(r, MIN_KEYS)
  }

  // ------------------------------------------------------------ fill

  lemma {:induction false} InsertFilled(t: Tree, min: nat, k: PkKey, v: Str)
    requires Proper(t) && Filled(t, min)
    ensures FilledGrown(Insert(t, k, v), min)
    decreases t
  {
    hide Less, Compare;
    if t.Node? {
      var i := ChildIndex(t.keys, k);
      InsertFilled(t.kids[i], MIN_KEYS, k, v);
      AbsorbFilled(t.keys, t.kids, i, Insert(t.kids[i], k, v), min);
    }
  }

  lemma {:induction false} AbsorbFilled(keys: seq<PkKey>, kids: seq<Tree>, i: nat, g: Grown, min: nat)
    requires |kids| == |keys| + 1 && i <= |keys|
    requires Filled(Node(keys, kids), min) && FilledGrown(g, MIN_KEYS)
    ensures FilledGrown(Absorb(keys, kids, i, g), min)
  {
    if g.Two? {
      var ts := kids[..i] + [g.l, g.r] + kids[i + 1..];
      forall j | 0 <= j < |ts| ensures Filled(ts[j], MIN_KEYS) {
        assert ts[j] == if j < i then kids[j] else if j == i then g.l else if j == i + 1 then g.r else kids[j - 1];
      }
    }
  }

  lemma {:induction false} DeleteFilled(t: Tree, min: nat, k: PkKey)
    requires Proper(t) && Filled(t, min)
    ensures Filled(Delete(t, k), min)
    decreases t
  {
    hide Less, Compare;
    if t.Node? {
      var i := ChildIndex(t.keys, k);
      DeleteFilled(t.kids[i], MIN_KEYS, k);
    }
  }

  // ------------------------------------------------------------ weight

  lemma {:induction false} WeightConcat(a: seq<Tree>, b: seq<Tree>)
    ensures WeightOf(a + b) == WeightOf(a) + WeightOf(b)
  {
    if a == [] {
      assert a + b == b;
    } else {
      assert (a + b)[1..] == a[1..] + b;
      WeightConcat(a[1..], b);
    }
  }

  lemma {:induction false} WeightAround(a: seq<Tree>, t: Tree, b: seq<Tree>)
    ensures WeightOf(a + [t] + b) == WeightOf(a) + Weight(t) + WeightOf(b)
  {
    assert a + [t] + b == a + ([t] + b);
    WeightConcat(a, [t] + b);
    assert ([t] + b)[1..] == b;
  }

  lemma {:induction false} AbsorbWeight(keys: seq<PkKey>, kids: seq<Tree>, i: nat, g: Grown)
    requires i <= |keys| && |kids| == |keys| + 1
    ensures GrownWeight(Absorb(keys, kids, i, g)) == WeightOf(kids[..i]) + GrownWeight(g) + WeightOf(kids[i + 1..])
  {
    var a, b := kids[..i], kids[i + 1..];
    match g
    case One(c) =>
      assert kids[i := c] == a + [c] + b;
      WeightAround(a, c, b);
    case Two(l, sep, r) =>
      var ks, ts := keys[..i] + [sep] + keys[i..], a + [l, r] + b;
      assert ts == (a + [l]) + [r] + b && a + [l] == a + [l] + [];
      WeightAround(a + [l], r, b);
      WeightAround(a, l, []);
      if |ks| > ORDER {
        var mid := |ks| / 2;
        WeightConcat(ts[..mid + 1], ts[mid + 1..]);
        assert ts == ts[..mid + 1] + ts[mid + 1..];
      }
  }

  /** A Put adds at most one to the weight, however many nodes it splits. */
  lemma {:induction false} InsertWeight(t: Tree, h: nat, lo: Option<PkKey>, hi: Option<PkKey>, k: PkKey, v: Str)
    requires WF(t, h, lo, hi)
    ensures Proper(t) && GrownWeight(Insert(t, k, v)) <= Weight(t) + 1
  {
    hide Less, Compare, WeightOf, Absorb;
    WFProper(t, h, lo, hi);
    if t.Node? {
      var i := ChildIndex(t.keys, k);
      InsertWeight(t.kids[i], h - 1, Lo(t.keys, lo, i), Hi(t.keys, hi, i), k, v);
      AbsorbWeight(t.keys, t.kids, i, Insert(t.kids[i], k, v));
      WeightAround(t.kids[..i], t.kids[i], t.kids[i + 1..]);
      assert t.kids == t.kids[..i] + [t.kids[i]] + t.kids[i + 1..];
    }
  }

  lemma {:induction false} DeleteWeight(t: Tree, k: PkKey)
    requires Proper(t)
    ensures Weight(Delete(t, k)) <= Weight(t)
  {
    hide Less, Compare, WeightOf;
    if t.Node? {
      var i := ChildIndex(t.keys, k);
      DeleteWeight(t.kids[i], k);
      AbsorbWeight(t.keys, t.kids, i, One(Delete(t.kids[i], k)));
      WeightAround(t.kids[..i], t.kids[i], t.kids[i + 1..]);
      assert t.kids == t.kids[..i] + [t.kids[i]] + t.kids[i + 1..];
    }
  }

  lemma {:induction false} LeavesBelowWeight(t: Tree)
    ensures 4 * Leaves(t) <= Weight(t)
  {
    if t.Node? { LeavesBelowWeightOf(t.kids); }
  }

  lemma {:induction false} LeavesBelowWeightOf(ts: seq<Tree>)
    ensures 4 * LeavesOf(ts) <= WeightOf(ts)
  {
    if ts != [] {
      LeavesBelowWeight(ts[0]);
      LeavesBelowWeightOf(ts[1..]);
    }
  }

  /** An interior node below the root has at least 5^h leaves. */
  lemma {:induction false} ManyLeaves(t: Tree, h: nat, lo: Option<PkKey>, hi: Option<PkKey>)
    requires WF(t, h, lo, hi) && Filled(t, MIN_KEYS)
    ensures Leaves(t) >= Power5(h)
    decreases t, 1
  {
    if t.Node? {
      ManyLeavesOf(t, h, lo, hi, 0);
      assert t.kids[0..] == t.kids;
      var n, p := |t.kids|, Power5(h - 1);
      assert n * p >= 5 * p;
    }
  }

  lemma {:induction false} ManyLeavesOf(t: Tree, h: nat, lo: Option<PkKey>, hi: Option<PkKey>, i: nat)
    requires t.Node? && WF(t, h, lo, hi) && i <= |t.kids|
    requires forall j :: 0 <= j < |t.kids| ==> Filled(t.kids[j], MIN_KEYS)
    ensures LeavesOf(t.kids[i..]) >= (|t.kids| - i) * Power5(h - 1)
    decreases t, 0, |t.kids| - i
  {
    if i < |t.kids| {
      ManyLeaves(t.kids[i], h - 1, Lo(t.keys, lo, i), Hi(t.keys, hi, i));
      ManyLeavesOf(t, h, lo, hi, i + 1);
      assert t.kids[i..][1..] == t.kids[i + 1..];
      var n, p := |t.kids| - i - 1, Power5(h - 1);
      assert (n + 1) * p == n * p + p;
    }
  }

  lemma {:induction false} HeightIsDepth(t: Tree, h: nat, lo: Option<PkKey>, hi: Option<PkKey>)
    requires WF(t, h, lo, hi)
    ensures Height(t) == h
  {
    if t.Node? { HeightIsDepth(t.kids[0], h - 1, Lo(t.keys, lo, 0), Hi(t.keys, hi, 0)); }
  }

  // ------------------------------------------------------------ whole runs

  /** What every reachable tree satisfies. */
  predicate Sound(t: Tree)
  {
    Proper(t) && WF(t, Height(t), None, None) && Filled(t, 1)
  }

  /** A tree's contents as a finite map. */
  function Contents(t: Tree): map<PkKey, Str>
  {
    ToMap(Entries(t))
  }

  /** One Put or Delete keeps the tree sound and acts on its contents as on a finite map. */
  lemma {:induction false} StepSound(t: Tree, c: Cmd)
    requires Sound(t)
    ensures Sound(Step(t, c)) && Contents(Step(t, c)) == MapStep(Contents(t), c)
    ensures Entries(Step(t, c)) == match c case PutCmd(k, v) => PutSorted(Entries(t), k, v) case DeleteCmd(k) => DropKey(Entries(t), k)
    ensures Weight(Step(t, c)) <= Weight(t) + (if c.PutCmd? then 1 else 0)
  {
    hide WF, Less, Compare, PutSorted, DropKey, ToMap, Entries, Filled, Insert, Delete, SortedEntries, Proper, Weight;
    var h := Height(t);
    EntriesSorted(t, h, None, None);
    match c
    case PutCmd(k, v) =>
      InsertEntries(t, h, None, None, k, v);
      InsertWF(t, h, None, None, k, v);
      InsertFilled(t, 1, k, v);
      InsertWeight(t, h, None, None, k, v);
      PutIsMapUpdate(Entries(t), k, v);
      NewRoot(Insert(t, k, v), h);
    case DeleteCmd(k) =>
      DeleteCorrect(t, h, None, None, k);
      DeleteFilled(t, 1, k);
      DeleteWeight(t, k);
      DropIsMapRemoval(Entries(t), k);
      HeightIsDepth(Delete(t, k), h, None, None);
  }

  lemma {:induction false} NewRoot(g: Grown, h: nat)
    requires WFGrown(g, h, None, None) && FilledGrown(g, 1)
    ensures var t := match g { case One(r) => r case Two(l, sep, r) => Node([sep], [l, r]) };
            Sound(t) && Entries(t) == GrownEntries(g) && Weight(t) == GrownWeight(g)
  {
    hide Less, Compare;
    match g
    case One(r) =>
      WFProper(r, h, None, None);
      HeightIsDepth(r, h, None, None);
    case Two(l, sep, r) =>
      var t := Node([sep], [l, r]);
      assert [l, r] == [l] + [r] && [l, r][1..] == [r] && [r][1..] == [];
      assert Lo([sep], None, 1) == Some(sep) && Hi([sep], None, 0) == Some(sep);
      assert WF(t, h + 1, None, None);
      WFProper(t, h + 1, None, None);
      HeightIsDepth(t, h + 1, None, None);
      assert Flat([r]) == Entries(r) + Flat([]);
      assert Flat([l, r]) == Entries(l) + Flat([r]);
      assert WeightOf([r]) == Weight(r);
  }

  function Run(cmds: seq<Cmd>): (t: Tree)
    ensures Sound(t)
    ensures Contents(t) == MapRun(cmds)
    ensures Weight(t) <= 4 + Puts(cmds)
  {
    if cmds == [] then
      Leaf([], [])
    else
      var last := |cmds| - 1;
      StepSound(Run(cmds[..last]), cmds[last]);
      Step(Run(cmds[..last]), cmds[last])
  }

  /** The search of `Get`: down to the leaf, then along its keys. */
  function Search(t: Tree, k: PkKey): Option<Str>
    requires Proper(t)
  {
    match t
    case Leaf(keys, vals) => var i := KeyIndex(keys, k); if i < |keys| then Some(vals[i]) else None
    case Node(keys, kids) => Search(kids[ChildIndex(keys, k)], k)
  }

  lemma {:induction false} SearchIsFind(t: Tree, h: nat, lo: Option<PkKey>, hi: Option<PkKey>, k: PkKey)
    requires Proper(t) && WF(t, h, lo, hi) && InRange(k, lo, hi)
    ensures Search(t, k) == Find(Entries(t), k)
  {
    hide Less, Compare, Flat, Find, From, PutSorted, DropKey, KeyIndex;
    if t.Leaf? {
      KeyIndexDrops(t.keys, t.vals, k);
    } else {
      var i := ChildIndex(t.keys, k);
      Around(t, h, lo, hi, k);
      Localised(Flat(t.kids[..i]), Entries(t.kids[i]), Flat(t.kids[i + 1..]), k, []);
      SearchIsFind(t.kids[i], h - 1, Lo(t.keys, lo, i), Hi(t.keys, hi, i), k);
    }
  }

  /** After any run of Put and Delete calls the tree behaves as the finite map of the
      run, whatever splits took place and whatever empty leaves deletion left. */
  lemma {:induction false} RunIsMap(cmds: seq<Cmd>, k: PkKey)
    ensures Search(Run(cmds), k) == Find(Entries(Run(cmds)), k) == if k in MapRun(cmds) then Some(MapRun(cmds)[k]) else None
    ensures SortedEntries(Entries(Run(cmds)))
  {
    hide WF, Less, Compare, Search, Find;
    var t := Run(cmds);
    SearchIsFind(t, Height(t), None, None, k);
    FindIsMapLookup(Entries(t), k);
    EntriesSorted(t, Height(t), None, None);
  }

  /** Bounds on the number of leaves of a tree with interior levels, after any run. */
  lemma {:induction false} LeafBounds(cmds: seq<Cmd>)
    ensures var t := Run(cmds);
            && Leaves(t) <= 1 + Puts(cmds) / 4
            && (Height(t) >= 1 ==> 2 * Power5(Height(t) - 1) <= Leaves(t))
            && (t.Node? ==> forall i :: 0 <= i < |t.kids| ==> Filled(t.kids[i], MIN_KEYS))
  {
    hide WF, Run, Leaves, Weight, Power5;
    var t := Run(cmds);
    LeavesBelowWeight(t);
    if Height(t) >= 1 { RootManyLeaves(t); }
  }

  lemma {:induction false} RootManyLeaves(t: Tree)
    requires Sound(t) && Height(t) >= 1
    ensures 2 * Power5(Height(t) - 1) <= Leaves(t)
  {
    hide Power5, Less;
    ManyLeavesOf(t, Height(t), None, None, 0);
    assert t.kids[0..] == t.kids;
    var n, p := |t.kids|, Power5(Height(t) - 1);
    assert n * p >= 2 * p;
  }

  /** The root-collapse branch of Delete is dead: an interior root keeps a key. */
  lemma {:induction false} RootNeverCollapses(cmds: seq<Cmd>, k: PkKey)
    ensures var t := Delete(Run(cmds), k);
            !(t.Node? && |t.keys| == 0 && |t.kids| == 1)
  {
    StepSound(Run(cmds), DeleteCmd(k));
  }
}
