/**
 Secondary indexes of secondary.go: composite keys, the index object over a B+tree, and
 the prefix lookup.
 */
module Secondary {
  import opened Strings
  import opened BTreeModel
  import opened BTreeProofs
  import BTreeRuns
  import BTreeNodes
  import opened BTreeIndex
  import opened Row
  import opened Keys

  const NUL: Byte := 0

  // ---------------------------------------------------------- composite keys

  /** `formatPK` */
  function FormatPk(k: PkKey): Str
  {
    match k case PkInt(i) => FormatInt(i) case PkStr(s) => s
  }

  /** The value part of a composite key. */
  function ValuePart(v: Value): Str
  {
    match v.typ
    case Integer => Ascii("I:") + FormatInt(v.i)
    case Text => Ascii("T:") + v.text
    case _ => Ascii("N:")
  }

  /** `compositePrefix` */
  function CompositePrefix(v: Value): Str
  {
    ValuePart(v) + [NUL]
  }

  /** `compositeKey` */
  function CompositeKey(v: Value, pk: PkKey): PkKey
  {
    PkStr(CompositePrefix(v) + FormatPk(pk))
  }

  /** What an index holds: an INTEGER or TEXT value as storing leaves it. */
  predicate Indexable(v: Value)
  {
    v == Stored(v) && !v.isNull && (v.typ == Integer || v.typ == Text)
  }

  /** The separator does not occur in the value. */
  predicate NulFree(v: Value)
  {
    v.typ == Text ==> NUL !in v.text
  }

  lemma {:induction false} Formats()
    ensures Ascii("I:") == [73, 58] && Ascii("T:") == [84, 58]
  {
  }

  lemma {:induction false} ValuePartNulFree(v: Value)
    requires Indexable(v) && NulFree(v)
    ensures NUL !in ValuePart(v)
  {
    Formats();
  }

  lemma {:induction false} ValuePartInjective(v: Value, w: Value)
    requires Indexable(v) && Indexable(w) && ValuePart(v) == ValuePart(w)
    ensures v == w
  {
    hide FormatInt, ParseInt;
    Formats();
    assert ValuePart(v)[0] == ValuePart(w)[0];
    assert ValuePart(v)[2..] == ValuePart(w)[2..];
    if v.typ == Integer {
      IntRoundTrip(v.i);
      IntRoundTrip(w.i);
      assert ValuePart(v)[2..] == FormatInt(v.i) && ValuePart(w)[2..] == FormatInt(w.i);
    } else {
      assert ValuePart(v)[2..] == v.text && ValuePart(w)[2..] == w.text;
    }
  }

  lemma {:induction false} FormatPkInjective(a: PkKey, b: PkKey)
    requires a.PkInt? == b.PkInt? && FormatPk(a) == FormatPk(b)
    ensures a == b
  {
    hide FormatInt, ParseInt;
    if a.PkInt? {
      IntRoundTrip(a.i);
      IntRoundTrip(b.i);
    }
  }

  /** Two strings split at their first separator have equal parts. */
  lemma {:induction false} FirstNul(a: Str, b: Str, s: Str, t: Str)
    requires NUL !in a && NUL !in b
    ensures HasPrefix(a + [NUL] + s, b + [NUL]) ==> a == b
    ensures a + [NUL] + s == b + [NUL] + t ==> a == b && s == t
  {
    var x := a + [NUL] + s;
    var p := b + [NUL];
    assert |a| < |b| ==> b[|a|] in b;
    assert |b| < |a| ==> a[|b|] in a;
    assert x[|a|] == NUL && p[|b|] == NUL;
    if HasPrefix(x, p) {
      assert forall i :: 0 <= i < |p| ==> x[i] == x[..|p|][i];
      assert a == x[..|a|] && b == x[..|p|][..|b|];
    }
    if x == b + [NUL] + t {
      assert x[..|p|] == p;
      assert x[|p|..] == t && x[|a| + 1..] == s;
    }
  }

  /** Composite keys of separator-free values are distinct for distinct values or rows. */
  lemma {:induction false} CompositeInjective(v: Value, pk: PkKey, w: Value, qk: PkKey)
    requires Indexable(v) && NulFree(v) && Indexable(w) && NulFree(w) && pk.PkInt? == qk.PkInt?
    requires CompositeKey(v, pk) == CompositeKey(w, qk)
    ensures v == w && pk == qk
  {
    hide ValuePart, FormatPk;
    ValuePartNulFree(v);
    ValuePartNulFree(w);
    FirstNul(ValuePart(v), ValuePart(w), FormatPk(pk), FormatPk(qk));
    ValuePartInjective(v, w);
    FormatPkInjective(pk, qk);
  }

  /** A composite key starts with a value's prefix exactly if it is of that value. */
  lemma {:induction false} PrefixMeansValue(v: Value, pk: PkKey, w: Value)
    requires Indexable(v) && NulFree(v) && Indexable(w) && NulFree(w)
    ensures HasPrefix(CompositeKey(v, pk).s, CompositePrefix(w)) <==> v == w
  {
    hide ValuePart, FormatPk;
    ValuePartNulFree(v);
    ValuePartNulFree(w);
    FirstNul(ValuePart(v), ValuePart(w), FormatPk(pk), []);
    if HasPrefix(CompositeKey(v, pk).s, CompositePrefix(w)) { ValuePartInjective(v, w); }
    if v == w {
      var p := CompositePrefix(v);
      assert (p + FormatPk(pk))[..|p|] == p;
    }
  }

  /** Under INTEGER keys the last separator ends the value, so composite keys are distinct
      whatever the values hold. */
  lemma {:induction false} CompositeInjectiveInt(v: Value, pk: PkKey, w: Value, qk: PkKey)
    requires Indexable(v) && Indexable(w) && pk.PkInt? && qk.PkInt?
    requires CompositeKey(v, pk) == CompositeKey(w, qk)
    ensures v == w && pk == qk
  {
    hide ValuePart, FormatInt;
    LastNul(ValuePart(v), ValuePart(w), FormatPk(pk), FormatPk(qk));
    ValuePartInjective(v, w);
    FormatPkInjective(pk, qk);
  }

  /** Two strings split at their last separator have equal parts. */
  lemma {:induction false} LastNul(a: Str, b: Str, s: Str, t: Str)
    requires NUL !in s && NUL !in t && a + [NUL] + s == b + [NUL] + t
    ensures a == b && s == t
  {
    var x := a + [NUL] + s;
    assert x[|a|] == NUL && x[|b|] == NUL;
    assert forall i :: |a| < i < |x| ==> x[i] == s[i - |a| - 1];
    assert forall i :: |b| < i < |x| ==> x[i] == t[i - |b| - 1];
    assert a == x[..|a|] && b == x[..|b|];
    assert s == x[|a| + 1..] && t == x[|b| + 1..];
  }

  // -------------------------------------------------- what the prefix test decides

  /** The entry of text `v` under key text `pk` passes the prefix test of the other text `w`. */
  predicate FalseHit(v: Str, pk: Str, w: Str)
  {
    || HasPrefix(v, w + [NUL])
    || (HasPrefix(w, v + [NUL]) && HasPrefix(pk, w[|v| + 1..] + [NUL]))
  }

  lemma {:induction false} DropCommon(t: Str, a: Str, b: Str)
    ensures HasPrefix(t + a, t + b) <==> HasPrefix(a, b)
  {
    if |b| <= |a| {
      assert (t + a)[..|t + b|] == t + a[..|b|];
      assert (t + b)[|t|..] == b && (t + a[..|b|])[|t|..] == a[..|b|];
    }
  }

  lemma {:induction false} SplitTest(v: Str, pk: Str, w: Str)
    ensures HasPrefix(v + [NUL] + pk, w + [NUL]) <==> v == w || FalseHit(v, pk, w)
  {
    var x, p := v + [NUL] + pk, w + [NUL];
    if |v| == |w| {
      assert x[..|p|] == v + [NUL];
      assert p[..|w|] == w && (v + [NUL])[..|v|] == v;
    } else if |w| < |v| {
      assert x[..|p|] == v[..|p|];
    } else {
      var u, k := w[|v|..], |w| - |v|;
      DropCommon(v, [NUL] + pk, u + [NUL]);
      assert x == v + ([NUL] + pk);
      if w[..|v|] == v {
        assert w == v + u && p == v + (u + [NUL]);
        if w[|v|] == NUL {
          assert u == [NUL] + w[|v| + 1..];
          DropCommon([NUL], pk, w[|v| + 1..] + [NUL]);
          assert u + [NUL] == [NUL] + (w[|v| + 1..] + [NUL]);
          assert w[..|v| + 1] == v + [NUL];
        } else {
          FirstDiffers([NUL] + pk, u + [NUL]);
          assert w[..|v| + 1][|v|] != (v + [NUL])[..|v| + 1][|v|];
          NotHead(w, v + [NUL], |v| + 1);
        }
      } else {
        assert p[..|v|] == w[..|v|] && x[..|v|] == v && (v + [NUL])[..|v|] == v;
        NotHead(x, p, |v|);
        NotHead(w, v + [NUL], |v|);
      }
    }
  }

  /** A prefix agrees with the string at every length. */
  lemma {:induction false} NotHead(a: Str, b: Str, n: nat)
    requires n <= |a| && n <= |b| && a[..n] != b[..n]
    ensures !HasPrefix(a, b)
  {
    if HasPrefix(a, b) { HeadOf(a, b, n); }
  }

  lemma {:induction false} HeadOf(a: Str, b: Str, n: nat)
    requires HasPrefix(a, b) && n <= |b|
    ensures a[..n] == b[..n]
  {
    assert a[..n] == a[..|b|][..n];
  }

  lemma {:induction false} FirstDiffers(a: Str, b: Str)
    requires a != [] && b != [] && a[0] != b[0]
    ensures !HasPrefix(a, b)
  {
    assert |b| <= |a| ==> a[..|b|][0] == a[0];
  }

  /** The exact outcome of `lookup`'s test: the entry is of the value sought, or it is a text
      that runs on behind a separator, or one whose row key completes the text sought. */
  lemma {:induction false} PrefixTest(v: Value, pk: PkKey, w: Value)
    requires Indexable(v) && Indexable(w)
    ensures HasPrefix(CompositeKey(v, pk).s, CompositePrefix(w)) <==>
              v == w || (v.typ == Text && w.typ == Text && FalseHit(v.text, FormatPk(pk), w.text))
  {
    hide HasPrefix, FormatInt, FalseHit;
    Formats();
    var s, p := CompositeKey(v, pk).s, CompositePrefix(w);
    if v.typ == Integer && w.typ == Integer {
      PrefixMeansValue(v, pk, w);
    } else if v.typ == w.typ {
      var t := Ascii("T:");
      assert s == t + (v.text + [NUL] + FormatPk(pk)) && p == t + (w.text + [NUL]);
      DropCommon(t, v.text + [NUL] + FormatPk(pk), w.text + [NUL]);
      SplitTest(v.text, FormatPk(pk), w.text);
    } else {
      assert s[0] == ValuePart(v)[0] && p[0] == ValuePart(w)[0];
      FirstDiffers(s, p);
    }
  }

  /** For a separator-free text sought, the wrong entries are those of the texts that go on
      behind it with a separator, under keys of either kind. */
  lemma {:induction false} PrefixTestText(v: Str, pk: PkKey, w: Str)
    requires NUL !in w
    ensures HasPrefix(CompositeKey(TextValue(v), pk).s, CompositePrefix(TextValue(w))) <==> v == w || HasPrefix(v, w + [NUL])
  {
    hide CompositeKey, CompositePrefix;
    PrefixTest(TextValue(v), pk, TextValue(w));
    if HasPrefix(w, v + [NUL]) { NulWithin(w, v); }
  }

  lemma {:induction false} NulWithin(w: Str, v: Str)
    requires HasPrefix(w, v + [NUL])
    ensures NUL in w
  {
    assert w[|v|] == w[..|v| + 1][|v|];
  }

  /** A separator-free text and rows under which `text` shares a composite key with it. */
  predicate Collides(text: Str, other: Str, p: Str, q: Str)
  {
    && NUL !in other && other != text
    && CompositeKey(TextValue(text), PkStr(p)) == CompositeKey(TextValue(other), PkStr(q))
  }

  lemma {:induction false} NulCollides(text: Str, i: nat)
    requires i < |text| && text[i] == NUL && NUL !in text[..i]
    ensures Collides(text, text[..i], [], text[i + 1..] + [NUL])
  {
    var other, rest := text[..i], text[i + 1..];
    var t := Ascii("T:");
    assert text == other + [NUL] + rest;
    assert (t + text + [NUL]) + [] == (t + other + [NUL]) + (rest + [NUL]);
  }

  /** The limit is real: a text shares a composite key with some other, separator-free
      text exactly if it holds the separator. */
  lemma {:induction false} CollidesIffNul(text: Str)
    ensures NUL in text <==> exists other, p, q :: Collides(text, other, p, q)
  {
    hide CompositeKey;
    if NUL in text {
      FirstIndex(text);
      var i :| 0 <= i < |text| && text[i] == NUL && NUL !in text[..i];
      NulCollides(text, i);
    } else if other, p, q :| Collides(text, other, p, q) {
      CompositeInjective(TextValue(text), PkStr(p), TextValue(other), PkStr(q));
    }
  }

  lemma {:induction false} FirstIndex(s: Str)
    requires NUL in s
    ensures exists i :: 0 <= i < |s| && s[i] == NUL && NUL !in s[..i]
  {
    var i := 0;
    while s[i] != NUL
      invariant 0 <= i < |s| && NUL !in s[..i]
      invariant exists k :: i <= k < |s| && s[k] == NUL
      decreases |s| - i
    {
      assert s[..i + 1] == s[..i] + [s[i]];
      i := i + 1;
    }
  }

  // ------------------------------------------------------------- lookup

  /** The values of the entries whose key starts with `p`. */
  function WithPrefix(es: seq<Entry>, p: Str): seq<Str>
  {
    if es == [] then [] else
      (if es[0].key.PkStr? && HasPrefix(es[0].key.s, p) then [es[0].val] else []) + WithPrefix(es[1..], p)
  }

  predicate AllText(es: seq<Entry>)
  {
    forall i :: 0 <= i < |es| ==> es[i].key.PkStr?
  }

  /** The leading entries with the prefix. */
  function Leading(es: seq<Entry>, p: Str): seq<Str>
  {
    if es == [] || !(es[0].key.PkStr? && HasPrefix(es[0].key.s, p)) then [] else [es[0].val] + Leading(es[1..], p)
  }

  lemma {:induction false} NonePastInterval(es: seq<Entry>, p: Str)
    requires SortedEntries(es) && AllText(es)
    requires es != [] && !Less(es[0].key, PkStr(p)) && !HasPrefix(es[0].key.s, p)
    ensures WithPrefix(es, p) == []
  {
    if |es| > 1 {
      var a, b := es[0].key.s, es[1].key.s;
      if HasPrefix(b, p) { PrefixInterval(p, a, b); }
      CompareIsOrder(es[0].key, es[1].key, PkStr(p));
      CompareIsOrder(es[1].key, PkStr(p), es[0].key);
      assert !Less(es[1].key, PkStr(p));
      NonePastInterval(es[1..], p);
    }
  }

  /** Scanning on from the prefix until it no longer matches finds every match. */
  lemma {:induction false} LeadingIsAll(es: seq<Entry>, p: Str)
    requires SortedEntries(es) && AllText(es)
    requires forall i :: 0 <= i < |es| ==> !Less(es[i].key, PkStr(p))
    ensures Leading(es, p) == WithPrefix(es, p)
  {
    hide Less, StrLess;
    if es != [] {
      if HasPrefix(es[0].key.s, p) {
        LeadingIsAll(es[1..], p);
      } else {
        NonePastInterval(es, p);
      }
    }
  }

  /** No entry below the prefix starts with it. */
  lemma {:induction false} FromKeepsMatches(es: seq<Entry>, p: Str)
    requires SortedEntries(es) && AllText(es)
    ensures WithPrefix(From(es, PkStr(p)), p) == WithPrefix(es, p)
  {
    if es != [] && Less(es[0].key, PkStr(p)) {
      FromKeepsMatches(es[1..], p);
      if HasPrefix(es[0].key.s, p) { PrefixNotLess(es[0].key.s, p); }
    }
  }

  /** `secondaryIdx` over its B+tree. */
  class SecondaryIdx {
    const tree: BTree

    ghost predicate Valid()
      reads this, tree, BTreeNodes.Foot(tree.shape)
    {
      tree.Valid() && AllText(Entries(tree.Tree()))
    }

    constructor ()
      ensures Valid() && fresh(tree) && fresh(BTreeNodes.Foot(tree.shape)) && tree.Map() == map[]
    {
      tree := new BTree();
    }

    /** `insert` */
    method Insert(v: Value, pk: PkKey, rk: Str)
      requires Valid()
      modifies tree, BTreeNodes.Foot(tree.shape)
      ensures Valid() && fresh(BTreeNodes.Foot(tree.shape) - old(BTreeNodes.Foot(tree.shape)))
      ensures tree.Map() == old(tree.Map())[CompositeKey(v, pk) := rk]
      ensures Entries(tree.Tree()) == PutSorted(old(Entries(tree.Tree())), CompositeKey(v, pk), rk)
    {
      hide CompositeKey, BTreeNodes.Foot, BTreeRuns.Contents, Entries, PutSorted;
      ghost var es := Entries(tree.Tree());
      CompositeIsText(v, pk);
      PutKeepsText(es, CompositeKey(v, pk), rk);
      tree.Put(CompositeKey(v, pk), rk);
    }

    /** `remove` */
    method Remove(v: Value, pk: PkKey)
      requires Valid()
      modifies tree, BTreeNodes.Foot(tree.shape)
      ensures Valid() && BTreeNodes.Foot(tree.shape) == old(BTreeNodes.Foot(tree.shape))
      ensures tree.Map() == old(tree.Map()) - {CompositeKey(v, pk)}
      ensures Entries(tree.Tree()) == DropKey(old(Entries(tree.Tree())), CompositeKey(v, pk))
    {
      hide CompositeKey, BTreeNodes.Foot, BTreeRuns.Contents, Entries, DropKey;
      ghost var es := Entries(tree.Tree());
      DropKeepsText(es, CompositeKey(v, pk));
      tree.Delete(CompositeKey(v, pk));
    }

    /** `lookup`: all row keys under the value's prefix. */
    method Lookup(v: Value) returns (out: seq<Str>)
      requires Valid()
      ensures out == WithPrefix(Entries(tree.Tree()), CompositePrefix(v))
    {
      hide CompositePrefix, BTreeNodes.Foot, BTreeNodes.LeafNodes, BTreeNodes.Erase, Entries, From, Rest, LeafEntries, WithPrefix, Less, BTreeNodes.Holds, BTreeRuns.Sound, LeavesOk, BTreeNodes.Linked;
      var p := CompositePrefix(v);
      ghost var es := Entries(tree.Tree());
      SoundSorted(tree.Tree());
      FoundFrom(es, p);
      var it := tree.Seek(PkStr(p));
      out := [];
      ghost var all := From(es, PkStr(p));
      while true
        invariant fresh(it) && it.Valid() && unchanged(tree)
        invariant WithPrefix(es, p) == out + Leading(it.Remaining(), p)
        decreases |it.Remaining()|
      {
        var r := it.Next();
        if r.None? || !(r.value.key.PkStr? && HasPrefix(r.value.key.s, p)) {
          assert out + [] == out;
          return;
        }
        assert out + ([r.value.val] + Leading(it.Remaining(), p)) == (out + [r.value.val]) + Leading(it.Remaining(), p);
        out := out + [r.value.val];
      }
    }
  }

  lemma {:induction false} CompositeIsText(v: Value, pk: PkKey)
    ensures CompositeKey(v, pk).PkStr?
  {
  }

  lemma {:induction false} SoundSorted(t: Tree)
    requires BTreeRuns.Sound(t)
    ensures SortedEntries(Entries(t))
  {
    EntriesSorted(t, BTreeRuns.Height(t), None, None);
  }

  lemma {:induction false} FoundFrom(es: seq<Entry>, p: Str)
    requires SortedEntries(es) && AllText(es)
    ensures WithPrefix(es, p) == [] + Leading(From(es, PkStr(p)), p)
  {
    hide Less, From, Leading, WithPrefix;
    FromKeepsMatches(es, p);
    FromIsSuffix(es, PkStr(p));
    var f := From(es, PkStr(p));
    var d := |es| - |f|;
    forall i | 0 <= i < |f| ensures !Less(f[i].key, PkStr(p)) && f[i].key.PkStr? {
      assert f[i] == es[d + i];
    }
    forall i, j | 0 <= i < j < |f| ensures Less(f[i].key, f[j].key) {
      assert f[i] == es[d + i] && f[j] == es[d + j];
    }
    LeadingIsAll(f, p);
  }

  lemma {:induction false} PutKeepsText(es: seq<Entry>, k: PkKey, v: Str)
    requires AllText(es) && k.PkStr?
    ensures AllText(PutSorted(es, k, v))
  {
    hide Less;
    if es != [] { PutKeepsText(es[1..], k, v); }
  }

  lemma {:induction false} DropKeepsText(es: seq<Entry>, k: PkKey)
    requires AllText(es)
    ensures AllText(DropKey(es, k))
  {
    if es != [] { DropKeepsText(es[1..], k); }
  }

  /** The lookup as the map sees it: the row keys of all entries under the prefix. */
  lemma {:induction false} LookupIsMapQuery(es: seq<Entry>, p: Str, rk: Str)
    requires SortedEntries(es)
    ensures rk in WithPrefix(es, p) <==>
              exists k :: k in ToMap(es) && k.PkStr? && HasPrefix(k.s, p) && ToMap(es)[k] == rk
  {
    hide HasPrefix, Less;
    if es != [] {
      SortedTail(es);
      LookupIsMapQuery(es[1..], p, rk);
      var m, m' := ToMap(es), ToMap(es[1..]);
      assert es[0].key !in m' by { CompareIsOrder(es[0].key, es[0].key, es[0].key); }
      if k :| k in m && k.PkStr? && HasPrefix(k.s, p) && m[k] == rk {
        if k != es[0].key { assert k in m' && m'[k] == rk; }
      }
      if k :| k in m' && k.PkStr? && HasPrefix(k.s, p) && m'[k] == rk {
        assert k in m && m[k] == rk;
      }
    }
  }
}
