/**
 Keys and version numbers in ascending order, as `sort.Strings` and `sort.Slice` leave them.
 */
module Sorting {
  import opened Strings

  predicate SortedKeys(ks: seq<Str>)
  {
    forall i, j :: 0 <= i < j < |ks| ==> StrLess(ks[i], ks[j])
  }

  predicate SortedNats(ns: seq<nat>)
  {
    forall i, j :: 0 <= i < j < |ns| ==> ns[i] < ns[j]
  }

  lemma {:induction false} LeastKey(s: set<Str>) returns (m: Str)
    requires s != {}
    ensures m in s && forall k :: k in s && k != m ==> StrLess(m, k)
  {
    hide StrLess;
    var x :| x in s;
    if s == {x} {
      m := x;
    } else {
      var rest := s - {x};
      assert rest != {};
      var y := LeastKey(rest);
      m := if StrLess(x, y) then x else y;
      StrLessTotal(x, y);
      forall k | k in s && k != m ensures StrLess(m, k) {
        if k in rest && k != y && m == x { StrLessTransitive(x, y, k); }
      }
    }
  }

  lemma {:induction false} LeastNat(s: set<nat>) returns (m: nat)
    requires s != {}
    ensures m in s && forall k :: k in s ==> m <= k
  {
    var x :| x in s;
    if s == {x} {
      m := x;
    } else {
      assert s - {x} != {};
      var y := LeastNat(s - {x});
      m := if x < y then x else y;
      forall k | k in s ensures m <= k {
        if k != x { assert k in s - {x}; }
      }
    }
  }

  /** The keys of a map in ascending order, as `sort.Strings` leaves them. */
  ghost function SortKeys(s: set<Str>): (ks: seq<Str>)
    ensures SortedKeys(ks) && forall k :: k in ks <==> k in s
  {
    if s == {} then [] else
      var m := LeastKeyOf(s);
      [m] + SortKeys(s - {m})
  }

  ghost function LeastKeyOf(s: set<Str>): (m: Str)
    requires s != {}
    ensures m in s && forall k :: k in s && k != m ==> StrLess(m, k)
  {
    assert exists m :: m in s && forall k :: k in s && k != m ==> StrLess(m, k) by {
      var m := LeastKey(s);
    }
    var m :| m in s && forall k :: k in s && k != m ==> StrLess(m, k);
    m
  }

  ghost function SortNats(s: set<nat>): (ns: seq<nat>)
    ensures SortedNats(ns) && forall n :: n in ns <==> n in s
  {
    if s == {} then [] else
      var m := LeastNatOf(s);
      [m] + SortNats(s - {m})
  }

  ghost function LeastNatOf(s: set<nat>): (m: nat)
    requires s != {}
    ensures m in s && forall k :: k in s ==> m <= k
  {
    assert exists m :: m in s && forall k :: k in s ==> m <= k by {
      var m := LeastNat(s);
    }
    var m :| m in s && forall k :: k in s ==> m <= k;
    m
  }

  /** Keys in ascending order: the effect of `sort.Strings` on the keys of a map. */
  method SortedKeysOf(s: set<Str>) returns (ks: seq<Str>)
    ensures ks == SortKeys(s)
  {
    hide StrLess, SortKeys, SortedKeys;
    ks := [];
    var rest := s;
    while rest != {}
      invariant ks + SortKeys(rest) == SortKeys(s)
      decreases |rest|
    {
      assert exists m :: m in rest && forall k :: k in rest && k != m ==> StrLess(m, k) by {
        var m := LeastKeyOf(rest);
      }
      var m :| m in rest && forall k :: k in rest && k != m ==> StrLess(m, k);
      SortKeysStep(rest, m);
      assert ks + ([m] + SortKeys(rest - {m})) == (ks + [m]) + SortKeys(rest - {m});
      ks, rest := ks + [m], rest - {m};
    }
    SortNothing();
  }

  lemma {:induction false} SortKeysStep(s: set<Str>, m: Str)
    requires m in s && forall k :: k in s && k != m ==> StrLess(m, k)
    ensures SortKeys(s) == [m] + SortKeys(s - {m})
  {
    StrLessTotal(m, LeastKeyOf(s));
  }

  lemma {:induction false} SortNothing()
    ensures SortKeys({}) == [] && SortNats({}) == []
  {
  }

  method SortedVersionsOf(s: set<nat>) returns (ns: seq<nat>)
    ensures ns == SortNats(s)
  {
    hide SortNats, SortedNats;
    ns := [];
    var rest := s;
    while rest != {}
      invariant ns + SortNats(rest) == SortNats(s)
      decreases |rest|
    {
      assert IsLeast(LeastNatOf(rest), rest);
      var m: nat :| m in rest && IsLeast(m, rest);
      SortNatsStep(rest, m);
      assert ns + ([m] + SortNats(rest - {m})) == (ns + [m]) + SortNats(rest - {m});
      ns, rest := ns + [m], rest - {m};
    }
    SortNothing();
  }

  predicate IsLeast(m: nat, s: set<nat>)
  {
    forall k :: k in s ==> m <= k
  }

  lemma {:induction false} SortNatsStep(s: set<nat>, m: nat)
    requires m in s && IsLeast(m, s)
    ensures SortNats(s) == [m] + SortNats(s - {m})
  {
  }

  lemma {:induction false} SortedCount(s: set<Str>)
    ensures |SortKeys(s)| == |s|
    decreases |s|
  {
    if s != {} { SortedCount(s - {LeastKeyOf(s)}); }
  }
}
