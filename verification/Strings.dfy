/**
 Go strings and byte slices: both are finite byte sequences here.  The order is
 Go's `<` on strings, that is, bytewise lexicographic order.
 */
module Strings {

  type Byte = b: int | 0 <= b < 256

  /** A Go `string` or `[]byte`. */
  type Str = seq<Byte>

  datatype Option<+T> = None | Some(value: T)

  /** The bytes of an ASCII literal. */
  function Ascii(s: string): (r: Str)
    requires forall i :: 0 <= i < |s| ==> s[i] as int < 128
    ensures |r| == |s|
  {
    seq(|s|, i requires 0 <= i < |s| => s[i] as int)
  }

  /** Go's `a < b`. */
  predicate StrLess(a: Str, b: Str)
  {
    b != [] && (a == [] || a[0] < b[0] || (a[0] == b[0] && StrLess(a[1..], b[1..])))
  }

  predicate HasPrefix(s: Str, p: Str)
  {
    |p| <= |s| && s[..|p|] == p
  }

  lemma {:induction false} StrLessTransitive(a: Str, b: Str, c: Str)
    requires StrLess(a, b) && StrLess(b, c)
    ensures StrLess(a, c)
  {
    if a != [] && a[0] == b[0] == c[0] {
      StrLessTransitive(a[1..], b[1..], c[1..]);
    }
  }

  /** Exactly one of `a < b`, `a == b`, `b < a` holds. */
  lemma {:induction false} StrLessTotal(a: Str, b: Str)
    ensures StrLess(a, b) || a == b || StrLess(b, a)
    ensures !(StrLess(a, b) && StrLess(b, a))
    ensures a == b ==> !StrLess(a, b)
  {
    if a != [] && b != [] && a[0] == b[0] {
      StrLessTotal(a[1..], b[1..]);
      assert a == [a[0]] + a[1..] && b == [b[0]] + b[1..];
    }
  }

  /** Nothing that starts with `p` lies below `p`. */
  lemma {:induction false} PrefixNotLess(s: Str, p: Str)
    requires HasPrefix(s, p)
    ensures !StrLess(s, p)
  {
    if p != [] {
      assert s[0] == s[..|p|][0] == p[0];
      assert s[1..][..|p| - 1] == s[..|p|][1..] == p[1..];
      PrefixNotLess(s[1..], p[1..]);
    }
  }

  /** The strings with a given prefix form an interval: nothing between `p` and a
      string with prefix `p` lacks the prefix. */
  lemma {:induction false} PrefixInterval(p: Str, s: Str, t: Str)
    requires !StrLess(s, p) && StrLess(s, t) && HasPrefix(t, p)
    ensures HasPrefix(s, p)
  {
    if p != [] {
      assert t[0] == t[..|p|][0] == p[0];
      assert t[1..][..|p| - 1] == t[..|p|][1..] == p[1..];
      PrefixInterval(p[1..], s[1..], t[1..]);
      assert s[..|p|] == [s[0]] + s[1..][..|p| - 1];
      assert p == [p[0]] + p[1..];
    }
  }
}
