/**
 Storage keys of the SQL layer: decimal integers, percent-encoded text (section 2.1 of
 RFC 3986), primary keys and row keys.
 */
module Keys {
  import opened Strings
  import opened BTreeModel

  // ------------------------------------------------------------ decimal

  const ZERO: Byte := 48 // '0'
  const MINUS: Byte := 45 // '-'
  const PLUS: Byte := 43 // '+'

  predicate IsDigit(b: Byte)
  {
    ZERO <= b < ZERO + 10
  }

  function Decimal(n: nat): (s: Str)
    ensures s != [] && forall i :: 0 <= i < |s| ==> IsDigit(s[i])
  {
    if n < 10 then [ZERO + n] else Decimal(n / 10) + [ZERO + n % 10]
  }

  function ParseDecimal(s: Str): Option<nat>
  {
    if s == [] then None
    else if !IsDigit(s[|s| - 1]) then None
    else if |s| == 1 then Some(s[0] - ZERO)
    else
      match ParseDecimal(s[..|s| - 1])
      case None => None
      case Some(n) => Some(10 * n + (s[|s| - 1] - ZERO))
  }

  lemma {:induction false} DecimalRoundTrip(n: nat)
    ensures ParseDecimal(Decimal(n)) == Some(n)
  {
    if n >= 10 {
      DecimalRoundTrip(n / 10);
      var s := Decimal(n);
      assert s[..|s| - 1] == Decimal(n / 10);
    }
  }

  /** `strconv.FormatInt` in base 10, and `%d`. */
  function FormatInt(i: Int64): (s: Str)
    ensures s != [] && forall j :: 0 <= j < |s| ==> IsDigit(s[j]) || s[j] == MINUS
  {
    if i < 0 then [MINUS] + Decimal(-(i as int)) else Decimal(i)
  }

  function InInt64(n: int): Option<Int64>
  {
    if -0x8000_0000_0000_0000 <= n < 0x8000_0000_0000_0000 then Some(n) else None
  }

  /** `strconv.ParseInt` in base 10: an optional sign, digits, and no overflow. */
  function ParseInt(s: Str): Option<Int64>
  {
    var neg := s != [] && s[0] == MINUS;
    match ParseDecimal(if s != [] && (s[0] == MINUS || s[0] == PLUS) then s[1..] else s)
    case None => None
    case Some(n) => InInt64(if neg then -(n as int) else n)
  }

  lemma {:induction false} IntRoundTrip(i: Int64)
    ensures ParseInt(FormatInt(i)) == Some(i)
  {
    if i < 0 {
      DecimalRoundTrip(-(i as int));
      assert FormatInt(i)[1..] == Decimal(-(i as int));
    } else {
      DecimalRoundTrip(i);
      assert IsDigit(Decimal(i)[0]);
    }
  }

  // ------------------------------------------------------- percent-encoding

  const PERCENT: Byte := 37
  const SLASH: Byte := 47

  /** The bytes `url.PathEscape` leaves alone: letters, digits and `-_.~$&+:=@`. */
  predicate Plain(b: Byte)
  {
    || IsDigit(b) || 65 <= b <= 90 || 97 <= b <= 122
    || b in {45, 95, 46, 126, 36, 38, 43, 58, 61, 64}
  }

  function HexDigit(d: nat): Byte
    requires d < 16
  {
    if d < 10 then ZERO + d else 65 + (d - 10)
  }

  function HexValue(b: Byte): Option<nat>
  {
    if IsDigit(b) then Some(b - ZERO)
    else if 65 <= b <= 70 then Some(b - 65 + 10)
    else if 97 <= b <= 102 then Some(b - 97 + 10)
    else None
  }

  function EscapeByte(b: Byte): Str
  {
    if Plain(b) then [b] else [PERCENT, HexDigit(b / 16), HexDigit(b % 16)]
  }

  /** `url.PathEscape` */
  function Escape(s: Str): Str
  {
    if s == [] then [] else EscapeByte(s[0]) + Escape(s[1..])
  }

  /** `url.PathUnescape` */
  function Unescape(s: Str): Option<Str>
  {
    if s == [] then Some([])
    else if s[0] != PERCENT then
      match Unescape(s[1..])
      case None => None
      case Some(t) => Some([s[0]] + t)
    else if |s| < 3 || HexValue(s[1]).None? || HexValue(s[2]).None? then None
    else
      match Unescape(s[3..])
      case None => None
      case Some(t) =>
        var b := 16 * HexValue(s[1]).value + HexValue(s[2]).value;
        if b < 256 then Some([b] + t) else None
  }

  /** Escaping is undone by unescaping and leaves no slash. */
  lemma {:induction false} EscapeRoundTrip(s: Str)
    ensures Unescape(Escape(s)) == Some(s)
    ensures SLASH !in Escape(s)
  {
    if s != [] {
      EscapeRoundTrip(s[1..]);
      var b, rest := s[0], Escape(s[1..]);
      var e := EscapeByte(b) + rest;
      assert s == [b] + s[1..];
      if Plain(b) {
        assert e[0] == b && e[1..] == rest;
      } else {
        assert e[0] == PERCENT && e[1] == HexDigit(b / 16) && e[2] == HexDigit(b % 16) && e[3..] == rest;
        assert HexValue(HexDigit(b / 16)) == Some(b / 16) && HexValue(HexDigit(b % 16)) == Some(b % 16);
      }
    }
  }

  // ------------------------------------------------------------ row keys

  /** `pkKey.encode`: "i:" and the number, or "s:" and the escaped text. */
  function EncodePk(k: PkKey): Str
  {
    match k
    case PkInt(i) => Ascii("i:") + FormatInt(i)
    case PkStr(s) => Ascii("s:") + Escape(s)
  }

  /** `pkKeyFromEncoded` */
  function DecodePk(e: Str): Option<PkKey>
  {
    if HasPrefix(e, Ascii("i:")) then
      match ParseInt(e[2..]) case None => None case Some(i) => Some(PkInt(i))
    else if HasPrefix(e, Ascii("s:")) then
      match Unescape(e[2..]) case None => None case Some(s) => Some(PkStr(s))
    else None
  }

  lemma {:induction false} PkRoundTrip(k: PkKey)
    ensures DecodePk(EncodePk(k)) == Some(k)
    ensures SLASH !in EncodePk(k)
  {
    hide Escape, Unescape, FormatInt, ParseInt;
    var e := EncodePk(k);
    assert Ascii("i:") == [105, 58] && Ascii("s:") == [115, 58];
    match k
    case PkInt(i) =>
      IntRoundTrip(i);
      assert e[..2] == Ascii("i:") && e[2..] == FormatInt(i);
    case PkStr(s) =>
      EscapeRoundTrip(s);
      assert e[..2] == Ascii("s:") && e[2..] == Escape(s) && e[0] == 115;
  }

  /** `rowKeyPrefix` */
  function RowPrefix(table: Str): Str
  {
    Ascii("__rdb__/t/") + table + Ascii("/r/")
  }

  /** `rowKey` */
  function RowKey(table: Str, pk: PkKey): Str
  {
    RowPrefix(table) + EncodePk(pk)
  }

  /** `parseRowKey` and `pkKeyFromEncoded` */
  function ParseRowKey(table: Str, key: Str): Option<PkKey>
  {
    if HasPrefix(key, RowPrefix(table)) then DecodePk(key[|RowPrefix(table)|..]) else None
  }

  /** A row key gives back its table's prefix and its primary key. */
  lemma {:induction false} RowKeyRoundTrip(table: Str, pk: PkKey)
    ensures HasPrefix(RowKey(table, pk), RowPrefix(table))
    ensures ParseRowKey(table, RowKey(table, pk)) == Some(pk)
  {
    hide EncodePk, DecodePk, RowPrefix;
    PkRoundTrip(pk);
    var p := RowPrefix(table);
    assert RowKey(table, pk)[..|p|] == p && RowKey(table, pk)[|p|..] == EncodePk(pk);
  }

  /** Row keys of different rows of a table differ. */
  lemma {:induction false} RowKeyInjective(table: Str, a: PkKey, b: PkKey)
    requires RowKey(table, a) == RowKey(table, b)
    ensures a == b
  {
    RowKeyRoundTrip(table, a);
    RowKeyRoundTrip(table, b);
  }

  /** Table names come from identifiers, so they hold no slash. */
  predicate TableName(t: Str)
  {
    SLASH !in t
  }

  /** No row of one table is under the row prefix of another. */
  lemma {:induction false} TablesDisjoint(t: Str, u: Str, key: Str)
    requires TableName(t) && TableName(u)
    requires HasPrefix(key, RowPrefix(t)) && HasPrefix(key, RowPrefix(u))
    ensures t == u
  {
    var h := Ascii("__rdb__/t/");
    var n := |h|;
    TableEnds(key, n, t);
    TableEnds(key, n, u);
    if |t| < |u| { NotSlash(key, n, u, |t|); }
    if |u| < |t| { NotSlash(key, n, t, |u|); }
  }

  lemma {:induction false} NotSlash(key: Str, n: nat, t: Str, j: nat)
    requires TableName(t) && n + |t| <= |key| && key[n..n + |t|] == t && j < |t|
    ensures key[n + j] != SLASH
  {
    assert key[n + j] == key[n..n + |t|][j] == t[j];
  }

  lemma {:induction false} TableEnds(key: Str, n: nat, t: Str)
    requires n == |Ascii("__rdb__/t/")| && HasPrefix(key, RowPrefix(t))
    ensures n + |t| < |key| && key[n..n + |t|] == t && key[n + |t|] == SLASH
  {
    var p := RowPrefix(t);
    assert p[n..n + |t|] == t && p[n + |t|] == Ascii("/r/")[0] == SLASH;
    assert forall i :: 0 <= i < |p| ==> key[i] == key[..|p|][i] == p[i];
    SliceAgrees(key, p, n, n + |t|);
  }

  lemma {:induction false} SliceAgrees(a: Str, b: Str, i: nat, j: nat)
    requires i <= j <= |a| && j <= |b| && forall k :: 0 <= k < j ==> a[k] == b[k]
    ensures a[i..j] == b[i..j]
  {
  }

  /** Keys as they stand in the store: `__rdb__/t/u/r/i:-15` and `__rdb__/t/u/r/s:a%2Fb`. */
  lemma {:induction false} KeyLayout()
    ensures RowPrefix(Ascii("u")) == Ascii("__rdb__/t/u/r/")
    ensures EncodePk(PkInt(-15)) == Ascii("i:-15")
    ensures EncodePk(PkStr(Ascii("a/b"))) == Ascii("s:a%2Fb")
  {
    hide FormatInt, Escape;
    Fifteen();
    Slashed();
    assert Ascii("a/b") == [97, 47, 98];
  }

  lemma {:induction false} Fifteen()
    ensures FormatInt(-15) == [45, 49, 53]
  {
    assert Decimal(1) == [49];
    assert Decimal(15) == Decimal(1) + [53];
  }

  lemma {:induction false} Slashed()
    ensures Escape([97, 47, 98]) == [97, 37, 50, 70, 98]
  {
    var s: Str := [97, 47, 98];
    assert s[1..] == [47, 98] && [47, 98][1..] == [98] && [98][1..] == [];
    assert Escape([98]) == [98] + Escape([]);
    assert Escape([47, 98]) == [37, 50, 70] + Escape([98]);
    assert Escape(s) == [97] + Escape([47, 98]);
  }

  /** The digits of a decimal carry its value, the last one lowest. */
  lemma {:induction false} DecimalDigits(n: nat)
    ensures Decimal(n)[|Decimal(n)| - 1] == ZERO + n % 10
    ensures if n < 10 then |Decimal(n)| == 1 else Decimal(n)[..|Decimal(n)| - 1] == Decimal(n / 10)
  {
  }
}
