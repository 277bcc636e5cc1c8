/**
 SQL values and the row codec of row.go.
 */
module Row {
  import opened Strings
  import opened LittleEndian
  import opened BTreeModel
  import Page

  /** `ColType`; NoType is the empty string a decoded NULL carries. */
  datatype ColType = NoType | Integer | Text | Blob | Json

  /** `Value` */
  datatype Value = Value(typ: ColType, i: Int64, text: Str, blob: Str, isNull: bool)

  const NULL := Value(NoType, 0, [], [], true)

  function IntValue(i: Int64): Value { Value(Integer, i, [], [], false) }
  function TextValue(s: Str): Value { Value(Text, 0, s, [], false) }
  function BlobValue(b: Str): Value { Value(Blob, 0, [], b, false) }
  function JsonValue(b: Str): Value { Value(Json, 0, [], b, false) }

  /** What storing keeps of a value: the payload of its type, and of NULL nothing but that it is NULL. */
  function Stored(v: Value): Value
  {
    if v.isNull then NULL else
      match v.typ
      case Integer => IntValue(v.i)
      case Text => TextValue(v.text)
      case Blob => BlobValue(v.blob)
      case Json => JsonValue(v.blob)
      case NoType => NULL
  }

  function StoredRow(vs: seq<Value>): (r: seq<Value>)
    ensures |r| == |vs|
  {
    seq(|vs|, i requires 0 <= i < |vs| => Stored(vs[i]))
  }

  // ------------------------------------------------------------- values

  function Sized(tag: Byte, b: Str): Str
  {
    [tag] + Put32(|b|) + b
  }

  /** `Value.encode` */
  function EncodeValue(v: Value): (s: Str)
    ensures s != []
  {
    if v.isNull then [0] else
      match v.typ
      case Integer => [1] + Put64(FromInt64(v.i))
      case Text => Sized(2, v.text)
      case Blob => Sized(3, v.blob)
      case Json => Sized(4, v.blob)
      case NoType => [0]
  }

  datatype Decoded = Decoded(value: Value, used: nat)

  function DecodeSized(data: Str, mk: Str -> Value): (r: Option<Decoded>)
    ensures r.Some? ==> r.value.used <= |data|
  {
    if |data| < 5 then None else
      var n := Get32(data[1..5]);
      if |data| < 5 + n then None else Some(Decoded(mk(data[5..5 + n]), 5 + n))
  }

  /** `decodeValue` */
  function DecodeValue(data: Str): (r: Option<Decoded>)
    ensures r.Some? ==> 0 < r.value.used <= |data|
  {
    if |data| < 1 then None
    else if data[0] == 0 then Some(Decoded(NULL, 1))
    else if data[0] == 1 then
      if |data| < 9 then None else Some(Decoded(IntValue(ToInt64(Get64(data[1..9]))), 9))
    else if data[0] == 2 then DecodeSized(data, b => TextValue(b))
    else if data[0] == 3 then DecodeSized(data, b => BlobValue(b))
    else if data[0] == 4 then DecodeSized(data, b => JsonValue(b))
    else None
  }

  lemma {:induction false} SizedRoundTrip(tag: Byte, b: Str, tail: Str, mk: Str -> Value)
    requires |b| < TWO32
    ensures DecodeSized(Sized(tag, b) + tail, mk) == Some(Decoded(mk(b), |Sized(tag, b)|))
  {
    hide Put32, Get32;
    var d := Sized(tag, b) + tail;
    assert d[1..5] == Put32(|b|) && d[5..5 + |b|] == b;
    RoundTrip32(|b|);
  }

  /** Reading an encoded value followed by anything gives what storing keeps of it, and its exact length. */
  lemma {:induction false} ValueRoundTrip(v: Value, tail: Str)
    requires |EncodeValue(v)| < TWO32
    ensures DecodeValue(EncodeValue(v) + tail) == Some(Decoded(Stored(v), |EncodeValue(v)|))
  {
    hide Put32, Get32, Put64, Get64;
    var d := EncodeValue(v) + tail;
    if !v.isNull {
      match v.typ
      case Integer =>
        assert d[1..9] == Put64(FromInt64(v.i));
        RoundTrip64(FromInt64(v.i));
      case Text => SizedRoundTrip(2, v.text, tail, b => TextValue(b));
      case Blob => SizedRoundTrip(3, v.blob, tail, b => BlobValue(b));
      case Json => SizedRoundTrip(4, v.blob, tail, b => JsonValue(b));
      case NoType =>
    }
  }

  // --------------------------------------------------------------- rows

  function EncodeAll(vs: seq<Value>): (s: Str)
    ensures |s| >= |vs|
  {
    if vs == [] then [] else EncodeAll(vs[..|vs| - 1]) + EncodeValue(vs[|vs| - 1])
  }

  function RowBytes(vs: seq<Value>): Str
  {
    Put16(|vs|) + EncodeAll(vs)
  }

  function DecodeN(data: Str, n: nat): Option<seq<Value>>
  {
    if n == 0 then Some([]) else
      match DecodeValue(data)
      case None => None
      case Some(d) =>
        match DecodeN(data[d.used..], n - 1)
        case None => None
        case Some(rest) => Some([d.value] + rest)
  }

  function RowFrom(data: Str): Option<seq<Value>>
  {
    if |data| < 2 then None else DecodeN(data[2..], Get16(data[..2]))
  }

  /** `encodeRow` */
  method EncodeRow(values: seq<Value>) returns (out: Str)
    ensures out == RowBytes(values)
  {
    hide EncodeValue, Put16;
    out := Put16(|values|);
    var i := 0;
    while i < |values|
      invariant i <= |values| && out == Put16(|values|) + EncodeAll(values[..i])
    {
      assert values[..i + 1][..i] == values[..i] && values[..i + 1][i] == values[i];
      assert EncodeAll(values[..i + 1]) == EncodeAll(values[..i]) + EncodeValue(values[i]);
      out := out + EncodeValue(values[i]);
      i := i + 1;
    }
    assert values[..|values|] == values;
  }

  /** `decodeRow` */
  method DecodeRow(data: Str) returns (r: Option<seq<Value>>)
    ensures r == RowFrom(data)
  {
    hide DecodeValue, Get16;
    if |data| < 2 {
      return None;
    }
    var n := Get16(data[..2]);
    var rest := data[2..];
    var out: seq<Value> := [];
    var i := 0;
    ghost var whole := DecodeN(rest, n);
    assert whole.Some? ==> [] + whole.value == whole.value;
    while i < n
      invariant i <= n
      invariant RowFrom(data) == match DecodeN(rest, n - i) case None => None case Some(more) => Some(out + more)
    {
      match DecodeValue(rest) {
        case None => return None;
        case Some(d) =>
          ghost var more := DecodeN(rest[d.used..], n - i - 1);
          assert more.Some? ==> out + ([d.value] + more.value) == (out + [d.value]) + more.value;
          out, rest := out + [d.value], rest[d.used..];
      }
      i := i + 1;
    }
    assert out + [] == out;
    r := Some(out);
  }

  lemma {:induction false} EncodeAllFirst(vs: seq<Value>)
    requires vs != []
    ensures EncodeAll(vs) == EncodeValue(vs[0]) + EncodeAll(vs[1..])
  {
    hide EncodeValue;
    if |vs| == 1 {
      assert vs[..0] == [] && vs[1..] == [];
    } else {
      var init, last := vs[..|vs| - 1], vs[|vs| - 1];
      EncodeAllFirst(init);
      assert vs[1..][..|vs| - 2] == init[1..] && vs[1..][|vs| - 2] == last;
      assert EncodeAll(vs[1..]) == EncodeAll(init[1..]) + EncodeValue(last);
      assert EncodeAll(vs) == (EncodeValue(vs[0]) + EncodeAll(init[1..])) + EncodeValue(last);
    }
  }

  lemma {:induction false} DecodeNRoundTrip(vs: seq<Value>, tail: Str)
    requires |EncodeAll(vs)| < TWO32
    ensures DecodeN(EncodeAll(vs) + tail, |vs|) == Some(StoredRow(vs))
  {
    hide EncodeValue, DecodeValue, Stored;
    if vs != [] {
      EncodeAllFirst(vs);
      var e, rest := EncodeValue(vs[0]), EncodeAll(vs[1..]);
      ValueRoundTrip(vs[0], rest + tail);
      var d := EncodeAll(vs) + tail;
      assert d == e + (rest + tail) && d[|e|..] == rest + tail;
      DecodeNRoundTrip(vs[1..], tail);
      assert StoredRow(vs) == [Stored(vs[0])] + StoredRow(vs[1..]);
    }
  }

  // ------------------------------------------------------------- packing

  /** `packRow` */
  function PackRow(vs: seq<Value>): Option<Str>
  {
    Page.RowPage(RowBytes(vs))
  }

  /** `unpackRow` */
  function UnpackRow(page: Str): Option<seq<Value>>
  {
    match Page.FromRowPage(page)
    case Payload(b) => RowFrom(b)
    case NoSlot => None
    case OutOfPage => None
  }

  /** The bytes written behind a length field. */
  function PayloadOf(v: Value): Str
  {
    if v.isNull then [] else
      match v.typ
      case Text => v.text
      case Blob => v.blob
      case Json => v.blob
      case _ => []
  }

  /** Whatever packs unpacks to the same values; the page limit keeps the 16-bit column
      count and the 32-bit lengths from being cut. */
  lemma {:induction false} PackRoundTrip(vs: seq<Value>)
    ensures PackRow(vs).Some? <==> |RowBytes(vs)| <= Page.PAGE_SIZE - 8
    ensures PackRow(vs).Some? ==> UnpackRow(PackRow(vs).value) == Some(StoredRow(vs))
    ensures PackRow(vs).Some? ==> |vs| < TWO16 && forall i :: 0 <= i < |vs| ==> |PayloadOf(vs[i])| < TWO32
  {
    hide EncodeValue, Page.RowPage, Page.FromRowPage, DecodeN, Get16, Put16, Stored;
    var b := RowBytes(vs);
    Page.RowPageRoundTrip(b);
    if PackRow(vs).Some? {
      assert b[..2] == Put16(|vs|) && b[2..] == EncodeAll(vs) + [];
      RoundTrip16(|vs|);
      DecodeNRoundTrip(vs, []);
      forall i | 0 <= i < |vs| ensures |PayloadOf(vs[i])| < TWO32 {
        ValueWithin(vs, i);
        PayloadWithin(vs[i]);
      }
    }
  }

  lemma {:induction false} ValueWithin(vs: seq<Value>, i: nat)
    requires i < |vs|
    ensures |EncodeValue(vs[i])| <= |EncodeAll(vs)|
  {
    if i < |vs| - 1 { ValueWithin(vs[..|vs| - 1], i); }
  }

  lemma {:induction false} PayloadWithin(v: Value)
    ensures |PayloadOf(v)| <= |EncodeValue(v)|
  {
  }

  /** A value in the file: a tag, and for texts and bytes a 32-bit length. */
  lemma {:induction false} ValueLayout(v: Value)
    ensures v.isNull || v.typ == NoType ==> EncodeValue(v) == [0]
    ensures !v.isNull && v.typ == Integer ==> |EncodeValue(v)| == 9 && EncodeValue(v)[0] == 1 && EncodeValue(v)[1..] == Put64(FromInt64(v.i))
    ensures !v.isNull && v.typ in {Text, Blob, Json} ==>
              && EncodeValue(v)[0] == (if v.typ == Text then 2 else if v.typ == Blob then 3 else 4)
              && EncodeValue(v)[1..5] == Put32(|PayloadOf(v)|) && EncodeValue(v)[5..] == PayloadOf(v)
  {
    hide Put32, Put64;
  }

  // -------------------------------------------------------- arbitrary bytes

  lemma {:induction false} SizedExact(data: Str, tag: Byte, mk: Str -> Value)
    requires data != [] && data[0] == tag && DecodeSized(data, mk).Some?
    ensures var n := Get32(data[1..5]);
            && 5 + n <= |data| && DecodeSized(data, mk).value == Decoded(mk(data[5..5 + n]), 5 + n)
            && data[..5 + n] == Sized(tag, data[5..5 + n])
  {
    hide Get32, Put32;
    var n := Get32(data[1..5]);
    Canonical32(data[1..5]);
    assert data[..5 + n] == [tag] + data[1..5] + data[5..5 + n];
  }

  /** Whatever decodes was encoded: the bytes taken are the encoding of the value returned. */
  lemma {:induction false} DecodeExact(data: Str)
    ensures match DecodeValue(data)
            case None => true
            case Some(d) => Stored(d.value) == d.value && data[..d.used] == EncodeValue(d.value)
  {
    hide Get32, Put32, Get64, Put64, Sized, DecodeSized;
    var r := DecodeValue(data);
    if r.Some? {
      if data[0] == 0 {
        assert data[..1] == [0];
      } else if data[0] == 1 {
        Canonical64(data[1..9]);
        Int64RoundTrip(Get64(data[1..9]));
        assert data[..9] == [1] + data[1..9];
      } else if data[0] == 2 {
        SizedExact(data, 2, b => TextValue(b));
      } else if data[0] == 3 {
        SizedExact(data, 3, b => BlobValue(b));
      } else {
        SizedExact(data, 4, b => JsonValue(b));
      }
    }
  }

  lemma {:induction false} Int64RoundTrip(n: nat)
    requires n < TWO64
    ensures FromInt64(ToInt64(n)) == n
  {
  }

  lemma {:induction false} DecodeNExact(data: Str, n: nat)
    ensures match DecodeN(data, n)
            case None => true
            case Some(vs) => |vs| == n && StoredRow(vs) == vs && HasPrefix(data, EncodeAll(vs))
  {
    hide EncodeValue, DecodeValue, Stored, EncodeAll, StoredRow, HasPrefix;
    if n == 0 {
      NothingEncoded(data);
    } else if DecodeN(data, n).Some? {
      DecodeExact(data);
      var d := DecodeValue(data).value;
      var rest := data[d.used..];
      DecodeNExact(rest, n - 1);
      var more := DecodeN(rest, n - 1).value;
      EncodeAllCons(d.value, more);
      StoredCons(d.value, more);
      PrefixJoin(data, d.used, EncodeAll(more));
    }
  }

  lemma {:induction false} NothingEncoded(data: Str)
    ensures StoredRow([]) == [] && HasPrefix(data, EncodeAll([]))
  {
  }

  lemma {:induction false} EncodeAllCons(v: Value, more: seq<Value>)
    ensures EncodeAll([v] + more) == EncodeValue(v) + EncodeAll(more)
  {
    hide EncodeValue, EncodeAll;
    EncodeAllFirst([v] + more);
    assert ([v] + more)[1..] == more;
  }

  lemma {:induction false} StoredCons(v: Value, more: seq<Value>)
    ensures StoredRow([v] + more) == [Stored(v)] + StoredRow(more)
  {
    hide Stored;
  }

  lemma {:induction false} PrefixJoin(data: Str, n: nat, e: Str)
    requires n <= |data| && HasPrefix(data[n..], e)
    ensures HasPrefix(data, data[..n] + e)
  {
    assert data[..n + |e|] == data[..n] + data[n..][..|e|];
  }

  /** A row decodes only from bytes that begin with its encoding. */
  lemma {:induction false} RowExact(data: Str)
    ensures match RowFrom(data)
            case None => true
            case Some(vs) => StoredRow(vs) == vs && HasPrefix(data, RowBytes(vs))
  {
    hide DecodeN, EncodeAll, Get16, Put16, StoredRow;
    if RowFrom(data).Some? {
      var n := Get16(data[..2]);
      DecodeNExact(data[2..], n);
      Canonical16(data[..2]);
      var vs := RowFrom(data).value;
      var e := EncodeAll(vs);
      assert data[..2 + |e|] == data[..2] + data[2..][..|e|];
    }
  }
}
