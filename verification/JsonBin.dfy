/**
 Binary JSON of jsonbin.go: a tagged, length-prefixed encoding with object keys in
 ascending order, read back from arbitrary bytes.
 */
module JsonBin {
  import opened Strings
  import opened LittleEndian
  import opened BTreeModel
  import opened Sorting

  const MAX_DEPTH := 32

  type Bits64 = n: int | 0 <= n < TWO64

  /** A JSON value; objects are maps, floats are their 64-bit patterns. */
  datatype Doc =
    | JNull
    | JBool(b: bool)
    | JInt(i: Int64)
    | JFloat(bits: Bits64)
    | JString(s: Str)
    | JArray(els: seq<Doc>)
    | JObject(fields: map<Str, Doc>)

  // ------------------------------------------------------------ encoding

  /** The bytes `appendJSONBin` appends. */
  ghost function Bin(v: Doc): (s: Str)
    ensures s != []
    decreases v, 1, 0
  {
    match v
    case JNull => [0]
    case JBool(b) => if b then [2] else [1]
    case JInt(i) => [3] + Put64(FromInt64(i))
    case JFloat(bits) => [4] + Put64(bits)
    case JString(s) => [5] + Put32(|s|) + s
    case JArray(els) => [6] + Put32(|els|) + ElemsBin(els)
    case JObject(fields) => [7] + Put32(|fields|) + FieldsBin(v, SortKeys(fields.Keys))
  }

  ghost function ElemsBin(els: seq<Doc>): Str
    decreases els, 0, 0
  {
    if els == [] then [] else Bin(els[0]) + ElemsBin(els[1..])
  }

  /** The fields of object `v` under the keys `ks`. */
  ghost function FieldsBin(v: Doc, ks: seq<Str>): Str
    requires v.JObject? && forall k :: k in ks ==> k in v.fields
    decreases v, 0, |ks|
  {
    if ks == [] then [] else
      assert ks[0] in ks;
      Put32(|ks[0]|) + ks[0] + Bin(v.fields[ks[0]]) + FieldsBin(v, ks[1..])
  }

  /** No node of `v` is deeper than the limit when `v` itself sits at `depth`. */
  predicate Shallow(v: Doc, depth: nat)
    decreases v
  {
    && depth <= MAX_DEPTH
    && match v
       case JArray(els) => forall i :: 0 <= i < |els| ==> Shallow(els[i], depth + 1)
       case JObject(fields) => forall k :: k in fields ==> Shallow(fields[k], depth + 1)
       case _ => true
  }

  /** Every length in `v` fits the 32 bits it is written in. */
  predicate Small(v: Doc)
  {
    match v
    case JString(s) => |s| < TWO32
    case JArray(els) => |els| < TWO32 && forall i :: 0 <= i < |els| ==> Small(els[i])
    case JObject(fields) => |fields| < TWO32 && forall k :: k in fields ==> |k| < TWO32 && Small(fields[k])
    case _ => true
  }

  /** The bit pattern is neither an infinity nor a NaN. */
  predicate FiniteFloat(bits: Bits64)
  {
    bits / 0x10_0000_0000_0000 % 0x800 != 0x7FF
  }

  /** No float in `v` is an infinity or a NaN, which JSON text cannot express. */
  predicate Finite(v: Doc)
  {
    match v
    case JFloat(bits) => FiniteFloat(bits)
    case JArray(els) => forall i :: 0 <= i < |els| ==> Finite(els[i])
    case JObject(fields) => forall k :: k in fields ==> Finite(fields[k])
    case _ => true
  }

  /** What JSON text parses to. */
  type FiniteDoc = v: Doc | Finite(v) witness JNull

  // ------------------------------------------------------------- reading

  datatype Read<T> = Read(value: T, used: nat)

  /** `readJSONBin` */
  function ReadDoc(data: Str, depth: nat): (r: Option<Read<Doc>>)
    requires depth <= MAX_DEPTH + 1
    ensures r.Some? ==> r.value.used <= |data|
    decreases MAX_DEPTH + 1 - depth, 0, 0
  {
    if depth > MAX_DEPTH then None
    else if |data| < 1 then None
    else if data[0] == 0 then Some(Read(JNull, 1))
    else if data[0] == 1 then Some(Read(JBool(false), 1))
    else if data[0] == 2 then Some(Read(JBool(true), 1))
    else if data[0] == 3 then
      if |data| < 9 then None else Some(Read(JInt(ToInt64(Get64(data[1..9]))), 9))
    else if data[0] == 4 then
      if |data| < 9 then None else Some(Read(JFloat(Get64(data[1..9])), 9))
    else if data[0] == 5 then
      if |data| < 5 then None else
        var n := Get32(data[1..5]);
        if |data| < 5 + n then None else Some(Read(JString(data[5..5 + n]), 5 + n))
    else if data[0] == 6 then
      if |data| < 5 then None else
        match ReadElems(data[5..], Get32(data[1..5]), depth + 1)
        case None => None
        case Some(r) => Some(Read(JArray(r.value), 5 + r.used))
    else if data[0] == 7 then
      if |data| < 5 then None else
        match ReadFields(data[5..], Get32(data[1..5]), depth + 1, map[])
        case None => None
        case Some(r) => Some(Read(JObject(r.value), 5 + r.used))
    else None
  }

  function ReadElems(data: Str, n: nat, depth: nat): (r: Option<Read<seq<Doc>>>)
    requires depth <= MAX_DEPTH + 1
    ensures r.Some? ==> r.value.used <= |data|
    decreases MAX_DEPTH + 1 - depth, 1, n
  {
    if n == 0 then Some(Read([], 0)) else
      match ReadDoc(data, depth)
      case None => None
      case Some(x) =>
        match ReadElems(data[x.used..], n - 1, depth)
        case None => None
        case Some(rest) => Some(Read([x.value] + rest.value, x.used + rest.used))
  }

  /** Reads `n` more fields into `obj`; a repeated key is an error. */
  function ReadFields(data: Str, n: nat, depth: nat, obj: map<Str, Doc>): (r: Option<Read<map<Str, Doc>>>)
    requires depth <= MAX_DEPTH + 1
    ensures r.Some? ==> r.value.used <= |data|
    decreases MAX_DEPTH + 1 - depth, 1, n
  {
    if n == 0 then Some(Read(obj, 0))
    else if |data| < 4 then None
    else
      var kn := Get32(data[..4]);
      if |data| < 4 + kn then None
      else
        var key := data[4..4 + kn];
        if key in obj then None else
          match ReadDoc(data[4 + kn..], depth)
          case None => None
          case Some(x) =>
            match ReadFields(data[4 + kn + x.used..], n - 1, depth, obj[key := x.value])
            case None => None
            case Some(rest) => Some(Read(rest.value, 4 + kn + x.used + rest.used))
  }

  /** `decodeJSON`: the whole input must be one document. */
  function DecodeDoc(bin: Str): Option<Doc>
  {
    match ReadDoc(bin, 0)
    case None => None
    case Some(r) => if r.used == |bin| then Some(r.value) else None
  }

  // ----------------------------------------------------------- round trip

  lemma {:induction false} CountedFields(tag: Byte, n: nat, body: Str, tail: Str)
    requires n < TWO32
    ensures var d := [tag] + Put32(n) + body + tail;
            d[0] == tag && d[1..5] == Put32(n) && Get32(d[1..5]) == n && d[5..] == body + tail
  {
    hide Put32, Get32;
    RoundTrip32(n);
    var d := [tag] + Put32(n) + body + tail;
    assert d[1..5] == Put32(n);
    assert d[5..] == body + tail;
  }

  lemma {:induction false} ScalarRoundTrip(v: Doc, tail: Str, depth: nat)
    requires depth <= MAX_DEPTH && Small(v) && !v.JArray? && !v.JObject?
    ensures ReadDoc(Bin(v) + tail, depth) == Some(Read(v, |Bin(v)|))
  {
    hide Put32, Get32, Put64, Get64, ReadElems, ReadFields;
    var d := Bin(v) + tail;
    match v
    case JNull =>
    case JBool(b) =>
    case JInt(i) =>
      assert d[1..9] == Put64(FromInt64(i));
      RoundTrip64(FromInt64(i));
    case JFloat(bits) =>
      assert d[1..9] == Put64(bits);
      RoundTrip64(bits);
    case JString(s) =>
      CountedFields(5, |s|, s, tail);
      assert d[5..5 + |s|] == s;
  }

  /** Reading an encoded document followed by anything gives the document and its exact length. */
  lemma {:induction false} DocRoundTrip(v: Doc, tail: Str, depth: nat)
    requires Shallow(v, depth) && Small(v)
    ensures ReadDoc(Bin(v) + tail, depth) == Some(Read(v, |Bin(v)|))
    decreases v, 2, 0
  {
    hide Bin, ReadDoc;
    match v
    case JArray(els) => ArrayRoundTrip(v, tail, depth);
    case JObject(fields) => ObjectRoundTrip(v, tail, depth);
    case _ => ScalarRoundTrip(v, tail, depth);
  }

  lemma {:induction false} ArrayRoundTrip(v: Doc, tail: Str, depth: nat)
    requires v.JArray? && Shallow(v, depth) && Small(v)
    ensures ReadDoc(Bin(v) + tail, depth) == Some(Read(v, |Bin(v)|))
    decreases v, 0, 0
  {
    hide Put32, Get32, ReadElems, ReadFields, ElemsBin;
    var body := ElemsBin(v.els);
    CountedFields(6, |v.els|, body, tail);
    ElemsRoundTrip(v.els, tail, depth + 1);
  }

  lemma {:induction false} ObjectRoundTrip(v: Doc, tail: Str, depth: nat)
    requires v.JObject? && Shallow(v, depth) && Small(v)
    ensures ReadDoc(Bin(v) + tail, depth) == Some(Read(v, |Bin(v)|))
    decreases v, 1, 0
  {
    hide Put32, Get32, ReadDoc, ReadFields, FieldsBin, SortKeys, OnlyFields;
    var ks := SortKeys(v.fields.Keys);
    CountedFields(7, |v.fields|, FieldsBin(v, ks), tail);
    SortedCount(v.fields.Keys);
    FieldsRoundTrip(v, ks, map[], tail, depth + 1);
    AllFields(v, ks);
    ReadObject(Bin(v) + tail, depth);
  }

  lemma {:induction false} ReadObject(data: Str, depth: nat)
    requires depth <= MAX_DEPTH && |data| >= 5 && data[0] == 7
    ensures ReadDoc(data, depth) ==
              match ReadFields(data[5..], Get32(data[1..5]), depth + 1, map[])
              case None => None
              case Some(r) => Some(Read(JObject(r.value), 5 + r.used))
  {
    hide Get32, Get64, ReadFields, ReadElems;
  }

  lemma {:induction false} ElemsRoundTrip(els: seq<Doc>, tail: Str, depth: nat)
    requires depth <= MAX_DEPTH + 1 && forall i :: 0 <= i < |els| ==> Shallow(els[i], depth) && Small(els[i])
    ensures ReadElems(ElemsBin(els) + tail, |els|, depth) == Some(Read(els, |ElemsBin(els)|))
    decreases els, 0, 0
  {
    hide ReadDoc, Bin, Shallow, Small;
    if els != [] {
      var b, rest := Bin(els[0]), ElemsBin(els[1..]);
      DocRoundTrip(els[0], rest + tail, depth);
      var d := ElemsBin(els) + tail;
      assert d == b + (rest + tail) && d[|b|..] == rest + tail;
      ElemsRoundTrip(els[1..], tail, depth);
      assert [els[0]] + els[1..] == els;
    }
  }

  function OnlyFields(v: Doc, ks: seq<Str>): map<Str, Doc>
    requires v.JObject? && forall k :: k in ks ==> k in v.fields
  {
    map k | k in ks :: v.fields[k]
  }

  lemma {:induction false} AllFields(v: Doc, ks: seq<Str>)
    requires v.JObject? && forall k :: k in ks <==> k in v.fields
    ensures map[] + OnlyFields(v, ks) == v.fields
  {
    assert OnlyFields(v, ks).Keys == v.fields.Keys;
  }

  lemma {:induction false} FieldsFrom(v: Doc, ks: seq<Str>, obj: map<Str, Doc>)
    requires v.JObject? && ks != [] && (forall k :: k in ks ==> k in v.fields) && ks[0] !in ks[1..]
    requires forall k :: k in ks <==> k == ks[0] || k in ks[1..]
    ensures obj[ks[0] := v.fields[ks[0]]] + OnlyFields(v, ks[1..]) == obj + OnlyFields(v, ks)
  {
    var a, b := obj[ks[0] := v.fields[ks[0]]] + OnlyFields(v, ks[1..]), obj + OnlyFields(v, ks);
    assert a.Keys == b.Keys;
  }

  lemma {:induction false} FieldsRoundTrip(v: Doc, ks: seq<Str>, obj: map<Str, Doc>, tail: Str, depth: nat)
    requires v.JObject? && (forall k :: k in ks ==> k in v.fields) && SortedKeys(ks) && depth <= MAX_DEPTH + 1
    requires forall k :: k in v.fields ==> |k| < TWO32 && Shallow(v.fields[k], depth) && Small(v.fields[k])
    requires forall k :: k in ks ==> k !in obj
    ensures ReadFields(FieldsBin(v, ks) + tail, |ks|, depth, obj) == Some(Read(obj + OnlyFields(v, ks), |FieldsBin(v, ks)|))
    decreases v, 0, |ks|
  {
    hide ReadDoc, Bin, Shallow, Small, Put32, Get32, StrLess, ReadFields, SortedKeys, OnlyFields, FieldsBin;
    if ks == [] {
      NoneFrom(v, obj);
      NoFields(tail, depth, obj);
      assert [] + tail == tail;
    } else {
      var k, more := ks[0], ks[1..];
      FirstIsNew(ks);
      var x, rest := v.fields[k], FieldsBin(v, more);
      FieldBytes(k, Bin(x), rest + tail);
      FieldsBinStep(v, ks);
      assert FieldsBin(v, ks) + tail == Put32(|k|) + k + Bin(x) + (rest + tail);
      DocRoundTrip(x, rest + tail, depth);
      FieldsRoundTrip(v, more, obj[k := x], tail, depth);
      FieldsFrom(v, ks, obj);
      FieldStep(FieldsBin(v, ks) + tail, |ks|, depth, obj, k, x, |Bin(x)|);
    }
  }

  lemma {:induction false} NoneFrom(v: Doc, obj: map<Str, Doc>)
    requires v.JObject?
    ensures obj + OnlyFields(v, []) == obj && FieldsBin(v, []) == []
  {
  }

  lemma {:induction false} FieldsBinStep(v: Doc, ks: seq<Str>)
    requires v.JObject? && ks != [] && forall k :: k in ks ==> k in v.fields
    ensures ks[0] in ks && forall k :: k in ks[1..] ==> k in ks
    ensures FieldsBin(v, ks) == Put32(|ks[0]|) + ks[0] + Bin(v.fields[ks[0]]) + FieldsBin(v, ks[1..])
  {
    hide Put32, Bin;
    assert ks[0] in ks;
  }

  lemma {:induction false} NoFields(data: Str, depth: nat, obj: map<Str, Doc>)
    requires depth <= MAX_DEPTH + 1
    ensures ReadFields(data, 0, depth, obj) == Some(Read(obj, 0))
  {
  }

  /** One turn of the loop over the fields of an object. */
  lemma {:induction false} FieldStep(data: Str, n: nat, depth: nat, obj: map<Str, Doc>, k: Str, x: Doc, used: nat)
    requires n > 0 && depth <= MAX_DEPTH + 1 && 4 + |k| + used <= |data| && k !in obj
    requires Get32(data[..4]) == |k| && data[4..4 + |k|] == k
    requires ReadDoc(data[4 + |k|..], depth) == Some(Read(x, used))
    ensures ReadFields(data, n, depth, obj) ==
              match ReadFields(data[4 + |k| + used..], n - 1, depth, obj[k := x])
              case None => None
              case Some(rest) => Some(Read(rest.value, 4 + |k| + used + rest.used))
  {
    hide Get32, ReadDoc;
  }

  lemma {:induction false} FirstIsNew(ks: seq<Str>)
    requires SortedKeys(ks) && ks != []
    ensures SortedKeys(ks[1..]) && ks[0] !in ks[1..]
    ensures forall k :: k in ks <==> k == ks[0] || k in ks[1..]
  {
    forall i | 1 <= i < |ks| ensures ks[i] != ks[0] {
      StrLessTotal(ks[0], ks[i]);
    }
    assert ks == [ks[0]] + ks[1..];
  }

  lemma {:induction false} FieldBytes(k: Str, b: Str, tail: Str)
    requires |k| < TWO32
    ensures var d := Put32(|k|) + k + b + tail;
            && Get32(d[..4]) == |k| && d[4..4 + |k|] == k
            && d[4 + |k|..] == b + tail && d[4 + |k| + |b|..] == tail
  {
    hide Put32, Get32;
    RoundTrip32(|k|);
    var d := Put32(|k|) + k + b + tail;
    assert d[..4] == Put32(|k|);
  }

  // --------------------------------------------------------- consequences

  /** No document's encoding is a proper prefix of another's, and none has two readings. */
  lemma {:induction false} PrefixFree(v: Doc, w: Doc, s: Str, t: Str)
    requires Shallow(v, 0) && Small(v) && Shallow(w, 0) && Small(w)
    requires Bin(v) + s == Bin(w) + t
    ensures v == w && s == t
  {
    hide Bin, ReadDoc, Small, Shallow;
    DocRoundTrip(v, s, 0);
    DocRoundTrip(w, t, 0);
    assert (Bin(v) + s)[|Bin(v)|..] == s && (Bin(w) + t)[|Bin(w)|..] == t;
  }

  /** Comparing encodings byte by byte, as `valuesEqual` does, is comparing documents. */
  lemma {:induction false} BytesDecideEquality(v: Doc, w: Doc)
    requires Shallow(v, 0) && Small(v) && Shallow(w, 0) && Small(w)
    ensures Bin(v) == Bin(w) <==> v == w
    ensures DecodeDoc(Bin(v)) == Some(v)
  {
    hide Bin, ReadDoc, Small, Shallow;
    if Bin(v) == Bin(w) {
      PrefixFree(v, w, [], []);
    }
    assert Bin(v) + [] == Bin(v);
    DocRoundTrip(v, [], 0);
  }

  // ------------------------------------------------- the loops of jsonbin.go

  lemma {:induction false} ElemsSnoc(els: seq<Doc>, i: nat)
    requires i < |els|
    ensures ElemsBin(els[..i + 1]) == ElemsBin(els[..i]) + Bin(els[i])
    decreases i
  {
    hide Bin;
    if i == 0 {
      assert els[..1] == [els[0]] && [els[0]][1..] == [];
    } else {
      ElemsSnoc(els[1..], i - 1);
      assert els[..i + 1][1..] == els[1..][..i] && els[..i][1..] == els[1..][..i - 1] && els[1..][i - 1] == els[i];
    }
  }

  lemma {:induction false} FieldsSnoc(v: Doc, ks: seq<Str>, i: nat)
    requires v.JObject? && i < |ks| && forall k :: k in ks ==> k in v.fields
    ensures ks[i] in ks && (forall k :: k in ks[..i] || k in ks[..i + 1] ==> k in ks)
    ensures FieldsBin(v, ks[..i + 1]) == FieldsBin(v, ks[..i]) + (Put32(|ks[i]|) + ks[i] + Bin(v.fields[ks[i]]))
    decreases i
  {
    hide Bin, Put32, FieldsBin;
    assert ks[i] in ks;
    NoneFrom(v, map[]);
    if i == 0 {
      var one := [ks[0]];
      assert ks[..1] == one && one[1..] == [] && ks[..0] == [];
      FieldsBinStep(v, one);
    } else {
      FieldsSnoc(v, ks[1..], i - 1);
      assert ks[..i + 1][1..] == ks[1..][..i] && ks[..i][1..] == ks[1..][..i - 1] && ks[1..][i - 1] == ks[i];
      FieldsBinStep(v, ks[..i + 1]);
      FieldsBinStep(v, ks[..i]);
    }
  }

  /** `appendJSONBin`: fails exactly on documents nested too deep. */
  method AppendDoc(out: Str, v: Doc, depth: nat) returns (r: Option<Str>)
    ensures r == if Shallow(v, depth) then Some(out + Bin(v)) else None
    decreases v, 1
  {
    if depth > MAX_DEPTH {
      return None;
    }
    match v {
      case JNull => return Some(out + [0]);
      case JBool(b) => return Some(out + if b then [2] else [1]);
      case JInt(i) => return Some(out + ([3] + Put64(FromInt64(i))));
      case JFloat(bits) => return Some(out + ([4] + Put64(bits)));
      case JString(s) => return Some(out + ([5] + Put32(|s|) + s));
      case JArray(els) => r := AppendElems(out, v, depth);
      case JObject(fields) => r := AppendFields(out, v, depth);
    }
  }

  method AppendElems(out: Str, v: Doc, depth: nat) returns (r: Option<Str>)
    requires v.JArray? && depth <= MAX_DEPTH
    ensures r == if Shallow(v, depth) then Some(out + Bin(v)) else None
    decreases v, 0
  {
    hide Put32;
    var els := v.els;
    var head := [6] + Put32(|els|);
    var acc := out + head;
    var i := 0;
    assert els[..0] == [];
    while i < |els|
      invariant i <= |els| && acc == out + (head + ElemsBin(els[..i]))
      invariant forall j :: 0 <= j < i ==> Shallow(els[j], depth + 1)
    {
      var a := AppendDoc(acc, els[i], depth + 1);
      if a.None? {
        assert !Shallow(els[i], depth + 1);
        return None;
      }
      ElemsSnoc(els, i);
      acc := a.value;
      i := i + 1;
    }
    assert els[..|els|] == els;
    r := Some(acc);
  }

  method AppendFields(out: Str, v: Doc, depth: nat) returns (r: Option<Str>)
    requires v.JObject? && depth <= MAX_DEPTH
    ensures r == if Shallow(v, depth) then Some(out + Bin(v)) else None
    decreases v, 0
  {
    hide Put32, SortKeys, FieldsBin;
    var ks := SortedKeysOf(v.fields.Keys);
    var head := [7] + Put32(|v.fields|);
    var acc := out + head;
    var i := 0;
    NoneFrom(v, map[]);
    assert ks[..0] == [];
    while i < |ks|
      invariant i <= |ks| && acc == out + (head + FieldsBin(v, ks[..i]))
      invariant forall j :: 0 <= j < i ==> ks[j] in v.fields && Shallow(v.fields[ks[j]], depth + 1)
    {
      var k := ks[i];
      assert k in ks;
      var a := AppendDoc(acc + (Put32(|k|) + k), v.fields[k], depth + 1);
      if a.None? {
        return None;
      }
      FieldsSnoc(v, ks, i);
      acc := a.value;
      i := i + 1;
    }
    assert ks[..|ks|] == ks;
    r := Some(acc);
  }

  /** `readJSONBin` as a method: recursion with an offset that moves through the input. */
  method ReadJson(data: Str, depth: nat) returns (r: Option<Read<Doc>>)
    requires depth <= MAX_DEPTH + 1
    ensures r == ReadDoc(data, depth)
    decreases MAX_DEPTH + 1 - depth, 1
  {
    hide ReadElems, ReadFields, Get32, Get64;
    if depth > MAX_DEPTH || |data| < 1 {
      return None;
    }
    match data[0] {
      case 0 => return Some(Read(JNull, 1));
      case 1 => return Some(Read(JBool(false), 1));
      case 2 => return Some(Read(JBool(true), 1));
      case 3 => return if |data| < 9 then None else Some(Read(JInt(ToInt64(Get64(data[1..9]))), 9));
      case 4 => return if |data| < 9 then None else Some(Read(JFloat(Get64(data[1..9])), 9));
      case 5 =>
        if |data| < 5 {
          return None;
        }
        var n := Get32(data[1..5]);
        return if |data| < 5 + n then None else Some(Read(JString(data[5..5 + n]), 5 + n));
      case 6 =>
        if |data| < 5 {
          return None;
        }
        var e := ReadElemsLoop(data, Get32(data[1..5]), depth + 1);
        return if e.None? then None else Some(Read(JArray(e.value.value), 5 + e.value.used));
      case 7 =>
        if |data| < 5 {
          return None;
        }
        var f := ReadFieldsLoop(data, Get32(data[1..5]), depth + 1);
        return if f.None? then None else Some(Read(JObject(f.value.value), 5 + f.value.used));
      case _ => return None;
    }
  }

  method ReadElemsLoop(data: Str, n: nat, depth: nat) returns (r: Option<Read<seq<Doc>>>)
    requires depth <= MAX_DEPTH + 1 && |data| >= 5
    ensures r == ReadElems(data[5..], n, depth)
    decreases MAX_DEPTH + 1 - depth, 2
  {
    hide ReadDoc, ReadElems, ElemsAfter;
    var off, arr, i := 5, [], 0;
    ghost var whole := ReadElems(data[5..], n, depth);
    ElemsStart(data, n, depth);
    while i < n
      invariant i <= n && 5 <= off <= |data|
      invariant whole == ElemsAfter(data, off, arr, n - i, depth)
    {
      ElemsStep(data, off, arr, n - i, depth);
      var x := ReadJson(data[off..], depth);
      if x.None? {
        return None;
      }
      arr, off, i := arr + [x.value.value], off + x.value.used, i + 1;
    }
    ElemsDone(data, off, arr, depth);
    r := Some(Read(arr, off - 5));
  }

  /** What reading an array gives once `arr` is read and `n` elements are left at `off`. */
  function ElemsAfter(data: Str, off: nat, arr: seq<Doc>, n: nat, depth: nat): Option<Read<seq<Doc>>>
    requires depth <= MAX_DEPTH + 1 && 5 <= off <= |data|
  {
    match ReadElems(data[off..], n, depth)
    case None => None
    case Some(rest) => Some(Read(arr + rest.value, off - 5 + rest.used))
  }

  lemma {:induction false} ElemsStart(data: Str, n: nat, depth: nat)
    requires depth <= MAX_DEPTH + 1 && |data| >= 5
    ensures ElemsAfter(data, 5, [], n, depth) == ReadElems(data[5..], n, depth)
  {
    hide ReadElems;
    var whole := ReadElems(data[5..], n, depth);
    assert whole.Some? ==> [] + whole.value.value == whole.value.value;
  }

  lemma {:induction false} ElemsStep(data: Str, off: nat, arr: seq<Doc>, n: nat, depth: nat)
    requires depth <= MAX_DEPTH + 1 && 5 <= off <= |data| && n > 0
    ensures match ReadDoc(data[off..], depth)
            case None => ElemsAfter(data, off, arr, n, depth) == None
            case Some(x) => ElemsAfter(data, off, arr, n, depth) == ElemsAfter(data, off + x.used, arr + [x.value], n - 1, depth)
  {
    hide ReadDoc;
    match ReadDoc(data[off..], depth)
    case None =>
    case Some(x) =>
      assert data[off..][x.used..] == data[off + x.used..];
      var rest := ReadElems(data[off + x.used..], n - 1, depth);
      assert rest.Some? ==> arr + ([x.value] + rest.value.value) == (arr + [x.value]) + rest.value.value;
  }

  lemma {:induction false} ElemsDone(data: Str, off: nat, arr: seq<Doc>, depth: nat)
    requires depth <= MAX_DEPTH + 1 && 5 <= off <= |data|
    ensures ElemsAfter(data, off, arr, 0, depth) == Some(Read(arr, off - 5))
  {
    assert arr + [] == arr;
  }

  method ReadFieldsLoop(data: Str, n: nat, depth: nat) returns (r: Option<Read<map<Str, Doc>>>)
    requires depth <= MAX_DEPTH + 1 && |data| >= 5
    ensures r == ReadFields(data[5..], n, depth, map[])
    decreases MAX_DEPTH + 1 - depth, 2
  {
    hide ReadDoc, Get32, ReadFields, FieldsAfter;
    var off, obj: map<Str, Doc>, i := 5, map[], 0;
    ghost var whole := ReadFields(data[5..], n, depth, map[]);
    FieldsStart(data, n, depth);
    while i < n
      invariant i <= n && 5 <= off <= |data|
      invariant whole == FieldsAfter(data, off, obj, n - i, depth)
    {
      FieldsNext(data, off, obj, n - i, depth);
      var d := data[off..];
      if |d| < 4 {
        return None;
      }
      var kn := Get32(d[..4]);
      if |d| < 4 + kn {
        return None;
      }
      var key := d[4..4 + kn];
      if key in obj {
        return None;
      }
      var x := ReadJson(d[4 + kn..], depth);
      if x.None? {
        return None;
      }
      obj, off, i := obj[key := x.value.value], off + (4 + kn + x.value.used), i + 1;
    }
    FieldsDone(data, off, obj, depth);
    r := Some(Read(obj, off - 5));
  }

  /** What reading an object gives once `obj` is read and `n` fields are left at `off`. */
  function FieldsAfter(data: Str, off: nat, obj: map<Str, Doc>, n: nat, depth: nat): Option<Read<map<Str, Doc>>>
    requires depth <= MAX_DEPTH + 1 && 5 <= off <= |data|
  {
    match ReadFields(data[off..], n, depth, obj)
    case None => None
    case Some(rest) => Some(Read(rest.value, off - 5 + rest.used))
  }

  lemma {:induction false} FieldsStart(data: Str, n: nat, depth: nat)
    requires depth <= MAX_DEPTH + 1 && |data| >= 5
    ensures FieldsAfter(data, 5, map[], n, depth) == ReadFields(data[5..], n, depth, map[])
  {
    hide ReadFields;
  }

  lemma {:induction false} FieldsNext(data: Str, off: nat, obj: map<Str, Doc>, n: nat, depth: nat)
    requires depth <= MAX_DEPTH + 1 && 5 <= off <= |data| && n > 0
    ensures var d := data[off..];
            if |d| < 4 || |d| < 4 + Get32(d[..4]) || d[4..4 + Get32(d[..4])] in obj then FieldsAfter(data, off, obj, n, depth) == None
            else
              var kn := Get32(d[..4]);
              match ReadDoc(d[4 + kn..], depth)
              case None => FieldsAfter(data, off, obj, n, depth) == None
              case Some(x) =>
                FieldsAfter(data, off, obj, n, depth) ==
                FieldsAfter(data, off + (4 + kn + x.used), obj[d[4..4 + kn] := x.value], n - 1, depth)
  {
    hide ReadDoc, Get32;
    var d := data[off..];
    if |d| >= 4 && |d| >= 4 + Get32(d[..4]) && ReadDoc(d[4 + Get32(d[..4])..], depth).Some? {
      var used := 4 + Get32(d[..4]) + ReadDoc(d[4 + Get32(d[..4])..], depth).value.used;
      assert d[used..] == data[off + used..];
    }
  }

  lemma {:induction false} FieldsDone(data: Str, off: nat, obj: map<Str, Doc>, depth: nat)
    requires depth <= MAX_DEPTH + 1 && 5 <= off <= |data|
    ensures FieldsAfter(data, off, obj, 0, depth) == Some(Read(obj, off - 5))
  {
  }

  // ------------------------------------------------------------- sizes

  lemma {:induction false} ElemsLength(els: seq<Doc>, i: nat)
    requires i < |els|
    ensures |els| <= |ElemsBin(els)| && |Bin(els[i])| <= |ElemsBin(els)|
  {
    hide Bin;
    if |els| == 1 {
      assert els[1..] == [];
    } else if i == 0 {
      ElemsLength(els[1..], 0);
    } else {
      ElemsLength(els[1..], i - 1);
    }
  }

  lemma {:induction false} FieldsLength(v: Doc, ks: seq<Str>, k: Str)
    requires v.JObject? && k in ks && forall q :: q in ks ==> q in v.fields
    ensures |ks| <= |FieldsBin(v, ks)| && |k| + |Bin(v.fields[k])| <= |FieldsBin(v, ks)|
  {
    hide Bin, FieldsBin, Put32;
    FieldsBinStep(v, ks);
    if |ks| > 1 {
      assert ks[1] in ks[1..];
      FieldsLength(v, ks[1..], ks[1]);
      if k != ks[0] { FieldsLength(v, ks[1..], k); }
    }
  }

  /** An encoding shorter than 4 GiB has no length that its 32 bits would cut. */
  lemma {:induction false} ShortIsSmall(v: Doc)
    requires |Bin(v)| < TWO32
    ensures Small(v)
  {
    hide FieldsBin, ElemsBin, Put32, Put64;
    match v {
      case JArray(els) =>
        if els != [] { ElemsLength(els, 0); }
        forall i | 0 <= i < |els| ensures Small(els[i]) {
          ElemsLength(els, i);
          ShortIsSmall(els[i]);
        }
      case JObject(fields) =>
        var ks := SortKeys(fields.Keys);
        SortedCount(fields.Keys);
        if ks != [] { FieldsLength(v, ks, ks[0]); }
        forall k | k in fields ensures |k| < TWO32 && Small(fields[k]) {
          FieldsLength(v, ks, k);
          ShortIsSmall(fields[k]);
        }
      case _ =>
    }
  }

  /** A document in the file begins with the tag of its kind, and the payload of a scalar follows. */
  lemma {:induction false} BinLayout(v: Doc)
    ensures Bin(v)[0] == (match v
                          case JNull => 0 case JBool(b) => if b then 2 else 1 case JInt(_) => 3 case JFloat(_) => 4
                          case JString(_) => 5 case JArray(_) => 6 case JObject(_) => 7)
    ensures v.JInt? ==> Bin(v)[1..] == Put64(FromInt64(v.i))
    ensures v.JFloat? ==> Bin(v)[1..] == Put64(v.bits)
    ensures v.JString? ==> Bin(v)[1..5] == Put32(|v.s|) && Bin(v)[5..] == v.s
    ensures v.JArray? ==> Bin(v)[1..5] == Put32(|v.els|)
    ensures v.JObject? ==> Bin(v)[1..5] == Put32(|v.fields|)
  {
    hide Put32, Put64, ElemsBin, FieldsBin;
  }

  // ------------------------------------------------------ depth and refusal

  /** Some node of the document lies `n` levels below its root. */
  predicate HasNodeAt(v: Doc, n: nat)
    decreases n
  {
    n == 0 ||
    match v
    case JArray(els) => exists i :: 0 <= i < |els| && HasNodeAt(els[i], n - 1)
    case JObject(fields) => exists k :: k in fields && HasNodeAt(fields[k], n - 1)
    case _ => false
  }

  /** The documents that encode are those without a node 33 levels down. */
  lemma {:induction false} ShallowIff(v: Doc, depth: nat)
    requires depth <= 32
    ensures Shallow(v, depth) <==> !HasNodeAt(v, 33 - depth)
    decreases 32 - depth
  {
    if depth < 32 {
      match v {
        case JArray(els) =>
          forall i | 0 <= i < |els| ensures Shallow(els[i], depth + 1) <==> !HasNodeAt(els[i], 33 - depth - 1) { ShallowIff(els[i], depth + 1); }
        case JObject(fields) =>
          forall k | k in fields ensures Shallow(fields[k], depth + 1) <==> !HasNodeAt(fields[k], 33 - depth - 1) { ShallowIff(fields[k], depth + 1); }
        case _ =>
      }
    } else {
      match v {
        case JArray(els) => forall i | 0 <= i < |els| ensures !Shallow(els[i], 33) && HasNodeAt(els[i], 0) { }
        case JObject(fields) => forall k | k in fields ensures !Shallow(fields[k], 33) && HasNodeAt(fields[k], 0) { }
        case _ =>
      }
    }
  }

  /** What reads from some bytes reads the same when more bytes follow. */
  lemma {:induction false} ReadExtends(data: Str, tail: Str, depth: nat)
    requires depth <= MAX_DEPTH + 1 && ReadDoc(data, depth).Some?
    ensures ReadDoc(data + tail, depth) == ReadDoc(data, depth)
    decreases MAX_DEPTH + 1 - depth, 0, 0
  {
    hide ReadElems, ReadFields, Get32, Get64;
    var d := data + tail;
    assert d[0] == data[0];
    if |data| >= 5 { assert d[1..5] == data[1..5] && d[5..] == data[5..] + tail; }
    if |data| >= 9 { assert d[1..9] == data[1..9]; }
    if data[0] == 5 {
      var n := Get32(data[1..5]);
      assert d[5..5 + n] == data[5..5 + n];
    } else if data[0] == 6 {
      ReadElemsExtends(data[5..], tail, Get32(data[1..5]), depth + 1);
    } else if data[0] == 7 {
      ReadFieldsExtends(data[5..], tail, Get32(data[1..5]), depth + 1, map[]);
    }
  }

  lemma {:induction false} ReadElemsExtends(data: Str, tail: Str, n: nat, depth: nat)
    requires depth <= MAX_DEPTH + 1 && ReadElems(data, n, depth).Some?
    ensures ReadElems(data + tail, n, depth) == ReadElems(data, n, depth)
    decreases MAX_DEPTH + 1 - depth, 1, n
  {
    hide ReadDoc;
    if n > 0 {
      ReadExtends(data, tail, depth);
      var used := ReadDoc(data, depth).value.used;
      assert (data + tail)[used..] == data[used..] + tail;
      ReadElemsExtends(data[used..], tail, n - 1, depth);
    }
  }

  lemma {:induction false} ReadFieldsExtends(data: Str, tail: Str, n: nat, depth: nat, obj: map<Str, Doc>)
    requires depth <= MAX_DEPTH + 1 && ReadFields(data, n, depth, obj).Some?
    ensures ReadFields(data + tail, n, depth, obj) == ReadFields(data, n, depth, obj)
    decreases MAX_DEPTH + 1 - depth, 1, n
  {
    hide ReadDoc, Get32, ReadFields;
    if n == 0 {
      NoFields(data, depth, obj);
      NoFields(data + tail, depth, obj);
    } else {
      FieldParts(data, n, depth, obj);
      var d, kn := data + tail, Get32(data[..4]);
      var k := data[4..4 + kn];
      assert d[..4] == data[..4] && d[4..4 + kn] == k && d[4 + kn..] == data[4 + kn..] + tail;
      ReadExtends(data[4 + kn..], tail, depth);
      var x := ReadDoc(data[4 + kn..], depth).value;
      FieldStep(data, n, depth, obj, k, x.value, x.used);
      FieldStep(d, n, depth, obj, k, x.value, x.used);
      var used := 4 + kn + x.used;
      assert d[used..] == data[used..] + tail;
      ReadFieldsExtends(data[used..], tail, n - 1, depth, obj[k := x.value]);
    }
  }

  lemma {:induction false} FieldParts(data: Str, n: nat, depth: nat, obj: map<Str, Doc>)
    requires n > 0 && depth <= MAX_DEPTH + 1 && ReadFields(data, n, depth, obj).Some?
    ensures |data| >= 4 && 4 + Get32(data[..4]) <= |data| && data[4..4 + Get32(data[..4])] !in obj
    ensures ReadDoc(data[4 + Get32(data[..4])..], depth).Some?
  {
    hide ReadDoc, Get32;
  }

  /** A truncated encoding does not read, wherever it is cut. */
  lemma {:induction false} TruncationRefused(v: Doc, n: nat)
    requires Shallow(v, 0) && Small(v) && n < |Bin(v)|
    ensures ReadDoc(Bin(v)[..n], 0).None?
  {
    hide Bin, ReadDoc, Shallow, Small;
    var b := Bin(v);
    DocRoundTrip(v, [], 0);
    assert b + [] == b && b[..n] + b[n..] == b;
    if ReadDoc(b[..n], 0).Some? { ReadExtends(b[..n], b[n..], 0); }
  }

  /** An object with a repeated key does not read. */
  lemma {:induction false} RepeatRefused(data: Str, n: nat, depth: nat, obj: map<Str, Doc>, k: Str)
    requires n > 0 && depth <= MAX_DEPTH + 1 && 4 + |k| <= |data| && data[..4] == Put32(|k|) && data[4..4 + |k|] == k
    requires k in obj && |k| < TWO32
    ensures ReadFields(data, n, depth, obj).None?
  {
    hide ReadDoc, Get32, Put32;
    RoundTrip32(|k|);
  }

  /** Only the eight tags read, and what reads at a depth has no node below the limit. */
  lemma {:induction false} ReadShallow(data: Str, depth: nat)
    requires depth <= MAX_DEPTH + 1 && ReadDoc(data, depth).Some?
    ensures data != [] && data[0] <= 7 && Shallow(ReadDoc(data, depth).value.value, depth)
    decreases MAX_DEPTH + 1 - depth, 0, 0
  {
    hide ReadElems, ReadFields, Get32, Get64;
    if data[0] == 6 {
      ReadElemsShallow(data[5..], Get32(data[1..5]), depth + 1);
    } else if data[0] == 7 {
      ReadFieldsShallow(data[5..], Get32(data[1..5]), depth + 1, map[]);
    }
  }

  lemma {:induction false} ReadElemsShallow(data: Str, n: nat, depth: nat)
    requires depth <= MAX_DEPTH + 1 && ReadElems(data, n, depth).Some?
    ensures var els := ReadElems(data, n, depth).value.value;
            |els| == n && forall i :: 0 <= i < |els| ==> Shallow(els[i], depth)
    decreases MAX_DEPTH + 1 - depth, 1, n
  {
    hide ReadDoc, Shallow;
    if n > 0 {
      ReadShallow(data, depth);
      ReadElemsShallow(data[ReadDoc(data, depth).value.used..], n - 1, depth);
    }
  }

  lemma {:induction false} ReadFieldsShallow(data: Str, n: nat, depth: nat, obj: map<Str, Doc>)
    requires depth <= MAX_DEPTH + 1 && ReadFields(data, n, depth, obj).Some? && forall k :: k in obj ==> Shallow(obj[k], depth)
    ensures var fields := ReadFields(data, n, depth, obj).value.value;
            |fields| == |obj| + n && forall k :: k in fields ==> Shallow(fields[k], depth)
    decreases MAX_DEPTH + 1 - depth, 1, n
  {
    hide ReadDoc, Shallow, Get32, ReadFields;
    if n == 0 {
      NoFields(data, depth, obj);
    } else {
      FieldParts(data, n, depth, obj);
      var kn := Get32(data[..4]);
      var k, x := data[4..4 + kn], ReadDoc(data[4 + kn..], depth).value;
      ReadShallow(data[4 + kn..], depth);
      FieldStep(data, n, depth, obj, k, x.value, x.used);
      var more := obj[k := x.value];
      assert more.Keys == obj.Keys + {k};
      ReadFieldsShallow(data[4 + kn + x.used..], n - 1, depth, more);
    }
  }
}
