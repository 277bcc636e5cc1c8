/**
 Tables, rows and predicates of the SQL layer (catalog.go, sql_ast.go, sql_exec.go and the
 JSON paths of jsonbin.go).  Names are in the form normalizeName gives them.
 */
module SqlModel {
  import opened Strings
  import opened LittleEndian
  import opened BTreeModel
  import opened JsonBin
  import opened Row
  import opened Keys
  import Secondary
  import Page

  /**
   Library code whose inside is not modelled: JSON text parsing, the identifier test of a
   path segment, the integer a float stands for if it is integral, float formatting, and
   JSON text printing (of documents it can print, those without infinities and NaNs).
   */
  datatype Env = Env(
    parse: Str -> Option<FiniteDoc>,
    ident: Str -> bool,
    floatInt: Bits64 -> Option<Int64>,
    floatText: Bits64 -> Str,
    marshal: Doc -> Str)

  // ------------------------------------------------------------ definitions

  datatype ColumnDef = ColumnDef(name: Str, typ: ColType, pk: bool)

  datatype TableDef = TableDef(name: Str, columns: seq<ColumnDef>)

  /** An index on a column, or on a path into a JSON column if `path` is not empty. */
  datatype IndexDef = IndexDef(name: Str, table: Str, column: Str, path: Str)

  /** `pkColumn`: the first column marked PRIMARY KEY. */
  function PkIndex(def: TableDef): (r: Option<nat>)
    ensures r.Some? ==> r.value < |def.columns| && def.columns[r.value].pk && forall i :: 0 <= i < r.value ==> !def.columns[i].pk
    ensures r.None? ==> forall i :: 0 <= i < |def.columns| ==> !def.columns[i].pk
  {
    FirstPk(def.columns, 0)
  }

  function FirstPk(cs: seq<ColumnDef>, i: nat): (r: Option<nat>)
    requires i <= |cs|
    ensures r.Some? ==> i <= r.value < |cs| && cs[r.value].pk && forall j :: i <= j < r.value ==> !cs[j].pk
    ensures r.None? ==> forall j :: i <= j < |cs| ==> !cs[j].pk
    decreases |cs| - i
  {
    if i == |cs| then None else if cs[i].pk then Some(i) else FirstPk(cs, i + 1)
  }

  /** `columnIndex` */
  function ColumnIndex(def: TableDef, name: Str): (r: Option<nat>)
    ensures r.Some? ==> r.value < |def.columns| && def.columns[r.value].name == name
    ensures r.None? ==> forall i :: 0 <= i < |def.columns| ==> def.columns[i].name != name
  {
    FirstNamed(def.columns, name, 0)
  }

  function FirstNamed(cs: seq<ColumnDef>, name: Str, i: nat): (r: Option<nat>)
    requires i <= |cs|
    ensures r.Some? ==> i <= r.value < |cs| && cs[r.value].name == name
    ensures r.None? ==> forall j :: i <= j < |cs| ==> cs[j].name != name
    decreases |cs| - i
  {
    if i == |cs| then None else if cs[i].name == name then Some(i) else FirstNamed(cs, name, i + 1)
  }

  /** Table names are identifiers, and the columns of a table have distinct names. */
  predicate TableOk(def: TableDef)
  {
    && TableName(def.name)
    && forall i, j :: 0 <= i < j < |def.columns| ==> def.columns[i].name != def.columns[j].name
  }

  // ------------------------------------------------------------- JSON paths

  const DOLLAR: Byte := 36
  const DOT: Byte := 46

  /** `strings.Split` at dots. */
  function Split(s: Str): (parts: seq<Str>)
    ensures parts != []
  {
    if s == [] then [[]]
    else if s[0] == DOT then [[]] + Split(s[1..])
    else var rest := Split(s[1..]); [[s[0]] + rest[0]] + rest[1..]
  }

  /** `parseJSONPath` */
  function ParsePath(env: Env, path: Str): Option<seq<Str>>
  {
    if path == [] || path[0] != DOLLAR then None
    else if |path| == 1 then Some([])
    else if path[1] != DOT || |path| == 2 then None
    else
      var parts := Split(path[2..]);
      if forall p :: p in parts ==> p != [] && env.ident(p) then Some(parts) else None
  }

  /** Steps from a document to the field under `segs`. */
  function Walk(d: Doc, segs: seq<Str>): Option<Doc>
    decreases |segs|
  {
    if segs == [] then Some(d)
    else if d.JObject? && segs[0] in d.fields then Walk(d.fields[segs[0]], segs[1..])
    else None
  }

  datatype Leaf = LeafError | Missing | Found(value: Value)

  /** `json.Marshal` refuses the document. */
  predicate Unprintable(d: Doc)
  {
    (d.JArray? || d.JObject?) && !Finite(d)
  }

  /** `jsonLeafToValue` */
  function LeafValue(env: Env, d: Doc): (r: Leaf)
    ensures r.LeafError? <==> Unprintable(d)
    ensures !r.Missing?
    ensures r.Found? ==> r.value == Stored(r.value) && (r.value.isNull <==> d.JNull?) && (!r.value.isNull ==> r.value.typ == Integer || r.value.typ == Text)
  {
    match d
    case JNull => Found(NULL)
    case JBool(b) => Found(TextValue(if b then Ascii("true") else Ascii("false")))
    case JInt(i) => Found(IntValue(i))
    case JFloat(bits) => Found(match env.floatInt(bits) case Some(i) => IntValue(i) case None => TextValue(env.floatText(bits)))
    case JString(s) => Found(TextValue(s))
    case JArray(_) => if Finite(d) then Found(TextValue(env.marshal(d))) else LeafError
    case JObject(_) => if Finite(d) then Found(TextValue(env.marshal(d))) else LeafError
  }

  /** What `jsonExtract` returns. */
  function Extract(env: Env, bin: Str, path: Str): (r: Leaf)
    ensures r.LeafError? <==>
              || ParsePath(env, path).None? || ReadDoc(bin, 0).None?
              || match Walk(ReadDoc(bin, 0).value.value, ParsePath(env, path).value) case None => false case Some(d) => Unprintable(d)
    ensures r.Found? ==> r.value == Stored(r.value) && (!r.value.isNull ==> r.value.typ == Integer || r.value.typ == Text)
  {
    match ParsePath(env, path)
    case None => LeafError
    case Some(segs) =>
      match ReadDoc(bin, 0)
      case None => LeafError
      case Some(doc) =>
        match Walk(doc.value, segs)
        case None => Missing
        case Some(d) => LeafValue(env, d)
  }

  lemma {:induction false} WalkFinite(d: Doc, segs: seq<Str>)
    requires Finite(d)
    ensures match Walk(d, segs) case None => true case Some(x) => Finite(x)
    decreases |segs|
  {
    if segs != [] && d.JObject? && segs[0] in d.fields { WalkFinite(d.fields[segs[0]], segs[1..]); }
  }

  /** The bytes are the encoding of a document that JSON text can express. */
  ghost predicate Decodes(bin: Str)
  {
    match ReadDoc(bin, 0)
    case None => false
    case Some(r) => r.used == |bin| < TWO32 && Finite(r.value) && Shallow(r.value, 0) && bin == Bin(r.value)
  }

  lemma {:induction false} ExtractOk(env: Env, bin: Str, path: Str)
    requires Decodes(bin) && ParsePath(env, path).Some?
    ensures !Extract(env, bin, path).LeafError?
  {
    hide ReadDoc, ParsePath, Walk, LeafValue, Finite, Bin, Shallow;
    WalkFinite(ReadDoc(bin, 0).value.value, ParsePath(env, path).value);
  }

  /** `jsonExtract` */
  method JsonExtract(env: Env, bin: Str, path: Str) returns (r: Leaf)
    ensures r == Extract(env, bin, path)
  {
    hide ReadDoc, LeafValue;
    var segs := ParsePath(env, path);
    if segs.None? {
      return LeafError;
    }
    var doc := ReadJson(bin, 0);
    if doc.None? {
      return LeafError;
    }
    var cur := doc.value.value;
    var i := 0;
    assert segs.value[0..] == segs.value;
    while i < |segs.value|
      invariant i <= |segs.value| && Walk(doc.value.value, segs.value) == Walk(cur, segs.value[i..])
    {
      if !cur.JObject? || segs.value[i] !in cur.fields {
        return Missing;
      }
      assert segs.value[i..][1..] == segs.value[i + 1..];
      cur := cur.fields[segs.value[i]];
      i := i + 1;
    }
    r := LeafValue(env, cur);
  }

  /** A document put under a path is what the path extracts, in any object that has it. */
  lemma {:induction false} ExtractReadsPath(env: Env, d: Doc, path: Str, segs: seq<Str>)
    requires Shallow(d, 0) && |Bin(d)| < TWO32 && ParsePath(env, path) == Some(segs)
    ensures Extract(env, Bin(d), path) ==
              match Walk(d, segs) case None => Missing case Some(leaf) => LeafValue(env, leaf)
  {
    hide Bin, ReadDoc, Walk, LeafValue, ParsePath;
    ShortIsSmall(d);
    DocRoundTrip(d, [], 0);
    assert Bin(d) + [] == Bin(d);
  }

  /** `indexableExtract` */
  function IndexableExtract(env: Env, bin: Str, path: Str): (r: Leaf)
  {
    match Extract(env, bin, path)
    case Found(v) => if !v.isNull && (v.typ == Integer || v.typ == Text) then Found(v) else Missing
    case other => other
  }

  /** `valueFromRow` for an index on `column` and `path`. */
  function IndexValue(env: Env, def: TableDef, column: Str, path: Str, vals: seq<Value>): (r: Leaf)
  {
    match ColumnIndex(def, column)
    case None => LeafError
    case Some(ci) =>
      if ci >= |vals| || vals[ci].isNull then Missing
      else if path != [] then
        if vals[ci].typ != Json then Missing else IndexableExtract(env, vals[ci].blob, path)
      else if vals[ci].typ == Integer || vals[ci].typ == Text then Found(vals[ci])
      else Missing
  }

  // ------------------------------------------------------------ expressions

  datatype Expr = ENull | EInt(i: Int64) | EText(s: Str) | EBlob(b: Str)

  /** `encodeJSON` */
  ghost function EncodeJson(env: Env, raw: Str): Option<Str>
  {
    match env.parse(raw)
    case None => None
    case Some(d) => if Shallow(d, 0) then Some(Bin(d)) else None
  }

  function NullOf(typ: ColType): Value { Value(typ, 0, [], [], true) }

  /** The value `exprToValue` computes. */
  ghost function ExprToValue(env: Env, e: Expr, typ: ColType): Option<Value>
  {
    if e.ENull? then Some(NullOf(typ)) else
      match typ
      case Integer => if e.EInt? then Some(IntValue(e.i)) else None
      case Text => if e.EText? then Some(TextValue(e.s)) else None
      case Blob => if e.EBlob? then Some(BlobValue(e.b)) else None
      case Json =>
        if e.EInt? then None else
          (match EncodeJson(env, if e.EText? then e.s else e.b)
           case None => None
           case Some(bin) => Some(JsonValue(bin)))
      case NoType => None
  }

  /** `exprToValue` */
  method ToValue(env: Env, e: Expr, typ: ColType) returns (r: Option<Value>)
    ensures r == ExprToValue(env, e, typ)
  {
    hide Bin;
    if e.ENull? {
      return Some(NullOf(typ));
    }
    match typ
    case Integer => r := if e.EInt? then Some(IntValue(e.i)) else None;
    case Text => r := if e.EText? then Some(TextValue(e.s)) else None;
    case Blob => r := if e.EBlob? then Some(BlobValue(e.b)) else None;
    case NoType => r := None;
    case Json =>
      if e.EInt? {
        return None;
      }
      var doc := env.parse(if e.EText? then e.s else e.b);
      if doc.None? {
        return None;
      }
      var bin := AppendDoc([], doc.value, 0);
      assert [] + Bin(doc.value) == Bin(doc.value);
      r := if bin.None? then None else Some(JsonValue(bin.value));
  }

  /** Values as expressions make them: NULL of the column's type, or what storing keeps. */
  predicate Clean(v: Value, typ: ColType)
  {
    v.isNull || (v == Stored(v) && v.typ == typ)
  }

  /** A JSON cell of a size that fits a page decodes. */
  ghost predicate JsonOk(v: Value)
  {
    !v.isNull && v.typ == Json && |v.blob| < TWO32 ==> Decodes(v.blob)
  }

  lemma {:induction false} ExprMakesClean(env: Env, e: Expr, typ: ColType)
    ensures match ExprToValue(env, e, typ) case None => true case Some(v) => Clean(v, typ) && JsonOk(v)
  {
    hide Bin, ReadDoc;
    var r := ExprToValue(env, e, typ);
    if r.Some? && r.value.typ == Json && !r.value.isNull && |r.value.blob| < TWO32 {
      var d := env.parse(if e.EText? then e.s else e.b).value;
      ShortIsSmall(d);
      DocRoundTrip(d, [], 0);
      assert Bin(d) + [] == Bin(d);
    }
  }

  // ------------------------------------------------------------- predicates

  /** column = value, or json_extract(column, path) = value */
  datatype Pred = OnColumn(column: Str, value: Expr) | OnPath(column: Str, path: Str, value: Expr)

  /** `valuesEqual` */
  predicate ValuesEqual(a: Value, b: Value)
  {
    if a.isNull || b.isNull then a.isNull && b.isNull
    else if a.typ != b.typ then false
    else match a.typ
      case Integer => a.i == b.i
      case Text => a.text == b.text
      case Blob => a.blob == b.blob
      case Json => a.blob == b.blob
      case NoType => false
  }

  /** On values as storing leaves them, `valuesEqual` is equality. */
  lemma {:induction false} ValuesEqualIsEquality(a: Value, b: Value)
    requires a == Stored(a) && b == Stored(b)
    ensures ValuesEqual(a, b) <==> a == b
  {
  }

  /** `predValueForExtract` */
  function PredValue(e: Expr): Option<Value>
  {
    match e
    case EInt(i) => Some(IntValue(i))
    case EText(s) => Some(TextValue(s))
    case ENull => Some(NULL)
    case EBlob(_) => None
  }

  datatype Match = Yes | No | MatchError

  /** One predicate of a WHERE clause on one row. */
  ghost function MatchPred(env: Env, def: TableDef, vals: seq<Value>, w: Pred): Match
    requires |vals| == |def.columns|
  {
    match ColumnIndex(def, w.column)
    case None => No
    case Some(ci) =>
      match w
      case OnPath(_, path, e) =>
        if vals[ci].isNull || vals[ci].typ != Json then No else
          (match Extract(env, vals[ci].blob, path)
           case LeafError => MatchError
           case Missing => No
           case Found(got) =>
             (match PredValue(e)
              case None => MatchError
              case Some(want) => if ValuesEqual(got, want) then Yes else No))
      case OnColumn(_, e) =>
        (match ExprToValue(env, e, def.columns[ci].typ)
         case None => No
         case Some(want) => if ValuesEqual(vals[ci], want) then Yes else No)
  }

  /** The conjunction, evaluated from the left until one is not met. */
  ghost function MatchAll(env: Env, def: TableDef, vals: seq<Value>, where: seq<Pred>): Match
    requires |vals| == |def.columns|
  {
    if where == [] then Yes else
      match MatchPred(env, def, vals, where[0])
      case Yes => MatchAll(env, def, vals, where[1..])
      case other => other
  }

  method MatchOne(env: Env, def: TableDef, vals: seq<Value>, w: Pred) returns (r: Match)
    requires |vals| == |def.columns|
    ensures r == MatchPred(env, def, vals, w)
  {
    hide Extract, ExprToValue;
    var ci := ColumnIndex(def, w.column);
    if ci.None? {
      return No;
    }
    var cell := vals[ci.value];
    match w
    case OnPath(_, path, e) =>
      if cell.isNull || cell.typ != Json {
        return No;
      }
      var got := JsonExtract(env, cell.blob, path);
      match got {
        case LeafError => return MatchError;
        case Missing => return No;
        case Found(v) =>
          var want := PredValue(e);
          if want.None? {
            return MatchError;
          }
          return if ValuesEqual(v, want.value) then Yes else No;
      }
    case OnColumn(_, e) =>
      var want := ToValue(env, e, def.columns[ci.value].typ);
      r := if want.Some? && ValuesEqual(cell, want.value) then Yes else No;
  }

  /** `matchWhere` */
  method MatchWhere(env: Env, def: TableDef, vals: seq<Value>, where: seq<Pred>) returns (r: Match)
    requires |vals| == |def.columns|
    ensures r == MatchAll(env, def, vals, where)
  {
    hide MatchPred;
    var i := 0;
    assert where[0..] == where;
    while i < |where|
      invariant i <= |where| && MatchAll(env, def, vals, where) == MatchAll(env, def, vals, where[i..])
    {
      assert where[i..][0] == where[i] && where[i..][1..] == where[i + 1..];
      var one := MatchOne(env, def, vals, where[i]);
      if one != Yes {
        return one;
      }
      i := i + 1;
    }
    r := Yes;
  }

  // ------------------------------------------------------------------ rows

  type Rows = map<PkKey, seq<Value>>

  /** A cell as it lies in a stored row. */
  ghost predicate CellOk(typ: ColType, v: Value)
  {
    v == Stored(v) && (v.isNull || v.typ == typ) && (v.typ == Json ==> Decodes(v.blob))
  }

  /** The primary key of a row, if it has a usable one. */
  function PkOf(def: TableDef, vals: seq<Value>): Option<PkKey>
    requires |vals| == |def.columns|
  {
    match PkIndex(def)
    case None => None
    case Some(p) =>
      if vals[p].isNull then None
      else match def.columns[p].typ
        case Integer => Some(PkInt(vals[p].i))
        case Text => Some(PkStr(vals[p].text))
        case _ => None
  }

  ghost predicate RowOk(def: TableDef, pk: PkKey, vals: seq<Value>)
  {
    && |vals| == |def.columns|
    && (forall i :: 0 <= i < |vals| ==> CellOk(def.columns[i].typ, vals[i]))
    && PkOf(def, vals) == Some(pk)
  }

  ghost predicate RowsOk(def: TableDef, rows: Rows)
  {
    forall pk :: pk in rows ==> RowOk(def, pk, rows[pk])
  }

  /** Storing a row does not change its key or what an index takes from it. */
  lemma {:induction false} StoredKeepsMeaning(env: Env, def: TableDef, column: Str, path: Str, vals: seq<Value>)
    requires |vals| == |def.columns| && forall i :: 0 <= i < |vals| ==> Clean(vals[i], def.columns[i].typ)
    ensures PkOf(def, StoredRow(vals)) == PkOf(def, vals)
    ensures IndexValue(env, def, column, path, StoredRow(vals)) == IndexValue(env, def, column, path, vals)
  {
    hide IndexableExtract;
  }

  /** Every row that packs is stored as a row of its table. */
  lemma {:induction false} PackedRowOk(def: TableDef, vals: seq<Value>)
    requires |vals| == |def.columns| && PkOf(def, vals).Some? && PackRow(vals).Some?
    requires forall i :: 0 <= i < |vals| ==> Clean(vals[i], def.columns[i].typ) && JsonOk(vals[i])
    ensures UnpackRow(PackRow(vals).value) == Some(StoredRow(vals))
    ensures RowOk(def, PkOf(def, vals).value, StoredRow(vals))
  {
    hide PackRow, UnpackRow, ReadDoc, EncodeValue, EncodeAll, Stored, Clean, JsonOk, CellOk, PkOf;
    PackRoundTrip(vals);
    forall i | 0 <= i < |vals| ensures CellOk(def.columns[i].typ, StoredRow(vals)[i]) {
      ValueWithin(vs := vals, i := i);
      CleanCellOk(vals[i], def.columns[i].typ);
    }
    CleanKey(def, vals);
  }

  lemma {:induction false} CleanKey(def: TableDef, vals: seq<Value>)
    requires |vals| == |def.columns| && forall i :: 0 <= i < |vals| ==> Clean(vals[i], def.columns[i].typ)
    ensures PkOf(def, StoredRow(vals)) == PkOf(def, vals)
  {
  }

  lemma {:induction false} CleanCellOk(v: Value, typ: ColType)
    requires Clean(v, typ) && JsonOk(v) && |EncodeValue(v)| <= Page.PAGE_SIZE
    ensures CellOk(typ, Stored(v))
  {
    hide ReadDoc, Finite;
  }

  /** What makes an index definition usable for a table. */
  predicate IndexOk(env: Env, def: TableDef, column: Str, path: Str)
  {
    match ColumnIndex(def, column)
    case None => false
    case Some(ci) =>
      if path != [] then def.columns[ci].typ == Json && ParsePath(env, path).Some?
      else def.columns[ci].typ == Integer || def.columns[ci].typ == Text
  }

  /** On stored rows a usable index never fails, and takes INTEGER or TEXT values only. */
  lemma {:induction false} IndexValueOk(env: Env, def: TableDef, column: Str, path: Str, pk: PkKey, vals: seq<Value>)
    requires RowOk(def, pk, vals) && IndexOk(env, def, column, path)
    ensures match IndexValue(env, def, column, path, vals)
            case LeafError => false
            case Missing => true
            case Found(v) => Secondary.Indexable(v)
  {
    hide ReadDoc, ParsePath, PkOf, Walk, Decodes;
    var ci := ColumnIndex(def, column).value;
    assert CellOk(def.columns[ci].typ, vals[ci]);
    if path != [] && !vals[ci].isNull && vals[ci].typ == Json { ExtractOk(env, vals[ci].blob, path); }
  }
}
