/**
 What literals, predicates and paths mean, said of the values, documents and characters
 themselves rather than of the functions that compute with them.
 */
module SqlMeaning {
  import opened Strings
  import opened LittleEndian
  import opened BTreeModel
  import opened JsonBin
  import opened Row
  import opened SqlModel
  import opened SqlAnswers
  import opened SqlStatements

  // ------------------------------------------------------------- JSON paths

  function JoinDots(parts: seq<Str>): Str
    requires parts != []
  {
    if |parts| == 1 then parts[0] else parts[0] + [DOT] + JoinDots(parts[1..])
  }

  lemma {:induction false} JoinFirst(first: Str, rest: seq<Str>, c: Byte)
    ensures JoinDots([[c] + first] + rest) == [c] + JoinDots([first] + rest)
  {
    hide JoinDots;
    JoinStep([c] + first, rest);
    JoinStep(first, rest);
    if rest != [] { assert ([c] + first) + [DOT] + JoinDots(rest) == [c] + (first + [DOT] + JoinDots(rest)); }
  }

  lemma {:induction false} JoinStep(first: Str, rest: seq<Str>)
    ensures JoinDots([first] + rest) == if rest == [] then first else first + [DOT] + JoinDots(rest)
  {
    assert ([first] + rest)[1..] == rest;
  }

  /** Splitting at dots is undone by joining. */
  lemma {:induction false} SplitJoins(s: Str)
    ensures JoinDots(Split(s)) == s
  {
    hide JoinDots;
    if s == [] {
      JoinStep([], []);
      var none: seq<Str> := [];
      assert [[]] + none == Split(s);
    } else {
      var rest := Split(s[1..]);
      SplitJoins(s[1..]);
      assert s == [s[0]] + s[1..];
      if s[0] == DOT {
        JoinStep([], rest);
        assert [] + [DOT] + JoinDots(rest) == [DOT] + s[1..];
      } else {
        JoinFirst(rest[0], rest[1..], s[0]);
        assert rest == [rest[0]] + rest[1..];
      }
    }
  }

  predicate DotFree(parts: seq<Str>)
  {
    forall i :: 0 <= i < |parts| ==> DOT !in parts[i]
  }

  /** And it leaves no dot. */
  lemma {:induction false} SplitDotFree(s: Str)
    ensures DotFree(Split(s))
  {
    if s != [] { SplitDotFree(s[1..]); }
  }

  lemma {:induction false} SplitOff(c: Byte, s: Str)
    ensures Split([c] + s) == if c == DOT then [[]] + Split(s) else [[c] + Split(s)[0]] + Split(s)[1..]
  {
    assert ([c] + s)[1..] == s;
  }

  /** Dot-free parts are what splitting their join gives. */
  lemma {:induction false} JoinSplits(first: Str, rest: seq<Str>)
    requires DOT !in first && DotFree(rest)
    ensures Split(JoinDots([first] + rest)) == [first] + rest
    decreases |rest|, |first|
  {
    hide JoinDots, Split;
    JoinStep(first, rest);
    if first != [] {
      var more := first[1..];
      JoinSplits(more, rest);
      assert first == [first[0]] + more && first[0] in first;
      JoinFirst(more, rest, first[0]);
      SplitOff(first[0], JoinDots([more] + rest));
      assert ([more] + rest)[0] == more && ([more] + rest)[1..] == rest;
    } else if rest == [] {
      NothingSplits();
      assert [first] + rest == [[]];
    } else {
      JoinSplits(rest[0], rest[1..]);
      assert rest == [rest[0]] + rest[1..];
      assert [] + [DOT] + JoinDots(rest) == [DOT] + JoinDots(rest);
      SplitOff(DOT, JoinDots(rest));
    }
  }

  lemma {:induction false} NothingSplits()
    ensures Split([]) == [[]]
  {
  }

  predicate Segments(env: Env, segs: seq<Str>)
  {
    forall p :: p in segs ==> p != [] && DOT !in p && env.ident(p)
  }

  /** The paths that parse: a dollar alone, or a dollar, a dot and identifiers joined by dots. */
  lemma {:induction false} ParsePathIff(env: Env, path: Str, segs: seq<Str>)
    ensures ParsePath(env, path) == Some(segs) <==>
              (segs == [] && path == [DOLLAR]) || (segs != [] && path == [DOLLAR, DOT] + JoinDots(segs) && Segments(env, segs))
  {
    hide Split, JoinDots;
    if ParsePath(env, path) == Some(segs) && |path| > 1 {
      SplitJoins(path[2..]);
      SplitDotFree(path[2..]);
      assert path == [DOLLAR, DOT] + path[2..];
    }
    if segs != [] && path == [DOLLAR, DOT] + JoinDots(segs) && Segments(env, segs) {
      assert path[2..] == JoinDots(segs);
      assert segs[0] in segs && segs == [segs[0]] + segs[1..];
      forall i | 0 <= i < |segs| - 1 ensures DOT !in segs[1..][i] { assert segs[1..][i] in segs; }
      JoinSplits(segs[0], segs[1..]);
      JoinNotEmpty(segs);
    }
  }

  lemma {:induction false} JoinNotEmpty(parts: seq<Str>)
    requires parts != [] && parts[0] != []
    ensures JoinDots(parts) != []
  {
  }

  /** Documents that lead from one to the next along the segments. */
  predicate Chain(ds: seq<Doc>, segs: seq<Str>)
  {
    |ds| == |segs| + 1 &&
    forall i :: 0 <= i < |segs| ==> ds[i].JObject? && segs[i] in ds[i].fields && ds[i + 1] == ds[i].fields[segs[i]]
  }

  /** A walk ends at `x` exactly if fields lead there from the document. */
  lemma {:induction false} WalkIff(d: Doc, segs: seq<Str>, x: Doc)
    ensures Walk(d, segs) == Some(x) <==> exists ds: seq<Doc> :: Chain(ds, segs) && ds[0] == d && ds[|segs|] == x
    decreases |segs|
  {
    if segs == [] {
      assert Chain([d], segs);
    } else if d.JObject? && segs[0] in d.fields {
      var e, rest := d.fields[segs[0]], segs[1..];
      WalkIff(e, rest, x);
      if Walk(d, segs) == Some(x) {
        var ds: seq<Doc> :| Chain(ds, rest) && ds[0] == e && ds[|rest|] == x;
        ChainCons(d, ds, segs);
        assert ([d] + ds)[|segs|] == x;
      }
      if ds: seq<Doc> :| Chain(ds, segs) && ds[0] == d && ds[|segs|] == x {
        ChainTail(ds, segs);
        assert ds[1..][|rest|] == x;
      }
    } else {
      forall ds: seq<Doc> | Chain(ds, segs) ensures ds[0] != d { ChainTail(ds, segs); }
    }
  }

  lemma {:induction false} ChainCons(d: Doc, ds: seq<Doc>, segs: seq<Str>)
    requires segs != [] && Chain(ds, segs[1..]) && d.JObject? && segs[0] in d.fields && ds[0] == d.fields[segs[0]]
    ensures Chain([d] + ds, segs)
  {
    var all := [d] + ds;
    forall i | 0 <= i < |segs| ensures all[i].JObject? && segs[i] in all[i].fields && all[i + 1] == all[i].fields[segs[i]] {
      if i > 0 { assert all[i] == ds[i - 1] && segs[i] == segs[1..][i - 1] && all[i + 1] == ds[i - 1 + 1]; }
    }
  }

  lemma {:induction false} ChainTail(ds: seq<Doc>, segs: seq<Str>)
    requires segs != [] && Chain(ds, segs)
    ensures Chain(ds[1..], segs[1..]) && ds[0].JObject? && segs[0] in ds[0].fields && ds[1] == ds[0].fields[segs[0]]
  {
    forall i | 0 <= i < |segs| - 1
      ensures ds[1..][i].JObject? && segs[1..][i] in ds[1..][i].fields && ds[1..][i + 1] == ds[1..][i].fields[segs[1..][i]]
    {
      assert ds[1..][i] == ds[i + 1] && segs[1..][i] == segs[i + 1] && ds[1..][i + 1] == ds[i + 2];
    }
  }

  // --------------------------------------------------------------- literals

  /** The cell's bytes are read as this document. */
  predicate HoldsDoc(v: Value, d: Option<Doc>)
  {
    d.Some? && ReadDoc(v.blob, 0) == Some(Read(d.value, |v.blob|))
  }

  /** A stored cell of a column holds the literal: the number, text or bytes it names, or, in
      a JSON column, the document its text parses to. */
  predicate CellHolds(env: Env, typ: ColType, e: Expr, v: Value)
  {
    match e
    case ENull => v == NULL
    case EInt(i) => typ == Integer && !v.isNull && v.typ == Integer && v.i == i
    case EText(s) =>
      !v.isNull && v.typ == typ && ((typ == Text && v.text == s) || (typ == Json && HoldsDoc(v, env.parse(s))))
    case EBlob(b) =>
      !v.isNull && v.typ == typ && ((typ == Blob && v.blob == b) || (typ == Json && HoldsDoc(v, env.parse(b))))
  }

  predicate JsonText(env: Env, raw: Str)
  {
    env.parse(raw).Some? && Shallow(env.parse(raw).value, 0)
  }

  /** A column of the type takes the literal. */
  predicate Convertible(env: Env, typ: ColType, e: Expr)
  {
    match e
    case ENull => true
    case EInt(_) => typ == Integer
    case EText(s) => typ == Text || (typ == Json && JsonText(env, s))
    case EBlob(b) => typ == Blob || (typ == Json && JsonText(env, b))
  }

  /** Exactly the fitting literals have a value, and what is stored of it holds the literal. */
  lemma {:induction false} LiteralMeans(env: Env, e: Expr, typ: ColType)
    ensures ExprToValue(env, e, typ).Some? <==> Convertible(env, typ, e)
    ensures match ExprToValue(env, e, typ)
            case None => true
            case Some(v) => |v.blob| < TWO32 ==> CellHolds(env, typ, e, Stored(v))
  {
    hide Bin, ReadDoc, Shallow;
    var r := ExprToValue(env, e, typ);
    if r.Some? && typ == Json && !e.ENull? && |r.value.blob| < TWO32 {
      var d := env.parse(if e.EText? then e.s else e.b).value;
      ShortIsSmall(d);
      DocRoundTrip(d, [], 0);
      assert Bin(d) + [] == Bin(d);
    }
  }

  // -------------------------------------------------------- rows of statements

  /** The position of the last mention of a name. */
  predicate LastNamed(names: seq<Str>, name: Str, j: nat)
  {
    j < |names| && names[j] == name && forall k :: j < k < |names| ==> names[k] != name
  }

  /** The row an INSERT stores: without a column list the values in order; with one, each named
      column its last value and every other column NULL. */
  ghost predicate InsertHolds(env: Env, def: TableDef, columns: seq<Str>, values: seq<Expr>, row: seq<Value>)
  {
    && |row| == |def.columns|
    && (columns == [] ==> |values| == |row| && forall ci :: 0 <= ci < |row| ==> CellHolds(env, def.columns[ci].typ, values[ci], row[ci]))
    && (columns != [] ==>
          && |columns| == |values|
          && (forall ci: nat, j: nat :: ci < |row| && LastNamed(columns, def.columns[ci].name, j) ==> CellHolds(env, def.columns[ci].typ, values[j], row[ci]))
          && (forall ci :: 0 <= ci < |row| && def.columns[ci].name !in columns ==> row[ci] == NULL))
  }

  predicate NoneNames(sets: seq<Assign>, name: Str)
  {
    forall i :: 0 <= i < |sets| ==> sets[i].column != name
  }

  predicate LastSet(sets: seq<Assign>, name: Str, j: nat)
  {
    j < |sets| && sets[j].column == name && forall k :: j < k < |sets| ==> sets[k].column != name
  }

  /** The row an UPDATE stores: each named column its last value, every other what it had. */
  ghost predicate UpdateHolds(env: Env, def: TableDef, sets: seq<Assign>, before: seq<Value>, row: seq<Value>)
  {
    && |row| == |before| == |def.columns|
    && (forall ci: nat, j: nat :: ci < |row| && LastSet(sets, def.columns[ci].name, j) ==> CellHolds(env, def.columns[ci].typ, sets[j].value, row[ci]))
    && (forall ci :: 0 <= ci < |row| && NoneNames(sets, def.columns[ci].name) ==> row[ci] == before[ci])
  }

  lemma {:induction false} ColumnNamed(def: TableDef, name: Str, ci: nat)
    requires TableOk(def) && ci < |def.columns|
    ensures ColumnIndex(def, name) == Some(ci) <==> def.columns[ci].name == name
  {
    if def.columns[ci].name == name { NamedColumn(def, ci); }
  }

  /** The cells after a list of assignments. */
  lemma {:induction false} SetRowCell(env: Env, def: TableDef, base: seq<Value>, sets: seq<Assign>, vals: seq<Value>, ci: nat)
    requires TableOk(def) && |base| == |def.columns| && ci < |def.columns| && SetRow(env, def, base, sets, |sets|) == Some(vals)
    ensures NoneNames(sets, def.columns[ci].name) ==> vals[ci] == base[ci]
    ensures forall j: nat :: LastSet(sets, def.columns[ci].name, j) ==>
              ExprToValue(env, sets[j].value, def.columns[ci].typ) == Some(vals[ci])
  {
    hide TableOk, ColumnIndex, ExprToValue, SetRow;
    forall i | 0 <= i < |sets| ensures ColumnIndex(def, sets[i].column) == Some(ci) <==> def.columns[ci].name == sets[i].column {
      ColumnNamed(def, sets[i].column, ci);
    }
    SetRowAt(env, def, base, sets, |sets|, ci);
    forall j: nat | LastSet(sets, def.columns[ci].name, j)
      ensures ExprToValue(env, sets[j].value, def.columns[ci].typ) == Some(vals[ci])
    {
      assert ColumnIndex(def, sets[j].column) == Some(ci);
    }
  }

  /** A row that packs has no blob too long for its length field. */
  lemma {:induction false} PackedBlobs(vals: seq<Value>, ci: nat)
    requires PackRow(vals).Some? && ci < |vals|
    ensures vals[ci].isNull || vals[ci].typ != Json || |vals[ci].blob| < TWO32
  {
    hide PackRow, RowBytes;
    PackRoundTrip(vals);
    assert |PayloadOf(vals[ci])| < TWO32;
  }

  lemma {:induction false} StoredCell(env: Env, typ: ColType, e: Expr, vals: seq<Value>, ci: nat)
    requires PackRow(vals).Some? && ci < |vals| && ExprToValue(env, e, typ) == Some(vals[ci])
    ensures CellHolds(env, typ, e, StoredRow(vals)[ci])
  {
    hide PackRow, CellHolds, StoredRow;
    LiteralMeans(env, e, typ);
    PackedBlobs(vals, ci);
    StoredAtCell(vals, ci);
    SmallBlob(env, e, typ);
  }

  lemma {:induction false} StoredAtCell(vals: seq<Value>, ci: nat)
    requires ci < |vals|
    ensures StoredRow(vals)[ci] == Stored(vals[ci])
  {
  }

  /** Only BLOB and JSON values carry bytes; bytes of a BLOB are as the literal has them. */
  lemma {:induction false} SmallBlob(env: Env, e: Expr, typ: ColType)
    ensures match ExprToValue(env, e, typ)
            case None => true
            case Some(v) => (v.isNull || v.typ != Json) ==> CellHolds(env, typ, e, Stored(v))
  {
    hide Bin, ReadDoc, Shallow;
  }

  /** What UPDATE stores in a row. */
  lemma {:induction false} UpdateMeans(env: Env, def: TableDef, pk: PkKey, sets: seq<Assign>, base: seq<Value>, vals: seq<Value>)
    requires TableOk(def) && RowOk(def, pk, base) && SetRow(env, def, base, sets, |sets|) == Some(vals) && PackRow(vals).Some?
    ensures UpdateHolds(env, def, sets, base, StoredRow(vals))
  {
    hide TableOk, PkOf, SetRow, PackRow, ExprToValue, CellHolds, CellOk;
    forall ci: nat | ci < |def.columns|
      ensures NoneNames(sets, def.columns[ci].name) ==> StoredRow(vals)[ci] == base[ci]
      ensures forall j: nat :: LastSet(sets, def.columns[ci].name, j) ==> CellHolds(env, def.columns[ci].typ, sets[j].value, StoredRow(vals)[ci])
    {
      SetRowCell(env, def, base, sets, vals, ci);
      KeptIsStored(def, pk, base, ci);
      forall j: nat | LastSet(sets, def.columns[ci].name, j)
        ensures CellHolds(env, def.columns[ci].typ, sets[j].value, StoredRow(vals)[ci])
      {
        StoredCell(env, def.columns[ci].typ, sets[j].value, vals, ci);
      }
    }
  }

  lemma {:induction false} KeptIsStored(def: TableDef, pk: PkKey, base: seq<Value>, ci: nat)
    requires RowOk(def, pk, base) && ci < |def.columns|
    ensures Stored(base[ci]) == base[ci]
  {
    hide PkOf, Decodes;
    assert CellOk(def.columns[ci].typ, base[ci]);
  }

  lemma {:induction false} InsertSetsAt(def: TableDef, columns: seq<Str>, values: seq<Expr>)
    requires |InsertColumns(def, columns)| == |values|
    ensures var sets := InsertSets(def, columns, values);
            && |sets| == |values|
            && forall i :: 0 <= i < |sets| ==> sets[i] == Assign(InsertColumns(def, columns)[i], values[i])
  {
  }

  /** What INSERT stores. */
  lemma {:induction false} InsertMeans(env: Env, def: TableDef, columns: seq<Str>, values: seq<Expr>, vals: seq<Value>)
    requires TableOk(def) && InsertedRow(env, def, columns, values) == Some(vals) && PackRow(vals).Some?
    ensures InsertHolds(env, def, columns, values, StoredRow(vals))
  {
    hide SetRow, PackRow, ExprToValue, CellHolds;
    var sets := InsertSets(def, columns, values);
    InsertSetsAt(def, columns, values);
    forall ci: nat, j: nat | ci < |def.columns| && LastSet(sets, def.columns[ci].name, j)
      ensures CellHolds(env, def.columns[ci].typ, values[j], StoredRow(vals)[ci])
    {
      SetRowCell(env, def, NullRow(def), sets, vals, ci);
      StoredCell(env, def.columns[ci].typ, values[j], vals, ci);
    }
    if columns == [] {
      forall ci: nat | ci < |def.columns| ensures CellHolds(env, def.columns[ci].typ, values[ci], StoredRow(vals)[ci]) {
        assert LastSet(sets, def.columns[ci].name, ci);
      }
    } else {
      forall ci: nat, j: nat | ci < |def.columns| && LastNamed(columns, def.columns[ci].name, j)
        ensures CellHolds(env, def.columns[ci].typ, values[j], StoredRow(vals)[ci])
      {
        assert LastSet(sets, def.columns[ci].name, j);
      }
      forall ci: nat | ci < |def.columns| && def.columns[ci].name !in columns ensures StoredRow(vals)[ci] == NULL {
        SetRowCell(env, def, NullRow(def), sets, vals, ci);
        assert NoneNames(sets, def.columns[ci].name);
      }
    }
  }

  /** Every assignment names a column that takes its literal. */
  predicate Assignable(env: Env, def: TableDef, sets: seq<Assign>)
  {
    forall i :: 0 <= i < |sets| ==> AssignOk(env, def, sets[i])
  }

  predicate AssignOk(env: Env, def: TableDef, a: Assign)
  {
    exists ci :: 0 <= ci < |def.columns| && def.columns[ci].name == a.column && Convertible(env, def.columns[ci].typ, a.value)
  }

  /** Assignments succeed exactly if each names a column that takes its literal. */
  lemma {:induction false} SetRowIff(env: Env, def: TableDef, base: seq<Value>, sets: seq<Assign>, n: nat)
    requires TableOk(def) && |base| == |def.columns| && n <= |sets|
    ensures SetRow(env, def, base, sets, n).Some? <==> Assignable(env, def, sets[..n])
  {
    hide TableOk, ColumnIndex, ExprToValue, SetRow, AssignOk;
    if n == 0 {
      SetRowNone(env, def, base, sets);
    } else {
      SetRowNext(env, def, base, sets, n - 1);
      SetRowIff(env, def, base, sets, n - 1);
      AssignIff(env, def, sets[n - 1]);
      assert sets[..n] == sets[..n - 1] + [sets[n - 1]];
    }
  }

  lemma {:induction false} AssignIff(env: Env, def: TableDef, a: Assign)
    requires TableOk(def)
    ensures AssignOk(env, def, a) <==>
              match ColumnIndex(def, a.column)
              case None => false
              case Some(ci) => ExprToValue(env, a.value, def.columns[ci].typ).Some?
  {
    hide TableOk, ExprToValue, Convertible;
    var c := ColumnIndex(def, a.column);
    if c.Some? { LiteralMeans(env, a.value, def.columns[c.value].typ); }
    if ci: nat :| ci < |def.columns| && def.columns[ci].name == a.column && Convertible(env, def.columns[ci].typ, a.value) {
      ColumnNamed(def, a.column, ci);
    }
  }

  /** An INSERT describes a row exactly if it has a value for each column it names, or for all,
      and each takes its literal. */
  lemma {:induction false} InsertedRowIff(env: Env, def: TableDef, columns: seq<Str>, values: seq<Expr>)
    requires TableOk(def)
    ensures InsertedRow(env, def, columns, values).Some? <==>
              if columns == [] then |values| == |def.columns| && forall i :: 0 <= i < |values| ==> Convertible(env, def.columns[i].typ, values[i])
              else |values| == |columns| && forall i :: 0 <= i < |values| ==> AssignOk(env, def, Assign(columns[i], values[i]))
  {
    hide SetRow, AssignOk, Convertible;
    if |InsertColumns(def, columns)| == |values| {
      var sets := InsertSets(def, columns, values);
      InsertSetsAt(def, columns, values);
      SetRowIff(env, def, NullRow(def), sets, |values|);
      assert sets[..|values|] == sets;
      if columns == [] {
        forall i | 0 <= i < |values| ensures AssignOk(env, def, sets[i]) <==> Convertible(env, def.columns[i].typ, values[i]) {
          AssignAt(env, def, i, values[i]);
        }
      }
    }
  }

  lemma {:induction false} AssignAt(env: Env, def: TableDef, i: nat, e: Expr)
    requires TableOk(def) && i < |def.columns|
    ensures AssignOk(env, def, Assign(def.columns[i].name, e)) <==> Convertible(env, def.columns[i].typ, e)
  {
    hide Convertible;
  }

  // ------------------------------------------------------------- predicates

  /** The document at the end of a path equals the literal, as SQL sees it. */
  predicate LeafHolds(env: Env, leaf: Doc, e: Expr)
  {
    match e
    case ENull => leaf == JNull
    case EInt(i) => leaf == JInt(i) || (leaf.JFloat? && env.floatInt(leaf.bits) == Some(i))
    case EText(s) =>
      || leaf == JString(s)
      || (leaf == JBool(true) && s == [116, 114, 117, 101])
      || (leaf == JBool(false) && s == [102, 97, 108, 115, 101])
      || (leaf.JFloat? && env.floatInt(leaf.bits).None? && env.floatText(leaf.bits) == s)
      || ((leaf.JArray? || leaf.JObject?) && env.marshal(leaf) == s)
    case EBlob(_) => false
  }

  /** The document of a JSON cell has a value at the path that equals the literal. */
  predicate PathHolds(env: Env, v: Value, path: Str, e: Expr)
  {
    && !v.isNull && v.typ == Json && ReadDoc(v.blob, 0).Some? && ParsePath(env, path).Some?
    && match Walk(ReadDoc(v.blob, 0).value.value, ParsePath(env, path).value)
       case None => false
       case Some(leaf) => LeafHolds(env, leaf, e)
  }

  /** A row meets a predicate. */
  predicate PredHolds(env: Env, def: TableDef, vals: seq<Value>, w: Pred)
    requires |vals| == |def.columns|
  {
    exists ci :: 0 <= ci < |def.columns| && HoldsAt(env, def, vals, w, ci)
  }

  /** The cell in column `ci`, which the predicate names, is as it says. */
  predicate HoldsAt(env: Env, def: TableDef, vals: seq<Value>, w: Pred, ci: nat)
    requires ci < |vals| == |def.columns|
  {
    && def.columns[ci].name == w.column
    && match w
       case OnColumn(_, e) => CellHolds(env, def.columns[ci].typ, e, vals[ci])
       case OnPath(_, path, e) => PathHolds(env, vals[ci], path, e)
  }

  /** Equality of a stored cell with a literal's value is holding the literal. */
  lemma {:induction false} CellMatches(env: Env, typ: ColType, e: Expr, v: Value)
    requires CellOk(typ, v)
    ensures CellHolds(env, typ, e, v) <==>
              match ExprToValue(env, e, typ) case None => false case Some(want) => ValuesEqual(v, want)
  {
    hide Bin, ReadDoc, Finite, Shallow;
    if !e.ENull? && !e.EInt? && typ == Json && !v.isNull {
      DocMatches(env, if e.EText? then e.s else e.b, v);
    }
  }

  lemma {:induction false} DocMatches(env: Env, raw: Str, v: Value)
    requires CellOk(Json, v) && !v.isNull
    ensures HoldsDoc(v, env.parse(raw)) <==> EncodeJson(env, raw) == Some(v.blob)
  {
    hide Bin, ReadDoc, Finite, Shallow, Small;
    var d := env.parse(raw);
    if d.Some? && Shallow(d.value, 0) && Bin(d.value) == v.blob {
      ShortIsSmall(d.value);
      DocRoundTrip(d.value, [], 0);
      assert Bin(d.value) + [] == Bin(d.value);
    }
  }

  /** The value of a leaf equals the literal's exactly if the leaf does. */
  lemma {:induction false} LeafMatches(env: Env, leaf: Doc, e: Expr)
    requires !Unprintable(leaf)
    ensures LeafHolds(env, leaf, e) <==>
              LeafValue(env, leaf).Found? && PredValue(e).Some? && ValuesEqual(LeafValue(env, leaf).value, PredValue(e).value)
  {
    assert Ascii("true") == [116, 114, 117, 101] && Ascii("false") == [102, 97, 108, 115, 101];
  }

  lemma {:induction false} PathMatches(env: Env, path: Str, e: Expr, v: Value)
    requires CellOk(Json, v) && !v.isNull
    ensures PathHolds(env, v, path, e) <==>
              match Extract(env, v.blob, path)
              case Found(got) => PredValue(e).Some? && ValuesEqual(got, PredValue(e).value)
              case _ => false
  {
    hide Bin, ReadDoc, Finite, Shallow, ParsePath, Walk, LeafValue, LeafHolds, ValuesEqual, PredValue;
    if ParsePath(env, path).Some? {
      var d, segs := ReadDoc(v.blob, 0).value.value, ParsePath(env, path).value;
      WalkFinite(d, segs);
      if Walk(d, segs).Some? { LeafMatches(env, Walk(d, segs).value, e); }
    }
  }

  /** A predicate selects a stored row exactly if the row meets it. */
  lemma {:induction false} PredMeans(env: Env, def: TableDef, pk: PkKey, vals: seq<Value>, w: Pred)
    requires TableOk(def) && RowOk(def, pk, vals)
    ensures MatchPred(env, def, vals, w) == Yes <==> PredHolds(env, def, vals, w)
  {
    hide TableOk, PkOf, CellHolds, PathHolds, ExprToValue, ValuesEqual, PredValue, Extract, CellOk, ColumnIndex;
    var c := ColumnIndex(def, w.column);
    ColumnFacts(def, w.column);
    forall ci: nat | ci < |def.columns| && HoldsAt(env, def, vals, w, ci) ensures c == Some(ci) {
      ColumnNamed(def, w.column, ci);
    }
    if c.Some? { HoldsAtMeans(env, def, pk, vals, w, c.value); }
  }

  lemma {:induction false} HoldsAtMeans(env: Env, def: TableDef, pk: PkKey, vals: seq<Value>, w: Pred, ci: nat)
    requires RowOk(def, pk, vals) && ColumnIndex(def, w.column) == Some(ci) && ci < |def.columns| && def.columns[ci].name == w.column
    ensures MatchPred(env, def, vals, w) == Yes <==> HoldsAt(env, def, vals, w, ci)
  {
    hide PkOf, CellHolds, PathHolds, ExprToValue, ValuesEqual, PredValue, Extract, CellOk, ColumnIndex;
    var v := vals[ci];
    assert CellOk(def.columns[ci].typ, v);
    match w {
      case OnColumn(_, e) => CellMatches(env, def.columns[ci].typ, e, v);
      case OnPath(_, path, e) =>
        if !v.isNull && v.typ == Json {
          JsonCellType(def.columns[ci].typ, v);
          PathMatches(env, path, e, v);
        } else {
          NotJsonNoPath(env, v, path, e);
        }
    }
  }

  lemma {:induction false} ColumnFacts(def: TableDef, name: Str)
    ensures match ColumnIndex(def, name)
            case None => forall i :: 0 <= i < |def.columns| ==> def.columns[i].name != name
            case Some(ci) => ci < |def.columns| && def.columns[ci].name == name
  {
  }

  lemma {:induction false} NotJsonNoPath(env: Env, v: Value, path: Str, e: Expr)
    requires v.isNull || v.typ != Json
    ensures !PathHolds(env, v, path, e)
  {
  }

  lemma {:induction false} JsonCellType(typ: ColType, v: Value)
    requires CellOk(typ, v) && !v.isNull && v.typ == Json
    ensures typ == Json
  {
  }

  // ----------------------------------------------------------- WHERE clauses

  /** The clause is a conjunction; its error is that of the first predicate that is not met. */
  lemma {:induction false} WhereMeans(env: Env, def: TableDef, vals: seq<Value>, where: seq<Pred>)
    requires |vals| == |def.columns|
    ensures MatchAll(env, def, vals, where) == Yes <==> forall i :: 0 <= i < |where| ==> MatchPred(env, def, vals, where[i]) == Yes
    ensures MatchAll(env, def, vals, where) == MatchError <==> exists i: nat :: ErrsAt(env, def, vals, where, i)
    decreases |where|
  {
    hide MatchPred;
    if where != [] {
      var rest := where[1..];
      WhereMeans(env, def, vals, rest);
      assert forall i :: 0 <= i < |rest| ==> rest[i] == where[i + 1];
      assert where == [where[0]] + rest;
      if MatchPred(env, def, vals, where[0]) == Yes {
        forall i: nat | ErrsAt(env, def, vals, rest, i) ensures ErrsAt(env, def, vals, where, i + 1) { }
        forall i: nat | ErrsAt(env, def, vals, where, i) ensures i > 0 && ErrsAt(env, def, vals, rest, i - 1) { }
      } else if MatchPred(env, def, vals, where[0]) == MatchError {
        assert ErrsAt(env, def, vals, where, 0);
      }
    }
  }

  /** Predicate `i` fails, and all before it are met. */
  ghost predicate ErrsAt(env: Env, def: TableDef, vals: seq<Value>, where: seq<Pred>, i: nat)
    requires |vals| == |def.columns|
  {
    i < |where| && MatchPred(env, def, vals, where[i]) == MatchError && forall j :: 0 <= j < i ==> MatchPred(env, def, vals, where[j]) == Yes
  }

  /** A row meets every predicate of the clause. */
  predicate Meets(env: Env, def: TableDef, vals: seq<Value>, where: seq<Pred>)
  {
    |vals| == |def.columns| && forall i :: 0 <= i < |where| ==> PredHolds(env, def, vals, where[i])
  }

  lemma {:induction false} MeetsMeans(env: Env, def: TableDef, pk: PkKey, vals: seq<Value>, where: seq<Pred>)
    requires TableOk(def) && RowOk(def, pk, vals)
    ensures |vals| == |def.columns|
    ensures MatchAll(env, def, vals, where) == Yes <==> Meets(env, def, vals, where)
  {
    hide TableOk, MatchPred, MatchAll, PredHolds, CellOk, PkOf;
    WhereMeans(env, def, vals, where);
    forall i | 0 <= i < |where| ensures MatchPred(env, def, vals, where[i]) == Yes <==> PredHolds(env, def, vals, where[i]) {
      PredMeans(env, def, pk, vals, where[i]);
    }
  }

  /** The table scan selects exactly the rows that meet every predicate, and fails exactly if
      on some row a predicate fails after all before it are met. */
  lemma {:induction false} ScanMeans(env: Env, def: TableDef, rows: Rows, where: seq<Pred>)
    requires TableOk(def) && RowsOk(def, rows)
    ensures forall pk :: pk in rows ==> |rows[pk]| == |def.columns|
    ensures match ScanAnswer(env, def, rows, where)
            case Failed => exists pk, i: nat :: pk in rows && ErrsAt(env, def, rows[pk], where, i)
            case Selected(sel) =>
              && (forall pk, i: nat :: pk in rows ==> !ErrsAt(env, def, rows[pk], where, i))
              && (forall pk :: pk in sel <==> pk in rows && Meets(env, def, rows[pk], where))
              && (forall pk :: pk in sel ==> sel[pk] == rows[pk])
  {
    hide TableOk, MatchAll, MatchPred, Meets, RowOk, ErrsAt;
    RowLengths(def, rows);
    forall pk | pk in rows
      ensures MatchAll(env, def, rows[pk], where) == Yes <==> Meets(env, def, rows[pk], where)
      ensures MatchAll(env, def, rows[pk], where) == MatchError <==> exists i: nat :: ErrsAt(env, def, rows[pk], where, i)
    {
      MeetsMeans(env, def, pk, rows[pk], where);
      WhereMeans(env, def, rows[pk], where);
    }
  }
}
