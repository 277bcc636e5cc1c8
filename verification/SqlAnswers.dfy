/**
 What a WHERE clause selects: by scanning the table, by the primary-key index and by a
 secondary or path index, and when these agree.
 */
module SqlAnswers {
  import opened Strings
  import opened BTreeModel
  import opened Row
  import opened Keys
  import opened Secondary
  import opened SqlModel
  import JsonBin

  /** The rows selected, or an error. */
  datatype Answer = Failed | Selected(rows: Rows)

  /** The table scan with matchWhere: the reference. */
  ghost function ScanAnswer(env: Env, def: TableDef, rows: Rows, where: seq<Pred>): Answer
    requires RowsOk(def, rows)
  {
    if exists pk :: pk in rows && MatchAll(env, def, rows[pk], where) == MatchError then Failed
    else Selected(map pk | pk in rows && MatchAll(env, def, rows[pk], where) == Yes :: rows[pk])
  }

  /** The key the primary-key path looks for; the NULL flag of the literal is not looked at. */
  function KeyFor(typ: ColType, v: Value): PkKey
  {
    match typ case Integer => PkInt(v.i) case Text => PkStr(v.text) case _ => PkStr([])
  }

  /** The primary-key path. */
  ghost function PkAnswer(env: Env, def: TableDef, p: nat, rows: Rows, w: Pred): Answer
    requires p < |def.columns|
  {
    var typ := def.columns[p].typ;
    match ExprToValue(env, w.value, typ)
    case None => Failed
    case Some(v) => Selected(map pk | pk in rows && pk == KeyFor(typ, v) :: rows[pk])
  }

  function PredPath(w: Pred): Str
  {
    if w.OnPath? then w.path else []
  }

  /** The value the secondary path looks up. */
  ghost function Sought(env: Env, def: TableDef, w: Pred): Option<Value>
  {
    if w.OnPath? then PredValue(w.value) else
      match ColumnIndex(def, w.column)
      case None => None
      case Some(ci) => ExprToValue(env, w.value, def.columns[ci].typ)
  }

  /** The row's entry in the index on `column` and `path` is under the prefix of `v`. */
  ghost predicate Hit(env: Env, def: TableDef, column: Str, path: Str, pk: PkKey, vals: seq<Value>, v: Value)
  {
    match IndexValue(env, def, column, path, vals)
    case Found(iv) => HasPrefix(CompositeKey(iv, pk).s, CompositePrefix(v))
    case _ => false
  }

  /** The secondary or path index path: every row under the prefix, with no second look
      at the predicate.  It depends on the index only by its column and path. */
  ghost function IndexAnswer(env: Env, def: TableDef, rows: Rows, w: Pred): Answer
  {
    match Sought(env, def, w)
    case None => Failed
    case Some(v) => Selected(map pk | pk in rows && Hit(env, def, w.column, PredPath(w), pk, rows[pk], v) :: rows[pk])
  }

  /** The texts an index takes from the rows hold no separator. */
  ghost predicate NulFreeRow(env: Env, def: TableDef, column: Str, path: Str, vals: seq<Value>)
  {
    match IndexValue(env, def, column, path, vals) case Found(v) => NulFree(v) case _ => true
  }

  ghost predicate NulFreeRows(env: Env, def: TableDef, column: Str, path: Str, rows: Rows)
  {
    forall pk :: pk in rows ==> NulFreeRow(env, def, column, path, rows[pk])
  }

  /** The primary key is an INTEGER. */
  predicate IntKeyed(def: TableDef)
  {
    match PkIndex(def) case None => false case Some(p) => def.columns[p].typ == Integer
  }

  /** What keeps the composite keys of a table's rows apart: INTEGER keys, or texts
      without the separator. */
  ghost predicate Separable(env: Env, def: TableDef, column: Str, path: Str, vals: seq<Value>)
  {
    IntKeyed(def) || NulFreeRow(env, def, column, path, vals)
  }

  ghost predicate SeparableRows(env: Env, def: TableDef, column: Str, path: Str, rows: Rows)
  {
    forall pk :: pk in rows ==> Separable(env, def, column, path, rows[pk])
  }

  /** The index would return the row although it holds another text. */
  ghost predicate FalseRow(env: Env, def: TableDef, w: Pred, pk: PkKey, vals: seq<Value>)
  {
    match Sought(env, def, w)
    case None => false
    case Some(v) =>
      match IndexValue(env, def, w.column, PredPath(w), vals)
      case Found(iv) => iv.typ == Text && v.typ == Text && FalseHit(iv.text, FormatPk(pk), v.text)
      case _ => false
  }

  ghost predicate NoFalseRow(env: Env, def: TableDef, w: Pred, rows: Rows)
  {
    forall pk :: pk in rows ==> !FalseRow(env, def, w, pk, rows[pk])
  }

  /** A literal the index paths are meant for: of the right type, not NULL. */
  ghost predicate GoodLiteral(env: Env, def: TableDef, w: Pred)
  {
    Sought(env, def, w).Some? && !Sought(env, def, w).value.isNull
  }

  // -------------------------------------------------------- primary key path

  lemma {:induction false} PkColumn(def: TableDef, p: nat)
    requires TableOk(def) && PkIndex(def) == Some(p)
    ensures ColumnIndex(def, def.columns[p].name) == Some(p)
  {
    var c := ColumnIndex(def, def.columns[p].name);
    assert c.Some? && def.columns[c.value].name == def.columns[p].name;
  }

  lemma {:induction false} OnePred(env: Env, def: TableDef, vals: seq<Value>, w: Pred)
    requires |vals| == |def.columns|
    ensures MatchAll(env, def, vals, [w]) == MatchPred(env, def, vals, w)
  {
    hide MatchPred;
    assert [w][1..] == [];
  }

  /** On a row, a literal of the key's type that is not NULL selects by key. */
  lemma {:induction false} PkMatches(env: Env, def: TableDef, p: nat, pk: PkKey, vals: seq<Value>, w: Pred)
    requires TableOk(def) && PkIndex(def) == Some(p) && w.OnColumn? && w.column == def.columns[p].name
    requires RowOk(def, pk, vals)
    ensures match ExprToValue(env, w.value, def.columns[p].typ)
            case None => MatchPred(env, def, vals, w) == No
            case Some(v) =>
              MatchPred(env, def, vals, w) == if !v.isNull && pk == KeyFor(def.columns[p].typ, v) then Yes else No
  {
    hide TableOk;
    PkColumn(def, p);
    assert CellOk(def.columns[p].typ, vals[p]);
    ExprMakesClean(env, w.value, def.columns[p].typ);
    var want := ExprToValue(env, w.value, def.columns[p].typ);
    if want.Some? && !want.value.isNull { ValuesEqualIsEquality(vals[p], want.value); }
  }

  /** The primary-key path agrees with the scan exactly if the literal has the key's type
      and, when it is NULL, no row has the zero key. */
  lemma {:induction false} PkPathAgreesIff(env: Env, def: TableDef, p: nat, rows: Rows, w: Pred)
    requires TableOk(def) && PkIndex(def) == Some(p) && w.OnColumn? && w.column == def.columns[p].name
    requires RowsOk(def, rows)
    ensures PkAnswer(env, def, p, rows, w) == ScanAnswer(env, def, rows, [w]) <==>
              match ExprToValue(env, w.value, def.columns[p].typ)
              case None => false
              case Some(v) => v.isNull ==> KeyFor(def.columns[p].typ, NullOf(def.columns[p].typ)) !in rows
  {
    hide TableOk, RowOk, MatchPred, MatchAll, ExprToValue, PkIndex;
    var typ := def.columns[p].typ;
    RowLengths(def, rows);
    forall pk | pk in rows ensures RowOk(def, pk, rows[pk]) && MatchAll(env, def, rows[pk], [w]) ==
        match ExprToValue(env, w.value, typ)
        case None => No
        case Some(v) => if !v.isNull && pk == KeyFor(typ, v) then Yes else No
    {
      OnePred(env, def, rows[pk], w);
      PkMatches(env, def, p, pk, rows[pk], w);
    }
    var s := ScanAnswer(env, def, rows, [w]);
    match ExprToValue(env, w.value, typ) {
      case None =>
      case Some(v) =>
        NullLiteral(env, w.value, typ);
        var k := KeyFor(typ, v);
        assert s == Selected(map pk | pk in rows && !v.isNull && pk == k :: rows[pk]);
        if v.isNull && k in rows { assert k in PkAnswer(env, def, p, rows, w).rows; }
    }
  }

  lemma {:induction false} RowLengths(def: TableDef, rows: Rows)
    requires RowsOk(def, rows)
    ensures forall pk :: pk in rows ==> |rows[pk]| == |def.columns|
  {
    forall pk | pk in rows ensures |rows[pk]| == |def.columns| {
      assert RowOk(def, pk, rows[pk]);
    }
  }

  lemma {:induction false} NullLiteral(env: Env, e: Expr, typ: ColType)
    ensures match ExprToValue(env, e, typ) case None => true case Some(v) => v.isNull ==> v == NullOf(typ)
  {
    hide JsonBin.Bin;
  }

  // -------------------------------------------------------- secondary paths

  /** For a good literal the index takes the rows the predicate takes, and the false ones. */
  lemma {:induction false} HitMeansMatch(env: Env, def: TableDef, pk: PkKey, vals: seq<Value>, w: Pred)
    requires RowOk(def, pk, vals) && IndexOk(env, def, w.column, PredPath(w))
    requires w.OnPath? ==> w.path != []
    requires GoodLiteral(env, def, w)
    ensures MatchPred(env, def, vals, w) != MatchError
    ensures Hit(env, def, w.column, PredPath(w), pk, vals, Sought(env, def, w).value) <==>
              MatchPred(env, def, vals, w) == Yes || FalseRow(env, def, w, pk, vals)
    ensures FalseRow(env, def, w, pk, vals) ==> MatchPred(env, def, vals, w) == No
  {
    hide PkOf, ParsePath, Extract, JsonBin.ReadDoc, CompositeKey, CompositePrefix, HasPrefix, NulFree, JsonBin.Bin, FalseHit, FormatPk;
    var ci := ColumnIndex(def, w.column).value;
    var v := Sought(env, def, w).value;
    assert CellOk(def.columns[ci].typ, vals[ci]);
    SoughtIndexable(env, def, w);
    IndexValueOk(env, def, w.column, PredPath(w), pk, vals);
    if IndexValue(env, def, w.column, PredPath(w), vals).Found? {
      var iv := IndexValue(env, def, w.column, PredPath(w), vals).value;
      PrefixTest(iv, pk, v);
      ValuesEqualIsEquality(iv, v);
      FalseDiffers(iv.text, FormatPk(pk), v.text);
    }
  }

  lemma {:induction false} FalseDiffers(v: Str, pk: Str, w: Str)
    ensures FalseHit(v, pk, w) ==> v != w
  {
  }

  lemma {:induction false} SoughtIndexable(env: Env, def: TableDef, w: Pred)
    requires IndexOk(env, def, w.column, PredPath(w)) && GoodLiteral(env, def, w)
    requires w.OnPath? ==> w.path != []
    ensures Indexable(Sought(env, def, w).value)
  {
    hide ParsePath, JsonBin.Bin;
  }

  /** For a typed literal that is not NULL, an index lookup returns what the table scan
      returns exactly if no row holds a text that passes the prefix test falsely. */
  lemma {:induction false} IndexPathAgreesIff(env: Env, def: TableDef, rows: Rows, w: Pred)
    requires RowsOk(def, rows) && IndexOk(env, def, w.column, PredPath(w))
    requires w.OnPath? ==> w.path != []
    requires GoodLiteral(env, def, w)
    ensures IndexAnswer(env, def, rows, w) == ScanAnswer(env, def, rows, [w]) <==> NoFalseRow(env, def, w, rows)
  {
    hide RowOk, MatchPred, MatchAll, Hit, IndexOk, FalseRow, Sought;
    var v := Sought(env, def, w).value;
    RowLengths(def, rows);
    forall pk | pk in rows
      ensures RowOk(def, pk, rows[pk]) && MatchAll(env, def, rows[pk], [w]) != MatchError
      ensures Hit(env, def, w.column, PredPath(w), pk, rows[pk], v) <==>
                MatchAll(env, def, rows[pk], [w]) == Yes || FalseRow(env, def, w, pk, rows[pk])
      ensures FalseRow(env, def, w, pk, rows[pk]) ==> MatchAll(env, def, rows[pk], [w]) == No
    {
      OnePred(env, def, rows[pk], w);
      HitMeansMatch(env, def, pk, rows[pk], w);
    }
    var i, s := IndexAnswer(env, def, rows, w), ScanAnswer(env, def, rows, [w]);
    assert s == Selected(map pk | pk in rows && MatchAll(env, def, rows[pk], [w]) == Yes :: rows[pk]);
    if pk :| pk in rows && FalseRow(env, def, w, pk, rows[pk]) {
      assert pk in i.rows && pk !in s.rows;
    }
  }

  /** Separator-free texts have no false rows. */
  lemma {:induction false} NulFreeNoFalse(env: Env, def: TableDef, rows: Rows, w: Pred)
    requires NulFreeRows(env, def, w.column, PredPath(w), rows)
    requires GoodLiteral(env, def, w) && NulFree(Sought(env, def, w).value)
    ensures NoFalseRow(env, def, w, rows)
  {
    hide IndexValue, Sought, FormatPk, HasPrefix;
    forall pk | pk in rows ensures !FalseRow(env, def, w, pk, rows[pk]) {
      assert NulFreeRow(env, def, w.column, PredPath(w), rows[pk]);
      var iv := IndexValue(env, def, w.column, PredPath(w), rows[pk]);
      if iv.Found? {
        var a, b := iv.value.text, Sought(env, def, w).value.text;
        if HasPrefix(a, b + [NUL]) { NulWithin(a, b); }
        if HasPrefix(b, a + [NUL]) { NulWithin(b, a); }
      }
    }
  }

  /** For a separator-free literal, the false rows are those whose text goes on behind the
      literal with a separator. */
  lemma {:induction false} FalseRowText(env: Env, def: TableDef, w: Pred, pk: PkKey, vals: seq<Value>)
    requires GoodLiteral(env, def, w) && NulFree(Sought(env, def, w).value)
    ensures FalseRow(env, def, w, pk, vals) <==>
              match IndexValue(env, def, w.column, PredPath(w), vals)
              case Found(iv) => iv.typ == Text && Sought(env, def, w).value.typ == Text && HasPrefix(iv.text, Sought(env, def, w).value.text + [NUL])
              case _ => false
  {
    hide IndexValue, Sought, FormatPk, HasPrefix;
    var iv := IndexValue(env, def, w.column, PredPath(w), vals);
    if iv.Found? {
      var a, b := iv.value.text, Sought(env, def, w).value.text;
      if HasPrefix(b, a + [NUL]) { NulWithin(b, a); }
    }
  }

  /** The cell an index entry is taken from. */
  function Cell(def: TableDef, column: Str, vals: seq<Value>): Value
  {
    match ColumnIndex(def, column)
    case None => NULL
    case Some(ci) => if ci < |vals| then vals[ci] else NULL
  }

  /** The cell an index answers a NULL literal with: zero, or a text that is empty up to its
      first separator. */
  predicate LikeZero(typ: ColType, cell: Value)
  {
    cell == NullOf(typ).(isNull := false) || (typ == Text && !cell.isNull && HasPrefix(cell.text, [NUL]))
  }

  lemma {:induction false} NullHit(env: Env, def: TableDef, pk: PkKey, vals: seq<Value>, w: Pred)
    requires RowOk(def, pk, vals) && IndexOk(env, def, w.column, []) && w.OnColumn? && w.value.ENull?
    ensures var typ := def.columns[ColumnIndex(def, w.column).value].typ;
            Hit(env, def, w.column, [], pk, vals, NullOf(typ)) <==> LikeZero(typ, Cell(def, w.column, vals))
    ensures MatchPred(env, def, vals, w) == if Cell(def, w.column, vals) == NULL then Yes else No
  {
    hide PkOf, CompositeKey, CompositePrefix, HasPrefix, JsonBin.Bin, JsonBin.ReadDoc, FormatPk;
    var ci := ColumnIndex(def, w.column).value;
    var typ := def.columns[ci].typ;
    var zero := NullOf(typ).(isNull := false);
    assert CellOk(typ, vals[ci]);
    SamePrefix(NullOf(typ), zero);
    if !vals[ci].isNull {
      PrefixTest(vals[ci], pk, zero);
      assert [] + [NUL] == [NUL];
      NotUnderEmpty(vals[ci].text);
    }
  }

  lemma {:induction false} NotUnderEmpty(v: Str)
    ensures !HasPrefix([], v + [NUL])
  {
  }

  lemma {:induction false} SamePrefix(a: Value, b: Value)
    requires a == b.(isNull := a.isNull)
    ensures CompositePrefix(a) == CompositePrefix(b)
  {
  }

  /** A NULL literal on an indexed column: the index path answers with the rows that hold
      zero, the empty text or a text that starts with the separator, the scan with the rows
      that hold NULL, so they agree exactly if the column holds none of these. */
  lemma {:induction false} NullLiteralAgreesIff(env: Env, def: TableDef, rows: Rows, w: Pred)
    requires RowsOk(def, rows) && IndexOk(env, def, w.column, []) && w.OnColumn? && w.value.ENull?
    ensures var typ := def.columns[ColumnIndex(def, w.column).value].typ;
            IndexAnswer(env, def, rows, w) == ScanAnswer(env, def, rows, [w]) <==>
              forall pk :: pk in rows ==> Cell(def, w.column, rows[pk]) != NULL && !LikeZero(typ, Cell(def, w.column, rows[pk]))
  {
    hide RowOk, MatchPred, MatchAll, Hit, Cell, HasPrefix;
    var typ := def.columns[ColumnIndex(def, w.column).value].typ;
    assert Sought(env, def, w) == Some(NullOf(typ));
    var i, s := IndexAnswer(env, def, rows, w), ScanAnswer(env, def, rows, [w]);
    RowLengths(def, rows);
    forall pk | pk in rows
      ensures RowOk(def, pk, rows[pk])
      ensures Hit(env, def, w.column, [], pk, rows[pk], NullOf(typ)) <==> LikeZero(typ, Cell(def, w.column, rows[pk]))
      ensures MatchAll(env, def, rows[pk], [w]) == if Cell(def, w.column, rows[pk]) == NULL then Yes else No
    {
      OnePred(env, def, rows[pk], w);
      NullHit(env, def, pk, rows[pk], w);
    }
    assert s == Selected(map pk | pk in rows && Cell(def, w.column, rows[pk]) == NULL :: rows[pk]);
    assert i == Selected(map pk | pk in rows && LikeZero(typ, Cell(def, w.column, rows[pk])) :: rows[pk]);
    if pk :| pk in rows && (Cell(def, w.column, rows[pk]) == NULL || LikeZero(typ, Cell(def, w.column, rows[pk]))) {
      assert pk in s.rows <==> pk !in i.rows;
    }
  }

  lemma {:induction false} NoEntryUnderNull(v: Value, pk: PkKey)
    requires Indexable(v)
    ensures !HasPrefix(CompositeKey(v, pk).s, CompositePrefix(NULL))
  {
    hide HasPrefix, FormatInt;
    Formats();
    var s, p := CompositeKey(v, pk).s, CompositePrefix(NULL);
    assert s[0] == ValuePart(v)[0] && p[0] == Ascii("N:")[0];
    if HasPrefix(s, p) { FirstByte(s, p); }
  }

  lemma {:induction false} FirstByte(s: Str, p: Str)
    requires HasPrefix(s, p) && p != []
    ensures |s| > 0 && s[0] == p[0]
  {
    assert s[0] == s[..|p|][0];
  }

  /** The path leads to a JSON null in the row. */
  predicate NullLeaf(env: Env, def: TableDef, w: Pred, vals: seq<Value>)
    requires w.OnPath?
  {
    var cell := Cell(def, w.column, vals);
    !cell.isNull && cell.typ == Json && Extract(env, cell.blob, w.path) == Found(NULL)
  }

  lemma {:induction false} NullPathMatch(env: Env, def: TableDef, pk: PkKey, vals: seq<Value>, w: Pred)
    requires RowOk(def, pk, vals) && w.OnPath? && w.path != [] && w.value.ENull? && IndexOk(env, def, w.column, w.path)
    ensures !Hit(env, def, w.column, w.path, pk, vals, NULL)
    ensures MatchPred(env, def, vals, w) == if NullLeaf(env, def, w, vals) then Yes else No
  {
    hide PkOf, ParsePath, JsonBin.ReadDoc, CompositeKey, CompositePrefix, HasPrefix, Extract;
    var ci := ColumnIndex(def, w.column).value;
    assert CellOk(def.columns[ci].typ, vals[ci]);
    IndexValueOk(env, def, w.column, w.path, pk, vals);
    if IndexValue(env, def, w.column, w.path, vals).Found? {
      NoEntryUnderNull(IndexValue(env, def, w.column, w.path, vals).value, pk);
    }
  }

  /** A NULL literal on a path index finds nothing, while the scan finds the JSON nulls. */
  lemma {:induction false} NullPathAgreesIff(env: Env, def: TableDef, rows: Rows, w: Pred)
    requires RowsOk(def, rows) && w.OnPath? && w.path != [] && w.value.ENull? && IndexOk(env, def, w.column, w.path)
    ensures IndexAnswer(env, def, rows, w) == Selected(map[])
    ensures IndexAnswer(env, def, rows, w) == ScanAnswer(env, def, rows, [w]) <==>
              forall pk :: pk in rows ==> !NullLeaf(env, def, w, rows[pk])
  {
    hide RowOk, MatchPred, MatchAll, Hit, NullLeaf, IndexOk;
    RowLengths(def, rows);
    forall pk | pk in rows
      ensures RowOk(def, pk, rows[pk]) && !Hit(env, def, w.column, w.path, pk, rows[pk], NULL)
      ensures MatchAll(env, def, rows[pk], [w]) == if NullLeaf(env, def, w, rows[pk]) then Yes else No
    {
      OnePred(env, def, rows[pk], w);
      NullPathMatch(env, def, pk, rows[pk], w);
    }
    var s := ScanAnswer(env, def, rows, [w]);
    assert s == Selected(map pk | pk in rows && NullLeaf(env, def, w, rows[pk]) :: rows[pk]);
    if pk :| pk in rows && NullLeaf(env, def, w, rows[pk]) { assert pk in s.rows; }
  }

  /** A literal of the wrong type on an indexed column: an error by index, no rows by scan. */
  lemma {:induction false} IllTypedLiteralDiffers(env: Env, def: TableDef, rows: Rows, w: Pred)
    requires RowsOk(def, rows) && IndexOk(env, def, w.column, []) && w.OnColumn? && Sought(env, def, w).None?
    ensures IndexAnswer(env, def, rows, w) == Failed
    ensures ScanAnswer(env, def, rows, [w]) == Selected(map[])
  {
    hide RowOk, MatchAll;
    RowLengths(def, rows);
    forall pk | pk in rows ensures RowOk(def, pk, rows[pk]) && MatchAll(env, def, rows[pk], [w]) == No {
      OnePred(env, def, rows[pk], w);
    }
  }

  /** The path leads to some value in the row. */
  predicate PathFound(env: Env, def: TableDef, w: Pred, vals: seq<Value>)
    requires w.OnPath?
  {
    var cell := Cell(def, w.column, vals);
    !cell.isNull && cell.typ == Json && Extract(env, cell.blob, w.path).Found?
  }

  /** A BLOB literal on a path: an error by index, and by scan as soon as one row has a value
      at the path. */
  lemma {:induction false} BlobPathAgreesIff(env: Env, def: TableDef, rows: Rows, w: Pred)
    requires RowsOk(def, rows) && w.OnPath? && w.path != [] && w.value.EBlob? && IndexOk(env, def, w.column, w.path)
    ensures IndexAnswer(env, def, rows, w) == Failed
    ensures ScanAnswer(env, def, rows, [w]) ==
              if exists pk :: pk in rows && PathFound(env, def, w, rows[pk]) then Failed else Selected(map[])
  {
    hide RowOk, MatchAll, MatchPred, PathFound, IndexOk;
    RowLengths(def, rows);
    forall pk | pk in rows
      ensures RowOk(def, pk, rows[pk])
      ensures MatchAll(env, def, rows[pk], [w]) == if PathFound(env, def, w, rows[pk]) then MatchError else No
    {
      OnePred(env, def, rows[pk], w);
      BlobPathMatch(env, def, pk, rows[pk], w);
    }
  }

  lemma {:induction false} BlobPathMatch(env: Env, def: TableDef, pk: PkKey, vals: seq<Value>, w: Pred)
    requires RowOk(def, pk, vals) && w.OnPath? && w.path != [] && w.value.EBlob? && IndexOk(env, def, w.column, w.path)
    ensures MatchPred(env, def, vals, w) == if PathFound(env, def, w, vals) then MatchError else No
  {
    hide PkOf, ParsePath, JsonBin.ReadDoc, Walk, Decodes;
    var ci := ColumnIndex(def, w.column).value;
    assert CellOk(def.columns[ci].typ, vals[ci]);
    if !vals[ci].isNull { ExtractOk(env, vals[ci].blob, w.path); }
  }
}
