/**
 One-row tables on which an index and the table scan answer differently, one for each way
 the two part.
 */
module SqlWitnesses {
  import opened Strings
  import opened BTreeModel
  import opened Row
  import opened Secondary
  import opened SqlModel
  import opened SqlAnswers
  import opened JsonBin

  const ID := Ascii("id")
  const A := Ascii("a")

  /** CREATE TABLE t (id INTEGER PRIMARY KEY, a ...) */
  function TwoColumns(typ: ColType): TableDef
  {
    TableDef(Ascii("t"), [ColumnDef(ID, Integer, true), ColumnDef(A, typ, false)])
  }

  function OneRow(id: Int64, cell: Value): Rows
  {
    map[PkInt(id) := [IntValue(id), cell]]
  }

  lemma {:induction false} TwoColumnsOk(typ: ColType)
    ensures TableOk(TwoColumns(typ)) && PkIndex(TwoColumns(typ)) == Some(0)
    ensures ColumnIndex(TwoColumns(typ), ID) == Some(0) && ColumnIndex(TwoColumns(typ), A) == Some(1)
  {
    var cs := TwoColumns(typ).columns;
    assert |ID| == 2 && |A| == 1;
    assert FirstPk(cs, 0) == Some(0);
    assert FirstNamed(cs, A, 1) == Some(1);
    assert forall i :: 0 <= i < |Ascii("t")| ==> Ascii("t")[i] == 116;
  }

  lemma {:induction false} ColumnAt(typ: ColType)
    ensures ColumnIndex(TwoColumns(typ), A) == Some(1)
  {
    var cs := TwoColumns(typ).columns;
    assert |ID| == 2 && |A| == 1;
    assert FirstNamed(cs, A, 1) == Some(1);
  }

  lemma {:induction false} OneRowOk(typ: ColType, id: Int64, cell: Value)
    requires CellOk(typ, cell)
    ensures RowsOk(TwoColumns(typ), OneRow(id, cell))
    ensures Cell(TwoColumns(typ), A, OneRow(id, cell)[PkInt(id)]) == cell
  {
    hide JsonBin.ReadDoc, Decodes, FirstPk, FirstNamed;
    TwoColumnsOk(typ);
    var def, vals := TwoColumns(typ), [IntValue(id), cell];
    assert CellOk(def.columns[0].typ, vals[0]) && CellOk(def.columns[1].typ, vals[1]);
  }

  /** `id = NULL`: the primary-key path returns the row with key 0, the scan none. */
  lemma {:induction false} PkNullDiffers(env: Env)
    ensures var def, rows, w := TwoColumns(Integer), OneRow(0, NULL), OnColumn(ID, ENull);
            && RowsOk(def, rows)
            && PkAnswer(env, def, 0, rows, w) == Selected(rows)
            && PkAnswer(env, def, 0, rows, w) != ScanAnswer(env, def, rows, [w])
  {
    hide RowsOk, MatchAll;
    var def, rows, w := TwoColumns(Integer), OneRow(0, NULL), OnColumn(ID, ENull);
    TwoColumnsOk(Integer);
    OneRowOk(Integer, 0, NULL);
    PkPathAgreesIff(env, def, 0, rows, w);
    assert ExprToValue(env, ENull, Integer) == Some(NullOf(Integer));
    assert PkAnswer(env, def, 0, rows, w).rows == rows;
  }

  lemma {:induction false} ColumnIndexOk(env: Env, typ: ColType)
    requires typ == Integer || typ == Text
    ensures IndexOk(env, TwoColumns(typ), A, [])
  {
    hide FirstNamed;
    ColumnAt(typ);
  }

  /** `a = NULL` with an index on a: a row that holds NULL is missed, a row that holds 0 is
      returned. */
  lemma {:induction false} NullDiffers(env: Env, cell: Value)
    requires cell == NULL || cell == IntValue(0)
    ensures var def, rows, w := TwoColumns(Integer), OneRow(1, cell), OnColumn(A, ENull);
            && RowsOk(def, rows) && IndexOk(env, def, A, [])
            && IndexAnswer(env, def, rows, w) != ScanAnswer(env, def, rows, [w])
  {
    hide RowsOk, IndexOk, IndexAnswer, ScanAnswer, Cell;
    var def, rows, w := TwoColumns(Integer), OneRow(1, cell), OnColumn(A, ENull);
    ColumnIndexOk(env, Integer);
    ColumnAt(Integer);
    assert CellOk(Integer, cell);
    OneRowOk(Integer, 1, cell);
    NullLiteralAgreesIff(env, def, rows, w);
    assert PkInt(1) in rows;
  }

  /** The path that names the whole document. */
  const ROOT: Str := [DOLLAR]

  lemma {:induction false} RootPath(env: Env)
    ensures ParsePath(env, ROOT) == Some([]) && IndexOk(env, TwoColumns(Json), A, ROOT)
  {
    hide FirstNamed;
    ColumnAt(Json);
  }

  lemma {:induction false} NullDoc(env: Env)
    ensures CellOk(Json, JsonValue([0])) && Extract(env, [0], ROOT) == Found(NULL)
  {
    RootPath(env);
    assert ReadDoc([0], 0) == Some(Read(JNull, 1));
  }

  /** `json_extract(a, '$') = NULL` with an index on that path: the row whose document is null is missed. */
  lemma {:induction false} NullPathDiffers(env: Env)
    ensures var def, rows, w := TwoColumns(Json), OneRow(1, JsonValue([0])), OnPath(A, ROOT, ENull);
            && RowsOk(def, rows) && IndexOk(env, def, A, ROOT)
            && IndexAnswer(env, def, rows, w) != ScanAnswer(env, def, rows, [w])
  {
    hide RowsOk, IndexOk, IndexAnswer, ScanAnswer, Cell, CellOk, Extract;
    var def, rows, w := TwoColumns(Json), OneRow(1, JsonValue([0])), OnPath(A, ROOT, ENull);
    RootPath(env);
    NullDoc(env);
    OneRowOk(Json, 1, JsonValue([0]));
    NullPathAgreesIff(env, def, rows, w);
    assert PkInt(1) in rows && NullLeaf(env, def, w, rows[PkInt(1)]);
  }

  /** A BLOB literal on the path: an error by index, no rows by scan of an empty table. */
  lemma {:induction false} BlobPathDiffers(env: Env, b: Str)
    ensures var def, w := TwoColumns(Json), OnPath(A, ROOT, EBlob(b));
            && IndexOk(env, def, A, ROOT)
            && IndexAnswer(env, def, map[], w) == Failed && ScanAnswer(env, def, map[], [w]) == Selected(map[])
  {
    hide IndexOk, IndexAnswer, ScanAnswer;
    RootPath(env);
    BlobPathAgreesIff(env, TwoColumns(Json), map[], OnPath(A, ROOT, EBlob(b)));
  }

  /** `a = 'x'` with an index on a, under INTEGER keys: the row that holds x, NUL, y is returned. */
  lemma {:induction false} NulDiffers(env: Env, x: Str, y: Str)
    requires NUL !in x
    ensures var def, rows, w := TwoColumns(Text), OneRow(1, TextValue(x + [NUL] + y)), OnColumn(A, EText(x));
            && RowsOk(def, rows) && IndexOk(env, def, A, [])
            && IndexAnswer(env, def, rows, w) == Selected(rows) && ScanAnswer(env, def, rows, [w]) != Selected(rows)
  {
    hide RowsOk, IndexOk, ScanAnswer, Cell, HasPrefix, CompositeKey, CompositePrefix, FirstNamed, MatchAll;
    var v := x + [NUL] + y;
    var def, rows, w := TwoColumns(Text), OneRow(1, TextValue(v)), OnColumn(A, EText(x));
    ColumnIndexOk(env, Text);
    ColumnAt(Text);
    assert CellOk(Text, TextValue(v));
    OneRowOk(Text, 1, TextValue(v));
    IndexPathAgreesIff(env, def, rows, w);
    RunsOn(x, y);
    PrefixTestText(v, PkInt(1), x);
    assert FalseRow(env, def, w, PkInt(1), rows[PkInt(1)]);
    assert Sought(env, def, w) == Some(TextValue(x));
    assert Hit(env, def, A, [], PkInt(1), rows[PkInt(1)], TextValue(x));
    assert IndexAnswer(env, def, rows, w).rows == rows;
  }

  lemma {:induction false} RunsOn(x: Str, y: Str)
    ensures HasPrefix(x + [NUL] + y, x + [NUL])
  {
    assert (x + [NUL] + y)[..|x| + 1] == x + [NUL];
  }
}
