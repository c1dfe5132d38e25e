/** What a caller reads back after an insert or an update. */
module TableRecords {
  import opened Wrappers
  import Strings = Text
  import opened Ddl
  import opened TableStore
  import opened TableSpec

  /** The value a caller expects in a column that the insert left out. */
  function DeclaredDefault(c: Column): GoValue {
    match c.defaultText
    case None => Nil
    case Some(v) =>
      if c.colType == "boolean" then Bool(v == "true" || v == "1")
      else if IsNumeric(c.colType) then GoValue.Number(NumeralValue(Strings.TrimSpace(v)))
      else GoValue.Text(v)
  }

  /** The record an insert is expected to produce. */
  function ExpectedData(cols: seq<Column>, data: map<string, GoValue>): map<string, GoValue> {
    map name | name in Names(cols) ::
      if name in data then data[name] else DeclaredDefault(cols[IndexOf(cols, name)])
  }

  function IndexOf(cols: seq<Column>, name: string): (i: nat)
    requires name in Names(cols)
    ensures i < |cols| && cols[i].name == name
  {
    if cols[0].name == name then 0
    else
      assert name in Names(cols[1..]) by {
        var j :| 0 <= j < |cols| && cols[j].name == name;
        assert cols[1..][j - 1].name == name;
      }
      1 + IndexOf(cols[1..], name)
  }

  lemma {:induction false} RecordDataKeys(cols: seq<Column>, vals: map<string, Value>)
    ensures RecordData(cols, vals).Keys == Names(cols)
  {
    if cols != [] {
      var n := |cols| - 1;
      RecordDataKeys(cols[..n], vals);
      NamesAppend(cols[..n], cols[n]);
      assert cols[..n] + [cols[n]] == cols;
    }
  }

  lemma {:induction false} RecordDataAt(cols: seq<Column>, vals: map<string, Value>, i: nat)
    requires i < |cols| && Distinct(cols) && cols[i].name in vals
    ensures cols[i].name in RecordData(cols, vals)
    ensures RecordData(cols, vals)[cols[i].name] == FromSql(cols[i], vals[cols[i].name])
  {
    if i < |cols| - 1 {
      RecordDataAt(cols[..|cols| - 1], vals, i);
    }
  }

  /** A valid value comes back as it was given; booleans come back as booleans. */
  lemma {:induction false} BindThenRead(c: Column, v: GoValue)
    requires ValidColumn(c) && ValidValue(c, v)
    ensures FromSql(c, Bind(v)) == v
  {}

  lemma {:induction false} ReadDefault(c: Column)
    requires ValidColumn(c) && WellFormedDefault(c)
    ensures FromSql(c, DefaultValue(WrittenLiteral(c))) == DeclaredDefault(c)
  {
    WrittenAsDeclared(c);
    assert NumericChars("1") && NumericChars("0");
    if c.colType == "boolean" {
      DigitValue("1");
      DigitValue("0");
    }
  }

  lemma {:induction false} ColumnReadsAsExpected(cols: seq<Column>, data: map<string, GoValue>, i: nat)
    requires i < |cols| && Distinct(cols) && ValidColumn(cols[i]) && WellFormedDefault(cols[i])
    requires cols[i].name in data ==> ValidValue(cols[i], data[cols[i].name])
    ensures cols[i].name in RecordData(cols, RowVals(WrittenAll(cols), BindAll(data)))
    ensures RecordData(cols, RowVals(WrittenAll(cols), BindAll(data)))[cols[i].name]
          == if cols[i].name in data then data[cols[i].name] else DeclaredDefault(cols[i])
  {
    var vals := RowVals(WrittenAll(cols), BindAll(data));
    WrittenDistinct(cols);
    RowValsAt(WrittenAll(cols), BindAll(data), i);
    RecordDataAt(cols, vals, i);
    if cols[i].name in data {
      BindThenRead(cols[i], data[cols[i].name]);
    } else {
      ReadDefault(cols[i]);
    }
  }

  lemma {:induction false} RowReadsAsExpected(cols: seq<Column>, data: map<string, GoValue>)
    requires SchemaOk(cols) && DataAccepted(cols, data)
    requires forall i | 0 <= i < |cols| :: WellFormedDefault(cols[i])
    ensures RecordData(cols, RowVals(WrittenAll(cols), BindAll(data))) == ExpectedData(cols, data)
  {
    RecordDataKeys(cols, RowVals(WrittenAll(cols), BindAll(data)));
    forall name | name in Names(cols)
      ensures RecordData(cols, RowVals(WrittenAll(cols), BindAll(data)))[name] == ExpectedData(cols, data)[name]
    {
      ColumnReadsAsExpected(cols, data, IndexOf(cols, name));
    }
  }

  lemma {:induction false} FindAppended(rows: seq<Row>, r: Row)
    ensures FindRow(rows + [r], r.id) == Some(r)
  {}

  /**
   * Insert, then get: each supplied value comes back, and every other column holds its declared
   * default, or null. Numeric defaults must be numerals.
   */
  lemma {:induction false} InsertThenGet(db: Db, key: string, id: string, flagCtx: Option<string>, now: int,
          data: map<string, GoValue>)
    requires Inv(db) && InsertAccepted(db, key, id, data)
    requires forall i | 0 <= i < |LoadColumns(db, key)| :: WellFormedDefault(LoadColumns(db, key)[i])
    ensures Fetched(Inserted(db, key, id, flagCtx, now, data), key, id)
          == Done(Some(Record(id, now, now, ExpectedData(LoadColumns(db, key), data))))
  {
    LoadedInOrder(db, key);
    assert KeyOk(db, key);
    RowReadsAsExpected(ColumnsOf(db.columns, key), data);
    FindAppended(db.physical[key].rows, NewRow(db, key, id, flagCtx, now, data));
  }

  lemma {:induction false} FindPatched(rows: seq<Row>, target: string, patch: map<string, Value>, now: int, id: string)
    ensures FindRow(Patched(rows, target, patch, now), id) ==
            match FindRow(rows, id)
            case None => None
            case Some(r) => Some(PatchRow(r, target, patch, now))
  {
    if rows != [] {
      var n := |rows| - 1;
      FindPatched(rows[..n], target, patch, now, id);
      assert Patched(rows, target, patch, now)[..n] == Patched(rows[..n], target, patch, now);
    }
  }

  lemma {:induction false} FindInRows(rows: seq<Row>, id: string)
    ensures FindRow(rows, id).Some? ==> FindRow(rows, id).value in rows && FindRow(rows, id).value.id == id
  {
    if rows != [] && rows[|rows| - 1].id != id {
      FindInRows(rows[..|rows| - 1], id);
    }
  }

  lemma {:induction false} PatchedReads(cols: seq<Column>, vals: map<string, Value>, data: map<string, GoValue>)
    requires SchemaOk(cols) && Fits(cols, vals) && data.Keys <= Names(cols)
    requires forall i | 0 <= i < |cols| && cols[i].name in data :: ValidValue(cols[i], data[cols[i].name])
    ensures RecordData(cols, vals + BindAll(data)) == RecordData(cols, vals) + data
  {
    RecordDataKeys(cols, vals);
    RecordDataKeys(cols, vals + BindAll(data));
    forall name | name in Names(cols)
      ensures RecordData(cols, vals + BindAll(data))[name] == (RecordData(cols, vals) + data)[name]
    {
      var i := IndexOf(cols, name);
      RecordDataAt(cols, vals, i);
      RecordDataAt(cols, vals + BindAll(data), i);
      if name in data { BindThenRead(cols[i], data[name]); }
    }
  }

  lemma {:induction false} PatchedRecord(cols: seq<Column>, rows: seq<Row>, id: string, data: map<string, GoValue>,
          now: int,
                                         other: string)
    requires SchemaOk(cols) && (forall i | 0 <= i < |rows| :: Fits(cols, rows[i].vals)) && data.Keys <= Names(cols)
    requires forall i | 0 <= i < |cols| && cols[i].name in data :: ValidValue(cols[i], data[cols[i].name])
    ensures var found := FindRow(Patched(rows, id, BindAll(data), now), other);
            match FindRow(rows, other)
            case None => found == None
            case Some(r) =>
              found.Some? && r.id == other
              && ToRecord(cols, found.value)
                 == if other == id then ToRecord(cols, r).(data := ToRecord(cols, r).data + data, updatedAt := now)
                       else ToRecord(cols, r)
  {
    FindPatched(rows, id, BindAll(data), now, other);
    FindInRows(rows, other);
    if FindRow(rows, other).Some? {
      var i :| 0 <= i < |rows| && rows[i] == FindRow(rows, other).value;
      PatchedReads(cols, rows[i].vals, data);
    }
  }

  /**
   * Update, then get: the record with that id has the supplied columns replaced and all others as
   * before, and every other record is as before.
   */
  lemma {:induction false} UpdateThenGet(db: Db, key: string, id: string, data: map<string, GoValue>, now: int,
          other: string)
    requires Inv(db) && UpdateAccepted(db, key, data) && data != map[]
    ensures Fetched(Updated(db, key, id, data, now), key, other) ==
            match Fetched(db, key, other)
            case Done(Some(r)) => Done(Some(if other == id then r.(data := r.data + data, updatedAt := now) else r))
            case unchanged_ => unchanged_
  {
    LoadedInOrder(db, key);
    assert KeyOk(db, key);
    PatchedRecord(ColumnsOf(db.columns, key), db.physical[key].rows, id, data, now, other);
  }
}
