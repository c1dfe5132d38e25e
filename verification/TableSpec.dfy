/**
 * What each operation of the table engine does to the database, as functions, and the
 * invariant that every one of them keeps.
 */
module TableSpec {
  import opened Wrappers
  import opened Ddl
  import opened TableStore
  import Text

  // ---- Go values ----

  /** A value of an interface{}: Other stands for objects and arrays. */
  datatype GoValue = Nil | Number(n: real) | Bool(b: bool) | Text(s: string) | Other

  datatype Record = Record(id: string, createdAt: int, updatedAt: int, data: map<string, GoValue>)

  /** validateValue */
  predicate ValidValue(c: Column, v: GoValue) {
    if v == Nil then c.nullable
    else if IsNumeric(c.colType) then v.Number?
    else if c.colType == "boolean" then v.Bool?
    else if c.colType == "text" then v.Text?
    else true
  }

  /** How the driver stores a bound value. */
  function Bind(v: GoValue): Value {
    match v
    case Number(n) => Num(n)
    case Bool(b) => Num(if b then 1.0 else 0.0)
    case Text(s) => Str(s)
    case _ => Null
  }

  /** buildRecord: a boolean column comes back as a boolean. */
  function FromSql(c: Column, v: Value): GoValue {
    match v
    case Null => Nil
    case Num(n) => if c.colType == "boolean" then Bool(n != 0.0) else GoValue.Number(n)
    case Str(s) => Text(s)
  }

  /** The data of a record: one entry for each registered column. */
  function RecordData(cols: seq<Column>, vals: map<string, Value>): map<string, GoValue> {
    if cols == [] then map[]
    else
      var c := cols[|cols| - 1];
      RecordData(cols[..|cols| - 1], vals)[c.name := if c.name in vals then FromSql(c, vals[c.name]) else Nil]
  }

  function ToRecord(cols: seq<Column>, row: Row): Record {
    Record(row.id, row.createdAt, row.updatedAt, RecordData(cols, row.vals))
  }

  function FindRow(rows: seq<Row>, id: string): Option<Row> {
    if rows == [] then None
    else if rows[|rows| - 1].id == id then Some(rows[|rows| - 1])
    else FindRow(rows[..|rows| - 1], id)
  }

  /** GetRecord */
  function Fetched(db: Db, key: string, id: string): Outcome<Option<Record>> {
    if key !in db.defs || key !in db.physical then Failed
    else match FindRow(db.physical[key].rows, id)
      case None => Done(None)
      case Some(row) => Done(Some(ToRecord(LoadColumns(db, key), row)))
  }

  // ---- schema operations ----

  function Placed(key: string, cols: seq<Column>): (r: seq<Column>)
    ensures |r| == |cols|
    ensures forall i | 0 <= i < |r| :: r[i] == cols[i].(tableKey := key, position := i)
  {
    if cols == [] then []
    else Placed(key, cols[..|cols| - 1]) + [cols[|cols| - 1].(tableKey := key, position := |cols| - 1)]
  }

  predicate CreateAccepted(db: Db, key: string, cols: seq<Column>) {
    ValidKey(key) && (forall i | 0 <= i < |cols| :: ValidColumn(cols[i])) && Distinct(cols)
    && key !in db.defs && AllGrammatical(cols)
  }

  function Created(db: Db, key: string, def: Def, cols: seq<Column>): Db {
    Db(db.defs[key := def], db.columns + Placed(key, cols),
       db.physical[key := Physical(WrittenAll(cols), [])])
  }

  function NumberedIn(db: Db, key: string, c: Column): Column {
    c.(tableKey := key, position := |ColumnsOf(db.columns, key)|)
  }

  /** One column appended to the registry and to the physical table of a registered key. */
  function Extend1(db: Db, key: string, c: Column): Db
    requires key in db.physical
  {
    var t := db.physical[key];
    Db(db.defs,
       db.columns + [NumberedIn(db, key, c)],
       db.physical[key := Physical(t.cols + [Written(c)], WithColumn(t.rows, Written(c)))])
  }

  function Extend(db: Db, key: string, cols: seq<Column>): (r: Db)
    requires key in db.physical
    ensures key in r.physical && r.physical.Keys == db.physical.Keys && r.defs == db.defs
  {
    if cols == [] then db
    else Extend1(Extend(db, key, cols[..|cols| - 1]), key, cols[|cols| - 1])
  }

  /** The columns of a request that the registry does not have yet. */
  function FreshOf(existing: seq<Column>, newCols: seq<Column>): (r: seq<Column>)
    ensures forall i | 0 <= i < |r| :: r[i] in newCols && !HasName(existing, r[i].name)
  {
    if newCols == [] then []
    else
      var n := |newCols| - 1;
      var front := FreshOf(existing, newCols[..n]);
      if HasName(existing, newCols[n].name) then front else front + [newCols[n]]
  }

  /** Existing rows stay valid: the column allows NULL or has a default that is not NULL. */
  predicate Backfills(c: Column) {
    c.nullable || (c.defaultText.Some? && DefaultValue(WrittenLiteral(c)) != Null)
  }

  /**
   * A column with a default is refused by a table with rows exactly when it forbids NULL and its default is
   * meant as a number but has a foreign character; its DDL text parses all the same.
   */
  lemma {:induction false} BackfillsUnlessForeign(c: Column)
    requires c.defaultText.Some?
    ensures !Backfills(c) <==>
            !c.nullable && IsNumeric(c.colType) && !NumericChars(Text.TrimSpace(c.defaultText.value))
    ensures !Backfills(c) ==> Grammatical(Written(c))
  {
    assert NumericChars("0") && NumericChars("1");
  }

  predicate SameShape(existing: seq<Column>, c: Column) {
    forall i | 0 <= i < |existing| && existing[i].name == c.name ::
      existing[i].colType == c.colType && existing[i].nullable == c.nullable
  }

  /** Column i of a request, on a table with the given columns that has rows or not. */
  predicate AddAcceptedAt(existing: seq<Column>, populated: bool, newCols: seq<Column>, i: int)
    requires 0 <= i < |newCols|
  {
    var c := newCols[i];
    ValidColumn(c)
    && if HasName(existing, c.name) then SameShape(existing, c)
       else
         (c.nullable || c.defaultText.Some?) && Addable(c, populated)
         && forall j | 0 <= j < i :: newCols[j].name != c.name
  }

  /** The database takes the column: its text parses, and rows that are there get a value. */
  predicate Addable(c: Column, populated: bool) {
    ValidColumn(c) && Grammatical(Written(c)) && (populated ==> Backfills(c))
  }

  predicate Populated(db: Db, key: string) {
    key in db.physical && db.physical[key].rows != []
  }

  predicate AddAccepted(db: Db, key: string, newCols: seq<Column>) {
    key in db.defs && key in db.physical
    && forall i | 0 <= i < |newCols| :: AddAcceptedAt(LoadColumns(db, key), Populated(db, key), newCols, i)
  }

  function Added(db: Db, key: string, newCols: seq<Column>, now: int): Db
    requires key in db.physical
  {
    TouchDef(Extend(db, key, FreshOf(LoadColumns(db, key), newCols)), key, now)
  }

  function Dropped(db: Db, key: string): Db {
    DropPhysical(DeleteDef(db, key), key)
  }

  // ---- record operations ----

  /** buildInsertData succeeds. */
  predicate DataAccepted(cols: seq<Column>, data: map<string, GoValue>) {
    data.Keys <= Names(cols)
    && forall i | 0 <= i < |cols| ::
         if cols[i].name in data then ValidValue(cols[i], data[cols[i].name])
         else cols[i].nullable || cols[i].defaultText.Some?
  }

  function BindAll(data: map<string, GoValue>): map<string, Value> {
    map name | name in data :: Bind(data[name])
  }

  predicate InsertAccepted(db: Db, key: string, id: string, data: map<string, GoValue>) {
    key in db.defs && key in db.physical && DataAccepted(LoadColumns(db, key), data)
    && !HasId(db.physical[key].rows, id)
    && NotNullHolds(db.physical[key].cols, RowVals(db.physical[key].cols, BindAll(data)))
  }

  function NewRow(db: Db, key: string, id: string, flagCtx: Option<string>, now: int, data: map<string, GoValue>): Row
    requires key in db.physical
  {
    Row(id, flagCtx, now, now, RowVals(db.physical[key].cols, BindAll(data)))
  }

  function Inserted(db: Db, key: string, id: string, flagCtx: Option<string>, now: int, data: map<string, GoValue>): Db
    requires key in db.physical
  {
    SetRows(db, key, db.physical[key].rows + [NewRow(db, key, id, flagCtx, now, data)])
  }

  predicate UpdateAccepted(db: Db, key: string, data: map<string, GoValue>) {
    key in db.defs && key in db.physical
    && var cols := LoadColumns(db, key);
       data.Keys <= Names(cols)
       && forall i | 0 <= i < |cols| && cols[i].name in data :: ValidValue(cols[i], data[cols[i].name])
  }

  function Updated(db: Db, key: string, id: string, data: map<string, GoValue>, now: int): Db
    requires key in db.physical
  {
    if data == map[] then db
    else SetRows(db, key, Patched(db.physical[key].rows, id, BindAll(data), now))
  }

  // ---- runs ----

  datatype Op =
    | Create(key: string, def: Def, cols: seq<Column>)
    | Add(key: string, newCols: seq<Column>, now: int)
    | Drop(key: string)
    | Insert(key: string, id: string, flagCtx: Option<string>, now: int, data: map<string, GoValue>)
    | Update(key: string, id: string, data: map<string, GoValue>, now: int)
    | Delete(key: string, id: string)
    | Rollback(key: string, ctx: string)
    | Promote(key: string, ctx: string)

  predicate Accepted(db: Db, op: Op) {
    match op
    case Create(key, _, cols) => CreateAccepted(db, key, cols)
    case Add(key, newCols, _) => AddAccepted(db, key, newCols)
    case Drop(key) => ValidKey(key)
    case Insert(key, id, _, _, data) => InsertAccepted(db, key, id, data)
    case Update(key, _, data, _) => UpdateAccepted(db, key, data)
    case Delete(key, _) => ValidKey(key) && key in db.physical
    case Rollback(key, _) => ValidKey(key) && key in db.physical
    case Promote(key, _) => ValidKey(key) && key in db.physical
  }

  /** The database after one call: unchanged when the call fails. */
  function Apply(db: Db, op: Op): Db {
    if !Accepted(db, op) then db
    else match op
      case Create(key, def, cols) => Created(db, key, def, cols)
      case Add(key, newCols, now) => Added(db, key, newCols, now)
      case Drop(key) => Dropped(db, key)
      case Insert(key, id, flagCtx, now, data) => Inserted(db, key, id, flagCtx, now, data)
      case Update(key, id, data, now) => Updated(db, key, id, data, now)
      case Delete(key, id) => SetRows(db, key, Removed(db.physical[key].rows, id))
      case Rollback(key, ctx) => SetRows(db, key, RolledBack(db.physical[key].rows, ctx))
      case Promote(key, ctx) => SetRows(db, key, Promoted(db.physical[key].rows, ctx))
  }

  function Run(db: Db, ops: seq<Op>): Db {
    if ops == [] then db else Apply(Run(db, ops[..|ops| - 1]), ops[|ops| - 1])
  }

  // ---- the invariant is kept ----

  lemma {:induction false} RowValsAt(cols: seq<PhysCol>, supplied: map<string, Value>, i: nat)
    requires i < |cols| && PhysDistinct(cols)
    ensures cols[i].name in RowVals(cols, supplied)
    ensures RowVals(cols, supplied)[cols[i].name] ==
            if cols[i].name in supplied then supplied[cols[i].name] else DefaultValue(cols[i].dflt)
  {
    if i < |cols| - 1 {
      RowValsAt(cols[..|cols| - 1], supplied, i);
    }
  }

  lemma {:induction false} NamesFront(cols: seq<Column>)
    requires cols != []
    ensures Names(cols) == Names(cols[..|cols| - 1]) + {cols[|cols| - 1].name}
  {
    NamesAppend(cols[..|cols| - 1], cols[|cols| - 1]);
    assert cols[..|cols| - 1] + [cols[|cols| - 1]] == cols;
  }

  lemma {:induction false} RowValsKeys(cols: seq<Column>, supplied: map<string, Value>)
    ensures RowVals(WrittenAll(cols), supplied).Keys == Names(cols)
  {
    if cols != [] {
      var n := |cols| - 1;
      RowValsKeys(cols[..n], supplied);
      assert WrittenAll(cols)[..n] == WrittenAll(cols[..n]);
      RowValsStep(WrittenAll(cols), supplied);
      NamesFront(cols);
    }
  }

  lemma {:induction false} RowValsStep(cols: seq<PhysCol>, supplied: map<string, Value>)
    requires cols != []
    ensures RowVals(cols, supplied).Keys == RowVals(cols[..|cols| - 1], supplied).Keys + {cols[|cols| - 1].name}
  {}

  lemma {:induction false} NamesAppend(cols: seq<Column>, c: Column)
    ensures Names(cols + [c]) == Names(cols) + {c.name}
  {
    forall name | name in Names(cols) ensures name in Names(cols + [c]) {
      var i :| 0 <= i < |cols| && cols[i].name == name;
      assert (cols + [c])[i].name == name;
    }
    assert (cols + [c])[|cols|].name == c.name;
  }

  lemma {:induction false} WrittenDistinct(cols: seq<Column>)
    ensures PhysDistinct(WrittenAll(cols)) <==> Distinct(cols)
  {}

  /** A default fits its column, unless it is NULL on a column that forbids NULL. */
  lemma {:induction false} DefaultFits(c: Column)
    requires ValidColumn(c) && (c.nullable || DefaultValue(WrittenLiteral(c)) != Null)
    ensures FitsColumn(c, DefaultValue(WrittenLiteral(c)))
  {
    if c.colType == "boolean" && c.defaultText.Some? {
      var t := if c.defaultText.value == "true" || c.defaultText.value == "1" then "1" else "0";
      assert NumericChars(t);
      DigitValue(t);
    }
  }

  lemma {:induction false} DigitValue(t: string)
    requires t == "0" || t == "1"
    ensures NumeralValue(t) == if t == "1" then 1.0 else 0.0
  {
    assert DotAt(t[1..]) == 0;
    assert DotAt(t) == 1 && t[..1] == t;
    assert t[..0] == "";
    assert DigitsValue(t[..0]) == 0;
    assert DigitsValue(t) == (t[0] as int - '0' as int);
  }

  lemma {:induction false} BoundFits(c: Column, v: GoValue)
    requires ValidColumn(c) && ValidValue(c, v)
    ensures FitsColumn(c, Bind(v))
  {}

  lemma {:induction false} NewRowFits(cols: seq<Column>, data: map<string, GoValue>)
    requires SchemaOk(cols) && DataAccepted(cols, data)
    requires NotNullHolds(WrittenAll(cols), RowVals(WrittenAll(cols), BindAll(data)))
    ensures Fits(cols, RowVals(WrittenAll(cols), BindAll(data)))
  {
    var pcols := WrittenAll(cols);
    var vals := RowVals(pcols, BindAll(data));
    RowValsKeys(cols, BindAll(data));
    WrittenDistinct(cols);
    forall i | 0 <= i < |cols| ensures FitsColumn(cols[i], vals[cols[i].name]) {
      RowValsAt(pcols, BindAll(data), i);
      assert pcols[i] == Written(cols[i]);
      if cols[i].name in data {
        BoundFits(cols[i], data[cols[i].name]);
      } else {
        DefaultFits(cols[i]);
      }
    }
  }

  lemma {:induction false} PatchFits(cols: seq<Column>, vals: map<string, Value>, data: map<string, GoValue>)
    requires SchemaOk(cols) && Fits(cols, vals) && data.Keys <= Names(cols)
    requires forall i | 0 <= i < |cols| && cols[i].name in data :: ValidValue(cols[i], data[cols[i].name])
    ensures Fits(cols, vals + BindAll(data))
  {
    var after := vals + BindAll(data);
    forall i | 0 <= i < |cols| ensures FitsColumn(cols[i], after[cols[i].name]) {
      if cols[i].name in data { BoundFits(cols[i], data[cols[i].name]); }
    }
  }

  /** Changing only the rows of one table keeps the invariant when the new rows fit. */
  lemma {:induction false} SetRowsKeepsInv(db: Db, key: string, rows: seq<Row>)
    requires Inv(db) && key in db.defs
    requires DistinctIds(rows)
    requires forall i | 0 <= i < |rows| :: Fits(ColumnsOf(db.columns, key), rows[i].vals)
    ensures Inv(SetRows(db, key, rows))
  {
    var after := SetRows(db, key, rows);
    assert KeyOk(db, key);
    forall k | k in after.defs ensures KeyOk(after, k) {
      if k != key { KeyOkFrame(db, after, k); }
    }
  }

  lemma {:induction false} RemovedDistinct(rows: seq<Row>, id: string)
    requires DistinctIds(rows)
    ensures DistinctIds(Removed(rows, id))
  {
    if rows != [] {
      var n := |rows| - 1;
      RemovedDistinct(rows[..n], id);
      forall i | 0 <= i < |Removed(rows[..n], id)| ensures Removed(rows[..n], id)[i].id != rows[n].id {
        assert Removed(rows[..n], id)[i] in rows[..n];
      }
    }
  }

  lemma {:induction false} RolledBackDistinct(rows: seq<Row>, ctx: string)
    requires DistinctIds(rows)
    ensures DistinctIds(RolledBack(rows, ctx))
  {
    if rows != [] {
      var n := |rows| - 1;
      RolledBackDistinct(rows[..n], ctx);
      forall i | 0 <= i < |RolledBack(rows[..n], ctx)| ensures RolledBack(rows[..n], ctx)[i].id != rows[n].id {
        assert RolledBack(rows[..n], ctx)[i] in rows[..n];
      }
    }
  }

  lemma {:induction false} CreateKeepsInv(db: Db, key: string, def: Def, cols: seq<Column>)
    requires Inv(db) && CreateAccepted(db, key, cols)
    ensures Inv(Created(db, key, def, cols))
  {
    var after := Created(db, key, def, cols);
    NewTableOk(key, cols);
    CreatedOthers(db, key, def, cols);
    CreatedColumns(db, key, def, cols, key);
    OneTableChanged(db, after, key);
  }

  /** At most the table of key changed between two databases. */
  predicate OthersSame(db: Db, after: Db, key: string) {
    && after.defs.Keys == db.defs.Keys + {key} && after.physical.Keys == after.defs.Keys
    && (forall i | 0 <= i < |after.columns| :: after.columns[i].tableKey in after.defs)
    && (forall k | k in db.defs && k != key ::
          k in after.physical && k in db.physical && after.physical[k] == db.physical[k]
          && ColumnsOf(after.columns, k) == ColumnsOf(db.columns, k))
  }

  lemma {:induction false} CreatedOthers(db: Db, key: string, def: Def, cols: seq<Column>)
    requires key !in db.defs && db.physical.Keys == db.defs.Keys
    requires forall i | 0 <= i < |db.columns| :: db.columns[i].tableKey in db.defs
    ensures OthersSame(db, Created(db, key, def, cols), key)
  {
    var after := Created(db, key, def, cols);
    forall k | k in db.defs && k != key ensures ColumnsOf(after.columns, k) == ColumnsOf(db.columns, k) {
      CreatedColumns(db, key, def, cols, k);
    }
    KnownKeys(db.columns, Placed(key, cols), key, after.defs.Keys);
  }

  lemma {:induction false} OneTableChanged(db: Db, after: Db, key: string)
    requires Inv(db) && OthersSame(db, after, key)
    requires ValidKey(key) && TableOk(ColumnsOf(after.columns, key), after.physical[key])
    ensures Inv(after)
  {}

  lemma {:induction false} PlacedSchema(key: string, cols: seq<Column>)
    requires (forall i | 0 <= i < |cols| :: ValidColumn(cols[i])) && Distinct(cols) && AllGrammatical(cols)
    ensures SchemaOk(Placed(key, cols)) && WrittenAll(Placed(key, cols)) == WrittenAll(cols)
  {
    PlacedWritten(key, cols);
    PlacedDistinct(key, cols);
    forall i | 0 <= i < |cols| ensures Written(Placed(key, cols)[i]) == Written(cols[i]) {}
  }

  lemma {:induction false} PlacedDistinct(key: string, cols: seq<Column>)
    requires Distinct(cols)
    ensures Distinct(Placed(key, cols)) && Numbered(Placed(key, cols))
  {}

  lemma {:induction false} PlacedWritten(key: string, cols: seq<Column>)
    ensures WrittenAll(Placed(key, cols)) == WrittenAll(cols)
  {
    forall i | 0 <= i < |cols| ensures Written(Placed(key, cols)[i]) == Written(cols[i]) {}
  }

  lemma {:induction false} NewTableOk(key: string, cols: seq<Column>)
    requires (forall i | 0 <= i < |cols| :: ValidColumn(cols[i])) && Distinct(cols) && AllGrammatical(cols)
    ensures TableOk(Placed(key, cols), Physical(WrittenAll(cols), []))
  {
    PlacedSchema(key, cols);
  }

  lemma {:induction false} KnownKeys(a: seq<Column>, b: seq<Column>, key: string, keys: set<string>)
    requires (forall i | 0 <= i < |a| :: a[i].tableKey in keys) && key in keys
    requires forall i | 0 <= i < |b| :: b[i].tableKey == key
    ensures forall i | 0 <= i < |a + b| :: (a + b)[i].tableKey in keys
  {}

  /** A table is untouched when its columns and its physical table are. */
  lemma {:induction false} KeyOkFrame(db: Db, after: Db, key: string)
    requires KeyOk(db, key) && key in after.physical && after.physical[key] == db.physical[key]
    requires ColumnsOf(after.columns, key) == ColumnsOf(db.columns, key)
    ensures KeyOk(after, key)
  {}

  lemma {:induction false} CreatedColumns(db: Db, key: string, def: Def, cols: seq<Column>, k: string)
    requires key !in db.defs && forall i | 0 <= i < |db.columns| :: db.columns[i].tableKey in db.defs
    ensures ColumnsOf(Created(db, key, def, cols).columns, k) == if k == key then Placed(key, cols)
          else ColumnsOf(db.columns, k)
  {
    var placed := Placed(key, cols);
    ColumnsOfAppend(db.columns, placed, k);
    if k == key {
      ColumnsOfOthers(db.columns, key);
      ColumnsOfOwn(placed, key);
    } else {
      ColumnsOfOthers(placed, k);
    }
  }

  lemma {:induction false} WithColumnFits(cols: seq<Column>, c: Column, rows: seq<Row>)
    requires ValidColumn(c) && Backfills(c)
    requires !HasName(cols, c.name)
    requires forall i | 0 <= i < |rows| :: Fits(cols, rows[i].vals)
    ensures forall i | 0 <= i < |rows| :: Fits(cols + [c], WithColumn(rows, Written(c))[i].vals)
  {
    DefaultFits(c);
    NamesAppend(cols, c);
    forall i | 0 <= i < |rows| ensures Fits(cols + [c], WithColumn(rows, Written(c))[i].vals) {
      forall j | 0 <= j < |cols + [c]|
        ensures FitsColumn((cols + [c])[j], WithColumn(rows, Written(c))[i].vals[(cols + [c])[j].name])
      {
        if j < |cols| { assert cols[j].name != c.name; }
      }
    }
  }

  lemma {:induction false} FitsPlaced(cols: seq<Column>, c: Column, d: Column, vals: map<string, Value>)
    requires Fits(cols + [c], vals) && d.name == c.name && d.colType == c.colType && d.nullable == c.nullable
    ensures Fits(cols + [d], vals)
  {
    var a, b := cols + [c], cols + [d];
    assert forall i | 0 <= i < |a| :: a[i].name == b[i].name;
    assert Names(a) == Names(b);
    forall i | 0 <= i < |b| ensures FitsColumn(b[i], vals[b[i].name]) {
      assert FitsColumn(a[i], vals[a[i].name]);
    }
  }

  lemma {:induction false} Extend1Columns(db: Db, key: string, c: Column, k: string)
    requires key in db.physical
    ensures ColumnsOf(Extend1(db, key, c).columns, k)
            == ColumnsOf(db.columns, k) + if k == key then [NumberedIn(db, key, c)] else []
  {}

  lemma {:induction false} Extend1Others(db: Db, key: string, c: Column)
    requires key in db.defs && db.physical.Keys == db.defs.Keys
    requires forall i | 0 <= i < |db.columns| :: db.columns[i].tableKey in db.defs
    ensures OthersSame(db, Extend1(db, key, c), key)
  {}

  lemma {:induction false} ExtendedSchemaOk(cols: seq<Column>, d: Column)
    requires SchemaOk(cols) && Addable(d, false) && !HasName(cols, d.name) && d.position == |cols|
    ensures SchemaOk(cols + [d])
  {}

  lemma {:induction false} ExtendedRowsFit(cols: seq<Column>, rows: seq<Row>, c: Column, d: Column)
    requires (forall i | 0 <= i < |rows| :: Fits(cols, rows[i].vals)) && !HasName(cols, c.name)
    requires Addable(c, rows != []) && d == c.(tableKey := d.tableKey, position := |cols|)
    ensures forall i | 0 <= i < |rows| :: Fits(cols + [d], WithColumn(rows, Written(c))[i].vals)
  {
    if rows != [] { WithColumnFits(cols, c, rows); }
    forall i | 0 <= i < |rows| ensures Fits(cols + [d], WithColumn(rows, Written(c))[i].vals) {
      FitsPlaced(cols, c, d, WithColumn(rows, Written(c))[i].vals);
    }
  }

  lemma {:induction false} ExtendedTableOk(cols: seq<Column>, t: Physical, c: Column, d: Column)
    requires TableOk(cols, t) && Addable(c, t.rows != []) && !HasName(cols, c.name)
    requires d == c.(tableKey := d.tableKey, position := |cols|)
    ensures TableOk(cols + [d], Physical(t.cols + [Written(c)], WithColumn(t.rows, Written(c))))
  {
    assert Written(d) == Written(c);
    ExtendedSchemaOk(cols, d);
    ExtendedRowsFit(cols, t.rows, c, d);
    assert (cols + [d])[..|cols|] == cols;
  }

  lemma {:induction false} Extend1KeepsInv(db: Db, key: string, c: Column)
    requires Inv(db) && key in db.defs
    requires Addable(c, Populated(db, key)) && !HasName(ColumnsOf(db.columns, key), c.name)
    ensures Inv(Extend1(db, key, c))
  {
    var after := Extend1(db, key, c);
    Extend1Others(db, key, c);
    Extend1Columns(db, key, c, key);
    assert KeyOk(db, key);
    ExtendedTableOk(ColumnsOf(db.columns, key), db.physical[key], c, NumberedIn(db, key, c));
    OneTableChanged(db, after, key);
  }

  /** The fresh columns among the first n of an accepted request. */
  lemma {:induction false} FreshDistinct(existing: seq<Column>, populated: bool, newCols: seq<Column>, n: nat)
    requires n <= |newCols| && forall i | 0 <= i < n :: AddAcceptedAt(existing, populated, newCols, i)
    ensures Distinct(FreshOf(existing, newCols[..n]))
    ensures forall i | 0 <= i < |FreshOf(existing, newCols[..n])| ::
              Addable(FreshOf(existing, newCols[..n])[i], populated)
  {
    if n > 0 {
      FreshDistinct(existing, populated, newCols, n - 1);
      assert newCols[..n][..n - 1] == newCols[..n - 1];
      var before := FreshOf(existing, newCols[..n - 1]);
      assert AddAcceptedAt(existing, populated, newCols, n - 1);
      if !HasName(existing, newCols[n - 1].name) {
        forall i | 0 <= i < |before| ensures before[i].name != newCols[n - 1].name {
          var j :| 0 <= j < n - 1 && newCols[..n - 1][j] == before[i];
          assert newCols[j] == before[i];
        }
        assert FreshOf(existing, newCols[..n]) == before + [newCols[n - 1]];
      }
    }
  }

  lemma {:induction false} PlacedFromStep(have: seq<Column>, key: string, cols: seq<Column>, d: Column)
    requires cols != [] && d == cols[|cols| - 1].(tableKey := key, position := |have| + |cols| - 1)
    ensures have + PlacedFrom(key, cols[..|cols| - 1], |have|) + [d] == have + PlacedFrom(key, cols, |have|)
  {}

  lemma {:induction false} ExtendColumns(db: Db, key: string, cols: seq<Column>)
    requires key in db.physical
    ensures ColumnsOf(Extend(db, key, cols).columns, key)
          == ColumnsOf(db.columns, key) + PlacedFrom(key, cols, |ColumnsOf(db.columns, key)|)
  {
    if cols != [] {
      var n := |cols| - 1;
      var mid := Extend(db, key, cols[..n]);
      var have := ColumnsOf(db.columns, key);
      ExtendColumns(db, key, cols[..n]);
      Extend1Columns(mid, key, cols[n], key);
      PlacedFromStep(have, key, cols, NumberedIn(mid, key, cols[n]));
    }
  }

  lemma {:induction false} ExtendOther(db: Db, key: string, cols: seq<Column>, other: string)
    requires key in db.physical && other != key
    ensures ColumnsOf(Extend(db, key, cols).columns, other) == ColumnsOf(db.columns, other)
  {
    if cols != [] {
      var n := |cols| - 1;
      ExtendOther(db, key, cols[..n], other);
      Extend1Columns(Extend(db, key, cols[..n]), key, cols[n], other);
    }
  }

  function PlacedFrom(key: string, cols: seq<Column>, start: nat): (r: seq<Column>)
    ensures |r| == |cols|
    ensures forall i | 0 <= i < |r| :: r[i] == cols[i].(tableKey := key, position := start + i)
  {
    if cols == [] then []
    else PlacedFrom(key, cols[..|cols| - 1], start)
          + [cols[|cols| - 1].(tableKey := key, position := start + |cols| - 1)]
  }

  lemma {:induction false} LastIsNew(db: Db, key: string, cols: seq<Column>)
    requires key in db.physical && cols != [] && Distinct(cols)
    requires !HasName(ColumnsOf(db.columns, key), cols[|cols| - 1].name)
    ensures !HasName(ColumnsOf(Extend(db, key, cols[..|cols| - 1]).columns, key), cols[|cols| - 1].name)
  {
    var n, have := |cols| - 1, ColumnsOf(db.columns, key);
    ExtendColumns(db, key, cols[..n]);
    forall i | 0 <= i < n ensures PlacedFrom(key, cols[..n], |have|)[i].name != cols[n].name {
      assert cols[i].name != cols[n].name;
    }
    NameNotAmong(have, PlacedFrom(key, cols[..n], |have|), cols[n].name);
  }

  lemma {:induction false} ExtendKeepsInv(db: Db, key: string, cols: seq<Column>)
    requires Inv(db) && key in db.defs && Distinct(cols)
    requires forall i | 0 <= i < |cols| ::
               Addable(cols[i], Populated(db, key)) && !HasName(ColumnsOf(db.columns, key), cols[i].name)
    ensures Inv(Extend(db, key, cols))
  {
    if cols != [] {
      var n := |cols| - 1;
      ExtendKeepsInv(db, key, cols[..n]);
      LastIsNew(db, key, cols);
      ExtendRows(db, key, cols[..n]);
      Extend1KeepsInv(Extend(db, key, cols[..n]), key, cols[n]);
    }
  }

  /** Adding columns adds and removes no row. */
  lemma {:induction false} ExtendRows(db: Db, key: string, cols: seq<Column>)
    requires key in db.physical
    ensures |Extend(db, key, cols).physical[key].rows| == |db.physical[key].rows|
  {
    if cols != [] { ExtendRows(db, key, cols[..|cols| - 1]); }
  }

  lemma {:induction false} NameNotAmong(a: seq<Column>, b: seq<Column>, name: string)
    requires !HasName(a, name) && forall i | 0 <= i < |b| :: b[i].name != name
    ensures !HasName(a + b, name)
  {}

  lemma {:induction false} AddKeepsInv(db: Db, key: string, newCols: seq<Column>, now: int)
    requires Inv(db) && AddAccepted(db, key, newCols)
    ensures Inv(Added(db, key, newCols, now))
  {
    LoadedInOrder(db, key);
    var existing := ColumnsOf(db.columns, key);
    var added := FreshOf(existing, newCols);
    assert newCols[..|newCols|] == newCols;
    FreshDistinct(existing, Populated(db, key), newCols, |newCols|);
    ExtendKeepsInv(db, key, added);
    TouchKeepsInv(Extend(db, key, added), key, now);
  }

  lemma {:induction false} TouchKeepsInv(db: Db, key: string, now: int)
    requires Inv(db)
    ensures Inv(TouchDef(db, key, now))
  {}

  /** AddColumns appends the fresh columns in order, numbered after the existing ones, and touches no other table. */
  lemma {:induction false} AddedColumns(db: Db, key: string, newCols: seq<Column>, now: int)
    requires Inv(db) && AddAccepted(db, key, newCols)
    ensures var have := ColumnsOf(db.columns, key);
            ColumnsOf(Added(db, key, newCols, now).columns, key)
            == have + PlacedFrom(key, FreshOf(have, newCols), |have|)
  {
    LoadedInOrder(db, key);
    ExtendColumns(db, key, FreshOf(ColumnsOf(db.columns, key), newCols));
  }

  /** It dates the definition, and leaves its other fields and every other definition as they were. */
  lemma {:induction false} AddedDef(db: Db, key: string, newCols: seq<Column>, now: int)
    requires Inv(db) && AddAccepted(db, key, newCols)
    ensures var after := Added(db, key, newCols, now);
            && after.defs.Keys == db.defs.Keys && (forall k | k in db.defs && k != key :: after.defs[k] == db.defs[k])
            && after.defs[key].updatedAt == now && after.defs[key].createdAt == db.defs[key].createdAt
            && after.defs[key].name == db.defs[key].name && after.defs[key].description == db.defs[key].description
  {}

  lemma {:induction false} AddAppends(db: Db, k: string, newCols: seq<Column>, now: int, key: string)
    requires Inv(db) && AddAccepted(db, k, newCols)
    ensures ColumnsOf(db.columns, key) <= ColumnsOf(Added(db, k, newCols, now).columns, key)
  {
    if k == key {
      AddedColumns(db, key, newCols, now);
    } else {
      ExtendOther(db, k, FreshOf(LoadColumns(db, k), newCols), key);
    }
  }

  lemma {:induction false} DropKeepsInv(db: Db, key: string)
    requires Inv(db)
    ensures Inv(Dropped(db, key))
  {
    var after := Dropped(db, key);
    forall k | k in after.defs ensures KeyOk(after, k) {
      ColumnsOfCascaded(db.columns, key, k);
      KeyOkFrame(db, after, k);
    }
  }

  // ---- when records are accepted ----

  /** A value that a column takes: null where it allows null, otherwise one of the column's own kind. */
  predicate Takes(c: Column, v: GoValue) {
    match v
    case Nil => c.nullable
    case Number(_) => c.colType == "integer" || c.colType == "real"
    case Bool(_) => c.colType == "boolean"
    case Text(_) => c.colType == "text"
    case Other => false
  }

  /** Some registered column of the table has that name and takes the value. */
  predicate TakenBy(db: Db, key: string, name: string, v: GoValue) {
    exists c | c in db.columns :: c.tableKey == key && c.name == name && Takes(c, v)
  }

  /** Every supplied field is taken. */
  predicate FieldsTaken(db: Db, key: string, data: map<string, GoValue>) {
    forall name | name in data :: TakenBy(db, key, name, data[name])
  }

  /** Every registered column of the table is supplied, allows null, or has a default that is not NULL. */
  predicate Covered(db: Db, key: string, data: map<string, GoValue>) {
    forall c | c in db.columns && c.tableKey == key :: c.name in data || Backfills(c) || c.nullable
  }

  lemma {:induction false} TakesIsValid(c: Column, v: GoValue)
    requires ValidColumn(c)
    ensures ValidValue(c, v) <==> Takes(c, v)
  {}

  lemma {:induction false} OwnColumn(db: Db, key: string, c: Column)
    requires Inv(db) && key in db.defs
    ensures c in db.columns && c.tableKey == key <==> c in LoadColumns(db, key)
  {
    LoadedInOrder(db, key);
    if c in db.columns && c.tableKey == key { ColumnsOfHas(db.columns, c); }
  }

  predicate ValidFor(cols: seq<Column>, name: string, v: GoValue) {
    exists i | 0 <= i < |cols| :: cols[i].name == name && ValidValue(cols[i], v)
  }

  lemma {:induction false} TakenIsValid(db: Db, key: string, name: string, v: GoValue)
    requires Inv(db) && key in db.defs && TakenBy(db, key, name, v)
    ensures ValidFor(LoadColumns(db, key), name, v)
  {
    var c :| c in db.columns && c.tableKey == key && c.name == name && Takes(c, v);
    OwnColumn(db, key, c);
    LoadedIsValid(db, key, c);
    TakesIsValid(c, v);
  }

  lemma {:induction false} ValidIsTaken(db: Db, key: string, name: string, v: GoValue)
    requires Inv(db) && key in db.defs && ValidFor(LoadColumns(db, key), name, v)
    ensures TakenBy(db, key, name, v)
  {
    var cols := LoadColumns(db, key);
    var i :| 0 <= i < |cols| && cols[i].name == name && ValidValue(cols[i], v);
    OwnColumn(db, key, cols[i]);
    LoadedIsValid(db, key, cols[i]);
    TakesIsValid(cols[i], v);
  }

  lemma {:induction false} LoadedIsValid(db: Db, key: string, c: Column)
    requires Inv(db) && key in db.defs && c in LoadColumns(db, key)
    ensures ValidColumn(c)
  {
    LoadedInOrder(db, key);
    assert KeyOk(db, key);
  }

  lemma {:induction false} FieldMeans(db: Db, key: string, name: string, v: GoValue)
    requires Inv(db) && key in db.defs
    ensures TakenBy(db, key, name, v) <==> ValidFor(LoadColumns(db, key), name, v)
  {
    if TakenBy(db, key, name, v) { TakenIsValid(db, key, name, v); }
    if ValidFor(LoadColumns(db, key), name, v) { ValidIsTaken(db, key, name, v); }
  }

  lemma {:induction false} ValidForAll(cols: seq<Column>, data: map<string, GoValue>)
    requires Distinct(cols)
    ensures (forall name | name in data :: ValidFor(cols, name, data[name])) <==>
            data.Keys <= Names(cols)
            && forall i | 0 <= i < |cols| && cols[i].name in data :: ValidValue(cols[i], data[cols[i].name])
  {
    if forall name | name in data :: ValidFor(cols, name, data[name]) {
      forall i | 0 <= i < |cols| && cols[i].name in data ensures ValidValue(cols[i], data[cols[i].name]) {
        assert ValidFor(cols, cols[i].name, data[cols[i].name]);
      }
    } else {
      var name :| name in data && !ValidFor(cols, name, data[name]);
      if name in Names(cols) {
        var i :| 0 <= i < |cols| && cols[i].name == name;
        assert !ValidValue(cols[i], data[cols[i].name]);
      }
    }
  }

  lemma {:induction false} FieldsMean(db: Db, key: string, data: map<string, GoValue>)
    requires Inv(db) && key in db.defs
    ensures var cols := LoadColumns(db, key);
            FieldsTaken(db, key, data) <==>
              data.Keys <= Names(cols)
              && forall i | 0 <= i < |cols| && cols[i].name in data :: ValidValue(cols[i], data[cols[i].name])
  {
    var cols := LoadColumns(db, key);
    LoadedInOrder(db, key);
    assert KeyOk(db, key);
    forall name | name in data ensures TakenBy(db, key, name, data[name]) <==> ValidFor(cols, name, data[name]) {
      FieldMeans(db, key, name, data[name]);
    }
    ValidForAll(cols, data);
  }

  /** An update is accepted exactly when the table exists and every supplied field is taken. */
  lemma {:induction false} UpdateDecided(db: Db, key: string, data: map<string, GoValue>)
    requires Inv(db)
    ensures UpdateAccepted(db, key, data) <==> key in db.defs && FieldsTaken(db, key, data)
  {
    if key in db.defs { FieldsMean(db, key, data); }
  }

  lemma {:induction false} CoveredMeans(db: Db, key: string, data: map<string, GoValue>)
    requires Inv(db) && key in db.defs
    ensures var cols := LoadColumns(db, key);
            Covered(db, key, data) <==>
              forall i | 0 <= i < |cols| :: cols[i].name in data || cols[i].nullable || Backfills(cols[i])
  {
    var cols := LoadColumns(db, key);
    forall c: Column ensures c in db.columns && c.tableKey == key <==> c in cols {
      OwnColumn(db, key, c);
    }
  }

  /** Without a NULL that it forbids: what the constraint on the physical table adds to the engine's own checks. */
  lemma {:induction false} NotNullMeans(cols: seq<Column>, data: map<string, GoValue>)
    requires Distinct(cols) && forall i | 0 <= i < |cols| :: ValidColumn(cols[i])
    requires forall i | 0 <= i < |cols| && cols[i].name in data :: ValidValue(cols[i], data[cols[i].name])
    ensures NotNullHolds(WrittenAll(cols), RowVals(WrittenAll(cols), BindAll(data))) <==>
            forall i | 0 <= i < |cols| ::
              cols[i].name in data || cols[i].nullable || DefaultValue(WrittenLiteral(cols[i])) != Null
  {
    var pcols := WrittenAll(cols);
    var vals := RowVals(pcols, BindAll(data));
    WrittenDistinct(cols);
    forall i | 0 <= i < |cols|
      ensures pcols[i].notNull && pcols[i].name in vals ==> vals[pcols[i].name] != Null <==>
              cols[i].name in data || cols[i].nullable || DefaultValue(WrittenLiteral(cols[i])) != Null
    {
      RowValsAt(pcols, BindAll(data), i);
      if cols[i].name in data { BoundFits(cols[i], data[cols[i].name]); }
    }
  }

  lemma {:induction false} RowDecided(cols: seq<Column>, data: map<string, GoValue>)
    requires Distinct(cols) && forall i | 0 <= i < |cols| :: ValidColumn(cols[i])
    ensures DataAccepted(cols, data) && NotNullHolds(WrittenAll(cols), RowVals(WrittenAll(cols), BindAll(data))) <==>
            data.Keys <= Names(cols)
            && (forall i | 0 <= i < |cols| && cols[i].name in data :: ValidValue(cols[i], data[cols[i].name]))
            && forall i | 0 <= i < |cols| :: cols[i].name in data || cols[i].nullable || Backfills(cols[i])
  {
    if forall i | 0 <= i < |cols| && cols[i].name in data :: ValidValue(cols[i], data[cols[i].name]) {
      NotNullMeans(cols, data);
    }
  }

  /**
   * An insert is accepted exactly when the table exists, the id is free, every supplied field is taken, and every
   * column left out allows null or has a default that is not NULL.
   */
  lemma {:induction false} InsertDecided(db: Db, key: string, id: string, data: map<string, GoValue>)
    requires Inv(db)
    ensures InsertAccepted(db, key, id, data) <==>
            key in db.defs && key in db.physical && FieldsTaken(db, key, data) && Covered(db, key, data)
            && forall i | 0 <= i < |db.physical[key].rows| :: db.physical[key].rows[i].id != id
  {
    if key in db.defs {
      LoadedInOrder(db, key);
      assert KeyOk(db, key);
      FieldsMean(db, key, data);
      CoveredMeans(db, key, data);
      RowDecided(LoadColumns(db, key), data);
      IdFree(db.physical[key].rows, id);
    }
  }

  lemma {:induction false} IdFree(rows: seq<Row>, id: string)
    ensures !HasId(rows, id) <==> forall i | 0 <= i < |rows| :: rows[i].id != id
  {}

  lemma {:induction false} AppendedRowKeepsInv(db: Db, key: string, row: Row)
    requires Inv(db) && key in db.defs && !HasId(db.physical[key].rows, row.id)
    requires Fits(ColumnsOf(db.columns, key), row.vals)
    ensures Inv(SetRows(db, key, db.physical[key].rows + [row]))
  {
    assert KeyOk(db, key);
    AppendedIds(db.physical[key].rows, row);
    SetRowsKeepsInv(db, key, db.physical[key].rows + [row]);
  }

  lemma {:induction false} AppendedIds(rows: seq<Row>, row: Row)
    requires DistinctIds(rows) && !HasId(rows, row.id)
    ensures DistinctIds(rows + [row])
  {}

  lemma {:induction false} InsertKeepsInv(db: Db, key: string, id: string, flagCtx: Option<string>, now: int,
          data: map<string, GoValue>)
    requires Inv(db) && InsertAccepted(db, key, id, data)
    ensures Inv(Inserted(db, key, id, flagCtx, now, data))
  {
    LoadedInOrder(db, key);
    assert KeyOk(db, key);
    NewRowFits(ColumnsOf(db.columns, key), data);
    AppendedRowKeepsInv(db, key, NewRow(db, key, id, flagCtx, now, data));
  }

  lemma {:induction false} PatchedRowsFit(cols: seq<Column>, rows: seq<Row>, id: string, data: map<string, GoValue>,
          now: int)
    requires SchemaOk(cols) && data.Keys <= Names(cols) && forall i | 0 <= i < |rows| :: Fits(cols, rows[i].vals)
    requires forall i | 0 <= i < |cols| && cols[i].name in data :: ValidValue(cols[i], data[cols[i].name])
    ensures forall i | 0 <= i < |rows| :: Fits(cols, Patched(rows, id, BindAll(data), now)[i].vals)
  {
    forall i | 0 <= i < |rows| ensures Fits(cols, Patched(rows, id, BindAll(data), now)[i].vals) {
      PatchFits(cols, rows[i].vals, data);
    }
  }

  lemma {:induction false} PatchedDistinct(rows: seq<Row>, id: string, patch: map<string, Value>, now: int)
    requires DistinctIds(rows)
    ensures DistinctIds(Patched(rows, id, patch, now))
  {}

  lemma {:induction false} UpdateKeepsInv(db: Db, key: string, id: string, data: map<string, GoValue>, now: int)
    requires Inv(db) && UpdateAccepted(db, key, data)
    ensures Inv(Updated(db, key, id, data, now))
  {
    LoadedInOrder(db, key);
    assert KeyOk(db, key);
    var rows := db.physical[key].rows;
    PatchedRowsFit(ColumnsOf(db.columns, key), rows, id, data, now);
    PatchedDistinct(rows, id, BindAll(data), now);
    SetRowsKeepsInv(db, key, Patched(rows, id, BindAll(data), now));
  }

  lemma {:induction false} FilteredRowsKeepInv(db: Db, key: string, rows: seq<Row>)
    requires Inv(db) && key in db.defs && DistinctIds(rows)
    requires forall i | 0 <= i < |rows| :: rows[i] in db.physical[key].rows
    ensures Inv(SetRows(db, key, rows))
  {
    assert KeyOk(db, key);
    SetRowsKeepsInv(db, key, rows);
  }

  lemma {:induction false} DeleteKeepsInv(db: Db, key: string, id: string)
    requires Inv(db) && key in db.defs
    ensures Inv(SetRows(db, key, Removed(db.physical[key].rows, id)))
  {
    assert KeyOk(db, key);
    RemovedDistinct(db.physical[key].rows, id);
    FilteredRowsKeepInv(db, key, Removed(db.physical[key].rows, id));
  }

  lemma {:induction false} RollbackKeepsInv(db: Db, key: string, ctx: string)
    requires Inv(db) && key in db.defs
    ensures Inv(SetRows(db, key, RolledBack(db.physical[key].rows, ctx)))
  {
    assert KeyOk(db, key);
    RolledBackDistinct(db.physical[key].rows, ctx);
    FilteredRowsKeepInv(db, key, RolledBack(db.physical[key].rows, ctx));
  }

  lemma {:induction false} PromotedDistinct(rows: seq<Row>, ctx: string)
    requires DistinctIds(rows)
    ensures DistinctIds(Promoted(rows, ctx))
  {}

  lemma {:induction false} PromoteKeepsInv(db: Db, key: string, ctx: string)
    requires Inv(db) && key in db.defs
    ensures Inv(SetRows(db, key, Promoted(db.physical[key].rows, ctx)))
  {
    assert KeyOk(db, key);
    PromotedDistinct(db.physical[key].rows, ctx);
    SetRowsKeepsInv(db, key, Promoted(db.physical[key].rows, ctx));
  }

  lemma {:induction false} SchemaOpKeepsInv(db: Db, op: Op)
    requires Inv(db) && Accepted(db, op) && (op.Create? || op.Add? || op.Drop?)
    ensures Inv(Apply(db, op))
  {
    match op
    case Create(key, def, cols) => CreateKeepsInv(db, key, def, cols);
    case Add(key, newCols, now) => AddKeepsInv(db, key, newCols, now);
    case Drop(key) => DropKeepsInv(db, key);
  }

  lemma {:induction false} WriteOpKeepsInv(db: Db, op: Op)
    requires Inv(db) && Accepted(db, op) && (op.Insert? || op.Update?)
    ensures Inv(Apply(db, op))
  {
    match op
    case Insert(key, id, flagCtx, now, data) => InsertKeepsInv(db, key, id, flagCtx, now, data);
    case Update(key, id, data, now) => UpdateKeepsInv(db, key, id, data, now);
  }

  lemma {:induction false} SweepOpKeepsInv(db: Db, op: Op)
    requires Inv(db) && Accepted(db, op) && (op.Delete? || op.Rollback? || op.Promote?)
    ensures Inv(Apply(db, op))
  {
    match op
    case Delete(key, id) => DeleteKeepsInv(db, key, id);
    case Rollback(key, ctx) => RollbackKeepsInv(db, key, ctx);
    case Promote(key, ctx) => PromoteKeepsInv(db, key, ctx);
  }

  /** Every call of the engine, accepted or not, keeps the invariant. */
  lemma {:induction false} ApplyKeepsInv(db: Db, op: Op)
    requires Inv(db)
    ensures Inv(Apply(db, op))
  {
    if Accepted(db, op) {
      if op.Create? || op.Add? || op.Drop? { SchemaOpKeepsInv(db, op); }
      else if op.Insert? || op.Update? { WriteOpKeepsInv(db, op); }
      else { SweepOpKeepsInv(db, op); }
    }
  }

  const EMPTY_DB := Db(map[], [], map[])

  /** Over every run the registry and the physical tables agree and every row is well typed. */
  lemma {:induction false} RunKeepsInv(db: Db, ops: seq<Op>)
    requires Inv(db)
    ensures Inv(Run(db, ops))
  {
    if ops != [] {
      RunKeepsInv(db, ops[..|ops| - 1]);
      ApplyKeepsInv(Run(db, ops[..|ops| - 1]), ops[|ops| - 1]);
    }
  }

  lemma {:induction false} SchemaOpAppends(db: Db, op: Op, key: string)
    requires Inv(db) && key in db.defs && op != Drop(key) && Accepted(db, op) && (op.Create? || op.Add? || op.Drop?)
    ensures key in Apply(db, op).defs
    ensures ColumnsOf(db.columns, key) <= ColumnsOf(Apply(db, op).columns, key)
  {
    match op
    case Create(k, def, cols) => CreatedColumns(db, k, def, cols, key);
    case Add(k, newCols, now) => AddAppends(db, k, newCols, now, key);
    case Drop(k) => ColumnsOfCascaded(db.columns, k, key);
  }

  /** One call that does not delete the table leaves its columns as they were, or appends to them. */
  lemma {:induction false} ApplyAppends(db: Db, op: Op, key: string)
    requires Inv(db) && key in db.defs && op != Drop(key)
    ensures key in Apply(db, op).defs
    ensures ColumnsOf(db.columns, key) <= ColumnsOf(Apply(db, op).columns, key)
  {
    if Accepted(db, op) {
      if op.Create? || op.Add? || op.Drop? { SchemaOpAppends(db, op, key); } else { RowOpsKeepSchema(db, op); }
    }
  }

  lemma {:induction false} RowOpsKeepSchema(db: Db, op: Op)
    requires !op.Create? && !op.Add? && !op.Drop?
    ensures Apply(db, op).defs == db.defs && Apply(db, op).columns == db.columns
  {}

  /** Schema evolution is append-only: until a table is deleted its column list only grows at the end. */
  lemma {:induction false} RunAppends(db: Db, ops: seq<Op>, key: string)
    requires Inv(db) && key in db.defs
    requires Drop(key) !in ops
    ensures key in Run(db, ops).defs
    ensures ColumnsOf(db.columns, key) <= ColumnsOf(Run(db, ops).columns, key)
  {
    if ops != [] {
      var n := |ops| - 1;
      RunAppends(db, ops[..n], key);
      RunKeepsInv(db, ops[..n]);
      ApplyAppends(Run(db, ops[..n]), ops[n], key);
    }
  }
}
