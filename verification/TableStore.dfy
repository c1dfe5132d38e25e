/**
 * The table engine's database as a value: the schema registry, the physical tables and the
 * statements the engine sends, each with the constraints that the database enforces.
 */
module TableStore {
  import opened Wrappers
  import opened Ddl

  datatype Value = Null | Num(n: real) | Str(s: string)

  datatype Row = Row(id: string, flagCtx: Option<string>, createdAt: int, updatedAt: int, vals: map<string, Value>)

  datatype Physical = Physical(cols: seq<PhysCol>, rows: seq<Row>)

  datatype Def = Def(name: string, description: string, createdAt: int, updatedAt: int)

  /** table_definitions by key, the rows of table_columns, and the table tbl_<key> of each key. */
  datatype Db = Db(defs: map<string, Def>, columns: seq<Column>, physical: map<string, Physical>)

  // ---- the registry ----

  /** The rows of table_columns for one table, in insertion order. */
  function ColumnsOf(columns: seq<Column>, key: string): (r: seq<Column>)
    ensures forall i | 0 <= i < |r| :: r[i].tableKey == key && r[i] in columns
  {
    if columns == [] then []
    else
      var n := |columns| - 1;
      var front := ColumnsOf(columns[..n], key);
      if columns[n].tableKey == key then front + [columns[n]] else front
  }

  function InsertByPosition(s: seq<Column>, c: Column): seq<Column> {
    if s == [] || s[|s| - 1].position <= c.position then s + [c]
    else InsertByPosition(s[..|s| - 1], c) + [s[|s| - 1]]
  }

  /** ORDER BY position ASC */
  function ByPosition(s: seq<Column>): seq<Column> {
    if s == [] then [] else InsertByPosition(ByPosition(s[..|s| - 1]), s[|s| - 1])
  }

  function LoadColumns(db: Db, key: string): seq<Column> {
    ByPosition(ColumnsOf(db.columns, key))
  }

  predicate Numbered(cols: seq<Column>) {
    forall i | 0 <= i < |cols| :: cols[i].position == i
  }

  lemma {:induction false} NumberedIsOrdered(cols: seq<Column>)
    requires Numbered(cols)
    ensures ByPosition(cols) == cols
  {
    if cols != [] {
      var front, last := cols[..|cols| - 1], cols[|cols| - 1];
      NumberedIsOrdered(front);
      AppendsInOrder(front, last);
      assert cols == front + [last];
    }
  }

  lemma {:induction false} AppendsInOrder(s: seq<Column>, c: Column)
    requires s == [] || s[|s| - 1].position <= c.position
    ensures InsertByPosition(s, c) == s + [c]
  {}

  lemma {:induction false} InsertByPositionMembers(s: seq<Column>, c: Column)
    ensures multiset(InsertByPosition(s, c)) == multiset(s) + multiset{c}
  {
    if s != [] && s[|s| - 1].position > c.position {
      InsertByPositionMembers(s[..|s| - 1], c);
      assert s == s[..|s| - 1] + [s[|s| - 1]];
    }
  }

  /** Loading loses and repeats no column. */
  lemma {:induction false} ByPositionMembers(s: seq<Column>)
    ensures multiset(ByPosition(s)) == multiset(s)
  {
    if s != [] {
      ByPositionMembers(s[..|s| - 1]);
      InsertByPositionMembers(ByPosition(s[..|s| - 1]), s[|s| - 1]);
      assert s == s[..|s| - 1] + [s[|s| - 1]];
    }
  }

  predicate InPositionOrder(s: seq<Column>) {
    forall i, j | 0 <= i < j < |s| :: s[i].position <= s[j].position
  }

  lemma {:induction false} InsertByPositionSorted(s: seq<Column>, c: Column)
    requires InPositionOrder(s)
    ensures InPositionOrder(InsertByPosition(s, c))
  {
    if s != [] && s[|s| - 1].position > c.position {
      var front, last := s[..|s| - 1], s[|s| - 1];
      InsertByPositionSorted(front, c);
      InsertByPositionMembers(front, c);
      var placed := InsertByPosition(front, c);
      forall i | 0 <= i < |placed| ensures placed[i].position <= last.position {
        assert placed[i] in multiset(placed);
        if placed[i] != c { assert placed[i] in front; }
      }
    }
  }

  /** The columns are loaded in the order of their positions. */
  lemma {:induction false} ByPositionSorted(s: seq<Column>)
    ensures InPositionOrder(ByPosition(s))
  {
    if s != [] {
      ByPositionSorted(s[..|s| - 1]);
      InsertByPositionSorted(ByPosition(s[..|s| - 1]), s[|s| - 1]);
    }
  }

  lemma {:induction false} ColumnsOfAppend(a: seq<Column>, b: seq<Column>, key: string)
    ensures ColumnsOf(a + b, key) == ColumnsOf(a, key) + ColumnsOf(b, key)
  {
    if b == [] {
      assert a + b == a;
    } else {
      var n := |b| - 1;
      ColumnsOfAppend(a, b[..n], key);
      assert (a + b)[..|a + b| - 1] == a + b[..n];
    }
  }

  lemma {:induction false} ColumnsOfOwn(columns: seq<Column>, key: string)
    requires forall i | 0 <= i < |columns| :: columns[i].tableKey == key
    ensures ColumnsOf(columns, key) == columns
  {
    if columns != [] {
      ColumnsOfOwn(columns[..|columns| - 1], key);
    }
  }

  lemma {:induction false} ColumnsOfOthers(columns: seq<Column>, key: string)
    requires forall i | 0 <= i < |columns| :: columns[i].tableKey != key
    ensures ColumnsOf(columns, key) == []
  {
    if columns != [] {
      ColumnsOfOthers(columns[..|columns| - 1], key);
    }
  }

  lemma {:induction false} ColumnsOfHas(columns: seq<Column>, c: Column)
    requires c in columns
    ensures c in ColumnsOf(columns, c.tableKey)
  {
    var n := |columns| - 1;
    if c != columns[n] {
      assert columns == columns[..n] + [columns[n]];
      ColumnsOfHas(columns[..n], c);
    }
  }

  /** The rows of every other table: what ON DELETE CASCADE leaves. */
  function Cascaded(columns: seq<Column>, key: string): (r: seq<Column>)
    ensures forall i | 0 <= i < |r| :: r[i].tableKey != key && r[i] in columns
  {
    if columns == [] then []
    else
      var n := |columns| - 1;
      var front := Cascaded(columns[..n], key);
      if columns[n].tableKey == key then front else front + [columns[n]]
  }

  lemma {:induction false} ColumnsOfCascaded(columns: seq<Column>, gone: string, key: string)
    requires key != gone
    ensures ColumnsOf(Cascaded(columns, gone), key) == ColumnsOf(columns, key)
  {
    if columns != [] {
      var n := |columns| - 1;
      var front := Cascaded(columns[..n], gone);
      ColumnsOfCascaded(columns[..n], gone, key);
      assert (front + [columns[n]])[..|front|] == front;
    }
  }

  predicate HasName(cols: seq<Column>, name: string) {
    exists i | 0 <= i < |cols| :: cols[i].name == name
  }

  predicate Distinct(cols: seq<Column>) {
    forall i, j | 0 <= i < j < |cols| :: cols[i].name != cols[j].name
  }

  function Names(cols: seq<Column>): set<string> {
    set i | 0 <= i < |cols| :: cols[i].name
  }

  // ---- statements on the registry ----

  function InsertDef(db: Db, key: string, def: Def): Outcome<Db> {
    if key in db.defs then Failed else Done(db.(defs := db.defs[key := def]))
  }

  /** Foreign key on table_definitions and UNIQUE(table_key, name). */
  function InsertColumn(db: Db, c: Column): Outcome<Db> {
    if c.tableKey !in db.defs || HasName(ColumnsOf(db.columns, c.tableKey), c.name) then Failed
    else Done(db.(columns := db.columns + [c]))
  }

  function DeleteDef(db: Db, key: string): Db {
    db.(defs := db.defs - {key}, columns := Cascaded(db.columns, key))
  }

  function TouchDef(db: Db, key: string, now: int): Db {
    if key in db.defs then db.(defs := db.defs[key := db.defs[key].(updatedAt := now)]) else db
  }

  // ---- DDL statements ----

  predicate PhysNamed(cols: seq<PhysCol>, name: string) {
    exists i | 0 <= i < |cols| :: cols[i].name == name
  }

  predicate PhysDistinct(cols: seq<PhysCol>) {
    forall i, j | 0 <= i < j < |cols| :: cols[i].name != cols[j].name
  }

  function Pow10(n: nat): (r: int)
    ensures r > 0
  {
    if n == 0 then 1 else 10 * Pow10(n - 1)
  }

  function DigitsValue(s: string): int {
    if s == "" then 0 else 10 * DigitsValue(s[..|s| - 1]) + (s[|s| - 1] as int - '0' as int)
  }

  function UnsignedValue(s: string): real {
    var d := DotAt(s);
    DigitsValue(s[..d]) as real
    + if d == |s| then 0.0 else DigitsValue(s[d + 1..]) as real / Pow10(|s| - d - 1) as real
  }

  function NumeralValue(s: string): real {
    if s != "" && s[0] == '-' then -UnsignedValue(s[1..]) else UnsignedValue(s)
  }

  function DefaultValue(l: Literal): Value {
    match l
    case NumLit(t) => Num(NumeralValue(t))
    case TextLit(v) => Str(v)
    case _ => Null
  }

  function Digit(n: nat): char
    requires n < 10
  {
    '0' + n as char
  }

  /** A number written out in decimal. */
  function Decimal(n: nat): string {
    if n < 10 then [Digit(n)] else Decimal(n / 10) + [Digit(n % 10)]
  }

  /** A whole number reads back from its decimal notation. */
  lemma {:induction false} DecimalReads(n: nat)
    ensures Digits(Decimal(n)) && DigitsValue(Decimal(n)) == n && Decimal(n) != ""
  {
    if n < 10 {
      assert [Digit(n)][..0] == "";
      assert DigitsValue("") == 0;
    } else {
      DecimalReads(n / 10);
      DigitAppended(Decimal(n / 10), Digit(n % 10));
    }
  }

  lemma {:induction false} DigitAppended(s: string, c: char)
    ensures DigitsValue(s + [c]) == 10 * DigitsValue(s) + (c as int - '0' as int)
  {
    assert (s + [c])[..|s|] == s;
  }

  lemma {:induction false} DigitsJoined(a: string, b: string)
    ensures DigitsValue(a + b) == DigitsValue(a) * Pow10(|b|) + DigitsValue(b)
  {
    if b == "" {
      assert a + b == a;
    } else {
      var front, last := b[..|b| - 1], b[|b| - 1];
      DigitsJoined(a, front);
      DigitAppended(a + front, last);
      DigitAppended(front, last);
      assert a + b == (a + front) + [last] && b == front + [last];
      TenTimes(DigitsValue(a), Pow10(|front|));
    }
  }

  lemma {:induction false} TenTimes(x: int, p: int)
    ensures 10 * (x * p) == x * (10 * p)
  {}

  lemma {:induction false} DotAfter(whole: string, rest: string)
    requires Digits(whole) && (rest == "" || rest[0] == '.')
    ensures DotAt(whole + rest) == |whole|
  {
    if whole == "" {
      assert whole + rest == rest;
    } else {
      assert (whole + rest)[1..] == whole[1..] + rest;
      DotAfter(whole[1..], rest);
    }
  }

  /** A numeral without a sign or a point is the number its digits spell. */
  lemma {:induction false} WholeReads(n: nat)
    ensures NumeralValue(Decimal(n)) == n as real && NumeralValue("-" + Decimal(n)) == -(n as real)
  {
    DecimalReads(n);
    DotAfter(Decimal(n), "");
    assert Decimal(n) + "" == Decimal(n) && Decimal(n)[..|Decimal(n)|] == Decimal(n);
    assert ("-" + Decimal(n))[1..] == Decimal(n);
  }

  /** With a point, the digits after it count as that many places after the point. */
  lemma {:induction false} FractionReads(whole: string, part: string)
    requires Digits(whole)
    ensures UnsignedValue(whole + "." + part)
            == DigitsValue(whole) as real + DigitsValue(part) as real / Pow10(|part|) as real
  {
    var s := whole + "." + part;
    assert s == whole + ("." + part);
    DotAfter(whole, "." + part);
    assert s[..|whole|] == whole && s[|whole| + 1..] == part && |s| - |whole| - 1 == |part|;
  }

  predicate IsTableName(name: string) {
    |name| > 4 && name[..4] == "tbl_"
  }

  /** Runs a CREATE TABLE IF NOT EXISTS statement given as text. */
  function ExecCreate(db: Db, text: string): Outcome<Db> {
    match ParseCreate(text)
    case None => Failed
    case Some(t) =>
      if !IsTableName(t.name) || |t.cols| < 4 || t.cols[..4] != SystemCols() || !PhysDistinct(t.cols) then Failed
      else if t.name[4..] in db.physical then Done(db)
      else Done(db.(physical := db.physical[t.name[4..] := Physical(t.cols[4..], [])]))
  }

  function WidenRow(r: Row, p: PhysCol): Row {
    r.(vals := r.vals[p.name := DefaultValue(p.dflt)])
  }

  /** Every stored row gets the default of a new column. */
  function WithColumn(rows: seq<Row>, p: PhysCol): (r: seq<Row>)
    ensures |r| == |rows|
    ensures forall i | 0 <= i < |r| :: r[i] == WidenRow(rows[i], p)
  {
    if rows == [] then [] else WithColumn(rows[..|rows| - 1], p) + [WidenRow(rows[|rows| - 1], p)]
  }

  /**
   * Runs an ALTER TABLE ... ADD COLUMN statement given as text. While the table has rows, a NOT NULL column
   * needs a default other than NULL, and the default must be constant.
   */
  function ExecAlter(db: Db, text: string): Outcome<Db> {
    match ParseAlter(text)
    case None => Failed
    case Some((name, p)) =>
      if !IsTableName(name) || name[4..] !in db.physical then Failed
      else
        var was := db.physical[name[4..]];
        if PhysNamed(SystemCols() + was.cols, p.name) || p.primary then Failed
        else if was.rows != [] && (p.dflt == ClockLit || (p.notNull && DefaultValue(p.dflt) == Null)) then Failed
        else Done(db.(physical := db.physical[name[4..] := Physical(was.cols + [p], WithColumn(was.rows, p))]))
  }

  function DropPhysical(db: Db, key: string): Db {
    db.(physical := db.physical - {key})
  }

  // ---- statements on rows ----

  predicate HasId(rows: seq<Row>, id: string) {
    exists i | 0 <= i < |rows| :: rows[i].id == id
  }

  function Zip(names: seq<string>, vals: seq<Value>): map<string, Value>
    requires |names| == |vals|
  {
    if names == [] then map[]
    else
      var n := |names| - 1;
      Zip(names[..n], vals[..n])[names[n] := vals[n]]
  }

  /** The values of a new row: those supplied, and the column defaults elsewhere. */
  function RowVals(cols: seq<PhysCol>, supplied: map<string, Value>): map<string, Value> {
    if cols == [] then map[]
    else
      var c := cols[|cols| - 1];
      RowVals(cols[..|cols| - 1], supplied)
        [c.name := if c.name in supplied then supplied[c.name] else DefaultValue(c.dflt)]
  }

  predicate NotNullHolds(cols: seq<PhysCol>, vals: map<string, Value>) {
    forall i | 0 <= i < |cols| :: cols[i].notNull && cols[i].name in vals ==> vals[cols[i].name] != Null
  }

  predicate NamesKnown(cols: seq<PhysCol>, vals: map<string, Value>) {
    forall name | name in vals :: PhysNamed(cols, name)
  }

  function ExecInsert(db: Db, key: string, id: string, flagCtx: Option<string>, now: int,
                      names: seq<string>, vals: seq<Value>): Outcome<Db>
    requires |names| == |vals|
  {
    if key !in db.physical then Failed
    else
      var t := db.physical[key];
      var supplied := Zip(names, vals);
      var row := RowVals(t.cols, supplied);
      if HasId(t.rows, id) || !NamesKnown(t.cols, supplied) || !NotNullHolds(t.cols, row) then Failed
      else Done(db.(physical := db.physical[key := t.(rows := t.rows + [Row(id, flagCtx, now, now, row)])]))
  }

  function PatchRow(r: Row, id: string, patch: map<string, Value>, now: int): Row {
    if r.id == id then r.(vals := r.vals + patch, updatedAt := now) else r
  }

  /** UPDATE ... WHERE _id = id, touching _updated_at. */
  function Patched(rows: seq<Row>, id: string, patch: map<string, Value>, now: int): (r: seq<Row>)
    ensures |r| == |rows|
    ensures forall i | 0 <= i < |r| :: r[i] == PatchRow(rows[i], id, patch, now)
  {
    if rows == [] then []
    else Patched(rows[..|rows| - 1], id, patch, now) + [PatchRow(rows[|rows| - 1], id, patch, now)]
  }

  function ExecUpdate(db: Db, key: string, id: string, names: seq<string>, vals: seq<Value>, now: int): Outcome<Db>
    requires |names| == |vals|
  {
    if key !in db.physical then Failed
    else
      var t := db.physical[key];
      var patch := Zip(names, vals);
      if !NamesKnown(t.cols, patch) then Failed
      else if HasId(t.rows, id) && !NotNullHolds(t.cols, patch) then Failed
      else Done(db.(physical := db.physical[key := t.(rows := Patched(t.rows, id, patch, now))]))
  }

  /** DELETE ... WHERE _id = id */
  function Removed(rows: seq<Row>, id: string): (r: seq<Row>)
    ensures forall i | 0 <= i < |r| :: r[i].id != id && r[i] in rows
  {
    if rows == [] then []
    else
      var n := |rows| - 1;
      var front := Removed(rows[..n], id);
      if rows[n].id == id then front else front + [rows[n]]
  }

  /** DELETE ... WHERE _flag_ctx = ctx */
  function RolledBack(rows: seq<Row>, ctx: string): (r: seq<Row>)
    ensures forall i | 0 <= i < |r| :: r[i].flagCtx != Some(ctx) && r[i] in rows
  {
    if rows == [] then []
    else
      var n := |rows| - 1;
      var front := RolledBack(rows[..n], ctx);
      if rows[n].flagCtx == Some(ctx) then front else front + [rows[n]]
  }

  /** UPDATE ... SET _flag_ctx = NULL WHERE _flag_ctx = ctx */
  function Promoted(rows: seq<Row>, ctx: string): (r: seq<Row>)
    ensures |r| == |rows|
    ensures forall i | 0 <= i < |r| :: r[i] == PromoteRow(rows[i], ctx)
  {
    if rows == [] then [] else Promoted(rows[..|rows| - 1], ctx) + [PromoteRow(rows[|rows| - 1], ctx)]
  }

  function PromoteRow(r: Row, ctx: string): Row {
    if r.flagCtx == Some(ctx) then r.(flagCtx := None) else r
  }

  function CountTagged(rows: seq<Row>, ctx: string): nat {
    if rows == [] then 0
    else CountTagged(rows[..|rows| - 1], ctx) + if rows[|rows| - 1].flagCtx == Some(ctx) then 1 else 0
  }

  function SetRows(db: Db, key: string, rows: seq<Row>): Db
    requires key in db.physical
  {
    db.(physical := db.physical[key := db.physical[key].(rows := rows)])
  }

  // ---- the invariant ----

  /** A stored value has the kind of its column, and is NULL only where the column allows it. */
  predicate FitsColumn(c: Column, v: Value) {
    match v
    case Null => c.nullable
    case Num(n) => c.colType != "text" && (c.colType == "boolean" ==> n == 0.0 || n == 1.0)
    case Str(_) => c.colType == "text"
  }

  predicate Fits(cols: seq<Column>, vals: map<string, Value>) {
    vals.Keys == Names(cols) && forall i | 0 <= i < |cols| :: FitsColumn(cols[i], vals[cols[i].name])
  }

  predicate DistinctIds(rows: seq<Row>) {
    forall i, j | 0 <= i < j < |rows| :: rows[i].id != rows[j].id
  }

  predicate SchemaOk(cols: seq<Column>) {
    Numbered(cols) && Distinct(cols) && AllGrammatical(cols) && forall i | 0 <= i < |cols| :: ValidColumn(cols[i])
  }

  /** A registered table and its physical table agree, and every row fits the registered columns. */
  predicate TableOk(cols: seq<Column>, t: Physical) {
    SchemaOk(cols) && t.cols == WrittenAll(cols) && DistinctIds(t.rows)
    && forall i | 0 <= i < |t.rows| :: Fits(cols, t.rows[i].vals)
  }

  predicate KeyOk(db: Db, key: string) {
    ValidKey(key) && key in db.physical && TableOk(ColumnsOf(db.columns, key), db.physical[key])
  }

  predicate Inv(db: Db) {
    && db.physical.Keys == db.defs.Keys
    && (forall i | 0 <= i < |db.columns| :: db.columns[i].tableKey in db.defs)
    && (forall key | key in db.defs :: KeyOk(db, key))
  }

  lemma {:induction false} LoadedInOrder(db: Db, key: string)
    requires Inv(db) && key in db.defs
    ensures LoadColumns(db, key) == ColumnsOf(db.columns, key)
  {
    NumberedIsOrdered(ColumnsOf(db.columns, key));
  }
}
