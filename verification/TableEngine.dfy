/** The table engine: its methods, step by step, against the specification. */
module TableEngine {
  import opened Wrappers
  import opened Ddl
  import opened TableStore
  import opened TableSpec
  import opened TableQuery

  // ---- what the statements of each method amount to ----

  lemma {:induction false} NamesPrefix(cols: seq<Column>, i: nat)
    requires i < |cols|
    ensures Names(cols[..i + 1]) == Names(cols[..i]) + {cols[i].name}
  {}

  lemma {:induction false} PlacedPrefix(key: string, cols: seq<Column>, i: nat)
    requires i < |cols|
    ensures Placed(key, cols[..i + 1]) == Placed(key, cols[..i]) + [cols[i].(tableKey := key, position := i)]
  {}

  /** A column of a new table is not in the registry yet. */
  lemma {:induction false} PlacedNotYet(columns: seq<Column>, key: string, cols: seq<Column>, i: nat)
    requires (forall j | 0 <= j < |columns| :: columns[j].tableKey != key) && Distinct(cols) && i < |cols|
    ensures !HasName(ColumnsOf(columns + Placed(key, cols)[..i], key), cols[i].name)
  {}

  lemma {:induction false} UserTableShape(key: string, cols: seq<Column>)
    requires (forall i | 0 <= i < |cols| :: ValidColumn(cols[i])) && Distinct(cols) && key != ""
    ensures var t := UserTable(key, cols);
            IsTableName(t.name) && t.name[4..] == key && |t.cols| >= 4 && t.cols[..4] == SystemCols()
            && t.cols[4..] == WrittenAll(cols) && PhysDistinct(t.cols)
  {}

  lemma {:induction false} PlacedSame(key: string, cols: seq<Column>)
    requires (forall i | 0 <= i < |cols| :: ValidColumn(cols[i])) && Distinct(cols)
    ensures (forall i | 0 <= i < |cols| :: ValidColumn(Placed(key, cols)[i])) && Distinct(Placed(key, cols))
    ensures WrittenAll(Placed(key, cols)) == WrittenAll(cols)
    ensures AllGrammatical(Placed(key, cols)) <==> AllGrammatical(cols)
  {}

  /** Running the CREATE text makes the physical table, unless a default does not parse. */
  lemma {:induction false} CreateRuns(db: Db, key: string, cols: seq<Column>)
    requires ValidKey(key) && key !in db.physical
    requires (forall i | 0 <= i < |cols| :: ValidColumn(cols[i])) && Distinct(cols)
    ensures PrintableTable(UserTable(key, cols))
    ensures ExecCreate(db, CreateText(UserTable(key, cols))) ==
            if AllGrammatical(cols) then Done(db.(physical := db.physical[key := Physical(WrittenAll(cols), [])]))
                  else Failed
  {
    CreateParsesTo(key, cols);
    UserTableShape(key, cols);
  }

  lemma {:induction false} FreshNames(existing: seq<Column>, newCols: seq<Column>, name: string)
    requires !HasName(existing, name)
    ensures HasName(FreshOf(existing, newCols), name) <==> HasName(newCols, name)
  {
    if newCols != [] {
      var n := |newCols| - 1;
      FreshNames(existing, newCols[..n], name);
      HasNameAppend(newCols[..n], newCols[n], name);
      assert newCols[..n] + [newCols[n]] == newCols;
      HasNameAppend(FreshOf(existing, newCols[..n]), newCols[n], name);
    }
  }

  lemma {:induction false} HasNameAppend(cols: seq<Column>, c: Column, name: string)
    ensures HasName(cols + [c], name) <==> HasName(cols, name) || c.name == name
  {
    if HasName(cols, name) {
      var i :| 0 <= i < |cols| && cols[i].name == name;
      assert (cols + [c])[i].name == name;
    }
    assert (cols + [c])[|cols|] == c;
  }

  lemma {:induction false} HasNameConcat(a: seq<Column>, b: seq<Column>, name: string)
    ensures HasName(a + b, name) <==> HasName(a, name) || HasName(b, name)
  {
    if HasName(a, name) {
      var i :| 0 <= i < |a| && a[i].name == name;
      assert (a + b)[i].name == name;
    }
    if HasName(b, name) {
      var i :| 0 <= i < |b| && b[i].name == name;
      assert (a + b)[|a| + i].name == name;
    }
  }

  lemma {:induction false} PlacedFromNames(key: string, cols: seq<Column>, start: nat, name: string)
    ensures HasName(PlacedFrom(key, cols, start), name) <==> HasName(cols, name)
  {}

  predicate Indexes(m: map<string, Column>, cols: seq<Column>) {
    m.Keys == Names(cols) && forall i | 0 <= i < |cols| :: m[cols[i].name] == cols[i]
  }

  lemma {:induction false} SameName(cols: seq<Column>, existing: map<string, Column>, c: Column)
    requires Indexes(existing, cols) && Distinct(cols) && c.name in existing
    ensures HasName(cols, c.name)
    ensures SameShape(cols, c) <==> existing[c.name].colType == c.colType && existing[c.name].nullable == c.nullable
  {}

  /** UNIQUE(table_key, name) is what rejects a duplicate inside one AddColumns call. */
  lemma {:induction false} RegisteredSoFar(db: Db, key: string, newCols: seq<Column>, i: nat)
    requires key in db.physical && i < |newCols|
    requires !HasName(ColumnsOf(db.columns, key), newCols[i].name)
    ensures var now := Extend(db, key, FreshOf(ColumnsOf(db.columns, key), newCols[..i]));
            HasName(ColumnsOf(now.columns, key), newCols[i].name) <==>
              exists j | 0 <= j < i :: newCols[j].name == newCols[i].name
  {
    assert HasName(newCols[..i], newCols[i].name) <==> exists j | 0 <= j < i :: newCols[j].name == newCols[i].name;
    var have := ColumnsOf(db.columns, key);
    var added := FreshOf(have, newCols[..i]);
    ExtendColumns(db, key, added);
    HasNameConcat(have, PlacedFrom(key, added, |have|), newCols[i].name);
    PlacedFromNames(key, added, |have|, newCols[i].name);
    FreshNames(have, newCols[..i], newCols[i].name);
  }

  /** The first n columns of a request are acceptable. */
  predicate AcceptedUpto(existing: seq<Column>, populated: bool, newCols: seq<Column>, n: nat)
    requires n <= |newCols|
  {
    n == 0 || (AcceptedUpto(existing, populated, newCols, n - 1) && AddAcceptedAt(existing, populated, newCols, n - 1))
  }

  lemma {:induction false} AcceptedUptoMeans(existing: seq<Column>, populated: bool, newCols: seq<Column>, n: nat)
    requires n <= |newCols|
    ensures AcceptedUpto(existing, populated, newCols, n) <==>
            forall i | 0 <= i < n :: AddAcceptedAt(existing, populated, newCols, i)
  {
    if n > 0 { AcceptedUptoMeans(existing, populated, newCols, n - 1); }
  }

  lemma {:induction false} FirstRejected(existing: seq<Column>, populated: bool, newCols: seq<Column>, i: nat)
    requires i < |newCols| && !AddAcceptedAt(existing, populated, newCols, i)
    ensures !AcceptedUpto(existing, populated, newCols, |newCols|)
  {
    AcceptedUptoMeans(existing, populated, newCols, |newCols|);
  }

  lemma {:induction false} FreshDecision(existing: seq<Column>, populated: bool, newCols: seq<Column>, i: nat)
    requires i < |newCols| && ValidColumn(newCols[i]) && !HasName(existing, newCols[i].name)
    requires newCols[i].nullable || newCols[i].defaultText.Some?
    ensures AddAcceptedAt(existing, populated, newCols, i) <==>
            Addable(newCols[i], populated) && !exists j | 0 <= j < i :: newCols[j].name == newCols[i].name
  {}

  lemma {:induction false} ExtendNext(db: Db, key: string, existing: seq<Column>, newCols: seq<Column>, i: nat)
    requires key in db.physical && i < |newCols| && !HasName(existing, newCols[i].name)
    ensures Extend(db, key, FreshOf(existing, newCols[..i + 1]))
          == Extend1(Extend(db, key, FreshOf(existing, newCols[..i])), key, newCols[i])
  {
    assert newCols[..i + 1][..i] == newCols[..i];
    var front := FreshOf(existing, newCols[..i]);
    assert (front + [newCols[i]])[..|front|] == front;
  }

  lemma {:induction false} FreshSkips(existing: seq<Column>, newCols: seq<Column>, i: nat)
    requires i < |newCols| && HasName(existing, newCols[i].name)
    ensures FreshOf(existing, newCols[..i + 1]) == FreshOf(existing, newCols[..i])
  {
    assert newCols[..i + 1][..i] == newCols[..i];
  }

  /**
   * Registering a column and running its ALTER text extends the table, unless its default does not parse
   * or leaves existing rows without a value.
   */
  lemma {:induction false} AlterRuns(db: Db, key: string, c: Column)
    requires KeyOk(db, key) && key in db.defs && ValidColumn(c) && !HasName(ColumnsOf(db.columns, key), c.name)
    requires c.nullable || c.defaultText.Some?
    ensures IsWord(TableName(key)) && Printable(Written(c))
    ensures ExecAlter(db.(columns := db.columns + [NumberedIn(db, key, c)]), AlterText(TableName(key), Written(c)))
          == if Addable(c, Populated(db, key)) then Done(Extend1(db, key, c)) else Failed
  {
    AlterTextParses(key, c);
    NotPhysical(ColumnsOf(db.columns, key), c);
  }

  lemma {:induction false} AlterTextParses(key: string, c: Column)
    requires ValidKey(key) && ValidColumn(c)
    ensures IsWord(TableName(key)) && Printable(Written(c)) && IsTableName(TableName(key)) && TableName(key)[4..] == key
    ensures ParseAlter(AlterText(TableName(key), Written(c))) ==
            if Grammatical(Written(c)) then Some((TableName(key), Written(c))) else None
  {
    assert IsWord(TableName(key));
    WrittenPrintable(c);
    AlterRoundTrip(TableName(key), Written(c));
  }

  lemma {:induction false} NotPhysical(cols: seq<Column>, c: Column)
    requires ValidColumn(c) && !HasName(cols, c.name)
    ensures !PhysNamed(SystemCols() + WrittenAll(cols), c.name)
  {}

  lemma {:induction false} ZipAppend(names: seq<string>, vals: seq<Value>, name: string, v: Value)
    requires |names| == |vals|
    ensures Zip(names + [name], vals + [v]) == Zip(names, vals)[name := v]
  {}

  function BindSeq(vals: seq<GoValue>): (r: seq<Value>)
    ensures |r| == |vals| && forall i | 0 <= i < |r| :: r[i] == Bind(vals[i])
  {
    seq(|vals|, i requires 0 <= i < |vals| => Bind(vals[i]))
  }

  lemma {:induction false} BindSeqAppend(vals: seq<GoValue>, v: GoValue)
    ensures BindSeq(vals + [v]) == BindSeq(vals) + [Bind(v)]
  {}

  /** The supplied columns among the first n. */
  function SuppliedPart(cols: seq<Column>, data: map<string, GoValue>): map<string, GoValue> {
    map name | name in data && name in Names(cols) :: data[name]
  }

  lemma {:induction false} SuppliedNext(cols: seq<Column>, data: map<string, GoValue>, i: nat)
    requires i < |cols|
    ensures var name, front := cols[i].name, BindAll(SuppliedPart(cols[..i], data));
            BindAll(SuppliedPart(cols[..i + 1], data))
            == if name in data then front[name := Bind(data[name])] else front
  {
    NamesPrefix(cols, i);
  }

  /** Rejects fields that name no column, whatever order the fields are visited in. */
  method AllKnown(cols: seq<Column>, data: map<string, GoValue>) returns (ok: bool)
    ensures ok <==> data.Keys <= Names(cols)
  {
    var colSet := {};
    for i := 0 to |cols|
      invariant colSet == Names(cols[..i])
    {
      NamesPrefix(cols, i);
      colSet := colSet + {cols[i].name};
    }
    assert cols[..|cols|] == cols;
    var unseen := data.Keys;
    while unseen != {}
      invariant unseen <= data.Keys && data.Keys - unseen <= colSet
      decreases unseen
    {
      var k :| k in unseen;
      if k !in colSet {
        return false;
      }
      unseen := unseen - {k};
    }
    return true;
  }

  /** buildInsertData: the column names and values of an INSERT, in column order. */
  method BuildInsertData(cols: seq<Column>, data: map<string, GoValue>)
    returns (ok: bool, names: seq<string>, vals: seq<GoValue>)
    ensures ok <==> DataAccepted(cols, data)
    ensures |names| == |vals|
    ensures ok ==> Zip(names, BindSeq(vals)) == BindAll(data)
  {
    names, vals := [], [];
    ok := AllKnown(cols, data);
    if !ok {
      return;
    }
    for i := 0 to |cols|
      invariant |names| == |vals|
      invariant Zip(names, BindSeq(vals)) == BindAll(SuppliedPart(cols[..i], data))
      invariant forall j | 0 <= j < i ::
                  if cols[j].name in data then ValidValue(cols[j], data[cols[j].name])
                  else cols[j].nullable || cols[j].defaultText.Some?
    {
      var c := cols[i];
      SuppliedNext(cols, data, i);
      if c.name !in data {
        if !c.nullable && c.defaultText.None? {
          return false, [], [];
        }
      } else {
        if !ValidValue(c, data[c.name]) {
          return false, [], [];
        }
        ZipAppend(names, BindSeq(vals), c.name, Bind(data[c.name]));
        BindSeqAppend(vals, data[c.name]);
        assert BindAll(SuppliedPart(cols[..i + 1], data))
              == BindAll(SuppliedPart(cols[..i], data))[c.name := Bind(data[c.name])];
        names := names + [c.name];
        vals := vals + [data[c.name]];
      }
    }
    assert cols[..|cols|] == cols && SuppliedPart(cols, data) == data;
  }

  /** The lookup map from column names to columns that several operations build. */
  method IndexColumns(cols: seq<Column>) returns (m: map<string, Column>)
    requires Distinct(cols)
    ensures Indexes(m, cols)
  {
    m := map[];
    for i := 0 to |cols|
      invariant m.Keys == Names(cols[..i])
      invariant forall j | 0 <= j < i :: cols[j].name in m && m[cols[j].name] == cols[j]
    {
      NamesPrefix(cols, i);
      m := m[cols[i].name := cols[i]];
    }
    assert cols[..|cols|] == cols;
  }

  predicate PatchAccepted(cols: seq<Column>, data: map<string, GoValue>) {
    data.Keys <= Names(cols)
    && forall i | 0 <= i < |cols| && cols[i].name in data :: ValidValue(cols[i], data[cols[i].name])
  }

  /** The SET list of an update. The fields are visited in any order; the result does not depend on it. */
  method BuildUpdateData(cols: seq<Column>, data: map<string, GoValue>)
    returns (ok: bool, names: seq<string>, args: seq<Value>)
    requires Distinct(cols)
    ensures ok <==> PatchAccepted(cols, data)
    ensures |names| == |args|
    ensures ok ==> Zip(names, args) == BindAll(data) && (names == [] <==> data == map[])
  {
    var colMap := IndexColumns(cols);
    names, args := [], [];
    var unseen := data.Keys;
    while unseen != {}
      invariant unseen <= data.Keys && |names| == |args|
      invariant Zip(names, args) == map name | name in data && name !in unseen :: Bind(data[name])
      invariant names == [] <==> unseen == data.Keys
      invariant forall name | name in data.Keys - unseen :: name in colMap && ValidValue(colMap[name], data[name])
      decreases unseen
    {
      var k :| k in unseen;
      if k !in colMap {
        return false, [], [];
      }
      if !ValidValue(colMap[k], data[k]) {
        var i :| 0 <= i < |cols| && cols[i].name == k;
        return false, [], [];
      }
      ZipAppend(names, args, k, Bind(data[k]));
      names := names + [k];
      args := args + [Bind(data[k])];
      unseen := unseen - {k};
    }
    ok := true;
  }

  /** The WHERE clauses of a query. */
  method BuildWhere(cols: seq<Column>, filters: seq<Filter>) returns (ok: bool, clauses: seq<Clause>)
    requires Distinct(cols)
    ensures ok <==> forall i | 0 <= i < |filters| :: FilterOk(cols, filters[i])
    ensures ok ==> clauses == CompileAll(filters)
  {
    var colMap := IndexColumns(cols);
    clauses := [];
    for i := 0 to |filters|
      invariant forall j | 0 <= j < i :: FilterOk(cols, filters[j])
      invariant clauses == CompileAll(filters[..i])
    {
      var f := filters[i];
      assert filters[..i + 1][..i] == filters[..i];
      if f.column !in colMap {
        return false, [];
      }
      var op := SafeOp(f.operator);
      if op.None? {
        return false, [];
      }
      clauses := clauses
            + [Clause(f.column, op.value, if f.operator == "contains" then "%" + f.value + "%" else f.value)];
    }
    assert filters[..|filters|] == filters;
    ok := true;
  }

  /** Scans a result set into records. */
  method CollectRecords(cols: seq<Column>, rows: seq<Row>) returns (records: seq<Record>)
    ensures records == ToRecords(cols, rows)
  {
    records := [];
    for i := 0 to |rows|
      invariant |records| == i && forall j | 0 <= j < i :: records[j] == ToRecord(cols, rows[j])
    {
      records := records + [ToRecord(cols, rows[i])];
    }
  }

  lemma {:induction false} DistinctPrefix(cols: seq<Column>, i: nat)
    requires i < |cols| && Distinct(cols[..i])
    ensures Distinct(cols[..i + 1]) <==> cols[i].name !in Names(cols[..i])
    ensures Distinct(cols) ==> Distinct(cols[..i + 1])
  {}

  /** Validates the columns of a new table and gives each its table key and position. */
  method PlaceColumns(key: string, cols: seq<Column>) returns (ok: bool, placed: seq<Column>)
    ensures ok <==> (forall i | 0 <= i < |cols| :: ValidColumn(cols[i])) && Distinct(cols)
    ensures ok ==> placed == Placed(key, cols)
  {
    var seen: set<string> := {};
    placed := [];
    for i := 0 to |cols|
      invariant seen == Names(cols[..i]) && placed == Placed(key, cols[..i])
      invariant (forall j | 0 <= j < i :: ValidColumn(cols[j])) && Distinct(cols[..i])
    {
      var c := cols[i];
      if !ValidColumn(c) {
        return false, [];
      }
      DistinctPrefix(cols, i);
      if c.name in seen {
        return false, [];
      }
      NamesPrefix(cols, i);
      PlacedPrefix(key, cols, i);
      seen := seen + {c.name};
      placed := placed + [c.(tableKey := key, position := i)];
    }
    assert cols[..|cols|] == cols;
    ok := true;
  }

  class Engine {
    var db: Db
    const hasBus: bool
    var published: seq<(string, Record)>

    ghost predicate Valid()
      reads this
    {
      Inv(db)
    }

    constructor (hasBus: bool)
      ensures Valid() && db == EMPTY_DB && published == [] && this.hasBus == hasBus
    {
      db := EMPTY_DB;
      published := [];
      this.hasBus := hasBus;
    }

    /** Inserts the columns of a new table into the registry, one statement each. */
    method RegisterColumns(key: string, ghost cols: seq<Column>, placed: seq<Column>)
      requires key in db.defs && Distinct(cols) && placed == Placed(key, cols)
      requires forall i | 0 <= i < |db.columns| :: db.columns[i].tableKey != key
      modifies this`db
      ensures db == old(db).(columns := old(db).columns + placed)
    {
      for i := 0 to |placed|
        invariant db == old(db).(columns := old(db).columns + placed[..i])
      {
        PlacedNotYet(old(db).columns, key, cols, i);
        assert placed[..i + 1] == placed[..i] + [placed[i]];
        match InsertColumn(db, placed[i]) {
          case Failed => assert false;
          case Done(d) => db := d;
        }
      }
      assert placed[..|placed|] == placed;
    }

    /** CreateTable, in a transaction: on any failure the database is rolled back. */
    method CreateTable(key: string, name: string, description: string, cols: seq<Column>, now: int) returns (ok: bool)
      requires Valid()
      modifies this`db
      ensures Valid()
      ensures ok <==> CreateAccepted(old(db), key, cols)
      ensures db == if ok then Created(old(db), key, Def(name, description, now, now), cols) else old(db)
    {
      if !ValidKey(key) {
        return false;
      }
      var accepted, placed := PlaceColumns(key, cols);
      if !accepted {
        return false;
      }
      var def := Def(name, description, now, now);
      var saved := db;
      match InsertDef(db, key, def) {
        case Failed => return false;
        case Done(d) => db := d;
      }
      PlacedSame(key, cols);
      RegisterColumns(key, cols, placed);
      var text := BuildCreateDDL(key, placed);
      CreateRuns(db, key, placed);
      match ExecCreate(db, text) {
        case Failed =>
          db := saved;
          return false;
        case Done(d) => db := d;
      }
      CreateKeepsInv(saved, key, def, cols);
      return true;
    }

    /** GetTable: for a registered key, its columns, each once, numbered from 0 and in that order. */
    method GetTable(key: string) returns (r: Option<seq<Column>>)
      requires Valid()
      ensures r.Some? <==> key in db.defs
      ensures r.Some? ==> Numbered(r.value) && Distinct(r.value)
      ensures r.Some? ==> forall c :: c in r.value <==> c in db.columns && c.tableKey == key
      ensures r.Some? ==> r.value == ColumnsOf(db.columns, key) == LoadColumns(db, key)
    {
      if key !in db.defs {
        return None;
      }
      r := Some(LoadColumns(db, key));
      RegisteredColumns(db, key);
    }

    /** Registers one new column and alters the physical table; the caller rolls back on failure. */
    method AddOne(key: string, c: Column, position: nat) returns (ok: bool)
      requires Valid() && key in db.defs && ValidColumn(c) && (c.nullable || c.defaultText.Some?)
      requires position == |ColumnsOf(db.columns, key)|
      modifies this`db
      ensures ok <==> !HasName(ColumnsOf(old(db).columns, key), c.name) && Addable(c, Populated(old(db), key))
      ensures ok ==> Valid() && db == Extend1(old(db), key, c) && position + 1 == |ColumnsOf(db.columns, key)|
    {
      ghost var before := db;
      assert KeyOk(db, key);
      match InsertColumn(db, c.(tableKey := key, position := position)) {
        case Failed => return false;
        case Done(d) => db := d;
      }
      var text := BuildAlterDDL(key, c);
      AlterRuns(before, key, c);
      match ExecAlter(db, text) {
        case Failed => return false;
        case Done(d) => db := d;
      }
      Extend1KeepsInv(before, key, c);
      Extend1Columns(before, key, c, key);
      return true;
    }

    /** A turn of AddColumns on a column that the registry does not have. */
    method AddFresh(ghost start: Db, key: string, newCols: seq<Column>, i: nat, nextPos: nat) returns (fits: bool)
      requires KeyOk(start, key) && key in start.defs && i < |newCols| && ValidColumn(newCols[i])
      requires !HasName(ColumnsOf(start.columns, key), newCols[i].name)
      requires Valid() && db == Extend(start, key, FreshOf(ColumnsOf(start.columns, key), newCols[..i]))
      requires nextPos == |ColumnsOf(db.columns, key)|
      modifies this`db
      ensures fits <==> AddAcceptedAt(ColumnsOf(start.columns, key), Populated(start, key), newCols, i)
      ensures fits ==> Valid() && db == Extend(start, key, FreshOf(ColumnsOf(start.columns, key), newCols[..i + 1]))
      ensures fits ==> nextPos + 1 == |ColumnsOf(db.columns, key)|
    {
      var c := newCols[i];
      if !c.nullable && c.defaultText.None? {
        return false;
      }
      RegisteredSoFar(start, key, newCols, i);
      FreshDecision(ColumnsOf(start.columns, key), Populated(start, key), newCols, i);
      ExtendRows(start, key, FreshOf(ColumnsOf(start.columns, key), newCols[..i]));
      ExtendNext(start, key, ColumnsOf(start.columns, key), newCols, i);
      fits := AddOne(key, c, nextPos);
    }

    /** One turn of AddColumns: column i of the request, after the ones before it. */
    method AddAt(ghost start: Db, key: string, existing: map<string, Column>, newCols: seq<Column>, i: nat,
            nextPos: nat)
      returns (fits: bool, next: nat)
      requires KeyOk(start, key) && key in start.defs && i < |newCols|
      requires Indexes(existing, ColumnsOf(start.columns, key))
      requires Valid() && db == Extend(start, key, FreshOf(ColumnsOf(start.columns, key), newCols[..i]))
      requires nextPos == |ColumnsOf(db.columns, key)|
      modifies this`db
      ensures fits <==> AddAcceptedAt(ColumnsOf(start.columns, key), Populated(start, key), newCols, i)
      ensures fits ==> Valid() && db == Extend(start, key, FreshOf(ColumnsOf(start.columns, key), newCols[..i + 1]))
      ensures fits ==> next == |ColumnsOf(db.columns, key)|
    {
      var c := newCols[i];
      next := nextPos;
      if !ValidColumn(c) {
        return false, next;
      }
      if c.name in existing {
        SameName(ColumnsOf(start.columns, key), existing, c);
        FreshSkips(ColumnsOf(start.columns, key), newCols, i);
        fits := existing[c.name].colType == c.colType && existing[c.name].nullable == c.nullable;
      } else {
        fits := AddFresh(start, key, newCols, i, nextPos);
        next := nextPos + 1;
      }
    }

    /** The loop of AddColumns; the caller rolls back on failure. */
    method AddAll(key: string, ghost cols: seq<Column>, existing: map<string, Column>, start: nat, newCols: seq<Column>)
      returns (ok: bool)
      requires Valid() && KeyOk(db, key) && key in db.defs && cols == ColumnsOf(db.columns, key)
      requires Indexes(existing, cols) && start == |cols|
      modifies this`db
      ensures ok <==> AcceptedUpto(cols, Populated(old(db), key), newCols, |newCols|)
      ensures ok ==> db == Extend(old(db), key, FreshOf(cols, newCols))
    {
      ghost var before := db;
      var nextPos := start;
      for i := 0 to |newCols|
        invariant Valid() && db == Extend(before, key, FreshOf(cols, newCols[..i]))
        invariant nextPos == |ColumnsOf(db.columns, key)|
        invariant AcceptedUpto(cols, Populated(before, key), newCols, i)
      {
        var fits;
        fits, nextPos := AddAt(before, key, existing, newCols, i, nextPos);
        if !fits {
          FirstRejected(cols, Populated(before, key), newCols, i);
          return false;
        }
      }
      assert newCols[..|newCols|] == newCols;
      return true;
    }

    /** AddColumns, in a transaction: on any failure the database is rolled back. */
    method AddColumns(key: string, newCols: seq<Column>, now: int) returns (ok: bool)
      requires Valid()
      modifies this`db
      ensures Valid()
      ensures ok <==> AddAccepted(old(db), key, newCols)
      ensures db == if ok then Added(old(db), key, newCols, now) else old(db)
    {
      var def := GetTable(key);
      if def.None? {
        return false;
      }
      LoadedInOrder(db, key);
      var saved := db;
      AcceptedUptoMeans(def.value, Populated(db, key), newCols, |newCols|);
      assert KeyOk(db, key);
      var existing := IndexColumns(def.value);
      ok := AddAll(key, def.value, existing, |def.value|, newCols);
      if !ok {
        db := saved;
        return;
      }
      db := TouchDef(db, key, now);
      AddKeepsInv(saved, key, newCols, now);
    }

    /** DeleteTable */
    method DeleteTable(key: string) returns (ok: bool)
      requires Valid()
      modifies this`db
      ensures Valid()
      ensures ok <==> ValidKey(key)
      ensures db == if ok then Dropped(old(db), key) else old(db)
    {
      if !ValidKey(key) {
        return false;
      }
      DropKeepsInv(db, key);
      db := DeleteDef(db, key);
      db := DropPhysical(db, key);
      return true;
    }

    /** GetRecord */
    method GetRecord(key: string, id: string) returns (r: Outcome<Option<Record>>)
      requires Valid()
      ensures r == Fetched(db, key, id)
    {
      var def := GetTable(key);
      if def.None? || key !in db.physical {
        return Failed;
      }
      match FindRow(db.physical[key].rows, id) {
        case None => return Done(None);
        case Some(row) => return Done(Some(ToRecord(def.value, row)));
      }
    }

    /** The validation and the INSERT statement that InsertRecord and InsertRecordFlagged share. */
    method InsertRow(key: string, data: map<string, GoValue>, flagCtx: Option<string>, id: string, now: int)
      returns (ok: bool)
      requires Valid()
      modifies this`db
      ensures Valid()
      ensures ok <==> InsertAccepted(old(db), key, id, data)
      ensures db == if ok then Inserted(old(db), key, id, flagCtx, now, data) else old(db)
      ensures ok ==> var r := Fetched(db, key, id); r.Done? && r.value.Some? && r.value.value.id == id
    {
      var def := GetTable(key);
      if def.None? {
        return false;
      }
      var accepted, names, vals := BuildInsertData(def.value, data);
      if !accepted {
        return false;
      }
      InsertRuns(db, key, id, flagCtx, now, data, names, BindSeq(vals));
      match ExecInsert(db, key, id, flagCtx, now, names, BindSeq(vals)) {
        case Failed => return false;
        case Done(d) =>
          InsertKeepsInv(db, key, id, flagCtx, now, data);
          FindInserted(db, key, id, flagCtx, now, data);
          db := d;
          return true;
      }
    }

    /** InsertRecord: on success the new record is published when a bus is attached. */
    method InsertRecord(key: string, data: map<string, GoValue>, id: string, now: int)
      returns (r: Outcome<Option<Record>>)
      requires Valid()
      modifies this
      ensures Valid()
      ensures r.Done? <==> InsertAccepted(old(db), key, id, data)
      ensures db == if r.Done? then Inserted(old(db), key, id, None, now, data) else old(db)
      ensures r.Done? ==> r == Fetched(db, key, id) && r.value.Some? && r.value.value.id == id
      ensures published == old(published) + if r.Done?
            && hasBus then [("flagbase.table." + key + ".created", r.value.value)] else []
    {
      var ok := InsertRow(key, data, None, id, now);
      if !ok {
        return Failed;
      }
      r := GetRecord(key, id);
      if hasBus && r.Done? && r.value.Some? {
        published := published + [("flagbase.table." + key + ".created", r.value.value)];
      }
    }

    /** InsertRecordFlagged: tags the row and publishes nothing. */
    method InsertRecordFlagged(key: string, data: map<string, GoValue>, flagCtx: string, id: string, now: int)
      returns (r: Outcome<Option<Record>>)
      requires Valid()
      modifies this`db
      ensures Valid()
      ensures r.Done? <==> InsertAccepted(old(db), key, id, data)
      ensures db == if r.Done? then Inserted(old(db), key, id, Some(flagCtx), now, data) else old(db)
      ensures r.Done? ==> r == Fetched(db, key, id) && r.value.Some? && r.value.value.id == id
    {
      var ok := InsertRow(key, data, Some(flagCtx), id, now);
      if !ok {
        return Failed;
      }
      r := GetRecord(key, id);
    }

    /** The validation and the UPDATE statement of UpdateRecord; no statement runs when no field is supplied. */
    method UpdateRow(key: string, id: string, data: map<string, GoValue>, now: int) returns (ok: bool)
      requires Valid()
      modifies this`db
      ensures Valid()
      ensures ok <==> UpdateAccepted(old(db), key, data)
      ensures db == if ok then Updated(old(db), key, id, data, now) else old(db)
    {
      var def := GetTable(key);
      if def.None? {
        return false;
      }
      LoadedInOrder(db, key);
      assert KeyOk(db, key);
      var accepted, names, args := BuildUpdateData(def.value, data);
      if !accepted || |names| == 0 {
        return accepted;
      }
      UpdateRuns(db, key, id, data, now, names, args);
      UpdateKeepsInv(db, key, id, data, now);
      db := ExecUpdate(db, key, id, names, args, now).value;
      return true;
    }

    /** UpdateRecord: a partial update. */
    method UpdateRecord(key: string, id: string, data: map<string, GoValue>, now: int)
      returns (r: Outcome<Option<Record>>)
      requires Valid()
      modifies this`db
      ensures Valid()
      ensures r.Done? <==> UpdateAccepted(old(db), key, data)
      ensures db == if r.Done? then Updated(old(db), key, id, data, now) else old(db)
      ensures r.Done? ==> r == Fetched(db, key, id)
    {
      var ok := UpdateRow(key, id, data, now);
      if !ok {
        return Failed;
      }
      r := GetRecord(key, id);
    }

    /** DeleteRecord */
    method DeleteRecord(key: string, id: string) returns (ok: bool)
      requires Valid()
      modifies this`db
      ensures Valid()
      ensures ok <==> ValidKey(key) && key in old(db).physical
      ensures db == if ok then SetRows(old(db), key, Removed(old(db).physical[key].rows, id)) else old(db)
    {
      if !ValidKey(key) || key !in db.physical {
        return false;
      }
      DeleteKeepsInv(db, key, id);
      db := SetRows(db, key, Removed(db.physical[key].rows, id));
      return true;
    }

    /** RollbackByFlagCtx: returns how many rows went. */
    method RollbackByFlagCtx(key: string, flagCtx: string) returns (r: Outcome<int>)
      requires Valid()
      modifies this`db
      ensures Valid()
      ensures r.Done? <==> ValidKey(key) && key in old(db).physical
      ensures db == if r.Done? then SetRows(old(db), key, RolledBack(old(db).physical[key].rows, flagCtx)) else old(db)
      ensures r.Done? ==> r.value == |old(db).physical[key].rows| - |db.physical[key].rows|
    {
      if !ValidKey(key) || key !in db.physical {
        return Failed;
      }
      var n := CountTagged(db.physical[key].rows, flagCtx);
      CountRolledBack(db.physical[key].rows, flagCtx);
      RollbackKeepsInv(db, key, flagCtx);
      db := SetRows(db, key, RolledBack(db.physical[key].rows, flagCtx));
      return Done(n);
    }

    /** PromoteByFlagCtx: returns how many rows lost their tag. */
    method PromoteByFlagCtx(key: string, flagCtx: string) returns (r: Outcome<int>)
      requires Valid()
      modifies this`db
      ensures Valid()
      ensures r.Done? <==> ValidKey(key) && key in old(db).physical
      ensures db == if r.Done? then SetRows(old(db), key, Promoted(old(db).physical[key].rows, flagCtx)) else old(db)
      ensures r.Done? ==> r.value == CountTagged(old(db).physical[key].rows, flagCtx)
    {
      if !ValidKey(key) || key !in db.physical {
        return Failed;
      }
      var n := CountTagged(db.physical[key].rows, flagCtx);
      PromoteKeepsInv(db, key, flagCtx);
      db := SetRows(db, key, Promoted(db.physical[key].rows, flagCtx));
      return Done(n);
    }

    /** QueryRecords */
    method QueryRecords(d: Dialect, key: string, filters: seq<Filter>, limit: int, offset: int)
      returns (r: Outcome<seq<Record>>)
      requires Valid()
      ensures r == Queried(d, db, key, filters, limit, offset)
    {
      var def := GetTable(key);
      if def.None? {
        return Failed;
      }
      var cols := def.value;
      LoadedInOrder(db, key);
      assert KeyOk(db, key);
      var ok, clauses := BuildWhere(cols, filters);
      if !ok {
        return Failed;
      }
      var n := limit;
      if n <= 0 || n > 1000 {
        n := 100;
      }
      var rows := Page(ByTime(Where(d, db.physical[key].rows, clauses)), n, offset);
      var records := CollectRecords(cols, rows);
      return Done(records);
    }
  }

  lemma {:induction false} RegisteredColumns(db: Db, key: string)
    requires Inv(db) && key in db.defs
    ensures LoadColumns(db, key) == ColumnsOf(db.columns, key)
    ensures Numbered(ColumnsOf(db.columns, key)) && Distinct(ColumnsOf(db.columns, key))
    ensures forall c :: c in ColumnsOf(db.columns, key) <==> c in db.columns && c.tableKey == key
  {
    LoadedInOrder(db, key);
    assert KeyOk(db, key);
    forall c | c in db.columns && c.tableKey == key ensures c in ColumnsOf(db.columns, key) {
      ColumnsOfHas(db.columns, c);
    }
    forall c | c in ColumnsOf(db.columns, key) ensures c in db.columns && c.tableKey == key {
      var i :| 0 <= i < |ColumnsOf(db.columns, key)| && ColumnsOf(db.columns, key)[i] == c;
    }
  }

  lemma {:induction false} CountRolledBack(rows: seq<Row>, ctx: string)
    ensures |RolledBack(rows, ctx)| + CountTagged(rows, ctx) == |rows|
  {
    if rows != [] { CountRolledBack(rows[..|rows| - 1], ctx); }
  }

  lemma {:induction false} KnownNames(cols: seq<Column>, vals: map<string, Value>)
    requires vals.Keys <= Names(cols)
    ensures NamesKnown(WrittenAll(cols), vals)
  {}

  lemma {:induction false} InsertRuns(db: Db, key: string, id: string, flagCtx: Option<string>, now: int,
          data: map<string, GoValue>,
                                      names: seq<string>, vals: seq<Value>)
    requires Inv(db) && key in db.defs && DataAccepted(LoadColumns(db, key), data)
    requires |names| == |vals| && Zip(names, vals) == BindAll(data)
    ensures ExecInsert(db, key, id, flagCtx, now, names, vals) ==
            if InsertAccepted(db, key, id, data) then Done(Inserted(db, key, id, flagCtx, now, data)) else Failed
  {
    LoadedInOrder(db, key);
    assert KeyOk(db, key);
    KnownNames(ColumnsOf(db.columns, key), BindAll(data));
  }

  lemma {:induction false} FindInserted(db: Db, key: string, id: string, flagCtx: Option<string>, now: int,
          data: map<string, GoValue>)
    requires key in db.physical && key in db.defs
    ensures var after := Inserted(db, key, id, flagCtx, now, data);
            Fetched(after, key, id).Done? && Fetched(after, key, id).value.Some?
                  && Fetched(after, key, id).value.value.id == id
  {}

  lemma {:induction false} UpdateRuns(db: Db, key: string, id: string, data: map<string, GoValue>, now: int,
                                      names: seq<string>, vals: seq<Value>)
    requires Inv(db) && UpdateAccepted(db, key, data) && data != map[]
    requires |names| == |vals| && Zip(names, vals) == BindAll(data)
    ensures ExecUpdate(db, key, id, names, vals, now) == Done(Updated(db, key, id, data, now))
  {
    LoadedInOrder(db, key);
    assert KeyOk(db, key);
    var cols := ColumnsOf(db.columns, key);
    KnownNames(cols, BindAll(data));
    forall i | 0 <= i < |cols| && WrittenAll(cols)[i].notNull && cols[i].name in data
      ensures Bind(data[cols[i].name]) != Null
    {
      BoundFits(cols[i], data[cols[i].name]);
    }
  }
}
