/** QueryRecords: filters compiled to SQL clauses, their evaluation, ordering and paging. */
module TableQuery {
  import opened Wrappers
  import opened Ordering
  import opened Ddl
  import opened TableStore
  import opened TableSpec
  import opened Like
  import Strings = Text

  datatype Filter = Filter(column: string, operator: string, value: string)

  /** column op ?, with the bound argument. */
  datatype Clause = Clause(column: string, op: string, arg: string)

  /** The database's own conversions between text and numbers. */
  datatype Dialect = Dialect(toNumber: string -> Option<real>, toText: real -> string)

  function SafeOp(op: string): Option<string> {
    if op == "equals" then Some("=")
    else if op == "not_equals" then Some("!=")
    else if op == "contains" then Some("LIKE")
    else if op == "gt" then Some(">")
    else if op == "gte" then Some(">=")
    else if op == "lt" then Some("<")
    else if op == "lte" then Some("<=")
    else None
  }

  predicate FilterOk(cols: seq<Column>, f: Filter) {
    f.column in Names(cols) && SafeOp(f.operator).Some?
  }

  function Compile(f: Filter): Clause
    requires SafeOp(f.operator).Some?
  {
    Clause(f.column, SafeOp(f.operator).value, if f.operator == "contains" then ContainsPattern(f.value) else f.value)
  }

  function CompileAll(filters: seq<Filter>): seq<Clause>
    requires forall i | 0 <= i < |filters| :: SafeOp(filters[i].operator).Some?
  {
    if filters == [] then []
    else CompileAll(filters[..|filters| - 1]) + [Compile(filters[|filters| - 1])]
  }

  /** Whether a stored value satisfies `column op ?`. A comparison with NULL is never true. */
  predicate Holds(d: Dialect, v: Value, op: string, arg: string) {
    match v
    case Null => false
    case Str(s) =>
      if op == "=" then s == arg
      else if op == "!=" then s != arg
      else if op == "LIKE" then Matches(arg, s)
      else if op == ">" then Strings.Less(arg, s)
      else if op == ">=" then !Strings.Less(s, arg)
      else if op == "<" then Strings.Less(s, arg)
      else op == "<=" && !Strings.Less(arg, s)
    case Num(n) =>
      if op == "LIKE" then Matches(arg, d.toText(n))
      else match d.toNumber(arg)
        case Some(m) =>
          if op == "=" then n == m
          else if op == "!=" then n != m
          else if op == ">" then n > m
          else if op == ">=" then n >= m
          else if op == "<" then n < m
          else op == "<=" && n <= m
        case None => op == "!=" || op == "<" || op == "<="  // every number sorts before every text
  }

  predicate RowHolds(d: Dialect, row: Row, clauses: seq<Clause>) {
    forall i | 0 <= i < |clauses| ::
      clauses[i].column in row.vals && Holds(d, row.vals[clauses[i].column], clauses[i].op, clauses[i].arg)
  }

  function Where(d: Dialect, rows: seq<Row>, clauses: seq<Clause>): (r: seq<Row>)
    ensures forall row :: row in r <==> row in rows && RowHolds(d, row, clauses)
  {
    if rows == [] then []
    else
      var front := Where(d, rows[..|rows| - 1], clauses);
      assert rows == rows[..|rows| - 1] + [rows[|rows| - 1]];
      if RowHolds(d, rows[|rows| - 1], clauses) then front + [rows[|rows| - 1]] else front
  }

  function InsertByTime(s: seq<Row>, r: Row): seq<Row> {
    if s == [] || s[|s| - 1].createdAt <= r.createdAt then s + [r]
    else InsertByTime(s[..|s| - 1], r) + [s[|s| - 1]]
  }

  /** ORDER BY _created_at ASC, rows of the same second in storage order. */
  function ByTime(s: seq<Row>): seq<Row> {
    if s == [] then [] else InsertByTime(ByTime(s[..|s| - 1]), s[|s| - 1])
  }

  function EffectiveLimit(limit: int): int {
    if limit <= 0 || limit > 1000 then 100 else limit
  }

  /** LIMIT limit OFFSET offset; a negative offset counts as 0. */
  function Page<T>(s: seq<T>, limit: int, offset: int): seq<T>
    requires limit >= 0
  {
    var start := if offset < 0 then 0 else if offset > |s| then |s| else offset;
    var end := if start + limit > |s| then |s| else start + limit;
    s[start..end]
  }

  function ToRecords(cols: seq<Column>, rows: seq<Row>): (r: seq<Record>)
    ensures |r| == |rows| && forall i | 0 <= i < |r| :: r[i] == ToRecord(cols, rows[i])
  {
    seq(|rows|, i requires 0 <= i < |rows| => ToRecord(cols, rows[i]))
  }

  predicate QueryAccepted(db: Db, key: string, filters: seq<Filter>) {
    key in db.defs && key in db.physical
    && forall i | 0 <= i < |filters| :: FilterOk(LoadColumns(db, key), filters[i])
  }

  /** All rows that satisfy the filters, in order. */
  function Matching(d: Dialect, db: Db, key: string, filters: seq<Filter>): seq<Row>
    requires QueryAccepted(db, key, filters)
  {
    ByTime(Where(d, db.physical[key].rows, CompileAll(filters)))
  }

  function Queried(d: Dialect, db: Db, key: string, filters: seq<Filter>, limit: int,
          offset: int): Outcome<seq<Record>> {
    if !QueryAccepted(db, key, filters) then Failed
    else Done(ToRecords(LoadColumns(db, key), Page(Matching(d, db, key, filters), EffectiveLimit(limit), offset)))
  }

  // ---- what a filter selects ----

  lemma {:induction false} InsertByTimeMembers(s: seq<Row>, r: Row)
    ensures multiset(InsertByTime(s, r)) == multiset(s) + multiset{r}
  {
    if s != [] && s[|s| - 1].createdAt > r.createdAt {
      InsertByTimeMembers(s[..|s| - 1], r);
      assert s == s[..|s| - 1] + [s[|s| - 1]];
    }
  }

  /** Ordering loses and repeats no row. */
  lemma {:induction false} ByTimeMembers(s: seq<Row>)
    ensures multiset(ByTime(s)) == multiset(s)
  {
    if s != [] {
      ByTimeMembers(s[..|s| - 1]);
      InsertByTimeMembers(ByTime(s[..|s| - 1]), s[|s| - 1]);
      assert s == s[..|s| - 1] + [s[|s| - 1]];
    }
  }

  predicate InTimeOrder(s: seq<Row>) {
    forall i, j | 0 <= i < j < |s| :: s[i].createdAt <= s[j].createdAt
  }

  lemma {:induction false} InsertByTimeSorted(s: seq<Row>, r: Row)
    requires InTimeOrder(s)
    ensures InTimeOrder(InsertByTime(s, r))
  {
    if s != [] && s[|s| - 1].createdAt > r.createdAt {
      var front, last := s[..|s| - 1], s[|s| - 1];
      InsertByTimeSorted(front, r);
      InsertByTimeMembers(front, r);
      var placed := InsertByTime(front, r);
      forall i | 0 <= i < |placed| ensures placed[i].createdAt <= last.createdAt {
        assert placed[i] in multiset(placed);
        if placed[i] != r { assert placed[i] in front; }
      }
    }
  }

  /** The rows come out by creation time. */
  lemma {:induction false} ByTimeSorted(s: seq<Row>)
    ensures InTimeOrder(ByTime(s))
  {
    if s != [] {
      ByTimeSorted(s[..|s| - 1]);
      InsertByTimeSorted(ByTime(s[..|s| - 1]), s[|s| - 1]);
    }
  }

  lemma {:induction false} WhereDistinct(d: Dialect, rows: seq<Row>, clauses: seq<Clause>)
    requires DistinctIds(rows)
    ensures DistinctIds(Where(d, rows, clauses))
  {
    if rows != [] {
      var front := rows[..|rows| - 1];
      WhereDistinct(d, front, clauses);
      forall i | 0 <= i < |Where(d, front, clauses)| ensures Where(d, front, clauses)[i].id != rows[|rows| - 1].id {
        assert Where(d, front, clauses)[i] in front;
      }
    }
  }

  /** A query lists its rows by creation time, each row once. */
  lemma {:induction false} MatchingOrdered(d: Dialect, db: Db, key: string, filters: seq<Filter>)
    requires Inv(db) && QueryAccepted(db, key, filters)
    ensures InTimeOrder(Matching(d, db, key, filters)) && DistinctIds(Matching(d, db, key, filters))
  {
    assert KeyOk(db, key);
    DistinctInTime(d, db.physical[key].rows, CompileAll(filters));
  }

  lemma {:induction false} DistinctInTime(d: Dialect, rows: seq<Row>, clauses: seq<Clause>)
    requires DistinctIds(rows)
    ensures InTimeOrder(ByTime(Where(d, rows, clauses))) && DistinctIds(ByTime(Where(d, rows, clauses)))
  {
    var selected := Where(d, rows, clauses);
    ByTimeSorted(selected);
    ByTimeMembers(selected);
    WhereDistinct(d, rows, clauses);
    OrderingDistinct(ByTime(selected), selected, (r: Row) => r.id);
  }

  /** A row is selected exactly when it satisfies every filter. */
  lemma {:induction false} MatchingMeans(d: Dialect, db: Db, key: string, filters: seq<Filter>, row: Row)
    requires QueryAccepted(db, key, filters)
    ensures row in Matching(d, db, key, filters) <==>
            row in db.physical[key].rows && forall i | 0 <= i < |filters| ::
              filters[i].column in row.vals
              && Holds(d, row.vals[filters[i].column], SafeOp(filters[i].operator).value,
                       if filters[i].operator == "contains" then ContainsPattern(filters[i].value)
                             else filters[i].value)
  {
    var selected := Where(d, db.physical[key].rows, CompileAll(filters));
    CompileAllAt(filters);
    ByTimeMembers(selected);
    assert row in ByTime(selected) <==> row in multiset(ByTime(selected));
    assert row in selected <==> row in multiset(selected);
  }

  lemma {:induction false} CompileAllAt(filters: seq<Filter>)
    requires forall i | 0 <= i < |filters| :: SafeOp(filters[i].operator).Some?
    ensures |CompileAll(filters)| == |filters|
    ensures forall i | 0 <= i < |filters| :: CompileAll(filters)[i] == Compile(filters[i])
  {
    if filters != [] { CompileAllAt(filters[..|filters| - 1]); }
  }

  lemma {:induction false} TextColumnValue(db: Db, key: string, c: Column, row: Row)
    requires Inv(db) && key in db.defs && row in db.physical[key].rows
    requires c in LoadColumns(db, key) && c.colType == "text"
    ensures c.name in row.vals && !row.vals[c.name].Num?
  {
    LoadedInOrder(db, key);
    assert KeyOk(db, key);
    var cols := ColumnsOf(db.columns, key);
    var i :| 0 <= i < |cols| && cols[i] == c;
    assert FitsColumn(cols[i], row.vals[cols[i].name]);
  }

  lemma {:induction false} LikeOnText(d: Dialect, v: Value, value: string)
    requires !v.Num? && NoWildcard(value)
    ensures Holds(d, v, "LIKE", ContainsPattern(value)) <==> v.Str? && ContainsFold(v.s, value)
  {
    if v.Str? { ContainsIsSubstring(value, v.s); }
  }

  lemma {:induction false} ContainsOnText(d: Dialect, db: Db, key: string, f: Filter, row: Row)
    requires QueryAccepted(db, key, [f]) && f.operator == "contains" && NoWildcard(f.value)
    requires row in db.physical[key].rows ==> f.column in row.vals && !row.vals[f.column].Num?
    ensures row in Matching(d, db, key, [f]) <==>
            row in db.physical[key].rows && row.vals[f.column].Str? && ContainsFold(row.vals[f.column].s, f.value)
  {
    MatchingMeans(d, db, key, [f], row);
    assert [f][0] == f;
    if row in db.physical[key].rows { LikeOnText(d, row.vals[f.column], f.value); }
  }

  /**
   * A contains filter on a text column selects exactly the rows whose text has the value as a substring,
   * ASCII case aside, provided the value has no wildcard.
   */
  lemma {:induction false} ContainsFilterSelects(d: Dialect, db: Db, key: string, f: Filter, c: Column, row: Row)
    requires Inv(db) && QueryAccepted(db, key, [f]) && f.operator == "contains" && NoWildcard(f.value)
    requires c in LoadColumns(db, key) && c.name == f.column && c.colType == "text"
    ensures row in Matching(d, db, key, [f]) <==>
            row in db.physical[key].rows && f.column in row.vals && row.vals[f.column].Str?
            && ContainsFold(row.vals[f.column].s, f.value)
  {
    if row in db.physical[key].rows { TextColumnValue(db, key, c, row); }
    ContainsOnText(d, db, key, f, row);
  }

  /** The operators a filter may name. */
  lemma {:induction false} KnownOperators(cols: seq<Column>, f: Filter)
    ensures FilterOk(cols, f) <==>
            (exists i | 0 <= i < |cols| :: cols[i].name == f.column)
            && f.operator in {"equals", "not_equals", "contains", "gt", "gte", "lt", "lte"}
  {}

  /** What a comparison on a number asks, by its name. */
  predicate Compares(operator: string, n: real, m: real) {
    match operator
    case "equals" => n == m
    case "not_equals" => n != m
    case "gt" => n > m
    case "gte" => n >= m
    case "lt" => n < m
    case _ => operator == "lte" && n <= m
  }

  /** A value that does not read as a number counts as greater than every number. */
  predicate ComparesTo(operator: string, n: real, m: Option<real>) {
    if m.Some? then Compares(operator, n, m.value) else operator in {"not_equals", "lt", "lte"}
  }

  /** What a comparison on a text asks: code point order. */
  predicate ComparesText(operator: string, s: string, t: string) {
    match operator
    case "equals" => s == t
    case "not_equals" => s != t
    case "gt" => Strings.Less(t, s)
    case "gte" => s == t || Strings.Less(t, s)
    case "lt" => Strings.Less(s, t)
    case _ => operator == "lte" && (s == t || Strings.Less(s, t))
  }

  lemma {:induction false} StoredKind(db: Db, key: string, c: Column, row: Row)
    requires Inv(db) && key in db.defs && row in db.physical[key].rows && c in LoadColumns(db, key)
    ensures c.name in row.vals
    ensures row.vals[c.name] == Null || (if c.colType == "text" then row.vals[c.name].Str? else row.vals[c.name].Num?)
  {
    LoadedInOrder(db, key);
    assert KeyOk(db, key);
    var cols := ColumnsOf(db.columns, key);
    var i :| 0 <= i < |cols| && cols[i] == c;
    assert FitsColumn(cols[i], row.vals[cols[i].name]);
  }

  lemma {:induction false} HoldsCompared(d: Dialect, v: Value, operator: string, arg: string)
    requires SafeOp(operator).Some? && operator != "contains"
    ensures v.Num? ==> (Holds(d, v, SafeOp(operator).value, arg) <==> ComparesTo(operator, v.n, d.toNumber(arg)))
    ensures v.Str? ==> (Holds(d, v, SafeOp(operator).value, arg) <==> ComparesText(operator, v.s, arg))
    ensures v == Null ==> !Holds(d, v, SafeOp(operator).value, arg)
  {
    if v.Str? { Strings.LessTrichotomy(v.s, arg); }
  }

  lemma {:induction false} OneFilter(d: Dialect, db: Db, key: string, f: Filter, row: Row)
    requires QueryAccepted(db, key, [f]) && SafeOp(f.operator).Some? && f.operator != "contains"
    ensures row in Matching(d, db, key, [f]) <==>
            row in db.physical[key].rows && f.column in row.vals
            && Holds(d, row.vals[f.column], SafeOp(f.operator).value, f.value)
  {
    MatchingMeans(d, db, key, [f], row);
    assert [f][0] == f;
  }

  /**
   * A comparison on a numeric or boolean column selects exactly the rows whose value is not null and compares so
   * with the number that the filter's value reads as.
   */
  lemma {:induction false} NumberFilterSelects(d: Dialect, db: Db, key: string, f: Filter, c: Column, row: Row)
    requires Inv(db) && QueryAccepted(db, key, [f]) && f.operator != "contains"
    requires c in LoadColumns(db, key) && c.name == f.column && c.colType != "text"
    ensures row in Matching(d, db, key, [f]) <==>
            row in db.physical[key].rows && f.column in row.vals && row.vals[f.column].Num?
            && ComparesTo(f.operator, row.vals[f.column].n, d.toNumber(f.value))
  {
    assert FilterOk(LoadColumns(db, key), [f][0]);
    OneFilter(d, db, key, f, row);
    if row in db.physical[key].rows {
      StoredKind(db, key, c, row);
      HoldsCompared(d, row.vals[f.column], f.operator, f.value);
    }
  }

  /** A comparison on a text column selects exactly the rows whose text compares so with the filter's value. */
  lemma {:induction false} TextFilterSelects(d: Dialect, db: Db, key: string, f: Filter, c: Column, row: Row)
    requires Inv(db) && QueryAccepted(db, key, [f]) && f.operator != "contains"
    requires c in LoadColumns(db, key) && c.name == f.column && c.colType == "text"
    ensures row in Matching(d, db, key, [f]) <==>
            row in db.physical[key].rows && f.column in row.vals && row.vals[f.column].Str?
            && ComparesText(f.operator, row.vals[f.column].s, f.value)
  {
    assert FilterOk(LoadColumns(db, key), [f][0]);
    OneFilter(d, db, key, f, row);
    if row in db.physical[key].rows {
      StoredKind(db, key, c, row);
      HoldsCompared(d, row.vals[f.column], f.operator, f.value);
    }
  }

  // ---- pages ----

  /** Where page k of size limit starts: 0, limit, 2 * limit, ... */
  function Offset(limit: int, k: nat): (r: int)
    ensures limit >= 0 ==> r >= 0
  {
    if k == 0 then 0 else Offset(limit, k - 1) + limit
  }

  /** The first n pages of size limit, concatenated. */
  function Pages(d: Dialect, db: Db, key: string, filters: seq<Filter>, limit: int, n: nat): seq<Record>
    requires QueryAccepted(db, key, filters)
  {
    if n == 0 then []
    else Pages(d, db, key, filters, limit, n - 1) + Queried(d, db, key, filters, limit, Offset(limit, n - 1)).value
  }

  function Upto(s: seq<Row>, n: int): seq<Row> {
    if n <= 0 then [] else if n >= |s| then s else s[..n]
  }

  lemma {:induction false} NextRecords(cols: seq<Column>, s: seq<Row>, limit: int, start: int)
    requires 1 <= limit && start >= 0
    ensures ToRecords(cols, Upto(s, start)) + ToRecords(cols, Page(s, limit, start))
          == ToRecords(cols, Upto(s, start + limit))
  {}

  function PagesOf(cols: seq<Column>, s: seq<Row>, limit: int, n: nat): seq<Record>
    requires limit >= 0
  {
    if n == 0 then [] else PagesOf(cols, s, limit, n - 1) + ToRecords(cols, Page(s, limit, Offset(limit, n - 1)))
  }

  /** The first n pages hold the records up to where page n starts. */
  predicate PagesReach(cols: seq<Column>, s: seq<Row>, limit: int, n: nat)
    requires limit >= 0
  {
    PagesOf(cols, s, limit, n) == ToRecords(cols, Upto(s, Offset(limit, n)))
  }

  lemma {:induction false} NoPages(cols: seq<Column>, s: seq<Row>, limit: int)
    requires 1 <= limit
    ensures PagesReach(cols, s, limit, 0)
  {}

  lemma {:induction false} OnePageMore(cols: seq<Column>, s: seq<Row>, limit: int, n: nat)
    requires 1 <= limit && n > 0 && PagesReach(cols, s, limit, n - 1)
    ensures PagesReach(cols, s, limit, n)
  {
    NextRecords(cols, s, limit, Offset(limit, n - 1));
  }

  lemma {:induction false} PagesOfUpto(cols: seq<Column>, s: seq<Row>, limit: int, n: nat)
    requires 1 <= limit
    ensures PagesReach(cols, s, limit, n)
  {
    if n == 0 {
      NoPages(cols, s, limit);
    } else {
      PagesOfUpto(cols, s, limit, n - 1);
      OnePageMore(cols, s, limit, n);
    }
  }

  lemma {:induction false} PageRecords(d: Dialect, db: Db, key: string, filters: seq<Filter>, limit: int, offset: int)
    requires QueryAccepted(db, key, filters) && 1 <= limit <= 1000
    ensures Queried(d, db, key, filters, limit, offset)
          == Done(ToRecords(LoadColumns(db, key), Page(Matching(d, db, key, filters), limit, offset)))
  {}

  lemma {:induction false} PagesAreQueried(d: Dialect, db: Db, key: string, filters: seq<Filter>, limit: int, n: nat)
    requires QueryAccepted(db, key, filters) && 1 <= limit <= 1000
    ensures Pages(d, db, key, filters, limit, n)
          == PagesOf(LoadColumns(db, key), Matching(d, db, key, filters), limit, n)
  {
    if n > 0 {
      PagesAreQueried(d, db, key, filters, limit, n - 1);
      PageRecords(d, db, key, filters, limit, Offset(limit, n - 1));
    }
  }

  /** Pages at offsets 0, L, 2L, ... concatenate to the whole filtered list: nothing is lost or repeated. */
  lemma {:induction false} PagesCoverExactly(d: Dialect, db: Db, key: string, filters: seq<Filter>, limit: int, n: nat)
    requires QueryAccepted(db, key, filters) && 1 <= limit <= 1000
    requires Offset(limit, n) >= |Matching(d, db, key, filters)|
    ensures Pages(d, db, key, filters, limit, n) == ToRecords(LoadColumns(db, key), Matching(d, db, key, filters))
  {
    PagesAreQueried(d, db, key, filters, limit, n);
    PagesOfUpto(LoadColumns(db, key), Matching(d, db, key, filters), limit, n);
  }

  /** A limit outside 1..1000 behaves as 100. */
  lemma {:induction false} OddLimitIsHundred(d: Dialect, db: Db, key: string, filters: seq<Filter>, limit: int,
          offset: int)
    requires !(1 <= limit <= 1000)
    ensures Queried(d, db, key, filters, limit, offset) == Queried(d, db, key, filters, 100, offset)
    ensures QueryAccepted(db, key, filters) ==> |Queried(d, db, key, filters, limit, offset).value| <= 100
  {}
}
