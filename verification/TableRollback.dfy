/**
 * Rolling back a flag context erases every insert made under it, together with everything
 * that later happened to the inserted rows, and nothing else.
 */
module TableRollback {
  import opened Wrappers
  import opened Seqs
  import opened Ddl
  import opened TableStore
  import opened TableSpec
  import Text

  /** The ids inserted into a table under a flag context. */
  function TaggedIds(ops: seq<Op>, table: string, ctx: string): set<string> {
    set i | 0 <= i < |ops| && ops[i].Insert? && ops[i].key == table && ops[i].flagCtx == Some(ctx) :: ops[i].id
  }

  /** The operation is neither a tagged insert nor an operation on a tagged row. */
  predicate Kept(op: Op, table: string, ctx: string, ids: set<string>) {
    match op
    case Insert(key, _, flagCtx, _, _) => key != table || flagCtx != Some(ctx)
    case Update(key, id, _, _) => key != table || id !in ids
    case Delete(key, id) => key != table || id !in ids
    case _ => true
  }

  function Erase(ops: seq<Op>, table: string, ctx: string, ids: set<string>): seq<Op> {
    if ops == [] then []
    else
      var n := |ops| - 1;
      var front := Erase(ops[..n], table, ctx, ids);
      if Kept(ops[n], table, ctx, ids) then front + [ops[n]] else front
  }

  /** The database without the rows tagged ctx in one table. */
  function Strip(db: Db, table: string, ctx: string): Db {
    if table in db.physical then SetRows(db, table, RolledBack(db.physical[table].rows, ctx)) else db
  }

  predicate RowsTagged(rows: seq<Row>, ctx: string, ids: set<string>) {
    forall i | 0 <= i < |rows| :: rows[i].flagCtx == Some(ctx) <==> rows[i].id in ids
  }

  /** In the table, the rows tagged ctx are exactly those with an id in ids. */
  predicate Tagged(db: Db, table: string, ctx: string, ids: set<string>) {
    table in db.physical ==> RowsTagged(db.physical[table].rows, ctx, ids)
  }

  /** Generated ids are not reused: no other insert into the table takes a tagged id, and ctx is not promoted. */
  predicate Admissible(op: Op, table: string, ctx: string, ids: set<string>) {
    && op != Promote(table, ctx)
    && (op.Insert? && op.key == table ==> (op.flagCtx == Some(ctx) <==> op.id in ids))
  }

  // ---- rolling back commutes with the changes to a row list ----

  lemma {:induction false} StripAppend(rows: seq<Row>, r: Row, ctx: string)
    ensures RolledBack(rows + [r], ctx) == if r.flagCtx == Some(ctx) then RolledBack(rows, ctx)
          else RolledBack(rows, ctx) + [r]
  {}

  lemma {:induction false} StripWithColumn(rows: seq<Row>, p: PhysCol, ctx: string)
    ensures RolledBack(WithColumn(rows, p), ctx) == WithColumn(RolledBack(rows, ctx), p)
  {
    if rows != [] {
      var n := |rows| - 1;
      StripWithColumn(rows[..n], p, ctx);
      StripAppend(WithColumn(rows[..n], p), WidenRow(rows[n], p), ctx);
      if rows[n].flagCtx != Some(ctx) {
        WithColumnAppend(RolledBack(rows[..n], ctx), rows[n], p);
      }
    }
  }

  lemma {:induction false} WithColumnAppend(rows: seq<Row>, r: Row, p: PhysCol)
    ensures WithColumn(rows + [r], p) == WithColumn(rows, p) + [WidenRow(r, p)]
  {}

  lemma {:induction false} PatchedAppend(rows: seq<Row>, r: Row, id: string, patch: map<string, Value>, now: int)
    ensures Patched(rows + [r], id, patch, now) == Patched(rows, id, patch, now) + [PatchRow(r, id, patch, now)]
  {}

  lemma {:induction false} StripPatched(rows: seq<Row>, id: string, patch: map<string, Value>, now: int, ctx: string)
    ensures RolledBack(Patched(rows, id, patch, now), ctx) == Patched(RolledBack(rows, ctx), id, patch, now)
  {
    if rows != [] {
      var n := |rows| - 1;
      StripPatched(rows[..n], id, patch, now, ctx);
      StripAppend(Patched(rows[..n], id, patch, now), PatchRow(rows[n], id, patch, now), ctx);
      PatchedAppend(RolledBack(rows[..n], ctx), rows[n], id, patch, now);
    }
  }

  lemma {:induction false} RemovedAppend(rows: seq<Row>, r: Row, id: string)
    ensures Removed(rows + [r], id) == if r.id == id then Removed(rows, id) else Removed(rows, id) + [r]
  {}

  lemma {:induction false} StripRemoved(rows: seq<Row>, id: string, ctx: string)
    ensures RolledBack(Removed(rows, id), ctx) == Removed(RolledBack(rows, ctx), id)
  {
    if rows != [] {
      var n := |rows| - 1;
      StripRemoved(rows[..n], id, ctx);
      if rows[n].id != id { StripAppend(Removed(rows[..n], id), rows[n], ctx); }
      if rows[n].flagCtx != Some(ctx) { RemovedAppend(RolledBack(rows[..n], ctx), rows[n], id); }
    }
  }

  lemma {:induction false} StripRolledBack(rows: seq<Row>, other: string, ctx: string)
    ensures RolledBack(RolledBack(rows, other), ctx) == RolledBack(RolledBack(rows, ctx), other)
  {
    if rows != [] {
      var n := |rows| - 1;
      StripRolledBack(rows[..n], other, ctx);
      if rows[n].flagCtx != Some(other) { StripAppend(RolledBack(rows[..n], other), rows[n], ctx); }
      if rows[n].flagCtx != Some(ctx) { StripAppend(RolledBack(rows[..n], ctx), rows[n], other); }
    }
  }

  lemma {:induction false} PromotedAppend(rows: seq<Row>, r: Row, ctx: string)
    ensures Promoted(rows + [r], ctx) == Promoted(rows, ctx) + [PromoteRow(r, ctx)]
  {}

  lemma {:induction false} StripPromoted(rows: seq<Row>, other: string, ctx: string)
    requires other != ctx
    ensures RolledBack(Promoted(rows, other), ctx) == Promoted(RolledBack(rows, ctx), other)
  {
    if rows != [] {
      var n := |rows| - 1;
      StripPromoted(rows[..n], other, ctx);
      StripAppend(Promoted(rows[..n], other), PromoteRow(rows[n], other), ctx);
      if rows[n].flagCtx != Some(ctx) { PromotedAppend(RolledBack(rows[..n], ctx), rows[n], other); }
    }
  }

  /** Patching or removing a tagged row changes nothing that survives the rollback. */
  lemma {:induction false} StripIgnoresTagged(rows: seq<Row>, id: string, patch: map<string, Value>, now: int,
                                              ctx: string, ids: set<string>)
    requires RowsTagged(rows, ctx, ids) && id in ids
    ensures RolledBack(Patched(rows, id, patch, now), ctx) == RolledBack(rows, ctx)
    ensures RolledBack(Removed(rows, id), ctx) == RolledBack(rows, ctx)
  {
    StripPatched(rows, id, patch, now, ctx);
    StripRemoved(rows, id, ctx);
    IdAbsent(rows, id, ctx, ids);
    AbsentUnchanged(RolledBack(rows, ctx), id, patch, now);
  }

  lemma {:induction false} IdAbsent(rows: seq<Row>, id: string, ctx: string, ids: set<string>)
    requires RowsTagged(rows, ctx, ids) && id in ids
    ensures !HasId(RolledBack(rows, ctx), id)
  {}

  lemma {:induction false} AbsentUnchanged(rows: seq<Row>, id: string, patch: map<string, Value>, now: int)
    requires !HasId(rows, id)
    ensures Patched(rows, id, patch, now) == rows && Removed(rows, id) == rows
  {
    if rows != [] {
      var front, last := rows[..|rows| - 1], rows[|rows| - 1];
      assert last.id != id;
      assert !HasId(front, id) by { assert forall i | 0 <= i < |front| :: front[i] == rows[i]; }
      AbsentUnchanged(front, id, patch, now);
      assert front + [last] == rows;
    }
  }

  /** An untagged id is present before a rollback exactly when it is present after. */
  lemma {:induction false} PresenceKept(rows: seq<Row>, id: string, ctx: string, ids: set<string>)
    requires RowsTagged(rows, ctx, ids) && id !in ids
    ensures HasId(RolledBack(rows, ctx), id) <==> HasId(rows, id)
  {
    if rows != [] {
      var n := |rows| - 1;
      assert forall i | 0 <= i < n :: rows[..n][i] == rows[i];
      PresenceKept(rows[..n], id, ctx, ids);
      HasIdAppend(rows[..n], rows[n], id);
      HasIdAppend(RolledBack(rows[..n], ctx), rows[n], id);
      assert rows[..n] + [rows[n]] == rows;
    }
  }

  lemma {:induction false} HasIdAppend(rows: seq<Row>, r: Row, id: string)
    ensures HasId(rows + [r], id) <==> HasId(rows, id) || r.id == id
  {
    if HasId(rows, id) {
      var i :| 0 <= i < |rows| && rows[i].id == id;
      assert (rows + [r])[i].id == id;
    }
    assert (rows + [r])[|rows|] == r;
  }

  // ---- one operation ----

  lemma {:induction false} StripExtend1(db: Db, key: string, c: Column, table: string, ctx: string)
    requires key in db.physical
    ensures Strip(Extend1(db, key, c), table, ctx) == Extend1(Strip(db, table, ctx), key, c)
  {
    if key == table {
      StripWithColumn(db.physical[key].rows, Written(c), ctx);
    }
    PhysicalEqual(Strip(Extend1(db, key, c), table, ctx).physical, Extend1(Strip(db, table, ctx), key, c).physical);
  }

  lemma {:induction false} PhysicalEqual(a: map<string, Physical>, b: map<string, Physical>)
    requires a.Keys == b.Keys && forall k | k in a :: a[k] == b[k]
    ensures a == b
  {}

  lemma {:induction false} StripExtend(db: Db, key: string, cols: seq<Column>, table: string, ctx: string)
    requires key in db.physical
    ensures key in Strip(db, table, ctx).physical
    ensures Strip(Extend(db, key, cols), table, ctx) == Extend(Strip(db, table, ctx), key, cols)
  {
    if cols != [] {
      var n := |cols| - 1;
      StripExtend(db, key, cols[..n], table, ctx);
      StripExtend1(Extend(db, key, cols[..n]), key, cols[n], table, ctx);
    }
  }

  lemma {:induction false} StripCreated(db: Db, key: string, def: Def, cols: seq<Column>, table: string, ctx: string)
    ensures Strip(Created(db, key, def, cols), table, ctx) == Created(Strip(db, table, ctx), key, def, cols)
  {}

  lemma {:induction false} StripDropped(db: Db, key: string, table: string, ctx: string)
    ensures Strip(Dropped(db, key), table, ctx) == Dropped(Strip(db, table, ctx), key)
  {}

  lemma {:induction false} StripAdded(db: Db, key: string, newCols: seq<Column>, now: int, table: string, ctx: string)
    requires key in db.physical
    ensures key in Strip(db, table, ctx).physical
    ensures Strip(Added(db, key, newCols, now), table, ctx) == Added(Strip(db, table, ctx), key, newCols, now)
  {
    StripExtend(db, key, FreshOf(LoadColumns(db, key), newCols), table, ctx);
  }

  /** The table has rows, and all of them are tagged. */
  predicate OnlyTagged(db: Db, table: string, ctx: string) {
    Populated(db, table)
    && forall i | 0 <= i < |db.physical[table].rows| :: db.physical[table].rows[i].flagCtx == Some(ctx)
  }

  /** A new column of the request has no value for the rows of a table. */
  predicate NeedsEmpty(existing: seq<Column>, newCols: seq<Column>) {
    exists i | 0 <= i < |newCols| :: !HasName(existing, newCols[i].name) && !Backfills(newCols[i])
  }

  /**
   * The request shows whether tagged rows are there: it adds a column that only a table without rows can
   * take, is otherwise acceptable, and finds a table whose rows are all tagged.
   */
  predicate TellsApart(db: Db, op: Op, table: string, ctx: string) {
    op.Add? && op.key == table && table in db.defs && OnlyTagged(db, table, ctx)
    && (forall i | 0 <= i < |op.newCols| :: AddAcceptedAt(LoadColumns(db, table), false, op.newCols, i))
    && NeedsEmpty(LoadColumns(db, table), op.newCols)
  }

  lemma {:induction false} AcceptedPopulated(existing: seq<Column>, newCols: seq<Column>)
    ensures (forall i | 0 <= i < |newCols| :: AddAcceptedAt(existing, true, newCols, i)) <==>
            (forall i | 0 <= i < |newCols| :: AddAcceptedAt(existing, false, newCols, i))
            && !NeedsEmpty(existing, newCols)
  {
    forall i | 0 <= i < |newCols|
      ensures AddAcceptedAt(existing, true, newCols, i) <==>
              AddAcceptedAt(existing, false, newCols, i)
              && (HasName(existing, newCols[i].name) || Backfills(newCols[i]))
    {}
  }

  lemma {:induction false} EmptiedIffOnlyTagged(rows: seq<Row>, ctx: string)
    ensures RolledBack(rows, ctx) == [] <==> forall i | 0 <= i < |rows| :: rows[i].flagCtx == Some(ctx)
  {
    if rows != [] {
      var n := |rows| - 1;
      EmptiedIffOnlyTagged(rows[..n], ctx);
      assert forall i | 0 <= i < n :: rows[..n][i] == rows[i];
    }
  }

  lemma {:induction false} StripPopulated(db: Db, key: string, table: string, ctx: string)
    ensures Populated(Strip(db, table, ctx), key) <==>
            Populated(db, key) && !(key == table && OnlyTagged(db, table, ctx))
  {
    if table in db.physical { EmptiedIffOnlyTagged(db.physical[table].rows, ctx); }
  }

  /** What the stripped database accepts and the full one does not. */
  lemma {:induction false} AddAcceptance(db: Db, op: Op, table: string, ctx: string)
    requires op.Add?
    ensures Accepted(db, op) <==> Accepted(Strip(db, table, ctx), op) && !TellsApart(db, op, table, ctx)
    ensures TellsApart(db, op, table, ctx) ==> Accepted(Strip(db, table, ctx), op)
  {
    StripKeys(db, table, ctx);
    StripPopulated(db, op.key, table, ctx);
    assert LoadColumns(Strip(db, table, ctx), op.key) == LoadColumns(db, op.key);
    AcceptedPopulated(LoadColumns(db, op.key), op.newCols);
  }

  lemma {:induction false} StripKeys(db: Db, table: string, ctx: string)
    ensures Strip(db, table, ctx).physical.Keys == db.physical.Keys
  {}

  lemma {:induction false} StripAdd(db: Db, op: Op, table: string, ctx: string)
    requires op.Add?
    ensures Strip(Apply(db, op), table, ctx) == Apply(Strip(db, table, ctx), op) <==> !TellsApart(db, op, table, ctx)
  {
    AddAcceptance(db, op, table, ctx);
    if Accepted(db, op) {
      StripAdded(db, op.key, op.newCols, op.now, table, ctx);
    } else if TellsApart(db, op, table, ctx) {
      AddedGrows(Strip(db, table, ctx), table, op.newCols, op.now);
    }
  }

  /** A request with a column that is not there yet adds one. */
  lemma {:induction false} AddedGrows(db: Db, key: string, newCols: seq<Column>, now: int)
    requires key in db.physical && NeedsEmpty(LoadColumns(db, key), newCols)
    ensures |Added(db, key, newCols, now).columns| > |db.columns|
  {
    FreshThere(LoadColumns(db, key), newCols);
    ExtendLength(db, key, FreshOf(LoadColumns(db, key), newCols));
  }

  lemma {:induction false} FreshThere(existing: seq<Column>, newCols: seq<Column>)
    requires NeedsEmpty(existing, newCols)
    ensures FreshOf(existing, newCols) != []
  {
    var n := |newCols| - 1;
    if HasName(existing, newCols[n].name) {
      var i :| 0 <= i < |newCols| && !HasName(existing, newCols[i].name) && !Backfills(newCols[i]);
      assert newCols[..n][i] == newCols[i];
      FreshThere(existing, newCols[..n]);
    }
  }

  lemma {:induction false} ExtendLength(db: Db, key: string, cols: seq<Column>)
    requires key in db.physical
    ensures |Extend(db, key, cols).columns| == |db.columns| + |cols|
  {
    if cols != [] { ExtendLength(db, key, cols[..|cols| - 1]); }
  }

  lemma {:induction false} StripSchemaOp(db: Db, op: Op, table: string, ctx: string)
    requires op.Create? || op.Drop?
    ensures Strip(Apply(db, op), table, ctx) == Apply(Strip(db, table, ctx), op)
  {
    StripKeys(db, table, ctx);
    if Accepted(db, op) {
      match op
      case Create(key, def, cols) => StripCreated(db, key, def, cols, table, ctx);
      case Drop(key) => StripDropped(db, key, table, ctx);
    }
  }

  lemma {:induction false} SetRowsApart(db: Db, key: string, rows: seq<Row>, table: string, ctx: string)
    requires key in db.physical && key != table
    ensures key in Strip(db, table, ctx).physical
    ensures Strip(SetRows(db, key, rows), table, ctx) == SetRows(Strip(db, table, ctx), key, rows)
  {}

  /** Row operations on another table. */
  lemma {:induction false} StripOtherTable(db: Db, op: Op, table: string, ctx: string)
    requires !op.Create? && !op.Add? && !op.Drop? && op.key != table
    ensures Strip(Apply(db, op), table, ctx) == Apply(Strip(db, table, ctx), op)
  {
    if Accepted(db, op) {
      var rows := db.physical[op.key].rows;
      match op
      case Insert(key, id, flagCtx, now, data) =>
        SetRowsApart(db, key, rows + [NewRow(db, key, id, flagCtx, now, data)], table, ctx);
      case Update(key, id, data, now) =>
        SetRowsApart(db, key, Patched(rows, id, BindAll(data), now), table, ctx);
      case Delete(key, id) => SetRowsApart(db, key, Removed(rows, id), table, ctx);
      case Rollback(key, other) => SetRowsApart(db, key, RolledBack(rows, other), table, ctx);
      case Promote(key, other) => SetRowsApart(db, key, Promoted(rows, other), table, ctx);
    }
  }

  lemma {:induction false} SetRowsTwice(db: Db, key: string, a: seq<Row>, b: seq<Row>)
    requires key in db.physical
    ensures SetRows(SetRows(db, key, a), key, b) == SetRows(db, key, b)
  {}

  lemma {:induction false} StripKeptInsert(db: Db, op: Op, table: string, ctx: string, ids: set<string>)
    requires op.Insert? && op.key == table && Tagged(db, table, ctx, ids)
    requires Admissible(op, table, ctx, ids) && op.flagCtx != Some(ctx)
    ensures Strip(Apply(db, op), table, ctx) == Apply(Strip(db, table, ctx), op)
  {
    if table in db.physical {
      var rows := db.physical[table].rows;
      PresenceKept(rows, op.id, ctx, ids);
      assert Accepted(db, op) <==> Accepted(Strip(db, table, ctx), op);
      if Accepted(db, op) {
        StripAppend(rows, NewRow(db, table, op.id, op.flagCtx, op.now, op.data), ctx);
        SetRowsTwice(db, table, rows + [NewRow(db, table, op.id, op.flagCtx, op.now, op.data)], RolledBack(rows, ctx)
              + [NewRow(db, table, op.id, op.flagCtx, op.now, op.data)]);
        SetRowsTwice(db, table, RolledBack(rows, ctx), RolledBack(rows, ctx)
              + [NewRow(db, table, op.id, op.flagCtx, op.now, op.data)]);
      }
    }
  }

  lemma {:induction false} StripKeptUpdate(db: Db, op: Op, table: string, ctx: string)
    requires op.Update? && op.key == table
    ensures Strip(Apply(db, op), table, ctx) == Apply(Strip(db, table, ctx), op)
  {
    if Accepted(db, op) && op.data != map[] {
      var rows := db.physical[table].rows;
      StripPatched(rows, op.id, BindAll(op.data), op.now, ctx);
      var patched := Patched(rows, op.id, BindAll(op.data), op.now);
      SetRowsTwice(db, table, patched, RolledBack(patched, ctx));
      SetRowsTwice(db, table, RolledBack(rows, ctx), RolledBack(patched, ctx));
    }
  }

  lemma {:induction false} StripKeptRowOp(db: Db, op: Op, table: string, ctx: string)
    requires (op.Delete? || op.Rollback? || op.Promote?) && op.key == table && op != Promote(table, ctx)
    ensures Strip(Apply(db, op), table, ctx) == Apply(Strip(db, table, ctx), op)
  {
    if Accepted(db, op) {
      var rows := db.physical[table].rows;
      var after := if op.Delete? then Removed(rows, op.id) else if op.Rollback? then RolledBack(rows, op.ctx)
            else Promoted(rows, op.ctx);
      match op {
        case Delete(_, id) => StripRemoved(rows, id, ctx);
        case Rollback(_, other) => StripRolledBack(rows, other, ctx);
        case Promote(_, other) => StripPromoted(rows, other, ctx);
      }
      SetRowsTwice(db, table, after, RolledBack(after, ctx));
      SetRowsTwice(db, table, RolledBack(rows, ctx), RolledBack(after, ctx));
    }
  }

  /** An operation that is kept acts on the stripped database as on the full one, unless it tells them apart. */
  lemma {:induction false} StripKept(db: Db, op: Op, table: string, ctx: string, ids: set<string>)
    requires Tagged(db, table, ctx, ids) && Admissible(op, table, ctx, ids) && Kept(op, table, ctx, ids)
    ensures Strip(Apply(db, op), table, ctx) == Apply(Strip(db, table, ctx), op) <==> !TellsApart(db, op, table, ctx)
  {
    if op.Add? {
      StripAdd(db, op, table, ctx);
    } else if op.Create? || op.Drop? {
      StripSchemaOp(db, op, table, ctx);
    } else if op.key != table {
      StripOtherTable(db, op, table, ctx);
    } else if op.Insert? {
      StripKeptInsert(db, op, table, ctx, ids);
    } else if op.Update? {
      StripKeptUpdate(db, op, table, ctx);
    } else {
      StripKeptRowOp(db, op, table, ctx);
    }
  }

  /** An operation that is erased leaves the stripped database alone. */
  lemma {:induction false} StripErased(db: Db, op: Op, table: string, ctx: string, ids: set<string>)
    requires Tagged(db, table, ctx, ids) && !Kept(op, table, ctx, ids)
    ensures Strip(Apply(db, op), table, ctx) == Strip(db, table, ctx)
  {
    if Accepted(db, op) {
      var rows := db.physical[table].rows;
      match op
      case Insert(_, id, flagCtx, now, data) =>
        var row := NewRow(db, table, id, flagCtx, now, data);
        StripAppend(rows, row, ctx);
        SetRowsTwice(db, table, rows + [row], RolledBack(rows, ctx));
      case Update(_, id, data, now) =>
        if data != map[] {
          StripIgnoresTagged(rows, id, BindAll(data), now, ctx, ids);
          SetRowsTwice(db, table, Patched(rows, id, BindAll(data), now), RolledBack(rows, ctx));
        }
      case Delete(_, id) =>
        StripIgnoresTagged(rows, id, map[], 0, ctx, ids);
        SetRowsTwice(db, table, Removed(rows, id), RolledBack(rows, ctx));
    }
  }

  // ---- the tag invariant ----

  lemma {:induction false} SubsetTagged(rows: seq<Row>, some: seq<Row>, ctx: string, ids: set<string>)
    requires RowsTagged(rows, ctx, ids) && forall i | 0 <= i < |some| :: some[i] in rows
    ensures RowsTagged(some, ctx, ids)
  {}

  lemma {:induction false} ExtendTagged(db: Db, key: string, cols: seq<Column>, table: string, ctx: string,
          ids: set<string>)
    requires key in db.physical && Tagged(db, table, ctx, ids)
    ensures Tagged(Extend(db, key, cols), table, ctx, ids)
  {
    if cols != [] {
      ExtendTagged(db, key, cols[..|cols| - 1], table, ctx, ids);
    }
  }

  lemma {:induction false} ApplyTagged(db: Db, op: Op, table: string, ctx: string, ids: set<string>)
    requires Tagged(db, table, ctx, ids) && Admissible(op, table, ctx, ids)
    ensures Tagged(Apply(db, op), table, ctx, ids)
  {
    if Accepted(db, op) {
      match op
      case Add(key, newCols, now) => ExtendTagged(db, key, FreshOf(LoadColumns(db, key), newCols), table, ctx, ids);
      case Delete(key, id) =>
        if key == table { SubsetTagged(db.physical[key].rows, Removed(db.physical[key].rows, id), ctx, ids); }
      case Rollback(key, other) =>
        if key == table { SubsetTagged(db.physical[key].rows, RolledBack(db.physical[key].rows, other), ctx, ids); }
      case _ =>
    }
  }

  lemma {:induction false} RunTagged(db: Db, ops: seq<Op>, table: string, ctx: string, ids: set<string>)
    requires Tagged(db, table, ctx, ids)
    requires forall i | 0 <= i < |ops| :: Admissible(ops[i], table, ctx, ids)
    ensures Tagged(Run(db, ops), table, ctx, ids)
  {
    if ops != [] {
      var n := |ops| - 1;
      RunTagged(db, ops[..n], table, ctx, ids);
      ApplyTagged(Run(db, ops[..n]), ops[n], table, ctx, ids);
    }
  }

  /** No operation of the run tells whether tagged rows are there. */
  predicate NoneTellsApart(db: Db, ops: seq<Op>, table: string, ctx: string) {
    forall i | 0 <= i < |ops| :: !TellsApart(Run(db, ops[..i]), ops[i], table, ctx)
  }

  lemma {:induction false} NoneTellsApartBefore(db: Db, ops: seq<Op>, n: nat, table: string, ctx: string)
    requires n <= |ops| && NoneTellsApart(db, ops, table, ctx)
    ensures NoneTellsApart(db, ops[..n], table, ctx)
  {
    forall i | 0 <= i < n ensures !TellsApart(Run(db, ops[..n][..i]), ops[..n][i], table, ctx) {
      assert ops[..n][..i] == ops[..i];
      assert !TellsApart(Run(db, ops[..i]), ops[i], table, ctx);
    }
  }

  lemma {:induction false} RunStrip(db: Db, ops: seq<Op>, table: string, ctx: string, ids: set<string>)
    requires Tagged(db, table, ctx, ids) && NoneTellsApart(db, ops, table, ctx)
    requires forall i | 0 <= i < |ops| :: Admissible(ops[i], table, ctx, ids)
    ensures Strip(Run(db, ops), table, ctx) == Run(Strip(db, table, ctx), Erase(ops, table, ctx, ids))
  {
    if ops != [] {
      var n := |ops| - 1;
      NoneTellsApartBefore(db, ops, n, table, ctx);
      RunStrip(db, ops[..n], table, ctx, ids);
      RunTagged(db, ops[..n], table, ctx, ids);
      StripTurn(Run(db, ops[..n]), Run(Strip(db, table, ctx), Erase(ops[..n], table, ctx, ids)), ops[n],
                table, ctx, ids);
      EraseTurn(Strip(db, table, ctx), ops, table, ctx, ids);
    }
  }

  /** One more operation on a database and on its stripped form. */
  lemma {:induction false} StripTurn(db: Db, stripped: Db, op: Op, table: string, ctx: string, ids: set<string>)
    requires Tagged(db, table, ctx, ids) && Admissible(op, table, ctx, ids) && stripped == Strip(db, table, ctx)
    ensures Strip(Apply(db, op), table, ctx) == (if Kept(op, table, ctx, ids) then Apply(stripped, op) else stripped)
            <==> !TellsApart(db, op, table, ctx)
  {
    if Kept(op, table, ctx, ids) {
      StripKept(db, op, table, ctx, ids);
    } else {
      StripErased(db, op, table, ctx, ids);
    }
  }

  lemma {:induction false} EraseTurn(db: Db, ops: seq<Op>, table: string, ctx: string, ids: set<string>)
    requires ops != []
    ensures var n := |ops| - 1;
            var before := Run(db, Erase(ops[..n], table, ctx, ids));
            Run(db, Erase(ops, table, ctx, ids)) ==
              if Kept(ops[n], table, ctx, ids) then Apply(before, ops[n]) else before
  {
    var e := Erase(ops[..|ops| - 1], table, ctx, ids);
    assert (e + [ops[|ops| - 1]])[..|e|] == e;
  }

  lemma {:induction false} NothingTagged(rows: seq<Row>, ctx: string)
    requires forall i | 0 <= i < |rows| :: rows[i].flagCtx != Some(ctx)
    ensures RolledBack(rows, ctx) == rows
  {
    if rows != [] { NothingTagged(rows[..|rows| - 1], ctx); }
  }

  /** No row of the table carries the tag, or an id that is going to be inserted under it. */
  predicate Untouched(db: Db, table: string, ctx: string, ids: set<string>) {
    table in db.physical ==>
      forall i | 0 <= i < |db.physical[table].rows| ::
        db.physical[table].rows[i].flagCtx != Some(ctx) && db.physical[table].rows[i].id !in ids
  }

  /** Generated ids are fresh: no other insert into the table takes an id that was inserted under ctx. */
  predicate FreshIds(ops: seq<Op>, table: string, ctx: string) {
    forall i | 0 <= i < |ops| && ops[i].Insert? && ops[i].key == table && ops[i].id in TaggedIds(ops, table, ctx) ::
      ops[i].flagCtx == Some(ctx)
  }

  lemma {:induction false} AllAdmissible(ops: seq<Op>, table: string, ctx: string)
    requires Promote(table, ctx) !in ops && FreshIds(ops, table, ctx)
    ensures forall i | 0 <= i < |ops| :: Admissible(ops[i], table, ctx, TaggedIds(ops, table, ctx))
  {}

  lemma {:induction false} StripNothing(db: Db, table: string, ctx: string, ids: set<string>)
    requires Untouched(db, table, ctx, ids)
    ensures Tagged(db, table, ctx, ids) && Strip(db, table, ctx) == db
  {
    if table in db.physical {
      NothingTagged(db.physical[table].rows, ctx);
      PhysicalEqual(Strip(db, table, ctx).physical, db.physical);
    }
  }

  lemma {:induction false} PhysicalIsValid(db: Db, key: string)
    requires Inv(db) && key in db.physical
    ensures ValidKey(key)
  {
    assert KeyOk(db, key);
  }

  lemma {:induction false} RollbackStrips(db: Db, table: string, ctx: string)
    requires table in db.physical ==> ValidKey(table)
    ensures Apply(db, Rollback(table, ctx)) == Strip(db, table, ctx)
  {}

  /** Rolling ctx back after n operations gives what they give without everything that concerns tagged rows. */
  predicate ErasedAt(db: Db, ops: seq<Op>, n: nat, table: string, ctx: string)
    requires n <= |ops|
  {
    Apply(Run(db, ops[..n]), Rollback(table, ctx))
    == Run(db, Erase(ops[..n], table, ctx, TaggedIds(ops, table, ctx)))
  }

  /** No row of the table is tagged yet, ctx is never promoted, and generated ids are fresh. */
  predicate Scoped(db: Db, ops: seq<Op>, table: string, ctx: string) {
    Inv(db) && Untouched(db, table, ctx, TaggedIds(ops, table, ctx))
    && Promote(table, ctx) !in ops && FreshIds(ops, table, ctx)
  }

  lemma {:induction false} RunThenRollback(db: Db, ops: seq<Op>, n: nat, table: string, ctx: string)
    requires n <= |ops| && Scoped(db, ops, table, ctx)
    ensures Tagged(Run(db, ops[..n]), table, ctx, TaggedIds(ops, table, ctx))
    ensures Apply(Run(db, ops[..n]), Rollback(table, ctx)) == Strip(Run(db, ops[..n]), table, ctx)
  {
    var ids := TaggedIds(ops, table, ctx);
    var now := Run(db, ops[..n]);
    AllAdmissible(ops, table, ctx);
    StripNothing(db, table, ctx, ids);
    assert forall i | 0 <= i < n :: ops[..n][i] == ops[i];
    RunTagged(db, ops[..n], table, ctx, ids);
    RunKeepsInv(db, ops[..n]);
    if table in now.physical { PhysicalIsValid(now, table); }
    RollbackStrips(now, table, ctx);
  }

  lemma {:induction false} ErasedWithout(db: Db, ops: seq<Op>, n: nat, table: string, ctx: string)
    requires n <= |ops| && Scoped(db, ops, table, ctx) && NoneTellsApart(db, ops, table, ctx)
    ensures ErasedAt(db, ops, n, table, ctx)
  {
    var ids := TaggedIds(ops, table, ctx);
    AllAdmissible(ops, table, ctx);
    StripNothing(db, table, ctx, ids);
    assert forall i | 0 <= i < n :: ops[..n][i] == ops[i];
    NoneTellsApartBefore(db, ops, n, table, ctx);
    RunStrip(db, ops[..n], table, ctx, ids);
    RunThenRollback(db, ops, n, table, ctx);
  }

  lemma {:induction false} ToldApart(db: Db, ops: seq<Op>, i: nat, table: string, ctx: string)
    requires i < |ops| && Scoped(db, ops, table, ctx) && TellsApart(Run(db, ops[..i]), ops[i], table, ctx)
    ensures !(ErasedAt(db, ops, i, table, ctx) && ErasedAt(db, ops, i + 1, table, ctx))
  {
    var ids := TaggedIds(ops, table, ctx);
    AllAdmissible(ops, table, ctx);
    RunThenRollback(db, ops, i, table, ctx);
    RunThenRollback(db, ops, i + 1, table, ctx);
    assert ops[..i + 1][..i] == ops[..i];
    EraseTurn(db, ops[..i + 1], table, ctx, ids);
    StripTurn(Run(db, ops[..i]), Strip(Run(db, ops[..i]), table, ctx), ops[i], table, ctx, ids);
  }

  /**
   * Rollback erases flagged inserts. Start with no row of the table tagged ctx and run any mix of
   * operations that does not promote ctx. At every point of the run, rolling ctx back there gives the
   * database of the same operations with every insert tagged ctx, and every update and delete of the
   * inserted ids, left out - if and only if no AddColumns of the run brings a column without a value for
   * existing rows to the table while all its rows are tagged.
   */
  lemma {:induction false} RollbackErasesFlaggedInserts(db: Db, ops: seq<Op>, table: string, ctx: string)
    requires Scoped(db, ops, table, ctx)
    ensures (forall n: nat | n <= |ops| :: ErasedAt(db, ops, n, table, ctx)) <==> NoneTellsApart(db, ops, table, ctx)
  {
    if NoneTellsApart(db, ops, table, ctx) {
      forall n: nat | n <= |ops| ensures ErasedAt(db, ops, n, table, ctx) {
        ErasedWithout(db, ops, n, table, ctx);
      }
    } else {
      var i :| 0 <= i < |ops| && TellsApart(Run(db, ops[..i]), ops[i], table, ctx);
      ToldApart(db, ops, i, table, ctx);
    }
  }

  /** Every column that the operation adds to the table gives existing rows a value. */
  predicate AddsBackfill(op: Op, table: string) {
    op.Add? && op.key == table ==> forall i | 0 <= i < |op.newCols| :: Backfills(op.newCols[i])
  }

  /** A guard on the requests alone: when every added column backfills, rollback erases at every point. */
  lemma {:induction false} BackfillingRunErased(db: Db, ops: seq<Op>, table: string, ctx: string)
    requires Scoped(db, ops, table, ctx) && forall i | 0 <= i < |ops| :: AddsBackfill(ops[i], table)
    ensures forall n: nat | n <= |ops| :: ErasedAt(db, ops, n, table, ctx)
  {
    forall i | 0 <= i < |ops| ensures !TellsApart(Run(db, ops[..i]), ops[i], table, ctx) {
      assert AddsBackfill(ops[i], table);
    }
    RollbackErasesFlaggedInserts(db, ops, table, ctx);
  }

  lemma {:induction false} PairRun(db: Db, a: Op, b: Op)
    ensures Run(db, [a, b]) == Apply(Apply(db, a), b) && Run(db, [b]) == Apply(db, b)
  {
    assert [a, b][..1] == [a] && [a][..0] == [] && [b][..0] == [];
    assert Run(db, [a]) == Apply(db, a);
  }

  lemma {:induction false} PairErase(insert: Op, add: Op, table: string, ctx: string)
    requires insert.Insert? && insert.key == table && insert.flagCtx == Some(ctx) && add.Add?
    ensures TaggedIds([insert, add], table, ctx) == {insert.id}
    ensures Erase([insert, add], table, ctx, {insert.id}) == [add]
    ensures FreshIds([insert, add], table, ctx) && Promote(table, ctx) !in [insert, add]
  {
    assert [insert, add][0] == insert && [insert, add][1] == add;
    assert [insert, add][..1] == [insert] && [insert][..0] == [];
    assert Erase([insert], table, ctx, {insert.id}) == [];
  }

  /** Once a tagged row is the only one, the request that needs an empty table is refused. */
  lemma {:induction false} InsertThenRefused(db: Db, insert: Op, add: Op, table: string, ctx: string)
    requires !Populated(db, table)
    requires insert.Insert? && insert.key == table && insert.flagCtx == Some(ctx) && Accepted(db, insert)
    requires add.Add? && add.key == table && Accepted(db, add) && NeedsEmpty(LoadColumns(db, table), add.newCols)
    ensures Strip(Apply(db, insert), table, ctx) == db && Apply(Apply(db, insert), add) == Apply(db, insert)
  {
    var row := NewRow(db, table, insert.id, Some(ctx), insert.now, insert.data);
    var mid := Apply(db, insert);
    assert mid.physical[table].rows == [row];
    assert RolledBack([row], ctx) == [] by { assert [row][..0] == []; }
    PhysicalEqual(Strip(mid, table, ctx).physical, db.physical);
    assert OnlyTagged(mid, table, ctx) && LoadColumns(mid, table) == LoadColumns(db, table);
    AddAcceptance(mid, add, table, ctx);
  }

  lemma {:induction false} PairRolledBack(db: Db, insert: Op, add: Op, table: string, ctx: string)
    requires Inv(db) && !Populated(db, table)
    requires insert.Insert? && insert.key == table && insert.flagCtx == Some(ctx) && Accepted(db, insert)
    requires add.Add? && add.key == table && Accepted(db, add) && NeedsEmpty(LoadColumns(db, table), add.newCols)
    ensures Scoped(db, [insert, add], table, ctx)
    ensures Apply(Run(db, [insert, add]), Rollback(table, ctx)) == db
  {
    PairRun(db, insert, add);
    PairErase(insert, add, table, ctx);
    InsertThenRefused(db, insert, add, table, ctx);
    RunThenRollback(db, [insert, add], 2, table, ctx);
    assert [insert, add][..2] == [insert, add];
  }

  lemma {:induction false} AddedColumn(db: Db, add: Op)
    requires add.Add? && Accepted(db, add) && NeedsEmpty(LoadColumns(db, add.key), add.newCols)
    ensures Apply(db, add) != db
  {
    AddedGrows(db, add.key, add.newCols, add.now);
  }

  /**
   * The failing case, in any system with an empty table: a flagged insert, then a request for a column that
   * forbids NULL and whose default is written as NULL. The full run refuses the column, and the run without
   * the insert accepts it.
   */
  lemma {:induction false} RollbackCanDiffer(db: Db, insert: Op, add: Op, table: string, ctx: string)
    requires Inv(db) && !Populated(db, table)
    requires insert.Insert? && insert.key == table && insert.flagCtx == Some(ctx) && Accepted(db, insert)
    requires add.Add? && add.key == table && Accepted(db, add) && NeedsEmpty(LoadColumns(db, table), add.newCols)
    ensures Scoped(db, [insert, add], table, ctx)
    ensures Apply(Run(db, [insert, add]), Rollback(table, ctx)) == db
    ensures Run(db, Erase([insert, add], table, ctx, TaggedIds([insert, add], table, ctx))) == Apply(db, add)
    ensures Apply(db, add) != db
  {
    PairRun(db, insert, add);
    PairErase(insert, add, table, ctx);
    PairRolledBack(db, insert, add, table, ctx);
    AddedColumn(db, add);
  }

  /** There is such a pair on every new table without columns, for every column that does not backfill. */
  lemma {:induction false} PairExists(key: string, def: Def, id: string, ctx: string, c: Column)
    requires ValidKey(key) && ValidColumn(c) && c.defaultText.Some? && !Backfills(c)
    ensures var db := Created(EMPTY_DB, key, def, []);
            && Inv(db) && !Populated(db, key) && Accepted(db, Insert(key, id, Some(ctx), 0, map[]))
            && Accepted(db, Add(key, [c], 0)) && NeedsEmpty(LoadColumns(db, key), [c])
  {
    var db := Created(EMPTY_DB, key, def, []);
    CreateKeepsInv(EMPTY_DB, key, def, []);
    assert LoadColumns(db, key) == [];
    BackfillsUnlessForeign(c);
    assert [c][0] == c;
  }

  /** An integer column that forbids NULL and defaults to "abc" does not backfill. */
  lemma {:induction false} AbcDoesNotBackfill()
    ensures var c := Column("", "n", "integer", false, Some("abc"), 0); ValidColumn(c) && !Backfills(c)
  {
    var c := Column("", "n", "integer", false, Some("abc"), 0);
    assert ValidColumn(c) by { assert KeyChar("n"[0]); }
    assert Text.TrimSpace("abc") == "abc" && !NumericChar("abc"[0]);
    BackfillsUnlessForeign(c);
  }

  // ---- promotion ----

  /** A promotion clears exactly the tags of the context; ids, values, times and the other tags stay. */
  lemma {:induction false} PromotedRows(rows: seq<Row>, ctx: string, i: nat)
    requires i < |rows|
    ensures |Promoted(rows, ctx)| == |rows|
    ensures var before, after := rows[i], Promoted(rows, ctx)[i];
            && after.id == before.id && after.vals == before.vals
            && after.createdAt == before.createdAt && after.updatedAt == before.updatedAt
            && after.flagCtx == if before.flagCtx == Some(ctx) then None else before.flagCtx
  {}

  /** Nothing that was promoted is rolled back. */
  lemma {:induction false} PromotedSurvives(rows: seq<Row>, ctx: string)
    ensures RolledBack(Promoted(rows, ctx), ctx) == Promoted(rows, ctx)
  {
    forall i | 0 <= i < |rows| ensures Promoted(rows, ctx)[i].flagCtx != Some(ctx) {
      PromotedRows(rows, ctx, i);
    }
    NothingTagged(Promoted(rows, ctx), ctx);
  }

  /** Rolling a context back right after promoting it changes nothing. */
  lemma {:induction false} PromoteProtects(db: Db, table: string, ctx: string)
    ensures Apply(Apply(db, Promote(table, ctx)), Rollback(table, ctx)) == Apply(db, Promote(table, ctx))
  {
    if Accepted(db, Promote(table, ctx)) {
      var rows := db.physical[table].rows;
      PromotedSurvives(rows, ctx);
      SetRowsTwice(db, table, Promoted(rows, ctx), Promoted(rows, ctx));
    }
  }

  predicate InsertsTagged(op: Op, table: string, ctx: string) {
    op.Insert? && op.key == table && op.flagCtx == Some(ctx)
  }

  lemma {:induction false} StaysUntagged(db: Db, op: Op, table: string, ctx: string)
    requires Tagged(db, table, ctx, {}) && !InsertsTagged(op, table, ctx)
    ensures Tagged(Apply(db, op), table, ctx, {})
  {
    if op == Promote(table, ctx) {
      if Accepted(db, op) {
        var rows := db.physical[table].rows;
        forall i | 0 <= i < |rows| ensures Promoted(rows, ctx)[i].flagCtx != Some(ctx) {
          PromotedRows(rows, ctx, i);
        }
      }
    } else {
      ApplyTagged(db, op, table, ctx, {});
    }
  }

  lemma {:induction false} RunStaysUntagged(db: Db, ops: seq<Op>, table: string, ctx: string)
    requires Tagged(db, table, ctx, {}) && forall i | 0 <= i < |ops| :: !InsertsTagged(ops[i], table, ctx)
    ensures Tagged(Run(db, ops), table, ctx, {})
  {
    if ops != [] {
      var n := |ops| - 1;
      assert forall i | 0 <= i < n :: ops[..n][i] == ops[i];
      RunStaysUntagged(db, ops[..n], table, ctx);
      StaysUntagged(Run(db, ops[..n]), ops[n], table, ctx);
    }
  }

  lemma {:induction false} PromotedUntagged(db: Db, table: string, ctx: string)
    requires Inv(db)
    ensures Tagged(Apply(db, Promote(table, ctx)), table, ctx, {})
  {
    if table in db.physical {
      PhysicalIsValid(db, table);
      var rows := db.physical[table].rows;
      forall i | 0 <= i < |rows| ensures Promoted(rows, ctx)[i].flagCtx != Some(ctx) {
        PromotedRows(rows, ctx, i);
      }
    }
  }

  /**
   * Promoted rows are safe for good: after a promotion, and any run that inserts nothing under the context,
   * rolling the context back changes nothing.
   */
  lemma {:induction false} PromotedForGood(db: Db, ops: seq<Op>, table: string, ctx: string)
    requires Inv(db) && forall i | 0 <= i < |ops| :: !InsertsTagged(ops[i], table, ctx)
    ensures var after := Run(Apply(db, Promote(table, ctx)), ops);
            Apply(after, Rollback(table, ctx)) == after
  {
    var start := Apply(db, Promote(table, ctx));
    ApplyKeepsInv(db, Promote(table, ctx));
    RunKeepsInv(start, ops);
    PromotedUntagged(db, table, ctx);
    RunStaysUntagged(start, ops, table, ctx);
    UntaggedRollback(Run(start, ops), table, ctx);
  }

  lemma {:induction false} UntaggedRollback(db: Db, table: string, ctx: string)
    requires Tagged(db, table, ctx, {})
    ensures Apply(db, Rollback(table, ctx)) == db
  {
    if Accepted(db, Rollback(table, ctx)) {
      NothingTagged(db.physical[table].rows, ctx);
      PhysicalEqual(Strip(db, table, ctx).physical, db.physical);
    }
  }

  /** What both calls reply: the number of tagged rows. */
  lemma {:induction false} CountIsTagged(rows: seq<Row>, ctx: string)
    ensures CountTagged(rows, ctx) == |set i | 0 <= i < |rows| && rows[i].flagCtx == Some(ctx)|
  {
    var tagged := i => 0 <= i < |rows| && rows[i].flagCtx == Some(ctx);
    for n := 0 to |rows|
      invariant CountTagged(rows[..n], ctx) == |Qualifying(n, tagged)|
    {
      QualifyingNext(n, tagged);
      NextPrefix(rows, n);
      CountNext(rows[..n], rows[n], ctx);
    }
    WholePrefix(rows);
    assert Qualifying(|rows|, tagged) == set i | 0 <= i < |rows| && rows[i].flagCtx == Some(ctx);
  }

  lemma {:induction false} CountNext(rows: seq<Row>, r: Row, ctx: string)
    ensures CountTagged(rows + [r], ctx) == CountTagged(rows, ctx) + if r.flagCtx == Some(ctx) then 1 else 0
  {
    assert (rows + [r])[..|rows|] == rows;
  }
}
