/** The executor: tables by name with shared totals, and what every run of statements keeps. */
module SqlExecution {
  import opened ItemLists
  import opened Json
  import opened Ordering
  import opened SqlModel
  import opened SqlQueries
  import opened SqlStores
  import opened SqlChanges
  import opened SqlPrepare
  import opened SqlTables

  // ---- totals over all tables ----

  ghost function Sum(m: map<Str, int>): int {
    if m == map[] then 0 else var n :| n in m; m[n] + Sum(m - {n})
  }

  /** Any key may be taken out first. */
  lemma {:induction false} SumSplit(m: map<Str, int>, n: Str)
    requires n in m
    ensures Sum(m) == m[n] + Sum(m - {n})
    decreases |m|
  {
    var k :| k in m && Sum(m) == m[k] + Sum(m - {k});
    if k != n {
      SumSplit(m - {k}, n);
      SumSplit(m - {n}, k);
      assert (m - {k}) - {n} == (m - {n}) - {k};
    }
  }

  lemma SumPut(m: map<Str, int>, n: Str, v: int)
    ensures Sum(m[n := v]) == Sum(m) - (if n in m then m[n] else 0) + v
  {
    SumSplit(m[n := v], n);
    if n in m {
      SumSplit(m, n);
      assert m[n := v] - {n} == m - {n};
    } else {
      assert m[n := v] - {n} == m;
    }
  }

  function RowCounts(db: Db): map<Str, int> { map n | n in db.tables :: |db.tables[n].rows| }

  function ByteCounts(db: Db): map<Str, int> {
    map n | n in db.tables :: TotalBytes(db.tables[n].schema, db.tables[n].rows)
  }

  /** Ids ascend below the next one, and primary keys are structurally unique. */
  ghost predicate TableOk(t: Table) {
    && SchemaProper(t.schema) && RowsProper(t.rows)
    && IdsAscend(t.rows) && IdsBelow(t.rows, t.nextRowId) && UniqueKeys(t.schema, t.rows)
  }

  ghost predicate DbOk(limits: Limits, db: Db) {
    && (forall n :: n in db.tables ==> TableOk(db.tables[n]))
    && db.storedRows == Sum(RowCounts(db)) <= limits.maxRows
    && db.storedBytes == Sum(ByteCounts(db)) <= limits.maxBytes
    && |db.tables| <= limits.maxTables
  }

  lemma PutCounts(db: Db, n: Str, t: Table, r: int, b: int)
    ensures var next := Db(db.tables[n := t], r, b);
      && Sum(RowCounts(next)) == Sum(RowCounts(db)) - (if n in db.tables then |db.tables[n].rows| else 0) + |t.rows|
      && Sum(ByteCounts(next)) == Sum(ByteCounts(db))
           - (if n in db.tables then TotalBytes(db.tables[n].schema, db.tables[n].rows) else 0)
           + TotalBytes(t.schema, t.rows)
  {
    hide TotalBytes;
    var next := Db(db.tables[n := t], r, b);
    SumPut(RowCounts(db), n, |t.rows|);
    SumPut(ByteCounts(db), n, TotalBytes(t.schema, t.rows));
    assert RowCounts(next) == RowCounts(db)[n := |t.rows|];
    assert ByteCounts(next) == ByteCounts(db)[n := TotalBytes(t.schema, t.rows)];
  }

  // ---- one statement on one table ----

  /** What a statement may do to a table and the totals: totals move by exactly what the table
      gains, within the limits, and a refused statement changes nothing. */
  ghost predicate EffectOk(limits: Limits, before: Effect, after: Effect) {
    && TableOk(after.table) && after.table.schema == before.table.schema
    && after.storedRows - before.storedRows == |after.table.rows| - |before.table.rows|
    && after.storedBytes - before.storedBytes
         == TotalBytes(after.table.schema, after.table.rows) - TotalBytes(before.table.schema, before.table.rows)
    && after.storedRows <= limits.maxRows && after.storedBytes <= limits.maxBytes
    && after.table.nextRowId >= before.table.nextRowId
    && (after.outcome.Failed? ==> after == before.(outcome := after.outcome))
  }

  lemma {:induction false} FewerRows(loc: Locale, s: Schema, rows: Rows, w: Option<Where>)
    ensures |Unmatched(loc, rows, w)| <= |rows| && TotalBytes(s, Unmatched(loc, rows, w)) <= TotalBytes(s, rows)
  {
    hide Keeps, RowBytes;
    if rows != [] {
      var n := |rows| - 1;
      FewerRows(loc, s, rows[..n], w);
      if !Keeps(loc, rows[n].1, w) {
        TotalAppend(s, Unmatched(loc, rows[..n], w), rows[n].0, rows[n].1);
        assert Unmatched(loc, rows, w) == Unmatched(loc, rows[..n], w) + [(rows[n].0, rows[n].1)];
      } else {
        assert Unmatched(loc, rows, w) == Unmatched(loc, rows[..n], w);
      }
    }
  }

  lemma InsertOk(limits: Limits, loc: Locale, before: Effect, into: seq<Str>, values: seq<seq<Value>>)
    requires TableOk(before.table) && before.storedRows <= limits.maxRows && before.storedBytes <= limits.maxBytes
    requires forall i :: 0 <= i < |values| ==> ProperAll(values[i])
    ensures EffectOk(limits, before, InsertInto(limits, loc, before, into, values))
  {
    hide Targets, PrepareRows, UniqueKeys, TotalBytes, RowProper, Merges;
    var t := before.table;
    var cs := Targets(t.schema, into, 0);
    if cs.Good? && PrepareRows(loc, t.schema, cs.value, values, 0).Good? {
      RowsPrepared(loc, t.schema, cs.value, values, 0);
      AppendedFacts(t.rows, t.nextRowId, PrepareRows(loc, t.schema, cs.value, values, 0).value);
    }
  }

  lemma UpdateOk(limits: Limits, loc: Locale, before: Effect, assignments: seq<Assignment>, w: Option<Where>)
    requires TableOk(before.table) && before.storedRows <= limits.maxRows && before.storedBytes <= limits.maxBytes
    requires forall i :: 0 <= i < |assignments| ==> Proper(assignments[i].value)
    ensures EffectOk(limits, before, UpdateIn(limits, loc, before, assignments, w))
  {
    hide PrepareSet, UniqueKeys, TotalBytes, RowProper, Keeps, Assign, SetsReady;
    var t := before.table;
    var prepared := PrepareSet(loc, t.schema, assignments, 0);
    if prepared.Good? {
      SetsPrepared(loc, t.schema, assignments, 0);
      forall i | 0 <= i < |t.rows| ensures RowProper(Updated(loc, t.rows, w, prepared.value)[i].1) {
        AssignProper(t.rows[i].1, prepared.value);
      }
    }
  }

  /** Deleting rows keeps the remaining keys unique. */
  lemma StillUnique(loc: Locale, s: Schema, rows: Rows, w: Option<Where>)
    requires IdsAscend(rows) && UniqueKeys(s, rows) && s.primaryKey.Some?
    ensures UniqueKeys(s, Unmatched(loc, rows, w))
  {
    hide Keeps, Unmatched, Same;
    var left := Unmatched(loc, rows, w);
    UnmatchedAscends(loc, rows, w);
    forall i, j | 0 <= i < j < |left|
      ensures !Same(Field(left[i].1, s.primaryKey.value), Field(left[j].1, s.primaryKey.value))
    {
      UnmatchedHas(loc, rows, w, left[i]);
      UnmatchedHas(loc, rows, w, left[j]);
      var p :| 0 <= p < |rows| && rows[p] == left[i];
      var q :| 0 <= q < |rows| && rows[q] == left[j];
      assert p < q;
    }
  }

  lemma DeleteOk(limits: Limits, loc: Locale, before: Effect, w: Option<Where>)
    requires TableOk(before.table) && before.storedRows <= limits.maxRows && before.storedBytes <= limits.maxBytes
    ensures EffectOk(limits, before, DeleteFrom(loc, before, w))
  {
    hide UniqueKeys, TotalBytes, RowProper, Keeps, Unmatched, Kept;
    var t := before.table;
    var left := Unmatched(loc, t.rows, w);
    FewerRows(loc, t.schema, t.rows, w);
    UnmatchedAscends(loc, t.rows, w);
    forall i | 0 <= i < |left| ensures RowProper(left[i].1) && left[i].0 < t.nextRowId {
      UnmatchedHas(loc, t.rows, w, left[i]);
      var p :| 0 <= p < |t.rows| && t.rows[p] == left[i];
    }
    if t.schema.primaryKey.Some? { StillUnique(loc, t.schema, t.rows, w); } else { NoKeyUnique(t.schema, left); }
  }

  lemma NoKeyUnique(s: Schema, rows: Rows)
    requires s.primaryKey.None?
    ensures UniqueKeys(s, rows)
  {
  }

  lemma OnTableOk(limits: Limits, loc: Locale, before: Effect, q: Statement)
    requires !q.Create? && !q.Drop? && StatementProper(q) && TableOk(before.table)
    requires before.storedRows <= limits.maxRows && before.storedBytes <= limits.maxBytes
    ensures EffectOk(limits, before, OnTable(limits, loc, before, q))
  {
    hide InsertInto, UpdateIn, DeleteFrom, DoSelect, TotalBytes, UniqueKeys;
    match q
    case Insert(_, into, values) => InsertOk(limits, loc, before, into, values);
    case Update(_, sets, w) => UpdateOk(limits, loc, before, sets, w);
    case Delete(_, w) => DeleteOk(limits, loc, before, w);
    case Select(_, _, _, _, _, _) =>
  }

  // ---- every statement, and every run ----

  lemma ExecuteCases(limits: Limits, loc: Locale, db: Db, q: Statement)
    ensures Execute(limits, loc, db, q) ==
      if q.Create? then DoCreate(limits, db, q)
      else if q.table !in db.tables then (db, Failed(TableNotFound))
      else if q.Drop? then DoDrop(db, q)
      else
        var e := OnTable(limits, loc, Effect(db.tables[q.table], db.storedRows, db.storedBytes, Done(0)), q);
        (Db(db.tables[q.table := e.table], e.storedRows, e.storedBytes), e.outcome)
  {
  }

  /** Every statement keeps row ids, key uniqueness, exact totals and all limits; one that fails
      changes nothing at all. */
  lemma StatementKeeps(limits: Limits, loc: Locale, db: Db, q: Statement)
    requires DbOk(limits, db) && StatementProper(q)
    ensures var (next, out) := Execute(limits, loc, db, q);
      DbOk(limits, next) && (out.Failed? ==> next == db)
  {
    hide DoCreate, DoDrop, OnTable, DbOk, StatementProper;
    ExecuteCases(limits, loc, db, q);
    if q.Create? {
      CreateKeeps(limits, db, q);
    } else if q.table in db.tables {
      if q.Drop? { DropKeeps(limits, db, q); } else { ChangeKeeps(limits, loc, db, q); }
    }
  }

  lemma CreateKeeps(limits: Limits, db: Db, q: Statement)
    requires DbOk(limits, db) && q.Create? && StatementProper(q)
    ensures DbOk(limits, DoCreate(limits, db, q).0)
    ensures DoCreate(limits, db, q).1.Failed? ==> DoCreate(limits, db, q).0 == db
  {
    hide TotalBytes, UniqueKeys, Sum, DefaultsClone;
    var t := Table(Schema(q.columns, q.primaryKey), [], 0);
    PutCounts(db, q.table, t, db.storedRows, db.storedBytes);
    EmptyTable(t);
    assert db.tables[q.table := t].Keys == db.tables.Keys + {q.table};
  }

  lemma ChangeKeeps(limits: Limits, loc: Locale, db: Db, q: Statement)
    requires DbOk(limits, db) && !q.Create? && !q.Drop? && StatementProper(q) && q.table in db.tables
    ensures var e := OnTable(limits, loc, Effect(db.tables[q.table], db.storedRows, db.storedBytes, Done(0)), q);
      var next := Db(db.tables[q.table := e.table], e.storedRows, e.storedBytes);
      DbOk(limits, next) && (e.outcome.Failed? ==> next == db)
  {
    hide OnTable, TotalBytes, TableOk, Sum, StatementProper;
    var before := Effect(db.tables[q.table], db.storedRows, db.storedBytes, Done(0));
    OnTableOk(limits, loc, before, q);
    var e := OnTable(limits, loc, before, q);
    PutCounts(db, q.table, e.table, e.storedRows, e.storedBytes);
    assert db.tables[q.table := e.table].Keys == db.tables.Keys;
    if e.outcome.Failed? { assert db.tables[q.table := e.table] == db.tables; }
  }

  lemma EmptyTable(t: Table)
    requires t.rows == []
    ensures TotalBytes(t.schema, t.rows) == 0 && UniqueKeys(t.schema, t.rows)
  {
  }

  lemma DropKeeps(limits: Limits, db: Db, q: Statement)
    requires DbOk(limits, db) && q.Drop? && q.table in db.tables
    ensures DbOk(limits, DoDrop(db, q).0) && DoDrop(db, q).1.Done?
  {
    hide TotalBytes, UniqueKeys, Sum, TableOk;
    var next := DoDrop(db, q).0;
    SumSplit(RowCounts(db), q.table);
    SumSplit(ByteCounts(db), q.table);
    assert RowCounts(next) == RowCounts(db) - {q.table};
    assert ByteCounts(next) == ByteCounts(db) - {q.table};
    assert next.tables.Keys == db.tables.Keys - {q.table};
    assert |next.tables| == |next.tables.Keys| <= |db.tables.Keys|;
  }

  function ExecuteAll(limits: Limits, loc: Locale, db: Db, qs: seq<Statement>): (Db, seq<Outcome>)
    decreases |qs|
  {
    if qs == [] then (db, [])
    else
      var (next, out) := Execute(limits, loc, db, qs[0]);
      var (last, outs) := ExecuteAll(limits, loc, next, qs[1..]);
      (last, [out] + outs)
  }

  const NEW_DB := Db(map[], 0, 0)

  lemma {:induction false} RunKeeps(limits: Limits, loc: Locale, db: Db, qs: seq<Statement>)
    requires DbOk(limits, db) && forall i :: 0 <= i < |qs| ==> StatementProper(qs[i])
    ensures DbOk(limits, ExecuteAll(limits, loc, db, qs).0)
    decreases |qs|
  {
    hide Execute, StatementProper, DbOk;
    if qs != [] {
      StatementKeeps(limits, loc, db, qs[0]);
      RunKeeps(limits, loc, Execute(limits, loc, db, qs[0]).0, qs[1..]);
    }
  }

  /** After any run from an empty executor: ids ascend, keys are unique, and the totals are exact
      and within the limits. */
  lemma RunsKeepTotals(limits: Limits, loc: Locale, qs: seq<Statement>)
    requires forall i :: 0 <= i < |qs| ==> StatementProper(qs[i])
    ensures DbOk(limits, ExecuteAll(limits, loc, NEW_DB, qs).0)
  {
    RunKeeps(limits, loc, NEW_DB, qs);
  }

  // ---- the object ----

  class SqlExecutor {
    const limits: Limits
    const loc: Locale
    const indexColumns: Option<set<Str>>
    var tables: map<Str, SqlTable>
    var storedRows: int
    var storedBytes: int

    ghost predicate Valid()
      reads this, tables.Values
    {
      && TotalPreorder(loc.collate)
      && (forall n :: n in tables ==>
            tables[n].Valid() && Chosen(tables[n].schema, tables[n].indexes.Keys, indexColumns))
      && (forall m, n :: m in tables && n in tables && m != n ==> tables[m] != tables[n])
    }

    ghost function Now(): Db
      reads this, tables.Values
    {
      Db(map n | n in tables :: tables[n].Now(), storedRows, storedBytes)
    }

    constructor (limits: Limits, loc: Locale, indexColumns: Option<set<Str>>)
      requires TotalPreorder(loc.collate)
      ensures Valid() && Now() == NEW_DB && tables == map[]
      ensures this.limits == limits && this.loc == loc && this.indexColumns == indexColumns
    {
      this.limits, this.loc, this.indexColumns := limits, loc, indexColumns;
      tables, storedRows, storedBytes := map[], 0, 0;
    }

    /** Whatever columns are indexed, a statement does and answers what it means on bare tables. */
    method ExecuteStatement(q: Statement) returns (out: Outcome)
      requires Valid() && StatementProper(q)
      modifies this, tables.Values
      ensures Valid() && fresh(tables.Values - old(tables.Values))
      ensures (Now(), out) == Execute(limits, loc, old(Now()), q)
    {
      hide Execute, DoCreate, DoDrop, OnTable, StatementProper, SqlTable.Valid, TotalPreorder;
      ExecuteCases(limits, loc, Now(), q);
      if q.Create? {
        out := ExecuteCreateTable(q);
      } else if q.table !in tables {
        out := Failed(TableNotFound);
      } else if q.Drop? {
        out := ExecuteDropTable(q);
      } else {
        out := ExecuteOn(q);
      }
    }

    method ExecuteCreateTable(q: Statement) returns (out: Outcome)
      requires Valid() && q.Create? && StatementProper(q)
      modifies this`tables
      ensures Valid() && fresh(tables.Values - old(tables.Values))
      ensures (Now(), out) == DoCreate(limits, old(Now()), q)
    {
      hide TotalPreorder, SqlTable.Valid, DefaultsClone, Chosen;
      if q.table in tables { return Failed(TableExists); }
      assert Now().tables.Keys == tables.Keys;
      if |tables| >= limits.maxTables { return Failed(LimitExceeded); }
      if !DefaultsClone(q.columns) { return Failed(BadValue); }
      var t := new SqlTable(Schema(q.columns, q.primaryKey), indexColumns);
      Install(q.table, t);
      return Done(0);
    }

    method Install(name: Str, t: SqlTable)
      requires Valid() && t.Valid() && Chosen(t.schema, t.indexes.Keys, indexColumns) && t !in tables.Values
      modifies this`tables
      ensures Valid() && tables.Values <= old(tables.Values) + {t}
      ensures Now() == old(Now()).(tables := old(Now()).tables[name := t.Now()])
    {
      hide TotalPreorder, SqlTable.Valid, Chosen;
      tables := tables[name := t];
      assert Now().tables == old(Now()).tables[name := t.Now()];
    }

    method ExecuteDropTable(q: Statement) returns (out: Outcome)
      requires Valid() && q.Drop? && q.table in tables
      modifies this
      ensures Valid() && tables.Values <= old(tables.Values)
      ensures (Now(), out) == DoDrop(old(Now()), q)
    {
      hide TotalPreorder, SqlTable.Valid, TotalBytes, Chosen, DefaultsClone;
      var t := tables[q.table];
      storedRows := storedRows - |t.rows|;
      var bytes := t.AllBytes();
      storedBytes := storedBytes - bytes;
      assert Now().tables == old(Now()).tables;
      Uninstall(q.table);
      return Done(0);
    }

    method Uninstall(name: Str)
      requires Valid() && name in tables
      modifies this`tables
      ensures Valid() && tables.Values <= old(tables.Values)
      ensures Now() == old(Now()).(tables := old(Now()).tables - {name})
    {
      hide TotalPreorder, SqlTable.Valid, Chosen;
      tables := tables - {name};
      assert Now().tables == old(Now()).tables - {name};
    }

    /** The other statements, on the table they name; the others stay as they are. */
    method ExecuteOn(q: Statement) returns (out: Outcome)
      requires Valid() && StatementProper(q) && !q.Create? && !q.Drop? && q.table in tables
      modifies this`storedRows, this`storedBytes, tables[q.table]
      ensures Valid()
      ensures var was := old(Now());
        var e := OnTable(limits, loc, Effect(was.tables[q.table], was.storedRows, was.storedBytes, Done(0)), q);
        (Now(), out) == (Db(was.tables[q.table := e.table], e.storedRows, e.storedBytes), e.outcome)
    {
      hide TotalPreorder, SqlTable.Valid, OnTable, Chosen;
      var t := tables[q.table];
      ghost var others := map n | n in tables && n != q.table :: tables[n].Now();
      out := Dispatch(t, q);
      assert forall n :: n in others ==> tables[n].Now() == others[n];
      assert Now().tables == old(Now()).tables[q.table := t.Now()];
    }

    /** INSERT, UPDATE, DELETE and SELECT. */
    method Dispatch(t: SqlTable, q: Statement) returns (out: Outcome)
      requires t.Valid() && TotalPreorder(loc.collate) && StatementProper(q) && !q.Create? && !q.Drop?
      modifies this`storedRows, this`storedBytes, t
      ensures t.Valid() && t.indexes.Keys == old(t.indexes.Keys)
      ensures Effect(t.Now(), storedRows, storedBytes, out)
        == OnTable(limits, loc, Effect(old(t.Now()), old(storedRows), old(storedBytes), Done(0)), q)
    {
      hide TotalPreorder, SqlTable.Valid, InsertInto, UpdateIn, DeleteFrom, DoSelect;
      match q {
        case Insert(_, into, values) =>
          storedRows, storedBytes, out := t.ExecuteInsert(limits, loc, storedRows, storedBytes, into, values);
        case Update(_, sets, w) =>
          storedRows, storedBytes, out := t.ExecuteUpdate(limits, loc, storedRows, storedBytes, sets, w);
        case Delete(_, w) =>
          storedRows, storedBytes, out := t.ExecuteDelete(loc, storedRows, storedBytes, w);
        case Select(_, _, _, _, _, _) =>
          out := t.ExecuteSelect(limits, loc, q);
      }
    }
  }
}
