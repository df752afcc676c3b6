/** One table with its indexes: every statement on it refines its meaning without indexes. */
module SqlTables {
  import opened Decimals
  import opened ItemLists
  import opened Json
  import opened Ordering
  import opened SqlModel
  import opened SqlIndexes
  import opened SqlQueries
  import opened SqlStores
  import opened SqlChanges
  import opened SqlPrepare

  /** Exactly the configured columns are indexed; every column by default. */
  ghost predicate Chosen(s: Schema, indexed: set<Str>, columns: Option<set<Str>>) {
    forall c :: c in indexed <==> Known(s, c) && (columns.None? || c in columns.value)
  }

  class SqlTable {
    const schema: Schema
    var rows: Rows
    var nextRowId: nat
    var primaryIndex: map<Str, nat>
    var rowBytes: Items<nat, nat>
    var indexes: Indexes

    /** Ids ascend below the next one, sizes are exact, the primary index is a bijection onto the
        row ids, and each column index is the inverse image of its column. */
    ghost predicate Valid()
      reads this
    {
      && SchemaProper(schema)
      && IdsAscend(rows) && IdsBelow(rows, nextRowId) && RowsProper(rows)
      && rowBytes == Sizes(schema, rows)
      && KeysExact(schema, rows, primaryIndex)
      && AllExact(rows, indexes) && Covered(schema, indexes)
    }

    function Now(): Table
      reads this
    {
      Table(schema, rows, nextRowId)
    }

    constructor (schema: Schema, indexColumns: Option<set<Str>>)
      requires SchemaProper(schema)
      ensures Valid() && Now() == Table(schema, [], 0)
      ensures Chosen(schema, indexes.Keys, indexColumns)
    {
      this.schema := schema;
      rows, nextRowId, primaryIndex, rowBytes := [], 0, map[], [];
      indexes := map c | c in Names(schema) && (indexColumns.None? || c in indexColumns.value) :: map[];
    }

    // ---- which rows to visit ----

    /** Candidates of the plan, or every row. */
    method Visit(loc: Locale, w: Option<Where>) returns (ids: seq<nat>)
      requires Valid()
      ensures Complete(loc, rows, w, ids)
      ensures w.None? || PlanOf(indexes, w.value).None? ==> ids == Ids(rows)
    {
      hide Keeps, Get, PlanOf, Truth;
      if w.Some? && PlanOf(indexes, w.value).Some? {
        PlanServed(indexes, w.value);
        ids := Candidates(indexes, PlanOf(indexes, w.value).value);
        forall id | Get(rows, id).Some? && Keeps(loc, Get(rows, id).value, w) ensures id in ids {
          KeepsTrue(loc, Get(rows, id).value, w);
          PlanMissesNothing(loc, rows, indexes, w.value, id);
        }
      } else {
        ids := Ids(rows);
        AllIds(rows);
        ClimbsDistinct(ids);
      }
    }

    /** The same in ascending order of row id. */
    method VisitInOrder(loc: Locale, w: Option<Where>) returns (ids: seq<nat>)
      requires Valid()
      ensures Climbs(ids) && Scan(loc, rows, w, ids) == Kept(loc, rows, w)
    {
      hide Keeps, Get, PlanOf, Scan, Kept;
      ids := Visit(loc, w);
      if w.Some? && PlanOf(indexes, w.value).Some? {
        SortedIds(ids);
        ids := Sort(ById(), ids);
      } else {
        AllIds(rows);
      }
      ScanIsKept(loc, rows, w, ids);
    }

    // ---- SELECT ----

    /** Stop as soon as the window is full. */
    method CollectWindow(loc: Locale, w: Option<Where>, ids: seq<nat>, skip: nat, take: nat) returns (selected: Rows)
      ensures selected == Window(Scan(loc, rows, w, ids), skip, take)
    {
      hide Keeps, Scan, Window, Get;
      selected := [];
      NoWindow<(nat, Row)>(skip, take);
      NothingTaken(Scan(loc, rows, w, ids), skip);
      if take == 0 { return; }
      var i, matched := 0, 0;
      NothingScanned(loc, rows, w, ids);
      while i < |ids|
        invariant i <= |ids| && |selected| < take
        invariant matched == |Scan(loc, rows, w, ids[..i])|
            && selected == Window(Scan(loc, rows, w, ids[..i]), skip, take)
      {
        var row := Get(rows, ids[i]);
        ghost var before := Scan(loc, rows, w, ids[..i]);
        ScanStep(loc, rows, w, ids, i);
        assert before + [] == before && selected + [] == selected;
        if row.Some? && Keeps(loc, row.value, w) {
          WindowMore(before, (ids[i], row.value), skip, take);
          matched := matched + 1;
          if matched > skip {
            selected := selected + [(ids[i], row.value)];
            if |selected| >= take {
              RestScanned(loc, rows, w, ids, i + 1, skip, take);
              return;
            }
          }
        }
        i := i + 1;
      }
      assert ids[..i] == ids;
    }

    /** Keep the first k in the requested order on a bounded heap. */
    method CollectTop(loc: Locale, w: Option<Where>, o: OrderBy, ids: seq<nat>, k: nat) returns (top: Rows)
      requires Valid() && TotalPreorder(loc.collate)
      requires Scan(loc, rows, w, ids) == Kept(loc, rows, w)
      ensures var sorted := Sort(RowOrder(loc, o), Kept(loc, rows, w));
        top == sorted[..if |sorted| < k then |sorted| else k]
    {
      hide Keeps, Scan, Kept, RowOrder, TotalPreorder, Sort, Heap, AllBelow, Strict;
      RowOrderTotal(loc, o);
      var heap := new TopK<(nat, Row)>(k, RowOrder(loc, o));
      NothingScanned(loc, rows, w, ids);
      for i := 0 to |ids|
        invariant heap.Valid() && fresh(heap) && heap.k == k && heap.compare == RowOrder(loc, o)
        invariant heap.seen == Scan(loc, rows, w, ids[..i])
        invariant Valid() && rows == old(rows)
      {
        var row := Get(rows, ids[i]);
        ScanStep(loc, rows, w, ids, i);
        if row.Some? && Keeps(loc, row.value, w) {
          heap.Add((ids[i], row.value));
        }
      }
      assert ids[..|ids|] == ids;
      KeptAscends(loc, rows, w);
      RowOrderStrict(loc, o, Kept(loc, rows, w));
      top := heap.Sorted();
    }

    /** With any indexes: the same rows in the same order as the query over the bare table. */
    method Collect(loc: Locale, q: Statement, take: nat) returns (selected: Rows)
      requires Valid() && q.Select? && TotalPreorder(loc.collate)
      ensures selected == Query(loc, rows, q, take)
    {
      hide Keeps, Scan, Kept, RowOrder, Sort;
      var skip := if q.offset.Some? then q.offset.value else 0;
      var ids := VisitInOrder(loc, q.where);
      if q.orderBy.None? {
        selected := CollectWindow(loc, q.where, ids, skip, take);
      } else {
        var k := if |rows| < skip + take then |rows| else skip + take;
        KeptFewer(loc, rows, q.where);
        if take > 0 {
          var top := CollectTop(loc, q.where, q.orderBy.value, ids, k);
          WindowOfTop(Sort(RowOrder(loc, q.orderBy.value), Kept(loc, rows, q.where)), |top|, skip, take);
          selected := Window(top, skip, take);
        } else {
          selected := [];
        }
      }
    }

    method ExecuteSelect(limits: Limits, loc: Locale, q: Statement) returns (out: Outcome)
      requires Valid() && q.Select? && TotalPreorder(loc.collate)
      ensures out == DoSelect(limits, loc, Now(), q)
    {
      hide Query, ResultFits, KnownQuery, ProjectAll;
      if !KnownQuery(schema, q) { return Failed(ColumnNotFound); }
      var selected := Collect(loc, q, Take(limits, q));
      if |selected| > limits.maxResultRows { return Failed(LimitExceeded); }
      var fields := Fields(schema, q);
      var result := BuildResult(limits, selected, fields);
      if result.None? { return Failed(LimitExceeded); }
      return Result(fields, result.value);
    }

    // ---- index maintenance ----

    /** Row id joins every index: a is the table without it, b with it. */
    method AddToIndexes(ghost a: Rows, ghost b: Rows, id: nat, row: Row)
      requires AllExact(a, indexes) && Covered(schema, indexes)
      requires Elsewhere(a, b, id) && Get(a, id).None? && Get(b, id) == Some(row)
      modifies `indexes
      ensures AllExact(b, indexes) && indexes.Keys == old(indexes.Keys)
    {
      hide Get, AddEntry, IndexExact, Elsewhere;
      for i := 0 to |schema.columns|
        invariant indexes.Keys == old(indexes.Keys)
        invariant forall c :: c in indexes ==> IndexExact(if Reached(schema, i, c) then b else a, c, indexes[c])
      {
        var c := schema.columns[i].name;
        ReachedNext(schema, i);
        if c in indexes {
          if Reached(schema, i, c) {
            ExactAgain(b, c, indexes[c], id, row);
          } else {
            ExactAdd(a, b, c, indexes[c], id, row);
          }
          indexes := indexes[c := AddEntry(indexes[c], Field(row, c), id)];
        }
      }
      AllReached(schema, indexes);
    }

    method RemoveFromIndexes(ghost a: Rows, ghost b: Rows, id: nat, row: Row)
      requires AllExact(a, indexes) && Covered(schema, indexes)
      requires Elsewhere(a, b, id) && Get(a, id) == Some(row) && Get(b, id).None?
      modifies `indexes
      ensures AllExact(b, indexes) && indexes.Keys == old(indexes.Keys)
    {
      hide Get, RemoveEntry, IndexExact, Elsewhere;
      for i := 0 to |schema.columns|
        invariant indexes.Keys == old(indexes.Keys)
        invariant forall c :: c in indexes ==> IndexExact(if Reached(schema, i, c) then b else a, c, indexes[c])
      {
        var c := schema.columns[i].name;
        ReachedNext(schema, i);
        if c in indexes {
          if Reached(schema, i, c) {
            ExactGone(b, c, indexes[c], id, row);
          } else {
            ExactRemove(a, b, c, indexes[c], id, row);
          }
          indexes := indexes[c := RemoveEntry(indexes[c], Field(row, c), id)];
        }
      }
      AllReached(schema, indexes);
    }

    /** Only the assigned columns' indexes are touched. */
    method ReindexRow(ghost a: Rows, ghost b: Rows, id: nat, current: Row, sets: seq<Assignment>)
      requires AllExact(a, indexes) && DistinctKeys(a) && SetsReady(sets)
      requires Elsewhere(a, b, id) && Get(a, id) == Some(current) && Get(b, id) == Some(Assign(current, sets))
      modifies `indexes
      ensures AllExact(b, indexes) && indexes.Keys == old(indexes.Keys)
    {
      hide Get, AddEntry, RemoveEntry, IndexExact, Elsewhere, Assign, DistinctKeys;
      var next := Assign(current, sets);
      for i := 0 to |sets|
        invariant indexes.Keys == old(indexes.Keys)
        invariant forall c :: c in indexes ==> IndexExact(if Assigns(sets, i, c) then b else a, c, indexes[c])
      {
        var c := sets[i].column;
        assert !Assigns(sets, i, c);
        assert forall q :: Assigns(sets, i + 1, q) <==> Assigns(sets, i, q) || q == c;
        if c in indexes {
          ExactReplace(a, b, c, indexes[c], id, current, next);
          indexes := indexes[c := AddEntry(RemoveEntry(indexes[c], Field(current, c), id), Field(next, c), id)];
        }
      }
      forall c | c in indexes ensures IndexExact(b, c, indexes[c]) {
        if !Assigns(sets, |sets|, c) {
          FieldAssign(current, sets, c);
          ExactReplace(a, b, c, indexes[c], id, current, next);
        }
      }
    }

    /** assertPrimaryKeyUnique: exactly the candidates that leave every key unique pass. */
    method AssertPrimaryKeyUnique(candidates: Rows, ghost next: Rows) returns (ok: bool)
      requires Valid() && DistinctKeys(candidates) && Merges(rows, candidates, next) && IdsAscend(next)
          && RowsProper(next)
      ensures ok <==> UniqueKeys(schema, next)
    {
      hide KeyText, Get, UniqueKeys, TextsUnique;
      TextsUniqueIff(schema, next);
      FreshIffUnique(schema, rows, primaryIndex, candidates, next);
      if schema.primaryKey.None? { return true; }
      var seen: set<Str> := {};
      for i := 0 to |candidates|
        invariant forall k :: k in seen <==> SeenKey(schema, candidates, i, k)
        invariant FreshKeys(schema, primaryIndex, candidates, i)
      {
        var key := KeyText(schema, candidates[i].1);
        FreshNext(schema, primaryIndex, candidates, i);
        if key in seen || (key in primaryIndex && Get(candidates, primaryIndex[key]).None?) { return false; }
        assert forall k :: SeenKey(schema, candidates, i + 1, k) <==> SeenKey(schema, candidates, i, k) || k == key;
        seen := seen + {key};
      }
      return true;
    }

    // ---- INSERT ----

    method InsertRow(row: Row, ghost next: Rows)
      requires Valid() && RowProper(row) && TextsUnique(schema, next) && Get(next, nextRowId) == Some(row)
      requires forall q :: Get(rows, q).Some? ==> Get(next, q) == Get(rows, q)
      modifies this
      ensures Valid() && rows == old(rows) + [(old(nextRowId), row)] && nextRowId == old(nextRowId) + 1
      ensures indexes.Keys == old(indexes.Keys)
    {
      hide Get, KeyText, RowBytes, IdsAscend, IdsBelow, Elsewhere, TextsUnique, KeysExact, RowProper;
      var id := nextRowId;
      ghost var a := rows;
      RowAdded(schema, rows, id, row);
      nextRowId := id + 1;
      rows := Put(rows, id, row);
      rowBytes := Put(rowBytes, id, RowBytes(schema, row));
      if schema.primaryKey.Some? {
        KeyFree(schema, a, primaryIndex, next, id, row);
        KeysAdd(schema, a, rows, primaryIndex, id, row);
        primaryIndex := primaryIndex[KeyText(schema, row) := id];
      } else {
        NoKeys(schema, a, rows, primaryIndex);
      }
      AddToIndexes(a, rows, id, row);
    }

    method InsertRows(added: seq<Row>)
      requires Valid() && (forall i :: 0 <= i < |added| ==> RowProper(added[i]))
      requires TextsUnique(schema, Appended(rows, nextRowId, added))
      modifies this
      ensures Valid() && Now() == Table(schema, Appended(old(rows), old(nextRowId), added), old(nextRowId) + |added|)
      ensures indexes.Keys == old(indexes.Keys)
    {
      hide Get, TextsUnique, Appended, SqlTable.Valid, RowProper;
      ghost var a, n, next := rows, nextRowId, Appended(rows, nextRowId, added);
      AppendedNone(a, n, added);
      for i := 0 to |added|
        invariant Valid() && indexes.Keys == old(indexes.Keys)
        invariant rows == Appended(a, n, added[..i]) && nextRowId == n + i
      {
        ValidRows();
        AppendedGet(a, n, added, i, nextRowId);
        AppendedStep(a, n, added, i);
        InsertRow(added[i], next);
      }
      assert added[..|added|] == added;
    }

    lemma ValidRows()
      requires Valid()
      ensures IdsAscend(rows) && IdsBelow(rows, nextRowId) && RowsProper(rows)
    {
    }

    method ExecuteInsert(limits: Limits, loc: Locale, storedRows: int, storedBytes: int, into: seq<Str>,
        values: seq<seq<Value>>)
      returns (r: int, b: int, out: Outcome)
      requires Valid() && forall i :: 0 <= i < |values| ==> ProperAll(values[i])
      modifies this
      ensures Valid() && indexes.Keys == old(indexes.Keys)
      ensures Effect(Now(), r, b, out)
        == InsertInto(limits, loc, Effect(old(Now()), storedRows, storedBytes, Done(0)), into, values)
    {
      hide Targets, PrepareRows, UniqueKeys, TotalBytes, Appended, SqlTable.Valid, RowProper, RowBytes, Get;
      r, b := storedRows, storedBytes;
      var cs := Targets(schema, into, 0);
      if cs.Bad? { return r, b, Failed(cs.fault); }
      var prepared := PrepareRows(loc, schema, cs.value, values, 0);
      if prepared.Bad? { return r, b, Failed(prepared.fault); }
      var added := prepared.value;
      ghost var next := Appended(rows, nextRowId, added);
      ReadyToInsert(loc, cs.value, values);
      var ok := AssertPrimaryKeyUnique(Added(nextRowId, added), next);
      if !ok { return r, b, Failed(PrimaryKeyConstraint); }
      var bytes := AddedBytes(added);
      if storedRows + |added| > limits.maxRows || storedBytes + bytes > limits.maxBytes {
        return r, b, Failed(LimitExceeded);
      }
      if nextRowId + |added| > MAX_SAFE { return r, b, Failed(LimitExceeded); }
      TextsUniqueIff(schema, next);
      InsertRows(added);
      return storedRows + |added|, storedBytes + bytes, Done(|added|);
    }

    lemma ReadyToInsert(loc: Locale, cs: seq<Column>, values: seq<seq<Value>>)
      requires Valid() && PrepareRows(loc, schema, cs, values, 0).Good?
      requires forall i :: 0 <= i < |values| ==> ProperAll(values[i])
      ensures var added := PrepareRows(loc, schema, cs, values, 0).value;
        var next := Appended(rows, nextRowId, added);
        && (forall i :: 0 <= i < |added| ==> RowProper(added[i]))
        && DistinctKeys(Added(nextRowId, added)) && Merges(rows, Added(nextRowId, added), next)
        && IdsAscend(next) && RowsProper(next) && |next| == |rows| + |added|
    {
      hide PrepareRows, Get, RowProper;
      RowsPrepared(loc, schema, cs, values, 0);
      AppendedFacts(rows, nextRowId, PrepareRows(loc, schema, cs, values, 0).value);
    }

    method AddedBytes(added: seq<Row>) returns (total: nat)
      ensures total == TotalBytes(schema, Appended(rows, nextRowId, added)) - TotalBytes(schema, rows)
    {
      hide TotalBytes, RowBytes, Appended;
      total := 0;
      AppendedNone(rows, nextRowId, added);
      for i := 0 to |added|
        invariant total == TotalBytes(schema, Appended(rows, nextRowId, added[..i])) - TotalBytes(schema, rows)
      {
        AppendedStep(rows, nextRowId, added, i);
        TotalAppend(schema, Appended(rows, nextRowId, added[..i]), nextRowId + i, added[i]);
        total := total + RowBytes(schema, added[i]);
      }
      assert added[..|added|] == added;
    }

    // ---- UPDATE ----

    /** The rows to change and what they become, in the order visited. */
    method StageUpdate(loc: Locale, w: Option<Where>, sets: seq<Assignment>, ids: seq<nat>) returns (changes: Rows)
      ensures changes == Changes(Scan(loc, rows, w, ids), sets)
    {
      hide Keeps, Scan, Assign;
      changes := [];
      NothingScanned(loc, rows, w, ids);
      for i := 0 to |ids|
        invariant changes == Changes(Scan(loc, rows, w, ids[..i]), sets)
      {
        var row := Get(rows, ids[i]);
        ScanStep(loc, rows, w, ids, i);
        if row.Some? && Keeps(loc, row.value, w) {
          changes := changes + [(ids[i], Assign(row.value, sets))];
        }
      }
      assert ids[..|ids|] == ids;
    }

    method ChangedBytes(changes: Rows) returns (delta: int)
      requires Valid() && Within(changes, rows)
      ensures delta == Delta(schema, rows, changes)
    {
      hide RowBytes, Get, Sizes;
      delta := 0;
      for i := 0 to |changes|
        invariant delta == Delta(schema, rows, changes[..i])
      {
        SizeOf(schema, rows, changes[i].0);
        var before := Get(rowBytes, changes[i].0);
        delta := delta + RowBytes(schema, changes[i].1) - (if before.Some? then before.value else 0);
        assert changes[..i + 1][..i] == changes[..i];
      }
      assert changes[..|changes|] == changes;
    }

    /** Take the keys of all changing rows out before any new key goes in. */
    method ReleaseKeys(changes: Rows) returns (ghost live: Rows)
      requires Valid() && schema.primaryKey.Some? && DistinctKeys(changes) && Within(changes, rows)
      modifies `primaryIndex
      ensures KeysExact(schema, live, primaryIndex) && Live(live, rows, changes, 0)
    {
      hide Get, KeyText, KeysExact, Remove, RowProper, RowsProper, AllExact, Covered;
      live := rows;
      NonePicked(changes);
      for i := 0 to |changes|
        invariant KeysExact(schema, live, primaryIndex) && DistinctKeys(live)
        invariant forall q :: Get(live, q) == if Get(changes[..i], q).Some? then None else Get(rows, q)
      {
        var id := changes[i].0;
        ghost var before := live;
        PrefixGet(changes, i, id);
        live := Remove(live, id);
        forall q ensures Get(live, q) == if q == id then None else Get(before, q) { GetRemove(before, id, q); }
        GetRemove(before, id, id);
        forall q ensures Get(changes[..i + 1], q).Some? <==> (q == id || Get(changes[..i], q).Some?) {
          PrefixGet(changes, i, q);
        }
        var current := Get(rows, id).value;
        KeysRemove(schema, before, live, primaryIndex, id, current);
        primaryIndex := primaryIndex - {KeyText(schema, current)};
      }
      assert changes[..|changes|] == changes && changes[0..] == changes;
    }

    /** One row becomes its changed form; the primary index is the caller's. */
    method ChangeRow(id: nat, current: Row, sets: seq<Assignment>)
      requires IdsAscend(rows) && IdsBelow(rows, nextRowId) && RowsProper(rows) && rowBytes == Sizes(schema, rows)
      requires AllExact(rows, indexes) && SetsReady(sets) && Get(rows, id) == Some(current)
      modifies `indexes, `rows, `rowBytes
      ensures rows == Put(old(rows), id, Assign(current, sets)) && rowBytes == Sizes(schema, rows)
      ensures IdsAscend(rows) && IdsBelow(rows, nextRowId) && RowsProper(rows)
      ensures AllExact(rows, indexes) && indexes.Keys == old(indexes.Keys)
    {
      hide Get, RowBytes, IdsAscend, IdsBelow, Assign, RowProper, AllExact, Elsewhere, SetsReady, Sizes;
      var next := Assign(current, sets);
      ghost var a := rows;
      RowChanged(schema, rows, nextRowId, id, next);
      AscendsDistinct(rows);
      ReindexRow(rows, Put(rows, id, next), id, current, sets);
      rows := Put(rows, id, next);
      rowBytes := Put(rowBytes, id, RowBytes(schema, next));
      ChangedProper(a, id, current, sets);
    }

    method ApplyUpdate(changes: Rows, sets: seq<Assignment>, changesKey: bool, ghost next: Rows)
      requires Valid() && SetsReady(sets) && DistinctKeys(changes) && Within(changes, rows)
      requires Merges(rows, changes, next) && TextsUnique(schema, next)
      requires changesKey <==> schema.primaryKey.Some? && Assigns(sets, |sets|, schema.primaryKey.value)
      requires forall i :: 0 <= i < |changes| ==> changes[i].1 == Assign(Get(rows, changes[i].0).value, sets)
      modifies this
      ensures Valid() && rows == Overlay(old(rows), changes) && nextRowId == old(nextRowId)
      ensures indexes.Keys == old(indexes.Keys)
    {
      hide Get, KeyText, KeysExact, RowProper, RowsProper, AllExact, Covered, IdsAscend, IdsBelow, Assign, Put,
        TextsUnique, Merges, Live, SetsReady, Sizes, Assigns, DistinctKeys, SchemaProper;
      ghost var a, primary := rows, primaryIndex;
      ghost var live: Rows := rows;
      if changesKey { live := ReleaseKeys(changes); }
      for i := 0 to |changes|
        invariant Overlay(a, changes[..i]) == rows && nextRowId == old(nextRowId)
        invariant IdsAscend(rows) && IdsBelow(rows, nextRowId) && RowsProper(rows) && rowBytes == Sizes(schema, rows)
        invariant AllExact(rows, indexes) && indexes.Keys == old(indexes.Keys)
        invariant if changesKey then KeysExact(schema, live, primaryIndex) && Live(live, rows, changes, i)
                  else primaryIndex == primary
      {
        var id, row := changes[i].0, changes[i].1;
        ghost var before := rows;
        MergedSoFar(schema, a, nextRowId, changes, i);
        var current := Get(rows, id).value;
        if changesKey {
          LiveBelow(schema, a, nextRowId, changes, next, i, live);
          LiveGrows(rows, changes, i, live);
        }
        ChangeRow(id, current, sets);
        assert changes[..i + 1][..i] == changes[..i];
        if changesKey {
          KeyFree(schema, live, primaryIndex, next, id, row);
          KeysAdd(schema, live, Put(live, id, row), primaryIndex, id, row);
          live := Put(live, id, row);
          primaryIndex := primaryIndex[KeyText(schema, row) := id];
        }
      }
      assert changes[..|changes|] == changes;
      CoveredStill(schema, old(indexes), indexes);
      if changesKey {
        LiveEnds(schema, live, rows, changes, primaryIndex);
      } else {
        MergedAll(schema, a, nextRowId, changes);
        KeysUntouched(schema, a, rows, changes, sets, primaryIndex);
      }
    }

    method ExecuteUpdate(limits: Limits, loc: Locale, storedRows: int, storedBytes: int,
                         assignments: seq<Assignment>, w: Option<Where>)
      returns (r: int, b: int, out: Outcome)
      requires Valid() && forall i :: 0 <= i < |assignments| ==> Proper(assignments[i].value)
      modifies this
      ensures Valid() && indexes.Keys == old(indexes.Keys)
      ensures Effect(Now(), r, b, out)
        == UpdateIn(limits, loc, Effect(old(Now()), storedRows, storedBytes, Done(0)), assignments, w)
    {
      hide PrepareSet, UniqueKeys, TotalBytes, Updated, Kept, RowBytes, Get, Scan, Assigns, TextsUnique,
        Overlay, Delta, SqlTable.Valid, Assign, Changes, Complete, KnownFilter, Merges, SetsReady;
      r, b := storedRows, storedBytes;
      if !KnownFilter(schema, w) { return r, b, Failed(ColumnNotFound); }
      var prepared := PrepareSet(loc, schema, assignments, 0);
      if prepared.Bad? { return r, b, Failed(prepared.fault); }
      var sets := prepared.value;
      SetsPrepared(loc, schema, assignments, 0);
      ghost var next := Updated(loc, rows, w, sets);
      var ids := Visit(loc, w);
      var changes := StageUpdate(loc, w, sets, ids);
      var changesKey := schema.primaryKey.Some? && Assigns(sets, |sets|, schema.primaryKey.value);
      ReadyToUpdate(loc, w, sets, ids, changes);
      var ok := true;
      if changesKey {
        ok := AssertPrimaryKeyUnique(changes, next);
      } else {
        KeysStay(loc, w, sets);
      }
      if !ok { return r, b, Failed(PrimaryKeyConstraint); }
      var delta := ChangedBytes(changes);
      if storedRows > limits.maxRows || storedBytes + delta > limits.maxBytes { return r, b, Failed(LimitExceeded); }
      TextsUniqueIff(schema, next);
      ApplyUpdate(changes, sets, changesKey, next);
      return storedRows, storedBytes + delta, Done(|changes|);
    }

    lemma ReadyToUpdate(loc: Locale, w: Option<Where>, sets: seq<Assignment>, ids: seq<nat>, changes: Rows)
      requires Valid() && Complete(loc, rows, w, ids) && SetsReady(sets)
          && changes == Changes(Scan(loc, rows, w, ids), sets)
      ensures var next := Updated(loc, rows, w, sets);
        && DistinctKeys(changes) && Within(changes, rows)
        && Merges(rows, changes, next) && Overlay(rows, changes) == next
        && |changes| == |Kept(loc, rows, w)| && |next| == |rows|
        && IdsAscend(next) && RowsProper(next)
        && TotalBytes(schema, next) == TotalBytes(schema, rows) + Delta(schema, rows, changes)
      ensures forall i :: 0 <= i < |changes| ==> changes[i].1 == Assign(Get(rows, changes[i].0).value, sets)
    {
      hide Get, Scan, Complete, Overlay, Delta, TotalBytes, Assign, Keeps, RowProper, SetsReady, Merges;
      OverlayIsUpdated(loc, schema, rows, nextRowId, w, sets, ids);
      forall i | 0 <= i < |rows| ensures RowProper(Updated(loc, rows, w, sets)[i].1) { AssignProper(rows[i].1, sets); }
      forall i | 0 <= i < |changes| ensures changes[i].1 == Assign(Get(rows, changes[i].0).value, sets) {
        ScanHas(loc, rows, w, ids, Scan(loc, rows, w, ids)[i]);
      }
    }

    /** An UPDATE that leaves the key column alone leaves the keys unique. */
    lemma KeysStay(loc: Locale, w: Option<Where>, sets: seq<Assignment>)
      requires Valid() && SetsReady(sets) && IdsAscend(Updated(loc, rows, w, sets))
          && RowsProper(Updated(loc, rows, w, sets))
      requires schema.primaryKey.None? || !Assigns(sets, |sets|, schema.primaryKey.value)
      ensures UniqueKeys(schema, Updated(loc, rows, w, sets))
    {
      hide Get, Keeps, Assign, RowProper, UniqueKeys;
      var next := Updated(loc, rows, w, sets);
      if schema.primaryKey.Some? {
        forall id, k ensures Keyed(schema, next, id, k) <==> Keyed(schema, rows, id, k) {
          UpdatedGet(loc, rows, w, sets, id);
          if Get(rows, id).Some? { FieldAssign(Get(rows, id).value, sets, schema.primaryKey.value); }
        }
      }
      TextsUniqueIff(schema, next);
    }

    // ---- DELETE ----

    /** One row and all that is kept beside it. */
    method DeleteRow(id: nat, row: Row) returns (bytes: nat)
      requires Valid() && Get(rows, id) == Some(row)
      modifies this
      ensures Valid() && rows == Remove(old(rows), id) && nextRowId == old(nextRowId)
      ensures indexes.Keys == old(indexes.Keys) && bytes == RowBytes(schema, row)
    {
      hide Get, KeyText, RowBytes, IdsAscend, IdsBelow, Elsewhere, KeysExact, RowProper, Sizes, AllExact, Covered;
      ghost var a := rows;
      RowGone(schema, rows, nextRowId, id);
      SizeOf(schema, rows, id);
      RemoveFromIndexes(rows, Remove(rows, id), id, row);
      if schema.primaryKey.Some? {
        KeysRemove(schema, a, Remove(a, id), primaryIndex, id, row);
        primaryIndex := primaryIndex - {KeyText(schema, row)};
      } else {
        NoKeys(schema, a, Remove(a, id), primaryIndex);
      }
      var size := Get(rowBytes, id);
      bytes := if size.Some? then size.value else 0;
      rowBytes := Remove(rowBytes, id);
      rows := Remove(rows, id);
      FewerProper(a, id);
      CoveredStill(schema, old(indexes), indexes);
    }

    /** The sizes of all rows, one by one. */
    method AllBytes() returns (total: nat)
      requires Valid()
      ensures total == TotalBytes(schema, rows)
    {
      hide RowBytes;
      total := 0;
      for i := 0 to |rowBytes|
        invariant total == TotalBytes(schema, rows[..i])
      {
        assert rows[..i + 1][..i] == rows[..i];
        total := total + rowBytes[i].1;
      }
      assert rows[..|rowBytes|] == rows;
    }

    method ExecuteDelete(loc: Locale, storedRows: int, storedBytes: int, w: Option<Where>)
      returns (r: int, b: int, out: Outcome)
      requires Valid()
      modifies this
      ensures Valid() && indexes.Keys == old(indexes.Keys)
      ensures Effect(Now(), r, b, out) == DeleteFrom(loc, Effect(old(Now()), storedRows, storedBytes, Done(0)), w)
    {
      hide TotalBytes, Unmatched, Kept, RowBytes, Get, Scan, SqlTable.Valid, Complete, KnownFilter, IdsAscend, Keeps;
      r, b := storedRows, storedBytes;
      if !KnownFilter(schema, w) { return r, b, Failed(ColumnNotFound); }
      ghost var a, n := rows, nextRowId;
      var ids := Visit(loc, w);
      var deleted := StageDelete(loc, w, ids);
      ValidRows();
      ScanCount(loc, rows, w, ids);
      forall q ensures DistinctKeys(deleted) && (Get(deleted, q) ==
        if Get(a, q).Some? && Keeps(loc, Get(a, q).value, w) then Get(a, q) else None) {
        ScanGet(loc, rows, w, ids, q);
      }
      ScanGet(loc, rows, w, ids, 0);
      NonePicked(deleted);
      for i := 0 to |deleted|
        invariant Valid() && indexes.Keys == old(indexes.Keys) && nextRowId == n
        invariant forall q :: Get(rows, q) == if Get(deleted[..i], q).Some? then None else Get(a, q)
        invariant |rows| == |a| - i && r == storedRows - i
        invariant b == storedBytes - TotalBytes(schema, a) + TotalBytes(schema, rows)
      {
        var id, row := deleted[i].0, deleted[i].1;
        ValidRows();
        ghost var before := rows;
        PrefixGet(deleted, i, id);
        GetIs(deleted, i);
        RowGone(schema, rows, nextRowId, id);
        var bytes := DeleteRow(id, row);
        GoneLookups(before, rows, a, deleted, i);
        r, b := r - 1, b - bytes;
      }
      assert deleted[..|deleted|] == deleted;
      ValidRows();
      GoneIsUnmatched(loc, a, w, deleted, rows);
      return r, b, Done(|deleted|);
    }

    /** Rows to delete are staged before any is deleted. */
    method StageDelete(loc: Locale, w: Option<Where>, ids: seq<nat>) returns (deleted: Rows)
      ensures deleted == Scan(loc, rows, w, ids)
    {
      hide Keeps, Scan;
      deleted := [];
      NothingScanned(loc, rows, w, ids);
      for i := 0 to |ids|
        invariant deleted == Scan(loc, rows, w, ids[..i])
      {
        var row := Get(rows, ids[i]);
        ScanStep(loc, rows, w, ids, i);
        if row.Some? && Keeps(loc, row.value, w) {
          deleted := deleted + [(ids[i], row.value)];
        }
      }
      assert ids[..|ids|] == ids;
    }
  }

  /** While keys are being replaced: the rows whose key is in the primary index are those not among
      the changes from n on. */
  ghost predicate Live(live: Rows, rows: Rows, changes: Rows, n: nat)
    requires n <= |changes|
  {
    DistinctKeys(live) && forall q :: Get(live, q) == if Get(changes[n..], q).Some? then None else Get(rows, q)
  }

  lemma SuffixGet(changes: Rows, n: nat, q: nat)
    requires n < |changes| && DistinctKeys(changes)
    ensures Get(changes[n..], q) == if q == changes[n].0 then Some(changes[n].1) else Get(changes[n + 1..], q)
    ensures Get(changes[n + 1..], changes[n].0).None?
  {
    var a, b := changes[n..], changes[n + 1..];
    GetFind(a, q);
    GetFind(b, q);
    GetFind(b, changes[n].0);
    if Find(a, q) < |a| && q != changes[n].0 {
      assert b[Find(a, q) - 1] == a[Find(a, q)];
      FindIs(b, Find(a, q) - 1);
    }
    if Find(b, q) < |b| {
      assert a[Find(b, q) + 1] == b[Find(b, q)];
    }
  }

  lemma AscendsDistinct(rows: Rows)
    requires IdsAscend(rows)
    ensures DistinctKeys(rows)
  {
  }

  lemma ChangedProper(a: Rows, id: nat, current: Row, sets: seq<Assignment>)
    requires RowsProper(a) && Get(a, id) == Some(current) && SetsReady(sets)
    ensures RowsProper(Put(a, id, Assign(current, sets)))
  {
    hide RowProper, Assign, SetsReady;
    GetFind(a, id);
    AssignProper(current, sets);
  }

  /** The table after the first n changes. */
  lemma MergedSoFar(s: Schema, a: Rows, n: nat, changes: Rows, i: nat)
    requires IdsAscend(a) && IdsBelow(a, n) && DistinctKeys(changes) && Within(changes, a) && i < |changes|
    ensures Merges(a, changes[..i], Overlay(a, changes[..i]))
    ensures Get(Overlay(a, changes[..i]), changes[i].0) == Get(a, changes[i].0)
    ensures Get(a, changes[i].0).Some?
  {
    hide Get, IdsAscend, IdsBelow, Overlay;
    assert DistinctKeys(changes[..i]) && Within(changes[..i], a);
    OverlayFacts(s, a, n, changes[..i]);
    PrefixGet(changes, i, changes[i].0);
    assert Get(Overlay(a, changes[..i]), changes[i].0) == Overlaid(a, changes[..i], changes[i].0);
  }

  lemma MergedAll(s: Schema, a: Rows, n: nat, changes: Rows)
    requires IdsAscend(a) && IdsBelow(a, n) && DistinctKeys(changes) && Within(changes, a)
    ensures Merges(a, changes, Overlay(a, changes))
  {
    hide Get, IdsAscend, IdsBelow, Overlay, Merges;
    OverlayFacts(s, a, n, changes);
  }

  /** The next change finds its key free. */
  lemma LiveBelow(s: Schema, a: Rows, n: nat, changes: Rows, next: Rows, i: nat, live: Rows)
    requires IdsAscend(a) && IdsBelow(a, n) && DistinctKeys(changes) && Within(changes, a) && i < |changes|
    requires Merges(a, changes, next) && Live(live, Overlay(a, changes[..i]), changes, i)
    ensures Get(next, changes[i].0) == Some(changes[i].1) && Get(live, changes[i].0).None?
    ensures forall q :: Get(live, q).Some? ==> Get(next, q) == Get(live, q)
  {
    hide Get, IdsAscend, IdsBelow, Overlay;
    var id, rows := changes[i].0, Overlay(a, changes[..i]);
    MergedSoFar(s, a, n, changes, i);
    GetIs(changes, i);
    SuffixGet(changes, i, id);
    assert Get(next, id) == Overlaid(a, changes, id);
    forall q ensures Get(live, q).Some? ==> Get(next, q) == Get(live, q) {
      SplitGet(changes, i, q);
      assert Get(rows, q) == Overlaid(a, changes[..i], q) && Get(next, q) == Overlaid(a, changes, q);
    }
  }

  /** And joins the live rows. */
  lemma LiveGrows(rows: Rows, changes: Rows, i: nat, live: Rows)
    requires DistinctKeys(changes) && IdsAscend(rows) && i < |changes| && Live(live, rows, changes, i)
    ensures var id, row := changes[i].0, changes[i].1;
      && Get(Put(live, id, row), id) == Some(row) && Elsewhere(live, Put(live, id, row), id)
      && Live(Put(live, id, row), Put(rows, id, row), changes, i + 1)
  {
    hide Get, IdsAscend, Put;
    var id, row := changes[i].0, changes[i].1;
    AscendsDistinct(rows);
    forall q ensures Get(Put(live, id, row), q) == if q == id then Some(row) else Get(live, q) {
      GetPut(live, id, row, q);
    }
    GetPut(live, id, row, id);
    forall q ensures Get(Put(live, id, row), q) ==
      if Get(changes[i + 1..], q).Some? then None else Get(Put(rows, id, row), q)
    {
      GetPut(rows, id, row, q);
      SuffixGet(changes, i, q);
    }
  }

  lemma SplitGet(changes: Rows, i: nat, q: nat)
    requires i <= |changes|
    ensures Get(changes, q) == if Get(changes[..i], q).Some? then Get(changes[..i], q) else Get(changes[i..], q)
  {
    var a, b := changes[..i], changes[i..];
    GetFind(a, q);
    GetFind(b, q);
    GetFind(changes, q);
    if Find(a, q) < |a| {
      assert changes[Find(a, q)] == a[Find(a, q)];
    } else if Find(b, q) < |b| {
      assert changes[i + Find(b, q)] == b[Find(b, q)];
    }
    if Find(changes, q) < i {
      assert a[Find(changes, q)] == changes[Find(changes, q)];
    } else if Find(changes, q) < |changes| {
      assert b[Find(changes, q) - i] == changes[Find(changes, q)];
    }
  }

  lemma LiveEnds(s: Schema, live: Rows, rows: Rows, changes: Rows, primary: map<Str, nat>)
    requires Live(live, rows, changes, |changes|) && KeysExact(s, live, primary)
    ensures KeysExact(s, rows, primary)
  {
    hide Get, KeyText;
    EmptyGet(changes[|changes|..]);
    assert forall q :: Get(live, q) == Get(rows, q);
    KeysSame(s, live, rows, primary);
  }

  /** Changes that leave the key column alone leave the primary index exact. */
  lemma KeysUntouched(s: Schema, a: Rows, b: Rows, changes: Rows, sets: seq<Assignment>, primary: map<Str, nat>)
    requires KeysExact(s, a, primary) && Merges(a, changes, b) && DistinctKeys(changes) && Within(changes, a)
    requires forall i :: 0 <= i < |changes| ==> changes[i].1 == Assign(Get(a, changes[i].0).value, sets)
    requires s.primaryKey.None? || !Assigns(sets, |sets|, s.primaryKey.value)
    ensures KeysExact(s, b, primary)
  {
    hide Get, Assign;
    if s.primaryKey.Some? {
      forall id, k ensures Keyed(s, a, id, k) <==> Keyed(s, b, id, k) {
        GetFind(changes, id);
        assert Get(b, id) == Overlaid(a, changes, id);
        if Get(changes, id).Some? { FieldAssign(Get(a, id).value, sets, s.primaryKey.value); }
      }
    }
    KeysSame(s, a, b, primary);
  }

  lemma FewerProper(a: Rows, id: nat)
    requires RowsProper(a)
    ensures RowsProper(Remove(a, id))
  {
    hide RowProper;
  }

  lemma CoveredStill(s: Schema, a: Indexes, b: Indexes)
    requires Covered(s, a) && a.Keys == b.Keys
    ensures Covered(s, b)
  {
  }

  lemma NonePicked(deleted: Rows)
    ensures forall q :: Get(deleted[..0], q).None?
  {
  }

  lemma GoneLookups(before: Rows, rows: Rows, a: Rows, deleted: Rows, i: nat)
    requires i < |deleted| && DistinctKeys(deleted)
    requires Elsewhere(before, rows, deleted[i].0) && Get(rows, deleted[i].0).None?
    requires forall q :: Get(before, q) == if Get(deleted[..i], q).Some? then None else Get(a, q)
    ensures forall q :: Get(rows, q) == if Get(deleted[..i + 1], q).Some? then None else Get(a, q)
  {
    hide Get;
    forall q ensures Get(rows, q) == if Get(deleted[..i + 1], q).Some? then None else Get(a, q) {
      PrefixGet(deleted, i, q);
    }
  }

  lemma ExactAgain(b: Rows, c: Str, index: Index, id: nat, row: Row)
    requires IndexExact(b, c, index) && Get(b, id) == Some(row)
    ensures AddEntry(index, Field(row, c), id) == index
  {
    var v := Field(row, c);
    if Indexable(v) {
      assert Holds(b, c, v, id);
      assert id in Bucket(index, v);
    }
  }

  lemma ExactGone(b: Rows, c: Str, index: Index, id: nat, row: Row)
    requires IndexExact(b, c, index) && Get(b, id).None?
    ensures RemoveEntry(index, Field(row, c), id) == index
  {
    var v := Field(row, c);
    if v in index {
      assert !Holds(b, c, v, id);
      assert id !in Bucket(index, v);
    }
  }

  /** One of the first n columns is c. */
  predicate Reached(s: Schema, n: nat, c: Str)
    requires n <= |s.columns|
  {
    exists j :: 0 <= j < n && s.columns[j].name == c
  }

  lemma ReachedNext(s: Schema, i: nat)
    requires i < |s.columns|
    ensures forall q :: Reached(s, i + 1, q) <==> Reached(s, i, q) || q == s.columns[i].name
  {
    forall q ensures Reached(s, i + 1, q) <==> Reached(s, i, q) || q == s.columns[i].name {
      if Reached(s, i, q) { var j :| 0 <= j < i && s.columns[j].name == q; assert j < i + 1; }
      assert 0 <= i < i + 1;
    }
  }

  lemma AllReached(s: Schema, indexes: Indexes)
    requires Covered(s, indexes)
    ensures forall c :: c in indexes ==> Reached(s, |s.columns|, c)
  {
    forall c | c in indexes ensures Reached(s, |s.columns|, c) {
      var j :| 0 <= j < |s.columns| && Names(s)[j] == c;
      assert s.columns[j].name == c;
    }
  }

  predicate Assigns(sets: seq<Assignment>, n: nat, c: Str)
    requires n <= |sets|
  {
    exists j :: 0 <= j < n && sets[j].column == c
  }

  predicate SeenKey(s: Schema, candidates: Rows, n: nat, k: Str)
    requires s.primaryKey.Some? && n <= |candidates|
  {
    exists j :: 0 <= j < n && KeyText(s, candidates[j].1) == k
  }

  lemma FreshNext(s: Schema, primary: map<Str, nat>, candidates: Rows, i: nat)
    requires i < |candidates| && s.primaryKey.Some? && FreshKeys(s, primary, candidates, i)
    ensures FreshKeys(s, primary, candidates, i + 1) <==> FreshKey(s, primary, candidates, i)
    ensures FreshKeys(s, primary, candidates, |candidates|) ==> FreshKey(s, primary, candidates, i)
    ensures FreshKey(s, primary, candidates, i) <==>
      var k := KeyText(s, candidates[i].1);
      !SeenKey(s, candidates, i, k) && (k in primary ==> Get(candidates, primary[k]).Some?)
  {
  }

  lemma NoKeys(s: Schema, a: Rows, b: Rows, primary: map<Str, nat>)
    requires s.primaryKey.None? && KeysExact(s, a, primary)
    ensures KeysExact(s, b, primary)
  {
  }

  lemma AppendedNone(rows: Rows, n: nat, added: seq<Row>)
    ensures Appended(rows, n, added[..0]) == rows
  {
  }

  /** Looking up in the table that will result, from the table so far. */
  lemma AppendedGet(rows: Rows, n: nat, added: seq<Row>, i: nat, id: nat)
    requires i < |added| && id == n + i && IdsAscend(Appended(rows, n, added[..i]))
        && IdsBelow(Appended(rows, n, added[..i]), n + i)
    ensures Get(Appended(rows, n, added), id) == Some(added[i])
    ensures var so := Appended(rows, n, added[..i]);
      forall q :: Get(so, q).Some? ==> Get(Appended(rows, n, added), q) == Get(so, q)
  {
    var so, all := Appended(rows, n, added[..i]), Appended(rows, n, added);
    forall q | Get(so, q).Some? ensures Get(all, q) == Get(so, q) {
      PrefixLookup(so, all, q);
    }
    GetFind(all, id);
    assert all[|rows| + i] == (id, added[i]);
    assert forall j :: 0 <= j < |rows| + i ==> all[j] == so[j];
  }

  lemma PrefixLookup(a: Rows, b: Rows, q: nat)
    requires |a| <= |b| && (forall j :: 0 <= j < |a| ==> b[j] == a[j]) && Get(a, q).Some?
    ensures Get(b, q) == Get(a, q)
  {
    GetFind(a, q);
    GetFind(b, q);
    assert b[Find(a, q)].0 == q;
  }

  ghost predicate Covered(s: Schema, indexes: Indexes) { forall c :: c in indexes ==> Known(s, c) }

  lemma KeepsTrue(loc: Locale, row: Row, w: Option<Where>)
    requires w.Some?
    ensures Keeps(loc, row, w) <==> Truth(loc, row, w.value) == Some(true)
  {
  }

  lemma ClimbsDistinct(ids: seq<nat>)
    requires Climbs(ids)
    ensures Distinct(ids)
  {
  }

  lemma NothingScanned(loc: Locale, rows: Rows, w: Option<Where>, ids: seq<nat>)
    ensures Scan(loc, rows, w, ids[..0]) == []
  {
  }

  lemma {:induction false} ScanPrefix(loc: Locale, rows: Rows, w: Option<Where>, ids: seq<nat>, i: nat)
      returns (more: Rows)
    requires i <= |ids|
    ensures Scan(loc, rows, w, ids) == Scan(loc, rows, w, ids[..i]) + more
    decreases |ids| - i
  {
    if i == |ids| {
      more := [];
      assert ids[..i] == ids;
    } else {
      more := ScanPrefix(loc, rows, w, ids, i + 1);
      ScanStep(loc, rows, w, ids, i);
      more := Pick(loc, rows, w, ids[i]) + more;
    }
  }

  lemma RestScanned(loc: Locale, rows: Rows, w: Option<Where>, ids: seq<nat>, i: nat, skip: nat, take: nat)
    requires i <= |ids| && |Window(Scan(loc, rows, w, ids[..i]), skip, take)| >= take > 0
    ensures Window(Scan(loc, rows, w, ids), skip, take) == Window(Scan(loc, rows, w, ids[..i]), skip, take)
  {
    hide Scan;
    var more := ScanPrefix(loc, rows, w, ids, i);
    WindowDone(Scan(loc, rows, w, ids[..i]), more, skip, take);
  }

  lemma KeptFewer(loc: Locale, rows: Rows, w: Option<Where>)
    ensures |Kept(loc, rows, w)| <= |rows|
  {
  }

  /** Rows are charged one by one; the first to cross the limit refuses the whole result. */
  method BuildResult(limits: Limits, selected: Rows, fields: seq<Str>) returns (r: Option<seq<Row>>)
    ensures r == if ResultFits(limits, selected, fields) then Some(ProjectAll(selected, fields)) else None
  {
    hide Utf8Length, Quote, Stringify, Project, RowClones;
    var bytes, out := 2, [];
    var i := 0;
    while i < |selected|
      invariant i <= |selected| && bytes >= 0 && out == ProjectAll(selected[..i], fields)
      invariant bytes + ResultBytes(selected, fields, i) == 2 + ResultBytes(selected, fields, 0)
      invariant i > 0 ==> bytes <= limits.maxResultBytes
      invariant forall j :: 0 <= j < i ==> RowClones(selected[j].1, fields)
    {
      var row := selected[i].1;
      bytes := ChargeRow(row, fields, bytes);
      if bytes > limits.maxResultBytes { return None; }
      if !RowClones(row, fields) { return None; }
      out := out + [Project(row, fields)];
      i := i + 1;
    }
    assert selected[..i] == selected;
    return Some(out);
  }

  method ChargeRow(row: Row, fields: seq<Str>, bytes: nat) returns (total: nat)
    ensures total == bytes + FieldBytes(row, fields, 0)
  {
    hide Utf8Length, Quote, Stringify;
    total := bytes;
    var i := 0;
    while i < |fields|
      invariant i <= |fields| && total + FieldBytes(row, fields, i) == bytes + FieldBytes(row, fields, 0)
    {
      total := total + Utf8Length(Quote(fields[i])) + Utf8Length(Stringify(Field(row, fields[i]))) + 2;
      i := i + 1;
    }
    total := total + 3;
  }
}
