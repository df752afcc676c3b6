/** The statements' row changes, one at a time and as a whole. */
module SqlChanges {
  import opened ItemLists
  import opened Json
  import opened SqlModel
  import opened SqlIndexes
  import opened SqlQueries
  import opened SqlStores

  /** Lists of ascending ids with the same lookups are the same. */
  lemma SameLookups(a: Rows, b: Rows)
    requires IdsAscend(a) && IdsAscend(b) && forall id :: Get(a, id) == Get(b, id)
    ensures a == b
  {
    forall p ensures p in a <==> p in b {
      GetIffIn(a, p);
      GetIffIn(b, p);
    }
    SameAscending(a, b);
  }

  // ---- candidates visited in any order ----

  /** Ids without repeats that miss no kept row. */
  ghost predicate Complete(loc: Locale, rows: Rows, w: Option<Where>, ids: seq<nat>) {
    Distinct(ids) && forall id :: Get(rows, id).Some? && Keeps(loc, Get(rows, id).value, w) ==> id in ids
  }

  lemma {:induction false} ScanDistinct(loc: Locale, rows: Rows, w: Option<Where>, ids: seq<nat>)
    requires Distinct(ids)
    ensures DistinctKeys(Scan(loc, rows, w, ids))
  {
    if ids != [] {
      var rest, last := ids[..|ids| - 1], ids[|ids| - 1];
      ScanDistinct(loc, rows, w, rest);
      var got := Scan(loc, rows, w, rest);
      forall i | 0 <= i < |got| ensures got[i].0 != last {
        ScanHas(loc, rows, w, rest, got[i]);
      }
    }
  }

  lemma ScanGet(loc: Locale, rows: Rows, w: Option<Where>, ids: seq<nat>, id: nat)
    requires Complete(loc, rows, w, ids)
    ensures DistinctKeys(Scan(loc, rows, w, ids))
    ensures Get(Scan(loc, rows, w, ids), id) ==
      if Get(rows, id).Some? && Keeps(loc, Get(rows, id).value, w) then Get(rows, id) else None
  {
    hide Keeps;
    var got := Scan(loc, rows, w, ids);
    ScanDistinct(loc, rows, w, ids);
    GetFind(got, id);
    if Find(got, id) < |got| {
      ScanHas(loc, rows, w, ids, got[Find(got, id)]);
    }
    if Get(rows, id).Some? && Keeps(loc, Get(rows, id).value, w) {
      ScanHas(loc, rows, w, ids, (id, Get(rows, id).value));
    }
  }

  lemma KeptGet(loc: Locale, rows: Rows, w: Option<Where>, id: nat)
    requires IdsAscend(rows)
    ensures Get(Kept(loc, rows, w), id) ==
      if Get(rows, id).Some? && Keeps(loc, Get(rows, id).value, w) then Get(rows, id) else None
  {
    hide Keeps;
    var got := Kept(loc, rows, w);
    KeptAscends(loc, rows, w);
    GetFind(got, id);
    if Find(got, id) < |got| {
      KeptHas(loc, rows, w, got[Find(got, id)]);
      GetIffIn(rows, got[Find(got, id)]);
    }
    if Get(rows, id).Some? && Keeps(loc, Get(rows, id).value, w) {
      KeptHas(loc, rows, w, (id, Get(rows, id).value));
      GetIffIn(rows, (id, Get(rows, id).value));
      GetIffIn(got, (id, Get(rows, id).value));
    }
  }

  /** As many rows are affected whatever order they are visited in. */
  lemma ScanCount(loc: Locale, rows: Rows, w: Option<Where>, ids: seq<nat>)
    requires IdsAscend(rows) && Complete(loc, rows, w, ids)
    ensures |Scan(loc, rows, w, ids)| == |Kept(loc, rows, w)|
  {
    hide Keeps, Get;
    var a, b := Scan(loc, rows, w, ids), Kept(loc, rows, w);
    KeptAscends(loc, rows, w);
    ScanDistinct(loc, rows, w, ids);
    forall id ensures Get(a, id) == Get(b, id) {
      ScanGet(loc, rows, w, ids, id);
      KeptGet(loc, rows, w, id);
    }
    Listed(a);
    Listed(b);
    MoreKeys(a, b);
    MoreKeys(b, a);
  }

  lemma Listed(a: Rows)
    requires DistinctKeys(a)
    ensures forall i :: 0 <= i < |a| ==> Has(a, a[i].0)
  {
    forall i | 0 <= i < |a| ensures Has(a, a[i].0) { GetIs(a, i); }
  }

  // ---- UPDATE ----

  function Changes(picked: Rows, sets: seq<Assignment>): Rows {
    seq(|picked|, i requires 0 <= i < |picked| => (picked[i].0, Assign(picked[i].1, sets)))
  }

  lemma ChangesGet(picked: Rows, sets: seq<Assignment>, id: nat)
    ensures Get(Changes(picked, sets), id) ==
      (match Get(picked, id) case None => None case Some(row) => Some(Assign(row, sets)))
    ensures DistinctKeys(picked) ==> DistinctKeys(Changes(picked, sets))
  {
    FindSameKeys(picked, Changes(picked, sets), id, 0);
    GetFind(picked, id);
    GetFind(Changes(picked, sets), id);
  }

  lemma UpdatedGet(loc: Locale, rows: Rows, w: Option<Where>, sets: seq<Assignment>, id: nat)
    ensures Get(Updated(loc, rows, w, sets), id) ==
      (match Get(rows, id)
       case None => None
       case Some(row) => Some(if Keeps(loc, row, w) then Assign(row, sets) else row))
  {
    hide Keeps, Assign;
    FindSameKeys(rows, Updated(loc, rows, w, sets), id, 0);
    GetFind(rows, id);
    GetFind(Updated(loc, rows, w, sets), id);
  }

  lemma UpdateMerges(loc: Locale, rows: Rows, w: Option<Where>, sets: seq<Assignment>, ids: seq<nat>)
    requires Complete(loc, rows, w, ids)
    ensures var changes := Changes(Scan(loc, rows, w, ids), sets);
      DistinctKeys(changes) && Merges(rows, changes, Updated(loc, rows, w, sets))
  {
    hide Keeps, Assign, Get, Scan, Updated, Complete, Changes;
    forall id
      ensures Get(Updated(loc, rows, w, sets), id) == Overlaid(rows, Changes(Scan(loc, rows, w, ids), sets), id) {
      ScanGet(loc, rows, w, ids, id);
      ChangesGet(Scan(loc, rows, w, ids), sets, id);
      UpdatedGet(loc, rows, w, sets, id);
    }
    ScanGet(loc, rows, w, ids, 0);
    ChangesGet(Scan(loc, rows, w, ids), sets, 0);
  }

  function Overlay(rows: Rows, changes: Rows): Rows {
    if changes == [] then rows
    else
      var n := |changes| - 1;
      Put(Overlay(rows, changes[..n]), changes[n].0, changes[n].1)
  }

  /** Bytes gained by the changes. */
  function Delta(s: Schema, rows: Rows, changes: Rows): int {
    if changes == [] then 0
    else
      var n := |changes| - 1;
      var before := Get(rows, changes[n].0);
      Delta(s, rows, changes[..n]) + RowBytes(s, changes[n].1) - (if before.Some? then RowBytes(s, before.value) else 0)
  }

  ghost predicate Within(changes: Rows, rows: Rows) { forall i :: 0 <= i < |changes| ==> Get(rows, changes[i].0).Some? }

  lemma MergesStep(rows: Rows, mid: Rows, next: Rows, changes: Rows, n: nat)
    requires n < |changes| && DistinctKeys(changes) && Merges(rows, changes[..n], mid)
    requires Get(next, changes[n].0) == Some(changes[n].1) && Elsewhere(mid, next, changes[n].0)
    ensures Merges(rows, changes[..n + 1], next) && Get(mid, changes[n].0) == Get(rows, changes[n].0)
  {
    hide Get;
    var id := changes[n].0;
    forall q ensures Get(next, q) == Overlaid(rows, changes[..n + 1], q) {
      PrefixGet(changes, n, q);
      assert Get(mid, q) == Overlaid(rows, changes[..n], q);
    }
    PrefixGet(changes, n, id);
  }

  lemma PrefixGet(changes: Rows, n: nat, q: nat)
    requires n < |changes| && DistinctKeys(changes)
    ensures Get(changes[..n + 1], q) == if q == changes[n].0 then Some(changes[n].1) else Get(changes[..n], q)
    ensures Get(changes[..n], changes[n].0).None?
  {
    GetFind(changes[..n], changes[n].0);
    assert Put(changes[..n], changes[n].0, changes[n].1) == changes[..n + 1];
    GetPut(changes[..n], changes[n].0, changes[n].1, q);
  }

  lemma {:induction false} OverlayFacts(s: Schema, rows: Rows, n: nat, changes: Rows)
    requires IdsAscend(rows) && IdsBelow(rows, n) && DistinctKeys(changes) && Within(changes, rows)
    ensures var next := Overlay(rows, changes);
      && IdsAscend(next) && IdsBelow(next, n) && |next| == |rows| && Merges(rows, changes, next)
      && TotalBytes(s, next) == TotalBytes(s, rows) + Delta(s, rows, changes)
  {
    hide Get, TotalBytes, RowBytes, Put;
    if changes == [] {
      assert forall id: nat :: Get(changes, id).None? by { EmptyGet(changes); }
    } else {
      var m := |changes| - 1;
      var mid := Overlay(rows, changes[..m]);
      OverlayFacts(s, rows, n, changes[..m]);
      var id := changes[m].0;
      PrefixGet(changes, m, id);
      assert Get(mid, id) == Overlaid(rows, changes[..m], id);
      RowChanged(s, mid, n, id, changes[m].1);
      MergesStep(rows, mid, Overlay(rows, changes), changes, m);
      assert changes[..m + 1] == changes;
    }
  }

  lemma EmptyGet(a: Rows)
    requires a == []
    ensures forall id: nat :: Get(a, id).None?
  {
  }

  /** Putting the changes in one by one is updating every kept row at once. */
  lemma OverlayIsUpdated(loc: Locale, s: Schema, rows: Rows, n: nat, w: Option<Where>, sets: seq<Assignment>,
      ids: seq<nat>)
    requires IdsAscend(rows) && IdsBelow(rows, n) && Complete(loc, rows, w, ids)
    ensures var changes := Changes(Scan(loc, rows, w, ids), sets);
      && DistinctKeys(changes) && Within(changes, rows) && |changes| == |Kept(loc, rows, w)|
      && Overlay(rows, changes) == Updated(loc, rows, w, sets)
      && Merges(rows, changes, Updated(loc, rows, w, sets))
      && TotalBytes(s, Updated(loc, rows, w, sets)) == TotalBytes(s, rows) + Delta(s, rows, changes)
  {
    hide Keeps, Assign, Get, Complete, Scan, TotalBytes, Delta, Overlay;
    var changes := Changes(Scan(loc, rows, w, ids), sets);
    UpdateMerges(loc, rows, w, sets, ids);
    ScanCount(loc, rows, w, ids);
    forall i | 0 <= i < |changes| ensures Get(rows, changes[i].0).Some? {
      ScanHas(loc, rows, w, ids, Scan(loc, rows, w, ids)[i]);
    }
    OverlayFacts(s, rows, n, changes);
    SameLookups(Overlay(rows, changes), Updated(loc, rows, w, sets));
  }

  lemma {:induction false} FieldAssign(row: Row, sets: seq<Assignment>, c: Str)
    requires forall i :: 0 <= i < |sets| ==> sets[i].column != c
    ensures Field(Assign(row, sets), c) == Field(row, c)
  {
    if sets != [] {
      FieldAssign(row, sets[..|sets| - 1], c);
    }
  }

  // ---- DELETE ----

  function Removed(rows: Rows, ids: seq<nat>): Rows {
    if ids == [] then rows else Remove(Removed(rows, ids[..|ids| - 1]), ids[|ids| - 1])
  }

  lemma {:induction false} UnmatchedHas(loc: Locale, rows: Rows, w: Option<Where>, p: (nat, Row))
    ensures p in Unmatched(loc, rows, w) <==> p in rows && !Keeps(loc, p.1, w)
  {
    if rows != [] {
      var rest, last := rows[..|rows| - 1], rows[|rows| - 1];
      UnmatchedHas(loc, rest, w, p);
      assert rows == rest + [last];
    }
  }

  lemma {:induction false} UnmatchedAscends(loc: Locale, rows: Rows, w: Option<Where>)
    requires IdsAscend(rows)
    ensures IdsAscend(Unmatched(loc, rows, w))
  {
    if rows != [] {
      var rest := rows[..|rows| - 1];
      UnmatchedAscends(loc, rest, w);
      var left := Unmatched(loc, rest, w);
      forall i | 0 <= i < |left| ensures left[i].0 < rows[|rows| - 1].0 {
        UnmatchedHas(loc, rest, w, left[i]);
        assert left[i] in rest;
      }
    }
  }

  /** A table from which exactly the kept rows are gone is the unmatched part. */
  lemma GoneIsUnmatched(loc: Locale, rows: Rows, w: Option<Where>, picked: Rows, left: Rows)
    requires IdsAscend(rows) && IdsAscend(left)
    requires forall id :: Get(picked, id) ==
                          (if Get(rows, id).Some? && Keeps(loc, Get(rows, id).value, w) then Get(rows, id) else None)
    requires forall id :: Get(left, id) == if Get(picked, id).Some? then None else Get(rows, id)
    ensures left == Unmatched(loc, rows, w)
  {
    hide Keeps, Get;
    UnmatchedAscends(loc, rows, w);
    forall p ensures p in left <==> p in Unmatched(loc, rows, w) {
      GetIffIn(left, p);
      GetIffIn(rows, p);
      UnmatchedHas(loc, rows, w, p);
    }
    SameAscending(left, Unmatched(loc, rows, w));
  }

  // ---- INSERT ----

  function Added(n: nat, added: seq<Row>): Rows {
    seq(|added|, i requires 0 <= i < |added| => (n + i, added[i]))
  }

  lemma AppendedFacts(rows: Rows, n: nat, added: seq<Row>)
    requires IdsAscend(rows) && IdsBelow(rows, n)
    ensures var next := Appended(rows, n, added);
      && next == rows + Added(n, added) && IdsAscend(next) && IdsBelow(next, n + |added|)
      && DistinctKeys(Added(n, added)) && Merges(rows, Added(n, added), next)
  {
    var next, more := Appended(rows, n, added), Added(n, added);
    forall id ensures Get(next, id) == Overlaid(rows, more, id) {
      GetFind(next, id);
      GetFind(rows, id);
      GetFind(more, id);
      if Find(next, id) < |rows| {
        assert next[Find(next, id)] == rows[Find(next, id)];
        FindIs(rows, Find(next, id));
      } else if Find(next, id) < |next| {
        assert next[Find(next, id)] == more[Find(next, id) - |rows|];
        FindIs(more, Find(next, id) - |rows|);
      } else {
        assert forall i :: 0 <= i < |rows| ==> next[i] == rows[i];
        assert forall i :: 0 <= i < |more| ==> next[|rows| + i] == more[i];
      }
    }
  }

  lemma AppendedStep(rows: Rows, n: nat, added: seq<Row>, i: nat)
    requires i < |added|
    ensures Appended(rows, n, added[..i + 1]) == Appended(rows, n, added[..i]) + [(n + i, added[i])]
  {
  }
}
