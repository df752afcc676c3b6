/** What a table keeps beside its rows: sizes, primary keys and indexes, under row changes. */
module SqlStores {
  import opened ItemLists
  import opened Json
  import opened SqlModel
  import opened SqlIndexes
  import opened SqlQueries
  import Identity

  ghost predicate RowProper(row: Row) { forall c :: c in row ==> Proper(row[c]) }

  ghost predicate RowsProper(rows: Rows) { forall i :: 0 <= i < |rows| ==> RowProper(rows[i].1) }

  ghost predicate IdsBelow(rows: Rows, n: nat) { forall i :: 0 <= i < |rows| ==> rows[i].0 < n }

  function Sizes(s: Schema, rows: Rows): Items<nat, nat> {
    seq(|rows|, i requires 0 <= i < |rows| => (rows[i].0, RowBytes(s, rows[i].1)))
  }

  /** The primary-key text of a row. */
  function KeyText(s: Schema, row: Row): Str
    requires s.primaryKey.Some?
  {
    Identity.Identity(Field(row, s.primaryKey.value))
  }

  predicate Keyed(s: Schema, rows: Rows, id: nat, k: Str)
    requires s.primaryKey.Some?
  {
    Get(rows, id).Some? && KeyText(s, Get(rows, id).value) == k
  }

  /** The primary index is a bijection between key texts and row ids. */
  ghost predicate KeysExact(s: Schema, rows: Rows, primary: map<Str, nat>) {
    if s.primaryKey.None? then primary == map[]
    else
      && (forall k :: k in primary ==> Keyed(s, rows, primary[k], k))
      && (forall id, k :: Keyed(s, rows, id, k) ==> k in primary && primary[k] == id)
  }

  lemma KeysAdd(s: Schema, a: Rows, b: Rows, primary: map<Str, nat>, id: nat, row: Row)
    requires KeysExact(s, a, primary) && Elsewhere(a, b, id) && Get(a, id).None? && Get(b, id) == Some(row)
    requires s.primaryKey.Some? && KeyText(s, row) !in primary
    ensures KeysExact(s, b, primary[KeyText(s, row) := id])
  {
    hide KeyText, Get;
    var next := primary[KeyText(s, row) := id];
    forall k | k in next ensures Keyed(s, b, next[k], k) {
      if k != KeyText(s, row) { assert Keyed(s, a, primary[k], k); }
    }
    forall q, k | Keyed(s, b, q, k) ensures k in next && next[k] == q {
      if q != id { assert Keyed(s, a, q, k); }
    }
  }

  lemma KeysRemove(s: Schema, a: Rows, b: Rows, primary: map<Str, nat>, id: nat, row: Row)
    requires KeysExact(s, a, primary) && Elsewhere(a, b, id) && Get(a, id) == Some(row) && Get(b, id).None?
    requires s.primaryKey.Some?
    ensures KeysExact(s, b, primary - {KeyText(s, row)})
  {
    hide KeyText, Get;
    var next := primary - {KeyText(s, row)};
    assert Keyed(s, a, id, KeyText(s, row));
    forall k | k in next ensures Keyed(s, b, next[k], k) {
      assert Keyed(s, a, primary[k], k);
    }
    forall q, k | Keyed(s, b, q, k) ensures k in next && next[k] == q {
      assert Keyed(s, a, q, k);
    }
  }

  lemma KeysSame(s: Schema, a: Rows, b: Rows, primary: map<Str, nat>)
    requires KeysExact(s, a, primary)
    requires s.primaryKey.Some? ==> forall id, k :: Keyed(s, a, id, k) <==> Keyed(s, b, id, k)
    ensures KeysExact(s, b, primary)
  {
  }

  // ---- uniqueness ----

  ghost predicate TextsUnique(s: Schema, rows: Rows) {
    s.primaryKey.Some? ==> forall p, q, k :: Keyed(s, rows, p, k) && Keyed(s, rows, q, k) ==> p == q
  }

  lemma ProperField(row: Row, c: Str)
    requires RowProper(row)
    ensures Proper(Field(row, c))
  {
  }

  /** Unique key texts are exactly structurally unique keys. */
  lemma TextsUniqueIff(s: Schema, rows: Rows)
    requires IdsAscend(rows) && RowsProper(rows)
    ensures TextsUnique(s, rows) <==> UniqueKeys(s, rows)
  {
    hide KeyText, Same;
    if s.primaryKey.Some? {
      if TextsUnique(s, rows) {
        forall i, j | 0 <= i < j < |rows|
          ensures !Same(Field(rows[i].1, s.primaryKey.value), Field(rows[j].1, s.primaryKey.value))
        {
          TextsOf(s, rows, i, j);
        }
      }
      if UniqueKeys(s, rows) {
        forall p, q, k | Keyed(s, rows, p, k) && Keyed(s, rows, q, k) ensures p == q {
          GetFind(rows, p);
          GetFind(rows, q);
          TextsOf(s, rows, Find(rows, p), Find(rows, q));
          TextsOf(s, rows, Find(rows, q), Find(rows, p));
        }
      }
    }
  }

  lemma TextsOf(s: Schema, rows: Rows, i: nat, j: nat)
    requires IdsAscend(rows) && RowsProper(rows) && s.primaryKey.Some? && i < |rows| && j < |rows|
    ensures Keyed(s, rows, rows[i].0, KeyText(s, rows[i].1)) && Keyed(s, rows, rows[j].0, KeyText(s, rows[j].1))
    ensures KeyText(s, rows[i].1) == KeyText(s, rows[j].1) <==>
      Same(Field(rows[i].1, s.primaryKey.value), Field(rows[j].1, s.primaryKey.value))
  {
    var c := s.primaryKey.value;
    GetIs(rows, i);
    GetIs(rows, j);
    ProperField(rows[i].1, c);
    ProperField(rows[j].1, c);
    Identity.IdentityIffSame(Field(rows[i].1, c), Field(rows[j].1, c));
  }

  function Overlaid(rows: Rows, changes: Rows, id: nat): Option<Row> {
    if Get(changes, id).Some? then Get(changes, id) else Get(rows, id)
  }

  /** next is rows with the rows of changes put over it. */
  ghost predicate Merges(rows: Rows, changes: Rows, next: Rows) {
    forall id :: Get(next, id) == Overlaid(rows, changes, id)
  }

  /** What assertPrimaryKeyUnique lets through: no key twice among the candidates, none held by a
      row that is not being replaced. */
  ghost predicate FreshKeys(s: Schema, primary: map<Str, nat>, changes: Rows, n: nat)
    requires n <= |changes|
  {
    s.primaryKey.Some? ==> forall i :: 0 <= i < n ==> FreshKey(s, primary, changes, i)
  }

  ghost predicate FreshKey(s: Schema, primary: map<Str, nat>, changes: Rows, i: nat)
    requires i < |changes| && s.primaryKey.Some?
  {
    var k := KeyText(s, changes[i].1);
    && (forall j :: 0 <= j < i ==> KeyText(s, changes[j].1) != k)
    && (k in primary ==> Get(changes, primary[k]).Some?)
  }

  /** The check passes exactly when the table that would result has unique key texts. */
  lemma FreshIffUnique(s: Schema, rows: Rows, primary: map<Str, nat>, changes: Rows, next: Rows)
    requires KeysExact(s, rows, primary) && DistinctKeys(changes) && Merges(rows, changes, next)
    ensures FreshKeys(s, primary, changes, |changes|) <==> TextsUnique(s, next)
  {
    hide KeyText, Get;
    if s.primaryKey.Some? {
      if FreshKeys(s, primary, changes, |changes|) {
        forall p, q, k | Keyed(s, next, p, k) && Keyed(s, next, q, k) ensures p == q {
          FreshApart(s, rows, primary, changes, next, p, q, k);
        }
      }
      if TextsUnique(s, next) {
        forall i | 0 <= i < |changes| ensures FreshKey(s, primary, changes, i) {
          UniqueFresh(s, rows, primary, changes, next, i);
        }
      }
    }
  }

  lemma FreshApart(s: Schema, rows: Rows, primary: map<Str, nat>, changes: Rows, next: Rows, p: nat, q: nat, k: Str)
    requires KeysExact(s, rows, primary) && DistinctKeys(changes) && Merges(rows, changes, next) && s.primaryKey.Some?
    requires FreshKeys(s, primary, changes, |changes|) && Keyed(s, next, p, k) && Keyed(s, next, q, k)
    ensures p == q
  {
    hide KeyText;
    GetFind(changes, p);
    GetFind(changes, q);
    var i, j := Find(changes, p), Find(changes, q);
    assert i < |changes| ==> FreshKey(s, primary, changes, i);
    assert j < |changes| ==> FreshKey(s, primary, changes, j);
    assert i >= |changes| ==> Keyed(s, rows, p, k);
    assert j >= |changes| ==> Keyed(s, rows, q, k);
  }

  lemma UniqueFresh(s: Schema, rows: Rows, primary: map<Str, nat>, changes: Rows, next: Rows, i: nat)
    requires KeysExact(s, rows, primary) && DistinctKeys(changes) && Merges(rows, changes, next) && s.primaryKey.Some?
    requires TextsUnique(s, next) && i < |changes|
    ensures FreshKey(s, primary, changes, i)
  {
    hide KeyText;
    var k := KeyText(s, changes[i].1);
    GetIs(changes, i);
    assert Keyed(s, next, changes[i].0, k);
    forall j | 0 <= j < i ensures KeyText(s, changes[j].1) != k {
      GetIs(changes, j);
      assert Keyed(s, next, changes[j].0, KeyText(s, changes[j].1));
    }
    assert forall q :: Keyed(s, rows, q, k) && Get(changes, q).None? ==> Keyed(s, next, q, k);
  }

  /** Rows already in place leave the key of a row still to come free. */
  lemma KeyFree(s: Schema, live: Rows, primary: map<Str, nat>, next: Rows, id: nat, row: Row)
    requires s.primaryKey.Some? && KeysExact(s, live, primary) && TextsUnique(s, next) && Get(next, id) == Some(row)
    requires Get(live, id).None? && forall q :: Get(live, q).Some? ==> Get(next, q) == Get(live, q)
    ensures KeyText(s, row) !in primary
  {
    hide KeyText, Get;
    var k := KeyText(s, row);
    assert Keyed(s, next, id, k);
    assert forall q :: Keyed(s, live, q, k) ==> Keyed(s, next, q, k);
  }

  // ---- sizes ----

  lemma {:induction false} TotalPut(s: Schema, rows: Rows, i: nat, row: Row)
    requires i < |rows|
    ensures TotalBytes(s, rows[i := (rows[i].0, row)])
      == TotalBytes(s, rows) - RowBytes(s, rows[i].1) + RowBytes(s, row)
  {
    var next := rows[i := (rows[i].0, row)];
    var n := |rows| - 1;
    if i < n {
      TotalPut(s, rows[..n], i, row);
      assert next[..n] == rows[..n][i := (rows[i].0, row)];
    } else {
      assert next[..n] == rows[..n];
    }
  }

  lemma {:induction false} TotalRemove(s: Schema, rows: Rows, i: nat)
    requires i < |rows|
    ensures TotalBytes(s, RemoveAt(rows, i)) == TotalBytes(s, rows) - RowBytes(s, rows[i].1)
  {
    var n := |rows| - 1;
    if i < n {
      TotalRemove(s, rows[..n], i);
      assert RemoveAt(rows, i)[..n - 1] == RemoveAt(rows[..n], i);
    } else {
      assert RemoveAt(rows, i) == rows[..n];
    }
  }

  lemma TotalAppend(s: Schema, rows: Rows, id: nat, row: Row)
    ensures TotalBytes(s, rows + [(id, row)]) == TotalBytes(s, rows) + RowBytes(s, row)
  {
    assert (rows + [(id, row)])[..|rows|] == rows;
  }

  lemma SizeOf(s: Schema, rows: Rows, id: nat)
    requires IdsAscend(rows)
    ensures Find(Sizes(s, rows), id) == Find(rows, id)
    ensures Get(Sizes(s, rows), id) == if Get(rows, id).Some? then Some(RowBytes(s, Get(rows, id).value)) else None
  {
    FindSameKeys(Sizes(s, rows), rows, id, 0);
    GetFind(Sizes(s, rows), id);
    GetFind(rows, id);
  }

  // ---- one row in, changed or out ----

  lemma RowAdded(s: Schema, rows: Rows, n: nat, row: Row)
    requires IdsAscend(rows) && IdsBelow(rows, n)
    ensures Get(rows, n).None? && Put(rows, n, row) == rows + [(n, row)]
    ensures IdsAscend(rows + [(n, row)]) && IdsBelow(rows + [(n, row)], n + 1)
    ensures Get(rows + [(n, row)], n) == Some(row) && Elsewhere(rows, rows + [(n, row)], n)
    ensures Put(Sizes(s, rows), n, RowBytes(s, row)) == Sizes(s, rows + [(n, row)])
  {
    hide RowBytes;
    GetFind(rows, n);
    SizeOf(s, rows, n);
    forall q ensures Get(rows + [(n, row)], q) == if q == n then Some(row) else Get(rows, q) {
      GetPut(rows, n, row, q);
    }
  }

  lemma SizesChanged(s: Schema, rows: Rows, id: nat, row: Row)
    requires IdsAscend(rows) && Get(rows, id).Some?
    ensures Put(Sizes(s, rows), id, RowBytes(s, row)) == Sizes(s, Put(rows, id, row))
  {
    hide RowBytes;
    GetFind(rows, id);
    SizeOf(s, rows, id);
  }

  lemma SizesGone(s: Schema, rows: Rows, id: nat)
    requires IdsAscend(rows) && Get(rows, id).Some?
    ensures Remove(Sizes(s, rows), id) == Sizes(s, Remove(rows, id))
  {
    hide RowBytes;
    GetFind(rows, id);
    SizeOf(s, rows, id);
  }

  lemma RowChanged(s: Schema, rows: Rows, n: nat, id: nat, row: Row)
    requires IdsAscend(rows) && IdsBelow(rows, n) && Get(rows, id).Some?
    ensures var next := Put(rows, id, row);
      && |next| == |rows| && (forall i :: 0 <= i < |rows| ==> next[i].0 == rows[i].0)
      && IdsAscend(next) && IdsBelow(next, n) && Get(next, id) == Some(row) && Elsewhere(rows, next, id)
      && Put(Sizes(s, rows), id, RowBytes(s, row)) == Sizes(s, next)
      && TotalBytes(s, next) == TotalBytes(s, rows) - RowBytes(s, Get(rows, id).value) + RowBytes(s, row)
  {
    hide RowBytes, TotalBytes, Sizes, GetFrom, FindFrom;
    GetFind(rows, id);
    SizesChanged(s, rows, id, row);
    TotalPut(s, rows, Find(rows, id), row);
    forall q ensures Get(Put(rows, id, row), q) == if q == id then Some(row) else Get(rows, q) {
      GetPut(rows, id, row, q);
    }
  }

  lemma RowGone(s: Schema, rows: Rows, n: nat, id: nat)
    requires IdsAscend(rows) && IdsBelow(rows, n) && Get(rows, id).Some?
    ensures var next := Remove(rows, id);
      && |next| == |rows| - 1 && IdsAscend(next) && IdsBelow(next, n) && Get(next, id).None?
          && Elsewhere(rows, next, id)
      && Remove(Sizes(s, rows), id) == Sizes(s, next)
      && TotalBytes(s, next) == TotalBytes(s, rows) - RowBytes(s, Get(rows, id).value)
  {
    hide RowBytes, TotalBytes, Sizes, GetFrom, FindFrom;
    GetFind(rows, id);
    SizesGone(s, rows, id);
    TotalRemove(s, rows, Find(rows, id));
    forall q ensures Get(Remove(rows, id), q) == if q == id then None else Get(rows, q) {
      GetRemove(rows, id, q);
    }
  }
}
