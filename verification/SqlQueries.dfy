/** Scanning by row id, in any complete order-respecting way, and the ORDER BY comparator. */
module SqlQueries {
  import opened ItemLists
  import opened Json
  import opened Ordering
  import opened SqlModel

  ghost predicate IdsAscend(rows: Rows) { forall i, j :: 0 <= i < j < |rows| ==> rows[i].0 < rows[j].0 }

  ghost predicate Climbs(ids: seq<nat>) { forall i, j :: 0 <= i < j < |ids| ==> ids[i] < ids[j] }

  function Ids(rows: Rows): seq<nat> { seq(|rows|, i requires 0 <= i < |rows| => rows[i].0) }

  /** The row of one id, when it is there and kept. */
  function Pick(loc: Locale, rows: Rows, w: Option<Where>, id: nat): Rows {
    match Get(rows, id)
    case None => []
    case Some(row) => if Keeps(loc, row, w) then [(id, row)] else []
  }

  /** The kept rows of the given ids, in the order of the ids. */
  function Scan(loc: Locale, rows: Rows, w: Option<Where>, ids: seq<nat>): Rows {
    if ids == [] then [] else Scan(loc, rows, w, ids[..|ids| - 1]) + Pick(loc, rows, w, ids[|ids| - 1])
  }

  lemma ScanStep(loc: Locale, rows: Rows, w: Option<Where>, ids: seq<nat>, i: nat)
    requires i < |ids|
    ensures Scan(loc, rows, w, ids[..i + 1]) == Scan(loc, rows, w, ids[..i]) + Pick(loc, rows, w, ids[i])
  {
    assert ids[..i + 1][..i] == ids[..i];
  }

  lemma {:induction false} ScanHas(loc: Locale, rows: Rows, w: Option<Where>, ids: seq<nat>, p: (nat, Row))
    ensures p in Scan(loc, rows, w, ids) <==> p.0 in ids && Get(rows, p.0) == Some(p.1) && Keeps(loc, p.1, w)
  {
    if ids != [] {
      var rest, last := ids[..|ids| - 1], ids[|ids| - 1];
      ScanHas(loc, rows, w, rest, p);
      assert ids == rest + [last];
    }
  }

  lemma {:induction false} KeptHas(loc: Locale, rows: Rows, w: Option<Where>, p: (nat, Row))
    ensures p in Kept(loc, rows, w) <==> p in rows && Keeps(loc, p.1, w)
  {
    if rows != [] {
      var rest, last := rows[..|rows| - 1], rows[|rows| - 1];
      KeptHas(loc, rest, w, p);
      assert rows == rest + [last];
    }
  }

  lemma {:induction false} KeptAscends(loc: Locale, rows: Rows, w: Option<Where>)
    requires IdsAscend(rows)
    ensures IdsAscend(Kept(loc, rows, w))
  {
    if rows != [] {
      var rest := rows[..|rows| - 1];
      KeptAscends(loc, rest, w);
      var kept := Kept(loc, rest, w);
      forall i | 0 <= i < |kept| ensures kept[i].0 < rows[|rows| - 1].0 {
        KeptHas(loc, rest, w, kept[i]);
        assert kept[i] in rest;
      }
    }
  }

  lemma {:induction false} ScanAscends(loc: Locale, rows: Rows, w: Option<Where>, ids: seq<nat>)
    requires Climbs(ids)
    ensures IdsAscend(Scan(loc, rows, w, ids))
  {
    if ids != [] {
      var rest := ids[..|ids| - 1];
      ScanAscends(loc, rows, w, rest);
      var got := Scan(loc, rows, w, rest);
      forall i | 0 <= i < |got| ensures got[i].0 < ids[|ids| - 1] {
        ScanHas(loc, rows, w, rest, got[i]);
      }
    }
  }

  lemma LastIsGreatest(a: Rows, p: (nat, Row))
    requires IdsAscend(a) && p in a
    ensures p.0 <= a[|a| - 1].0 && (p.0 == a[|a| - 1].0 ==> p == a[|a| - 1])
  {
  }

  /** Ascending lists with the same members are the same. */
  lemma {:induction false} SameAscending(a: Rows, b: Rows)
    requires IdsAscend(a) && IdsAscend(b) && forall p :: p in a <==> p in b
    ensures a == b
  {
    if a != [] {
      var x := a[|a| - 1];
      assert x in b;
      var y := b[|b| - 1];
      assert y in a;
      LastIsGreatest(a, y);
      LastIsGreatest(b, x);
      var c, d := a[..|a| - 1], b[..|b| - 1];
      assert a == c + [x] && b == d + [y];
      forall p ensures p in c <==> p in d {
        assert p in c ==> p in a;
        assert p in d ==> p in b;
      }
      SameAscending(c, d);
    } else {
      NoMembers(b);
    }
  }

  lemma NoMembers<T>(s: seq<T>)
    ensures s == [] <==> forall x :: x !in s
  {
    assert s != [] ==> s[0] in s;
  }

  lemma GetIffIn(rows: Rows, p: (nat, Row))
    requires IdsAscend(rows)
    ensures Get(rows, p.0) == Some(p.1) <==> p in rows
  {
    GetFind(rows, p.0);
    if p in rows {
      var i :| 0 <= i < |rows| && rows[i] == p;
      GetIs(rows, i);
    }
  }

  /** Visiting ids in ascending order, none of a kept row missing, is the filter of the whole table. */
  lemma ScanIsKept(loc: Locale, rows: Rows, w: Option<Where>, ids: seq<nat>)
    requires IdsAscend(rows) && Climbs(ids)
    requires forall id :: Get(rows, id).Some? && Keeps(loc, Get(rows, id).value, w) ==> id in ids
    ensures Scan(loc, rows, w, ids) == Kept(loc, rows, w)
  {
    hide Keeps, Get, Scan, Kept;
    KeptAscends(loc, rows, w);
    ScanAscends(loc, rows, w, ids);
    forall p ensures p in Scan(loc, rows, w, ids) <==> p in Kept(loc, rows, w) {
      ScanHas(loc, rows, w, ids, p);
      KeptHas(loc, rows, w, p);
      GetIffIn(rows, p);
    }
    SameAscending(Scan(loc, rows, w, ids), Kept(loc, rows, w));
  }

  lemma AllIds(rows: Rows)
    requires IdsAscend(rows)
    ensures Climbs(Ids(rows)) && forall id :: Get(rows, id).Some? ==> id in Ids(rows)
  {
    forall id | Get(rows, id).Some? ensures id in Ids(rows) {
      GetFind(rows, id);
      assert Ids(rows)[Find(rows, id)] == id;
    }
  }

  // ---- sorting ids ----

  function ById(): (nat, nat) -> int { (a: nat, b: nat) => a - b }

  lemma ByIdOrders()
    ensures TotalPreorder(ById())
  {
  }

  lemma SortedIds(ids: seq<nat>)
    requires Distinct(ids)
    ensures Climbs(Sort(ById(), ids)) && forall x :: x in Sort(ById(), ids) <==> x in ids
  {
    var s := Sort(ById(), ids);
    ByIdOrders();
    SortSorts(ById(), ids);
    forall x ensures x in s <==> x in ids {
      if x in s { SameElements(s, ids, x); }
      if x in ids { SameElements(ids, s, x); }
    }
    DistinctCounts(ids);
    forall i, j | 0 <= i < j < |s| ensures s[i] < s[j] {
      assert ById()(s[i], s[j]) <= 0;
      TwiceCounts(s, i, j);
    }
  }

  lemma DistinctCounts(s: seq<nat>)
    requires Distinct(s)
    ensures forall x :: multiset(s)[x] <= 1
  {
    if s != [] {
      var t := s[..|s| - 1];
      assert s == t + [s[|s| - 1]];
      DistinctCounts(t);
      assert s[|s| - 1] !in t;
    }
  }

  lemma TwiceCounts(s: seq<nat>, i: nat, j: nat)
    requires i < j < |s|
    ensures s[i] == s[j] ==> multiset(s)[s[i]] >= 2
  {
    assert s == s[..i] + [s[i]] + s[i + 1..j] + [s[j]] + s[j + 1..];
  }

  // ---- the ORDER BY comparator ----

  lemma CollateFlip(loc: Locale, a: Str, b: Str)
    requires TotalPreorder(loc.collate)
    ensures loc.collate(a, b) < 0 <==> loc.collate(b, a) > 0
    ensures loc.collate(b, a) < 0 <==> loc.collate(a, b) > 0
  {
  }

  function CollatedText(v: Value): Str { if v.Text? then v.s else Stringify(v) }

  lemma OrderFlip(loc: Locale, x: Value, y: Value)
    requires TotalPreorder(loc.collate)
    ensures CompareOrder(loc, x, y) < 0 <==> CompareOrder(loc, y, x) > 0
    ensures x.Null? && y.Null? ==> CompareOrder(loc, x, y) == 0
  {
    hide Stringify, TotalPreorder;
    CollateFlip(loc, CollatedText(x), CollatedText(y));
  }

  lemma OrderTrans(loc: Locale, x: Value, y: Value, z: Value)
    requires TotalPreorder(loc.collate) && CompareOrder(loc, x, y) <= 0 && CompareOrder(loc, y, z) <= 0
    ensures CompareOrder(loc, x, z) <= 0
  {
    hide Stringify, TotalPreorder;
    if Rank(x) == Rank(y) == Rank(z) && (x.Text? || x.Arr? || x.Obj?) && !y.Null? && !z.Null? {
      Trans(loc.collate, CollatedText(x), CollatedText(y), CollatedText(z));
    }
  }

  /** The comparison of one column in the requested direction, nulls last either way. */
  function Directed(loc: Locale, desc: bool, x: Value, y: Value): int {
    var c := CompareOrder(loc, x, y);
    if c != 0 && !x.Null? && !y.Null? && desc then -c else c
  }

  lemma DirectedFlip(loc: Locale, desc: bool, x: Value, y: Value)
    requires TotalPreorder(loc.collate)
    ensures Directed(loc, desc, x, y) < 0 <==> Directed(loc, desc, y, x) > 0
    ensures Directed(loc, desc, y, x) < 0 <==> Directed(loc, desc, x, y) > 0
  {
    hide CompareOrder, TotalPreorder;
    OrderFlip(loc, x, y);
    OrderFlip(loc, y, x);
  }

  lemma NullOrder(loc: Locale, x: Value, y: Value)
    ensures x.Null? && !y.Null? ==> CompareOrder(loc, x, y) > 0
    ensures !x.Null? && y.Null? ==> CompareOrder(loc, x, y) < 0
    ensures x.Null? && y.Null? ==> CompareOrder(loc, x, y) == 0
  {
  }

  lemma DirectedTrans(loc: Locale, desc: bool, x: Value, y: Value, z: Value)
    requires TotalPreorder(loc.collate) && Directed(loc, desc, x, y) <= 0 && Directed(loc, desc, y, z) <= 0
    ensures Directed(loc, desc, x, z) <= 0
  {
    hide CompareOrder, TotalPreorder;
    NullOrder(loc, x, y);
    NullOrder(loc, y, z);
    NullOrder(loc, x, z);
    if !desc || x.Null? || y.Null? || z.Null? {
      if CompareOrder(loc, x, y) <= 0 && CompareOrder(loc, y, z) <= 0 { OrderTrans(loc, x, y, z); }
    } else {
      OrderFlip(loc, x, y);
      OrderFlip(loc, y, x);
      OrderFlip(loc, y, z);
      OrderFlip(loc, z, y);
      OrderFlip(loc, x, z);
      OrderFlip(loc, z, x);
      OrderTrans(loc, z, y, x);
    }
  }

  /** The SELECT comparator is a total order on row ids with their rows. */
  lemma RowOrderTotal(loc: Locale, o: OrderBy)
    requires TotalPreorder(loc.collate)
    ensures TotalPreorder(RowOrder(loc, o))
  {
    var cmp := RowOrder(loc, o);
    forall a, b ensures cmp(a, b) < 0 <==> cmp(b, a) > 0 {
      DirectedFlip(loc, o.descending, Field(a.1, o.column), Field(b.1, o.column));
      RowOrderIs(loc, o, a, b);
      RowOrderIs(loc, o, b, a);
    }
    forall a, b, c | cmp(a, b) <= 0 && cmp(b, c) <= 0 ensures cmp(a, c) <= 0 {
      RowTrans(loc, o, a, b, c);
    }
  }

  lemma RowOrderIs(loc: Locale, o: OrderBy, a: (nat, Row), b: (nat, Row))
    ensures var d := Directed(loc, o.descending, Field(a.1, o.column), Field(b.1, o.column));
      RowOrder(loc, o)(a, b) == if d != 0 then d else a.0 - b.0
  {
  }

  lemma RowTrans(loc: Locale, o: OrderBy, a: (nat, Row), b: (nat, Row), c: (nat, Row))
    requires TotalPreorder(loc.collate) && RowOrder(loc, o)(a, b) <= 0 && RowOrder(loc, o)(b, c) <= 0
    ensures RowOrder(loc, o)(a, c) <= 0
  {
    hide TotalPreorder, RowOrder, Directed;
    var x, y, z := Field(a.1, o.column), Field(b.1, o.column), Field(c.1, o.column);
    RowOrderIs(loc, o, a, b);
    RowOrderIs(loc, o, b, c);
    RowOrderIs(loc, o, a, c);
    DirectedTrans(loc, o.descending, x, y, z);
    DirectedFlip(loc, o.descending, x, y);
    DirectedFlip(loc, o.descending, y, z);
    DirectedFlip(loc, o.descending, x, z);
    if Directed(loc, o.descending, x, z) == 0 {
      DirectedTrans(loc, o.descending, z, x, y);
      DirectedTrans(loc, o.descending, y, z, x);
    }
  }

  /** Rows of one table never compare equal unless they are the same row. */
  lemma RowOrderStrict(loc: Locale, o: OrderBy, rows: Rows)
    requires IdsAscend(rows)
    ensures Strict(RowOrder(loc, o), rows)
  {
    hide CompareOrder;
    forall i, j | 0 <= i < |rows| && 0 <= j < |rows| && RowOrder(loc, o)(rows[i], rows[j]) == 0
      ensures rows[i] == rows[j]
    {
      RowOrderIs(loc, o, rows[i], rows[j]);
    }
  }

  // ---- windows ----

  lemma WindowOfTop<T>(s: seq<T>, n: nat, skip: nat, take: nat)
    requires n <= |s| && (n == |s| || skip + take <= n)
    ensures Window(s[..n], skip, take) == Window(s, skip, take)
  {
  }

  lemma NoWindow<T>(skip: nat, take: nat)
    ensures Window<T>([], skip, take) == []
  {
  }

  lemma NothingTaken<T>(s: seq<T>, skip: nat)
    ensures Window(s, skip, 0) == []
  {
  }

  lemma WindowDone<T>(s: seq<T>, more: seq<T>, skip: nat, take: nat)
    requires |Window(s, skip, take)| >= take > 0
    ensures Window(s + more, skip, take) == Window(s, skip, take)
  {
  }

  lemma WindowMore<T>(s: seq<T>, x: T, skip: nat, take: nat)
    requires |Window(s, skip, take)| < take
    ensures Window(s + [x], skip, take) == Window(s, skip, take) + if |s| < skip then [] else [x]
  {
  }
}
