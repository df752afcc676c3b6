/** What statements mean, said apart from how they are evaluated: the truth of WHERE, the order and the
    fields of an answer, what each column of a new or changed row holds. */
module SqlMeaning {
  import opened ItemLists
  import opened Json
  import opened Ordering
  import opened StructuralEquality
  import opened SqlModel
  import opened SqlQueries
  import Like

  // ---- WHERE, as what makes it true and what makes it false ----

  /** a stands before b: as numbers when both are, else as texts. */
  predicate Less(loc: Locale, a: Value, b: Value) {
    if a.Num? && b.Num? then a.n < b.n else loc.collate(ToText(a), ToText(b)) < 0
  }

  predicate More(loc: Locale, a: Value, b: Value) {
    if a.Num? && b.Num? then a.n > b.n else loc.collate(ToText(a), ToText(b)) > 0
  }

  predicate Occurs(a: Value, xs: Elems) {
    exists i :: 0 <= i < Length(xs) && !Nth(xs, i).Null? && Same(a, Nth(xs, i))
  }

  predicate HasNull(xs: Elems) { exists i :: 0 <= i < Length(xs) && Nth(xs, i).Null? }

  /** Against a list, an ordering operator compares with its first element; null is below everything. */
  predicate Above(loc: Locale, a: Value, b: Value) {
    if b.Arr? then Nth(b.elems, 0).Null? || More(loc, a, Nth(b.elems, 0)) else More(loc, a, b)
  }

  predicate Under(loc: Locale, a: Value, b: Value) {
    if b.Arr? then !Nth(b.elems, 0).Null? && Less(loc, a, Nth(b.elems, 0)) else Less(loc, a, b)
  }

  predicate Matches(loc: Locale, a: Value, b: Value) {
    Like.Taken(loc.lower(ToText(a)), loc.lower(ToText(b)), 0, 0)
  }

  /** The comparison is true. */
  predicate Holds(loc: Locale, a: Value, op: Op, b: Value) {
    !a.Null? && !b.Null? && b != Arr(NoElems) &&
    match op
    case Eq => !b.Arr? && Same(a, b)
    case Ne => !b.Arr? && !Same(a, b)
    case Gt => Above(loc, a, b)
    case Ge => !Under(loc, a, b)
    case Lt => Under(loc, a, b)
    case Le => !Above(loc, a, b)
    case LikeOp => Matches(loc, a, b)
    case In => b.Arr? && Occurs(a, b.elems)
    case Between =>
      && b.Arr? && !Nth(b.elems, 0).Null? && !Nth(b.elems, 1).Null?
      && !Under(loc, a, Nth(b.elems, 0)) && !Above(loc, a, Nth(b.elems, 1))
  }

  /** The comparison is false. */
  predicate Fails(loc: Locale, a: Value, op: Op, b: Value) {
    !a.Null? && !b.Null? &&
    (b == Arr(NoElems) ||
     match op
     case Eq => b.Arr? || !Same(a, b)
     case Ne => b.Arr? || Same(a, b)
     case Gt => !Above(loc, a, b)
     case Ge => Under(loc, a, b)
     case Lt => !Under(loc, a, b)
     case Le => Above(loc, a, b)
     case LikeOp => !Matches(loc, a, b)
     case In => !b.Arr? || (!Occurs(a, b.elems) && !HasNull(b.elems))
     case Between =>
       || !b.Arr?
       || (!Nth(b.elems, 0).Null? && Under(loc, a, Nth(b.elems, 0)))
       || (!Nth(b.elems, 1).Null? && Above(loc, a, Nth(b.elems, 1))))
  }

  predicate IsTrue(loc: Locale, row: Row, w: Where) {
    match w
    case And(l, r) => IsTrue(loc, row, l) && IsTrue(loc, row, r)
    case Or(l, r) => IsTrue(loc, row, l) || IsTrue(loc, row, r)
    case Not(c) => IsFalse(loc, row, c)
    case IsNull(e) => Eval(row, e).Null?
    case IsNotNull(e) => !Eval(row, e).Null?
    case Compare(l, op, r) => Holds(loc, Eval(row, l), op, EvalOperand(row, r))
  }

  predicate IsFalse(loc: Locale, row: Row, w: Where) {
    match w
    case And(l, r) => IsFalse(loc, row, l) || IsFalse(loc, row, r)
    case Or(l, r) => IsFalse(loc, row, l) && IsFalse(loc, row, r)
    case Not(c) => IsTrue(loc, row, c)
    case IsNull(e) => !Eval(row, e).Null?
    case IsNotNull(e) => Eval(row, e).Null?
    case Compare(l, op, r) => Fails(loc, Eval(row, l), op, EvalOperand(row, r))
  }

  lemma {:induction false} OneOfMeans(a: Value, xs: Elems)
    ensures OneOf(a, xs) == if Occurs(a, xs) then Some(true) else if HasNull(xs) then None else Some(false)
  {
    hide Same;
    match xs
    case NoElems =>
    case Elem(h, t) =>
      OneOfMeans(a, t);
      assert Nth(xs, 0) == h && forall i :: 0 <= i < Length(t) ==> Nth(xs, i + 1) == Nth(t, i);
      assert forall i :: 1 <= i < Length(xs) ==> Nth(xs, i) == Nth(t, i - 1);
  }

  lemma CompareSigns(loc: Locale, a: Value, b: Value)
    requires !a.Null? && !b.Null?
    ensures CompareValues(loc, a, b) > 0 <==> Above(loc, a, b)
    ensures CompareValues(loc, a, b) < 0 <==> Under(loc, a, b)
  {
    hide ToText;
  }

  lemma InsideMeans(loc: Locale, a: Value, low: Value, high: Value)
    requires !a.Null?
    ensures var r := Inside(loc, a, low, high);
      && (r == Some(true) <==> !low.Null? && !high.Null? && !Under(loc, a, low) && !Above(loc, a, high))
      && (r == Some(false) <==> (!low.Null? && Under(loc, a, low)) || (!high.Null? && Above(loc, a, high)))
  {
    hide CompareValues, Under, Above;
    if !low.Null? { CompareSigns(loc, a, low); }
    if !high.Null? { CompareSigns(loc, a, high); }
  }

  lemma ComparisonMeans(loc: Locale, a: Value, op: Op, b: Value)
    ensures Comparison(loc, a, op, b) == Some(true) <==> Holds(loc, a, op, b)
    ensures Comparison(loc, a, op, b) == Some(false) <==> Fails(loc, a, op, b)
  {
    hide CompareValues, Under, Above, Same, Inside, OneOf, Occurs, HasNull, Like.Taken, ToText;
    if !a.Null? && !b.Null? {
      CompareSigns(loc, a, b);
      if b.Arr? {
        OneOfMeans(a, b.elems);
        InsideMeans(loc, a, Nth(b.elems, 0), Nth(b.elems, 1));
      }
    }
  }

  lemma ThreeValues(a: Option<bool>)
    ensures a == None || a == Some(true) || a == Some(false)
  {
    if a.Some? && a.value { assert a == Some(true); }
    if a.Some? && !a.value { assert a == Some(false); }
  }

  /** Kleene's logic: a WHERE clause is TRUE exactly when it holds and FALSE exactly when it fails; with
      null involved it may be neither. Only TRUE keeps a row. */
  lemma {:induction false} WhereMeans(loc: Locale, row: Row, w: Where)
    ensures Truth(loc, row, w) == Some(true) <==> IsTrue(loc, row, w)
    ensures Truth(loc, row, w) == Some(false) <==> IsFalse(loc, row, w)
  {
    hide Comparison, Holds, Fails, Eval, EvalOperand;
    match w
    case And(l, r) =>
      WhereMeans(loc, row, l);
      WhereMeans(loc, row, r);
      ThreeValues(Truth(loc, row, l));
      ThreeValues(Truth(loc, row, r));
    case Or(l, r) =>
      WhereMeans(loc, row, l);
      WhereMeans(loc, row, r);
      ThreeValues(Truth(loc, row, l));
      ThreeValues(Truth(loc, row, r));
    case Not(c) => WhereMeans(loc, row, c);
    case Compare(l, op, r) => ComparisonMeans(loc, Eval(row, l), op, EvalOperand(row, r));
    case _ =>
  }

  // ---- ORDER BY ----

  /** Neither is null, and x may stand before y in ascending order: numbers, texts, booleans, arrays, then
      objects; false before true; arrays and objects by their JSON text. */
  predicate NotAfter(loc: Locale, x: Value, y: Value) {
    match x
    case Num(n) => y.Num? ==> n <= y.n
    case Text(s) => if y.Text? then loc.collate(s, y.s) <= 0 else !y.Num?
    case Bool(b) => if y.Bool? then b ==> y.b else y.Arr? || y.Obj?
    case Arr(_) => if y.Arr? then loc.collate(Stringify(x), Stringify(y)) <= 0 else y.Obj?
    case Obj(_) => y.Obj? && loc.collate(Stringify(x), Stringify(y)) <= 0
    case Null => false
  }

  /** x may stand before y: nulls last in either direction. */
  predicate InTurn(loc: Locale, descending: bool, x: Value, y: Value) {
    if x.Null? then y.Null?
    else y.Null? || (if descending then NotAfter(loc, y, x) else NotAfter(loc, x, y))
  }

  /** Row a stands before row b: by the column, and rows that tie there by id. */
  predicate RowsInTurn(loc: Locale, o: OrderBy, a: (nat, Row), b: (nat, Row)) {
    var x, y := Field(a.1, o.column), Field(b.1, o.column);
    InTurn(loc, o.descending, x, y) && (InTurn(loc, o.descending, y, x) ==> a.0 <= b.0)
  }

  lemma OrderMeans(loc: Locale, x: Value, y: Value)
    ensures CompareOrder(loc, x, y) <= 0 <==> if x.Null? then y.Null? else y.Null? || NotAfter(loc, x, y)
  {
    hide Stringify;
  }

  lemma RowOrderMeans(loc: Locale, o: OrderBy, a: (nat, Row), b: (nat, Row))
    requires TotalPreorder(loc.collate)
    ensures RowOrder(loc, o)(a, b) <= 0 <==> RowsInTurn(loc, o, a, b)
  {
    hide CompareOrder, NotAfter, TotalPreorder;
    var x, y := Field(a.1, o.column), Field(b.1, o.column);
    OrderMeans(loc, x, y);
    OrderMeans(loc, y, x);
    OrderFlip(loc, x, y);
    OrderFlip(loc, y, x);
  }

  // ---- SELECT ----

  /** all is the rows that make WHERE true, each once, in the order asked for, or by id. */
  ghost predicate Arranged(loc: Locale, rows: Rows, q: Statement, all: Rows)
    requires q.Select?
  {
    && (forall p :: p in all <==> p in rows && (q.where.Some? ==> IsTrue(loc, p.1, q.where.value)))
    && (forall i, j :: 0 <= i < j < |all| ==> all[i].0 != all[j].0)
    && forall i, j :: 0 <= i < j < |all| ==>
         if q.orderBy.Some? then RowsInTurn(loc, q.orderBy.value, all[i], all[j]) else all[i].0 < all[j].0
  }

  /** got is what is left of all after skipping, up to take rows. */
  predicate Sliced(all: Rows, skip: nat, take: nat, got: Rows) {
    && |got| == (if |all| <= skip then 0 else if |all| - skip < take then |all| - skip else take)
    && forall i :: 0 <= i < |got| ==> got[i] == all[skip + i]
  }

  function Skip(q: Statement): nat
    requires q.Select?
  {
    if q.offset.Some? then q.offset.value else 0
  }

  function Sorted(loc: Locale, rows: Rows, q: Statement): Rows
    requires q.Select?
  {
    var kept := Kept(loc, rows, q.where);
    if q.orderBy.Some? then Sort(RowOrder(loc, q.orderBy.value), kept) else kept
  }

  lemma SortedIs(loc: Locale, rows: Rows, q: Statement)
    requires q.Select? && IdsAscend(rows) && TotalPreorder(loc.collate)
    ensures Arranged(loc, rows, q, Sorted(loc, rows, q))
  {
    hide Keeps, Sort, RowOrder, Kept, RowsInTurn, TotalPreorder, IsTrue;
    var kept, all := Kept(loc, rows, q.where), Sorted(loc, rows, q);
    KeptAscends(loc, rows, q.where);
    if q.orderBy.Some? {
      var o := q.orderBy.value;
      RowOrderTotal(loc, o);
      SortSorts(RowOrder(loc, o), kept);
      forall i, j | 0 <= i < j < |all| ensures RowsInTurn(loc, o, all[i], all[j]) && all[i].0 != all[j].0 {
        RowOrderMeans(loc, o, all[i], all[j]);
        SortedIds(kept, all, i, j);
      }
    }
    forall p ensures p in all <==> p in rows && (q.where.Some? ==> IsTrue(loc, p.1, q.where.value)) {
      KeptHas(loc, rows, q.where, p);
      if p in all && q.orderBy.Some? { SameElements(all, kept, p); }
      if p in kept && q.orderBy.Some? { SameElements(kept, all, p); }
      KeepsMeans(loc, p.1, q.where);
    }
  }

  lemma KeepsMeans(loc: Locale, row: Row, w: Option<Where>)
    ensures Keeps(loc, row, w) <==> (w.Some? ==> IsTrue(loc, row, w.value))
  {
    hide Truth, IsTrue, IsFalse;
    if w.Some? { WhereMeans(loc, row, w.value); }
  }

  /** A rearrangement of rows with distinct ids has distinct ids. */
  lemma SortedIds(kept: Rows, all: Rows, i: nat, j: nat)
    requires IdsAscend(kept) && multiset(all) == multiset(kept) && i < j < |all|
    ensures all[i].0 != all[j].0
  {
    if all[i].0 == all[j].0 {
      SameElements(all, kept, all[i]);
      SameElements(all, kept, all[j]);
      assert all[i] == all[j];
      var rest := all[..i] + all[i + 1..];
      assert all == all[..i] + [all[i]] + all[i + 1..];
      assert multiset(all) == multiset(rest) + multiset{all[i]};
      assert rest[j - 1] == all[j];
      assert multiset(kept)[all[i]] >= 2;
      OnceOnly(kept, all[i]);
    }
  }

  lemma {:induction false} OnceOnly(kept: Rows, p: (nat, Row))
    requires IdsAscend(kept)
    ensures multiset(kept)[p] <= 1
  {
    if kept != [] {
      var n := |kept| - 1;
      OnceOnly(kept[..n], p);
      assert kept == kept[..n] + [kept[n]];
      if p == kept[n] { assert p !in kept[..n]; }
    }
  }

  /** What SELECT reads: the rows that make WHERE true, in the order asked for with ties by id, less
      OFFSET, up to LIMIT. */
  lemma QueryMeans(loc: Locale, rows: Rows, q: Statement, take: nat)
    requires q.Select? && IdsAscend(rows) && TotalPreorder(loc.collate)
    ensures exists all :: Arranged(loc, rows, q, all) && Sliced(all, Skip(q), take, Query(loc, rows, q, take))
  {
    hide Keeps, Sort, RowOrder, Kept, Arranged, TotalPreorder;
    SortedIs(loc, rows, q);
    var all := Sorted(loc, rows, q);
    assert Sliced(all, Skip(q), take, Query(loc, rows, q, take));
  }

  /** One row of an answer: the fields asked for and no other. */
  ghost predicate ShowsRow(row: Row, fields: seq<Str>, out: Row) {
    (forall c :: c in out <==> c in fields) && forall c :: c in fields ==> out[c] == Field(row, c)
  }

  /** The answer o of SELECT: an unknown column is refused, as is an answer of too many rows or bytes;
      otherwise the columns named, or all of the table, of the rows read. */
  ghost predicate SelectDoes(limits: Limits, loc: Locale, t: Table, q: Statement, o: Outcome)
    requires q.Select?
  {
    var fields := if q.fields.Some? then q.fields.value else Names(t.schema);
    var take := if q.limit.Some? then q.limit.value else limits.maxResultRows + 1;
    if !KnownQuery(t.schema, q) then o == Failed(ColumnNotFound)
    else exists all: Rows, got: Rows ::
      && Arranged(loc, t.rows, q, all) && Sliced(all, Skip(q), take, got)
      && if |got| > limits.maxResultRows || !ResultFits(limits, got, fields) then o == Failed(LimitExceeded)
         else o.Result? && o.fields == fields && |o.rows| == |got|
              && forall i :: 0 <= i < |got| ==> ShowsRow(got[i].1, fields, o.rows[i])
  }

  lemma SelectMeans(limits: Limits, loc: Locale, t: Table, q: Statement)
    requires q.Select? && IdsAscend(t.rows) && TotalPreorder(loc.collate)
    ensures SelectDoes(limits, loc, t, q, DoSelect(limits, loc, t, q))
  {
    hide Query, Arranged, Sliced, ResultFits, KnownQuery, TotalPreorder;
    if KnownQuery(t.schema, q) {
      QueryMeans(loc, t.rows, q, Take(limits, q));
      var got := Query(loc, t.rows, q, Take(limits, q));
      var all :| Arranged(loc, t.rows, q, all) && Sliced(all, Skip(q), Take(limits, q), got);
    }
  }
}
