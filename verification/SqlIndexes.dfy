/** Secondary indexes, lookup plans and the primary-key index: what they hold and why lookups
    through them miss nothing. */
module SqlIndexes {
  import opened ItemLists
  import opened Json
  import opened SqlModel

  /** Row ids by value, each bucket in insertion order. */
  type Index = map<Value, seq<nat>>
  type Indexes = map<Str, Index>

  predicate Indexable(v: Value) { !v.Arr? && !v.Obj? }

  function Bucket(index: Index, v: Value): seq<nat> { if v in index then index[v] else [] }

  function Position(s: seq<nat>, id: nat, i: nat): (r: nat)
    requires i <= |s|
    ensures i <= r <= |s| && (r < |s| ==> s[r] == id) && (r == |s| ==> forall j :: i <= j < |s| ==> s[j] != id)
    decreases |s| - i
  {
    if i == |s| || s[i] == id then i else Position(s, id, i + 1)
  }

  function Without(s: seq<nat>, id: nat): (r: seq<nat>)
    ensures id !in s ==> r == s
    ensures Distinct(s) ==> Distinct(r) && forall x :: x in r <==> x in s && x != id
  {
    var i := Position(s, id, 0);
    if i == |s| then s
    else
      assert s == s[..i] + [id] + s[i + 1..];
      assert Distinct(s) ==> id !in s[..i] && id !in s[i + 1..];
      RemoveAt(s, i)
  }

  function AddEntry(index: Index, v: Value, id: nat): Index {
    if !Indexable(v) then index
    else index[v := if id in Bucket(index, v) then Bucket(index, v) else Bucket(index, v) + [id]]
  }

  function RemoveEntry(index: Index, v: Value, id: nat): Index {
    if !Indexable(v) || v !in index then index
    else if Without(index[v], id) == [] then index - {v}
    else index[v := Without(index[v], id)]
  }

  /** Row id holds value v in column c. */
  predicate Holds(rows: Rows, c: Str, v: Value, id: nat) {
    Get(rows, id).Some? && Indexable(v) && Field(Get(rows, id).value, c) == v
  }

  /** The index is the inverse image of its column, with no empty bucket. */
  ghost predicate IndexExact(rows: Rows, c: Str, index: Index) {
    && Buckets(index)
    && (forall v, id :: id in Bucket(index, v) <==> Holds(rows, c, v, id))
  }

  ghost predicate Elsewhere(a: Rows, b: Rows, id: nat) { forall q :: q != id ==> Get(a, q) == Get(b, q) }

  ghost predicate Buckets(index: Index) {
    forall v :: v in index ==> Indexable(v) && index[v] != [] && Distinct(index[v])
  }

  lemma BucketAdd(index: Index, w: Value, id: nat)
    requires Buckets(index) && Indexable(w)
    ensures Buckets(AddEntry(index, w, id))
    ensures forall v, q :: q in Bucket(AddEntry(index, w, id), v) <==> q in Bucket(index, v) || (v == w && q == id)
  {
  }

  lemma BucketRemove(index: Index, w: Value, id: nat)
    requires Buckets(index) && Indexable(w)
    ensures Buckets(RemoveEntry(index, w, id))
    ensures forall v, q :: q in Bucket(RemoveEntry(index, w, id), v) <==> q in Bucket(index, v) && !(v == w && q == id)
  {
  }

  lemma ExactAdd(a: Rows, b: Rows, c: Str, index: Index, id: nat, row: Row)
    requires IndexExact(a, c, index) && Elsewhere(a, b, id) && Get(a, id).None? && Get(b, id) == Some(row)
    ensures IndexExact(b, c, AddEntry(index, Field(row, c), id))
  {
    hide Bucket, Get, Field;
    var w := Field(row, c);
    if Indexable(w) {
      hide AddEntry;
      BucketAdd(index, w, id);
    }
    forall v, q ensures q in Bucket(AddEntry(index, w, id), v) <==> Holds(b, c, v, q) {
      assert q in Bucket(index, v) <==> Holds(a, c, v, q);
    }
  }

  lemma ExactRemove(a: Rows, b: Rows, c: Str, index: Index, id: nat, row: Row)
    requires IndexExact(a, c, index) && Elsewhere(a, b, id) && Get(a, id) == Some(row) && Get(b, id).None?
    ensures IndexExact(b, c, RemoveEntry(index, Field(row, c), id))
  {
    hide Bucket, Get, Field;
    var w := Field(row, c);
    if Indexable(w) {
      hide RemoveEntry;
      BucketRemove(index, w, id);
    }
    forall v, q ensures q in Bucket(RemoveEntry(index, w, id), v) <==> Holds(b, c, v, q) {
      assert q in Bucket(index, v) <==> Holds(a, c, v, q);
    }
  }

  /** An entry that is already there, or one taken out that is not, changes nothing. */
  lemma ExactReplace(a: Rows, b: Rows, c: Str, index: Index, id: nat, row: Row, next: Row)
    requires IndexExact(a, c, index) && Elsewhere(a, b, id) && Get(a, id) == Some(row) && Get(b, id) == Some(next)
    requires DistinctKeys(a)
    ensures IndexExact(b, c, AddEntry(RemoveEntry(index, Field(row, c), id), Field(next, c), id))
    ensures Field(row, c) == Field(next, c) ==> IndexExact(b, c, index)
  {
    var mid := Remove(a, id);
    forall q ensures Get(mid, q) == if q == id then None else Get(a, q) { GetRemove(a, id, q); }
    ExactRemove(a, mid, c, index, id, row);
    ExactAdd(mid, b, c, RemoveEntry(index, Field(row, c), id), id, next);
    if Field(row, c) == Field(next, c) {
      forall v, q ensures q in Bucket(index, v) <==> Holds(b, c, v, q) {
        assert q in Bucket(index, v) <==> Holds(a, c, v, q);
      }
    }
  }

  // ---- lookup plans ----

  datatype Plan = Lookup(column: Str, values: seq<Value>) | Meet(left: Plan, right: Plan)

  predicate Constants(es: seq<Expr>) {
    forall i :: 0 <= i < |es| ==> es[i].Literal? && Indexable(es[i].v)
  }

  function Values(es: seq<Expr>): seq<Value>
    requires Constants(es)
  {
    seq(|es|, i requires 0 <= i < |es| => es[i].v)
  }

  /** The plan of one comparison on an indexed column. */
  function Probe(indexes: Indexes, lhs: Expr, op: Op, rhs: Operand): Option<Plan> {
    match rhs
    case One(e) =>
      if op != Eq then None
      else if lhs.ColumnRef? && e.Literal? && Indexable(e.v) then
        if lhs.name in indexes then Some(Lookup(lhs.name, [e.v])) else None
      else if e.ColumnRef? && lhs.Literal? && Indexable(lhs.v) then
        if e.name in indexes then Some(Lookup(e.name, [lhs.v])) else None
      else None
    case Many(es) =>
      if op == In && lhs.ColumnRef? && Constants(es) && lhs.name in indexes then Some(Lookup(lhs.name, Values(es)))
      else None
  }

  function PlanOf(indexes: Indexes, w: Where): Option<Plan> {
    match w
    case And(l, r) =>
      var a, b := PlanOf(indexes, l), PlanOf(indexes, r);
      if a.None? then b else if b.None? then a else Some(Meet(a.value, b.value))
    case Compare(lhs, op, rhs) => Probe(indexes, lhs, op, rhs)
    case _ => None
  }

  predicate Served(indexes: Indexes, p: Plan) {
    match p case Lookup(c, _) => c in indexes case Meet(a, b) => Served(indexes, a) && Served(indexes, b)
  }

  lemma PlanServed(indexes: Indexes, w: Where)
    ensures PlanOf(indexes, w).Some? ==> Served(indexes, PlanOf(indexes, w).value)
  {
  }

  function AddNew(acc: seq<nat>, ids: seq<nat>): (r: seq<nat>)
    ensures forall x :: x in r <==> x in acc || x in ids
    ensures Distinct(acc) ==> Distinct(r)
    decreases |ids|
  {
    if ids == [] then acc
    else
      assert ids == [ids[0]] + ids[1..];
      AddNew(if ids[0] in acc then acc else acc + [ids[0]], ids[1..])
  }

  function Gather(index: Index, values: seq<Value>, i: nat, acc: seq<nat>): (r: seq<nat>)
    requires i <= |values|
    ensures forall x :: x in r <==> x in acc || exists j :: i <= j < |values| && x in Bucket(index, values[j])
    ensures Distinct(acc) ==> Distinct(r)
    decreases |values| - i
  {
    if i == |values| then acc else Gather(index, values, i + 1, AddNew(acc, Bucket(index, values[i])))
  }

  function Common(a: seq<nat>, b: seq<nat>): (r: seq<nat>)
    ensures forall x :: x in r <==> x in a && x in b
    ensures Distinct(a) ==> Distinct(r)
  {
    if a == [] then []
    else
      var last := a[|a| - 1];
      assert a == a[..|a| - 1] + [last];
      Common(a[..|a| - 1], b) + (if last in b then [last] else [])
  }

  /** The candidate row ids of a plan, without repeats. */
  function Candidates(indexes: Indexes, p: Plan): (r: seq<nat>)
    requires Served(indexes, p)
    ensures Distinct(r)
  {
    match p
    case Lookup(c, values) => Gather(indexes[c], values, 0, [])
    case Meet(a, b) => Common(Candidates(indexes, a), Candidates(indexes, b))
  }

  ghost predicate AllExact(rows: Rows, indexes: Indexes) {
    forall c :: c in indexes ==> IndexExact(rows, c, indexes[c])
  }

  /** x IN a list is TRUE only through one of its members. */
  lemma OneOfConstants(row: Row, a: Value, es: seq<Expr>, i: nat)
    requires i <= |es| && Constants(es) && OneOf(a, EvalAll(row, es, i)) == Some(true)
    ensures exists j :: i <= j < |es| && Same(a, es[j].v) && !es[j].v.Null?
    decreases |es| - i
  {
    if i < |es| && !(!es[i].v.Null? && Same(a, es[i].v)) {
      OneOfConstants(row, a, es, i + 1);
    }
  }

  /** A comparison that is TRUE of a row holds through a value the plan looks up. */
  lemma ProbeHits(loc: Locale, indexes: Indexes, row: Row, lhs: Expr, op: Op, rhs: Operand) returns (j: nat)
    requires Probe(indexes, lhs, op, rhs).Some? && Truth(loc, row, Compare(lhs, op, rhs)) == Some(true)
    ensures var p := Probe(indexes, lhs, op, rhs).value;
      p.Lookup? && p.column in indexes && j < |p.values| && Indexable(p.values[j])
          && Field(row, p.column) == p.values[j]
  {
    j := 0;
    if rhs.Many? {
      OneOfConstants(row, Eval(row, lhs), rhs.es, 0);
      j :| 0 <= j < |rhs.es| && Same(Eval(row, lhs), rhs.es[j].v) && !rhs.es[j].v.Null?;
    }
  }

  lemma ProbeMissesNothing(loc: Locale, rows: Rows, indexes: Indexes, lhs: Expr, op: Op, rhs: Operand, id: nat)
    requires AllExact(rows, indexes) && Probe(indexes, lhs, op, rhs).Some?
    requires Get(rows, id).Some? && Truth(loc, Get(rows, id).value, Compare(lhs, op, rhs)) == Some(true)
    ensures var p := Probe(indexes, lhs, op, rhs).value; Served(indexes, p) && id in Candidates(indexes, p)
  {
    hide Truth;
    var p := Probe(indexes, lhs, op, rhs).value;
    var j := ProbeHits(loc, indexes, Get(rows, id).value, lhs, op, rhs);
    hide Probe;
    assert IndexExact(rows, p.column, indexes[p.column]);
    assert Holds(rows, p.column, p.values[j], id);
    assert id in Bucket(indexes[p.column], p.values[j]);
  }

  lemma TruthAnd(loc: Locale, row: Row, l: Where, r: Where)
    requires Truth(loc, row, And(l, r)) == Some(true)
    ensures Truth(loc, row, l) == Some(true) && Truth(loc, row, r) == Some(true)
  {
    var a, b := Truth(loc, row, l), Truth(loc, row, r);
    assert a.Some? && b.Some? && a.value && b.value;
  }

  /** Whatever row makes the WHERE clause TRUE is among the plan's candidates. */
  lemma {:induction false} PlanMissesNothing(loc: Locale, rows: Rows, indexes: Indexes, w: Where, id: nat)
    requires AllExact(rows, indexes) && PlanOf(indexes, w).Some?
    requires Get(rows, id).Some? && Truth(loc, Get(rows, id).value, w) == Some(true)
    ensures Served(indexes, PlanOf(indexes, w).value) && id in Candidates(indexes, PlanOf(indexes, w).value)
  {
    hide Truth, Probe, AllExact, Get;
    match w
    case And(l, r) =>
      TruthAnd(loc, Get(rows, id).value, l, r);
      if PlanOf(indexes, l).Some? { PlanMissesNothing(loc, rows, indexes, l, id); }
      if PlanOf(indexes, r).Some? { PlanMissesNothing(loc, rows, indexes, r, id); }
    case Compare(lhs, op, rhs) => ProbeMissesNothing(loc, rows, indexes, lhs, op, rhs, id);
    case _ =>
  }
}
