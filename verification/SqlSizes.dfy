/** The bytes a table and an answer are charged, against the JSON text they stand for. */
module SqlSizes {
  import opened ItemLists
  import opened Json
  import opened JsonBudget
  import opened StructuralEquality
  import opened SqlModel

  // ---- objects, whatever order their members are in ----

  predicate DistinctMembers(ms: Members) {
    match ms case NoMembers => true case Member(k, _, t) => k !in Keys(t) && DistinctMembers(t)
  }

  function Without(ms: Members, key: Str): Members {
    match ms
    case NoMembers => NoMembers
    case Member(k, v, t) => if k == key then t else Member(k, v, Without(t, key))
  }

  function MemberBytes(k: Str, v: Value): nat { Utf8Length(Quote(k)) + 1 + Utf8Length(Stringify(v)) }

  lemma {:induction false} WithoutOne(ms: Members, key: Str)
    requires DistinctMembers(ms) && key in Keys(ms)
    ensures DistinctMembers(Without(ms, key)) && Keys(Without(ms, key)) == Keys(ms) - {key}
    ensures forall k :: k in Keys(ms) && k != key ==> At(Without(ms, key), k) == At(ms, k)
    ensures MembersBytes(ms) == MemberBytes(key, At(ms, key)) + MembersBytes(Without(ms, key))
    ensures Count(ms) == 1 + Count(Without(ms, key))
  {
    hide Quote, Stringify, Utf8Length;
    if ms.key != key { WithoutOne(ms.tail, key); }
  }

  /** Two objects with the same members have texts of the same size. */
  lemma {:induction false} SameSize(ms: Members, ns: Members)
    requires DistinctMembers(ms) && DistinctMembers(ns) && Keys(ms) == Keys(ns)
    requires forall k :: k in Keys(ms) ==> At(ms, k) == At(ns, k)
    ensures MembersBytes(ms) == MembersBytes(ns) && Count(ms) == Count(ns)
  {
    hide Quote, Stringify, Utf8Length;
    match ms
    case NoMembers => NoKeysLeft(ns);
    case Member(k, v, t) =>
      WithoutOne(ns, k);
      assert Keys(t) == Keys(Without(ns, k));
      forall q | q in Keys(t) ensures At(t, q) == At(Without(ns, k), q) { assert At(ms, q) == At(ns, q); }
      SameSize(t, Without(ns, k));
  }

  lemma NoKeysLeft(ns: Members)
    ensures Keys(ns) == {} <==> ns == NoMembers
  {
    if ns.Member? { assert ns.key in Keys(ns); }
  }

  // ---- stored rows ----

  lemma {:induction false} RowMembersAre(s: Schema, row: Row, i: nat)
    requires i <= |s.columns| && Distinct(Names(s))
    ensures var ms := RowMembers(s, row, i);
      && DistinctMembers(ms) && (forall k :: k in Keys(ms) <==> k in Names(s)[i..])
      && forall k :: k in Keys(ms) ==> At(ms, k) == Field(row, k)
    decreases |s.columns| - i
  {
    if i < |s.columns| {
      RowMembersAre(s, row, i + 1);
      assert Names(s)[i..] == [Names(s)[i]] + Names(s)[i + 1..];
    }
  }

  /** The size charged for a stored row is that of its JSON text, in whatever order its columns were given. */
  lemma RowTextSize(s: Schema, row: Row, ms: Members)
    requires Distinct(Names(s)) && DistinctMembers(ms)
    requires forall k :: k in Keys(ms) <==> k in Names(s)
    requires forall k :: k in Keys(ms) ==> At(ms, k) == Field(row, k)
    ensures RowBytes(s, row) == Utf8Length(Stringify(Obj(ms)))
  {
    hide Stringify, Utf8Length, RowMembers;
    var ns := RowMembers(s, row, 0);
    RowMembersAre(s, row, 0);
    assert Names(s)[0..] == Names(s);
    assert Keys(ms) == Keys(ns);
    SameSize(ms, ns);
    ObjectText(ms);
    ObjectText(ns);
  }

  // ---- answers ----

  /** The object of one row of an answer. */
  function AnswerMembers(row: Row, fields: seq<Str>, i: nat): Members
    requires i <= |fields|
    decreases |fields| - i
  {
    if i == |fields| then NoMembers else Member(fields[i], Field(row, fields[i]), AnswerMembers(row, fields, i + 1))
  }

  function Answer(rows: Rows, fields: seq<Str>, i: nat): Elems
    requires i <= |rows|
    decreases |rows| - i
  {
    if i == |rows| then NoElems else Elem(Obj(AnswerMembers(rows[i].1, fields, 0)), Answer(rows, fields, i + 1))
  }

  lemma {:induction false} FieldCharge(row: Row, fields: seq<Str>, i: nat)
    requires i <= |fields|
    ensures var ms := AnswerMembers(row, fields, i);
      && FieldBytes(row, fields, i) == 3 + MembersBytes(ms) + Count(ms) && Count(ms) == |fields| - i
    decreases |fields| - i
  {
    hide Stringify, Quote, Utf8Length;
    if i < |fields| { FieldCharge(row, fields, i + 1); }
  }

  lemma {:induction false} AnswerCharge(rows: Rows, fields: seq<Str>, i: nat)
    requires i <= |rows|
    ensures var xs := Answer(rows, fields, i);
      && Length(xs) == |rows| - i
      && ResultBytes(rows, fields, i) == ElemsBytes(xs) + (if fields == [] then 1 else 2) * (|rows| - i)
    decreases |rows| - i
  {
    hide Stringify, Utf8Length, AnswerMembers, FieldBytes, MembersBytes;
    if i < |rows| {
      AnswerCharge(rows, fields, i + 1);
      FieldCharge(rows[i].1, fields, 0);
      ObjectText(AnswerMembers(rows[i].1, fields, 0));
    }
  }

  /** An answer's charge covers its JSON text, and exceeds it by at most two bytes a row and one more. */
  lemma AnswerCovers(rows: Rows, fields: seq<Str>)
    ensures var text := Utf8Length(Stringify(Arr(Answer(rows, fields, 0))));
      text <= 2 + ResultBytes(rows, fields, 0) <= text + |rows| + 1
  {
    hide Stringify, Utf8Length, ElemsBytes, ResultBytes, Answer;
    AnswerCharge(rows, fields, 0);
    ArrayText(Answer(rows, fields, 0));
  }
}
