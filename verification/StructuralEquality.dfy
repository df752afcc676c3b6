/** The worklist comparison decides structural equality. */
module StructuralEquality {
  import opened ItemLists
  import opened Json
  import Identity

  type Pair = (Value, Value)

  /** Work left in a pair: its left value bounds the walk. */
  function Size(p: Pair): nat { Nodes(p.0) }

  function TotalSize(ps: seq<Pair>): nat {
    if ps == [] then 0 else TotalSize(ps[..|ps| - 1]) + Size(ps[|ps| - 1])
  }

  predicate SamePair(p: Pair) { Same(p.0, p.1) }

  ghost predicate AllSame(ps: seq<Pair>) { forall p :: p in ps ==> SamePair(p) }

  ghost predicate AllProper(ps: seq<Pair>) { forall p :: p in ps ==> Proper(p.0) && Proper(p.1) }

  function Count(ms: Members): nat { match ms case NoMembers => 0 case Member(_, _, t) => 1 + Count(t) }

  function Length(xs: Elems): nat { match xs case NoElems => 0 case Elem(_, t) => 1 + Length(t) }

  function ElemPairs(xs: Elems, ys: Elems): seq<Pair>
    requires Length(xs) == Length(ys)
  {
    match xs case NoElems => [] case Elem(x, t) => [(x, ys.head)] + ElemPairs(t, ys.tail)
  }

  function MemberPairs(ms: Members, ns: Members): seq<Pair>
    requires Keys(ms) <= Keys(ns)
  {
    match ms case NoMembers => [] case Member(k, v, t) => [(v, At(ns, k))] + MemberPairs(t, ns)
  }

  /** Two containers that may be equal: same kind, same length or keys. */
  predicate Comparable(p: Pair) {
    match p
    case (Arr(xs), Arr(ys)) => Length(xs) == Length(ys)
    case (Obj(ms), Obj(ns)) => Count(ms) == Count(ns) && Keys(ms) <= Keys(ns)
    case _ => false
  }

  function Children(p: Pair): seq<Pair>
    requires Comparable(p)
  {
    match p case (Arr(xs), Arr(ys)) => ElemPairs(xs, ys) case (Obj(ms), Obj(ns)) => MemberPairs(ms, ns)
  }

  // ---- one pair ----

  lemma MemberKeysCount(ms: Members)
    requires ProperMembers(ms)
    ensures |Keys(ms)| == Count(ms)
  {
    if ms.Member? {
      MemberKeysCount(ms.tail);
    }
  }

  lemma {:induction false} ElemsSame(xs: Elems, ys: Elems)
    requires Length(xs) == Length(ys)
    ensures SameElems(xs, ys) <==> AllSame(ElemPairs(xs, ys))
  {
    if xs.Elem? {
      ElemsSame(xs.tail, ys.tail);
      AllSameCons((xs.head, ys.head), ElemPairs(xs.tail, ys.tail));
    }
  }

  lemma {:induction false} MembersSame(ms: Members, ns: Members)
    requires Keys(ms) <= Keys(ns)
    ensures SameMembers(ms, ns) <==> AllSame(MemberPairs(ms, ns))
  {
    if ms.Member? {
      MembersSame(ms.tail, ns);
      AllSameCons((ms.value, At(ns, ms.key)), MemberPairs(ms.tail, ns));
    }
  }

  lemma AllSameCons(p: Pair, ps: seq<Pair>)
    ensures AllSame([p] + ps) <==> SamePair(p) && AllSame(ps)
  {
    assert p in [p] + ps;
    assert forall q :: q in ps ==> q in [p] + ps;
  }

  lemma SameLength(xs: Elems, ys: Elems)
    ensures SameElems(xs, ys) ==> Length(xs) == Length(ys)
  {
  }

  /** A comparable pair is equal exactly when its children are; a pair of containers that is not
      comparable is not equal. */
  lemma OnePair(p: Pair)
    requires Proper(p.0) && Proper(p.1)
    ensures Comparable(p) ==> (SamePair(p) <==> AllSame(Children(p)))
    ensures !Comparable(p) && p.0 != p.1 ==> !SamePair(p)
  {
    match p
    case (Arr(xs), Arr(ys)) =>
      SameLength(xs, ys);
      if Length(xs) == Length(ys) { ElemsSame(xs, ys); }
    case (Obj(ms), Obj(ns)) =>
      MemberKeysCount(ms);
      MemberKeysCount(ns);
      if Comparable(p) {
        MembersSame(ms, ns);
        SubsetOfSameSize(Keys(ms), Keys(ns));
      }
    case _ =>
  }

  lemma SubsetOfSameSize<T>(a: set<T>, b: set<T>)
    requires a <= b && |a| == |b|
    ensures a == b
  {
    assert |b| == |a| + |b - a| by { assert b == a + (b - a); }
    assert b - a == {};
  }

  lemma TotalJoin(a: seq<Pair>, b: seq<Pair>)
    ensures TotalSize(a + b) == TotalSize(a) + TotalSize(b)
  {
    if b == [] {
      assert a + b == a;
    } else {
      TotalJoin(a, b[..|b| - 1]);
      assert (a + b)[..|a + b| - 1] == a + b[..|b| - 1];
    }
  }

  lemma TotalOne(p: Pair)
    ensures TotalSize([p]) == Size(p)
  {
    assert [p][..0] == [];
  }

  lemma {:induction false} ElemPairsFit(xs: Elems, ys: Elems)
    requires Length(xs) == Length(ys) && ProperElems(xs) && ProperElems(ys)
    ensures AllProper(ElemPairs(xs, ys)) && TotalSize(ElemPairs(xs, ys)) <= ElemsNodes(xs)
    ensures forall p :: p in ElemPairs(xs, ys) ==> Size(p) <= ElemsNodes(xs)
  {
    if xs.Elem? {
      ElemPairsFit(xs.tail, ys.tail);
      TotalJoin([(xs.head, ys.head)], ElemPairs(xs.tail, ys.tail));
      TotalOne((xs.head, ys.head));
    }
  }

  lemma {:induction false} MemberPairsFit(ms: Members, ns: Members)
    requires Keys(ms) <= Keys(ns) && ProperMembers(ms) && ProperMembers(ns)
    ensures AllProper(MemberPairs(ms, ns)) && TotalSize(MemberPairs(ms, ns)) <= MembersNodes(ms)
    ensures forall p :: p in MemberPairs(ms, ns) ==> Size(p) <= MembersNodes(ms)
  {
    if ms.Member? {
      var p := (ms.value, At(ns, ms.key));
      MemberPairsFit(ms.tail, ns);
      Identity.ProperAt(ns, ms.key);
      TotalJoin([p], MemberPairs(ms.tail, ns));
      TotalOne(p);
    }
  }

  lemma ChildrenFit(p: Pair)
    requires Comparable(p) && Proper(p.0) && Proper(p.1)
    ensures AllProper(Children(p)) && TotalSize(Children(p)) < Size(p)
    ensures forall q :: q in Children(p) ==> Size(q) < Size(p)
  {
    match p
    case (Arr(xs), Arr(ys)) => ElemPairsFit(xs, ys);
    case (Obj(ms), Obj(ns)) => MemberPairsFit(ms, ns);
  }

  // ---- the worklist ----

  /** Each pair already expanded has its children pending, expanded, or known to be equal. */
  ghost predicate Closed(done: set<Pair>, pending: seq<Pair>) {
    forall c :: c in done ==> Expanded(c, done, pending)
  }

  ghost predicate Expanded(c: Pair, done: set<Pair>, pending: seq<Pair>) {
    && Proper(c.0) && Proper(c.1) && Comparable(c)
    && forall p :: p in Children(c) ==> p in pending || p in done || SamePair(p)
  }

  /** With nothing pending every expanded pair is equal: a smallest unequal one would have a
      smaller unequal child. */
  lemma {:induction false} NothingPending(done: set<Pair>, c: Pair)
    requires Closed(done, []) && c in done
    ensures SamePair(c)
    decreases Size(c)
  {
    hide SamePair, Comparable, Children;
    assert Expanded(c, done, []);
    ChildrenFit(c);
    OnePair(c);
    forall p | p in Children(c) ensures SamePair(p) {
      if p in done {
        NothingPending(done, p);
      }
    }
  }

  lemma Reflexive(v: Value)
    requires Proper(v)
    ensures Same(v, v)
  {
    Identity.SameIffCanon(v, v);
  }

  /** What the loop keeps about the pairs it has left. */
  ghost predicate Going(a: Value, b: Value, done: set<Pair>, pending: seq<Pair>) {
    && Closed(done, pending) && AllProper(pending)
    && ((a, b) in pending || (a, b) in done || Same(a, b))
    && (Same(a, b) ==> AllSame(pending))
  }

  lemma Begin(a: Value, b: Value)
    requires Proper(a) && Proper(b)
    ensures Going(a, b, {}, [(a, b)])
  {
  }

  lemma Pop(a: Value, b: Value, done: set<Pair>, rest: seq<Pair>, p: Pair)
    requires Going(a, b, done, rest + [p]) && (SamePair(p) || p in done)
    ensures Going(a, b, done, rest)
  {
    hide SamePair, Comparable, Children;
    forall c | c in done ensures Expanded(c, done, rest) {
      assert Expanded(c, done, rest + [p]);
    }
    assert (a, b) == p ==> SamePair(p) == Same(a, b) by {
      assert SamePair((a, b)) == Same(a, b) by { SamePairIs(a, b); }
    }
    assert forall q :: q in rest ==> q in rest + [p];
  }

  lemma SamePairIs(a: Value, b: Value)
    ensures SamePair((a, b)) == Same(a, b)
  {
  }

  lemma Expand(a: Value, b: Value, done: set<Pair>, rest: seq<Pair>, p: Pair)
    requires Going(a, b, done, rest + [p]) && Comparable(p)
    ensures Going(a, b, done + {p}, rest + Children(p))
    ensures TotalSize(rest + Children(p)) < TotalSize(rest + [p])
  {
    hide SamePair, Comparable, Children;
    assert p in rest + [p];
    ChildrenFit(p);
    OnePair(p);
    TotalJoin(rest, Children(p));
    TotalJoin(rest, [p]);
    TotalOne(p);
    var next := rest + Children(p);
    forall c | c in done + {p} ensures Expanded(c, done + {p}, next) {
      if c in done {
        assert Expanded(c, done, rest + [p]);
      }
    }
    assert forall q :: q in rest ==> q in rest + [p];
  }

  lemma Unequal(a: Value, b: Value, done: set<Pair>, rest: seq<Pair>, p: Pair)
    requires Going(a, b, done, rest + [p]) && !Comparable(p) && p.0 != p.1
    ensures !Same(a, b)
  {
    hide Comparable;
    assert p in rest + [p];
    OnePair(p);
  }

  lemma Finish(a: Value, b: Value, done: set<Pair>)
    requires Going(a, b, done, [])
    ensures Same(a, b)
  {
    hide SamePair, Comparable, Children;
    if (a, b) in done {
      NothingPending(done, (a, b));
      SamePairIs(a, b);
    }
  }

  /** The pairs to push for two objects of equally many keys, unless a key is missing. */
  method MatchKeys(ms: Members, ns: Members) returns (r: Option<seq<Pair>>)
    ensures r == if Keys(ms) <= Keys(ns) then Some(MemberPairs(ms, ns)) else None
  {
    var cursor, pairs := ms, [];
    while cursor.Member?
      invariant Keys(ms) <= Keys(ns) <==> Keys(cursor) <= Keys(ns)
      invariant Keys(ms) <= Keys(ns) ==> MemberPairs(ms, ns) == pairs + MemberPairs(cursor, ns)
      decreases cursor
    {
      if cursor.key !in Keys(ns) { return None; }
      pairs := pairs + [(cursor.value, At(ns, cursor.key))];
      cursor := cursor.tail;
    }
    assert pairs + [] == pairs;
    return Some(pairs);
  }

  method MatchItems(xs: Elems, ys: Elems) returns (pairs: seq<Pair>)
    requires Length(xs) == Length(ys)
    ensures pairs == ElemPairs(xs, ys)
  {
    var l, r := xs, ys;
    pairs := [];
    while l.Elem?
      invariant Length(l) == Length(r) && ElemPairs(xs, ys) == pairs + ElemPairs(l, r)
      decreases l
    {
      pairs := pairs + [(l.head, r.head)];
      l, r := l.tail, r.tail;
    }
  }

  /** The worklist with its memo of expanded pairs answers structural equality, both ways. */
  method StructuralEqual(a: Value, b: Value) returns (r: bool)
    requires Proper(a) && Proper(b)
    ensures r <==> Same(a, b)
  {
    hide Going, Same, SamePair, Proper, TotalSize, Children;
    var pending, compared := [(a, b)], {};
    Begin(a, b);
    while pending != []
      invariant Going(a, b, compared, pending)
      decreases TotalSize(pending)
    {
      var n := |pending| - 1;
      ghost var before := pending;
      var pair := pending[n];
      var (left, right) := pair;
      pending := pending[..n];
      assert before == pending + [pair];
      Shrinks(pending, pair);
      if left == right || pair in compared {
        PopEqual(a, b, compared, pending, pair);
        continue;
      }
      if left.Arr? && right.Arr? {
        if Length(left.elems) != Length(right.elems) {
          Unequal(a, b, compared, pending, pair);
          return false;
        }
        var pairs := MatchItems(left.elems, right.elems);
        Expand(a, b, compared, pending, pair);
        ChildrenAre(pair);
        compared, pending := compared + {pair}, pending + pairs;
      } else if left.Obj? && right.Obj? {
        var pairs := None;
        if Count(left.members) == Count(right.members) { pairs := MatchKeys(left.members, right.members); }
        if pairs.None? {
          Unequal(a, b, compared, pending, pair);
          return false;
        }
        Expand(a, b, compared, pending, pair);
        ChildrenAre(pair);
        compared, pending := compared + {pair}, pending + pairs.value;
      } else {
        Unequal(a, b, compared, pending, pair);
        return false;
      }
    }
    Finish(a, b, compared);
    return true;
  }

  lemma ChildrenAre(p: Pair)
    requires Comparable(p)
    ensures p.0.Arr? ==> Children(p) == ElemPairs(p.0.elems, p.1.elems)
    ensures p.0.Obj? ==> Children(p) == MemberPairs(p.0.members, p.1.members)
  {
  }

  lemma Shrinks(rest: seq<Pair>, p: Pair)
    ensures TotalSize(rest) < TotalSize(rest + [p])
  {
    TotalJoin(rest, [p]);
    TotalOne(p);
  }

  lemma PopEqual(a: Value, b: Value, done: set<Pair>, rest: seq<Pair>, p: Pair)
    requires Going(a, b, done, rest + [p]) && (p.0 == p.1 || p in done)
    ensures Going(a, b, done, rest)
  {
    assert p in rest + [p];
    if p.0 == p.1 {
      Reflexive(p.0);
    }
    Pop(a, b, done, rest, p);
  }
}
