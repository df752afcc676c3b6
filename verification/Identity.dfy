/** The canonical text of a value and structural equality of values coincide. */
module Identity {
  import opened Decimals
  import opened Json

  // ---- key order: by UTF-16 code units ----

  predicate Before(a: Str, b: Str) {
    b != [] && (a == [] || a[0] < b[0] || (a[0] == b[0] && Before(a[1..], b[1..])))
  }

  lemma BeforeTotal(a: Str, b: Str)
    ensures (a == b) || Before(a, b) || Before(b, a)
    ensures !(Before(a, b) && Before(b, a)) && !Before(a, a)
  {
    if a != [] && b != [] && a[0] == b[0] {
      BeforeTotal(a[1..], b[1..]);
      assert a == [a[0]] + a[1..] && b == [b[0]] + b[1..];
    }
    if a != [] {
      BeforeTotal(a[1..], a[1..]);
    }
  }

  lemma BeforeTrans(a: Str, b: Str, c: Str)
    requires Before(a, b) && Before(b, c)
    ensures Before(a, c)
  {
    if a != [] && a[0] == b[0] == c[0] {
      BeforeTrans(a[1..], b[1..], c[1..]);
    }
  }

  // ---- valueIdentity ----

  /** Scalars as JSON, arrays in order, objects by sorted key. */
  function Identity(v: Value): Str
    decreases v, 1
  {
    match v
    case Arr(xs) => [91] + IdentityElems(xs) + [93]
    case Obj(ms) => [123] + Join(SortedPairs(ms)) + [125]
    case _ => Stringify(v)
  }

  function IdentityElems(xs: Elems): Str
    decreases xs, 0
  {
    match xs
    case NoElems => []
    case Elem(h, t) => Identity(h) + (if t.NoElems? then [] else [44] + IdentityElems(t))
  }

  /** Each key with its text, by key. */
  function SortedPairs(ms: Members): seq<(Str, Str)>
    decreases ms, 0
  {
    match ms
    case NoMembers => []
    case Member(k, v, t) => InsertPair((k, Quote(k) + [58] + Identity(v)), SortedPairs(t))
  }

  function InsertPair(p: (Str, Str), ps: seq<(Str, Str)>): seq<(Str, Str)> {
    if ps == [] || Before(p.0, ps[0].0) then [p] + ps else [ps[0]] + InsertPair(p, ps[1..])
  }

  function Join(ps: seq<(Str, Str)>): Str {
    if ps == [] then [] else ps[0].1 + if |ps| == 1 then [] else [44] + Join(ps[1..])
  }

  // ---- the same text through a canonical value ----

  function Canon(v: Value): Value
    decreases v, 1
  {
    match v case Arr(xs) => Arr(CanonElems(xs)) case Obj(ms) => Obj(CanonMembers(ms)) case _ => v
  }

  function CanonElems(xs: Elems): Elems
    decreases xs, 0
  {
    match xs case NoElems => NoElems case Elem(h, t) => Elem(Canon(h), CanonElems(t))
  }

  function CanonMembers(ms: Members): Members
    decreases ms, 0
  {
    match ms case NoMembers => NoMembers case Member(k, v, t) => InsertMember(k, Canon(v), CanonMembers(t))
  }

  function InsertMember(k: Str, v: Value, ms: Members): Members {
    match ms
    case NoMembers => Member(k, v, NoMembers)
    case Member(q, w, t) => if Before(k, q) then Member(k, v, ms) else Member(q, w, InsertMember(k, v, t))
  }

  function Pairs(ms: Members): seq<(Str, Str)> {
    match ms case NoMembers => [] case Member(k, v, t) => [(k, Quote(k) + [58] + Stringify(v))] + Pairs(t)
  }

  lemma PairsInsert(k: Str, v: Value, ms: Members)
    ensures Pairs(InsertMember(k, v, ms)) == InsertPair((k, Quote(k) + [58] + Stringify(v)), Pairs(ms))
  {
  }

  lemma JoinPairs(ms: Members)
    ensures Join(Pairs(ms)) == StringifyMembers(ms)
  {
    if ms.Member? {
      JoinPairs(ms.tail);
      assert Pairs(ms)[1..] == Pairs(ms.tail);
    }
  }

  lemma {:induction false} IdentityIsCanonText(v: Value)
    ensures Identity(v) == Stringify(Canon(v))
    decreases v, 1
  {
    match v
    case Arr(xs) => ElemsCanonText(xs);
    case Obj(ms) => PairsCanonText(ms); JoinPairs(CanonMembers(ms));
    case _ =>
  }

  lemma {:induction false} ElemsCanonText(xs: Elems)
    ensures IdentityElems(xs) == StringifyElems(CanonElems(xs))
    decreases xs, 0
  {
    if xs.Elem? {
      IdentityIsCanonText(xs.head);
      ElemsCanonText(xs.tail);
    }
  }

  lemma {:induction false} PairsCanonText(ms: Members)
    ensures SortedPairs(ms) == Pairs(CanonMembers(ms))
    decreases ms, 0
  {
    if ms.Member? {
      IdentityIsCanonText(ms.value);
      PairsCanonText(ms.tail);
      PairsInsert(ms.key, Canon(ms.value), CanonMembers(ms.tail));
    }
  }

  // ---- canonical values are equal exactly when the values are structurally equal ----

  predicate Sorted(ms: Members) {
    match ms
    case NoMembers => true
    case Member(k, _, t) => (t.Member? ==> Before(k, t.key)) && Sorted(t)
  }

  lemma SortedFirst(ms: Members, k: Str)
    requires ms.Member? && Sorted(ms) && k in Keys(ms.tail)
    ensures Before(ms.key, k)
  {
    if k != ms.tail.key {
      SortedFirst(ms.tail, k);
      BeforeTrans(ms.key, ms.tail.key, k);
    }
  }

  lemma Inserted(k: Str, v: Value, ms: Members)
    requires k !in Keys(ms) && Sorted(ms)
    ensures Sorted(InsertMember(k, v, ms)) && Keys(InsertMember(k, v, ms)) == Keys(ms) + {k}
    ensures forall q :: q in Keys(ms) ==> At(InsertMember(k, v, ms), q) == At(ms, q)
    ensures At(InsertMember(k, v, ms), k) == v
  {
    if ms.Member? {
      BeforeTotal(k, ms.key);
      if !Before(k, ms.key) {
        Inserted(k, v, ms.tail);
      }
    }
  }

  lemma {:induction false} CanonSorted(ms: Members)
    requires ProperMembers(ms)
    ensures Sorted(CanonMembers(ms)) && Keys(CanonMembers(ms)) == Keys(ms)
    ensures forall k :: k in Keys(ms) ==> At(CanonMembers(ms), k) == Canon(At(ms, k))
  {
    if ms.Member? {
      CanonSorted(ms.tail);
      Inserted(ms.key, Canon(ms.value), CanonMembers(ms.tail));
    }
  }

  /** Sorted members are determined by their keys and values. */
  lemma {:induction false} SortedDetermined(ms: Members, ns: Members)
    requires Sorted(ms) && Sorted(ns) && Keys(ms) == Keys(ns)
    requires forall k :: k in Keys(ms) ==> At(ms, k) == At(ns, k)
    ensures ms == ns
  {
    if ms.Member? {
      assert ms.key in Keys(ns);
      assert ns.Member? && ns.key in Keys(ms);
      SameHead(ms, ns);
      SortedHeadFresh(ms);
      SortedHeadFresh(ns);
      assert Keys(ms.tail) == Keys(ms) - {ms.key} == Keys(ns.tail);
      forall k | k in Keys(ms.tail) ensures At(ms.tail, k) == At(ns.tail, k) {
        assert At(ms, k) == At(ns, k);
      }
      SortedDetermined(ms.tail, ns.tail);
      assert At(ms, ms.key) == At(ns, ns.key);
    } else {
      NoKeys(ns);
    }
  }

  lemma NoKeys(ms: Members)
    ensures Keys(ms) == {} <==> ms.NoMembers?
  {
    assert ms.Member? ==> ms.key in Keys(ms);
  }

  lemma SameHead(ms: Members, ns: Members)
    requires ms.Member? && ns.Member? && Sorted(ms) && Sorted(ns) && Keys(ms) == Keys(ns)
    ensures ms.key == ns.key
  {
    if ms.key != ns.key {
      assert ms.key in Keys(ns) && ns.key in Keys(ms);
      SortedFirst(ms, ns.key);
      SortedFirst(ns, ms.key);
      BeforeTotal(ms.key, ns.key);
    }
  }

  lemma SortedHeadFresh(ms: Members)
    requires ms.Member? && Sorted(ms)
    ensures ms.key !in Keys(ms.tail)
  {
    if ms.key in Keys(ms.tail) {
      SortedFirst(ms, ms.key);
      BeforeTotal(ms.key, ms.key);
    }
  }

  lemma {:induction false} SameIffCanon(a: Value, b: Value)
    requires Proper(a) && Proper(b)
    ensures Same(a, b) <==> Canon(a) == Canon(b)
    decreases a, 1
  {
    match (a, b)
    case (Arr(xs), Arr(ys)) => SameIffCanonElems(xs, ys);
    case (Obj(ms), Obj(ns)) =>
      CanonSorted(ms);
      CanonSorted(ns);
      if Keys(ms) == Keys(ns) {
        SameIffCanonMembers(ms, ns);
        if forall k :: k in Keys(ms) ==> Canon(At(ms, k)) == Canon(At(ns, k)) {
          SortedDetermined(CanonMembers(ms), CanonMembers(ns));
        }
      }
    case _ =>
  }

  lemma {:induction false} SameIffCanonElems(xs: Elems, ys: Elems)
    requires ProperElems(xs) && ProperElems(ys)
    ensures SameElems(xs, ys) <==> CanonElems(xs) == CanonElems(ys)
    decreases xs, 0
  {
    if xs.Elem? && ys.Elem? {
      SameIffCanon(xs.head, ys.head);
      SameIffCanonElems(xs.tail, ys.tail);
    }
  }

  lemma {:induction false} SameIffCanonMembers(ms: Members, ns: Members)
    requires ProperMembers(ms) && ProperMembers(ns) && Keys(ms) <= Keys(ns)
    ensures SameMembers(ms, ns) <==> forall k :: k in Keys(ms) ==> Canon(At(ms, k)) == Canon(At(ns, k))
    decreases ms, 0
  {
    if ms.Member? {
      ProperAt(ns, ms.key);
      SameIffCanon(ms.value, At(ns, ms.key));
      SameIffCanonMembers(ms.tail, ns);
      assert At(ms, ms.key) == ms.value;
      assert forall k :: k in Keys(ms.tail) ==> At(ms, k) == At(ms.tail, k);
    }
  }

  lemma ProperAt(ms: Members, k: Str)
    requires ProperMembers(ms) && k in Keys(ms)
    ensures Proper(At(ms, k))
  {
  }

  // ---- JSON text determines the value ----

  /** Nothing, or a character that ends a JSON value. */
  predicate Ends(x: Str) { x == [] || x[0] in {44, 93, 125} }

  lemma {:induction false} TextUnique(a: Value, x: Str, b: Value, y: Str)
    requires Stringify(a) + x == Stringify(b) + y && Ends(x) && Ends(y)
    ensures a == b && x == y
    decreases a, 1
  {
    assert (Stringify(a) + x)[0] == Stringify(a)[0] by { Opens(a); }
    assert (Stringify(b) + y)[0] == Stringify(b)[0] by { Opens(b); }
    Opens(a);
    Opens(b);
    match a
    case Num(n) => NumUnique(n, x, b.n, y);
    case Text(s) => QuoteUnique(s, x, b.s, y);
    case Arr(xs) =>
      Shift([91], StringifyElems(xs), [93], x);
      Shift([91], StringifyElems(b.elems), [93], y);
      ElemsUnique(xs, [93] + x, b.elems, [93] + y);
      SameFront([93], x, [93], y);
    case Obj(ms) =>
      Shift([123], StringifyMembers(ms), [125], x);
      Shift([123], StringifyMembers(b.members), [125], y);
      MembersUnique(ms, [125] + x, b.members, [125] + y);
      SameFront([125], x, [125], y);
    case _ =>
      var n := |Stringify(a)|;
      assert (Stringify(a) + x)[n..] == x && (Stringify(b) + y)[n..] == y;
  }

  lemma Shift(open: Str, body: Str, close: Str, x: Str)
    ensures |open| <= |(open + body + close) + x|
    ensures ((open + body + close) + x)[|open|..] == body + (close + x)
  {
  }

  /** The first character of a text tells the kind of value. */
  lemma Opens(v: Value)
    ensures Stringify(v) != [] && Stringify(v)[0] == (match v
      case Null => 110 case Bool(b) => if b then 116 else 102
      case Num(n) => Decimal(n)[0] case Text(_) => 34 case Arr(_) => 91 case Obj(_) => 123)
    ensures v.Num? ==> Stringify(v)[0] == 45 || 48 <= Stringify(v)[0] <= 57
  {
    if v.Num? {
      DigitsParse(if v.n < 0 then -v.n else v.n);
    }
  }

  lemma RunHead(d: Str, x: Str)
    requires AllDigits(d) && Ends(x)
    ensures d != [] <==> d + x != [] && 48 <= (d + x)[0] <= 57
    ensures d != [] ==> (d + x)[1..] == d[1..] + x && (d + x)[0] == d[0]
  {
    if d == [] {
      assert d + x == x;
    }
  }

  /** A run of digits ends where the digits do. */
  lemma {:induction false} DigitRun(d: Str, x: Str, e: Str, y: Str)
    requires d + x == e + y && Ends(x) && Ends(y) && AllDigits(d) && AllDigits(e)
    ensures d == e && x == y
    decreases |d|
  {
    RunHead(d, x);
    RunHead(e, y);
    if d == [] {
      assert d + x == x && e + y == y;
    } else {
      DigitRun(d[1..], x, e[1..], y);
      assert d == [d[0]] + d[1..] && e == [e[0]] + e[1..];
    }
  }

  lemma DigitsUnique(p: nat, x: Str, q: nat, y: Str)
    requires Digits(p) + x == Digits(q) + y && Ends(x) && Ends(y)
    ensures p == q && x == y
  {
    hide Digits, DigitsValue;
    DigitsParse(p);
    DigitsParse(q);
    DigitRun(Digits(p), x, Digits(q), y);
  }

  lemma DecimalFront(n: int, x: Str)
    ensures (Decimal(n) + x)[0] == 45 <==> n < 0
    ensures n < 0 ==> (Decimal(n) + x)[1..] == Digits(-n) + x
  {
    hide Digits;
    DigitsParse(if n < 0 then -n else n);
    assert (Decimal(n) + x)[0] == Decimal(n)[0];
    if n < 0 {
      assert [45] + Digits(-n) + x == [45] + (Digits(-n) + x);
    }
  }

  lemma NumUnique(n: int, x: Str, m: int, y: Str)
    requires Decimal(n) + x == Decimal(m) + y && Ends(x) && Ends(y)
    ensures n == m && x == y
  {
    hide Digits, Ends;
    DecimalFront(n, x);
    DecimalFront(m, y);
    DigitsUnique(if n < 0 then -n else n, x, if m < 0 then -m else m, y);
  }

  // ---- strings ----

  function Quoted(s: Str, i: nat, x: Str): Str
    requires i <= |s|
  {
    EscapeFrom(s, i) + [34] + x
  }

  lemma {:induction false} QuotedUnique(s: Str, i: nat, x: Str, t: Str, j: nat, y: Str)
    requires i <= |s| && j <= |t| && Quoted(s, i, x) == Quoted(t, j, y)
    ensures s[i..] == t[j..] && x == y
    decreases |s| - i
  {
    hide EscapeUnit, Quoted, EscapeFrom;
    FirstUnit(s, i, x);
    FirstUnit(t, j, y);
    if i < |s| && j < |t| {
      UnitUnique(s, i, t, j, Quoted(s, i + Step(s, i), x), Quoted(t, j + Step(t, j), y));
      QuotedUnique(s, i + Step(s, i), x, t, j + Step(t, j), y);
      assert s[i..] == s[i..i + Step(s, i)] + s[i + Step(s, i)..];
      assert t[j..] == t[j..j + Step(t, j)] + t[j + Step(t, j)..];
    }
  }

  function Step(s: Str, i: nat): (n: nat)
    requires i < |s|
    ensures i + n <= |s| && n > 0
  {
    if PairAt(s, i) then 2 else 1
  }

  /** The text of the unit or pair at i. */
  function Unit(s: Str, i: nat): Str
    requires i < |s|
  {
    if PairAt(s, i) then [s[i], s[i + 1]] else EscapeUnit(s[i])
  }

  lemma EscapeSteps(s: Str, i: nat)
    requires i < |s|
    ensures EscapeFrom(s, i) == Unit(s, i) + EscapeFrom(s, i + Step(s, i))
  {
    hide EscapeUnit, High, Low;
  }

  lemma EscapeEnds(s: Str)
    ensures EscapeFrom(s, |s|) == []
  {
  }

  /** A unit's text never begins with a quote. */
  lemma UnitFront(s: Str, i: nat)
    requires i < |s|
    ensures Unit(s, i) != [] && Unit(s, i)[0] != 34
  {
    hide EscapeUnit;
    UnitShape(s[i]);
  }

  lemma FirstUnit(s: Str, i: nat, x: Str)
    requires i <= |s|
    ensures Quoted(s, i, x) != []
    ensures i == |s| ==> Quoted(s, i, x)[0] == 34 && Quoted(s, i, x)[1..] == x
    ensures i < |s| ==> Quoted(s, i, x)[0] != 34 && Quoted(s, i, x) == Unit(s, i) + Quoted(s, i + Step(s, i), x)
  {
    hide EscapeUnit, EscapeFrom, Unit, Step;
    if i < |s| {
      EscapeSteps(s, i);
      UnitFront(s, i);
      QuotedParts(Unit(s, i), EscapeFrom(s, i + Step(s, i)), x);
    } else {
      EscapeEnds(s);
      assert Quoted(s, i, x) == [34] + x;
    }
  }

  lemma QuotedParts(u: Str, rest: Str, x: Str)
    ensures u + rest + [34] + x == u + (rest + [34] + x)
  {
  }

  /** The first unit of an escaped text is determined, and so is what follows it. */
  lemma UnitUnique(s: Str, i: nat, t: Str, j: nat, x: Str, y: Str)
    requires i < |s| && j < |t| && Unit(s, i) + x == Unit(t, j) + y
    ensures s[i..i + Step(s, i)] == t[j..j + Step(t, j)] && x == y
  {
    hide EscapeUnit;
    UnitShape(s[i]);
    UnitShape(t[j]);
    var u, v := Unit(s, i), Unit(t, j);
    SameFront(u, x, v, y);
    if !PairAt(s, i) && !PairAt(t, j) {
      EscapeUnique(s[i], x, t[j], y);
    }
  }

  lemma SameFront(u: Str, x: Str, v: Str, y: Str)
    requires u + x == v + y
    ensures u != [] && v != [] ==> u[0] == v[0]
    ensures |u| == |v| ==> u == v && x == y
  {
    assert u == (u + x)[..|u|] && x == (u + x)[|u|..];
    if |u| == |v| {
      assert v == (v + y)[..|v|] && y == (v + y)[|v|..];
    }
    if u != [] && v != [] {
      assert (u + x)[0] == u[0] && (v + y)[0] == v[0];
    }
  }

  lemma UnitShape(c: CodeUnit)
    ensures EscapeUnit(c) != [] && (EscapeUnit(c)[0] == 92 || EscapeUnit(c) == [c])
    ensures EscapeUnit(c)[0] != 34 && !High(EscapeUnit(c)[0])
  {
  }

  lemma EscapeUnique(c: CodeUnit, x: Str, d: CodeUnit, y: Str)
    requires EscapeUnit(c) + x == EscapeUnit(d) + y
    ensures c == d && x == y
  {
    var u, v := EscapeUnit(c), EscapeUnit(d);
    SameFront(u, x, v, y);
    if |u| > 1 && |v| > 1 {
      assert (u + x)[1] == u[1] && (v + y)[1] == v[1];
    }
    if |u| == 6 && |v| == 6 {
      HexUnique(c, d);
    }
  }

  lemma HexUnique(c: CodeUnit, d: CodeUnit)
    requires HexDigit(c / 4096) == HexDigit(d / 4096) && HexDigit(c / 256 % 16) == HexDigit(d / 256 % 16)
    requires HexDigit(c / 16 % 16) == HexDigit(d / 16 % 16) && HexDigit(c % 16) == HexDigit(d % 16)
    ensures c == d
  {
    HexParts(c);
    HexParts(d);
  }

  lemma HexParts(c: CodeUnit)
    ensures c == c / 4096 * 4096 + c / 256 % 16 * 256 + c / 16 % 16 * 16 + c % 16
  {
    assert c / 256 / 16 == c / 4096;
    assert c / 16 / 16 == c / 256;
  }

  lemma QuoteUnique(s: Str, x: Str, t: Str, y: Str)
    requires Quote(s) + x == Quote(t) + y
    ensures s == t && x == y
  {
    assert (Quote(s) + x)[1..] == Quoted(s, 0, x);
    assert (Quote(t) + y)[1..] == Quoted(t, 0, y);
    QuotedUnique(s, 0, x, t, 0, y);
    assert s[0..] == s && t[0..] == t;
  }

  // ---- arrays and objects ----

  lemma {:induction false} ElemsUnique(xs: Elems, x: Str, ys: Elems, y: Str)
    requires StringifyElems(xs) + x == StringifyElems(ys) + y
    requires x != [] && x[0] == 93 && y != [] && y[0] == 93
    ensures xs == ys && x == y
    decreases xs, 0
  {
    if xs.Elem? { Opens(xs.head); }
    if ys.Elem? { Opens(ys.head); }
    ElemsSplit(xs, x);
    ElemsSplit(ys, y);
    if xs.Elem? && ys.Elem? {
      TextUnique(xs.head, ElemsRest(xs, x), ys.head, ElemsRest(ys, y));
      if xs.tail.Elem? {
        assert ElemsRest(xs, x)[1..] == StringifyElems(xs.tail) + x;
        assert ElemsRest(ys, y)[1..] == StringifyElems(ys.tail) + y;
        ElemsUnique(xs.tail, x, ys.tail, y);
      }
    }
  }

  function ElemsRest(xs: Elems, x: Str): Str
    requires xs.Elem?
  {
    if xs.tail.NoElems? then x else [44] + (StringifyElems(xs.tail) + x)
  }

  lemma ElemsSplit(xs: Elems, x: Str)
    requires x != []
    ensures xs.Elem? ==> StringifyElems(xs) + x == Stringify(xs.head) + ElemsRest(xs, x)
    ensures xs.NoElems? ==> StringifyElems(xs) + x == x
    ensures xs.Elem? && Stringify(xs.head) != [] ==> (StringifyElems(xs) + x)[0] == Stringify(xs.head)[0]
  {
  }

  lemma {:induction false} MembersUnique(ms: Members, x: Str, ns: Members, y: Str)
    requires StringifyMembers(ms) + x == StringifyMembers(ns) + y
    requires x != [] && x[0] == 125 && y != [] && y[0] == 125
    ensures ms == ns && x == y
    decreases ms, 0
  {
    MembersSplit(ms, x);
    MembersSplit(ns, y);
    if ms.Member? && ns.Member? {
      var p, q := Stringify(ms.value) + MembersRest(ms, x), Stringify(ns.value) + MembersRest(ns, y);
      QuoteUnique(ms.key, [58] + p, ns.key, [58] + q);
      assert ([58] + p)[1..] == p && ([58] + q)[1..] == q;
      TextUnique(ms.value, MembersRest(ms, x), ns.value, MembersRest(ns, y));
      if ms.tail.Member? {
        assert MembersRest(ms, x)[1..] == StringifyMembers(ms.tail) + x;
        assert MembersRest(ns, y)[1..] == StringifyMembers(ns.tail) + y;
        MembersUnique(ms.tail, x, ns.tail, y);
      }
    }
  }

  function MembersRest(ms: Members, x: Str): Str
    requires ms.Member?
  {
    if ms.tail.NoMembers? then x else [44] + (StringifyMembers(ms.tail) + x)
  }

  lemma MembersSplit(ms: Members, x: Str)
    requires x != []
    ensures ms.Member? ==>
      StringifyMembers(ms) + x == Quote(ms.key) + ([58] + (Stringify(ms.value) + MembersRest(ms, x)))
    ensures ms.NoMembers? ==> StringifyMembers(ms) + x == x
    ensures ms.Member? ==> StringifyMembers(ms) != [] && (StringifyMembers(ms) + x)[0] == 34
  {
    hide EscapeFrom, Stringify, Quote;
    if ms.Member? {
      QuoteOpens(ms.key);
      var r := if ms.tail.NoMembers? then [] else [44] + StringifyMembers(ms.tail);
      assert StringifyMembers(ms) == Quote(ms.key) + [58] + Stringify(ms.value) + r;
      Assoc(Quote(ms.key), Stringify(ms.value), r, x);
      RestIs(ms, r, x);
    }
  }

  lemma RestIs(ms: Members, r: Str, x: Str)
    requires ms.Member? && r == if ms.tail.NoMembers? then [] else [44] + StringifyMembers(ms.tail)
    ensures r + x == MembersRest(ms, x)
  {
    hide StringifyMembers;
    if ms.tail.Member? {
      assert ([44] + StringifyMembers(ms.tail)) + x == [44] + (StringifyMembers(ms.tail) + x);
    } else {
      assert r + x == x;
    }
  }

  lemma QuoteOpens(k: Str)
    ensures Quote(k) != [] && Quote(k)[0] == 34
  {
  }

  lemma Assoc(q: Str, v: Str, r: Str, x: Str)
    ensures (q + [58] + v + r) + x == q + ([58] + (v + (r + x)))
    ensures q != [] ==> (q + [58] + v + r) != [] && ((q + [58] + v + r) + x)[0] == q[0]
  {
  }

  /** The primary-key text is the same exactly for structurally equal values. */
  lemma IdentityIffSame(a: Value, b: Value)
    requires Proper(a) && Proper(b)
    ensures Identity(a) == Identity(b) <==> Same(a, b)
  {
    hide Stringify, Canon, Identity, Same;
    IdentityIsCanonText(a);
    IdentityIsCanonText(b);
    SameIffCanon(a, b);
    if Identity(a) == Identity(b) {
      assert Stringify(Canon(a)) + [] == Stringify(Canon(b)) + [];
      TextUnique(Canon(a), [], Canon(b), []);
    }
  }
}
