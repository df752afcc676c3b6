/** cloneJsonValue's running account of bytes, nodes and depth, against the text JSON.stringify writes. */
module JsonBudget {
  import opened Decimals
  import opened ItemLists
  import opened Json
  import opened StructuralEquality

  // ---- UTF-8 sizes of joined texts ----

  /** No surrogate pair can straddle the seam before x. */
  predicate Starts(x: Str) { x == [] || !Low(x[0]) }

  lemma {:induction false} Utf8Join(a: Str, b: Str, i: nat)
    requires Starts(b) && i <= |a|
    ensures Utf8From(a + b, i) == Utf8From(a, i) + Utf8From(b, 0)
    decreases |a| - i
  {
    if i == |a| {
      Utf8Shift(a, b, 0);
    } else if PairAt(a, i) {
      Utf8Join(a, b, i + 2);
      assert PairAt(a + b, i);
    } else {
      Utf8Join(a, b, i + 1);
      assert !PairAt(a + b, i);
    }
  }

  lemma {:induction false} Utf8Shift(a: Str, b: Str, i: nat)
    requires i <= |b|
    ensures Utf8From(a + b, |a| + i) == Utf8From(b, i)
    decreases |b| - i
  {
    if i < |b| {
      assert PairAt(a + b, |a| + i) <==> PairAt(b, i);
      Utf8Shift(a, b, if PairAt(b, i) then i + 2 else i + 1);
    }
  }

  lemma Utf8Cat(a: Str, b: Str)
    requires Starts(b)
    ensures Utf8Length(a + b) == Utf8Length(a) + Utf8Length(b)
  {
    Utf8Join(a, b, 0);
  }

  lemma {:induction false} Ascii(a: Str, i: nat)
    requires i <= |a| && forall j :: 0 <= j < |a| ==> a[j] < 0x80
    ensures Utf8From(a, i) == |a| - i
    decreases |a| - i
  {
    if i < |a| { Ascii(a, i + 1); }
  }

  // ---- strings ----

  /** What stringBytes charges for the unit or pair at i. */
  function UnitCharge(s: Str, i: nat): nat
    requires i < |s|
  {
    var c := s[i];
    if c == 34 || c == 92 || c in {8, 9, 10, 12, 13} then 2
    else if c < 32 then 6
    else if c < 128 then 1
    else if c < 2048 then 2
    else if PairAt(s, i) then 4
    else if High(c) || Low(c) then 6
    else 3
  }

  /** The charges from i on, without the quotes. */
  function TextCharge(s: Str, i: nat): nat
    requires i <= |s|
    decreases |s| - i
  {
    if i == |s| then 0 else UnitCharge(s, i) + TextCharge(s, if PairAt(s, i) then i + 2 else i + 1)
  }

  lemma UnitBytes(c: CodeUnit)
    ensures Starts(EscapeUnit(c))
    ensures Utf8Length(EscapeUnit(c)) ==
      if c == 34 || c == 92 || c in {8, 9, 10, 12, 13} then 2 else if c < 32 || High(c) || Low(c) then 6
      else if c < 128 then 1 else if c < 2048 then 2 else 3
  {
    var e := EscapeUnit(c);
    if e == [c] {
      assert Utf8From(e, 1) == 0;
    } else {
      Ascii(e, 0);
    }
  }

  lemma PairBytes(h: CodeUnit, l: CodeUnit)
    requires High(h) && Low(l)
    ensures Utf8Length([h, l]) == 4
  {
    assert PairAt([h, l], 0) && Utf8From([h, l], 2) == 0;
  }

  /** The charges of a text are the bytes of its escaped form. */
  lemma {:induction false} TextBytes(s: Str, i: nat)
    requires i <= |s|
    ensures Starts(EscapeFrom(s, i)) && Utf8Length(EscapeFrom(s, i)) == TextCharge(s, i)
    ensures TextCharge(s, i) >= |s| - i
    decreases |s| - i
  {
    hide Utf8Length, EscapeUnit;
    if i == |s| {
      EmptyBytes();
    } else if PairAt(s, i) {
      TextBytes(s, i + 2);
      PairBytes(s[i], s[i + 1]);
      Utf8Cat([s[i], s[i + 1]], EscapeFrom(s, i + 2));
    } else {
      TextBytes(s, i + 1);
      UnitBytes(s[i]);
      Utf8Cat(EscapeUnit(s[i]), EscapeFrom(s, i + 1));
      FirstOfTwo(EscapeUnit(s[i]), EscapeFrom(s, i + 1));
    }
  }

  lemma FirstOfTwo(a: Str, b: Str)
    requires Starts(a) && Starts(b)
    ensures Starts(a + b)
  {
    if a == [] { assert a + b == b; }
  }

  lemma EmptyBytes()
    ensures Utf8Length([]) == 0
  {
  }

  lemma QuoteBytes(s: Str)
    ensures Utf8Length(Quote(s)) == 2 + TextCharge(s, 0) && Starts(Quote(s))
  {
    hide EscapeFrom, TextCharge;
    TextBytes(s, 0);
    assert Utf8From([34], 0) == 1 by { Ascii([34], 0); }
    Utf8Cat(EscapeFrom(s, 0), [34]);
    FirstOfTwo(EscapeFrom(s, 0), [34]);
    Utf8Cat([34], EscapeFrom(s, 0) + [34]);
    assert Quote(s) == [34] + (EscapeFrom(s, 0) + [34]);
  }

  // ---- containers ----

  /** Bytes of the elements, separators apart. */
  function ElemsBytes(xs: Elems): nat {
    match xs case NoElems => 0 case Elem(h, t) => Utf8Length(Stringify(h)) + ElemsBytes(t)
  }

  function MembersBytes(ms: Members): nat {
    match ms
    case NoMembers => 0
    case Member(k, v, t) => Utf8Length(Quote(k)) + 1 + Utf8Length(Stringify(v)) + MembersBytes(t)
  }

  function Commas(n: nat): nat { if n == 0 then 0 else n - 1 }

  lemma NumberBytes(n: int)
    ensures Utf8Length(Decimal(n)) == |Decimal(n)| && Starts(Decimal(n))
  {
    hide Digits;
    DigitsParse(if n < 0 then -n else n);
    Ascii(Decimal(n), 0);
  }

  lemma {:induction false} StartsText(v: Value)
    ensures Starts(Stringify(v))
  {
    hide Decimal, Quote;
    match v
    case Num(n) => NumberBytes(n);
    case Text(s) => QuoteBytes(s);
    case _ =>
  }

  lemma {:induction false} ListBytes(xs: Elems)
    ensures Utf8Length(StringifyElems(xs)) == ElemsBytes(xs) + Commas(Length(xs)) && Starts(StringifyElems(xs))
  {
    hide Utf8Length, Stringify;
    match xs
    case NoElems => EmptyBytes();
    case Elem(h, t) =>
      StartsText(h);
      ListBytes(t);
      Join(Stringify(h), StringifyElems(t), t.NoElems?);
  }

  lemma {:induction false} ObjectBytes(ms: Members)
    ensures Utf8Length(StringifyMembers(ms)) == MembersBytes(ms) + Commas(Count(ms)) && Starts(StringifyMembers(ms))
  {
    hide Utf8Length, Stringify, Quote;
    match ms
    case NoMembers => EmptyBytes();
    case Member(k, v, t) =>
      StartsText(v);
      QuoteBytes(k);
      ObjectBytes(t);
      One(58);
      Utf8Cat(Quote(k), [58]);
      Utf8Cat(Quote(k) + [58], Stringify(v));
      FirstOfTwo(Quote(k), [58]);
      FirstOfTwo(Quote(k) + [58], Stringify(v));
      Join(Quote(k) + [58] + Stringify(v), StringifyMembers(t), t.NoMembers?);
  }

  lemma One(c: CodeUnit)
    requires c < 0x80
    ensures Utf8Length([c]) == 1
  {
    Ascii([c], 0);
  }

  /** One item and, after a comma, the rest. */
  lemma Join(a: Str, rest: Str, last: bool)
    requires Starts(a) && Starts(rest)
    ensures var whole := a + (if last then [] else [44] + rest);
      Starts(whole) && Utf8Length(whole) == Utf8Length(a) + if last then 0 else 1 + Utf8Length(rest)
  {
    hide Utf8Length;
    if last {
      assert a + [] == a;
    } else {
      One(44);
      Utf8Cat([44], rest);
      FirstOfTwo([44], rest);
      Utf8Cat(a, [44] + rest);
      FirstOfTwo(a, [44] + rest);
    }
  }

  /** Text in brackets. */
  lemma Enclosed(open: CodeUnit, body: Str, close: CodeUnit)
    requires open < 0x80 && close < 0x80 && Starts(body)
    ensures Utf8Length([open] + body + [close]) == 2 + Utf8Length(body)
  {
    hide Utf8Length;
    One(open);
    One(close);
    Utf8Cat([open], body);
    Utf8Cat([open] + body, [close]);
  }

  lemma ArrayText(xs: Elems)
    ensures Utf8Length(Stringify(Arr(xs))) == 2 + Commas(Length(xs)) + ElemsBytes(xs)
  {
    hide Utf8Length, StringifyElems;
    ListBytes(xs);
    Enclosed(91, StringifyElems(xs), 93);
  }

  lemma ObjectText(ms: Members)
    ensures Utf8Length(Stringify(Obj(ms))) == 2 + Commas(Count(ms)) + MembersBytes(ms)
  {
    hide Utf8Length, StringifyMembers;
    ObjectBytes(ms);
    Enclosed(123, StringifyMembers(ms), 125);
  }

  lemma ConstantTexts()
    ensures Utf8Length(NULL) == 4 && Utf8Length(TRUE) == 4 && Utf8Length(FALSE) == 5
  {
    Ascii(NULL, 0);
    Ascii(TRUE, 0);
    Ascii(FALSE, 0);
  }

  lemma {:induction false} LengthNodes(xs: Elems)
    ensures Length(xs) <= ElemsNodes(xs)
  {
    if xs.Elem? { LengthNodes(xs.tail); }
  }

  lemma {:induction false} CountNodes(ms: Members)
    ensures Count(ms) <= MembersNodes(ms)
  {
    if ms.Member? { CountNodes(ms.tail); }
  }

  // ---- the account ----

  class Account {
    const maxBytes: nat
    var bytes: nat
    var nodes: nat

    constructor (maxBytes: nat)
      ensures this.maxBytes == maxBytes && bytes == 0 && nodes == 0
    {
      this.maxBytes := maxBytes;
      bytes, nodes := 0, 0;
    }

    method Charge(count: nat) returns (ok: bool)
      modifies `bytes
      ensures bytes == old(bytes) + count && ok == (bytes <= maxBytes)
    {
      bytes := bytes + count;
      ok := bytes <= maxBytes;
    }

    /** A text too long for what is left is refused unread; that never refuses one that fits. */
    method StringBytes(text: Str) returns (ok: bool)
      requires bytes <= maxBytes
      modifies `bytes
      ensures ok <==> old(bytes) + Utf8Length(Quote(text)) <= maxBytes
      ensures ok ==> bytes == old(bytes) + Utf8Length(Quote(text))
    {
      hide Utf8Length, Quote;
      QuoteBytes(text);
      TextBytes(text, 0);
      if |text| > maxBytes - bytes - 2 {
        ok := Charge(maxBytes + 1);
        return;
      }
      ok := Charge(2);
      if !ok { return; }
      var i := 0;
      while i < |text|
        invariant i <= |text| && bytes <= maxBytes && ok
        invariant bytes + TextCharge(text, i) == old(bytes) + 2 + TextCharge(text, 0)
      {
        ok := Charge(UnitCharge(text, i));
        if !ok { return; }
        i := if PairAt(text, i) then i + 2 else i + 1;
      }
    }

    /** v at this depth fits what is left. */
    ghost predicate Fits(v: Value, depth: nat)
      reads this
    {
      && depth + Depth(v) <= MAX_JSON_DEPTH && nodes + Nodes(v) <= MAX_JSON_NODES
      && bytes + Utf8Length(Stringify(v)) <= maxBytes
    }

    /** Exactly the fitting values pass, and the account is then exact. */
    method Visit(v: Value, depth: nat) returns (ok: bool)
      requires bytes <= maxBytes
      modifies `bytes, `nodes
      ensures ok <==> old(Fits(v, depth))
      ensures ok ==> bytes == old(bytes) + Utf8Length(Stringify(v)) && nodes == old(nodes) + Nodes(v)
      decreases Nodes(v), 0
    {
      hide Utf8Length, Quote, Digits;
      nodes := nodes + 1;
      if nodes > MAX_JSON_NODES || depth > MAX_JSON_DEPTH { return false; }
      ConstantTexts();
      match v
      case Text(s) => ok := StringBytes(s);
      case Null => ok := Charge(4);
      case Bool(b) => ok := Charge(if b then 4 else 5);
      case Num(n) =>
        NumberBytes(n);
        ok := Charge(|Decimal(n)|);
      case Arr(xs) =>
        LengthNodes(xs);
        ArrayText(xs);
        if Length(xs) > MAX_JSON_NODES - nodes { return false; }
        ok := Charge(2 + Commas(Length(xs)));
        if !ok { return; }
        ok := VisitElems(xs, depth);
      case Obj(ms) =>
        CountNodes(ms);
        ObjectText(ms);
        if Count(ms) > MAX_JSON_NODES - nodes { return false; }
        ok := Charge(2 + Commas(Count(ms)));
        if !ok { return; }
        ok := VisitMembers(ms, depth);
    }

    method VisitElems(xs: Elems, depth: nat) returns (ok: bool)
      requires bytes <= maxBytes && nodes <= MAX_JSON_NODES && depth <= MAX_JSON_DEPTH
      modifies `bytes, `nodes
      ensures ok <==>
        && depth + ElemsDepth(xs) <= MAX_JSON_DEPTH && old(nodes) + ElemsNodes(xs) <= MAX_JSON_NODES
        && old(bytes) + ElemsBytes(xs) <= maxBytes
      ensures ok ==> bytes == old(bytes) + ElemsBytes(xs) && nodes == old(nodes) + ElemsNodes(xs)
      decreases ElemsNodes(xs), 1
    {
      hide Utf8Length, Stringify;
      var rest := xs;
      while rest.Elem?
        invariant bytes <= maxBytes && nodes <= MAX_JSON_NODES
        invariant ElemsNodes(rest) <= ElemsNodes(xs)
        invariant bytes + ElemsBytes(rest) == old(bytes) + ElemsBytes(xs)
        invariant nodes + ElemsNodes(rest) == old(nodes) + ElemsNodes(xs)
        invariant depth + ElemsDepth(rest) <= MAX_JSON_DEPTH <==> depth + ElemsDepth(xs) <= MAX_JSON_DEPTH
        decreases rest
      {
        ok := Visit(rest.head, depth + 1);
        if !ok { return; }
        rest := rest.tail;
      }
      return true;
    }

    method VisitMembers(ms: Members, depth: nat) returns (ok: bool)
      requires bytes <= maxBytes && nodes <= MAX_JSON_NODES && depth <= MAX_JSON_DEPTH
      modifies `bytes, `nodes
      ensures ok <==>
        && depth + MembersDepth(ms) <= MAX_JSON_DEPTH && old(nodes) + MembersNodes(ms) <= MAX_JSON_NODES
        && old(bytes) + MembersBytes(ms) <= maxBytes
      ensures ok ==> bytes == old(bytes) + MembersBytes(ms) && nodes == old(nodes) + MembersNodes(ms)
      decreases MembersNodes(ms), 1
    {
      hide Utf8Length, Stringify, Quote;
      var rest := ms;
      while rest.Member?
        invariant bytes <= maxBytes && nodes <= MAX_JSON_NODES
        invariant MembersNodes(rest) <= MembersNodes(ms)
        invariant bytes + MembersBytes(rest) == old(bytes) + MembersBytes(ms)
        invariant nodes + MembersNodes(rest) == old(nodes) + MembersNodes(ms)
        invariant depth + MembersDepth(rest) <= MAX_JSON_DEPTH <==> depth + MembersDepth(ms) <= MAX_JSON_DEPTH
        decreases rest
      {
        ok := StringBytes(rest.key);
        if !ok { return; }
        ok := Charge(1);
        if !ok { return; }
        ok := Visit(rest.value, depth + 1);
        if !ok { return; }
        rest := rest.tail;
      }
      return true;
    }
  }

  /** A value is cloned exactly when it is within depth and node limits and the UTF-8 length of its
      JSON text is within the byte limit. */
  method CloneJsonValue(v: Value, maxBytes: nat) returns (r: Option<Value>)
    ensures r == if Clones(v, maxBytes) then Some(v) else None
  {
    var account := new Account(maxBytes);
    var ok := account.Visit(v, 0);
    r := if ok then Some(v) else None;
  }
}
