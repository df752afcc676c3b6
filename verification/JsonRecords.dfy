/** Every strict prefix of a record as JSON.stringify writes it is recognised as torn; and the one
    edge where the nesting guard answers early. */
module JsonRecords {
  import opened Decimals
  import opened Json
  import opened JsonScanner
  import opened JsonGrammar
  import opened JsonPrefix

  // ---- the tree of a serialised value ----

  function PiecesOf(s: Str, i: nat): seq<Str>
    requires i <= |s|
    decreases |s| - i
  {
    if i == |s| then []
    else if PairAt(s, i) then [[s[i]]] + ([[s[i + 1]]] + PiecesOf(s, i + 2))
    else [EscapeUnit(s[i])] + PiecesOf(s, i + 1)
  }

  function TreeOf(v: Value): Tree
    decreases v, 1
  {
    match v
    case Null => WordT(NULL)
    case Bool(b) => WordT(if b then TRUE else FALSE)
    case Num(n) => NumberT(n < 0, Digits(if n < 0 then -n else n), [], [])
    case Text(s) => StringT(PiecesOf(s, 0))
    case Arr(xs) => BoxT(false, [], ElemEntries(xs))
    case Obj(ms) => BoxT(true, [], MemberEntries(ms))
  }

  function ElemEntries(xs: Elems): Entries
    decreases xs, 0
  {
    match xs case NoElems => NoEntries case Elem(h, t) => Entry([], [], [], [], TreeOf(h), [], ElemEntries(t))
  }

  function MemberEntries(ms: Members): Entries
    decreases ms, 0
  {
    match ms
    case NoMembers => NoEntries
    case Member(k, v, t) => Entry([], PiecesOf(k, 0), [], [], TreeOf(v), [], MemberEntries(t))
  }

  lemma EscapePiece(c: CodeUnit)
    ensures Piece(EscapeUnit(c))
  {
    var e := EscapeUnit(c);
    if |e| == 6 {
      HexDigits(c / 4096);
      HexDigits(c / 256 % 16);
      HexDigits(c / 16 % 16);
      HexDigits(c % 16);
    }
  }

  lemma HexDigits(d: int)
    requires 0 <= d < 16
    ensures Hexadecimal(HexDigit(d))
  {
  }

  lemma {:induction false} PiecesText(s: Str, i: nat)
    requires i <= |s|
    ensures Pieces(PiecesOf(s, i)) && Concat(PiecesOf(s, i)) == EscapeFrom(s, i)
    decreases |s| - i
  {
    hide EscapeUnit, Piece;
    if i < |s| {
      if PairAt(s, i) {
        PiecesText(s, i + 2);
        var rest := PiecesOf(s, i + 2);
        assert Piece([s[i]]) && Piece([s[i + 1]]) by { HighPiece(s[i]); HighPiece(s[i + 1]); }
        assert Concat([[s[i + 1]]] + rest) == [s[i + 1]] + Concat(rest) by { ConcatOne([s[i + 1]], rest); }
        ConcatOne([s[i]], [[s[i + 1]]] + rest);
        assert [s[i]] + ([s[i + 1]] + EscapeFrom(s, i + 2)) == [s[i], s[i + 1]] + EscapeFrom(s, i + 2);
      } else {
        PiecesText(s, i + 1);
        EscapePiece(s[i]);
        ConcatOne(EscapeUnit(s[i]), PiecesOf(s, i + 1));
      }
    }
  }

  lemma HighPiece(c: CodeUnit)
    requires c >= 0xD800
    ensures Piece([c])
  {
  }

  lemma ConcatOne(p: Str, ps: seq<Str>)
    ensures Concat([p] + ps) == p + Concat(ps)
  {
  }

  lemma {:induction false} DigitsWhole(n: nat)
    ensures Whole(Digits(n)) && (n > 0 ==> Digits(n)[0] != 48)
  {
    DigitsParse(n);
    if n >= 10 { DigitsWhole(n / 10); }
  }

  lemma QuoteSpell(s: Str, x: Str)
    ensures [34] + (Concat(PiecesOf(s, 0)) + ([34] + x)) == Quote(s) + x && Pieces(PiecesOf(s, 0))
  {
    hide Concat, PiecesOf, EscapeFrom;
    PiecesText(s, 0);
  }

  /** A container whose entries spell body. */
  lemma BoxText(obj: bool, es: Entries, body: Str, x: Str)
    requires WfEntries(es) && SpellEntries(es, obj, x) == body + ([Close(obj)] + x)
    ensures Wf(BoxT(obj, [], es)) && Nesting(BoxT(obj, [], es)) == EntriesNesting(es)
    ensures Spell(BoxT(obj, [], es), x) == ([Open(obj)] + body + [Close(obj)]) + x
  {
    assert [Open(obj)] + (body + ([Close(obj)] + x)) == ([Open(obj)] + body + [Close(obj)]) + x;
    if es.NoEntries? { assert [] + ([Close(obj)] + x) == [Close(obj)] + x; }
  }

  lemma NumberText(n: int, x: Str)
    ensures Wf(TreeOf(Num(n))) && Spell(TreeOf(Num(n)), x) == Decimal(n) + x
  {
    hide Digits;
    DigitsWhole(if n < 0 then -n else n);
    assert [] + ([] + x) == x;
    assert Sign(n < 0) + (Digits(if n < 0 then -n else n) + x) == Decimal(n) + x;
  }

  /** Serialised text is grammatical, with the value's own nesting. */
  lemma {:induction false} TreeText(v: Value, x: Str)
    ensures Wf(TreeOf(v)) && Nesting(TreeOf(v)) == Depth(v) && Spell(TreeOf(v), x) == Stringify(v) + x
    decreases v, 1
  {
    hide Concat, Digits, Quote, PiecesOf, SpellEntries, WfEntries, EntriesNesting;
    match v
    case Null =>
    case Bool(_) =>
    case Num(n) => NumberText(n, x);
    case Text(s) => QuoteSpell(s, x);
    case Arr(xs) =>
      ElemsText(xs, x);
      BoxText(false, ElemEntries(xs), StringifyElems(xs), x);
    case Obj(ms) =>
      MembersText(ms, x);
      BoxText(true, MemberEntries(ms), StringifyMembers(ms), x);
  }

  function AfterEntry(more: Entries, obj: bool, x: Str): Str {
    if more.NoEntries? then [Close(obj)] + x else [44] + SpellEntries(more, obj, x)
  }

  /** An entry without key or spaces. */
  lemma PlainEntry(t: Tree, more: Entries, x: Str)
    ensures SpellEntries(Entry([], [], [], [], t, [], more), false, x) == Spell(t, AfterEntry(more, false, x))
  {
    hide Spell;
    assert [] + AfterEntry(more, false, x) == AfterEntry(more, false, x);
  }

  lemma {:induction false} ElemsText(xs: Elems, x: Str)
    ensures var es := ElemEntries(xs);
      && WfEntries(es) && EntriesNesting(es) == ElemsDepth(xs)
      && (es.NoEntries? <==> xs.NoElems?) && SpellEntries(es, false, x) == StringifyElems(xs) + ([93] + x)
    decreases xs, 0
  {
    hide Spell, Stringify, Concat, SpellEntries;
    match xs
    case NoElems => NoEntriesText(x);
    case Elem(h, t) =>
      ElemsText(t, x);
      var rest := AfterEntry(ElemEntries(t), false, x);
      TreeText(h, rest);
      PlainEntry(TreeOf(h), ElemEntries(t), x);
      if t.NoElems? {
        assert Stringify(h) + [] == Stringify(h);
      } else {
        assert rest == ([44] + StringifyElems(t)) + ([93] + x);
      }
  }

  lemma {:induction false} MembersText(ms: Members, x: Str)
    ensures var es := MemberEntries(ms);
      && WfEntries(es) && EntriesNesting(es) == MembersDepth(ms)
      && (es.NoEntries? <==> ms.NoMembers?) && SpellEntries(es, true, x) == StringifyMembers(ms) + ([125] + x)
    decreases ms, 0
  {
    hide Spell, Stringify, Concat, Quote, PiecesOf;
    match ms
    case NoMembers => assert [] + ([125] + x) == [125] + x;
    case Member(k, v, t) =>
      var rest := if t.NoMembers? then [125] + x else [44] + SpellEntries(MemberEntries(t), true, x);
      MembersText(t, x);
      TreeText(v, [] + rest);
      assert [] + rest == rest;
      var text := [] + Spell(TreeOf(v), rest);
      assert text == Stringify(v) + rest;
      QuoteSpell(k, [] + ([58] + text));
      assert [] + ([58] + text) == [58] + text;
      if !t.NoMembers? { assert rest == ([44] + StringifyMembers(t)) + ([125] + x); }
      OneMember(Quote(k), Stringify(v), if t.NoMembers? then [] else [44] + StringifyMembers(t), [125] + x, rest);
  }

  lemma OneMember(q: Str, v: Str, more: Str, x: Str, rest: Str)
    requires rest == more + x
    ensures q + ([58] + (v + rest)) == (q + [58] + v + more) + x
  {
  }

  // ---- what a text denotes ----

  function HexValue(c: CodeUnit): int {
    if 48 <= c <= 57 then c - 48 else if 97 <= c <= 102 then c - 87 else if 65 <= c <= 70 then c - 55 else 0
  }

  /** The unit one character text of a string stands for (RFC 8259, section 7). */
  function UnitOf(p: Str): int {
    if |p| == 1 then p[0]
    else if |p| == 2 then
      match p[1]
      case 98 => 8
      case 102 => 12
      case 110 => 10
      case 114 => 13
      case 116 => 9
      case c => c
    else if |p| == 6 then ((HexValue(p[2]) * 16 + HexValue(p[3])) * 16 + HexValue(p[4])) * 16 + HexValue(p[5])
    else 0
  }

  function UnitsOf(ps: seq<Str>): seq<int> { seq(|ps|, i requires 0 <= i < |ps| => UnitOf(ps[i])) }

  /** v is what reading the tree gives; numbers with a fraction or an exponent denote no integer. */
  ghost predicate Denotes(t: Tree, v: Value)
    decreases t, 1
  {
    match (t, v)
    case (WordT(w), Null) => w == [110, 117, 108, 108]
    case (WordT(w), Bool(b)) => w == if b then [116, 114, 117, 101] else [102, 97, 108, 115, 101]
    case (NumberT(m, w, f, e), Num(n)) =>
      f == [] && e == [] && AllDigits(w) && n == (if m then -DigitsValue(w) else DigitsValue(w))
    case (StringT(ps), Text(s)) => UnitsOf(ps) == s
    case (BoxT(obj, _, es), Arr(xs)) => !obj && DenotesElems(es, xs)
    case (BoxT(obj, _, es), Obj(ms)) => obj && DenotesMembers(es, ms)
    case _ => false
  }

  ghost predicate DenotesElems(es: Entries, xs: Elems)
    decreases es, 0
  {
    match (es, xs)
    case (NoEntries, NoElems) => true
    case (Entry(_, _, _, _, t, _, more), Elem(h, rest)) => Denotes(t, h) && DenotesElems(more, rest)
    case _ => false
  }

  ghost predicate DenotesMembers(es: Entries, ms: Members)
    decreases es, 0
  {
    match (es, ms)
    case (NoEntries, NoMembers) => true
    case (Entry(_, key, _, _, t, _, more), Member(k, v, rest)) =>
      UnitsOf(key) == k && Denotes(t, v) && DenotesMembers(more, rest)
    case _ => false
  }

  lemma HexBack(d: int)
    requires 0 <= d < 16
    ensures HexValue(HexDigit(d)) == d
  {
  }

  lemma Nibbles(c: int)
    requires 0 <= c < 0x10000
    ensures ((c / 4096 * 16 + c / 256 % 16) * 16 + c / 16 % 16) * 16 + c % 16 == c
  {
    assert c == c / 16 * 16 + c % 16;
    assert c / 16 == c / 256 * 16 + c / 16 % 16;
    assert c / 256 == c / 4096 * 16 + c / 256 % 16;
  }

  lemma EscapeBack(c: CodeUnit)
    ensures UnitOf(EscapeUnit(c)) == c
  {
    hide HexDigit, HexValue;
    var e := EscapeUnit(c);
    if |e| == 6 {
      HexBack(c / 4096);
      HexBack(c / 256 % 16);
      HexBack(c / 16 % 16);
      HexBack(c % 16);
      Nibbles(c);
    }
  }

  lemma {:induction false} PiecesBack(s: Str, i: nat)
    requires i <= |s|
    ensures UnitsOf(PiecesOf(s, i)) == s[i..]
    decreases |s| - i
  {
    hide EscapeUnit, UnitOf;
    if i < |s| {
      if PairAt(s, i) {
        PiecesBack(s, i + 2);
        OneUnit(s[i]);
        OneUnit(s[i + 1]);
        assert s[i..] == [s[i]] + ([s[i + 1]] + s[i + 2..]);
      } else {
        PiecesBack(s, i + 1);
        EscapeBack(s[i]);
        assert s[i..] == [s[i]] + s[i + 1..];
      }
    }
  }

  lemma OneUnit(c: CodeUnit)
    ensures UnitOf([c]) == c
  {
  }

  /** The text JSON.stringify writes for a value spells, by the grammar, a tree that denotes that value. */
  lemma {:induction false} ReadsBack(v: Value, x: Str)
    ensures Wf(TreeOf(v)) && Spell(TreeOf(v), x) == Stringify(v) + x && Denotes(TreeOf(v), v)
    decreases v, 1
  {
    hide Spell, Stringify, PiecesOf, UnitsOf, Digits, Wf;
    TreeText(v, x);
    match v
    case Num(n) => DigitsParse(if n < 0 then -n else n);
    case Text(s) => PiecesBack(s, 0);
    case Arr(xs) => ElemsBack(xs);
    case Obj(ms) => MembersBack(ms);
    case _ =>
  }

  lemma {:induction false} ElemsBack(xs: Elems)
    ensures DenotesElems(ElemEntries(xs), xs)
    decreases xs, 0
  {
    hide Denotes;
    if xs.Elem? {
      ReadsBack(xs.head, []);
      ElemsBack(xs.tail);
    }
  }

  lemma {:induction false} MembersBack(ms: Members)
    ensures DenotesMembers(MemberEntries(ms), ms)
    decreases ms, 0
  {
    hide Denotes, PiecesOf, UnitsOf;
    if ms.Member? {
      PiecesBack(ms.key, 0);
      ReadsBack(ms.value, []);
      MembersBack(ms.tail);
    }
  }

  // ---- torn records ----

  /** Whatever is left of a record cut short is answered true. */
  lemma TornRecord(ms: Members, n: nat)
    requires Depth(Obj(ms)) < MAX_NESTING && n < |Stringify(Obj(ms))|
    ensures Scanned(Stringify(Obj(ms))[..n]) == Stopped(Incomplete)
  {
    hide Stringify, ScanValue, Valid, Spells, Spell;
    var text := Stringify(Obj(ms));
    var t, s := text[..n], text[n..];
    var tree := TreeOf(Obj(ms));
    TreeText(Obj(ms), []);
    assert text == t + s && text == [] + (text + []);
    SpellsIs(text, [], tree, []);
    ShallowIff(t, s, [], tree, []);
    if Valid(t) { PrefixNotValid(ms, t, s, tree); }
  }

  /** The whole record is valid, so it is not called torn. */
  lemma WholeRecord(ms: Members)
    ensures Valid(Stringify(Obj(ms))) && Scanned(Stringify(Obj(ms))) != Stopped(Incomplete)
  {
    hide Stringify, ScanValue, Valid, Spells, Spell;
    var text := Stringify(Obj(ms));
    TreeText(Obj(ms), []);
    assert text == [] + (text + []);
    SpellsIs(text, [], TreeOf(Obj(ms)), []);
    ValidBy(text, [], TreeOf(Obj(ms)), []);
    ValidNotIncomplete(text);
  }

  lemma PrefixNotValid(ms: Members, t: Str, s: Str, tree: Tree)
    requires t + s == Stringify(Obj(ms)) && s != [] && Spells(t + s, [], tree, []) && Nesting(tree) < MAX_NESTING
    ensures !Valid(t)
  {
    hide ScanValue, Spells, Spell;
    if Valid(t) {
      var lead, part, trail :| Spells(t, lead, part, trail);
      ValidReads(t, lead, part, trail, MAX_NESTING);
      ValidReads(t + s, [], tree, [], MAX_NESTING);
      if ScanValue(t, 0, MAX_NESTING) == Stopped(TooDeep) {
        ValueDeep(t, s, 0, MAX_NESTING);
        ValidReads(t + s, [], tree, [], MAX_NESTING - 1);
      }
      NotEmpty(t, lead, part, trail);
      assert t[0] == (t + s)[0] == 123;
      ValueMore(t, s, 0, MAX_NESTING, MAX_NESTING);
    }
  }

  lemma NotEmpty(t: Str, lead: Str, tree: Tree, trail: Str)
    requires Spells(t, lead, tree, trail)
    ensures t != []
  {
    StartsValue(tree, trail);
  }

  // ---- the edge of the nesting guard ----

  function Repeat(c: CodeUnit, n: nat): Str { seq(n, _ => c) }

  /** n arrays, one inside the other. */
  function Nest(n: nat): Tree
    requires n > 0
  {
    BoxT(false, [], if n == 1 then NoEntries else Entry([], [], [], [], Nest(n - 1), [], NoEntries))
  }

  lemma {:induction false} NestText(n: nat, x: Str)
    requires n > 0
    ensures Wf(Nest(n)) && Nesting(Nest(n)) == n - 1 && Spell(Nest(n), x) == Repeat(91, n) + (Repeat(93, n) + x)
  {
    hide Spell, SpellEntries;
    Brackets(n, x);
    if n == 1 {
      assert SpellEntries(NoEntries, false, x) == [] + ([93] + x) by { NoEntriesText(x); }
      BoxText(false, NoEntries, [], x);
    } else {
      NestText(n - 1, [93] + x);
      PlainEntry(Nest(n - 1), NoEntries, x);
      var es := Entry([], [], [], [], Nest(n - 1), [], NoEntries);
      assert SpellEntries(es, false, x) == (Repeat(91, n - 1) + Repeat(93, n - 1)) + ([93] + x);
      BoxText(false, es, Repeat(91, n - 1) + Repeat(93, n - 1), x);
    }
  }

  lemma NoEntriesText(x: Str)
    ensures SpellEntries(NoEntries, false, x) == [] + ([93] + x)
  {
  }

  lemma Brackets(n: nat, x: Str)
    requires n > 0
    ensures ([91] + (Repeat(91, n - 1) + Repeat(93, n - 1)) + [93]) + x == Repeat(91, n) + (Repeat(93, n) + x)
    ensures n == 1 ==> ([91] + [] + [93]) + x == Repeat(91, n) + (Repeat(93, n) + x)
  {
  }

  /** An array's first element decides when it is the one to stop. */
  lemma FirstStops(v: Str, d: nat, limit: nat)
    requires d <= limit && (v == [] || v[0] == 91) && ScanValue(v, d + 1, limit).Stopped?
    ensures ScanValue([91] + v, d, limit) == ScanValue(v, d + 1, limit)
  {
    hide ScanValue, Scalar;
    var t := [91] + v;
    assert t[1..] == v;
    SkipStops(t);
    SkipStops(v);
    assert ScanEntries(v, d, limit, false) == ScanValue(v, d + 1, limit);
    assert ScanValue(t, d, limit) == ScanEntries(v, d, limit, false) by { OpensBox(v, d, limit); }
  }

  lemma OpensBox(v: Str, d: nat, limit: nat)
    requires d <= limit && (v == [] || v[0] == 91)
    ensures ScanValue([91] + v, d, limit) == ScanEntries(v, d, limit, false)
  {
    hide ScanEntries, Scalar;
    assert ([91] + v)[1..] == v;
    SkipStops([91] + v);
    SkipStops(v);
  }

  lemma {:induction false} OpensScan(n: nat, d: nat, limit: nat)
    requires d <= limit + 1
    ensures ScanValue(Repeat(91, n), d, limit) == Stopped(if d + n > limit then TooDeep else Incomplete)
  {
    if d > limit {
    } else if n == 0 {
      SkipStops([]);
    } else {
      hide ScanValue;
      OpensScan(n - 1, d + 1, limit);
      FirstStops(Repeat(91, n - 1), d, limit);
      assert Repeat(91, n) == [91] + Repeat(91, n - 1);
    }
  }

  /** n open brackets and no more: never valid, always completed by n closing ones, answered true
      exactly up to 256 of them. */
  lemma OpenBrackets(n: nat)
    requires n > 0
    ensures !Valid(Repeat(91, n)) && Completable(Repeat(91, n))
    ensures Scanned(Repeat(91, n)) == Stopped(Incomplete) <==> n <= MAX_NESTING
  {
    hide ScanValue, Spell, Repeat;
    var t := Repeat(91, n);
    OpensScan(n, 0, MAX_NESTING);
    NestText(n, []);
    var s := Repeat(93, n) + [];
    SpellsIs(t + s, [], Nest(n), []);
    ValidBy(t + s, [], Nest(n), []);
    if Valid(t) {
      var lead, tree, trail :| Spells(t, lead, tree, trail);
      var limit := n + Nesting(tree);
      OpensScan(n, 0, limit);
      ValidReads(t, lead, tree, trail, limit);
    }
  }
}
