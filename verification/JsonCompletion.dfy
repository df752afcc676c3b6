/** What the recogniser reads is grammatical, and what it finds cut short can be completed. */
module JsonCompletion {
  import opened Decimals
  import opened Json
  import opened JsonScanner
  import opened JsonGrammar

  // ---- what was read is grammatical ----

  lemma {:induction false} LeadingSpaces(t: Str) returns (lead: Str)
    ensures Spaces(lead) && t == lead + SkipSpace(t)
  {
    if t != [] && Space(t[0]) {
      var more := LeadingSpaces(t[1..]);
      lead := [t[0]] + more;
    } else {
      lead := [];
    }
  }

  lemma {:induction false} HexShape(t: Str, n: nat)
    ensures HexRun(t, n).Rest? ==> n <= |t| && HexRun(t, n).x == t[n..] && forall i :: 0 <= i < n ==> Hexadecimal(t[i])
    ensures HexRun(t, n) == Stopped(Incomplete) ==> |t| < n && forall i :: 0 <= i < |t| ==> Hexadecimal(t[i])
    decreases n
  {
    if n > 0 && t != [] {
      HexShape(t[1..], n - 1);
      assert forall i :: 0 < i < |t| ==> t[i] == t[1..][i - 1];
    }
  }

  /** The first piece of a string's text, when it is whole. */
  function FirstPiece(t: Str): nat {
    if t == [] || t[0] == 34 || t[0] < 32 then 0
    else if t[0] != 92 then 1
    else if |t| == 1 then 0
    else if t[1] == 117 then if HexRun(t[2..], 4).Rest? then 6 else 0
    else if Escapable(t[1]) then 2
    else 0
  }

  lemma PieceAhead(t: Str)
    requires FirstPiece(t) > 0
    ensures FirstPiece(t) <= |t| && Piece(t[..FirstPiece(t)]) && Chars(t) == Chars(t[FirstPiece(t)..])
  {
    hide HexRun;
    CharsCases(t);
    if t[0] == 92 && t[1] == 117 {
      HexShape(t[2..], 4);
      assert t[2..][4..] == t[6..];
      var p := t[..6];
      assert p[2] == t[2..][0] && p[3] == t[2..][1] && p[4] == t[2..][2] && p[5] == t[2..][3];
    }
  }

  lemma ConcatCons(p: Str, ps: seq<Str>, x: Str)
    ensures Concat([p] + ps) + x == p + (Concat(ps) + x)
  {
  }

  lemma {:induction false} CharsSpell(t: Str) returns (ps: seq<Str>)
    requires Chars(t).Rest?
    ensures Pieces(ps) && t == Concat(ps) + ([34] + Chars(t).x)
    decreases |t|
  {
    hide Piece, Concat;
    CharsCases(t);
    var n := FirstPiece(t);
    if n > 0 {
      PieceAhead(t);
      var more := CharsSpell(t[n..]);
      ps := [t[..n]] + more;
      ConcatCons(t[..n], more, [34] + Chars(t).x);
    } else {
      ps := [];
      NoPieces([34] + Chars(t).x);
    }
  }

  lemma NoPieces(x: Str)
    ensures Concat([]) + x == x
  {
  }

  lemma QuotedSpell(t: Str) returns (lead: Str, ps: seq<Str>)
    requires Quoted(t).Rest?
    ensures Spaces(lead) && Pieces(ps) && t == lead + ([34] + (Concat(ps) + ([34] + Quoted(t).x)))
  {
    hide Chars, Concat;
    lead := LeadingSpaces(t);
    ps := CharsSpell(SkipSpace(t)[1..]);
    assert SkipSpace(t) == [34] + SkipSpace(t)[1..];
  }

  lemma {:induction false} WordSpell(t: Str, w: Str)
    ensures Word(t, w).Rest? ==> t == w + Word(t, w).x
    ensures Word(t, w) == Stopped(Incomplete) ==> t <= w
  {
    if w != [] && t != [] {
      WordSpell(t[1..], w[1..]);
      if t[0] == w[0] {
        assert t == [t[0]] + t[1..] && w == [w[0]] + w[1..];
      }
    }
  }

  lemma {:induction false} LeadingDigits(t: Str) returns (d: Str)
    ensures AllDigits(d) && t == d + DropDigits(t)
    ensures t != [] && Digit(t[0]) ==> d != [] && d[0] == t[0]
  {
    if t != [] && Digit(t[0]) {
      var more := LeadingDigits(t[1..]);
      d := [t[0]] + more;
    } else {
      d := [];
    }
  }

  lemma WholeSpell(t: Str) returns (m: bool, w: Str)
    requires AfterInt(t).Rest?
    ensures Whole(w) && t == Sign(m) + (w + AfterInt(t).x)
  {
    hide DropDigits;
    m := t[0] == 45;
    var u := if m then t[1..] else t;
    if u[0] == 48 {
      w := [48];
    } else {
      var more := LeadingDigits(u[1..]);
      w := [u[0]] + more;
    }
    assert u == w + AfterInt(t).x;
  }

  lemma FractionSpell(t: Str) returns (f: Str)
    ensures Fraction(f) && t == f + AfterFraction(t) && (|AfterFraction(t)| == |t| ==> f == [])
  {
    hide DropDigits;
    if |t| > 1 && t[0] == 46 && Digit(t[1]) {
      var more := LeadingDigits(t[2..]);
      f := [46, t[1]] + more;
      assert f[1..] == [t[1]] + more;
    } else {
      f := [];
    }
  }

  lemma ExponentSpell(t: Str) returns (e: Str)
    ensures Exponent(e) && t == e + AfterExponent(t) && (|AfterExponent(t)| == |t| ==> e == [])
  {
    hide DropDigits, AfterSign, Exponent;
    e := [];
    assert Exponent([]) by { NoExponent(); }
    if E(t) {
      var v := AfterSign(t[1..]);
      if v != [] && Digit(v[0]) {
        var more := LeadingDigits(v[1..]);
        var sign := SignAhead(t[1..]);
        e := [t[0]] + (sign + ([v[0]] + more));
        ExponentMade(t[0], sign, v[0], more);
        assert t == [t[0]] + (sign + ([v[0]] + v[1..]));
      }
    }
  }

  lemma NoExponent()
    ensures Exponent([])
  {
  }

  lemma SignAhead(t: Str) returns (sign: Str)
    ensures t == sign + AfterSign(t) && (sign == [] || sign == [43] || sign == [45])
  {
    sign := if t != [] && (t[0] == 43 || t[0] == 45) then [t[0]] else [];
  }

  lemma ExponentMade(e: CodeUnit, sign: Str, first: CodeUnit, more: Str)
    requires (e == 101 || e == 69) && (sign == [] || sign == [43] || sign == [45]) && Digit(first) && AllDigits(more)
    ensures Exponent([e] + (sign + ([first] + more)))
  {
    var s := [e] + (sign + ([first] + more));
    assert s[1..] == sign + ([first] + more);
    assert AfterSign(s[1..]) == [first] + more;
  }

  /** Text starting with a quote has no leading spaces. */
  lemma NoLead(u: Str, lead: Str, x: Str)
    requires Spaces(lead) && u == lead + ([34] + x) && u[0] == 34
    ensures lead == []
  {
    assert forall i :: 0 <= i < |lead| ==> Space(u[i]);
  }

  lemma NumberSpell(t: Str) returns (tree: Tree)
    requires Number(t).Rest?
    ensures tree.NumberT? && Wf(tree) && t == Spell(tree, Number(t).x)
  {
    hide AfterInt, AfterFraction, AfterExponent, Whole, Fraction, Exponent;
    var m, w := WholeSpell(t);
    var a := AfterInt(t).x;
    var f := FractionSpell(a);
    var e := ExponentSpell(AfterFraction(a));
    tree := NumberT(m, w, f, e);
  }

  lemma ScalarSpell(u: Str) returns (tree: Tree)
    requires u != [] && Scalar(u).Rest? && u[0] != 123 && u[0] != 91
    ensures Wf(tree) && u == Spell(tree, Scalar(u).x)
  {
    hide Quoted, Word, Number, Concat, SkipSpace;
    if u[0] == 34 {
      var lead, ps := QuotedSpell(u);
      NoLead(u, lead, Concat(ps) + ([34] + Scalar(u).x));
      tree := StringT(ps);
    } else if u[0] == 116 {
      WordSpell(u, TRUE);
      tree := WordT(TRUE);
    } else if u[0] == 102 {
      WordSpell(u, FALSE);
      tree := WordT(FALSE);
    } else if u[0] == 110 {
      WordSpell(u, NULL);
      tree := WordT(NULL);
    } else {
      tree := NumberSpell(u);
    }
  }

  lemma {:induction false} ValueSpell(t: Str, d: nat, limit: nat) returns (lead: Str, tree: Tree)
    requires ScanValue(t, d, limit).Rest?
    ensures Spaces(lead) && Wf(tree) && t == lead + Spell(tree, ScanValue(t, d, limit).x)
    decreases |t|, 1
  {
    hide Scalar, SkipSpace, SpellEntries, ScanEntries;
    lead := LeadingSpaces(t);
    var u := SkipSpace(t);
    if u[0] != 123 && u[0] != 91 {
      tree := ScalarSpell(u);
    } else {
      var obj := u[0] == 123;
      var gap := LeadingSpaces(u[1..]);
      var v := SkipSpace(u[1..]);
      assert u == [Open(obj)] + u[1..];
      if v != [] && v[0] == Close(obj) {
        tree := BoxT(obj, gap, NoEntries);
        assert v == [Close(obj)] + v[1..];
      } else {
        EntriesSkip(u[1..], d, limit, obj);
        var es := EntriesSpell(u[1..], d, limit, obj);
        tree := BoxT(obj, [], es);
      }
    }
  }

  lemma KeySpell(t: Str, obj: bool) returns (lead: Str, key: seq<Str>, gap: Str)
    requires ScanKey(t, obj).Rest?
    ensures Spaces(lead) && Pieces(key) && Spaces(gap)
    ensures var y := ScanKey(t, obj).x;
      if obj then t == lead + ([34] + (Concat(key) + ([34] + (gap + ([58] + y)))))
      else t == y && lead == [] && key == [] && gap == []
  {
    hide Quoted, SkipSpace, Concat;
    lead, key, gap := [], [], [];
    if obj {
      lead, key := QuotedSpell(t);
      gap := LeadingSpaces(Quoted(t).x);
      var w := SkipSpace(Quoted(t).x);
      assert w == [58] + w[1..];
    }
  }

  lemma {:induction false} EntriesSpell(t: Str, d: nat, limit: nat, obj: bool) returns (es: Entries)
    requires ScanEntries(t, d, limit, obj).Rest?
    ensures es.Entry? && WfEntries(es) && t == SpellEntries(es, obj, ScanEntries(t, d, limit, obj).x)
    decreases |t|, 2
  {
    hide Spell, ScanKey, ScanValue, SkipSpace, Concat;
    var x := ScanEntries(t, d, limit, obj).x;
    var lead, key, gap := KeySpell(t, obj);
    var y := ScanKey(t, obj).x;
    var before, v := ValueSpell(y, d + 1, limit);
    var z := ScanValue(y, d + 1, limit).x;
    var trail := LeadingSpaces(z);
    var w := SkipSpace(z);
    assert w == [w[0]] + w[1..];
    if w[0] == Close(obj) {
      es := Entry(if obj then lead else before, key, gap, before, v, trail, NoEntries);
    } else {
      var more := EntriesSpell(w[1..], d, limit, obj);
      es := Entry(if obj then lead else before, key, gap, before, v, trail, more);
    }
  }

  // ---- what was cut short can be completed ----

  const ZERO: Tree := NumberT(false, [48], [], [])

  lemma ZeroFacts(x: Str)
    ensures Wf(ZERO) && Spell(ZERO, x) == [48] + x
  {
    assert Sign(false) + ([48] + ([] + ([] + x))) == [48] + x;
  }

  lemma {:induction false} CharsExtend(t: Str) returns (ps: seq<Str>, s: Str)
    requires Chars(t) == Stopped(Incomplete)
    ensures Pieces(ps) && t + s == Concat(ps) + [34]
    decreases |t|
  {
    hide Concat, Piece, Chars, FirstPiece;
    var n := FirstPiece(t);
    if n > 0 {
      PieceAhead(t);
      var more;
      more, s := CharsExtend(t[n..]);
      ps := [t[..n]] + more;
      ConcatCons(t[..n], more, [34]);
      assert t + s == t[..n] + (t[n..] + s);
    } else if t == [] {
      ps, s := [], [34];
      NoPieces([34]);
    } else {
      var fill := EscapeExtend(t);
      ps, s := [t + fill], fill + [34];
      ConcatCons(t + fill, [], [34]);
      NoPieces([34]);
      assert [t + fill] + [] == ps;
    }
  }

  lemma EscapeExtend(t: Str) returns (fill: Str)
    requires t != [] && Chars(t) == Stopped(Incomplete) && FirstPiece(t) == 0
    ensures Piece(t + fill)
  {
    hide HexRun, Piece;
    CharsCases(t);
    if |t| > 1 { HexShape(t[2..], 4); }
    fill := if |t| == 1 then [110] else seq(6 - |t|, _ => 48);
    LastPiece(t, fill);
  }

  /** An escape cut short, filled up. */
  lemma LastPiece(t: Str, fill: Str)
    requires t != [] && t[0] == 92
    requires |t| == 1 ==> fill == [110]
    requires |t| > 1 ==>
      t[1] == 117 && |t| < 6 && fill == seq(6 - |t|, _ => 48) && HexRun(t[2..], 4) == Stopped(Incomplete)
    ensures Piece(t + fill)
  {
    hide HexRun;
    if |t| > 1 {
      HexShape(t[2..], 4);
      var p := t + fill;
      forall i | 2 <= i < 6 ensures Hexadecimal(p[i]) {
        if i < |t| { assert p[i] == t[2..][i - 2]; } else { assert p[i] == fill[i - |t|]; }
      }
    }
  }

  lemma QuotedExtend(t: Str) returns (lead: Str, ps: seq<Str>, s: Str)
    requires Quoted(t) == Stopped(Incomplete)
    ensures Spaces(lead) && Pieces(ps) && t + s == lead + ([34] + (Concat(ps) + [34]))
  {
    hide Chars, Concat;
    lead := LeadingSpaces(t);
    var u := SkipSpace(t);
    if u == [] {
      ps, s := [], [34, 34];
      NoPieces([34]);
    } else {
      ps, s := CharsExtend(u[1..]);
      assert u == [34] + u[1..];
      assert t + s == lead + ([34] + (u[1..] + s));
    }
  }

  lemma NumberExtend(t: Str) returns (tree: Tree, s: Str)
    requires t != [] && Number(t) == Stopped(Incomplete)
    ensures tree.NumberT? && Wf(tree) && t + s == Spell(tree, [])
  {
    hide AfterInt, AfterFraction, AfterExponent;
    s := [48];
    if AfterInt(t).Stopped? {
      tree := NumberT(true, [48], [], []);
      assert t + s == Sign(true) + ([48] + ([] + ([] + [])));
    } else {
      var m, w := WholeSpell(t);
      var a := AfterInt(t).x;
      var rest := FractionExtend(a);
      tree := NumberT(m, w, rest.0, rest.1);
      assert t + s == Sign(m) + (w + (a + s));
      assert rest.1 + [] == rest.1;
    }
  }

  /** What follows the whole part, with one digit more. */
  lemma FractionExtend(a: Str) returns (r: (Str, Str))
    requires var b := AfterFraction(a);
      var c := AfterExponent(b);
      (c == [46] && |c| == |a|) || (E(c) && AfterSign(c[1..]) == [] && |c| == |b|)
    ensures Fraction(r.0) && Exponent(r.1) && a + [48] == r.0 + r.1
  {
    hide AfterFraction, AfterExponent, AfterSign;
    var f := FractionSpell(a);
    var b := AfterFraction(a);
    var e := ExponentSpell(b);
    var c := AfterExponent(b);
    if c == [46] && |c| == |a| {
      r := ([46, 48], []);
      assert [46, 48][1..] == [48] && a == [46];
    } else {
      r := (f, b + [48]);
      assert b == c;
      ExponentFilled(b);
    }
  }

  lemma ExponentFilled(b: Str)
    requires E(b) && AfterSign(b[1..]) == []
    ensures Exponent(b + [48])
  {
    assert (b + [48])[1..] == b[1..] + [48];
    assert AfterSign(b[1..] + [48]) == [48];
  }

  lemma ScalarExtend(u: Str) returns (tree: Tree, s: Str)
    requires u != [] && Scalar(u) == Stopped(Incomplete) && u[0] != 123 && u[0] != 91 && !Space(u[0])
    ensures Wf(tree) && u + s == Spell(tree, [])
  {
    hide Quoted, Word, Number, Concat;
    if u[0] == 34 {
      var lead, ps;
      lead, ps, s := QuotedExtend(u);
      NoLead(u + s, lead, Concat(ps) + [34]);
      tree := StringT(ps);
    } else if u[0] == 116 {
      WordSpell(u, TRUE);
      tree, s := WordT(TRUE), TRUE[|u|..];
    } else if u[0] == 102 {
      WordSpell(u, FALSE);
      tree, s := WordT(FALSE), FALSE[|u|..];
    } else if u[0] == 110 {
      WordSpell(u, NULL);
      tree, s := WordT(NULL), NULL[|u|..];
    } else {
      tree, s := NumberExtend(u);
    }
  }

  /** What follows a value's text is appended to it. */
  lemma {:induction false} SpellJoin(t: Tree, a: Str, b: Str)
    ensures Spell(t, a + b) == Spell(t, a) + b
    decreases t, 1
  {
    hide Concat;
    match t
    case StringT(ps) =>
      assert [34] + (Concat(ps) + ([34] + (a + b))) == ([34] + (Concat(ps) + ([34] + a))) + b;
    case WordT(w) => assert w + (a + b) == (w + a) + b;
    case NumberT(m, w, f, e) =>
      assert Sign(m) + (w + (f + (e + (a + b)))) == (Sign(m) + (w + (f + (e + a)))) + b;
    case BoxT(obj, gap, es) =>
      if es.NoEntries? {
        assert [Open(obj)] + (gap + ([Close(obj)] + (a + b))) == ([Open(obj)] + (gap + ([Close(obj)] + a))) + b;
      } else {
        EntriesJoin(es, obj, a, b);
        assert [Open(obj)] + (SpellEntries(es, obj, a) + b) == ([Open(obj)] + SpellEntries(es, obj, a)) + b;
      }
  }

  lemma {:induction false} EntriesJoin(es: Entries, obj: bool, a: Str, b: Str)
    ensures SpellEntries(es, obj, a + b) == SpellEntries(es, obj, a) + b
    decreases es, 0
  {
    hide Concat, Spell, SpellKey;
    match es
    case NoEntries => assert [Close(obj)] + (a + b) == ([Close(obj)] + a) + b;
    case Entry(lead, key, gap, before, v, trail, more) =>
      var next := if more.NoEntries? then [Close(obj)] + a else [44] + SpellEntries(more, obj, a);
      if more.NoEntries? {
        assert [Close(obj)] + (a + b) == next + b;
      } else {
        EntriesJoin(more, obj, a, b);
        assert [44] + (SpellEntries(more, obj, a) + b) == next + b;
      }
      SpellJoin(v, trail + next, b);
      assert trail + (next + b) == (trail + next) + b;
      KeyJoin(es, obj, Spell(v, trail + next), b);
  }

  lemma KeyJoin(e: Entries, obj: bool, a: Str, b: Str)
    requires e.Entry?
    ensures SpellKey(e, obj, a + b) == SpellKey(e, obj, a) + b
  {
    hide Concat;
    if obj {
      assert e.lead + ([34] + (Concat(e.key) + ([34] + (e.gap + ([58] + (e.before + (a + b)))))))
          == (e.lead + ([34] + (Concat(e.key) + ([34] + (e.gap + ([58] + (e.before + a))))))) + b;
    } else {
      assert e.lead + (a + b) == (e.lead + a) + b;
    }
  }

  lemma {:induction false} ValueExtend(t: Str, d: nat, limit: nat) returns (lead: Str, tree: Tree, s: Str)
    requires ScanValue(t, d, limit) == Stopped(Incomplete)
    ensures Spaces(lead) && Wf(tree) && t + s == lead + Spell(tree, [])
    decreases |t|, 1
  {
    hide Scalar, SkipSpace, SpellEntries, ScanEntries;
    lead := LeadingSpaces(t);
    var u := SkipSpace(t);
    if u == [] {
      tree, s := ZERO, [48];
      ZeroFacts([]);
    } else if u[0] != 123 && u[0] != 91 {
      SkippedStart(t);
      tree, s := ScalarExtend(u);
    } else {
      var obj := u[0] == 123;
      EntriesSkip(u[1..], d, limit, obj);
      var es;
      es, s := EntriesExtend(u[1..], d, limit, obj);
      tree := BoxT(obj, [], es);
      assert u + s == [Open(obj)] + (u[1..] + s);
    }
    assert t + s == lead + (u + s);
  }

  lemma SkippedStart(t: Str)
    ensures SkipSpace(t) != [] ==> !Space(SkipSpace(t)[0])
  {
  }

  /** One entry after its key. */
  lemma EntryText(obj: bool, lead: Str, key: seq<Str>, gap: Str, before: Str, v: Tree, trail: Str, more: Entries,
      t: Str, y: Str, x: Str)
    requires if obj then t == lead + ([34] + (Concat(key) + ([34] + (gap + ([58] + y))))) else t == y
    requires y == before + Spell(v, trail + (if more.NoEntries? then [Close(obj)] + x
        else [44] + SpellEntries(more, obj, x)))
    ensures SpellEntries(Entry(if obj then lead else before, key, gap, before, v, trail, more), obj, x) == t
  {
    hide Concat, Spell;
  }

  lemma {:induction false} EntriesExtend(t: Str, d: nat, limit: nat, obj: bool) returns (es: Entries, s: Str)
    requires ScanEntries(t, d, limit, obj) == Stopped(Incomplete)
    ensures es.Entry? && WfEntries(es) && t + s == SpellEntries(es, obj, [])
    decreases |t|, 2
  {
    hide Spell, SpellEntries, ScanKey, ScanValue, SkipSpace;
    if ScanKey(t, obj).Stopped? {
      es, s := KeyExtend(t, obj);
    } else {
      var y := ScanKey(t, obj).x;
      if ScanValue(y, d + 1, limit).Stopped? {
        var before, v, s1 := ValueExtend(y, d + 1, limit);
        s := s1 + [Close(obj)];
        SpellJoin(v, [], [Close(obj)]);
        assert [] + [Close(obj)] == [Close(obj)] == [] + ([Close(obj)] + []);
        assert y + s == (y + s1) + [Close(obj)] == before + (Spell(v, []) + [Close(obj)]);
        es := EntryFilled(t, obj, y, before, v, [], NoEntries, s);
      } else {
        var before, v := ValueSpell(y, d + 1, limit);
        var z := ScanValue(y, d + 1, limit).x;
        var trail := LeadingSpaces(z);
        var w := SkipSpace(z);
        var more := NoEntries;
        if w == [] {
          s := [Close(obj)];
          assert z + s == trail + ([Close(obj)] + []);
        } else {
          more, s := EntriesExtend(w[1..], d, limit, obj);
          assert w == [44] + w[1..];
          assert z + s == trail + ([44] + (w[1..] + s));
        }
        SpellJoin(v, z, s);
        assert y + s == before + (Spell(v, z) + s);
        es := EntryFilled(t, obj, y, before, v, trail, more, s);
      }
    }
  }

  /** An entry whose value is completed by s. */
  lemma EntryFilled(t: Str, obj: bool, y: Str, before: Str, v: Tree, trail: Str, more: Entries, s: Str)
      returns (es: Entries)
    requires ScanKey(t, obj) == Rest(y) && Spaces(before) && Spaces(trail) && Wf(v) && WfEntries(more)
    requires y + s == before + Spell(v, trail + (if more.NoEntries? then [Close(obj)] + []
        else [44] + SpellEntries(more, obj, [])))
    ensures es.Entry? && WfEntries(es) && t + s == SpellEntries(es, obj, [])
  {
    hide Spell, SpellEntries, ScanKey, Concat;
    var lead, key, gap := KeySpell(t, obj);
    es := Entry(if obj then lead else before, key, gap, before, v, trail, more);
    KeyThen(t, obj, lead, key, gap, y, s);
    EntryText(obj, lead, key, gap, before, v, trail, more, t + s, y + s, []);
  }

  lemma KeyThen(t: Str, obj: bool, lead: Str, key: seq<Str>, gap: Str, y: Str, s: Str)
    requires if obj then t == lead + ([34] + (Concat(key) + ([34] + (gap + ([58] + y))))) else t == y
    ensures if obj then t + s == lead + ([34] + (Concat(key) + ([34] + (gap + ([58] + (y + s)))))) else t + s == y + s
  {
    hide Concat;
  }

  lemma KeyExtend(t: Str, obj: bool) returns (es: Entries, s: Str)
    requires ScanKey(t, obj) == Stopped(Incomplete)
    ensures es.Entry? && WfEntries(es) && t + s == SpellEntries(es, obj, [])
  {
    hide Quoted, SkipSpace, Concat, SpellEntries, Spell;
    var lead, key, gap, s1 := [], [], [], [];
    if Quoted(t).Stopped? {
      lead, key, s1 := QuotedExtend(t);
      s := s1 + [58, 48, 125];
      assert t + s == (t + s1) + [58, 48, 125];
      assert t + s == lead + ([34] + (Concat(key) + ([34] + [58, 48, 125])));
    } else {
      lead, key := QuotedSpell(t);
      gap := LeadingSpaces(Quoted(t).x);
      s := [58, 48, 125];
    }
    es := Entry(lead, key, gap, [], ZERO, [], NoEntries);
    ZeroFacts([125]);
    assert [] + ([125] + []) == [125] && [] + ([48] + [125]) == [48, 125];
    assert gap + ([58] + [48, 125]) == gap + [58, 48, 125];
    assert t + s == lead + ([34] + (Concat(key) + ([34] + (gap + ([58] + [48, 125])))));
    EntryText(true, lead, key, gap, [], ZERO, [], NoEntries, t + s, [48, 125], []);
  }
}
