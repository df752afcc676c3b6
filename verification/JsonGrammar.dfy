/** The JSON grammar of RFC 8259, sections 2 to 7, as trees that spell texts; and what the
    recogniser answers against it. */
module JsonGrammar {
  import opened Decimals
  import opened Json
  import opened JsonScanner

  // ---- the grammar ----

  /** Strings are lists of character texts; numbers keep their parts; containers keep their spaces. */
  datatype Tree =
    | StringT(pieces: seq<Str>)
    | WordT(word: Str)
    | NumberT(minus: bool, whole: Str, fraction: Str, exponent: Str)
    | BoxT(obj: bool, gap: Str, entries: Entries)

  /** Key and the spaces around it count only in objects. */
  datatype Entries =
    | NoEntries
    | Entry(lead: Str, key: seq<Str>, gap: Str, before: Str, value: Tree, trail: Str, more: Entries)

  predicate Spaces(s: Str) { forall i :: 0 <= i < |s| ==> Space(s[i]) }

  /** One unescaped unit, or one escape. */
  predicate Piece(p: Str) {
    || (|p| == 1 && p[0] >= 32 && p[0] != 34 && p[0] != 92)
    || (|p| == 2 && p[0] == 92 && Escapable(p[1]))
    || (|p| == 6 && p[0] == 92 && p[1] == 117
        && Hexadecimal(p[2]) && Hexadecimal(p[3]) && Hexadecimal(p[4]) && Hexadecimal(p[5]))
  }

  predicate Pieces(ps: seq<Str>) { forall i :: 0 <= i < |ps| ==> Piece(ps[i]) }

  predicate Whole(s: Str) { s == [48] || (s != [] && AllDigits(s) && s[0] != 48) }

  predicate Fraction(s: Str) { s == [] || (|s| > 1 && s[0] == 46 && AllDigits(s[1..])) }

  predicate Exponent(s: Str) {
    s == [] || (E(s) && AllDigits(AfterSign(s[1..])) && AfterSign(s[1..]) != [])
  }

  predicate Wf(t: Tree)
    decreases t, 1
  {
    match t
    case StringT(ps) => Pieces(ps)
    case WordT(w) => w == TRUE || w == FALSE || w == NULL
    case NumberT(_, w, f, e) => Whole(w) && Fraction(f) && Exponent(e)
    case BoxT(_, gap, es) => Spaces(gap) && WfEntries(es)
  }

  predicate WfEntries(es: Entries)
    decreases es, 0
  {
    match es
    case NoEntries => true
    case Entry(lead, key, gap, before, v, trail, more) =>
      Spaces(lead) && Pieces(key) && Spaces(gap) && Spaces(before) && Spaces(trail) && Wf(v) && WfEntries(more)
  }

  function Concat(ps: seq<Str>): Str { if ps == [] then [] else ps[0] + Concat(ps[1..]) }

  function Sign(minus: bool): Str { if minus then [45] else [] }

  /** The text a tree spells, followed by x. */
  function Spell(t: Tree, x: Str): Str
    decreases t, 1
  {
    match t
    case StringT(ps) => [34] + (Concat(ps) + ([34] + x))
    case WordT(w) => w + x
    case NumberT(m, w, f, e) => Sign(m) + (w + (f + (e + x)))
    case BoxT(obj, gap, es) =>
      [Open(obj)] + if es.NoEntries? then gap + ([Close(obj)] + x) else SpellEntries(es, obj, x)
  }

  /** Entries, the closing bracket, and x. */
  function SpellEntries(es: Entries, obj: bool, x: Str): Str
    decreases es, 0
  {
    match es
    case NoEntries => [Close(obj)] + x
    case Entry(lead, key, gap, before, v, trail, more) =>
      SpellKey(es, obj, Spell(v, trail + (if more.NoEntries? then [Close(obj)] + x
          else [44] + SpellEntries(more, obj, x))))
  }

  /** What comes before an entry's value. */
  function SpellKey(e: Entries, obj: bool, x: Str): Str
    requires e.Entry?
  {
    e.lead + if obj then [34] + (Concat(e.key) + ([34] + (e.gap + ([58] + (e.before + x))))) else x
  }

  /** A JSON text: spaces, a value, spaces. */
  ghost predicate Spells(t: Str, lead: Str, tree: Tree, trail: Str) {
    Spaces(lead) && Spaces(trail) && Wf(tree) && t == lead + Spell(tree, trail)
  }

  ghost predicate Valid(t: Str) { exists lead, tree, trail :: Spells(t, lead, tree, trail) }

  ghost predicate Completable(t: Str) { exists s :: Valid(t + s) }

  /** Nesting below the root; an empty container has none. */
  function Nesting(t: Tree): nat
    decreases t, 1
  {
    if t.BoxT? then EntriesNesting(t.entries) else 0
  }

  function EntriesNesting(es: Entries): nat
    decreases es, 0
  {
    match es case NoEntries => 0 case Entry(_, _, _, _, v, _, more) => Max(1 + Nesting(v), EntriesNesting(more))
  }

  // ---- what a grammatical text reads as ----

  /** Nothing, or a unit that can follow a value. */
  predicate Follows(x: Str) { x == [] || Space(x[0]) || x[0] == 44 || x[0] == 93 || x[0] == 125 }

  lemma {:induction false} SkipsSpaces(s: Str, x: Str)
    requires Spaces(s)
    ensures SkipSpace(s + x) == SkipSpace(x)
  {
    if s == [] {
      assert s + x == x;
    } else {
      SkipsSpaces(s[1..], x);
      assert (s + x)[1..] == s[1..] + x;
    }
  }

  lemma HexReads(p: Str, x: Str)
    requires Piece(p) && |p| == 6
    ensures HexRun((p + x)[2..], 4) == Rest(x)
  {
    var t := (p + x)[2..];
    assert HexRun(t[4..], 0) == Rest(x) by { assert t[4..] == x; }
    assert HexRun(t[3..], 1) == Rest(x) by { assert t[3..][1..] == t[4..]; }
    assert HexRun(t[2..], 2) == Rest(x) by { assert t[2..][1..] == t[3..]; }
    assert HexRun(t[1..], 3) == Rest(x) by { assert t[1..][1..] == t[2..]; }
  }

  lemma PieceReads(p: Str, x: Str)
    requires Piece(p)
    ensures Chars(p + x) == Chars(x)
  {
    hide HexRun;
    CharsCases(p + x);
    if |p| == 6 {
      HexReads(p, x);
    } else if |p| == 2 {
      assert (p + x)[2..] == x;
    } else {
      assert (p + x)[1..] == x;
    }
  }

  lemma {:induction false} CharsRead(ps: seq<Str>, x: Str)
    requires Pieces(ps)
    ensures Chars(Concat(ps) + ([34] + x)) == Rest(x)
  {
    hide Chars, Piece;
    if ps == [] {
      assert Concat(ps) + ([34] + x) == [34] + x && ([34] + x)[1..] == x;
      CharsCases([34] + x);
    } else {
      CharsRead(ps[1..], x);
      PieceReads(ps[0], Concat(ps[1..]) + ([34] + x));
      assert Concat(ps) + ([34] + x) == ps[0] + (Concat(ps[1..]) + ([34] + x));
    }
  }

  lemma QuotedReads(lead: Str, ps: seq<Str>, x: Str)
    requires Spaces(lead) && Pieces(ps)
    ensures Quoted(lead + ([34] + (Concat(ps) + ([34] + x)))) == Rest(x)
  {
    hide Chars, Concat;
    var t := [34] + (Concat(ps) + ([34] + x));
    SkipsSpaces(lead, t);
    assert t[1..] == Concat(ps) + ([34] + x);
    CharsRead(ps, x);
  }

  lemma {:induction false} WordReads(w: Str, x: Str)
    ensures Word(w + x, w) == Rest(x)
  {
    if w == [] {
      assert w + x == x;
    } else {
      WordReads(w[1..], x);
      assert (w + x)[1..] == w[1..] + x;
    }
  }

  lemma {:induction false} DigitsRead(d: Str, x: Str)
    requires AllDigits(d) && (x == [] || !Digit(x[0]))
    ensures DropDigits(d + x) == x
  {
    if d == [] {
      assert d + x == x;
    } else {
      DigitsRead(d[1..], x);
      assert (d + x)[1..] == d[1..] + x;
    }
  }

  lemma WholeReads(m: bool, w: Str, x: Str)
    requires Whole(w) && (x == [] || !Digit(x[0]))
    ensures AfterInt(Sign(m) + (w + x)) == Rest(x)
  {
    hide DropDigits;
    var t := Sign(m) + (w + x);
    assert (if m then t[1..] else t) == w + x;
    assert (w + x)[1..] == w[1..] + x;
    DigitsRead(w[1..], x);
    if w == [48] { assert w[1..] + x == x; }
  }

  lemma FractionReads(f: Str, x: Str)
    requires Fraction(f) && (x == [] || (!Digit(x[0]) && x[0] != 46))
    ensures AfterFraction(f + x) == x
  {
    hide DropDigits;
    if f == [] {
      assert f + x == x;
    } else {
      assert (f + x)[2..] == f[2..] + x;
      DigitsRead(f[2..], x);
    }
  }

  lemma TailJoin(a: Str, x: Str)
    requires a != []
    ensures (a + x)[1..] == a[1..] + x && (a + x)[0] == a[0]
  {
  }

  lemma ExponentReads(e: Str, x: Str)
    requires Exponent(e) && Follows(x)
    ensures AfterExponent(e + x) == x
  {
    hide DropDigits;
    if e == [] {
      assert e + x == x;
    } else {
      assert (e + x)[1..] == e[1..] + x;
      var v := AfterSign(e[1..]);
      assert AfterSign(e[1..] + x) == v + x;
      TailJoin(v, x);
      DigitsRead(v[1..], x);
    }
  }

  lemma NumberReads(m: bool, w: Str, f: Str, e: Str, x: Str)
    requires Whole(w) && Fraction(f) && Exponent(e) && Follows(x)
    ensures Number(Sign(m) + (w + (f + (e + x)))) == Rest(x)
  {
    hide AfterInt, AfterFraction, AfterExponent, AfterSign, Whole, Sign, AllDigits;
    var a := f + (e + x);
    assert e == [] ==> e + x == x;
    assert f == [] ==> a == e + x;
    WholeReads(m, w, a);
    FractionReads(f, e + x);
    ExponentReads(e, x);
  }

  /** What a value's text starts with. */
  lemma StartsValue(t: Tree, x: Str)
    requires Wf(t)
    ensures var u := Spell(t, x);
      u != [] && !Space(u[0]) && u[0] != 93 && u[0] != 125 && u[0] != 44
      && (t.BoxT? <==> u[0] == 123 || u[0] == 91)
      && (t.NumberT? ==> u[0] == 45 || Digit(u[0])) && (t.StringT? ==> u[0] == 34) && (t.WordT? ==> u[0] == t.word[0])
  {
    hide SpellEntries, Concat;
  }

  lemma ScalarReads(t: Tree, x: Str)
    requires Wf(t) && !t.BoxT? && Follows(x)
    ensures Scalar(Spell(t, x)) == Rest(x)
  {
    hide Quoted, Word, Number, Concat;
    StartsValue(t, x);
    match t
    case StringT(ps) =>
      QuotedReads([], ps, x);
      assert [] + ([34] + (Concat(ps) + ([34] + x))) == [34] + (Concat(ps) + ([34] + x));
    case WordT(w) => WordReads(w, x);
    case NumberT(m, w, f, e) => NumberReads(m, w, f, e, x);
  }

  /** A grammatical value is read whole, unless it nests deeper than the limit. */
  lemma {:induction false} ValueReads(lead: Str, t: Tree, x: Str, d: nat, limit: nat)
    requires Spaces(lead) && Wf(t) && Follows(x)
    ensures ScanValue(lead + Spell(t, x), d, limit) ==
      if d > limit || d + Nesting(t) > limit then Stopped(TooDeep) else Rest(x)
    decreases t, 1
  {
    hide Spell, SpellEntries, Scalar, ScanEntries, Wf;
    if d <= limit {
      var u := Spell(t, x);
      SkipsSpaces(lead, u);
      StartsValue(t, x);
      SkipStops(u);
      if t.BoxT? { BoxReads(t, x, d, limit); } else { ScalarReads(t, x); }
    }
  }

  lemma SkipStops(u: Str)
    requires u == [] || !Space(u[0])
    ensures SkipSpace(u) == u
  {
  }

  lemma {:induction false} BoxReads(t: Tree, x: Str, d: nat, limit: nat)
    requires Wf(t) && t.BoxT? && d <= limit
    ensures var u := Spell(t, x);
      u[0] == Open(t.obj) && SkipSpace(u) == u
      && var v := SkipSpace(u[1..]);
      (if v != [] && v[0] == Close(t.obj) then Rest(v[1..]) else ScanEntries(v, d, limit, t.obj)) ==
        if d + Nesting(t) > limit then Stopped(TooDeep) else Rest(x)
    decreases t, 0
  {
    hide SpellEntries, ScanEntries;
    var u := Spell(t, x);
    if t.entries.NoEntries? {
      assert u[1..] == t.gap + ([Close(t.obj)] + x);
      SkipsSpaces(t.gap, [Close(t.obj)] + x);
      assert ([Close(t.obj)] + x)[1..] == x;
    } else {
      var v := SpellEntries(t.entries, t.obj, x);
      assert u[1..] == v;
      EntriesRead(t.entries, t.obj, x, d, limit);
      EntriesStart(t.entries, t.obj, x);
      EntriesSkip(v, d, limit, t.obj);
    }
  }

  /** Leading spaces of entries do not matter. */
  lemma EntriesSkip(v: Str, d: nat, limit: nat, obj: bool)
    ensures ScanEntries(SkipSpace(v), d, limit, obj) == ScanEntries(v, d, limit, obj)
  {
    hide Chars, Scalar;
    SkipStops(SkipSpace(v));
  }

  /** The first unit of entries after spaces is not a closing bracket. */
  lemma EntriesStart(es: Entries, obj: bool, x: Str)
    requires WfEntries(es) && es.Entry?
    ensures var v := SkipSpace(SpellEntries(es, obj, x)); v != [] && v[0] != 93 && v[0] != 125
  {
    hide Concat, Spell;
    var tail := es.trail + (if es.more.NoEntries? then [Close(obj)] + x else [44] + SpellEntries(es.more, obj, x));
    StartsValue(es.value, tail);
    var y := SpellKey(es, obj, Spell(es.value, tail));
    SkipsSpaces(es.lead, y[|es.lead|..]);
    assert y == es.lead + y[|es.lead|..];
    SkipStops(y[|es.lead|..]);
  }

  lemma KeyReads(es: Entries, obj: bool, x: Str)
    requires WfEntries(es) && es.Entry?
    ensures ScanKey(SpellKey(es, obj, x), obj) == Rest(if obj then es.before + x else es.lead + x)
  {
    hide Quoted, Concat;
    if obj {
      var y := [58] + (es.before + x);
      QuotedReads(es.lead, es.key, es.gap + y);
      SkipsSpaces(es.gap, y);
      assert y[1..] == es.before + x;
    }
  }

  lemma {:induction false} EntriesRead(es: Entries, obj: bool, x: Str, d: nat, limit: nat)
    requires WfEntries(es) && es.Entry? && d <= limit
    ensures ScanEntries(SpellEntries(es, obj, x), d, limit, obj) ==
      if d + EntriesNesting(es) > limit then Stopped(TooDeep) else Rest(x)
    decreases es, 0
  {
    hide Spell, SpellKey, ScanKey, ScanValue, SkipSpace;
    var next := if es.more.NoEntries? then [Close(obj)] + x else [44] + SpellEntries(es.more, obj, x);
    KeyReads(es, obj, Spell(es.value, es.trail + next));
    TrailFollows(es.trail, next);
    ValueReads(if obj then es.before else es.lead, es.value, es.trail + next, d + 1, limit);
    SkipsSpaces(es.trail, next);
    SkipStops(next);
    if es.more.NoEntries? {
      assert next[1..] == x;
    } else {
      assert next[1..] == SpellEntries(es.more, obj, x);
      EntriesRead(es.more, obj, x, d, limit);
    }
  }

  lemma TrailFollows(trail: Str, next: Str)
    requires Spaces(trail) && Follows(next)
    ensures Follows(trail + next)
  {
    if trail == [] { assert trail + next == next; }
  }
}
