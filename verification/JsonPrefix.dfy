/** isIncompleteJson is true exactly of the invalid texts that some suffix makes valid, as far as
    the nesting limit lets it look. */
module JsonPrefix {
  import opened ItemLists
  import opened Json
  import opened JsonScanner
  import opened JsonGrammar
  import opened JsonCompletion
  import opened JsonGuard

  // ---- more text after what was decided changes nothing ----

  lemma {:induction false} SkipMore(t: Str, s: Str)
    ensures SkipSpace(t) != [] ==> SkipSpace(t + s) == SkipSpace(t) + s
  {
    if t != [] && Space(t[0]) {
      SkipMore(t[1..], s);
      assert (t + s)[1..] == t[1..] + s;
    }
  }

  lemma {:induction false} HexMore(t: Str, s: Str, n: nat)
    ensures HexRun(t, n).Rest? ==> HexRun(t + s, n) == Rest(HexRun(t, n).x + s)
    ensures HexRun(t, n) == Stopped(Invalid) ==> HexRun(t + s, n) == Stopped(Invalid)
    decreases n
  {
    if n > 0 && t != [] {
      HexMore(t[1..], s, n - 1);
      assert (t + s)[1..] == t[1..] + s;
    }
  }

  lemma {:induction false} CharsMore(t: Str, s: Str)
    ensures Chars(t).Rest? ==> Chars(t + s) == Rest(Chars(t).x + s)
    ensures Chars(t) == Stopped(Invalid) ==> Chars(t + s) == Stopped(Invalid)
    decreases |t|
  {
    hide HexRun, Chars;
    if t != [] {
      CharsCases(t);
      CharsCases(t + s);
      assert (t + s)[1..] == t[1..] + s;
      CharsMore(t[1..], s);
      if |t| > 1 {
        assert (t + s)[2..] == t[2..] + s;
        CharsMore(t[2..], s);
        HexMore(t[2..], s, 4);
        if HexRun(t[2..], 4).Rest? { CharsMore(HexRun(t[2..], 4).x, s); }
      }
    } else {
      assert Chars([]) == Stopped(Incomplete) by { EmptyChars(); }
    }
  }

  lemma EmptyChars()
    ensures Chars([]) == Stopped(Incomplete)
  {
  }

  /** r is kept when s is added: a position, or a verdict of invalid. */
  predicate Keeps(r: Scan, s: Str, more: Scan) {
    && (r.Rest? ==> more == Rest(r.x + s))
    && (r == Stopped(Invalid) ==> more == r)
  }

  lemma NeedMore(t: Str, c: CodeUnit, s: Str)
    ensures Keeps(Need(t, c), s, Need(t + s, c))
  {
    SkipMore(t, s);
  }

  lemma QuotedMore(t: Str, s: Str)
    ensures Keeps(Quoted(t), s, Quoted(t + s))
  {
    hide Need, Chars;
    NeedMore(t, 34, s);
    if Need(t, 34).Rest? { CharsMore(Need(t, 34).x, s); }
  }

  lemma {:induction false} WordMore(t: Str, w: Str, s: Str)
    ensures Keeps(Word(t, w), s, Word(t + s, w))
  {
    if w != [] && t != [] {
      WordMore(t[1..], w[1..], s);
      assert (t + s)[1..] == t[1..] + s;
    }
  }

  lemma {:induction false} DigitsMore(t: Str, s: Str)
    ensures DropDigits(t) != [] ==> DropDigits(t + s) == DropDigits(t) + s
  {
    if t != [] && Digit(t[0]) {
      DigitsMore(t[1..], s);
      assert (t + s)[1..] == t[1..] + s;
    }
  }

  lemma IntMore(t: Str, s: Str)
    requires t != []
    ensures AfterInt(t).Rest? && AfterInt(t).x != [] ==> AfterInt(t + s) == Rest(AfterInt(t).x + s)
    ensures AfterInt(t).Stopped? && t != [45] ==> AfterInt(t + s).Stopped?
  {
    hide DropDigits;
    var u := if t[0] == 45 then t[1..] else t;
    assert (if (t + s)[0] == 45 then (t + s)[1..] else t + s) == u + s;
    if u != [] {
      assert (u + s)[1..] == u[1..] + s;
      DigitsMore(u[1..], s);
    }
  }

  lemma FractionMore(a: Str, s: Str)
    requires AfterFraction(a) != [] && a != [46]
    ensures AfterFraction(a + s) == AfterFraction(a) + s
  {
    hide DropDigits;
    if |a| > 1 {
      assert (a + s)[2..] == a[2..] + s;
      DigitsMore(a[2..], s);
    }
  }

  lemma SignMore(u: Str, s: Str)
    requires u != []
    ensures AfterSign(u + s) == AfterSign(u) + s
  {
  }

  lemma ExponentMore(b: Str, s: Str)
    requires AfterExponent(b) != [] && !(E(b) && AfterSign(b[1..]) == [])
    ensures AfterExponent(b + s) == AfterExponent(b) + s
  {
    hide DropDigits, AfterSign;
    if E(b) {
      assert (b + s)[1..] == b[1..] + s;
      var v := AfterSign(b[1..]);
      NoSign();
      SignMore(b[1..], s);
      assert (v + s)[1..] == v[1..] + s;
      DigitsMore(v[1..], s);
    }
  }

  lemma NoSign()
    ensures AfterSign([]) == []
  {
  }

  /** A number followed by something stays the number it is. */
  lemma NumberMore(t: Str, s: Str)
    requires t != []
    ensures Number(t) == Stopped(Invalid) ==> Number(t + s) == Stopped(Invalid)
    ensures Number(t).Rest? && Number(t).x != [] ==> Number(t + s) == Rest(Number(t).x + s)
  {
    hide AfterInt, AfterFraction, AfterExponent, AfterSign;
    IntMore(t, s);
    if Number(t).Rest? && Number(t).x != [] {
      NumberParts(t);
      var a := AfterInt(t).x;
      var b := AfterFraction(a);
      var c := AfterExponent(b);
      FractionMore(a, s);
      ExponentMore(b, s);
      NotCut(a, b, c, s);
    }
  }

  /** A number that ends before the text does leaves no part of itself pending. */
  lemma NumberParts(t: Str)
    requires Number(t).Rest? && Number(t).x != []
    ensures AfterInt(t).Rest?
    ensures var a := AfterInt(t).x;
      var b := AfterFraction(a);
      var c := AfterExponent(b);
      a != [] && b != [] && c != [] && a != [46] && !(E(b) && AfterSign(b[1..]) == []) && Number(t) == Rest(c)
  {
    hide DropDigits, AfterInt, AfterSign;
    var a := AfterInt(t).x;
    var b := AfterFraction(a);
  }

  lemma NotCut(a: Str, b: Str, c: Str, s: Str)
    requires c != [] && !(c == [46] && |c| == |a|) && !(E(c) && AfterSign(c[1..]) == [] && |c| == |b|)
    ensures !(c + s == [46] && |c + s| == |a + s|)
    ensures !(E(c + s) && AfterSign((c + s)[1..]) == [] && |c + s| == |b + s|)
  {
    assert (c + s)[1..] == c[1..] + s;
    if s == [] { assert c + s == c; } else if c[1..] != [] { SignMore(c[1..], s); }
  }

  lemma ScalarMore(u: Str, s: Str)
    requires u != [] && u[0] != 123 && u[0] != 91
    ensures Scalar(u) == Stopped(Invalid) ==> Scalar(u + s) == Stopped(Invalid)
    ensures Scalar(u).Rest? && Scalar(u).x != [] ==> Scalar(u + s) == Rest(Scalar(u).x + s)
  {
    hide Quoted, Word, Number;
    assert (u + s)[0] == u[0];
    if u[0] == 34 {
      QuotedMore(u, s);
    } else if u[0] == 116 {
      WordMore(u, TRUE, s);
    } else if u[0] == 102 {
      WordMore(u, FALSE, s);
    } else if u[0] == 110 {
      WordMore(u, NULL, s);
    } else {
      NumberMore(u, s);
    }
  }

  /** As Keeps, under a limit that may be lower and so be reached earlier. */
  predicate KeepsUnder(r: Scan, s: Str, more: Scan, limit: nat, low: nat) {
    && (r.Rest? ==> more == Rest(r.x + s) || (low < limit && more == Stopped(TooDeep)))
    && (r == Stopped(Invalid) ==> more == r || (low < limit && more == Stopped(TooDeep)))
  }

  predicate Boxed(t: Str) { SkipSpace(t) != [] && (SkipSpace(t)[0] == 123 || SkipSpace(t)[0] == 91) }

  /** A scalar that reaches the end of the text may still grow; nothing else may. */
  lemma {:induction false} ValueMore(t: Str, s: Str, d: nat, limit: nat, low: nat)
    requires low <= limit
    ensures var r := ScanValue(t, d, limit);
      (r.Rest? && r.x == [] && !Boxed(t)) || KeepsUnder(r, s, ScanValue(t + s, d, low), limit, low)
    decreases |t|, 1
  {
    hide Scalar, SkipSpace, ScanEntries;
    if d <= low {
      SkipMore(t, s);
      var u := SkipSpace(t);
      if u != [] {
        assert (u + s)[0] == u[0];
        if u[0] != 123 && u[0] != 91 {
          ScalarMore(u, s);
        } else {
          assert (u + s)[1..] == u[1..] + s;
          BoxMore(u, s, d, limit, low);
        }
      }
    }
  }

  lemma {:induction false} BoxMore(u: Str, s: Str, d: nat, limit: nat, low: nat)
    requires low <= limit && u != [] && d <= low
    ensures var obj := u[0] == 123;
      var v, w := SkipSpace(u[1..]), SkipSpace(u[1..] + s);
      var r := if v != [] && v[0] == Close(obj) then Rest(v[1..]) else ScanEntries(v, d, limit, obj);
      var more := if w != [] && w[0] == Close(obj) then Rest(w[1..]) else ScanEntries(w, d, low, obj);
      KeepsUnder(r, s, more, limit, low)
    decreases |u|, 0
  {
    hide SkipSpace, ScanEntries;
    var obj := u[0] == 123;
    var v := SkipSpace(u[1..]);
    SkipMore(u[1..], s);
    if v == [] {
      EmptyEntries(d, limit, obj);
    } else {
      assert (v + s)[0] == v[0] && (v + s)[1..] == v[1..] + s;
      EntriesMore(v, s, d, limit, low, obj);
    }
  }

  lemma EmptyEntries(d: nat, limit: nat, obj: bool)
    ensures ScanEntries([], d, limit, obj) == Stopped(if !obj && d + 1 > limit then TooDeep else Incomplete)
  {
  }

  lemma KeyMore(t: Str, obj: bool, s: Str)
    ensures Keeps(ScanKey(t, obj), s, ScanKey(t + s, obj))
  {
    hide Quoted, Need;
    if obj {
      QuotedMore(t, s);
      if Quoted(t).Rest? { NeedMore(Quoted(t).x, 58, s); }
    }
  }

  lemma {:induction false} EntriesMore(t: Str, s: Str, d: nat, limit: nat, low: nat, obj: bool)
    requires low <= limit
    ensures KeepsUnder(ScanEntries(t, d, limit, obj), s, ScanEntries(t + s, d, low, obj), limit, low)
    decreases |t|, 2
  {
    hide SkipSpace, ScanKey, ScanValue;
    KeyMore(t, obj, s);
    if ScanKey(t, obj).Rest? {
      var y := ScanKey(t, obj).x;
      ValueMore(y, s, d + 1, limit, low);
      if ScanValue(y, d + 1, limit).Rest? {
        var z := ScanValue(y, d + 1, limit).x;
        SkipMore(z, s);
        var w := SkipSpace(z);
        if w == [] {
          assert ScanEntries(t, d, limit, obj) == Stopped(Incomplete);
        } else {
          NonEmptySkip(z);
          assert (w + s)[0] == w[0] && (w + s)[1..] == w[1..] + s;
          if w[0] == 44 { EntriesMore(w[1..], s, d, limit, low, obj); }
        }
      }
    }
  }

  lemma NonEmptySkip(z: Str)
    ensures SkipSpace(z) != [] ==> z != []
  {
  }

  // ---- a text given up as too deep is too deep for a limit one lower, however it goes on ----

  lemma {:induction false} ValueDeep(t: Str, s: Str, d: nat, limit: nat)
    requires 0 < limit && d <= limit && ScanValue(t, d, limit) == Stopped(TooDeep)
    ensures ScanValue(t + s, d, limit - 1) == Stopped(TooDeep)
    decreases |t|, 1
  {
    hide Scalar, SkipSpace, ScanEntries;
    if d < limit {
      SkipMore(t, s);
      var u := SkipSpace(t);
      assert (u + s)[0] == u[0] && (u + s)[1..] == u[1..] + s;
      var obj := u[0] == 123;
      var v := SkipSpace(u[1..]);
      SkipMore(u[1..], s);
      if v == [] {
        EmptyEntries(d, limit, obj);
      } else {
        assert (v + s)[0] == v[0];
        EntriesDeep(v, s, d, limit, obj);
      }
    }
  }

  lemma {:induction false} EntriesDeep(t: Str, s: Str, d: nat, limit: nat, obj: bool)
    requires 0 < limit && d < limit && ScanEntries(t, d, limit, obj) == Stopped(TooDeep)
    ensures ScanEntries(t + s, d, limit - 1, obj) == Stopped(TooDeep)
    decreases |t|, 2
  {
    hide SkipSpace, ScanKey, ScanValue;
    KeyMore(t, obj, s);
    var y := ScanKey(t, obj).x;
    if ScanValue(y, d + 1, limit).Stopped? {
      ValueDeep(y, s, d + 1, limit);
    } else {
      ValueMore(y, s, d + 1, limit, limit - 1);
      var z := ScanValue(y, d + 1, limit).x;
      SkipMore(z, s);
      NonEmptySkip(z);
      var w := SkipSpace(z);
      assert (w + s)[0] == w[0] && (w + s)[1..] == w[1..] + s;
      EntriesDeep(w[1..], s, d, limit, obj);
    }
  }

  // ---- the answers ----

  function Scanned(t: Str): Scan { ScanValue(t, 0, MAX_NESTING) }

  lemma ValidReads(t: Str, lead: Str, tree: Tree, trail: Str, limit: nat)
    requires Spells(t, lead, tree, trail)
    ensures ScanValue(t, 0, limit) == if Nesting(tree) > limit then Stopped(TooDeep) else Rest(trail)
  {
    ValueReads(lead, tree, trail, 0, limit);
  }

  /** What has a valid completion and is neither incomplete nor too deep has been read to its end. */
  lemma Finished(t: Str, s: Str) returns (x: Str)
    requires Scanned(t) != Stopped(Incomplete) && Scanned(t) != Stopped(TooDeep) && Valid(t + s)
    ensures Scanned(t) == Rest(x) && Spaces(x)
  {
    hide ScanValue, Spells;
    var lead, tree, trail :| Spells(t + s, lead, tree, trail);
    ValidReads(t + s, lead, tree, trail, MAX_NESTING);
    ValueMore(t, s, 0, MAX_NESTING, MAX_NESTING);
    var more := Scanned(t + s);
    var r := Scanned(t);
    assert r.Rest? || r.why == Incomplete || r.why == Invalid || r.why == TooDeep;
    x := r.x;
    if x != [] { TrailPart(x, s, trail, lead, tree, t); }
  }

  /** So it is valid already. */
  lemma Decided(t: Str, s: Str)
    requires Scanned(t) != Stopped(Incomplete) && Scanned(t) != Stopped(TooDeep) && Valid(t + s)
    ensures Valid(t)
  {
    hide ScanValue, Spells;
    var x := Finished(t, s);
    var l, v := ValueSpell(t, 0, MAX_NESTING);
    SpellsIs(t, l, v, x);
  }

  lemma SpellsIs(t: Str, lead: Str, tree: Tree, trail: Str)
    requires Spaces(lead) && Spaces(trail) && Wf(tree) && t == lead + Spell(tree, trail)
    ensures Spells(t, lead, tree, trail)
  {
  }

  lemma TrailPart(x: Str, s: Str, trail: Str, lead: Str, tree: Tree, t: Str)
    requires x + s == trail && Spells(t + s, lead, tree, trail)
    ensures Spaces(x)
  {
    assert forall i :: 0 <= i < |x| ==> trail[i] == x[i];
  }

  lemma ValidNotIncomplete(t: Str)
    requires Valid(t)
    ensures Scanned(t) != Stopped(Incomplete)
  {
    hide ScanValue, Spells;
    var lead, tree, trail :| Spells(t, lead, tree, trail);
    ValidReads(t, lead, tree, trail, MAX_NESTING);
  }

  lemma IncompleteCompletes(t: Str)
    requires Scanned(t) == Stopped(Incomplete)
    ensures Completable(t)
  {
    hide ScanValue, Spells;
    var lead, tree, s := ValueExtend(t, 0, MAX_NESTING);
    SpellsIs(t + s, lead, tree, []);
    assert Valid(t + s);
  }

  /** A text with a completion is given up exactly when its brackets are nested too deep. */
  lemma GivenUpIff(t: Str)
    requires Completable(t)
    ensures Scanned(t) == Stopped(TooDeep) <==> TooNested(t, 0)
  {
    hide ScanValue, Valid, TooNested;
    ValueGuarded(t, 0);
    if Scanned(t) != Stopped(TooDeep) && Scanned(t) != Stopped(Incomplete) {
      var s :| Valid(t + s);
      var x := Finished(t, s);
      SpacesGuarded(x, 0);
    }
  }

  lemma {:induction false} SpacesGuarded(x: Str, n: nat)
    requires Spaces(x)
    ensures !TooNested(x, n)
  {
    if x != [] { SpacesGuarded(x[1..], n); }
  }

  /** The answer for every text: true exactly for the texts that are not valid JSON, that some
      suffix makes valid JSON, and whose brackets stay within the nesting limit. */
  lemma IncompleteIff(t: Str)
    ensures Scanned(t) == Stopped(Incomplete) <==> !Valid(t) && Completable(t) && !TooNested(t, 0)
  {
    hide Scanned, Valid, TooNested;
    if Scanned(t) == Stopped(Incomplete) {
      IncompleteCompletes(t);
      if Valid(t) { ValidNotIncomplete(t); }
      GivenUpIff(t);
    } else if Completable(t) {
      GivenUpIff(t);
      if Scanned(t) != Stopped(TooDeep) {
        var s :| Valid(t + s);
        Decided(t, s);
      }
    }
  }

  /** isIncompleteJson, one pass of the cursor. */
  method IsIncompleteJson(text: Str) returns (r: bool)
    ensures r <==> !Valid(text) && Completable(text) && !TooNested(text, 0)
  {
    hide ScanValue, Valid, TooNested;
    IncompleteIff(text);
    var reader := new Recogniser(text);
    var stop := reader.ReadValue(0);
    assert text[0..] == text;
    r := stop == Some(Incomplete);
  }

  /** The guard gives up no text with a valid completion of nesting below the limit. */
  lemma ShallowIff(t: Str, s: Str, lead: Str, tree: Tree, trail: Str)
    requires Spells(t + s, lead, tree, trail) && Nesting(tree) < MAX_NESTING
    ensures Scanned(t) == Stopped(Incomplete) <==> !Valid(t)
  {
    hide ScanValue, Spells, Valid;
    if Scanned(t) == Stopped(TooDeep) {
      ValueDeep(t, s, 0, MAX_NESTING);
      ValidReads(t + s, lead, tree, trail, MAX_NESTING - 1);
    }
    assert Valid(t + s) by { ValidBy(t + s, lead, tree, trail); }
    IncompleteIff(t);
    GivenUpIff(t);
  }

  lemma ValidBy(t: Str, lead: Str, tree: Tree, trail: Str)
    requires Spells(t, lead, tree, trail)
    ensures Valid(t)
  {
  }
}
