/** The nesting guard, read off the text: which texts the recogniser gives up as too deep. */
module JsonGuard {
  import opened Json
  import opened JsonScanner

  /** The text after the quote that closes a string, nothing when it stays open. */
  function AfterString(t: Str): (u: Str)
    ensures |u| <= |t|
  {
    if t == [] then []
    else if t[0] == 34 then t[1..]
    else if t[0] != 92 then AfterString(t[1..])
    else if |t| == 1 then []
    else AfterString(t[2..])
  }

  /** With open brackets before t: outside strings, an array bracket beyond the limit that is not
      closed at once, or a colon inside more brackets than the limit. */
  predicate TooNested(t: Str, open: nat)
    decreases |t|
  {
    if t == [] then false
    else if t[0] == 34 then TooNested(AfterString(t[1..]), open)
    else if t[0] == 123 then TooNested(t[1..], open + 1)
    else if t[0] == 91 then (open >= MAX_NESTING && !ClosesNext(t[1..])) || TooNested(t[1..], open + 1)
    else if t[0] == 125 || t[0] == 93 then TooNested(t[1..], if open == 0 then 0 else open - 1)
    else if t[0] == 58 then open > MAX_NESTING || TooNested(t[1..], open)
    else TooNested(t[1..], open)
  }

  predicate ClosesNext(t: Str) { SkipSpace(t) != [] && SkipSpace(t)[0] == 93 }

  /** Neither a bracket, a quote nor a colon. */
  predicate Plain(c: CodeUnit) { c != 34 && c != 123 && c != 91 && c != 125 && c != 93 && c != 58 }

  // ---- text the guard does not look at ----

  lemma {:induction false} SpacesPlain(t: Str, n: nat)
    ensures TooNested(SkipSpace(t), n) == TooNested(t, n)
  {
    if t != [] && Space(t[0]) { SpacesPlain(t[1..], n); }
  }

  lemma {:induction false} DigitsPlain(t: Str, n: nat)
    ensures TooNested(DropDigits(t), n) == TooNested(t, n)
  {
    if t != [] && Digit(t[0]) { DigitsPlain(t[1..], n); }
  }

  lemma {:induction false} WordPlain(t: Str, w: Str, n: nat)
    requires forall i :: 0 <= i < |w| ==> Plain(w[i])
    ensures Word(t, w).Rest? ==> TooNested(Word(t, w).x, n) == TooNested(t, n)
    ensures Word(t, w) == Stopped(Incomplete) ==> !TooNested(t, n)
    decreases |w|
  {
    if w != [] && t != [] && t[0] == w[0] { WordPlain(t[1..], w[1..], n); }
  }

  lemma IntPlain(t: Str, n: nat)
    requires AfterInt(t).Rest?
    ensures TooNested(AfterInt(t).x, n) == TooNested(t, n)
  {
    var u := if t[0] == 45 then t[1..] else t;
    DigitsPlain(u[1..], n);
  }

  lemma FractionPlain(t: Str, n: nat)
    ensures TooNested(AfterFraction(t), n) == TooNested(t, n)
  {
    if |t| > 1 && t[0] == 46 && Digit(t[1]) {
      DigitsPlain(t[2..], n);
      assert t[1..][1..] == t[2..];
    }
  }

  lemma SignPlain(t: Str, n: nat)
    ensures TooNested(AfterSign(t), n) == TooNested(t, n)
  {
  }

  lemma ExponentPlain(t: Str, n: nat)
    ensures TooNested(AfterExponent(t), n) == TooNested(t, n)
  {
    if E(t) && AfterSign(t[1..]) != [] && Digit(AfterSign(t[1..])[0]) {
      var v := AfterSign(t[1..]);
      SignPlain(t[1..], n);
      assert TooNested(v, n) == TooNested(v[1..], n);
      DigitsPlain(v[1..], n);
    }
  }

  lemma CutPlain(c: Str, n: nat)
    ensures c == [46] || (E(c) && AfterSign(c[1..]) == []) ==> !TooNested(c, n)
  {
    if E(c) { SignPlain(c[1..], n); }
  }

  lemma NumberPlain(t: Str, n: nat)
    ensures Number(t).Rest? ==> TooNested(Number(t).x, n) == TooNested(t, n)
    ensures Number(t) == Stopped(Incomplete) ==> !TooNested(t, n)
  {
    hide AfterInt, AfterFraction, AfterExponent;
    if AfterInt(t).Rest? {
      IntPlain(t, n);
      FractionPlain(AfterInt(t).x, n);
      ExponentPlain(AfterFraction(AfterInt(t).x), n);
      CutPlain(AfterExponent(AfterFraction(AfterInt(t).x)), n);
    }
  }

  // ---- strings ----

  lemma {:induction false} HexSkipped(t: Str, k: nat)
    ensures HexRun(t, k).Rest? ==> AfterString(t) == AfterString(HexRun(t, k).x)
    ensures HexRun(t, k) == Stopped(Incomplete) ==> AfterString(t) == []
    decreases k
  {
    if k > 0 && t != [] { HexSkipped(t[1..], k - 1); }
  }

  lemma {:induction false} CharsSkipped(t: Str)
    ensures Chars(t).Rest? ==> AfterString(t) == Chars(t).x
    ensures Chars(t) == Stopped(Incomplete) ==> AfterString(t) == []
    decreases |t|
  {
    hide HexRun;
    if t != [] && t[0] != 34 && t[0] >= 32 {
      if t[0] != 92 {
        CharsSkipped(t[1..]);
      } else if |t| > 1 && t[1] == 117 {
        HexSkipped(t[2..], 4);
        if HexRun(t[2..], 4).Rest? { CharsSkipped(HexRun(t[2..], 4).x); }
      } else if |t| > 1 {
        CharsSkipped(t[2..]);
      }
    }
  }

  lemma QuotedSkipped(t: Str, n: nat)
    ensures Quoted(t).Rest? ==> TooNested(Quoted(t).x, n) == TooNested(t, n)
    ensures Quoted(t) == Stopped(Incomplete) ==> !TooNested(t, n)
  {
    hide Chars, SkipSpace, AfterString;
    SpacesPlain(t, n);
    var u := SkipSpace(t);
    if u != [] && u[0] == 34 {
      CharsSkipped(u[1..]);
    }
  }

  /** A member's key and colon: given up right after the colon when the object is beyond the limit. */
  lemma KeyGuarded(t: Str, obj: bool, n: nat)
    ensures ScanKey(t, obj).Rest? ==> TooNested(t, n) == ((obj && n > MAX_NESTING) || TooNested(ScanKey(t, obj).x, n))
    ensures ScanKey(t, obj) == Stopped(Incomplete) ==> !TooNested(t, n)
  {
    hide Quoted, SkipSpace;
    if obj {
      QuotedSkipped(t, n);
      if Quoted(t).Rest? { SpacesPlain(Quoted(t).x, n); }
    }
  }

  lemma ScalarPlain(u: Str, n: nat)
    requires u != []
    ensures Scalar(u).Rest? ==> TooNested(Scalar(u).x, n) == TooNested(u, n)
    ensures Scalar(u) == Stopped(Incomplete) ==> !TooNested(u, n)
  {
    hide Quoted, Word, Number, TooNested;
    if u[0] == 34 {
      QuotedSkipped(u, n);
    } else if u[0] == 116 {
      WordPlain(u, TRUE, n);
    } else if u[0] == 102 {
      WordPlain(u, FALSE, n);
    } else if u[0] == 110 {
      WordPlain(u, NULL, n);
    } else {
      NumberPlain(u, n);
    }
  }

  // ---- values ----

  /** r is what scanning t gives, with n brackets open before t and m open after what is consumed. */
  predicate Guarded(r: Scan, t: Str, n: nat, m: nat) {
    && (r.Rest? ==> TooNested(t, n) == TooNested(r.x, m))
    && (r == Stopped(TooDeep) ==> TooNested(t, n))
    && (r == Stopped(Incomplete) ==> !TooNested(t, n))
  }

  lemma {:induction false} ValueGuarded(t: Str, d: nat)
    requires d <= MAX_NESTING
    ensures Guarded(ScanValue(t, d, MAX_NESTING), t, d, d)
    decreases |t|, 1
  {
    hide Scalar, SkipSpace, ScanEntries;
    SpacesPlain(t, d);
    var u := SkipSpace(t);
    if u != [] {
      if u[0] != 123 && u[0] != 91 {
        ScalarPlain(u, d);
      } else {
        BoxGuarded(u, d);
      }
    }
  }

  lemma {:induction false} BoxGuarded(u: Str, d: nat)
    requires d <= MAX_NESTING && u != [] && (u[0] == 123 || u[0] == 91)
    ensures var obj := u[0] == 123;
      var v := SkipSpace(u[1..]);
      Guarded(if v != [] && v[0] == Close(obj) then Rest(v[1..]) else ScanEntries(v, d, MAX_NESTING, obj), u, d, d)
    decreases |u|, 0
  {
    hide SkipSpace, ScanEntries;
    var obj := u[0] == 123;
    var v := SkipSpace(u[1..]);
    SpacesPlain(u[1..], d + 1);
    if v != [] && v[0] == Close(obj) {
    } else if d == MAX_NESTING && !obj {
      assert ScanEntries(v, d, MAX_NESTING, obj) == Stopped(TooDeep) by { FullArray(v); }
    } else {
      EntriesGuarded(v, d, obj);
    }
  }

  lemma FullArray(v: Str)
    ensures ScanEntries(v, MAX_NESTING, MAX_NESTING, false) == Stopped(TooDeep)
  {
  }

  lemma {:induction false} EntriesGuarded(t: Str, d: nat, obj: bool)
    requires d < MAX_NESTING || (d == MAX_NESTING && obj)
    ensures Guarded(ScanEntries(t, d, MAX_NESTING, obj), t, d + 1, d)
    decreases |t|, 2
  {
    hide SkipSpace, ScanKey, ScanValue, TooNested;
    KeyGuarded(t, obj, d + 1);
    if ScanKey(t, obj).Rest? {
      var y := ScanKey(t, obj).x;
      if d == MAX_NESTING {
        assert ScanValue(y, d + 1, MAX_NESTING) == Stopped(TooDeep) by { BeyondLimit(y); }
      } else {
        ValueGuarded(y, d + 1);
        if ScanValue(y, d + 1, MAX_NESTING).Rest? { AfterEntry(t, ScanValue(y, d + 1, MAX_NESTING).x, y, d, obj); }
      }
    }
  }

  lemma BeyondLimit(y: Str)
    ensures ScanValue(y, MAX_NESTING + 1, MAX_NESTING) == Stopped(TooDeep)
  {
  }

  lemma {:induction false} AfterEntry(t: Str, z: Str, y: Str, d: nat, obj: bool)
    requires d < MAX_NESTING && |z| < |t| && ScanKey(t, obj) == Rest(y) && ScanValue(y, d + 1, MAX_NESTING) == Rest(z)
    requires TooNested(t, d + 1) == TooNested(z, d + 1)
    ensures Guarded(ScanEntries(t, d, MAX_NESTING, obj), t, d + 1, d)
    decreases |z|, 3
  {
    hide SkipSpace, ScanKey, ScanValue;
    SpacesPlain(z, d + 1);
    var w := SkipSpace(z);
    if w != [] && w[0] == 44 { EntriesGuarded(w[1..], d, obj); }
  }
}
