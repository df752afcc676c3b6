/** The one-pass JSON recogniser as functions on the text still to be read. */
module JsonScanner {
  import opened ItemLists
  import opened Json

  const MAX_NESTING := 256

  datatype Stop = Incomplete | Invalid | TooDeep

  /** What is left after a token or value, or why scanning stopped. */
  datatype Scan = Rest(x: Str) | Stopped(why: Stop)

  predicate Space(c: CodeUnit) { c == 32 || c == 9 || c == 13 || c == 10 }

  predicate Digit(c: CodeUnit) { 48 <= c <= 57 }

  predicate Hexadecimal(c: CodeUnit) { Digit(c) || 65 <= c <= 70 || 97 <= c <= 102 }

  /** The units that may follow a backslash, u apart. */
  predicate Escapable(c: CodeUnit) {
    c == 34 || c == 92 || c == 47 || c == 98 || c == 102 || c == 110 || c == 114 || c == 116
  }

  function SkipSpace(t: Str): (u: Str)
    ensures |u| <= |t| && (u != [] ==> !Space(u[0]))
  {
    if t != [] && Space(t[0]) then SkipSpace(t[1..]) else t
  }

  function Need(t: Str, c: CodeUnit): (r: Scan)
    ensures r.Rest? ==> |r.x| < |t|
    ensures r != Stopped(TooDeep)
  {
    var u := SkipSpace(t);
    if u == [] then Stopped(Incomplete) else if u[0] != c then Stopped(Invalid) else Rest(u[1..])
  }

  function HexRun(t: Str, n: nat): (r: Scan)
    ensures r.Rest? ==> |r.x| <= |t|
    ensures r != Stopped(TooDeep)
    decreases n
  {
    if n == 0 then Rest(t)
    else if t == [] then Stopped(Incomplete)
    else if Hexadecimal(t[0]) then HexRun(t[1..], n - 1)
    else Stopped(Invalid)
  }

  /** A string's text after its opening quote. */
  function Chars(t: Str): (r: Scan)
    ensures r.Rest? ==> |r.x| < |t|
    ensures r != Stopped(TooDeep)
    decreases |t|
  {
    if t == [] then Stopped(Incomplete)
    else if t[0] == 34 then Rest(t[1..])
    else if t[0] < 32 then Stopped(Invalid)
    else if t[0] != 92 then Chars(t[1..])
    else if |t| == 1 then Stopped(Incomplete)
    else if t[1] == 117 then (match HexRun(t[2..], 4) case Rest(x) => Chars(x) case Stopped(w) => Stopped(w))
    else if Escapable(t[1]) then Chars(t[2..])
    else Stopped(Invalid)
  }

  function Quoted(t: Str): (r: Scan)
    ensures r.Rest? ==> |r.x| < |t|
    ensures r != Stopped(TooDeep)
  {
    match Need(t, 34) case Rest(x) => Chars(x) case Stopped(w) => Stopped(w)
  }

  function Word(t: Str, w: Str): (r: Scan)
    ensures r.Rest? ==> |r.x| == |t| - |w|
    ensures r != Stopped(TooDeep)
    decreases |w|
  {
    if w == [] then Rest(t)
    else if t == [] then Stopped(Incomplete)
    else if t[0] != w[0] then Stopped(Invalid)
    else Word(t[1..], w[1..])
  }

  // ---- numbers ----

  function DropDigits(t: Str): (u: Str)
    ensures |u| <= |t|
  {
    if t != [] && Digit(t[0]) then DropDigits(t[1..]) else t
  }

  /** What follows -?(0|[1-9][0-9]*), or nothing when t does not begin so. */
  function AfterInt(t: Str): (r: Scan)
    ensures r.Rest? ==> |r.x| < |t|
    ensures r.Rest? || r == Stopped(Invalid)
  {
    var u := if t != [] && t[0] == 45 then t[1..] else t;
    if u == [] || !Digit(u[0]) then Stopped(Invalid)
    else if u[0] == 48 then Rest(u[1..])
    else Rest(DropDigits(u[1..]))
  }

  function AfterFraction(t: Str): (u: Str)
    ensures |u| <= |t|
  {
    if |t| > 1 && t[0] == 46 && Digit(t[1]) then DropDigits(t[2..]) else t
  }

  function AfterSign(t: Str): (u: Str)
    ensures |u| <= |t|
  {
    if t != [] && (t[0] == 43 || t[0] == 45) then t[1..] else t
  }

  predicate E(t: Str) { t != [] && (t[0] == 101 || t[0] == 69) }

  function AfterExponent(t: Str): (u: Str)
    ensures |u| <= |t|
  {
    if E(t) && AfterSign(t[1..]) != [] && Digit(AfterSign(t[1..])[0]) then DropDigits(AfterSign(t[1..])[1..]) else t
  }

  /** The longest number, unless the text ends just where more of it must follow. */
  function Number(t: Str): (r: Scan)
    ensures r.Rest? ==> |r.x| < |t|
    ensures r != Stopped(TooDeep)
  {
    match AfterInt(t)
    case Stopped(_) => if t == [45] then Stopped(Incomplete) else Stopped(Invalid)
    case Rest(a) =>
      var b := AfterFraction(a);
      var c := AfterExponent(b);
      if c == [46] && |c| == |a| then Stopped(Incomplete)
      else if E(c) && AfterSign(c[1..]) == [] && |c| == |b| then Stopped(Incomplete)
      else Rest(c)
  }

  // ---- values ----

  function Close(obj: bool): CodeUnit { if obj then 125 else 93 }

  function Open(obj: bool): CodeUnit { if obj then 123 else 91 }

  function Scalar(u: Str): (r: Scan)
    requires u != []
    ensures r.Rest? ==> |r.x| < |u|
    ensures r != Stopped(TooDeep)
  {
    if u[0] == 34 then Quoted(u)
    else if u[0] == 116 then Word(u, TRUE)
    else if u[0] == 102 then Word(u, FALSE)
    else if u[0] == 110 then Word(u, NULL)
    else Number(u)
  }

  /** One value at nesting d; limit is the deepest nesting scanned. */
  function ScanValue(t: Str, d: nat, limit: nat): (r: Scan)
    ensures r.Rest? ==> |r.x| < |t|
    decreases |t|, 1
  {
    if d > limit then Stopped(TooDeep)
    else
      var u := SkipSpace(t);
      if u == [] then Stopped(Incomplete)
      else if u[0] != 123 && u[0] != 91 then Scalar(u)
      else
        var obj := u[0] == 123;
        var v := SkipSpace(u[1..]);
        if v != [] && v[0] == Close(obj) then Rest(v[1..]) else ScanEntries(v, d, limit, obj)
  }

  /** A member's key and colon; nothing for an array. */
  function ScanKey(t: Str, obj: bool): (r: Scan)
    ensures r.Rest? ==> |r.x| <= |t|
    ensures r != Stopped(TooDeep)
  {
    if !obj then Rest(t)
    else match Quoted(t) case Rest(x) => Need(x, 58) case Stopped(w) => Stopped(w)
  }

  /** The entries of a container up to its closing bracket. */
  function ScanEntries(t: Str, d: nat, limit: nat, obj: bool): (r: Scan)
    ensures r.Rest? ==> |r.x| < |t|
    decreases |t|, 2
  {
    match ScanKey(t, obj)
    case Stopped(w) => Stopped(w)
    case Rest(y) =>
      match ScanValue(y, d + 1, limit)
      case Stopped(w) => Stopped(w)
      case Rest(z) =>
        var w := SkipSpace(z);
        if w == [] then Stopped(Incomplete)
        else if w[0] == Close(obj) then Rest(w[1..])
        else if w[0] == 44 then ScanEntries(w[1..], d, limit, obj)
        else Stopped(Invalid)
  }

  // ---- the recogniser: one cursor over the text ----

  class Recogniser {
    const text: Str
    var at: nat

    constructor (text: Str)
      ensures this.text == text && at == 0
    {
      this.text := text;
      at := 0;
    }

    /** The cursor stands where r says, or the text was given up for the same reason. */
    ghost predicate Agrees(r: Scan, stop: Option<Stop>)
      reads this
    {
      at <= |text| && match stop case None => r == Rest(text[at..]) case Some(w) => r == Stopped(w)
    }

    method SkipSpaces()
      requires at <= |text|
      modifies `at
      ensures old(at) <= at <= |text| && text[at..] == SkipSpace(text[old(at)..])
    {
      while at < |text| && Space(text[at])
        invariant old(at) <= at <= |text| && SkipSpace(text[at..]) == SkipSpace(text[old(at)..])
      {
        at := at + 1;
      }
    }

    method NeedUnit(c: CodeUnit) returns (stop: Option<Stop>)
      requires at <= |text|
      modifies `at
      ensures old(at) <= at && Agrees(Need(text[old(at)..], c), stop)
    {
      SkipSpaces();
      if at == |text| { return Some(Incomplete); }
      at := at + 1;
      return if text[at - 1] != c then Some(Invalid) else None;
    }

    method HexDigits() returns (stop: Option<Stop>)
      requires at <= |text|
      modifies `at
      ensures old(at) <= at && Agrees(HexRun(text[old(at)..], 4), stop)
    {
      ghost var goal := HexRun(text[at..], 4);
      var i := 0;
      while i < 4
        invariant i <= 4 && old(at) <= at <= |text| && goal == HexRun(text[at..], 4 - i)
      {
        if at == |text| { return Some(Incomplete); }
        at := at + 1;
        if !Hexadecimal(text[at - 1]) { return Some(Invalid); }
        i := i + 1;
      }
      return None;
    }

    method QuotedText() returns (stop: Option<Stop>)
      requires at <= |text|
      modifies `at
      ensures old(at) <= at && Agrees(Quoted(text[old(at)..]), stop)
    {
      stop := NeedUnit(34);
      if stop.Some? { return; }
      stop := ReadChars();
    }

    method ReadChars() returns (stop: Option<Stop>)
      requires at <= |text|
      modifies `at
      ensures old(at) <= at && Agrees(Chars(text[old(at)..]), stop)
    {
      hide HexRun, Escapable;
      ghost var goal := Chars(text[at..]);
      while at < |text|
        invariant old(at) <= at <= |text| && goal == Chars(text[at..])
      {
        CharsCases(text[at..]);
        var c := text[at];
        at := at + 1;
        if c == 34 { return None; }
        if c < 32 { return Some(Invalid); }
        if c == 92 {
          if at == |text| { return Some(Incomplete); }
          var escaped := text[at];
          at := at + 1;
          if escaped == 117 {
            stop := HexDigits();
            if stop.Some? { return; }
          } else if !Escapable(escaped) {
            return Some(Invalid);
          }
        }
      }
      return Some(Incomplete);
    }

    method ReadWord(w: Str) returns (stop: Option<Stop>)
      requires at <= |text|
      modifies `at
      ensures old(at) <= at && Agrees(Word(text[old(at)..], w), stop)
    {
      ghost var goal := Word(text[at..], w);
      for i := 0 to |w|
        invariant old(at) <= at <= |text| && goal == Word(text[at..], w[i..])
      {
        if at == |text| { return Some(Incomplete); }
        at := at + 1;
        if text[at - 1] != w[i] { return Some(Invalid); }
      }
      return None;
    }

    /** The longest match of the number pattern, then the two ways it may have been cut short. */
    method ReadNumber() returns (stop: Option<Stop>)
      requires at <= |text|
      modifies `at
      ensures old(at) <= at && Agrees(Number(text[old(at)..]), stop)
    {
      var slice := text[at..];
      var a := AfterInt(slice);
      if a.Stopped? { return if slice == [45] then Some(Incomplete) else Some(Invalid); }
      var b := AfterFraction(a.x);
      var rest := AfterExponent(b);
      IsSuffix(slice);
      at := at + |slice| - |rest|;
      if (rest == [46] && |rest| == |a.x|) || (E(rest) && AfterSign(rest[1..]) == [] && |rest| == |b|) {
        return Some(Incomplete);
      }
      return None;
    }

    method ReadScalar() returns (stop: Option<Stop>)
      requires at < |text|
      modifies `at
      ensures old(at) <= at && Agrees(Scalar(text[old(at)..]), stop)
    {
      var first := text[at];
      if first == 34 {
        stop := QuotedText();
      } else if first == 116 {
        stop := ReadWord(TRUE);
      } else if first == 102 {
        stop := ReadWord(FALSE);
      } else if first == 110 {
        stop := ReadWord(NULL);
      } else {
        stop := ReadNumber();
      }
    }

    method ReadKey(obj: bool) returns (stop: Option<Stop>)
      requires at <= |text|
      modifies `at
      ensures old(at) <= at && Agrees(ScanKey(text[old(at)..], obj), stop)
    {
      if !obj { return None; }
      stop := QuotedText();
      if stop.Some? { return; }
      stop := NeedUnit(58);
    }

    method ReadValue(depth: nat) returns (stop: Option<Stop>)
      requires at <= |text|
      modifies `at
      ensures old(at) <= at && Agrees(ScanValue(text[old(at)..], depth, MAX_NESTING), stop)
      decreases |text| - at, 1
    {
      hide Scalar, ScanEntries, SkipSpace;
      if depth > MAX_NESTING { return Some(TooDeep); }
      SkipSpaces();
      if at == |text| { return Some(Incomplete); }
      var first := text[at];
      if first != 123 && first != 91 {
        stop := ReadScalar();
        return;
      }
      at := at + 1;
      SkipSpaces();
      if at < |text| && text[at] == Close(first == 123) {
        at := at + 1;
        return None;
      }
      stop := ReadEntries(depth, first == 123);
    }

    method ReadEntries(depth: nat, obj: bool) returns (stop: Option<Stop>)
      requires at <= |text|
      modifies `at
      ensures old(at) <= at && Agrees(ScanEntries(text[old(at)..], depth, MAX_NESTING, obj), stop)
      decreases |text| - at, 2
    {
      hide ScanKey, ScanValue, Close;
      ghost var goal := ScanEntries(text[at..], depth, MAX_NESTING, obj);
      while true
        invariant old(at) <= at <= |text| && goal == ScanEntries(text[at..], depth, MAX_NESTING, obj)
        decreases |text| - at
      {
        ghost var start := at;
        stop := ReadKey(obj);
        if stop.Some? { return; }
        stop := ReadValue(depth + 1);
        if stop.Some? { return; }
        SkipSpaces();
        if at == |text| { return Some(Incomplete); }
        if text[at] == Close(obj) {
          at := at + 1;
          return None;
        }
        stop := NeedUnit(44);
        if stop.Some? { return; }
      }
    }
  }

  lemma CharsCases(t: Str)
    requires t != []
    ensures Chars(t) ==
      if t[0] == 34 then Rest(t[1..])
      else if t[0] < 32 then Stopped(Invalid)
      else if t[0] != 92 then Chars(t[1..])
      else if |t| == 1 then Stopped(Incomplete)
      else if t[1] == 117 then (match HexRun(t[2..], 4) case Rest(x) => Chars(x) case Stopped(w) => Stopped(w))
      else if Escapable(t[1]) then Chars(t[2..])
      else Stopped(Invalid)
  {
  }

  /** The number pattern consumes from the front. */
  lemma IsSuffix(t: Str)
    requires AfterInt(t).Rest?
    ensures Ends(AfterExponent(AfterFraction(AfterInt(t).x)), t)
  {
    hide AfterInt, AfterFraction, AfterExponent, Ends;
    var a := AfterInt(t).x;
    IntSuffix(t);
    FractionSuffix(a);
    ExponentSuffix(AfterFraction(a));
    EndsTwice(AfterFraction(a), a, t);
    EndsTwice(AfterExponent(AfterFraction(a)), AfterFraction(a), t);
  }

  lemma IntSuffix(t: Str)
    requires AfterInt(t).Rest?
    ensures Ends(AfterInt(t).x, t)
  {
    hide DropDigits;
    var u := if t[0] == 45 then t[1..] else t;
    DroppedSuffix(u[1..]);
    EndsTwice(DropDigits(u[1..]), u[1..], u);
    EndsTwice(AfterInt(t).x, u, t);
  }

  lemma FractionSuffix(t: Str)
    ensures Ends(AfterFraction(t), t)
  {
    hide DropDigits;
    if |t| > 1 { DroppedSuffix(t[2..]); }
  }

  lemma ExponentSuffix(t: Str)
    ensures Ends(AfterExponent(t), t)
  {
    hide DropDigits;
    if E(t) {
      var v := AfterSign(t[1..]);
      if v != [] {
        DroppedSuffix(v[1..]);
        EndsTwice(DropDigits(v[1..]), v[1..], v);
        EndsTwice(DropDigits(v[1..]), v, t);
      }
    }
  }

  lemma EndsTwice(u: Str, v: Str, t: Str)
    requires Ends(u, v) && Ends(v, t)
    ensures Ends(u, t)
  {
    assert t[|t| - |v|..][|v| - |u|..] == t[|t| - |u|..];
  }

  predicate Ends(u: Str, t: Str) { |u| <= |t| && t[|t| - |u|..] == u }

  lemma {:induction false} DroppedSuffix(t: Str)
    ensures Ends(DropDigits(t), t)
  {
    if t != [] { DroppedSuffix(t[1..]); }
  }
}
