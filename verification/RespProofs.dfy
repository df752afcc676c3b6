/** Decoding inverts encoding, and does not depend on how the bytes arrive. */
module RespProofs {
  import opened Decimals
  import opened ItemLists
  import opened RespModel

  // ---- chunk independence ----

  /** Prepend replies already produced. */
  function After(o: seq<Reply>, f: Fed): Fed {
    match f case Broken => Broken case Fed(u, p) => Fed(u, o + p)
  }

  function Then(lim: Limits, f: Fed, bs: Bytes): Fed {
    match f case Broken => Broken case Fed(t, o) => After(o, Feed(lim, t, bs, 0))
  }

  lemma FeedFrom(lim: Limits, s: State, bs: Bytes, i: nat)
    requires i <= |bs|
    ensures Feed(lim, s, bs, i) == Feed(lim, s, bs[i..], 0)
    decreases |bs| - i
  {
    if i < |bs| {
      match Step(lim, s, bs[i])
      case Broken =>
      case Fed(t, o) =>
        FeedFrom(lim, t, bs, i + 1);
        FeedFrom(lim, t, bs[i..], 1);
        assert bs[i..][1..] == bs[i + 1..];
    }
  }

  lemma {:induction false} FeedJoin(lim: Limits, s: State, a: Bytes, b: Bytes)
    ensures Feed(lim, s, a + b, 0) == Then(lim, Feed(lim, s, a, 0), b)
    decreases |a|
  {
    if a == [] {
      assert a + b == b;
      assert Then(lim, Feed(lim, s, a, 0), b) == After([], Feed(lim, s, b, 0));
    } else {
      match Step(lim, s, a[0])
      case Broken =>
      case Fed(t, o) =>
        FeedFrom(lim, t, a, 1);
        FeedFrom(lim, t, a + b, 1);
        assert (a + b)[1..] == a[1..] + b;
        FeedJoin(lim, t, a[1..], b);
        AfterThen(lim, o, Feed(lim, t, a[1..], 0), b);
    }
  }

  lemma AfterThen(lim: Limits, o: seq<Reply>, f: Fed, b: Bytes)
    ensures After(o, Then(lim, f, b)) == Then(lim, After(o, f), b)
  {
    if f.Fed? {
      var g := Feed(lim, f.state, b, 0);
      if g.Fed? {
        assert o + (f.out + g.out) == (o + f.out) + g.out;
      }
    }
  }

  /** The frame byte count never runs ahead of the bytes consumed. */
  lemma FrameBytesBound(lim: Limits, s: State, bs: Bytes, i: nat)
    requires i <= |bs| && Feed(lim, s, bs, i).Fed?
    ensures Feed(lim, s, bs, i).state.frameBytes <= s.frameBytes + |bs| - i
    decreases |bs| - i
  {
    if i < |bs| {
      StepFrameBytes(lim, s, bs[i]);
      FrameBytesBound(lim, Step(lim, s, bs[i]).state, bs, i + 1);
    }
  }

  lemma StepFrameBytes(lim: Limits, s: State, b: Byte)
    requires Step(lim, s, b).Fed?
    ensures Step(lim, s, b).state.frameBytes <= s.frameBytes + 1
  {
  }

  /** If one push of a byte sequence succeeds, every way of splitting it succeeds, with the
      same replies in the same order and the same final state. */
  lemma {:induction false} ChunkIndependence(lim: Limits, s: State, chunks: seq<Bytes>, i: nat)
    requires i <= |chunks| && Push(lim, s, Join(chunks, i)).Fed?
    ensures PushAll(lim, s, chunks, i) == Push(lim, s, Join(chunks, i))
    decreases |chunks| - i
  {
    if i < |chunks| {
      var a, b := chunks[i], Join(chunks, i + 1);
      FeedJoin(lim, s, a, b);
      FrameBytesBound(lim, s, a, 0);
      ChunkIndependence(lim, Feed(lim, s, a, 0).state, chunks, i + 1);
    }
  }

  // ---- numbers ----

  lemma DecimalParse(n: int)
    requires -MAX_SAFE <= n <= MAX_SAFE
    ensures ParseInt(Decimal(n)) == Some(n)
    ensures CR !in Decimal(n) && ValidUtf8(Decimal(n))
  {
    hide Digits, DigitsValue, Utf8From;
    DigitsParse(if n < 0 then -n else n);
    if n < 0 {
      assert Decimal(n)[1..] == Digits(-n);
    }
    AsciiValid(Decimal(n), 0);
  }

  lemma AsciiValid(s: Bytes, i: nat)
    requires i <= |s| && forall j :: 0 <= j < |s| ==> s[j] <= 0x7F
    ensures Utf8From(s, i)
    decreases |s| - i
  {
    if i < |s| {
      AsciiValid(s, i + 1);
    }
  }

  /** Writing spaces over line breaks keeps a text well formed. */
  lemma BlankValid(s: Bytes, i: nat)
    requires i <= |s| && Utf8From(s, i)
    ensures Utf8From(Blank(s), i)
    decreases |s| - i
  {
    if i < |s| {
      assert Utf8At(Blank(s), i) == Utf8At(s, i);
      BlankValid(s, i + Utf8At(s, i));
    }
  }

  // ---- the round trip ----

  /** Every text of r is well-formed UTF-8. */
  predicate WellFormed(r: Reply)
    decreases r, 1
  {
    match r
    case Simple(t) => ValidUtf8(t)
    case Error(m) => ValidUtf8(m)
    case Bulk(Some(b)) => ValidUtf8(b)
    case Array(items) => WellFormedFrom(items, 0)
    case _ => true
  }

  predicate WellFormedFrom(items: seq<Reply>, i: nat)
    requires i <= |items|
    decreases items, 0, |items| - i
  {
    i == |items| || (WellFormed(items[i]) && WellFormedFrom(items, i + 1))
  }

  /** Every nil sits where the decoder allows one more array level. */
  predicate NilsFit(r: Reply, d: nat)
    decreases r, 1
  {
    match r
    case Nil => d < DEFAULTS.maxDepth
    case Array(items) => NilsFitFrom(items, 0, d + 1)
    case _ => true
  }

  predicate NilsFitFrom(items: seq<Reply>, i: nat, d: nat)
    requires i <= |items|
    decreases items, 0, |items| - i
  {
    i == |items| || (NilsFit(items[i], d) && NilsFitFrom(items, i + 1, d))
  }

  /** Between values, with room for n more bytes in the frame. */
  predicate Idle(s: State, n: nat) {
    && s.prefix.None? && s.line == [] && !s.lineCR && s.bulk.None?
    && s.frameBytes + n <= DEFAULTS.maxFrameBytes
  }

  lemma FeedText(s: State, text: Bytes, i: nat)
    requires i <= |text| && CR !in text
    requires s.prefix.Some? && !s.lineCR && s.bulk.None? && s.line == text[..i]
    requires s.frameBytes + |text| - i <= DEFAULTS.maxFrameBytes
    ensures Feed(DEFAULTS, s, text, i) == Fed(s.(line := text, frameBytes := s.frameBytes + |text| - i), [])
    decreases |text| - i
  {
    if i < |text| {
      var t := s.(line := text[..i + 1], frameBytes := s.frameBytes + 1);
      assert text[i] != CR;
      assert s.line + [text[i]] == text[..i + 1];
      assert Step(DEFAULTS, s, text[i]) == Fed(t, []);
      FeedText(t, text, i + 1);
    } else {
      assert text[..i] == text;
    }
  }

  /** A whole line acts as its header. */
  lemma FeedLine(s: State, p: Byte, text: Bytes)
    requires Idle(s, |text| + 3) && p in [43, 45, 58, 36, 42] && CR !in text
    ensures Feed(DEFAULTS, s, Line(p, text), 0) ==
      Header(DEFAULTS, s.(prefix := Some(p), line := text, lineCR := true, frameBytes := s.frameBytes + |text| + 3))
  {
    hide Feed, Step, Header;
    var n := s.frameBytes + |text|;
    var t := s.(prefix := Some(p), frameBytes := s.frameBytes + 1);
    var u := t.(line := text, frameBytes := n + 1);
    var v := u.(lineCR := true, frameBytes := n + 2);
    StepPrefix(s, p);
    FeedOne(s, p);
    FeedText(t, text, 0);
    FeedThen(s, t, [p], text);
    StepCR(u);
    FeedOne(u, CR);
    FeedThen(s, u, [p] + text, [CR]);
    StepLF(v);
    FeedOne(v, LF);
    FeedThen(s, v, [p] + text + [CR], [LF]);
    assert [p] + text + [CR] + [LF] == Line(p, text);
  }

  lemma StepPrefix(s: State, p: Byte)
    requires Idle(s, 1) && p in [43, 45, 58, 36, 42]
    ensures Step(DEFAULTS, s, p) == Fed(s.(prefix := Some(p), frameBytes := s.frameBytes + 1), [])
  {
  }

  lemma StepCR(s: State)
    requires s.prefix.Some? && !s.lineCR && s.bulk.None? && s.frameBytes < DEFAULTS.maxFrameBytes
    ensures Step(DEFAULTS, s, CR) == Fed(s.(lineCR := true, frameBytes := s.frameBytes + 1), [])
  {
  }

  lemma StepLF(s: State)
    requires s.prefix.Some? && s.lineCR && s.bulk.None? && s.frameBytes < DEFAULTS.maxFrameBytes
    ensures Step(DEFAULTS, s, LF) == Header(DEFAULTS, s.(frameBytes := s.frameBytes + 1))
  {
    hide Header, BulkStep;
  }

  /** Bytes that produce no reply only move the state. */
  lemma FeedThen(s: State, t: State, a: Bytes, b: Bytes)
    requires Feed(DEFAULTS, s, a, 0) == Fed(t, [])
    ensures Feed(DEFAULTS, s, a + b, 0) == Feed(DEFAULTS, t, b, 0)
  {
    FeedJoin(DEFAULTS, s, a, b);
    FedNil(Feed(DEFAULTS, t, b, 0));
  }

  lemma FeedOne(s: State, b: Byte)
    ensures Feed(DEFAULTS, s, [b], 0) == Step(DEFAULTS, s, b)
  {
    var f := Step(DEFAULTS, s, b);
    if f.Fed? {
      assert f.out + [] == f.out;
    }
  }

  lemma FedNil(f: Fed)
    ensures After([], f) == f
  {
    if f.Fed? {
      assert [] + f.out == f.out;
    }
  }

  lemma FeedBody(s: State, body: Bytes, i: nat)
    requires i <= |body| && s.bulk == Some(BulkState(|body|, body[..i], 0))
    requires s.frameBytes + |body| - i <= DEFAULTS.maxFrameBytes
    ensures Feed(DEFAULTS, s, body, i) ==
      Fed(s.(bulk := Some(BulkState(|body|, body, 0)), frameBytes := s.frameBytes + |body| - i), [])
    decreases |body| - i
  {
    if i < |body| {
      var t := s.(bulk := Some(BulkState(|body|, body[..i + 1], 0)), frameBytes := s.frameBytes + 1);
      assert body[..i] + [body[i]] == body[..i + 1];
      assert Step(DEFAULTS, s, body[i]) == Fed(t, []);
      FeedBody(t, body, i + 1);
    } else {
      assert body[..i] == body;
    }
  }

  lemma FeedBulk(s: State, body: Bytes)
    requires Idle(s, |Line(36, Decimal(|body|))| + |body| + 2)
    requires |body| <= DEFAULTS.maxBulkBytes && ValidUtf8(body)
    ensures Feed(DEFAULTS, s, Line(36, Decimal(|body|)) + body + [CR, LF], 0) ==
      Emitted(s.(frameBytes := s.frameBytes + |Line(36, Decimal(|body|))| + |body| + 2), Bulk(Some(body)))
  {
    hide Feed, Step, Decimal;
    var head := Line(36, Decimal(|body|));
    var n := s.frameBytes + |head|;
    DecimalParse(|body|);
    FeedLine(s, 36, Decimal(|body|));
    var t := s.(bulk := Some(BulkState(|body|, [], 0)), frameBytes := n);
    assert body[..0] == [];
    FeedBody(t, body, 0);
    FeedThen(s, t, head, body);
    var u := t.(bulk := Some(BulkState(|body|, body, 0)), frameBytes := n + |body|);
    StepBulkEnd(u, body);
    FeedOne(u, CR);
    FeedThen(s, u, head + body, [CR]);
    var v := u.(bulk := Some(BulkState(|body|, body, 1)), frameBytes := n + |body| + 1);
    StepBulkEnd(v, body);
    FeedOne(v, LF);
    FeedThen(s, v, head + body + [CR], [LF]);
    assert head + body + [CR] + [LF] == head + body + [CR, LF];
    assert v.(bulk := None, frameBytes := n + |body| + 2) == s.(frameBytes := n + |body| + 2);
  }

  lemma StepBulkEnd(s: State, body: Bytes)
    requires s.bulk.Some? && s.bulk.value.got == body && s.bulk.value.size == |body| && ValidUtf8(body)
    requires s.frameBytes < DEFAULTS.maxFrameBytes
    ensures var t := s.(frameBytes := s.frameBytes + 1);
      && (s.bulk.value.terminator == 0 ==>
            Step(DEFAULTS, s, CR) == Fed(t.(bulk := Some(BulkState(|body|, body, 1))), []))
      && (s.bulk.value.terminator == 1 ==> Step(DEFAULTS, s, LF) == Emitted(t.(bulk := None), Bulk(Some(body))))
  {
  }

  // ---- whole replies ----

  lemma EmitOne(arrays: seq<Frame>, n: nat, items: seq<Reply>, v: Reply)
    requires n > 1
    ensures Emit(arrays + [Frame(n, items)], v) == (arrays + [Frame(n - 1, items + [v])], None)
  {
    assert (arrays + [Frame(n, items)])[..|arrays|] == arrays;
  }

  lemma EmitLast(arrays: seq<Frame>, items: seq<Reply>, v: Reply)
    ensures Emit(arrays + [Frame(1, items)], v) == Emit(arrays, Array(items + [v]))
  {
    assert (arrays + [Frame(1, items)])[..|arrays|] == arrays;
  }

  lemma BlankText(m: Bytes)
    requires ValidUtf8(m)
    ensures ValidUtf8(Blank(m)) && CR !in Blank(m)
  {
    BlankValid(m, 0);
  }

  lemma FeedTextLine(s: State, r: Reply)
    requires r.Simple? || r.Error?
    requires Idle(s, |Encode(r)|) && WellFormed(r) && Allowed(r, |s.arrays|)
    ensures Feed(DEFAULTS, s, Encode(r), 0) ==
      if NilsFit(r, |s.arrays|) then Emitted(s.(frameBytes := s.frameBytes + |Encode(r)|), Norm(r)) else Broken
  {
    hide Feed, Emitted, ValidUtf8, ParseInt, Blank;
    match r
    case Simple(t) => FeedLine(s, 43, t);
    case Error(m) => BlankText(m); FeedLine(s, 45, Blank(m));
  }

  lemma FeedIntLine(s: State, n: int)
    requires Idle(s, |Encode(Int(n))|) && -MAX_SAFE <= n <= MAX_SAFE
    ensures Feed(DEFAULTS, s, Encode(Int(n)), 0) == Emitted(s.(frameBytes := s.frameBytes + |Encode(Int(n))|), Int(n))
  {
    hide Feed, Emitted, ValidUtf8, Decimal, ParseInt;
    DecimalParse(n);
    FeedLine(s, 58, Decimal(n));
  }

  lemma FeedNullLine(s: State, r: Reply)
    requires r.Nil? || r.NullItem? || r == Bulk(None)
    requires Idle(s, |Encode(r)|) && WellFormed(r) && Allowed(r, |s.arrays|)
    ensures Feed(DEFAULTS, s, Encode(r), 0) ==
      if NilsFit(r, |s.arrays|) then Emitted(s.(frameBytes := s.frameBytes + |Encode(r)|), Norm(r)) else Broken
  {
    hide Feed, Emitted, ValidUtf8, Decimal, ParseInt;
    DecimalParse(-1);
    FeedLine(s, if r.Nil? then 42 else 36, Decimal(-1));
  }

  /** Decoding the encoding of r, at array depth d, delivers r in its normal form; or breaks,
      exactly when a nil lies deeper than the decoder's arrays may. */
  lemma {:induction false} FeedReply(s: State, r: Reply)
    requires Idle(s, |Encode(r)|) && WellFormed(r) && Allowed(r, |s.arrays|)
    ensures Feed(DEFAULTS, s, Encode(r), 0) ==
      if NilsFit(r, |s.arrays|) then Emitted(s.(frameBytes := s.frameBytes + |Encode(r)|), Norm(r)) else Broken
    decreases r, 1
  {
    hide Feed, Emitted, Decimal, ValidUtf8, Header, ParseInt;
    match r
    case Bulk(Some(b)) => FeedBulk(s, b);
    case Array(items) => FeedArray(s, items);
    case Int(n) => FeedIntLine(s, n);
    case Simple(_) => FeedTextLine(s, r);
    case Error(_) => FeedTextLine(s, r);
    case _ => FeedNullLine(s, r);
  }

  lemma {:induction false} FeedArray(s: State, items: seq<Reply>)
    requires Idle(s, |Encode(Array(items))|) && WellFormedFrom(items, 0)
    requires |s.arrays| < DEFAULTS.maxDepth && |items| <= DEFAULTS.maxArguments && AllowedFrom(items, 0, |s.arrays| + 1)
    ensures Feed(DEFAULTS, s, Encode(Array(items)), 0) ==
      if NilsFitFrom(items, 0, |s.arrays| + 1)
      then Emitted(s.(frameBytes := s.frameBytes + |Encode(Array(items))|), Array(NormFrom(items, 0))) else Broken
    decreases items, 1
  {
    hide Feed, Decimal, ValidUtf8, Emitted;
    var head := Line(42, Decimal(|items|));
    DecimalParse(|items|);
    FeedLine(s, 42, Decimal(|items|));
    if items == [] {
      assert head + EncodeFrom(items, 0) == head;
    } else {
      var t := s.(arrays := s.arrays + [Frame(|items|, [])], frameBytes := s.frameBytes + |head|);
      FeedThen(s, t, head, EncodeFrom(items, 0));
      FeedItems(t, s.arrays, items, 0, []);
      assert [] + NormFrom(items, 0) == NormFrom(items, 0);
      assert t.(arrays := s.arrays, frameBytes := t.frameBytes + |EncodeFrom(items, 0)|)
        == s.(frameBytes := s.frameBytes + |Encode(Array(items))|);
    }
  }

  lemma {:induction false} FeedItems(s: State, outer: seq<Frame>, items: seq<Reply>, i: nat, done: seq<Reply>)
    requires i < |items| && s.arrays == outer + [Frame(|items| - i, done)]
    requires Idle(s, |EncodeFrom(items, i)|) && WellFormedFrom(items, i) && AllowedFrom(items, i, |outer| + 1)
    ensures Feed(DEFAULTS, s, EncodeFrom(items, i), 0) ==
      if NilsFitFrom(items, i, |outer| + 1)
      then Emitted(s.(arrays := outer, frameBytes := s.frameBytes + |EncodeFrom(items, i)|),
          Array(done + NormFrom(items, i)))
      else Broken
    decreases items, 0, |items| - i
  {
    hide Feed, Decimal, ValidUtf8;
    var r := items[i];
    var v := Norm(r);
    var n := s.frameBytes + |Encode(r)|;
    FeedReply(s, r);
    FeedJoin(DEFAULTS, s, Encode(r), EncodeFrom(items, i + 1));
    if NilsFit(r, |outer| + 1) {
      if i + 1 < |items| {
        EmitOne(outer, |items| - i, done, v);
        var t := s.(arrays := outer + [Frame(|items| - i - 1, done + [v])], frameBytes := n);
        FeedItems(t, outer, items, i + 1, done + [v]);
        FedNil(Feed(DEFAULTS, t, EncodeFrom(items, i + 1), 0));
        assert (done + [v]) + NormFrom(items, i + 1) == done + NormFrom(items, i);
      } else {
        EmitLast(outer, done, v);
        assert Encode(r) + EncodeFrom(items, i + 1) == Encode(r);
        assert done + NormFrom(items, i) == done + [v];
      }
    }
  }

  /** The encoder's output decodes to the same reply in its normal form, and leaves an empty
      parser, exactly when nil is counted as an array level; otherwise the decoder refuses it. */
  lemma RoundTrip(r: Reply)
    requires WellFormed(r) && Allowed(r, 0)
    ensures Push(DEFAULTS, INITIAL, Encode(r)) == if NilsFit(r, 0) then Fed(INITIAL, [Norm(r)]) else Broken
  {
    hide Feed, Encode, Decimal, ValidUtf8, Norm, NilsFit, WellFormed, AllowedFrom;
    FeedReply(INITIAL, r);
  }

  // ---- decoders with wider limits ----

  predicate Wider(lim: Limits, low: Limits) {
    && lim.maxFrameBytes >= low.maxFrameBytes && lim.maxArguments >= low.maxArguments
    && lim.maxBulkBytes >= low.maxBulkBytes && lim.maxDepth >= low.maxDepth
    && lim.maxBufferedBytes >= low.maxBufferedBytes
  }

  lemma WiderStep(lim: Limits, low: Limits, s: State, b: Byte)
    requires Wider(lim, low) && Step(low, s, b) != Broken
    ensures Step(lim, s, b) == Step(low, s, b)
  {
    hide ParseInt, ValidUtf8, Emitted, BulkStep;
  }

  /** Whatever a decoder accepts, one with wider limits decodes the same. */
  lemma {:induction false} WiderFeed(lim: Limits, low: Limits, s: State, bs: Bytes, i: nat)
    requires Wider(lim, low) && i <= |bs| && Feed(low, s, bs, i) != Broken
    ensures Feed(lim, s, bs, i) == Feed(low, s, bs, i)
    decreases |bs| - i
  {
    hide Step;
    if i < |bs| {
      WiderStep(lim, low, s, bs[i]);
      WiderFeed(lim, low, Step(low, s, bs[i]).state, bs, i + 1);
    }
  }

  /** So the encoder's output round-trips through every decoder with limits no narrower than the encoder's. */
  lemma RoundTripWider(lim: Limits, r: Reply)
    requires Wider(lim, DEFAULTS) && WellFormed(r) && Allowed(r, 0) && NilsFit(r, 0)
    ensures Push(lim, INITIAL, Encode(r)) == Fed(INITIAL, [Norm(r)])
  {
    hide Feed, Encode, WellFormed, NilsFit, Norm, Allowed;
    RoundTrip(r);
    WiderFeed(lim, DEFAULTS, INITIAL, Encode(r), 0);
  }

  /** A nil inside n single-item arrays. */
  function DeepNil(n: nat): Reply {
    if n == 0 then Nil else Array([DeepNil(n - 1)])
  }

  lemma {:induction false} DeepNilAllowed(n: nat, d: nat)
    requires d + n == DEFAULTS.maxDepth
    ensures WellFormed(DeepNil(n)) && |Encode(DeepNil(n))| == 5 + 4 * n && Allowed(DeepNil(n), d)
        && !NilsFit(DeepNil(n), d)
  {
    if n > 0 {
      DeepNilAllowed(n - 1, d + 1);
      var items := [DeepNil(n - 1)];
      assert EncodeFrom(items, 0) == Encode(items[0]) + EncodeFrom(items, 1);
      assert AllowedFrom(items, 1, d + 1) && WellFormedFrom(items, 1);
    } else {
      assert Decimal(-1) == [45, 49];
    }
  }

  /** The encoder accepts this reply and the decoder refuses its bytes. */
  lemma DeepNilBreaks()
    ensures Allowed(DeepNil(32), 0) && Push(DEFAULTS, INITIAL, Encode(DeepNil(32))) == Broken
  {
    DeepNilAllowed(32, 0);
    RoundTrip(DeepNil(32));
  }
}
