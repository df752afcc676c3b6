/** The RESP2 subset: replies, their encoding, and the decoder as a byte-at-a-time machine. */
module RespModel {
  import opened Decimals
  import opened ItemLists

  type Byte = x: int | 0 <= x < 256 witness 0
  type Bytes = seq<Byte>

  /** Texts are UTF-8 bytes. NullItem is a null among an array's items. */
  datatype Reply =
    | Simple(text: Bytes)
    | Error(message: Bytes)
    | Int(n: int)
    | Bulk(body: Option<Bytes>)
    | Array(items: seq<Reply>)
    | Nil
    | NullItem

  datatype Limits = Limits(maxFrameBytes: nat, maxArguments: nat, maxBulkBytes: nat, maxDepth: nat,
      maxBufferedBytes: nat)

  const DEFAULTS := Limits(8 * 1024 * 1024, 1024, 4 * 1024 * 1024, 32, 8 * 1024 * 1024)

  const CR: Byte := 13
  const LF: Byte := 10

  // ---- UTF-8 (section 4 of RFC 3629) ----

  predicate Cont(s: Bytes, i: int) { 0 <= i < |s| && 0x80 <= s[i] <= 0xBF }

  /** Length of the well-formed sequence at position i, 0 when there is none. */
  function Utf8At(s: Bytes, i: nat): (n: nat)
    requires i < |s|
    ensures i + n <= |s|
  {
    var b := s[i];
    if b <= 0x7F then 1
    else if 0xC2 <= b <= 0xDF && Cont(s, i + 1) then 2
    else if 0xE0 <= b <= 0xEF && Cont(s, i + 1) && Cont(s, i + 2)
      && (b == 0xE0 ==> s[i + 1] >= 0xA0) && (b == 0xED ==> s[i + 1] <= 0x9F) then 3
    else if 0xF0 <= b <= 0xF4 && Cont(s, i + 1) && Cont(s, i + 2) && Cont(s, i + 3)
      && (b == 0xF0 ==> s[i + 1] >= 0x90) && (b == 0xF4 ==> s[i + 1] <= 0x8F) then 4
    else 0
  }

  predicate Utf8From(s: Bytes, i: nat)
    requires i <= |s|
    decreases |s| - i
  {
    i == |s| || (Utf8At(s, i) > 0 && Utf8From(s, i + Utf8At(s, i)))
  }

  predicate ValidUtf8(s: Bytes) { Utf8From(s, 0) }

  // ---- decimal numbers ----

  /** An optional minus and digits naming a safe integer. */
  function ParseInt(s: Bytes): Option<int> {
    var neg := s != [] && s[0] == 45;
    var digits := if neg then s[1..] else s;
    if digits == [] || !AllDigits(digits) then None
    else
      var n := if neg then -DigitsValue(digits) else DigitsValue(digits);
      if -MAX_SAFE <= n <= MAX_SAFE then Some(n) else None
  }

  // ---- encoding ----

  function Blank(s: Bytes): (r: Bytes)
    ensures |r| == |s|
  {
    seq(|s|, i requires 0 <= i < |s| => if s[i] == CR || s[i] == LF then 32 else s[i])
  }

  function Line(prefix: Byte, text: Bytes): Bytes { [prefix] + text + [CR, LF] }

  function Encode(r: Reply): Bytes
    decreases r, 1
  {
    match r
    case Simple(t) => Line(43, t)
    case Error(m) => Line(45, Blank(m))
    case Int(n) => Line(58, Decimal(n))
    case Bulk(Some(b)) => Line(36, Decimal(|b|)) + b + [CR, LF]
    case Bulk(None) => Line(36, Decimal(-1))
    case Array(items) => Line(42, Decimal(|items|)) + EncodeFrom(items, 0)
    case Nil => Line(42, Decimal(-1))
    case NullItem => Line(36, Decimal(-1))
  }

  function EncodeFrom(items: seq<Reply>, i: nat): Bytes
    requires i <= |items|
    decreases items, 0, |items| - i
  {
    if i == |items| then [] else Encode(items[i]) + EncodeFrom(items, i + 1)
  }

  /** What decoding gives back: a null item as a null bulk, error line breaks as spaces. */
  function Norm(r: Reply): Reply
    decreases r, 1
  {
    match r
    case Error(m) => Error(Blank(m))
    case Array(items) => Array(NormFrom(items, 0))
    case NullItem => Bulk(None)
    case _ => r
  }

  function NormFrom(items: seq<Reply>, i: nat): (ns: seq<Reply>)
    requires i <= |items|
    ensures |ns| == |items| - i
    decreases items, 0, |items| - i
  {
    if i == |items| then [] else [Norm(items[i])] + NormFrom(items, i + 1)
  }

  /** What the encoder accepts at array depth d: each limit, and the whole frame within bounds. */
  predicate Allowed(r: Reply, d: nat)
    decreases r, 1
  {
    && |Encode(r)| <= DEFAULTS.maxFrameBytes
    && match r
       case Simple(t) => CR !in t && LF !in t
       case Int(n) => -MAX_SAFE <= n <= MAX_SAFE
       case Bulk(Some(b)) => |b| <= DEFAULTS.maxBulkBytes
       case Array(items) =>
         d < DEFAULTS.maxDepth && |items| <= DEFAULTS.maxArguments && AllowedFrom(items, 0, d + 1)
       case _ => true
  }

  predicate AllowedFrom(items: seq<Reply>, i: nat, d: nat)
    requires i <= |items|
    decreases items, 0, |items| - i
  {
    i == |items| || (Allowed(items[i], d) && AllowedFrom(items, i + 1, d))
  }

  // ---- the decoder ----

  datatype Frame = Frame(remaining: nat, items: seq<Reply>)

  datatype BulkState = BulkState(size: nat, got: Bytes, terminator: nat)

  datatype State = State(frameBytes: nat, prefix: Option<Byte>, line: Bytes, lineCR: bool,
                         bulk: Option<BulkState>, arrays: seq<Frame>)

  const INITIAL := State(0, None, [], false, None, [])

  datatype Fed = Broken | Fed(state: State, out: seq<Reply>)

  /** A finished value completes every array it is the last item of. */
  function Emit(arrays: seq<Frame>, v: Reply): (seq<Frame>, Option<Reply>)
    decreases |arrays|
  {
    if arrays == [] then ([], Some(v))
    else
      var n := |arrays| - 1;
      var top := arrays[n];
      if top.remaining > 1 then (arrays[..n] + [Frame(top.remaining - 1, top.items + [v])], None)
      else Emit(arrays[..n], Array(top.items + [v]))
  }

  /** A top-level value resets the frame byte count. */
  function Emitted(s: State, v: Reply): Fed {
    var (arrays, out) := Emit(s.arrays, v);
    if out.Some? then Fed(s.(arrays := arrays, frameBytes := 0), [out.value]) else Fed(s.(arrays := arrays), [])
  }

  function BulkHead(lim: Limits, t: State, n: int): Fed {
    if n == -1 then Emitted(t, Bulk(None))
    else if n < 0 || n > lim.maxBulkBytes || t.frameBytes + n + 2 > lim.maxFrameBytes
      || t.frameBytes + n + 2 > lim.maxBufferedBytes then Broken
    else Fed(t.(bulk := Some(BulkState(n, [], 0))), [])
  }

  function ArrayHead(lim: Limits, t: State, n: int): Fed {
    if |t.arrays| >= lim.maxDepth || n < -1 || n > lim.maxArguments then Broken
    else if n == -1 then Emitted(t, Nil)
    else if n == 0 then Emitted(t, Array([]))
    else Fed(t.(arrays := t.arrays + [Frame(n, [])]), [])
  }

  /** The line of s is complete. */
  function Header(lim: Limits, s: State): Fed
    requires s.prefix.Some?
  {
    var t := s.(prefix := None, line := [], lineCR := false);
    if !ValidUtf8(s.line) then Broken
    else if s.prefix.value == 43 then Emitted(t, Simple(s.line))
    else if s.prefix.value == 45 then Emitted(t, Error(s.line))
    else match ParseInt(s.line)
      case None => Broken
      case Some(n) =>
        if s.prefix.value == 58 then Emitted(t, Int(n))
        else if s.prefix.value == 36 then BulkHead(lim, t, n)
        else ArrayHead(lim, t, n)
  }

  function BulkStep(s: State, b: Byte): Fed
    requires s.bulk.Some?
  {
    var k := s.bulk.value;
    if |k.got| < k.size then Fed(s.(bulk := Some(k.(got := k.got + [b]))), [])
    else if b != (if k.terminator == 0 then CR else LF) then Broken
    else if k.terminator == 0 then Fed(s.(bulk := Some(k.(terminator := 1))), [])
    else if !ValidUtf8(k.got) then Broken
    else Emitted(s.(bulk := None), Bulk(Some(k.got)))
  }

  function Step(lim: Limits, s: State, b: Byte): Fed {
    var t := s.(frameBytes := s.frameBytes + 1);
    if t.frameBytes > lim.maxFrameBytes then Broken
    else if s.bulk.Some? then BulkStep(t, b)
    else if s.prefix.None? then if b in [43, 45, 58, 36, 42] then Fed(t.(prefix := Some(b)), []) else Broken
    else if s.lineCR then if b == LF then Header(lim, t) else Broken
    else if b == CR then Fed(t.(lineCR := true), [])
    else Fed(t.(line := t.line + [b]), [])
  }

  function Feed(lim: Limits, s: State, bs: Bytes, i: nat): Fed
    requires i <= |bs|
    decreases |bs| - i
  {
    if i == |bs| then Fed(s, [])
    else match Step(lim, s, bs[i])
      case Broken => Broken
      case Fed(t, o) =>
        (match Feed(lim, t, bs, i + 1) case Broken => Broken case Fed(u, p) => Fed(u, o + p))
  }

  /** One push: the buffered bytes are bounded before anything is consumed. */
  function Push(lim: Limits, s: State, chunk: Bytes): Fed {
    if s.frameBytes + |chunk| > lim.maxBufferedBytes then Broken else Feed(lim, s, chunk, 0)
  }

  /** Pushes in turn; the replies of all of them, in order. */
  function PushAll(lim: Limits, s: State, chunks: seq<Bytes>, i: nat): Fed
    requires i <= |chunks|
    decreases |chunks| - i
  {
    if i == |chunks| then Fed(s, [])
    else match Push(lim, s, chunks[i])
      case Broken => Broken
      case Fed(t, o) =>
        (match PushAll(lim, t, chunks, i + 1) case Broken => Broken case Fed(u, p) => Fed(u, o + p))
  }

  function Join(chunks: seq<Bytes>, i: nat): Bytes
    requires i <= |chunks|
    decreases |chunks| - i
  {
    if i == |chunks| then [] else chunks[i] + Join(chunks, i + 1)
  }
}
