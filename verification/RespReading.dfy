/** The resumable reader over real buffers, the encoder's preflight, and commands. */
module RespReading {
  import opened Decimals
  import opened ItemLists
  import opened RespModel
  import opened RespProofs

  const INITIAL_LINE := 128

  class RespReader {
    const limits: Limits
    var frameBytes: nat
    var prefix: Option<Byte>
    var line: array<Byte>
    var lineLength: nat
    var lineCR: bool
    var bulkOpen: bool
    var bulkBuffer: array<Byte>
    var bulkRead: nat
    var bulkTerminator: nat
    var arrays: seq<Frame>

    ghost predicate Valid()
      reads this
    {
      && line != bulkBuffer && 0 < line.Length
      && lineLength <= line.Length && bulkRead <= bulkBuffer.Length
      && (if prefix.None? then lineLength == 0 && !lineCR else lineLength + 1 <= frameBytes && !bulkOpen)
    }

    ghost function Now(): State
      reads this, line, bulkBuffer
      requires Valid()
    {
      State(frameBytes, prefix, line[..lineLength], lineCR,
            if bulkOpen then Some(BulkState(bulkBuffer.Length, bulkBuffer[..bulkRead], bulkTerminator)) else None,
            arrays)
    }

    constructor (limits: Limits)
      ensures Valid() && Now() == INITIAL && this.limits == limits && fresh(line) && fresh(bulkBuffer)
    {
      this.limits := limits;
      frameBytes, prefix, lineLength, lineCR := 0, None, 0, false;
      bulkOpen, bulkRead, bulkTerminator, arrays := false, 0, 0, [];
      line := new Byte[INITIAL_LINE];
      bulkBuffer := new Byte[0];
    }

    method Reset()
      modifies this
      ensures Valid() && Now() == INITIAL && fresh(line) && fresh(bulkBuffer)
    {
      frameBytes, prefix, lineLength, lineCR := 0, None, 0, false;
      bulkOpen, bulkRead, bulkTerminator, arrays := false, 0, 0, [];
      line := new Byte[INITIAL_LINE];
      bulkBuffer := new Byte[0];
    }

    method EmitValue(v: Reply) returns (out: seq<Reply>)
      requires Valid() && prefix.None?
      modifies `arrays, `frameBytes
      ensures Valid() && Fed(Now(), out) == Emitted(old(Now()), v)
    {
      var value := v;
      while arrays != []
        invariant Emit(arrays, value) == Emit(old(arrays), v)
        invariant frameBytes == old(frameBytes)
        decreases |arrays|
      {
        var n := |arrays| - 1;
        var parent := arrays[n];
        arrays := arrays[..n];
        if parent.remaining > 1 {
          arrays := arrays + [Frame(parent.remaining - 1, parent.items + [value])];
          return [];
        }
        value := Array(parent.items + [value]);
      }
      frameBytes := 0;
      return [value];
    }

    /** A complete line. On failure the caller resets. */
    method HeaderLine() returns (r: Option<seq<Reply>>)
      requires Valid() && prefix.Some? && !bulkOpen
      modifies this
      ensures Valid() && line == old(line) && (bulkBuffer == old(bulkBuffer) || fresh(bulkBuffer))
      ensures var f := Header(limits, old(Now()));
        if f.Broken? then r.None? else r == Some(f.out) && Now() == f.state
    {
      hide Emit, ValidUtf8, ParseInt;
      var text, kind := line[..lineLength], prefix.value;
      prefix, lineLength, lineCR := None, 0, false;
      if !ValidUtf8(text) { return None; }
      if kind == 43 || kind == 45 {
        var o := EmitValue(if kind == 43 then Simple(text) else Error(text));
        return Some(o);
      }
      var number := ParseInt(text);
      if number.None? { return None; }
      var n := number.value;
      if kind == 58 {
        var o := EmitValue(Int(n));
        return Some(o);
      } else if kind == 36 {
        r := BulkHeader(n);
      } else {
        r := ArrayHeader(n);
      }
    }

    method BulkHeader(n: int) returns (r: Option<seq<Reply>>)
      requires Valid() && prefix.None? && !bulkOpen
      modifies this
      ensures Valid() && line == old(line) && (bulkBuffer == old(bulkBuffer) || fresh(bulkBuffer))
      ensures var f := BulkHead(limits, old(Now()), n);
        if f.Broken? then r.None? else r == Some(f.out) && Now() == f.state
    {
      if n == -1 {
        var o := EmitValue(Bulk(None));
        return Some(o);
      }
      if n < 0 || n > limits.maxBulkBytes { return None; }
      if frameBytes + n + 2 > limits.maxFrameBytes || frameBytes + n + 2 > limits.maxBufferedBytes { return None; }
      bulkBuffer := new Byte[n];
      bulkOpen, bulkRead, bulkTerminator := true, 0, 0;
      return Some([]);
    }

    method ArrayHeader(n: int) returns (r: Option<seq<Reply>>)
      requires Valid() && prefix.None? && !bulkOpen
      modifies `arrays, `frameBytes
      ensures Valid()
      ensures var f := ArrayHead(limits, old(Now()), n);
        if f.Broken? then r.None? else r == Some(f.out) && Now() == f.state
    {
      if |arrays| >= limits.maxDepth || n < -1 || n > limits.maxArguments { return None; }
      if n == -1 {
        var o := EmitValue(Nil);
        return Some(o);
      } else if n == 0 {
        var o := EmitValue(Array([]));
        return Some(o);
      }
      arrays := arrays + [Frame(n, [])];
      return Some([]);
    }

    /** One byte outside a bulk body. The line buffer doubles, within the frame bound, when full;
        the bounds of every write are proved here. */
    method TakeByte(b: Byte) returns (r: Option<seq<Reply>>)
      requires Valid() && !bulkOpen
      modifies this, line
      ensures Valid() && (line == old(line) || fresh(line)) && (bulkBuffer == old(bulkBuffer) || fresh(bulkBuffer))
      ensures var f := Step(limits, old(Now()), b);
        if f.Broken? then r.None? else r == Some(f.out) && Now() == f.state
    {
      hide Header;
      frameBytes := frameBytes + 1;
      if frameBytes > limits.maxFrameBytes { return None; }
      if prefix.None? {
        if b !in [43, 45, 58, 36, 42] { return None; }
        prefix := Some(b);
        return Some([]);
      }
      if lineCR {
        if b != LF { return None; }
        r := HeaderLine();
        return r;
      }
      if b == CR {
        lineCR := true;
        return Some([]);
      }
      Append(b);
      return Some([]);
    }

    method Append(b: Byte)
      requires Valid() && prefix.Some? && lineLength + 2 <= frameBytes <= limits.maxFrameBytes
      modifies `line, `lineLength, line
      ensures Valid() && (line == old(line) || fresh(line))
      ensures line[..lineLength] == old(line[..lineLength]) + [b]
    {
      if lineLength == line.Length {
        var size := if line.Length * 2 < limits.maxFrameBytes then line.Length * 2 else limits.maxFrameBytes;
        var bigger := new Byte[size];
        forall i | 0 <= i < lineLength { bigger[i] := line[i]; }
        assert bigger[..lineLength] == line[..lineLength];
        line := bigger;
      }
      line[lineLength] := b;
      lineLength := lineLength + 1;
    }

    /** As many bytes of the body as the chunk has, or one byte of its terminator. */
    method TakeBulk(bytes: Bytes, pos: nat) returns (r: Option<seq<Reply>>, next: nat)
      requires Valid() && bulkOpen && pos < |bytes|
      modifies this, bulkBuffer
      ensures Valid() && line == old(line) && bulkBuffer == old(bulkBuffer) && pos <= next <= |bytes|
      ensures r.Some? ==> pos < next
      ensures Feed(limits, old(Now()), bytes, pos) ==
        if r.None? then Broken else After(r.value, Feed(limits, Now(), bytes, next))
    {
      hide Feed, Step;
      var left := bulkBuffer.Length - bulkRead;
      var size := if left < |bytes| - pos then left else |bytes| - pos;
      next := pos + size;
      BulkRun(limits, Now(), bytes, pos, size);
      if size > 0 {
        Copy(bytes, pos, size);
        frameBytes := frameBytes + size;
        if frameBytes > limits.maxFrameBytes { return None, next; }
      }
      FedNil(Feed(limits, Now(), bytes, next));
      if bulkRead < bulkBuffer.Length || next == |bytes| { return Some([]), next; }
      ghost var s := Now();
      FeedNext(limits, s, bytes, next);
      r := Terminate(bytes[next]);
      next := next + 1;
    }

    method Copy(bytes: Bytes, pos: nat, size: nat)
      requires Valid() && pos + size <= |bytes| && bulkRead + size <= bulkBuffer.Length
      modifies `bulkRead, bulkBuffer
      ensures Valid() && bulkRead == old(bulkRead) + size
      ensures bulkBuffer[..bulkRead] == old(bulkBuffer[..bulkRead]) + bytes[pos..pos + size]
      ensures line[..] == old(line[..])
    {
      forall i | 0 <= i < size { bulkBuffer[bulkRead + i] := bytes[pos + i]; }
      bulkRead := bulkRead + size;
    }

    method Terminate(b: Byte) returns (r: Option<seq<Reply>>)
      requires Valid() && bulkOpen && bulkRead == bulkBuffer.Length
      modifies `bulkOpen, `bulkTerminator, `arrays, `frameBytes
      ensures Valid()
      ensures var f := Step(limits, old(Now()), b);
        if f.Broken? then r.None? else r == Some(f.out) && Now() == f.state
    {
      hide Emit;
      if b != (if bulkTerminator == 0 then CR else LF) { return None; }
      frameBytes := frameBytes + 1;
      if frameBytes > limits.maxFrameBytes { return None; }
      if bulkTerminator == 0 {
        bulkTerminator := 1;
        return Some([]);
      }
      var body := bulkBuffer[..];
      assert body == bulkBuffer[..bulkRead];
      if !ValidUtf8(body) { return None; }
      bulkOpen := false;
      var o := EmitValue(Bulk(Some(body)));
      return Some(o);
    }

    /** One push refines the byte-at-a-time decoder; a refused one leaves an empty parser. */
    method Push(bytes: Bytes) returns (r: Option<seq<Reply>>)
      requires Valid()
      modifies this, line, bulkBuffer
      ensures Valid() && (line == old(line) || fresh(line)) && (bulkBuffer == old(bulkBuffer) || fresh(bulkBuffer))
      ensures var f := RespModel.Push(limits, old(Now()), bytes);
        if f.Broken? then r.None? && Now() == INITIAL else r == Some(f.out) && Now() == f.state
    {
      hide Feed, Step;
      if frameBytes + |bytes| > limits.maxBufferedBytes {
        Reset();
        return None;
      }
      var pos, out := 0, [];
      ghost var s0 := Now();
      FedNil(Feed(limits, s0, bytes, 0));
      while pos < |bytes|
        invariant Valid() && pos <= |bytes|
        invariant (line == old(line) || fresh(line)) && (bulkBuffer == old(bulkBuffer) || fresh(bulkBuffer))
        invariant Feed(limits, s0, bytes, 0) == After(out, Feed(limits, Now(), bytes, pos))
      {
        ghost var s := Now();
        var o: Option<seq<Reply>>;
        if bulkOpen {
          var next;
          o, next := TakeBulk(bytes, pos);
          pos := next;
        } else {
          FeedNext(limits, s, bytes, pos);
          o := TakeByte(bytes[pos]);
          pos := pos + 1;
        }
        if o.None? {
          Reset();
          return None;
        }
        AfterAfter(out, o.value, Feed(limits, Now(), bytes, pos));
        out := out + o.value;
      }
      FeedEnd(limits, Now(), bytes);
      assert out + [] == out;
      return Some(out);
    }
  }

  lemma FeedNext(lim: Limits, s: State, bs: Bytes, i: nat)
    requires i < |bs|
    ensures Feed(lim, s, bs, i) ==
      (match Step(lim, s, bs[i]) case Broken => Broken case Fed(t, o) => After(o, Feed(lim, t, bs, i + 1)))
  {
    hide Step;
  }

  lemma FeedEnd(lim: Limits, s: State, bs: Bytes)
    ensures Feed(lim, s, bs, |bs|) == Fed(s, [])
  {
  }

  lemma AfterAfter(a: seq<Reply>, b: seq<Reply>, f: Fed)
    ensures After(a, After(b, f)) == After(a + b, f)
  {
    if f.Fed? {
      assert a + (b + f.out) == (a + b) + f.out;
    }
  }

  function Ran(s: State, bs: Bytes): State
    requires s.bulk.Some?
  {
    s.(frameBytes := s.frameBytes + |bs|, bulk := Some(s.bulk.value.(got := s.bulk.value.got + bs)))
  }

  lemma RanStep(lim: Limits, s: State, b: Byte)
    requires s.bulk.Some? && |s.bulk.value.got| < s.bulk.value.size
    ensures Step(lim, s, b) == if s.frameBytes + 1 > lim.maxFrameBytes then Broken else Fed(Ran(s, [b]), [])
  {
  }

  lemma RanRan(s: State, a: Bytes, b: Bytes)
    requires s.bulk.Some?
    ensures Ran(Ran(s, a), b) == Ran(s, a + b) && Ran(s, []) == s
  {
    var got := s.bulk.value.got;
    assert (got + a) + b == got + (a + b);
    assert got + [] == got;
  }

  /** A run of body bytes consumed at once is the same run consumed byte by byte. */
  lemma {:induction false} BulkRun(lim: Limits, s: State, bs: Bytes, i: nat, n: nat)
    requires s.bulk.Some? && i + n <= |bs| && |s.bulk.value.got| + n <= s.bulk.value.size
    ensures Feed(lim, s, bs, i) ==
      if n > 0 && s.frameBytes + n > lim.maxFrameBytes then Broken else Feed(lim, Ran(s, bs[i..i + n]), bs, i + n)
    decreases n
  {
    hide Feed, Step;
    if n == 0 {
      assert bs[i..i] == [];
      RanRan(s, [], []);
    } else {
      FeedNext(lim, s, bs, i);
      RanStep(lim, s, bs[i]);
      var t := Ran(s, [bs[i]]);
      FedNil(Feed(lim, t, bs, i + 1));
      BulkRun(lim, t, bs, i + 1, n - 1);
      RanRan(s, [bs[i]], bs[i + 1..i + n]);
      assert [bs[i]] + bs[i + 1..i + n] == bs[i..i + n];
    }
  }

  // ---- the encoder's preflight ----

  /** The preflight answers the exact encoded length, and answers at all exactly for the replies
      within every limit. */
  method ReplyByteLength(r: Reply, depth: nat) returns (n: Option<nat>)
    ensures n == if Allowed(r, depth) then Some(|Encode(r)|) else None
    decreases r
  {
    hide Decimal;
    var bytes := 0;
    match r {
      case Nil => DecimalMinusOne(); return Some(5);
      case NullItem => DecimalMinusOne(); return Some(5);
      case Bulk(None) => DecimalMinusOne(); return Some(5);
      case Bulk(Some(b)) =>
        if |b| > DEFAULTS.maxBulkBytes { return None; }
        bytes := |b| + |Decimal(|b|)| + 5;
      case Int(v) =>
        if !(-MAX_SAFE <= v <= MAX_SAFE) { return None; }
        bytes := |Decimal(v)| + 3;
      case Simple(t) =>
        if CR in t || LF in t { return None; }
        bytes := |t| + 3;
      case Error(m) => bytes := |m| + 3;
      case Array(items) =>
        if depth >= DEFAULTS.maxDepth || |items| > DEFAULTS.maxArguments { return None; }
        bytes := |Decimal(|items|)| + 3;
        var i := 0;
        while i < |items|
          invariant i <= |items|
          invariant bytes + |EncodeFrom(items, i)| == |Encode(r)|
          invariant AllowedFrom(items, 0, depth + 1) == AllowedFrom(items, i, depth + 1)
        {
          var item := ReplyByteLength(items[i], depth + 1);
          if item.None? { return None; }
          bytes := bytes + item.value;
          if bytes > DEFAULTS.maxFrameBytes { return None; }
          i := i + 1;
        }
    }
    if bytes > DEFAULTS.maxFrameBytes { return None; }
    return Some(bytes);
  }

  lemma DecimalMinusOne()
    ensures |Decimal(-1)| == 2
  {
  }

  // ---- commands ----

  function Command(args: seq<Bytes>): Reply {
    Array(seq(|args|, i requires 0 <= i < |args| => Bulk(Some(args[i]))))
  }

  /** A request is accepted exactly when it is a non-empty array of non-null bulk strings. */
  method RequestArgv(request: Reply) returns (argv: Option<seq<Bytes>>)
    ensures argv.Some? ==> request == Command(argv.value) && argv.value != []
    ensures argv.None? ==> forall args: seq<Bytes> :: args != [] ==> request != Command(args)
  {
    if !request.Array? { return None; }
    var items, args := request.items, [];
    for i := 0 to |items|
      invariant |args| == i && forall j :: 0 <= j < i ==> items[j] == Bulk(Some(args[j]))
    {
      if !items[i].Bulk? || items[i].body.None? {
        assert forall a: seq<Bytes> :: request == Command(a) ==> items[i] == Bulk(Some(a[i]));
        return None;
      }
      args := args + [items[i].body.value];
    }
    assert request == Command(args);
    return if args == [] then None else Some(args);
  }

  /** What a client encodes is the command the server sees. */
  lemma CommandRoundTrip(args: seq<Bytes>)
    requires Allowed(Command(args), 0) && forall i :: 0 <= i < |args| ==> ValidUtf8(args[i])
    ensures RespModel.Push(DEFAULTS, INITIAL, Encode(Command(args))) == Fed(INITIAL, [Command(args)])
  {
    hide Encode, ValidUtf8, Feed;
    CommandItems(args, 0);
    RoundTrip(Command(args));
    var items := Command(args).items;
    assert items[0..] == items;
  }

  lemma CommandItems(args: seq<Bytes>, i: nat)
    requires i <= |args| && forall j :: 0 <= j < |args| ==> ValidUtf8(args[j])
    ensures var items := Command(args).items;
      WellFormedFrom(items, i) && NilsFitFrom(items, i, 1) && NormFrom(items, i) == items[i..]
    decreases |args| - i
  {
    hide ValidUtf8;
    if i < |args| {
      CommandItems(args, i + 1);
    }
  }
}
