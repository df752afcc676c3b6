/** The append-only log: what its file holds, how it is scanned, and the object that writes it. */
module AppendLog {
  import opened Decimals
  import opened ItemLists

  datatype Record<Op> = Record(seqNo: nat, op: Op)

  datatype Line<Op> = Rec(rec: Record<Op>) | Junk

  /** Text after the last newline: none, a strict JSON prefix of a record, a whole record that
      lost only its newline, or anything else. */
  datatype Tail<Op> = NoTail | TornTail | FullTail(rec: Record<Op>) | JunkTail

  datatype File<Op> = Missing | File(lines: seq<Line<Op>>, tail: Tail<Op>)

  datatype Health = Clean | Torn | Corrupt

  /** The longest record written; sequence numbers stay safe integers. */
  const MAX_RECORD_BYTES := 128 * 1024 * 1024

  /** How much of an appended record reached the file. */
  datatype Cut = CutNothing | CutInside | CutNewline | CutWhole

  function Lines<Op>(f: File<Op>): seq<Line<Op>> { if f.Missing? then [] else f.lines }

  function TailOf<Op>(f: File<Op>): Tail<Op> { if f.Missing? then NoTail else f.tail }

  /** Writing after an unterminated tail glues both into one unreadable line. */
  function Written<Op>(f: File<Op>, r: Record<Op>, cut: Cut): File<Op> {
    if cut.CutNothing? then File(Lines(f), TailOf(f))
    else if TailOf(f).NoTail? then
      match cut
      case CutWhole => File(Lines(f) + [Rec(r)], NoTail)
      case CutNewline => File(Lines(f), FullTail(r))
      case _ => File(Lines(f), TornTail)
    else if cut.CutWhole? then File(Lines(f) + [Junk], NoTail)
    else File(Lines(f), JunkTail)
  }

  // ---- scanning ----

  /** Every line a reader tries to parse; a torn tail is recognised as such instead. */
  function Readable<Op>(f: File<Op>): seq<Line<Op>> {
    Lines(f) + match TailOf(f)
               case FullTail(r) => [Rec(r)]
               case JunkTail => [Junk]
               case _ => []
  }

  predicate Follows<Op>(l: Line<Op>, prev: int) { l.Rec? && l.rec.seqNo > prev }

  /** Records from position i up to the first unreadable or non-increasing one. */
  function Good<Op>(ls: seq<Line<Op>>, i: nat, prev: int): seq<Record<Op>>
    requires i <= |ls|
    decreases |ls| - i
  {
    if i == |ls| || !Follows(ls[i], prev) then [] else [ls[i].rec] + Good(ls, i + 1, ls[i].rec.seqNo)
  }

  function GoodOf<Op>(f: File<Op>): seq<Record<Op>> { Good(Readable(f), 0, -1) }

  function HealthOf<Op>(f: File<Op>): Health {
    if |GoodOf(f)| < |Readable(f)| then Corrupt else if TailOf(f).TornTail? then Torn else Clean
  }

  function LastSeq<Op>(rs: seq<Record<Op>>): nat {
    if rs == [] then 0 else rs[|rs| - 1].seqNo
  }

  function Newer<Op>(rs: seq<Record<Op>>, n: int, i: nat): seq<Record<Op>>
    requires i <= |rs|
    decreases |rs| - i
  {
    if i == |rs| then [] else (if rs[i].seqNo > n then [rs[i]] else []) + Newer(rs, n, i + 1)
  }

  function OpsOf<Op>(rs: seq<Record<Op>>): (ops: seq<Op>)
    ensures |ops| == |rs|
  {
    seq(|rs|, i requires 0 <= i < |rs| => rs[i].op)
  }

  function AsLines<Op>(rs: seq<Record<Op>>): (ls: seq<Line<Op>>)
    ensures |ls| == |rs|
  {
    seq(|rs|, i requires 0 <= i < |rs| => Rec(rs[i]))
  }

  /** A scan truncates a torn tail it reaches. */
  function Repaired<Op>(f: File<Op>): File<Op> {
    if HealthOf(f).Torn? then File(f.lines, NoTail) else f
  }

  /** A scan's finding joined to the status already known. */
  function Join(status: Health, found: Health): Health {
    match found
    case Clean => status
    case Torn => if status.Clean? then Torn else status
    case Corrupt => Corrupt
  }

  /** What outlives a process. */
  class Disk<Op(==, !new)> {
    var log: File<Op>

    constructor ()
      ensures log == Missing
    {
      log := Missing;
    }
  }

  class AofLog<Op(==, !new)> {
    const disk: Disk<Op>
    var lastSeq: nat
    var status: Health

    constructor (disk: Disk<Op>)
      modifies disk
      ensures this.disk == disk && disk.log == Repaired(old(disk.log))
      ensures lastSeq == LastSeq(GoodOf(old(disk.log))) && status == HealthOf(old(disk.log))
    {
      this.disk := disk;
      lastSeq, status := 0, Clean;
      new;
      lastSeq := ReadLastSequence();
    }

    /** Parse lines in order; stop at the first bad one. */
    method Parse(ls: seq<Line<Op>>) returns (good: seq<Record<Op>>)
      ensures good == Good(ls, 0, -1) && |good| <= |ls|
    {
      good := [];
      var i := 0;
      var prev: int := -1;
      while i < |ls| && Follows(ls[i], prev)
        invariant i <= |ls| && |good| == i && good + Good(ls, i, prev) == Good(ls, 0, -1)
      {
        good := good + [ls[i].rec];
        prev := ls[i].rec.seqNo;
        i := i + 1;
      }
    }

    /** A bad line makes the log corrupt; a torn tail reached by the scan is truncated. */
    method Scan() returns (good: seq<Record<Op>>)
      modifies disk, this`status
      ensures good == GoodOf(old(disk.log))
      ensures disk.log == Repaired(old(disk.log)) && status == Join(old(status), HealthOf(old(disk.log)))
    {
      var ls := Readable(disk.log);
      good := Parse(ls);
      if |good| < |ls| {
        status := Corrupt;
      } else if TailOf(disk.log).TornTail? {
        if status == Clean {
          status := Torn;
        }
        disk.log := File(disk.log.lines, NoTail);
      }
    }

    method ReadLastSequence() returns (max: nat)
      modifies disk, this`status
      ensures max == LastSeq(GoodOf(old(disk.log)))
      ensures disk.log == Repaired(old(disk.log)) && status == Join(old(status), HealthOf(old(disk.log)))
    {
      var good := Scan();
      max := LastSeq(good);
    }

    /** The record, bytes long as text, gets the next number; a failed write bars every later append.
        Nothing is written on a corrupt log, past the last number, or of an oversized record. */
    method Append(op: Op, bytes: nat, cut: Cut) returns (ok: bool)
      modifies disk, this
      ensures var writes := old(status) != Corrupt && old(lastSeq) < MAX_SAFE && bytes <= MAX_RECORD_BYTES;
        && ok == (writes && cut.CutWhole?)
        && disk.log == (if writes then Written(old(disk.log), Record(old(lastSeq) + 1, op), cut) else old(disk.log))
        && lastSeq == (if ok then old(lastSeq) + 1 else old(lastSeq))
        && status == (if !writes then old(status) else if ok then Clean else Corrupt)
    {
      if status == Corrupt || lastSeq >= MAX_SAFE || bytes > MAX_RECORD_BYTES {
        return false;
      }
      disk.log := Written(disk.log, Record(lastSeq + 1, op), cut);
      ok := cut.CutWhole?;
      if ok {
        lastSeq := lastSeq + 1;
        status := Clean;
      } else {
        status := Corrupt;
      }
    }

    /** Operations applied, in order, on top of a snapshot covering snapshotSeq; -1 stands for no
        snapshot. When applying the newer record at position throws fails, reading stops there: the
        log is corrupt, and what follows is neither applied nor repaired. */
    method Replay(snapshotSeq: int, throws: Option<nat>) returns (ops: seq<Op>)
      modifies disk, this
      ensures var newer := Newer(GoodOf(old(disk.log)), snapshotSeq, 0);
        if throws.Some? && throws.value < |newer| then
          && ops == OpsOf(newer[..throws.value]) && disk.log == old(disk.log) && status == Corrupt
          && lastSeq == Max(Max(old(lastSeq), snapshotSeq), newer[throws.value].seqNo)
        else
          && ops == OpsOf(newer)
          && lastSeq == Max(Max(old(lastSeq), snapshotSeq), LastSeq(GoodOf(old(disk.log))))
          && disk.log == Repaired(old(disk.log)) && status == Join(old(status), HealthOf(old(disk.log)))
    {
      hide Good, HealthOf, Newer;
      lastSeq := Max(lastSeq, snapshotSeq);
      var good := Parse(Readable(disk.log));
      GoodIncreases(Readable(disk.log), 0, -1);
      var newer := Select(good, snapshotSeq);
      if throws.Some? && throws.value < |newer| {
        lastSeq := Max(lastSeq, newer[throws.value].seqNo);
        status := Corrupt;
        return OpsOf(newer[..throws.value]);
      }
      good := Scan();
      var top := Highest(good, lastSeq);
      lastSeq := top;
      ops := OpsOf(newer);
    }

    method Highest(good: seq<Record<Op>>, from: nat) returns (top: nat)
      requires Increasing(good, -1)
      ensures top == Max(from, LastSeq(good))
    {
      top := from;
      var i := 0;
      while i < |good|
        invariant i <= |good| && top == Max(from, LastSeq(good[..i]))
      {
        if good[i].seqNo > top {
          top := good[i].seqNo;
        }
        i := i + 1;
      }
      assert good[..i] == good;
    }

    method Select(good: seq<Record<Op>>, n: int) returns (tail: seq<Record<Op>>)
      ensures tail == Newer(good, n, 0)
    {
      tail := [];
      var i := 0;
      while i < |good|
        invariant i <= |good| && tail + Newer(good, n, i) == Newer(good, n, 0)
      {
        if good[i].seqNo > n {
          tail := tail + [good[i]];
        }
        i := i + 1;
      }
    }

    /** Replace the log by the records newer than a committed snapshot, in one rename. */
    method RotateAfter(snapshotSeq: nat) returns (ok: bool)
      modifies disk, this
      ensures ok == (old(status) != Corrupt && HealthOf(old(disk.log)) != Corrupt)
      ensures !ok ==> disk.log == old(disk.log) && lastSeq == old(lastSeq) && status == Corrupt
      ensures ok ==> disk.log == File(AsLines(Newer(GoodOf(old(disk.log)), snapshotSeq, 0)), NoTail)
      ensures ok ==> lastSeq == Max(snapshotSeq, LastSeq(Newer(GoodOf(old(disk.log)), snapshotSeq, 0)))
      ensures ok ==> status == Join(old(status), HealthOf(old(disk.log)))
    {
      hide GoodOf, HealthOf, Newer, AsLines;
      if status == Corrupt {
        return false;
      }
      var good := Scan();
      if status == Corrupt {
        return false;
      }
      var tail := Select(good, snapshotSeq);
      RotatedReads(old(disk.log), snapshotSeq);
      disk.log := File(AsLines(tail), NoTail);
      var max := ReadLastSequence();
      lastSeq := Max(snapshotSeq, max);
      ok := true;
    }
  }

  ghost predicate Increasing<Op>(rs: seq<Record<Op>>, prev: int) {
    && (forall j :: 0 <= j < |rs| ==> rs[j].seqNo > prev)
    && forall j, l :: 0 <= j < l < |rs| ==> rs[j].seqNo < rs[l].seqNo
  }

  lemma GoodIncreases<Op>(ls: seq<Line<Op>>, i: nat, prev: int)
    requires i <= |ls|
    ensures Increasing(Good(ls, i, prev), prev) && |Good(ls, i, prev)| <= |ls| - i
    decreases |ls| - i
  {
    if !(i == |ls| || !Follows(ls[i], prev)) {
      GoodIncreases(ls, i + 1, ls[i].rec.seqNo);
    }
  }

  /** Increasing records are all read back, whatever bad line may follow. */
  lemma IncreasingGood<Op>(rs: seq<Record<Op>>, after: seq<Line<Op>>, i: nat, prev: int)
    requires i <= |rs| && Increasing(rs[i..], prev)
    requires after == [] || after == [Junk]
    ensures Good(AsLines(rs) + after, i, prev) == rs[i..]
    decreases |rs| - i
  {
    if i < |rs| {
      assert rs[i..][0] == rs[i] && rs[i..][1..] == rs[i + 1..];
      assert Increasing(rs[i + 1..], rs[i].seqNo);
      assert (AsLines(rs) + after)[i] == Rec(rs[i]);
      IncreasingGood(rs, after, i + 1, rs[i].seqNo);
    }
  }

  lemma NewerIncreases<Op>(rs: seq<Record<Op>>, n: int, i: nat, prev: int)
    requires i <= |rs| && Increasing(rs, -1) && (i < |rs| ==> prev < rs[i].seqNo)
    ensures Increasing(Newer(rs, n, i), prev)
    decreases |rs| - i
  {
    if i < |rs| {
      NewerIncreases(rs, n, i + 1, rs[i].seqNo);
    }
  }

  /** A log of increasing records reads back whole. */
  lemma LinesRead<Op>(rs: seq<Record<Op>>)
    requires Increasing(rs, -1)
    ensures var f := File(AsLines(rs), NoTail);
      GoodOf(f) == rs && HealthOf(f) == Clean
  {
    assert rs[0..] == rs && Readable(File(AsLines(rs), NoTail)) == AsLines(rs) + [];
    IncreasingGood(rs, [], 0, -1);
  }

  lemma RotatedReads<Op>(f: File<Op>, n: int)
    ensures var t := Newer(GoodOf(f), n, 0);
      GoodOf(File(AsLines(t), NoTail)) == t && HealthOf(File(AsLines(t), NoTail)) == Clean
  {
    GoodIncreases(Readable(f), 0, -1);
    NewerIncreases(GoodOf(f), n, 0, -1);
    LinesRead(Newer(GoodOf(f), n, 0));
  }

  /** A whole readable log is its records as lines. */
  lemma WholeLines<Op>(ls: seq<Line<Op>>, i: nat, prev: int)
    requires i <= |ls| && |Good(ls, i, prev)| == |ls| - i
    ensures AsLines(Good(ls, i, prev)) == ls[i..]
    decreases |ls| - i
  {
    if i < |ls| {
      WholeLines(ls, i + 1, ls[i].rec.seqNo);
      assert ls[i..] == [ls[i]] + ls[i + 1..];
    }
  }
}
