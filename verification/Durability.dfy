/** The durability protocol as a state machine: append, capture, commit, rotate, crash, recover. */
module Durability {
  import opened AppendLog
  import opened Decimals
  import opened ItemLists

  /** A snapshot file: the state, as the operations it holds, and the last number it covers. */
  datatype Snap<Op> = Snap(seqNo: nat, ops: seq<Op>)

  /** state is the cache as the operations it has applied, in order; pending are captured
      snapshots waiting their turn to be written; covered are numbers of snapshots this
      process has committed. */
  datatype Proc<Op> = Down
    | Up(state: seq<Op>, lastSeq: nat, status: Health, pending: seq<Snap<Op>>, covered: set<nat>)

  /** accepted is what durability owes: every acknowledged operation, and one whose process died
      in the write when its whole record stands on a line of its own; never a refused one. */
  datatype System<Op> = System(log: File<Op>, snapshot: Option<Snap<Op>>, proc: Proc<Op>, accepted: seq<Op>)

  datatype Event<Op> =
    | Append(op: Op, cut: Cut)        // the write ends here: acknowledged, or failed with an error
    | CrashInAppend(op: Op, cut: Cut) // the process dies during the write
    | Capture                         // dump the state with the current sequence number
    | CommitSnapshot                  // the oldest captured snapshot is renamed into place
    | Rotate(n: nat)                  // rotateAfter, with the number of a committed snapshot
    | Crash
    | LoseLog                         // a log the snapshot covers entirely goes missing
    | Recover

  /** The text after the log's last newline is empty, so an append starts a line of its own. */
  predicate Terminated<Op>(f: File<Op>) { TailOf(f).NoTail? }

  function SnapSeq<Op>(s: Option<Snap<Op>>): nat { if s.Some? then s.value.seqNo else 0 }

  function SnapOps<Op>(s: Option<Snap<Op>>): seq<Op> { if s.Some? then s.value.ops else [] }

  /** Load the snapshot, then replay only newer records. */
  function Recovered<Op>(log: File<Op>, snapshot: Option<Snap<Op>>): seq<Op> {
    SnapOps(snapshot) + OpsOf(Newer(GoodOf(log), if snapshot.Some? then snapshot.value.seqNo else -1, 0))
  }

  predicate Enabled<Op(==)>(s: System<Op>, e: Event<Op>) {
    match e
    case Append(_, _) => s.proc.Up? && s.proc.status != Corrupt && s.proc.lastSeq < MAX_SAFE
    case CrashInAppend(_, _) => s.proc.Up? && s.proc.status != Corrupt && s.proc.lastSeq < MAX_SAFE
    case Capture => s.proc.Up?
    case CommitSnapshot => s.proc.Up? && s.proc.pending != []
    case Rotate(n) => s.proc.Up? && n in s.proc.covered
    case Crash => s.proc.Up?
    case LoseLog => s.proc.Down? && Newer(GoodOf(s.log), SnapSeq(s.snapshot), 0) == []
    case Recover => s.proc.Down?
  }

  function Next<Op>(s: System<Op>, e: Event<Op>): System<Op>
    requires Enabled(s, e)
  {
    match e
    case Append(op, cut) =>
      var n := s.proc.lastSeq + 1;
      var t := s.(log := Written(s.log, Record(n, op), cut));
      if cut.CutWhole? then
        t.(proc := s.proc.(state := s.proc.state + [op], lastSeq := n, status := Clean), accepted := s.accepted + [op])
      else t.(proc := s.proc.(status := Corrupt))
    case CrashInAppend(op, cut) =>
      var t := s.(log := Written(s.log, Record(s.proc.lastSeq + 1, op), cut), proc := Down);
      if Terminated(s.log) && (cut.CutWhole? || cut.CutNewline?) then t.(accepted := s.accepted + [op]) else t
    case Capture => s.(proc := s.proc.(pending := s.proc.pending + [Snap(s.proc.lastSeq, s.proc.state)]))
    case CommitSnapshot =>
      s.(snapshot := Some(s.proc.pending[0]),
         proc := s.proc.(pending := s.proc.pending[1..], covered := s.proc.covered + {s.proc.pending[0].seqNo}))
    case Rotate(n) =>
      if s.proc.status == Corrupt || HealthOf(s.log) == Corrupt then s.(proc := s.proc.(status := Corrupt))
      else
        var kept := Newer(GoodOf(s.log), n, 0);
        s.(log := File(AsLines(kept), NoTail),
           proc := s.proc.(lastSeq := Max(n, LastSeq(kept)), status := Join(s.proc.status, HealthOf(s.log))))
    case Crash => s.(proc := Down)
    case LoseLog => s.(log := Missing)
    case Recover =>
      s.(log := Repaired(s.log),
         proc := Up(Recovered(s.log, s.snapshot), Max(SnapSeq(s.snapshot), LastSeq(GoodOf(s.log))),
                    HealthOf(s.log), [], {}))
  }

  // ---- the invariant ----

  /** Record number j holds the j-th accepted operation, for a contiguous run of numbers
      ending at the last one. */
  ghost predicate Numbered<Op>(rs: seq<Record<Op>>, accepted: seq<Op>) {
    && |rs| <= |accepted|
    && forall j :: 0 <= j < |rs| ==>
         rs[j] == Record(|accepted| - |rs| + j + 1, accepted[|accepted| - |rs| + j])
  }

  ghost predicate Faithful<Op>(p: Snap<Op>, accepted: seq<Op>) {
    p.seqNo <= |accepted| && p.ops == accepted[..p.seqNo]
  }

  /** Every accepted operation is in the snapshot or in a numbered, readable record. */
  ghost predicate Intact<Op>(s: System<Op>) {
    && HealthOf(s.log) != Corrupt && Numbered(GoodOf(s.log), s.accepted)
    && (s.snapshot.Some? ==> Faithful(s.snapshot.value, s.accepted))
    && |s.accepted| - |GoodOf(s.log)| <= SnapSeq(s.snapshot)
  }

  /** A log with a bad line, all of which the snapshot covers. */
  ghost predicate Covered<Op>(s: System<Op>) {
    && HealthOf(s.log) == Corrupt && s.snapshot == Some(Snap(|s.accepted|, s.accepted))
    && forall i :: 0 <= i < |GoodOf(s.log)| ==> GoodOf(s.log)[i].seqNo <= |s.accepted|
  }

  ghost predicate DiskOk<Op>(s: System<Op>) { Intact(s) || Covered(s) }

  ghost predicate ProcOk<Op>(s: System<Op>) {
    s.proc.Up? ==>
      && s.proc.state == s.accepted && s.proc.lastSeq == |s.accepted|
      && (s.proc.status != Corrupt ==> Intact(s) && !TailOf(s.log).TornTail?)
      && (forall i :: 0 <= i < |s.proc.pending| ==> Faithful(s.proc.pending[i], s.accepted))
      && (forall i :: 0 <= i < |s.proc.pending| ==> SnapSeq(s.snapshot) <= s.proc.pending[i].seqNo)
      && (forall i, j :: 0 <= i < j < |s.proc.pending| ==> s.proc.pending[i].seqNo <= s.proc.pending[j].seqNo)
      && forall n :: n in s.proc.covered ==> n <= SnapSeq(s.snapshot)
  }

  ghost predicate Safe<Op>(s: System<Op>) { DiskOk(s) && ProcOk(s) }

  lemma NumberedFacts<Op>(rs: seq<Record<Op>>, accepted: seq<Op>)
    requires Numbered(rs, accepted)
    ensures Increasing(rs, -1)
    ensures rs != [] ==> LastSeq(rs) == |accepted|
  {
  }

  lemma NewerSuffix<Op>(rs: seq<Record<Op>>, accepted: seq<Op>, n: int, i: nat)
    requires Numbered(rs, accepted) && i <= |rs|
    ensures Newer(rs, n, i) == rs[Clamp(n - (|accepted| - |rs|), i, |rs|)..]
    decreases |rs| - i
  {
    if i < |rs| {
      NewerSuffix(rs, accepted, n, i + 1);
    }
  }

  function Clamp(x: int, lo: nat, hi: nat): nat
    requires lo <= hi
  {
    if x < lo then lo else if x > hi then hi else x
  }

  /** Dropping covered records leaves a numbered run ending where the old one did. */
  lemma NewerNumbered<Op>(rs: seq<Record<Op>>, accepted: seq<Op>, n: int)
    requires Numbered(rs, accepted)
    ensures var t := Newer(rs, n, 0);
      && Numbered(t, accepted) && |accepted| - |t| == Clamp(n, |accepted| - |rs|, |accepted|)
      && OpsOf(t) == accepted[|accepted| - |t|..]
  {
    hide Newer;
    NewerSuffix(rs, accepted, n, 0);
    var from := Clamp(n - (|accepted| - |rs|), 0, |rs|);
    var t := rs[from..];
    assert forall j :: 0 <= j < |t| ==> t[j] == rs[from + j];
    assert Numbered(t, accepted);
  }

  /** Snapshot and newer records together are everything accepted: nothing lost, nothing twice. */
  lemma RecoveredAccepted<Op>(s: System<Op>)
    requires DiskOk(s)
    ensures Recovered(s.log, s.snapshot) == s.accepted
    ensures Max(SnapSeq(s.snapshot), LastSeq(GoodOf(s.log))) == |s.accepted|
  {
    hide Newer, GoodOf, Numbered, OpsOf, HealthOf;
    var rs := GoodOf(s.log);
    var n := if s.snapshot.Some? then s.snapshot.value.seqNo else -1;
    if Intact(s) {
      NumberedFacts(rs, s.accepted);
      NewerNumbered(rs, s.accepted, n);
      var m := |s.accepted| - |Newer(rs, n, 0)|;
      assert s.accepted == s.accepted[..m] + s.accepted[m..];
    } else {
      NoneNewer(rs, n, 0);
      assert OpsOf<Op>([]) == [];
    }
  }

  lemma NoneNewer<Op>(rs: seq<Record<Op>>, n: int, i: nat)
    requires i <= |rs| && forall j :: 0 <= j < |rs| ==> rs[j].seqNo <= n
    ensures Newer(rs, n, i) == []
    decreases |rs| - i
  {
    if i < |rs| {
      NoneNewer(rs, n, i + 1);
    }
  }

  lemma ReadableIs<Op>(f: File<Op>)
    requires HealthOf(f) != Corrupt
    ensures Readable(f) == AsLines(GoodOf(f)) && !TailOf(f).JunkTail?
  {
    GoodIncreases(Readable(f), 0, -1);
    WholeLines(Readable(f), 0, -1);
    assert Readable(f)[0..] == Readable(f);
    var n := |Lines(f)|;
    assert n < |Readable(f)| ==> Readable(f)[n] == AsLines(GoodOf(f))[n];
  }

  /** A file whose readable lines are a numbered run reads back as that run. */
  lemma NumberedReads<Op>(f: File<Op>, rs: seq<Record<Op>>, accepted: seq<Op>)
    requires Numbered(rs, accepted) && Readable(f) == AsLines(rs)
    ensures GoodOf(f) == rs && HealthOf(f) != Corrupt
  {
    NumberedFacts(rs, accepted);
    assert rs[0..] == rs && Readable(f) == AsLines(rs) + [];
    IncreasingGood(rs, [], 0, -1);
  }

  lemma WrittenReads<Op>(f: File<Op>, r: Record<Op>, cut: Cut)
    requires Terminated(f)
    ensures Readable(Written(f, r, cut)) ==
      Readable(f) + if cut.CutWhole? || cut.CutNewline? then [Rec(r)] else []
  {
    match cut
    case CutNothing =>
    case CutInside =>
    case CutNewline =>
    case CutWhole =>
  }

  lemma WrittenKeepsDisk<Op>(s: System<Op>, op: Op, cut: Cut)
    requires Intact(s) && Terminated(s.log)
    ensures Intact(s.(log := Written(s.log, Record(|s.accepted| + 1, op), cut),
                      accepted := if cut.CutWhole? || cut.CutNewline? then s.accepted + [op] else s.accepted))
  {
    hide GoodOf, HealthOf;
    var r := Record(|s.accepted| + 1, op);
    var t := Written(s.log, r, cut);
    var rs := GoodOf(s.log);
    ReadableIs(s.log);
    WrittenReads(s.log, r, cut);
    if cut.CutWhole? || cut.CutNewline? {
      assert Readable(t) == AsLines(rs + [r]);
      assert Numbered(rs + [r], s.accepted + [op]);
      NumberedReads(t, rs + [r], s.accepted + [op]);
      if s.snapshot.Some? {
        FaithfulGrows(s.snapshot.value, s.accepted, op);
      }
    } else {
      assert Readable(t) == Readable(s.log);
      NumberedReads(t, rs, s.accepted);
    }
  }

  lemma FaithfulGrows<Op>(p: Snap<Op>, accepted: seq<Op>, op: Op)
    requires Faithful(p, accepted)
    ensures Faithful(p, accepted + [op])
  {
  }

  // ---- which steps keep the promise ----

  /** The steps after which the disk still gives back exactly what was accepted. Appends: nothing
      was written, or the line was terminated and the write did not fail exactly before its newline,
      or the glued line spoils records the snapshot covers anyway. Rotation: it is refused, or some
      record stays, or the number is the last one given out. */
  predicate Careful<Op>(s: System<Op>, e: Event<Op>)
    requires Enabled(s, e)
  {
    match e
    case Append(_, cut) =>
      cut.CutNothing? || (if Terminated(s.log) then !cut.CutNewline?
                          else !cut.CutWhole? && SnapSeq(s.snapshot) == s.proc.lastSeq)
    case CrashInAppend(_, cut) =>
      cut.CutNothing? || Terminated(s.log) || SnapSeq(s.snapshot) == s.proc.lastSeq
    case Rotate(n) => s.proc.status == Corrupt || n == s.proc.lastSeq || Newer(GoodOf(s.log), n, 0) != []
    case _ => true
  }

  lemma NextSafe<Op>(s: System<Op>, e: Event<Op>)
    requires Safe(s) && Enabled(s, e) && Careful(s, e)
    ensures Safe(Next(s, e))
  {
    hide Safe, Next;
    match e
    case Append(op, cut) =>
      if Terminated(s.log) { AppendSafe(s, op, cut); } else { GluedAppendSafe(s, op, cut); }
    case CrashInAppend(op, cut) =>
      if Terminated(s.log) { DyingAppendSafe(s, op, cut); } else { GluedDyingSafe(s, op, cut); }
    case Rotate(n) => RotateSafe(s, n);
    case LoseLog => LoseLogSafe(s);
    case Recover => RecoverSafe(s);
    case _ => SnapshotSafe(s, e);
  }

  lemma SnapshotSafe<Op>(s: System<Op>, e: Event<Op>)
    requires Safe(s) && Enabled(s, e) && (e.Capture? || e.CommitSnapshot? || e.Crash?)
    ensures Safe(Next(s, e))
  {
    hide GoodOf, HealthOf, Numbered;
    assert s.accepted[..|s.accepted|] == s.accepted;
    if e.CommitSnapshot? {
      var p := s.proc.pending[0];
      assert Faithful(p, s.accepted);
      assert Covered(s) ==> p == Snap(|s.accepted|, s.accepted);
    }
  }

  lemma DyingAppendSafe<Op>(s: System<Op>, op: Op, cut: Cut)
    requires Safe(s) && Enabled(s, CrashInAppend(op, cut)) && Terminated(s.log)
    ensures Safe(Next(s, CrashInAppend(op, cut)))
  {
    hide GoodOf, HealthOf, Numbered;
    WrittenKeepsDisk(s, op, cut);
  }

  lemma AppendSafe<Op>(s: System<Op>, op: Op, cut: Cut)
    requires Safe(s) && Enabled(s, Append(op, cut)) && Terminated(s.log) && !cut.CutNewline?
    ensures Safe(Next(s, Append(op, cut)))
  {
    hide GoodOf, HealthOf, Numbered;
    WrittenKeepsDisk(s, op, cut);
    forall i | 0 <= i < |s.proc.pending| ensures Faithful(s.proc.pending[i], s.accepted + [op]) {
      FaithfulGrows(s.proc.pending[i], s.accepted, op);
    }
  }

  /** What a write onto an unterminated line leaves: the same file, or one that lost its last record. */
  lemma GluedDisk<Op>(s: System<Op>, op: Op, cut: Cut)
    requires Safe(s) && s.proc.Up? && s.proc.status != Corrupt && !Terminated(s.log)
    ensures var rs := GoodOf(s.log);
      var f := Written(s.log, Record(s.proc.lastSeq + 1, op), cut);
      && rs != [] && s.accepted != [] && Intact(s)
      && (cut.CutNothing? ==> Readable(f) == Readable(s.log) && TailOf(f) == TailOf(s.log))
      && (!cut.CutNothing? ==> GoodOf(f) == rs[..|rs| - 1] && HealthOf(f) == Corrupt)
  {
    hide Newer, Numbered, GoodOf, HealthOf;
    var rs := GoodOf(s.log);
    ReadableIs(s.log);
    FullTailLast(s.log, rs);
    NumberedFacts(rs, s.accepted);
    InitNumbered(rs, s.accepted);
    if !cut.CutNothing? {
      GluedReads(s.log, Record(s.proc.lastSeq + 1, op), cut, rs);
    }
  }

  lemma GluedAppendSafe<Op>(s: System<Op>, op: Op, cut: Cut)
    requires Safe(s) && Enabled(s, Append(op, cut)) && !Terminated(s.log) && !cut.CutWhole?
    requires cut.CutNothing? || SnapSeq(s.snapshot) == s.proc.lastSeq
    ensures Safe(Next(s, Append(op, cut)))
  {
    hide GoodOf, HealthOf, Numbered, Readable;
    GluedDisk(s, op, cut);
    if cut.CutNothing? {
      SameReadable(s.log, Next(s, Append(op, cut)).log);
    } else {
      CoveredFits(s);
    }
  }

  lemma GluedDyingSafe<Op>(s: System<Op>, op: Op, cut: Cut)
    requires Safe(s) && Enabled(s, CrashInAppend(op, cut)) && !Terminated(s.log)
    requires cut.CutNothing? || SnapSeq(s.snapshot) == s.proc.lastSeq
    ensures Safe(Next(s, CrashInAppend(op, cut)))
  {
    hide GoodOf, HealthOf, Numbered, Readable;
    GluedDisk(s, op, cut);
    if cut.CutNothing? {
      SameReadable(s.log, Next(s, CrashInAppend(op, cut)).log);
    } else {
      CoveredFits(s);
    }
  }

  lemma SameReadable<Op>(f: File<Op>, g: File<Op>)
    requires Readable(f) == Readable(g) && TailOf(f) == TailOf(g)
    ensures GoodOf(f) == GoodOf(g) && HealthOf(f) == HealthOf(g)
  {
  }

  /** When the snapshot covers the last number it is the whole state, and no record is beyond it. */
  lemma CoveredFits<Op>(s: System<Op>)
    requires Intact(s) && s.accepted != [] && SnapSeq(s.snapshot) == |s.accepted|
    ensures s.snapshot == Some(Snap(|s.accepted|, s.accepted))
    ensures forall i :: 0 <= i < |GoodOf(s.log)| ==> GoodOf(s.log)[i].seqNo <= |s.accepted|
  {
    assert s.accepted[..|s.accepted|] == s.accepted;
  }

  lemma RotateSafe<Op>(s: System<Op>, n: nat)
    requires Safe(s) && Enabled(s, Rotate(n)) && Careful(s, Rotate(n))
    ensures Safe(Next(s, Rotate(n)))
  {
    hide Newer, GoodOf, Numbered, HealthOf, Faithful, Increasing, AsLines, OpsOf;
    if s.proc.status != Corrupt {
      RotatedIntact(s, n);
    }
  }

  lemma RotatedIntact<Op>(s: System<Op>, n: nat)
    requires Safe(s) && Enabled(s, Rotate(n)) && Careful(s, Rotate(n)) && s.proc.status != Corrupt
    ensures var t := Next(s, Rotate(n));
      Intact(t) && t.proc.lastSeq == |s.accepted| && t.log == File(AsLines(Newer(GoodOf(s.log), n, 0)), NoTail)
  {
    hide Newer, GoodOf, Numbered, HealthOf, Faithful, Increasing, AsLines, OpsOf;
    var kept := Newer(GoodOf(s.log), n, 0);
    NewerNumbered(GoodOf(s.log), s.accepted, n);
    NumberedFacts(kept, s.accepted);
    LinesRead(kept);
    CoveredBound(s, n);
  }

  /** Rotating by the number of the newest committed snapshot always keeps the promise. */
  lemma RotateNewestCareful<Op>(s: System<Op>)
    requires Safe(s) && Enabled(s, Rotate(SnapSeq(s.snapshot)))
    ensures Careful(s, Rotate(SnapSeq(s.snapshot)))
  {
    hide Newer, GoodOf, Numbered, HealthOf;
    if s.proc.status != Corrupt {
      NewerNumbered(GoodOf(s.log), s.accepted, SnapSeq(s.snapshot));
    }
  }

  lemma CoveredBound<Op>(s: System<Op>, n: nat)
    requires Safe(s) && Enabled(s, Rotate(n))
    ensures n <= |s.accepted|
  {
  }

  lemma LoseLogSafe<Op>(s: System<Op>)
    requires Safe(s) && Enabled(s, LoseLog)
    ensures Safe(Next(s, LoseLog))
  {
    hide Newer;
    if Intact(s) {
      NewerNumbered(GoodOf(s.log), s.accepted, SnapSeq(s.snapshot));
    } else {
      assert s.accepted[..|s.accepted|] == s.accepted;
    }
  }

  lemma RecoverSafe<Op>(s: System<Op>)
    requires Safe(s) && Enabled(s, Recover)
    ensures Safe(Next(s, Recover)) && Next(s, Recover).proc.state == s.accepted
  {
    hide GoodOf, Recovered, Numbered;
    RecoveredAccepted(s);
    RepairedReads(s.log);
  }

  // ---- whole runs ----

  ghost predicate Runs<Op>(s: System<Op>, es: seq<Event<Op>>)
    decreases |es|
  {
    es == [] || (Enabled(s, es[0]) && Runs(Next(s, es[0]), es[1..]))
  }

  ghost predicate CarefulRun<Op>(s: System<Op>, es: seq<Event<Op>>)
    requires Runs(s, es)
    decreases |es|
  {
    es == [] || (Careful(s, es[0]) && CarefulRun(Next(s, es[0]), es[1..]))
  }

  function After<Op>(s: System<Op>, es: seq<Event<Op>>): System<Op>
    requires Runs(s, es)
    decreases |es|
  {
    if es == [] then s else After(Next(s, es[0]), es[1..])
  }

  function Start<Op>(): System<Op> { System(Missing, None, Down, []) }

  lemma {:induction false} RunsSafe<Op>(s: System<Op>, es: seq<Event<Op>>)
    requires Safe(s) && Runs(s, es) && CarefulRun(s, es)
    ensures Safe(After(s, es))
    decreases |es|
  {
    if es != [] {
      NextSafe(s, es[0]);
      RunsSafe(Next(s, es[0]), es[1..]);
    }
  }

  /** Crash safety: wherever a run stands, a crash now and a recovery bring back exactly the
      accepted operations in order, a running process holds exactly those, and the next append
      is numbered above the snapshot and above every record of the log. */
  lemma CrashSafety<Op>(es: seq<Event<Op>>)
    requires Runs(Start<Op>(), es) && CarefulRun(Start<Op>(), es)
    ensures var s := After(Start<Op>(), es);
      && Recovered(s.log, s.snapshot) == s.accepted
      && (s.proc.Up? ==> s.proc.state == s.accepted && s.proc.lastSeq + 1 > SnapSeq(s.snapshot))
      && (s.proc.Up? ==> forall r :: r in GoodOf(s.log) ==> r.seqNo < s.proc.lastSeq + 1)
  {
    RunsSafe(Start<Op>(), es);
    RecoveredAccepted(After(Start<Op>(), es));
  }

  lemma StartSafe<Op>()
    ensures Safe(Start<Op>())
  {
  }

  /** So the records a restart replays are those of the operations the snapshot does not cover. */
  lemma NewerAreTheRest<Op>(es: seq<Event<Op>>)
    requires Runs(Start<Op>(), es) && CarefulRun(Start<Op>(), es)
    ensures var s := After(Start<Op>(), es);
      && SnapSeq(s.snapshot) <= |s.accepted|
      && OpsOf(Newer(GoodOf(s.log), if s.snapshot.Some? then s.snapshot.value.seqNo else -1, 0))
           == s.accepted[SnapSeq(s.snapshot)..]
  {
    hide Newer, GoodOf, OpsOf, HealthOf, Numbered;
    var s := After(Start<Op>(), es);
    StartSafe<Op>();
    RunsSafe(Start<Op>(), es);
    RecoveredAccepted(s);
    var ops := OpsOf(Newer(GoodOf(s.log), if s.snapshot.Some? then s.snapshot.value.seqNo else -1, 0));
    assert SnapOps(s.snapshot) == s.accepted[..SnapSeq(s.snapshot)];
    assert (SnapOps(s.snapshot) + ops)[|SnapOps(s.snapshot)|..] == ops;
  }

  // ---- exactly these steps ----

  /** The promise: a restart now would bring back exactly what was accepted. */
  ghost predicate Kept<Op>(s: System<Op>) { Recovered(s.log, s.snapshot) == s.accepted }

  /** From any safe state, an append, acknowledged, refused or dying, leaves the promise kept
      exactly when it is careful. */
  lemma AppendKeptIff<Op>(s: System<Op>, e: Event<Op>)
    requires Safe(s) && Enabled(s, e) && (e.Append? || e.CrashInAppend?)
    ensures Kept(Next(s, e)) <==> Careful(s, e)
  {
    hide GoodOf, HealthOf, Numbered, Safe;
    if Careful(s, e) {
      NextSafe(s, e);
      RecoveredAccepted(Next(s, e)) by { SafeDisk(Next(s, e)); }
    } else if Terminated(s.log) {
      RefusedReturns(s, e.op);
    } else {
      GluedIsLost(s, e);
    }
  }

  lemma SafeDisk<Op>(s: System<Op>)
    requires Safe(s)
    ensures DiskOk(s)
  {
  }

  /** A refused append cut exactly before its newline comes back after a restart. */
  lemma RefusedReturns<Op>(s: System<Op>, op: Op)
    requires Safe(s) && Enabled(s, Append(op, CutNewline)) && Terminated(s.log)
    ensures var t := Next(s, Append(op, CutNewline));
      t.accepted == s.accepted && Recovered(t.log, t.snapshot) == s.accepted + [op]
  {
    hide GoodOf, HealthOf, Numbered, Newer;
    WrittenKeepsDisk(s, op, CutNewline);
    var t := Next(s, Append(op, CutNewline));
    RecoveredAccepted(t.(accepted := s.accepted + [op]));
  }

  /** A write glued onto an unterminated record that no snapshot covers loses that record. */
  lemma GluedIsLost<Op>(s: System<Op>, e: Event<Op>)
    requires Safe(s) && Enabled(s, e) && (e.Append? || e.CrashInAppend?) && !e.cut.CutNothing? && !Terminated(s.log)
    requires (e.Append? && e.cut.CutWhole?) || SnapSeq(s.snapshot) != s.proc.lastSeq
    ensures var t := Next(s, e);
      |Recovered(t.log, t.snapshot)| < |t.accepted|
  {
    hide Newer, Numbered, GoodOf, HealthOf;
    var rs := GoodOf(s.log);
    GluedDisk(s, e.op, e.cut);
    InitNumbered(rs, s.accepted);
    var n := if s.snapshot.Some? then s.snapshot.value.seqNo else -1;
    NewerNumbered(rs[..|rs| - 1], s.accepted[..|s.accepted| - 1], n);
  }

  /** Rotation shows at the next acknowledged append: it is recoverable, with all before it,
      exactly when the rotation was careful. */
  lemma RotateKeptIff<Op>(s: System<Op>, n: nat, op: Op)
    requires Safe(s) && Enabled(s, Rotate(n)) && s.proc.status != Corrupt && s.proc.lastSeq < MAX_SAFE
    ensures var t := Next(s, Rotate(n));
      && Kept(t) && Enabled(t, Append(op, CutWhole))
      && (Kept(Next(t, Append(op, CutWhole))) <==> Careful(s, Rotate(n)))
  {
    hide GoodOf, HealthOf, Numbered, Newer, Safe, Careful, AsLines;
    var t := Next(s, Rotate(n));
    RotatedUsable(s, n);
    if Careful(s, Rotate(n)) {
      NextSafe(s, Rotate(n));
      SafeDisk(t);
      RecoveredAccepted(t);
      AppendKeptIff(t, Append(op, CutWhole));
      assert Careful(t, Append(op, CutWhole)) by { WholeCareful(t, op); }
    } else {
      RotatedLoses(s, n, op);
    }
  }

  /** The exact boundary of crash safety: after any careful run, one more step keeps the promise
      exactly when it is careful; a careless rotation breaks it at the next acknowledged append. */
  lemma CrashSafetyIff<Op>(es: seq<Event<Op>>, e: Event<Op>, op: Op)
    requires Runs(Start<Op>(), es) && CarefulRun(Start<Op>(), es) && Enabled(After(Start<Op>(), es), e)
    ensures var s := After(Start<Op>(), es);
      var t := Next(s, e);
      && (!e.Rotate? ==> (Kept(t) <==> Careful(s, e)))
      && (e.Rotate? ==> Kept(t))
      && (e.Rotate? && s.proc.status != Corrupt && s.proc.lastSeq < MAX_SAFE ==>
            && Enabled(t, Append(op, CutWhole))
            && (Kept(Next(t, Append(op, CutWhole))) <==> Careful(s, e)))
  {
    hide Safe, Careful, Next, Kept;
    var s := After(Start<Op>(), es);
    RunsSafe(Start<Op>(), es);
    if e.Append? || e.CrashInAppend? {
      AppendKeptIff(s, e);
    } else if e.Rotate? && s.proc.status != Corrupt {
      RotatedKept(s, e.n);
      if s.proc.lastSeq < MAX_SAFE { RotateKeptIff(s, e.n, op); }
    } else {
      assert Careful(s, e) by { OtherCareful(s, e); }
      NextSafe(s, e);
      SafeDisk(Next(s, e));
      RecoveredAccepted(Next(s, e));
      assert Kept(Next(s, e)) by { KeptIs(Next(s, e)); }
    }
  }

  /** Nothing is lost by a rotation itself. */
  lemma RotatedKept<Op>(s: System<Op>, n: nat)
    requires Safe(s) && Enabled(s, Rotate(n)) && s.proc.status != Corrupt
    ensures Kept(Next(s, Rotate(n)))
  {
    hide GoodOf, HealthOf, Numbered, Newer, AsLines, Careful, OpsOf;
    if Careful(s, Rotate(n)) {
      NextSafe(s, Rotate(n));
      SafeDisk(Next(s, Rotate(n)));
      RecoveredAccepted(Next(s, Rotate(n)));
    } else {
      EmptyRotation(s, n);
      RotatedUsable(s, n);
      LinesRead<Op>([]);
      NoneNewer<Op>([], |s.accepted|, 0);
      assert OpsOf<Op>([]) == [];
    }
  }

  lemma KeptIs<Op>(s: System<Op>)
    ensures Kept(s) <==> Recovered(s.log, s.snapshot) == s.accepted
  {
  }

  lemma OtherCareful<Op>(s: System<Op>, e: Event<Op>)
    requires Enabled(s, e) && !e.Append? && !e.CrashInAppend? && (e.Rotate? ==> s.proc.status == Corrupt)
    ensures Careful(s, e)
  {
  }

  lemma WholeCareful<Op>(t: System<Op>, op: Op)
    requires Enabled(t, Append(op, CutWhole)) && Terminated(t.log)
    ensures Careful(t, Append(op, CutWhole))
  {
  }

  lemma RotatedUsable<Op>(s: System<Op>, n: nat)
    requires Safe(s) && Enabled(s, Rotate(n)) && s.proc.status != Corrupt
    ensures var t := Next(s, Rotate(n));
      && t.proc.Up? && t.proc.lastSeq <= s.proc.lastSeq && t.proc.status != Corrupt
      && Terminated(t.log) && t.log == File(AsLines(Newer(GoodOf(s.log), n, 0)), NoTail)
  {
    hide GoodOf, Numbered, Newer, AsLines;
    NewerNumbered(GoodOf(s.log), s.accepted, n);
    NumberedFacts(Newer(GoodOf(s.log), n, 0), s.accepted);
    CoveredBound(s, n);
  }

  /** A rotation that empties the log by an older number numbers the next append below the snapshot. */
  lemma RotatedLoses<Op>(s: System<Op>, n: nat, op: Op)
    requires Safe(s) && Enabled(s, Rotate(n)) && !Careful(s, Rotate(n)) && s.proc.lastSeq < MAX_SAFE
    ensures var t := Next(s, Rotate(n));
      && Kept(t) && Enabled(t, Append(op, CutWhole))
      && var u := Next(t, Append(op, CutWhole)); |Recovered(u.log, u.snapshot)| < |u.accepted|
  {
    hide GoodOf, HealthOf, Numbered, Faithful;
    var t := Next(s, Rotate(n));
    EmptyRotation(s, n);
    var r := Record(n + 1, op);
    LinesRead([r]);
    LinesRead<Op>([]);
    assert AsLines<Op>([]) == [] && AsLines([r]) == [Rec(r)];
    var u := Next(t, Append(op, CutWhole));
    assert u.log == File(AsLines([r]), NoTail);
    NoneNewer([r], |s.accepted|, 0);
    assert OpsOf<Op>([]) == [];
  }

  lemma EmptyRotation<Op>(s: System<Op>, n: nat)
    requires Safe(s) && Enabled(s, Rotate(n)) && !Careful(s, Rotate(n))
    ensures n < |s.accepted| && s.snapshot == Some(Snap(|s.accepted|, s.accepted)) && Intact(s)
    ensures Newer(GoodOf(s.log), n, 0) == []
  {
    hide GoodOf, HealthOf, Numbered, Newer;
    NewerNumbered(GoodOf(s.log), s.accepted, n);
    CoveredBound(s, n);
    assert s.accepted[..|s.accepted|] == s.accepted;
  }

  lemma FullTailLast<Op>(f: File<Op>, rs: seq<Record<Op>>)
    requires TailOf(f).FullTail? && Readable(f) == AsLines(rs)
    ensures rs != [] && Lines(f) == AsLines(rs[..|rs| - 1])
  {
    assert |Readable(f)| == |Lines(f)| + 1;
    assert Lines(f) == Readable(f)[..|rs| - 1];
  }

  lemma GluedReads<Op>(f: File<Op>, r: Record<Op>, cut: Cut, rs: seq<Record<Op>>)
    requires TailOf(f).FullTail? && rs != [] && Lines(f) == AsLines(rs[..|rs| - 1]) && Increasing(rs, -1)
        && !cut.CutNothing?
    ensures GoodOf(Written(f, r, cut)) == rs[..|rs| - 1] && HealthOf(Written(f, r, cut)) == Corrupt
  {
    var init := rs[..|rs| - 1];
    assert init[0..] == init;
    IncreasingGood(init, [Junk], 0, -1);
    assert Readable(Written(f, r, cut)) == AsLines(init) + [Junk];
  }

  lemma InitNumbered<Op>(rs: seq<Record<Op>>, accepted: seq<Op>)
    requires Numbered(rs, accepted) && rs != []
    ensures accepted != [] && Numbered(rs[..|rs| - 1], accepted[..|accepted| - 1])
  {
  }

  // ---- runs that break the promise ----

  ghost predicate Leads<Op>(es: seq<Event<Op>>, s: System<Op>) {
    Runs(Start<Op>(), es) && After(Start<Op>(), es) == s
  }

  lemma {:induction false} OneMore<Op>(s: System<Op>, es: seq<Event<Op>>, e: Event<Op>)
    requires Runs(s, es) && Enabled(After(s, es), e)
    ensures Runs(s, es + [e]) && After(s, es + [e]) == Next(After(s, es), e)
    decreases |es|
  {
    hide Next, Enabled;
    if es != [] {
      OneMore(Next(s, es[0]), es[1..], e);
      assert (es + [e])[1..] == es[1..] + [e];
    } else {
      assert [] + [e] == [e] && [e][1..] == [];
    }
  }

  lemma Then<Op>(es: seq<Event<Op>>, s: System<Op>, e: Event<Op>, fs: seq<Event<Op>>)
    requires Leads(es, s) && Enabled(s, e) && fs == es + [e]
    ensures Leads(fs, Next(s, e))
  {
    OneMore(Start<Op>(), es, e);
  }

  lemma ThenSafely<Op>(es: seq<Event<Op>>, s: System<Op>, e: Event<Op>, fs: seq<Event<Op>>)
    requires Leads(es, s) && Safe(s) && Enabled(s, e) && Careful(s, e) && fs == es + [e]
    ensures Leads(fs, Next(s, e)) && Safe(Next(s, e))
  {
    Then(es, s, e, fs);
    NextSafe(s, e);
  }

  /** An append refused to its client, whose write failed exactly before the newline, is back
      after a restart. */
  lemma RefusedAppendReturns<Op>(a: Op) returns (s: System<Op>)
    ensures Leads([Recover, Append(a, CutNewline)], s)
    ensures s.accepted == [] && s.proc.Up? && s.proc.state == [] && Recovered(s.log, s.snapshot) == [a]
  {
    hide GoodOf, HealthOf, Recovered, Intact, Covered, Leads;
    var s1 := Begun<Op>();
    RefusedReturns(s1, a);
    Then([Recover], s1, Append(a, CutNewline), [Recover, Append(a, CutNewline)]);
    s := Next(s1, Append(a, CutNewline));
  }

  /** The second write loses its newline in a crash, the third is acknowledged after recovery,
      and the next recovery does not bring it back. */
  lemma NewlineCutLosesAnAppend<Op>(a: Op, b: Op, c: Op) returns (s: System<Op>)
    ensures Leads([Recover, Append(a, CutWhole), CrashInAppend(b, CutNewline), Recover, Append(c, CutWhole)], s)
    ensures s.accepted == [a, b, c] && |Recovered(s.log, s.snapshot)| < 3
  {
    hide GoodOf, HealthOf, Recovered, Intact, Covered, Leads, Numbered;
    var s1 := Begun<Op>();
    var e1, e2 := Append(a, CutWhole), CrashInAppend(b, CutNewline);
    ThenSafely([Recover], s1, e1, [Recover, e1]);
    var s2 := Next(s1, e1);
    ThenSafely([Recover, e1], s2, e2, [Recover, e1, e2]);
    var s3 := Next(s2, e2);
    ThenSafely([Recover, e1, e2], s3, Recover, [Recover, e1, e2, Recover]);
    var s4 := Next(s3, Recover);
    FullTailStays(s3);
    var e4 := Append(c, CutWhole);
    GluedIsLost(s4, e4);
    Then([Recover, e1, e2, Recover], s4, e4, [Recover, e1, e2, Recover, e4]);
    s := Next(s4, e4);
  }

  /** A second rotation by an older number, on a log the first has emptied, makes the next
      acknowledged append unrecoverable. */
  lemma OlderRotationLosesAnAppend<Op>(a: Op, b: Op, c: Op) returns (s: System<Op>)
    ensures Leads([Recover, Append(a, CutWhole), Capture, Append(b, CutWhole), Capture,
                   CommitSnapshot, CommitSnapshot, Rotate(2), Rotate(1), Append(c, CutWhole)], s)
    ensures s.accepted == [a, b, c] && |Recovered(s.log, s.snapshot)| < 3
  {
    hide GoodOf, HealthOf, Recovered, Intact, Covered, Leads, Numbered, Newer;
    var ea, eb, ec := Append(a, CutWhole), Append(b, CutWhole), Append(c, CutWhole);
    var s7 := Snapshotted(a, b);
    var es := [Recover, ea, Capture, eb, Capture, CommitSnapshot, CommitSnapshot];
    ThenSafely(es, s7, Rotate(2), es + [Rotate(2)]);
    var s8 := Next(s7, Rotate(2));
    RotatedUsable(s7, 2);
    RotatedEmpty(s7, 2);
    Then(es + [Rotate(2)], s8, Rotate(1), es + [Rotate(2)] + [Rotate(1)]);
    RotatedLoses(s8, 1, c);
    var s9 := Next(s8, Rotate(1));
    Then(es + [Rotate(2)] + [Rotate(1)], s9, ec,
         [Recover, ea, Capture, eb, Capture, CommitSnapshot, CommitSnapshot, Rotate(2), Rotate(1), ec]);
    s := Next(s9, ec);
  }

  lemma FullTailStays<Op>(s: System<Op>)
    requires Safe(s) && s.snapshot.None? && TailOf(s.log).FullTail?
    ensures Repaired(s.log) == s.log && HealthOf(s.log) == Clean
  {
  }

  lemma Begun<Op>() returns (s: System<Op>)
    ensures Leads([Recover], s) && Safe(s) && s == System(Missing, None, Up([], 0, Clean, [], {}), [])
  {
    hide GoodOf, HealthOf, Safe;
    StartsEmpty<Op>();
    s := Next(Start<Op>(), Recover);
    var es: seq<Event<Op>> := [Recover];
    assert es[1..] == [];
  }

  /** Two appends, a snapshot captured after each, both committed. */
  lemma Snapshotted<Op>(a: Op, b: Op) returns (s: System<Op>)
    ensures Leads([Recover, Append(a, CutWhole), Capture, Append(b, CutWhole), Capture,
                   CommitSnapshot, CommitSnapshot], s)
    ensures Safe(s) && s.accepted == [a, b] && s.proc.Up? && s.proc.status == Clean && s.proc.lastSeq == 2
    ensures s.proc.covered == {1, 2}
  {
    hide GoodOf, HealthOf, Recovered, Intact, Covered, Leads, Numbered, Faithful;
    var ea, eb := Append(a, CutWhole), Append(b, CutWhole);
    s := Begun<Op>();
    ThenSafely([Recover], s, ea, [Recover, ea]);
    s := Next(s, ea);
    ThenSafely([Recover, ea], s, Capture, [Recover, ea, Capture]);
    s := Next(s, Capture);
    ThenSafely([Recover, ea, Capture], s, eb, [Recover, ea, Capture, eb]);
    s := Next(s, eb);
    ThenSafely([Recover, ea, Capture, eb], s, Capture, [Recover, ea, Capture, eb, Capture]);
    s := Next(s, Capture);
    ThenSafely([Recover, ea, Capture, eb, Capture], s, CommitSnapshot,
               [Recover, ea, Capture, eb, Capture, CommitSnapshot]);
    s := Next(s, CommitSnapshot);
    ThenSafely([Recover, ea, Capture, eb, Capture, CommitSnapshot], s, CommitSnapshot,
               [Recover, ea, Capture, eb, Capture, CommitSnapshot, CommitSnapshot]);
    s := Next(s, CommitSnapshot);
  }

  lemma RotatedEmpty<Op>(s: System<Op>, n: nat)
    requires Safe(s) && Enabled(s, Rotate(n)) && s.proc.status != Corrupt && n == s.proc.lastSeq
    ensures GoodOf(Next(s, Rotate(n)).log) == []
    ensures forall m :: Newer<Op>([], m, 0) == []
  {
    hide GoodOf, HealthOf, Numbered;
    NewerNumbered(GoodOf(s.log), s.accepted, n);
    LinesRead<Op>([]);
    assert AsLines<Op>([]) == [];
  }

  lemma StartsEmpty<Op>()
    ensures Next(Start<Op>(), Recover) == System(Missing, None, Up([], 0, Clean, [], {}), [])
    ensures Safe(Next(Start<Op>(), Recover))
  {
  }

  // ---- the log object takes these steps ----

  /** The object and its disk are the running process's part of s. */
  ghost predicate Holds<Op(!new)>(log: AofLog<Op>, s: System<Op>)
    reads log, log.disk
  {
    s.proc.Up? && log.disk.log == s.log && log.lastSeq == s.proc.lastSeq && log.status == s.proc.status
  }

  /** Starting a process on what a crash left behind. */
  method Restart<Op(==, !new)>(disk: Disk<Op>, snapshot: Option<Snap<Op>>, ghost s: System<Op>)
      returns (log: AofLog<Op>, state: seq<Op>)
    requires s.proc.Down? && s.log == disk.log && s.snapshot == snapshot
    modifies disk
    ensures var t := Next(s, Recover);
      Holds(log, t) && state == t.proc.state && log.disk == disk && fresh(log)
  {
    hide GoodOf, HealthOf, Newer;
    log := new AofLog(disk);
    RepairedReads(old(disk.log));
    state := SnapOps(snapshot);
    var ops := log.Replay(if snapshot.Some? then snapshot.value.seqNo else -1, None);
    state := state + ops;
  }

  /** An append takes the protocol's step, whatever part of the write succeeds; a refused one
      leaves everything as it was. */
  method LogAppend<Op(==, !new)>(log: AofLog<Op>, op: Op, bytes: nat, cut: Cut, ghost s: System<Op>) returns (ok: bool)
    requires Holds(log, s)
    modifies log, log.disk
    ensures if Enabled(s, Append(op, cut)) && bytes <= MAX_RECORD_BYTES
            then Holds(log, Next(s, Append(op, cut))) && ok == cut.CutWhole?
            else Holds(log, s) && !ok
  {
    ok := log.Append(op, bytes, cut);
  }

  /** So does a rotation, by any number. */
  method LogRotate<Op(==, !new)>(log: AofLog<Op>, n: nat, ghost s: System<Op>) returns (ok: bool)
    requires Holds(log, s) && Enabled(s, Rotate(n))
    modifies log, log.disk
    ensures Holds(log, Next(s, Rotate(n))) && ok == (Next(s, Rotate(n)).proc.status != Corrupt)
  {
    hide GoodOf, HealthOf, Newer;
    ok := log.RotateAfter(n);
  }

  lemma RepairedReads<Op>(f: File<Op>)
    ensures GoodOf(Repaired(f)) == GoodOf(f) && Repaired(Repaired(f)) == Repaired(f)
    ensures HealthOf(Repaired(f)) == if HealthOf(f).Torn? then Clean else HealthOf(f)
  {
    assert Readable(Repaired(f)) == Readable(f);
  }
}
