/** Whole runs of a cache: nested atomic frames, optimistic transactions and patches. */
module CacheRuns {
  import opened ItemLists
  import opened CacheModel
  import opened CacheInvariant

  /** One public call, a frame edge of atomic, or a change set edge of atomicChanges. */
  datatype Event =
    | Call(op: Op, now: int)
    | BeginFrame
    | CommitFrame
    | RollbackFrame
    | OpenChanges
    | CloseChanges

  function Next(cfg: Config, s: Kv, e: Event): Kv {
    match e
    case Call(op, now) => Run(cfg, s, op, now).0
    case BeginFrame => Begin(s)
    case CommitFrame => if s.frames != [] then Commit(s) else s
    case RollbackFrame => if s.frames != [] then Rollback(s) else s
    case OpenChanges => s.(changes := s.changes + [[]])
    case CloseChanges => if s.changes != [] then s.(changes := s.changes[..|s.changes| - 1]) else s
  }

  function After(cfg: Config, s: Kv, es: seq<Event>): Kv
    decreases |es|
  {
    if es == [] then s else After(cfg, Next(cfg, s, es[0]), es[1..])
  }

  // ---- the invariant over every run ----

  lemma NextInv(cfg: Config, s: Kv, e: Event)
    requires Configured(cfg) && Inv(cfg, s)
    ensures Inv(cfg, Next(cfg, s, e)) && Next(cfg, s, e).generation >= s.generation
  {
    if e.Call? {
      RunSteps(cfg, s, e.op, e.now);
    }
  }

  /** Every state any run reaches satisfies the invariant, and generations only grow. */
  lemma {:induction false} RunsKeepInvariant(cfg: Config, s: Kv, es: seq<Event>)
    requires Configured(cfg) && Inv(cfg, s)
    ensures Inv(cfg, After(cfg, s, es)) && After(cfg, s, es).generation >= s.generation
    decreases |es|
  {
    if es != [] {
      NextInv(cfg, s, es[0]);
      RunsKeepInvariant(cfg, Next(cfg, s, es[0]), es[1..]);
    }
  }

  lemma EmptyInv(cfg: Config)
    ensures Inv(cfg, EMPTY)
  {
  }

  // ---- versions never lie ----

  function VersionIn(c: Core, k: Key): int {
    match Get(c.versions, k) case Some(g) => g case None => c.absentEpoch
  }

  /** Two moments giving k the same version hold the same entry for k, or both none. */
  ghost predicate Agree(a: Core, b: Core) {
    forall k :: VersionIn(a, k) == VersionIn(b, k) ==> Get(a.entries, k) == Get(b.entries, k)
  }

  /** The present and every moment an open frame may return to agree with the moment a. */
  ghost predicate AllAgree(a: Core, s: Kv) {
    Agree(a, s.core) && forall i :: 0 <= i < |s.frames| ==> Agree(a, s.frames[i].core)
  }

  ghost predicate Consistent(s: Kv) {
    AllAgree(s.core, s) && forall i :: 0 <= i < |s.frames| ==> AllAgree(s.frames[i].core, s)
  }

  /** A moment a of the past, sound at generation g, still agrees after one more event. */
  lemma NextAgrees(cfg: Config, a: Core, g: int, s: Kv, e: Event)
    requires Configured(cfg) && Inv(cfg, s) && Sound(cfg, a, g) && g <= s.generation && AllAgree(a, s)
    ensures AllAgree(a, Next(cfg, s, e))
  {
    var t := Next(cfg, s, e);
    if e.Call? {
      RunSteps(cfg, s, e.op, e.now);
      forall k | VersionIn(a, k) == VersionIn(t.core, k) ensures Get(a.entries, k) == Get(t.core.entries, k) {
        assert VersionIn(a, k) <= g;
        assert Version(t, k) == VersionIn(t.core, k) && Version(s, k) == VersionIn(s.core, k);
        assert EntryAt(t, k) == EntryAt(s, k);
      }
    }
  }

  lemma AgreeSym(a: Core, b: Core)
    requires Agree(a, b)
    ensures Agree(b, a)
  {
  }

  lemma NextConsistent(cfg: Config, s: Kv, e: Event)
    requires Configured(cfg) && Inv(cfg, s) && Consistent(s)
    ensures Consistent(Next(cfg, s, e))
  {
    var t := Next(cfg, s, e);
    NextAgrees(cfg, s.core, s.generation, s, e);
    forall i | 0 <= i < |s.frames| ensures AllAgree(s.frames[i].core, t) {
      NextAgrees(cfg, s.frames[i].core, s.generation, s, e);
    }
    if e.Call? {
      RunSteps(cfg, s, e.op, e.now);
      forall i | 0 <= i < |t.frames| ensures Agree(t.core, t.frames[i].core) && AllAgree(t.frames[i].core, t) {
        AgreeSym(s.frames[i].core, t.core);
      }
    }
  }

  lemma {:induction false} RunAgrees(cfg: Config, a: Core, g: int, s: Kv, es: seq<Event>)
    requires Configured(cfg) && Inv(cfg, s) && Sound(cfg, a, g) && g <= s.generation && AllAgree(a, s)
    ensures AllAgree(a, After(cfg, s, es))
    decreases |es|
  {
    if es != [] {
      NextInv(cfg, s, es[0]);
      NextAgrees(cfg, a, g, s, es[0]);
      RunAgrees(cfg, a, g, Next(cfg, s, es[0]), es[1..]);
    }
  }

  lemma {:induction false} RunsConsistent(cfg: Config, s: Kv, es: seq<Event>)
    requires Configured(cfg) && Inv(cfg, s) && Consistent(s)
    ensures Consistent(After(cfg, s, es))
    decreases |es|
  {
    if es != [] {
      NextInv(cfg, s, es[0]);
      NextConsistent(cfg, s, es[0]);
      RunsConsistent(cfg, Next(cfg, s, es[0]), es[1..]);
    }
  }

  /** No ABA: over any run from the empty cache, with any nesting of frames, rollbacks,
      expiry, eviction and tombstone pruning between, equal versions of a key at two
      moments mean the same entry, or absence, at both. */
  lemma EqualVersionsEqualEntries(cfg: Config, es: seq<Event>, fs: seq<Event>, k: Key)
    requires Configured(cfg)
    ensures var s := After(cfg, EMPTY, es);
      var t := After(cfg, s, fs);
      Version(s, k) == Version(t, k) ==> EntryAt(s, k) == EntryAt(t, k)
  {
    EmptyInv(cfg);
    RunsKeepInvariant(cfg, EMPTY, es);
    RunsConsistent(cfg, EMPTY, es);
    var s := After(cfg, EMPTY, es);
    RunAgrees(cfg, s.core, s.generation, s, fs);
  }

  // ---- optimistic transactions ----

  /** exec's check: each watched key in turn must still report the version recorded. */
  function CheckWatched(cfg: Config, s: Kv, watched: seq<(Key, int)>, i: nat, now: int): (Kv, bool)
    requires i <= |watched|
    decreases |watched| - i
  {
    if i == |watched| then (s, true)
    else
      var (t, r) := DoGetVersion(cfg, s, watched[i].0, now);
      if r != Count(watched[i].1) then (t, false) else CheckWatched(cfg, t, watched, i + 1, now)
  }

  /** The key of w is not due and still has the version recorded. */
  predicate Stands(cfg: Config, s: Kv, w: (Key, int), now: int) {
    KeyFits(cfg, w.0) && Version(s, w.0) == w.1 && (EntryAt(s, w.0).Some? ==> Live(s, w.0, now))
  }

  /** The check passes exactly when every recorded version stands, and then it changes nothing: a key
      that became due would have been given a version never recorded. */
  lemma {:induction false} CheckStands(cfg: Config, s: Kv, watched: seq<(Key, int)>, i: nat, now: int)
    requires Configured(cfg) && Inv(cfg, s) && i <= |watched|
    requires forall j :: 0 <= j < |watched| ==> watched[j].1 <= s.generation
    ensures var (t, same) := CheckWatched(cfg, s, watched, i, now);
      && (same <==> forall j :: i <= j < |watched| ==> Stands(cfg, s, watched[j], now))
      && (same ==> t == s)
    decreases |watched| - i
  {
    hide Sound, Get, Expire;
    if i < |watched| {
      var k := watched[i].0;
      var (t, r) := DoGetVersion(cfg, s, k, now);
      if EntryAt(s, k).Some? && !Live(s, k, now) {
        ExpireOutdates(cfg, s, k);
      } else if KeyFits(cfg, k) {
        assert t == s && r == Count(Version(s, k));
        CheckStands(cfg, s, watched, i + 1, now);
      }
    }
  }

  lemma ExpireOutdates(cfg: Config, s: Kv, k: Key)
    requires Inv(cfg, s) && EntryAt(s, k).Some?
    ensures Version(Expire(cfg, s, k), k) > s.generation
  {
    hide Expire;
    ExpireSteps(cfg, s, k);
  }

  lemma GetVersionReports(cfg: Config, s: Kv, q: Key, now: int)
    requires Configured(cfg) && Inv(cfg, s)
    ensures var (t, r) := DoGetVersion(cfg, s, q, now);
      && t == Next(cfg, s, Call(OpGetVersion(q), now)) && Inv(cfg, t)
      && (r.Count? ==> r.n == VersionIn(t.core, q))
      && (r.Count? && EntryAt(t, q).Some? ==> !Due(EntryAt(t, q).value, now))
      && forall k :: k != q || EntryAt(s, k).None? || !Due(EntryAt(s, k).value, now) ==> EntryAt(t, k) == EntryAt(s, k)
  {
    NextInv(cfg, s, Call(OpGetVersion(q), now));
    ExpireSteps(cfg, s, q);
    forall k ensures k != q ==> EntryAt(Expire(cfg, s, q), k) == EntryAt(s, k) {
      GetRemove(s.core.entries, q, k);
    }
  }

  /** Checking other keys moves no entry of a key already found unexpired. */
  lemma CheckKeepsOthers(cfg: Config, s: Kv, watched: seq<(Key, int)>, i: nat, now: int, k: Key)
    requires Configured(cfg) && Inv(cfg, s) && i <= |watched|
    requires EntryAt(s, k).Some? ==> !Due(EntryAt(s, k).value, now)
    ensures EntryAt(CheckWatched(cfg, s, watched, i, now).0, k) == EntryAt(s, k)
    decreases |watched| - i
  {
    hide Inv, DoGetVersion;
    if i < |watched| {
      GetVersionReports(cfg, s, watched[i].0, now);
      CheckKeepsOthers(cfg, DoGetVersion(cfg, s, watched[i].0, now).0, watched, i + 1, now, k);
    }
  }

  /** exec never commits over a watched key whose entry differs from what it was at watch:
      s is the state in which watch recorded k's version, fs anything that happened since. */
  lemma CommitSeesWatchedEntries(cfg: Config, es: seq<Event>, fs: seq<Event>, watched: seq<(Key, int)>, now: int,
      j: nat)
    requires Configured(cfg) && j < |watched|
    requires var s := After(cfg, EMPTY, es); watched[j].1 == Version(s, watched[j].0)
    requires CheckWatched(cfg, After(cfg, After(cfg, EMPTY, es), fs), watched, 0, now).1
    ensures var s := After(cfg, EMPTY, es);
      EntryAt(CheckWatched(cfg, After(cfg, s, fs), watched, 0, now).0, watched[j].0) == EntryAt(s, watched[j].0)
  {
    EmptyInv(cfg);
    RunsKeepInvariant(cfg, EMPTY, es);
    RunsConsistent(cfg, EMPTY, es);
    var s := After(cfg, EMPTY, es);
    RunsKeepInvariant(cfg, s, fs);
    RunAgrees(cfg, s.core, s.generation, s, fs);
    CheckFinds(cfg, s.core, s.generation, After(cfg, s, fs), watched, 0, now, j);
  }

  lemma CheckFinds(cfg: Config, a: Core, g: int, s: Kv, watched: seq<(Key, int)>, i: nat, now: int, j: nat)
    requires Configured(cfg) && Inv(cfg, s) && Sound(cfg, a, g) && g <= s.generation && AllAgree(a, s)
    requires i <= j < |watched| && watched[j].1 == VersionIn(a, watched[j].0)
    requires CheckWatched(cfg, s, watched, i, now).1
    ensures EntryAt(CheckWatched(cfg, s, watched, i, now).0, watched[j].0) == Get(a.entries, watched[j].0)
    decreases j - i
  {
    hide Inv, Sound, DoGetVersion, AllAgree;
    var q := watched[i].0;
    var t := DoGetVersion(cfg, s, q, now).0;
    GetVersionReports(cfg, s, q, now);
    NextInv(cfg, s, Call(OpGetVersion(q), now));
    NextAgrees(cfg, a, g, s, Call(OpGetVersion(q), now));
    if i < j {
      CheckFinds(cfg, a, g, t, watched, i + 1, now, j);
    } else {
      AgreeAt(a, t, q);
      CheckKeepsOthers(cfg, t, watched, i + 1, now, q);
    }
  }

  lemma AgreeAt(a: Core, t: Kv, q: Key)
    requires AllAgree(a, t) && VersionIn(a, q) == VersionIn(t.core, q)
    ensures Get(a.entries, q) == EntryAt(t, q)
  {
  }

  // ---- atomic ----

  /** es closes only frames it opened, d of which are open at its start, and leaves none open. */
  predicate BalancedEvents(es: seq<Event>, d: nat)
    decreases |es|
  {
    if es == [] then d == 0
    else match es[0]
      case BeginFrame => BalancedEvents(es[1..], d + 1)
      case CommitFrame => d > 0 && BalancedEvents(es[1..], d - 1)
      case RollbackFrame => d > 0 && BalancedEvents(es[1..], d - 1)
      case _ => BalancedEvents(es[1..], d)
  }

  lemma StepFrames(cfg: Config, s: Kv, t: Kv)
    requires Step(cfg, s, t)
    ensures |t.frames| == |s.frames|
  {
  }

  /** Inside frame n of s: what was saved is as saved, and nothing has reached the listener. */
  ghost predicate Within(s: Kv, n: nat, saved: Core, outer: seq<Frame>, delivered: seq<Key>) {
    n < |s.frames| && s.frames[..n] == outer && s.frames[n].core == saved && s.delivered == delivered
  }

  lemma NextWithin(cfg: Config, s: Kv, e: Event, n: nat, saved: Core, outer: seq<Frame>, delivered: seq<Key>)
    requires Configured(cfg) && Inv(cfg, s) && Within(s, n, saved, outer, delivered)
    requires e.CommitFrame? || e.RollbackFrame? ==> n + 1 < |s.frames|
    ensures Within(Next(cfg, s, e), n, saved, outer, delivered)
    ensures |Next(cfg, s, e).frames| == if e.BeginFrame? then |s.frames| + 1
      else if e.CommitFrame? || e.RollbackFrame? then |s.frames| - 1 else |s.frames|
  {
    var t := Next(cfg, s, e);
    if e.Call? {
      RunSteps(cfg, s, e.op, e.now);
      assert t.frames[..n] == s.frames[..n];
    } else if n <= |t.frames| {
      assert t.frames[..n] == s.frames[..n];
    }
  }

  lemma {:induction false} RunWithin(cfg: Config, s: Kv, es: seq<Event>, n: nat, d: nat, saved: Core,
      outer: seq<Frame>, delivered: seq<Key>)
    requires Configured(cfg) && Inv(cfg, s) && Within(s, n, saved, outer, delivered)
    requires |s.frames| == n + 1 + d && BalancedEvents(es, d)
    ensures Within(After(cfg, s, es), n, saved, outer, delivered) && |After(cfg, s, es).frames| == n + 1
    decreases |es|
  {
    if es != [] {
      var t := Next(cfg, s, es[0]);
      NextInv(cfg, s, es[0]);
      NextWithin(cfg, s, es[0], n, saved, outer, delivered);
      RunWithin(cfg, t, es[1..], n, |t.frames| - n - 1, saved, outer, delivered);
    }
  }

  /** A throwing atomic, whatever ran inside at whatever depth, puts back entries, LRU order,
      versions, expiring keys, bytes, counters and absent epoch, keeps outer frames and their
      pending events, delivers nothing, and never moves the generation back. */
  lemma AtomicRestores(cfg: Config, s: Kv, es: seq<Event>)
    requires Configured(cfg) && Inv(cfg, s) && BalancedEvents(es, 0)
    ensures After(cfg, Begin(s), es).frames != []
    ensures var t := Rollback(After(cfg, Begin(s), es));
      && t.core == s.core && t.frames == s.frames && t.delivered == s.delivered && t.generation >= s.generation
  {
    var n := |s.frames|;
    var b := Begin(s);
    NextInv(cfg, s, BeginFrame);
    assert b.frames[..n] == s.frames;
    RunWithin(cfg, b, es, n, 0, s.core, s.frames, s.delivered);
    RunsKeepInvariant(cfg, b, es);
  }

  // ---- queues of operations ----

  function Calls(ops: seq<Op>, now: int): seq<Event> {
    seq(|ops|, i requires 0 <= i < |ops| => Call(ops[i], now))
  }

  /** What the first j operations of a queue leave, each run after the other. */
  function StateAt(cfg: Config, s: Kv, ops: seq<Op>, j: nat, now: int): Kv
    requires j <= |ops|
  {
    if j == 0 then s else Run(cfg, StateAt(cfg, s, ops, j - 1, now), ops[j - 1], now).0
  }

  function ReplyAt(cfg: Config, s: Kv, ops: seq<Op>, j: nat, now: int): Reply
    requires j < |ops|
  {
    Run(cfg, StateAt(cfg, s, ops, j, now), ops[j], now).1
  }

  /** Each operation in turn returns. */
  predicate RunsThrough(cfg: Config, s: Kv, ops: seq<Op>, now: int) {
    forall j :: 0 <= j < |ops| ==> ReplyAt(cfg, s, ops, j, now) != Threw
  }

  lemma {:induction false} QueueFrom(cfg: Config, s: Kv, ops: seq<Op>, i: nat, now: int, replies: seq<Reply>)
    requires i <= |ops| && |replies| == i
    requires forall j :: 0 <= j < i ==> replies[j] == ReplyAt(cfg, s, ops, j, now) != Threw
    ensures var (t, ran) := RunQueue(cfg, StateAt(cfg, s, ops, i, now), ops, i, now, replies);
      && (ran.Some? <==> RunsThrough(cfg, s, ops, now))
      && (ran.Some? ==>
            t == StateAt(cfg, s, ops, |ops|, now) && |ran.value| == |ops|
            && forall j :: 0 <= j < |ops| ==> ran.value[j] == ReplyAt(cfg, s, ops, j, now))
    decreases |ops| - i
  {
    hide Run;
    if i < |ops| {
      var r := ReplyAt(cfg, s, ops, i, now);
      if r != Threw { QueueFrom(cfg, s, ops, i + 1, now, replies + [r]); }
    }
  }

  lemma {:induction false} AfterMore(cfg: Config, s: Kv, es: seq<Event>, e: Event)
    ensures After(cfg, s, es + [e]) == Next(cfg, After(cfg, s, es), e)
    decreases |es|
  {
    hide Next;
    if es != [] {
      AfterMore(cfg, Next(cfg, s, es[0]), es[1..], e);
      assert (es + [e])[1..] == es[1..] + [e];
    }
  }

  lemma {:induction false} StateAfter(cfg: Config, s: Kv, ops: seq<Op>, j: nat, now: int)
    requires j <= |ops|
    ensures StateAt(cfg, s, ops, j, now) == After(cfg, s, Calls(ops, now)[..j])
  {
    hide Run;
    if j > 0 {
      StateAfter(cfg, s, ops, j - 1, now);
      AfterMore(cfg, s, Calls(ops, now)[..j - 1], Call(ops[j - 1], now));
      assert Calls(ops, now)[..j] == Calls(ops, now)[..j - 1] + [Call(ops[j - 1], now)];
    }
  }

  /** A queue runs to its end exactly when each operation in turn returns; its replies are theirs,
      one per operation and in order. */
  lemma QueueReplies(cfg: Config, s: Kv, ops: seq<Op>, now: int)
    ensures var (t, ran) := RunQueue(cfg, s, ops, 0, now, []);
      && (ran.Some? <==> RunsThrough(cfg, s, ops, now))
      && (ran.Some? ==>
            t == After(cfg, s, Calls(ops, now)) && |ran.value| == |ops|
            && forall j :: 0 <= j < |ops| ==> ran.value[j] == ReplyAt(cfg, s, ops, j, now))
  {
    hide RunQueue, RunsThrough, ReplyAt, After;
    QueueFrom(cfg, s, ops, 0, now, []);
    StateAfter(cfg, s, ops, |ops|, now);
    assert Calls(ops, now)[..|ops|] == Calls(ops, now);
  }

  /** A queue moves versions, frames and entries as its operations do. */
  lemma {:induction false} QueueSteps(cfg: Config, s: Kv, queue: seq<Op>, i: nat, now: int, replies: seq<Reply>)
    requires Configured(cfg) && Inv(cfg, s) && i <= |queue|
    ensures var u := RunQueue(cfg, s, queue, i, now, replies).0; Inv(cfg, u) && Step(cfg, s, u)
    decreases |queue| - i
  {
    hide Inv, Run, Step, Sound;
    StepSelf(cfg, s);
    if i < |queue| {
      var (t, r) := Run(cfg, s, queue[i], now);
      RunSteps(cfg, s, queue[i], now);
      if r != Threw {
        QueueSteps(cfg, t, queue, i + 1, now, replies + [r]);
        StepTrans(cfg, s, t, RunQueue(cfg, t, queue, i + 1, now, replies + [r]).0);
      }
    }
  }

  lemma StepSelf(cfg: Config, s: Kv)
    requires Inv(cfg, s)
    ensures Step(cfg, s, s)
  {
    StepRefl(cfg, s);
  }

  lemma {:induction false} RunQueueWithin(cfg: Config, s: Kv, queue: seq<Op>, i: nat, now: int, replies: seq<Reply>,
                                          n: nat, saved: Core, outer: seq<Frame>, delivered: seq<Key>)
    requires Configured(cfg) && Inv(cfg, s) && i <= |queue|
    requires Within(s, n, saved, outer, delivered) && |s.frames| == n + 1
    ensures var u := RunQueue(cfg, s, queue, i, now, replies).0;
      && Inv(cfg, u) && Within(u, n, saved, outer, delivered) && |u.frames| == n + 1 && u.generation >= s.generation
    decreases |queue| - i
  {
    hide Inv, Within, Run;
    if i < |queue| {
      var e := Call(queue[i], now);
      NextInv(cfg, s, e);
      NextWithin(cfg, s, e, n, saved, outer, delivered);
      if Run(cfg, s, queue[i], now).1 != Threw {
        var more := replies + [Run(cfg, s, queue[i], now).1];
        RunQueueWithin(cfg, Next(cfg, s, e), queue, i + 1, now, more, n, saved, outer, delivered);
      }
    }
  }
}
