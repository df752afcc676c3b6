/** One whole call of atomicChanges: when it answers, and what it leaves when it does not. */
module CacheChanges {
  import opened ItemLists
  import opened Json
  import opened CacheModel
  import opened CacheInvariant
  import opened CacheRuns
  import opened CachePatches
  import opened CacheEvents

  /** The body ran inside a frame and a change set of its own. */
  lemma BodyInside(cfg: Config, s: Kv, ops: seq<Op>, now: int)
    requires Configured(cfg) && Inv(cfg, s)
    ensures var u := RunQueue(cfg, BeginChanges(s), ops, 0, now, []).0;
      && Inv(cfg, u) && u.generation >= s.generation && u.delivered == s.delivered
      && |u.frames| == |s.frames| + 1 && u.frames[..|s.frames|] == s.frames && u.frames[|s.frames|].core == s.core
      && |u.changes| == |s.changes| + 1 && forall i :: 0 <= i < |s.changes| ==> s.changes[i] <= u.changes[i]
  {
    hide Inv, RunQueue, Sound, Fresh;
    var b := BeginChanges(s);
    NextInv(cfg, s, OpenChanges);
    NextInv(cfg, Next(cfg, s, OpenChanges), BeginFrame);
    QueueSteps(cfg, b, ops, 0, now, []);
    var u := RunQueue(cfg, b, ops, 0, now, []).0;
    StepSound(cfg, b, u);
    assert u.frames[..|s.frames|] == s.frames;
    forall i | 0 <= i < |s.changes| ensures s.changes[i] <= u.changes[i] { assert b.changes[i] == s.changes[i]; }
  }

  /** A call that throws, because its body did, a changed value cannot be cloned or the callback refused,
      leaves the whole cache as it was. Only versions are not given out again, and enclosing change sets
      may have noted keys. */
  lemma RefusedRestores(cfg: Config, s: Kv, ops: seq<Op>, accepts: bool, now: int)
    requires Configured(cfg) && Inv(cfg, s) && DoAtomicChanges(cfg, s, ops, accepts, now).1.None?
    ensures var t := DoAtomicChanges(cfg, s, ops, accepts, now).0;
      && Inv(cfg, t) && t.core == s.core && t.frames == s.frames && t.delivered == s.delivered
      && t.generation >= s.generation && |t.changes| == |s.changes|
      && forall i :: 0 <= i < |s.changes| ==> s.changes[i] <= t.changes[i]
  {
    hide Inv, RunQueue, Gather;
    BodyInside(cfg, s, ops, now);
    var u := RunQueue(cfg, BeginChanges(s), ops, 0, now, []).0;
    var t := DoAtomicChanges(cfg, s, ops, accepts, now).0;
    NextInv(cfg, u, RollbackFrame);
    assert Inv(cfg, Rollback(u).(changes := t.changes)) by { InvChanges(cfg, Rollback(u), t.changes); }
  }

  /** Every changed key that is live holds a value the log can be given. */
  ghost predicate ChangesClone(u: Kv, keys: seq<Key>, now: int) {
    forall k :: k in keys && Live(u, k, now) ==> Clones(EntryAt(u, k).value.value, CLONE_BYTES)
  }

  lemma {:induction false} GatherFineIff(u: Kv, ks: seq<Key>, i: nat, now: int)
    requires i <= |ks|
    ensures Gather(u, ks, i, now).Fine? <==> ChangesClone(u, ks[i..], now)
    decreases |ks| - i
  {
    hide Clones;
    if i < |ks| {
      GatherFineIff(u, ks, i + 1, now);
      assert ks[i..] == [ks[i]] + ks[i + 1..];
      assert View(u, ks[i], now).Some? <==> Live(u, ks[i], now);
    }
  }

  /** A call answers exactly when each operation of its body in turn returns, every changed live value
      clones and the callback accepts; it then leaves what the operations left. */
  lemma AnswersIff(cfg: Config, s: Kv, ops: seq<Op>, accepts: bool, now: int)
    requires Configured(cfg) && Inv(cfg, s)
    ensures var u := After(cfg, BeginChanges(s), Calls(ops, now));
      var (t, p) := DoAtomicChanges(cfg, s, ops, accepts, now);
      && |u.changes| == |s.changes| + 1
      && (p.Some? <==>
            RunsThrough(cfg, BeginChanges(s), ops, now) && accepts && ChangesClone(u, u.changes[|s.changes|], now))
      && (p.Some? ==> t.core == u.core && t.generation == u.generation && t.changes == u.changes[..|s.changes|])
  {
    hide Inv, RunQueue, Gather, RunsThrough, After, ChangesClone;
    BodyInside(cfg, s, ops, now);
    QueueReplies(cfg, BeginChanges(s), ops, now);
    CallsBalanced(Calls(ops, now));
    ChangesCover(cfg, s, Calls(ops, now));
    var u := RunQueue(cfg, BeginChanges(s), ops, 0, now, []).0;
    var keys := u.changes[|s.changes|];
    GatherFineIff(u, keys, 0, now);
    assert keys[0..] == keys;
  }

  lemma {:induction false} CallsBalanced(es: seq<Event>)
    requires forall i :: 0 <= i < |es| ==> es[i].Call?
    ensures BalancedEvents(es, 0) && BalancedChanges(es, 0)
    decreases |es|
  {
    if es != [] { CallsBalanced(es[1..]); }
  }

  /** A call of atomicChanges whose patch was accepted: its body, and what it leaves. */
  lemma AcceptedCall(cfg: Config, s: Kv, ops: seq<Op>, now: int)
    requires Configured(cfg) && Inv(cfg, s) && DoAtomicChanges(cfg, s, ops, true, now).1.Some?
    ensures var u := After(cfg, BeginChanges(s), Calls(ops, now));
      var (t, p) := DoAtomicChanges(cfg, s, ops, true, now);
      && BalancedEvents(Calls(ops, now), 0) && BalancedChanges(Calls(ops, now), 0)
      && |u.changes| == |s.changes| + 1 && Gather(u, u.changes[|s.changes|], 0, now) == Fine(p.value)
      && Inv(cfg, t) && t.core == u.core
  {
    hide Inv, RunQueue, RunsThrough, Gather, After, Run, Commit, Rollback;
    var es := Calls(ops, now);
    CallsBalanced(es);
    QueueReplies(cfg, BeginChanges(s), ops, now);
    ChangesCover(cfg, s, es);
    var u := After(cfg, BeginChanges(s), es);
    NextInv(cfg, u, CommitFrame);
    CommitCore(u);
    InvChanges(cfg, Commit(u), u.changes[..|s.changes|]);
  }

  /** Outside other frames an accepted call leaves what its operations would have left one after the
      other, and delivers each key whose expiry they noticed, once. */
  lemma AcceptedDelivers(cfg: Config, s: Kv, ops: seq<Op>, now: int)
    requires Configured(cfg) && Inv(cfg, s) && s.frames == [] && DoAtomicChanges(cfg, s, ops, true, now).1.Some?
    ensures var t := DoAtomicChanges(cfg, s, ops, true, now).0;
      var u := After(cfg, Next(cfg, s, OpenChanges), Calls(ops, now));
      && t.core == u.core && t.generation == u.generation && t.frames == [] && s.delivered <= u.delivered
      && t.delivered == s.delivered + OnceEach(u.delivered[|s.delivered|..])
  {
    hide Inv, RunQueue, Gather, After, OnceEach, RunsThrough, ChangesClone;
    var o := Next(cfg, s, OpenChanges);
    QueueReplies(cfg, BeginChanges(s), ops, now);
    UnframedCalls(Calls(ops, now));
    AtomicTransparent(cfg, o, Calls(ops, now));
    assert BeginChanges(s) == Begin(o);
  }

  lemma CommitCore(u: Kv)
    requires u.frames != []
    ensures Commit(u).core == u.core
  {
  }

  lemma InvChanges(cfg: Config, s: Kv, cs: seq<seq<Key>>)
    requires Inv(cfg, s)
    ensures Inv(cfg, s.(changes := cs))
  {
  }
}
