/** The patches atomicChanges hands to the append-only log, and their replay on a replica. */
module CachePatches {
  import opened ItemLists
  import opened Json
  import opened CacheModel
  import opened CacheInvariant
  import opened CacheRuns
  import opened PatchLists

  // ---- what a patch covers ----

  /** es closes only change sets it opened, d of which are open at its start. */
  predicate BalancedChanges(es: seq<Event>, d: nat)
    decreases |es|
  {
    if es == [] then d == 0
    else match es[0]
      case OpenChanges => BalancedChanges(es[1..], d + 1)
      case CloseChanges => d > 0 && BalancedChanges(es[1..], d - 1)
      case _ => BalancedChanges(es[1..], d)
  }

  ghost predicate CoveredBy(base: Core, now: Core, keys: seq<Key>) {
    forall k :: Get(now.entries, k) != Get(base.entries, k) ==> k in keys
  }

  /** Every moment the run may still reach or return to differs from base only on keys noted
      in change set c. */
  ghost predicate Tracked(cfg: Config, s: Kv, n: nat, c: nat, base: Core) {
    && n < |s.frames| && c < |s.changes| && s.frames[n].core == base
    && CoveredBy(base, s.core, s.changes[c])
    && (forall i :: n <= i < |s.frames| ==> CoveredBy(base, s.frames[i].core, s.changes[c]))
    && Distinct(s.changes[c]) && forall k :: k in s.changes[c] ==> KeyFits(cfg, k)
  }

  lemma NextTracked(cfg: Config, s: Kv, e: Event, n: nat, c: nat, base: Core)
    requires Configured(cfg) && Inv(cfg, s) && Tracked(cfg, s, n, c, base)
    requires e.CommitFrame? || e.RollbackFrame? ==> n + 1 < |s.frames|
    requires e.CloseChanges? ==> c + 1 < |s.changes|
    ensures Tracked(cfg, Next(cfg, s, e), n, c, base)
    ensures |Next(cfg, s, e).frames| == if e.BeginFrame? then |s.frames| + 1
      else if e.CommitFrame? || e.RollbackFrame? then |s.frames| - 1 else |s.frames|
    ensures |Next(cfg, s, e).changes| == if e.OpenChanges? then |s.changes| + 1
      else if e.CloseChanges? then |s.changes| - 1 else |s.changes|
  {
    hide Step, Inv, Run;
    if e.Call? {
      RunSteps(cfg, s, e.op, e.now);
      StepTracked(cfg, s, Next(cfg, s, e), n, c, base);
    }
  }

  lemma StepTracked(cfg: Config, s: Kv, t: Kv, n: nat, c: nat, base: Core)
    requires Step(cfg, s, t) && Tracked(cfg, s, n, c, base)
    ensures Tracked(cfg, t, n, c, base) && |t.frames| == |s.frames| && |t.changes| == |s.changes|
  {
    hide GetFrom, Sound;
    forall k | Get(t.core.entries, k) != Get(base.entries, k) ensures k in t.changes[c] {
      assert EntryAt(t, k) != EntryAt(s, k) || Get(s.core.entries, k) != Get(base.entries, k);
    }
  }

  lemma {:induction false} RunTracked(cfg: Config, s: Kv, es: seq<Event>, n: nat, c: nat, d: nat, f: nat, base: Core)
    requires Configured(cfg) && Inv(cfg, s) && Tracked(cfg, s, n, c, base)
    requires |s.frames| == n + 1 + d && |s.changes| == c + 1 + f
    requires BalancedEvents(es, d) && BalancedChanges(es, f)
    ensures Tracked(cfg, After(cfg, s, es), n, c, base) && |After(cfg, s, es).changes| == c + 1
    decreases |es|
  {
    hide Inv, Tracked, Next;
    if es != [] {
      var t := Next(cfg, s, es[0]);
      NextInv(cfg, s, es[0]);
      NextTracked(cfg, s, es[0], n, c, base);
      RunTracked(cfg, t, es[1..], n, c, |t.frames| - n - 1, |t.changes| - c - 1, base);
    }
  }

  /** The change set of an atomicChanges call holds every key whose entry the body moved,
      eviction and expiry victims included. */
  lemma ChangesCover(cfg: Config, s: Kv, es: seq<Event>)
    requires Configured(cfg) && Inv(cfg, s) && BalancedEvents(es, 0) && BalancedChanges(es, 0)
    ensures var t := After(cfg, BeginChanges(s), es);
      && Inv(cfg, t) && |t.changes| == |s.changes| + 1 && Distinct(t.changes[|s.changes|])
      && (forall k :: EntryAt(t, k) != EntryAt(s, k) ==> k in t.changes[|s.changes|])
      && forall k :: k in t.changes[|s.changes|] ==> KeyFits(cfg, k)
  {
    var o := Next(cfg, s, OpenChanges);
    NextInv(cfg, s, OpenChanges);
    NextInv(cfg, o, BeginFrame);
    RunsKeepInvariant(cfg, BeginChanges(s), es);
    RunTracked(cfg, BeginChanges(s), es, |s.frames|, |s.changes|, 0, 0, s.core);
  }

  // ---- replay ----

  ghost predicate SameView(a: Kv, b: Kv, now: int) {
    forall k :: View(a, k, now) == View(b, k, now)
  }

  /** p holds the final effect at time now of each changed key, once, and nothing else. */
  ghost predicate IsPatch(s: Kv, keys: seq<Key>, p: Patch, now: int) {
    && (forall i :: 0 <= i < |p.entries| ==>
          && p.entries[i].key in keys
          && View(s, p.entries[i].key, now) == Some((p.entries[i].value, p.entries[i].expiresAt)))
    && DistinctWrites(p.entries)
    && (forall k :: k in p.deleted <==> k in keys && !Live(s, k, now))
    && (forall k :: k in keys && Live(s, k, now) ==> Writes(p.entries, 0, k))
  }

  /** The loop of atomicChanges gathers exactly the final effects, whatever order the keys changed in. */
  lemma {:induction false} GatherIsPatch(s: Kv, ks: seq<Key>, i: nat, now: int)
    requires i <= |ks| && Distinct(ks) && Gather(s, ks, i, now).Fine?
    ensures IsPatch(s, ks[i..], Gather(s, ks, i, now).value, now)
    decreases |ks| - i
  {
    hide View;
    if i < |ks| {
      GatherIsPatch(s, ks, i + 1, now);
      assert ks[i..] == [ks[i]] + ks[i + 1..];
      ViewIsLive(s, ks[i], now);
      var rest := Gather(s, ks, i + 1, now).value;
      var p := Gather(s, ks, i, now).value;
      forall k | k in ks[i..] && Live(s, k, now) ensures Writes(p.entries, 0, k) {
        if k == ks[i] {
          assert p.entries[0].key == k;
        } else {
          WritesMore(rest.entries, p.entries, k);
        }
      }
    }
  }

  lemma WritesMore(ws: seq<Write>, vs: seq<Write>, k: Key)
    requires Writes(ws, 0, k) && (vs == ws || (vs != [] && vs[1..] == ws))
    ensures Writes(vs, 0, k)
  {
    var j :| 0 <= j < |ws| && ws[j].key == k;
    if vs != ws { assert vs[j + 1] == ws[j]; }
  }

  lemma ViewIsLive(s: Kv, k: Key, now: int)
    ensures View(s, k, now).Some? <==> Live(s, k, now)
  {
  }

  function DeleteAll(cfg: Config, s: Kv, ks: seq<Key>, i: nat, now: int): Kv
    requires i <= |ks|
    decreases |ks| - i
  {
    if i == |ks| then s else DeleteAll(cfg, DoDel(cfg, s, ks[i], now).0, ks, i + 1, now)
  }

  function SetAll(cfg: Config, s: Kv, ws: seq<Write>, i: nat, now: int): Kv
    requires i <= |ws|
    decreases |ws| - i
  {
    if i == |ws| then s
    else SetAll(cfg, DoSetAt(cfg, s, ws[i].key, ws[i].value, ws[i].expiresAt, now).0, ws, i + 1, now)
  }

  // ---- replay ----

  lemma {:induction false} DeleteAllRemoves(cfg: Config, s: Kv, ks: seq<Key>, i: nat, now: int)
    requires Configured(cfg) && Inv(cfg, s) && i <= |ks|
    requires forall j :: 0 <= j < |ks| ==> KeyFits(cfg, ks[j])
    ensures var t := DeleteAll(cfg, s, ks, i, now);
      && Inv(cfg, t) && Step(cfg, s, t) && t.core.entries == RemoveAll(s.core.entries, ks, i)
      && forall k :: EntryAt(t, k) == if k in ks[i..] then None else EntryAt(s, k)
    decreases |ks| - i
  {
    hide Inv, Step, DoDel;
    if i < |ks| {
      var t := DoDel(cfg, s, ks[i], now).0;
      DeleteOne(cfg, s, ks[i], now);
      DeleteAllRemoves(cfg, t, ks, i + 1, now);
      StepTrans(cfg, s, t, DeleteAll(cfg, s, ks, i, now));
      assert ks[i..] == [ks[i]] + ks[i + 1..];
    } else {
      InvSound(cfg, s);
      StepRefl(cfg, s);
    }
  }

  lemma InvSound(cfg: Config, s: Kv)
    requires Inv(cfg, s)
    ensures Sound(cfg, s.core, s.generation) && !Over(cfg, s.core)
    ensures DistinctKeys(s.core.entries) && s.core.bytes == Total(s.core.entries)
  {
  }

  lemma DeleteOne(cfg: Config, s: Kv, k: Key, now: int)
    requires Configured(cfg) && Inv(cfg, s) && KeyFits(cfg, k)
    ensures var (t, r) := DoDel(cfg, s, k, now);
      && Inv(cfg, t) && Step(cfg, s, t) && t.core.entries == Remove(s.core.entries, k) && r != Threw
      && forall q :: EntryAt(t, q) == if q == k then None else EntryAt(s, q)
  {
    hide Step, Sound, Inv;
    RunSteps(cfg, s, OpDel(k), now);
    InvSound(cfg, s);
    DiscardSteps(cfg, s, k);
    ExpireSteps(cfg, s, k);
    RemoveAbsent(s.core.entries, k);
    forall q ensures Get(Remove(s.core.entries, k), q) == if q == k then None else EntryAt(s, q) {
      GetRemove(s.core.entries, k, q);
    }
  }

  /** One write, whatever room there is: it never throws, and leaves the list placed and shed. */
  lemma SetOne(cfg: Config, s: Kv, w: Write, now: int)
    requires Configured(cfg) && Inv(cfg, s) && EntryOk(cfg, w.key, EntryOf(w))
    ensures var (t, r) := DoSetAt(cfg, s, w.key, w.value, w.expiresAt, now);
      && Inv(cfg, t) && Step(cfg, s, t) && r != Threw
      && t.core.entries == Shed(cfg, Placed(s.core.entries, w, now))
  {
    hide Step, Sound, Inv, Store, Discard, Clones, Over, SizeOf, Evict, Fits, Shed, EntryOk;
    RunSteps(cfg, s, OpSetAt(w.key, w.value, w.expiresAt), now);
    InvSound(cfg, s);
    WriteAccepted(cfg, w);
    if Due(EntryOf(w), now) {
      DiscardSteps(cfg, s, w.key);
      RemovedFits(cfg, s, w.key);
    } else {
      var u := Store(cfg, s, w.key, EntryOf(w));
      StoreSteps(cfg, s, w.key, EntryOf(w));
      StepSound(cfg, s, u);
      EvictShortest(cfg, u, Some(now));
      ShedIsShortest(cfg, u.core.entries, Evict(cfg, u, Some(now)).core.entries);
    }
  }

  lemma WriteAccepted(cfg: Config, w: Write)
    requires EntryOk(cfg, w.key, EntryOf(w))
    ensures KeyFits(cfg, w.key) && Clones(w.value, cfg.maxValueBytes) && Fits(cfg, w.key, w.value)
  {
  }

  /** Removing a key needs no eviction. */
  lemma RemovedFits(cfg: Config, s: Kv, k: Key)
    requires DistinctKeys(s.core.entries) && s.core.bytes == Total(s.core.entries) && !Over(cfg, s.core)
    ensures Shed(cfg, Remove(s.core.entries, k)) == Remove(s.core.entries, k)
  {
    hide Total, Remove;
    TotalRemove(s.core.entries, k);
    RemoveLength(s.core.entries, k);
  }

  /** So the entries after all the writes are a function of the list before them. */
  lemma {:induction false} SetAllSheds(cfg: Config, s: Kv, ws: seq<Write>, i: nat, now: int)
    requires Configured(cfg) && Inv(cfg, s) && i <= |ws| && WritesOk(cfg, ws)
    ensures var t := SetAll(cfg, s, ws, i, now);
      Inv(cfg, t) && Step(cfg, s, t) && t.core.entries == ShedAll(cfg, s.core.entries, ws, i, now)
    decreases |ws| - i
  {
    hide Inv, Step, DoSetAt, EntryOk, Placed, Shed;
    if i < |ws| {
      var u := DoSetAt(cfg, s, ws[i].key, ws[i].value, ws[i].expiresAt, now).0;
      SetOne(cfg, s, ws[i], now);
      SetAllSheds(cfg, u, ws, i + 1, now);
      StepTrans(cfg, s, u, SetAll(cfg, s, ws, i, now));
    } else {
      InvSound(cfg, s);
      StepRefl(cfg, s);
    }
  }

  /** When each write fits in turn, all of them stay and nothing else moves. */
  lemma SetAllStores(cfg: Config, s: Kv, ws: seq<Write>, i: nat, now: int)
    requires Configured(cfg) && Inv(cfg, s) && i <= |ws| && EachFits(cfg, s.core.entries, ws, i, now)
    requires WritesOk(cfg, ws) && DistinctWrites(ws)
    ensures var t := SetAll(cfg, s, ws, i, now);
      && Inv(cfg, t) && Step(cfg, s, t)
      && (forall k :: !Writes(ws, i, k) ==> EntryAt(t, k) == EntryAt(s, k))
      && forall j :: i <= j < |ws| ==>
           EntryAt(t, ws[j].key) == if Due(EntryOf(ws[j]), now) then None else Some(EntryOf(ws[j]))
  {
    hide Inv, Step, EntryOk, EachFits, ShedAll, SetAll, GetFrom, Due, EntryOf;
    InvSound(cfg, s);
    SetAllSheds(cfg, s, ws, i, now);
    var t := SetAll(cfg, s, ws, i, now);
    forall k
      ensures !Writes(ws, i, k) ==> EntryAt(t, k) == EntryAt(s, k)
      ensures forall j :: i <= j < |ws| && ws[j].key == k ==>
        EntryAt(t, k) == if Due(EntryOf(ws[j]), now) then None else Some(EntryOf(ws[j])) {
      EachFitsAt(cfg, s.core.entries, ws, i, now, k);
    }
  }

  // ---- running a patch as operations ----

  /** Deletions of fitting keys never throw, so they all run. */
  lemma {:induction false} DeletesRun(cfg: Config, s: Kv, ops: seq<Op>, ks: seq<Key>, i: nat, now: int,
      replies: seq<Reply>)
      returns (more: seq<Reply>)
    requires Configured(cfg) && Inv(cfg, s) && i <= |ks| <= |ops|
    requires forall j :: 0 <= j < |ks| ==> KeyFits(cfg, ks[j]) && ops[j] == OpDel(ks[j])
    ensures RunQueue(cfg, s, ops, i, now, replies) == RunQueue(cfg, DeleteAll(cfg, s, ks, i, now), ops, |ks|, now, more)
    decreases |ks| - i
  {
    hide Inv, DoDel;
    more := replies;
    if i < |ks| {
      DeleteOne(cfg, s, ks[i], now);
      var (t, r) := DoDel(cfg, s, ks[i], now);
      more := DeletesRun(cfg, t, ops, ks, i + 1, now, replies + [r]);
    }
  }

  /** Nor do the writes. */
  lemma {:induction false} SetsRun(cfg: Config, s: Kv, ops: seq<Op>, n: nat, ws: seq<Write>, i: nat, now: int,
                                   replies: seq<Reply>)
    requires Configured(cfg) && Inv(cfg, s) && i <= |ws| && |ops| == n + |ws| && WritesOk(cfg, ws)
    requires forall j :: 0 <= j < |ws| ==> ops[n + j] == OpSetAt(ws[j].key, ws[j].value, ws[j].expiresAt)
    ensures var (t, ran) := RunQueue(cfg, s, ops, n + i, now, replies);
      t == SetAll(cfg, s, ws, i, now) && ran.Some?
    decreases |ws| - i
  {
    hide Inv, DoSetAt, EntryOk, Placed, Shed, Step, Run;
    if i < |ws| {
      var (t, r) := DoSetAt(cfg, s, ws[i].key, ws[i].value, ws[i].expiresAt, now);
      SetOne(cfg, s, ws[i], now);
      assert ops[n + i] == OpSetAt(ws[i].key, ws[i].value, ws[i].expiresAt);
      assert Run(cfg, s, ops[n + i], now) == (t, r) by { SetAtRun(cfg, s, ws[i], now); }
      SetsRun(cfg, t, ops, n, ws, i + 1, now, replies + [r]);
    }
  }

  lemma SetAtRun(cfg: Config, s: Kv, w: Write, now: int)
    ensures Run(cfg, s, OpSetAt(w.key, w.value, w.expiresAt), now) == DoSetAt(cfg, s, w.key, w.value, w.expiresAt, now)
  {
    hide DoSetAt;
  }

  /** The entries a replica holding es has after replaying p. */
  function Replayed(cfg: Config, es: Items<Key, Entry>, p: Patch, now: int): Items<Key, Entry> {
    ShedAll(cfg, RemoveAll(es, p.deleted, 0), p.entries, 0, now)
  }

  /** A patch whose keys and values fit replays whole, and what it leaves is a function of the list. */
  lemma PatchRuns(cfg: Config, r: Kv, p: Patch, now: int)
    requires Configured(cfg) && Inv(cfg, r) && WritesOk(cfg, p.entries)
    requires forall j :: 0 <= j < |p.deleted| ==> KeyFits(cfg, p.deleted[j])
    ensures var (u, ok) := DoApplyPatch(cfg, r, p, now);
      ok && Inv(cfg, u) && u.core.entries == Replayed(cfg, r.core.entries, p, now)
  {
    hide Inv, Step, EntryOk, RunQueue, DeleteAll, SetAll, RemoveAll, ShedAll;
    NextInv(cfg, r, BeginFrame);
    var b := Begin(r);
    DeleteAllRemoves(cfg, b, p.deleted, 0, now);
    var m := DeleteAll(cfg, b, p.deleted, 0, now);
    SetAllSheds(cfg, m, p.entries, 0, now);
    var t := SetAll(cfg, m, p.entries, 0, now);
    StepTrans(cfg, b, m, t);
    StepFrames(cfg, b, t);
    var more := DeletesRun(cfg, b, PatchOps(p), p.deleted, 0, now, []);
    SetsRun(cfg, m, PatchOps(p), |p.deleted|, p.entries, 0, now, more);
    NextInv(cfg, t, CommitFrame);
  }

  // ---- exactly when a replay is right ----

  /** What a replica can check before it replays p, on its keys, sizes and LRU order: each entry some
      write will evict is due, or a later write of the patch stores its key again. */
  predicate Spares(cfg: Config, es: Items<Key, Entry>, p: Patch, now: int) {
    Spared(cfg, RemoveAll(es, p.deleted, 0), p.entries, 0, now)
  }

  /** Enough for that, and independent of the LRU order: with the deleted keys gone, the limits hold
      after each write in turn. */
  predicate EachWriteFits(cfg: Config, es: Items<Key, Entry>, p: Patch, now: int) {
    EachFits(cfg, RemoveAll(es, p.deleted, 0), p.entries, 0, now)
  }

  /** Enough for that, and independent of the order of the writes: one count of entries and bytes. */
  predicate HasRoom(cfg: Config, es: Items<Key, Entry>, p: Patch) {
    RoomFor(cfg, RemoveAll(es, p.deleted, 0), p.entries, 0)
  }

  /** What a key must show after the replay: its write, or what is left of the replica's. */
  lemma TargetAt(s: Kv, t: Kv, r: Kv, keys: seq<Key>, p: Patch, now: int, later: int, k: Key)
    requires IsPatch(t, keys, p, now) && now <= later && View(r, k, later) == View(s, k, later)
    requires EntryAt(t, k) != EntryAt(s, k) ==> k in keys
    requires DistinctKeys(r.core.entries)
    ensures forall j :: 0 <= j < |p.entries| && p.entries[j].key == k ==>
      View(t, k, later) == Until(p.entries[j].value, p.entries[j].expiresAt, later)
    ensures !Writes(p.entries, 0, k) ==>
      View(t, k, later) == Visible(Get(RemoveAll(r.core.entries, p.deleted, 0), k), later)
  {
    hide GetFrom, RemoveAll;
    RemovedAt(r.core.entries, p.deleted, 0, k);
    assert p.deleted[0..] == p.deleted;
    if j :| 0 <= j < |p.entries| && p.entries[j].key == k {
      assert View(t, k, now) == Some((p.entries[j].value, p.entries[j].expiresAt));
    } else {
      assert !Writes(p.entries, 0, k);
      assert k in keys ==> !Live(t, k, now);
    }
  }

  /** Patch refinement, exactly. A replica shows the source's live contents; the patch that
      atomicChanges gathers after any body is applied on it, then or later. It never throws, and the
      replica shows the source's contents after the body, the same keys, values and absolute
      deadlines, if and only if eviction spares what readers see. */
  lemma PatchReplaysIff(cfg: Config, s: Kv, es: seq<Event>, now: int, p: Patch, r: Kv, later: int)
    requires Configured(cfg) && Inv(cfg, s) && BalancedEvents(es, 0) && BalancedChanges(es, 0)
    requires var t := After(cfg, BeginChanges(s), es);
      |t.changes| > |s.changes| && Gather(t, t.changes[|s.changes|], 0, now) == Fine(p)
    requires Inv(cfg, r) && now <= later && SameView(r, s, later)
    ensures var (u, ok) := DoApplyPatch(cfg, r, p, later);
      && ok && Inv(cfg, u) && u.core.entries == Replayed(cfg, r.core.entries, p, later)
      && (SameView(u, After(cfg, BeginChanges(s), es), later) <==> Spares(cfg, r.core.entries, p, later))
  {
    hide Inv, Step, View, IsPatch, EntryOk, Gather, DoApplyPatch, BeginChanges, After, Spared, ShedAll, RemoveAll, Get;
    var t := After(cfg, BeginChanges(s), es);
    var keys := t.changes[|s.changes|];
    ChangesCover(cfg, s, es);
    GatherIsPatch(t, keys, 0, now);
    assert keys[0..] == keys;
    PatchFits(cfg, t, keys, p, now);
    PatchRuns(cfg, r, p, later);
    var u := DoApplyPatch(cfg, r, p, later).0;
    InvSound(cfg, r);
    var m := RemoveAll(r.core.entries, p.deleted, 0);
    assert DistinctKeys(m) by { RemovedAt(r.core.entries, p.deleted, 0, []); }
    SparedIff(cfg, m, p.entries, 0, later);
    forall k
      ensures View(u, k, later) == Visible(Get(u.core.entries, k), later)
      ensures forall j :: 0 <= j < |p.entries| && p.entries[j].key == k ==>
        View(t, k, later) == Until(p.entries[j].value, p.entries[j].expiresAt, later)
      ensures !Writes(p.entries, 0, k) ==> View(t, k, later) == Visible(Get(m, k), later) {
      TargetAt(s, t, r, keys, p, now, later, k);
      ViewIs(u, k, later);
    }
    MeetsTarget(u, t, m, p.entries, later);
  }

  lemma ViewIs(s: Kv, k: Key, now: int)
    ensures View(s, k, now) == Visible(Get(s.core.entries, k), now)
  {
  }

  lemma MeetsTarget(u: Kv, t: Kv, m: Items<Key, Entry>, ws: seq<Write>, now: int)
    requires forall k :: View(u, k, now) == Visible(Get(u.core.entries, k), now)
    requires forall k, j :: 0 <= j < |ws| && ws[j].key == k ==>
      View(t, k, now) == Until(ws[j].value, ws[j].expiresAt, now)
    requires forall k :: !Writes(ws, 0, k) ==> View(t, k, now) == Visible(Get(m, k), now)
    ensures SameView(u, t, now) <==> Arrives(u.core.entries, m, ws, 0, now)
  {
    hide View, Visible, Until, Get;
    if Arrives(u.core.entries, m, ws, 0, now) {
      forall k ensures View(u, k, now) == View(t, k, now) {
        if j :| 0 <= j < |ws| && ws[j].key == k {
          assert Visible(Get(u.core.entries, ws[j].key), now) == Until(ws[j].value, ws[j].expiresAt, now);
        } else {
          assert !Writes(ws, 0, k);
        }
      }
    }
  }

  /** So it is right whenever each write fits in turn, and whenever there is room by the count. */
  lemma PatchReplays(cfg: Config, s: Kv, es: seq<Event>, now: int, p: Patch, r: Kv, later: int)
    requires Configured(cfg) && Inv(cfg, s) && BalancedEvents(es, 0) && BalancedChanges(es, 0)
    requires var t := After(cfg, BeginChanges(s), es);
      |t.changes| > |s.changes| && Gather(t, t.changes[|s.changes|], 0, now) == Fine(p)
    requires Inv(cfg, r) && now <= later && SameView(r, s, later)
    requires EachWriteFits(cfg, r.core.entries, p, later) || HasRoom(cfg, r.core.entries, p)
    ensures var (u, ok) := DoApplyPatch(cfg, r, p, later);
      ok && Inv(cfg, u) && SameView(u, After(cfg, BeginChanges(s), es), later)
  {
    hide Inv, View, IsPatch, Gather, DoApplyPatch, BeginChanges, After, Spared, EachFits, RoomFor, RemoveAll, Get,
      Replayed;
    PatchReplaysIff(cfg, s, es, now, p, r, later);
    InvSound(cfg, r);
    var m := RemoveAll(r.core.entries, p.deleted, 0);
    assert DistinctKeys(m) by { RemovedAt(r.core.entries, p.deleted, 0, []); }
    if HasRoom(cfg, r.core.entries, p) {
      var t := After(cfg, BeginChanges(s), es);
      var keys := t.changes[|s.changes|];
      ChangesCover(cfg, s, es);
      GatherIsPatch(t, keys, 0, now);
      assert DistinctWrites(p.entries) by { PatchDistinct(t, keys[0..], p, now); }
      RoomEachFits(cfg, m, p.entries, 0, later);
    }
    EachFitsSpares(cfg, m, p.entries, 0, later);
  }

  lemma PatchDistinct(t: Kv, keys: seq<Key>, p: Patch, now: int)
    requires IsPatch(t, keys, p, now)
    ensures DistinctWrites(p.entries)
  {
  }

  lemma PatchFits(cfg: Config, t: Kv, keys: seq<Key>, p: Patch, now: int)
    requires Inv(cfg, t) && IsPatch(t, keys, p, now) && forall k :: k in keys ==> KeyFits(cfg, k)
    ensures forall j :: 0 <= j < |p.deleted| ==> KeyFits(cfg, p.deleted[j])
    ensures WritesOk(cfg, p.entries) && DistinctWrites(p.entries)
  {
    forall j | 0 <= j < |p.deleted| ensures KeyFits(cfg, p.deleted[j]) {
      assert p.deleted[j] in p.deleted;
    }
    forall j | 0 <= j < |p.entries| ensures EntryOk(cfg, p.entries[j].key, EntryOf(p.entries[j])) {
      assert View(t, p.entries[j].key, now) == Some((p.entries[j].value, p.entries[j].expiresAt));
      assert Get(t.core.entries, p.entries[j].key).Some?;
    }
  }
}
