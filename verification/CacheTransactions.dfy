/** Optimistic transactions over a cache object, and atomic on the object itself. */
module CacheTransactions {
  import opened ItemLists
  import opened OrderedMaps
  import opened CacheModel
  import opened CacheInvariant
  import opened CacheRuns
  import opened CacheEvents
  import opened Cache

  datatype ExecResult = Aborted | Committed(replies: seq<Reply>) | Failed | AlreadyFinished

  /** exec: abort on a moved version, else commit every queued write or none. */
  function Exec(cfg: Config, s: Kv, watched: seq<(Key, int)>, queue: seq<Op>, now: int): (Kv, ExecResult) {
    var (t, same) := CheckWatched(cfg, s, watched, 0, now);
    if !same then (t, Aborted)
    else if queue == [] then (t, Committed([]))
    else
      var (u, done) := RunQueue(cfg, Begin(t), queue, 0, now, []);
      match done
      case None => (if u.frames != [] then Rollback(u) else u, Failed)
      case Some(replies) => (if u.frames != [] then Commit(u) else u, Committed(replies))
  }

  /** A queued write that throws leaves no trace of the earlier ones: all but the generation
      is as after the version check. An aborted exec has run nothing but that check. */
  lemma ExecAllOrNothing(cfg: Config, s: Kv, watched: seq<(Key, int)>, queue: seq<Op>, now: int)
    requires Configured(cfg) && Inv(cfg, s)
    ensures var t := CheckWatched(cfg, s, watched, 0, now).0;
      var (u, r) := Exec(cfg, s, watched, queue, now);
      && Inv(cfg, u) && |u.frames| == |s.frames|
      && (r == Aborted ==> u == t)
      && (r == Failed ==>
            u.core == t.core && u.frames == t.frames && u.delivered == t.delivered && u.generation >= t.generation)
  {
    hide CheckWatched, RunQueue, Inv;
    CheckInv(cfg, s, watched, 0, now);
    var (t, same) := CheckWatched(cfg, s, watched, 0, now);
    if same && queue != [] {
      NextInv(cfg, t, BeginFrame);
      assert Begin(t).frames[..|t.frames|] == t.frames;
      RunQueueWithin(cfg, Begin(t), queue, 0, now, [], |t.frames|, t.core, t.frames, t.delivered);
      var u := RunQueue(cfg, Begin(t), queue, 0, now, []).0;
      NextInv(cfg, u, RollbackFrame);
      NextInv(cfg, u, CommitFrame);
    }
  }

  ghost predicate AllStand(cfg: Config, s: Kv, watched: seq<(Key, int)>, now: int) {
    forall j :: 0 <= j < |watched| ==> Stands(cfg, s, watched[j], now)
  }

  /** When exec aborts, fails and commits, for every list of watched versions and every queue. A commit
      answers the replies the queued operations would have given one after the other on the cache itself,
      and leaves the entries, versions and change sets they would have left. */
  lemma ExecExact(cfg: Config, s: Kv, watched: seq<(Key, int)>, queue: seq<Op>, now: int)
    requires Configured(cfg) && Inv(cfg, s)
    requires forall j :: 0 <= j < |watched| ==> watched[j].1 <= s.generation
    ensures var (t, r) := Exec(cfg, s, watched, queue, now);
      && |t.frames| == |s.frames|
      && (r == Aborted <==> !AllStand(cfg, s, watched, now))
      && (r.Failed? <==> AllStand(cfg, s, watched, now) && !RunsThrough(cfg, s, queue, now))
      && (r.Committed? <==> AllStand(cfg, s, watched, now) && RunsThrough(cfg, s, queue, now))
      && (r.Failed? ==> t.core == s.core && t.frames == s.frames && t.delivered == s.delivered)
      && (r.Committed? ==>
            && |r.replies| == |queue|
            && (forall j :: 0 <= j < |queue| ==> r.replies[j] == ReplyAt(cfg, s, queue, j, now))
            && var u := After(cfg, s, Calls(queue, now));
               t.core == u.core && t.generation == u.generation && t.changes == u.changes)
  {
    hide CheckWatched, RunQueue, Inv, After, ReplyAt, RunsThrough, Rollback, Stands;
    CheckStands(cfg, s, watched, 0, now);
    ExecAllOrNothing(cfg, s, watched, queue, now);
    SameQueue(cfg, s, queue, now);
    QueueReplies(cfg, Begin(s), queue, now);
    if queue == [] { NothingQueued(cfg, s, now); }
    var same := CheckWatched(cfg, s, watched, 0, now).1;
    assert same <==> AllStand(cfg, s, watched, now);
    if same && queue != [] {
      var ran := RunQueue(cfg, Begin(s), queue, 0, now, []).1;
      assert ran.Some? <==> RunsThrough(cfg, s, queue, now);
      assert Exec(cfg, s, watched, queue, now).1 == if ran.Some? then Committed(ran.value) else Failed;
    }
  }

  lemma NothingQueued(cfg: Config, s: Kv, now: int)
    ensures RunsThrough(cfg, s, [], now) && After(cfg, s, Calls([], now)) == s
    ensures s.delivered + OnceEach(s.delivered[|s.delivered|..]) == s.delivered
  {
  }

  /** Outside other frames a commit also delivers each key whose expiry the queue noticed, once. */
  lemma ExecDelivers(cfg: Config, s: Kv, watched: seq<(Key, int)>, queue: seq<Op>, now: int)
    requires Configured(cfg) && Inv(cfg, s) && s.frames == [] && Exec(cfg, s, watched, queue, now).1.Committed?
    requires forall j :: 0 <= j < |watched| ==> watched[j].1 <= s.generation
    ensures var t, u := Exec(cfg, s, watched, queue, now).0, After(cfg, s, Calls(queue, now));
      t.frames == [] && s.delivered <= u.delivered
      && t.delivered == s.delivered + OnceEach(u.delivered[|s.delivered|..])
  {
    hide CheckWatched, RunQueue, Inv, After, ReplyAt, RunsThrough, Stands, OnceEach, CacheModel.Commit, Unframed;
    CheckStands(cfg, s, watched, 0, now);
    QueueReplies(cfg, Begin(s), queue, now);
    UnframedCalls(Calls(queue, now));
    AtomicTransparent(cfg, s, Calls(queue, now));
    assert Unframed(Calls(queue, now)) == Calls(queue, now);
    if queue == [] {
      NothingQueued(cfg, s, now);
    } else {
      var (u, ran) := RunQueue(cfg, Begin(s), queue, 0, now, []);
      assert ran.Some? && u == After(cfg, Begin(s), Calls(queue, now)) && u.frames != [];
      assert Exec(cfg, s, watched, queue, now).0 == CacheModel.Commit(u);
    }
  }

  /** s is the cache in which the version of watched key j was recorded, p the one exec finds after
      anything at all happened. Unless exec aborts, the key holds at p, where the queue starts, the very
      entry it held at s, and that entry is not due. */
  lemma ExecSeesWatched(cfg: Config, es: seq<Event>, fs: seq<Event>, watched: seq<(Key, int)>, queue: seq<Op>,
                        now: int, j: nat)
    requires Configured(cfg) && j < |watched|
    requires watched[j].1 == Version(After(cfg, EMPTY, es), watched[j].0)
    requires forall i :: 0 <= i < |watched| ==> watched[i].1 <= After(cfg, After(cfg, EMPTY, es), fs).generation
    ensures var s := After(cfg, EMPTY, es);
      var p := After(cfg, s, fs);
      Exec(cfg, p, watched, queue, now).1 != Aborted ==>
        EntryAt(p, watched[j].0) == EntryAt(s, watched[j].0)
        && (EntryAt(p, watched[j].0).Some? ==> Live(p, watched[j].0, now))
  {
    hide Inv, After, Exec;
    EmptyInv(cfg);
    RunsKeepInvariant(cfg, EMPTY, es);
    var s := After(cfg, EMPTY, es);
    RunsKeepInvariant(cfg, s, fs);
    ExecExact(cfg, After(cfg, s, fs), watched, queue, now);
    EqualVersionsEqualEntries(cfg, es, fs, watched[j].0);
  }

  lemma {:induction false} CheckInv(cfg: Config, s: Kv, watched: seq<(Key, int)>, i: nat, now: int)
    requires Configured(cfg) && Inv(cfg, s) && i <= |watched|
    ensures Inv(cfg, CheckWatched(cfg, s, watched, i, now).0)
    ensures |CheckWatched(cfg, s, watched, i, now).0.frames| == |s.frames|
    decreases |watched| - i
  {
    hide Inv, DoGetVersion;
    if i < |watched| {
      VersionFrames(cfg, s, watched[i].0, now);
      var t := DoGetVersion(cfg, s, watched[i].0, now).0;
      if DoGetVersion(cfg, s, watched[i].0, now).1 == Count(watched[i].1) {
        CheckInv(cfg, t, watched, i + 1, now);
      }
    }
  }

  lemma VersionFrames(cfg: Config, s: Kv, k: Key, now: int)
    requires Configured(cfg) && Inv(cfg, s)
    ensures Inv(cfg, DoGetVersion(cfg, s, k, now).0) && |DoGetVersion(cfg, s, k, now).0.frames| == |s.frames|
  {
    hide Inv, Step, DoGetVersion;
    RunSteps(cfg, s, OpGetVersion(k), now);
    StepFrames(cfg, s, DoGetVersion(cfg, s, k, now).0);
  }


  class KVTransaction {
    const cache: KVCache
    var watched: Items<Key, int>
    var queue: seq<Op>
    var done: bool

    ghost predicate Ready()
      reads this, cache, cache.map_, cache.expiring, cache.keyVersions,
            cache.map_.Repr, cache.expiring.Repr, cache.keyVersions.Repr
    {
      cache.Valid() && this !in cache.Footprint()
    }

    constructor (cache: KVCache)
      requires cache.Valid()
      ensures this.cache == cache && watched == [] && queue == [] && !done
    {
      this.cache := cache;
      watched, queue, done := [], [], false;
    }

    /** Record the version k has now; a key that does not fit throws. */
    method Watch(k: Key, now: int) returns (r: Reply)
      requires Ready()
      modifies this`watched, cache.Footprint()
      ensures Ready() && fresh(cache.Footprint() - old(cache.Footprint()))
      ensures done ==> r == Threw && cache.State() == old(cache.State())
      ensures !done ==> (cache.State(), r) == DoGetVersion(cache.cfg, old(cache.State()), k, now)
      ensures watched == if !done && r.Count? then Put(old(watched), k, r.n) else old(watched)
    {
      hide OrderedMap.Valid, KVCache.Valid, DoGetVersion, KVCache.State;
      if done {
        return Threw;
      }
      r := cache.GetVersion(k, now);
      if r.Count? {
        watched := Put(watched, k, r.n);
      }
    }

    method Enqueue(op: Op) returns (ok: bool)
      modifies this`queue
      ensures ok == !done && queue == if done then old(queue) else old(queue) + [op]
    {
      ok := !done;
      if !done {
        queue := queue + [op];
      }
    }

    method Discard() returns (ok: bool)
      modifies this
      ensures ok == !old(done) && done
      ensures if ok then queue == [] && watched == [] else queue == old(queue) && watched == old(watched)
    {
      ok := !done;
      if !done {
        queue, watched, done := [], [], true;
      }
    }

    method Commit(now: int) returns (r: ExecResult)
      requires Ready()
      modifies this, cache.Footprint()
      ensures Ready() && fresh(cache.Footprint() - old(cache.Footprint())) && done
      ensures old(done) ==> r == AlreadyFinished && cache.State() == old(cache.State())
      ensures !old(done) ==> queue == [] && watched == []
      ensures !old(done) ==> (cache.State(), r) == Exec(cache.cfg, old(cache.State()), old(watched), old(queue), now)
    {
      hide OrderedMap.Valid, KVCache.Valid, DoGetVersion, Run, KVCache.State;
      if done {
        return AlreadyFinished;
      }
      done := true;
      var ws, ops := watched, queue;
      watched, queue := [], [];
      var same := CheckVersions(ws, now);
      if !same {
        return Aborted;
      }
      if ops == [] {
        return Committed([]);
      }
      r := Apply(ops, now);
    }

    method CheckVersions(ws: seq<(Key, int)>, now: int) returns (same: bool)
      requires Ready()
      modifies cache.Footprint()
      ensures Ready() && fresh(cache.Footprint() - old(cache.Footprint()))
      ensures (cache.State(), same) == CheckWatched(cache.cfg, old(cache.State()), ws, 0, now)
    {
      hide OrderedMap.Valid, KVCache.Valid, DoGetVersion, KVCache.State;
      var i := 0;
      while i < |ws|
        invariant i <= |ws| && Ready() && fresh(cache.Footprint() - old(cache.Footprint()))
        invariant CheckWatched(cache.cfg, cache.State(), ws, i, now)
          == CheckWatched(cache.cfg, old(cache.State()), ws, 0, now)
      {
        var r := cache.GetVersion(ws[i].0, now);
        if r != Count(ws[i].1) {
          return false;
        }
        i := i + 1;
      }
      same := true;
    }

    /** cache.atomic around the queued operations. */
    method Apply(ops: seq<Op>, now: int) returns (r: ExecResult)
      requires Ready()
      modifies cache.Footprint()
      ensures Ready() && fresh(cache.Footprint() - old(cache.Footprint()))
      ensures var (u, ran) := RunQueue(cache.cfg, Begin(old(cache.State())), ops, 0, now, []);
        (cache.State(), r) == match ran
          case None => (if u.frames != [] then Rollback(u) else u, Failed)
          case Some(replies) => (if u.frames != [] then CacheModel.Commit(u) else u, Committed(replies))
    {
      hide OrderedMap.Valid, KVCache.Valid, Run, KVCache.State, CacheModel.Begin, CacheModel.Commit, Rollback;
      cache.BeginFrame();
      ghost var b := cache.State();
      var replies := [];
      var i := 0;
      while i < |ops|
        invariant i <= |ops| && Ready() && fresh(cache.Footprint() - old(cache.Footprint()))
        invariant RunQueue(cache.cfg, cache.State(), ops, i, now, replies) == RunQueue(cache.cfg, b, ops, 0, now, [])
      {
        var reply := cache.Perform(ops[i], now);
        if reply == Threw {
          var failed := cache.HasFrame();
          if failed {
            cache.RollbackFrame();
          }
          return Failed;
        }
        replies := replies + [reply];
        i := i + 1;
      }
      var open := cache.HasFrame();
      if open {
        cache.CommitFrame();
      }
      r := Committed(replies);
    }
  }
}
