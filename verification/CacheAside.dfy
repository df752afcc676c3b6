/** The cache-aside fence: many processes fill and invalidate one key of a shared cache. */
module CacheAside {
  import opened Decimals
  import opened ItemLists
  import opened Json
  import opened CacheModel
  import opened CacheInvariant
  import opened CacheRuns
  import opened CacheTransactions

  const CACHE_TTL_MS := 30_000

  /** A refresh in flight: WATCH first (its version, or none when it failed), then the read of
      the source, which saw the first d commits. */
  datatype Reader = Watching(version: Option<int>) | Loaded(version: Option<int>, d: nat)

  /** commits counts durable writes of the post; a writer that committed as number c and has
      not yet invalidated is in writers. held is the number of commits the cached value's
      source read had seen, when the cache holds a fill. fence is the highest commit whose
      tombstone SET has taken effect. */
  datatype World = World(remote: Kv, commits: nat, readers: map<nat, Reader>, writers: map<nat, nat>,
                         held: Option<nat>, fence: nat)

  datatype Event =
    | Watch(p: nat, now: int)
    | WatchFails(p: nat)
    | ReadSource(p: nat)
    | Fill(p: nat, value: Value, ttl: int, now: int)  // tx.set and tx.exec
    | GiveUp(p: nat)                                  // epoch moved, too old, or the fill failed
    | CommitPost(w: nat)
    | Tombstone(w: nat, value: Value, now: int)       // the SET takes effect
    | TombstoneFails(w: nat)
    | FailedSave(value: Value, now: int)              // nothing was committed; its tombstone takes effect
    | Other(op: Op, now: int)                         // any other call on the shared cache
    | OtherExec(watched: seq<(Key, int)>, queue: seq<Op>, now: int) // another client's transaction

  /** op may put a value of its own under k. */
  predicate StoresUnder(op: Op, k: Key) {
    match op
    case OpSet(q, _, _) => q == k
    case OpSetAt(q, _, _) => q == k
    case OpMSet(bs) => exists i :: 0 <= i < |bs| && bs[i].key == k
    case OpIncr(q, _) => q == k
    case OpCas(q, _, _, _) => q == k
    case OpRestore(ws) => exists i :: 0 <= i < |ws| && ws[i].key == k
    case _ => false
  }

  function Fills(cfg: Config, k: Key, s: Kv, version: int, value: Value, ttl: int, now: int): (Kv, ExecResult) {
    Exec(cfg, s, [(k, version)], [OpSet(k, value, Some(ttl))], now)
  }

  /** The shared cache accepts the tombstone. */
  predicate Settable(cfg: Config, k: Key, v: Value, now: int) {
    KeyFits(cfg, k) && Clones(v, cfg.maxValueBytes) && Fits(cfg, k, v) && CACHE_TTL_MS <= MAX_SAFE - now
  }

  predicate Enabled(cfg: Config, k: Key, s: World, e: Event) {
    match e
    case Watch(p, _) => p !in s.readers && KeyFits(cfg, k)
    case WatchFails(p) => p !in s.readers
    case ReadSource(p) => p in s.readers && s.readers[p].Watching?
    case Fill(p, _, ttl, _) => p in s.readers && s.readers[p].Loaded? && s.readers[p].version.Some? && ttl > 0
    case GiveUp(p) => p in s.readers
    case CommitPost(w) => w !in s.writers
    case Tombstone(w, v, now) => w in s.writers && Settable(cfg, k, v, now)
    case TombstoneFails(w) => w in s.writers
    case FailedSave(v, now) => Settable(cfg, k, v, now)
    case Other(op, _) => !StoresUnder(op, k)
    case OtherExec(_, queue, _) => forall i :: 0 <= i < |queue| ==> !StoresUnder(queue[i], k)
  }

  function Next(cfg: Config, k: Key, s: World, e: Event): World
    requires Enabled(cfg, k, s, e)
  {
    match e
    case Watch(p, now) =>
      var (t, r) := DoGetVersion(cfg, s.remote, k, now);
      Kept(k, s.(readers := s.readers[p := Watching(Some(Version(t, k)))]), t)
    case WatchFails(p) => s.(readers := s.readers[p := Watching(None)])
    case ReadSource(p) => s.(readers := s.readers[p := Loaded(s.readers[p].version, s.commits)])
    case Fill(p, v, ttl, now) =>
      var (t, r) := Fills(cfg, k, s.remote, s.readers[p].version.value, v, ttl, now);
      var u := Kept(k, s.(readers := s.readers - {p}), t);
      if r.Committed? && EntryAt(t, k).Some? then u.(held := Some(s.readers[p].d)) else u
    case GiveUp(p) => s.(readers := s.readers - {p})
    case CommitPost(w) => s.(commits := s.commits + 1, writers := s.writers[w := s.commits + 1])
    case Tombstone(w, v, now) =>
      var t := DoSet(cfg, s.remote, k, v, Some(CACHE_TTL_MS), now).0;
      s.(remote := t, held := None, fence := Max(s.fence, s.writers[w]) as nat, writers := s.writers - {w})
    case TombstoneFails(w) => s.(writers := s.writers - {w})
    case FailedSave(v, now) => s.(remote := DoSet(cfg, s.remote, k, v, Some(CACHE_TTL_MS), now).0, held := None)
    case Other(op, now) => Kept(k, s, Run(cfg, s.remote, op, now).0)
    case OtherExec(watched, queue, now) => Kept(k, s, Exec(cfg, s.remote, watched, queue, now).0)
  }

  /** The cache moves to t; the value under k, if it is still there, keeps its origin. */
  function Kept(k: Key, s: World, t: Kv): World {
    s.(remote := t, held := if EntryAt(t, k).Some? then s.held else None)
  }

  /** Until its version moves, a refresh holds a source read no older than the fence. */
  ghost predicate ReaderOk(k: Key, s: World, r: Reader) {
    r.version.Some? ==>
      && r.version.value <= s.remote.generation
      && (r.Loaded? && Version(s.remote, k) == r.version.value ==> r.d >= s.fence)
  }

  ghost predicate Fenced(cfg: Config, k: Key, s: World) {
    && Inv(cfg, s.remote) && s.remote.frames == []
    && s.fence <= s.commits
    && (forall w :: w in s.writers ==> s.writers[w] <= s.commits)
    && (forall p :: p in s.readers ==> ReaderOk(k, s, s.readers[p]))
    && (s.held.Some? ==> s.held.value >= s.fence)
  }

  /** What every operation on the shared cache does to the version of k. */
  ghost predicate Moves(cfg: Config, k: Key, s: Kv, t: Kv) {
    && Inv(cfg, t) && t.frames == [] && s.generation <= t.generation
    && (Version(t, k) > s.generation || Version(t, k) == Version(s, k))
  }

  lemma RunMoves(cfg: Config, k: Key, s: Kv, op: Op, now: int)
    requires Configured(cfg) && Inv(cfg, s) && s.frames == []
    ensures Moves(cfg, k, s, Run(cfg, s, op, now).0)
  {
    RunSteps(cfg, s, op, now);
  }

  lemma VersionMoves(cfg: Config, k: Key, s: Kv, q: Key, now: int)
    requires Configured(cfg) && Inv(cfg, s) && s.frames == []
    ensures Moves(cfg, k, s, DoGetVersion(cfg, s, q, now).0)
  {
    RunMoves(cfg, k, s, OpGetVersion(q), now);
  }

  lemma FillMoves(cfg: Config, k: Key, s: Kv, version: int, v: Value, ttl: int, now: int)
    requires Configured(cfg) && Inv(cfg, s) && s.frames == []
    ensures var (t, r) := Fills(cfg, k, s, version, v, ttl, now);
      && Moves(cfg, k, s, t)
      && (r.Committed? && version <= s.generation ==> Version(s, k) == version)
  {
    hide Inv, Run, DoGetVersion;
    var (t, r) := DoGetVersion(cfg, s, k, now);
    VersionMoves(cfg, k, s, k, now);
    GetVersionReports(cfg, s, k, now);
    var ws, q := [(k, version)], [OpSet(k, v, Some(ttl))];
    CheckOne(cfg, s, k, version, now);
    if r == Count(version) {
      NextInv(cfg, t, BeginFrame);
      QueueMoves(cfg, k, t, q, now);
    }
  }

  lemma CheckOne(cfg: Config, s: Kv, k: Key, version: int, now: int)
    ensures CheckWatched(cfg, s, [(k, version)], 0, now) ==
      var (t, r) := DoGetVersion(cfg, s, k, now); (t, r == Count(version))
  {
    var ws := [(k, version)];
    var (t, r) := DoGetVersion(cfg, s, k, now);
    assert CheckWatched(cfg, t, ws, 1, now) == (t, true);
  }

  /** A transaction's queue, committed or rolled back. */
  lemma QueueMoves(cfg: Config, k: Key, s: Kv, queue: seq<Op>, now: int)
    requires Configured(cfg) && Inv(cfg, s) && s.frames == []
    ensures var (u, done) := RunQueue(cfg, Begin(s), queue, 0, now, []);
      && u.frames != []
      && Moves(cfg, k, s, if done.Some? then Commit(u) else Rollback(u))
  {
    hide Inv, RunQueue, Sound;
    var b := Begin(s);
    NextInv(cfg, s, BeginFrame);
    QueueSteps(cfg, b, queue, 0, now, []);
    var u := RunQueue(cfg, b, queue, 0, now, []).0;
    assert u.frames[0].core == s.core && |u.frames| == 1;
    assert Version(u, k) > b.generation || Version(u, k) == Version(b, k);
    assert Version(Commit(u), k) == Version(u, k) && Version(Rollback(u), k) == Version(s, k)
        && Version(b, k) == Version(s, k);
    NextInv(cfg, u, CommitFrame);
    NextInv(cfg, u, RollbackFrame);
  }

  lemma {:induction false} CheckMoves(cfg: Config, k: Key, s: Kv, watched: seq<(Key, int)>, i: nat, now: int)
    requires Configured(cfg) && Inv(cfg, s) && s.frames == [] && i <= |watched|
    ensures Moves(cfg, k, s, CheckWatched(cfg, s, watched, i, now).0)
    decreases |watched| - i
  {
    hide Inv, DoGetVersion, Version;
    if i < |watched| {
      VersionMoves(cfg, k, s, watched[i].0, now);
      var (t, r) := DoGetVersion(cfg, s, watched[i].0, now);
      if r == Count(watched[i].1) { CheckMoves(cfg, k, t, watched, i + 1, now); }
    }
  }

  /** Another client's transaction, aborted, failed or committed. */
  lemma ExecMoves(cfg: Config, k: Key, s: Kv, watched: seq<(Key, int)>, queue: seq<Op>, now: int)
    requires Configured(cfg) && Inv(cfg, s) && s.frames == []
    ensures Moves(cfg, k, s, Exec(cfg, s, watched, queue, now).0)
  {
    hide Inv, CheckWatched, RunQueue, Version, Begin, Commit, Rollback;
    var (t, same) := CheckWatched(cfg, s, watched, 0, now);
    CheckMoves(cfg, k, s, watched, 0, now);
    QueueMoves(cfg, k, t, queue, now);
    if same && queue != [] {
      var (u, done) := RunQueue(cfg, Begin(t), queue, 0, now, []);
      assert Exec(cfg, s, watched, queue, now).0 == if done.Some? then Commit(u) else Rollback(u);
    }
  }

  /** The tombstone is a SET, so it moves the version even when the key was absent. */
  lemma TombstoneMoves(cfg: Config, k: Key, s: Kv, v: Value, now: int)
    requires Configured(cfg) && Inv(cfg, s) && s.frames == []
    requires Settable(cfg, k, v, now)
    ensures var t := DoSet(cfg, s, k, v, Some(CACHE_TTL_MS), now).0;
      Moves(cfg, k, s, t) && Version(t, k) > s.generation && EntryAt(t, k).Some? && EntryAt(t, k).value.value == v
  {
    hide Step, Evict, Store, Moves, Total;
    RunMoves(cfg, k, s, OpSet(k, v, Some(CACHE_TTL_MS)), now);
    WrittenStays(cfg, s, k, Entry(v, Some(now + CACHE_TTL_MS), SizeOf(k, v)), Some(now));
  }

  lemma ReadersStay(cfg: Config, k: Key, s: World, t: Kv)
    requires Fenced(cfg, k, s) && Moves(cfg, k, s.remote, t)
    ensures Fenced(cfg, k, Kept(k, s, t))
  {
    forall p | p in s.readers ensures ReaderOk(k, Kept(k, s, t), s.readers[p]) {
      assert ReaderOk(k, s, s.readers[p]);
    }
  }

  lemma NextFenced(cfg: Config, k: Key, s: World, e: Event)
    requires Configured(cfg) && Fenced(cfg, k, s) && Enabled(cfg, k, s, e)
    ensures Fenced(cfg, k, Next(cfg, k, s, e)) && Next(cfg, k, s, e).fence >= s.fence
  {
    hide Inv, Run, DoGetVersion, DoSet, Fills, Exec, Version;
    match e
    case Watch(p, now) =>
      var t := DoGetVersion(cfg, s.remote, k, now).0;
      VersionMoves(cfg, k, s.remote, k, now);
      VersionBounded(cfg, k, t);
      ReadersStay(cfg, k, s, t);
      assert Next(cfg, k, s, e) == Kept(k, s, t).(readers := s.readers[p := Watching(Some(Version(t, k)))]);
    case Fill(p, v, ttl, now) =>
      var r := s.readers[p];
      var t := Fills(cfg, k, s.remote, r.version.value, v, ttl, now).0;
      FillMoves(cfg, k, s.remote, r.version.value, v, ttl, now);
      assert ReaderOk(k, s, r);
      ReadersStay(cfg, k, s, t);
    case Tombstone(w, v, now) =>
      TombstoneMoves(cfg, k, s.remote, v, now);
      FenceRises(cfg, k, s, w, v, now);
    case FailedSave(v, now) =>
      TombstoneMoves(cfg, k, s.remote, v, now);
      StrayTombstone(cfg, k, s, v, now);
    case Other(op, now) =>
      RunMoves(cfg, k, s.remote, op, now);
      ReadersStay(cfg, k, s, Run(cfg, s.remote, op, now).0);
    case OtherExec(watched, queue, now) =>
      ExecMoves(cfg, k, s.remote, watched, queue, now);
      ReadersStay(cfg, k, s, Exec(cfg, s.remote, watched, queue, now).0);
    case ReadSource(p) => assert ReaderOk(k, s, s.readers[p]);
    case _ =>
  }

  lemma VersionBounded(cfg: Config, k: Key, s: Kv)
    requires Inv(cfg, s)
    ensures Version(s, k) <= s.generation
  {
  }

  /** A tombstone outdates every refresh that watched before it. */
  lemma FenceRises(cfg: Config, k: Key, s: World, w: nat, v: Value, now: int)
    requires Configured(cfg) && Fenced(cfg, k, s) && Enabled(cfg, k, s, Tombstone(w, v, now))
    requires var t := DoSet(cfg, s.remote, k, v, Some(CACHE_TTL_MS), now).0;
      Moves(cfg, k, s.remote, t) && Version(t, k) > s.remote.generation
    ensures Fenced(cfg, k, Next(cfg, k, s, Tombstone(w, v, now)))
  {
    hide Inv, DoSet, Version;
    var u := Next(cfg, k, s, Tombstone(w, v, now));
    forall p | p in u.readers ensures ReaderOk(k, u, u.readers[p]) {
      assert ReaderOk(k, s, s.readers[p]);
    }
  }

  lemma StrayTombstone(cfg: Config, k: Key, s: World, v: Value, now: int)
    requires Configured(cfg) && Fenced(cfg, k, s) && Enabled(cfg, k, s, FailedSave(v, now))
    requires var t := DoSet(cfg, s.remote, k, v, Some(CACHE_TTL_MS), now).0;
      Moves(cfg, k, s.remote, t) && Version(t, k) > s.remote.generation
    ensures Fenced(cfg, k, Next(cfg, k, s, FailedSave(v, now)))
  {
    hide Inv, DoSet, Version;
    var u := Next(cfg, k, s, FailedSave(v, now));
    forall p | p in u.readers ensures ReaderOk(k, u, u.readers[p]) {
      assert ReaderOk(k, s, s.readers[p]);
    }
  }

  // ---- every interleaving ----

  predicate Runs(cfg: Config, k: Key, s: World, es: seq<Event>)
    decreases |es|
  {
    es == [] || (Enabled(cfg, k, s, es[0]) && Runs(cfg, k, Next(cfg, k, s, es[0]), es[1..]))
  }

  function After(cfg: Config, k: Key, s: World, es: seq<Event>): World
    requires Runs(cfg, k, s, es)
    decreases |es|
  {
    if es == [] then s else After(cfg, k, Next(cfg, k, s, es[0]), es[1..])
  }

  const QUIET := World(EMPTY, 0, map[], map[], None, 0)

  lemma {:induction false} RunsFenced(cfg: Config, k: Key, s: World, es: seq<Event>)
    requires Configured(cfg) && Fenced(cfg, k, s) && Runs(cfg, k, s, es)
    ensures Fenced(cfg, k, After(cfg, k, s, es)) && After(cfg, k, s, es).fence >= s.fence
    decreases |es|
  {
    hide Fenced, Next, Enabled;
    if es != [] {
      NextFenced(cfg, k, s, es[0]);
      RunsFenced(cfg, k, Next(cfg, k, s, es[0]), es[1..]);
    }
  }

  /** Across all interleavings: after run es, writer w's tombstone for commit c takes effect;
      whatever run fs follows, the cache never again holds a value whose source read had not
      seen commit c. */
  lemma NeverStaleAgain(cfg: Config, k: Key, es: seq<Event>, w: nat, v: Value, now: int, fs: seq<Event>)
    requires Configured(cfg) && Runs(cfg, k, QUIET, es)
    requires Enabled(cfg, k, After(cfg, k, QUIET, es), Tombstone(w, v, now))
    requires Runs(cfg, k, Next(cfg, k, After(cfg, k, QUIET, es), Tombstone(w, v, now)), fs)
    ensures var s := After(cfg, k, QUIET, es);
      var c := s.writers[w];
      var t := After(cfg, k, Next(cfg, k, s, Tombstone(w, v, now)), fs);
      t.held.Some? ==> t.held.value >= c
  {
    hide Next, Enabled;
    QuietFenced(cfg, k);
    RunsFenced(cfg, k, QUIET, es);
    var s := After(cfg, k, QUIET, es);
    NextFenced(cfg, k, s, Tombstone(w, v, now));
    RunsFenced(cfg, k, Next(cfg, k, s, Tombstone(w, v, now)), fs);
    TombstoneFences(cfg, k, s, w, v, now);
  }

  lemma TombstoneFences(cfg: Config, k: Key, s: World, w: nat, v: Value, now: int)
    requires Enabled(cfg, k, s, Tombstone(w, v, now))
    ensures w in s.writers && Next(cfg, k, s, Tombstone(w, v, now)).fence >= s.writers[w]
  {
  }

  lemma QuietFenced(cfg: Config, k: Key)
    ensures Fenced(cfg, k, QUIET)
  {
    EmptyInv(cfg);
  }

  /** Why not DEL: deleting an absent key moves no version, so a refresh that watched before
      still passes its check and would fill the cache with what it read. */
  lemma DeleteDoesNotFence(cfg: Config, s: Kv, k: Key, now: int)
    requires Configured(cfg) && Inv(cfg, s) && KeyFits(cfg, k) && EntryAt(s, k).None?
    ensures var t := DoDel(cfg, s, k, now).0;
      t == s && CheckWatched(cfg, t, [(k, Version(s, k))], 0, now) == (t, true)
  {
    CheckOne(cfg, s, k, Version(s, k), now);
  }
}
