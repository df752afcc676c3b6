/** What the operations mean to a reader: per key, a value with an absolute deadline, whatever the
    LRU order, expired leftovers and counters underneath. */
module CacheContents {
  import opened ItemLists
  import opened Json
  import opened CacheModel
  import opened CacheInvariant

  predicate SingleKey(op: Op) { !op.OpMSet? && !op.OpClearPrefix? && !op.OpClear? && !op.OpRestore? && !op.OpSweep? }

  /** The operations that may put a value under their key; only these may evict. */
  predicate Stores(op: Op) { op.OpSet? || op.OpSetAt? || op.OpIncr? || op.OpCas? }

  function Written(cfg: Config, was: Shown, k: Key, v: Value, at: Option<int>, now: int): (Shown, Reply) {
    if Fits(cfg, k, v) then (Until(v, at, now), Found(v)) else (was, Threw)
  }

  predicate Expected(was: Shown, expected: Option<Value>) {
    match (was, expected) case (Some(p), Some(x)) => Same(p.0, x) case (None, None) => true case _ => false
  }

  /** A single-key operation as a function of what is visible under its key alone: what is visible
      afterwards, and the reply. A version is reported as Nothing here. */
  function Meaning(cfg: Config, was: Shown, op: Op, now: int): (Shown, Reply)
    requires SingleKey(op)
  {
    if !KeyFits(cfg, op.key) then (was, Threw)
    else match op
      case OpGet(_) =>
        (was, if was.None? then Nothing else if Clones(was.value.0, CLONE_BYTES) then Found(was.value.0) else Threw)
      case OpSet(k, v, ttl) =>
        if !Clones(v, cfg.maxValueBytes) || Deadline(cfg, k, ttl, now).Bad? then (was, Threw)
        else Written(cfg, was, k, v, Deadline(cfg, k, ttl, now).value, now)
      case OpSetAt(k, v, at) => if !Clones(v, cfg.maxValueBytes) then (was, Threw) else Written(cfg, was, k, v, at, now)
      case OpDel(_) => (None, Flag(was.Some?))
      case OpIncr(k, delta) =>
        if was.Some? && !was.value.0.Num? then (was, Threw)
        else
          var n := (if was.Some? then was.value.0.n else 0) + delta;
          if Fits(cfg, k, Num(n)) then (Some((Num(n), if was.Some? then was.value.1 else None)), Count(n))
          else (was, Threw)
      case OpCas(k, x, v, ttl) =>
        if (x.Some? && !Clones(x.value, CLONE_BYTES)) || !Clones(v, CLONE_BYTES) || !Fits(cfg, k, v) then (was, Threw)
        else if !Expected(was, x) then (was, Flag(false))
        else
          var at := if ttl.None? && was.Some? then Fine(was.value.1) else Deadline(cfg, k, ttl, now);
          if at.Bad? then (was, Threw) else (Until(v, at.value, now), Flag(true))
      case OpExpire(_, after) =>
        if CheckTtl(after, now).Bad? then (was, Threw)
        else if was.None? then (None, Flag(false))
        else (Until(was.value.0, Some(now + after), now), Flag(true))
      case OpExpireAt(_, at) =>
        if was.None? then (None, Flag(false)) else (Until(was.value.0, Some(at), now), Flag(true))
      case OpPersist(_) => if was.None? then (None, Flag(false)) else (Some((was.value.0, None)), Flag(true))
      case OpTtl(_) =>
        (was, if was.None? then Count(-2) else if was.value.1.None? then Persists else Count(was.value.1.value - now))
      case OpGetVersion(_) => (was, Nothing)
  }

  /** Every other key shows what it showed, or was evicted; evicted only without room. */
  ghost predicate OthersStay(s: Kv, t: Kv, k: Key, now: int, room: bool) {
    forall q :: q != k ==> View(t, q, now) == View(s, q, now) || (!room && View(t, q, now) == None)
  }

  /** There is room for one more entry of any admissible size. */
  predicate Room(cfg: Config, s: Kv) {
    |s.core.entries| < cfg.maxEntries && s.core.bytes + cfg.maxKeyBytes + cfg.maxValueBytes <= cfg.maxBytes
  }

  // ---- entries after the composite steps ----

  lemma WithoutKey(s: Kv, t: Kv, k: Key)
    requires DistinctKeys(s.core.entries) && t.core.entries == Remove(s.core.entries, k)
    ensures forall q :: EntryAt(t, q) == if q == k then None else EntryAt(s, q)
  {
    forall q ensures EntryAt(t, q) == if q == k then None else EntryAt(s, q) { GetRemove(s.core.entries, k, q); }
  }

  lemma DiscardShows(cfg: Config, s: Kv, k: Key)
    requires Sound(cfg, s.core, s.generation)
    ensures forall q :: EntryAt(Discard(cfg, s, k), q) == if q == k then None else EntryAt(s, q)
    ensures forall q :: EntryAt(Expire(cfg, s, k), q) == if q == k then None else EntryAt(s, q)
  {
    hide Discard, Expire, Step;
    DiscardSteps(cfg, s, k);
    ExpireSteps(cfg, s, k);
    WithoutKey(s, Discard(cfg, s, k), k);
    WithoutKey(s, Expire(cfg, s, k), k);
  }

  /** Lazy expiry changes nothing a reader sees, and leaves an entry exactly when one is visible. */
  lemma SettleShows(cfg: Config, s: Kv, k: Key, now: int)
    requires Sound(cfg, s.core, s.generation) && !Over(cfg, s.core)
    ensures var t := Settle(cfg, s, k, now);
      && Sound(cfg, t.core, t.generation) && !Over(cfg, t.core)
      && (forall q :: View(t, q, now) == View(s, q, now)) && (EntryAt(t, k).Some? <==> View(s, k, now).Some?)
      && (EntryAt(t, k).Some? ==> EntryAt(t, k) == EntryAt(s, k))
      && |t.core.entries| <= |s.core.entries| && t.core.bytes <= s.core.bytes
  {
    hide Expire, Discard, Step, Sound;
    DueSteps(cfg, s, k, now);
    StepSound(cfg, s, Settle(cfg, s, k, now));
    DiscardShows(cfg, s, k);
    ExpireShrinks(cfg, s, k);
  }

  lemma ExpireShrinks(cfg: Config, s: Kv, k: Key)
    requires Sound(cfg, s.core, s.generation)
    ensures |Expire(cfg, s, k).core.entries| <= |s.core.entries| && Expire(cfg, s, k).core.bytes <= s.core.bytes
  {
  }

  lemma StoreShows(cfg: Config, s: Kv, k: Key, e: Entry)
    requires Sound(cfg, s.core, s.generation) && EntryOk(cfg, k, e)
    ensures forall q :: EntryAt(Store(cfg, s, k, e), q) == if q == k then Some(e) else EntryAt(s, q)
  {
    forall q ensures EntryAt(Store(cfg, s, k, e), q) == if q == k then Some(e) else EntryAt(s, q) {
      StoredAt(s.core, k, e, q);
    }
  }

  lemma {:induction false} SuffixLookup(es: Items<Key, Entry>, n: nat, q: Key)
    requires DistinctKeys(es) && n <= |es|
    ensures Get(es[n..], q) == Get(es, q) || Get(es[n..], q) == None
  {
    GetFind(es[n..], q);
    GetFind(es, q);
    var i := Find(es[n..], q);
    if i < |es| - n {
      FindIs(es, n + i);
    }
  }

  /** Store and evict: the new entry shows, others stay or are evicted. */
  lemma PlaceShows(cfg: Config, s: Kv, k: Key, e: Entry, now: int)
    requires Configured(cfg) && Sound(cfg, s.core, s.generation) && !Over(cfg, s.core) && EntryOk(cfg, k, e)
    ensures var t := Evict(cfg, Store(cfg, s, k, e), Some(now));
      && EntryAt(t, k) == Some(e)
      && (forall q :: q != k ==> EntryAt(t, q) == EntryAt(s, q) || EntryAt(t, q) == None)
      && (Room(cfg, s) ==> forall q :: q != k ==> EntryAt(t, q) == EntryAt(s, q))
  {
    hide Step, Total, ShortestShed, Store, Evict;
    var u := Store(cfg, s, k, e);
    var t := Evict(cfg, u, Some(now));
    WrittenStays(cfg, s, k, e, Some(now));
    StoreSteps(cfg, s, k, e);
    StoreShows(cfg, s, k, e);
    StepSound(cfg, s, u);
    EvictShortest(cfg, u, Some(now));
    forall q | q != k ensures EntryAt(t, q) == EntryAt(s, q) || EntryAt(t, q) == None { ShedShows(cfg, u, t, q); }
    if Room(cfg, s) { NoneEvicted(cfg, s, k, e, now); }
  }

  lemma ShedShows(cfg: Config, u: Kv, t: Kv, q: Key)
    requires DistinctKeys(u.core.entries) && ShortestShed(cfg, u.core.entries, t.core.entries)
    ensures EntryAt(t, q) == EntryAt(u, q) || EntryAt(t, q) == None
  {
    SuffixLookup(u.core.entries, |u.core.entries| - |t.core.entries|, q);
  }

  lemma NoneEvicted(cfg: Config, s: Kv, k: Key, e: Entry, now: int)
    requires Sound(cfg, s.core, s.generation) && Room(cfg, s) && EntryOk(cfg, k, e)
    ensures Evict(cfg, Store(cfg, s, k, e), Some(now)) == Store(cfg, s, k, e)
  {
    hide Sound;
    StoreSteps(cfg, s, k, e);
    assert !Over(cfg, Store(cfg, s, k, e).core) by { StoreRoom(cfg, s, k, e); }
  }

  lemma StoreRoom(cfg: Config, s: Kv, k: Key, e: Entry)
    requires Room(cfg, s) && EntryOk(cfg, k, e)
    ensures !Over(cfg, Store(cfg, s, k, e).core)
  {
    RemoveAbsent(s.core.entries, k);
  }

  // ---- the operations ----

  /** The reply and what k shows are what Meaning says; other keys stay, or are evicted for lack of room. */
  ghost predicate Means(cfg: Config, s: Kv, op: Op, now: int, t: Kv, r: Reply)
    requires SingleKey(op)
  {
    var (shown, reply) := Meaning(cfg, View(s, op.key, now), op, now);
    && View(t, op.key, now) == shown && (r == reply || (op.OpGetVersion? && r.Count?))
    && OthersStay(s, t, op.key, now, !Stores(op) || Room(cfg, s))
  }

  lemma ReadsMean(cfg: Config, s: Kv, op: Op, now: int)
    requires Inv(cfg, s) && (op.OpTtl? || op.OpGetVersion? || op.OpDel?)
    ensures var (t, r) := Run(cfg, s, op, now); Means(cfg, s, op, now, t, r)
  {
    hide Expire, Discard, Sound, Clones, Room;
    assert Sound(cfg, s.core, s.generation) by { SoundOf(cfg, s); }
    DiscardShows(cfg, s, op.key);
  }

  lemma GetMeans(cfg: Config, s: Kv, k: Key, now: int)
    requires Inv(cfg, s)
    ensures var (t, r) := DoGet(cfg, s, k, now); Means(cfg, s, OpGet(k), now, t, r)
  {
    hide Expire, Discard, Sound, Clones, Room;
    assert Sound(cfg, s.core, s.generation) by { SoundOf(cfg, s); }
    DiscardShows(cfg, s, k);
    if Has(s.core.entries, k) { TouchShows(cfg, s, k); }
  }

  lemma SoundOf(cfg: Config, s: Kv)
    requires Inv(cfg, s)
    ensures Sound(cfg, s.core, s.generation) && !Over(cfg, s.core)
  {
  }

  lemma TouchShows(cfg: Config, s: Kv, k: Key)
    requires Sound(cfg, s.core, s.generation) && Has(s.core.entries, k)
    ensures var e := EntryAt(s, k).value;
      forall q :: Get(PutEntry(RemoveEntry(s.core, k), k, e).entries, q) == EntryAt(s, q)
  {
    var e := EntryAt(s, k).value;
    forall q ensures Get(PutEntry(RemoveEntry(s.core, k), k, e).entries, q) == EntryAt(s, q) {
      StoredAt(s.core, k, e, q);
    }
  }

  lemma OwnedMeans(cfg: Config, s: Kv, k: Key, v: Value, at: Option<int>, now: int)
    requires Configured(cfg) && Inv(cfg, s) && (Fits(cfg, k, v) ==> Clones(v, cfg.maxValueBytes))
    ensures var (t, r) := SetOwned(cfg, s, k, v, at, now);
      && (View(t, k, now), r) == Written(cfg, View(s, k, now), k, v, at, now)
      && OthersStay(s, t, k, now, Room(cfg, s))
  {
    hide Discard, Store, Evict, Sound, Fits, Room;
    SoundOf(cfg, s);
    if Fits(cfg, k, v) {
      DiscardShows(cfg, s, k);
      PlaceShows(cfg, s, k, Entry(v, at, SizeOf(k, v)), now);
    }
  }

  lemma WritesMean(cfg: Config, s: Kv, op: Op, now: int)
    requires Configured(cfg) && Inv(cfg, s) && (op.OpSet? || op.OpSetAt?)
    ensures var (t, r) := Run(cfg, s, op, now); Means(cfg, s, op, now, t, r)
  {
    hide SetOwned, Sound, Fits, Clones, Deadline, Room, View;
    if Clones(op.value, cfg.maxValueBytes) {
      if op.OpSetAt? {
        OwnedMeans(cfg, s, op.key, op.value, op.expiresAt, now);
      } else if Deadline(cfg, op.key, op.ttl, now).Fine? {
        OwnedMeans(cfg, s, op.key, op.value, Deadline(cfg, op.key, op.ttl, now).value, now);
      }
    }
  }

  /** Room is not lost by settling. */
  lemma RoomSettled(cfg: Config, s: Kv, k: Key, now: int)
    requires Inv(cfg, s)
    ensures Room(cfg, s) ==> Room(cfg, Settle(cfg, s, k, now))
  {
    hide Settle, Sound;
    SettleShows(cfg, s, k, now);
  }

  lemma IncrMeans(cfg: Config, s: Kv, k: Key, delta: int, now: int)
    requires Configured(cfg) && Inv(cfg, s)
    ensures var (t, r) := DoIncr(cfg, s, k, delta, now); Means(cfg, s, OpIncr(k, delta), now, t, r)
  {
    hide Settle, Sound, Fits, Store, Evict, Room, Over;
    SoundOf(cfg, s);
    if KeyFits(cfg, k) {
      SettleShows(cfg, s, k, now);
      RoomSettled(cfg, s, k, now);
      var t := Settle(cfg, s, k, now);
      var live := EntryAt(t, k);
      if live.None? || live.value.value.Num? {
        var n := if live.Some? then live.value.value.n + delta else delta;
        var e := Entry(Num(n), if live.Some? then live.value.expiresAt else None, SizeOf(k, Num(n)));
        if Fits(cfg, k, Num(n)) {
          NumberOk(cfg, k, e);
          PlaceShows(cfg, t, k, e, now);
        }
      }
    }
  }

  lemma NumberOk(cfg: Config, k: Key, e: Entry)
    requires e.value.Num? && e.size == SizeOf(k, e.value) && Fits(cfg, k, e.value)
    ensures EntryOk(cfg, k, e)
  {
  }

  lemma CasMeans(cfg: Config, s: Kv, k: Key, x: Option<Value>, v: Value, ttl: Option<int>, now: int)
    requires Configured(cfg) && Inv(cfg, s)
    ensures var (t, r) := DoCas(cfg, s, k, x, v, ttl, now); Means(cfg, s, OpCas(k, x, v, ttl), now, t, r)
  {
    hide Settle, Sound, Fits, Room, Over, CasTo, Deadline, Clones, Same;
    SoundOf(cfg, s);
    SettleShows(cfg, s, k, now);
    RoomSettled(cfg, s, k, now);
    var t := Settle(cfg, s, k, now);
    if Fits(cfg, k, v) && Clones(v, CLONE_BYTES) {
      var live := EntryAt(t, k);
      var at := if ttl.Some? then Deadline(cfg, k, ttl, now)
                else if live.Some? then Fine(live.value.expiresAt) else Deadline(cfg, k, None, now);
      CasToMeans(cfg, t, k, v, at, now);
    }
  }

  lemma CasToMeans(cfg: Config, s: Kv, k: Key, v: Value, at: Checked<Option<int>>, now: int)
    requires Configured(cfg) && Sound(cfg, s.core, s.generation) && !Over(cfg, s.core)
    requires Fits(cfg, k, v) && Clones(v, CLONE_BYTES)
    ensures var (t, r) := CasTo(cfg, s, k, v, at, now);
      if at.Bad? then t == s && r == Threw
      else View(t, k, now) == Until(v, at.value, now) && r == Flag(true) && OthersStay(s, t, k, now, Room(cfg, s))
  {
    hide Sound, Fits, Store, Evict, Room, Over, Discard, Clones;
    FitsClones(cfg, k, v);
    DiscardShows(cfg, s, k);
    if at.Fine? {
      PlaceShows(cfg, s, k, Entry(v, at.value, SizeOf(k, v)), now);
      var t := CasTo(cfg, s, k, v, at, now).0;
      if at.value.Some? && at.value.value <= now {
        assert forall q :: EntryAt(t, q) == EntryAt(Discard(cfg, s, k), q);
      } else {
        assert t == Evict(cfg, Store(cfg, s, k, Entry(v, at.value, SizeOf(k, v))), Some(now));
      }
    }
  }

  lemma FitsClones(cfg: Config, k: Key, v: Value)
    requires Fits(cfg, k, v) && Clones(v, CLONE_BYTES)
    ensures Clones(v, cfg.maxValueBytes)
  {
  }

  lemma RedateMeans(cfg: Config, s: Kv, k: Key, at: Option<int>, now: int)
    requires Inv(cfg, s)
    ensures var (t, r) := Redate(cfg, s, k, at, now);
      var was := View(s, k, now);
      && View(t, k, now) == (if was.None? then None else Until(was.value.0, at, now))
      && r == Flag(was.Some?) && forall q :: q != k ==> View(t, q, now) == View(s, q, now)
  {
    hide Sound, Store, Expire;
    SoundOf(cfg, s);
    DiscardShows(cfg, s, k);
    if EntryAt(s, k).Some? {
      EntryOkAt(cfg, s, k);
      StoreShows(cfg, s, k, EntryAt(s, k).value.(expiresAt := at));
    }
  }

  lemma EntryOkAt(cfg: Config, s: Kv, k: Key)
    requires Inv(cfg, s) && EntryAt(s, k).Some?
    ensures forall at :: EntryOk(cfg, k, EntryAt(s, k).value.(expiresAt := at))
  {
    assert EntryOk(cfg, k, Get(s.core.entries, k).value);
  }

  lemma DatesMean(cfg: Config, s: Kv, op: Op, now: int)
    requires Inv(cfg, s) && (op.OpExpire? || op.OpExpireAt? || op.OpPersist?)
    ensures var (t, r) := Run(cfg, s, op, now); Means(cfg, s, op, now, t, r)
  {
    hide Sound, Redate, Expire, Room;
    match op
    case OpExpire(k, after) => RedateMeans(cfg, s, k, Some(now + after), now);
    case OpPersist(k) => RedateMeans(cfg, s, k, None, now);
    case OpExpireAt(k, at) =>
      SoundOf(cfg, s);
      RedateMeans(cfg, s, k, Some(at), now);
      DiscardShows(cfg, s, k);
  }

  /** Every single-key operation, on any state of the cache: its reply and its effect depend only on
      the value and deadline visible under its key, and it changes what no other key shows, except
      that set, setAt, incr and cas may evict when there is no room. */
  lemma OperationsMean(cfg: Config, s: Kv, op: Op, now: int)
    requires Configured(cfg) && Inv(cfg, s) && SingleKey(op)
    ensures var (t, r) := Run(cfg, s, op, now); Means(cfg, s, op, now, t, r)
  {
    hide Means, Inv, DoGet, DoSet, DoSetAt, DoDel, DoIncr, DoCas, DoExpire, DoExpireAt, DoPersist, DoTtl, DoGetVersion;
    match op
    case OpGet(k) => GetMeans(cfg, s, k, now);
    case OpDel(_) => ReadsMean(cfg, s, op, now);
    case OpTtl(_) => ReadsMean(cfg, s, op, now);
    case OpGetVersion(_) => ReadsMean(cfg, s, op, now);
    case OpSet(_, _, _) => WritesMean(cfg, s, op, now);
    case OpSetAt(_, _, _) => WritesMean(cfg, s, op, now);
    case OpIncr(k, delta) => IncrMeans(cfg, s, k, delta, now);
    case OpCas(k, x, v, ttl) => CasMeans(cfg, s, k, x, v, ttl, now);
    case OpExpire(_, _) => DatesMean(cfg, s, op, now);
    case OpExpireAt(_, _) => DatesMean(cfg, s, op, now);
    case OpPersist(_) => DatesMean(cfg, s, op, now);
  }

  // ---- operations on many keys ----

  lemma {:induction false} ClearFromShows(cfg: Config, s: Kv, ks: seq<Key>, i: nat, prefix: Str)
    requires Sound(cfg, s.core, s.generation) && !Over(cfg, s.core) && i <= |ks|
    ensures forall q :: EntryAt(ClearFrom(cfg, s, ks, i, prefix), q) ==
                        (if q in ks[i..] && InNamespace(q, prefix) then None else EntryAt(s, q))
    decreases |ks| - i
  {
    hide Sound, Step, Discard, Over;
    if i < |ks| {
      DiscardShows(cfg, s, ks[i]);
      DiscardSteps(cfg, s, ks[i]);
      DiscardFits(cfg, s, ks[i]);
      var t := if InNamespace(ks[i], prefix) then Discard(cfg, s, ks[i]) else s;
      StepSound(cfg, s, if InNamespace(ks[i], prefix) then t else Discard(cfg, s, ks[i]));
      ClearFromShows(cfg, t, ks, i + 1, prefix);
      assert ks[i..] == [ks[i]] + ks[i + 1..];
    }
  }

  /** clearPrefix removes exactly the keys of the namespace. */
  lemma ClearPrefixMeans(cfg: Config, s: Kv, prefix: Str, now: int)
    requires Inv(cfg, s) && KeyFits(cfg, prefix)
    ensures var t := DoClearPrefix(cfg, s, prefix).0;
      forall q :: View(t, q, now) == if InNamespace(q, prefix) then None else View(s, q, now)
  {
    hide Sound, ClearFrom;
    SoundOf(cfg, s);
    var ks := KeysOf(s.core.entries);
    ClearFromShows(cfg, s, ks, 0, prefix);
    assert ks[0..] == ks;
    forall q ensures EntryAt(s, q).Some? ==> q in ks { ListedKey(s, q); }
  }

  lemma ListedKey(s: Kv, q: Key)
    ensures EntryAt(s, q).Some? ==> q in KeysOf(s.core.entries)
  {
    GetFind(s.core.entries, q);
    if EntryAt(s, q).Some? { assert KeysOf(s.core.entries)[Find(s.core.entries, q)] == q; }
  }

  lemma {:induction false} SweepFromShows(cfg: Config, s: Kv, ks: seq<Key>, i: nat, now: int)
    requires Sound(cfg, s.core, s.generation) && !Over(cfg, s.core) && i <= |ks|
    ensures var t := SweepFrom(cfg, s, ks, i, now).0;
      forall q :: EntryAt(t, q) ==
                  (if q in ks[i..] && EntryAt(s, q).Some? && Due(EntryAt(s, q).value, now) then None else EntryAt(s, q))
    decreases |ks| - i
  {
    hide Sound, Step, Expire, Over, Due;
    if i < |ks| {
      DueSteps(cfg, s, ks[i], now);
      DiscardShows(cfg, s, ks[i]);
      var t := Settle(cfg, s, ks[i], now);
      StepSound(cfg, s, t);
      SweepFromShows(cfg, t, ks, i + 1, now);
      assert ks[i..] == [ks[i]] + ks[i + 1..];
    }
  }

  /** A sweep removes every expired entry and nothing a reader sees. */
  lemma SweepMeans(cfg: Config, s: Kv, now: int)
    requires Inv(cfg, s)
    ensures var t := DoSweep(cfg, s, now).0;
      forall q :: View(t, q, now) == View(s, q, now) && (EntryAt(t, q).Some? ==> !Due(EntryAt(t, q).value, now))
  {
    hide Sound, SweepFrom;
    SoundOf(cfg, s);
    var ks := KeysOf(s.core.expiring);
    SweepFromShows(cfg, s, ks, 0, now);
    assert ks[0..] == ks;
    forall q ensures EntryAt(s, q).Some? && EntryAt(s, q).value.expiresAt.Some? ==> q in ks { DatedKey(cfg, s, q); }
  }

  lemma DatedKey(cfg: Config, s: Kv, q: Key)
    requires Inv(cfg, s)
    ensures EntryAt(s, q).Some? && EntryAt(s, q).value.expiresAt.Some? ==> q in KeysOf(s.core.expiring)
  {
    assert Get(s.core.expiring, q) == DeadlineOf(Get(s.core.entries, q));
    GetFind(s.core.expiring, q);
    if Get(s.core.expiring, q).Some? { assert KeysOf(s.core.expiring)[Find(s.core.expiring, q)] == q; }
  }
}
