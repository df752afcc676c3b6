/** The recency order of a cache's entries: which calls move a key to the recently used end, which leave
    the order alone, and what that protects from eviction. */
module CacheOrder {
  import opened ItemLists
  import opened Json
  import opened CacheModel
  import opened CacheInvariant
  import opened CacheContents
  import opened PatchLists

  // ---- reading ----

  /** ts is es with the pair of k taken out of its place and put last. */
  ghost predicate MovedLast(es: Items<Key, Entry>, ts: Items<Key, Entry>, k: Key) {
    exists i :: 0 <= i < |es| && es[i].0 == k && ts == es[..i] + es[i + 1..] + [es[i]]
  }

  /** A get that finds its key moves it to the recently used end, the order of the rest unchanged, and
      counts a hit; it touches no version, no byte, no frame and no change set. */
  lemma GetTouches(cfg: Config, s: Kv, k: Key, now: int)
    requires Inv(cfg, s) && KeyFits(cfg, k) && Live(s, k, now)
    ensures var t := DoGet(cfg, s, k, now).0;
      && MovedLast(s.core.entries, t.core.entries, k)
      && t == s.(core := s.core.(entries := t.core.entries, expiring := t.core.expiring, hits := s.core.hits + 1))
  {
    hide GetFrom, FindFrom, Sound;
    SoundOf(cfg, s);
    var es, t := s.core.entries, DoGet(cfg, s, k, now).0;
    var i, e := Find(es, k), EntryAt(s, k).value;
    GetFind(es, k);
    TouchSteps(cfg, s, k);
    assert es[i] == (k, e) && Remove(es, k) == es[..i] + es[i + 1..];
    assert t.core.entries == es[..i] + es[i + 1..] + [es[i]];
    TouchFields(s, k);
  }

  lemma TouchFields(s: Kv, k: Key)
    requires Has(s.core.entries, k)
    ensures var c := PutEntry(RemoveEntry(s.core, k), k, EntryAt(s, k).value);
      c == s.core.(entries := c.entries, expiring := c.expiring)
  {
  }

  // ---- every single-key call ----

  /** The call used what k shows, or stored it: then k is the most recently used. */
  predicate Uses(cfg: Config, s: Kv, op: Op, now: int, r: Reply)
    requires SingleKey(op)
  {
    match op
    case OpGet(k) => KeyFits(cfg, k) && Live(s, k, now)
    case OpSet(_, _, _) => r.Found?
    case OpSetAt(_, _, _) => r.Found?
    case OpIncr(_, _) => r.Count?
    case OpCas(_, _, _, _) => r == Flag(true)
    case OpExpire(_, _) => r == Flag(true)
    case OpExpireAt(_, _) => r == Flag(true)
    case OpPersist(_) => r == Flag(true)
    case _ => false
  }

  /** A call that uses its key and leaves it there puts it last; if it stores, eviction then takes the
      shortest prefix that must go. Every other call leaves the list alone, or takes its key out. */
  ghost predicate Recency(cfg: Config, s: Kv, op: Op, now: int, t: Kv, r: Reply)
    requires SingleKey(op)
  {
    var es, ts, k := s.core.entries, t.core.entries, op.key;
    if Uses(cfg, s, op, now, r) && EntryAt(t, k).Some? then
      var placed := Remove(es, k) + [(k, EntryAt(t, k).value)];
      ts == if Stores(op) then Shed(cfg, placed) else placed
    else ts == es || (ts == Remove(es, k) && EntryAt(t, k).None?)
  }

  lemma ReadOrder(cfg: Config, s: Kv, op: Op, now: int)
    requires Inv(cfg, s) && (op.OpGet? || op.OpTtl? || op.OpGetVersion? || op.OpDel?)
    ensures var (t, r) := Run(cfg, s, op, now); Recency(cfg, s, op, now, t, r)
  {
    hide Sound, Step, Expire, Discard, GetFrom, PutEntry, RemoveEntry, Clones;
    SoundOf(cfg, s);
    DiscardSteps(cfg, s, op.key);
    ExpireSteps(cfg, s, op.key);
    if Has(s.core.entries, op.key) {
      TouchSteps(cfg, s, op.key);
      TouchShows(cfg, s, op.key);
    }
  }

  lemma StoreOrder(cfg: Config, s: Kv, k: Key, e: Entry, now: int)
    requires Configured(cfg) && Sound(cfg, s.core, s.generation) && !Over(cfg, s.core) && EntryOk(cfg, k, e)
    ensures var t := Evict(cfg, Store(cfg, s, k, e), Some(now));
      t.core.entries == Shed(cfg, Remove(s.core.entries, k) + [(k, e)]) && EntryAt(t, k) == Some(e)
  {
    hide Sound, Step, Store, Evict, EntryOk, Shed, ShortestShed;
    var u := Store(cfg, s, k, e);
    StoreSteps(cfg, s, k, e);
    StepSound(cfg, s, u);
    EvictShortest(cfg, u, Some(now));
    ShedIsShortest(cfg, u.core.entries, Evict(cfg, u, Some(now)).core.entries);
    PlaceShows(cfg, s, k, e, now);
  }

  lemma OwnedOrder(cfg: Config, s: Kv, k: Key, v: Value, at: Option<int>, now: int)
    requires Configured(cfg) && Inv(cfg, s) && (Fits(cfg, k, v) ==> Clones(v, cfg.maxValueBytes))
    ensures var (t, r) := SetOwned(cfg, s, k, v, at, now);
      var e := Entry(v, at, SizeOf(k, v));
      if !r.Found? then t == s
      else if Due(e, now) then t.core.entries == Remove(s.core.entries, k) && EntryAt(t, k).None?
      else t.core.entries == Shed(cfg, Remove(s.core.entries, k) + [(k, e)]) && EntryAt(t, k) == Some(e)
  {
    hide Sound, Step, Store, Evict, Discard, Fits, Shed;
    SoundOf(cfg, s);
    DiscardSteps(cfg, s, k);
    if Fits(cfg, k, v) { StoreOrder(cfg, s, k, Entry(v, at, SizeOf(k, v)), now); }
  }

  lemma WriteOrder(cfg: Config, s: Kv, op: Op, now: int)
    requires Configured(cfg) && Inv(cfg, s) && (op.OpSet? || op.OpSetAt?)
    ensures var (t, r) := Run(cfg, s, op, now); Recency(cfg, s, op, now, t, r)
  {
    hide Inv, SetOwned, Clones, Shed, Deadline, Remove, GetFrom;
    if Clones(op.value, cfg.maxValueBytes) {
      var at := if op.OpSetAt? then Fine(op.expiresAt) else Deadline(cfg, op.key, op.ttl, now);
      if at.Fine? { OwnedOrder(cfg, s, op.key, op.value, at.value, now); }
    }
  }

  /** Settling takes out the key when it is due, and nothing else. */
  lemma SettleOrder(cfg: Config, s: Kv, k: Key, now: int)
    requires Sound(cfg, s.core, s.generation) && !Over(cfg, s.core)
    ensures var t := Settle(cfg, s, k, now);
      && Sound(cfg, t.core, t.generation) && !Over(cfg, t.core)
      && (t.core.entries == s.core.entries || (t.core.entries == Remove(s.core.entries, k) && EntryAt(t, k).None?))
      && Remove(t.core.entries, k) == Remove(s.core.entries, k)
  {
    hide Sound, Step, Expire;
    DueSteps(cfg, s, k, now);
    StepSound(cfg, s, Settle(cfg, s, k, now));
    ExpireSteps(cfg, s, k);
    RemoveAbsent(Settle(cfg, s, k, now).core.entries, k);
  }

  lemma IncrOrder(cfg: Config, s: Kv, op: Op, now: int)
    requires Configured(cfg) && Inv(cfg, s) && op.OpIncr?
    ensures var (t, r) := Run(cfg, s, op, now); Recency(cfg, s, op, now, t, r)
  {
    hide Sound, Settle, Fits, Store, Evict, Shed, Remove, GetFrom;
    SoundOf(cfg, s);
    var k := op.key;
    SettleOrder(cfg, s, k, now);
    var t := Settle(cfg, s, k, now);
    var live := EntryAt(t, k);
    if KeyFits(cfg, k) && (live.None? || live.value.value.Num?) {
      var n := if live.Some? then live.value.value.n + op.delta else op.delta;
      var e := Entry(Num(n), if live.Some? then live.value.expiresAt else None, SizeOf(k, Num(n)));
      if Fits(cfg, k, Num(n)) {
        NumberOk(cfg, k, e);
        StoreOrder(cfg, t, k, e, now);
      }
    }
  }

  lemma CasOrder(cfg: Config, s: Kv, op: Op, now: int)
    requires Configured(cfg) && Inv(cfg, s) && op.OpCas?
    ensures var (t, r) := Run(cfg, s, op, now); Recency(cfg, s, op, now, t, r)
  {
    hide Sound, Settle, Fits, CasTo, Shed, Remove, GetFrom, Clones, Same, Deadline;
    SoundOf(cfg, s);
    var k := op.key;
    SettleOrder(cfg, s, k, now);
    var t := Settle(cfg, s, k, now);
    if Fits(cfg, k, op.value) && Clones(op.value, CLONE_BYTES) {
      var live := EntryAt(t, k);
      var at := if op.ttl.Some? then Deadline(cfg, k, op.ttl, now)
                else if live.Some? then Fine(live.value.expiresAt) else Deadline(cfg, k, None, now);
      CasToOrder(cfg, t, k, op.value, at, now);
    }
  }

  lemma CasToOrder(cfg: Config, s: Kv, k: Key, v: Value, at: Checked<Option<int>>, now: int)
    requires Configured(cfg) && Sound(cfg, s.core, s.generation) && !Over(cfg, s.core)
    requires Fits(cfg, k, v) && Clones(v, CLONE_BYTES)
    ensures var (t, r) := CasTo(cfg, s, k, v, at, now);
      if r != Flag(true) then t == s
      else if EntryAt(t, k).None? then t.core.entries == Remove(s.core.entries, k)
      else t.core.entries == Shed(cfg, Remove(s.core.entries, k) + [(k, EntryAt(t, k).value)])
  {
    hide Sound, Step, Fits, Store, Evict, Discard, Clones, Shed;
    FitsClones(cfg, k, v);
    DiscardSteps(cfg, s, k);
    if at.Fine? { StoreOrder(cfg, s, k, Entry(v, at.value, SizeOf(k, v)), now); }
  }

  lemma RedateOrder(cfg: Config, s: Kv, k: Key, at: Option<int>, now: int)
    requires Inv(cfg, s)
    ensures var (t, r) := Redate(cfg, s, k, at, now);
      if r != Flag(true) then
        t.core.entries == s.core.entries || (t.core.entries == Remove(s.core.entries, k) && EntryAt(t, k).None?)
      else EntryAt(t, k).Some? && t.core.entries == Remove(s.core.entries, k) + [(k, EntryAt(t, k).value)]
  {
    hide Sound, Step, Store, Expire;
    SoundOf(cfg, s);
    ExpireSteps(cfg, s, k);
    if EntryAt(s, k).Some? {
      EntryOkAt(cfg, s, k);
      StoreSteps(cfg, s, k, EntryAt(s, k).value.(expiresAt := at));
    }
  }

  lemma DateOrder(cfg: Config, s: Kv, op: Op, now: int)
    requires Inv(cfg, s) && (op.OpExpire? || op.OpExpireAt? || op.OpPersist?)
    ensures var (t, r) := Run(cfg, s, op, now); Recency(cfg, s, op, now, t, r)
  {
    hide Sound, Step, Redate, Expire, Remove, GetFrom;
    SoundOf(cfg, s);
    ExpireSteps(cfg, s, op.key);
    var at := match op case OpExpire(_, after) => Some(now + after) case OpExpireAt(_, a) => Some(a) case _ => None;
    RedateOrder(cfg, s, op.key, at, now);
  }

  /** Which single-key calls move their key to the recently used end, and that no call reorders anything
      else. */
  lemma SingleKeyRecency(cfg: Config, s: Kv, op: Op, now: int)
    requires Configured(cfg) && Inv(cfg, s) && SingleKey(op)
    ensures var (t, r) := Run(cfg, s, op, now); Recency(cfg, s, op, now, t, r)
  {
    hide Run, Inv, Recency;
    match op
    case OpGet(_) => ReadOrder(cfg, s, op, now);
    case OpTtl(_) => ReadOrder(cfg, s, op, now);
    case OpGetVersion(_) => ReadOrder(cfg, s, op, now);
    case OpDel(_) => ReadOrder(cfg, s, op, now);
    case OpSet(_, _, _) => WriteOrder(cfg, s, op, now);
    case OpSetAt(_, _, _) => WriteOrder(cfg, s, op, now);
    case OpIncr(_, _) => IncrOrder(cfg, s, op, now);
    case OpCas(_, _, _, _) => CasOrder(cfg, s, op, now);
    case _ => DateOrder(cfg, s, op, now);
  }

  // ---- what recency protects ----

  /** k was used last: whatever call on another key comes next, k stays, or nothing else does but the
      other key itself. */
  lemma LastUsedStays(cfg: Config, s: Kv, k: Key, op: Op, now: int)
    requires Configured(cfg) && Inv(cfg, s) && SingleKey(op) && op.key != k
    requires s.core.entries != [] && s.core.entries[|s.core.entries| - 1].0 == k
    ensures var t := Run(cfg, s, op, now).0;
      EntryAt(t, k) == EntryAt(s, k) || forall q :: q != op.key ==> EntryAt(t, q).None?
  {
    hide Run, Shed, Sound, FindFrom;
    var (t, r) := Run(cfg, s, op, now);
    var es, q := s.core.entries, op.key;
    SingleKeyRecency(cfg, s, op, now);
    SoundOf(cfg, s);
    SoundKeys(cfg, s);
    var rest := Remove(es, q);
    GetRemove(es, q, k);
    LastOfRest(es, q);
    GetIs(es, |es| - 1);
    if Uses(cfg, s, op, now, r) && EntryAt(t, q).Some? {
      var e := EntryAt(t, q).value;
      PutLast(rest, q, e, es[|es| - 1]);
      if Stores(op) {
        ShedKeepsLast(cfg, rest, es[|es| - 1], (q, e));
        assert forall x :: EntryAt(t, x) == Get(t.core.entries, x);
      }
    }
  }

  lemma LastOfRest(es: Items<Key, Entry>, q: Key)
    requires es != [] && es[|es| - 1].0 != q
    ensures var rest := Remove(es, q); rest != [] && rest[|rest| - 1] == es[|es| - 1]
    ensures Get(Remove(es, q), q) == None || !DistinctKeys(es)
  {
    if DistinctKeys(es) { GetRemove(es, q, q); }
  }

  lemma PutLast(rest: Items<Key, Entry>, q: Key, e: Entry, last: (Key, Entry))
    requires DistinctKeys(rest) && Get(rest, q) == None && rest != [] && rest[|rest| - 1] == last
    ensures DistinctKeys(rest + [(q, e)]) && Get(rest + [(q, e)], last.0) == Some(last.1)
  {
    GetFind(rest, q);
    assert Put(rest, q, e) == rest + [(q, e)];
    GetPut(rest, q, e, last.0);
    GetIs(rest, |rest| - 1);
  }

  /** Eviction reaches the last key but one only when nothing else is left. */
  lemma ShedKeepsLast(cfg: Config, rest: Items<Key, Entry>, last: (Key, Entry), x: (Key, Entry))
    requires rest != [] && rest[|rest| - 1] == last && DistinctKeys(rest + [x])
    ensures var ts := Shed(cfg, rest + [x]);
      Get(ts, last.0) == Some(last.1) || forall q :: q != x.0 ==> Get(ts, q) == None
  {
    var es := rest + [x];
    ShedSuffix(cfg, es);
    var ts := Shed(cfg, es);
    if |ts| >= 2 {
      assert ts[|ts| - 2] == es[|es| - 2] == last;
      GetIs(ts, |ts| - 2);
    } else {
      forall q | q != x.0 ensures Get(ts, q) == None {
        GetFind(ts, q);
        assert forall i :: 0 <= i < |ts| ==> ts[i] == x;
      }
    }
  }

  /** In particular the key a get has just found. */
  lemma GetProtects(cfg: Config, s: Kv, k: Key, now: int, op: Op, later: int)
    requires Configured(cfg) && Inv(cfg, s) && KeyFits(cfg, k) && Live(s, k, now) && SingleKey(op) && op.key != k
    ensures var t := DoGet(cfg, s, k, now).0;
      var u := Run(cfg, t, op, later).0;
      EntryAt(u, k) == EntryAt(s, k) || forall q :: q != op.key ==> EntryAt(u, q).None?
  {
    hide Run, Inv, DoGet;
    var t := DoGet(cfg, s, k, now).0;
    RunSteps(cfg, s, OpGet(k), now);
    assert Run(cfg, s, OpGet(k), now).0 == t by { GetIsRun(cfg, s, k, now); }
    GetTouches(cfg, s, k, now);
    LastUsedStays(cfg, t, k, op, later);
    assert EntryAt(t, k) == EntryAt(s, k) by { GetKeeps(cfg, s, k, now); }
  }

  lemma GetIsRun(cfg: Config, s: Kv, k: Key, now: int)
    ensures Run(cfg, s, OpGet(k), now) == DoGet(cfg, s, k, now)
  {
  }

  lemma GetKeeps(cfg: Config, s: Kv, k: Key, now: int)
    requires Inv(cfg, s) && KeyFits(cfg, k) && Live(s, k, now)
    ensures EntryAt(DoGet(cfg, s, k, now).0, k) == EntryAt(s, k)
  {
    hide Sound;
    SoundOf(cfg, s);
    TouchShows(cfg, s, k);
  }
}
