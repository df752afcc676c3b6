/** The cache object: three journaled ordered maps and counters updated in place. */
module Cache {
  import opened Decimals
  import opened ItemLists
  import opened OrderedMaps
  import opened Json
  import opened CacheModel

  /** The scalars captureState copies; the maps journal their own. */
  datatype Scalars = Scalars(bytes: int, hits: nat, misses: nat, evictions: nat, expiries: nat, absentEpoch: int)

  datatype AtomicFrame = AtomicFrame(state: Scalars, expiredKeys: seq<Key>)

  ghost function Frames(ms: seq<Shape<Key, Entry>>, es: seq<Shape<Key, int>>, vs: seq<Shape<Key, int>>,
                        fs: seq<AtomicFrame>): (r: seq<Frame>)
    requires |ms| == |es| == |vs| == |fs|
    ensures |r| == |fs|
  {
    seq(|fs|, i requires 0 <= i < |fs| =>
      Frame(Core(ms[i].items, es[i].items, vs[i].items, fs[i].state.bytes, fs[i].state.hits, fs[i].state.misses,
                 fs[i].state.evictions, fs[i].state.expiries, fs[i].state.absentEpoch),
            fs[i].expiredKeys))
  }

  lemma FramesDrop(ms: seq<Shape<Key, Entry>>, es: seq<Shape<Key, int>>, vs: seq<Shape<Key, int>>, fs: seq<AtomicFrame>)
    requires |ms| == |es| == |vs| == |fs| && fs != []
    ensures var n, all := |fs| - 1, Frames(ms, es, vs, fs);
      && |all| == |fs| && Frames(ms[..n], es[..n], vs[..n], fs[..n]) == all[..n]
      && all[n] == Frame(Core(ms[n].items, es[n].items, vs[n].items, fs[n].state.bytes, fs[n].state.hits,
                              fs[n].state.misses, fs[n].state.evictions, fs[n].state.expiries, fs[n].state.absentEpoch),
                         fs[n].expiredKeys)
  {
  }

  /** Committing an inner frame drops it and hands its expiry events to its parent. */
  lemma FramesMerge(ms: seq<Shape<Key, Entry>>, es: seq<Shape<Key, int>>, vs: seq<Shape<Key, int>>,
                    fs: seq<AtomicFrame>, expired: seq<Key>)
    requires |ms| == |es| == |vs| == |fs| && |fs| >= 2
    ensures var n, all := |fs| - 1, Frames(ms, es, vs, fs);
      && |all| == |fs|
      && Frames(ms[..n], es[..n], vs[..n], fs[..n - 1] + [fs[n - 1].(expiredKeys := expired)])
           == all[..n - 1] + [all[n - 1].(expired := expired)]
      && all[n - 1].expired == fs[n - 1].expiredKeys && all[n].expired == fs[n].expiredKeys
  {
  }

  /** The keys still to visit are those of the list from position i on. */
  ghost predicate Suffix(vs: Items<Key, int>, i: nat, ks: seq<Key>, j: nat) {
    && i <= |vs| && j <= |ks| && |ks| - j == |vs| - i
    && forall m :: i <= m < |vs| ==> vs[m].0 == ks[j + m - i]
  }

  lemma PruneStep(vs: Items<Key, int>, entries: Items<Key, Entry>, cap: nat, i: nat, ks: seq<Key>, j: nat)
    requires DistinctKeys(vs) && Suffix(vs, i, ks, j) && j < |ks|
    ensures if Has(entries, ks[j]) then
        && Suffix(vs, i + 1, ks, j + 1)
        && Prune(vs, entries, cap, i) == if |vs| <= cap then vs else Prune(vs, entries, cap, i + 1)
      else
        var rest := Remove(vs, ks[j]);
        && Suffix(rest, i, ks, j + 1) && |rest| == |vs| - 1
        && Prune(vs, entries, cap, i) == if |rest| <= cap then rest else Prune(rest, entries, cap, i)
  {
    assert vs[i].0 == ks[j];
    FindIs(vs, i);
  }

  lemma PruneDone(vs: Items<Key, int>, entries: Items<Key, Entry>, cap: nat)
    ensures Prune(vs, entries, cap, |vs|) == vs
  {
  }

  lemma OldestGoes(cfg: Config, s: Kv, clock: Option<int>)
    requires s.core.entries != []
    ensures |EvictOldest(cfg, s, clock).core.entries| == |s.core.entries| - 1
    ensures EntryAt(s, s.core.entries[0].0) == Some(s.core.entries[0].1)
  {
  }

  /** A patch gathered so far and the rest of it. */
  function Extended(p: Patch, rest: Checked<Patch>): Checked<Patch> {
    match rest
    case Bad => Bad
    case Fine(q) => Fine(Patch(p.entries + q.entries, p.deleted + q.deleted))
  }

  lemma ExtendsNothing(rest: Checked<Patch>)
    ensures Extended(Patch([], []), rest) == rest
  {
    if rest.Fine? {
      assert [] + rest.value.entries == rest.value.entries && [] + rest.value.deleted == rest.value.deleted;
    }
  }

  lemma GatherStep(p: Patch, s: Kv, ks: seq<Key>, i: nat, now: int)
    requires i < |ks|
    ensures Extended(p, Gather(s, ks, i, now)) ==
      match View(s, ks[i], now)
      case None => Extended(p.(deleted := p.deleted + [ks[i]]), Gather(s, ks, i + 1, now))
      case Some(v) =>
        if !Clones(v.0, CLONE_BYTES) then Bad
        else Extended(p.(entries := p.entries + [Write(ks[i], v.0, v.1)]), Gather(s, ks, i + 1, now))
  {
    hide View, Clones;
    var rest := Gather(s, ks, i + 1, now);
    if rest.Fine? {
      var q := rest.value;
      assert p.deleted + ([ks[i]] + q.deleted) == p.deleted + [ks[i]] + q.deleted;
      if View(s, ks[i], now).Some? {
        var w := Write(ks[i], View(s, ks[i], now).value.0, View(s, ks[i], now).value.1);
        assert p.entries + ([w] + q.entries) == p.entries + [w] + q.entries;
      }
    }
  }

  lemma GatherDone(p: Patch, s: Kv, ks: seq<Key>, now: int)
    ensures Extended(p, Gather(s, ks, |ks|, now)) == Fine(p)
  {
    assert p.entries + [] == p.entries && p.deleted + [] == p.deleted;
  }

  lemma EntryListed(es: Items<Key, Entry>, i: nat)
    requires DistinctKeys(es) && i < |es|
    ensures Get(es, es[i].0) == Some(es[i].1)
  {
    GetIs(es, i);
  }

  lemma DumpStep(live: Items<Key, Entry>, es: Items<Key, Entry>, i: nat, now: int)
    requires i < |es|
    ensures live + Unexpired(es[i..], now)
      == (if Due(es[i].1, now) then live else live + [es[i]]) + Unexpired(es[i + 1..], now)
  {
    assert es[i..][0] == es[i] && es[i..][1..] == es[i + 1..];
    var rest := Unexpired(es[i + 1..], now);
    assert live + ([] + rest) == live + rest && live + ([es[i]] + rest) == live + [es[i]] + rest;
  }

  class KVCache {
    const cfg: Config
    const map_: OrderedMap<Key, Entry>
    const expiring: OrderedMap<Key, int>
    const keyVersions: OrderedMap<Key, int>
    var bytes: int
    var hits: nat
    var misses: nat
    var evictions: nat
    var expiries: nat
    var absentEpoch: int
    var generation: int
    var atomicFrames: seq<AtomicFrame>
    var changeFrames: seq<seq<Key>>
    var delivered: seq<Key>

    ghost function Footprint(): set<object>
      reads this, map_, expiring, keyVersions
    {
      {this} + map_.Repr + expiring.Repr + keyVersions.Repr
    }

    ghost predicate Valid()
      reads this, map_, expiring, keyVersions, map_.Repr, expiring.Repr, keyVersions.Repr
      ensures Valid() ==> Aligned()
    {
      && map_.Valid() && expiring.Valid() && keyVersions.Valid()
      && Apart() && Aligned()
    }

    ghost predicate Apart()
      reads this, map_, expiring, keyVersions
    {
      && this !in map_.Repr && this !in expiring.Repr && this !in keyVersions.Repr
      && map_.Repr !! expiring.Repr && map_.Repr !! keyVersions.Repr && expiring.Repr !! keyVersions.Repr
    }

    ghost predicate Aligned()
      reads this, map_, expiring, keyVersions
    {
      |map_.saved| == |atomicFrames| && |expiring.saved| == |atomicFrames| && |keyVersions.saved| == |atomicFrames|
    }

    /** The value the object denotes. */
    ghost function State(): Kv
      requires Aligned()
      reads this, map_, expiring, keyVersions
    {
      Kv(Core(map_.cur.items, expiring.cur.items, keyVersions.cur.items,
              bytes, hits, misses, evictions, expiries, absentEpoch),
         generation, Frames(map_.saved, expiring.saved, keyVersions.saved, atomicFrames), changeFrames, delivered)
    }

    constructor (cfg: Config)
      ensures Valid() && fresh(Footprint()) && this.cfg == cfg && State() == EMPTY
    {
      hide OrderedMap.Valid;
      this.cfg := cfg;
      var m := new OrderedMap<Key, Entry>();
      var e := new OrderedMap<Key, int>();
      var v := new OrderedMap<Key, int>();
      map_, expiring, keyVersions := m, e, v;
      bytes, hits, misses, evictions, expiries, absentEpoch, generation := 0, 0, 0, 0, 0, 0, 0;
      atomicFrames, changeFrames, delivered := [], [], [];
    }

    /** map.set with its change callback. */
    method SetEntry(k: Key, e: Entry)
      requires Valid()
      modifies map_.Repr, expiring.Repr
      ensures Valid() && fresh(Footprint() - old(Footprint()))
      ensures State() == old(State()).(core := PutEntry(old(State()).core, k, e))
    {
      hide OrderedMap.Valid, Put, Remove;
      map_.Set(k, e);
      if e.expiresAt.None? {
        var found := expiring.Delete(k);
      } else {
        expiring.Set(k, e.expiresAt.value);
      }
    }

    method DeleteEntry(k: Key)
      requires Valid()
      modifies map_.Repr, expiring.Repr
      ensures Valid() && fresh(Footprint() - old(Footprint()))
      ensures State() == old(State()).(core := RemoveEntry(old(State()).core, k))
    {
      hide OrderedMap.Valid, Put, Remove;
      RemoveAbsent(map_.cur.items, k);
      var found := map_.Delete(k);
      if found {
        var had := expiring.Delete(k);
      }
    }

    method Bump(k: Key)
      requires Valid()
      modifies this`generation, this`absentEpoch, this`changeFrames, keyVersions.Repr
      ensures Valid() && fresh(Footprint() - old(Footprint()))
      ensures State() == CacheModel.Bump(cfg, old(State()), k)
    {
      hide OrderedMap.Valid, Put, Remove;
      Advance(k);
      var n := keyVersions.Size();
      if n > cfg.maxEntries * 2 + 1024 {
        PruneTombstones();
      }
    }

    method Advance(k: Key)
      requires Valid()
      modifies this`generation, this`changeFrames, keyVersions.Repr
      ensures Valid() && fresh(Footprint() - old(Footprint()))
      ensures var s := old(State());
        State() == s.(generation := s.generation + 1,
                      core := s.core.(versions := Put(s.core.versions, k, s.generation + 1)),
                      changes := seq(|s.changes|, i requires 0 <= i < |s.changes| => Adjoin(s.changes[i], k)))
    {
      hide OrderedMap.Valid, Put;
      generation := generation + 1;
      keyVersions.Set(k, generation);
      var cs := changeFrames;
      changeFrames := seq(|cs|, i requires 0 <= i < |cs| => Adjoin(cs[i], k));
    }

    method PruneTombstones()
      requires Valid()
      modifies this`absentEpoch, keyVersions.Repr
      ensures Valid() && fresh(Footprint() - old(Footprint()))
      ensures keyVersions.cur.items == Prune(old(keyVersions.cur.items), map_.cur.items, cfg.maxEntries + 512, 0)
      ensures keyVersions.saved == old(keyVersions.saved)
      ensures absentEpoch ==
        if |keyVersions.cur.items| < |old(keyVersions.cur.items)| then generation else old(absentEpoch)
    {
      hide OrderedMap.Valid, Remove, Prune;
      var cap := cfg.maxEntries + 512;
      ghost var vs, entries := keyVersions.cur.items, map_.cur.items;
      var ks := keyVersions.Keys();
      var j := 0;
      ghost var i := 0;
      while j < |ks|
        invariant j <= |ks| && Suffix(keyVersions.cur.items, i, ks, j) && Valid()
        invariant keyVersions.saved == old(keyVersions.saved) && fresh(keyVersions.Repr - old(keyVersions.Repr))
        invariant Prune(vs, entries, cap, 0) == Prune(keyVersions.cur.items, entries, cap, i)
        invariant |keyVersions.cur.items| <= |vs|
        invariant absentEpoch == if |keyVersions.cur.items| < |vs| then generation else old(absentEpoch)
      {
        keyVersions.ValidDistinct();
        PruneStep(keyVersions.cur.items, entries, cap, i, ks, j);
        var live := DropTombstone(ks[j]);
        if live {
          i := i + 1;
        }
        var n := keyVersions.Size();
        if n <= cap {
          return;
        }
        j := j + 1;
      }
      PruneDone(keyVersions.cur.items, entries, cap);
    }

    /** Forget a version no entry stands for; absent keys then read a newer epoch. */
    method DropTombstone(k: Key) returns (live: bool)
      requires Valid()
      modifies this`absentEpoch, keyVersions.Repr
      ensures Valid() && fresh(keyVersions.Repr - old(keyVersions.Repr)) && keyVersions.saved == old(keyVersions.saved)
      ensures live == Has(map_.cur.items, k)
      ensures keyVersions.cur.items ==
        if live then old(keyVersions.cur.items) else Remove(old(keyVersions.cur.items), k)
      ensures absentEpoch == if live then old(absentEpoch) else generation
    {
      hide OrderedMap.Valid, Remove;
      live := map_.Contains(k);
      if !live {
        absentEpoch := generation;
        var found := keyVersions.Delete(k);
      }
    }

    /** An expiry event waits in the innermost frame, or goes to the listener. */
    method NotifyExpired(k: Key)
      requires Valid()
      modifies this`atomicFrames, this`delivered
      ensures Valid()
      ensures State() == Notify(old(State()), k)
    {
      hide OrderedMap.Valid;
      if |atomicFrames| > 0 {
        var n := |atomicFrames| - 1;
        var f := atomicFrames[n];
        if k !in f.expiredKeys {
          atomicFrames := atomicFrames[..n] + [f.(expiredKeys := f.expiredKeys + [k])];
        }
      } else {
        delivered := delivered + [k];
      }
    }

    method Peek(k: Key) returns (e: Option<Entry>)
      requires Valid()
      ensures e == EntryAt(State(), k)
    {
      hide OrderedMap.Valid;
      e := map_.Lookup(k);
    }

    method Tally(hit: nat, miss: nat, eviction: nat, expiry: nat)
      requires Valid()
      modifies Footprint()
      ensures Valid() && fresh(Footprint() - old(Footprint()))
      ensures var c := old(State()).core;
        State() == old(State()).(core := c.(hits := c.hits + hit, misses := c.misses + miss,
                                            evictions := c.evictions + eviction, expiries := c.expiries + expiry))
    {
      hide OrderedMap.Valid;
      hits, misses := hits + hit, misses + miss;
      evictions, expiries := evictions + eviction, expiries + expiry;
    }

    method Discard(k: Key)
      requires Valid()
      modifies Footprint()
      ensures Valid() && fresh(Footprint() - old(Footprint()))
      ensures State() == CacheModel.Discard(cfg, old(State()), k)
    {
      hide OrderedMap.Valid, RemoveEntry, CacheModel.Bump;
      var e := Peek(k);
      if e.Some? {
        DeleteEntry(k);
        bytes := bytes - e.value.size;
        Bump(k);
      }
    }

    method RemoveExpired(k: Key)
      requires Valid()
      modifies Footprint()
      ensures Valid() && fresh(Footprint() - old(Footprint()))
      ensures State() == CacheModel.Expire(cfg, old(State()), k)
    {
      hide OrderedMap.Valid, CacheModel.Discard, Notify;
      Discard(k);
      expiries := expiries + 1;
      NotifyExpired(k);
    }

    method StoreEntry(k: Key, e: Entry)
      requires Valid()
      modifies Footprint()
      ensures Valid() && fresh(Footprint() - old(Footprint()))
      ensures State() == Store(cfg, old(State()), k, e)
    {
      hide OrderedMap.Valid, PutEntry, RemoveEntry, CacheModel.Bump;
      var was := Peek(k);
      Touch(k, e);
      bytes := bytes - (if was.Some? then was.value.size else 0) + e.size;
      Bump(k);
    }

    method EvictIfNeeded(clock: Option<int>)
      requires Valid()
      modifies Footprint()
      ensures Valid() && fresh(Footprint() - old(Footprint()))
      ensures State() == Evict(cfg, old(State()), clock)
    {
      hide OrderedMap.Valid, CacheModel.Bump, CacheModel.Expire, RemoveEntry;
      while true
        invariant Valid() && fresh(Footprint() - old(Footprint()))
        invariant Evict(cfg, State(), clock) == Evict(cfg, old(State()), clock)
        decreases |State().core.entries|
      {
        var n := map_.Size();
        if !((n > cfg.maxEntries || bytes > cfg.maxBytes) && n > 0) {
          return;
        }
        EvictOne(clock);
      }
    }

    method EvictOne(clock: Option<int>)
      requires Valid() && State().core.entries != []
      modifies Footprint()
      ensures Valid() && fresh(Footprint() - old(Footprint()))
      ensures State() == EvictOldest(cfg, old(State()), clock) && |State().core.entries| < |old(State()).core.entries|
    {
      hide OrderedMap.Valid, CacheModel.Bump, RemoveEntry, CacheModel.Expire;
      OldestGoes(cfg, State(), clock);
      var k := map_.First();
      var e := Peek(k.value);
      if clock.Some? && Due(e.value, clock.value) {
        RemoveExpired(k.value);
      } else {
        EvictKey(k.value, e.value);
      }
    }

    method EvictKey(k: Key, e: Entry)
      requires Valid()
      modifies Footprint()
      ensures Valid() && fresh(Footprint() - old(Footprint()))
      ensures var s := old(State());
        State() == CacheModel.Bump(cfg, s.(core := RemoveEntry(s.core, k).(bytes := s.core.bytes - e.size,
                                                                          evictions := s.core.evictions + 1)), k)
    {
      hide OrderedMap.Valid, CacheModel.Bump, RemoveEntry;
      DeleteEntry(k);
      bytes := bytes - e.size;
      evictions := evictions + 1;
      Bump(k);
    }

    // ---- public operations ----

    /** Re-insert as most recently used. */
    method Touch(k: Key, e: Entry)
      requires Valid()
      modifies map_.Repr, expiring.Repr
      ensures Valid() && fresh(Footprint() - old(Footprint()))
      ensures State() == old(State()).(core := PutEntry(RemoveEntry(old(State()).core, k), k, e))
    {
      hide OrderedMap.Valid, PutEntry, RemoveEntry;
      DeleteEntry(k);
      SetEntry(k, e);
    }

    method Get(k: Key, now: int) returns (r: Reply)
      requires Valid()
      modifies Footprint()
      ensures Valid() && fresh(Footprint() - old(Footprint()))
      ensures (State(), r) == DoGet(cfg, old(State()), k, now)
    {
      hide OrderedMap.Valid, Valid, State, CacheModel.Expire, PutEntry, RemoveEntry;
      if !KeyFits(cfg, k) {
        return Threw;
      }
      var e := Peek(k);
      if e.None? {
        Tally(0, 1, 0, 0);
        return Nothing;
      }
      if Due(e.value, now) {
        RemoveExpired(k);
        Tally(0, 1, 0, 0);
        return Nothing;
      }
      Touch(k, e.value);
      Tally(1, 0, 0, 0);
      r := if Clones(e.value.value, CLONE_BYTES) then Found(e.value.value) else Threw;
    }

    method StoreOwned(k: Key, v: Value, at: Option<int>, now: int) returns (r: Reply)
      requires Valid()
      modifies Footprint()
      ensures Valid() && fresh(Footprint() - old(Footprint()))
      ensures (State(), r) == SetOwned(cfg, old(State()), k, v, at, now)
    {
      hide OrderedMap.Valid, CacheModel.Discard, Store, Evict, PutEntry, RemoveEntry;
      if !Fits(cfg, k, v) {
        return Threw;
      }
      r := Found(v);
      if at.Some? && at.value <= now {
        Discard(k);
        expiries := expiries + 1;
        misses := misses + 1;
      } else {
        Place(k, Entry(v, at, SizeOf(k, v)), now);
      }
    }

    /** Store, then evict what no longer fits. */
    method Place(k: Key, e: Entry, now: int)
      requires Valid()
      modifies Footprint()
      ensures Valid() && fresh(Footprint() - old(Footprint()))
      ensures State() == Evict(cfg, Store(cfg, old(State()), k, e), Some(now))
    {
      hide OrderedMap.Valid, KVCache.State, Store, Evict;
      StoreEntry(k, e);
      EvictIfNeeded(Some(now));
    }

    method Set(k: Key, v: Value, ttl: Option<int>, now: int) returns (r: Reply)
      requires Valid()
      modifies Footprint()
      ensures Valid() && fresh(Footprint() - old(Footprint()))
      ensures (State(), r) == DoSet(cfg, old(State()), k, v, ttl, now)
    {
      hide OrderedMap.Valid, SetOwned, Deadline;
      if !KeyFits(cfg, k) || !Clones(v, cfg.maxValueBytes) {
        return Threw;
      }
      match Deadline(cfg, k, ttl, now)
      case Bad => return Threw;
      case Fine(at) => r := StoreOwned(k, v, at, now);
    }

    method SetAt(k: Key, v: Value, at: Option<int>, now: int) returns (r: Reply)
      requires Valid()
      modifies Footprint()
      ensures Valid() && fresh(Footprint() - old(Footprint()))
      ensures (State(), r) == DoSetAt(cfg, old(State()), k, v, at, now)
    {
      hide OrderedMap.Valid, SetOwned;
      if !KeyFits(cfg, k) || !Clones(v, cfg.maxValueBytes) {
        return Threw;
      }
      r := StoreOwned(k, v, at, now);
    }

    method MSet(bs: seq<Batch>, now: int) returns (r: Reply)
      requires Valid()
      modifies Footprint()
      ensures Valid() && fresh(Footprint() - old(Footprint()))
      ensures (State(), r) == DoMSet(cfg, old(State()), bs, now)
    {
      hide OrderedMap.Valid, SetOwned, Deadline, Fits, Clones;
      var i := 0;
      while i < |bs|
        invariant i <= |bs| && forall j :: 0 <= j < i ==> BatchFits(cfg, bs[j], now)
      {
        if !BatchFits(cfg, bs[i], now) {
          return Threw;
        }
        i := i + 1;
      }
      i := 0;
      while i < |bs|
        invariant i <= |bs| && Valid() && fresh(Footprint() - old(Footprint()))
        invariant MSetFrom(cfg, State(), bs, i, now) == MSetFrom(cfg, old(State()), bs, 0, now)
      {
        assert BatchFits(cfg, bs[i], now);
        var ignored := StoreOwned(bs[i].key, bs[i].value, Deadline(cfg, bs[i].key, bs[i].ttl, now).value, now);
        i := i + 1;
      }
      r := Count(|bs|);
    }

    method Del(k: Key, now: int) returns (r: Reply)
      requires Valid()
      modifies Footprint()
      ensures Valid() && fresh(Footprint() - old(Footprint()))
      ensures (State(), r) == DoDel(cfg, old(State()), k, now)
    {
      hide OrderedMap.Valid, CacheModel.Expire, CacheModel.Discard;
      if !KeyFits(cfg, k) {
        return Threw;
      }
      var e := Peek(k);
      if e.None? {
        return Flag(false);
      }
      if Due(e.value, now) {
        RemoveExpired(k);
        return Flag(false);
      }
      Discard(k);
      r := Flag(true);
    }

    method ClearPrefix(prefix: Str) returns (r: Reply)
      requires Valid()
      modifies Footprint()
      ensures Valid() && fresh(Footprint() - old(Footprint()))
      ensures (State(), r) == DoClearPrefix(cfg, old(State()), prefix)
    {
      hide OrderedMap.Valid, CacheModel.Discard;
      if !KeyFits(cfg, prefix) {
        return Threw;
      }
      var ks := map_.Keys();
      assert ks == KeysOf(State().core.entries);
      var i, count := 0, 0;
      while i < |ks|
        invariant i <= |ks| && Valid() && fresh(Footprint() - old(Footprint()))
        invariant ClearFrom(cfg, State(), ks, i, prefix) == ClearFrom(cfg, old(State()), ks, 0, prefix)
        invariant count + Matching(ks, prefix, i) == Matching(ks, prefix, 0)
      {
        if InNamespace(ks[i], prefix) {
          Discard(ks[i]);
          count := count + 1;
        }
        i := i + 1;
      }
      r := Count(count);
    }

    /** Every key gets a new version while still present; then all entries go. */
    method Clear()
      requires Valid()
      modifies Footprint()
      ensures Valid() && fresh(Footprint() - old(Footprint()))
      ensures State() == DoClear(cfg, old(State()))
    {
      hide OrderedMap.Valid, CacheModel.Bump, RemoveEntry;
      var ks := map_.Keys();
      assert ks == KeysOf(State().core.entries);
      BumpAll(ks);
      DropAll(ks);
      bytes := 0;
    }

    method BumpAll(ks: seq<Key>)
      requires Valid()
      modifies Footprint()
      ensures Valid() && fresh(Footprint() - old(Footprint()))
      ensures State() == BumpFrom(cfg, old(State()), ks, 0)
    {
      hide OrderedMap.Valid, CacheModel.Bump, Valid, State;
      var i := 0;
      while i < |ks|
        invariant i <= |ks| && Valid() && fresh(Footprint() - old(Footprint()))
        invariant BumpFrom(cfg, State(), ks, i) == BumpFrom(cfg, old(State()), ks, 0)
      {
        Bump(ks[i]);
        i := i + 1;
      }
    }

    method DropAll(ks: seq<Key>)
      requires Valid()
      modifies Footprint()
      ensures Valid() && fresh(Footprint() - old(Footprint()))
      ensures State() == old(State()).(core := RemoveFrom(old(State()).core, ks, 0))
    {
      hide OrderedMap.Valid, RemoveEntry, Valid, State;
      ghost var t := State();
      var i := 0;
      while i < |ks|
        invariant i <= |ks| && Valid() && fresh(Footprint() - old(Footprint()))
        invariant RemoveFrom(State().core, ks, i) == RemoveFrom(t.core, ks, 0)
        invariant State() == t.(core := State().core)
      {
        DeleteEntry(ks[i]);
        i := i + 1;
      }
    }

    method SettleKey(k: Key, now: int) returns (live: Option<Entry>)
      requires Valid()
      modifies Footprint()
      ensures Valid() && fresh(Footprint() - old(Footprint()))
      ensures State() == Settle(cfg, old(State()), k, now) && live == EntryAt(State(), k)
    {
      hide OrderedMap.Valid, CacheModel.Expire;
      live := Peek(k);
      if live.Some? && Due(live.value, now) {
        RemoveExpired(k);
        live := Peek(k);
      }
    }

    /** The clock is read before the counter and again before the old entry is dropped; the
        in-place write is what happens when the entry expires in between. */
    method Incr(k: Key, delta: int, now: int, again: int) returns (r: Reply)
      requires Valid()
      modifies Footprint()
      ensures Valid() && fresh(Footprint() - old(Footprint()))
      ensures (State(), r) == IncrTwice(cfg, old(State()), k, delta, now, again)
    {
      hide OrderedMap.Valid, Valid, State, Settle, Store, Evict, CacheModel.Overwrite;
      if !KeyFits(cfg, k) {
        return Threw;
      }
      var live := SettleKey(k, now);
      var base, at := 0, None;
      if live.Some? {
        if !live.value.value.Num? {
          return Threw;
        }
        base, at := live.value.value.n, live.value.expiresAt;
      }
      var next := base + delta;
      if !Fits(cfg, k, Num(next)) {
        return Threw;
      }
      var e := Entry(Num(next), at, SizeOf(k, Num(next)));
      if live.Some? && Due(live.value, again) {
        Overwrite(k, e);
      } else {
        StoreEntry(k, e);
      }
      EvictIfNeeded(Some(again));
      r := Count(next);
    }

    /** map.set without dropping the old entry first: it keeps its place, and its bytes stay counted. */
    method Overwrite(k: Key, e: Entry)
      requires Valid()
      modifies Footprint()
      ensures Valid() && fresh(Footprint() - old(Footprint()))
      ensures State() == CacheModel.Overwrite(cfg, old(State()), k, e)
    {
      hide OrderedMap.Valid, CacheModel.Bump, PutEntry;
      SetEntry(k, e);
      bytes := bytes + e.size;
      Bump(k);
    }

    /** One reading serves for both. */
    method IncrOnce(k: Key, delta: int, now: int) returns (r: Reply)
      requires Valid()
      modifies Footprint()
      ensures Valid() && fresh(Footprint() - old(Footprint()))
      ensures (State(), r) == DoIncr(cfg, old(State()), k, delta, now)
    {
      hide OrderedMap.Valid, IncrTwice, DoIncr;
      map_.ValidDistinct();
      OneReading(cfg, State(), k, delta, now);
      r := Incr(k, delta, now, now);
    }

    method Cas(k: Key, expected: Option<Value>, v: Value, ttl: Option<int>, now: int) returns (r: Reply)
      requires Valid()
      modifies Footprint()
      ensures Valid() && fresh(Footprint() - old(Footprint()))
      ensures (State(), r) == DoCas(cfg, old(State()), k, expected, v, ttl, now)
    {
      hide OrderedMap.Valid, Valid, State, Settle, CasTo, Clones, Deadline;
      if !KeyFits(cfg, k) || (expected.Some? && !Clones(expected.value, CLONE_BYTES))
        || !Clones(v, CLONE_BYTES) || !Fits(cfg, k, v) {
        return Threw;
      }
      var live := SettleKey(k, now);
      var equal := match (live, expected)
        case (Some(e), Some(x)) => Same(e.value, x)
        case (None, None) => true
        case _ => false;
      if !equal {
        return Flag(false);
      }
      var deadline := if ttl.Some? then Deadline(cfg, k, ttl, now)
                      else if live.Some? then Fine(live.value.expiresAt) else Deadline(cfg, k, None, now);
      r := Swap(k, v, deadline, now);
    }

    method Swap(k: Key, v: Value, deadline: Checked<Option<int>>, now: int) returns (r: Reply)
      requires Valid() && Fits(cfg, k, v)
      modifies Footprint()
      ensures Valid() && fresh(Footprint() - old(Footprint()))
      ensures (State(), r) == CasTo(cfg, old(State()), k, v, deadline, now)
    {
      hide OrderedMap.Valid, CacheModel.Discard, Store, Evict, Fits;
      match deadline
      case Bad => return Threw;
      case Fine(at) =>
        r := Flag(true);
        if at.Some? && at.value <= now {
          Discard(k);
          expiries := expiries + 1;
        } else {
          Place(k, Entry(v, at, SizeOf(k, v)), now);
        }
    }

    method Restore(ws: seq<Write>, now: int) returns (r: Reply)
      requires Valid()
      modifies Footprint()
      ensures Valid() && fresh(Footprint() - old(Footprint()))
      ensures (State(), r) == DoRestore(cfg, old(State()), ws, now)
    {
      hide OrderedMap.Valid, Store, Evict, WriteFits;
      var i := 0;
      var seen: set<Key> := {};
      while i < |ws|
        invariant i <= |ws| && seen == set j | 0 <= j < i :: ws[j].key
        invariant forall j :: 0 <= j < i ==> WriteFits(cfg, ws[j])
        invariant forall j, l :: 0 <= j < l < i ==> ws[j].key != ws[l].key
      {
        if ws[i].key in seen || !WriteFits(cfg, ws[i]) {
          return Threw;
        }
        seen := seen + {ws[i].key};
        i := i + 1;
      }
      i := 0;
      var count := 0;
      while i < |ws|
        invariant i <= |ws| && Valid() && fresh(Footprint() - old(Footprint()))
        invariant RestoreFrom(cfg, State(), ws, i, now) == RestoreFrom(cfg, old(State()), ws, 0, now)
        invariant count + LiveWrites(ws, i, now) == LiveWrites(ws, 0, now)
      {
        var w := ws[i];
        if !(w.expiresAt.Some? && w.expiresAt.value <= now) {
          StoreEntry(w.key, Entry(w.value, w.expiresAt, SizeOf(w.key, w.value)));
          count := count + 1;
        }
        i := i + 1;
      }
      EvictIfNeeded(None);
      r := Count(count);
    }

    method SetDeadline(k: Key, at: Option<int>, now: int) returns (r: Reply)
      requires Valid()
      modifies Footprint()
      ensures Valid() && fresh(Footprint() - old(Footprint()))
      ensures (State(), r) == Redate(cfg, old(State()), k, at, now)
    {
      hide OrderedMap.Valid, CacheModel.Expire, Store;
      var e := Peek(k);
      if e.None? {
        return Flag(false);
      }
      if Due(e.value, now) {
        RemoveExpired(k);
        return Flag(false);
      }
      StoreEntry(k, e.value.(expiresAt := at));
      r := Flag(true);
    }

    method Expire(k: Key, after: int, now: int) returns (r: Reply)
      requires Valid()
      modifies Footprint()
      ensures Valid() && fresh(Footprint() - old(Footprint()))
      ensures (State(), r) == DoExpire(cfg, old(State()), k, after, now)
    {
      hide OrderedMap.Valid, Redate;
      if !KeyFits(cfg, k) || CheckTtl(after, now).Bad? {
        return Threw;
      }
      r := SetDeadline(k, Some(now + after), now);
    }

    method ExpireAt(k: Key, at: int, now: int) returns (r: Reply)
      requires Valid()
      modifies Footprint()
      ensures Valid() && fresh(Footprint() - old(Footprint()))
      ensures (State(), r) == DoExpireAt(cfg, old(State()), k, at, now)
    {
      hide OrderedMap.Valid, CacheModel.Expire, Redate;
      if !KeyFits(cfg, k) {
        return Threw;
      }
      var e := Peek(k);
      if e.None? {
        return Flag(false);
      }
      if !Due(e.value, now) && at <= now {
        RemoveExpired(k);
        return Flag(true);
      }
      r := SetDeadline(k, Some(at), now);
    }

    method Persist(k: Key, now: int) returns (r: Reply)
      requires Valid()
      modifies Footprint()
      ensures Valid() && fresh(Footprint() - old(Footprint()))
      ensures (State(), r) == DoPersist(cfg, old(State()), k, now)
    {
      hide OrderedMap.Valid, Redate;
      if !KeyFits(cfg, k) {
        return Threw;
      }
      r := SetDeadline(k, None, now);
    }

    method Sweep(now: int) returns (r: Reply)
      requires Valid()
      modifies Footprint()
      ensures Valid() && fresh(Footprint() - old(Footprint()))
      ensures (State(), r) == DoSweep(cfg, old(State()), now)
    {
      hide OrderedMap.Valid, CacheModel.Expire;
      var ks := expiring.Keys();
      assert ks == KeysOf(State().core.expiring);
      var count := SweepKeys(ks, now);
      r := Count(count);
    }

    method SweepKeys(ks: seq<Key>, now: int) returns (count: nat)
      requires Valid()
      modifies Footprint()
      ensures Valid() && fresh(Footprint() - old(Footprint()))
      ensures (State(), count) == SweepFrom(cfg, old(State()), ks, 0, now)
    {
      hide OrderedMap.Valid, Valid, State, CacheModel.Expire;
      count := 0;
      var i := 0;
      while i < |ks|
        invariant i <= |ks| && Valid() && fresh(Footprint() - old(Footprint()))
        invariant SweepFrom(cfg, State(), ks, i, now).0 == SweepFrom(cfg, old(State()), ks, 0, now).0
        invariant count + SweepFrom(cfg, State(), ks, i, now).1 == SweepFrom(cfg, old(State()), ks, 0, now).1
      {
        var e := Peek(ks[i]);
        if e.Some? && Due(e.value, now) {
          RemoveExpired(ks[i]);
          count := count + 1;
        }
        i := i + 1;
      }
    }

    method Ttl(k: Key, now: int) returns (r: Reply)
      requires Valid()
      modifies Footprint()
      ensures Valid() && fresh(Footprint() - old(Footprint()))
      ensures (State(), r) == DoTtl(cfg, old(State()), k, now)
    {
      hide OrderedMap.Valid, CacheModel.Expire;
      if !KeyFits(cfg, k) {
        return Threw;
      }
      var e := Peek(k);
      if e.None? {
        misses := misses + 1;
        return Count(-2);
      }
      if Due(e.value, now) {
        RemoveExpired(k);
        misses := misses + 1;
        return Count(-2);
      }
      r := if e.value.expiresAt.None? then Persists else Count(Max(0, e.value.expiresAt.value - now));
    }

    method GetVersion(k: Key, now: int) returns (r: Reply)
      requires Valid()
      modifies Footprint()
      ensures Valid() && fresh(Footprint() - old(Footprint()))
      ensures (State(), r) == DoGetVersion(cfg, old(State()), k, now)
    {
      hide OrderedMap.Valid, Settle;
      if !KeyFits(cfg, k) {
        return Threw;
      }
      var live := SettleKey(k, now);
      var g := keyVersions.Lookup(k);
      r := Count(if g.Some? then g.value else absentEpoch);
    }

    // ---- atomic frames ----

    method BeginFrame()
      requires Valid()
      modifies Footprint()
      ensures Valid() && fresh(Footprint() - old(Footprint()))
      ensures State() == CacheModel.Begin(old(State()))
    {
      hide OrderedMap.Valid;
      map_.Begin();
      keyVersions.Begin();
      expiring.Begin();
      atomicFrames := atomicFrames + [AtomicFrame(Scalars(bytes, hits, misses, evictions, expiries, absentEpoch), [])];
    }

    method HasFrame() returns (open: bool)
      requires Valid()
      ensures open == (State().frames != [])
    {
      open := |atomicFrames| > 0;
    }

    method CommitFrame()
      requires Valid() && State().frames != []
      modifies Footprint()
      ensures Valid() && fresh(Footprint() - old(Footprint()))
      ensures State() == CacheModel.Commit(old(State()))
    {
      hide OrderedMap.Valid, Frames;
      FramesDrop(map_.saved, expiring.saved, keyVersions.saved, atomicFrames);
      var n := |atomicFrames| - 1;
      CommitMaps();
      if n == 0 {
        delivered := delivered + atomicFrames[n].expiredKeys;
        atomicFrames := [];
      } else {
        var parent := atomicFrames[n - 1];
        var merged := Merge(parent.expiredKeys, atomicFrames[n].expiredKeys, 0);
        FramesMerge(old(map_.saved), old(expiring.saved), old(keyVersions.saved), atomicFrames, merged);
        atomicFrames := atomicFrames[..n - 1] + [parent.(expiredKeys := merged)];
      }
    }

    /** The three maps keep what they hold and drop one frame each. */
    method CommitMaps()
      requires Valid() && |atomicFrames| > 0
      modifies map_.Repr, expiring.Repr, keyVersions.Repr
      ensures map_.Valid() && expiring.Valid() && keyVersions.Valid() && Apart()
      ensures fresh(Footprint() - old(Footprint()))
      ensures var n := |atomicFrames| - 1;
        && map_.saved == old(map_.saved)[..n] && map_.cur == old(map_.cur)
        && expiring.saved == old(expiring.saved)[..n] && expiring.cur == old(expiring.cur)
        && keyVersions.saved == old(keyVersions.saved)[..n] && keyVersions.cur == old(keyVersions.cur)
    {
      hide OrderedMap.Valid;
      var ok := map_.Commit();
      ok := keyVersions.Commit();
      ok := expiring.Commit();
    }

    method RollbackFrame()
      requires Valid() && State().frames != []
      modifies Footprint()
      ensures Valid() && fresh(Footprint() - old(Footprint()))
      ensures State() == CacheModel.Rollback(old(State()))
    {
      hide OrderedMap.Valid, Frames;
      FramesDrop(map_.saved, expiring.saved, keyVersions.saved, atomicFrames);
      var n := |atomicFrames| - 1;
      var state := atomicFrames[n].state;
      RollbackMaps();
      RestoreScalars(state);
    }

    method RestoreScalars(state: Scalars)
      requires Valid()
      modifies this`bytes, this`hits, this`misses, this`evictions, this`expiries, this`absentEpoch
      ensures Valid()
      ensures Scalars(bytes, hits, misses, evictions, expiries, absentEpoch) == state
    {
      hide OrderedMap.Valid;
      bytes, hits, misses := state.bytes, state.hits, state.misses;
      evictions, expiries, absentEpoch := state.evictions, state.expiries, state.absentEpoch;
    }

    method RollbackMaps()
      requires Valid() && |atomicFrames| > 0
      modifies this`atomicFrames, map_.Repr, expiring.Repr, keyVersions.Repr
      ensures Valid() && fresh(Footprint() - old(Footprint()))
      ensures var n := |old(atomicFrames)| - 1;
        && atomicFrames == old(atomicFrames)[..n]
        && map_.saved == old(map_.saved)[..n] && map_.cur == old(map_.saved)[n]
        && expiring.saved == old(expiring.saved)[..n] && expiring.cur == old(expiring.saved)[n]
        && keyVersions.saved == old(keyVersions.saved)[..n] && keyVersions.cur == old(keyVersions.saved)[n]
    {
      hide OrderedMap.Valid;
      atomicFrames := atomicFrames[..|atomicFrames| - 1];
      var ok := map_.Rollback();
      ok := keyVersions.Rollback();
      ok := expiring.Rollback();
    }

    /** Live entries in LRU order; the cache stays as it is. */
    method Dump(now: int) returns (r: Checked<seq<Write>>)
      requires Valid()
      ensures r == DoDump(State(), now)
    {
      hide OrderedMap.Valid, Clones, DistinctKeys, ItemLists.Get;
      var ks := map_.Keys();
      map_.ValidDistinct();
      ghost var es := State().core.entries;
      ghost var live: Items<Key, Entry> := [];
      var out: seq<Write> := [];
      var i := 0;
      while i < |ks|
        invariant i <= |ks| == |es| && out == WritesOf(live)
        invariant Unexpired(es, now) == live + Unexpired(es[i..], now)
        invariant forall j :: 0 <= j < |live| ==> Clones(live[j].1.value, CLONE_BYTES)
      {
        var e := Peek(ks[i]);
        EntryListed(es, i);
        DumpStep(live, es, i, now);
        if !Due(e.value, now) {
          if !Clones(e.value.value, CLONE_BYTES) {
            assert Unexpired(es, now)[|live|] == es[i];
            return Bad;
          }
          out := out + [Write(ks[i], e.value.value, e.value.expiresAt)];
          live := live + [es[i]];
        }
        i := i + 1;
      }
      assert live + Unexpired(es[|es|..], now) == live;
      r := Fine(out);
    }

    /** atomic(clear, restore): all of it or, if a write is refused, nothing. */
    method Replace(ws: seq<Write>, now: int) returns (r: Reply)
      requires Valid()
      modifies Footprint()
      ensures Valid() && fresh(Footprint() - old(Footprint()))
      ensures (State(), r) == DoReplace(cfg, old(State()), ws, now)
    {
      hide OrderedMap.Valid, Valid, State, DoClear, DoRestore, CacheModel.Begin, CacheModel.Commit, Rollback;
      BeginFrame();
      Clear();
      r := Restore(ws, now);
      var open := HasFrame();
      if open {
        if r == Threw {
          RollbackFrame();
        } else {
          CommitFrame();
        }
      }
    }

    method Perform(op: Op, now: int) returns (r: Reply)
      requires Valid()
      modifies Footprint()
      ensures Valid() && fresh(Footprint() - old(Footprint()))
      ensures (State(), r) == Run(cfg, old(State()), op, now)
    {
      hide OrderedMap.Valid, Valid, State, DoGet, DoSet, DoSetAt, DoMSet, DoDel, DoClearPrefix, DoClear, DoIncr, DoCas,
        DoRestore, DoExpire, DoExpireAt, DoPersist, DoSweep, DoTtl, DoGetVersion;
      match op
      case OpGet(k) => r := Get(k, now);
      case OpSet(k, v, ttl) => r := Set(k, v, ttl, now);
      case OpSetAt(k, v, at) => r := SetAt(k, v, at, now);
      case OpMSet(bs) => r := MSet(bs, now);
      case OpDel(k) => r := Del(k, now);
      case OpClearPrefix(p) => r := ClearPrefix(p);
      case OpClear => Clear(); r := Nothing;
      case OpIncr(k, d) => r := IncrOnce(k, d, now);
      case OpCas(k, x, v, ttl) => r := Cas(k, x, v, ttl, now);
      case OpRestore(ws) => r := Restore(ws, now);
      case OpExpire(k, after) => r := Expire(k, after, now);
      case OpExpireAt(k, at) => r := ExpireAt(k, at, now);
      case OpPersist(k) => r := Persist(k, now);
      case OpSweep => r := Sweep(now);
      case OpTtl(k) => r := Ttl(k, now);
      case OpGetVersion(k) => r := GetVersion(k, now);
    }

    /** What each changed key holds now, in the order the keys changed. */
    method GatherPatch(ks: seq<Key>, now: int) returns (r: Checked<Patch>)
      requires Valid()
      ensures r == Gather(State(), ks, 0, now)
    {
      hide OrderedMap.Valid, Clones, Gather, Extended;
      var p := Patch([], []);
      ExtendsNothing(Gather(State(), ks, 0, now));
      var i := 0;
      while i < |ks|
        invariant i <= |ks| && Gather(State(), ks, 0, now) == Extended(p, Gather(State(), ks, i, now))
      {
        var e := Peek(ks[i]);
        GatherStep(p, State(), ks, i, now);
        if e.None? || Due(e.value, now) {
          p := p.(deleted := p.deleted + [ks[i]]);
        } else if !Clones(e.value.value, CLONE_BYTES) {
          return Bad;
        } else {
          p := p.(entries := p.entries + [Write(ks[i], e.value.value, e.value.expiresAt)]);
        }
        i := i + 1;
      }
      GatherDone(p, State(), ks, now);
      r := Fine(p);
    }

    method OpenChanges()
      requires Valid()
      modifies Footprint()
      ensures Valid() && fresh(Footprint() - old(Footprint()))
      ensures State() == BeginChanges(old(State()))
    {
      hide OrderedMap.Valid;
      changeFrames := changeFrames + [[]];
      BeginFrame();
    }

    /** Commit when the body ran and the callback takes the patch, else roll back; then drop the change set. */
    method CloseChanges(ran: bool, accepts: bool, now: int) returns (p: Option<Patch>)
      requires Valid()
      modifies Footprint()
      ensures Valid() && fresh(Footprint() - old(Footprint()))
      ensures (State(), p) == EndChanges(old(State()), ran, accepts, now)
    {
      hide OrderedMap.Valid, Gather, Frames, Merge;
      p := None;
      var open := HasFrame();
      if !open || changeFrames == [] {
        return;
      }
      var n := |changeFrames| - 1;
      var gathered := GatherPatch(changeFrames[n], now);
      if ran && gathered.Fine? && accepts {
        CommitFrame();
        p := Some(gathered.value);
      } else {
        RollbackFrame();
      }
      changeFrames := changeFrames[..n];
    }

    /** atomicChanges around a body of operations; accepts says whether the callback, which must
        commit the patch durably or throw, does commit it. */
    method AtomicChanges(ops: seq<Op>, accepts: bool, now: int) returns (p: Option<Patch>)
      requires Valid()
      modifies Footprint()
      ensures Valid() && fresh(Footprint() - old(Footprint()))
      ensures (State(), p) == DoAtomicChanges(cfg, old(State()), ops, accepts, now)
    {
      hide OrderedMap.Valid, Valid, State, Run, BeginChanges, EndChanges;
      OpenChanges();
      ghost var b := State();
      var replies := [];
      var ran := true;
      var i := 0;
      while ran && i < |ops|
        invariant i <= |ops| && Valid() && fresh(Footprint() - old(Footprint()))
        invariant if ran then RunQueue(cfg, State(), ops, i, now, replies) == RunQueue(cfg, b, ops, 0, now, [])
                  else (State(), None) == RunQueue(cfg, b, ops, 0, now, [])
        decreases |ops| - i, ran
      {
        var reply := Perform(ops[i], now);
        if reply == Threw {
          ran := false;
        } else {
          replies := replies + [reply];
          i := i + 1;
        }
      }
      p := CloseChanges(ran, accepts, now);
    }
  }
}
