/** What a frame changes: nothing but when expiry events are delivered, and that each key is then told once. */
module CacheEvents {
  import opened Decimals
  import opened ItemLists
  import opened Json
  import opened CacheModel
  import opened CacheInvariant
  import opened CacheRuns
  import opened CacheContents

  // ---- lists told once ----

  /** The members of ks, each at its first place. */
  function OnceEach(ks: seq<Key>): seq<Key> {
    if ks == [] then []
    else
      var before := OnceEach(ks[..|ks| - 1]);
      if ks[|ks| - 1] in before then before else before + [ks[|ks| - 1]]
  }

  lemma {:induction false} OnceEachMeans(ks: seq<Key>)
    ensures Distinct(OnceEach(ks)) && forall k :: k in OnceEach(ks) <==> k in ks
    ensures forall n :: 0 <= n <= |ks| ==> OnceEach(ks[..n]) <= OnceEach(ks)
  {
    if ks != [] {
      var m := |ks| - 1;
      OnceEachMeans(ks[..m]);
      assert ks == ks[..m] + [ks[m]];
      forall n | 0 <= n <= |ks| ensures OnceEach(ks[..n]) <= OnceEach(ks) {
        if n <= m { assert ks[..m][..n] == ks[..n]; } else { assert ks[..n] == ks; }
      }
    }
  }

  lemma {:induction false} MergeMore(xs: seq<Key>, ys: seq<Key>, k: Key, i: nat)
    requires i <= |ys|
    ensures Merge(xs, ys + [k], i) == Adjoin(Merge(xs, ys, i), k)
    decreases |ys| - i
  {
    if i < |ys| {
      MergeMore(Adjoin(xs, ys[i]), ys, k, i + 1);
    } else {
      assert Merge(Adjoin(xs, k), ys + [k], i + 1) == Adjoin(xs, k);
    }
  }

  lemma {:induction false} MergeHas(xs: seq<Key>, ys: seq<Key>)
    ensures xs <= Merge(xs, ys, 0) && forall k :: k in Merge(xs, ys, 0) <==> k in xs || k in ys
  {
    if ys != [] {
      var m := |ys| - 1;
      MergeHas(xs, ys[..m]);
      MergeMore(xs, ys[..m], ys[m], 0);
      assert ys == ys[..m] + [ys[m]];
    }
  }

  lemma {:induction false} MergeMerge(xs: seq<Key>, ys: seq<Key>, zs: seq<Key>)
    ensures Merge(xs, Merge(ys, zs, 0), 0) == Merge(Merge(xs, ys, 0), zs, 0)
  {
    if zs != [] {
      var m := |zs| - 1;
      MergeMerge(xs, ys, zs[..m]);
      assert zs == zs[..m] + [zs[m]];
      var inner := Merge(ys, zs[..m], 0);
      MergeMore(ys, zs[..m], zs[m], 0);
      MergeMore(Merge(xs, ys, 0), zs[..m], zs[m], 0);
      MergeMore(xs, inner, zs[m], 0);
      MergeHas(xs, inner);
    }
  }

  lemma {:induction false} MergeOnce(ks: seq<Key>)
    ensures Merge([], ks, 0) == OnceEach(ks)
  {
    if ks != [] {
      var m := |ks| - 1;
      MergeOnce(ks[..m]);
      MergeMore([], ks[..m], ks[m], 0);
      assert ks == ks[..m] + [ks[m]];
    }
  }

  // ---- two caches that differ in their frames only ----

  /** Where a cache with open frames stood: its outer frames, its innermost one, what was delivered,
      and what a cache without frames had delivered at that moment. */
  datatype Base = Base(outer: seq<Frame>, inner: Frame, delivered: seq<Key>, told: seq<Key>)

  /** s has an open frame and b none. They agree on everything else, and what b has delivered since the
      base waits in the innermost frame of s. */
  ghost predicate Shadows(x: Base, s: Kv, b: Kv) {
    && s.core == b.core && s.generation == b.generation && s.changes == b.changes
    && b.frames == [] && x.told <= b.delivered && s.delivered == x.delivered
    && s.frames == x.outer + [Frame(x.inner.core, Merge(x.inner.expired, b.delivered[|x.told|..], 0))]
  }

  lemma NotifyShadows(x: Base, s: Kv, b: Kv, k: Key)
    requires Shadows(x, s, b)
    ensures Shadows(x, Notify(s, k), Notify(b, k))
  {
    var news := b.delivered[|x.told|..];
    MergeMore(x.inner.expired, news, k, 0);
    assert (b.delivered + [k])[|x.told|..] == news + [k];
    assert s.frames[..|s.frames| - 1] == x.outer;
  }

  lemma BumpShadows(cfg: Config, x: Base, s: Kv, b: Kv, k: Key)
    requires Shadows(x, s, b)
    ensures Shadows(x, Bump(cfg, s, k), Bump(cfg, b, k))
  {
    hide Prune, Put, Merge;
    assert Bump(cfg, s, k).changes == Bump(cfg, b, k).changes;
  }

  lemma CoreShadows(x: Base, s: Kv, b: Kv, c: Core)
    requires Shadows(x, s, b)
    ensures Shadows(x, s.(core := c), b.(core := c))
  {
    hide Merge;
  }

  lemma DiscardShadows(cfg: Config, x: Base, s: Kv, b: Kv, k: Key)
    requires Shadows(x, s, b)
    ensures Shadows(x, Discard(cfg, s, k), Discard(cfg, b, k))
    ensures Shadows(x, Expire(cfg, s, k), Expire(cfg, b, k))
  {
    hide Shadows, Bump, Notify, Get;
    assert s.core == b.core by { SameCores(x, s, b); }
    if EntryAt(s, k).Some? {
      var c := RemoveEntry(s.core, k).(bytes := s.core.bytes - EntryAt(s, k).value.size);
      CoreShadows(x, s, b, c);
      BumpShadows(cfg, x, s.(core := c), b.(core := c), k);
    }
    var t, d := Discard(cfg, s, k), Discard(cfg, b, k);
    SameCores(x, t, d);
    var c := t.core.(expiries := t.core.expiries + 1);
    CoreShadows(x, t, d, c);
    NotifyShadows(x, t.(core := c), d.(core := c), k);
  }

  lemma SameCores(x: Base, s: Kv, b: Kv)
    requires Shadows(x, s, b)
    ensures s.core == b.core && forall k :: EntryAt(s, k) == EntryAt(b, k) && Version(s, k) == Version(b, k)
  {
  }

  lemma StoreShadows(cfg: Config, x: Base, s: Kv, b: Kv, k: Key, e: Entry)
    requires Shadows(x, s, b)
    ensures Shadows(x, Store(cfg, s, k, e), Store(cfg, b, k, e))
  {
    hide Shadows, Bump, Get, PutEntry, RemoveEntry;
    SameCores(x, s, b);
    var freed := match EntryAt(s, k) case Some(was) => was.size case None => 0;
    var c := PutEntry(RemoveEntry(s.core, k), k, e).(bytes := s.core.bytes - freed + e.size);
    CoreShadows(x, s, b, c);
    BumpShadows(cfg, x, s.(core := c), b.(core := c), k);
  }

  lemma {:induction false} EvictShadows(cfg: Config, x: Base, s: Kv, b: Kv, clock: Option<int>)
    requires Shadows(x, s, b)
    ensures Shadows(x, Evict(cfg, s, clock), Evict(cfg, b, clock))
    decreases |s.core.entries|
  {
    hide Shadows, EvictOldest;
    SameCores(x, s, b);
    if Over(cfg, s.core) && s.core.entries != [] {
      OldestShadows(cfg, x, s, b, clock);
      EvictShadows(cfg, x, EvictOldest(cfg, s, clock), EvictOldest(cfg, b, clock), clock);
    }
  }

  lemma OldestShadows(cfg: Config, x: Base, s: Kv, b: Kv, clock: Option<int>)
    requires Shadows(x, s, b) && s.core.entries != []
    ensures b.core.entries != [] && Shadows(x, EvictOldest(cfg, s, clock), EvictOldest(cfg, b, clock))
    ensures |EvictOldest(cfg, s, clock).core.entries| < |s.core.entries|
  {
    hide Shadows, Bump, Expire, RemoveEntry;
    SameCores(x, s, b);
    var (k, e) := s.core.entries[0];
    DiscardShadows(cfg, x, s, b, k);
    var c := RemoveEntry(s.core, k).(bytes := s.core.bytes - e.size, evictions := s.core.evictions + 1);
    CoreShadows(x, s, b, c);
    BumpShadows(cfg, x, s.(core := c), b.(core := c), k);
    OldestGoes(cfg, s, clock);
  }

  lemma OldestGoes(cfg: Config, s: Kv, clock: Option<int>)
    requires s.core.entries != []
    ensures |EvictOldest(cfg, s, clock).core.entries| < |s.core.entries|
  {
    hide Prune, Put;
    GetFind(s.core.entries, s.core.entries[0].0);
  }

  lemma PlaceShadows(cfg: Config, x: Base, s: Kv, b: Kv, k: Key, e: Entry, clock: Option<int>)
    requires Shadows(x, s, b)
    ensures Shadows(x, Evict(cfg, Store(cfg, s, k, e), clock), Evict(cfg, Store(cfg, b, k, e), clock))
  {
    hide Shadows, Store, Evict;
    StoreShadows(cfg, x, s, b, k, e);
    EvictShadows(cfg, x, Store(cfg, s, k, e), Store(cfg, b, k, e), clock);
  }

  lemma SettleShadows(cfg: Config, x: Base, s: Kv, b: Kv, k: Key, now: int)
    requires Shadows(x, s, b)
    ensures Shadows(x, Settle(cfg, s, k, now), Settle(cfg, b, k, now))
  {
    hide Shadows, Expire, Get;
    SameCores(x, s, b);
    DiscardShadows(cfg, x, s, b, k);
  }

  /** A reply and the two caches after it. */
  ghost predicate BothShadow(x: Base, p: (Kv, Reply), q: (Kv, Reply)) { Shadows(x, p.0, q.0) && p.1 == q.1 }

  lemma OwnedShadows(cfg: Config, x: Base, s: Kv, b: Kv, k: Key, v: Value, at: Option<int>, now: int)
    requires Shadows(x, s, b)
    ensures BothShadow(x, SetOwned(cfg, s, k, v, at, now), SetOwned(cfg, b, k, v, at, now))
  {
    hide Shadows, Discard, Store, Evict, Fits;
    DiscardShadows(cfg, x, s, b, k);
    var t, d := Discard(cfg, s, k), Discard(cfg, b, k);
    SameCores(x, t, d);
    CoreShadows(x, t, d, t.core.(expiries := t.core.expiries + 1, misses := t.core.misses + 1));
    PlaceShadows(cfg, x, s, b, k, Entry(v, at, SizeOf(k, v)), Some(now));
  }

  lemma {:induction false} MSetShadows(cfg: Config, x: Base, s: Kv, b: Kv, bs: seq<Batch>, i: nat, now: int)
    requires Shadows(x, s, b) && i <= |bs| && forall j :: 0 <= j < |bs| ==> BatchFits(cfg, bs[j], now)
    ensures Shadows(x, MSetFrom(cfg, s, bs, i, now), MSetFrom(cfg, b, bs, i, now))
    decreases |bs| - i
  {
    hide Shadows, SetOwned, Clones, Fits, Deadline;
    if i < |bs| {
      assert BatchFits(cfg, bs[i], now);
      var at := Deadline(cfg, bs[i].key, bs[i].ttl, now).value;
      OwnedShadows(cfg, x, s, b, bs[i].key, bs[i].value, at, now);
      MSetShadows(cfg, x, SetOwned(cfg, s, bs[i].key, bs[i].value, at, now).0,
                  SetOwned(cfg, b, bs[i].key, bs[i].value, at, now).0, bs, i + 1, now);
    }
  }

  lemma {:induction false} ClearFromShadows(cfg: Config, x: Base, s: Kv, b: Kv, ks: seq<Key>, i: nat, prefix: Str)
    requires Shadows(x, s, b) && i <= |ks|
    ensures Shadows(x, ClearFrom(cfg, s, ks, i, prefix), ClearFrom(cfg, b, ks, i, prefix))
    decreases |ks| - i
  {
    hide Shadows, Discard, InNamespace;
    if i < |ks| {
      DiscardShadows(cfg, x, s, b, ks[i]);
      if InNamespace(ks[i], prefix) {
        ClearFromShadows(cfg, x, Discard(cfg, s, ks[i]), Discard(cfg, b, ks[i]), ks, i + 1, prefix);
      } else {
        ClearFromShadows(cfg, x, s, b, ks, i + 1, prefix);
      }
    }
  }

  lemma {:induction false} BumpFromShadows(cfg: Config, x: Base, s: Kv, b: Kv, ks: seq<Key>, i: nat)
    requires Shadows(x, s, b) && i <= |ks|
    ensures Shadows(x, BumpFrom(cfg, s, ks, i), BumpFrom(cfg, b, ks, i))
    decreases |ks| - i
  {
    hide Shadows, Bump;
    if i < |ks| {
      BumpShadows(cfg, x, s, b, ks[i]);
      BumpFromShadows(cfg, x, Bump(cfg, s, ks[i]), Bump(cfg, b, ks[i]), ks, i + 1);
    }
  }

  lemma {:induction false} RestoreFromShadows(cfg: Config, x: Base, s: Kv, b: Kv, ws: seq<Write>, i: nat, now: int)
    requires Shadows(x, s, b) && i <= |ws|
    ensures Shadows(x, RestoreFrom(cfg, s, ws, i, now), RestoreFrom(cfg, b, ws, i, now))
    decreases |ws| - i
  {
    hide Shadows, Store;
    if i < |ws| {
      var w := ws[i];
      var e := Entry(w.value, w.expiresAt, SizeOf(w.key, w.value));
      StoreShadows(cfg, x, s, b, w.key, e);
      if w.expiresAt.Some? && w.expiresAt.value <= now {
        RestoreFromShadows(cfg, x, s, b, ws, i + 1, now);
      } else {
        RestoreFromShadows(cfg, x, Store(cfg, s, w.key, e), Store(cfg, b, w.key, e), ws, i + 1, now);
      }
    }
  }

  lemma {:induction false} SweepShadows(cfg: Config, x: Base, s: Kv, b: Kv, ks: seq<Key>, i: nat, now: int)
    requires Shadows(x, s, b) && i <= |ks|
    ensures Shadows(x, SweepFrom(cfg, s, ks, i, now).0, SweepFrom(cfg, b, ks, i, now).0)
    ensures SweepFrom(cfg, s, ks, i, now).1 == SweepFrom(cfg, b, ks, i, now).1
    decreases |ks| - i
  {
    hide Shadows, Expire, Due, Get;
    if i < |ks| {
      SameCores(x, s, b);
      DiscardShadows(cfg, x, s, b, ks[i]);
      if EntryAt(s, ks[i]).Some? && Due(EntryAt(s, ks[i]).value, now) {
        SweepShadows(cfg, x, Expire(cfg, s, ks[i]), Expire(cfg, b, ks[i]), ks, i + 1, now);
      } else {
        SweepShadows(cfg, x, s, b, ks, i + 1, now);
      }
    }
  }

  // ---- every operation ----

  lemma ReadsShadow(cfg: Config, x: Base, s: Kv, b: Kv, op: Op, now: int)
    requires Shadows(x, s, b) && (op.OpGet? || op.OpTtl? || op.OpGetVersion? || op.OpDel?)
    ensures BothShadow(x, Run(cfg, s, op, now), Run(cfg, b, op, now))
  {
    hide Shadows, Expire, Discard, Get, PutEntry, RemoveEntry, Clones, Settle;
    SameCores(x, s, b);
    var k := op.key;
    DiscardShadows(cfg, x, s, b, k);
    SettleShadows(cfg, x, s, b, k, now);
    SameCores(x, Settle(cfg, s, k, now), Settle(cfg, b, k, now));
    MissShadows(x, s, b);
    MissShadows(x, Expire(cfg, s, k), Expire(cfg, b, k));
    if EntryAt(s, k).Some? {
      var c := PutEntry(RemoveEntry(s.core, k), k, EntryAt(s, k).value);
      CoreShadows(x, s, b, c.(hits := c.hits + 1));
    }
  }

  lemma MissShadows(x: Base, s: Kv, b: Kv)
    requires Shadows(x, s, b)
    ensures Shadows(x, Missed(s), Missed(b))
  {
    hide Merge;
  }

  lemma RedateShadows(cfg: Config, x: Base, s: Kv, b: Kv, k: Key, at: Option<int>, now: int)
    requires Shadows(x, s, b)
    ensures BothShadow(x, Redate(cfg, s, k, at, now), Redate(cfg, b, k, at, now))
  {
    hide Shadows, Expire, Store, Get, Due;
    SameCores(x, s, b);
    DiscardShadows(cfg, x, s, b, k);
    if EntryAt(s, k).Some? { StoreShadows(cfg, x, s, b, k, EntryAt(s, k).value.(expiresAt := at)); }
  }

  lemma DatesShadow(cfg: Config, x: Base, s: Kv, b: Kv, op: Op, now: int)
    requires Shadows(x, s, b) && (op.OpExpire? || op.OpExpireAt? || op.OpPersist?)
    ensures BothShadow(x, Run(cfg, s, op, now), Run(cfg, b, op, now))
  {
    hide Shadows, Expire, Redate, Get, Due;
    match op
    case OpExpire(k, after) => RedateShadows(cfg, x, s, b, k, Some(now + after), now);
    case OpPersist(k) => RedateShadows(cfg, x, s, b, k, None, now);
    case OpExpireAt(k, at) =>
      SameCores(x, s, b);
      DiscardShadows(cfg, x, s, b, k);
      RedateShadows(cfg, x, s, b, k, Some(at), now);
  }

  lemma IncrShadows(cfg: Config, x: Base, s: Kv, b: Kv, k: Key, delta: int, now: int)
    requires Shadows(x, s, b)
    ensures BothShadow(x, DoIncr(cfg, s, k, delta, now), DoIncr(cfg, b, k, delta, now))
  {
    hide Shadows, Settle, Store, Evict, Fits, Get;
    SettleShadows(cfg, x, s, b, k, now);
    var t := Settle(cfg, s, k, now);
    SameCores(x, t, Settle(cfg, b, k, now));
    var live := EntryAt(t, k);
    if live.None? || live.value.value.Num? {
      var n := if live.Some? then live.value.value.n + delta else delta;
      var at := if live.Some? then live.value.expiresAt else None;
      PlaceShadows(cfg, x, t, Settle(cfg, b, k, now), k, Entry(Num(n), at, SizeOf(k, Num(n))), Some(now));
    }
  }

  lemma CasShadows(cfg: Config, x: Base, s: Kv, b: Kv, op: Op, now: int)
    requires Shadows(x, s, b) && op.OpCas?
    ensures BothShadow(x, Run(cfg, s, op, now), Run(cfg, b, op, now))
  {
    hide Shadows, Settle, CasTo, Fits, Get, Clones, Same, Deadline;
    var k := op.key;
    SettleShadows(cfg, x, s, b, k, now);
    var t := Settle(cfg, s, k, now);
    SameCores(x, t, Settle(cfg, b, k, now));
    var live := EntryAt(t, k);
    if Fits(cfg, k, op.value) {
      var at := if op.ttl.Some? then Deadline(cfg, k, op.ttl, now)
                else if live.Some? then Fine(live.value.expiresAt) else Deadline(cfg, k, None, now);
      CasToShadows(cfg, x, t, Settle(cfg, b, k, now), k, op.value, at, now);
    }
  }

  lemma CasToShadows(cfg: Config, x: Base, s: Kv, b: Kv, k: Key, v: Value, at: Checked<Option<int>>, now: int)
    requires Shadows(x, s, b) && Fits(cfg, k, v)
    ensures BothShadow(x, CasTo(cfg, s, k, v, at, now), CasTo(cfg, b, k, v, at, now))
  {
    hide Shadows, Discard, Store, Evict, Fits;
    DiscardShadows(cfg, x, s, b, k);
    var t, d := Discard(cfg, s, k), Discard(cfg, b, k);
    SameCores(x, t, d);
    CoreShadows(x, t, d, t.core.(expiries := t.core.expiries + 1));
    if at.Fine? { PlaceShadows(cfg, x, s, b, k, Entry(v, at.value, SizeOf(k, v)), Some(now)); }
  }

  lemma ClearShadows(cfg: Config, x: Base, s: Kv, b: Kv)
    requires Shadows(x, s, b)
    ensures Shadows(x, DoClear(cfg, s), DoClear(cfg, b))
  {
    hide Shadows, BumpFrom, RemoveFrom;
    SameCores(x, s, b);
    var ks := KeysOf(s.core.entries);
    BumpFromShadows(cfg, x, s, b, ks, 0);
    var t := BumpFrom(cfg, s, ks, 0);
    SameCores(x, t, BumpFrom(cfg, b, ks, 0));
    CoreShadows(x, t, BumpFrom(cfg, b, ks, 0), RemoveFrom(t.core, ks, 0).(bytes := 0));
  }

  lemma ManyShadow(cfg: Config, x: Base, s: Kv, b: Kv, op: Op, now: int)
    requires Shadows(x, s, b) && (op.OpMSet? || op.OpClearPrefix? || op.OpClear? || op.OpRestore? || op.OpSweep?)
    ensures BothShadow(x, Run(cfg, s, op, now), Run(cfg, b, op, now))
  {
    hide Shadows, MSetFrom, ClearFrom, DoClear, RestoreFrom, Evict, SweepFrom, Matching, LiveWrites, WriteFits,
      BatchFits;
    SameCores(x, s, b);
    match op
    case OpMSet(bs) =>
      if forall j :: 0 <= j < |bs| ==> BatchFits(cfg, bs[j], now) { MSetShadows(cfg, x, s, b, bs, 0, now); }
    case OpClearPrefix(p) => ClearFromShadows(cfg, x, s, b, KeysOf(s.core.entries), 0, p);
    case OpClear => ClearShadows(cfg, x, s, b);
    case OpRestore(ws) =>
      RestoreFromShadows(cfg, x, s, b, ws, 0, now);
      EvictShadows(cfg, x, RestoreFrom(cfg, s, ws, 0, now), RestoreFrom(cfg, b, ws, 0, now), None);
    case OpSweep => SweepShadows(cfg, x, s, b, KeysOf(s.core.expiring), 0, now);
  }

  /** No call can see the open frames, and its events wait in the innermost. */
  lemma RunShadows(cfg: Config, x: Base, s: Kv, b: Kv, op: Op, now: int)
    requires Shadows(x, s, b)
    ensures BothShadow(x, Run(cfg, s, op, now), Run(cfg, b, op, now))
  {
    hide Shadows, BothShadow, Run;
    match op
    case OpGet(_) => ReadsShadow(cfg, x, s, b, op, now);
    case OpTtl(_) => ReadsShadow(cfg, x, s, b, op, now);
    case OpGetVersion(_) => ReadsShadow(cfg, x, s, b, op, now);
    case OpDel(_) => ReadsShadow(cfg, x, s, b, op, now);
    case OpExpire(_, _) => DatesShadow(cfg, x, s, b, op, now);
    case OpExpireAt(_, _) => DatesShadow(cfg, x, s, b, op, now);
    case OpPersist(_) => DatesShadow(cfg, x, s, b, op, now);
    case OpCas(_, _, _, _) => CasShadows(cfg, x, s, b, op, now);
    case OpIncr(k, d) => SimpleShadows(cfg, x, s, b, op, now);
    case OpSet(_, _, _) => SimpleShadows(cfg, x, s, b, op, now);
    case OpSetAt(_, _, _) => SimpleShadows(cfg, x, s, b, op, now);
    case _ => ManyShadow(cfg, x, s, b, op, now);
  }

  lemma SimpleShadows(cfg: Config, x: Base, s: Kv, b: Kv, op: Op, now: int)
    requires Shadows(x, s, b) && (op.OpSet? || op.OpSetAt? || op.OpIncr?)
    ensures BothShadow(x, Run(cfg, s, op, now), Run(cfg, b, op, now))
  {
    hide Shadows, SetOwned, DoIncr, Clones, Deadline;
    match op
    case OpIncr(k, d) => IncrShadows(cfg, x, s, b, k, d, now);
    case OpSetAt(k, v, at) => OwnedShadows(cfg, x, s, b, k, v, at, now);
    case OpSet(k, v, ttl) =>
      if Deadline(cfg, k, ttl, now).Fine? {
        OwnedShadows(cfg, x, s, b, k, v, Deadline(cfg, k, ttl, now).value, now);
      }
    case _ =>
  }

  // ---- runs with nested frames ----

  /** The run without its frames. */
  function Unframed(es: seq<Event>): seq<Event> {
    if es == [] then []
    else (if es[0].BeginFrame? || es[0].CommitFrame? then [] else [es[0]]) + Unframed(es[1..])
  }

  /** What the frames hold, innermost last, as it would be delivered if they all committed. */
  function Waiting(fs: seq<Frame>): seq<Key> {
    if fs == [] then []
    else if |fs| == 1 then fs[0].expired
    else Merge(Waiting(fs[..|fs| - 1]), fs[|fs| - 1].expired, 0)
  }

  /** s, with frames open, against b, run without them from the moment b had delivered the first d events. */
  ghost predicate Follows(s: Kv, b: Kv, d: nat, delivered: seq<Key>) {
    && s.core == b.core && s.generation == b.generation && s.changes == b.changes
    && b.frames == [] && d <= |b.delivered| && s.frames != [] && s.delivered == delivered
    && Waiting(s.frames) == OnceEach(b.delivered[d..])
  }

  lemma CallFollows(cfg: Config, s: Kv, b: Kv, d: nat, delivered: seq<Key>, op: Op, now: int)
    requires Follows(s, b, d, delivered)
    ensures var t, u := Run(cfg, s, op, now).0, Run(cfg, b, op, now).0;
      Follows(t, u, d, delivered) && |t.frames| == |s.frames| && b.delivered <= u.delivered
  {
    hide Run, Merge, OnceEach, Waiting;
    var n := |s.frames| - 1;
    var x := Base(s.frames[..n], s.frames[n], delivered, b.delivered);
    assert b.delivered[|b.delivered|..] == [];
    assert Merge(s.frames[n].expired, [], 0) == s.frames[n].expired by { MergeNone(s.frames[n].expired); }
    assert s.frames == s.frames[..n] + [s.frames[n]];
    RunShadows(cfg, x, s, b, op, now);
    NewsFollow(s, b, d, delivered, x, Run(cfg, s, op, now).0, Run(cfg, b, op, now).0);
  }

  lemma NewsFollow(s: Kv, b: Kv, d: nat, delivered: seq<Key>, x: Base, t: Kv, u: Kv)
    requires Follows(s, b, d, delivered) && Shadows(x, t, u)
    requires x == Base(s.frames[..|s.frames| - 1], s.frames[|s.frames| - 1], delivered, b.delivered)
    ensures Follows(t, u, d, delivered) && |t.frames| == |s.frames| && b.delivered <= u.delivered
  {
    hide Merge, OnceEach;
    var n := |s.frames| - 1;
    var mine, news := s.frames[n].expired, u.delivered[|b.delivered|..];
    assert t.frames[..n] == s.frames[..n];
    assert Waiting(t.frames) == Merge(Waiting(s.frames), news, 0) by {
      assert t.frames[n].expired == Merge(mine, news, 0);
      if n > 0 { MergeMerge(Waiting(s.frames[..n]), mine, news); }
    }
    OnceMore(b.delivered[d..], news);
    assert u.delivered[d..] == b.delivered[d..] + news;
  }

  lemma MergeNone(xs: seq<Key>)
    ensures Merge(xs, [], 0) == xs
  {
  }

  lemma OnceMore(xs: seq<Key>, ys: seq<Key>)
    ensures Merge(OnceEach(xs), ys, 0) == OnceEach(xs + ys)
  {
    MergeOnce(xs);
    MergeOnce(xs + ys);
    MergeAppend([], xs, ys);
  }

  lemma {:induction false} MergeAppend(xs: seq<Key>, ys: seq<Key>, zs: seq<Key>)
    ensures Merge(Merge(xs, ys, 0), zs, 0) == Merge(xs, ys + zs, 0)
  {
    if zs == [] {
      assert ys + zs == ys;
    } else {
      var m := |zs| - 1;
      MergeAppend(xs, ys, zs[..m]);
      MergeMore(Merge(xs, ys, 0), zs[..m], zs[m], 0);
      MergeMore(xs, ys + zs[..m], zs[m], 0);
      assert zs == zs[..m] + [zs[m]] && ys + zs == ys + zs[..m] + [zs[m]];
    }
  }

  lemma {:induction false} FramedFollows(cfg: Config, s: Kv, b: Kv, d: nat, delivered: seq<Key>, es: seq<Event>)
    requires Follows(s, b, d, delivered) && BalancedEvents(es, |s.frames| - 1)
    requires forall i :: 0 <= i < |es| ==> es[i].Call? || es[i].BeginFrame? || es[i].CommitFrame?
    ensures var t, u := After(cfg, s, es), After(cfg, b, Unframed(es));
      Follows(t, u, d, delivered) && |t.frames| == 1 && b.delivered <= u.delivered
    decreases |es|
  {
    hide Run, Follows, OnceEach, Waiting, Commit, Begin;
    if es != [] {
      var t := Next(cfg, s, es[0]);
      match es[0]
      case Call(op, now) =>
        CallFollows(cfg, s, b, d, delivered, op, now);
        FramedFollows(cfg, t, Run(cfg, b, op, now).0, d, delivered, es[1..]);
        assert Unframed(es)[0] == es[0] && Unframed(es)[1..] == Unframed(es[1..]);
      case BeginFrame =>
        BeginFollows(s, b, d, delivered);
        FramedFollows(cfg, t, b, d, delivered, es[1..]);
        assert Unframed(es) == Unframed(es[1..]);
      case CommitFrame =>
        CommitFollows(s, b, d, delivered);
        FramedFollows(cfg, t, b, d, delivered, es[1..]);
        assert Unframed(es) == Unframed(es[1..]);
      case _ =>
    } else {
      FollowsOpen(s, b, d, delivered);
    }
  }

  lemma FollowsOpen(s: Kv, b: Kv, d: nat, delivered: seq<Key>)
    requires Follows(s, b, d, delivered)
    ensures s.frames != []
  {
  }

  lemma BeginFollows(s: Kv, b: Kv, d: nat, delivered: seq<Key>)
    requires Follows(s, b, d, delivered)
    ensures Follows(Begin(s), b, d, delivered) && |Begin(s).frames| == |s.frames| + 1
  {
    var t := Begin(s);
    assert t.frames[..|t.frames| - 1] == s.frames;
    MergeNone(Waiting(s.frames));
  }

  lemma CommitFollows(s: Kv, b: Kv, d: nat, delivered: seq<Key>)
    requires Follows(s, b, d, delivered) && |s.frames| >= 2
    ensures Follows(Commit(s), b, d, delivered) && |Commit(s).frames| == |s.frames| - 1
  {
    hide Merge, OnceEach;
    var n := |s.frames| - 1;
    var t := Commit(s);
    assert t.frames[..n - 1] == s.frames[..n - 1] == s.frames[..n][..n - 1];
    assert Waiting(s.frames) == Merge(Waiting(s.frames[..n]), s.frames[n].expired, 0);
    if n > 1 {
      MergeMerge(Waiting(s.frames[..n - 1]), s.frames[n - 1].expired, s.frames[n].expired);
      assert Waiting(s.frames[..n]) == Merge(Waiting(s.frames[..n - 1]), s.frames[n - 1].expired, 0);
    }
  }

  /** Work done in frames that all commit, however deeply nested, leaves the entries, their order,
      versions, counters and change sets it would have left without any frame. The outermost commit
      delivers every key whose expiry the work noticed, each once, in the order first noticed. */
  lemma AtomicTransparent(cfg: Config, s: Kv, es: seq<Event>)
    requires s.frames == [] && BalancedEvents(es, 0)
    requires forall i :: 0 <= i < |es| ==> es[i].Call? || es[i].BeginFrame? || es[i].CommitFrame?
    ensures |After(cfg, Begin(s), es).frames| == 1
    ensures var t, u := Commit(After(cfg, Begin(s), es)), After(cfg, s, Unframed(es));
      && t.core == u.core && t.generation == u.generation && t.changes == u.changes && t.frames == []
      && s.delivered <= u.delivered
      && t.delivered == s.delivered + OnceEach(u.delivered[|s.delivered|..])
  {
    hide After, Unframed;
    var b := Begin(s);
    assert Waiting(b.frames) == [] == OnceEach([]);
    assert s.delivered[|s.delivered|..] == [];
    FramedFollows(cfg, b, s, |s.delivered|, s.delivered, es);
    var t := After(cfg, b, es);
    assert t.frames == [t.frames[0]] && Waiting(t.frames) == t.frames[0].expired;
  }

  lemma {:induction false} QueueShadows(cfg: Config, x: Base, s: Kv, b: Kv, ops: seq<Op>, j: nat, now: int)
    requires Shadows(x, s, b) && j <= |ops|
    ensures Shadows(x, StateAt(cfg, s, ops, j, now), StateAt(cfg, b, ops, j, now))
    ensures j < |ops| ==> ReplyAt(cfg, s, ops, j, now) == ReplyAt(cfg, b, ops, j, now)
  {
    hide Shadows, Run;
    if j > 0 {
      QueueShadows(cfg, x, s, b, ops, j - 1, now);
      RunShadows(cfg, x, StateAt(cfg, s, ops, j - 1, now), StateAt(cfg, b, ops, j - 1, now), ops[j - 1], now);
    }
    if j < |ops| {
      RunShadows(cfg, x, StateAt(cfg, s, ops, j, now), StateAt(cfg, b, ops, j, now), ops[j], now);
    }
  }

  /** Any cache shadows itself without its frames. */
  lemma FramesAside(s: Kv) returns (x: Base)
    requires s.frames != []
    ensures Shadows(x, s, s.(frames := []))
  {
    var n := |s.frames| - 1;
    x := Base(s.frames[..n], s.frames[n], s.delivered, s.delivered);
    assert s.frames == s.frames[..n] + [s.frames[n]];
    assert s.delivered[|s.delivered|..] == [];
    MergeNone(s.frames[n].expired);
  }

  lemma {:induction false} BareQueue(cfg: Config, s: Kv, ops: seq<Op>, j: nat, now: int)
    requires j <= |ops|
    ensures var t, b := StateAt(cfg, s, ops, j, now), StateAt(cfg, s.(frames := []), ops, j, now);
      t.core == b.core && t.generation == b.generation && t.changes == b.changes
    ensures j < |ops| ==> ReplyAt(cfg, s, ops, j, now) == ReplyAt(cfg, s.(frames := []), ops, j, now)
  {
    hide StateAt, ReplyAt;
    if s.frames == [] {
      assert s == s.(frames := []);
    } else {
      var x := FramesAside(s);
      QueueShadows(cfg, x, s, s.(frames := []), ops, j, now);
      assert Shadows(x, StateAt(cfg, s, ops, j, now), StateAt(cfg, s.(frames := []), ops, j, now));
    }
  }

  /** In a frame, at whatever depth, each operation of a queue replies and does what it would without. */
  lemma SameQueue(cfg: Config, s: Kv, ops: seq<Op>, now: int)
    ensures forall j :: 0 <= j < |ops| ==> ReplyAt(cfg, Begin(s), ops, j, now) == ReplyAt(cfg, s, ops, j, now)
    ensures RunsThrough(cfg, Begin(s), ops, now) <==> RunsThrough(cfg, s, ops, now)
    ensures var t, u := After(cfg, Begin(s), Calls(ops, now)), After(cfg, s, Calls(ops, now));
      t.core == u.core && t.generation == u.generation && t.changes == u.changes
  {
    hide StateAt, ReplyAt, After;
    assert s.(frames := []) == Begin(s).(frames := []);
    forall j | 0 <= j < |ops| ensures ReplyAt(cfg, Begin(s), ops, j, now) == ReplyAt(cfg, s, ops, j, now) {
      BareQueue(cfg, s, ops, j, now);
      BareQueue(cfg, Begin(s), ops, j, now);
    }
    BareQueue(cfg, s, ops, |ops|, now);
    BareQueue(cfg, Begin(s), ops, |ops|, now);
    StateAfter(cfg, s, ops, |ops|, now);
    StateAfter(cfg, Begin(s), ops, |ops|, now);
    assert Calls(ops, now)[..|ops|] == Calls(ops, now);
  }

  lemma {:induction false} UnframedCalls(es: seq<Event>)
    requires forall i :: 0 <= i < |es| ==> es[i].Call?
    ensures Unframed(es) == es && BalancedEvents(es, 0)
    decreases |es|
  {
    if es != [] { UnframedCalls(es[1..]); }
  }

  // ---- what is told and counted ----

  /** The call finds the entry of its key due, or expireAt makes it so. */
  predicate Notices(cfg: Config, s: Kv, op: Op, now: int)
    requires SingleKey(op)
  {
    && KeyFits(cfg, op.key) && EntryAt(s, op.key).Some?
    && (op.OpExpire? ==> 0 <= op.after && now + op.after <= MAX_SAFE)
    && (!Live(s, op.key, now) || (op.OpExpireAt? && op.at <= now))
  }

  /** What a lookup tells and counts. */
  ghost predicate Tells(cfg: Config, s: Kv, op: Op, now: int, t: Kv)
    requires SingleKey(op)
  {
    var noticed := Notices(cfg, s, op, now);
    var hit := op.OpGet? && KeyFits(cfg, op.key) && Live(s, op.key, now);
    var miss := (op.OpGet? || op.OpTtl?) && KeyFits(cfg, op.key) && !Live(s, op.key, now);
    && (s.frames == [] ==> t.delivered == s.delivered + if noticed then [op.key] else [])
    && t.core.expiries == s.core.expiries + (if noticed then 1 else 0)
    && t.core.hits == s.core.hits + (if hit then 1 else 0)
    && t.core.misses == s.core.misses + (if miss then 1 else 0)
    && t.core.evictions == s.core.evictions
  }

  /** A lookup that finds an entry due tells its key, outside frames at once, and counts it; a get counts
      a hit or a miss, a ttl a miss. Nothing else is told or counted, and nothing evicted. */
  lemma LookupsTell(cfg: Config, s: Kv, op: Op, now: int)
    requires op.OpGet? || op.OpTtl? || op.OpGetVersion? || op.OpDel? || op.OpExpire? || op.OpExpireAt? || op.OpPersist?
    ensures Tells(cfg, s, op, now, Run(cfg, s, op, now).0)
  {
    hide Run, Tells;
    if op.OpGet? || op.OpTtl? || op.OpGetVersion? || op.OpDel? {
      ReadsTell(cfg, s, op, now);
    } else {
      DatesTell(cfg, s, op, now);
    }
  }

  /** Expiring a key tells it and counts it, and counts nothing else; discarding or storing one counts nothing. */
  lemma ExpireCounts(cfg: Config, s: Kv, k: Key)
    ensures var t := Expire(cfg, s, k);
      && (s.frames == [] ==> t.frames == [] && t.delivered == s.delivered + [k])
      && t.core.expiries == s.core.expiries + 1 && t.core.evictions == s.core.evictions
      && t.core.hits == s.core.hits && t.core.misses == s.core.misses
  {
    hide Prune, Put, Get, Remove;
  }

  ghost predicate SameCounts(s: Kv, t: Kv) {
    && t.core.hits == s.core.hits && t.core.misses == s.core.misses
    && t.core.expiries == s.core.expiries && t.core.evictions == s.core.evictions
    && t.frames == s.frames && t.delivered == s.delivered
  }

  lemma DiscardCounts(cfg: Config, s: Kv, k: Key)
    ensures SameCounts(s, Discard(cfg, s, k))
  {
    hide Prune, Put, Get, Remove;
  }

  lemma StoreCounts(cfg: Config, s: Kv, k: Key, e: Entry)
    ensures SameCounts(s, Store(cfg, s, k, e))
  {
    hide Prune, Put, Get, Remove;
  }

  lemma ReadsTell(cfg: Config, s: Kv, op: Op, now: int)
    requires op.OpGet? || op.OpTtl? || op.OpGetVersion? || op.OpDel?
    ensures Tells(cfg, s, op, now, Run(cfg, s, op, now).0)
  {
    hide Get, Expire, Discard, Put, Remove, Clones, Utf8From;
    assert s.delivered == s.delivered + [];
    ExpireCounts(cfg, s, op.key);
    DiscardCounts(cfg, s, op.key);
  }

  lemma DatesTell(cfg: Config, s: Kv, op: Op, now: int)
    requires op.OpExpire? || op.OpExpireAt? || op.OpPersist?
    ensures Tells(cfg, s, op, now, Run(cfg, s, op, now).0)
  {
    hide Get, Expire, Store, Utf8From;
    assert s.delivered == s.delivered + [];
    ExpireCounts(cfg, s, op.key);
    if EntryAt(s, op.key).Some? {
      var e := EntryAt(s, op.key).value;
      var at := match op case OpExpire(_, after) => Some(now + after) case OpExpireAt(_, a) => Some(a) case _ => None;
      StoreCounts(cfg, s, op.key, e.(expiresAt := at));
    }
  }

  /** The keys of the pairs due by the clock, in order; without a clock none is. */
  function DueAmong(es: Items<Key, Entry>, clock: Option<int>): seq<Key>
    decreases |es|
  {
    if es == [] then []
    else (if clock.Some? && Due(es[0].1, clock.value) then [es[0].0] else []) + DueAmong(es[1..], clock)
  }

  lemma OldestTells(cfg: Config, s: Kv, clock: Option<int>)
    requires s.core.entries != []
    ensures var t, told := EvictOldest(cfg, s, clock), DueAmong(s.core.entries[..1], clock);
      && t.core.entries == s.core.entries[1..] && (t.frames == [] <==> s.frames == [])
      && (s.frames == [] ==> t.delivered == s.delivered + told)
      && t.core.expiries == s.core.expiries + |told| && t.core.evictions == s.core.evictions + 1 - |told|
      && t.core.hits == s.core.hits && t.core.misses == s.core.misses
  {
  }

  lemma DueSplit(es: Items<Key, Entry>, n: nat, clock: Option<int>)
    requires 1 <= n <= |es|
    ensures DueAmong(es[..n], clock) == DueAmong(es[..1], clock) + DueAmong(es[1..][..n - 1], clock)
  {
    assert es[..n][0] == es[0] && es[..n][1..] == es[1..][..n - 1] && es[..1] == [es[0]];
  }

  /** Each entry eviction drops is counted once: as an expiry and told, if it was due, else as an eviction. */
  lemma {:induction false} EvictTells(cfg: Config, s: Kv, clock: Option<int>)
    ensures var t := Evict(cfg, s, clock);
      && |t.core.entries| <= |s.core.entries|
      && var n := |s.core.entries| - |t.core.entries|;
        var told := DueAmong(s.core.entries[..n], clock);
        && (s.frames == [] ==> t.delivered == s.delivered + told)
        && t.core.expiries == s.core.expiries + |told| && t.core.evictions == s.core.evictions + n - |told|
        && t.core.hits == s.core.hits && t.core.misses == s.core.misses
    decreases |s.core.entries|
  {
    hide EvictOldest, DueAmong;
    var es := s.core.entries;
    if Over(cfg, s.core) && es != [] {
      OldestTells(cfg, s, clock);
      EvictTells(cfg, EvictOldest(cfg, s, clock), clock);
      DueSplit(es, |es| - |Evict(cfg, s, clock).core.entries|, clock);
    } else {
      NoneDue(clock);
      assert es[..0] == [] && s.delivered == s.delivered + [];
    }
  }

  lemma NoneDue(clock: Option<int>)
    ensures DueAmong([], clock) == []
  {
  }

  lemma PlaceCounts(cfg: Config, s: Kv, k: Key, e: Entry, clock: Option<int>)
    ensures var t := Evict(cfg, Store(cfg, s, k, e), clock);
      t.core.hits == s.core.hits && t.core.misses == s.core.misses
  {
    hide Evict, Store;
    StoreCounts(cfg, s, k, e);
    EvictTells(cfg, Store(cfg, s, k, e), clock);
  }

  lemma SettleCounts(cfg: Config, s: Kv, k: Key, now: int)
    ensures var t := Settle(cfg, s, k, now); t.core.hits == s.core.hits && t.core.misses == s.core.misses
  {
    hide Expire;
    ExpireCounts(cfg, s, k);
  }

  /** No store counts a hit; a set or setAt whose deadline has come counts a miss, as it leaves nothing to read. */
  lemma StoresCount(cfg: Config, s: Kv, op: Op, now: int)
    requires Configured(cfg) && Inv(cfg, s) && Stores(op)
    ensures var (t, r) := Run(cfg, s, op, now);
      var missed := (op.OpSet? || op.OpSetAt?) && r.Found? && View(t, op.key, now).None?;
      t.core.hits == s.core.hits && t.core.misses == s.core.misses + if missed then 1 else 0
  {
    hide Settle, Discard, Store, Evict, Fits, Clones, Deadline, Get, Same, Sound;
    SettleCounts(cfg, s, op.key, now);
    DiscardCounts(cfg, s, op.key);
    var t := Settle(cfg, s, op.key, now);
    DiscardCounts(cfg, t, op.key);
    forall e ensures var u := Evict(cfg, Store(cfg, t, op.key, e), Some(now));
        u.core.hits == s.core.hits && u.core.misses == s.core.misses { PlaceCounts(cfg, t, op.key, e, Some(now)); }
    if op.OpSet? || op.OpSetAt? {
      SetCounts(cfg, s, op, now);
    }
  }

  lemma SetCounts(cfg: Config, s: Kv, op: Op, now: int)
    requires Configured(cfg) && Inv(cfg, s) && (op.OpSet? || op.OpSetAt?)
    ensures var (t, r) := Run(cfg, s, op, now);
      t.core.hits == s.core.hits
      && t.core.misses == s.core.misses + if r.Found? && View(t, op.key, now).None? then 1 else 0
  {
    hide Discard, Store, Evict, Fits, Clones, Deadline, Get, View, Sound;
    var at := if op.OpSetAt? then Fine(op.expiresAt) else Deadline(cfg, op.key, op.ttl, now);
    OperationsMean(cfg, s, op, now);
    DiscardCounts(cfg, s, op.key);
    if at.Fine? {
      PlaceCounts(cfg, s, op.key, Entry(op.value, at.value, SizeOf(op.key, op.value)), Some(now));
    }
  }

  /** The keys of ks, in order, whose entries are due. */
  function DueKeys(s: Kv, ks: seq<Key>, now: int): seq<Key> {
    if ks == [] then []
    else (if EntryAt(s, ks[0]).Some? && !Live(s, ks[0], now) then [ks[0]] else []) + DueKeys(s, ks[1..], now)
  }

  lemma {:induction false} SameDueKeys(s: Kv, t: Kv, ks: seq<Key>, now: int)
    requires forall k :: k in ks ==> EntryAt(t, k) == EntryAt(s, k)
    ensures DueKeys(t, ks, now) == DueKeys(s, ks, now)
  {
    if ks != [] { SameDueKeys(s, t, ks[1..], now); }
  }

  lemma {:induction false} SweepFromTells(cfg: Config, s: Kv, ks: seq<Key>, i: nat, now: int)
    requires Sound(cfg, s.core, s.generation) && !Over(cfg, s.core) && s.frames == [] && i <= |ks| && Distinct(ks)
    ensures var t := SweepFrom(cfg, s, ks, i, now).0;
      && t.delivered == s.delivered + DueKeys(s, ks[i..], now)
      && t.core.expiries == s.core.expiries + |DueKeys(s, ks[i..], now)|
    decreases |ks| - i
  {
    hide Sound, Step, Expire, Over;
    if i < |ks| {
      var rest := ks[i..];
      assert rest[0] == ks[i] && rest[1..] == ks[i + 1..];
      DueSteps(cfg, s, ks[i], now);
      var t := Settle(cfg, s, ks[i], now);
      StepSound(cfg, s, t);
      ExpireCounts(cfg, s, ks[i]);
      DiscardShows(cfg, s, ks[i]);
      SameDueKeys(s, t, ks[i + 1..], now);
      SweepFromTells(cfg, t, ks, i + 1, now);
    } else {
      assert s.delivered + [] == s.delivered;
    }
  }

  /** A sweep outside frames tells exactly the keys whose deadline has passed, each once. */
  lemma SweepTells(cfg: Config, s: Kv, now: int)
    requires Inv(cfg, s) && s.frames == []
    ensures var t := DoSweep(cfg, s, now).0;
      var told := DueKeys(s, KeysOf(s.core.expiring), now);
      && t.delivered == s.delivered + told && t.core.expiries == s.core.expiries + |told|
      && Distinct(told) && forall k :: k in told <==> EntryAt(s, k).Some? && !Live(s, k, now)
  {
    hide SweepFrom, DueKeys, Get;
    var ks := KeysOf(s.core.expiring);
    SweepFromTells(cfg, s, ks, 0, now);
    assert ks[0..] == ks;
    DueKeysAre(s, ks, now);
    forall k | EntryAt(s, k).Some? && !Live(s, k, now) ensures k in ks { DatedKey(cfg, s, k); }
  }

  lemma {:induction false} DueKeysAre(s: Kv, ks: seq<Key>, now: int)
    requires Distinct(ks)
    ensures Distinct(DueKeys(s, ks, now))
    ensures forall k :: k in DueKeys(s, ks, now) <==> k in ks && EntryAt(s, k).Some? && !Live(s, k, now)
  {
    hide Get;
    if ks != [] {
      DueKeysAre(s, ks[1..], now);
      assert ks == [ks[0]] + ks[1..];
    }
  }
}
