/** What every cache operation keeps, and how versions, entries and patches move together. */
module CacheInvariant {
  import opened Decimals
  import opened ItemLists
  import opened Json
  import opened CacheModel

  // ---- the invariant ----

  function Total(entries: Items<Key, Entry>): int {
    if entries == [] then 0 else Total(entries[..|entries| - 1]) + entries[|entries| - 1].1.size
  }

  ghost predicate EntryOk(cfg: Config, k: Key, e: Entry) {
    e.size == SizeOf(k, e.value) && Fits(cfg, k, e.value) && Clones(e.value, cfg.maxValueBytes)
  }

  function DeadlineOf(e: Option<Entry>): Option<int> {
    if e.Some? then e.value.expiresAt else None
  }

  function VersionCap(cfg: Config): nat { cfg.maxEntries * 2 + 1024 }

  ghost predicate Versioned(cfg: Config, c: Core, generation: int) {
    && DistinctKeys(c.versions) && |c.versions| <= Max(VersionCap(cfg), |c.entries|)
    && (forall k :: Get(c.versions, k).Some? ==> Get(c.versions, k).value <= generation)
    && c.absentEpoch <= generation
  }

  /** Bytes are the sum of entry sizes, the expiring list is exactly the entries with a
      deadline, every live key has a version, tombstones are bounded. */
  ghost predicate Sound(cfg: Config, c: Core, generation: int) {
    && DistinctKeys(c.entries) && DistinctKeys(c.expiring)
    && c.bytes == Total(c.entries)
    && (forall k :: Get(c.entries, k).Some? ==> EntryOk(cfg, k, Get(c.entries, k).value))
    && (forall k :: Get(c.expiring, k) == DeadlineOf(Get(c.entries, k)))
    && Versioned(cfg, c, generation)
    && forall k :: Has(c.entries, k) ==> Has(c.versions, k)
  }

  /** What holds between public calls: the capacity limits too, in every open frame. */
  ghost predicate Inv(cfg: Config, s: Kv) {
    && Sound(cfg, s.core, s.generation) && !Over(cfg, s.core)
    && forall i :: 0 <= i < |s.frames| ==>
         Sound(cfg, s.frames[i].core, s.generation) && !Over(cfg, s.frames[i].core)
  }

  /** Each key's version is new, or neither its version nor its entry has moved. */
  ghost predicate Fresh(s: Kv, t: Kv) {
    && s.generation <= t.generation
    && forall k :: Version(t, k) > s.generation || (Version(t, k) == Version(s, k) && EntryAt(t, k) == EntryAt(s, k))
  }

  /** Every key whose entry moved is noted, once, in every open change set. */
  ghost predicate Noted(cfg: Config, s: Kv, t: Kv) {
    && |t.changes| == |s.changes|
    && (forall i :: 0 <= i < |s.changes| ==> s.changes[i] <= t.changes[i])
    && (forall i :: 0 <= i < |s.changes| && Distinct(s.changes[i]) ==> Distinct(t.changes[i]))
    && (forall k, i :: 0 <= i < |t.changes| && k in t.changes[i] ==> k in s.changes[i] || KeyFits(cfg, k))
    && forall k, i :: 0 <= i < |t.changes| && EntryAt(t, k) != EntryAt(s, k) ==> k in t.changes[i]
  }

  /** Open frames stay as saved; events gather in the innermost, or are delivered when none is open. */
  ghost predicate FramesKept(s: Kv, t: Kv) {
    && |t.frames| == |s.frames|
    && (forall i :: 0 <= i < |s.frames| ==> t.frames[i].core == s.frames[i].core)
    && (forall i :: 0 <= i < |s.frames| - 1 ==> t.frames[i] == s.frames[i])
    && s.delivered <= t.delivered && (s.frames != [] ==> t.delivered == s.delivered)
  }

  ghost predicate Step(cfg: Config, s: Kv, t: Kv) {
    Sound(cfg, t.core, t.generation) && Fresh(s, t) && Noted(cfg, s, t) && FramesKept(s, t)
  }

  lemma StepSound(cfg: Config, s: Kv, t: Kv)
    requires Step(cfg, s, t)
    ensures Sound(cfg, t.core, t.generation) && s.generation <= t.generation
  {
  }

  lemma StepTrans(cfg: Config, s: Kv, t: Kv, u: Kv)
    requires Step(cfg, s, t) && Step(cfg, t, u)
    ensures Step(cfg, s, u)
  {
    assert forall i :: 0 <= i < |s.changes| ==> s.changes[i] <= t.changes[i] <= u.changes[i];
    forall k, i | 0 <= i < |u.changes| && EntryAt(u, k) != EntryAt(s, k) ensures k in u.changes[i] {
      assert EntryAt(u, k) != EntryAt(t, k) || EntryAt(t, k) != EntryAt(s, k);
    }
  }

  // ---- versions and pruning ----

  lemma PruneKeeps(vs: Items<Key, int>, entries: Items<Key, Entry>, cap: nat, i: nat)
    requires DistinctKeys(vs) && i <= |vs|
    requires forall j :: 0 <= j < i ==> Has(entries, vs[j].0)
    ensures var r := Prune(vs, entries, cap, i);
      && DistinctKeys(r) && |r| <= |vs| && (|r| == |vs| ==> r == vs)
      && (forall k :: Get(r, k) == Get(vs, k) || (Get(r, k) == None && !Has(entries, k)))
      && (|r| <= cap || forall j :: 0 <= j < |r| ==> Has(entries, r[j].0))
    decreases |vs| - i
  {
    if i < |vs| {
      if !Has(entries, vs[i].0) {
        var rest := RemoveAt(vs, i);
        forall k ensures Get(rest, k) == Get(vs, k) || (Get(rest, k) == None && !Has(entries, k)) {
          GetRemoveAt(vs, i, k);
        }
        GetRemoveAt(vs, i, vs[i].0);
        assert forall j :: 0 <= j < i ==> rest[j] == vs[j];
        if |rest| > cap {
          PruneKeeps(rest, entries, cap, i);
        }
      } else if |vs| > cap {
        PruneKeeps(vs, entries, cap, i + 1);
      }
    }
  }

  /** A bump drops nothing but tombstones, and then the count is back within bounds. */
  lemma KeptVersions(cfg: Config, s: Kv, k: Key)
    requires DistinctKeys(s.core.versions) && DistinctKeys(s.core.entries)
    ensures var vs, kept := Put(s.core.versions, k, s.generation + 1), Bump(cfg, s, k).core.versions;
      && DistinctKeys(kept) && |kept| <= Max(VersionCap(cfg), |s.core.entries|)
      && |kept| <= |vs| && (|kept| == |vs| ==> kept == vs)
      && (forall q :: Get(kept, q) == Get(vs, q) || (Get(kept, q) == None && !Has(s.core.entries, q)))
  {
    hide Put, Prune, GetFrom, FindFrom;
    var vs := Put(s.core.versions, k, s.generation + 1);
    GetPut(s.core.versions, k, s.generation + 1, k);
    if |vs| > VersionCap(cfg) {
      var kept := Prune(vs, s.core.entries, cfg.maxEntries + 512, 0);
      PruneKeeps(vs, s.core.entries, cfg.maxEntries + 512, 0);
      if |kept| > cfg.maxEntries + 512 {
        MoreKeys(kept, s.core.entries);
      }
    }
  }

  lemma BumpKeeps(cfg: Config, s: Kv, k: Key)
    requires DistinctKeys(s.core.versions) && DistinctKeys(s.core.entries) && s.core.absentEpoch <= s.generation
    requires forall q :: Get(s.core.versions, q).Some? ==> Get(s.core.versions, q).value <= s.generation
    ensures var t := Bump(cfg, s, k);
      && Versioned(cfg, t.core, t.generation) && Version(t, k) == t.generation
      && (forall q :: Has(s.core.entries, q) && (q == k || Has(s.core.versions, q)) ==> Has(t.core.versions, q))
      && (forall q :: q != k ==> Version(t, q) == t.generation || Version(t, q) == Version(s, q))
  {
    KeptVersions(cfg, s, k);
    var vs, t := Put(s.core.versions, k, s.generation + 1), Bump(cfg, s, k);
    assert t.core.absentEpoch == if |t.core.versions| < |vs| then t.generation else s.core.absentEpoch;
    forall q ensures Has(s.core.entries, q) && (q == k || Has(s.core.versions, q)) ==> Has(t.core.versions, q)
             ensures Get(t.core.versions, q).Some? ==> Get(t.core.versions, q).value <= t.generation
             ensures q != k ==> Version(t, q) == t.generation || Version(t, q) == Version(s, q)
    {
      GetPut(s.core.versions, k, t.generation, q);
      assert Get(t.core.versions, q) == Get(vs, q) || (Get(t.core.versions, q) == None && !Has(s.core.entries, q));
    }
    GetPut(s.core.versions, k, t.generation, k);
    assert Get(t.core.versions, k) == Get(vs, k) || Get(t.core.versions, k) == None;
  }

  /** Below the cap nothing is pruned, and no version moves but that of the bumped key. */
  lemma BumpMovesOne(cfg: Config, s: Kv, k: Key)
    requires DistinctKeys(s.core.versions) && |s.core.versions| < VersionCap(cfg)
    ensures var t := Bump(cfg, s, k);
      && Version(t, k) == s.generation + 1 && t.core.absentEpoch == s.core.absentEpoch
      && forall q :: q != k ==> Version(t, q) == Version(s, q)
  {
    hide Prune, GetFrom;
    GetPut(s.core.versions, k, s.generation + 1, k);
    forall q | q != k ensures Version(Bump(cfg, s, k), q) == Version(s, q) {
      GetPut(s.core.versions, k, s.generation + 1, q);
    }
  }

  // ---- which tombstones go ----

  /** The pairs of vs whose keys have an entry. */
  function Living(vs: Items<Key, int>, entries: Items<Key, Entry>): Items<Key, int> {
    if vs == [] then []
    else Living(vs[..|vs| - 1], entries) + if Has(entries, vs[|vs| - 1].0) then [vs[|vs| - 1]] else []
  }

  lemma {:induction false} LivingAppend(a: Items<Key, int>, b: Items<Key, int>, entries: Items<Key, Entry>)
    ensures Living(a + b, entries) == Living(a, entries) + Living(b, entries)
  {
    if b == [] {
      assert a + b == a;
    } else {
      var n := |b| - 1;
      LivingAppend(a, b[..n], entries);
      assert (a + b)[..|a + b| - 1] == a + b[..n];
    }
  }

  lemma {:induction false} LivingAll(a: Items<Key, int>, entries: Items<Key, Entry>)
    requires forall j :: 0 <= j < |a| ==> Has(entries, a[j].0)
    ensures Living(a, entries) == a
  {
    if a != [] { LivingAll(a[..|a| - 1], entries); }
  }

  /** A tombstone in the prefix makes no difference to what stays of it. */
  lemma LivingWithout(vs: Items<Key, int>, i: nat, m: nat, entries: Items<Key, Entry>)
    requires i <= m < |vs| && !Has(entries, vs[i].0)
    ensures var rest := RemoveAt(vs, i);
      Living(vs[..m + 1], entries) == Living(rest[..m], entries) && rest[m..] == vs[m + 1..]
  {
    hide Living;
    var a, x, b := vs[..i], [vs[i]], vs[i + 1..m + 1];
    assert RemoveAt(vs, i)[..m] == a + b && vs[..m + 1] == a + x + b;
    LivingAppend(a + x, b, entries);
    LivingAppend(a, x, entries);
    LivingAppend(a, b, entries);
    LivingOne(vs[i], entries);
  }

  /** Pruning takes the tombstones of a prefix of the list, the oldest, and stops as soon as it may. */
  lemma {:induction false} PruneOldest(vs: Items<Key, int>, entries: Items<Key, Entry>, cap: nat, i: nat)
      returns (n: nat)
    requires i <= |vs| && forall j :: 0 <= j < i ==> Has(entries, vs[j].0)
    ensures i <= n <= |vs|
    ensures var r := Prune(vs, entries, cap, i);
      r == Living(vs[..n], entries) + vs[n..] && (|r| >= cap || |r| >= |vs| - 1)
    decreases |vs| - i
  {
    hide GetFrom, Living;
    n := i;
    LivingAll(vs[..i], entries);
    assert vs == vs[..i] + vs[i..];
    if i < |vs| && Has(entries, vs[i].0) {
      if |vs| > cap { n := PruneOldest(vs, entries, cap, i + 1); }
    } else if i < |vs| {
      var rest := RemoveAt(vs, i);
      var m := i;
      LivingAll(rest[..i], entries);
      if |rest| > cap { m := PruneOldest(rest, entries, cap, i); }
      LivingWithout(vs, i, m, entries);
      n := m + 1;
      assert rest == rest[..i] + rest[i..];
    }
  }

  lemma LivingOne(x: (Key, int), entries: Items<Key, Entry>)
    ensures Living([x], entries) == if Has(entries, x.0) then [x] else []
  {
    assert [x][..0] == [] && Living([], entries) == [];
  }

  // ---- byte totals ----

  lemma TotalAppend(a: Items<Key, Entry>, b: Items<Key, Entry>)
    ensures Total(a + b) == Total(a) + Total(b)
  {
    if b == [] {
      assert a + b == a;
    } else {
      var n := |b| - 1;
      TotalAppend(a, b[..n]);
      assert (a + b)[..|a + b| - 1] == a + b[..n];
    }
  }

  lemma TotalOne(k: Key, e: Entry)
    ensures Total([(k, e)]) == e.size
  {
  }

  lemma TotalRemoveAt(a: Items<Key, Entry>, i: nat)
    requires i < |a|
    ensures Total(RemoveAt(a, i)) == Total(a) - a[i].1.size
  {
    hide Total;
    TotalAppend(a[..i], a[i + 1..]);
    TotalAppend(a[..i] + [a[i]], a[i + 1..]);
    TotalAppend(a[..i], [a[i]]);
    assert a == a[..i] + [a[i]] + a[i + 1..];
    TotalOne(a[i].0, a[i].1);
  }

  lemma TotalRemove(a: Items<Key, Entry>, k: Key)
    ensures Total(Remove(a, k)) == Total(a) - match Get(a, k) case Some(e) => e.size case None => 0
  {
    GetFind(a, k);
    if Has(a, k) {
      TotalRemoveAt(a, Find(a, k));
    }
  }

  // ---- the composite steps ----

  /** The state just before the bump that ends a change of k's entry. */
  ghost predicate Changing(cfg: Config, s: Kv, m: Kv, k: Key) {
    && m.generation == s.generation && m.frames == s.frames && m.changes == s.changes && m.delivered == s.delivered
    && m.core.versions == s.core.versions && m.core.absentEpoch == s.core.absentEpoch
    && DistinctKeys(m.core.entries) && DistinctKeys(m.core.expiring)
    && m.core.bytes == Total(m.core.entries)
    && (forall q :: q != k ==> Get(m.core.entries, q) == Get(s.core.entries, q))
    && (Has(m.core.entries, k) ==> EntryOk(cfg, k, Get(m.core.entries, k).value))
    && (forall q :: Get(m.core.expiring, q) == DeadlineOf(Get(m.core.entries, q)))
  }

  lemma ChangeSteps(cfg: Config, s: Kv, m: Kv, k: Key)
    requires Sound(cfg, s.core, s.generation) && Changing(cfg, s, m, k) && KeyFits(cfg, k)
    ensures Step(cfg, s, Bump(cfg, m, k))
    ensures Version(Bump(cfg, m, k), k) > s.generation
  {
    BumpKeeps(cfg, m, k);
    var t := Bump(cfg, m, k);
    assert t.core.entries == m.core.entries && t.core.expiring == m.core.expiring;
    forall q
      ensures Version(t, q) > s.generation || (Version(t, q) == Version(s, q) && EntryAt(t, q) == EntryAt(s, q)) {
      assert Version(m, q) == Version(s, q);
    }
    assert forall i :: 0 <= i < |s.changes| ==> t.changes[i] == Adjoin(s.changes[i], k);
  }

  lemma DiscardSteps(cfg: Config, s: Kv, k: Key)
    requires Sound(cfg, s.core, s.generation)
    ensures Step(cfg, s, Discard(cfg, s, k))
    ensures Discard(cfg, s, k).core.entries == Remove(s.core.entries, k)
    ensures EntryAt(Discard(cfg, s, k), k) == None
  {
    RemoveAbsent(s.core.entries, k);
    GetRemove(s.core.entries, k, k);
    if Has(s.core.entries, k) {
      var m := s.(core := RemoveEntry(s.core, k).(bytes := s.core.bytes - Get(s.core.entries, k).value.size));
      forall q ensures q != k ==> Get(m.core.entries, q) == Get(s.core.entries, q)
               ensures Get(m.core.expiring, q) == DeadlineOf(Get(m.core.entries, q)) {
        GetRemove(s.core.entries, k, q);
        GetRemove(s.core.expiring, k, q);
      }
      GetRemove(s.core.expiring, k, k);
      TotalRemove(s.core.entries, k);
      ChangeSteps(cfg, s, m, k);
    }
  }

  lemma StoreSteps(cfg: Config, s: Kv, k: Key, e: Entry)
    requires Sound(cfg, s.core, s.generation) && EntryOk(cfg, k, e)
    ensures Step(cfg, s, Store(cfg, s, k, e)) && Version(Store(cfg, s, k, e), k) > s.generation
    ensures Store(cfg, s, k, e).core.entries == Remove(s.core.entries, k) + [(k, e)]
    ensures EntryAt(Store(cfg, s, k, e), k) == Some(e)
  {
    var freed := match EntryAt(s, k) case Some(was) => was.size case None => 0;
    var c := RemoveEntry(s.core, k);
    var d := PutEntry(c, k, e);
    var m := s.(core := d.(bytes := s.core.bytes - freed + e.size));
    RemoveAbsent(s.core.entries, k);
    GetRemove(s.core.entries, k, k);
    GetRemove(s.core.expiring, k, k);
    GetFind(c.entries, k);
    assert d.entries == Remove(s.core.entries, k) + [(k, e)];
    TotalRemove(s.core.entries, k);
    TotalAppend(Remove(s.core.entries, k), [(k, e)]);
    forall q ensures Get(d.entries, q) == if q == k then Some(e) else Get(s.core.entries, q)
             ensures Get(d.expiring, q) == DeadlineOf(Get(d.entries, q)) {
      StoredAt(s.core, k, e, q);
    }
    StoredAt(s.core, k, e, k);
    ChangeSteps(cfg, s, m, k);
  }

  lemma StoredAt(c: Core, k: Key, e: Entry, q: Key)
    requires DistinctKeys(c.entries) && DistinctKeys(c.expiring)
    requires forall q :: Get(c.expiring, q) == DeadlineOf(Get(c.entries, q))
    ensures var d := PutEntry(RemoveEntry(c, k), k, e);
      && DistinctKeys(d.entries) && DistinctKeys(d.expiring)
      && Get(d.entries, q) == (if q == k then Some(e) else Get(c.entries, q))
      && Get(d.expiring, q) == DeadlineOf(Get(d.entries, q))
  {
    var b := RemoveEntry(c, k);
    RemoveAbsent(c.entries, k);
    RemoveAbsent(c.expiring, k);
    GetRemove(c.entries, k, q);
    GetRemove(c.expiring, k, q);
    assert b == c.(entries := Remove(c.entries, k), expiring := Remove(c.expiring, k));
    GetPut(b.entries, k, e, q);
    GetRemove(b.expiring, k, q);
    if e.expiresAt.Some? {
      GetPut(b.expiring, k, e.expiresAt.value, q);
    }
  }

  lemma StepRefl(cfg: Config, s: Kv)
    requires Sound(cfg, s.core, s.generation)
    ensures Step(cfg, s, s)
  {
  }

  ghost predicate CountersOnly(t: Kv, u: Kv) {
    u == t.(core := t.core.(hits := u.core.hits, misses := u.core.misses,
                            evictions := u.core.evictions, expiries := u.core.expiries))
  }

  lemma CountSteps(cfg: Config, s: Kv, t: Kv, u: Kv)
    requires Step(cfg, s, t) && CountersOnly(t, u)
    ensures Step(cfg, s, u)
  {
    assert forall q :: EntryAt(u, q) == EntryAt(t, q) && Version(u, q) == Version(t, q);
  }

  lemma ExpireSteps(cfg: Config, s: Kv, k: Key)
    requires Sound(cfg, s.core, s.generation)
    ensures Step(cfg, s, Expire(cfg, s, k))
    ensures Expire(cfg, s, k).core.entries == Remove(s.core.entries, k) && EntryAt(Expire(cfg, s, k), k) == None
  {
    hide Step, Sound, GetFrom, Discard;
    DiscardSteps(cfg, s, k);
    var t := Discard(cfg, s, k);
    var u := t.(core := t.core.(expiries := t.core.expiries + 1));
    CountSteps(cfg, s, t, u);
    NotifySteps(cfg, s, u, k);
  }

  lemma NotifySteps(cfg: Config, s: Kv, t: Kv, k: Key)
    requires Step(cfg, s, t)
    ensures Step(cfg, s, Notify(t, k))
  {
    var u := Notify(t, k);
    assert u.core == t.core && u.generation == t.generation && u.changes == t.changes;
    assert forall q :: EntryAt(u, q) == EntryAt(t, q) && Version(u, q) == Version(t, q);
  }

  // ---- eviction ----

  predicate TooBig(cfg: Config, entries: Items<Key, Entry>) {
    |entries| > cfg.maxEntries || Total(entries) > cfg.maxBytes
  }

  lemma EvictOldestSteps(cfg: Config, s: Kv, clock: Option<int>)
    requires Sound(cfg, s.core, s.generation) && s.core.entries != []
    ensures Step(cfg, s, EvictOldest(cfg, s, clock))
    ensures EvictOldest(cfg, s, clock).core.entries == s.core.entries[1..]
  {
    hide Step, Sound, Discard, Expire;
    var (k, e) := s.core.entries[0];
    assert DistinctKeys(s.core.entries) by { SoundKeys(cfg, s); }
    FindIs(s.core.entries, 0);
    GetIs(s.core.entries, 0);
    if clock.Some? && Due(e, clock.value) {
      ExpireSteps(cfg, s, k);
    } else {
      var u := s.(core := s.core.(evictions := s.core.evictions + 1));
      StepRefl(cfg, s);
      CountSteps(cfg, s, s, u);
      StepSound(cfg, s, u);
      DiscardSteps(cfg, u, k);
      StepTrans(cfg, s, u, Discard(cfg, u, k));
      assert EvictOldest(cfg, s, clock) == Discard(cfg, u, k) by { EvictedIsDiscarded(cfg, s, u, clock); }
    }
  }

  lemma SoundKeys(cfg: Config, s: Kv)
    requires Sound(cfg, s.core, s.generation)
    ensures DistinctKeys(s.core.entries)
  {
  }

  lemma EvictedIsDiscarded(cfg: Config, s: Kv, u: Kv, clock: Option<int>)
    requires s.core.entries != [] && Get(s.core.entries, s.core.entries[0].0) == Some(s.core.entries[0].1)
    requires !(clock.Some? && Due(s.core.entries[0].1, clock.value))
    requires u == s.(core := s.core.(evictions := s.core.evictions + 1))
    ensures EvictOldest(cfg, s, clock) == Discard(cfg, u, s.core.entries[0].0)
  {
    hide Bump;
  }

  /** ts is es less the shortest prefix whose removal brings both limits back. */
  ghost predicate ShortestShed(cfg: Config, es: Items<Key, Entry>, ts: Items<Key, Entry>) {
    && |ts| <= |es| && ts == es[|es| - |ts|..]
    && (TooBig(cfg, ts) ==> ts == [])
    && forall m :: 0 <= m < |es| - |ts| ==> TooBig(cfg, es[m..])
  }

  lemma ShedOne(cfg: Config, es: Items<Key, Entry>, ts: Items<Key, Entry>)
    requires es != [] && TooBig(cfg, es) && ShortestShed(cfg, es[1..], ts)
    ensures ShortestShed(cfg, es, ts)
  {
    hide TooBig;
    assert es[0..] == es;
    assert ts == es[|es| - |ts|..];
    forall m | 0 <= m < |es| - |ts| ensures TooBig(cfg, es[m..]) {
      if m > 0 {
        assert es[m..] == es[1..][m - 1..];
      }
    }
  }

  lemma ShedNone(cfg: Config, es: Items<Key, Entry>)
    requires es == [] || !TooBig(cfg, es)
    ensures ShortestShed(cfg, es, es)
  {
    assert es[0..] == es;
  }

  /** Eviction drops the shortest least recently used prefix that brings both limits back. */
  lemma {:induction false} EvictShortest(cfg: Config, s: Kv, clock: Option<int>)
    requires Sound(cfg, s.core, s.generation)
    ensures Step(cfg, s, Evict(cfg, s, clock)) && !Over(cfg, Evict(cfg, s, clock).core)
    ensures ShortestShed(cfg, s.core.entries, Evict(cfg, s, clock).core.entries)
    decreases |s.core.entries|
  {
    hide Step, Total, ShortestShed;
    if Over(cfg, s.core) && s.core.entries != [] {
      var u := EvictOldest(cfg, s, clock);
      EvictOldestSteps(cfg, s, clock);
      StepSound(cfg, s, u);
      EvictShortest(cfg, u, clock);
      StepTrans(cfg, s, u, Evict(cfg, u, clock));
      ShedOne(cfg, s.core.entries, Evict(cfg, u, clock).core.entries);
    } else {
      StepRefl(cfg, s);
      if s.core.entries == [] {
        EmptyFits(cfg, s.core);
      }
      ShedNone(cfg, s.core.entries);
    }
  }

  lemma EmptyFits(cfg: Config, c: Core)
    requires c.entries == [] && c.bytes == Total(c.entries)
    ensures !Over(cfg, c)
  {
  }

  /** The entry just written is never the one evicted. */
  lemma WrittenStays(cfg: Config, s: Kv, k: Key, e: Entry, clock: Option<int>)
    requires Configured(cfg) && Sound(cfg, s.core, s.generation) && EntryOk(cfg, k, e)
    ensures var t := Evict(cfg, Store(cfg, s, k, e), clock);
      && Step(cfg, s, t) && !Over(cfg, t.core) && EntryAt(t, k) == Some(e) && Version(t, k) > s.generation
      && t.core.entries != [] && t.core.entries[|t.core.entries| - 1] == (k, e)
  {
    hide Step;
    StoreSteps(cfg, s, k, e);
    var u := Store(cfg, s, k, e);
    StepSound(cfg, s, u);
    EvictShortest(cfg, u, clock);
    var t := Evict(cfg, u, clock);
    StepTrans(cfg, s, u, t);
    StepSound(cfg, s, t);
    VersionStays(cfg, u, t, k);
    LastStays(cfg, u.core.entries, t.core.entries, k, e);
  }

  lemma VersionStays(cfg: Config, s: Kv, t: Kv, k: Key)
    requires Step(cfg, s, t)
    ensures Version(t, k) >= Version(s, k) || Version(t, k) > s.generation
  {
  }

  lemma LastStays(cfg: Config, es: Items<Key, Entry>, ts: Items<Key, Entry>, k: Key, e: Entry)
    requires Configured(cfg) && e.size <= cfg.maxBytes && |ts| <= |es| && es != [] && es[|es| - 1] == (k, e)
    requires ShortestShed(cfg, es, ts) && DistinctKeys(ts)
    ensures ts != [] && ts[|ts| - 1] == (k, e) && Get(ts, k) == Some(e)
  {
    if ts == [] {
      assert es[|es| - 1..] == [(k, e)];
      TotalOne(k, e);
      assert false;
    }
    GetIs(ts, |ts| - 1);
  }

  // ---- every operation ----

  ghost predicate Kept(cfg: Config, s: Kv, t: Kv) {
    Step(cfg, s, t) && !Over(cfg, t.core)
  }

  lemma DueSteps(cfg: Config, s: Kv, k: Key, now: int)
    requires Sound(cfg, s.core, s.generation) && !Over(cfg, s.core)
    ensures Kept(cfg, s, Settle(cfg, s, k, now))
  {
    hide Step, Sound;
    StepRefl(cfg, s);
    ExpireSteps(cfg, s, k);
    DiscardFits(cfg, s, k);
  }

  lemma DiscardFits(cfg: Config, s: Kv, k: Key)
    requires Sound(cfg, s.core, s.generation) && !Over(cfg, s.core)
    ensures !Over(cfg, Discard(cfg, s, k).core) && !Over(cfg, Expire(cfg, s, k).core)
  {
  }

  lemma TouchSteps(cfg: Config, s: Kv, k: Key)
    requires Sound(cfg, s.core, s.generation) && !Over(cfg, s.core) && Has(s.core.entries, k)
    ensures var e := EntryAt(s, k).value;
      var c := PutEntry(RemoveEntry(s.core, k), k, e);
      var t := s.(core := c.(hits := c.hits + 1));
      && Step(cfg, s, t) && !Over(cfg, t.core)
      && t.core.entries == Remove(s.core.entries, k) + [(k, e)]
  {
    hide GetFrom, FindFrom, Total;
    var e := EntryAt(s, k).value;
    var b := RemoveEntry(s.core, k);
    var c := PutEntry(b, k, e);
    var t := s.(core := c.(hits := c.hits + 1));
    GetRemove(s.core.entries, k, k);
    GetFind(s.core.entries, k);
    GetFind(b.entries, k);
    TotalRemove(s.core.entries, k);
    TotalAppend(b.entries, [(k, e)]);
    TotalOne(k, e);
    forall q ensures EntryAt(t, q) == EntryAt(s, q) && Version(t, q) == Version(s, q)
             ensures Get(t.core.expiring, q) == DeadlineOf(Get(t.core.entries, q)) {
      StoredAt(s.core, k, e, q);
    }
    StoredAt(s.core, k, e, k);
  }

  lemma GetSteps(cfg: Config, s: Kv, k: Key, now: int)
    requires Sound(cfg, s.core, s.generation) && !Over(cfg, s.core)
    ensures Kept(cfg, s, DoGet(cfg, s, k, now).0)
  {
    hide Step, Sound;
    StepRefl(cfg, s);
    if KeyFits(cfg, k) {
      match EntryAt(s, k)
      case None => CountSteps(cfg, s, s, Missed(s));
      case Some(e) =>
        if Due(e, now) {
          ExpireSteps(cfg, s, k);
          DiscardFits(cfg, s, k);
          CountSteps(cfg, s, Expire(cfg, s, k), Missed(Expire(cfg, s, k)));
        } else {
          TouchSteps(cfg, s, k);
        }
    }
  }

  lemma SetOwnedSteps(cfg: Config, s: Kv, k: Key, v: Value, at: Option<int>, now: int)
    requires Configured(cfg) && Sound(cfg, s.core, s.generation) && !Over(cfg, s.core)
    requires Fits(cfg, k, v) ==> Clones(v, cfg.maxValueBytes)
    ensures Kept(cfg, s, SetOwned(cfg, s, k, v, at, now).0)
  {
    hide Step, Sound;
    StepRefl(cfg, s);
    if Fits(cfg, k, v) {
      if at.Some? && at.value <= now {
        DiscardSteps(cfg, s, k);
        DiscardFits(cfg, s, k);
        CountSteps(cfg, s, Discard(cfg, s, k), SetOwned(cfg, s, k, v, at, now).0);
      } else {
        WrittenStays(cfg, s, k, Entry(v, at, SizeOf(k, v)), Some(now));
      }
    }
  }

  lemma MSetSteps(cfg: Config, s: Kv, bs: seq<Batch>, i: nat, now: int)
    requires Configured(cfg) && Sound(cfg, s.core, s.generation) && !Over(cfg, s.core) && i <= |bs|
    requires forall j :: 0 <= j < |bs| ==> BatchFits(cfg, bs[j], now)
    ensures Kept(cfg, s, MSetFrom(cfg, s, bs, i, now))
    decreases |bs| - i
  {
    hide Step, Sound, SetOwned;
    if i == |bs| {
      StepRefl(cfg, s);
    } else {
      assert BatchFits(cfg, bs[i], now);
      var at := Deadline(cfg, bs[i].key, bs[i].ttl, now).value;
      var t := SetOwned(cfg, s, bs[i].key, bs[i].value, at, now).0;
      SetOwnedSteps(cfg, s, bs[i].key, bs[i].value, at, now);
      StepSound(cfg, s, t);
      MSetSteps(cfg, t, bs, i + 1, now);
      StepTrans(cfg, s, t, MSetFrom(cfg, s, bs, i, now));
    }
  }

  lemma ClearFromSteps(cfg: Config, s: Kv, ks: seq<Key>, i: nat, prefix: Str)
    requires Sound(cfg, s.core, s.generation) && !Over(cfg, s.core) && i <= |ks|
    ensures Kept(cfg, s, ClearFrom(cfg, s, ks, i, prefix))
    decreases |ks| - i
  {
    hide Step, Sound;
    StepRefl(cfg, s);
    if i < |ks| {
      DiscardSteps(cfg, s, ks[i]);
      DiscardFits(cfg, s, ks[i]);
      var t := if InNamespace(ks[i], prefix) then Discard(cfg, s, ks[i]) else s;
      StepSound(cfg, s, t);
      ClearFromSteps(cfg, t, ks, i + 1, prefix);
      StepTrans(cfg, s, t, ClearFrom(cfg, s, ks, i, prefix));
    }
  }

  lemma SweepSteps(cfg: Config, s: Kv, ks: seq<Key>, i: nat, now: int)
    requires Sound(cfg, s.core, s.generation) && !Over(cfg, s.core) && i <= |ks|
    ensures Kept(cfg, s, SweepFrom(cfg, s, ks, i, now).0)
    decreases |ks| - i
  {
    hide Step, Sound;
    StepRefl(cfg, s);
    if i < |ks| {
      DueSteps(cfg, s, ks[i], now);
      var t := Settle(cfg, s, ks[i], now);
      StepSound(cfg, s, t);
      SweepSteps(cfg, t, ks, i + 1, now);
      StepTrans(cfg, s, t, SweepFrom(cfg, s, ks, i, now).0);
    }
  }

  lemma IncrToSteps(cfg: Config, s: Kv, k: Key, n: int, at: Option<int>, now: int)
    requires Configured(cfg) && Sound(cfg, s.core, s.generation) && !Over(cfg, s.core)
    ensures Kept(cfg, s, IncrTo(cfg, s, k, n, at, now).0)
  {
    hide Step, Sound;
    StepRefl(cfg, s);
    if Fits(cfg, k, Num(n)) {
      WrittenStays(cfg, s, k, Entry(Num(n), at, SizeOf(k, Num(n))), Some(now));
    }
  }

  lemma IncrSteps(cfg: Config, s: Kv, k: Key, delta: int, now: int)
    requires Configured(cfg) && Sound(cfg, s.core, s.generation) && !Over(cfg, s.core)
    ensures Kept(cfg, s, DoIncr(cfg, s, k, delta, now).0)
  {
    hide Step, Sound, IncrTo, Settle, Over;
    StepRefl(cfg, s);
    if KeyFits(cfg, k) {
      DueSteps(cfg, s, k, now);
      var t := Settle(cfg, s, k, now);
      StepSound(cfg, s, t);
      var live := EntryAt(t, k);
      if live.None? || live.value.value.Num? {
        var n := if live.Some? then live.value.value.n + delta else delta;
        var at := if live.Some? then live.value.expiresAt else None;
        IncrToSteps(cfg, t, k, n, at, now);
        StepTrans(cfg, s, t, IncrTo(cfg, t, k, n, at, now).0);
      }
    }
  }

  lemma CasSteps(cfg: Config, s: Kv, k: Key, x: Option<Value>, v: Value, ttl: Option<int>, now: int)
    requires Configured(cfg) && Sound(cfg, s.core, s.generation) && !Over(cfg, s.core)
    ensures Kept(cfg, s, DoCas(cfg, s, k, x, v, ttl, now).0)
  {
    hide Step, Sound;
    StepRefl(cfg, s);
    DueSteps(cfg, s, k, now);
    var t := Settle(cfg, s, k, now);
    var u := DoCas(cfg, s, k, x, v, ttl, now).0;
    if u != s && u != t {
      StepSound(cfg, s, t);
      var live := EntryAt(t, k);
      var deadline := if ttl.Some? then Deadline(cfg, k, ttl, now)
                      else if live.Some? then Fine(live.value.expiresAt) else Deadline(cfg, k, None, now);
      CasToSteps(cfg, t, k, v, deadline, now);
      StepTrans(cfg, s, t, u);
    }
  }

  lemma CasToSteps(cfg: Config, s: Kv, k: Key, v: Value, deadline: Checked<Option<int>>, now: int)
    requires Configured(cfg) && Sound(cfg, s.core, s.generation) && !Over(cfg, s.core)
    requires Fits(cfg, k, v) && Clones(v, cfg.maxValueBytes)
    ensures Kept(cfg, s, CasTo(cfg, s, k, v, deadline, now).0)
  {
    hide Step, Sound;
    StepRefl(cfg, s);
    match deadline
    case Bad =>
    case Fine(at) =>
      if at.Some? && at.value <= now {
        DiscardSteps(cfg, s, k);
        DiscardFits(cfg, s, k);
        CountSteps(cfg, s, Discard(cfg, s, k), CasTo(cfg, s, k, v, deadline, now).0);
      } else {
        WrittenStays(cfg, s, k, Entry(v, at, SizeOf(k, v)), Some(now));
      }
  }

  lemma RestoreFromSteps(cfg: Config, s: Kv, ws: seq<Write>, i: nat, now: int)
    requires Sound(cfg, s.core, s.generation) && i <= |ws|
    requires forall j :: 0 <= j < |ws| ==> WriteFits(cfg, ws[j])
    ensures Step(cfg, s, RestoreFrom(cfg, s, ws, i, now))
    decreases |ws| - i
  {
    hide Step, Sound;
    StepRefl(cfg, s);
    if i < |ws| {
      var w := ws[i];
      assert WriteFits(cfg, w);
      var e := Entry(w.value, w.expiresAt, SizeOf(w.key, w.value));
      StoreSteps(cfg, s, w.key, e);
      var t := if w.expiresAt.Some? && w.expiresAt.value <= now then s else Store(cfg, s, w.key, e);
      StepSound(cfg, s, t);
      RestoreFromSteps(cfg, t, ws, i + 1, now);
      StepTrans(cfg, s, t, RestoreFrom(cfg, s, ws, i, now));
    }
  }

  lemma RestoreSteps(cfg: Config, s: Kv, ws: seq<Write>, now: int)
    requires Sound(cfg, s.core, s.generation) && !Over(cfg, s.core)
    ensures Kept(cfg, s, DoRestore(cfg, s, ws, now).0)
  {
    hide Step, Sound;
    StepRefl(cfg, s);
    if Restorable(cfg, ws) {
      RestoreFromSteps(cfg, s, ws, 0, now);
      var t := RestoreFrom(cfg, s, ws, 0, now);
      StepSound(cfg, s, t);
      EvictShortest(cfg, t, None);
      StepTrans(cfg, s, t, Evict(cfg, t, None));
    }
  }

  /** A new deadline never moves the byte total or the entry count. */
  lemma RedateSteps(cfg: Config, s: Kv, k: Key, at: Option<int>, now: int)
    requires Sound(cfg, s.core, s.generation) && !Over(cfg, s.core)
    ensures Kept(cfg, s, Redate(cfg, s, k, at, now).0)
  {
    hide Step;
    StepRefl(cfg, s);
    DueSteps(cfg, s, k, now);
    match EntryAt(s, k)
    case None =>
    case Some(e) =>
      if !Due(e, now) {
        StoreSteps(cfg, s, k, e.(expiresAt := at));
        GetFind(s.core.entries, k);
      }
  }

  // ---- clear ----

  lemma BumpFromSteps(cfg: Config, s: Kv, ks: seq<Key>, i: nat)
    requires Sound(cfg, s.core, s.generation) && i <= |ks|
    requires forall j :: 0 <= j < |ks| ==> KeyFits(cfg, ks[j])
    ensures var t := BumpFrom(cfg, s, ks, i);
      && Step(cfg, s, t)
      && t.core == s.core.(versions := t.core.versions, absentEpoch := t.core.absentEpoch)
      && (forall j :: i <= j < |ks| ==> Version(t, ks[j]) > s.generation)
      && (forall j, c :: i <= j < |ks| && 0 <= c < |t.changes| ==> ks[j] in t.changes[c])
    decreases |ks| - i
  {
    hide Step, Sound, Bump, Version;
    StepRefl(cfg, s);
    if i < |ks| {
      BumpSteps(cfg, s, ks[i]);
      var u := Bump(cfg, s, ks[i]);
      BumpFromSteps(cfg, u, ks, i + 1);
      var t := BumpFrom(cfg, s, ks, i);
      StepTrans(cfg, s, u, t);
      StepNotes(cfg, u, t);
      VersionStays(cfg, u, t, ks[i]);
      assert forall c :: 0 <= c < |t.changes| ==> ks[i] in u.changes[c] && u.changes[c] <= t.changes[c];
    }
  }

  /** A bump alone: no entry moves. */
  lemma BumpSteps(cfg: Config, s: Kv, k: Key)
    requires Sound(cfg, s.core, s.generation) && KeyFits(cfg, k)
    ensures var u := Bump(cfg, s, k);
      && Step(cfg, s, u) && Sound(cfg, u.core, u.generation)
      && Version(u, k) > s.generation && u.generation > s.generation
      && u.core == s.core.(versions := u.core.versions, absentEpoch := u.core.absentEpoch)
      && |u.changes| == |s.changes| && forall c :: 0 <= c < |u.changes| ==> k in u.changes[c]
  {
    hide Prune;
    ChangeSteps(cfg, s, s, k);
  }

  lemma StepNotes(cfg: Config, s: Kv, t: Kv)
    requires Step(cfg, s, t)
    ensures |t.changes| == |s.changes| && forall c :: 0 <= c < |s.changes| ==> s.changes[c] <= t.changes[c]
  {
  }

  lemma RemoveHead(c: Core)
    requires c.entries != [] && DistinctKeys(c.entries) && DistinctKeys(c.expiring)
    requires forall k :: Get(c.expiring, k) == DeadlineOf(Get(c.entries, k))
    ensures var d := RemoveEntry(c, c.entries[0].0);
      && d.entries == c.entries[1..] && DistinctKeys(d.entries) && DistinctKeys(d.expiring)
      && d == c.(entries := d.entries, expiring := d.expiring)
      && forall k :: Get(d.expiring, k) == DeadlineOf(Get(d.entries, k))
  {
    var h := c.entries[0].0;
    var d := RemoveEntry(c, h);
    FindIs(c.entries, 0);
    GetIs(c.entries, 0);
    assert d.entries == c.entries[1..];
    forall k ensures Get(d.expiring, k) == DeadlineOf(Get(d.entries, k)) {
      GetRemove(c.entries, h, k);
      GetRemove(c.expiring, h, k);
    }
    GetRemove(c.expiring, h, h);
  }

  lemma RemoveFromEmpties(c: Core, ks: seq<Key>, i: nat)
    requires i <= |ks| && DistinctKeys(c.entries) && DistinctKeys(c.expiring)
    requires forall k :: Get(c.expiring, k) == DeadlineOf(Get(c.entries, k))
    requires KeysOf(c.entries) == ks[i..]
    ensures RemoveFrom(c, ks, i) == c.(entries := [], expiring := [])
    decreases |ks| - i
  {
    if i < |ks| {
      assert ks[i] == ks[i..][0] == KeysOf(c.entries)[0];
      RemoveHead(c);
      assert KeysOf(RemoveEntry(c, ks[i]).entries) == ks[i + 1..];
      RemoveFromEmpties(RemoveEntry(c, ks[i]), ks, i + 1);
    } else {
      assert |KeysOf(c.entries)| == 0;
      if c.expiring != [] {
        GetIs(c.expiring, 0);
      }
    }
  }

  lemma ClearSteps(cfg: Config, s: Kv)
    requires Sound(cfg, s.core, s.generation) && !Over(cfg, s.core)
    ensures Kept(cfg, s, DoClear(cfg, s)) && DoClear(cfg, s).core.entries == []
  {
    var ks := KeysOf(s.core.entries);
    forall j | 0 <= j < |ks| ensures KeyFits(cfg, ks[j]) {
      GetIs(s.core.entries, j);
    }
    BumpFromSteps(cfg, s, ks, 0);
    var t := BumpFrom(cfg, s, ks, 0);
    assert ks[0..] == ks;
    RemoveFromEmpties(t.core, ks, 0);
    EmptiedSteps(cfg, s, t, ks);
  }

  /** All entries may go at once after each key's version has moved. */
  lemma EmptiedSteps(cfg: Config, s: Kv, t: Kv, ks: seq<Key>)
    requires Sound(cfg, s.core, s.generation) && ks == KeysOf(s.core.entries) && Step(cfg, s, t)
    requires t.core.entries == s.core.entries && |s.core.entries| <= cfg.maxEntries
    requires forall j :: 0 <= j < |ks| ==> Version(t, ks[j]) > s.generation
    requires forall j, c :: 0 <= j < |ks| && 0 <= c < |t.changes| ==> ks[j] in t.changes[c]
    ensures Step(cfg, s, t.(core := t.core.(entries := [], expiring := [], bytes := 0)))
  {
    var u := t.(core := t.core.(entries := [], expiring := [], bytes := 0));
    forall q ensures Version(u, q) > s.generation || (Version(u, q) == Version(s, q) && EntryAt(u, q) == EntryAt(s, q))
             ensures EntryAt(u, q) != EntryAt(s, q) ==> forall c :: 0 <= c < |u.changes| ==> q in u.changes[c] {
      assert Version(u, q) == Version(t, q) && EntryAt(t, q) == EntryAt(s, q);
      GetFind(s.core.entries, q);
      if Has(s.core.entries, q) {
        assert ks[Find(s.core.entries, q)] == q;
      }
    }
  }

  lemma SetSteps(cfg: Config, s: Kv, k: Key, v: Value, ttl: Option<int>, now: int)
    requires Configured(cfg) && Sound(cfg, s.core, s.generation) && !Over(cfg, s.core)
    ensures Kept(cfg, s, DoSet(cfg, s, k, v, ttl, now).0)
  {
    hide Step, Sound;
    StepRefl(cfg, s);
    if Clones(v, cfg.maxValueBytes) && Deadline(cfg, k, ttl, now).Fine? {
      SetOwnedSteps(cfg, s, k, v, Deadline(cfg, k, ttl, now).value, now);
    }
  }

  lemma DoMSetSteps(cfg: Config, s: Kv, bs: seq<Batch>, now: int)
    requires Configured(cfg) && Sound(cfg, s.core, s.generation) && !Over(cfg, s.core)
    ensures Kept(cfg, s, DoMSet(cfg, s, bs, now).0)
  {
    hide Step, Sound;
    StepRefl(cfg, s);
    if forall j :: 0 <= j < |bs| ==> BatchFits(cfg, bs[j], now) {
      MSetSteps(cfg, s, bs, 0, now);
    }
  }

  lemma DelSteps(cfg: Config, s: Kv, k: Key, now: int)
    requires Sound(cfg, s.core, s.generation) && !Over(cfg, s.core)
    ensures Kept(cfg, s, DoDel(cfg, s, k, now).0)
  {
    hide Step, Sound;
    StepRefl(cfg, s);
    ExpireSteps(cfg, s, k);
    DiscardSteps(cfg, s, k);
    DiscardFits(cfg, s, k);
  }

  lemma TtlSteps(cfg: Config, s: Kv, k: Key, now: int)
    requires Sound(cfg, s.core, s.generation) && !Over(cfg, s.core)
    ensures Kept(cfg, s, DoTtl(cfg, s, k, now).0)
  {
    hide Step, Sound;
    StepRefl(cfg, s);
    DiscardFits(cfg, s, k);
    CountSteps(cfg, s, s, Missed(s));
    ExpireSteps(cfg, s, k);
    CountSteps(cfg, s, Expire(cfg, s, k), Missed(Expire(cfg, s, k)));
  }

  lemma ExpireAtSteps(cfg: Config, s: Kv, k: Key, at: int, now: int)
    requires Sound(cfg, s.core, s.generation) && !Over(cfg, s.core)
    ensures Kept(cfg, s, DoExpireAt(cfg, s, k, at, now).0)
  {
    hide Step, Sound;
    StepRefl(cfg, s);
    RedateSteps(cfg, s, k, Some(at), now);
    ExpireSteps(cfg, s, k);
    DiscardFits(cfg, s, k);
  }

  /** An operation moves no saved frame and no generation backwards, so frames stay sound. */
  lemma StepInv(cfg: Config, s: Kv, t: Kv)
    requires Inv(cfg, s) && Step(cfg, s, t) && !Over(cfg, t.core)
    ensures Inv(cfg, t)
  {
  }

  /** Every operation, whatever it returns or throws, keeps the invariant; gives every key
      whose entry moved a version never seen before; notes it in every open change set; and
      leaves the states saved by open frames alone. */
  lemma RunSteps(cfg: Config, s: Kv, op: Op, now: int)
    requires Configured(cfg) && Inv(cfg, s)
    ensures Step(cfg, s, Run(cfg, s, op, now).0) && Inv(cfg, Run(cfg, s, op, now).0)
  {
    hide Step, Sound;
    RunKeeps(cfg, s, op, now);
    StepInv(cfg, s, Run(cfg, s, op, now).0);
  }

  lemma SetAtSteps(cfg: Config, s: Kv, k: Key, v: Value, at: Option<int>, now: int)
    requires Configured(cfg) && Sound(cfg, s.core, s.generation) && !Over(cfg, s.core)
    ensures Kept(cfg, s, DoSetAt(cfg, s, k, v, at, now).0)
  {
    hide Step, Sound;
    StepRefl(cfg, s);
    if Clones(v, cfg.maxValueBytes) {
      SetOwnedSteps(cfg, s, k, v, at, now);
    }
  }

  lemma ClearPrefixSteps(cfg: Config, s: Kv, prefix: Str)
    requires Sound(cfg, s.core, s.generation) && !Over(cfg, s.core)
    ensures Kept(cfg, s, DoClearPrefix(cfg, s, prefix).0)
  {
    hide Step, Sound;
    StepRefl(cfg, s);
    ClearFromSteps(cfg, s, KeysOf(s.core.entries), 0, prefix);
  }

  lemma ExpireAfterSteps(cfg: Config, s: Kv, k: Key, after: int, now: int)
    requires Sound(cfg, s.core, s.generation) && !Over(cfg, s.core)
    ensures Kept(cfg, s, DoExpire(cfg, s, k, after, now).0)
  {
    hide Step, Sound;
    StepRefl(cfg, s);
    RedateSteps(cfg, s, k, Some(now + after), now);
  }

  lemma PersistSteps(cfg: Config, s: Kv, k: Key, now: int)
    requires Sound(cfg, s.core, s.generation) && !Over(cfg, s.core)
    ensures Kept(cfg, s, DoPersist(cfg, s, k, now).0)
  {
    hide Step, Sound;
    StepRefl(cfg, s);
    RedateSteps(cfg, s, k, None, now);
  }

  lemma GetVersionSteps(cfg: Config, s: Kv, k: Key, now: int)
    requires Sound(cfg, s.core, s.generation) && !Over(cfg, s.core)
    ensures Kept(cfg, s, DoGetVersion(cfg, s, k, now).0)
  {
    hide Step, Sound;
    StepRefl(cfg, s);
    DueSteps(cfg, s, k, now);
  }

  lemma RunKeeps(cfg: Config, s: Kv, op: Op, now: int)
    requires Configured(cfg) && Sound(cfg, s.core, s.generation) && !Over(cfg, s.core)
    ensures Kept(cfg, s, Run(cfg, s, op, now).0)
  {
    hide Kept, Sound, Over, Configured, DoGet, DoSet, DoSetAt, DoMSet, DoDel, DoClearPrefix, DoClear, DoIncr, DoCas,
      DoRestore, DoExpire, DoExpireAt, DoPersist, DoTtl, DoGetVersion, SweepFrom;
    match op
    case OpGet(k) => GetSteps(cfg, s, k, now);
    case OpSet(k, v, ttl) => SetSteps(cfg, s, k, v, ttl, now);
    case OpSetAt(k, v, at) => SetAtSteps(cfg, s, k, v, at, now);
    case OpMSet(batch) => DoMSetSteps(cfg, s, batch, now);
    case OpDel(k) => DelSteps(cfg, s, k, now);
    case OpClearPrefix(prefix) => ClearPrefixSteps(cfg, s, prefix);
    case OpClear => ClearSteps(cfg, s);
    case OpIncr(k, delta) => IncrSteps(cfg, s, k, delta, now);
    case OpCas(k, x, v, ttl) => CasSteps(cfg, s, k, x, v, ttl, now);
    case OpRestore(ws) => RestoreSteps(cfg, s, ws, now);
    case OpExpire(k, after) => ExpireAfterSteps(cfg, s, k, after, now);
    case OpExpireAt(k, at) => ExpireAtSteps(cfg, s, k, at, now);
    case OpPersist(k) => PersistSteps(cfg, s, k, now);
    case OpSweep => SweepSteps(cfg, s, KeysOf(s.core.expiring), 0, now);
    case OpTtl(k) => TtlSteps(cfg, s, k, now);
    case OpGetVersion(k) => GetVersionSteps(cfg, s, k, now);
  }
}
