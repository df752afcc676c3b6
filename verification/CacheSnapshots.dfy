/** Snapshots: what dump exports, replace brings back, in the same order, on any cache. */
module CacheSnapshots {
  import opened Decimals
  import opened ItemLists
  import opened Json
  import opened CacheModel
  import opened CacheInvariant
  import opened CacheRuns
  import opened CacheContents

  /** restore admits deadlines of safe size only; setAt and expireAt accept any. */
  predicate SafeDeadline(e: Entry) { e.expiresAt.Some? ==> -MAX_SAFE <= e.expiresAt.value <= MAX_SAFE }

  // ---- filtering ----

  lemma {:induction false} UnexpiredFrom(es: Items<Key, Entry>, now: int)
    ensures var live := Unexpired(es, now);
      && |live| <= |es| && forall j :: 0 <= j < |live| ==> live[j] in es && !Due(live[j].1, now)
    decreases |es|
  {
    if es != [] { UnexpiredFrom(es[1..], now); }
  }

  lemma {:induction false} UnexpiredHas(es: Items<Key, Entry>, now: int, e: (Key, Entry))
    requires e in es && !Due(e.1, now)
    ensures e in Unexpired(es, now)
    decreases |es|
  {
    if e != es[0] { UnexpiredHas(es[1..], now, e); }
  }

  lemma {:induction false} UnexpiredSmaller(es: Items<Key, Entry>, now: int)
    requires forall i :: 0 <= i < |es| ==> es[i].1.size >= 0
    ensures Total(Unexpired(es, now)) <= Total(es)
    decreases |es|
  {
    if es != [] {
      var rest := Unexpired(es[1..], now);
      UnexpiredSmaller(es[1..], now);
      TotalAppend([es[0]], rest);
      TotalAppend([es[0]], es[1..]);
      assert es == [es[0]] + es[1..];
      TotalOne(es[0].0, es[0].1);
      assert [] + rest == rest;
      assert Unexpired(es, now) == if Due(es[0].1, now) then rest else [es[0]] + rest;
    }
  }

  lemma {:induction false} UnexpiredDistinct(es: Items<Key, Entry>, now: int)
    requires DistinctKeys(es)
    ensures DistinctKeys(Unexpired(es, now))
    decreases |es|
  {
    if es != [] {
      UnexpiredDistinct(es[1..], now);
      UnexpiredFrom(es[1..], now);
    }
  }

  /** Entries due at a later time include those due earlier. */
  lemma {:induction false} UnexpiredLater(es: Items<Key, Entry>, now: int, later: int)
    requires now <= later
    ensures Unexpired(Unexpired(es, now), later) == Unexpired(es, later)
    decreases |es|
  {
    if es != [] {
      UnexpiredLater(es[1..], now, later);
      var rest := Unexpired(es[1..], now);
      if !Due(es[0].1, now) {
        assert ([es[0]] + rest)[1..] == rest;
      } else {
        assert [] + rest == rest;
      }
    }
  }

  /** Lookups agree with the unfiltered list on every entry not due. */
  lemma UnexpiredLookup(es: Items<Key, Entry>, now: int, k: Key)
    requires DistinctKeys(es)
    ensures Get(Unexpired(es, now), k) ==
      match Get(es, k) case Some(e) => (if Due(e, now) then None else Some(e)) case None => None
  {
    var live := Unexpired(es, now);
    UnexpiredDistinct(es, now);
    UnexpiredFrom(es, now);
    GetFind(es, k);
    GetFind(live, k);
    var i, j := Find(es, k), Find(live, k);
    if j < |live| {
      var l :| 0 <= l < |es| && es[l] == live[j];
      GetIs(es, l);
    } else if i < |es| && !Due(es[i].1, now) {
      UnexpiredHas(es, now, es[i]);
    }
  }

  // ---- restoring ----

  ghost predicate Apart(a: Items<Key, Entry>, b: Items<Key, Entry>) {
    forall i, j :: 0 <= i < |a| && 0 <= j < |b| ==> a[i].0 != b[j].0
  }

  lemma StoredLast(cfg: Config, s: Kv, es: Items<Key, Entry>)
    requires Sound(cfg, s.core, s.generation) && es != [] && DistinctKeys(es) && Apart(s.core.entries, es)
    requires EntryOk(cfg, es[0].0, es[0].1)
    ensures var t := Store(cfg, s, es[0].0, es[0].1);
      && Sound(cfg, t.core, t.generation)
      && t.core.entries == s.core.entries + [es[0]] && Apart(t.core.entries, es[1..])
  {
    hide Sound, Store, Step, EntryOk;
    var k := es[0].0;
    StoreSteps(cfg, s, k, es[0].1);
    StepSound(cfg, s, Store(cfg, s, k, es[0].1));
    GetFind(s.core.entries, k);
    RemoveAbsent(s.core.entries, k);
  }

  /** Restoring a dumped list appends its unexpired entries in order. */
  lemma {:induction false} RestoredInOrder(cfg: Config, s: Kv, es: Items<Key, Entry>, i: nat, now: int)
    requires Sound(cfg, s.core, s.generation) && i <= |es| && DistinctKeys(es) && Apart(s.core.entries, es[i..])
    requires forall j :: 0 <= j < |es| ==> EntryOk(cfg, es[j].0, es[j].1)
    ensures var t := RestoreFrom(cfg, s, WritesOf(es), i, now);
      t.core.entries == s.core.entries + Unexpired(es[i..], now)
    decreases |es| - i
  {
    hide Sound, Store, EntryOk, Apart;
    if i < |es| {
      var rest := es[i..];
      assert rest[0] == es[i] && rest[1..] == es[i + 1..];
      if Due(es[i].1, now) {
        assert Apart(s.core.entries, es[i + 1..]) by { ApartTail(s.core.entries, rest); }
        RestoredInOrder(cfg, s, es, i + 1, now);
      } else {
        StoredLast(cfg, s, rest);
        var u := Store(cfg, s, es[i].0, es[i].1);
        RestoredInOrder(cfg, u, es, i + 1, now);
        RestoredLive(cfg, s, u, es, i, now);
      }
    }
  }

  lemma RestoredLive(cfg: Config, s: Kv, u: Kv, es: Items<Key, Entry>, i: nat, now: int)
    requires i < |es| && !Due(es[i].1, now) && EntryOk(cfg, es[i].0, es[i].1) && u == Store(cfg, s, es[i].0, es[i].1)
    requires u.core.entries == s.core.entries + [es[i]]
    requires RestoreFrom(cfg, u, WritesOf(es), i + 1, now).core.entries == u.core.entries + Unexpired(es[i + 1..], now)
    ensures RestoreFrom(cfg, s, WritesOf(es), i, now).core.entries == s.core.entries + Unexpired(es[i..], now)
  {
    hide Store, EntryOk;
    WrittenBack(cfg, es[i]);
    assert es[i..][0] == es[i] && es[i..][1..] == es[i + 1..];
    Regroup(s.core.entries, es[i], Unexpired(es[i + 1..], now));
  }

  lemma Regroup(a: Items<Key, Entry>, e: (Key, Entry), b: Items<Key, Entry>)
    ensures a + ([e] + b) == a + [e] + b
  {
  }

  lemma ApartTail(a: Items<Key, Entry>, b: Items<Key, Entry>)
    requires b != [] && Apart(a, b)
    ensures Apart(a, b[1..])
  {
  }

  /** The size restore computes is the size the entry had. */
  lemma WrittenBack(cfg: Config, e: (Key, Entry))
    requires EntryOk(cfg, e.0, e.1)
    ensures e.1 == Entry(WriteOf(e).value, WriteOf(e).expiresAt, SizeOf(e.0, WriteOf(e).value))
  {
  }

  /** A restore of dumped entries is refused exactly when one of them has a deadline beyond the safe integers. */
  lemma RestorableIff(cfg: Config, es: Items<Key, Entry>)
    requires DistinctKeys(es)
    requires forall j :: 0 <= j < |es| ==> EntryOk(cfg, es[j].0, es[j].1) && Clones(es[j].1.value, CLONE_BYTES)
    ensures Restorable(cfg, WritesOf(es)) <==> forall j :: 0 <= j < |es| ==> SafeDeadline(es[j].1)
  {
    hide Clones, Fits;
    var ws := WritesOf(es);
    forall j | 0 <= j < |es| ensures WriteFits(cfg, ws[j]) <==> SafeDeadline(es[j].1) {
      assert EntryOk(cfg, es[j].0, es[j].1);
      assert ws[j] == WriteOf(es[j]);
    }
  }

  /** A restore of dumped entries of a cache within its limits evicts nothing. */
  lemma RestoresOnEmpty(cfg: Config, s: Kv, es: Items<Key, Entry>, now: int)
    requires Sound(cfg, s.core, s.generation) && s.core.entries == [] && DistinctKeys(es) && !TooBig(cfg, es)
    requires forall j :: 0 <= j < |es| ==> EntryOk(cfg, es[j].0, es[j].1)
    requires Restorable(cfg, WritesOf(es))
    ensures DoRestore(cfg, s, WritesOf(es), now).0.core.entries == Unexpired(es, now)
  {
    hide Sound, Step, EntryOk, WritesOf, WriteFits;
    assert es[0..] == es;
    RestoredInOrder(cfg, s, es, 0, now);
    RestoreFromSteps(cfg, s, WritesOf(es), 0, now);
    var t := RestoreFrom(cfg, s, WritesOf(es), 0, now);
    StepSound(cfg, s, t);
    UnexpiredFrom(es, now);
    Sizes(cfg, es);
    UnexpiredSmaller(es, now);
    assert t.core.entries == Unexpired(es, now);
    assert !Over(cfg, t.core) by { SoundTotal(cfg, t); }
  }

  lemma Sizes(cfg: Config, es: Items<Key, Entry>)
    requires forall j :: 0 <= j < |es| ==> EntryOk(cfg, es[j].0, es[j].1)
    ensures forall j :: 0 <= j < |es| ==> es[j].1.size >= 0
  {
    forall j | 0 <= j < |es| ensures es[j].1.size >= 0 { assert EntryOk(cfg, es[j].0, es[j].1); }
  }

  lemma SoundTotal(cfg: Config, s: Kv)
    requires Sound(cfg, s.core, s.generation)
    ensures s.core.bytes == Total(s.core.entries)
  {
  }

  // ---- dump then replace ----

  lemma ClearedBegin(cfg: Config, r: Kv)
    requires Configured(cfg) && Inv(cfg, r)
    ensures var t := DoClear(cfg, Begin(r));
      && Sound(cfg, t.core, t.generation) && t.core.entries == [] && Inv(cfg, t)
      && Within(t, |r.frames|, r.core, r.frames, r.delivered)
      && |t.frames| == |r.frames| + 1 && t.generation >= r.generation
  {
    hide Sound, DoClear, Step, Within;
    NextInv(cfg, r, BeginFrame);
    var b := Begin(r);
    assert Sound(cfg, b.core, b.generation) && !Over(cfg, b.core);
    ClearSteps(cfg, b);
    assert Within(b, |r.frames|, r.core, r.frames, r.delivered) by { BegunWithin(r); }
    NextInv(cfg, b, Call(OpClear, 0));
    NextWithin(cfg, b, Call(OpClear, 0), |r.frames|, r.core, r.frames, r.delivered);
    StepSound(cfg, b, DoClear(cfg, b));
  }

  lemma BegunWithin(r: Kv)
    ensures Within(Begin(r), |r.frames|, r.core, r.frames, r.delivered)
  {
    assert Begin(r).frames[..|r.frames|] == r.frames;
  }

  lemma Dumped(cfg: Config, s: Kv, now: int)
    requires Inv(cfg, s) && DoDump(s, now).Fine?
    ensures var es := Unexpired(s.core.entries, now);
      && DistinctKeys(es) && !TooBig(cfg, es) && DoDump(s, now).value == WritesOf(es)
      && forall j :: 0 <= j < |es| ==> EntryOk(cfg, es[j].0, es[j].1) && Clones(es[j].1.value, CLONE_BYTES)
  {
    hide EntryOk, Versioned, WritesOf, Clones, Unexpired;
    var all := s.core.entries;
    var es := Unexpired(all, now);
    UnexpiredDistinct(all, now);
    UnexpiredFrom(all, now);
    Listed(cfg, s);
    Sizes(cfg, all);
    UnexpiredSmaller(all, now);
  }

  lemma Listed(cfg: Config, s: Kv)
    requires Sound(cfg, s.core, s.generation)
    ensures forall e :: e in s.core.entries ==> EntryOk(cfg, e.0, e.1)
  {
    forall e | e in s.core.entries ensures EntryOk(cfg, e.0, e.1) {
      var i :| 0 <= i < |s.core.entries| && s.core.entries[i] == e;
      GetIs(s.core.entries, i);
    }
  }

  /** Closing the one frame opened over r, either way. */
  lemma FrameEnds(cfg: Config, t: Kv, r: Kv)
    requires Configured(cfg) && Inv(cfg, t) && |t.frames| == |r.frames| + 1
    requires Within(t, |r.frames|, r.core, r.frames, r.delivered)
    ensures var u := Rollback(t);
      && Inv(cfg, u) && u.core == r.core && u.frames == r.frames
      && u.delivered == r.delivered && u.generation == t.generation
    ensures var c := Commit(t);
      && Inv(cfg, c) && c.core == t.core && |c.frames| == |r.frames| && c.generation == t.generation
  {
    hide Inv;
    NextInv(cfg, t, RollbackFrame);
    NextInv(cfg, t, CommitFrame);
  }

  /** replace of a dump. It throws, and then all but the version generation is as before, exactly
      when some live entry's deadline lies beyond the safe integers. Otherwise the cache, whatever
      it held, holds just the dumped entries not due by then, in the dumped LRU order. */
  lemma ReplaceRestoresDump(cfg: Config, s: Kv, now: int, r: Kv, later: int)
    requires Configured(cfg) && Inv(cfg, s) && Inv(cfg, r) && now <= later && DoDump(s, now).Fine?
    ensures var (t, reply) := DoReplace(cfg, r, DoDump(s, now).value, later);
      var live := Unexpired(s.core.entries, now);
      && Inv(cfg, t) && t.generation >= r.generation && |t.frames| == |r.frames|
      && (reply == Threw <==> exists j :: 0 <= j < |live| && !SafeDeadline(live[j].1))
      && (reply == Threw ==> t.core == r.core && t.frames == r.frames && t.delivered == r.delivered)
      && (reply != Threw ==> t.core.entries == Unexpired(s.core.entries, later))
  {
    hide Inv, Sound, EntryOk, DoClear, RestoreFrom, Evict, LiveWrites, Restorable, Within, WritesOf, Unexpired,
        SafeDeadline, Rollback, Commit;
    var es := Unexpired(s.core.entries, now);
    Dumped(cfg, s, now);
    RestorableIff(cfg, es);
    ClearedBegin(cfg, r);
    var b := DoClear(cfg, Begin(r));
    var t := DoRestore(cfg, b, WritesOf(es), later).0;
    var e := Call(OpRestore(WritesOf(es)), later);
    NextInv(cfg, b, e);
    NextWithin(cfg, b, e, |r.frames|, r.core, r.frames, r.delivered);
    FrameEnds(cfg, t, r);
    if Restorable(cfg, WritesOf(es)) {
      RestoresOnEmpty(cfg, b, es, later);
      UnexpiredLater(s.core.entries, now, later);
    }
  }

  /** A reader of the replaced cache finds, from then on, what a reader of the dumped one would. */
  lemma ReplacedShows(cfg: Config, s: Kv, now: int, r: Kv, later: int, k: Key, at: int)
    requires Configured(cfg) && Inv(cfg, s) && Inv(cfg, r) && now <= later <= at && DoDump(s, now).Fine?
    ensures var (t, reply) := DoReplace(cfg, r, DoDump(s, now).value, later);
      reply != Threw ==> View(t, k, at) == View(s, k, at)
  {
    hide Sound, DoReplace, DoDump, Unexpired;
    ReplaceRestoresDump(cfg, s, now, r, later);
    assert DistinctKeys(s.core.entries) by { SoundDistinct(cfg, s); }
    UnexpiredLookup(s.core.entries, later, k);
  }

  lemma SoundDistinct(cfg: Config, s: Kv)
    requires Sound(cfg, s.core, s.generation)
    ensures DistinctKeys(s.core.entries)
  {
  }

  /** setAt checks that a deadline is finite, not that it is a safe integer: after one accepted
      beyond that range, no dump taken while the entry lives can be restored anywhere. */
  lemma UnsafeDeadlineSpoilsDump(cfg: Config, s: Kv, k: Key, v: Value, at: int, now: int, r: Kv, later: int)
    requires Configured(cfg) && Inv(cfg, s) && Inv(cfg, r) && at > MAX_SAFE && now < at && now <= later
    requires DoSetAt(cfg, s, k, v, Some(at), now).1 != Threw
    ensures var t := DoSetAt(cfg, s, k, v, Some(at), now).0;
      DoDump(t, now).Fine? ==> DoReplace(cfg, r, DoDump(t, now).value, later).1 == Threw
  {
    hide Inv, Sound, DoReplace, DoDump, Unexpired, Fits, Clones, Store, Evict, Over;
    var t := DoSetAt(cfg, s, k, v, Some(at), now).0;
    SoundOf(cfg, s);
    var e := Entry(v, Some(at), SizeOf(k, v));
    assert EntryOk(cfg, k, e);
    PlaceShows(cfg, s, k, e, now);
    RunSteps(cfg, s, OpSetAt(k, v, Some(at)), now);
    SoundOf(cfg, t);
    SoundDistinct(cfg, t);
    UnexpiredLookup(t.core.entries, now, k);
    var live := Unexpired(t.core.entries, now);
    GetFind(live, k);
    assert !SafeDeadline(live[Find(live, k)].1);
    if DoDump(t, now).Fine? { ReplaceRestoresDump(cfg, t, now, r, later); }
  }
}
