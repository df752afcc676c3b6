/** Calls on many keys: which writes of a batch or a restore a reader finds, what clearPrefix and sweep
    count, which deadline a write gets. */
module CacheBatches {
  import opened Decimals
  import opened ItemLists
  import opened Json
  import opened CacheModel
  import opened CacheInvariant
  import opened CacheContents
  import opened PatchLists
  import opened CachePatches

  // ---- deadlines ----

  lemma {:induction false} NamespaceIs(k: Key, ns: Str, i: nat)
    requires i <= |ns| < |k| && k[..|ns|] == ns && k[|ns|] == 58 && 58 !in ns
    ensures NamespaceFrom(k, i) == ns
    decreases |ns| - i
  {
    if i < |ns| {
      assert k[i] == ns[i];
      NamespaceIs(k, ns, i + 1);
    }
  }

  lemma {:induction false} NoNamespace(k: Key, i: nat)
    requires i <= |k| && 58 !in k
    ensures NamespaceFrom(k, i) == []
    decreases |k| - i
  {
    if i < |k| { NoNamespace(k, i + 1); }
  }

  /** A TTL is a non-negative number of milliseconds whose deadline is still a safe integer. */
  function DeadlineAfter(ttl: int, now: int): Checked<Option<int>> {
    if 0 <= ttl && now + ttl <= MAX_SAFE then Fine(Some(now + ttl)) else Bad
  }

  lemma DeadlineBy(cfg: Config, k: Key, ttl: Option<int>, now: int)
    ensures Deadline(cfg, k, ttl, now) ==
      if ttl.Some? then DeadlineAfter(ttl.value, now)
      else if Namespace(k) != [] && Namespace(k) in cfg.namespaceTtl
      then DeadlineAfter(cfg.namespaceTtl[Namespace(k)], now)
      else if cfg.defaultTtl.Some? then DeadlineAfter(cfg.defaultTtl.value, now)
      else Fine(None)
  {
    hide NamespaceFrom;
  }

  /** The TTL given with the write comes first, then that of the namespace, the text before the first
      colon, then the default; with none of them the entry stays. */
  lemma DeadlinePrecedence(cfg: Config, ns: Str, rest: Str, now: int)
    requires 58 !in ns
    ensures forall k, ttl :: Deadline(cfg, k, Some(ttl), now) == DeadlineAfter(ttl, now)
    ensures var other := if cfg.defaultTtl.None? then Fine(None) else DeadlineAfter(cfg.defaultTtl.value, now);
      && Deadline(cfg, ns, None, now) == other
      && Deadline(cfg, ns + [58] + rest, None, now) ==
           if ns != [] && ns in cfg.namespaceTtl then DeadlineAfter(cfg.namespaceTtl[ns], now) else other
  {
    hide NamespaceFrom, Deadline, DeadlineAfter;
    NamespaceIs(ns + [58] + rest, ns, 0);
    NoNamespace(ns, 0);
    DeadlineBy(cfg, ns, None, now);
    DeadlineBy(cfg, ns + [58] + rest, None, now);
    forall k, ttl ensures Deadline(cfg, k, Some(ttl), now) == DeadlineAfter(ttl, now) {
      DeadlineBy(cfg, k, Some(ttl), now);
    }
  }

  // ---- lists that only lose entries ----

  /** ts holds some pairs of es, in the same order. */
  ghost predicate Thinned(ts: Items<Key, Entry>, es: Items<Key, Entry>) {
    && (forall i :: 0 <= i < |ts| ==> Get(es, ts[i].0) == Some(ts[i].1))
    && forall i, j :: 0 <= i < j < |ts| ==> Find(es, ts[i].0) < Find(es, ts[j].0)
  }

  lemma RemoveThins(es: Items<Key, Entry>, k: Key)
    requires DistinctKeys(es)
    ensures Thinned(Remove(es, k), es)
  {
    hide FindFrom, GetFrom;
    var ts := Remove(es, k);
    GetFind(es, k);
    var n := Find(es, k);
    forall i | 0 <= i < |ts|
      ensures Get(es, ts[i].0) == Some(ts[i].1) && Find(es, ts[i].0) == if i < n then i else i + 1 {
      GetIs(es, if i < n then i else i + 1);
      FindIs(es, if i < n then i else i + 1);
    }
  }

  lemma ThinnedTrans(a: Items<Key, Entry>, b: Items<Key, Entry>, c: Items<Key, Entry>)
    requires Thinned(a, b) && Thinned(b, c) && DistinctKeys(b)
    ensures Thinned(a, c)
  {
    hide FindFrom, GetFrom;
    forall i | 0 <= i < |a| ensures Find(b, a[i].0) < |b| && b[Find(b, a[i].0)] == a[i] { GetFind(b, a[i].0); }
  }

  lemma ThinnedSelf(es: Items<Key, Entry>)
    requires DistinctKeys(es)
    ensures Thinned(es, es)
  {
    forall i | 0 <= i < |es| ensures Get(es, es[i].0) == Some(es[i].1) && Find(es, es[i].0) == i {
      GetIs(es, i);
      FindIs(es, i);
    }
  }

  lemma {:induction false} ClearFromThins(cfg: Config, s: Kv, ks: seq<Key>, i: nat, prefix: Str)
    requires Sound(cfg, s.core, s.generation) && i <= |ks| && Distinct(ks)
    requires forall j :: i <= j < |ks| ==> Has(s.core.entries, ks[j])
    ensures var t := ClearFrom(cfg, s, ks, i, prefix);
      && Thinned(t.core.entries, s.core.entries)
      && |s.core.entries| - |t.core.entries| == Matching(ks, prefix, i)
    decreases |ks| - i
  {
    hide Sound, Step, Discard, Thinned, InNamespace, Remove, GetFrom;
    SoundKeys(cfg, s);
    var es := s.core.entries;
    if i == |ks| {
      ThinnedSelf(es);
    } else if InNamespace(ks[i], prefix) {
      var u := Discard(cfg, s, ks[i]);
      DiscardSteps(cfg, s, ks[i]);
      StepSound(cfg, s, u);
      RemoveLength(es, ks[i]);
      forall j | i + 1 <= j < |ks| ensures Has(u.core.entries, ks[j]) { GetRemove(es, ks[i], ks[j]); }
      ClearFromThins(cfg, u, ks, i + 1, prefix);
      RemoveThins(es, ks[i]);
      SoundKeys(cfg, u);
      ThinnedTrans(ClearFrom(cfg, s, ks, i, prefix).core.entries, u.core.entries, es);
    } else {
      ClearFromThins(cfg, s, ks, i + 1, prefix);
    }
  }

  /** clearPrefix reports how many entries it took out, and keeps the order of the rest. */
  lemma ClearPrefixCounts(cfg: Config, s: Kv, prefix: Str)
    requires Inv(cfg, s) && KeyFits(cfg, prefix)
    ensures var (t, r) := DoClearPrefix(cfg, s, prefix);
      r == Count(|s.core.entries| - |t.core.entries|) && Thinned(t.core.entries, s.core.entries)
  {
    hide Sound, ClearFrom, Thinned, GetFrom;
    SoundOf(cfg, s);
    SoundKeys(cfg, s);
    var ks := KeysOf(s.core.entries);
    forall j | 0 <= j < |ks| ensures Has(s.core.entries, ks[j]) { GetIs(s.core.entries, j); }
    ClearFromThins(cfg, s, ks, 0, prefix);
  }

  lemma {:induction false} SweepFromThins(cfg: Config, s: Kv, ks: seq<Key>, i: nat, now: int)
    requires Sound(cfg, s.core, s.generation) && i <= |ks|
    ensures var (t, n) := SweepFrom(cfg, s, ks, i, now);
      && Thinned(t.core.entries, s.core.entries) && |s.core.entries| - |t.core.entries| == n
    decreases |ks| - i
  {
    hide Sound, Step, Expire, Thinned, Remove, GetFrom, Due;
    SoundKeys(cfg, s);
    var es := s.core.entries;
    if i == |ks| {
      ThinnedSelf(es);
    } else if EntryAt(s, ks[i]).Some? && Due(EntryAt(s, ks[i]).value, now) {
      var u := Expire(cfg, s, ks[i]);
      ExpireSteps(cfg, s, ks[i]);
      StepSound(cfg, s, u);
      RemoveLength(es, ks[i]);
      SweepFromThins(cfg, u, ks, i + 1, now);
      RemoveThins(es, ks[i]);
      SoundKeys(cfg, u);
      ThinnedTrans(SweepFrom(cfg, u, ks, i + 1, now).0.core.entries, u.core.entries, es);
    } else {
      SweepFromThins(cfg, s, ks, i + 1, now);
    }
  }

  /** sweep reports how many entries it took out, and keeps the order of the rest. */
  lemma SweepCounts(cfg: Config, s: Kv, now: int)
    requires Inv(cfg, s)
    ensures var (t, r) := DoSweep(cfg, s, now);
      r == Count(|s.core.entries| - |t.core.entries|) && Thinned(t.core.entries, s.core.entries)
  {
    hide Sound, SweepFrom, Thinned;
    SoundOf(cfg, s);
    SweepFromThins(cfg, s, KeysOf(s.core.expiring), 0, now);
  }

  // ---- writes with evictions between them ----

  /** No later write of the batch has the key of write j. */
  predicate LastOf(ws: seq<Write>, j: nat)
    requires j < |ws|
  {
    forall l :: j < l < |ws| ==> ws[l].key != ws[j].key
  }

  function Stored(w: Write, now: int): Option<Entry> { if Due(EntryOf(w), now) then None else Some(EntryOf(w)) }

  /** Of several writes of one key the last counts; it stays or is evicted by a later one. */
  lemma {:induction false} LastWriteCounts(cfg: Config, es: Items<Key, Entry>, ws: seq<Write>, i: nat, now: int, j: nat)
    requires DistinctKeys(es) && i <= j < |ws| && LastOf(ws, j)
    ensures var fin := ShedAll(cfg, es, ws, i, now);
      Get(fin, ws[j].key) == Stored(ws[j], now) || Get(fin, ws[j].key) == None
    decreases |ws| - i
  {
    hide Placed, Shed, Get;
    var ps := Placed(es, ws[i], now);
    var ts := Shed(cfg, ps);
    PlacedAt(es, ws[i], now, ws[j].key);
    ShedAt(cfg, ps, ws[j].key);
    if i < j {
      LastWriteCounts(cfg, ts, ws, i + 1, now, j);
    } else {
      ShedAllAt(cfg, ts, ws, i + 1, now, ws[j].key);
    }
  }

  /** The write that comes last of all is there. */
  lemma {:induction false} FinalWriteStays(cfg: Config, es: Items<Key, Entry>, ws: seq<Write>, i: nat, now: int)
    requires Configured(cfg) && DistinctKeys(es) && i < |ws| && WritesOk(cfg, ws)
    ensures var w := ws[|ws| - 1]; Get(ShedAll(cfg, es, ws, i, now), w.key) == Stored(w, now)
    decreases |ws| - i
  {
    hide Placed, Shed, EntryOk, GetFrom;
    var ps := Placed(es, ws[i], now);
    PlacedAt(es, ws[i], now, ws[i].key);
    ShedAt(cfg, ps, ws[i].key);
    if i < |ws| - 1 {
      FinalWriteStays(cfg, Shed(cfg, ps), ws, i + 1, now);
    } else if !Due(EntryOf(ws[i]), now) {
      ShedSuffix(cfg, ps);
      OneFits(cfg, es, ws[i], now);
    }
  }

  lemma OneFits(cfg: Config, es: Items<Key, Entry>, w: Write, now: int)
    requires Configured(cfg) && DistinctKeys(es) && EntryOk(cfg, w.key, EntryOf(w)) && !Due(EntryOf(w), now)
    ensures Get(Shed(cfg, Placed(es, w, now)), w.key) == Some(EntryOf(w))
  {
    var ps := Placed(es, w, now);
    PlacedAt(es, w, now, w.key);
    ShedAt(cfg, ps, w.key);
    ShortestIsShed(cfg, ps);
    LastStays(cfg, ps, Shed(cfg, ps), w.key, EntryOf(w));
  }

  lemma {:induction false} ShortestIsShed(cfg: Config, es: Items<Key, Entry>)
    ensures ShortestShed(cfg, es, Shed(cfg, es))
    decreases |es|
  {
    hide TooBig, ShortestShed;
    if es != [] && TooBig(cfg, es) {
      ShortestIsShed(cfg, es[1..]);
      ShedOne(cfg, es, Shed(cfg, es[1..]));
    } else {
      ShedNone(cfg, es);
    }
  }

  function Sizes(ws: seq<Write>, i: nat): nat
    requires i <= |ws|
    decreases |ws| - i
  {
    if i == |ws| then 0 else SizeOf(ws[i].key, ws[i].value) + Sizes(ws, i + 1)
  }

  /** The limits leave room for all the writes on top of what is there. */
  predicate RoomOnTop(cfg: Config, es: Items<Key, Entry>, ws: seq<Write>, i: nat)
    requires i <= |ws|
  {
    |es| + |ws| - i <= cfg.maxEntries && Total(es) + Sizes(ws, i) <= cfg.maxBytes
  }

  lemma {:induction false} RoomKeepsAll(cfg: Config, es: Items<Key, Entry>, ws: seq<Write>, i: nat, now: int, k: Key)
    requires DistinctKeys(es) && i <= |ws| && RoomOnTop(cfg, es, ws, i)
    ensures var fin := ShedAll(cfg, es, ws, i, now);
      && (!Writes(ws, i, k) ==> Get(fin, k) == Get(es, k))
      && forall j :: i <= j < |ws| && ws[j].key == k && LastOf(ws, j) ==> Get(fin, k) == Stored(ws[j], now)
    decreases |ws| - i
  {
    hide Placed, GetFrom, EntryOf, Total;
    if i < |ws| {
      var ps := Placed(es, ws[i], now);
      PlacedAt(es, ws[i], now, k);
      PlacedSize(es, ws[i], now);
      RoomKeepsAll(cfg, ps, ws, i + 1, now, k);
      assert Writes(ws, i, k) <==> ws[i].key == k || Writes(ws, i + 1, k);
      if Writes(ws, i + 1, k) {
        var l :| i + 1 <= l < |ws| && ws[l].key == k;
        assert ws[i].key == k ==> !LastOf(ws, i);
      }
    }
  }

  lemma PlacedSize(es: Items<Key, Entry>, w: Write, now: int)
    requires DistinctKeys(es)
    ensures DistinctKeys(Placed(es, w, now)) && |Placed(es, w, now)| <= |es| + 1
    ensures Total(Placed(es, w, now)) <= Total(es) + SizeOf(w.key, w.value)
  {
    hide Total, Remove;
    PlacedAt(es, w, now, w.key);
    RemoveLength(es, w.key);
    TotalRemove(es, w.key);
    TotalAppend(Remove(es, w.key), [(w.key, EntryOf(w))]);
    TotalOne(w.key, EntryOf(w));
  }

  // ---- mset ----

  /** The writes of a batch, their deadlines fixed beforehand. */
  function Dated(cfg: Config, bs: seq<Batch>, now: int): (ws: seq<Write>)
    requires forall j :: 0 <= j < |bs| ==> BatchFits(cfg, bs[j], now)
    ensures |ws| == |bs| && forall j :: 0 <= j < |bs| ==>
      BatchFits(cfg, bs[j], now)
      && ws[j] == Write(bs[j].key, bs[j].value, Deadline(cfg, bs[j].key, bs[j].ttl, now).value)
  {
    seq(|bs|, j requires 0 <= j < |bs| =>
      (assert BatchFits(cfg, bs[j], now);
       Write(bs[j].key, bs[j].value, Deadline(cfg, bs[j].key, bs[j].ttl, now).value)))
  }

  lemma DatedOk(cfg: Config, bs: seq<Batch>, now: int)
    requires forall j :: 0 <= j < |bs| ==> BatchFits(cfg, bs[j], now)
    ensures WritesOk(cfg, Dated(cfg, bs, now))
  {
    hide Fits, Clones;
    var ws := Dated(cfg, bs, now);
    forall j | 0 <= j < |ws| ensures EntryOk(cfg, ws[j].key, EntryOf(ws[j])) {
      assert BatchFits(cfg, bs[j], now);
      FitsClones(cfg, ws[j].key, ws[j].value);
    }
  }

  lemma {:induction false} MSetList(cfg: Config, s: Kv, bs: seq<Batch>, i: nat, now: int)
    requires Configured(cfg) && Inv(cfg, s) && i <= |bs|
    requires forall j :: 0 <= j < |bs| ==> BatchFits(cfg, bs[j], now)
    ensures MSetFrom(cfg, s, bs, i, now).core.entries == ShedAll(cfg, s.core.entries, Dated(cfg, bs, now), i, now)
    decreases |bs| - i
  {
    hide Inv, Step, Placed, Shed, SetOwned, BatchFits, EntryOk, Dated, Deadline;
    if i < |bs| {
      var ws := Dated(cfg, bs, now);
      DatedOk(cfg, bs, now);
      SetOne(cfg, s, ws[i], now);
      WriteAccepted(cfg, ws[i]);
      MSetList(cfg, SetOwned(cfg, s, bs[i].key, bs[i].value, ws[i].expiresAt, now).0, bs, i + 1, now);
    }
  }

  /** mset writes the whole batch or nothing. Of each key its last write counts, and is found unless a
      later write evicted it; the last of all is found; with room for the batch every one is, and every
      other key shows what it did. */
  lemma MSetMeans(cfg: Config, s: Kv, bs: seq<Batch>, now: int)
    requires Configured(cfg) && Inv(cfg, s)
    ensures var (t, r) := DoMSet(cfg, s, bs, now);
      if exists j :: 0 <= j < |bs| && !BatchFits(cfg, bs[j], now) then t == s && r == Threw
      else
        var ws := Dated(cfg, bs, now);
        var room := RoomOnTop(cfg, s.core.entries, ws, 0);
        && r == Count(|bs|)
        && (forall j :: 0 <= j < |ws| && LastOf(ws, j) ==>
              || EntryAt(t, ws[j].key) == Stored(ws[j], now)
              || (EntryAt(t, ws[j].key) == None && !room && j < |ws| - 1))
        && (forall k :: !Writes(ws, 0, k) ==> EntryAt(t, k) == EntryAt(s, k) || (EntryAt(t, k) == None && !room))
  {
    hide Inv, BatchFits, MSetFrom, ShedAll, GetFrom, EntryOf, Due, EntryOk, Total, Sizes, Dated;
    if forall j :: 0 <= j < |bs| ==> BatchFits(cfg, bs[j], now) {
      var ws := Dated(cfg, bs, now);
      InvSound(cfg, s);
      DatedOk(cfg, bs, now);
      MSetList(cfg, s, bs, 0, now);
      var es, t := s.core.entries, DoMSet(cfg, s, bs, now).0;
      forall j | 0 <= j < |ws| && LastOf(ws, j)
        ensures EntryAt(t, ws[j].key) == Stored(ws[j], now)
                || (EntryAt(t, ws[j].key) == None && !RoomOnTop(cfg, es, ws, 0) && j < |ws| - 1) {
        LastWriteCounts(cfg, es, ws, 0, now, j);
        FinalWriteStays(cfg, es, ws, 0, now);
        if RoomOnTop(cfg, es, ws, 0) { RoomKeepsAll(cfg, es, ws, 0, now, ws[j].key); }
      }
      forall k | !Writes(ws, 0, k)
        ensures EntryAt(t, k) == EntryAt(s, k) || (EntryAt(t, k) == None && !RoomOnTop(cfg, es, ws, 0)) {
        ShedAllAt(cfg, es, ws, 0, now, k);
        if RoomOnTop(cfg, es, ws, 0) { RoomKeepsAll(cfg, es, ws, 0, now, k); }
      }
    }
  }

  // ---- restore ----

  /** The positions of the writes a restore stores. */
  function Alive(ws: seq<Write>, i: nat, now: int): set<nat> { set j | i <= j < |ws| && !Due(EntryOf(ws[j]), now) }

  lemma {:induction false} AliveCount(ws: seq<Write>, i: nat, now: int)
    requires i <= |ws|
    ensures LiveWrites(ws, i, now) == |Alive(ws, i, now)|
    decreases |ws| - i
  {
    if i < |ws| {
      AliveCount(ws, i + 1, now);
      assert Alive(ws, i, now) == Alive(ws, i + 1, now) + if Due(EntryOf(ws[i]), now) then {} else {i};
    } else {
      assert Alive(ws, i, now) == {};
    }
  }

  lemma {:induction false} RestoreFromShows(cfg: Config, s: Kv, ws: seq<Write>, i: nat, now: int, k: Key)
    requires Sound(cfg, s.core, s.generation) && i <= |ws| && WritesOk(cfg, ws) && DistinctWrites(ws)
    ensures var t := RestoreFrom(cfg, s, ws, i, now);
      && Sound(cfg, t.core, t.generation)
      && (forall j :: j in Alive(ws, i, now) && ws[j].key == k ==> EntryAt(t, k) == Some(EntryOf(ws[j])))
      && ((forall j :: j in Alive(ws, i, now) ==> ws[j].key != k) ==> EntryAt(t, k) == EntryAt(s, k))
      && |t.core.entries| <= |s.core.entries| + |ws| - i && t.core.bytes <= s.core.bytes + Sizes(ws, i)
    decreases |ws| - i
  {
    hide Sound, Step, EntryOk, Store, GetFrom, SizeOf;
    if i < |ws| {
      var w := ws[i];
      var u := if Due(EntryOf(w), now) then s else Store(cfg, s, w.key, EntryOf(w));
      if !Due(EntryOf(w), now) {
        StoreSteps(cfg, s, w.key, EntryOf(w));
        StepSound(cfg, s, u);
        StoreShows(cfg, s, w.key, EntryOf(w));
        StoreGrows(cfg, s, w.key, EntryOf(w));
      }
      RestoreFromShows(cfg, u, ws, i + 1, now, k);
      assert forall j :: j in Alive(ws, i, now) <==> j in Alive(ws, i + 1, now) || (j == i && !Due(EntryOf(w), now));
    }
  }

  lemma StoreGrows(cfg: Config, s: Kv, k: Key, e: Entry)
    requires DistinctKeys(s.core.entries) || Sound(cfg, s.core, s.generation)
    ensures var t := Store(cfg, s, k, e);
      |t.core.entries| <= |s.core.entries| + 1 && t.core.bytes <= s.core.bytes + e.size
  {
  }

  /** restore takes the whole list or nothing, and reports how many of it were not past their deadline.
      Those are found unless evicted for lack of room; every other key, those of late writes included,
      keeps its entry or is evicted. */
  lemma RestoreMeans(cfg: Config, s: Kv, ws: seq<Write>, now: int)
    requires Configured(cfg) && Inv(cfg, s)
    ensures var (t, r) := DoRestore(cfg, s, ws, now);
      if !Restorable(cfg, ws) then t == s && r == Threw
      else
        var room := RoomOnTop(cfg, s.core.entries, ws, 0);
        && r == Count(|Alive(ws, 0, now)|)
        && (forall j :: j in Alive(ws, 0, now) ==>
              EntryAt(t, ws[j].key) == Some(EntryOf(ws[j])) || (EntryAt(t, ws[j].key) == None && !room))
        && forall k :: (forall j :: j in Alive(ws, 0, now) ==> ws[j].key != k) ==>
             EntryAt(t, k) == EntryAt(s, k) || (EntryAt(t, k) == None && !room)
  {
    hide Sound, Step, ShortestShed, RestoreFrom, Evict, Total, Sizes, GetFrom, WriteFits, EntryOf, Due;
    if Restorable(cfg, ws) {
      InvSound(cfg, s);
      RestorableOk(cfg, ws);
      AliveCount(ws, 0, now);
      var u := RestoreFrom(cfg, s, ws, 0, now);
      var t := DoRestore(cfg, s, ws, now).0;
      RestoreFromShows(cfg, s, ws, 0, now, []);
      EvictShortest(cfg, u, None);
      SoundKeys(cfg, u);
      var room := RoomOnTop(cfg, s.core.entries, ws, 0);
      if room { assert Evict(cfg, u, None) == u by { NothingToEvict(cfg, u); } }
      forall k
        ensures EntryAt(t, k) == EntryAt(u, k) || (EntryAt(t, k) == None && !room)
        ensures forall j :: j in Alive(ws, 0, now) && ws[j].key == k ==> EntryAt(u, k) == Some(EntryOf(ws[j]))
        ensures (forall j :: j in Alive(ws, 0, now) ==> ws[j].key != k) ==> EntryAt(u, k) == EntryAt(s, k) {
        RestoreFromShows(cfg, s, ws, 0, now, k);
        ShedShows(cfg, u, t, k);
      }
    }
  }

  lemma NothingToEvict(cfg: Config, u: Kv)
    requires !Over(cfg, u.core)
    ensures Evict(cfg, u, None) == u
  {
  }

  lemma RestorableOk(cfg: Config, ws: seq<Write>)
    requires Restorable(cfg, ws)
    ensures WritesOk(cfg, ws) && DistinctWrites(ws)
  {
    hide Fits, Clones;
    forall j | 0 <= j < |ws| ensures EntryOk(cfg, ws[j].key, EntryOf(ws[j])) {
      assert WriteFits(cfg, ws[j]);
      FitsClones(cfg, ws[j].key, ws[j].value);
    }
  }
}
