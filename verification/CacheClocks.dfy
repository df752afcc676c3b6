/** What incr's two clock readings do to the byte total. */
module CacheClocks {
  import opened Decimals
  import opened ItemLists
  import opened Json
  import opened CacheModel
  import opened CacheInvariant

  /** The counter is live at the first reading and due at the second, and the new value fits. */
  predicate ExpiresBetween(cfg: Config, s: Kv, k: Key, delta: int, now: int, again: int) {
    KeyFits(cfg, k) &&
    match EntryAt(s, k)
    case None => false
    case Some(e) => !Due(e, now) && Due(e, again) && e.value.Num? && Fits(cfg, k, Num(e.value.n + delta))
  }

  function Drift(s: Kv): int { s.core.bytes - Total(s.core.entries) }

  lemma OldestDrift(cfg: Config, s: Kv, clock: Option<int>)
    requires s.core.entries != []
    ensures Drift(EvictOldest(cfg, s, clock)) == Drift(s)
    ensures |EvictOldest(cfg, s, clock).core.entries| == |s.core.entries| - 1
  {
    hide Total;
    var es := s.core.entries;
    GetFind(es, es[0].0);
    assert Remove(es, es[0].0) == es[1..];
    TotalRemoveAt(es, 0);
    assert RemoveAt(es, 0) == es[1..];
  }

  /** Eviction frees what it removes, so it moves no drift. */
  lemma {:induction false} EvictDrift(cfg: Config, s: Kv, clock: Option<int>)
    ensures Drift(Evict(cfg, s, clock)) == Drift(s)
    decreases |s.core.entries|
  {
    hide EvictOldest, Drift;
    if Over(cfg, s.core) && s.core.entries != [] {
      OldestDrift(cfg, s, clock);
      EvictDrift(cfg, EvictOldest(cfg, s, clock), clock);
    }
  }

  lemma OverwriteDrift(cfg: Config, s: Kv, k: Key, e: Entry)
    requires DistinctKeys(s.core.entries) && EntryAt(s, k).Some?
    ensures Drift(Overwrite(cfg, s, k, e)) == Drift(s) + EntryAt(s, k).value.size
  {
    hide Total;
    var es := s.core.entries;
    var i := Find(es, k);
    GetFind(es, k);
    assert Put(es, k, e) == es[..i] + [(k, e)] + es[i + 1..];
    TotalAt(es, i, (k, e));
  }

  lemma TotalAt(es: Items<Key, Entry>, i: nat, x: (Key, Entry))
    requires i < |es|
    ensures Total(es[..i] + [x] + es[i + 1..]) == Total(es) - es[i].1.size + x.1.size
  {
    TotalAppend(es[..i] + [x], es[i + 1..]);
    TotalAppend(es[..i], [x]);
    TotalOne(x.0, x.1);
    TotalRemoveAt(es, i);
    TotalAppend(es[..i], es[i + 1..]);
  }

  /** The byte total stays the sum of entry sizes exactly when the counter does not expire between
      the two readings; when it does, its old size is counted for ever. */
  lemma IncrKeepsBytesIff(cfg: Config, s: Kv, k: Key, delta: int, now: int, again: int)
    requires Configured(cfg) && Inv(cfg, s)
    ensures var t := IncrTwice(cfg, s, k, delta, now, again).0;
      && (t.core.bytes == Total(t.core.entries) <==> !ExpiresBetween(cfg, s, k, delta, now, again))
      && (ExpiresBetween(cfg, s, k, delta, now, again)
          ==> t.core.bytes == Total(t.core.entries) + EntryAt(s, k).value.size)
  {
    hide Settle, Sound, Over, Fits, Evict, Store, Overwrite, Total;
    var t := Settle(cfg, s, k, now);
    InvFacts(cfg, s);
    DueSteps(cfg, s, k, now);
    StepSound(cfg, s, t);
    Settled(cfg, s, k, now);
    SoundTotals(cfg, t);
    var live := EntryAt(t, k);
    if KeyFits(cfg, k) && (live.None? || live.value.value.Num?) {
      if live.Some? && Due(live.value, again) {
        var n := Num(live.value.value.n + delta);
        if Fits(cfg, k, n) {
          var e := Entry(n, live.value.expiresAt, SizeOf(k, n));
          OverwriteDrift(cfg, t, k, e);
          EvictDrift(cfg, Overwrite(cfg, t, k, e), Some(again));
          CountedSize(cfg, s, k);
        }
      } else {
        var n := (if live.Some? then live.value.value.n else 0) + delta;
        var at := if live.Some? then live.value.expiresAt else None;
        IncrToSteps(cfg, t, k, n, at, again);
        StepSound(cfg, t, IncrTo(cfg, t, k, n, at, again).0);
        SoundTotals(cfg, IncrTo(cfg, t, k, n, at, again).0);
      }
    }
  }

  lemma InvFacts(cfg: Config, s: Kv)
    requires Inv(cfg, s)
    ensures Sound(cfg, s.core, s.generation) && !Over(cfg, s.core)
  {
  }

  lemma SoundTotals(cfg: Config, s: Kv)
    requires Sound(cfg, s.core, s.generation)
    ensures DistinctKeys(s.core.entries) && s.core.bytes == Total(s.core.entries)
  {
  }

  /** Settling drops a due entry and leaves any other. */
  lemma Settled(cfg: Config, s: Kv, k: Key, now: int)
    requires Sound(cfg, s.core, s.generation)
    ensures EntryAt(Settle(cfg, s, k, now), k) ==
      match EntryAt(s, k) case Some(e) => (if Due(e, now) then None else Some(e)) case None => None
  {
    hide Expire, Sound, Step;
    ExpireSteps(cfg, s, k);
  }

  /** A counter's text is never empty. */
  lemma CountedSize(cfg: Config, s: Kv, k: Key)
    requires Inv(cfg, s) && EntryAt(s, k).Some? && EntryAt(s, k).value.value.Num?
    ensures EntryAt(s, k).value.size > 0
  {
    var e := EntryAt(s, k).value;
    assert EntryOk(cfg, k, e);
    assert Stringify(e.value) == Decimal(e.value.n) != [];
  }
}
