/** A patch's writes on the entry list: what each stores, what eviction then drops, and when nothing
    a reader would miss is dropped. */
module PatchLists {
  import opened Decimals
  import opened ItemLists
  import opened CacheModel
  import opened CacheInvariant

  // ---- the writes of a patch ----

  ghost predicate DistinctWrites(ws: seq<Write>) { forall i, j :: 0 <= i < j < |ws| ==> ws[i].key != ws[j].key }

  predicate Writes(ws: seq<Write>, i: nat, k: Key) { exists j :: i <= j < |ws| && ws[j].key == k }

  /** The entry a write stores. */
  function EntryOf(w: Write): Entry { Entry(w.value, w.expiresAt, SizeOf(w.key, w.value)) }

  ghost predicate WritesOk(cfg: Config, ws: seq<Write>) {
    forall j :: 0 <= j < |ws| ==> EntryOk(cfg, ws[j].key, EntryOf(ws[j]))
  }

  /** The list with w written, most recently used; a write already due only drops its key. */
  function Placed(es: Items<Key, Entry>, w: Write, now: int): Items<Key, Entry> {
    var rest := Remove(es, w.key);
    if Due(EntryOf(w), now) then rest else rest + [(w.key, EntryOf(w))]
  }

  /** The list less the shortest prefix that brings both limits back. */
  function Shed(cfg: Config, es: Items<Key, Entry>): Items<Key, Entry>
    decreases |es|
  {
    if es != [] && TooBig(cfg, es) then Shed(cfg, es[1..]) else es
  }

  /** The list after the writes from i on, each followed by eviction. */
  function ShedAll(cfg: Config, es: Items<Key, Entry>, ws: seq<Write>, i: nat, now: int): Items<Key, Entry>
    requires i <= |ws|
    decreases |ws| - i
  {
    if i == |ws| then es else ShedAll(cfg, Shed(cfg, Placed(es, ws[i], now)), ws, i + 1, now)
  }

  /** Every entry some write evicts is due, or is written again by a later write. */
  predicate Spared(cfg: Config, es: Items<Key, Entry>, ws: seq<Write>, i: nat, now: int)
    requires i <= |ws|
    decreases |ws| - i
  {
    i == |ws| ||
    (var ps := Placed(es, ws[i], now);
     var ts := Shed(cfg, ps);
     && (forall j :: 0 <= j < |ps| - |ts| ==> Due(ps[j].1, now) || Writes(ws, i + 1, ps[j].0))
     && Spared(cfg, ts, ws, i + 1, now))
  }

  /** After each write in turn, count and bytes are within the limits. */
  predicate EachFits(cfg: Config, es: Items<Key, Entry>, ws: seq<Write>, i: nat, now: int)
    requires i <= |ws|
    decreases |ws| - i
  {
    i == |ws| ||
    (var ps := Placed(es, ws[i], now); !TooBig(cfg, ps) && EachFits(cfg, ps, ws, i + 1, now))
  }

  // ---- lookups after a write and after eviction ----

  lemma PlacedAt(es: Items<Key, Entry>, w: Write, now: int, k: Key)
    requires DistinctKeys(es)
    ensures DistinctKeys(Placed(es, w, now))
    ensures Get(Placed(es, w, now), k) ==
      if k != w.key then Get(es, k) else if Due(EntryOf(w), now) then None else Some(EntryOf(w))
  {
    hide Due, EntryOf;
    var rest := Remove(es, w.key);
    GetRemove(es, w.key, w.key);
    GetRemove(es, w.key, k);
    GetFind(rest, w.key);
    GetPut(rest, w.key, EntryOf(w), k);
    assert Put(rest, w.key, EntryOf(w)) == rest + [(w.key, EntryOf(w))];
  }

  lemma {:induction false} ShedSuffix(cfg: Config, es: Items<Key, Entry>)
    ensures var ts := Shed(cfg, es);
      |ts| <= |es| && ts == es[|es| - |ts|..] && (TooBig(cfg, ts) ==> ts == [])
    decreases |es|
  {
    if es != [] && TooBig(cfg, es) {
      ShedSuffix(cfg, es[1..]);
    }
  }

  /** Shed drops exactly what eviction is known to drop. */
  lemma {:induction false} ShedIsShortest(cfg: Config, es: Items<Key, Entry>, ts: Items<Key, Entry>)
    requires ShortestShed(cfg, es, ts)
    ensures ts == Shed(cfg, es)
    decreases |es|
  {
    hide TooBig;
    if |ts| == |es| {
      assert ts == es;
    } else {
      assert es[0..] == es;
      forall m | 0 <= m < |es[1..]| - |ts| ensures TooBig(cfg, es[1..][m..]) {
        assert es[1..][m..] == es[m + 1..];
      }
      assert es[1..][|es[1..]| - |ts|..] == es[|es| - |ts|..];
      ShedIsShortest(cfg, es[1..], ts);
    }
  }

  lemma ShedAt(cfg: Config, es: Items<Key, Entry>, k: Key)
    requires DistinctKeys(es)
    ensures var ts := Shed(cfg, es);
      && DistinctKeys(ts) && |ts| <= |es|
      && Get(ts, k) == if Find(es, k) < |es| - |ts| then None else Get(es, k)
  {
    hide Shed;
    ShedSuffix(cfg, es);
    var ts := Shed(cfg, es);
    GetFind(es, k);
    GetFind(ts, k);
    var n := |es| - |ts|;
    if Find(ts, k) < |ts| { FindIs(es, n + Find(ts, k)); }
  }

  lemma {:induction false} ShedAllAt(cfg: Config, es: Items<Key, Entry>, ws: seq<Write>, i: nat, now: int, k: Key)
    requires DistinctKeys(es) && i <= |ws| && !Writes(ws, i, k)
    ensures var fin := ShedAll(cfg, es, ws, i, now); Get(fin, k) == Get(es, k) || Get(fin, k) == None
    decreases |ws| - i
  {
    hide Placed, Shed, Get;
    if i < |ws| {
      var ps := Placed(es, ws[i], now);
      PlacedAt(es, ws[i], now, k);
      ShedAt(cfg, ps, k);
      ShedAllAt(cfg, Shed(cfg, ps), ws, i + 1, now, k);
    }
  }

  // ---- exactly when the writes all arrive ----

  /** In fin every written key shows its write, and every other key what it showed in es. */
  ghost predicate Arrives(fin: Items<Key, Entry>, es: Items<Key, Entry>, ws: seq<Write>, i: nat, now: int) {
    && (forall j :: i <= j < |ws| ==>
          Visible(Get(fin, ws[j].key), now) == Until(ws[j].value, ws[j].expiresAt, now))
    && forall k :: !Writes(ws, i, k) ==> Visible(Get(fin, k), now) == Visible(Get(es, k), now)
  }

  /** The writes arrive, and nothing else is lost, exactly when eviction spares what readers see. */
  lemma {:induction false} SparedIff(cfg: Config, es: Items<Key, Entry>, ws: seq<Write>, i: nat, now: int)
    requires DistinctKeys(es) && DistinctWrites(ws) && i <= |ws|
    ensures Spared(cfg, es, ws, i, now) <==> Arrives(ShedAll(cfg, es, ws, i, now), es, ws, i, now)
    decreases |ws| - i
  {
    hide Placed, Shed, Get;
    if i < |ws| {
      var ps := Placed(es, ws[i], now);
      var ts := Shed(cfg, ps);
      var fin := ShedAll(cfg, es, ws, i, now);
      PlacedAt(es, ws[i], now, ws[i].key);
      ShedAt(cfg, ps, ws[i].key);
      SparedIff(cfg, ts, ws, i + 1, now);
      if Spared(cfg, es, ws, i, now) {
        SparedArrives(cfg, es, ws, i, now);
      }
      if Arrives(fin, es, ws, i, now) {
        ArrivesSpared(cfg, es, ws, i, now);
      }
    }
  }

  /** A key not written from i + 1 on shows after write i what it should show in the end. */
  lemma NowOrNever(es: Items<Key, Entry>, ws: seq<Write>, i: nat, now: int, k: Key)
    requires DistinctKeys(es) && DistinctWrites(ws) && i < |ws| && !Writes(ws, i + 1, k)
    ensures Visible(Get(Placed(es, ws[i], now), k), now) ==
      if k == ws[i].key then Until(ws[i].value, ws[i].expiresAt, now) else Visible(Get(es, k), now)
    ensures Writes(ws, i, k) <==> k == ws[i].key
  {
    hide Placed, Get;
    PlacedAt(es, ws[i], now, k);
  }

  lemma DroppedShown(cfg: Config, ps: Items<Key, Entry>, now: int, k: Key)
    requires DistinctKeys(ps)
    ensures var ts := Shed(cfg, ps);
      && DistinctKeys(ts) && |ts| <= |ps|
      && (Visible(Get(ts, k), now) == Visible(Get(ps, k), now) || Visible(Get(ts, k), now) == None)
      && (Visible(Get(ts, k), now) != Visible(Get(ps, k), now) ==>
            exists j :: 0 <= j < |ps| - |ts| && ps[j].0 == k && !Due(ps[j].1, now))
  {
    hide Shed, Get;
    ShedAt(cfg, ps, k);
    GetFind(ps, k);
    var j := Find(ps, k);
    if j < |ps| { assert Visible(Get(ps, k), now) == None || !Due(ps[j].1, now); }
  }

  lemma SparedArrives(cfg: Config, es: Items<Key, Entry>, ws: seq<Write>, i: nat, now: int)
    requires DistinctKeys(es) && DistinctWrites(ws) && i < |ws| && Spared(cfg, es, ws, i, now)
    requires var ts := Shed(cfg, Placed(es, ws[i], now));
      Arrives(ShedAll(cfg, ts, ws, i + 1, now), ts, ws, i + 1, now)
    ensures Arrives(ShedAll(cfg, es, ws, i, now), es, ws, i, now)
  {
    hide Placed, Shed, Get, Visible, Until, Due;
    var ps := Placed(es, ws[i], now);
    var ts := Shed(cfg, ps);
    var fin := ShedAll(cfg, es, ws, i, now);
    PlacedAt(es, ws[i], now, ws[i].key);
    forall k | !Writes(ws, i + 1, k)
      ensures Visible(Get(fin, k), now) ==
        if k == ws[i].key then Until(ws[i].value, ws[i].expiresAt, now) else Visible(Get(es, k), now)
      ensures Writes(ws, i, k) <==> k == ws[i].key {
      NowOrNever(es, ws, i, now, k);
      DroppedShown(cfg, ps, now, k);
    }
    assert !Writes(ws, i + 1, ws[i].key);
  }

  lemma ArrivesSpared(cfg: Config, es: Items<Key, Entry>, ws: seq<Write>, i: nat, now: int)
    requires DistinctKeys(es) && DistinctWrites(ws) && i < |ws|
    requires Arrives(ShedAll(cfg, es, ws, i, now), es, ws, i, now)
    requires var ts := Shed(cfg, Placed(es, ws[i], now));
      Spared(cfg, ts, ws, i + 1, now) <==> Arrives(ShedAll(cfg, ts, ws, i + 1, now), ts, ws, i + 1, now)
    ensures Spared(cfg, es, ws, i, now)
  {
    hide Placed, Shed, Get;
    var ps := Placed(es, ws[i], now);
    var ts := Shed(cfg, ps);
    var fin := ShedAll(cfg, es, ws, i, now);
    PlacedAt(es, ws[i], now, ws[i].key);
    ShedAt(cfg, ps, ws[i].key);
    assert !Writes(ws, i + 1, ws[i].key);
    forall k | !Writes(ws, i + 1, k)
      ensures Visible(Get(fin, k), now) == Visible(Get(ps, k), now) == Visible(Get(ts, k), now) {
      NowOrNever(es, ws, i, now, k);
      DroppedShown(cfg, ps, now, k);
      ShedAllAt(cfg, ts, ws, i + 1, now, k);
    }
    forall j | 0 <= j < |ps| - |ts| ensures Due(ps[j].1, now) || Writes(ws, i + 1, ps[j].0) {
      GetIs(ps, j);
      FindIs(ps, j);
      ShedAt(cfg, ps, ps[j].0);
    }
  }

  // ---- when each write fits ----

  /** Then nothing is evicted at all. */
  lemma {:induction false} EachFitsSpares(cfg: Config, es: Items<Key, Entry>, ws: seq<Write>, i: nat, now: int)
    requires i <= |ws| && EachFits(cfg, es, ws, i, now)
    ensures Spared(cfg, es, ws, i, now)
    decreases |ws| - i
  {
    hide Placed, TooBig;
    if i < |ws| {
      EachFitsSpares(cfg, Placed(es, ws[i], now), ws, i + 1, now);
    }
  }

  /** Each written key ends with its write, every other key with the entry it had. */
  lemma {:induction false} EachFitsAt(cfg: Config, es: Items<Key, Entry>, ws: seq<Write>, i: nat, now: int, k: Key)
    requires DistinctKeys(es) && DistinctWrites(ws) && i <= |ws| && EachFits(cfg, es, ws, i, now)
    ensures var fin := ShedAll(cfg, es, ws, i, now);
      && (!Writes(ws, i, k) ==> Get(fin, k) == Get(es, k))
      && forall j :: i <= j < |ws| && ws[j].key == k ==>
           Get(fin, k) == if Due(EntryOf(ws[j]), now) then None else Some(EntryOf(ws[j]))
    decreases |ws| - i
  {
    hide Placed, TooBig, GetFrom, Due;
    if i < |ws| {
      var ps := Placed(es, ws[i], now);
      PlacedAt(es, ws[i], now, k);
      EachFitsAt(cfg, ps, ws, i + 1, now, k);
      assert Writes(ws, i, k) <==> ws[i].key == k || Writes(ws, i + 1, k);
    }
  }

  /** fs holds nothing that es does not. */
  ghost predicate PartOf(fs: Items<Key, Entry>, es: Items<Key, Entry>) {
    forall k :: Get(fs, k) == None || Get(fs, k) == Get(es, k)
  }

  lemma {:induction false} PartSmaller(fs: Items<Key, Entry>, es: Items<Key, Entry>)
    requires DistinctKeys(fs) && DistinctKeys(es) && PartOf(fs, es)
    ensures |fs| <= |es| && Total(fs) <= Total(es)
    decreases |fs|
  {
    hide Total, Remove, GetFrom;
    if fs != [] {
      var k := fs[0].0;
      GetIs(fs, 0);
      var fs1, es1 := Remove(fs, k), Remove(es, k);
      forall q ensures Get(fs1, q) == None || Get(fs1, q) == Get(es1, q) { GetRemove(fs, k, q); GetRemove(es, k, q); }
      GetRemove(fs, k, k);
      GetRemove(es, k, k);
      RemoveLength(fs, k);
      RemoveLength(es, k);
      PartSmaller(fs1, es1);
      TotalRemove(fs, k);
      TotalRemove(es, k);
    } else {
      TotalNatural(es);
    }
  }

  lemma TotalNatural(es: Items<Key, Entry>)
    ensures Total(es) >= 0 && Total([]) == 0
  {
  }

  lemma RemoveLength(es: Items<Key, Entry>, k: Key)
    ensures |Remove(es, k)| == |es| - (if Has(es, k) then 1 else 0)
  {
    GetFind(es, k);
  }

  /** A list holding no more, at a time no earlier, stays so when the same write is placed. */
  lemma PlacedPart(fs: Items<Key, Entry>, es: Items<Key, Entry>, w: Write, later: int, now: int)
    requires DistinctKeys(fs) && DistinctKeys(es) && PartOf(fs, es) && now <= later
    ensures var gs, ps := Placed(fs, w, later), Placed(es, w, now);
      DistinctKeys(gs) && DistinctKeys(ps) && PartOf(gs, ps)
  {
    hide Placed, GetFrom;
    var gs, ps := Placed(fs, w, later), Placed(es, w, now);
    PlacedAt(fs, w, later, w.key);
    PlacedAt(es, w, now, w.key);
    forall k ensures Get(gs, k) == None || Get(gs, k) == Get(ps, k) {
      PlacedAt(fs, w, later, k);
      PlacedAt(es, w, now, k);
    }
  }

  /** Writes that fit on a cache fit, then or later, on any replica holding no more. */
  lemma {:induction false} EachFitsOnPart(cfg: Config, fs: Items<Key, Entry>, es: Items<Key, Entry>, ws: seq<Write>,
                                          i: nat, later: int, now: int)
    requires DistinctKeys(fs) && DistinctKeys(es) && PartOf(fs, es) && now <= later
    requires i <= |ws| && EachFits(cfg, es, ws, i, now)
    ensures EachFits(cfg, fs, ws, i, later)
    decreases |ws| - i
  {
    hide Placed, Total, PartOf;
    if i < |ws| {
      PlacedPart(fs, es, ws[i], later, now);
      PartSmaller(Placed(fs, ws[i], later), Placed(es, ws[i], now));
      EachFitsOnPart(cfg, Placed(fs, ws[i], later), Placed(es, ws[i], now), ws, i + 1, later, now);
    }
  }

  // ---- deletions ----

  function RemoveAll(es: Items<Key, Entry>, ks: seq<Key>, i: nat): Items<Key, Entry>
    requires i <= |ks|
    decreases |ks| - i
  {
    if i == |ks| then es else RemoveAll(Remove(es, ks[i]), ks, i + 1)
  }

  lemma {:induction false} RemovedAt(es: Items<Key, Entry>, ks: seq<Key>, i: nat, k: Key)
    requires DistinctKeys(es) && i <= |ks|
    ensures DistinctKeys(RemoveAll(es, ks, i))
    ensures Get(RemoveAll(es, ks, i), k) == if k in ks[i..] then None else Get(es, k)
    decreases |ks| - i
  {
    if i < |ks| {
      GetRemove(es, ks[i], k);
      RemovedAt(Remove(es, ks[i]), ks, i + 1, k);
      assert ks[i..] == [ks[i]] + ks[i + 1..];
    }
  }

  lemma RemovedPart(fs: Items<Key, Entry>, es: Items<Key, Entry>, ks: seq<Key>)
    requires DistinctKeys(fs) && DistinctKeys(es) && PartOf(fs, es)
    ensures DistinctKeys(RemoveAll(fs, ks, 0)) && DistinctKeys(RemoveAll(es, ks, 0))
    ensures PartOf(RemoveAll(fs, ks, 0), RemoveAll(es, ks, 0))
  {
    hide RemoveAll, GetFrom;
    forall k ensures var gs, ps := RemoveAll(fs, ks, 0), RemoveAll(es, ks, 0);
        DistinctKeys(gs) && DistinctKeys(ps) && (Get(gs, k) == None || Get(gs, k) == Get(ps, k)) {
      RemovedAt(fs, ks, 0, k);
      RemovedAt(es, ks, 0, k);
    }
    RemovedAt(fs, ks, 0, []);
    RemovedAt(es, ks, 0, []);
  }

  // ---- a sufficient count that looks at no order ----

  function OldSize(es: Items<Key, Entry>, k: Key): nat { match Get(es, k) case None => 0 case Some(e) => e.size }

  /** How many of the written keys are new to es. */
  function Added(es: Items<Key, Entry>, ws: seq<Write>, i: nat): nat
    requires i <= |ws|
    decreases |ws| - i
  {
    if i == |ws| then 0 else (if Has(es, ws[i].key) then 0 else 1) + Added(es, ws, i + 1)
  }

  /** How many bytes the written keys may grow by, none shrinking. */
  function Grown(es: Items<Key, Entry>, ws: seq<Write>, i: nat): nat
    requires i <= |ws|
    decreases |ws| - i
  {
    if i == |ws| then 0
    else Max(0, SizeOf(ws[i].key, ws[i].value) - OldSize(es, ws[i].key)) + Grown(es, ws, i + 1)
  }

  predicate RoomFor(cfg: Config, es: Items<Key, Entry>, ws: seq<Write>, i: nat)
    requires i <= |ws|
  {
    |es| + Added(es, ws, i) <= cfg.maxEntries && Total(es) + Grown(es, ws, i) <= cfg.maxBytes
  }

  /** Room is a matter of the written keys only, beyond count and bytes. */
  lemma {:induction false} SameGrowth(es: Items<Key, Entry>, fs: Items<Key, Entry>, ws: seq<Write>, i: nat)
    requires i <= |ws| && forall j :: i <= j < |ws| ==> Get(es, ws[j].key) == Get(fs, ws[j].key)
    ensures Added(es, ws, i) == Added(fs, ws, i) && Grown(es, ws, i) == Grown(fs, ws, i)
    decreases |ws| - i
  {
    if i < |ws| {
      SameGrowth(es, fs, ws, i + 1);
    }
  }

  lemma PlacedGrowth(es: Items<Key, Entry>, w: Write, now: int)
    requires DistinctKeys(es)
    ensures var ps := Placed(es, w, now);
      && |ps| <= |es| + (if Has(es, w.key) then 0 else 1)
      && Total(ps) <= Total(es) + Max(0, SizeOf(w.key, w.value) - OldSize(es, w.key))
  {
    hide Total, SizeOf, Remove;
    var rest := Remove(es, w.key);
    RemoveLength(es, w.key);
    TotalRemove(es, w.key);
    TotalAppend(rest, [(w.key, EntryOf(w))]);
    TotalOne(w.key, EntryOf(w));
  }

  /** With room for all the writes by this count, each fits in turn, in whatever order they come. */
  lemma {:induction false} RoomEachFits(cfg: Config, es: Items<Key, Entry>, ws: seq<Write>, i: nat, now: int)
    requires DistinctKeys(es) && DistinctWrites(ws) && i <= |ws| && RoomFor(cfg, es, ws, i)
    ensures EachFits(cfg, es, ws, i, now)
    decreases |ws| - i
  {
    hide Placed, Total, SizeOf, GetFrom;
    if i < |ws| {
      var ps := Placed(es, ws[i], now);
      PlacedAt(es, ws[i], now, ws[i].key);
      PlacedGrowth(es, ws[i], now);
      forall j | i + 1 <= j < |ws| ensures Get(ps, ws[j].key) == Get(es, ws[j].key) {
        PlacedAt(es, ws[i], now, ws[j].key);
      }
      SameGrowth(ps, es, ws, i + 1);
      RoomEachFits(cfg, ps, ws, i + 1, now);
    }
  }

  // ---- deadlines ----

  ghost predicate NoneDueIn(es: Items<Key, Entry>, now: int) {
    forall k :: Get(es, k).Some? ==> !Due(Get(es, k).value, now)
  }

  /** Writing and evicting leave no due entry on a list that has none. */
  lemma {:induction false} ShedAllNoneDue(cfg: Config, es: Items<Key, Entry>, ws: seq<Write>, i: nat, now: int)
    requires DistinctKeys(es) && i <= |ws| && NoneDueIn(es, now)
    ensures NoneDueIn(ShedAll(cfg, es, ws, i, now), now)
    decreases |ws| - i
  {
    hide Placed, Shed, GetFrom, Due;
    if i < |ws| {
      var ps := Placed(es, ws[i], now);
      var ts := Shed(cfg, ps);
      PlacedAt(es, ws[i], now, ws[i].key);
      ShedAt(cfg, ps, ws[i].key);
      forall k ensures Get(ts, k).Some? ==> !Due(Get(ts, k).value, now) {
        PlacedAt(es, ws[i], now, k);
        ShedAt(cfg, ps, k);
      }
      ShedAllNoneDue(cfg, ts, ws, i + 1, now);
    }
  }
}
