/** A replica with the same limits and the same contents can overflow part-way through a patch. */
module CacheOverflow {
  import opened ItemLists
  import opened Json
  import opened CacheModel
  import opened CacheInvariant
  import opened CacheRuns
  import opened CacheContents
  import opened PatchLists
  import opened CachePatches
  import opened CacheRecovery

  const TIGHT := Config(10, 10, 1, 4, None, map[])
  const A: Key := [97]
  const B: Key := [98]
  const C: Key := [99]

  /** Four bytes of text. */
  const LARGE: Value := Null
  /** One byte of text. */
  const SMALL: Value := Num(0)

  predicate Letter(k: Key) { k == A || k == B || k == C }

  function Cell(k: Key, v: Value): (Key, Entry) { (k, Entry(v, None, SizeOf(k, v))) }

  lemma Sizes(k: Key)
    requires Letter(k)
    ensures SizeOf(k, LARGE) == 5 && SizeOf(k, SMALL) == 2 && Namespace(k) == [] && KeyFits(TIGHT, k)
    ensures Clones(LARGE, 4) && Clones(SMALL, 4) && Clones(LARGE, CLONE_BYTES) && Clones(SMALL, CLONE_BYTES)
    ensures Fits(TIGHT, k, LARGE) && Fits(TIGHT, k, SMALL)
  {
  }

  lemma SoundBytes(cfg: Config, s: Kv)
    requires Sound(cfg, s.core, s.generation)
    ensures s.core.bytes == Total(s.core.entries)
  {
  }

  lemma NotEvicted(cfg: Config, s: Kv, now: int)
    requires !Over(cfg, s.core)
    ensures Evict(cfg, s, Some(now)) == s
  {
  }

  /** A set with room stores the value last and notes its key in every change set. */
  lemma PlainSet(s: Kv, k: Key, v: Value, now: int, rest: Items<Key, Entry>, es: Items<Key, Entry>) returns (t: Kv)
    requires Inv(TIGHT, s) && Letter(k) && (v == LARGE || v == SMALL)
    requires Remove(s.core.entries, k) == rest && es == rest + [Cell(k, v)] && |es| <= 3 && Total(es) <= 10
    ensures (t, Found(v)) == Run(TIGHT, s, OpSet(k, v, None), now)
    ensures Inv(TIGHT, t) && t.core.entries == es
    ensures |t.changes| == |s.changes| && t.frames == s.frames
    ensures s.changes != [] ==> t.changes[|s.changes| - 1] == Adjoin(s.changes[|s.changes| - 1], k)
  {
    hide Inv, Step, Clones, SizeOf, Total, Fits, Namespace, KeyFits, Sound;
    Sizes(k);
    var e := Entry(v, None, SizeOf(k, v));
    assert EntryOk(TIGHT, k, e);
    SoundOf(TIGHT, s);
    t := Store(TIGHT, s, k, e);
    StoreSteps(TIGHT, s, k, e);
    StepSound(TIGHT, s, t);
    SoundBytes(TIGHT, t);
    NotEvicted(TIGHT, t, now);
    RunSteps(TIGHT, s, OpSet(k, v, None), now);
  }

  lemma RemoveAmong(x: (Key, Entry), y: (Key, Entry), z: (Key, Entry))
    requires x.0 != y.0 && y.0 != z.0 && x.0 != z.0
    ensures Remove<Key, Entry>([], x.0) == [] && Remove([x], y.0) == [x] && Remove([x, y], z.0) == [x, y]
    ensures Remove([x, y, z], z.0) == [x, y] && Remove([x, y, z], y.0) == [x, z]
  {
    FindIs([x, y, z], 1);
    FindIs([x, y, z], 2);
  }

  /** Three entries, the middle one large. */
  lemma Filled(now: int) returns (s: Kv, es: seq<Event>)
    ensures es == [Call(OpSet(C, SMALL, None), now), Call(OpSet(B, LARGE, None), now), Call(OpSet(A, SMALL, None), now)]
    ensures s == After(TIGHT, EMPTY, es) && Inv(TIGHT, s)
    ensures s.core.entries == [Cell(C, SMALL), Cell(B, LARGE), Cell(A, SMALL)]
  {
    hide Inv, Run, Total, Remove, SizeOf;
    EmptyInv(TIGHT);
    Totals();
    RemoveAmong(Cell(C, SMALL), Cell(B, LARGE), Cell(A, SMALL));
    var c, b, a := Cell(C, SMALL), Cell(B, LARGE), Cell(A, SMALL);
    var s1 := PlainSet(EMPTY, C, SMALL, now, [], [c]);
    var s2 := PlainSet(s1, B, LARGE, now, [c], [c, b]);
    s := PlainSet(s2, A, SMALL, now, [c, b], [c, b, a]);
    es := [Call(OpSet(C, SMALL, None), now), Call(OpSet(B, LARGE, None), now), Call(OpSet(A, SMALL, None), now)];
    ThreeEvents(EMPTY, es[0], es[1], es[2]);
  }

  lemma ThreeEvents(s: Kv, e1: Event, e2: Event, e3: Event)
    ensures After(TIGHT, s, [e1, e2, e3]) == Next(TIGHT, Next(TIGHT, Next(TIGHT, s, e1), e2), e3)
  {
    hide Next;
    assert [e1, e2, e3][1..] == [e2, e3] && [e2, e3][1..] == [e3] && [e3][1..] == [];
    var s1, s2 := Next(TIGHT, s, e1), Next(TIGHT, Next(TIGHT, s, e1), e2);
    assert After(TIGHT, s, [e1, e2, e3]) == After(TIGHT, s1, [e2, e3]);
    assert After(TIGHT, s1, [e2, e3]) == After(TIGHT, s2, [e3]);
    assert After(TIGHT, s2, [e3]) == After(TIGHT, Next(TIGHT, s2, e3), []);
  }

  lemma Totals()
    ensures Total([Cell(C, SMALL)]) == 2 && Total([Cell(C, SMALL), Cell(B, LARGE)]) == 7
    ensures Total([Cell(C, SMALL), Cell(B, LARGE), Cell(A, SMALL)]) == 9
    ensures Total([Cell(C, SMALL), Cell(A, SMALL), Cell(B, SMALL)]) == 6
    ensures Total([Cell(C, SMALL), Cell(B, SMALL), Cell(A, LARGE)]) == 9
    ensures Total([Cell(C, SMALL), Cell(B, LARGE), Cell(A, LARGE)]) == 12
  {
    hide SizeOf, Total;
    Sizes(A);
    Sizes(B);
    Sizes(C);
    Three(Cell(C, SMALL), Cell(B, LARGE), Cell(A, SMALL));
    Three(Cell(C, SMALL), Cell(A, SMALL), Cell(B, SMALL));
    Three(Cell(C, SMALL), Cell(B, SMALL), Cell(A, LARGE));
    Three(Cell(C, SMALL), Cell(B, LARGE), Cell(A, LARGE));
  }

  lemma Three(x: (Key, Entry), y: (Key, Entry), z: (Key, Entry))
    ensures Total([x]) == x.1.size && Total([x, y]) == x.1.size + y.1.size
    ensures Total([x, y, z]) == x.1.size + y.1.size + z.1.size
  {
    TotalOne(x.0, x.1);
    TotalOne(y.0, y.1);
    TotalOne(z.0, z.1);
    TotalAppend([x], [y]);
    TotalAppend([x, y], [z]);
    assert [x] + [y] == [x, y] && [x, y] + [z] == [x, y, z];
  }

  /** The body sets a small, b smaller than it was, then a large: within the limits throughout. */
  lemma Body(s: Kv, now: int) returns (t: Kv, ops: seq<Op>)
    requires Inv(TIGHT, s) && s.core.entries == [Cell(C, SMALL), Cell(B, LARGE), Cell(A, SMALL)]
    ensures ops == [OpSet(A, SMALL, None), OpSet(B, SMALL, None), OpSet(A, LARGE, None)]
    ensures RunQueue(TIGHT, BeginChanges(s), ops, 0, now, []).0 == t
        && RunQueue(TIGHT, BeginChanges(s), ops, 0, now, []).1.Some?
    ensures t.core.entries == [Cell(C, SMALL), Cell(B, SMALL), Cell(A, LARGE)]
    ensures Inv(TIGHT, t) && |t.changes| == |s.changes| + 1 && t.changes[|s.changes|] == [A, B] && t.frames != []
  {
    hide Inv, Run, Total, Remove, SizeOf, RunQueue, Adjoin;
    Totals();
    NextInv(TIGHT, s, OpenChanges);
    NextInv(TIGHT, Next(TIGHT, s, OpenChanges), BeginFrame);
    var c, b, a := Cell(C, SMALL), Cell(B, LARGE), Cell(A, SMALL);
    var d, e := Cell(B, SMALL), Cell(A, LARGE);
    RemoveAmong(c, b, a);
    RemoveAmong(c, a, d);
    var t1 := PlainSet(BeginChanges(s), A, SMALL, now, [c, b], [c, b, a]);
    var t2 := PlainSet(t1, B, SMALL, now, [c, a], [c, a, d]);
    t := PlainSet(t2, A, LARGE, now, [c, d], [c, d, e]);
    AdjoinTwo();
    ops := [OpSet(A, SMALL, None), OpSet(B, SMALL, None), OpSet(A, LARGE, None)];
    BodyRuns(BeginChanges(s), t1, t2, t, ops, now);
  }

  lemma AdjoinTwo()
    ensures Adjoin(Adjoin(Adjoin([], A), B), A) == [A, B]
  {
  }

  lemma BodyRuns(s: Kv, t1: Kv, t2: Kv, t: Kv, ops: seq<Op>, now: int)
    requires |ops| == 3
    requires Run(TIGHT, s, ops[0], now) == (t1, Found(SMALL)) && Run(TIGHT, t1, ops[1], now) == (t2, Found(SMALL))
    requires Run(TIGHT, t2, ops[2], now) == (t, Found(LARGE))
    ensures RunQueue(TIGHT, s, ops, 0, now, []).0 == t && RunQueue(TIGHT, s, ops, 0, now, []).1.Some?
  {
    hide Run, RunQueue;
    var u1, r1 := OneOp(s, ops, 0, now, []);
    var u2, r2 := OneOp(t1, ops, 1, now, [] + [r1]);
    var u3, r3 := OneOp(t2, ops, 2, now, [] + [r1] + [r2]);
    QueueDone(t, ops, now, [] + [r1] + [r2] + [r3]);
  }

  lemma OneOp(s: Kv, ops: seq<Op>, i: nat, now: int, replies: seq<Reply>) returns (t: Kv, r: Reply)
    requires i < |ops| && Run(TIGHT, s, ops[i], now).1 != Threw
    ensures (t, r) == Run(TIGHT, s, ops[i], now)
    ensures RunQueue(TIGHT, s, ops, i, now, replies) == RunQueue(TIGHT, t, ops, i + 1, now, replies + [r])
  {
    hide Run;
    t, r := Run(TIGHT, s, ops[i], now).0, Run(TIGHT, s, ops[i], now).1;
  }

  lemma QueueDone(t: Kv, ops: seq<Op>, now: int, replies: seq<Reply>)
    ensures RunQueue(TIGHT, t, ops, |ops|, now, replies) == (t, Some(replies))
  {
  }

  lemma Gathered(t: Kv, now: int)
    requires Inv(TIGHT, t) && t.core.entries == [Cell(C, SMALL), Cell(B, SMALL), Cell(A, LARGE)]
    ensures View(t, A, now) == Some((LARGE, None)) && View(t, B, now) == Some((SMALL, None))
        && View(t, C, now) == Some((SMALL, None))
    ensures Gather(t, [A, B], 0, now) == Fine(Patch([Write(A, LARGE, None), Write(B, SMALL, None)], []))
  {
    hide Inv, Clones, SizeOf;
    Sizes(A);
    InvSound(TIGHT, t);
    GetIs(t.core.entries, 0);
    GetIs(t.core.entries, 1);
    GetIs(t.core.entries, 2);
    GatherTwo(t, now);
  }

  lemma GatherTwo(t: Kv, now: int)
    requires View(t, A, now) == Some((LARGE, None)) && View(t, B, now) == Some((SMALL, None))
    ensures Gather(t, [A, B], 0, now) == Fine(Patch([Write(A, LARGE, None), Write(B, SMALL, None)], []))
  {
    hide View, Clones;
    Sizes(A);
    var ks := [A, B];
    var rest := Patch([Write(B, SMALL, None)], []);
    assert Gather(t, ks, 2, now) == Fine(Patch([], []));
    assert ks[1] == B && [Write(B, SMALL, None)] + [] == [Write(B, SMALL, None)];
    assert Gather(t, ks, 1, now) == Fine(rest);
    assert ks[0] == A && [Write(A, LARGE, None)] + rest.entries == [Write(A, LARGE, None), Write(B, SMALL, None)];
  }

  lemma ClosedShows(u: Kv, k: Key, now: int)
    requires u.frames != [] && u.changes != [] && Gather(u, u.changes[|u.changes| - 1], 0, now).Fine?
    ensures var (t, p) := EndChanges(u, true, true, now);
      View(t, k, now) == View(u, k, now) && p == Some(Gather(u, u.changes[|u.changes| - 1], 0, now).value)
  {
    hide Gather;
  }

  const C_SMALL := Cell(C, SMALL)
  const B_LARGE := Cell(B, LARGE)
  const B_SMALL := Cell(B, SMALL)
  const A_LARGE := Cell(A, LARGE)
  const A_SMALL := Cell(A, SMALL)

  /** Writing a large while b is still large. */
  lemma GrowFirst(now: int)
    ensures var ps := Placed([C_SMALL, B_LARGE, A_SMALL], Write(A, LARGE, None), now);
      ps == [C_SMALL, B_LARGE, A_LARGE] && TooBig(TIGHT, ps) && Shed(TIGHT, ps) == [B_LARGE, A_LARGE]
  {
    hide Total, SizeOf, Remove;
    Totals();
    Sizes(A);
    Sizes(B);
    RemoveAmong(C_SMALL, B_LARGE, A_SMALL);
    Three(B_LARGE, A_LARGE, A_LARGE);
    var ps := [C_SMALL, B_LARGE, A_LARGE];
    assert [C_SMALL, B_LARGE] + [A_LARGE] == ps && ps[1..] == [B_LARGE, A_LARGE];
    assert Shed(TIGHT, ps) == Shed(TIGHT, ps[1..]);
  }

  /** The patch as logged loses c, and the conditions say so. */
  lemma ReplayLoses(es: Items<Key, Entry>, p: Patch, now: int)
    requires es == [C_SMALL, B_LARGE, A_SMALL] && DistinctKeys(es)
    requires p == Patch([Write(A, LARGE, None), Write(B, SMALL, None)], [])
    ensures !Spares(TIGHT, es, p, now) && !EachWriteFits(TIGHT, es, p, now) && !HasRoom(TIGHT, es, p)
    ensures Get(Replayed(TIGHT, es, p, now), C) == None
  {
    hide Placed, Shed, RoomFor, TooBig, GetFrom;
    var ws := p.entries;
    assert RemoveAll(es, [], 0) == es;
    GrowFirst(now);
    var ps := Placed(es, ws[0], now);
    PlacedAt(es, ws[0], now, C);
    GetFind(ps, C);
    FindIs(ps, 0);
    ShedAt(TIGHT, ps, C);
    ShedAllAt(TIGHT, Shed(TIGHT, ps), ws, 1, now, C);
    assert ps[0] == C_SMALL && !Writes(ws, 1, C) && !Due(ps[0].1, now);
    if EachWriteFits(TIGHT, es, p, now) { EachFitsSpares(TIGHT, es, ws, 0, now); }
    if HasRoom(TIGHT, es, p) { RoomEachFits(TIGHT, es, ws, 0, now); }
  }

  /** The same writes in the other order fit one after the other, though there is no room by the count. */
  lemma ShrinkFirst(es: Items<Key, Entry>, now: int)
    requires es == [C_SMALL, B_LARGE, A_SMALL] && DistinctKeys(es)
    ensures var p := Patch([Write(B, SMALL, None), Write(A, LARGE, None)], []);
      EachWriteFits(TIGHT, es, p, now) && !HasRoom(TIGHT, es, p)
  {
    hide Total, SizeOf, Remove, Get;
    var p := Patch([Write(B, SMALL, None), Write(A, LARGE, None)], []);
    var ws := p.entries;
    Totals();
    Sizes(A);
    Sizes(B);
    RemoveAmong(C_SMALL, B_LARGE, A_SMALL);
    RemoveAmong(C_SMALL, A_SMALL, B_SMALL);
    var ps := [C_SMALL, A_SMALL, B_SMALL];
    var qs := [C_SMALL, B_SMALL, A_LARGE];
    assert RemoveAll(es, [], 0) == es;
    assert Placed(es, ws[0], now) == ps by { assert [C_SMALL, A_SMALL] + [B_SMALL] == ps; }
    assert Placed(ps, ws[1], now) == qs by { assert [C_SMALL, B_SMALL] + [A_LARGE] == qs; }
    assert EachFits(TIGHT, qs, ws, 2, now);
    assert EachFits(TIGHT, ps, ws, 1, now);
    GetIs(es, 2);
    assert Grown(es, ws, 1) >= 3;
  }

  /** An evicted key that the patch writes again is no loss: the replay is right, though a write overflows. */
  lemma RewrittenSpared(es: Items<Key, Entry>, now: int)
    requires es == [C_SMALL, B_LARGE, A_SMALL] && DistinctKeys(es)
    ensures var p := Patch([Write(A, LARGE, None), Write(B, SMALL, None), Write(C, SMALL, None)], []);
      Spares(TIGHT, es, p, now) && !EachWriteFits(TIGHT, es, p, now)
  {
    hide Total, SizeOf, Remove, Shed;
    var p := Patch([Write(A, LARGE, None), Write(B, SMALL, None), Write(C, SMALL, None)], []);
    var ws := p.entries;
    assert RemoveAll(es, [], 0) == es;
    GrowFirst(now);
    Sizes(A);
    Sizes(B);
    Sizes(C);
    RemoveTwo(B_LARGE, A_LARGE);
    RemoveTwo(A_LARGE, B_SMALL);
    Three(A_LARGE, B_SMALL, C_SMALL);
    var ps := [A_LARGE, B_SMALL];
    var qs := [A_LARGE, B_SMALL, C_SMALL];
    assert Placed([B_LARGE, A_LARGE], ws[1], now) == ps by { assert [A_LARGE] + [B_SMALL] == ps; }
    assert Placed(ps, ws[2], now) == qs by { assert ps + [C_SMALL] == qs; }
    assert Shed(TIGHT, ps) == ps by { ShedSmall(ps); }
    assert Shed(TIGHT, qs) == qs by { ShedSmall(qs); }
    assert Spared(TIGHT, qs, ws, 3, now);
    assert Spared(TIGHT, ps, ws, 2, now);
    assert Spared(TIGHT, [B_LARGE, A_LARGE], ws, 1, now);
    assert ws[2].key == C && Writes(ws, 1, C);
  }

  lemma RemoveTwo(x: (Key, Entry), y: (Key, Entry))
    requires x.0 != y.0
    ensures Remove([x, y], x.0) == [y]
    ensures forall k :: k != x.0 && k != y.0 ==> Remove([x, y], k) == [x, y]
  {
    FindIs([x, y], 0);
    forall k | k != x.0 && k != y.0 ensures Remove([x, y], k) == [x, y] { GetFind([x, y], k); }
  }

  lemma ShedSmall(es: Items<Key, Entry>)
    requires !TooBig(TIGHT, es)
    ensures Shed(TIGHT, es) == es
  {
  }

  /** The limits are the same, the contents are the same, and the source kept within the limits
      throughout; yet replaying the patch it logged loses a key it kept. */
  lemma SameLimitsOverflow(now: int) returns (es: seq<Event>, ops: seq<Op>, p: Patch)
    ensures var s := After(TIGHT, EMPTY, es);
      var (t, logged) := DoAtomicChanges(TIGHT, s, ops, true, now);
      && Configured(TIGHT) && Inv(TIGHT, s) && logged == Some(p)
      && View(t, C, now).Some? && View(DoApplyPatch(TIGHT, s, p, now).0, C, now) == None
      && !Spares(TIGHT, s.core.entries, p, now) && !HasRoom(TIGHT, s.core.entries, p)
  {
    hide Inv, RunQueue, Run, Gather, After, BeginChanges, HasRoom, Spares, EachWriteFits, DoApplyPatch, Replayed,
      GetFrom;
    var s;
    s, es := Filled(now);
    var u;
    u, ops := Body(s, now);
    Gathered(u, now);
    p := Patch([Write(A, LARGE, None), Write(B, SMALL, None)], []);
    ClosedShows(u, C, now);
    InvSound(TIGHT, s);
    assert SameView(s, s, now);
    LoggedCallReplays(TIGHT, s, ops, now, s, now);
    ReplayLoses(s.core.entries, p, now);
    ViewIs(DoApplyPatch(TIGHT, s, p, now).0, C, now);
  }
}
