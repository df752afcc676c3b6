/** End to end: what a restart rebuilds from the snapshot and the log is what the live cache showed. */
module CacheRecovery {
  import opened ItemLists
  import opened CacheModel
  import opened CacheInvariant
  import opened CacheRuns
  import opened CacheContents
  import opened PatchLists
  import opened CachePatches
  import opened CacheChanges
  import opened CacheSnapshots
  import Log = AppendLog
  import Disk = Durability

  // ---- one logged call ----

  /** The patch of an accepted call, applied on any replica that shows what the cache showed before
      the call, makes it show what the cache showed after it exactly when eviction spares it. */
  lemma LoggedCallReplays(cfg: Config, s: Kv, ops: seq<Op>, now: int, r: Kv, later: int)
    requires Configured(cfg) && Inv(cfg, s) && Inv(cfg, r) && now <= later && SameView(r, s, later)
    requires DoAtomicChanges(cfg, s, ops, true, now).1.Some?
    ensures var (t, p) := DoAtomicChanges(cfg, s, ops, true, now);
      var (u, ok) := DoApplyPatch(cfg, r, p.value, later);
      && ok && Inv(cfg, t) && Inv(cfg, u) && u.core.entries == Replayed(cfg, r.core.entries, p.value, later)
      && (SameView(u, t, later) <==> Spares(cfg, r.core.entries, p.value, later))
  {
    hide Inv, DoAtomicChanges, DoApplyPatch, Gather, After, BeginChanges, Spares, Replayed, View;
    AcceptedCall(cfg, s, ops, now);
    var (t, p) := DoAtomicChanges(cfg, s, ops, true, now);
    var v := After(cfg, BeginChanges(s), Calls(ops, now));
    PatchReplaysIff(cfg, s, Calls(ops, now), now, p.value, r, later);
    forall k ensures View(t, k, later) == View(v, k, later) { SameCore(t, v, k, later); }
  }

  lemma SameCore(t: Kv, v: Kv, k: Key, now: int)
    requires t.core == v.core
    ensures View(t, k, now) == View(v, k, now)
  {
  }

  // ---- calls whose writes fit ----

  /** A replica without due entries that shows what s shows holds no more than s. */
  ghost predicate NoneDue(r: Kv, now: int) { NoneDueIn(r.core.entries, now) }

  lemma ReplicaPart(cfg: Config, r: Kv, s: Kv, now: int)
    requires Inv(cfg, r) && Inv(cfg, s) && SameView(r, s, now) && NoneDue(r, now)
    ensures PartOf(r.core.entries, s.core.entries)
  {
    forall k ensures EntryAt(r, k) == None || EntryAt(r, k) == EntryAt(s, k) {
      assert Get(r.core.entries, k).Some? ==> !Due(Get(r.core.entries, k).value, now);
      if EntryAt(r, k).Some? {
        assert View(r, k, now) == View(s, k, now);
        assert EntryOk(cfg, k, EntryAt(r, k).value) && EntryOk(cfg, k, EntryAt(s, k).value);
      }
    }
    forall k ensures Get(r.core.entries, k) == None || Get(r.core.entries, k) == Get(s.core.entries, k) {
      assert EntryAt(r, k) == None || EntryAt(r, k) == EntryAt(s, k);
    }
  }

  /** Where each write of a patch fits on the cache, it fits on the replica, then or later. */
  lemma FitsOnReplica(cfg: Config, r: Kv, s: Kv, p: Patch, now: int, later: int)
    requires Inv(cfg, r) && Inv(cfg, s) && SameView(r, s, later) && NoneDue(r, later) && now <= later
    requires EachWriteFits(cfg, s.core.entries, p, now)
    ensures EachWriteFits(cfg, r.core.entries, p, later)
  {
    hide Inv, RemoveAll, EachFits, PartOf, SameView, NoneDue;
    ReplicaPart(cfg, r, s, later);
    InvSound(cfg, r);
    InvSound(cfg, s);
    RemovedPart(r.core.entries, s.core.entries, p.deleted);
    EachFitsOnPart(cfg, RemoveAll(r.core.entries, p.deleted, 0), RemoveAll(s.core.entries, p.deleted, 0),
                   p.entries, 0, later, now);
  }

  /** The body left every key but k showing what it did, or nothing. */
  ghost predicate OnlyTouches(s: Kv, t: Kv, k: Key, now: int) {
    forall q :: q != k ==> View(t, q, now) == View(s, q, now) || View(t, q, now) == None
  }

  /** Up to the write of k the list holds no more than the cache did before the call, from then on no
      more than it does after it. */
  lemma {:induction false} OneKeyFitsFrom(cfg: Config, s: Kv, t: Kv, es: Items<Key, Entry>, ws: seq<Write>, i: nat,
                                          k: Key, now: int)
    requires Inv(cfg, s) && Inv(cfg, t) && DistinctKeys(es) && i <= |ws| && DistinctWrites(ws)
    requires forall j :: 0 <= j < |ws| ==> EntryAt(t, ws[j].key) == Some(EntryOf(ws[j]))
    requires forall j :: 0 <= j < |ws| && ws[j].key != k ==> EntryAt(s, ws[j].key) == Some(EntryOf(ws[j]))
    requires forall q :: q != k ==> Get(es, q) == None || Get(es, q) == EntryAt(t, q)
    requires if Writes(ws, i, k) then PartOf(es, s.core.entries) else PartOf(es, t.core.entries)
    ensures EachFits(cfg, es, ws, i, now)
    decreases |ws| - i
  {
    hide Inv, Placed, GetFrom, Get, Due, EntryOf, TooBig;
    if i < |ws| {
      var ps := Placed(es, ws[i], now);
      PlacedAt(es, ws[i], now, k);
      assert Writes(ws, i, k) <==> ws[i].key == k || Writes(ws, i + 1, k);
      forall q
        ensures q != k ==> Get(ps, q) == None || Get(ps, q) == EntryAt(t, q)
        ensures Writes(ws, i + 1, k) ==> Get(ps, q) == None || Get(ps, q) == EntryAt(s, q)
        ensures !Writes(ws, i + 1, k) ==> Get(ps, q) == None || Get(ps, q) == EntryAt(t, q) {
        PlacedAt(es, ws[i], now, q);
      }
      if Writes(ws, i + 1, k) { PartFits(cfg, ps, s); } else { PartFits(cfg, ps, t); }
      OneKeyFitsFrom(cfg, s, t, ps, ws, i + 1, k, now);
    }
  }

  lemma PartFits(cfg: Config, es: Items<Key, Entry>, s: Kv)
    requires Inv(cfg, s) && DistinctKeys(es) && forall q :: Get(es, q) == None || Get(es, q) == EntryAt(s, q)
    ensures PartOf(es, s.core.entries) && !TooBig(cfg, es)
  {
    hide Inv, Total, GetFrom;
    InvSound(cfg, s);
    forall q ensures Get(es, q) == None || Get(es, q) == Get(s.core.entries, q) {
      assert Get(es, q) == None || Get(es, q) == EntryAt(s, q);
    }
    PartSmaller(es, s.core.entries);
  }

  /** What shows an entry's value and deadline is that entry. */
  lemma ShownEntry(cfg: Config, s: Kv, w: Write, now: int)
    requires Inv(cfg, s) && View(s, w.key, now) == Some((w.value, w.expiresAt))
    ensures EntryAt(s, w.key) == Some(EntryOf(w))
  {
    assert EntryOk(cfg, w.key, EntryAt(s, w.key).value);
  }

  /** A call whose body touches what one key shows, evicting others or not, always fits: its patch
      replays on any replica holding no more. */
  lemma OneKeyFits(cfg: Config, s: Kv, ops: seq<Op>, k: Key, now: int)
    requires Configured(cfg) && Inv(cfg, s) && DoAtomicChanges(cfg, s, ops, true, now).1.Some?
    requires OnlyTouches(s, DoAtomicChanges(cfg, s, ops, true, now).0, k, now)
    ensures EachWriteFits(cfg, s.core.entries, DoAtomicChanges(cfg, s, ops, true, now).1.value, now)
  {
    hide Inv, DoAtomicChanges, Gather, After, BeginChanges, View, EachFits, RemoveAll, Get, EntryOf, OnlyTouches;
    var (t, logged) := DoAtomicChanges(cfg, s, ops, true, now);
    var p := logged.value;
    AcceptedCall(cfg, s, ops, now);
    var es := Calls(ops, now);
    ChangesCover(cfg, s, es);
    var u := After(cfg, BeginChanges(s), es);
    var keys := u.changes[|s.changes|];
    GatherIsPatch(u, keys, 0, now);
    assert keys[0..] == keys;
    InvSound(cfg, s);
    var m := RemoveAll(s.core.entries, p.deleted, 0);
    forall j | 0 <= j < |p.entries|
      ensures EntryAt(t, p.entries[j].key) == Some(EntryOf(p.entries[j]))
      ensures p.entries[j].key != k ==> EntryAt(s, p.entries[j].key) == Some(EntryOf(p.entries[j])) {
      WrittenEntry(cfg, s, t, u, keys, p, j, k, now);
    }
    forall q
      ensures DistinctKeys(m)
      ensures Get(m, q) == None || Get(m, q) == EntryAt(s, q)
      ensures (q != k || !Writes(p.entries, 0, q)) ==> Get(m, q) == None || Get(m, q) == EntryAt(t, q) {
      RestAt(s, t, u, keys, p, now, q);
      if j :| 0 <= j < |p.entries| && p.entries[j].key == q { assert EntryAt(t, q) == EntryAt(s, q) || q == k; }
    }
    assert DistinctKeys(m) by { RemovedAt(s.core.entries, p.deleted, 0, []); }
    PartFits(cfg, m, s);
    if !Writes(p.entries, 0, k) { PartFits(cfg, m, t); }
    OneKeyFitsFrom(cfg, s, t, m, p.entries, 0, k, now);
  }

  lemma WrittenEntry(cfg: Config, s: Kv, t: Kv, u: Kv, keys: seq<Key>, p: Patch, j: nat, k: Key, now: int)
    requires Inv(cfg, s) && Inv(cfg, t) && t.core == u.core && IsPatch(u, keys, p, now) && j < |p.entries|
    requires OnlyTouches(s, t, k, now)
    ensures EntryAt(t, p.entries[j].key) == Some(EntryOf(p.entries[j]))
    ensures p.entries[j].key != k ==> EntryAt(s, p.entries[j].key) == Some(EntryOf(p.entries[j]))
  {
    hide Inv, EntryOf;
    var w := p.entries[j];
    SameCore(t, u, w.key, now);
    ShownEntry(cfg, t, w, now);
    if w.key != k { ShownEntry(cfg, s, w, now); }
  }

  /** What the deletions of the patch leave is unchanged, or written by the patch. */
  lemma RestAt(s: Kv, t: Kv, u: Kv, keys: seq<Key>, p: Patch, now: int, q: Key)
    requires t.core == u.core && IsPatch(u, keys, p, now) && DistinctKeys(s.core.entries)
    requires EntryAt(u, q) != EntryAt(s, q) ==> q in keys
    ensures DistinctKeys(RemoveAll(s.core.entries, p.deleted, 0))
    ensures var m := RemoveAll(s.core.entries, p.deleted, 0);
      && (Get(m, q) == None || Get(m, q) == EntryAt(s, q))
      && (!Writes(p.entries, 0, q) ==> Get(m, q) == None || Get(m, q) == EntryAt(t, q))
  {
    hide RemoveAll, GetFrom;
    RemovedAt(s.core.entries, p.deleted, 0, q);
    assert p.deleted[0..] == p.deleted;
  }

  /** In particular every call whose body is single-key operations on one key. */
  lemma SingleKeyFits(cfg: Config, s: Kv, ops: seq<Op>, k: Key, now: int)
    requires Configured(cfg) && Inv(cfg, s) && DoAtomicChanges(cfg, s, ops, true, now).1.Some?
    requires forall i :: 0 <= i < |ops| ==> SingleKey(ops[i]) && ops[i].key == k
    ensures EachWriteFits(cfg, s.core.entries, DoAtomicChanges(cfg, s, ops, true, now).1.value, now)
  {
    hide Inv, DoAtomicChanges, EachWriteFits, View, RunQueue, OnlyTouches;
    NextInv(cfg, s, OpenChanges);
    NextInv(cfg, Next(cfg, s, OpenChanges), BeginFrame);
    QueueTouches(cfg, BeginChanges(s), ops, 0, k, now, []);
    assert OnlyTouches(s, DoAtomicChanges(cfg, s, ops, true, now).0, k, now) by { EndTouches(cfg, s, ops, k, now); }
    OneKeyFits(cfg, s, ops, k, now);
  }

  lemma {:induction false} QueueTouches(cfg: Config, s: Kv, ops: seq<Op>, i: nat, k: Key, now: int, replies: seq<Reply>)
    requires Configured(cfg) && Inv(cfg, s) && i <= |ops|
    requires forall j :: 0 <= j < |ops| ==> SingleKey(ops[j]) && ops[j].key == k
    ensures OnlyTouches(s, RunQueue(cfg, s, ops, i, now, replies).0, k, now)
    decreases |ops| - i
  {
    hide Inv, Run, View, Meaning;
    if i < |ops| {
      var (t, r) := Run(cfg, s, ops[i], now);
      OperationsMean(cfg, s, ops[i], now);
      NextInv(cfg, s, Call(ops[i], now));
      if r != Threw {
        QueueTouches(cfg, t, ops, i + 1, k, now, replies + [r]);
      }
    }
  }

  /** Opening and closing the frame and the change set show nothing. */
  lemma EndTouches(cfg: Config, s: Kv, ops: seq<Op>, k: Key, now: int)
    requires DoAtomicChanges(cfg, s, ops, true, now).1.Some?
    requires OnlyTouches(BeginChanges(s), RunQueue(cfg, BeginChanges(s), ops, 0, now, []).0, k, now)
    ensures OnlyTouches(s, DoAtomicChanges(cfg, s, ops, true, now).0, k, now)
  {
    hide RunQueue, Gather, View;
    var u := RunQueue(cfg, BeginChanges(s), ops, 0, now, []).0;
    var t := DoAtomicChanges(cfg, s, ops, true, now).0;
    CommitCore(u);
    forall q | q != k ensures View(t, q, now) == View(s, q, now) || View(t, q, now) == None {
      SameCore(t, u, q, now);
      SameCore(BeginChanges(s), s, q, now);
      assert View(u, q, now) == View(BeginChanges(s), q, now) || View(u, q, now) == None;
    }
  }

  // ---- the server's history and what a restart rebuilds ----

  /** What a server does to its cache: reads and sweeps; calls of atomicChanges, whose callback appends to
      the log and may refuse; and, after a restart, going on from a cache that shows what the last one did. */
  datatype Act =
    | Quiet(op: Op, now: int)
    | Changes(ops: seq<Op>, accepts: bool, now: int)
    | Reload(to: Kv, now: int)

  predicate Reads(op: Op) { op.OpGet? || op.OpTtl? || op.OpGetVersion? || op.OpSweep? }

  function Served(cfg: Config, s: Kv, a: Act): Kv {
    match a
    case Quiet(op, now) => Run(cfg, s, op, now).0
    case Changes(ops, accepts, now) => DoAtomicChanges(cfg, s, ops, accepts, now).0
    case Reload(to, _) => to
  }

  /** The log record of an accepted call. */
  function Logs(cfg: Config, s: Kv, a: Act): seq<Patch> {
    if !a.Changes? then []
    else match DoAtomicChanges(cfg, s, a.ops, a.accepts, a.now).1 case Some(p) => [p] case None => []
  }

  function CacheAt(cfg: Config, acts: seq<Act>, i: nat): Kv
    requires i <= |acts|
  {
    if i == 0 then EMPTY else Served(cfg, CacheAt(cfg, acts, i - 1), acts[i - 1])
  }

  /** The patches the first i acts handed to the log. */
  function LoggedBy(cfg: Config, acts: seq<Act>, i: nat): seq<Patch>
    requires i <= |acts|
  {
    if i == 0 then [] else LoggedBy(cfg, acts, i - 1) + Logs(cfg, CacheAt(cfg, acts, i - 1), acts[i - 1])
  }

  /** No clock reading is later than the restart, and the writes of an accepted call fitted one after the
      other; of a refused one nothing is asked. */
  ghost predicate ActOk(cfg: Config, s: Kv, a: Act, later: int) {
    a.now <= later &&
    match a
    case Quiet(op, _) => Reads(op)
    case Changes(_, _, now) => forall p :: p in Logs(cfg, s, a) ==> EachWriteFits(cfg, s.core.entries, p, now)
    case Reload(to, now) => Inv(cfg, to) && SameView(to, s, now)
  }

  ghost predicate History(cfg: Config, acts: seq<Act>, later: int) {
    forall i :: 0 <= i < |acts| ==> ActOk(cfg, CacheAt(cfg, acts, i), acts[i], later)
  }

  function ReplayAll(cfg: Config, r: Kv, ps: seq<Patch>, i: nat, now: int): Kv
    requires i <= |ps|
    decreases |ps| - i
  {
    if i == |ps| then r else ReplayAll(cfg, DoApplyPatch(cfg, r, ps[i], now).0, ps, i + 1, now)
  }

  lemma ViewLater(a: Kv, b: Kv, now: int, later: int)
    requires SameView(a, b, now) && now <= later
    ensures SameView(a, b, later)
  {
    forall k ensures View(a, k, later) == View(b, k, later) {
      assert View(a, k, now) == View(b, k, now);
    }
  }

  /** Reads and sweeps show nothing new. */
  lemma QuietShows(cfg: Config, s: Kv, op: Op, now: int, later: int)
    requires Configured(cfg) && Inv(cfg, s) && Reads(op) && now <= later
    ensures Inv(cfg, Run(cfg, s, op, now).0) && SameView(Run(cfg, s, op, now).0, s, later)
  {
    hide Inv, Run, View, Room;
    var t := Run(cfg, s, op, now).0;
    NextInv(cfg, s, Call(op, now));
    if op.OpSweep? {
      SweptView(cfg, s, now);
    } else {
      OperationsMean(cfg, s, op, now);
      forall k ensures View(t, k, now) == View(s, k, now) { ReadShows(cfg, s, op, now, k); }
    }
    ViewLater(t, s, now, later);
  }

  lemma SweptView(cfg: Config, s: Kv, now: int)
    requires Inv(cfg, s)
    ensures SameView(Run(cfg, s, OpSweep, now).0, s, now)
  {
    hide Inv, DoSweep, View;
    SweepMeans(cfg, s, now);
  }

  lemma ReadShows(cfg: Config, s: Kv, op: Op, now: int, k: Key)
    requires Reads(op) && SingleKey(op) && Means(cfg, s, op, now, Run(cfg, s, op, now).0, Run(cfg, s, op, now).1)
    ensures View(Run(cfg, s, op, now).0, k, now) == View(s, k, now)
  {
    hide Run, View, Room;
  }

  /** Nor does a refused call. */
  lemma RefusedShows(cfg: Config, s: Kv, ops: seq<Op>, accepts: bool, now: int, later: int)
    requires Configured(cfg) && Inv(cfg, s) && DoAtomicChanges(cfg, s, ops, accepts, now).1.None?
    ensures var t := DoAtomicChanges(cfg, s, ops, accepts, now).0; Inv(cfg, t) && SameView(t, s, later)
  {
    hide Inv, DoAtomicChanges, View;
    RefusedRestores(cfg, s, ops, accepts, now);
    forall k ensures View(DoAtomicChanges(cfg, s, ops, accepts, now).0, k, later) == View(s, k, later) {
      SameCore(DoAtomicChanges(cfg, s, ops, accepts, now).0, s, k, later);
    }
  }

  lemma OnlyAccepted(cfg: Config, s: Kv, ops: seq<Op>, accepts: bool, now: int)
    requires DoAtomicChanges(cfg, s, ops, accepts, now).1.Some?
    ensures accepts
  {
    hide RunQueue, Gather;
  }

  /** One act: a cache that shows what the server's did shows it again once the act's records are applied. */
  lemma ReplayAct(cfg: Config, s: Kv, a: Act, r: Kv, later: int)
    requires Configured(cfg) && Inv(cfg, s) && ActOk(cfg, s, a, later)
    requires Inv(cfg, r) && NoneDue(r, later) && SameView(r, s, later)
    ensures Inv(cfg, Served(cfg, s, a)) && |Logs(cfg, s, a)| <= 1
    ensures var u := if Logs(cfg, s, a) == [] then r else DoApplyPatch(cfg, r, Logs(cfg, s, a)[0], later).0;
      Inv(cfg, u) && NoneDue(u, later) && SameView(u, Served(cfg, s, a), later)
  {
    hide Inv, DoAtomicChanges, DoApplyPatch, SameView, NoneDue, Run, EachWriteFits;
    match a
    case Quiet(op, now) =>
      QuietShows(cfg, s, op, now, later);
      SameViewTrans(r, Served(cfg, s, a), s, later);
    case Reload(to, now) =>
      ViewLater(to, s, now, later);
      SameViewTrans(r, to, s, later);
    case Changes(ops, accepts, now) =>
      if DoAtomicChanges(cfg, s, ops, accepts, now).1.None? {
        RefusedShows(cfg, s, ops, accepts, now, later);
        SameViewTrans(r, Served(cfg, s, a), s, later);
      } else {
        OnlyAccepted(cfg, s, ops, accepts, now);
        assert Logs(cfg, s, a)[0] in Logs(cfg, s, a);
        ReplayStep(cfg, s, ops, now, r, later);
      }
  }

  lemma ReplayStep(cfg: Config, s: Kv, ops: seq<Op>, now: int, r: Kv, later: int)
    requires Configured(cfg) && Inv(cfg, s) && now <= later && DoAtomicChanges(cfg, s, ops, true, now).1.Some?
    requires EachWriteFits(cfg, s.core.entries, DoAtomicChanges(cfg, s, ops, true, now).1.value, now)
    requires Inv(cfg, r) && NoneDue(r, later) && SameView(r, s, later)
    ensures var (t, p) := DoAtomicChanges(cfg, s, ops, true, now);
      var u := DoApplyPatch(cfg, r, p.value, later).0;
      Inv(cfg, t) && Inv(cfg, u) && NoneDue(u, later) && SameView(u, t, later)
  {
    hide Inv, DoAtomicChanges, DoApplyPatch, EachFits, RemoveAll, SameView, EntryOk, Spared, ShedAll, Get;
    var p := DoAtomicChanges(cfg, s, ops, true, now).1.value;
    FitsOnReplica(cfg, r, s, p, now, later);
    LoggedCallReplays(cfg, s, ops, now, r, later);
    var m := RemoveAll(r.core.entries, p.deleted, 0);
    EachFitsSpares(cfg, m, p.entries, 0, later);
    InvSound(cfg, r);
    RemovedNoneDue(r.core.entries, p.deleted, later);
    ShedAllNoneDue(cfg, m, p.entries, 0, later);
  }

  lemma RemovedNoneDue(es: Items<Key, Entry>, ks: seq<Key>, now: int)
    requires DistinctKeys(es) && NoneDueIn(es, now)
    ensures DistinctKeys(RemoveAll(es, ks, 0)) && NoneDueIn(RemoveAll(es, ks, 0), now)
  {
    hide RemoveAll, GetFrom, Due;
    RemovedAt(es, ks, 0, []);
    forall k ensures var m := RemoveAll(es, ks, 0); Get(m, k).Some? ==> !Due(Get(m, k).value, now) {
      RemovedAt(es, ks, 0, k);
    }
  }

  lemma SameViewTrans(a: Kv, b: Kv, c: Kv, now: int)
    requires SameView(b, c, now)
    ensures SameView(a, c, now) <==> SameView(a, b, now)
  {
    hide View;
    assert forall k :: View(b, k, now) == View(c, k, now);
  }

  lemma {:induction false} HistoryInv(cfg: Config, acts: seq<Act>, i: nat, later: int)
    requires Configured(cfg) && History(cfg, acts, later) && i <= |acts|
    ensures Inv(cfg, CacheAt(cfg, acts, i))
  {
    hide Inv, DoAtomicChanges, Run;
    if i == 0 {
      EmptyInv(cfg);
    } else {
      HistoryInv(cfg, acts, i - 1, later);
      var s, a := CacheAt(cfg, acts, i - 1), acts[i - 1];
      assert ActOk(cfg, s, a, later);
      match a
      case Quiet(op, now) => NextInv(cfg, s, Call(op, now));
      case Reload(_, _) =>
      case Changes(ops, accepts, now) =>
        if DoAtomicChanges(cfg, s, ops, accepts, now).1.None? {
          RefusedRestores(cfg, s, ops, accepts, now);
        } else {
          OnlyAccepted(cfg, s, ops, accepts, now);
          AcceptedCall(cfg, s, ops, now);
        }
    }
  }

  lemma {:induction false} LoggedPrefix(cfg: Config, acts: seq<Act>, i: nat, j: nat)
    requires i <= j <= |acts|
    ensures LoggedBy(cfg, acts, i) <= LoggedBy(cfg, acts, j)
    decreases j
  {
    hide Logs, CacheAt;
    if i < j { LoggedPrefix(cfg, acts, i, j - 1); }
  }

  lemma {:induction false} ReplayTracks(cfg: Config, acts: seq<Act>, i: nat, r: Kv, later: int)
    requires Configured(cfg) && History(cfg, acts, later) && i <= |acts|
    requires |LoggedBy(cfg, acts, i)| <= |LoggedBy(cfg, acts, |acts|)|
    requires Inv(cfg, r) && NoneDue(r, later) && SameView(r, CacheAt(cfg, acts, i), later)
    ensures var u := ReplayAll(cfg, r, LoggedBy(cfg, acts, |acts|), |LoggedBy(cfg, acts, i)|, later);
      Inv(cfg, u) && SameView(u, CacheAt(cfg, acts, |acts|), later)
    decreases |acts| - i
  {
    hide Inv, DoApplyPatch, SameView, NoneDue, ActOk, Logs, Served;
    if i < |acts| {
      var s, a := CacheAt(cfg, acts, i), acts[i];
      HistoryInv(cfg, acts, i, later);
      ReplayAct(cfg, s, a, r, later);
      LoggedPrefix(cfg, acts, i + 1, |acts|);
      var u := if Logs(cfg, s, a) == [] then r else DoApplyPatch(cfg, r, Logs(cfg, s, a)[0], later).0;
      ReplayTracks(cfg, acts, i + 1, u, later);
    }
  }

  /** A snapshot: a dump taken of the server's cache as the first at acts left it. */
  datatype Image = Image(at: nat, taken: int)

  ghost predicate Captured(cfg: Config, acts: seq<Act>, im: Image, later: int) {
    && im.at <= |acts| && im.taken <= later
    && var of := CacheAt(cfg, acts, im.at);
       DoDump(of, im.taken).Fine? && forall e :: e in Unexpired(of.core.entries, im.taken) ==> SafeDeadline(e.1)
  }

  /** Loading a dump into the fresh cache of a new process. */
  lemma LoadedShows(cfg: Config, of: Kv, taken: int, later: int)
    requires Configured(cfg) && Inv(cfg, of) && taken <= later && DoDump(of, taken).Fine?
    requires forall e :: e in Unexpired(of.core.entries, taken) ==> SafeDeadline(e.1)
    ensures var (b, reply) := DoReplace(cfg, EMPTY, DoDump(of, taken).value, later);
      reply != Threw && Inv(cfg, b) && NoneDue(b, later) && SameView(b, of, later)
  {
    hide Inv, DoReplace, DoDump, View, Unexpired, SafeDeadline, Due;
    EmptyInv(cfg);
    ReplaceRestoresDump(cfg, of, taken, EMPTY, later);
    var b := DoReplace(cfg, EMPTY, DoDump(of, taken).value, later).0;
    InvSound(cfg, of);
    forall k
      ensures View(b, k, later) == View(of, k, later)
      ensures Get(b.core.entries, k).Some? ==> !Due(Get(b.core.entries, k).value, later) {
      ReplacedShows(cfg, of, taken, EMPTY, later, k, later);
      UnexpiredLookup(of.core.entries, later, k);
    }
  }

  lemma EmptyShows(cfg: Config, acts: seq<Act>, now: int)
    ensures NoneDue(EMPTY, now) && SameView(EMPTY, CacheAt(cfg, acts, 0), now) && LoggedBy(cfg, acts, 0) == []
  {
  }

  lemma {:induction false} ReplaySuffix(cfg: Config, r: Kv, ps: seq<Patch>, n: nat, i: nat, now: int)
    requires n <= |ps| && i <= |ps| - n
    ensures ReplayAll(cfg, r, ps[n..], i, now) == ReplayAll(cfg, r, ps, n + i, now)
    decreases |ps| - i
  {
    hide DoApplyPatch;
    if i < |ps| - n { ReplaySuffix(cfg, DoApplyPatch(cfg, r, ps[n + i], now).0, ps, n, i + 1, now); }
  }

  /** The process a restart starts: an empty cache, the snapshot if there is one, then newer records. */
  function Restarted(cfg: Config, s: Disk.System<Patch>, snapshot: Checked<seq<Write>>, later: int): Kv {
    var loaded := if s.snapshot.None? then EMPTY
                  else match snapshot
                    case Bad => EMPTY
                    case Fine(ws) => DoReplace(cfg, EMPTY, ws, later).0;
    var newer := Log.Newer(Log.GoodOf(s.log), if s.snapshot.Some? then s.snapshot.value.seqNo else -1, 0);
    ReplayAll(cfg, loaded, Log.OpsOf(newer), 0, later)
  }

  /** End to end. A server does anything: reads, sweeps, calls of atomicChanges that are accepted, refused
      or throw halfway, restarts. The patches of the accepted calls are the accepted operations of any
      careful run of the durability protocol, and its snapshot number n is a dump of the server's cache at
      some moment when n calls had been accepted. Wherever the run stands, a restart at any later time
      rebuilds a cache in which readers find exactly what the live one shows: the same keys, values and
      absolute deadlines. */
  lemma RestartShowsLive(cfg: Config, es: seq<Disk.Event<Patch>>, acts: seq<Act>, im: Image, later: int)
    requires Configured(cfg) && Disk.Runs(Disk.Start<Patch>(), es) && Disk.CarefulRun(Disk.Start<Patch>(), es)
    requires History(cfg, acts, later)
    requires var s := Disk.After(Disk.Start<Patch>(), es);
      && LoggedBy(cfg, acts, |acts|) == s.accepted
      && (s.snapshot.Some? ==>
            Captured(cfg, acts, im, later) && s.snapshot.value.seqNo == |LoggedBy(cfg, acts, im.at)|)
    ensures var s := Disk.After(Disk.Start<Patch>(), es);
      var dump := if s.snapshot.Some? then DoDump(CacheAt(cfg, acts, im.at), im.taken) else Bad;
      var u := Restarted(cfg, s, dump, later);
      Inv(cfg, u) && SameView(u, CacheAt(cfg, acts, |acts|), later)
  {
    hide Inv, Disk.After, Disk.Runs, Disk.CarefulRun, DoReplace, DoDump, History, SameView, NoneDue,
        Log.Newer, Log.GoodOf, CacheAt, LoggedBy, Unexpired;
    var s := Disk.After(Disk.Start<Patch>(), es);
    Disk.NewerAreTheRest(es);
    var n := Disk.SnapSeq(s.snapshot);
    if s.snapshot.Some? {
      HistoryInv(cfg, acts, im.at, later);
      var of := CacheAt(cfg, acts, im.at);
      LoadedShows(cfg, of, im.taken, later);
      var loaded := DoReplace(cfg, EMPTY, DoDump(of, im.taken).value, later).0;
      LoggedPrefix(cfg, acts, im.at, |acts|);
      ReplayTracks(cfg, acts, im.at, loaded, later);
      ReplaySuffix(cfg, loaded, s.accepted, n, 0, later);
    } else {
      EmptyInv(cfg);
      EmptyShows(cfg, acts, later);
      ReplayTracks(cfg, acts, 0, EMPTY, later);
      ReplaySuffix(cfg, EMPTY, s.accepted, n, 0, later);
    }
  }
}
