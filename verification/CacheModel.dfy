/** What each cache operation does to the whole state of a KVCache, as functions. */
module CacheModel {
  import opened Decimals
  import opened ItemLists
  import opened Json

  type Key = Str

  /** size is the key's UTF-8 bytes plus those of the value's JSON text. */
  datatype Entry = Entry(value: Value, expiresAt: Option<int>, size: nat)

  /** maxEntries and maxBytes are validated positive. */
  datatype Config = Config(maxEntries: nat, maxBytes: nat, maxKeyBytes: nat, maxValueBytes: nat,
                           defaultTtl: Option<int>, namespaceTtl: map<Str, int>)

  predicate Configured(cfg: Config) { cfg.maxEntries >= 1 && cfg.maxBytes >= 1 }

  /** The part of the state an atomic frame saves. */
  datatype Core = Core(entries: Items<Key, Entry>, expiring: Items<Key, int>, versions: Items<Key, int>,
                       bytes: int, hits: nat, misses: nat, evictions: nat, expiries: nat, absentEpoch: int)

  datatype Frame = Frame(core: Core, expired: seq<Key>)

  /** delivered lists the expiry events handed to the listener so far. */
  datatype Kv = Kv(core: Core, generation: int, frames: seq<Frame>, changes: seq<seq<Key>>, delivered: seq<Key>)

  const EMPTY_CORE := Core([], [], [], 0, 0, 0, 0, 0, 0)
  const EMPTY := Kv(EMPTY_CORE, 0, [], [], [])


  function SizeOf(k: Key, v: Value): nat { Utf8Length(k) + Utf8Length(Stringify(v)) }

  function EntryAt(s: Kv, k: Key): Option<Entry> { Get(s.core.entries, k) }

  /** What getVersion reports for a key that is not expired. */
  function Version(s: Kv, k: Key): int {
    match Get(s.core.versions, k) case Some(g) => g case None => s.core.absentEpoch
  }

  predicate Due(e: Entry, now: int) { e.expiresAt.Some? && e.expiresAt.value <= now }

  predicate Live(s: Kv, k: Key, now: int) {
    EntryAt(s, k).Some? && !Due(EntryAt(s, k).value, now)
  }

  /** What a reader at a given time finds under k: the value and its absolute deadline. */
  function View(s: Kv, k: Key, now: int): Shown { Visible(EntryAt(s, k), now) }

  type Shown = Option<(Value, Option<int>)>

  function Visible(e: Option<Entry>, now: int): Shown {
    match e case None => None case Some(x) => Until(x.value, x.expiresAt, now)
  }

  /** Visible until the deadline. */
  function Until(v: Value, at: Option<int>, now: int): Shown {
    if at.Some? && at.value <= now then None else Some((v, at))
  }

  // ---- the three lists ----

  /** Setting an entry also runs the change callback that keeps the expiring list. */
  function PutEntry(c: Core, k: Key, e: Entry): Core {
    c.(entries := Put(c.entries, k, e),
       expiring := if e.expiresAt.Some? then Put(c.expiring, k, e.expiresAt.value) else Remove(c.expiring, k))
  }

  function RemoveEntry(c: Core, k: Key): Core {
    if Has(c.entries, k) then c.(entries := Remove(c.entries, k), expiring := Remove(c.expiring, k)) else c
  }

  /** Drop tombstones, oldest first, until cap versions remain. */
  function Prune(versions: Items<Key, int>, entries: Items<Key, Entry>, cap: nat, i: nat): Items<Key, int>
    requires i <= |versions|
    decreases |versions| - i
  {
    if i == |versions| then versions
    else if !Has(entries, versions[i].0) then
      var rest := RemoveAt(versions, i);
      if |rest| <= cap then rest else Prune(rest, entries, cap, i)
    else if |versions| <= cap then versions
    else Prune(versions, entries, cap, i + 1)
  }

  /** Adding to an insertion-ordered set. */
  function Adjoin(ks: seq<Key>, k: Key): seq<Key> { if k in ks then ks else ks + [k] }

  function Bump(cfg: Config, s: Kv, k: Key): Kv {
    var g := s.generation + 1;
    var vs := Put(s.core.versions, k, g);
    var kept := if |vs| > cfg.maxEntries * 2 + 1024 then Prune(vs, s.core.entries, cfg.maxEntries + 512, 0) else vs;
    s.(generation := g,
       core := s.core.(versions := kept, absentEpoch := if |kept| < |vs| then g else s.core.absentEpoch),
       changes := seq(|s.changes|, i requires 0 <= i < |s.changes| => Adjoin(s.changes[i], k)))
  }

  /** An expiry event waits in the innermost open frame, or goes straight to the listener. */
  function Notify(s: Kv, k: Key): Kv {
    if s.frames == [] then s.(delivered := s.delivered + [k])
    else
      var n := |s.frames| - 1;
      var f := s.frames[n];
      s.(frames := s.frames[..n] + [f.(expired := Adjoin(f.expired, k))])
  }

  // ---- composite steps ----

  /** map.delete, byte accounting, new version. */
  function Discard(cfg: Config, s: Kv, k: Key): Kv {
    match EntryAt(s, k)
    case None => s
    case Some(e) => Bump(cfg, s.(core := RemoveEntry(s.core, k).(bytes := s.core.bytes - e.size)), k)
  }

  /** Replace any old entry, moving the key to the recently used end, and bump its version. */
  function Store(cfg: Config, s: Kv, k: Key, e: Entry): Kv {
    var freed := match EntryAt(s, k) case Some(old_) => old_.size case None => 0;
    var c := PutEntry(RemoveEntry(s.core, k), k, e);
    Bump(cfg, s.(core := c.(bytes := s.core.bytes - freed + e.size)), k)
  }

  function Expire(cfg: Config, s: Kv, k: Key): Kv {
    var t := Discard(cfg, s, k);
    Notify(t.(core := t.core.(expiries := t.core.expiries + 1)), k)
  }

  /** Lazy expiry: k goes if its deadline has passed. */
  function Settle(cfg: Config, s: Kv, k: Key, now: int): Kv {
    match EntryAt(s, k) case Some(e) => if Due(e, now) then Expire(cfg, s, k) else s case None => s
  }

  function Missed(s: Kv): Kv { s.(core := s.core.(misses := s.core.misses + 1)) }

  predicate Over(cfg: Config, c: Core) { |c.entries| > cfg.maxEntries || c.bytes > cfg.maxBytes }

  function EvictOldest(cfg: Config, s: Kv, clock: Option<int>): Kv
    requires s.core.entries != []
  {
    var (k, e) := s.core.entries[0];
    if clock.Some? && Due(e, clock.value) then Expire(cfg, s, k)
    else
      var t := s.(core := RemoveEntry(s.core, k).(bytes := s.core.bytes - e.size, evictions := s.core.evictions + 1));
      Bump(cfg, t, k)
  }

  /** Least recently used entries go first. Restore evicts without a clock: expired entries
      count as evictions there. */
  function Evict(cfg: Config, s: Kv, clock: Option<int>): Kv
    decreases |s.core.entries|
  {
    if Over(cfg, s.core) && s.core.entries != [] then Evict(cfg, EvictOldest(cfg, s, clock), clock) else s
  }

  // ---- arguments ----

  function Namespace(k: Key): Str { NamespaceFrom(k, 0) }

  /** Text before the first ':', empty when there is none or it comes first. */
  function NamespaceFrom(k: Key, i: nat): Str
    requires i <= |k|
    decreases |k| - i
  {
    if i == |k| then [] else if k[i] == 58 then k[..i] else NamespaceFrom(k, i + 1)
  }

  datatype Checked<+T> = Fine(value: T) | Bad

  function CheckTtl(ttl: int, now: int): Checked<int> {
    if ttl < 0 || ttl > MAX_SAFE - now then Bad else Fine(ttl)
  }

  /** The deadline of a write: explicit, namespace or default TTL, or none. */
  function Deadline(cfg: Config, k: Key, ttl: Option<int>, now: int): Checked<Option<int>> {
    var ns := Namespace(k);
    var chosen := if ttl.Some? then ttl
                  else if ns != [] && ns in cfg.namespaceTtl then Some(cfg.namespaceTtl[ns])
                  else cfg.defaultTtl;
    match chosen
    case None => Fine(None)
    case Some(t) => (match CheckTtl(t, now) case Fine(x) => Fine(Some(now + x)) case Bad => Bad)
  }

  predicate KeyFits(cfg: Config, k: Key) { Utf8Length(k) <= cfg.maxKeyBytes }

  predicate Fits(cfg: Config, k: Key, v: Value) {
    KeyFits(cfg, k) && Utf8Length(Stringify(v)) <= cfg.maxValueBytes && SizeOf(k, v) <= cfg.maxBytes
  }

  // ---- operations ----

  datatype Reply = Threw | Nothing | Found(v: Value) | Flag(b: bool) | Count(n: int) | Persists

  /** Absolute deadlines; used by snapshots, patches and batch writes. */
  datatype Write = Write(key: Key, value: Value, expiresAt: Option<int>)
  datatype Batch = Batch(key: Key, value: Value, ttl: Option<int>)

  datatype Op =
    | OpGet(key: Key)
    | OpSet(key: Key, value: Value, ttl: Option<int>)
    | OpSetAt(key: Key, value: Value, expiresAt: Option<int>)
    | OpMSet(batch: seq<Batch>)
    | OpDel(key: Key)
    | OpClearPrefix(prefix: Str)
    | OpClear
    | OpIncr(key: Key, delta: int)
    | OpCas(key: Key, expected: Option<Value>, value: Value, ttl: Option<int>)
    | OpRestore(writes: seq<Write>)
    | OpExpire(key: Key, after: int)
    | OpExpireAt(key: Key, at: int)
    | OpPersist(key: Key)
    | OpSweep
    | OpTtl(key: Key)
    | OpGetVersion(key: Key)

  function DoGet(cfg: Config, s: Kv, k: Key, now: int): (Kv, Reply) {
    if !KeyFits(cfg, k) then (s, Threw)
    else match EntryAt(s, k)
      case None => (Missed(s), Nothing)
      case Some(e) =>
        if Due(e, now) then (Missed(Expire(cfg, s, k)), Nothing)
        else
          var c := PutEntry(RemoveEntry(s.core, k), k, e);
          (s.(core := c.(hits := c.hits + 1)), if Clones(e.value, CLONE_BYTES) then Found(e.value) else Threw)
  }

  /** setOwned: a deadline already reached removes the key instead of storing. */
  function SetOwned(cfg: Config, s: Kv, k: Key, v: Value, at: Option<int>, now: int): (Kv, Reply) {
    if !Fits(cfg, k, v) then (s, Threw)
    else if at.Some? && at.value <= now then
      var t := Discard(cfg, s, k);
      (t.(core := t.core.(expiries := t.core.expiries + 1, misses := t.core.misses + 1)), Found(v))
    else
      (Evict(cfg, Store(cfg, s, k, Entry(v, at, SizeOf(k, v))), Some(now)), Found(v))
  }

  function DoSet(cfg: Config, s: Kv, k: Key, v: Value, ttl: Option<int>, now: int): (Kv, Reply) {
    if !KeyFits(cfg, k) || !Clones(v, cfg.maxValueBytes) then (s, Threw)
    else match Deadline(cfg, k, ttl, now)
      case Bad => (s, Threw)
      case Fine(at) => SetOwned(cfg, s, k, v, at, now)
  }

  function DoSetAt(cfg: Config, s: Kv, k: Key, v: Value, at: Option<int>, now: int): (Kv, Reply) {
    if !KeyFits(cfg, k) || !Clones(v, cfg.maxValueBytes) then (s, Threw) else SetOwned(cfg, s, k, v, at, now)
  }

  predicate BatchFits(cfg: Config, b: Batch, now: int) {
    Clones(b.value, CLONE_BYTES) && Deadline(cfg, b.key, b.ttl, now).Fine? && Fits(cfg, b.key, b.value)
  }

  function MSetFrom(cfg: Config, s: Kv, bs: seq<Batch>, i: nat, now: int): Kv
    requires i <= |bs|
    requires forall j :: 0 <= j < |bs| ==> BatchFits(cfg, bs[j], now)
    decreases |bs| - i
  {
    if i == |bs| then s
    else
      assert BatchFits(cfg, bs[i], now);
      MSetFrom(cfg, SetOwned(cfg, s, bs[i].key, bs[i].value, Deadline(cfg, bs[i].key, bs[i].ttl, now).value, now).0,
                  bs, i + 1, now)
  }

  function DoMSet(cfg: Config, s: Kv, bs: seq<Batch>, now: int): (Kv, Reply) {
    if forall j :: 0 <= j < |bs| ==> BatchFits(cfg, bs[j], now)
    then (MSetFrom(cfg, s, bs, 0, now), Count(|bs|)) else (s, Threw)
  }

  function DoDel(cfg: Config, s: Kv, k: Key, now: int): (Kv, Reply) {
    if !KeyFits(cfg, k) then (s, Threw)
    else match EntryAt(s, k)
      case None => (s, Flag(false))
      case Some(e) => if Due(e, now) then (Expire(cfg, s, k), Flag(false)) else (Discard(cfg, s, k), Flag(true))
  }

  predicate InNamespace(k: Key, prefix: Str) { k == prefix || prefix + [58] <= k }

  function ClearFrom(cfg: Config, s: Kv, ks: seq<Key>, i: nat, prefix: Str): Kv
    requires i <= |ks|
    decreases |ks| - i
  {
    if i == |ks| then s
    else ClearFrom(cfg, if InNamespace(ks[i], prefix) then Discard(cfg, s, ks[i]) else s, ks, i + 1, prefix)
  }

  function KeysOf<V>(items: Items<Key, V>): (ks: seq<Key>)
    ensures |ks| == |items| && forall i :: 0 <= i < |ks| ==> ks[i] == items[i].0
  {
    seq(|items|, i requires 0 <= i < |items| => items[i].0)
  }

  function Matching(ks: seq<Key>, prefix: Str, i: nat): nat
    requires i <= |ks|
    decreases |ks| - i
  {
    if i == |ks| then 0 else (if InNamespace(ks[i], prefix) then 1 else 0) + Matching(ks, prefix, i + 1)
  }

  function DoClearPrefix(cfg: Config, s: Kv, prefix: Str): (Kv, Reply) {
    if !KeyFits(cfg, prefix) then (s, Threw)
    else
      var ks := KeysOf(s.core.entries);
      (ClearFrom(cfg, s, ks, 0, prefix), Count(Matching(ks, prefix, 0)))
  }

  function BumpFrom(cfg: Config, s: Kv, ks: seq<Key>, i: nat): Kv
    requires i <= |ks|
    decreases |ks| - i
  {
    if i == |ks| then s else BumpFrom(cfg, Bump(cfg, s, ks[i]), ks, i + 1)
  }

  /** Every key gets a new version while still present; then all entries go. */
  function DoClear(cfg: Config, s: Kv): Kv {
    var ks := KeysOf(s.core.entries);
    var t := BumpFrom(cfg, s, ks, 0);
    t.(core := RemoveFrom(t.core, ks, 0).(bytes := 0))
  }

  function RemoveFrom(c: Core, ks: seq<Key>, i: nat): Core
    requires i <= |ks|
    decreases |ks| - i
  {
    if i == |ks| then c else RemoveFrom(RemoveEntry(c, ks[i]), ks, i + 1)
  }

  function DoIncr(cfg: Config, s: Kv, k: Key, delta: int, now: int): (Kv, Reply) {
    if !KeyFits(cfg, k) then (s, Threw)
    else
      var t := Settle(cfg, s, k, now);
      match EntryAt(t, k)
      case Some(e) =>
        if !e.value.Num? then (t, Threw) else IncrTo(cfg, t, k, e.value.n + delta, e.expiresAt, now)
      case None => IncrTo(cfg, t, k, delta, None, now)
  }

  function IncrTo(cfg: Config, s: Kv, k: Key, n: int, at: Option<int>, now: int): (Kv, Reply) {
    if !Fits(cfg, k, Num(n)) then (s, Threw)
    else (Evict(cfg, Store(cfg, s, k, Entry(Num(n), at, SizeOf(k, Num(n)))), Some(now)), Count(n))
  }

  /** set over an old entry that is not dropped first. */
  function Overwrite(cfg: Config, s: Kv, k: Key, e: Entry): Kv {
    Bump(cfg, s.(core := PutEntry(s.core, k, e).(bytes := s.core.bytes + e.size)), k)
  }

  /** incr as it reads the clock: once for the counter, again before the old entry is dropped. */
  function IncrTwice(cfg: Config, s: Kv, k: Key, delta: int, now: int, again: int): (Kv, Reply) {
    if !KeyFits(cfg, k) then (s, Threw)
    else
      var t := Settle(cfg, s, k, now);
      match EntryAt(t, k)
      case None => IncrTo(cfg, t, k, delta, None, again)
      case Some(e) =>
        if !e.value.Num? then (t, Threw)
        else if !Due(e, again) then IncrTo(cfg, t, k, e.value.n + delta, e.expiresAt, again)
        else
          var n := Num(e.value.n + delta);
          if !Fits(cfg, k, n) then (t, Threw)
          else (Evict(cfg, Overwrite(cfg, t, k, Entry(n, e.expiresAt, SizeOf(k, n))), Some(again)), Count(n.n))
  }

  /** With one reading an entry that survived the first is not due at the second. */
  lemma OneReading(cfg: Config, s: Kv, k: Key, delta: int, now: int)
    requires DistinctKeys(s.core.entries)
    ensures IncrTwice(cfg, s, k, delta, now, now) == DoIncr(cfg, s, k, delta, now)
  {
    hide Evict, Overwrite, Fits, Store, Bump, IncrTo;
    GetRemove(s.core.entries, k, k);
    SettledFresh(cfg, s, k, now);
  }

  lemma SettledFresh(cfg: Config, s: Kv, k: Key, now: int)
    requires Get(Remove(s.core.entries, k), k) == None
    ensures var e := EntryAt(Settle(cfg, s, k, now), k); e.Some? ==> !Due(e.value, now)
  {
  }

  function DoCas(cfg: Config, s: Kv, k: Key, expected: Option<Value>, v: Value, ttl: Option<int>, now: int)
    : (Kv, Reply)
  {
    if !KeyFits(cfg, k) || (expected.Some? && !Clones(expected.value, CLONE_BYTES))
      || !Clones(v, CLONE_BYTES) || !Fits(cfg, k, v) then (s, Threw)
    else
      var t := Settle(cfg, s, k, now);
      var live := EntryAt(t, k);
      if !(match (live, expected) case (Some(e), Some(x)) => Same(e.value, x) case (None, None) => true case _ => false)
      then (t, Flag(false))
      else CasTo(cfg, t, k, v, if ttl.Some? then Deadline(cfg, k, ttl, now)
                               else if live.Some? then Fine(live.value.expiresAt) else Deadline(cfg, k, None, now), now)
  }

  /** The compare succeeded: store, or with a deadline already reached drop the key. */
  function CasTo(cfg: Config, s: Kv, k: Key, v: Value, deadline: Checked<Option<int>>, now: int): (Kv, Reply)
    requires Fits(cfg, k, v)
  {
    match deadline
    case Bad => (s, Threw)
    case Fine(at) =>
      if at.Some? && at.value <= now then
        var u := Discard(cfg, s, k);
        (u.(core := u.core.(expiries := u.core.expiries + 1)), Flag(true))
      else
        (Evict(cfg, Store(cfg, s, k, Entry(v, at, SizeOf(k, v))), Some(now)), Flag(true))
  }

  predicate WriteFits(cfg: Config, w: Write) {
    && (w.expiresAt.Some? ==> -MAX_SAFE <= w.expiresAt.value <= MAX_SAFE)
    && Clones(w.value, CLONE_BYTES) && Fits(cfg, w.key, w.value)
  }

  predicate Restorable(cfg: Config, ws: seq<Write>) {
    && (forall i :: 0 <= i < |ws| ==> WriteFits(cfg, ws[i]))
    && (forall i, j :: 0 <= i < j < |ws| ==> ws[i].key != ws[j].key)
  }

  /** Writes already past their deadline are skipped. */
  function RestoreFrom(cfg: Config, s: Kv, ws: seq<Write>, i: nat, now: int): Kv
    requires i <= |ws|
    decreases |ws| - i
  {
    if i == |ws| then s
    else
      var w := ws[i];
      RestoreFrom(cfg, if w.expiresAt.Some? && w.expiresAt.value <= now then s
                       else Store(cfg, s, w.key, Entry(w.value, w.expiresAt, SizeOf(w.key, w.value))), ws, i + 1, now)
  }

  function LiveWrites(ws: seq<Write>, i: nat, now: int): nat
    requires i <= |ws|
    decreases |ws| - i
  {
    if i == |ws| then 0
    else (if ws[i].expiresAt.Some? && ws[i].expiresAt.value <= now then 0 else 1) + LiveWrites(ws, i + 1, now)
  }

  function DoRestore(cfg: Config, s: Kv, ws: seq<Write>, now: int): (Kv, Reply) {
    if Restorable(cfg, ws) then (Evict(cfg, RestoreFrom(cfg, s, ws, 0, now), None), Count(LiveWrites(ws, 0, now)))
    else (s, Threw)
  }

  /** expire, expireAt and persist replace only the deadline of a live entry. */
  function Redate(cfg: Config, s: Kv, k: Key, at: Option<int>, now: int): (Kv, Reply) {
    match EntryAt(s, k)
    case None => (s, Flag(false))
    case Some(e) =>
      if Due(e, now) then (Expire(cfg, s, k), Flag(false))
      else (Store(cfg, s, k, e.(expiresAt := at)), Flag(true))
  }

  function DoExpire(cfg: Config, s: Kv, k: Key, after: int, now: int): (Kv, Reply) {
    if !KeyFits(cfg, k) || CheckTtl(after, now).Bad? then (s, Threw) else Redate(cfg, s, k, Some(now + after), now)
  }

  function DoExpireAt(cfg: Config, s: Kv, k: Key, at: int, now: int): (Kv, Reply) {
    if !KeyFits(cfg, k) then (s, Threw)
    else match EntryAt(s, k)
      case Some(e) =>
        if !Due(e, now) && at <= now then (Expire(cfg, s, k), Flag(true)) else Redate(cfg, s, k, Some(at), now)
      case None => (s, Flag(false))
  }

  function DoPersist(cfg: Config, s: Kv, k: Key, now: int): (Kv, Reply) {
    if !KeyFits(cfg, k) then (s, Threw) else Redate(cfg, s, k, None, now)
  }

  function SweepFrom(cfg: Config, s: Kv, ks: seq<Key>, i: nat, now: int): (r: (Kv, nat))
    requires i <= |ks|
    decreases |ks| - i
  {
    if i == |ks| then (s, 0)
    else match EntryAt(s, ks[i])
      case Some(e) =>
        if Due(e, now) then
          var (t, n) := SweepFrom(cfg, Expire(cfg, s, ks[i]), ks, i + 1, now); (t, n + 1)
        else SweepFrom(cfg, s, ks, i + 1, now)
      case None => SweepFrom(cfg, s, ks, i + 1, now)
  }

  function DoSweep(cfg: Config, s: Kv, now: int): (Kv, Reply) {
    var (t, n) := SweepFrom(cfg, s, KeysOf(s.core.expiring), 0, now);
    (t, Count(n))
  }

  function DoTtl(cfg: Config, s: Kv, k: Key, now: int): (Kv, Reply) {
    if !KeyFits(cfg, k) then (s, Threw)
    else match EntryAt(s, k)
      case None => (Missed(s), Count(-2))
      case Some(e) =>
        if Due(e, now) then (Missed(Expire(cfg, s, k)), Count(-2))
        else if e.expiresAt.None? then (s, Persists) else (s, Count(Max(0, e.expiresAt.value - now)))
  }

  function DoGetVersion(cfg: Config, s: Kv, k: Key, now: int): (Kv, Reply) {
    if !KeyFits(cfg, k) then (s, Threw)
    else
      var t := Settle(cfg, s, k, now);
      (t, Count(Version(t, k)))
  }

  function Run(cfg: Config, s: Kv, op: Op, now: int): (Kv, Reply) {
    match op
    case OpGet(k) => DoGet(cfg, s, k, now)
    case OpSet(k, v, ttl) => DoSet(cfg, s, k, v, ttl, now)
    case OpSetAt(k, v, at) => DoSetAt(cfg, s, k, v, at, now)
    case OpMSet(bs) => DoMSet(cfg, s, bs, now)
    case OpDel(k) => DoDel(cfg, s, k, now)
    case OpClearPrefix(p) => DoClearPrefix(cfg, s, p)
    case OpClear => (DoClear(cfg, s), Nothing)
    case OpIncr(k, d) => DoIncr(cfg, s, k, d, now)
    case OpCas(k, x, v, ttl) => DoCas(cfg, s, k, x, v, ttl, now)
    case OpRestore(ws) => DoRestore(cfg, s, ws, now)
    case OpExpire(k, after) => DoExpire(cfg, s, k, after, now)
    case OpExpireAt(k, at) => DoExpireAt(cfg, s, k, at, now)
    case OpPersist(k) => DoPersist(cfg, s, k, now)
    case OpSweep => DoSweep(cfg, s, now)
    case OpTtl(k) => DoTtl(cfg, s, k, now)
    case OpGetVersion(k) => DoGetVersion(cfg, s, k, now)
  }

  // ---- frames ----

  function Begin(s: Kv): Kv { s.(frames := s.frames + [Frame(s.core, [])]) }

  /** xs followed by the members of ys it lacks, as adding to an insertion-ordered set does. */
  function Merge(xs: seq<Key>, ys: seq<Key>, i: nat): seq<Key>
    requires i <= |ys|
    decreases |ys| - i
  {
    if i == |ys| then xs else Merge(Adjoin(xs, ys[i]), ys, i + 1)
  }

  /** The outermost commit delivers the frame's expiry events; an inner one hands them up. */
  function Commit(s: Kv): Kv
    requires s.frames != []
  {
    var n := |s.frames| - 1;
    var mine := s.frames[n].expired;
    if n == 0 then s.(frames := [], delivered := s.delivered + mine)
    else
      var parent := s.frames[n - 1];
      s.(frames := s.frames[..n - 1] + [parent.(expired := Merge(parent.expired, mine, 0))])
  }

  function Rollback(s: Kv): Kv
    requires s.frames != []
  {
    var n := |s.frames| - 1;
    s.(core := s.frames[n].core, frames := s.frames[..n])
  }

  // ---- snapshots ----

  /** The entries not due yet, in LRU order. */
  function Unexpired(es: Items<Key, Entry>, now: int): Items<Key, Entry>
    decreases |es|
  {
    if es == [] then []
    else (if Due(es[0].1, now) then [] else [es[0]]) + Unexpired(es[1..], now)
  }

  function WriteOf(e: (Key, Entry)): Write { Write(e.0, e.1.value, e.1.expiresAt) }

  function WritesOf(es: Items<Key, Entry>): seq<Write> { seq(|es|, i requires 0 <= i < |es| => WriteOf(es[i])) }

  /** A live value that no clone admits fails the whole dump. */
  function DoDump(s: Kv, now: int): Checked<seq<Write>> {
    var live := Unexpired(s.core.entries, now);
    if forall i :: 0 <= i < |live| ==> Clones(live[i].1.value, CLONE_BYTES) then Fine(WritesOf(live)) else Bad
  }

  /** replace: clear and restore inside one atomic frame. */
  function DoReplace(cfg: Config, s: Kv, ws: seq<Write>, now: int): (Kv, Reply) {
    var (t, r) := DoRestore(cfg, DoClear(cfg, Begin(s)), ws, now);
    (if t.frames == [] then t else if r == Threw then Rollback(t) else Commit(t), r)
  }

  // ---- change sets ----

  /** Run operations in order up to the first that throws. */
  function RunQueue(cfg: Config, s: Kv, queue: seq<Op>, i: nat, now: int, replies: seq<Reply>): (Kv, Option<seq<Reply>>)
    requires i <= |queue|
    decreases |queue| - i
  {
    if i == |queue| then (s, Some(replies))
    else
      var (t, r) := Run(cfg, s, queue[i], now);
      if r == Threw then (t, None) else RunQueue(cfg, t, queue, i + 1, now, replies + [r])
  }

  /** Final values and absolute deadlines of the changed keys, and the changed keys no longer live. */
  datatype Patch = Patch(entries: seq<Write>, deleted: seq<Key>)

  /** The patch of the keys from position i on, in the order they first changed; a live value that
      no clone admits throws. */
  function Gather(s: Kv, ks: seq<Key>, i: nat, now: int): Checked<Patch>
    requires i <= |ks|
    decreases |ks| - i
  {
    if i == |ks| then Fine(Patch([], []))
    else match View(s, ks[i], now)
      case None =>
        (match Gather(s, ks, i + 1, now) case Bad => Bad case Fine(p) => Fine(p.(deleted := [ks[i]] + p.deleted)))
      case Some(shown) =>
        if !Clones(shown.0, CLONE_BYTES) then Bad
        else match Gather(s, ks, i + 1, now)
          case Bad => Bad
          case Fine(p) => Fine(p.(entries := [Write(ks[i], shown.0, shown.1)] + p.entries))
  }

  function BeginChanges(s: Kv): Kv { Begin(s.(changes := s.changes + [[]])) }

  /** The body ran or threw; the callback accepts the patch or throws. Either way the innermost
      frame and change set close. */
  function EndChanges(s: Kv, ran: bool, accepts: bool, now: int): (Kv, Option<Patch>) {
    if s.frames == [] || s.changes == [] then (s, None)
    else
      var n := |s.changes| - 1;
      var p := Gather(s, s.changes[n], 0, now);
      if ran && p.Fine? && accepts then (Commit(s).(changes := s.changes[..n]), Some(p.value))
      else (Rollback(s).(changes := s.changes[..n]), None)
  }

  function DoAtomicChanges(cfg: Config, s: Kv, ops: seq<Op>, accepts: bool, now: int): (Kv, Option<Patch>) {
    var (t, ran) := RunQueue(cfg, BeginChanges(s), ops, 0, now, []);
    EndChanges(t, ran.Some?, accepts, now)
  }

  /** Replaying a patch: its deletions, then its writes, in one atomic frame. */
  function PatchOps(p: Patch): seq<Op> {
    seq(|p.deleted|, i requires 0 <= i < |p.deleted| => OpDel(p.deleted[i]))
      + seq(|p.entries|, i requires 0 <= i < |p.entries| =>
          OpSetAt(p.entries[i].key, p.entries[i].value, p.entries[i].expiresAt))
  }

  function DoApplyPatch(cfg: Config, s: Kv, p: Patch, now: int): (Kv, bool) {
    var (t, ran) := RunQueue(cfg, Begin(s), PatchOps(p), 0, now, []);
    (if t.frames == [] then t else if ran.Some? then Commit(t) else Rollback(t), ran.Some?)
  }
}
