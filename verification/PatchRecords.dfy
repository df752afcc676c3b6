/** The text of a log record, and what a reader makes of one cut short. */
module PatchRecords {
  import opened Decimals
  import opened ItemLists
  import opened Json
  import opened JsonScanner
  import opened JsonPrefix
  import opened JsonRecords
  import opened CacheModel

  const VERSION: Str := [118, 101, 114, 115, 105, 111, 110]
  const SEQ: Str := [115, 101, 113]
  const OP: Str := [111, 112]
  const PATCH: Str := [112, 97, 116, 99, 104]
  const ENTRIES: Str := [101, 110, 116, 114, 105, 101, 115]
  const DELETED: Str := [100, 101, 108, 101, 116, 101, 100]
  const KEY: Str := [107, 101, 121]
  const VALUE: Str := [118, 97, 108, 117, 101]
  const EXPIRES_AT: Str := [101, 120, 112, 105, 114, 101, 115, 65, 116]

  function WriteJson(w: Write): Value {
    Obj(Member(KEY, Text(w.key), Member(VALUE, w.value,
      if w.expiresAt.None? then NoMembers else Member(EXPIRES_AT, Num(w.expiresAt.value), NoMembers))))
  }

  function WritesJson(ws: seq<Write>, i: nat): Elems
    requires i <= |ws|
    decreases |ws| - i
  {
    if i == |ws| then NoElems else Elem(WriteJson(ws[i]), WritesJson(ws, i + 1))
  }

  function KeysJson(ks: seq<Key>, i: nat): Elems
    requires i <= |ks|
    decreases |ks| - i
  {
    if i == |ks| then NoElems else Elem(Text(ks[i]), KeysJson(ks, i + 1))
  }

  function PatchJson(p: Patch): Members {
    Member(OP, Text(PATCH), Member(ENTRIES, Arr(WritesJson(p.entries, 0)),
        Member(DELETED, Arr(KeysJson(p.deleted, 0)), NoMembers)))
  }

  /** The record append writes, as the members of one object. */
  function RecordJson(n: int, p: Patch): Members {
    Member(VERSION, Num(1), Member(SEQ, Num(n), Member(OP, Obj(PatchJson(p)), NoMembers)))
  }

  ghost predicate Clonable(ws: seq<Write>, i: nat) {
    forall j :: i <= j < |ws| ==> Depth(ws[j].value) <= MAX_JSON_DEPTH
  }

  lemma {:induction false} WritesDepth(ws: seq<Write>, i: nat)
    requires i <= |ws| && Clonable(ws, i)
    ensures ElemsDepth(WritesJson(ws, i)) <= MAX_JSON_DEPTH + 2
    decreases |ws| - i
  {
    if i < |ws| {
      WritesDepth(ws, i + 1);
      WriteDepth(ws[i]);
    }
  }

  lemma WriteDepth(w: Write)
    ensures Depth(WriteJson(w)) == 1 + Depth(w.value)
  {
    var more := if w.expiresAt.None? then NoMembers else Member(EXPIRES_AT, Num(w.expiresAt.value), NoMembers);
    assert MembersDepth(more) <= 1;
    var rest := Member(VALUE, w.value, more);
    MemberDepth(VALUE, w.value, more);
    MemberDepth(KEY, Text(w.key), rest);
    assert Depth(Text(w.key)) == 0;
    assert Depth(WriteJson(w)) == MembersDepth(Member(KEY, Text(w.key), rest));
  }

  lemma MemberDepth(k: Str, v: Value, more: Members)
    ensures MembersDepth(Member(k, v, more)) == Max(1 + Depth(v), MembersDepth(more))
  {
  }

  lemma {:induction false} KeysDepth(ks: seq<Key>, i: nat)
    requires i <= |ks|
    ensures ElemsDepth(KeysJson(ks, i)) <= 1
    decreases |ks| - i
  {
    if i < |ks| { KeysDepth(ks, i + 1); }
  }

  lemma RecordDepth(n: int, p: Patch)
    requires Clonable(p.entries, 0)
    ensures Depth(Obj(RecordJson(n, p))) <= MAX_JSON_DEPTH + 4
  {
    WritesDepth(p.entries, 0);
    KeysDepth(p.deleted, 0);
    var last := Member(DELETED, Arr(KeysJson(p.deleted, 0)), NoMembers);
    assert MembersDepth(last) <= 2;
    assert MembersDepth(Member(ENTRIES, Arr(WritesJson(p.entries, 0)), last)) <= MAX_JSON_DEPTH + 3;
    assert MembersDepth(PatchJson(p)) <= MAX_JSON_DEPTH + 3;
    var op := Member(OP, Obj(PatchJson(p)), NoMembers);
    MemberDepth(OP, Obj(PatchJson(p)), NoMembers);
    MemberDepth(SEQ, Num(n), op);
    MemberDepth(VERSION, Num(1), Member(SEQ, Num(n), op));
    assert Depth(Obj(PatchJson(p))) == MembersDepth(PatchJson(p)) && Depth(Num(1)) == 0 && Depth(Num(n)) == 0;
  }

  lemma {:induction false} GatheredClonable(s: Kv, ks: seq<Key>, i: nat, now: int)
    requires i <= |ks| && Gather(s, ks, i, now).Fine?
    ensures Clonable(Gather(s, ks, i, now).value.entries, 0)
    decreases |ks| - i
  {
    hide View;
    if i < |ks| { GatheredClonable(s, ks, i + 1, now); }
  }

  /** A record of an accepted patch, cut anywhere inside its text, is recognised as torn; whole, it is valid. */
  lemma AcceptedRecordTorn(cfg: Config, s: Kv, ops: seq<Op>, now: int, n: int, length: nat)
    requires DoAtomicChanges(cfg, s, ops, true, now).1.Some?
    ensures var text := Stringify(Obj(RecordJson(n, DoAtomicChanges(cfg, s, ops, true, now).1.value)));
      length <= |text| ==>
        (Scanned(text[..length]) == Stopped(Incomplete) <==> length < |text|)
  {
    hide RunQueue, Gather, Commit, Rollback, Stringify, RecordJson, ScanValue;
    var t := RunQueue(cfg, BeginChanges(s), ops, 0, now, []).0;
    var p := DoAtomicChanges(cfg, s, ops, true, now).1.value;
    GatheredClonable(t, t.changes[|t.changes| - 1], 0, now);
    RecordDepth(n, p);
    var text := Stringify(Obj(RecordJson(n, p)));
    if length < |text| {
      TornRecord(RecordJson(n, p), length);
    } else if length == |text| {
      assert text[..length] == text;
      WholeRecord(RecordJson(n, p));
    }
  }
}
