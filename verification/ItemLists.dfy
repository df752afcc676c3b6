/** Ordered key-value lists: the value an ordered map denotes, keys in link order. */
module ItemLists {

  datatype Option<+T> = None | Some(value: T)

  type Items<K, V> = seq<(K, V)>

  ghost predicate DistinctKeys<K, V>(items: Items<K, V>) {
    forall i, j :: 0 <= i < j < |items| ==> items[i].0 != items[j].0
  }

  ghost predicate Distinct<T>(s: seq<T>) {
    forall i, j :: 0 <= i < j < |s| ==> s[i] != s[j]
  }

  /** First position from i on whose pair holds k, or the length when none does. */
  function FindFrom<K(==), V>(items: Items<K, V>, k: K, i: nat): (r: nat)
    requires i <= |items|
    ensures i <= r <= |items|
    ensures r < |items| ==> items[r].0 == k
    ensures forall j :: i <= j < r ==> items[j].0 != k
    decreases |items| - i
  {
    if i == |items| || items[i].0 == k then i else FindFrom(items, k, i + 1)
  }

  function Find<K(==), V>(items: Items<K, V>, k: K): (r: nat)
    ensures r <= |items|
  {
    FindFrom(items, k, 0)
  }

  function GetFrom<K(==), V>(items: Items<K, V>, k: K, i: nat): Option<V>
    requires i <= |items|
    decreases |items| - i
  {
    if i == |items| then None else if items[i].0 == k then Some(items[i].1) else GetFrom(items, k, i + 1)
  }

  /** The value of the first pair holding k. */
  function Get<K(==), V>(items: Items<K, V>, k: K): Option<V> {
    GetFrom(items, k, 0)
  }

  predicate Has<K(==), V>(items: Items<K, V>, k: K) {
    Get(items, k).Some?
  }

  lemma GetFromFind<K, V>(items: Items<K, V>, k: K, i: nat)
    requires i <= |items|
    ensures GetFrom(items, k, i) ==
      var r := FindFrom(items, k, i); if r < |items| then Some(items[r].1) else None
    decreases |items| - i
  {
    if i < |items| && items[i].0 != k {
      GetFromFind(items, k, i + 1);
    }
  }

  lemma GetFind<K, V>(items: Items<K, V>, k: K)
    ensures Get(items, k) == if Find(items, k) < |items| then Some(items[Find(items, k)].1) else None
  {
    GetFromFind(items, k, 0);
  }

  lemma GetIs<K, V>(items: Items<K, V>, i: nat)
    requires DistinctKeys(items) && i < |items|
    ensures Get(items, items[i].0) == Some(items[i].1)
  {
    GetFind(items, items[i].0);
  }

  /** Overwrite in place, or append a new pair at the end. */
  function Put<K(==), V>(items: Items<K, V>, k: K, v: V): Items<K, V> {
    var i := Find(items, k);
    if i < |items| then items[i := (k, v)] else items + [(k, v)]
  }

  function RemoveAt<T>(s: seq<T>, i: nat): seq<T>
    requires i < |s|
  {
    s[..i] + s[i + 1..]
  }

  function InsertAt<T>(s: seq<T>, i: nat, x: T): seq<T>
    requires i <= |s|
  {
    s[..i] + [x] + s[i..]
  }

  function Remove<K(==), V>(items: Items<K, V>, k: K): Items<K, V> {
    var i := Find(items, k);
    if i < |items| then RemoveAt(items, i) else items
  }

  lemma FindIs<K, V>(items: Items<K, V>, i: nat)
    requires DistinctKeys(items) && i < |items|
    ensures Find(items, items[i].0) == i
  {
  }

  lemma FindSameKeys<K, V, W>(a: Items<K, V>, b: Items<K, W>, k: K, i: nat)
    requires |a| == |b| && i <= |a|
    requires forall j :: 0 <= j < |a| ==> a[j].0 == b[j].0
    ensures FindFrom(a, k, i) == FindFrom(b, k, i)
    decreases |a| - i
  {
    if i < |a| && a[i].0 != k {
      FindSameKeys(a, b, k, i + 1);
    }
  }

  lemma InsertUndoesRemove<T>(s: seq<T>, i: nat)
    requires i < |s|
    ensures InsertAt(RemoveAt(s, i), i, s[i]) == s
  {
  }

  lemma KeysCount<K, V>(items: Items<K, V>)
    requires DistinctKeys(items)
    ensures |set i | 0 <= i < |items| :: items[i].0| == |items|
  {
    if items != [] {
      var n := |items| - 1;
      KeysCount(items[..n]);
      assert (set i | 0 <= i < |items| :: items[i].0)
          == (set i | 0 <= i < |items[..n]| :: items[..n][i].0) + {items[n].0};
    }
  }

  lemma MoreKeys<K, V, W>(a: Items<K, V>, b: Items<K, W>)
    requires DistinctKeys(a) && DistinctKeys(b)
    requires forall i :: 0 <= i < |a| ==> Has(b, a[i].0)
    ensures |a| <= |b|
  {
    KeysCount(a);
    KeysCount(b);
    var ka, kb := set i | 0 <= i < |a| :: a[i].0, set i | 0 <= i < |b| :: b[i].0;
    forall k | k in ka ensures k in kb {
      GetFind(b, k);
      assert b[Find(b, k)].0 == k;
    }
    Subset(ka, kb);
  }

  lemma Subset<T>(a: set<T>, b: set<T>)
    requires a <= b
    ensures |a| <= |b|
  {
    assert |b| == |a| + |b - a| by { assert b == a + (b - a); }
  }

  lemma FindWithout<K, V>(items: Items<K, V>, i: nat, k: K)
    requires DistinctKeys(items) && i < |items|
    ensures Find(RemoveAt(items, i), k) < |items| - 1 <==> Find(items, k) < |items| && k != items[i].0
    ensures Find(RemoveAt(items, i), k) < |items| - 1 ==>
      var j := Find(RemoveAt(items, i), k); Find(items, k) == if j < i then j else j + 1
  {
    var t := RemoveAt(items, i);
    var a, b := Find(items, k), Find(t, k);
    if a < i {
      assert t[a] == items[a];
    } else if i < a < |items| {
      assert t[a - 1] == items[a];
    }
    if b < |t| {
      FindIs(items, if b < i then b else b + 1);
    }
  }

  lemma FindPut<K, V>(items: Items<K, V>, k: K, v: V, q: K)
    requires DistinctKeys(items)
    ensures DistinctKeys(Put(items, k, v))
    ensures Find(Put(items, k, v), q) ==
      if q != k && Find(items, q) == |items| then |Put(items, k, v)| else Find(items, q)
  {
    var t := Put(items, k, v);
    var i := Find(items, k);
    assert t[i] == (k, v);
    if q == k {
      FindIs(t, i);
    } else if Find(items, q) < |items| {
      assert t[Find(items, q)] == items[Find(items, q)];
      FindIs(t, Find(items, q));
    } else {
      assert forall j :: 0 <= j < |t| ==> t[j].0 == k || (j < |items| && t[j] == items[j]);
    }
  }

  lemma GetPut<K, V>(items: Items<K, V>, k: K, v: V, q: K)
    requires DistinctKeys(items)
    ensures DistinctKeys(Put(items, k, v))
    ensures Get(Put(items, k, v), q) == if q == k then Some(v) else Get(items, q)
  {
    FindPut(items, k, v, q);
    GetFind(items, q);
    GetFind(Put(items, k, v), q);
  }

  lemma GetRemoveAt<K, V>(items: Items<K, V>, i: nat, q: K)
    requires DistinctKeys(items) && i < |items|
    ensures DistinctKeys(RemoveAt(items, i))
    ensures Get(RemoveAt(items, i), q) == if q == items[i].0 then None else Get(items, q)
  {
    FindWithout(items, i, q);
    GetFind(items, q);
    GetFind(RemoveAt(items, i), q);
  }

  lemma RemoveAbsent<K, V>(items: Items<K, V>, k: K)
    ensures !Has(items, k) ==> Remove(items, k) == items
  {
    GetFind(items, k);
  }

  lemma GetRemove<K, V>(items: Items<K, V>, k: K, q: K)
    requires DistinctKeys(items)
    ensures DistinctKeys(Remove(items, k))
    ensures Get(Remove(items, k), q) == if q == k then None else Get(items, q)
  {
    GetFind(items, k);
    if Has(items, k) {
      GetRemoveAt(items, Find(items, k), q);
    }
  }
}
