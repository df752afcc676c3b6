/** The ordered map: a hash map over doubly linked nodes, with nested undo journals. */
module OrderedMaps {
  import opened ItemLists

  class Link<K, V> {
    const key: K
    var value: V
    var prev: Link?<K, V>
    var next: Link?<K, V>

    constructor (key: K, value: V)
      ensures this.key == key && this.value == value && prev == null && next == null
    {
      this.key, this.value := key, value;
      prev, next := null, null;
    }
  }

  /** The three closures the source pushes on its journal, as records. */
  datatype Undo<K, V> =
    | Restore(node: Link<K, V>, was: V)
    | Unlink(node: Link<K, V>)
    | Relink(node: Link<K, V>, prev: Link?<K, V>, next: Link?<K, V>)

  /** One moment of the map: the node objects in link order, the value of every node the
      map still owns (linked or parked in the journal), and the pairs these denote. */
  datatype Shape<K, V> = Shape(order: seq<Link<K, V>>, values: map<Link<K, V>, V>, items: Items<K, V>)
  {
    ghost predicate Wf() {
      && |items| == |order|
      && (forall i :: 0 <= i < |order| ==> order[i] in values && items[i] == (order[i].key, values[order[i]]))
      && DistinctKeys(items)
    }

    ghost function Before(i: nat): Link?<K, V>
      requires i <= |order|
    {
      if i == 0 then null else order[i - 1]
    }

    ghost function After(i: nat): Link?<K, V>
      requires i <= |order|
    {
      if i == |order| then null else order[i]
    }

    /** The hash map from keys to linked nodes. */
    ghost function Index(): map<K, Link<K, V>>
      requires |items| == |order|
    {
      map k | k in (set i | 0 <= i < |items| :: items[i].0) :: order[Find(items, k)]
    }

    lemma IndexFinds(k: K)
      requires |items| == |order|
      ensures k in Index() <==> Has(items, k)
      ensures k in Index() ==> Index()[k] == order[Find(items, k)]
    {
      GetFind(items, k);
      if Has(items, k) {
        assert items[Find(items, k)].0 == k;
      }
    }

    /** this without the node at position i; the node stays owned. */
    ghost function Without(i: nat): Shape<K, V>
      requires i < |order| && |items| == |order|
    {
      Shape(RemoveAt(order, i), values, RemoveAt(items, i))
    }

    /** this with the node at position i holding v. */
    ghost function Assigned(i: nat, v: V): Shape<K, V>
      requires i < |order| && |items| == |order|
    {
      Shape(order, values[order[i] := v], items[i := (order[i].key, v)])
    }

    /** this with the owned node n linked in at position i. */
    ghost function With(i: nat, n: Link<K, V>): Shape<K, V>
      requires i <= |order| && |items| == |order| && n in values
    {
      Shape(InsertAt(order, i, n), values, InsertAt(items, i, (n.key, values[n])))
    }
  }

  /** u is the journal record that takes `after` back to `before`. */
  ghost predicate Undoes<K(!new), V(!new)>(u: Undo<K, V>, after: Shape<K, V>, before: Shape<K, V>) {
    && after.Wf() && before.Wf()
    && match u
       case Restore(n, was) =>
         exists i :: 0 <= i < |after.order| && after.order[i] == n
           && before == after.Assigned(i, was)
       case Unlink(n) =>
         && n in after.values && n !in before.values
         && after == Shape(before.order + [n], before.values[n := after.values[n]],
                           before.items + [(n.key, after.values[n])])
       case Relink(n, p, q) =>
         exists i :: 0 <= i < |before.order| && before.order[i] == n
           && after == before.Without(i) && p == before.Before(i) && q == before.After(i + 1)
  }

  lemma WithoutWf<K, V>(s: Shape<K, V>, i: nat)
    requires s.Wf() && i < |s.order|
    ensures s.Without(i).Wf()
    ensures s.order[i] !in s.Without(i).order && !Has(s.Without(i).items, s.order[i].key)
  {
    var t := s.Without(i);
    assert forall j :: 0 <= j < |t.order| ==>
      t.order[j] == s.order[if j < i then j else j + 1] && t.items[j] == s.items[if j < i then j else j + 1];
    assert s.items[i].0 == s.order[i].key;
    GetRemoveAt(s.items, i, s.order[i].key);
  }

  lemma DistinctNodes<K, V>(s: Shape<K, V>)
    requires s.Wf()
    ensures Distinct(s.order)
  {
    forall i, j | 0 <= i < j < |s.order| ensures s.order[i] != s.order[j] {
      assert s.items[i].0 != s.items[j].0;
    }
  }

  lemma AssignedWf<K, V>(s: Shape<K, V>, i: nat, v: V)
    requires s.Wf() && i < |s.order|
    ensures s.Assigned(i, v).Wf() && s.Assigned(i, v).Index() == s.Index()
  {
    AssignedItems(s, i, v);
    var t := s.Assigned(i, v);
    forall k {
      AssignedIndex(s, i, v, k);
    }
  }

  lemma AssignedIndex<K, V>(s: Shape<K, V>, i: nat, v: V, k: K)
    requires s.Wf() && i < |s.order|
    ensures |s.Assigned(i, v).items| == |s.order|
    ensures k in s.Assigned(i, v).Index() <==> k in s.Index()
    ensures k in s.Index() ==> s.Assigned(i, v).Index()[k] == s.Index()[k]
  {
    AssignedItems(s, i, v);
    var t := s.Assigned(i, v);
    s.IndexFinds(k);
    t.IndexFinds(k);
    FindSameKeys(s.items, t.items, k, 0);
    GetFind(s.items, k);
    GetFind(t.items, k);
  }

  lemma AssignedItems<K, V>(s: Shape<K, V>, i: nat, v: V)
    requires s.Wf() && i < |s.order|
    ensures s.Assigned(i, v).Wf()
    ensures forall j :: 0 <= j < |s.items| ==> s.items[j].0 == s.Assigned(i, v).items[j].0
  {
    DistinctNodes(s);
    var t := s.Assigned(i, v);
    forall j | 0 <= j < |t.order|
      ensures t.order[j] in t.values && t.items[j] == (t.order[j].key, t.values[t.order[j]])
      ensures s.items[j].0 == t.items[j].0
    {
    }
  }

  lemma AssignUndone<K(!new), V(!new)>(s: Shape<K, V>, i: nat, v: V)
    requires s.Wf() && i < |s.order|
    ensures Undoes(Restore(s.order[i], s.values[s.order[i]]), s.Assigned(i, v), s)
  {
    AssignedWf(s, i, v);
    var t, n := s.Assigned(i, v), s.order[i];
    assert t.order[i] == n;
    assert t.Assigned(i, s.values[n]) == s;
  }

  lemma AppendUndone<K(!new), V(!new)>(s: Shape<K, V>, n: Link<K, V>, v: V)
    requires s.Wf() && n !in s.values && !Has(s.items, n.key)
    ensures var owned := s.(values := s.values[n := v]);
      && owned.Wf() && owned.With(|s.order|, n).items == Put(s.items, n.key, v)
      && Undoes(Unlink(n), owned.With(|s.order|, n), s)
  {
    var owned := s.(values := s.values[n := v]);
    GetFind(s.items, n.key);
    InsertWf(owned, |s.order|, n);
    var t := owned.With(|s.order|, n);
    assert t.order == s.order + [n] && t.items == s.items + [(n.key, v)];
  }

  lemma RelinkUndoes<K(!new), V(!new)>(s: Shape<K, V>, i: nat)
    requires s.Wf() && i < |s.order|
    ensures Undoes(Relink(s.order[i], s.Before(i), s.After(i + 1)), s.Without(i), s)
  {
    WithoutWf(s, i);
  }

  lemma WithoutWith<K, V>(s: Shape<K, V>, i: nat)
    requires s.Wf() && i < |s.order|
    ensures s.Without(i).Wf() && s.Without(i).With(i, s.order[i]) == s
    ensures s.order[i] !in s.Without(i).order && !Has(s.Without(i).items, s.order[i].key)
    ensures s.Without(i).Before(i) == s.Before(i) && s.Without(i).After(i) == s.After(i + 1)
  {
    WithoutWf(s, i);
    InsertUndoesRemove(s.order, i);
    InsertUndoesRemove(s.items, i);
  }

  lemma LastWithout<K(!new), V(!new)>(after: Shape<K, V>, before: Shape<K, V>, n: Link<K, V>)
    requires Undoes(Unlink(n), after, before)
    ensures |after.order| == |before.order| + 1 && after.order[|before.order|] == n
    ensures after.Without(|before.order|).Wf() && n !in before.order
    ensures after.Without(|before.order|).(values := after.values - {n}) == before
  {
    var i := |before.order|;
    WithoutWf(after, i);
    var t := after.Without(i);
    assert t.order == before.order && t.items == before.items;
    assert t.values - {n} == before.values;
  }

  lemma IndexWithout<K, V>(s: Shape<K, V>, i: nat)
    requires s.Wf() && i < |s.order|
    ensures s.Without(i).Wf()
    ensures s.Without(i).Index() == s.Index() - {s.order[i].key}
  {
    WithoutWf(s, i);
    forall k {
      IndexWithoutAt(s, i, k);
    }
  }

  lemma IndexWithoutAt<K, V>(s: Shape<K, V>, i: nat, k: K)
    requires s.Wf() && i < |s.order|
    ensures k in s.Without(i).Index() <==> k in s.Index() && k != s.order[i].key
    ensures k in s.Without(i).Index() ==> k in s.Index() && s.Without(i).Index()[k] == s.Index()[k]
  {
    var t := s.Without(i);
    assert s.items[i].0 == s.order[i].key;
    s.IndexFinds(k);
    t.IndexFinds(k);
    FindWithout(s.items, i, k);
    GetFind(s.items, k);
    GetFind(t.items, k);
  }

  lemma IndexInsert<K, V>(s: Shape<K, V>, i: nat, n: Link<K, V>)
    requires s.Wf() && i <= |s.order| && n in s.values && !Has(s.items, n.key)
    ensures s.With(i, n).Wf() && s.With(i, n).Index() == s.Index()[n.key := n]
  {
    InsertWf(s, i, n);
    var t := s.With(i, n);
    assert t.Without(i) == s by {
      assert t.Without(i).order == s.order && t.Without(i).items == s.items;
    }
    IndexWithout(t, i);
    FindIs(t.items, i);
    t.IndexFinds(n.key);
  }

  lemma InsertWf<K, V>(s: Shape<K, V>, i: nat, n: Link<K, V>)
    requires s.Wf() && i <= |s.order| && n in s.values && !Has(s.items, n.key)
    ensures s.With(i, n).Wf()
  {
    var t := s.With(i, n);
    GetFind(s.items, n.key);
    assert forall j :: 0 <= j < |t.order| && j != i ==>
      t.order[j] == s.order[if j < i then j else j - 1] && t.items[j] == s.items[if j < i then j else j - 1];
  }

  /** Every journal record undoes one moment, past[k] being the moment the journal had k
      records; open frames index the journal in order, and with none open it is empty. */
  ghost predicate Journal<K(!new), V(!new)>(undo: seq<Undo<K, V>>, past: seq<Shape<K, V>>,
      frames: seq<nat>, saved: seq<Shape<K, V>>, cur: Shape<K, V>)
  {
    && |past| == |undo| + 1 && past[|undo|] == cur
    && (forall k {:trigger undo[k]} :: 0 <= k < |undo| ==> Undoes(undo[k], past[k + 1], past[k]))
    && (forall i, j :: 0 <= i < j < |frames| ==> frames[i] <= frames[j])
    && (forall i :: 0 <= i < |frames| ==> frames[i] <= |undo|)
    && (if frames == [] then undo == [] else frames[0] == 0)
    && |saved| == |frames|
    && (forall i :: 0 <= i < |frames| ==> saved[i] == past[frames[i]])
  }

  lemma JournalPush<K(!new), V(!new)>(undo: seq<Undo<K, V>>, past: seq<Shape<K, V>>,
      frames: seq<nat>, saved: seq<Shape<K, V>>, was: Shape<K, V>, u: Undo<K, V>, now: Shape<K, V>)
    requires Journal(undo, past, frames, saved, was) && frames != [] && Undoes(u, now, was)
    ensures Journal(undo + [u], past + [now], frames, saved, now)
  {
  }

  lemma JournalFresh<K(!new), V(!new)>(undo: seq<Undo<K, V>>, past: seq<Shape<K, V>>,
      frames: seq<nat>, saved: seq<Shape<K, V>>, was: Shape<K, V>, now: Shape<K, V>)
    requires Journal(undo, past, frames, saved, was) && frames == []
    ensures Journal(undo, [now], frames, saved, now)
  {
  }

  lemma JournalPop<K(!new), V(!new)>(undo: seq<Undo<K, V>>, past: seq<Shape<K, V>>,
      frames: seq<nat>, saved: seq<Shape<K, V>>, cur: Shape<K, V>)
    requires Journal(undo, past, frames, saved, cur) && frames != []
    ensures var n, start := |frames| - 1, frames[|frames| - 1];
      && start <= |undo| && past[start] == saved[n]
      && Journal(undo[..start], past[..start + 1], frames[..n], saved[..n], saved[n])
  {
  }

  class OrderedMap<K(==, !new), V(!new)> {
    var nodes: map<K, Link<K, V>>
    var first: Link?<K, V>
    var last: Link?<K, V>
    var undo: seq<Undo<K, V>>
    var frames: seq<nat>

    ghost var cur: Shape<K, V>           // the present moment
    ghost var past: seq<Shape<K, V>>     // past[k]: the moment the journal had k records
    ghost var saved: seq<Shape<K, V>>    // the moment each open frame began
    ghost var Repr: set<object>

    ghost function Owned(): set<Link<K, V>>
      reads this
    {
      cur.values.Keys
    }

    /** Every owned node's value is the one cur gives it. */
    ghost predicate Stored()
      reads this, Repr
    {
      && this in Repr && cur.Wf()
      && Repr == {this} + Owned()
      && (forall n :: n in cur.values ==> n.value == cur.values[n])
    }

    /** first, last and the forward and backward links follow the sequence. */
    ghost predicate Chain(s: seq<Link<K, V>>)
      reads this, s
    {
      if s == [] then first == null && last == null else
      && first == s[0] && last == s[|s| - 1]
      && s[0].prev == null && s[|s| - 1].next == null
      && (forall i {:trigger s[i].prev} :: 0 < i < |s| ==> s[i].prev == s[i - 1])
      && (forall i {:trigger s[i].next} :: 0 <= i < |s| - 1 ==> s[i].next == s[i + 1])
    }

    /** The hash map finds exactly the linked nodes. */
    ghost predicate Mapped()
      requires cur.Wf()
      reads this
    {
      nodes == cur.Index()
    }

    ghost predicate Linked()
      reads this, Repr
    {
      Stored() && Chain(cur.order) && Mapped()
    }

    ghost predicate Valid()
      reads this, Repr
      ensures Valid() ==> this in Repr
    {
      Linked() && Journal(undo, past, frames, saved, cur)
    }

    constructor ()
      ensures Valid() && fresh(Repr)
      ensures cur.items == [] && saved == []
    {
      nodes, first, last, undo, frames := map[], null, null, [], [];
      cur := Shape([], map[], []);
      past, saved := [Shape([], map[], [])], [];
      Repr := {this};
    }

    method Size() returns (n: nat)
      requires Valid()
      ensures n == |cur.items|
    {
      ghost var ks := set i | 0 <= i < |cur.order| :: cur.order[i].key;
      KeysCount(cur.items);
      assert nodes.Keys == set i | 0 <= i < |cur.items| :: cur.items[i].0;
      n := |nodes|;
    }

    method Lookup(k: K) returns (v: Option<V>)
      requires Valid()
      ensures v == Get(cur.items, k)
    {
      ghost var i := Find(cur.items, k);
      cur.IndexFinds(k);
      GetFind(cur.items, k);
      v := if k in nodes then Some(nodes[k].value) else None;
    }

    lemma ValidDistinct()
      requires Valid()
      ensures DistinctKeys(cur.items)
    {
    }

    method Contains(k: K) returns (found: bool)
      requires Valid()
      ensures found == Has(cur.items, k) == (k in nodes)
    {
      cur.IndexFinds(k);
      found := k in nodes;
    }

    method First() returns (k: Option<K>)
      requires Valid()
      ensures k == if cur.items == [] then None else Some(cur.items[0].0)
    {
      k := if first == null then None else Some(first.key);
    }

    /** The key list an iterator yields when nothing changes meanwhile. */
    method Keys() returns (ks: seq<K>)
      requires Valid()
      ensures |ks| == |cur.items|
      ensures forall i :: 0 <= i < |ks| ==> ks[i] == cur.items[i].0
    {
      ks := [];
      var node := first;
      while node != null
        invariant |ks| <= |cur.order| && node == cur.After(|ks|)
        invariant forall i :: 0 <= i < |ks| ==> ks[i] == cur.items[i].0
        decreases |cur.order| - |ks|
      {
        ks := ks + [node.key];
        node := node.next;
      }
    }

    method Begin()
      requires Valid()
      modifies this
      ensures Valid() && Repr == old(Repr)
      ensures cur == old(cur) && saved == old(saved) + [old(cur)]
      ensures undo == old(undo) && frames == old(frames) + [|undo|]
    {
      frames := frames + [|undo|];
      saved := saved + [cur];
    }

    method Commit() returns (ok: bool)
      requires Valid()
      modifies this
      ensures Valid() && Repr == old(Repr) && cur == old(cur)
      ensures ok == (|old(saved)| > 0)
      ensures saved == if ok then old(saved)[..|old(saved)| - 1] else []
      ensures frames == if ok then old(frames)[..|old(frames)| - 1] else []
      ensures undo == if frames == [] then [] else old(undo)
    {
      if |frames| == 0 {
        return false;
      }
      frames := frames[..|frames| - 1];
      saved := saved[..|saved| - 1];
      if |frames| == 0 {
        undo := [];
        past := [cur];
      }
      return true;
    }

    /** The moment the innermost frame began comes back exactly: the same node objects in
        the same link order with the same values. */
    method Rollback() returns (ok: bool)
      requires Valid()
      modifies Repr
      ensures Valid() && Repr <= old(Repr)
      ensures ok == (|old(saved)| > 0)
      ensures !ok ==> cur == old(cur) && saved == old(saved)
      ensures ok ==> cur == old(saved)[|old(saved)| - 1] && saved == old(saved)[..|old(saved)| - 1]
      ensures ok ==> undo == old(undo)[..old(frames)[|old(frames)| - 1]] && frames == old(frames)[..|old(frames)| - 1]
    {
      if |frames| == 0 {
        return false;
      }
      JournalPop(undo, past, frames, saved, cur);
      var start := frames[|frames| - 1];
      Replay(start);
      Cut(start);
      return true;
    }

    /** Forget the innermost frame and the records that have been run. */
    method Cut(start: nat)
      requires Linked() && start <= |undo| && |past| == |undo| + 1 && |saved| == |frames| > 0
      requires Journal(undo[..start], past[..start + 1], frames[..|frames| - 1], saved[..|frames| - 1], cur)
      modifies this`undo, this`past, this`frames, this`saved
      ensures Valid()
      ensures undo == old(undo)[..start] && past == old(past)[..start + 1]
      ensures frames == old(frames)[..|old(frames)| - 1] && saved == old(saved)[..|old(frames)| - 1]
    {
      frames := frames[..|frames| - 1];
      saved := saved[..|saved| - 1];
      undo := undo[..start];
      past := past[..start + 1];
    }

    /** Run the undo records from the newest down to position start. */
    method Replay(start: nat)
      requires Linked() && start <= |undo| && |past| == |undo| + 1 && past[|undo|] == cur
      requires forall k {:trigger undo[k]} :: 0 <= k < |undo| ==> Undoes(undo[k], past[k + 1], past[k])
      modifies this`first, this`last, this`nodes, this`cur, this`Repr, Owned()
      ensures Linked() && cur == past[start] && Repr <= old(Repr)
    {
      var i := |undo|;
      while i > start
        invariant start <= i <= |undo|
        invariant Linked() && cur == past[i] && Repr <= old(Repr)
        modifies this`first, this`last, this`nodes, this`cur, this`Repr, Owned()
      {
        i := i - 1;
        Apply(undo[i], past[i]);
      }
    }

    /** Run one undo record. */
    method Apply(u: Undo<K, V>, ghost before: Shape<K, V>)
      requires Linked() && Undoes(u, cur, before)
      modifies this`first, this`last, this`nodes, this`cur, this`Repr, Owned()
      ensures Linked() && cur == before && Repr <= old(Repr)
    {
      match u
      case Restore(n, was) =>
        ghost var i :| 0 <= i < |cur.order| && cur.order[i] == n && before == cur.Assigned(i, was);
        Assign(n, was, i);
      case Unlink(n) =>
        Drop(n, before);
      case Relink(n, p, q) =>
        ghost var i :| 0 <= i < |before.order| && before.order[i] == n
          && cur == before.Without(i) && p == before.Before(i) && q == before.After(i + 1);
        WithoutWith(before, i);
        LinkNode(n, p, q, i);
    }

    method Drop(n: Link<K, V>, ghost before: Shape<K, V>)
      requires Linked() && Undoes(Unlink(n), cur, before)
      modifies this`first, this`last, this`nodes, this`cur, this`Repr, Owned()`prev, Owned()`next
      ensures Linked() && cur == before && Repr <= old(Repr)
    {
      LastWithout(cur, before, n);
      UnlinkNode(n, |before.order|);
      Disown(n);
    }

    method Assign(node: Link<K, V>, v: V, ghost i: nat)
      requires Linked() && i < |cur.order| && cur.order[i] == node
      modifies this`cur, node`value
      ensures Linked() && cur == old(cur).Assigned(i, v)
    {
      AssignedWf(cur, i, v);
      node.value := v;
      cur := cur.Assigned(i, v);
    }

    ghost method Own(node: Link<K, V>)
      requires Linked() && node !in cur.values
      modifies this`cur, this`Repr
      ensures Linked() && Repr == old(Repr) + {node}
      ensures cur == old(cur).(values := old(cur).values[node := node.value])
    {
      cur := cur.(values := cur.values[node := node.value]);
      Repr := {this} + Owned();
    }

    /** An unlinked node leaves the map's footprint. */
    ghost method Disown(node: Link<K, V>)
      requires Linked() && node in cur.values && node !in cur.order
      modifies this`cur, this`Repr
      ensures Linked() && Repr <= old(Repr) && cur == old(cur).(values := old(cur).values - {node})
    {
      cur := cur.(values := cur.values - {node});
      Repr := {this} + Owned();
    }

    method Unhook(node: Link<K, V>, ghost s: seq<Link<K, V>>, ghost i: nat)
      requires Chain(s) && Distinct(s) && i < |s| && s[i] == node
      modifies this`first, this`last, s`prev, s`next
      ensures Chain(RemoveAt(s, i))
    {
      if node.prev != null { node.prev.next := node.next; } else { first := node.next; }
      if node.next != null { node.next.prev := node.prev; } else { last := node.prev; }
    }

    method Hook(node: Link<K, V>, prev: Link?<K, V>, next: Link?<K, V>, ghost s: seq<Link<K, V>>, ghost i: nat)
      requires Chain(s) && Distinct(s) && i <= |s| && node !in s
      requires prev == (if i == 0 then null else s[i - 1]) && next == (if i == |s| then null else s[i])
      modifies this`first, this`last, s`prev, s`next, node`prev, node`next
      ensures Chain(InsertAt(s, i, node))
    {
      node.prev := prev;
      node.next := next;
      if prev != null { prev.next := node; } else { first := node; }
      if next != null { next.prev := node; } else { last := node; }
    }

    method UnlinkNode(node: Link<K, V>, ghost i: nat)
      requires Linked() && i < |cur.order| && cur.order[i] == node
      modifies this`first, this`last, this`nodes, this`cur, Owned()`prev, Owned()`next
      ensures Linked() && cur == old(cur).Without(i)
    {
      ghost var was := cur;
      DistinctNodes(was);
      Unhook(node, was.order, i);
      nodes := nodes - {node.key};
      IndexWithout(was, i);
      cur := was.Without(i);
    }

    method LinkNode(node: Link<K, V>, prev: Link?<K, V>, next: Link?<K, V>, ghost i: nat)
      requires Linked() && i <= |cur.order|
      requires node in cur.values && node !in cur.order && !Has(cur.items, node.key)
      requires prev == cur.Before(i) && next == cur.After(i)
      modifies this`first, this`last, this`nodes, this`cur, Owned()`prev, Owned()`next
      ensures Linked()
      ensures cur == old(cur).With(i, node)
    {
      ghost var was := cur;
      DistinctNodes(was);
      Hook(node, prev, next, was.order, i);
      nodes := nodes[node.key := node];
      IndexInsert(was, i, node);
      cur := was.With(i, node);
    }

    /** Push u when a frame is open; the map is already in its new state. */
    method Record(u: Undo<K, V>, ghost was: Shape<K, V>)
      requires Linked() && Journal(undo, past, frames, saved, was) && Undoes(u, cur, was)
      modifies this`undo, this`past
      ensures Valid()
      ensures undo == if frames == [] then old(undo) else old(undo) + [u]
    {
      hide Journal, Undoes;
      if |frames| > 0 {
        JournalPush(undo, past, frames, saved, was, u, cur);
        undo := undo + [u];
        past := past + [cur];
      } else {
        JournalFresh(undo, past, frames, saved, was, cur);
        past := [cur];
      }
    }

    method Set(k: K, v: V)
      requires Valid()
      modifies Repr
      ensures Valid() && fresh(Repr - old(Repr))
      ensures cur.items == Put(old(cur).items, k, v) && saved == old(saved)
      ensures old(undo) <= undo && frames == old(frames)
    {
      ghost var was := cur;
      var u := Write(k, v);
      Record(u, was);
    }

    method Write(k: K, v: V) returns (u: Undo<K, V>)
      requires Linked()
      modifies this`first, this`last, this`nodes, this`cur, this`Repr, Owned()
      ensures Linked() && fresh(Repr - old(Repr))
      ensures Undoes(u, cur, old(cur)) && cur.items == Put(old(cur).items, k, v)
    {
      if k in nodes {
        cur.IndexFinds(k);
        u := Overwrite(nodes[k], k, v);
      } else {
        var added := Append(k, v);
        u := Unlink(added);
      }
    }

    method Overwrite(node: Link<K, V>, k: K, v: V) returns (u: Undo<K, V>)
      requires Linked() && k in nodes && nodes[k] == node
      modifies this`cur, node`value
      ensures Linked() && Undoes(u, cur, old(cur)) && cur.items == Put(old(cur).items, k, v)
    {
      ghost var was := cur;
      ghost var i := Find(was.items, k);
      was.IndexFinds(k);
      AssignUndone(was, i, v);
      u := Restore(node, node.value);
      Assign(node, v, i);
    }

    method Append(k: K, v: V) returns (added: Link<K, V>)
      requires Linked() && k !in nodes
      modifies this`first, this`last, this`nodes, this`cur, this`Repr, Owned()`prev, Owned()`next
      ensures Linked() && fresh(added) && Repr == old(Repr) + {added}
      ensures Undoes(Unlink(added), cur, old(cur)) && cur.items == Put(old(cur).items, k, v)
    {
      ghost var was := cur;
      was.IndexFinds(k);
      added := new Link(k, v);
      Own(added);
      LinkNode(added, last, null, |was.order|);
      AppendUndone(was, added, v);
    }

    method Delete(k: K) returns (found: bool)
      requires Valid()
      modifies Repr
      ensures Valid() && Repr == old(Repr)
      ensures found == Has(old(cur).items, k)
      ensures cur.items == Remove(old(cur).items, k) && saved == old(saved)
      ensures old(undo) <= undo && frames == old(frames)
    {
      ghost var was := cur;
      RemoveAbsent(cur.items, k);
      found := Contains(k);
      if found {
        Take(k);
      }
    }

    method Take(k: K)
      requires Valid() && k in nodes
      modifies Repr
      ensures Valid() && Repr == old(Repr)
      ensures cur.items == Remove(old(cur).items, k) && saved == old(saved)
      ensures old(undo) <= undo && frames == old(frames)
    {
      hide Journal, Undoes;
      ghost var was := cur;
      var u := Excise(k);
      Record(u, was);
    }

    method Excise(k: K) returns (u: Undo<K, V>)
      requires Linked() && k in nodes
      modifies this`first, this`last, this`nodes, this`cur, Owned()
      ensures Linked() && Undoes(u, cur, old(cur)) && cur.items == Remove(old(cur).items, k)
    {
      var node := nodes[k];
      ghost var i := Find(cur.items, k);
      cur.IndexFinds(k);
      GetFind(cur.items, k);
      RelinkUndoes(cur, i);
      u := Relink(node, node.prev, node.next);
      UnlinkNode(node, i);
    }

    method Clear()
      requires Valid()
      modifies Repr
      ensures Valid() && Repr == old(Repr)
      ensures cur.items == [] && saved == old(saved)
      ensures old(undo) <= undo && frames == old(frames)
    {
      var ks := Keys();
      var i := 0;
      while i < |ks|
        invariant i <= |ks| && Valid() && Repr == old(Repr) && saved == old(saved)
        invariant old(undo) <= undo && frames == old(frames)
        invariant cur.items == old(cur).items[i..]
      {
        assert ks[i] == cur.items[0].0;
        var found := Delete(ks[i]);
        i := i + 1;
      }
    }

    /** Whatever happens between begin and rollback, nested frames included, is undone:
        the same node objects in the same links with the same values, and the journal. */
    method Attempt(acts: seq<Act<K, V>>)
      requires Valid() && Balanced(acts, 0)
      modifies Repr
      ensures Valid() && fresh(Repr - old(Repr))
      ensures cur == old(cur) && saved == old(saved) && frames == old(frames) && undo == old(undo)
    {
      hide OrderedMap.Valid;
      ghost var n := |frames|;
      Begin();
      FrameFloor(n, n);
      PerformAll(acts, n, 0);
      assert frames[..n + 1] == frames && saved[..n + 1] == saved;
      var ok := Rollback();
    }

    /** Balanced actions with d frames open above frame n leave none above it, and frame n untouched. */
    method PerformAll(acts: seq<Act<K, V>>, ghost n: nat, ghost d: nat)
      requires Valid() && |frames| == n + 1 + d && Balanced(acts, d)
      modifies Repr
      ensures Valid() && fresh(Repr - old(Repr)) && |frames| == |saved| == n + 1
      ensures frames[..n + 1] == old(frames)[..n + 1] && saved[..n + 1] == old(saved)[..n + 1]
      ensures frames[n] <= |undo| && undo[..frames[n]] == old(undo)[..old(frames)[n]]
    {
      hide OrderedMap.Valid;
      FrameFloor(n, n);
      ghost var open := d;
      ghost var start := frames[n];
      var i := 0;
      while i < |acts|
        invariant i <= |acts| && Balanced(acts[i..], open)
        invariant Valid() && fresh(Repr - old(Repr)) && |frames| == |saved| == n + 1 + open
        invariant frames[..n + 1] == old(frames)[..n + 1] && saved[..n + 1] == old(saved)[..n + 1]
        invariant start <= |undo| && undo[..start] == old(undo)[..start]
        decreases |acts| - i
      {
        assert acts[i..] != [] && acts[i..][0] == acts[i] && acts[i..][1..] == acts[i + 1..];
        assert frames[..n + 1][n] == start;
        Perform(acts[i], n);
        assert frames[..n + 1][n] == start;
        open := if acts[i].ActBegin? then open + 1
                else if acts[i].ActCommit? || acts[i].ActRollback? then open - 1 else open;
        i := i + 1;
      }
      assert acts[i..] == [];
      assert frames[..n + 1][n] == start;
    }

    /** One action, as seen from the still open frame n. */
    method Perform(a: Act<K, V>, ghost n: nat)
      requires Valid() && n < |frames|
      requires a.ActCommit? || a.ActRollback? ==> n + 1 < |frames|
      modifies Repr
      ensures Valid() && fresh(Repr - old(Repr))
      ensures |frames| == |saved|
      ensures |frames| == if a.ActBegin? then |old(frames)| + 1
                          else if a.ActCommit? || a.ActRollback? then |old(frames)| - 1 else |old(frames)|
      ensures frames[..n + 1] == old(frames)[..n + 1] && saved[..n + 1] == old(saved)[..n + 1]
      ensures frames[n] <= |undo| && undo[..frames[n]] == old(undo)[..old(frames)[n]]
    {
      hide Journal, OrderedMap.Linked;
      FrameFloor(n, |frames| - 1);
      match a
      case ActSet(k, v) => Set(k, v);
      case ActDelete(k) => var found := Delete(k);
      case ActClear => Clear();
      case ActBegin => Begin();
      case ActCommit => var ok := Commit();
      case ActRollback => var ok := Rollback();
    }

    lemma FrameFloor(i: nat, j: nat)
      requires Valid() && i <= j < |frames|
      ensures frames[i] <= frames[j] <= |undo| && |saved| == |frames|
    {
    }
  }

  datatype Act<K, V> = ActSet(key: K, value: V) | ActDelete(key: K) | ActClear | ActBegin | ActCommit | ActRollback

  /** acts never closes a frame it did not open, with d of its own open at the start, and
      leaves none open. */
  predicate Balanced<K, V>(acts: seq<Act<K, V>>, d: nat) {
    if acts == [] then d == 0
    else if acts[0].ActBegin? then Balanced(acts[1..], d + 1)
    else if acts[0].ActCommit? || acts[0].ActRollback? then d > 0 && Balanced(acts[1..], d - 1)
    else Balanced(acts[1..], d)
  }
}
