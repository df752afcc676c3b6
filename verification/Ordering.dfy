/** Comparators, sorted lists, and the bounded max-heap that keeps the smallest k values. */
module Ordering {

  /** A comparator as Array.prototype.sort wants it: consistent signs and a transitive order. */
  ghost predicate TotalPreorder<T(!new)>(cmp: (T, T) -> int) {
    && (forall a, b :: cmp(a, b) < 0 <==> cmp(b, a) > 0)
    && (forall a, b, c :: cmp(a, b) <= 0 && cmp(b, c) <= 0 ==> cmp(a, c) <= 0)
  }

  lemma Flip<T(!new)>(cmp: (T, T) -> int, a: T, b: T)
    requires TotalPreorder(cmp)
    ensures cmp(a, b) < 0 <==> cmp(b, a) > 0
    ensures cmp(b, a) < 0 <==> cmp(a, b) > 0
  {
  }

  lemma Trans<T(!new)>(cmp: (T, T) -> int, a: T, b: T, c: T)
    requires TotalPreorder(cmp) && cmp(a, b) <= 0 && cmp(b, c) <= 0
    ensures cmp(a, c) <= 0
  {
  }

  ghost predicate Ascending<T(!new)>(cmp: (T, T) -> int, s: seq<T>) {
    forall i, j :: 0 <= i < j < |s| ==> cmp(s[i], s[j]) <= 0
  }

  /** Elements of s that compare equal are the same element. */
  ghost predicate Strict<T(!new)>(cmp: (T, T) -> int, s: seq<T>) {
    forall i, j :: 0 <= i < |s| && 0 <= j < |s| && cmp(s[i], s[j]) == 0 ==> s[i] == s[j]
  }

  ghost predicate AllBelow<T(!new)>(cmp: (T, T) -> int, a: seq<T>, b: seq<T>) {
    forall x, y :: x in a && y in b ==> cmp(x, y) <= 0
  }

  function Insert<T>(cmp: (T, T) -> int, x: T, s: seq<T>): (r: seq<T>)
    ensures |r| == |s| + 1
  {
    if s == [] || cmp(x, s[0]) < 0 then [x] + s else [s[0]] + Insert(cmp, x, s[1..])
  }

  /** The stable sort. */
  function Sort<T>(cmp: (T, T) -> int, s: seq<T>): (r: seq<T>)
    ensures |r| == |s|
  {
    if s == [] then [] else Insert(cmp, s[|s| - 1], Sort(cmp, s[..|s| - 1]))
  }

  lemma InsertContents<T>(cmp: (T, T) -> int, x: T, s: seq<T>)
    ensures multiset(Insert(cmp, x, s)) == multiset(s) + multiset{x}
  {
    if s != [] && cmp(x, s[0]) >= 0 {
      InsertContents(cmp, x, s[1..]);
      assert s == [s[0]] + s[1..];
    }
  }

  lemma SameElements<T>(a: seq<T>, b: seq<T>, x: T)
    requires multiset(a) == multiset(b) && x in a
    ensures x in b && |a| == |b|
  {
    assert x in multiset(a);
    assert |multiset(a)| == |a|;
  }

  lemma {:induction false} InsertAscending<T(!new)>(cmp: (T, T) -> int, x: T, s: seq<T>)
    requires TotalPreorder(cmp) && Ascending(cmp, s)
    ensures Ascending(cmp, Insert(cmp, x, s))
  {
    hide TotalPreorder;
    if s != [] {
      Flip(cmp, x, s[0]);
      if cmp(x, s[0]) < 0 {
        forall j | 0 <= j < |s| ensures cmp(x, s[j]) <= 0 {
          if j > 0 { Trans(cmp, x, s[0], s[j]); }
        }
      } else {
        InsertAscending(cmp, x, s[1..]);
        var t := Insert(cmp, x, s[1..]);
        InsertContents(cmp, x, s[1..]);
        forall j | 0 <= j < |t| ensures cmp(s[0], t[j]) <= 0 {
          assert t[j] in multiset(t);
          assert t[j] == x || t[j] in s[1..];
        }
      }
    }
  }

  lemma {:induction false} SortSorts<T(!new)>(cmp: (T, T) -> int, s: seq<T>)
    requires TotalPreorder(cmp)
    ensures Ascending(cmp, Sort(cmp, s)) && multiset(Sort(cmp, s)) == multiset(s)
  {
    hide TotalPreorder, Insert, Ascending;
    if s != [] {
      var t := s[..|s| - 1];
      SortSorts(cmp, t);
      InsertAscending(cmp, s[|s| - 1], Sort(cmp, t));
      InsertContents(cmp, s[|s| - 1], Sort(cmp, t));
      assert s == t + [s[|s| - 1]];
    } else {
      EmptyAscending(cmp);
    }
  }

  lemma EmptyAscending<T(!new)>(cmp: (T, T) -> int)
    ensures Ascending(cmp, [])
  {
  }

  lemma SameFirst<T(!new)>(cmp: (T, T) -> int, a: seq<T>, b: seq<T>)
    requires TotalPreorder(cmp) && Ascending(cmp, a) && Ascending(cmp, b) && multiset(a) == multiset(b)
    requires Strict(cmp, a) && a != [] && b != []
    ensures a[0] == b[0]
  {
    hide TotalPreorder;
    SameElements(a, b, a[0]);
    SameElements(b, a, b[0]);
    var i :| 0 <= i < |a| && a[i] == b[0];
    var j :| 0 <= j < |b| && b[j] == a[0];
    Flip(cmp, a[0], b[0]);
    assert cmp(a[0], a[i]) == 0 || i == 0 || j == 0;
  }

  /** A strictly comparable collection has one sorted arrangement. */
  lemma {:induction false} SortedUnique<T(!new)>(cmp: (T, T) -> int, a: seq<T>, b: seq<T>)
    requires TotalPreorder(cmp) && Ascending(cmp, a) && Ascending(cmp, b) && multiset(a) == multiset(b)
        && Strict(cmp, a)
    ensures a == b
  {
    hide TotalPreorder, Ascending, Strict;
    assert |multiset(a)| == |a| && |multiset(b)| == |b|;
    if a != [] {
      SameFirst(cmp, a, b);
      Tails(cmp, a);
      Tails(cmp, b);
      DropFirst(a);
      DropFirst(b);
      SortedUnique(cmp, a[1..], b[1..]);
    }
  }

  lemma DropFirst<T>(a: seq<T>)
    requires a != []
    ensures multiset(a[1..]) == multiset(a) - multiset{a[0]}
  {
    assert a == [a[0]] + a[1..];
  }

  lemma Tails<T(!new)>(cmp: (T, T) -> int, a: seq<T>)
    requires a != []
    ensures Ascending(cmp, a) ==> Ascending(cmp, a[1..])
    ensures Strict(cmp, a) ==> Strict(cmp, a[1..])
  {
  }

  lemma PermutedStrict<T(!new)>(cmp: (T, T) -> int, a: seq<T>, b: seq<T>)
    requires multiset(a) == multiset(b) && Strict(cmp, a)
    ensures Strict(cmp, b)
  {
    forall i, j | 0 <= i < |b| && 0 <= j < |b| && cmp(b[i], b[j]) == 0 ensures b[i] == b[j] {
      SameElements(b, a, b[i]);
      SameElements(b, a, b[j]);
    }
  }

  lemma PermutedBelow<T(!new)>(cmp: (T, T) -> int, a: seq<T>, b: seq<T>, c: seq<T>, d: seq<T>)
    requires multiset(a) == multiset(b) && multiset(c) == multiset(d) && AllBelow(cmp, a, c)
    ensures AllBelow(cmp, b, d)
  {
    forall x | x in b ensures x in a { SameElements(b, a, x); }
    forall x | x in d ensures x in c { SameElements(d, c, x); }
  }

  /** Sorting a k-element part that lies below the rest gives the first k of the whole sorted. */
  lemma SmallestPart<T(!new)>(cmp: (T, T) -> int, part: seq<T>, rest: seq<T>, all: seq<T>)
    requires TotalPreorder(cmp) && Strict(cmp, all) && AllBelow(cmp, part, rest)
    requires multiset(part) + multiset(rest) == multiset(all)
    ensures |part| <= |all| && Sort(cmp, part) == Sort(cmp, all)[..|part|]
  {
    hide TotalPreorder, Sort, Strict, AllBelow;
    var a, b := Sort(cmp, part), Sort(cmp, rest);
    SortSorts(cmp, part);
    SortSorts(cmp, rest);
    SortSorts(cmp, all);
    PermutedBelow(cmp, part, a, rest, b);
    JoinAscending(cmp, a, b);
    assert multiset(a + b) == multiset(all);
    PermutedStrict(cmp, all, a + b);
    SortedUnique(cmp, a + b, Sort(cmp, all));
    assert |multiset(a)| == |a| && |multiset(part)| == |part|;
    assert (a + b)[..|a|] == a;
  }

  lemma JoinAscending<T(!new)>(cmp: (T, T) -> int, a: seq<T>, b: seq<T>)
    requires Ascending(cmp, a) && Ascending(cmp, b) && AllBelow(cmp, a, b)
    ensures Ascending(cmp, a + b)
  {
    forall i, j | 0 <= i < j < |a + b| ensures cmp((a + b)[i], (a + b)[j]) <= 0 {
      if i < |a| <= j {
        assert a[i] in a && b[j - |a|] in b;
      }
    }
  }

  // ---- the heap ----

  function Up(i: nat): nat
    requires i > 0
  {
    (i - 1) / 2
  }

  ghost predicate Over<T(!new)>(cmp: (T, T) -> int, h: seq<T>, i: nat)
    requires 0 < i < |h|
  {
    cmp(h[Up(i)], h[i]) >= 0
  }

  /** Every node but position gap is below its parent. */
  ghost predicate HeapBut<T(!new)>(cmp: (T, T) -> int, h: seq<T>, gap: nat) {
    forall i: nat :: 0 < i < |h| && i != gap ==> Over(cmp, h, i)
  }

  /** Every node whose parent is not gap is below its parent. */
  ghost predicate HeapBelow<T(!new)>(cmp: (T, T) -> int, h: seq<T>, gap: nat) {
    forall i: nat :: 0 < i < |h| && Up(i) != gap ==> Over(cmp, h, i)
  }

  ghost predicate Heap<T(!new)>(cmp: (T, T) -> int, h: seq<T>) {
    forall i: nat :: 0 < i < |h| ==> Over(cmp, h, i)
  }

  /** Grandchildren of the parent of gap stay below it. */
  ghost predicate Bridge<T(!new)>(cmp: (T, T) -> int, h: seq<T>, gap: nat) {
    gap > 0 ==> forall i: nat :: 0 < i < |h| && Up(i) == gap ==> cmp(h[Up(gap)], h[i]) >= 0
  }

  lemma {:induction false} RootIsGreatest<T(!new)>(cmp: (T, T) -> int, h: seq<T>, i: nat)
    requires TotalPreorder(cmp) && Heap(cmp, h) && i < |h|
    ensures cmp(h[i], h[0]) <= 0
  {
    hide TotalPreorder;
    if i == 0 {
      Flip(cmp, h[0], h[0]);
    } else {
      RootIsGreatest(cmp, h, Up(i));
      assert Over(cmp, h, i);
      Flip(cmp, h[Up(i)], h[i]);
      Trans(cmp, h[i], h[Up(i)], h[0]);
    }
  }

  function Swap<T>(h: seq<T>, i: nat, j: nat): (r: seq<T>)
    requires i < |h| && j < |h|
    ensures |r| == |h| && multiset(r) == multiset(h)
  {
    SwapContents(h, i, j);
    h[i := h[j]][j := h[i]]
  }

  lemma SwapContents<T>(h: seq<T>, i: nat, j: nat)
    requires i < |h| && j < |h|
    ensures multiset(h[i := h[j]][j := h[i]]) == multiset(h)
  {
  }

  /** Moving a too-large node up one level. */
  lemma SwapUp<T(!new)>(cmp: (T, T) -> int, h: seq<T>, i: nat)
    requires TotalPreorder(cmp) && 0 < i < |h| && cmp(h[Up(i)], h[i]) < 0
    requires HeapBut(cmp, h, i) && Bridge(cmp, h, i)
    ensures HeapBut(cmp, Swap(h, Up(i), i), Up(i)) && Bridge(cmp, Swap(h, Up(i), i), Up(i))
  {
    hide TotalPreorder;
    var p := Up(i);
    var g := Swap(h, p, i);
    forall j: nat | 0 < j < |g| && j != p ensures Over(cmp, g, j) {
      if j == i {
        Flip(cmp, h[p], h[i]);
      } else if Up(j) == p {
        assert Over(cmp, h, j);
        Flip(cmp, h[p], h[j]);
        Flip(cmp, h[i], h[j]);
        Trans(cmp, h[j], h[p], h[i]);
      } else if Up(j) != i {
        assert Over(cmp, h, j);
      }
    }
    if p > 0 {
      assert Over(cmp, h, p);
      forall j: nat | 0 < j < |g| && Up(j) == p ensures cmp(g[Up(p)], g[j]) >= 0 {
        if j != i {
          assert Over(cmp, h, j);
          Flip(cmp, h[p], h[j]);
          Flip(cmp, h[Up(p)], h[p]);
          Flip(cmp, h[Up(p)], h[j]);
          Trans(cmp, h[j], h[p], h[Up(p)]);
        }
      }
    }
  }

  lemma SettledUp<T(!new)>(cmp: (T, T) -> int, h: seq<T>, i: nat)
    requires HeapBut(cmp, h, i) && (i == 0 || i >= |h| || cmp(h[Up(i)], h[i]) >= 0)
    ensures Heap(cmp, h)
  {
    forall j: nat | 0 < j < |h| ensures Over(cmp, h, j) {
      if j == i {
      }
    }
  }

  /** c is a child of i that no child of i exceeds. */
  ghost predicate GreatestChild<T(!new)>(cmp: (T, T) -> int, h: seq<T>, i: nat, c: nat) {
    0 < c < |h| && Up(c) == i && forall j: nat :: 0 < j < |h| && Up(j) == i ==> cmp(h[j], h[c]) <= 0
  }

  /** Moving a too-small node down one level. */
  lemma SwapDown<T(!new)>(cmp: (T, T) -> int, h: seq<T>, i: nat, c: nat)
    requires TotalPreorder(cmp) && i < |h| && GreatestChild(cmp, h, i, c) && cmp(h[i], h[c]) < 0
    requires HeapBelow(cmp, h, i) && Bridge(cmp, h, i)
    ensures HeapBelow(cmp, Swap(h, c, i), c) && Bridge(cmp, Swap(h, c, i), c)
  {
    hide TotalPreorder;
    var g := Swap(h, c, i);
    forall j: nat | 0 < j < |g| && Up(j) != c ensures Over(cmp, g, j) {
      if j == c {
        Flip(cmp, h[i], h[c]);
      } else if Up(j) == i {
        Flip(cmp, h[c], h[j]);
      } else if j != i {
        assert Over(cmp, h, j);
      }
    }
    forall j: nat | 0 < j < |g| && Up(j) == c ensures cmp(g[Up(c)], g[j]) >= 0 {
      assert Over(cmp, h, j);
    }
  }

  lemma SettledDown<T(!new)>(cmp: (T, T) -> int, h: seq<T>, i: nat)
    requires HeapBelow(cmp, h, i) && forall j: nat :: 0 < j < |h| && Up(j) == i ==> cmp(h[i], h[j]) >= 0
    ensures Heap(cmp, h)
  {
    forall j: nat | 0 < j < |h| ensures Over(cmp, h, j) {
      if Up(j) == i {
      }
    }
  }

  /** The two children of i, and which is greater. */
  lemma PickChild<T(!new)>(cmp: (T, T) -> int, h: seq<T>, i: nat, c: nat)
    requires TotalPreorder(cmp) && i < |h| && 2 * i + 1 < |h|
    requires c == if 2 * i + 2 < |h| && cmp(h[2 * i + 2], h[2 * i + 1]) > 0 then 2 * i + 2 else 2 * i + 1
    ensures GreatestChild(cmp, h, i, c)
  {
    hide TotalPreorder;
    forall j: nat | 0 < j < |h| && Up(j) == i ensures cmp(h[j], h[c]) <= 0 {
      Flip(cmp, h[c], h[c]);
      assert j == 2 * i + 1 || j == 2 * i + 2;
      Flip(cmp, h[j], h[c]);
    }
  }

  class TopK<T(!new)> {
    const k: nat
    const compare: (T, T) -> int
    var heap: seq<T>
    /** Every value given to Add, in order, and those not in the heap. */
    ghost var seen: seq<T>
    ghost var rejected: seq<T>

    ghost predicate Valid()
      reads this
    {
      && TotalPreorder(compare) && Heap(compare, heap)
      && |heap| == (if |seen| < k then |seen| else k)
      && multiset(heap) + multiset(rejected) == multiset(seen)
      && AllBelow(compare, heap, rejected)
    }

    constructor (k: nat, compare: (T, T) -> int)
      requires TotalPreorder(compare)
      ensures Valid() && this.k == k && this.compare == compare && seen == []
    {
      this.k, this.compare := k, compare;
      heap, seen, rejected := [], [], [];
    }

    method Add(value: T)
      requires Valid()
      modifies this
      ensures Valid() && seen == old(seen) + [value]
    {
      hide TotalPreorder, Heap, AllBelow, HeapBut, HeapBelow, Bridge, GreatestChild, Over;
      if k == 0 {
        seen, rejected := seen + [value], rejected + [value];
        EmptyBelow(compare, heap, rejected);
      } else if |heap| < k {
        NoneRejected(heap, rejected, seen);
        seen := seen + [value];
        Push(value);
        EmptyBelow(compare, heap, rejected);
      } else if compare(value, heap[0]) < 0 {
        ReplaceRoot(value);
      } else {
        RejectBelow(compare, heap, rejected, value);
        seen, rejected := seen + [value], rejected + [value];
      }
    }

    /** Append and sift up. */
    method Push(value: T)
      requires TotalPreorder(compare) && Heap(compare, heap)
      modifies `heap
      ensures Heap(compare, heap) && multiset(heap) == multiset(old(heap)) + multiset{value}
          && |heap| == |old(heap)| + 1
    {
      hide TotalPreorder, Heap, HeapBut, Bridge;
      AppendHeap(compare, heap, value);
      heap := heap + [value];
      var i := |heap| - 1;
      while i > 0
        invariant 0 <= i < |heap| && |heap| == |old(heap)| + 1
        invariant multiset(heap) == multiset(old(heap)) + multiset{value}
        invariant HeapBut(compare, heap, i) && Bridge(compare, heap, i)
      {
        var parent := (i - 1) / 2;
        if compare(heap[parent], heap[i]) >= 0 { break; }
        SwapUp(compare, heap, i);
        heap := Swap(heap, parent, i);
        i := parent;
      }
      SettledUp(compare, heap, i);
    }

    /** Overwrite the root and sift down. */
    method SiftRoot(value: T)
      requires TotalPreorder(compare) && Heap(compare, heap) && heap != []
      modifies `heap
      ensures Heap(compare, heap) && multiset(heap) == multiset(old(heap)[0 := value]) && |heap| == |old(heap)|
    {
      hide TotalPreorder, Heap, HeapBelow, Bridge, GreatestChild;
      RootHeap(compare, heap, value);
      heap := heap[0 := value];
      var i := 0;
      while true
        invariant 0 <= i < |heap| && |heap| == |old(heap)|
        invariant multiset(heap) == multiset(old(heap)[0 := value])
        invariant HeapBelow(compare, heap, i) && Bridge(compare, heap, i)
        decreases |heap| - i
      {
        var child := i * 2 + 1;
        if child >= |heap| { break; }
        if child + 1 < |heap| && compare(heap[child + 1], heap[child]) > 0 { child := child + 1; }
        PickChild(compare, heap, i, child);
        if compare(heap[i], heap[child]) >= 0 {
          ChildrenBelow(compare, heap, i, child);
          break;
        }
        SwapDown(compare, heap, i, child);
        heap := Swap(heap, child, i);
        i := child;
      }
      SettledDown(compare, heap, i);
    }

    method ReplaceRoot(value: T)
      requires Valid() && k > 0 && |heap| == k && compare(value, heap[0]) < 0
      modifies this
      ensures Valid() && seen == old(seen) + [value]
    {
      hide TotalPreorder, Heap, AllBelow;
      ghost var root, before := heap[0], heap;
      ReplaceBelow(compare, heap, rejected, value);
      seen, rejected := seen + [value], rejected + [root];
      SiftRoot(value);
      RootContents(before, value);
      PermutedBelow(compare, before[0 := value], heap, rejected, rejected);
    }

    /** The k least of everything added, in order. */
    method Sorted() returns (r: seq<T>)
      requires Valid() && Strict(compare, seen)
      ensures r == Sort(compare, seen)[..if |seen| < k then |seen| else k]
    {
      hide TotalPreorder, Heap, AllBelow, Sort, Strict;
      SmallestPart(compare, heap, rejected, seen);
      SortSorts(compare, seen);
      return Sort(compare, heap);
    }
  }

  lemma EmptyBelow<T(!new)>(cmp: (T, T) -> int, a: seq<T>, b: seq<T>)
    requires a == [] || b == []
    ensures AllBelow(cmp, a, b)
  {
  }

  lemma NoneRejected<T>(h: seq<T>, r: seq<T>, s: seq<T>)
    requires multiset(h) + multiset(r) == multiset(s) && |h| >= |s|
    ensures r == []
  {
    assert |multiset(h)| == |h| && |multiset(r)| == |r| && |multiset(s)| == |s|;
  }

  lemma RejectBelow<T(!new)>(cmp: (T, T) -> int, h: seq<T>, r: seq<T>, x: T)
    requires TotalPreorder(cmp) && Heap(cmp, h) && h != [] && AllBelow(cmp, h, r) && cmp(x, h[0]) >= 0
    ensures AllBelow(cmp, h, r + [x])
  {
    hide TotalPreorder, Heap;
    forall y | y in h ensures cmp(y, x) <= 0 {
      var i :| 0 <= i < |h| && h[i] == y;
      RootIsGreatest(cmp, h, i);
      Flip(cmp, x, h[0]);
      Trans(cmp, y, h[0], x);
    }
  }

  lemma ReplaceBelow<T(!new)>(cmp: (T, T) -> int, h: seq<T>, r: seq<T>, x: T)
    requires TotalPreorder(cmp) && Heap(cmp, h) && h != [] && AllBelow(cmp, h, r) && cmp(x, h[0]) < 0
    ensures AllBelow(cmp, h[0 := x], r + [h[0]])
  {
    hide TotalPreorder, Heap;
    forall y, z | y in h[0 := x] && z in r + [h[0]] ensures cmp(y, z) <= 0 {
      var i :| 0 <= i < |h| && h[0 := x][i] == y;
      RootIsGreatest(cmp, h, i);
      if i == 0 && z in r {
        Trans(cmp, x, h[0], z);
      }
    }
  }

  lemma AppendHeap<T(!new)>(cmp: (T, T) -> int, h: seq<T>, x: T)
    requires Heap(cmp, h)
    ensures HeapBut(cmp, h + [x], |h|) && Bridge(cmp, h + [x], |h|)
  {
    forall i: nat | 0 < i < |h + [x]| && i != |h| ensures Over(cmp, h + [x], i) {
      assert Over(cmp, h, i);
    }
  }

  lemma RootHeap<T(!new)>(cmp: (T, T) -> int, h: seq<T>, x: T)
    requires Heap(cmp, h) && h != []
    ensures HeapBelow(cmp, h[0 := x], 0) && Bridge(cmp, h[0 := x], 0)
  {
    forall i: nat | 0 < i < |h| && Up(i) != 0 ensures Over(cmp, h[0 := x], i) {
      assert Over(cmp, h, i);
    }
  }

  lemma ChildrenBelow<T(!new)>(cmp: (T, T) -> int, h: seq<T>, i: nat, c: nat)
    requires TotalPreorder(cmp) && i < |h| && GreatestChild(cmp, h, i, c) && cmp(h[i], h[c]) >= 0
    ensures forall j: nat :: 0 < j < |h| && Up(j) == i ==> cmp(h[i], h[j]) >= 0
  {
    hide TotalPreorder;
    forall j: nat | 0 < j < |h| && Up(j) == i ensures cmp(h[i], h[j]) >= 0 {
      Flip(cmp, h[i], h[c]);
      Flip(cmp, h[i], h[j]);
      Trans(cmp, h[j], h[c], h[i]);
    }
  }

  lemma RootContents<T>(h: seq<T>, x: T)
    requires h != []
    ensures multiset(h[0 := x]) + multiset{h[0]} == multiset(h) + multiset{x}
  {
    assert h == [h[0]] + h[1..] && h[0 := x] == [x] + h[1..];
  }
}
