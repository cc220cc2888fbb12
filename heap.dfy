/** The array-backed binary heap of src/lib/kernel/heap.c: `length` pointers to keyed elements in
    `_arr[0 .. length)`, the parent of slot `i` at `(i - 1) / 2`, ordered by `predicate`, which is
    `<` for a min heap and `>` for a max heap. */
module Heaps {
  /** `struct heap_elem`. */
  class HeapElem {
    const key: int

    constructor (key: int)
      ensures this.key == key
    {
      this.key := key;
    }
  }

  /** `_min` or `_max`: whether key `a` must come before key `b`. */
  predicate Prior(isMin: bool, a: int, b: int) {
    if isMin then a < b else a > b
  }

  /** The parent slot, `(i - 1) / 2`. */
  function Parent(i: nat): (p: nat)
    requires i > 0
    ensures p < i
  {
    (i - 1) / 2
  }

  /** The key of a slot (a NULL slot reads as key 0; the heap never holds one). */
  function KeyOf(e: HeapElem?): int {
    if e == null then 0 else e.key
  }

  /** The element in slot `i` does not come before the one in slot `j`. */
  predicate NotBefore(s: seq<HeapElem?>, isMin: bool, i: nat, j: nat)
    requires i < |s| && j < |s|
  {
    !Prior(isMin, KeyOf(s[i]), KeyOf(s[j]))
  }

  /** Heap order: no element comes before its parent. */
  ghost predicate HeapOrdered(s: seq<HeapElem?>, isMin: bool) {
    forall i :: 0 < i < |s| ==> NotBefore(s, isMin, i, Parent(i))
  }

  /** Heap order except that slot `k` may come before its parent, whose children are not before
      it: what `heapify_up` repairs. */
  ghost predicate OrderedExceptUp(s: seq<HeapElem?>, isMin: bool, k: nat) {
    && (forall i :: 0 < i < |s| && i != k ==> NotBefore(s, isMin, i, Parent(i)))
    && (0 < k < |s| ==>
          forall i {:trigger NotBefore(s, isMin, i, Parent(k))} ::
            0 < i < |s| && Parent(i) == k ==> NotBefore(s, isMin, i, Parent(k)))
  }

  /** Heap order except that the children of slot `k` may come before it, though not before its
      parent: what `heapify_down` repairs. */
  ghost predicate OrderedExceptDown(s: seq<HeapElem?>, isMin: bool, k: nat) {
    && (forall i :: 0 < i < |s| && Parent(i) != k ==> NotBefore(s, isMin, i, Parent(i)))
    && (0 < k < |s| ==>
          forall i {:trigger NotBefore(s, isMin, i, Parent(k))} ::
            0 < i < |s| && Parent(i) == k ==> NotBefore(s, isMin, i, Parent(k)))
  }

  /** In an ordered heap no element comes before the root. */
  lemma {:induction false} RootExtremal(s: seq<HeapElem?>, isMin: bool, i: nat)
    requires HeapOrdered(s, isMin) && i < |s|
    ensures NotBefore(s, isMin, i, 0)
    decreases i
  {
    if i > 0 {
      assert NotBefore(s, isMin, i, Parent(i));
      RootExtremal(s, isMin, Parent(i));
    }
  }

  /** Exchanging two slots of a run keeps its elements. */
  lemma SwapRun(s: seq<HeapElem?>, x: nat, y: nat)
    requires x < |s| && y < |s|
    ensures multiset(s[x := s[y]][y := s[x]]) == multiset(s)
  {
    if x != y {
      calc {
        multiset(s[x := s[y]][y := s[x]]);
        multiset(s[x := s[y]]) - multiset{s[x := s[y]][y]} + multiset{s[x]};
        multiset(s) - multiset{s[x]} + multiset{s[y]} - multiset{s[y]} + multiset{s[x]};
      }
    }
  }

  /** One `heapify_up` step: swapping slot `k` with the parent it comes before moves the
      exception to the parent. */
  lemma SiftUpStep(s: seq<HeapElem?>, isMin: bool, k: nat)
    requires 0 < k < |s| && OrderedExceptUp(s, isMin, k)
    requires !NotBefore(s, isMin, k, Parent(k))
    ensures OrderedExceptUp(s[Parent(k) := s[k]][k := s[Parent(k)]], isMin, Parent(k))
  {
    var p := Parent(k);
    var t := s[p := s[k]][k := s[p]];
    forall i | 0 < i < |t| && i != p
      ensures NotBefore(t, isMin, i, Parent(i))
    {
      if i == k {
      } else if Parent(i) == k {
        assert NotBefore(s, isMin, i, Parent(k));
      } else if Parent(i) == p {
        assert NotBefore(s, isMin, i, Parent(i));
      } else {
        assert NotBefore(s, isMin, i, Parent(i));
      }
    }
    if 0 < p {
      forall i | 0 < i < |t| && Parent(i) == p
        ensures NotBefore(t, isMin, i, Parent(p))
      {
        assert NotBefore(s, isMin, p, Parent(p));
        if i != k {
          assert NotBefore(s, isMin, i, Parent(i));
        }
      }
    }
  }

  /** When slot `k` is the root or does not come before its parent, `heapify_up` is done. */
  lemma SiftUpDone(s: seq<HeapElem?>, isMin: bool, k: nat)
    requires k < |s| && OrderedExceptUp(s, isMin, k)
    requires k > 0 ==> NotBefore(s, isMin, k, Parent(k))
    ensures HeapOrdered(s, isMin)
  {
    forall i | 0 < i < |s|
      ensures NotBefore(s, isMin, i, Parent(i))
    {
      if i != k {
        assert NotBefore(s, isMin, i, Parent(i));
      }
    }
  }

  /** Appending an element to an ordered heap leaves only the new last slot out of place. */
  lemma PushRun(s: seq<HeapElem?>, isMin: bool, e: HeapElem?)
    requires HeapOrdered(s, isMin)
    ensures OrderedExceptUp(s + [e], isMin, |s|)
  {
    var t := s + [e];
    forall i | 0 < i < |t| && i != |s|
      ensures NotBefore(t, isMin, i, Parent(i))
    {
      assert NotBefore(s, isMin, i, Parent(i));
    }
  }

  /** What `heapify_down` knows of its choice `m` among slot `k` and its children: when `m` is
      `k` the heap is ordered; otherwise `m` is a child of `k` that no child of `k` comes before. */
  lemma SmallestChoice(s: seq<HeapElem?>, isMin: bool, k: nat, m: nat)
    requires k < |s| && OrderedExceptDown(s, isMin, k)
    requires m == k || (m < |s| && (m == 2 * k + 1 || m == 2 * k + 2))
    requires m != k ==> !NotBefore(s, isMin, m, k)
    requires 2 * k + 1 < |s| ==> NotBefore(s, isMin, 2 * k + 1, m)
    requires 2 * k + 2 < |s| ==> NotBefore(s, isMin, 2 * k + 2, m)
    ensures m == k ==> HeapOrdered(s, isMin)
    ensures m != k ==> k < m && Parent(m) == k
                       && forall i :: 0 < i < |s| && Parent(i) == k ==> NotBefore(s, isMin, i, m)
  {
    if m == k {
      forall i | 0 < i < |s|
        ensures NotBefore(s, isMin, i, Parent(i))
      {
        if Parent(i) == k {
          assert i == 2 * k + 1 || i == 2 * k + 2;
        } else {
          assert NotBefore(s, isMin, i, Parent(i));
        }
      }
    } else {
      assert Parent(m) == k;
      forall i | 0 < i < |s| && Parent(i) == k
        ensures NotBefore(s, isMin, i, m)
      {
        assert i == 2 * k + 1 || i == 2 * k + 2;
      }
    }
  }

  /** One `heapify_down` step: swapping slot `k` with the child chosen as `smallest` moves the
      exception to that child. */
  lemma SiftDownStep(s: seq<HeapElem?>, isMin: bool, k: nat, m: nat)
    requires k < m < |s| && Parent(m) == k && OrderedExceptDown(s, isMin, k)
    requires !NotBefore(s, isMin, m, k)
    requires forall i :: 0 < i < |s| && Parent(i) == k ==> NotBefore(s, isMin, i, m)
    ensures OrderedExceptDown(s[m := s[k]][k := s[m]], isMin, m)
  {
    var t := s[m := s[k]][k := s[m]];
    forall i | 0 < i < |t| && Parent(i) != m
      ensures NotBefore(t, isMin, i, Parent(i))
    {
      if i == m {
      } else if i == k {
        assert NotBefore(s, isMin, m, Parent(k));
      } else if Parent(i) == k {
        assert NotBefore(s, isMin, i, m);
      } else {
        assert NotBefore(s, isMin, i, Parent(i));
      }
    }
    forall i | 0 < i < |t| && Parent(i) == m
      ensures NotBefore(t, isMin, i, Parent(m))
    {
      assert NotBefore(s, isMin, i, Parent(i));
    }
  }

  /** No element of an ordered heap comes before its root. */
  lemma RootFirst(s: seq<HeapElem?>, isMin: bool)
    requires |s| > 0 && HeapOrdered(s, isMin)
    requires forall i :: 0 <= i < |s| ==> s[i] != null
    ensures s[0] != null && forall e :: e in s ==> e != null && !Prior(isMin, e.key, s[0].key)
  {
    forall e | e in s
      ensures e != null && !Prior(isMin, e.key, s[0].key)
    {
      var i :| 0 <= i < |s| && s[i] == e;
      RootExtremal(s, isMin, i);
      assert s[i] == e;
    }
  }

  /** Moving the last element of an ordered heap to the root leaves only the root out of place,
      and the elements are those of the heap less its root. */
  lemma PopRun(s: seq<HeapElem?>, isMin: bool)
    requires |s| >= 2 && HeapOrdered(s, isMin)
    ensures OrderedExceptDown(s[..|s| - 1][0 := s[|s| - 1]], isMin, 0)
    ensures multiset(s[..|s| - 1][0 := s[|s| - 1]]) + multiset{s[0]} == multiset(s)
  {
    var n := |s|;
    var t := s[..n - 1][0 := s[n - 1]];
    assert t == [s[n - 1]] + s[1..n - 1];
    assert s == [s[0]] + s[1..n - 1] + [s[n - 1]];
    forall i | 0 < i < |t| && Parent(i) != 0
      ensures NotBefore(t, isMin, i, Parent(i))
    {
      assert t[i] == s[i] && t[Parent(i)] == s[Parent(i)];
      assert NotBefore(s, isMin, i, Parent(i));
    }
  }

  /** Copying slot `n - 1` to slot 0 and keeping the first `n - 1` slots. */
  lemma LastToFront(a: seq<HeapElem?>, n: nat)
    requires 2 <= n <= |a|
    ensures a[0 := a[n - 1]][..n - 1] == a[..n][..n - 1][0 := a[..n][n - 1]]
  {
  }

  /** Writing slot `n` leaves the first `n` slots as they were. */
  lemma PrefixUnchanged(a: seq<HeapElem?>, n: nat, x: HeapElem?)
    requires n < |a|
    ensures a[n := x][..n] == a[..n]
  {
  }

  /** `struct heap`: `capacity` slots, the first `length` in use. */
  class Heap {
    var length: nat
    const capacity: nat
    /** The predicate is `_min` when true, `_max` otherwise. */
    const isMin: bool
    /** `_arr`. */
    const arr: array<HeapElem?>

    ghost predicate Valid()
      reads this, arr
    {
      && arr.Length == capacity && length <= capacity
      && (forall i :: 0 <= i < length ==> arr[i] != null)
    }

    /** The elements in the heap. */
    ghost function Elems(): seq<HeapElem?>
      reads this, arr
      requires Valid()
    {
      arr[..length]
    }

    /** `heap_init` over storage for `capacity` elements. */
    constructor Init(capacity: nat, isMin: bool)
      ensures Valid() && fresh(arr)
      ensures length == 0 && this.capacity == capacity && this.isMin == isMin
    {
      length := 0;
      this.capacity := capacity;
      this.isMin := isMin;
      arr := new HeapElem?[capacity];
    }

    /** `swap`: exchanges two slots of the heap, keeping its elements and everything past it. */
    method Swap(x: nat, y: nat)
      requires Valid() && x < length && y < length
      modifies arr
      ensures Valid()
      ensures Elems() == old(Elems())[x := old(arr[y])][y := old(arr[x])]
      ensures multiset(Elems()) == old(multiset(Elems()))
      ensures arr[length..] == old(arr[length..])
    {
      ghost var s := arr[..length];
      SwapRun(s, x, y);
      var temp := arr[x];
      arr[x] := arr[y];
      arr[y] := temp;
      assert arr[..length] == s[x := s[y]][y := s[x]];
    }

    /** `heapify_up`: moves the element at `idx` up while it comes before its parent. */
    method HeapifyUp(idx: nat)
      requires Valid() && idx < length && OrderedExceptUp(Elems(), isMin, idx)
      modifies arr
      ensures Valid() && HeapOrdered(Elems(), isMin)
      ensures multiset(Elems()) == old(multiset(Elems()))
      ensures arr[length..] == old(arr[length..])
      decreases idx
    {
      if idx > 0 {
        var parent := Parent(idx);
        if Prior(isMin, arr[idx].key, arr[parent].key) {
          SiftUpStep(Elems(), isMin, idx);
          Swap(parent, idx);
          HeapifyUp(parent);
          return;
        }
      }
      SiftUpDone(Elems(), isMin, idx);
    }

    /** `heapify_down`: moves the element at `idx` down while a child comes before it, swapping
        it with the child that comes first. */
    method HeapifyDown(idx: nat)
      requires Valid() && idx < length && OrderedExceptDown(Elems(), isMin, idx)
      modifies arr
      ensures Valid() && HeapOrdered(Elems(), isMin)
      ensures multiset(Elems()) == old(multiset(Elems()))
      ensures arr[length..] == old(arr[length..])
      decreases length - idx
    {
      ghost var s0 := Elems();
      var left := 2 * idx + 1;
      var right := 2 * idx + 2;
      var smallest := idx;
      if left < length && Prior(isMin, arr[left].key, arr[smallest].key) {
        smallest := left;
      }
      assert left < length ==> NotBefore(s0, isMin, left, smallest);
      if right < length && Prior(isMin, arr[right].key, arr[smallest].key) {
        smallest := right;
      }
      assert left < length ==> NotBefore(s0, isMin, left, smallest);
      assert right < length ==> NotBefore(s0, isMin, right, smallest);
      assert smallest != idx ==> !NotBefore(s0, isMin, smallest, idx);
      if smallest != idx {
        SmallestChoice(s0, isMin, idx, smallest);
        SiftDownStep(s0, isMin, idx, smallest);
        Swap(smallest, idx);
        HeapifyDown(smallest);
      } else {
        SmallestChoice(s0, isMin, idx, smallest);
      }
    }

    /** `heap_push_back`: panics when the heap is full; otherwise adds `elem` and restores the
        order. */
    method PushBack(elem: HeapElem) returns (panicked: bool)
      requires Valid() && HeapOrdered(Elems(), isMin)
      modifies this, arr
      ensures Valid() && HeapOrdered(Elems(), isMin)
      ensures panicked <==> old(length) == capacity
      ensures panicked ==> length == old(length) && arr[..] == old(arr[..])
      ensures !panicked ==> length == old(length) + 1
                            && multiset(Elems()) == old(multiset(Elems())) + multiset{elem}
    {
      if length == capacity {
        return true;
      }
      ghost var s := arr[..length];
      PushRun(s, isMin, elem);
      arr[length] := elem;
      length := length + 1;
      assert arr[..length] == s + [elem];
      HeapifyUp(length - 1);
      return false;
    }

    /** `heap_pop_front`: NULL on an empty heap; otherwise removes and returns the root, which no
        element comes before. */
    method PopFront() returns (r: HeapElem?)
      requires Valid() && HeapOrdered(Elems(), isMin)
      modifies this, arr
      ensures Valid() && HeapOrdered(Elems(), isMin)
      ensures old(length) == 0 ==> r == null && length == 0 && arr[..] == old(arr[..])
      ensures old(length) > 0 ==>
                && r == old(arr[0]) && r != null
                && length == old(length) - 1
                && multiset(Elems()) + multiset{r} == old(multiset(Elems()))
                && (forall e :: e in old(Elems()) ==> e != null && !Prior(isMin, e.key, r.key))
      ensures old(length) > 1 ==> arr[length] == null
    {
      if length == 0 {
        return null;
      }
      RootFirst(Elems(), isMin);
      if length == 1 {
        assert Elems() == [arr[0]];
        length := 0;
        return arr[0];
      }
      var root := arr[0];
      ReplaceRootWithLast();
      ghost var b := arr[..];
      arr[length] := null;
      assert arr[..] == b[length := null];
      assert Elems() == b[..length] by {
        PrefixUnchanged(b, length, null);
      }
      return root;
    }

    /** The middle of `heap_pop_front` on a heap of two or more elements: the last element moves
        to the root, the heap shrinks by one and the order is restored. */
    method ReplaceRootWithLast()
      requires Valid() && HeapOrdered(Elems(), isMin) && length >= 2
      modifies this, arr
      ensures Valid() && HeapOrdered(Elems(), isMin)
      ensures length == old(length) - 1
      ensures multiset(Elems()) + multiset{old(arr[0])} == old(multiset(Elems()))
    {
      ghost var s := arr[..length];
      ghost var rest := s[..|s| - 1][0 := s[|s| - 1]];
      PopRun(s, isMin);
      ghost var a := arr[..];
      arr[0] := arr[length - 1];
      assert arr[..] == a[0 := a[length - 1]];
      length := length - 1;
      assert Elems() == rest by {
        LastToFront(a, length + 1);
      }
      ghost var m := multiset(rest);
      HeapifyDown(0);
      assert multiset(Elems()) == m;
    }

    /** `heap_front`: NULL on an empty heap, otherwise the root, which no element comes before. */
    method Front() returns (r: HeapElem?)
      requires Valid() && HeapOrdered(Elems(), isMin)
      ensures length == 0 ==> r == null
      ensures length > 0 ==> r == arr[0] && r != null
                             && forall e :: e in Elems() ==> e != null && !Prior(isMin, e.key, r.key)
    {
      if length == 0 {
        return null;
      }
      RootFirst(Elems(), isMin);
      return arr[0];
    }
  }
}
