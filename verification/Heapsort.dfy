// Heapsort in place, for the numbers that a child process sorts.

module Heapsort {

  // ----------------------------------------------------------------- sequences

  function Swap(s: seq<int>, i: nat, j: nat): (r: seq<int>)
    requires i < |s| && j < |s|
    ensures |r| == |s|
  {
    s[i := s[j]][j := s[i]]
  }

  predicate Sorted(s: seq<int>) {
    forall i, j :: 0 <= i < j < |s| ==> s[i] <= s[j]
  }

  // The first n elements are rearranged, the others stay.
  predicate Rearranged(s: seq<int>, t: seq<int>, n: nat) {
    n <= |s| == |t| && multiset(s[..n]) == multiset(t[..n]) && s[n..] == t[n..]
  }

  lemma SwapRearranges(s: seq<int>, i: nat, j: nat, n: nat)
    requires i < n && j < n && n <= |s|
    ensures Rearranged(s, Swap(s, i, j), n)
  {
    var t := Swap(s, i, j);
    assert t[..n] == s[..n][i := s[j]][j := s[i]];
    assert t[n..] == s[n..];
  }

  lemma RearrangedTwice(s: seq<int>, t: seq<int>, u: seq<int>, n: nat)
    requires Rearranged(s, t, n) && Rearranged(t, u, n)
    ensures Rearranged(s, u, n)
  {
  }

  lemma RearrangedMore(s: seq<int>, t: seq<int>, n: nat, m: nat)
    requires Rearranged(s, t, n) && n <= m <= |s|
    ensures Rearranged(s, t, m)
  {
    assert s[..m] == s[..n] + s[n..][..m - n];
    assert t[..m] == t[..n] + t[n..][..m - n];
    assert s[m..] == s[n..][m - n..] && t[m..] == t[n..][m - n..];
  }

  // No element of the first n is above b.
  predicate Below(s: seq<int>, n: nat, b: int)
    requires n <= |s|
  {
    forall x :: x in s[..n] ==> x <= b
  }

  lemma BelowAt(s: seq<int>, n: nat, b: int, i: nat)
    requires i < n <= |s| && Below(s, n, b)
    ensures s[i] <= b
  {
    assert s[..n][i] == s[i] && s[i] in s[..n];
  }

  lemma BelowRearranged(s: seq<int>, t: seq<int>, n: nat, b: int)
    requires Rearranged(s, t, n) && Below(s, n, b)
    ensures Below(t, n, b)
  {
    forall x | x in t[..n]
      ensures x <= b
    {
      assert x in multiset(t[..n]);
      assert x in multiset(s[..n]);
      assert x in s[..n];
    }
  }

  // ---------------------------------------------------------------------- heaps

  // No child of p among the first end elements is above it.
  predicate Over(s: seq<int>, p: nat, end: nat)
    requires end <= |s|
  {
    && (2 * p + 1 < end ==> s[2 * p + 1] <= s[p])
    && (2 * p + 2 < end ==> s[2 * p + 2] <= s[p])
  }

  predicate Heap(s: seq<int>, from: nat, end: nat)
    requires end <= |s|
  {
    forall p {:trigger Over(s, p, end)} :: from <= p < end ==> Over(s, p, end)
  }

  // A heap but for root; and up, the parent of root, is over the children of root.
  predicate Sinking(s: seq<int>, from: nat, end: nat, root: nat, up: nat)
    requires end <= |s|
  {
    && from <= root
    && (forall p {:trigger Over(s, p, end)} :: from <= p < end && p != root ==> Over(s, p, end))
    && (root > from ==>
          && from <= up < root && (root == 2 * up + 1 || root == 2 * up + 2)
          && (2 * root + 1 < end ==> s[2 * root + 1] <= s[up])
          && (2 * root + 2 < end ==> s[2 * root + 2] <= s[up]))
  }

  lemma SinkOne(s: seq<int>, from: nat, end: nat, root: nat, up: nat, child: nat)
    requires end <= |s| && Sinking(s, from, end, root, up)
    requires child < end && (child == 2 * root + 1 || child == 2 * root + 2) && s[root] < s[child]
    requires 2 * root + 1 < end ==> s[2 * root + 1] <= s[child]
    requires 2 * root + 2 < end ==> s[2 * root + 2] <= s[child]
    ensures Sinking(Swap(s, child, root), from, end, child, root)
  {
    var t := Swap(s, child, root);
    assert Over(s, child, end);
    forall p {:trigger Over(t, p, end)} | from <= p < end && p != child
      ensures Over(t, p, end)
    {
      if p != root {
        assert Over(s, p, end);
        if root > from && p == up {
        }
      }
    }
  }

  lemma Settled(s: seq<int>, from: nat, end: nat, root: nat, up: nat)
    requires end <= |s| && Sinking(s, from, end, root, up) && Over(s, root, end)
    ensures Heap(s, from, end)
  {
    forall p {:trigger Over(s, p, end)} | from <= p < end
      ensures Over(s, p, end)
    {
    }
  }

  // The repair: if all is a heap but for start, it is a heap from start on
  // afterwards, with the same elements.
  method HeapDown(heap: array<int>, start: nat, end: nat)
    requires start <= end <= heap.Length && Heap(heap[..], start + 1, end)
    modifies heap
    ensures Heap(heap[..], start, end) && Rearranged(old(heap[..]), heap[..], end)
  {
    var root := start;
    ghost var s, up: nat := heap[..], start;
    ghost var first := s;
    while root * 2 + 1 < end
      invariant heap[..] == s && Sinking(s, start, end, root, up) && Rearranged(first, s, end)
      decreases end - root
    {
      var child := 2 * root + 1;
      if child + 1 < end && heap[child] < heap[child + 1] {
        child := child + 1;
      }
      if heap[root] < heap[child] {
        SinkOne(s, start, end, root, up, child);
        SwapRearranges(s, child, root, end);
        RearrangedTwice(first, s, Swap(s, child, root), end);
        heap[child], heap[root] := heap[root], heap[child];
        s, up := Swap(s, child, root), root;
        root := child;
      } else {
        Settled(s, start, end, root, up);
        return;
      }
    }
    Settled(s, start, end, root, up);
  }

  // The first of a heap is its greatest.
  lemma {:induction false} TopIsGreatest(s: seq<int>, end: nat, k: nat)
    requires k < end <= |s| && Heap(s, 0, end)
    ensures s[k] <= s[0]
    decreases k
  {
    if k > 0 {
      var p := (k - 1) / 2;
      assert Over(s, p, end);
      TopIsGreatest(s, end, p);
    }
  }

  // The elements from end on are in their places.
  predicate Done(s: seq<int>, end: nat, size: nat)
    requires end <= size <= |s|
  {
    Sorted(s[end..size]) && forall j :: end <= j < size ==> Below(s, end, s[j])
  }

  // The greatest of the first end + 1 goes to their end.
  lemma TakeTop(s: seq<int>, end: nat, size: nat)
    requires end < size <= |s| && Heap(s, 0, end + 1) && Done(s, end + 1, size)
    ensures var t := Swap(s, end, 0);
      Heap(t, 1, end) && Done(t, end, size)
  {
    var t := Swap(s, end, 0);
    forall p {:trigger Over(t, p, end)} | 1 <= p < end
      ensures Over(t, p, end)
    {
      assert Over(s, p, end + 1);
    }
    forall j | end <= j < size
      ensures Below(t, end, t[j])
    {
      TopAbove(s, end, size, j);
    }
    forall i, j | 0 <= i < j < size - end
      ensures t[end..size][i] <= t[end..size][j]
    {
      if i == 0 {
        BelowAt(s, end + 1, s[end + j], 0);
      } else {
        assert s[end + 1..size][i - 1] <= s[end + 1..size][j - 1];
      }
    }
  }

  lemma TopAbove(s: seq<int>, end: nat, size: nat, j: nat)
    requires end <= j < size <= |s| && Heap(s, 0, end + 1) && Done(s, end + 1, size)
    ensures Below(Swap(s, end, 0), end, Swap(s, end, 0)[j])
  {
    var t := Swap(s, end, 0);
    forall x | x in t[..end]
      ensures x <= t[j]
    {
      var i :| 0 <= i < end && t[..end][i] == x;
      var k := if i == 0 then end else i;
      assert x == s[k];
      TopIsGreatest(s, end + 1, k);
      if j > end {
        BelowAt(s, end + 1, s[j], k);
      }
    }
  }

  lemma DoneRearranged(s: seq<int>, t: seq<int>, end: nat, size: nat)
    requires end <= size <= |s| && Rearranged(s, t, end) && Done(s, end, size)
    ensures Done(t, end, size)
  {
    assert s[end..size] == s[end..][..size - end] && t[end..size] == t[end..][..size - end];
    forall j | end <= j < size
      ensures Below(t, end, t[j])
    {
      assert s[end..][j - end] == t[end..][j - end];
      BelowRearranged(s, t, end, s[j]);
    }
  }

  // The first loop: parents from the last to the first.
  method BuildHeap(heap: array<int>, size: nat)
    requires size <= heap.Length
    modifies heap
    ensures Heap(heap[..], 0, size) && Rearranged(old(heap[..]), heap[..], size)
  {
    // C rounds (size - 2) / 2 towards zero.
    var start := if size == 1 then 0 else (size - 2) / 2;
    ghost var s := heap[..];
    while start >= 0
      invariant -1 <= start < size && Heap(heap[..], start + 1, size)
      invariant Rearranged(s, heap[..], size)
    {
      ghost var t := heap[..];
      HeapDown(heap, start, size);
      RearrangedTwice(s, t, heap[..], size);
      start := start - 1;
    }
  }

  // One round of the second loop.
  method SortOne(heap: array<int>, end: nat, size: nat, ghost first: seq<int>)
    requires 0 < end < size <= heap.Length
    requires Heap(heap[..], 0, end + 1) && Done(heap[..], end + 1, size) && Rearranged(first, heap[..], size)
    modifies heap
    ensures Heap(heap[..], 0, end) && Done(heap[..], end, size) && Rearranged(first, heap[..], size)
  {
    ghost var s := heap[..];
    heap[end], heap[0] := heap[0], heap[end];
    ghost var t := heap[..];
    assert t == Swap(s, end, 0);
    TakeTop(s, end, size);
    SwapRearranges(s, end, 0, size);
    RearrangedTwice(first, s, t, size);
    HeapDown(heap, 0, end);
    DoneRearranged(t, heap[..], end, size);
    RearrangedMore(t, heap[..], end, size);
    RearrangedTwice(first, t, heap[..], size);
  }

  // The second loop.
  method SortHeap(heap: array<int>, size: nat)
    requires 0 < size <= heap.Length && Heap(heap[..], 0, size)
    modifies heap
    ensures Done(heap[..], 1, size) && Rearranged(old(heap[..]), heap[..], size)
  {
    ghost var first := heap[..];
    var end := size - 1;
    while end > 0
      invariant 0 <= end < size
      invariant Heap(heap[..], 0, end + 1) && Done(heap[..], end + 1, size) && Rearranged(first, heap[..], size)
    {
      SortOne(heap, end, size, first);
      end := end - 1;
    }
  }

  lemma AllDone(s: seq<int>, size: nat)
    requires 0 < size <= |s| && Done(s, 1, size)
    ensures Sorted(s[..size])
  {
    forall i, j | 0 <= i < j < size
      ensures s[..size][i] <= s[..size][j]
    {
      if i == 0 {
        BelowAt(s, 1, s[j], 0);
      } else {
        assert s[1..size][i - 1] <= s[1..size][j - 1];
      }
    }
  }

  // MAIN: sorted, with the same elements, and nothing behind size touched.
  method HeapSort(heap: array<int>, size: nat)
    requires size <= heap.Length
    modifies heap
    ensures Sorted(heap[..][..size]) && Rearranged(old(heap[..]), heap[..], size)
  {
    ghost var first := heap[..];
    BuildHeap(heap, size);
    // Without elements the second loop does nothing.
    if size > 0 {
      ghost var s := heap[..];
      SortHeap(heap, size);
      RearrangedTwice(first, s, heap[..], size);
      AllDone(heap[..], size);
    }
  }
}
