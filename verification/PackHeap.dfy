/** The array heap of usr/src/cmd/pack.c and its sift-down. */
module PackHeap {
  import opened PackParams

  datatype Entry = Entry(count: nat, node: nat)

  /** Entry k is no lighter than its parent. */
  predicate Ordered(h: seq<Entry>, k: nat)
    requires 2 <= k < |h|
  {
    h[k / 2].count <= h[k].count
  }

  /** Every entry whose parent stands at or after position i is ordered. */
  ghost predicate HeapFrom(h: seq<Entry>, n: nat, i: nat) {
    n < |h| && forall k :: 2 <= k <= n && i <= k / 2 ==> Ordered(h, k)
  }

  /** The entries in use. */
  ghost function Contents(h: seq<Entry>, n: nat): multiset<Entry>
    requires n < |h|
  {
    multiset(h[1..n + 1])
  }

  lemma {:induction false} RootIsLeast(h: seq<Entry>, n: nat, k: nat)
    requires HeapFrom(h, n, 1) && 1 <= k <= n
    ensures h[1].count <= h[k].count
  {
    if k > 1 {
      assert Ordered(h, k);
      RootIsLeast(h, n, k / 2);
    }
  }

  /** The same, said of the contents. */
  lemma RootIsLeastOfAll(h: seq<Entry>, n: nat, e: Entry)
    requires HeapFrom(h, n, 1) && e in Contents(h, n)
    ensures h[1].count <= e.count
  {
    assert e in h[1..n + 1];
    var k :| 0 <= k < n && h[1..n + 1][k] == e;
    RootIsLeast(h, n, k + 1);
  }

  lemma ContentsUpdate(h: seq<Entry>, n: nat, k: nat, e: Entry)
    requires 1 <= k <= n < |h|
    ensures Contents(h[k := e], n) == Contents(h, n) - multiset{h[k]} + multiset{e}
    ensures h[k] in Contents(h, n)
  {
    assert h[k := e][1..n + 1] == h[1..n + 1][k - 1 := e];
    assert h[1..n + 1][k - 1] == h[k];
  }

  /** Dropping the last entry in use. */
  lemma ContentsDrop(h: seq<Entry>, n: nat)
    requires 1 <= n < |h|
    ensures Contents(h, n - 1) == Contents(h, n) - multiset{h[n]}
  {
    assert h[1..n + 1] == h[1..n] + [h[n]];
  }

  /** Appending an entry. */
  lemma ContentsAppend(h: seq<Entry>, n: nat, e: Entry)
    requires n + 1 < |h|
    ensures Contents(h[n + 1 := e], n + 1) == Contents(h, n) + multiset{e}
  {
    assert h[n + 1 := e][1..n + 2] == h[1..n + 1] + [e];
  }

  /** c is no heavier than the children of position i. */
  predicate AtMostChildren(h: seq<Entry>, n: nat, i: nat, c: nat)
    requires n < |h|
  {
    (2 * i <= n ==> c <= h[2 * i].count) && (2 * i + 1 <= n ==> c <= h[2 * i + 1].count)
  }

  /** What holds while x is out of the array and position i waits to be filled. */
  ghost predicate Sifting(h: seq<Entry>, n: nat, top: nat, i: nat, x: Entry) {
    && 1 <= top <= i <= n < |h|
    && (forall k :: 2 <= k <= n && top <= k / 2 && k / 2 != i && k != i ==> Ordered(h, k))
    && (i > top ==> top <= i / 2 && h[i / 2].count <= x.count && AtMostChildren(h, n, i, h[i / 2].count))
  }

  lemma SiftStart(h: seq<Entry>, n: nat, top: nat)
    requires 1 <= top <= n < |h| && HeapFrom(h, n, top + 1)
    ensures Sifting(h, n, top, top, h[top]) && h[top := h[top]] == h
  {
  }

  /** The child the loop picks is the lighter one, also when the second child is past the end. */
  lemma SiftStep(h: seq<Entry>, n: nat, top: nat, i: nat, x: Entry, k: nat)
    requires Sifting(h, n, top, i, x) && 2 * i <= n && 2 * i + 1 < |h|
    requires k == if h[2 * i].count > h[2 * i + 1].count && 2 * i < n then 2 * i + 1 else 2 * i
    ensures AtMostChildren(h, n, i, h[k].count) && k <= n
    ensures h[k].count <= x.count ==> Sifting(h[i := h[k]], n, top, k, x)
  {
    var g := h[i := h[k]];
    if h[k].count <= x.count {
      forall j | 2 <= j <= n && top <= j / 2 && j / 2 != k && j != k
        ensures Ordered(g, j)
      {
        if j / 2 != i && j != i {
          assert Ordered(h, j);
        } else if j / 2 == i {
          assert j == 2 * i || j == 2 * i + 1;
        }
      }
      if 2 * k <= n {
        assert Ordered(h, 2 * k);
      }
      if 2 * k + 1 <= n {
        assert Ordered(h, 2 * k + 1);
      }
    }
  }

  /** Moving the hole from i to k keeps what the array holds together with x. */
  lemma SiftContents(h: seq<Entry>, n: nat, i: nat, x: Entry, k: nat)
    requires 1 <= i <= n < |h| && 1 <= k <= n && i != k
    ensures Contents(h[i := h[k]][k := x], n) == Contents(h[i := x], n)
  {
    ContentsUpdate(h, n, i, h[k]);
    ContentsUpdate(h[i := h[k]], n, k, x);
    ContentsUpdate(h, n, i, x);
  }

  lemma SiftEnd(h: seq<Entry>, n: nat, top: nat, i: nat, x: Entry)
    requires Sifting(h, n, top, i, x) && AtMostChildren(h, n, i, x.count)
    ensures HeapFrom(h[i := x], n, top)
  {
    forall k | 2 <= k <= n && top <= k / 2
      ensures Ordered(h[i := x], k)
    {
      if k / 2 == i {
        assert k == 2 * i || k == 2 * i + 1;
      } else if k != i {
        assert Ordered(h, k);
      }
    }
  }

  /** Sifts the entry at i0 down until the part of the array from there on is in order. */
  method Heapify(heap: array<Entry>, n: nat, i0: nat)
    requires heap.Length == HEAPSIZE && 1 <= i0 <= n <= HEAPSIZE - 1
    requires HeapFrom(heap[..], n, i0 + 1)
    modifies heap
    ensures HeapFrom(heap[..], n, i0)
    ensures Contents(heap[..], n) == old(Contents(heap[..], n))
  {
    ghost var before := heap[..];
    var i := i0;
    var heapsubi := heap[i];
    var lastparent := n / 2;
    SiftStart(before, n, i0);
    while i <= lastparent
      invariant Sifting(heap[..], n, i0, i, heapsubi)
      invariant Contents(heap[..][i := heapsubi], n) == Contents(before, n)
      decreases n - i
    {
      ghost var h := heap[..];
      var k := 2 * i;
      if heap[k].count > heap[k + 1].count && k < n {
        k := k + 1;
      }
      SiftStep(h, n, i0, i, heapsubi, k);
      if heapsubi.count < heap[k].count {
        break;
      }
      SiftContents(h, n, i, heapsubi, k);
      heap[i] := heap[k];
      assert heap[..] == h[i := h[k]];
      i := k;
    }
    SiftEnd(heap[..], n, i0, i, heapsubi);
    ghost var h := heap[..];
    heap[i] := heapsubi;
    assert heap[..] == h[i := heapsubi];
  }
}
