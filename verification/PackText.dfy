/** How the counts pack.c gathers describe a text. */
module PackText {
  import opened Sums
  import opened BitStrings
  import opened HuffmanTree
  import opened Optimality
  import opened HuffmanForest
  import opened HuffmanResult
  import opened PackHeap
  import opened PackParams

  /** Twice the occurrences of every byte, 1 for the end mark, 0 for inner nodes. */
  function Weights(text: seq<byte>): (r: seq<nat>)
    ensures |r| == NODES && r[END] == 1
    ensures forall c :: 0 <= c < END ==> r[c] == 2 * multiset(text)[c]
  {
    seq(NODES, c requires 0 <= c < NODES =>
      if c < END then 2 * multiset(text)[c] else if c == END then 1 else 0)
  }

  /** cnt holds twice the occurrences of every byte of text. */
  ghost predicate Counts(cnt: seq<nat>, text: seq<byte>) {
    |cnt| == SYMBOLS && forall c :: 0 <= c < END ==> cnt[c] == 2 * multiset(text)[c]
  }

  /** Counting the last byte of before last: blocks are counted from their end. */
  lemma CountStep(cnt: seq<nat>, before: seq<byte>, block: seq<byte>, i: nat)
    requires i < |block| && Counts(cnt, before + block[i + 1..])
    ensures Counts(cnt[block[i] := cnt[block[i]] + 2], before + block[i..])
  {
    assert before + block[i..] == before + [block[i]] + block[i + 1..];
    assert multiset(before + block[i..]) == multiset(before + block[i + 1..]) + multiset{block[i]};
  }

  /** The symbols that occur: the bytes of the text and the end mark. */
  function Symbols(text: seq<byte>): (r: set<nat>)
    ensures END in r
    ensures forall c :: c in r <==> 0 <= c < SYMBOLS && Weights(text)[c] > 0
  {
    set c: nat | c < SYMBOLS && Weights(text)[c] > 0
  }

  lemma {:induction false} TotalCount(text: seq<byte>)
    ensures Sum(Weights(text)[..SYMBOLS]) == 2 * |text| + 1
  {
    var w := Weights(text)[..SYMBOLS];
    if |text| == 0 {
      SumSingle(w, END);
    } else {
      var k := |text| - 1;
      TotalCount(text[..k]);
      var v := Weights(text[..k])[..SYMBOLS];
      assert text == text[..k] + [text[k]];
      SumUpdate(v, text[k], v[text[k]] + 2);
      assert w == v[text[k] := v[text[k]] + 2];
    }
  }

  /** The heap holds exactly one entry, with the right count, for each node of S. */
  ghost predicate HeapHolds(M: multiset<Entry>, S: set<nat>, w: seq<nat>) {
    forall e: Entry :: M[e] == if e.node in S && e.node < |w| && e.count == w[e.node] then 1 else 0
  }

  lemma HoldsRemove(M: multiset<Entry>, S: set<nat>, w: seq<nat>, e: Entry)
    requires HeapHolds(M, S, w) && e in M
    ensures e.node in S && e.node < |w| && e.count == w[e.node]
    ensures HeapHolds(M - multiset{e}, S - {e.node}, w)
  {
  }

  lemma HoldsAdd(M: multiset<Entry>, S: set<nat>, w: seq<nat>, e: Entry)
    requires HeapHolds(M, S, w) && e.node !in S && e.node < |w|
    ensures HeapHolds(M + multiset{e}, S + {e.node}, w[e.node := e.count])
  {
  }

  lemma HoldsMember(M: multiset<Entry>, S: set<nat>, w: seq<nat>, x: nat)
    requires HeapHolds(M, S, w) && x in S && x < |w|
    ensures Entry(w[x], x) in M
  {
  }

  /** Entries for the symbols above i have been collected into h[1..n]. */
  ghost predicate Collected(h: seq<Entry>, n: nat, S: set<nat>, w: seq<nat>, i: int, insize: nat) {
    && |h| == HEAPSIZE && |w| == NODES && -1 <= i <= END && n == |S| <= END - i
    && (forall c :: c in S <==> i < c < SYMBOLS && w[c] > 0)
    && insize + Sum(w[..i + 1]) == Sum(w[..SYMBOLS])
    && HeapHolds(Contents(h, n), S, w)
  }

  lemma CollectNone(h: seq<Entry>, w: seq<nat>)
    requires |h| == HEAPSIZE && |w| == NODES
    ensures Collected(h, 0, {}, w, END, 0)
  {
  }

  lemma CollectSkip(h: seq<Entry>, n: nat, S: set<nat>, w: seq<nat>, i: int, insize: nat)
    requires Collected(h, n, S, w, i, insize) && i >= 0 && w[i] == 0
    ensures Collected(h, n, S, w, i - 1, insize)
  {
    assert w[..i + 1][..i] == w[..i];
  }

  lemma CollectTake(h: seq<Entry>, n: nat, S: set<nat>, w: seq<nat>, i: int, insize: nat)
    requires Collected(h, n, S, w, i, insize) && i >= 0 && w[i] > 0
    ensures n + 1 < HEAPSIZE
    ensures Collected(h[n + 1 := Entry(w[i], i)], n + 1, S + {i}, w, i - 1, insize + w[i])
  {
    assert w[..i + 1][..i] == w[..i];
    ContentsAppend(h, n, Entry(w[i], i));
    HoldsAdd(Contents(h, n), S, w, Entry(w[i], i));
    assert w[i := w[i]] == w;
  }
  lemma CollectedAll(h: seq<Entry>, n: nat, S: set<nat>, text: seq<byte>, insize: nat)
    requires Collected(h, n, S, Weights(text), -1, insize)
    ensures n == |Symbols(text)| <= SYMBOLS && insize == 2 * |text| + 1
    ensures HeapHolds(Contents(h, n), Symbols(text), Weights(text))
  {
    TotalCount(text);
    assert S == Symbols(text);
    assert Weights(text)[..0] == [];
  }

  // ----- the merge loop: the heap is the set of roots of a forest

  /** The heap holds the roots of F and is ordered from position top on. */
  ghost predicate Merging(h: seq<Entry>, n: nat, F: Forest, S0: set<nat>, w0: seq<nat>, top: nat) {
    && |h| == HEAPSIZE && n < HEAPSIZE && n == |F.trees| && Grown(F, S0, w0)
    && HeapFrom(h, n, top)
    && HeapHolds(Contents(h, n), F.trees.Keys, F.w)
  }

  /** The heap holds all roots but the lightest one, x. */
  ghost predicate Rest(h: seq<Entry>, n: nat, F: Forest, S0: set<nat>, w0: seq<nat>, x: nat, top: nat) {
    && |h| == HEAPSIZE && n < HEAPSIZE && n + 1 == |F.trees| && Grown(F, S0, w0)
    && HeapFrom(h, n, top)
    && x in F.trees && HeapHolds(Contents(h, n), F.trees.Keys - {x}, F.w)
    && Least(F.trees.Keys, F.w, x)
  }

  /** Before the first turn every symbol is a root. */
  lemma StartMerging(h: seq<Entry>, n: nat, S0: set<nat>, w0: seq<nat>, parent: seq<nat>)
    requires |h| == HEAPSIZE && n < HEAPSIZE && n == |S0| && |w0| == |parent| == NODES
    requires HeapFrom(h, n, 1) && HeapHolds(Contents(h, n), S0, w0)
    requires forall c :: c in S0 ==> c < SYMBOLS
    ensures Merging(h, n, Start(S0, w0, parent), S0, w0, 1)
  {
    hide Grown;
    StartGrown(S0, w0, parent);
    assert Start(S0, w0, parent).trees.Keys == S0;
  }

  /** Every root is a node number. */
  lemma RootsAreNodes(F: Forest, S0: set<nat>, w0: seq<nat>)
    requires Grown(F, S0, w0)
    ensures |F.w| == |F.parent| == NODES && forall x :: x in F.trees ==> x < NODES
  {
    forall x | x in F.trees
      ensures x < NODES
    {
      assert TreeOk(F, w0, x);
    }
  }

  lemma OrderedFromTwo(h: seq<Entry>, n: nat, m: nat, e: Entry)
    requires HeapFrom(h, n, 1) && 1 <= m <= n
    ensures HeapFrom(h[1 := e], m, 2)
  {
    forall k | 2 <= k <= m && 2 <= k / 2
      ensures Ordered(h[1 := e], k)
    {
      assert Ordered(h, k);
    }
  }

  /** A root numbered like a symbol is a symbol of the text. */
  lemma RootIsSymbol(F: Forest, S0: set<nat>, w0: seq<nat>, x: nat)
    requires Grown(F, S0, w0) && x in F.trees
    ensures x in S0 || x >= SYMBOLS
    ensures x <= F.last
  {
    assert TreeOk(F, w0, x);
    if x < SYMBOLS {
      assert F.trees[x].Leaf?;
      assert Owns(F, x, x);
    }
  }

  /** The root of the heap is the lightest node of those it holds. */
  lemma RootLightest(h: seq<Entry>, n: nat, F: Forest, S: set<nat>)
    requires |h| == HEAPSIZE && 1 <= n < HEAPSIZE && HeapFrom(h, n, 1) && HeapHolds(Contents(h, n), S, F.w)
    requires forall u :: u in S ==> u < |F.w|
    ensures h[1].node < |F.w| && h[1].count == F.w[h[1].node] && Least(S, F.w, h[1].node)
  {
    var M := Contents(h, n);
    ContentsUpdate(h, n, 1, h[1]);
    HoldsRemove(M, S, F.w, h[1]);
    forall u | u in S
      ensures F.w[h[1].node] <= F.w[u]
    {
      HoldsMember(M, S, F.w, u);
      RootIsLeastOfAll(h, n, Entry(F.w[u], u));
    }
  }

  /** The last entry takes the place of the root x. */
  lemma TakeRoot(h: seq<Entry>, n: nat, F: Forest, S0: set<nat>, w0: seq<nat>)
    requires Merging(h, n, F, S0, w0, 1) && n > 1
    ensures Rest(h[1 := h[n]], n - 1, F, S0, w0, h[1].node, 2)
    ensures h[1].node in F.trees && h[1].node < NODES == |F.w| == |F.parent|
    ensures h[1].count == F.w[h[1].node] && n < HEAPSIZE
    ensures Grown(F, S0, w0) && HeapFrom(h[1 := h[n]], n - 1, 2)
  {
    hide Grown, HeapHolds, HeapFrom, Least, Contents;
    RootsAreNodes(F, S0, w0);
    RootLightest(h, n, F, F.trees.Keys);
    ContentsUpdate(h, n, 1, h[n]);
    ContentsDrop(h[1 := h[n]], n);
    assert Contents(h[1 := h[n]], n - 1) == Contents(h, n) - multiset{h[1]};
    HoldsRemove(Contents(h, n), F.trees.Keys, F.w, h[1]);
    OrderedFromTwo(h, n, n - 1, h[n]);
  }

  /** The root y of the rest becomes the root of the merged tree. */
  lemma ReplaceRoot(h: seq<Entry>, n: nat, F: Forest, S0: set<nat>, w0: seq<nat>, x: nat)
    requires Rest(h, n, F, S0, w0, x, 1) && n >= 1 && F.last + 1 < NODES
    ensures Grown(F, S0, w0) && x in F.trees
    ensures h[1].node in F.trees && h[1].node < NODES == |F.w| == |F.parent| && x < NODES && h[1].node != x
    ensures Merging(h[1 := Entry(h[1].count + F.w[x], F.last + 1)], n,
                    Merge(F, x, h[1].node), S0, w0, 2)
    ensures HeapFrom(h[1 := Entry(h[1].count + F.w[x], F.last + 1)], n, 2)
  {
    hide Grown, HeapHolds, HeapFrom, Least, Contents;
    var M, T := Contents(h, n), F.trees.Keys - {x};
    var y, z := h[1].node, F.last + 1;
    RootsAreNodes(F, S0, w0);
    RootLightest(h, n, F, T);
    var e := Entry(h[1].count + F.w[x], z);
    ContentsUpdate(h, n, 1, e);
    HoldsRemove(M, T, F.w, h[1]);
    MergeGrown(F, S0, w0, x, y);
    HoldsAdd(M - multiset{h[1]}, T - {y}, F.w, e);
    assert T - {y} + {z} == Merge(F, x, y).trees.Keys;
    assert Merge(F, x, y).w == F.w[z := e.count];
    CountMerged(F.trees.Keys, x, y, z);
    OrderedFromTwo(h, n, n, e);
  }

  lemma CountMerged(S: set<nat>, x: nat, y: nat, z: nat)
    requires x in S && y in S && x != y && z !in S
    ensures |S - {x} - {y} + {z}| == |S| - 1
  {
  }

  /** Sifting the root down restores the order and keeps the contents. */
  lemma Sifted(h: seq<Entry>, g: seq<Entry>, n: nat, F: Forest, S0: set<nat>, w0: seq<nat>)
    requires Merging(h, n, F, S0, w0, 2) && |g| == HEAPSIZE && HeapFrom(g, n, 1) && Contents(g, n) == Contents(h, n)
    ensures Merging(g, n, F, S0, w0, 1)
  {
    hide Grown, HeapHolds;
  }

  lemma RestSifted(h: seq<Entry>, g: seq<Entry>, n: nat, F: Forest, S0: set<nat>, w0: seq<nat>, x: nat)
    requires Rest(h, n, F, S0, w0, x, 2) && |g| == HEAPSIZE && HeapFrom(g, n, 1) && Contents(g, n) == Contents(h, n)
    ensures Rest(g, n, F, S0, w0, x, 1)
  {
    hide Grown, HeapHolds;
  }

  /** What the loop leaves behind once a single root remains and its parent is cleared. */
  lemma LastRoot(h: seq<Entry>, F: Forest, S0: set<nat>, w0: seq<nat>)
    requires Merging(h, 1, F, S0, w0, 1) && |F.parent| == NODES && F.last < NODES
    requires Rising(F.parent) && AbsentFree(F.parent, S0)
    requires if F.last == END then AbsentFree(F.parent, {}) else F.last in F.trees
    ensures h[1].node in F.trees
    ensures
      var t := F.trees[h[1].node];
      var p := F.parent[F.last := 0];
      && Huffman(t, w0) && Leaves(t) == S0 && t.id < NODES
      && Rising(p) && Encodes(p, t) && p[t.id] == 0 && AbsentFree(p, S0)
  {
    hide Grown, HeapHolds, Huffman;
    SingleRoot(h, F, S0, w0);
    var root := h[1].node;
    LastTreeIsHuffman(F, S0, w0, root);
    var t := F.trees[root];
    if F.last != END {
      assert F.last == root;
    }
    ClearRoot(F.parent, t, F.last);
  }

  lemma SingleRoot(h: seq<Entry>, F: Forest, S0: set<nat>, w0: seq<nat>)
    requires Merging(h, 1, F, S0, w0, 1)
    ensures F.trees.Keys == {h[1].node} && h[1].node < NODES
  {
    RootsAreNodes(F, S0, w0);
    RootLightest(h, 1, F, F.trees.Keys);
    OnlyElement(F.trees.Keys, h[1].node);
  }

  lemma OnlyElement(S: set<nat>, x: nat)
    requires x in S && |S| == 1
    ensures S == {x}
  {
    assert |S - {x}| == 0;
    assert S == S - {x} + {x};
  }
}
