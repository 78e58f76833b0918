/** What the tree means for the text: the lengths it yields serve the text, and how deep it can be. */
module PackLaws {
  import opened BitStrings
  import opened HuffmanTree
  import opened HuffmanForest
  import opened HuffmanResult
  import opened CanonicalCode
  import opened PackParams
  import opened PackText
  import RoundTrip
  import Optimality

  /** t is a Huffman tree for the symbols of text. */
  ghost predicate TreeFor(t: Tree, text: seq<byte>) {
    Huffman(t, Weights(text)) && Leaves(t) == Symbols(text)
  }

  lemma WeightsCounted(text: seq<byte>)
    ensures Counted(Weights(text))
  {
  }

  lemma {:induction false} PositiveWeights(t: Tree, text: seq<byte>)
    requires TreeFor(t, text)
    ensures Positive(t, Weights(text))
  {
    AllPositive(t, Weights(text));
  }

  /** The end mark is on the deepest level: it weighs 1 and every byte at least 2. */
  lemma {:induction false} EndIsDeepest(t: Tree, text: seq<byte>)
    requires TreeFor(t, text)
    ensures END in Leaves(t) && Depth(t, END) == Height(t)
  {
    LightestIsDeepest(t, Weights(text), END);
  }

  lemma {:induction false} MoreThanALeaf(t: Tree, text: seq<byte>)
    requires TreeFor(t, text) && text != []
    ensures t.Node?
  {
    assert text[0] in multiset(text);
    assert text[0] in Leaves(t) && END in Leaves(t);
  }

  /** The empty file: only the end mark. */
  lemma {:induction false} EmptyTree(t: Tree)
    requires TreeFor(t, [])
    ensures t == Leaf(END)
  {
    assert Symbols([]) == {END};
    if t.Node? {
      var a, b := TwoLeaves(t);
      assert false;
    }
  }

  lemma {:induction false} TwoLeaves(t: Tree) returns (a: nat, b: nat)
    requires Proper(t) && t.Node?
    ensures a in Leaves(t) && b in Leaves(t) && a != b
  {
    LeavesAreIds(t.left);
    LeavesAreIds(t.right);
    a := SomeLeaf(t.left);
    b := SomeLeaf(t.right);
  }

  lemma {:induction false} SomeLeaf(t: Tree) returns (c: nat)
    ensures c in Leaves(t)
  {
    match t
    case Leaf(x) => c := x;
    case Node(_, l, _) => c := SomeLeaf(l);
  }

  /** The code lengths of the tree serve the text, so that unpacking will restore it. */
  lemma {:induction false} TreeServes(t: Tree, text: seq<byte>, lens: seq<nat>)
    requires TreeFor(t, text) && text != [] && |lens| == SYMBOLS && DepthsOf(t, lens) && Height(t) <= MAXLEV
    ensures RoundTrip.Serves(lens, Height(t), text)
  {
    MoreThanALeaf(t, text);
    TreeIsFullCode(t, lens);
    EndIsDeepest(t, text);
    forall k | 0 <= k < |text|
      ensures lens[text[k]] > 0
    {
      assert text[k] in multiset(text);
      assert text[k] in Leaves(t);
    }
  }

  // ----- there is such a tree

  lemma {:induction false} LeastRoot(S: set<nat>, w: seq<nat>) returns (x: nat)
    requires S != {} && forall i :: i in S ==> i < |w|
    ensures Optimality.Least(S, w, x)
    decreases |S|
  {
    x :| x in S;
    if S != {x} {
      var y := LeastRoot(S - {x}, w);
      x := if w[x] <= w[y] then x else y;
    }
  }

  /** Merging the two lightest roots until one is left. */
  lemma {:induction false} AllMerged(F: Forest, S0: set<nat>, w: seq<nat>) returns (G: Forest, x: nat)
    requires Grown(F, S0, w) && F.trees.Keys != {} && F.last + |F.trees.Keys| <= NODES
    ensures Grown(G, S0, w) && G.trees.Keys == {x}
    decreases |F.trees.Keys|
  {
    hide Grown, Merge, Optimality.Least;
    RootsInRange(F, S0, w);
    x := LeastRoot(F.trees.Keys, F.w);
    if F.trees.Keys == {x} {
      G := F;
    } else {
      var y := LeastRoot(F.trees.Keys - {x}, F.w);
      OneMerge(F, S0, w, x, y);
      G, x := AllMerged(Merge(F, x, y), S0, w);
    }
  }

  lemma OneMerge(F: Forest, S0: set<nat>, w: seq<nat>, x: nat, y: nat)
    requires Grown(F, S0, w) && F.last + |F.trees.Keys| <= NODES && |F.w| == |F.parent| == NODES
    requires Optimality.Least(F.trees.Keys, F.w, x) && Optimality.Least(F.trees.Keys - {x}, F.w, y)
    ensures x in F.trees && y in F.trees && x < NODES && y < NODES && F.last + 1 < NODES
    ensures
      var E := Merge(F, x, y);
      && Grown(E, S0, w) && E.last == F.last + 1 && E.trees.Keys != {} && |E.trees.Keys| == |F.trees.Keys| - 1
  {
    hide Grown, Optimality.MergedSet;
    SetSize(F.trees.Keys, x, y, F.last + 1);
    MergeGrown(F, S0, w, x, y);
  }

  lemma RootsInRange(F: Forest, S0: set<nat>, w: seq<nat>)
    requires Grown(F, S0, w)
    ensures |F.w| == |F.parent| == NODES && forall i :: i in F.trees.Keys ==> i < |F.w|
  {
    forall i | i in F.trees.Keys
      ensures i < |F.w|
    {
      assert TreeOk(F, w, i);
    }
  }

  lemma SetSize(S: set<nat>, x: nat, y: nat, z: nat)
    requires x in S && y in S && x != y
    ensures |S| >= 2 && z in Optimality.MergedSet(S, x, y, z)
    ensures z !in S ==> |Optimality.MergedSet(S, x, y, z)| == |S| - 1
  {
    assert |S - {x} - {y}| == |S| - 2;
    assert Optimality.MergedSet(S, x, y, z) == S - {x} - {y} + {z};
  }

  /** Every text has a Huffman tree. */
  lemma TreeExists(text: seq<byte>) returns (t: Tree)
    ensures TreeFor(t, text)
  {
    hide Grown, Huffman;
    var S0, w := Symbols(text), Weights(text);
    var F := Start(S0, w, seq(NODES, _ => 0));
    StartGrown(S0, w, seq(NODES, _ => 0));
    assert F.trees.Keys == S0;
    SymbolsFew(S0, SYMBOLS);
    var G, x := AllMerged(F, S0, w);
    LastTreeIsHuffman(G, S0, w, x);
    t := G.trees[x];
  }

  lemma {:induction false} SymbolsFew(S: set<nat>, n: nat)
    requires forall c :: c in S ==> c < n
    ensures |S| <= n
  {
    if n > 0 {
      SymbolsFew(S - {n - 1}, n - 1);
      assert |S| <= |S - {n - 1}| + 1;
    } else if c :| c in S {
      assert false;
    }
  }

  // ----- the size below which the tree is never too deep

  ghost function WeightTerm(w: seq<nat>): (nat, nat) -> int {
    (c, d) => if 0 <= c < |w| then w[c] else 0
  }

  lemma {:induction false} WeightSum(t: Tree, base: nat, w: seq<nat>)
    requires Within(t, |w|)
    ensures LeafSum(t, base, WeightTerm(w)) == Weight(t, w)
  {
    match t
    case Leaf(_) =>
    case Node(_, l, r) =>
      WeightSum(l, base + 1, w);
      WeightSum(r, base + 1, w);
  }

  lemma {:induction false} WeightIsSize(t: Tree, text: seq<byte>)
    requires Proper(t) && Within(t, SYMBOLS) && Within(t, NODES) && Leaves(t) == Symbols(text)
    ensures Weight(t, Weights(text)) == 2 * |text| + 1
  {
    var w := Weights(text);
    WeightSum(t, 0, w);
    LeafSumIsSum(t, 0, WeightTerm(w), SYMBOLS);
    TotalCount(text);
    TermsAreWeights(t, text);
  }

  lemma {:induction false} TermsAreWeights(t: Tree, text: seq<byte>)
    requires Leaves(t) == Symbols(text)
    ensures LeafTerms(t, 0, WeightTerm(Weights(text)), SYMBOLS) == Weights(text)[..SYMBOLS]
  {
    hide Leaves, Depth;
    var w := Weights(text);
    var terms := LeafTerms(t, 0, WeightTerm(w), SYMBOLS);
    forall c | 0 <= c < SYMBOLS
      ensures terms[c] == w[..SYMBOLS][c]
    {
      assert c in Leaves(t) <==> w[c] > 0;
    }
  }

  /** A file whose tree is h levels deep has at least Fib(h+2)-1 bytes. */
  lemma {:induction false} DeepTreeNeedsSize(t: Tree, text: seq<byte>)
    requires TreeFor(t, text)
    ensures |text| + 1 >= Fib(Height(t) + 2)
  {
    WeightsCounted(text);
    PositiveWeights(t, text);
    EndIsDeepest(t, text);
    OddWeight(t, Weights(text));
    WeightIsSize(t, text);
  }

  /** "Huffman tree has too many levels" cannot happen to a file of fewer than 196417 bytes. */
  lemma {:induction false} ShortFilesFit(t: Tree, text: seq<byte>)
    requires TreeFor(t, text) && |text| < 196417
    ensures Height(t) <= MAXLEV
  {
    hide TreeFor, Height, Fib;
    DeepTreeNeedsSize(t, text);
    if Height(t) >= 25 {
      FibBound(Height(t) + 2);
    }
  }

  lemma {:induction false} FibMono(a: nat, b: nat)
    requires a <= b
    ensures Fib(a) <= Fib(b)
  {
    if a < b {
      FibMono(a, b - 1);
    }
  }

  lemma {:induction false} FibBound(n: nat)
    requires n >= 27
    ensures Fib(n) >= 196418
  {
    FibMono(27, n);
    FibValue();
  }

  lemma FibValue()
    ensures Fib(27) == 196418
  {
    assert Fib(9) == 34 && Fib(10) == 55;
    assert Fib(18) == 2584 && Fib(19) == 4181;
  }
}
