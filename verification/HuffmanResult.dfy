/** What can be said of the tree the merge loop ends with. */
module HuffmanResult {
  import opened Sums
  import opened HuffmanTree
  import opened Optimality
  import opened HuffmanForest
  import opened PackParams
  import opened CanonicalCode

  /** Depths of the leaves; 0 for everything else. */
  function Depths(t: Tree): (r: seq<nat>)
    ensures |r| == NODES
  {
    seq(NODES, c requires c >= 0 => if c in Leaves(t) then Depth(t, c) else 0)
  }

  /** No depths that satisfy the Kraft inequality cost less than those of t. */
  ghost predicate Optimal(t: Tree, w: seq<nat>)
    requires |w| == NODES
  {
    forall d: seq<nat>, D: nat :: |d| == NODES && Kraft(Leaves(t), d, D) ==>
      Cost(Leaves(t), w, Depths(t)) <= Cost(Leaves(t), w, d)
  }

  ghost predicate Huffman(t: Tree, w: seq<nat>) {
    && |w| == NODES && Proper(t) && Within(t, SYMBOLS) && Within(t, |w|)
    && Balanced(t, w) && Optimal(t, w)
  }

  lemma {:induction false} WithinMore(t: Tree, n: nat, m: nat)
    requires Within(t, n) && n <= m
    ensures Within(t, m)
  {
    match t
    case Leaf(_) =>
    case Node(_, l, r) =>
      WithinMore(l, n, m);
      WithinMore(r, n, m);
  }

  lemma {:induction false} DepthsCost(t: Tree, w: seq<nat>)
    requires |w| == NODES && Proper(t) && Within(t, |w|)
    ensures Cost(Leaves(t), w, Depths(t)) == MergeCost(t, w)
  {
    TreeCost(t, 0, w);
    LeafSumIsSum(t, 0, CostTerm(w), NODES);
    assert CostShares(Leaves(t), w, Depths(t)) == LeafTerms(t, 0, CostTerm(w), NODES);
  }

  /** The leaves of a tree use up all the room there is. */
  lemma {:induction false} DepthsKraft(t: Tree, D: nat)
    requires Proper(t) && Within(t, NODES) && Height(t) <= D
    ensures Kraft(Leaves(t), Depths(t), D) && KraftSum(Leaves(t), Depths(t), D) == Pow2(D)
  {
    forall c | c in Leaves(t)
      ensures c < NODES && Depths(t)[c] <= D
    {
      WithinLeaves(t, NODES, c);
      DepthWithinHeight(t, c);
    }
    TreeKraft(t, 0, D);
    LeafSumIsSum(t, 0, KraftTerm(D), NODES);
    assert KraftShares(Leaves(t), Depths(t), D) == LeafTerms(t, 0, KraftTerm(D), NODES);
  }

  /** The single tree that is left covers all symbols and is optimal. */
  lemma {:induction false} LastTreeIsHuffman(F: Forest, S0: set<nat>, w0: seq<nat>, x: nat)
    requires Grown(F, S0, w0) && F.trees.Keys == {x}
    ensures Huffman(F.trees[x], w0) && Leaves(F.trees[x]) == S0
    ensures Encodes(F.parent, F.trees[x]) && F.trees[x].id == x <= F.last
  {
    var t := F.trees[x];
    assert TreeOk(F, w0, x);
    LeavesOfLast(F, S0, x);
    var lim: nat :| Shaped(F, w0, lim);
    assert x in F.trees && TreeShaped(F, w0, lim, x);
    DepthsCost(t, w0);
    SumSingle(seq(NODES, i requires i >= 0 => CostOf(F, w0, i)), x);
    assert ForestCost(F, w0) == MergeCost(t, w0);
    BoundedEnd(S0, w0, ForestCost(F, w0), F.trees.Keys, F.w);
  }

  lemma {:induction false} LeavesOfLast(F: Forest, S0: set<nat>, x: nat)
    requires Covers(F, S0) && F.trees.Keys == {x}
    ensures Leaves(F.trees[x]) == S0
  {
    forall c: nat | c in S0
      ensures c in Leaves(F.trees[x])
    {
      var u: nat :| Owns(F, u, c);
      assert u in F.trees.Keys;
    }
    forall c: nat | c in Leaves(F.trees[x])
      ensures c in S0
    {
      assert x in F.trees.Keys && Owns(F, x, c);
    }
  }

  // ----- the parent array read from a leaf upwards

  ghost predicate Rising(parent: seq<nat>) {
    |parent| == NODES && forall p :: 0 <= p < NODES ==> parent[p] == 0 || p < parent[p] < NODES
  }

  lemma RisingUpdate(parent: seq<nat>, x: nat, z: nat)
    requires Rising(parent) && x < z < NODES
    ensures Rising(parent[x := z])
  {
  }

  lemma RisingClear(parent: seq<nat>, x: nat)
    requires Rising(parent) && x < NODES
    ensures Rising(parent[x := 0])
  {
  }

  /** Outside S0 no symbol has a parent. */
  ghost predicate AbsentFree(parent: seq<nat>, S0: set<nat>) {
    |parent| == NODES && forall i :: 0 <= i < SYMBOLS && i !in S0 ==> parent[i] == 0
  }

  lemma AbsentMore(parent: seq<nat>, S0: set<nat>)
    requires AbsentFree(parent, {})
    ensures AbsentFree(parent, S0)
  {
  }

  lemma AbsentUpdate(parent: seq<nat>, S0: set<nat>, x: nat, z: nat)
    requires AbsentFree(parent, S0) && x < NODES && (x in S0 || x >= SYMBOLS)
    ensures AbsentFree(parent[x := z], S0)
  {
  }

  /** Number of steps from p to a node without parent. */
  function Climb(parent: seq<nat>, p: nat): nat
    requires Rising(parent) && p < NODES
    decreases NODES - p
  {
    if parent[p] == 0 then 0 else 1 + Climb(parent, parent[p])
  }

  lemma {:induction false} ClimbIsDepth(parent: seq<nat>, t: Tree, c: nat)
    requires Rising(parent) && Encodes(parent, t) && Proper(t) && c in Leaves(t) && c < NODES && t.id < NODES
    ensures Climb(parent, c) == Depth(t, c) + Climb(parent, t.id)
  {
    match t
    case Leaf(_) =>
    case Node(x, l, r) => ClimbIsDepth(parent, if c in Leaves(l) then l else r, c);
  }

  lemma {:induction false} ClimbBound(parent: seq<nat>, p: nat)
    requires Rising(parent) && p < NODES
    ensures p + Climb(parent, p) < NODES
    decreases NODES - p
  {
    if parent[p] != 0 {
      ClimbBound(parent, parent[p]);
    }
  }

  /** The code lengths that climbing from every symbol yields. */
  function Climbs(parent: seq<nat>): (r: seq<nat>)
    requires Rising(parent)
    ensures |r| == SYMBOLS
  {
    seq(SYMBOLS, c requires 0 <= c < SYMBOLS => Climb(parent, c))
  }

  lemma {:induction false} ClimbsAreDepths(parent: seq<nat>, t: Tree)
    requires Rising(parent) && Encodes(parent, t) && Proper(t) && Within(t, SYMBOLS)
    requires t.id < NODES && parent[t.id] == 0 && AbsentFree(parent, Leaves(t))
    ensures DepthsOf(t, Climbs(parent))
  {
    forall c | 0 <= c < SYMBOLS
      ensures Climbs(parent)[c] == if c in Leaves(t) then Depth(t, c) else 0
    {
      if c in Leaves(t) {
        ClimbIsDepth(parent, t, c);
      }
    }
  }

  // ----- the end mark is as deep as any symbol

  /** A symbol that is lighter than every other one lies on the deepest level. */
  lemma {:induction false} LightestIsDeepest(t: Tree, w: seq<nat>, e: nat)
    requires Huffman(t, w) && e in Leaves(t) && e < NODES
    requires forall c :: c in Leaves(t) && c != e ==> c < NODES && w[e] < w[c]
    ensures Depth(t, e) == Height(t)
  {
    var p := DeepestLeaf(t);
    WithinLeaves(t, NODES, p);
    DepthWithinHeight(t, e);
    if Depth(t, e) < Height(t) {
      DepthsKraft(t, Height(t));
      var d := Exchange(Leaves(t), w, Depths(t), Height(t), e, p);
      assert false;
    }
  }

  // ----- how heavy a tree of a given height must be

  function Fib(n: nat): nat {
    if n < 2 then n else Fib(n - 1) + Fib(n - 2)
  }

  /** The counts pack works with: twice the occurrences for a byte, 1 for the end mark. */
  ghost predicate Counted(w: seq<nat>) {
    && |w| == NODES && w[END] == 1
    && forall c :: 0 <= c < END ==> w[c] % 2 == 0
  }

  ghost predicate Positive(t: Tree, w: seq<nat>)
    requires Within(t, |w|)
  {
    match t
    case Leaf(c) => w[c] > 0
    case Node(_, l, r) => Positive(l, w) && Positive(r, w)
  }

  lemma {:induction false} AllPositive(t: Tree, w: seq<nat>)
    requires Within(t, |w|) && forall c :: c in Leaves(t) && c < |w| ==> w[c] > 0
    ensures Positive(t, w)
  {
    match t
    case Leaf(c) => assert c in Leaves(t);
    case Node(_, l, r) =>
      AllPositive(l, w);
      AllPositive(r, w);
  }

  /** Without the end mark the weight is even, and positive. */
  lemma {:induction false} EvenWeight(t: Tree, w: seq<nat>)
    requires Counted(w) && Within(t, SYMBOLS) && Within(t, |w|) && END !in Leaves(t)
    requires Positive(t, w)
    ensures Weight(t, w) % 2 == 0 && Weight(t, w) >= 2
  {
    match t
    case Leaf(_) =>
    case Node(_, l, r) =>
      EvenWeight(l, w);
      EvenWeight(r, w);
  }

  /** With the end mark k levels down the weight is odd and at least twice a Fibonacci number. */
  lemma {:induction false} OddWeight(t: Tree, w: seq<nat>)
    requires Counted(w) && Proper(t) && Within(t, SYMBOLS) && Within(t, |w|) && Balanced(t, w) && END in Leaves(t)
    requires Positive(t, w)
    ensures Weight(t, w) % 2 == 1
    ensures Weight(t, w) + 1 >= 2 * Fib(Depth(t, END) + 2)
    decreases t, 1
  {
    match t
    case Leaf(_) =>
      assert Fib(2) == 1;
    case Node(_, l, r) =>
      LeavesAreIds(l);
      LeavesAreIds(r);
      if END in Leaves(l) {
        OddStep(t, l, r, w);
      } else {
        OddStep(t, r, l, w);
      }
  }

  lemma {:induction false} OddStep(t: Tree, a: Tree, b: Tree, w: seq<nat>)
    requires Counted(w) && Proper(t) && Within(t, SYMBOLS) && Within(t, |w|) && Balanced(t, w)
    requires Positive(t, w)
    requires t.Node? && ((a == t.left && b == t.right) || (a == t.right && b == t.left))
    requires END in Leaves(a) && END !in Leaves(b) && Depth(t, END) == 1 + Depth(a, END)
    ensures Weight(t, w) % 2 == 1
    ensures Weight(t, w) + 1 >= 2 * Fib(Depth(t, END) + 2)
    decreases t, 0
  {
    hide Fib;
    var k := Depth(a, END);
    OddWeight(a, w);
    EvenWeight(b, w);
    if a.Leaf? {
      FibStep(Weight(a, w), Weight(b, w), 0, k);
    } else {
      LeavesAreIds(a.left);
      LeavesAreIds(a.right);
      var g := if END in Leaves(a.left) then a.left else a.right;
      OddWeight(g, w);
      assert ChildrenAtMost(a, w, Weight(b, w));
      FibStep(Weight(a, w), Weight(b, w), Weight(g, w), k);
    }
  }

  lemma {:induction false} FibStep(a: nat, b: nat, g: nat, k: nat)
    requires a % 2 == 1 && b % 2 == 0 && b >= 2 && a + 1 >= 2 * Fib(k + 2)
    requires k > 0 ==> g % 2 == 1 && g + 1 >= 2 * Fib(k + 1) && g <= b
    ensures (a + b) % 2 == 1 && a + b + 1 >= 2 * Fib(k + 3)
  {
    assert Fib(k + 3) == Fib(k + 2) + Fib(k + 1);
    if k == 0 {
      assert Fib(1) == 1;
    }
  }
}
