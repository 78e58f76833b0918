/**
 The merge loop of usr/src/cmd/pack.c seen from outside: a forest whose roots are
 the heap's nodes, whose edges are the parent array, and which loses two trees and
 gains one at every step. One step is Merge; what a whole run preserves is Grown.
 */
module HuffmanForest {
  import opened Sums
  import opened HuffmanTree
  import opened Optimality
  import opened PackParams

  /** parent leads from every inner node's children to it, and numbers grow towards the root. */
  predicate Encodes(parent: seq<nat>, t: Tree)
    requires |parent| == NODES
  {
    match t
    case Leaf(c) => c < SYMBOLS
    case Node(x, l, r) =>
      && SYMBOLS <= x < NODES && l.id < x && r.id < x
      && parent[l.id] == x && parent[r.id] == x && Encodes(parent, l) && Encodes(parent, r)
  }

  datatype Forest = Forest(trees: map<nat, Tree>, w: seq<nat>, parent: seq<nat>, last: nat)

  /** Tree x of the forest stands for heap node x, whose count is the weight of its leaves. */
  ghost predicate TreeOk(F: Forest, w0: seq<nat>, x: nat)
    requires |F.parent| == |F.w| == |w0| == NODES && x in F.trees
  {
    var t := F.trees[x];
    && t.id == x <= F.last < NODES && Proper(t) && Within(t, SYMBOLS) && Encodes(F.parent, t)
    && Within(t, |w0|) && Weight(t, w0) == F.w[x]
    && (forall i :: i in Ids(t) ==> i <= F.last)
  }

  ghost predicate Disjoint(F: Forest, x: nat, y: nat)
    requires x in F.trees && y in F.trees
  {
    Ids(F.trees[x]) !! Ids(F.trees[y])
  }

  /** Symbol c is a leaf of tree x. */
  ghost predicate Owns(F: Forest, x: nat, c: nat) {
    x in F.trees && c in Leaves(F.trees[x])
  }

  /** The leaves of the forest are the symbols S0. */
  ghost predicate Covers(F: Forest, S0: set<nat>) {
    && (forall x, c :: Owns(F, x, c) ==> c in S0)
    && (forall c :: c in S0 ==> exists x :: Owns(F, x, c))
  }

  ghost predicate ForestOk(F: Forest, S0: set<nat>, w0: seq<nat>) {
    && |F.parent| == |F.w| == |w0| == NODES && SYMBOLS - 1 <= F.last < NODES
    && (forall x :: x in F.trees ==> TreeOk(F, w0, x))
    && (forall x, y :: x in F.trees && y in F.trees && x != y ==> Disjoint(F, x, y))
    && Covers(F, S0)
  }

  function Merge(F: Forest, x: nat, y: nat): Forest
    requires x in F.trees && y in F.trees && x < |F.w| == |F.parent| && y < |F.w| && F.last + 1 < |F.w|
  {
    var z := F.last + 1;
    Forest((F.trees - {x, y})[z := Node(z, F.trees[x], F.trees[y])],
           F.w[z := F.w[x] + F.w[y]], F.parent[x := z][y := z], z)
  }

  lemma {:induction false} EncodesFrame(p: seq<nat>, q: seq<nat>, t: Tree)
    requires |p| == |q| == NODES && Encodes(p, t) && Proper(t)
    requires forall i :: i in Ids(t) && i != t.id ==> i < NODES && p[i] == q[i]
    ensures Encodes(q, t)
  {
    match t
    case Leaf(_) =>
    case Node(x, l, r) =>
      LeavesAreIds(l);
      LeavesAreIds(r);
      assert l.id in Ids(t) && r.id in Ids(t);
      EncodesFrame(p, q, l);
      EncodesFrame(p, q, r);
  }

  lemma {:induction false} EncodedIds(p: seq<nat>, t: Tree, i: nat)
    requires |p| == NODES && Encodes(p, t) && i in Ids(t)
    ensures i < NODES
  {
    if t.Node? && i != t.id {
      EncodedIds(p, if i in Ids(t.left) then t.left else t.right, i);
    }
  }

  /** The root has no parent in the end. */
  lemma {:induction false} ClearRoot(p: seq<nat>, t: Tree, z: nat)
    requires |p| == NODES && Encodes(p, t) && Proper(t) && z < NODES && (t.id == z || t.Leaf?)
    ensures Encodes(p[z := 0], t)
  {
    if t.Node? {
      forall i: nat | i in Ids(t)
        ensures i < NODES
      {
        EncodedIds(p, t, i);
      }
      EncodesFrame(p, p[z := 0], t);
    }
  }

  /** The two subtrees stay encoded. */
  lemma MergeEncodes(F: Forest, S0: set<nat>, w0: seq<nat>, x: nat, y: nat)
    requires ForestOk(F, S0, w0) && x in F.trees && y in F.trees && x != y
    requires F.last + 1 < NODES && x < NODES && y < NODES
    ensures Encodes(Merge(F, x, y).parent, F.trees[x]) && Encodes(Merge(F, x, y).parent, F.trees[y])
  {
    var G := Merge(F, x, y);
    assert TreeOk(F, w0, x) && TreeOk(F, w0, y) && Disjoint(F, x, y);
    LeavesAreIds(F.trees[x]);
    LeavesAreIds(F.trees[y]);
    EncodesFrame(F.parent, G.parent, F.trees[x]);
    EncodesFrame(F.parent, G.parent, F.trees[y]);
  }

  lemma MergeTree(F: Forest, S0: set<nat>, w0: seq<nat>, x: nat, y: nat)
    requires ForestOk(F, S0, w0) && x in F.trees && y in F.trees && x != y
    requires F.last + 1 < NODES && x < NODES && y < NODES
    ensures TreeOk(Merge(F, x, y), w0, F.last + 1)
  {
    assert TreeOk(F, w0, x) && TreeOk(F, w0, y) && Disjoint(F, x, y);
    MergeEncodes(F, S0, w0, x, y);
  }

  lemma MergeOther(F: Forest, S0: set<nat>, w0: seq<nat>, x: nat, y: nat, u: nat)
    requires ForestOk(F, S0, w0) && x in F.trees && y in F.trees && x != y
    requires F.last + 1 < NODES && x < NODES && y < NODES
    requires u in F.trees && u != x && u != y
    ensures u in Merge(F, x, y).trees && TreeOk(Merge(F, x, y), w0, u)
    ensures Disjoint(Merge(F, x, y), u, F.last + 1)
  {
    var G := Merge(F, x, y);
    assert TreeOk(F, w0, u) && TreeOk(F, w0, x) && TreeOk(F, w0, y);
    assert Disjoint(F, u, x) && Disjoint(F, u, y);
    LeavesAreIds(F.trees[x]);
    LeavesAreIds(F.trees[y]);
    EncodesFrame(F.parent, G.parent, F.trees[u]);
  }

  lemma MergeCovers(F: Forest, S0: set<nat>, w0: seq<nat>, x: nat, y: nat)
    requires ForestOk(F, S0, w0) && x in F.trees && y in F.trees && x != y
    requires F.last + 1 < NODES && x < NODES && y < NODES
    ensures Covers(Merge(F, x, y), S0)
  {
    var G, z := Merge(F, x, y), F.last + 1;
    assert TreeOk(F, w0, x) && TreeOk(F, w0, y);
    forall c: nat | c in S0
      ensures exists u: nat :: Owns(G, u, c)
    {
      var u: nat :| Owns(F, u, c);
      assert TreeOk(F, w0, u);
      assert Owns(G, if u == x || u == y then z else u, c);
    }
    forall u, c | Owns(G, u, c)
      ensures c in S0
    {
      assert u == z ==> Owns(F, x, c) || Owns(F, y, c);
      assert u != z ==> Owns(F, u, c);
    }
  }

  lemma TreesOk(F: Forest, S0: set<nat>, w0: seq<nat>, x: nat, y: nat)
    requires ForestOk(F, S0, w0) && x in F.trees && y in F.trees && x != y && F.last + 1 < NODES
    requires x < NODES && y < NODES
    ensures forall u :: u in Merge(F, x, y).trees ==> TreeOk(Merge(F, x, y), w0, u)
  {
    hide ForestOk, TreeOk;
    MergeSizes(F, S0, w0);
    forall u | u in Merge(F, x, y).trees
      ensures TreeOk(Merge(F, x, y), w0, u)
    {
      if u == F.last + 1 {
        MergeTree(F, S0, w0, x, y);
      } else {
        MergeOther(F, S0, w0, x, y, u);
      }
    }
  }

  lemma MergeSizes(F: Forest, S0: set<nat>, w0: seq<nat>)
    requires ForestOk(F, S0, w0)
    ensures |F.parent| == |F.w| == |w0| == NODES
  {
  }

  /** One merge keeps the forest well formed. */
  lemma MergeOk(F: Forest, S0: set<nat>, w0: seq<nat>, x: nat, y: nat)
    requires ForestOk(F, S0, w0) && x in F.trees && y in F.trees && x != y && F.last + 1 < NODES
    requires x < NODES && y < NODES
    ensures ForestOk(Merge(F, x, y), S0, w0)
    ensures Merge(F, x, y).trees.Keys == MergedSet(F.trees.Keys, x, y, F.last + 1)
    ensures F.last + 1 !in F.trees
  {
    var G, z := Merge(F, x, y), F.last + 1;
    if z in F.trees {
      assert false;
    }
    TreesOk(F, S0, w0, x, y);
    forall u, v | u in G.trees && v in G.trees && u != v
      ensures Disjoint(G, u, v)
    {
      if u == z {
        MergeOther(F, S0, w0, x, y, v);
      } else if v == z {
        MergeOther(F, S0, w0, x, y, u);
      } else {
        assert Disjoint(F, u, v);
      }
    }
    MergeCovers(F, S0, w0, x, y);
  }

  // ----- accumulated cost

  function CostOf(F: Forest, w0: seq<nat>, i: nat): nat {
    if i in F.trees && Within(F.trees[i], |w0|) then MergeCost(F.trees[i], w0) else 0
  }

  /** Sum of the merge costs of all trees. */
  ghost function ForestCost(F: Forest, w0: seq<nat>): int {
    Sum(seq(NODES, i requires i >= 0 => CostOf(F, w0, i)))
  }

  lemma MergeForestCost(F: Forest, S0: set<nat>, w0: seq<nat>, x: nat, y: nat)
    requires ForestOk(F, S0, w0) && x in F.trees && y in F.trees && x != y && F.last + 1 < NODES
    requires x < NODES && y < NODES
    ensures ForestCost(Merge(F, x, y), w0) == ForestCost(F, w0) + F.w[x] + F.w[y]
  {
    var G, z := Merge(F, x, y), F.last + 1;
    MergeOk(F, S0, w0, x, y);
    var c := seq(NODES, i requires i >= 0 => CostOf(F, w0, i));
    var cz := CostOf(G, w0, z);
    MergeCostOf(F, S0, w0, x, y);
    hide ForestOk, CostOf;
    SumUpdate(c, x, 0);
    SumUpdate(c[x := 0], y, 0);
    SumUpdate(c[x := 0][y := 0], z, cz);
    assert seq(NODES, i requires i >= 0 => CostOf(G, w0, i)) == c[x := 0][y := 0][z := cz];
  }

  lemma MergeCostOf(F: Forest, S0: set<nat>, w0: seq<nat>, x: nat, y: nat)
    requires ForestOk(F, S0, w0) && x in F.trees && y in F.trees && x != y && F.last + 1 < NODES
    requires x < NODES && y < NODES
    ensures
      var G, z := Merge(F, x, y), F.last + 1;
      && CostOf(G, w0, z) == F.w[x] + F.w[y] + CostOf(F, w0, x) + CostOf(F, w0, y)
      && CostOf(G, w0, x) == CostOf(G, w0, y) == CostOf(F, w0, z) == 0
      && forall i :: 0 <= i < NODES && i != x && i != y && i != z ==> CostOf(G, w0, i) == CostOf(F, w0, i)
  {
    MergeOk(F, S0, w0, x, y);
    assert TreeOk(F, w0, x) && TreeOk(F, w0, y);
  }

  // ----- the shape of the trees: the two subtrees below a node weigh no more than its sibling

  /** Each inner child's own children weigh at most what its sibling weighs. */
  ghost predicate Balanced(t: Tree, w: seq<nat>)
    requires Within(t, |w|)
  {
    match t
    case Leaf(_) => true
    case Node(_, l, r) =>
      && Balanced(l, w) && Balanced(r, w)
      && ChildrenAtMost(l, w, Weight(r, w)) && ChildrenAtMost(r, w, Weight(l, w))
  }

  ghost predicate ChildrenAtMost(t: Tree, w: seq<nat>, lim: nat)
    requires Within(t, |w|)
  {
    t.Node? ==> Weight(t.left, w) <= lim && Weight(t.right, w) <= lim
  }

  ghost predicate TreeShaped(F: Forest, w0: seq<nat>, lim: nat, x: nat)
    requires x in F.trees && x < |F.w|
  {
    && Within(F.trees[x], |w0|) && Balanced(F.trees[x], w0)
    && ChildrenAtMost(F.trees[x], w0, lim) && lim <= F.w[x]
  }

  /** All trees are balanced; everything merged so far weighed at most lim, everything left at least lim. */
  ghost predicate Shaped(F: Forest, w0: seq<nat>, lim: nat) {
    forall x :: x in F.trees ==> x < |F.w| && TreeShaped(F, w0, lim, x)
  }

  lemma MergeShaped(F: Forest, S0: set<nat>, w0: seq<nat>, lim: nat, x: nat, y: nat)
    requires ForestOk(F, S0, w0) && F.last + 1 < NODES
    requires Least(F.trees.Keys, F.w, x) && Least(F.trees.Keys - {x}, F.w, y)
    requires Shaped(F, w0, lim)
    ensures Shaped(Merge(F, x, y), w0, F.w[y])
  {
    var G, z := Merge(F, x, y), F.last + 1;
    MergeOk(F, S0, w0, x, y);
    assert TreeOk(F, w0, x) && TreeOk(F, w0, y) && TreeOk(G, w0, z);
    assert TreeShaped(F, w0, lim, x) && TreeShaped(F, w0, lim, y);
    forall u | u in G.trees
      ensures u < |G.w| && TreeShaped(G, w0, F.w[y], u)
    {
      assert TreeOk(G, w0, u);
      if u != z {
        assert TreeShaped(F, w0, lim, u);
      }
    }
  }

  // ----- a whole run

  /** What the loop has done to the initial symbols S0 with weights w0. */
  ghost predicate Grown(F: Forest, S0: set<nat>, w0: seq<nat>) {
    && ForestOk(F, S0, w0)
    && ForestCost(F, w0) >= 0
    && Bounded(S0, w0, ForestCost(F, w0), F.trees.Keys, F.w)
    && exists lim: nat :: Shaped(F, w0, lim)
  }

  lemma MergeBounded(F: Forest, S0: set<nat>, w0: seq<nat>, x: nat, y: nat)
    requires ForestOk(F, S0, w0) && ForestCost(F, w0) >= 0
    requires Bounded(S0, w0, ForestCost(F, w0), F.trees.Keys, F.w)
    requires F.last + 1 < NODES && F.last + 1 !in F.trees
    requires Least(F.trees.Keys, F.w, x) && Least(F.trees.Keys - {x}, F.w, y)
    ensures ForestCost(Merge(F, x, y), w0) >= 0
    ensures |Merge(F, x, y).w| == |w0|
    ensures Bounded(S0, w0, ForestCost(Merge(F, x, y), w0), Merge(F, x, y).trees.Keys, Merge(F, x, y).w)
  {
    hide *;
    LeastTwo(F, S0, w0, x, y);
    MergeOk(F, S0, w0, x, y);
    MergeForestCost(F, S0, w0, x, y);
    MergeWeights(F, x, y);
    LiftBounded(S0, w0, ForestCost(F, w0), F.trees.Keys, F.w, x, y, F.last + 1);
  }

  lemma LeastTwo(F: Forest, S0: set<nat>, w0: seq<nat>, x: nat, y: nat)
    requires ForestOk(F, S0, w0) && Least(F.trees.Keys, F.w, x) && Least(F.trees.Keys - {x}, F.w, y)
    ensures |F.w| == |w0| == |F.parent| == NODES && x < NODES && y < NODES
    ensures x in F.trees && y in F.trees && x != y
  {
  }

  lemma MergeWeights(F: Forest, x: nat, y: nat)
    requires x in F.trees && y in F.trees && x < |F.w| == |F.parent| && y < |F.w| && F.last + 1 < |F.w|
    ensures Merge(F, x, y).w == F.w[F.last + 1 := F.w[x] + F.w[y]]
  {
  }

  lemma LiftBounded(S0: set<nat>, w0: seq<nat>, acc: nat, S: set<nat>, w: seq<nat>, x: nat, y: nat, z: nat)
    requires |w0| == |w| == NODES && Bounded(S0, w0, acc, S, w)
    requires Least(S, w, x) && Least(S - {x}, w, y) && z < NODES && z !in S
    ensures Bounded(S0, w0, acc + w[x] + w[y], MergedSet(S, x, y, z), w[z := w[x] + w[y]])
  {
    hide Bounded, Least;
    BoundedStep(S0, w0, acc, S, w, x, y, z);
  }

  lemma MergeGrown(F: Forest, S0: set<nat>, w0: seq<nat>, x: nat, y: nat)
    requires Grown(F, S0, w0) && F.last + 1 < NODES && |F.w| == |F.parent| == NODES
    requires Least(F.trees.Keys, F.w, x) && Least(F.trees.Keys - {x}, F.w, y)
    ensures Grown(Merge(F, x, y), S0, w0)
    ensures Merge(F, x, y).trees.Keys == MergedSet(F.trees.Keys, x, y, F.last + 1)
    ensures F.last + 1 !in F.trees
  {
    MergeOk(F, S0, w0, x, y);
    MergeBounded(F, S0, w0, x, y);
    var lim: nat :| Shaped(F, w0, lim);
    MergeShaped(F, S0, w0, lim, x, y);
    assert Shaped(Merge(F, x, y), w0, F.w[y]);
  }

  /** Before the first merge: one leaf per symbol. */
  function Start(S0: set<nat>, w0: seq<nat>, parent: seq<nat>): Forest {
    Forest(map c | c in S0 :: Leaf(c), w0, parent, SYMBOLS - 1)
  }

  lemma LeafOk(F: Forest, w0: seq<nat>, c: nat)
    requires |F.parent| == |F.w| == |w0| == NODES && SYMBOLS - 1 <= F.last < NODES
    requires c < SYMBOLS && c in F.trees && F.trees[c] == Leaf(c) && F.w[c] == w0[c]
    ensures TreeOk(F, w0, c)
  {
  }

  /** A forest of single leaves, one per symbol, is well formed. */
  lemma AllLeavesOk(F: Forest, S0: set<nat>, w0: seq<nat>)
    requires |F.parent| == |F.w| == |w0| == NODES && F.last == SYMBOLS - 1 && F.w == w0
    requires F.trees.Keys == S0
    requires forall c :: c in F.trees ==> c < SYMBOLS && F.trees[c] == Leaf(c)
    ensures ForestOk(F, S0, w0)
  {
    forall c | c in F.trees
      ensures TreeOk(F, w0, c)
    {
      LeafOk(F, w0, c);
    }
    forall x, y | x in F.trees && y in F.trees && x != y
      ensures Disjoint(F, x, y)
    {
      LeavesDisjoint(F, x, y);
    }
    AllLeavesCover(F, S0);
  }

  lemma LeavesDisjoint(F: Forest, x: nat, y: nat)
    requires x in F.trees && y in F.trees && x != y && F.trees[x] == Leaf(x) && F.trees[y] == Leaf(y)
    ensures Disjoint(F, x, y)
  {
  }

  lemma AllLeavesCover(F: Forest, S0: set<nat>)
    requires F.trees.Keys == S0
    requires forall c :: c in F.trees ==> F.trees[c] == Leaf(c)
    ensures Covers(F, S0)
  {
    forall c | c in S0
      ensures Owns(F, c, c)
    {
      assert F.trees[c] == Leaf(c);
    }
    forall x, c | Owns(F, x, c)
      ensures c in S0
    {
      assert F.trees[x] == Leaf(x);
    }
  }

  lemma LeafShaped(F: Forest, w0: seq<nat>, c: nat)
    requires |F.w| == |w0| == NODES && c < SYMBOLS && c in F.trees && F.trees[c] == Leaf(c)
    ensures TreeShaped(F, w0, 0, c)
  {
  }

  lemma AllLeavesShaped(F: Forest, w0: seq<nat>)
    requires |F.w| == |w0| == NODES
    requires forall c :: c in F.trees ==> c < SYMBOLS && F.trees[c] == Leaf(c)
    ensures Shaped(F, w0, 0)
  {
    forall c | c in F.trees
      ensures c < |F.w| && TreeShaped(F, w0, 0, c)
    {
      LeafShaped(F, w0, c);
    }
  }

  lemma StartCost(S0: set<nat>, w0: seq<nat>, parent: seq<nat>)
    ensures ForestCost(Start(S0, w0, parent), w0) == 0
  {
    SumZero(seq(NODES, i requires i >= 0 => CostOf(Start(S0, w0, parent), w0, i)));
  }

  lemma StartGrown(S0: set<nat>, w0: seq<nat>, parent: seq<nat>)
    requires |parent| == |w0| == NODES && forall c :: c in S0 ==> c < SYMBOLS
    ensures Grown(Start(S0, w0, parent), S0, w0)
  {
    AllLeavesOk(Start(S0, w0, parent), S0, w0);
    StartCost(S0, w0, parent);
    BoundedStart(S0, w0);
    AllLeavesShaped(Start(S0, w0, parent), w0);
  }
}
