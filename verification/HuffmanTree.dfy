/**
 The binary trees behind the parent array of usr/src/cmd/pack.c: every tree node
 is numbered as the program numbers it (0..255 bytes, 256 the end mark, then one
 number per merge), so that a tree is an explanation of a piece of that array.
 */
module HuffmanTree {
  import opened Sums

  datatype Tree = Leaf(id: nat) | Node(id: nat, left: Tree, right: Tree)

  function Leaves(t: Tree): set<nat> {
    match t
    case Leaf(c) => {c}
    case Node(_, l, r) => Leaves(l) + Leaves(r)
  }

  function Ids(t: Tree): set<nat> {
    match t
    case Leaf(c) => {c}
    case Node(x, l, r) => {x} + Ids(l) + Ids(r)
  }

  /** No number is used twice. */
  ghost predicate Proper(t: Tree) {
    match t
    case Leaf(_) => true
    case Node(x, l, r) => Proper(l) && Proper(r) && Ids(l) !! Ids(r) && x !in Ids(l) + Ids(r)
  }

  /** Every leaf is numbered below n. */
  predicate Within(t: Tree, n: nat) {
    match t
    case Leaf(c) => c < n
    case Node(_, l, r) => Within(l, n) && Within(r, n)
  }

  lemma {:induction false} WithinLeaves(t: Tree, n: nat, c: nat)
    requires Within(t, n) && c in Leaves(t)
    ensures c < n
  {
    match t
    case Leaf(_) =>
    case Node(_, l, r) => WithinLeaves(if c in Leaves(l) then l else r, n, c);
  }

  lemma LeavesAreIds(t: Tree)
    ensures Leaves(t) <= Ids(t) && t.id in Ids(t)
  {
  }

  /** Distance of leaf c from the root. */
  function Depth(t: Tree, c: nat): nat
    requires c in Leaves(t)
  {
    match t
    case Leaf(_) => 0
    case Node(_, l, r) => 1 + if c in Leaves(l) then Depth(l, c) else Depth(r, c)
  }

  function Height(t: Tree): nat {
    match t
    case Leaf(_) => 0
    case Node(_, l, r) => 1 + if Height(l) >= Height(r) then Height(l) else Height(r)
  }

  lemma {:induction false} DepthWithinHeight(t: Tree, c: nat)
    requires c in Leaves(t)
    ensures Depth(t, c) <= Height(t)
  {
    match t
    case Leaf(_) =>
    case Node(_, l, r) => DepthWithinHeight(if c in Leaves(l) then l else r, c);
  }

  /** Some leaf sits at the full height. */
  lemma {:induction false} DeepestLeaf(t: Tree) returns (c: nat)
    requires Proper(t)
    ensures c in Leaves(t) && Depth(t, c) == Height(t)
  {
    match t
    case Leaf(x) => c := x;
    case Node(_, l, r) =>
      c := DeepestLeaf(if Height(l) >= Height(r) then l else r);
      LeavesAreIds(l);
      LeavesAreIds(r);
  }

  /** f summed over the leaves, each with its depth below a root that itself has depth base. */
  ghost function LeafSum(t: Tree, base: nat, f: (nat, nat) -> int): int {
    match t
    case Leaf(c) => f(c, base)
    case Node(_, l, r) => LeafSum(l, base + 1, f) + LeafSum(r, base + 1, f)
  }

  ghost function LeafTerm(t: Tree, base: nat, f: (nat, nat) -> int, c: nat): int {
    if c in Leaves(t) then f(c, base + Depth(t, c)) else 0
  }

  ghost function LeafTerms(t: Tree, base: nat, f: (nat, nat) -> int, n: nat): seq<int> {
    seq(n, c requires c >= 0 => LeafTerm(t, base, f, c))
  }

  lemma {:induction false} NodeTerm(t: Tree, base: nat, f: (nat, nat) -> int, c: nat)
    requires Proper(t) && t.Node?
    ensures LeafTerm(t, base, f, c) == LeafTerm(t.left, base + 1, f, c) + LeafTerm(t.right, base + 1, f, c)
  {
    LeavesAreIds(t.left);
    LeavesAreIds(t.right);
    assert c in Leaves(t) <==> c in Leaves(t.left) || c in Leaves(t.right);
    if c in Leaves(t.left) {
      assert base + Depth(t, c) == base + 1 + Depth(t.left, c);
    } else if c in Leaves(t.right) {
      assert base + Depth(t, c) == base + 1 + Depth(t.right, c);
    }
  }

  lemma {:induction false} NodeTerms(t: Tree, base: nat, f: (nat, nat) -> int, n: nat)
    requires Proper(t) && t.Node?
    ensures Sum(LeafTerms(t, base, f, n))
         == Sum(LeafTerms(t.left, base + 1, f, n)) + Sum(LeafTerms(t.right, base + 1, f, n))
  {
    var v := LeafTerms(t, base, f, n);
    var a, b := LeafTerms(t.left, base + 1, f, n), LeafTerms(t.right, base + 1, f, n);
    forall c | 0 <= c < n
      ensures v[c] == a[c] + b[c]
    {
      NodeTerm(t, base, f, c);
    }
    SumAdd(a, b, v);
  }

  /** Summing over the tree is summing over the symbols. */
  lemma {:induction false} LeafSumIsSum(t: Tree, base: nat, f: (nat, nat) -> int, n: nat)
    requires Proper(t)
    requires Within(t, n)
    ensures Sum(LeafTerms(t, base, f, n)) == LeafSum(t, base, f)
  {
    if t.Leaf? {
      SumSingle(LeafTerms(t, base, f, n), t.id);
    } else {
      var l, r := t.left, t.right;
      LeafSumIsSum(l, base + 1, f, n);
      LeafSumIsSum(r, base + 1, f, n);
      NodeTerms(t, base, f, n);
    }
  }

  // ----- the three sums that matter: Kraft, cost, and leaves per level

  ghost function KraftTerm(D: nat): (nat, nat) -> int {
    (c, d) => if d <= D then Pow2(D - d) else 0
  }

  lemma {:induction false} TreeKraft(t: Tree, base: nat, D: nat)
    requires base + Height(t) <= D
    ensures LeafSum(t, base, KraftTerm(D)) == Pow2(D - base)
  {
    match t
    case Leaf(_) =>
    case Node(_, l, r) =>
      TreeKraft(l, base + 1, D);
      TreeKraft(r, base + 1, D);
  }

  function Weight(t: Tree, w: seq<nat>): nat
    requires Within(t, |w|)
  {
    match t
    case Leaf(c) => w[c]
    case Node(_, l, r) => Weight(l, w) + Weight(r, w)
  }

  /** The weight of every internal node, summed: what the merges of the program add up to. */
  function MergeCost(t: Tree, w: seq<nat>): nat
    requires Within(t, |w|)
  {
    match t
    case Leaf(c) => 0
    case Node(_, l, r) => Weight(t, w) + MergeCost(l, w) + MergeCost(r, w)
  }

  ghost function CostTerm(w: seq<nat>): (nat, nat) -> int {
    (c, d) => if 0 <= c < |w| then w[c] * d else 0
  }

  lemma OneLevelDown(base: nat, a: nat, b: nat)
    ensures (base + 1) * a + (base + 1) * b == base * (a + b) + (a + b)
  {
  }

  lemma {:induction false} TreeCost(t: Tree, base: nat, w: seq<nat>)
    requires Within(t, |w|)
    ensures LeafSum(t, base, CostTerm(w)) == base * Weight(t, w) + MergeCost(t, w)
  {
    match t
    case Leaf(_) =>
    case Node(_, l, r) =>
      TreeCost(l, base + 1, w);
      TreeCost(r, base + 1, w);
      OneLevelDown(base, Weight(l, w), Weight(r, w));
  }

  function LeavesAt(t: Tree, i: nat): nat {
    match t
    case Leaf(_) => if i == 0 then 1 else 0
    case Node(_, l, r) => if i == 0 then 0 else LeavesAt(l, i - 1) + LeavesAt(r, i - 1)
  }

  function InnerAt(t: Tree, i: nat): nat {
    match t
    case Leaf(_) => 0
    case Node(_, l, r) => if i == 0 then 1 else InnerAt(l, i - 1) + InnerAt(r, i - 1)
  }

  /** Every internal node has two children. */
  lemma {:induction false} LevelsDouble(t: Tree, i: nat)
    ensures i == 0 ==> InnerAt(t, i) + LeavesAt(t, i) == 1
    ensures i > 0 ==> InnerAt(t, i) + LeavesAt(t, i) == 2 * InnerAt(t, i - 1)
    ensures i >= Height(t) ==> InnerAt(t, i) == 0
  {
    match t
    case Leaf(_) =>
    case Node(_, l, r) =>
      if i > 0 {
        LevelsDouble(l, i - 1);
        LevelsDouble(r, i - 1);
      }
  }

  ghost function LevelTerm(i: nat): (nat, nat) -> int {
    (c, d) => if d == i then 1 else 0
  }

  lemma {:induction false} TreeLevel(t: Tree, base: nat, i: nat)
    ensures LeafSum(t, base, LevelTerm(i)) == if i < base then 0 else LeavesAt(t, i - base)
  {
    match t
    case Leaf(_) =>
    case Node(_, l, r) =>
      TreeLevel(l, base + 1, i);
      TreeLevel(r, base + 1, i);
  }
}
