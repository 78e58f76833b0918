/**
 The code that pack.c assigns to a vector of code lengths (0 = symbol absent),
 and the level table from which pcat.c decodes it.
 */
module CanonicalCode {
  import opened Sums
  import opened BitStrings
  import HuffmanTree

  /** The symbols of length i, in ascending order. */
  function At(lens: seq<nat>, i: nat): seq<nat> {
    if |lens| == 0 then []
    else
      var n := |lens| - 1;
      At(lens[..n], i) + if lens[n] == i then [n] else []
  }

  /** Number of equally long symbols before c. */
  function Rank(lens: seq<nat>, c: nat): nat
    requires c < |lens|
  {
    |At(lens[..c], lens[c])|
  }

  lemma {:induction false} RankFinds(lens: seq<nat>, c: nat)
    requires c < |lens|
    ensures Rank(lens, c) < |At(lens, lens[c])| && At(lens, lens[c])[Rank(lens, c)] == c
  {
    var n := |lens| - 1;
    if c < n {
      RankFinds(lens[..n], c);
      assert lens[..n][..c] == lens[..c];
    } else {
      assert lens[..c] == lens[..n];
    }
  }

  /** Appending longer or absent symbols does not change an earlier level. */
  lemma {:induction false} AtSnoc(lens: seq<nat>, x: nat, i: nat)
    ensures At(lens + [x], i) == At(lens, i) + if x == i then [|lens|] else []
  {
    assert (lens + [x])[..|lens|] == lens;
  }

  lemma {:induction false} AtNone(lens: seq<nat>, i: nat)
    requires |lens| == 0
    ensures At(lens, i) == []
  {
  }

  lemma {:induction false} AtNext(lens: seq<nat>, c: nat, i: nat)
    requires c < |lens|
    ensures At(lens[..c + 1], i) == At(lens[..c], i) + if lens[c] == i then [c] else []
    ensures lens[c] == i ==> Rank(lens, c) == |At(lens[..c], i)|
  {
    assert lens[..c + 1] == lens[..c] + [lens[c]];
    AtSnoc(lens[..c], lens[c], i);
  }

  /** Number of internal nodes at level i of a code whose deepest level is m. */
  function Inner(lens: seq<nat>, m: nat, i: nat): nat
    decreases m - i
  {
    if i >= m then 0 else (Inner(lens, m, i + 1) + |At(lens, i + 1)|) / 2
  }

  /** Level i has two nodes for each internal node of the level above. */
  ghost predicate Doubles(lens: seq<nat>, m: nat, i: nat)
    requires i > 0
  {
    Inner(lens, m, i) + |At(lens, i)| == 2 * Inner(lens, m, i - 1)
  }

  /** The lengths of a full binary tree of height m. */
  ghost predicate FullCode(lens: seq<nat>, m: nat) {
    && (forall c :: 0 <= c < |lens| ==> lens[c] <= m)
    && Inner(lens, m, 0) == 1
    && forall i :: 0 < i <= m ==> Doubles(lens, m, i)
  }

  lemma LevelDoubles(lens: seq<nat>, m: nat, i: nat)
    requires FullCode(lens, m) && 0 < i <= m
    ensures Inner(lens, m, i) + |At(lens, i)| == 2 * Inner(lens, m, i - 1)
    ensures i == m ==> Inner(lens, m, i) == 0
  {
    hide At;
    assert Doubles(lens, m, i);
  }

  lemma LongestFirst(lens: seq<nat>, m: nat)
    requires FullCode(lens, m)
    ensures forall c :: 0 <= c < |lens| ==> lens[c] <= m
  {
  }

  /** The code word of c as a number of lens[c] bits. */
  function CodeValue(lens: seq<nat>, m: nat, c: nat): nat
    requires c < |lens|
  {
    Inner(lens, m, lens[c]) + Rank(lens, c)
  }

  function Code(lens: seq<nat>, m: nat, c: nat): (r: BitString)
    requires c < |lens|
    ensures |r| == lens[c]
  {
    Bits(CodeValue(lens, m, c), lens[c])
  }

  lemma {:induction false} LevelFits(lens: seq<nat>, m: nat, i: nat)
    requires FullCode(lens, m) && i <= m
    ensures Inner(lens, m, i) <= Pow2(i)
    ensures i > 0 ==> Inner(lens, m, i) + |At(lens, i)| <= Pow2(i)
  {
    hide At, Inner, FullCode;
    if i > 0 {
      LevelFits(lens, m, i - 1);
      LevelDoubles(lens, m, i);
    } else {
      RootInner(lens, m);
    }
  }

  lemma RootInner(lens: seq<nat>, m: nat)
    requires FullCode(lens, m)
    ensures Inner(lens, m, 0) == 1
  {
  }

  lemma CodeValueFits(lens: seq<nat>, m: nat, c: nat)
    requires FullCode(lens, m) && c < |lens| && lens[c] > 0
    ensures CodeValue(lens, m, c) < Inner(lens, m, lens[c]) + |At(lens, lens[c])| <= Pow2(lens[c])
  {
    LongestFirst(lens, m);
    hide At, Inner, FullCode, Rank, Pow2;
    LevelFits(lens, m, lens[c]);
    RankFinds(lens, c);
  }

  // ----- where the lengths of a tree form a full code

  /** lens holds the depths of the leaves of t and 0 for every other symbol. */
  ghost predicate DepthsOf(t: HuffmanTree.Tree, lens: seq<nat>) {
    && HuffmanTree.Proper(t) && HuffmanTree.Within(t, |lens|)
    && forall c :: 0 <= c < |lens| ==>
         lens[c] == if c in HuffmanTree.Leaves(t) then HuffmanTree.Depth(t, c) else 0
  }

  ghost function Indicator(lens: seq<nat>, i: nat): (r: seq<int>)
    ensures |r| == |lens| && forall c :: 0 <= c < |lens| ==> r[c] == if lens[c] == i then 1 else 0
  {
    seq(|lens|, c requires 0 <= c < |lens| => if lens[c] == i then 1 else 0)
  }

  lemma {:induction false} CountIsSum(lens: seq<nat>, i: nat)
    ensures |At(lens, i)| == Sum(Indicator(lens, i))
  {
    if |lens| > 0 {
      var n := |lens| - 1;
      CountIsSum(lens[..n], i);
      assert Indicator(lens, i)[..n] == Indicator(lens[..n], i);
    }
  }

  lemma {:induction false} TreeLevelCount(t: HuffmanTree.Tree, lens: seq<nat>, i: nat)
    requires DepthsOf(t, lens) && i > 0
    ensures |At(lens, i)| == HuffmanTree.LeavesAt(t, i)
  {
    CountIsSum(lens, i);
    HuffmanTree.TreeLevel(t, 0, i);
    HuffmanTree.LeafSumIsSum(t, 0, HuffmanTree.LevelTerm(i), |lens|);
    assert Indicator(lens, i) == HuffmanTree.LeafTerms(t, 0, HuffmanTree.LevelTerm(i), |lens|);
  }

  lemma {:induction false} TreeInner(t: HuffmanTree.Tree, lens: seq<nat>, m: nat, i: nat)
    requires DepthsOf(t, lens) && m == HuffmanTree.Height(t) && i <= m
    ensures Inner(lens, m, i) == HuffmanTree.InnerAt(t, i)
    decreases m - i
  {
    HuffmanTree.LevelsDouble(t, i);
    if i < m {
      TreeInner(t, lens, m, i + 1);
      TreeLevelCount(t, lens, i + 1);
      HuffmanTree.LevelsDouble(t, i + 1);
    }
  }

  /** A binary tree of height at least one yields a full code. */
  lemma {:induction false} TreeIsFullCode(t: HuffmanTree.Tree, lens: seq<nat>)
    requires DepthsOf(t, lens) && HuffmanTree.Height(t) > 0
    ensures FullCode(lens, HuffmanTree.Height(t))
  {
    var m := HuffmanTree.Height(t);
    forall c | 0 <= c < |lens|
      ensures lens[c] <= m
    {
      if c in HuffmanTree.Leaves(t) {
        HuffmanTree.DepthWithinHeight(t, c);
      }
    }
    HuffmanTree.LevelsDouble(t, 0);
    TreeInner(t, lens, m, 0);
    HuffmanTree.LevelsDouble(t, m);
    forall i | 0 < i <= m
      ensures Doubles(lens, m, i)
    {
      TreeInner(t, lens, m, i);
      TreeInner(t, lens, m, i - 1);
      TreeLevelCount(t, lens, i);
      HuffmanTree.LevelsDouble(t, i);
    }
  }

  // ----- total length of an encoded text

  /** Sum of length times count over the symbols. */
  function BitsOut(lens: seq<nat>, cnt: seq<nat>): nat
    requires |lens| <= |cnt|
  {
    if |lens| == 0 then 0
    else
      var n := |lens| - 1;
      BitsOut(lens[..n], cnt) + lens[n] * cnt[n]
  }

  /** What one more symbol of length c adds to the bookkeeping. */
  lemma {:induction false} OneMoreSymbol(lens: seq<nat>, cnt: seq<nat>, i: nat, c: nat)
    requires i < |lens| <= |cnt| && lens[i] == c
    ensures BitsOut(lens[..i + 1], cnt) == BitsOut(lens[..i], cnt) + c * cnt[i]
    ensures c * cnt[i] >= 0
    ensures forall j: nat :: |At(lens[..i + 1], j)| == |At(lens[..i], j)| + if j == c then 1 else 0
    ensures forall m: nat :: IsMax(m, lens[..i]) ==> IsMax(if c > m then c else m, lens[..i + 1])
  {
    assert lens[..i + 1][..i] == lens[..i];
    assert lens[..i + 1] == lens[..i] + [c];
    forall j: nat
      ensures |At(lens[..i + 1], j)| == |At(lens[..i], j)| + if j == c then 1 else 0
    {
      AtSnoc(lens[..i], c, j);
    }
  }

  lemma {:induction false} NoSymbols(lens: seq<nat>, cnt: seq<nat>)
    requires |lens| == 0
    ensures BitsOut(lens, cnt) == 0 && IsMax(0, lens) && forall j: nat :: At(lens, j) == []
  {
  }

  function Halves(cnt: seq<nat>): (r: seq<nat>)
    ensures |r| == |cnt| && forall c :: 0 <= c < |cnt| ==> r[c] == cnt[c] / 2
  {
    seq(|cnt|, c requires 0 <= c < |cnt| => cnt[c] / 2)
  }

  /** m is the greatest of the lengths, or 0 if there is none. */
  ghost predicate IsMax(m: nat, lens: seq<nat>) {
    && (forall c :: 0 <= c < |lens| ==> lens[c] <= m)
    && (m > 0 ==> exists c :: 0 <= c < |lens| && lens[c] == m)
  }

  lemma {:induction false} MaxIsHeight(m: nat, lens: seq<nat>, t: HuffmanTree.Tree)
    requires DepthsOf(t, lens) && IsMax(m, lens)
    ensures m == HuffmanTree.Height(t)
  {
    var d := HuffmanTree.DeepestLeaf(t);
    HuffmanTree.WithinLeaves(t, |lens|, d);
    assert lens[d] <= m;
    if m > 0 {
      var c :| 0 <= c < |lens| && lens[c] == m;
      assert c in HuffmanTree.Leaves(t);
      HuffmanTree.DepthWithinHeight(t, c);
    }
  }
}
