/** The smallest files with a tree of a given height: byte counts that are Fibonacci numbers. */
module DeepTrees {
  import opened Optimality
  import Sums
  import opened HuffmanTree
  import opened HuffmanForest
  import opened HuffmanResult
  import opened BitStrings
  import opened PackParams
  import opened PackText
  import opened PackLaws

  // ----- the text

  function Run(b: byte, n: nat): (r: seq<byte>)
    ensures |r| == n
  {
    if n == 0 then [] else Run(b, n - 1) + [b]
  }

  /** Fib(1) bytes of value 0, Fib(2) of value 1, and so on, for k values. */
  function Steps(k: nat): seq<byte>
    requires k <= 256
  {
    if k == 0 then [] else Steps(k - 1) + Run(k - 1, Fib(k))
  }

  lemma {:induction false} RunCount(b: byte, n: nat, c: byte)
    ensures multiset(Run(b, n))[c] == if c == b then n else 0
  {
    if n > 0 {
      RunCount(b, n - 1, c);
    }
  }

  lemma FibNext(k: nat)
    ensures Fib(k + 2) == Fib(k + 1) + Fib(k)
  {
  }

  lemma {:induction false} StepsSize(k: nat)
    requires k <= 256
    ensures |Steps(k)| == Fib(k + 2) - 1
  {
    hide Fib, Run;
    FibNext(k);
    if k == 0 {
      FibOne();
    } else {
      StepsSize(k - 1);
    }
  }

  lemma FibOne()
    ensures Fib(1) == Fib(2) == 1
  {
  }

  lemma {:induction false} StepsCount(k: nat, c: byte)
    requires k <= 256
    ensures multiset(Steps(k))[c] == if c < k then Fib(c + 1) else 0
  {
    hide Fib, Run;
    if k > 0 {
      StepsCount(k - 1, c);
      RunCount(k - 1, Fib(k), c);
    }
  }

  /** m values; all that is left of the s bytes has the last one. */
  function DeepText(m: nat, s: nat): (r: seq<byte>)
    requires 1 <= m <= 256 && s >= |Steps(m - 1)|
    ensures |r| == s
  {
    Steps(m - 1) + Run(m - 1, s - |Steps(m - 1)|)
  }

  lemma DeepCount(m: nat, s: nat, c: byte)
    requires 1 <= m <= 256 && s >= |Steps(m - 1)|
    ensures multiset(DeepText(m, s))[c] == if c < m - 1 then Fib(c + 1) else if c == m - 1 then s - |Steps(m - 1)|
              else 0
  {
    hide Fib, Steps, Run;
    StepsCount(m - 1, c);
    RunCount(m - 1, s - |Steps(m - 1)|, c);
  }

  /** There are enough bytes for m values. */
  lemma Enough(m: nat, s: nat)
    requires 1 <= m <= 256 && s + 1 >= Fib(m + 2)
    ensures s - |Steps(m - 1)| >= Fib(m)
  {
    hide Fib, Steps;
    StepsSize(m - 1);
    FibNext(m);
  }

  // ----- the merges

  /** Weights of m bytes and the end mark. */
  ghost predicate Steep(w: seq<nat>, m: nat) {
    && 1 <= m <= 256 && |w| == NODES && w[END] == 1
    && (forall j :: 0 <= j < m - 1 ==> w[j] == 2 * Fib(j + 1)) && w[m - 1] >= 2 * Fib(m)
  }

  lemma DeepIsSteep(m: nat, s: nat)
    requires 1 <= m <= 256 && s + 1 >= Fib(m + 2)
    ensures s >= |Steps(m - 1)| && Steep(Weights(DeepText(m, s)), m)
    ensures forall x :: x in Symbols(DeepText(m, s)) <==> x == END || 0 <= x < m
  {
    hide Fib, Steps, Run, DeepText;
    Enough(m, s);
    forall j | 0 <= j < END
      ensures Weights(DeepText(m, s))[j]
           == 2 * if j < m - 1 then Fib(j + 1) else if j == m - 1 then s - |Steps(m - 1)| else 0
      ensures Fib(j + 1) >= 1
    {
      DeepCount(m, s, j);
      FibRises(1, j + 1);
    }
    FibRises(1, m);
  }

  /** k bytes have been merged with the end mark, one after the other; the others are still alone. */
  ghost predicate Merged(F: Forest, S0: set<nat>, w: seq<nat>, m: nat, k: nat) {
    && Grown(F, S0, w) && k <= m <= 256 && F.last == END + k && |F.w| == |F.parent| == |w| == NODES
    && (forall x :: x in F.trees <==> x == F.last || k <= x < m)
    && Height(F.trees[F.last]) >= k && (k < m ==> F.w[F.last] == 2 * Fib(k + 2) - 1)
    && (forall j :: k <= j < m ==> F.w[j] == w[j]) && ForestCost(F, w) == Merges(w, 0, k)
  }

  /** What the merges from the one with byte i to the one before byte k add up to. */
  function Merges(w: seq<nat>, i: nat, k: nat): int
    requires k <= |w|
    decreases if i < k then k - i else 0
  {
    if i >= k then 0 else Merges(w, i, k - 1) + 2 * Fib(k + 1) - 1 + w[k - 1]
  }

  lemma {:induction false} MergesFirst(w: seq<nat>, i: nat, k: nat)
    requires i < k <= |w|
    ensures Merges(w, i, k) == 2 * Fib(i + 2) - 1 + w[i] + Merges(w, i + 1, k)
    decreases k
  {
    hide Fib;
    if i < k - 1 {
      MergesFirst(w, i, k - 1);
    }
  }

  lemma {:induction false} FibRises(a: nat, b: nat)
    requires 1 <= a <= b
    ensures 1 <= Fib(a) <= Fib(b)
  {
    if a < b {
      FibRises(a, b - 1);
    } else if a > 2 {
      FibRises(1, a - 1);
      FibRises(1, a - 2);
    }
  }

  /** The next byte and the tree of the end mark are the two lightest roots. */
  lemma NextTwo(F: Forest, S0: set<nat>, w: seq<nat>, m: nat, k: nat) returns (x: nat, y: nat)
    requires Steep(w, m) && Merged(F, S0, w, m, k) && k < m
    ensures {x, y} == {k, F.last} && Least(F.trees.Keys, F.w, x) && Least(F.trees.Keys - {x}, F.w, y)
  {
    hide Grown, Height, Fib;
    x := if F.w[F.last] <= F.w[k] then F.last else k;
    y := if x == k then F.last else k;
    assert k in F.trees.Keys && F.last in F.trees.Keys;
    forall j | j in F.trees.Keys && j != k && j != F.last
      ensures F.w[j] >= F.w[k] && F.w[j] >= F.w[F.last]
    {
      FibRises(k + 1, k + 2);
      FibRises(k + 2, j + 1);
    }
  }

  lemma MergeNext(F: Forest, S0: set<nat>, w: seq<nat>, m: nat, k: nat) returns (G: Forest)
    requires Steep(w, m) && Merged(F, S0, w, m, k) && k < m
    ensures Merged(G, S0, w, m, k + 1)
  {
    hide Grown, Fib, Least, Height, ForestCost, Merges;
    var x, y := NextTwo(F, S0, w, m, k);
    MergeGrown(F, S0, w, x, y);
    CostNext(F, S0, w, m, k, x, y);
    G := Merge(F, x, y);
    assert F.w[x] + F.w[y] == F.w[k] + F.w[F.last];
    FibNext(k + 1);
    HigherTree(F.trees[x], F.trees[y], F.last + 1);
  }

  lemma CostNext(F: Forest, S0: set<nat>, w: seq<nat>, m: nat, k: nat, x: nat, y: nat)
    requires Merged(F, S0, w, m, k) && k < m && {x, y} == {k, F.last}
    ensures ForestCost(Merge(F, x, y), w) == Merges(w, 0, k + 1)
  {
    hide Fib, Height, Grown, ForestCost;
    GrownOk(F, S0, w);
    assert x in {k, F.last} && y in {k, F.last} && k in {x, y} && F.last in {x, y};
    MergeForestCost(F, S0, w, x, y);
  }

  lemma GrownOk(F: Forest, S0: set<nat>, w: seq<nat>)
    requires Grown(F, S0, w)
    ensures ForestOk(F, S0, w)
  {
  }

  lemma HigherTree(a: Tree, b: Tree, z: nat)
    ensures Height(Node(z, a, b)) > Height(a) && Height(Node(z, a, b)) > Height(b)
  {
  }

  lemma {:induction false} MergeMany(S0: set<nat>, w: seq<nat>, m: nat, k: nat) returns (F: Forest)
    requires Steep(w, m) && k <= m && forall x :: x in S0 <==> x == END || 0 <= x < m
    ensures Merged(F, S0, w, m, k)
  {
    hide Merged, Fib, Steep;
    if k == 0 {
      F := MergeNone(S0, w, m);
    } else {
      var E := MergeMany(S0, w, m, k - 1);
      F := MergeNext(E, S0, w, m, k - 1);
    }
  }

  lemma MergeNone(S0: set<nat>, w: seq<nat>, m: nat) returns (F: Forest)
    requires Steep(w, m) && forall x :: x in S0 <==> x == END || 0 <= x < m
    ensures Merged(F, S0, w, m, 0)
  {
    hide Grown, Fib;
    F := Start(S0, w, seq(NODES, _ => 0));
    StartGrown(S0, w, seq(NODES, _ => 0));
    StartCost(S0, w, seq(NODES, _ => 0));
    FibOne();
  }

  /** A Huffman tree for the text that has a level for each of its values, and what it costs. */
  lemma DeepTree(m: nat, s: nat) returns (t: Tree)
    requires 1 <= m <= 256 && s + 1 >= Fib(m + 2)
    ensures s >= |Steps(m - 1)| && TreeFor(t, DeepText(m, s)) && Height(t) >= m
    ensures
      var w := Weights(DeepText(m, s));
      Cost(Symbols(DeepText(m, s)), w, Depths(t)) == Merges(w, 0, m)
  {
    hide Grown, Height, Fib, Huffman, Steps, DeepText, Steep, Merges, Cost;
    DeepIsSteep(m, s);
    var w, S0 := Weights(DeepText(m, s)), Symbols(DeepText(m, s));
    var F := MergeMany(S0, w, m, m);
    assert F.trees.Keys == {F.last};
    LastTreeIsHuffman(F, S0, w, F.last);
    t := F.trees[F.last];
    GrownOk(F, S0, w);
    LastCost(F, S0, w, F.last);
  }

  lemma LastCost(F: Forest, S0: set<nat>, w: seq<nat>, x: nat)
    requires ForestOk(F, S0, w) && F.trees.Keys == {x}
    ensures Leaves(F.trees[x]) == S0 && Cost(S0, w, Depths(F.trees[x])) == ForestCost(F, w)
  {
    var t := F.trees[x];
    assert TreeOk(F, w, x);
    LeavesOfLast(F, S0, x);
    DepthsCost(t, w);
    Sums.SumSingle(seq(NODES, i requires i >= 0 => CostOf(F, w, i)), x);
  }

  // ----- every Huffman tree for the text is as high

  /** The roots when k bytes have been merged, and their weights. */
  ghost predicate Row(S: set<nat>, v: seq<nat>, w: seq<nat>, m: nat, k: nat) {
    && Steep(w, m) && k < m && |v| == NODES && (forall x :: x in S <==> x == END + k || k <= x < m)
    && v[END + k] == 2 * Fib(k + 2) - 1 && forall j :: k <= j < m ==> v[j] == w[j]
  }

  /** Depths that cost no more than the merges put the tree of the end mark a level down for each byte left. */
  ghost predicate Sinks(S: set<nat>, v: seq<nat>, d: seq<nat>, w: seq<nat>, m: nat, k: nat)
    requires |v| == |d| == NODES == |w| && END + k < NODES && m <= NODES
  {
    Cost(S, v, d) > Merges(w, k, m) || (Cost(S, v, d) == Merges(w, k, m) && d[END + k] >= m - k)
  }

  lemma TwoLeft(S: set<nat>, v: seq<nat>, d: seq<nat>, D: nat, w: seq<nat>, m: nat, k: nat)
    requires Row(S, v, w, m, k) && k == m - 1 && |d| == NODES && Kraft(S, d, D)
    ensures Sinks(S, v, d, w, m, k)
  {
    hide Fib;
    var r, c := END + k, CostShares(S, v, d);
    assert r in S && k in S;
    Sums.SumAtLeast(KraftShares(S, d, D), r, k);
    assert d[r] >= 1 && d[k] >= 1;
    Sums.SumAtLeast(c, r, k);
    Sums.MulMono(v[r], 1, d[r]);
    Sums.MulMono(v[k], 1, d[k]);
    MergesFirst(w, k, m);
  }

  /** From the first byte on the lightest root is that of a byte, and the tree of the end mark comes next. */
  lemma Order(S: set<nat>, v: seq<nat>, w: seq<nat>, m: nat, k: nat)
    requires Row(S, v, w, m, k) && k < m - 1
    ensures
      var r := END + k;
      var x, y := if k == 0 then r else k, if k == 0 then k else r;
      && Least(S, v, x) && Least(S - {x}, v, y) && v[x] + v[y] == 2 * Fib(k + 2) - 1 + w[k] && r in S && k in S
      && (forall j :: j in S && j != x ==> v[x] < v[j])
      && (k > 0 ==> forall j :: j in S && j != x && j != y ==> v[y] < v[j])
  {
    hide Fib;
    FibOne();
    if k > 0 {
      FibStrict(k + 1);
    }
    forall j | k < j < m
      ensures v[j] >= 2 * Fib(k + 2)
    {
      FibRises(k + 2, j + 1);
    }
  }

  lemma FibStrict(a: nat)
    requires a >= 2
    ensures Fib(a) < Fib(a + 1)
  {
    FibRises(1, a - 1);
  }

  /** The merge step of Optimality.MergeIsSafe, with what it does to the tree of the end mark. */
  lemma SinkStep(S: set<nat>, v: seq<nat>, d: seq<nat>, D: nat, w: seq<nat>, m: nat, k: nat) returns (e: seq<nat>)
    requires Row(S, v, w, m, k) && k < m - 1 && |d| == NODES && Kraft(S, d, D)
    ensures |e| == NODES
    ensures
      var z, sum := END + k + 1, 2 * Fib(k + 2) - 1 + w[k];
      && Kraft(MergedSet(S, END + k, k, z), e, D)
      && Cost(S, v, d) >= sum + Cost(MergedSet(S, END + k, k, z), v[z := sum], e)
      && (Cost(S, v, d) == sum + Cost(MergedSet(S, END + k, k, z), v[z := sum], e) ==> d[END + k] >= e[z] + 1)
  {
    hide Fib, Cost, KraftSum;
    Order(S, v, w, m, k);
    var r := END + k;
    var x, y := if k == 0 then r else k, if k == 0 then k else r;
    var p := Deepest(S, d);
    var d1 := Exchange(S, v, d, D, x, p);
    var d2, q := ShareDeepest(S, v, d1, D, x, y);
    var d3 := Exchange(S, v, d2, D, y, q);
    e := MergeDepths(S, v, d3, D, x, y, r + 1);
    assert MergedSet(S, x, y, r + 1) == MergedSet(S, r, k, r + 1);
  }

  lemma NextRow(S: set<nat>, v: seq<nat>, w: seq<nat>, m: nat, k: nat)
    requires Row(S, v, w, m, k) && k < m - 1
    ensures
      var z, sum := END + k + 1, 2 * Fib(k + 2) - 1 + w[k];
      Row(MergedSet(S, END + k, k, z), v[z := sum], w, m, k + 1)
  {
    hide Fib;
    FibNext(k + 1);
  }

  lemma {:induction false} AllSink(S: set<nat>, v: seq<nat>, d: seq<nat>, D: nat, w: seq<nat>, m: nat, k: nat)
    requires Row(S, v, w, m, k) && |d| == NODES && Kraft(S, d, D)
    ensures Sinks(S, v, d, w, m, k)
    decreases m - k
  {
    hide Fib, Cost, KraftSum, Merges;
    if k == m - 1 {
      TwoLeft(S, v, d, D, w, m, k);
    } else {
      var z, sum := END + k + 1, 2 * Fib(k + 2) - 1 + w[k];
      var e := SinkStep(S, v, d, D, w, m, k);
      NextRow(S, v, w, m, k);
      AllSink(MergedSet(S, END + k, k, z), v[z := sum], e, D, w, m, k + 1);
      MergesFirst(w, k, m);
    }
  }

  /** Every Huffman tree for the text has a level for each of its values. */
  lemma {:induction false} DeepAlways(m: nat, s: nat, t: Tree)
    requires 1 <= m <= 256 && s + 1 >= Fib(m + 2) && s >= |Steps(m - 1)| && TreeFor(t, DeepText(m, s))
    ensures Height(t) >= m
  {
    hide Fib, Cost, KraftSum, Merges, Steps, DeepText, Height, Steep, Balanced;
    var text := DeepText(m, s);
    var w, S := Weights(text), Symbols(text);
    DeepIsSteep(m, s);
    var best := DeepTree(m, s);
    DepthsKraft(best, Height(best));
    DepthsKraft(t, Height(t));
    FirstRow(S, w, m);
    AllSink(S, w, Depths(t), Height(t), w, m, 0);
    DepthWithinHeight(t, END);
  }

  lemma FirstRow(S: set<nat>, w: seq<nat>, m: nat)
    requires Steep(w, m) && forall x :: x in S <==> x == END || 0 <= x < m
    ensures Row(S, w, w, m, 0)
  {
    hide Fib;
    FibOne();
  }

  /** Some file of s bytes has no Huffman tree of fewer than m levels exactly if s is at least Fib(m+2)-1. */
  lemma HeightsReached(m: nat, s: nat)
    requires 1 <= m <= 256
    ensures (exists text, t :: |text| == s && TreeFor(t, text) && Height(t) >= m) <==> s + 1 >= Fib(m + 2)
    ensures (exists text :: HighOnly(text, s, m)) <==> s + 1 >= Fib(m + 2)
  {
    hide Height, Fib, TreeFor, Steps, HighOnly, Merges, Cost;
    if s + 1 >= Fib(m + 2) {
      var t := DeepTree(m, s);
      assert |DeepText(m, s)| == s && TreeFor(t, DeepText(m, s)) && Height(t) >= m;
      DeepIsHighOnly(m, s, t);
    } else {
      forall text, t | |text| == s && TreeFor(t, text)
        ensures Height(t) < m
      {
        DeepTreeNeedsSize(t, text);
        if Height(t) >= m {
          FibRises(m + 2, Height(t) + 2);
        }
      }
      forall text
        ensures !HighOnly(text, s, m)
      {
        if HighOnly(text, s, m) {
          var t := HighTree(text, s, m);
          assert false;
        }
      }
    }
  }

  /** text has s bytes, and its Huffman trees, of which there are some, all have m levels or more. */
  ghost predicate HighOnly(text: seq<byte>, s: nat, m: nat) {
    |text| == s && (exists t :: TreeFor(t, text)) && forall t :: TreeFor(t, text) ==> Height(t) >= m
  }

  lemma HighTree(text: seq<byte>, s: nat, m: nat) returns (t: Tree)
    requires HighOnly(text, s, m)
    ensures |text| == s && TreeFor(t, text) && Height(t) >= m
  {
    hide TreeFor, Height;
    t :| TreeFor(t, text);
  }

  lemma DeepIsHighOnly(m: nat, s: nat, t: Tree)
    requires 1 <= m <= 256 && s + 1 >= Fib(m + 2) && s >= |Steps(m - 1)| && TreeFor(t, DeepText(m, s))
    ensures HighOnly(DeepText(m, s), s, m)
  {
    hide TreeFor, Height, Fib, Steps, DeepText;
    forall u | TreeFor(u, DeepText(m, s))
      ensures Height(u) >= m
    {
      DeepAlways(m, s, u);
    }
  }

  /** "Huffman tree has too many levels" can be said of a file of s bytes exactly if s is at least 196417. */
  lemma TooManyLevelsFrom(s: nat)
    ensures (exists text, t :: |text| == s && TreeFor(t, text) && Height(t) > MAXLEV) <==> s >= 196417
    ensures (exists text :: HighOnly(text, s, 25)) <==> s >= 196417
  {
    hide Height, Fib, TreeFor, HighOnly;
    FibValue();
    HeightsReached(25, s);
    if text, t :| |text| == s && TreeFor(t, text) && Height(t) > MAXLEV {
      assert |text| == s && TreeFor(t, text) && Height(t) >= 25;
    }
    if text, t :| |text| == s && TreeFor(t, text) && Height(t) >= 25 {
      assert |text| == s && TreeFor(t, text) && Height(t) > MAXLEV;
    }
  }
}
