/** How pack.c's estimate of the compressed size relates to the size of the file it writes. */
module PackSize {
  import opened Sums
  import opened BitStrings
  import opened Optimality
  import opened HuffmanResult
  import HuffmanForest
  import opened PackParams
  import opened CanonicalCode
  import opened PackFormat
  import opened PackText
  import opened PackLaws
  import RoundTrip
  import HuffmanTree
  import Pack

  // ----- the bits of the text

  lemma {:induction false} OneMoreByte(lens: seq<nat>, cnt: seq<nat>, i: nat)
    requires i < |lens| <= |cnt|
    ensures BitsOut(lens, cnt[i := cnt[i] + 1]) == BitsOut(lens, cnt) + lens[i]
  {
    var n := |lens| - 1;
    if i < n {
      OneMoreByte(lens[..n], cnt, i);
    } else {
      CountsBelow(lens[..n], cnt, cnt[i := cnt[i] + 1]);
      assert lens[n] * (cnt[n] + 1) == lens[n] * cnt[n] + lens[n];
    }
  }

  lemma {:induction false} CountsBelow(lens: seq<nat>, cnt: seq<nat>, other: seq<nat>)
    requires |lens| <= |cnt| == |other| && forall c :: 0 <= c < |lens| ==> cnt[c] == other[c]
    ensures BitsOut(lens, cnt) == BitsOut(lens, other)
  {
    if |lens| > 0 {
      CountsBelow(lens[..|lens| - 1], cnt, other);
    }
  }

  lemma {:induction false} NoCounts(lens: seq<nat>, cnt: seq<nat>)
    requires |lens| <= |cnt| && forall c :: 0 <= c < |lens| ==> cnt[c] == 0
    ensures BitsOut(lens, cnt) == 0
  {
    if |lens| > 0 {
      NoCounts(lens[..|lens| - 1], cnt);
    }
  }

  /** The sum over the symbols counts the bits of the encoded text, end mark excluded. */
  lemma {:induction false} BitsOutIsLength(lens: seq<nat>, m: nat, text: seq<byte>)
    requires |lens| == SYMBOLS
    ensures BitsOut(lens, Halves(Weights(text)[..SYMBOLS])) == |Encode(lens, m, text)|
  {
    hide BitsOut, CodeValue, Code;
    var cnt := Halves(Weights(text)[..SYMBOLS]);
    if text == [] {
      NoCounts(lens, cnt);
    } else {
      var k := |text| - 1;
      var before := Halves(Weights(text[..k])[..SYMBOLS]);
      BitsOutIsLength(lens, m, text[..k]);
      OneMoreByte(lens, before, text[k]);
      CountsStep(text, k);
    }
  }

  lemma CountsStep(text: seq<byte>, k: nat)
    requires k + 1 == |text|
    ensures
      var before := Halves(Weights(text[..k])[..SYMBOLS]);
      Halves(Weights(text)[..SYMBOLS]) == before[text[k] := before[text[k]] + 1]
  {
    assert text == text[..k] + [text[k]];
  }

  // ----- the characters of the dictionary

  ghost function Present(lens: seq<nat>): set<nat> {
    set c: nat | c < |lens| && lens[c] > 0
  }

  lemma {:induction false} PresentCount(lens: seq<nat>, m: nat)
    requires forall c :: 0 <= c < |lens| ==> lens[c] <= m
    ensures |UpTo(lens, m)| == |Present(lens)|
  {
    if |lens| == 0 {
      RoundTrip.UpToEmpty(m);
      assert Present(lens) == {};
    } else {
      var n := |lens| - 1;
      PresentCount(lens[..n], m);
      RoundTrip.UpToSnocLength(lens, m);
      assert Present(lens) == Present(lens[..n]) + if lens[n] > 0 then {n} else {};
    }
  }

  lemma {:induction false} DictionaryLength(t: HuffmanTree.Tree, text: seq<byte>, lens: seq<nat>)
    requires TreeFor(t, text) && text != [] && |lens| == SYMBOLS && DepthsOf(t, lens)
    requires HuffmanTree.Height(t) <= MAXLEV
    ensures |UpTo(lens[..END], HuffmanTree.Height(t))| == |Symbols(text) - {END}|
  {
    hide TreeFor;
    TreeServes(t, text, lens);
    LongestFirst(lens, HuffmanTree.Height(t));
    PresentCount(lens[..END], HuffmanTree.Height(t));
    PresentSymbols(t, text, lens);
  }

  lemma {:induction false} PresentSymbols(t: HuffmanTree.Tree, text: seq<byte>, lens: seq<nat>)
    requires TreeFor(t, text) && text != [] && |lens| == SYMBOLS && DepthsOf(t, lens)
    ensures Present(lens[..END]) == Symbols(text) - {END}
  {
    MoreThanALeaf(t, text);
    forall c | c in HuffmanTree.Leaves(t)
      ensures HuffmanTree.Depth(t, c) > 0
    {
    }
  }

  // ----- how long the encoded text can be

  /** The first size with a file whose encoded length does not fit a long: the first s with 8*s + s/256 + 7 >= 2^31. */
  const SAFESIZE: nat := 268304448

  lemma {:induction false} SumOnes(n: nat, m: nat)
    ensures Sum(seq(n, i requires i >= 0 => if i < m then 1 else 0)) == if n < m then n else m
  {
    if n > 0 {
      SumOnes(n - 1, m);
      var s := seq(n, i requires i >= 0 => if i < m then 1 else 0);
      assert s[..n - 1] == seq(n - 1, i requires i >= 0 => if i < m then 1 else 0);
    }
  }

  lemma {:induction false} SumTail(a: seq<int>, n: nat)
    requires n <= |a| && forall i :: n <= i < |a| ==> a[i] == 0
    ensures Sum(a) == Sum(a[..n])
  {
    if n < |a| {
      SumTail(a[..|a| - 1], n);
      assert a[..|a| - 1][..n] == a[..n];
    } else {
      assert a[..n] == a;
    }
  }

  lemma {:induction false} SumFrom(a: seq<int>, n: nat)
    requires n <= |a| && forall i :: n <= i < |a| ==> a[i] >= 0
    ensures Sum(a) >= Sum(a[..n])
  {
    if n < |a| {
      SumFrom(a[..|a| - 1], n);
      assert a[..|a| - 1][..n] == a[..n];
    } else {
      assert a[..n] == a;
    }
  }

  /** Eight bits for every byte but c; nine for c and for END. */
  function EightBits(c: nat): (r: seq<nat>)
    requires c < END
    ensures |r| == NODES && forall i :: 0 <= i < NODES ==> r[i] == if i == c || i == END then 9 else 8
  {
    seq(NODES, i requires i >= 0 => if i == c || i == END then 9 else 8)
  }

  lemma PowNine()
    ensures Pow2(0) == 1 && Pow2(1) == 2 && Pow2(8) == 256 && Pow2(9) == 512
  {
    assert Pow2(4) == 16;
  }

  /** 255 code words of 8 bits and two of 9 fit. */
  lemma EightBitsFit(S: set<nat>, c: nat)
    requires c < END && forall x :: x in S ==> x < SYMBOLS
    ensures Kraft(S, EightBits(c), 9)
  {
    var ones := seq(NODES, i requires i >= 0 => if i < SYMBOLS then 1 else 0);
    var twos := seq(NODES, i requires i >= 0 => if i < SYMBOLS then 2 else 0);
    var room := twos[c := 1][END := 1];
    PowNine();
    forall i | 0 <= i < NODES
      ensures KraftShares(S, EightBits(c), 9)[i] <= room[i]
    {
    }
    SumMono(KraftShares(S, EightBits(c), 9), room);
    SumOnes(NODES, SYMBOLS);
    SumScale(twos, ones, 2);
    SumUpdate(twos, c, 1);
    SumUpdate(twos[c := 1], END, 1);
  }

  lemma EightBitsCost(text: seq<byte>, c: nat)
    requires c < END
    ensures Cost(Symbols(text), Weights(text), EightBits(c)) == 8 * (2 * |text| + 1) + Weights(text)[c] + 1
  {
    var S, w := Symbols(text), Weights(text);
    var eights := seq(NODES, i requires 0 <= i < NODES => 8 * w[i]);
    forall i | 0 <= i < NODES
      ensures CostShares(S, w, EightBits(c))[i] == eights[c := 9 * w[c]][END := 9 * w[END]][i]
    {
      assert i !in S ==> w[i] == 0;
    }
    assert CostShares(S, w, EightBits(c)) == eights[c := 9 * w[c]][END := 9 * w[END]];
    SumScale(eights, w, 8);
    SumTail(w, SYMBOLS);
    TotalCount(text);
    SumUpdate(eights, c, 9 * w[c]);
    SumUpdate(eights[c := 9 * w[c]], END, 9 * w[END]);
  }

  /** The cost of the tree is twice the bits of the text, and the word for END. */
  lemma {:induction false} CostOfText(S: set<nat>, w: seq<nat>, d: seq<nat>, lens: seq<nat>, n: nat)
    requires |w| == |d| == NODES && |lens| == SYMBOLS && n <= SYMBOLS && w[END] == 1 && END in S
    requires forall c :: 0 <= c < SYMBOLS ==> lens[c] == d[c] && (c !in S ==> w[c] == 0) && (c < END ==> w[c] % 2 == 0)
    ensures Sum(CostShares(S, w, d)[..n]) == 2 * BitsOut(lens[..n], Halves(w[..SYMBOLS])) + if n > END then lens[END]
              else 0
  {
    hide Halves;
    if n > 0 {
      var shares, cnt, c := CostShares(S, w, d), Halves(w[..SYMBOLS]), n - 1;
      CostOfText(S, w, d, lens, n - 1);
      assert shares[..n][..c] == shares[..c] && lens[..n][..c] == lens[..c];
      ShareIs(S, w, d, lens, c);
    }
  }

  lemma ShareIs(S: set<nat>, w: seq<nat>, d: seq<nat>, lens: seq<nat>, c: nat)
    requires |w| == |d| == NODES && |lens| == SYMBOLS && c < SYMBOLS && w[END] == 1 && END in S
    requires lens[c] == d[c] && (c !in S ==> w[c] == 0) && (c < END ==> w[c] % 2 == 0)
    ensures CostShares(S, w, d)[c] == 2 * (lens[c] * Halves(w[..SYMBOLS])[c]) + if c == END then lens[END] else 0
  {
    var h := Halves(w[..SYMBOLS])[c];
    assert w[c] == 2 * h + if c == END then 1 else 0;
    assert (2 * h) * d[c] == 2 * (d[c] * h);
  }

  /**
   No tree that pack builds takes much more than eight bits a byte: hardly
   more than the rarest byte has occurrences.
   */
  lemma BitsBound(t: HuffmanTree.Tree, text: seq<byte>, lens: seq<nat>, c: nat)
    requires TreeFor(t, text) && |lens| == SYMBOLS && DepthsOf(t, lens) && c < END
    ensures 2 * BitsOut(lens, Halves(Weights(text)[..SYMBOLS])) + lens[END] <= 16 * |text| + 9 + Weights(text)[c]
  {
    hide KraftSum, Kraft, Cost, HuffmanForest.Balanced, BitsOut, Halves, EightBits;
    var S, w, d := Symbols(text), Weights(text), Depths(t);
    EightBitsFit(S, c);
    EightBitsCost(text, c);
    assert Cost(S, w, d) <= Cost(S, w, EightBits(c));
    CostIsBits(t, text, lens);
  }

  lemma CostIsBits(t: HuffmanTree.Tree, text: seq<byte>, lens: seq<nat>)
    requires TreeFor(t, text) && |lens| == SYMBOLS && DepthsOf(t, lens)
    ensures Cost(Symbols(text), Weights(text), Depths(t))
              == 2 * BitsOut(lens, Halves(Weights(text)[..SYMBOLS])) + lens[END]
  {
    hide BitsOut, Halves, TreeFor, DepthsOf;
    var S, w, d := Symbols(text), Weights(text), Depths(t);
    SymbolDepths(t, text, lens);
    CostOfText(S, w, d, lens, SYMBOLS);
    assert lens[..SYMBOLS] == lens;
    SumTail(CostShares(S, w, d), SYMBOLS);
  }

  lemma SymbolDepths(t: HuffmanTree.Tree, text: seq<byte>, lens: seq<nat>)
    requires TreeFor(t, text) && |lens| == SYMBOLS && DepthsOf(t, lens)
    ensures forall c :: 0 <= c < SYMBOLS ==> lens[c] == Depths(t)[c]
  {
    hide Optimal, HuffmanForest.Balanced, HuffmanTree.Depth, Weights, Symbols;
  }

  lemma {:induction false} SomeSmall(v: seq<int>, k: int) returns (c: nat)
    requires v != [] && Sum(v) < |v| * (k + 1)
    ensures c < |v| && v[c] <= k
  {
    var n := |v| - 1;
    if v[n] <= k {
      c := n;
    } else {
      Distribute(k + 1, n, 1);
      c := SomeSmall(v[..n], k);
    }
  }

  /** The rarest byte occurs at most once in 256. */
  lemma RarestByte(text: seq<byte>) returns (c: nat)
    ensures c < END && Weights(text)[c] <= 2 * (|text| / END)
  {
    var w, cnt := Weights(text)[..SYMBOLS], Halves(Weights(text)[..SYMBOLS])[..END];
    var both := seq(END, i requires 0 <= i < END => w[i]);
    TotalCount(text);
    assert w[..END] == both && w == both + [1];
    assert w[..SYMBOLS - 1] == both;
    SumScale(both, cnt, 2);
    c := SomeSmall(cnt, |text| / END);
  }

  /** 257 symbols need nine levels. */
  lemma AllNeedNine(t: HuffmanTree.Tree, text: seq<byte>)
    requires TreeFor(t, text) && forall c :: 0 <= c < SYMBOLS ==> c in Symbols(text)
    ensures HuffmanTree.Height(t) >= 9
  {
    hide Optimal, HuffmanForest.Balanced, HuffmanTree.Height;
    var H, S, d := HuffmanTree.Height(t), Symbols(text), Depths(t);
    var ones := seq(NODES, i requires i >= 0 => if i < SYMBOLS then 1 else 0);
    DepthsKraft(t, H);
    SumOnes(NODES, SYMBOLS);
    SumMono(ones, KraftShares(S, d, H));
    PowNine();
    if H < 9 {
      Pow2Mono(H, 8);
    }
  }

  /** Below SAFESIZE bytes the encoded length fits a long, whatever the file. */
  lemma SumFits(t: HuffmanTree.Tree, text: seq<byte>, lens: seq<nat>)
    requires TreeFor(t, text) && |lens| == SYMBOLS && DepthsOf(t, lens) && |text| < SAFESIZE
    ensures BitsOut(lens, Halves(Weights(text)[..SYMBOLS])) + 7 < 0x8000_0000
  {
    hide TreeFor, DepthsOf, BitsOut, Halves, HuffmanTree.Height;
    var rare := RarestByte(text);
    if c :| 0 <= c < END && c !in Symbols(text) {
      BitsBound(t, text, lens, c);
    } else {
      BitsBound(t, text, lens, rare);
      AllNeedNine(t, text);
      EndLength(t, text, lens);
    }
  }

  lemma EndLength(t: HuffmanTree.Tree, text: seq<byte>, lens: seq<nat>)
    requires TreeFor(t, text) && |lens| == SYMBOLS && DepthsOf(t, lens)
    ensures lens[END] == HuffmanTree.Height(t) && forall c :: 0 <= c < SYMBOLS ==> lens[c] <= lens[END]
  {
    hide Optimal, HuffmanForest.Balanced;
    EndIsDeepest(t, text);
    forall c | 0 <= c < SYMBOLS
      ensures lens[c] <= HuffmanTree.Height(t)
    {
      if c in HuffmanTree.Leaves(t) {
        HuffmanTree.DepthWithinHeight(t, c);
      }
    }
  }

  /** The estimate without the limits of a long. */
  function WholeEstimate(lens: seq<nat>, m: nat, text: seq<byte>): nat
    requires |lens| == SYMBOLS
  {
    (BitsOut(lens, Halves(Weights(text)[..SYMBOLS])) + 7) / 8 + 6 + m + |Symbols(text) - {END}|
  }

  /** The estimate is as meant exactly if the sum fits a long, and below SAFESIZE bytes it always is. */
  lemma EstimateFits(t: HuffmanTree.Tree, text: seq<byte>, lens: seq<nat>, m: nat)
    requires TreeFor(t, text) && |lens| == SYMBOLS && DepthsOf(t, lens)
    ensures Pack.EstimatedSize(lens, m, text) == WholeEstimate(lens, m, text)
       <==> BitsOut(lens, Halves(Weights(text)[..SYMBOLS])) + 7 < 0x8000_0000
    ensures |text| < SAFESIZE ==> Pack.EstimatedSize(lens, m, text) == WholeEstimate(lens, m, text)
  {
    hide TreeFor, DepthsOf, BitsOut, Halves;
    LongEighth(BitsOut(lens, Halves(Weights(text)[..SYMBOLS])) + 7);
    if |text| < SAFESIZE {
      SumFits(t, text, lens);
    }
  }

  lemma LongEighth(x: nat)
    ensures Long(x) / 8 == x / 8 <==> x < 0x8000_0000
    ensures x >= 0x8000_0000 ==> Long(x) <= x - 0x1_0000_0000
  {
  }

  // ----- files for which the sum does not fit: every value equally often, as far as possible

  function Even(s: nat): (r: seq<byte>)
    ensures |r| == s && forall i :: 0 <= i < s ==> r[i] == i % END
  {
    if s == 0 then [] else Even(s - 1) + [(s - 1) % END]
  }

  /** How many of the first s places are c more than a multiple of 256. */
  function Turns(s: nat, c: nat): nat {
    s / END + if c < s % END then 1 else 0
  }

  lemma TurnsNext(s: nat, c: nat)
    requires c < END
    ensures Turns(s + 1, c) == Turns(s, c) + if s % END == c then 1 else 0
  {
    if s % END == END - 1 {
      DivUnique(s + 1, END, s / END + 1, 0);
    } else {
      DivUnique(s + 1, END, s / END, s % END + 1);
    }
  }

  lemma {:induction false} EvenCount(s: nat, c: byte)
    ensures multiset(Even(s))[c] == Turns(s, c)
  {
    hide Turns;
    if s == 0 {
      NoTurns(c);
    } else {
      EvenCount(s - 1, c);
      TurnsNext(s - 1, c);
      LastOne(Even(s - 1), (s - 1) % END, c);
    }
  }

  lemma NoTurns(c: nat)
    ensures Turns(0, c) == 0
  {
  }

  lemma LastOne(a: seq<byte>, x: byte, c: byte)
    ensures multiset(a + [x])[c] == multiset(a)[c] + if x == c then 1 else 0
  {
  }

  lemma EvenWeights(s: nat)
    ensures
      var w := Weights(Even(s));
      (forall c :: 0 <= c < END ==> w[c] == 2 * (s / END + if c < s % END then 1 else 0)) && w[END] == 1
  {
    hide Even;
    forall c | 0 <= c < END
      ensures Weights(Even(s))[c] == 2 * (s / END + if c < s % END then 1 else 0)
    {
      EvenCount(s, c);
    }
  }

  lemma {:induction false} PowTangent(n: nat)
    ensures Pow2(n) >= n + 1 && (n >= 2 ==> Pow2(n) >= n + 2)
  {
    if n > 0 {
      PowTangent(n - 1);
    }
  }

  /** A code word of l bits takes at least this much of the room, measured on level H. */
  lemma ShareTangent(H: nat, l: nat)
    requires 9 <= H && l <= H
    ensures Pow2(H - l) >= Pow2(H - 9) * (10 - l) && (l <= 7 ==> Pow2(H - l) >= Pow2(H - 9) * (11 - l))
  {
    hide Pow2;
    var u := Pow2(H - 9);
    if l <= 9 {
      PowTangent(9 - l);
      Pow2Add(H - 9, 9 - l);
      MulMono(u, 10 - l, Pow2(9 - l));
      if l <= 7 {
        MulMono(u, 11 - l, Pow2(9 - l));
      }
    } else {
      MulMono(u, 10 - l, 0);
    }
  }

  /** Lengths below 8 among the first n cost more room. */
  predicate Short(lens: seq<nat>, n: nat) {
    exists c :: 0 <= c < n && c < |lens| && lens[c] <= 7
  }

  lemma {:induction false} LengthsSum(lens: seq<nat>, shares: seq<int>, H: nat, n: nat)
    requires 9 <= H && n <= |lens| && n <= |shares|
    requires forall c :: 0 <= c < n ==> lens[c] <= H && shares[c] == Pow2(H - lens[c])
    ensures Sum(shares[..n]) >= Pow2(H - 9) * (10 * n - Sum(lens[..n]) + if Short(lens, n) then 1 else 0)
  {
    hide Pow2;
    if n > 0 {
      LengthsSum(lens, shares, H, n - 1);
      assert shares[..n][..n - 1] == shares[..n - 1] && lens[..n][..n - 1] == lens[..n - 1];
      ShareTangent(H, lens[n - 1]);
      var u, a, l := Pow2(H - 9), 10 * (n - 1) - Sum(lens[..n - 1]) + (if Short(lens, n - 1) then 1 else 0),
        lens[n - 1];
      Distribute(u, a, 10 - l);
      Distribute(u, a, 11 - l);
      assert Short(lens, n) ==> Short(lens, n - 1) || l <= 7;
      MulMono(u, 10 * n - Sum(lens[..n]) + (if Short(lens, n) then 1 else 0), a + if l <= 7 then 11 - l else 10 - l);
    }
  }

  /** With all 256 values in use the lengths add up to more than 8 each, and to still more if one is below 8. */
  lemma MoreThanEight(t: HuffmanTree.Tree, text: seq<byte>, lens: seq<nat>)
    requires TreeFor(t, text) && |lens| == SYMBOLS && DepthsOf(t, lens)
    requires forall c :: 0 <= c < SYMBOLS ==> c in Symbols(text)
    ensures Sum(lens[..END]) > 8 * END + if Short(lens, END) then 1 else 0
  {
    hide KraftSum, TreeFor, DepthsOf, Pow2, HuffmanTree.Height, Short;
    var H, S, d := HuffmanTree.Height(t), Symbols(text), Depths(t);
    AllNeedNine(t, text);
    TreeRoom(t, text);
    SymbolDepths(t, text, lens);
    EndLength(t, text, lens);
    ByteShares(S, d, lens, H);
    var u, k := Pow2(H - 9), 10 * END - Sum(lens[..END]) + if Short(lens, END) then 1 else 0;
    Pow2Add(H - 9, 9);
    PowNine();
    if k >= 512 {
      MulMono(u, 512, k);
    }
  }

  lemma TreeRoom(t: HuffmanTree.Tree, text: seq<byte>)
    requires TreeFor(t, text)
    ensures KraftSum(Symbols(text), Depths(t), HuffmanTree.Height(t)) == Pow2(HuffmanTree.Height(t))
  {
    hide Optimal, HuffmanForest.Balanced, KraftSum, HuffmanTree.Height;
    DepthsKraft(t, HuffmanTree.Height(t));
  }

  /** The room that is left for the bytes, since END takes some. */
  lemma ByteShares(S: set<nat>, d: seq<nat>, lens: seq<nat>, H: nat)
    requires |d| == NODES && |lens| == SYMBOLS && 9 <= H
    requires forall c :: 0 <= c < SYMBOLS ==> c in S && lens[c] == d[c] <= H
    ensures KraftSum(S, d, H) > Pow2(H - 9) * (10 * END - Sum(lens[..END]) + if Short(lens, END) then 1 else 0)
  {
    hide Pow2, Short;
    var shares := KraftShares(S, d, H);
    LengthsSum(lens, shares, H, END);
    assert shares[..SYMBOLS][..END] == shares[..END] && shares[END] >= 1;
    SumFrom(shares, SYMBOLS);
  }

  lemma {:induction false} EvenCounts(lens: seq<nat>, cnt: seq<nat>, n: nat, q: nat, r: nat)
    requires n <= |lens| <= |cnt| && forall c :: 0 <= c < n ==> cnt[c] == q + if c < r then 1 else 0
    ensures BitsOut(lens[..n], cnt) == q * Sum(lens[..n]) + Sum(lens[..if n < r then n else r])
  {
    if n > 0 {
      EvenCounts(lens, cnt, n - 1, q, r);
      assert lens[..n][..n - 1] == lens[..n - 1];
      Distribute(q, Sum(lens[..n - 1]), lens[n - 1]);
      Distribute(lens[n - 1], q, 1);
      if n <= r {
        assert lens[..n][..n - 1] == lens[..n - 1];
      }
    }
  }

  lemma {:induction false} EightEach(lens: seq<nat>, n: nat)
    requires n <= |lens| && forall c :: 0 <= c < n ==> lens[c] >= 8
    ensures Sum(lens[..n]) >= 8 * n
  {
    if n > 0 {
      EightEach(lens, n - 1);
      assert lens[..n][..n - 1] == lens[..n - 1];
    }
  }

  lemma {:induction false} NotNegative(lens: seq<nat>, n: nat)
    requires n <= |lens|
    ensures Sum(lens[..n]) >= 0
  {
    if n > 0 {
      NotNegative(lens, n - 1);
      assert lens[..n][..n - 1] == lens[..n - 1];
    }
  }

  /** The length of such a text is known: eight bits a byte, and one more for each of the rarest. */
  lemma EvenBits(t: HuffmanTree.Tree, s: nat, lens: seq<nat>)
    requires TreeFor(t, Even(s)) && |lens| == SYMBOLS && DepthsOf(t, lens) && s >= END * 2048
    ensures HuffmanTree.Height(t) == 9 && BitsOut(lens, Halves(Weights(Even(s))[..SYMBOLS])) == 8 * s + s / END
  {
    hide TreeFor, DepthsOf, BitsOut, HuffmanTree.Height, Even, Short;
    var text, q, r := Even(s), s / END, s % END;
    var cnt := Halves(Weights(text)[..SYMBOLS]);
    EvenWeights(s);
    AllNeedNine(t, text);
    EndLength(t, text, lens);
    MoreThanEight(t, text, lens);
    EvenCounts(lens, cnt, END, q, r);
    LastCountZero(lens, cnt);
    EvenAtLeast(lens, q, r);
    BitsBound(t, text, lens, END - 1);
  }

  lemma EvenAtLeast(lens: seq<nat>, q: nat, r: nat)
    requires |lens| == SYMBOLS && q >= 2048 && r < END
    requires Sum(lens[..END]) > 8 * END + if Short(lens, END) then 1 else 0
    ensures q * Sum(lens[..END]) + Sum(lens[..r]) >= (8 * END + 1) * q + 8 * r
  {
    if Short(lens, END) {
      MulMono(q, 8 * END + 2, Sum(lens[..END]));
      NotNegative(lens, r);
    } else {
      MulMono(q, 8 * END + 1, Sum(lens[..END]));
      EightEach(lens, r);
    }
  }

  lemma LastCountZero(lens: seq<nat>, cnt: seq<nat>)
    requires |lens| == |cnt| == SYMBOLS && cnt[END] == 0
    ensures BitsOut(lens, cnt) == BitsOut(lens[..END], cnt)
  {
  }

  lemma AllSymbols(text: seq<byte>)
    ensures |Symbols(text) - {END}| <= END
  {
    SymbolsFew(Symbols(text) - {END}, END);
  }

  /**
   From SAFESIZE bytes on the sum of such a file wraps around; the file is
   packed without being forced, although the packed form takes more blocks.
   */
  lemma EstimateWraps(t: HuffmanTree.Tree, s: nat, lens: seq<nat>)
    requires TreeFor(t, Even(s)) && |lens| == SYMBOLS && DepthsOf(t, lens) && s >= SAFESIZE
    ensures
      var m := HuffmanTree.Height(t);
      && m == 9 && Pack.EstimatedSize(lens, m, Even(s)) != WholeEstimate(lens, m, Even(s))
      && (s < Pack.MAXSIZE ==> Pack.Blocks(s) > Pack.Blocks(Pack.EstimatedSize(lens, m, Even(s))))
      && Pack.Blocks(s) < Pack.Blocks(|PackedFile(lens, m, Even(s))|)
  {
    hide TreeFor, DepthsOf, BitsOut, HuffmanTree.Height, Even, PackedFile, Symbols;
    EvenBits(t, s, lens);
    AllSymbols(Even(s));
    PackedSize(t, Even(s), lens);
    LongEighth(BitsOut(lens, Halves(Weights(Even(s))[..SYMBOLS])) + 7);
  }

  // ----- the whole file

  /** What is written, against the estimate without the limits of a long. */
  lemma {:induction false} PackedSize(t: HuffmanTree.Tree, text: seq<byte>, lens: seq<nat>)
    requires TreeFor(t, text) && text != [] && |lens| == SYMBOLS && DepthsOf(t, lens)
    requires HuffmanTree.Height(t) <= MAXLEV
    ensures
      var m := HuffmanTree.Height(t);
      var bits := |Encode(lens, m, text)|;
      && |PackedFile(lens, m, text)| == WholeEstimate(lens, m, text) + 1 + (bits + m + 7) / 8 - (bits + 7) / 8
      && 1 <= |PackedFile(lens, m, text)| - WholeEstimate(lens, m, text) <= 4
  {
    hide TreeFor, DepthsOf, FullCode, BitsOut, Encode, UpTo, At;
    TreeServes(t, text, lens);
    DictionaryLength(t, text, lens);
    BitsOutIsLength(lens, HuffmanTree.Height(t), text);
  }

  /** The file is larger than estimated, by the byte that holds maxlev and by the end mark: 1 to 4 bytes. */
  lemma {:induction false} EstimateIsLow(t: HuffmanTree.Tree, text: seq<byte>, lens: seq<nat>)
    requires TreeFor(t, text) && text != [] && |lens| == SYMBOLS && DepthsOf(t, lens)
    requires HuffmanTree.Height(t) <= MAXLEV && |text| < SAFESIZE
    ensures
      var m := HuffmanTree.Height(t);
      var bits := |Encode(lens, m, text)|;
      && |PackedFile(lens, m, text)| == Pack.EstimatedSize(lens, m, text) + 1 + (bits + m + 7) / 8 - (bits + 7) / 8
      && 1 <= |PackedFile(lens, m, text)| - Pack.EstimatedSize(lens, m, text) <= 4
  {
    hide TreeFor, DepthsOf, Pack.EstimatedSize, WholeEstimate, PackedFile, Encode;
    PackedSize(t, text, lens);
    EstimateFits(t, text, lens, HuffmanTree.Height(t));
  }

  /** Whoever is told that nothing would be saved is told the truth, and packing unforced never costs a block. */
  lemma {:induction false} DecisionIsSafe(t: HuffmanTree.Tree, text: seq<byte>, lens: seq<nat>)
    requires TreeFor(t, text) && text != [] && |lens| == SYMBOLS && DepthsOf(t, lens)
    requires HuffmanTree.Height(t) <= MAXLEV && |text| < SAFESIZE
    ensures
      var m := HuffmanTree.Height(t);
      var saving := Pack.Blocks(|text|) > Pack.Blocks(Pack.EstimatedSize(lens, m, text));
      && (Pack.Blocks(|PackedFile(lens, m, text)|) < Pack.Blocks(|text|) ==> saving)
      && (saving ==> Pack.Blocks(|PackedFile(lens, m, text)|) <= Pack.Blocks(|text|))
  {
    hide TreeFor, DepthsOf, Pack.EstimatedSize, PackedFile;
    EstimateIsLow(t, text, lens);
  }

  // ----- exactly from which size on this goes wrong

  /** Depths as the program climbs for them. */
  function LengthsOf(t: HuffmanTree.Tree): (r: seq<nat>)
    ensures |r| == SYMBOLS
  {
    seq(SYMBOLS, c requires c >= 0 => if c in HuffmanTree.Leaves(t) then HuffmanTree.Depth(t, c) else 0)
  }

  /** text has s bytes, and whichever Huffman tree is built for it, the estimate is not as meant. */
  ghost predicate Misjudged(text: seq<byte>, s: nat) {
    && |text| == s && (exists t :: TreeFor(t, text))
    && forall t :: TreeFor(t, text) ==>
         var m := HuffmanTree.Height(t);
         Pack.EstimatedSize(LengthsOf(t), m, text) != WholeEstimate(LengthsOf(t), m, text)
  }

  /** It is even packed without being forced, although that costs blocks. */
  ghost predicate Wasted(text: seq<byte>, s: nat) {
    && |text| == s && (exists t :: TreeFor(t, text))
    && forall t :: TreeFor(t, text) ==>
         var m := HuffmanTree.Height(t);
         && m <= MAXLEV && Pack.Blocks(s) > Pack.Blocks(Pack.EstimatedSize(LengthsOf(t), m, text))
         && Pack.Blocks(s) < Pack.Blocks(|PackedFile(LengthsOf(t), m, text)|)
  }

  lemma LengthsAreDepths(t: HuffmanTree.Tree, text: seq<byte>)
    requires TreeFor(t, text)
    ensures DepthsOf(t, LengthsOf(t))
  {
    hide Optimal, HuffmanForest.Balanced;
  }

  /**
   Some file of s bytes is misjudged exactly if s is at least SAFESIZE, and
   of those that pack takes, some is wasted.
   */
  lemma MisjudgedFrom(s: nat)
    ensures (exists text :: Misjudged(text, s)) <==> s >= SAFESIZE
    ensures s < Pack.MAXSIZE ==> ((exists text :: Wasted(text, s)) <==> s >= SAFESIZE)
  {
    hide Misjudged, Wasted;
    if s >= SAFESIZE {
      EvenMisjudged(s);
    } else {
      forall text
        ensures !Misjudged(text, s) && !Wasted(text, s)
      {
        Judged(text, s);
      }
    }
  }

  lemma EvenMisjudged(s: nat)
    requires s >= SAFESIZE
    ensures Misjudged(Even(s), s) && (s < Pack.MAXSIZE ==> Wasted(Even(s), s))
  {
    hide TreeFor, Even, Pack.EstimatedSize, WholeEstimate, PackedFile, HuffmanTree.Height, LengthsOf, Pack.Blocks,
      DepthsOf;
    var u := TreeExists(Even(s));
    forall t | TreeFor(t, Even(s))
      ensures
        var m := HuffmanTree.Height(t);
        && m == 9 && Pack.EstimatedSize(LengthsOf(t), m, Even(s)) != WholeEstimate(LengthsOf(t), m, Even(s))
        && (s < Pack.MAXSIZE ==> Pack.Blocks(s) > Pack.Blocks(Pack.EstimatedSize(LengthsOf(t), m, Even(s))))
        && Pack.Blocks(s) < Pack.Blocks(|PackedFile(LengthsOf(t), m, Even(s))|)
    {
      LengthsAreDepths(t, Even(s));
      EstimateWraps(t, s, LengthsOf(t));
    }
  }

  lemma Judged(text: seq<byte>, s: nat)
    requires s < SAFESIZE
    ensures !Misjudged(text, s) && !Wasted(text, s)
  {
    hide TreeFor, Pack.EstimatedSize, WholeEstimate, PackedFile, HuffmanTree.Height, LengthsOf, Pack.Blocks, DepthsOf;
    if |text| == s && exists t :: TreeFor(t, text) {
      var t :| TreeFor(t, text);
      LengthsAreDepths(t, text);
      EstimateFits(t, text, LengthsOf(t), HuffmanTree.Height(t));
      if text != [] && HuffmanTree.Height(t) <= MAXLEV {
        DecisionIsSafe(t, text, LengthsOf(t));
      } else if text == [] {
        NothingWasted(t);
      }
    }
  }

  lemma NothingWasted(t: HuffmanTree.Tree)
    requires TreeFor(t, [])
    ensures Pack.Blocks(0) <= Pack.Blocks(Pack.EstimatedSize(LengthsOf(t), HuffmanTree.Height(t), []))
  {
    hide TreeFor, LengthsOf, BitsOut;
    LengthsAreDepths(t, []);
    EstimateFits(t, [], LengthsOf(t), HuffmanTree.Height(t));
  }
}
