/**
 Prefix codes in general, and the two sides of the code pack.c assigns: it is
 one, and none on the same symbols is shorter.
 */
module PrefixCodes {
  import opened Sums
  import opened BitStrings
  import opened HuffmanTree
  import opened HuffmanForest
  import opened HuffmanResult
  import opened Optimality
  import opened CanonicalCode
  import opened PackParams
  import opened PackText
  import opened PackLaws
  import RoundTrip

  predicate IsPrefix(a: BitString, b: BitString) {
    |a| <= |b| && b[..|a|] == a
  }

  predicate Apart(word: seq<BitString>, x: nat, y: nat)
    requires x < |word| && y < |word|
  {
    !IsPrefix(word[x], word[y])
  }

  /** No word of an item of S begins another item's word. */
  ghost predicate PrefixFree(S: set<nat>, word: seq<BitString>) {
    && (forall x :: x in S ==> x < |word|)
    && forall x, y :: x in S && y in S && x != y ==> Apart(word, x, y)
  }

  function Lengths(word: seq<BitString>): (r: seq<nat>)
    ensures |r| == |word|
  {
    seq(|word|, i requires 0 <= i < |word| => |word[i]|)
  }

  // ----- every prefix code satisfies the Kraft inequality

  predicate StartsWith(word: seq<BitString>, b: bool, x: nat)
    requires x < |word|
  {
    |word[x]| > 0 && word[x][0] == b
  }

  /** The items of S whose words begin with b. */
  ghost function Branch(S: set<nat>, word: seq<BitString>, b: bool): set<nat>
    requires forall x :: x in S ==> x < |word|
  {
    set x | x in S && StartsWith(word, b, x)
  }

  function Tails(word: seq<BitString>): (r: seq<BitString>)
    ensures |r| == |word|
  {
    seq(|word|, i requires 0 <= i < |word| => if word[i] == [] then [] else word[i][1..])
  }

  lemma TailsApart(word: seq<BitString>, b: bool, x: nat, y: nat)
    requires x < |word| && y < |word| && Apart(word, x, y)
    requires StartsWith(word, b, x) && StartsWith(word, b, y)
    ensures Apart(Tails(word), x, y)
  {
    var u, v := word[x], word[y];
    if |u| <= |v| {
      assert v[..|u|] == [v[0]] + v[1..][..|u| - 1];
      assert u == [u[0]] + u[1..];
    }
  }

  lemma BranchPrefixFree(S: set<nat>, word: seq<BitString>, b: bool)
    requires PrefixFree(S, word)
    ensures PrefixFree(Branch(S, word, b), Tails(word))
  {
    hide Apart, StartsWith, Tails;
    forall x, y | x in Branch(S, word, b) && y in Branch(S, word, b) && x != y
      ensures Apart(Tails(word), x, y)
    {
      TailsApart(word, b, x, y);
    }
  }

  /** An empty word leaves no room for another. */
  lemma EmptyWordAlone(S: set<nat>, word: seq<BitString>, D: nat, x: nat)
    requires PrefixFree(S, word) && x in S && word[x] == []
    ensures KraftSum(S, Lengths(word), D) == Pow2(D)
  {
    forall y | y in S
      ensures y == x
    {
      assert y != x ==> Apart(word, x, y);
    }
    SumSingle(KraftShares(S, Lengths(word), D), x);
  }

  /** The words that begin with a 0 and those that begin with a 1 share the room. */
  lemma Branches(S: set<nat>, word: seq<BitString>, D: nat)
    requires D > 0 && forall x :: x in S ==> x < |word| && 0 < |word[x]| <= D
    ensures KraftSum(S, Lengths(word), D)
         == KraftSum(Branch(S, word, false), Lengths(Tails(word)), D - 1)
            + KraftSum(Branch(S, word, true), Lengths(Tails(word)), D - 1)
  {
    var c := KraftShares(S, Lengths(word), D);
    var a := KraftShares(Branch(S, word, false), Lengths(Tails(word)), D - 1);
    var b := KraftShares(Branch(S, word, true), Lengths(Tails(word)), D - 1);
    forall i | 0 <= i < |c|
      ensures c[i] == a[i] + b[i]
    {
      if i in S {
        assert StartsWith(word, word[i][0], i);
      }
    }
    SumAdd(a, b, c);
  }

  lemma InRange(S: set<nat>, word: seq<BitString>)
    requires PrefixFree(S, word)
    ensures forall x :: x in S ==> x < |word|
  {
  }

  lemma NothingUsesRoom(S: set<nat>, word: seq<BitString>, D: nat)
    requires S == {}
    ensures KraftSum(S, Lengths(word), D) == 0
  {
    SumZero(KraftShares(S, Lengths(word), D));
  }

  /** The Kraft inequality. */
  lemma {:induction false} KraftInequality(S: set<nat>, word: seq<BitString>, D: nat)
    requires PrefixFree(S, word) && Bound(S, Lengths(word), D)
    ensures Kraft(S, Lengths(word), D)
    decreases D
  {
    hide KraftSum, PrefixFree;
    InRange(S, word);
    if S == {} {
      NothingUsesRoom(S, word, D);
    } else if x :| x in S && word[x] == [] {
      EmptyWordAlone(S, word, D, x);
    } else {
      var x :| x in S;
      Branches(S, word, D);
      BranchPrefixFree(S, word, false);
      BranchPrefixFree(S, word, true);
      KraftInequality(Branch(S, word, false), Tails(word), D - 1);
      KraftInequality(Branch(S, word, true), Tails(word), D - 1);
    }
  }

  // ----- the tree that pack.c builds

  /** No prefix code on the symbols of the text encodes the text, end mark included, in fewer bits. */
  lemma {:induction false} NoPrefixCodeIsShorter(t: Tree, text: seq<byte>, word: seq<BitString>, D: nat)
    requires TreeFor(t, text) && |word| == NODES
    requires PrefixFree(Symbols(text), word) && Bound(Symbols(text), Lengths(word), D)
    ensures Cost(Symbols(text), Weights(text), Depths(t)) <= Cost(Symbols(text), Weights(text), Lengths(word))
  {
    hide Kraft, Cost, Balanced;
    KraftInequality(Symbols(text), word, D);
  }

  /** Its code words, padded to 24 bits, occupy all of 2^24. */
  lemma {:induction false} CodesFillTheRoom(t: Tree, text: seq<byte>)
    requires TreeFor(t, text) && Height(t) <= MAXLEV
    ensures KraftSum(Symbols(text), Depths(t), MAXLEV) == Pow2(MAXLEV)
  {
    hide KraftSum, Kraft, Pow2, Optimal, Balanced;
    WithinMore(t, SYMBOLS, NODES);
    DepthsKraft(t, MAXLEV);
  }

  // ----- the canonical code

  lemma {:induction false} BitsPrefix(v: nat, k: nat, j: nat)
    requires k <= j
    ensures Bits(v, j)[..k] == Bits(ShiftRight(v, j - k), k)
    decreases j
  {
    if k < j {
      BitsPrefix(v / 2, k, j - 1);
      assert Bits(v, j)[..k] == Bits(v / 2, j - 1)[..k];
    }
  }

  /** The code words of two symbols that occur never begin one another. */
  lemma {:induction false} CodesArePrefixFree(lens: seq<nat>, m: nat, c: nat, e: nat)
    requires FullCode(lens, m) && c < |lens| && e < |lens| && c != e && lens[c] > 0 && lens[e] > 0
    ensures !IsPrefix(Code(lens, m, c), Code(lens, m, e))
  {
    hide FullCode, Rank, At, Inner;
    var k, j := lens[c], lens[e];
    LongestFirst(lens, m);
    if k <= j {
      var v := CodeValue(lens, m, e);
      CodeValueFits(lens, m, c);
      CodeValueFits(lens, m, e);
      ValueBits(CodeValue(lens, m, c), k);
      if k < j {
        RoundTrip.PrefixIsInner(lens, m, e, k);
        InnerFits(lens, m, k);
        BitsPrefix(v, k, j);
        ValueBits(ShiftRight(v, j - k), k);
      } else {
        ValueBits(v, j);
        assert Code(lens, m, e)[..k] == Code(lens, m, e);
        RankFinds(lens, c);
        RankFinds(lens, e);
      }
    }
  }

  lemma InnerFits(lens: seq<nat>, m: nat, k: nat)
    requires FullCode(lens, m) && k <= m
    ensures Inner(lens, m, k) <= Pow2(k)
  {
    hide *;
    LevelFits(lens, m, k);
  }
}
