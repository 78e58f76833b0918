/** Powers of two and finite sums over sequences, shared by the theory modules. */
module Sums {

  function Pow2(n: nat): (r: nat)
    ensures r >= 1
  {
    if n == 0 then 1 else 2 * Pow2(n - 1)
  }

  lemma {:induction false} Pow2Add(a: nat, b: nat)
    ensures Pow2(a + b) == Pow2(a) * Pow2(b)
  {
    if b == 0 {
    } else {
      Pow2Add(a, b - 1);
      assert Pow2(a + b) == 2 * Pow2(a + (b - 1));
      assert Pow2(a) * Pow2(b) == Pow2(a) * (2 * Pow2(b - 1)) == 2 * (Pow2(a) * Pow2(b - 1));
    }
  }

  lemma {:induction false} Pow2Mono(a: nat, b: nat)
    requires a <= b
    ensures Pow2(a) <= Pow2(b)
  {
    if a < b {
      Pow2Mono(a, b - 1);
    }
  }

  function Sum(s: seq<int>): int {
    if |s| == 0 then 0 else Sum(s[..|s| - 1]) + s[|s| - 1]
  }

  lemma {:induction false} SumUpdate(s: seq<int>, i: nat, v: int)
    requires i < |s|
    ensures Sum(s[i := v]) == Sum(s) - s[i] + v
  {
    var n := |s| - 1;
    if i == n {
      assert s[i := v][..n] == s[..n];
    } else {
      SumUpdate(s[..n], i, v);
      assert s[i := v][..n] == s[..n][i := v];
    }
  }

  /** Pointwise addition carries over to the sums. */
  lemma {:induction false} SumAdd(a: seq<int>, b: seq<int>, c: seq<int>)
    requires |a| == |b| == |c|
    requires forall i :: 0 <= i < |a| ==> c[i] == a[i] + b[i]
    ensures Sum(c) == Sum(a) + Sum(b)
  {
    if |a| > 0 {
      var n := |a| - 1;
      SumAdd(a[..n], b[..n], c[..n]);
    }
  }

  lemma {:induction false} SumMono(a: seq<int>, b: seq<int>)
    requires |a| == |b|
    requires forall i :: 0 <= i < |a| ==> a[i] <= b[i]
    ensures Sum(a) <= Sum(b)
  {
    if |a| > 0 {
      var n := |a| - 1;
      SumMono(a[..n], b[..n]);
    }
  }

  lemma {:induction false} SumZero(a: seq<int>)
    requires forall i :: 0 <= i < |a| ==> a[i] == 0
    ensures Sum(a) == 0
  {
    if |a| > 0 {
      SumZero(a[..|a| - 1]);
    }
  }

  /** A sum with a single non-zero term. */
  lemma SumSingle(a: seq<int>, k: nat)
    requires k < |a|
    requires forall i :: 0 <= i < |a| && i != k ==> a[i] == 0
    ensures Sum(a) == a[k]
  {
    SumUpdate(a, k, 0);
    SumZero(a[k := 0]);
  }

  /** One term never exceeds a sum of non-negative terms, and neither do two. */
  lemma SumAtLeast(a: seq<int>, i: nat, j: nat)
    requires i < |a| && j < |a|
    requires forall k :: 0 <= k < |a| ==> a[k] >= 0
    ensures Sum(a) >= a[i]
    ensures i != j ==> Sum(a) >= a[i] + a[j]
  {
    SumUpdate(a, i, 0);
    var b := a[i := 0];
    SumUpdate(b, j, 0);
    SumZero(seq(|a|, _ => 0));
    SumMono(seq(|a|, _ => 0), b[j := 0]);
    SumMono(seq(|a|, _ => 0), b);
  }

  /** A common factor of all terms can be taken out of the sum. */
  lemma {:induction false} SumScale(a: seq<int>, b: seq<int>, m: int)
    requires |a| == |b|
    requires forall k :: 0 <= k < |a| ==> a[k] == m * b[k]
    ensures Sum(a) == m * Sum(b)
  {
    if |a| > 0 {
      var n := |a| - 1;
      SumScale(a[..n], b[..n], m);
      Distribute(m, Sum(b[..n]), b[n]);
    }
  }

  lemma Distribute(m: int, p: int, q: int)
    ensures m * (p + q) == m * p + m * q
  {
  }

  lemma MulMono(m: nat, p: int, q: int)
    requires p <= q
    ensures m * p <= m * q
  {
    Distribute(m, p, q - p);
    assert m * (q - p) >= 0;
  }

  lemma DivUnique(v: int, m: nat, q: int, r: nat)
    requires m > 0 && v == m * q + r && r < m
    ensures v / m == q && v % m == r
  {
    var q', r' := v / m, v % m;
    assert v == m * q' + r';
    if q' > q {
      MulMono(m, q + 1, q');
      Distribute(m, q, 1);
      assert false;
    } else if q' < q {
      MulMono(m, q' + 1, q);
      Distribute(m, q', 1);
      assert false;
    }
  }

  // ----- multiples, without multiplication

  /** n times c. */
  function Times(n: nat, c: nat): nat {
    if n == 0 then 0 else c + Times(n - 1, c)
  }

  lemma {:induction false} TimesIs(n: nat, c: nat)
    ensures Times(n, c) == n * c
  {
    if n > 0 {
      TimesIs(n - 1, c);
      Distribute(c, n - 1, 1);
    }
  }

  lemma TimesAtLeast(n: nat, c: nat)
    requires n > 0
    ensures Times(n, c) >= c
  {
  }
}
