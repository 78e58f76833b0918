/**
 Why merging the two lightest items is right. An assignment of depths to the
 active items is measured against the Kraft inequality alone, so the results
 hold against every tree and every prefix code at once.
 */
module Optimality {
  import opened Sums

  /** Share of item i in the Kraft sum, in units of 2^-D. */
  function KraftShare(S: set<nat>, d: seq<nat>, D: nat, i: nat): nat
    requires i < |d|
  {
    if i in S && d[i] <= D then Pow2(D - d[i]) else 0
  }

  ghost function KraftShares(S: set<nat>, d: seq<nat>, D: nat): (r: seq<int>)
    ensures |r| == |d| && forall i :: 0 <= i < |d| ==> r[i] == KraftShare(S, d, D, i)
  {
    seq(|d|, i requires 0 <= i < |d| => KraftShare(S, d, D, i))
  }

  ghost function KraftSum(S: set<nat>, d: seq<nat>, D: nat): int {
    Sum(KraftShares(S, d, D))
  }

  /** No item of S lies deeper than D. */
  ghost predicate Bound(S: set<nat>, d: seq<nat>, D: nat) {
    forall i :: i in S ==> i < |d| && d[i] <= D
  }

  /** Depths d suit the items of S: none exceeds D and the Kraft inequality holds. */
  ghost predicate Kraft(S: set<nat>, d: seq<nat>, D: nat) {
    Bound(S, d, D) && KraftSum(S, d, D) <= Pow2(D)
  }

  function CostShare(S: set<nat>, w: seq<nat>, d: seq<nat>, i: nat): nat
    requires i < |w| == |d|
  {
    if i in S then w[i] * d[i] else 0
  }

  ghost function CostShares(S: set<nat>, w: seq<nat>, d: seq<nat>): (r: seq<int>)
    requires |w| == |d|
    ensures |r| == |d| && forall i :: 0 <= i < |d| ==> r[i] == CostShare(S, w, d, i)
  {
    seq(|d|, i requires 0 <= i < |d| => CostShare(S, w, d, i))
  }

  /** Weighted depth of the items of S. */
  ghost function Cost(S: set<nat>, w: seq<nat>, d: seq<nat>): int
    requires |w| == |d|
  {
    Sum(CostShares(S, w, d))
  }

  // ----- the effect of one change on both sums

  lemma SetDepth(S: set<nat>, w: seq<nat>, d: seq<nat>, D: nat, x: nat, v: nat)
    requires |w| == |d| && x in S && Bound(S, d, D) && v <= D
    ensures Bound(S, d[x := v], D)
    ensures KraftSum(S, d[x := v], D) == KraftSum(S, d, D) - Pow2(D - d[x]) + Pow2(D - v)
    ensures Cost(S, w, d[x := v]) == Cost(S, w, d) - w[x] * d[x] + w[x] * v
  {
    var k, c := KraftShares(S, d, D), CostShares(S, w, d);
    SumUpdate(k, x, Pow2(D - v));
    SumUpdate(c, x, w[x] * v);
    assert KraftShares(S, d[x := v], D) == k[x := Pow2(D - v)];
    assert CostShares(S, w, d[x := v]) == c[x := w[x] * v];
  }

  lemma Drop(S: set<nat>, w: seq<nat>, d: seq<nat>, D: nat, x: nat)
    requires |w| == |d| && x in S && Bound(S, d, D)
    ensures Bound(S - {x}, d, D)
    ensures KraftSum(S - {x}, d, D) == KraftSum(S, d, D) - Pow2(D - d[x])
    ensures Cost(S - {x}, w, d) == Cost(S, w, d) - w[x] * d[x]
  {
    var k, c := KraftShares(S, d, D), CostShares(S, w, d);
    SumUpdate(k, x, 0);
    SumUpdate(c, x, 0);
    assert KraftShares(S - {x}, d, D) == k[x := 0];
    assert CostShares(S - {x}, w, d) == c[x := 0];
  }

  lemma Insert(S: set<nat>, w: seq<nat>, d: seq<nat>, D: nat, z: nat, wz: nat, v: nat)
    requires |w| == |d| && z < |w| && z !in S && Bound(S, d, D) && v <= D
    ensures Bound(S + {z}, d[z := v], D)
    ensures KraftSum(S + {z}, d[z := v], D) == KraftSum(S, d, D) + Pow2(D - v)
    ensures Cost(S + {z}, w[z := wz], d[z := v]) == Cost(S, w, d) + wz * v
  {
    var k, c := KraftShares(S, d, D), CostShares(S, w, d);
    SumUpdate(k, z, Pow2(D - v));
    SumUpdate(c, z, wz * v);
    assert KraftShares(S + {z}, d[z := v], D) == k[z := Pow2(D - v)];
    assert CostShares(S + {z}, w[z := wz], d[z := v]) == c[z := wz * v];
  }

  lemma CostNonNegative(S: set<nat>, w: seq<nat>, d: seq<nat>)
    requires |w| == |d|
    ensures Cost(S, w, d) >= 0
  {
    var c := CostShares(S, w, d);
    SumZero(seq(|c|, _ => 0));
    SumMono(seq(|c|, _ => 0), c);
  }

  lemma Products(a: int, b: int, s: int, t: int)
    requires a <= b && s <= t
    ensures a * t + b * s <= a * s + b * t
    ensures a < b && s < t ==> a * t + b * s < a * s + b * t
  {
    assert a * t + b * s == a * s + b * t - (b - a) * (t - s);
    assert (b - a) * (t - s) >= 0;
  }

  /** Two active items exchange depths; the lighter one ends up deeper. */
  lemma Exchange(S: set<nat>, w: seq<nat>, d: seq<nat>, D: nat, x: nat, p: nat) returns (e: seq<nat>)
    requires |w| == |d| && x in S && p in S && Kraft(S, d, D)
    requires w[x] <= w[p] && d[x] <= d[p]
    ensures |e| == |d| && Kraft(S, e, D) && e == d[x := d[p]][p := d[x]]
    ensures Cost(S, w, e) <= Cost(S, w, d)
    ensures w[x] < w[p] && d[x] < d[p] ==> Cost(S, w, e) < Cost(S, w, d)
  {
    var d1 := d[x := d[p]];
    e := d1[p := d[x]];
    SetDepth(S, w, d, D, x, d[p]);
    SetDepth(S, w, d1, D, p, d[x]);
    Products(w[x], w[p], d[x], d[p]);
    if x == p {
      assert e == d;
    }
  }

  /** If x alone is deepest it can move up one level: the Kraft sum was odd at its scale. */
  lemma MoveUp(S: set<nat>, w: seq<nat>, d: seq<nat>, D: nat, x: nat, y: nat) returns (e: seq<nat>)
    requires |w| == |d| && x in S && y in S && x != y && Kraft(S, d, D)
    requires forall i :: i in S && i != x ==> d[i] < d[x]
    ensures |e| == |d| && d[x] > 0 && e == d[x := d[x] - 1] && Kraft(S, e, D)
    ensures Cost(S, w, e) <= Cost(S, w, d)
  {
    var L := d[x];
    assert d[y] < L;
    e := d[x := L - 1];
    Drop(S, w, d, D, x);
    RoomAbove(S - {x}, d, D, L);
    SetDepth(S, w, d, D, x, L - 1);
    MulMono(w[x], L - 1, L);
  }

  /** Items above level L contribute an even multiple of the share of level L. */
  lemma RestIsEven(T: set<nat>, d: seq<nat>, D: nat, L: nat) returns (q: int)
    requires L <= D && forall i :: i in T ==> i < |d| && d[i] < L
    ensures KraftSum(T, d, D) == 2 * Pow2(D - L) * q
  {
    var b := seq(|d|, i requires 0 <= i < |d| => if i in T then Pow2(L - 1 - d[i]) else 0);
    var rest := KraftShares(T, d, D);
    forall i | 0 <= i < |d|
      ensures rest[i] == 2 * Pow2(D - L) * b[i]
    {
      if i in T {
        Pow2Add(D - L + 1, L - 1 - d[i]);
      }
    }
    SumScale(rest, b, 2 * Pow2(D - L));
    q := Sum(b);
  }

  lemma RoomAbove(T: set<nat>, d: seq<nat>, D: nat, L: nat)
    requires 0 < L <= D && forall i :: i in T ==> i < |d| && d[i] < L
    requires KraftSum(T, d, D) + Pow2(D - L) <= Pow2(D)
    ensures KraftSum(T, d, D) + Pow2(D - (L - 1)) <= Pow2(D)
  {
    var q := RestIsEven(T, d, D, L);
    var u, t := Pow2(D - L), Pow2(L - 1);
    Pow2Add(D - L + 1, L - 1);
    assert Pow2(D) == 2 * u * t;
    if q >= t {
      MulMono(2 * u, t, q);
      assert false;
    }
    MulMono(2 * u, q + 1, t);
    Distribute(2 * u, q, 1);
  }

  lemma {:induction false} Deepest(S: set<nat>, d: seq<nat>) returns (p: nat)
    requires S != {} && forall i :: i in S ==> i < |d|
    ensures p in S && forall i :: i in S ==> d[i] <= d[p]
    decreases |S|
  {
    p :| p in S;
    if S != {p} {
      var q := Deepest(S - {p}, d);
      p := if d[p] >= d[q] then p else q;
    }
  }

  /** The lightest item x can be brought to a depth it shares with another item and nobody exceeds. */
  lemma {:induction false} ShareDeepest(S: set<nat>, w: seq<nat>, d: seq<nat>, D: nat, x: nat, y: nat)
    returns (e: seq<nat>, q: nat)
    requires |w| == |d| && x in S && y in S && x != y && Kraft(S, d, D)
    requires forall i :: i in S ==> w[x] <= w[i]
    requires forall i :: i in S ==> d[i] <= d[x]
    ensures |e| == |d| && Kraft(S, e, D) && Cost(S, w, e) <= Cost(S, w, d)
    ensures q in S && q != x && e[q] == e[x] && forall i :: i in S ==> e[i] <= e[x]
    ensures e[x] <= d[x] && e == d[x := e[x]]
    decreases d[x]
  {
    assert y in S - {x};
    q := Deepest(S - {x}, d);
    if d[q] == d[x] {
      e := d;
    } else {
      e := MoveUp(S, w, d, D, x, y);
      e, q := ShareDeepest(S, w, e, D, x, y);
    }
  }

  /** The active items after x and y have been merged into the new item z. */
  function MergedSet(S: set<nat>, x: nat, y: nat, z: nat): set<nat> {
    S - {x, y} + {z}
  }

  /** x is an item of S, and none of them weighs less. */
  ghost predicate Least(S: set<nat>, w: seq<nat>, x: nat) {
    x in S && x < |w| && forall i :: i in S ==> i < |w| && w[x] <= w[i]
  }

  /**
   The exchange argument: whatever depths serve S, merging its two lightest
   items leaves a problem whose depths cost at least wx + wy less.
   */
  lemma MergeIsSafe(S: set<nat>, w: seq<nat>, d: seq<nat>, D: nat, x: nat, y: nat, z: nat)
    returns (e: seq<nat>)
    requires |w| == |d| && Least(S, w, x) && Least(S - {x}, w, y) && z < |w| && z !in S
    requires Kraft(S, d, D)
    ensures |e| == |d| && Kraft(MergedSet(S, x, y, z), e, D)
    ensures Cost(S, w, d) >= w[x] + w[y] + Cost(MergedSet(S, x, y, z), w[z := w[x] + w[y]], e)
  {
    var p := Deepest(S, d);
    var d1 := Exchange(S, w, d, D, x, p);
    var d2, q := ShareDeepest(S, w, d1, D, x, y);
    var d3 := Exchange(S, w, d2, D, y, q);
    e := MergeDepths(S, w, d3, D, x, y, z);
  }

  /** Two items that share a depth cannot be at depth 0. */
  lemma BelowTop(S: set<nat>, d: seq<nat>, D: nat, x: nat, y: nat)
    requires x in S && y in S && x != y && Kraft(S, d, D) && d[x] == d[y]
    ensures d[x] > 0
  {
    SumAtLeast(KraftShares(S, d, D), x, y);
  }

  /** Two items at the same depth become one item a level higher. */
  lemma MergeDepths(S: set<nat>, w: seq<nat>, d: seq<nat>, D: nat, x: nat, y: nat, z: nat)
    returns (e: seq<nat>)
    requires |w| == |d| && x in S && y in S && x != y && z < |w| && z !in S
    requires Kraft(S, d, D) && d[x] == d[y]
    ensures |e| == |d| && Kraft(MergedSet(S, x, y, z), e, D) && e[z] + 1 == d[x]
    ensures Cost(S, w, d) == w[x] + w[y] + Cost(MergedSet(S, x, y, z), w[z := w[x] + w[y]], e)
  {
    hide KraftSum, Cost;
    BelowTop(S, d, D, x, y);
    var L := d[x];
    e := d[z := L - 1];
    Drop(S, w, d, D, x);
    Drop(S - {x}, w, d, D, y);
    Insert(S - {x} - {y}, w, d, D, z, w[x] + w[y], L - 1);
    assert S - {x} - {y} + {z} == MergedSet(S, x, y, z);
    assert Pow2(D - (L - 1)) == 2 * Pow2(D - L);
    assert w[x] * L + w[y] * L == (w[x] + w[y]) + (w[x] + w[y]) * (L - 1);
  }

  // ----- whole runs of the merge loop

  /** Every way of serving the initial problem costs at least acc plus some way of serving the current one. */
  ghost predicate Bounded(S0: set<nat>, w0: seq<nat>, acc: nat, S: set<nat>, w: seq<nat>)
    requires |w0| == |w|
  {
    forall d0: seq<nat>, D: nat :: |d0| == |w0| && Kraft(S0, d0, D) ==>
      exists d: seq<nat> :: |d| == |w| && Kraft(S, d, D) && Cost(S0, w0, d0) >= acc + Cost(S, w, d)
  }

  lemma BoundedStart(S0: set<nat>, w0: seq<nat>)
    ensures Bounded(S0, w0, 0, S0, w0)
  {
    forall d0: seq<nat>, D: nat | |d0| == |w0| && Kraft(S0, d0, D)
      ensures exists d: seq<nat> :: |d| == |w0| && Kraft(S0, d, D) && Cost(S0, w0, d0) >= 0 + Cost(S0, w0, d)
    {
      assert |d0| == |w0| && Kraft(S0, d0, D) && Cost(S0, w0, d0) >= 0 + Cost(S0, w0, d0);
    }
  }

  lemma BoundedStep(S0: set<nat>, w0: seq<nat>, acc: nat, S: set<nat>, w: seq<nat>, x: nat, y: nat, z: nat)
    requires |w0| == |w| && Bounded(S0, w0, acc, S, w)
    requires Least(S, w, x) && Least(S - {x}, w, y) && z < |w| && z !in S
    ensures Bounded(S0, w0, acc + w[x] + w[y], MergedSet(S, x, y, z), w[z := w[x] + w[y]])
  {
    var T, v, acc' := MergedSet(S, x, y, z), w[z := w[x] + w[y]], acc + w[x] + w[y];
    forall d0: seq<nat>, D: nat | |d0| == |w0| && Kraft(S0, d0, D)
      ensures exists d: seq<nat> :: |d| == |v| && Kraft(T, d, D) && Cost(S0, w0, d0) >= acc' + Cost(T, v, d)
    {
      var d: seq<nat> :| |d| == |w| && Kraft(S, d, D) && Cost(S0, w0, d0) >= acc + Cost(S, w, d);
      var e := MergeIsSafe(S, w, d, D, x, y, z);
      assert |e| == |v| && Kraft(T, e, D) && Cost(S0, w0, d0) >= acc' + Cost(T, v, e);
    }
  }

  /** When the loop ends no way of serving the initial problem costs less than what was accumulated. */
  lemma BoundedEnd(S0: set<nat>, w0: seq<nat>, acc: nat, S: set<nat>, w: seq<nat>)
    requires |w0| == |w| && Bounded(S0, w0, acc, S, w)
    ensures forall d0: seq<nat>, D: nat :: |d0| == |w0| && Kraft(S0, d0, D) ==> Cost(S0, w0, d0) >= acc
  {
    forall d0: seq<nat>, D: nat | |d0| == |w0| && Kraft(S0, d0, D)
      ensures Cost(S0, w0, d0) >= acc
    {
      var d: seq<nat> :| |d| == |w| && Kraft(S, d, D) && Cost(S0, w0, d0) >= acc + Cost(S, w, d);
      CostNonNegative(S, w, d);
    }
  }
}
