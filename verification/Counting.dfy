/** Tables of flags: counting the true entries, and cyclic search for a false one. */
module Counting {
  function Count(s: seq<bool>): (r: nat)
    ensures r <= |s|
  {
    if |s| == 0 then 0 else Count(s[..|s| - 1]) + if s[|s| - 1] then 1 else 0
  }

  lemma {:induction false} CountSet(s: seq<bool>, i: nat)
    requires i < |s| && !s[i]
    ensures Count(s[i := true]) == Count(s) + 1
  {
    var n := |s| - 1;
    if i < n {
      CountSet(s[..n], i);
      assert s[i := true][..n] == s[..n][i := true];
    } else {
      assert s[i := true][..n] == s[..n];
    }
  }

  lemma {:induction false} CountNone(s: seq<bool>)
    requires forall i :: 0 <= i < |s| ==> !s[i]
    ensures Count(s) == 0
  {
    if |s| > 0 {
      CountNone(s[..|s| - 1]);
    }
  }

  /** The count tells whether a false entry is left. */
  lemma {:induction false} CountFull(s: seq<bool>)
    ensures Count(s) == |s| <==> forall i :: 0 <= i < |s| ==> s[i]
  {
    if |s| > 0 {
      CountFull(s[..|s| - 1]);
    }
  }

  /** An interval of trues at one end. */
  lemma {:induction false} CountBelow(s: seq<bool>, k: nat)
    requires k <= |s| && forall i :: 0 <= i < |s| ==> (s[i] <==> i < k)
    ensures Count(s) == k
  {
    if |s| > k {
      CountBelow(s[..|s| - 1], k);
    } else if |s| > 0 {
      CountBelow(s[..k - 1], k - 1);
    }
  }

  lemma {:induction false} CountFrom(s: seq<bool>, k: nat)
    requires k <= |s| && forall i :: 0 <= i < |s| ==> (s[i] <==> i >= k)
    ensures Count(s) == |s| - k
  {
    if |s| > k {
      CountFrom(s[..|s| - 1], k);
    } else {
      CountNone(s);
    }
  }

  /** One at either end. */
  lemma {:induction false} CountEnds(s: seq<bool>, k: nat, m: nat)
    requires k <= m <= |s| && forall i :: 0 <= i < |s| ==> (s[i] <==> i < k || i >= m)
    ensures Count(s) == k + |s| - m
  {
    if |s| > m {
      CountEnds(s[..|s| - 1], k, m);
    } else {
      CountBelow(s, k);
    }
  }

  /** How far a cyclic walk over n slots has to go from i to j. */
  function Distance(i: nat, j: nat, n: nat): nat
    requires i < n && j < n
  {
    if i <= j then j - i else j + n - i
  }

  /** Slot s is the first one not gone on a cyclic walk that starts at i. */
  ghost predicate Chosen(gone: seq<bool>, i: nat, s: int) {
    && i < |gone| && 0 <= s < |gone| && !gone[s]
    && forall k :: 0 <= k < |gone| && !gone[k] ==> Distance(i, s, |gone|) <= Distance(i, k, |gone|)
  }

  lemma ChosenUnique(gone: seq<bool>, i: nat, s: int, t: int)
    requires Chosen(gone, i, s) && Chosen(gone, i, t)
    ensures s == t
  {
  }

  lemma ChosenFree(gone: seq<bool>, i: nat, s: int)
    requires Chosen(gone, i, s)
    ensures 0 <= s < |gone| && !gone[s]
  {
  }

  /** The slot after i, in a circle of n. */
  function Next(i: nat, n: nat): (r: nat)
    requires i < n
    ensures r == if i + 1 < n then i + 1 else 0
  {
    (i + 1) % n
  }

  /** The next slot that is not flagged, in a circle. */
  method NextFree(flg: array<bool>, i0: nat, n: nat, ghost j: nat, ghost o: nat) returns (i: nat)
    requires i0 < n <= flg.Length && j < n && !flg[j] && o < n
    ensures i < n && !flg[i] && Distance(i, j, n) <= Distance(i0, j, n)
    ensures i == i0 || Distance(i, j, n) < Distance(i0, j, n)
    ensures forall k :: 0 <= k < n && !flg[k] && Distance(o, i0, n) <= Distance(o, k, n) ==>
              Distance(o, i, n) <= Distance(o, k, n)
  {
    i := i0;
    while flg[i]
      invariant i < n && Distance(i, j, n) <= Distance(i0, j, n)
      invariant i == i0 || Distance(i, j, n) < Distance(i0, j, n)
      invariant forall k :: 0 <= k < n && !flg[k] && Distance(o, i0, n) <= Distance(o, k, n) ==>
                  Distance(o, i, n) <= Distance(o, k, n)
      decreases Distance(i, j, n)
    {
      i := Next(i, n);
    }
  }
}
