/** Lists of block numbers without repetition. */
module Lists {
  /** Nothing occurs twice. */
  ghost predicate Distinct(s: seq<int>) {
    forall i, j :: 0 <= i < j < |s| ==> s[i] != s[j]
  }

  /** s without its k-th entry. */
  function Without(s: seq<int>, k: nat): seq<int>
    requires k < |s|
  {
    s[..k] + s[k + 1..]
  }

  lemma WithoutMembers(s: seq<int>, k: nat)
    requires k < |s| && Distinct(s)
    ensures Distinct(Without(s, k))
    ensures forall b :: b in Without(s, k) <==> b in s && b != s[k]
  {
    var t := Without(s, k);
    forall b | b in s && b != s[k]
      ensures b in t
    {
      var i :| 0 <= i < |s| && s[i] == b;
      assert t[if i < k then i else i - 1] == b;
    }
  }

  /** No more different blocks than the range has, and as many if all of it is there. */
  lemma {:induction false} DistinctCount(s: seq<int>, lo: int, hi: int)
    requires lo <= hi && Distinct(s) && forall b :: b in s ==> lo <= b < hi
    ensures |s| <= hi - lo
    ensures (forall b :: lo <= b < hi ==> b in s) ==> |s| == hi - lo
    decreases hi - lo
  {
    assert |s| > 0 ==> s[0] in s;
    if lo == hi {
    } else if k: nat :| k < |s| && s[k] == hi - 1 {
      WithoutMembers(s, k);
      DistinctCount(Without(s, k), lo, hi - 1);
    } else {
      DistinctCount(s, lo, hi - 1);
      assert hi - 1 !in s;
    }
  }

  lemma SuffixDistinct(a: seq<int>, b: seq<int>)
    requires Distinct(a + b)
    ensures Distinct(b)
  {
    assert forall k :: 0 <= k < |b| ==> (a + b)[|a| + k] == b[k];
  }

  lemma NotInBoth(done: seq<int>, cur: seq<int>, k: nat)
    requires Distinct(done + cur) && k < |cur|
    ensures cur[k] !in done
  {
    assert (done + cur)[|done| + k] == cur[k];
    assert forall j :: 0 <= j < |done| ==> (done + cur)[j] == done[j];
  }

  lemma JoinDistinct(a: seq<int>, b: seq<int>)
    requires Distinct(a) && Distinct(b) && forall x :: x in a ==> x !in b
    ensures Distinct(a + b)
  {
    forall i, j | 0 <= i < j < |a + b|
      ensures (a + b)[i] != (a + b)[j]
    {
      if i < |a| <= j {
        assert a[i] in a && b[j - |a|] in b;
      }
    }
  }
}
