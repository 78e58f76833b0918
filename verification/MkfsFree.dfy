/** The free list of mkfs.c: a stack in the superblock and on disk, filled in interleaved order. */
module MkfsFree {
  import opened Sums
  import opened Counting
  import opened Lists
  import opened Rounding
  import opened FreeChain

  const MAXFN: nat := 1000

  // ----- the interleaving

  /** The slots taken by adr[..j], whose entries are counted from 1. */
  function Used(adr: seq<nat>, n: nat): (r: seq<bool>)
    ensures |r| == n
  {
    seq(n, i requires 0 <= i < n => i + 1 in adr)
  }

  /** Where the search for entry j starts: f_m slots after the one before. */
  function StartAt(adr: seq<nat>, j: nat, m: nat, n: nat): nat
    requires j <= |adr| && n > 0
  {
    if j == 0 || adr[j - 1] == 0 then 0 else (adr[j - 1] - 1 + m) % n
  }

  /** Every entry is the first free slot from its starting point on. */
  ghost predicate Interleaved(adr: seq<nat>, m: nat, n: nat) {
    && n > 0 && (forall j :: 0 <= j < |adr| ==> 1 <= adr[j] <= n)
    && forall j :: 0 <= j < |adr| ==> Chosen(Used(adr[..j], n), StartAt(adr, j, m, n), adr[j] - 1)
  }

  /** adr is a permutation of 1..n. */
  ghost predicate Permutation(adr: seq<nat>, n: nat) {
    && |adr| == n && (forall j :: 0 <= j < n ==> 1 <= adr[j] <= n)
    && Distinct(adr)
    && forall v :: 1 <= v <= n ==> v in adr
  }

  /** What the loop knows: the entries made so far are those the flags show. */
  ghost predicate Making(flg: seq<bool>, done: seq<nat>, m: nat, n: nat) {
    Interleaved(done, m, n) && Distinct(done) && flg == Used(done, n) && Count(flg) == |done|
  }

  lemma MakeOne(flg: seq<bool>, done: seq<nat>, m: nat, n: nat, s: nat)
    requires Making(flg, done, m, n) && Chosen(flg, StartAt(done, |done|, m, n), s)
    ensures Making(flg[s := true], done + [s + 1], m, n)
  {
    hide Chosen, StartAt, Distance, Interleaved;
    SomeSlots(done, m, n);
    ChosenFree(flg, StartAt(done, |done|, m, n), s);
    InterleaveOne(done, m, n, s);
    CountSet(flg, s);
    assert Used(done + [s + 1], n) == flg[s := true];
    assert s + 1 !in done by {
      assert !Used(done, n)[s];
    }
  }

  lemma SomeSlots(done: seq<nat>, m: nat, n: nat)
    requires Interleaved(done, m, n)
    ensures n > 0
  {
  }

  lemma InterleaveOne(done: seq<nat>, m: nat, n: nat, s: nat)
    requires Interleaved(done, m, n) && s < n && Chosen(Used(done, n), StartAt(done, |done|, m, n), s)
    ensures Interleaved(done + [s + 1], m, n)
  {
    var more := done + [s + 1];
    hide Chosen, StartAt, Used, Distance;
    forall j | 0 <= j < |more|
      ensures Chosen(Used(more[..j], n), StartAt(more, j, m, n), more[j] - 1)
    {
      assert more[..j] == done[..j];
      StartSame(done, s + 1, j, m, n);
      if j == |done| {
        assert done[..j] == done;
      }
    }
  }

  lemma StartSame(done: seq<nat>, x: nat, j: nat, m: nat, n: nat)
    requires j <= |done| && n > 0
    ensures StartAt(done + [x], j, m, n) == StartAt(done, j, m, n)
  {
  }

  lemma NextStart(done: seq<nat>, s: nat, m: nat, n: nat)
    requires n > 0
    ensures StartAt(done + [s + 1], |done| + 1, m, n) == (s + m) % n
  {
  }

  lemma AllMade(flg: seq<bool>, done: seq<nat>, m: nat, n: nat)
    requires Making(flg, done, m, n) && |done| == n
    ensures Permutation(done, n) && Interleaved(done, m, n)
  {
    hide Chosen, StartAt, Distance;
    CountFull(flg);
    forall v | 1 <= v <= n
      ensures v in done
    {
      assert flg[v - 1];
    }
  }

  lemma NoneMade(flg: seq<bool>, m: nat, n: nat)
    requires 0 < n == |flg| && forall i :: 0 <= i < n ==> !flg[i]
    ensures Making(flg, [], m, n) && StartAt([], 0, m, n) == 0
  {
    CountNone(flg);
  }

  lemma Unused(flg: seq<bool>, done: seq<nat>, m: nat, n: nat) returns (free: nat)
    requires Making(flg, done, m, n) && |done| < n
    ensures free < |flg| == n && !flg[free]
  {
    CountFull(flg);
    free :| free < n && !flg[free];
  }

  lemma FirstFree(flg: seq<bool>, start: nat, i: nat)
    requires start < |flg| && i < |flg| && !flg[i]
    requires forall k :: 0 <= k < |flg| && !flg[k] && Distance(start, start, |flg|) <= Distance(start, k, |flg|) ==>
               Distance(start, i, |flg|) <= Distance(start, k, |flg|)
    ensures Chosen(flg, start, i)
  {
  }

  /** Every slot is used once. */
  method Interleave(m: nat, n: nat) returns (adr: seq<nat>)
    requires 0 < n < MAXFN
    ensures Permutation(adr, n) && Interleaved(adr, m, n)
  {
    hide Making, Permutation, Chosen, StartAt, Distance;
    var flg := new bool[MAXFN](_ => false);
    var a := new nat[MAXFN];
    var i: nat := 0;
    NoneMade(flg[..n], m, n);
    assert a[..0] == [];
    for j := 0 to n
      invariant i < n && Making(flg[..n], a[..j], m, n)
      invariant i == StartAt(a[..j], j, m, n)
    {
      ghost var was := flg[..n];
      ghost var free := Unused(was, a[..j], m, n);
      ghost var start := i;
      i := NextFree(flg, i, n, free, start);
      FirstFree(was, start, i);
      a[j] := i + 1;
      flg[i] := true;
      assert flg[..n] == was[i := true];
      assert a[..j + 1] == a[..j] + [i + 1];
      MakeOne(was, a[..j], m, n, i);
      NextStart(a[..j], i, m, n);
      i := (i + m) % n;
    }
    AllMade(flg[..n], a[..n], m, n);
    return a[..n];
  }

  // ----- the order of the list

  /** The data blocks among d - adr[0], .., d - adr[k-1], the last one first. */
  function Layer(adr: seq<nat>, k: nat, d: int, lo: int, hi: int): seq<int>
    requires k <= |adr|
  {
    if k == 0 then []
    else
      var f := d - adr[k - 1];
      (if lo <= f < hi then [f] else []) + Layer(adr, k - 1, d, lo, hi)
  }

  /** The data blocks below d, a multiple of |adr|: the lowest cylinder first. */
  function Stacked(adr: seq<nat>, d: int, lo: int, hi: int): seq<int>
    requires |adr| > 0
    decreases if d > 0 then d else 0
  {
    if d <= 0 then [] else Stacked(adr, d - |adr|, lo, hi) + Layer(adr, |adr|, d, lo, hi)
  }

  /** A layer holds the data blocks whose distance from d is an entry. */
  lemma {:induction false} LayerMembers(adr: seq<nat>, k: nat, d: int, lo: int, hi: int)
    requires k <= |adr| && Distinct(adr)
    ensures forall b :: b in Layer(adr, k, d, lo, hi) <==> lo <= b < hi && d - b in adr[..k]
    ensures Distinct(Layer(adr, k, d, lo, hi))
  {
    if k > 0 {
      LayerMembers(adr, k - 1, d, lo, hi);
      assert adr[..k] == adr[..k - 1] + [adr[k - 1]];
      var f := d - adr[k - 1];
      if lo <= f < hi {
        assert d - f !in adr[..k - 1];
        JoinDistinct([f], Layer(adr, k - 1, d, lo, hi));
      }
    }
  }

  lemma NotYetPushed(adr: seq<nat>, i: nat, d: int, lo: int, hi: int, s0: seq<int>)
    requires Permutation(adr, |adr|) && i < |adr| && forall b :: b in s0 ==> b >= d
    ensures d - adr[i] !in Layer(adr, i, d, lo, hi) + s0
  {
    hide Layer;
    LayerMembers(adr, i, d, lo, hi);
    assert adr[i] !in adr[..i];
  }

  /** A whole layer is one cylinder. */
  lemma {:induction false} LayerRange(adr: seq<nat>, d: int, lo: int, hi: int)
    requires Permutation(adr, |adr|)
    ensures Distinct(Layer(adr, |adr|, d, lo, hi))
    ensures forall b :: b in Layer(adr, |adr|, d, lo, hi) <==> lo <= b < hi && d - |adr| <= b < d
  {
    hide Layer;
    var n := |adr|;
    LayerMembers(adr, n, d, lo, hi);
    assert adr[..n] == adr;
    assert forall v :: v in adr <==> 1 <= v <= n;
  }

  /** The list holds every data block below d once. */
  lemma {:induction false} StackedMembers(adr: seq<nat>, q: nat, lo: nat, hi: nat)
    requires |adr| > 0 && Permutation(adr, |adr|)
    ensures
      var d := Times(q, |adr|);
      && Distinct(Stacked(adr, d, lo, hi))
      && forall b :: b in Stacked(adr, d, lo, hi) <==> lo <= b < hi && b < d
  {
    hide Layer, Permutation, Distinct;
    if q > 0 {
      var n, d := |adr|, Times(q, |adr|);
      StackedMembers(adr, q - 1, lo, hi);
      LayerRange(adr, d, lo, hi);
      JoinDistinct(Stacked(adr, d - n, lo, hi), Layer(adr, n, d, lo, hi));
    } else {
      NothingTwice();
    }
  }

  lemma NothingTwice()
    ensures Distinct([])
  {
  }

  // ----- the superblock

  class Filsys {
    const isize: nat
    const fsize: nat
    var nfree: int
    const free: array<int>
    var tfree: int
    var disk: Disk

    ghost predicate Sizes() {
      free.Length == NICFREE
    }

    constructor (isize: nat, fsize: nat, disk: Disk)
      ensures this.isize == isize && this.fsize == fsize && this.disk == disk
      ensures Sizes() && fresh(free) && nfree == 0 && tfree == 0
    {
      this.isize, this.fsize, this.disk := isize, fsize, disk;
      nfree, tfree := 0, 0;
      free := new int[NICFREE](_ => 0);
    }

    /** The list in memory and on disk is the stack s, top first. */
    ghost predicate Holding(s: seq<int>)
      reads this`nfree, this`disk, free
    {
      Sizes() && Chain(nfree, free[..], disk, s)
    }

    /** Push. The end mark 0 goes into an empty superblock. */
    method BFree(bno: int, ghost s: seq<int>)
      requires Sizes() && if bno == 0 then nfree == 0 && s == [] else Holding(s) && bno !in s
      modifies this`nfree, this`tfree, this`disk, free
      ensures Holding(if bno == 0 then [] else [bno] + s)
      ensures tfree == old(tfree) + 1
      ensures forall b :: b in old(disk) && b != bno ==> b in disk && disk[b] == old(disk[b])
    {
      tfree := tfree + 1;
      if nfree >= NICFREE {
        disk := disk[bno := FreeList(nfree, free[..])];
        LinkedAway(nfree, free[..], old(disk), s, true, bno, disk[bno]);
        nfree := 0;
      }
      ghost var was := free[..];
      free[nfree] := bno;
      nfree := nfree + 1;
      if bno != 0 {
        assert ([bno] + s)[1..] == s;
        if nfree > 1 {
          SameBelow(nfree - 1, was, free[..], disk, s);
        }
      }
    }

    /** Pop; running out of blocks ends the program. */
    method Alloc(ghost s: seq<int>) returns (ok: bool, bno: int)
      requires Holding(s)
      modifies this`nfree, this`tfree, free
      ensures ok <==> s != []
      ensures ok ==> bno == s[0] && Holding(s[1..]) && tfree == old(tfree) - 1
    {
      ghost var deeper := s != [] && nfree == 1;
      assert s != [] ==> if deeper then Chain(disk[s[0]].nfree, disk[s[0]].free, disk, s[1..])
                         else Chain(nfree - 1, free[..], disk, s[1..]);
      tfree := tfree - 1;
      nfree := nfree - 1;
      bno := free[nfree];
      if bno == 0 {
        return false, 0;
      }
      ok := true;
      if nfree <= 0 {
        var fbuf := FreeListAt(disk, bno);
        nfree := fbuf.nfree;
        CopySlots(free, fbuf.free);
      }
    }

    /** wtfs: a block that is not on the free list is written. */
    method WriteAddresses(bno: int, addr: seq<int>, ghost s: seq<int>)
      requires Holding(s) && bno !in s
      modifies this`disk
      ensures Holding(s) && disk == old(disk)[bno := Indirect(addr)]
    {
      LinkedAway(nfree, free[..], disk, s, true, bno, Indirect(addr));
      disk := disk[bno := Indirect(addr)];
    }

    /** Builds the free list. */
    method BFList(f_m: nat, f_n: nat) returns (adr: seq<nat>)
      requires Sizes() && nfree == 0 && 0 < f_n < MAXFN && 0 < isize && 0 < fsize
      modifies this`nfree, this`tfree, this`disk, free
      ensures Permutation(adr, f_n) && Interleaved(adr, f_m, f_n)
      ensures Holding(Stacked(adr, RoundUp(fsize - 1, f_n), isize, fsize))
      ensures tfree == |Stacked(adr, RoundUp(fsize - 1, f_n), isize, fsize)|
    {
      hide Holding, RoundUp, Interleaved;
      adr := Interleave(f_m, f_n);
      BFree(0, []);
      tfree := 0;
      var d := fsize - 1;
      while d % f_n != 0
        invariant Sizes() && Holding([]) && tfree == 0
        invariant fsize - 1 <= d && RoundUp(d, f_n) == RoundUp(fsize - 1, f_n)
        decreases RoundUp(d, f_n) - d
      {
        RoundUpNext(d, f_n);
        d := d + 1;
      }
      MultipleRounds(d, f_n);
      ghost var top, s := d, [];
      assert Stacked(adr, d, isize, fsize) + [] == Stacked(adr, d, isize, fsize);
      while d > 0
        invariant Sizes() && Holding(s) && tfree == |s|
        invariant forall b :: b in s ==> b >= d
        invariant Stacked(adr, top, isize, fsize) == Stacked(adr, d, isize, fsize) + s
        decreases d
      {
        s := PushLayer(adr, d, s);
        d := d - f_n;
      }
      assert [] + s == s;
    }

    /** One cylinder's worth of blocks. */
    method PushLayer(adr: seq<nat>, d: int, ghost s0: seq<int>) returns (ghost s: seq<int>)
      requires Sizes() && Holding(s0) && tfree == |s0| && Permutation(adr, |adr|) && 0 < isize
      requires forall b :: b in s0 ==> b >= d
      modifies this`nfree, this`tfree, this`disk, free
      ensures Sizes() && Holding(s) && tfree == |s| && s == Layer(adr, |adr|, d, isize, fsize) + s0
      ensures forall b :: b in s ==> b >= d - |adr|
    {
      hide Holding, Permutation;
      s := s0;
      var i := 0;
      while i < |adr|
        invariant 0 <= i <= |adr| && Sizes() && Holding(s) && tfree == |s|
        invariant s == Layer(adr, i, d, isize, fsize) + s0
      {
        var f := d - adr[i];
        if f < fsize && f >= isize {
          NotYetPushed(adr, i, d, isize, fsize, s0);
          BFree(f, s);
          s := [f] + s;
        }
        i := i + 1;
      }
      LayerRange(adr, d, isize, fsize);
    }
  }

  /**
   Exactly the blocks below the rounded-up size are free; the last block is
   one of them unless f_n divides its number.
   */
  lemma BlocksOnList(adr: seq<nat>, isize: nat, fsize: nat)
    requires 0 < |adr| && Permutation(adr, |adr|) && fsize > 0
    ensures
      var d := RoundUp(fsize - 1, |adr|);
      && Distinct(Stacked(adr, d, isize, fsize))
      && (forall b :: b in Stacked(adr, d, isize, fsize) <==> isize <= b < fsize && b < d)
      && d >= fsize - 1 && (d == fsize - 1 <==> (fsize - 1) % |adr| == 0)
  {
    hide RoundUp, Times, Stacked, Distinct, Permutation;
    var n := |adr|;
    RoundedUp(fsize - 1, n);
    if (fsize - 1) % n == 0 {
      MultipleRounds(fsize - 1, n);
    } else {
      RoundUpNext(fsize - 1, n);
    }
    var q := MultipleOf(fsize - 1, n);
    StackedMembers(adr, q, isize, fsize);
  }

  /** Only the slots below n matter. */
  lemma {:induction false} SameBelow(n: int, free: seq<int>, other: seq<int>, disk: Disk, s: seq<int>)
    requires Chain(n, free, disk, s) && |other| == |free| && forall k :: 0 <= k < n ==> other[k] == free[k]
    ensures Chain(n, other, disk, s)
    decreases |s|
  {
    if s != [] && n > 1 {
      SameBelow(n - 1, free, other, disk, s[1..]);
    }
  }
}