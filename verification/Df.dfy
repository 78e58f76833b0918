/** df.c: counting the free blocks by taking them all from the chain, in memory only. */
module Df {
  import opened FreeChain

  /** sblock, and the disk it was read from. */
  class FreeCount {
    const isize: int
    const fsize: int
    const disk: Disk
    var nfree: int
    const free: array<int>

    ghost predicate Sizes() {
      free.Length == NICFREE
    }

    constructor (isize: int, fsize: int, disk: Disk, nfree: int, sfree: Slots)
      ensures Sizes() && fresh(free) && free[..] == sfree
      ensures this.isize == isize && this.fsize == fsize && this.disk == disk && this.nfree == nfree
    {
      this.isize, this.fsize, this.disk, this.nfree := isize, fsize, disk, nfree;
      free := new int[NICFREE](i requires 0 <= i < NICFREE => sfree[i]);
    }

    /** Takes one block. */
    method Alloc(ghost s: seq<int>) returns (b: int)
      requires Sizes()
      modifies this`nfree, free
      ensures b != 0 ==> isize <= b < fsize
      ensures old(Chain(nfree, free[..], disk, s)) && (forall x :: x in s ==> isize <= x < fsize) ==>
                if s == [] then b == 0 else b == s[0] != 0 && Chain(nfree, free[..], disk, s[1..])
    {
      ghost var good := Chain(nfree, free[..], disk, s) && (forall x :: x in s ==> isize <= x < fsize);
      assert good && s != [] ==> s[0] in s;
      assert good && s != [] ==> if nfree > 1 then Chain(nfree - 1, free[..], disk, s[1..])
                                 else s[0] in disk && Chain(disk[s[0]].nfree, disk[s[0]].free, disk, s[1..]);
      nfree := nfree - 1;
      var i := nfree;
      if i < 0 || i >= NICFREE {
        return 0;
      }
      b := free[i];
      if b == 0 {
        return;
      }
      if b < isize || b >= fsize {
        return 0;
      }
      if nfree <= 0 {
        var buf := FreeListAt(disk, b);
        nfree := buf.nfree;
        CopySlots(free, buf.free);
        assert good ==> Chain(nfree, free[..], disk, s[1..]);
      }
      assert good ==> Chain(nfree, free[..], disk, s[1..]);
    }

    /** The number of free blocks that is printed. */
    method CountFree(ghost s: seq<int>) returns (n: nat)
      requires Sizes() && Chain(nfree, free[..], disk, s)
      requires forall x :: x in s ==> isize <= x < fsize
      modifies this`nfree, free
      ensures n == |s|
    {
      n := 0;
      var b := Alloc(s);
      while b != 0
        invariant n <= |s|
        invariant if n == |s| then b == 0 else b == s[n] != 0 && Chain(nfree, free[..], disk, s[n + 1..])
        decreases |s| - n
      {
        n := n + 1;
        assert n < |s| ==> s[n..][1..] == s[n + 1..];
        assert forall x :: x in s[n..] ==> x in s;
        b := Alloc(s[n..]);
      }
    }
  }
}
