/** dcopy.c freelist: all blocks that are left go onto the free list, in the order alloc gives them. */
module DcopyFree {
  import opened FreeChain
  import opened DcopyAlloc
  import opened Lists

  // ----- one group after the other

  /** Where group grp of n entries goes: to the block that the last group leads to. */
  function Written(w: Disk, frblk: int, n: int, grp: Slots): Disk {
    if frblk != 0 then w[frblk := FreeList(n, grp)] else w
  }

  /** The chain so far: done has become whole groups, the last of which leads to frblk; w is on disk. */
  ghost predicate Grown(nfree: int, free: seq<int>, frblk: int, w: Disk, done: seq<int>) {
    && (forall b :: b in w ==> b in done)
    && if done == [] then frblk == 0
       else frblk == done[|done| - 1] != 0 && frblk !in w && Linked(nfree, free, w, done, false)
  }

  /** In addition cur is in the upper slots of the group being filled. */
  ghost predicate Filling(nfree: int, free: seq<int>, frblk: int, w: Disk, done: seq<int>, grp: seq<int>,
                          cur: seq<int>) {
    && Grown(nfree, free, frblk, w, done)
    && Distinct(done + cur) && |cur| < NICFREE && Holds(NICFREE, grp, cur)
    && (forall k :: 0 <= k < NICFREE - |cur| ==> grp[k] == 0)
    && (done == [] ==> free == grp)
  }

  /** One more block, and there is still room. */
  lemma Put(nfree: int, free: seq<int>, frblk: int, w: Disk, done: seq<int>, grp: seq<int>, cur: seq<int>, x: int)
    requires Filling(nfree, free, frblk, w, done, grp, cur) && |cur| + 1 < NICFREE
    requires x != 0 && Distinct(done + (cur + [x]))
    ensures
      var g := grp[NICFREE - 1 - |cur| := x];
      Filling(nfree, if done == [] then g else free, frblk, w, done, g, cur + [x])
  {
  }

  /** One more block, and the group is full: it is written, and a new one begun. */
  lemma PutLast(nfree: int, free: seq<int>, frblk: int, w: Disk, done: seq<int>, grp: seq<int>, cur: seq<int>, x: int)
    requires Filling(nfree, free, frblk, w, done, grp, cur) && |cur| + 1 == NICFREE
    requires x != 0 && Distinct(done + (cur + [x]))
    ensures
      var g := grp[0 := x];
      Grown(if frblk == 0 then NICFREE else nfree, if frblk == 0 then g else free, x,
            Written(w, frblk, NICFREE, g), done + (cur + [x]))
  {
    var g, c := grp[0 := x], cur + [x];
    var w' := Written(w, frblk, NICFREE, g);
    HoldsLinked(NICFREE, g, w', c, false);
    if done == [] {
      assert done + c == c;
    } else {
      Continued(nfree, free, w, w', done, c, false);
    }
    NotInBoth(done, c, NICFREE - 1);
  }

  /** There are no more blocks: the partial group moves down to slots 1, 2, ... and the list ends. */
  lemma NoMore(nfree: int, free: seq<int>, frblk: int, w: Disk, done: seq<int>, grp: seq<int>, cur: seq<int>,
               g: seq<int>)
    requires Filling(nfree, free, frblk, w, done, grp, cur)
    requires Holds(|cur| + 1, g, cur) && g[0] == 0
    ensures
      Chain(if frblk == 0 then |cur| + 1 else nfree, if frblk == 0 then g else free,
            Written(w, frblk, |cur| + 1, g), done + cur)
    ensures cur != [] ==> cur[0] !in Written(w, frblk, |cur| + 1, g)
  {
    var w' := Written(w, frblk, |cur| + 1, g);
    HoldsLinked(|cur| + 1, g, w', cur, true);
    if done == [] {
      assert done + cur == cur;
    } else {
      Continued(nfree, free, w, w', done, cur, true);
    }
    if cur != [] {
      NotInBoth(done, cur, 0);
    }
  }

  /** A group that has been moved down. */
  lemma MovedDown(grp: seq<int>, g: seq<int>, cur: seq<int>)
    requires |cur| < NICFREE && Holds(NICFREE, grp, cur) && |g| == NICFREE
    requires forall k :: 1 <= k <= |cur| ==> g[k] == grp[NICFREE - 1 - |cur| + k]
    ensures Holds(|cur| + 1, g, cur)
  {
    forall k | 0 <= k < |cur|
      ensures g[|cur| - k] == cur[k] != 0
    {
      assert grp[NICFREE - 1 - k] == cur[k];
    }
  }

  class Super {
    const alloc: Allocator
    var disk: Disk
    var nfree: int
    const free: array<int>    // super1.s_free
    var tfree: nat
    const buf: array<int>     // in.b_free.df_free

    // how far freelist has come
    ghost var w: Disk
    ghost var done: seq<int>
    ghost var cur: seq<int>
    ghost var complete: bool

    ghost predicate Sizes() {
      && free != buf && free.Length == buf.Length == NICFREE
      && alloc.all0.flg != alloc.all1.flg
    }

    constructor (alloc: Allocator)
      requires alloc.all0.flg != alloc.all1.flg
      ensures Sizes() && fresh(free) && fresh(buf) && this.alloc == alloc
      ensures forall k :: 0 <= k < NICFREE ==> free[k] == 0
    {
      this.alloc := alloc;
      disk, nfree, tfree := map[], 0, 0;
      free := new int[NICFREE](_ => 0);
      buf := new int[NICFREE](_ => 0);
    }

    /** w is what has been written to blocks of the chain. */
    ghost predicate OnDisk(w: Disk)
      reads this`disk
    {
      forall b :: b in w ==> b in disk && disk[b] == w[b]
    }

    /** Entries fp+1..fp+i move to 1..i, in ascending order. */
    method Shift(a: array<int>, fp: nat, i: nat)
      requires a.Length == NICFREE && fp + i == NICFREE - 1
      modifies a
      ensures forall k :: 1 <= k <= i ==> a[k] == old(a[fp + k])
      ensures a[0] == old(a[0]) && a[NICFREE - 1] == old(a[NICFREE - 1])
    {
      var c: nat := 0;
      while c < i
        invariant c <= i && a[0] == old(a[0])
        invariant forall k :: 1 <= k <= c ==> a[k] == old(a[fp + k])
        invariant forall k :: c < k < NICFREE ==> a[k] == old(a[k])
      {
        c := c + 1;
        a[c] := a[fp + c];
      }
    }

    method ClearBuf()
      requires Sizes()
      modifies buf
      ensures forall k :: 0 <= k < NICFREE ==> buf[k] == 0
    {
      for i := 0 to NICFREE
        invariant forall k :: 0 <= k < i ==> buf[k] == 0
      {
        buf[i] := 0;
      }
    }

    /** The group that ends here is completed and goes where the last one leads to. */
    method EndGroup(a: array<int>, fp0: nat, i0: nat, frblk: int) returns (next: int)
      requires Sizes() && (if frblk == 0 then a == free else a == buf)
      requires fp0 < NICFREE && if a[fp0] == 0 then fp0 + i0 == NICFREE - 1 else fp0 == 0 && i0 == NICFREE
      modifies this`disk, this`nfree, a
      ensures old(a[fp0]) != 0 ==> a[..] == old(a[..]) && next == a[0]
      ensures old(a[fp0]) == 0 ==> next == a[NICFREE - 1] == old(a[NICFREE - 1]) && a[0] == old(a[0])
      ensures old(a[fp0]) == 0 ==> forall k :: 1 <= k <= i0 ==> a[k] == old(a[fp0 + k])
      ensures
        var n := if old(a[fp0]) == 0 then i0 + 1 else i0;
        disk == Written(old(disk), frblk, n, a[..]) && nfree == if frblk == 0 then n else old(nfree)
    {
      var fp, i := fp0, i0;
      if a[fp] == 0 {
        Shift(a, fp, i);
        fp := fp + i;
        i := i + 1;
      }
      if frblk != 0 {
        disk := disk[frblk := FreeList(i, buf[..])];
      } else {
        nfree := i;
      }
      next := a[fp];
    }

    /** The blocks taken so far, after those the files have. */
    ghost predicate Counted(files: seq<int>, s: seq<int>)
      reads this`tfree, alloc`given
    {
      alloc.given == files + s && tfree == |s|
    }

    /** Room for more calls of alloc. */
    ghost function Left(): nat
      reads alloc`given
    {
      if |alloc.given| <= alloc.fsize then alloc.fsize - |alloc.given| else 0
    }

    /** *--fp = alloc() */
    method NextBlock(a: array<int>, i: nat, ghost files: seq<int>, ghost s: seq<int>) returns (x: int)
      requires Sizes() && alloc.Valid() && i < NICFREE && (a == free || a == buf) && Counted(files, s)
      modifies a, this`tfree, alloc, alloc.all0, alloc.all1, alloc.all0.flg, alloc.all1.flg
      ensures alloc.Valid() && a[..] == old(a[..])[NICFREE - 1 - i := x] && (x == 0 <==> old(alloc.Exhausted()))
      ensures Counted(files, Taken(s, x)) && Distinct(Taken(s, x))
      ensures if x == 0 then alloc.Exhausted() && Left() == old(Left()) else Left() < old(Left())
    {
      hide Allocator.Valid, Allocator.StartSlot, Allocator.GoneIn, Allocator.Which, Distinct;
      x := alloc.Alloc();
      alloc.AtMostAll();
      a[NICFREE - 1 - i] := x;
      if x != 0 {
        tfree := tfree + 1;
      }
      assert alloc.given == files + Taken(s, x);
      SuffixDistinct(files, Taken(s, x));
    }

    /**
     Where the loop is: s has been taken; either the chain is being grown by
     group grp, or it is complete and only the extra turn is to come, which
     writes to a block that the chain does not lead to.
     */
    ghost predicate State(grp: seq<int>, fr: seq<int>, i: nat, frblk: int, s: seq<int>)
      reads this`disk, this`nfree, this`w, this`done, this`cur, this`complete
    {
      && OnDisk(w) && |grp| == NICFREE && (frblk != 0 ==> frblk in s)
      && if complete then i == 0 && frblk != 0 && frblk !in w && Chain(nfree, fr, w, s)
         else s == done + cur && i == |cur| && Filling(nfree, fr, frblk, w, done, grp, cur)
    }

    /** What has been taken once alloc has answered x. */
    ghost function Taken(s: seq<int>, x: int): (r: seq<int>)
      ensures forall b :: b in s ==> b in r
    {
      if x == 0 then s else s + [x]
    }

    /** A turn that leaves room in the group. */
    ghost method AddToGroup(a: array<int>, i: nat, frblk: int, x: int, grp: seq<int>, fr: seq<int>, s: seq<int>)
      requires Sizes() && (if frblk == 0 then a == free else a == buf && free[..] == fr)
      requires 0 < i < NICFREE && x != 0 && !complete && Distinct(s + [x])
      requires State(grp, fr, i - 1, frblk, s) && a[..] == grp[NICFREE - i := x]
      modifies this`cur
      ensures State(a[..], free[..], i, frblk, s + [x])
    {
      hide Distinct, Filling;
      assert s + [x] == done + (cur + [x]);
      FillingFacts(fr, frblk, grp);
      Put(nfree, fr, frblk, w, done, grp, cur, x);
      cur := cur + [x];
    }

    lemma FillingFacts(fr: seq<int>, frblk: int, grp: seq<int>)
      requires Filling(nfree, fr, frblk, w, done, grp, cur)
      ensures frblk == 0 <==> done == []
    {
    }

    /** A turn that ends the group; x is what alloc gave last, and i counts the entries with it. */
    method GroupEnd(a: array<int>, i: nat, frblk: int, x: int, ghost grp: seq<int>, ghost fr: seq<int>,
                    ghost s: seq<int>)
      returns (next: int)
      requires Sizes() && (if frblk == 0 then a == free else a == buf && free[..] == fr)
      requires i <= NICFREE && if x == 0 then i < NICFREE else i == NICFREE
      requires State(grp, fr, if x == 0 then i else i - 1, frblk, s)
      requires a[..] == grp[NICFREE - 1 - (if x == 0 then i else i - 1) := x]
      requires x != 0 ==> !complete && Distinct(s + [x])
      modifies this`disk, this`nfree, this`w, this`done, this`cur, this`complete, a, buf
      ensures old(complete) ==> next == 0
      ensures next == 0 ==> x == 0 && Chain(nfree, free[..], disk, s)
      ensures next != 0 ==> State(buf[..], free[..], 0, next, Taken(s, x)) && (complete <==> x == 0)
      ensures OnlyWritten(old(disk), frblk)
    {
      hide Filling, Chain, Linked, Distinct, Grown, Holds, State, Before;
      StateBefore(grp, fr, if x == 0 then i else i - 1, frblk, s);
      next := EndGroup(a, NICFREE - (if x == 0 then i + 1 else i), i, frblk);
      Settle(a[..], i, frblk, x, grp, fr, s, next, old(disk), old(nfree));
      if next != 0 {
        ClearBuf();
        Restarted(next, Taken(s, x));
      } else {
        ChainFrame(nfree, free[..], w, disk, s);
      }
    }

    /** Nothing but the block the last group leads to has been written. */
    ghost predicate OnlyWritten(before: Disk, frblk: int)
      reads this`disk
    {
      forall b :: b != frblk || frblk == 0 ==> (b in disk <==> b in before) && (b in disk ==> disk[b] == before[b])
    }

    /** Blocks outside s are as they were. */
    ghost predicate Unwritten(before: Disk, s: seq<int>)
      reads this`disk
    {
      forall b :: b !in s ==> (b in disk <==> b in before) && (b in disk ==> disk[b] == before[b])
    }

    /** The chain with group g at its end: complete, or leading on to block next. */
    ghost predicate Settled(next: int, s: seq<int>, fr: seq<int>)
      reads this`disk, this`nfree, this`w, this`done, this`cur, this`complete
    {
      && OnDisk(w)
      && if complete then Chain(nfree, fr, w, s) && (next != 0 ==> next !in w && next in s)
         else s == done && cur == [] && done != [] && next != 0 && Distinct(done) && Grown(nfree, fr, next, w, done)
    }

    /** What a group end means for the chain; before and n are disk and nfree as they were. */
    ghost method Settle(g: seq<int>, i: nat, frblk: int, x: int, grp: seq<int>, fr: seq<int>, s: seq<int>, next: int,
                        before: Disk, n: int)
      requires |g| == |grp| == NICFREE && i <= NICFREE && if x == 0 then i < NICFREE else i == NICFREE
      requires Before(before, n, grp, fr, if x == 0 then i else i - 1, frblk, s)
      requires
        var was := grp[NICFREE - 1 - (if x == 0 then i else i - 1) := x];
        if x != 0 then g == was && next == g[0]
        else next == g[NICFREE - 1] == was[NICFREE - 1] && g[0] == was[0]
             && forall k :: 1 <= k <= i ==> g[k] == was[NICFREE - 1 - i + k]
      requires
        var m := if x == 0 then i + 1 else i;
        disk == Written(before, frblk, m, g) && nfree == if frblk == 0 then m else n
      requires x != 0 ==> !complete && Distinct(s + [x])
      modifies this`w, this`done, this`cur, this`complete
      ensures Settled(next, Taken(s, x), if frblk == 0 then g else fr) && (complete <==> x == 0)
      ensures old(complete) ==> next == 0
    {
      hide Filling, Chain, Linked, Distinct, Grown, Holds;
      if !complete {
        ghost var w' := Written(w, frblk, if x == 0 then i + 1 else i, g);
        if x != 0 {
          GroupFull(grp, fr, frblk, s, x, n);
          done, cur := done + (cur + [x]), [];
        } else {
          GroupLast(grp, fr, frblk, s, g, i, n);
          complete := true;
        }
        w := w';
      }
    }

    /** State, for the disk before the group was written. */
    ghost predicate Before(before: Disk, n: int, grp: seq<int>, fr: seq<int>, i: nat, frblk: int, s: seq<int>)
      reads this`w, this`done, this`cur, this`complete
    {
      && (forall b :: b in w ==> b in before && before[b] == w[b]) && |grp| == NICFREE && (frblk != 0 ==> frblk in s)
      && if complete then i == 0 && frblk != 0 && frblk !in w && Chain(n, fr, w, s)
         else s == done + cur && i == |cur| && Filling(n, fr, frblk, w, done, grp, cur)
    }

    lemma StateBefore(grp: seq<int>, fr: seq<int>, i: nat, frblk: int, s: seq<int>)
      requires State(grp, fr, i, frblk, s)
      ensures Before(disk, nfree, grp, fr, i, frblk, s) && |grp| == NICFREE && (frblk != 0 ==> frblk in s)
    {
    }

    lemma Restarted(next: int, s: seq<int>)
      requires Sizes() && Settled(next, s, free[..]) && next != 0 && forall k :: 0 <= k < NICFREE ==> buf[k] == 0
      ensures State(buf[..], free[..], 0, next, s)
    {
      hide Chain, Linked, Filling, Distinct;
      if !complete {
        Restart(nfree, free[..], next, w, done, buf[..]);
        assert done + [] == done;
      }
    }

    lemma ChainFrame(n: int, fr: seq<int>, w: Disk, d: Disk, s: seq<int>)
      requires Chain(n, fr, w, s) && forall b :: b in w ==> b in d && d[b] == w[b]
      ensures Chain(n, fr, d, s)
    {
      LinkedFrame(n, fr, w, d, s, true);
    }

    lemma Restart(n: int, fr: seq<int>, frblk: int, w: Disk, done: seq<int>, zeros: seq<int>)
      requires Grown(n, fr, frblk, w, done) && done != [] && Distinct(done)
      requires |zeros| == NICFREE && forall k :: 0 <= k < NICFREE ==> zeros[k] == 0
      ensures Filling(n, fr, frblk, w, done, zeros, [])
    {
      assert done + [] == done;
    }

    lemma GroupFull(grp: seq<int>, fr: seq<int>, frblk: int, s: seq<int>, x: int, n: int)
      requires !complete && |grp| == NICFREE && s == done + cur && |cur| == NICFREE - 1
      requires Filling(n, fr, frblk, w, done, grp, cur) && x != 0 && Distinct(s + [x])
      ensures s + [x] == done + (cur + [x])
      ensures
        var g := grp[0 := x];
        Grown(if frblk == 0 then NICFREE else n, if frblk == 0 then g else fr, x,
              Written(w, frblk, NICFREE, g), done + (cur + [x]))
    {
      assert s + [x] == done + (cur + [x]);
      PutLast(n, fr, frblk, w, done, grp, cur, x);
    }

    lemma GroupLast(grp: seq<int>, fr: seq<int>, frblk: int, s: seq<int>, g: seq<int>, i: nat, n: int)
      requires !complete && |grp| == |g| == NICFREE && s == done + cur && |cur| == i
      requires Filling(n, fr, frblk, w, done, grp, cur)
      requires
        var was := grp[NICFREE - 1 - i := 0];
        && (forall k :: 1 <= k <= i ==> g[k] == was[NICFREE - 1 - i + k])
        && g[0] == was[0] && g[NICFREE - 1] == was[NICFREE - 1]
      ensures Chain(if frblk == 0 then i + 1 else n, if frblk == 0 then g else fr, Written(w, frblk, i + 1, g), s)
      ensures g[NICFREE - 1] != 0 ==> g[NICFREE - 1] !in Written(w, frblk, i + 1, g) && g[NICFREE - 1] in s
    {
      assert cur != [] ==> grp[NICFREE - 1] == cur[0];
      MovedDown(grp, g, cur);
      NoMore(n, fr, frblk, w, done, grp, cur, g);
    }

    /** One turn of the loop; it is the last one if frblk' is 0. */
    method Turn(a: array<int>, i: nat, frblk: int, ghost files: seq<int>, ghost s: seq<int>)
      returns (a': array<int>, i': nat, frblk': int, stop: bool, ghost s': seq<int>)
      requires Sizes() && alloc.Valid() && Counted(files, s)
      requires i < NICFREE && if frblk == 0 then a == free else a == buf
      requires State(a[..], free[..], i, frblk, s) && (complete ==> alloc.Exhausted())
      modifies this, free, buf, alloc, alloc.all0, alloc.all1, alloc.all0.flg, alloc.all1.flg
      ensures alloc.Valid() && Counted(files, s')
      ensures stop ==> alloc.Exhausted() && Chain(nfree, free[..], disk, s')
      ensures !stop ==> i' < NICFREE && if frblk' == 0 then a' == free else a' == buf
      ensures !stop ==> State(a'[..], free[..], i', frblk', s') && (complete ==> alloc.Exhausted())
      ensures !stop ==> Left() < old(Left()) || (Left() == old(Left()) && complete && !old(complete))
      ensures OnlyWritten(old(disk), frblk) && (frblk != 0 ==> frblk in s) && forall b :: b in s ==> b in s'
    {
      hide Allocator.Valid, Allocator.Exhausted, Filling, Chain, Linked, Distinct, State, Before, Left;
      StateBefore(a[..], free[..], i, frblk, s);
      a', i', frblk', stop := a, i, frblk, false;
      ghost var grp, fr := a[..], free[..];
      var x := NextBlock(a, i, files, s);
      s' := Taken(s, x);
      if x != 0 {
        i' := i' + 1;
      }
      if i' == NICFREE || x == 0 {
        frblk' := GroupEnd(a, i', frblk, x, grp, fr, s);
        a', i', stop := buf, 0, frblk' == 0;
      } else {
        AddToGroup(a, i', frblk, x, grp, fr, s);
      }
    }

    /** Allocates what is left; returns it in order. The files keep what they have. */
    method Freelist() returns (ghost s: seq<int>)
      requires Sizes() && alloc.Valid() && forall k :: 0 <= k < NICFREE ==> free[k] == 0
      modifies this, free, buf, alloc, alloc.all0, alloc.all1, alloc.all0.flg, alloc.all1.flg
      ensures alloc.Valid() && alloc.Exhausted() && alloc.given == old(alloc.given) + s
      ensures Chain(nfree, free[..], disk, s) && tfree == |s|
      ensures Unwritten(old(disk), s)
    {
      hide Allocator.Valid, Allocator.Exhausted, Filling, Chain, Linked, Distinct, State, Left;
      nfree, tfree := 0, 0;
      alloc.node0 := Inode(0, false, false);
      alloc.aflg := false;
      w, done, cur, complete := map[], [], [], false;
      NothingYet(free[..]);
      s := AllTurns(alloc.given);
    }

    method AllTurns(ghost files: seq<int>) returns (ghost s: seq<int>)
      requires Sizes() && alloc.Valid() && Counted(files, []) && !complete
      requires State(free[..], free[..], 0, 0, [])
      modifies this, free, buf, alloc, alloc.all0, alloc.all1, alloc.all0.flg, alloc.all1.flg
      ensures alloc.Valid() && alloc.Exhausted() && Counted(files, s)
      ensures Chain(nfree, free[..], disk, s) && Unwritten(old(disk), s)
    {
      hide Allocator.Valid, Allocator.Exhausted, Filling, Chain, Linked, Distinct, State, Left, Sizes;
      s := [];
      var i: nat, frblk, a, stop := 0, 0, free, false;
      while !stop
        invariant alloc.Valid() && Counted(files, s)
        invariant stop ==> alloc.Exhausted() && Chain(nfree, free[..], disk, s)
        invariant !stop ==> i < NICFREE && if frblk == 0 then a == free else a == buf
        invariant !stop ==> State(a[..], free[..], i, frblk, s) && (complete ==> alloc.Exhausted())
        invariant Unwritten(old(disk), s)
        decreases !stop, Left(), if complete then 0 else 1
      {
        a, i, frblk, stop, s := Turn(a, i, frblk, files, s);
      }
    }

    lemma NothingYet(fr: seq<int>)
      requires |fr| == NICFREE && forall k :: 0 <= k < NICFREE ==> fr[k] == 0
      requires w == map[] && done == cur == [] && !complete
      ensures State(fr, fr, 0, 0, [])
    {
    }
  }
}