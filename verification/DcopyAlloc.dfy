/** The two-ended cylinder allocator of dcopy.c. */
module DcopyAlloc {
  import opened Sums
  import opened Counting
  import opened Lists
  import opened Rounding

  const MAXCYL: nat := 1600

  /** What alloc looks at in the inode of the file it serves. */
  datatype Inode = Inode(atime: int, isDir: bool, isExec: bool)

  /** Slot i of the cylinder that starts at base cannot be handed out. */
  predicate Outside(base: int, i: int, fmin: int, fsize: int) {
    base + i < fmin || base + i >= fsize
  }

  /** The slots that are gone: given away, or not part of the data area. */
  function Gone(flg: seq<bool>, base: int, fmin: int, fsize: int): (r: seq<bool>)
    ensures |r| == |flg|
    ensures forall i :: 0 <= i < |flg| ==> (r[i] <==> flg[i] || Outside(base, i, fmin, fsize))
  {
    seq(|flg|, i requires 0 <= i < |flg| => flg[i] || Outside(base, i, fmin, fsize))
  }

  /** struct all: the state of the cylinder blocks are currently taken from. */
  class Cylinder {
    var baseblock: int
    var pblk: int
    var nalloc: nat
    const flg: array<bool>
    var lastb: nat

    constructor ()
      ensures fresh(flg) && flg.Length == MAXCYL && forall i :: 0 <= i < MAXCYL ==> !flg[i]
      ensures baseblock == 0 && nalloc == 0 && pblk == 0 && lastb == 0
    {
      baseblock, pblk, nalloc, lastb := 0, 0, 0, 0;
      flg := new bool[MAXCYL](_ => false);
    }

    /** nalloc counts the slots that are gone, and beyond that the requests turned away. */
    ghost predicate Counted(cyl: nat, fmin: int, fsize: int)
      reads this`baseblock, this`nalloc, flg
      requires cyl <= flg.Length
    {
      Count(Gone(flg[..cyl], baseblock, fmin, fsize)) == if nalloc <= cyl then nalloc else cyl
    }

    /** Clear the flags for a new cylinder. */
    method Clear()
      modifies flg
      ensures forall i :: 0 <= i < flg.Length ==> !flg[i]
    {
      for i := 0 to flg.Length
        invariant forall k :: 0 <= k < i ==> !flg[k]
      {
        flg[i] := false;
      }
    }

    /** The search for a slot: from i0 on, in a circle, until one in the data area is free. */
    method TakeSlot(i0: nat, cyl: nat, fmin: int, fsize: int, ghost j: nat) returns (blk: int)
      requires i0 < cyl <= flg.Length && j < cyl
      requires !flg[j] && !Outside(baseblock, j, fmin, fsize)
      modifies flg, this`lastb
      ensures fmin <= blk < fsize && lastb < cyl && blk == baseblock + lastb
      ensures Chosen(Gone(old(flg[..cyl]), baseblock, fmin, fsize), i0, blk - baseblock)
      ensures Gone(flg[..cyl], baseblock, fmin, fsize)
           == Gone(old(flg[..cyl]), baseblock, fmin, fsize)[blk - baseblock := true]
    {
      var i: nat := i0;
      blk := fmin - 1;
      ghost var was := flg[..];
      while blk < fmin || blk >= fsize
        invariant i < cyl && |was| == flg.Length
        invariant blk < fmin || blk >= fsize ==> !flg[j]
        invariant fmin <= blk < fsize ==> i == lastb && blk == baseblock + i && !was[i] && flg[i]
        invariant forall k :: 0 <= k < cyl && !Outside(baseblock, k, fmin, fsize) ==>
                    (fmin <= blk < fsize && k == i) || flg[k] == was[k]
        invariant forall k :: 0 <= k < cyl && was[k] ==> flg[k]
        invariant forall k :: 0 <= k < cyl && !was[k] && !Outside(baseblock, k, fmin, fsize) ==>
                    Distance(i0, i, cyl) <= Distance(i0, k, cyl)
        decreases if fmin <= blk < fsize then 0 else 1, Distance(i, j, cyl), if flg[i] then 0 else 1
      {
        i := NextFree(flg, i, cyl, j, i0);
        flg[i] := true;
        blk := baseblock + i;
        lastb := i;
      }
      assert Gone(flg[..cyl], baseblock, fmin, fsize) == Gone(was[..cyl], baseblock, fmin, fsize)[i := true];
      assert was[..cyl] == old(flg[..cyl]);
    }

  }

  /** The first data block does not begin a cylinder, and its cylinder is not the last one. */
  predicate Separate(fmin: nat, fsize: nat, cyl: nat)
    requires cyl > 0 && fsize > 0
  {
    fmin % cyl != 0 && fmin / cyl != (fsize - 1) / cyl
  }

  /** The number of cylinders from the first to the last. */
  function Between(fmin: nat, fsize: nat, cyl: nat): nat
    requires cyl > 0 && fsize > 0
  {
    if fmin / cyl < (fsize - 1) / cyl then (fsize - 1) / cyl - fmin / cyl else 0
  }

  lemma NotSeparate(fmin: nat, fsize: nat, cyl: nat)
    requires cyl > 0 && fsize > 0 && fmin % cyl == 0
    ensures !Separate(fmin, fsize, cyl)
  {
  }

  /** Where the first cylinder is. */
  lemma FirstEnd(fmin: nat, cyl: nat)
    requires cyl > 0 && fmin % cyl != 0
    ensures RoundUp(fmin, cyl) - cyl == fmin - fmin % cyl && fmin % cyl < cyl
  {
    FirstMultiple(fmin, cyl);
  }

  lemma FirstMultiple(fmin: nat, cyl: nat)
    requires cyl > 0 && fmin % cyl != 0
    ensures RoundUp(fmin, cyl) - cyl == cyl * (fmin / cyl) == fmin - fmin % cyl && fmin % cyl < cyl
  {
    DivMod(fmin, cyl);
    RoundUpOf(fmin, cyl, fmin / cyl, fmin % cyl);
  }

  /** Where the last cylinder is. */
  lemma LastEnd(fsize: nat, cyl: nat)
    requires cyl > 0 && fsize > 0
    ensures RoundUp(fsize, cyl) - cyl < fsize <= RoundUp(fsize, cyl)
  {
    LastMultiple(fsize, cyl);
  }

  lemma LastMultiple(fsize: nat, cyl: nat)
    requires cyl > 0 && fsize > 0
    ensures RoundUp(fsize, cyl) - cyl == cyl * ((fsize - 1) / cyl)
    ensures RoundUp(fsize, cyl) - cyl < fsize <= RoundUp(fsize, cyl)
  {
    DivMod(fsize - 1, cyl);
    RoundUpOf(fsize, cyl, (fsize - 1) / cyl, (fsize - 1) % cyl + 1);
  }

  /** How far apart they are. */
  lemma Ends(fmin: nat, fsize: nat, cyl: nat)
    requires cyl > 0 && fmin < fsize && fmin % cyl != 0
    ensures RoundUp(fsize, cyl) - RoundUp(fmin, cyl) == Times(Between(fmin, fsize, cyl), cyl)
    ensures Separate(fmin, fsize, cyl) <==> Between(fmin, fsize, cyl) > 0
  {
    FirstMultiple(fmin, cyl);
    LastMultiple(fsize, cyl);
    var p, q := fmin / cyl, (fsize - 1) / cyl;
    if q < p {
      MulMono(cyl, q + 1, p);
      Distribute(cyl, q, 1);
      assert false;
    }
    TimesIs(q - p, cyl);
    Distribute(cyl, q, -p);
  }

  class Allocator {
    const all0: Cylinder    // young files, from the first cylinder up
    const all1: Cylinder    // old files, from the last cylinder down
    const fmin: nat
    const fsize: nat
    const cylsize: nat
    const stepsize: nat
    const bsize: nat
    var aflg: bool
    var xflg: bool
    var oldtime: int
    var node0: Inode
    var overlap: bool
    var ovw: nat
    ghost var given: seq<int>    // the blocks handed out, in order
    ghost var gap: nat           // number of cylinders between the two ends

    function All(which: nat): Cylinder {
      if which == 0 then all0 else all1
    }

    predicate InCylinder(c: Cylinder, b: int)
      reads c`baseblock
    {
      c.baseblock <= b < c.baseblock + cylsize
    }

    predicate Flagged(c: Cylinder, b: int)
      reads c`baseblock, c.flg
    {
      InCylinder(c, b) && b - c.baseblock < c.flg.Length && c.flg[b - c.baseblock]
    }

    /** What the flags and the two ends say about block b. */
    predicate Handed(b: int)
      reads this`overlap, this`ovw, all0`baseblock, all1`baseblock, all0.flg, all1.flg
    {
      if overlap then !InCylinder(All(ovw), b) || Flagged(All(ovw), b)
      else
        || b < all0.baseblock || b >= all1.baseblock + cylsize
        || Flagged(all0, b) || Flagged(all1, b)
    }

    ghost predicate Sizes() {
      && all0 != all1 && all0.flg != all1.flg && all0.flg.Length == all1.flg.Length == MAXCYL
      && 0 < stepsize <= cylsize <= MAXCYL && 0 < fmin < fsize
    }

    /** Where the two ends are. */
    ghost predicate Placed()
      reads this`overlap, this`ovw, this`gap, all0`baseblock, all1`baseblock
    {
      && all1.baseblock - all0.baseblock == Times(gap, cylsize)
      && (overlap <==> gap == 0) && ovw < 2
      && fmin < all0.baseblock + cylsize && all1.baseblock < fsize
    }

    /** given is what the flags say. */
    ghost predicate Agrees()
      reads this`overlap, this`ovw, this`given, all0`baseblock, all1`baseblock, all0.flg, all1.flg
    {
      && Distinct(given)
      && (forall b :: b in given ==> fmin <= b < fsize)
      && forall b :: fmin <= b < fsize ==> (b in given <==> Handed(b))
    }

    ghost predicate Counted(c: Cylinder)
      reads c`baseblock, c`nalloc, c.flg
    {
      cylsize <= c.flg.Length && c.Counted(cylsize, fmin, fsize)
    }

    ghost predicate Valid()
      reads this`overlap, this`ovw, this`given, this`gap, all0`baseblock, all1`baseblock, all0`nalloc, all1`nalloc
      reads all0.flg, all1.flg
    {
      && Sizes() && Placed() && Agrees()
      && (if overlap then Counted(All(ovw)) else Counted(all0) && Counted(all1))
    }

    /** The structure that serves the current inode. */
    function Which(): (w: nat)
      reads this`overlap, this`ovw, this`aflg, this`node0, this`oldtime
    {
      if overlap then ovw else if aflg && node0.atime <= oldtime && !node0.isDir then 1 else 0
    }

    /** The slots of ap's cylinder that are gone. */
    ghost function GoneIn(ap: Cylinder): seq<bool>
      requires cylsize <= ap.flg.Length
      reads ap`baseblock, ap.flg
    {
      Gone(ap.flg[..cylsize], ap.baseblock, fmin, fsize)
    }

    /** ap has a slot for the request that has just been counted in nalloc. */
    ghost predicate Ready(ap: Cylinder)
      reads this`overlap, this`ovw, this`given, this`gap, all0`baseblock, all1`baseblock, all0`nalloc, all1`nalloc
      reads ap`baseblock, ap`nalloc, all0.flg, all1.flg, ap.flg
    {
      && Sizes() && Placed() && Agrees()
      && (if overlap then ap == All(ovw) else ap == all0 || ap == all1)
      && (!overlap ==> Counted(if ap == all0 then all1 else all0))
      && 0 < ap.nalloc <= cylsize
      && Count(GoneIn(ap)) == ap.nalloc - 1
    }

    /** Every data block has been given away. */
    ghost predicate Exhausted()
      reads this`given
    {
      forall b :: fmin <= b < fsize ==> b in given
    }

    lemma FullCylinder(c: Cylinder)
      requires Sizes() && Counted(c) && c.nalloc >= cylsize
      ensures forall b :: fmin <= b < fsize && InCylinder(c, b) ==> Flagged(c, b)
    {
      var g := Gone(c.flg[..cylsize], c.baseblock, fmin, fsize);
      CountFull(g);
      forall b | fmin <= b < fsize && InCylinder(c, b)
        ensures Flagged(c, b)
      {
        assert g[b - c.baseblock];
      }
    }

    lemma SomeSlot(c: Cylinder) returns (j: nat)
      requires Sizes() && c.flg.Length == MAXCYL && Count(Gone(c.flg[..cylsize], c.baseblock, fmin, fsize)) < cylsize
      ensures j < cylsize && !c.flg[j] && !Outside(c.baseblock, j, fmin, fsize)
    {
      var g := Gone(c.flg[..cylsize], c.baseblock, fmin, fsize);
      CountFull(g);
      j :| 0 <= j < |g| && !g[j];
    }

    /** The state main sets up. */
    ghost predicate Initial()
      reads this`overlap, this`given, all0, all1, all0.flg, all1.flg
    {
      && all0 != all1 && all0.flg != all1.flg && all0.flg.Length == all1.flg.Length == MAXCYL
      && 0 < stepsize <= cylsize <= MAXCYL && fmin < fsize
      && !overlap && given == []
      && (forall i :: 0 <= i < MAXCYL ==> !all0.flg[i] && !all1.flg[i])
      && all0.baseblock == RoundUp(fmin, cylsize) - cylsize && all0.nalloc == fmin % cylsize
      && all1.baseblock == RoundUp(fsize, cylsize) - cylsize && all1.nalloc == RoundUp(fsize, cylsize) - fsize
    }

    constructor (fmin: nat, fsize: nat, cylsize: nat, stepsize: nat, bsize: nat, aflg: bool, xflg: bool, oldtime: int)
      requires 0 < stepsize <= cylsize <= MAXCYL && fmin < fsize
      ensures this.fmin == fmin && this.fsize == fsize && this.cylsize == cylsize && this.stepsize == stepsize
      ensures this.bsize == bsize && this.aflg == aflg && this.xflg == xflg && this.oldtime == oldtime
      ensures fresh(all0) && fresh(all1) && fresh(all0.flg) && fresh(all1.flg)
      ensures Initial() && ovw == 0 && gap == Between(fmin, fsize, cylsize)
      ensures all0.lastb == all1.lastb == 0 && all0.pblk == all1.pblk == 1
    {
      this.fmin, this.fsize, this.cylsize, this.stepsize, this.bsize := fmin, fsize, cylsize, stepsize, bsize;
      this.aflg, this.xflg, this.oldtime := aflg, xflg, oldtime;
      node0 := Inode(0, false, false);
      overlap, ovw, given := false, 0, [];
      gap := Between(fmin, fsize, cylsize);
      all0 := new Cylinder();
      all1 := new Cylinder();
      new;
      hide RoundUp;
      RoundedUp(fmin, cylsize);
      LastEnd(fsize, cylsize);
      all0.baseblock := RoundUp(fmin, cylsize) - cylsize;
      all0.nalloc := fmin % cylsize;
      all0.pblk, all1.pblk := 1, 1;
      var d := RoundUp(fsize, cylsize);
      all1.baseblock := d - cylsize;
      all1.nalloc := d - fsize;
    }

    /** The set-up serves exactly when the first cylinder is begun by inodes and is not also the last one. */
    lemma InitialIsValid()
      requires Initial() && ovw < 2 && gap == Between(fmin, fsize, cylsize)
      ensures Valid() <==> Separate(fmin, fsize, cylsize)
    {
      hide *;
      InitialSizes();
      if fmin % cylsize == 0 {
        NotSeparate(fmin, fsize, cylsize);
        NothingInFirst();
      } else {
        Ends(fmin, fsize, cylsize);
        if Separate(fmin, fsize, cylsize) {
          InitialPlaced();
          InitialCounted0();
          InitialCounted1();
          InitialAgrees();
          InitialAll();
        } else {
          OneCylinder();
        }
      }
    }

    lemma InitialSizes()
      requires Initial()
      ensures 0 < stepsize <= cylsize <= MAXCYL && fmin < fsize
      ensures all0.flg.Length == all1.flg.Length == MAXCYL && !overlap
    {
    }

    /** If the data blocks begin a cylinder, the allocator starts in the one before, which has none to give. */
    lemma NothingInFirst()
      requires Initial() && fmin % cylsize == 0
      ensures !Valid()
      ensures forall i :: 0 <= i < cylsize ==> Outside(all0.baseblock, i, fmin, fsize)
    {
      hide RoundUp;
      MultipleRounds(fmin, cylsize);
      CountFull(Gone(all0.flg[..cylsize], all0.baseblock, fmin, fsize));
    }

    /** In a file system of one cylinder both ends hand out the same slots. */
    lemma OneCylinder()
      requires Initial() && fmin % cylsize != 0 && Between(fmin, fsize, cylsize) == gap == 0
      ensures !Valid()
      ensures all0.baseblock == all1.baseblock && GoneIn(all0) == GoneIn(all1)
      ensures forall i: nat, s, t :: Chosen(GoneIn(all0), i, s) && Chosen(GoneIn(all1), i, t) ==> s == t
    {
      hide RoundUp, Distance;
      Ends(fmin, fsize, cylsize);
      assert all0.flg[..cylsize] == all1.flg[..cylsize];
      forall i: nat, s, t | Chosen(GoneIn(all0), i, s) && Chosen(GoneIn(all1), i, t)
        ensures s == t
      {
        ChosenUnique(GoneIn(all0), i, s, t);
      }
    }

    /** alloc while the cylinder still has room, wherever it is. */
    method Within(ap: Cylinder, ghost j: nat) returns (blk: int)
      requires Sizes() && (ap == all0 || ap == all1) && ap.nalloc < cylsize
      requires j < cylsize && !ap.flg[j] && !Outside(ap.baseblock, j, fmin, fsize)
      modifies ap, ap.flg
      ensures Chosen(old(GoneIn(ap)), old(StartSlot(ap)), blk - old(ap.baseblock))
      ensures ap.nalloc == old(ap.nalloc) + 1 && ap.baseblock == old(ap.baseblock) && fmin <= blk < fsize
      ensures GoneIn(ap) == old(GoneIn(ap))[blk - ap.baseblock := true]
    {
      hide Chosen, Gone, Distance;
      ap.nalloc := ap.nalloc + 1;
      var i: nat := StartSlot(ap);
      ap.pblk := if ap.pblk < bsize || (xflg && node0.isExec) then ap.pblk + 1 else 1;
      blk := ap.TakeSlot(i, cylsize, fmin, fsize, j);
    }

    /** In a file system of one cylinder the first young file and the first old one get the same block. */
    method SameTwice() returns (young: int, aged: int)
      requires Initial() && fmin % cylsize != 0 && Between(fmin, fsize, cylsize) == gap == 0
      requires all0.lastb == all1.lastb == 0 && all0.pblk == all1.pblk == 1
      modifies all0, all1, all0.flg, all1.flg
      ensures young == aged
    {
      hide RoundUp, Chosen, Distance, GoneIn, Gone, StartSlot, Initial, Between, Outside;
      OneCylinder();
      InitialArrays();
      OnlyCylinder();
      SameStart();
      ghost var j, gone, i := fmin - all0.baseblock, GoneIn(all0), StartSlot(all0);
      young := Within(all0, j);
      aged := Within(all1, j);
      ChosenUnique(gone, i, young - old(all0.baseblock), aged - old(all1.baseblock));
    }

    lemma SameStart()
      requires Initial() && 0 < fmin && all0.lastb == all1.lastb && all0.pblk == all1.pblk
      requires all0.baseblock == all1.baseblock <= fmin < all0.baseblock + cylsize
      ensures Sizes() && StartSlot(all0) == StartSlot(all1)
              && !Outside(all0.baseblock, fmin - all0.baseblock, fmin, fsize)
    {
    }

    /** The only cylinder: where it is, and that it has room. */
    lemma OnlyCylinder()
      requires Initial() && fmin % cylsize != 0 && Between(fmin, fsize, cylsize) == gap == 0
      ensures all0.baseblock == all1.baseblock == fmin - fmin % cylsize && fmin < fsize <= all1.baseblock + cylsize
      ensures all0.nalloc == fmin % cylsize < cylsize && all1.nalloc < cylsize
    {
      hide RoundUp;
      Ends(fmin, fsize, cylsize);
      FirstEnd(fmin, cylsize);
      LastEnd(fsize, cylsize);
    }

    /** No slot of c can be handed out. */
    predicate NoSlot(c: Cylinder)
      requires cylsize <= c.flg.Length
      reads c`baseblock, c.flg
    {
      forall i :: 0 <= i < cylsize ==> c.flg[i] || Outside(c.baseblock, i, fmin, fsize)
    }

    lemma OnlySizes()
      requires Initial() && fmin % cylsize != 0 && Between(fmin, fsize, cylsize) == gap == 0
      ensures Sizes() && (forall i :: 0 <= i < cylsize ==> !all0.flg[i])
      ensures all0.baseblock <= fmin < fsize <= all0.baseblock + cylsize
    {
      hide RoundUp, Between, Initial, Gone, Outside;
      OnlyCylinder();
      InitialArrays();
      assert fmin > 0;
    }

    /** The only cylinder at the beginning: how many of its slots are not part of the data area. */
    lemma OnlyCount()
      requires Initial() && fmin % cylsize != 0 && Between(fmin, fsize, cylsize) == gap == 0
      ensures Sizes() && Count(GoneIn(all0)) == fmin + cylsize - fsize
    {
      hide RoundUp, Between, Initial, Count, Gone, GoneIn, Outside;
      OnlySizes();
      UnusedCount(all0);
    }

    /** A cylinder with the whole data area, of which nothing has been given. */
    lemma UnusedCount(c: Cylinder)
      requires cylsize <= c.flg.Length && (forall i :: 0 <= i < cylsize ==> !c.flg[i])
      requires c.baseblock <= fmin <= fsize <= c.baseblock + cylsize
      ensures Count(GoneIn(c)) == fmin + cylsize - fsize
    {
      CountEnds(GoneIn(c), fmin - c.baseblock, fsize - c.baseblock);
    }

    /** Without -a every data block of a file system of one cylinder is given. */
    method TakeAll() returns (blks: seq<int>)
      requires Initial() && fmin % cylsize != 0 && Between(fmin, fsize, cylsize) == gap == 0
      modifies all0, all0.flg
      ensures Sizes() && all0.flg.Length == MAXCYL && NoSlot(all0)
      ensures all0.baseblock == old(all0.baseblock) && all0.nalloc == fsize - all0.baseblock <= cylsize
      ensures |blks| == fsize - fmin && forall k :: 0 <= k < |blks| ==> fmin <= blks[k] < fsize
    {
      hide RoundUp, Chosen, Distance, StartSlot, Initial, Between, Gone;
      OnlyCylinder();
      OnlyCount();
      blks := [];
      ghost var base := all0.baseblock;
      while |blks| < fsize - fmin
        invariant Sizes() && all0.flg.Length == MAXCYL && all0.baseblock == base && |blks| <= fsize - fmin
        invariant all0.nalloc == fmin - base + |blks|
        invariant Count(GoneIn(all0)) == all0.nalloc + base + cylsize - fsize
        invariant forall k :: 0 <= k < |blks| ==> fmin <= blks[k] < fsize
      {
        ghost var j := SomeSlot(all0);
        ghost var gone, i := GoneIn(all0), StartSlot(all0);
        var blk := Within(all0, j);
        ChosenFree(gone, i, blk - base);
        CountSet(gone, blk - base);
        blks := blks + [blk];
      }
      NoneLeft(all0);
    }

    lemma NoneLeft(c: Cylinder)
      requires Sizes() && c.flg.Length == MAXCYL && Count(GoneIn(c)) == cylsize
      ensures NoSlot(c)
    {
      CountFull(GoneIn(c));
      assert forall i :: 0 <= i < cylsize ==> GoneIn(c)[i];
    }

    /** n turns of the search for a slot. */
    method Search(c: Cylinder, i0: nat, n: nat) returns (found: bool)
      requires 0 < cylsize <= c.flg.Length && i0 < cylsize && NoSlot(c)
      modifies c.flg, c`lastb
      ensures !found && NoSlot(c)
    {
      var i: nat := i0;
      found := false;
      for k := 0 to n
        invariant i < cylsize && NoSlot(c) && !found
      {
        if c.flg[i] {
          i := (i + 1) % cylsize;
        } else {
          c.flg[i] := true;
          c.lastb := i;
          found := fmin <= c.baseblock + i < fsize;
        }
      }
    }

    /**
     Without -a copying to a single cylinder never ends: the request after the
     last data block has been given finds room by the count, or moves to a
     cylinder behind the data area, and then searches for ever.
     */
    method SearchHangs(n: nat) returns (found: bool)
      requires Initial() && fmin % cylsize != 0 && Between(fmin, fsize, cylsize) == gap == 0 && !aflg
      modifies all0, all0.flg
      ensures !found
    {
      assert Which() == 0;
      OnlyCylinder();
      var blks := TakeAll();
      var ap := All(Which());
      ap.nalloc := ap.nalloc + 1;
      var i: nat := 0;
      if ap.nalloc > cylsize {
        ap.Clear();
        ap.pblk, ap.nalloc, ap.baseblock := 1, 1, ap.baseblock + cylsize;
        assert ap.baseblock != all1.baseblock;
      } else {
        i := StartSlot(ap);
        ap.pblk := if ap.pblk < bsize || (xflg && node0.isExec) then ap.pblk + 1 else 1;
      }
      found := Search(ap, i, n);
    }

    lemma InitialEnds()
      requires Initial() && fmin % cylsize != 0 && gap == Between(fmin, fsize, cylsize) > 0
      ensures all0.baseblock == fmin - all0.nalloc && 0 < all0.nalloc < cylsize
      ensures all1.baseblock < fsize <= all1.baseblock + cylsize
      ensures all1.baseblock - all0.baseblock == Times(gap, cylsize)
    {
      hide RoundUp, Separate, Between, Times;
      FirstEnd(fmin, cylsize);
      LastEnd(fsize, cylsize);
      Ends(fmin, fsize, cylsize);
    }

    lemma InitialPlaced()
      requires Initial() && fmin % cylsize != 0 && ovw < 2 && gap == Between(fmin, fsize, cylsize) > 0
      ensures Placed() && Sizes() && all0.baseblock + cylsize <= all1.baseblock
      ensures all0.baseblock == fmin - all0.nalloc && 0 < all0.nalloc < cylsize
    {
      hide Initial, Between, Times;
      InitialEnds();
      InitialArrays();
      TimesAtLeast(gap, cylsize);
    }

    lemma InitialArrays()
      requires Initial()
      ensures all0 != all1 && all0.flg != all1.flg && all0.flg.Length == all1.flg.Length == MAXCYL
      ensures 0 < stepsize <= cylsize <= MAXCYL && fmin < fsize && !overlap && given == []
      ensures forall i :: 0 <= i < MAXCYL ==> !all0.flg[i] && !all1.flg[i]
      ensures all1.nalloc == all1.baseblock + cylsize - fsize
    {
    }

    lemma InitialCounted0()
      requires Initial() && fmin % cylsize != 0 && ovw < 2 && gap == Between(fmin, fsize, cylsize) > 0
      ensures Counted(all0)
    {
      hide RoundUp, Initial;
      InitialArrays();
      InitialEnds();
      InitialPlaced();
      CountBelow(Gone(all0.flg[..cylsize], all0.baseblock, fmin, fsize), all0.nalloc);
    }

    lemma InitialCounted1()
      requires Initial() && fmin % cylsize != 0 && ovw < 2 && gap == Between(fmin, fsize, cylsize) > 0
      ensures Counted(all1)
    {
      hide RoundUp, Initial;
      InitialArrays();
      InitialEnds();
      InitialPlaced();
      CountFrom(Gone(all1.flg[..cylsize], all1.baseblock, fmin, fsize), fsize - all1.baseblock);
    }

    lemma InitialAgrees()
      requires Initial() && fmin % cylsize != 0 && ovw < 2 && gap == Between(fmin, fsize, cylsize) > 0
      ensures Agrees()
    {
      hide RoundUp, Initial;
      InitialArrays();
      InitialEnds();
      InitialPlaced();
    }

    lemma InitialAll()
      requires Sizes() && Placed() && Agrees() && !overlap && Counted(all0) && Counted(all1)
      ensures Valid()
    {
    }

    /** Start a new cylinder for all[which], until one has room. */
    method NewCylinder(which: nat) returns (ap: Cylinder, ok: bool)
      requires Valid() && which < 2 && All(which).nalloc > cylsize && (overlap ==> which == ovw)
      modifies this`overlap, this`ovw, this`gap, all0, all1, all0.flg, all1.flg
      ensures ap == all0 || ap == all1
      ensures ok ==> Ready(ap)
      ensures !ok ==> Valid() && overlap && Exhausted()
    {
      hide Valid, Ready;
      ok := true;
      ap := All(which);
      var again := true;
      while again
        invariant ok && (ap == all0 || ap == all1)
        invariant again ==> Valid() && ap == All(if overlap then ovw else which) && ap.nalloc > cylsize
        invariant !again ==> Ready(ap)
        decreases if overlap then 0 else 1, again
      {
        if overlap {
          AllGone(ap);
          return ap, false;
        }
        ap := NextCylinder(ap, which);
        again := ap.nalloc > cylsize;
      }
    }

    lemma AllGone(ap: Cylinder)
      requires Valid() && overlap && ap == All(ovw) && ap.nalloc >= cylsize
      ensures Exhausted()
    {
      FullCylinder(ap);
    }

    /** All of all[which] is unused again; only the other end's flags still matter. */
    ghost predicate Moved(which: nat)
      reads this`overlap, this`ovw, this`gap, this`given, all0`baseblock, all1`baseblock, all0`nalloc, all1`nalloc
      reads all0.flg, all1.flg
    {
      && Sizes() && which < 2 && !overlap && ovw < 2 && Counted(All(1 - which))
      && all1.baseblock - all0.baseblock == Times(gap, cylsize)
      && fmin < all0.baseblock + cylsize && all1.baseblock < fsize
      && (which == 0 ==> fmin < all0.baseblock) && (which == 1 ==> all1.baseblock + cylsize < fsize)
      && All(which).nalloc == 0 && (forall i :: 0 <= i < MAXCYL ==> !All(which).flg[i])
      && Distinct(given) && (forall b :: b in given ==> fmin <= b < fsize)
      && forall b :: fmin <= b < fsize ==>
           (b in given <==> b < all0.baseblock || b >= all1.baseblock + cylsize || Flagged(All(1 - which), b))
    }

    /** all[which] moves on to the next cylinder; if that is the other one's, they share it from now on. */
    method NextCylinder(c: Cylinder, which: nat) returns (ap: Cylinder)
      requires Valid() && which < 2 && !overlap && c == All(which) && c.nalloc >= cylsize
      modifies this`overlap, this`ovw, this`gap, all0, all1, all0.flg, all1.flg
      ensures ap == all0 || ap == all1
      ensures ap.nalloc <= cylsize ==> Ready(ap)
      ensures ap.nalloc > cylsize ==> Valid() && overlap && ap == All(ovw)
    {
      hide Valid, Ready, Moved;
      MoveOn(c, which);
      ap := c;
      if all0.baseblock == all1.baseblock {
        ap := Meet(which);
      } else {
        Fresh(which);
      }
    }

    /** A cylinder that is full says nothing that its place does not say once it has been left behind. */
    lemma LeftBehind(which: nat)
      requires Valid() && which < 2 && !overlap && All(which).nalloc >= cylsize
      ensures gap > 0 && all1.baseblock - all0.baseblock - cylsize == Times(gap - 1, cylsize)
      ensures forall b :: fmin <= b < fsize ==>
                (b in given <==> if which == 0
                                 then b < all0.baseblock + cylsize || b >= all1.baseblock + cylsize || Flagged(all1, b)
                                 else b < all0.baseblock || b >= all1.baseblock || Flagged(all0, b))
    {
      hide Distinct;
      FullCylinder(All(which));
    }

    lemma ValidParts(which: nat)
      requires Valid() && which < 2 && !overlap
      ensures Sizes() && ovw < 2 && Counted(All(1 - which)) && Distinct(given)
      ensures fmin < all0.baseblock + cylsize && all1.baseblock < fsize && forall b :: b in given ==> fmin <= b < fsize
    {
    }

    method MoveOn(ap: Cylinder, which: nat)
      requires Valid() && which < 2 && !overlap && ap == All(which) && ap.nalloc >= cylsize
      modifies this`gap, ap, ap.flg
      ensures Moved(which)
    {
      hide Valid, Distinct, Times, Gone;
      LeftBehind(which);
      ValidParts(which);
      ap.Clear();
      ap.pblk := 1;
      ap.nalloc := 0;
      ap.baseblock := if which == 1 then ap.baseblock - cylsize else ap.baseblock + cylsize;
      gap := gap - 1;
    }

    /** Young and old files have met on one cylinder: the structure that came first is used. */
    method Meet(which: nat) returns (ap: Cylinder)
      requires Moved(which) && all0.baseblock == all1.baseblock
      modifies this`overlap, this`ovw, all0, all1
      ensures ap == all0 || ap == all1
      ensures ap.nalloc <= cylsize ==> Ready(ap)
      ensures ap.nalloc > cylsize ==> Valid() && overlap && ap == All(ovw)
    {
      overlap, ovw := true, 1 - which;
      ap := All(ovw);
      ap.nalloc := ap.nalloc + 1;
    }

    /** A cylinder nobody has used. */
    method Fresh(which: nat)
      requires Moved(which) && all0.baseblock != all1.baseblock
      modifies All(which)
      ensures Ready(All(which)) && All(which).nalloc <= cylsize
    {
      var ap := All(which);
      TimesAtLeast(gap, cylsize);
      CountNone(Gone(ap.flg[..cylsize], ap.baseblock, fmin, fsize));
      ap.nalloc := ap.nalloc + 1;
    }

    /** Where the search starts when the current cylinder still has room. */
    function StartSlot(ap: Cylinder): (i: nat)
      requires Sizes()
      reads ap`pblk, ap`lastb, this`xflg, this`node0
    {
      (if ap.pblk < bsize || (xflg && node0.isExec) then ap.lastb + 1 else ap.lastb + stepsize) % cylsize
    }

    /** Every call gives away a block nobody has, or finds that there is none left. */
    method Alloc() returns (blk: int)
      requires Valid()
      modifies this`overlap, this`ovw, this`gap, this`given, all0, all1, all0.flg, all1.flg
      ensures Valid()
      ensures blk == 0 <==> old(Exhausted())
      ensures blk == 0 ==> given == old(given) && |given| == fsize - fmin
      ensures blk != 0 ==> fmin <= blk < fsize && blk !in old(given) && given == old(given) + [blk]
      ensures
        var ap := old(All(Which()));
        old(ap.nalloc) < cylsize ==>
          Chosen(old(GoneIn(All(Which()))), old(StartSlot(All(Which()))), blk - old(All(Which()).baseblock))
    {
      hide Valid, Ready, Chosen, StartSlot, GoneIn, Handed, Distance;
      ValidSizes();
      var which := Which();
      var ap := All(which);
      var i: nat := 0;
      CountRequest(ap);
      if ap.nalloc > cylsize {
        var ok;
        ap, ok := NewCylinder(which);
        if !ok {
          EverythingGiven();
          return 0;
        }
      } else {
        i := Continue(ap);
      }
      blk := Give(ap, i);
    }

    lemma AtMostAll()
      requires Valid()
      ensures Distinct(given) && |given| <= fsize - fmin
    {
      DistinctCount(given, fmin, fsize);
    }

    lemma AllInRange()
      requires Valid()
      ensures forall b :: b in given ==> fmin <= b < fsize
    {
    }

    lemma EverythingGiven()
      requires Valid() && Exhausted()
      ensures |given| == fsize - fmin
    {
      DistinctCount(given, fmin, fsize);
    }

    lemma ValidSizes()
      requires Valid()
      ensures Sizes() && ovw < 2 && 0 < cylsize <= MAXCYL && fmin > 0
      ensures All(Which()).flg.Length == MAXCYL
    {
    }

    method CountRequest(ap: Cylinder)
      requires Valid() && ap == All(Which())
      modifies ap`nalloc
      ensures ap.nalloc == old(ap.nalloc) + 1
      ensures if ap.nalloc <= cylsize then Ready(ap) else Valid()
      ensures ap == all0 || ap == all1
    {
      ap.nalloc := ap.nalloc + 1;
    }

    /** The next slot in the same cylinder: adjacent within a multiblock or an executable, else stepsize further on. */
    method Continue(ap: Cylinder) returns (i: nat)
      requires Ready(ap) && Sizes()
      modifies ap`pblk
      ensures Ready(ap) && i == old(StartSlot(ap)) < cylsize
    {
      hide Ready;
      ap.pblk := ap.pblk + 1;
      if ap.pblk - 1 < bsize || (xflg && node0.isExec) {
        i := ap.lastb + 1;
      } else {
        ap.pblk := 1;
        i := ap.lastb + stepsize;
      }
      i := i % cylsize;
    }

    method Give(ap: Cylinder, i: nat) returns (blk: int)
      requires Ready(ap) && i < cylsize
      modifies this`given, ap`lastb, ap.flg
      ensures Valid() && fmin <= blk < fsize && blk !in old(given) && given == old(given) + [blk]
      ensures Sizes() && ap.flg.Length == MAXCYL && Chosen(old(GoneIn(ap)), i, blk - ap.baseblock)
    {
      hide Chosen, Handed, GoneIn, Distance;
      blk := Hand(ap, i);
      given := given + [blk];
    }

    /** The block is marked as handed out. */
    method Hand(ap: Cylinder, i: nat) returns (blk: int)
      requires Ready(ap) && i < cylsize
      modifies ap`lastb, ap.flg
      ensures fmin <= blk < fsize && !old(Handed(blk)) && Counted(ap)
      ensures forall b :: fmin <= b < fsize ==> (Handed(b) <==> old(Handed(b)) || b == blk)
      ensures Chosen(old(GoneIn(ap)), i, blk - ap.baseblock)
    {
      hide Chosen, Flagged, GoneIn, Distance, Distinct;
      blk := Flag(ap, i);
      FlaggedInCylinder(ap, blk);
      if !overlap {
        OtherUntouched(ap, blk);
      }
    }

    /** A block belongs to at most one of two current cylinders. */
    lemma OtherUntouched(ap: Cylinder, blk: int)
      requires Sizes() && Placed() && Flagged(ap, blk) && !overlap && (ap == all0 || ap == all1)
      ensures !Flagged(if ap == all0 then all1 else all0, blk)
      ensures all0.baseblock <= blk < all1.baseblock + cylsize
    {
      TimesAtLeast(gap, cylsize);
    }

    lemma FlaggedInCylinder(ap: Cylinder, b: int)
      ensures Flagged(ap, b) ==> InCylinder(ap, b)
    {
    }

    method Flag(ap: Cylinder, i: nat) returns (blk: int)
      requires Sizes() && ap.flg.Length == MAXCYL && i < cylsize && 0 < ap.nalloc <= cylsize
      requires Count(GoneIn(ap)) == ap.nalloc - 1
      modifies ap`lastb, ap.flg
      ensures fmin <= blk < fsize && Flagged(ap, blk) && !old(Flagged(ap, blk)) && Counted(ap)
      ensures forall b :: fmin <= b < fsize ==> (Flagged(ap, b) <==> old(Flagged(ap, b)) || b == blk)
      ensures Chosen(old(GoneIn(ap)), i, blk - ap.baseblock)
    {
      hide Distance, Flagged, Chosen, Gone;
      ghost var j := SomeSlot(ap);
      ghost var gone := GoneIn(ap);
      GoneFlags(ap);
      blk := ap.TakeSlot(i, cylsize, fmin, fsize, j);
      ChosenFree(gone, i, blk - ap.baseblock);
      CountSet(gone, blk - ap.baseblock);
      GoneFlags(ap);
    }

    /** For a data block, flagged and gone are the same. */
    lemma GoneFlags(ap: Cylinder)
      requires Sizes() && ap.flg.Length == MAXCYL
      ensures forall b :: fmin <= b < fsize ==> (Flagged(ap, b) <==> InCylinder(ap, b) && GoneIn(ap)[b - ap.baseblock])
    {
    }
  }
}