/** bmap and getindir of dcopy.c, as they write in pass 1, on values: what one write does to the tree of the file. */
module BmapSpec {
  import opened FreeChain
  import opened AddressTree
  import opened AddressNodes
  import opened IndirectBuffers

  /** bmap's result: err() ends the program. */
  datatype Result = Address(bn: int) | Nothing | Fatal

  type Addresses = s: seq<int> | |s| == NADDR witness seq(NADDR, _ => 0)

  /** What a write works on: addr1, the write buffers, and the disk. */
  datatype Writer = Writer(addr: Addresses, bufs: Buffers, disk: Disk)

  /** getindir(b, lev): afterwards b is in buffer BufferFor(m.bufs, b). */
  function Fetch(m: Writer, b: int, lev: nat): Writer {
    Writer(m.addr, Visit(m.bufs, b, lev), if Missing(m.bufs, b) then Put(m.disk, m.bufs[Lowest(m.bufs)]) else m.disk)
  }

  function Store(m: Writer, s: nat, i: nat, x: int): Writer
    requires s < NBUFIN && i < NINDIR
  {
    m.(bufs := m.bufs[s := m.bufs[s].(indir := m.bufs[s].indir[i := x])])
  }

  /** The loop of bmap, from indirect block b of level lev down; alloc's answers are supply, and 0 from then on. */
  function Follow(m: Writer, b: int, lev: nat, bn: nat, supply: seq<int>): (Writer, Result)
    decreases lev
  {
    if lev == 0 then (m, Address(b))
    else
      var m1, s, i := Fetch(m, b, lev), BufferFor(m.bufs, b), Index(bn, lev);
      var nb := m1.bufs[s].indir[i];
      if nb != 0 then (if lev == 1 then (m1, Fatal) else Follow(m1, nb, lev - 1, bn, supply))
      else if supply == [] then (m1, Nothing)
      else Follow(Store(m1, s, i, supply[0]), supply[0], lev - 1, bn, supply[1..])
  }

  /** bmap(k, B_WRITE) */
  function Write(m: Writer, k: nat, supply: seq<int>): (Writer, Result) {
    var r := Levels(k);
    if r == 4 then (m, Nothing)
    else
      var a := if r == 0 then k else NDIRECT + r - 1;
      if m.addr[a] != 0 then (if r == 0 then (m, Fatal) else Follow(m, m.addr[a], r, k - First(r), supply))
      else if supply == [] then (m, Nothing)
      else Follow(m.(addr := m.addr[a := supply[0]]), supply[0], r, k - First(r), supply[1..])
  }

  // ----- what always holds

  /** The disk as it will be once the buffers are written. */
  function Now(m: Writer): Disk {
    View(m.disk, m.bufs)
  }

  /** The address of block y of the file; 0 if there is none. */
  function At(m: Writer, y: Id): int {
    Addr(m.addr, Now(m), y)
  }

  /** Buffers in use hold blocks of this file; the others may still name blocks given out before it. */
  ghost predicate Stocked(bufs: Buffers, past: seq<int>, given: seq<int>) {
    && Tidy(bufs)
    && forall s :: 0 <= s < NBUFIN ==>
         var b := bufs[s].bn;
         if bufs[s].indlev == 0 then b == 0 || b in past else b != 0 && b in given && b !in past
  }

  /** What is on disk was given out, and what was there before this file stays. */
  ghost predicate Keeps(disk: Disk, past: seq<int>, given: seq<int>, kept: Disk) {
    && (forall b :: b in past ==> b in given) && (forall b :: b in disk ==> b in given)
    && forall b :: b in kept ==> b in past && b in disk && disk[b] == kept[b]
  }

  /** The blocks of the file are its own, and different from each other. */
  ghost predicate Own(m: Writer, past: seq<int>, given: seq<int>) {
    && (forall y :: At(m, y) != 0 ==> At(m, y) in given && At(m, y) !in past)
    && forall y, z :: At(m, y) == At(m, z) != 0 ==> y == z
  }

  ghost predicate Steady(m: Writer, past: seq<int>, given: seq<int>, kept: Disk) {
    Stocked(m.bufs, past, given) && Keeps(m.disk, past, given, kept) && Own(m, past, given)
  }

  /** All indirect blocks but x are on disk or in a buffer. */
  ghost predicate Present(m: Writer, x: Id) {
    forall y: Id :: y.lev >= 1 && y != x && At(m, y) != 0 ==> At(m, y) in Now(m)
  }

  /** Blocks that alloc may give next. */
  ghost predicate Fresh(supply: seq<int>, given: seq<int>) {
    && (forall i :: 0 <= i < |supply| ==> supply[i] != 0 && supply[i] !in given)
    && forall i, j :: 0 <= i < j < |supply| ==> supply[i] != supply[j]
  }

  lemma OwnApart(m: Writer, past: seq<int>, given: seq<int>, x: Id)
    requires Own(m, past, given) && At(m, x) != 0
    ensures forall z :: Addr(m.addr, Now(m), z) == At(m, x) ==> z == x
  {
    hide Addr, View;
    forall z | Addr(m.addr, Now(m), z) == At(m, x)
      ensures z == x
    {
      assert At(m, z) == At(m, x);
    }
  }

  lemma OwnFresh(m: Writer, past: seq<int>, given: seq<int>, c: int)
    requires Own(m, past, given) && c != 0 && c !in given
    ensures forall z :: Addr(m.addr, Now(m), z) != c
  {
    hide Addr, View;
    forall z
      ensures Addr(m.addr, Now(m), z) != c
    {
      assert At(m, z) == Addr(m.addr, Now(m), z);
    }
  }

  // ----- one call of getindir

  lemma NowHas(m: Writer, past: seq<int>, given: seq<int>, b: int)
    requires Stocked(m.bufs, past, given) && Keeps(m.disk, past, given, map[])
    ensures b in Now(m) ==> b in given
  {
    hide View;
    ViewAt(m.disk, m.bufs, b);
    if Live(m.bufs, b) {
      var s :| 0 <= s < NBUFIN && m.bufs[s].indlev != 0 && m.bufs[s].bn == b;
    }
  }

  lemma KeepsNothing(disk: Disk, past: seq<int>, given: seq<int>, kept: Disk)
    requires Keeps(disk, past, given, kept)
    ensures Keeps(disk, past, given, map[])
  {
  }

  lemma NotLive(bufs: Buffers, b: int)
    requires Missing(bufs, b)
    ensures !Live(bufs, b)
  {
  }

  /** The block is then in the buffer, and empty if it was in none. */
  lemma Fetched(m: Writer, b: int, lev: nat, past: seq<int>, given: seq<int>)
    requires Stocked(m.bufs, past, given) && b != 0 && b in given && b !in past && lev > 0
    ensures
      var m', s := Fetch(m, b, lev), BufferFor(m.bufs, b);
      && m'.addr == m.addr && m'.bufs[s].bn == b && m'.bufs[s].indlev != 0 && Stocked(m'.bufs, past, given)
      && b in Now(m') && Now(m')[b] == Indirect(m'.bufs[s].indir)
      && if Missing(m.bufs, b) then Now(m') == Now(m)[b := Indirect(Zeros())] else m' == m
  {
    hide View;
    var m', s := Fetch(m, b, lev), BufferFor(m.bufs, b);
    if Missing(m.bufs, b) {
      NotLive(m.bufs, b);
      ReplaceView(m.disk, m.bufs, s, b, lev);
    }
    ViewLive(m'.disk, m'.bufs, s);
  }

  lemma FetchDisk(m: Writer, b: int, lev: nat, past: seq<int>, given: seq<int>, kept: Disk)
    requires Stocked(m.bufs, past, given) && Keeps(m.disk, past, given, kept)
    ensures Keeps(Fetch(m, b, lev).disk, past, given, kept)
  {
  }

  /** Getting a block into a buffer costs the tree what is below it, if the block was in none. */
  lemma FetchTree(m: Writer, x: Id, past: seq<int>, given: seq<int>, y: Id)
    requires Stocked(m.bufs, past, given) && Own(m, past, given) && At(m, x) != 0 && x.lev > 0
    ensures
      var m' := Fetch(m, At(m, x), x.lev);
      At(m', y) == if Missing(m.bufs, At(m, x)) && Under(y, x) && y != x then 0 else At(m, y)
  {
    hide View, Addr, Fetch, Stocked;
    var b := At(m, x);
    Fetched(m, b, x.lev, past, given);
    if Missing(m.bufs, b) {
      OwnApart(m, past, given, x);
      Cleared(m.addr, Now(m), x, b, Zeros(), y);
    }
  }

  lemma FetchKeeps(m: Writer, x: Id, past: seq<int>, given: seq<int>, kept: Disk)
    requires Steady(m, past, given, kept) && Present(m, x) && At(m, x) != 0 && x.lev > 0
    ensures
      var m', s := Fetch(m, At(m, x), x.lev), BufferFor(m.bufs, At(m, x));
      && Steady(m', past, given, kept) && m'.addr == m.addr && m'.bufs[s].bn == At(m, x) && m'.bufs[s].indlev != 0
      && At(m, x) in Now(m') && Now(m')[At(m, x)] == Indirect(m'.bufs[s].indir)
      && (forall y: Id :: y.lev >= 1 && At(m', y) != 0 ==> At(m', y) in Now(m'))
  {
    hide Stocked, Keeps, View, Addr, Missing, Fetch, At;
    var b := At(m, x);
    var m' := Fetch(m, b, x.lev);
    OwnGiven(m, past, given, x);
    Fetched(m, b, x.lev, past, given);
    FetchDisk(m, b, x.lev, past, given, kept);
    forall y
      ensures At(m', y) == 0 || At(m', y) == At(m, y)
      ensures y == x ==> At(m', y) == b
    {
      FetchTree(m, x, past, given, y);
    }
  }

  lemma OwnGiven(m: Writer, past: seq<int>, given: seq<int>, x: Id)
    requires Own(m, past, given) && At(m, x) != 0
    ensures At(m, x) in given && At(m, x) !in past
  {
  }

  // ----- a new block is linked to the tree

  lemma StoreTree(m: Writer, s: nat, y: Id, c: int, past: seq<int>, given: seq<int>, z: Id)
    requires Steady(m, past, given, map[]) && s < NBUFIN && y.lev < y.root && At(m, Up(y)) != 0 && At(m, y) == 0
    requires m.bufs[s].bn == At(m, Up(y)) && m.bufs[s].indlev != 0 && c != 0 && c !in given
    ensures At(Store(m, s, y.j % NINDIR, c), z) == if z == y then c else At(m, z)
    ensures Now(Store(m, s, y.j % NINDIR, c)).Keys == Now(m).Keys
  {
    hide View, Addr, Under, Over, Keeps;
    var b, i := m.bufs[s].bn, y.j % NINDIR;
    ViewLive(m.disk, m.bufs, s);
    StoreView(m.disk, m.bufs, s, i, c);
    NowHas(m, past, given, c);
    HasAddress(m.addr, Now(m), Up(y));
    OwnApart(m, past, given, Up(y));
    OwnFresh(m, past, given, c);
    OwnGiven(m, past, given, Up(y));
    NamedAbove(m.addr, Now(m), y, b, c, z);
  }

  lemma SteadyNothing(m: Writer, past: seq<int>, given: seq<int>, kept: Disk)
    requires Steady(m, past, given, kept)
    ensures Steady(m, past, given, map[])
  {
  }

  lemma StoreKeeps(m: Writer, s: nat, y: Id, c: int, past: seq<int>, given: seq<int>, kept: Disk)
    requires Steady(m, past, given, kept) && s < NBUFIN && y.lev < y.root && At(m, Up(y)) != 0 && At(m, y) == 0
    requires m.bufs[s].bn == At(m, Up(y)) && m.bufs[s].indlev != 0 && c != 0 && c !in given
    requires forall z: Id :: z.lev >= 1 && At(m, z) != 0 ==> At(m, z) in Now(m)
    ensures Steady(Store(m, s, y.j % NINDIR, c), past, given + [c], kept) && Present(Store(m, s, y.j % NINDIR, c), y)
  {
    hide View, Addr, Now, At;
    var m' := Store(m, s, y.j % NINDIR, c);
    SteadyNothing(m, past, given, kept);
    forall z
      ensures At(m', z) == if z == y then c else At(m, z)
      ensures Now(m').Keys == Now(m).Keys
    {
      StoreTree(m, s, y, c, past, given, z);
    }
  }

  lemma RootTree(m: Writer, a: nat, y: Id, c: int, past: seq<int>, given: seq<int>, z: Id)
    requires Steady(m, past, given, map[]) && a < NADDR && m.addr[a] == 0 && c != 0 && c !in given
    requires y.lev == y.root <= 3 && if y.root == 0 then y.j == a < NDIRECT else y.j == 0 && a == NDIRECT + y.root - 1
    ensures At(m.(addr := m.addr[a := c]), z) == if z == y then c else At(m, z)
  {
    hide View, Addr, Under, Over, Keeps, Stocked;
    NowHas(m, past, given, c);
    OwnFresh(m, past, given, c);
    NamedByInode(m.addr, Now(m), y, a, c, z);
  }

  lemma RootKeeps(m: Writer, a: nat, y: Id, c: int, past: seq<int>, given: seq<int>, kept: Disk)
    requires Steady(m, past, given, kept) && a < NADDR && m.addr[a] == 0 && c != 0 && c !in given
    requires y.lev == y.root <= 3 && if y.root == 0 then y.j == a < NDIRECT else y.j == 0 && a == NDIRECT + y.root - 1
    requires forall z: Id :: z.lev >= 1 && At(m, z) != 0 ==> At(m, z) in Now(m)
    ensures
      var m' := m.(addr := m.addr[a := c]);
      Steady(m', past, given + [c], kept) && Present(m', y)
  {
    hide View, Addr, At;
    var m' := m.(addr := m.addr[a := c]);
    SteadyNothing(m, past, given, kept);
    forall z
      ensures At(m', z) == if z == y then c else At(m, z)
    {
      RootTree(m, a, y, c, past, given, z);
    }
  }

  // ----- one write

  ghost predicate Complete(m: Writer) {
    forall y: Id :: y.lev >= 1 && At(m, y) != 0 ==> At(m, y) in Now(m)
  }

  /** A write to p replaces no address; it may lose some, and new ones lead to p. */
  ghost predicate Changed(m: Writer, m': Writer, p: Id, supply: seq<int>) {
    forall y :: At(m', y) == At(m, y) || At(m', y) == 0 || (Under(p, y) && At(m', y) in supply)
  }

  lemma ChangedTwice(m: Writer, m1: Writer, m2: Writer, p: Id, a: seq<int>, b: seq<int>, supply: seq<int>)
    requires Changed(m, m1, p, a) && Changed(m1, m2, p, b)
    requires forall x :: x in a || x in b ==> x in supply
    ensures Changed(m, m2, p, supply)
  {
    hide At, Under;
    forall y
      ensures At(m2, y) == At(m, y) || At(m2, y) == 0 || (Under(p, y) && At(m2, y) in supply)
    {
      assert At(m1, y) == At(m, y) || At(m1, y) == 0 || (Under(p, y) && At(m1, y) in a);
      assert At(m2, y) == At(m1, y) || At(m2, y) == 0 || (Under(p, y) && At(m2, y) in b);
    }
  }

  /** The entry of the buffer that the loop looks at is the next address on the way. */
  lemma NextEntry(p: Id, lev: nat)
    requires p.lev == 0 && lev > 0
    ensures Up(Over(p, lev - 1)) == Over(p, lev) && Index(p.j, lev) == Over(p, lev - 1).j % NINDIR
  {
    assert p == Id(p.root, 0, p.j);
    OverIs(p.root, p.j, lev - 1);
  }

  lemma EntryIs(m: Writer, s: nat, y: Id)
    requires s < NBUFIN && y.lev < y.root && m.bufs[s].bn == At(m, Up(y)) != 0
    requires m.bufs[s].bn in Now(m) && Now(m)[m.bufs[s].bn] == Indirect(m.bufs[s].indir)
    ensures At(m, y) == m.bufs[s].indir[y.j % NINDIR]
  {
    hide View;
  }

  /** The loop gets block Over(p, lev) into a buffer. */
  lemma FetchStep(m: Writer, p: Id, lev: nat, past: seq<int>, given: seq<int>, kept: Disk)
    requires Steady(m, past, given, kept) && p.lev == 0 && 0 < lev <= p.root
    requires At(m, Over(p, lev)) != 0 && Present(m, Over(p, lev))
    ensures
      var b := At(m, Over(p, lev));
      var m1, s := Fetch(m, b, lev), BufferFor(m.bufs, b);
      && Steady(m1, past, given, kept) && Complete(m1) && Changed(m, m1, p, []) && m1.addr == m.addr
      && At(m1, Over(p, lev)) == b == m1.bufs[s].bn && m1.bufs[s].indlev != 0
      && m1.bufs[s].indir[Index(p.j, lev)] == At(m1, Over(p, lev - 1))
  {
    hide Addr, View, At, Fetch, Stocked, Keeps, Own, Under;
    var x, y := Over(p, lev), Over(p, lev - 1);
    FetchKeeps(m, x, past, given, kept);
    NextEntry(p, lev);
    var m1 := Fetch(m, At(m, x), lev);
    forall z
      ensures (At(m1, z) == At(m, z) || At(m1, z) == 0) && (z == x ==> At(m1, z) == At(m, z))
    {
      FetchTree(m, x, past, given, z);
    }
    EntryIs(m1, BufferFor(m.bufs, At(m, x)), y);
  }

  /** The loop links a new block for Over(p, lev - 1). */
  lemma StoreStep(m: Writer, s: nat, p: Id, lev: nat, c: int, past: seq<int>, given: seq<int>, kept: Disk)
    requires Steady(m, past, given, kept) && Complete(m) && s < NBUFIN && p.lev == 0 && 0 < lev <= p.root
    requires m.bufs[s].bn == At(m, Over(p, lev)) != 0 && m.bufs[s].indlev != 0 && At(m, Over(p, lev - 1)) == 0
    requires c != 0 && c !in given
    ensures
      var m2 := Store(m, s, Index(p.j, lev), c);
      && Steady(m2, past, given + [c], kept) && Present(m2, Over(p, lev - 1)) && Changed(m, m2, p, [c])
      && At(m2, Over(p, lev - 1)) == c && (lev > 1 ==> At(m2, p) == At(m, p)) && m2.addr == m.addr
  {
    hide Addr, View, At, Stocked, Keeps, Own;
    var y := Over(p, lev - 1);
    NextEntry(p, lev);
    StoreKeeps(m, s, y, c, past, given, kept);
    SteadyNothing(m, past, given, kept);
    var m2 := Store(m, s, y.j % NINDIR, c);
    forall z
      ensures At(m2, z) == if z == y then c else At(m, z)
    {
      StoreTree(m, s, y, c, past, given, z);
    }
  }

  lemma FreshRest(supply: seq<int>, given: seq<int>)
    requires Fresh(supply, given) && supply != []
    ensures supply[0] != 0 && supply[0] !in given && Fresh(supply[1..], given + [supply[0]])
    ensures given + [supply[0]] + supply[1..] == given + supply
  {
    assert supply == [supply[0]] + supply[1..];
  }

  /** What a write from Over(p, lev) down promises. */
  ghost predicate Wrote(m: Writer, m': Writer, r: Result, p: Id, supply: seq<int>, past: seq<int>, given: seq<int>,
                        kept: Disk) {
    && Steady(m', past, given + supply, kept) && Complete(m') && Changed(m, m', p, supply)
    && match r
       case Address(x) => At(m', p) == x != 0
       case Nothing => At(m', p) == 0
       case Fatal => false
  }

  lemma WroteAfter(m: Writer, m1: Writer, m': Writer, r: Result, p: Id, a: seq<int>, b: seq<int>, supply: seq<int>,
                   past: seq<int>, given: seq<int>, given1: seq<int>, kept: Disk)
    requires Changed(m, m1, p, a) && Wrote(m1, m', r, p, b, past, given1, kept)
    requires supply == a + b && given1 + b == given + supply
    ensures Wrote(m, m', r, p, supply, past, given, kept)
  {
    hide At, Steady, Complete, Changed;
    ChangedTwice(m, m1, m', p, a, b, supply);
  }

  lemma {:induction false} FollowKeeps(m: Writer, p: Id, lev: nat, supply: seq<int>, past: seq<int>, given: seq<int>,
                                       kept: Disk)
    requires Steady(m, past, given, kept) && p.lev == 0 && lev <= p.root && Fresh(supply, given)
    requires At(m, Over(p, lev)) != 0 && Present(m, Over(p, lev)) && (lev > 0 ==> At(m, p) == 0)
    ensures
      var (m', r) := Follow(m, At(m, Over(p, lev)), lev, p.j, supply);
      Wrote(m, m', r, p, supply, past, given, kept)
    decreases lev
  {
    hide Addr, View, At, Fetch, Stocked, Keeps, Own, Under, Steady, Changed, Wrote, Fresh, Store;
    if lev == 0 {
      NothingLeft(m, p, supply, past, given, kept);
    } else {
      var b := At(m, Over(p, lev));
      var m1, s, i := Fetch(m, b, lev), BufferFor(m.bufs, b), Index(p.j, lev);
      FetchStep(m, p, lev, past, given, kept);
      StillZero(m, m1, p, p);
      if m1.bufs[s].indir[i] != 0 {
        if lev > 1 {
          CompletePresent(m1, Over(p, lev - 1));
          FollowKeeps(m1, p, lev - 1, supply, past, given, kept);
          var (m', r) := Follow(m1, At(m1, Over(p, lev - 1)), lev - 1, p.j, supply);
          assert [] + supply == supply;
          WroteAfter(m, m1, m', r, p, [], supply, supply, past, given, given, kept);
        }
      } else if supply == [] {
        StoppedHere(m, m1, p, lev, past, given, kept);
      } else {
        var m2 := Store(m1, s, i, supply[0]);
        FreshRest(supply, given);
        StoreStep(m1, s, p, lev, supply[0], past, given, kept);
        FollowKeeps(m2, p, lev - 1, supply[1..], past, given + [supply[0]], kept);
        var (m', r) := Follow(m2, supply[0], lev - 1, p.j, supply[1..]);
        ChangedTwice(m, m1, m2, p, [], [supply[0]], [supply[0]]);
        WroteAfter(m, m2, m', r, p, [supply[0]], supply[1..], supply, past, given, given + [supply[0]], kept);
      }
    }
  }

  lemma StillZero(m: Writer, m1: Writer, p: Id, y: Id)
    requires Changed(m, m1, p, [])
    ensures At(m, y) == 0 ==> At(m1, y) == 0
  {
    hide Addr;
  }

  lemma CompletePresent(m: Writer, x: Id)
    requires Complete(m)
    ensures Present(m, x)
  {
  }

  lemma NothingLeft(m: Writer, p: Id, supply: seq<int>, past: seq<int>, given: seq<int>, kept: Disk)
    requires Steady(m, past, given, kept) && p.lev == 0 && At(m, p) != 0 && Present(m, p)
    ensures Wrote(m, m, Address(At(m, p)), p, supply, past, given, kept)
  {
    hide Addr, View;
  }

  /** Alloc has no block for the next one on the way. */
  lemma StoppedHere(m: Writer, m1: Writer, p: Id, lev: nat, past: seq<int>, given: seq<int>, kept: Disk)
    requires Steady(m1, past, given, kept) && Complete(m1) && Changed(m, m1, p, [])
    requires p.lev == 0 && 0 < lev <= p.root && At(m1, Over(p, lev - 1)) == 0
    ensures Wrote(m, m1, Nothing, p, [], past, given, kept)
  {
    hide Addr, View, At, Under;
    ZeroBelow(m1, p, lev - 1);
    assert given + [] == given;
  }

  /** Without the indirect block nothing is below it. */
  lemma {:induction false} ZeroBelow(m: Writer, p: Id, lev: nat)
    requires p.lev <= lev <= p.root && At(m, Over(p, lev)) == 0
    ensures At(m, p) == 0
  {
    hide View;
    if lev > p.lev {
      ZeroBelow(m, p, lev - 1);
    }
  }

  // ----- when nothing is lost

  ghost predicate Preserved(m: Writer, m': Writer) {
    forall y :: At(m, y) != 0 ==> At(m', y) == At(m, y)
  }

  ghost predicate NothingBelow(m: Writer, x: Id) {
    forall z :: Under(z, x) && z != x ==> At(m, z) == 0
  }

  /** The blocks on the way to p, up to level lev, are in buffers as far as they exist. */
  ghost predicate InBuffers(m: Writer, p: Id, lev: nat) {
    forall l: nat :: 1 <= l <= lev && At(m, Over(p, l)) != 0 ==> !Missing(m.bufs, At(m, Over(p, l)))
  }

  /** Their addresses, from level lev down. */
  function Trail(m: Writer, p: Id, lev: nat): seq<int> {
    if lev == 0 || At(m, Over(p, lev)) == 0 then [] else [At(m, Over(p, lev))] + Trail(m, p, lev - 1)
  }

  lemma ZeroUnder(m: Writer, x: Id)
    requires x.lev <= x.root && At(m, x) == 0
    ensures NothingBelow(m, x)
  {
    hide Addr, View, At;
    forall z | Under(z, x) && z != x
      ensures At(m, z) == 0
    {
      ZeroBelow(m, z, x.lev);
    }
  }

  lemma FetchPreserves(m: Writer, p: Id, lev: nat, past: seq<int>, given: seq<int>, kept: Disk)
    requires Steady(m, past, given, kept) && p.lev == 0 && 0 < lev <= p.root && At(m, Over(p, lev)) != 0
    requires InBuffers(m, p, lev) || NothingBelow(m, Over(p, lev))
    ensures
      var m1 := Fetch(m, At(m, Over(p, lev)), lev);
      && (forall y :: At(m1, y) == At(m, y))
      && (At(m1, Over(p, lev - 1)) != 0 ==> InBuffers(m1, p, lev - 1))
  {
    hide Addr, View, At, Stocked, Keeps, Own;
    var x := Over(p, lev);
    var m1 := Fetch(m, At(m, x), lev);
    forall y
      ensures At(m1, y) == At(m, y)
    {
      FetchTree(m, x, past, given, y);
    }
    UnderNext(p, lev);
    assert !Missing(m.bufs, At(m, x)) ==> m1 == m;
  }

  lemma UnderNext(p: Id, lev: nat)
    requires p.lev == 0 && lev > 0
    ensures Under(Over(p, lev - 1), Over(p, lev)) && Over(p, lev - 1) != Over(p, lev)
  {
    UnderUp(Over(p, lev - 1), Over(p, lev));
  }

  /** Then the buffers are those that visiting the blocks on the way gives, apart from their contents. */
  ghost predicate Visited(m: Writer, m': Writer, p: Id, lev: nat) {
    Preserved(m, m') && SameTags(m'.bufs, VisitAll(m.bufs, Trail(m', p, lev), lev))
  }

  lemma VisitedStep(m: Writer, m1: Writer, m2: Writer, m': Writer, p: Id, lev: nat)
    requires lev > 0 && At(m, Over(p, lev)) != 0 && m1 == Fetch(m, At(m, Over(p, lev)), lev)
    requires Preserved(m, m1) && Preserved(m1, m2) && SameTags(m2.bufs, m1.bufs) && Visited(m2, m', p, lev - 1)
    ensures Visited(m, m', p, lev)
  {
    hide At, Missing, Lowest;
    var b := At(m, Over(p, lev));
    assert At(m1, Over(p, lev)) == b && At(m2, Over(p, lev)) == b && At(m', Over(p, lev)) == b;
    var trail := Trail(m', p, lev - 1);
    assert Trail(m', p, lev) == [b] + trail;
    VisitFirst(m.bufs, b, trail, lev);
    VisitAllSame(m2.bufs, m1.bufs, trail, lev - 1);
  }

  lemma {:induction false} FollowPreserves(m: Writer, p: Id, lev: nat, supply: seq<int>, past: seq<int>,
                                           given: seq<int>, kept: Disk)
    requires Steady(m, past, given, kept) && p.lev == 0 && lev <= p.root && Fresh(supply, given)
    requires At(m, Over(p, lev)) != 0 && Present(m, Over(p, lev)) && (lev > 0 ==> At(m, p) == 0)
    requires InBuffers(m, p, lev) || NothingBelow(m, Over(p, lev))
    ensures Visited(m, Follow(m, At(m, Over(p, lev)), lev, p.j, supply).0, p, lev)
    decreases lev
  {
    hide Addr, View, At, Fetch, Stocked, Keeps, Own, Under, Steady, Changed, Fresh, Store, Visited, Present,
      InBuffers, NothingBelow, Complete;
    if lev == 0 {
      VisitedNone(m, p, 0);
    } else {
      var b := At(m, Over(p, lev));
      var m1, s, i := Fetch(m, b, lev), BufferFor(m.bufs, b), Index(p.j, lev);
      FetchStep(m, p, lev, past, given, kept);
      FetchPreserves(m, p, lev, past, given, kept);
      SamePreserved(m, m1);
      if m1.bufs[s].indir[i] != 0 {
        if lev > 1 {
          CompletePresent(m1, Over(p, lev - 1));
          FollowPreserves(m1, p, lev - 1, supply, past, given, kept);
          VisitedStep(m, m1, m1, Follow(m1, At(m1, Over(p, lev - 1)), lev - 1, p.j, supply).0, p, lev);
        } else {
          StillZero(m, m1, p, p);
          assert false;
        }
      } else if supply == [] {
        VisitedNone(m1, p, lev - 1);
        VisitedStep(m, m1, m1, m1, p, lev);
      } else {
        var m2 := Store(m1, s, i, supply[0]);
        FreshRest(supply, given);
        StoreStep(m1, s, p, lev, supply[0], past, given, kept);
        StorePreserves(m1, s, p, lev, supply[0], past, given, kept);
        FollowPreserves(m2, p, lev - 1, supply[1..], past, given + [supply[0]], kept);
        VisitedStep(m, m1, m2, Follow(m2, supply[0], lev - 1, p.j, supply[1..]).0, p, lev);
      }
    }
  }

  lemma VisitedNone(m: Writer, p: Id, lev: nat)
    requires lev == 0 || At(m, Over(p, lev)) == 0
    ensures Visited(m, m, p, lev)
  {
  }

  lemma SamePreserved(m: Writer, m1: Writer)
    requires forall y :: At(m1, y) == At(m, y)
    ensures Preserved(m, m1) && Preserved(m1, m1)
  {
  }

  lemma StorePreserves(m: Writer, s: nat, p: Id, lev: nat, c: int, past: seq<int>, given: seq<int>, kept: Disk)
    requires Steady(m, past, given, kept) && Complete(m) && s < NBUFIN && p.lev == 0 && 0 < lev <= p.root
    requires m.bufs[s].bn == At(m, Over(p, lev)) != 0 && m.bufs[s].indlev != 0 && At(m, Over(p, lev - 1)) == 0
    requires c != 0 && c !in given
    ensures
      var m2 := Store(m, s, Index(p.j, lev), c);
      Preserved(m, m2) && SameTags(m2.bufs, m.bufs) && NothingBelow(m2, Over(p, lev - 1))
  {
    hide Addr, View, At, Stocked, Keeps, Own, Under;
    var y := Over(p, lev - 1);
    NextEntry(p, lev);
    SteadyNothing(m, past, given, kept);
    ZeroUnder(m, y);
    var m2 := Store(m, s, y.j % NINDIR, c);
    forall z
      ensures At(m2, z) == if z == y then c else At(m, z)
    {
      StoreTree(m, s, y, c, past, given, z);
    }
  }

  // ----- when something is lost

  /** A block that exists but is in no buffer loses all it held but the way to p. */
  lemma MissLoses(m: Writer, p: Id, lev: nat, supply: seq<int>, past: seq<int>, given: seq<int>, kept: Disk, q: Id)
    requires Steady(m, past, given, kept) && p.lev == 0 && 0 < lev <= p.root && Fresh(supply, given)
    requires At(m, Over(p, lev)) != 0 && Present(m, Over(p, lev)) && At(m, p) == 0
    requires Missing(m.bufs, At(m, Over(p, lev))) && q.lev == 0 && Under(q, Over(p, lev)) && q != p
    ensures At(Follow(m, At(m, Over(p, lev)), lev, p.j, supply).0, q) == 0
  {
    hide Addr, View, At, Fetch, Stocked, Keeps, Own, Under, Steady, Changed, Fresh, Store;
    var b := At(m, Over(p, lev));
    var m1, s, i := Fetch(m, b, lev), BufferFor(m.bufs, b), Index(p.j, lev);
    FetchStep(m, p, lev, past, given, kept);
    SteadyOwn(m, past, given, kept);
    FetchTree(m, Over(p, lev), past, given, q);
    if m1.bufs[s].indir[i] != 0 {
      if lev > 1 {
        CompletePresent(m1, Over(p, lev - 1));
        StillZero(m, m1, p, p);
        FollowKeeps(m1, p, lev - 1, supply, past, given, kept);
        ChangedElsewhere(m1, Follow(m1, At(m1, Over(p, lev - 1)), lev - 1, p.j, supply).0, p, supply, q);
      }
    } else if supply != [] {
      var m2 := Store(m1, s, i, supply[0]);
      FreshRest(supply, given);
      StoreStep(m1, s, p, lev, supply[0], past, given, kept);
      StillZero(m, m1, p, p);
      ChangedElsewhere(m1, m2, p, [supply[0]], q);
      FollowKeeps(m2, p, lev - 1, supply[1..], past, given + [supply[0]], kept);
      ChangedElsewhere(m2, Follow(m2, supply[0], lev - 1, p.j, supply[1..]).0, p, supply[1..], q);
    }
  }

  lemma SteadyOwn(m: Writer, past: seq<int>, given: seq<int>, kept: Disk)
    requires Steady(m, past, given, kept)
    ensures Stocked(m.bufs, past, given) && Own(m, past, given)
  {
  }

  /** Other data blocks keep their addresses or lose them. */
  lemma ChangedElsewhere(m: Writer, m': Writer, p: Id, supply: seq<int>, q: Id)
    requires Changed(m, m', p, supply) && p.lev == q.lev == 0 && q != p
    ensures At(m', q) == At(m, q) || At(m', q) == 0
  {
    hide At;
  }

  // ----- a whole write

  lemma {:induction false} WriteKeeps(m: Writer, k: nat, supply: seq<int>, past: seq<int>, given: seq<int>, kept: Disk)
    requires Steady(m, past, given, kept) && Complete(m) && Fresh(supply, given) && At(m, Place(k)) == 0
    requires Levels(k) == 4 ==> supply == []
    ensures
      var (m', r) := Write(m, k, supply);
      Wrote(m, m', r, Place(k), supply, past, given, kept)
  {
    hide Addr, View, At, Stocked, Keeps, Own, Under, Steady, Changed, Fresh, Levels, First, Follow, Wrote, Complete;
    var p := Place(k);
    if p.root == 4 {
      Unchanged(m, p, past, given, kept);
    } else {
      var a := if p.root == 0 then k else NDIRECT + p.root - 1;
      RootIs(m, k);
      CompletePresent(m, Over(p, p.root));
      if m.addr[a] != 0 {
        FollowKeeps(m, p, p.root, supply, past, given, kept);
      } else if supply == [] {
        ZeroBelow(m, p, p.root);
        Unchanged(m, p, past, given, kept);
      } else {
        var m1 := m.(addr := m.addr[a := supply[0]]);
        FreshRest(supply, given);
        RootStep(m, k, a, supply[0], past, given, kept);
        FollowKeeps(m1, p, p.root, supply[1..], past, given + [supply[0]], kept);
        var (m', r) := Follow(m1, supply[0], p.root, p.j, supply[1..]);
        WroteAfter(m, m1, m', r, p, [supply[0]], supply[1..], supply, past, given, given + [supply[0]], kept);
      }
    }
  }

  lemma Unchanged(m: Writer, p: Id, past: seq<int>, given: seq<int>, kept: Disk)
    requires Steady(m, past, given, kept) && Complete(m) && At(m, p) == 0
    ensures Wrote(m, m, Nothing, p, [], past, given, kept)
  {
    hide Addr, View;
    assert given + [] == given;
  }

  /** The first address on the way to a place is in the inode. */
  lemma RootIs(m: Writer, k: nat)
    requires Levels(k) < 4
    ensures
      var p := Place(k);
      && Over(p, p.root) == Id(p.root, p.root, if p.root == 0 then k else 0)
      && (p.root == 0 ==> k < NDIRECT && First(0) == 0)
      && At(m, Over(p, p.root)) == m.addr[if p.root == 0 then k else NDIRECT + p.root - 1]
  {
    hide View;
    if Levels(k) == 0 {
      Ranges(k);
    } else {
      InSpan(k);
      TopIs(m.addr, Now(m), Levels(k), k - First(Levels(k)));
    }
  }

  lemma RootStep(m: Writer, k: nat, a: nat, c: int, past: seq<int>, given: seq<int>, kept: Disk)
    requires Steady(m, past, given, kept) && Complete(m) && Levels(k) < 4 && c != 0 && c !in given
    requires a == (if Levels(k) == 0 then k else NDIRECT + Levels(k) - 1) && a < NADDR && m.addr[a] == 0
             && At(m, Place(k)) == 0
    ensures
      var m1, p := m.(addr := m.addr[a := c]), Place(k);
      && Steady(m1, past, given + [c], kept) && Present(m1, Over(p, p.root)) && Changed(m, m1, p, [c])
      && At(m1, Over(p, p.root)) == c && (p.root > 0 ==> At(m1, p) == 0)
      && Preserved(m, m1) && NothingBelow(m1, Over(p, p.root))
  {
    hide Addr, View, At, Stocked, Keeps, Own, Levels, First;
    var m1, p := m.(addr := m.addr[a := c]), Place(k);
    var y := Over(p, p.root);
    RootIs(m, k);
    RootKeeps(m, a, y, c, past, given, kept);
    SteadyNothing(m, past, given, kept);
    ZeroUnder(m, y);
    forall z
      ensures At(m1, z) == if z == y then c else At(m, z)
    {
      RootTree(m, a, y, c, past, given, z);
    }
  }

  lemma WritePreserves(m: Writer, k: nat, supply: seq<int>, past: seq<int>, given: seq<int>, kept: Disk)
    requires Steady(m, past, given, kept) && Complete(m) && Fresh(supply, given) && At(m, Place(k)) == 0
    requires InBuffers(m, Place(k), Place(k).root)
    ensures Visited(m, Write(m, k, supply).0, Place(k), Place(k).root)
  {
    hide Addr, View, At, Stocked, Keeps, Own, Under, Steady, Changed, Fresh, Levels, First, Follow, Complete, Visited,
      InBuffers, NothingBelow;
    var p := Place(k);
    if p.root == 4 {
      NoBlock(m, p);
      VisitedNone(m, p, 4);
    } else {
      var a := if p.root == 0 then k else NDIRECT + p.root - 1;
      RootIs(m, k);
      CompletePresent(m, Over(p, p.root));
      if m.addr[a] != 0 {
        FollowPreserves(m, p, p.root, supply, past, given, kept);
      } else if supply == [] {
        VisitedNone(m, p, p.root);
      } else {
        var m1 := m.(addr := m.addr[a := supply[0]]);
        FreshRest(supply, given);
        RootStep(m, k, a, supply[0], past, given, kept);
        FollowPreserves(m1, p, p.root, supply[1..], past, given + [supply[0]], kept);
        VisitedRoot(m, m1, Follow(m1, supply[0], p.root, p.j, supply[1..]).0, p);
      }
    }
  }

  lemma NoBlock(m: Writer, p: Id)
    requires p.root == 4
    ensures At(m, Over(p, 4)) == 0
  {
    NoRoot(m.addr, Now(m), Over(p, 4));
  }

  lemma VisitedRoot(m: Writer, m1: Writer, m': Writer, p: Id)
    requires Preserved(m, m1) && m1.bufs == m.bufs && Visited(m1, m', p, p.root)
    ensures Visited(m, m', p, p.root)
  {
    hide At;
    forall y | At(m, y) != 0
      ensures At(m', y) == At(m, y)
    {
      assert At(m1, y) == At(m, y);
    }
  }
}
