/** What a whole file comes to in pass 1 of dcopy.c: call after call of bmap, also when alloc has run out. */
module BmapFile {
  import FreeChain
  import opened AddressTree
  import opened AddressNodes
  import opened IndirectBuffers
  import opened BmapSpec
  import opened BmapOrder

  // ----- the buffer for the triple-indirect block

  /** At most one buffer is at level 3, and it holds the triple-indirect block. */
  ghost predicate OneTop(m: Writer) {
    && (forall s :: 0 <= s < NBUFIN ==>
         m.bufs[s].indlev <= 3 && (m.bufs[s].indlev == 3 ==> m.bufs[s].bn == m.addr[NDIRECT + 2]))
    && forall s, t :: 0 <= s < t < NBUFIN ==> m.bufs[s].indlev < 3 || m.bufs[t].indlev < 3
  }

  lemma Freeable(m: Writer)
    requires OneTop(m)
    ensures m.bufs[Lowest(m.bufs)].indlev <= 2
  {
    assert m.bufs[0].indlev < 3 || m.bufs[1].indlev < 3;
  }

  lemma TopFetch(m: Writer, b: int, lev: nat)
    requires OneTop(m) && 1 <= lev <= 3 && (lev == 3 ==> b == m.addr[NDIRECT + 2])
    ensures OneTop(Fetch(m, b, lev))
  {
    Freeable(m);
    if Missing(m.bufs, b) && lev == 3 {
      assert m.bufs[0].indlev < 3 && m.bufs[1].indlev < 3 && m.bufs[2].indlev < 3;
    }
  }

  // ----- when alloc has run out

  /** The blocks on the way to p are in buffers. */
  ghost predicate Held(m: Writer, p: Id) {
    forall l: nat :: 1 <= l <= p.root && At(m, Over(p, l)) != 0 ==> Holds(m.bufs, At(m, Over(p, l)), l)
  }

  /** No place below y has an address. */
  ghost predicate NoData(m: Writer, y: Id) {
    forall q: nat :: Under(Place(q), y) ==> At(m, Place(q)) == 0
  }

  /** From here on nothing is lost: the blocks to come are in buffers, or there is nothing below them. */
  ghost predicate Stopped(m: Writer, calls: seq<nat>) {
    calls != [] ==>
      var p := Place(Last(calls));
      || Held(m, p)
      || (p.root == 3 && At(m, TRIPLE) != 0 && Holds(m.bufs, At(m, TRIPLE), 3) && NoData(m, Over(p, 2)))
  }

  /** What is there on the way to the next place was on the way to the last one. */
  lemma SameWay(m: Writer, calls: seq<nat>, k: nat, l: nat)
    requires Reached(m, calls) && Ascending(calls + [k]) && l <= Place(k).root && At(m, Over(Place(k), l)) != 0
    ensures 1 <= l && calls != [] && Over(Place(Last(calls)), l) == Over(Place(k), l)
    ensures Place(Last(calls)).root == Place(k).root
  {
    hide At, First, Levels;
    AscendingFront(calls, k);
    var y := Over(Place(k), l);
    assert Upto(y, Place(Last(calls)));
    UptoOnWay(y, Last(calls), k);
  }

  /** A write for which alloc has no block, with all that is on its way in buffers, changes nothing. */
  lemma HeldStays(m: Writer, k: nat, past: seq<int>, given: seq<int>, kept: FreeChain.Disk)
    requires Steady(m, past, given, kept) && Complete(m) && k < First(4) && At(m, Place(k)) == 0 && Held(m, Place(k))
    ensures
      var m' := Write(m, k, []).0;
      (forall y :: At(m', y) == At(m, y)) && Held(m', Place(k))
  {
    hide At, First, Levels, Over, Holds, Missing, Place, Steady, Complete, Under, Write, Wrote, Trail;
    var m', p := Write(m, k, []).0, Place(k);
    LevelFour(k);
    PlaceIs(k);
    HeldInBuffers(m, p);
    WriteUnchanged(m, k, past, given, kept);
    TrailHits(m, m', p, p.root);
    AllHits(m.bufs, Trail(m', p, p.root), p.root);
    forall l: nat | 1 <= l <= p.root && At(m', Over(p, l)) != 0
      ensures Holds(m'.bufs, At(m', Over(p, l)), l)
    {
      SameHolds(m'.bufs, m.bufs, At(m', Over(p, l)), l);
    }
  }

  lemma HeldInBuffers(m: Writer, p: Id)
    requires Held(m, p)
    ensures InBuffers(m, p, p.root)
  {
    hide At, Over;
  }

  lemma WriteUnchanged(m: Writer, k: nat, past: seq<int>, given: seq<int>, kept: FreeChain.Disk)
    requires Steady(m, past, given, kept) && Complete(m) && k < First(4) && At(m, Place(k)) == 0
    requires InBuffers(m, Place(k), Place(k).root)
    ensures
      var m', p := Write(m, k, []).0, Place(k);
      (forall y :: At(m', y) == At(m, y)) && SameTags(m'.bufs, VisitAll(m.bufs, Trail(m', p, p.root), p.root))
  {
    hide At, First, Levels, Over, Missing, Place, Steady, Complete, Under, Write, Trail, VisitAll, SameTags,
      InBuffers;
    var m', p := Write(m, k, []).0, Place(k);
    LevelFour(k);
    PlaceIs(k);
    WriteKeeps(m, k, [], past, given, kept);
    WritePreserves(m, k, [], past, given, kept);
    forall y
      ensures At(m', y) == At(m, y)
    {
      assert At(m', y) == At(m, y) || At(m', y) == 0;
    }
  }

  /** The triple-indirect block is not given up. */
  lemma TopHeld(m: Writer, b: int, lev: nat)
    requires OneTop(m)
    ensures forall t :: Holds(m.bufs, t, 3) ==> Holds(Fetch(m, b, lev).bufs, t, 3)
  {
    Freeable(m);
  }

  /** From block Over(p, lev) down, without alloc, only what is below it can be lost. */
  lemma {:induction false} FollowBelow(m: Writer, p: Id, lev: nat, past: seq<int>, given: seq<int>,
                                       kept: FreeChain.Disk)
    requires Steady(m, past, given, kept) && p.lev == 0 && lev <= p.root && lev <= 2 && OneTop(m)
    requires At(m, Over(p, lev)) != 0 && Present(m, Over(p, lev)) && (lev > 0 ==> At(m, p) == 0)
    ensures
      var m' := Follow(m, At(m, Over(p, lev)), lev, p.j, []).0;
      && (forall y :: !Under(y, Over(p, lev)) ==> At(m', y) == At(m, y))
      && (forall t :: Holds(m.bufs, t, 3) ==> Holds(m'.bufs, t, 3))
    decreases lev
  {
    hide Addr, View, At, Fetch, Stocked, Keeps, Own, Steady, Changed, Present, Complete, Under, Holds, OneTop;
    if lev > 0 {
      var x, b := Over(p, lev), At(m, Over(p, lev));
      var m1, s, i := Fetch(m, b, lev), BufferFor(m.bufs, b), Index(p.j, lev);
      FetchStep(m, p, lev, past, given, kept);
      SteadyOwn(m, past, given, kept);
      TopFetch(m, b, lev);
      TopHeld(m, b, lev);
      forall y | !Under(y, x)
        ensures At(m1, y) == At(m, y) && !Under(y, Over(p, lev - 1))
      {
        FetchTree(m, x, past, given, y);
        BelowNext(y, p, lev);
      }
      StillZero(m, m1, p, p);
      if m1.bufs[s].indir[i] != 0 && lev > 1 {
        CompletePresent(m1, Over(p, lev - 1));
        FollowBelow(m1, p, lev - 1, past, given, kept);
      }
    }
  }

  lemma BelowNext(y: Id, p: Id, lev: nat)
    requires p.lev == 0 && lev > 0
    ensures Under(y, Over(p, lev - 1)) ==> Under(y, Over(p, lev))
  {
    assert Over(p, lev - 1).lev == lev - 1 && Over(p, lev).lev == lev;
  }

  /** A write for which alloc has no block loses nothing, and goes on so. */
  lemma StopsOn(m: Writer, calls: seq<nat>, k: nat, past: seq<int>, given: seq<int>, kept: FreeChain.Disk)
    requires Steady(m, past, given, kept) && Complete(m) && Reached(m, calls) && Stopped(m, calls) && OneTop(m)
    requires Ascending(calls + [k])
    ensures
      var m' := Write(m, k, []).0;
      (forall j: nat :: At(m', Place(j)) == At(m, Place(j))) && Stopped(m', calls + [k])
  {
    hide At, First, Levels, Over, Holds, Steady, Complete, Under, Write, Reached, OneTop, Held, NoData, Place,
      Ascending;
    AscendingFront(calls, k);
    NotThere(m, calls, k);
    assert Last(calls + [k]) == k;
    WayHeld(m, calls, k);
    if Held(m, Place(k)) {
      HeldStays(m, k, past, given, kept);
    } else {
      NothingToLose(m, k, past, given, kept);
    }
  }

  /** The way to the next place: it is in buffers, or that of the last place was not. */
  lemma WayHeld(m: Writer, calls: seq<nat>, k: nat)
    requires Reached(m, calls) && Stopped(m, calls) && Ascending(calls + [k])
    ensures Held(m, Place(k)) || (Place(k).root == 3 && At(m, Over(Place(k), 2)) != 0 && At(m, TRIPLE) != 0
                                  && Holds(m.bufs, At(m, TRIPLE), 3) && NoData(m, Over(Place(k), 2)))
  {
    hide At, First, Levels, Over, Holds, Reached, Ascending, NoData, Under;
    var p := Place(k);
    if !Held(m, p) {
      var l: nat :| 1 <= l <= p.root && At(m, Over(p, l)) != 0 && !Holds(m.bufs, At(m, Over(p, l)), l);
      SameWay(m, calls, k, l);
      AscendingFront(calls, k);
      forall i: nat | 1 <= i <= p.root && At(m, Over(p, i)) != 0
        ensures Over(Place(Last(calls)), i) == Over(p, i)
      {
        SameWay(m, calls, k, i);
      }
      assert !Held(m, Place(Last(calls)));
      TripleTop(k, p.root);
      PlaceIs(k);
      if At(m, Over(p, 2)) == 0 {
        ZeroAbove(m, p, 1);
        assert false;
      }
    }
  }

  lemma TripleTop(k: nat, r: nat)
    requires r == Place(k).root
    ensures r == 3 ==> k >= LIMIT && k < First(4) && Over(Place(k), 3) == TRIPLE
  {
    if r == 3 {
      Ranges(k);
      GroupIs(k);
    }
  }

  /** The double-indirect block may be fetched, but there is nothing below it. */
  lemma NothingToLose(m: Writer, k: nat, past: seq<int>, given: seq<int>, kept: FreeChain.Disk)
    requires Steady(m, past, given, kept) && Complete(m) && OneTop(m) && At(m, Place(k)) == 0 && k < First(4)
    requires Place(k).root == 3 && At(m, Over(Place(k), 2)) != 0 && At(m, TRIPLE) != 0
    requires Holds(m.bufs, At(m, TRIPLE), 3) && NoData(m, Over(Place(k), 2))
    ensures
      var m' := Write(m, k, []).0;
      && (forall j: nat :: At(m', Place(j)) == At(m, Place(j))) && NoData(m', Over(Place(k), 2))
      && At(m', TRIPLE) == At(m, TRIPLE) && Holds(m'.bufs, At(m', TRIPLE), 3)
  {
    hide At, First, Levels, Over, Holds, Steady, Complete, Under, Follow, OneTop, Changed, Present;
    var m', p := Write(m, k, []).0, Place(k);
    TripleTop(k, 3);
    PlaceIs(k);
    RootIs(m, k);
    CompletePresent(m, Over(p, 3));
    CompletePresent(m, Over(p, 2));
    FollowHit(m, p, [], past, given, kept);
    FollowBelow(m, p, 2, past, given, kept);
    FollowKeeps(m, p, 2, [], past, given, kept);
    NotUnder(p);
    forall j: nat
      ensures At(m', Place(j)) == At(m, Place(j))
    {
      if Under(Place(j), Over(p, 2)) {
        ZeroStays(m, m', p, Place(j));
      }
    }
  }

  lemma NotUnder(p: Id)
    requires p.lev == 0
    ensures !Under(TRIPLE, Over(p, 2))
  {
  }

  lemma ZeroStays(m: Writer, m': Writer, p: Id, y: Id)
    requires Changed(m, m', p, []) && At(m, y) == 0
    ensures At(m', y) == 0
  {
    hide At, Under;
  }

  /** The first call that is refused, in a file that fits up to there. */
  lemma StopsNow(m: Writer, calls: seq<nat>, k: nat, at: Places)
    requires OnHand(m, calls + [k]) && Ascending(calls + [k]) && Fits(calls + [k])
    requires (forall j: nat :: At(m, Place(j)) == at(j)) && at(k) == 0
             && forall j: nat :: at(j) != 0 ==> j in calls + [k]
    ensures Stopped(m, calls + [k])
  {
    hide At, First, Levels, Over, Holds, Under, Ascending, Fits, Groups, Again, Early, Spent;
    var all, p := calls + [k], Place(k);
    assert Last(all) == k;
    if Spent(all) && !Held(m, p) {
      SpentTriple(all);
      AscendingFront(calls, k);
      GroupIs(k);
      PlaceIs(k);
      if At(m, TRIPLE) == 0 {
        ZeroUnderTop(m, p);
        ZeroAbove(m, p, 1);
        assert false;
      }
      forall q: nat | Under(Place(q), Over(p, 2))
        ensures At(m, Place(q)) == 0
      {
        if q in calls {
          FirstOfGroup(calls, k, q);
        }
      }
    }
  }

  /** The group that makes one too many has no calls before. */
  lemma FirstOfGroup(calls: seq<nat>, k: nat, q: nat)
    requires Ascending(calls + [k]) && Fits(calls + [k]) && Spent(calls + [k]) && LIMIT <= k && q in calls
    ensures !Under(Place(q), Over(Place(k), 2))
  {
    hide First, Levels, Over, Under, Groups;
    if Under(Place(q), Over(Place(k), 2)) {
      AscendingFront(calls, k);
      OneMore(calls, k);
      InGroup(calls, k, q);
    }
  }

  lemma InGroup(calls: seq<nat>, k: nat, q: nat)
    requires Ascending(calls + [k]) && LIMIT <= k < First(4) && q in calls && Under(Place(q), Over(Place(k), 2))
    ensures Again(calls, k)
  {
    hide First, Levels, Over;
    AscendingFront(calls, k);
    GroupIs(k);
    var i :| 0 <= i < |calls| && calls[i] == q;
    assert q <= Last(calls) < k;
    assert Place(q).root == 3;
    TripleTop(q, 3);
    GroupIs(q);
    GroupOf(q, Group(k));
    GroupOf(k, Group(k));
    GroupOf(Last(calls), Group(k));
  }

  // ----- a whole file

  /** Every address given out can be read, and the buffers hold what is needed. */
  ghost predicate Whole(m: Writer, calls: seq<nat>, at: Places, full: bool) {
    && (forall k: nat :: At(m, Place(k)) == at(k))
    && if full then OnHand(m, calls) && InOrder(m, calls) else Stopped(m, calls)
  }

  /** An address given out cannot be read any more. */
  ghost predicate Damaged(m: Writer, at: Places) {
    exists k: nat :: at(k) != 0 && At(m, Place(k)) == 0
  }

  /**
   at has the answers; full says that all calls so far got an address; live
   are the calls up to the first one that did not. Whether anything is lost
   depends on these.
   */
  ghost predicate Running(m: Writer, calls: seq<nat>, at: Places, full: bool, live: seq<nat>, past: seq<int>,
                          given: seq<int>, kept: FreeChain.Disk) {
    && Steady(m, past, given, kept) && Complete(m) && Ascending(calls) && Reached(m, calls)
    && (forall k: nat :: At(m, Place(k)) == at(k) || At(m, Place(k)) == 0)
    && (forall k: nat :: at(k) != 0 ==> k in calls)
    && (full ==> live == calls && forall k :: k in calls ==> at(k) != 0)
    && if Fits(live) then Whole(m, calls, at, full) else Damaged(m, at)
  }

  function SetPlace(at: Places, k: nat, x: int): Places {
    (i: nat) => if i == k then x else at(i)
  }

  lemma PlacesDiffer(j: nat, k: nat)
    requires j != k
    ensures Place(j) != Place(k)
  {
  }

  /** A call in a group that has been given up: what the last call wrote is lost. */
  lemma CallLoses(m: Writer, calls: seq<nat>, k: nat, supply: seq<int>, past: seq<int>, given: seq<int>,
                  kept: FreeChain.Disk)
    requires Steady(m, past, given, kept) && Complete(m) && Fresh(supply, given) && Ascending(calls + [k])
    requires Reached(m, calls) && OnHand(m, calls) && InOrder(m, calls) && Again(calls, k) && Spent(calls)
    ensures At(Write(m, k, supply).0, Place(Last(calls))) == 0
  {
    hide At, First, Levels, Groups, Holds, Shape, Reached, Steady, Complete, Fresh, Ascending, Follow, Early, Missing,
      Own, Present, Fetch, Index;
    AscendingFront(calls, k);
    NotThere(m, calls, k);
    GroupIs(k);
    GroupIs(Last(calls));
    var p := Place(k);
    var t, d := At(m, Over(p, 3)), At(m, Over(p, 2));
    if t == 0 {
      ZeroUnderTop(m, p);
    }
    assert Holds(m.bufs, t, 3);
    RootIs(m, k);
    CompletePresent(m, Over(p, 3));
    CompletePresent(m, Over(p, 2));
    FollowHit(m, p, supply, past, given, kept);
    assert Under(Place(Last(calls)), Over(p, 2));
    PlacesDiffer(Last(calls), k);
    MissLoses(m, p, 2, supply, past, given, kept, Place(Last(calls)));
  }

  lemma ZeroUnderTop(m: Writer, p: Id)
    requires p.lev == 0 && p.root == 3 && At(m, Over(p, 3)) == 0
    ensures At(m, Over(p, 2)) == 0
  {
    ZeroAbove(m, p, 2);
  }

  /** The triple-indirect block is in its buffer, and the next one is looked for. */
  lemma FollowHit(m: Writer, p: Id, supply: seq<int>, past: seq<int>, given: seq<int>, kept: FreeChain.Disk)
    requires Steady(m, past, given, kept) && p.lev == 0 && p.root == 3 && Present(m, Over(p, 3))
    requires Holds(m.bufs, At(m, Over(p, 3)), 3) && At(m, Over(p, 3)) != 0 && At(m, Over(p, 2)) != 0
    ensures Follow(m, At(m, Over(p, 3)), 3, p.j, supply) == Follow(m, At(m, Over(p, 2)), 2, p.j, supply)
  {
    hide At, Steady, Complete, Present;
    FetchStep(m, p, 3, past, given, kept);
    FetchHeld(m, At(m, Over(p, 3)));
  }

  lemma FetchHeld(m: Writer, b: int)
    requires Holds(m.bufs, b, 3)
    ensures Fetch(m, b, 3) == m
  {
  }

  /** One more call, whatever it is. */
  lemma CallKeeps(m: Writer, calls: seq<nat>, at: Places, full: bool, live: seq<nat>, k: nat, supply: seq<int>,
                  past: seq<int>, given: seq<int>, kept: FreeChain.Disk)
    requires Running(m, calls, at, full, live, past, given, kept) && OneTop(m)
    requires Ascending(calls + [k]) && Fresh(supply, given) && (!full ==> supply == [])
    ensures
      var (m', r) := Write(m, k, supply);
      && Wrote(m, m', r, Place(k), supply, past, given, kept)
      && Running(m', calls + [k], SetPlace(at, k, At(m', Place(k))), full && r.Address?,
                 if full then calls + [k] else live, past, given + supply, kept)
  {
    hide At, First, Levels, Steady, Complete, Fresh, Write, Ascending, Fits, Whole, Damaged, Reached, Changed, OneTop;
    var (m', r) := Write(m, k, supply);
    var p := Place(k);
    AscendingFront(calls, k);
    NotThere(m, calls, k);
    LevelFour(k);
    WriteKeeps(m, k, supply, past, given, kept);
    ReachedAfter(m, m', calls, k, supply);
    OneMore(calls, k);
    NotYetCalled(calls, k);
    forall j: nat
      ensures At(m', Place(j)) == SetPlace(at, k, At(m', Place(k)))(j) || At(m', Place(j)) == 0
    {
      if j != k {
        PlacesDiffer(j, k);
        ChangedElsewhere(m, m', p, supply, Place(j));
      }
    }
    if !Fits(live) {
      StaysDamaged(m, m', at, k, supply);
    } else if !full {
      StaysWhole(m, calls, at, k, past, given, kept);
    } else if Fits(calls + [k]) {
      WholeAfter(m, calls, at, k, supply, past, given, kept);
    } else {
      BreaksNow(m, calls, at, k, supply, past, given, kept);
    }
  }

  /** Once alloc has run out. */
  lemma StaysWhole(m: Writer, calls: seq<nat>, at: Places, k: nat, past: seq<int>, given: seq<int>,
                   kept: FreeChain.Disk)
    requires Steady(m, past, given, kept) && Complete(m) && Ascending(calls + [k]) && Reached(m, calls) && OneTop(m)
    requires Whole(m, calls, at, false) && at(k) == 0
    ensures
      var m' := Write(m, k, []).0;
      Whole(m', calls + [k], SetPlace(at, k, At(m', Place(k))), false)
  {
    hide At, First, Levels, Steady, Complete, Write, Ascending, Reached, Stopped, OneTop, Place;
    StopsOn(m, calls, k, past, given, kept);
  }

  lemma NotYetCalled(calls: seq<nat>, k: nat)
    requires Ascending(calls + [k])
    ensures k !in calls
  {
    var all := calls + [k];
    forall i | 0 <= i < |calls|
      ensures calls[i] != k
    {
      assert all[i] == calls[i] && all[|calls|] == k;
    }
  }

  lemma StaysDamaged(m: Writer, m': Writer, at: Places, k: nat, supply: seq<int>)
    requires Damaged(m, at) && at(k) == 0 && Changed(m, m', Place(k), supply)
    ensures Damaged(m', SetPlace(at, k, At(m', Place(k))))
  {
    hide At, Changed, Levels, First;
    var j: nat :| at(j) != 0 && At(m, Place(j)) == 0;
    PlacesDiffer(j, k);
    ChangedElsewhere(m, m', Place(k), supply, Place(j));
    assert SetPlace(at, k, At(m', Place(k)))(j) == at(j);
  }

  lemma BreaksNow(m: Writer, calls: seq<nat>, at: Places, k: nat, supply: seq<int>, past: seq<int>, given: seq<int>,
                  kept: FreeChain.Disk)
    requires Steady(m, past, given, kept) && Complete(m) && Fresh(supply, given) && Ascending(calls + [k])
             && Reached(m, calls)
    requires Whole(m, calls, at, true) && (forall i :: i in calls ==> at(i) != 0) && Fits(calls) && !Fits(calls + [k])
    ensures
      var m' := Write(m, k, supply).0;
      Damaged(m', SetPlace(at, k, At(m', Place(k))))
  {
    hide At, First, Levels, Steady, Complete, Fresh, Write, Ascending, Fits, Reached, Spent, OnHand, InOrder, Again;
    AscendingFront(calls, k);
    OneMore(calls, k);
    CallLoses(m, calls, k, supply, past, given, kept);
    AgainSome(calls, k);
    var j, m' := Last(calls), Write(m, k, supply).0;
    assert SetPlace(at, k, At(m', Place(k)))(j) == at(j) != 0;
  }

  lemma AgainSome(calls: seq<nat>, k: nat)
    requires Again(calls, k)
    ensures calls != [] && Last(calls) in calls
  {
  }

  lemma WholeAfter(m: Writer, calls: seq<nat>, at: Places, k: nat, supply: seq<int>, past: seq<int>, given: seq<int>,
                   kept: FreeChain.Disk)
    requires Steady(m, past, given, kept) && Complete(m) && Fresh(supply, given) && Ascending(calls + [k])
             && Reached(m, calls)
    requires Whole(m, calls, at, true) && Fits(calls + [k]) && at(k) == 0 && forall j: nat :: at(j) != 0 ==> j in calls
    ensures
      var (m', r) := Write(m, k, supply);
      Whole(m', calls + [k], SetPlace(at, k, At(m', Place(k))), r.Address?)
  {
    hide At, First, Levels, Steady, Complete, Fresh, Write, Ascending, Fits, Reached, Spent, OnHand, InOrder, Again,
      Passed, Changed, Preserved, Place, Stopped;
    var (m', r) := Write(m, k, supply);
    AscendingFront(calls, k);
    LevelsOf(k);
    NotThere(m, calls, k);
    WriteKeeps(m, k, supply, past, given, kept);
    WritePasses(m, calls, k, supply, past, given, kept);
    PassedPreserved(m, m', Place(k));
    var at' := SetPlace(at, k, At(m', Place(k)));
    forall j: nat
      ensures At(m', Place(j)) == at'(j)
    {
      if j != k {
        OtherPlace(m, m', k, supply, j);
      }
    }
    OrderAfter(m, m', calls, k, supply);
    if !r.Address? {
      StopsNow(m', calls, k, at');
    }
  }

  lemma LevelsOf(k: nat)
    requires k < First(4)
    ensures Levels(k) != 4 && Place(k).lev == 0
  {
  }

  lemma OtherPlace(m: Writer, m': Writer, k: nat, supply: seq<int>, j: nat)
    requires Changed(m, m', Place(k), supply) && Preserved(m, m') && j != k
    ensures At(m', Place(j)) == At(m, Place(j))
  {
    hide At, First, Levels;
    PlacesDiffer(j, k);
    Elsewhere(m, m', Place(k), supply, Place(j));
  }

  lemma {:induction false} AllHits(bufs: Buffers, trail: seq<int>, lev: nat)
    requires forall x :: x in trail ==> !Missing(bufs, x)
    ensures VisitAll(bufs, trail, lev) == bufs
    decreases |trail|
  {
    if trail != [] {
      AllHits(bufs, trail[1..], if lev > 0 then lev - 1 else 0);
    }
  }

  lemma {:induction false} TrailHits(m: Writer, m': Writer, p: Id, lev: nat)
    requires InBuffers(m, p, lev)
             && forall l: nat :: 1 <= l <= lev && At(m', Over(p, l)) != 0 ==> At(m, Over(p, l)) == At(m', Over(p, l))
    ensures forall x :: x in Trail(m', p, lev) ==> !Missing(m.bufs, x)
  {
    hide At, Over, Missing;
    if lev > 0 && At(m', Over(p, lev)) != 0 {
      TrailHits(m, m', p, lev - 1);
    }
  }
}
