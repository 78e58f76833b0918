/** dcopy.c, pass 1: the address tree of the file being written, with its indirect blocks in three buffers. */
module DcopyMap {
  import opened FreeChain
  import opened AddressTree
  import opened AddressNodes
  import opened IndirectBuffers
  import opened BmapSpec
  import opened BmapOrder
  import opened BmapFile
  import opened DcopyAlloc

  // ----- the calls of bmap that a file takes

  /** The places of a file that are not holes, as far as bmap can reach. */
  function Calls(present: seq<bool>): seq<nat> {
    if present == [] then []
    else
      var n := |present| - 1;
      Calls(present[..n]) + if present[n] && n < First(4) then [n] else []
  }

  lemma {:induction false} CallsAscend(present: seq<bool>)
    ensures Ascending(Calls(present)) && forall k :: k in Calls(present) ==> k < |present| && present[k]
  {
    hide First, Ascending;
    if present == [] {
      NoneAscend();
    } else {
      var n := |present| - 1;
      var front := Calls(present[..n]);
      CallsAscend(present[..n]);
      assert forall k :: k in front ==> k < n && present[..n][k] == present[k];
      if present[n] && n < First(4) {
        MoreAscending(front, n);
      } else {
        assert Calls(present) == front;
      }
    }
  }

  lemma NoneAscend()
    ensures Ascending([])
  {
  }

  lemma MoreAscending(calls: seq<nat>, k: nat)
    requires Ascending(calls) && (forall i :: i in calls ==> i < k) && k < First(4)
    ensures Ascending(calls + [k]) && (calls != [] ==> Last(calls) < k)
  {
    hide First;
    assert forall i :: 0 <= i < |calls| ==> calls[i] in calls;
  }

  lemma CallsStep(present: seq<bool>, k: nat)
    requires k < |present|
    ensures Calls(present[..k + 1]) == Calls(present[..k]) + if present[k] && k < First(4) then [k] else []
    ensures Ascending(Calls(present[..k + 1]))
  {
    assert present[..k + 1][..k] == present[..k];
    CallsAscend(present[..k + 1]);
  }

  lemma {:induction false} DenseCalls(n: nat)
    requires n <= First(4)
    ensures Calls(seq(n, _ => true)) == Range(0, n)
  {
    hide First;
    var present := seq(n, _ => true);
    if n > 0 {
      DenseCalls(n - 1);
      assert present[..n - 1] == seq(n - 1, _ => true);
      assert Range(0, n) == Range(0, n - 1) + [n - 1];
    }
  }

  /** A file that fits does so up to any place. */
  lemma {:induction false} FitsFront(present: seq<bool>, n: nat)
    requires Fits(Calls(present)) && n <= |present|
    ensures Fits(Calls(present[..n]))
    decreases |present|
  {
    hide Fits, First;
    if n < |present| {
      var k := |present| - 1;
      CallsStep(present, k);
      assert present[..k + 1] == present;
      OneMore(Calls(present[..k]), k);
      assert Calls(present[..k]) + [] == Calls(present[..k]);
      FitsFront(present[..k], n);
      assert present[..k][..n] == present[..n];
    } else {
      assert present[..n] == present;
    }
  }

  /** A file without holes fits exactly up to one place beyond the first group below the triple-indirect block. */
  lemma DenseFits(n: nat)
    requires n <= First(4)
    ensures Fits(Calls(seq(n, _ => true))) <==> n <= LIMIT + NINDIR * NINDIR + 1
  {
    hide Fits, First;
    DenseCalls(n);
    RangeFits(0, n);
    if n <= NDIRECT {
      RangeShort(n);
    }
  }

  lemma RangeShort(n: nat)
    requires n <= NDIRECT
    ensures n <= LIMIT + NINDIR * NINDIR + 1 && n <= LIMIT + 2 * (NINDIR * NINDIR) + 1
  {
  }

  // ----- the buffer for the triple-indirect block

  lemma TopRoot(m: Writer, a: nat, c: int, past: seq<int>, given: seq<int>)
    requires OneTop(m) && Stocked(m.bufs, past, given) && a < NADDR && m.addr[a] == 0
    ensures OneTop(m.(addr := m.addr[a := c]))
  {
  }

  // ----- what alloc has given during a call

  lemma FreshMore(used: seq<int>, x: int, given: seq<int>)
    requires Fresh(used, given) && x != 0 && x !in given + used
    ensures Fresh(used + [x], given)
  {
    forall i | 0 <= i < |used|
      ensures used[i] != x
    {
      assert used[i] in given + used;
    }
  }

  /** The loop has come to block b of level lev, with the addresses used so far. */
  ghost predicate Reaching(m0: Writer, b0: int, lev0: nat, bn: nat, used: seq<int>, m: Writer, b: int, lev: nat) {
    forall rest :: Follow(m0, b0, lev0, bn, used + rest) == Follow(m, b, lev, bn, rest)
  }

  lemma ReachingNow(m: Writer, b: int, lev: nat, bn: nat)
    ensures Reaching(m, b, lev, bn, [], m, b, lev)
  {
    forall rest: seq<int>
      ensures Follow(m, b, lev, bn, [] + rest) == Follow(m, b, lev, bn, rest)
    {
      assert [] + rest == rest;
    }
  }

  /** The next address is in the block. */
  lemma ReachingDown(m0: Writer, b0: int, lev0: nat, bn: nat, used: seq<int>, m: Writer, b: int, lev: nat)
    requires Reaching(m0, b0, lev0, bn, used, m, b, lev) && lev > 1
    requires Fetch(m, b, lev).bufs[BufferFor(m.bufs, b)].indir[Index(bn, lev)] != 0
    ensures
      var m1 := Fetch(m, b, lev);
      Reaching(m0, b0, lev0, bn, used, m1, m1.bufs[BufferFor(m.bufs, b)].indir[Index(bn, lev)], lev - 1)
  {
    hide Fetch, BufferFor, Index;
    var m1 := Fetch(m, b, lev);
    var nb := m1.bufs[BufferFor(m.bufs, b)].indir[Index(bn, lev)];
    forall rest
      ensures Follow(m0, b0, lev0, bn, used + rest) == Follow(m1, nb, lev - 1, bn, rest)
    {
      assert Follow(m0, b0, lev0, bn, used + rest) == Follow(m, b, lev, bn, rest);
    }
  }

  /** The next address has to be given out. */
  lemma ReachingNew(m0: Writer, b0: int, lev0: nat, bn: nat, used: seq<int>, m: Writer, b: int, lev: nat, x: int)
    requires Reaching(m0, b0, lev0, bn, used, m, b, lev) && lev > 0
    requires Fetch(m, b, lev).bufs[BufferFor(m.bufs, b)].indir[Index(bn, lev)] == 0
    ensures
      var m1, s := Fetch(m, b, lev), BufferFor(m.bufs, b);
      Reaching(m0, b0, lev0, bn, used + [x], Store(m1, s, Index(bn, lev), x), x, lev - 1)
  {
    hide Fetch, BufferFor, Index, Store;
    var m1, s := Fetch(m, b, lev), BufferFor(m.bufs, b);
    forall rest
      ensures Follow(m0, b0, lev0, bn, used + [x] + rest)
                == Follow(Store(m1, s, Index(bn, lev), x), x, lev - 1, bn, rest)
    {
      var more := [x] + rest;
      assert used + [x] + rest == used + more;
      assert Follow(m0, b0, lev0, bn, used + more) == Follow(m, b, lev, bn, more);
      assert more[0] == x && more[1..] == rest;
    }
  }

  /** The loop ends without an address. */
  lemma ReachingEnd(m0: Writer, b0: int, lev0: nat, bn: nat, used: seq<int>, m: Writer, b: int, lev: nat)
    requires Reaching(m0, b0, lev0, bn, used, m, b, lev)
    ensures Follow(m0, b0, lev0, bn, used) == Follow(m, b, lev, bn, [])
  {
    assert used + [] == used;
  }

  lemma FreshNone(given: seq<int>)
    ensures Fresh([], given)
  {
  }

  lemma FreshBoth(a: seq<int>, b: seq<int>, given: seq<int>)
    requires Fresh(a, given) && Fresh(b, given + a)
    ensures Fresh(a + b, given)
  {
    forall i | 0 <= i < |b|
      ensures b[i] !in given && b[i] !in a
    {
      assert b[i] !in given + a;
    }
  }

  lemma FollowDone(m: Writer, b: int, bn: nat)
    ensures Follow(m, b, 0, bn, []) == (m, Address(b))
  {
  }

  lemma TopStore(m: Writer, s: nat, i: nat, x: int)
    requires OneTop(m) && s < NBUFIN && i < NINDIR
    ensures OneTop(Store(m, s, i, x))
  {
  }

  // ----- levels

  lemma SpanOne()
    ensures Span(1) == NINDIR && First(1) == NDIRECT
  {
    Limits();
  }

  lemma SpanStep(lev: nat)
    requires lev >= 1
    ensures Span(lev + 1) == Span(lev) * NINDIR && First(lev + 1) == First(lev) + Span(lev)
  {
  }

  lemma LevelFound(k: nat, lev: nat)
    requires 1 <= lev <= 4 && k >= First(lev) && (lev < 4 ==> k < First(lev) + Span(lev))
    ensures Levels(k) == lev
  {
    FirstMono(1, lev);
    FirstMono(2, if lev >= 2 then lev else 2);
    FirstMono(3, if lev >= 3 then lev else 3);
    if lev < 4 {
      SpanStep(lev);
      FirstMono(lev + 1, 4);
      FirstMono(lev + 1, if lev < 3 then 3 else 4);
      FirstMono(lev + 1, if lev < 2 then 2 else 4);
    }
  }

  lemma LevelZero(k: nat)
    requires k < NDIRECT
    ensures Levels(k) == 0
  {
  }

  lemma ReachLevels(k: nat)
    ensures k < First(4) <==> Levels(k) < 4
  {
    FirstMono(3, 4);
    FirstMono(2, 4);
    FirstMono(1, 4);
  }

  // ----- a file, from fixaddr to flushaddr

  lemma RunningStocked(m: Writer, calls: seq<nat>, at: Places, full: bool, live: seq<nat>, past: seq<int>,
                       given: seq<int>, kept: Disk)
    requires Running(m, calls, at, full, live, past, given, kept)
    ensures Stocked(m.bufs, past, given) && forall b :: b in past ==> b in given
  {
  }

  /** The next place comes after those written, and there is nothing there yet. */
  lemma NextPlace(m: Writer, calls: seq<nat>, at: Places, full: bool, live: seq<nat>, past: seq<int>, given: seq<int>,
                  kept: Disk, k: nat)
    requires Running(m, calls, at, full, live, past, given, kept) && (forall i :: i in calls ==> i < k) && k < First(4)
    ensures Ascending(calls + [k]) && At(m, Place(k)) == 0
  {
    hide At, Steady, Complete, Fits, Whole, Damaged, First, Reached;
    MoreAscending(calls, k);
    NotThere(m, calls, k);
  }

  lemma TooFar(m: Writer, k: nat)
    requires Levels(k) == 4
    ensures Write(m, k, []) == (m, Nothing)
  {
  }

  lemma Answered(m: Writer, m': Writer, r: Result, k: nat, used: seq<int>, past: seq<int>, given: seq<int>, kept: Disk,
                 at: Places)
    requires Wrote(m, m', r, Place(k), used, past, given, kept) && At(m, Place(k)) == 0 && Fresh(used, given)
    ensures r != Fatal && At(m', Place(k)) == if r.Address? then r.bn else 0
    ensures r.Address? ==> r.bn != 0 && r.bn !in given && r.bn in given + used
  {
    hide At, Steady, Complete, Levels, First;
    if r.Address? {
      assert At(m', Place(k)) in used;
      var i :| 0 <= i < |used| && used[i] == r.bn;
    }
  }

  lemma {:induction false} NoTree(addr: seq<int>, v: Disk, y: Id)
    requires |addr| == NADDR && forall k :: 0 <= k < NADDR ==> addr[k] == 0
    ensures Addr(addr, v, y) == 0
    decreases y.root - y.lev
  {
    if y.root <= 3 && y.lev < y.root {
      NoTree(addr, v, Up(y));
    }
  }

  lemma NothingYet(m: Writer, given: seq<int>)
    requires forall k :: 0 <= k < NADDR ==> m.addr[k] == 0
    requires forall s :: 0 <= s < NBUFIN ==> m.bufs[s].indlev == 0 && (m.bufs[s].bn == 0 || m.bufs[s].bn in given)
    requires forall b :: b in m.disk ==> b in given
    ensures Running(m, [], _ => 0, true, [], given, given, m.disk) && OneTop(m)
  {
    hide Addr, View;
    forall y
      ensures At(m, y) == 0
    {
      NoTree(m.addr, Now(m), y);
    }
    assert m.bufs[0].indlev == 0 && m.bufs[1].indlev == 0 && m.bufs[2].indlev == 0;
  }

  lemma Flushed(m: Writer, calls: seq<nat>, at: Places, full: bool, live: seq<nat>, past: seq<int>, given: seq<int>,
                kept: Disk)
    requires Running(m, calls, at, full, live, past, given, kept)
    ensures OnDisk(m.addr, Now(m)) && forall b :: b in Now(m) ==> b in given
    ensures forall b :: b in kept ==> b in Now(m) && Now(m)[b] == kept[b]
    ensures forall s :: 0 <= s < NBUFIN ==> m.bufs[s].bn == 0 || m.bufs[s].bn in given
  {
    hide Addr, View, Own, Reached, Whole, Damaged, Fits;
    forall b
      ensures b in Now(m) ==> b in given
      ensures b in kept ==> b in Now(m) && Now(m)[b] == kept[b]
    {
      KeepsNothing(m.disk, past, given, kept);
      NowHas(m, past, given, b);
      ViewAt(m.disk, m.bufs, b);
    }
    forall y: Id | y.lev >= 1 && Addr(m.addr, Now(m), y) != 0
      ensures Addr(m.addr, Now(m), y) in Now(m)
    {
      assert At(m, y) != 0;
    }
  }

  /** The first n places of a file have all got an address, as far as they are within reach and no holes. */
  predicate AllGiven(present: seq<bool>, answers: seq<int>, n: nat)
    requires n <= |present| == |answers|
  {
    forall i :: 0 <= i < n && present[i] && i < First(4) ==> answers[i] != 0
  }

  /** How many places there are up to the first one that got no address, and with it. */
  function Tried(present: seq<bool>, answers: seq<int>): (n: nat)
    requires |present| == |answers|
    ensures n <= |present|
  {
    if |present| == 0 then 0
    else
      var n := |present| - 1;
      if AllGiven(present, answers, n) then n + 1 else Tried(present[..n], answers[..n])
  }

  /** The answers so far, for the places in present. */
  ghost predicate Recorded(answers: seq<int>, present: seq<bool>, at: Places, full: bool, live: seq<nat>,
                           past: seq<int>, given: seq<int>) {
    && |answers| == |present| && (forall i: nat :: at(i) == if i < |answers| then answers[i] else 0)
    && (forall i :: 0 <= i < |answers| && answers[i] != 0 ==> present[i] && answers[i] !in past && answers[i] in given)
    && (forall i, j :: 0 <= i < j < |answers| && answers[i] == answers[j] ==> answers[j] == 0)
    && (full <==> AllGiven(present, answers, |present|)) && live == Calls(present[..Tried(present, answers)])
  }

  lemma AllGivenStep(present: seq<bool>, answers: seq<int>, x: int)
    requires |answers| < |present|
    ensures
      var n := |answers|;
      var p, q, a := present[..n], present[..n + 1], answers + [x];
      && (AllGiven(q, a, n) <==> AllGiven(p, answers, n))
      && (AllGiven(q, a, n + 1) <==> AllGiven(p, answers, n) && (present[n] && n < First(4) ==> x != 0))
  {
    hide First;
    var n := |answers|;
    var p, q, a := present[..n], present[..n + 1], answers + [x];
    assert forall i :: 0 <= i < n ==> a[i] == answers[i] && q[i] == p[i];
    assert q[n] == present[n] && a[n] == x;
  }

  lemma TriedStep(present: seq<bool>, answers: seq<int>, x: int)
    requires |answers| < |present|
    ensures
      var n := |answers|;
      var p, q, a := present[..n], present[..n + 1], answers + [x];
      && Tried(q, a) == (if AllGiven(p, answers, n) then n + 1 else Tried(p, answers))
      && present[..Tried(p, answers)] == p[..Tried(p, answers)] && present[..Tried(q, a)] == q[..Tried(q, a)]
  {
    hide First, AllGiven;
    var n := |answers|;
    var q, a := present[..n + 1], answers + [x];
    AllGivenStep(present, answers, x);
    assert q[..n] == present[..n] && a[..n] == answers;
  }

  lemma {:induction false} TriedAll(present: seq<bool>, answers: seq<int>)
    requires |present| == |answers|
    ensures AllGiven(present, answers, |present|) ==> Tried(present, answers) == |present|
  {
    hide First;
  }

  lemma AnswerRecorded(answers: seq<int>, present: seq<bool>, at: Places, full: bool, live: seq<nat>, past: seq<int>,
                       given: seq<int>, given': seq<int>, r: Result, at': Places, full': bool, live': seq<nat>)
    requires |answers| < |present| && Recorded(answers, present[..|answers|], at, full, live, past, given)
             && present[|answers|]
    requires (forall b :: b in past ==> b in given) && forall b :: b in given ==> b in given'
    requires r.Address? ==> r.bn != 0 && r.bn !in given && r.bn in given'
    requires
      if |answers| < First(4)
        then at' == SetPlace(at, |answers|, if r.Address? then r.bn else 0) && full' == (full && r.Address?)
      else r == Nothing && at' == at && full' == full
    requires live' == if full && |answers| < First(4) then Calls(present[..|answers| + 1]) else live
    ensures Recorded(answers + [if r.Address? then r.bn else 0], present[..|answers| + 1], at', full', live', past,
              given')
  {
    hide First, Calls, AllGiven, Tried;
    var all := answers + [if r.Address? then r.bn else 0];
    AllGivenStep(present, answers, if r.Address? then r.bn else 0);
    TriedAll(present[..|answers|], answers);
    CallsStep(present, |answers|);
    TriedStep(present, answers, if r.Address? then r.bn else 0);
    assert all[|answers|] == if r.Address? then r.bn else 0;
    assert forall i :: 0 <= i < |answers| ==>
      all[i] == answers[i] && present[..|answers| + 1][i] == present[..|answers|][i];
  }

  lemma HoleRecorded(answers: seq<int>, present: seq<bool>, at: Places, full: bool, live: seq<nat>, past: seq<int>,
                     given: seq<int>)
    requires |answers| < |present| && Recorded(answers, present[..|answers|], at, full, live, past, given)
             && !present[|answers|]
    ensures Recorded(answers + [0], present[..|answers| + 1], at, full, live, past, given)
  {
    hide First, Calls, AllGiven, Tried;
    var all := answers + [0];
    AllGivenStep(present, answers, 0);
    TriedStep(present, answers, 0);
    TriedAll(present[..|answers|], answers);
    CallsStep(present, |answers|);
    assert forall i :: 0 <= i < |answers| ==>
      all[i] == answers[i] && present[..|answers| + 1][i] == present[..|answers|][i];
  }

  lemma NoCalls(present: seq<bool>)
    ensures Calls(present[..0]) == [] && Recorded([], present[..0], _ => 0, true, [], [], [])
  {
  }

  /** What reading the tree on disk gives. */
  lemma ReadBack(m: Writer, disk: Disk, present: seq<bool>, answers: seq<int>, at: Places, full: bool, live: seq<nat>,
                 past: seq<int>, before: seq<int>, given: seq<int>, kept: Disk)
    requires Running(m, Calls(present), at, full, live, past, given, kept) && disk == Now(m)
    requires Recorded(answers, present, at, full, live, before, given)
    ensures forall k: nat :: ReadAddress(m.addr, disk, k) == NONE
                             || (k < |answers| && ReadAddress(m.addr, disk, k) == answers[k] != 0)
    ensures if Fits(Calls(present[..Tried(present, answers)]))
            then forall k :: 0 <= k < |answers| && answers[k] != 0 ==> ReadAddress(m.addr, disk, k) == answers[k]
            else exists k :: 0 <= k < |answers| && answers[k] != 0 && ReadAddress(m.addr, disk, k) == NONE
  {
    hide Addr, View, Own, Reached, Fits, Steady, Complete, First, ReadAddress, OnHand, InOrder, Stopped, Calls, Place,
      Tried;
    forall k: nat
      ensures var a := At(m, Place(k)); ReadAddress(m.addr, disk, k) == if a == 0 then NONE else a
    {
      ReadIs(m.addr, disk, k);
    }
    if !Fits(live) {
      var k: nat :| at(k) != 0 && At(m, Place(k)) == 0;
      assert k < |answers| && answers[k] == at(k);
    }
  }

  // ----- the program

  class Mapper {
    const alloc: Allocator
    var disk: Disk
    const addr1: array<int>
    const wbuf: array<Inbuf>    // inbuf[B_WRITE]

    // the current file: places written, answers, whether all were addresses; blocks and disk before it
    ghost var calls: seq<nat>
    ghost var at: Places
    ghost var full: bool
    ghost var live: seq<nat>
    ghost var past: seq<int>
    ghost var kept: Disk

    ghost predicate Sizes() {
      && addr1.Length == NADDR && wbuf.Length == NBUFIN && alloc.all0.flg != alloc.all1.flg
    }

    ghost function Mem(): Writer
      requires Sizes()
      reads this`disk, addr1, wbuf
    {
      Writer(addr1[..], wbuf[..], disk)
    }

    ghost predicate Valid()
      reads this, addr1, wbuf, alloc`given
    {
      Sizes() && Running(Mem(), calls, at, full, live, past, alloc.given, kept) && OneTop(Mem())
    }

    constructor (alloc: Allocator)
      requires alloc.all0.flg != alloc.all1.flg
      ensures this.alloc == alloc && Idle() && fresh(addr1) && fresh(wbuf) && disk == map[]
    {
      this.alloc := alloc;
      disk, at, calls, full, live, past, kept := map[], _ => 0, [], true, [], [], map[];
      addr1 := new int[NADDR](_ => 0);
      wbuf := new Inbuf[NBUFIN](_ => Inbuf(0, 0, Zeros()));
    }

    /** Between two files: nothing but the program's own blocks has been written or is in a buffer. */
    ghost predicate Idle()
      reads this`disk, wbuf, alloc`given
    {
      && Sizes() && (forall b :: b in disk ==> b in alloc.given)
      && forall s :: 0 <= s < NBUFIN ==> wbuf[s].bn == 0 || wbuf[s].bn in alloc.given
    }

    /** The buffer for block bno, which is emptied unless one holds that block already. */
    method GetIndir(bno: int, lev: nat) returns (s: nat)
      requires Sizes() && wbuf[Lowest(wbuf[..])].indlev <= 2
      modifies this`disk, wbuf
      ensures Mem() == Fetch(old(Mem()), bno, lev) && s == BufferFor(old(wbuf[..]), bno)
    {
      s := 0;
      while s < NBUFIN
        invariant s <= NBUFIN && wbuf[..] == old(wbuf[..]) && disk == old(disk)
        invariant forall t :: 0 <= t < s ==> wbuf[t].bn != bno
      {
        if wbuf[s].bn == bno {
          return;
        }
        s := s + 1;
      }
      ghost var bufs := wbuf[..];
      var levcnt: nat := 0;
      while levcnt <= 2
        invariant levcnt <= 3 && wbuf[..] == bufs && disk == old(disk)
        invariant forall t :: 0 <= t < NBUFIN ==> wbuf[t].indlev >= levcnt
      {
        s := 0;
        while s < NBUFIN
          invariant s <= NBUFIN && wbuf[..] == bufs && disk == old(disk)
          invariant forall t :: 0 <= t < s ==> wbuf[t].indlev > levcnt
        {
          if levcnt == wbuf[s].indlev {
            FirstLowest(bufs, s);
            if levcnt != 0 {
              disk := disk[wbuf[s].bn := Indirect(wbuf[s].indir)];
            }
            wbuf[s] := Inbuf(bno, lev, Zeros());
            return;
          }
          s := s + 1;
        }
        levcnt := levcnt + 1;
      }
      assert false;
    }

    lemma FirstLowest(bufs: Buffers, s: nat)
      requires s < NBUFIN && forall t :: 0 <= t < NBUFIN ==>
                 bufs[t].indlev >= bufs[s].indlev && (t < s ==> bufs[t].indlev > bufs[s].indlev)
      ensures Lowest(bufs) == s
    {
      assert bufs[0].indlev >= bufs[s].indlev && bufs[1].indlev >= bufs[s].indlev && bufs[2].indlev >= bufs[s].indlev;
    }

    /** fixaddr: a new file begins; the buffers are unused, though they still name their blocks. */
    method FixAddr()
      requires Idle()
      modifies this`calls, this`at, this`full, this`live, this`past, this`kept, addr1, wbuf
      ensures Valid() && calls == live == [] && full && kept == disk && past == alloc.given
              && forall k: nat :: at(k) == 0
    {
      hide Running, OneTop;
      ClearAddresses();
      ClearLevels();
      calls, at, full, live, past, kept := [], _ => 0, true, [], alloc.given, disk;
      NothingYet(Mem(), alloc.given);
    }

    method ClearAddresses()
      requires Sizes()
      modifies addr1
      ensures forall k :: 0 <= k < NADDR ==> addr1[k] == 0
    {
      for k := 0 to NADDR
        invariant forall i :: 0 <= i < k ==> addr1[i] == 0
      {
        addr1[k] := 0;
      }
    }

    method ClearLevels()
      requires Sizes()
      modifies wbuf
      ensures forall s :: 0 <= s < NBUFIN ==> wbuf[s] == old(wbuf[s]).(indlev := 0)
    {
      for k := 0 to NBUFIN
        invariant forall s :: 0 <= s < NBUFIN ==> wbuf[s] == if s < k then old(wbuf[s]).(indlev := 0) else old(wbuf[s])
      {
        wbuf[k] := wbuf[k].(indlev := 0);
      }
    }

    /** flushaddr: the buffers in use are written; now the tree can be read from disk. */
    method FlushAddr()
      requires Valid()
      modifies this`disk
      ensures Idle() && disk == Now(old(Mem())) && OnDisk(addr1[..], disk)
      ensures forall b :: b in kept ==> b in disk && disk[b] == kept[b]
    {
      hide Addr, Own, Reached, Fits, Whole, Damaged, OneTop;
      ghost var disk0, bufs := disk, wbuf[..];
      var s := 0;
      while s < NBUFIN
        invariant 0 <= s <= NBUFIN && disk == View(disk0, bufs[..s])
      {
        assert bufs[..s + 1][..s] == bufs[..s];
        if wbuf[s].indlev != 0 {
          disk := disk[wbuf[s].bn := Indirect(wbuf[s].indir)];
        }
        s := s + 1;
      }
      assert bufs[..NBUFIN] == bufs;
      Flushed(old(Mem()), calls, at, full, live, past, alloc.given, kept);
    }

    /** A new block, or 0. */
    method NewAddress() returns (nb: int)
      requires alloc.Valid() && Sizes()
      modifies alloc, alloc.all0, alloc.all1, alloc.all0.flg, alloc.all1.flg
      ensures alloc.Valid() && (nb == 0 <==> old(alloc.Exhausted()))
      ensures nb == 0 ==> alloc.given == old(alloc.given) && alloc.Exhausted()
      ensures nb != 0 ==> nb !in old(alloc.given) && alloc.given == old(alloc.given) + [nb]
    {
      hide Allocator.Valid, Allocator.StartSlot, Allocator.GoneIn, Allocator.Which;
      nb := alloc.Alloc();
    }

    /** The number of indirections, counted down, and the place below them; j == 0 is too far. */
    method FindLevel(bn0: nat) returns (j: nat, bn: nat)
      requires NDIRECT <= bn0
      ensures j <= 3 && (j > 0 ==> Levels(bn0) == 4 - j && bn == bn0 - First(4 - j)) && (j == 0 ==> Levels(bn0) == 4)
    {
      var nb: nat := NINDIR;
      j, bn := 3, bn0 - NDIRECT;
      SpanOne();
      while j > 0 && bn >= nb
        invariant j <= 3 && nb == Span(4 - j) && bn + First(4 - j) == bn0
      {
        SpanStep(4 - j);
        bn := bn - nb;
        nb := nb * NINDIR;
        j := j - 1;
      }
      LevelFound(bn0, 4 - j);
    }

    /** How a call of bmap ends that has been given the addresses used. */
    ghost predicate Done(m0: Writer, bn0: nat, r: Result, used: seq<int>, given: seq<int>)
      requires Sizes()
      reads this`disk, addr1, wbuf, alloc`given
    {
      && Write(m0, bn0, used) == (Mem(), r) && alloc.given == given + used && Fresh(used, given) && OneTop(Mem())
      && (Levels(bn0) == 4 ==> used == [])
    }

    /** bmap(bn, B_WRITE) in pass 1, as a function of what it is given. */
    method Access(bn0: nat) returns (r: Result, ghost used: seq<int>)
      requires Sizes() && alloc.Valid() && OneTop(Mem()) && Stocked(wbuf[..], past, alloc.given)
      modifies this`disk, addr1, wbuf, alloc, alloc.all0, alloc.all1, alloc.all0.flg, alloc.all1.flg
      ensures alloc.Valid() && Done(old(Mem()), bn0, r, used, old(alloc.given))
      ensures old(alloc.Exhausted()) ==> used == []
      ensures r == Nothing && Levels(bn0) < 4 ==> alloc.Exhausted()
    {
      hide Allocator.Valid, Allocator.Exhausted, Stocked, OneTop, Fresh, First, Levels, Follow;
      used := [];
      FreshNone(alloc.given);
      if bn0 < NDIRECT {
        LevelZero(bn0);
        r, used := AccessDirect(bn0);
      } else {
        var j, bn := FindLevel(bn0);
        if j == 0 {
          return Nothing, [];
        }
        r, used := AccessIndirect(j, bn, bn0);
      }
    }

    method AccessDirect(bn: nat) returns (r: Result, ghost used: seq<int>)
      requires Sizes() && alloc.Valid() && OneTop(Mem()) && bn < NDIRECT && Levels(bn) == 0
      modifies addr1, alloc, alloc.all0, alloc.all1, alloc.all0.flg, alloc.all1.flg
      ensures alloc.Valid() && Done(old(Mem()), bn, r, used, old(alloc.given))
      ensures old(alloc.Exhausted()) ==> used == []
      ensures r == Nothing ==> alloc.Exhausted()
    {
      hide Allocator.Valid, Allocator.Exhausted, First, Levels;
      var nb := addr1[bn];
      used := [];
      if nb != 0 {
        return Fatal, [];
      }
      nb := NewAddress();
      if nb == 0 {
        return Nothing, [];
      }
      addr1[bn] := nb;
      used := [nb];
      assert addr1[..] == old(addr1[..])[bn := nb];
      return Address(nb), used;
    }

    /** The address in the inode, which may have to be given out. */
    method Root(j: nat) returns (nb: int, ghost used: seq<int>)
      requires Sizes() && alloc.Valid() && OneTop(Mem()) && Stocked(wbuf[..], past, alloc.given) && 1 <= j <= 3
      modifies addr1, alloc, alloc.all0, alloc.all1, alloc.all0.flg, alloc.all1.flg
      ensures alloc.Valid() && OneTop(Mem()) && alloc.given == old(alloc.given) + used && Fresh(used, old(alloc.given))
      ensures nb == addr1[NADDR - j] && (nb == 0 ==> alloc.Exhausted())
      ensures old(alloc.Exhausted()) ==> used == [] && alloc.Exhausted()
      ensures if old(addr1[NADDR - j]) != 0 || nb == 0 then addr1[..] == old(addr1[..]) && used == []
              else used == [nb] && addr1[..] == old(addr1[..])[NADDR - j := nb]
    {
      hide Allocator.Valid, Allocator.Exhausted, Stocked, OneTop;
      ghost var m0 := Mem();
      nb := addr1[NADDR - j];
      used := [];
      if nb == 0 {
        nb := NewAddress();
        if nb != 0 {
          TopRoot(m0, NADDR - j, nb, past, old(alloc.given));
          addr1[NADDR - j] := nb;
          used := [nb];
          assert Mem() == m0.(addr := m0.addr[NADDR - j := nb]);
        }
      }
    }

    /** One turn of the loop; nb' is 0 if there is no block for the next address. */
    method Turn(nb: int, lev: nat, bn: nat, ghost m0: Writer, ghost b0: int, ghost lev0: nat, ghost used: seq<int>,
                ghost given: seq<int>)
      returns (nb': int, stop: bool, ghost used': seq<int>)
      requires Sizes() && alloc.Valid() && OneTop(Mem()) && 1 <= lev <= 3 && (lev == 3 ==> nb == addr1[NDIRECT + 2])
      requires Reaching(m0, b0, lev0, bn, used, Mem(), nb, lev) && alloc.given == given + used && Fresh(used, given)
      modifies this`disk, wbuf, alloc, alloc.all0, alloc.all1, alloc.all0.flg, alloc.all1.flg
      ensures alloc.Valid() && OneTop(Mem()) && alloc.given == given + used' && Fresh(used', given)
      ensures old(alloc.Exhausted()) ==> used' == used
      ensures stop ==> Follow(m0, b0, lev0, bn, used') == (Mem(), if nb' == 0 then Nothing else Fatal)
      ensures stop && nb' == 0 ==> alloc.Exhausted()
      ensures !stop ==> nb' != 0 && Reaching(m0, b0, lev0, bn, used', Mem(), nb', lev - 1)
    {
      hide Allocator.Valid, Allocator.Exhausted, OneTop, Fresh, Reaching, Fetch, BufferFor, Index, Lowest;
      ghost var m := Mem();
      Freeable(m);
      TopFetch(m, nb, lev);
      var s := GetIndir(nb, lev);
      var i := Index(bn, lev);
      nb', used', stop := wbuf[s].indir[i], used, false;
      if nb' == 0 {
        nb' := NewAddress();
        if nb' == 0 {
          ReachingEnd(m0, b0, lev0, bn, used, m, nb, lev);
          stop := true;
        } else {
          ReachingNew(m0, b0, lev0, bn, used, m, nb, lev, nb');
          FreshMore(used, nb', given);
          used' := used + [nb'];
          TopStore(Mem(), s, i, nb');
          wbuf[s] := wbuf[s].(indir := wbuf[s].indir[i := nb']);
          assert Mem() == Store(Fetch(m, nb, lev), s, i, nb');
        }
      } else if lev == 1 {
        ReachingEnd(m0, b0, lev0, bn, used, m, nb, lev);
        stop := true;
      } else {
        ReachingDown(m0, b0, lev0, bn, used, m, nb, lev);
      }
    }

    method AccessIndirect(j0: nat, bn: nat, ghost bn0: nat) returns (r: Result, ghost used: seq<int>)
      requires Sizes() && alloc.Valid() && OneTop(Mem()) && Stocked(wbuf[..], past, alloc.given)
      requires 1 <= j0 <= 3 && Levels(bn0) == 4 - j0 && bn == bn0 - First(4 - j0)
      modifies this`disk, addr1, wbuf, alloc, alloc.all0, alloc.all1, alloc.all0.flg, alloc.all1.flg
      ensures alloc.Valid() && Done(old(Mem()), bn0, r, used, old(alloc.given))
      ensures old(alloc.Exhausted()) ==> used == []
      ensures r == Nothing ==> alloc.Exhausted()
    {
      hide Allocator.Valid, Allocator.Exhausted, Stocked, OneTop, Fresh, First, Levels, Follow, Reaching;
      ghost var start := Mem();
      var nb;
      nb, used := Root(j0);
      if nb == 0 {
        return Nothing, used;
      }
      ghost var m0, b0, first := Mem(), nb, used;
      ghost var rest: seq<int> := [];
      ghost var was := alloc.given;
      ghost var gone := alloc.Exhausted();
      ReachingNow(m0, nb, 4 - j0, bn);
      FreshNone(was);
      assert was + rest == was;
      var j := j0;
      while j <= 3
        invariant j0 <= j <= 4 && nb != 0 && alloc.Valid() && OneTop(Mem()) && addr1[..] == m0.addr
        invariant alloc.given == was + rest && Fresh(rest, was) && (j == 1 ==> nb == addr1[NDIRECT + 2])
        invariant Reaching(m0, b0, 4 - j0, bn, rest, Mem(), nb, 4 - j)
        invariant gone ==> rest == [] && alloc.Exhausted()
      {
        var stop;
        nb, stop, rest := Turn(nb, 4 - j, bn, m0, b0, 4 - j0, rest, was);
        if stop {
          r := if nb == 0 then Nothing else Fatal;
          used := Joined(start, m0, bn0, b0, first, rest, r, old(alloc.given));
          return;
        }
        j := j + 1;
      }
      ReachingEnd(m0, b0, 4 - j0, bn, rest, Mem(), nb, 0);
      FollowDone(Mem(), nb, bn);
      r := Address(nb);
      used := Joined(start, m0, bn0, b0, first, rest, r, old(alloc.given));
    }

    /** The address in the inode, then what the loop has used. */
    ghost method Joined(start: Writer, m0: Writer, bn0: nat, b0: int, first: seq<int>, rest: seq<int>, r: Result,
                        given: seq<int>)
      returns (used: seq<int>)
      requires Sizes() && 1 <= Levels(bn0) <= 3 && b0 == m0.addr[NDIRECT + Levels(bn0) - 1] != 0 && OneTop(Mem())
      requires
        var a := NDIRECT + Levels(bn0) - 1;
        if start.addr[a] != 0 then m0 == start && first == []
        else first == [b0] && m0 == start.(addr := start.addr[a := b0])
      requires Fresh(first, given) && alloc.given == given + first + rest && Fresh(rest, given + first)
      requires Follow(m0, b0, Levels(bn0), bn0 - First(Levels(bn0)), rest) == (Mem(), r)
      ensures used == first + rest && Done(start, bn0, r, used, given)
    {
      hide Follow, OneTop, Levels, First;
      used := first + rest;
      assert alloc.given == given + used;
      if first == [] {
        assert used == rest;
      } else {
        assert used[0] == b0 && used[1..] == rest;
      }
      FreshBoth(first, rest, given);
    }

    /** bmap(bn, B_WRITE) in pass 1, in a file whose places are written in order. */
    method Bmap(bn0: nat) returns (r: Result)
      requires Valid() && alloc.Valid() && (forall k :: k in calls ==> k < bn0) && (full || alloc.Exhausted())
      modifies this`disk, this`calls, this`at, this`full, this`live, addr1, wbuf
      modifies alloc, alloc.all0, alloc.all1, alloc.all0.flg, alloc.all1.flg
      ensures Valid() && alloc.Valid() && (full || alloc.Exhausted())
      ensures forall b :: b in old(alloc.given) ==> b in alloc.given
      ensures r != Fatal && (r.Address? ==> r.bn != 0 && r.bn !in old(alloc.given) && r.bn in alloc.given)
      ensures if bn0 < First(4)
              then calls == old(calls) + [bn0] && at == SetPlace(old(at), bn0, if r.Address? then r.bn else 0)
                   && full == (old(full) && r.Address?) && live == if old(full) then calls else old(live)
              else r == Nothing && calls == old(calls) && at == old(at) && full == old(full) && live == old(live)
    {
      hide Allocator.Valid, Allocator.Exhausted, Running, OneTop, Fresh, First, Levels, Follow, Write, Stocked, Wrote;
      ghost var m, given := Mem(), alloc.given;
      RunningStocked(m, calls, at, full, live, past, given, kept);
      ghost var used;
      r, used := Access(bn0);
      ReachLevels(bn0);
      if bn0 < First(4) {
        NextPlace(m, calls, at, full, live, past, given, kept, bn0);
        CallKeeps(m, calls, at, full, live, bn0, used, past, given, kept);
        Answered(m, Mem(), r, bn0, used, past, given, kept, at);
        live := if full then calls + [bn0] else live;
        calls, at, full := calls + [bn0], SetPlace(at, bn0, if r.Address? then r.bn else 0), full && r.Address?;
      } else {
        TooFar(m, bn0);
        assert given + [] == given;
      }
    }

    /** Where the loop over the blocks of a file is; before is what had been given out, disk0 what was on disk. */
    ghost predicate Copying(present: seq<bool>, answers: seq<int>, before: seq<int>, disk0: Disk)
      reads this, addr1, wbuf, alloc`given
    {
      && Valid() && |answers| <= |present| && kept == disk0 && calls == Calls(present[..|answers|])
      && (forall b :: b in before ==> b in alloc.given)
      && Recorded(answers, present[..|answers|], at, full, live, before, alloc.given)
    }

    /** One block: a hole, or a call of bmap. */
    method CopyBlock(present: seq<bool>, k: nat, answers: seq<int>, ghost before: seq<int>, ghost disk0: Disk)
      returns (r: int)
      requires Copying(present, answers, before, disk0) && k == |answers| < |present| && alloc.Valid()
               && (full || alloc.Exhausted())
      modifies this`disk, this`calls, this`at, this`full, this`live, addr1, wbuf
      modifies alloc, alloc.all0, alloc.all1, alloc.all0.flg, alloc.all1.flg
      ensures Copying(present, answers + [r], before, disk0) && alloc.Valid() && (full || alloc.Exhausted())
    {
      hide Running, Allocator.Valid, Allocator.Exhausted, OneTop, Fits, First, Calls, Recorded;
      CallsStep(present, k);
      CallsAscend(present[..k]);
      ghost var given, was, all, tried := alloc.given, at, full, live;
      if present[k] {
        var b := Bmap(k);
        AnswerRecorded(answers, present, was, all, tried, before, given, alloc.given, b, at, full, live);
        r := if b.Address? then b.bn else 0;
      } else {
        HoleRecorded(answers, present, at, full, live, before, alloc.given);
        r := 0;
      }
    }

    method CopyBlocks(present: seq<bool>, ghost disk0: Disk) returns (answers: seq<int>)
      requires Copying(present, [], alloc.given, disk0) && alloc.Valid() && full
      modifies this`disk, this`calls, this`at, this`full, this`live, addr1, wbuf
      modifies alloc, alloc.all0, alloc.all1, alloc.all0.flg, alloc.all1.flg
      ensures |answers| == |present| && Copying(present, answers, old(alloc.given), disk0)
      ensures alloc.Valid() && (full || alloc.Exhausted())
    {
      hide Copying, Allocator.Valid, Allocator.Exhausted;
      answers := [];
      for k := 0 to |present|
        invariant Copying(present, answers, old(alloc.given), disk0) && k == |answers|
        invariant alloc.Valid() && (full || alloc.Exhausted())
      {
        var r := CopyBlock(present, k, answers, old(alloc.given), disk0);
        answers := answers + [r];
      }
    }

    /**
     One file is copied: present tells which blocks are not holes; answers has
     the addresses given out, 0 where there is none. Reading through the
     inode and the blocks on disk never gives a wrong address, and it gives
     every answer exactly if the file fits up to the first call that was
     refused, or to its end. What was on disk before is still there.
     */
    method CopyFile(present: seq<bool>) returns (answers: seq<int>)
      requires Idle() && alloc.Valid()
      modifies this`disk, this`calls, this`at, this`full, this`live, this`past, this`kept, addr1, wbuf
      modifies alloc, alloc.all0, alloc.all1, alloc.all0.flg, alloc.all1.flg
      ensures Idle() && alloc.Valid() && |answers| == |present|
      ensures forall b :: b in old(alloc.given) ==> b in alloc.given
      ensures forall k :: 0 <= k < |present| && answers[k] != 0 ==>
                present[k] && answers[k] !in old(alloc.given) && answers[k] in alloc.given
      ensures forall j, k :: 0 <= j < k < |present| && answers[j] == answers[k] ==> answers[k] == 0
      ensures forall k :: 0 <= k < |present| && answers[k] == 0 && present[k] ==> k >= First(4) || alloc.Exhausted()
      ensures forall k: nat :: ReadAddress(addr1[..], disk, k) == NONE
                               || (k < |answers| && ReadAddress(addr1[..], disk, k) == answers[k] != 0)
      ensures if Fits(Calls(present[..Tried(present, answers)]))
              then forall k :: 0 <= k < |answers| && answers[k] != 0 ==> ReadAddress(addr1[..], disk, k) == answers[k]
              else exists k :: 0 <= k < |answers| && answers[k] != 0 && ReadAddress(addr1[..], disk, k) == NONE
      ensures OnDisk(addr1[..], disk) && forall b :: b in old(disk) ==> b in disk && disk[b] == old(disk)[b]
    {
      hide Running, Allocator.Valid, Allocator.Exhausted, OneTop, ReadAddress, Fits, First, OnDisk, Calls;
      FixAddr();
      NoCalls(present);
      answers := CopyBlocks(present, old(disk));
      assert present[..|present|] == present;
      ghost var m := Mem();
      FlushAddr();
      ReadBack(m, disk, present, answers, at, full, live, past, old(alloc.given), alloc.given, kept);
    }
  }
}
