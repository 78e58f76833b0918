/** For which files the three buffers of dcopy.c are enough: the order in which getindir gives them up. */
module BmapOrder {
  import opened FreeChain
  import opened AddressTree
  import opened AddressNodes
  import opened IndirectBuffers
  import opened BmapSpec
  import opened Sums

  // ----- the files that fit

  /** Which of the double-indirect blocks below the triple-indirect one leads to place k. */
  function Group(k: nat): nat
    requires k >= LIMIT
  {
    (k - LIMIT) / (NINDIR * NINDIR)
  }

  /** k is in the same group as the call before. */
  predicate Again(calls: seq<nat>, k: nat) {
    calls != [] && calls[|calls| - 1] >= LIMIT && k >= LIMIT && Group(calls[|calls| - 1]) == Group(k)
  }

  /** How many groups have been begun. */
  function Groups(calls: seq<nat>): nat {
    if calls == [] then 0
    else
      var n := |calls| - 1;
      Groups(calls[..n]) + if calls[n] >= LIMIT && !Again(calls[..n], calls[n]) then 1 else 0
  }

  /** There was a call for a place below single or double indirection. */
  predicate Early(calls: seq<nat>) {
    exists i :: 0 <= i < |calls| && NDIRECT <= calls[i] < LIMIT
  }

  /** How many groups may be called more than once. */
  function Room(calls: seq<nat>): nat {
    if Early(calls) then 1 else 2
  }

  predicate Spent(calls: seq<nat>) {
    Groups(calls) > Room(calls)
  }

  /**
   Only the first group is called more than once -- the first two, if no
   place between the direct ones and the triple-indirect ones is called.
   */
  ghost predicate Fits(calls: seq<nat>) {
    forall i :: 0 <= i < |calls| && Again(calls[..i], calls[i]) ==> !Spent(calls[..i])
  }

  /** Places in ascending order, all within reach. */
  ghost predicate Ascending(calls: seq<nat>) {
    && (forall i, j :: 0 <= i < j < |calls| ==> calls[i] < calls[j])
    && forall i :: 0 <= i < |calls| ==> calls[i] < First(4)
  }

  lemma OneMore(calls: seq<nat>, k: nat)
    ensures Groups(calls + [k]) == Groups(calls) + if k >= LIMIT && !Again(calls, k) then 1 else 0
    ensures Early(calls + [k]) <==> Early(calls) || NDIRECT <= k < LIMIT
    ensures Fits(calls + [k]) <==> Fits(calls) && (Again(calls, k) ==> !Spent(calls))
  {
    hide Again, Spent, Groups, First;
    var all := calls + [k];
    GroupsStep(calls, k);
    assert all[..|calls|] == calls;
    assert forall i :: 0 <= i < |calls| ==> all[..i] == calls[..i] && all[i] == calls[i];
    if NDIRECT <= k < LIMIT {
      assert all[|calls|] == k;
    }
    if i :| 0 <= i < |calls| && NDIRECT <= calls[i] < LIMIT {
      assert all[i] == calls[i];
    }
    if Fits(all) {
      assert all[|calls|] == k;
      forall i | 0 <= i < |calls| && Again(calls[..i], calls[i])
        ensures !Spent(calls[..i])
      {
        assert Again(all[..i], all[i]);
      }
    }
  }

  lemma GroupsStep(calls: seq<nat>, k: nat)
    ensures Groups(calls + [k]) == Groups(calls) + if k >= LIMIT && !Again(calls, k) then 1 else 0
  {
    assert (calls + [k])[..|calls|] == calls;
  }

  /** Before the first triple-indirect place there are no groups. */
  lemma {:induction false} NoGroups(calls: seq<nat>)
    requires Ascending(calls) && (calls != [] ==> calls[|calls| - 1] < LIMIT)
    ensures Groups(calls) == 0
  {
    hide First;
    if calls != [] {
      NoGroups(calls[..|calls| - 1]);
    }
  }

  // ----- three buffers

  /** b is in a buffer of that level. */
  predicate Holds(bufs: Buffers, b: int, lev: nat) {
    || (bufs[0].bn == b && bufs[0].indlev == lev)
    || (bufs[1].bn == b && bufs[1].indlev == lev)
    || (bufs[2].bn == b && bufs[2].indlev == lev)
  }

  predicate AtLevels(bufs: Buffers, a: nat, b: nat, c: nat) {
    bufs[0].indlev == a && bufs[1].indlev == b && bufs[2].indlev == c
  }

  /** Before the triple-indirect range. */
  predicate Small(bufs: Buffers, single: bool, double: bool) {
    if double then (if single then AtLevels(bufs, 1, 2, 1) else AtLevels(bufs, 2, 1, 0) || AtLevels(bufs, 2, 1, 1))
    else if single then AtLevels(bufs, 1, 0, 0)
    else AtLevels(bufs, 0, 0, 0)
  }

  /** Of the two buffers beside the triple-indirect block the first is at level 1, the second at level 2. */
  predicate Wide(bufs: Buffers) {
    AtLevels(bufs, 3, 1, 2) || AtLevels(bufs, 1, 3, 2) || AtLevels(bufs, 1, 2, 3)
  }

  lemma FirstTriple(bufs: Buffers, single: bool, double: bool, t: int, d: int, l: int)
    requires Small(bufs, single, double) && Missing(bufs, t) && Missing(bufs, d) && Missing(bufs, l) && t != d
             && d != l && t != l
    ensures
      var u := Visit(bufs, t, 3);
      var v := Visit(u, d, 2);
      var w := Visit(v, l, 1);
      && Holds(u, t, 3) && Holds(v, t, 3) && Holds(v, d, 2) && Holds(w, t, 3) && Holds(w, d, 2) && Holds(w, l, 1)
      && if single || double then Wide(w) else AtLevels(w, 3, 2, 1)
  {
  }

  /** A new leaf takes the place of the last one. */
  lemma SameGroup(bufs: Buffers, t: int, d: int, l: int)
    requires Wide(bufs) || AtLevels(bufs, 3, 2, 1)
    requires Holds(bufs, t, 3) && Holds(bufs, d, 2) && Missing(bufs, l)
    ensures
      var w := Visit(bufs, l, 1);
      && Holds(w, t, 3) && Holds(w, d, 2) && Holds(w, l, 1)
      && (Wide(bufs) ==> Wide(w)) && (AtLevels(bufs, 3, 2, 1) ==> AtLevels(w, 3, 2, 1))
  {
  }

  /** From such buffers on a new double-indirect block is given up at once, by its own first child. */
  lemma ParentGoes(bufs: Buffers, t: int, d: int, l: int)
    requires Wide(bufs) && Holds(bufs, t, 3) && Missing(bufs, d) && Missing(bufs, l) && d != l
    ensures
      var v := Visit(bufs, d, 2);
      var w := Visit(v, l, 1);
      Holds(v, t, 3) && Holds(w, t, 3) && Missing(w, d) && Wide(w)
  {
  }

  // ----- the buffers after a write

  /** Visiting blocks on the way down, as far as they exist. */
  lemma VisitTwo(bufs: Buffers, d: int, l: int)
    ensures VisitAll(bufs, [], 2) == bufs && VisitAll(bufs, [d], 2) == Visit(bufs, d, 2)
    ensures VisitAll(bufs, [d, l], 2) == Visit(Visit(bufs, d, 2), l, 1)
    ensures VisitAll(bufs, [], 1) == bufs && VisitAll(bufs, [d], 1) == Visit(bufs, d, 1)
  {
    hide Visit;
    assert [d, l] == [d] + [l] && [d] == [d] + [] && [l] == [l] + [];
    VisitFirst(bufs, d, [l], 2);
    VisitFirst(bufs, d, [], 2);
    VisitFirst(bufs, d, [], 1);
    VisitFirst(Visit(bufs, d, 2), l, [], 1);
  }

  lemma VisitThree(bufs: Buffers, t: int, d: int, l: int)
    ensures VisitAll(bufs, [], 3) == bufs && VisitAll(bufs, [t], 3) == Visit(bufs, t, 3)
    ensures VisitAll(bufs, [t, d], 3) == Visit(Visit(bufs, t, 3), d, 2)
    ensures VisitAll(bufs, [t, d, l], 3) == Visit(Visit(Visit(bufs, t, 3), d, 2), l, 1)
  {
    hide Visit;
    var after := Visit(bufs, t, 3);
    VisitTwo(after, d, l);
    assert [t, d, l] == [t] + [d, l] && [t, d] == [t] + [d] && [t] == [t] + [];
    VisitFirst(bufs, t, [d, l], 3);
    VisitFirst(bufs, t, [d], 3);
    VisitFirst(bufs, t, [], 3);
  }

  function Way3(t: int, d: int, l: int): seq<int> {
    if t == 0 then [] else if d == 0 then [t] else if l == 0 then [t, d] else [t, d, l]
  }

  function Way2(d: int, l: int): seq<int> {
    if d == 0 then [] else if l == 0 then [d] else [d, l]
  }

  /** A block that was there is in a buffer, a new one is in none. */
  predicate Known(bufs: Buffers, b: int, lev: nat, there: bool) {
    if there then b != 0 && Holds(bufs, b, lev) else b == 0 || Missing(bufs, b)
  }

  /** g groups have been begun. */
  predicate Shape(bufs: Buffers, single: bool, double: bool, g: nat) {
    if g == 0 then Small(bufs, single, double)
    else if g == 1 && !single && !double then AtLevels(bufs, 3, 2, 1)
    else Wide(bufs)
  }

  lemma HeldVisit(bufs: Buffers, b: int, lev: nat, level: nat)
    requires Holds(bufs, b, level)
    ensures Visit(bufs, b, lev) == bufs
  {
  }

  /** After a triple-indirect place; et, ed, el say which of the three blocks were there before. */
  lemma AfterTriple(bufs: Buffers, t: int, d: int, l: int, et: bool, ed: bool, el: bool, single: bool, double: bool,
                    g: nat)
    requires (el ==> ed) && (ed ==> et) && (d != 0 ==> t != 0) && (l != 0 ==> d != 0)
    requires Known(bufs, t, 3, et) && Known(bufs, d, 2, ed) && Known(bufs, l, 1, el)
    requires (d != 0 ==> d != t && d != l) && (t != 0 ==> t != l)
    requires Shape(bufs, single, double, g) && (et <==> g > 0)
    requires ed ==> g <= if single || double then 1 else 2
    ensures
      var w := VisitAll(bufs, Way3(t, d, l), 3);
      var g', room := if ed then g else g + 1, if single || double then 1 else 2;
      && (t != 0 ==> Holds(w, t, 3))
      && (g' <= room ==> (d != 0 ==> Holds(w, d, 2)) && (l != 0 ==> Holds(w, l, 1)))
      && (l != 0 ==> Shape(w, single, double, g') && (g' > room ==> Missing(w, d)))
  {
    hide Visit, VisitAll, Holds, Missing, Small, Wide, AtLevels;
    VisitThree(bufs, t, d, l);
    if et {
      HeldVisit(bufs, t, 3, 3);
      if ed {
        HeldVisit(bufs, d, 2, 2);
        if el {
          HeldVisit(bufs, l, 1, 1);
        } else if l != 0 {
          SameGroup(bufs, t, d, l);
        }
      } else if d != 0 {
        Group2(bufs, t, d, l, single, double, g);
      }
    } else if t != 0 {
      if l != 0 {
        FirstTriple(bufs, single, double, t, d, l);
      } else {
        Begun(bufs, single, double, t, d);
      }
    }
  }

  /** A new group is begun, possibly without a leaf. */
  lemma Group2(bufs: Buffers, t: int, d: int, l: int, single: bool, double: bool, g: nat)
    requires g > 0 && Shape(bufs, single, double, g) && Holds(bufs, t, 3) && d != 0 && d != l
    requires Missing(bufs, d) && (l == 0 || Missing(bufs, l))
    ensures
      var v, room := Visit(bufs, d, 2), if single || double then 1 else 2;
      var w := Visit(v, l, 1);
      && Holds(v, t, 3) && (g + 1 <= room ==> Holds(v, d, 2))
      && (l != 0 ==> Holds(w, t, 3) && Shape(w, single, double, g + 1))
      && (l != 0 && g + 1 <= room ==> Holds(w, d, 2) && Holds(w, l, 1))
      && (l != 0 && g + 1 > room ==> Missing(w, d))
  {
  }

  lemma Begun(bufs: Buffers, single: bool, double: bool, t: int, d: int)
    requires Small(bufs, single, double) && Missing(bufs, t) && (d == 0 || Missing(bufs, d)) && t != d
    ensures
      var u := Visit(bufs, t, 3);
      Holds(u, t, 3) && (d != 0 ==> Holds(Visit(u, d, 2), t, 3) && Holds(Visit(u, d, 2), d, 2))
  {
  }

  lemma AfterDouble(bufs: Buffers, d: int, l: int, ed: bool, el: bool, single: bool)
    requires (el ==> ed) && (l != 0 ==> d != 0) && Known(bufs, d, 2, ed) && Known(bufs, l, 1, el) && (d != 0 ==> d != l)
    requires Small(bufs, single, ed)
    ensures
      var w := VisitAll(bufs, Way2(d, l), 2);
      (d != 0 ==> Holds(w, d, 2)) && (l != 0 ==> Holds(w, l, 1) && Small(w, single, true))
  {
    hide VisitAll;
    VisitTwo(bufs, d, l);
  }

  lemma AfterSingle(bufs: Buffers, s: int, es: bool)
    requires Known(bufs, s, 1, es) && Small(bufs, es, false)
    ensures
      var w := VisitAll(bufs, if s == 0 then [] else [s], 1);
      s != 0 ==> Holds(w, s, 1) && Small(w, true, false)
  {
    hide VisitAll;
    VisitTwo(bufs, s, 0);
  }

  // ----- what holds between two writes

  function Last(calls: seq<nat>): nat
    requires calls != []
  {
    calls[|calls| - 1]
  }

  /** There are no blocks beyond the last place called. */
  ghost predicate Reached(m: Writer, calls: seq<nat>) {
    forall y :: At(m, y) != 0 ==> calls != [] && Upto(y, Place(Last(calls)))
  }

  /**
   The blocks on the way to the last place are in buffers; once there are too
   many groups, the triple-indirect one is.
   */
  ghost predicate OnHand(m: Writer, calls: seq<nat>) {
    calls != [] ==>
      forall l: nat :: 1 <= l <= Place(Last(calls)).root && At(m, Over(Place(Last(calls)), l)) != 0
        && (Spent(calls) ==> l == 3)
        ==> Holds(m.bufs, At(m, Over(Place(Last(calls)), l)), l)
  }

  const SINGLE := Id(1, 1, 0)
  const DOUBLE := Id(2, 2, 0)
  const TRIPLE := Id(3, 3, 0)

  /**
   As long as every call has been answered: the levels of the buffers, and
   what is in none once there are too many groups.
   */
  ghost predicate InOrder(m: Writer, calls: seq<nat>) {
    var s, d, g := At(m, SINGLE) != 0, At(m, DOUBLE) != 0, Groups(calls);
    && (s || d <==> Early(calls)) && (At(m, TRIPLE) != 0 <==> g > 0) && Shape(m.bufs, s, d, g)
    && (calls != [] && Last(calls) >= LIMIT ==>
          var b := At(m, Over(Place(Last(calls)), 2));
          b != 0 && (Spent(calls) ==> Missing(m.bufs, b)))
  }

  // ----- before a write

  /** The double-indirect block on the way to a triple-indirect place. */
  lemma GroupIs(k: nat)
    requires LIMIT <= k < First(4)
    ensures Levels(k) == 3 && Over(Place(k), 2) == Id(3, 2, Group(k)) && Over(Place(k), 3) == TRIPLE
  {
    Limits();
    FirstMono(3, 4);
    assert First(4) == First(3) + Span(3);
    assert Levels(k) == 3;
    OverIs(3, k - LIMIT, 2);
    OverIs(3, k - LIMIT, 3);
    DivUnique(k - LIMIT, Span(3), 0, k - LIMIT);
  }

  lemma SpentTriple(calls: seq<nat>)
    requires Ascending(calls) && Spent(calls)
    ensures calls != [] && Last(calls) >= LIMIT
  {
    hide First;
    if calls != [] && Last(calls) < LIMIT {
      NoGroups(calls);
    }
  }

  lemma AscendingFront(calls: seq<nat>, k: nat)
    requires Ascending(calls + [k])
    ensures Ascending(calls) && k < First(4) && (calls != [] ==> Last(calls) < k)
  {
    var all := calls + [k];
    assert all[|calls|] == k && forall i :: 0 <= i < |calls| ==> all[i] == calls[i];
  }

  /** What is there on the way to the next place was on the way to the last one, and is in a buffer. */
  lemma OnTheWay(m: Writer, calls: seq<nat>, k: nat, l: nat)
    requires Reached(m, calls) && OnHand(m, calls) && Ascending(calls + [k]) && Fits(calls + [k])
    requires l <= Place(k).root && At(m, Over(Place(k), l)) != 0
    ensures 1 <= l && calls != [] && Over(Place(Last(calls)), l) == Over(Place(k), l)
    ensures Holds(m.bufs, At(m, Over(Place(k), l)), l)
    ensures l <= 2 && Place(k).root == 3 ==> Again(calls, k)
  {
    hide At, First, Levels, Groups, Holds, Again;
    AscendingFront(calls, k);
    var y := Over(Place(k), l);
    assert Upto(y, Place(Last(calls)));
    UptoOnWay(y, Last(calls), k);
    if l <= 2 && Place(k).root == 3 {
      OverAgree(Place(Last(calls)), Place(k), l, 2);
      SameRow(calls, k);
    }
    OneMore(calls, k);
    if Spent(calls) {
      SpentTriple(calls);
      GroupIs(Last(calls));
    }
  }

  lemma SameRow(calls: seq<nat>, k: nat)
    requires calls != [] && Ascending(calls + [k]) && Place(k).root == 3
             && Over(Place(Last(calls)), 2) == Over(Place(k), 2)
    ensures Again(calls, k)
  {
    AscendingFront(calls, k);
    Ranges(k);
    Ranges(Last(calls));
    GroupIs(k);
    GroupIs(Last(calls));
  }

  lemma BeforeWrite(m: Writer, calls: seq<nat>, k: nat)
    requires Reached(m, calls) && OnHand(m, calls) && Ascending(calls + [k]) && Fits(calls + [k])
    ensures InBuffers(m, Place(k), Place(k).root)
  {
    hide At, First, Levels, Reached, OnHand, Over;
    forall l: nat | 1 <= l <= Place(k).root && At(m, Over(Place(k), l)) != 0
      ensures !Missing(m.bufs, At(m, Over(Place(k), l)))
    {
      OnTheWay(m, calls, k, l);
    }
  }

  /** The data block for the next place is not there yet. */
  lemma NotThere(m: Writer, calls: seq<nat>, k: nat)
    requires Reached(m, calls) && (calls != [] ==> Last(calls) < k)
    ensures At(m, Place(k)) == 0
  {
    hide At, First, Levels;
    if At(m, Place(k)) != 0 {
      assert Under(Place(k), Place(k));
      UptoOnWay(Place(k), Last(calls), k);
    }
  }

  // ----- after a write

  lemma ReachedAfter(m: Writer, m': Writer, calls: seq<nat>, k: nat, supply: seq<int>)
    requires Reached(m, calls) && (calls != [] ==> Last(calls) < k) && Changed(m, m', Place(k), supply)
    ensures Reached(m', calls + [k])
  {
    hide At, First, Levels, Under, Upto;
    forall y | At(m', y) != 0
      ensures Upto(y, Place(k))
    {
      UptoLater(y, if At(m, y) != 0 then Last(calls) else k, k);
    }
  }

  /** What is new on the way was in no buffer. */
  lemma NewOnTheWay(m: Writer, m': Writer, p: Id, supply: seq<int>, past: seq<int>, given: seq<int>, kept: Disk, y: Id)
    requires Steady(m, past, given, kept) && Fresh(supply, given) && Changed(m, m', p, supply) && At(m, y) == 0
    ensures At(m', y) == 0 || Missing(m.bufs, At(m', y))
  {
    hide At, Own, Tidy, Under;
    if At(m', y) != 0 {
      var i :| 0 <= i < |supply| && supply[i] == At(m', y);
      assert forall s :: 0 <= s < NBUFIN ==> m.bufs[s].bn == 0 || m.bufs[s].bn in given;
    }
  }

  /** What a write that loses nothing leaves of the way to its place. */
  ghost predicate Passed(m: Writer, m': Writer, p: Id) {
    && Visited(m, m', p, p.root)
    && (forall l: nat :: 1 <= l <= p.root ==> Known(m.bufs, At(m', Over(p, l)), l, At(m, Over(p, l)) != 0))
    && (forall l: nat :: 1 <= l < p.root ==> (At(m', Over(p, l)) != 0 ==> At(m', Over(p, l + 1)) != 0))
    && (forall l: nat :: 1 <= l < p.root ==> (At(m, Over(p, l)) != 0 ==> At(m, Over(p, l + 1)) != 0))
    && forall y, z :: At(m', y) == At(m', z) != 0 ==> y == z
  }

  lemma WritePasses(m: Writer, calls: seq<nat>, k: nat, supply: seq<int>, past: seq<int>, given: seq<int>, kept: Disk)
    requires Steady(m, past, given, kept) && Complete(m) && Fresh(supply, given)
    requires Reached(m, calls) && OnHand(m, calls) && Ascending(calls + [k]) && Fits(calls + [k])
    ensures Passed(m, Write(m, k, supply).0, Place(k))
  {
    hide At, First, Levels, Reached, OnHand, Over, Steady, Complete, Fresh, Ascending, Fits, Write, Changed, Holds,
      Missing, InBuffers, SameTags;
    var m', p := Write(m, k, supply).0, Place(k);
    AscendingFront(calls, k);
    NotThere(m, calls, k);
    BeforeWrite(m, calls, k);
    LevelFour(k);
    WriteKeeps(m, k, supply, past, given, kept);
    WritePreserves(m, k, supply, past, given, kept);
    forall l: nat | 1 <= l <= p.root
      ensures Known(m.bufs, At(m', Over(p, l)), l, At(m, Over(p, l)) != 0)
    {
      if At(m, Over(p, l)) != 0 {
        OnTheWay(m, calls, k, l);
      } else {
        NewOnTheWay(m, m', p, supply, past, given, kept, Over(p, l));
      }
    }
    forall l: nat | 1 <= l < p.root
      ensures At(m', Over(p, l)) != 0 ==> At(m', Over(p, l + 1)) != 0
      ensures At(m, Over(p, l)) != 0 ==> At(m, Over(p, l + 1)) != 0
    {
      ZeroAbove(m', p, l);
      ZeroAbove(m, p, l);
    }
    OwnDifferent(m', past, given + supply, kept);
  }

  lemma LevelFour(k: nat)
    requires k < First(4)
    ensures Place(k).root <= 3
  {
  }

  lemma ZeroAbove(m: Writer, p: Id, l: nat)
    requires p.lev == 0 && l < p.root
    ensures At(m, Over(p, l)) != 0 ==> At(m, Over(p, l + 1)) != 0
  {
    hide View;
  }

  lemma OwnDifferent(m: Writer, past: seq<int>, given: seq<int>, kept: Disk)
    requires Steady(m, past, given, kept)
    ensures forall y, z :: At(m, y) == At(m, z) != 0 ==> y == z
  {
  }

  lemma SameHolds(a: Buffers, b: Buffers, x: int, lev: nat)
    requires SameTags(a, b)
    ensures Holds(a, x, lev) == Holds(b, x, lev) && Missing(a, x) == Missing(b, x)
  {
    assert a[0].bn == b[0].bn && a[1].bn == b[1].bn && a[2].bn == b[2].bn;
    assert a[0].indlev == b[0].indlev && a[1].indlev == b[1].indlev && a[2].indlev == b[2].indlev;
  }

  lemma SameShape(a: Buffers, b: Buffers, single: bool, double: bool, g: nat)
    requires SameTags(a, b)
    ensures Shape(a, single, double, g) == Shape(b, single, double, g)
  {
    assert a[0].indlev == b[0].indlev && a[1].indlev == b[1].indlev && a[2].indlev == b[2].indlev;
  }

  lemma TrailThree(m: Writer, p: Id)
    ensures Trail(m, p, 3) == Way3(At(m, Over(p, 3)), At(m, Over(p, 2)), At(m, Over(p, 1)))
    ensures Trail(m, p, 2) == Way2(At(m, Over(p, 2)), At(m, Over(p, 1)))
    ensures Trail(m, p, 1) == (if At(m, Over(p, 1)) == 0 then [] else [At(m, Over(p, 1))]) && Trail(m, p, 0) == []
  {
    hide At, Over;
    assert Trail(m, p, 1) == if At(m, Over(p, 1)) == 0 then [] else [At(m, Over(p, 1))] + Trail(m, p, 0);
  }

  /** Blocks that are not on the way stay as they are. */
  lemma Elsewhere(m: Writer, m': Writer, p: Id, supply: seq<int>, y: Id)
    requires Changed(m, m', p, supply) && Preserved(m, m') && !Under(p, y)
    ensures At(m', y) == At(m, y)
  {
    hide At, Under;
  }

  /** The next call is in the group of the last one exactly if its double-indirect block is there. */
  lemma AgainIs(m: Writer, calls: seq<nat>, k: nat)
    requires Reached(m, calls) && OnHand(m, calls) && Ascending(calls + [k]) && Fits(calls + [k]) && InOrder(m, calls)
             && k >= LIMIT
    ensures At(m, Over(Place(k), 2)) != 0 <==> Again(calls, k)
    ensures Again(calls, k) ==> !Spent(calls)
  {
    hide At, First, Levels, Over, Groups, Holds, Shape;
    AscendingFront(calls, k);
    GroupIs(k);
    OneMore(calls, k);
    if At(m, Over(Place(k), 2)) != 0 {
      OnTheWay(m, calls, k, 2);
    }
    if Again(calls, k) {
      GroupIs(Last(calls));
    }
  }

  /** What the buffers hold of the way to k after the write. */
  ghost predicate HeldAfter(m': Writer, p: Id, spent: bool) {
    forall l: nat :: 1 <= l <= p.root && At(m', Over(p, l)) != 0 && (spent ==> l == 3) ==>
      Holds(m'.bufs, At(m', Over(p, l)), l)
  }

  /** The buffers after a triple-indirect place. */
  lemma TripleAfter(m: Writer, m': Writer, calls: seq<nat>, k: nat)
    requires Reached(m, calls) && OnHand(m, calls) && Ascending(calls + [k]) && Fits(calls + [k]) && InOrder(m, calls)
             && k >= LIMIT
    requires Passed(m, m', Place(k))
    ensures HeldAfter(m', Place(k), Spent(calls + [k]))
    ensures At(m', Over(Place(k), 1)) != 0 ==>
              && Shape(m'.bufs, At(m, SINGLE) != 0, At(m, DOUBLE) != 0, Groups(calls + [k]))
              && At(m', Over(Place(k), 2)) != 0 && At(m', Over(Place(k), 3)) != 0
              && (Spent(calls + [k]) ==> Missing(m'.bufs, At(m', Over(Place(k), 2))))
  {
    hide At, First, Levels, Over, Groups, Holds, Shape, Missing, OnHand, Reached, Fits, Ascending, Trail, VisitAll,
      Again, Way3, Place, Early;
    AscendingFront(calls, k);
    GroupIs(k);
    PlaceIs(k);
    var p := Place(k);
    var t, d, l := At(m', Over(p, 3)), At(m', Over(p, 2)), At(m', Over(p, 1));
    AgainIs(m, calls, k);
    OneMore(calls, k);
    TrailThree(m', p);
    var single, double := At(m, SINGLE) != 0, At(m, DOUBLE) != 0;
    AfterTriple(m.bufs, t, d, l, At(m, Over(p, 3)) != 0, At(m, Over(p, 2)) != 0, At(m, Over(p, 1)) != 0, single, double,
                Groups(calls));
    var w := VisitAll(m.bufs, Way3(t, d, l), 3);
    SameHolds(m'.bufs, w, t, 3);
    SameHolds(m'.bufs, w, d, 2);
    SameHolds(m'.bufs, w, l, 1);
    SameShape(m'.bufs, w, single, double, Groups(calls + [k]));
  }

  lemma PlaceIs(k: nat)
    ensures Place(k).root == Levels(k) && Place(k).lev == 0
  {
  }

  /** The buffers after a double-indirect place. */
  lemma DoubleAfter(m: Writer, m': Writer, p: Id)
    requires Passed(m, m', p) && p.lev == 0 && p.root == 2 && Over(p, 2) == DOUBLE
             && Small(m.bufs, At(m, SINGLE) != 0, At(m, DOUBLE) != 0)
    ensures HeldAfter(m', p, false)
    ensures At(m', Over(p, 1)) != 0 ==> At(m', DOUBLE) != 0 && Small(m'.bufs, At(m, SINGLE) != 0, true)
  {
    hide At, Over, Holds, Small, Missing, Trail, VisitAll, Way2;
    var d, l := At(m', Over(p, 2)), At(m', Over(p, 1));
    TrailThree(m', p);
    AfterDouble(m.bufs, d, l, At(m, Over(p, 2)) != 0, At(m, Over(p, 1)) != 0, At(m, SINGLE) != 0);
    var w := VisitAll(m.bufs, Way2(d, l), 2);
    SameHolds(m'.bufs, w, d, 2);
    SameHolds(m'.bufs, w, l, 1);
    SameShape(m'.bufs, w, At(m, SINGLE) != 0, true, 0);
  }

  /** The buffers after a single-indirect place. */
  lemma SingleAfter(m: Writer, m': Writer, p: Id)
    requires Passed(m, m', p) && p.root == 1 && Over(p, 1) == SINGLE && Small(m.bufs, At(m, SINGLE) != 0, false)
    ensures HeldAfter(m', p, false)
    ensures At(m', SINGLE) != 0 ==> Small(m'.bufs, true, false)
  {
    hide At, Over, Holds, Small, Missing, Trail, VisitAll;
    var b := At(m', Over(p, 1));
    TrailThree(m', p);
    AfterSingle(m.bufs, b, At(m, Over(p, 1)) != 0);
    var w := VisitAll(m.bufs, if b == 0 then [] else [b], 1);
    SameHolds(m'.bufs, w, b, 1);
    SameShape(m'.bufs, w, true, false, 0);
  }

  /** A write that is answered leaves the buffers in order. */
  lemma {:induction false} OrderAfter(m: Writer, m': Writer, calls: seq<nat>, k: nat, supply: seq<int>)
    requires Reached(m, calls) && OnHand(m, calls) && Ascending(calls + [k]) && Fits(calls + [k]) && InOrder(m, calls)
    requires Passed(m, m', Place(k)) && Changed(m, m', Place(k), supply)
    ensures OnHand(m', calls + [k]) && (At(m', Place(k)) != 0 ==> InOrder(m', calls + [k]))
  {
    hide At, First, Levels, Over, Holds, Shape, Missing, OnHand, Reached, Fits, Ascending, Trail, VisitAll, Again,
      Early, Groups, InOrder, Passed, Changed;
    AscendingFront(calls, k);
    PlaceIs(k);
    Ranges(k);
    LevelFour(k);
    if k >= LIMIT {
      TripleAfter(m, m', calls, k);
      GroupIs(k);
      TripleInOrder(m, m', calls, k, supply);
    } else if Levels(k) == 0 {
      DirectInOrder(m, m', calls, k, supply);
    } else {
      MiddleInOrder(m, m', calls, k, supply);
    }
    LastOnHand(m', calls, k);
  }

  lemma LastOnHand(m': Writer, calls: seq<nat>, k: nat)
    ensures HeldAfter(m', Place(k), Spent(calls + [k])) ==> OnHand(m', calls + [k])
  {
    hide At, Over, Place, Holds, Spent;
    assert Last(calls + [k]) == k;
  }

  lemma AllThere(m: Writer, p: Id, l: nat)
    requires p.lev == 0 && l <= p.root && At(m, p) != 0
    ensures At(m, Over(p, l)) != 0
  {
    if At(m, Over(p, l)) == 0 {
      ZeroBelow(m, p, l);
    }
  }

  lemma TripleInOrder(m: Writer, m': Writer, calls: seq<nat>, k: nat, supply: seq<int>)
    requires InOrder(m, calls) && Changed(m, m', Place(k), supply) && LIMIT <= k < First(4) && Passed(m, m', Place(k))
    requires At(m', Over(Place(k), 1)) != 0 ==>
              && Shape(m'.bufs, At(m, SINGLE) != 0, At(m, DOUBLE) != 0, Groups(calls + [k]))
              && At(m', Over(Place(k), 2)) != 0 && At(m', Over(Place(k), 3)) != 0
              && (Spent(calls + [k]) ==> Missing(m'.bufs, At(m', Over(Place(k), 2))))
    ensures At(m', Place(k)) != 0 ==> InOrder(m', calls + [k])
  {
    hide At, First, Levels, Over, Shape, Missing, Groups, Early, Again, Changed, Under, Place;
    GroupIs(k);
    PlaceIs(k);
    OneMore(calls, k);
    OtherRoot(Place(k), SINGLE);
    OtherRoot(Place(k), DOUBLE);
    Elsewhere(m, m', Place(k), supply, SINGLE);
    Elsewhere(m, m', Place(k), supply, DOUBLE);
    SomeGroup(calls, k);
    assert Last(calls + [k]) == k;
    if At(m', Place(k)) != 0 {
      AllThere(m', Place(k), 1);
    }
  }

  lemma SomeGroup(calls: seq<nat>, k: nat)
    requires k >= LIMIT
    ensures Groups(calls + [k]) > 0
  {
    OneMore(calls, k);
    if Again(calls, k) {
      assert calls == calls[..|calls| - 1] + [Last(calls)];
      SomeGroup(calls[..|calls| - 1], Last(calls));
    }
  }

  lemma OtherRoot(p: Id, y: Id)
    requires p.root != y.root
    ensures !Under(p, y)
  {
  }

  lemma DirectInOrder(m: Writer, m': Writer, calls: seq<nat>, k: nat, supply: seq<int>)
    requires InOrder(m, calls) && Changed(m, m', Place(k), supply) && Passed(m, m', Place(k)) && k < NDIRECT
             && Place(k).root == 0
    ensures HeldAfter(m', Place(k), Spent(calls + [k])) && InOrder(m', calls + [k])
  {
    hide At, First, Levels, Over, Shape, Missing, Groups, Early, Again, Changed, Under, Place, Holds, VisitAll, Trail;
    OneMore(calls, k);
    forall y | y in [SINGLE, DOUBLE, TRIPLE]
      ensures At(m', y) == At(m, y)
    {
      OtherRoot(Place(k), y);
      Elsewhere(m, m', Place(k), supply, y);
    }
    TrailThree(m', Place(k));
    VisitTwo(m.bufs, 0, 0);
    NoVisit(m.bufs);
    SameShape(m'.bufs, m.bufs, At(m, SINGLE) != 0, At(m, DOUBLE) != 0, Groups(calls));
    assert Last(calls + [k]) == k;
  }

  lemma NoVisit(bufs: Buffers)
    ensures VisitAll(bufs, [], 0) == bufs
  {
  }

  lemma MiddleInOrder(m: Writer, m': Writer, calls: seq<nat>, k: nat, supply: seq<int>)
    requires Reached(m, calls) && InOrder(m, calls) && Changed(m, m', Place(k), supply) && Passed(m, m', Place(k))
    requires Ascending(calls + [k]) && NDIRECT <= k < LIMIT && 1 <= Place(k).root <= 2
    ensures HeldAfter(m', Place(k), Spent(calls + [k])) && (At(m', Place(k)) != 0 ==> InOrder(m', calls + [k]))
  {
    hide At, First, Levels, Over, Shape, Missing, Early, Again, Changed, Under, Place, Holds, VisitAll, Trail, Groups,
      Reached, Passed, Small;
    AscendingFront(calls, k);
    OneMore(calls, k);
    NoGroups(calls);
    var p := Place(k);
    TopOf(k);
    PlaceIs(k);
    OtherRoot(p, TRIPLE);
    PassedPreserved(m, m', p);
    Elsewhere(m, m', p, supply, TRIPLE);
    SmallShape(m.bufs, At(m, SINGLE) != 0, At(m, DOUBLE) != 0);
    if p.root == 1 {
      NoDouble(m, calls, k);
      OtherRoot(p, DOUBLE);
      Elsewhere(m, m', p, supply, DOUBLE);
      SingleAfter(m, m', p);
    } else {
      OtherRoot(p, SINGLE);
      Elsewhere(m, m', p, supply, SINGLE);
      DoubleAfter(m, m', p);
    }
    SmallShape(m'.bufs, At(m', SINGLE) != 0, At(m', DOUBLE) != 0);
    assert Last(calls + [k]) == k;
    if At(m', p) != 0 {
      AllThere(m', p, 1);
      AllThere(m', p, p.root);
    }
  }

  lemma SmallShape(bufs: Buffers, single: bool, double: bool)
    ensures Shape(bufs, single, double, 0) == Small(bufs, single, double)
  {
  }

  lemma PassedPreserved(m: Writer, m': Writer, p: Id)
    requires Passed(m, m', p)
    ensures Preserved(m, m')
  {
  }

  lemma TopOf(k: nat)
    requires 1 <= Place(k).root <= 2
    ensures Over(Place(k), Place(k).root) == if Place(k).root == 1 then SINGLE else DOUBLE
  {
    var r := Levels(k);
    InSpan(k);
    TopIs(seq(NADDR, _ => 0), map[], r, k - First(r));
  }

  lemma NoDouble(m: Writer, calls: seq<nat>, k: nat)
    requires Reached(m, calls) && Place(k).root == 1 && (calls != [] ==> Last(calls) < k)
    ensures At(m, DOUBLE) == 0
  {
    hide At, First, Levels;
    if At(m, DOUBLE) != 0 {
      PlaceMono(Last(calls), k);
    }
  }

  // ----- files without holes

  /** The places from a to n. */
  function Range(a: nat, n: nat): (r: seq<nat>)
    ensures |r| == (if a < n then n - a else 0) && forall i :: 0 <= i < |r| ==> r[i] == a + i
  {
    if a < n then seq(n - a, i requires 0 <= i => a + i) else []
  }

  lemma GroupOf(k: nat, g: nat)
    requires k >= LIMIT
    ensures Group(k) == g <==> LIMIT + g * (NINDIR * NINDIR) <= k < LIMIT + (g + 1) * (NINDIR * NINDIR)
    ensures Group(k) < g <==> k < LIMIT + g * (NINDIR * NINDIR)
  {
    var m, x := NINDIR * NINDIR, k - LIMIT;
    MulMono(NINDIR, 1, NINDIR);
    Remainder(x, m);
    Distribute(m, g, 1);
    if x / m < g {
      MulMono(m, x / m + 1, g);
      Distribute(m, x / m, 1);
    } else {
      MulMono(m, g, x / m);
      if x / m > g {
        MulMono(m, g + 1, x / m);
      }
    }
  }

  lemma {:induction false} RangeGroups(a: nat, n: nat)
    requires a <= LIMIT && a <= n
    ensures Groups(Range(a, n)) == if n <= LIMIT then 0 else Group(n - 1) + 1
    decreases n
  {
    hide Group, Groups, Again, First;
    if a == n {
      assert Range(a, n) == [];
      NoGroups([]);
    } else {
      RangeGroups(a, n - 1);
      assert Range(a, n) == Range(a, n - 1) + [n - 1];
      GroupsStep(Range(a, n - 1), n - 1);
      if n - 1 >= LIMIT {
        AgainInRange(a, n - 1);
      } else {
        NotAgain(Range(a, n - 1), n - 1);
      }
    }
  }

  /** In a row of places the groups follow each other. */
  lemma AgainInRange(a: nat, k: nat)
    requires a <= LIMIT <= k
    ensures Again(Range(a, k), k) <==> k > LIMIT && Group(k - 1) == Group(k)
    ensures k > LIMIT ==> Group(k) == Group(k - 1) || Group(k) == Group(k - 1) + 1
    ensures k == LIMIT ==> Group(k) == 0
  {
    if k > LIMIT {
      var g := Group(k - 1);
      GroupOf(k - 1, g);
      GroupOf(k, g + 2);
      GroupOf(k, g);
      MulMono(NINDIR, 1, NINDIR);
      Distribute(NINDIR * NINDIR, g, 1);
      Distribute(NINDIR * NINDIR, g + 1, 1);
    } else {
      GroupOf(k, 1);
    }
  }

  lemma {:induction false} RangeFits(a: nat, n: nat)
    requires a <= LIMIT && a <= n
    ensures
      var room := if a < LIMIT && n > NDIRECT then 1 else 2;
      Fits(Range(a, n)) <==> n <= LIMIT + room * (NINDIR * NINDIR) + 1
    decreases n
  {
    hide Group, Groups, Again;
    var room := if a < LIMIT && n > NDIRECT then 1 else 2;
    MulMono(NINDIR, 128, NINDIR);
    Limits();
    if a == n {
      assert Range(a, n) == [];
    } else {
      var calls, k := Range(a, n - 1), n - 1;
      assert Range(a, n) == calls + [k];
      RangeFits(a, k);
      OneMore(calls, k);
      RangeGroups(a, k);
      RoomOf(a, k);
      if k >= LIMIT {
        AgainInRange(a, k);
      } else {
        NotAgain(calls, k);
      }
      if k > LIMIT {
        GroupOf(k - 1, room);
        GroupOf(k, room);
        GroupOf(k, room + 1);
        Distribute(NINDIR * NINDIR, room, 1);
      }
    }
  }

  lemma NotAgain(calls: seq<nat>, k: nat)
    requires k < LIMIT
    ensures !Again(calls, k)
  {
  }

  lemma RoomOf(a: nat, n: nat)
    requires a <= LIMIT && a <= n
    ensures Early(Range(a, n)) <==> a < LIMIT && n > NDIRECT && n > a
  {
    Limits();
    if a < LIMIT && n > NDIRECT && n > a {
      var i := if a >= NDIRECT then 0 else NDIRECT - a;
      assert NDIRECT <= Range(a, n)[i] < LIMIT;
    }
  }
}
