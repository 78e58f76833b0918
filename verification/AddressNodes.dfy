/** The blocks of a file by their places in its address tree, and what one change of the tree does to them all. */
module AddressNodes {
  import opened FreeChain
  import opened AddressTree
  import opened Sums

  /** Block j of those lev indirections above the data (data blocks at level 0) below an address of the inode. */
  datatype Id = Id(root: nat, lev: nat, j: nat)

  /** The indirect block that names block y. */
  function Up(y: Id): Id {
    Id(y.root, y.lev + 1, y.j / NINDIR)
  }

  /** The address of a block; 0 if there is none. */
  function Addr(addr: seq<int>, v: Disk, y: Id): int
    requires |addr| == NADDR
    decreases y.root - y.lev
  {
    if y.root > 3 || y.lev > y.root then 0
    else if y.lev == y.root then Root(addr, y)
    else
      var b := Addr(addr, v, Up(y));
      if b == 0 then 0 else Entry(v, b, y.j % NINDIR)
  }

  /** What the inode names. */
  function Root(addr: seq<int>, y: Id): int
    requires |addr| == NADDR && y.root <= 3
  {
    if y.root == 0 then (if y.j < NDIRECT then addr[y.j] else 0)
    else if y.j == 0 then addr[NDIRECT + y.root - 1]
    else 0
  }

  /** The data block for a place of the file. */
  function Place(k: nat): Id {
    Id(Levels(k), 0, k - First(Levels(k)))
  }

  /** The block of level lev on the way to y. */
  function Over(y: Id, lev: nat): (r: Id)
    ensures r.root == y.root && r.lev == if lev <= y.lev then y.lev else lev
  {
    if lev <= y.lev then y else Up(Over(y, lev - 1))
  }

  /** x is on the way to y. */
  predicate Under(y: Id, x: Id) {
    y.lev <= x.lev && Over(y, x.lev) == x
  }

  lemma {:induction false} OverUp(y: Id, lev: nat)
    requires lev > y.lev
    ensures Over(y, lev) == Over(Up(y), lev)
  {
    if lev > y.lev + 1 {
      OverUp(y, lev - 1);
    }
  }

  /** Blocks with the same parent and the same entry are the same. */
  lemma SameEntry(y: Id, z: Id)
    requires Up(y) == Up(z) && y.j % NINDIR == z.j % NINDIR
    ensures y == z
  {
    Divided(y.j);
    Divided(z.j);
  }

  // ----- reading

  lemma DivDiv(a: nat, m: nat, n: nat)
    requires m > 0 && n > 0
    ensures m * n > 0 && a / (m * n) == (a / n) / m
  {
    var q, r := a / n, a % n;
    var p, s := q / m, q % m;
    Remainder(a, n);
    Remainder(q, m);
    MulMono(n, s, m - 1);
    Distribute(n, m - 1, 1);
    assert a == n * (m * p + s) + r;
    Distribute(n, m * p, s);
    assert n * (m * p) == (m * n) * p;
    MulMono(m, 1, n);
    DivUnique(a, m * n, p, n * s + r);
  }

  lemma Remainder(a: nat, n: nat)
    requires n > 0
    ensures a == n * (a / n) + a % n
  {
  }

  lemma {:induction false} OverIs(r: nat, bn: nat, lev: nat)
    ensures Over(Id(r, 0, bn), lev).j == bn / Span(lev)
  {
    if lev > 0 {
      OverIs(r, bn, lev - 1);
      DivDiv(bn, NINDIR, Span(lev - 1));
    } else {
      assert bn / 1 == bn;
    }
  }

  lemma {:induction false} WalkIs(addr: seq<int>, v: Disk, r: nat, bn: nat, lev: nat)
    requires |addr| == NADDR && lev <= r <= 3
    ensures
      var a := Addr(addr, v, Id(r, 0, bn));
      Walk(v, Addr(addr, v, Over(Id(r, 0, bn), lev)), lev, bn) == if a == 0 then NONE else a
  {
    if lev > 0 {
      var y := Id(r, 0, bn);
      WalkIs(addr, v, r, bn, lev - 1);
      OverIs(r, bn, lev - 1);
      assert Over(y, lev) == Up(Over(y, lev - 1));
    }
  }

  lemma NoRoot(addr: seq<int>, v: Disk, y: Id)
    requires |addr| == NADDR && y.root > 3
    ensures Addr(addr, v, y) == 0
  {
  }

  lemma TopIs(addr: seq<int>, v: Disk, r: nat, bn: nat)
    requires |addr| == NADDR && 1 <= r <= 3 && bn < Span(r)
    ensures Over(Id(r, 0, bn), r) == Id(r, r, 0) && Addr(addr, v, Id(r, r, 0)) == addr[NDIRECT + r - 1]
  {
    OverIs(r, bn, r);
    DivUnique(bn, Span(r), 0, bn);
  }

  /** bmap reads the address of the data block. */
  lemma ReadIs(addr: seq<int>, v: Disk, k: nat)
    requires |addr| == NADDR
    ensures
      var a := Addr(addr, v, Place(k));
      ReadAddress(addr, v, k) == if a == 0 then NONE else a
  {
    hide First, Span, Walk, Index;
    var r := Levels(k);
    if r == 4 {
      NoRoot(addr, v, Place(k));
    } else if r == 0 {
      Ranges(k);
      WalkEnds(v, addr[k], 0, k);
    } else {
      InSpan(k);
      TopIs(addr, v, r, k - First(r));
      WalkIs(addr, v, r, k - First(r), r);
    }
  }

  lemma InSpan(k: nat)
    requires 1 <= Levels(k) <= 3
    ensures k - First(Levels(k)) < Span(Levels(k))
  {
    var r := Levels(k);
    assert First(r + 1) == First(r) + Span(r);
  }

  // ----- what a change does

  /** Indirect block x, at b, loses what it held. */
  lemma {:induction false} Cleared(addr: seq<int>, v: Disk, x: Id, b: int, zeros: seq<int>, y: Id)
    requires |addr| == NADDR && Addr(addr, v, x) == b != 0
    requires forall z :: Addr(addr, v, z) == b ==> z == x
    requires forall i :: 0 <= i < |zeros| ==> zeros[i] == 0
    ensures Addr(addr, v[b := Indirect(zeros)], y) == if Under(y, x) && y != x then 0 else Addr(addr, v, y)
    decreases y.root - y.lev
  {
    var w := v[b := Indirect(zeros)];
    if y.root <= 3 && y.lev < y.root {
      Cleared(addr, v, x, b, zeros, Up(y));
      UnderUp(y, x);
      var p := Addr(addr, v, Up(y));
      if p != b {
        assert forall i: nat :: Entry(w, p, i) == Entry(v, p, i);
      }
    } else {
      assert Under(y, x) ==> y.root == x.root && y.lev <= x.lev;
      if y.root <= 3 && y.lev == y.root {
        HasAddress(addr, v, x);
      }
    }
  }

  lemma HasAddress(addr: seq<int>, v: Disk, x: Id)
    requires |addr| == NADDR && Addr(addr, v, x) != 0
    ensures x.lev <= x.root <= 3
  {
  }

  lemma UnderUp(y: Id, x: Id)
    ensures Under(y, x) <==> y == x || Under(Up(y), x)
  {
    if y.lev < x.lev {
      OverUp(y, x.lev);
    } else {
      assert Over(y, x.lev) == y;
    }
  }

  /** The entry for y in the block above it, at b, which was 0, becomes c. */
  lemma {:induction false} NamedAbove(addr: seq<int>, v: Disk, y: Id, b: int, c: int, z: Id)
    requires |addr| == NADDR && y.lev < y.root <= 3 && Addr(addr, v, Up(y)) == b != 0 && c != 0 && c != b && c !in v
    requires b in v && v[b].Indirect? && |v[b].addr| == NINDIR && Addr(addr, v, y) == 0
    requires forall x :: Addr(addr, v, x) == b ==> x == Up(y)
    requires forall x :: Addr(addr, v, x) != c
    ensures
      var w := v[b := Indirect(v[b].addr[y.j % NINDIR := c])];
      Addr(addr, w, z) == if z == y then c else Addr(addr, v, z)
    decreases z.root - z.lev
  {
    var w := v[b := Indirect(v[b].addr[y.j % NINDIR := c])];
    if z.root <= 3 && z.lev < z.root {
      NamedAbove(addr, v, y, b, c, Up(z));
      var p := Addr(addr, v, Up(z));
      if Up(z) == y {
        assert Entry(w, c, z.j % NINDIR) == 0;
        assert z != y;
      } else if p == b {
        if z.j % NINDIR == y.j % NINDIR {
          SameEntry(z, y);
        }
      } else {
        assert z != y;
        assert Entry(w, p, z.j % NINDIR) == Entry(v, p, z.j % NINDIR);
      }
    }
  }

  /** The inode's entry for y, which was 0, becomes c. */
  lemma {:induction false} NamedByInode(addr: seq<int>, v: Disk, y: Id, a: nat, c: int, z: Id)
    requires |addr| == NADDR && a < NADDR && addr[a] == 0 && c != 0 && c !in v
    requires y.lev == y.root <= 3 && if y.root == 0 then y.j == a < NDIRECT else y.j == 0 && a == NDIRECT + y.root - 1
    requires forall x :: Addr(addr, v, x) != c
    ensures Addr(addr[a := c], v, z) == if z == y then c else Addr(addr, v, z)
    decreases z.root - z.lev
  {
    if z.root <= 3 && z.lev < z.root {
      NamedByInode(addr, v, y, a, c, Up(z));
      if Up(z) == y {
        assert Addr(addr, v, y) == 0;
        assert Entry(v, c, z.j % NINDIR) == 0;
      }
    }
  }

  // ----- a tree on disk

  /** All indirect blocks of the tree are on disk. */
  ghost predicate OnDisk(addr: seq<int>, disk: Disk)
    requires |addr| == NADDR
  {
    forall y: Id :: y.lev >= 1 && Addr(addr, disk, y) != 0 ==> Addr(addr, disk, y) in disk
  }

  lemma {:induction false} AddrSurvives(addr: seq<int>, disk: Disk, disk': Disk, y: Id)
    requires |addr| == NADDR && OnDisk(addr, disk) && forall b :: b in disk ==> b in disk' && disk'[b] == disk[b]
    ensures Addr(addr, disk', y) == Addr(addr, disk, y)
    decreases y.root - y.lev
  {
    if y.root <= 3 && y.lev < y.root {
      AddrSurvives(addr, disk, disk', Up(y));
    }
  }

  /** A tree needs nothing but the blocks it is made of. */
  lemma TreeSurvives(addr: seq<int>, disk: Disk, disk': Disk)
    requires |addr| == NADDR && OnDisk(addr, disk) && forall b :: b in disk ==> b in disk' && disk'[b] == disk[b]
    ensures OnDisk(addr, disk') && forall k: nat :: ReadAddress(addr, disk', k) == ReadAddress(addr, disk, k)
  {
    hide Addr, ReadAddress;
    forall y: Id
      ensures Addr(addr, disk', y) == Addr(addr, disk, y)
    {
      AddrSurvives(addr, disk, disk', y);
    }
    forall k: nat
      ensures ReadAddress(addr, disk', k) == ReadAddress(addr, disk, k)
    {
      ReadIs(addr, disk, k);
      ReadIs(addr, disk', k);
    }
  }

  // ----- ascending order

  /** y comes no later than the blocks on the way to p. */
  predicate Upto(y: Id, p: Id) {
    y.root < p.root || (y.root == p.root && y.j <= Over(p, y.lev).j)
  }

  lemma DivMono(a: nat, b: nat)
    requires a <= b
    ensures a / NINDIR <= b / NINDIR
  {
    Divided(a);
    Divided(b);
    if a / NINDIR > b / NINDIR {
      MulMono(NINDIR, b / NINDIR + 1, a / NINDIR);
      Distribute(NINDIR, b / NINDIR, 1);
      assert false;
    }
  }

  lemma {:induction false} OverMono(p: Id, q: Id, lev: nat)
    requires p.root == q.root && p.lev == q.lev && p.j <= q.j
    ensures Over(p, lev).j <= Over(q, lev).j
  {
    if lev > p.lev {
      OverMono(p, q, lev - 1);
      DivMono(Over(p, lev - 1).j, Over(q, lev - 1).j);
    }
  }

  /** Places in order have their data blocks in order. */
  lemma PlaceMono(k: nat, m: nat)
    requires k <= m
    ensures Place(k).root <= Place(m).root
    ensures Place(k).root == Place(m).root ==> Place(k).j == Place(m).j - (m - k)
  {
    if Levels(k) > Levels(m) {
      FirstMono(Levels(m) + 1, Levels(k));
    }
  }

  lemma {:induction false} FirstMono(a: nat, b: nat)
    requires a <= b
    ensures First(a) <= First(b)
  {
    if a < b {
      FirstMono(a, b - 1);
    }
  }

  /** What comes up to place k comes up to all later ones, and so do the blocks on the way to these. */
  lemma UptoLater(y: Id, k: nat, m: nat)
    requires k <= m
    ensures Upto(y, Place(k)) ==> Upto(y, Place(m))
    ensures Under(Place(m), y) ==> Upto(y, Place(m))
  {
    hide First, Levels;
    PlaceMono(k, m);
    if Place(k).root == Place(m).root {
      OverMono(Place(k), Place(m), y.lev);
    }
  }

  /** Of the blocks on the way to m, those that come up to k are on the way to k. */
  lemma UptoOnWay(y: Id, k: nat, m: nat)
    requires k <= m && Upto(y, Place(k)) && Under(Place(m), y)
    ensures Under(Place(k), y) && (y.lev == 0 ==> k == m)
  {
    hide First, Levels;
    PlaceMono(k, m);
    if Place(k).root == Place(m).root {
      OverMono(Place(k), Place(m), y.lev);
    }
  }

  /** Ways that meet stay together. */
  lemma {:induction false} OverAgree(p: Id, q: Id, l: nat, lev: nat)
    requires p.lev == q.lev && p.lev <= l <= lev && Over(p, l) == Over(q, l)
    ensures Over(p, lev) == Over(q, lev)
  {
    if l < lev {
      OverAgree(p, q, l, lev - 1);
    }
  }
}
