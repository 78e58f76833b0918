/** The write buffers of dcopy.c: up to three indirect blocks not yet on disk. */
module IndirectBuffers {
  import opened FreeChain
  import opened AddressTree

  const NBUFIN: nat := 3

  type Entries = s: seq<int> | |s| == NINDIR witness seq(NINDIR, _ => 0)

  /** struct inbuf; indlev 0 means that the buffer is unused, whatever bn still says. */
  datatype Inbuf = Inbuf(bn: int, indlev: nat, indir: Entries)

  type Buffers = s: seq<Inbuf> | |s| == NBUFIN witness seq(NBUFIN, _ => Inbuf(0, 0, Zeros()))

  function Zeros(): (r: Entries)
    ensures forall j :: 0 <= j < NINDIR ==> r[j] == 0
  {
    seq(NINDIR, _ => 0)
  }

  /** b is in a buffer. */
  predicate Live(bufs: seq<Inbuf>, b: int) {
    exists s :: 0 <= s < |bufs| && bufs[s].indlev != 0 && bufs[s].bn == b
  }

  /** The buffers in use hold different blocks. */
  ghost predicate Tidy(bufs: seq<Inbuf>) {
    forall s, t :: 0 <= s < t < |bufs| && bufs[s].indlev != 0 && bufs[t].indlev != 0 ==> bufs[s].bn != bufs[t].bn
  }

  /** putblk(ip->i_indir, ip->i_bn), if the buffer is in use. */
  function Put(disk: Disk, ip: Inbuf): Disk {
    if ip.indlev != 0 then disk[ip.bn := Indirect(ip.indir)] else disk
  }

  /** The disk as it would be with all buffers written. */
  function View(disk: Disk, bufs: seq<Inbuf>): Disk {
    if |bufs| == 0 then disk else Put(View(disk, bufs[..|bufs| - 1]), bufs[|bufs| - 1])
  }

  lemma {:induction false} ViewLive(disk: Disk, bufs: seq<Inbuf>, s: nat)
    requires Tidy(bufs) && s < |bufs| && bufs[s].indlev != 0
    ensures bufs[s].bn in View(disk, bufs) && View(disk, bufs)[bufs[s].bn] == Indirect(bufs[s].indir)
  {
    if s < |bufs| - 1 {
      ViewLive(disk, bufs[..|bufs| - 1], s);
    }
  }

  lemma LivePrefix(bufs: seq<Inbuf>, n: nat, b: int)
    requires n <= |bufs|
    ensures Live(bufs[..n], b) ==> Live(bufs, b)
  {
    if s :| 0 <= s < n && bufs[..n][s].indlev != 0 && bufs[..n][s].bn == b {
      assert bufs[s].indlev != 0 && bufs[s].bn == b;
    }
  }

  lemma {:induction false} ViewOther(disk: Disk, bufs: seq<Inbuf>, b: int)
    requires !Live(bufs, b)
    ensures b in View(disk, bufs) <==> b in disk
    ensures b in disk ==> View(disk, bufs)[b] == disk[b]
  {
    if |bufs| > 0 {
      var n := |bufs| - 1;
      LivePrefix(bufs, n, b);
      ViewOther(disk, bufs[..n], b);
      assert bufs[n].indlev != 0 ==> bufs[n].bn != b;
    }
  }

  /** Both views in one place, for comparing two states. */
  lemma ViewAt(disk: Disk, bufs: seq<Inbuf>, b: int)
    requires Tidy(bufs)
    ensures !Live(bufs, b) ==> (b in View(disk, bufs) <==> b in disk) && (b in disk ==> View(disk, bufs)[b] == disk[b])
    ensures forall s :: 0 <= s < |bufs| && bufs[s].indlev != 0 && bufs[s].bn == b ==>
              b in View(disk, bufs) && View(disk, bufs)[b] == Indirect(bufs[s].indir)
  {
    if !Live(bufs, b) {
      ViewOther(disk, bufs, b);
    }
    forall s | 0 <= s < |bufs| && bufs[s].indlev != 0 && bufs[s].bn == b
      ensures b in View(disk, bufs) && View(disk, bufs)[b] == Indirect(bufs[s].indir)
    {
      ViewLive(disk, bufs, s);
    }
  }

  /** Writing out buffer s and using it for a new block b changes the view at b only. */
  lemma ReplaceView(disk: Disk, bufs: seq<Inbuf>, s: nat, b: int, lev: nat)
    requires Tidy(bufs) && s < |bufs| && lev > 0
    requires !Live(bufs, b)
    ensures Tidy(bufs[s := Inbuf(b, lev, Zeros())])
    ensures View(Put(disk, bufs[s]), bufs[s := Inbuf(b, lev, Zeros())]) == View(disk, bufs)[b := Indirect(Zeros())]
  {
    hide View;
    var d, after := Put(disk, bufs[s]), bufs[s := Inbuf(b, lev, Zeros())];
    forall t | 0 <= t < |bufs| && bufs[t].indlev != 0
      ensures bufs[t].bn != b
    {
      assert Live(bufs, bufs[t].bn);
    }
    assert Tidy(after);
    var v, w := View(disk, bufs), View(d, after);
    forall c
      ensures c in w <==> c in v[b := Indirect(Zeros())]
      ensures c in w ==> w[c] == v[b := Indirect(Zeros())][c]
    {
      ReplaceAt(disk, bufs, s, b, lev, c);
    }
  }

  lemma ReplaceAt(disk: Disk, bufs: seq<Inbuf>, s: nat, b: int, lev: nat, c: int)
    requires Tidy(bufs) && s < |bufs| && lev > 0
    requires !Live(bufs, b) && Tidy(bufs[s := Inbuf(b, lev, Zeros())])
    ensures
      var w := View(Put(disk, bufs[s]), bufs[s := Inbuf(b, lev, Zeros())]);
      var v := View(disk, bufs)[b := Indirect(Zeros())];
      (c in w <==> c in v) && (c in w ==> w[c] == v[c])
  {
    hide View;
    var d, after := Put(disk, bufs[s]), bufs[s := Inbuf(b, lev, Zeros())];
    ViewAt(disk, bufs, c);
    ViewAt(d, after, c);
    if c == b {
      assert after[s].bn == c;
    } else if t :| 0 <= t < |bufs| && bufs[t].indlev != 0 && bufs[t].bn == c {
      if t != s {
        assert after[t] == bufs[t];
      } else {
        assert !Live(after, c);
      }
    } else {
      assert !Live(bufs, c) && !Live(after, c);
    }
  }

  /** Storing an address in a buffer changes the view of its block only. */
  lemma StoreView(disk: Disk, bufs: seq<Inbuf>, s: nat, i: nat, x: int)
    requires Tidy(bufs) && s < |bufs| && bufs[s].indlev != 0 && i < NINDIR
    ensures
      var ip := bufs[s].(indir := bufs[s].indir[i := x]);
      && Tidy(bufs[s := ip])
      && View(disk, bufs[s := ip]) == View(disk, bufs)[bufs[s].bn := Indirect(ip.indir)]
  {
    hide View;
    var ip := bufs[s].(indir := bufs[s].indir[i := x]);
    var v, w := View(disk, bufs)[bufs[s].bn := Indirect(ip.indir)], View(disk, bufs[s := ip]);
    forall c
      ensures (c in w <==> c in v) && (c in w ==> w[c] == v[c])
    {
      StoreAt(disk, bufs, s, i, x, c);
    }
  }

  lemma StoreAt(disk: Disk, bufs: seq<Inbuf>, s: nat, i: nat, x: int, c: int)
    requires Tidy(bufs) && s < |bufs| && bufs[s].indlev != 0 && i < NINDIR
    ensures
      var ip := bufs[s].(indir := bufs[s].indir[i := x]);
      var v, w := View(disk, bufs)[bufs[s].bn := Indirect(ip.indir)], View(disk, bufs[s := ip]);
      (c in w <==> c in v) && (c in w ==> w[c] == v[c])
  {
    hide View;
    var ip := bufs[s].(indir := bufs[s].indir[i := x]);
    var after := bufs[s := ip];
    ViewAt(disk, bufs, c);
    ViewAt(disk, after, c);
    if t :| 0 <= t < |bufs| && bufs[t].indlev != 0 && bufs[t].bn == c {
      assert after[t].indlev != 0 && after[t].bn == c;
    } else {
      assert !Live(bufs, c) && !Live(after, c);
    }
  }

  /** No buffer says that it holds bno, not even an unused one. */
  predicate Missing(bufs: Buffers, bno: int) {
    bufs[0].bn != bno && bufs[1].bn != bno && bufs[2].bn != bno
  }

  /** The first buffer of the lowest level. */
  function Lowest(bufs: Buffers): (s: nat)
    ensures s < NBUFIN
  {
    if bufs[0].indlev <= bufs[1].indlev && bufs[0].indlev <= bufs[2].indlev then 0
    else if bufs[1].indlev <= bufs[2].indlev then 1
    else 2
  }

  /** The buffer getindir takes for bno: the first that says it holds bno, else the first of the lowest level. */
  function BufferFor(bufs: Buffers, bno: int): (s: nat)
    ensures s < NBUFIN && (bufs[s].bn == bno <==> !Missing(bufs, bno))
  {
    if bufs[0].bn == bno then 0 else if bufs[1].bn == bno then 1 else if bufs[2].bn == bno then 2 else Lowest(bufs)
  }

  /** What getindir does to the buffers. */
  function Visit(bufs: Buffers, b: int, lev: nat): Buffers {
    if Missing(bufs, b) then bufs[Lowest(bufs) := Inbuf(b, lev, Zeros())] else bufs
  }

  /** The same for several blocks, each one level below the last. */
  function VisitAll(bufs: Buffers, trail: seq<int>, lev: nat): Buffers
    decreases |trail|
  {
    if trail == [] then bufs else VisitAll(Visit(bufs, trail[0], lev), trail[1..], if lev > 0 then lev - 1 else 0)
  }

  lemma VisitFirst(bufs: Buffers, b: int, trail: seq<int>, lev: nat)
    requires lev > 0
    ensures VisitAll(bufs, [b] + trail, lev) == VisitAll(Visit(bufs, b, lev), trail, lev - 1)
  {
    assert ([b] + trail)[1..] == trail;
  }

  /** Buffers that hold the same blocks, whatever is in them. */
  ghost predicate SameTags(a: Buffers, b: Buffers) {
    forall s :: 0 <= s < NBUFIN ==> a[s].bn == b[s].bn && a[s].indlev == b[s].indlev
  }

  lemma VisitSame(a: Buffers, b: Buffers, x: int, lev: nat)
    requires SameTags(a, b)
    ensures SameTags(Visit(a, x, lev), Visit(b, x, lev))
  {
    assert a[0].bn == b[0].bn && a[1].bn == b[1].bn && a[2].bn == b[2].bn;
    assert a[0].indlev == b[0].indlev && a[1].indlev == b[1].indlev && a[2].indlev == b[2].indlev;
  }

  lemma {:induction false} VisitAllSame(a: Buffers, b: Buffers, trail: seq<int>, lev: nat)
    requires SameTags(a, b)
    ensures SameTags(VisitAll(a, trail, lev), VisitAll(b, trail, lev))
    decreases |trail|
  {
    hide Visit;
    if trail != [] {
      VisitSame(a, b, trail[0], lev);
      VisitAllSame(Visit(a, trail[0], lev), Visit(b, trail[0], lev), trail[1..], if lev > 0 then lev - 1 else 0);
    }
  }
}
