/** mkfs.c iput: the block list of a file becomes an address tree. */
module MkfsInode {
  import opened FreeChain
  import opened AddressTree
  import opened MkfsFree
  import opened Lists
  import opened Sums

  const NFB: nat := NINDIR + 500

  /** The first n blocks of a list, in their places. */
  function Listed(blocks: seq<int>, n: nat): Places {
    (k: nat) => if k < n && k < |blocks| then blocks[k] else 0
  }

  /** Moves the addresses from i0 on to the front of ib. */
  method FillBlock(ib: array<int>, i0: nat, n: nat) returns (i: nat)
    requires ib.Length == NFB && NDIRECT <= i0 < n <= NFB
    requires i0 == NDIRECT || i0 >= NINDIR
    modifies ib
    ensures i == if i0 + NINDIR <= n then i0 + NINDIR else n
    ensures ib[..NINDIR] == Chunk(Listed(old(ib[..]), n), i0)
    ensures forall k :: NINDIR <= k < NFB ==> ib[k] == old(ib[k])
  {
    i := i0;
    var j: nat := 0;
    while i < n && j < NINDIR
      invariant j <= NINDIR && i == i0 + j <= n
      invariant forall k :: 0 <= k < j ==> ib[k] == old(ib[i0 + k])
      invariant forall k :: j <= k < NFB ==> ib[k] == old(ib[k])
    {
      ib[j] := ib[i];
      j := j + 1;
      i := i + 1;
    }
    while j < NINDIR
      invariant i - i0 <= j <= NINDIR
      invariant forall k :: 0 <= k < i - i0 ==> ib[k] == old(ib[i0 + k])
      invariant forall k :: i - i0 <= k < j ==> ib[k] == 0
      invariant forall k :: NINDIR <= k < NFB ==> ib[k] == old(ib[k])
    {
      ib[j] := 0;
      j := j + 1;
    }
  }

  // ----- iput

  /** A block is taken and the addresses in ib are written to it. */
  method PutBlock(fs: Filsys, addr: seq<int>, ghost s: seq<int>) returns (ok: bool, bno: int)
    requires fs.Holding(s) && Distinct(s)
    modifies fs`nfree, fs`tfree, fs`disk, fs.free
    ensures ok <==> s != []
    ensures !ok ==> fs.disk == old(fs.disk)
    ensures ok ==> bno == s[0] != 0 && fs.Holding(s[1..]) && fs.disk == old(fs.disk)[bno := Indirect(addr)]
  {
    NonZero(fs, s);
    ok, bno := fs.Alloc(s);
    if ok {
      fs.WriteAddresses(bno, addr, s[1..]);
    }
  }

  lemma NonZero(fs: Filsys, s: seq<int>)
    requires fs.Holding(s)
    ensures s != [] ==> s[0] != 0
  {
  }

  /** The direct addresses. */
  method PutDirect(ib: array<int>, n: nat, faddr: array<int>) returns (i: nat)
    requires ib.Length == NFB && n <= NFB && faddr.Length == NADDR && ib != faddr
    requires forall k :: 0 <= k < NADDR ==> faddr[k] == 0
    modifies ib, faddr
    ensures i == if n < NDIRECT then n else NDIRECT
    ensures DirectPart(faddr[..], Listed(old(ib[..]), n))
            && faddr[NDIRECT] == faddr[NDIRECT + 1] == faddr[NDIRECT + 2] == 0
    ensures forall k :: i <= k < NFB ==> ib[k] == old(ib[k])
  {
    i := 0;
    while i < n && i < NDIRECT
      invariant i <= n && i <= NDIRECT
      invariant forall k :: 0 <= k < NADDR ==> faddr[k] == if k < i then old(ib[k]) else 0
      invariant forall k :: i <= k < NFB ==> ib[k] == old(ib[k])
    {
      faddr[i] := ib[i];
      ib[i] := 0;
      i := i + 1;
    }
  }

  /** Blocks that the double-indirect part takes for the chunks from place i on. */
  function Chunks(n: nat, i: nat): nat
    decreases if i < n then n - i else 0
  {
    if i >= n then 0 else 1 + Chunks(n, i + NINDIR)
  }

  /** The number of indirect blocks a list of n addresses takes. */
  function Needed(n: nat): nat {
    (if NDIRECT < n then 1 else 0) + if NDIRECT + NINDIR < n then Chunks(n, NDIRECT + NINDIR) + 1 else 0
  }

  /** The first k chunks are on disk, in the blocks that were on top of the free list. */
  ghost predicate ChunksDone(disk: Disk, ib2: seq<int>, k: nat, blocks: seq<int>, n: nat, s: seq<int>) {
    && k <= |ib2| && k <= |s|
    && forall j :: 0 <= j < k ==> ib2[j] == s[j] && HoldsChunk(disk, ib2[j], Listed(blocks, n), ChunkStart(j))
  }

  lemma ChunkMore(disk: Disk, ib2: seq<int>, k: nat, blocks: seq<int>, n: nat, s: seq<int>)
    requires ChunksDone(disk, ib2, k, blocks, n, s) && k < |s| && k < |ib2| && Distinct(s)
    requires s[k] != 0 && ChunkStart(k) < n
    ensures ChunksDone(disk[s[k] := Indirect(Chunk(Listed(blocks, n), ChunkStart(k)))], ib2[k := s[k]], k + 1, blocks,
              n, s)
  {
    hide Chunk, Distinct;
    Apart(s);
  }

  lemma Apart(s: seq<int>)
    requires Distinct(s)
    ensures forall i, j :: 0 <= i < |s| && 0 <= j < |s| && i != j ==> s[i] != s[j]
  {
  }

  /** The chunks below a double-indirect block. */
  method PutChunks(fs: Filsys, ib: array<int>, n: nat, ib2: array<int>, ghost blocks: seq<int>, ghost s: seq<int>)
    returns (ok: bool, k: nat)
    requires fs.Holding(s) && Distinct(s)
    requires ib.Length == NFB == |blocks| && ib2.Length == NINDIR && ib != ib2 && ib != fs.free && ib2 != fs.free
    requires NDIRECT + NINDIR < n <= NFB
    requires forall k :: NINDIR <= k < NFB ==> ib[k] == blocks[k]
    modifies ib, ib2, fs`nfree, fs`tfree, fs`disk, fs.free
    ensures ok <==> |s| >= Chunks(n, NDIRECT + NINDIR)
    ensures ok ==> k == Chunks(n, NDIRECT + NINDIR) <= NINDIR && n <= ChunkStart(k) && fs.Holding(s[k..])
    ensures ok ==> ChunksDone(fs.disk, ib2[..], k, blocks, n, s)
    ensures forall b :: b in old(fs.disk) && b !in s ==> b in fs.disk && fs.disk[b] == old(fs.disk[b])
  {
    hide Linked, Distinct, ChunksDone, Chunk, ChunkStart;
    var i := NDIRECT + NINDIR;
    k, ok := 0, true;
    NoChunks(fs.disk, ib2[..], blocks, n, s);
    assert s[0..] == s;
    NextChunk(0);
    while k < NINDIR && i < n
      invariant ok && k <= NINDIR && i == if ChunkStart(k) <= n then ChunkStart(k) else n
      invariant k <= |s| && fs.Holding(s[k..])
      invariant Chunks(n, NDIRECT + NINDIR) == k + Chunks(n, ChunkStart(k))
      invariant forall j :: NINDIR <= j < NFB ==> ib[j] == blocks[j]
      invariant ChunksDone(fs.disk, ib2[..], k, blocks, n, s)
      invariant forall b :: b in old(fs.disk) && b !in s ==> b in fs.disk && fs.disk[b] == old(fs.disk[b])
    {
      NextChunk(k);
      i, ok := PutChunk(fs, ib, i, n, ib2, k, blocks, s);
      if !ok {
        return;
      }
      k := k + 1;
    }
    LongEnough(k);
  }

  lemma LongEnough(k: nat)
    ensures k >= NINDIR ==> ChunkStart(k) >= NFB
  {
    NextChunk(k);
    Limits();
    MulMono(NINDIR, 128, NINDIR);
  }

  lemma SameChunk(a: seq<int>, blocks: seq<int>, n: nat, i: nat)
    requires |a| == |blocks| && forall k :: i <= k < |a| ==> a[k] == blocks[k]
    ensures Chunk(Listed(a, n), i) == Chunk(Listed(blocks, n), i)
  {
  }

  lemma NoChunks(disk: Disk, ib2: seq<int>, blocks: seq<int>, n: nat, s: seq<int>)
    ensures ChunksDone(disk, ib2, 0, blocks, n, s)
  {
  }

  method PutChunk(fs: Filsys, ib: array<int>, i0: nat, n: nat, ib2: array<int>, k: nat, ghost blocks: seq<int>,
                  ghost s: seq<int>)
    returns (i: nat, ok: bool)
    requires k <= |s| && fs.Holding(s[k..]) && Distinct(s) && k < NINDIR
    requires ib.Length == NFB == |blocks| && ib2.Length == NINDIR && ib != ib2 && ib != fs.free && ib2 != fs.free
    requires NDIRECT + NINDIR < n <= NFB && i0 == ChunkStart(k) < n
    requires forall k :: NINDIR <= k < NFB ==> ib[k] == blocks[k]
    requires ChunksDone(fs.disk, ib2[..], k, blocks, n, s)
    modifies ib, ib2, fs`nfree, fs`tfree, fs`disk, fs.free
    ensures i == if ChunkStart(k + 1) <= n then ChunkStart(k + 1) else n
    ensures ok <==> k < |s|
    ensures forall k :: NINDIR <= k < NFB ==> ib[k] == blocks[k]
    ensures ok ==> fs.Holding(s[k + 1..]) && ChunksDone(fs.disk, ib2[..], k + 1, blocks, n, s)
    ensures forall b :: b in old(fs.disk) && b !in s ==> b in fs.disk && fs.disk[b] == old(fs.disk[b])
  {
    hide Linked, Distinct, ChunksDone, Chunk;
    ghost var rest := s[k..];
    assert s[..k] + rest == s;
    SuffixDistinct(s[..k], rest);
    SameChunk(ib[..], blocks, n, i0);
    i := FillBlock(ib, i0, n);
    var bno;
    NonZero(fs, rest);
    ok, bno := PutBlock(fs, ib[..NINDIR], rest);
    if ok {
      ChunkMore(old(fs.disk), ib2[..], k, blocks, n, s);
      ib2[k] := bno;
      assert rest[1..] == s[k + 1..];
    }
  }

  /** The rest of a double-indirect block. */
  method PadZeros(ib2: array<int>, k0: nat)
    requires k0 <= ib2.Length
    modifies ib2
    ensures forall j :: 0 <= j < ib2.Length ==> ib2[j] == if j < k0 then old(ib2[j]) else 0
  {
    var k := k0;
    while k < ib2.Length
      invariant k0 <= k <= ib2.Length
      invariant forall j :: 0 <= j < ib2.Length ==> ib2[j] == if k0 <= j < k then 0 else old(ib2[j])
    {
      ib2[k] := 0;
      k := k + 1;
    }
  }

  lemma SameChunks(disk: Disk, a: seq<int>, b: seq<int>, k: nat, blocks: seq<int>, n: nat, s: seq<int>)
    requires ChunksDone(disk, a, k, blocks, n, s) && |a| == |b| && forall j :: 0 <= j < k ==> a[j] == b[j]
    ensures ChunksDone(disk, b, k, blocks, n, s)
  {
  }

  /** A double-indirect block over chunks that are done. */
  lemma DoubleDone(disk: Disk, ib2: seq<int>, k: nat, blocks: seq<int>, n: nat, s: seq<int>)
    requires ChunksDone(disk, ib2, k, blocks, n, s) && |ib2| == NINDIR && k < |s| && Distinct(s)
    requires NDIRECT + NINDIR < n <= ChunkStart(k) && s[k] != 0
    requires forall j :: k <= j < NINDIR ==> ib2[j] == 0
    ensures DoublePart(disk[s[k] := Indirect(ib2)], s[k], Listed(blocks, n))
  {
    hide Chunk, Distinct;
    Apart(s);
  }

  /** The double-indirect part. */
  method PutDouble(fs: Filsys, ib: array<int>, n: nat, ghost blocks: seq<int>, ghost s: seq<int>)
    returns (ok: bool, bno: int)
    requires fs.Holding(s) && Distinct(s) && NDIRECT + NINDIR < n <= NFB
    requires ib.Length == NFB == |blocks| && ib != fs.free
    requires forall k :: NINDIR <= k < NFB ==> ib[k] == blocks[k]
    modifies ib, fs`nfree, fs`tfree, fs`disk, fs.free
    ensures
      var m := Chunks(n, NDIRECT + NINDIR) + 1;
      && (ok <==> |s| >= m)
      && (ok ==> fs.Holding(s[m..]) && DoublePart(fs.disk, bno, Listed(blocks, n)))
    ensures forall b :: b in old(fs.disk) && b !in s ==> b in fs.disk && fs.disk[b] == old(fs.disk[b])
  {
    hide Linked, Distinct, ChunksDone, Chunk, Chunks, DoublePart;
    bno := 0;
    var ib2 := new int[NINDIR](_ => 0);
    var k;
    ok, k := PutChunks(fs, ib, n, ib2, blocks, s);
    if ok {
      ghost var disk, was, rest := fs.disk, ib2[..], s[k..];
      PadZeros(ib2, k);
      SameChunks(disk, was, ib2[..], k, blocks, n, s);
      assert s[..k] + rest == s;
      SuffixDistinct(s[..k], rest);
      NonZero(fs, rest);
      ok, bno := PutBlock(fs, ib2[..], rest);
      if ok {
        DoubleDone(disk, ib2[..], k, blocks, n, s);
        assert rest[1..] == s[k + 1..];
      }
    }
  }

  /** The single-indirect part. */
  method PutSingle(fs: Filsys, ib: array<int>, n: nat, ghost blocks: seq<int>, ghost s: seq<int>)
    returns (ok: bool, i: nat, bno: int)
    requires fs.Holding(s) && Distinct(s) && NDIRECT < n <= NFB
    requires ib.Length == NFB == |blocks| && ib != fs.free
    requires forall k :: NDIRECT <= k < NFB ==> ib[k] == blocks[k]
    modifies ib, fs`nfree, fs`tfree, fs`disk, fs.free
    ensures i == if NDIRECT + NINDIR <= n then NDIRECT + NINDIR else n
    ensures ok <==> s != []
    ensures ok ==> bno == s[0] && bno in fs.disk && fs.Holding(s[1..])
    ensures ok ==> HoldsChunk(fs.disk, bno, Listed(blocks, n), NDIRECT)
    ensures forall k :: NINDIR <= k < NFB ==> ib[k] == blocks[k]
    ensures forall b :: b in old(fs.disk) && b !in s ==> b in fs.disk && fs.disk[b] == old(fs.disk[b])
  {
    hide Linked, Distinct, Chunk;
    SameChunk(ib[..], blocks, n, NDIRECT);
    i := FillBlock(ib, NDIRECT, n);
    NonZero(fs, s);
    ok, bno := PutBlock(fs, ib[..NINDIR], s);
  }

  lemma RestDistinct(s: seq<int>)
    requires Distinct(s) && s != []
    ensures Distinct(s[1..]) && s[0] !in s[1..]
  {
    assert s == [s[0]] + s[1..];
    SuffixDistinct([s[0]], s[1..]);
  }

  lemma NoChunk(disk: Disk, blocks: seq<int>, n: nat, i: nat)
    requires n <= i
    ensures HoldsChunk(disk, 0, Listed(blocks, n), i)
  {
  }

  lemma NoDouble(disk: Disk, blocks: seq<int>, n: nat)
    requires n <= NDIRECT + NINDIR
    ensures DoublePart(disk, 0, Listed(blocks, n))
  {
  }

  lemma KeepChunk(disk: Disk, disk': Disk, b: int, blocks: seq<int>, n: nat, i: nat)
    requires HoldsChunk(disk, b, Listed(blocks, n), i) && (b in disk ==> b in disk' && disk'[b] == disk[b])
    ensures HoldsChunk(disk', b, Listed(blocks, n), i)
  {
  }

  /** The address tree of a file of n blocks; without free blocks left the program gives up. */
  method IPut(fs: Filsys, ib: array<int>, n: nat, faddr: array<int>, ghost s: seq<int>) returns (ok: bool)
    requires fs.Holding(s) && Distinct(s) && n <= NFB
    requires ib.Length == NFB && faddr.Length == NADDR && ib != fs.free && faddr != fs.free && ib != faddr
    requires forall k :: 0 <= k < NADDR ==> faddr[k] == 0
    modifies ib, faddr, fs`nfree, fs`tfree, fs`disk, fs.free
    ensures ok <==> |s| >= Needed(n)
    ensures ok ==> fs.Holding(s[Needed(n)..]) && TreeOf(faddr[..], fs.disk, Listed(old(ib[..]), n))
    ensures forall b :: b in old(fs.disk) && b !in s ==> b in fs.disk && fs.disk[b] == old(fs.disk[b])
  {
    hide Linked, Distinct, Chunk, Chunks, DoublePart, HoldsChunk;
    ghost var blocks := ib[..];
    ok := true;
    var i := PutDirect(ib, n, faddr);
    ghost var direct := faddr[..];
    if i < n {
      var bno;
      ok, i, bno := PutSingle(fs, ib, n, blocks, s);
      if !ok {
        return;
      }
      faddr[NDIRECT] := bno;
    } else {
      NoChunk(fs.disk, blocks, n, NDIRECT);
    }
    if i < n {
      var bno;
      ghost var disk := fs.disk;
      RestDistinct(s);
      ok, bno := PutDouble(fs, ib, n, blocks, s[1..]);
      if !ok {
        return;
      }
      KeepChunk(disk, fs.disk, faddr[NDIRECT], blocks, n, NDIRECT);
      faddr[NDIRECT + 1] := bno;
    } else {
      NoDouble(fs.disk, blocks, n);
    }
    assert DirectPart(faddr[..], Listed(blocks, n));
  }
}
