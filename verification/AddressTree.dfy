/** How bmap of dcopy.c reads the address of a logical block through the inode and indirect blocks. */
module AddressTree {
  import opened FreeChain
  import opened Sums

  const NADDR: nat := 13      // addresses in an inode: 10 direct, then single, double, triple indirect
  const NDIRECT: nat := 10
  const NONE: int := -1

  /** How many addresses a block holds: 128 if it has 512 bytes, 256 if it has 1024. */
  type Fanout = n: nat | 128 <= n witness 128

  /** It depends on the file system, and nothing here depends on which it is. */
  const NINDIR: Fanout

  /** How many places lev indirections reach. */
  function Span(lev: nat): (r: nat)
    ensures r >= 1
  {
    if lev == 0 then 1 else NINDIR * Span(lev - 1)
  }

  /** The entry of an indirect block that leads to block bn, lev indirections from the data. */
  function Index(bn: nat, lev: nat): (r: nat)
    requires lev >= 1
    ensures r < NINDIR
  {
    bn / Span(lev - 1) % NINDIR
  }

  /** An address in an indirect block on disk. */
  function Entry(disk: Disk, b: int, i: nat): int {
    if b in disk && disk[b].Indirect? && i < |disk[b].addr| then disk[b].addr[i] else 0
  }

  /** Following lev indirections from address b. */
  function Walk(disk: Disk, b: int, lev: nat, bn: nat): int
    decreases lev
  {
    if b == 0 then NONE
    else if lev == 0 then b
    else Walk(disk, Entry(disk, b, Index(bn, lev)), lev - 1, bn)
  }

  /** The first logical block reached by that many indirections. */
  function First(lev: nat): (r: nat)
    ensures lev >= 1 ==> r >= NDIRECT
  {
    if lev == 0 then 0 else if lev == 1 then NDIRECT else First(lev - 1) + Span(lev - 1)
  }

  /** How many indirections lead to logical block k; 4 if it is out of reach. */
  function Levels(k: nat): (r: nat)
    ensures r <= 4 && First(r) <= k && (r < 4 ==> k < First(r + 1))
  {
    if k < First(1) then 0 else if k < First(2) then 1 else if k < First(3) then 2 else if k < First(4) then 3 else 4
  }

  /** bmap(k, B_READ): NONE for a hole or beyond the largest file. */
  function ReadAddress(addr: seq<int>, disk: Disk, k: nat): int
    requires |addr| == NADDR
  {
    var lev := Levels(k);
    if lev == 4 then NONE
    else Walk(disk, addr[if lev == 0 then k else NDIRECT + lev - 1], lev, k - First(lev))
  }

  // ----- what a tree holds

  /** The address of each logical block; 0 for a hole. */
  type Places = nat -> int

  /** The addresses of a block's worth of places from i on. */
  function Chunk(at: Places, i: nat): (r: seq<int>)
    ensures |r| == NINDIR && forall j :: 0 <= j < NINDIR ==> r[j] == at(i + j)
  {
    seq(NINDIR, j requires 0 <= j < NINDIR => at(i + j))
  }

  /** The place where chunk k below the double-indirect block begins. */
  function ChunkStart(k: nat): (r: nat)
    ensures r >= NDIRECT + NINDIR
  {
    NDIRECT + NINDIR + k * NINDIR
  }

  lemma NextChunk(k: nat)
    ensures ChunkStart(0) == NDIRECT + NINDIR && ChunkStart(k + 1) == ChunkStart(k) + NINDIR
    ensures k >= NINDIR ==> ChunkStart(k) >= LIMIT
  {
    Distribute(NINDIR, k, 1);
    if k >= NINDIR {
      MulMono(NINDIR, NINDIR, k);
    }
  }

  ghost predicate DirectPart(addr: seq<int>, at: Places) {
    |addr| == NADDR && forall k :: 0 <= k < NDIRECT ==> addr[k] == at(k)
  }

  /** Nothing in the chunk from place i on. */
  ghost predicate Empty(at: Places, i: nat) {
    forall j: nat :: i <= j < i + NINDIR ==> at(j) == 0
  }

  /** b is an indirect block with the addresses from place i on, or there is none because there are none. */
  ghost predicate HoldsChunk(disk: Disk, b: int, at: Places, i: nat) {
    if b == 0 then Empty(at, i) else b in disk && disk[b] == Indirect(Chunk(at, i))
  }

  ghost predicate DoublePart(disk: Disk, b: int, at: Places) {
    if b == 0 then forall k :: 0 <= k < NINDIR ==> Empty(at, ChunkStart(k))
    else
      && b in disk && disk[b].Indirect? && |disk[b].addr| == NINDIR
      && forall k :: 0 <= k < NINDIR ==> HoldsChunk(disk, disk[b].addr[k], at, ChunkStart(k))
  }

  /** The tree without a triple-indirect part that holds at. */
  ghost predicate TreeOf(addr: seq<int>, disk: Disk, at: Places) {
    && DirectPart(addr, at)
    && HoldsChunk(disk, addr[NDIRECT], at, NDIRECT)
    && DoublePart(disk, addr[NDIRECT + 1], at)
    && addr[NDIRECT + 2] == 0
  }

  /** The first place that only the triple-indirect part reaches. */
  const LIMIT: nat := NDIRECT + NINDIR + NINDIR * NINDIR

  lemma Limits()
    ensures NINDIR >= 128
    ensures Span(1) == NINDIR && Span(2) == NINDIR * NINDIR
    ensures First(0) == 0 && First(1) == NDIRECT && First(2) == NDIRECT + NINDIR && First(3) == LIMIT
            && First(4) == LIMIT + Span(3)
  {
    assert Span(1) == NINDIR * Span(0);
  }

  /** The range a place is in. */
  lemma Ranges(k: nat)
    ensures
      match Levels(k)
      case 0 => k < NDIRECT && First(0) == 0
      case 1 => NDIRECT <= k < NDIRECT + NINDIR && First(1) == NDIRECT
      case 2 => NDIRECT + NINDIR <= k < LIMIT && First(2) == NDIRECT + NINDIR
      case _ => k >= LIMIT
  {
    Limits();
  }

  lemma WalkEnds(disk: Disk, b: int, lev: nat, bn: nat)
    ensures b == 0 || lev == 0 ==> Walk(disk, b, lev, bn) == if b == 0 then NONE else b
  {
  }

  lemma Divided(bn: nat)
    ensures bn == NINDIR * (bn / NINDIR) + bn % NINDIR
  {
  }

  /** The entries on the way through two indirect blocks. */
  lemma TwoIndices(bn: nat)
    ensures Index(bn, 1) == bn % NINDIR
    ensures bn < Span(2) ==> Index(bn, 2) == bn / NINDIR && bn == NINDIR * Index(bn, 2) + Index(bn, 1)
  {
    Limits();
    Divided(bn);
    if bn < Span(2) {
      if bn / NINDIR >= NINDIR {
        MulMono(NINDIR, NINDIR, bn / NINDIR);
        assert false;
      }
      DivUnique(bn / NINDIR, NINDIR, 0, bn / NINDIR);
    }
  }

  /** Reading the tree gives back what it holds, in every place. */
  lemma TreeReads(addr: seq<int>, disk: Disk, at: Places, k: nat)
    requires TreeOf(addr, disk, at) && (k >= LIMIT ==> at(k) == 0)
    ensures ReadAddress(addr, disk, k) == if at(k) == 0 then NONE else at(k)
  {
    hide HoldsChunk, DoublePart, Levels, First, Walk;
    Ranges(k);
    var lev := Levels(k);
    WalkEnds(disk, addr[if lev == 0 then k else if lev < 4 then NDIRECT + lev - 1 else 0], lev, k - First(lev));
    if lev == 1 {
      ReadChunk(disk, addr[NDIRECT], at, NDIRECT, k - NDIRECT);
    } else if lev == 2 {
      ReadDouble(disk, addr[NDIRECT + 1], at, k);
    }
  }

  lemma ReadChunk(disk: Disk, b: int, at: Places, i: nat, r: nat)
    requires HoldsChunk(disk, b, at, i)
    ensures
      var j := r % NINDIR;
      Walk(disk, b, 1, r) == if at(i + j) == 0 then NONE else at(i + j)
  {
    TwoIndices(r);
    assert b == 0 ==> at(i + r % NINDIR) == 0;
  }

  lemma ReadDouble(disk: Disk, b: int, at: Places, k: nat)
    requires DoublePart(disk, b, at) && NDIRECT + NINDIR <= k < LIMIT
    ensures Walk(disk, b, 2, k - NDIRECT - NINDIR) == if at(k) == 0 then NONE else at(k)
  {
    hide HoldsChunk;
    var bn := k - NDIRECT - NINDIR;
    var q := Index(bn, 2);
    Limits();
    TwoIndices(bn);
    if b == 0 {
      assert Empty(at, ChunkStart(q));
    } else {
      assert HoldsChunk(disk, disk[b].addr[q], at, ChunkStart(q));
      ReadChunk(disk, disk[b].addr[q], at, ChunkStart(q), bn);
    }
  }
}
