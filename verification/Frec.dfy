/** frec.c: files are recovered from a tape by draining a sorted list of blocks, which grows meanwhile. */
module Frec {
  import opened FreeChain
  import opened AddressTree
  import opened Sums

  /** Bytes in a block; an address takes four. */
  const BSIZE: nat := 4 * NINDIR

  datatype Kind = DATA | SINGLE | DOUBLE

  /** struct Bdata */
  datatype Node = Node(kind: Kind, blkno: int, bindex: nat, count: nat, file: nat)

  /** What is kept of a request: the last logical block and the bytes in it. */
  datatype Request = Request(lastblk: int, residual: nat)

  /** count bytes of block blkno are written to a file at logical block bindex. */
  datatype WriteOp = WriteOp(file: nat, bindex: nat, count: nat, blkno: int)

  // ----- what a node stands for

  /** The node for entry i of an indirect block. */
  function Child(n: Node, a: int, i: nat, r: Request): Node {
    if n.kind == SINGLE then
      Node(DATA, a, n.bindex + i, if n.bindex + i == r.lastblk then r.residual else BSIZE, n.file)
    else Node(SINGLE, a, n.bindex + i * NINDIR, BSIZE, n.file)
  }

  /** The nodes for the entries from i on; those of a single-indirect block end with the last block of the file. */
  function Children(n: Node, buf: seq<int>, i: nat, r: Request): seq<Node>
    requires |buf| == NINDIR && i <= NINDIR
    decreases NINDIR - i
  {
    if i == NINDIR then []
    else if buf[i] == 0 then Children(n, buf, i + 1, r)
    else if n.kind == SINGLE && n.bindex + i == r.lastblk then [Child(n, buf[i], i, r)]
    else [Child(n, buf[i], i, r)] + Children(n, buf, i + 1, r)
  }

  /** The addresses in a block on the tape. */
  function Addresses(tape: Disk, b: int): (r: seq<int>)
    ensures |r| == NINDIR && forall i :: 0 <= i < NINDIR ==> r[i] == Entry(tape, b, i)
  {
    seq(NINDIR, i requires 0 <= i < NINDIR => Entry(tape, b, i))
  }

  function Rank(k: Kind): nat {
    match k case DATA => 0 case SINGLE => 1 case DOUBLE => 2
  }

  lemma {:induction false} ChildrenRank(n: Node, buf: seq<int>, i: nat, r: Request)
    requires |buf| == NINDIR && i <= NINDIR && n.kind != DATA
    ensures forall c :: c in Children(n, buf, i, r) ==> Rank(c.kind) == Rank(n.kind) - 1
    decreases NINDIR - i
  {
    if i < NINDIR {
      ChildrenRank(n, buf, i + 1, r);
    }
  }

  /** A node, if it is on the tape, and all the nodes it leads to. */
  ghost function Yield(n: Node, tape: Disk, rs: seq<Request>): multiset<Node>
    decreases Rank(n.kind), 1, 0
  {
    if n.blkno !in tape || n.file >= |rs| then multiset{}
    else if n.kind == DATA then multiset{n}
    else
      var below := Children(n, Addresses(tape, n.blkno), 0, rs[n.file]);
      ChildrenRank(n, Addresses(tape, n.blkno), 0, rs[n.file]);
      multiset{n} + YieldBelow(below, tape, rs, Rank(n.kind))
  }

  /** The same for a list of nodes of lower rank. */
  ghost function YieldBelow(s: seq<Node>, tape: Disk, rs: seq<Request>, rank: nat): multiset<Node>
    requires forall c :: c in s ==> Rank(c.kind) < rank
    decreases rank, 0, |s|
  {
    if |s| == 0 then multiset{} else YieldBelow(s[..|s| - 1], tape, rs, rank) + Yield(s[|s| - 1], tape, rs)
  }

  /** The same for a whole list. */
  ghost function YieldAll(s: seq<Node>, tape: Disk, rs: seq<Request>): multiset<Node> {
    if |s| == 0 then multiset{} else YieldAll(s[..|s| - 1], tape, rs) + Yield(s[|s| - 1], tape, rs)
  }

  lemma {:induction false} YieldBelowAll(s: seq<Node>, tape: Disk, rs: seq<Request>, rank: nat)
    requires forall c :: c in s ==> Rank(c.kind) < rank
    ensures YieldBelow(s, tape, rs, rank) == YieldAll(s, tape, rs)
  {
    if |s| > 0 {
      YieldBelowAll(s[..|s| - 1], tape, rs, rank);
    }
  }

  lemma {:induction false} YieldConcat(a: seq<Node>, b: seq<Node>, tape: Disk, rs: seq<Request>)
    ensures YieldAll(a + b, tape, rs) == YieldAll(a, tape, rs) + YieldAll(b, tape, rs)
  {
    hide Yield;
    if |b| > 0 {
      var n := |b| - 1;
      YieldConcat(a, b[..n], tape, rs);
      assert (a + b)[..|a| + n] == a + b[..n];
    } else {
      assert a + b == a;
    }
  }

  lemma YieldOne(n: Node, tape: Disk, rs: seq<Request>)
    ensures YieldAll([n], tape, rs) == Yield(n, tape, rs)
  {
    hide Yield;
    assert [n][..0] == [];
  }

  /** Where a node stands in the list does not matter. */
  lemma YieldInsert(s: seq<Node>, p: nat, n: Node, tape: Disk, rs: seq<Request>)
    requires p <= |s|
    ensures YieldAll(s[..p] + [n] + s[p..], tape, rs) == YieldAll(s, tape, rs) + Yield(n, tape, rs)
  {
    hide Yield, YieldAll;
    YieldConcat(s[..p] + [n], s[p..], tape, rs);
    YieldConcat(s[..p], [n], tape, rs);
    YieldOne(n, tape, rs);
    assert s == s[..p] + s[p..];
    YieldConcat(s[..p], s[p..], tape, rs);
  }

  lemma YieldDelete(s: seq<Node>, p: nat, tape: Disk, rs: seq<Request>)
    requires p < |s|
    ensures YieldAll(s, tape, rs) == YieldAll(s[..p] + s[p + 1..], tape, rs) + Yield(s[p], tape, rs)
  {
    hide Yield, YieldAll;
    var t := s[..p] + s[p + 1..];
    assert t[..p] == s[..p] && t[p..] == s[p + 1..];
    assert s == t[..p] + [s[p]] + t[p..];
    YieldInsert(t, p, s[p], tape, rs);
  }

  // ----- how much work is left

  function Weight(n: Node): nat {
    match n.kind case DATA => 1 case SINGLE => 1 + NINDIR case DOUBLE => 1 + NINDIR * (1 + NINDIR)
  }

  function Work(s: seq<Node>): nat {
    if |s| == 0 then 0 else Work(s[..|s| - 1]) + Weight(s[|s| - 1])
  }

  lemma {:induction false} WorkConcat(a: seq<Node>, b: seq<Node>)
    ensures Work(a + b) == Work(a) + Work(b)
  {
    if |b| > 0 {
      var n := |b| - 1;
      WorkConcat(a, b[..n]);
      assert (a + b)[..|a| + n] == a + b[..n];
    } else {
      assert a + b == a;
    }
  }

  lemma WorkOne(n: Node)
    ensures Work([n]) == Weight(n)
  {
    assert [n][..0] == [];
  }

  lemma WorkInsert(s: seq<Node>, p: nat, n: Node)
    requires p <= |s|
    ensures Work(s[..p] + [n] + s[p..]) == Work(s) + Weight(n)
  {
    hide Work, Weight;
    WorkConcat(s[..p] + [n], s[p..]);
    WorkConcat(s[..p], [n]);
    WorkOne(n);
    assert s == s[..p] + s[p..];
    WorkConcat(s[..p], s[p..]);
  }

  lemma WorkDelete(s: seq<Node>, p: nat)
    requires p < |s|
    ensures Work(s) == Work(s[..p] + s[p + 1..]) + Weight(s[p])
  {
    hide Work, Weight;
    var t := s[..p] + s[p + 1..];
    assert t[..p] == s[..p] && t[p..] == s[p + 1..];
    assert s == t[..p] + [s[p]] + t[p..];
    WorkInsert(t, p, s[p]);
  }

  /** A node that leads on stands for itself and the nodes below it. */
  lemma YieldChildren(n: Node, tape: Disk, rs: seq<Request>)
    requires n.blkno in tape && n.file < |rs| && n.kind != DATA
    ensures Yield(n, tape, rs) == multiset{n} + YieldAll(Children(n, Addresses(tape, n.blkno), 0, rs[n.file]), tape, rs)
  {
    var below := Children(n, Addresses(tape, n.blkno), 0, rs[n.file]);
    ChildrenRank(n, Addresses(tape, n.blkno), 0, rs[n.file]);
    YieldBelowAll(below, tape, rs, Rank(n.kind));
  }

  /** The work for one child of a node. */
  function ChildWeight(n: Node): nat {
    if n.kind == SINGLE then 1 else 1 + NINDIR
  }

  lemma {:induction false} ChildrenWork(n: Node, buf: seq<int>, i: nat, r: Request)
    requires |buf| == NINDIR && i <= NINDIR && n.kind != DATA
    ensures Work(Children(n, buf, i, r)) <= ChildWeight(n) * (NINDIR - i)
    decreases NINDIR - i
  {
    hide Work, Weight, Child, ChildWeight;
    var w := ChildWeight(n);
    if i == NINDIR {
      NoWork();
    } else {
      ChildrenWork(n, buf, i + 1, r);
      Distribute(w, NINDIR - i - 1, 1);
      if buf[i] != 0 {
        ChildWork(n, buf[i], i, r);
        WorkConcat([Child(n, buf[i], i, r)], Children(n, buf, i + 1, r));
      }
    }
  }

  lemma NoWork()
    ensures Work([]) == 0
  {
  }

  lemma ChildWork(n: Node, a: int, i: nat, r: Request)
    requires n.kind != DATA
    ensures Work([Child(n, a, i, r)]) == ChildWeight(n)
  {
    WorkOne(Child(n, a, i, r));
  }

  // ----- the list

  ghost predicate Ascending(s: seq<Node>) {
    forall i, j :: 0 <= i < j < |s| ==> s[i].blkno <= s[j].blkno
  }

  /** What has been written for the nodes visited. */
  function Writes(visited: seq<Node>): seq<WriteOp> {
    if |visited| == 0 then []
    else
      var n := visited[|visited| - 1];
      Writes(visited[..|visited| - 1]) + if n.kind == DATA then [WriteOp(n.file, n.bindex, n.count, n.blkno)] else []
  }

  /** No two nodes are for the same block. */
  ghost predicate DifferentBlocks(m: multiset<Node>) {
    && (forall n :: n in m ==> m[n] == 1)
    && forall a, b :: a in m && b in m && a != b ==> a.blkno != b.blkno
  }

  // ----- the nodes of a file

  function LastBlock(size: nat): int {
    (size + BSIZE - 1) / BSIZE - 1
  }

  function Residual(size: nat): nat {
    if size % BSIZE == 0 then BSIZE else size % BSIZE
  }

  function RequestOf(size: nat): Request {
    Request(LastBlock(size), Residual(size))
  }

  /** The bytes of a file of that size in logical block k. */
  function CountOf(size: nat, k: nat): nat {
    if k == LastBlock(size) then Residual(size) else BSIZE
  }

  /** The nodes for the direct addresses from i on, when size bytes are still to be accounted for. */
  function Direct(l: seq<int>, i: nat, size: nat, file: nat): seq<Node>
    requires |l| == NADDR && i <= NDIRECT
    decreases NDIRECT - i
  {
    if i == NDIRECT || size == 0 then []
    else if l[i] == 0 then Direct(l, i + 1, size, file)
    else if size > BSIZE then [Node(DATA, l[i], i, BSIZE, file)] + Direct(l, i + 1, size - BSIZE, file)
    else [Node(DATA, l[i], i, size, file)] + Direct(l, i + 1, size, file)
  }

  function IndirectNodes(l: seq<int>, file: nat): seq<Node>
    requires |l| == NADDR
  {
    (if l[NDIRECT] != 0 then [Node(SINGLE, l[NDIRECT], NDIRECT, BSIZE, file)] else [])
    + if l[NDIRECT + 1] != 0 then [Node(DOUBLE, l[NDIRECT + 1], NDIRECT + NINDIR, BSIZE, file)] else []
  }

  /** What saveblks puts on the list. */
  function Nodes(l: seq<int>, size: nat, file: nat): seq<Node>
    requires |l| == NADDR
  {
    Direct(l, 0, size, file) + IndirectNodes(l, file)
  }

  /** d writes the right number of bytes of a block on the tape to the right place. */
  ghost predicate Right(d: Node, file: nat, size: nat, tape: Disk) {
    d.kind == DATA && d.blkno > 0 && d.blkno in tape && d.file == file && d.count == CountOf(size, d.bindex)
  }

  /** d is what entry d.bindex - start of block b leads to. */
  ghost predicate InChunk(d: Node, b: int, start: nat, file: nat, size: nat, tape: Disk) {
    start <= d.bindex < start + NINDIR && d.blkno == Entry(tape, b, d.bindex - start) && Right(d, file, size, tape)
  }

  /** A block of addresses has none beyond the end of the file. */
  ghost predicate Ends(b: int, start: nat, size: nat, tape: Disk) {
    forall j :: 0 <= j < NINDIR ==> Entry(tape, b, j) >= 0 && (start + j > LastBlock(size) ==> Entry(tape, b, j) == 0)
  }

  lemma {:induction false} ChildrenYield(n: Node, i: nat, d: Node, size: nat, tape: Disk, rs: seq<Request>)
    requires n.kind == SINGLE && i <= NINDIR && d.kind == DATA && n.file < |rs| && rs[n.file] == RequestOf(size)
    requires Ends(n.blkno, n.bindex, size, tape)
    ensures YieldAll(Children(n, Addresses(tape, n.blkno), i, rs[n.file]), tape, rs)[d]
         == if InChunk(d, n.blkno, n.bindex, n.file, size, tape) && d.bindex >= n.bindex + i then 1 else 0
    decreases NINDIR - i
  {
    hide YieldAll, LastBlock, Residual;
    var buf, r := Addresses(tape, n.blkno), rs[n.file];
    if i == NINDIR {
      NothingYields(tape, rs);
    } else {
      ChildrenYield(n, i + 1, d, size, tape, rs);
      if buf[i] != 0 {
        var c := Child(n, buf[i], i, r);
        YieldOne(c, tape, rs);
        YieldConcat([c], Children(n, buf, i + 1, r), tape, rs);
      }
    }
  }

  lemma NothingYields(tape: Disk, rs: seq<Request>)
    ensures YieldAll([], tape, rs) == multiset{}
  {
  }

  /** What is visited for a single-indirect block. */
  lemma SingleYield(n: Node, d: Node, size: nat, tape: Disk, rs: seq<Request>)
    requires n.kind == SINGLE && d.kind == DATA && n.file < |rs| && rs[n.file] == RequestOf(size)
    requires Ends(n.blkno, n.bindex, size, tape)
    ensures Yield(n, tape, rs)[d] == if InChunk(d, n.blkno, n.bindex, n.file, size, tape) then 1 else 0
  {
    hide YieldAll;
    if n.blkno in tape {
      YieldChildren(n, tape, rs);
      ChildrenYield(n, 0, d, size, tape, rs);
    }
  }

  /** d is what the double-indirect block b leads to, through the single-indirect block for its place. */
  ghost predicate InDouble(d: Node, b: int, start: nat, file: nat, size: nat, tape: Disk) {
    && start <= d.bindex < start + NINDIR * NINDIR
    && var q := (d.bindex - start) / NINDIR;
       Entry(tape, b, q) != 0 && InChunk(d, Entry(tape, b, q), start + q * NINDIR, file, size, tape)
  }

  ghost predicate AllEnd(b: int, start: nat, size: nat, tape: Disk) {
    forall q :: 0 <= q < NINDIR && Entry(tape, b, q) != 0 ==> Ends(Entry(tape, b, q), start + q * NINDIR, size, tape)
  }

  /** Which block of addresses a place is in. */
  lemma WhichBlock(x: nat, i: nat)
    ensures x / NINDIR == i <==> i * NINDIR <= x < i * NINDIR + NINDIR
    ensures x / NINDIR >= i <==> x >= i * NINDIR
    ensures x / NINDIR < NINDIR <==> x < NINDIR * NINDIR
  {
    var q := x / NINDIR;
    Divided(x);
    AtLeast(x, i);
    AtLeast(x, NINDIR);
    AtLeast(x, i + 1);
    Distribute(NINDIR, i, 1);
  }

  lemma AtLeast(x: nat, i: nat)
    ensures x / NINDIR >= i <==> x >= i * NINDIR
  {
    var q := x / NINDIR;
    Divided(x);
    if q >= i {
      MulMono(NINDIR, i, q);
    } else {
      MulMono(NINDIR, q + 1, i);
      Distribute(NINDIR, q, 1);
    }
  }

  lemma {:induction false} GrandchildrenYield(n: Node, i: nat, d: Node, size: nat, tape: Disk, rs: seq<Request>)
    requires n.kind == DOUBLE && i <= NINDIR && d.kind == DATA && n.file < |rs| && rs[n.file] == RequestOf(size)
    requires AllEnd(n.blkno, n.bindex, size, tape)
    ensures YieldAll(Children(n, Addresses(tape, n.blkno), i, rs[n.file]), tape, rs)[d]
         == if InDouble(d, n.blkno, n.bindex, n.file, size, tape) && d.bindex >= n.bindex + i * NINDIR then 1 else 0
    decreases NINDIR - i
  {
    hide YieldAll, Yield, LastBlock, Residual, Right, Ends, Entry, AllEnd, InDouble;
    var buf, r := Addresses(tape, n.blkno), rs[n.file];
    if i == NINDIR {
      NothingYields(tape, rs);
      PastDouble(n, d, size, tape);
    } else {
      GrandchildrenYield(n, i + 1, d, size, tape, rs);
      InOneBlock(n, i, d, size, tape);
      if buf[i] != 0 {
        var c := Child(n, buf[i], i, r);
        GrandchildYield(n, i, d, size, tape, rs);
        YieldConcat([c], Children(n, buf, i + 1, r), tape, rs);
      }
    }
  }

  lemma PastDouble(n: Node, d: Node, size: nat, tape: Disk)
    ensures InDouble(d, n.blkno, n.bindex, n.file, size, tape) ==> d.bindex < n.bindex + NINDIR * NINDIR
  {
  }

  /** A place from block i on is in block i or from block i + 1 on. */
  lemma InOneBlock(n: Node, i: nat, d: Node, size: nat, tape: Disk)
    requires i < NINDIR
    ensures
      var here := Entry(tape, n.blkno, i) != 0
                  && InChunk(d, Entry(tape, n.blkno, i), n.bindex + i * NINDIR, n.file, size, tape);
      var all := InDouble(d, n.blkno, n.bindex, n.file, size, tape);
      && (all && d.bindex >= n.bindex + i * NINDIR <==> here || (all && d.bindex >= n.bindex + (i + 1) * NINDIR))
      && (here ==> d.bindex < n.bindex + (i + 1) * NINDIR)
  {
    hide Entry, Right;
    Distribute(NINDIR, i, 1);
    if d.bindex >= n.bindex {
      WhichBlock(d.bindex - n.bindex, i);
    }
  }

  lemma GrandchildYield(n: Node, i: nat, d: Node, size: nat, tape: Disk, rs: seq<Request>)
    requires n.kind == DOUBLE && i < NINDIR && d.kind == DATA && n.file < |rs| && rs[n.file] == RequestOf(size)
    requires AllEnd(n.blkno, n.bindex, size, tape) && Entry(tape, n.blkno, i) != 0
    ensures YieldAll([Child(n, Entry(tape, n.blkno, i), i, rs[n.file])], tape, rs)[d]
         == if InChunk(d, Entry(tape, n.blkno, i), n.bindex + i * NINDIR, n.file, size, tape) then 1 else 0
  {
    hide YieldAll, Yield, LastBlock, Residual, InChunk, Ends, Entry;
    var c := Child(n, Entry(tape, n.blkno, i), i, rs[n.file]);
    SingleYield(c, d, size, tape, rs);
    YieldOne(c, tape, rs);
  }

  /** What is visited for a double-indirect block. */
  lemma DoubleYield(n: Node, d: Node, size: nat, tape: Disk, rs: seq<Request>)
    requires n.kind == DOUBLE && d.kind == DATA && n.file < |rs| && rs[n.file] == RequestOf(size)
    requires AllEnd(n.blkno, n.bindex, size, tape)
    ensures Yield(n, tape, rs)[d] == if InDouble(d, n.blkno, n.bindex, n.file, size, tape) then 1 else 0
  {
    hide YieldAll, InChunk;
    if n.blkno in tape {
      YieldChildren(n, tape, rs);
      GrandchildrenYield(n, 0, d, size, tape, rs);
    }
  }

  /**
   The files whose last block gets the wrong number of bytes: it is a direct
   block and not full, and a direct block before it is missing.
   */
  ghost predicate ShortAfterHole(l: seq<int>, size: nat)
    requires |l| == NADDR
  {
    var last := LastBlock(size);
    0 <= last < NDIRECT && l[last] != 0 && size % BSIZE != 0 && exists j :: 0 <= j < last && l[j] == 0
  }

  /** Such a block is on the tape. */
  ghost predicate Miscounted(l: seq<int>, size: nat, tape: Disk)
    requires |l| == NADDR
  {
    ShortAfterHole(l, size) && l[LastBlock(size)] in tape
  }

  /** The bytes from block i on. */
  function Rest(size: nat, i: nat): int {
    size - i * BSIZE
  }

  lemma LastIs(size: nat, i: nat)
    ensures Rest(size, 0) == size && Rest(size, i + 1) == Rest(size, i) - BSIZE
    ensures i < LastBlock(size) ==> Rest(size, i) > BSIZE
    ensures i == LastBlock(size) ==> 0 < Rest(size, i) == Residual(size) <= BSIZE
    ensures LastBlock(size) >= -1 && (size == 0 <==> LastBlock(size) == -1)
  {
    hide LastBlock;
    Distribute(BSIZE, i, 1);
    LastTimes(size);
    if i < LastBlock(size) {
      MulMono(BSIZE, i + 1, LastBlock(size));
    }
  }

  lemma LastTimes(size: nat)
    ensures LastBlock(size) >= -1 && (size == 0 <==> LastBlock(size) == -1)
    ensures size == BSIZE * LastBlock(size) + Residual(size) && 0 < Residual(size) <= BSIZE
  {
    var q, r := size / BSIZE, size % BSIZE;
    Quotient(size, BSIZE);
    if r == 0 {
      DivUnique(size + BSIZE - 1, BSIZE, q, BSIZE - 1);
      Distribute(BSIZE, q - 1, 1);
    } else {
      Distribute(BSIZE, q, 1);
      DivUnique(size + BSIZE - 1, BSIZE, q + 1, r - 1);
    }
  }

  lemma Quotient(x: nat, m: nat)
    requires m > 0
    ensures x == m * (x / m) + x % m
  {
  }

  /** The bytes still to be accounted for at block i; holed says that a block before it is missing. */
  ghost predicate Accounted(i: nat, left: nat, size: nat, holed: bool) {
    i <= LastBlock(size) ==> if holed then left >= Rest(size, i) + BSIZE else left == Rest(size, i)
  }

  lemma AccountedNext(l: seq<int>, i: nat, left: nat, size: nat, holed: bool)
    requires |l| == NADDR && i < NDIRECT && i <= LastBlock(size) && Accounted(i, left, size, holed)
    ensures left > 0 && (holed || i < LastBlock(size) ==> left > BSIZE)
    ensures l[i] == 0 ==> Accounted(i + 1, left, size, true)
    ensures l[i] != 0 ==> Accounted(i + 1, if left > BSIZE then left - BSIZE else left, size, holed)
    ensures (if left > BSIZE then BSIZE else left) == CountOf(size, i)
        <==> !(i == LastBlock(size) && holed && size % BSIZE != 0)
  {
    hide LastBlock, Rest;
    LastIs(size, i);
  }

  /** No direct address is negative or beyond the end of the file. */
  ghost predicate DirectEnd(l: seq<int>, size: nat)
    requires |l| == NADDR
  {
    forall k :: 0 <= k < NDIRECT ==> l[k] >= 0 && (k > LastBlock(size) ==> l[k] == 0)
  }

  lemma {:induction false} DirectYield(l: seq<int>, i: nat, left: nat, size: nat, holed: bool, file: nat, d: Node,
                                       tape: Disk, rs: seq<Request>)
    requires |l| == NADDR && i <= NDIRECT && d.kind == DATA && file < |rs|
    requires DirectEnd(l, size) && !Miscounted(l, size, tape)
    requires Accounted(i, left, size, holed) && (holed ==> exists j :: 0 <= j < i && l[j] == 0)
    ensures YieldAll(Direct(l, i, left, file), tape, rs)[d]
         == if i <= d.bindex < NDIRECT && d.blkno == l[d.bindex] && Right(d, file, size, tape) then 1 else 0
    decreases NDIRECT - i
  {
    hide YieldAll, LastBlock, Residual, Accounted, CountOf;
    if i == NDIRECT || i > LastBlock(size) {
      NothingDirect(l, i, left, size, file);
      NothingYields(tape, rs);
    } else {
      AccountedNext(l, i, left, size, holed);
      if l[i] == 0 {
        DirectYield(l, i + 1, left, size, true, file, d, tape, rs);
      } else {
        var c := Node(DATA, l[i], i, if left > BSIZE then BSIZE else left, file);
        var left' := if left > BSIZE then left - BSIZE else left;
        DirectYield(l, i + 1, left', size, holed, file, d, tape, rs);
        YieldOne(c, tape, rs);
        YieldConcat([c], Direct(l, i + 1, left', file), tape, rs);
      }
    }
  }

  lemma {:induction false} NothingDirect(l: seq<int>, i: nat, left: nat, size: nat, file: nat)
    requires |l| == NADDR && i <= NDIRECT && DirectEnd(l, size) && (i < NDIRECT ==> i > LastBlock(size))
    ensures Direct(l, i, left, file) == []
    decreases NDIRECT - i
  {
    if i < NDIRECT && left > 0 {
      NothingDirect(l, i + 1, left, size, file);
    }
  }

  /** Addresses are never negative. */
  ghost predicate Unsigned(l: seq<int>, tape: Disk) {
    (forall k :: 0 <= k < |l| ==> l[k] >= 0) && forall b, i: nat :: Entry(tape, b, i) >= 0
  }

  /** No addresses beyond the end of the file. */
  ghost predicate NothingBeyond(l: seq<int>, size: nat, tape: Disk)
    requires |l| == NADDR
  {
    Unsigned(l, tape) && forall k: nat :: k > LastBlock(size) ==> ReadAddress(l, tape, k) == NONE
  }

  lemma SingleEnds(l: seq<int>, size: nat, tape: Disk)
    requires |l| == NADDR && NothingBeyond(l, size, tape) && l[NDIRECT] != 0
    ensures Ends(l[NDIRECT], NDIRECT, size, tape)
  {
    hide LastBlock, Entry, ReadAddress;
    forall j | 0 <= j < NINDIR
      ensures Entry(tape, l[NDIRECT], j) >= 0 && (NDIRECT + j > LastBlock(size) ==> Entry(tape, l[NDIRECT], j) == 0)
    {
      ReadsSingle(l, tape, NDIRECT + j);
    }
  }

  lemma ReadsSingle(l: seq<int>, tape: Disk, k: nat)
    requires |l| == NADDR && NDIRECT <= k < NDIRECT + NINDIR
    ensures
      var a := Entry(tape, l[NDIRECT], k - NDIRECT);
      ReadAddress(l, tape, k) == if l[NDIRECT] == 0 || a == 0 then NONE else a
  {
    hide Levels, First, Entry, Index;
    Ranges(k);
    Limits();
    TwoIndices(k - NDIRECT);
    DivUnique(k - NDIRECT, NINDIR, 0, k - NDIRECT);
    WalkOne(tape, l[NDIRECT], k - NDIRECT);
  }

  lemma WalkOne(tape: Disk, b: int, bn: nat)
    ensures
      var a := Entry(tape, b, Index(bn, 1));
      Walk(tape, b, 1, bn) == if b == 0 || a == 0 then NONE else a
  {
  }

  lemma ReadsDouble(l: seq<int>, tape: Disk, k: nat)
    requires |l| == NADDR && NDIRECT + NINDIR <= k < LIMIT
    ensures
      var q, j := (k - NDIRECT - NINDIR) / NINDIR, (k - NDIRECT - NINDIR) % NINDIR;
      var b := Entry(tape, l[NDIRECT + 1], q);
      ReadAddress(l, tape, k) == if l[NDIRECT + 1] == 0 || b == 0 || Entry(tape, b, j) == 0 then NONE
        else Entry(tape, b, j)
  {
    hide Levels, First, Entry, Index, Walk;
    var bn := k - NDIRECT - NINDIR;
    Ranges(k);
    Limits();
    TwoIndices(bn);
    WalkTwo(tape, l[NDIRECT + 1], bn);
    WalkOne(tape, Entry(tape, l[NDIRECT + 1], Index(bn, 2)), bn);
  }

  lemma WalkTwo(tape: Disk, b: int, bn: nat)
    ensures Walk(tape, b, 2, bn) == if b == 0 then NONE else Walk(tape, Entry(tape, b, Index(bn, 2)), 1, bn)
  {
  }

  lemma DoubleEnds(l: seq<int>, size: nat, tape: Disk)
    requires |l| == NADDR && NothingBeyond(l, size, tape) && l[NDIRECT + 1] != 0
    ensures AllEnd(l[NDIRECT + 1], NDIRECT + NINDIR, size, tape)
  {
    forall q | 0 <= q < NINDIR && Entry(tape, l[NDIRECT + 1], q) != 0
      ensures Ends(Entry(tape, l[NDIRECT + 1], q), NDIRECT + NINDIR + q * NINDIR, size, tape)
    {
      EndsBelow(l, size, tape, q);
    }
  }

  lemma EndsBelow(l: seq<int>, size: nat, tape: Disk, q: nat)
    requires |l| == NADDR && NothingBeyond(l, size, tape) && l[NDIRECT + 1] != 0 && q < NINDIR
    requires Entry(tape, l[NDIRECT + 1], q) != 0
    ensures Ends(Entry(tape, l[NDIRECT + 1], q), NDIRECT + NINDIR + q * NINDIR, size, tape)
  {
    hide LastBlock, Entry, ReadAddress;
    var b := Entry(tape, l[NDIRECT + 1], q);
    forall j | 0 <= j < NINDIR
      ensures Entry(tape, b, j) >= 0 && (NDIRECT + NINDIR + q * NINDIR + j > LastBlock(size) ==> Entry(tape, b, j) == 0)
    {
      var k := NDIRECT + NINDIR + q * NINDIR + j;
      DivUnique(k - NDIRECT - NINDIR, NINDIR, q, j);
      WhichBlock(k - NDIRECT - NINDIR, q);
      ReadsDouble(l, tape, k);
    }
  }

  /** A node writes what the file has on the tape at its place, and all of it. */
  ghost predicate Promised(d: Node, l: seq<int>, size: nat, file: nat, tape: Disk)
    requires |l| == NADDR
  {
    Right(d, file, size, tape) && ReadAddress(l, tape, d.bindex) == d.blkno
  }

  /**
   Unless the last block is a short direct one with a hole before it, and on
   the tape, the nodes that are visited write every block that is on the tape exactly once,
   at its place and with the right number of bytes, and nothing else.
   */
  lemma EachBlockOnce(l: seq<int>, size: nat, file: nat, tape: Disk, rs: seq<Request>, d: Node)
    requires |l| == NADDR && l[NDIRECT + 2] == 0 && file < |rs| && rs[file] == RequestOf(size) && d.kind == DATA
    requires !Miscounted(l, size, tape) && NothingBeyond(l, size, tape)
    ensures YieldAll(Nodes(l, size, file), tape, rs)[d] == if Promised(d, l, size, file, tape) then 1 else 0
  {
    hide YieldAll, Yield, LastBlock, Residual, Right, ReadAddress, NothingBeyond, Miscounted;
    YieldConcat(Direct(l, 0, size, file), IndirectNodes(l, file), tape, rs);
    DirectStart(l, size, file, d, tape, rs);
    IndirectYield(l, size, file, tape, rs, d);
    Reads(l, size, file, tape, d);
  }

  lemma DirectStart(l: seq<int>, size: nat, file: nat, d: Node, tape: Disk, rs: seq<Request>)
    requires |l| == NADDR && d.kind == DATA && file < |rs| && NothingBeyond(l, size, tape)
    requires !Miscounted(l, size, tape)
    ensures YieldAll(Direct(l, 0, size, file), tape, rs)[d]
         == if d.bindex < NDIRECT && d.blkno == l[d.bindex] && Right(d, file, size, tape) then 1 else 0
  {
    hide YieldAll, LastBlock, ReadAddress, Right, Miscounted;
    forall k | 0 <= k < NDIRECT
      ensures l[k] >= 0 && (k > LastBlock(size) ==> l[k] == 0)
    {
      ReadsDirect(l, tape, k);
    }
    LastIs(size, 0);
    DirectYield(l, 0, size, size, false, file, d, tape, rs);
  }

  lemma IndirectYield(l: seq<int>, size: nat, file: nat, tape: Disk, rs: seq<Request>, d: Node)
    requires |l| == NADDR && file < |rs| && rs[file] == RequestOf(size) && d.kind == DATA
             && NothingBeyond(l, size, tape)
    ensures YieldAll(IndirectNodes(l, file), tape, rs)[d]
         == (if l[NDIRECT] != 0 && InChunk(d, l[NDIRECT], NDIRECT, file, size, tape) then 1 else 0)
            + if l[NDIRECT + 1] != 0 && InDouble(d, l[NDIRECT + 1], NDIRECT + NINDIR, file, size, tape) then 1 else 0
  {
    hide YieldAll, Yield, LastBlock, InChunk, InDouble, NothingBeyond;
    var one, two := Node(SINGLE, l[NDIRECT], NDIRECT, BSIZE, file),
      Node(DOUBLE, l[NDIRECT + 1], NDIRECT + NINDIR, BSIZE, file);
    NothingYields(tape, rs);
    YieldConcat(if l[NDIRECT] != 0 then [one] else [], if l[NDIRECT + 1] != 0 then [two] else [], tape, rs);
    YieldOne(one, tape, rs);
    YieldOne(two, tape, rs);
    if l[NDIRECT] != 0 {
      SingleEnds(l, size, tape);
      SingleYield(one, d, size, tape, rs);
    }
    if l[NDIRECT + 1] != 0 {
      DoubleEnds(l, size, tape);
      DoubleYield(two, d, size, tape, rs);
    }
  }

  /** The three ranges together are what bmap reads. */
  lemma Reads(l: seq<int>, size: nat, file: nat, tape: Disk, d: Node)
    requires |l| == NADDR && l[NDIRECT + 2] == 0
    ensures Right(d, file, size, tape) && ReadAddress(l, tape, d.bindex) == d.blkno <==>
              || (d.bindex < NDIRECT && d.blkno == l[d.bindex] && Right(d, file, size, tape))
              || (l[NDIRECT] != 0 && InChunk(d, l[NDIRECT], NDIRECT, file, size, tape))
              || (l[NDIRECT + 1] != 0 && InDouble(d, l[NDIRECT + 1], NDIRECT + NINDIR, file, size, tape))
    ensures d.bindex < NDIRECT ==> !InChunk(d, l[NDIRECT], NDIRECT, file, size, tape)
    ensures d.bindex < NDIRECT + NINDIR ==> !InDouble(d, l[NDIRECT + 1], NDIRECT + NINDIR, file, size, tape)
    ensures d.bindex >= NDIRECT + NINDIR ==> !InChunk(d, l[NDIRECT], NDIRECT, file, size, tape)
  {
    hide LastBlock, Residual, Entry, ReadAddress;
    if d.bindex < NDIRECT {
      ReadsDirect(l, tape, d.bindex);
    } else if d.bindex < NDIRECT + NINDIR {
      ReadsSingle(l, tape, d.bindex);
    } else if d.bindex < LIMIT {
      ReadsDouble(l, tape, d.bindex);
    } else {
      ReadsNothing(l, tape, d.bindex);
    }
  }

  lemma ReadsDirect(l: seq<int>, tape: Disk, k: nat)
    requires |l| == NADDR && k < NDIRECT
    ensures ReadAddress(l, tape, k) == if l[k] == 0 then NONE else l[k]
  {
    Ranges(k);
  }

  lemma ReadsNothing(l: seq<int>, tape: Disk, k: nat)
    requires |l| == NADDR && k >= LIMIT && l[NDIRECT + 2] == 0
    ensures ReadAddress(l, tape, k) == NONE
  {
    Ranges(k);
    Limits();
  }

  /** After a hole the bytes are counted from too large a rest, so that each block is taken to be full. */
  lemma {:induction false} AfterHole(l: seq<int>, i: nat, left: nat, size: nat, holed: bool, file: nat)
    requires |l| == NADDR && i <= LastBlock(size) < NDIRECT && l[LastBlock(size)] != 0
             && Accounted(i, left, size, holed)
    requires holed || exists j :: i <= j < LastBlock(size) && l[j] == 0
    ensures Node(DATA, l[LastBlock(size)], LastBlock(size), BSIZE, file) in Direct(l, i, left, file)
    decreases NDIRECT - i
  {
    hide LastBlock, Accounted, Residual;
    AccountedNext(l, i, left, size, holed);
    if i < LastBlock(size) {
      AfterHole(l, i + 1, if l[i] == 0 then left else left - BSIZE, size, holed || l[i] == 0, file);
    }
  }

  /** A node of the list that is on the tape is visited. */
  lemma {:induction false} Visited(s: seq<Node>, n: Node, tape: Disk, rs: seq<Request>)
    requires n in s && n.blkno in tape && n.file < |rs| && n.kind == DATA
    ensures YieldAll(s, tape, rs)[n] >= 1
  {
    var k := |s| - 1;
    if s[k] != n {
      Visited(s[..k], n, tape, rs);
    }
  }

  /** The other way round: such a file gets a whole block where its last bytes belong. */
  lemma HoleMiscounts(l: seq<int>, size: nat, file: nat, tape: Disk, rs: seq<Request>)
    requires |l| == NADDR && file < |rs| && Miscounted(l, size, tape)
    ensures
      var d := Node(DATA, l[LastBlock(size)], LastBlock(size), BSIZE, file);
      YieldAll(Nodes(l, size, file), tape, rs)[d] >= 1 && !Promised(d, l, size, file, tape)
  {
    hide LastBlock, Direct, YieldAll;
    var last := LastBlock(size);
    LastIs(size, 0);
    LastIs(size, last);
    AfterHole(l, 0, size, size, false, file);
    Visited(Nodes(l, size, file), Node(DATA, l[last], last, BSIZE, file), tape, rs);
  }

  /** Exactly when all counts are right. */
  lemma CountsRight(l: seq<int>, size: nat, file: nat, tape: Disk, rs: seq<Request>)
    requires |l| == NADDR && l[NDIRECT + 2] == 0 && file < |rs| && rs[file] == RequestOf(size)
    requires NothingBeyond(l, size, tape)
    ensures
      (forall d: Node :: d.kind == DATA ==>
        YieldAll(Nodes(l, size, file), tape, rs)[d] == if Promised(d, l, size, file, tape) then 1 else 0)
      <==> !Miscounted(l, size, tape)
  {
    hide YieldAll, Promised, Miscounted, NothingBeyond, LastBlock;
    if Miscounted(l, size, tape) {
      HoleMiscounts(l, size, file, tape, rs);
    } else {
      forall d: Node | d.kind == DATA
        ensures YieldAll(Nodes(l, size, file), tape, rs)[d] == if Promised(d, l, size, file, tape) then 1 else 0
      {
        EachBlockOnce(l, size, file, tape, rs, d);
      }
    }
  }

  class Recovery {
    const tape: Disk            // what the tape holds of each block
    const blklist: seq<int>     // Blklist: the blocks in the order they are on the tape
    const rs: seq<Request>
    var list: seq<Node>         // from g_Bhead->rlink on; the head itself comes after the last node
    var curb: int               // g_curb: the place on the tape
    var written: seq<WriteOp>
    var failed: nat             // number of blocks reported as lost
    ghost var visited: seq<Node>

    ghost predicate Sizes() {
      && (forall i, j :: 0 <= i < j < |blklist| ==> blklist[i] < blklist[j])
      && forall b :: b in tape <==> b in blklist
    }

    constructor (tape: Disk, blklist: seq<int>, rs: seq<Request>, curb: int)
      ensures this.tape == tape && this.blklist == blklist && this.rs == rs
      ensures list == [] && written == [] && visited == [] && this.curb == curb && failed == 0
    {
      this.tape, this.blklist, this.rs, this.curb := tape, blklist, rs, curb;
      list, written, visited, failed := [], [], [], 0;
    }

    /** addnod: in front of the first node whose block number is not smaller. */
    method AddNod(n: Node) returns (p: nat)
      requires Ascending(list)
      modifies this`list
      ensures p <= |old(list)| && list == old(list)[..p] + [n] + old(list)[p..] && Ascending(list)
    {
      p := 0;
      while p < |list| && n.blkno > list[p].blkno
        invariant p <= |list| && forall i :: 0 <= i < p ==> list[i].blkno < n.blkno
      {
        p := p + 1;
      }
      list := list[..p] + [n] + list[p..];
    }

    /** delnode */
    method DelNode(p: nat)
      requires p < |list| && Ascending(list)
      modifies this`list
      ensures list == old(list)[..p] + old(list)[p + 1..] && Ascending(list)
    {
      list := list[..p] + list[p + 1..];
    }

    /** t is s with the nodes added put in. */
    ghost predicate Enlarged(s: seq<Node>, t: seq<Node>, added: seq<Node>) {
      && Ascending(t) && YieldAll(t, tape, rs) == YieldAll(s, tape, rs) + YieldAll(added, tape, rs)
      && Work(t) == Work(s) + Work(added)
    }

    /** ptrblk: the blocks that an indirect block names are added; the current node is at bp. */
    method PtrBlk(n: Node, bp0: nat) returns (bp: nat)
      requires Ascending(list) && bp0 < |list| && list[bp0] == n && n.kind != DATA && n.blkno in tape && n.file < |rs|
      modifies this`list
      ensures bp < |list| && list[bp] == n && Ascending(list)
      ensures Enlarged(old(list), list, Children(n, Addresses(tape, n.blkno), 0, rs[n.file]))
      ensures forall m :: m in list ==> m in old(list) || (m.blkno != 0 && m.file == n.file)
    {
      hide Enlarged, Ascending, Addresses;
      var buf, r := Addresses(tape, n.blkno), rs[n.file];
      var i: nat, done := 0, false;
      bp := bp0;
      ghost var added: seq<Node> := [];
      NothingAdded(list);
      assert added + Children(n, buf, 0, r) == Children(n, buf, 0, r);
      while i < NINDIR && !done
        invariant i <= NINDIR && bp < |list| && list[bp] == n && Ascending(list) && Enlarged(old(list), list, added)
        invariant forall m :: m in list ==> m in old(list) || (m.blkno != 0 && m.file == n.file)
        invariant added + (if done then [] else Children(n, buf, i, r)) == Children(n, buf, 0, r)
      {
        if buf[i] != 0 {
          ghost var c, more := Child(n, buf[i], i, r), Children(n, buf, i + 1, r);
          bp := AddChild(n, buf[i], i, r, bp, old(list), added);
          done := n.kind == SINGLE && n.bindex + i == r.lastblk;
          Regroup(added, c, more);
          added := added + [c];
        }
        i := i + 1;
      }
      assert added + [] == added;
    }

    lemma Regroup(added: seq<Node>, c: Node, more: seq<Node>)
      ensures added + [c] + [] == added + [c] && added + ([c] + more) == added + [c] + more
    {
    }

    /** One entry of an indirect block. */
    method AddChild(n: Node, a: int, i: nat, r: Request, bp0: nat, ghost s: seq<Node>, ghost added: seq<Node>)
      returns (bp: nat)
      requires bp0 < |list| && list[bp0] == n && Enlarged(s, list, added)
      modifies this`list
      ensures bp < |list| && list[bp] == n && Ascending(list) && Enlarged(s, list, added + [Child(n, a, i, r)])
      ensures forall m :: m in list ==> m in old(list) || m == Child(n, a, i, r)
    {
      hide YieldAll, Work, Ascending, Child;
      bp := bp0;
      ghost var before := list;
      var p := AddNod(Child(n, a, i, r));
      if p <= bp {
        bp := bp + 1;
      }
      OneAdded(before, p, Child(n, a, i, r), added);
    }

    lemma NothingAdded(s: seq<Node>)
      requires Ascending(s)
      ensures Enlarged(s, s, [])
    {
    }

    lemma OneAdded(s: seq<Node>, p: nat, c: Node, added: seq<Node>)
      requires p <= |s|
      ensures YieldAll(s[..p] + [c] + s[p..], tape, rs) == YieldAll(s, tape, rs) + Yield(c, tape, rs)
      ensures YieldAll(added + [c], tape, rs) == YieldAll(added, tape, rs) + Yield(c, tape, rs)
      ensures Work(s[..p] + [c] + s[p..]) == Work(s) + Weight(c) && Work(added + [c]) == Work(added) + Weight(c)
    {
      YieldInsert(s, p, c, tape, rs);
      WorkInsert(s, p, c);
      assert (added + [c])[..|added|] == added;
    }

    /** The block is not the one that has just been read, so the tape need not be at its end before it is found. */
    ghost predicate NotJustRead(b: int)
      reads this`curb
    {
      -1 <= curb < |blklist| && (curb >= 0 ==> blklist[curb] != b)
    }

    /** Frecover without what is done with the block: the tape is moved to it, after a rewind if it has gone by. */
    method Frecover(b: int) returns (found: bool)
      requires Sizes() && NotJustRead(b)
      modifies this`curb
      ensures found <==> b != 0 && b in tape
      ensures -1 <= curb < |blklist|
      ensures found ==> curb >= 0 && blklist[curb] == b
      ensures !found ==> curb == old(curb) || curb == -1
    {
      if b == 0 {
        return false;
      }
      if curb >= 0 && b < blklist[curb] {
        curb := -1;
      }
      var pa: nat := 0;
      while pa < |blklist| && blklist[pa] != b
        invariant pa <= |blklist| && forall i :: 0 <= i < pa ==> blklist[i] != b
      {
        pa := pa + 1;
      }
      if pa == |blklist| {
        return false;
      }
      curb := curb + 1;
      while blklist[curb] != b
        invariant 0 <= curb <= pa
        decreases pa - curb
      {
        curb := curb + 1;
      }
      found := true;
    }

    /** What remains to be done, and what has been done, is what there was to do. */
    ghost predicate Draining(all: multiset<Node>)
      reads this
    {
      && Sizes() && Ascending(list) && -1 <= curb < |blklist|
      && multiset(visited) + YieldAll(list, tape, rs) == all && written == Writes(visited)
      && (forall n :: n in list ==> n.blkno != 0 && n.file < |rs|)
      && DifferentBlocks(YieldAll(list, tape, rs))
      && (curb >= 0 ==> forall n :: n in YieldAll(list, tape, rs) ==> n.blkno != blklist[curb])
    }

    /** The list is what saveblks has put there; the block read last is one of inodes, none of those wanted. */
    lemma Ready(nodes: seq<Node>)
      requires Sizes() && Enlarged([], list, nodes) && visited == [] && written == []
      requires -1 <= curb < |blklist|
      requires forall n :: n in list ==> n.blkno != 0 && n.file < |rs|
      requires DifferentBlocks(YieldAll(nodes, tape, rs))
      requires curb >= 0 ==> forall n :: n in YieldAll(nodes, tape, rs) ==> n.blkno != blklist[curb]
      ensures Draining(YieldAll(nodes, tape, rs))
    {
      hide Yield, DifferentBlocks, YieldAll;
      NoNodes(tape, rs);
      assert YieldAll(list, tape, rs) == YieldAll(nodes, tape, rs);
      assert multiset(visited) + YieldAll(list, tape, rs) == YieldAll(nodes, tape, rs);
      assert Writes([]) == [];
    }

    /** recover: the list is drained; every node that is on the tape is visited once, and its data written once. */
    method Recover(ghost all: multiset<Node>)
      requires Draining(all)
      modifies this
      ensures list == [] && multiset(visited) == all && written == Writes(visited)
    {
      hide Draining;
      var bp: nat := 0;
      while list != []
        invariant Draining(all) && bp <= |list|
        decreases Work(list), if bp == |list| then 1 else 0
      {
        if bp == |list| {
          bp := 0;
        } else {
          bp := RecoverNode(bp, all);
        }
      }
      Drained(all);
    }

    lemma Drained(all: multiset<Node>)
      requires Draining(all) && list == []
      ensures multiset(visited) == all && written == Writes(visited)
    {
    }

    /** One node is looked for on the tape and taken off the list. */
    method RecoverNode(bp0: nat, ghost all: multiset<Node>) returns (bp: nat)
      requires Draining(all) && bp0 < |list|
      modifies this
      ensures Draining(all) && bp <= |list| && Work(list) < Work(old(list))
    {
      hide YieldAll, Work, DifferentBlocks, Writes, Ascending, Yield, Enlarged;
      bp := bp0;
      var n := list[bp];
      ghost var before := list;
      Wanted(bp);
      var found := Frecover(n.blkno);
      if !found {
        failed := failed + 1;
        Missing(before, bp);
      } else {
        if n.kind == DATA {
          written := written + [WriteOp(n.file, n.bindex, n.count, n.blkno)];
          DataDone(before, bp);
        } else {
          bp := PtrBlk(n, bp);
          PointersDone(before, list, n, bp);
        }
        Visit(visited, n);
        TakeOff(YieldAll(before, tape, rs), YieldAll(list[..bp] + list[bp + 1..], tape, rs), n, visited);
        visited := visited + [n];
      }
      DelNode(bp);
    }

    /** The block of a node on the list is not the one just read. */
    lemma Wanted(bp: nat)
      requires bp < |list| && Sizes() && -1 <= curb < |blklist| && list[bp].file < |rs|
      requires curb >= 0 ==> forall n :: n in YieldAll(list, tape, rs) ==> n.blkno != blklist[curb]
      ensures NotJustRead(list[bp].blkno)
    {
      hide YieldAll;
      YieldDelete(list, bp, tape, rs);
      if list[bp].blkno in tape {
        assert list[bp] in Yield(list[bp], tape, rs);
      }
    }

    lemma Missing(s: seq<Node>, bp: nat)
      requires bp < |s| && s[bp].blkno !in tape
      ensures
        var t := s[..bp] + s[bp + 1..];
        YieldAll(t, tape, rs) == YieldAll(s, tape, rs) && Work(t) < Work(s)
    {
      hide YieldAll;
      YieldDelete(s, bp, tape, rs);
      WorkDelete(s, bp);
    }

    lemma DataDone(s: seq<Node>, bp: nat)
      requires bp < |s| && s[bp].blkno in tape && s[bp].kind == DATA && s[bp].file < |rs|
      ensures
        var t := s[..bp] + s[bp + 1..];
        YieldAll(s, tape, rs) == YieldAll(t, tape, rs) + multiset{s[bp]} && Work(t) < Work(s)
    {
      hide YieldAll;
      YieldDelete(s, bp, tape, rs);
      WorkDelete(s, bp);
    }

    lemma PointersDone(s: seq<Node>, u: seq<Node>, n: Node, bp: nat)
      requires bp < |u| && u[bp] == n && n.blkno in tape && n.kind != DATA && n.file < |rs|
      requires Enlarged(s, u, Children(n, Addresses(tape, n.blkno), 0, rs[n.file]))
      ensures
        var t := u[..bp] + u[bp + 1..];
        YieldAll(s, tape, rs) == YieldAll(t, tape, rs) + multiset{n} && Work(t) < Work(s)
    {
      hide YieldAll, Yield, Work, Weight, Children, Addresses;
      var below := Children(n, Addresses(tape, n.blkno), 0, rs[n.file]);
      YieldDelete(u, bp, tape, rs);
      YieldChildren(n, tape, rs);
      Replaced(YieldAll(s, tape, rs), YieldAll(u[..bp] + u[bp + 1..], tape, rs), multiset{n},
        YieldAll(below, tape, rs));
      WorkDelete(u, bp);
      ChildrenWeigh(n);
    }

    lemma ChildrenWeigh(n: Node)
      requires n.kind != DATA && n.file < |rs|
      ensures Work(Children(n, Addresses(tape, n.blkno), 0, rs[n.file])) < Weight(n)
    {
      hide Work, Children, Addresses;
      ChildrenWork(n, Addresses(tape, n.blkno), 0, rs[n.file]);
    }

    lemma Replaced(s: multiset<Node>, t: multiset<Node>, n: multiset<Node>, below: multiset<Node>)
      requires s + below == t + (n + below)
      ensures s == t + n
    {
      assert t + (n + below) == (t + n) + below;
      Cancel(s, t + n, below);
    }

    lemma Cancel(a: multiset<Node>, b: multiset<Node>, c: multiset<Node>)
      requires a + c == b + c
      ensures a == b
    {
      forall n
        ensures a[n] == b[n]
      {
        assert (a + c)[n] == (b + c)[n];
      }
    }

    lemma TakeOff(y: multiset<Node>, y': multiset<Node>, n: Node, visited: seq<Node>)
      requires y == y' + multiset{n} && DifferentBlocks(y)
      ensures DifferentBlocks(y') && forall m :: m in y' ==> m.blkno != n.blkno
      ensures multiset(visited + [n]) + y' == multiset(visited) + y
    {
      forall m | m in y'
        ensures m in y && y[m] == 1 && m != n
      {
        assert y[m] == y'[m] + if m == n then 1 else 0;
      }
      assert forall m :: m in y' ==> y'[m] == y[m];
    }

    lemma Visit(visited: seq<Node>, n: Node)
      ensures Writes(visited + [n]) == Writes(visited) + if n.kind == DATA
                then [WriteOp(n.file, n.bindex, n.count, n.blkno)] else []
    {
      assert (visited + [n])[..|visited|] == visited;
    }

    /** saveblks: a file whose inode names no triple-indirect block goes onto the list. */
    method SaveBlks(l: seq<int>, size0: nat, file: nat) returns (ok: bool)
      requires |l| == NADDR && Ascending(list)
      modifies this`list
      ensures ok <==> l[NDIRECT + 2] == 0
      ensures ok ==> Enlarged(old(list), list, Nodes(l, size0, file))
      ensures ok ==> forall n :: n in list ==> n in old(list) || (n.blkno != 0 && n.file == file)
      ensures !ok ==> list == old(list)
    {
      hide Enlarged, Ascending, Direct, IndirectNodes;
      if l[NDIRECT + 2] != 0 {
        return false;
      }
      ok := true;
      var size: nat, i: nat := size0, 0;
      ghost var added: seq<Node> := [];
      NothingAdded(list);
      assert added + Direct(l, 0, size0, file) == Direct(l, 0, size0, file);
      while i < NDIRECT && size > 0
        invariant i <= NDIRECT && Ascending(list) && Enlarged(old(list), list, added)
        invariant added + Direct(l, i, size, file) == Direct(l, 0, size0, file)
        invariant forall n :: n in list ==> n in old(list) || (n.blkno != 0 && n.file == file)
      {
        DirectStep(l, i, size, file);
        if l[i] != 0 {
          var count := BSIZE;
          if size > BSIZE {
            size := size - BSIZE;
          } else {
            count := size;
          }
          var n := Node(DATA, l[i], i, count, file);
          Add(n, old(list), added);
          Regroup(added, n, Direct(l, i + 1, size, file));
          added := added + [n];
        }
        i := i + 1;
      }
      DirectEnds(l, i, size, file);
      assert added + [] == added;
      SaveIndirect(l, file, old(list), added);
    }

    lemma DirectStep(l: seq<int>, i: nat, size: nat, file: nat)
      requires |l| == NADDR && i < NDIRECT && size > 0
      ensures
        var n := Node(DATA, l[i], i, if size > BSIZE then BSIZE else size, file);
        Direct(l, i, size, file) ==
          if l[i] == 0 then Direct(l, i + 1, size, file)
          else [n] + Direct(l, i + 1, if size > BSIZE then size - BSIZE else size, file)
    {
    }

    lemma DirectEnds(l: seq<int>, i: nat, size: nat, file: nat)
      requires |l| == NADDR && i <= NDIRECT && (i == NDIRECT || size == 0)
      ensures Direct(l, i, size, file) == []
    {
    }

    method Add(n: Node, ghost s: seq<Node>, ghost added: seq<Node>)
      requires Ascending(list) && Enlarged(s, list, added)
      modifies this`list
      ensures Ascending(list) && Enlarged(s, list, added + [n])
      ensures forall m :: m in list ==> m in old(list) || m == n
    {
      hide YieldAll, Work, Ascending;
      ghost var before := list;
      var p := AddNod(n);
      OneAdded(before, p, n, added);
    }

    method SaveIndirect(l: seq<int>, file: nat, ghost s: seq<Node>, ghost added: seq<Node>)
      requires |l| == NADDR && Ascending(list) && Enlarged(s, list, added)
      modifies this`list
      ensures Ascending(list) && Enlarged(s, list, added + IndirectNodes(l, file))
      ensures forall m :: m in list ==> m in old(list) || (m.blkno != 0 && m.file == file)
    {
      hide Enlarged, Ascending;
      ghost var now := added;
      if l[NDIRECT] != 0 {
        Add(Node(SINGLE, l[NDIRECT], NDIRECT, BSIZE, file), s, now);
        now := now + [Node(SINGLE, l[NDIRECT], NDIRECT, BSIZE, file)];
      }
      if l[NDIRECT + 1] != 0 {
        Add(Node(DOUBLE, l[NDIRECT + 1], NDIRECT + NINDIR, BSIZE, file), s, now);
        now := now + [Node(DOUBLE, l[NDIRECT + 1], NDIRECT + NINDIR, BSIZE, file)];
      }
      assert now == added + IndirectNodes(l, file);
    }
  }

  // ----- a whole recovery

  function NodeOf(op: WriteOp): Node {
    Node(DATA, op.blkno, op.bindex, op.count, op.file)
  }

  /** Each data node visited is one write, and nothing else is written. */
  lemma {:induction false} WritesCount(visited: seq<Node>, op: WriteOp)
    ensures multiset(Writes(visited))[op] == multiset(visited)[NodeOf(op)]
  {
    if |visited| > 0 {
      var k := |visited| - 1;
      WritesCount(visited[..k], op);
      assert visited == visited[..k] + [visited[k]];
    }
  }

  /**
   One file from one tape, on which block curb has been read last: unless the
   file is one of those whose last block is miscounted, every block of it on
   the tape is written once, at its place and with the bytes the file has
   there, and nothing else is written.
   */
  method RecoverFile(tape: Disk, blklist: seq<int>, curb: int, l: seq<int>, size: nat)
    returns (ok: bool, written: seq<WriteOp>)
    requires |l| == NADDR && (forall i, j :: 0 <= i < j < |blklist| ==> blklist[i] < blklist[j])
    requires -1 <= curb < |blklist| && forall b :: b in tape <==> b in blklist
    requires
      var all := YieldAll(Nodes(l, size, 0), tape, [RequestOf(size)]);
      DifferentBlocks(all) && (curb >= 0 ==> forall n :: n in all ==> n.blkno != blklist[curb])
    ensures ok <==> l[NDIRECT + 2] == 0
    ensures !ok ==> written == []
    ensures ok && NothingBeyond(l, size, tape) && !Miscounted(l, size, tape) ==>
              forall op :: multiset(written)[op] == if Restores(op, l, size, tape) then 1 else 0
  {
    hide YieldAll, DifferentBlocks, LastBlock, Residual, NothingBeyond, Miscounted, Restores;
    var r := new Recovery(tape, blklist, [RequestOf(size)], curb);
    NoNodes(tape, [RequestOf(size)]);
    ok := r.SaveBlks(l, size, 0);
    if ok {
      r.Ready(Nodes(l, size, 0));
      r.Recover(YieldAll(Nodes(l, size, 0), tape, [RequestOf(size)]));
      if NothingBeyond(l, size, tape) && !Miscounted(l, size, tape) {
        AllRestored(r.visited, l, size, tape);
      }
    }
    written := r.written;
  }

  /** op writes to its place in the file what the file has there. */
  ghost predicate Restores(op: WriteOp, l: seq<int>, size: nat, tape: Disk)
    requires |l| == NADDR
  {
    && op.blkno > 0 && op.blkno in tape && ReadAddress(l, tape, op.bindex) == op.blkno
    && op.count == CountOf(size, op.bindex) && op.file == 0
  }

  lemma AllRestored(visited: seq<Node>, l: seq<int>, size: nat, tape: Disk)
    requires |l| == NADDR && l[NDIRECT + 2] == 0 && NothingBeyond(l, size, tape) && !Miscounted(l, size, tape)
    requires multiset(visited) == YieldAll(Nodes(l, size, 0), tape, [RequestOf(size)])
    ensures forall op :: multiset(Writes(visited))[op] == if Restores(op, l, size, tape) then 1 else 0
  {
    hide YieldAll, NothingBeyond, Miscounted, LastBlock, Residual, ReadAddress, Writes;
    forall op
      ensures multiset(Writes(visited))[op] == if Restores(op, l, size, tape) then 1 else 0
    {
      WritesCount(visited, op);
      EachBlockOnce(l, size, 0, tape, [RequestOf(size)], NodeOf(op));
    }
  }

  lemma NoNodes(tape: Disk, rs: seq<Request>)
    ensures YieldAll([], tape, rs) == multiset{} && Ascending([])
  {
  }
}
