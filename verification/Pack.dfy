/** usr/src/cmd/pack.c: the Huffman compressor, with its global variables as the fields of a class. */
module Pack {
  import opened Sums
  import opened BitStrings
  import opened PackHeap
  import opened PackParams
  import opened PackText
  import opened HuffmanForest
  import opened HuffmanResult
  import opened CanonicalCode
  import opened PackStream
  import PackFormat
  import RoundTrip
  import opened PackLaws
  import HuffmanTree

  /** Longest file whose counts, which sum to 2*size+1, fit a signed 32-bit long. */
  const MAXSIZE: nat := 0x4000_0000

  datatype Verdict = Compressed | Trivial | TooManyLevels | NoSaving

  /** Number of disk blocks for a file of that many bytes; division is towards zero. */
  function Blocks(bytes: int): int {
    if bytes + BLKSIZE - 1 >= 0 then (bytes + BLKSIZE - 1) / BLKSIZE else -((1 - BLKSIZE - bytes) / BLKSIZE)
  }

  /** The compressed size the program bases its decision on; the sum of the bits is kept in a long. */
  function EstimatedSize(lens: seq<nat>, m: nat, text: seq<byte>): int
    requires |lens| == SYMBOLS
  {
    Long(BitsOut(lens, Halves(Weights(text)[..SYMBOLS])) + 7) / 8 + 6 + m + |Symbols(text) - {END}|
  }

  class Packer {
    var infile: seq<byte>    // the file being packed
    var offset: nat          // where the next read starts
    var outfile: seq<byte>   // what has been written

    const inbuff: array<byte>
    const outbuff: array<byte>
    const count: array<nat>
    const heap: array<Entry>
    const parent: array<nat>
    const length: array<nat>
    const bits: array<nat>
    const levcount: array<nat>

    var n: nat
    var lastnode: nat
    var maxlev: nat
    var insize: nat
    var diffbytes: int
    var outsize: int
    var inc: nat

    ghost predicate Valid() {
      && inbuff.Length == BLKSIZE && outbuff.Length == BLKSIZE + 4
      && count.Length == length.Length == bits.Length == SYMBOLS
      && heap.Length == HEAPSIZE && parent.Length == levcount.Length == NODES
      && inbuff != outbuff
      && count != length && count != bits && count != parent && count != levcount
      && length != bits && length != parent && length != levcount
      && bits != parent && bits != levcount && parent != levcount
      && inbuff as object != count && inbuff as object != length && inbuff as object != bits
      && inbuff as object != parent && inbuff as object != levcount && inbuff as object != heap
      && outbuff as object != count && outbuff as object != length && outbuff as object != bits
      && outbuff as object != parent && outbuff as object != levcount && outbuff as object != heap
      && heap as object != count && heap as object != length && heap as object != bits
      && heap as object != parent && heap as object != levcount
    }

    constructor (file: seq<byte>)
      ensures Valid() && infile == file && offset == 0 && outfile == []
      ensures Rising(parent[..])
      ensures fresh(inbuff) && fresh(outbuff) && fresh(count) && fresh(heap) && fresh(parent)
      ensures fresh(length) && fresh(bits) && fresh(levcount)
    {
      infile, offset, outfile := file, 0, [];
      n, lastnode, maxlev, insize, diffbytes, outsize, inc := 0, 0, 0, 0, 0, 0, 0;
      inbuff := new byte[BLKSIZE](_ => 0);
      outbuff := new byte[BLKSIZE + 4](_ => 0);
      count := new nat[SYMBOLS](_ => 0);
      heap := new Entry[HEAPSIZE](_ => Entry(0, 0));
      parent := new nat[NODES](_ => 0);
      length := new nat[SYMBOLS](_ => 0);
      bits := new nat[SYMBOLS](_ => 0);
      levcount := new nat[NODES](_ => 0);
    }

    /** One read of the input: a whole block, or what is left of the file. */
    method Read() returns (k: nat)
      requires Valid() && offset <= |infile|
      modifies this`offset, inbuff
      ensures offset == old(offset) + k <= |infile| && k <= BLKSIZE
      ensures k == 0 <==> old(offset) == |infile|
      ensures inbuff[..k] == infile[old(offset)..offset]
    {
      k := if |infile| - offset < BLKSIZE then |infile| - offset else BLKSIZE;
      forall i | 0 <= i < k {
        inbuff[i] := infile[offset + i];
      }
      offset := offset + k;
    }

    /** Counts the bytes of the file, each one twice. */
    method Input()
      requires Valid() && offset == 0
      modifies this`offset, inbuff, count
      ensures offset == |infile| && Counts(count[..], infile)
    {
      hide Counts;
      ClearCounts();
      assert infile[..0] == [];
      var i: nat := Read();
      while i > 0
        invariant offset <= |infile| && i <= BLKSIZE && i <= offset && (i == 0 ==> offset == |infile|)
        invariant inbuff[..i] == infile[offset - i..offset]
        invariant Counts(count[..], infile[..offset - i])
        decreases |infile| - offset + i
      {
        CountBlock(i, infile[..offset - i]);
        assert infile[..offset - i] + inbuff[..i] == infile[..offset];
        i := Read();
      }
      assert infile[..offset] == infile;
    }

    method ClearCounts()
      requires Valid()
      modifies count
      ensures Counts(count[..], [])
    {
      var i: nat := 0;
      while i < END
        invariant 0 <= i <= END
        invariant forall c :: 0 <= c < i ==> count[c] == 0
      {
        count[i] := 0;
        i := i + 1;
      }
    }

    /** The inner loop of input: the block is counted from its end. */
    method CountBlock(size: nat, ghost before: seq<byte>)
      requires Valid() && size <= BLKSIZE && Counts(count[..], before)
      modifies count
      ensures Counts(count[..], before + inbuff[..size])
    {
      ghost var block := inbuff[..size];
      var i := size;
      assert before + block[size..] == before;
      while i > 0
        invariant 0 <= i <= size && inbuff[..size] == block
        invariant Counts(count[..], before + block[i..])
      {
        i := i - 1;
        CountStep(count[..], before, block, i);
        ghost var cnt := count[..];
        count[inbuff[i]] := count[inbuff[i]] + 2;
        assert count[..] == cnt[block[i] := cnt[block[i]] + 2];
      }
      assert before + block[0..] == before + block;
    }

    /** One heap entry for each byte value that occurs, and one for END. */
    method CollectHeap()
      requires Valid() && Counts(count[..], infile) && Rising(parent[..])
      modifies this`diffbytes, this`insize, this`n, count, parent, heap
      ensures count[..] == Weights(infile)[..SYMBOLS]
      ensures n == |Symbols(infile)| <= SYMBOLS && diffbytes == n - 1 && insize == 2 * |infile| + 1
      ensures HeapHolds(Contents(heap[..], n), Symbols(infile), Weights(infile))
      ensures Rising(parent[..]) && AbsentFree(parent[..], {})
    {
      hide Collected, HeapHolds, Contents, Rising, Sum;
      diffbytes := -1;
      count[END] := 1;
      insize, n := 0, 0;
      ghost var w: seq<nat> := Weights(infile);
      assert count[..] == w[..SYMBOLS];
      ghost var S: set<nat> := {};
      var i: int := END;
      CollectNone(heap[..], w);
      while i >= 0
        invariant -1 <= i <= END && Collected(heap[..], n, S, w, i, insize) && diffbytes == n - 1
        invariant count[..] == w[..SYMBOLS]
        invariant Rising(parent[..]) && forall c :: i < c < SYMBOLS ==> parent[c] == 0
      {
        RisingClear(parent[..], i);
        ghost var p := parent[..];
        parent[i] := 0;
        assert parent[..] == p[i := 0];
        assert count[i] == count[..][i] == w[i];
        if count[i] > 0 {
          CollectTake(heap[..], n, S, w, i, insize);
          ghost var h := heap[..];
          diffbytes := diffbytes + 1;
          insize := insize + count[i];
          n := n + 1;
          heap[n] := Entry(count[i], i);
          assert heap[..] == h[n := Entry(w[i], i)];
          S := S + {i};
        } else {
          CollectSkip(heap[..], n, S, w, i, insize);
        }
        i := i - 1;
      }
      CollectedAll(heap[..], n, S, infile, insize);
    }

    /** Bottom-up construction of the heap. */
    method MakeHeap()
      requires Valid() && n < HEAPSIZE
      modifies heap
      ensures HeapFrom(heap[..], n, 1)
      ensures Contents(heap[..], n) == old(Contents(heap[..], n))
    {
      var i := n / 2;
      while i >= 1
        invariant 0 <= i <= n / 2
        invariant HeapFrom(heap[..], n, i + 1)
        invariant Contents(heap[..], n) == old(Contents(heap[..], n))
      {
        Heapify(heap, n, i);
        i := i - 1;
      }
    }

    /** Merges the two lightest roots until one is left. */
    method BuildTree(ghost S0: set<nat>, ghost w0: seq<nat>) returns (ghost t: HuffmanTree.Tree)
      requires Valid() && Rising(parent[..]) && |w0| == NODES && 1 <= n == |S0| <= SYMBOLS
      requires forall c :: c in S0 ==> c < SYMBOLS
      requires AbsentFree(parent[..], {})
      requires HeapFrom(heap[..], n, 1) && HeapHolds(Contents(heap[..], n), S0, w0)
      modifies this`n, this`lastnode, this`inc, heap, parent
      ensures Huffman(t, w0) && HuffmanTree.Leaves(t) == S0
      ensures Rising(parent[..]) && Encodes(parent[..], t) && t.id < NODES && parent[t.id] == 0
      ensures AbsentFree(parent[..], S0)
    {
      hide Grown, HeapHolds, HeapFrom, Rising, AbsentFree, Merging, Huffman;
      ghost var F := Start(S0, w0, parent[..]);
      ghost var n0 := n;
      StartMerging(heap[..], n, S0, w0, parent[..]);
      AbsentMore(parent[..], S0);
      lastnode := END;
      while n > 1
        invariant Merging(heap[..], n, F, S0, w0, 1) && n >= 1
        invariant lastnode == F.last && lastnode + n == END + n0 && F.parent == parent[..]
        invariant Rising(parent[..]) && AbsentFree(parent[..], S0)
        invariant if lastnode == END then AbsentFree(parent[..], {}) else lastnode in F.trees
      {
        F := MergeStep(F, S0, w0);
      }
      LastRoot(heap[..], F, S0, w0);
      t := F.trees[heap[1].node];
      parent[lastnode] := 0;
      assert parent[..] == F.parent[lastnode := 0];
    }

    /** One turn of the loop that builds the tree. */
    method MergeStep(ghost F: Forest, ghost S0: set<nat>, ghost w0: seq<nat>) returns (ghost G: Forest)
      requires Valid() && n > 1 && Merging(heap[..], n, F, S0, w0, 1)
      requires END <= lastnode == F.last && lastnode + 1 < NODES && F.parent == parent[..]
      requires Rising(parent[..]) && AbsentFree(parent[..], S0)
      modifies this`n, this`lastnode, this`inc, heap, parent
      ensures n == old(n) - 1 && lastnode == old(lastnode) + 1 == G.last && lastnode in G.trees
      ensures Merging(heap[..], n, G, S0, w0, 1) && G.parent == parent[..]
      ensures Rising(parent[..]) && AbsentFree(parent[..], S0)
    {
      hide Grown, HeapHolds, HeapFrom, Rising, AbsentFree, Merging, Rest;
      ghost var x := TakeLightest(F, S0, w0);
      G := JoinLightest(F, S0, w0, x);
    }

    /** First half of a turn: the lightest root x leaves the heap and gets its parent. */
    method TakeLightest(ghost F: Forest, ghost S0: set<nat>, ghost w0: seq<nat>) returns (ghost x: nat)
      requires Valid() && n > 1 && Merging(heap[..], n, F, S0, w0, 1)
      requires END <= lastnode == F.last && lastnode + 1 < NODES && F.parent == parent[..]
      requires Rising(parent[..]) && AbsentFree(parent[..], S0)
      modifies this`n, this`lastnode, this`inc, heap, parent
      ensures n == old(n) - 1 < HEAPSIZE && lastnode == F.last + 1
      ensures x < NODES == |F.w| == |F.parent| && inc == F.w[x] && Rest(heap[..], n, F, S0, w0, x, 1)
      ensures parent[..] == F.parent[x := lastnode]
      ensures Rising(parent[..]) && AbsentFree(parent[..], S0)
    {
      hide Grown, HeapHolds, HeapFrom, Rising, AbsentFree, Merging, Rest;
      ghost var h := heap[..];
      TakeRoot(h, n, F, S0, w0);
      x := heap[1].node;
      RootIsSymbol(F, S0, w0, x);
      RisingUpdate(F.parent, x, F.last + 1);
      AbsentUpdate(F.parent, S0, x, F.last + 1);
      lastnode := lastnode + 1;
      parent[heap[1].node] := lastnode;
      assert parent[..] == F.parent[x := lastnode];
      inc := heap[1].count;
      heap[1] := heap[n];
      n := n - 1;
      ghost var g := heap[..];
      assert g == h[1 := h[n + 1]];
      Heapify(heap, n, 1);
      RestSifted(g, heap[..], n, F, S0, w0, x);
    }

    /** Second half: the next lightest root y gets the same parent, which takes its place in the heap. */
    method JoinLightest(ghost F: Forest, ghost S0: set<nat>, ghost w0: seq<nat>, ghost x: nat) returns (ghost G: Forest)
      requires Valid() && 1 <= n < HEAPSIZE && END < lastnode == F.last + 1 < NODES
      requires x < NODES == |F.w| == |F.parent| && inc == F.w[x] && Rest(heap[..], n, F, S0, w0, x, 1)
      requires parent[..] == F.parent[x := lastnode]
      requires Rising(parent[..]) && AbsentFree(parent[..], S0)
      modifies heap, parent
      ensures lastnode == G.last && lastnode in G.trees
      ensures Merging(heap[..], n, G, S0, w0, 1) && G.parent == parent[..]
      ensures Rising(parent[..]) && AbsentFree(parent[..], S0)
    {
      hide Grown, HeapHolds, HeapFrom, Rising, AbsentFree, Merging, Rest;
      ghost var g := heap[..];
      ghost var p: seq<nat> := parent[..];
      ReplaceRoot(g, n, F, S0, w0, x);
      ghost var y := heap[1].node;
      RootIsSymbol(F, S0, w0, y);
      RisingUpdate(p, y, lastnode);
      AbsentUpdate(p, S0, y, lastnode);
      parent[heap[1].node] := lastnode;
      assert parent[..] == p[y := lastnode];
      heap[1] := Entry(heap[1].count + inc, lastnode);
      ghost var k := heap[..];
      assert k == g[1 := Entry(g[1].count + F.w[x], lastnode)];
      Heapify(heap, n, 1);
      G := Merge(F, x, y);
      Sifted(k, heap[..], n, G, S0, w0);
    }

    /** The loop that counts the steps from a symbol to the root. */
    method ClimbFrom(i: nat) returns (c: nat)
      requires Valid() && Rising(parent[..]) && i < SYMBOLS
      ensures c == Climb(parent[..], i) < NODES
    {
      ghost var p := parent[..];
      c := 0;
      var q: nat := parent[i];
      while q != 0
        invariant q < NODES
        invariant if q == 0 then c == Climb(p, i) else c + 1 + Climb(p, q) == Climb(p, i)
        decreases if q == 0 then 0 else NODES - q
      {
        c := c + 1;
        q := parent[q];
      }
      ClimbBound(p, i);
    }

    method ClearLevels()
      requires Valid()
      modifies levcount
      ensures forall j :: 1 <= j <= MAXLEV ==> levcount[j] == 0
    {
      var i := 1;
      while i <= 24
        invariant 1 <= i <= 25
        invariant forall j :: 1 <= j < i ==> levcount[j] == 0
      {
        levcount[i] := 0;
        i := i + 1;
      }
    }

    /** The depth of each symbol becomes its length; returns the encoded length in bits, as far as a long holds it. */
    method AssignLengths(ghost t: HuffmanTree.Tree) returns (bitsout: int)
      requires Valid() && Rising(parent[..]) && Encodes(parent[..], t)
      requires HuffmanTree.Proper(t) && HuffmanTree.Within(t, SYMBOLS)
      requires t.id < NODES && parent[t.id] == 0 && AbsentFree(parent[..], HuffmanTree.Leaves(t))
      modifies this`maxlev, length, levcount
      ensures DepthsOf(t, length[..]) && maxlev == HuffmanTree.Height(t)
      ensures forall i :: 1 <= i <= MAXLEV ==> levcount[i] == |At(length[..], i)|
      ensures bitsout == Long(BitsOut(length[..], Halves(count[..])))
    {
      hide At, BitsOut, IsMax, DepthsOf, HuffmanTree.Height, Climbs, Halves, Rising, Encodes, Assigned;
      ghost var p := parent[..];
      ghost var lens := Climbs(p);
      ghost var cnt := Halves(count[..]);
      ClimbsAreDepths(p, t);
      maxlev := 0;
      ClearLevels();
      NothingAssigned(lens, cnt);
      bitsout := 0;
      var i := 0;
      while i <= END
        invariant 0 <= i <= SYMBOLS && Assigned(i, bitsout, lens, cnt)
        invariant parent[..] == p && Halves(count[..]) == cnt
      {
        bitsout := AssignLength(i, bitsout, lens, cnt);
        i := i + 1;
      }
      AllAssigned(bitsout, lens, cnt);
      MaxIsHeight(maxlev, lens, t);
    }

    /** The symbols below i have their lengths. */
    ghost predicate Assigned(i: nat, bitsout: int, lens: seq<nat>, cnt: seq<nat>)
      reads this`maxlev, length, levcount
    {
      && Valid() && |lens| == |cnt| == SYMBOLS && i <= SYMBOLS && length[..i] == lens[..i]
      && (forall j :: 1 <= j <= MAXLEV ==> levcount[j] == |At(lens[..i], j)|)
      && bitsout == Long(BitsOut(lens[..i], cnt)) && IsMax(maxlev, lens[..i])
    }

    lemma NothingAssigned(lens: seq<nat>, cnt: seq<nat>)
      requires Valid() && |lens| == |cnt| == SYMBOLS && maxlev == 0
      requires forall j :: 1 <= j <= MAXLEV ==> levcount[j] == 0
      ensures Assigned(0, 0, lens, cnt)
    {
      NoSymbols(lens[..0], cnt);
    }

    lemma AllAssigned(bitsout: int, lens: seq<nat>, cnt: seq<nat>)
      requires Assigned(SYMBOLS, bitsout, lens, cnt)
      ensures length[..] == lens && bitsout == Long(BitsOut(lens, cnt)) && IsMax(maxlev, lens)
      ensures forall j :: 1 <= j <= MAXLEV ==> levcount[j] == |At(lens, j)|
    {
      assert lens[..SYMBOLS] == lens && length[..SYMBOLS] == length[..];
    }

    /** One symbol: its length, and what it adds to the level and the sum. */
    method AssignLength(i: nat, bitsout0: int, ghost lens: seq<nat>, ghost cnt: seq<nat>) returns (bitsout: int)
      requires Valid() && i < SYMBOLS && Rising(parent[..]) && lens == Climbs(parent[..]) && cnt == Halves(count[..])
      requires Assigned(i, bitsout0, lens, cnt)
      modifies this`maxlev, length, levcount
      ensures Assigned(i + 1, bitsout, lens, cnt)
    {
      hide At, BitsOut, IsMax, Rising;
      var c := ClimbFrom(i);
      OneMoreSymbol(lens, cnt, i, c);
      levcount[c] := levcount[c] + 1;
      length[i] := c;
      if c > maxlev {
        maxlev := c;
      }
      LongAdd(BitsOut(lens[..i], cnt), c * cnt[i]);
      bitsout := Long(bitsout0 + c * (count[i] / 2));
    }

    /** The code words of level i: consecutive multiples of inc from mask0 on. */
    method AssignLevel(i: nat, mask0: nat) returns (mask: nat)
      requires Valid() && 0 < i <= maxlev <= MAXLEV && inc == Pow2(MAXLEV - i)
      requires mask0 == Inner(length[..], maxlev, i) * inc
      modifies bits
      ensures mask == (Inner(length[..], maxlev, i) + |At(length[..], i)|) * inc
      ensures forall c :: 0 <= c < SYMBOLS && length[c] == i ==>
                bits[c] == CodeValue(length[..], maxlev, c) * Pow2(MAXLEV - i)
      ensures forall c :: 0 <= c < SYMBOLS && length[c] != i ==> bits[c] == old(bits[c])
    {
      hide Pow2, At, Inner, Scaled, CodeValue;
      ghost var lens, I := length[..], Inner(length[..], maxlev, i);
      mask := mask0;
      var c := 0;
      AtNone(lens[..0], i);
      ScaledIs(I, inc);
      while c <= END
        invariant 0 <= c <= SYMBOLS && length[..] == lens
        invariant mask == Scaled(I + |At(lens[..c], i)|, inc)
        invariant forall k :: 0 <= k < c && lens[k] == i ==> bits[k] == Scaled(CodeValue(lens, maxlev, k), inc)
        invariant forall k :: 0 <= k < SYMBOLS && (lens[k] != i || k >= c) ==> bits[k] == old(bits[k])
      {
        AtNext(lens, c, i);
        if length[c] == i {
          CodeHere(lens, maxlev, c);
          bits[c] := mask;
          ScaledNext(I + |At(lens[..c], i)|, inc);
          mask := mask + inc;
        }
        c := c + 1;
      }
      assert lens[..SYMBOLS] == lens;
      ScaledIs(I + |At(lens, i)|, inc);
      forall k | 0 <= k < SYMBOLS && lens[k] == i
        ensures bits[k] == CodeValue(lens, maxlev, k) * Pow2(MAXLEV - i)
      {
        ScaledIs(CodeValue(lens, maxlev, k), inc);
      }
    }

    lemma CodeHere(lens: seq<nat>, m: nat, c: nat)
      requires c < |lens| && lens[c] <= m
      ensures CodeValue(lens, m, c) == Inner(lens, m, lens[c]) + |At(lens[..c], lens[c])|
    {
    }

    /** The code words of all levels, from the deepest one up. */
    method AssignCodes()
      requires Valid() && maxlev <= MAXLEV && (maxlev > 0 ==> FullCode(length[..], maxlev))
      modifies this`inc, bits
      ensures maxlev > 0 ==> forall c :: 0 <= c < SYMBOLS && length[c] > 0 ==>
                bits[c] == CodeValue(length[..], maxlev, c) * Pow2(MAXLEV - length[c])
    {
      hide Pow2, At, Inner, FullCode, CodeValue, ClearBit;
      ghost var lens, m := length[..], maxlev;
      if maxlev == 0 { return; }
      inc := 0x100_0000;
      inc := inc / Pow2(maxlev);
      StartIncrement(m);
      BottomLevel(lens, m);
      var mask: nat := 0;
      var i := maxlev;
      LongestFirst(lens, m);
      while i > 0
        invariant 0 <= i <= m && inc == Pow2(MAXLEV - i) && length[..] == lens
        invariant mask == Inner(lens, m, i) * inc
        invariant forall c :: 0 <= c < SYMBOLS && lens[c] > i ==>
                    bits[c] == CodeValue(lens, m, c) * Pow2(MAXLEV - lens[c])
      {
        mask := AssignLevel(i, mask);
        LevelDone(lens, m, i, inc);
        mask := ClearBit(mask, inc);
        inc := inc * 2;
        i := i - 1;
      }
    }

    /** Two magic bytes, then the size of the file, most significant byte first. */
    method WriteLength()
      requires Valid()
      modifies outbuff
      ensures outbuff[..6] == [31, 30] + PackFormat.BigEndian(insize)
    {
      outbuff[0] := 31;
      outbuff[1] := 30;
      var temp := insize;
      var i := 5;
      while i >= 2
        invariant 1 <= i <= 5 && outbuff[0] == 31 && outbuff[1] == 30
        invariant i <= 4 ==> outbuff[5] == insize % 256
        invariant i <= 3 ==> outbuff[4] == insize / 256 % 256
        invariant i <= 2 ==> outbuff[3] == insize / 256 / 256 % 256
        invariant i <= 1 ==> outbuff[2] == insize / 256 / 256 / 256 % 256
        invariant temp == if i == 5 then insize else if i == 4 then insize / 256
                          else if i == 3 then insize / 256 / 256 else if i == 2 then insize / 256 / 256 / 256
                          else insize / 256 / 256 / 256 / 256
      {
        outbuff[i] := temp % 256;
        temp := temp / 256;
        i := i - 1;
      }
    }

    /** One more byte in the buffer, where s is what has been written from base on. */
    method Append(outp: nat, x: byte, ghost base: nat, ghost s: seq<byte>)
      requires Valid() && base <= outp < outbuff.Length && outbuff[base..outp] == s
      modifies outbuff
      ensures outbuff[base..outp + 1] == s + [x] && outbuff[..base] == old(outbuff[..base])
    {
      outbuff[outp] := x;
    }

    /** The number of levels and the count of each. */
    method WriteCounts() returns (outp: nat)
      requires Valid() && maxlev <= MAXLEV
      requires forall i :: 1 <= i <= MAXLEV ==> levcount[i] == |At(length[..], i)|
      modifies outbuff
      ensures outbuff[..6] == old(outbuff[..6])
      ensures outp == 7 + (if maxlev == 0 then 1 else maxlev)
      ensures outbuff[6..outp] == [maxlev] + PackFormat.CountBytes(length[..], maxlev, (levcount[maxlev] + 254) % 256)
    {
      hide At, PackFormat.CountBytes;
      Append(6, maxlev, 6, []);
      assert outbuff[6..7] == [maxlev];
      outp := WriteUpperCounts((levcount[maxlev] + 254) % 256);
      WriteLastCount(outp, (levcount[maxlev] + 254) % 256);
      outp := outp + 1;
    }

    /** The count of the deepest level. */
    method WriteLastCount(outp: nat, last: byte)
      requires Valid() && maxlev <= MAXLEV
      requires
        var bytes := PackFormat.CountBytes(length[..], maxlev, last);
        outp == 6 + |bytes| && outbuff[6..outp] == [maxlev] + bytes[..|bytes| - 1]
      modifies outbuff
      ensures outbuff[..6] == old(outbuff[..6])
      ensures outbuff[6..outp + 1] == [maxlev] + PackFormat.CountBytes(length[..], maxlev, last)
    {
      hide PackFormat.CountBytes;
      ghost var bytes := PackFormat.CountBytes(length[..], maxlev, last);
      PackFormat.CountBytesLast(length[..], maxlev, last);
      assert [maxlev] + bytes == [maxlev] + bytes[..|bytes| - 1] + [last];
      Append(outp, last, 6, [maxlev] + bytes[..|bytes| - 1]);
    }

    /** The counts of the levels above the deepest one. */
    method WriteUpperCounts(ghost last: byte) returns (outp: nat)
      requires Valid() && maxlev <= MAXLEV && outbuff[6..7] == [maxlev]
      requires forall i :: 1 <= i <= MAXLEV ==> levcount[i] == |At(length[..], i)|
      modifies outbuff
      ensures outbuff[..6] == old(outbuff[..6])
      ensures
        var bytes := PackFormat.CountBytes(length[..], maxlev, last);
        outp == 6 + |bytes| && outbuff[6..outp] == [maxlev] + bytes[..|bytes| - 1]
    {
      hide At, PackFormat.CountBytes;
      ghost var lens := length[..];
      ghost var bytes := PackFormat.CountBytes(lens, maxlev, last);
      outp := 7;
      var i := 1;
      assert [maxlev] + bytes[..0] == [maxlev];
      while i < maxlev
        invariant 1 <= i <= (if maxlev == 0 then 1 else maxlev) && outp == 6 + i
        invariant length[..] == lens && outbuff[..6] == old(outbuff[..6])
        invariant outbuff[6..outp] == [maxlev] + bytes[..i - 1]
      {
        PackFormat.CountBytesSnoc(lens, maxlev, last, i - 1);
        assert [maxlev] + bytes[..i] == [maxlev] + bytes[..i - 1] + [levcount[i] % 256];
        Append(outp, levcount[i] % 256, 6, [maxlev] + bytes[..i - 1]);
        outp := outp + 1;
        i := i + 1;
      }
    }

    /** The byte values in code order, level by level. */
    method WriteCharacters(outp0: nat) returns (outp: nat)
      requires Valid() && maxlev <= MAXLEV && outp0 <= 7 + MAXLEV
      modifies outbuff
      ensures outp0 <= outp <= outp0 + END && outbuff[..outp0] == old(outbuff[..outp0])
      ensures outbuff[outp0..outp] == PackFormat.AsBytes(PackFormat.UpTo(length[..END], maxlev))
    {
      hide At;
      ghost var lens: seq<nat> := length[..END];
      outp := outp0;
      var i := 1;
      while i <= maxlev
        invariant 1 <= i <= maxlev + 1 && length[..END] == lens
        invariant outp == outp0 + |PackFormat.UpTo(lens, i - 1)| <= outp0 + END
        invariant outbuff[..outp0] == old(outbuff[..outp0])
        invariant outbuff[outp0..outp] == PackFormat.AsBytes(PackFormat.UpTo(lens, i - 1))
      {
        ghost var before := PackFormat.UpTo(lens, i - 1);
        var c := 0;
        AtNone(lens[..0], i);
        assert before + At(lens[..0], i) == before;
        while c < END
          invariant 0 <= c <= END && length[..END] == lens
          invariant outp == outp0 + |before + At(lens[..c], i)| <= outp0 + END
          invariant outbuff[..outp0] == old(outbuff[..outp0])
          invariant outbuff[outp0..outp] == PackFormat.AsBytes(before + At(lens[..c], i))
        {
          AtNext(lens, c, i);
          RoundTrip.LevelsFit(lens, i, c + 1);
          assert length[c] == lens[c];
          if length[c] == i {
            PackFormat.AsBytesSnoc(before + At(lens[..c], i), c);
            assert before + At(lens[..c + 1], i) == before + At(lens[..c], i) + [c];
            Append(outp, c, outp0, PackFormat.AsBytes(before + At(lens[..c], i)));
            outp := outp + 1;
          }
          c := c + 1;
        }
        assert lens[..END] == lens;
        i := i + 1;
      }
    }

    /** The header and the dictionary. */
    method WriteHeader() returns (outp: nat)
      requires Valid() && maxlev <= MAXLEV
      requires forall i :: 1 <= i <= MAXLEV ==> levcount[i] == |At(length[..], i)|
      modifies outbuff
      ensures outp < BLKSIZE
      ensures outbuff[..outp] == PackFormat.Header(length[..], maxlev, (levcount[maxlev] + 254) % 256, insize)
    {
      hide At, PackFormat.UpTo, PackFormat.CountBytes, PackFormat.BigEndian, PackFormat.AsBytes;
      WriteLength();
      var outp1 := WriteCounts();
      ghost var head := outbuff[..outp1];
      outp := WriteCharacters(outp1);
      assert length[..][..END] == length[..END];
      assert outbuff[..outp] == head + outbuff[outp1..outp];
      assert head == head[..6] + head[6..outp1];
    }

    /** The byte being filled: nothing yet when all eight bits are left. */
    ghost function Partial(outp: nat, bitsleft: nat): byte
      requires outp < outbuff.Length
      reads outbuff
    {
      if bitsleft == 8 then 0 else outbuff[outp]
    }

    /** The inner part of the output loop: the code word of c goes into the buffer. */
    method EmitCode(c: nat, outp0: nat, bl: nat, ghost init: seq<byte>, ghost E: BitString)
      returns (outp: nat, bitsleft: int)
      requires Valid() && maxlev <= MAXLEV && FullCode(length[..], maxlev) && c < SYMBOLS && 1 <= length[c]
      requires bits[c] == CodeValue(length[..], maxlev, c) * Pow2(MAXLEV - length[c])
      requires outp0 < BLKSIZE && bl <= 8
      requires BytesToBits(init + [Partial(outp0, bl)]) == E + Zeros(bl)
      modifies outbuff
      ensures outp0 <= outp <= outp0 + 3 && 0 <= bitsleft < 8
      ensures outbuff[..outp0] == old(outbuff[..outp0])
      ensures BytesToBits(init + outbuff[outp0..outp + 1]) == E + Code(length[..], maxlev, c) + Zeros(bitsleft)
    {
      hide Pow2, FullCode, CodeValue, BytesToBits, Or, Bits, MaskByte;
      ghost var L, v := length[c], CodeValue(length[..], maxlev, c);
      ghost var p: byte := Partial(outp0, bl);
      LongestFirst(length[..], maxlev);
      CodeValueFits(length[..], maxlev, c);
      NoOverflow(v, L, bl);
      var mask := ShiftLeft32(bits[c], bl);
      outp, bitsleft := EmitMask(mask, length[c], outp0, bl);
      Emit(init, p, E, v, L, bl, outp - outp0, mask);
      assert init + outbuff[outp0..outp + 1] == Emitted(init, p, mask, outp - outp0);
    }

    /** The long goes into the buffer, from its first byte on. */
    method EmitMask(mask: nat, len: nat, outp0: nat, bl: nat) returns (outp: nat, bitsleft: int)
      requires Valid() && outp0 < BLKSIZE && bl <= 8 && 1 <= len <= 24
      modifies outbuff
      ensures outp0 <= outp <= outp0 + 3 && 0 <= bitsleft < 8 && bitsleft == bl - len + 8 * (outp - outp0)
      ensures outbuff[..outp0] == old(outbuff[..outp0])
      ensures outbuff[outp0..outp + 1] ==
                [Or(old(Partial(outp0, bl)), MaskByte(mask, 0))] + MaskBytes(mask, 1, 1 + outp - outp0)
    {
      hide Or, MaskByte;
      OrWithZero(MaskByte(mask, 0));
      bitsleft := bl;
      if bitsleft == 8 {
        outbuff[outp0] := MaskByte(mask, 0);
      } else {
        outbuff[outp0] := Or(outbuff[outp0], MaskByte(mask, 0));
      }
      bitsleft := bitsleft - len;
      ghost var start := outbuff[..outp0 + 1];
      outp, bitsleft := Spill(mask, outp0, bitsleft);
      assert outbuff[outp0..outp + 1] == [outbuff[outp0]] + outbuff[outp0 + 1..outp + 1];
      assert outbuff[outp0] == start[outp0];
      assert outbuff[..outp0] == start[..outp0];
    }

    /** The remaining bytes of the long, until the code word is complete. */
    method Spill(mask: nat, outp0: nat, left0: int) returns (outp: nat, bitsleft: int)
      requires Valid() && outp0 < BLKSIZE && -24 <= left0 < 8
      modifies outbuff
      ensures outp0 <= outp <= outp0 + 3 && 0 <= bitsleft < 8 && bitsleft == left0 + 8 * (outp - outp0)
      ensures outbuff[..outp0 + 1] == old(outbuff[..outp0 + 1])
      ensures outbuff[outp0 + 1..outp + 1] == MaskBytes(mask, 1, 1 + outp - outp0)
    {
      outp, bitsleft := outp0, left0;
      var q := 1;
      while bitsleft < 0
        invariant bitsleft == left0 + 8 * (q - 1) < 8 && 1 <= q <= 4 && outp == outp0 + q - 1
        invariant outbuff[..outp0 + 1] == old(outbuff[..outp0 + 1])
        invariant outbuff[outp0 + 1..outp + 1] == MaskBytes(mask, 1, q)
        decreases -bitsleft
      {
        outp := outp + 1;
        outbuff[outp] := MaskByte(mask, q);
        q := q + 1;
        bitsleft := bitsleft + 8;
      }
    }

    /** inleft unread bytes of the block start at inbuff[inp]. */
    ghost predicate Buffered(inleft: nat, inp: nat)
      reads this`offset, this`infile, inbuff
    {
      && inbuff.Length == BLKSIZE && inleft <= offset <= |infile| && inp + inleft <= BLKSIZE
      && inbuff[inp..inp + inleft] == infile[offset - inleft..offset]
    }

    /** The next symbol of the text: a byte, or the end mark once the file is exhausted. */
    method NextSymbol(inleft0: nat, inp0: nat) returns (c: nat, inleft: int, inp: nat)
      requires Valid() && Buffered(inleft0, inp0)
      modifies this`offset, inbuff
      ensures old(offset) - inleft0 == |infile| ==> c == END
      ensures old(offset) - inleft0 < |infile| ==>
                inleft >= 0 && Buffered(inleft, inp)
                && c == infile[old(offset) - inleft0] && offset - inleft == old(offset) - inleft0 + 1
    {
      inleft, inp := inleft0, inp0;
      if inleft <= 0 {
        inp := 0;
        inleft := Read();
      }
      inleft := inleft - 1;
      if inleft < 0 {
        c := END;
      } else {
        assert inbuff[inp] == inbuff[inp..inp + inleft + 1][0];
        c := inbuff[inp];
        assert inbuff[inp + 1..inp + 1 + inleft] == inbuff[inp..inp + 1 + inleft][1..];
        inp := inp + 1;
      }
    }

    /** A full block is written and what lies beyond it moves to the front. */
    method Flush(outp0: nat) returns (outp: nat)
      requires Valid() && outp0 < BLKSIZE + 4
      modifies this`outfile, this`outsize, outbuff
      ensures outp == if outp0 >= BLKSIZE then outp0 - BLKSIZE else outp0
      ensures outfile + outbuff[..outp] == old(outfile) + old(outbuff[..outp0])
      ensures outbuff[outp] == old(outbuff[outp0])
      ensures outsize - |outfile| == old(outsize) - old(|outfile|)
    {
      outp := outp0;
      if outp >= BLKSIZE {
        outfile := outfile + outbuff[..BLKSIZE];
        outbuff[0], outbuff[1], outbuff[2], outbuff[3] :=
          outbuff[BLKSIZE], outbuff[BLKSIZE + 1], outbuff[BLKSIZE + 2], outbuff[BLKSIZE + 3];
        outp := outp - BLKSIZE;
        outsize := outsize + BLKSIZE;
      }
    }

    /** head, then the bits E, have been written or stand in the buffer; bitsleft bits of the last byte are free. */
    ghost predicate Stream(head: seq<byte>, init: seq<byte>, E: BitString, outp: nat, bitsleft: nat)
      reads this`outfile, this`outsize, outbuff
    {
      && outbuff.Length == BLKSIZE + 4 && outp < BLKSIZE && bitsleft <= 8 && outsize == |outfile|
      && outfile + outbuff[..outp] == head + init
      && BytesToBits(init + [Partial(outp, bitsleft)]) == E + Zeros(bitsleft)
    }

    /** One code word and, when a block is full, one write. */
    method OutputCode(c: nat, outp0: nat, bl: nat, ghost head: seq<byte>, ghost init0: seq<byte>, ghost E: BitString)
      returns (outp: nat, bitsleft: nat, ghost init: seq<byte>)
      requires Valid() && maxlev <= MAXLEV && FullCode(length[..], maxlev) && c < SYMBOLS && 1 <= length[c]
      requires bits[c] == CodeValue(length[..], maxlev, c) * Pow2(MAXLEV - length[c])
      requires Stream(head, init0, E, outp0, bl)
      modifies this`outfile, this`outsize, outbuff
      ensures Stream(head, init, E + Code(length[..], maxlev, c), outp, bitsleft) && bitsleft < 8
    {
      hide Pow2, FullCode, CodeValue, BytesToBits, Code;
      ghost var before := outfile + outbuff[..outp0];
      var left: int;
      outp, left := EmitCode(c, outp0, bl, init0, E);
      bitsleft := left;
      ghost var added, p := outbuff[outp0..outp], outbuff[outp];
      init := init0 + added;
      assert init + [p] == init0 + outbuff[outp0..outp + 1];
      assert outfile + outbuff[..outp] == head + init by {
        assert outbuff[..outp] == outbuff[..outp0] + added;
        Reassociate(outfile, outbuff[..outp0], added);
        Reassociate(head, init0, added);
      }
      outp := Flush(outp);
    }

    /** The code is assigned and has a word for every symbol of the text. */
    ghost predicate Coded(lens: seq<nat>, m: nat, text: seq<byte>)
      reads this`maxlev, this`infile, length, bits
    {
      && |lens| == length.Length == bits.Length == SYMBOLS && length[..] == lens && maxlev == m && infile == text
      && 0 < m <= MAXLEV && FullCode(lens, m) && lens[END] > 0
      && (forall k :: 0 <= k < |text| ==> lens[text[k]] > 0)
      && forall c :: 0 <= c < SYMBOLS && lens[c] > 0 ==>
           bits[c] == CodeValue(lens, m, c) * Pow2(MAXLEV - lens[c])
    }

    /** One turn of the output loop: the next symbol is read and its code word written. */
    method OutputNext(outp0: nat, bl: nat, inleft0: nat, inp0: nat, ghost head: seq<byte>, ghost init0: seq<byte>,
                      ghost lens: seq<nat>, ghost m: nat, ghost text: seq<byte>, ghost k: nat)
      returns (c: nat, outp: nat, bitsleft: nat, inleft: int, inp: nat, ghost init: seq<byte>)
      requires Valid() && Coded(lens, m, text) && Buffered(inleft0, inp0) && k == offset - inleft0
      requires Stream(head, init0, PackFormat.Encode(lens, m, text[..k]), outp0, bl)
      modifies this`offset, this`outfile, this`outsize, inbuff, outbuff
      ensures bitsleft < 8 && k <= |text| && (c == END <==> k == |text|)
      ensures c == END ==>
                Stream(head, init, PackFormat.Encode(lens, m, text) + Code(lens, m, END), outp, bitsleft)
      ensures c != END ==>
                inleft >= 0 && Buffered(inleft, inp) && k + 1 == offset - inleft <= |text|
                && Stream(head, init, PackFormat.Encode(lens, m, text[..k + 1]), outp, bitsleft)
    {
      hide Pow2, FullCode, CodeValue, BytesToBits, Code, PackFormat.Encode, Zeros, Stream;
      c, inleft, inp := NextSymbol(inleft0, inp0);
      outp, bitsleft, init := OutputCode(c, outp0, bl, head, init0, PackFormat.Encode(lens, m, text[..k]));
      if k < |text| {
        PackFormat.EncodeNext(lens, m, text, k);
      } else {
        assert text[..k] == text;
      }
    }

    lemma Reassociate(a: seq<byte>, b: seq<byte>, c: seq<byte>)
      ensures a + (b + c) == (a + b) + c
    {
    }

    /** The packed file: header, dictionary, and the code words of the text. */
    method Output(ghost lens: seq<nat>, ghost m: nat, ghost text: seq<byte>)
      requires Valid() && outfile == [] && insize == |infile| && Coded(lens, m, text)
      requires forall i :: 1 <= i <= MAXLEV ==> levcount[i] == |At(length[..], i)|
      modifies this`offset, this`outfile, this`outsize, inbuff, outbuff
      ensures outfile == PackFormat.Header(lens, m, (levcount[m] + 254) % 256, |text|)
                         + Packed(PackFormat.Encode(lens, m, text) + Code(lens, m, END))
      ensures outsize == |outfile|
    {
      hide PackFormat.Header, Pow2, FullCode, CodeValue;
      var outp := WriteHeader();
      offset, outsize := 0, 0;
      OutputText(outp, outbuff[..outp], lens, m, text);
    }

    /** The code words of the text and of END, and the incomplete last block. */
    method OutputText(outp0: nat, ghost head: seq<byte>, ghost lens: seq<nat>, ghost m: nat, ghost text: seq<byte>)
      requires Valid() && outfile == [] && offset == outsize == 0 && Coded(lens, m, text) && |lens| == SYMBOLS
      requires outp0 < BLKSIZE && outbuff[..outp0] == head
      modifies this`offset, this`outfile, this`outsize, inbuff, outbuff
      ensures outfile == head + Packed(PackFormat.Encode(lens, m, text) + Code(lens, m, END))
      ensures outsize == |outfile|
    {
      hide Pow2, FullCode, CodeValue, BytesToBits, Code, At, PackFormat.Encode, Packed, Zeros, Stream, Coded, Valid;
      InputIs(lens, m, text);
      StreamStart(head, outp0);
      PackFormat.EmptyStream(lens, m, text);
      ghost var whole := PackFormat.Encode(lens, m, text) + Code(lens, m, END);
      ghost var init;
      var outp, bitsleft;
      outp, bitsleft, init := OutputSymbols(outp0, head, lens, m, text);
      StreamDone(head, init, whole, outp, bitsleft);
      if bitsleft < 8 {
        outp := outp + 1;
      }
      outfile := outfile + outbuff[..outp];
      outsize := outsize + outp;
    }

    /** The loop over the symbols, END being the last. */
    method OutputSymbols(outp0: nat, ghost head: seq<byte>, ghost lens: seq<nat>, ghost m: nat, ghost text: seq<byte>)
      returns (outp: nat, bitsleft: nat, ghost init: seq<byte>)
      requires Valid() && offset == 0 && Coded(lens, m, text) && |lens| == SYMBOLS
      requires Stream(head, [], PackFormat.Encode(lens, m, text[..0]), outp0, 8)
      modifies this`offset, this`outfile, this`outsize, inbuff, outbuff
      ensures bitsleft < 8 && Stream(head, init, PackFormat.Encode(lens, m, text) + Code(lens, m, END), outp, bitsleft)
    {
      hide Pow2, FullCode, CodeValue, BytesToBits, Code, At, PackFormat.Encode, Packed, Zeros, Stream, Coded, Valid,
        Buffered;
      InputIs(lens, m, text);
      NothingBuffered();
      init := [];
      outp, bitsleft := outp0, 8;
      ghost var k: nat := 0;
      var inleft: int, inp: nat, c: nat := 0, 0, 0;
      while c != END
        invariant Coded(lens, m, text) && k <= |text|
        invariant c != END ==> 0 <= inleft && Buffered(inleft, inp) && k == offset - inleft
        invariant c != END ==> Stream(head, init, PackFormat.Encode(lens, m, text[..k]), outp, bitsleft)
        invariant c == END ==>
                    bitsleft < 8
                    && Stream(head, init, PackFormat.Encode(lens, m, text) + Code(lens, m, END), outp, bitsleft)
        decreases |text| - k, if c == END then 0 else 1
      {
        c, outp, bitsleft, inleft, inp, init :=
          OutputNext(outp, bitsleft, inleft, inp, head, init, lens, m, text, k);
        if c != END {
          k := k + 1;
        }
      }
    }

    lemma NothingBuffered()
      requires Valid() && offset == 0
      ensures Buffered(0, 0)
    {
    }

    lemma InputIs(lens: seq<nat>, m: nat, text: seq<byte>)
      requires Valid() && Coded(lens, m, text)
      ensures infile == text && outbuff.Length == BLKSIZE + 4 && inbuff.Length == BLKSIZE
    {
    }

    lemma StreamStart(head: seq<byte>, outp: nat)
      requires outbuff.Length == BLKSIZE + 4 && outp < BLKSIZE && outfile == [] && outsize == 0
      requires outbuff[..outp] == head
      ensures Stream(head, [], [], outp, 8)
    {
      BytesSingle(0);
      BitsOfZero(8);
      assert [] + [Partial(outp, 8)] == [0];
      assert [] + Zeros(8) == Zeros(8);
    }

    lemma StreamDone(head: seq<byte>, init: seq<byte>, E: BitString, outp: nat, bitsleft: nat)
      requires Stream(head, init, E, outp, bitsleft) && bitsleft < 8
      ensures outp < BLKSIZE < outbuff.Length && outsize == |outfile|
      ensures outfile + outbuff[..outp + 1] == head + Packed(E)
    {
      var body := init + [outbuff[outp]];
      PackedUnique(E, body, bitsleft);
      assert outbuff[..outp + 1] == outbuff[..outp] + [outbuff[outp]];
      assert outfile + outbuff[..outp + 1] == (outfile + outbuff[..outp]) + [outbuff[outp]];
      assert head + body == (head + init) + [outbuff[outp]];
    }

    /** The forced empty file: the tree is the end mark alone, and its code word is empty. */
    method OutputEmpty()
      requires Valid() && outfile == [] && infile == [] && offset == 0 && insize == 0 && maxlev == 0
      requires forall i :: 1 <= i <= MAXLEV ==> levcount[i] == |At(length[..], i)|
      modifies this`offset, this`outfile, this`outsize, inbuff, outbuff
      ensures outfile == PackFormat.Header(length[..], 0, (levcount[0] + 254) % 256, 0)
      ensures outsize == |outfile|
    {
      var outp := WriteHeader();
      offset := 0;
      var inleft := Read();
      outbuff[outp] := MaskByte(ShiftLeft32(bits[END], 8), 0);
      outfile := outfile + outbuff[..outp];
      outsize := outp;
    }

    /** The counts, the heap and the tree. */
    method GrowTree() returns (ghost t: HuffmanTree.Tree)
      requires Valid() && n == |Symbols(infile)| <= SYMBOLS
      requires HeapHolds(Contents(heap[..], n), Symbols(infile), Weights(infile))
      requires Rising(parent[..]) && AbsentFree(parent[..], {})
      modifies this`n, this`lastnode, this`inc, heap, parent
      ensures TreeFor(t, infile) && HuffmanTree.Proper(t) && HuffmanTree.Within(t, SYMBOLS)
      ensures Rising(parent[..]) && Encodes(parent[..], t) && t.id < NODES && parent[t.id] == 0
      ensures AbsentFree(parent[..], HuffmanTree.Leaves(t))
    {
      hide AbsentFree, HeapHolds, HeapFrom, Optimal, Balanced;
      MakeHeap();
      assert END in Symbols(infile);
      t := BuildTree(Symbols(infile), Weights(infile));
    }

    /** The codes are assigned and the file is written. */
    method WriteFile(ghost t: HuffmanTree.Tree)
      requires Valid() && TreeFor(t, infile) && DepthsOf(t, length[..]) && maxlev == HuffmanTree.Height(t) <= MAXLEV
      requires forall i :: 1 <= i <= MAXLEV ==> levcount[i] == |At(length[..], i)|
      requires outfile == [] && insize == |infile| && offset == |infile|
      modifies this`inc, this`offset, this`outfile, this`outsize, bits, inbuff, outbuff
      ensures infile != [] ==> outfile == PackFormat.PackedFile(length[..], maxlev, infile)
      ensures infile == [] ==> outfile == PackFormat.Header(length[..], 0, (levcount[0] + 254) % 256, 0) && maxlev == 0
      ensures outsize == |outfile|
    {
      hide TreeFor, DepthsOf, FullCode, CodeValue, Pow2, At, PackFormat.Header, PackFormat.Encode, Code;
      if infile != [] {
        TreeServes(t, infile, length[..]);
        AssignCodes();
        assert Coded(length[..], maxlev, infile);
        Output(length[..], maxlev, infile);
      } else {
        EmptyTree(t);
        AssignCodes();
        OutputEmpty();
      }
    }

    /** Returns what becomes of the file; the tree is kept for the specification only. */
    method PackFile(force: bool) returns (r: Verdict, ghost t: HuffmanTree.Tree)
      requires Valid() && offset == 0 && outfile == [] && Rising(parent[..])
      requires |infile| < MAXSIZE
      modifies this, inbuff, outbuff, count, heap, parent, length, bits, levcount
      ensures infile == old(infile) && Rising(parent[..])
      ensures r == Trivial <==> |Symbols(infile)| == 2
      ensures r != Trivial ==> TreeFor(t, infile) && (r == TooManyLevels <==> HuffmanTree.Height(t) > MAXLEV)
      ensures r == NoSaving || r == Compressed ==>
                && DepthsOf(t, length[..]) && maxlev == HuffmanTree.Height(t)
                && (r == NoSaving <==> !force && Blocks(|infile|) <= Blocks(EstimatedSize(length[..], maxlev, infile)))
      ensures r == Compressed && infile != [] ==> outfile == PackFormat.PackedFile(length[..], maxlev, infile)
      ensures r == Compressed && infile == [] ==>
                outfile == PackFormat.Header(length[..], 0, (levcount[0] + 254) % 256, 0)
      ensures r == Compressed ==> outsize == |outfile|
      ensures r != Compressed ==> outfile == []
    {
      hide Rising, AbsentFree, HeapHolds, HeapFrom, TreeFor, DepthsOf, Contents, PackFormat.Header,
        PackFormat.PackedFile, BitsOut, Halves, Counts, Encodes, HuffmanTree.Height, HuffmanTree.Leaves, At,
        HuffmanTree.Proper, HuffmanTree.Within, Blocks, EstimatedSize;
      t := HuffmanTree.Leaf(END);
      Input();
      CollectHeap();
      if diffbytes == 1 {
        return Trivial, t;
      }
      insize := insize / 2;
      t := GrowTree();
      var bitsout := AssignLengths(t);
      if maxlev > MAXLEV {
        return TooManyLevels, t;
      }
      Estimate(bitsout);
      if Blocks(insize) <= Blocks(outsize) && !force {
        return NoSaving, t;
      }
      WriteFile(t);
      r := Compressed;
    }

    method Estimate(bitsout: int)
      requires Valid() && bitsout == Long(BitsOut(length[..], Halves(count[..])))
      requires count[..] == Weights(infile)[..SYMBOLS] && diffbytes == |Symbols(infile)| - 1
      modifies this`outsize
      ensures outsize == EstimatedSize(length[..], maxlev, infile)
    {
      hide BitsOut, Halves, Weights, Symbols;
      LongAdd(BitsOut(length[..], Halves(count[..])), 7);
      EndCounts(infile);
      outsize := Long(bitsout + 7) / 8 + 6 + maxlev + diffbytes;
    }

    lemma EndCounts(text: seq<byte>)
      ensures |Symbols(text) - {END}| == |Symbols(text)| - 1
    {
    }
  }
}
