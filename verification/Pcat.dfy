/** usr/src/cmd/pcat.c: the decompressor, with its global variables as the fields of a class. */
module Pcat {
  import opened BitStrings
  import opened PackParams
  import opened PackFormat

  /** What getdict and decode report; the source indexes past its tables in the last case. */
  datatype Outcome = Ok | NotInFormat | Uggh | OutOfTables

  class Unpacker {
    const infile: seq<byte>  // the packed file
    var offset: nat          // where the next read starts
    var outfile: seq<byte>   // standard output

    const inbuff: array<byte>
    const outbuff: array<byte>
    const intnodes: array<nat>
    const tree: array<nat>          // positions in characters
    const characters: array<byte>

    var inleft: int
    var inp: nat
    var outp: nat
    var eof: nat              // position in characters
    var maxlev: nat
    var origsize: int

    ghost predicate Valid() {
      && inbuff.Length == outbuff.Length == BLKSIZE && characters.Length == END
      && intnodes.Length == tree.Length == MAXLEV + 1 && intnodes != tree
      && inbuff != outbuff && inbuff != characters && outbuff != characters
      && inbuff as object != intnodes && inbuff as object != tree
      && outbuff as object != intnodes && outbuff as object != tree
      && characters as object != intnodes && characters as object != tree
    }

    /** stale is what the read buffer still holds from the file before. */
    constructor (file: seq<byte>, stale: seq<byte>)
      requires |stale| == BLKSIZE
      ensures Valid() && infile == file && offset == 0 && outfile == [] && inbuff[..] == stale
      ensures fresh(inbuff) && fresh(outbuff) && fresh(intnodes) && fresh(tree) && fresh(characters)
    {
      infile, offset, outfile := file, 0, [];
      inbuff := new byte[BLKSIZE](i requires 0 <= i < BLKSIZE => stale[i]);
      outbuff := new byte[BLKSIZE](_ => 0);
      intnodes := new nat[MAXLEV + 1](_ => 0);
      tree := new nat[MAXLEV + 1](_ => 0);
      characters := new byte[END](_ => 0);
      inleft, inp, outp, eof, maxlev, origsize := 0, 0, 0, 0, 0, 0;
    }

    /** One read of the input: a whole block, or what is left of the file. */
    method Read() returns (k: nat)
      requires Valid() && offset <= |infile|
      modifies this`offset, inbuff
      ensures offset == old(offset) + k <= |infile|
      ensures k == if |infile| - old(offset) < BLKSIZE then |infile| - old(offset) else BLKSIZE
      ensures inbuff[..k] == infile[old(offset)..offset] && inbuff[k..] == old(inbuff[..])[k..]
    {
      k := if |infile| - offset < BLKSIZE then |infile| - offset else BLKSIZE;
      forall i | 0 <= i < k {
        inbuff[i] := infile[offset + i];
      }
      offset := offset + k;
    }

    /** The tables hold dictionary d. */
    ghost predicate Tables(d: Dictionary)
      reads this`eof, this`maxlev, intnodes, tree, characters
    {
      && intnodes.Length == tree.Length == MAXLEV + 1 && characters.Length == END
      && maxlev == d.maxlev <= MAXLEV && |d.inner| == |d.tree| == maxlev + 1
      && (forall i :: 1 <= i <= maxlev ==> intnodes[i] == d.inner[i] && tree[i] == d.tree[i])
      && eof == |d.chars| <= END && characters[..eof] == d.chars
    }

    /** inleft unread bytes of the block start at inbuff[inp]; the rest of the file comes after offset. */
    ghost predicate Unread(rest: seq<byte>)
      reads this`inleft, this`inp, this`offset, inbuff
    {
      && inbuff.Length == BLKSIZE && 0 <= inleft && inp + inleft <= BLKSIZE && offset <= |infile|
      && rest == inbuff[inp..inp + inleft] + infile[offset..]
    }

    /** The bytes decoded so far. */
    ghost function Decoded(): seq<byte>
      requires outp <= outbuff.Length
      reads this`outfile, this`outp, outbuff
    {
      outfile + outbuff[..outp]
    }

    /** One decoded byte goes out; a full buffer is written. */
    method PutByte(b: byte)
      requires Valid() && outp < BLKSIZE && |outfile| % BLKSIZE == 0
      modifies this`outp, this`outfile, this`origsize, outbuff
      ensures outp < BLKSIZE && |outfile| % BLKSIZE == 0
      ensures Decoded() == old(Decoded()) + [b]
      ensures origsize + |outfile| == old(origsize) + old(|outfile|)
    {
      ghost var before := Decoded();
      outbuff[outp] := b;
      outp := outp + 1;
      assert Decoded() == before + [b];
      if outp == BLKSIZE {
        outfile := outfile + outbuff[..];
        outp := 0;
        origsize := origsize - BLKSIZE;
        assert outbuff[..BLKSIZE] == outbuff[..];
      }
    }

    /** The inner loop of decode: the eight bits of one byte. */
    method DecodeByte(x: byte, lev0: nat, i0: nat, ghost d: Dictionary, ghost rest: seq<byte>)
      returns (done: bool, r: Outcome, lev: nat, i: nat)
      requires Valid() && Tables(d) && 1 <= lev0 && outp < BLKSIZE && |outfile| % BLKSIZE == 0
      modifies this`outp, this`outfile, this`origsize, outbuff
      ensures outp < BLKSIZE && |outfile| % BLKSIZE == 0 && 1 <= lev
      ensures origsize + |outfile| == old(origsize) + old(|outfile|)
      ensures
        var whole := DecodeBits(d, Bits(x, 8) + BytesToBits(rest), lev0, i0, old(Decoded()));
        if !done then DecodeBits(d, BytesToBits(rest), lev, i, Decoded()) == whole
        else if r == Ok then whole == Finished(Decoded()) else r == OutOfTables && whole.Wild?
    {
      hide Bits, BytesToBits;
      ghost var whole := DecodeBits(d, Bits(x, 8) + BytesToBits(rest), lev0, i0, Decoded());
      ghost var tail := BytesToBits(rest);
      var c: nat := x;
      var bitsleft := 8;
      lev, i := lev0, i0;
      assert Bits(c, 8)[..8] == Bits(x, 8);
      while bitsleft > 0
        invariant 0 <= bitsleft <= 8 && 1 <= lev && outp < BLKSIZE && |outfile| % BLKSIZE == 0
        invariant origsize + |outfile| == old(origsize) + old(|outfile|)
        invariant DecodeBits(d, Bits(c, 8)[..bitsleft] + tail, lev, i, Decoded()) == whole
        decreases bitsleft
      {
        HighBit(c);
        ShiftOneLeft(c);
        ghost var bits := Bits(c, 8)[..bitsleft] + tail;
        bitsleft := bitsleft - 1;
        assert bits[1..] == Bits(2 * c, 8)[..bitsleft] + tail;
        assert bits[0] == (c / 128 % 2 == 1);
        i := i * 2;
        if c / 128 % 2 == 1 {
          i := i + 1;
        }
        c := c * 2;
        if lev > maxlev {
          return true, OutOfTables, lev, i;
        }
        if i >= intnodes[lev] {
          var j := i - intnodes[lev];
          var p := tree[lev] + j;
          if p == eof {
            return true, Ok, lev, i;
          }
          if p > eof {
            return true, OutOfTables, lev, i;
          }
          assert characters[p] == characters[..eof][p];
          PutByte(characters[p]);
          lev, i := 1, 0;
        } else {
          lev := lev + 1;
        }
      }
      assert Bits(c, 8)[..0] + tail == tail;
      done, r := false, Ok;
    }

    /** Follows the bits from level to level, writing a byte at each leaf. */
    method Decode(ghost d: Dictionary, ghost rest: seq<byte>) returns (r: Outcome)
      requires Valid() && Tables(d) && Unread(rest) && outfile == [] && origsize == d.origsize
      modifies this`offset, this`inleft, this`inp, this`outp, this`outfile, this`origsize, inbuff, outbuff
      ensures
        match DecodeBits(d, BytesToBits(rest), 1, 0, [])
        case Finished(out) => outfile == out && r == if |out| == d.origsize then Ok else Uggh
        case Exhausted(out) => outfile == out[..|out| / BLKSIZE * BLKSIZE] && r == Uggh
        case Wild(_) => r == OutOfTables
    {
      hide Bits, BytesToBits, DecodeBits, Unread, Tables;
      TableSizes(d);
      ghost var whole := DecodeBits(d, BytesToBits(rest), 1, 0, []);
      ghost var left := rest;
      outp := 0;
      var lev, i: nat := 1, 0;
      assert Decoded() == [];
      while true
        invariant Tables(d) && Unread(left) && 1 <= lev && outp < BLKSIZE && |outfile| % BLKSIZE == 0
        invariant origsize + |outfile| == d.origsize
        invariant DecodeBits(d, BytesToBits(left), lev, i, Decoded()) == whole
        decreases |left|
      {
        var end, c := NextByte(left);
        if end {
          NothingLeft(d, left, lev, i, Decoded());
          WholeBlocks();
          return Uggh;
        }
        FirstByte(left);
        left := left[1..];
        var done: bool;
        done, r, lev, i := DecodeByte(c, lev, i, d, left);
        if done {
          if r == Ok {
            r := Finish(d);
          }
          return r;
        }
      }
    }

    /** The next byte, from a new block if the old one is used up. */
    method NextByte(ghost rest: seq<byte>) returns (end: bool, c: byte)
      requires Valid() && Unread(rest)
      modifies this`offset, this`inleft, this`inp, inbuff
      ensures end <==> rest == []
      ensures !end ==> c == rest[0] && Unread(rest[1..])
    {
      c := 0;
      RefillUnread(rest);
      inleft := inleft - 1;
      end := inleft < 0;
      if !end {
        c := inbuff[inp];
        inp := inp + 1;
      }
    }

    /** The end mark has been decoded: the rest is written and the size compared. */
    method Finish(ghost d: Dictionary) returns (r: Outcome)
      requires Valid() && outp < BLKSIZE && origsize + |outfile| == d.origsize
      modifies this`outfile, this`origsize
      ensures outfile == old(Decoded()) && r == if |outfile| == d.origsize then Ok else Uggh
    {
      var c := outp;
      outfile := outfile + outbuff[..c];
      origsize := origsize - c;
      r := if origsize != 0 then Uggh else Ok;
    }

    /** What has been written is the whole blocks of what has been decoded. */
    lemma WholeBlocks()
      requires Valid() && outp < BLKSIZE && |outfile| % BLKSIZE == 0
      ensures outfile == Decoded()[..|Decoded()| / BLKSIZE * BLKSIZE]
    {
    }

    lemma TableSizes(d: Dictionary)
      requires Tables(d)
      ensures |d.inner| == |d.tree| == d.maxlev + 1
    {
    }

    lemma NothingLeft(d: Dictionary, left: seq<byte>, lev: nat, i: nat, out: seq<byte>)
      requires |d.inner| == |d.tree| == d.maxlev + 1 && left == []
      ensures DecodeBits(d, BytesToBits(left), lev, i, out) == Exhausted(out)
    {
    }

    /** When the block is used up the next one is read. */
    method RefillUnread(ghost rest: seq<byte>)
      requires Valid() && Unread(rest)
      modifies this`offset, this`inleft, this`inp, inbuff
      ensures Unread(rest) && (inleft == 0 ==> rest == []) && inp < BLKSIZE
    {
      if inleft <= 0 {
        inp := 0;
        inleft := Read();
      }
    }

    lemma FirstByte(s: seq<byte>)
      requires s != []
      ensures BytesToBits(s) == Bits(s[0], 8) + BytesToBits(s[1..])
    {
      assert s == [s[0]] + s[1..];
      BytesConcat([s[0]], s[1..]);
      BytesSingle(s[0]);
    }

    /** The level counts of the dictionary go into the table of inner nodes. */
    method ReadCounts(ghost counts: seq<byte>)
      requires Valid() && maxlev <= MAXLEV && inp == 7 && inbuff[7..7 + maxlev] == counts
      modifies this`inp, intnodes
      ensures inp == 7 + maxlev
      ensures forall i :: 1 <= i <= maxlev ==> intnodes[i] == counts[i - 1]
    {
      var i := 1;
      while i <= maxlev
        invariant 1 <= i <= maxlev + 1 && inp == 6 + i
        invariant forall j :: 1 <= j < i ==> intnodes[j] == counts[j - 1]
      {
        assert inbuff[inp] == counts[i - 1];
        intnodes[i] := inbuff[inp];
        inp := inp + 1;
        i := i + 1;
      }
    }

    /** The bytes of the dictionary so far stand in characters. */
    ghost predicate Copied(base: nat, block: seq<byte>)
      reads this`inp, this`eof, characters, inbuff
    {
      && inp == base + eof && inp <= BLKSIZE == |block| && inbuff.Length == BLKSIZE && inbuff[..] == block
      && eof <= characters.Length && characters[..eof] == block[base..inp]
    }

    /** Copies the characters, noting where each level begins; false if their table overflows. */
    method ReadCharacters(ghost counts: seq<byte>, ghost block: seq<byte>) returns (fits: bool)
      requires Valid() && maxlev <= MAXLEV && eof == 0 && |counts| == maxlev && Copied(7 + maxlev, block)
      requires forall i :: 1 <= i <= maxlev ==> intnodes[i] == counts[i - 1]
      modifies this`inp, this`eof, tree, characters
      ensures fits <==> Total(counts) <= 255
      ensures fits ==> eof == Total(counts) && Copied(7 + maxlev, block)
      ensures fits ==> forall i :: 1 <= i <= maxlev ==> tree[i] == Total(counts[..i - 1])
    {
      hide Total, Copied;
      var i := 1;
      NoTotal(counts);
      while i <= maxlev
        invariant 1 <= i <= maxlev + 1 && Copied(7 + maxlev, block)
        invariant eof == Total(counts[..i - 1]) <= 255
        invariant forall j :: 1 <= j < i ==> tree[j] == Total(counts[..j - 1])
        invariant forall j :: 1 <= j <= maxlev ==> intnodes[j] == counts[j - 1]
      {
        TotalNext(counts, i - 1);
        tree[i] := eof;
        fits := CopyLevel(intnodes[i], 7 + maxlev, block);
        if !fits {
          return;
        }
        i := i + 1;
      }
      assert counts[..maxlev] == counts;
      fits := true;
    }

    lemma NoTotal(counts: seq<byte>)
      ensures Total(counts[..0]) == 0
    {
    }

    /** The characters of one level, n of them. */
    method CopyLevel(n: nat, ghost base: nat, ghost block: seq<byte>) returns (fits: bool)
      requires Valid() && Copied(base, block) && base <= 31 && eof <= 255
      modifies this`inp, this`eof, characters
      ensures fits <==> old(eof) + n <= 255
      ensures fits ==> Copied(base, block) && eof == old(eof) + n
    {
      var c: nat := n;
      while c > 0
        invariant c <= n && Copied(base, block) && eof == old(eof) + n - c <= 255
      {
        if eof >= 255 {
          return false;
        }
        CopyCharacter(base, block);
        c := c - 1;
      }
      fits := true;
    }

    method CopyCharacter(ghost base: nat, ghost block: seq<byte>)
      requires Valid() && Copied(base, block) && base <= 31 && eof <= 255
      modifies this`inp, this`eof, characters
      ensures Copied(base, block) && eof == old(eof) + 1
    {
      ghost var before := characters[..eof];
      characters[eof] := inbuff[inp];
      assert inbuff[inp] == block[inp];
      assert characters[..eof + 1] == before + [block[inp]];
      assert block[base..inp + 1] == block[base..inp] + [block[inp]];
      eof := eof + 1;
      inp := inp + 1;
    }

    /** Leaf counts become numbers of inner nodes, from the deepest level up. */
    method CountInner(ghost leaves: seq<nat>)
      requires Valid() && maxlev <= MAXLEV && |leaves| == maxlev
      requires forall i :: 1 <= i <= maxlev ==> intnodes[i] == leaves[i - 1]
      modifies intnodes
      ensures forall i :: 1 <= i <= maxlev ==> intnodes[i] == InnerFrom(leaves, i)
    {
      var nchildren := 0;
      var i := maxlev;
      while i >= 1
        invariant 0 <= i <= maxlev
        invariant nchildren == if i == maxlev then 0 else InnerFrom(leaves, i + 1) + leaves[i]
        invariant forall j :: i < j <= maxlev ==> intnodes[j] == InnerFrom(leaves, j)
        invariant forall j :: 1 <= j <= i ==> intnodes[j] == leaves[j - 1]
      {
        var c := intnodes[i];
        nchildren := nchildren / 2;
        intnodes[i] := nchildren;
        nchildren := nchildren + c;
        i := i - 1;
      }
    }

    /** The size the packed file names, four bytes. */
    method ReadSize(ghost block: seq<byte>)
      requires Valid() && inp == 2 && inbuff[..] == block
      modifies this`inp, this`origsize
      ensures inp == 6
      ensures origsize == ((block[2] as int * 256 + block[3]) * 256 + block[4]) * 256 + block[5]
    {
      origsize := 0;
      var i := 0;
      while i < 4
        invariant 0 <= i <= 4 && inp == 2 + i
        invariant origsize == if i == 0 then 0 else if i == 1 then block[2] as int
                    else if i == 2 then block[2] as int * 256 + block[3]
                    else if i == 3 then (block[2] as int * 256 + block[3]) * 256 + block[4]
                    else ((block[2] as int * 256 + block[3]) * 256 + block[4]) * 256 + block[5]
      {
        assert inbuff[inp] == block[inp];
        origsize := origsize * 256 + inbuff[inp];
        inp := inp + 1;
        i := i + 1;
      }
    }

    /** The tables, from the level counts on; false where the source goes to goof. */
    method ReadTables(ghost block: seq<byte>, ghost n: nat) returns (ok: bool)
      requires Valid() && inp == 7 && eof == 0 && inbuff[..] == block && inleft == n <= BLKSIZE
      requires block[0] == 31 && block[1] == 30 && maxlev == block[6] <= MAXLEV
      requires origsize == ((block[2] as int * 256 + block[3]) * 256 + block[4]) * 256 + block[5]
      modifies this`inp, this`eof, this`inleft, intnodes, tree, characters
      ensures ok <==> ParseDictionary(block, n).Some?
      ensures ok ==>
                var d := ParseDictionary(block, n).value;
                && Tables(d) && inp == HeaderLength(d) && inleft == n - inp >= 0 && origsize == d.origsize
    {
      ghost var counts := block[7..7 + maxlev];
      ReadCounts(counts);
      ok := ReadCharacters(counts, block);
      if ok {
        CopyCharacter(7 + maxlev, block);
        ghost var leaves := Leaves(counts);
        intnodes[maxlev] := intnodes[maxlev] + 2;
        inleft := inleft - inp;
        if inleft < 0 {
          return false;
        }
        CountInner(leaves);
      }
    }

    /** Reads the dictionary into the tables and decodes the rest. */
    method GetDict() returns (r: Outcome)
      requires Valid() && offset == 0 && outfile == []
      modifies this, inbuff, outbuff, intnodes, tree, characters
      ensures
        match Unpack(infile, old(inbuff[..]))
        case NotPacked => r == NotInFormat && outfile == []
        case Unpacked(text) => r == Ok && outfile == text
        case UnpackingError(written) => r == Uggh && outfile == written
        case Undefined => r == OutOfTables
    {
      hide ParseDictionary, Tables, BytesToBits, DecodeBits;
      ghost var stale := inbuff[..];
      eof := 0;
      inbuff[6] := 25;
      inleft := Read();
      ghost var block, n := inbuff[..], inleft;
      assert block == FirstBlock(infile, stale);
      NotInFormatCases(block, n);
      if inbuff[0] != 31 || inbuff[1] != 30 {
        return NotInFormat;
      }
      inp := 2;
      ReadSize(block);
      maxlev := inbuff[inp];
      inp := inp + 1;
      if maxlev > MAXLEV {
        return NotInFormat;
      }
      var ok := ReadTables(block, n);
      if !ok {
        return NotInFormat;
      }
      ghost var d := ParseDictionary(block, n).value;
      ghost var rest := infile[HeaderLength(d)..];
      assert inbuff[inp..inp + inleft] == inbuff[..n][inp..];
      assert inbuff[..n] == infile[..n];
      assert rest == infile[..n][inp..] + infile[n..];
      r := Decode(d, rest);
    }

    lemma NotInFormatCases(block: seq<byte>, n: nat)
      requires |block| == BLKSIZE
      ensures block[0] != 31 || block[1] != 30 || block[6] > MAXLEV ==> ParseDictionary(block, n) == None
    {
    }
  }
}
