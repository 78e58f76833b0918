/**
 The byte format that joins pack.c and pcat.c: what the one writes for a text
 and a vector of code lengths, and what the other makes of any bytes at all.
 Neither description mentions the other.
 */
module PackFormat {
  import opened BitStrings
  import opened CanonicalCode
  import opened PackParams

  // ----- the writing side

  /** The symbols of levels 1..k, level by level. */
  function UpTo(lens: seq<nat>, k: nat): seq<nat> {
    if k == 0 then [] else UpTo(lens, k - 1) + At(lens, k)
  }

  /** Numbers stored into characters. */
  function AsBytes(s: seq<nat>): (r: seq<byte>)
    ensures |r| == |s|
  {
    seq(|s|, j requires 0 <= j < |s| => s[j] % 256)
  }

  /** A 4-byte number, most significant byte first. */
  function BigEndian(n: nat): (r: seq<byte>)
    ensures |r| == 4
  {
    [n / 256 / 256 / 256 % 256, n / 256 / 256 % 256, n / 256 % 256, n % 256]
  }

  /** The level-count bytes: levels 1..m-1, then the adjusted byte of level m. */
  function CountBytes(lens: seq<nat>, m: nat, last: byte): (r: seq<byte>)
    ensures m > 0 ==> |r| == m
    ensures m == 0 ==> |r| == 1
  {
    seq(m - if m > 0 then 1 else 0, i requires i >= 0 => |At(lens, i + 1)| % 256) + [last]
  }

  /** The first k count bytes. */
  lemma CountBytesSnoc(lens: seq<nat>, m: nat, last: byte, k: nat)
    requires k < m
    ensures CountBytes(lens, m, last)[..k + 1] ==
              CountBytes(lens, m, last)[..k] + [if k == m - 1 then last else |At(lens, k + 1)| % 256]
  {
  }

  lemma CountBytesLast(lens: seq<nat>, m: nat, last: byte)
    ensures
      var r := CountBytes(lens, m, last);
      r == r[..|r| - 1] + [last]
  {
  }

  lemma AsBytesSnoc(s: seq<nat>, c: nat)
    requires c < 256
    ensures AsBytes(s + [c]) == AsBytes(s) + [c]
  {
  }

  function Encode(lens: seq<nat>, m: nat, text: seq<byte>): BitString
    requires |lens| == END + 1
  {
    if |text| == 0 then [] else Encode(lens, m, text[..|text| - 1]) + Code(lens, m, text[|text| - 1])
  }

  lemma EmptyStream(lens: seq<nat>, m: nat, text: seq<byte>)
    requires |lens| == END + 1
    ensures Encode(lens, m, text[..0]) == []
    ensures BytesToBits([0]) == Zeros(8)
  {
    BytesSingle(0);
    BitsOfZero(8);
  }

  lemma EncodeNext(lens: seq<nat>, m: nat, text: seq<byte>, k: nat)
    requires |lens| == END + 1 && k < |text|
    ensures Encode(lens, m, text[..k + 1]) == Encode(lens, m, text[..k]) + Code(lens, m, text[k])
  {
    assert text[..k + 1][..k] == text[..k];
  }

  function Header(lens: seq<nat>, m: nat, last: byte, size: nat): seq<byte>
    requires |lens| == END + 1 && m < 256
  {
    [31, 30] + BigEndian(size) + [m] + CountBytes(lens, m, last) + AsBytes(UpTo(lens[..END], m))
  }

  /** The packed form of text. */
  function PackedFile(lens: seq<nat>, m: nat, text: seq<byte>): seq<byte>
    requires |lens| == END + 1 && m < 256
  {
    Header(lens, m, (|At(lens, m)| + 254) % 256, |text|)
    + Packed(Encode(lens, m, text) + Code(lens, m, END))
  }

  // ----- the reading side

  datatype Option<T> = None | Some(value: T)

  /** What getdict keeps; entry 0 of the level tables is unused. */
  datatype Dictionary = Dictionary(origsize: nat, maxlev: nat, inner: seq<nat>, tree: seq<nat>, chars: seq<byte>)

  function Total(counts: seq<nat>): nat {
    if |counts| == 0 then 0 else Total(counts[..|counts| - 1]) + counts[|counts| - 1]
  }

  lemma {:induction false} TotalMono(counts: seq<nat>, k: nat)
    requires k <= |counts|
    ensures Total(counts[..k]) <= Total(counts)
  {
    if k < |counts| {
      var n := |counts| - 1;
      TotalMono(counts[..n], k);
      assert counts[..n][..k] == counts[..k];
    } else {
      assert counts[..k] == counts;
    }
  }

  lemma TotalNext(counts: seq<nat>, k: nat)
    requires k < |counts|
    ensures Total(counts[..k + 1]) == Total(counts[..k]) + counts[k]
    ensures Total(counts[..k + 1]) <= Total(counts)
  {
    assert counts[..k + 1][..k] == counts[..k];
    TotalMono(counts, k + 1);
  }

  /** Internal nodes of level i, from the numbers of leaves of levels 1..|leaves|. */
  function InnerFrom(leaves: seq<nat>, i: nat): nat
    decreases |leaves| - i
  {
    if i >= |leaves| then 0 else (InnerFrom(leaves, i + 1) + leaves[i]) / 2
  }

  /** The count bytes with the two missing leaves of the deepest level restored. */
  function Leaves(counts: seq<byte>): (r: seq<nat>)
    ensures |r| == |counts|
  {
    seq(|counts|, i requires 0 <= i < |counts| => counts[i] as int + if i == |counts| - 1 then 2 else 0)
  }

  /** getdict on the first block, of which n bytes came from the file. */
  function ParseDictionary(block: seq<byte>, n: nat): Option<Dictionary>
    requires |block| == BLKSIZE
  {
    if block[0] != 31 || block[1] != 30 || block[6] > 24 then None
    else
      var m := block[6];
      var counts := block[7..7 + m];
      var total := Total(counts);
      if total > 255 || n < 8 + m + total then None
      else
        var size := ((block[2] as int * 256 + block[3]) * 256 + block[4]) * 256 + block[5];
        Some(Dictionary(size, m,
          seq(m + 1, i requires i >= 0 => InnerFrom(Leaves(counts), i)),
          seq(m + 1, i requires 0 <= i <= m => if i == 0 then 0 else Total(counts[..i - 1])),
          block[7 + m..8 + m + total]))
  }

  /** Bytes of the file that getdict consumes. */
  function HeaderLength(d: Dictionary): nat {
    7 + d.maxlev + |d.chars|
  }

  datatype Decoding =
    | Finished(out: seq<byte>)   // the end mark was decoded
    | Exhausted(out: seq<byte>)  // the file ended first
    | Wild(out: seq<byte>)       // a table was indexed outside its filled part

  function DecodeBits(d: Dictionary, bits: BitString, lev: nat, i: nat, out: seq<byte>): Decoding
    requires |d.inner| == |d.tree| == d.maxlev + 1
  {
    if |bits| == 0 then Exhausted(out)
    else if lev > d.maxlev then Wild(out)
    else
      var i' := 2 * i + if bits[0] then 1 else 0;
      if i' < d.inner[lev] then DecodeBits(d, bits[1..], lev + 1, i', out)
      else
        var p := d.tree[lev] + (i' - d.inner[lev]);
        if p == |d.chars| then Finished(out)
        else if p > |d.chars| then Wild(out)
        else DecodeBits(d, bits[1..], 1, 0, out + [d.chars[p]])
  }

  datatype Unpacking =
    | Unpacked(text: seq<byte>)         // everything written, size as recorded
    | NotPacked                         // ".z: not in packed format"
    | UnpackingError(written: seq<byte>)  // ".z: unpacking error"
    | Undefined                         // the source reads outside its tables

  /** The first block as read over stale contents of the buffer. */
  function FirstBlock(file: seq<byte>, stale: seq<byte>): (r: seq<byte>)
    requires |stale| == BLKSIZE
    ensures |r| == BLKSIZE
  {
    var n := if |file| < BLKSIZE then |file| else BLKSIZE;
    file[..n] + stale[6 := 25][n..]
  }

  /** Result of pcat on a file. */
  function Unpack(file: seq<byte>, stale: seq<byte>): Unpacking
    requires |stale| == BLKSIZE
  {
    var n := if |file| < BLKSIZE then |file| else BLKSIZE;
    match ParseDictionary(FirstBlock(file, stale), n)
    case None => NotPacked
    case Some(d) =>
      match DecodeBits(d, BytesToBits(file[HeaderLength(d)..]), 1, 0, [])
      case Wild(_) => Undefined
      case Exhausted(out) => UnpackingError(out[..|out| / BLKSIZE * BLKSIZE])
      case Finished(out) => if |out| == d.origsize then Unpacked(out) else UnpackingError(out)
  }

  /** What the buffer held before does not matter. */
  lemma StaleIrrelevant(file: seq<byte>, s1: seq<byte>, s2: seq<byte>)
    requires |s1| == |s2| == BLKSIZE
    ensures Unpack(file, s1) == Unpack(file, s2)
  {
    var n := if |file| < BLKSIZE then |file| else BLKSIZE;
    var b1, b2 := FirstBlock(file, s1), FirstBlock(file, s2);
    assert b1[..n] == b2[..n];
    StaleHeader(b1, b2, n);
  }

  lemma StaleHeader(b1: seq<byte>, b2: seq<byte>, n: nat)
    requires |b1| == |b2| == BLKSIZE && n <= BLKSIZE && b1[..n] == b2[..n]
    ensures ParseDictionary(b1, n) == ParseDictionary(b2, n)
  {
    if n >= 8 {
      assert forall k :: 0 <= k < n ==> b1[k] == b1[..n][k] == b2[..n][k] == b2[k];
      var m := b1[6];
      if m <= 24 && 7 + m <= n {
        assert b1[7..7 + m] == b2[7..7 + m];
        var total := Total(b1[7..7 + m]);
        if 8 + m + total <= n {
          assert b1[7 + m..8 + m + total] == b2[7 + m..8 + m + total];
        }
      }
    }
  }
}
