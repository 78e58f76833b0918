/** The bit packer of usr/src/cmd/pack.c: what one turn of its output loop adds to the stream. */
module PackStream {
  import opened Sums
  import opened BitStrings
  import opened CanonicalCode

  /** Byte k of a 32-bit long, most significant first (maskshuff). */
  function MaskByte(mask: nat, k: nat): byte {
    if k == 0 then mask / 0x100_0000 % 256
    else if k == 1 then mask / 0x1_0000 % 256
    else if k == 2 then mask / 256 % 256
    else mask % 256
  }

  function MaskBytes(mask: nat, from: nat, to: nat): (r: seq<byte>)
    requires from <= to
    ensures |r| == to - from
  {
    seq<byte>(to - from, i requires i >= 0 => MaskByte(mask, from + i))
  }

  lemma Pow2Values()
    ensures Pow2(8) == 256 && Pow2(16) == 0x1_0000 && Pow2(24) == 0x100_0000 && Pow2(32) == 0x1_0000_0000
  {
    Pow2Add(8, 8);
    Pow2Add(16, 8);
    Pow2Add(16, 16);
  }

  lemma QuotientBound(mask: nat, a: nat)
    requires mask < a * 0x100_0000
    ensures mask / 0x100_0000 < a
  {
  }

  /** The long, less its empty high bits, is its first byte's low bits and three more bytes. */
  lemma MaskSplits(mask: nat, bl: nat)
    requires bl <= 8 && mask < Pow2(bl + 24)
    ensures MaskByte(mask, 0) < Pow2(bl) && mask < 0x1_0000_0000
    ensures Bits(mask, bl + 24) == Bits(MaskByte(mask, 0), bl) + BytesToBits(MaskBytes(mask, 1, 4))
  {
    hide Bits, BytesToBits;
    Pow2Values();
    Pow2Add(bl, 24);
    Pow2Mono(bl, 8);
    hide Pow2;
    QuotientBound(mask, Pow2(bl));
    SplitFour(mask, bl);
  }

  lemma SplitFour(mask: nat, bl: nat)
    requires mask < 0x1_0000_0000
    ensures Bits(mask, bl + 24) == Bits(MaskByte(mask, 0), bl) + BytesToBits(MaskBytes(mask, 1, 4))
  {
    hide Bits, BytesToBits;
    Pow2Values();
    hide Pow2;
    var q0, q1, q2, q3 := MaskByte(mask, 0), MaskByte(mask, 1), MaskByte(mask, 2), MaskByte(mask, 3);
    var r1, r2 := mask % 0x100_0000, mask % 0x1_0000;
    SplitNumber(mask);
    hide MaskByte;
    BitsSplit(q0, r1, bl, 24);
    BitsSplit(q1, r2, 8, 16);
    BitsSplit(q2, q3, 8, 8);
    assert MaskBytes(mask, 1, 4) == [q1, q2, q3];
    ThreeBytes(q1, q2, q3);
  }

  lemma SplitNumber(mask: nat)
    requires mask < 0x1_0000_0000
    ensures mask == MaskByte(mask, 0) as int * 0x100_0000 + mask % 0x100_0000
    ensures mask % 0x100_0000 == MaskByte(mask, 1) as int * 0x1_0000 + mask % 0x1_0000
    ensures mask % 0x1_0000 == MaskByte(mask, 2) as int * 256 + MaskByte(mask, 3)
  {
    SplitByte(mask, 0x1_0000);
    SplitByte(mask, 256);
    SplitByte(mask, 1);
  }

  /** The byte of x in units of u, and what is below it. */
  lemma SplitByte(x: nat, u: nat)
    requires u > 0
    ensures x % (256 * u) == x / u % 256 * u + x % u
  {
    var q, r := x / u, x % u;
    var p, d := q / 256, q % 256;
    Quotient(x, u);
    MulMono(u, d, 255);
    Distribute(u, 256 * p, d);
    Associate(u, 256, p);
    DivUnique(x, 256 * u, p, u * d + r);
  }

  lemma Quotient(x: nat, u: nat)
    requires u > 0
    ensures x == u * (x / u) + x % u
  {
  }

  lemma ThreeBytes(a: byte, b: byte, c: byte)
    ensures BytesToBits([a, b, c]) == Bits(a, 8) + (Bits(b, 8) + Bits(c, 8))
  {
    assert [a, b, c] == [a] + ([b] + [c]);
    BytesConcat([a], [b] + [c]);
    BytesConcat([b], [c]);
    BytesSingle(a);
    BytesSingle(b);
    BytesSingle(c);
  }

  /** A byte whose low bl bits are clear. */
  lemma ClearLow(p: byte, bl: nat) returns (hi: nat)
    requires bl <= 8 && Bits(p, 8)[8 - bl..] == Zeros(bl)
    ensures p == hi * Pow2(bl) && Bits(p, 8)[..8 - bl] == Bits(hi, 8 - bl)
  {
    hide Bits, Value;
    var b := Bits(p, 8)[..8 - bl];
    hi := Value(b);
    BitsValue(b);
    BitsOfZero(bl);
    BitsSplit(hi, 0, 8 - bl, bl);
    assert Bits(p, 8) == b + Zeros(bl);
    Pow2Values();
    ProductBound(hi, 8 - bl, bl);
    ValueBits(p, 8);
    ValueBits(hi * Pow2(bl), 8);
  }

  lemma ProductBound(v: nat, a: nat, b: nat)
    requires v < Pow2(a)
    ensures v * Pow2(b) < Pow2(a + b)
  {
    Pow2Add(a, b);
    hide Pow2;
    MulMono(Pow2(b), v + 1, Pow2(a));
    Distribute(Pow2(b), v, 1);
  }

  /** Or-ing the first byte of the long into the last byte of the stream. */
  lemma OrLast(p: byte, q: byte, bl: nat)
    requires bl <= 8 && Bits(p, 8)[8 - bl..] == Zeros(bl) && q < Pow2(bl)
    ensures Or(p, q) < 256 && Bits(Or(p, q), 8) == Bits(p, 8)[..8 - bl] + Bits(q, bl)
  {
    hide Bits, OrBits, Pow2, Zeros;
    var hi := ClearLow(p, bl);
    Pow2Values();
    OrDisjoint(hi, q, bl, 8);
    BitsSplit(hi, q, 8 - bl, bl);
  }

  /** The long holds the code word and zeros after it. */
  lemma MaskHoldsCode(v: nat, L: nat, bl: nat)
    requires v < Pow2(L) && L <= 24
    ensures v * Pow2(24 - L) * Pow2(bl) == v * Pow2(24 - L + bl) < Pow2(bl + 24)
    ensures Bits(v * Pow2(24 - L + bl), bl + 24) == Bits(v, L) + Zeros(24 - L + bl)
  {
    hide Bits;
    Pow2Add(24 - L, bl);
    ProductBound(v, L, 24 - L + bl);
    BitsOfZero(24 - L + bl);
    BitsSplit(v, 0, L, 24 - L + bl);
    hide Pow2;
    Associate(v, Pow2(24 - L), Pow2(bl));
  }

  lemma Associate(a: int, b: int, c: int)
    ensures a * b * c == a * (b * c)
  {
  }

  /** The last byte of a stream that ends in bl zero bits. */
  lemma StreamEnd(init: seq<byte>, p: byte, E: BitString, bl: nat)
    requires bl <= 8 && BytesToBits(init + [p]) == E + Zeros(bl)
    ensures Bits(p, 8)[8 - bl..] == Zeros(bl)
    ensures E == BytesToBits(init) + Bits(p, 8)[..8 - bl]
  {
    BytesConcat(init, [p]);
    BytesSingle(p);
    var a, b := BytesToBits(init), Bits(p, 8);
    assert a + b == E + Zeros(bl);
    assert |E| == |a| + 8 - bl;
    assert E == (E + Zeros(bl))[..|E|] == (a + b)[..|E|] == a + b[..8 - bl];
    assert Zeros(bl) == (E + Zeros(bl))[|E|..] == (a + b)[|E|..] == b[8 - bl..];
  }

  /** The stream after one code word: the last byte is completed and j bytes follow. */
  function Emitted(init: seq<byte>, p: byte, mask: nat, j: nat): seq<byte>
    requires j <= 3 && Or(p, MaskByte(mask, 0)) < 256
  {
    init + [Or(p, MaskByte(mask, 0))] + MaskBytes(mask, 1, 1 + j)
  }

  /** One turn of the output loop appends exactly one code word. */
  lemma Emit(init: seq<byte>, p: byte, E: BitString, v: nat, L: nat, bl: nat, j: nat, mask: nat)
    requires bl <= 8 && BytesToBits(init + [p]) == E + Zeros(bl)
    requires v < Pow2(L) && 1 <= L <= 24 && j <= 3 && L <= bl + 8 * j
    requires mask == v * Pow2(24 - L) * Pow2(bl)
    ensures Or(p, MaskByte(mask, 0)) < 256
    ensures BytesToBits(Emitted(init, p, mask, j)) == E + Bits(v, L) + Zeros(bl + 8 * j - L)
  {
    hide Bits, BytesToBits, Or, MaskByte, Emitted;
    MaskHoldsCode(v, L, bl);
    MaskSplits(mask, bl);
    StreamEnd(init, p, E, bl);
    OrLast(p, MaskByte(mask, 0), bl);
    var all := Bits(v, L) + Zeros(24 - L + bl);
    EmitBits(init, p, E, mask, all, bl, j);
    assert all[..bl + 8 * j] == Bits(v, L) + Zeros(bl + 8 * j - L);
    assert E + (Bits(v, L) + Zeros(bl + 8 * j - L)) == E + Bits(v, L) + Zeros(bl + 8 * j - L);
  }

  lemma EmitBits(init: seq<byte>, p: byte, E: BitString, mask: nat, all: BitString, bl: nat, j: nat)
    requires bl <= 8 && j <= 3 && Or(p, MaskByte(mask, 0)) < 256
    requires E == BytesToBits(init) + Bits(p, 8)[..8 - bl]
    requires Bits(Or(p, MaskByte(mask, 0)), 8) == Bits(p, 8)[..8 - bl] + Bits(MaskByte(mask, 0), bl)
    requires all == Bits(MaskByte(mask, 0), bl) + BytesToBits(MaskBytes(mask, 1, 4))
    ensures BytesToBits(Emitted(init, p, mask, j)) == E + all[..bl + 8 * j]
  {
    hide Bits, BytesToBits, Or, MaskByte;
    var q: byte := Or(p, MaskByte(mask, 0));
    var some, rest := MaskBytes(mask, 1, 1 + j), MaskBytes(mask, 1 + j, 4);
    assert MaskBytes(mask, 1, 4) == some + rest;
    BytesConcat(some, rest);
    BytesConcat(init + [q], some);
    BytesConcat(init, [q]);
    BytesSingle(q);
    var a, b, c, d := BytesToBits(init), Bits(p, 8)[..8 - bl], Bits(MaskByte(mask, 0), bl), BytesToBits(some);
    assert all[..bl + 8 * j] == c + d;
    Regroup(a, b, c, d);
  }

  lemma Regroup(a: BitString, b: BitString, c: BitString, d: BitString)
    ensures a + (b + c) + d == (a + b) + (c + d)
  {
  }

  // ----- code assignment

  /** The long counts an even number of nodes, so clearing the bit of one node changes nothing. */
  lemma ClearNothing(v: nat, inc: nat)
    requires inc > 0 && v % 2 == 0
    ensures ClearBit(v * inc, inc) == v * inc
    ensures v * inc == (v / 2) * (2 * inc)
  {
    DivUnique(v * inc, inc, v, 0);
    hide *;
    Halve(v, inc);
  }

  lemma Halve(v: nat, inc: nat)
    requires v % 2 == 0
    ensures v * inc == (v / 2) * (2 * inc)
  {
    var h := v / 2;
    assert v == 2 * h;
  }

  lemma StartIncrement(m: nat)
    requires m <= 24
    ensures 0x100_0000 / Pow2(m) == Pow2(24 - m)
  {
    Pow2Values();
    Pow2Add(m, 24 - m);
    DivUnique(0x100_0000, Pow2(m), Pow2(24 - m), 0);
  }

  /** From one level to the level above: clearing the odd node never drops a bit. */
  lemma LevelDone(lens: seq<nat>, m: nat, i: nat, inc: nat)
    requires FullCode(lens, m) && 0 < i <= m <= 24 && inc == Pow2(24 - i)
    ensures
      var mask := Scaled(Inner(lens, m, i) + |At(lens, i)|, inc);
      ClearBit(mask, inc) == mask == Scaled(Inner(lens, m, i - 1), inc * 2)
    ensures Pow2(24 - (i - 1)) == inc * 2
  {
    hide At, Inner;
    assert Doubles(lens, m, i);
    ClearNothing(Inner(lens, m, i) + |At(lens, i)|, inc);
  }

  /** Code words of a level begin inc apart. */
  function Scaled(n: nat, inc: nat): nat {
    n * inc
  }

  lemma ScaledNext(n: nat, inc: nat)
    ensures Scaled(n + 1, inc) == Scaled(n, inc) + inc
  {
    Distribute(inc, n, 1);
  }

  lemma ScaledIs(n: nat, inc: nat)
    ensures Scaled(n, inc) == n * inc
  {
  }

  lemma BottomLevel(lens: seq<nat>, m: nat)
    ensures Inner(lens, m, m) == 0
  {
  }

  /** bits[c] << bitsleft stays within 32 bits. */
  lemma NoOverflow(v: nat, L: nat, bl: nat)
    requires v < Pow2(L) && L <= 24 && bl <= 8
    ensures ShiftLeft32(v * Pow2(24 - L), bl) == v * Pow2(24 - L) * Pow2(bl)
  {
    MaskHoldsCode(v, L, bl);
    Pow2Values();
    Pow2Mono(bl + 24, 32);
    hide Pow2;
    SmallMod(v * Pow2(24 - L) * Pow2(bl));
  }

  lemma SmallMod(x: nat)
    requires x < 0x1_0000_0000
    ensures x % 0x1_0000_0000 == x
  {
  }

  lemma OrWithZero(q: byte)
    ensures Or(0, q) == q
  {
    ByteBound();
    OrDisjoint(0, q, 8, 8);
  }
}
