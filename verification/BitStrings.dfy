/** Bytes, bit strings, and the C operators on longs that pack.c and pcat.c use on them. */
module BitStrings {
  import opened Sums

  type byte = x: int | 0 <= x < 256

  type BitString = seq<bool>

  /** The k low-order bits of v, most significant first. */
  function Bits(v: nat, k: nat): (r: BitString)
    ensures |r| == k
  {
    if k == 0 then [] else Bits(v / 2, k - 1) + [v % 2 == 1]
  }

  function Zeros(k: nat): (r: BitString)
    ensures |r| == k && forall i :: 0 <= i < k ==> !r[i]
  {
    seq(k, _ => false)
  }

  function BytesToBits(s: seq<byte>): (r: BitString)
    ensures |r| == 8 * |s|
  {
    if |s| == 0 then [] else BytesToBits(s[..|s| - 1]) + Bits(s[|s| - 1], 8)
  }

  /** The number whose binary form is b. */
  function Value(b: BitString): nat {
    if |b| == 0 then 0 else 2 * Value(b[..|b| - 1]) + if b[|b| - 1] then 1 else 0
  }

  lemma {:induction false} ValueBits(v: nat, k: nat)
    requires v < Pow2(k)
    ensures Value(Bits(v, k)) == v
  {
    if k > 0 {
      ValueBits(v / 2, k - 1);
      assert Bits(v, k)[..k - 1] == Bits(v / 2, k - 1);
    }
  }

  lemma {:induction false} BitsValue(b: BitString)
    ensures Value(b) < Pow2(|b|) && Bits(Value(b), |b|) == b
  {
    if |b| > 0 {
      BitsValue(b[..|b| - 1]);
      assert Value(b) / 2 == Value(b[..|b| - 1]);
    }
  }

  /** Splitting a number at a bit position splits its bit string. */
  lemma {:induction false} BitsSplit(hi: nat, lo: nat, i: nat, j: nat)
    requires lo < Pow2(j)
    ensures Bits(hi * Pow2(j) + lo, i + j) == Bits(hi, i) + Bits(lo, j)
  {
    if j == 0 {
      assert Bits(lo, 0) == [];
    } else {
      var v := hi * Pow2(j) + lo;
      var h := hi * Pow2(j - 1);
      assert hi * Pow2(j) == 2 * h;
      assert v / 2 == h + lo / 2 && v % 2 == lo % 2;
      BitsSplit(hi, lo / 2, i, j - 1);
      assert Bits(v, i + j) == Bits(v / 2, i + j - 1) + [v % 2 == 1];
      assert Bits(lo, j) == Bits(lo / 2, j - 1) + [lo % 2 == 1];
    }
  }

  /** Testing bit 7 of a byte and shifting left takes the bits one by one. */
  lemma HighBit(c: nat)
    ensures Bits(c, 8) == [c / 128 % 2 == 1] + Bits(c, 7)
  {
    BitsTop(c, 7);
    hide Bits;
    assert c / 2 / 2 / 2 / 2 / 2 / 2 / 2 == c / 128;
  }

  lemma ShiftOneLeft(c: nat)
    ensures Bits(2 * c, 8) == Bits(c, 7) + [false]
  {
    assert 2 * c / 2 == c;
  }

  /** v shifted right by k. */
  function ShiftRight(v: nat, k: nat): nat {
    if k == 0 then v else ShiftRight(v / 2, k - 1)
  }

  lemma {:induction false} BitsTop(v: nat, k: nat)
    ensures Bits(v, k + 1) == [ShiftRight(v, k) % 2 == 1] + Bits(v, k)
    ensures k == 7 ==> ShiftRight(v, k) == v / 2 / 2 / 2 / 2 / 2 / 2 / 2
  {
    if k > 0 {
      BitsTop(v / 2, k - 1);
    }
    if k == 7 {
      assert ShiftRight(v, 7) == ShiftRight(v / 2, 6) == ShiftRight(v / 2 / 2, 5) == ShiftRight(v / 2 / 2 / 2, 4);
      assert ShiftRight(v / 2 / 2 / 2, 4) == ShiftRight(v / 2 / 2 / 2 / 2, 3) == ShiftRight(v / 2 / 2 / 2 / 2 / 2, 2);
    }
  }

  lemma {:induction false} BitsOfZero(k: nat)
    ensures Bits(0, k) == Zeros(k)
  {
    if k > 0 {
      BitsOfZero(k - 1);
    }
  }

  lemma {:induction false} BytesConcat(a: seq<byte>, b: seq<byte>)
    ensures BytesToBits(a + b) == BytesToBits(a) + BytesToBits(b)
  {
    if |b| == 0 {
      assert a + b == a;
    } else {
      var n := |b| - 1;
      BytesConcat(a, b[..n]);
      assert (a + b)[..|a + b| - 1] == a + b[..n];
    }
  }

  lemma BytesSingle(x: byte)
    ensures BytesToBits([x]) == Bits(x, 8)
  {
    assert [x][..0] == [];
  }

  lemma LastByte(a: seq<byte>)
    requires a != []
    ensures BytesToBits(a) == BytesToBits(a[..|a| - 1]) + Bits(a[|a| - 1], 8)
  {
  }

  lemma SameParts(x: BitString, y: BitString, u: BitString, v: BitString)
    requires x + u == y + v && |u| == |v|
    ensures x == y && u == v
  {
    assert x == (x + u)[..|x|] && y == (y + v)[..|y|];
    assert u == (x + u)[|x|..] && v == (y + v)[|y|..];
  }

  lemma ByteInjective(x: byte, y: byte)
    requires Bits(x, 8) == Bits(y, 8)
    ensures x == y
  {
    ByteBound();
    ValueBits(x, 8);
    ValueBits(y, 8);
  }

  /** A byte string is determined by its bits. */
  lemma {:induction false} BytesInjective(a: seq<byte>, b: seq<byte>)
    requires BytesToBits(a) == BytesToBits(b)
    ensures a == b
  {
    hide BytesToBits, Bits;
    assert |a| == |b|;
    if |a| > 0 {
      var n := |a| - 1;
      LastByte(a);
      LastByte(b);
      SameParts(BytesToBits(a[..n]), BytesToBits(b[..n]), Bits(a[n], 8), Bits(b[n], 8));
      ByteInjective(a[n], b[n]);
      BytesInjective(a[..n], b[..n]);
      assert a == a[..n] + [a[n]] && b == b[..n] + [b[n]];
    }
  }

  lemma ByteBound()
    ensures Pow2(8) == 256
  {
  }

  /** Number of zero bits that fill n bits up to whole bytes. */
  function Padding(n: nat): nat {
    (8 - n % 8) % 8
  }

  /** Whole bytes made from their bits. */
  function WholeBytes(b: BitString): (r: seq<byte>)
    requires |b| % 8 == 0
    ensures BytesToBits(r) == b
  {
    if |b| == 0 then []
    else
      var n := |b| - 8;
      BitsValue(b[n..]);
      ByteBound();
      assert b == b[..n] + b[n..];
      BytesConcat(WholeBytes(b[..n]), [Value(b[n..])]);
      BytesSingle(Value(b[n..]));
      WholeBytes(b[..n]) + [Value(b[n..])]
  }

  /** The bits in whole bytes, the last one filled up with zeros. */
  function Packed(b: BitString): (r: seq<byte>)
    ensures BytesToBits(r) == b + Zeros(Padding(|b|))
  {
    WholeBytes(b + Zeros(Padding(|b|)))
  }

  lemma PackedUnique(b: BitString, r: seq<byte>, k: nat)
    requires k < 8 && BytesToBits(r) == b + Zeros(k)
    ensures r == Packed(b)
  {
    assert |b| + k == 8 * |r|;
    assert k == Padding(|b|);
    BytesInjective(r, Packed(b));
  }

  // ----- operators of the source

  /** v << k on a 32-bit long. */
  function ShiftLeft32(v: nat, k: nat): nat {
    (v * Pow2(k)) % 0x1_0000_0000
  }

  /** a | b on bytes. */
  function Or(a: nat, b: nat): byte {
    ByteBound();
    OrBits(a, b, 8)
  }

  function OrBits(a: nat, b: nat, k: nat): (r: nat)
    ensures r < Pow2(k)
  {
    if k == 0 then 0 else 2 * OrBits(a / 2, b / 2, k - 1) + if a % 2 == 1 || b % 2 == 1 then 1 else 0
  }

  /** Bytes with no bit in common: the lower i bits of the one are clear, the other has only those. */
  lemma {:induction false} OrDisjoint(hi: nat, b: nat, i: nat, k: nat)
    requires i <= k && hi * Pow2(i) < Pow2(k) && b < Pow2(i)
    ensures OrBits(hi * Pow2(i), b, k) == hi * Pow2(i) + b < Pow2(k)
  {
    if k == 0 {
    } else if i == 0 {
      OrZero(hi, k);
    } else {
      var h := hi * Pow2(i - 1);
      assert hi * Pow2(i) == 2 * h;
      OrDisjoint(hi, b / 2, i - 1, k - 1);
    }
  }

  lemma {:induction false} OrZero(a: nat, k: nat)
    requires a < Pow2(k)
    ensures OrBits(a, 0, k) == a
  {
    if k > 0 {
      OrZero(a / 2, k - 1);
    }
  }

  /** v & ~u for a power of two u. */
  function ClearBit(v: nat, u: nat): nat
    requires u > 0
  {
    if (v / u) % 2 == 1 then v - u else v
  }
}
