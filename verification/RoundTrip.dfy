/** pcat undoes pack: the law the two programs exist for, on the byte format alone. */
module RoundTrip {
  import opened Sums
  import opened BitStrings
  import opened CanonicalCode
  import opened PackFormat
  import opened PackParams

  /** Code lengths that serve a text: a full code of height 1..24 with END on the deepest level. */
  ghost predicate Serves(lens: seq<nat>, m: nat, text: seq<byte>) {
    && |lens| == END + 1 && 0 < m <= 24
    && FullCode(lens, m)
    && lens[END] == m
    && forall k :: 0 <= k < |text| ==> lens[text[k]] > 0
  }

  // ----- counting symbols per level

  lemma {:induction false} TwoLevels(lens: seq<nat>, i: nat, j: nat)
    requires i != j
    ensures |At(lens, i)| + |At(lens, j)| <= |lens|
  {
    if |lens| > 0 {
      TwoLevels(lens[..|lens| - 1], i, j);
    }
  }

  lemma {:induction false} UpToSnocLength(lens: seq<nat>, k: nat)
    requires |lens| > 0
    ensures |UpTo(lens, k)| == |UpTo(lens[..|lens| - 1], k)| + if 0 < lens[|lens| - 1] <= k then 1 else 0
  {
    if k > 0 {
      UpToSnocLength(lens, k - 1);
    }
  }

  lemma {:induction false} UpToLength(lens: seq<nat>, k: nat)
    ensures |UpTo(lens, k)| <= |lens|
  {
    if |lens| > 0 {
      UpToSnocLength(lens, k);
      UpToLength(lens[..|lens| - 1], k);
    } else {
      UpToEmpty(k);
    }
  }

  /** No more symbols than there are, also part way through a level. */
  lemma {:induction false} LevelsFit(lens: seq<nat>, k: nat, c: nat)
    requires k > 0 && c <= |lens|
    ensures |UpTo(lens, k - 1)| + |At(lens[..c], k)| <= |lens|
  {
    UpToLength(lens, k);
    AtPrefix(lens, c, k);
  }

  lemma {:induction false} AtPrefix(lens: seq<nat>, c: nat, i: nat)
    requires c <= |lens|
    ensures |At(lens[..c], i)| <= |At(lens, i)|
  {
    if c < |lens| {
      AtPrefix(lens[..|lens| - 1], c, i);
      assert lens[..|lens| - 1][..c] == lens[..c];
    } else {
      assert lens[..c] == lens;
    }
  }

  lemma {:induction false} UpToEmpty(k: nat)
    ensures UpTo([], k) == []
  {
    if k > 0 {
      UpToEmpty(k - 1);
    }
  }

  /** Leaving out a last symbol of level m leaves the levels below m alone. */
  lemma {:induction false} UpToInit(lens: seq<nat>, m: nat, k: nat)
    requires |lens| > 0 && k < m && lens[|lens| - 1] == m
    ensures UpTo(lens, k) == UpTo(lens[..|lens| - 1], k)
  {
    if k > 0 {
      UpToInit(lens, m, k - 1);
    }
  }

  /** END comes last of all symbols. */
  lemma {:induction false} EndIsLast(lens: seq<nat>, m: nat)
    requires |lens| == END + 1 && 0 < m && lens[END] == m
    ensures UpTo(lens, m) == UpTo(lens[..END], m) + [END]
  {
    UpToInit(lens, m, m - 1);
  }

  lemma {:induction false} UpToPrefix(lens: seq<nat>, i: nat, k: nat)
    requires i <= k
    ensures |UpTo(lens, i)| <= |UpTo(lens, k)|
    ensures UpTo(lens, k)[..|UpTo(lens, i)|] == UpTo(lens, i)
  {
    hide At;
    if i < k {
      UpToPrefix(lens, i, k - 1);
      var a, b := UpTo(lens, k - 1), At(lens, k);
      assert UpTo(lens, k) == a + b;
      PrefixOfSum(a, b, |UpTo(lens, i)|);
    }
  }

  lemma PrefixOfSum(a: seq<nat>, b: seq<nat>, n: nat)
    requires n <= |a|
    ensures (a + b)[..n] == a[..n]
  {
  }

  /** Where symbol c stands in the level-by-level list. */
  lemma {:induction false} Position(lens: seq<nat>, m: nat, c: nat)
    requires c < |lens| && 0 < lens[c] <= m
    ensures |UpTo(lens, lens[c] - 1)| + Rank(lens, c) < |UpTo(lens, m)|
    ensures UpTo(lens, m)[|UpTo(lens, lens[c] - 1)| + Rank(lens, c)] == c
  {
    hide At, Rank;
    RankFinds(lens, c);
    UpToPrefix(lens, lens[c], m);
    assert UpTo(lens, lens[c]) == UpTo(lens, lens[c] - 1) + At(lens, lens[c]);
    hide UpTo;
    var p := |UpTo(lens, lens[c] - 1)| + Rank(lens, c);
    assert UpTo(lens, lens[c])[p] == c;
    assert UpTo(lens, m)[..|UpTo(lens, lens[c])|][p] == c;
  }

  // ----- the header survives

  /** The numbers of leaves the reader recovers from the count bytes. */
  ghost predicate CountsOf(counts: seq<byte>, lens: seq<nat>, m: nat) {
    && |counts| == m
    && forall i :: 0 <= i < m ==> counts[i] == |At(lens, i + 1)| - if i == m - 1 then 2 else 0
  }

  lemma {:induction false} CountsFit(lens: seq<nat>, m: nat, text: seq<byte>)
    requires Serves(lens, m, text)
    ensures 2 <= |At(lens, m)|
    ensures CountsOf(CountBytes(lens, m, (|At(lens, m)| + 254) % 256), lens, m)
  {
    hide At, FullCode, Inner, Rank;
    RankFinds(lens, END);
    LevelDoubles(lens, m, m);
    TwoLevels(lens, m, m + 1);
    var r := CountBytes(lens, m, (|At(lens, m)| + 254) % 256);
    forall i | 0 <= i < m - 1
      ensures r[i] == |At(lens, i + 1)|
    {
      TwoLevels(lens, i + 1, m);
    }
  }

  lemma {:induction false} TotalsAgree(counts: seq<byte>, lens: seq<nat>, m: nat, k: nat)
    requires CountsOf(counts, lens, m) && k <= m
    ensures Total(counts[..k]) == |UpTo(lens, k)| - if k == m && m > 0 then 2 else 0
  {
    if k > 0 {
      TotalsAgree(counts, lens, m, k - 1);
      assert counts[..k][..k - 1] == counts[..k - 1];
    }
  }

  lemma {:induction false} InnerAgrees(counts: seq<byte>, lens: seq<nat>, m: nat, i: nat)
    requires CountsOf(counts, lens, m)
    ensures InnerFrom(Leaves(counts), i) == Inner(lens, m, i)
    decreases m - i
  {
    if i < m {
      InnerAgrees(counts, lens, m, i + 1);
    }
  }

  /** The tables getdict builds from lengths lens. */
  ghost predicate TablesOf(d: Dictionary, lens: seq<nat>, m: nat, size: nat)
    requires |lens| == END + 1
  {
    && d.origsize == size && d.maxlev == m && |d.inner| == |d.tree| == m + 1
    && (forall i :: 0 < i <= m ==> d.inner[i] == Inner(lens, m, i))
    && (forall i :: 0 < i <= m ==> d.tree[i] == |UpTo(lens, i - 1)|)
    && d.chars == AsBytes(UpTo(lens[..END], m))
  }

  /** The pieces of the header, as the reader finds them at the start of a block. */
  ghost predicate Layout(block: seq<byte>, size: nat, m: nat, counts: seq<byte>, symbols: seq<byte>) {
    && |counts| == m && m <= 24 && |block| >= 7 + m + |symbols|
    && block[0] == 31 && block[1] == 30 && block[2..6] == BigEndian(size) && block[6] == m
    && block[7..7 + m] == counts && block[7 + m..7 + m + |symbols|] == symbols
  }

  lemma HeaderLayout(lens: seq<nat>, m: nat, size: nat, last: byte, block: seq<byte>)
    requires |lens| == END + 1 && 0 < m <= 24 && Header(lens, m, last, size) <= block
    ensures Layout(block, size, m, CountBytes(lens, m, last), AsBytes(UpTo(lens[..END], m)))
    ensures |Header(lens, m, last, size)| == 7 + m + |UpTo(lens[..END], m)|
  {
    var head := Header(lens, m, last, size);
    var counts, symbols := CountBytes(lens, m, last), AsBytes(UpTo(lens[..END], m));
    assert block[2..6] == head[2..6] == BigEndian(size);
    assert block[7..7 + m] == head[7..7 + m] == counts;
    assert block[7 + m..7 + m + |symbols|] == head[7 + m..7 + m + |symbols|] == symbols;
  }

  /** Parsing a block laid out for lengths lens builds their tables. */
  lemma {:induction false} LayoutParses(block: seq<byte>, n: nat, lens: seq<nat>, m: nat, size: nat, counts: seq<byte>,
                                        symbols: seq<byte>)
    requires |lens| == END + 1 && 0 < m <= 24 && lens[END] == m && |block| == BLKSIZE
    requires CountsOf(counts, lens, m) && symbols == AsBytes(UpTo(lens[..END], m))
    requires Layout(block, size, m, counts, symbols) && 7 + m + |symbols| <= n && size < 0x1_0000_0000
    ensures
      var r := ParseDictionary(block, n);
      r.Some? && TablesOf(r.value, lens, m, size) && HeaderLength(r.value) == 7 + m + |symbols|
  {
    hide At, UpTo, Inner, Total, InnerFrom;
    UpToLength(lens[..END], m);
    EndIsLast(lens, m);
    TotalsAgree(counts, lens, m, m);
    assert counts[..m] == counts;
    var total := Total(counts);
    assert total + 1 == |symbols|;
    BigEndianSurvives(size, block);
    var d := ParseDictionary(block, n).value;
    forall i | 0 < i <= m
      ensures d.inner[i] == Inner(lens, m, i) && d.tree[i] == |UpTo(lens, i - 1)|
    {
      InnerAgrees(counts, lens, m, i);
      TotalsAgree(counts, lens, m, i - 1);
    }
  }

  lemma HeadOfBlock(head: seq<byte>, tail: seq<byte>, stale: seq<byte>)
    requires |head| <= BLKSIZE && |stale| == BLKSIZE
    ensures head <= FirstBlock(head + tail, stale)
  {
    var file := head + tail;
    var n := if |file| < BLKSIZE then |file| else BLKSIZE;
    assert file[..n][..|head|] == head;
  }

  /** Number of bytes of the first block that come from the file. */
  function FirstRead(file: seq<byte>): nat {
    if |file| < BLKSIZE then |file| else BLKSIZE
  }

  /** A header is read back as the tables of its lengths, whatever follows it. */
  lemma {:induction false} HeaderParses(lens: seq<nat>, m: nat, size: nat, last: byte, payload: seq<byte>,
                                        stale: seq<byte>)
    requires |lens| == END + 1 && 0 < m <= 24 && lens[END] == m && size < 0x1_0000_0000 && |stale| == BLKSIZE
    requires CountsOf(CountBytes(lens, m, last), lens, m)
    ensures
      var file := Header(lens, m, last, size) + payload;
      var r := ParseDictionary(FirstBlock(file, stale), FirstRead(file));
      r.Some? && TablesOf(r.value, lens, m, size) && HeaderLength(r.value) == |Header(lens, m, last, size)|
  {
    var head := Header(lens, m, last, size);
    var file := head + payload;
    var block := FirstBlock(file, stale);
    UpToLength(lens[..END], m);
    HeadOfBlock(head, payload, stale);
    HeaderLayout(lens, m, size, last, block);
    LayoutParses(block, FirstRead(file), lens, m, size, CountBytes(lens, m, last), AsBytes(UpTo(lens[..END], m)));
  }

  lemma BigEndianSurvives(n: nat, block: seq<byte>)
    requires n < 0x1_0000_0000 && |block| >= 6 && block[2..6] == BigEndian(n)
    ensures ((block[2] as int * 256 + block[3]) * 256 + block[4]) * 256 + block[5] == n
  {
    assert block[2] == BigEndian(n)[0] && block[3] == BigEndian(n)[1];
    assert block[4] == BigEndian(n)[2] && block[5] == BigEndian(n)[3];
  }

  // ----- one code word

  lemma {:induction false} ShiftHalves(v: nat, j: nat)
    ensures ShiftRight(v, j + 1) == ShiftRight(v, j) / 2
  {
    if j > 0 {
      ShiftHalves(v / 2, j - 1);
    }
  }

  lemma {:induction false} ShiftOut(v: nat, j: nat)
    requires v < Pow2(j)
    ensures ShiftRight(v, j) == 0
  {
    if j > 0 {
      ShiftOut(v / 2, j - 1);
    }
  }

  /** Reading bit k extends the number read so far. */
  lemma {:induction false} BitAt(v: nat, L: nat, k: nat)
    requires k < L
    ensures ShiftRight(v, L - k - 1) == 2 * ShiftRight(v, L - k) + if Bits(v, L)[k] then 1 else 0
  {
    ShiftHalves(v, L - k - 1);
    if k < L - 1 {
      BitAt(v / 2, L - 1, k);
    }
  }

  /** A proper prefix of a code word always denotes an internal node. */
  lemma {:induction false} PrefixIsInner(lens: seq<nat>, m: nat, c: nat, k: nat)
    requires FullCode(lens, m) && c < |lens| && lens[c] > 0 && k < lens[c]
    ensures ShiftRight(CodeValue(lens, m, c), lens[c] - k) < Inner(lens, m, k)
    decreases lens[c] - k
  {
    hide At, Inner, FullCode, CodeValue, Pow2;
    var v, L := CodeValue(lens, m, c), lens[c];
    LongestFirst(lens, m);
    var below := ShiftRight(v, L - (k + 1));
    assert below < Inner(lens, m, k + 1) + |At(lens, k + 1)| by {
      if k == L - 1 {
        CodeValueFits(lens, m, c);
        assert below == v;
      } else {
        PrefixIsInner(lens, m, c, k + 1);
      }
    }
    ShiftHalves(v, L - (k + 1));
    LevelDoubles(lens, m, k + 1);
  }

  /** The last bit of a code word selects the symbol. */
  lemma {:induction false} Selects(d: Dictionary, lens: seq<nat>, m: nat, size: nat, c: nat)
    requires |lens| == END + 1 && FullCode(lens, m) && lens[END] == m && 0 < m && TablesOf(d, lens, m, size)
    requires c <= END && 0 < lens[c]
    ensures d.inner[lens[c]] <= CodeValue(lens, m, c)
    ensures
      var p := d.tree[lens[c]] + (CodeValue(lens, m, c) - d.inner[lens[c]]);
      if c == END then p == |d.chars| else p < |d.chars| && d.chars[p] == c
  {
    hide At, FullCode, Inner, UpTo, AsBytes, Rank, TablesOf;
    LongestFirst(lens, m);
    var L, s := lens[c], UpTo(lens[..END], m);
    TablesAt(d, lens, m, size, L);
    SymbolPlace(lens, m, c);
    if c != END {
      PlaceHolds(s, |UpTo(lens, L - 1)| + Rank(lens, c), c);
    }
  }

  lemma TablesAt(d: Dictionary, lens: seq<nat>, m: nat, size: nat, L: nat)
    requires |lens| == END + 1 && TablesOf(d, lens, m, size) && 0 < L <= m
    ensures |d.inner| == |d.tree| == m + 1 && d.inner[L] == Inner(lens, m, L) && d.tree[L] == |UpTo(lens, L - 1)|
    ensures d.chars == AsBytes(UpTo(lens[..END], m))
  {
    hide Inner, UpTo, AsBytes;
  }

  lemma PlaceHolds(s: seq<nat>, p: nat, c: nat)
    requires p < |s| && s[p] == c < 256
    ensures AsBytes(s)[p] == c
  {
  }

  /** The place of END is the end of the list of the other symbols; theirs are inside it. */
  lemma SymbolPlace(lens: seq<nat>, m: nat, c: nat)
    requires |lens| == END + 1 && lens[END] == m && 0 < m && c <= END && 0 < lens[c] <= m
    ensures
      var p, s := |UpTo(lens, lens[c] - 1)| + Rank(lens, c), UpTo(lens[..END], m);
      if c == END then p == |s| else p < |s| && s[p] == c
  {
    hide At, UpTo;
    EndIsLast(lens, m);
    if c == END {
      UpToInit(lens, m, m - 1);
      LastLevel(lens, m);
    } else {
      hide Rank;
      Position(lens, m, c);
    }
  }

  lemma LastLevel(lens: seq<nat>, m: nat)
    requires |lens| == END + 1 && 0 < m
    ensures UpTo(lens[..END], m) == UpTo(lens[..END], m - 1) + At(lens[..END], m)
  {
  }

  /** One bit that leads to an internal node. */
  lemma StepDown(d: Dictionary, bits: BitString, lev: nat, i: nat, b: bool, tail: BitString, next: nat,
                 out: seq<byte>)
    requires |d.inner| == |d.tree| == d.maxlev + 1 && lev <= d.maxlev && bits == [b] + tail
    requires next == 2 * i + (if b then 1 else 0) < d.inner[lev]
    ensures DecodeBits(d, bits, lev, i, out) == DecodeBits(d, tail, lev + 1, next, out)
  {
    assert bits[1..] == tail;
  }

  /** What decoding comes to once symbol c has been read. */
  function AfterSymbol(d: Dictionary, c: nat, rest: BitString, out: seq<byte>): Decoding
    requires |d.inner| == |d.tree| == d.maxlev + 1 && c <= END
  {
    if c == END then Finished(out)
    else
      var x: byte := c;
      DecodeBits(d, rest, 1, 0, out + [x])
  }

  /** One bit that leads to the leaf of c. */
  lemma StepLeaf(d: Dictionary, bits: BitString, lev: nat, i: nat, b: bool, tail: BitString, c: nat, out: seq<byte>)
    requires |d.inner| == |d.tree| == d.maxlev + 1 && lev <= d.maxlev && bits == [b] + tail && c <= END
    requires 2 * i + (if b then 1 else 0) >= d.inner[lev]
    requires
      var p := d.tree[lev] + (2 * i + (if b then 1 else 0) - d.inner[lev]);
      if c == END then p == |d.chars| else p < |d.chars| && d.chars[p] == c
    ensures DecodeBits(d, bits, lev, i, out) == AfterSymbol(d, c, tail, out)
  {
    assert bits[1..] == tail;
  }

  /** path[j] is the number the first j bits of word amount to; it stays internal until the leaf of c. */
  ghost predicate LeadsTo(d: Dictionary, word: BitString, path: seq<nat>, c: nat) {
    && |d.inner| == |d.tree| == d.maxlev + 1 && c <= END
    && 0 < |word| <= d.maxlev && |path| == |word| + 1
    && (forall j :: 0 <= j < |word| ==> path[j + 1] == 2 * path[j] + if word[j] then 1 else 0)
    && (forall j :: 0 < j < |word| ==> path[j] < d.inner[j])
    && var L := |word|;
       && d.inner[L] <= path[L]
       && var p := d.tree[L] + (path[L] - d.inner[L]);
       if c == END then p == |d.chars| else p < |d.chars| && d.chars[p] == c
  }

  /** Reading the rest of a code word from the state its first k bits lead to. */
  lemma {:induction false} ReadWord(d: Dictionary, word: BitString, path: seq<nat>, c: nat, k: nat, rest: BitString,
                                    out: seq<byte>)
    requires LeadsTo(d, word, path, c) && k < |word|
    ensures DecodeBits(d, word[k..] + rest, k + 1, path[k], out) == AfterSymbol(d, c, rest, out)
    decreases |word| - k
  {
    var tail := word[k + 1..] + rest;
    assert word[k..] + rest == [word[k]] + tail;
    if k + 1 < |word| {
      StepDown(d, word[k..] + rest, k + 1, path[k], word[k], tail, path[k + 1], out);
      ReadWord(d, word, path, c, k + 1, rest, out);
    } else {
      assert tail == rest;
      StepLeaf(d, word[k..] + rest, k + 1, path[k], word[k], rest, c, out);
    }
  }

  /** The numbers that the prefixes of a code word amount to. */
  function PathOf(lens: seq<nat>, m: nat, c: nat): (r: seq<nat>)
    requires c < |lens|
    ensures |r| == lens[c] + 1
  {
    seq(lens[c] + 1, j requires 0 <= j <= lens[c] => ShiftRight(CodeValue(lens, m, c), lens[c] - j))
  }

  lemma {:induction false} PathStep(lens: seq<nat>, m: nat, c: nat, j: nat)
    requires FullCode(lens, m) && c < |lens| && j < lens[c]
    ensures PathOf(lens, m, c)[j + 1] == 2 * PathOf(lens, m, c)[j] + (if Code(lens, m, c)[j] then 1 else 0)
    ensures PathOf(lens, m, c)[j] < Inner(lens, m, j)
  {
    BitAt(CodeValue(lens, m, c), lens[c], j);
    PrefixIsInner(lens, m, c, j);
  }

  lemma {:induction false} PathSteps(lens: seq<nat>, m: nat, c: nat)
    requires FullCode(lens, m) && c < |lens|
    ensures forall j :: 0 <= j < lens[c] ==>
              PathOf(lens, m, c)[j + 1] == 2 * PathOf(lens, m, c)[j] + if Code(lens, m, c)[j] then 1 else 0
    ensures forall j :: 0 <= j < lens[c] ==> PathOf(lens, m, c)[j] < Inner(lens, m, j)
  {
    forall j | 0 <= j < lens[c]
      ensures PathOf(lens, m, c)[j + 1] == 2 * PathOf(lens, m, c)[j] + if Code(lens, m, c)[j] then 1 else 0
      ensures PathOf(lens, m, c)[j] < Inner(lens, m, j)
    {
      PathStep(lens, m, c, j);
    }
  }

  lemma {:induction false} PathEnds(lens: seq<nat>, m: nat, c: nat)
    requires FullCode(lens, m) && c < |lens| && 0 < lens[c]
    ensures PathOf(lens, m, c)[0] == 0 && PathOf(lens, m, c)[lens[c]] == CodeValue(lens, m, c)
  {
    var v, L := CodeValue(lens, m, c), lens[c];
    CodeValueFits(lens, m, c);
    ShiftOut(v, L);
    assert PathOf(lens, m, c)[L] == ShiftRight(v, L - L) == ShiftRight(v, 0);
  }

  /** The code word of every symbol leads to it. */
  lemma {:induction false} CodeLeads(d: Dictionary, lens: seq<nat>, m: nat, size: nat, c: nat)
    requires |lens| == END + 1 && FullCode(lens, m) && lens[END] == m && 0 < m && TablesOf(d, lens, m, size)
    requires c <= END && 0 < lens[c]
    ensures LeadsTo(d, Code(lens, m, c), PathOf(lens, m, c), c)
  {
    PathSteps(lens, m, c);
    PathEnds(lens, m, c);
    Selects(d, lens, m, size, c);
  }

  /** Reading one whole code word. */
  lemma {:induction false} ReadCode(d: Dictionary, lens: seq<nat>, m: nat, size: nat, c: nat, rest: BitString,
                                    out: seq<byte>)
    requires |lens| == END + 1 && FullCode(lens, m) && lens[END] == m && 0 < m && TablesOf(d, lens, m, size)
    requires c <= END && 0 < lens[c]
    ensures DecodeBits(d, Code(lens, m, c) + rest, 1, 0, out) == AfterSymbol(d, c, rest, out)
  {
    CodeLeads(d, lens, m, size, c);
    PathEnds(lens, m, c);
    var word := Code(lens, m, c);
    ReadWord(d, word, PathOf(lens, m, c), c, 0, rest, out);
    assert word[0..] == word;
  }

  // ----- the whole text

  lemma {:induction false} EncodeTail(lens: seq<nat>, m: nat, text: seq<byte>)
    requires |lens| == END + 1 && |text| > 0
    ensures Encode(lens, m, text) == Code(lens, m, text[0]) + Encode(lens, m, text[1..])
  {
    hide Code;
    var n := |text| - 1;
    if n == 0 {
      assert text[..0] == [] && text[1..] == [];
      assert Encode(lens, m, []) == [];
    } else {
      EncodeTail(lens, m, text[..n]);
      assert text[..n][1..] == text[1..][..n - 1];
      Reassociate(Code(lens, m, text[0]), Encode(lens, m, text[1..][..n - 1]), Code(lens, m, text[n]));
    }
  }

  lemma Reassociate(a: BitString, b: BitString, c: BitString)
    ensures (a + b) + c == a + (b + c)
  {
  }

  lemma {:induction false} StreamTail(lens: seq<nat>, m: nat, text: seq<byte>, rest: BitString)
    requires |lens| == END + 1 && |text| > 0
    ensures Encode(lens, m, text) + Code(lens, m, END) + rest
         == Code(lens, m, text[0]) + (Encode(lens, m, text[1..]) + Code(lens, m, END) + rest)
  {
    EncodeTail(lens, m, text);
    hide Code, Encode;
    Regroup(Code(lens, m, text[0]), Encode(lens, m, text[1..]), Code(lens, m, END), rest);
  }

  lemma Regroup(a: BitString, b: BitString, c: BitString, d: BitString)
    ensures (a + b) + c + d == a + (b + c + d)
  {
  }

  lemma {:induction false} ReadText(d: Dictionary, lens: seq<nat>, m: nat, size: nat, text: seq<byte>, rest: BitString,
                                    out: seq<byte>)
    requires Serves(lens, m, text) && TablesOf(d, lens, m, size)
    ensures DecodeBits(d, Encode(lens, m, text) + Code(lens, m, END) + rest, 1, 0, out) == Finished(out + text)
    decreases |text|
  {
    hide FullCode, TablesOf, Code, DecodeBits;
    if |text| == 0 {
      assert Encode(lens, m, text) == [];
      assert Encode(lens, m, text) + Code(lens, m, END) + rest == Code(lens, m, END) + rest;
      ReadCode(d, lens, m, size, END, rest, out);
      assert out + text == out;
    } else {
      var tail := Encode(lens, m, text[1..]) + Code(lens, m, END) + rest;
      StreamTail(lens, m, text, rest);
      ReadCode(d, lens, m, size, text[0], tail, out);
      ReadText(d, lens, m, size, text[1..], rest, out + [text[0]]);
      assert out + [text[0]] + text[1..] == out + text;
    }
  }

  /** Unpacking a packed file gives back the text, whatever the read buffer held before. */
  lemma {:induction false} UnpackInvertsPack(lens: seq<nat>, m: nat, text: seq<byte>, stale: seq<byte>)
    requires Serves(lens, m, text) && |text| < 0x1_0000_0000 && |stale| == BLKSIZE
    ensures Unpack(PackedFile(lens, m, text), stale) == Unpacked(text)
  {
    hide At, FullCode, Encode, Code, Header, TablesOf, BytesToBits, DecodeBits, ParseDictionary, Packed, FirstBlock;
    var last: byte := (|At(lens, m)| + 254) % 256;
    var bits := Encode(lens, m, text) + Code(lens, m, END);
    var file := PackedFile(lens, m, text);
    CountsFit(lens, m, text);
    HeaderParses(lens, m, |text|, last, Packed(bits), stale);
    var d := ParseDictionary(FirstBlock(file, stale), FirstRead(file)).value;
    assert file[HeaderLength(d)..] == Packed(bits);
    ReadText(d, lens, m, |text|, text, Zeros(Padding(|bits|)), []);
    assert [] + text == text;
  }
}
