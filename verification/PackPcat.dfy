/** pack followed by pcat, and what else the two files' arithmetic promises. */
module PackPcat {
  import opened BitStrings
  import opened PackParams
  import opened CanonicalCode
  import opened PackFormat
  import opened PackText
  import opened PackLaws
  import opened RoundTrip
  import HuffmanTree
  import Pack
  import Pcat

  /** Whatever tree the heap produced, unpacking the file written from it restores the text. */
  lemma {:induction false} PackedTextUnpacks(t: HuffmanTree.Tree, text: seq<byte>, lens: seq<nat>, stale: seq<byte>)
    requires TreeFor(t, text) && text != [] && |lens| == SYMBOLS && DepthsOf(t, lens)
    requires HuffmanTree.Height(t) <= MAXLEV && |text| < 0x1_0000_0000 && |stale| == BLKSIZE
    ensures Unpack(PackedFile(lens, HuffmanTree.Height(t), text), stale) == Unpacked(text)
  {
    TreeServes(t, text, lens);
    UnpackInvertsPack(lens, HuffmanTree.Height(t), text, stale);
  }

  /** A file packed from nothing cannot be unpacked: no code word is there to be read. */
  lemma EmptyFileFails(lens: seq<nat>, last: byte, stale: seq<byte>)
    requires |lens| == SYMBOLS && |stale| == BLKSIZE
    ensures Unpack(Header(lens, 0, last, 0), stale) == UnpackingError([])
  {
    var file := Header(lens, 0, last, 0);
    assert file == [31, 30, 0, 0, 0, 0, 0, last];
    var block := FirstBlock(file, stale);
    assert forall k :: 0 <= k < 8 ==> block[k] == file[k];
    assert block[7..7] == [];
    var d := ParseDictionary(block, 8).value;
    assert HeaderLength(d) == 8;
    assert file[8..] == [];
    assert BytesToBits([]) == [];
  }

  /** What a packed file unpacks to. */
  lemma PackedUnpacks(t: HuffmanTree.Tree, text: seq<byte>, lens: seq<nat>, last: byte, stale: seq<byte>,
                      file: seq<byte>)
    requires |lens| == SYMBOLS && |stale| == BLKSIZE && |text| < 0x1_0000_0000
    requires text != [] ==>
               && TreeFor(t, text) && DepthsOf(t, lens) && HuffmanTree.Height(t) <= MAXLEV
               && file == PackedFile(lens, HuffmanTree.Height(t), text)
    requires text == [] ==> file == Header(lens, 0, last, 0)
    ensures Unpack(file, stale) == if text != [] then Unpacked(text) else UnpackingError([])
  {
    hide TreeFor, DepthsOf, PackedFile, Header, Unpack;
    if text != [] {
      PackedTextUnpacks(t, text, lens, stale);
    } else {
      EmptyFileFails(lens, last, stale);
    }
  }

  /** Packing and unpacking: a packed file gives back the text exactly when the text is not empty. */
  method PackThenUnpack(text: seq<byte>, force: bool, stale: seq<byte>)
    returns (r: Pack.Verdict, o: Pcat.Outcome, out: seq<byte>)
    requires |text| < Pack.MAXSIZE && |stale| == BLKSIZE
    ensures r == Pack.Trivial <==> |Symbols(text)| == 2
    ensures |text| < 196417 ==> r != Pack.TooManyLevels
    ensures r == Pack.Compressed ==> (o == Pcat.Ok && out == text <==> text != [])
  {
    hide TreeFor, DepthsOf, PackedFile, Header, Unpack, HuffmanTree.Height, Symbols, Pack.EstimatedSize, Pack.Blocks;
    o, out := Pcat.NotInFormat, [];
    var packer := new Pack.Packer(text);
    ghost var t;
    r, t := packer.PackFile(force);
    if r != Pack.Trivial && |text| < 196417 {
      ShortFilesFit(t, text);
    }
    if r == Pack.Compressed {
      PackedUnpacks(t, text, packer.length[..], (packer.levcount[0] + 254) % 256, stale, packer.outfile);
      var unpacker := new Pcat.Unpacker(packer.outfile, stale);
      o := unpacker.GetDict();
      out := unpacker.outfile;
    }
  }
}
