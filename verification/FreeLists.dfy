/** What several parts make together: dcopy's files and its free list, and df counting the lists of dcopy and mkfs. */
module FreeLists {
  import opened FreeChain
  import opened DcopyAlloc
  import opened Rounding
  import opened AddressTree
  import opened AddressNodes
  import opened BmapOrder
  import opened Lists
  import DcopyMap
  import DcopyFree
  import MkfsFree
  import Df

  // ----- all files, then the free list

  /** Reading the file gives no wrong address, and every one given out exactly if it fits as far as it was answered. */
  ghost predicate ReadsAs(addr: seq<int>, disk: Disk, present: seq<bool>, answers: seq<int>) {
    && |addr| == NADDR && |answers| == |present|
    && (forall k: nat :: ReadAddress(addr, disk, k) == NONE
                         || (k < |answers| && ReadAddress(addr, disk, k) == answers[k] != 0))
    && if Fits(DcopyMap.Calls(present[..DcopyMap.Tried(present, answers)]))
       then forall k :: 0 <= k < |answers| && answers[k] != 0 ==> ReadAddress(addr, disk, k) == answers[k]
       else exists k :: 0 <= k < |answers| && answers[k] != 0 && ReadAddress(addr, disk, k) == NONE
  }

  /** The files copied so far are on disk; their blocks have been given out, each to one of them. */
  ghost predicate Copied(inodes: seq<seq<int>>, disk: Disk, files: seq<seq<bool>>, answers: seq<seq<int>>,
                         given: seq<int>) {
    && |inodes| == |answers| <= |files|
    && (forall f :: 0 <= f < |answers| ==> ReadsAs(inodes[f], disk, files[f], answers[f]) && OnDisk(inodes[f], disk))
    && (forall f, k :: 0 <= f < |answers| && 0 <= k < |answers[f]| && answers[f][k] != 0 ==> answers[f][k] in given)
    && Apart(answers)
  }

  /** No block belongs to two files. */
  ghost predicate Apart(answers: seq<seq<int>>) {
    forall f, g, j, k :: 0 <= f < g < |answers| && 0 <= j < |answers[f]| && 0 <= k < |answers[g]| && answers[f][j] != 0
      ==> answers[f][j] != answers[g][k]
  }

  lemma StillReads(addr: seq<int>, disk: Disk, disk': Disk, present: seq<bool>, answers: seq<int>)
    requires ReadsAs(addr, disk, present, answers) && OnDisk(addr, disk)
    requires forall b :: b in disk ==> b in disk' && disk'[b] == disk[b]
    ensures ReadsAs(addr, disk', present, answers) && OnDisk(addr, disk')
  {
    hide ReadAddress, OnDisk, Fits;
    TreeSurvives(addr, disk, disk');
  }

  lemma StillCopied(inodes: seq<seq<int>>, disk: Disk, disk': Disk, files: seq<seq<bool>>, answers: seq<seq<int>>,
                    given: seq<int>)
    requires Copied(inodes, disk, files, answers, given) && forall b :: b in disk ==> b in disk' && disk'[b] == disk[b]
    ensures Copied(inodes, disk', files, answers, given)
  {
    hide ReadsAs, OnDisk;
    forall f | 0 <= f < |answers|
      ensures |inodes[f]| == NADDR && ReadsAs(inodes[f], disk', files[f], answers[f]) && OnDisk(inodes[f], disk')
    {
      Sized(inodes[f], disk, files[f], answers[f]);
      StillReads(inodes[f], disk, disk', files[f], answers[f]);
    }
  }

  lemma Sized(addr: seq<int>, disk: Disk, present: seq<bool>, answers: seq<int>)
    requires ReadsAs(addr, disk, present, answers)
    ensures |addr| == NADDR
  {
  }

  lemma OneMoreFile(inodes: seq<seq<int>>, disk: Disk, files: seq<seq<bool>>, answers: seq<seq<int>>, given: seq<int>,
                    given': seq<int>, addr: seq<int>, ans: seq<int>)
    requires Copied(inodes, disk, files, answers, given) && |answers| < |files|
             && forall b :: b in given ==> b in given'
    requires ReadsAs(addr, disk, files[|answers|], ans) && OnDisk(addr, disk)
    requires forall k :: 0 <= k < |ans| && ans[k] != 0 ==> ans[k] !in given && ans[k] in given'
    ensures Copied(inodes + [addr], disk, files, answers + [ans], given')
  {
    hide ReadsAs, OnDisk;
    var all := answers + [ans];
    assert forall f :: 0 <= f < |answers| ==> all[f] == answers[f] && (inodes + [addr])[f] == inodes[f];
    forall f, g, j, k | 0 <= f < g < |all| && 0 <= j < |all[f]| && 0 <= k < |all[g]| && all[f][j] != 0
      ensures all[f][j] != all[g][k]
    {
      if g == |answers| {
        assert all[f][j] in given;
      }
    }
  }

  /** Pass 1: the files one after the other; inodes has the addresses of each. */
  method CopyFiles(mapper: DcopyMap.Mapper, files: seq<seq<bool>>)
    returns (inodes: seq<seq<int>>, answers: seq<seq<int>>)
    requires mapper.Idle() && mapper.alloc.Valid()
    modifies mapper, mapper.addr1, mapper.wbuf
    modifies mapper.alloc, mapper.alloc.all0, mapper.alloc.all1, mapper.alloc.all0.flg, mapper.alloc.all1.flg
    ensures mapper.Idle() && mapper.alloc.Valid() && |answers| == |files|
    ensures Copied(inodes, mapper.disk, files, answers, mapper.alloc.given)
  {
    hide Copied, Allocator.Valid, Allocator.Exhausted, OnDisk, ReadsAs, ReadAddress, Fits;
    inodes, answers := [], [];
    NoFiles(mapper.disk, files, mapper.alloc.given);
    for f := 0 to |files|
      invariant mapper.Idle() && mapper.alloc.Valid() && |answers| == f
      invariant Copied(inodes, mapper.disk, files, answers, mapper.alloc.given)
    {
      ghost var disk, given := mapper.disk, mapper.alloc.given;
      var ans := mapper.CopyFile(files[f]);
      Reads(mapper.addr1[..], mapper.disk, files[f], ans);
      StillCopied(inodes, disk, mapper.disk, files, answers, given);
      OneMoreFile(inodes, mapper.disk, files, answers, given, mapper.alloc.given, mapper.addr1[..], ans);
      inodes, answers := inodes + [mapper.addr1[..]], answers + [ans];
    }
  }

  lemma NoFiles(disk: Disk, files: seq<seq<bool>>, given: seq<int>)
    ensures Copied([], disk, files, [], given)
  {
  }

  lemma Reads(addr: seq<int>, disk: Disk, present: seq<bool>, answers: seq<int>)
    requires |addr| == NADDR && |answers| == |present|
    requires forall k: nat :: ReadAddress(addr, disk, k) == NONE
                              || (k < |answers| && ReadAddress(addr, disk, k) == answers[k] != 0)
    requires if Fits(DcopyMap.Calls(present[..DcopyMap.Tried(present, answers)]))
             then forall k :: 0 <= k < |answers| && answers[k] != 0 ==> ReadAddress(addr, disk, k) == answers[k]
             else exists k :: 0 <= k < |answers| && answers[k] != 0 && ReadAddress(addr, disk, k) == NONE
    ensures ReadsAs(addr, disk, present, answers)
  {
  }

  lemma GivenOnce(alloc: Allocator, given: seq<int>, s: seq<int>)
    requires alloc.Valid() && alloc.given == given + s
    ensures forall b :: b in s ==> b !in given
  {
    alloc.AtMostAll();
    forall b | b in s
      ensures b !in given
    {
      var i :| 0 <= i < |s| && s[i] == b;
      NotInBoth(given, s, i);
    }
  }

  /** The free list is written to blocks that no file has. */
  lemma FreeApart(inodes: seq<seq<int>>, disk: Disk, disk': Disk, files: seq<seq<bool>>, answers: seq<seq<int>>,
                  given: seq<int>, s: seq<int>)
    requires Copied(inodes, disk, files, answers, given) && (forall b :: b in disk ==> b in given)
    requires (forall b :: b in s ==> b !in given)
             && forall b :: b !in s && b in disk ==> b in disk' && disk'[b] == disk[b]
    ensures Copied(inodes, disk', files, answers, given)
    ensures forall f, k :: 0 <= f < |answers| && 0 <= k < |answers[f]| && answers[f][k] != 0 ==> answers[f][k] !in s
  {
    hide ReadsAs, OnDisk;
    StillCopied(inodes, disk, disk', files, answers, given);
  }

  lemma MoreGiven(inodes: seq<seq<int>>, disk: Disk, files: seq<seq<bool>>, answers: seq<seq<int>>, given: seq<int>,
                  s: seq<int>)
    requires Copied(inodes, disk, files, answers, given)
    ensures Copied(inodes, disk, files, answers, given + s)
  {
    hide ReadsAs, OnDisk;
  }

  /**
   Pass 1 and pass 3 of dcopy: any number of files, one after the other, and
   then the free list. Every file can be read as it was written, no block
   belongs to two files, and none of a file's blocks is on the free list.
   */
  method CopyAll(mapper: DcopyMap.Mapper, super: DcopyFree.Super, files: seq<seq<bool>>)
    returns (inodes: seq<seq<int>>, answers: seq<seq<int>>, ghost s: seq<int>)
    requires mapper.Idle() && super.Sizes() && mapper.alloc == super.alloc && mapper.alloc.Valid()
    requires mapper.addr1 != super.free && mapper.addr1 != super.buf
             && forall k :: 0 <= k < NICFREE ==> super.free[k] == 0
    modifies mapper, mapper.addr1, mapper.wbuf, super, super.free, super.buf
    modifies super.alloc, super.alloc.all0, super.alloc.all1, super.alloc.all0.flg, super.alloc.all1.flg
    ensures |answers| == |files| && Copied(inodes, super.disk, files, answers, mapper.alloc.given)
    ensures Chain(super.nfree, super.free[..], super.disk, s) && super.alloc.Exhausted()
    ensures forall f, k :: 0 <= f < |answers| && 0 <= k < |answers[f]| && answers[f][k] != 0 ==> answers[f][k] !in s
  {
    hide Copied, Allocator.Valid, Allocator.Exhausted, Chain;
    inodes, answers := CopyFiles(mapper, files);
    ghost var disk, given := mapper.disk, mapper.alloc.given;
    super.disk := mapper.disk;
    s := super.Freelist();
    GivenOnce(super.alloc, given, s);
    FreeApart(inodes, disk, super.disk, files, answers, given, s);
    MoreGiven(inodes, super.disk, files, answers, given, s);
  }

  /** After dcopy, the free blocks df finds and the blocks of the files are all the data blocks there are. */
  method CountAfterDcopy(super: DcopyFree.Super) returns (n: nat)
    requires super.Sizes() && super.alloc.Valid()
    requires forall k :: 0 <= k < NICFREE ==> super.free[k] == 0
    modifies super, super.free, super.buf
    modifies super.alloc, super.alloc.all0, super.alloc.all1, super.alloc.all0.flg, super.alloc.all1.flg
    ensures n == super.tfree && |old(super.alloc.given)| + n == super.alloc.fsize - super.alloc.fmin
  {
    ghost var s := super.Freelist();
    super.alloc.EverythingGiven();
    super.alloc.AllInRange();
    assert forall b :: b in s ==> b in super.alloc.given;
    var df := new Df.FreeCount(super.alloc.fmin, super.alloc.fsize, super.disk, super.nfree, super.free[..]);
    n := df.CountFree(s);
  }

  /** After mkfs, df finds as many blocks as the superblock says. */
  method CountAfterMkfs(fs: MkfsFree.Filsys, f_m: nat, f_n: nat) returns (n: nat, adr: seq<nat>)
    requires fs.Sizes() && fs.nfree == 0 && 0 < f_n < MkfsFree.MAXFN && 0 < fs.isize && 0 < fs.fsize
    modifies fs, fs.free
    ensures MkfsFree.Permutation(adr, f_n)
            && n == fs.tfree == |MkfsFree.Stacked(adr, RoundUp(fs.fsize - 1, f_n), fs.isize, fs.fsize)|
  {
    adr := fs.BFList(f_m, f_n);
    ghost var s := MkfsFree.Stacked(adr, RoundUp(fs.fsize - 1, f_n), fs.isize, fs.fsize);
    MkfsFree.BlocksOnList(adr, fs.isize, fs.fsize);
    var df := new Df.FreeCount(fs.isize, fs.fsize, fs.disk, fs.nfree, fs.free[..]);
    n := df.CountFree(s);
  }
}
