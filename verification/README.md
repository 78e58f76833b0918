# Verified models of UNIX System V commands

This project models the algorithmic core of several commands of a System V
source tree and proves what they are for.

* **pack and pcat.** The Huffman compressor builds its tree with a heap,
  assigns canonical code words and packs bits through a block buffer; the
  decompressor rebuilds the code from level counts alone. Both programs are
  classes with the arrays of the originals (`Pack`, `Pcat`); they meet in the
  byte format (`PackFormat`). The law that unpacking undoes packing is proved
  on the format (`RoundTrip`) and carried to the two programs (`PackPcat`).
  The tree is proved optimal among all prefix codes (`Optimality`,
  `HuffmanForest`, `HuffmanResult`, `PrefixCodes`), END is proved deepest,
  and a Fibonacci argument bounds the height (`PackLaws`).
* **dcopy, mkfs and df.** The two-ended cylinder allocator gives every block
  exactly once (`DcopyAlloc`); the free list dcopy builds from it
  (`DcopyFree`) and the one mkfs builds (`MkfsFree`) are the same kind of
  chain on disk (`FreeChain`), which df counts (`Df`, `FreeLists`). The
  address trees that mkfs writes at once (`MkfsInode`) read back every
  address (`AddressTree`). Those that dcopy grows through three write-back
  buffers (`IndirectBuffers`, `BmapSpec`, `BmapFile`, `DcopyMap`) do so
  exactly for certain patterns of places (`AddressNodes`, `BmapOrder`). Blocks may hold
  any number of addresses from 128 on.
* **join.** The merge loop with its rewinds prints exactly the nested-loop
  join and the selected unpaired lines (`JoinSpec`, `Join`).
* **frec.** The sorted list of blocks that grows while it is drained visits
  every block on the tape once (`Frec`).
* **init.** The main loop is a state machine whose steps alternate with
  signal handlers in any order (`InitTable`, `Init`); what is proved holds in
  every run.
* **fgrep.** The keyword automaton and its matcher print only lines that
  match (`Fgrep`); for which keywords its queue leaves the array or
  overflows is decided exactly (`FgrepOrder`, `FgrepQueue`, `FgrepTrie`).
* **bfs.** The index of line lengths finds every line again (`Bfs`).
* **factor.** The wheel of 48 steps finds the prime factors in order
  (`Factor`).

Fields that the programs update in place are fields and arrays of classes.
Specifications are functions on sequences; ghost arguments name the abstract
state a method starts from. Disks are maps from block numbers to contents,
files are sequences with a position.

Where code and comments disagree the code is followed. Four such places:

* the comment at pack.c:248 names 2^24 as the size from which a tree can have
  too many levels; it is 196417 (`DeepTrees`);
* the estimate at pack.c:254 is 1 to 4 bytes short of the file written, and its
  sum overflows for some files of each size from 268304448 bytes on (`PackSize`);
* dcopy.c:826-841 claims that three buffers are enough for triple indirection,
  which is so for files that fit in the sense of `BmapOrder`, among files
  without holes those of at most LIMIT + NINDIR^2 + 1 blocks;
* init.c:600-609 says that a power failure is never overlooked, which is so
  except between init.c:710 and 714 and in single user mode.

## Model

| member | source | states |
|---|---|---|
| `Pack.Packer.Input` | usr/src/cmd/pack.c:79-91 | every byte of the file, whatever the block boundaries, ends up counted twice in `count` |
| `Pack.Packer.CollectHeap` | usr/src/cmd/pack.c:197-209 | the heap array holds one entry per occurring symbol and END with its count; `insize` is twice the file size plus one and `diffbytes` the number of different bytes |
| `PackHeap.Heapify` | usr/src/cmd/pack.c:168-185 | sifting restores the heap order from the given entry down and permutes the entries |
| `PackHeap.RootIsLeastOfAll` | usr/src/cmd/pack.c:168-185 | in a heap so ordered no entry counts less than the root |
| `Pack.Packer.MergeStep` | usr/src/cmd/pack.c:220-230 | one turn merges the two lightest roots: the forest stays a partition of the symbols encoded in `parent`, and its cost stays minimal |
| `Pack.Packer.BuildTree` | usr/src/cmd/pack.c:218-231 | what the loop leaves in `parent` is a Huffman tree over the symbols that occur |
| `Optimality.MergeIsSafe` | usr/src/cmd/pack.c:221-228 | the exchange argument: for any depths that satisfy the Kraft inequality, merging the two lightest items loses nothing |
| `HuffmanResult.LastTreeIsHuffman` | usr/src/cmd/pack.c:218-231 | the last tree costs no more than any depths that satisfy the Kraft inequality |
| `PrefixCodes.KraftInequality` | usr/src/cmd/pack.c:261-273 | every prefix code satisfies the Kraft inequality, so the optimum is over all prefix codes |
| `PrefixCodes.NoPrefixCodeIsShorter` | usr/src/cmd/pack.c:218-245 | no prefix code on the symbols of the file has a smaller sum of weight times length than the tree |
| `HuffmanResult.LightestIsDeepest` | usr/src/cmd/pack.c:199-231 | a symbol lighter than all others is on the deepest level of an optimal tree |
| `PackLaws.EndIsDeepest` | usr/src/cmd/pack.c:113-120 | END weighs 1 and every byte at least 2, so END is on the deepest level |
| `PackLaws.TreeServes` | usr/src/cmd/pack.c:233-246 | the lengths taken from the tree form a full binary code with END on its last level and a code word for every byte of the text |
| `PackLaws.DeepTreeNeedsSize` | usr/src/cmd/pack.c:247-251 | a file whose tree is h levels high has at least Fib(h+2)-1 bytes |
| `PackLaws.ShortFilesFit` | usr/src/cmd/pack.c:247-251 | below 196417 bytes the branch "too many levels" is not taken |
| `DeepTrees.DeepAlways` | usr/src/cmd/pack.c:218-251 | for byte counts Fib(1), Fib(2), ... every Huffman tree, so whichever the program builds, has a level for each value |
| `DeepTrees.HeightsReached` | usr/src/cmd/pack.c:218-251 | for m up to 256: some file of s bytes has only Huffman trees of m levels or more if and only if s is at least Fib(m+2)-1, and no smaller file has one |
| `DeepTrees.TooManyLevelsFrom` | usr/src/cmd/pack.c:247-251 | so the branch "too many levels" is taken for some file of s bytes if and only if s is at least 196417 |
| `HuffmanResult.ClimbsAreDepths` | usr/src/cmd/pack.c:237-246 | climbing `parent` from a symbol counts its depth in the tree, and gives 0 for absent symbols |
| `Pack.Packer.AssignLengths` | usr/src/cmd/pack.c:233-246 | `length` holds the depths, `levcount` the number of symbols per level, `maxlev` the height, and the returned sum is the length of the encoded text, wrapped around as a 32-bit long is |
| `Pack.Packer.AssignCodes` | usr/src/cmd/pack.c:261-274 | every symbol gets its canonical code word, left-justified in 24 bits |
| `PackStream.LevelDone` | usr/src/cmd/pack.c:266-272 | after a level the mask is twice the number of inner nodes above it, so `mask &= ~inc` clears nothing that matters |
| `PrefixCodes.CodesArePrefixFree` | usr/src/cmd/pack.c:261-273 | no assigned code word begins another one |
| `PrefixCodes.CodesFillTheRoom` | usr/src/cmd/pack.c:261-273 | the code words padded to 24 bits occupy exactly 2^24 |
| `Pack.Packer.WriteHeader` | usr/src/cmd/pack.c:103-121 | magic bytes, big-endian size, `maxlev`, level counts with the last one reduced by 2, and the characters level by level |
| `RoundTrip.CountsFit` | usr/src/cmd/pack.c:114-116 | each level count, the last one after subtracting 2, is a number from 0 to 255 |
| `PackStream.Emit` | usr/src/cmd/pack.c:137-147 | shifting, or-ing and spilling one code word appends exactly its bits to the stream |
| `Pack.Packer.OutputCode` | usr/src/cmd/pack.c:136-156 | one symbol extends the output, the buffer and the bits left by its code word, across a flush of the block |
| `Pack.Packer.OutputText` | usr/src/cmd/pack.c:123-165 | the file is the header followed by the packed bits of the text and END, whatever the block boundaries |
| `Pack.Packer.PackFile` | usr/src/cmd/pack.c:188-276 | for every file below 2^30 bytes: which verdict is given, the one about saving from the wrapped sum, and that a packed file is the format's file for it |
| `PackSize.BitsOutIsLength` | usr/src/cmd/pack.c:245-245 | the sum over the symbols is the number of bits of the encoded text without END |
| `PackSize.BitsBound` | usr/src/cmd/pack.c:218-245 | the bits of the encoded text and half of those of END are at most 8 for each byte, one for each occurrence of any chosen value, and 4.5 |
| `PackSize.EstimateFits` | usr/src/cmd/pack.c:253-254 | the estimate is as meant if and only if the sum of the bits and 7 stays below 2^31, and for every file below 268304448 bytes it does |
| `PackLaws.TreeExists` | usr/src/cmd/pack.c:218-231 | every file has a Huffman tree |
| `PackSize.EvenBits` | usr/src/cmd/pack.c:218-245 | if all 256 values occur equally often, the last ones at most once less, every Huffman tree has 9 levels and the encoded text takes 8 bits a byte and one more for every 256 bytes |
| `PackSize.EstimateWraps` | usr/src/cmd/pack.c:253-258 | for such a file of 268304448 bytes or more the sum wraps around; below 2^30 bytes the file is packed unforced, although the packed form takes more blocks |
| `PackSize.MisjudgedFrom` | usr/src/cmd/pack.c:253-258 | so some file of s bytes has a wrong estimate if and only if s is at least 268304448, and (below 2^30) some is packed unforced at a loss if and only if s is at least that |
| `PackSize.EstimateIsLow` | usr/src/cmd/pack.c:253-258 | below 268304448 bytes the estimate misses the byte for `maxlev` and the bits of END: the file is 1 to 4 bytes longer |
| `PackSize.DecisionIsSafe` | usr/src/cmd/pack.c:253-258 | below 268304448 bytes: whenever packing would save a block the estimate says so, and packing unforced never costs one |
| `Pcat.Unpacker.GetDict` | usr/src/cmd/pcat.c:51-115 | on every file whatever, the outcome and the bytes written are those the format defines |
| `Pcat.Unpacker.ReadTables` | usr/src/cmd/pcat.c:78-113 | the tables agree with the dictionary in the block; malformed ones are refused |
| `Pcat.Unpacker.CountInner` | usr/src/cmd/pcat.c:108-113 | the numbers of leaves become the numbers of inner nodes of each level, in place |
| `Pcat.Unpacker.Decode` | usr/src/cmd/pcat.c:119-170 | the bit loop, its refills and flushes write what decoding the whole bit string at once gives |
| `PackFormat.StaleIrrelevant` | usr/src/cmd/pcat.c:61-103 | what the buffer held before does not influence the result |
| `RoundTrip.HeaderParses` | usr/src/cmd/pcat.c:77-113 | the dictionary of a packed file is read back: size, levels, inner nodes, characters in code order |
| `RoundTrip.PrefixIsInner` | usr/src/cmd/pcat.c:142-167 | a proper prefix of a code word numbers an inner node of its level |
| `RoundTrip.ReadCode` | usr/src/cmd/pcat.c:142-167 | reading a code word yields its symbol and nothing else, and END is the one that stops |
| `RoundTrip.UnpackInvertsPack` | usr/src/cmd/pcat.c:51-170 | unpacking the packed form of a text gives the text, for every text and code that serve each other |
| `PackPcat.PackedTextUnpacks` | usr/src/cmd/pcat.c:51-170 | the same for the code that pack.c derives from its tree |
| `PackPcat.EmptyFileFails` | usr/src/cmd/pcat.c:134-138 | the file packed by force from an empty one ends in "unpacking error" |
| `PackPcat.PackThenUnpack` | usr/src/cmd/pack.c:188-276 | running both programs: a packed file gives back the text if and only if the text is not empty |
| `DcopyAlloc.Cylinder.TakeSlot` | usr/src/cmd/dcopy.c:669-676 | the search ends, at the first slot in cyclic order that is free and in the data area |
| `DcopyAlloc.Allocator.InitialIsValid` | usr/src/cmd/dcopy.c:284-290 | the set-up starts a working allocator if and only if fmin does not begin a cylinder and its cylinder is not the last one |
| `DcopyAlloc.Allocator.NothingInFirst` | usr/src/cmd/dcopy.c:285-286 | if fmin begins a cylinder, no slot of the starting cylinder is in the data area, so the search would not end |
| `DcopyAlloc.Allocator.OneCylinder` | usr/src/cmd/dcopy.c:285-290 | with a single cylinder both ends find the same slots free, so a search from the same slot gives the same block |
| `DcopyAlloc.Allocator.SameTwice` | usr/src/cmd/dcopy.c:638-676 | from that set-up the first request for a young file and the first for an old one are given the same block |
| `DcopyAlloc.Allocator.TakeAll` | usr/src/cmd/dcopy.c:638-676 | and without -a, fsize - fmin requests give all data blocks of that cylinder, after which it has no slot to stop at |
| `DcopyAlloc.Allocator.SearchHangs` | usr/src/cmd/dcopy.c:632-676 | so the next request, which freelist makes in every copy, searches for ever, whether it finds room by the count or moves to a cylinder behind the data area |
| `DcopyAlloc.Allocator.NewCylinder` | usr/src/cmd/dcopy.c:637-660 | moving to a new cylinder, the switch to the shared one when the ends meet, and running out |
| `DcopyAlloc.Allocator.Alloc` | usr/src/cmd/dcopy.c:626-693 | every call gives a block in range that was never given before, or 0 exactly when all have been; then their number is fsize - fmin |
| `Lists.DistinctCount` | usr/src/cmd/dcopy.c:626-693 | a list of different blocks that covers a range has the length of the range |
| `FreeChain.ChainUnique` | usr/src/cmd/df.c:177-203 | what is popped from a superblock and disk is determined |
| `FreeChain.Continued` | usr/src/cmd/dcopy.c:1045-1064 | a chain that leads to a block continues with what is written there |
| `DcopyFree.PutLast` | usr/src/cmd/dcopy.c:1041-1064 | a full group of 50 extends the chain and leads on to its last block |
| `DcopyFree.NoMore` | usr/src/cmd/dcopy.c:1046-1061 | a partial group, moved down behind a 0, ends the chain; its first block is not one the chain leads to |
| `DcopyFree.Super.EndGroup` | usr/src/cmd/dcopy.c:1045-1061 | the in-place shift and where the group is written |
| `DcopyFree.Super.GroupEnd` | usr/src/cmd/dcopy.c:1045-1064 | each group end keeps the chain right, including the extra write to a free block that it does not lead to |
| `DcopyFree.Super.Freelist` | usr/src/cmd/dcopy.c:1010-1067 | the list pops exactly what alloc still had, in the order alloc gave it, its length is s_tfree, with the files it is all data blocks, and no other block is written |
| `Df.FreeCount.Alloc` | usr/src/cmd/df.c:177-203 | one call pops one block off the chain, loading the next group when the superblock is empty |
| `Df.FreeCount.CountFree` | usr/src/cmd/df.c:160-167 | the loop counts the blocks of the chain |
| `FreeLists.CountAfterDcopy` | usr/src/cmd/df.c:160-203 | df finds the number dcopy recorded, and together with the blocks of the files it is fsize - fmin |
| `FreeLists.CountAfterMkfs` | usr/src/cmd/df.c:160-203 | df finds the number mkfs recorded |
| `FreeLists.CopyAll` | usr/src/cmd/dcopy.c:601-610 | after any files and the free list: every file still reads back as CopyFile says, no block belongs to two files, and none of them is on the free list |
| `AddressTree.TreeReads` | usr/src/cmd/dcopy.c:751-824 | a tree that holds a list of addresses reads back every one of them, and nothing elsewhere |
| `AddressNodes.ReadIs` | usr/src/cmd/dcopy.c:751-824 | reading bn >> sh level by level is following the way to the data block numbered by its place |
| `AddressNodes.TreeSurvives` | usr/src/cmd/dcopy.c:751-824 | a tree all of whose indirect blocks are on disk reads the same on any larger disk |
| `IndirectBuffers.ReplaceView` | usr/src/cmd/dcopy.c:855-866 | giving up a buffer changes nothing but the new block in the disk as it will be |
| `IndirectBuffers.StoreView` | usr/src/cmd/dcopy.c:812-821 | storing an address changes its own indirect block only |
| `DcopyMap.Mapper.GetIndir` | usr/src/cmd/dcopy.c:843-870 | a hit changes nothing; otherwise the first buffer of the lowest level is written out if used, and emptied |
| `BmapFile.Freeable` | usr/src/cmd/dcopy.c:866-870 | "no freeable blocks" does not occur: one of the buffers is below level 3, since only the triple-indirect block is at level 3 |
| `BmapSpec.WriteKeeps` | usr/src/cmd/dcopy.c:751-824 | any write, whatever the buffers hold: the answer is what the place then reads; every other place reads what it did, or nothing; no block is used twice; "Write not at EOF" does not occur |
| `BmapSpec.WritePreserves` | usr/src/cmd/dcopy.c:751-824 | if the indirect blocks on the way are in buffers as far as they exist, no address is lost, and the buffers afterwards are those that visiting the way gives |
| `BmapSpec.MissLoses` | usr/src/cmd/dcopy.c:851-866 | if an indirect block that exists is in no buffer, every place below it but the one written is lost |
| `BmapOrder.OrderAfter` | usr/src/cmd/dcopy.c:843-870 | which levels the three buffers are at after each answered write of a file that fits, and that the way to the last place is in them |
| `BmapOrder.ParentGoes` | usr/src/cmd/dcopy.c:843-870 | from the second group on (the third, in a file of triple-indirect places only) a double-indirect block is given up by its own first child |
| `BmapFile.CallLoses` | usr/src/cmd/dcopy.c:843-870 | the next write in such a group then loses the place written last |
| `BmapOrder.RangeFits` | usr/src/cmd/dcopy.c:826-841 | places in a row fit up to LIMIT + NINDIR^2 + 1, or LIMIT + 2*NINDIR^2 + 1 if they begin at LIMIT, and no further |
| `DcopyMap.DenseFits` | usr/src/cmd/dcopy.c:826-841 | a file without holes fits if and only if it has at most LIMIT + NINDIR^2 + 1 blocks |
| `DcopyMap.Mapper.FixAddr` | usr/src/cmd/dcopy.c:972-986 | a new file starts with an empty tree, whatever the buffers still name |
| `DcopyMap.Mapper.Bmap` | usr/src/cmd/dcopy.c:751-824 | a call for a later place, through up to three indirections, does what BmapSpec.Write says with the blocks alloc gives, and keeps the invariant of the file |
| `DcopyMap.Mapper.FlushAddr` | usr/src/cmd/dcopy.c:994-1002 | after flushing, the inode and the disk hold the tree |
| `BmapFile.StopsNow` | usr/src/cmd/dcopy.c:751-824 | when the first call is refused in a file that fits up to there: what is on the way to the next places is in buffers, or has no data below it |
| `BmapFile.StopsOn` | usr/src/cmd/dcopy.c:751-824 | from then on no call loses an address, whether the file fits any further or not |
| `BmapFile.CallKeeps` | usr/src/cmd/dcopy.c:751-824 | one more call, whatever it is: all is whole if the calls up to the first refused one fit, else an address is lost for good |
| `DcopyMap.Mapper.CopyFile` | usr/src/cmd/dcopy.c:601-610 | for every pattern of holes and whenever alloc runs out: reading back after the flush never gives a wrong address, and it gives every answer if and only if the file fits up to the first refused call (or its end); earlier trees are intact |
| `DcopyMap.FitsFront` | usr/src/cmd/dcopy.c:826-841 | a file that fits does so up to any place, so whenever alloc runs out nothing of it is lost |
| `MkfsFree.Interleave` | usr/src/cmd/mkfs.c:710-719 | `adr` is a permutation of 1..f_n, each entry the first unused one from f_m after the last |
| `MkfsFree.Filsys.BFree` | usr/src/cmd/mkfs.c:626-645 | push: the list with the block on top, also when the superblock spills to disk |
| `MkfsFree.Filsys.Alloc` | usr/src/cmd/mkfs.c:573-591 | pop: the top of the list, also when the superblock is loaded from disk; running out is reported |
| `MkfsFree.Filsys.BFList` | usr/src/cmd/mkfs.c:732-754 | the list that is built, in order, and s_tfree |
| `MkfsFree.BlocksOnList` | usr/src/cmd/mkfs.c:737-754 | it holds every block in [s_isize, s_fsize) below the rounded-up size once; the last block is missing exactly if f_n divides s_fsize - 1 |
| `MkfsInode.FillBlock` | usr/src/cmd/mkfs.c:805-808 | the in-place shift of ib to the front, filled up with zeros |
| `MkfsInode.PutChunks` | usr/src/cmd/mkfs.c:815-824 | the blocks below the double-indirect block, in the order of allocation |
| `MkfsInode.IPut` | usr/src/cmd/mkfs.c:797-832 | for every list below the limit of the program the tree that is written holds it, at the cost of exactly the blocks needed; blocks that were not free stay as they were |
| `Join.Joiner.JoinFiles` | usr/src/cmd/join.c:105-143 | for files sorted on the join field the output is their join |
| `Join.Joiner.JoinGroup` | usr/src/cmd/join.c:116-140 | a group of equal fields is joined completely, and bot2 is the line of file 2 after it |
| `Join.Joiner.FirstRow` | usr/src/cmd/join.c:117-121 | the first line of the group with all lines of file 2 that match; top2 is the line after them |
| `Join.Joiner.OtherRows` | usr/src/cmd/join.c:125-139 | each further line of file 1 with the same lines of file 2, read again; the loop ends |
| `JoinSpec.JoinIsUnique` | usr/src/cmd/join.c:108-141 | there is exactly one output that is the join: nested-loop pairs in order, the selected unpaired lines, all in the order of the field |
| `JoinSpec.StaysPast` | usr/src/cmd/join.c:109-112 | in sorted files a line once passed stays passed |
| `Factor.Factorer.Try` | usr/src/cmd/factor.c:87-98 | divides as often as possible, printing a prime each time |
| `Factor.QuarterTurn1` | usr/src/cmd/factor.c:14-21 | the 48 steps skip nothing that is prime to 210 and add up to 210 |
| `Factor.Factorer.Turn` | usr/src/cmd/factor.c:65-76 | one turn of the wheel leaves a number without divisors up to the place it reached |
| `Factor.RestIsPrime` | usr/src/cmd/factor.c:78-80 | a number without divisors up to its root is prime |
| `Factor.Factorer.FactorAll` | usr/src/cmd/factor.c:59-80 | the numbers printed are primes in order and their product is the input |
| `Factor.FactorNumber` | usr/src/cmd/factor.c:47-82 | for every number read: the message, or its factorization |
| `Frec.Recovery.AddNod` | usr/src/cmd/frec.c:872-893 | a node goes in front of the first one whose block number is not smaller, so the list stays sorted |
| `Frec.Recovery.PtrBlk` | usr/src/cmd/frec.c:439-490 | an indirect block puts on the list exactly the nodes for its entries, up to the last block of the file, and the current node stays current |
| `Frec.Recovery.Frecover` | usr/src/cmd/frec.c:376-409 | the tape is moved to the block, after a rewind if it has gone by, if and only if the block is on it |
| `Frec.Recovery.RecoverNode` | usr/src/cmd/frec.c:324-341 | each turn takes one node off the list and leaves less work, what is visited and what remains being conserved |
| `Frec.Recovery.Recover` | usr/src/cmd/frec.c:316-343 | the loop ends with an empty list; every node on the tape, found in the list or later, has been visited once and its data written once |
| `Frec.Recovery.SaveBlks` | usr/src/cmd/frec.c:690-761 | the list is enlarged by the nodes of the file; a triple-indirect one is refused |
| `Frec.EachBlockOnce` | usr/src/cmd/frec.c:697-748 | unless a short last block is a direct one after a hole, the nodes visited write each block that is on the tape once, at its place and with the right count, and nothing else |
| `Frec.HoleMiscounts` | usr/src/cmd/frec.c:719-729 | in that case the last block is written whole, which is not what the file has there |
| `Frec.CountsRight` | usr/src/cmd/frec.c:697-748 | so the counts are right if and only if it is not the case that the last block is direct, present, short, after a missing one, and on the tape |
| `Frec.RecoverFile` | usr/src/cmd/frec.c:316-343 | a whole recovery of one file, wherever on the tape reading inodes has ended: what is written, operation by operation |
| `InitTable.FindPSlot` | usr/src/cmd/init.c:1227-1260 | the slot that holds the id, else the first one not in use, which is wiped, else none |
| `InitTable.EFork` | usr/src/cmd/init.c:2077-2163 | dead entries that may be cleaned up are freed, then the given or the first unused slot gets the new process |
| `InitTable.ChildDeath` | usr/src/cmd/init.c:1866-1906 | the process that died is marked dead, and nothing else changes |
| `InitTable.EforkKeeps` | usr/src/cmd/init.c:2092-2144 | a fork leaves ids and process ids unique |
| `InitTable.Forgive` | usr/src/cmd/init.c:1839-1842 | a user signal makes init forget all start times and repeat counts, and nothing else of the table |
| `Init.ActOk` | usr/src/cmd/init.c:567-716 | every step of the program and every signal handler keeps one slot for each id and each process |
| `Init.OneSlotPerId` | usr/src/cmd/init.c:567-716 | in every run, interleaved with child deaths, power failures and user signals, at most one slot in use carries any inittab id |
| `Init.NoDemandAtPause` | usr/src/cmd/init.c:632-665 | in every run, no demand level is current when init pauses |
| `Init.DemandReturns` | usr/src/cmd/init.c:632-640 | in every run, power failures or not, if init leaves a demand level it is for the level it came from |
| `Init.DemandEnds` | usr/src/cmd/init.c:573-640 | with finitely many entries, children that die when waited for, and finitely many power failures, a demand level ends after a bounded number of steps |
| `Init.PowerFailuresHonoured` | usr/src/cmd/init.c:600-619 | in every run in which no power failure comes at a deaf moment, init does not stay in its pause unless after each one a pass in powerfail mode has begun and ended |
| `Init.ServedByPass` | usr/src/cmd/init.c:998-1001 | only beginning a pass in powerfail mode clears what is owed, and only the end of inittab ends that pass |
| `Init.DeafnessLoses` | usr/src/cmd/init.c:708-785 | a power failure at any deaf moment, between the test and the clearing of the wakeup flags or in single user mode, changes nothing in any later run |
| `Init.SingleLeaks` | usr/src/cmd/init.c:745-796 | in every run: the slot of the shell is freed when the shell has died, and stays in use when single user mode is left by a signal |
| `Init.LeakedForever` | usr/src/cmd/init.c:953-965 | such a slot is never freed, whatever happens |
| `Init.EveryRun` | usr/src/cmd/init.c:567-716 | from the start of the main loop, in every run with fresh process ids: unique ids and processes, no pause at a demand level, and no power failure left undone at a lasting pause if none came at a deaf moment |
| `FgrepTrie.ShowsLengthened` | usr/src/cmd/fgrep.c:286-291 | a new letter keeps one group of linked states for each beginning of a keyword, whose letters are those that follow the beginning in the argument, in order |
| `Fgrep.Automaton.CGotoFn` | usr/src/cmd/fgrep.c:241-302 | the marked states stand for keywords, the states for the beginnings of the keywords, each once; there is room exactly if these need at most 6000 states |
| `FgrepOrder.StatesBound` | usr/src/cmd/fgrep.c:241-302 | n letters need at most 2n + 1 states |
| `Fgrep.Automaton.SetFail` | usr/src/cmd/fgrep.c:338-342 | a state and its siblings fail to a state for a proper end of their path, and are marked if that one is |
| `FgrepQueue.Enqueue` | usr/src/cmd/fgrep.c:330-337 | the ring holds the queue; when it is full, and when rear steps past the array |
| `Fgrep.Automaton.CFail` | usr/src/cmd/fgrep.c:308-351 | the failure links are right, marked states end in keywords, the loop ends, and how it ends is what the queue comes to |
| `FgrepOrder.OrderIsBreadthFirst` | usr/src/cmd/fgrep.c:324-349 | the beginnings of the keywords, level by level, are the empty one followed by the one-letter extensions of all of them in that order |
| `FgrepOrder.NoneTwice` | usr/src/cmd/fgrep.c:324-349 | in such an order no beginning comes twice |
| `FgrepTrie.FailingIs` | usr/src/cmd/fgrep.c:316-349 | how cfail ends is decided by the argument alone: by how many beginnings have come to the queue when the first u in that order have been handled |
| `FgrepOrder.FineEverywhere` | usr/src/cmd/fgrep.c:316-349 | it ends well if and only if at no u there are 400 or more waiting (399 at the beginning), nor do more come when the queue is empty and u is 399 modulo 400 |
| `FgrepOrder.FewLettersFit` | usr/src/cmd/fgrep.c:316-349 | keywords of together fewer than 399 letters, with -x newlines included, are no trouble |
| `FgrepOrder.LongKeyword` | usr/src/cmd/fgrep.c:324-337 | one keyword makes rear step past the array if and only if it has 400 letters or more, with -x its newline included |
| `Fgrep.Prepare` | usr/src/cmd/fgrep.c:241-351 | cfail is reached if and only if the keywords need at most 6000 states, and ends as the keywords decide |
| `Fgrep.Automaton.Advance` | usr/src/cmd/fgrep.c:156-177 | whichever way the next state is found, it stands for the end of the line read so far; without a failure for all of it |
| `Fgrep.Automaton.Execute` | usr/src/cmd/fgrep.c:145-221 | without -v a keyword occurs in every line that is printed, with -x the line is a keyword; what is printed are whole lines |
| `Fgrep.Search` | usr/src/cmd/fgrep.c:241-351 | the whole program, from the keywords to the lines: it comes to the lines if and only if there are at most 6000 states and the queue has room, and surely for fewer than 399 letters; then what it prints are whole lines, which match without -v |
| `Bfs.Editor.BigOpen` | usr/src/cmd/bfs.c:170-211 | the length of each line as a byte, the place of every 64th line, and the number of lines |
| `Bfs.Editor.Find` | usr/src/cmd/bfs.c:233-246 | by whichever way, prevblk and prevoff are the place of the requested line |
| `Bfs.Editor.BigRead` | usr/src/cmd/bfs.c:224-270 | the text of the requested line, through the cached block or not, over block boundaries |
| `Bfs.Browse` | usr/src/cmd/bfs.c:170-270 | after one bigopen every sequence of requests is answered correctly |

## Left out

- File names, links, permissions, times, options, error messages of the system calls and all statistics: plumbing around the algorithms.
- Pack.Packer.PackFile: requires a size below 2^30, since `insize` holds twice the size in a signed 32-bit long (pack.c:201-214); `levcount` has one entry per node instead of the 25 of pack.c:50, because the program increments it before it compares `maxlev` with 24, so that a deeper tree writes past the C array.
- Pcat.Unpacker.GetDict: a malformed dictionary can send pcat.c:147-158 past its arrays; the model stops there with a fourth outcome and says nothing about what follows. `read` delivers whole blocks until the end of the file. The pdp11 `expand` path is not modelled, nor are the byte orders of `maskshuff` other than the one for big-endian machines.
- DcopyAlloc.Allocator.Alloc: speaks of set-ups that InitialIsValid admits; for the others InitialIsValid, NothingInFirst and OneCylinder say what goes wrong. The width of `a_nalloc` is not modelled.
- DcopyMap.Mapper.Bmap: the shifts of dcopy.c:797-815 are divisions by NINDIR. Pass 2, which reads through the same buffers, and the temporary-file pager are not modelled, nor are the contents of data blocks.
- DcopyFree.Super.Freelist: `s_free` is zero at the start, as static storage is; the buffer may hold anything. The other superblock fields are not modelled.
- FreeChain.FreeListAt: a block that was never written as part of a free list reads as an empty list; no property depends on it.
- AddressTree.NINDIR: any number from 128 on; a block has 4*NINDIR bytes in `Frec`, and 512 or 1024 in the programs.
- MkfsInode.IPut: the inode fields other than the addresses, "ilist too small" and the triple-indirect message (unreachable below the limit NFB) are not modelled.
- MkfsFree.Filsys.BFList: requires f_n >= 1; mkfs.c:256-257 can make it 0 when a block is twice BSIZE and the cylinder size 1. `badblk` always answers 0 in this version, so the list of bad blocks stays empty. The RT half of mkfs.c is not modelled.
- Join.Joiner.JoinFiles: lines come as lists of fields, and every line has the join field; splitting lines and the format of the output (join.c:145-202) are left out. Events name lines by number. Nothing is said about unsorted files.
- Factor.FactorNumber: doubles are exact integers and `ii <= vv` is compared in squares; below 10^14 the divisions of factor.c are exact enough for this, which is not proved.
- Frec.Recovery.Recover: the doubly linked list is a sequence with a position; the volcopy form of the tape with several reels (frec.c:345-374), requests, file creation and failing writes are not modelled. Blocks are required to be different from each other, as in a consistent file system: frec.c:395-407 reads past the end of the tape for a block it has just read. After a rewind frec.c:387 looks at the entry before the first of Blklist; whatever it finds there, the tape stays at its beginning.
- Frec.EachBlockOnce: speaks of files of up to double-indirect size with no address beyond their end.
- Init.OneSlotPerId: forks are required to give process ids that are not in the table. A step of the model is one entry of inittab or one slot; a handler that interrupts the update of a single flag word is not modelled. Forks of the accounting code, the questions of getlvl to the console, terminal settings and utmp are left out, and a killing process for which there is no room is not forked again. No limit on respawning over a whole run is claimed: init.c:957-963 frees dead slots and their counters.
- Init.PowerFailuresHonoured: that a pass ends is up to the processes it waits for; Init.DemandEnds states the like for demand levels.
- Fgrep.Automaton.Execute: soundness only: that every line with a keyword is printed is not claimed. The circular read buffer is the whole text, and NUL characters are excluded, since they would match a state without letter. -b, -c, -l and -n are left out.
- Fgrep.Search: does not say what the program does after `rear` has stepped past the end of its array (cfail ends Outside).
- Bfs.Editor.BigOpen: at most 32768 lines, which is what segblk and segoff hold; the program does not check this. The command language of bfs is left out.
