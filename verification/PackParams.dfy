/** Constants of usr/src/cmd/pack.c and usr/src/cmd/pcat.c. */
module PackParams {
  const END: nat := 256             // the end mark, one past the last byte
  const SYMBOLS: nat := 257     // bytes and the end mark
  const NODES: nat := 513       // 2*END+1 entries of the parent array
  const HEAPSIZE: nat := 258    // END+2 heap cells, cell 0 unused
  const BLKSIZE: nat := 512         // bytes per read and write
  const MAXLEV: nat := 24           // code words are at most this long

  /** What a signed long of 32 bits holds of a number. */
  function Long(x: int): (r: int)
    ensures -0x8000_0000 <= r < 0x8000_0000
    ensures r == x <==> -0x8000_0000 <= x < 0x8000_0000
  {
    (x + 0x8000_0000) % 0x1_0000_0000 - 0x8000_0000
  }

  /** Wrapping around at every step is wrapping around once. */
  lemma LongAdd(a: int, b: int)
    ensures Long(Long(a) + b) == Long(a + b)
  {
  }
}
