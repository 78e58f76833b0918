/**
 The chained free list on disk. The superblock holds up to NICFREE block
 numbers; the one in slot 0 leads to a block that holds the next ones, and a
 0 in slot 0 ends the list.
 */
module FreeChain {
  const NICFREE: nat := 50

  /** The array of block numbers in the superblock or in a block of the list. */
  type Slots = s: seq<int> | |s| == NICFREE witness seq(NICFREE, _ => 0)

  /** A block on disk: one of the free list (df_nfree and df_free), or one of block addresses. */
  datatype Block = FreeList(nfree: int, free: Slots) | Indirect(addr: seq<int>)

  type Disk = map<int, Block>

  /** What a program that expects a block of the free list finds; other contents read as an empty one. */
  function FreeListAt(disk: Disk, b: int): (r: Block)
    ensures r.FreeList?
  {
    if b in disk && disk[b].FreeList? then disk[b] else FreeList(0, seq(NICFREE, _ => 0))
  }

  /**
   Taking blocks from the list (n, free) yields s. A closed list then ends; an
   open one leads on to its last block, whose contents do not matter yet.
   */
  ghost predicate Linked(n: int, free: seq<int>, disk: Disk, s: seq<int>, closed: bool)
    decreases |s|
  {
    && |free| == NICFREE && 1 <= n <= NICFREE
    && if s == [] then closed && free[n - 1] == 0
       else
         && free[n - 1] == s[0] != 0
         && if n > 1 then Linked(n - 1, free, disk, s[1..], closed)
            else if |s| == 1 && !closed then true
            else s[0] in disk && disk[s[0]].FreeList?
                 && Linked(disk[s[0]].nfree, disk[s[0]].free, disk, s[1..], closed)
  }

  ghost predicate Chain(n: int, free: seq<int>, disk: Disk, s: seq<int>) {
    Linked(n, free, disk, s, true)
  }

  method CopySlots(free: array<int>, from: Slots)
    requires free.Length == NICFREE
    modifies free
    ensures free[..] == from
  {
    for i := 0 to NICFREE
      invariant free[..i] == from[..i]
    {
      free[i] := from[i];
    }
  }

  /** What a list yields is determined. */
  lemma {:induction false} ChainUnique(n: int, free: seq<int>, disk: Disk, s: seq<int>, t: seq<int>)
    requires Chain(n, free, disk, s) && Chain(n, free, disk, t)
    ensures s == t
    decreases |s|
  {
    if s != [] {
      if n > 1 {
        ChainUnique(n - 1, free, disk, s[1..], t[1..]);
      } else {
        ChainUnique(disk[s[0]].nfree, disk[s[0]].free, disk, s[1..], t[1..]);
      }
      assert s == [s[0]] + s[1..] && t == [t[0]] + t[1..];
    }
  }

  /** Only the blocks that the list leads to matter. */
  lemma {:induction false} LinkedFrame(n: int, free: seq<int>, disk: Disk, disk': Disk, s: seq<int>, closed: bool)
    requires Linked(n, free, disk, s, closed)
    requires forall b :: b in disk ==> b in disk' && disk'[b] == disk[b]
    ensures Linked(n, free, disk', s, closed)
    decreases |s|
  {
    if s != [] {
      if n > 1 {
        LinkedFrame(n - 1, free, disk, disk', s[1..], closed);
      } else if !(|s| == 1 && !closed) {
        LinkedFrame(disk[s[0]].nfree, disk[s[0]].free, disk, disk', s[1..], closed);
      }
    }
  }

  /** A list that leads on to block b is continued by what b holds. */
  lemma {:induction false} Continued(n: int, free: seq<int>, disk: Disk, disk': Disk, s: seq<int>, u: seq<int>,
                                     closed: bool)
    requires Linked(n, free, disk, s, false)
    requires forall b :: b in disk ==> b in disk' && disk'[b] == disk[b]
    requires s != [] && s[|s| - 1] in disk' && disk'[s[|s| - 1]].FreeList?
    requires Linked(disk'[s[|s| - 1]].nfree, disk'[s[|s| - 1]].free, disk', u, closed)
    requires u != [] || closed
    ensures Linked(n, free, disk', s + u, closed)
    decreases |s|
  {
    assert (s + u)[1..] == s[1..] + u;
    if n > 1 {
      Continued(n - 1, free, disk, disk', s[1..], u, closed);
    } else if |s| == 1 {
      assert s[1..] + u == u;
    } else {
      Continued(disk[s[0]].nfree, disk[s[0]].free, disk, disk', s[1..], u, closed);
    }
  }

  /** Writing to a block that is not on the list does not disturb it. */
  lemma {:induction false} LinkedAway(n: int, free: seq<int>, disk: Disk, s: seq<int>, closed: bool, b: int, x: Block)
    requires Linked(n, free, disk, s, closed) && b !in s
    ensures Linked(n, free, disk[b := x], s, closed)
    decreases |s|
  {
    if s != [] {
      assert s[0] != b && forall c :: c in s[1..] ==> c in s;
      if n > 1 {
        LinkedAway(n - 1, free, disk, s[1..], closed, b, x);
      } else if !(|s| == 1 && !closed) {
        LinkedAway(disk[s[0]].nfree, disk[s[0]].free, disk, s[1..], closed, b, x);
      }
    }
  }

  /** The slots n-1, n-2, ... hold g. */
  ghost predicate Holds(n: int, free: seq<int>, g: seq<int>) {
    && |free| == NICFREE && |g| <= n <= NICFREE
    && forall k :: 0 <= k < |g| ==> free[n - 1 - k] == g[k] != 0
  }

  /** A single block of the list. */
  lemma {:induction false} HoldsLinked(n: int, free: seq<int>, disk: Disk, g: seq<int>, closed: bool)
    requires Holds(n, free, g)
    requires if closed then n == |g| + 1 && free[0] == 0 else n == |g| > 0
    ensures Linked(n, free, disk, g, closed)
    decreases |g|
  {
    if g != [] && n > 1 {
      assert Holds(n - 1, free, g[1..]) by {
        forall k | 0 <= k < |g[1..]|
          ensures free[n - 2 - k] == g[1..][k] != 0
        {
          assert free[n - 1 - (k + 1)] == g[k + 1];
        }
      }
      HoldsLinked(n - 1, free, disk, g[1..], closed);
    }
  }
}
