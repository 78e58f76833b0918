/** bfs.c: the index of line lengths, and finding a line again by it. */
module Bfs {
  const BLOCK: nat := 512

  // ----- lines of a text

  /** The place after the next newline. */
  function After(text: string, o: nat): (r: nat)
    requires o <= |text|
    ensures o <= r <= |text| && (o < |text| ==> o < r)
    decreases |text| - o
  {
    if o == |text| then o else if text[o] == '\n' then o + 1 else After(text, o + 1)
  }

  /** Where line k begins; lines are counted from 1. */
  function Start(text: string, k: nat): (r: nat)
    ensures r <= |text|
  {
    if k <= 1 then 0 else After(text, Start(text, k - 1))
  }

  /** The characters of line k, its newline included. */
  function Length(text: string, k: nat): nat {
    Start(text, k + 1) - Start(text, k)
  }

  /** Line k without its newline. */
  function Line(text: string, k: nat): string {
    if Start(text, k) < Start(text, k + 1) then text[Start(text, k)..Start(text, k + 1) - 1] else ""
  }

  predicate NoNewline(text: string, i: nat, j: nat) {
    i <= j <= |text| && forall k :: i <= k < j ==> text[k] != '\n'
  }

  lemma {:induction false} AfterSkip(text: string, o: nat, p: nat)
    requires NoNewline(text, o, p)
    ensures After(text, o) == After(text, p)
    decreases p - o
  {
    if o < p {
      AfterSkip(text, o + 1, p);
    }
  }

  /** Up to its newline a line has none. */
  lemma {:induction false} AfterLine(text: string, o: nat)
    requires o < |text| && text[|text| - 1] == '\n'
    ensures text[After(text, o) - 1] == '\n' && NoNewline(text, o, After(text, o) - 1)
    decreases |text| - o
  {
    if text[o] != '\n' {
      AfterLine(text, o + 1);
    }
  }

  /** The file has n lines, all of them ended and short enough for bigread. */
  ghost predicate Readable(text: string, n: nat) {
    && text != [] && text[|text| - 1] == '\n' && Start(text, n + 1) == |text|
    && (forall k :: 1 <= k <= n ==> Start(text, k) < |text| && Length(text, k) <= 255)
  }

  class Editor {
    const text: string
    var lincnt: seq<nat>          // one byte for each line, and one before
    const segblk: array<nat>
    const segoff: array<nat>
    var dollar: nat
    var prevblk: int
    var prevoff: int
    var lprev: nat
    var saveblk: int
    const savetxt: array<char>
    var position: nat             // of the file descriptor

    ghost predicate Sizes() {
      segblk.Length == segoff.Length == 512 && savetxt.Length == BLOCK && segblk != segoff
    }

    constructor (text: string)
      ensures this.text == text && Sizes() && fresh(segblk) && fresh(segoff) && fresh(savetxt)
      ensures prevblk == prevoff == 0 && lprev == 1 && saveblk == -1 && position == 0
    {
      this.text := text;
      lincnt, dollar, prevblk, prevoff, lprev, saveblk, position := [], 0, 0, 0, 1, -1, 0;
      segblk := new nat[512](_ => 0);
      segoff := new nat[512](_ => 0);
      savetxt := new char[BLOCK](_ => '\0');
    }

    /** The table has the lengths of the lines before line m, as bytes. */
    ghost predicate Counts(m: nat)
      reads this`lincnt
    {
      |lincnt| == m && forall k :: 1 <= k < m ==> lincnt[k] == Length(text, k) % 256
    }

    /** Where line 64 s + 1 begins is known, for all of these among the first l lines. */
    ghost predicate Segments(l: nat)
      requires Sizes()
      reads segblk, segoff
    {
      forall s :: 0 <= s < 512 && 64 * s < l ==>
        segoff[s] < BLOCK && segblk[s] * BLOCK + segoff[s] == Start(text, 64 * s + 1)
    }

    /** s segments have been begun when l lines have. */
    predicate Begun(s: nat, l: nat) {
      l <= 64 * s < l + 64
    }

    /** p is in line l, after cnt of its characters. */
    ghost predicate Within(p: nat, l: nat, cnt: nat) {
      l > 0 && Start(text, l) + cnt == p <= |text| && NoNewline(text, Start(text, l), p)
    }

    /** How far the scan is: at place p, in or after line l. */
    ghost predicate Scanned(p: nat, l: nat, cnt: nat, newline: bool) {
      && p <= |text| && (newline <==> p == 0 || text[p - 1] == '\n')
      && if newline then Start(text, l + 1) == p && (l > 0 ==> cnt == Length(text, l))
         else cnt > 0 && Within(p, l, cnt)
    }

    /** bigopen: one pass over the file, block by block. */
    method BigOpen(ghost n: nat)
      requires Sizes() && Readable(text, n) && n <= 512 * 64 && position == 0
      modifies this`lincnt, this`dollar, this`position, segblk, segoff
      ensures dollar == n && Counts(n + 1) && Segments(n) && position == |text|
    {
      hide Scanned, Segments, Readable;
      var blk, newline, l: nat, cnt: nat, s: nat := -1, true, 0, 0, 0;
      NothingScanned();
      lincnt := [];
      while position < |text|
        invariant position <= |text| && (position < |text| ==> position == (blk + 1) * BLOCK) && blk >= -1
        invariant Scanned(position, l, cnt, newline) && Counts(l) && Segments(l) && Begun(s, l) && l <= n
        decreases |text| - position
      {
        var size := if |text| - position < BLOCK then |text| - position else BLOCK;
        blk := blk + 1;
        newline, l, cnt, s := ScanBlock(blk, position, size, newline, l, cnt, s, n);
        position := position + size;
      }
      LastLine(n, l, cnt, newline);
      CountLast(l, cnt);
      lincnt := lincnt + [cnt % 256];
      dollar := l;
    }

    lemma NothingScanned()
      requires Sizes()
      ensures Scanned(0, 0, 0, true) && Segments(0) && (lincnt == [] ==> Counts(0))
    {
    }

    lemma LastLine(n: nat, l: nat, cnt: nat, newline: bool)
      requires Readable(text, n) && l <= n && Scanned(|text|, l, cnt, newline)
      ensures l == n && (l > 0 ==> cnt == Length(text, l))
    {
    }

    lemma CountLast(l: nat, cnt: nat)
      requires Counts(l) && (l > 0 ==> cnt == Length(text, l))
      ensures forall k :: 1 <= k < l + 1 ==> (lincnt + [cnt % 256])[k] == Length(text, k) % 256
    {
    }

    /** The characters of one block. */
    method ScanBlock(blk: nat, start: nat, size: nat, newline0: bool, l0: nat, cnt0: nat, s0: nat, ghost n: nat)
      returns (newline: bool, l: nat, cnt: nat, s: nat)
      requires Sizes() && Readable(text, n) && n <= 512 * 64
      requires start == blk * BLOCK && size <= BLOCK && start + size <= |text|
      requires Scanned(start, l0, cnt0, newline0) && Counts(l0) && Segments(l0) && Begun(s0, l0) && l0 <= n
      modifies this`lincnt, segblk, segoff
      ensures Scanned(start + size, l, cnt, newline) && Counts(l) && Segments(l) && Begun(s, l) && l <= n
    {
      hide Scanned, Counts, Segments, Begun, Within, Readable;
      newline, l, cnt, s := newline0, l0, cnt0, s0;
      for off := 0 to size
        invariant Scanned(start + off, l, cnt, newline) && Counts(l) && Segments(l) && Begun(s, l) && l <= n
      {
        if newline {
          AnotherLine(n, l, cnt, start + off);
          l, s := BeginLine(blk, off, l, cnt, s, n);
          newline, cnt := false, 0;
        }
        InLine(start + off, l, cnt, newline);
        if text[start + off] == '\n' {
          newline := true;
        }
        cnt := cnt + 1;
        OneMore(start + off, l, cnt - 1, newline);
      }
    }

    /** lincnt and, for every 64th line, its place. */
    method BeginLine(blk: nat, off: nat, l0: nat, cnt: nat, s0: nat, ghost n: nat) returns (l: nat, s: nat)
      requires Sizes() && Counts(l0) && Segments(l0) && Begun(s0, l0) && l0 < n <= 512 * 64
      requires off < BLOCK && Start(text, l0 + 1) == blk * BLOCK + off && (l0 > 0 ==> cnt == Length(text, l0))
      modifies this`lincnt, segblk, segoff
      ensures l == l0 + 1 && Counts(l) && Segments(l) && Begun(s, l)
    {
      l, s := l0, s0;
      lincnt := lincnt + [cnt % 256];
      if l % 64 == 0 {
        segblk[s] := blk;
        segoff[s] := off;
        s := s + 1;
      }
      l := l + 1;
    }

    /** A character that begins a line is in one of the n lines. */
    lemma AnotherLine(n: nat, l: nat, cnt: nat, p: nat)
      requires Readable(text, n) && l <= n && Scanned(p, l, cnt, true) && p < |text|
      ensures l < n && Start(text, l + 1) == p && (l > 0 ==> cnt == Length(text, l)) && Within(p, l + 1, 0)
    {
    }

    lemma InLine(p: nat, l: nat, cnt: nat, newline: bool)
      requires Within(p, l, cnt) || Scanned(p, l, cnt, newline)
      requires !newline
      ensures Within(p, l, cnt)
    {
    }

    /** The next character of a line. */
    lemma OneMore(p: nat, l: nat, cnt: nat, newline: bool)
      requires Within(p, l, cnt) && p < |text| && (newline <==> text[p] == '\n')
      ensures Scanned(p + 1, l, cnt + 1, newline)
    {
      if newline {
        LineEnds(l, p);
      }
    }

    lemma LineEnds(l: nat, p: nat)
      requires p < |text| && text[p] == '\n' && l > 0 && NoNewline(text, Start(text, l), p)
      ensures Start(text, l + 1) == p + 1
    {
      AfterSkip(text, Start(text, l), p);
    }

    // ----- bigread

    /** The index is complete. */
    ghost predicate Open(n: nat)
      reads this`lincnt, segblk, segoff
    {
      Sizes() && Readable(text, n) && n <= 512 * 64 && Counts(n + 1) && Segments(n)
    }

    /** prevblk and prevoff are the place of line lprev. */
    ghost predicate Placed(n: nat)
      reads this`prevblk, this`prevoff, this`lprev
    {
      1 <= lprev <= n && prevblk * BLOCK + prevoff == Start(text, lprev) && 0 <= prevoff < BLOCK
    }

    /** savetxt holds block saveblk, and the file is read on from its end. */
    ghost predicate Cached()
      reads this`saveblk, this`position, savetxt
    {
      savetxt.Length == BLOCK && saveblk >= -1
      && (saveblk >= 0 ==>
            && saveblk * BLOCK < |text|
            && position == (if (saveblk + 1) * BLOCK <= |text| then (saveblk + 1) * BLOCK else |text|)
            && forall k :: 0 <= k < BLOCK && saveblk * BLOCK + k < |text| ==> savetxt[k] == text[saveblk * BLOCK + k])
    }

    /** A line of the index. */
    lemma LineCount(n: nat, k: nat)
      requires Open(n) && 1 <= k <= n
      ensures k < |lincnt| && lincnt[k] == Start(text, k + 1) - Start(text, k)
    {
      hide Start, Segments;
    }

    /** Moves the place from line from to line l, forwards. */
    method Forward(from: nat, l: nat, ghost n: nat)
      requires Open(n) && 1 <= from <= l <= n && prevblk * BLOCK + prevoff == Start(text, from)
      modifies this`prevoff
      ensures prevblk * BLOCK + prevoff == Start(text, l)
    {
      hide Open;
      var i := from;
      while i < l
        invariant from <= i <= l && prevblk * BLOCK + prevoff == Start(text, i)
      {
        LineCount(n, i);
        prevoff := prevoff + lincnt[i];
        i := i + 1;
      }
    }

    method Backward(from: nat, l: nat, ghost n: nat)
      requires Open(n) && 1 <= l <= from <= n && prevblk * BLOCK + prevoff == Start(text, from)
      modifies this`prevoff
      ensures prevblk * BLOCK + prevoff == Start(text, l)
    {
      hide Open;
      var i: int := from - 1;
      while i >= l
        invariant l - 1 <= i < from && prevblk * BLOCK + prevoff == Start(text, i + 1)
      {
        LineCount(n, i);
        prevoff := prevoff - lincnt[i];
        i := i - 1;
      }
    }

    /** The place of line l, by the shortest way. */
    method Find(l: nat, ghost n: nat)
      requires Open(n) && Placed(n) && 1 <= l <= n
      modifies this`prevblk, this`prevoff, this`lprev
      ensures Placed(n) && lprev == l
    {
      hide Open;
      var i: int := l - lprev;
      if i == 1 {
        LineCount(n, lprev);
        prevoff := prevoff + lincnt[lprev];
      } else if 0 <= i <= 32 {
        Forward(lprev, l, n);
      } else if -32 <= i < 0 {
        Backward(lprev, l, n);
      } else {
        Segment(l, n);
        i := (l - 1) / 64;
        prevblk := segblk[i];
        prevoff := segoff[i];
        Forward(i * 64 + 1, l, n);
      }
      prevblk := prevblk + prevoff / BLOCK;
      prevoff := prevoff % BLOCK;
      lprev := l;
    }

    lemma Segment(l: nat, n: nat)
      requires Open(n) && 1 <= l <= n
      ensures
        var s := (l - 1) / 64;
        && s < 512 == segblk.Length == segoff.Length && 64 * s + 1 <= l
        && segblk[s] * BLOCK + segoff[s] == Start(text, 64 * s + 1)
    {
    }

    /** read(txtfd, savetxt, 512) for block saveblk */
    method ReadBlock()
      requires savetxt.Length == BLOCK && saveblk >= 0 && position == saveblk * BLOCK < |text|
      modifies this`position, savetxt
      ensures Cached()
    {
      var size := if |text| - position < BLOCK then |text| - position else BLOCK;
      for k := 0 to size
        invariant position == saveblk * BLOCK && position + size <= |text|
        invariant forall i :: 0 <= i < k ==> savetxt[i] == text[position + i]
      {
        savetxt[k] := text[position + k];
      }
      position := position + size;
    }

    /** bigread: the text of line l, whichever line was read before. */
    method BigRead(l: nat, ghost n: nat) returns (rec: string, toolong: bool)
      requires Open(n) && Placed(n) && Cached() && 1 <= l <= n
      modifies this`prevblk, this`prevoff, this`lprev, this`saveblk, this`position, savetxt
      ensures Placed(n) && lprev == l && Cached()
      ensures !toolong && rec == Line(text, l)
    {
      hide Open;
      LineText(n, l);
      Find(l, n);
      if prevblk != saveblk {
        saveblk := prevblk;
        position := saveblk * BLOCK;
        ReadBlock();
      }
      rec, toolong := Copy(prevoff, l, n);
    }

    /** Line l has a newline at its end only, and at most 254 characters before it. */
    lemma LineText(n: nat, l: nat)
      requires Open(n) && 1 <= l <= n
      ensures Start(text, l) < Start(text, l + 1) <= |text| && Start(text, l + 1) - Start(text, l) <= 255
      ensures text[Start(text, l + 1) - 1] == '\n' && NoNewline(text, Start(text, l), Start(text, l + 1) - 1)
    {
      AfterLine(text, Start(text, l));
    }

    /** The characters up to the newline, from off on and through as many blocks as necessary. */
    method Copy(off0: nat, l: nat, ghost n: nat) returns (rec: string, toolong: bool)
      requires Open(n) && Cached() && saveblk >= 0 && off0 < BLOCK && 1 <= l <= n
               && saveblk * BLOCK + off0 == Start(text, l)
      modifies this`saveblk, this`position, savetxt
      ensures Cached() && !toolong && rec == Line(text, l)
    {
      hide Open, Start;
      LineText(n, l);
      ghost var from, last := Start(text, l), Start(text, l + 1) - 1;
      rec, toolong := "", false;
      var b: nat := off0;
      while true
        invariant Cached() && saveblk >= 0 && b <= BLOCK && from <= saveblk * BLOCK + b <= last
        invariant rec == text[from..saveblk * BLOCK + b]
        decreases last - (saveblk * BLOCK + b), b
      {
        if b < BLOCK {
          ghost var a := saveblk * BLOCK + b;
          if savetxt[b] == '\n' {
            return;
          }
          assert text[from..a] + [text[a]] == text[from..a + 1];
          rec := rec + [savetxt[b]];
          b := b + 1;
          if |rec| > 254 {
            return rec, true;
          }
        } else {
          saveblk := saveblk + 1;
          ReadBlock();
          b := 0;
        }
      }
    }
  }

  lemma SomeLine(text: string, n: nat)
    requires Readable(text, n)
    ensures n >= 1
  {
  }

  /** After one bigopen, any sequence of lines is read correctly. */
  method Browse(text: string, lines: seq<nat>, ghost n: nat) returns (dollar: nat, recs: seq<string>)
    requires Readable(text, n) && n <= 512 * 64
    requires forall i :: 0 <= i < |lines| ==> 1 <= lines[i] <= n
    ensures dollar == n && |recs| == |lines|
    ensures forall i :: 0 <= i < |lines| ==> recs[i] == Line(text, lines[i])
  {
    hide Start, Line;
    SomeLine(text, n);
    StartOfAll(text);
    var e := new Editor(text);
    e.BigOpen(n);
    dollar, recs := e.dollar, [];
    for i := 0 to |lines|
      invariant e.Open(n) && e.Placed(n) && e.Cached() && |recs| == i
      invariant forall j :: 0 <= j < i ==> recs[j] == Line(text, lines[j])
    {
      var rec, toolong := e.BigRead(lines[i], n);
      recs := recs + [rec];
    }
  }

  lemma StartOfAll(text: string)
    ensures Start(text, 1) == 0
  {
  }
}
