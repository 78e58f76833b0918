/** The merge loop of join.c over two files, with its rewinds in file 2. */
module Join {
  import opened JoinSpec

  /** A line, split into fields. */
  type Line = seq<string>

  /** The join fields of a file. */
  function Fields(file: seq<Line>, j: nat): (r: seq<string>)
    requires forall i :: 0 <= i < |file| ==> j < |file[i]|
    ensures |r| == |file| && forall i :: 0 <= i < |file| ==> r[i] == file[i][j]
  {
    seq(|file|, i requires 0 <= i < |file| => file[i][j])
  }

  // ----- what is known between two lines of output

  /** All lines of file 1 before a and of file 2 before b have been dealt with; they have no partners from there on. */
  ghost predicate Settled(k1: seq<string>, k2: seq<string>, a: nat, b: nat) {
    && a <= |k1| && b <= |k2| && Sorted(k1) && Sorted(k2)
    && (forall i, j :: 0 <= i < a && b <= j < |k2| ==> Cmp(k1[i], k2[j]) < 0)
    && (forall i, j :: a <= i < |k1| && 0 <= j < b ==> Cmp(k1[i], k2[j]) > 0)
  }

  /** Nothing printed so far comes after line a of file 1 or line b of file 2. */
  ghost predicate Before(out: seq<Event>, k1: seq<string>, k2: seq<string>, a: nat, b: nat) {
    && Ordered(out, k1, k2)
    && (forall x, i :: 0 <= x < |out| && a <= i < |k1| ==> Le(Key(out[x], k1, k2), k1[i]))
    && (forall x, j :: 0 <= x < |out| && b <= j < |k2| ==> Le(Key(out[x], k1, k2), k2[j]))
  }

  ghost predicate Printed(out: seq<Event>, k1: seq<string>, k2: seq<string>, a: nat, b: nat, a1: bool, a2: bool)
    requires a <= |k1| && b <= |k2|
  {
    && Pairs(out) == Nested(k1, k2, a)
    && Singles1(out) == (if a1 then Lonely1(k1, k2, a) else [])
    && Singles2(out) == if a2 then Lonely2(k1, k2, b) else []
  }

  ghost predicate Done(out: seq<Event>, k1: seq<string>, k2: seq<string>, a: nat, b: nat, a1: bool, a2: bool) {
    Settled(k1, k2, a, b) && Before(out, k1, k2, a, b) && Printed(out, k1, k2, a, b, a1, a2)
  }

  lemma {:induction false} NoPartners(k1: seq<string>, k2: seq<string>, i: nat, m: nat)
    requires i < |k1| && m <= |k2| && forall j :: 0 <= j < m ==> k1[i] != k2[j]
    ensures Row(k1, k2, i, m) == []
  {
    if m > 0 {
      NoPartners(k1, k2, i, m - 1);
    }
  }

  /** One more event, between what is printed and what is still to come. */
  lemma AddEvent(out: seq<Event>, k1: seq<string>, k2: seq<string>, a: nat, b: nat, a': nat, b': nat, e: Event)
    requires Before(out, k1, k2, a, b) && a <= a' && b <= b' && InRange(e, k1, k2)
    requires forall x :: 0 <= x < |out| ==> Le(Key(out[x], k1, k2), Key(e, k1, k2))
    requires forall i :: a' <= i < |k1| ==> Le(Key(e, k1, k2), k1[i])
    requires forall j :: b' <= j < |k2| ==> Le(Key(e, k1, k2), k2[j])
    ensures Before(out + [e], k1, k2, a', b')
  {
    hide Le, Key;
    CmpZero(Key(e, k1, k2), Key(e, k1, k2));
    LeSame(Key(e, k1, k2));
  }

  lemma LeSame(s: string)
    ensures Le(s, s)
  {
    CmpZero(s, s);
  }

  lemma SameBefore(out: seq<Event>, k1: seq<string>, k2: seq<string>, a: nat, b: nat, a': nat, b': nat)
    requires Before(out, k1, k2, a, b) && a <= a' && b <= b'
    ensures Before(out, k1, k2, a', b')
  {
  }

  /** A kind that an event does not belong to stays as it is. */
  lemma AddKinds(out: seq<Event>, e: Event)
    ensures Pairs(out + [e]) == Pairs(out) + if e.Pair? then [e] else []
    ensures Singles1(out + [e]) == Singles1(out) + if e.Only1? then [e] else []
    ensures Singles2(out + [e]) == Singles2(out) + if e.Only2? then [e] else []
  {
    assert (out + [e])[..|out|] == out;
  }

  /** Line b of file 2 comes before line a of file 1, or file 1 is at its end. */
  lemma Skip2(out: seq<Event>, k1: seq<string>, k2: seq<string>, a: nat, b: nat, a1: bool, a2: bool)
    requires Done(out, k1, k2, a, b, a1, a2) && b < |k2| && (a < |k1| ==> Cmp(k1[a], k2[b]) > 0)
    ensures Done(if a2 then out + [Only2(b)] else out, k1, k2, a, b + 1, a1, a2)
  {
    hide Before, Le, Pairs, Singles1, Singles2, Nested, Lonely1, Settled;
    SettleOne2(k1, k2, a, b);
    SameBefore(out, k1, k2, a, b, a, b + 1);
    AddKinds(out, Only2(b));
    AddOnly2(out, k1, k2, a, b);
  }

  lemma AddOnly2(out: seq<Event>, k1: seq<string>, k2: seq<string>, a: nat, b: nat)
    requires Before(out, k1, k2, a, b) && Settled(k1, k2, a, b) && b < |k2| && (a < |k1| ==> Cmp(k1[a], k2[b]) > 0)
    ensures Before(out + [Only2(b)], k1, k2, a, b + 1)
  {
    forall i | a <= i < |k1|
      ensures Le(k2[b], k1[i])
    {
      StaysPast(k1, k2, a, b, i, b);
      CmpFlips(k1[i], k2[b]);
    }
    hide Le, Settled;
    AddEvent(out, k1, k2, a, b, a, b + 1, Only2(b));
  }

  /** Line a of file 1 comes before line b of file 2, or file 2 is at its end. */
  lemma Skip1(out: seq<Event>, k1: seq<string>, k2: seq<string>, a: nat, b: nat, a1: bool, a2: bool)
    requires Done(out, k1, k2, a, b, a1, a2) && a < |k1| && (b < |k2| ==> Cmp(k1[a], k2[b]) < 0)
    ensures Done(if a1 then out + [Only1(a)] else out, k1, k2, a + 1, b, a1, a2)
  {
    hide Before, Le, Pairs, Singles1, Singles2, Lonely2, Settled;
    SettleOne1(k1, k2, a, b);
    SameBefore(out, k1, k2, a, b, a + 1, b);
    AddKinds(out, Only1(a));
    AddOnly1(out, k1, k2, a, b);
    NoPartners(k1, k2, a, |k2|);
  }

  lemma AddOnly1(out: seq<Event>, k1: seq<string>, k2: seq<string>, a: nat, b: nat)
    requires Before(out, k1, k2, a, b) && Settled(k1, k2, a, b) && a < |k1| && (b < |k2| ==> Cmp(k1[a], k2[b]) < 0)
    ensures Before(out + [Only1(a)], k1, k2, a + 1, b)
  {
    forall j | b <= j < |k2|
      ensures Le(k1[a], k2[j])
    {
      StaysBefore(k1, k2, a, b, a, j);
    }
    hide Le, Settled;
    SortedLe(k1, k2, a, b);
    AddEvent(out, k1, k2, a, b, a + 1, b, Only1(a));
  }

  lemma SortedLe(k1: seq<string>, k2: seq<string>, a: nat, b: nat)
    requires Settled(k1, k2, a, b)
    ensures forall i, j :: 0 <= i <= j < |k1| ==> Le(k1[i], k1[j])
    ensures forall i, j :: 0 <= i <= j < |k2| ==> Le(k2[i], k2[j])
  {
  }

  lemma SettleOne2(k1: seq<string>, k2: seq<string>, a: nat, b: nat)
    requires Settled(k1, k2, a, b) && b < |k2| && (a < |k1| ==> Cmp(k1[a], k2[b]) > 0)
    ensures Settled(k1, k2, a, b + 1) && k2[b] !in k1
  {
    forall i | a <= i < |k1|
      ensures Cmp(k1[i], k2[b]) > 0
    {
      StaysPast(k1, k2, a, b, i, b);
    }
    forall i | 0 <= i < |k1|
      ensures k1[i] != k2[b]
    {
      CmpZero(k1[i], k2[b]);
    }
  }

  lemma SettleOne1(k1: seq<string>, k2: seq<string>, a: nat, b: nat)
    requires Settled(k1, k2, a, b) && a < |k1| && (b < |k2| ==> Cmp(k1[a], k2[b]) < 0)
    ensures Settled(k1, k2, a + 1, b) && k1[a] !in k2
  {
    forall j | b <= j < |k2|
      ensures Cmp(k1[a], k2[j]) < 0
    {
      StaysBefore(k1, k2, a, b, a, j);
    }
    forall j | 0 <= j < |k2|
      ensures k1[a] != k2[j]
    {
      CmpZero(k1[a], k2[j]);
    }
  }

  // ----- a group of lines with the same field

  /** Every event so far has a field up to s. */
  ghost predicate UpTo(out: seq<Event>, k1: seq<string>, k2: seq<string>, s: string) {
    Ordered(out, k1, k2) && forall x :: 0 <= x < |out| ==> Le(Key(out[x], k1, k2), s)
  }

  /** The lines of both files that are known to share the field of line a of file 1. */
  ghost predicate Group(k1: seq<string>, k2: seq<string>, a: nat, b: nat, e: nat, i: nat, j: nat) {
    && Settled(k1, k2, a, b) && a < |k1| && a <= i <= |k1| && b <= j <= e <= |k2|
    && (forall i' :: a <= i' < i ==> k1[i'] == k1[a])
    && (forall j' :: b <= j' < e ==> k2[j'] == k1[a])
    && (j > b ==> i < |k1| && k1[i] == k1[a])
  }

  /** The lines of file 2 with that field end at e. */
  ghost predicate Closed(k1: seq<string>, k2: seq<string>, a: nat, b: nat, e: nat) {
    a < |k1| && b < e <= |k2| && (e < |k2| ==> k2[e] != k1[a])
  }

  /** Lines a..i-1 of file 1 have been joined with the group, line i with its lines before j. */
  ghost predicate Joining(out: seq<Event>, k1: seq<string>, k2: seq<string>, a: nat, b: nat, i: nat, j: nat, a1: bool,
                          a2: bool)
    requires a < |k1| && i <= |k1| && b <= |k2| && j <= |k2|
  {
    && Pairs(out) == Nested(k1, k2, i) + (if i < |k1| then Row(k1, k2, i, j) else [])
    && Singles1(out) == (if a1 then Lonely1(k1, k2, i) else [])
    && Singles2(out) == (if a2 then Lonely2(k1, k2, b) else [])
    && UpTo(out, k1, k2, k1[a])
  }

  ghost predicate InGroup(out: seq<Event>, k1: seq<string>, k2: seq<string>, a: nat, b: nat, e: nat, i: nat, j: nat,
                          a1: bool, a2: bool)
  {
    Group(k1, k2, a, b, e, i, j) && Joining(out, k1, k2, a, b, i, j, a1, a2)
  }

  lemma SettledRow(k1: seq<string>, k2: seq<string>, a: nat, b: nat, i: nat)
    requires Settled(k1, k2, a, b) && a <= i < |k1|
    ensures Row(k1, k2, i, b) == []
  {
    forall j | 0 <= j < b
      ensures k1[i] != k2[j]
    {
      CmpZero(k1[i], k2[j]);
    }
    NoPartners(k1, k2, i, b);
  }

  lemma StartGroup(out: seq<Event>, k1: seq<string>, k2: seq<string>, a: nat, b: nat, a1: bool, a2: bool)
    requires Done(out, k1, k2, a, b, a1, a2) && a < |k1| && b < |k2| && Cmp(k1[a], k2[b]) == 0
    ensures InGroup(out, k1, k2, a, b, b, a, b, a1, a2) && k1[a] == k2[b]
  {
    CmpZero(k1[a], k2[b]);
    SettledRow(k1, k2, a, b, a);
    assert Nested(k1, k2, a) + [] == Nested(k1, k2, a);
  }

  /** Another line of file 2 that goes with line i. */
  lemma AddPair(out: seq<Event>, k1: seq<string>, k2: seq<string>, a: nat, b: nat, e: nat, i: nat, j: nat, a1: bool,
                a2: bool)
    requires InGroup(out, k1, k2, a, b, e, i, j, a1, a2) && i < |k1| && j < |k2| && k1[i] == k1[a] == k2[j]
    ensures InGroup(out + [Pair(i, j)], k1, k2, a, b, if j < e then e else e + 1, i, j + 1, a1, a2)
  {
    hide Group, Ordered, Nested, Lonely1, Lonely2, Pairs, Singles1, Singles2, Le, UpTo;
    MoreGroup(k1, k2, a, b, e, i, j);
    AddKinds(out, Pair(i, j));
    AddUpTo(out, k1, k2, k1[a], Pair(i, j));
  }

  lemma MoreGroup(k1: seq<string>, k2: seq<string>, a: nat, b: nat, e: nat, i: nat, j: nat)
    requires Group(k1, k2, a, b, e, i, j) && i < |k1| && j < |k2| && k1[i] == k1[a] == k2[j]
    ensures a < |k1| && Group(k1, k2, a, b, if j < e then e else e + 1, i, j + 1)
  {
    hide Settled;
  }

  lemma AddUpTo(out: seq<Event>, k1: seq<string>, k2: seq<string>, s: string, e: Event)
    requires UpTo(out, k1, k2, s) && InRange(e, k1, k2) && Key(e, k1, k2) == s
    ensures UpTo(out + [e], k1, k2, s)
  {
    hide Le, Key;
    LeSame(s);
  }

  lemma {:induction false} RowRest(k1: seq<string>, k2: seq<string>, i: nat, e: nat, m: nat)
    requires i < |k1| && e <= m <= |k2| && forall j :: e <= j < m ==> k1[i] != k2[j]
    ensures Row(k1, k2, i, m) == Row(k1, k2, i, e)
  {
    if e < m {
      RowRest(k1, k2, i, e, m - 1);
    }
  }

  /** After the end of the group comes nothing that matches. */
  lemma PastGroup(k1: seq<string>, k2: seq<string>, a: nat, b: nat, e: nat, i: nat, j: nat)
    requires Group(k1, k2, a, b, e, i, j) && Closed(k1, k2, a, b, e)
    ensures forall j' :: e <= j' < |k2| ==> Cmp(k1[a], k2[j']) < 0
  {
    if e < |k2| {
      assert k2[b] == k1[a];
      assert Le(k2[b], k2[e]);
      CmpZero(k1[a], k2[e]);
      forall j' | e <= j' < |k2|
        ensures Cmp(k1[a], k2[j']) < 0
      {
        StaysBefore(k1, k2, a, e, a, j');
      }
    }
  }

  /** The row of line i ends with the group. */
  lemma WholeRow(k1: seq<string>, k2: seq<string>, a: nat, b: nat, e: nat, i: nat)
    requires Group(k1, k2, a, b, e, i, e) && Closed(k1, k2, a, b, e)
    ensures i < |k1| && k1[i] == k1[a] && k1[i] in k2
    ensures Row(k1, k2, i, |k2|) == Row(k1, k2, i, e)
    ensures Group(k1, k2, a, b, e, i + 1, b)
  {
    PastGroup(k1, k2, a, b, e, i, e);
    forall j | e <= j < |k2|
      ensures k1[i] != k2[j]
    {
      CmpZero(k1[i], k2[j]);
    }
    RowRest(k1, k2, i, e, |k2|);
    assert k1[i] == k2[b];
  }

  /** Line i has been joined with the whole group. */
  lemma NextRow(out: seq<Event>, k1: seq<string>, k2: seq<string>, a: nat, b: nat, e: nat, i: nat, a1: bool, a2: bool)
    requires InGroup(out, k1, k2, a, b, e, i, e, a1, a2) && Closed(k1, k2, a, b, e)
    ensures i < |k1| && InGroup(out, k1, k2, a, b, e, i + 1, b, a1, a2)
  {
    hide Group, Closed, Row, Lonely2, Pairs, Singles1, Singles2, UpTo;
    WholeRow(k1, k2, a, b, e, i);
    if i + 1 < |k1| {
      NothingYet(k1, k2, a, b, e, i + 1);
    }
  }

  lemma NothingYet(k1: seq<string>, k2: seq<string>, a: nat, b: nat, e: nat, i: nat)
    requires Group(k1, k2, a, b, e, i, b) && i < |k1|
    ensures Row(k1, k2, i, b) == [] && Nested(k1, k2, i) + Row(k1, k2, i, b) == Nested(k1, k2, i)
  {
    SettledRow(k1, k2, a, b, i);
  }

  lemma {:induction false} Paired2(k1: seq<string>, k2: seq<string>, b: nat, e: nat)
    requires b <= e <= |k2| && forall j :: b <= j < e ==> k2[j] in k1
    ensures Lonely2(k1, k2, e) == Lonely2(k1, k2, b)
  {
    if b < e {
      Paired2(k1, k2, b, e - 1);
    }
  }

  lemma GroupPaired(k1: seq<string>, k2: seq<string>, a: nat, b: nat, e: nat, i: nat)
    requires Group(k1, k2, a, b, e, i, b)
    ensures Lonely2(k1, k2, e) == Lonely2(k1, k2, b)
  {
    assert k1[a] in k1;
    Paired2(k1, k2, b, e);
  }

  /** All of file 1 with this field is joined. */
  lemma EndGroup(out: seq<Event>, k1: seq<string>, k2: seq<string>, a: nat, b: nat, e: nat, i: nat, a1: bool, a2: bool)
    requires InGroup(out, k1, k2, a, b, e, i, b, a1, a2) && Closed(k1, k2, a, b, e)
    requires i < |k1| ==> k1[i] != k1[a]
    ensures Done(out, k1, k2, i, e, a1, a2)
  {
    hide Group, Closed, Row, Pairs, Singles1, Singles2, UpTo, Settled, Before, Nested, Lonely1, Lonely2;
    SettleGroup(k1, k2, a, b, e, i);
    GroupPaired(k1, k2, a, b, e, i);
    if i < |k1| {
      NothingYet(k1, k2, a, b, e, i);
    }
    KeysBefore(out, k1, k2, a, b, e, i);
  }

  lemma KeysBefore(out: seq<Event>, k1: seq<string>, k2: seq<string>, a: nat, b: nat, e: nat, i: nat)
    requires Group(k1, k2, a, b, e, i, b) && Closed(k1, k2, a, b, e) && UpTo(out, k1, k2, k1[a])
    requires forall i' :: i <= i' < |k1| ==> Cmp(k1[a], k1[i']) < 0
    ensures Before(out, k1, k2, i, e)
  {
    hide Settled;
    PastGroup(k1, k2, a, b, e, i, b);
    forall x, i' | 0 <= x < |out| && i <= i' < |k1|
      ensures Le(Key(out[x], k1, k2), k1[i'])
    {
      LeTrans(Key(out[x], k1, k2), k1[a], k1[i']);
    }
    forall x, j' | 0 <= x < |out| && e <= j' < |k2|
      ensures Le(Key(out[x], k1, k2), k2[j'])
    {
      LeTrans(Key(out[x], k1, k2), k1[a], k2[j']);
    }
  }

  /** Lines of file 1 after the group come after its field. */
  lemma AfterGroup(k1: seq<string>, k2: seq<string>, a: nat, b: nat, e: nat, i: nat)
    requires Group(k1, k2, a, b, e, i, b)
    requires i < |k1| ==> k1[i] != k1[a]
    ensures forall i' :: i <= i' < |k1| ==> Cmp(k1[a], k1[i']) < 0
  {
    forall i' | i <= i' < |k1|
      ensures Cmp(k1[a], k1[i']) < 0
    {
      assert Le(k1[a], k1[i]) && Le(k1[i], k1[i']);
      CmpZero(k1[a], k1[i]);
      LeTrans(k1[a], k1[i], k1[i']);
    }
  }

  lemma SettleGroup(k1: seq<string>, k2: seq<string>, a: nat, b: nat, e: nat, i: nat)
    requires Group(k1, k2, a, b, e, i, b) && Closed(k1, k2, a, b, e)
    requires i < |k1| ==> k1[i] != k1[a]
    ensures Settled(k1, k2, i, e)
    ensures forall i' :: i <= i' < |k1| ==> Cmp(k1[a], k1[i']) < 0
  {
    PastGroup(k1, k2, a, b, e, i, b);
    AfterGroup(k1, k2, a, b, e, i);
    forall i', j | i <= i' < |k1| && 0 <= j < e
      ensures Cmp(k1[i'], k2[j]) > 0
    {
      CmpFlips(k1[i'], k1[a]);
    }
  }

  // ----- the program

  class Joiner {
    const file1: seq<Line>
    const file2: seq<Line>
    const j1: nat      // the join fields, counted from 0
    const j2: nat
    const a1: bool     // print lines without partner
    const a2: bool
    var pos1: nat      // the next line to be read
    var pos2: nat
    var cur1: nat      // the line in the buffer
    var cur2: nat
    var n1: nat        // its number of fields; 0 at the end of the file
    var n2: nat
    var out: seq<Event>

    ghost predicate Complete() {
      && (forall i :: 0 <= i < |file1| ==> j1 < |file1[i]|)
      && forall j :: 0 <= j < |file2| ==> j2 < |file2[j]|
    }

    ghost function K1(): seq<string>
      requires Complete()
    {
      Fields(file1, j1)
    }

    ghost function K2(): seq<string>
      requires Complete()
    {
      Fields(file2, j2)
    }

    constructor (file1: seq<Line>, file2: seq<Line>, j1: nat, j2: nat, a1: bool, a2: bool)
      ensures this.file1 == file1 && this.file2 == file2 && this.j1 == j1 && this.j2 == j2
      ensures this.a1 == a1 && this.a2 == a2 && pos1 == 0 && pos2 == 0 && out == []
    {
      this.file1, this.file2, this.j1, this.j2, this.a1, this.a2 := file1, file2, j1, j2, a1, a2;
      pos1, pos2, cur1, cur2, n1, n2, out := 0, 0, 0, 0, 0, 0, [];
    }

    /** The current line of file 1 is line i, or file 1 is at its end. */
    predicate At1(i: nat)
      reads this`pos1, this`cur1, this`n1
    {
      if n1 > 0 then i == cur1 < |file1| && pos1 == i + 1 else i == pos1 == |file1|
    }

    predicate At2(j: nat)
      reads this`pos2, this`cur2, this`n2
    {
      if n2 > 0 then j == cur2 < |file2| && pos2 == j + 1 else j == pos2 == |file2|
    }

    method Get1()
      requires Complete() && pos1 <= |file1|
      modifies this`pos1, this`cur1, this`n1
      ensures At1(old(pos1))
    {
      if pos1 < |file1| {
        cur1, n1, pos1 := pos1, |file1[pos1]|, pos1 + 1;
      } else {
        n1 := 0;
      }
    }

    method Get2()
      requires Complete() && pos2 <= |file2|
      modifies this`pos2, this`cur2, this`n2
      ensures At2(old(pos2))
    {
      if pos2 < |file2| {
        cur2, n2, pos2 := pos2, |file2[pos2]|, pos2 + 1;
      } else {
        n2 := 0;
      }
    }

    /** The join fields of the current lines. */
    function Comp(): (c: int)
      requires Complete() && cur1 < |file1| && cur2 < |file2|
      reads this`cur1, this`cur2
      ensures c == Cmp(K1()[cur1], K2()[cur2])
    {
      Cmp(file1[cur1][j1], file2[cur2][j2])
    }

    /** The merge loop: files sorted on the join field are joined. */
    method JoinFiles()
      requires Complete() && pos1 == pos2 == 0 && out == [] && Sorted(K1()) && Sorted(K2())
      modifies this
      ensures IsJoin(out, K1(), K2(), a1, a2)
    {
      hide Done, IsJoin, Cmp, Sorted;
      Get1();
      var bot2 := pos2;
      Get2();
      ghost var a: nat, b: nat := 0, 0;
      NothingDone(K1(), K2(), a1, a2);
      while (n1 > 0 && n2 > 0) || ((a1 || a2) && n1 + n2 > 0)
        invariant At1(a) && At2(b) && bot2 == b && Done(out, K1(), K2(), a, b, a1, a2)
        decreases |file1| - a, |file2| - b
      {
        if (n1 > 0 && n2 > 0 && Comp() > 0) || n1 == 0 {
          Skip2(out, K1(), K2(), a, b, a1, a2);
          if a2 {
            out := out + [Only2(cur2)];
          }
          bot2 := pos2;
          Get2();
          b := b + 1;
        } else if (n1 > 0 && n2 > 0 && Comp() < 0) || n2 == 0 {
          Skip1(out, K1(), K2(), a, b, a1, a2);
          if a1 {
            out := out + [Only1(cur1)];
          }
          Get1();
          a := a + 1;
        } else {
          bot2, a := JoinGroup(bot2, a);
          b := bot2;
        }
      }
      AllDone(out, K1(), K2(), a, b, a1, a2);
    }

    /** A group of lines with the same field, starting at lines a and bot. */
    method JoinGroup(bot: nat, ghost a: nat) returns (top2: nat, ghost a': nat)
      requires Complete() && At1(a) && At2(bot) && n1 > 0 && n2 > 0 && Comp() == 0
      requires Done(out, K1(), K2(), a, bot, a1, a2)
      modifies this
      ensures a < a' && bot < top2 && At1(a') && At2(top2) && Done(out, K1(), K2(), a', top2, a1, a2)
    {
      hide Done, InGroup, Closed, Cmp;
      StartGroup(out, K1(), K2(), a, bot, a1, a2);
      top2 := FirstRow(bot, a);
      NextRow(out, K1(), K2(), a, bot, top2, a, a1, a2);
      pos2 := bot;
      Get2();
      Get1();
      a' := OtherRows(bot, top2, a);
      pos2 := top2;
      Get2();
    }

    /** The first line of the group in file 1 with all of the group in file 2. */
    method FirstRow(bot: nat, ghost a: nat) returns (top2: nat)
      requires Complete() && At1(a) && At2(bot) && n1 > 0 && n2 > 0 && Comp() == 0
      requires InGroup(out, K1(), K2(), a, bot, bot, a, bot, a1, a2)
      modifies this`pos2, this`cur2, this`n2, this`out
      ensures bot < top2 <= |file2| && pos2 <= |file2|
      ensures InGroup(out, K1(), K2(), a, bot, top2, a, top2, a1, a2) && Closed(K1(), K2(), a, bot, top2)
    {
      hide InGroup, Closed, Cmp;
      ghost var j: nat := bot;
      top2 := bot;
      while n2 > 0 && Comp() == 0
        invariant n1 > 0 && At2(j) && bot <= j && InGroup(out, K1(), K2(), a, bot, j, a, j, a1, a2)
        invariant if j > bot then top2 == j else n2 > 0 && Comp() == 0
        decreases |file2| - j
      {
        GroupStart(out, K1(), K2(), a, bot, j, a, j, a1, a2);
        CmpZero(K1()[a], K2()[j]);
        AddPair(out, K1(), K2(), a, bot, j, a, j, a1, a2);
        out := out + [Pair(cur1, cur2)];
        top2 := pos2;
        Get2();
        j := j + 1;
      }
      GroupCloses(out, K1(), K2(), a, bot, j, a1, a2);
    }

    /** The other lines of the group in file 1, each with all of the group in file 2, which is read again. */
    method OtherRows(bot: nat, ghost e: nat, ghost a: nat) returns (ghost i: nat)
      requires Complete() && At1(a + 1) && At2(bot) && e <= |file2|
      requires InGroup(out, K1(), K2(), a, bot, e, a + 1, bot, a1, a2) && Closed(K1(), K2(), a, bot, e)
      modifies this`pos1, this`cur1, this`n1, this`pos2, this`cur2, this`n2, this`out
      ensures a < i && At1(i) && Done(out, K1(), K2(), i, e, a1, a2)
    {
      hide Done, InGroup, Closed, Cmp;
      i := a + 1;
      ghost var j: nat := bot;
      while true
        invariant At1(i) && At2(j) && a < i && bot <= j
        invariant InGroup(out, K1(), K2(), a, bot, e, i, j, a1, a2)
        decreases |file1| - i, |file2| - j
      {
        GroupFacts(out, K1(), K2(), a, bot, e, i, j, a1, a2);
        if n1 > 0 && n2 > 0 && Comp() == 0 {
          AddPair(out, K1(), K2(), a, bot, e, i, j, a1, a2);
          out := out + [Pair(cur1, cur2)];
          Get2();
          j := j + 1;
        } else if (n1 > 0 && n2 > 0 && Comp() < 0) || n2 == 0 {
          NextRow(out, K1(), K2(), a, bot, e, i, a1, a2);
          pos2 := bot;
          Get2();
          Get1();
          i, j := i + 1, bot;
        } else {
          EndGroup(out, K1(), K2(), a, bot, e, i, a1, a2);
          break;
        }
      }
    }
  }

  /** The first line of file 2 that does not match closes the group. */
  lemma GroupCloses(out: seq<Event>, k1: seq<string>, k2: seq<string>, a: nat, b: nat, j: nat, a1: bool, a2: bool)
    requires InGroup(out, k1, k2, a, b, j, a, j, a1, a2) && b < j && (j < |k2| ==> Cmp(k1[a], k2[j]) != 0)
    ensures Closed(k1, k2, a, b, j)
  {
    if j < |k2| {
      CmpZero(k1[a], k2[j]);
    }
  }

  lemma GroupStart(out: seq<Event>, k1: seq<string>, k2: seq<string>, a: nat, b: nat, e: nat, i: nat, j: nat, a1: bool,
                   a2: bool)
    requires InGroup(out, k1, k2, a, b, e, i, j, a1, a2)
    ensures a < |k1| && a <= i && j <= e <= |k2|
  {
  }

  /** How the comparison of line i with line j comes out. */
  lemma GroupFacts(out: seq<Event>, k1: seq<string>, k2: seq<string>, a: nat, b: nat, e: nat, i: nat, j: nat, a1: bool,
                   a2: bool)
    requires InGroup(out, k1, k2, a, b, e, i, j, a1, a2) && Closed(k1, k2, a, b, e)
    ensures a < |k1| && i <= |k1| && j <= e <= |k2|
    ensures i < |k1| && j < |k2| && Cmp(k1[i], k2[j]) == 0 ==> j < e && k1[i] == k1[a] == k2[j]
    ensures (i < |k1| && j < |k2| && Cmp(k1[i], k2[j]) < 0) || j == |k2| ==> j == e
    ensures i == |k1| || (j < |k2| && Cmp(k1[i], k2[j]) > 0) ==> j == b && (i < |k1| ==> k1[i] != k1[a])
  {
    hide Joining;
    if i < |k1| && j < |k2| {
      if k1[i] == k1[a] {
        PastGroup(k1, k2, a, b, e, i, j);
        CmpZero(k1[i], k2[j]);
      } else {
        AfterGroup(k1, k2, a, b, e, i);
        CmpFlips(k1[i], k2[b]);
      }
    }
  }

  lemma NothingDone(k1: seq<string>, k2: seq<string>, a1: bool, a2: bool)
    requires Sorted(k1) && Sorted(k2)
    ensures Done([], k1, k2, 0, 0, a1, a2)
  {
  }

  lemma AloneRow(k1: seq<string>, k2: seq<string>, i: nat)
    requires i < |k1| && k1[i] !in k2
    ensures Row(k1, k2, i, |k2|) == []
  {
    NoPartners(k1, k2, i, |k2|);
  }

  lemma {:induction false} AllPaired(k1: seq<string>, k2: seq<string>, a: nat, n: nat)
    requires a <= n <= |k1| && forall i :: a <= i < n ==> k1[i] !in k2
    ensures Nested(k1, k2, n) == Nested(k1, k2, a)
  {
    if a < n {
      AllPaired(k1, k2, a, n - 1);
      AloneRow(k1, k2, n - 1);
    }
  }

  /** When the loop ends, what is left of one file has no partners and need not be printed. */
  lemma AllDone(out: seq<Event>, k1: seq<string>, k2: seq<string>, a: nat, b: nat, a1: bool, a2: bool)
    requires Done(out, k1, k2, a, b, a1, a2) && (a == |k1| || b == |k2|)
    requires a1 || a2 ==> a == |k1| && b == |k2|
    ensures IsJoin(out, k1, k2, a1, a2)
  {
    hide Ordered, Pairs, Singles1, Singles2, Nested;
    forall i | a <= i < |k1|
      ensures k1[i] !in k2
    {
      if k1[i] in k2 {
        CmpZero(k1[i], k1[i]);
      }
    }
    AllPaired(k1, k2, a, |k1|);
  }
}
