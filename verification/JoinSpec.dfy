/** What join.c is to print, told without its merge loop: the nested-loop join and the unpaired lines. */
module JoinSpec {

  // ----- strcmp

  /** Negative, zero or positive, as a comes before b, is b, or comes after b. */
  function Cmp(a: string, b: string): int {
    if a == [] && b == [] then 0
    else if a == [] then -1
    else if b == [] then 1
    else if a[0] != b[0] then a[0] as int - b[0] as int
    else Cmp(a[1..], b[1..])
  }

  predicate Le(a: string, b: string) {
    Cmp(a, b) <= 0
  }

  lemma {:induction false} CmpZero(a: string, b: string)
    ensures Cmp(a, b) == 0 <==> a == b
  {
    if a != [] && b != [] && a[0] == b[0] {
      CmpZero(a[1..], b[1..]);
      assert a == [a[0]] + a[1..] && b == [b[0]] + b[1..];
    }
  }

  lemma {:induction false} CmpFlips(a: string, b: string)
    ensures Cmp(a, b) > 0 <==> Cmp(b, a) < 0
  {
    if a != [] && b != [] && a[0] == b[0] {
      CmpFlips(a[1..], b[1..]);
    }
  }

  lemma {:induction false} LeTrans(a: string, b: string, c: string)
    requires Le(a, b) && Le(b, c)
    ensures Le(a, c) && (Cmp(a, b) < 0 || Cmp(b, c) < 0 ==> Cmp(a, c) < 0)
  {
    if a != [] && b != [] && c != [] && a[0] == b[0] == c[0] {
      LeTrans(a[1..], b[1..], c[1..]);
    }
  }

  // ----- sorted files

  /** The join fields of the lines of a file, in order. */
  ghost predicate Sorted(k: seq<string>) {
    forall i, j :: 0 <= i <= j < |k| ==> Le(k[i], k[j])
  }

  /** Once a line of file 1 is past a line of file 2, so are all later ones, of all earlier ones. */
  lemma StaysPast(k1: seq<string>, k2: seq<string>, i: nat, j: nat, i': nat, j': nat)
    requires Sorted(k1) && Sorted(k2) && i <= i' < |k1| && j' <= j < |k2| && Cmp(k1[i], k2[j]) > 0
    ensures Cmp(k1[i'], k2[j']) > 0
  {
    CmpFlips(k1[i], k2[j]);
    LeTrans(k2[j'], k2[j], k1[i]);
    LeTrans(k2[j'], k1[i], k1[i']);
    CmpFlips(k1[i'], k2[j']);
  }

  /** Once a line of file 1 is before a line of file 2, so are all earlier ones, of all later ones. */
  lemma StaysBefore(k1: seq<string>, k2: seq<string>, i: nat, j: nat, i': nat, j': nat)
    requires Sorted(k1) && Sorted(k2) && i' <= i < |k1| && j <= j' < |k2| && Cmp(k1[i], k2[j]) < 0
    ensures Cmp(k1[i'], k2[j']) < 0
  {
    LeTrans(k1[i'], k1[i], k2[j]);
    LeTrans(k1[i'], k2[j], k2[j']);
  }

  // ----- the output

  /** Lines by number: a joined pair, or a line of one file without partner. */
  datatype Event = Pair(i: nat, j: nat) | Only1(i: nat) | Only2(j: nat)

  /** Line i of file 1 with the first m lines of file 2. */
  function Row(k1: seq<string>, k2: seq<string>, i: nat, m: nat): seq<Event>
    requires i < |k1| && m <= |k2|
  {
    if m == 0 then [] else Row(k1, k2, i, m - 1) + if k1[i] == k2[m - 1] then [Pair(i, m - 1)] else []
  }

  /** The first n lines of file 1 with all of file 2. */
  function Nested(k1: seq<string>, k2: seq<string>, n: nat): seq<Event>
    requires n <= |k1|
  {
    if n == 0 then [] else Nested(k1, k2, n - 1) + Row(k1, k2, n - 1, |k2|)
  }

  /** The lines among the first n of file 1 whose field does not occur in file 2. */
  function Lonely1(k1: seq<string>, k2: seq<string>, n: nat): seq<Event>
    requires n <= |k1|
  {
    if n == 0 then [] else Lonely1(k1, k2, n - 1) + if k1[n - 1] in k2 then [] else [Only1(n - 1)]
  }

  function Lonely2(k1: seq<string>, k2: seq<string>, n: nat): seq<Event>
    requires n <= |k2|
  {
    if n == 0 then [] else Lonely2(k1, k2, n - 1) + if k2[n - 1] in k1 then [] else [Only2(n - 1)]
  }

  function Pairs(out: seq<Event>): seq<Event> {
    if |out| == 0 then [] else Pairs(out[..|out| - 1]) + if out[|out| - 1].Pair? then [out[|out| - 1]] else []
  }

  function Singles1(out: seq<Event>): seq<Event> {
    if |out| == 0 then [] else Singles1(out[..|out| - 1]) + if out[|out| - 1].Only1? then [out[|out| - 1]] else []
  }

  function Singles2(out: seq<Event>): seq<Event> {
    if |out| == 0 then [] else Singles2(out[..|out| - 1]) + if out[|out| - 1].Only2? then [out[|out| - 1]] else []
  }

  ghost predicate InRange(e: Event, k1: seq<string>, k2: seq<string>) {
    match e
    case Pair(i, j) => i < |k1| && j < |k2|
    case Only1(i) => i < |k1|
    case Only2(j) => j < |k2|
  }

  function Key(e: Event, k1: seq<string>, k2: seq<string>): string
    requires InRange(e, k1, k2)
  {
    if e.Only2? then k2[e.j] else k1[e.i]
  }

  /** The output is in the order of the join field. */
  ghost predicate Ordered(out: seq<Event>, k1: seq<string>, k2: seq<string>) {
    && (forall x :: 0 <= x < |out| ==> InRange(out[x], k1, k2))
    && forall x, y :: 0 <= x <= y < |out| ==> Le(Key(out[x], k1, k2), Key(out[y], k1, k2))
  }

  /** out is what the join of the files with these fields is to be. */
  ghost predicate IsJoin(out: seq<Event>, k1: seq<string>, k2: seq<string>, a1: bool, a2: bool) {
    && Pairs(out) == Nested(k1, k2, |k1|)
    && Singles1(out) == (if a1 then Lonely1(k1, k2, |k1|) else [])
    && Singles2(out) == (if a2 then Lonely2(k1, k2, |k2|) else [])
    && Ordered(out, k1, k2)
  }

  // ----- nothing else meets that description

  /** Events of different kinds never have the same field. */
  ghost predicate Apart(out: seq<Event>, k1: seq<string>, k2: seq<string>) {
    forall x :: 0 <= x < |out| ==> Fits(out[x], k1, k2)
  }

  lemma {:induction false} ApartInit(out: seq<Event>, k1: seq<string>, k2: seq<string>)
    requires Ordered(out, k1, k2) && Apart(out, k1, k2) && |out| > 0
    ensures Ordered(out[..|out| - 1], k1, k2) && Apart(out[..|out| - 1], k1, k2)
  {
    var init := out[..|out| - 1];
    assert forall x :: 0 <= x < |init| ==> init[x] == out[x];
  }

  /** The last event of each kind is somewhere in the output. */
  lemma {:induction false} LastOfKind(out: seq<Event>, p: seq<Event>)
    requires p != [] && (p == Pairs(out) || p == Singles1(out) || p == Singles2(out))
    ensures p[|p| - 1] in out
  {
    var n := |out| - 1;
    if (p == Pairs(out) && out[n].Pair?) || (p == Singles1(out) && out[n].Only1?) || (p == Singles2(out)
      && out[n].Only2?) {
      assert out[n] == p[|p| - 1];
    } else {
      LastOfKind(out[..n], p);
    }
  }

  function Kind(out: seq<Event>, e: Event): seq<Event> {
    match e
    case Pair(_, _) => Pairs(out)
    case Only1(_) => Singles1(out)
    case Only2(_) => Singles2(out)
  }

  ghost predicate Fits(e: Event, k1: seq<string>, k2: seq<string>) {
    match e
    case Pair(i, j) => i < |k1| && j < |k2| && k1[i] == k2[j]
    case Only1(i) => i < |k1| && k1[i] !in k2
    case Only2(j) => j < |k2| && k2[j] !in k1
  }

  lemma LeBoth(a: string, b: string)
    requires Le(a, b) && Le(b, a)
    ensures a == b
  {
    CmpFlips(a, b);
    CmpZero(b, a);
  }

  /** An event that is in an output comes no later than its end. */
  lemma BeforeEnd(out: seq<Event>, f: Event, k1: seq<string>, k2: seq<string>)
    requires out != [] && Ordered(out, k1, k2) && f in out && InRange(f, k1, k2)
    ensures InRange(out[|out| - 1], k1, k2) && Le(Key(f, k1, k2), Key(out[|out| - 1], k1, k2))
  {
    var x :| 0 <= x < |out| && out[x] == f;
  }

  /** Outputs that agree on each kind of event have the same end. */
  lemma {:induction false} SameEnd(out: seq<Event>, other: seq<Event>, k1: seq<string>, k2: seq<string>)
    requires Ordered(out, k1, k2) && Ordered(other, k1, k2) && Apart(out, k1, k2) && Apart(other, k1, k2)
    requires Pairs(out) == Pairs(other) && Singles1(out) == Singles1(other) && Singles2(out) == Singles2(other)
    requires out != [] && other != []
    ensures out[|out| - 1] == other[|other| - 1]
  {
    hide Pairs, Singles1, Singles2, Key, Le, Ordered;
    var e, f := out[|out| - 1], other[|other| - 1];
    LastIs(out);
    LastIs(other);
    LastOfKind(out, Kind(other, f));
    LastOfKind(other, Kind(out, e));
    InRanges(out, other, k1, k2);
    BeforeEnd(out, f, k1, k2);
    BeforeEnd(other, e, k1, k2);
    LeBoth(Key(e, k1, k2), Key(f, k1, k2));
    SameField(e, f, k1, k2);
  }

  lemma InRanges(out: seq<Event>, other: seq<Event>, k1: seq<string>, k2: seq<string>)
    requires Ordered(out, k1, k2) && Ordered(other, k1, k2) && out != [] && other != []
    ensures InRange(out[|out| - 1], k1, k2) && InRange(other[|other| - 1], k1, k2)
  {
  }

  lemma SameField(e: Event, f: Event, k1: seq<string>, k2: seq<string>)
    requires Fits(e, k1, k2) && Fits(f, k1, k2) && InRange(e, k1, k2) && InRange(f, k1, k2)
    requires Key(e, k1, k2) == Key(f, k1, k2)
    ensures e.Pair? == f.Pair? && e.Only1? == f.Only1?
  {
  }

  lemma LastIs(out: seq<Event>)
    requires out != []
    ensures
      var e := out[|out| - 1];
      |Kind(out, e)| > 0 && Kind(out, e)[|Kind(out, e)| - 1] == e
  {
  }

  lemma {:induction false} NothingLeft(out: seq<Event>)
    requires Pairs(out) == [] && Singles1(out) == [] && Singles2(out) == []
    ensures out == []
  {
  }

  lemma {:induction false} Determined(out: seq<Event>, other: seq<Event>, k1: seq<string>, k2: seq<string>)
    requires Ordered(out, k1, k2) && Ordered(other, k1, k2) && Apart(out, k1, k2) && Apart(other, k1, k2)
    requires Pairs(out) == Pairs(other) && Singles1(out) == Singles1(other) && Singles2(out) == Singles2(other)
    ensures out == other
    decreases |out|
  {
    if out == [] {
      NothingLeft(other);
    } else if other == [] {
      NothingLeft(out);
    } else {
      SameEnd(out, other, k1, k2);
      ApartInit(out, k1, k2);
      ApartInit(other, k1, k2);
      var n, m := |out| - 1, |other| - 1;
      assert Pairs(out[..n]) == Pairs(other[..m]) && Singles1(out[..n]) == Singles1(other[..m])
             && Singles2(out[..n]) == Singles2(other[..m]) by {
        SameRest(out, other);
      }
      Determined(out[..n], other[..m], k1, k2);
      assert out == out[..n] + [out[n]] && other == other[..m] + [other[m]];
    }
  }

  lemma SameRest(out: seq<Event>, other: seq<Event>)
    requires out != [] && other != [] && out[|out| - 1] == other[|other| - 1]
    requires Pairs(out) == Pairs(other) && Singles1(out) == Singles1(other) && Singles2(out) == Singles2(other)
    ensures Pairs(out[..|out| - 1]) == Pairs(other[..|other| - 1])
    ensures Singles1(out[..|out| - 1]) == Singles1(other[..|other| - 1])
    ensures Singles2(out[..|out| - 1]) == Singles2(other[..|other| - 1])
  {
    WithoutLast(out);
    WithoutLast(other);
  }

  /** The kinds of an output without its last event. */
  lemma WithoutLast(out: seq<Event>)
    requires out != []
    ensures
      var init, e := out[..|out| - 1], out[|out| - 1];
      && Pairs(init) == (if e.Pair? then Pairs(out)[..|Pairs(out)| - 1] else Pairs(out))
      && Singles1(init) == (if e.Only1? then Singles1(out)[..|Singles1(out)| - 1] else Singles1(out))
      && Singles2(init) == if e.Only2? then Singles2(out)[..|Singles2(out)| - 1] else Singles2(out)
  {
  }

  // ----- a join consists of what it should

  lemma {:induction false} RowMembers(k1: seq<string>, k2: seq<string>, i: nat, m: nat)
    requires i < |k1| && m <= |k2|
    ensures forall e :: e in Row(k1, k2, i, m) <==> e.Pair? && e.i == i && e.j < m && k1[i] == k2[e.j]
  {
    if m > 0 {
      RowMembers(k1, k2, i, m - 1);
    }
  }

  lemma {:induction false} NestedMembers(k1: seq<string>, k2: seq<string>, n: nat)
    requires n <= |k1|
    ensures forall e :: e in Nested(k1, k2, n) <==> e.Pair? && e.i < n && e.j < |k2| && k1[e.i] == k2[e.j]
  {
    hide Row;
    if n > 0 {
      NestedMembers(k1, k2, n - 1);
      RowMembers(k1, k2, n - 1, |k2|);
      InEither(Nested(k1, k2, n - 1), Row(k1, k2, n - 1, |k2|));
    }
  }

  lemma InEither(a: seq<Event>, b: seq<Event>)
    ensures forall e :: e in a + b <==> e in a || e in b
  {
  }

  lemma {:induction false} Lonely1Members(k1: seq<string>, k2: seq<string>, n: nat)
    requires n <= |k1|
    ensures forall e :: e in Lonely1(k1, k2, n) <==> e.Only1? && e.i < n && k1[e.i] !in k2
  {
    if n > 0 {
      Lonely1Members(k1, k2, n - 1);
      InEither(Lonely1(k1, k2, n - 1), if k1[n - 1] in k2 then [] else [Only1(n - 1)]);
    }
  }

  lemma {:induction false} Lonely2Members(k1: seq<string>, k2: seq<string>, n: nat)
    requires n <= |k2|
    ensures forall e :: e in Lonely2(k1, k2, n) <==> e.Only2? && e.j < n && k2[e.j] !in k1
  {
    if n > 0 {
      Lonely2Members(k1, k2, n - 1);
      InEither(Lonely2(k1, k2, n - 1), if k2[n - 1] in k1 then [] else [Only2(n - 1)]);
    }
  }

  lemma {:induction false} KindMembers(out: seq<Event>, x: nat)
    requires x < |out|
    ensures out[x] in Kind(out, out[x])
  {
    if x < |out| - 1 {
      KindMembers(out[..|out| - 1], x);
    }
  }

  lemma {:induction false} JoinApart(out: seq<Event>, k1: seq<string>, k2: seq<string>, a1: bool, a2: bool)
    requires IsJoin(out, k1, k2, a1, a2)
    ensures Apart(out, k1, k2)
  {
    hide Pairs, Singles1, Singles2, Nested, Lonely1, Lonely2;
    NestedMembers(k1, k2, |k1|);
    Lonely1Members(k1, k2, |k1|);
    Lonely2Members(k1, k2, |k2|);
    forall x | 0 <= x < |out|
      ensures out[x] in Kind(out, out[x])
    {
      KindMembers(out, x);
    }
  }

  /** There is exactly one output that is the join of two files. */
  lemma {:induction false} JoinIsUnique(out: seq<Event>, other: seq<Event>, k1: seq<string>, k2: seq<string>, a1: bool,
                                        a2: bool)
    requires IsJoin(out, k1, k2, a1, a2) && IsJoin(other, k1, k2, a1, a2)
    ensures out == other
  {
    hide Ordered, Apart;
    JoinApart(out, k1, k2, a1, a2);
    JoinApart(other, k1, k2, a1, a2);
    Determined(out, other, k1, k2);
  }
}
