/** fgrep.c: the beginnings of the keywords in the order in which cfail comes to them, and where its queue ends up. */
module FgrepOrder {
  const QSIZE: nat := 400

  /** How cfail ends. Outside: the queue was empty at its last place, and rear has stepped past the end of its array. */
  datatype Outcome = Fine | TooLarge | Outside

  // ----- the text of the keywords

  /** The line that t ends in the middle of. */
  function Line(t: string): string {
    if t == "" || t[|t| - 1] == '\n' then "" else Line(t[..|t| - 1]) + [t[|t| - 1]]
  }

  /** With -x a newline is a letter of the keyword it ends. */
  predicate Letter(c: char, xflag: bool) {
    c != '\n' || xflag
  }

  /** The letters that follow the beginning p of a line in t, each once, as they come. */
  function Next(t: string, p: string, xflag: bool): seq<char> {
    if t == "" then []
    else
      var s, c := t[..|t| - 1], t[|t| - 1];
      var k := Next(s, p, xflag);
      if Line(s) == p && Letter(c, xflag) && c !in k then k + [c] else k
  }

  /** How many letters t has. */
  function Letters(t: string, xflag: bool): nat {
    if t == "" then 0 else Letters(t[..|t| - 1], xflag) + if Letter(t[|t| - 1], xflag) then 1 else 0
  }

  /**
   How many states the keywords get: one for each beginning, and one more for
   each letter that is not the first there.
   */
  function States(t: string, xflag: bool): nat {
    if t == "" then 1
    else
      var s, c := t[..|t| - 1], t[|t| - 1];
      var k := Next(s, Line(s), xflag);
      States(s, xflag) + if !Letter(c, xflag) || c in k then 0 else if k == [] then 1 else 2
  }

  /**
   The keywords as they get states: with -x an unfinished last line gets its
   newline if its last letter is a new one.
   */
  function Entered(arg: string, xflag: bool): string {
    if arg == "" then ""
    else
      var s, c := arg[..|arg| - 1], arg[|arg| - 1];
      if xflag && c != '\n' && c !in Next(s, Line(s), xflag) then arg + "\n" else arg
  }

  lemma OneMore(t: string, c: char, p: string, xflag: bool)
    ensures Next(t + [c], p, xflag) == if Line(t) == p && Letter(c, xflag) && c !in Next(t, p, xflag)
            then Next(t, p, xflag) + [c] else Next(t, p, xflag)
    ensures Line(t + [c]) == if c == '\n' then "" else Line(t) + [c]
    ensures Letters(t + [c], xflag) == Letters(t, xflag) + if Letter(c, xflag) then 1 else 0
    ensures States(t + [c], xflag) == States(t, xflag) + if !Letter(c, xflag) || c in Next(t, Line(t), xflag) then 0
                                        else if Next(t, Line(t), xflag) == [] then 1 else 2
  {
    assert (t + [c])[..|t|] == t;
  }

  lemma {:induction false} StatesGrow(s: string, t: string, xflag: bool)
    requires s <= t
    ensures States(s, xflag) <= States(t, xflag)
    decreases |t|
  {
    if s != t {
      StatesGrow(s, t[..|t| - 1], xflag);
    } else {
      assert s[..] == t[..];
    }
  }

  lemma {:induction false} StatesBound(t: string, xflag: bool)
    ensures States(t, xflag) <= 2 * Letters(t, xflag) + 1
  {
    if t != "" {
      StatesBound(t[..|t| - 1], xflag);
    }
  }

  lemma {:induction false} NextDistinct(t: string, p: string, xflag: bool)
    ensures forall i, j :: 0 <= i < j < |Next(t, p, xflag)| ==> Next(t, p, xflag)[i] != Next(t, p, xflag)[j]
  {
    if t != "" {
      NextDistinct(t[..|t| - 1], p, xflag);
    }
  }

  lemma {:induction false} LineFits(t: string)
    ensures |Line(t)| <= |t|
  {
    if t != "" {
      LineFits(t[..|t| - 1]);
    }
  }

  /** What has a letter after it is shorter than the text. */
  lemma {:induction false} NextFits(t: string, p: string, xflag: bool)
    requires |p| >= |t|
    ensures Next(t, p, xflag) == []
  {
    if t != "" {
      NextFits(t[..|t| - 1], p, xflag);
      LineFits(t[..|t| - 1]);
    }
  }

  lemma LineBegun(s: string, p: string, c: char, xflag: bool)
    requires c !in Next(s, p, xflag)
    ensures Line(s) != p + [c]
  {
    if s != "" {
      var r, d := s[..|s| - 1], s[|s| - 1];
      assert s == r + [d];
      OneMore(r, d, p, xflag);
      if Line(r) + [d] == p + [c] {
        assert (Line(r) + [d])[..|p|] == (p + [c])[..|p|];
      }
    }
  }

  /** What has not begun a line has no letter after it. */
  lemma {:induction false} NotBegun(t: string, p: string, c: char, xflag: bool)
    requires c !in Next(t, p, xflag)
    ensures Next(t, p + [c], xflag) == []
  {
    if t != "" {
      var s := t[..|t| - 1];
      NotBegun(s, p, c, xflag);
      LineBegun(s, p, c, xflag);
    }
  }

  /** A new letter begins a line that has none after it yet. */
  lemma NewLetter(t: string, c: char, xflag: bool)
    requires c !in Next(t, Line(t), xflag) && c != '\n'
    ensures Line(t + [c]) == Line(t) + [c] && Next(t + [c], Line(t + [c]), xflag) == []
  {
    NotBegun(t, Line(t), c, xflag);
    OneMore(t, c, Line(t) + [c], xflag);
  }

  lemma EnteredNew(arg: string, xflag: bool)
    requires arg != "" && arg[|arg| - 1] != '\n'
    requires arg[|arg| - 1] !in Next(arg[..|arg| - 1], Line(arg[..|arg| - 1]), xflag)
    ensures Entered(arg, xflag) == if xflag then arg + "\n" else arg
  {
  }

  lemma EnteredOld(t: string, c: char, xflag: bool)
    requires c == '\n' || c in Next(t, Line(t), xflag)
    ensures Entered(t + [c], xflag) == t + [c]
  {
    assert (t + [c])[..|t|] == t;
  }

  // ----- breadth first

  /** p with each of the letters of k after it. */
  function Longer(p: string, k: seq<char>): (r: seq<string>)
    ensures |r| == |k| && forall i :: 0 <= i < |k| ==> r[i] == p + [k[i]]
  {
    seq(|k|, i requires 0 <= i < |k| => p + [k[i]])
  }

  /** The beginnings that are one letter longer than one in ps. */
  function Children(t: string, xflag: bool, ps: seq<string>): seq<string> {
    if |ps| == 0 then []
    else Children(t, xflag, ps[..|ps| - 1]) + Longer(ps[|ps| - 1], Next(t, ps[|ps| - 1], xflag))
  }

  /**
   o holds the beginnings of the lines of t: the empty one, and behind it
   those that lengthen the ones in o, in the order of these.
   */
  predicate BreadthFirst(t: string, xflag: bool, o: seq<string>) {
    o == [""] + Children(t, xflag, o)
  }

  /** The beginnings of up to n letters. */
  function Order(t: string, xflag: bool, n: nat): (o: seq<string>)
    ensures |o| > 0
  {
    if n == 0 then [""] else [""] + Children(t, xflag, Order(t, xflag, n - 1))
  }

  lemma {:induction false} ChildrenConcat(t: string, xflag: bool, a: seq<string>, b: seq<string>)
    ensures Children(t, xflag, a + b) == Children(t, xflag, a) + Children(t, xflag, b)
  {
    hide Next, Longer;
    if |b| == 0 {
      assert a + b == a;
    } else {
      assert (a + b)[..|a + b| - 1] == a + b[..|b| - 1];
      ChildrenConcat(t, xflag, a, b[..|b| - 1]);
    }
  }

  /** Child i of those in ps. */
  lemma {:induction false} ChildAt(t: string, xflag: bool, ps: seq<string>, i: nat) returns (a: nat, k: nat)
    requires i < |Children(t, xflag, ps)|
    ensures a < |ps| && k < |Next(t, ps[a], xflag)| && i == |Children(t, xflag, ps[..a])| + k
    ensures Children(t, xflag, ps)[i] == ps[a] + [Next(t, ps[a], xflag)[k]]
  {
    var n := |ps| - 1;
    if i < |Children(t, xflag, ps[..n])| {
      a, k := ChildAt(t, xflag, ps[..n], i);
      assert ps[..n][..a] == ps[..a];
    } else {
      a, k := n, i - |Children(t, xflag, ps[..n])|;
    }
  }

  lemma {:induction false} LongEnough(t: string, xflag: bool, s: seq<string>, n: nat)
    requires s == Children(t, xflag, s)
    ensures forall i :: 0 <= i < |s| ==> |s[i]| >= n
  {
    if n > 0 {
      LongEnough(t, xflag, s, n - 1);
      forall i | 0 <= i < |s|
        ensures |s[i]| >= n
      {
        var a, k := ChildAt(t, xflag, s, i);
      }
    }
  }

  /** Nothing consists of its own children. */
  lemma NothingOfItself(t: string, xflag: bool, s: seq<string>)
    requires s == Children(t, xflag, s)
    ensures s == []
  {
    if s != [] {
      LongEnough(t, xflag, s, |s[0]| + 1);
      assert false;
    }
  }

  /** What n + 1 letters add are the children of what n letters added, and these have n letters. */
  lemma {:induction false} OrderGrows(t: string, xflag: bool, n: nat) returns (d: seq<string>)
    ensures Order(t, xflag, n + 1) == Order(t, xflag, n) + Children(t, xflag, d)
    ensures forall i :: 0 <= i < |d| ==> |d[i]| == n
  {
    hide Children;
    if n == 0 {
      d := [""];
    } else {
      var e := OrderGrows(t, xflag, n - 1);
      d := Children(t, xflag, e);
      ChildrenConcat(t, xflag, Order(t, xflag, n - 1), d);
      AllLonger(t, xflag, e, n - 1);
    }
  }

  lemma AllLonger(t: string, xflag: bool, ps: seq<string>, n: nat)
    requires forall i :: 0 <= i < |ps| ==> |ps[i]| == n
    ensures forall i :: 0 <= i < |Children(t, xflag, ps)| ==> |Children(t, xflag, ps)[i]| == n + 1
  {
    hide Children;
    forall i | 0 <= i < |Children(t, xflag, ps)|
      ensures |Children(t, xflag, ps)[i]| == n + 1
    {
      var a, k := ChildAt(t, xflag, ps, i);
    }
  }

  lemma {:induction false} NoChildren(t: string, xflag: bool, ps: seq<string>)
    requires forall i :: 0 <= i < |ps| ==> |ps[i]| >= |t|
    ensures Children(t, xflag, ps) == []
  {
    if |ps| > 0 {
      NoChildren(t, xflag, ps[..|ps| - 1]);
      NextFits(t, ps[|ps| - 1], xflag);
    }
  }

  /** There is a breadth-first order of the beginnings of every text. */
  lemma OrderIsBreadthFirst(t: string, xflag: bool)
    ensures BreadthFirst(t, xflag, Order(t, xflag, |t|))
  {
    var d := OrderGrows(t, xflag, |t|);
    NoChildren(t, xflag, d);
  }

  // ----- where the queue ends up

  /**
   How many beginnings have come to the queue when the first u + 1 of o, the
   empty one among them, have been handled.
   */
  function Came(t: string, xflag: bool, o: seq<string>, u: nat): nat
    requires u < |o|
  {
    |Children(t, xflag, o[..u + 1])|
  }

  /**
   What comes of handling beginning u of o: if it is longer ones that come to
   the queue, there may be too many, or they may come when it is empty at its
   last place.
   */
  function Step(t: string, xflag: bool, o: seq<string>, u: nat): Outcome
    requires u < |o|
  {
    if u == 0 then if Came(t, xflag, o, 0) >= QSIZE - 1 then TooLarge else Fine
    else if Came(t, xflag, o, u) == Came(t, xflag, o, u - 1) then Fine
    else if u % QSIZE == QSIZE - 1 && Came(t, xflag, o, u - 1) == u then Outside
    else if Came(t, xflag, o, u) - u >= QSIZE then TooLarge
    else Fine
  }

  /** One more beginning that is handled brings its children. */
  lemma CameMore(t: string, xflag: bool, o: seq<string>, u: nat)
    requires 0 < u < |o|
    ensures Children(t, xflag, o[..u + 1]) == Children(t, xflag, o[..u]) + Longer(o[u], Next(t, o[u], xflag))
  {
    assert o[..u + 1][..u] == o[..u];
  }

  /** What has come to the queue are the first beginnings behind the empty one. */
  lemma CameFirst(t: string, xflag: bool, o: seq<string>, u: nat)
    requires BreadthFirst(t, xflag, o) && u <= |o|
    ensures [""] + Children(t, xflag, o[..u]) <= o
    ensures u == 1 + |Children(t, xflag, o[..u])| ==> u == |o|
  {
    hide Children;
    assert o == o[..u] + o[u..];
    ChildrenConcat(t, xflag, o[..u], o[u..]);
    assert o == [""] + Children(t, xflag, o[..u]) + Children(t, xflag, o[u..]);
    if u == 1 + |Children(t, xflag, o[..u])| {
      NothingOfItself(t, xflag, o[u..]);
    }
  }

  /** Beginning u brings its children to the queue, and is itself not the last there. */
  lemma Brought(t: string, xflag: bool, o: seq<string>, u: nat)
    requires BreadthFirst(t, xflag, o) && 0 < u < |o| && u <= 1 + Came(t, xflag, o, u - 1)
    ensures
      var f := Longer(o[u], Next(t, o[u], xflag));
      var m := 1 + Came(t, xflag, o, u - 1);
      && Came(t, xflag, o, u) == m - 1 + |f| && u < m && m + |f| <= |o|
      && o[u..m][1..] + f == o[u + 1..m + |f|]
  {
    hide Children, Next, Longer;
    CameMore(t, xflag, o, u);
    CameFirst(t, xflag, o, u);
    CameFirst(t, xflag, o, u + 1);
    var f := Longer(o[u], Next(t, o[u], xflag));
    var m := 1 + Came(t, xflag, o, u - 1);
    assert [""] + Children(t, xflag, o[..u + 1]) == o[..m + |f|];
    assert [""] + Children(t, xflag, o[..u]) == o[..m];
    assert o[..m + |f|] == o[..m] + f;
    assert o[m..m + |f|] == o[..m + |f|][m..];
  }

  /** The first that is not fine, from beginning u on. */
  function Ending(t: string, xflag: bool, o: seq<string>, u: nat): Outcome
    decreases |o| - u
  {
    if u >= |o| then Fine
    else if Step(t, xflag, o, u) != Fine then Step(t, xflag, o, u)
    else Ending(t, xflag, o, u + 1)
  }

  /** How cfail ends on the keywords in arg. */
  function CFailEnds(arg: string, xflag: bool): Outcome {
    var t := Entered(arg, xflag);
    Ending(t, xflag, Order(t, xflag, |t|), 0)
  }

  lemma {:induction false} FineEverywhere(t: string, xflag: bool, o: seq<string>, u: nat)
    ensures Ending(t, xflag, o, u) == Fine <==> forall v: nat :: u <= v < |o| ==> Step(t, xflag, o, v) == Fine
    decreases |o| - u
  {
    if u < |o| {
      FineEverywhere(t, xflag, o, u + 1);
    }
  }

  // ----- few letters

  predicate Distinct(ps: seq<string>) {
    forall i, j :: 0 <= i < j < |ps| ==> ps[i] != ps[j]
  }

  /** No beginning of up to n letters comes twice. */
  lemma {:induction false} ShortOnce(t: string, xflag: bool, o: seq<string>, n: nat)
    requires BreadthFirst(t, xflag, o)
    ensures forall i, j :: 0 <= i < j < |o| && |o[i]| <= n ==> o[i] != o[j]
  {
    hide Children, BreadthFirst;
    if n > 0 {
      ShortOnce(t, xflag, o, n - 1);
    }
    forall i, j | 0 <= i < j < |o| && |o[i]| <= n
      ensures o[i] != o[j]
    {
      var b, l := Parent(t, xflag, o, j);
      if i > 0 && o[i] == o[j] {
        var a, k := Parent(t, xflag, o, i);
        assert o[i][..|o[i]| - 1] == o[a] && o[j][..|o[j]| - 1] == o[b];
        assert o[a] == o[b] && |o[a]| <= n - 1;
        NextDistinct(t, o[a], xflag);
      }
    }
  }

  /** Beginning i of o lengthens beginning a by its letter k. */
  lemma Parent(t: string, xflag: bool, o: seq<string>, i: nat) returns (a: nat, k: nat)
    requires BreadthFirst(t, xflag, o) && 0 < i < |o|
    ensures a < |o| && k < |Next(t, o[a], xflag)| && i == 1 + |Children(t, xflag, o[..a])| + k
    ensures o[i] == o[a] + [Next(t, o[a], xflag)[k]] && o[0] == ""
  {
    hide Children;
    a, k := ChildAt(t, xflag, o, i - 1);
  }

  lemma NoneTwice(t: string, xflag: bool, o: seq<string>)
    requires BreadthFirst(t, xflag, o)
    ensures Distinct(o)
  {
    forall i, j | 0 <= i < j < |o|
      ensures o[i] != o[j]
    {
      ShortOnce(t, xflag, o, |o[i]|);
    }
  }

  /** One more letter of the text is one more child at most. */
  lemma {:induction false} OneMoreChild(t: string, c: char, xflag: bool, ps: seq<string>)
    requires Distinct(ps)
    ensures |Children(t + [c], xflag, ps)| <= |Children(t, xflag, ps)| + if Letter(c, xflag) && Line(t) in ps then 1
              else 0
  {
    if |ps| > 0 {
      var n := |ps| - 1;
      OneMoreChild(t, c, xflag, ps[..n]);
      OneMore(t, c, ps[n], xflag);
    }
  }

  lemma {:induction false} ChildrenAreLetters(t: string, xflag: bool, ps: seq<string>)
    requires Distinct(ps)
    ensures |Children(t, xflag, ps)| <= Letters(t, xflag)
  {
    if t == "" {
      NoChildren(t, xflag, ps);
    } else {
      var s := t[..|t| - 1];
      ChildrenAreLetters(s, xflag, ps);
      OneMoreChild(s, t[|t| - 1], xflag, ps);
      assert s + [t[|t| - 1]] == t;
    }
  }

  /** Fewer than 399 letters are no trouble for cfail, and get fewer than 798 states. */
  lemma FewLettersFit(arg: string, xflag: bool)
    requires Letters(Entered(arg, xflag), xflag) < QSIZE - 1
    ensures CFailEnds(arg, xflag) == Fine && States(Entered(arg, xflag), xflag) < 2 * QSIZE - 2
  {
    hide Order, Children, Letters;
    StatesBound(Entered(arg, xflag), xflag);
    var t := Entered(arg, xflag);
    var o := Order(t, xflag, |t|);
    OrderIsBreadthFirst(t, xflag);
    NoneTwice(t, xflag, o);
    ChildrenAreLetters(t, xflag, o);
    forall u: nat | u < |o|
      ensures Step(t, xflag, o, u) == Fine
    {
      assert o == o[..u + 1] + o[u + 1..];
      ChildrenConcat(t, xflag, o[..u + 1], o[u + 1..]);
    }
    FineEverywhere(t, xflag, o, 0);
  }

  // ----- a single keyword

  /** A keyword; a newline can only be its last letter, with -x. */
  predicate Single(t: string, xflag: bool) {
    forall i :: 0 <= i < |t| && t[i] == '\n' ==> i == |t| - 1 && xflag
  }

  /** The first m beginnings of t. */
  function Beginnings(t: string, m: nat): (r: seq<string>)
    requires m <= |t| + 1
  {
    seq(m, i requires 0 <= i < m => t[..i])
  }

  lemma {:induction false} SingleLine(t: string, xflag: bool, j: nat)
    requires Single(t, xflag) && j < |t|
    ensures Line(t[..j]) == t[..j]
  {
    if j > 0 {
      SingleLine(t, xflag, j - 1);
      OneMore(t[..j - 1], t[j - 1], "", xflag);
      assert t[..j] == t[..j - 1] + [t[j - 1]];
    }
  }

  /** One more letter of the only line. */
  lemma OnlyLine(s: string, d: char, p: string, xflag: bool)
    requires Line(s) == s && Letter(d, xflag) && (p == s ==> Next(s, p, xflag) == [])
    ensures Next(s + [d], p, xflag) == if p == s then [d] else Next(s, p, xflag)
  {
    hide Next, Line, Letters, States;
    OneMore(s, d, p, xflag);
    assert [] + [d] == [d];
  }

  lemma {:induction false} SingleNext(t: string, xflag: bool, i: nat, j: nat)
    requires Single(t, xflag) && i <= |t| && j <= |t|
    ensures Next(t[..j], t[..i], xflag) == if i < j then [t[i]] else []
    decreases j
  {
    if j > 0 {
      SingleNext(t, xflag, i, j - 1);
      hide Next, Line;
      SingleLine(t, xflag, j - 1);
      Slice(t, j - 1);
      assert t[..i] == t[..j - 1] <==> i == j - 1 by {
        assert |t[..i]| == i && |t[..j - 1]| == j - 1;
      }
      OnlyLine(t[..j - 1], t[j - 1], t[..i], xflag);
    }
  }

  lemma Slice(t: string, i: nat)
    requires i < |t|
    ensures t[..i] + [t[i]] == t[..i + 1]
  {
  }

  lemma {:induction false} SingleChildren(t: string, xflag: bool, m: nat)
    requires Single(t, xflag) && m <= |t| + 1
    ensures Children(t, xflag, Beginnings(t, m)) == Beginnings(t, if m <= |t| then m + 1 else m)[1..]
  {
    hide Next;
    if m > 0 {
      SingleChildren(t, xflag, m - 1);
      assert Beginnings(t, m)[..m - 1] == Beginnings(t, m - 1);
      SingleNext(t, xflag, m - 1, |t|);
      assert t[..|t|] == t;
      if m <= |t| {
        OneMoreBeginning(t, m);
      }
    }
  }

  lemma OneMoreBeginning(t: string, m: nat)
    requires 0 < m <= |t|
    ensures Beginnings(t, m + 1)[1..] == Beginnings(t, m)[1..] + Longer(t[..m - 1], [t[m - 1]])
  {
    assert t[..m] == t[..m - 1] + [t[m - 1]];
  }

  lemma {:induction false} SingleOrder(t: string, xflag: bool, n: nat)
    requires Single(t, xflag) && n <= |t|
    ensures Order(t, xflag, n) == Beginnings(t, n + 1)
  {
    hide Children, Beginnings;
    if n > 0 {
      SingleOrder(t, xflag, n - 1);
      SingleChildren(t, xflag, n);
    }
    FirstBeginning(t, n + 1);
  }

  lemma FirstBeginning(t: string, m: nat)
    requires 0 < m <= |t| + 1
    ensures Beginnings(t, m) == [""] + Beginnings(t, m)[1..] && (m == 1 ==> Beginnings(t, m) == [""])
  {
    assert Beginnings(t, m)[0] == t[..0];
  }

  lemma SinglePut(t: string, xflag: bool, u: nat)
    requires Single(t, xflag) && u <= |t|
    ensures Came(t, xflag, Beginnings(t, |t| + 1), u) == if u < |t| then u + 1 else |t|
  {
    SingleChildren(t, xflag, u + 1);
    assert Beginnings(t, |t| + 1)[..u + 1] == Beginnings(t, u + 1);
  }

  lemma {:induction false} SingleEnding(t: string, xflag: bool, u: nat)
    requires Single(t, xflag) && u <= |t| + 1 && u < QSIZE
    ensures Ending(t, xflag, Beginnings(t, |t| + 1), u) == if |t| >= QSIZE then Outside else Fine
    decreases |t| + 1 - u
  {
    hide Came;
    if u <= |t| {
      SinglePut(t, xflag, u);
      if u > 0 {
        SinglePut(t, xflag, u - 1);
      }
      if u < QSIZE - 1 {
        SingleEnding(t, xflag, u + 1);
      }
    }
  }

  /**
   One keyword sends rear past the end of the array exactly if it has 400
   letters or more, its newline included with -x.
   */
  lemma LongKeyword(word: string, xflag: bool)
    requires '\n' !in word && word != ""
    ensures CFailEnds(word, xflag) == if |word| + (if xflag then 1 else 0) >= QSIZE then Outside else Fine
  {
    hide Next, Line, Order, Ending, Beginnings;
    var n := |word| - 1;
    SingleNext(word, xflag, n, n);
    SingleLine(word, xflag, n);
    var t := Entered(word, xflag);
    SingleOrder(t, xflag, |t|);
    SingleEnding(t, xflag, 0);
  }
}
