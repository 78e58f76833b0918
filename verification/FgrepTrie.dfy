/** fgrep.c: the states as a tree of the beginnings of the keywords, and how cfail ends on it. */
module FgrepTrie {
  import opened FgrepOrder
  import opened FgrepQueue

  /**
   The arrays of the automaton, of which n states are in use. path holds the
   letters that lead to each state, head the first of the states it is linked
   with.
   */
  datatype Nodes = Nodes(
    inp: seq<char>, nst: seq<nat>, link: seq<nat>, head: seq<nat>, path: seq<string>, n: nat)

  /** The letters along the links of x. */
  function Along(inp: seq<char>, link: seq<nat>, x: nat): seq<char>
    requires |inp| == |link|
    decreases if x < |inp| then |inp| - x else 0
  {
    if x >= |inp| then []
    else (if inp[x] != NUL then [inp[x]] else []) + if link[x] <= x then [] else Along(inp, link, link[x])
  }

  /** The links of x lead to y. */
  predicate Leads(link: seq<nat>, x: nat, y: nat)
    decreases if x < |link| then |link| - x else 0
  {
    x == y || (x < |link| && link[x] > x && Leads(link, link[x], y))
  }

  ghost predicate Sized(v: Nodes) {
    |v.inp| == |v.nst| == |v.link| == |v.head| == |v.path| && 0 < v.n <= |v.inp|
  }

  ghost predicate IsHead(v: Nodes, x: nat)
    requires Sized(v)
  {
    x < v.n && v.head[x] == x
  }

  /** State x is linked to the others. */
  ghost predicate StateOk(v: Nodes, x: nat)
    requires Sized(v) && x < v.n
  {
    && IsHead(v, v.head[x]) && v.path[v.head[x]] == v.path[x] && Leads(v.link, v.head[x], x)
    && (if v.inp[x] == NUL then v.link[x] == 0
        else x < v.nst[x] && IsHead(v, v.nst[x]) && v.path[v.nst[x]] == v.path[x] + [v.inp[x]])
    && (v.link[x] != 0 ==> x < v.link[x] < v.n && v.head[v.link[x]] == v.head[x])
  }

  /** The states linked with x have the letters that follow its path in t. */
  ghost predicate HeadOk(v: Nodes, x: nat, t: string, xflag: bool)
    requires Sized(v) && x < v.n
  {
    && Along(v.inp, v.link, x) == Next(t, v.path[x], xflag)
    && (v.path[x] != "" ==>
          v.path[x][|v.path[x]| - 1] in Next(t, v.path[x][..|v.path[x]| - 1], xflag))
  }

  /** There is one group of linked states for each beginning of the keywords in t. */
  ghost predicate Shows(v: Nodes, t: string, xflag: bool) {
    && Sized(v) && v.head[0] == 0 && v.path[0] == ""
    && (forall x: nat :: x < v.n ==> StateOk(v, x))
    && (forall x: nat :: v.n <= x < |v.inp| ==> v.inp[x] == NUL && v.link[x] == 0)
    && (forall x: nat :: IsHead(v, x) ==> HeadOk(v, x, t, xflag))
    && forall x: nat, y: nat :: IsHead(v, x) && IsHead(v, y) && v.path[x] == v.path[y] ==> x == y
  }

  /** Only the first of a group of states has no letter yet, or one of the last more states. */
  ghost predicate Alone(v: Nodes, more: nat)
    requires Sized(v)
  {
    forall x: nat :: x < v.n - more && v.inp[x] == NUL ==> v.head[x] == x
  }

  lemma GroupOf(v: Nodes, x: nat, t: string, xflag: bool)
    requires Shows(v, t, xflag) && IsHead(v, x)
    ensures Along(v.inp, v.link, x) == Next(t, v.path[x], xflag)
  {
    assert HeadOk(v, x, t, xflag);
  }

  lemma AlongStep(v: Nodes, s: nat, t: string, xflag: bool)
    requires Shows(v, t, xflag) && Alone(v, 0) && s < v.n
    ensures Along(v.inp, v.link, s) == (if v.inp[s] == NUL then [] else [v.inp[s]])
                                       + if v.link[s] == 0 then [] else Along(v.inp, v.link, v.link[s])
    ensures v.link[s] != 0 ==> s < v.link[s] < v.n && v.inp[v.link[s]] != NUL
    ensures if v.inp[s] == NUL then v.link[s] == 0
            else s < v.nst[s] < v.n && IsHead(v, v.nst[s]) && v.path[v.nst[s]] == v.path[s] + [v.inp[s]]
  {
    hide Leads, Along, Next, HeadOk;
    assert StateOk(v, s);
    AlongUnfold(v.inp, v.link, s);
    if v.link[s] != 0 && v.head[s] > s {
      NotBack(v.link, v.head[s], s);
    }
  }

  lemma AlongUnfold(inp: seq<char>, link: seq<nat>, s: nat)
    requires |inp| == |link| && s < |inp| && (link[s] == 0 || link[s] > s)
    ensures Along(inp, link, s) == (if inp[s] == NUL then [] else [inp[s]])
                                   + if link[s] == 0 then [] else Along(inp, link, link[s])
  {
  }

  /** A letter that is no new one changes nothing. */
  lemma ShowsSame(v: Nodes, t: string, c: char, xflag: bool)
    requires Shows(v, t, xflag) && (!Letter(c, xflag) || c in Next(t, Line(t), xflag))
    ensures Shows(v, t + [c], xflag)
  {
    forall p: string
      ensures Next(t + [c], p, xflag) == Next(t, p, xflag)
    {
      OneMore(t, c, p, xflag);
    }
    forall x: nat | IsHead(v, x)
      ensures HeadOk(v, x, t + [c], xflag)
    {
      assert HeadOk(v, x, t, xflag);
    }
  }

  /** One state and no letters. */
  lemma StartShows(v: Nodes, xflag: bool)
    requires Sized(v) && v.n == 1 && v.head[0] == 0 && v.path[0] == ""
    requires forall x: nat :: x < |v.inp| ==> v.inp[x] == NUL && v.link[x] == 0
    ensures Shows(v, "", xflag) && Alone(v, 0)
  {
    assert StateOk(v, 0) && HeadOk(v, 0, "", xflag);
  }

  // ----- the states grow

  lemma {:induction false} LeadsToHead(v: Nodes, x: nat, y: nat)
    requires Sized(v) && (forall z: nat :: z < v.n ==> StateOk(v, z)) && x < v.n && Leads(v.link, x, y)
    ensures y < v.n && v.head[y] == v.head[x]
    decreases v.n - x
  {
    assert StateOk(v, x);
    if x != y {
      LeadsToHead(v, v.link[x], y);
    }
  }

  /** A link to an unused state changes no letters. */
  lemma {:induction false} AlongLink(inp: seq<char>, link: seq<nat>, s: nat, n: nat, x: nat)
    requires |inp| == |link| && s < n < |inp| && link[s] == 0 && inp[n] == NUL && link[n] == 0
    ensures Along(inp, link[s := n], x) == Along(inp, link, x)
    decreases if x < |inp| then |inp| - x else 0
  {
    if x < |inp| && link[s := n][x] > x {
      AlongLink(inp, link, s, n, link[s := n][x]);
    }
  }

  lemma {:induction false} LeadsLink(link: seq<nat>, s: nat, n: nat, x: nat, y: nat)
    requires s < n < |link| && link[s] == 0 && Leads(link, x, y)
    ensures Leads(link[s := n], x, y) && (y == s ==> Leads(link[s := n], x, n))
    decreases if x < |link| then |link| - x else 0
  {
    if x != y {
      LeadsLink(link, s, n, link[x], y);
    } else if y == s {
      assert Leads(link[s := n], n, n);
    }
  }

  /** The letter of a state behind which there are no more comes last. */
  lemma {:induction false} AlongNext(inp: seq<char>, link: seq<nat>, s: nat, c: char, x: nat)
    requires |inp| == |link| && s < |inp| && inp[s] == NUL != c && link[s] == 0
    ensures Along(inp[s := c], link, x) == Along(inp, link, x) + if Leads(link, x, s) then [c] else []
    decreases if x < |inp| then |inp| - x else 0
  {
    if x < |inp| && link[x] > x {
      AlongNext(inp, link, s, c, link[x]);
      NotBack(link, link[x], x);
    }
  }

  lemma {:induction false} NotBack(link: seq<nat>, x: nat, y: nat)
    requires y < x
    ensures !Leads(link, x, y)
    decreases if x < |link| then |link| - x else 0
  {
    if x < |link| && link[x] > x {
      NotBack(link, link[x], y);
    }
  }

  function Linked(v: Nodes, s: nat): Nodes
    requires Sized(v) && s < v.n < |v.inp|
  {
    v.(link := v.link[s := v.n], head := v.head[v.n := v.head[s]], path := v.path[v.n := v.path[s]], n := v.n + 1)
  }

  function Lengthened(v: Nodes, s: nat, c: char): Nodes
    requires Sized(v) && s < v.n < |v.inp|
  {
    v.(inp := v.inp[s := c], nst := v.nst[s := v.n], head := v.head[v.n := v.n],
    path := v.path[v.n := v.path[s] + [c]], n := v.n + 1)
  }

  lemma LinkedState(v: Nodes, s: nat, t: string, xflag: bool, x: nat)
    requires Shows(v, t, xflag) && s < v.n < |v.inp| && v.inp[s] != NUL && v.link[s] == 0 && x <= v.n
    ensures StateOk(Linked(v, s), x)
  {
    if x < v.n {
      assert StateOk(v, x);
      LeadsLink(v.link, s, v.n, v.head[x], x);
    } else {
      assert StateOk(v, s);
      LeadsLink(v.link, s, v.n, v.head[s], s);
    }
  }

  lemma ShowsLinked(v: Nodes, s: nat, t: string, xflag: bool)
    requires Shows(v, t, xflag) && s < v.n < |v.inp| && v.inp[s] != NUL && v.link[s] == 0 && Alone(v, 0)
    ensures Shows(Linked(v, s), t, xflag) && Alone(Linked(v, s), 1)
  {
    hide Along, Leads;
    var w := Linked(v, s);
    forall x: nat | x < w.n
      ensures StateOk(w, x)
    {
      LinkedState(v, s, t, xflag, x);
    }
    assert StateOk(v, s);
    forall x: nat | IsHead(w, x)
      ensures IsHead(v, x) && HeadOk(w, x, t, xflag)
    {
      assert HeadOk(v, x, t, xflag);
      AlongLink(v.inp, v.link, s, v.n, x);
    }
  }

  lemma LengthenedState(v: Nodes, s: nat, c: char, t: string, xflag: bool, x: nat)
    requires Shows(v, t, xflag) && s < v.n < |v.inp| && v.inp[s] == NUL != c && x <= v.n
    ensures StateOk(Lengthened(v, s, c), x)
  {
    assert StateOk(v, s);
    if x < v.n {
      assert StateOk(v, x);
    }
  }

  /** A new letter after the line that t ends in the middle of. */
  lemma ShowsLengthened(v: Nodes, s: nat, c: char, t: string, xflag: bool, more: nat)
    requires Shows(v, t, xflag) && s < v.n < |v.inp| && v.inp[s] == NUL != c && v.path[s] == Line(t)
    requires Letter(c, xflag) && c !in Next(t, Line(t), xflag)
    requires Alone(v, more) && (more == 0 || (more == 1 && s == v.n - 1))
    ensures Shows(Lengthened(v, s, c), t + [c], xflag) && Alone(Lengthened(v, s, c), 0)
  {
    hide Along, Leads, Next, Line;
    var w := Lengthened(v, s, c);
    forall x: nat | x < w.n
      ensures StateOk(w, x)
    {
      LengthenedState(v, s, c, t, xflag, x);
    }
    forall x: nat | IsHead(w, x)
      ensures HeadOk(w, x, t + [c], xflag)
    {
      if x < v.n {
        OldHead(v, s, c, t, xflag, x);
      } else {
        NewHead(v, s, c, t, xflag);
      }
    }
    var p := Line(t) + [c];
    assert p[..|p| - 1] == Line(t);
    forall x: nat | IsHead(v, x)
      ensures v.path[x] != p
    {
      assert HeadOk(v, x, t, xflag);
    }
  }

  lemma OldHead(v: Nodes, s: nat, c: char, t: string, xflag: bool, x: nat)
    requires Shows(v, t, xflag) && s < v.n < |v.inp| && v.inp[s] == NUL != c && v.path[s] == Line(t)
    requires Letter(c, xflag) && c !in Next(t, Line(t), xflag) && IsHead(v, x)
    ensures HeadOk(Lengthened(v, s, c), x, t + [c], xflag)
  {
    hide Next, Line, Leads, Along;
    var p := v.path[x];
    assert StateOk(v, s) && HeadOk(v, x, t, xflag);
    AlongNext(v.inp, v.link, s, c, x);
    OneMore(t, c, p, xflag);
    OneMore(t, c, if p == "" then "" else p[..|p| - 1], xflag);
    if Leads(v.link, x, s) {
      LeadsToHead(v, x, s);
    }
  }

  lemma NewHead(v: Nodes, s: nat, c: char, t: string, xflag: bool)
    requires Shows(v, t, xflag) && s < v.n < |v.inp| && v.inp[s] == NUL != c && v.path[s] == Line(t)
    requires Letter(c, xflag) && c !in Next(t, Line(t), xflag)
    ensures HeadOk(Lengthened(v, s, c), v.n, t + [c], xflag)
  {
    hide Next, Line, Leads, StateOk;
    var p := Line(t) + [c];
    assert p[..|p| - 1] == Line(t);
    OneMore(t, c, p, xflag);
    OneMore(t, c, Line(t), xflag);
    NotBegun(t, Line(t), c, xflag);
    assert Along(v.inp[s := c], v.link, v.n) == [];
  }

  // ----- the queue

  /** The states in q are the first ones for the beginnings in ps. */
  ghost predicate At(v: Nodes, q: seq<nat>, ps: seq<string>)
    requires Sized(v)
  {
    |q| == |ps| && forall i :: 0 <= i < |q| ==> IsHead(v, q[i]) && v.path[q[i]] == ps[i]
  }

  lemma AtMore(v: Nodes, y: nat, c: char, f: seq<nat>, p: string, k: seq<char>)
    requires Sized(v) && At(v, f, Longer(p, k)) && IsHead(v, y) && v.path[y] == p + [c]
    ensures At(v, [y] + f, Longer(p, [c] + k))
  {
  }

  lemma {:induction false} AlongAt(v: Nodes, t: string, xflag: bool, x: nat)
    requires Shows(v, t, xflag) && x < v.n
    ensures At(v, Followers(v.inp, v.nst, v.link, x), Longer(v.path[x], Along(v.inp, v.link, x)))
    decreases v.n - x
  {
    hide Along, Followers, Next, HeadOk, Leads, At, Longer;
    assert StateOk(v, x);
    AlongUnfold(v.inp, v.link, x);
    FollowersUnfold(v.inp, v.nst, v.link, x);
    var f, k := [], [];
    if v.link[x] != 0 {
      AlongAt(v, t, xflag, v.link[x]);
      assert StateOk(v, v.link[x]);
      f, k := Followers(v.inp, v.nst, v.link, v.link[x]), Along(v.inp, v.link, v.link[x]);
    } else {
      AtNone(v, v.path[x]);
    }
    if v.inp[x] != NUL {
      AtMore(v, v.nst[x], v.inp[x], f, v.path[x], k);
    } else {
      assert [] + f == f && [] + k == k;
    }
  }

  lemma AtNone(v: Nodes, p: string)
    requires Sized(v)
    ensures At(v, [], Longer(p, []))
  {
  }

  lemma FollowersUnfold(inp: seq<char>, nst: seq<nat>, link: seq<nat>, x: nat)
    requires |inp| == |nst| == |link| && x < |inp| && (inp[x] == NUL || nst[x] > x) && (link[x] == 0 || link[x] > x)
    ensures Followers(inp, nst, link, x) ==
            (if inp[x] == NUL then [] else [nst[x]]) + if link[x] == 0 then [] else Followers(inp, nst, link, link[x])
  {
  }

  /** What follows a state are the beginnings that are one letter longer. */
  lemma FollowersAt(v: Nodes, t: string, xflag: bool, x: nat)
    requires Shows(v, t, xflag) && IsHead(v, x)
    ensures At(v, Followers(v.inp, v.nst, v.link, x), Longer(v.path[x], Next(t, v.path[x], xflag)))
  {
    AlongAt(v, t, xflag, x);
    assert HeadOk(v, x, t, xflag);
  }

  /** The rest of cfail, with the states for the beginnings from u on in the queue. */
  lemma {:induction false} DrainIs(v: Nodes, t: string, xflag: bool, o: seq<string>, u: nat, q: seq<nat>)
    requires Shows(v, t, xflag) && BreadthFirst(t, xflag, o) && 0 < u <= |o| && u <= 1 + Came(t, xflag, o, u - 1) <= |o|
    requires At(v, q, o[u..1 + Came(t, xflag, o, u - 1)]) && |q| < QSIZE
    ensures Drain(v.inp, v.nst, v.link, q, (u - 1) % QSIZE) == Ending(t, xflag, o, u)
    decreases |o| - u
  {
    hide Came, Shows, BreadthFirst, Followers, Next, Longer, StateOk;
    IsSized(v, t, xflag);
    if q == [] {
      Emptied(t, xflag, o, u);
    } else {
      Brought(t, xflag, o, u);
      var x, front := q[0], u % QSIZE;
      var f := Followers(v.inp, v.nst, v.link, x);
      FollowersAt(v, t, xflag, x);
      DrainStep(v.inp, v.nst, v.link, q, (u - 1) % QSIZE);
      assert front == if (u - 1) % QSIZE == QSIZE - 1 then 0 else (u - 1) % QSIZE + 1;
      assert PutAll(q[1..], front, f) == Step(t, xflag, o, u);
      if PutAll(q[1..], front, f) == Fine {
        DrainIs(v, t, xflag, o, u + 1, q[1..] + f);
      }
    }
  }

  lemma IsSized(v: Nodes, t: string, xflag: bool)
    requires Shows(v, t, xflag)
    ensures Sized(v) && IsHead(v, 0) && v.path[0] == ""
    ensures forall x :: 0 <= x < |v.inp| && v.inp[x] != NUL ==> v.nst[x] > x
  {
    forall x | 0 <= x < |v.inp| && v.inp[x] != NUL
      ensures v.nst[x] > x
    {
      assert StateOk(v, x);
    }
  }

  lemma Emptied(t: string, xflag: bool, o: seq<string>, u: nat)
    requires BreadthFirst(t, xflag, o) && 0 < u <= |o| && u == 1 + Came(t, xflag, o, u - 1)
    ensures u == |o|
  {
    CameFirst(t, xflag, o, u);
  }

  lemma FirstCame(t: string, xflag: bool, o: seq<string>)
    requires BreadthFirst(t, xflag, o)
    ensures |o| > 0 && 1 + Came(t, xflag, o, 0) <= |o|
    ensures o[1..1 + Came(t, xflag, o, 0)] == Longer("", Next(t, "", xflag))
  {
    hide Next, Longer, Children;
    assert o[..1] == [""];
    CameFirst(t, xflag, o, 1);
    OnlyChildren(t, xflag, "");
    var f := Longer("", Next(t, "", xflag));
    assert [""] + f == o[..1 + |f|];
    assert o[..1 + |f|][1..] == o[1..1 + |f|];
  }

  lemma OnlyChildren(t: string, xflag: bool, p: string)
    ensures Children(t, xflag, [p]) == Longer(p, Next(t, p, xflag))
  {
    assert Children(t, xflag, [p][..0]) == [];
  }

  /** How cfail ends is decided by the keywords. */
  lemma FailingIs(v: Nodes, arg: string, xflag: bool)
    requires Shows(v, Entered(arg, xflag), xflag)
    ensures Failing(v.inp, v.nst, v.link) == CFailEnds(arg, xflag)
  {
    hide Came, BreadthFirst, FirstRow, Followers, Next, Longer, Order, Entered, Drain, Shows;
    var t := Entered(arg, xflag);
    var o := Order(t, xflag, |t|);
    OrderIsBreadthFirst(t, xflag);
    FirstCame(t, xflag, o);
    IsSized(v, t, xflag);
    FirstRowIs(v.inp, v.nst, v.link, 0, []);
    FollowersAt(v, t, xflag, 0);
    var q := Followers(v.inp, v.nst, v.link, 0);
    assert [] + q == q;
    assert |q| == Came(t, xflag, o, 0);
    if |q| < QSIZE - 1 {
      DrainIs(v, t, xflag, o, 1, q);
    }
  }
}
