/** fgrep.c: the keyword automaton, and why a line it prints contains a keyword. */
module Fgrep {
  import opened FgrepOrder
  import opened FgrepQueue
  import opened FgrepTrie

  const MAXSIZ: nat := 6000

  predicate IsSuffix(a: string, b: string) {
    |a| <= |b| && b[|b| - |a|..] == a
  }

  /** k occurs in s. */
  ghost predicate Occurs(k: string, s: string) {
    exists i, j :: 0 <= i <= j <= |s| && s[i..j] == k
  }

  lemma SuffixTrans(a: string, b: string, c: string)
    requires IsSuffix(a, b) && IsSuffix(b, c)
    ensures IsSuffix(a, c)
  {
    assert c[|c| - |b|..][|b| - |a|..] == c[|c| - |a|..];
  }

  lemma SuffixSnoc(a: string, b: string, c: char)
    requires IsSuffix(a, b)
    ensures IsSuffix(a + [c], b + [c])
  {
    assert (b + [c])[|b| - |a|..] == b[|b| - |a|..] + [c];
  }

  lemma SuffixOccurs(a: string, b: string)
    requires IsSuffix(a, b)
    ensures Occurs(a, b)
  {
    assert b[|b| - |a|..|b|] == a;
  }

  lemma OccursMore(k: string, s: string, t: string)
    requires Occurs(k, s)
    ensures Occurs(k, s + t)
  {
    var i, j :| 0 <= i <= j <= |s| && s[i..j] == k;
    assert (s + t)[i..j] == k;
  }

  /** A keyword as it is stored: with -x it ends with its newline. */
  function Stored(word: string, xflag: bool): string {
    if xflag then word + "\n" else word
  }

  /** The keywords in arg, of which word has been read: its lines, where an empty last one does not count. */
  function Keywords(word: string, arg: string, xflag: bool): set<string>
    decreases |arg|
  {
    if arg == [] then if word == "" then {} else {Stored(word, xflag)}
    else if arg[0] == '\n' then {Stored(word, xflag)} + Keywords("", arg[1..], xflag)
    else Keywords(word + [arg[0]], arg[1..], xflag)
  }

  /** p ends with one of the keywords. */
  ghost predicate EndsIn(p: string, ks: set<string>) {
    exists k :: k in ks && IsSuffix(k, p)
  }

  lemma EndsInMore(p: string, q: string, ks: set<string>)
    requires EndsIn(p, ks) && IsSuffix(p, q)
    ensures EndsIn(q, ks)
  {
    var k :| k in ks && IsSuffix(k, p);
    SuffixTrans(k, p, q);
  }

  predicate EndsLine(p: string) {
    p != "" && p[|p| - 1] == '\n'
  }

  class Automaton {
    const inp: array<char>
    const out: array<bool>
    const nst: array<nat>     // 0 stands for the null pointer here, in link and in fail
    const link: array<nat>
    const fail: array<nat>
    const xflag: bool
    var smax: nat

    /** The letters that lead from the root to each state. */
    ghost var path: seq<string>

    /** The first of the states each is linked with. */
    ghost var head: seq<nat>

    ghost predicate Sizes() {
      && inp.Length == out.Length == nst.Length == link.Length == fail.Length == MAXSIZ
      && nst != link && nst != fail && link != fail
    }

    /** State x is linked as its path says. */
    ghost predicate NodeOk(x: nat)
      requires Sizes() && x < MAXSIZ == |path| && smax < MAXSIZ
      reads this`path, this`smax, inp, nst, link
    {
      && (inp[x] != NUL ==> x < nst[x] <= smax && path[nst[x]] == path[x] + [inp[x]])
      && (link[x] != 0 ==> x < link[x] <= smax && path[link[x]] == path[x])
    }

    ghost predicate Trie()
      reads this`path, this`smax, inp, nst, link, out
    {
      && Sizes() && |path| == MAXSIZ && smax < MAXSIZ && path[0] == ""
      && (forall x :: 0 <= x <= smax ==> NodeOk(x))
      && forall x :: smax < x < MAXSIZ ==> inp[x] == NUL && link[x] == 0 && !out[x]
    }

    /** Marked states stand for keywords, and so do all whose path has a newline at its end. */
    ghost predicate Marked(ks: set<string>)
      requires Sizes() && |path| == MAXSIZ
      reads this`path, this`smax, out
    {
      forall x :: 0 <= x <= smax && x < MAXSIZ && (out[x] || EndsLine(path[x])) ==> path[x] in ks
    }

    constructor (xflag: bool)
      ensures Trie() && Marked({}) && this.xflag == xflag && smax == 0
      ensures fresh(inp) && fresh(out) && fresh(nst) && fresh(link) && fresh(fail) && Built("", 0)
      ensures forall x :: 0 <= x < MAXSIZ ==> fail[x] == 0
    {
      this.xflag := xflag;
      smax := 0;
      path := seq(MAXSIZ, _ => "");
      head := seq(MAXSIZ, _ => 0);
      inp := new char[MAXSIZ](_ => NUL);
      out := new bool[MAXSIZ](_ => false);
      nst := new nat[MAXSIZ](_ => 0);
      link := new nat[MAXSIZ](_ => 0);
      fail := new nat[MAXSIZ](_ => 0);
      new;
      StartShows(View(), xflag);
    }

    ghost function View(): Nodes
      requires Sizes()
      reads this`path, this`head, this`smax, inp, nst, link
    {
      Nodes(inp[..], nst[..], link[..], head, path, smax + 1)
    }

    /** The states show the keywords in t; more is 1 if there is already one for a letter to come. */
    ghost predicate Built(t: string, more: nat)
      requires Sizes()
      reads this`path, this`head, this`smax, inp, nst, link
    {
      && Shows(View(), t, xflag) && smax + 1 == States(t, xflag) + more && Alone(View(), more)
    }

    /** The states there were keep their paths. */
    twostate predicate Kept()
      reads this`path, this`smax
    {
      && |path| == |old(path)| == MAXSIZ && old(smax) <= smax < MAXSIZ
      && forall x :: 0 <= x <= old(smax) ==> path[x] == old(path)[x]
    }

    /** s->link = ++smax */
    method AddLink(s: nat) returns (ok: bool)
      requires Trie() && s <= smax && inp[s] != NUL && link[s] == 0 && |head| == MAXSIZ
      modifies this`smax, this`path, this`head, link
      ensures Trie() && Kept() && forall ks :: old(Marked(ks)) ==> Marked(ks)
      ensures ok <==> old(smax) < MAXSIZ - 1
      ensures ok ==> inp[smax] == NUL && View() == Linked(old(View()), s)
    {
      if smax >= MAXSIZ - 1 {
        return false;
      }
      smax := smax + 1;
      link[s] := smax;
      path := path[smax := path[s]];
      head := head[smax := head[s]];
      ok := true;
      forall x | 0 <= x <= smax
        ensures NodeOk(x)
      {
        if x < smax {
          assert old(NodeOk(x));
        }
      }
    }

    /** s->inp = c; s->nst = ++smax */
    method AddNext(s: nat, c: char) returns (ok: bool)
      requires Trie() && s <= smax && inp[s] == NUL && c != NUL && |head| == MAXSIZ
      modifies this`smax, this`path, this`head, inp, nst
      ensures Trie() && Kept()
      ensures forall ks :: old(Marked(ks)) && (c == '\n' ==> path[s] + [c] in ks) ==> Marked(ks)
      ensures ok <==> old(smax) < MAXSIZ - 1
      ensures ok ==> !out[smax] && View() == Lengthened(old(View()), s, c)
    {
      if smax >= MAXSIZ - 1 {
        return false;
      }
      smax := smax + 1;
      inp[s] := c;
      nst[s] := smax;
      path := path[smax := path[s] + [c]];
      head := head[smax := smax];
      ok := true;
      forall x | 0 <= x <= smax
        ensures NodeOk(x)
      {
        if x < smax {
          assert old(NodeOk(x));
        }
      }
    }

    /** State s, which is for the line that t ends in the middle of, gets a new letter. */
    method AddLetter(s: nat, c: char, ghost t: string, ghost more: nat) returns (ok: bool)
      requires Trie() && s <= smax && inp[s] == NUL && c != NUL
      requires Built(t, more) && path[s] == Line(t) && Letter(c, xflag) && c !in Next(t, Line(t), xflag)
      requires more == (if Next(t, Line(t), xflag) == [] then 0 else 1) && (more == 0 || s == smax)
      modifies this`smax, this`path, this`head, inp, nst
      ensures Trie() && Kept()
      ensures forall ks :: old(Marked(ks)) && (c == '\n' ==> path[s] + [c] in ks) ==> Marked(ks)
      ensures ok ==> smax == old(smax) + 1 && path[smax] == path[s] + [c] && inp[smax] == NUL && !out[smax]
      ensures if ok then Built(t + [c], 0) && head[smax] == smax else States(t + [c], xflag) > MAXSIZ
    {
      hide Shows, Alone, Next, Line, States, EndsLine;
      OneMore(t, c, "", xflag);
      ghost var v := View();
      IsSized(v, t, xflag);
      ok := AddNext(s, c);
      if ok {
        ShowsLengthened(v, s, c, t, xflag, more);
        assert View().path[smax] == path[s] + [c];
      }
    }

    /** Along the links of s: a state with that letter, or the last one, or one that has no letter yet. */
    method Sibling(s0: nat, c: char, ghost t: string) returns (s: nat)
      requires Trie() && s0 <= smax && Built(t, 0) && head[s0] == s0 && path[s0] == Line(t) && c != NUL
      ensures s <= smax && path[s] == path[s0] && (inp[s] == c || inp[s] == NUL || link[s] == 0)
      ensures if inp[s] == c then
                c in Next(t, Line(t), xflag) && nst[s] <= smax && head[nst[s]] == nst[s]
                  && path[nst[s]] == path[s] + [c]
              else
                c !in Next(t, Line(t), xflag) && (inp[s] == NUL <==> Next(t, Line(t), xflag) == [])
    {
      hide Shows, Alone, Next, Line;
      s := s0;
      GroupOf(View(), s0, t, xflag);
      while inp[s] != c && inp[s] != NUL && link[s] != 0
        invariant s <= smax && path[s] == path[s0]
        invariant c in Next(t, Line(t), xflag) <==> c in Along(inp[..], link[..], s)
        invariant Next(t, Line(t), xflag) == [] <==> Along(inp[..], link[..], s) == []
        decreases smax - s
      {
        assert NodeOk(s);
        AlongStep(View(), s, t, xflag);
        s := link[s];
        AlongStep(View(), s, t, xflag);
      }
      AlongStep(View(), s, t, xflag);
    }

    /** A state that has no letter yet and stands for what s stands for. */
    method Room(s0: nat, ghost t: string) returns (ok: bool, s: nat, ghost more: nat)
      requires Trie() && s0 <= smax && (inp[s0] == NUL || link[s0] == 0) && Built(t, 0)
      modifies this`smax, this`path, this`head, link
      ensures Trie() && Kept() && forall ks :: old(Marked(ks)) ==> Marked(ks)
      ensures ok ==> s <= smax && inp[s] == NUL && path[s] == path[s0] && Built(t, more)
      ensures ok ==> more == (if inp[s0] == NUL then 0 else 1) && (more == 0 || s == smax)
      ensures !ok ==> inp[s0] != NUL && States(t, xflag) >= MAXSIZ
    {
      hide Shows, Alone, States, EndsLine;
      s := s0;
      ok := true;
      more := 0;
      if inp[s] != NUL {
        ghost var v := View();
        IsSized(v, t, xflag);
        ok := AddLink(s);
        s := smax;
        if ok {
          ShowsLinked(v, s0, t, xflag);
          more := 1;
          assert View().path[s] == path[s0];
        }
      }
    }

    /** out = 1 */
    method Mark(s: nat, ghost ks: set<string>)
      requires Trie() && Marked(ks) && s <= smax && path[s] in ks
      modifies out
      ensures Trie() && Marked(ks)
    {
      out[s] := true;
      assert forall x :: 0 <= x <= smax ==> old(NodeOk(x)) == NodeOk(x);
    }

    /** A letter that is no new one changes nothing. */
    lemma SameStates(t: string, c: char)
      requires Sizes() && Built(t, 0) && (!Letter(c, xflag) || c in Next(t, Line(t), xflag))
      ensures Built(t + [c], 0)
    {
      hide Shows, Alone, Next;
      OneMore(t, c, "", xflag);
      ShowsSame(View(), t, c, xflag);
    }

    /** nenter: the end of a keyword that is the path of s, where there is no newline yet. */
    method NewEnd(s: nat, ghost ks: set<string>, ghost t: string, ghost more: nat) returns (ok: bool)
      requires Trie() && Marked(ks) && s <= smax && inp[s] == NUL && Stored(path[s], xflag) in ks
      requires Built(t, more) && path[s] == Line(t) && '\n' !in Next(t, Line(t), xflag)
      requires more == (if Next(t, Line(t), xflag) == [] then 0 else 1) && (more == 0 || s == smax)
      modifies this`smax, this`path, this`head, inp, nst, out
      ensures Trie() && Marked(ks)
      ensures if ok then if xflag then Built(t + "\n", 0) else Built(t, more)
                else xflag && States(t + "\n", xflag) > MAXSIZ
    {
      hide Shows, Alone, Next, Line, States, View;
      ok := true;
      if xflag {
        ok := AddLetter(s, '\n', t, more);
        if !ok {
          return;
        }
        Mark(smax, ks);
      } else {
        Mark(s, ks);
      }
    }

    /** The end of a keyword that is the path of s. */
    method EndWord(s0: nat, ghost ks: set<string>, ghost t: string) returns (ok: bool)
      requires Trie() && Marked(ks) && s0 <= smax && Stored(path[s0], xflag) in ks
      requires Built(t, 0) && head[s0] == s0 && path[s0] == Line(t)
      modifies this`smax, this`path, this`head, inp, nst, link, out
      ensures Trie() && Marked(ks) && if ok then Built(t + "\n", 0) else States(t + "\n", xflag) > MAXSIZ
    {
      hide Shows, Alone, Next, Line, States, View;
      ok := true;
      if xflag {
        var s := Sibling(s0, '\n', t);
        if inp[s] == '\n' {
          assert NodeOk(s);
          SameStates(t, '\n');
          Mark(nst[s], ks);
        } else {
          OneMore(t, '\n', "", xflag);
          ghost var more;
          ok, s, more := Room(s, t);
          if ok {
            ok := NewEnd(s, ks, t, more);
          }
        }
      } else {
        SameStates(t, '\n');
        Mark(s0, ks);
      }
    }

    /** The rest of a keyword gets states of its own; i is where arg has been read to, c the letter before it. */
    method Enter(s0: nat, c0: char, arg: string, i0: nat, ghost ks: set<string>, ghost more0: nat)
      returns (ok: bool, i: nat, end: bool)
      requires Trie() && Marked(ks) && s0 <= smax && inp[s0] == NUL && 0 < i0 <= |arg| && NUL !in arg
               && c0 == arg[i0 - 1]
      requires Keywords(path[s0] + [c0], arg[i0..], xflag) <= ks && c0 != '\n'
      requires Built(arg[..i0 - 1], more0) && New(arg, i0 - 1) && path[s0] == Line(arg[..i0 - 1])
      requires more0 == (if Next(arg[..i0 - 1], Line(arg[..i0 - 1]), xflag) == [] then 0 else 1)
      requires more0 == 0 || s0 == smax
      modifies this`smax, this`path, this`head, inp, nst, out
      ensures Trie() && Marked(ks)
      ensures ok && !end ==> i0 <= i <= |arg| && Keywords("", arg[i..], xflag) <= ks && Built(arg[..i], 0)
                             && arg[i - 1] == '\n'
      ensures ok && end ==> Built(Entered(arg, xflag), 0)
      ensures !ok ==> States(Entered(arg, xflag), xflag) > MAXSIZ
    {
      hide Keywords, Shows, Alone, Next, Line, States, View, Entered;
      var s: nat, c := s0, c0;
      ghost var more := more0;
      i, end := i0, false;
      while true
        invariant Trie() && Marked(ks) && s <= smax && inp[s] == NUL && c != '\n' && i0 <= i <= |arg| && c == arg[i - 1]
        invariant Keywords(path[s] + [c], arg[i..], xflag) <= ks
        invariant Built(arg[..i - 1], more) && New(arg, i - 1) && path[s] == Line(arg[..i - 1])
        invariant more == (if Next(arg[..i - 1], Line(arg[..i - 1]), xflag) == [] then 0 else 1)
        invariant more == 0 || s == smax
        decreases |arg| - i
      {
        Slice(arg, i - 1);
        NewLetter(arg[..i - 1], c, xflag);
        ok := AddLetter(s, c, arg[..i - 1], more);
        if !ok {
          TooMany(arg, arg[..i]);
          return;
        }
        more := 0;
        s := smax;
        if i == |arg| {
          end := true;
          WordEnds(path[s], arg, i);
          break;
        }
        c := arg[i];
        Unfold(path[s], arg, i);
        i := i + 1;
        if c == '\n' {
          break;
        }
      }
      ghost var t := if end then arg else arg[..i - 1];
      assert end ==> arg[..i] == arg;
      if end {
        EnteredNew(arg, xflag);
      } else {
        Slice(arg, i - 1);
      }
      ok := NewEnd(s, ks, t, 0);
      if !ok {
        TooMany(arg, t + "\n");
      } else if !xflag && !end {
        SameStates(t, '\n');
      }
    }

    /** The letter at place i of arg is new behind the line before it. */
    predicate New(arg: string, i: nat) {
      i < |arg| && arg[i] !in Next(arg[..i], Line(arg[..i]), xflag)
    }

    lemma TooMany(arg: string, t: string)
      requires t <= Entered(arg, xflag) && States(t, xflag) > MAXSIZ
      ensures States(Entered(arg, xflag), xflag) > MAXSIZ
    {
      StatesGrow(t, Entered(arg, xflag), xflag);
    }

    /** A word that is not empty ends with the argument. */
    lemma WordEnds(word: string, arg: string, i: nat)
      requires i == |arg| && word != ""
      ensures Keywords(word, arg[i..], xflag) == {Stored(word, xflag)}
    {
    }

    /** One letter of arg. */
    lemma Unfold(word: string, arg: string, i: nat)
      requires i < |arg|
      ensures Keywords(word, arg[i..], xflag) ==
              if arg[i] == '\n' then {Stored(word, xflag)} + Keywords("", arg[i + 1..], xflag)
              else Keywords(word + [arg[i]], arg[i + 1..], xflag)
    {
      assert arg[i..][1..] == arg[i + 1..];
    }

    /**
     A letter c of a keyword, before place i0 of arg: the state there is for
     it, or new ones for the rest of the keyword.
     */
    method OneLetter(s0: nat, c: char, arg: string, i0: nat, ghost ks: set<string>)
      returns (ok: bool, s: nat, i: nat, end: bool)
      requires Trie() && Marked(ks) && s0 <= smax && c != '\n' && 0 < i0 <= |arg| && NUL !in arg && c == arg[i0 - 1]
      requires Keywords(path[s0] + [c], arg[i0..], xflag) <= ks
      requires Built(arg[..i0 - 1], 0) && head[s0] == s0 && path[s0] == Line(arg[..i0 - 1])
      modifies this`smax, this`path, this`head, inp, nst, link, out
      ensures Trie() && Marked(ks)
      ensures ok && !end ==>
                i0 <= i <= |arg| && s <= smax && Keywords(path[s], arg[i..], xflag) <= ks && Stands(s, arg[..i])
      ensures ok && end ==> Built(Entered(arg, xflag), 0)
      ensures !ok ==> States(Entered(arg, xflag), xflag) > MAXSIZ
    {
      hide Keywords, Shows, Alone, Next, Line, States, View, Entered, EndsLine, Letters;
      ok, i, end := true, i0, false;
      ghost var t := arg[..i - 1];
      Slice(arg, i - 1);
      OneMore(t, c, "", xflag);
      s := Sibling(s0, c, t);
      if inp[s] == c {
        assert NodeOk(s);
        SameStates(t, c);
        EnteredOld(t, c, xflag);
        s := nst[s];
      } else {
        ghost var more;
        ok, s, more := Room(s, t);
        if !ok {
          TooMany(arg, arg[..i]);
          return;
        }
        ok, i, end := Enter(s, c, arg, i, ks, more);
        if ok && !end {
          AtRoot(arg[..i]);
        }
        s := 0;
      }
    }

    /** At the beginning and behind a newline the root is where the next keyword begins. */
    lemma AtRoot(t: string)
      requires Trie() && Built(t, 0) && (t != "" ==> t[|t| - 1] == '\n')
      ensures Stands(0, t)
    {
    }

    lemma Slice(arg: string, i: nat)
      requires i < |arg|
      ensures arg[..i] + [arg[i]] == arg[..i + 1] <= Entered(arg, xflag)
    {
    }

    /** State s is the first of those for the line that t ends in the middle of. */
    ghost predicate Stands(s: nat, t: string)
      requires Trie() && s <= smax
      reads this`path, this`head, this`smax, inp, nst, link, out
    {
      Built(t, 0) && head[s] == s && path[s] == Line(t) && Entered(t, xflag) == t
    }

    /** cgotofn: the states are built from the keywords, unless there are too many. */
    method CGotoFn(arg: string) returns (ok: bool)
      requires Trie() && Marked({}) && NUL !in arg && Built("", 0)
      modifies this`smax, this`path, this`head, inp, nst, link, out
      ensures ok ==> Trie() && Marked(Keywords("", arg, xflag)) && Built(Entered(arg, xflag), 0)
      ensures ok <==> States(Entered(arg, xflag), xflag) <= MAXSIZ
    {
      hide Keywords, Shows, Alone, Next, Line, States, View, Entered;
      ghost var ks := Keywords("", arg, xflag);
      assert arg[0..] == arg && arg[..0] == "";
      var s: nat, i: nat, end := 0, 0, false;
      AtRoot("");
      ok := true;
      while !end && i < |arg|
        invariant ok && Trie() && Marked(ks)
        invariant if end then Built(Entered(arg, xflag), 0)
                  else s <= smax && i <= |arg| && Keywords(path[s], arg[i..], xflag) <= ks && Stands(s, arg[..i])
        decreases !end, |arg| - i
      {
        var c := arg[i];
        Unfold(path[s], arg, i);
        Slice(arg, i);
        i := i + 1;
        if c == '\n' {
          OneMore(arg[..i - 1], c, "", xflag);
          ok := EndWord(s, ks, arg[..i - 1]);
          if !ok {
            TooMany(arg, arg[..i]);
            return;
          }
          AtRoot(arg[..i]);
          s := 0;
        } else {
          ok, s, i, end := OneLetter(s, c, arg, i, ks);
          if !ok {
            return;
          }
        }
      }
      assert arg[..|arg|] == arg;
    }

    // ----- failure links

    /** A failure link leads to a state for less of the end of the path. */
    ghost predicate FailOk(x: nat)
      requires Sizes() && x < MAXSIZ == |path| && smax < MAXSIZ
      reads this`path, this`smax, fail
    {
      fail[x] != 0 ==> fail[x] <= smax && |path[fail[x]]| < |path[x]| && IsSuffix(path[fail[x]], path[x])
    }

    /** The automaton as far as soundness goes. */
    ghost predicate Sound(ks: set<string>)
      reads this`path, this`smax, inp, nst, link, out, fail
    {
      && Trie() && (forall x :: 0 <= x <= smax ==> FailOk(x))
      && (forall x :: 0 <= x <= smax && out[x] ==> EndsIn(path[x], ks))
      && forall x :: 0 <= x <= smax && EndsLine(path[x]) ==> path[x] in ks
    }

    /** Before cfail marked states stand for keywords themselves. */
    lemma StartSound(ks: set<string>)
      requires Trie() && Marked(ks) && forall x :: 0 <= x < MAXSIZ ==> fail[x] == 0
      ensures Sound(ks)
    {
      forall x | 0 <= x <= smax && out[x]
        ensures EndsIn(path[x], ks)
      {
        assert IsSuffix(path[x], path[x]);
      }
    }

    /** States waiting in the queue have a letter on their path. */
    ghost predicate Waiting(queue: seq<nat>)
      requires |path| == MAXSIZ
      reads this`path, this`smax
    {
      smax < MAXSIZ && forall i :: 0 <= i < |queue| ==> queue[i] <= smax && path[queue[i]] != ""
    }

    /** qloop: state t is where q and its siblings fail to. */
    method SetFail(q0: nat, t: nat, ghost ks: set<string>)
      requires Sound(ks) && 0 < q0 <= smax && 0 < t <= smax && |path[t]| < |path[q0]| && IsSuffix(path[t], path[q0])
      modifies fail, out
      ensures Sound(ks)
    {
      var q := q0;
      while true
        invariant Sound(ks) && 0 < q <= smax && path[q] == path[q0]
        decreases smax - q
      {
        FailTo(q, t, ks);
        assert NodeOk(q);
        if link[q] == 0 {
          break;
        }
        q := link[q];
      }
    }

    method FailTo(q: nat, t: nat, ghost ks: set<string>)
      requires Sound(ks) && q <= smax && 0 < t <= smax && |path[t]| < |path[q]| && IsSuffix(path[t], path[q])
      modifies fail, out
      ensures Sound(ks)
    {
      if out[t] {
        EndsInMore(path[t], path[q], ks);
      }
      fail[q] := t;
      if out[t] {
        out[q] := true;
      }
      assert forall x :: 0 <= x <= smax ==> old(NodeOk(x)) == NodeOk(x);
      assert forall x :: 0 <= x <= smax ==> old(FailOk(x)) ==> FailOk(x);
    }

    /** floop: the states reached by failing from s and its links are looked through for the letter c. */
    method Look(s: nat, c: char, q: nat, ghost ks: set<string>)
      requires Sound(ks) && s <= smax && path[s] != "" && c != NUL
      requires 0 < q <= smax && path[q] == path[s] + [c]
      modifies fail, out
      ensures Sound(ks)
    {
      assert FailOk(s);
      var state := fail[s];
      while true
        invariant Sound(ks) && state <= smax && |path[state]| < |path[s]| && IsSuffix(path[state], path[s])
        decreases smax - state
      {
        assert NodeOk(state);
        if inp[state] == c {
          SuffixSnoc(path[state], path[s], c);
          SetFail(q, nst[state], ks);
          return;
        }
        if link[state] == 0 {
          return;
        }
        state := link[state];
      }
    }

    /** A state in the queue leads on to states with a letter on their path. */
    lemma PutWaits(q: seq<nat>, s: nat)
      requires Trie() && Waiting(q) && s <= smax && inp[s] != NUL
      ensures Waiting(q + [nst[s]]) && nst[s] > s
    {
      assert NodeOk(s);
    }

    /** One step along the links of s. */
    lemma RowNext(s: nat, q: seq<nat>, front: nat)
      requires Trie() && s <= smax
      ensures
        var (o, r) := if inp[s] != NUL then Put(q, front, nst[s]) else (Fine, q);
        Row(inp[..], nst[..], link[..], s, q, front) ==
          if o != Fine || link[s] == 0 then (o, r) else Row(inp[..], nst[..], link[..], link[s], r, front)
    {
      assert NodeOk(s);
    }

    lemma FirstNext(s: nat, q: seq<nat>)
      requires Trie() && s <= smax
      ensures
        var r := if inp[s] != NUL then q + [nst[s]] else q;
        FirstRow(inp[..], nst[..], link[..], s, q) ==
          if inp[s] != NUL && |r| >= QSIZE - 1 then (TooLarge, r)
          else if link[s] == 0 then (Fine, r)
          else FirstRow(inp[..], nst[..], link[..], link[s], r)
    {
      assert NodeOk(s);
    }

    /** cfail: states get failure links, level by level. */
    method CFail(ghost ks: set<string>) returns (o: Outcome)
      requires Sound(ks)
      modifies fail, out
      ensures Sound(ks) && o == Failing(inp[..], nst[..], link[..])
    {
      hide Sound, Waiting, Ring, Row, FirstRow;
      var queue := new nat[QSIZE](_ => 0);
      var front: nat, rear: nat := 0, 0;
      ghost var q: seq<nat>;
      o, rear, q := FirstLevel(queue, ks);
      Same(ks);
      while o == Fine && rear != front
        invariant Sound(ks) && Sizes() && |path| == MAXSIZ && fresh(queue)
        invariant o == Fine ==> Ring(queue, front, rear, q) && Waiting(q)
        invariant Failing(inp[..], nst[..], link[..]) == if o == Fine then Drain(inp[..], nst[..], link[..], q, front)
                    else o
        decreases if o == Fine then 1 else 0, BelowAll(inp[..], nst[..], link[..], q)
      {
        ghost var q0, front0 := q, front;
        RingFirst(queue, front, rear, q);
        DrainNext(q0, front0);
        o, front, rear, q := NextLevel(queue, front, rear, q, ks);
      }
      if o == Fine {
        RingEmpty(queue, front, rear, q);
      }
    }

    lemma Same(ks: set<string>)
      requires Sound(ks)
      ensures Trie() && Sizes() && |path| == MAXSIZ
    {
    }

    lemma RingFirst(queue: array<nat>, front: nat, rear: nat, q: seq<nat>)
      requires Ring(queue, front, rear, q) && rear != front
      ensures q != [] && queue.Length == QSIZE && front < QSIZE && queue[front] == q[0]
    {
      assert queue[Cell(front, 0)] == q[0];
    }

    lemma RingEmpty(queue: array<nat>, front: nat, rear: nat, q: seq<nat>)
      requires Ring(queue, front, rear, q) && rear == front
      ensures q == []
    {
    }

    /** What is left after the first in the queue. */
    lemma RingRest(queue: array<nat>, front: nat, rear: nat, q: seq<nat>)
      requires Ring(queue, front, rear, q) && q != []
      ensures Ring(queue, if front == QSIZE - 1 then 0 else front + 1, rear, q[1..])
    {
      var after := if front == QSIZE - 1 then 0 else front + 1;
      forall i | 0 <= i < |q| - 1
        ensures Cell(after, i) == Cell(front, i + 1) && queue[Cell(after, i)] == q[1..][i]
      {
        assert queue[Cell(front, i + 1)] == q[i + 1];
      }
    }

    lemma DrainNext(q: seq<nat>, front: nat)
      requires Sizes() && q != [] && |path| == MAXSIZ && Waiting(q)
      ensures
        var after := if front == QSIZE - 1 then 0 else front + 1;
        var (o, r) := Row(inp[..], nst[..], link[..], q[0], q[1..], after);
        && Drain(inp[..], nst[..], link[..], q, front)
             == (if o == Fine then Drain(inp[..], nst[..], link[..], r, after) else o)
        && BelowAll(inp[..], nst[..], link[..], r) < BelowAll(inp[..], nst[..], link[..], q)
    {
      hide Row;
      var after := if front == QSIZE - 1 then 0 else front + 1;
      TakeFirst(inp[..], nst[..], link[..], q);
      RowSteps(inp[..], nst[..], link[..], q[0], q[1..], after);
    }

    /** The states after the first letters. */
    method FirstLevel(queue: array<nat>, ghost ks: set<string>) returns (o: Outcome, rear: nat, ghost q: seq<nat>)
      requires Sound(ks) && queue.Length == QSIZE && queue != nst && queue != link && queue != fail
      modifies queue
      ensures (o, q) == FirstRow(inp[..], nst[..], link[..], 0, [])
      ensures o == Fine ==> Ring(queue, 0, rear, q) && Waiting(q)
    {
      hide FirstRow, Sound;
      Same(ks);
      q := [];
      rear := 0;
      var s: nat := 0;
      while true
        invariant Trie() && s <= smax && path[s] == "" && Waiting(q) && rear == |q| < QSIZE - 1
                  && Ring(queue, 0, rear, q)
        invariant FirstRow(inp[..], nst[..], link[..], 0, []) == FirstRow(inp[..], nst[..], link[..], s, q)
        decreases smax - s
      {
        FirstNext(s, q);
        if inp[s] != NUL {
          PutWaits(q, s);
          queue[rear] := nst[s];
          rear := rear + 1;
          q := q + [nst[s]];
          if rear >= QSIZE - 1 {
            return TooLarge, rear, q;
          }
        }
        assert NodeOk(s);
        if link[s] == 0 {
          return Fine, rear, q;
        }
        s := link[s];
      }
    }

    /** One state is taken from the queue; what follows it and its siblings is put in. */
    method NextLevel(queue: array<nat>, front0: nat, rear0: nat, ghost q0: seq<nat>, ghost ks: set<string>)
      returns (o: Outcome, front: nat, rear: nat, ghost q: seq<nat>)
      requires Sound(ks) && Ring(queue, front0, rear0, q0) && rear0 != front0 && Waiting(q0)
      requires queue != nst && queue != link && queue != fail
      modifies fail, out, queue
      ensures Sound(ks) && front == (if front0 == QSIZE - 1 then 0 else front0 + 1)
      ensures q0 != [] && (o, q) == Row(inp[..], nst[..], link[..], q0[0], q0[1..], front)
      ensures o == Fine ==> Ring(queue, front, rear, q) && Waiting(q)
    {
      hide Sound, Ring, Row;
      Same(ks);
      RingFirst(queue, front0, rear0, q0);
      RingRest(queue, front0, rear0, q0);
      var s := queue[front0];
      front, rear, q := if front0 == QSIZE - 1 then 0 else front0 + 1, rear0, q0[1..];
      while true
        invariant Sound(ks) && Trie() && s <= smax && path[s] != "" && Waiting(q) && Ring(queue, front, rear, q)
        invariant Row(inp[..], nst[..], link[..], q0[0], q0[1..], front) == Row(inp[..], nst[..], link[..], s, q, front)
        decreases smax - s
      {
        RowNext(s, q, front);
        assert NodeOk(s);
        var c := inp[s];
        if c != NUL {
          PutWaits(q, s);
          o, rear := Enqueue(queue, front, rear, nst[s], q);
          q := q + [nst[s]];
          if o != Fine {
            return;
          }
          Look(s, c, nst[s], ks);
          Same(ks);
        }
        if link[s] == 0 {
          o := Fine;
          return;
        }
        s := link[s];
      }
    }

    // ----- the matcher

    /**
     One character of a line: through the letters of the current state, then
     where it fails to, until one fits or the root is reached.
     */
    method Advance(c0: nat, ch: char, ghost line: string, ghost ks: set<string>) returns (c: nat, failed: bool)
      requires Sound(ks) && c0 <= smax && ch != NUL && IsSuffix(path[c0], line)
      ensures c <= smax && IsSuffix(path[c], line + [ch])
      ensures !failed ==> path[c] == path[c0] + [ch]
    {
      c, failed := c0, false;
      while true
        invariant c <= smax && IsSuffix(path[c], line) && (!failed ==> path[c] == path[c0])
        decreases |path[c]|, smax - c
      {
        assert NodeOk(c) && FailOk(c);
        if inp[c] == ch {
          SuffixSnoc(path[c], line, ch);
          c := nst[c];
          return;
        } else if link[c] != 0 {
          c := link[c];
        } else {
          SuffixTrans(path[fail[c]], path[c], line);
          c := fail[c];
          failed := true;
          if c == 0 {
            c := FromRoot(ch, line, ks);
            return;
          }
        }
      }
    }

    /** istate: the letters of the root. */
    method FromRoot(ch: char, ghost line: string, ghost ks: set<string>) returns (c: nat)
      requires Sound(ks) && ch != NUL
      ensures c <= smax && IsSuffix(path[c], line + [ch])
    {
      c := 0;
      while true
        invariant c <= smax && path[c] == ""
        decreases smax - c
      {
        assert NodeOk(c);
        if inp[c] == ch {
          SuffixSnoc("", line, ch);
          c := nst[c];
          return;
        } else if link[c] != 0 {
          c := link[c];
        } else {
          return;
        }
      }
    }

    /** Where the matcher is in a line that starts at nlp: its state stands for the end of what has been read. */
    ghost predicate Reading(text: string, nlp: nat, p: nat, c: nat, failed: bool)
      reads this`path, this`smax
    {
      && nlp <= p <= |text| && c <= smax < MAXSIZ == |path| && IsSuffix(path[c], text[nlp..p])
      && (!failed ==> path[c] == text[nlp..p]) && LineStart(text, nlp) && NoNewline(text, nlp, p)
    }

    /** The loop over the characters of a file; without -v the lines that are printed are matches. */
    method Execute(text: string, vflag: bool, ghost ks: set<string>) returns (printed: seq<string>)
      requires Sound(ks) && NUL !in text && (xflag ==> forall k :: k in ks ==> EndsLine(k))
      ensures !vflag ==> forall i :: 0 <= i < |printed| ==> Matches(printed[i], ks, xflag)
      ensures forall i :: 0 <= i < |printed| ==> IsLine(printed[i], text)
    {
      hide Sound, Matches, IsLine, Reading;
      printed := [];
      var p: nat, nlp: nat, c: nat, failed := 0, 0, 0, false;
      StartReading(text, 0, ks);
      while p < |text|
        invariant p <= |text| && Reading(text, nlp, p, c, failed)
        invariant !vflag ==> forall i :: 0 <= i < |printed| ==> Matches(printed[i], ks, xflag)
        invariant forall i :: 0 <= i < |printed| ==> IsLine(printed[i], text)
        decreases |text| - p
      {
        var succeed;
        var start := nlp;
        succeed, p, nlp, c, failed := Read(text, vflag, nlp, p, c, failed, ks);
        if succeed {
          printed := printed + [text[start..p]];
        }
      }
    }

    lemma StartReading(text: string, p: nat, ks: set<string>)
      requires Sound(ks) && LineStart(text, p)
      ensures Reading(text, p, p, 0, false)
    {
    }

    /** One character; a line that is found to match is read to its end. */
    method Read(text: string, vflag: bool, nlp0: nat, p0: nat, c0: nat, failed0: bool, ghost ks: set<string>)
      returns (succeed: bool, p: nat, nlp: nat, c: nat, failed: bool)
      requires Sound(ks) && NUL !in text && (xflag ==> forall k :: k in ks ==> EndsLine(k))
      requires p0 < |text| && Reading(text, nlp0, p0, c0, failed0)
      ensures p0 < p <= |text| && Reading(text, nlp, p, c, failed)
      ensures nlp0 <= p0
      ensures succeed ==> IsLine(text[nlp0..p], text) && (!vflag ==> Matches(text[nlp0..p], ks, xflag))
    {
      hide Sound, Matches, IsLine, Reading, IsSuffix, NoNewline, LineStart;
      ReadingFacts(text, nlp0, p0, c0, failed0);
      RootPath(ks);
      succeed, p, nlp := false, p0, nlp0;
      var f;
      c, f := Advance(c0, text[p], text[nlp..p], ks);
      failed := failed0 || f;
      ReadMore(text, nlp, p, c0, failed0, c, f);
      if out[c] {
        p := Skip(text, p);
        succeed := !((vflag && (!failed || !xflag)) || (!vflag && xflag && failed));
        FoundLine(text, nlp, p0, p, c, failed, ks);
        nlp, c, failed := p, 0, false;
      } else {
        p := p + 1;
        if text[p - 1] == '\n' {
          EndOfLine(text, nlp, p0, ks);
          succeed := vflag;
          nlp, c, failed := p, 0, false;
        }
      }
    }

    lemma EndOfLine(text: string, nlp: nat, p: nat, ks: set<string>)
      requires Sound(ks) && nlp <= p < |text| && text[p] == '\n' && LineStart(text, nlp) && NoNewline(text, nlp, p)
      ensures IsLine(text[nlp..p + 1], text) && Reading(text, p + 1, p + 1, 0, false)
    {
      hide Sound, IsLine, Reading, NoNewline, LineStart;
      NewlineRead(text, p);
      LineRead(text, nlp, p, p + 1);
      StartReading(text, p + 1, ks);
    }

    /** The line in which a marked state was reached, read to its end. */
    lemma FoundLine(text: string, nlp: nat, at: nat, p: nat, c: nat, failed: bool, ks: set<string>)
      requires Sound(ks) && (xflag ==> forall k :: k in ks ==> EndsLine(k))
      requires nlp <= at < p <= |text| && LineStart(text, nlp) && NoNewline(text, nlp, at) && NoNewline(text, at, p - 1)
      requires p == |text| || text[p - 1] == '\n'
      requires c <= smax < MAXSIZ && Sizes() && |path| == MAXSIZ && out[c] && IsSuffix(path[c], text[nlp..at + 1])
      requires !failed ==> path[c] == text[nlp..at + 1]
      ensures IsLine(text[nlp..p], text) && Reading(text, p, p, 0, false)
      ensures !(xflag && failed) ==> Matches(text[nlp..p], ks, xflag)
    {
      hide Sound, IsLine, Reading, NoNewline, LineStart, Matches, IsSuffix;
      LineRead(text, nlp, at, p);
      StartReading(text, p, ks);
      if !(xflag && failed) {
        FoundMatches(text, nlp, at, p, c, failed, ks);
      }
    }

    lemma ReadingFacts(text: string, nlp: nat, p: nat, c: nat, failed: bool)
      requires Reading(text, nlp, p, c, failed)
      ensures nlp <= p <= |text| && c <= smax < MAXSIZ == |path| && IsSuffix(path[c], text[nlp..p])
      ensures LineStart(text, nlp) && NoNewline(text, nlp, p)
    {
    }

    /** One character further, in the same line. */
    lemma ReadMore(text: string, nlp: nat, p: nat, c0: nat, failed0: bool, c: nat, f: bool)
      requires Reading(text, nlp, p, c0, failed0) && p < |text|
      requires c <= smax && IsSuffix(path[c], text[nlp..p] + [text[p]]) && (!f ==> path[c] == path[c0] + [text[p]])
      ensures IsSuffix(path[c], text[nlp..p + 1]) && (!(failed0 || f) ==> path[c] == text[nlp..p + 1])
      ensures text[p] != '\n' ==> Reading(text, nlp, p + 1, c, failed0 || f)
    {
      hide IsSuffix;
      SliceMore(text, nlp, p);
    }

    lemma SliceMore(text: string, i: nat, j: nat)
      requires i <= j < |text|
      ensures text[i..j] + [text[j]] == text[i..j + 1]
    {
    }

    lemma NewlineRead(text: string, p: nat)
      requires p < |text| && text[p] == '\n'
      ensures NoNewline(text, p, p)
    {
    }

    lemma LineRead(text: string, nlp: nat, at: nat, p: nat)
      requires nlp <= at < p <= |text| && LineStart(text, nlp) && NoNewline(text, nlp, at) && NoNewline(text, at, p - 1)
      requires p == |text| || text[p - 1] == '\n'
      ensures IsLine(text[nlp..p], text) && LineStart(text, p) && (text[at] == '\n' ==> p == at + 1)
    {
      LineFound(text, nlp, p);
    }

    lemma RootPath(ks: set<string>)
      requires Sound(ks)
      ensures Sizes() && smax < MAXSIZ == |path| && path[0] == ""
    {
    }

    /** Why a line that is printed without -v matches. */
    lemma FoundMatches(text: string, nlp: nat, at: nat, p: nat, c: nat, failed: bool, ks: set<string>)
      requires Sound(ks) && nlp <= at < p <= |text| && c <= smax && out[c] && IsSuffix(path[c], text[nlp..at + 1])
      requires xflag ==> !failed && forall k :: k in ks ==> EndsLine(k)
      requires !failed ==> path[c] == text[nlp..at + 1]
      requires text[at] == '\n' ==> p == at + 1
      ensures Matches(text[nlp..p], ks, xflag)
    {
      var k :| k in ks && IsSuffix(k, path[c]);
      if xflag {
        assert EndsLine(path[c]);
      } else {
        SuffixTrans(k, path[c], text[nlp..at + 1]);
        SuffixOccurs(k, text[nlp..at + 1]);
        OccursMore(k, text[nlp..at + 1], text[at + 1..p]);
        assert text[nlp..at + 1] + text[at + 1..p] == text[nlp..p];
      }
    }
  }

  /** Without -x some keyword occurs in the line, with -x the line is one. */
  ghost predicate Matches(line: string, ks: set<string>, xflag: bool) {
    if xflag then line in ks else exists k :: k in ks && Occurs(k, line)
  }

  predicate LineStart(text: string, i: nat) {
    i <= |text| && (i == 0 || text[i - 1] == '\n' || i == |text|)
  }

  predicate NoNewline(text: string, i: nat, j: nat) {
    i <= j <= |text| && forall k :: i <= k < j ==> text[k] != '\n'
  }

  /** A line of the text: from after a newline, or the beginning, to a newline, or the end. */
  ghost predicate IsLine(line: string, text: string) {
    exists i: nat, j: nat :: i < j <= |text| && line == text[i..j] && (i == 0 || text[i - 1] == '\n')
                             && NoNewline(text, i, j - 1) && (j == |text| || text[j - 1] == '\n')
  }

  lemma LineFound(text: string, i: nat, j: nat)
    requires i < j <= |text| && LineStart(text, i) && NoNewline(text, i, j - 1) && (j == |text| || text[j - 1] == '\n')
    ensures IsLine(text[i..j], text)
  {
  }

  /** To the end of the line. */
  method Skip(text: string, p0: nat) returns (p: nat)
    requires p0 < |text|
    ensures p0 < p <= |text| && NoNewline(text, p0, p - 1) && (p == |text| || text[p - 1] == '\n')
  {
    p := p0;
    while p < |text| && text[p] != '\n'
      invariant p0 <= p <= |text| && NoNewline(text, p0, p)
    {
      p := p + 1;
    }
    if p < |text| {
      p := p + 1;
    }
  }

  lemma {:induction false} StoredWithNewline(word: string, arg: string)
    ensures forall k :: k in Keywords(word, arg, true) ==> EndsLine(k)
    decreases |arg|
  {
    if arg != [] {
      StoredWithNewline(if arg[0] == '\n' then "" else word + [arg[0]], arg[1..]);
    }
  }

  /**
   The keywords of a command line: where cfail ends is decided by them, and
   it comes to an end at all exactly if they do not need too many states.
   */
  method Prepare(arg: string, xflag: bool) returns (ok: bool, w: Automaton, o: Outcome)
    requires NUL !in arg
    ensures ok <==> States(Entered(arg, xflag), xflag) <= MAXSIZ
    ensures ok ==> o == CFailEnds(arg, xflag)
    ensures ok ==> w.Sound(Keywords("", arg, xflag)) && w.xflag == xflag && fresh(w)
  {
    o := Fine;
    w := new Automaton(xflag);
    ok := w.CGotoFn(arg);
    if ok {
      w.StartSound(Keywords("", arg, xflag));
      FailingIs(w.View(), arg, xflag);
      o := w.CFail(Keywords("", arg, xflag));
    }
  }

  /**
   The whole program on one file: what it prints are lines with a keyword,
   with -x lines that are one. It comes so far exactly if there are not too
   many states and the queue has room for them, as it has for fewer than 399
   letters.
   */
  method Search(arg: string, text: string, vflag: bool, xflag: bool) returns (ok: bool, printed: seq<string>)
    requires NUL !in arg && NUL !in text
    ensures ok <==> States(Entered(arg, xflag), xflag) <= MAXSIZ && CFailEnds(arg, xflag) == Fine
    ensures Letters(Entered(arg, xflag), xflag) < QSIZE - 1 ==> ok
    ensures ok ==> forall i :: 0 <= i < |printed| ==> IsLine(printed[i], text)
    ensures ok && !vflag ==> forall i :: 0 <= i < |printed| ==> Matches(printed[i], Keywords("", arg, xflag), xflag)
  {
    printed := [];
    if Letters(Entered(arg, xflag), xflag) < QSIZE - 1 {
      FewLettersFit(arg, xflag);
    }
    var w, o;
    ok, w, o := Prepare(arg, xflag);
    if ok {
      ok := o == Fine;
      if ok {
        StoredWithNewline("", arg);
        printed := w.Execute(text, vflag, Keywords("", arg, xflag));
      }
    }
  }
}
