/** fgrep.c: the queue of cfail, and how it ends on the arrays of the automaton. */
module FgrepQueue {
  import opened FgrepOrder

  const NUL: char := '\0'

  /** The number of steps cfail takes below state x. */
  function Below(inp: seq<char>, nst: seq<nat>, link: seq<nat>, x: nat): nat
    requires |inp| == |nst| == |link|
    decreases if x < |inp| then |inp| - x else 0
  {
    if x >= |inp| then 0
    else
      1 + (if inp[x] != NUL && nst[x] > x then Below(inp, nst, link, nst[x]) else 0)
        + if link[x] > x then Below(inp, nst, link, link[x]) else 0
  }

  function BelowAll(inp: seq<char>, nst: seq<nat>, link: seq<nat>, queue: seq<nat>): nat
    requires |inp| == |nst| == |link|
  {
    if |queue| == 0 then 0
    else BelowAll(inp, nst, link, queue[..|queue| - 1]) + Below(inp, nst, link, queue[|queue| - 1])
  }

  lemma {:induction false} TakeFirst(inp: seq<char>, nst: seq<nat>, link: seq<nat>, queue: seq<nat>)
    requires |inp| == |nst| == |link| && queue != []
    ensures BelowAll(inp, nst, link, queue) == Below(inp, nst, link, queue[0]) + BelowAll(inp, nst, link, queue[1..])
  {
    var n := |queue| - 1;
    if n > 0 {
      TakeFirst(inp, nst, link, queue[..n]);
      assert queue[..n][1..] == queue[1..][..n - 1];
    }
  }

  lemma PutLast(inp: seq<char>, nst: seq<nat>, link: seq<nat>, queue: seq<nat>, x: nat)
    requires |inp| == |nst| == |link|
    ensures BelowAll(inp, nst, link, queue + [x]) == BelowAll(inp, nst, link, queue) + Below(inp, nst, link, x)
  {
    assert (queue + [x])[..|queue|] == queue;
  }

  // ----- the ring of cfail

  /** Place i of a queue that begins at front. */
  function Cell(front: nat, i: nat): nat {
    if front + i < QSIZE then front + i else front + i - QSIZE
  }

  /** queue, from front to rear, holds q. */
  ghost predicate Ring(queue: array<nat>, front: nat, rear: nat, q: seq<nat>)
    reads queue
  {
    && queue.Length == QSIZE && front < QSIZE && |q| < QSIZE && rear == Cell(front, |q|)
    && forall i :: 0 <= i < |q| ==> queue[Cell(front, i)] == q[i]
  }

  /** What putting x into a queue that begins at front comes to. */
  function Put(q: seq<nat>, front: nat, x: nat): (Outcome, seq<nat>) {
    (if q == [] && front == QSIZE - 1 then Outside else if |q| + 1 >= QSIZE then TooLarge else Fine, q + [x])
  }

  method Enqueue(queue: array<nat>, front: nat, rear0: nat, x: nat, ghost q: seq<nat>) returns (o: Outcome, rear: nat)
    requires Ring(queue, front, rear0, q)
    modifies queue
    ensures o == Put(q, front, x).0 && (o == Fine ==> Ring(queue, front, rear, q + [x]))
  {
    rear := rear0;
    queue[rear] := x;
    if front < rear {
      if rear >= QSIZE - 1 {
        if front == 0 {
          return TooLarge, rear;
        }
        rear := 0;
      } else {
        rear := rear + 1;
      }
    } else {
      rear := rear + 1;
      if rear == front {
        return TooLarge, rear;
      }
      if rear == QSIZE {
        return Outside, rear;
      }
    }
    o := Fine;
    var r := q + [x];
    assert forall i :: 0 <= i < |q| ==> Cell(front, i) != rear0 && r[i] == q[i];
  }

  /** The states after s and its links are put into the queue. */
  function Row(inp: seq<char>, nst: seq<nat>, link: seq<nat>, s: nat, q: seq<nat>, front: nat): (Outcome, seq<nat>)
    requires |inp| == |nst| == |link|
    decreases if s < |inp| then |inp| - s else 0
  {
    if s >= |inp| then (Fine, q)
    else
      var (o, r) := if inp[s] != NUL && nst[s] > s then Put(q, front, nst[s]) else (Fine, q);
      if o != Fine || link[s] <= s then (o, r) else Row(inp, nst, link, link[s], r, front)
  }

  lemma {:induction false} RowSteps(inp: seq<char>, nst: seq<nat>, link: seq<nat>, s: nat, q: seq<nat>, front: nat)
    requires |inp| == |nst| == |link| && s < |inp|
    ensures BelowAll(inp, nst, link, Row(inp, nst, link, s, q, front).1) < BelowAll(inp, nst, link, q)
              + Below(inp, nst, link, s)
    decreases |inp| - s
  {
    var (o, r) := if inp[s] != NUL && nst[s] > s then Put(q, front, nst[s]) else (Fine, q);
    PutLast(inp, nst, link, q, nst[s]);
    if o == Fine && s < link[s] < |inp| {
      RowSteps(inp, nst, link, link[s], r, front);
    }
  }

  /** The outcome of the second loop of cfail. */
  function Drain(inp: seq<char>, nst: seq<nat>, link: seq<nat>, q: seq<nat>, front: nat): Outcome
    requires |inp| == |nst| == |link|
    decreases BelowAll(inp, nst, link, q), |q|
  {
    if q == [] then Fine
    else
      var after := if front == QSIZE - 1 then 0 else front + 1;
      TakeFirst(inp, nst, link, q);
      if q[0] >= |inp| then Drain(inp, nst, link, q[1..], after)
      else
        RowSteps(inp, nst, link, q[0], q[1..], after);
        var (o, r) := Row(inp, nst, link, q[0], q[1..], after);
        if o == Fine then Drain(inp, nst, link, r, after) else o
  }

  /** The states after the root and its links; the check on them is a little stricter. */
  function FirstRow(inp: seq<char>, nst: seq<nat>, link: seq<nat>, s: nat, q: seq<nat>): (Outcome, seq<nat>)
    requires |inp| == |nst| == |link|
    decreases if s < |inp| then |inp| - s else 0
  {
    if s >= |inp| then (Fine, q)
    else
      var r := if inp[s] != NUL then q + [nst[s]] else q;
      if inp[s] != NUL && |r| >= QSIZE - 1 then (TooLarge, r)
      else if link[s] <= s then (Fine, r)
      else FirstRow(inp, nst, link, link[s], r)
  }

  /** The outcome of cfail. */
  function Failing(inp: seq<char>, nst: seq<nat>, link: seq<nat>): Outcome
    requires |inp| == |nst| == |link|
  {
    var (o, q) := FirstRow(inp, nst, link, 0, []);
    if o == Fine then Drain(inp, nst, link, q, 0) else o
  }

  /** The states that follow the letters along the links of s. */
  function Followers(inp: seq<char>, nst: seq<nat>, link: seq<nat>, s: nat): seq<nat>
    requires |inp| == |nst| == |link|
    decreases if s < |inp| then |inp| - s else 0
  {
    if s >= |inp| then []
    else
      (if inp[s] != NUL && nst[s] > s then [nst[s]] else [])
      + if link[s] <= s then [] else Followers(inp, nst, link, link[s])
  }

  /** The states that follow the letter of s, then those of the states linked to it. */
  lemma FollowersStep(inp: seq<char>, nst: seq<nat>, link: seq<nat>, s: nat, q: seq<nat>)
    requires |inp| == |nst| == |link|
    ensures s >= |inp| ==> Followers(inp, nst, link, s) == []
    ensures s < |inp| ==>
              var r := if inp[s] != NUL && nst[s] > s then q + [nst[s]] else q;
              q + Followers(inp, nst, link, s) == r + if link[s] <= s then [] else Followers(inp, nst, link, link[s])
  {
  }

  /** What putting all of f into a queue comes to. */
  function PutAll(q: seq<nat>, front: nat, f: seq<nat>): Outcome {
    if f == [] then Fine else if q == [] && front == QSIZE - 1 then Outside
    else if |q| + |f| >= QSIZE then TooLarge else Fine
  }

  /** What the loop over the links of a state comes to. */
  lemma {:induction false} RowIs(inp: seq<char>, nst: seq<nat>, link: seq<nat>, s: nat, q: seq<nat>, front: nat)
    requires |inp| == |nst| == |link| && |q| < QSIZE
    ensures
      var (o, r) := Row(inp, nst, link, s, q, front);
      var f := Followers(inp, nst, link, s);
      o == PutAll(q, front, f) && (o == Fine ==> r == q + f)
    decreases if s < |inp| then |inp| - s else 0
  {
    hide Followers;
    FollowersStep(inp, nst, link, s, q);
    if s < |inp| {
      var (o, r) := if inp[s] != NUL && nst[s] > s then Put(q, front, nst[s]) else (Fine, q);
      if o == Fine && link[s] > s {
        RowIs(inp, nst, link, link[s], r, front);
      }
    }
  }

  lemma {:induction false} FirstRowIs(inp: seq<char>, nst: seq<nat>, link: seq<nat>, s: nat, q: seq<nat>)
    requires |inp| == |nst| == |link| && |q| < QSIZE - 1
    requires forall x :: 0 <= x < |inp| && inp[x] != NUL ==> nst[x] > x
    ensures
      var (o, r) := FirstRow(inp, nst, link, s, q);
      var f := Followers(inp, nst, link, s);
      o == (if |q| + |f| >= QSIZE - 1 then TooLarge else Fine) && (o == Fine ==> r == q + f)
    decreases if s < |inp| then |inp| - s else 0
  {
    hide Followers;
    FollowersStep(inp, nst, link, s, q);
    if s < |inp| {
      var r := if inp[s] != NUL then q + [nst[s]] else q;
      if (inp[s] == NUL || |r| < QSIZE - 1) && link[s] > s {
        FirstRowIs(inp, nst, link, link[s], r);
      }
    }
  }

  lemma DrainStep(inp: seq<char>, nst: seq<nat>, link: seq<nat>, q: seq<nat>, front: nat)
    requires |inp| == |nst| == |link| && 0 < |q| < QSIZE && q[0] < |inp|
    ensures
      var after := if front == QSIZE - 1 then 0 else front + 1;
      var f := Followers(inp, nst, link, q[0]);
      var o := PutAll(q[1..], after, f);
      Drain(inp, nst, link, q, front) == if o == Fine then Drain(inp, nst, link, q[1..] + f, after) else o
  {
    hide Row, Followers;
    RowIs(inp, nst, link, q[0], q[1..], if front == QSIZE - 1 then 0 else front + 1);
  }
}
