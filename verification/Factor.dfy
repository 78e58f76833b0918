/** factor.c: trial division by 2, 3, 5, 7 and a wheel of 48 steps. Doubles are exact integers here. */
module Factor {
  import opened Sums

  const HUGE: real := 100000000000000.0

  /** The steps between the numbers that are prime to 2, 3, 5 and 7. */
  const SQ: seq<nat> :=
    [10, 2, 4, 2, 4, 6, 2, 6] +
    [4, 2, 4, 6, 6, 2, 6, 4] +
    [2, 6, 4, 6, 8, 4, 2, 4] +
    [2, 4, 8, 6, 4, 6, 2, 4] +
    [6, 2, 6, 6, 4, 2, 4, 6] +
    [2, 6, 4, 2, 4, 2, 10, 2]

  // ----- divisibility

  predicate Divides(d: nat, n: nat)
    requires d > 0
  {
    n % d == 0
  }

  ghost predicate Prime(p: nat) {
    p >= 2 && forall d :: 2 <= d < p ==> !Divides(d, p)
  }

  lemma MultipleDivides(d: nat, k: nat)
    requires d > 0
    ensures Divides(d, d * k)
  {
    DivUnique(d * k, d, k, 0);
  }

  lemma Quotient(d: nat, n: nat)
    requires d > 0 && Divides(d, n)
    ensures n == d * (n / d)
  {
  }

  lemma DividesTrans(c: nat, d: nat, n: nat)
    requires c > 0 && d > 0 && Divides(c, d) && Divides(d, n)
    ensures Divides(c, n)
  {
    hide Divides;
    Quotient(c, d);
    Quotient(d, n);
    var k, m := d / c, n / d;
    assert c * k * m == c * (k * m);
    MultipleDivides(c, k * m);
  }

  // ----- the wheel

  /** Not prime to 210. */
  predicate Skipped(d: nat) {
    d % 2 == 0 || d % 3 == 0 || d % 5 == 0 || d % 7 == 0
  }

  /** Going s on from the odd number r passes no odd number that is prime to 210. */
  predicate Step(r: nat, s: nat) {
    && (s == 2 || s == 4 || s == 6 || s == 8 || s == 10)
    && (s > 2 ==> Skipped(r + 2)) && (s > 4 ==> Skipped(r + 4)) && (s > 6 ==> Skipped(r + 6))
    && (s > 8 ==> Skipped(r + 8))
  }

  lemma EvenSkipped(k: nat)
    ensures Skipped(2 * k)
  {
  }

  lemma StepSkips(m: nat, s: nat, d: nat)
    requires Step(2 * m + 1, s) && 2 * m + 1 < d < 2 * m + 1 + s
    ensures Skipped(d)
  {
    hide Skipped;
    var t := d - (2 * m + 1);
    EvenSkipped(m + (t + 1) / 2);
  }

  /** From position r, steps j and on skip nothing that is prime to 210, and come back to 1 after 210. */
  predicate WheelFrom(sq: seq<nat>, j: nat, r: nat)
    decreases |sq| - j
  {
    if j >= |sq| then r == 211 else Step(r, sq[j]) && WheelFrom(sq, j + 1, r + sq[j])
  }

  lemma FourSteps(sq: seq<nat>, j: nat, r: nat, a: nat, b: nat, c: nat, d: nat)
    requires j + 4 <= |sq| && sq[j] == a && sq[j + 1] == b && sq[j + 2] == c && sq[j + 3] == d
    requires Step(r, a) && Step(r + a, b) && Step(r + a + b, c) && Step(r + a + b + c, d)
    requires WheelFrom(sq, j + 4, r + a + b + c + d)
    ensures WheelFrom(sq, j, r)
  {
    hide Step;
    assert WheelFrom(sq, j + 3, r + a + b + c);
    assert WheelFrom(sq, j + 2, r + a + b);
    assert WheelFrom(sq, j + 1, r + a);
  }

  lemma Steps1()
    ensures Step(1, 10) && Step(11, 2) && Step(13, 4) && Step(17, 2) && Step(19, 4) && Step(23, 6)
    ensures Step(29, 2) && Step(31, 6) && Step(37, 4) && Step(41, 2) && Step(43, 4) && Step(47, 6)
  {
  }

  lemma Steps2()
    ensures Step(53, 6) && Step(59, 2) && Step(61, 6) && Step(67, 4) && Step(71, 2) && Step(73, 6)
    ensures Step(79, 4) && Step(83, 6) && Step(89, 8) && Step(97, 4) && Step(101, 2) && Step(103, 4)
  {
  }

  lemma Steps3()
    ensures Step(107, 2) && Step(109, 4) && Step(113, 8) && Step(121, 6) && Step(127, 4) && Step(131, 6)
    ensures Step(137, 2) && Step(139, 4) && Step(143, 6) && Step(149, 2) && Step(151, 6) && Step(157, 6)
  {
  }

  lemma Steps4()
    ensures Step(163, 4) && Step(167, 2) && Step(169, 4) && Step(173, 6) && Step(179, 2) && Step(181, 6)
    ensures Step(187, 4) && Step(191, 2) && Step(193, 4) && Step(197, 2) && Step(199, 10) && Step(209, 2)
  {
  }

  lemma FullTurn()
    ensures WheelFrom(SQ, 48, 211)
  {
  }

  lemma QuarterTurn4()
    ensures WheelFrom(SQ, 36, 163)
  {
    hide Step, WheelFrom;
    FullTurn();
    Steps4();
    FourSteps(SQ, 44, 193, 4, 2, 10, 2);
    FourSteps(SQ, 40, 179, 2, 6, 4, 2);
    FourSteps(SQ, 36, 163, 4, 2, 4, 6);
  }

  lemma QuarterTurn3()
    ensures WheelFrom(SQ, 24, 107)
  {
    hide Step, WheelFrom;
    QuarterTurn4();
    Steps3();
    FourSteps(SQ, 32, 143, 6, 2, 6, 6);
    FourSteps(SQ, 28, 127, 4, 6, 2, 4);
    FourSteps(SQ, 24, 107, 2, 4, 8, 6);
  }

  lemma QuarterTurn2()
    ensures WheelFrom(SQ, 12, 53)
  {
    hide Step, WheelFrom;
    QuarterTurn3();
    Steps2();
    FourSteps(SQ, 20, 89, 8, 4, 2, 4);
    FourSteps(SQ, 16, 71, 2, 6, 4, 6);
    FourSteps(SQ, 12, 53, 6, 2, 6, 4);
  }

  lemma QuarterTurn1()
    ensures WheelFrom(SQ, 0, 1)
  {
    hide Step, WheelFrom;
    QuarterTurn2();
    Steps1();
    FourSteps(SQ, 8, 37, 4, 2, 4, 6);
    FourSteps(SQ, 4, 19, 4, 6, 2, 6);
    FourSteps(SQ, 0, 1, 10, 2, 4, 2);
  }

  /** Adding whole turns does not matter. */
  lemma SkippedTurn(q: nat, r: nat)
    requires Skipped(r)
    ensures Skipped(210 * q + r)
  {
    Turn(q, r, 2, 105);
    Turn(q, r, 3, 70);
    Turn(q, r, 5, 42);
    Turn(q, r, 7, 30);
  }

  lemma Turn(q: nat, r: nat, p: nat, m: nat)
    requires p > 0 && p * m == 210
    ensures r % p == 0 ==> (210 * q + r) % p == 0
  {
    if r % p == 0 {
      assert 210 * q + r == p * (m * q + r / p);
      MultipleDivides(p, m * q + r / p);
    }
  }

  // ----- the factors found

  function Product(s: seq<nat>): nat {
    if |s| == 0 then 1 else Product(s[..|s| - 1]) * s[|s| - 1]
  }

  /** n has no divisor in 2..m. */
  ghost predicate Rough(n: nat, m: nat) {
    forall d :: 2 <= d <= m ==> !Divides(d, n)
  }

  /** Prime numbers up to m, in order. */
  ghost predicate PrimesUpTo(s: seq<nat>, m: nat) {
    && (forall i :: 0 <= i < |s| ==> Prime(s[i]) && s[i] <= m)
    && forall i, j :: 0 <= i <= j < |s| ==> s[i] <= s[j]
  }

  /** The smallest divisor is prime. */
  lemma SmallestIsPrime(n: nat, d: nat)
    requires n > 0 && d >= 2 && Rough(n, d - 1) && Divides(d, n)
    ensures Prime(d)
  {
    forall c | 2 <= c < d
      ensures !Divides(c, d)
    {
      if Divides(c, d) {
        DividesTrans(c, d, n);
      }
    }
  }

  lemma RoughQuotient(n: nat, d: nat, q: nat, m: nat)
    requires n > 0 && d > 0 && n == d * q && Rough(n, m)
    ensures q > 0 && Rough(q, m)
  {
    hide Divides;
    forall c | 2 <= c <= m
      ensures !Divides(c, q)
    {
      if Divides(c, q) {
        MultipleDivides(q, d);
        DividesTrans(c, q, n);
      }
    }
  }

  /** What has no divisor up to its square root is prime. */
  lemma RestIsPrime(n: nat, m: nat)
    requires n > 1 && Rough(n, m) && m >= 1 && (m - 1) * (m - 1) > n
    ensures Prime(n) && n > m
  {
    assert Divides(n, n) by {
      MultipleDivides(n, 1);
    }
    forall d | 2 <= d < n
      ensures !Divides(d, n)
    {
      if Divides(d, n) {
        Quotient(d, n);
        var e := n / d;
        MultipleDivides(e, d);
        assert d > m && e > m;
        Larger(d, e, m);
      }
    }
  }

  lemma Larger(d: nat, e: nat, m: nat)
    requires d > m && e > m >= 1
    ensures d * e > (m - 1) * (m - 1)
  {
    MulMono(d, m - 1, e);
    MulMono(m - 1, m - 1, d);
    assert d * (m - 1) == (m - 1) * d;
    assert d * e == d * (m - 1) + d * (e - m + 1);
  }

  /** A number that a small prime divides cannot divide one that the prime does not. */
  lemma SkippedIsHarmless(n: nat, d: nat)
    requires Rough(n, 7) && n > 0 && d > 0 && Skipped(d)
    ensures !Divides(d, n)
  {
    if Divides(d, n) {
      var p := if d % 2 == 0 then 2 else if d % 3 == 0 then 3 else if d % 5 == 0 then 5 else 7;
      assert Divides(p, d);
      DividesTrans(p, d, n);
    }
  }

  datatype Answer = Exit | Ouch | NotAnInteger | Factors(printed: seq<nat>)

  /** nn is what is left of the number, printed what has been found; vv is kept as the number below its root. */
  class Factorer {
    var nn: nat
    var vv: nat
    var printed: seq<nat>

    /** n has been divided by all numbers from 2 to m. */
    ghost predicate Tried(n: nat, m: nat)
      reads this
    {
      && nn > 0 && vv == nn && Product(printed) * nn == n
      && PrimesUpTo(printed, m) && Rough(nn, m)
    }

    constructor (n: nat)
      requires n > 0
      ensures Tried(n, 1) && printed == []
    {
      nn, vv, printed := n, n, [];
    }

    /** ii <= vv, where vv is 1 + sqrt(nn) */
    predicate AtMostRoot(ii: nat)
      requires ii > 0
      reads this`vv
    {
      (ii - 1) * (ii - 1) <= vv
    }

    /** Divides by arg as often as possible. */
    method Try(arg: nat, ghost n: nat)
      requires arg >= 2 && Tried(n, arg - 1)
      modifies this
      ensures Tried(n, arg)
    {
      hide Product, PrimesUpTo, Rough, Prime, Divides;
      MoreRoom(printed, arg);
      while nn == nn / arg * arg
        invariant nn > 0 && vv == nn && Product(printed) * nn == n && PrimesUpTo(printed, arg) && Rough(nn, arg - 1)
        decreases nn
      {
        ghost var q := nn / arg;
        Divided(nn, arg, q);
        SmallestIsPrime(nn, arg);
        RoughQuotient(nn, arg, q, arg - 1);
        OneMorePrime(printed, arg);
        OneMoreFactor(printed, arg, q);
        printed := printed + [arg];
        nn := nn / arg;
        vv := nn;
      }
      NotDivided(nn, arg);
    }

    /** One turn of the wheel from ii, which is 1 more than a multiple of 210. */
    method Turn(ii0: nat, ghost n: nat, ghost q: nat) returns (ii: nat)
      requires ii0 == 210 * q + 1 && Tried(n, if ii0 < 7 then 7 else ii0)
      modifies this
      ensures ii == ii0 + 210 && Tried(n, ii)
    {
      hide *;
      QuarterTurn1();
      WheelSize();
      ii := ii0;
      ghost var m: nat := 0;
      var j: nat := 0;
      while j < 48
        invariant j <= 48 && (if j == 0 then m == 0 else m >= 5) && ii == 210 * q + 2 * m + 1
                  && WheelFrom(SQ, j, 2 * m + 1)
        invariant Tried(n, if ii < 7 then 7 else ii)
      {
        ghost var s := SQ[j];
        WheelStep(j, m);
        ii := ii + SQ[j];
        NothingBetween(n, q, m, s);
        Try(ii, n);
        m := m + s / 2;
        j := j + 1;
      }
      WheelEnds(m);
    }

    /** No number the wheel passes over divides what is left. */
    lemma NothingBetween(n: nat, q: nat, m: nat, s: nat)
      requires Step(2 * m + 1, s)
      requires
        var ii := 210 * q + 2 * m + 1;
        Tried(n, if ii < 7 then 7 else ii) && ii + s - 1 >= 7
      ensures Tried(n, 210 * q + 2 * m + s)
    {
      var ii := 210 * q + 2 * m + 1;
      forall d | 2 <= d < ii + s
        ensures !Divides(d, nn)
      {
        if d > ii && d > 7 {
          StepSkips(m, s, d - 210 * q);
          SkippedTurn(q, d - 210 * q);
          SkippedIsHarmless(nn, d);
        }
      }
    }

    /** All factors of n; what is left in the end is one, unless it is 1. */
    method FactorAll(ghost n: nat)
      requires Tried(n, 1) && printed == []
      modifies this
      ensures Factorization(printed, n)
    {
      hide *;
      Try(2, n);
      Try(3, n);
      Next(n, 5);
      Try(5, n);
      Next(n, 7);
      Try(7, n);
      var ii := 1;
      ghost var q := 0;
      Left(n, 7);
      while AtMostRoot(ii)
        invariant ii == 210 * q + 1 && Tried(n, if ii < 7 then 7 else ii)
        decreases if n + 1 >= ii then n + 2 - ii else 0
      {
        Left(n, if ii < 7 then 7 else ii);
        RootBound(ii, n);
        ii := Turn(ii, n, q);
        q := q + 1;
      }
      Finish(n, ii);
      if nn > 1 {
        printed := printed + [nn];
      }
    }

    /** 4 and 6 need not be tried after 2 and 3. */
    lemma Next(n: nat, arg: nat)
      requires (arg == 5 || arg == 7) && Tried(n, arg - 2)
      ensures Tried(n, arg - 1)
    {
      if Divides(arg - 1, nn) {
        assert Divides(2, arg - 1);
        DividesTrans(2, arg - 1, nn);
      }
    }

    lemma Left(n: nat, m: nat)
      requires Tried(n, m)
      ensures 0 < nn == vv <= n
    {
      ProductPositive(printed, m);
      MulMono(nn, 1, Product(printed));
    }

    lemma RootBound(ii: nat, n: nat)
      requires ii > 0 && AtMostRoot(ii) && vv <= n
      ensures ii <= n + 1
    {
      if ii > 1 {
        MulMono(ii - 1, 1, ii - 1);
      }
    }

    lemma RootOfOne()
      ensures AtMostRoot(1)
    {
    }

    lemma Finish(n: nat, ii: nat)
      requires (ii == 1 || ii >= 7) && !AtMostRoot(ii) && Tried(n, if ii < 7 then 7 else ii)
      ensures nn <= 1 ==> Factorization(printed, n)
      ensures nn > 1 ==> Factorization(printed + [nn], n)
    {
      RootOfOne();
      if nn > 1 {
        RestIsPrime(nn, ii);
        OneMoreFactor(printed, nn, 1);
        assert PrimesUpTo(printed, nn);
        OneMorePrime(printed, nn);
      }
    }
  }

  /** s lists prime numbers in order, and their product is n. */
  ghost predicate Factorization(s: seq<nat>, n: nat) {
    Product(s) == n && exists m :: PrimesUpTo(s, m)
  }

  lemma {:induction false} ProductPositive(s: seq<nat>, m: nat)
    requires PrimesUpTo(s, m)
    ensures Product(s) >= 1
  {
    if s != [] {
      var init := s[..|s| - 1];
      assert PrimesUpTo(init, m);
      ProductPositive(init, m);
      assert Prime(s[|s| - 1]);
      MulMono(Product(init), 1, s[|s| - 1]);
    }
  }

  /** What the program makes of one number that has been read. */
  method FactorNumber(x: real) returns (r: Answer)
    ensures r == Exit <==> x == 0.0
    ensures r == Ouch <==> x < 0.0 || x > HUGE
    ensures r == NotAnInteger <==> 0.0 < x <= HUGE && x.Floor as real != x
    ensures r.Factors? ==> Factorization(r.printed, x.Floor)
  {
    if x == 0.0 {
      return Exit;
    }
    if x < 0.0 || x > HUGE {
      return Ouch;
    }
    if x - x.Floor as real != 0.0 {
      return NotAnInteger;
    }
    var f := new Factorer(x.Floor);
    f.FactorAll(x.Floor);
    return Factors(f.printed);
  }

  lemma WheelStep(j: nat, m: nat)
    requires j < 48 && WheelFrom(SQ, j, 2 * m + 1)
    ensures Step(2 * m + 1, SQ[j]) && WheelFrom(SQ, j + 1, 2 * (m + SQ[j] / 2) + 1)
    ensures SQ[j] == 2 * (SQ[j] / 2) && SQ[j] >= 2 && (m == 0 && j == 0 ==> SQ[j] == 10)
  {
    hide Skipped;
  }

  lemma WheelSize()
    ensures |SQ| == 48
  {
  }

  lemma WheelEnds(m: nat)
    requires WheelFrom(SQ, 48, 2 * m + 1)
    ensures 2 * m + 1 == 211
  {
  }

  lemma Divided(n: nat, d: nat, q: nat)
    requires n > 0 && d >= 2 && q == n / d && n == q * d
    ensures Divides(d, n) && q < n && n == d * q
  {
    MultipleDivides(d, q);
  }

  lemma NotDivided(n: nat, d: nat)
    requires d >= 2 && n != n / d * d && Rough(n, d - 1)
    ensures Rough(n, d)
  {
    if Divides(d, n) {
      Quotient(d, n);
    }
  }

  lemma MoreRoom(s: seq<nat>, m: nat)
    requires m > 0 && PrimesUpTo(s, m - 1)
    ensures PrimesUpTo(s, m)
  {
  }

  lemma OneMorePrime(s: seq<nat>, p: nat)
    requires Prime(p) && PrimesUpTo(s, p)
    ensures PrimesUpTo(s + [p], p)
  {
    hide Prime;
  }

  lemma OneMoreFactor(s: seq<nat>, p: nat, q: nat)
    ensures Product(s + [p]) * q == Product(s) * (p * q)
  {
    assert (s + [p])[..|s|] == s;
    Associative(Product(s), p, q);
  }

  lemma Associative(a: nat, b: nat, c: nat)
    ensures a * b * c == a * (b * c)
  {
  }
}
