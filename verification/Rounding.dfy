/** Rounding up to a multiple. */
module Rounding {
  import opened Sums

  function RoundUp(a: nat, b: nat): nat
    requires b > 0
  {
    (a + b - 1) / b * b
  }

  lemma RoundUpOf(a: nat, b: nat, q: nat, r: nat)
    requires 0 < r <= b && a == b * q + r
    ensures RoundUp(a, b) == b * q + b
  {
    Distribute(b, q, 1);
    DivUnique(a + b - 1, b, q + 1, r - 1);
  }

  lemma DivMod(a: nat, b: nat)
    requires b > 0
    ensures a == b * (a / b) + a % b && a % b < b
  {
  }

  lemma MultipleRounds(a: nat, b: nat)
    requires b > 0 && a % b == 0
    ensures RoundUp(a, b) == a
  {
    DivMod(a, b);
    if a == 0 {
      DivUnique(b - 1, b, 0, b - 1);
    } else {
      Distribute(b, a / b - 1, 1);
      RoundUpOf(a, b, a / b - 1, b);
    }
  }

  lemma RoundedUp(a: nat, b: nat)
    requires b > 0
    ensures RoundUp(a, b) >= a && a % b >= 0
  {
    if a % b == 0 {
      MultipleRounds(a, b);
    } else {
      DivMod(a, b);
      RoundUpOf(a, b, a / b, a % b);
    }
  }

  /** Counting up to the next multiple is rounding up. */
  lemma RoundUpNext(a: nat, b: nat)
    requires b > 0 && a % b != 0
    ensures RoundUp(a + 1, b) == RoundUp(a, b) > a
  {
    DivMod(a, b);
    RoundUpOf(a, b, a / b, a % b);
    RoundUpOf(a + 1, b, a / b, a % b + 1);
  }

  lemma MultipleOf(a: nat, b: nat) returns (q: nat)
    requires b > 0
    ensures RoundUp(a, b) == Times(q, b)
  {
    q := (a + b - 1) / b;
    hide Times;
    TimesIs(q, b);
  }
}
