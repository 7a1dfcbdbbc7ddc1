/** The plain Euclidean algorithm with cofactors: the specification that the
    word-by-word (Lehmer) gcds refine. */
module Euclid {
  import opened Integers

  /** Two consecutive remainders with their cofactors: r = d*R2 - co*R1 for the
      starting pair (R2, R1). */
  datatype State = State(r2: int, r1: int, co2: int, co1: int, d2: int, d1: int)

  function Start(r2: int, r1: int): State {
    State(r2, r1, 0, -1, 1, 0)
  }

  /** One division step; nothing happens once the smaller remainder is zero. */
  function Step(e: State): State {
    if e.r1 <= 0 then
      e
    else
      var q := e.r2 / e.r1;
      State(e.r1, e.r2 - q * e.r1, e.co1, e.co2 - q * e.co1, e.d1, e.d2 - q * e.d1)
  }

  function Iterate(e: State, n: nat): State
  {
    if n == 0 then e else Step(Iterate(e, n - 1))
  }

  lemma IterateAdd(e: State, m: nat, n: nat)
    ensures Iterate(Iterate(e, m), n) == Iterate(e, m + n)
  {
  }

  /** The first n steps all divide: no remainder is used up before. */
  ghost predicate Live(e: State, n: nat) {
    forall j :: 0 <= j < n ==> Iterate(e, j).r1 > 0
  }

  lemma LiveAdd(e: State, m: nat, n: nat)
    requires Live(e, m) && Live(Iterate(e, m), n)
    ensures Live(e, m + n)
  {
    forall j | m <= j < m + n
      ensures Iterate(e, j).r1 > 0
    {
      IterateAdd(e, m, j - m);
    }
  }

  /** What every state of the run from (R2, R1) satisfies. */
  predicate Invariant(R2: int, R1: int, e: State) {
    && e.r2 > e.r1 >= 0
    && e.r2 == e.d2 * R2 - e.co2 * R1
    && e.r1 == e.d1 * R2 - e.co1 * R1
    && ((e.co1 < 0 <= e.co2 && e.d1 * e.co2 - e.d2 * e.co1 == 1)
        || (e.co2 < 0 < e.co1 && e.d1 * e.co2 - e.d2 * e.co1 == -1))
  }

  lemma StepKeepsInvariant(R2: int, R1: int, e: State)
    requires Invariant(R2, R1, e)
    ensures Invariant(R2, R1, Step(e))
    ensures e.r1 > 0 ==> Step(e).r1 < e.r1
  {
    if e.r1 > 0 {
      var q := e.r2 / e.r1;
      DivisionStep(e.r2, e.r1);
      StepRemainder(R2, R1, q, e);
      StepDeterminant(e, q);
      StepSigns(e.co2, e.co1, q);
    }
  }

  lemma DivisionStep(x: int, y: int)
    requires x >= y > 0
    ensures x / y >= 1 && 0 <= x - x / y * y < y
  {
    assert x == x / y * y + x % y;
  }

  lemma StepSigns(co2: int, co1: int, q: int)
    requires q >= 1 && (co1 < 0 <= co2 || co2 < 0 < co1)
    ensures co1 < 0 ==> co2 - q * co1 > 0
    ensures co1 > 0 ==> co2 - q * co1 < 0
  {
    ProductGrows(q, co1);
    ProductGrows(q, -co1);
  }

  lemma StepRemainder(R2: int, R1: int, q: int, e: State)
    ensures (e.d2 * R2 - e.co2 * R1) - q * (e.d1 * R2 - e.co1 * R1)
         == (e.d2 - q * e.d1) * R2 - (e.co2 - q * e.co1) * R1
  {
    Distribute(q, e.d1 * R2, e.co1 * R1);
    Distribute(R2, e.d2, q * e.d1);
    Distribute(R1, e.co2, q * e.co1);
  }

  lemma StepDeterminant(e: State, q: int)
    ensures (e.d2 - q * e.d1) * e.co1 - e.d1 * (e.co2 - q * e.co1) == -(e.d1 * e.co2 - e.d2 * e.co1)
  {
    Distribute(e.co1, e.d2, q * e.d1);
    Distribute(e.d1, e.co2, q * e.co1);
  }

  lemma StartInvariant(R2: int, R1: int)
    requires R2 > R1 >= 0
    ensures Invariant(R2, R1, Start(R2, R1))
  {
  }

  lemma IterateInvariant(R2: int, R1: int, n: nat)
    requires R2 > R1 >= 0
    ensures Invariant(R2, R1, Iterate(Start(R2, R1), n))
  {
    if n > 0 {
      IterateInvariant(R2, R1, n - 1);
      StepKeepsInvariant(R2, R1, Iterate(Start(R2, R1), n - 1));
    }
  }

  /** From a pair in the wrong order a quotient of zero comes first, and on a tie one of one;
      from then on the invariant holds all the same. */
  lemma {:induction false} ExchangedInvariant(R2: int, R1: int, n: nat)
    requires R1 >= R2 > 0 && n >= 1 && (R1 > R2 ==> n >= 2)
    ensures Invariant(R2, R1, Iterate(Start(R2, R1), n))
    ensures R1 > R2 ==> Iterate(Start(R2, R1), 1).r1 == R2
  {
    if R1 == R2 {
      QuotientUnique(R2, R1, 1);
      assert Iterate(Start(R2, R1), 1) == Step(Iterate(Start(R2, R1), 0));
    } else {
      ExchangedStart(R2, R1);
    }
    if n > (if R1 == R2 then 1 else 2) {
      ExchangedInvariant(R2, R1, n - 1);
      StepKeepsInvariant(R2, R1, Iterate(Start(R2, R1), n - 1));
    }
  }

  lemma ExchangedStart(R2: int, R1: int)
    requires R1 > R2 > 0
    ensures Iterate(Start(R2, R1), 1) == State(R1, R2, -1, 0, 0, 1)
    ensures Iterate(Start(R2, R1), 2) == State(R2, R1 % R2, 0, -1, 1, -(R1 / R2))
    ensures Invariant(R2, R1, Iterate(Start(R2, R1), 2))
  {
    QuotientUnique(R2, R1, 0);
    assert Iterate(Start(R2, R1), 1) == Step(Iterate(Start(R2, R1), 0));
    var e := State(R1, R2, -1, 0, 0, 1);
    assert Iterate(Start(R2, R1), 2) == Step(e);
    assert R1 == R1 / R2 * R2 + R1 % R2;
    NegateProduct(R1 / R2, R2);
  }

  /** The cross product of cofactors and remainders is the starting value, up to sign;
      with the sign pattern this bounds both cofactors. */
  lemma CrossProduct(R2: int, R1: int, e: State)
    requires Invariant(R2, R1, e)
    ensures e.co1 < 0 ==> e.co2 * e.r1 - e.co1 * e.r2 == R2
    ensures e.co1 > 0 ==> e.co2 * e.r1 - e.co1 * e.r2 == -R2
  {
    Distribute(e.co2, e.d1 * R2, e.co1 * R1);
    Distribute(e.co1, e.d2 * R2, e.co2 * R1);
    assert e.co2 * e.r1 - e.co1 * e.r2 == (e.d1 * e.co2 - e.d2 * e.co1) * R2;
  }

  /** The smaller cofactor times the larger remainder does not exceed the start value. */
  lemma CofactorTimesRemainder(a: int, b: int, e: State)
    requires Invariant(a, b, e)
    ensures Abs(e.co1) * e.r2 <= a
  {
    CrossProduct(a, b, e);
    NegateProduct(e.co1, e.r2);
    NegateProduct(e.co2, e.r1);
    ProductGrows(e.co2, e.r1);
    ProductGrows(-e.co2, e.r1);
  }

  /** A division is determined by a remainder in range. */
  lemma QuotientUnique(x: int, y: int, q: int)
    requires 0 <= x - q * y < y
    ensures x / y == q
  {
    assert x == (x / y) * y + x % y;
    Distribute(y, x / y, q);
    SmallMultiple(y, x / y - q);
  }

}
