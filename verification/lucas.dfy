/** The two probable-prime tests: Miller-Rabin and the Lucas V test, each against the
    number-theoretic condition it is meant to decide. */
module Lucas {
  import opened Integers
  import opened Words
  import opened Congruences
  import opened Primes
  import Groups

  /** Remainder of truncated division: the sign is the dividend's. */
  function TruncMod(x: int, m: int): (r: int)
    requires m > 0
    ensures Congruent(m, r, x) && -m < r < m && (x >= 0 ==> r >= 0) && (x <= 0 ==> r <= 0)
  {
    if x >= 0 then
      assert x % m - x == -(x / m) * m;
      x % m
    else
      var y := -x;
      assert -(y % m) - x == (y / m) * m;
      -(y % m)
  }

  // ----- Lucas sequences -----

  function U(n: nat, p: int, q: int): int {
    if n == 0 then 0 else if n == 1 then 1 else p * U(n - 1, p, q) - q * U(n - 2, p, q)
  }

  function V(n: nat, p: int, q: int): int {
    if n == 0 then 2 else if n == 1 then p else p * V(n - 1, p, q) - q * V(n - 2, p, q)
  }

  lemma {:induction false} VFromU(n: nat, p: int, q: int)
    ensures V(n, p, q) == 2 * U(n + 1, p, q) - p * U(n, p, q)
  {
    if n == 1 {
      assert U(2, p, q) == p * U(1, p, q) - q * U(0, p, q);
    } else if n > 1 {
      VFromU(n - 1, p, q);
      VFromU(n - 2, p, q);
      VStep(p, q, U(n + 1, p, q), U(n, p, q), U(n - 1, p, q), U(n - 2, p, q));
    }
  }

  lemma VStep(p: int, q: int, u3: int, u2: int, u1: int, u0: int)
    requires u3 == p * u2 - q * u1 && u2 == p * u1 - q * u0
    ensures p * (2 * u2 - p * u1) - q * (2 * u1 - p * u0) == 2 * u3 - p * u2
  {
    Distribute(p, 2 * u2, p * u1);
    Distribute(q, 2 * u1, p * u0);
    Distribute(p, p * u1, q * u0);
    assert p * (q * u0) == q * (p * u0);
  }

  lemma URecurrence(n: nat, p: int, q: int)
    requires n >= 2
    ensures U(n, p, q) == p * U(n - 1, p, q) - q * U(n - 2, p, q)
  {
  }

  lemma UAddOne(n: nat, p: int, q: int)
    ensures U(n + 2, p, q) == U(n + 1, p, q) * U(2, p, q) - q * U(n, p, q) * U(1, p, q)
  {
    URecurrence(n + 2, p, q);
    URecurrence(2, p, q);
  }

  /** The addition formula. */
  lemma {:induction false} UAdd(n: nat, k: nat, p: int, q: int)
    ensures U(n + k + 1, p, q) == U(n + 1, p, q) * U(k + 1, p, q) - q * U(n, p, q) * U(k, p, q)
  {
    if k == 1 {
      UAddOne(n, p, q);
    } else if k > 1 {
      UAdd(n, k - 1, p, q);
      UAdd(n, k - 2, p, q);
      URecurrence(n + k + 1, p, q);
      URecurrence(k + 1, p, q);
      URecurrence(k, p, q);
      UAddStep(p, q, U(n + 1, p, q), U(n, p, q), U(k, p, q), U(k - 1, p, q), U(k - 2, p, q));
    }
  }

  lemma UAddStep(p: int, q: int, a: int, b: int, k2: int, k1: int, k0: int)
    requires k2 == p * k1 - q * k0
    ensures p * (a * k2 - q * b * k1) - q * (a * k1 - q * b * k0) == a * (p * k2 - q * k1) - q * b * k2
  {
    var (P, Q, A, B, K1, K0) := (p as real, q as real, a as real, b as real, k1 as real, k0 as real);
    UAddStepReal(P, Q, A, B, P * K1 - Q * K0, K1, K0);
  }

  lemma UAddStepReal(p: real, q: real, a: real, b: real, k2: real, k1: real, k0: real)
    requires k2 == p * k1 - q * k0
    ensures p * (a * k2 - q * b * k1) - q * (a * k1 - q * b * k0) == a * (p * k2 - q * k1) - q * b * k2
  {
  }

  /** Doubling the index, from the pair at n. */
  lemma UDouble(n: nat, p: int, q: int)
    ensures var u1, u2 := U(n, p, q), U(n + 1, p, q);
            && U(2 * n, p, q) == 2 * (u2 * u1) - p * (u1 * u1)
            && U(2 * n + 1, p, q) == u2 * u2 - q * (u1 * u1)
            && U(2 * n + 2, p, q) == p * (u2 * u2) - 2 * q * (u2 * u1)
  {
    var u1, u2 := U(n, p, q), U(n + 1, p, q);
    UAdd(n, n, p, q);
    Reassociate(q, u1, u1);
    UAdd(n, n + 1, p, q);
    assert U(n + 2, p, q) == p * u2 - q * u1;
    DoubleUp(p, q, u1, u2);
    if n > 0 {
      UAdd(n, n - 1, p, q);
      DoubleDown(p, q, u1, u2, U(n - 1, p, q));
    }
  }

  lemma DoubleUp(p: int, q: int, u1: int, u2: int)
    ensures u2 * (p * u2 - q * u1) - q * u1 * u2 == p * (u2 * u2) - 2 * q * (u2 * u1)
  {
    Distribute(u2, p * u2, q * u1);
    assert u2 * (p * u2) == p * (u2 * u2);
    assert u2 * (q * u1) == q * (u2 * u1);
    assert q * u1 * u2 == q * (u2 * u1);
  }

  lemma DoubleDown(p: int, q: int, u1: int, u2: int, u0: int)
    requires u2 == p * u1 - q * u0
    ensures u2 * u1 - q * u1 * u0 == 2 * (u2 * u1) - p * (u1 * u1)
  {
    assert q * u1 * u0 == (q * u0) * u1;
    Distribute(u1, p * u1, u2);
    assert u1 * (p * u1) == p * (u1 * u1);
  }

  // ----- The ladder -----

  /** The three values that a rung forms, modulo m. */
  lemma RungValues(m: int, p: int, q: int, n: nat, u1: int, u2: int)
    requires Congruent(m, u1, U(n, p, q)) && Congruent(m, u2, U(n + 1, p, q))
    ensures Congruent(m, 2 * (u2 * u1) + -p * (u1 * u1), U(2 * n, p, q))
    ensures Congruent(m, u2 * u2 + -q * (u1 * u1), U(2 * n + 1, p, q))
    ensures Congruent(m, p * (u2 * u2) + -2 * q * (u2 * u1), U(2 * n + 2, p, q))
  {
    var x1, x2 := U(n, p, q), U(n + 1, p, q);
    CongruentProduct(m, u2, x2, u1, x1);
    CongruentProduct(m, u2, x2, u2, x2);
    CongruentProduct(m, u1, x1, u1, x1);
    UDouble(n, p, q);
    RungCongruent(m, p, q, u2 * u1, x2 * x1, u2 * u2, x2 * x2, u1 * u1, x1 * x1);
  }

  lemma RungCongruent(m: int, p: int, q: int, c: int, c': int, s2: int, s2': int, s1: int, s1': int)
    requires Congruent(m, c, c') && Congruent(m, s2, s2') && Congruent(m, s1, s1')
    ensures Congruent(m, 2 * c + -p * s1, 2 * c' - p * s1')
    ensures Congruent(m, s2 + -q * s1, s2' - q * s1')
    ensures Congruent(m, p * s2 + -2 * q * c, p * s2' - 2 * q * c')
  {
    CongruentCombination(m, c, c', s1, s1', 2, -p);
    CongruentCombination(m, s2, s2', s1, s1', 1, -q);
    CongruentCombination(m, s2, s2', c, c', p, -2 * q);
    NegateProduct(p, s1');
    NegateProduct(q, s1');
    NegateProduct(2 * q, c');
  }

  /** One rung: from (U_n, U_(n+1)) to the pair at 2n or 2n + 1, truncated modulo m. */
  method Rung(u1: int, u2: int, bit: bool, m: int, p: int, q: int, ghost n: nat) returns (v1: int, v2: int)
    requires m > 0 && Congruent(m, u1, U(n, p, q)) && Congruent(m, u2, U(n + 1, p, q))
    ensures var k := if bit then 2 * n + 1 else 2 * n;
            Congruent(m, v1, U(k, p, q)) && Congruent(m, v2, U(k + 1, p, q))
  {
    RungValues(m, p, q, n, u1, u2);
    v1, v2 := RungStep(u1, u2, bit, m, p, q);
    if bit {
      CongruentTrans(m, v1, u2 * u2 + -q * (u1 * u1), U(2 * n + 1, p, q));
      CongruentTrans(m, v2, p * (u2 * u2) + -2 * q * (u2 * u1), U(2 * n + 2, p, q));
    } else {
      CongruentTrans(m, v1, 2 * (u2 * u1) + -p * (u1 * u1), U(2 * n, p, q));
      CongruentTrans(m, v2, u2 * u2 + -q * (u1 * u1), U(2 * n + 1, p, q));
    }
  }

  method RungStep(u1: int, u2: int, bit: bool, m: int, p: int, q: int) returns (v1: int, v2: int)
    requires m > 0
    ensures if bit then Congruent(m, v1, u2 * u2 + -q * (u1 * u1)) && Congruent(m, v2, p * (u2 * u2) + -2 * q * (u2 * u1))
            else Congruent(m, v1, 2 * (u2 * u1) + -p * (u1 * u1)) && Congruent(m, v2, u2 * u2 + -q * (u1 * u1))
  {
    var s1, s2 := Combine(u2 * u1, u2 * u2, u1 * u1, bit, p, q);
    v1 := Reduce(s1, m);
    v2 := Reduce(s2, m);
  }

  method Reduce(x: int, m: int) returns (r: int)
    requires m > 0
    ensures Congruent(m, r, x) && -m < r < m
  {
    r := TruncMod(x, m);
  }

  /** The next pair from the products of the current one, before reduction. */
  method Combine(cross: int, sq2: int, sq1: int, bit: bool, p: int, q: int) returns (s1: int, s2: int)
    ensures if bit then s1 == sq2 + -q * sq1 && s2 == p * sq2 + -2 * q * cross
            else s1 == 2 * cross + -p * sq1 && s2 == sq2 + -q * sq1
  {
    s1, s2 := sq1, sq2;
    if bit {
      s1 := s1 * q;
      s1 := s2 - s1;
      if p != 1 {
        s2 := s2 * p;
      }
      s2 := s2 + cross * (-2 * q);
    } else {
      s2 := s2 + s1 * -q;
      s1 := if p != 1 then 2 * cross - s1 * p else 2 * cross - s1;
    }
  }

  /** (u1, u2) are the pair of U at n, modulo m. */
  ghost predicate IsPair(u1: int, u2: int, n: nat, m: int, p: int, q: int) {
    Congruent(m, u1, U(n, p, q)) && Congruent(m, u2, U(n + 1, p, q))
  }

  lemma FirstPair(m: int, p: int, q: int)
    ensures IsPair(1, p, 1, m, p, q)
  {
    CongruentRefl(m, 1);
    CongruentRefl(m, p);
    assert U(2, p, q) == p * 1 - q * 0;
  }

  lemma LastPair(u1: int, u2: int, n: nat, m: int, p: int, q: int)
    requires IsPair(u1, u2, n, m, p, q)
    ensures Congruent(m, 2 * u2 - u1 * p, V(n, p, q))
  {
    VFromU(n, p, q);
    CongruentCombination(m, u2, U(n + 1, p, q), u1, U(n, p, q), 2, -p);
    NegateProduct(p, u1);
    NegateProduct(p, U(n, p, q));
  }

  /** Leaves a value congruent to V_e modulo m. */
  method FindLucasV(e: nat, m: int, p: nat, q: int) returns (v: int)
    requires e >= 1 && m > 0
    ensures Congruent(m, v, V(e, p, q))
  {
    var u1, u2: int := 1, p;
    var i := BitLength(e) - 2;
    Groups.TopBit(e);
    FirstPair(m, p, q);
    while i >= 0
      invariant -1 <= i
      invariant IsPair(u1, u2, e / Pow2(i + 1), m, p, q)
    {
      Groups.NextBit(e, i);
      u1, u2 := Rung(u1, u2, e / Pow2(i) % 2 == 1, m, p, q, e / Pow2(i + 1));
      i := i - 1;
    }
    assert Pow2(0) == 1;
    LastPair(u1, u2, e, m, p, q);
    v := 2 * u2 - u1 * p;
  }

  /** The Lucas V test for parameters (p, q): it passes exactly when V_(n+1) = 2q modulo n
      and 2q is in the range of the remainder it is compared with. */
  method IsVprp(n: int, p: nat, q: int) returns (res: bool)
    requires n > 0
    ensures res <==> Congruent(n, V(n + 1, p, q), 2 * q) && -n < 2 * q < n
    ensures Prime(n) && n % 2 == 1 && NonResidue(n, p * p - 4 * q) && -n < 2 * q < n ==> res
  {
    if Prime(n) && n % 2 == 1 && NonResidue(n, p * p - 4 * q) {
      PrimesPassLucasTest(n, p, q);
    }
    var v := FindLucasV(n + 1, n, p, q);
    var r := if q < 0 then -FloorMod(-v, n) else FloorMod(v, n);
    RemainderOf(n, v, r, q);
    res := r == 2 * q;
    CongruentIff(n, v, V(n + 1, p, q), 2 * q);
    CongruentIff(n, r, v, 2 * q);
    if -n < 2 * q < n {
      CongruentInRange(n, r, 2 * q);
    }
  }

  lemma RemainderOf(n: int, v: int, r: int, q: int)
    requires n > 0 && r == if q < 0 then -FloorMod(-v, n) else FloorMod(v, n)
    ensures Congruent(n, r, v) && if q < 0 then -n < r <= 0 else 0 <= r < n
  {
    if q < 0 {
      DividesCombination(n, -v - FloorMod(-v, n), 0 - 0, 1, 0) by {
        DividesBy(n, 0);
      }
    } else {
      CongruentSym(n, v, r);
    }
  }

  // ----- Miller-Rabin -----

  /** The position of the lowest set bit, not counting bit 0. */
  function LowestBit(n: nat): (s: nat)
    requires n >= 2
    ensures s >= 1 && n / Pow2(s) % 2 == 1 && (n - n % 2) == n / Pow2(s) * Pow2(s)
  {
    var h := n / 2;
    assert Pow2(1) == 2;
    if h % 2 == 1 then 1
    else
      var s := LowestBit(h);
      QuotientOfQuotient(n, 2, Pow2(s));
      Doubled(h / Pow2(s), Pow2(s));
      s + 1
  }

  lemma Doubled(q: int, p: int)
    ensures q * (2 * p) == 2 * (q * p)
  {
  }

  function Exponent(d: nat, r: nat): nat {
    ProductGrows(Pow2(r), d);
    Pow2(r) * d
  }

  /** b to the power of 2^r * d is -1 modulo n. */
  ghost predicate IsMinusOne(n: int, b: int, d: nat, r: nat) {
    Congruent(n, IntPow(b, Exponent(d, r)), -1)
  }

  ghost predicate PassesStrongTest(n: int, b: int, d: nat, s: nat) {
    Congruent(n, IntPow(b, d), 1) || exists r: nat :: r < s && IsMinusOne(n, b, d, r)
  }

  predicate Splits(n: int, d: nat, s: nat) {
    d % 2 == 1 && n - 1 == d * Pow2(s)
  }

  /** n is a strong probable prime to base b: with n - 1 = 2^s * d and d odd, the power d of
      b is 1, or one of its first s squares is -1. */
  ghost predicate StrongProbablePrime(n: int, b: int) {
    exists d: nat, s: nat :: Splits(n, d, s) && PassesStrongTest(n, b, d, s)
  }

  /** There is only one way to split off the powers of two. */
  lemma {:induction false} SplitUnique(d: nat, s: nat, d': nat, s': nat)
    requires d % 2 == 1 && d' % 2 == 1 && d * Pow2(s) == d' * Pow2(s')
    ensures d == d' && s == s'
    decreases s
  {
    SplitParity(d, s);
    SplitParity(d', s');
    if s > 0 {
      SplitUnique(d, s - 1, d', s' - 1);
    }
  }

  lemma SplitParity(d: nat, s: nat)
    requires d % 2 == 1
    ensures if s > 0 then d * Pow2(s) == 2 * (d * Pow2(s - 1)) else d * Pow2(s) == d
  {
    if s > 0 {
      Doubled(d, Pow2(s - 1));
    }
  }

  lemma SquareUp(n: int, b: int, d: nat, r: nat, x: int)
    requires Congruent(n, x, IntPow(b, Exponent(d, r)))
    ensures Congruent(n, x * x, IntPow(b, Exponent(d, r + 1)))
  {
    var e := Exponent(d, r);
    CongruentProduct(n, x, IntPow(b, e), x, IntPow(b, e));
    IntPowAdd(b, e, e);
    Doubled(d, Pow2(r));
    assert Exponent(d, r + 1) == e + e;
  }

  lemma MinusOneTest(n: int, b: int, d: nat, r: nat, x: int)
    requires n > 1 && 0 <= x < n && Congruent(n, x, IntPow(b, Exponent(d, r)))
    ensures x + 1 == n <==> IsMinusOne(n, b, d, r)
  {
    CongruentIff(n, x, IntPow(b, Exponent(d, r)), -1);
    if Congruent(n, x, -1) {
      var q :| x - -1 == q * n;
      Distribute(n, q, 1);
      SmallMultiple(n, q - 1);
    } else if x + 1 == n {
      DividesBy(n, 1);
    }
  }

  /** The strong test, for odd n and for 2. */
  method MillerRabin(n: int, b0: int) returns (res: bool)
    requires n >= 2 && (n % 2 == 1 || n == 2)
    ensures n > 2 ==> (res <==> StrongProbablePrime(n, b0))
    ensures n == 2 ==> (res <==> b0 % 2 == 1)
    ensures Prime(n) && !Divides(n, b0) ==> res
  {
    var odd, shift;
    res, odd, shift := StrongTest(n, b0);
    if n == 2 {
      assert shift == 1 && odd == 1;
      StrongTestOfTwo(b0);
    } else {
      if Prime(n) && !Divides(n, b0) {
        PrimesPassStrongTest(n, b0);
      }
      if StrongProbablePrime(n, b0) {
        var d: nat, s: nat :| Splits(n, d, s) && PassesStrongTest(n, b0, d, s);
        SplitUnique(d, s, odd, shift);
      }
    }
  }

  lemma StrongTestOfTwo(b: int)
    ensures PassesStrongTest(2, b, 1, 1) <==> b % 2 == 1
    ensures !Divides(2, b) <==> b % 2 == 1
  {
    assert IntPow(b, 1) == b * IntPow(b, 0) == b;
    assert Exponent(1, 0) == 1;
    NoRemainder(2, b);
    NoRemainder(2, b - 1);
    NoRemainder(2, b + 1);
  }

  lemma SplitOff(n: nat, d: nat, s: nat)
    requires n >= 2 && s == LowestBit(n) && d == n / Pow2(s)
    ensures s >= 1 && (n % 2 == 1 ==> Splits(n, d, s))
  {
  }

  method StrongTest(n: int, b0: int) returns (res: bool, d: nat, s: nat)
    requires n >= 2
    ensures s == LowestBit(n) && d == n / Pow2(s) && (n % 2 == 1 ==> Splits(n, d, s))
    ensures res <==> PassesStrongTest(n, b0, d, s)
  {
    var shift := LowestBit(n);
    var odd := n / Pow2(shift);
    SplitOff(n, odd, shift);
    d, s := odd, shift;
    var r: nat := 0;
    var b := ModularPower(b0, odd, n);
    CongruentIff(n, b, IntPow(b0, d), 1);
    CongruentInRange(n, b, 1);
    if b == 1 {
      return true, d, s;
    }
    assert Exponent(d, 0) == d;
    while true
      invariant 0 <= r < shift && 0 <= b < n
      invariant Congruent(n, b, IntPow(b0, Exponent(d, r)))
      invariant !Congruent(n, IntPow(b0, d), 1) && forall k: nat :: k < r ==> !IsMinusOne(n, b0, d, k)
      decreases shift - r
    {
      MinusOneTest(n, b0, d, r, b);
      b := b + 1;
      if b == n {
        return true, d, s;
      }
      r := r + 1;
      if r == shift {
        return false, d, s;
      }
      b := b - 1;
      SquareUp(n, b0, d, r - 1, b);
      var c := ModularPower(b, 2, n);
      SquareIs(b);
      CongruentTrans(n, c, b * b, IntPow(b0, Exponent(d, r)));
      b := c;
    }
  }

  method ModularPower(b: int, e: nat, n: nat) returns (r: int)
    requires n > 0
    ensures Congruent(n, r, IntPow(b, e)) && 0 <= r < n
  {
    r := FastPowMod(b, e, n);
    CongruentSym(n, IntPow(b, e), r);
  }

  lemma SquareIs(b: int)
    ensures IntPow(b, 2) == b * b
  {
    assert IntPow(b, 1) == b * IntPow(b, 0);
  }

  // ----- Primes pass the strong test -----

  lemma NoDivisor(n: int, b: int, e: nat)
    requires Prime(n) && !Divides(n, b) && e == n - 1
    ensures Congruent(n, IntPow(b, e), 1)
  {
    FermatUnit(n, b);
  }

  /** Going back from a power that is 1: the first square root that is not 1 is -1. */
  lemma {:induction false} RootsBack(n: int, b: int, d: nat, s: nat)
    requires Prime(n) && Congruent(n, IntPow(b, Exponent(d, s)), 1)
    ensures PassesStrongTest(n, b, d, s)
    decreases s
  {
    if s == 0 {
      assert Exponent(d, 0) == d;
    } else {
      var x := IntPow(b, Exponent(d, s - 1));
      CongruentRefl(n, x);
      SquareUp(n, b, d, s - 1, x);
      CongruentTrans(n, x * x, IntPow(b, Exponent(d, s)), 1);
      RootsOfOne(n, x);
      if Congruent(n, x, 1) {
        RootsBack(n, b, d, s - 1);
      } else {
        assert IsMinusOne(n, b, d, s - 1);
      }
    }
  }

  /** Every odd prime is a strong probable prime to every base that it does not divide. */
  lemma PrimesPassStrongTest(n: int, b: int)
    requires Prime(n) && n % 2 == 1 && !Divides(n, b)
    ensures StrongProbablePrime(n, b)
  {
    var s := LowestBit(n);
    var d := n / Pow2(s);
    assert n % 2 == 1 && n - 1 == d * Pow2(s);
    assert Splits(n, d, s);
    NoDivisor(n, b, Exponent(d, s));
    RootsBack(n, b, d, s);
  }

  // ----- Primes pass the Lucas test -----

  /** The i-th coefficient of the n-th power of p + x. */
  function Term(n: nat, p: int, i: nat): int {
    if i > n then 0 else Choose(n, i) * IntPow(p, n - i)
  }

  lemma TermStep(n: nat, p: int, i: nat)
    ensures Term(n + 1, p, i + 1) == p * Term(n, p, i + 1) + Term(n, p, i)
  {
    ChooseAbove(n, n + 1);
    if i < n {
      var y := IntPow(p, n - i - 1);
      assert IntPow(p, n - i) == p * y;
      Distribute(IntPow(p, n - i), Choose(n, i), Choose(n, i + 1));
      Swap(p, Choose(n, i + 1), y);
    }
  }

  /** The first k terms of the n-th power of p + sqrt(d): the rational part. */
  function Rational(n: nat, p: int, d: int, k: nat): int {
    if k == 0 then 0
    else Rational(n, p, d, k - 1) + if k % 2 == 1 then Term(n, p, k - 1) * IntPow(d, (k - 1) / 2) else 0
  }

  /** The same, the multiple of sqrt(d). */
  function Surd(n: nat, p: int, d: int, k: nat): int {
    if k == 0 then 0
    else Surd(n, p, d, k - 1) + if k % 2 == 0 then Term(n, p, k - 1) * IntPow(d, (k - 1) / 2) else 0
  }

  lemma {:induction false} SurdStep(n: nat, p: int, d: int, k: nat)
    ensures Rational(n + 1, p, d, k + 1) == p * Rational(n, p, d, k + 1) + d * Surd(n, p, d, k)
    ensures Surd(n + 1, p, d, k + 1) == p * Surd(n, p, d, k + 1) + Rational(n, p, d, k)
    decreases k
  {
    if k == 0 {
      SurdStart(n, p, d);
    } else {
      SurdStep(n, p, d, k - 1);
      TermStep(n, p, k - 1);
      if k % 2 == 0 {
        assert k / 2 == (k - 1) / 2 + 1 && IntPow(d, k / 2) == d * IntPow(d, (k - 1) / 2);
        AddedTerm(p, d, Term(n, p, k), Term(n, p, k - 1), IntPow(d, (k - 1) / 2),
                  Rational(n, p, d, k), Surd(n, p, d, k - 1));
      } else {
        AddedTerm(p, 1, Term(n, p, k), Term(n, p, k - 1), IntPow(d, k / 2), Surd(n, p, d, k), Rational(n, p, d, k - 1));
      }
    }
  }

  lemma SurdStart(n: nat, p: int, d: int)
    ensures Rational(n + 1, p, d, 1) == p * Rational(n, p, d, 1) + d * Surd(n, p, d, 0)
    ensures Surd(n + 1, p, d, 1) == p * Surd(n, p, d, 1) + Rational(n, p, d, 0)
  {
    assert Rational(n + 1, p, d, 0) == 0 && Rational(n, p, d, 0) == 0;
    assert Surd(n + 1, p, d, 0) == 0 && Surd(n, p, d, 0) == 0;
    assert Term(n + 1, p, 0) == IntPow(p, n + 1) && Term(n, p, 0) == IntPow(p, n) && IntPow(d, 0) == 1;
  }

  lemma AddedTerm(p: int, d: int, t1: int, t0: int, y: int, r: int, s: int)
    ensures p * r + d * s + (p * t1 + t0) * (d * y) == p * (r + t1 * (d * y)) + d * (s + t0 * y)
  {
    Distribute(p, r, t1 * (d * y));
    Distribute(d, s, t0 * y);
    Distribute(d * y, p * t1, t0);
    Reassociate(p, t1, d * y);
    Swap(t0, d, y);
  }

  /** The whole power steps like multiplication by p + sqrt(d). */
  lemma SurdPower(n: nat, p: int, d: int)
    ensures Rational(n + 1, p, d, n + 2) == p * Rational(n, p, d, n + 1) + d * Surd(n, p, d, n + 1)
    ensures Surd(n + 1, p, d, n + 2) == p * Surd(n, p, d, n + 1) + Rational(n, p, d, n + 1)
  {
    SurdStep(n, p, d, n + 1);
    assert Term(n, p, n + 1) == 0;
    assert Rational(n, p, d, n + 2) == Rational(n, p, d, n + 1);
    assert Surd(n, p, d, n + 2) == Surd(n, p, d, n + 1);
  }

  /** U and V together step in the same way, up to a factor of 2. */
  lemma LucasStep(n: nat, p: int, q: int, d: int)
    requires d == p * p - 4 * q
    ensures 2 * V(n + 1, p, q) == p * V(n, p, q) + d * U(n, p, q)
    ensures 2 * U(n + 1, p, q) == p * U(n, p, q) + V(n, p, q)
  {
    VFromU(n, p, q);
    VFromU(n + 1, p, q);
    URecurrence(n + 2, p, q);
    LucasStepOf(p, q, d, U(n, p, q), U(n + 1, p, q));
  }

  lemma LucasStepOf(p: int, q: int, d: int, u0: int, u1: int)
    requires d == p * p - 4 * q
    ensures 2 * (2 * (p * u1 - q * u0) - p * u1) == p * (2 * u1 - p * u0) + d * u0
  {
    Distribute(p, 2 * u1, p * u0);
    Distribute(u0, p * p, 4 * q);
    Reassociate(p, p, u0);
    Reassociate(4, q, u0);
    Swap(p, 2, u1);
  }

  /** The n-th power of p + sqrt(d), doubled, is 2^n times V_n + U_n*sqrt(d). */
  lemma {:induction false} SurdIsLucas(n: nat, p: int, q: int, d: int)
    requires d == p * p - 4 * q
    ensures 2 * Rational(n, p, d, n + 1) == IntPow(2, n) * V(n, p, q)
    ensures 2 * Surd(n, p, d, n + 1) == IntPow(2, n) * U(n, p, q)
  {
    if n == 0 {
      assert Term(0, p, 0) == IntPow(p, 0) * Choose(0, 0) == 1 && IntPow(d, 0) == 1 && IntPow(2, 0) == 1;
      assert Rational(0, p, d, 0) == 0 && Surd(0, p, d, 0) == 0;
    } else {
      SurdIsLucas(n - 1, p, q, d);
      SurdPower(n - 1, p, d);
      LucasStep(n - 1, p, q, d);
      var y := IntPow(2, n - 1);
      Doubling(p, d, y, V(n - 1, p, q), U(n - 1, p, q), Rational(n - 1, p, d, n), Surd(n - 1, p, d, n), V(n, p, q));
      Doubling(p, 1, y, U(n - 1, p, q), V(n - 1, p, q), Surd(n - 1, p, d, n), Rational(n - 1, p, d, n), U(n, p, q));
    }
  }

  lemma Doubling(p: int, d: int, y: int, v: int, u: int, r: int, s: int, w: int)
    requires 2 * r == y * v && 2 * s == y * u && 2 * w == p * v + d * u
    ensures 2 * (p * r + d * s) == 2 * y * w
  {
    Swap(2, p, r);
    Swap(2, d, s);
    Swap(p, y, v);
    Swap(d, y, u);
    Distribute(y, p * v, d * u);
    Swap(2, y, w);
    Reassociate(2, y, w);
  }

  /** Modulo a prime only the outermost terms count. */
  lemma {:induction false} InnerTerms(n: int, p: int, d: int, k: nat)
    requires Prime(n) && 1 <= k <= n
    ensures Congruent(n, Rational(n, p, d, k), IntPow(p, n)) && Divides(n, Surd(n, p, d, k))
    decreases k
  {
    if k == 1 {
      assert Term(n, p, 0) == IntPow(p, n) && IntPow(d, 0) == 1;
      assert Rational(n, p, d, 0) == 0 && Surd(n, p, d, 0) == 0;
      CongruentRefl(n, IntPow(p, n));
      DividesBy(n, 0);
    } else {
      InnerTerms(n, p, d, k - 1);
      PrimeDividesChoose(n, k - 1);
      InnerTerm(n, Choose(n, k - 1), IntPow(p, n - (k - 1)), IntPow(d, (k - 1) / 2));
      DividesCombination(n, Rational(n, p, d, k - 1) - IntPow(p, n), Term(n, p, k - 1) * IntPow(d, (k - 1) / 2), 1, 1);
      DividesCombination(n, Surd(n, p, d, k - 1), Term(n, p, k - 1) * IntPow(d, (k - 1) / 2), 1, 1);
    }
  }

  lemma InnerTerm(n: int, c: int, x: int, y: int)
    requires Divides(n, c)
    ensures Divides(n, (c * x) * y)
  {
    DividesCombination(n, c, c, x * y, 0);
    Reassociate(c, x, y);
  }

  /** The n-th power of p + sqrt(d) modulo an odd prime n is p + d^((n-1)/2)*sqrt(d). */
  lemma PrimePower(n: int, p: int, d: int)
    requires Prime(n) && n % 2 == 1
    ensures Congruent(n, Rational(n, p, d, n + 1), p)
    ensures Congruent(n, Surd(n, p, d, n + 1), IntPow(d, (n - 1) / 2))
  {
    InnerTerms(n, p, d, n);
    ChooseAll(n);
    assert n / 2 == (n - 1) / 2 && Term(n, p, n) == Choose(n, n) * IntPow(p, 0) == 1;
    Fermat(n, p);
    CongruentTrans(n, Rational(n, p, d, n), IntPow(p, n), p);
  }

  /** A doubled congruence can be halved. */
  lemma Halve(n: int, x: int, y: int)
    requires Prime(n) && n % 2 == 1 && Congruent(n, 2 * x, 2 * y)
    ensures Congruent(n, x, y)
  {
    PrimeDividesFactor(n, 2, x - y);
    if Divides(n, 2) {
      DivisorIsSmaller(n, 2);
    }
  }

  lemma HalveTwice(n: int, r: int, x: int, y: int, v: int)
    requires Prime(n) && n % 2 == 1 && Congruent(n, r, x) && 2 * r == y * v && Congruent(n, y, 2)
    ensures Congruent(n, v, x)
  {
    CongruentRefl(n, v);
    CongruentProduct(n, y, 2, v, v);
    CongruentSym(n, y * v, 2 * v);
    CongruentProduct(n, r, x, 2, 2) by {
      CongruentRefl(n, 2);
    }
    CongruentTrans(n, 2 * v, r * 2, x * 2);
    Halve(n, v, x);
  }

  /** V_n = p and U_n = d^((n-1)/2) modulo an odd prime n. */
  lemma LucasAtPrime(n: int, p: int, q: int, d: int)
    requires Prime(n) && n % 2 == 1 && d == p * p - 4 * q
    ensures Congruent(n, V(n, p, q), p) && Congruent(n, U(n, p, q), IntPow(d, (n - 1) / 2))
  {
    SurdIsLucas(n, p, q, d);
    PrimePower(n, p, d);
    Fermat(n, 2);
    HalveTwice(n, Rational(n, p, d, n + 1), p, IntPow(2, n), V(n, p, q));
    HalveTwice(n, Surd(n, p, d, n + 1), IntPow(d, (n - 1) / 2), IntPow(2, n), U(n, p, q));
  }

  /** Euler's criterion for a non-residue. */
  ghost predicate NonResidue(n: int, d: int) {
    n >= 1 && Congruent(n, IntPow(d, (n - 1) / 2), -1)
  }

  /** Every odd prime for which p*p - 4*q is not a residue meets the condition of the
      Lucas test. */
  lemma PrimesPassLucasTest(n: int, p: int, q: int)
    requires Prime(n) && n % 2 == 1 && NonResidue(n, p * p - 4 * q)
    ensures Congruent(n, V(n + 1, p, q), 2 * q)
  {
    var d := p * p - 4 * q;
    LucasAtPrime(n, p, q, d);
    LucasStep(n, p, q, d);
    CongruentTrans(n, U(n, p, q), IntPow(d, (n - 1) / 2), -1);
    CongruentCombination(n, V(n, p, q), p, U(n, p, q), -1, p, d);
    assert p * p + d * -1 == 2 * (2 * q);
    Halve(n, V(n + 1, p, q), 2 * q);
  }

}
