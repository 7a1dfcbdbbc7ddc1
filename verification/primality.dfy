/** The strengthened Baillie-PSW test: trial division by products of primes, one strong test
    to base 2 and the Lucas V test. */
module Primality {
  import opened Integers
  import opened Congruences
  import opened Primes
  import opened Lucas
  import opened Wrappers

  const VPRP_MAX_D := 1000
  const MIN_PRODUCTS := 5
  const FULL_LIMBS := 16

  // ----- The parameters of the Lucas test -----

  /** The discriminants in the order they are tried: 5, -7, 9, -11, ... */
  function Candidate(k: nat): int {
    var m := 5 + 2 * k;
    if m % 4 == 1 then m else -m
  }

  function Parameters(d: int): (nat, int) {
    if d == 5 then (5, 5) else (1, (1 - d) / 4)
  }

  lemma ParametersOfCandidate(k: nat)
    ensures Abs(Candidate(k)) == 5 + 2 * k && Candidate(k) % 4 == 1
    ensures var (p, q) := Parameters(Candidate(k));
            p * p - 4 * q == Candidate(k) && p == if k == 0 then 5 else 1
  {
    CandidateIsOne(5 + 2 * k, 2 + k);
  }

  lemma CandidateIsOne(m: int, h: nat)
    requires m == 2 * h + 1
    ensures m % 4 != 1 ==> (1 + m) % 4 == 0
    ensures m % 4 == 1 ==> (1 - m) % 4 == 0
    ensures m % 4 != 1 ==> -m % 4 == 1
  {
    if h % 2 == 0 {
      QuotientIs(m, 4, h / 2, 1);
      Quotient(-(h / 2), 4);
    } else {
      QuotientIs(m, 4, h / 2, 3);
      Quotient(h / 2 + 1, 4);
    }
  }

  /** Candidate k is the first one in reach that is not a residue. */
  ghost predicate FirstNonResidue(jacobi: int -> int, k: nat) {
    && 5 + 2 * k < VPRP_MAX_D
    && jacobi(Candidate(k)) == -1
    && forall i: nat :: i < k ==> jacobi(Candidate(i)) != -1
  }

  method FindPQ(jacobi: int -> int) returns (r: Option<(nat, int)>)
    ensures r.Some? <==> exists k: nat :: FirstNonResidue(jacobi, k)
    ensures forall k: nat :: FirstNonResidue(jacobi, k) ==> r == Some(Parameters(Candidate(k)))
  {
    var d := 5;
    ghost var k: nat := 0;
    while d < VPRP_MAX_D
      invariant d == 5 + 2 * k
      invariant forall i: nat :: i < k ==> jacobi(Candidate(i)) != -1
    {
      d := if d % 4 == 1 then d else -d;
      if jacobi(d) == -1 {
        assert FirstNonResidue(jacobi, k);
        return Some(if d == 5 then (5, 5) else (1, (1 - d) / 4));
      }
      d := Abs(d) + 2;
      k := k + 1;
    }
    return None;
  }

  // ----- The test -----

  /** How many products are tried, by the size of n. */
  function Tried(limbs: nat, total: nat): (count: nat)
    requires total >= MIN_PRODUCTS
    ensures MIN_PRODUCTS <= count <= total
  {
    if limbs >= FULL_LIMBS then
      total
    else
      var cube := limbs * limbs * limbs;
      CubeBelow(limbs, total - MIN_PRODUCTS);
      MIN_PRODUCTS + (total - MIN_PRODUCTS) * cube / (FULL_LIMBS * FULL_LIMBS * FULL_LIMBS)
  }

  /** Five products for the smallest numbers, all of them from 16 limbs on, and between the two
      the share of the remaining ones that grows with the third power of the size. */
  lemma TriedExamples(total: nat)
    requires total >= MIN_PRODUCTS
    ensures Tried(0, total) == 5
    ensures forall limbs: nat :: limbs >= 16 ==> Tried(limbs, total) == total
    ensures Tried(8, total) == 5 + (total - 5) / 8
  {
    var rest := total - 5;
    assert Tried(8, total) == 5 + rest * 512 / 4096;
    assert rest == rest / 8 * 8 + rest % 8;
    QuotientIs(rest * 512, 4096, rest / 8, rest % 8 * 512);
  }

  lemma CubeBelow(x: nat, rest: nat)
    requires x < FULL_LIMBS
    ensures x * x * x >= 0 && 0 <= rest * (x * x * x) / (FULL_LIMBS * FULL_LIMBS * FULL_LIMBS) <= rest
  {
    var all := FULL_LIMBS * FULL_LIMBS * FULL_LIMBS;
    ProductGrows(x, x);
    ProductMonotone(x, x, FULL_LIMBS);
    ProductGrows(x * x, x);
    ProductMonotone(x * x, x, FULL_LIMBS);
    ProductMonotone(rest, x * x * x, all);
    ProductGrows(rest, x * x * x);
    Quotient(rest, all);
  }

  ghost predicate Untouched(n: int, products: seq<nat>, count: nat)
    requires count <= |products|
  {
    forall i: nat :: i < count ==> Coprime(n, products[i])
  }

  /** n passes the Lucas test for the first non-residue. */
  ghost predicate PassesLucas(n: int, jacobi: int -> int) {
    exists k: nat :: FirstNonResidue(jacobi, k) && MeetsLucas(n, Parameters(Candidate(k)))
  }

  ghost predicate MeetsLucas(n: int, pq: (nat, int)) {
    n >= 0 && Congruent(n, V(n + 1, pq.0, pq.1), 2 * pq.1) && -n < 2 * pq.1 < n
  }

  /** The Jacobi symbol of the library tells non-residues modulo a prime. */
  ghost predicate SoundSymbol(n: int, jacobi: int -> int) {
    forall d :: jacobi(d) == -1 ==> NonResidue(n, d)
  }

  method LucasTest(n: int, jacobi: int -> int) returns (res: bool)
    requires n > 0
    ensures res <==> PassesLucas(n, jacobi)
  {
    var pq := FindPQ(jacobi);
    if pq.None? {
      return false;
    }
    ghost var k: nat :| FirstNonResidue(jacobi, k);
    res := IsVprp(n, pq.value.0, pq.value.1);
    assert res <==> MeetsLucas(n, Parameters(Candidate(k)));
  }

  method TrialDivision(n: int, products: seq<nat>, count: nat) returns (untouched: bool)
    requires count <= |products| && n > 0
    ensures untouched <==> Untouched(n, products, count)
  {
    for i := 0 to count
      invariant Untouched(n, products, i)
    {
      var r := ExtendedGcd(n, products[i]);
      CoprimeIffUnit(n, products[i], r);
      if r.gcd != 1 {
        return false;
      }
    }
    return true;
  }

  lemma CoprimeIffUnit(a: int, b: int, r: GcdRes)
    requires IsGcd(r, a, b)
    ensures r.gcd == 1 <==> Coprime(a, b)
  {
    if Coprime(a, b) {
      var s, t :| s * a + t * b == 1;
      DividesCombination(r.gcd, a, b, s, t);
      var q :| 1 == q * r.gcd;
      UnitProduct(q, r.gcd);
    }
    if r.gcd == 1 {
      assert r.s * a + r.t * b == 1;
    }
  }

  /** The whole test. It is the conjunction of its three parts, and misses a prime only if
      the prime is one of those in the products, if none of the discriminants is a
      non-residue, or if 2q is out of range. The prime 2 is always missed. */
  method IsPrimeBpsw(n: nat, limbs: nat, products: seq<nat>, jacobi: int -> int) returns (res: bool)
    requires n >= 2 && |products| >= MIN_PRODUCTS
    ensures n > 2 ==>
              (res <==> n % 2 == 1 && Untouched(n, products, Tried(limbs, |products|)) &&
                        StrongProbablePrime(n, 2) && PassesLucas(n, jacobi))
    ensures n == 2 ==> !res
    ensures Prime(n) && n > 2 && SoundSymbol(n, jacobi) ==>
              (res <==> !InProducts(n, products, Tried(limbs, |products|)) && HasParameters(n, jacobi))
  {
    if Prime(n) && n > 2 && SoundSymbol(n, jacobi) {
      PrimeIsMissed(n, products, Tried(limbs, |products|), jacobi);
    }
    if n % 2 == 0 && n != 2 {
      return false;
    }
    var untouched := TrialDivision(n, products, Tried(limbs, |products|));
    if !untouched {
      return false;
    }
    res := MillerRabin(n, 2);
    if res {
      res := LucasTest(n, jacobi);
    }
  }

  /** n divides one of the products tried. */
  ghost predicate InProducts(n: int, products: seq<nat>, count: nat)
    requires count <= |products|
  {
    exists i: nat :: i < count && Divides(n, products[i])
  }

  /** A non-residue is in reach, and its 2q is in the range of a remainder. */
  ghost predicate HasParameters(n: int, jacobi: int -> int) {
    exists k: nat :: FirstNonResidue(jacobi, k) && -n < 2 * Parameters(Candidate(k)).1 < n
  }

  lemma PrimeIsMissed(n: int, products: seq<nat>, count: nat, jacobi: int -> int)
    requires Prime(n) && n > 2 && SoundSymbol(n, jacobi) && count <= |products|
    ensures n % 2 == 1 && StrongProbablePrime(n, 2)
    ensures Untouched(n, products, count) <==> !InProducts(n, products, count)
    ensures PassesLucas(n, jacobi) <==> HasParameters(n, jacobi)
  {
    OddPrime(n);
    PrimesPassStrongTest(n, 2);
    forall i: nat | i < count
      ensures Coprime(n, products[i]) <==> !Divides(n, products[i])
    {
      CoprimeToPrime(n, products[i]);
    }
    forall k: nat | FirstNonResidue(jacobi, k)
      ensures MeetsLucas(n, Parameters(Candidate(k))) <==> -n < 2 * Parameters(Candidate(k)).1 < n
    {
      ParametersOfCandidate(k);
      PrimesPassLucasTest(n, Parameters(Candidate(k)).0, Parameters(Candidate(k)).1);
    }
  }

  lemma OddPrime(n: int)
    requires Prime(n) && n > 2
    ensures n % 2 == 1 && !Divides(n, 2)
  {
    if n % 2 == 0 {
      assert n == n / 2 * 2;
      DividesBy(2, n / 2);
    }
    if Divides(n, 2) {
      DivisorIsSmaller(n, 2);
    }
  }

  lemma CoprimeToPrime(n: int, x: int)
    requires Prime(n)
    ensures Coprime(n, x) <==> !Divides(n, x)
  {
    var r := SomeGcd(n, x);
    CoprimeIffUnit(n, x, r);
    assert r.gcd == 1 || r.gcd == n;
    if Divides(n, x) && r.gcd == 1 {
      DividesBy(n, 1);
      GcdIsGreatest(r, n, x, n);
      DivisorIsSmaller(n, 1);
    }
  }

}
