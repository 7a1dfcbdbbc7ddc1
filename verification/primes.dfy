/** Primes, the part of a number that is coprime to another, and Fermat's theorem. */
module Primes {
  import opened Integers
  import opened Congruences

  ghost predicate Prime(p: int) {
    p > 1 && forall d :: d >= 1 && Divides(d, p) ==> d == 1 || d == p
  }

  lemma DivisorIsSmaller(d: int, n: int)
    requires d > 0 && n > 0 && Divides(d, n)
    ensures d <= n
  {
    var q :| n == q * d;
    PositiveFactor(d, q);
    ProductGrows(q, d);
  }

  lemma {:induction false} PrimeDivisor(n: int) returns (p: int)
    requires n > 1
    ensures Prime(p) && Divides(p, n)
    decreases n
  {
    if Prime(n) {
      DividesBy(n, 1);
      p := n;
    } else {
      var d :| d >= 1 && Divides(d, n) && d != 1 && d != n;
      DivisorIsSmaller(d, n);
      p := PrimeDivisor(d);
      DividesTransitive(p, d, n);
    }
  }

  /** Numbers without a common prime divisor are coprime. */
  lemma NoCommonPrime(a: int, b: int)
    requires a != 0 && forall p :: Prime(p) && Divides(p, a) ==> !Divides(p, b)
    ensures Coprime(a, b)
  {
    var r := SomeGcd(a, b);
    if r.gcd > 1 {
      var p := PrimeDivisor(r.gcd);
      DividesTransitive(p, r.gcd, a);
      DividesTransitive(p, r.gcd, b);
      assert false;
    }
    assert r.s * a + r.t * b == 1;
  }

  lemma CoprimeHaveNoPrime(p: int, a: int, b: int)
    requires Prime(p) && Coprime(a, b) && Divides(p, a)
    ensures !Divides(p, b)
  {
    if Divides(p, b) {
      var s, t :| s * a + t * b == 1;
      DividesCombination(p, a, b, s, t);
      DivisorIsSmaller(p, 1);
    }
  }

  lemma CoprimeSym(a: int, b: int)
    requires Coprime(a, b)
    ensures Coprime(b, a)
  {
    var s, t :| s * a + t * b == 1;
    assert t * b + s * a == 1;
  }

  /** Euclid's lemma. */
  lemma PrimeDividesFactor(p: int, x: int, y: int)
    requires Prime(p) && Divides(p, x * y)
    ensures Divides(p, x) || Divides(p, y)
  {
    var r := SomeGcd(p, x);
    assert r.gcd == 1 || r.gcd == p;
    if r.gcd == 1 {
      assert r.s * p + r.t * x == 1;
      CoprimeDivides(p, x, y);
    }
  }

  // ----- The part of n that is coprime to a -----

  lemma Shrinks(n: int, g: int)
    requires n > 0 && g > 1 && Divides(g, n)
    ensures 0 < n / g < n && n == g * (n / g)
  {
    NoRemainder(g, n);
    assert n == n / g * g;
    PositiveFactor(g, n / g);
    ProductGrows(g - 1, n / g);
    Distribute(n / g, g, 1);
  }

  /** Dividing by the gcd with a loses no primes but those of a. */
  lemma FreeOfFactor(n: int, a: int, r: GcdRes, m: int, p: int)
    requires Prime(p) && IsGcd(r, n, a) && n == r.gcd * m
    ensures Divides(p, n) && !Divides(p, a) <==> Divides(p, m) && !Divides(p, a)
  {
    if Divides(p, m) {
      DividesBy(m, r.gcd);
      DividesTransitive(p, m, n);
    }
    if Divides(p, n) {
      PrimeDividesFactor(p, r.gcd, m);
      if Divides(p, r.gcd) {
        DividesTransitive(p, r.gcd, a);
      }
    }
  }

  lemma FreeOfUnit(n: int, a: int, r: GcdRes, p: int)
    requires Prime(p) && IsGcd(r, n, a) && r.gcd == 1
    ensures Divides(p, n) ==> !Divides(p, a)
  {
    assert r.s * n + r.t * a == 1;
    if Divides(p, n) {
      CoprimeHaveNoPrime(p, n, a);
    }
  }

  /** r has exactly those primes of n that a does not have. */
  ghost predicate FreePart(r: int, n: int, a: int) {
    r > 0 && forall p :: Prime(p) ==> (Divides(p, r) <==> Divides(p, n) && !Divides(p, a))
  }

  lemma {:induction false} FindFreePart(n: int, a: int) returns (r: int)
    requires n > 0
    ensures FreePart(r, n, a)
    decreases n
  {
    var g := SomeGcd(n, a);
    if g.gcd <= 1 {
      r := n;
      forall p | Prime(p)
        ensures Divides(p, n) ==> !Divides(p, a)
      {
        FreeOfUnit(n, a, g, p);
      }
    } else {
      Shrinks(n, g.gcd);
      r := FindFreePart(n / g.gcd, a);
      forall p | Prime(p)
        ensures Divides(p, r) <==> Divides(p, n) && !Divides(p, a)
      {
        FreeOfFactor(n, a, g, n / g.gcd, p);
      }
    }
  }

  /** r has exactly those primes of n that a has as well, but c does not. */
  ghost predicate SharedPart(r: int, n: int, a: int, c: int) {
    r > 0 && forall p :: Prime(p) ==> (Divides(p, r) <==> Divides(p, n) && Divides(p, a) && !Divides(p, c))
  }

  lemma FindSharedPart(n: int, a: int, c: int) returns (r: int)
    requires n > 0
    ensures SharedPart(r, n, a, c)
  {
    var q := FindFreePart(n, a);
    var s := FindFreePart(n, q);
    r := FindFreePart(s, c);
    forall p | Prime(p)
      ensures Divides(p, r) <==> Divides(p, n) && Divides(p, a) && !Divides(p, c)
    {
      assert Divides(p, q) <==> Divides(p, n) && !Divides(p, a);
      assert Divides(p, s) <==> Divides(p, n) && !Divides(p, q);
      assert Divides(p, r) <==> Divides(p, s) && !Divides(p, c);
    }
  }

  // ----- Fermat's theorem -----

  /** The binomial coefficients. */
  function Choose(n: nat, k: nat): nat {
    if k == 0 then 1 else if n == 0 then 0 else Choose(n - 1, k - 1) + Choose(n - 1, k)
  }

  lemma {:induction false} ChooseAbove(n: nat, k: nat)
    requires k > n
    ensures Choose(n, k) == 0
  {
    if n > 0 {
      ChooseAbove(n - 1, k - 1);
      ChooseAbove(n - 1, k);
    }
  }

  lemma {:induction false} ChooseAll(n: nat)
    ensures Choose(n, n) == 1
  {
    if n > 0 {
      ChooseAll(n - 1);
      ChooseAbove(n - 1, n);
    }
  }

  lemma {:induction false} Absorb(n: nat, k: nat)
    requires n >= 1 && k >= 1
    ensures k * Choose(n, k) == n * Choose(n - 1, k - 1)
    decreases n
  {
    if n == 1 {
      if k > 1 {
        ChooseAbove(1, k);
        ChooseAbove(0, k - 1);
      }
    } else if k == 1 {
      Absorb(n - 1, 1);
      assert Choose(n, 1) == Choose(n - 1, 0) + Choose(n - 1, 1);
    } else {
      Absorb(n - 1, k);
      Absorb(n - 1, k - 1);
      AbsorbStep(n, k, Choose(n - 1, k - 1), Choose(n - 1, k), Choose(n - 2, k - 1), Choose(n - 2, k - 2));
    }
  }

  lemma AbsorbStep(n: int, k: int, c: int, d: int, x: int, y: int)
    requires k * d == (n - 1) * x && (k - 1) * c == (n - 1) * y && c == y + x
    ensures k * (c + d) == n * c
  {
    Distribute(k, c, d);
    Distribute(c, k, 1);
    Distribute(n - 1, y, x);
    Distribute(c, n, 1);
  }

  /** A prime divides all its binomial coefficients but the outermost. */
  lemma PrimeDividesChoose(p: int, k: nat)
    requires Prime(p) && 1 <= k < p
    ensures Divides(p, Choose(p, k))
  {
    Absorb(p, k);
    DividesBy(p, Choose(p - 1, k - 1));
    PrimeDividesFactor(p, k, Choose(p, k));
    if Divides(p, k) {
      DivisorIsSmaller(p, k);
    }
  }

  /** The first k terms of the expansion of the n-th power of 1 + x. */
  function Expansion(n: nat, x: int, k: nat): int {
    if k == 0 then 0 else Expansion(n, x, k - 1) + Choose(n, k - 1) * IntPow(x, k - 1)
  }

  lemma {:induction false} ExpansionStep(n: nat, x: int, k: nat)
    ensures Expansion(n + 1, x, k + 1) == Expansion(n, x, k + 1) + x * Expansion(n, x, k)
    decreases k
  {
    if k == 0 {
      assert Expansion(n + 1, x, 1) == Expansion(n + 1, x, 0) + Choose(n + 1, 0) * IntPow(x, 0) == 1;
      assert Expansion(n, x, 1) == Expansion(n, x, 0) + Choose(n, 0) * IntPow(x, 0) == 1;
    } else {
      ExpansionStep(n, x, k - 1);
      var y := IntPow(x, k - 1);
      Distribute(x * y, Choose(n, k - 1), Choose(n, k));
      Distribute(x, Expansion(n, x, k - 1), Choose(n, k - 1) * y);
      Swap(x, Choose(n, k - 1), y);
    }
  }

  /** The binomial theorem. */
  lemma {:induction false} Binomial(n: nat, x: int)
    ensures IntPow(1 + x, n) == Expansion(n, x, n + 1)
  {
    if n == 0 {
      assert Expansion(0, x, 1) == Expansion(0, x, 0) + Choose(0, 0) * IntPow(x, 0) == 1;
    } else {
      Binomial(n - 1, x);
      ExpansionStep(n - 1, x, n);
      ChooseAbove(n - 1, n);
      Distribute(Expansion(n - 1, x, n), 1, x);
    }
  }

  lemma {:induction false} InnerTermsVanish(p: int, x: int, k: nat)
    requires Prime(p) && 1 <= k <= p
    ensures Congruent(p, Expansion(p, x, k), 1)
    decreases k
  {
    if k == 1 {
      assert Expansion(p, x, 1) == Expansion(p, x, 0) + Choose(p, 0) * IntPow(x, 0) == 1;
      CongruentRefl(p, 1);
    } else {
      InnerTermsVanish(p, x, k - 1);
      PrimeDividesChoose(p, k - 1);
      DividesCombination(p, Expansion(p, x, k - 1) - 1, Choose(p, k - 1), 1, IntPow(x, k - 1));
    }
  }

  /** The p-th power is additive modulo p. */
  lemma PowerOfSuccessor(p: int, x: int)
    requires Prime(p)
    ensures Congruent(p, IntPow(1 + x, p), 1 + IntPow(x, p))
  {
    Binomial(p, x);
    InnerTermsVanish(p, x, p);
    ChooseAll(p);
    DividesCombination(p, Expansion(p, x, p) - 1, 0 * p, 1, 0);
  }

  lemma {:induction false} FermatNat(p: int, x: nat)
    requires Prime(p)
    ensures Congruent(p, IntPow(x, p), x)
  {
    if x == 0 {
      CongruentRefl(p, 0);
    } else {
      FermatNat(p, x - 1);
      PowerOfSuccessor(p, x - 1);
      DividesCombination(p, IntPow(x, p) - (1 + IntPow(x - 1, p)), IntPow(x - 1, p) - (x - 1), 1, 1);
    }
  }

  lemma {:induction false} CongruentPower(m: int, x: int, y: int, n: nat)
    requires Congruent(m, x, y)
    ensures Congruent(m, IntPow(x, n), IntPow(y, n))
  {
    if n == 0 {
      CongruentRefl(m, 1);
    } else {
      CongruentPower(m, x, y, n - 1);
      CongruentProduct(m, x, y, IntPow(x, n - 1), IntPow(y, n - 1));
    }
  }

  /** Fermat's theorem, for numbers of any sign. */
  lemma Fermat(p: int, x: int)
    requires Prime(p)
    ensures Congruent(p, IntPow(x, p), x)
  {
    var y := FloorMod(x, p);
    CongruentPower(p, x, y, p);
    FermatNat(p, y);
    CongruentTrans(p, IntPow(x, p), IntPow(y, p), y);
    CongruentSym(p, x, y);
    CongruentTrans(p, IntPow(x, p), y, x);
  }

  lemma FermatUnit(p: int, x: int)
    requires Prime(p) && !Divides(p, x)
    ensures Congruent(p, IntPow(x, p - 1), 1)
  {
    Fermat(p, x);
    Distribute(x, IntPow(x, p - 1), 1);
    PrimeDividesFactor(p, x, IntPow(x, p - 1) - 1);
  }

  /** Modulo a prime, 1 has no square roots but 1 and -1. */
  lemma RootsOfOne(p: int, y: int)
    requires Prime(p) && Congruent(p, y * y, 1)
    ensures Congruent(p, y, 1) || Congruent(p, y, -1)
  {
    Distribute(y - 1, y, 1);
    Distribute(y, y, 1);
    PrimeDividesFactor(p, y - 1, y + 1);
  }

}
