/** The fast squaring engine: five phases of NUDUPL arithmetic on double-buffered
    coefficients, batches that may break off at any point, and the loop around them that
    falls back on the slow algorithm. */
module SquaringEngine {
  import opened Integers
  import opened Primes
  import opened Words
  import opened Forms
  import opened Composition
  import opened Reduction
  import opened SlowArithmetic
  import opened CompositionClasses
  import opened Euclid
  import opened Nucomp
  import opened EngineSizes

  // ----- Repeated squaring in the class group -----

  /** The reduced square of a form. */
  ghost function SquareOf(f: Form): Form {
    if PositiveDefinite(f) then Multiply(f, f) else f
  }

  ghost function Times(step: Form -> Form, f: Form, n: nat): Form {
    if n == 0 then f else step(Times(step, f, n - 1))
  }

  lemma {:induction false} SquaresAreForms(f: Form, n: nat)
    requires PositiveDefinite(f) && Reduced(f)
    ensures var g := Times(SquareOf, f, n); PositiveDefinite(g) && Reduced(g) && Disc(g) == Disc(f)
  {
    if n > 0 {
      SquaresAreForms(f, n - 1);
    }
  }

  /** The reduced form of the class of f to the power of 2^n. */
  ghost function Squared(f: Form, n: nat): (g: Form)
    requires PositiveDefinite(f)
    ensures PositiveDefinite(g) && Reduced(g) && Disc(g) == Disc(f)
  {
    EquivDisc(f, Canon(f));
    SquaresAreForms(Canon(f), n);
    Times(SquareOf, Canon(f), n)
  }

  /** Squaring any form of the class of the n-th power gives the next one. */
  lemma NextSquared(f: Form, g: Form, n: nat)
    requires PositiveDefinite(f) && PositiveDefinite(g) && Squarefree(Disc(g)) && Canon(g) == Squared(f, n)
    ensures Multiply(g, g) == Squared(f, n + 1)
  {
    MultiplyRespectsClass(g, Canon(g), g, Canon(g));
  }

  // ----- The arithmetic of one iteration -----

  /** Quotient of a division that is exact when all is well; otherwise its value is of no use. */
  function Quotient0(n: int, d: int): (q: int)
    requires d != 0
    ensures n % d == 0 ==> q * d == n
  {
    n / d
  }

  /** The remainders a > k > ... down to the first that is at most L, with cofactors. */
  method PartialGcd(a: int, k: int, L: int) returns (e: State)
    requires a > k >= 0 && L >= 0
    ensures Invariant(a, k, e) && e.r1 <= L && (a > L ==> e.r2 > L)
    ensures exists n: nat :: e == Iterate(Start(a, k), n)
  {
    e := Start(a, k);
    ghost var n: nat := 0;
    StartInvariant(a, k);
    while e.r1 > L
      invariant e == Iterate(Start(a, k), n) && Invariant(a, k, e) && (a > L ==> e.r2 > L)
      decreases e.r1
    {
      StepKeepsInvariant(a, k, e);
      e, n := Step(e), n + 1;
    }
  }

  /** The congruence that k solves, for coprime a and b. */
  lemma SquareSolution(f: Form, r: GcdRes, k: int) returns (h: Solution)
    requires PositiveDefinite(f) && IsGcd(r, f.b, f.a) && r.gcd == 1 && k == FloorMod(-r.s * f.c, f.a)
    ensures h == Solution(f.a, f.a, f.b, f.c, 0, f.b, k) && Solves(h)
    ensures Composes(f, f, Direct(h)) && PositiveDefinite(Direct(h)) && Disc(Direct(h)) == Disc(f)
  {
    var q := SquareCongruence(f, 1, r.s, r.t);
    SquareCongruenceHolds(f, 1, r.s, r.t) by {
      DividesBy(1, f.a);
      DividesBy(1, f.b);
    }
    FloorOfMultiple(f.a, 1);
    FloorOfMultiple(f.b, 1);
    NegateProduct(r.s, f.c);
    DividesBy(q.s * q.a1, 0);
    KSolves(q, f, f, 0, -(r.s * f.c), k);
    h := SolutionOf(q, k);
    ComposesDisc(f, f, Direct(h));
    ComposesPositiveDefinite(f, f, Direct(h));
  }

  /** The engine's order of operations gives what the formulas of NUDUPL give. */
  lemma EngineLeading(h: Solution, e: State, q: int, A: int)
    requires Solves(h) && h.a1 == h.a2 && h.m == 0 && Invariant(h.a1, h.k, e) && PositiveDefinite(Direct(h))
    requires q == Quotient0(h.ss * e.r1 - h.c2 * e.co1, h.a1)
    requires A == if e.co1 < 0 then e.r1 * e.r1 - e.co1 * q else -(e.r1 * e.r1 - e.co1 * q)
    ensures A == if e.co1 < 0 then Reshaped(h, e).a else -Reshaped(h, e).a
  {
    ReshapedEquiv(h, e);
    PartialRemainder(h, e);
    PartialDivisions(h, e.d1, e.co1, e.r1);
    NoRemainder(h.a1, h.ss * e.r1 - h.c2 * e.co1);
    PartialLeading(h, e.d1, e.co1, e.r1, e.r1, q);
  }

  lemma EngineMiddle(a: int, b: int, t: int, co2: int, co1: int, A: int, hh: int, S: int, gb: int, product: int)
    requires co1 != 0 && A == S * (t * t) + -co1 * hh && 2 * (a * t - A * co2) == (gb + b) * co1
    requires product == 2 * t * (a + S * (t * -co2))
    ensures product % -co1 == 0 && -(b + Quotient0(product, -co1)) - 2 * -co2 * hh == gb
  {
    var v0, v1 := -co2, -co1;
    var x := -(gb + b) - 2 * v0 * hh;
    ExpandProduct(a, t, S, v0);
    Distribute(v0, S * (t * t), v1 * hh);
    NegateProduct(A, co2);
    NegateProduct(gb + b, co1);
    ShiftedMultiple(gb + b, v0, hh, v1);
    Quotient(x, v1);
  }

  lemma ExpandProduct(a: int, t: int, S: int, v: int)
    ensures 2 * t * (a + S * (t * v)) == 2 * (a * t) + 2 * (v * (S * (t * t)))
  {
    Distribute(2 * t, a, S * (t * v));
    Reassociate(2, t, a);
    Reassociate(2, t, S * (t * v));
    Reassociate(S, t, v);
    Reassociate(S, t, t);
    Reassociate(S * t, v, t);
    Reassociate(S * t, t, v);
  }

  lemma ShiftedMultiple(n: int, v0: int, hh: int, v1: int)
    ensures (-n - 2 * v0 * hh) * v1 == -(n * v1) - 2 * (v0 * (v1 * hh))
  {
    Distribute(v1, -n, 2 * v0 * hh);
    NegateProduct(n, v1);
    Reassociate(2, v0, hh);
    Reassociate(2, v0 * hh, v1);
    Reassociate(v0, hh, v1);
  }

  lemma EngineMatchesNudupl(h: Solution, e: State, q: int, A: int, f: int)
    requires Solves(h) && h.a1 == h.a2 && h.m == 0 && h.ss == h.b2 && Invariant(h.a1, h.k, e) && PositiveDefinite(Direct(h))
    requires q == Quotient0(h.b2 * e.r1 + h.c2 * -e.co1, h.a1)
    requires var negative := -e.co1 <= 0;
             var hh := if negative then -q else q;
             var t, v0, v1 := e.r1, -e.co2, -e.co1;
             && A == (if negative then -(t * t) else t * t) + v1 * hh
             && f == -(h.b2 + Quotient0(2 * t * (h.a1 + if negative then -(t * v0) else t * v0), v1)) - 2 * v0 * hh
    ensures (A == Reshaped(h, e).a || A == -Reshaped(h, e).a) && f == Reshaped(h, e).b
  {
    var S := if e.co1 < 0 then 1 else -1;
    var hh := if e.co1 < 0 then q else -q;
    NegateProduct(h.c2, e.co1);
    NegateProduct(e.co1, q);
    NegateProduct(-e.co1, q);
    EngineLeading(h, e, q, A);
    PartialMiddle(h, e, A, Reshaped(h, e));
    EngineMiddle(h.a1, h.b2, e.r1, e.co2, e.co1, A, hh, S, Reshaped(h, e).b,
                 2 * e.r1 * (h.a1 + S * (e.r1 * -e.co2)));
  }

  /** Phases 2 to 4: the new coefficients from the remainder t and the cofactors v0, v1. */
  method Formulas(a: int, b: int, c: int, t: int, v0: int, v1: int) returns (q: int, A: int, f: int)
    requires a > 0 && v1 != 0
    ensures q == Quotient0(b * t + c * v1, a)
    ensures var negative := v1 <= 0;
            var hh := if negative then -q else q;
            && A == (if negative then -(t * t) else t * t) + v1 * hh
            && f == -(b + Quotient0(2 * t * (a + if negative then -(t * v0) else t * v0), v1)) - 2 * v0 * hh
  {
    var negative := v1 <= 0;
    var cv1 := c * v1;
    var bt := b * t;
    q := Quotient0(bt + cv1, a);
    var hh := if negative then -q else q;
    var v1h := v1 * hh;
    var tts := t * t;
    if negative {
      tts := -tts;
    }
    A := tts + v1h;
    var stv0 := t * v0;
    if negative {
      stv0 := -stv0;
    }
    var astv0 := a + stv0;
    var t2 := 2 * t;
    var quotient := Quotient0(t2 * astv0, v1);
    var rest := -(b + quotient);
    f := rest - 2 * v0 * hh;
  }

  /** A and m are, up to the sign of A, the first two coefficients of a form in the class of
      the square of f. */
  ghost predicate SquareCoefficients(f: Form, A: int, m: int) {
    exists r: Form :: (A == r.a || A == -r.a) && m == r.b && InSquare(f, r)
  }

  /** r is equivalent to a composite of f with itself. */
  ghost predicate InSquare(f: Form, r: Form) {
    PositiveDefinite(r) && Disc(r) == Disc(f) && exists h: Form :: Composes(f, f, h) && Equiv(h, r)
  }

  lemma ArithmeticIsSquare(f: Form, r: GcdRes, k: int, e: State, q: int, A: int, m: int, L: nat)
    requires PositiveDefinite(f) && IsGcd(r, f.b, f.a) && r.gcd == 1 && k == FloorMod(-r.s * f.c, f.a)
    requires Invariant(f.a, k, e) && q == Quotient0(f.b * e.r1 + f.c * -e.co1, f.a)
    requires var negative := -e.co1 <= 0;
             var hh := if negative then -q else q;
             var t, v0, v1 := e.r1, -e.co2, -e.co1;
             && A == (if negative then -(t * t) else t * t) + v1 * hh
             && m == -(f.b + Quotient0(2 * t * (f.a + if negative then -(t * v0) else t * v0), v1)) - 2 * v0 * hh
    ensures SquareCoefficients(f, A, m)
    ensures e.r1 <= L < e.r2 ==> Bounded(L, f.b, Disc(f), Abs(A))
  {
    var h := SquareSolution(f, r, k);
    EngineMatchesNudupl(h, e, q, A, m);
    ReshapedEquiv(h, e);
    assert InSquare(f, Reshaped(h, e));
    if e.r1 <= L < e.r2 {
      ArithmeticIsBounded(f, h, e, L);
    }
  }

  /** The new leading coefficient is bounded by L, the middle one and the discriminant. */
  lemma ArithmeticIsBounded(f: Form, h: Solution, e: State, L: nat)
    requires PositiveDefinite(f) && h.a1 == h.a2 == f.a && h.b2 == f.b && h.c2 == f.c
    requires Solves(h) && PositiveDefinite(Direct(h)) && Invariant(h.a1, h.k, e) && e.r1 <= L < e.r2
    ensures Bounded(L, f.b, Disc(f), Reshaped(h, e).a)
  {
    ReshapedEquiv(h, e);
    LeadingCoefficient(h, e.d1, e.co1, e.r1);
    CofactorTimesRemainder(f.a, h.k, e);
    ProductMonotone(Abs(e.co1), L, e.r2);
    ValueIsBounded(f.a, f.b, f.c, L, e.r1, e.co1, Reshaped(h, e).a, Disc(f));
  }

  /** Phases 0 to 4 on a form (a, b, c): the gcd g of a and b, which is checked at the end,
      the leading coefficient A up to sign and the middle one f before reduction. Unless g
      is 1 the results are of no use. */
  method Arithmetic(a: int, b: int, c: int, L: int) returns (g: int, A: int, f: int)
    requires PositiveDefinite(Form(a, b, c)) && L >= 0
    ensures g == Gcd(b, a).gcd
    ensures g == 1 ==> SquareCoefficients(Form(a, b, c), A, f)
    ensures g == 1 && a > L ==> Bounded(L, b, Disc(Form(a, b, c)), Abs(A))
  {
    var r := ExtendedGcd(b, a);
    GcdUnique(r, Gcd(b, a), b, a);
    g := r.gcd;
    var k := FloorMod(-r.s * c, a);
    var e := PartialGcd(a, k, L);
    var q;
    q, A, f := Formulas(a, b, c, e.r1, -e.co2, -e.co1);
    if g == 1 {
      ArithmeticIsSquare(Form(a, b, c), r, k, e, q, A, f, L);
    }
  }

  // ----- The state of a batch -----

  /** (a, b) are the first coefficients of a form of discriminant D. */
  predicate IsForm(a: int, b: int, D: int) {
    a > 0 && D < 0 && (b * b - D) % (4 * a) == 0
  }

  function FormOf(a: int, b: int, D: int): (f: Form)
    requires IsForm(a, b, D)
    ensures PositiveDefinite(f) && Disc(f) == D && f.a == a && f.b == b
  {
    var c := DivExact(b * b - D, 4 * a);
    assert b * b - 4 * a * c == D;
    Form(a, b, c)
  }

  /** Normalising the result gives coefficients of a form in the class of the square. */
  lemma NormalisedSquare(f: Form, A: int, m: int, D: int)
    requires PositiveDefinite(f) && Disc(f) == D && SquareCoefficients(f, A, m)
    ensures A != 0
    ensures var a := if A < 0 then -A else A;
            IsForm(a, m % (2 * a), D) && InSquare(f, FormOf(a, m % (2 * a), D))
  {
    var r: Form :| (A == r.a || A == -r.a) && m == r.b && InSquare(f, r);
    var h: Form :| Composes(f, f, h) && Equiv(h, r);
    var n := ModuloIsShift(r.a, r.b);
    var g := Translated(r, n);
    EquivTrans(h, r, g);
    FormOfCoefficients(g, D);
  }

  lemma ModuloIsShift(a: int, b: int) returns (n: int)
    requires a > 0
    ensures b % (2 * a) == b + 2 * a * n
  {
    n := -(b / (2 * a));
    assert b == b / (2 * a) * (2 * a) + b % (2 * a);
    NegateProduct(b / (2 * a), 2 * a);
  }

  lemma Translated(r: Form, n: int) returns (g: Form)
    requires PositiveDefinite(r)
    ensures g.a == r.a && g.b == r.b + 2 * r.a * n && Equiv(r, g) && PositiveDefinite(g) && Disc(g) == Disc(r)
  {
    Translate(r, n);
    g := Form(r.a, r.b + 2 * r.a * n, r.a * n * n + r.b * n + r.c);
    EquivDisc(r, g);
    EquivPositiveDefinite(r, g);
  }

  lemma FormOfCoefficients(g: Form, D: int)
    requires PositiveDefinite(g) && Disc(g) == D
    ensures IsForm(g.a, g.b, D) && FormOf(g.a, g.b, D) == g
  {
    Reassociate(4, g.a, g.c);
    assert g.b * g.b - D == g.c * (4 * g.a);
    Quotient(g.c, 4 * g.a);
    SameC(g, FormOf(g.a, g.b, D));
  }

  lemma SquareAdvances(start: Form, f: Form, r: Form, n: nat)
    requires PositiveDefinite(start) && PositiveDefinite(f) && Squarefree(Disc(f)) && Canon(f) == Squared(start, n)
    requires InSquare(f, r)
    ensures Canon(r) == Squared(start, n + 1)
  {
    var h: Form :| Composes(f, f, h) && Equiv(h, r);
    CompositeReducesToMultiply(f, f, h, r);
    NextSquared(start, f, n);
  }

  /** Every form of the history is in the class of the square of the one before. */
  ghost predicate SquaringHistory(h: seq<Form>, D: int) {
    && h != []
    && (forall i :: 0 <= i < |h| ==> PositiveDefinite(h[i]) && Disc(h[i]) == D)
    && (forall i, j :: 0 <= i < j < |h| && j == i + 1 ==> InSquare(h[i], h[j]))
  }

  lemma {:induction false} HistoryIsPower(h: seq<Form>, D: int, n: nat)
    requires SquaringHistory(h, D) && Squarefree(D) && n < |h|
    ensures Canon(h[n]) == Squared(h[0], n)
  {
    if n > 0 {
      var p := n - 1;
      HistoryIsPower(h, D, p);
      assert InSquare(h[p], h[n]);
      SquareAdvances(h[0], h[p], h[n], p);
    }
  }

  lemma NextForm(f: Form, D: int, A: int, m: int) returns (next: Form)
    requires PositiveDefinite(f) && Disc(f) == D && SquareCoefficients(f, A, m)
    ensures A != 0 && next.a == Abs(A) && next.b == m % (2 * Abs(A)) && InSquare(f, next)
  {
    NormalisedSquare(f, A, m, D);
    next := FormOf(Abs(A), m % (2 * Abs(A)), D);
  }

  /** The last coefficient by floor division, with the check that it is exact and not negative. */
  method LastCoefficient(a: int, b: int, D: int, ghost f: Form) returns (valid: bool, c: int)
    requires PositiveDefinite(f) && Disc(f) == D && f.a == a && f.b == b
    ensures valid && f == Form(a, b, c)
  {
    var bb := b * b;
    var a4 := 4 * a;
    var n := bb - D;
    FormOfCoefficients(f, D);
    c := FloorDiv(n, a4);
    PositiveC(f);
    valid := n == c * a4 && a >= 0 && c >= 0;
  }

  datatype Phases = TooBig | TooSmall | Slave | Early(A: int) | NotCoprime(A: int)
                  | Finished(A: int, B: int, higher: bool)

  /** The sizes an iteration can work on: coefficients within the limit of bits, and more
      limbs than the threshold has. */
  predicate SizesFit(f: Form, L: nat, maxBits: nat) {
    BitLength(Abs(f.a)) <= maxBits && BitLength(Abs(f.b)) <= maxBits && Limbs(Abs(f.a)) > Limbs(L)
  }

  /** The forms on which an iteration completes, unless one of its phases 0 to 4 fails. */
  predicate Completes(f: Form, L: nat, maxBits: nat, fault: nat) {
    SizesFit(f, L, maxBits) && Gcd(f.b, f.a).gcd == 1 && fault > 4
  }

  /** When an iteration records corruption: a phase fails in a way that spoils the result, or
      the coefficients have a common factor, which is noticed after phase 3. */
  predicate Corrupts(f: Form, L: nat, maxBits: nat, fault: nat, spoils: bool) {
    && SizesFit(f, L, maxBits)
    && (if fault <= 3 then spoils else Gcd(f.b, f.a).gcd != 1 || (fault == 4 && spoils))
  }

  /** The phases of one iteration on the current coefficients, up to a failure in the given
      phase. */
  method RunPhases(a: int, b: int, D: int, L: nat, maxBits: nat, fault: nat, ghost f: Form)
    returns (r: Phases, ghost next: Form)
    requires PositiveDefinite(f) && Disc(f) == D && f.a == a && f.b == b
    ensures r.TooBig? || r.TooSmall? <==> !SizesFit(f, L, maxBits)
    ensures r.Slave? || r.Early? <==> SizesFit(f, L, maxBits) && fault <= 3
    ensures r.NotCoprime? <==> SizesFit(f, L, maxBits) && fault > 3 && Gcd(b, a).gcd != 1
    ensures r.Finished? ==> InSquare(f, next) && next.a == r.A && next.b == r.B && r.higher == (Abs(r.B) >= r.A)
    ensures r.Finished? && SafeSizes(L, maxBits, D) ==> next.a < -D
  {
    next := f;
    if BitLength(Abs(a)) > maxBits || BitLength(Abs(b)) > maxBits || a < 0 {
      return TooBig, next;
    }
    if Limbs(Abs(a)) <= Limbs(L) {
      return TooSmall, next;
    }
    MoreLimbs(Abs(a), L);
    var valid, c := LastCoefficient(a, b, D, f);
    // On a form the check of the last coefficient, which would record corruption, never fails.
    assert valid;
    if fault <= 2 {
      return Slave, next;
    }
    assert a > L;
    var g, A, m := Arithmetic(a, b, c, L);
    if fault == 3 {
      return Early(A), next;
    }
    if g != 1 {
      return NotCoprime(A), next;
    }
    next := NextForm(f, D, A, m);
    var B := m % (2 * Abs(A));
    NextIsBelow(L, maxBits, D, b, Abs(A));
    return Finished(Abs(A), B, Abs(B) >= Abs(A)), next;
  }

  lemma NextIsBelow(L: nat, maxBits: nat, D: int, b: int, A: int)
    requires BitLength(Abs(b)) <= maxBits && Bounded(L, b, D, A)
    ensures SafeSizes(L, maxBits, D) ==> A < -D
  {
    if SafeSizes(L, maxBits, D) {
      StaysBelow(L, maxBits, D, b, A);
    }
  }

  /** 64-bit limbs of a number; zero has none. */
  function Limbs(n: nat): nat {
    if n == 0 then 0 else (BitLength(n) + 63) / 64
  }

  lemma LimbsExceed(n: nat, k: nat)
    ensures Limbs(n) > k <==> n >= Pow2(64 * k)
  {
    if k == 0 {
      assert Pow2(64 * k) == 1;
    } else {
      BitLengthIs(n, 64 * k);
    }
  }

  /** The sizes as numbers: both coefficients below 2^maxBits, and the first one at least the
      power of 2^64 that L is below. */
  lemma SizesAsNumbers(f: Form, L: nat, maxBits: nat, word: nat)
    requires maxBits >= 1 && word == 64 * Limbs(L)
    ensures SizesFit(f, L, maxBits) <==> Abs(f.a) < Pow2(maxBits) && Abs(f.b) < Pow2(maxBits) && Abs(f.a) >= Pow2(word)
    ensures L < Pow2(word)
  {
    BitLengthIs(Abs(f.a), maxBits);
    BitLengthIs(Abs(f.b), maxBits);
    LimbsExceed(Abs(f.a), Limbs(L));
    LimbsExceed(L, Limbs(L));
  }

  lemma MoreLimbs(a: nat, L: nat)
    requires Limbs(a) > Limbs(L)
    ensures a > L
  {
    if a <= L {
      BitLengthMonotone(a, L);
    }
  }

  /** The state that the phases work on: two slots for the coefficients, of which one holds
      the current form and the other receives the next. */
  class SquareState {
    const D: int
    const L: nat
    const maxBits: nat
    var slotA: seq<int>
    var slotB: seq<int>
    var abIndex: nat
    var bHigher: bool
    var numValid: nat
    var corrupted: bool
    ghost var history: seq<Form>

    constructor (D: int, L: nat, maxBits: nat, f: Form)
      requires PositiveDefinite(f) && Disc(f) == D
      ensures Valid() && this.D == D && this.L == L && this.maxBits == maxBits
      ensures numValid == 0 && !corrupted && history == [f]
    {
      this.D, this.L, this.maxBits := D, L, maxBits;
      slotA, slotB := [f.a, 0], [f.b, 0];
      abIndex, numValid, corrupted := 0, 0, false;
      bHigher := Abs(f.b) >= Abs(f.a);
      history := [f];
    }

    /** The current slot holds the last form of a history of numValid squarings. */
    ghost predicate Valid()
      reads this
    {
      && SquaringHistory(history, D) && |history| == numValid + 1
      && |slotA| == 2 && |slotB| == 2 && abIndex < 2
      && slotA[abIndex] == history[numValid].a && slotB[abIndex] == history[numValid].b
    }

    /** One iteration. fault is the phase that fails, if any, and spoils says whether the
        failure is recorded as corruption. A failed iteration leaves the history as it is:
        only the last statements of a completed one extend it. */
    method Iterate(fault: nat, spoils: bool) returns (ok: bool)
      requires Valid()
      modifies this
      ensures Valid()
      ensures ok <==> Completes(old(history[numValid]), L, maxBits, fault)
      ensures corrupted <==> old(corrupted) || Corrupts(old(history[numValid]), L, maxBits, fault, spoils)
      ensures ok ==> numValid == old(numValid) + 1 && history[..|history| - 1] == old(history)
      ensures ok && SafeSizes(L, maxBits, D) ==> history[numValid].a < -D
      ensures !ok ==> history == old(history)
    {
      var r;
      ghost var next;
      r, next := RunPhases(slotA[abIndex], slotB[abIndex], D, L, maxBits, fault, history[numValid]);
      match r {
        case TooBig => ok := false;
        case TooSmall => ok := false;
        case Slave =>
          corrupted, ok := corrupted || spoils, false;
        case Early(A) =>
          slotA := slotA[1 - abIndex := A];
          corrupted, ok := corrupted || spoils, false;
        case NotCoprime(A) =>
          slotA := slotA[1 - abIndex := A];
          corrupted, ok := true, false;
        case Finished(A, B, higher) =>
          slotA := slotA[1 - abIndex := A];
          slotB := slotB[1 - abIndex := B];
          if fault == 4 {
            corrupted := corrupted || spoils;
            return false;
          }
          bHigher := higher;
          abIndex := 1 - abIndex;
          numValid := numValid + 1;
          history := history + [next];
          ok := true;
      }
    }

    /** Hands out the current form, unless the batch is corrupted. */
    method Assign() returns (ok: bool, f: Form, num: nat)
      requires Valid()
      ensures ok <==> !corrupted
      ensures ok ==> num == numValid && f == history[num]
    {
      f, num := Form(0, 0, 0), numValid;
      if corrupted {
        return false, f, num;
      }
      var a, b := slotA[abIndex], slotB[abIndex];
      var c;
      ok, c := LastCoefficient(a, b, D, history[numValid]);
      if !ok {
        return false, f, num;
      }
      f := Form(a, b, c);
    }
  }

  // ----- Batches and the loop around them -----

  /** What happens to a batch: in which phase each iteration fails, if any, and whether the
      failure counts as corruption. */
  datatype Faults = Faults(phase: nat -> nat, spoils: nat -> bool)

  /** What the history of a batch is: every iteration before the last form completes, the
      next one does not unless the batch is done, and the batch is corrupted exactly if that
      one corrupts it. */
  ghost predicate BatchRun(h: seq<Form>, L: nat, maxBits: nat, iterations: nat, faults: Faults, corrupted: bool) {
    && 0 < |h| <= iterations + 1
    && (forall i :: 0 <= i < |h| - 1 ==> Completes(h[i], L, maxBits, faults.phase(i)))
    && var n := |h| - 1;
    && (n < iterations ==> !Completes(h[n], L, maxBits, faults.phase(n)))
    && (corrupted <==> n < iterations && Corrupts(h[n], L, maxBits, faults.phase(n), faults.spoils(n)))
  }

  /** The iterations of a batch, until one fails. */
  method RunBatch(state: SquareState, iterations: nat, faults: Faults)
    requires state.Valid() && state.numValid == 0 && !state.corrupted
    modifies state
    ensures state.Valid() && state.history[0] == old(state.history[0])
    ensures BatchRun(state.history, state.L, state.maxBits, iterations, faults, state.corrupted)
    ensures SafeSizes(state.L, state.maxBits, state.D) && old(state.history[0].a) < -state.D
            ==> state.history[state.numValid].a < -state.D
  {
    var iter := 0;
    while iter < iterations
      invariant state.Valid() && state.numValid == iter <= iterations && state.history[0] == old(state.history[0])
      invariant !state.corrupted
      invariant forall i :: 0 <= i < iter ==> Completes(state.history[i], state.L, state.maxBits, faults.phase(i))
      invariant SafeSizes(state.L, state.maxBits, state.D) && old(state.history[0].a) < -state.D
                ==> state.history[iter].a < -state.D
    {
      ghost var before := state.history;
      var ok := state.Iterate(faults.phase(iter), faults.spoils(iter));
      if !ok {
        break;
      }
      assert forall i :: 0 <= i <= iter ==> state.history[i] == before[i];
      iter := iter + 1;
    }
  }

  /** h is the history of squarings that leads from f to g in n steps. */
  ghost predicate Leads(h: seq<Form>, D: int, f: Form, g: Form, n: nat) {
    SquaringHistory(h, D) && |h| == n + 1 && h[0] == f && h[n] == g
  }

  lemma LeadsOn(h: seq<Form>, h': seq<Form>, D: int, f: Form, g: Form, k: Form, m: nat, n: nat)
    requires Leads(h, D, f, g, m) && Leads(h', D, g, k, n)
    ensures Leads(h + h'[1..], D, f, k, m + n)
  {
    var t := h + h'[1..];
    forall i, j | 0 <= i < j < |t| && j == i + 1
      ensures InSquare(t[i], t[j])
    {
      if i >= m {
        assert t[i] == h'[i - m] && t[j] == h'[j - m];
      }
    }
  }

  /** Up to the given number of fast squarings. A corrupted batch leaves f as it was; any
      other leaves the start form squared exactly as often as reported. */
  method RepeatedSquareFast(f: FormCell, D: int, L: nat, maxBits: nat, iterations: nat, faults: Faults)
    returns (corrupted: bool, num: nat, ghost h: seq<Form>)
    requires PositiveDefinite(f.V()) && Disc(f.V()) == D
    modifies f
    ensures PositiveDefinite(f.V()) && Disc(f.V()) == D
    ensures SquaringHistory(h, D) && h[0] == old(f.V()) && BatchRun(h, L, maxBits, iterations, faults, corrupted)
    ensures corrupted ==> f.V() == old(f.V()) && num == 0
    ensures !corrupted ==> num == |h| - 1 && f.V() == h[num]
    ensures SafeSizes(L, maxBits, D) && old(f.a) < -D ==> f.a < -D
  {
    var state := new SquareState(D, L, maxBits, Form(f.a, f.b, f.c));
    RunBatch(state, iterations, faults);
    var good, r, n := state.Assign();
    h := state.history;
    if !good {
      return true, 0, h;
    }
    f.a, f.b, f.c := r.a, r.b, r.c;
    return false, n, h;
  }

  /** The dedicated squaring, then reduction. It needs coprime a and b: on the first form
      that has none the run counts as derailed and ends here, since nothing is known of what
      the formulas give there. */
  method RepeatedSquareOriginal(f: FormCell, iterations: nat) returns (derailed: bool, done: nat, ghost h: seq<Form>)
    requires PositiveDefinite(f.V())
    modifies f
    ensures PositiveDefinite(f.V()) && Disc(f.V()) == old(Disc(f.V()))
    ensures Leads(h, Disc(f.V()), old(f.V()), f.V(), done)
    ensures forall i :: 0 <= i < done ==> Gcd(h[i].b, h[i].a).gcd == 1
    ensures done <= iterations && (derailed <==> done < iterations)
    ensures derailed ==> Gcd(f.b, f.a).gcd != 1
    ensures done > 0 ==> Reduced(f.V())
  {
    h, done := [f.V()], 0;
    ghost var D := Disc(f.V());
    for i := 0 to iterations
      invariant done == i && Leads(h, D, old(f.V()), f.V(), i)
      invariant forall j :: 0 <= j < i ==> Gcd(h[j].b, h[j].a).gcd == 1
      invariant i > 0 ==> Reduced(f.V())
    {
      var r := ExtendedGcd(f.b, f.a);
      GcdUnique(r, Gcd(f.b, f.a), f.b, f.a);
      if r.gcd != 1 {
        return true, done, h;
      }
      SlowSquare(f, r);
      h := h + [f.V()];
      done := done + 1;
    }
    return false, done, h;
  }

  method SlowSquare(f: FormCell, ghost r: GcdRes)
    requires PositiveDefinite(f.V()) && IsGcd(r, f.b, f.a) && r.gcd == 1
    modifies f
    ensures PositiveDefinite(f.V()) && Disc(f.V()) == old(Disc(f.V())) && Reduced(f.V())
    ensures InSquare(old(f.V()), f.V())
  {
    ghost var g := f.V();
    var s := RawSquare(Form(f.a, f.b, f.c));
    GcdUnique(r, Gcd(f.b, f.a), f.b, f.a);
    SquareComposes(g);
    ComposesDisc(g, g, s);
    ComposesPositiveDefinite(g, g, s);
    f.a, f.b, f.c := s.a, s.b, s.c;
    f.Reduce();
    EquivDisc(s, f.V());
  }

  lemma PrimeIsSquarefree(D: int)
    requires PrimeDiscriminant(D)
    ensures Squarefree(D)
  {
    forall d | d > 1
      ensures NoSquare(d, D)
    {
      SquareOfDivisor(d, D);
      if Divides(d, D) {
        DivisorOfPrime(d, D);
      }
    }
  }

  lemma SquareOfDivisor(d: int, D: int)
    requires d > 1 && D < 0
    ensures Divides(d * d, D) ==> Divides(d, D) && d != -D
  {
    if Divides(d * d, D) {
      DividesBy(d, d);
      DividesTransitive(d, d * d, D);
      var q :| D == q * (d * d);
      Reassociate(q, d, d);
      if q * d == -1 {
        UnitProduct(-q, d);
      }
      CancelIfEqual(q * d, -1, d);
    }
  }

  lemma CancelIfEqual(x: int, y: int, d: int)
    requires d != 0
    ensures x * d == y * d ==> x == y
  {
    if x * d == y * d {
      CancelFactor(d, x, y);
    }
  }

  /** For a prime discriminant a and b have a common factor only if a is huge. */
  lemma DerailedIsLarge(f: Form)
    requires PositiveDefinite(f) && Gcd(f.b, f.a).gcd != 1
    ensures PrimeDiscriminant(Disc(f)) ==> f.a >= -Disc(f) && !Reduced(f)
  {
    var D, g := Disc(f), Gcd(f.b, f.a);
    if PrimeDiscriminant(D) {
      GcdDividesDisc(f, g.gcd);
      NotZero(g, f);
      DivisorOfPrime(g.gcd, D);
      DivisorIsSmaller(g.gcd, f.a);
      ReducedIsSmall(f);
    }
  }

  lemma NotZero(g: GcdRes, f: Form)
    requires f.a > 0 && IsGcd(g, f.b, f.a)
    ensures g.gcd >= 1
  {
    var q :| f.a == q * g.gcd;
  }

  lemma GcdDividesDisc(f: Form, d: int)
    requires Divides(d, f.a) && Divides(d, f.b)
    ensures Divides(d, Disc(f))
  {
    DividesCombination(d, f.b, f.a, f.b, -(4 * f.c));
    Reassociate(4, f.a, f.c);
    assert 4 * f.c * f.a == 4 * (f.a * f.c);
    NegateProduct(4 * f.c, f.a);
  }

  /** A form on which the dedicated squaring leaves the class: 7 divides both a and b, and
      the result has another discriminant than -7. */
  lemma DerailedExample(f: Form)
    requires f == Form(7, 7, 2)
    ensures PositiveDefinite(f) && PrimeDiscriminant(Disc(f)) && Disc(RawSquare(f)) != Disc(f)
  {
    DividesBy(7, 1);
    SevenIsPrime();
    CommonFactorDerails(f, 7, 1, 0, -3);
  }

  /** A common factor of a and b always does so on a primitive form. */
  lemma CommonFactorDerails(f: Form, d: int, x: int, y: int, z: int)
    requires PositiveDefinite(f) && d > 1 && Divides(d, f.a) && Divides(d, f.b)
    requires x * f.a + y * f.b + z * f.c == 1
    ensures Disc(RawSquare(f)) != Disc(f)
  {
    SquareKeepsDiscriminant(f);
    GcdIsGreatest(Gcd(f.b, f.a), f.b, f.a, d);
    if Gcd(f.b, f.a).gcd == 1 {
      var n :| 1 == n * d;
      UnitProduct(n, d);
    }
  }

  lemma SevenIsPrime()
    ensures PrimeDiscriminant(-7)
  {
    forall d | d >= 1 && Divides(d, 7)
      ensures d == 1 || d == 7
    {
      var q :| 7 == q * d;
      PositiveFactor(d, q);
      ProductGrows(q, d);
      SmallDivisor(q, d);
    }
  }

  lemma SmallDivisor(q: int, d: int)
    requires 1 <= d <= 7 && 1 <= q <= 7 && q * d == 7
    ensures d == 1 || d == 7
  {
    assert d == 2 ==> q * 2 == 7;
    assert d == 3 ==> q * 3 == 7;
    assert d == 4 ==> q * 4 == 7;
    assert d == 5 ==> q * 5 == 7;
    assert d == 6 ==> q * 6 == 7;
  }

  /** The main loop over the given batches: fast where possible, a whole batch by the slow
      algorithm after corruption, one slow step after any other failure. f is the start
      form squared exactly as often as counted. The loop only stops early on a form with a
      common factor of a and b, and with a prime discriminant and safe sizes it never does. */
  method RepeatedSquare(f: FormCell, D: int, L: nat, maxBits: nat, batchSize: nat, rounds: nat, faults: nat -> Faults)
    returns (num: nat, derailed: bool)
    requires PositiveDefinite(f.V()) && Disc(f.V()) == D && Squarefree(D)
    modifies f
    ensures PositiveDefinite(f.V()) && Disc(f.V()) == D
    ensures Canon(f.V()) == Squared(old(f.V()), num)
    ensures !derailed && batchSize > 0 ==> num >= rounds
    ensures derailed ==> Gcd(f.b, f.a).gcd != 1
    ensures derailed && PrimeDiscriminant(D) ==> f.a >= -D
    ensures PrimeDiscriminant(D) && SafeSizes(L, maxBits, D) && old(f.a) < -D ==> !derailed
  {
    num, derailed := 0, false;
    ghost var h := [f.V()];
    for i := 0 to rounds
      invariant Leads(h, D, old(f.V()), f.V(), num) && !derailed && (batchSize > 0 ==> num >= i)
      invariant SafeSizes(L, maxBits, D) && old(f.a) < -D ==> f.a < -D
    {
      ghost var g, more := f.V(), h;
      var actual;
      derailed, actual, more := OneBatch(f, D, L, maxBits, batchSize, faults(i));
      LeadsOn(h, more, D, old(f.V()), g, f.V(), num, actual);
      h := h + more[1..];
      num := num + actual;
      if derailed {
        break;
      }
    }
    HistoryIsPower(h, D, num);
    if derailed {
      DerailedIsLarge(f.V());
    }
  }

  /** Slow steps keep a leading coefficient below |D|: the results are reduced. */
  method SlowBatch(f: FormCell, D: int, iterations: nat) returns (derailed: bool, done: nat, ghost h: seq<Form>)
    requires PositiveDefinite(f.V()) && Disc(f.V()) == D
    modifies f
    ensures PositiveDefinite(f.V()) && Disc(f.V()) == D
    ensures Leads(h, D, old(f.V()), f.V(), done)
    ensures !derailed ==> done == iterations
    ensures derailed ==> Gcd(f.b, f.a).gcd != 1
    ensures old(f.a) < -D ==> f.a < -D
  {
    derailed, done, h := RepeatedSquareOriginal(f, iterations);
    ReducedIsSmall(f.V());
  }

  method OneBatch(f: FormCell, D: int, L: nat, maxBits: nat, batchSize: nat, faults: Faults)
    returns (derailed: bool, actual: nat, ghost h: seq<Form>)
    requires PositiveDefinite(f.V()) && Disc(f.V()) == D
    modifies f
    ensures PositiveDefinite(f.V()) && Disc(f.V()) == D
    ensures Leads(h, D, old(f.V()), f.V(), actual)
    ensures !derailed && batchSize > 0 ==> actual >= 1
    ensures derailed ==> Gcd(f.b, f.a).gcd != 1
    ensures SafeSizes(L, maxBits, D) && old(f.a) < -D ==> f.a < -D
  {
    var corrupted;
    corrupted, actual, h := RepeatedSquareFast(f, D, L, maxBits, batchSize, faults);
    derailed := false;
    if corrupted {
      derailed, actual, h := SlowBatch(f, D, batchSize);
    }
    if !derailed && actual < batchSize {
      ghost var g, one := f.V(), h;
      var done;
      derailed, done, one := SlowBatch(f, D, 1);
      LeadsOn(h, one, D, old(f.V()), g, f.V(), actual, done);
      h := h + one[1..];
      actual := actual + done;
    }
  }

}
