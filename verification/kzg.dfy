/** Polynomial commitments: long division of polynomials over a prime field, and the
    commitment to a quotient with its pairing check over an ideal bilinear group, in which
    every group element is known by its exponent. */
module Kzg {
  import opened Integers
  import opened Congruences
  import opened Wrappers

  // ----- The field -----

  /** Field elements are kept reduced modulo m. */
  function Field(v: int, m: nat): (r: nat)
    requires m >= 1
    ensures r < m && Congruent(m, r, v)
  {
    assert v % m - v == -(v / m) * m;
    v % m
  }

  lemma SameElement(m: nat, x: nat, y: nat)
    requires x < m && y < m && Congruent(m, x, y)
    ensures x == y
  {
    CongruentInRange(m, x, y);
  }

  /** The inverse, for elements that have one. */
  method Inverse(v: nat, m: nat) returns (res: Result<nat>)
    requires m >= 2
    ensures res.Ok? ==> res.value < m && Congruent(m, res.value * v, 1)
    ensures Coprime(v, m) ==> res.Ok?
  {
    var r := ExtendedGcd(v, m);
    if r.gcd != 1 {
      CoprimeGcd(r, v, m);
      return Err("no inverse");
    }
    var s := Field(r.s, m);
    DividesBy(m, -r.t);
    assert r.s * v - 1 == -r.t * m;
    CongruentRefl(m, v);
    CongruentProduct(m, s, r.s, v, v);
    CongruentTrans(m, s * v, r.s * v, 1);
    return Ok(s);
  }

  lemma CoprimeGcd(r: GcdRes, v: int, m: int)
    requires IsGcd(r, v, m)
    ensures Coprime(v, m) ==> r.gcd == 1
  {
    if Coprime(v, m) {
      var s, t :| s * v + t * m == 1;
      DividesBy(1, v);
      DividesBy(1, m);
      GcdUnique(r, GcdRes(1, s, t), v, m);
    }
  }

  // ----- Polynomials -----

  ghost predicate AreElements(m: nat, p: seq<nat>) {
    forall i :: 0 <= i < |p| ==> p[i] < m
  }

  /** A coefficient, zero outside the list. */
  function Coeff(p: seq<nat>, k: int): nat {
    if 0 <= k < |p| then p[k] else 0
  }

  /** The value of the first n terms. */
  function Eval(p: seq<nat>, x: int, n: nat): int {
    if n == 0 then 0 else Eval(p, x, n - 1) + Coeff(p, n - 1) * IntPow(x, n - 1)
  }

  /** The k-th coefficient of the product of the first n terms of q with d. */
  ghost function Conv(q: seq<nat>, d: seq<nat>, k: int, n: nat): int {
    if n == 0 then 0 else Conv(q, d, k, n - 1) + Coeff(q, n - 1) * Coeff(d, k - (n - 1))
  }

  /** dividend = quotient * divisor + remainder, coefficient by coefficient. */
  ghost predicate Decomposes(m: nat, p: seq<nat>, q: seq<nat>, d: seq<nat>, r: seq<nat>) {
    forall k: nat :: IdentityAt(m, p, q, d, r, k)
  }

  ghost predicate IdentityAt(m: nat, p: seq<nat>, q: seq<nat>, d: seq<nat>, r: seq<nat>, k: nat) {
    Congruent(m, Coeff(p, k), Conv(q, d, k, |q|) + Coeff(r, k))
  }

  /** A coefficient of the quotient that was still zero is set. */
  lemma {:induction false} ConvUpdate(q: seq<nat>, d: seq<nat>, j: nat, t: nat, k: int, n: nat)
    requires j < |q| && q[j] == 0
    ensures Conv(q[j := t], d, k, n) == Conv(q, d, k, n) + (if j < n then t * Coeff(d, k - j) else 0)
  {
    if n > 0 {
      ConvUpdate(q, d, j, t, k, n - 1);
    }
  }

  lemma {:induction false} ConvZero(q: seq<nat>, d: seq<nat>, k: int, n: nat)
    requires forall i :: 0 <= i < |q| ==> q[i] == 0
    ensures Conv(q, d, k, n) == 0
  {
    if n > 0 {
      ConvZero(q, d, k, n - 1);
    }
  }

  /** rem with t times the divisor, shifted by j, taken away. */
  method SubtractShifted(m: nat, rem: seq<nat>, t: nat, d: seq<nat>, j: nat) returns (r: seq<nat>)
    requires m >= 2 && AreElements(m, rem) && j + |d| <= |rem|
    ensures |r| == |rem| && AreElements(m, r)
    ensures forall k: nat :: Congruent(m, Coeff(r, k), Coeff(rem, k) - t * Coeff(d, k - j))
  {
    r := rem;
    for i := 0 to |d|
      invariant |r| == |rem| && AreElements(m, r)
      invariant forall k: nat :: j <= k < j + i ==> Congruent(m, Coeff(r, k), Coeff(rem, k) - t * Coeff(d, k - j))
      invariant forall k: nat :: k < j || k >= j + i ==> Coeff(r, k) == Coeff(rem, k)
    {
      var product := Field(t * d[i], m);
      var e := Field(r[i + j] as int - product, m);
      DifferenceOf(m, e, r[i + j], product, t * d[i]);
      r := r[i + j := e];
    }
    forall k: nat
      ensures Congruent(m, Coeff(r, k), Coeff(rem, k) - t * Coeff(d, k - j))
    {
      if k < j || k >= j + |d| {
        CongruentRefl(m, Coeff(r, k));
      }
    }
  }

  lemma DifferenceOf(m: nat, e: int, x: int, y: int, z: int)
    requires Congruent(m, e, x - y) && Congruent(m, y, z)
    ensures Congruent(m, e, x - z)
  {
    CongruentRefl(m, x);
    CongruentCombination(m, x, x, y, z, 1, -1);
    CongruentTrans(m, e, x - y, x - z);
  }

  /** One step of the division keeps the identity. */
  lemma DivisionStep(m: nat, p: seq<nat>, q: seq<nat>, d: seq<nat>, rem: seq<nat>, t: nat, j: nat, r: seq<nat>)
    requires j < |q| && q[j] == 0 && Decomposes(m, p, q, d, rem)
    requires forall k: nat :: Congruent(m, Coeff(r, k), Coeff(rem, k) - t * Coeff(d, k - j))
    ensures Decomposes(m, p, q[j := t], d, r)
  {
    var q' := q[j := t];
    forall k: nat
      ensures IdentityAt(m, p, q', d, r, k)
    {
      assert IdentityAt(m, p, q, d, rem, k);
      ConvUpdate(q, d, j, t, k, |q|);
      var c := Conv(q, d, k, |q|) + t * Coeff(d, k - j);
      CongruentRefl(m, c);
      CongruentSym(m, Coeff(r, k), Coeff(rem, k) - t * Coeff(d, k - j));
      CongruentCombination(m, c, c, Coeff(rem, k) - t * Coeff(d, k - j), Coeff(r, k), 1, 1);
      CongruentTrans(m, Coeff(p, k), Conv(q, d, k, |q|) + Coeff(rem, k), c + Coeff(r, k));
    }
  }

  /** One round of the division: the leading coefficient is cancelled and zeros are
      dropped. */
  method DivisionRound(m: nat, q0: seq<nat>, rem0: seq<nat>, divisor: seq<nat>, j: nat, ghost p: seq<nat>)
    returns (q: seq<nat>, rem: seq<nat>)
    requires m >= 2 && AreElements(m, q0) && AreElements(m, rem0) && AreElements(m, divisor)
    requires |divisor| >= 1 && Coprime(divisor[|divisor| - 1], m)
    requires j == |rem0| - |divisor| && j < |q0| && q0[j] == 0 && Decomposes(m, p, q0, divisor, rem0)
    ensures AreElements(m, q) && AreElements(m, rem) && Decomposes(m, p, q, divisor, rem)
    ensures |q| == |q0| && forall k :: 0 <= k < j ==> q[k] == q0[k]
    ensures |rem| < |rem0| && (rem == [] || rem[|rem| - 1] != 0)
  {
    var inverse := Inverse(divisor[|divisor| - 1], m);
    var lead := rem0[|rem0| - 1];
    var term := Field(lead * inverse.value, m);
    rem := SubtractShifted(m, rem0, term, divisor, j);
    DivisionStep(m, p, q0, divisor, rem0, term, j, rem);
    assert Congruent(m, Coeff(rem, |rem| - 1), Coeff(rem0, |rem| - 1) - term * Coeff(divisor, |rem| - 1 - j));
    LeadVanishes(m, lead, divisor[|divisor| - 1], inverse.value, term, rem[|rem| - 1]);
    q := q0[j := term];
    while |rem| > 0 && rem[|rem| - 1] == 0
      invariant AreElements(m, rem) && |rem| <= |rem0|
      invariant |rem| == |rem0| ==> rem[|rem| - 1] == 0
      invariant Decomposes(m, p, q, divisor, rem)
    {
      DropZero(m, p, q, divisor, rem);
      rem := rem[..|rem| - 1];
    }
  }

  /** Long division. The leading coefficient of the divisor must be invertible. */
  method PolynomialDivision(m: nat, dividend: seq<nat>, divisor: seq<nat>) returns (quotient: seq<nat>, remainder: seq<nat>)
    requires m >= 2 && AreElements(m, dividend) && AreElements(m, divisor)
    requires |divisor| >= 1 && Coprime(divisor[|divisor| - 1], m)
    ensures AreElements(m, quotient) && AreElements(m, remainder)
    ensures Decomposes(m, dividend, quotient, divisor, remainder)
    ensures |remainder| < |divisor|
    ensures |quotient| == if |dividend| >= |divisor| then |dividend| - |divisor| + 1 else 0
    ensures |dividend| >= |divisor| ==> remainder == [] || remainder[|remainder| - 1] != 0
  {
    var degree := |dividend| - |divisor|;
    quotient := if degree + 1 > 0 then seq(degree + 1, _ => 0) else [];
    remainder := dividend;
    StartDivision(m, dividend, quotient, divisor);
    while |remainder| >= |divisor|
      invariant AreElements(m, quotient) && AreElements(m, remainder)
      invariant degree == |remainder| - |divisor| && |remainder| <= |dividend|
      invariant |quotient| == if |dividend| >= |divisor| then |dividend| - |divisor| + 1 else 0
      invariant forall k :: 0 <= k <= degree ==> quotient[k] == 0
      invariant Decomposes(m, dividend, quotient, divisor, remainder)
      invariant |remainder| == |dividend| || remainder == [] || remainder[|remainder| - 1] != 0
      decreases |remainder|
    {
      quotient, remainder := DivisionRound(m, quotient, remainder, divisor, degree, dividend);
      degree := |remainder| - |divisor|;
    }
  }

  lemma StartDivision(m: nat, p: seq<nat>, q: seq<nat>, d: seq<nat>)
    requires forall i :: 0 <= i < |q| ==> q[i] == 0
    ensures Decomposes(m, p, q, d, p)
  {
    forall k: nat
      ensures IdentityAt(m, p, q, d, p, k)
    {
      ConvZero(q, d, k, |q|);
      CongruentRefl(m, Coeff(p, k));
    }
  }

  lemma DropZero(m: nat, p: seq<nat>, q: seq<nat>, d: seq<nat>, r: seq<nat>)
    requires r != [] && r[|r| - 1] == 0 && Decomposes(m, p, q, d, r)
    ensures Decomposes(m, p, q, d, r[..|r| - 1])
  {
    var r' := r[..|r| - 1];
    forall k: nat
      ensures IdentityAt(m, p, q, d, r', k)
    {
      assert IdentityAt(m, p, q, d, r, k);
      assert Coeff(r', k) == Coeff(r, k);
    }
  }

  lemma LeadVanishes(m: nat, lead: nat, d: nat, inverse: nat, term: nat, r: nat)
    requires m >= 2 && r < m && Congruent(m, inverse * d, 1) && Congruent(m, term, lead * inverse)
    requires Congruent(m, r, lead - term * d)
    ensures r == 0
  {
    CongruentRefl(m, d);
    CongruentRefl(m, lead);
    CongruentProduct(m, term, lead * inverse, d, d);
    CongruentProduct(m, lead, lead, inverse * d, 1);
    Reassociate(lead, inverse, d);
    CongruentTrans(m, term * d, lead * (inverse * d), lead);
    DifferenceOf(m, r, lead, term * d, lead);
    SameElement(m, r, 0);
  }

  // ----- Dividing by X - i -----

  lemma {:induction false} ConvLinear(q: seq<nat>, d: seq<nat>, k: nat, n: nat)
    requires |d| == 2
    ensures Conv(q, d, k, n) == (if k < n then Coeff(q, k) * d[0] else 0) + (if 1 <= k <= n then Coeff(q, k - 1) * d[1] else 0)
  {
    if n > 0 {
      ConvLinear(q, d, k, n - 1);
    }
  }

  /** q is the quotient of a by X - i up to a constant remainder: Horner's rule. */
  ghost predicate HornerAt(m: nat, a: seq<nat>, i: int, q: seq<nat>, r0: int, k: nat) {
    Congruent(m, Coeff(a, k), Coeff(q, k - 1) - i * Coeff(q, k) + if k == 0 then r0 else 0)
  }

  lemma QuotientIsHorner(m: nat, a: seq<nat>, i: int, q: seq<nat>, d: seq<nat>, r: seq<nat>)
    requires |d| == 2 && Congruent(m, d[0], -i) && d[1] == 1 && |r| <= 1 && Decomposes(m, a, q, d, r)
    ensures forall k: nat :: HornerAt(m, a, i, q, Coeff(r, 0), k)
  {
    forall k: nat
      ensures HornerAt(m, a, i, q, Coeff(r, 0), k)
    {
      assert IdentityAt(m, a, q, d, r, k);
      ConvLinear(q, d, k, |q|);
      var x, y, z := Coeff(q, k), Coeff(q, k - 1), Coeff(r, k);
      CongruentRefl(m, x);
      CongruentRefl(m, y + z);
      CongruentProduct(m, x, x, d[0], -i);
      CongruentCombination(m, x * d[0], x * -i, y + z, y + z, 1, 1);
      NegateProduct(x, i);
      CongruentTrans(m, Coeff(a, k), x * d[0] + (y + z), x * -i + (y + z));
    }
  }

  /** Evaluation of the identity a = q * (X - i) + r0, term by term. */
  lemma {:induction false} HornerEval(m: nat, a: seq<nat>, i: int, q: seq<nat>, r0: int, x: int, k: nat)
    requires forall j: nat :: HornerAt(m, a, i, q, r0, j)
    ensures k > 0 ==>
              Congruent(m, Eval(a, x, k), r0 + (x - i) * Eval(q, x, k) - Coeff(q, k - 1) * IntPow(x, k))
  {
    if k == 1 {
      assert HornerAt(m, a, i, q, r0, 0);
      FirstTerm(a, q, i, r0, x);
    } else if k > 1 {
      HornerEval(m, a, i, q, r0, x, k - 1);
      assert HornerAt(m, a, i, q, r0, k - 1);
      var p := IntPow(x, k - 1);
      var c, c' := Coeff(q, k - 1), Coeff(q, k - 2);
      CongruentRefl(m, p);
      CongruentProduct(m, Coeff(a, k - 1), c' - i * c, p, p);
      var e := r0 + (x - i) * Eval(q, x, k - 1) - c' * p;
      CongruentCombination(m, Eval(a, x, k - 1), e, Coeff(a, k - 1) * p, (c' - i * c) * p, 1, 1);
      NextTerm(x, i, p, c, c', Eval(q, x, k - 1));
    }
  }

  lemma FirstTerm(a: seq<nat>, q: seq<nat>, i: int, r0: int, x: int)
    ensures Eval(a, x, 1) == Coeff(a, 0)
    ensures r0 + (x - i) * Eval(q, x, 1) - Coeff(q, 0) * IntPow(x, 1) == Coeff(q, -1) - i * Coeff(q, 0) + r0
  {
    assert IntPow(x, 1) == x * IntPow(x, 0) == x;
    assert Eval(q, x, 1) == Coeff(q, 0);
    Distribute(Coeff(q, 0), x, i);
  }

  lemma NextTerm(x: int, i: int, p: int, c: int, c': int, e: int)
    ensures (x - i) * e - c' * p + (c' - i * c) * p == (x - i) * (e + c * p) - c * (x * p)
  {
    Distribute(x - i, e, c * p);
    Distribute(p, c', i * c);
    Distribute(c * p, x, i);
    assert c * p * x == c * (x * p);
    assert c * p * i == p * (i * c);
  }

  lemma {:induction false} EvalPadded(q: seq<nat>, x: int, n: nat)
    requires n >= |q|
    ensures Eval(q, x, n) == Eval(q, x, |q|)
  {
    if n > |q| {
      EvalPadded(q, x, n - 1);
    }
  }

  lemma {:induction false} EvalSame(p: seq<nat>, q: seq<nat>, x: int, n: nat)
    requires forall k :: 1 <= k < n ==> Coeff(p, k) == Coeff(q, k)
    ensures n > 0 ==> Eval(p, x, n) - Eval(q, x, n) == Coeff(p, 0) - Coeff(q, 0)
  {
    if n > 1 {
      EvalSame(p, q, x, n - 1);
    } else if n == 1 {
      assert Eval(p, x, 1) == Coeff(p, 0) && Eval(q, x, 1) == Coeff(q, 0);
    }
  }

  /** The value of a polynomial. */
  method Polynomial(m: nat, x: nat, coeffs: seq<nat>) returns (result: nat)
    requires m >= 2 && |coeffs| >= 1 && AreElements(m, coeffs)
    ensures result < m && Congruent(m, result, Eval(coeffs, x, |coeffs|))
  {
    result := coeffs[0];
    var cur := x;
    CongruentRefl(m, result);
    CongruentRefl(m, cur);
    assert IntPow(x, 1) == x * IntPow(x, 0);
    assert Eval(coeffs, x, 1) == coeffs[0];
    for k := 1 to |coeffs|
      invariant result < m && Congruent(m, result, Eval(coeffs, x, k))
      invariant Congruent(m, cur, IntPow(x, k))
    {
      CongruentRefl(m, coeffs[k]);
      CongruentProduct(m, coeffs[k], coeffs[k], cur, IntPow(x, k));
      var term := Field(coeffs[k] * cur, m);
      CongruentTrans(m, term, coeffs[k] * cur, coeffs[k] * IntPow(x, k));
      CongruentCombination(m, result, Eval(coeffs, x, k), term, coeffs[k] * IntPow(x, k), 1, 1);
      var sum := Field(result + term, m);
      CongruentTrans(m, sum, result + term, Eval(coeffs, x, k + 1));
      result := sum;
      CongruentRefl(m, x);
      CongruentProduct(m, x, x, cur, IntPow(x, k));
      var next := Field(cur * x, m);
      CongruentTrans(m, next, x * cur, IntPow(x, k + 1));
      cur := next;
    }
  }

  /** The quotient of f - f(i) by X - i: nothing remains. */
  method QuotientAt(m: nat, i: nat, coeff: seq<nat>) returns (y: nat, q: seq<nat>, remainder: seq<nat>)
    requires m >= 2 && i < m && |coeff| >= 1 && AreElements(m, coeff)
    ensures y < m && Congruent(m, y, Eval(coeff, i, |coeff|))
    ensures AreElements(m, q) && |q| == |coeff| - 1
    ensures |coeff| >= 2 ==> remainder == []
    ensures forall k: nat :: k >= 1 ==> HornerAt(m, coeff, i, q, 0, k)
    ensures forall x: int :: Congruent(m, Eval(coeff, x, |coeff|) - y, (x - i) * Eval(q, x, |q|))
  {
    y := Polynomial(m, i, coeff);
    var constant := Field(coeff[0] as int - y, m);
    var a := coeff[0 := constant];
    var d := [Field(-(i as int), m), 1];
    CoprimeOne(m);
    q, remainder := PolynomialDivision(m, a, d);
    QuotientIsHorner(m, a, i, q, d, remainder);
    NothingRemains(m, i, coeff, y, a, q, remainder);
    forall k: nat | k >= 1
      ensures HornerAt(m, coeff, i, q, 0, k)
    {
      assert HornerAt(m, a, i, q, Coeff(remainder, 0), k);
    }
  }

  lemma CoprimeOne(m: nat)
    ensures Coprime(1, m)
  {
    assert 1 * 1 + 0 * m == 1;
  }

  lemma RemainderAt(m: nat, i: nat, f: seq<nat>, y: nat, a: seq<nat>, q: seq<nat>, r0: nat, x: int)
    requires m >= 2 && |f| >= 1 && |a| == |f| && |q| == |f| - 1
    requires Congruent(m, a[0], f[0] - y) && a == f[0 := a[0]]
    requires forall k: nat :: HornerAt(m, a, i, q, r0, k)
    ensures Congruent(m, Eval(f, x, |f|) - y, r0 + (x - i) * Eval(q, x, |q|))
  {
    var n := |f|;
    HornerEval(m, a, i, q, r0, x, n);
    EvalPadded(q, x, n);
    EvalSame(a, f, x, n);
    var e := Eval(f, x, n) - f[0];
    CongruentRefl(m, e);
    CongruentCombination(m, e, e, a[0], f[0] - y, 1, 1);
    CongruentSym(m, e + a[0], e + (f[0] - y));
    CongruentTrans(m, e + (f[0] - y), Eval(a, x, n), r0 + (x - i) * Eval(q, x, |q|));
  }

  lemma NothingRemains(m: nat, i: nat, f: seq<nat>, y: nat, a: seq<nat>, q: seq<nat>, r: seq<nat>)
    requires m >= 2 && |f| >= 1 && |a| == |f| && |q| == |f| - 1 && |r| <= 1 && AreElements(m, r)
    requires Congruent(m, a[0], f[0] - y) && a == f[0 := a[0]] && Congruent(m, y, Eval(f, i, |f|))
    requires forall k: nat :: HornerAt(m, a, i, q, Coeff(r, 0), k)
    ensures Coeff(r, 0) == 0
    ensures forall x: int :: Congruent(m, Eval(f, x, |f|) - y, (x - i) * Eval(q, x, |q|))
  {
    var n, r0 := |f|, Coeff(r, 0);
    forall x: int
      ensures Congruent(m, Eval(f, x, n) - y, r0 + (x - i) * Eval(q, x, |q|))
    {
      RemainderAt(m, i, f, y, a, q, r0, x);
    }
    assert Congruent(m, Eval(f, i, n) - y, r0 + (i - i) * Eval(q, i, |q|));
    CongruentSym(m, Eval(f, i, n) - y, r0);
    CongruentRefl(m, y);
    CongruentSym(m, y, Eval(f, i, n));
    CongruentCombination(m, Eval(f, i, n), y, y, y, 1, -1);
    CongruentTrans(m, r0, Eval(f, i, n) - y, 0);
    SameElement(m, r0, 0);
  }

  // ----- Commitments over the ideal bilinear group -----

  /** The powers of the secret in the group, known by their exponents. */
  ghost predicate IsSetup(m: nat, alpha: int, powers: seq<nat>) {
    forall j :: 0 <= j < |powers| ==> powers[j] < m && Congruent(m, powers[j], IntPow(alpha, j))
  }

  method Generate(m: nat, alpha: nat, t: nat) returns (powers: seq<nat>)
    requires m >= 2
    ensures |powers| == t + 2 && IsSetup(m, alpha, powers)
  {
    powers := [1];
    CongruentRefl(m, 1);
    for i := 0 to t + 1
      invariant |powers| == i + 1 && IsSetup(m, alpha, powers)
    {
      CongruentRefl(m, alpha);
      CongruentProduct(m, alpha, alpha, powers[i], IntPow(alpha, i));
      var next := Field(powers[i] * alpha, m);
      CongruentTrans(m, next, alpha * powers[i], IntPow(alpha, i + 1));
      powers := powers + [next];
    }
  }

  /** A group element times a scalar, added to a sum. */
  method AddTerm(m: nat, sum: nat, point: nat, scalar: nat, ghost e: int, ghost p: int) returns (r: nat)
    requires m >= 2 && Congruent(m, sum, e) && Congruent(m, point, p)
    ensures r < m && Congruent(m, r, e + scalar * p)
  {
    var term := Field(point * scalar, m);
    CongruentRefl(m, scalar);
    CongruentProduct(m, scalar, scalar, point, p);
    CongruentTrans(m, term, scalar * point, scalar * p);
    CongruentCombination(m, sum, e, term, scalar * p, 1, 1);
    r := Field(sum + term, m);
    CongruentTrans(m, r, sum + term, e + scalar * p);
  }

  /** The commitment to a polynomial is its value at the secret. There is none for the
      empty list, on which the original fails. */
  method CommitSum(m: nat, powers: seq<nat>, coeff: seq<nat>, ghost alpha: int) returns (res: Result<nat>)
    requires m >= 2 && IsSetup(m, alpha, powers) && |coeff| <= |powers| && AreElements(m, coeff)
    ensures res.Ok? <==> coeff != []
    ensures res.Ok? ==> res.value < m && Congruent(m, res.value, Eval(coeff, alpha, |coeff|))
  {
    if coeff == [] {
      return Err("reduce() of empty iterable with no initial value");
    }
    var sum: nat := 0;
    CongruentRefl(m, 0);
    for k := 0 to |coeff|
      invariant sum < m && Congruent(m, sum, Eval(coeff, alpha, k))
    {
      sum := AddTerm(m, sum, powers[k], coeff[k], Eval(coeff, alpha, k), IntPow(alpha, k));
    }
    return Ok(sum);
  }

  /** The sum of x^j * y^(i-j) for lo <= j <= i. */
  function Powers(x: int, y: int, i: nat, lo: nat): int
    decreases i + 1 - lo
  {
    if lo > i then 0 else IntPow(x, lo) * IntPow(y, i - lo) + Powers(x, y, i, lo + 1)
  }

  /** The double sum of the quotient's terms, over the first n coefficients. */
  function DoubleSum(c: seq<nat>, x: int, y: int, n: nat): int {
    if n == 0 then 0 else DoubleSum(c, x, y, n - 1) + Coeff(c, n) * Powers(x, y, n - 1, 0)
  }

  lemma {:induction false} PowersStep(x: int, y: int, i: nat, lo: nat)
    requires lo <= i + 1
    ensures Powers(x, y, i + 1, lo) == IntPow(x, i + 1) + y * Powers(x, y, i, lo)
    decreases i + 1 - lo
  {
    if lo == i + 1 {
      assert Powers(x, y, i + 1, lo + 1) == 0;
      assert IntPow(y, 0) == 1;
    } else {
      PowersStep(x, y, i, lo + 1);
      var p, r := IntPow(x, lo), IntPow(y, i - lo);
      Distribute(y, p * r, Powers(x, y, i, lo + 1));
      assert p * (y * r) == y * (p * r);
    }
  }

  /** Summation by parts: with Horner coefficients q, the double sum is the value of q. */
  lemma {:induction false} DoubleSumIsEval(m: nat, c: seq<nat>, q: seq<nat>, x: int, y: int, k: nat)
    requires forall j: nat :: j >= 1 ==> HornerAt(m, c, y, q, 0, j)
    ensures Congruent(m, Eval(q, x, k), DoubleSum(c, x, y, k) + if k == 0 then 0 else y * Powers(x, y, k - 1, 0) * Coeff(q, k))
    decreases k
  {
    if k == 0 {
      CongruentRefl(m, 0);
    } else {
      DoubleSumIsEval(m, c, q, x, y, k - 1);
      assert HornerAt(m, c, y, q, 0, k);
      var h, h0 := Powers(x, y, k - 1, 0), if k == 1 then 0 else Powers(x, y, k - 2, 0);
      assert h == IntPow(x, k - 1) + y * h0 by {
        if k > 1 {
          PowersStep(x, y, k - 2, 0);
        } else {
          assert Powers(x, y, 0, 1) == 0;
        }
      }
      ByParts(m, Coeff(c, k), Coeff(q, k - 1), Coeff(q, k), h, h0, IntPow(x, k - 1), y,
              Eval(q, x, k - 1), DoubleSum(c, x, y, k - 1));
    }
  }

  lemma ByParts(m: nat, c: int, q1: int, q2: int, h: int, h0: int, p: int, y: int, e: int, s: int)
    requires Congruent(m, c, q1 - y * q2) && h == p + y * h0 && Congruent(m, e, s + y * h0 * q1)
    ensures Congruent(m, e + q1 * p, s + c * h + y * h * q2)
  {
    CongruentSym(m, c, q1 - y * q2);
    CongruentRefl(m, h);
    CongruentProduct(m, q1 - y * q2, c, h, h);
    CongruentRefl(m, s + y * h * q2);
    CongruentCombination(m, (q1 - y * q2) * h, c * h, s + y * h * q2, s + y * h * q2, 1, 1);
    CongruentRefl(m, q1 * p);
    CongruentCombination(m, e, s + y * h0 * q1, q1 * p, q1 * p, 1, 1);
    assert s + y * h0 * q1 + q1 * p == (q1 - y * q2) * h + (s + y * h * q2) by {
      Distribute(h, q1, y * q2);
      Distribute(q1, p, y * h0);
      assert q1 * (y * h0) == y * h0 * q1;
      assert h * (y * q2) == y * h * q2;
    }
    CongruentTrans(m, e + q1 * p, (q1 - y * q2) * h + (s + y * h * q2), s + c * h + y * h * q2);
  }

  method PowersOf(m: nat, y: nat, n: nat) returns (powers: seq<nat>)
    requires m >= 2
    ensures |powers| == n + 1 && IsSetup(m, y, powers)
  {
    if n == 0 {
      CongruentRefl(m, 1);
      return [1];
    }
    powers := Generate(m, y, n - 1);
  }

  /** One row of the double sum: the terms for the coefficient after position i. */
  method AddRow(m: nat, powers: seq<nat>, yPowers: seq<nat>, c: nat, i: nat, sum0: nat, ghost alpha: int, ghost y: int,
                ghost e: int) returns (sum: nat)
    requires m >= 2 && IsSetup(m, alpha, powers) && IsSetup(m, y, yPowers) && i < |powers| && i < |yPowers|
    requires sum0 < m && Congruent(m, sum0, e)
    ensures sum < m && Congruent(m, sum, e + c * Powers(alpha, y, i, 0))
  {
    sum := sum0;
    var j := i;
    assert Powers(alpha, y, i, i + 1) == 0;
    while j >= 0
      invariant -1 <= j <= i && sum < m
      invariant Congruent(m, sum, e + c * Powers(alpha, y, i, j + 1))
      decreases j
    {
      var scalar := Field(yPowers[i - j] * c, m);
      CongruentRefl(m, c);
      CongruentProduct(m, yPowers[i - j], IntPow(y, i - j), c, c);
      CongruentTrans(m, scalar, yPowers[i - j] * c, IntPow(y, i - j) * c);
      var next := AddTerm(m, sum, powers[j], scalar, e + c * Powers(alpha, y, i, j + 1), IntPow(alpha, j));
      ScalarTerm(m, scalar, IntPow(y, i - j), c, IntPow(alpha, j), e + c * Powers(alpha, y, i, j + 1), next);
      Distribute(c, IntPow(alpha, j) * IntPow(y, i - j), Powers(alpha, y, i, j + 1));
      sum := next;
      j := j - 1;
    }
  }

  lemma ScalarTerm(m: nat, scalar: int, b: int, c: int, p: int, e: int, next: int)
    requires Congruent(m, scalar, b * c) && Congruent(m, next, e + scalar * p)
    ensures Congruent(m, next, e + c * (p * b))
  {
    CongruentRefl(m, p);
    CongruentRefl(m, e);
    CongruentProduct(m, scalar, b * c, p, p);
    CongruentCombination(m, e, e, scalar * p, b * c * p, 1, 1);
    assert b * c * p == c * (p * b);
    CongruentTrans(m, next, e + scalar * p, e + c * (p * b));
  }

  /** The commitment to the quotient by its double sum. There is none for a constant
      polynomial. */
  method CommitDivision(m: nat, powers: seq<nat>, y: nat, coeff: seq<nat>, ghost alpha: int)
    returns (some: bool, result: nat)
    requires m >= 2 && IsSetup(m, alpha, powers) && 1 <= |coeff| <= |powers| && AreElements(m, coeff)
    ensures some <==> |coeff| >= 2
    ensures result < m && Congruent(m, result, DoubleSum(coeff, alpha, y, |coeff| - 1))
  {
    var n := |coeff|;
    var yPowers := PowersOf(m, y, n);
    some, result := false, 0;
    CongruentRefl(m, 0);
    for i := 0 to n - 1
      invariant result < m && Congruent(m, result, DoubleSum(coeff, alpha, y, i)) && (some <==> i > 0)
    {
      result := AddRow(m, powers, yPowers, coeff[i + 1], i, result, alpha, y, DoubleSum(coeff, alpha, y, i));
      some := true;
    }
  }

  /** The commitment to the quotient by long division. */
  method CommitDivisionOptimized(m: nat, powers: seq<nat>, i: nat, coeff: seq<nat>, ghost alpha: int)
    returns (res: Result<nat>, ghost q: seq<nat>)
    requires m >= 2 && i < m && IsSetup(m, alpha, powers) && 1 <= |coeff| <= |powers| && AreElements(m, coeff)
    ensures res.Ok? <==> |coeff| >= 2
    ensures res.Ok? ==> res.value < m && Congruent(m, res.value, Eval(q, alpha, |q|)) && |q| == |coeff| - 1
    ensures forall k: nat :: k >= 1 ==> HornerAt(m, coeff, i, q, 0, k)
    ensures forall x, y: int :: Congruent(m, y, Eval(coeff, i, |coeff|)) ==>
                                  Congruent(m, Eval(coeff, x, |coeff|) - y, (x - i) * Eval(q, x, |q|))
  {
    var value, quotient, remainder := QuotientAt(m, i, coeff);
    q := quotient;
    res := CommitSum(m, powers, quotient, alpha);
    forall x, y: int | Congruent(m, y, Eval(coeff, i, |coeff|))
      ensures Congruent(m, Eval(coeff, x, |coeff|) - y, (x - i) * Eval(q, x, |q|))
    {
      SameValue(m, Eval(coeff, x, |coeff|), y, value, Eval(coeff, i, |coeff|), (x - i) * Eval(q, x, |q|));
    }
  }

  lemma SameValue(m: nat, f: int, y: int, value: int, e: int, g: int)
    requires Congruent(m, y, e) && Congruent(m, value, e) && Congruent(m, f - value, g)
    ensures Congruent(m, f - y, g)
  {
    CongruentSym(m, value, e);
    CongruentTrans(m, y, e, value);
    CongruentRefl(m, f);
    CongruentCombination(m, f, f, y, value, 1, -1);
    CongruentTrans(m, f - y, f - value, g);
  }

  /** Both ways of committing to the quotient agree. */
  method BothDivisions(m: nat, powers: seq<nat>, i: nat, coeff: seq<nat>, ghost alpha: int) returns (w: nat, w': nat)
    requires m >= 2 && i < m && IsSetup(m, alpha, powers) && 2 <= |coeff| <= |powers| && AreElements(m, coeff)
    ensures w == w'
  {
    var res, some;
    ghost var q;
    res, q := CommitDivisionOptimized(m, powers, i, coeff, alpha);
    w := res.value;
    some, w' := CommitDivision(m, powers, i, coeff, alpha);
    DoubleSumIsEval(m, coeff, q, alpha, i, |q|);
    CongruentTrans(m, w, Eval(q, alpha, |q|), DoubleSum(coeff, alpha, i, |q|));
    CongruentSym(m, w', DoubleSum(coeff, alpha, i, |q|));
    CongruentTrans(m, w, DoubleSum(coeff, alpha, i, |q|), w');
    SameElement(m, w, w');
  }

  /** The pairing check: e(W, x - i) against e(c - y, 1). In the ideal group a pairing
      multiplies exponents, and the product of its values is one when they add up to zero. */
  method VerifyEvalProof(m: nat, powers2: seq<nat>, c: nat, i: nat, y: nat, W: nat, ghost alpha: int) returns (valid: bool)
    requires m >= 2 && |powers2| >= 2 && IsSetup(m, alpha, powers2)
    ensures valid <==> Congruent(m, (alpha - i) * W, c - y)
  {
    var xSubI := Field(powers2[1] as int - i, m);
    var phiSubY := Field(c as int - y, m);
    var a := Field(xSubI * W, m);
    var b := Field(-(phiSubY as int), m);
    valid := Field(a + b, m) == 0;
    assert IntPow(alpha, 1) == alpha * IntPow(alpha, 0) == alpha;
    PairingCheck(m, powers2[1], alpha, i, W, c - y, xSubI, phiSubY, a, b, Field(a + b, m));
  }

  lemma PairingCheck(m: nat, x: int, alpha: int, i: int, w: int, d: int, xSubI: int, d': int, a: int, b: int, s: nat)
    requires m >= 2 && Congruent(m, x, alpha) && Congruent(m, xSubI, x - i) && Congruent(m, d', d)
    requires Congruent(m, a, xSubI * w) && Congruent(m, b, -d') && s < m && Congruent(m, s, a + b)
    ensures s == 0 <==> Congruent(m, (alpha - i) * w, d)
  {
    CongruentRefl(m, i);
    CongruentRefl(m, w);
    CongruentCombination(m, x, alpha, i, i, 1, -1);
    CongruentTrans(m, xSubI, x - i, alpha - i);
    CongruentProduct(m, xSubI, alpha - i, w, w);
    CongruentTrans(m, a, xSubI * w, (alpha - i) * w);
    CongruentRefl(m, 0);
    CongruentCombination(m, d', d, 0, 0, -1, 0);
    CongruentTrans(m, b, -d', -d);
    CongruentCombination(m, a, (alpha - i) * w, b, -d, 1, 1);
    CongruentTrans(m, s, a + b, (alpha - i) * w - d);
    CongruentInRange(m, s, 0);
    CongruentIff(m, s, (alpha - i) * w - d, 0);
  }

  /** An honest opening of a commitment is accepted. */
  method OpenAndVerify(m: nat, alpha: nat, coeff: seq<nat>, i: nat) returns (valid: bool)
    requires m >= 2 && |coeff| >= 2 && AreElements(m, coeff) && i < m
    ensures valid
  {
    var powers := Generate(m, alpha, |coeff|);
    var c := CommitSum(m, powers, coeff, alpha);
    var y := Polynomial(m, i, coeff);
    var W;
    ghost var q;
    W, q := CommitDivisionOptimized(m, powers, i, coeff, alpha);
    valid := VerifyEvalProof(m, powers, c.value, i, y, W.value, alpha);
    HonestOpening(m, alpha, i, Eval(coeff, alpha, |coeff|), y, c.value, W.value, Eval(q, alpha, |q|));
  }

  lemma HonestOpening(m: nat, alpha: int, i: int, f: int, y: int, c: int, w: int, q: int)
    requires Congruent(m, c, f) && Congruent(m, w, q) && Congruent(m, f - y, (alpha - i) * q)
    ensures Congruent(m, (alpha - i) * w, c - y)
  {
    CongruentRefl(m, alpha - i);
    CongruentProduct(m, alpha - i, alpha - i, w, q);
    CongruentSym(m, f - y, (alpha - i) * q);
    CongruentSym(m, c, f);
    CongruentRefl(m, y);
    CongruentCombination(m, f, c, y, y, 1, -1);
    CongruentTrans(m, (alpha - i) * q, f - y, c - y);
    CongruentTrans(m, (alpha - i) * w, (alpha - i) * q, c - y);
  }

}
