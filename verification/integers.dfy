/** The integer operations that the form arithmetic takes from its bignum library,
    with the rounding conventions of the original calls made explicit, and the
    arithmetic facts shared by the other modules. */
module Integers {

  function Abs(n: int): (r: nat)
    ensures r == n || r == -n
  {
    if n < 0 then -n else n
  }

  /** One for true, zero for false. */
  function One(b: bool): nat {
    if b then 1 else 0
  }

  // ----- Products -----

  lemma ProductGrows(m: int, n: int)
    ensures m >= 1 && n >= 1 ==> m * n >= m && m * n >= n
    ensures m >= 0 && n >= 0 ==> m * n >= 0
    ensures m >= 0 && n <= 0 ==> m * n <= 0
  {
  }

  lemma Distribute(m: int, p: int, q: int)
    ensures m * (p + q) == m * p + m * q
    ensures m * (p - q) == m * p - m * q
    ensures (p + q) * m == m * p + m * q
    ensures (p - q) * m == m * p - m * q
  {
  }

  lemma ProductMonotone(m: int, p: int, q: int)
    requires m >= 0 && p <= q
    ensures m * p <= m * q
  {
    Distribute(m, q, p);
    ProductGrows(m, q - p);
  }

  lemma NegateProduct(m: int, n: int)
    ensures -m * n == -(m * n) && m * -n == -(m * n)
  {
  }

  lemma PositiveFactor(j: int, s: int)
    requires j > 0 && j * s > 0
    ensures s > 0
  {
    ProductGrows(j, s);
  }

  lemma Reassociate(m: int, n: int, p: int)
    ensures m * n * p == m * (n * p)
  {
  }

  lemma Swap(x: int, y: int, z: int)
    ensures x * (y * z) == y * (x * z)
  {
    Reassociate(x, y, z);
    Reassociate(y, x, z);
  }

  lemma UnitProduct(p: int, s: int)
    requires p * s == 1
    ensures p == s && (p == 1 || p == -1)
  {
    ProductGrows(p, s);
    ProductGrows(-p, -s);
    ProductGrows(s, p);
    ProductGrows(-s, -p);
  }

  lemma SmallMultiple(m: int, n: int)
    requires -m < m * n < m
    ensures n == 0
  {
    ProductGrows(m, n);
    ProductGrows(m, -n);
  }

  lemma SameSquares(b: nat, d: nat)
    requires b * b == d * d
    ensures b == d
  {
    assert (b - d) * (b + d) == 0;
  }

  lemma CancelFactor(d: int, m: int, n: int)
    requires d != 0 && m * d == n * d
    ensures m == n
  {
    assert (m - n) * d == 0;
  }

  lemma CancelLe(d: int, m: int, n: int)
    requires d > 0 && m * d <= n * d
    ensures m <= n
  {
    Distribute(d, m, n);
    ProductGrows(d, m - n);
  }

  // ----- Division -----

  /** Floor quotient for a positive divisor. */
  function FloorDiv(n: int, d: int): (q: int)
    requires d > 0
    ensures q * d <= n < q * d + d
  {
    n / d
  }

  /** Floor remainder: the result takes the sign of the divisor. */
  function FloorMod(n: int, d: int): (r: int)
    requires d != 0
    ensures if d > 0 then 0 <= r < d else d < r <= 0
    ensures Divides(d, n - r)
  {
    var r := n % d;
    assert n == (n / d) * d + r;
    if d > 0 || r == 0 then
      assert n - r == (n / d) * d;
      r
    else
      assert n - (r + d) == (n / d - 1) * d;
      r + d
  }

  /** Quotient truncated toward zero. */
  function TruncDiv(n: int, d: int): int
    requires d != 0
  {
    if n >= 0 then n / d else -(-n / d)
  }

  /** Exact quotient. The precondition is the one the original call relies on:
      the divisor divides the numerator. */
  function DivExact(n: int, d: int): (q: int)
    requires d != 0 && n % d == 0
    ensures q * d == n
  {
    n / d
  }

  ghost predicate Divides(d: int, n: int) {
    exists q :: n == q * d
  }

  lemma DividesBy(d: int, q: int)
    ensures Divides(d, q * d)
  {
  }

  lemma Quotient(q: int, d: int)
    requires d != 0
    ensures (q * d) % d == 0 && (q * d) / d == q
  {
    var n := q * d;
    var p, e := q - n / d, if d > 0 then d else -d;
    assert p * d == n % d;
    SmallMultiple(e, if d > 0 then p else -p);
  }

  lemma NoRemainder(d: int, n: int)
    requires d != 0
    ensures Divides(d, n) <==> n % d == 0
  {
    if Divides(d, n) {
      var q :| n == q * d;
      Quotient(q, d);
    } else {
      assert n == (n / d) * d + n % d;
    }
  }

  lemma DividesTransitive(d: int, e: int, n: int)
    requires Divides(d, e) && Divides(e, n)
    ensures Divides(d, n)
  {
    var p :| e == p * d;
    var q :| n == q * e;
    assert n == (q * p) * d;
  }

  /** Divisibility is closed under integer combinations. */
  lemma DividesCombination(d: int, m: int, n: int, u: int, v: int)
    requires Divides(d, m) && Divides(d, n)
    ensures Divides(d, u * m + v * n)
  {
    var p :| m == p * d;
    var q :| n == q * d;
    assert u * m + v * n == (u * p + v * q) * d;
  }

  /** A residue condition on e also holds for e + z*d. */
  lemma DividesShift(d: int, c: int, e: int, z: int, n: int)
    requires Divides(d, c * e + n)
    ensures Divides(d, c * (e + z * d) + n)
  {
    var p :| c * e + n == p * d;
    Distribute(c, e, z * d);
    Reassociate(c, z, d);
    Distribute(d, p, c * z);
    DividesBy(d, p + c * z);
  }

  lemma QuotientOfQuotient(v: nat, m: nat, k: nat)
    requires m > 0 && k > 0
    ensures m * k > 0 && v / (m * k) == v / m / k
  {
    ProductGrows(m, k);
    var x := v / m;
    var q, s := x / k, x % k;
    assert x == q * k + s;
    MixedRadix(m, k, q, s, v % m);
    QuotientIs(v, m * k, q, s * m + v % m);
  }

  lemma MixedRadix(m: nat, k: nat, q: int, s: int, r: int)
    requires 0 <= s < k && 0 <= r < m
    ensures (q * k + s) * m + r == q * (m * k) + (s * m + r) && 0 <= s * m + r < m * k
  {
    Distribute(m, q * k, s);
    Reassociate(m, k, q);
    Distribute(m, k, s);
    Distribute(m, k - s, 1);
    ProductGrows(m, k - s - 1);
    ProductGrows(s, m);
  }

  lemma QuotientIs(v: int, d: int, q: int, r: int)
    requires d > 0 && v == q * d + r && 0 <= r < d
    ensures v / d == q && v % d == r
  {
    assert v == v / d * d + v % d;
    Distribute(d, v / d, q);
    SmallMultiple(d, v / d - q);
  }

  // ----- Greatest common divisors -----

  datatype GcdRes = GcdRes(gcd: int, s: int, t: int)

  /** g is a greatest common divisor of a and b: a common divisor that the two generate. */
  ghost predicate IsGcd(r: GcdRes, a: int, b: int) {
    r.gcd >= 0 && Divides(r.gcd, a) && Divides(r.gcd, b) && r.s * a + r.t * b == r.gcd
  }

  function EuclidGcd(a: nat, b: nat): (r: GcdRes)
    ensures IsGcd(r, a, b)
    ensures r.gcd == 0 <==> a == 0 && b == 0
    decreases b
  {
    if b == 0 then
      assert a == 1 * a && b == 0 * a;
      GcdRes(a, 1, 0)
    else
      var r := EuclidGcd(b, a % b);
      EuclidStep(r, a, b);
      GcdRes(r.gcd, r.t, r.s - r.t * (a / b))
  }

  lemma EuclidStep(r: GcdRes, a: nat, b: nat)
    requires b > 0 && IsGcd(r, b, a % b)
    ensures IsGcd(GcdRes(r.gcd, r.t, r.s - r.t * (a / b)), a, b)
  {
    var q := a / b;
    assert a == q * b + a % b;
    DividesCombination(r.gcd, b, a % b, q, 1);
    assert r.t * a == r.t * q * b + r.t * (a % b);
  }

  /** The extended gcd of the bignum library, for arguments of any sign. The first
      cofactor is bounded by half the second argument, up to rounding, and can
      have either sign. */
  function Gcd(a: int, b: int): (r: GcdRes)
    ensures IsGcd(r, a, b)
    ensures r.gcd == 0 <==> a == 0 && b == 0
    ensures b != 0 ==> var B := if b < 0 then -b else b; -B < 2 * r.s <= B
  {
    var r := EuclidGcd(if a < 0 then -a else a, if b < 0 then -b else b);
    var s, t := if a < 0 then -r.s else r.s, if b < 0 then -r.t else r.t;
    SignedGcd(r, a, b);
    if b == 0 then
      GcdRes(r.gcd, s, t)
    else
      var B := if b < 0 then -b else b;
      var q := Nearest(s, B);
      ShiftCofactors(s, t, a, b, q, r.gcd);
      GcdRes(r.gcd, s - q * B, t + (if b < 0 then -q else q) * a)
  }

  /** Some gcd, for proofs that do not care which. */
  lemma SomeGcd(x: int, y: int) returns (r: GcdRes)
    ensures IsGcd(r, x, y) && (r.gcd == 0 <==> x == 0 && y == 0)
  {
    r := Gcd(x, y);
  }

  method ExtendedGcd(a: int, b: int) returns (r: GcdRes)
    ensures IsGcd(r, a, b)
    ensures r.gcd == 0 <==> a == 0 && b == 0
    ensures b != 0 ==> var B := if b < 0 then -b else b; -B < 2 * r.s <= B
  {
    r := Gcd(a, b);
  }

  /** The quotient that leaves the remainder of least magnitude. */
  function Nearest(s: int, B: int): (q: int)
    requires B > 0
    ensures -B < 2 * (s - q * B) <= B
  {
    assert s == (s / B) * B + s % B;
    if 2 * (s % B) > B then s / B + 1 else s / B
  }

  lemma SignedGcd(r: GcdRes, a: int, b: int)
    requires IsGcd(r, if a < 0 then -a else a, if b < 0 then -b else b)
    ensures IsGcd(GcdRes(r.gcd, if a < 0 then -r.s else r.s, if b < 0 then -r.t else r.t), a, b)
  {
    var A, B := if a < 0 then -a else a, if b < 0 then -b else b;
    DividesCombination(r.gcd, A, A, if a < 0 then -1 else 1, 0);
    DividesCombination(r.gcd, B, B, if b < 0 then -1 else 1, 0);
  }

  lemma ShiftCofactors(s: int, t: int, a: int, b: int, q: int, g: int)
    requires s * a + t * b == g
    ensures var B := if b < 0 then -b else b;
            (s - q * B) * a + (t + (if b < 0 then -q else q) * a) * b == g
  {
    var B := if b < 0 then -b else b;
    assert q * B * a == (if b < 0 then -q else q) * a * b;
  }

  /** Every common divisor divides the gcd. */
  lemma GcdIsGreatest(r: GcdRes, a: int, b: int, d: int)
    requires IsGcd(r, a, b) && Divides(d, a) && Divides(d, b)
    ensures Divides(d, r.gcd)
  {
    DividesCombination(d, a, b, r.s, r.t);
  }

  lemma MutualDivisors(d: int, e: int)
    requires d >= 0 && e >= 0 && Divides(d, e) && Divides(e, d)
    ensures d == e
  {
    var p :| e == p * d;
    var q :| d == q * e;
    if d != 0 {
      assert (q * p) * d == 1 * d;
      CancelFactor(d, q * p, 1);
      UnitProduct(q, p);
    }
  }

  lemma GcdUnique(r: GcdRes, r': GcdRes, a: int, b: int)
    requires IsGcd(r, a, b) && IsGcd(r', a, b)
    ensures r.gcd == r'.gcd
  {
    GcdIsGreatest(r, a, b, r'.gcd);
    GcdIsGreatest(r', a, b, r.gcd);
    MutualDivisors(r.gcd, r'.gcd);
  }

  /** Coprimality by Bezout's identity. */
  ghost predicate Coprime(a: int, b: int) {
    exists s, t :: s * a + t * b == 1
  }

  /** If d divides m*n and is coprime to m, it divides n. */
  lemma CoprimeDivides(d: int, m: int, n: int)
    requires Coprime(d, m) && Divides(d, m * n)
    ensures Divides(d, n)
  {
    var s, t :| s * d + t * m == 1;
    var q :| m * n == q * d;
    assert n == (s * d + t * m) * n;
    assert n == s * n * d + t * (m * n);
    assert n == (s * n + t * q) * d;
  }

  // ----- Powers -----

  function IntPow(b: int, e: nat): int {
    if e == 0 then 1 else b * IntPow(b, e - 1)
  }

  lemma IntPowAdd(b: int, m: nat, n: nat)
    ensures IntPow(b, m + n) == IntPow(b, m) * IntPow(b, n)
  {
    if m > 0 {
      IntPowAdd(b, m - 1, n);
      Reassociate(b, IntPow(b, m - 1), IntPow(b, n));
    }
  }

  /** Modular power with a non-negative result. */
  function FastPowMod(base: int, exp: nat, mod: nat): (r: nat)
    requires mod > 0
    ensures Divides(mod, IntPow(base, exp) - r) && r < mod
  {
    var n := IntPow(base, exp);
    assert n - n % mod == n / mod * mod;
    n % mod
  }

}
