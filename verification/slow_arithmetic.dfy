/** The slow reference arithmetic of the class group: general multiplication through
    two linear congruences, and the one-gcd squaring. */
module SlowArithmetic {
  import opened Integers
  import opened Forms
  import opened Composition
  import opened Reduction

  // ----- The half sum and half difference of the middle coefficients -----

  lemma OddProduct(p: int, q: int)
    ensures (2 * p + 1) * (2 * q + 1) == 4 * (p * q) + 2 * (p + q) + 1
  {
  }

  lemma SameParity(f1: Form, f2: Form)
    requires Disc(f1) == Disc(f2)
    ensures (f1.b + f2.b) % 2 == 0 && (f2.b - f1.b) % 2 == 0
  {
    Distribute(f1.b + f2.b, f1.b, f2.b);
    Distribute(f1.b, f1.b, f2.b);
    Distribute(f2.b, f1.b, f2.b);
    Reassociate(4, f1.a, f1.c);
    Reassociate(4, f2.a, f2.c);
    EvenDifference(f1.b, f2.b, f1.a * f1.c - f2.a * f2.c);
  }

  lemma EvenDifference(x: int, y: int, n: int)
    requires (x - y) * (x + y) == 4 * n
    ensures (x - y) % 2 == 0
  {
    var p, q := (x - y) / 2, (x + y) / 2;
    OddProduct(p, q);
    assert x - y == 2 * p + (x - y) % 2 && x + y == 2 * q + (x + y) % 2;
    assert (x - y) % 2 == (x + y) % 2;
  }

  lemma HalfSums(f1: Form, f2: Form, g: int, h: int)
    requires Disc(f1) == Disc(f2)
    requires g == FloorDiv(f2.b + f1.b, 2) && h == FloorDiv(f2.b - f1.b, 2)
    ensures f1.b == g - h && f2.b == g + h
    ensures h * g == f2.a * f2.c - f1.a * f1.c
  {
    SameParity(f1, f2);
    assert f2.b * f2.b - f1.b * f1.b == 4 * (h * g);
  }

  // ----- Linear congruences -----

  /** The solutions of a*x = b (mod m) are mu + v*n. The precondition is the assertion
      of the original: the gcd divides b. */
  function SolveLinearCongruence(a: int, b: int, m: int): (r: (int, int))
    requires m > 0 && Divides(Gcd(a, m).gcd, b)
    ensures 0 <= r.0 < m && Divides(m, a * r.0 - b)
    ensures r.1 * Gcd(a, m).gcd == m
  {
    var gcd := Gcd(a, m);
    var q := FloorDiv(b, gcd.gcd);
    var mu := (q * gcd.s) % m;
    NoRemainder(gcd.gcd, b);
    NoRemainder(gcd.gcd, m);
    SolutionOfCongruence(a, b, m, gcd, q, mu);
    (mu, FloorDiv(m, gcd.gcd))
  }

  lemma SolutionOfCongruence(a: int, b: int, m: int, r: GcdRes, q: int, mu: int)
    requires m > 0 && IsGcd(r, a, m) && b == q * r.gcd && mu == (q * r.s) % m
    ensures Divides(m, a * mu - b)
  {
    var p := q * r.s / m;
    assert q * r.s == p * m + mu;
    assert a * mu - b == (-(a * p) - q * r.t) * m by {
      assert a * mu == a * (q * r.s) - a * (p * m);
      assert b == q * (r.s * a + r.t * m);
      assert q * (r.s * a + r.t * m) == a * (q * r.s) + q * r.t * m;
    }
  }

  // ----- Multiplication -----

  /** What the multiplication works with: scale j = w, cofactors s, t, u of the two
      leading coefficients and the half sum, and the half difference h. */
  ghost predicate Setting(f1: Form, f2: Form, w: int, s: int, t: int, u: int, h: int) {
    && w > 0 && s > 0 && t > 0
    && f1 == Form(w * s, w * u - h, f1.c)
    && f2 == Form(w * t, w * u + h, f2.c)
    && h * u == t * f2.c - s * f1.c
    && exists x, y, z :: x * s + y * t + z * u == 1
  }

  function ThreeGcd(a: int, b: int, c: int): (r: int)
    ensures r >= 0 && Divides(r, a) && Divides(r, b) && Divides(r, c)
    ensures exists x, y, z :: x * a + y * b + z * c == r
    ensures r == 0 ==> a == 0
  {
    var r1 := Gcd(a, b);
    var r2 := Gcd(r1.gcd, c);
    ThreeGcdSound(a, b, c, r1, r2);
    r2.gcd
  }

  lemma ThreeGcdSound(a: int, b: int, c: int, r1: GcdRes, r2: GcdRes)
    requires IsGcd(r1, a, b) && IsGcd(r2, r1.gcd, c)
    ensures Divides(r2.gcd, a) && Divides(r2.gcd, b)
    ensures exists x, y, z :: x * a + y * b + z * c == r2.gcd
  {
    DividesTransitive(r2.gcd, r1.gcd, a);
    DividesTransitive(r2.gcd, r1.gcd, b);
    assert r2.s * (r1.s * a + r1.t * b) == (r2.s * r1.s) * a + (r2.s * r1.t) * b;
    assert (r2.s * r1.s) * a + (r2.s * r1.t) * b + r2.t * c == r2.gcd;
  }

  lemma ScaledBezout(w: int, s: int, t: int, u: int)
    requires w > 0 && exists x, y, z :: x * (w * s) + y * (w * t) + z * (w * u) == w
    ensures exists x, y, z :: x * s + y * t + z * u == 1
  {
    var x, y, z :| x * (w * s) + y * (w * t) + z * (w * u) == w;
    assert x * (w * s) + y * (w * t) + z * (w * u) == (x * s + y * t + z * u) * w;
    CancelFactor(w, x * s + y * t + z * u, 1);
  }

  lemma ScaledRelation(w: int, h: int, s: int, t: int, u: int, c1: int, c2: int)
    requires w > 0 && h * (w * u) == w * t * c2 - w * s * c1
    ensures h * u == t * c2 - s * c1
  {
    assert (h * u) * w == (t * c2 - s * c1) * w;
    CancelFactor(w, h * u, t * c2 - s * c1);
  }

  lemma FloorOfMultiple(n: int, w: int)
    requires w > 0 && Divides(w, n)
    ensures n == w * FloorDiv(n, w)
  {
    NoRemainder(w, n);
  }

  lemma SettingHolds(f1: Form, f2: Form, w: int, g: int, h: int, s: int, t: int, u: int)
    requires PositiveDefinite(f1) && PositiveDefinite(f2) && Disc(f1) == Disc(f2)
    requires g == FloorDiv(f2.b + f1.b, 2) && h == FloorDiv(f2.b - f1.b, 2)
    requires w == ThreeGcd(f1.a, f2.a, g) > 0
    requires s == FloorDiv(f1.a, w) && t == FloorDiv(f2.a, w) && u == FloorDiv(g, w)
    ensures Setting(f1, f2, w, s, t, u, h)
  {
    HalfSums(f1, f2, g, h);
    FloorOfMultiple(f1.a, w);
    FloorOfMultiple(f2.a, w);
    FloorOfMultiple(g, w);
    PositiveFactor(w, s);
    PositiveFactor(w, t);
    ScaledBezout(w, s, t, u);
    ScaledRelation(w, h, s, t, u, f1.c, f2.c);
  }

  // ----- Both congruences are solvable -----

  /** d = gcd(u, s) divides c2 and is coprime to t. */
  lemma CommonPart(f1: Form, f2: Form, w: int, s: int, t: int, u: int, h: int, d: int, s': int, u': int)
    requires Setting(f1, f2, w, s, t, u, h) && s == s' * d && u == u' * d
    ensures Coprime(d, t) && Divides(d, f2.c)
  {
    var x, y, z :| x * s + y * t + z * u == 1;
    assert (x * s' + z * u') * d + y * t == 1;
    assert t * f2.c == (h * u' + s' * f1.c) * d;
    CoprimeDivides(d, t, f2.c);
  }

  /** The gcd of the first congruence is t*gcd(u, s). */
  lemma FirstGcd(s: int, t: int, u: int, r: GcdRes, d: GcdRes)
    requires s > 0 && t > 0 && IsGcd(r, t * u, s * t) && IsGcd(d, u, s)
    ensures r.gcd == t * d.gcd
  {
    var p :| u == p * d.gcd;
    var q :| s == q * d.gcd;
    Swap(t, p, d.gcd);
    Swap(t, q, d.gcd);
    DividesBy(t * d.gcd, p);
    DividesBy(t * d.gcd, q);
    DividesCombination(t * d.gcd, t * u, s * t, r.s, r.t);
    DividesCombination(r.gcd, t * u, s * t, d.s, d.t);
    Swap(d.s, t, u);
    Swap(d.t, t, s);
    Distribute(t, d.s * u, d.t * s);
    ProductGrows(t, d.gcd);
    MutualDivisors(r.gcd, t * d.gcd);
  }

  lemma FirstSolvable(f1: Form, f2: Form, w: int, s: int, t: int, u: int, h: int)
    requires Setting(f1, f2, w, s, t, u, h)
    ensures Divides(Gcd(t * u, s * t).gcd, h * u + s * f1.c)
    ensures Gcd(t * u, s * t).gcd == t * Gcd(u, s).gcd
  {
    var r, d := Gcd(t * u, s * t), Gcd(u, s);
    FirstGcd(s, t, u, r, d);
    var u' :| u == u' * d.gcd;
    var s' :| s == s' * d.gcd;
    CommonPart(f1, f2, w, s, t, u, h, d.gcd, s', u');
    var e :| f2.c == e * d.gcd;
    Swap(t, e, d.gcd);
    DividesBy(t * d.gcd, e);
  }

  /** Modulo s, the first solution satisfies u*k = c2, and u, s agree with the
      cofactors of d = gcd(u, s). */
  lemma FirstSolution(f1: Form, f2: Form, w: int, s: int, t: int, u: int, h: int, k: int) returns (e: int)
    requires Setting(f1, f2, w, s, t, u, h) && Divides(s * t, t * u * k - (h * u + s * f1.c))
    ensures u * k - f2.c == s * e
  {
    e :| t * u * k - (h * u + s * f1.c) == e * (s * t);
    Reassociate(t, u, k);
    Reassociate(e, s, t);
    Distribute(t, u * k, f2.c);
    CancelFactor(t, u * k - f2.c, s * e);
  }

  lemma CancelScale(t: int, d: int, cf: int, s: int)
    requires t > 0 && cf * (t * d) == s * t
    ensures cf * d == s
  {
    assert cf * (t * d) == (cf * d) * t;
    CancelFactor(t, cf * d, s);
  }

  lemma CofactorsCoprime(d: GcdRes, u: int, s: int, u': int, s': int)
    requires IsGcd(d, u, s) && d.gcd > 0 && u == u' * d.gcd && s == s' * d.gcd
    ensures Coprime(s', u')
  {
    assert (d.s * u' + d.t * s') * d.gcd == 1 * d.gcd;
    CancelFactor(d.gcd, d.s * u' + d.t * s', 1);
    assert d.t * s' + d.s * u' == 1;
  }

  lemma RemainderTimesU(s: int, t: int, u: int, h: int, c1: int, c2: int, k: int, e: int)
    requires h * u == t * c2 - s * c1 && u * k - c2 == s * e
    ensures u * (h - t * k) == (-c1 - t * e) * s
  {
    assert u * (h - t * k) == h * u - t * (u * k);
    Distribute(t, c2, s * e);
  }

  /** s' = s/d divides h - t*k for the first solution k. */
  lemma SecondRemainder(s: int, t: int, u: int, h: int, c1: int, c2: int, k: int, e: int, d: GcdRes, s': int)
    requires h * u == t * c2 - s * c1 && u * k - c2 == s * e
    requires IsGcd(d, u, s) && d.gcd > 0 && s == s' * d.gcd
    ensures Divides(s', h - t * k)
  {
    var u' :| u == u' * d.gcd;
    var z, y := h - t * k, -c1 - t * e;
    CofactorsCoprime(d, u, s, u', s');
    RemainderTimesU(s, t, u, h, c1, c2, k, e);
    Reassociate(u', d.gcd, z);
    assert (u' * z) * d.gcd == (y * s') * d.gcd;
    CancelFactor(d.gcd, u' * z, y * s');
    CoprimeDivides(s', u', z);
  }

  lemma SecondGcd(f1: Form, f2: Form, w: int, s: int, t: int, u: int, h: int, d: int, u': int, cf: int, r: GcdRes)
    requires Setting(f1, f2, w, s, t, u, h) && s == cf * d && u == u' * d && IsGcd(r, t * cf, s)
    ensures Divides(r.gcd, cf)
  {
    CommonPart(f1, f2, w, s, t, u, h, d, cf, u');
    var x, y :| x * d + y * t == 1;
    DividesCombination(r.gcd, s, t * cf, x, y);
    assert x * (cf * d) + y * (t * cf) == (x * d + y * t) * cf;
  }

  lemma SecondSolvable(f1: Form, f2: Form, w: int, s: int, t: int, u: int, h: int, k: int, cf: int)
    requires Setting(f1, f2, w, s, t, u, h)
    requires Divides(s * t, t * u * k - (h * u + s * f1.c)) && cf * Gcd(t * u, s * t).gcd == s * t
    ensures Divides(Gcd(t * cf, s).gcd, h - t * k)
    ensures cf * Gcd(u, s).gcd == s
  {
    FirstSolvable(f1, f2, w, s, t, u, h);
    var d := Gcd(u, s);
    CancelScale(t, d.gcd, cf, s);
    SecondDivides(f1, f2, w, s, t, u, h, k, cf, d, Gcd(t * cf, s));
  }

  lemma SecondDivides(f1: Form, f2: Form, w: int, s: int, t: int, u: int, h: int, k: int, cf: int, d: GcdRes, r: GcdRes)
    requires Setting(f1, f2, w, s, t, u, h) && Divides(s * t, t * u * k - (h * u + s * f1.c))
    requires IsGcd(d, u, s) && d.gcd > 0 && s == cf * d.gcd && IsGcd(r, t * cf, s)
    ensures Divides(r.gcd, h - t * k)
  {
    var e := FirstSolution(f1, f2, w, s, t, u, h, k);
    SecondRemainder(s, t, u, h, f1.c, f2.c, k, e, d, cf);
    var u' :| u == u' * d.gcd;
    SecondGcd(f1, f2, w, s, t, u, h, d.gcd, u', cf, r);
    DividesTransitive(r.gcd, cf, h - t * k);
  }

  /** The combined solution k = kTemp + cf*n makes both remaining quotients exact. */
  lemma CombinedSolution(f1: Form, f2: Form, w: int, s: int, t: int, u: int, h: int,
                         kTemp: int, cf: int, d: int, n: int, k: int) returns (l: int, m: int)
    requires Setting(f1, f2, w, s, t, u, h)
    requires Divides(s * t, t * u * kTemp - (h * u + s * f1.c))
    requires cf * d == s && Divides(d, u) && Divides(s, t * cf * n - (h - t * kTemp))
    requires k == kTemp + cf * n
    ensures t * k - h == s * l && u * k - f2.c == s * m
  {
    var e := FirstSolution(f1, f2, w, s, t, u, h, kTemp);
    var u' :| u == u' * d;
    l :| t * cf * n - (h - t * kTemp) == l * s;
    m := e + u' * n;
    assert t * k == t * kTemp + t * cf * n;
    assert u * (cf * n) == s * (u' * n);
    assert u * k == u * kTemp + u * (cf * n);
  }

  lemma ThirdCoefficient(f1: Form, f2: Form, w: int, s: int, t: int, u: int, h: int, k: int, l: int, m: int)
    requires Setting(f1, f2, w, s, t, u, h) && t * k - h == s * l && u * k - f2.c == s * m
    ensures f1.c == l * u - m * t
  {
    Distribute(u, t * k, h);
    Distribute(t, u * k, f2.c);
    Swap(u, t, k);
    Swap(u, s, l);
    Swap(t, s, m);
    Distribute(s, l * u, m * t);
    CancelFactor(s, f1.c, l * u - m * t);
  }

  lemma ExactQuotients(f1: Form, f2: Form, w: int, s: int, t: int, u: int, h: int, k: int, l: int, m: int)
    requires Setting(f1, f2, w, s, t, u, h) && t * k - h == s * l && u * k - f2.c == s * m && s * t > 0
    ensures FloorDiv(t * k - h, s) == l
    ensures FloorDiv(t * u * k - h * u - s * f1.c, s * t) == m
  {
    Quotient(l, s);
    assert t * u * k - h * u - s * f1.c == t * (u * k - f2.c) == m * (s * t);
    Quotient(m, s * t);
  }

  /** The product before the final reduction. */
  function RawProduct(f1: Form, f2: Form): (f3: Form)
    requires PositiveDefinite(f1) && PositiveDefinite(f2) && Disc(f1) == Disc(f2)
    ensures Composes(f1, f2, f3)
  {
    var g := FloorDiv(f2.b + f1.b, 2);
    var h := FloorDiv(f2.b - f1.b, 2);
    var w := ThreeGcd(f1.a, f2.a, g);
    var j := w;
    var s := FloorDiv(f1.a, w);
    var t := FloorDiv(f2.a, w);
    var u := FloorDiv(g, w);
    SettingHolds(f1, f2, w, g, h, s, t, u);
    ProductGrows(s, t);
    FirstSolvable(f1, f2, w, s, t, u, h);
    var (kTemp, factor) := SolveLinearCongruence(t * u, h * u + s * f1.c, s * t);
    SecondSolvable(f1, f2, w, s, t, u, h, kTemp, factor);
    var (n, _) := SolveLinearCongruence(t * factor, h - t * kTemp, s);
    var k := kTemp + factor * n;
    var l := FloorDiv(t * k - h, s);
    var m := FloorDiv(t * u * k - h * u - s * f1.c, s * t);
    RawProductComposes(f1, f2, w, s, t, u, h, kTemp, factor, n, k, l, m);
    Form(s * t, j * u - (k * t + l * s), k * l - j * m)
  }

  lemma RawProductComposes(f1: Form, f2: Form, w: int, s: int, t: int, u: int, h: int,
                           kTemp: int, factor: int, n: int, k: int, l: int, m: int)
    requires Setting(f1, f2, w, s, t, u, h) && s * t > 0
    requires Divides(s * t, t * u * kTemp - (h * u + s * f1.c)) && factor * Gcd(u, s).gcd == s
    requires Divides(s, t * factor * n - (h - t * kTemp)) && k == kTemp + factor * n
    requires l == FloorDiv(t * k - h, s) && m == FloorDiv(t * u * k - h * u - s * f1.c, s * t)
    ensures Composes(f1, f2, Form(s * t, w * u - (k * t + l * s), k * l - w * m))
  {
    var l', m' := CombinedSolution(f1, f2, w, s, t, u, h, kTemp, factor, Gcd(u, s).gcd, n, k);
    ExactQuotients(f1, f2, w, s, t, u, h, k, l', m');
    ThirdCoefficient(f1, f2, w, s, t, u, h, k, l, m);
    ComposesBy(Bilinear(w, k, l, m, s, t, u));
  }

  /** The reference multiplication of the class group. */
  function Multiply(f1: Form, f2: Form): (f3: Form)
    requires PositiveDefinite(f1) && PositiveDefinite(f2) && Disc(f1) == Disc(f2)
    ensures Reduced(f3) && PositiveDefinite(f3) && Disc(f3) == Disc(f1)
  {
    var f3 := RawProduct(f1, f2);
    ComposesDisc(f1, f2, f3);
    ComposesPositiveDefinite(f1, f2, f3);
    EquivDisc(f3, Canon(f3));
    Canon(f3)
  }

  // ----- Squaring -----

  /** The dedicated squaring, before reduction. */
  function RawSquare(f: Form): Form
    requires f.a > 0
  {
    var r := Gcd(f.b, f.a);
    var u := (FloorDiv(f.c, r.gcd) * r.s) % f.a;
    Form(f.a * f.a, f.b - 2 * (f.a * u), u * u - FloorDiv(f.b * u - f.c, f.a))
  }

  lemma SquareRoot(f: Form, r: GcdRes, u: int)
    requires f.a > 0 && IsGcd(r, f.b, f.a) && r.gcd == 1 && u == (f.c * r.s) % f.a
    ensures Divides(f.a, f.b * u - f.c)
  {
    SolutionOfCongruence(f.b, f.c, f.a, r, f.c, u);
  }

  /** For a middle coefficient prime to the leading one, squaring is composition with itself. */
  lemma SquareComposes(f: Form)
    requires PositiveDefinite(f) && Gcd(f.b, f.a).gcd == 1
    ensures Composes(f, f, RawSquare(f))
  {
    var r := Gcd(f.b, f.a);
    var u := (f.c * r.s) % f.a;
    SquareRoot(f, r, u);
    var m :| f.b * u - f.c == m * f.a;
    Quotient(m, f.a);
    SquareByWitness(f, u, m, r.s, r.t);
  }

  lemma SquareByWitness(f: Form, u: int, m: int, x: int, y: int)
    requires x * f.b + y * f.a == 1 && f.b * u - f.c == m * f.a
    ensures Composes(f, f, Form(f.a * f.a, f.b - 2 * (f.a * u), u * u - m))
  {
    var w := Bilinear(1, u, u, m, f.a, f.a, f.b);
    assert y * f.a + 0 * f.a + x * f.b == 1;
    assert Product(w) == Form(f.a * f.a, f.b - 2 * (f.a * u), u * u - m);
    ComposesBy(w);
  }

  /** On a primitive form the dedicated squaring keeps the discriminant exactly when
      the middle coefficient is prime to the leading one. */
  lemma SquareKeepsDiscriminant(f: Form)
    requires PositiveDefinite(f)
    requires exists x, y, z :: x * f.a + y * f.b + z * f.c == 1
    ensures Disc(RawSquare(f)) == Disc(f) <==> Gcd(f.b, f.a).gcd == 1
  {
    var r := Gcd(f.b, f.a);
    if r.gcd == 1 {
      SquareComposes(f);
      ComposesDisc(f, f, RawSquare(f));
    }
    if Disc(RawSquare(f)) == Disc(f) {
      var u := (FloorDiv(f.c, r.gcd) * r.s) % f.a;
      var q := FloorDiv(f.b * u - f.c, f.a);
      SquareDiscriminant(f.a, f.b, f.c, u, q);
      CommonDivisorIsUnit(f, r, u, q);
    }
  }

  lemma SquareOfShift(b: int, v: int)
    ensures (b - 2 * v) * (b - 2 * v) == b * b - 4 * (b * v) + 4 * (v * v)
  {
  }

  lemma ProductOfSquares(a: int, u: int, q: int)
    ensures (a * a) * (u * u - q) == (a * u) * (a * u) - a * (a * q)
  {
    Distribute(a * a, u * u, q);
  }

  lemma SquareDiscriminant(a: int, b: int, c: int, u: int, q: int)
    requires a > 0
    requires Disc(Form(a * a, b - 2 * (a * u), u * u - q)) == b * b - 4 * a * c
    ensures b * u - c == q * a
  {
    var v := a * u;
    SquareOfShift(b, v);
    ProductOfSquares(a, u, q);
    Reassociate(4, a * a, u * u - q);
    Reassociate(4, a, c);
    assert b * v - a * (a * q) == a * c;
    Swap(b, a, u);
    Distribute(a, b * u, a * q);
    CancelFactor(a, b * u - a * q, c);
  }

  lemma CommonDivisorIsUnit(f: Form, r: GcdRes, u: int, q: int)
    requires IsGcd(r, f.b, f.a) && f.b * u - f.c == q * f.a
    requires exists x, y, z :: x * f.a + y * f.b + z * f.c == 1
    ensures r.gcd == 1
  {
    var x, y, z :| x * f.a + y * f.b + z * f.c == 1;
    DividesCombination(r.gcd, f.b, f.a, u, -q);
    DividesCombination(r.gcd, f.a, f.b, x, y);
    DividesCombination(r.gcd, x * f.a + y * f.b, f.c, 1, z);
    var n :| 1 == n * r.gcd;
    UnitProduct(n, r.gcd);
  }

}
