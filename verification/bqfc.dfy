/** The compressed encoding of reduced forms: three quarters of the size of (a, b),
    obtained from a partial gcd and undone by a modular square root over the integers. */
module Bqfc {
  import opened Integers
  import opened Euclid
  import opened Wrappers
  import XgcdPartial

  /** A compressed form: a' = a/g, t' = t/g, g = gcd(a, t), b0 = |b| / a' unless g is 1, and the
      sign of b. */
  datatype Compressed = Compressed(a: int, t: int, g: int, b0: int, bSign: bool)

  function ISqrt(n: nat): (r: nat)
    ensures r * r <= n < (r + 1) * (r + 1)
  {
    if n == 0 then 0
    else
      var r := ISqrt(n - 1);
      if (r + 1) * (r + 1) <= n then r + 1 else r
  }

  lemma SquareMonotone(x: nat, y: nat)
    ensures x <= y <==> x * x <= y * y
  {
    Distribute(x, y, x);
    Distribute(y, y, x);
    if x <= y {
      ProductGrows(x, y - x);
      ProductGrows(y, y - x);
    } else {
      ProductGrows(x, x - y);
      ProductGrows(y, x - y);
      ProductGrows(x - y, x - y);
      Distribute(x - y, x, y);
    }
  }

  lemma ISqrtOfSquare(x: nat)
    ensures ISqrt(x * x) == x
  {
    var r := ISqrt(x * x);
    SquareMonotone(r, x);
    SquareMonotone(r + 1, x);
  }

  /** The part of |b| that is stored next to its residue: none without a common factor. */
  function StoredQuotient(b: int, a': int, g: int): int
    requires a' > 0
  {
    if g == 1 then 0 else Abs(b) / a'
  }

  /** c describes (a, b), with root the small residue of t'*|b| that decompression recovers. */
  ghost predicate Encodes(c: Compressed, a: int, b: int, root: int) {
    && c.t != 0 && c.a > 0 && c.g >= 1 && c.a * c.g == a
    && Coprime(c.a, c.t)
    && c.b0 == StoredQuotient(b, c.a, c.g) && (c.bSign <==> b < 0)
    && root >= 0 && Divides(c.a, c.t * Abs(b) - root)
  }

  // ----- Facts about the partial gcd of (a, |b|) -----

  /** The remainder where the gcd stops, scaled down by g, is a residue of t'*|b|. */
  lemma ScaledRemainder(a: int, b: nat, e: State, a': int, t': int, g: int)
    requires Invariant(a, b, e) && a == a' * g && -e.co1 == t' * g && g >= 1
    ensures e.r1 % g == 0 && Divides(a', t' * b - e.r1 / g)
  {
    var q := e.d1 * a' + t' * b;
    assert e.r1 == q * g by {
      Distribute(g, e.d1 * a', t' * b);
    }
    Quotient(q, g);
    assert t' * b - q == -e.d1 * a';
  }

  lemma GcdOfConsecutive(a: int, b: nat, e: State, G: GcdRes)
    requires Invariant(a, b, e) && IsGcd(G, a, b)
    ensures Divides(G.gcd, e.r2) && Divides(G.gcd, e.r1)
  {
    DividesCombination(G.gcd, a, b, e.d2, -e.co2);
    DividesCombination(G.gcd, a, b, e.d1, -e.co1);
  }

  lemma CrossProduct2(a: int, b: int, e: State)
    requires Invariant(a, b, e)
    ensures e.co1 < 0 ==> e.d2 * e.r1 - e.d1 * e.r2 == b
    ensures e.co1 > 0 ==> e.d2 * e.r1 - e.d1 * e.r2 == -b
  {
    var det := e.d1 * e.co2 - e.d2 * e.co1;
    Distribute(e.d2, e.d1 * a, e.co1 * b);
    Distribute(e.d1, e.d2 * a, e.co2 * b);
    assert e.d2 * e.r1 - e.d1 * e.r2 == det * b;
  }

  lemma DividesCross(s: int, m: int, n: int, u: int, v: int, p: int)
    requires Divides(s, m) && Divides(s, n) && (u * m - v * n == p || u * m - v * n == -p)
    ensures Divides(s, p)
  {
    DividesCombination(s, m, n, u, -v);
    NegateProduct(v, n);
    if u * m - v * n == -p {
      DividesCombination(s, -p, m, -1, 0);
    }
  }

  /** A common divisor of two consecutive remainders divides the starting pair. */
  lemma DividesStart(a: int, b: nat, e: State, s: int)
    requires Invariant(a, b, e) && Divides(s, e.r2) && Divides(s, e.r1)
    ensures Divides(s, a) && Divides(s, b)
  {
    CrossProduct(a, b, e);
    CrossProduct2(a, b, e);
    DividesCross(s, e.r1, e.r2, e.co2, e.co1, a);
    DividesCross(s, e.r1, e.r2, e.d2, e.d1, b);
  }

  // ----- When the scaled remainder is a square root that can be recovered -----

  /** A common factor g > 1 leaves room below a/g. */
  lemma ScaledRootIsSmall(root: nat, g: int, a': int)
    requires g >= 2 && a' > 0 && (root * g) * (root * g) <= a' * g
    ensures root * root < a'
  {
    var q := root * root;
    assert (root * g) * (root * g) == (q * g) * g;
    CancelLe(g, q * g, a');
    Distribute(q, g, 1);
    ProductGrows(q, g - 1);
  }

  lemma CoprimeFactor(s: int, t: int)
    requires Coprime(s * s, t)
    ensures Coprime(s, t)
  {
    var x, y :| x * (s * s) + y * t == 1;
    assert (x * s) * s + y * t == 1;
  }

  lemma CoprimeSquare(s: int, t: int)
    requires Coprime(s, t)
    ensures Coprime(s * s, t)
  {
    var x, y :| x * s + y * t == 1;
    var z := 2 * x * s * y + y * y * t;
    assert (x * s + y * t) * (x * s + y * t) == (x * x) * (s * s) + z * t;
  }

  /** A remainder that is exactly the square root of a, with cofactor prime to a, is the gcd. */
  lemma ExactRootIsGcd(a: int, b: nat, e: State, G: GcdRes)
    requires Invariant(a, b, e) && IsGcd(G, a, b) && e.r1 * e.r1 == a && Coprime(a, e.co1)
    ensures G.gcd == e.r1
  {
    var s := e.r1;
    CrossProduct(a, b, e);
    CoprimeFactor(s, e.co1);
    var w := if e.co1 < 0 then e.co2 - s else e.co2 + s;
    assert e.co1 * e.r2 == w * s by {
      Distribute(s, e.co2, s);
    }
    CoprimeDivides(s, e.co1, e.r2);
    DividesBy(s, 1);
    DividesStart(a, b, e, s);
    GcdIsGreatest(G, a, b, s);
    GcdOfConsecutive(a, b, e, G);
    MutualDivisors(G.gcd, s);
  }

  lemma SmallMultipleOf(s: int, r: int)
    requires s > 0 && 0 <= r <= s && Divides(s, r)
    ensures r == 0 || r == s
  {
    var q :| r == q * s;
    ProductGrows(s, q - 1);
    Distribute(s, q, 1);
    ProductGrows(s, -q);
    NegateProduct(s, q);
    ProductGrows(s, q - 2);
    Distribute(s, q, 2);
  }

  lemma DivisorBound(d: int, n: int)
    requires d > 0 && n > 0 && Divides(d, n)
    ensures d <= n
  {
    var q :| n == q * d;
    PositiveFactor(d, q);
    ProductGrows(q, d);
  }

  /** Conversely, when the gcd is the square root of a, the partial gcd stops exactly there. */
  lemma GcdRootIsReached(a: int, b: nat, e: State, G: GcdRes)
    requires Invariant(a, b, e) && IsGcd(G, a, b) && a > 1 && G.gcd * G.gcd == a
    requires e.r1 <= G.gcd && (e.r1 == 0 ==> e.r2 > G.gcd)
    ensures e.r1 == G.gcd && Coprime(a, e.co1)
  {
    var s := G.gcd;
    GcdOfConsecutive(a, b, e, G);
    SmallMultipleOf(s, e.r1);
    if e.r1 == 0 {
      assert e.r2 == 1 * e.r2 && e.r1 == 0 * e.r2;
      DividesStart(a, b, e, e.r2);
      GcdIsGreatest(G, a, b, e.r2);
      DivisorBound(e.r2, s);
      assert false;
    }
    var b' :| b == b' * s;
    assert (e.d1 * s + b' * -e.co1) * s == 1 * s by {
      NegateProduct(b', e.co1);
      Distribute(s, e.d1 * s, b' * e.co1);
    }
    CancelFactor(s, e.d1 * s + b' * -e.co1, 1);
    assert e.d1 * s + -b' * e.co1 == 1;
    CoprimeSquare(s, e.co1);
  }

  // ----- Compression -----

  lemma SignOfTrunc(b: int, d: int)
    requires d > 0
    ensures (if b < 0 then -TruncDiv(b, d) else TruncDiv(b, d)) == Abs(b) / d
  {
  }

  /** The partial gcd of (a, |b|) stopped at the square root of a. */
  ghost predicate Stopped(a: int, b: nat, e: State) {
    && a > 0 && Invariant(a, b, e)
    && e.r1 <= ISqrt(a) && (e.r1 == 0 && b > 0 ==> e.r2 > ISqrt(a))
  }

  lemma RemainderBound(a: int, b: nat, e: State)
    requires Invariant(a, b, e)
    ensures e.r2 <= a
  {
    CrossProduct(a, b, e);
    NegateProduct(e.co1, e.r2);
    NegateProduct(e.co2, e.r1);
    ProductGrows(-e.co1, e.r2);
    ProductGrows(e.co1, e.r2);
    ProductGrows(e.co2, e.r1);
    ProductGrows(-e.co2, e.r1);
  }

  lemma GcdRootReached(a: int, b: nat, e: State, G: GcdRes)
    requires Stopped(a, b, e) && IsGcd(G, a, b) && a > 1 && G.gcd * G.gcd == a
    ensures e.r1 == G.gcd && Coprime(a, e.co1)
  {
    ISqrtOfSquare(G.gcd);
    if b == 0 {
      assert (G.s * G.gcd) * G.gcd == 1 * G.gcd;
      CancelFactor(G.gcd, G.s * G.gcd, 1);
      UnitProduct(G.s, G.gcd);
      assert false;
    }
    GcdRootIsReached(a, b, e, G);
  }

  /** The remainder is the exact square root of a just when the gcd of a and b is. */
  lemma RootIffGcd(a: int, b: nat, e: State, G: GcdRes)
    requires Stopped(a, b, e) && IsGcd(G, a, b) && Coprime(a, e.co1)
    ensures e.r1 * e.r1 == a <==> a != 1 && G.gcd * G.gcd == a
  {
    RemainderBound(a, b, e);
    if e.r1 * e.r1 == a {
      ExactRootIsGcd(a, b, e, G);
    }
    if a != 1 && G.gcd * G.gcd == a {
      GcdRootReached(a, b, e, G);
    }
  }

  lemma CoprimeMeansUnitGcd(r: GcdRes, a: int, t: int)
    requires IsGcd(r, a, t)
    ensures r.gcd == 1 <==> Coprime(a, t)
  {
    if Coprime(a, t) {
      var x, y :| x * a + y * t == 1;
      DividesCombination(r.gcd, a, t, x, y);
      var q :| 1 == q * r.gcd;
      UnitProduct(q, r.gcd);
    }
  }

  lemma CoprimeNegate(a: int, t: int)
    requires Coprime(a, -t)
    ensures Coprime(a, t)
  {
    var x, y :| x * a + y * -t == 1;
    NegateProduct(y, t);
    assert x * a + -y * t == 1;
  }

  /** What the partial gcd gives compression, for t' = -co1/g, a' = a/g and g = gcd(a, co1). */
  lemma RootOfCompressed(a: int, b: nat, e: State, a': int, g: int, r: GcdRes, G: GcdRes)
    requires Stopped(a, b, e) && IsGcd(r, a, -e.co1) && IsGcd(G, a, b)
    requires g == r.gcd >= 1 && a' > 0 && a' * g == a && e.r1 % g == 0
    ensures (e.r1 / g) * (e.r1 / g) <= a' && (g >= 2 ==> (e.r1 / g) * (e.r1 / g) < a')
    ensures (e.r1 / g) * (e.r1 / g) == a' <==> a != 1 && G.gcd * G.gcd == a
  {
    var root := e.r1 / g;
    assert root * g == e.r1;
    SquareMonotone(e.r1, ISqrt(a));
    CoprimeMeansUnitGcd(r, a, -e.co1);
    if g >= 2 {
      ScaledRootIsSmall(root, g, a');
      NoGcdRoot(a, b, e, r, G);
    } else {
      CoprimeNegate(a, e.co1);
      RootIffGcd(a, b, e, G);
    }
  }

  lemma NoGcdRoot(a: int, b: nat, e: State, r: GcdRes, G: GcdRes)
    requires Stopped(a, b, e) && IsGcd(r, a, -e.co1) && r.gcd >= 2 && IsGcd(G, a, b)
    ensures !(a != 1 && G.gcd * G.gcd == a)
  {
    CoprimeMeansUnitGcd(r, a, -e.co1);
    if a != 1 && G.gcd * G.gcd == a {
      GcdRootReached(a, b, e, G);
      CoprimeNegate(a, -e.co1);
      assert false;
    }
  }

  lemma QuotientsCoprime(r: GcdRes, a: int, t: int, a': int, t': int)
    requires IsGcd(r, a, t) && r.gcd > 0 && a == a' * r.gcd && t == t' * r.gcd
    ensures Coprime(a', t')
  {
    assert (r.s * a' + r.t * t') * r.gcd == 1 * r.gcd;
    CancelFactor(r.gcd, r.s * a' + r.t * t', 1);
  }

  lemma AbsGcd(G: GcdRes, a: int, b: int)
    requires IsGcd(G, a, b)
    ensures IsGcd(GcdRes(G.gcd, G.s, if b < 0 then -G.t else G.t), a, Abs(b))
  {
    if b < 0 {
      DividesCombination(G.gcd, b, b, -1, 0);
      NegateProduct(G.t, b);
    }
  }

  /** The condition under which decompression inverts compression: the gcd of a and b
      is not a square root of a, other than 1 of 1. */
  ghost predicate Recoverable(a: int, b: int) {
    a == 1 || !RootGcd(a, b)
  }

  /** What decompression gives back in place of b. */
  ghost function RecoveredB(a: int, b: int): int {
    if Recoverable(a, b) then b else 0
  }

  /** The gcd of a and b is a square root of a. */
  ghost predicate RootGcd(a: int, b: int) {
    exists G :: IsGcd(G, a, b) && G.gcd * G.gcd == a
  }

  lemma RootGcdBy(a: int, b: int, G: GcdRes)
    requires IsGcd(G, a, b)
    ensures RootGcd(a, b) <==> G.gcd * G.gcd == a
  {
    if RootGcd(a, b) {
      var H :| IsGcd(H, a, b) && H.gcd * H.gcd == a;
      GcdUnique(G, H, a, b);
    }
  }

  /** c is the compression of (a, b), a != b, with residue root. */
  ghost predicate Compresses(c: Compressed, a: int, b: int, root: int) {
    && Encodes(c, a, b, root) && root * root <= c.a
    && (root * root < c.a <==> Recoverable(a, b)) && (c.g >= 2 ==> root * root < c.a)
  }

  ghost predicate Fields(c: Compressed, a: int, b: int, t: int, g: int) {
    && c.g == g >= 1 && c.a * g == a && c.t * g == t && c.a > 0
    && c.b0 == StoredQuotient(b, c.a, g) && c.bSign == (b < 0)
  }

  lemma FieldsEncode(a: int, b: int, e: State, c: Compressed, r: GcdRes)
    requires Invariant(a, Abs(b), e) && IsGcd(r, a, -e.co1) && Fields(c, a, b, -e.co1, r.gcd)
    ensures Encodes(c, a, b, e.r1 / c.g) && e.r1 % c.g == 0
  {
    ScaledRemainder(a, Abs(b), e, c.a, c.t, c.g);
    QuotientsCoprime(r, a, -e.co1, c.a, c.t);
  }

  lemma FieldsCompress(a: int, b: int, e: State, c: Compressed, r: GcdRes, G: GcdRes)
    requires Stopped(a, Abs(b), e) && IsGcd(r, a, -e.co1) && IsGcd(G, a, b) && Fields(c, a, b, -e.co1, r.gcd)
    ensures Encodes(c, a, b, e.r1 / c.g) && (e.r1 / c.g) * (e.r1 / c.g) <= c.a
    ensures c.g >= 2 ==> (e.r1 / c.g) * (e.r1 / c.g) < c.a
    ensures (e.r1 / c.g) * (e.r1 / c.g) < c.a <==> (a != 1 ==> G.gcd * G.gcd != a)
  {
    FieldsEncode(a, b, e, c, r);
    AbsGcd(G, a, b);
    RootOfCompressed(a, Abs(b), e, c.a, c.g, r, GcdRes(G.gcd, G.s, if b < 0 then -G.t else G.t));
  }

  /** Division of a, t and b by the common factor g. */
  method DivideOut(a: int, b: int, t: int, g: int) returns (c: Compressed)
    requires a > 0 && g >= 1 && Divides(g, a) && Divides(g, t)
    ensures Fields(c, a, b, t, g)
  {
    var sign := b < 0;
    if g == 1 {
      c := Compressed(a, t, g, 0, sign);
    } else {
      NoRemainder(g, a);
      NoRemainder(g, t);
      var a' := DivExact(a, g);
      PositiveFactor(g, a');
      var b0 := TruncDiv(b, a');
      if sign {
        b0 := -b0;
      }
      SignOfTrunc(b, a');
      c := Compressed(a', DivExact(t, g), g, b0, sign);
    }
  }

  /** The pairs that compression gets to see. */
  predicate Compressible(a: int, b: int) {
    a > 0 || a == b == 0
  }

  /** The state in which the partial gcd of (a, |b|) stops. */
  ghost function StopOf(a: int, b: int): State
    requires a > 0
  {
    Iterate(Start(a, Abs(b)), XgcdPartial.StepsTaken(Start(a, Abs(b)), ISqrt(a)))
  }

  /** The common factor that compression divides out. */
  ghost function CommonFactor(a: int, b: int): int
    requires a > 0
  {
    Gcd(a, -StopOf(a, b).co1).gcd
  }

  /** What it leaves of a. */
  ghost function LeadingPart(a: int, b: int): (p: int)
    requires a > 0
    ensures p > 0 && p * CommonFactor(a, b) == a
  {
    GcdPositive(a, -StopOf(a, b).co1);
    NoRemainder(CommonFactor(a, b), a);
    PositiveFactor(CommonFactor(a, b), DivExact(a, CommonFactor(a, b)));
    DivExact(a, CommonFactor(a, b))
  }

  lemma LeadingPartIs(c: Compressed, a: int, b: int)
    requires a > 0 && a != b && IsCompression(c, a, b)
    ensures c.a == LeadingPart(a, b) && c.g == CommonFactor(a, b)
  {
    CancelFactor(c.g, c.a, LeadingPart(a, b));
  }

  /** c is the compression of (a, b). */
  ghost predicate IsCompression(c: Compressed, a: int, b: int)
    requires Compressible(a, b)
  {
    if a == b then c == Compressed(a, 0, 0, 0, false)
    else Fields(c, a, b, -StopOf(a, b).co1, CommonFactor(a, b))
  }

  lemma CompressionUnique(c: Compressed, d: Compressed, a: int, b: int)
    requires Compressible(a, b) && IsCompression(c, a, b) && IsCompression(d, a, b)
    ensures c == d
  {
    if a != b {
      CancelFactor(c.g, c.a, d.a);
      CancelFactor(c.g, c.t, d.t);
    }
  }

  /** The cofactor at which the partial gcd of (a, |b|) stops, with its sign turned. Only with
      a == 1 can it stop before the pair is in order. */
  method StoppingCofactor(a: int, b: int) returns (t: int, ghost e: State)
    requires a > 0
    ensures t == -e.co1 && e == StopOf(a, b)
    ensures Abs(b) < a || a > 1 ==> Stopped(a, Abs(b), e)
  {
    var aSqrt := ISqrt(a);
    var bCopy := if b < 0 then -b else b;
    var dummy, co1, r2, r1, n := XgcdPartial.Partial(a, bCopy, aSqrt);
    e := Iterate(Start(a, bCopy), n);
    if bCopy < a {
      IterateInvariant(a, bCopy, n);
    } else if a > 1 {
      RootBelow(a);
      ExchangedInvariant(a, bCopy, 2);
      ExchangedInvariant(a, bCopy, if n >= 2 then n else 2);
      if bCopy == a {
        ExchangedInvariant(a, bCopy, n);
      }
    }
    t := -co1;
  }

  lemma RootBelow(a: nat)
    requires a > 1
    ensures ISqrt(a) < a
  {
    var r := ISqrt(a);
    if r >= a {
      SquareMonotone(a, r);
      ProductGrows(a, a - 1);
      Distribute(a, a, 1);
    }
  }

  lemma FieldsCompressGcd(a: int, b: int, e: State, c: Compressed)
    requires Stopped(a, Abs(b), e) && Fields(c, a, b, -e.co1, Gcd(a, -e.co1).gcd)
    ensures Compresses(c, a, b, e.r1 / c.g)
  {
    RootGcdBy(a, b, Gcd(a, b));
    FieldsCompress(a, b, e, c, Gcd(a, -e.co1), Gcd(a, b));
  }

  method Compress(a: int, b: int) returns (c: Compressed)
    requires Compressible(a, b)
    ensures IsCompression(c, a, b)
    ensures a != b && (Abs(b) < a || a > 1) ==> exists root :: Compresses(c, a, b, root)
  {
    if a == b {
      return Compressed(a, 0, 0, 0, false);
    }
    var t, e := StoppingCofactor(a, b);
    var g := Gcd(a, t).gcd;
    GcdPositive(a, t);
    c := DivideOut(a, b, t, g);
    if Abs(b) < a || a > 1 {
      CompressedSomehow(a, b, e, c);
    }
  }

  lemma GcdPositive(a: int, t: int)
    requires a > 0
    ensures Gcd(a, t).gcd >= 1
  {
    var q :| a == q * Gcd(a, t).gcd;
  }

  lemma CompressedSomehow(a: int, b: int, e: State, c: Compressed)
    requires Stopped(a, Abs(b), e) && Fields(c, a, b, -e.co1, Gcd(a, -e.co1).gcd)
    ensures exists root :: Compresses(c, a, b, root)
  {
    FieldsCompressGcd(a, b, e, c);
  }

  lemma SmallQuotient(n: nat, d: int)
    requires n < d
    ensures n / d == 0
  {
  }

  // ----- Decompression -----

  lemma DividesProduct(d: int, m: int, n: int, k: int)
    requires Divides(d, m - n)
    ensures Divides(d, k * m - k * n)
  {
    DividesCombination(d, m - n, m - n, k, 0);
    Distribute(k, m, n);
  }

  lemma DividesChain(d: int, m: int, n: int, p: int)
    requires Divides(d, m - n) && Divides(d, n - p)
    ensures Divides(d, m - p)
  {
    DividesCombination(d, m - n, n - p, 1, 1);
  }

  lemma DividesReverse(d: int, m: int, n: int)
    requires Divides(d, m - n)
    ensures Divides(d, n - m)
  {
    DividesCombination(d, m - n, m - n, -1, 0);
  }

  lemma ModCongruent(n: int, d: int)
    requires d > 0
    ensures Divides(d, n - n % d) && Divides(d, n % d - n)
  {
    assert n - n % d == (n / d) * d;
    DividesReverse(d, n, n % d);
  }

  lemma CongruentSmall(d: int, m: int, n: int)
    requires 0 <= m < d && 0 <= n < d && Divides(d, m - n)
    ensures m == n
  {
    var q :| m - n == q * d;
    SmallMultiple(d, q);
  }

  /** The value whose square root decompression takes: t*t*D reduced modulo a. */
  function RootSquared(D: int, t: int, a: int): (r: nat)
    requires a > 0
    ensures r < a
  {
    (t * t % a) * FloorMod(D, a) % a
  }

  lemma RootSquaredCongruent(D: int, t: int, a: int)
    requires a > 0
    ensures Divides(a, RootSquared(D, t, a) - t * t * D)
  {
    var p, d := t * t % a, FloorMod(D, a);
    ModCongruent(p * d, a);
    ModCongruent(t * t, a);
    DividesProduct(a, p, t * t, d);
    DividesReverse(a, D, d);
    DividesProduct(a, d, D, t * t);
    DividesChain(a, p * d % a, p * d, t * t * d);
    DividesChain(a, p * d % a, t * t * d, t * t * D);
  }

  /** For a residue root of t*|b|, the value is root*root modulo a. */
  lemma RootSquaredIsSquare(D: int, t: int, a: int, b: nat, root: int)
    requires a > 0 && Divides(a, b * b - D) && Divides(a, t * b - root)
    ensures Divides(a, RootSquared(D, t, a) - root * root)
  {
    RootSquaredCongruent(D, t, a);
    DividesReverse(a, b * b, D);
    DividesProduct(a, D, b * b, t * t);
    DividesChain(a, RootSquared(D, t, a), t * t * D, t * t * (b * b));
    Interchange(t, t, b, b);
    DividesProduct(a, t * b, root, t * b);
    DividesProduct(a, t * b, root, root);
    DividesChain(a, (t * b) * (t * b), root * (t * b), root * root);
    DividesChain(a, RootSquared(D, t, a), (t * b) * (t * b), root * root);
  }

  lemma InverseOfShifted(a: int, t: int, r: GcdRes, tInv: int)
    requires a > 0 && IsGcd(r, if t < 0 then t + a else t, a) && r.gcd == 1
    requires tInv == if r.s < 0 then r.s + a else r.s
    ensures Divides(a, t * tInv - 1)
  {
    var t' := if t < 0 then t + a else t;
    DividesBy(a, -r.t);
    assert r.s * t' - 1 == -r.t * a;
    var k := (if r.s < 0 then t else 0) - (if t < 0 then r.s else 0);
    assert t * tInv == r.s * t' + k * a;
    assert t * tInv - 1 == (k - r.t) * a;
  }

  lemma SquareOfProduct(s: int, v: int, D: int)
    ensures (v * v) * (s * s * D) == (s * v) * ((s * v) * D)
  {
    Interchange(v, v, s, s * D);
    Reassociate(s, s, D);
    Reassociate(v, s, D);
  }

  lemma Interchange(x: int, y: int, z: int, w: int)
    ensures (x * y) * (z * w) == (x * z) * (y * w)
  {
    Reassociate(x, y, z * w);
    Reassociate(y, z, w);
    Reassociate(z, y, w);
    Reassociate(x, z, y * w);
  }

  /** With an invertible t, any accepted square root satisfies b*b = D (mod a). */
  lemma AcceptedRootIsSquareRoot(D: int, t: int, a: int, tInv: int, s: int, b: int)
    requires a > 0 && Divides(a, t * tInv - 1) && s * s == RootSquared(D, t, a)
    requires Divides(a, b - s * tInv)
    ensures Divides(a, b * b - D)
  {
    RootSquaredCongruent(D, t, a);
    SquareCongruent(a, b, s * tInv);
    SquareOfInverse(a, D, t, tInv, s);
    DividesChain(a, b * b, (s * tInv) * (s * tInv), D);
  }

  lemma SquareCongruent(a: int, x: int, y: int)
    requires Divides(a, x - y)
    ensures Divides(a, x * x - y * y)
  {
    DividesProduct(a, x, y, x);
    DividesProduct(a, x, y, y);
    DividesChain(a, x * x, y * x, y * y);
  }

  /** If s*s = t*t*D and v inverts t, then s*v is a square root of D. */
  lemma SquareOfInverse(a: int, D: int, t: int, v: int, s: int)
    requires Divides(a, s * s - t * t * D) && Divides(a, t * v - 1)
    ensures Divides(a, (s * v) * (s * v) - D)
  {
    var w := t * v;
    DividesProduct(a, s * s, t * t * D, v * v);
    SquareOfProduct(s, v, 1);
    SquareOfProduct(t, v, D);
    DividesProduct(a, w, 1, D);
    DividesProduct(a, w, 1, w * D);
    DividesChain(a, w * (w * D), w * D, D);
    DividesChain(a, (s * v) * (s * v), w * (w * D), D);
  }

  /** Reassembling |b| from its residue and quotient modulo a. */
  lemma Reassemble(b: nat, a: int)
    requires a > 0
    ensures b % a + a * (b / a) == b
  {
  }

  /** m is the residue that decompression gets: t*m is the integer square root of the value,
      which is a square. */
  ghost predicate IsResidue(D: int, t: int, a: int, m: int)
    requires a > 0
  {
    var value := RootSquared(D, t, a);
    0 <= m < a && ISqrt(value) * ISqrt(value) == value && Divides(a, t * m - ISqrt(value))
  }

  /** Decompression recovers |b| from a residue below the square root of a. */
  lemma RecoveredRoot(D: int, t: int, a: int, b: nat, root: nat)
    requires a > 0 && Divides(a, b * b - D) && Divides(a, t * b - root) && root * root < a
    ensures IsResidue(D, t, a, b % a) && b % a + a * (b / a) == b
  {
    RootSquaredIsSquare(D, t, a, b, root);
    CongruentSmall(a, RootSquared(D, t, a), root * root);
    ISqrtOfSquare(root);
    ModCongruent(b, a);
    DividesProduct(a, b % a, b, t);
    DividesChain(a, t * (b % a), t * b, root);
    Reassemble(b, a);
  }

  /** A residue whose square is a itself is lost. */
  lemma LostRoot(D: int, t: int, a: int, b: nat, root: nat)
    requires a > 0 && Divides(a, b * b - D) && Divides(a, t * b - root) && root * root == a
    ensures IsResidue(D, t, a, 0)
  {
    RootSquaredIsSquare(D, t, a, b, root);
    DividesBy(a, 1);
    DividesChain(a, RootSquared(D, t, a), root * root, 0);
    CongruentSmall(a, RootSquared(D, t, a), 0);
    ISqrtOfSquare(0);
    assert t * 0 - 0 == 0 * a;
  }

  lemma AbsSquare(b: int)
    ensures Abs(b) * Abs(b) == b * b
  {
  }

  /** The pair that decompression gives back for fields c: a residue modulo the leading field,
      raised by the stored quotient and signed. */
  ghost predicate Decompresses(D: int, c: Compressed, a: int, b: int) {
    if c.t == 0 then a == b == c.a
    else
      && c.a > 0 && Coprime(c.a, c.t) && a == (if c.g > 1 then c.a * c.g else c.a)
      && exists m :: IsResidue(D, c.t, c.a, m) && b == Raised(c, m)
  }

  function Raised(c: Compressed, m: int): int {
    var magnitude := m + (if c.b0 > 0 then c.a * c.b0 else 0);
    if c.bSign then -magnitude else magnitude
  }

  lemma ResidueUnique(D: int, t: int, a: int, m: int, m': int)
    requires a > 0 && Coprime(a, t) && IsResidue(D, t, a, m) && IsResidue(D, t, a, m')
    ensures m == m'
  {
    var s := ISqrt(RootSquared(D, t, a));
    DividesReverse(a, t * m', s);
    DividesChain(a, t * m, s, t * m');
    Distribute(t, m, m');
    CoprimeDivides(a, t, m - m');
    CongruentSmall(a, m, m');
  }

  /** At most one pair comes back. */
  lemma DecompressesUnique(D: int, c: Compressed, a: int, b: int, a': int, b': int)
    requires Decompresses(D, c, a, b) && Decompresses(D, c, a', b')
    ensures a == a' && b == b'
  {
    if c.t != 0 {
      var m :| IsResidue(D, c.t, c.a, m) && b == Raised(c, m);
      var m' :| IsResidue(D, c.t, c.a, m') && b' == Raised(c, m');
      ResidueUnique(D, c.t, c.a, m, m');
    }
  }

  /** What comes back is a square root of D modulo the leading field. */
  lemma DecompressesRoot(D: int, c: Compressed, a: int, b: int)
    requires Decompresses(D, c, a, b) && c.t != 0
    ensures Divides(c.a, b * b - D)
  {
    var m :| IsResidue(D, c.t, c.a, m) && b == Raised(c, m);
    var s := ISqrt(RootSquared(D, c.t, c.a));
    var x, tInv :| x * c.a + tInv * c.t == 1;
    InverseBy(c.a, c.t, x, tInv);
    ResidueTimesInverse(c.a, c.t, tInv, m, s);
    var k := if c.b0 > 0 then c.b0 else 0;
    DividesBy(c.a, k);
    DividesCombination(c.a, m - s * tInv, k * c.a, 1, 1);
    AcceptedRootIsSquareRoot(D, c.t, c.a, tInv, s, m + k * c.a);
    AbsSquare(b);
    assert Abs(b) * Abs(b) == (m + k * c.a) * (m + k * c.a);
  }

  lemma InverseBy(a: int, t: int, x: int, tInv: int)
    requires x * a + tInv * t == 1
    ensures Divides(a, t * tInv - 1)
  {
    NegateProduct(x, a);
    DividesBy(a, -x);
  }

  lemma ResidueTimesInverse(a: int, t: int, tInv: int, m: int, s: int)
    requires Divides(a, t * tInv - 1) && Divides(a, t * m - s)
    ensures Divides(a, m - s * tInv)
  {
    DividesProduct(a, t * tInv, 1, m);
    DividesProduct(a, t * m, s, tInv);
    Reassociate(m, t, tInv);
    Reassociate(tInv, t, m);
    assert m * (t * tInv) == tInv * (t * m);
    DividesReverse(a, m * (t * tInv), m);
    DividesChain(a, m, tInv * (t * m), tInv * s);
  }

  /** The stored quotient is that of the pair. */
  lemma DecompressesQuotient(D: int, c: Compressed, a: int, b: int)
    requires Decompresses(D, c, a, b) && c.t != 0
    ensures Abs(b) / c.a == if c.b0 > 0 then c.b0 else 0
  {
    var m :| IsResidue(D, c.t, c.a, m) && b == Raised(c, m);
    var k := if c.b0 > 0 then c.b0 else 0;
    ProductGrows(c.a, k);
    assert Abs(b) == m + c.a * k;
    QuotientIs(Abs(b), c.a, k, m);
  }

  /** The compression of a pair leads back to it, unless the residue or the quotient is lost. */
  lemma CompressedComesBack(D: int, c: Compressed, a: int, b: int, root: int)
    requires Compresses(c, a, b, root) && Divides(c.a, b * b - D) && (c.g > 1 || a > Abs(b))
    ensures Decompresses(D, c, a, RecoveredB(a, b))
  {
    AbsSquare(b);
    QuotientSign(Abs(b), c.a);
    if c.g == 1 {
      SmallQuotient(Abs(b), c.a);
    }
    if Recoverable(a, b) {
      RecoveredRoot(D, c.t, c.a, Abs(b), root);
      assert Raised(c, Abs(b) % c.a) == b;
    } else {
      LostRoot(D, c.t, c.a, Abs(b), root);
      assert Raised(c, 0) == 0;
    }
  }

  /** Zero is always recovered, so what comes back in the other case is wrong. */
  lemma LostIsNotZero(a: int, b: int)
    requires a > 0
    ensures RecoveredB(a, b) == b <==> Recoverable(a, b)
  {
    if b == 0 && !Recoverable(a, b) {
      var G :| IsGcd(G, a, b) && G.gcd * G.gcd == a;
      DivisorOfZeroPair(a, G);
      assert false;
    }
  }

  lemma DivisorOfZeroPair(a: int, G: GcdRes)
    requires a > 1 && IsGcd(G, a, 0)
    ensures G.gcd * G.gcd != a
  {
    if G.gcd * G.gcd == a {
      assert (G.s * G.gcd) * G.gcd == 1 * G.gcd;
      CancelFactor(G.gcd, G.s * G.gcd, 1);
      UnitProduct(G.s, G.gcd);
    }
  }

  lemma QuotientSign(n: nat, d: int)
    requires d > 0
    ensures n / d >= 0 && (n / d == 0 ==> d * (n / d) == 0)
  {
  }

  /** The pairs that survive compression and decompression, for c the compression: equal halves
      are stored as they are; of all others b must be a square root of D modulo the leading
      field, and either a common factor was divided out, or b is smaller than a and its
      residue is not lost. */
  ghost predicate Survives(c: Compressed, a: int, b: int, D: int) {
    a == b || (Divides(c.a, b * b - D) && (c.g > 1 || (Abs(b) < a && Recoverable(a, b))))
  }

  lemma SurvivesIff(D: int, c: Compressed, a: int, b: int)
    requires Compressible(a, b) && IsCompression(c, a, b)
    requires a != b && (Abs(b) < a || a > 1) ==> exists root :: Compresses(c, a, b, root)
    ensures Decompresses(D, c, a, b) <==> Survives(c, a, b, D)
  {
    if a != b {
      if Decompresses(D, c, a, b) && c.t != 0 {
        DecompressesRoot(D, c, a, b);
        DecompressesQuotient(D, c, a, b);
      }
      if c.g > 1 || Abs(b) < a {
        RootSurvives(D, c, a, b);
      } else if Decompresses(D, c, a, b) {
        LargeIsLost(D, c, a, b);
      }
    }
  }

  lemma RootSurvives(D: int, c: Compressed, a: int, b: int)
    requires a > 0 && a != b && IsCompression(c, a, b) && (c.g > 1 || Abs(b) < a)
    requires Abs(b) < a || a > 1 ==> exists root :: Compresses(c, a, b, root)
    ensures Divides(c.a, b * b - D) ==> (Decompresses(D, c, a, b) <==> Recoverable(a, b))
    ensures c.t != 0 && (c.g > 1 ==> Recoverable(a, b))
  {
    if c.g > 1 {
      ProductGrows(c.a, c.g - 1);
      Distribute(c.a, c.g, 1);
    }
    var root :| Compresses(c, a, b, root);
    LostIsNotZero(a, b);
    if Divides(c.a, b * b - D) {
      CompressedComesBack(D, c, a, b, root);
      if Decompresses(D, c, a, b) {
        DecompressesUnique(D, c, a, b, a, RecoveredB(a, b));
      }
    }
  }

  lemma LargeQuotient(n: nat, d: int)
    requires n >= d > 0
    ensures n / d > 0
  {
    assert n == n / d * d + n % d;
    ProductGrows(d, n / d);
    NegateProduct(n / d, d);
  }

  /** Without a common factor the quotient of a large b is not stored. */
  lemma LargeIsLost(D: int, c: Compressed, a: int, b: int)
    requires a > 0 && a != b && IsCompression(c, a, b) && c.g == 1 && Abs(b) >= a
    ensures !Decompresses(D, c, a, b)
  {
    if Decompresses(D, c, a, b) {
      if c.t != 0 {
        DecompressesQuotient(D, c, a, b);
        LargeQuotient(Abs(b), a);
      }
    }
  }

  /** The inverse of t modulo a, in the range that the later steps expect. */
  method InverseModulo(t0: int, a: int) returns (tInv: Option<int>)
    requires a > 0
    ensures tInv.Some? <==> Coprime(a, t0)
    ensures tInv.Some? ==> Divides(a, t0 * tInv.value - 1)
  {
    var t := if t0 < 0 then t0 + a else t0;
    var r := ExtendedGcd(t, a);
    CoprimeShift(a, t0, r);
    if r.gcd != 1 {
      return None;
    }
    var inv := if r.s < 0 then r.s + a else r.s;
    InverseOfShifted(a, t0, r, inv);
    InverseIsCoprime(a, t0, inv);
    tInv := Some(inv);
  }

  lemma InverseIsCoprime(a: int, t: int, tInv: int)
    requires Divides(a, t * tInv - 1)
    ensures Coprime(a, t)
  {
    var q :| t * tInv - 1 == q * a;
    NegateProduct(q, a);
    assert -q * a + tInv * t == 1;
  }

  /** The reverse of compression. None stands for the error return on malformed data. */
  method Decompress(D: int, c: Compressed) returns (res: Option<(int, int)>)
    requires c.a >= 0
    ensures forall a, b :: res == Some((a, b)) <==> Decompresses(D, c, a, b)
  {
    if c.t == 0 {
      return Some((c.a, c.a));
    }
    if c.a == 0 {
      return None;
    }
    var tInv := InverseModulo(c.t, c.a);
    if tInv.None? {
      return None;
    }
    var tmp := RootSquared(D, c.t, c.a);
    var s := ISqrt(tmp);
    if s * s != tmp {
      return None;
    }
    var b := s * tInv.value % c.a;
    var a := if c.g > 1 then c.a * c.g else c.a;
    ResidueByInverse(c.a, c.t, tInv.value, s);
    ghost var m := b;
    if c.b0 > 0 {
      b := b + c.a * c.b0;
    }
    if c.bSign {
      b := -b;
    }
    res := Some((a, b));
    assert IsResidue(D, c.t, c.a, m) && b == Raised(c, m);
    forall a', b' | Decompresses(D, c, a', b')
      ensures res == Some((a', b'))
    {
      DecompressesUnique(D, c, a, b, a', b');
    }
  }

  lemma ResidueByInverse(a: int, t: int, tInv: int, s: int)
    requires a > 0 && Divides(a, t * tInv - 1)
    ensures Divides(a, t * (s * tInv % a) - s)
  {
    ModCongruent(s * tInv, a);
    DividesProduct(a, s * tInv % a, s * tInv, t);
    DividesProduct(a, t * tInv, 1, s);
    Swap(t, s, tInv);
    DividesChain(a, t * (s * tInv % a), s * (t * tInv), s);
  }

  lemma CoprimeShift(a: int, t: int, r: GcdRes)
    requires IsGcd(r, if t < 0 then t + a else t, a)
    ensures Coprime(a, t) ==> r.gcd == 1
  {
    if Coprime(a, t) {
      var x, y :| x * a + y * t == 1;
      if t < 0 {
        Distribute(y, t, a);
        DividesCombination(r.gcd, t + a, a, y, x - y);
        Distribute(a, x, y);
      } else {
        DividesCombination(r.gcd, t, a, y, x);
      }
      var q :| 1 == q * r.gcd;
      UnitProduct(q, r.gcd);
    }
  }

  lemma EqualIsRecoverable(a: int)
    requires a > 0
    ensures Recoverable(a, a)
  {
    DividesBy(a, 1);
    RootGcdBy(a, a, GcdRes(a, 1, 0));
    if a > 1 {
      ProductGrows(a, a - 1);
      Distribute(a, a, 1);
    }
  }

  lemma CompressedDivides(a: int, n: int, a': int, g: int)
    requires a' * g == a && Divides(a, n)
    ensures Divides(a', n)
  {
    DividesBy(a', g);
    DividesTransitive(a', a, n);
  }

  /** The pairs that come back: equal halves, of those with |b| < a the recoverable ones, and
      of all others those with a common factor to divide out. */
  ghost predicate ComesBack(a: int, b: int)
    requires a > 0
  {
    a == b || if Abs(b) < a then Recoverable(a, b) else CommonFactor(a, b) > 1
  }

  lemma SurvivorsComeBack(c: Compressed, a: int, b: int, D: int)
    requires a > 0 && IsCompression(c, a, b) && Divides(a, b * b - D)
    requires a != b && (Abs(b) < a || a > 1) ==> exists root :: Compresses(c, a, b, root)
    ensures Survives(c, a, b, D) <==> ComesBack(a, b)
  {
    if a != b {
      FieldsFactor(c, a, b);
      CompressedDivides(a, b * b - D, c.a, c.g);
      if c.g > 1 {
        var root :| Compresses(c, a, b, root);
        FactorIsRecoverable(c, a, b, root);
      }
      FactorDecides(c, a, b, D);
    }
  }

  lemma FactorIsRecoverable(c: Compressed, a: int, b: int, root: int)
    requires Compresses(c, a, b, root)
    ensures c.g > 1 ==> Recoverable(a, b)
  {
  }

  lemma FieldsFactor(c: Compressed, a: int, b: int)
    requires a > 0 && a != b && IsCompression(c, a, b)
    ensures c.g == CommonFactor(a, b) && c.a * c.g == a && (c.g > 1 ==> a > 1)
  {
    ProductGrows(c.a, c.g);
  }

  lemma FactorDecides(c: Compressed, a: int, b: int, D: int)
    requires a > 0 && a != b && c.g == CommonFactor(a, b) && Divides(c.a, b * b - D) && (c.g > 1 ==> Recoverable(a, b))
    ensures Survives(c, a, b, D) <==> ComesBack(a, b)
  {
  }

  /** The round trip: decompression returns exactly the compressed pair just when it comes
      back. */
  method RoundTrip(a: int, b: int, D: int) returns (res: Option<(int, int)>)
    requires a > 0 && Divides(a, b * b - D)
    ensures res == Some((a, b)) <==> ComesBack(a, b)
    ensures -a < b <= a ==> (res == Some((a, b)) <==> Recoverable(a, b))
    ensures -a < b <= a ==> res.Some? && res.value.0 == a
  {
    var c := Compress(a, b);
    SurvivesIff(D, c, a, b);
    SurvivorsComeBack(c, a, b, D);
    if a == b {
      EqualIsRecoverable(a);
    } else if -a < b < a {
      ghost var root :| Compresses(c, a, b, root);
      CompressedDivides(a, b * b - D, c.a, c.g);
      CompressedComesBack(D, c, a, b, root);
    }
    res := Decompress(D, c);
  }

  /** Forms with coprime a and b are recoverable, in particular all forms of a negated
      prime discriminant. */
  lemma CoprimeIsRecoverable(a: int, b: int)
    requires Coprime(a, b)
    ensures Recoverable(a, b)
  {
    var s, t :| s * a + t * b == 1;
    DividesBy(1, a);
    DividesBy(1, b);
    RootGcdBy(a, b, GcdRes(1, s, t));
  }

  /** A primitive form that does not survive: (4, 2, 5), of discriminant -76. */
  lemma UnrecoverableExample()
    ensures !Recoverable(4, 2) && 2 * 2 - 4 * 4 * 5 == -76
  {
    DividesBy(2, 2);
    DividesBy(2, 1);
    RootGcdBy(4, 2, GcdRes(2, 0, 1));
  }

}
