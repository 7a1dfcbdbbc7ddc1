/** Binary quadratic forms a*x*x + b*x*y + c*y*y over the integers, the action of
    integer matrices on them, and proper equivalence: the notion that all form
    arithmetic of the class-group VDF works up to. */
module Forms {
  import opened Integers
  import opened Primes

  datatype Form = Form(a: int, b: int, c: int)

  /** The substitution (x, y) -> (p*x + q*y, r*x + s*y). */
  datatype Mat = Mat(p: int, q: int, r: int, s: int)

  const IDENTITY := Mat(1, 0, 0, 1)

  function Disc(f: Form): int {
    f.b * f.b - 4 * f.a * f.c
  }

  function Det(m: Mat): int {
    m.p * m.s - m.q * m.r
  }

  function Value(f: Form, x: int, y: int): int {
    f.a * x * x + f.b * x * y + f.c * y * y
  }

  function Act(f: Form, m: Mat): Form {
    Form(f.a * m.p * m.p + f.b * m.p * m.r + f.c * m.r * m.r,
         2 * f.a * m.p * m.q + f.b * (m.p * m.s + m.q * m.r) + 2 * f.c * m.r * m.s,
         f.a * m.q * m.q + f.b * m.q * m.s + f.c * m.s * m.s)
  }

  function Mul(m: Mat, n: Mat): Mat {
    Mat(m.p * n.p + m.q * n.r, m.p * n.q + m.q * n.s,
        m.r * n.p + m.s * n.r, m.r * n.q + m.s * n.s)
  }

  function Adjugate(m: Mat): Mat {
    Mat(m.s, -m.q, -m.r, m.p)
  }

  predicate PositiveDefinite(f: Form) {
    f.a > 0 && Disc(f) < 0
  }

  /** The reduced forms of the class group: |b| <= a <= c, with b >= 0 on the boundary. */
  predicate Reduced(f: Form) {
    -f.a < f.b <= f.a <= f.c && (f.a == f.c ==> f.b >= 0)
  }

  /** Proper equivalence: related by a substitution of determinant 1. */
  ghost predicate Equiv(f: Form, g: Form) {
    exists m: Mat :: Det(m) == 1 && Act(f, m) == g
  }

  // ----- Ring identities -----
  // A polynomial identity over the integers is proved by embedding it into the
  // reals, where the solver normalises products of arbitrary degree.

  datatype RealForm = RealForm(a: real, b: real, c: real)

  datatype RealMat = RealMat(p: real, q: real, r: real, s: real)

  function RealDisc(f: RealForm): real {
    f.b * f.b - 4.0 * f.a * f.c
  }

  function RealDet(m: RealMat): real {
    m.p * m.s - m.q * m.r
  }

  function RealAct(f: RealForm, m: RealMat): RealForm {
    RealForm(f.a * m.p * m.p + f.b * m.p * m.r + f.c * m.r * m.r,
             2.0 * f.a * m.p * m.q + f.b * (m.p * m.s + m.q * m.r) + 2.0 * f.c * m.r * m.s,
             f.a * m.q * m.q + f.b * m.q * m.s + f.c * m.s * m.s)
  }

  function RealMul(m: RealMat, n: RealMat): RealMat {
    RealMat(m.p * n.p + m.q * n.r, m.p * n.q + m.q * n.s,
            m.r * n.p + m.s * n.r, m.r * n.q + m.s * n.s)
  }

  function EmbedForm(f: Form): RealForm {
    RealForm(f.a as real, f.b as real, f.c as real)
  }

  function EmbedMat(m: Mat): RealMat {
    RealMat(m.p as real, m.q as real, m.r as real, m.s as real)
  }

  lemma EmbedAct(f: Form, m: Mat)
    ensures EmbedForm(Act(f, m)) == RealAct(EmbedForm(f), EmbedMat(m))
  {
  }

  lemma EmbedMul(m: Mat, n: Mat)
    ensures EmbedMat(Mul(m, n)) == RealMul(EmbedMat(m), EmbedMat(n))
  {
  }

  lemma RealActMulEnd(a: real, b: real, c: real, p: real, q: real, r: real, s: real, x: real, y: real,
                      A: real, B: real, C: real, u: real, v: real)
    requires A == a * p * p + b * p * r + c * r * r
    requires B == 2.0 * a * p * q + b * (p * s + q * r) + 2.0 * c * r * s
    requires C == a * q * q + b * q * s + c * s * s
    requires u == p * x + q * y && v == r * x + s * y
    ensures A * x * x + B * x * y + C * y * y == a * u * u + b * u * v + c * v * v
  {
  }

  lemma RealActMulMiddle(a: real, b: real, c: real, p: real, q: real, r: real, s: real,
                         x: real, y: real, z: real, w: real,
                         A: real, B: real, C: real, P: real, Q: real, R: real, S: real)
    requires A == a * p * p + b * p * r + c * r * r
    requires B == 2.0 * a * p * q + b * (p * s + q * r) + 2.0 * c * r * s
    requires C == a * q * q + b * q * s + c * s * s
    requires P == p * x + q * z && Q == p * y + q * w && R == r * x + s * z && S == r * y + s * w
    ensures 2.0 * A * x * y + B * (x * w + y * z) + 2.0 * C * z * w
         == 2.0 * a * P * Q + b * (P * S + Q * R) + 2.0 * c * R * S
  {
  }

  lemma RealActMulA(f: RealForm, m: RealMat, n: RealMat)
    ensures RealAct(RealAct(f, m), n).a == RealAct(f, RealMul(m, n)).a
  {
    var g, mn := RealAct(f, m), RealMul(m, n);
    RealActMulEnd(f.a, f.b, f.c, m.p, m.q, m.r, m.s, n.p, n.r, g.a, g.b, g.c, mn.p, mn.r);
  }

  lemma RealActMulB(f: RealForm, m: RealMat, n: RealMat)
    ensures RealAct(RealAct(f, m), n).b == RealAct(f, RealMul(m, n)).b
  {
    var g, mn := RealAct(f, m), RealMul(m, n);
    RealActMulMiddle(f.a, f.b, f.c, m.p, m.q, m.r, m.s, n.p, n.q, n.r, n.s,
                     g.a, g.b, g.c, mn.p, mn.q, mn.r, mn.s);
  }

  lemma RealActMulC(f: RealForm, m: RealMat, n: RealMat)
    ensures RealAct(RealAct(f, m), n).c == RealAct(f, RealMul(m, n)).c
  {
    var g, mn := RealAct(f, m), RealMul(m, n);
    RealActMulEnd(f.a, f.b, f.c, m.p, m.q, m.r, m.s, n.q, n.s, g.a, g.b, g.c, mn.q, mn.s);
  }

  lemma RealDisc2(a: real, b: real, c: real, p: real, q: real, r: real, s: real, A: real, B: real, C: real)
    requires A == a * p * p + b * p * r + c * r * r
    requires B == 2.0 * a * p * q + b * (p * s + q * r) + 2.0 * c * r * s
    requires C == a * q * q + b * q * s + c * s * s
    ensures B * B - 4.0 * A * C == (b * b - 4.0 * a * c) * (p * s - q * r) * (p * s - q * r)
  {
  }

  lemma RealDiscAct(f: RealForm, m: RealMat)
    ensures RealDisc(RealAct(f, m)) == RealDisc(f) * RealDet(m) * RealDet(m)
  {
    var g := RealAct(f, m);
    RealDisc2(f.a, f.b, f.c, m.p, m.q, m.r, m.s, g.a, g.b, g.c);
  }

  lemma DiscAct(f: Form, m: Mat)
    ensures Disc(Act(f, m)) == Disc(f) * Det(m) * Det(m)
  {
    EmbedAct(f, m);
    RealDiscAct(EmbedForm(f), EmbedMat(m));
    EmbedDisc(f);
    EmbedDisc(Act(f, m));
    assert Det(m) as real == RealDet(EmbedMat(m));
    assert (Disc(f) * Det(m) * Det(m)) as real == RealDisc(EmbedForm(f)) * RealDet(EmbedMat(m)) * RealDet(EmbedMat(m));
  }

  lemma EmbedDisc(f: Form)
    ensures Disc(f) as real == RealDisc(EmbedForm(f))
  {
  }

  lemma ActMul(f: Form, m: Mat, n: Mat)
    ensures Act(Act(f, m), n) == Act(f, Mul(m, n))
  {
    EmbedAct(f, m);
    EmbedAct(Act(f, m), n);
    EmbedMul(m, n);
    EmbedAct(f, Mul(m, n));
    RealActMulA(EmbedForm(f), EmbedMat(m), EmbedMat(n));
    RealActMulB(EmbedForm(f), EmbedMat(m), EmbedMat(n));
    RealActMulC(EmbedForm(f), EmbedMat(m), EmbedMat(n));
  }

  lemma DetMul(m: Mat, n: Mat)
    ensures Det(Mul(m, n)) == Det(m) * Det(n)
  {
  }

  // ----- Proper equivalence is an equivalence relation -----

  lemma EquivRefl(f: Form)
    ensures Equiv(f, f)
  {
    ActIdentity(f);
    EquivBy(f, IDENTITY);
  }

  lemma ActIdentity(f: Form)
    ensures Act(f, IDENTITY) == f && Det(IDENTITY) == 1
  {
  }

  lemma EquivBy(f: Form, m: Mat)
    requires Det(m) == 1
    ensures Equiv(f, Act(f, m))
  {
  }

  lemma EquivTrans(f: Form, g: Form, h: Form)
    requires Equiv(f, g) && Equiv(g, h)
    ensures Equiv(f, h)
  {
    var m: Mat :| Det(m) == 1 && Act(f, m) == g;
    var n: Mat :| Det(n) == 1 && Act(g, n) == h;
    ActMul(f, m, n);
    DetMul(m, n);
    EquivBy(f, Mul(m, n));
  }

  lemma MulAdjugate(m: Mat)
    requires Det(m) == 1
    ensures Mul(m, Adjugate(m)) == IDENTITY && Det(Adjugate(m)) == 1
  {
  }

  lemma ActAdjugate(f: Form, m: Mat)
    requires Det(m) == 1
    ensures Det(Adjugate(m)) == 1 && Act(Act(f, m), Adjugate(m)) == f
  {
    ActMul(f, m, Adjugate(m));
    MulAdjugate(m);
    ActIdentity(f);
  }

  lemma EquivSym(f: Form, g: Form)
    requires Equiv(f, g)
    ensures Equiv(g, f)
  {
    var m: Mat :| Det(m) == 1 && Act(f, m) == g;
    ActAdjugate(f, m);
    EquivBy(g, Adjugate(m));
  }

  /** The translation x -> x + n*y. */
  lemma Translate(f: Form, n: int)
    ensures Act(f, Mat(1, n, 0, 1)) == Form(f.a, f.b + 2 * f.a * n, f.a * n * n + f.b * n + f.c)
    ensures Equiv(f, Form(f.a, f.b + 2 * f.a * n, f.a * n * n + f.b * n + f.c))
  {
    EquivBy(f, Mat(1, n, 0, 1));
  }

  /** The exchange (x, y) -> (y, -x) followed by a translation. */
  lemma FlipTranslate(f: Form, n: int)
    ensures Equiv(f, Form(f.c, 2 * n * f.c - f.b, f.c * n * n - f.b * n + f.a))
  {
    var m := Mat(0, -1, 1, n);
    assert Act(f, m) == Form(f.c, 2 * n * f.c - f.b, f.c * n * n - f.b * n + f.a);
    EquivBy(f, m);
  }

  lemma EquivDisc(f: Form, g: Form)
    requires Equiv(f, g)
    ensures Disc(f) == Disc(g)
  {
    var m: Mat :| Det(m) == 1 && Act(f, m) == g;
    DiscAct(f, m);
  }

  /** 4*a*f(x,y) is a sum of a square and |D|*y*y. */
  lemma CompleteSquare(f: Form, x: int, y: int)
    ensures 4 * f.a * Value(f, x, y) == (2 * f.a * x + f.b * y) * (2 * f.a * x + f.b * y) - Disc(f) * y * y
  {
    var a, b, c, u, v := f.a as real, f.b as real, f.c as real, x as real, y as real;
    assert Value(f, x, y) as real == a * u * u + b * u * v + c * v * v;
    assert (4 * f.a * Value(f, x, y)) as real == 4.0 * a * (a * u * u + b * u * v + c * v * v);
    assert Disc(f) as real == b * b - 4.0 * a * c;
    assert (Disc(f) * y * y) as real == (b * b - 4.0 * a * c) * v * v;
    assert (2 * f.a * x + f.b * y) as real == 2.0 * a * u + b * v;
    assert ((2 * f.a * x + f.b * y) * (2 * f.a * x + f.b * y)) as real == (2.0 * a * u + b * v) * (2.0 * a * u + b * v);
  }

  lemma ValuePositive(f: Form, x: int, y: int)
    requires PositiveDefinite(f) && !(x == 0 && y == 0)
    ensures Value(f, x, y) > 0
  {
    CompleteSquare(f, x, y);
    var z := 2 * f.a * x + f.b * y;
    assert z * z >= 0;
    if y == 0 {
      assert x * x > 0;
      assert Value(f, x, y) == f.a * (x * x);
    } else {
      assert y * y > 0;
      assert Disc(f) * y * y == Disc(f) * (y * y) < 0;
    }
    assert 4 * f.a * Value(f, x, y) > 0;
  }

  lemma EquivPositiveDefinite(f: Form, g: Form)
    requires PositiveDefinite(f) && Equiv(f, g)
    ensures PositiveDefinite(g) && g.c > 0
  {
    EquivDisc(f, g);
    var m: Mat :| Det(m) == 1 && Act(f, m) == g;
    assert g.a == Value(f, m.p, m.r) && g.c == Value(f, m.q, m.s);
    ValuePositive(f, m.p, m.r);
    ValuePositive(f, m.q, m.s);
  }

  lemma PositiveC(f: Form)
    requires PositiveDefinite(f)
    ensures f.c > 0
  {
    ValuePositive(f, 0, 1);
  }

  // ----- Reduced forms are canonical -----

  /** The extreme case of ReducedMinimum: a*X*X - a*X*Y + c*Y*Y >= c. */
  lemma MinimumInQuadrant(a: int, c: int, X: nat, Y: nat)
    requires 0 < a <= c && Y > 0
    ensures a * (X * X) - a * (X * Y) + c * (Y * Y) >= c
  {
    if X >= Y {
      MinimumBelowDiagonal(a, c, X, Y);
    } else {
      MinimumAboveDiagonal(a, c, X, Y);
    }
  }

  lemma Weighted(a: int, c: int, p: int, q: int, r: int)
    requires 0 < a <= c && r >= 1 && r >= q - p + 1
    ensures a * p - a * q + c * r >= c
  {
    var d := q - p;
    Distribute(a, q, p);
    if d <= 0 {
      ProductGrows(a, d);
      ProductGrows(c, r);
    } else {
      Distribute(d, c, a);
      Distribute(c, r, d);
      ProductGrows(c - a, d);
      ProductGrows(c, r - d);
    }
  }

  lemma MinimumBelowDiagonal(a: int, c: int, X: nat, Y: nat)
    requires 0 < a <= c && Y > 0 && X >= Y
    ensures a * (X * X) - a * (X * Y) + c * (Y * Y) >= c
  {
    assert X * X - X * Y == X * (X - Y);
    ProductGrows(Y, Y);
    Weighted(a, c, X * X, X * Y, Y * Y);
  }

  lemma MinimumAboveDiagonal(a: int, c: int, X: nat, Y: nat)
    requires 0 < a <= c && Y > X
    ensures a * (X * X) - a * (X * Y) + c * (Y * Y) >= c
  {
    assert Y * Y - X * Y + X * X == (Y - X) * (Y - X) + X * Y;
    ProductGrows(Y - X, Y - X);
    Weighted(a, c, X * X, X * Y, Y * Y);
  }

  lemma CrossTerm(a: int, b: int, z: int, Z: nat)
    requires -a <= b <= a && (z == Z || z == -(Z as int))
    ensures b * z >= -(a * Z)
  {
    assert (a - b) * Z >= 0 && (a + b) * Z >= 0;
  }

  lemma AbsoluteValues(x: int, y: int, X: nat, Y: nat)
    requires X == if x < 0 then -x else x
    requires Y == if y < 0 then -y else y
    ensures x * x == X * X && y * y == Y * Y
    ensures x * y == X * Y || x * y == -(X * Y)
  {
  }

  /** A reduced form takes no value below c off the x axis. */
  lemma ReducedMinimum(f: Form, x: int, y: int)
    requires Reduced(f) && f.a > 0 && y != 0
    ensures Value(f, x, y) >= f.c
  {
    var X, Y := if x < 0 then -x else x, if y < 0 then -y else y;
    AbsoluteValues(x, y, X, Y);
    CrossTerm(f.a, f.b, x * y, X * Y);
    MinimumInQuadrant(f.a, f.c, X, Y);
    ValueGrouped(f, x, y);
  }

  lemma ValueGrouped(f: Form, x: int, y: int)
    ensures Value(f, x, y) == f.a * (x * x) + f.b * (x * y) + f.c * (y * y)
  {
  }

  lemma ActTriangular(f: Form, m: Mat)
    requires m.r == 0 && m.p == m.s && (m.p == 1 || m.p == -1)
    ensures Act(f, m).a == f.a && Act(f, m).b == f.b + 2 * f.a * (m.p * m.q)
  {
  }

  lemma TranslationOfReduced(f: Form, g: Form, n: int)
    requires Reduced(f) && Reduced(g) && f.a > 0 && Disc(f) == Disc(g)
    requires g.a == f.a && g.b == f.b + 2 * f.a * n
    ensures f == g
  {
    SmallMultiple(2 * f.a, n);
    SameC(f, g);
  }

  lemma OnAxis(f: Form, g: Form, m: Mat)
    requires Reduced(f) && Reduced(g) && f.a > 0 && Disc(f) == Disc(g)
    requires Det(m) == 1 && Act(f, m) == g && m.r == 0
    ensures f == g
  {
    DetTriangular(m);
    ActTriangular(f, m);
    TranslationOfReduced(f, g, m.p * m.q);
  }

  lemma DetTriangular(m: Mat)
    requires Det(m) == 1 && m.r == 0
    ensures m.p == m.s && (m.p == 1 || m.p == -1)
  {
    UnitProduct(m.p, m.s);
  }

  lemma SameC(f: Form, g: Form)
    requires f.a == g.a > 0 && f.b == g.b && Disc(f) == Disc(g)
    ensures f == g
  {
    assert f.a * (f.c - g.c) == 0;
  }

  lemma OffAxis(f: Form, g: Form, m: Mat)
    requires Reduced(f) && f.a > 0 && Act(f, m) == g && m.r != 0
    ensures g.a >= f.c
  {
    ReducedMinimum(f, m.p, m.r);
  }

  /** The canonicity of reduced forms: equality decides class equality. */
  lemma ReducedUnique(f: Form, g: Form)
    requires PositiveDefinite(f) && Reduced(f) && Reduced(g) && Equiv(f, g)
    ensures f == g
  {
    EquivDisc(f, g);
    EquivPositiveDefinite(f, g);
    var m: Mat :| Det(m) == 1 && Act(f, m) == g;
    if m.r == 0 {
      OnAxis(f, g, m);
    } else {
      ActAdjugate(f, m);
      OffAxis(f, g, m);
      OffAxis(g, f, Adjugate(m));
      SameSquares(f.b, g.b);
    }
  }

  // ----- Prime discriminants -----

  /** A discriminant that is a negated prime. */
  ghost predicate PrimeDiscriminant(D: int) {
    Prime(-D)
  }

  lemma DivisorOfPrime(d: int, D: int)
    requires PrimeDiscriminant(D) && d >= 1 && Divides(d, D)
    ensures d == 1 || d == -D
  {
    DividesCombination(d, D, D, -1, 0);
  }

  lemma ReducedBound(a: int, b: int, c: int)
    requires a > 0 && -a < b <= a <= c
    ensures 4 * (a * c) - b * b > a
  {
    ProductGrows(a, c - a);
    Distribute(a, c, a);
    ProductGrows(a - b, a + b);
    Distribute(a - b, a, b);
    Distribute(a, a, b);
    Distribute(b, a, b);
    ProductGrows(a, a);
  }

  lemma ReducedIsSmall(f: Form)
    requires PositiveDefinite(f)
    ensures Reduced(f) ==> f.a < -Disc(f)
  {
    if Reduced(f) {
      ReducedBound(f.a, f.b, f.c);
      Reassociate(4, f.a, f.c);
    }
  }

  // ----- Substitutions that leave a form alone -----

  function Negated(m: Mat): Mat {
    Mat(-m.p, -m.q, -m.r, -m.s)
  }

  lemma RealAutomorph(a: real, b: real, c: real, p: real, q: real, r: real, s: real, A: real, B: real)
    requires A == a * p * p + b * p * r + c * r * r
    requires B == 2.0 * a * p * q + b * (p * s + q * r) + 2.0 * c * r * s
    ensures 2.0 * A * s - B * r == (2.0 * a * p + b * r) * (p * s - q * r)
    ensures B * p - 2.0 * A * q == (b * p + 2.0 * c * r) * (p * s - q * r)
  {
  }

  lemma RealEquations(a: real, b: real, c: real, p: real, q: real, r: real, s: real, d: real)
    requires d == 1.0 && p * s - q * r == d
    requires a == a * p * p + b * p * r + c * r * r
    requires b == 2.0 * a * p * q + b * (p * s + q * r) + 2.0 * c * r * s
    ensures a * (s - p) == b * r && a * q == -(c * r)
  {
    RealAutomorph(a, b, c, p, q, r, s, a, b);
    UnitFactor(2.0 * a * p + b * r, d);
    UnitFactor(b * p + 2.0 * c * r, d);
  }

  lemma UnitFactor(x: real, d: real)
    requires d == 1.0
    ensures x * d == x
  {
  }

  lemma AutomorphEquations(f: Form, m: Mat)
    requires Det(m) == 1 && Act(f, m) == f
    ensures f.a * (m.s - m.p) == f.b * m.r && f.a * m.q == -(f.c * m.r)
  {
    EmbedAct(f, m);
    EmbedDet(m);
    RealFixed(EmbedForm(f), EmbedMat(m));
    EmbedEquations(f.a, f.b, f.c, m.p, m.q, m.r, m.s);
  }

  lemma RealFixed(f: RealForm, m: RealMat)
    requires RealAct(f, m) == f && RealDet(m) == 1.0
    ensures f.a * (m.s - m.p) == f.b * m.r && f.a * m.q == -(f.c * m.r)
  {
    var A, B := RealAct(f, m).a, RealAct(f, m).b;
    assert A == f.a && B == f.b;
    RealEquations(f.a, f.b, f.c, m.p, m.q, m.r, m.s, RealDet(m));
  }

  lemma EmbedDet(m: Mat)
    ensures RealDet(EmbedMat(m)) == Det(m) as real
  {
  }

  lemma EmbedEquations(a: int, b: int, c: int, p: int, q: int, r: int, s: int)
    requires a as real * (s as real - p as real) == b as real * r as real
    requires a as real * q as real == -(c as real * r as real)
    ensures a * (s - p) == b * r && a * q == -(c * r)
  {
    assert (a * (s - p)) as real == a as real * (s - p) as real;
    assert (b * r) as real == b as real * r as real;
    assert (a * q) as real == a as real * q as real;
    assert (c * r) as real == c as real * r as real;
  }

  lemma RealTrace(a: real, b: real, c: real, p: real, q: real, r: real, s: real)
    requires a * (s - p) == b * r && a * q == -(c * r) && p * s - q * r == 1.0
    ensures a * a * ((p + s) * (p + s) - 4.0) == (b * b - 4.0 * a * c) * r * r
  {
    assert (p + s) * (p + s) - 4.0 == (s - p) * (s - p) + 4.0 * (q * r);
    RealSquareOut(a, s - p, b * r);
    assert a * a * (4.0 * (q * r)) == 4.0 * a * r * (a * q);
  }

  lemma RealSquareOut(a: real, x: real, y: real)
    requires a * x == y
    ensures a * a * (x * x) == y * y
  {
  }

  /** The trace of such a substitution. */
  lemma AutomorphTrace(f: Form, m: Mat)
    requires Det(m) == 1 && Act(f, m) == f
    ensures f.a * f.a * ((m.p + m.s) * (m.p + m.s) - 4) == Disc(f) * m.r * m.r
  {
    AutomorphEquations(f, m);
    EmbedDet(m);
    RealAutomorphEquations(f.a, f.b, f.c, m.p, m.q, m.r, m.s);
    RealTrace(f.a as real, f.b as real, f.c as real, m.p as real, m.q as real, m.r as real, m.s as real);
    EmbedTrace(f, m);
  }

  lemma RealAutomorphEquations(a: int, b: int, c: int, p: int, q: int, r: int, s: int)
    requires a * (s - p) == b * r && a * q == -(c * r)
    ensures a as real * (s as real - p as real) == b as real * r as real
    ensures a as real * q as real == -(c as real * r as real)
  {
    assert (a * (s - p)) as real == a as real * (s - p) as real;
    assert (b * r) as real == b as real * r as real;
    assert (a * q) as real == a as real * q as real;
    assert (c * r) as real == c as real * r as real;
  }

  lemma EmbedTrace(f: Form, m: Mat)
    requires var F, M := EmbedForm(f), EmbedMat(m);
             F.a * F.a * ((M.p + M.s) * (M.p + M.s) - 4.0) == (F.b * F.b - 4.0 * F.a * F.c) * M.r * M.r
    ensures f.a * f.a * ((m.p + m.s) * (m.p + m.s) - 4) == Disc(f) * m.r * m.r
  {
    var t := m.p + m.s;
    EmbedDisc(f);
    assert t as real == m.p as real + m.s as real;
    assert (t * t - 4) as real == t as real * t as real - 4.0;
    assert (f.a * f.a * (t * t - 4)) as real == f.a as real * f.a as real * (t * t - 4) as real;
    assert (Disc(f) * m.r * m.r) as real == Disc(f) as real * m.r as real * m.r as real;
  }

  /** Discriminants other than -3 and -4 times a square. */
  ghost predicate Rigid(D: int) {
    forall x: int, y: int :: x > 0 && y > 0 ==> D * (x * x) != -3 * (y * y) && D * (x * x) != -4 * (y * y)
  }

  /** Only plus and minus the identity leave a form alone, unless its discriminant is -3 or -4
      times a square. */
  lemma AutomorphIsUnit(f: Form, m: Mat)
    requires PositiveDefinite(f) && Det(m) == 1 && Act(f, m) == f && Rigid(Disc(f))
    ensures m == IDENTITY || m == Negated(IDENTITY)
  {
    AutomorphEquations(f, m);
    AutomorphTrace(f, m);
    if m.r != 0 {
      TraceIsSmall(f.a, m.p + m.s, Disc(f), m.r);
      assert false;
    }
    assert f.a * (m.s - m.p) == 0 && f.a * m.q == 0;
    assert m.q * m.r == 0;
    UnitProduct(m.p, m.s);
  }

  lemma TraceIsSmall(a: int, t: int, D: int, r: int)
    requires a > 0 && D < 0 && r != 0 && a * a * (t * t - 4) == D * r * r
    ensures !Rigid(D)
  {
    var x := if r < 0 then -r else r;
    NegateProduct(r, r);
    NegateProduct(-r, r);
    Reassociate(D, r, r);
    ProductGrows(x, x);
    ProductGrows(-D, x * x);
    NegateProduct(D, x * x);
    ProductGrows(a, a);
    ProductGrows(a * a, t * t - 4);
    assert t * t - 4 < 0;
    SmallSquare(t);
    assert a * a * -4 == -4 * (a * a) && a * a * -3 == -3 * (a * a);
  }

  lemma SmallSquare(t: int)
    requires t * t < 4
    ensures t * t == 0 || t * t == 1
  {
    if t >= 2 {
      ProductMonotone(t, 2, t);
    } else if t <= -2 {
      ProductMonotone(-t, 2, -t);
      NegateProduct(t, t);
      NegateProduct(t, -t);
    }
  }
}
