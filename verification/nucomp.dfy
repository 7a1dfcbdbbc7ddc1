/** NUCOMP and NUDUPL: composition that reduces while it composes. Both build the same
    class as the reference multiplication. */
module Nucomp {
  import opened Integers
  import opened Forms
  import opened Composition
  import opened Reduction
  import opened Euclid
  import opened SlowArithmetic
  import XgcdPartial

  /** What both algorithms know once the congruences are solved: leading coefficients
      a1, a2 and scaled c2 without their common factor, half difference m, half sum ss,
      and the solution k. */
  datatype Solution = Solution(a1: int, a2: int, b2: int, c2: int, m: int, ss: int, k: int)

  ghost predicate Solves(h: Solution) {
    && h.a1 > 0 && h.ss == h.m + h.b2
    && Divides(h.a1, h.a2 * h.k - h.m)
    && Divides(h.a1, h.k * h.ss + h.c2)
  }

  lemma DirectIsExact(h: Solution)
    requires Solves(h)
    ensures ((h.b2 + h.a2 * h.k) * h.k + h.c2) % h.a1 == 0
  {
    DividesCombination(h.a1, h.a2 * h.k - h.m, h.k * h.ss + h.c2, h.k, 1);
    assert h.k * (h.a2 * h.k - h.m) + (h.k * h.ss + h.c2) == (h.b2 + h.a2 * h.k) * h.k + h.c2 by {
      Distribute(h.k, h.a2 * h.k, h.m);
      Distribute(h.k, h.m, h.b2);
      Distribute(h.k, h.b2, h.a2 * h.k);
    }
    NoRemainder(h.a1, (h.b2 + h.a2 * h.k) * h.k + h.c2);
  }

  /** The composite that the direct branch returns, and the partial branch reduces. */
  function Direct(h: Solution): Form
    requires Solves(h)
  {
    DirectIsExact(h);
    Form(h.a2 * h.a1, 2 * (h.a2 * h.k) + h.b2, DivExact((h.b2 + h.a2 * h.k) * h.k + h.c2, h.a1))
  }

  // ----- The partial branch -----

  lemma RealMiddle(a: real, b: real, c: real, p: real, q: real, r: real, s: real, A: real, B: real)
    requires A == a * p * p + b * p * r + c * r * r
    requires B == 2.0 * a * p * q + b * (p * s + q * r) + 2.0 * c * r * s
    ensures r * B == 2.0 * A * s - (p * s - q * r) * (2.0 * a * p + b * r)
  {
  }

  /** The middle coefficient after a unimodular substitution, up to the factor r. */
  lemma MiddleCoefficient(f: Form, n: Mat)
    requires Det(n) == 1
    ensures n.r * Act(f, n).b == 2 * Act(f, n).a * n.s - (2 * f.a * n.p + f.b * n.r)
  {
    EmbedAct(f, n);
    var F, N, g := EmbedForm(f), EmbedMat(n), Act(f, n);
    RealMiddle(F.a, F.b, F.c, N.p, N.q, N.r, N.s, g.a as real, g.b as real);
    assert N.p * N.s - N.q * N.r == Det(n) as real;
    assert (n.r * g.b) as real == N.r * g.b as real;
    assert (2 * g.a * n.s - (2 * f.a * n.p + f.b * n.r)) as real
        == 2.0 * g.a as real * N.s - (2.0 * F.a * N.p + F.b * N.r);
  }

  lemma RealLeading(a1: real, a2: real, b2: real, c2: real, k: real, C: real, P: real, Q: real, R: real,
                    A: real, B: real, E: real)
    requires R == a1 * P - k * Q && a1 * C == E && E == (b2 + a2 * k) * k + c2
    requires A == a2 * a1 && B == 2.0 * (a2 * k) + b2
    ensures a1 * (A * P * P + B * P * -Q + C * -Q * -Q) == a2 * R * R - b2 * R * Q + c2 * Q * Q
  {
    assert a1 * C * Q * Q == E * Q * Q;
  }

  lemma EmbedSolution(h: Solution, P: int, Q: int, R: int)
    requires Solves(h) && R == h.a1 * P - h.k * Q
    ensures var a1, a2, b2, c2, k := h.a1 as real, h.a2 as real, h.b2 as real, h.c2 as real, h.k as real;
            && R as real == a1 * P as real - k * Q as real
            && Direct(h).a as real == a2 * a1 && Direct(h).b as real == 2.0 * (a2 * k) + b2
            && a1 * Direct(h).c as real == (b2 + a2 * k) * k + c2
  {
    var E := (h.b2 + h.a2 * h.k) * h.k + h.c2;
    assert Direct(h).c * h.a1 == E;
    assert (Direct(h).c * h.a1) as real == h.a1 as real * Direct(h).c as real;
    assert E as real == (h.b2 as real + h.a2 as real * h.k as real) * h.k as real + h.c2 as real;
  }

  lemma LeadingCoefficient(h: Solution, P: int, Q: int, R: int)
    requires Solves(h) && R == h.a1 * P - h.k * Q
    ensures h.a1 * Value(Direct(h), P, -Q) == Value(Form(h.a2, -h.b2, h.c2), R, Q)
  {
    var f, F := Direct(h), EmbedForm(Direct(h));
    EmbedSolution(h, P, Q, R);
    RealLeading(h.a1 as real, h.a2 as real, h.b2 as real, h.c2 as real, h.k as real, F.c,
                P as real, Q as real, R as real, F.a, F.b, h.a1 as real * F.c);
    EmbedValue(f, P, -Q);
    EmbedValue(Form(h.a2, -h.b2, h.c2), R, Q);
    EmbedProduct(h.a1, Value(f, P, -Q));
  }

  /** The two exact divisions of the partial branch. */
  lemma PartialDivisions(h: Solution, P: int, Q: int, R: int)
    requires Solves(h) && R == h.a1 * P - h.k * Q
    ensures Divides(h.a1, h.m * Q + h.a2 * R) && Divides(h.a1, h.ss * R - h.c2 * Q)
  {
    var x :| h.a2 * h.k - h.m == x * h.a1;
    var y :| h.k * h.ss + h.c2 == y * h.a1;
    Distribute(h.a2, h.a1 * P, h.k * Q);
    Distribute(Q, h.a2 * h.k, h.m);
    assert h.m * Q + h.a2 * R == (h.a2 * P - x * Q) * h.a1;
    Distribute(h.ss, h.a1 * P, h.k * Q);
    Distribute(Q, h.k * h.ss, h.c2);
    assert h.ss * R - h.c2 * Q == (h.ss * P - y * Q) * h.a1;
  }

  lemma SplitQuadratic(R: int, Q: int, m: int, ss: int, a: int, c: int)
    ensures R * (m * Q + a * R) - Q * (ss * R - c * Q) == Value(Form(a, m - ss, c), R, Q)
  {
    Distribute(R, m * Q, a * R);
    Distribute(Q, ss * R, c * Q);
    Distribute(R * Q, m, ss);
  }

  /** The new leading coefficient is a value of the direct composite at coprime cofactors. */
  lemma PartialLeading(h: Solution, P: int, Q: int, R: int, m1: int, m2: int)
    requires Solves(h) && R == h.a1 * P - h.k * Q
    requires m1 * h.a1 == h.m * Q + h.a2 * R && m2 * h.a1 == h.ss * R - h.c2 * Q
    ensures R * m1 - Q * m2 == Value(Direct(h), P, -Q)
  {
    LeadingCoefficient(h, P, Q, R);
    SplitQuadratic(R, Q, h.m, h.ss, h.a2, h.c2);
    Reassociate(R, m1, h.a1);
    Reassociate(Q, m2, h.a1);
    Distribute(h.a1, R * m1, Q * m2);
    CancelFactor(h.a1, R * m1 - Q * m2, Value(Direct(h), P, -Q));
  }

  /** The unimodular substitution whose first column is (P, -Q). */
  function Cofactors(e: State): Mat {
    if e.co1 < 0 then Mat(e.d1, -e.d2, -e.co1, e.co2) else Mat(e.d1, e.d2, -e.co1, -e.co2)
  }

  lemma CofactorsUnimodular(R2: int, R1: int, e: State)
    requires Invariant(R2, R1, e)
    ensures Det(Cofactors(e)) == 1
  {
  }

  /** The middle coefficient that the partial branch recovers from the cofactors. */
  lemma PartialMiddle(h: Solution, e: State, ca: int, g: Form)
    requires Solves(h) && Invariant(h.a1, h.k, e) && g == Act(Direct(h), Cofactors(e))
    requires ca == if e.co1 < 0 then g.a else -g.a
    ensures 2 * (h.a2 * e.r1 - ca * e.co2) == (g.b + h.b2) * e.co1
  {
    var f, n := Direct(h), Cofactors(e);
    CofactorsUnimodular(h.a1, h.k, e);
    MiddleCoefficient(f, n);
    assert 2 * f.a * n.p + f.b * n.r == 2 * (h.a2 * e.r1) - h.b2 * e.co1 by {
      Reassociate(h.a2, h.a1, e.d1);
      Reassociate(h.a2, h.k, e.co1);
      Distribute(h.a2, h.a1 * e.d1, h.k * e.co1);
    }
    NegateProduct(e.co1, g.b);
    NegateProduct(g.a, e.co2);
    Distribute(e.co1, g.b, h.b2);
    assert 2 * g.a * n.s == 2 * (g.a * n.s);
  }

  lemma FourDividesDifference(A: int, b: int, c: int, D: int, ca: int)
    requires A > 0 && b * b - D == 4 * A * c && (ca == A || ca == -A)
    ensures (b * b - D) % ca == 0
    ensures FloorDiv(DivExact(b * b - D, ca), 4) == if ca > 0 then c else -c
    ensures DivExact(b * b - D, ca) % 4 == 0
  {
    var q := if ca > 0 then 4 * c else -4 * c;
    assert b * b - D == q * ca;
    Quotient(q, ca);
  }

  /** Normalising the middle coefficient and recomputing the last one stays in the class. */
  lemma Finish(g: Form, ca: int, cb: int, D: int)
    requires g.a > 0 && Disc(g) == D && (ca == g.a || ca == -g.a)
    requires cb == FloorMod(g.b, 2 * ca)
    ensures (cb * cb - D) % ca == 0 && DivExact(cb * cb - D, ca) % 4 == 0
    ensures var q := FloorDiv(DivExact(cb * cb - D, ca), 4);
            Equiv(g, Form(g.a, cb, if ca < 0 then -q else q))
  {
    var x :| g.b - cb == x * (2 * ca);
    var n := if ca > 0 then -x else x;
    assert cb == g.b + 2 * g.a * n;
    Translate(g, n);
    var r := Form(g.a, cb, g.a * n * n + g.b * n + g.c);
    EquivDisc(g, r);
    FourDividesDifference(g.a, cb, r.c, D, ca);
  }

  lemma DirectDisc(h: Solution)
    requires Solves(h)
    ensures Disc(Direct(h)) == h.b2 * h.b2 - 4 * (h.a2 * h.c2)
  {
    var t, C := h.a2 * h.k, Direct(h).c;
    SquareOfShift(h.b2, -t);
    NegateProduct(h.b2, t);
    NegateProduct(t, t);
    DirectProduct(h.a1, h.a2, h.b2, h.c2, h.k, C);
    Reassociate(4, h.a2 * h.a1, C);
  }

  lemma DirectProduct(a1: int, a2: int, b2: int, c2: int, k: int, C: int)
    requires C * a1 == (b2 + a2 * k) * k + c2
    ensures (a2 * a1) * C == b2 * (a2 * k) + (a2 * k) * (a2 * k) + a2 * c2
  {
    var t := a2 * k;
    Reassociate(a2, a1, C);
    Distribute(a2, (b2 + t) * k, c2);
    Distribute(k, b2, t);
    Distribute(a2, b2 * k, t * k);
    Swap(a2, b2, k);
    Swap(a2, t, k);
  }

  // ----- Solving the congruences of NUCOMP -----

  /** The data of the congruence step: the two gcds with their cofactors, uniformly
      for both branches (sp == 1 behaves like u2 == 1, v2 == 0). */
  datatype Congruence = Congruence(s: int, a1: int, a2: int, sp: int, u: int,
                                   v1: int, x: int, u2: int, v2: int, m: int, c1: int, c2: int)

  /** Leading coefficients s*a1 and s*a2, half sum s*u, half difference m. */
  predicate Prepared(q: Congruence) {
    && q.s > 0 && q.a1 > 0
    && q.v1 * q.a2 == q.sp + q.x * q.a1
    && q.v2 * q.u + q.u2 * q.sp == 1
    && q.m * q.u == q.a1 * q.c1 - q.a2 * q.c2
  }

  lemma FirstCongruence(q: Congruence, y: int)
    requires Prepared(q)
    ensures Divides(q.a1, q.a2 * ((q.m * q.v1 + y * q.a1) * q.u2 - q.v2 * q.c2) - q.m)
  {
    var e := q.m * q.v1 + y * q.a1;
    FirstCombination(q.a1, q.a2, q.m, q.v1, q.sp, q.x, y);
    DividesBy(q.a1, q.m * q.x + q.a2 * y);
    Distribute(q.m, q.v2 * q.u, q.u2 * q.sp);
    Swap(q.m, q.v2, q.u);
    Swap(q.m, q.u2, q.sp);
    FirstQuotient(q, e);
  }

  lemma FirstCombination(a1: int, a2: int, m: int, v1: int, sp: int, x: int, y: int)
    requires v1 * a2 == sp + x * a1
    ensures a2 * (m * v1 + y * a1) - m * sp == (m * x + a2 * y) * a1
  {
    Distribute(a2, m * v1, y * a1);
    Swap(a2, m, v1);
    Distribute(m, sp, x * a1);
    Distribute(a1, m * x, a2 * y);
    Reassociate(m, x, a1);
    Reassociate(a2, y, a1);
  }

  lemma FirstQuotient(q: Congruence, e: int)
    requires Prepared(q) && Divides(q.a1, q.a2 * e - q.m * q.sp)
    requires q.m == q.v2 * (q.m * q.u) + q.u2 * (q.m * q.sp)
    ensures Divides(q.a1, q.a2 * (e * q.u2 - q.v2 * q.c2) - q.m)
  {
    var n :| q.a2 * e - q.m * q.sp == n * q.a1;
    Distribute(q.a2, e * q.u2, q.v2 * q.c2);
    Distribute(q.v2, q.a1 * q.c1, q.a2 * q.c2);
    Distribute(q.u2, q.a2 * e, q.m * q.sp);
    assert q.a2 * (e * q.u2 - q.v2 * q.c2) - q.m == (q.u2 * n - q.v2 * q.c1) * q.a1;
  }

  lemma SecondCongruence(q: Congruence, y: int)
    requires Prepared(q)
    ensures Divides(q.a1, q.u * ((q.m * q.v1 + y * q.a1) * q.u2 - q.v2 * q.c2) + q.c2)
  {
    var e := q.m * q.v1 + y * q.a1;
    var n := q.v1 * q.c1 + q.u * y - q.c2 * q.x;
    SecondCombination(q.u, q.m, q.v1, y, q.a1, q.c1, q.a2, q.c2, q.sp, q.x);
    SecondQuotient(q, e, n);
  }

  lemma SecondCombination(u: int, m: int, v1: int, y: int, a1: int, c1: int, a2: int, c2: int, sp: int, x: int)
    requires m * u == a1 * c1 - a2 * c2 && v1 * a2 == sp + x * a1
    ensures u * (m * v1 + y * a1) + sp * c2 == (v1 * c1 + u * y - c2 * x) * a1
  {
    Distribute(u, m * v1, y * a1);
    Reassociate(v1, m, u);
    Distribute(v1, a1 * c1, a2 * c2);
    Reassociate(v1, a2, c2);
    Distribute(c2, sp, x * a1);
    Reassociate(v1, c1, a1);
    Reassociate(u, y, a1);
    Reassociate(c2, x, a1);
    Distribute(a1, v1 * c1, u * y);
    Distribute(a1, v1 * c1 + u * y, c2 * x);
  }

  lemma SecondQuotient(q: Congruence, e: int, n: int)
    requires Prepared(q) && q.u * e + q.sp * q.c2 == n * q.a1
    ensures Divides(q.a1, q.u * (e * q.u2 - q.v2 * q.c2) + q.c2)
  {
    Distribute(q.u, e * q.u2, q.v2 * q.c2);
    Distribute(q.c2, q.v2 * q.u, q.u2 * q.sp);
    Distribute(q.u2, q.u * e, q.sp * q.c2);
    assert q.u * (e * q.u2 - q.v2 * q.c2) + q.c2 == (q.u2 * n) * q.a1;
  }

  /** The forms that a congruence belongs to. */
  predicate Describes(q: Congruence, f: Form, g: Form) {
    && f == Form(q.s * q.a1, q.s * q.u + q.m, q.c1)
    && g == Form(q.s * q.a2, q.s * q.u - q.m, q.c2)
  }

  function SolutionOf(q: Congruence, k: int): Solution {
    Solution(q.a1, q.a2, q.s * q.u - q.m, q.s * q.c2, q.m, q.s * q.u, k)
  }

  lemma SolutionSolves(q: Congruence, k: int)
    requires q.a1 > 0 && Divides(q.a1, q.a2 * k - q.m) && Divides(q.a1, q.u * k + q.c2)
    ensures Solves(SolutionOf(q, k))
  {
    DividesCombination(q.a1, q.u * k + q.c2, 0 * q.a1, q.s, 0);
    assert q.s * (q.u * k + q.c2) == k * (q.s * q.u) + q.s * q.c2 by {
      Distribute(q.s, q.u * k, q.c2);
    }
  }

  lemma ShiftSolution(q: Congruence, e: int, z: int)
    requires q.a1 > 0 && Divides(q.a1, q.a2 * e - q.m) && Divides(q.a1, q.u * e + q.c2)
    ensures Divides(q.a1, q.a2 * (e + z * q.a1) - q.m) && Divides(q.a1, q.u * (e + z * q.a1) + q.c2)
  {
    DividesShift(q.a1, q.a2, e, z, -q.m);
    DividesShift(q.a1, q.u, e, z, q.c2);
  }

  lemma CongruencePrimitive(q: Congruence)
    requires Prepared(q)
    ensures exists x, y, z :: x * q.a1 + y * q.a2 + z * q.u == 1
  {
    Distribute(q.u2, q.v1 * q.a2, q.x * q.a1);
    assert (-(q.u2 * q.x)) * q.a1 + (q.u2 * q.v1) * q.a2 + q.v2 * q.u == 1;
  }

  lemma DescribesSetting(q: Congruence, f: Form, g: Form)
    requires Prepared(q) && Describes(q, f, g) && g.a > 0
    ensures Setting(f, g, q.s, q.a1, q.a2, q.u, -q.m)
  {
    CongruencePrimitive(q);
    PositiveFactor(q.s, q.a2);
    NegateProduct(q.m, q.u);
  }

  /** Gauss's bilinear substitution for the solution k, with its two exact quotients. */
  function Witness(q: Congruence, k: int, l: int, n: int): Bilinear {
    Bilinear(q.s, -k, -l, -n, q.a1, q.a2, q.u)
  }

  lemma WitnessComposes(q: Congruence, f: Form, g: Form, k: int, l: int, n: int)
    requires Prepared(q) && Describes(q, f, g) && g.a > 0
    requires q.a2 * k - q.m == q.a1 * l && q.u * k + q.c2 == q.a1 * n
    ensures Composes(f, g, Product(Witness(q, k, l, n)))
  {
    var w := Witness(q, k, l, n);
    DescribesSetting(q, f, g);
    NegateProduct(q.a2, k);
    NegateProduct(q.u, k);
    NegateProduct(q.a1, l);
    NegateProduct(q.a1, n);
    ThirdCoefficient(f, g, q.s, q.a1, q.a2, q.u, -q.m, -k, -l, -n);
    NegateProduct(k, q.a2);
    NegateProduct(l, q.a1);
    NegateProduct(k, q.u);
    NegateProduct(n, q.a1);
    assert LeftFactor(w) == f && RightFactor(w) == g;
    ComposesBy(w);
  }

  lemma DirectDiscriminant(q: Congruence, g: Form, k: int)
    requires Solves(SolutionOf(q, k)) && g == Form(q.s * q.a2, q.s * q.u - q.m, q.c2)
    ensures Disc(Direct(SolutionOf(q, k))) == Disc(g)
  {
    DirectDisc(SolutionOf(q, k));
    assert q.a2 * (q.s * q.c2) == q.s * q.a2 * q.c2;
    Reassociate(4, q.s * q.a2, q.c2);
  }

  lemma WitnessMatchesDirect(q: Congruence, k: int, l: int, n: int)
    requires Solves(SolutionOf(q, k)) && q.a2 * k - q.m == q.a1 * l
    ensures Product(Witness(q, k, l, n)).a == Direct(SolutionOf(q, k)).a
    ensures Product(Witness(q, k, l, n)).b == Direct(SolutionOf(q, k)).b
  {
    NegateProduct(k, q.a2);
    NegateProduct(l, q.a1);
  }

  lemma CompositeIs(f: Form, g: Form, h: Form, d: Form)
    requires Composes(f, g, h) && PositiveDefinite(f) && PositiveDefinite(g)
    requires d.a == h.a && d.b == h.b && Disc(d) == Disc(g)
    ensures Composes(f, g, d)
  {
    ComposesDisc(f, g, h);
    ComposesPositiveDefinite(f, g, h);
    SameC(d, h);
  }

  /** The direct composite is a composite of the two forms in Gauss's sense. */
  lemma DirectComposes(q: Congruence, f: Form, g: Form, k: int)
    requires Prepared(q) && Describes(q, f, g) && PositiveDefinite(f) && PositiveDefinite(g)
    requires Divides(q.a1, q.a2 * k - q.m) && Divides(q.a1, q.u * k + q.c2)
    ensures Solves(SolutionOf(q, k)) && Composes(f, g, Direct(SolutionOf(q, k)))
  {
    var l :| q.a2 * k - q.m == l * q.a1;
    var n :| q.u * k + q.c2 == n * q.a1;
    SolutionSolves(q, k);
    WitnessComposes(q, f, g, k, l, n);
    DirectDiscriminant(q, g, k);
    WitnessMatchesDirect(q, k, l, n);
    CompositeIs(f, g, Product(Witness(q, k, l, n)), Direct(SolutionOf(q, k)));
  }

  /** The first gcd: sp = gcd(a1, a2) with v1*a2 = sp (mod a1), from the remainder t of a2. */
  method LeadingGcd(a1: int, a2: int) returns (sp: int, v1: int, ghost x: int)
    requires a1 > 0
    ensures sp > 0 && Divides(sp, a1) && Divides(sp, a2) && v1 * a2 == sp + x * a1
  {
    var t := FloorMod(a2, a1);
    if t == 0 {
      v1 := 0;
      sp := a1;
      x := -1;
      assert a1 == 1 * a1;
    } else {
      var r := Gcd(t, a1);
      sp, v1 := r.gcd, r.s;
      ghost var n :| a2 - t == n * a1;
      x := v1 * n - r.t;
      LeadingCofactor(a1, a2, t, n, r);
    }
  }

  lemma LeadingCofactor(a1: int, a2: int, t: int, n: int, r: GcdRes)
    requires IsGcd(r, t, a1) && a2 - t == n * a1
    ensures Divides(r.gcd, a2) && r.s * a2 == r.gcd + (r.s * n - r.t) * a1
  {
    DividesCombination(r.gcd, t, a1, 1, n);
    Distribute(r.s, t, n * a1);
    Reassociate(r.s, n, a1);
    Distribute(a1, r.s * n, r.t);
  }

  /** Dividing the congruence data by the common factor s. */
  lemma Scale(f: Form, g: Form, m: int, ss: int, sp: int, v1: int, x: int, s: int, u2: int, v2: int) returns (q: Congruence)
    requires f.a > 0 && s > 0 && Divides(s, f.a) && Divides(s, g.a) && Divides(s, ss) && Divides(s, sp)
    requires v1 * g.a == sp + x * f.a && v2 * ss + u2 * sp == s
    requires m * ss == f.a * f.c - g.a * g.c && f.b == ss + m && g.b == ss - m
    ensures Prepared(q) && Describes(q, f, g) && q.s == s && q.u2 == u2 && q.v2 == v2 && q.v1 == v1 && q.m == m
    ensures q.sp * s == sp
  {
    var a1 :| f.a == a1 * s;
    var a2 :| g.a == a2 * s;
    var u :| ss == u * s;
    var sp' :| sp == sp' * s;
    q := Congruence(s, a1, a2, sp', u, v1, x, u2, v2, m, f.c, g.c);
    PositiveFactor(s, a1);
    ScaleFirst(s, v1, a2, sp', x, a1);
    ScaleSecond(s, v2, u, u2, sp');
    ScaleThird(s, m, u, a1, f.c, a2, g.c);
  }

  lemma ScaleFirst(s: int, v1: int, a2: int, sp: int, x: int, a1: int)
    requires s > 0 && v1 * (a2 * s) == sp * s + x * (a1 * s)
    ensures v1 * a2 == sp + x * a1
  {
    assert (v1 * a2) * s == (sp + x * a1) * s;
    CancelFactor(s, v1 * a2, sp + x * a1);
  }

  lemma ScaleSecond(s: int, v2: int, u: int, u2: int, sp: int)
    requires s > 0 && v2 * (u * s) + u2 * (sp * s) == s
    ensures v2 * u + u2 * sp == 1
  {
    assert (v2 * u + u2 * sp) * s == 1 * s;
    CancelFactor(s, v2 * u + u2 * sp, 1);
  }

  lemma ScaleThird(s: int, m: int, u: int, a1: int, c1: int, a2: int, c2: int)
    requires s > 0 && m * (u * s) == a1 * s * c1 - a2 * s * c2
    ensures m * u == a1 * c1 - a2 * c2
  {
    assert (m * u) * s == (a1 * c1 - a2 * c2) * s;
    CancelFactor(s, m * u, a1 * c1 - a2 * c2);
  }

  lemma KSolves(q: Congruence, f: Form, g: Form, k0: int, k1: int, k: int)
    requires Prepared(q) && Describes(q, f, g) && PositiveDefinite(f) && PositiveDefinite(g)
    requires Divides(q.s * q.a1, q.m * q.v1 - k0) && k1 == k0 * q.u2 - q.v2 * q.c2 && Divides(q.a1, k1 - k)
    ensures Solves(SolutionOf(q, k)) && Composes(f, g, Direct(SolutionOf(q, k)))
  {
    var y :| q.m * q.v1 - k0 == y * (q.s * q.a1);
    var z :| k1 - k == z * q.a1;
    NegateProduct(y, q.s);
    NegateProduct(y * q.s, q.a1);
    Reassociate(y, q.s, q.a1);
    FirstCongruence(q, -y * q.s);
    SecondCongruence(q, -y * q.s);
    ShiftSolution(q, k1, -z);
    NegateProduct(z, q.a1);
    DirectComposes(q, f, g, k);
  }

  /** The common part of NUCOMP: everything up to the choice of the branch. */
  method Congruences(f: Form, g: Form) returns (h: Solution)
    requires PositiveDefinite(f) && PositiveDefinite(g) && Disc(f) == Disc(g)
    ensures Solves(h) && Composes(f, g, Direct(h)) && 0 <= h.k < h.a1 && h.b2 == g.b
  {
    var a1, a2, c2 := f.a, g.a, g.c;
    var ss := FloorDiv(f.b + g.b, 2);
    var m := FloorDiv(f.b - g.b, 2);
    HalfSums(g, f, ss, m);
    var sp, v1, x := LeadingGcd(a1, a2);
    var k := FloorMod(m * v1, a1);
    ghost var k0, k1, q := k, k, Congruence(1, 1, 1, 1, 1, 1, 1, 1, 1, 1, 1, 1);
    if sp != 1 {
      var r := Gcd(ss, sp);
      var s, v2, u2 := r.gcd, r.s, r.t;
      DividesTransitive(s, sp, a1);
      DividesTransitive(s, sp, a2);
      q := Scale(f, g, m, ss, sp, v1, x, s, u2, v2);
      k := k * u2 - v2 * c2;
      k1 := k;
      if s != 1 {
        NoRemainder(s, a1);
        NoRemainder(s, a2);
        a1 := DivExact(a1, s);
        a2 := DivExact(a2, s);
        c2 := c2 * s;
        CancelFactor(s, a1, q.a1);
        CancelFactor(s, a2, q.a2);
      }
      k := FloorMod(k, a1);
    } else {
      assert f.a == f.a * 1 && g.a == g.a * 1 && ss == ss * 1 && sp == sp * 1;
      q := Scale(f, g, m, ss, sp, v1, x, 1, 1, 0);
      DividesBy(q.a1, 0);
    }
    KSolves(q, f, g, k0, k1, k);
    h := Solution(a1, a2, g.b, c2, m, ss, k);
    assert h == SolutionOf(q, k);
  }

  // ----- The branches -----

  /** The reduced composite of the partial branch: the direct one under the cofactor substitution. */
  function Reshaped(h: Solution, e: State): Form
    requires Solves(h)
  {
    Act(Direct(h), Cofactors(e))
  }

  lemma ReshapedEquiv(h: Solution, e: State)
    requires Solves(h) && PositiveDefinite(Direct(h)) && Invariant(h.a1, h.k, e)
    ensures Equiv(Direct(h), Reshaped(h, e)) && PositiveDefinite(Reshaped(h, e))
    ensures Disc(Reshaped(h, e)) == Disc(Direct(h))
    ensures Reshaped(h, e).a == Value(Direct(h), e.d1, -e.co1)
  {
    CofactorsUnimodular(h.a1, h.k, e);
    EquivBy(Direct(h), Cofactors(e));
    EquivPositiveDefinite(Direct(h), Reshaped(h, e));
    EquivDisc(Direct(h), Reshaped(h, e));
  }

  lemma PartialRemainder(h: Solution, e: State)
    requires Invariant(h.a1, h.k, e)
    ensures e.r1 == h.a1 * e.d1 - h.k * e.co1
  {
  }

  /** After the leading coefficient, both remaining divisions of the partial branch are exact. */
  lemma PartialMiddleExact(h: Solution, e: State, ca: int)
    requires Solves(h) && Invariant(h.a1, h.k, e)
    requires ca == if e.co1 < 0 then Reshaped(h, e).a else -Reshaped(h, e).a
    ensures (2 * (h.a2 * e.r1 - ca * e.co2)) % e.co1 == 0
    ensures DivExact(2 * (h.a2 * e.r1 - ca * e.co2), e.co1) - h.b2 == Reshaped(h, e).b
  {
    PartialMiddle(h, e, ca, Reshaped(h, e));
    Quotient(Reshaped(h, e).b + h.b2, e.co1);
  }

  method DirectBranch(h: Solution) returns (r: Form)
    requires Solves(h)
    ensures r == Direct(h)
  {
    var t := h.a2 * h.k;
    var ca := h.a2 * h.a1;
    var cb := 2 * t + h.b2;
    var cc := (h.b2 + t) * h.k + h.c2;
    DirectIsExact(h);
    cc := DivExact(cc, h.a1);
    r := Form(ca, cb, cc);
  }

  /** The partial gcd, as far as the composition depends on it: some state of the run. */
  method PartialState(R2: int, R1: int, L: int) returns (co2: int, co1: int, r2: int, r1: int, ghost e: State)
    requires R2 > R1 >= 0 && L >= 0
    ensures Invariant(R2, R1, e) && e.r2 == r2 && e.r1 == r1 && e.co2 == co2 && e.co1 == co1
  {
    ghost var n;
    co2, co1, r2, r1, n := XgcdPartial.Partial(R2, R1, L);
    e := Iterate(Start(R2, R1), n);
    IterateInvariant(R2, R1, n);
  }

  method PartialBranch(h: Solution, D: int, L: int) returns (r: Form)
    requires Solves(h) && 0 <= h.k < h.a1 && PositiveDefinite(Direct(h)) && Disc(Direct(h)) == D && L >= 0
    ensures Equiv(Direct(h), r)
  {
    var co2, co1, r2, r1, e := PartialState(h.a1, h.k, L);
    ReshapedEquiv(h, e);
    PartialRemainder(h, e);
    PartialDivisions(h, e.d1, co1, r1);
    var t := h.a2 * r1;
    var m1 := h.m * co1 + t;
    NoRemainder(h.a1, m1);
    m1 := DivExact(m1, h.a1);
    var m2 := h.ss * r1 - h.c2 * co1;
    NoRemainder(h.a1, m2);
    m2 := DivExact(m2, h.a1);
    PartialLeading(h, e.d1, co1, r1, m1, m2);
    var ca := r1 * m1;
    var temp := co1 * m2;
    if co1 < 0 {
      ca := ca - temp;
    } else {
      ca := temp - ca;
    }
    PartialMiddleExact(h, e, ca);
    var cb := 2 * (t - ca * co2);
    cb := DivExact(cb, co1);
    cb := cb - h.b2;
    cb := FloorMod(cb, 2 * ca);
    Finish(Reshaped(h, e), ca, cb, D);
    var cc := cb * cb - D;
    cc := DivExact(cc, ca);
    cc := FloorDiv(cc, 4);
    if ca < 0 {
      ca, cc := -ca, -cc;
    }
    r := Form(ca, cb, cc);
    EquivTrans(Direct(h), Reshaped(h, e), r);
  }

  /** Any form in the class of a composite reduces to what the reference multiplication returns. */
  lemma CompositeReducesToMultiply(f: Form, g: Form, h: Form, r: Form)
    requires PositiveDefinite(f) && PositiveDefinite(g) && Disc(f) == Disc(g)
    requires Composes(f, g, h) && Equiv(h, r)
    ensures PositiveDefinite(r) && Disc(r) == Disc(f) && Canon(r) == Multiply(f, g)
  {
    var p := RawProduct(f, g);
    ComposesUnique(f, g, p, h);
    ComposesDisc(f, g, p);
    ComposesPositiveDefinite(f, g, p);
    EquivTrans(p, h, r);
    EquivPositiveDefinite(p, r);
    EquivDisc(p, r);
    CanonDecidesClass(p, r);
  }

  /** r := f * g. The result cell may be one of the operands. */
  method Nucomp(r: FormCell, f: FormCell, g: FormCell, D: int, L: int)
    requires PositiveDefinite(f.V()) && PositiveDefinite(g.V()) && Disc(f.V()) == Disc(g.V()) == D && L >= 0
    modifies r
    ensures PositiveDefinite(r.V()) && Disc(r.V()) == D
    ensures Canon(r.V()) == Multiply(old(f.V()), old(g.V()))
    decreases if f.a > g.a then 1 else 0
  {
    if f.a > g.a {
      Nucomp(r, g, f, D, L);
      MultiplySym(old(f.V()), old(g.V()));
      return;
    }
    var h := Congruences(f.V(), g.V());
    ComposesDisc(f.V(), g.V(), Direct(h));
    ComposesPositiveDefinite(f.V(), g.V(), Direct(h));
    var res: Form;
    if h.a1 < L {
      res := DirectBranch(h);
      EquivRefl(res);
    } else {
      res := PartialBranch(h, D, L);
    }
    CompositeReducesToMultiply(f.V(), g.V(), Direct(h), res);
    r.a := res.a;
    r.b := res.b;
    r.c := res.c;
  }

  lemma MultiplySym(f: Form, g: Form)
    requires PositiveDefinite(f) && PositiveDefinite(g) && Disc(f) == Disc(g)
    ensures Multiply(f, g) == Multiply(g, f)
  {
    var p := RawProduct(f, g);
    ComposesSym(f, g, p);
    EquivRefl(p);
    CompositeReducesToMultiply(f, g, p, p);
    CompositeReducesToMultiply(g, f, p, p);
  }

  // ----- Duplication -----

  /** The congruence of squaring: both operands are f and the half difference vanishes. */
  function SquareCongruence(f: Form, s: int, v2: int, u2: int): Congruence
    requires s > 0
  {
    Congruence(s, FloorDiv(f.a, s), FloorDiv(f.a, s), FloorDiv(f.a, s), FloorDiv(f.b, s), 0, -1, u2, v2, 0, f.c, f.c)
  }

  lemma SquareCongruenceHolds(f: Form, s: int, v2: int, u2: int)
    requires f.a > 0 && s > 0 && Divides(s, f.a) && Divides(s, f.b) && v2 * f.b + u2 * f.a == s
    ensures var q := SquareCongruence(f, s, v2, u2); Prepared(q) && Describes(q, f, f)
  {
    FloorOfMultiple(f.a, s);
    FloorOfMultiple(f.b, s);
    var a1, u := FloorDiv(f.a, s), FloorDiv(f.b, s);
    PositiveFactor(s, a1);
    ScaleSecond(s, v2, u, u2, a1);
  }

  /** The gcd of |b| and a, with the cofactor of b itself. */
  method MiddleGcd(f: FormCell) returns (s: int, v2: int, ghost u2: int)
    requires f.a > 0
    modifies f
    ensures f.V() == old(f.V())
    ensures s > 0 && Divides(s, f.a) && Divides(s, f.b) && v2 * f.b + u2 * f.a == s
  {
    if f.b < 0 {
      f.b := -f.b;
      var e := Gcd(f.b, f.a);
      s, v2, u2 := e.gcd, e.s, e.t;
      f.b := -f.b;
      v2 := -v2;
      DividesCombination(s, -f.b, f.a, -1, 0);
      NegateProduct(e.s, f.b);
    } else {
      var e := Gcd(f.b, f.a);
      s, v2, u2 := e.gcd, e.s, e.t;
    }
  }

  /** The common part of NUDUPL: everything up to the choice of the branch. */
  method SquareCongruences(f: FormCell) returns (a1: int, c1: int, k: int, ghost h: Solution)
    requires PositiveDefinite(f.V())
    modifies f
    ensures f.V() == old(f.V())
    ensures h == Solution(a1, a1, f.b, c1, 0, f.b, k) && Solves(h) && 0 <= k < a1
    ensures Composes(f.V(), f.V(), Direct(h))
  {
    a1, c1 := f.a, f.c;
    var s, v2, u2 := MiddleGcd(f);
    ghost var q := SquareCongruence(f.V(), s, v2, u2);
    SquareCongruenceHolds(f.V(), s, v2, u2);
    FloorOfMultiple(f.a, s);
    FloorOfMultiple(f.b, s);
    k := v2 * c1;
    k := -k;
    ghost var k1 := k;
    if s != 1 {
      a1 := FloorDiv(a1, s);
      c1 := c1 * s;
    }
    k := FloorMod(k, a1);
    DividesBy(q.s * q.a1, 0);
    KSolves(q, f.V(), f.V(), 0, k1, k);
    h := SolutionOf(q, k);
  }

  /** r := f * f. The result cell may be the operand; the operand's sign is flipped and
      restored on the way. */
  method Nudupl(r: FormCell, f: FormCell, D: int, L: int)
    requires PositiveDefinite(f.V()) && Disc(f.V()) == D && L >= 0
    modifies r, f
    ensures PositiveDefinite(r.V()) && Disc(r.V()) == D
    ensures Canon(r.V()) == Multiply(old(f.V()), old(f.V()))
    ensures r != f ==> f.V() == old(f.V())
  {
    ghost var form := f.V();
    var a1, c1, k, h := SquareCongruences(f);
    ComposesDisc(form, form, Direct(h));
    ComposesPositiveDefinite(form, form, Direct(h));
    var cb;
    if a1 < L {
      DirectIsExact(h);
      var t := a1 * k;
      r.a := a1 * a1;
      cb := 2 * t + f.b;
      r.c := f.b + t;
      r.c := r.c * k;
      r.c := r.c + c1;
      r.c := FloorDiv(r.c, a1);
      EquivRefl(Direct(h));
    } else {
      cb := NuduplPartial(r, f.b, a1, c1, k, D, L, h);
    }
    r.b := cb;
    CompositeReducesToMultiply(form, form, Direct(h), r.V());
  }

  /** The partial branch of duplication; m1 of the general algorithm is r1 itself. */
  method NuduplPartial(r: FormCell, b: int, a1: int, c1: int, k: int, D: int, L: int, ghost h: Solution) returns (cb: int)
    requires h == Solution(a1, a1, b, c1, 0, b, k) && Solves(h) && 0 <= k < a1 && L >= 0
    requires PositiveDefinite(Direct(h)) && Disc(Direct(h)) == D
    modifies r
    ensures Equiv(Direct(h), Form(r.a, cb, r.c))
  {
    var co2, co1, r2, r1, e := PartialState(a1, k, L);
    ReshapedEquiv(h, e);
    PartialRemainder(h, e);
    PartialDivisions(h, e.d1, co1, r1);
    var m2 := b * r1 - c1 * co1;
    NoRemainder(a1, m2);
    m2 := DivExact(m2, a1);
    PartialLeading(h, e.d1, co1, r1, r1, m2);
    r.a := r1 * r1;
    r.a := r.a - co1 * m2;
    if co1 >= 0 {
      r.a := -r.a;
    }
    PartialMiddleExact(h, e, r.a);
    cb := r.a * co2;
    cb := cb - a1 * r1;
    cb := -cb;
    cb := 2 * cb;
    cb := DivExact(cb, co1);
    cb := cb - b;
    cb := FloorMod(cb, 2 * r.a);
    Finish(Reshaped(h, e), r.a, cb, D);
    r.c := cb * cb;
    r.c := r.c - D;
    r.c := DivExact(r.c, r.a);
    r.c := TruncDiv4(r.c);
    if r.a < 0 {
      r.a := -r.a;
      r.c := -r.c;
    }
    EquivTrans(Direct(h), Reshaped(h, e), Form(r.a, cb, r.c));
  }

  /** Shift right by two bits, rounding toward zero. */
  function TruncDiv4(n: int): (q: int)
    ensures n % 4 == 0 ==> q == FloorDiv(n, 4)
  {
    if n >= 0 then n / 4 else -(-n / 4)
  }

  /** On forms whose middle coefficient is prime to the leading one, duplication agrees
      with the dedicated squaring of the reference. */
  lemma MultiplyIsSquare(f: Form)
    requires PositiveDefinite(f) && Gcd(f.b, f.a).gcd == 1
    ensures PositiveDefinite(RawSquare(f)) && Multiply(f, f) == Canon(RawSquare(f))
  {
    SquareComposes(f);
    EquivRefl(RawSquare(f));
    CompositeReducesToMultiply(f, f, RawSquare(f), RawSquare(f));
  }

}
