/** Composition is well defined on classes: replacing an operand by an equivalent form
    replaces the composite by an equivalent form. */
module CompositionClasses {
  import opened Integers
  import opened Forms
  import opened Composition
  import opened Reduction
  import opened SlowArithmetic

  /** A bilinear substitution with all eight coefficients, X by the p's and Y by the q's. */
  datatype Pair = Pair(p0: int, p1: int, p2: int, p3: int, q0: int, q1: int, q2: int, q3: int)

  function OfBilinear(w: Bilinear): Pair {
    Pair(w.j, w.k, w.l, w.m, 0, w.s, w.t, w.u)
  }

  /** The left form of the composition that w stands for, by the minors of w. */
  function LeftOf(w: Pair): Form {
    Form(w.p0 * w.q1 - w.p1 * w.q0,
         (w.p0 * w.q3 - w.p3 * w.q0) - (w.p1 * w.q2 - w.p2 * w.q1),
         w.p2 * w.q3 - w.p3 * w.q2)
  }

  function RightOf(w: Pair): Form {
    Form(w.p0 * w.q2 - w.p2 * w.q0,
         (w.p0 * w.q3 - w.p3 * w.q0) + (w.p1 * w.q2 - w.p2 * w.q1),
         w.p1 * w.q3 - w.p3 * w.q1)
  }

  function ProductOf(w: Pair): Form {
    Form(w.q1 * w.q2 - w.q0 * w.q3,
         w.p0 * w.q3 + w.p3 * w.q0 - w.p1 * w.q2 - w.p2 * w.q1,
         w.p1 * w.p2 - w.p0 * w.p3)
  }

  lemma BilinearIsPair(w: Bilinear)
    ensures LeftOf(OfBilinear(w)) == LeftFactor(w)
    ensures RightOf(OfBilinear(w)) == RightFactor(w)
    ensures ProductOf(OfBilinear(w)) == Product(w)
  {
  }

  /** The substitution after a change of the left operand's variables. */
  function WithLeft(w: Pair, n: Mat): Pair {
    Pair(n.p * w.p0 + n.r * w.p2, n.p * w.p1 + n.r * w.p3, n.q * w.p0 + n.s * w.p2, n.q * w.p1 + n.s * w.p3,
         n.p * w.q0 + n.r * w.q2, n.p * w.q1 + n.r * w.q3, n.q * w.q0 + n.s * w.q2, n.q * w.q1 + n.s * w.q3)
  }

  /** The substitution after a change of the variables of the composite. */
  function WithOutput(w: Pair, n: Mat): Pair {
    Pair(n.p * w.p0 + n.q * w.q0, n.p * w.p1 + n.q * w.q1, n.p * w.p2 + n.q * w.q2, n.p * w.p3 + n.q * w.q3,
         n.r * w.p0 + n.s * w.q0, n.r * w.p1 + n.s * w.q1, n.r * w.p2 + n.s * w.q2, n.r * w.p3 + n.s * w.q3)
  }

  // ----- The identities, over the reals -----

  /** A minor of a pair of rows after a change of basis. */
  lemma RealMinor(a: real, b: real, c: real, d: real, p: real, q: real, r: real, s: real,
                  A: real, B: real, C: real, E: real)
    requires A == p * a + q * c && B == p * b + q * d && C == r * a + s * c && E == r * b + s * d
    ensures A * E - B * C == (p * s - q * r) * (a * d - b * c)
  {
  }

  lemma Minor(a: int, b: int, c: int, d: int, n: Mat)
    requires Det(n) == 1
    ensures (n.p * a + n.q * c) * (n.r * b + n.s * d) - (n.p * b + n.q * d) * (n.r * a + n.s * c) == a * d - b * c
  {
    var A, B, C, E := n.p * a + n.q * c, n.p * b + n.q * d, n.r * a + n.s * c, n.r * b + n.s * d;
    RealMinor(a as real, b as real, c as real, d as real, n.p as real, n.q as real, n.r as real, n.s as real,
              A as real, B as real, C as real, E as real);
    assert (n.p as real * n.s as real - n.q as real * n.r as real) == 1.0 by {
      assert (n.p * n.s - n.q * n.r) as real == 1.0;
    }
    assert (A * E - B * C) as real == (a * d - b * c) as real;
  }

  /** The minor of two combined columns, by the minors of the columns: columns 0 and 2
      are combined with (x, y), columns 1 and 3 with (z, v). */
  lemma RealCross(x: real, y: real, z: real, v: real, p0: real, p1: real, p2: real, p3: real,
                  q0: real, q1: real, q2: real, q3: real, P: real, R: real, Q: real, S: real)
    requires P == x * p0 + y * p2 && R == z * p1 + v * p3 && Q == x * q0 + y * q2 && S == z * q1 + v * q3
    ensures P * S - R * Q == x * z * (p0 * q1 - p1 * q0) + x * v * (p0 * q3 - p3 * q0)
                             + y * z * (p2 * q1 - p1 * q2) + y * v * (p2 * q3 - p3 * q2)
  {
  }

  /** A bilinear expression in two combined rows, by its values on the rows: used with
      rows p and q combined by (x, y) and by (z, v). */
  lemma RealRows(x: real, y: real, z: real, v: real, p0: real, p1: real, p2: real, p3: real,
                 q0: real, q1: real, q2: real, q3: real, P: real, R: real, Q: real, S: real)
    requires P == x * p1 + y * q1 && R == z * p2 + v * q2 && Q == x * p0 + y * q0 && S == z * p3 + v * q3
    ensures P * R - Q * S == x * z * (p1 * p2 - p0 * p3) + x * v * (p1 * q2 - p0 * q3)
                             + y * z * (q1 * p2 - q0 * p3) + y * v * (q1 * q2 - q0 * q3)
  {
  }

  lemma Cross(x: int, y: int, z: int, v: int, w: Pair)
    ensures (x * w.p0 + y * w.p2) * (z * w.q1 + v * w.q3) - (z * w.p1 + v * w.p3) * (x * w.q0 + y * w.q2)
         == x * z * (w.p0 * w.q1 - w.p1 * w.q0) + x * v * (w.p0 * w.q3 - w.p3 * w.q0)
            + y * z * (w.p2 * w.q1 - w.p1 * w.q2) + y * v * (w.p2 * w.q3 - w.p3 * w.q2)
  {
    var P, R, Q, S := x * w.p0 + y * w.p2, z * w.p1 + v * w.p3, x * w.q0 + y * w.q2, z * w.q1 + v * w.q3;
    RealCross(x as real, y as real, z as real, v as real, w.p0 as real, w.p1 as real, w.p2 as real, w.p3 as real,
              w.q0 as real, w.q1 as real, w.q2 as real, w.q3 as real, P as real, R as real, Q as real, S as real);
    var d01, d03, d21, d23 := w.p0 * w.q1 - w.p1 * w.q0, w.p0 * w.q3 - w.p3 * w.q0, w.p2 * w.q1 - w.p1 * w.q2,
                              w.p2 * w.q3 - w.p3 * w.q2;
    FourTerms(x, y, z, v, d01, d03, d21, d23, P * S - R * Q);
  }

  lemma FourTerms(x: int, y: int, z: int, v: int, d: int, e: int, f: int, g: int, t: int)
    requires t as real == x as real * z as real * d as real + x as real * v as real * e as real
                          + y as real * z as real * f as real + y as real * v as real * g as real
    ensures t == x * z * d + x * v * e + y * z * f + y * v * g
  {
    assert (x * z * d) as real == x as real * z as real * d as real;
    assert (x * v * e) as real == x as real * v as real * e as real;
    assert (y * z * f) as real == y as real * z as real * f as real;
    assert (y * v * g) as real == y as real * v as real * g as real;
  }

  lemma Rows(x: int, y: int, z: int, v: int, w: Pair)
    ensures (x * w.p1 + y * w.q1) * (z * w.p2 + v * w.q2) - (x * w.p0 + y * w.q0) * (z * w.p3 + v * w.q3)
         == x * z * (w.p1 * w.p2 - w.p0 * w.p3) + x * v * (w.p1 * w.q2 - w.p0 * w.q3)
            + y * z * (w.q1 * w.p2 - w.q0 * w.p3) + y * v * (w.q1 * w.q2 - w.q0 * w.q3)
  {
    var P, R, Q, S := x * w.p1 + y * w.q1, z * w.p2 + v * w.q2, x * w.p0 + y * w.q0, z * w.p3 + v * w.q3;
    RealRows(x as real, y as real, z as real, v as real, w.p0 as real, w.p1 as real, w.p2 as real, w.p3 as real,
             w.q0 as real, w.q1 as real, w.q2 as real, w.q3 as real, P as real, R as real, Q as real, S as real);
    var d, e, f, g := w.p1 * w.p2 - w.p0 * w.p3, w.p1 * w.q2 - w.p0 * w.q3, w.q1 * w.p2 - w.q0 * w.p3,
                      w.q1 * w.q2 - w.q0 * w.q3;
    FourTerms(x, y, z, v, d, e, f, g, P * R - Q * S);
  }

  // ----- What the two changes of variables do -----

  lemma Commute(x: int, y: int, d: int)
    ensures x * y * d == d * x * y && x * y * d == y * x * d && 2 * d * x * y == 2 * (x * y * d) && d * (x * y) == x * y * d
  {
  }

  lemma CollectMiddle(x: int, y: int, z: int, v: int, d01: int, d03: int, d21: int, d23: int)
    ensures x * z * d01 + x * v * d03 + y * z * d21 + y * v * d23 + (z * x * d01 + z * y * d03 + v * x * d21 + v * y * d23)
         == 2 * d01 * x * z + (d03 + d21) * (x * v + z * y) + 2 * d23 * y * v
  {
    Commute(x, z, d01);
    Commute(y, v, d23);
    Commute(x, v, d03);
    Commute(z, y, d03);
    Commute(x, v, d21);
    Commute(z, y, d21);
    Distribute(d03, x * v, z * y);
    Distribute(d21, x * v, z * y);
    Distribute(x * v + z * y, d03, d21);
  }

  lemma CollectEnd(x: int, y: int, d01: int, d03: int, d21: int, d23: int)
    ensures x * x * d01 + x * y * d03 + y * x * d21 + y * y * d23 == d01 * x * x + (d03 + d21) * x * y + d23 * y * y
  {
    Commute(x, x, d01);
    Commute(y, y, d23);
    Commute(x, y, d03);
    Commute(x, y, d21);
    Commute(x, y, d03 + d21);
    Distribute(x * y, d03, d21);
  }

  /** The left form is transformed like its variables. */
  lemma LeftTransforms(w: Pair, n: Mat)
    ensures LeftOf(WithLeft(w, n)) == Act(LeftOf(w), n)
  {
    var d01, d03, d21, d23 := w.p0 * w.q1 - w.p1 * w.q0, w.p0 * w.q3 - w.p3 * w.q0, w.p2 * w.q1 - w.p1 * w.q2,
                              w.p2 * w.q3 - w.p3 * w.q2;
    Cross(n.p, n.r, n.p, n.r, w);
    CollectEnd(n.p, n.r, d01, d03, d21, d23);
    CollectMiddle(n.p, n.r, n.q, n.s, d01, d03, d21, d23);
    Cross(n.p, n.r, n.q, n.s, w);
    Cross(n.q, n.s, n.p, n.r, w);
    Cross(n.q, n.s, n.q, n.s, w);
    CollectEnd(n.q, n.s, d01, d03, d21, d23);
  }

  /** The right form and the composite stay as they are. */
  lemma LeftKeepsOthers(w: Pair, n: Mat)
    requires Det(n) == 1
    ensures RightOf(WithLeft(w, n)) == RightOf(w) && ProductOf(WithLeft(w, n)) == ProductOf(w)
  {
    LeftKeepsEnds(w, n);
    LeftKeepsMiddle(w, n);
  }

  lemma LeftKeepsEnds(w: Pair, n: Mat)
    requires Det(n) == 1
    ensures RightOf(WithLeft(w, n)).a == RightOf(w).a && RightOf(WithLeft(w, n)).c == RightOf(w).c
    ensures ProductOf(WithLeft(w, n)).a == ProductOf(w).a && ProductOf(WithLeft(w, n)).c == ProductOf(w).c
  {
    var m := Mat(n.p, n.r, n.q, n.s);
    Minor(w.p0, w.q0, w.p2, w.q2, m);
    Minor(w.p1, w.q1, w.p3, w.q3, m);
    Minor(w.q0, w.q1, w.q2, w.q3, m);
    Minor(w.p0, w.p1, w.p2, w.p3, m);
  }

  lemma LeftKeepsMiddle(w: Pair, n: Mat)
    requires Det(n) == 1
    ensures RightOf(WithLeft(w, n)).b == RightOf(w).b && ProductOf(WithLeft(w, n)).b == ProductOf(w).b
  {
    var m := Mat(n.p, n.r, n.q, n.s);
    Minor(w.p0, w.q1, w.p2, w.q3, m);
    Minor(w.q0, w.p1, w.q2, w.p3, m);
  }

  /** Both operands stay as they are under a change of the composite's variables. */
  lemma OutputKeepsOperands(w: Pair, n: Mat)
    requires Det(n) == 1
    ensures LeftOf(WithOutput(w, n)) == LeftOf(w) && RightOf(WithOutput(w, n)) == RightOf(w)
  {
    Minor(w.p0, w.p1, w.q0, w.q1, n);
    Minor(w.p0, w.p3, w.q0, w.q3, n);
    Minor(w.p1, w.p2, w.q1, w.q2, n);
    Minor(w.p2, w.p3, w.q2, w.q3, n);
    Minor(w.p0, w.p2, w.q0, w.q2, n);
    Minor(w.p1, w.p3, w.q1, w.q3, n);
  }

  /** The composite is transformed by the inverse. */
  lemma OutputTransforms(w: Pair, n: Mat)
    ensures ProductOf(WithOutput(w, n)) == Act(ProductOf(w), Adjugate(n))
  {
    OutputEnds(w, n);
    OutputMiddle(w, n);
  }

  lemma OutputEnds(w: Pair, n: Mat)
    ensures ProductOf(WithOutput(w, n)).a == Act(ProductOf(w), Adjugate(n)).a
    ensures ProductOf(WithOutput(w, n)).c == Act(ProductOf(w), Adjugate(n)).c
  {
    var e, f, g := w.p1 * w.p2 - w.p0 * w.p3, w.p1 * w.q2 - w.p0 * w.q3, w.q1 * w.p2 - w.q0 * w.p3;
    var h := w.q1 * w.q2 - w.q0 * w.q3;
    ProductIs(w, e, f, g, h);
    Rows(n.r, n.s, n.r, n.s, w);
    AdjugateEnd(n.r, n.s, h, f, g, e);
    Rows(n.p, n.q, n.p, n.q, w);
    AdjugateEnd(n.p, n.q, h, f, g, e);
  }

  lemma OutputMiddle(w: Pair, n: Mat)
    ensures ProductOf(WithOutput(w, n)).b == Act(ProductOf(w), Adjugate(n)).b
  {
    var e, f, g := w.p1 * w.p2 - w.p0 * w.p3, w.p1 * w.q2 - w.p0 * w.q3, w.q1 * w.p2 - w.q0 * w.p3;
    var h := w.q1 * w.q2 - w.q0 * w.q3;
    ProductIs(w, e, f, g, h);
    OutputCross(w, n, e, f, g, h);
    AdjugateMiddle(n, h, f, g, e);
  }

  lemma OutputCross(w: Pair, n: Mat, e: int, f: int, g: int, h: int)
    requires e == w.p1 * w.p2 - w.p0 * w.p3 && f == w.p1 * w.q2 - w.p0 * w.q3 && g == w.q1 * w.p2 - w.q0 * w.p3
    requires h == w.q1 * w.q2 - w.q0 * w.q3
    ensures ProductOf(WithOutput(w, n)).b
         == -(n.p * n.r * e + n.p * n.s * f + n.q * n.r * g + n.q * n.s * h)
            - (n.r * n.p * e + n.r * n.q * f + n.s * n.p * g + n.s * n.q * h)
  {
    var W := WithOutput(w, n);
    var f', g' := W.p1 * W.q2 - W.p0 * W.q3, W.q1 * W.p2 - W.q0 * W.p3;
    ProductIs(W, W.p1 * W.p2 - W.p0 * W.p3, f', g', W.q1 * W.q2 - W.q0 * W.q3);
    assert f' == n.p * n.r * e + n.p * n.s * f + n.q * n.r * g + n.q * n.s * h by {
      Rows(n.p, n.q, n.r, n.s, w);
    }
    assert g' == n.r * n.p * e + n.r * n.q * f + n.s * n.p * g + n.s * n.q * h by {
      Rows(n.r, n.s, n.p, n.q, w);
    }
  }

  lemma ProductIs(w: Pair, e: int, f: int, g: int, h: int)
    requires e == w.p1 * w.p2 - w.p0 * w.p3 && f == w.p1 * w.q2 - w.p0 * w.q3 && g == w.q1 * w.p2 - w.q0 * w.p3
    requires h == w.q1 * w.q2 - w.q0 * w.q3
    ensures ProductOf(w) == Form(h, -(f + g), e)
  {
  }

  lemma AdjugateEnd(r: int, s: int, h: int, f: int, g: int, e: int)
    ensures r * r * e + r * s * f + s * r * g + s * s * h == h * s * s + -(f + g) * s * -r + e * -r * -r
    ensures r * r * e + r * s * f + s * r * g + s * s * h == h * -s * -s + -(f + g) * -s * r + e * r * r
  {
    Commute(r, r, e);
    Commute(s, s, h);
    Commute(r, s, f);
    Commute(r, s, g);
    Commute(s, r, f + g);
    Distribute(r * s, f, g);
    NegateProduct(f + g, s);
    NegateProduct((f + g) * s, r);
    NegateProduct(-((f + g) * s), r);
    NegateProduct(e, r);
    NegateProduct(e * r, r);
    NegateProduct(h, s);
    NegateProduct(h * s, s);
  }

  lemma AdjugateMiddle(n: Mat, h: int, f: int, g: int, e: int)
    ensures var m := Adjugate(n);
            2 * h * m.p * m.q + -(f + g) * (m.p * m.s + m.q * m.r) + 2 * e * m.r * m.s
            == -(n.p * n.r * e + n.p * n.s * f + n.q * n.r * g + n.q * n.s * h)
            - (n.r * n.p * e + n.r * n.q * f + n.s * n.p * g + n.s * n.q * h)
  {
    CollectMiddle(n.p, n.q, n.r, n.s, e, f, g, h);
    NegateProduct(f + g, n.s * n.p + n.q * n.r);
    NegateProduct(2 * h * n.s, n.q);
    NegateProduct(2 * e, n.r);
    NegateProduct(2 * e * n.r, n.p);
    NegateProduct(n.q, n.r);
    NegateProduct(-n.q, n.r);
    Commute(n.s, n.q, h);
    Commute(n.r, n.p, e);
  }

  // ----- Normalisation -----

  /** The greatest common divisor of the coefficients is 1. */
  ghost predicate Content1(f: Form) {
    exists x, y, z :: x * f.a + y * f.b + z * f.c == 1
  }

  /** Y's first coefficient can be made zero, and X's first positive. */
  lemma Normalise(w: Pair) returns (n: Mat)
    requires LeftOf(w).a > 0
    ensures Det(n) == 1 && WithOutput(w, n).q0 == 0 && WithOutput(w, n).p0 > 0
  {
    var r := SomeGcd(w.p0, w.q0);
    if r.gcd == 0 {
      ProductGrows(0, w.q1);
      assert false;
    }
    var p: int :| w.p0 == p * r.gcd;
    var q: int :| w.q0 == q * r.gcd;
    n := Mat(r.s, r.t, -q, p);
    assert Det(n) * r.gcd == 1 * r.gcd by {
      Reassociate(r.s, p, r.gcd);
      Reassociate(r.t, q, r.gcd);
      NegateProduct(r.t, q);
      Distribute(r.gcd, r.s * p, r.t * q);
    }
    CancelFactor(r.gcd, Det(n), 1);
    CancelSwapped(p, q, r.gcd);
  }

  lemma CancelSwapped(p: int, q: int, g: int)
    ensures -q * (p * g) + p * (q * g) == 0
  {
    NegateProduct(q, p * g);
    assert q * (p * g) == p * (q * g);
  }

  /** Once normalised, the substitution of a form of content 1 is primitive. */
  lemma ContentIsPrimitive(w: Bilinear)
    requires w.j > 0 && Content1(LeftFactor(w))
    ensures Primitive(w)
  {
    var f := LeftFactor(w);
    var x, y, z :| x * f.a + y * f.b + z * f.c == 1;
    var A, B, C := x * w.j + y * w.l, -(y * w.k) - z * w.m, y * w.j + z * w.l;
    Gather(x, y, z, w.j, w.k, w.l, w.m, w.s, w.t, w.u);
    assert A * w.s + B * w.t + C * w.u == 1;
  }

  lemma Gather(x: int, y: int, z: int, j: int, k: int, l: int, m: int, s: int, t: int, u: int)
    ensures x * (j * s) + y * (j * u - (k * t - l * s)) + z * (l * u - m * t)
         == (x * j + y * l) * s + (-(y * k) - z * m) * t + (y * j + z * l) * u
  {
    Distribute(y, j * u, k * t - l * s);
    Distribute(y, k * t, l * s);
    Distribute(z, l * u, m * t);
    Distribute(s, x * j, y * l);
    Distribute(t, -(y * k), z * m);
    Distribute(u, y * j, z * l);
    Reassociate(x, j, s);
    Reassociate(y, l, s);
    Reassociate(y, k, t);
    Reassociate(z, m, t);
    Reassociate(y, j, u);
    Reassociate(z, l, u);
    NegateProduct(y * k, t);
  }

  /** An operand may be replaced by an equivalent one of content 1: there is a composite of
      the new operands, and it is equivalent to the old one. */
  lemma ComposesLeft(f: Form, g: Form, h: Form, f': Form) returns (h': Form)
    requires Composes(f, g, h) && Equiv(f, f') && PositiveDefinite(f') && Content1(f')
    ensures Composes(f', g, h') && Equiv(h, h')
  {
    var b: Bilinear :| Primitive(b) && f == LeftFactor(b) && g == RightFactor(b) && h == Product(b);
    var m: Mat :| Det(m) == 1 && Act(f, m) == f';
    BilinearIsPair(b);
    var w := WithLeft(OfBilinear(b), m);
    LeftTransforms(OfBilinear(b), m);
    LeftKeepsOthers(OfBilinear(b), m);
    var n := Normalise(w);
    var v := WithOutput(w, n);
    OutputKeepsOperands(w, n);
    OutputTransforms(w, n);
    var b' := Bilinear(v.p0, v.p1, v.p2, v.p3, v.q1, v.q2, v.q3);
    BilinearIsPair(b');
    ContentIsPrimitive(b');
    h' := ProductOf(v);
    AdjugateDet(n);
    EquivBy(h, Adjugate(n));
  }

  lemma AdjugateDet(n: Mat)
    ensures Det(Adjugate(n)) == Det(n)
  {
    NegateProduct(n.q, n.r);
    NegateProduct(-n.q, n.r);
  }

  // ----- Multiplication of classes -----

  /** No square divides the discriminant, as for the negated primes of the protocol. */
  ghost predicate Squarefree(D: int) {
    forall d :: NoSquare(d, D)
  }

  ghost predicate NoSquare(d: int, D: int) {
    d > 1 ==> !Divides(d * d, D)
  }

  lemma SquarefreeContent(f: Form)
    requires PositiveDefinite(f) && Squarefree(Disc(f))
    ensures Content1(f)
  {
    var r := SomeGcd(f.a, f.b);
    var e := SomeGcd(r.gcd, f.c);
    DividesTransitive(e.gcd, r.gcd, f.a);
    DividesTransitive(e.gcd, r.gcd, f.b);
    ContentDividesDisc(f, e.gcd);
    assert e.gcd > 0 && NoSquare(e.gcd, Disc(f));
    assert e.gcd == 1;
    NestedBezout(f.a, f.b, f.c, r, e);
  }

  lemma NestedBezout(a: int, b: int, c: int, r: GcdRes, e: GcdRes)
    requires r.s * a + r.t * b == r.gcd && e.s * r.gcd + e.t * c == 1
    ensures exists x, y, z :: x * a + y * b + z * c == 1
  {
    Distribute(e.s, r.s * a, r.t * b);
    Reassociate(e.s, r.s, a);
    Reassociate(e.s, r.t, b);
    assert (e.s * r.s) * a + (e.s * r.t) * b + e.t * c == 1;
  }

  lemma ContentDividesDisc(f: Form, d: int)
    requires Divides(d, f.a) && Divides(d, f.b) && Divides(d, f.c)
    ensures Divides(d * d, Disc(f))
  {
    var a :| f.a == a * d;
    var b :| f.b == b * d;
    var c :| f.c == c * d;
    SquareOut(b, b, d);
    SquareOut(a, c, d);
    Reassociate(4, f.a, f.c);
    Distribute(d * d, b * b, 4 * (a * c));
    assert 4 * (a * c) * (d * d) == 4 * (a * c * (d * d));
    assert Disc(f) == (b * b - 4 * (a * c)) * (d * d);
  }

  lemma SquareOut(x: int, y: int, d: int)
    ensures (x * d) * (y * d) == (x * y) * (d * d)
  {
    Reassociate(x, d, y * d);
    assert d * (y * d) == y * (d * d);
    Reassociate(x, y, d * d);
  }

  /** The reference multiplication depends only on the classes of its operands. */
  lemma MultiplyRespectsClass(f: Form, f': Form, g: Form, g': Form)
    requires PositiveDefinite(f) && PositiveDefinite(g) && Disc(f) == Disc(g) && Squarefree(Disc(f))
    requires Equiv(f, f') && Equiv(g, g')
    ensures PositiveDefinite(f') && PositiveDefinite(g') && Disc(f') == Disc(g') == Disc(f)
    ensures Multiply(f, g) == Multiply(f', g')
  {
    EquivPositiveDefinite(f, f');
    EquivPositiveDefinite(g, g');
    EquivDisc(f, f');
    EquivDisc(g, g');
    MultiplyLeft(f, f', g);
    MultiplyLeft(g, g', f');
    Commutes(f', g);
    Commutes(f', g');
  }

  lemma MultiplyLeft(f: Form, f': Form, g: Form)
    requires PositiveDefinite(f) && PositiveDefinite(g) && Disc(f) == Disc(g) && Squarefree(Disc(f))
    requires Equiv(f, f') && PositiveDefinite(f') && Disc(f') == Disc(f)
    ensures Multiply(f, g) == Multiply(f', g)
  {
    SquarefreeContent(f');
    var h := RawProduct(f, g);
    var h' := ComposesLeft(f, g, h, f');
    SameProduct(f', g, h');
    ComposesDisc(f, g, h);
    ComposesPositiveDefinite(f, g, h);
    EquivPositiveDefinite(h, h');
    CanonDecidesClass(h, h');
  }

  /** Any composite reduces to the product. */
  lemma SameProduct(f: Form, g: Form, h: Form)
    requires PositiveDefinite(f) && PositiveDefinite(g) && Disc(f) == Disc(g) && Composes(f, g, h)
    ensures PositiveDefinite(h) && Canon(h) == Multiply(f, g)
  {
    var p := RawProduct(f, g);
    ComposesUnique(f, g, p, h);
    ComposesPositiveDefinite(f, g, p);
    ComposesPositiveDefinite(f, g, h);
    CanonDecidesClass(p, h);
  }

  lemma Commutes(f: Form, g: Form)
    requires PositiveDefinite(f) && PositiveDefinite(g) && Disc(f) == Disc(g)
    ensures Multiply(f, g) == Multiply(g, f)
  {
    var p := RawProduct(f, g);
    ComposesSym(f, g, p);
    SameProduct(f, g, p);
    SameProduct(g, f, p);
  }

}
