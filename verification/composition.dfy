/** Gauss's composition of binary quadratic forms: the specification that the slow
    multiplication and the fast NUCOMP / NUDUPL algorithms are proved against. */
module Composition {
  import opened Integers
  import opened Forms

  /** The bilinear substitution X = j*x*z + k*x*v + l*y*z + m*y*v,
      Y = s*x*v + t*y*z + u*y*v of a composition. */
  datatype Bilinear = Bilinear(j: int, k: int, l: int, m: int, s: int, t: int, u: int)

  function LeftFactor(w: Bilinear): Form {
    Form(w.j * w.s, w.j * w.u - (w.k * w.t - w.l * w.s), w.l * w.u - w.m * w.t)
  }

  function RightFactor(w: Bilinear): Form {
    Form(w.j * w.t, w.j * w.u + (w.k * w.t - w.l * w.s), w.k * w.u - w.m * w.s)
  }

  function Product(w: Bilinear): Form {
    Form(w.s * w.t, w.j * w.u - (w.k * w.t + w.l * w.s), w.k * w.l - w.j * w.m)
  }

  ghost predicate Primitive(w: Bilinear) {
    w.j > 0 && exists x, y, z :: x * w.s + y * w.t + z * w.u == 1
  }

  /** h is a composite of f and g. */
  ghost predicate Composes(f: Form, g: Form, h: Form) {
    exists w: Bilinear :: Primitive(w) && f == LeftFactor(w) && g == RightFactor(w) && h == Product(w)
  }

  lemma ComposesBy(w: Bilinear)
    requires Primitive(w)
    ensures Composes(LeftFactor(w), RightFactor(w), Product(w))
  {
  }

  // ----- The defining identity f(x,y) * g(z,v) == h(X,Y) -----

  function RealValue(f: RealForm, x: real, y: real): real {
    f.a * x * x + f.b * x * y + f.c * y * y
  }

  lemma EmbedValue(f: Form, x: int, y: int)
    ensures Value(f, x, y) as real == RealValue(EmbedForm(f), x as real, y as real)
  {
  }

  lemma RealComposition(f: RealForm, g: RealForm, h: RealForm,
                        j: real, k: real, l: real, m: real, s: real, t: real, u: real,
                        x: real, y: real, z: real, v: real, X: real, Y: real)
    requires f == RealForm(j * s, j * u - (k * t - l * s), l * u - m * t)
    requires g == RealForm(j * t, j * u + (k * t - l * s), k * u - m * s)
    requires h == RealForm(s * t, j * u - (k * t + l * s), k * l - j * m)
    requires X == j * x * z + k * x * v + l * y * z + m * y * v
    requires Y == s * x * v + t * y * z + u * y * v
    ensures RealValue(f, x, y) * RealValue(g, z, v) == RealValue(h, X, Y)
  {
    RealCompositionScalar(j, k, l, m, s, t, u, x, y, z, v, X, Y, RealValue(f, x, y), RealValue(g, z, v), RealValue(h, X, Y));
  }

  lemma RealCompositionScalar(j: real, k: real, l: real, m: real, s: real, t: real, u: real,
                              x: real, y: real, z: real, v: real, X: real, Y: real, F: real, G: real, H: real)
    requires F == j * s * x * x + (j * u - (k * t - l * s)) * x * y + (l * u - m * t) * y * y
    requires G == j * t * z * z + (j * u + (k * t - l * s)) * z * v + (k * u - m * s) * v * v
    requires H == s * t * X * X + (j * u - (k * t + l * s)) * X * Y + (k * l - j * m) * Y * Y
    requires X == j * x * z + k * x * v + l * y * z + m * y * v
    requires Y == s * x * v + t * y * z + u * y * v
    ensures F * G == H
  {
  }

  lemma EmbedFactors(w: Bilinear)
    ensures var j, k, l, m := w.j as real, w.k as real, w.l as real, w.m as real;
            var s, t, u := w.s as real, w.t as real, w.u as real;
            && EmbedForm(LeftFactor(w)) == RealForm(j * s, j * u - (k * t - l * s), l * u - m * t)
            && EmbedForm(RightFactor(w)) == RealForm(j * t, j * u + (k * t - l * s), k * u - m * s)
            && EmbedForm(Product(w)) == RealForm(s * t, j * u - (k * t + l * s), k * l - j * m)
  {
    EmbedProduct(w.j, w.s);
    EmbedProduct(w.j, w.t);
    EmbedProduct(w.j, w.u);
    EmbedProduct(w.j, w.m);
    EmbedProduct(w.k, w.t);
    EmbedProduct(w.k, w.u);
    EmbedProduct(w.k, w.l);
    EmbedProduct(w.l, w.s);
    EmbedProduct(w.l, w.u);
    EmbedProduct(w.m, w.t);
    EmbedProduct(w.m, w.s);
    EmbedProduct(w.s, w.t);
  }

  /** A composite represents every product of a value of f and a value of g,
      at a point that is bilinear in the two arguments. */
  lemma CompositeRepresentsProducts(w: Bilinear, x: int, y: int, z: int, v: int)
    ensures Value(LeftFactor(w), x, y) * Value(RightFactor(w), z, v)
         == Value(Product(w), w.j * x * z + w.k * x * v + w.l * y * z + w.m * y * v,
                  w.s * x * v + w.t * y * z + w.u * y * v)
  {
    var f, g, h := LeftFactor(w), RightFactor(w), Product(w);
    var X := w.j * x * z + w.k * x * v + w.l * y * z + w.m * y * v;
    var Y := w.s * x * v + w.t * y * z + w.u * y * v;
    EmbedFactors(w);
    EmbedPoint(w, x, y, z, v);
    RealComposition(EmbedForm(f), EmbedForm(g), EmbedForm(h),
                    w.j as real, w.k as real, w.l as real, w.m as real, w.s as real, w.t as real, w.u as real,
                    x as real, y as real, z as real, v as real, X as real, Y as real);
    ValuesMultiply(f, g, h, x, y, z, v, X, Y);
  }

  lemma ValuesMultiply(f: Form, g: Form, h: Form, x: int, y: int, z: int, v: int, X: int, Y: int)
    requires RealValue(EmbedForm(f), x as real, y as real) * RealValue(EmbedForm(g), z as real, v as real)
          == RealValue(EmbedForm(h), X as real, Y as real)
    ensures Value(f, x, y) * Value(g, z, v) == Value(h, X, Y)
  {
    EmbedValue(f, x, y);
    EmbedValue(g, z, v);
    EmbedValue(h, X, Y);
    EmbedProduct(Value(f, x, y), Value(g, z, v));
  }

  lemma EmbedProduct(m: int, n: int)
    ensures (m * n) as real == m as real * n as real
  {
  }

  lemma EmbedTriple(m: int, n: int, p: int)
    ensures (m * n * p) as real == m as real * n as real * p as real
  {
    EmbedProduct(m * n, p);
    EmbedProduct(m, n);
  }

  lemma EmbedPoint(w: Bilinear, x: int, y: int, z: int, v: int)
    ensures (w.j * x * z + w.k * x * v + w.l * y * z + w.m * y * v) as real
         == w.j as real * x as real * z as real + w.k as real * x as real * v as real
            + w.l as real * y as real * z as real + w.m as real * y as real * v as real
    ensures (w.s * x * v + w.t * y * z + w.u * y * v) as real
         == w.s as real * x as real * v as real + w.t as real * y as real * z as real + w.u as real * y as real * v as real
  {
    EmbedTriple(w.j, x, z);
    EmbedTriple(w.k, x, v);
    EmbedTriple(w.l, y, z);
    EmbedTriple(w.m, y, v);
    EmbedTriple(w.s, x, v);
    EmbedTriple(w.t, y, z);
    EmbedTriple(w.u, y, v);
  }

  lemma RealDiscriminants(j: real, k: real, l: real, m: real, s: real, t: real, u: real,
                          fa: real, fb: real, fc: real, ga: real, gb: real, gc: real,
                          ha: real, hb: real, hc: real)
    requires fa == j * s && fb == j * u - (k * t - l * s) && fc == l * u - m * t
    requires ga == j * t && gb == j * u + (k * t - l * s) && gc == k * u - m * s
    requires ha == s * t && hb == j * u - (k * t + l * s) && hc == k * l - j * m
    ensures fb * fb - 4.0 * fa * fc == hb * hb - 4.0 * ha * hc
    ensures gb * gb - 4.0 * ga * gc == hb * hb - 4.0 * ha * hc
  {
  }

  /** Composition stays within one discriminant. */
  lemma ComposesDisc(f: Form, g: Form, h: Form)
    requires Composes(f, g, h)
    ensures Disc(f) == Disc(g) == Disc(h)
  {
    var w: Bilinear :| Primitive(w) && f == LeftFactor(w) && g == RightFactor(w) && h == Product(w);
    EmbedFactors(w);
    var F, G, H := EmbedForm(f), EmbedForm(g), EmbedForm(h);
    RealDiscriminants(w.j as real, w.k as real, w.l as real, w.m as real, w.s as real, w.t as real, w.u as real,
                      F.a, F.b, F.c, G.a, G.b, G.c, H.a, H.b, H.c);
    EmbedDisc(f);
    EmbedDisc(g);
    EmbedDisc(h);
  }

  lemma ComposesPositiveDefinite(f: Form, g: Form, h: Form)
    requires PositiveDefinite(f) && PositiveDefinite(g) && Composes(f, g, h)
    ensures PositiveDefinite(h)
  {
    ComposesDisc(f, g, h);
    var w: Bilinear :| Primitive(w) && f == LeftFactor(w) && g == RightFactor(w) && h == Product(w);
    PositiveFactor(w.j, w.s);
    PositiveFactor(w.j, w.t);
    ProductGrows(w.s, w.t);
  }

  /** Composition is commutative. */
  lemma ComposesSym(f: Form, g: Form, h: Form)
    requires Composes(f, g, h)
    ensures Composes(g, f, h)
  {
    var w: Bilinear :| Primitive(w) && f == LeftFactor(w) && g == RightFactor(w) && h == Product(w);
    var w' := Bilinear(w.j, w.l, w.k, w.m, w.t, w.s, w.u);
    assert Primitive(w') by {
      var x, y, z :| x * w.s + y * w.t + z * w.u == 1;
      assert y * w'.s + x * w'.t + z * w'.u == 1;
    }
    assert LeftFactor(w') == g && RightFactor(w') == f && Product(w') == h;
  }

  // ----- The class of a composite is determined by the two forms -----

  /** j is the gcd of the two leading coefficients and the half sum of the middle ones. */
  lemma ScaleDivides(w: Bilinear, j: int)
    requires Primitive(w) && Divides(j, w.j * w.s) && Divides(j, w.j * w.t) && Divides(j, w.j * w.u)
    ensures Divides(j, w.j)
  {
    var x, y, z :| x * w.s + y * w.t + z * w.u == 1;
    DividesCombination(j, w.j * w.s, w.j * w.t, x, y);
    DividesCombination(j, x * (w.j * w.s) + y * (w.j * w.t), w.j * w.u, 1, z);
    calc {
      x * (w.j * w.s) + y * (w.j * w.t) + z * (w.j * w.u);
      w.j * (x * w.s) + w.j * (y * w.t) + w.j * (z * w.u);
      { Distribute(w.j, x * w.s, y * w.t); Distribute(w.j, x * w.s + y * w.t, z * w.u); }
      w.j * (x * w.s + y * w.t + z * w.u);
    }
  }

  lemma HalfSum(w: Bilinear)
    ensures LeftFactor(w).b + RightFactor(w).b == 2 * (w.j * w.u)
    ensures RightFactor(w).b - LeftFactor(w).b == 2 * (w.k * w.t - w.l * w.s)
  {
  }

  lemma SameScale(w: Bilinear, w': Bilinear)
    requires Primitive(w) && Primitive(w')
    requires LeftFactor(w) == LeftFactor(w') && RightFactor(w) == RightFactor(w')
    ensures w.j == w'.j && w.s == w'.s && w.t == w'.t && w.u == w'.u
  {
    HalfSum(w);
    HalfSum(w');
    assert w.j * w.s == w'.s * w'.j && w.j * w.t == w'.t * w'.j && w.j * w.u == w'.u * w'.j;
    assert w'.j * w'.s == w.s * w.j && w'.j * w'.t == w.t * w.j && w'.j * w'.u == w.u * w.j;
    ScaleDivides(w, w'.j);
    ScaleDivides(w', w.j);
    MutualDivisors(w.j, w'.j);
    CancelFactor(w.j, w.s, w'.s);
    CancelFactor(w.j, w.t, w'.t);
    CancelFactor(w.j, w.u, w'.u);
  }

  /** With the same scale, the remaining freedom is a multiple of (s, t, u). */
  lemma DifferenceIsMultiple(w: Bilinear, dk: int, dl: int, dm: int) returns (n: int)
    requires Primitive(w) && w.t * dk == w.s * dl && w.u * dk == w.s * dm
    ensures dk == w.s * n
  {
    var x, y, z :| x * w.s + y * w.t + z * w.u == 1;
    n := x * dk + y * dl + z * dm;
    calc {
      dk;
      (x * w.s + y * w.t + z * w.u) * dk;
      { Distribute(dk, x * w.s, y * w.t); Distribute(dk, x * w.s + y * w.t, z * w.u); }
      x * w.s * dk + y * w.t * dk + z * w.u * dk;
      { Reassociate(x, w.s, dk); Reassociate(y, w.t, dk); Reassociate(z, w.u, dk); }
      x * (w.s * dk) + y * (w.s * dl) + z * (w.s * dm);
      w.s * (x * dk) + w.s * (y * dl) + w.s * (z * dm);
      { Distribute(w.s, x * dk, y * dl); Distribute(w.s, x * dk + y * dl, z * dm); }
      w.s * n;
    }
  }

  /** Two composites of the same forms differ by a translation; in particular they
      are properly equivalent. */
  lemma ComposesUnique(f: Form, g: Form, h: Form, h': Form)
    requires PositiveDefinite(f) && PositiveDefinite(g) && Composes(f, g, h) && Composes(f, g, h')
    ensures Equiv(h, h')
  {
    ComposesDisc(f, g, h);
    ComposesDisc(f, g, h');
    ComposesPositiveDefinite(f, g, h);
    var w: Bilinear :| Primitive(w) && f == LeftFactor(w) && g == RightFactor(w) && h == Product(w);
    var w': Bilinear :| Primitive(w') && f == LeftFactor(w') && g == RightFactor(w') && h' == Product(w');
    SameScale(w, w');
    var n := TranslationBetween(w, w');
    TranslationIsEquivalence(h, h', n);
  }

  lemma TranslationBetween(w: Bilinear, w': Bilinear) returns (n: int)
    requires Primitive(w) && LeftFactor(w) == LeftFactor(w') && RightFactor(w) == RightFactor(w')
    requires w.j == w'.j && w.s == w'.s && w.t == w'.t && w.u == w'.u && w.s != 0
    ensures Product(w').a == Product(w).a && Product(w').b == Product(w).b + 2 * Product(w).a * n
  {
    HalfSum(w);
    HalfSum(w');
    var dk, dl, dm := w.k - w'.k, w.l - w'.l, w.m - w'.m;
    assert w.t * dk == w.s * dl by {
      Distribute(w.t, w.k, w'.k);
      Distribute(w.s, w.l, w'.l);
    }
    assert w.u * dk == w.s * dm by {
      Distribute(w.u, w.k, w'.k);
      Distribute(w.s, w.m, w'.m);
    }
    n := DifferenceIsMultiple(w, dk, dl, dm);
    assert w.t * dk == w.s * w.t * n;
    assert Product(w').b - Product(w).b == w.t * dk + w.s * dl by {
      Distribute(w.t, w.k, w'.k);
      Distribute(w.s, w.l, w'.l);
    }
  }

  lemma TranslationIsEquivalence(h: Form, h': Form, n: int)
    requires h.a > 0 && Disc(h) == Disc(h') && h'.a == h.a && h'.b == h.b + 2 * h.a * n
    ensures Equiv(h, h')
  {
    Translate(h, n);
    var g := Form(h.a, h.b + 2 * h.a * n, h.a * n * n + h.b * n + h.c);
    EquivDisc(h, g);
    SameC(h', g);
  }

}
