/** The class group: composition of classes is associative and commutative, with the
    identity and the inverses of the source, so that the laws which the proof systems rely
    on hold of the reference multiplication. */
module ClassGroup {
  import opened Integers
  import opened Primes
  import opened Forms
  import opened Reduction
  import opened Composition
  import opened CompositionClasses
  import opened SlowArithmetic
  import Groups

  // ----- A form with a leading coefficient coprime to a given number -----

  lemma PrimeDividesOneOf(p: int, u: int, x: int, y: int)
    requires Prime(p) && Divides(p, u * x * y)
    ensures Divides(p, u) || Divides(p, x) || Divides(p, y)
  {
    PrimeDividesFactor(p, u * x, y);
    if Divides(p, u * x) {
      PrimeDividesFactor(p, u, x);
    }
  }

  lemma DividesTerm(p: int, u: int, x: int, y: int)
    requires Divides(p, u) || Divides(p, x) || Divides(p, y)
    ensures Divides(p, u * x * y)
  {
    if Divides(p, u) {
      DividesCombination(p, u, u, x * y, 0);
      Reassociate(u, x, y);
    } else if Divides(p, x) {
      DividesCombination(p, x, x, u * y, 0);
      Reassociate(u, x, y);
      Swap(u, x, y);
    } else {
      DividesCombination(p, y, y, u * x, 0);
    }
  }

  /** What is left of a sum when two of its three terms are divisible. */
  lemma ThirdTerm(p: int, u: int, v: int, w: int)
    requires Divides(p, u + v + w) && Divides(p, u) && Divides(p, v)
    ensures Divides(p, w)
  {
    DividesCombination(p, u, v, 1, 1);
    DividesCombination(p, u + v + w, u + v, 1, -1);
  }

  /** The primes of n that a does not have are in y, those of n and a that c does not have in x. */
  ghost predicate Chosen(f: Form, n: int, x: int, y: int) {
    FreePart(y, n, f.a) && SharedPart(x, n, f.a, f.c)
  }

  lemma PrimeMissesValue(f: Form, n: int, x: int, y: int, p: int)
    requires Content1(f) && Chosen(f, n, x, y) && Prime(p) && Divides(p, n)
    ensures !Divides(p, Value(f, x, y))
  {
    assert Divides(p, y) <==> !Divides(p, f.a);
    assert Divides(p, x) <==> Divides(p, f.a) && !Divides(p, f.c);
    var u, v, w := f.a * x * x, f.b * x * y, f.c * y * y;
    if Divides(p, Value(f, x, y)) {
      if !Divides(p, f.a) {
        DividesTerm(p, f.b, x, y);
        DividesTerm(p, f.c, y, y);
        ThirdTerm(p, v, w, u);
        PrimeDividesOneOf(p, f.a, x, x);
      } else if !Divides(p, f.c) {
        DividesTerm(p, f.a, x, x);
        DividesTerm(p, f.b, x, y);
        ThirdTerm(p, u, v, w);
        PrimeDividesOneOf(p, f.c, y, y);
      } else {
        DividesTerm(p, f.a, x, x);
        DividesTerm(p, f.c, y, y);
        ThirdTerm(p, u, w, v);
        PrimeDividesOneOf(p, f.b, x, y);
        PrimeOfContent(f, p);
      }
    }
  }

  lemma PrimeOfContent(f: Form, p: int)
    requires Content1(f) && Prime(p)
    ensures !(Divides(p, f.a) && Divides(p, f.b) && Divides(p, f.c))
  {
    if Divides(p, f.a) && Divides(p, f.b) && Divides(p, f.c) {
      var x, y, z :| x * f.a + y * f.b + z * f.c == 1;
      DividesCombination(p, f.a, f.b, x, y);
      DividesCombination(p, x * f.a + y * f.b, f.c, 1, z);
      DivisorIsSmaller(p, 1);
    }
  }

  /** A form of content 1 takes a value coprime to n at coprime arguments. */
  lemma CoprimeValue(f: Form, n: int) returns (x: int, y: int)
    requires Content1(f) && n > 0
    ensures Coprime(x, y) && Coprime(n, Value(f, x, y))
  {
    y := FindFreePart(n, f.a);
    x := FindSharedPart(n, f.a, f.c);
    forall p | Prime(p) && Divides(p, x)
      ensures !Divides(p, y)
    {
    }
    NoCommonPrime(x, y);
    forall p | Prime(p) && Divides(p, n)
      ensures !Divides(p, Value(f, x, y))
    {
      PrimeMissesValue(f, n, x, y, p);
    }
    NoCommonPrime(n, Value(f, x, y));
  }

  /** Every class has a form whose leading coefficient is coprime to n. */
  lemma CoprimeForm(f: Form, n: int) returns (g: Form)
    requires PositiveDefinite(f) && Content1(f) && n > 0
    ensures Equiv(f, g) && PositiveDefinite(g) && Disc(g) == Disc(f) && Coprime(n, g.a)
  {
    var x, y := CoprimeValue(f, n);
    var s, t :| s * x + t * y == 1;
    var m := Mat(x, -t, y, s);
    NegateProduct(t, y);
    assert Det(m) == 1;
    g := Act(f, m);
    EquivBy(f, m);
    EquivPositiveDefinite(f, g);
    EquivDisc(f, g);
  }

  // ----- Forms with a common middle coefficient -----

  /** The translation by n. */
  function Shifted(f: Form, n: int): Form {
    Form(f.a, f.b + 2 * f.a * n, f.a * n * n + f.b * n + f.c)
  }

  lemma ShiftedEquiv(f: Form, n: int)
    requires PositiveDefinite(f)
    ensures Equiv(f, Shifted(f, n)) && PositiveDefinite(Shifted(f, n)) && Disc(Shifted(f, n)) == Disc(f)
  {
    Translate(f, n);
    EquivDisc(f, Shifted(f, n));
  }

  lemma ShiftMeets(a1: int, b1: int, a2: int, b2: int, s: int, t: int, h: int)
    requires s * a1 + t * a2 == 1 && b2 - b1 == 2 * h
    ensures b1 + 2 * a1 * (s * h) == b2 + 2 * a2 * -(t * h)
  {
    Distribute(h, s * a1, t * a2);
    Reassociate(2, a1, s * h);
    Reassociate(2, a2, -(t * h));
    NegateProduct(a2, t * h);
    Swap(a1, s, h);
    Swap(a2, t, h);
    Reassociate(s, a1, h);
    Reassociate(t, a2, h);
  }

  /** Forms with coprime leading coefficients can be translated to one middle coefficient. */
  lemma CommonMiddle(f: Form, g: Form) returns (m: int, n: int)
    requires Disc(f) == Disc(g) && Coprime(f.a, g.a)
    ensures Shifted(f, m).b == Shifted(g, n).b
  {
    var s, t :| s * f.a + t * g.a == 1;
    SameParity(f, g);
    var h := (g.b - f.b) / 2;
    m, n := s * h, -(t * h);
    ShiftMeets(f.a, f.b, g.a, g.b, s, t, h);
  }

  /** The composite of two forms with one middle coefficient. */
  lemma ConcordantComposite(f: Form, g: Form) returns (h: Form)
    requires PositiveDefinite(f) && PositiveDefinite(g) && Disc(f) == Disc(g)
    requires f.b == g.b && Coprime(f.a, g.a)
    ensures Composes(f, g, h) && h.a == f.a * g.a && h.b == f.b
    ensures PositiveDefinite(h) && Disc(h) == Disc(f) && Canon(h) == Multiply(f, g)
  {
    Reassociate(4, f.a, f.c);
    Reassociate(4, g.a, g.c);
    assert f.a * f.c == g.c * g.a;
    CoprimeSym(f.a, g.a);
    CoprimeDivides(g.a, f.a, f.c);
    var c :| f.c == c * g.a;
    Swap(f.a, c, g.a);
    Reassociate(c, f.a, g.a);
    CancelFactor(g.a, g.c, c * f.a);
    h := Form(f.a * g.a, f.b, c);
    ConcordantWitness(f, g, h);
    SameProduct(f, g, h);
    ComposesDisc(f, g, h);
  }

  lemma ConcordantWitness(f: Form, g: Form, h: Form)
    requires f.a > 0 && Coprime(f.a, g.a) && f.b == g.b == h.b
    requires f.c == h.c * g.a && g.c == h.c * f.a && h.a == f.a * g.a
    ensures Composes(f, g, h)
  {
    var w := Bilinear(1, 0, 0, -h.c, f.a, g.a, f.b);
    var s, t :| s * f.a + t * g.a == 1;
    assert s * w.s + t * w.t + 0 * w.u == 1;
    NegateProduct(h.c, f.a);
    NegateProduct(h.c, g.a);
    ComposesBy(w);
  }

  lemma CoprimeProduct(a: int, b: int, c: int)
    requires Coprime(a, b) && Coprime(a, c)
    ensures Coprime(a, b * c)
  {
    var s, t :| s * a + t * b == 1;
    var u, v :| u * a + v * c == 1;
    Distribute(t * b, u * a, v * c);
    assert (s + t * b * u) * a + (t * v) * (b * c) == 1 by {
      Distribute(a, s, t * b * u);
      Reassociate(t * b, u, a);
      assert t * b * (v * c) == (t * v) * (b * c);
    }
  }

  lemma CoprimeFactors(a: int, b: int, c: int)
    requires Coprime(a * b, c)
    ensures Coprime(a, c) && Coprime(b, c)
  {
    var s, t :| s * (a * b) + t * c == 1;
    assert (s * b) * a + t * c == 1;
    assert (s * a) * b + t * c == 1;
  }

  // ----- Associativity -----

  /** On three forms with one middle coefficient and coprime leading coefficients both orders
      of composition give the same form. */
  lemma AssociativeConcordant(f: Form, g: Form, e: Form)
    requires PositiveDefinite(f) && PositiveDefinite(g) && PositiveDefinite(e)
    requires Disc(f) == Disc(g) == Disc(e) && Squarefree(Disc(f)) && f.b == g.b == e.b
    requires Coprime(f.a, g.a) && Coprime(f.a * g.a, e.a)
    ensures Multiply(Multiply(f, g), e) == Multiply(f, Multiply(g, e))
  {
    CoprimeFactors(f.a, g.a, e.a);
    CoprimeProduct(f.a, g.a, e.a);
    var h := ConcordantComposite(f, g);
    var k := ConcordantComposite(h, e);
    var h' := ConcordantComposite(g, e);
    var k' := ConcordantComposite(f, h');
    Reassociate(f.a, g.a, e.a);
    SameC(k, k');
    EquivRefl(e);
    MultiplyRespectsClass(h, Canon(h), e, e);
    EquivRefl(f);
    MultiplyRespectsClass(f, f, h', Canon(h'));
  }

  lemma ShiftAgain(a1: int, b1: int, a2: int, m: int, n: int)
    ensures b1 + 2 * a1 * (m + a2 * n) == b1 + 2 * a1 * m + 2 * (a1 * a2) * n
  {
    Distribute(2 * a1, m, a2 * n);
    Reassociate(2 * a1, a2, n);
    Reassociate(2, a1, a2);
  }

  /** One more translation of both operands translates their composite. */
  lemma ShiftOperands(f: Form, g: Form, m: int, n: int, h: Form, i: int)
    requires Shifted(f, m).b == h.b == Shifted(g, n).b && h.a == f.a * g.a
    ensures Shifted(f, m + g.a * i).b == Shifted(h, i).b == Shifted(g, n + f.a * i).b
  {
    ShiftAgain(f.a, f.b, g.a, m, i);
    ShiftAgain(g.a, g.b, f.a, n, i);
  }

  /** Forms with coprime leading coefficients can be translated to one middle coefficient. */
  lemma ConcordantForms(f: Form, g: Form, e: Form) returns (k: int, l: int, j: int)
    requires PositiveDefinite(f) && PositiveDefinite(g) && PositiveDefinite(e)
    requires Disc(f) == Disc(g) == Disc(e) && Coprime(f.a, g.a) && Coprime(f.a * g.a, e.a)
    ensures Shifted(f, k).b == Shifted(g, l).b == Shifted(e, j).b
  {
    var m, n := CommonMiddle(f, g);
    ShiftedEquiv(f, m);
    ShiftedEquiv(g, n);
    var h := ConcordantComposite(Shifted(f, m), Shifted(g, n));
    var i;
    i, j := CommonMiddle(h, e);
    ShiftOperands(f, g, m, n, h, i);
    k, l := m + g.a * i, n + f.a * i;
  }

  /** Associativity for forms with coprime leading coefficients. */
  lemma AssociativeCoprime(f: Form, g: Form, e: Form)
    requires PositiveDefinite(f) && PositiveDefinite(g) && PositiveDefinite(e)
    requires Disc(f) == Disc(g) == Disc(e) && Squarefree(Disc(f))
    requires Coprime(f.a, g.a) && Coprime(f.a * g.a, e.a)
    ensures Multiply(Multiply(f, g), e) == Multiply(f, Multiply(g, e))
  {
    var k, l, j := ConcordantForms(f, g, e);
    ShiftedEquiv(f, k);
    ShiftedEquiv(g, l);
    ShiftedEquiv(e, j);
    AssociativeConcordant(Shifted(f, k), Shifted(g, l), Shifted(e, j));
    BothOrders(f, Shifted(f, k), g, Shifted(g, l), e, Shifted(e, j));
  }

  /** Both products of three depend on classes alone. */
  lemma BothOrders(f: Form, f': Form, g: Form, g': Form, e: Form, e': Form)
    requires PositiveDefinite(f) && PositiveDefinite(g) && PositiveDefinite(e)
    requires PositiveDefinite(f') && PositiveDefinite(g') && PositiveDefinite(e')
    requires Disc(f) == Disc(g) == Disc(e) == Disc(f') == Disc(g') == Disc(e') && Squarefree(Disc(f))
    requires Equiv(f, f') && Equiv(g, g') && Equiv(e, e')
    ensures Multiply(Multiply(f, g), e) == Multiply(Multiply(f', g'), e')
    ensures Multiply(f, Multiply(g, e)) == Multiply(f', Multiply(g', e'))
  {
    MultiplyRespectsClass(f, f', g, g');
    MultiplyRespectsClass(g, g', e, e');
    EquivRefl(Multiply(f, g));
    EquivRefl(Multiply(g, e));
    MultiplyRespectsClass(Multiply(f, g), Multiply(f, g), e, e');
    MultiplyRespectsClass(f, f', Multiply(g, e), Multiply(g, e));
  }

  /** Multiplication of classes is associative. */
  lemma Associative(f: Form, g: Form, e: Form)
    requires PositiveDefinite(f) && PositiveDefinite(g) && PositiveDefinite(e)
    requires Disc(f) == Disc(g) == Disc(e) && Squarefree(Disc(f))
    ensures Multiply(Multiply(f, g), e) == Multiply(f, Multiply(g, e))
  {
    SquarefreeContent(g);
    SquarefreeContent(e);
    var g' := CoprimeForm(g, f.a);
    var e' := CoprimeForm(e, f.a * g'.a);
    EquivRefl(f);
    BothOrders(f, f, g, g', e, e');
    AssociativeCoprime(f, g', e');
  }

  // ----- Identity and inverses -----

  predicate IsDiscriminant(D: int) {
    D < 0 && D % 4 == 1
  }

  /** The principal form. */
  function Identity(D: int): (f: Form)
    requires IsDiscriminant(D)
    ensures PositiveDefinite(f) && Reduced(f) && Disc(f) == D
  {
    Form(1, 1, (1 - D) / 4)
  }

  lemma OddMiddle(f: Form, D: int)
    requires Disc(f) == D && IsDiscriminant(D)
    ensures f.b % 2 == 1
  {
    Reassociate(4, f.a, f.c);
    EvenSquare(f.b, f.a * f.c);
  }

  lemma EvenSquare(b: int, n: int)
    ensures b % 2 == 0 ==> (b * b - 4 * n) % 4 == 0
  {
    if b % 2 == 0 {
      var h := b / 2;
      assert b == 2 * h;
      assert b * b - 4 * n == (h * h - n) * 4;
      Quotient(h * h - n, 4);
    }
  }

  /** The principal form is the identity. */
  lemma IdentityIsUnit(f: Form, D: int)
    requires PositiveDefinite(f) && Disc(f) == D && IsDiscriminant(D) && Squarefree(D)
    ensures Multiply(f, Identity(D)) == Canon(f)
  {
    var one := Identity(D);
    OddMiddle(f, D);
    var n := (f.b - 1) / 2;
    ShiftedEquiv(one, n);
    var e := Shifted(one, n);
    assert 0 * f.a + 1 * e.a == 1;
    var h := ConcordantComposite(f, e);
    SameC(h, f);
    EquivRefl(f);
    MultiplyRespectsClass(f, f, one, e);
  }

  function Mirror(f: Form): (g: Form)
    ensures Disc(g) == Disc(f) && g.a == f.a
  {
    NegateProduct(f.b, f.b);
    NegateProduct(f.b, -f.b);
    Form(f.a, -f.b, f.c)
  }

  /** The inverse of the source: the mirror image, reduced. */
  function Inverse(f: Form): (g: Form)
    requires PositiveDefinite(f)
    ensures PositiveDefinite(g) && Reduced(g) && Disc(g) == Disc(f)
  {
    EquivDisc(Mirror(f), Canon(Mirror(f)));
    Canon(Mirror(f))
  }

  /** On a reduced form there is something to reduce exactly on the two boundaries, b == a
      and a == c, and there the form is its own inverse. */
  lemma InverseOfReduced(f: Form)
    requires PositiveDefinite(f) && Reduced(f)
    ensures Inverse(f) == if f.b == f.a || f.a == f.c then f else Mirror(f)
  {
    var g := Mirror(f);
    EquivRefl(g);
    if f.b == f.a {
      Translate(g, 1);
      CanonIsTheReducedForm(g, f);
    } else if f.a == f.c {
      FlipTranslate(g, 0);
      CanonIsTheReducedForm(g, f);
    } else {
      CanonIsTheReducedForm(g, g);
    }
  }

  /** A form and its mirror image compose to the form with c == 1. */
  lemma MirrorComposes(f: Form)
    requires Content1(f)
    ensures Composes(f, Form(f.c, f.b, f.a), Form(f.a * f.c, f.b, 1))
  {
    var w := Bilinear(1, 0, 0, -1, f.a, f.c, f.b);
    var x, y, z :| x * f.a + y * f.b + z * f.c == 1;
    assert x * w.s + z * w.t + y * w.u == 1;
    ComposesBy(w);
  }

  /** A form with c == 1 is in the identity class. */
  lemma PrincipalClass(h: Form, D: int)
    requires PositiveDefinite(h) && h.c == 1 && Disc(h) == D && IsDiscriminant(D)
    ensures Canon(h) == Identity(D)
  {
    var n := (h.b + 1) / 2;
    OddMiddle(h, D);
    FlipTranslate(h, n);
    var e := Form(h.c, 2 * n * h.c - h.b, h.c * n * n - h.b * n + h.a);
    EquivDisc(h, e);
    SameC(e, Identity(D));
    CanonIsTheReducedForm(h, Identity(D));
  }

  /** The inverse is in the class of the flipped form. */
  lemma FlippedClass(f: Form)
    requires PositiveDefinite(f)
    ensures var e := Form(f.c, f.b, f.a); PositiveDefinite(e) && Disc(e) == Disc(f) && Equiv(e, Inverse(f))
  {
    var g, e := Mirror(f), Form(f.c, f.b, f.a);
    FlipTranslate(g, 0);
    EquivPositiveDefinite(g, e);
    EquivDisc(g, e);
    EquivSym(g, e);
    EquivTrans(e, g, Canon(g));
  }

  /** Reducing the mirror image inverts a class. */
  lemma InverseIsInverse(f: Form, D: int)
    requires PositiveDefinite(f) && Disc(f) == D && IsDiscriminant(D) && Squarefree(D)
    ensures Multiply(f, Inverse(f)) == Identity(D)
  {
    var e, h := Form(f.c, f.b, f.a), Form(f.a * f.c, f.b, 1);
    SquarefreeContent(f);
    MirrorComposes(f);
    FlippedClass(f);
    SameProduct(f, e, h);
    ComposesDisc(f, e, h);
    PrincipalClass(h, D);
    EquivRefl(f);
    MultiplyRespectsClass(f, f, e, Inverse(f));
  }

  // ----- The group -----

  /** The reduced forms of one discriminant, one for each class. */
  predicate Element(D: int, f: Form) {
    PositiveDefinite(f) && Reduced(f) && Disc(f) == D
  }

  const NOTHING := Form(0, 0, 0)

  /** The reference multiplication on the elements, extended to all triples: an element leaves
      any other triple as it is, and two others give NOTHING. */
  function Extended(D: int, x: Form, y: Form): (z: Form)
    ensures Element(D, x) && Element(D, y) ==> Element(D, z) && z == Multiply(x, y)
    ensures !Element(D, x) || !Element(D, y) ==> !Element(D, z)
  {
    if Element(D, x) then
      if Element(D, y) then Multiply(x, y) else y
    else if Element(D, y) then x else NOTHING
  }

  /** The discriminants of the protocol. */
  ghost predicate ClassDiscriminant(D: int) {
    IsDiscriminant(D) && Squarefree(D)
  }

  /** Such a discriminant other than -3 is not -3 or -4 times a square. */
  lemma SquarefreeIsRigid(D: int)
    requires ClassDiscriminant(D) && D != -3
    ensures Rigid(D)
  {
    forall x: int, y: int | x > 0 && y > 0
      ensures D * (x * x) != -3 * (y * y) && D * (x * x) != -4 * (y * y)
    {
      NoRatio(D, x, y, 3);
      NoRatio(D, x, y, 4);
    }
  }

  lemma NoRatio(D: int, x: int, y: int, k: int)
    requires ClassDiscriminant(D) && D != -3 && x > 0 && y > 0 && (k == 3 || k == 4)
    ensures D * (x * x) != -k * (y * y)
  {
    var r := SomeGcd(x, y);
    var g := r.gcd;
    var x', y' := x / g, y / g;
    ExactParts(x, y, r, x', y');
    LowestTerms(D, x', y', k);
    Rescaled(D, x', g);
    Rescaled(-k, y', g);
    ProductGrows(g, g);
    if D * (x * x) == -k * (y * y) {
      CancelFactor(g * g, D * (x' * x'), -k * (y' * y'));
    }
  }

  lemma ExactParts(x: int, y: int, r: GcdRes, x': int, y': int)
    requires x > 0 && y > 0 && IsGcd(r, x, y) && r.gcd != 0 && x' == x / r.gcd && y' == y / r.gcd
    ensures r.gcd > 0 && x == x' * r.gcd && y == y' * r.gcd && x' > 0 && y' > 0 && Coprime(x', y')
  {
    var g := r.gcd;
    var p :| x == p * g;
    var q :| y == q * g;
    Quotient(p, g);
    Quotient(q, g);
    PositiveFactor(g, p);
    PositiveFactor(g, q);
    Reassociate(r.s, p, g);
    Reassociate(r.t, q, g);
    Distribute(g, r.s * p, r.t * q);
    CancelFactor(g, r.s * p + r.t * q, 1);
  }

  lemma Rescaled(D: int, x: int, g: int)
    ensures D * (x * g * (x * g)) == D * (x * x) * (g * g)
  {
    Reassociate(x, g, x * g);
    Swap(g, x, g);
    Reassociate(x, x, g * g);
    Reassociate(D, x * x, g * g);
  }

  lemma LowestTerms(D: int, x: int, y: int, k: int)
    requires ClassDiscriminant(D) && D != -3 && x > 0 && y > 0 && Coprime(x, y) && (k == 3 || k == 4)
    ensures D * (x * x) != -k * (y * y)
  {
    if D * (x * x) == -k * (y * y) {
      UnitParts(D, x, y, k);
    }
  }

  lemma UnitParts(D: int, x: int, y: int, k: int)
    requires Squarefree(D) && x > 0 && y > 0 && Coprime(x, y) && 0 < k <= 4 && D * (x * x) == -k * (y * y)
    ensures y == 1 && (x == 1 || x == 2)
  {
    CoprimeSquares(x, y);
    DividesBy(x * x, -D);
    CoprimeDivides(x * x, y * y, k);
    RootOfDivisor(x, k);
    CoprimeSquares(y, x);
    DividesBy(y * y, -k);
    CoprimeDivides(y * y, x * x, D);
    assert NoSquare(y, D);
  }

  lemma RootOfDivisor(x: int, k: int)
    requires x > 0 && 0 < k <= 4 && Divides(x * x, k)
    ensures x == 1 || x == 2
  {
    ProductGrows(x, x);
    DivisorIsSmaller(x * x, k);
    if x >= 3 {
      ProductMonotone(x, 3, x);
    }
  }

  lemma CoprimeSquares(x: int, y: int)
    requires Coprime(x, y)
    ensures Coprime(x * x, y * y)
  {
    CoprimeProduct(x, y, y);
    CoprimeSym(x, y * y);
    CoprimeProduct(y * y, x, x);
    CoprimeSym(y * y, x * x);
  }

  /** A lawful group that multiplies elements as the reference does. */
  ghost predicate Realises(gr: Groups.Group<Form>, D: int) {
    forall x, y, z :: RealisesAt(gr, D, x, y, z)
  }

  ghost predicate RealisesAt(gr: Groups.Group<Form>, D: int, x: Form, y: Form, z: Form) {
    && ClassDiscriminant(D) && gr.one == Identity(D)
    && gr.CommutesAt(x, y) && gr.AssociatesAt(x, y, z) && gr.UnitAt(x)
    && (Element(D, x) && Element(D, y) ==> gr.mul(x, y) == Multiply(x, y))
  }

  lemma RealisesLaws(gr: Groups.Group<Form>, D: int)
    requires Realises(gr, D)
    ensures ClassDiscriminant(D) && gr.one == Identity(D) && gr.Lawful()
  {
    forall x, y
      ensures gr.CommutesAt(x, y)
    {
      assert RealisesAt(gr, D, x, y, x);
    }
    forall x, y, z
      ensures gr.AssociatesAt(x, y, z)
    {
      assert RealisesAt(gr, D, x, y, z);
    }
    forall x
      ensures gr.UnitAt(x)
    {
      assert RealisesAt(gr, D, x, x, x);
    }
    assert RealisesAt(gr, D, NOTHING, NOTHING, NOTHING);
  }

  lemma RealisesProduct(gr: Groups.Group<Form>, D: int, x: Form, y: Form)
    requires Realises(gr, D) && Element(D, x) && Element(D, y)
    ensures gr.mul(x, y) == Multiply(x, y)
  {
    assert RealisesAt(gr, D, x, y, x);
  }

  function ClassGroupOf(D: int): Groups.Group<Form>
    requires IsDiscriminant(D)
  {
    Groups.Group((x, y) => Extended(D, x, y), Identity(D))
  }

  lemma ExtendedCommutes(D: int, x: Form, y: Form)
    ensures Extended(D, x, y) == Extended(D, y, x)
  {
    if Element(D, x) && Element(D, y) {
      Commutes(x, y);
    }
  }

  lemma ExtendedAssociates(D: int, x: Form, y: Form, z: Form)
    requires Squarefree(D)
    ensures Extended(D, Extended(D, x, y), z) == Extended(D, x, Extended(D, y, z))
  {
    if Element(D, x) && Element(D, y) && Element(D, z) {
      Associative(x, y, z);
    }
  }

  lemma ExtendedUnit(D: int, x: Form)
    requires IsDiscriminant(D) && Squarefree(D)
    ensures Extended(D, x, Identity(D)) == x
  {
    if Element(D, x) {
      IdentityIsUnit(x, D);
      EquivRefl(x);
      CanonIsTheReducedForm(x, x);
    }
  }

  /** The laws that the proof systems assume of their group hold of the reference
      multiplication. */
  lemma ClassGroupRealises(D: int)
    requires ClassDiscriminant(D)
    ensures Realises(ClassGroupOf(D), D)
  {
    var gr := ClassGroupOf(D);
    forall x, y, z
      ensures RealisesAt(gr, D, x, y, z)
    {
      ExtendedCommutes(D, x, y);
      ExtendedAssociates(D, x, y, z);
      ExtendedUnit(D, x);
    }
  }

  lemma {:induction false} PowersAreElements(gr: Groups.Group<Form>, D: int, f: Form, n: nat)
    requires Realises(gr, D) && Element(D, f)
    ensures Element(D, Groups.Pow(gr, f, n))
  {
    RealisesLaws(gr, D);
    if n > 0 {
      PowersAreElements(gr, D, f, n - 1);
      RealisesProduct(gr, D, f, Groups.Pow(gr, f, n - 1));
    }
  }

  /** Reducing the product of any two forms multiplies their classes. */
  lemma ProductOfClasses(gr: Groups.Group<Form>, D: int, f: Form, g: Form)
    requires PositiveDefinite(f) && PositiveDefinite(g) && Disc(f) == Disc(g) == D && Realises(gr, D)
    ensures Multiply(f, g) == gr.mul(Canon(f), Canon(g))
  {
    RealisesLaws(gr, D);
    EquivDisc(f, Canon(f));
    EquivDisc(g, Canon(g));
    MultiplyRespectsClass(f, Canon(f), g, Canon(g));
    RealisesProduct(gr, D, Canon(f), Canon(g));
  }

}
