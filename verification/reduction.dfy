/** Reduction of positive definite forms: the reference algorithm that defines what a
    reduced form is, and its canonicity. */
module Reduction {
  import opened Integers
  import opened Forms
  import opened Wrappers

  predicate Normal(f: Form) {
    -f.a < f.b <= f.a
  }

  function Normalized(f: Form): (g: Form)
    requires f.a > 0
    ensures Normal(g) && g.a == f.a && Equiv(f, g)
  {
    var r := FloorDiv(f.a - f.b, 2 * f.a);
    var g := Form(f.a, f.b + 2 * (r * f.a), f.a * r * r + f.b * r + f.c);
    Translate(f, r);
    NormalBound(f.a, f.b, r);
    g
  }

  lemma NormalBound(a: int, b: int, r: int)
    requires r * (2 * a) <= a - b < r * (2 * a) + 2 * a
    ensures -a < b + 2 * (r * a) <= a && 2 * (r * a) == 2 * a * r
  {
    assert r * (2 * a) == 2 * (r * a) == 2 * a * r;
  }

  function Stepped(f: Form): (g: Form)
    requires f.c > 0
    ensures Normal(g) && g.a == f.c && Equiv(f, g)
  {
    var s := FloorDiv(f.c + f.b, 2 * f.c);
    var g := Form(f.c, 2 * (s * f.c) - f.b, f.c * s * s - f.b * s + f.a);
    FlipTranslate(f, s);
    assert s * (2 * f.c) == 2 * (s * f.c) == 2 * s * f.c;
    g
  }

  /** The loop test of the reference algorithm. */
  predicate Unreduced(f: Form) {
    f.a > f.c || (f.a == f.c && f.b < 0)
  }

  /** On the tie a == c the step only changes the sign of b, so the loop terminates. */
  lemma StepDecreases(f: Form)
    requires PositiveDefinite(f) && Normal(f) && Unreduced(f) && f.c > 0
    ensures Stepped(f).a < f.a || (Stepped(f).a == f.a && Stepped(f).b > 0)
  {
    if f.a == f.c {
      assert FloorDiv(f.c + f.b, 2 * f.c) == 0;
    }
  }

  /** What one turn of the reduction loop keeps. */
  lemma StepKeeps(start: Form, f: Form)
    requires PositiveDefinite(f) && Normal(f) && Unreduced(f) && Equiv(start, f)
    ensures f.c > 0
    ensures var g := Stepped(f); PositiveDefinite(g) && Normal(g) && Equiv(start, g)
    ensures var g := Stepped(f); g.a < f.a || (g.a == f.a && g.b > 0)
  {
    PositiveC(f);
    StepDecreases(f);
    EquivPositiveDefinite(f, Stepped(f));
    EquivTrans(start, f, Stepped(f));
  }

  lemma NormalizedKeepsNormal(f: Form)
    requires f.a > 0 && Normal(f)
    ensures Normalized(f) == f
  {
    QuotientIs(f.a - f.b, 2 * f.a, 0, f.a - f.b);
    assert FloorDiv(f.a - f.b, 2 * f.a) == 0;
  }

  function ReducedFrom(f: Form): (g: Form)
    requires PositiveDefinite(f) && Normal(f)
    ensures Reduced(g) && PositiveDefinite(g) && Equiv(f, g)
    decreases f.a, if f.b < 0 then 1 else 0
  {
    PositiveC(f);
    EquivRefl(f);
    if Unreduced(f) then
      StepDecreases(f);
      EquivPositiveDefinite(f, Stepped(f));
      var g := ReducedFrom(Stepped(f));
      EquivTrans(f, Stepped(f), g);
      g
    else
      f
  }

  /** The reduced representative of the class of f. */
  function Canon(f: Form): (g: Form)
    requires PositiveDefinite(f)
    ensures Reduced(g) && PositiveDefinite(g) && Equiv(f, g)
  {
    EquivPositiveDefinite(f, Normalized(f));
    var g := ReducedFrom(Normalized(f));
    EquivTrans(f, Normalized(f), g);
    g
  }

  /** Comparing reduced forms decides proper equivalence. */
  lemma CanonDecidesClass(f: Form, g: Form)
    requires PositiveDefinite(f) && PositiveDefinite(g)
    ensures Canon(f) == Canon(g) <==> Equiv(f, g)
  {
    if Canon(f) == Canon(g) {
      EquivSym(g, Canon(g));
      EquivTrans(f, Canon(f), g);
    }
    if Equiv(f, g) {
      EquivSym(f, Canon(f));
      EquivTrans(Canon(f), f, g);
      EquivTrans(Canon(f), g, Canon(g));
      ReducedUnique(Canon(f), Canon(g));
    }
  }

  /** Any reduced form of the class is the canonical one. */
  lemma CanonIsTheReducedForm(f: Form, r: Form)
    requires PositiveDefinite(f) && Reduced(r) && Equiv(f, r)
    ensures r == Canon(f)
  {
    EquivSym(f, Canon(f));
    EquivTrans(Canon(f), f, r);
    ReducedUnique(Canon(f), r);
  }

  /** The form object of the reference implementation: three coefficients that
      reduction overwrites in place. */
  class FormCell {
    var a: int
    var b: int
    var c: int

    function V(): Form
      reads this
    {
      Form(a, b, c)
    }

    constructor (f: Form)
      ensures V() == f
    {
      a, b, c := f.a, f.b, f.c;
    }

    method Normalize()
      requires a > 0
      modifies this
      ensures V() == Normalized(old(V()))
    {
      var r := FloorDiv(a - b, 2 * a);
      var A := a;
      var B := b + 2 * (r * a);
      var C := a * r * r + b * r + c;
      a, b, c := A, B, C;
    }

    method ReduceStep()
      requires c > 0
      modifies this
      ensures V() == Stepped(old(V()))
    {
      var s := FloorDiv(c + b, 2 * c);
      var A := c;
      var B := 2 * (s * c) - b;
      var C := c * s * s - b * s + a;
      a, b, c := A, B, C;
    }

    method Reduce()
      requires PositiveDefinite(V())
      modifies this
      ensures V() == Canon(old(V()))
    {
      ghost var start := V();
      Normalize();
      EquivPositiveDefinite(start, V());
      while a > c || (a == c && b < 0)
        invariant PositiveDefinite(V()) && Normal(V()) && Equiv(start, V())
        decreases a, if b < 0 then 1 else 0
      {
        StepKeeps(start, V());
        ReduceStep();
      }
      CanonIsTheReducedForm(start, V());
      NormalizedKeepsNormal(V());
      Normalize();
    }

    /** The test that a received form has to pass. Its one caller has reduced the form before. */
    method IsReduced() returns (r: bool)
      ensures a > 0 ==> (r <==> Reduced(V()))
    {
      if a < c || (a == c && b >= 0) {
        var aAbs, bAbs := if a < 0 then -a else a, if b < 0 then -b else b;
        if aAbs > bAbs || a == b {
          return true;
        }
      }
      return false;
    }
  }

  /** Builds the reduced form with leading coefficients a and b of discriminant D;
      the two errors are those of the original. */
  method FromAbd(a: int, b: int, D: int) returns (res: Result<FormCell>)
    requires D < 0
    ensures res.Ok? <==> a > 0 && (b * b - D) % (4 * a) == 0
    ensures res.Ok? ==> fresh(res.value)
    ensures res.Ok? ==> exists f: Form :: && f.a == a && f.b == b && Disc(f) == D
                                          && PositiveDefinite(f) && res.value.V() == Canon(f)
    ensures a <= 0 ==> res == Err("Invalid form. Positive a")
    ensures a > 0 && res.Err? ==> res == Err("Invalid form. Can't find c.")
  {
    var c := b * b - D;
    if a <= 0 {
      return Err("Invalid form. Positive a");
    }
    if c % (4 * a) != 0 {
      return Err("Invalid form. Can't find c.");
    }
    c := FloorDiv(c, 4 * a);
    var f := Form(a, b, c);
    assert Disc(f) == D by {
      assert b * b - D == c * (4 * a);
    }
    var cell := new FormCell(f);
    cell.Reduce();
    res := Ok(cell);
  }

}
