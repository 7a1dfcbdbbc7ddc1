/** The fast reducer: reduction steps found on 64-bit approximations and applied to the
    exact form as one integer matrix. */
module FastReducer {
  import opened Integers
  import opened Words
  import opened Forms
  import opened Reduction
  import opened ReducerSteps

  // ----- Applying the matrix to the exact form -----

  lemma MultipliersFit(m: Mat)
    requires Small(m)
    ensures FitsLimb(m.p * m.p) && FitsLimb(m.p * m.r) && FitsLimb(m.r * m.r)
    ensures FitsLimb(2 * (m.p * m.q)) && FitsLimb(m.p * m.s + m.q * m.r) && FitsLimb(2 * (m.r * m.s))
    ensures FitsLimb(m.q * m.q) && FitsLimb(m.q * m.s) && FitsLimb(m.s * m.s)
  {
    SmallEntries(m.p, m.p);
    SmallEntries(m.p, m.r);
    SmallEntries(m.r, m.r);
    SmallEntries(m.p, m.q);
    SmallEntries(m.p, m.s);
    SmallEntries(m.q, m.r);
    SmallEntries(m.r, m.s);
    SmallEntries(m.q, m.q);
    SmallEntries(m.q, m.s);
    SmallEntries(m.s, m.s);
  }

  lemma SmallEntries(x: int, y: int)
    requires Magnitude(x) < THRESH && Magnitude(y) < THRESH
    ensures Magnitude(x * y) < THRESH * THRESH
  {
    BoundedProduct(x, y, THRESH - 1);
  }

  lemma RegroupedAct(f: Form, m: Mat)
    ensures Act(f, m) == Form(
                           f.a * (m.p * m.p) + f.b * (m.p * m.r) + f.c * (m.r * m.r),
                           f.a * (2 * (m.p * m.q)) + f.b * (m.p * m.s + m.q * m.r) + f.c * (2 * (m.r * m.s)),
                           f.a * (m.q * m.q) + f.b * (m.q * m.s) + f.c * (m.s * m.s))
  {
    Regroup(f.a, m.p, m.p);
    Regroup(f.b, m.p, m.r);
    Regroup(f.c, m.r, m.r);
    Regroup(f.a, m.p, m.q);
    Regroup(f.c, m.r, m.s);
    Regroup(f.a, m.q, m.q);
    Regroup(f.b, m.q, m.s);
    Regroup(f.c, m.s, m.s);
  }

  // ----- The reducer -----

  /** The exit condition: reduced up to the sign of b on the boundary |b| == a. */
  predicate Balanced(f: Form) {
    -f.a <= f.b <= f.a <= f.c && (f.a == f.c ==> f.b >= 0)
  }

  /** A canonical form whose class has a second balanced form, its twin. */
  predicate OnBoundary(g: Form) {
    g.b == g.a < g.c
  }

  function Twin(g: Form): Form {
    Form(g.a, -g.b, g.c)
  }

  /** The exit test, which also puts a <= c and resolves the sign of b on a == c. It fails
      exactly if b is longer than one of the others. */
  method IsReduced(ctx: FormCell) returns (r: bool)
    requires PositiveDefinite(ctx.V())
    modifies ctx
    ensures PositiveDefinite(ctx.V()) && Equiv(old(ctx.V()), ctx.V())
    ensures r <==> !TooLong(old(ctx.V()))
    ensures r ==> Balanced(ctx.V())
    ensures Balanced(old(ctx.V())) ==> r && ctx.V() == old(ctx.V())
    ensures !r ==> ctx.V() == old(ctx.V()) && !Reduced(ctx.V())
  {
    ghost var f := ctx.V();
    EquivRefl(f);
    PositiveC(f);
    if ctx.a < Magnitude(ctx.b) || ctx.c < Magnitude(ctx.b) {
      return false;
    }
    FlipTranslate(f, 0);
    if ctx.a > ctx.c {
      ctx.a, ctx.c := ctx.c, ctx.a;
      ctx.b := -ctx.b;
    } else if ctx.a == ctx.c && ctx.b < 0 {
      ctx.b := -ctx.b;
    }
    EquivPositiveDefinite(f, ctx.V());
    return true;
  }

  /** The exact step, used when the coefficients differ too much in size: the step of the
      reference algorithm. */
  method ExactStep(ctx: FormCell)
    requires PositiveDefinite(ctx.V())
    modifies ctx
    ensures PositiveDefinite(ctx.V()) && Equiv(old(ctx.V()), ctx.V()) && Moved(old(ctx.V()), ctx.V())
    ensures old(ctx.c) > 0 && ctx.V() == Stepped(old(ctx.V()))
    ensures ctx.a == old(ctx.c) && -ctx.a < ctx.b <= ctx.a
    ensures Weight(ctx.V()) <= Weight(old(ctx.V())) && (Short(old(ctx.V())) ==> Short(ctx.V()))
    ensures Magnitude(old(ctx.b)) > old(ctx.c) ==> Weight(ctx.V()) < Weight(old(ctx.V()))
    ensures Magnitude(old(ctx.b)) <= old(ctx.c) ==> ctx.c == old(ctx.a) && Magnitude(ctx.b) == Magnitude(old(ctx.b))
  {
    ghost var f := ctx.V();
    PositiveC(f);
    var r := FloorDiv(ctx.b, ctx.c);
    r := r + 1;
    var s := FloorDiv(r, 2);
    ghost var q := s;
    HalfOfQuotient(f.b, f.c, s);
    var m := ctx.c * s;
    r := 2 * m;
    m := m - ctx.b;
    ctx.b := r - ctx.b;
    ctx.a, ctx.c := ctx.c, ctx.a;
    ctx.c := ctx.c + s * m;
    ExactStepForm(f, q);
    ExactStepMoves(f, q);
    ExactStepSizes(f, q);
    EquivPositiveDefinite(f, ctx.V());
  }

  /** Rounding twice is rounding once. */
  lemma HalfOfQuotient(b: int, c: int, s: int)
    requires c > 0 && s == FloorDiv(FloorDiv(b, c) + 1, 2)
    ensures s == FloorDiv(c + b, 2 * c)
  {
    var q := FloorDiv(b, c);
    assert b == q * c + b % c;
    assert q + 1 == s * 2 + (q + 1) % 2;
    Distribute(c, s * 2, (q + 1) % 2);
    Distribute(c, q, 1);
    assert s * 2 * c == s * (2 * c);
    QuotientIs(c + b, 2 * c, s, (q + 1) % 2 * c + b % c);
  }

  lemma ExactStepMoves(f: Form, s: int)
    requires PositiveDefinite(f) && f.c > 0 && s == FloorDiv(f.c + f.b, 2 * f.c)
    ensures FlipStep(f, s) == Stepped(f) && PositiveDefinite(FlipStep(f, s)) && FlipStep(f, s).c > 0
    ensures Moved(f, FlipStep(f, s))
  {
    FlipTranslate(f, s);
    EquivPositiveDefinite(f, FlipStep(f, s));
    PositiveC(FlipStep(f, s));
    Swap(2, s, f.c);
    FlipIsAct(f, s);
    assert StepMat(s) != IDENTITY && StepMat(s) != Negated(IDENTITY);
  }

  lemma ExactStepSizes(f: Form, s: int)
    requires PositiveDefinite(f) && f.c > 0 && s == FloorDiv(f.c + f.b, 2 * f.c) && FlipStep(f, s).c > 0
    ensures var g := FlipStep(f, s);
            && Weight(g) <= Weight(f) && (Short(f) ==> Short(g))
            && (Magnitude(f.b) > f.c ==> Weight(g) < Weight(f))
            && (Magnitude(f.b) <= f.c ==> g.c == f.a && Magnitude(g.b) == Magnitude(f.b))
  {
    FlooredNearest(s, f.b, f.c);
    FlipShrinks(f, s);
  }

  lemma FlooredNearest(s: int, b: int, c: int)
    requires c > 0 && s == FloorDiv(c + b, 2 * c)
    ensures -c < 2 * (c * s) - b <= c && (Magnitude(b) < c ==> s == 0)
  {
    assert s * (2 * c) == 2 * (c * s);
    if Magnitude(b) < c {
      QuotientIs(c + b, 2 * c, 0, c + b);
    }
  }

  lemma ExactStepForm(f: Form, s: int)
    ensures Form(f.c, 2 * (f.c * s) - f.b, f.a + s * (f.c * s - f.b))
         == Form(f.c, 2 * s * f.c - f.b, f.c * s * s - f.b * s + f.a)
  {
    Distribute(s, f.c * s, f.b);
  }

  /** One matrix found on the approximations, applied to the exact form. */
  method MatrixStep(ctx: FormCell, a: int, b: int, c: int) returns (ghost m: Mat, ghost qs: seq<int>)
    requires PositiveDefinite(ctx.V()) && 0 < c && FitsLimb(2 * c)
    modifies ctx
    ensures PositiveDefinite(ctx.V()) && Equiv(old(ctx.V()), ctx.V())
    ensures m == Chain(qs) && Passed(qs) && IsRun(Form(a, b, c), qs) && Ends(Form(a, b, c), qs)
    ensures ctx.V() == Act(old(ctx.V()), m)
  {
    var n;
    n, qs := CalcUvwx(a, b, c);
    m := n;
    Substitute(ctx, n);
  }

  /** Applies a substitution to the exact form, by nine multipliers that are machine words. */
  method Substitute(ctx: FormCell, n: Mat)
    requires PositiveDefinite(ctx.V()) && Det(n) == 1 && Small(n)
    modifies ctx
    ensures PositiveDefinite(ctx.V()) && Equiv(old(ctx.V()), ctx.V()) && ctx.V() == Act(old(ctx.V()), n)
  {
    ghost var f := ctx.V();
    MultipliersFit(n);
    var u, v, w, x := n.p, n.q, n.r, n.s;
    var faa, fab, fac := ctx.a * (u * u), ctx.b * (u * w), ctx.c * (w * w);
    var fba, fbb, fbc := ctx.a * (2 * (u * v)), ctx.b * (u * x + v * w), ctx.c * (2 * (w * x));
    var fca, fcb, fcc := ctx.a * (v * v), ctx.b * (v * x), ctx.c * (x * x);
    ctx.a := faa + fab + fac;
    ctx.b := fba + fbb + fbc;
    ctx.c := fca + fcb + fcc;
    RegroupedAct(f, n);
    EquivBy(f, n);
    EquivPositiveDefinite(f, ctx.V());
  }

  /** A balanced form is the canonical one unless b == -a, which represents the same
      class as b == a. */
  lemma BalancedIsCanonical(f: Form, g: Form)
    requires PositiveDefinite(f) && Equiv(f, g) && Balanced(g)
    ensures Canon(f) == if g.b == -g.a then Twin(g) else g
  {
    EquivPositiveDefinite(f, g);
    if g.b == -g.a {
      BoundaryTwin(g);
      EquivTrans(f, g, Twin(g));
      CanonIsTheReducedForm(f, Twin(g));
    } else {
      CanonIsTheReducedForm(f, g);
    }
  }

  lemma BoundaryTwin(g: Form)
    requires g.b == -g.a
    ensures Equiv(g, Twin(g))
  {
    Translate(g, 1);
  }

  /** What makes the rounds on short forms end. */
  ghost function Measure(f: Form): int {
    2 * Weight(f) + One(Magnitude(f.b) <= f.c)
  }

  /** The forms before and after each round: every round moves its form by a substitution
      other than plus or minus the identity. */
  ghost predicate Rounds(trace: seq<Form>) {
    forall i :: 0 <= i < |trace| - 1 ==> RoundOk(trace[i], trace[i + 1])
  }

  ghost predicate RoundOk(f: Form, g: Form) {
    PositiveDefinite(f) && TooLong(f) && Moved(f, g)
  }

  /** Any number of rounds of the reduction loop, with whatever approximations the form
      gives rise to: the class is kept throughout, every round moves the form, and once the
      loop ends the form is balanced. It is then the canonical one unless the class has two
      balanced forms; a balanced form, canonical or not, is returned as it is. On forms whose
      coefficients the window shows exactly the loop ends. */
  method Run(ctx: FormCell, rounds: nat) returns (done: bool, ghost trace: seq<Form>)
    requires PositiveDefinite(ctx.V())
    modifies ctx
    ensures PositiveDefinite(ctx.V()) && Equiv(old(ctx.V()), ctx.V())
    ensures done ==> Balanced(ctx.V())
    ensures done && !OnBoundary(Canon(old(ctx.V()))) ==> ctx.V() == Canon(old(ctx.V()))
    ensures done && OnBoundary(Canon(old(ctx.V()))) ==>
              ctx.V() == Canon(old(ctx.V())) || ctx.V() == Twin(Canon(old(ctx.V())))
    ensures Balanced(old(ctx.V())) && rounds >= 1 ==> done && ctx.V() == old(ctx.V())
    ensures |trace| >= 1 && trace[0] == old(ctx.V()) && Rounds(trace)
    ensures !done ==> |trace| == rounds + 1 && ctx.V() == trace[rounds]
    ensures done ==> !TooLong(trace[|trace| - 1])
    ensures Short(old(ctx.V())) && rounds > Measure(old(ctx.V())) ==> done
  {
    ghost var f := ctx.V();
    EquivRefl(f);
    done := false;
    trace := [f];
    for i := 0 to rounds
      invariant PositiveDefinite(ctx.V()) && Equiv(f, ctx.V()) && !done
      invariant i > 0 ==> !Balanced(f)
      invariant |trace| == i + 1 && trace[0] == f && trace[i] == ctx.V() && Rounds(trace)
      invariant Short(f) ==> Short(ctx.V()) && i + Measure(ctx.V()) <= Measure(f)
    {
      ghost var g := ctx.V();
      done := IsReduced(ctx);
      EquivTrans(f, g, ctx.V());
      if done {
        BalancedIsCanonical(f, ctx.V());
        return;
      }
      Shorten(ctx);
      EquivTrans(f, g, ctx.V());
      trace := trace + [ctx.V()];
    }
  }

  /** The step of one round. */
  method Shorten(ctx: FormCell)
    requires PositiveDefinite(ctx.V()) && TooLong(ctx.V())
    modifies ctx
    ensures PositiveDefinite(ctx.V()) && Equiv(old(ctx.V()), ctx.V()) && Moved(old(ctx.V()), ctx.V())
    ensures Short(old(ctx.V())) ==> Short(ctx.V()) && Measure(ctx.V()) < Measure(old(ctx.V()))
  {
    var (close, a, b, c) := Window(ctx.V());
    if !close {
      ExactStep(ctx);
    } else {
      ghost var f := ctx.V();
      WindowIsFit(f);
      ghost var m, qs := MatrixStep(ctx, a, b, c);
      RoundMoves(f, m, qs);
      if Short(f) {
        RoundShrinks(f, m, qs);
      }
    }
  }

  /** No round returns the form it got, unless the discriminant is -3 or -4 times a square. */
  lemma RoundsChange(trace: seq<Form>, i: nat)
    requires Rounds(trace) && i + 1 < |trace| && Rigid(Disc(trace[i]))
    ensures trace[i + 1] != trace[i]
  {
    assert RoundOk(trace[i], trace[i + 1]);
    var m: Mat :| Det(m) == 1 && m != IDENTITY && m != Negated(IDENTITY) && Act(trace[i], m) == trace[i + 1];
    if trace[i + 1] == trace[i] {
      AutomorphIsUnit(trace[i], m);
    }
  }

  // ----- Where the result is not canonical -----

  /** The twin of a canonical form with b == a < c is balanced too, and the reducer returns
      it as it is: for these classes, and for no others, a finished run can miss the
      canonical form. */
  lemma TwinIsBalanced(g: Form)
    requires PositiveDefinite(g) && Reduced(g) && OnBoundary(g)
    ensures Balanced(Twin(g)) && PositiveDefinite(Twin(g)) && Canon(Twin(g)) == g != Twin(g)
  {
    var t := Twin(g);
    NegateProduct(g.a, g.a);
    EquivRefl(t);
    BalancedIsCanonical(t, t);
  }

  /** On every class with two balanced forms there is a form that the reducer, in any
      number of rounds, finishes with and leaves short of the canonical one. */
  method MissesCanonical(g: Form, rounds: nat) returns (done: bool, ctx: FormCell)
    requires PositiveDefinite(g) && Reduced(g) && OnBoundary(g) && rounds >= 1
    ensures done && PositiveDefinite(ctx.V()) && Equiv(g, ctx.V()) && ctx.V() == Twin(g) != g
  {
    TwinIsBalanced(g);
    EquivSym(Twin(g), Canon(Twin(g)));
    ctx := new FormCell(Twin(g));
    ghost var trace;
    done, trace := Run(ctx, rounds);
  }

  /** The identity class of discriminant -23: (1, -1, 6) is balanced but not reduced. */
  lemma BoundaryExample(t: Form, g: Form)
    requires t == Form(1, -1, 6) && g == Form(1, 1, 6)
    ensures PositiveDefinite(t) && Disc(t) == -23 && Balanced(t) && !Reduced(t)
    ensures Canon(t) == g
  {
    SmallDiscriminant(g);
    SmallDiscriminant(t);
    assert t == Twin(g);
    TwinIsBalanced(g);
  }

  lemma SmallDiscriminant(g: Form)
    requires g.a == 1 && g.c == 6 && (g.b == 1 || g.b == -1)
    ensures PositiveDefinite(g) && Disc(g) == -23
  {
  }

  /** For a negated prime discriminant only the identity class has two balanced forms. */
  lemma OnlyTheIdentity(g: Form)
    requires PositiveDefinite(g) && Reduced(g) && PrimeDiscriminant(Disc(g))
    ensures OnBoundary(g) ==> g.a == 1 && g.b == 1
  {
    if OnBoundary(g) {
      Distribute(g.a, g.a, 4 * g.c);
      DividesBy(g.a, g.a - 4 * g.c);
      DivisorOfPrime(g.a, Disc(g));
      ReducedIsSmall(g);
    }
  }

}
