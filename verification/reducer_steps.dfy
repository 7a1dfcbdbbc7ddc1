/** The steps of the fast reducer: the search for a matrix on 64-bit approximations, and
    what that matrix does to the exact form. */
module ReducerSteps {
  import opened Integers
  import opened Words
  import opened Forms
  import opened Reduction
  import opened Congruences

  const THRESH := 0x8000_0000
  const EXP_THRESH := 31

  function Magnitude(n: int): nat {
    if n < 0 then -n else n
  }

  /** The entries of a matrix stay below the threshold. */
  predicate Small(m: Mat) {
    Magnitude(m.p) < THRESH && Magnitude(m.q) < THRESH && Magnitude(m.r) < THRESH && Magnitude(m.s) < THRESH
  }

  // ----- Determinants under wrap-around -----

  lemma MagnitudeOfProduct(x: int, y: int)
    ensures Magnitude(x * y) == Magnitude(x) * Magnitude(y)
  {
  }

  lemma ProductBound(X: nat, Y: nat, B: nat)
    requires X <= B && Y <= B
    ensures X * Y <= B * B
  {
    ProductGrows(X, B - Y);
    Distribute(X, B, Y);
    ProductGrows(B, B - X);
    Distribute(B, B, X);
  }

  lemma BoundedProduct(x: int, y: int, B: nat)
    requires Magnitude(x) <= B && Magnitude(y) <= B
    ensures Magnitude(x * y) <= B * B
  {
    MagnitudeOfProduct(x, y);
    ProductBound(Magnitude(x), Magnitude(y), B);
  }

  lemma SmallProduct(x: int, y: int)
    requires Magnitude(x) <= THRESH && Magnitude(y) <= THRESH
    ensures Magnitude(x * y) <= THRESH * THRESH
  {
    BoundedProduct(x, y, THRESH);
  }

  lemma ExactCandidate(u: int, v: int, w: int, x: int, s: int)
    ensures v * (-w + s * x) - (-u + s * v) * x == u * x - v * w
  {
    Distribute(v, s * x, w);
    Distribute(x, s * v, u);
  }

  /** The candidate of one step, computed with wrap-around, has determinant 1 modulo the word size. */
  lemma CandidateDeterminant(u: int, v: int, w: int, x: int, s: int, v': int, x': int)
    requires u * x - v * w == 1
    requires Divides(WORD, v' - (-u + s * v)) && Divides(WORD, x' - (-w + s * x))
    ensures Divides(WORD, v * x' - v' * x - 1)
  {
    var v1, x1 := -u + s * v, -w + s * x;
    ExactCandidate(u, v, w, x, s);
    DividesCombination(WORD, x' - x1, v' - v1, v, -x);
    Distribute(v, x', x1);
    Distribute(x, v', v1);
    NegateProduct(x, v' - v1);
  }

  /** Entries up to the threshold turn the congruence into an equation. */
  lemma DeterminantIsOne(v: int, x: int, v': int, x': int)
    requires Magnitude(v) <= THRESH && Magnitude(x) <= THRESH && Magnitude(v') <= THRESH && Magnitude(x') <= THRESH
    requires Divides(WORD, v * x' - v' * x - 1)
    ensures v * x' - v' * x == 1
  {
    SmallProduct(v, x');
    SmallProduct(v', x);
    var q :| v * x' - v' * x - 1 == q * WORD;
    SmallMultiple(WORD, q);
  }

  lemma ThresholdMultiple(k: int)
    ensures THRESH * k != 1 && -THRESH * k != 1
  {
  }

  lemma OrAtThreshold(p: nat, q: nat)
    requires Or(p, q) <= THRESH
    ensures p <= THRESH && q <= THRESH
    ensures p == THRESH ==> q == 0 || q == THRESH
    ensures q == THRESH ==> p == 0 || p == THRESH
  {
    ThresholdIsPowerOfTwo();
    OrSym(p, q);
    if p == THRESH {
      OrSingleBit(31, q);
    }
    if q == THRESH {
      OrSingleBit(31, p);
    }
  }

  lemma ThresholdIsPowerOfTwo()
    ensures Pow2(31) == THRESH
  {
    assert Pow2(16) == 0x1_0000 && Pow2(15) == 0x8000;
    Pow2Add(16, 15);
  }

  /** Passing the or-test keeps both candidates at most at the threshold; determinant 1
      then rules the threshold itself out. */
  lemma AcceptedIsSmall(v: int, x: int, v': int, x': int)
    requires Magnitude(v) < THRESH && Magnitude(x) < THRESH
    requires Or(Magnitude(v'), Magnitude(x')) <= THRESH
    requires Divides(WORD, v * x' - v' * x - 1)
    ensures Magnitude(v') < THRESH && Magnitude(x') < THRESH && v * x' - v' * x == 1
  {
    OrAtThreshold(Magnitude(v'), Magnitude(x'));
    DeterminantIsOne(v, x, v', x');
    if Magnitude(v') == THRESH || Magnitude(x') == THRESH {
      EntriesAtThreshold(v, x, v', x');
      assert false;
    }
  }

  lemma EntriesAtThreshold(v: int, x: int, v': int, x': int)
    requires v' == 0 || v' == THRESH || v' == -THRESH
    requires x' == 0 || x' == THRESH || x' == -THRESH
    ensures v * x' - v' * x != 1
  {
    var i, j := if x' == 0 then 0 else if x' > 0 then v else -v, if v' == 0 then 0 else if v' > 0 then x else -x;
    ThresholdMultiple(i - j);
  }

  // ----- The matrix search -----

  /** One column of candidates, x' = -w + s*x, in machine arithmetic. */
  function Candidate(w: int, x: int, s: int): (x': int)
    ensures Divides(WORD, x' - (-w + s * x))
  {
    var x' := Wrap(-w + Wrap(s * x));
    DividesCombination(WORD, x' - (-w + Wrap(s * x)), Wrap(s * x) - s * x, 1, 1);
    x'
  }

  /** The candidate matrix (u', v', w', x') after a step with quotient s. */
  function NextMat(m: Mat, s: int): Mat {
    Mat(m.q, Candidate(m.p, m.q, s), m.s, Candidate(m.r, m.s, s))
  }

  predicate BelowThreshold(m: Mat) {
    Or(Magnitude(m.q), Magnitude(m.s)) <= THRESH
  }

  lemma CandidateStep(m: Mat, s: int)
    requires Det(m) == 1 && Small(m) && BelowThreshold(NextMat(m, s))
    ensures Det(NextMat(m, s)) == 1 && Small(NextMat(m, s))
  {
    var n := NextMat(m, s);
    CandidateDeterminant(m.p, m.q, m.r, m.s, s, n.q, n.s);
    AcceptedIsSmall(m.q, m.s, n.q, n.s);
  }

  /** Determinant 1 with small entries, kept whole as one fact. */
  ghost predicate SmallUnimodular(m: Mat) {
    Det(m) == 1 && Small(m)
  }

  lemma IdentityIsSmall()
    ensures SmallUnimodular(IDENTITY)
  {
  }

  lemma StepIsSmall(m: Mat, s: int, n: Mat)
    requires SmallUnimodular(m) && n == NextMat(m, s) && BelowThreshold(n)
    ensures SmallUnimodular(n)
  {
    CandidateStep(m, s);
  }

  /** The matrix after a run of steps with the given quotients. */
  ghost function Chain(qs: seq<int>): Mat {
    if qs == [] then IDENTITY else NextMat(Chain(qs[..|qs| - 1]), qs[|qs| - 1])
  }

  /** Every step of the run passed the or-test. */
  ghost predicate Passed(qs: seq<int>) {
    qs != [] ==> Passed(qs[..|qs| - 1]) && BelowThreshold(Chain(qs))
  }

  lemma {:induction false} PassedIsUnimodular(qs: seq<int>)
    requires Passed(qs)
    ensures SmallUnimodular(Chain(qs))
  {
    if qs == [] {
      IdentityIsSmall();
    } else {
      PassedIsUnimodular(qs[..|qs| - 1]);
      ChainStep(qs);
      StepIsSmall(Chain(qs[..|qs| - 1]), qs[|qs| - 1], Chain(qs));
    }
  }

  lemma ChainStep(qs: seq<int>)
    requires qs != []
    ensures Chain(qs) == NextMat(Chain(qs[..|qs| - 1]), qs[|qs| - 1])
  {
  }

  // ----- Accepted candidates are exact -----

  /** The exact step with quotient s: exchange and translate. */
  function StepMat(s: int): Mat {
    Mat(0, -1, 1, s)
  }

  /** A multiple of the word size between quotients is zero, once the entries are small. */
  lemma SameQuotient(u: int, v: int, v': int, s: int, t: int)
    requires Magnitude(u) < THRESH && Magnitude(v') < THRESH && Magnitude(s) < WORD / 2
    requires v' == -u + (s + t * WORD) * v
    ensures v == 0 || t == 0
  {
    if v != 0 && t != 0 {
      MagnitudeOfProduct(s + t * WORD, v);
      LargeMultiple(s, t);
      ProductGrows(Magnitude(s + t * WORD), Magnitude(v));
      assert false;
    }
  }

  lemma LargeMultiple(s: int, t: int)
    requires t != 0 && Magnitude(s) < WORD / 2
    ensures Magnitude(s + t * WORD) > WORD / 2
  {
    ProductGrows(t, WORD);
    ProductGrows(-t, WORD);
  }

  /** The error of a wrapped candidate is a multiple of the column it is added to. */
  lemma ErrorIsMultiple(u: int, v: int, w: int, x: int, V: int, X: int) returns (t: int)
    requires u * x - v * w == 1 && v * X == V * x
    ensures V == t * v && X == t * x
  {
    t := u * X - w * V;
    assert t * v == V by {
      Distribute(v, u * X, w * V);
      assert (u * X) * v == u * (v * X) == u * (V * x);
      assert u * (V * x) - w * V * v == V * (u * x - v * w);
    }
    assert t * x == X by {
      Distribute(x, u * X, w * V);
      assert (w * V) * x == w * (V * x) == w * (v * X);
      assert (u * X) * x - w * (v * X) == X * (u * x - v * w);
    }
  }

  lemma ErrorsCross(v: int, x: int, V: int, X: int, v1: int, x1: int, W: int)
    requires W != 0 && v * x1 - v1 * x == 1 && v * (x1 + X * W) - (v1 + V * W) * x == 1
    ensures v * X == V * x
  {
    Distribute(v, x1, X * W);
    Distribute(x, v1, V * W);
    Reassociate(v, X, W);
    assert V * W * x == V * x * W;
    CancelFactor(W, v * X, V * x);
  }

  lemma ExactEntries(u: int, v: int, w: int, x: int, s: int, v': int, x': int)
    requires u * x - v * w == 1 && v * x' - v' * x == 1 && Magnitude(s) < WORD / 2
    requires Magnitude(u) < THRESH && Magnitude(w) < THRESH && Magnitude(v') < THRESH && Magnitude(x') < THRESH
    requires Divides(WORD, v' - (-u + s * v)) && Divides(WORD, x' - (-w + s * x))
    ensures v' == -u + s * v && x' == -w + s * x
  {
    var V: int :| v' - (-u + s * v) == V * WORD;
    var X: int :| x' - (-w + s * x) == X * WORD;
    ExactCandidate(u, v, w, x, s);
    ErrorsCross(v, x, V, X, -u + s * v, -w + s * x, WORD);
    var t := ErrorIsMultiple(u, v, w, x, V, X);
    NoError(u, v, w, x, s, v', x', V, X, t);
  }

  lemma NoError(u: int, v: int, w: int, x: int, s: int, v': int, x': int, V: int, X: int, t: int)
    requires u * x - v * w == 1 && V == t * v && X == t * x && Magnitude(s) < WORD / 2
    requires Magnitude(u) < THRESH && Magnitude(w) < THRESH && Magnitude(v') < THRESH && Magnitude(x') < THRESH
    requires v' - (-u + s * v) == V * WORD && x' - (-w + s * x) == X * WORD
    ensures V == 0 && X == 0
  {
    GatherError(s, t, v);
    GatherError(s, t, x);
    SameQuotient(u, v, v', s, t);
    SameQuotient(w, x, x', s, t);
  }

  /** Despite the wrap-around, a candidate that passes the or-test is the exact one. */
  lemma AcceptedIsExact(m: Mat, s: int)
    requires SmallUnimodular(m) && BelowThreshold(NextMat(m, s)) && Magnitude(s) < WORD / 2
    ensures NextMat(m, s) == Mul(m, StepMat(s))
  {
    var n := NextMat(m, s);
    CandidateStep(m, s);
    ExactEntries(m.p, m.q, m.r, m.s, s, n.q, n.s);
    MulStep(m, s);
  }

  lemma MulStep(m: Mat, s: int)
    ensures Mul(m, StepMat(s)) == Mat(m.q, -m.p + s * m.q, m.s, -m.r + s * m.s)
  {
  }

  lemma GatherError(s: int, t: int, v: int)
    ensures s * v + t * v * WORD == (s + t * WORD) * v
  {
    Distribute(v, s, t * WORD);
    assert t * v * WORD == t * WORD * v;
  }

  // ----- Runs on approximations -----

  /** The quotient guessed from the approximations. */
  function StepQuotient(b: int, c: int): int
    requires c > 0
  {
    if b >= 0 then TruncDiv(Wrap(b + c), 2 * c) else TruncDiv(Wrap(-Wrap(Wrap(-b) + c)), 2 * c)
  }

  /** The step on the approximations, in machine arithmetic. */
  function ApproxStep(w: Form, s: int): Form {
    var cs := Wrap(w.c * s);
    Form(w.c, MiddleCoefficient(w.b, cs), LastCoefficient(w.a, w.b, cs, s))
  }

  function MiddleCoefficient(b: int, cs: int): int {
    Wrap(Wrap(-b) + Wrap(2 * cs))
  }

  function LastCoefficient(a: int, b: int, cs: int, s: int): int {
    Wrap(a - Wrap(s * Wrap(b - cs)))
  }

  /** The same step without wrap-around. */
  function FlipStep(f: Form, s: int): Form {
    Form(f.c, 2 * s * f.c - f.b, f.c * s * s - f.b * s + f.a)
  }

  lemma FlipIsAct(f: Form, s: int)
    ensures FlipStep(f, s) == Act(f, StepMat(s)) && Det(StepMat(s)) == 1
  {
  }

  lemma QuotientFits(b: int, c: int)
    requires c > 0
    ensures Magnitude(StepQuotient(b, c)) < WORD / 2
  {
    QuotientSmaller(Wrap(b + c), 2 * c);
    QuotientSmaller(Wrap(-Wrap(Wrap(-b) + c)), 2 * c);
  }

  lemma QuotientSmaller(n: int, d: int)
    requires FitsLimb(n) && d >= 2
    ensures Magnitude(TruncDiv(n, d)) < WORD / 2
  {
    SmallerBy(Magnitude(n), d);
  }

  lemma SmallerBy(n: nat, d: int)
    requires d >= 2
    ensures 0 <= n / d && 2 * (n / d) <= n
  {
    assert n == n / d * d + n % d;
    ProductGrows(n / d, d - 2);
    Distribute(n / d, d, 2);
    DivideBelow(n, d, n + 1) by {
      ProductGrows(d, n + 1);
    }
  }

  lemma NoWrap(x: int)
    requires FitsLimb(x)
    ensures Wrap(x) == x
  {
  }

  /** Within a word the quotient is a nearest one: it leaves |b'| at most c. It is zero exactly
      for |b| below c, and at most one on |b| == c. */
  lemma NearestQuotient(b: int, c: int)
    requires c > 0 && Magnitude(b) + c < LIMB_LIMIT
    ensures IsNearest(StepQuotient(b, c), b, c)
  {
    RoundedQuotient(Magnitude(b), c);
    var s := (Magnitude(b) + c) / (2 * c);
    if b >= 0 {
      NoWrap(b + c);
    } else {
      NegativeQuotient(b, c);
      NegateNearest(s, -b, c);
    }
  }

  predicate IsNearest(s: int, b: int, c: int) {
    && -c <= 2 * (c * s) - b <= c && (s == 0 <==> Magnitude(b) < c)
    && 2 * (c * Magnitude(s)) <= Magnitude(b) + c
    && (b == c > 0 ==> s == 1) && (b == -c < 0 ==> s == -1)
  }

  lemma NegativeQuotient(b: int, c: int)
    requires c > 0 && b < 0 && -b + c < LIMB_LIMIT
    ensures StepQuotient(b, c) == -((-b + c) / (2 * c))
  {
    NoWrap(-b);
    NoWrap(-b + c);
    NoWrap(-(-b + c));
  }

  lemma NegateNearest(s: int, b: int, c: int)
    requires IsNearest(s, b, c) && b > 0 && c > 0 && s >= 0
    ensures IsNearest(-s, -b, c)
  {
    NegateProduct(c, s);
  }

  lemma RoundedQuotient(b: nat, c: nat)
    requires c > 0
    ensures (b + c) / (2 * c) >= 0 && IsNearest((b + c) / (2 * c), b, c)
  {
    var s := (b + c) / (2 * c);
    assert b + c == s * (2 * c) + (b + c) % (2 * c);
    assert s * (2 * c) == 2 * (c * s);
    if b < c {
      QuotientIs(b + c, 2 * c, 0, b + c);
    } else {
      SmallMultipleFrom(b + c, s, 2 * c);
    }
    if b == c {
      QuotientIs(b + c, 2 * c, 1, 0);
    }
  }

  lemma SmallMultipleFrom(n: int, s: int, d: int)
    requires d > 0 && n >= d && s == n / d
    ensures s >= 1
  {
    DivideAtLeast(n, d, 1);
  }

  /** The state of the approximations after a run of steps. */
  ghost function StateAt(w: Form, qs: seq<int>): Form {
    if qs == [] then w else ApproxStep(StateAt(w, qs[..|qs| - 1]), qs[|qs| - 1])
  }

  /** The loop goes on: at once, and later while a > c > 0. */
  ghost predicate Goes(w: Form, qs: seq<int>) {
    var v := StateAt(w, qs);
    v.c > 0 && (qs == [] || v.a > v.c)
  }

  /** The quotients are those that the loop takes, one after another. */
  ghost predicate IsRun(w: Form, qs: seq<int>) {
    qs != [] ==>
      var prev := qs[..|qs| - 1];
      IsRun(w, prev) && Goes(w, prev) && qs[|qs| - 1] == StepQuotient(StateAt(w, prev).b, StateAt(w, prev).c)
  }

  /** The run ends here: the loop does not go on, or its next candidate fails the test. */
  ghost predicate Ends(w: Form, qs: seq<int>) {
    Goes(w, qs) ==> !BelowThreshold(NextMat(Chain(qs), StepQuotient(StateAt(w, qs).b, StateAt(w, qs).c)))
  }

  lemma RunExtends(w: Form, qs: seq<int>, s: int)
    requires IsRun(w, qs) && Passed(qs) && Goes(w, qs) && s == StepQuotient(StateAt(w, qs).b, StateAt(w, qs).c)
    ensures IsRun(w, qs + [s]) && StateAt(w, qs + [s]) == ApproxStep(StateAt(w, qs), s)
    ensures Chain(qs + [s]) == NextMat(Chain(qs), s)
    ensures Passed(qs + [s]) <==> BelowThreshold(Chain(qs + [s]))
  {
    assert (qs + [s])[..|qs|] == qs;
  }

  /** Reduction steps on the approximations (a, b, c), until an entry would grow too
      large or the approximation is reduced. Every operation on the approximations and
      candidates wraps around; the result nevertheless has determinant 1. It belongs to the
      longest run of accepted steps. */
  method CalcUvwx(a0: int, b0: int, c0: int) returns (m: Mat, ghost qs: seq<int>)
    requires 0 < c0 && FitsLimb(2 * c0)
    ensures Det(m) == 1 && Small(m)
    ensures m == Chain(qs) && Passed(qs) && IsRun(Form(a0, b0, c0), qs) && Ends(Form(a0, b0, c0), qs)
  {
    ghost var w := Form(a0, b0, c0);
    var a, b, c := a0, b0, c0;
    var next := IDENTITY;
    ghost var qs' := [];
    qs := [];
    m := IDENTITY;
    var below, running := true, true;
    while running
      invariant m == Chain(qs) && Passed(qs) && IsRun(w, qs)
      invariant below ==> next == Chain(qs') && Passed(qs') && IsRun(w, qs') && StateAt(w, qs') == Form(a, b, c)
      invariant below ==> (running <==> Goes(w, qs'))
      invariant !below ==> Ends(w, qs)
      invariant running ==> below && 0 < c <= c0
      decreases if running then c + 1 else 0
    {
      m, qs := next, qs';
      assert FitsLimb(2 * c);
      var s := StepQuotient(b, c);
      RunExtends(w, qs, s);
      var v := ApproxStep(Form(a, b, c), s);
      a, b, c := v.a, v.b, v.c;
      next := NextMat(m, s);
      below := BelowThreshold(next);
      qs' := qs + [s];
      running := below && a > c && c > 0;
    }
    if below {
      m, qs := next, qs';
    }
    PassedIsUnimodular(qs);
  }

  // ----- The approximations -----

  /** A number as its 63 leading bits, with sign, and its bit length. */
  datatype Approximation = Approximation(r: int, e: nat)

  function Leading(n: int): Approximation {
    if n == 0 then
      Approximation(0, 0)
    else
      var e := BitLength(Magnitude(n));
      var r := if e >= 63 then Magnitude(n) / Pow2(e - 63) else Magnitude(n) * Pow2(63 - e);
      Approximation(if n < 0 then -r else r, e)
  }

  lemma LongHead(n: nat, e: nat)
    requires n > 0 && e == BitLength(n) && e >= 63
    ensures Pow2(62) <= n / Pow2(e - 63) < Pow2(63)
  {
    HeadRange(n, e - 63, 62, 63);
  }

  lemma HeadRange(n: nat, k: nat, i: nat, j: nat)
    requires Pow2(k + i) <= n < Pow2(k + j)
    ensures Pow2(i) <= n / Pow2(k) < Pow2(j)
  {
    HeadReaches(n, k, i);
    Pow2Add(k, j);
    DivideBelow(n, Pow2(k), Pow2(j));
  }

  lemma HeadReaches(n: nat, k: nat, i: nat)
    requires Pow2(k + i) <= n
    ensures Pow2(i) <= n / Pow2(k)
  {
    Pow2Add(k, i);
    DivideAtLeast(n, Pow2(k), Pow2(i));
  }

  lemma ShortHead(n: nat, e: nat)
    requires n > 0 && e == BitLength(n) && e < 63
    ensures Pow2(62) <= n * Pow2(63 - e) < Pow2(63)
  {
    Pow2Add(63 - e, e - 1);
    Pow2Add(63 - e, e);
    ScaledBounds(n, Pow2(63 - e), Pow2(e - 1), Pow2(e));
  }

  lemma LeadingBits(n: nat)
    requires n > 0
    ensures Pow2(62) <= Leading(n).r < Pow2(63)
  {
    var e := BitLength(n);
    if e >= 63 {
      LongHead(n, e);
    } else {
      ShortHead(n, e);
    }
  }

  lemma ScaledBounds(n: int, p: int, lo: int, hi: int)
    requires p > 0 && lo <= n < hi
    ensures p * lo <= n * p < p * hi
  {
    Distribute(p, n, lo);
    ProductGrows(p, n - lo);
    Distribute(p, hi, n);
    ProductGrows(p, hi - n);
  }

  lemma DivideAtLeast(n: nat, m: nat, p: nat)
    requires m > 0 && n >= m * p
    ensures n / m >= p
  {
    assert n == n / m * m + n % m;
    Distribute(m, p, n / m);
    ProductGrows(m, p - n / m);
  }

  /** The three approximations brought to one exponent, or nothing when the exponents
      are too far apart for 64 bits. */
  function Window(f: Form): (w: (bool, int, int, int)) {
    var a, b, c := Leading(f.a), Leading(f.b), Leading(f.c);
    var lo, hi := Min3(a.e, b.e, c.e), Max3(a.e, b.e, c.e);
    if hi - lo > EXP_THRESH then
      (false, 0, 0, 0)
    else
      (true, Entry(f.a, hi), Entry(f.b, hi), Entry(f.c, hi))
  }

  /** The leading bits shifted to the common exponent, with a bit to spare. */
  function Entry(n: int, hi: nat): int
    requires Leading(n).e <= hi
  {
    Leading(n).r / Pow2(hi + 1 - Leading(n).e)
  }

  function Min3(x: nat, y: nat, z: nat): (m: nat)
    ensures m <= x && m <= y && m <= z
  {
    if x <= y && x <= z then x else if y <= z then y else z
  }

  function Max3(x: nat, y: nat, z: nat): (m: nat)
    ensures m >= x && m >= y && m >= z && (m == x || m == y || m == z)
  {
    if x >= y && x >= z then x else if y >= z then y else z
  }

  // ----- A run does not come back -----

  ghost predicate CongruentForms(f: Form, g: Form) {
    Congruent(WORD, f.a, g.a) && Congruent(WORD, f.b, g.b) && Congruent(WORD, f.c, g.c)
  }

  lemma WrapCongruent(x: int, y: int)
    requires Congruent(WORD, x, y)
    ensures Congruent(WORD, Wrap(x), y)
  {
    CongruentTrans(WORD, Wrap(x), x, y);
  }

  /** Modulo the word size the wrapped step is the exact one. */
  lemma StepCongruent(w: Form, f: Form, s: int)
    requires CongruentForms(w, f)
    ensures CongruentForms(ApproxStep(w, s), FlipStep(f, s))
  {
    ShiftCongruent(w, f, s);
    FlipParts(f, s);
    StepMiddle(w, f, s, FlipStep(f, s).b);
    StepLast(w, f, s, FlipStep(f, s).c);
  }

  lemma ShiftCongruent(w: Form, f: Form, s: int)
    requires Congruent(WORD, w.c, f.c)
    ensures Congruent(WORD, Wrap(w.c * s), f.c * s)
  {
    CongruentRefl(WORD, s);
    CongruentProduct(WORD, w.c, f.c, s, s);
    WrapCongruent(w.c * s, f.c * s);
  }

  lemma StepMiddle(w: Form, f: Form, s: int, y: int)
    requires Congruent(WORD, w.b, f.b) && Congruent(WORD, Wrap(w.c * s), f.c * s) && y == 2 * (f.c * s) - f.b
    ensures Congruent(WORD, ApproxStep(w, s).b, y)
  {
    MiddleCongruent(w.b, f.b, Wrap(w.c * s), f.c * s);
  }

  lemma StepLast(w: Form, f: Form, s: int, y: int)
    requires Congruent(WORD, w.a, f.a) && Congruent(WORD, w.b, f.b) && Congruent(WORD, Wrap(w.c * s), f.c * s)
    requires y == f.a - s * (f.b - f.c * s)
    ensures Congruent(WORD, ApproxStep(w, s).c, y)
  {
    LastCongruent(w.a, f.a, w.b, f.b, Wrap(w.c * s), f.c * s, s);
  }

  lemma FlipParts(f: Form, s: int)
    ensures FlipStep(f, s) == Form(f.c, 2 * (f.c * s) - f.b, f.a - s * (f.b - f.c * s))
  {
    Distribute(s, f.b, f.c * s);
    Reassociate(2, s, f.c);
  }

  lemma MiddleCongruent(b: int, b': int, cs: int, cs': int)
    requires Congruent(WORD, b, b') && Congruent(WORD, cs, cs')
    ensures Congruent(WORD, MiddleCoefficient(b, cs), 2 * cs' - b')
  {
    CongruentCombination(WORD, b, b', cs, cs', -1, 0);
    CongruentCombination(WORD, b, b', cs, cs', 0, 2);
    WrapCongruent(-b, -b');
    WrapCongruent(2 * cs, 2 * cs');
    CongruentCombination(WORD, Wrap(-b), -b', Wrap(2 * cs), 2 * cs', 1, 1);
    WrapCongruent(Wrap(-b) + Wrap(2 * cs), 2 * cs' - b');
  }

  lemma LastCongruent(a: int, a': int, b: int, b': int, cs: int, cs': int, s: int)
    requires Congruent(WORD, a, a') && Congruent(WORD, b, b') && Congruent(WORD, cs, cs')
    ensures Congruent(WORD, LastCoefficient(a, b, cs, s), a' - s * (b' - cs'))
  {
    CongruentCombination(WORD, b, b', cs, cs', 1, -1);
    WrapCongruent(b - cs, b' - cs');
    CongruentRefl(WORD, s);
    CongruentProduct(WORD, s, s, Wrap(b - cs), b' - cs');
    WrapCongruent(s * Wrap(b - cs), s * (b' - cs'));
    CongruentCombination(WORD, a, a', Wrap(s * Wrap(b - cs)), s * (b' - cs'), 1, -1);
    WrapCongruent(a - Wrap(s * Wrap(b - cs)), a' - s * (b' - cs'));
  }

  /** The matrix of an accepted run is the exact product of its steps. */
  lemma ChainIsProduct(w: Form, qs: seq<int>)
    requires qs != [] && IsRun(w, qs) && Passed(qs)
    ensures Chain(qs) == Mul(Chain(qs[..|qs| - 1]), StepMat(qs[|qs| - 1]))
  {
    var prev, s := qs[..|qs| - 1], qs[|qs| - 1];
    PassedIsUnimodular(prev);
    QuotientFits(StateAt(w, prev).b, StateAt(w, prev).c);
    AcceptedIsExact(Chain(prev), s);
  }

  lemma ActStep(w: Form, qs: seq<int>)
    requires qs != [] && IsRun(w, qs) && Passed(qs)
    ensures Act(w, Chain(qs)) == FlipStep(Act(w, Chain(qs[..|qs| - 1])), qs[|qs| - 1])
  {
    var prev, s := qs[..|qs| - 1], qs[|qs| - 1];
    ChainIsProduct(w, qs);
    ActMul(w, Chain(prev), StepMat(s));
    FlipIsAct(Act(w, Chain(prev)), s);
  }

  /** The wrapped state is congruent to what the matrix makes of the start. */
  lemma {:induction false} StateCongruent(w: Form, qs: seq<int>)
    requires IsRun(w, qs) && Passed(qs)
    ensures CongruentForms(StateAt(w, qs), Act(w, Chain(qs)))
  {
    if qs == [] {
      StartForms(w);
      EqualCongruent(StateAt(w, qs), Act(w, Chain(qs)));
    } else {
      var prev := qs[..|qs| - 1];
      StateCongruent(w, prev);
      StepCongruent(StateAt(w, prev), Act(w, Chain(prev)), qs[|qs| - 1]);
      NextCongruent(w, qs, ApproxStep(StateAt(w, prev), qs[|qs| - 1]), FlipStep(Act(w, Chain(prev)), qs[|qs| - 1]));
    }
  }

  lemma StartForms(w: Form)
    ensures StateAt(w, []) == w && Act(w, Chain([])) == w
  {
    EmptyChain();
    ActNegated(w, Chain([]));
  }

  lemma EmptyChain()
    ensures Chain([]) == IDENTITY
  {
  }

  lemma EqualCongruent(v: Form, w: Form)
    requires v == w
    ensures CongruentForms(v, w)
  {
    CongruentRefl(WORD, w.a);
    CongruentRefl(WORD, w.b);
    CongruentRefl(WORD, w.c);
  }

  lemma NextCongruent(w: Form, qs: seq<int>, v: Form, f: Form)
    requires qs != [] && IsRun(w, qs) && Passed(qs) && CongruentForms(v, f)
    requires v == ApproxStep(StateAt(w, qs[..|qs| - 1]), qs[|qs| - 1])
    requires f == FlipStep(Act(w, Chain(qs[..|qs| - 1])), qs[|qs| - 1])
    ensures CongruentForms(StateAt(w, qs), Act(w, Chain(qs)))
  {
    ActStep(w, qs);
  }

  /** Approximations that leave room for a step. */
  predicate Roomy(w: Form) {
    0 < w.a < LIMB_LIMIT / 2 && 0 < w.c < LIMB_LIMIT / 2 && Magnitude(w.b) <= LIMB_LIMIT / 2
  }

  /** The new middle coefficient is at most c, however the rest wraps. */
  lemma MiddleIsSmall(w: Form, s: int)
    requires w.c > 0 && Magnitude(w.b) + w.c < LIMB_LIMIT && s == StepQuotient(w.b, w.c)
    ensures ApproxStep(w, s).b == 2 * (w.c * s) - w.b && Magnitude(ApproxStep(w, s).b) <= w.c
  {
    NearestQuotient(w.b, w.c);
    CongruentRefl(WORD, w.b);
    CongruentRefl(WORD, w.c * s);
    WrapCongruent(w.c * s, w.c * s);
    MiddleCongruent(w.b, w.b, Wrap(w.c * s), w.c * s);
    CongruentInRange(WORD, ApproxStep(w, s).b, 2 * (w.c * s) - w.b);
  }

  /** After the first step |b| <= a, and a is at most the first c, smaller after two. */
  lemma {:induction false} StateBounds(w: Form, qs: seq<int>)
    requires Roomy(w) && IsRun(w, qs) && qs != []
    ensures var v := StateAt(w, qs);
            Magnitude(v.b) <= v.a && 0 < v.a <= w.c && (|qs| > 1 ==> v.a < w.c) && FitsLimb(v.c)
  {
    var prev, s := qs[..|qs| - 1], qs[|qs| - 1];
    if prev != [] {
      StateBounds(w, prev);
    }
    MiddleIsSmall(StateAt(w, prev), s);
  }

  lemma ActNegated(f: Form, m: Mat)
    ensures m == IDENTITY || m == Negated(IDENTITY) ==> Act(f, m) == f
  {
  }

  /** The first steps when |b| == a < c: the run exchanges, translates and ends. */
  lemma BoundaryRun(w: Form, qs: seq<int>)
    requires Roomy(w) && IsRun(w, qs) && |qs| >= 2 && Magnitude(w.b) == w.a < w.c
    ensures qs[0] == 0 && (qs[1] == 1 || qs[1] == -1) && |qs| == 2
    decreases |qs|
  {
    if |qs| > 2 {
      BoundaryRun(w, qs[..|qs| - 1]);
      TwoSteps(w, qs[..|qs| - 1]);
      assert false;
    }
    TwoSteps(w, qs);
  }

  lemma TwoSteps(w: Form, qs: seq<int>)
    requires Roomy(w) && IsRun(w, qs) && |qs| == 2 && Magnitude(w.b) == w.a < w.c
    ensures qs[0] == 0 && (qs[1] == 1 || qs[1] == -1) && !Goes(w, qs)
  {
    var one := qs[..1];
    assert one[..0] == [] && one[0] == qs[0];
    assert StateAt(w, []) == w;
    NearestQuotient(w.b, w.c);
    ExchangeStep(w);
    var v := StateAt(w, one);
    assert v == Form(w.c, -w.b, w.a);
    NearestQuotient(v.b, v.c);
    EqualStep(v, qs[1]);
  }

  lemma ExchangeStep(w: Form)
    requires Roomy(w)
    ensures ApproxStep(w, 0) == Form(w.c, -w.b, w.a)
  {
    NoWrap(0);
    NoWrap(w.b);
    NoWrap(-w.b);
    NoWrap(w.a);
  }

  lemma EqualStep(v: Form, s: int)
    requires Roomy(v) && (s == 1 || s == -1) && v.c * s == v.b
    ensures ApproxStep(v, s) == Form(v.c, v.b, v.a)
  {
    NoWrap(v.b);
    NoWrap(-v.b);
    NoWrap(2 * v.b);
    NoWrap(0);
    NoWrap(v.a);
    assert s * 0 == 0;
  }

  lemma OneStepMat(qs: seq<int>)
    requires |qs| == 1
    ensures Chain(qs).p == 0
  {
    assert qs[..0] == [];
    assert Chain([]) == IDENTITY;
  }

  lemma FirstMat(w: Form, s: int)
    requires IsRun(w, [s]) && Passed([s])
    ensures Chain([s]) == Mat(0, -1, 1, s)
  {
    assert [s][..0] == [] && Chain([]) == IDENTITY;
    ChainIsProduct(w, [s]);
    MulStep(IDENTITY, s);
  }

  lemma SecondMat(w: Form, s: int, t: int)
    requires IsRun(w, [s, t]) && Passed([s, t])
    ensures Chain([s, t]) == Mat(-1, -t, s, -1 + s * t)
  {
    assert [s, t][..1] == [s];
    FirstMat(w, s);
    ChainIsProduct(w, [s, t]);
    MulStep(Mat(0, -1, 1, s), t);
  }

  /** A run from a form that is not reduced never ends on plus or minus the identity,
      whatever the truncated coefficients turn into on the way. */
  lemma RunIsNoUnit(w: Form, qs: seq<int>)
    requires Roomy(w) && (Magnitude(w.b) >= w.a || Magnitude(w.b) >= w.c)
    requires IsRun(w, qs) && Passed(qs) && qs != []
    ensures Chain(qs) != IDENTITY && Chain(qs) != Negated(IDENTITY)
  {
    if |qs| == 1 {
      OneStepMat(qs);
    } else if Chain(qs) == IDENTITY || Chain(qs) == Negated(IDENTITY) {
      UnitReturns(w, qs);
      StateBounds(w, qs);
      NoReturn(w, qs);
    }
  }

  lemma NoReturn(w: Form, qs: seq<int>)
    requires Roomy(w) && IsRun(w, qs) && Passed(qs) && |qs| >= 2 && Magnitude(w.b) == w.a < w.c
    ensures Chain(qs).q != 0
  {
    BoundaryRun(w, qs);
    assert qs == [qs[0], qs[1]];
    SecondMat(w, qs[0], qs[1]);
  }

  /** A run that ends on plus or minus the identity is back where it started. */
  lemma UnitReturns(w: Form, qs: seq<int>)
    requires Roomy(w) && IsRun(w, qs) && Passed(qs) && qs != []
    requires Chain(qs) == IDENTITY || Chain(qs) == Negated(IDENTITY)
    ensures StateAt(w, qs).a == w.a && StateAt(w, qs).b == w.b
  {
    StateCongruent(w, qs);
    ActNegated(w, Chain(qs));
    StateBounds(w, qs);
    SameForms(StateAt(w, qs), w, Act(w, Chain(qs)));
  }

  lemma SameForms(v: Form, w: Form, x: Form)
    requires CongruentForms(v, x) && x == w && Roomy(w) && Magnitude(v.b) <= v.a <= w.c
    ensures v.a == w.a && v.b == w.b
  {
    CongruentInRange(WORD, v.a, w.a);
    CongruentInRange(WORD, v.b, w.b);
  }

  // ----- On exact approximations a run reduces -----

  /** Some coefficient is smaller than the middle one. */
  predicate TooLong(f: Form) {
    Magnitude(f.b) > f.a || Magnitude(f.b) > f.c
  }

  function Weight(f: Form): int {
    f.a + f.c
  }

  predicate Inside(f: Form, M: int) {
    0 < f.a <= M && 0 < f.c <= M && Magnitude(f.b) <= M
  }

  lemma FlipDiscriminants(f: Form, s: int)
    ensures var g := FlipStep(f, s); 4 * (f.c * (g.c - f.a)) == g.b * g.b - f.b * f.b
  {
    var g := FlipStep(f, s);
    FlipTranslate(f, s);
    EquivDisc(f, g);
    Reassociate(4, f.a, f.c);
    Reassociate(4, g.a, g.c);
    Distribute(f.c, g.c, f.a);
  }

  lemma SquareOrder(x: int, y: int)
    ensures Magnitude(x) == Magnitude(y) ==> x * x == y * y
    ensures Magnitude(x) < Magnitude(y) ==> x * x < y * y
  {
    NegateProduct(x, x);
    NegateProduct(-x, x);
    NegateProduct(y, y);
    NegateProduct(-y, y);
    SquaresGrow(Magnitude(x), Magnitude(y));
  }

  lemma SquaresGrow(x: nat, y: nat)
    ensures x < y ==> x * x < y * y
  {
    if x < y {
      ProductMonotone(x, x, y);
      Distribute(y, y, x);
      ProductGrows(y, y - x);
    }
  }

  /** What a step does that leaves |b| at most c: nothing to the sizes for |b| <= c, and
      otherwise the new c is smaller than the old a. */
  lemma FlipShrinks(f: Form, s: int)
    requires f.c > 0 && Magnitude(2 * (f.c * s) - f.b) <= f.c && (Magnitude(f.b) < f.c ==> s == 0)
    ensures var g := FlipStep(f, s);
            && g.a == f.c && Magnitude(g.b) <= g.a && g.c <= f.a
            && (Magnitude(f.b) > f.c ==> g.c < f.a)
            && (Magnitude(f.b) <= f.c ==> g.c == f.a && Magnitude(g.b) == Magnitude(f.b))
  {
    var g := FlipStep(f, s);
    FlipParts(f, s);
    FlipDiscriminants(f, s);
    SquareOrder(g.b, f.b);
    if Magnitude(f.b) <= f.c {
      OnTheEdge(f.b, f.c, s);
      ProductGrows(f.c, g.c - f.a);
      ProductGrows(f.c, f.a - g.c);
    } else {
      ProductGrows(f.c, g.c - f.a);
    }
  }

  lemma OnTheEdge(b: int, c: int, s: int)
    requires c > 0 && Magnitude(b) <= c && Magnitude(2 * (c * s) - b) <= c && (Magnitude(b) < c ==> s == 0)
    ensures Magnitude(2 * (c * s) - b) == Magnitude(b)
  {
    if Magnitude(b) == c {
      ProductGrows(c, s);
      ProductGrows(c, -s);
      NegateProduct(c, s);
    }
  }

  /** Without overflow the wrapped step is the exact one. */
  lemma StepIsExact(w: Form, s: int)
    requires Roomy(w) && PositiveDefinite(w) && s == StepQuotient(w.b, w.c)
    ensures ApproxStep(w, s) == FlipStep(w, s) && IsNearest(s, w.b, w.c) && FlipStep(w, s).c > 0
  {
    var g := FlipStep(w, s);
    NearestQuotient(w.b, w.c);
    FlipShrinks(w, s);
    FlipTranslate(w, s);
    EquivPositiveDefinite(w, g);
    PositiveC(g);
    EqualCongruent(w, w);
    StepCongruent(w, w, s);
    CongruentInRange(WORD, ApproxStep(w, s).b, g.b);
    CongruentInRange(WORD, ApproxStep(w, s).c, g.c);
  }

  /** On a form that fits, the approximations are exact all along. */
  lemma {:induction false} ExactRun(w: Form, qs: seq<int>, M: int)
    requires PositiveDefinite(w) && Inside(w, M) && M < LIMB_LIMIT / 2 && IsRun(w, qs) && Passed(qs)
    ensures var v := StateAt(w, qs); v == Act(w, Chain(qs)) && PositiveDefinite(v) && Inside(v, M)
  {
    if qs == [] {
      StartForms(w);
    } else {
      var prev, s := qs[..|qs| - 1], qs[|qs| - 1];
      ExactRun(w, prev, M);
      ExactNext(w, qs, StateAt(w, prev), s, M);
    }
  }

  lemma ExactNext(w: Form, qs: seq<int>, v: Form, s: int, M: int)
    requires qs != [] && IsRun(w, qs) && Passed(qs) && s == qs[|qs| - 1]
    requires v == StateAt(w, qs[..|qs| - 1]) == Act(w, Chain(qs[..|qs| - 1]))
    requires PositiveDefinite(v) && Inside(v, M) && M < LIMB_LIMIT / 2
    ensures var g := FlipStep(v, s);
            && StateAt(w, qs) == g == Act(w, Chain(qs)) && PositiveDefinite(g) && Inside(g, M)
            && Weight(g) <= Weight(v) && (Magnitude(v.b) > v.c ==> Weight(g) < Weight(v))
  {
    StepIsExact(v, s);
    FlipShrinks(v, s);
    FlipTranslate(v, s);
    EquivPositiveDefinite(v, FlipStep(v, s));
    ActStep(w, qs);
  }

  lemma {:induction false} WeightFalls(w: Form, qs: seq<int>, k: nat, M: int)
    requires PositiveDefinite(w) && Inside(w, M) && M < LIMB_LIMIT / 2 && IsRun(w, qs) && Passed(qs) && k <= |qs|
    ensures Weight(StateAt(w, qs)) <= Weight(StateAt(w, qs[..k]))
    ensures k < |qs| && Magnitude(StateAt(w, qs[..k]).b) > StateAt(w, qs[..k]).c ==>
              Weight(StateAt(w, qs)) < Weight(StateAt(w, qs[..k]))
  {
    if k == |qs| {
      assert qs[..k] == qs;
    } else {
      var prev := qs[..|qs| - 1];
      assert prev[..k] == qs[..k];
      WeightFalls(w, prev, k, M);
      ExactRun(w, prev, M);
      ExactNext(w, qs, StateAt(w, prev), qs[|qs| - 1], M);
    }
  }

  // ----- The first steps are accepted -----

  /** The middle coefficient is not so much longer than the others that a quotient could be
      too large. */
  predicate Level(w: Form) {
    Magnitude(w.b) <= 0x4_0000 * w.a && Magnitude(w.b) <= 0x4_0000 * w.c
  }

  lemma QuotientIsShort(s: int, b: int, c: int)
    requires c > 0 && IsNearest(s, b, c) && Magnitude(b) <= 0x4_0000 * c
    ensures Magnitude(s) <= 0x4_0000
  {
    if Magnitude(s) > 0x4_0000 {
      ProductMonotone(c, 0x4_0001, Magnitude(s));
    }
  }

  lemma FirstIsBelow(s: int)
    requires Magnitude(s) <= 0x4_0000
    ensures BelowThreshold(NextMat(Chain([]), s)) && NextMat(Chain([]), s) == Mat(0, -1, 1, s)
  {
    EmptyChain();
    NoWrap(0);
    NoWrap(-1);
    NoWrap(s);
    ThresholdIsPowerOfTwo();
    OrBelow(31, 1, Magnitude(s));
  }

  lemma SecondIsBelow(s: int, t: int)
    requires Magnitude(s) <= 1 && Magnitude(t) <= 0x4_0000
    ensures BelowThreshold(NextMat(Mat(0, -1, 1, s), t))
  {
    assert -0x4_0000 <= t * s <= 0x4_0000;
    NoWrap(-t);
    NoWrap(t * s);
    NoWrap(-1 + t * s);
    ThresholdIsPowerOfTwo();
    OrBelow(31, Magnitude(-t), Magnitude(-1 + t * s));
  }

  /** At least one step is accepted. */
  lemma FirstStepTaken(w: Form, qs: seq<int>)
    requires Roomy(w) && Level(w) && Ends(w, qs)
    ensures qs != []
  {
    if qs == [] {
      var s := StepQuotient(w.b, w.c);
      NearestQuotient(w.b, w.c);
      QuotientIsShort(s, w.b, w.c);
      FirstIsBelow(s);
    }
  }

  /** After an exchange, so is a second. */
  lemma SecondStepTaken(w: Form, qs: seq<int>)
    requires Roomy(w) && Level(w) && PositiveDefinite(w) && w.a < Magnitude(w.b) <= w.c
    requires IsRun(w, qs) && Passed(qs) && Ends(w, qs)
    ensures |qs| >= 2
  {
    FirstStepTaken(w, qs);
    if |qs| == 1 {
      assert qs == [qs[0]] && qs[..0] == [];
      StepIsExact(w, qs[0]);
      FlipShrinks(w, qs[0]);
      ExchangeGoesOn(w, qs[0], FlipStep(w, qs[0]));
    }
  }

  lemma OneStep(w: Form, s: int)
    ensures StateAt(w, [s]) == ApproxStep(w, s) && Chain([s]) == NextMat(Chain([]), s)
  {
    assert [s][..0] == [] && StateAt(w, []) == w;
  }

  lemma ExchangeGoesOn(w: Form, s: int, v: Form)
    requires Roomy(w) && Level(w) && w.a < Magnitude(w.b) <= w.c && s == StepQuotient(w.b, w.c)
    requires v == ApproxStep(w, s) && v.a == w.c && v.c == w.a && Magnitude(v.b) == Magnitude(w.b)
    ensures !Ends(w, [s])
  {
    OneStep(w, s);
    NearestQuotient(w.b, w.c);
    QuotientIsShort(s, w.b, w.c);
    FirstIsBelow(s);
    UnitQuotient(s, w.b, w.c);
    NextIsBelow(v, s);
  }

  lemma UnitQuotient(s: int, b: int, c: int)
    requires c > 0 && IsNearest(s, b, c) && Magnitude(b) <= c
    ensures Magnitude(s) <= 1
  {
  }

  lemma NextIsBelow(v: Form, s: int)
    requires 0 < v.c < v.a < LIMB_LIMIT / 2 && Magnitude(v.b) <= 0x4_0000 * v.c && Magnitude(v.b) <= LIMB_LIMIT / 2
    requires Magnitude(s) <= 1
    ensures BelowThreshold(NextMat(Mat(0, -1, 1, s), StepQuotient(v.b, v.c)))
  {
    var t := StepQuotient(v.b, v.c);
    NearestQuotient(v.b, v.c);
    QuotientIsShort(t, v.b, v.c);
    SecondIsBelow(s, t);
  }

  /** On exact approximations of a form with a long middle coefficient a whole run makes a + c
      smaller. */
  lemma RunShrinks(w: Form, qs: seq<int>, M: int)
    requires PositiveDefinite(w) && Inside(w, M) && M < LIMB_LIMIT / 2 && Level(w) && TooLong(w)
    requires IsRun(w, qs) && Passed(qs) && Ends(w, qs)
    ensures Weight(Act(w, Chain(qs))) < Weight(w) && Inside(Act(w, Chain(qs)), M)
  {
    FirstStepTaken(w, qs);
    ExactRun(w, qs, M);
    assert qs[..0] == [] && StateAt(w, []) == w;
    WeightFalls(w, qs, 0, M);
    if Magnitude(w.b) <= w.c {
      SecondStepTaken(w, qs);
      ExchangeKeeps(w, qs[..1], qs, M);
      WeightFalls(w, qs, 1, M);
    }
  }

  lemma ExchangeKeeps(w: Form, one: seq<int>, qs: seq<int>, M: int)
    requires Roomy(w) && PositiveDefinite(w) && w.a < Magnitude(w.b) <= w.c
    requires |qs| >= 2 && one == qs[..1] && IsRun(w, qs)
    ensures var v := StateAt(w, one); v.a == w.c && v.c == w.a && Magnitude(v.b) == Magnitude(w.b)
  {
    PrefixIsRun(w, qs, 1);
    assert one[..0] == [];
    StepIsExact(w, one[0]);
    FlipShrinks(w, one[0]);
  }

  lemma {:induction false} PrefixIsRun(w: Form, qs: seq<int>, k: nat)
    requires IsRun(w, qs) && k <= |qs|
    ensures IsRun(w, qs[..k])
    decreases |qs|
  {
    if k == |qs| {
      assert qs[..k] == qs;
    } else {
      PrefixIsRun(w, qs[..|qs| - 1], k);
      assert qs[..|qs| - 1][..k] == qs[..k];
    }
  }

  // ----- What the window shows of a form -----

  /** n shifted so that a number of hi bits has 62. */
  function TopBits(n: nat, hi: nat): nat {
    if hi >= 62 then n / Pow2(hi - 62) else n * Pow2(62 - hi)
  }

  lemma ShiftedDown(n: nat, p: nat, q: nat)
    requires p > 0 && q > 0
    ensures p * q > 0 && n * p / (p * q) == n / q
  {
    QuotientOfQuotient(n * p, p, q);
    Quotient(n, p);
  }

  lemma ShiftedExactly(n: nat, p: nat, q: nat)
    requires q > 0
    ensures n * (p * q) / q == n * p && n * (p * q) % q == 0
  {
    Reassociate(n, p, q);
    Quotient(n * p, q);
  }

  /** The quotient of the leading bits of n, from which both signs' entries are made. */
  lemma LeadingQuotient(n: nat, r: int, e: nat, hi: nat)
    requires n > 0 && e == BitLength(n) <= hi && r == Leading(n).r
    ensures r > 0 && r / Pow2(hi + 1 - e) == TopBits(n, hi) && (hi <= 62 ==> r % Pow2(hi + 1 - e) == 0)
  {
    LeadingBits(n);
    if e >= 63 {
      QuotientOfQuotient(n, Pow2(e - 63), Pow2(hi + 1 - e));
      Pow2Add(e - 63, hi + 1 - e);
    } else if hi >= 62 {
      Pow2Add(63 - e, hi - 62);
      ShiftedDown(n, Pow2(63 - e), Pow2(hi - 62));
      WholeShift(n, e, hi);
    } else {
      Pow2Add(62 - hi, hi + 1 - e);
      ShiftedExactly(n, Pow2(62 - hi), Pow2(hi + 1 - e));
    }
  }

  lemma WholeShift(n: nat, e: nat, hi: nat)
    requires e < 63 && e <= hi
    ensures hi == 62 ==> n * Pow2(63 - e) % Pow2(hi + 1 - e) == 0
  {
    if hi == 62 {
      Quotient(n, Pow2(63 - e));
    }
  }

  /** The entry of a positive number is its leading bits. */
  lemma EntryIsTop(n: nat, hi: nat)
    requires n > 0 && BitLength(n) <= hi
    ensures Entry(n, hi) == TopBits(n, hi)
  {
    LeadingQuotient(n, Leading(n).r, BitLength(n), hi);
  }

  lemma NegatedQuotient(r: int, d: int, q: int)
    requires r >= 0 && d > 0 && q == r / d
    ensures Magnitude(-r / d) >= q && (r % d == 0 ==> -r / d == -q)
  {
    var m := r % d;
    assert r == q * d + m;
    if m == 0 {
      NegateProduct(q, d);
      Quotient(-q, d);
    } else {
      NegateProduct(q + 1, d);
      Distribute(d, q, 1);
      QuotientIs(-r, d, -(q + 1), d - m);
    }
    DivideMonotone(0, r, d);
  }

  lemma NegatedQuotientBelow(r: int, d: int, k: nat)
    requires r >= 0 && d > 0 && r < d * k
    ensures Magnitude(-r / d) <= k
  {
    var q, m := r / d, r % d;
    assert r == q * d + m;
    DivideBelow(r, d, k);
    if m == 0 {
      NegatedQuotient(r, d, q);
    } else {
      NegateProduct(q + 1, d);
      Distribute(d, q, 1);
      QuotientIs(-r, d, -(q + 1), d - m);
    }
  }

  lemma NegativeLeading(n: int)
    requires n < 0
    ensures Leading(n).r == -(Leading(-n).r as int) && Leading(n).e == Leading(-n).e == BitLength(-n)
  {
  }

  /** A negative number's entry is rounded away from zero. */
  lemma NegativeEntry(n: int, hi: nat)
    requires n < 0 && Leading(n).e == BitLength(-n) <= hi
    ensures Magnitude(Entry(n, hi)) >= TopBits(-n, hi)
    ensures hi <= 62 ==> Entry(n, hi) == -(TopBits(-n, hi) as int)
  {
    var e, r: int := BitLength(-n), Leading(-n).r;
    NegativeLeading(n);
    LeadingQuotient(-n, r, e, hi);
    NegatedQuotient(r, Pow2(hi + 1 - e), TopBits(-n, hi));
  }

  lemma ShiftBounds(r: int, k: nat, p: int)
    requires Pow2(62) <= r < Pow2(63) && 1 <= k <= 32 && p == Pow2(k)
    ensures Pow2(62 - k) <= r / p < Pow2(63 - k) && Magnitude(-r / p) <= Pow2(63 - k)
  {
    Pow2Add(k, 62 - k);
    Pow2Add(k, 63 - k);
    DivideAtLeast(r, p, Pow2(62 - k));
    DivideBelow(r, p, Pow2(63 - k));
    NegatedQuotientBelow(r, p, Pow2(63 - k));
  }

  /** How large an entry is, by the length of the number. */
  lemma EntryBounds(n: int, e: nat, hi: nat)
    requires n != 0 && e == BitLength(Magnitude(n)) && e <= hi <= e + EXP_THRESH
    ensures Pow2(61 - (hi - e)) <= Magnitude(Entry(n, hi)) <= Pow2(62 - (hi - e))
    ensures n > 0 ==> 0 < Entry(n, hi) < Pow2(62 - (hi - e))
  {
    var k, r: int := hi + 1 - e, Leading(Magnitude(n)).r;
    LeadingBits(Magnitude(n));
    ShiftBounds(r, k, Pow2(k));
    if n < 0 {
      NegativeLeading(n);
      NegatedQuotient(r, Pow2(k), r / Pow2(k));
    }
  }

  lemma TopBitsMonotone(x: nat, y: nat, hi: nat)
    requires x <= y
    ensures TopBits(x, hi) <= TopBits(y, hi)
  {
    if hi >= 62 {
      DivideMonotone(x, y, Pow2(hi - 62));
    } else {
      ProductMonotone(Pow2(62 - hi), x, y);
    }
  }

  /** A middle coefficient that is longer than another shows as one at least as long. */
  lemma LongShows(b: int, c: nat, hi: nat)
    requires Magnitude(b) > c > 0 && BitLength(Magnitude(b)) <= hi && BitLength(c) <= hi
    ensures Magnitude(Entry(b, hi)) >= Entry(c, hi)
  {
    EntryIsTop(c, hi);
    TopBitsMonotone(c, Magnitude(b), hi);
    if b > 0 {
      EntryIsTop(b, hi);
    } else {
      NegativeEntry(b, hi);
    }
  }

  /** On a definite form b is at most 17 bits longer than a coefficient, if that is not more
      than 31 bits shorter than the other. */
  lemma LengthOfMiddle(f: Form, ea: nat, eb: nat, ec: nat)
    requires PositiveDefinite(f) && f.c > 0 && f.b != 0
    requires ea == BitLength(f.a) && eb == BitLength(Magnitude(f.b)) && ec == BitLength(f.c)
    ensures 2 * eb <= ea + ec + 3
  {
    SquareOrder(f.b, Magnitude(f.b));
    ProductBelow(f.a, f.c, Pow2(ea), Pow2(ec));
    SquareAtLeast(Magnitude(f.b), Pow2(eb - 1));
    Reassociate(4, f.a, f.c);
    LengthOrder(ea, eb, ec, f.a * f.c, Magnitude(f.b) * Magnitude(f.b));
  }

  lemma LengthOrder(ea: nat, eb: nat, ec: nat, x: int, y: int)
    requires eb >= 1 && x <= Pow2(ea) * Pow2(ec) && Pow2(eb - 1) * Pow2(eb - 1) <= y < 4 * x
    ensures 2 * eb <= ea + ec + 3
  {
    Pow2Add(ea, ec);
    Pow2Add(ea + ec, 2);
    Pow2Add(eb - 1, eb - 1);
    assert Pow2(2) == 4;
    Pow2Order(2 * eb - 2, ea + ec + 2);
  }

  lemma Pow2Order(m: nat, n: nat)
    ensures m >= n ==> Pow2(m) >= Pow2(n)
  {
    if m >= n {
      Pow2Monotone(n, m);
    }
  }

  lemma SquareAtLeast(n: nat, p: nat)
    requires n >= p
    ensures n * n >= p * p
  {
    ProductMonotone(n, p, n);
    ProductMonotone(p, p, n);
  }

  lemma ProductBelow(x: nat, y: nat, X: nat, Y: nat)
    requires x < X && y < Y
    ensures x * y <= X * Y
  {
    ProductMonotone(x, y, Y);
    ProductMonotone(Y, x, X);
  }

  lemma LevelEntries(b: int, c: nat, eb: nat, ec: nat, hi: nat)
    requires b != 0 && c > 0 && eb == BitLength(Magnitude(b)) && ec == BitLength(c)
    requires eb <= hi <= eb + EXP_THRESH && ec <= hi <= ec + EXP_THRESH && eb <= ec + 17
    ensures Magnitude(Entry(b, hi)) <= 0x4_0000 * Entry(c, hi)
  {
    EntryBounds(b, eb, hi);
    EntryBounds(c, ec, hi);
    Pow2Add(18, 61 - (hi - ec));
    Pow2Monotone(62 - (hi - eb), 18 + 61 - (hi - ec));
    EighteenBits();
    ProductMonotone(0x4_0000, Pow2(61 - (hi - ec)), Entry(c, hi));
  }

  lemma EighteenBits()
    ensures Pow2(18) == 0x4_0000
  {
    assert Pow2(8) == 0x100;
    Pow2Add(8, 10);
  }

  function WindowForm(f: Form): Form {
    var w := Window(f);
    Form(w.1, w.2, w.3)
  }

  /** The approximations of a definite form that the window takes leave room, are level, and
      show a long middle coefficient. */
  lemma WindowIsFit(f: Form)
    requires PositiveDefinite(f) && Window(f).0
    ensures Roomy(WindowForm(f)) && Level(WindowForm(f))
    ensures TooLong(f) ==>
              Magnitude(WindowForm(f).b) >= WindowForm(f).a || Magnitude(WindowForm(f).b) >= WindowForm(f).c
  {
    PositiveC(f);
    var a, b, c := Leading(f.a), Leading(f.b), Leading(f.c);
    var hi := Max3(a.e, b.e, c.e);
    EntryRoom(f.a, a.e, hi);
    EntryRoom(f.c, c.e, hi);
    if f.b == 0 {
      ZeroEntry(hi);
    } else {
      EntryRoom(f.b, b.e, hi);
      LengthOfMiddle(f, a.e, b.e, c.e);
      LevelEntries(f.b, f.a, b.e, a.e, hi);
      LevelEntries(f.b, f.c, b.e, c.e, hi);
      if Magnitude(f.b) > f.a {
        LongShows(f.b, f.a, hi);
      }
      if Magnitude(f.b) > f.c {
        LongShows(f.b, f.c, hi);
      }
    }
  }

  lemma ZeroEntry(hi: nat)
    ensures Entry(0, hi) == 0
  {
    QuotientIs(0, Pow2(hi + 1), 0, 0);
  }

  lemma EntryRoom(n: int, e: nat, hi: nat)
    requires n != 0 && e == BitLength(Magnitude(n)) && e <= hi <= e + EXP_THRESH
    ensures Magnitude(Entry(n, hi)) <= LIMB_LIMIT / 2
    ensures n > 0 ==> 0 < Entry(n, hi) < LIMB_LIMIT / 2
  {
    EntryBounds(n, e, hi);
    Pow2Monotone(62 - (hi - e), 62);
    Pow2OfLimb();
  }

  // ----- Exact windows -----

  function Scaled(k: int, f: Form): Form {
    Form(k * f.a, k * f.b, k * f.c)
  }

  /** Coefficients of at most 62 bits. */
  predicate Short(f: Form) {
    Inside(f, LIMB_LIMIT / 2 - 1)
  }

  lemma ShortLength(n: nat)
    requires n < LIMB_LIMIT / 2
    ensures BitLength(n) <= 62
  {
    if BitLength(n) > 62 {
      Pow2Monotone(62, BitLength(n) - 1);
      Pow2OfLimb();
    }
  }

  lemma ExactEntry(n: int, e: nat, hi: nat)
    requires e == Leading(n).e <= hi <= 62
    ensures Entry(n, hi) == Pow2(62 - hi) * n
  {
    if n == 0 {
      ZeroEntry(hi);
    } else if n > 0 {
      ExactTop(n, hi);
      EntryIsTop(n, hi);
    } else {
      ExactTop(-n, hi);
      NegativeEntry(n, hi);
      NegateProduct(Pow2(62 - hi), n);
    }
  }

  lemma ExactTop(n: nat, hi: nat)
    requires hi <= 62
    ensures TopBits(n, hi) == Pow2(62 - hi) * n
  {
    if hi == 62 {
      assert Pow2(0) == 1;
    }
  }

  lemma ScaledBelow(n: nat, e: nat, hi: nat)
    requires n < Pow2(e) && e <= hi <= 62
    ensures Pow2(62 - hi) * n < LIMB_LIMIT / 2
  {
    Pow2Monotone(e, hi);
    Pow2Add(62 - hi, hi);
    ProductMonotone(Pow2(62 - hi), n, Pow2(hi) - 1);
    Distribute(Pow2(62 - hi), Pow2(hi), 1);
    Pow2OfLimb();
  }

  lemma LeadingLength(n: int)
    ensures Magnitude(n) < Pow2(Leading(n).e)
  {
  }

  lemma ExactBelow(n: int, hi: nat)
    requires Leading(n).e <= hi <= 62
    ensures Entry(n, hi) == Pow2(62 - hi) * n && Magnitude(Entry(n, hi)) < LIMB_LIMIT / 2
    ensures n > 0 ==> Entry(n, hi) > 0
  {
    ExactEntry(n, Leading(n).e, hi);
    LeadingLength(n);
    ScaledBelow(Magnitude(n), Leading(n).e, hi);
    NegateProduct(Pow2(62 - hi), n);
    ProductGrows(Pow2(62 - hi), n);
  }

  /** Short forms are seen exactly, up to a factor. */
  lemma ShortIsExact(f: Form) returns (k: int)
    requires Short(f) && Window(f).0
    ensures k > 0 && WindowForm(f) == Scaled(k, f) && Short(WindowForm(f))
  {
    ShortLength(f.a);
    ShortLength(Magnitude(f.b));
    ShortLength(f.c);
    var hi := Max3(Leading(f.a).e, Leading(f.b).e, Leading(f.c).e);
    ExactBelow(f.a, hi);
    ExactBelow(f.b, hi);
    ExactBelow(f.c, hi);
    k := Pow2(62 - hi);
  }

  // ----- What one round does -----

  /** g comes from f by a substitution other than plus or minus the identity. */
  ghost predicate Moved(f: Form, g: Form) {
    exists m: Mat :: Det(m) == 1 && m != IDENTITY && m != Negated(IDENTITY) && Act(f, m) == g
  }

  /** The matrix found for a form with a long middle coefficient. */
  ghost predicate FoundFor(f: Form, m: Mat, qs: seq<int>) {
    var w := WindowForm(f);
    m == Chain(qs) && Passed(qs) && IsRun(w, qs) && Ends(w, qs)
  }

  lemma RoundMoves(f: Form, m: Mat, qs: seq<int>)
    requires PositiveDefinite(f) && TooLong(f) && Window(f).0 && FoundFor(f, m, qs)
    ensures Moved(f, Act(f, m))
  {
    WindowIsFit(f);
    FirstStepTaken(WindowForm(f), qs);
    RunIsNoUnit(WindowForm(f), qs);
    PassedIsUnimodular(qs);
  }

  lemma ScaledAct(k: int, f: Form, m: Mat)
    ensures Act(Scaled(k, f), m) == Scaled(k, Act(f, m))
  {
    ScaledEnd(k, f.a, f.b, f.c, m.p, m.r);
    ScaledEnd(k, f.a, f.b, f.c, m.q, m.s);
    ScaledMiddle(k, f.a, f.b, f.c, m.p * m.q, m.p * m.s + m.q * m.r, m.r * m.s);
    MiddleTerms(k * f.a, k * f.c, m);
    MiddleTerms(f.a, f.c, m);
  }

  lemma ScaledEnd(k: int, a: int, b: int, c: int, x: int, y: int)
    ensures k * a * x * x + k * b * x * y + k * c * y * y == k * (a * x * x + b * x * y + c * y * y)
  {
    Factor(k, a, x, x);
    Factor(k, b, x, y);
    Factor(k, c, y, y);
    Distribute(k, a * x * x, b * x * y);
    Distribute(k, a * x * x + b * x * y, c * y * y);
  }

  lemma Factor(k: int, a: int, x: int, y: int)
    ensures k * a * x * y == k * (a * x * y)
  {
    Reassociate(k, a, x);
    Reassociate(k, a * x, y);
  }

  lemma MiddleTerms(a: int, c: int, m: Mat)
    ensures 2 * a * m.p * m.q == 2 * (a * (m.p * m.q)) && 2 * c * m.r * m.s == 2 * (c * (m.r * m.s))
  {
    Regroup(a, m.p, m.q);
    Regroup(c, m.r, m.s);
    Swap(2, a, m.p * m.q);
    Swap(2, c, m.r * m.s);
  }

  lemma Regroup(a: int, p: int, q: int)
    ensures a * p * q == a * (p * q) && 2 * a * p * q == a * (2 * (p * q))
  {
    Reassociate(a, p, q);
    Reassociate(2 * a, p, q);
    Reassociate(2, a, p * q);
  }

  lemma ScaledMiddle(k: int, a: int, b: int, c: int, x: int, y: int, z: int)
    ensures 2 * (k * a * x) + k * b * y + 2 * (k * c * z) == k * (2 * (a * x) + b * y + 2 * (c * z))
  {
    Reassociate(k, a, x);
    Reassociate(k, b, y);
    Reassociate(k, c, z);
    Distribute(k, 2 * (a * x), b * y);
    Distribute(k, 2 * (a * x) + b * y, 2 * (c * z));
    Swap(k, 2, a * x);
    Swap(k, 2, c * z);
  }

  lemma ScaledOrder(k: int, x: int, y: int)
    requires k > 0
    ensures x < y <==> k * x < k * y
    ensures x <= y <==> k * x <= k * y
  {
    Distribute(k, y, x);
    ProductGrows(k, y - x);
    ProductGrows(k, x - y);
  }

  lemma ScaledMagnitude(k: int, x: int)
    requires k > 0
    ensures Magnitude(k * x) == k * Magnitude(x)
  {
    NegateProduct(k, x);
    ProductGrows(k, x);
  }

  lemma FactorOf(k: int, x: int, M: int)
    requires k > 0
    ensures k * x > 0 ==> x > 0
    ensures k * x <= M && x >= 0 ==> x <= M
  {
    ProductGrows(k, x);
  }

  lemma ScaledInside(k: int, f: Form, M: int)
    requires k > 0 && Inside(Scaled(k, f), M)
    ensures Inside(f, M)
  {
    FactorOf(k, f.a, M);
    FactorOf(k, f.c, M);
    ScaledMagnitude(k, f.b);
    FactorOf(k, Magnitude(f.b), M);
  }

  lemma ScaledLong(k: int, f: Form)
    requires k > 0
    ensures TooLong(Scaled(k, f)) <==> TooLong(f)
  {
    ScaledMagnitude(k, f.b);
    ScaledOrder(k, f.a, Magnitude(f.b));
    ScaledOrder(k, f.c, Magnitude(f.b));
  }

  lemma ScaledDefinite(k: int, f: Form)
    requires k > 0 && PositiveDefinite(f)
    ensures PositiveDefinite(Scaled(k, f))
  {
    ProductGrows(k, f.a);
    ScaledDisc(k, f);
    ProductGrows(k, k);
    ProductGrows(k * k, -Disc(f));
    NegateProduct(k * k, Disc(f));
  }

  lemma ScaledDisc(k: int, f: Form)
    ensures Disc(Scaled(k, f)) == (k * k) * Disc(f)
  {
    SquareOfProduct(k, f.b, f.b);
    SquareOfProduct(k, f.a, f.c);
    Reassociate(4, k * f.a, k * f.c);
    Reassociate(4, f.a, f.c);
    Distribute(k * k, f.b * f.b, 4 * (f.a * f.c));
    Swap(k * k, 4, f.a * f.c);
  }

  lemma SquareOfProduct(k: int, x: int, y: int)
    ensures (k * x) * (k * y) == (k * k) * (x * y)
  {
    Reassociate(k, x, k * y);
    Swap(x, k, y);
    Reassociate(k, k, x * y);
  }

  /** On a short form a round makes a + c smaller, and keeps the form short. */
  lemma RoundShrinks(f: Form, m: Mat, qs: seq<int>)
    requires PositiveDefinite(f) && Short(f) && TooLong(f) && Window(f).0 && FoundFor(f, m, qs)
    ensures Short(Act(f, m)) && Weight(Act(f, m)) < Weight(f)
  {
    var k := ShortIsExact(f);
    WindowIsFit(f);
    ScaledLong(k, f);
    ScaledDefinite(k, f);
    RunShrinks(Scaled(k, f), qs, LIMB_LIMIT / 2 - 1);
    ScaledAct(k, f, m);
    ShrinksUnscaled(k, f, Act(f, m));
  }

  lemma ShrinksUnscaled(k: int, f: Form, g: Form)
    requires k > 0 && Short(Scaled(k, g)) && Weight(Scaled(k, g)) < Weight(Scaled(k, f))
    ensures Short(g) && Weight(g) < Weight(f)
  {
    ScaledInside(k, g, LIMB_LIMIT / 2 - 1);
    Distribute(k, f.a, f.c);
    Distribute(k, g.a, g.c);
    ScaledOrder(k, Weight(g), Weight(f));
  }
}
