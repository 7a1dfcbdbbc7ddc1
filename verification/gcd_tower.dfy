/** The Lehmer gcd tower: a single-word layer, a 128-bit layer and the full gcd built
    from them refine the plain division loop with a stopping threshold. */
module GcdTower {
  import opened Integers
  import opened Words
  import opened Euclid
  import opened Lehmer

  const WORD_64 := WORD
  const WORD_128 := WORD * WORD
  const DATA_MASK := 0x7fff_ffff
  const QUOTIENT_LIMIT := 0x8000_0000

  // ----- The specification: plain division steps down to the threshold -----

  /** Two consecutive remainders, the magnitudes of one column of cofactors, and the
      parity of the number of steps as a sign. */
  datatype Run = Run(a: int, b: int, u0: int, u1: int, parity: int) {
    predicate Valid() {
      a >= b >= 0 && u0 >= 0 && u1 >= 0 && (parity == 1 || parity == -1)
    }
  }

  function SlowStep(g: Run): Run
    requires g.b > 0
  {
    Run(g.b, g.a % g.b, g.u1, g.u0 + (g.a / g.b) * g.u1, -g.parity)
  }

  lemma SlowStepValid(g: Run)
    requires g.Valid() && g.b > 0
    ensures SlowStep(g).Valid() && SlowStep(g).b < SlowStep(g).a
  {
    DivisionStep(g.a, g.b);
    ProductGrows(g.a / g.b, g.u1);
  }

  function SlowGcd(g: Run, threshold: nat): (r: Run)
    decreases g.b
  {
    if g.b <= threshold then g else SlowGcd(SlowStep(g), threshold)
  }

  /** The run as a state of the extended Euclidean algorithm, the signs restored. */
  function Lift(g: Run): State {
    if g.parity == 1 then State(g.a, g.b, g.u0, -g.u1, 0, 0) else State(g.a, g.b, -g.u0, g.u1, 0, 0)
  }

  lemma LiftStep(g: Run)
    requires g.Valid() && g.b > 0
    ensures Step(Lift(g)) == Lift(SlowStep(g))
  {
    assert g.a == g.a / g.b * g.b + g.a % g.b;
    NegateProduct(g.a / g.b, g.u1);
  }

  lemma IterateFirst(e: State, n: nat)
    requires n > 0
    ensures Iterate(e, n) == Iterate(Step(e), n - 1)
  {
    IterateAdd(e, 1, n - 1);
    assert Iterate(e, 1) == Step(Iterate(e, 0));
  }

  lemma LiveTail(e: State, n: nat)
    requires n > 0 && Live(e, n)
    ensures Live(Step(e), n - 1) && e.r1 > 0
  {
    forall j | 0 <= j < n - 1
      ensures Iterate(Step(e), j).r1 > 0
    {
      IterateFirst(e, j + 1);
    }
    assert Iterate(e, 0).r1 > 0;
  }

  lemma {:induction false} RemaindersDecrease(e: State, n: nat)
    requires e.r2 >= e.r1 >= 0 && Live(e, n)
    ensures Iterate(e, n).r2 >= Iterate(e, n).r1 >= 0
    ensures n > 0 ==> Iterate(e, n).r1 < Iterate(e, n).r2 <= e.r1
    ensures Iterate(e, n).r2 <= e.r2
  {
    if n > 0 {
      RemaindersDecrease(e, n - 1);
      var p := Iterate(e, n - 1);
      DivisionStep(p.r2, p.r1);
    }
  }

  /** Any number of correct division steps may be taken at once, as long as the larger
      remainder stays above the threshold. */
  lemma {:induction false} SlowGcdSkips(g: Run, g': Run, n: nat, threshold: nat)
    requires g.Valid() && g'.Valid() && Live(Lift(g), n) && Iterate(Lift(g), n) == Lift(g')
    requires g'.parity == if n % 2 == 1 then -g.parity else g.parity
    requires g'.a > threshold
    ensures SlowGcd(g, threshold) == SlowGcd(g', threshold)
    decreases n
  {
    if n == 0 {
      LiftInjective(g, g');
    } else {
      LiveTail(Lift(g), n);
      var s := SlowStep(g);
      FirstStep(g, g', n, s);
      FlipParity(g.parity, s.parity, g'.parity, n);
      SlowGcdSkips(s, g', n - 1, threshold);
    }
  }

  lemma LiftInjective(g: Run, g': Run)
    requires Lift(g) == Lift(g') && g.parity == g'.parity
    ensures g == g'
  {
  }

  lemma FlipParity(p: int, s: int, p': int, n: nat)
    requires n > 0 && s == -p && p' == if n % 2 == 1 then -p else p
    ensures p' == if (n - 1) % 2 == 1 then -s else s
  {
  }

  lemma FirstStep(g: Run, g': Run, n: nat, s: Run)
    requires n > 0 && g.Valid() && g.b > 0 && Live(Lift(g), n) && Iterate(Lift(g), n) == Lift(g')
    requires s == SlowStep(g)
    ensures g'.a <= g.b && s.Valid() && s.b < s.a && s.parity == -g.parity
    ensures Live(Lift(s), n - 1) && Iterate(Lift(s), n - 1) == Lift(g')
  {
    RemaindersDecrease(Lift(g), n);
    LiftStep(g);
    SlowStepValid(g);
    IterateFirst(Lift(g), n);
    LiveTail(Lift(g), n);
  }

  /** The result is the one pair of consecutive remainders that straddles the threshold. */
  lemma SlowGcdIsUnique(g: Run, g': Run, n: nat, threshold: nat)
    requires g.Valid() && g'.Valid() && Live(Lift(g), n) && Iterate(Lift(g), n) == Lift(g')
    requires g'.parity == if n % 2 == 1 then -g.parity else g.parity
    requires g'.b <= threshold < g'.a
    ensures SlowGcd(g, threshold) == g'
  {
    SlowGcdSkips(g, g', n, threshold);
  }

  lemma {:induction false} SlowGcdStraddles(g: Run, threshold: nat)
    requires g.Valid() && g.a > threshold
    ensures var r := SlowGcd(g, threshold);
            r.Valid() && r.b <= threshold < r.a &&
            exists n: nat :: Live(Lift(g), n) && Iterate(Lift(g), n) == Lift(r)
    decreases g.b
  {
    var r := SlowGcd(g, threshold);
    if g.b <= threshold {
      assert Live(Lift(g), 0) && Iterate(Lift(g), 0) == Lift(r);
    } else {
      SlowStepValid(g);
      LiftStep(g);
      SlowGcdStraddles(SlowStep(g), threshold);
      var n: nat :| Live(Step(Lift(g)), n) && Iterate(Step(Lift(g)), n) == Lift(r);
      IterateFirst(Lift(g), n + 1);
      assert Live(Lift(g), 1);
      assert Iterate(Lift(g), 1) == Step(Iterate(Lift(g), 0));
      LiveAdd(Lift(g), 1, n);
      assert Live(Lift(g), n + 1);
    }
  }

  // ----- Cofactor matrices -----

  /** A cofactor matrix by the magnitudes of its entries. */
  datatype Weights = Weights(w00: nat, w01: nat, w10: nat, w11: nat)

  function Signed(w: Weights, odd: bool): Rows {
    var (w00: int, w01: int, w10: int, w11: int) := (w.w00, w.w01, w.w10, w.w11);
    if odd then Rows(-w00, w01, w10, -w11) else Rows(w00, -w01, -w10, w11)
  }

  function Times(x: Weights, y: Weights): Weights {
    Weights(x.w00 * y.w00 + x.w01 * y.w10, x.w00 * y.w01 + x.w01 * y.w11,
            x.w10 * y.w00 + x.w11 * y.w10, x.w10 * y.w01 + x.w11 * y.w11)
  }

  /** The state that records its own cofactor matrix. */
  function Tracked(a: int, b: int): State {
    State(a, b, 1, 0, 0, 1)
  }

  function RowsOf(e: State): Rows {
    Rows(e.co2, e.d2, e.co1, e.d1)
  }

  /** The recorded matrix does the same to every state that starts from the same pair. */
  lemma {:induction false} TrackedRows(a: int, b: int, e: State, n: nat)
    requires Live(Tracked(a, b), n) && e.r2 == a && e.r1 == b
    ensures Iterate(e, n) == ApplyRows(e, RowsOf(Iterate(Tracked(a, b), n))) && Live(e, n)
    ensures Iterate(e, n).r2 == Iterate(Tracked(a, b), n).r2 && Iterate(e, n).r1 == Iterate(Tracked(a, b), n).r1
  {
    var h := Tracked(a, b);
    if n == 0 {
      assert ApplyRows(e, IDENTITY_ROWS) == e;
    } else {
      TrackedRows(a, b, e, n - 1);
      var p := Iterate(h, n - 1);
      ApplyNextRows(e, RowsOf(p), p.r2 / p.r1);
    }
  }

  lemma {:induction false} TrackedAlternates(a: int, b: int, n: nat)
    requires a >= b >= 0 && Live(Tracked(a, b), n)
    ensures var m := RowsOf(Iterate(Tracked(a, b), n)); Alternating(m, n % 2 == 1) && (n > 0 ==> m.bb1 != 0)
  {
    if n > 0 {
      var h := Tracked(a, b);
      TrackedAlternates(a, b, n - 1);
      RemaindersDecrease(h, n - 1);
      AlternatesStep(Iterate(h, n - 1), (n - 1) % 2 == 1);
      assert ((n - 1) % 2 == 1) != (n % 2 == 1);
      assert Iterate(h, n) == Step(Iterate(h, n - 1));
    }
  }

  lemma AlternatesStep(p: State, odd: bool)
    requires p.r2 >= p.r1 > 0 && Alternating(RowsOf(p), odd)
    ensures Alternating(RowsOf(Step(p)), !odd) && RowsOf(Step(p)).bb1 != 0
  {
    DivisionStep(p.r2, p.r1);
    NextAlternates(RowsOf(p), p.r2 / p.r1, odd);
  }

  /** Quotients found on one pair are the true quotients of another as soon as the last
      remainders they lead to are positive and decreasing: the earlier quotients are
      forced backwards. */
  lemma {:induction false} ForcedSteps(a: int, b: int, e: State, n: nat)
    requires a >= b >= 0 && Live(Tracked(a, b), n)
    requires var x := ApplyRows(e, RowsOf(Iterate(Tracked(a, b), n))); 0 < x.r1 < x.r2
    ensures Iterate(e, n) == ApplyRows(e, RowsOf(Iterate(Tracked(a, b), n))) && Live(e, n)
  {
    var h := Tracked(a, b);
    if n == 0 {
      assert ApplyRows(e, IDENTITY_ROWS) == e;
    } else {
      var p := Iterate(h, n - 1);
      var q := p.r2 / p.r1;
      RemaindersDecrease(h, n - 1);
      DivisionStep(p.r2, p.r1);
      var x := ApplyRows(e, RowsOf(p));
      NextRow(e.r2, e.r1, RowsOf(p), q);
      ForcedBack(x.r2, x.r1, q);
      ForcedSteps(a, b, e, n - 1);
      QuotientUnique(x.r2, x.r1, q);
      ApplyNextRows(e, RowsOf(p), q);
    }
  }

  lemma ForcedBack(x: int, y: int, q: int)
    requires q >= 1 && 0 < x - q * y < y
    ensures 0 < y < x
  {
    ProductGrows(q, y);
  }

  lemma SignedProducts(x: int, y: int)
    ensures -x * y == -(x * y) && x * -y == -(x * y) && -x * -y == x * y
  {
  }

  /** A state known with its recorded matrix, after n steps from (a0, b0). */
  ghost predicate Reached(a0: int, b0: int, n: nat, w: Weights, odd: bool) {
    && a0 >= b0 >= 0
    && Live(Tracked(a0, b0), n)
    && RowsOf(Iterate(Tracked(a0, b0), n)) == Signed(w, odd)
    && odd == (n % 2 == 1)
  }

  lemma RowsCompose(e: State, w: Weights, odd: bool, w': Weights, odd': bool)
    requires RowsOf(e) == Signed(w, odd)
    ensures RowsOf(ApplyRows(e, Signed(w', odd'))) == Signed(Times(w', w), odd != odd')
  {
    SignedProducts(w'.w00, w.w00);
    SignedProducts(w'.w01, w.w10);
    SignedProducts(w'.w00, w.w01);
    SignedProducts(w'.w01, w.w11);
    SignedProducts(w'.w10, w.w00);
    SignedProducts(w'.w11, w.w10);
    SignedProducts(w'.w10, w.w01);
    SignedProducts(w'.w11, w.w11);
  }

  lemma AlternatingIsSigned(m: Rows, odd: bool)
    requires Alternating(m, odd)
    ensures m == Signed(Weights(Abs(m.bb2), Abs(m.aa2), Abs(m.bb1), Abs(m.aa1)), odd)
    ensures odd <==> m.aa1 < 0
  {
  }

  // ----- The single-word layer -----

  const TABLE_INDEX_BITS := 11

  /** The high word of the largest 128-bit number divided by the index. */
  function TableInverse(index: nat): nat {
    (WORD_128 - 1) / (if index > 1 then index else 1) / WORD_64
  }

  /** Floor division by a table of inverses: the quotient guessed from the table is kept
      only if its remainder is in range, so the answer never depends on the table. */
  method DivideTable(a: int, b: int) returns (q: int, r: int)
    requires b > 0
    ensures q == a / b && r == a % b
  {
    var shift := if BitLength(b) > TABLE_INDEX_BITS then BitLength(b) - TABLE_INDEX_BITS else 0;
    var inverse := TableInverse(b / Pow2(shift));
    q, r := CorrectGuess(a, b, a * inverse / WORD_64 / Pow2(shift));
  }

  method CorrectGuess(a: int, b: int, guess: int) returns (q: int, r: int)
    requires b > 0
    ensures q == a / b && r == a % b
  {
    q := guess;
    r := a - q * b;
    if r < 0 || r >= b {
      q, r := a / b, a % b;
    } else {
      QuotientIs(a, b, q, r);
    }
  }

  lemma ExactQuotient(e: State, m: Rows, i: nat, rr2: int, rr1: int, q: int)
    requires WordInvariant(e, 1, m, i, rr2, rr1) && rr1 > 0 && q == rr2 / rr1
    ensures WordInvariant(e, 1, NextRows(m, q), i + 1, rr1, rr2 - q * rr1)
    ensures rr2 - q * rr1 < rr1
  {
    DivisionStep(rr2, rr1);
    NextAlternates(m, q, i % 2 == 1);
    NextRow(e.r2, e.r1, m, q);
    ApplyNextRows(e, m, q);
  }

  /** The test on the candidate rows n and remainders (x, y). Both halves are evaluated,
      although only the half of the current parity can fail. */
  predicate BaseAccepts(n: Rows, x: int, y: int) {
    && y >= -n.bb1 && x - y >= n.aa1 - n.aa2
    && y >= -n.aa1 && x - y >= n.bb1 - n.bb2
  }

  lemma OnlyOneHalfMatters(m: Rows, odd: bool, rr2: int, rr1: int, q: int)
    requires Alternating(m, odd) && rr1 > 0 && rr2 >= rr1 && q == rr2 / rr1
    ensures var n, y := NextRows(m, q), rr2 - q * rr1;
            BaseAccepts(n, rr1, y) <==> Accepted(m, odd, rr1, y, q)
  {
    DivisionStep(rr2, rr1);
    NextAlternates(m, q, odd);
  }

  /** Quotients of x and y, the leading parts e.r2 / M and e.r1 / M of a pair. In
      approximate mode a quotient is taken only if it is certain to be the one of the
      full pair; otherwise x and y are the pair itself. */
  method BaseQuotients(x: int, y: int, approximate: bool, threshold: nat, maxSteps: nat,
                       ghost e: State, ghost M: int)
    returns (m: Rows, i: nat)
    requires M > 0 && e.r2 >= e.r1 >= 0 && x == e.r2 / M && y == e.r1 / M
    requires !approximate ==> M == 1
    ensures Iterate(e, i) == ApplyRows(e, m) && Live(e, i)
    ensures Alternating(m, i % 2 == 1)
    ensures Abs(m.bb2) <= DATA_MASK && Abs(m.aa2) <= DATA_MASK && Abs(m.bb1) <= DATA_MASK && Abs(m.aa1) <= DATA_MASK
  {
    m, i := IDENTITY_ROWS, 0;
    WordStart(e, M);
    var a0, a1 := x, y;
    while i < maxSteps && a1 > threshold
      invariant WordInvariant(e, M, m, i, a0, a1)
      invariant Abs(m.bb2) <= DATA_MASK && Abs(m.aa2) <= DATA_MASK && Abs(m.bb1) <= DATA_MASK && Abs(m.aa1) <= DATA_MASK
      decreases a1
    {
      var q, r := DivideTable(a0, a1);
      assert a0 == a0 / a1 * a1 + a0 % a1;
      if !(-QUOTIENT_LIMIT <= q < QUOTIENT_LIMIT) {
        break;
      }
      var n := NextRows(m, q);
      if approximate && !BaseAccepts(n, a1, r) {
        break;
      }
      if Abs(n.aa1) > DATA_MASK || Abs(n.bb1) > DATA_MASK {
        break;
      }
      OnlyOneHalfMatters(m, i % 2 == 1, a0, a1, q);
      if approximate {
        AcceptedIsTrueQuotient(e, M, m, i, a0, a1, q);
      } else {
        ExactQuotient(e, m, i, a0, a1, q);
      }
      m, a0, a1, i := n, a1, r, i + 1;
    }
  }

  // ----- The 128-bit layer -----

  /** x*y - z*t in 128-bit arithmetic. */
  function WrappedDifference(x: int, y: int, z: int, t: int): int {
    (x * y % WORD_128 - z * t % WORD_128) % WORD_128
  }

  lemma WrappedIsExact(x: int, y: int, z: int, t: int)
    requires 0 <= x * y - z * t < WORD_128
    ensures WrappedDifference(x, y, z, t) == x * y - z * t
  {
    var p, r := x * y, z * t;
    assert p == p / WORD_128 * WORD_128 + p % WORD_128;
    assert r == r / WORD_128 * WORD_128 + r % WORD_128;
  }

  /** Multiplication of two matrices of words, refused on any overflow. */
  method MultiplyExact(x: Weights, y: Weights) returns (ok: bool, z: Weights)
    ensures ok <==> var p := Times(x, y);
                    p.w00 < WORD_64 && p.w01 < WORD_64 && p.w10 < WORD_64 && p.w11 < WORD_64
    ensures ok ==> z == Times(x, y)
  {
    z := y;
    var ok00, w00 := DotProductExact(x.w00, x.w01, y.w00, y.w10);
    if !ok00 { return false, z; }
    var ok01, w01 := DotProductExact(x.w00, x.w01, y.w01, y.w11);
    if !ok01 { return false, z; }
    var ok10, w10 := DotProductExact(x.w10, x.w11, y.w00, y.w10);
    if !ok10 { return false, z; }
    var ok11, w11 := DotProductExact(x.w10, x.w11, y.w01, y.w11);
    return ok11, Weights(w00, w01, w10, w11);
  }

  method DotProductExact(x: nat, y: nat, s: nat, t: nat) returns (ok: bool, v: nat)
    ensures ok <==> x * s + y * t < WORD_64
    ensures ok ==> v == x * s + y * t
  {
    var t1 := x * s;
    var t2 := y * t;
    v := 0;
    if t1 >= WORD_64 { return false, v; }
    if t2 >= WORD_64 { return false, v; }
    if t1 + t2 >= WORD_64 { return false, v; }
    return true, t1 + t2;
  }

  predicate LehmerAccepts(w: Weights, odd: bool, a: int, b: int) {
    if odd then b >= w.w11 && a - b >= w.w10 + w.w00 else b >= w.w10 && a - b >= w.w11 + w.w01
  }

  /** The test on the last pair of head remainders makes all quotients of the batch
      correct for the full pair. */
  lemma LehmerBatch(a0: int, b0: int, e: State, M: int, w: Weights, odd: bool, n: nat)
    requires M > 0 && e.r2 >= e.r1 >= 0 && a0 == e.r2 / M && b0 == e.r1 / M
    requires n > 0 && Reached(a0, b0, n, w, odd)
    requires LehmerAccepts(w, odd, Iterate(Tracked(a0, b0), n).r2, Iterate(Tracked(a0, b0), n).r1)
    ensures Iterate(e, n) == ApplyRows(e, Signed(w, odd)) && Live(e, n)
  {
    var h := Iterate(Tracked(a0, b0), n);
    DivideMonotone(e.r1, e.r2, M);
    TrackedAlternates(a0, b0, n);
    TrackedRows(a0, b0, Tracked(a0, b0), n);
    AcceptedPair(e, M, Signed(w, odd), odd, h.r2, h.r1);
    ForcedSteps(a0, b0, e, n);
  }

  /** A row applied to the full pair, by the row of the heads and the truncated parts. */
  lemma FullRow(e: State, M: int, bb: int, aa: int, x: int)
    requires M > 0 && x == bb * (e.r2 / M) + aa * (e.r1 / M)
    ensures bb * e.r2 + aa * e.r1 == M * x + bb * (e.r2 % M) + aa * (e.r1 % M)
  {
    assert e.r2 == M * (e.r2 / M) + e.r2 % M && e.r1 == M * (e.r1 / M) + e.r1 % M;
    LiftRow(M, e.r2 / M, e.r1 / M, e.r2 % M, e.r1 % M, bb, aa);
  }

  lemma AcceptedPair(e: State, M: int, m: Rows, odd: bool, x: int, y: int)
    requires M > 0 && Alternating(m, odd) && m.bb1 != 0
    requires x == m.bb2 * (e.r2 / M) + m.aa2 * (e.r1 / M) && y == m.bb1 * (e.r2 / M) + m.aa1 * (e.r1 / M)
    requires if odd then y >= -m.aa1 && x - y >= m.bb1 - m.bb2 else y >= -m.bb1 && x - y >= m.aa1 - m.aa2
    ensures 0 < ApplyRows(e, m).r1 < ApplyRows(e, m).r2
  {
    var eb, ea := e.r2 % M, e.r1 % M;
    FullRow(e, M, m.bb2, m.aa2, x);
    FullRow(e, M, m.bb1, m.aa1, y);
    if odd {
      AcceptedRemainder(M, ea, eb, x, y, m.aa1, m.bb1, m.aa2, m.bb2);
    } else {
      AcceptedRemainder(M, eb, ea, x, y, m.bb1, m.aa1, m.bb2, m.aa2);
    }
  }

  function Magnitudes(m: Rows): Weights {
    Weights(Abs(m.bb2), Abs(m.aa2), Abs(m.bb1), Abs(m.aa1))
  }

  lemma BatchRows(a0: int, b0: int, n: nat, w: Weights, odd: bool, m: Rows, i: nat)
    requires Reached(a0, b0, n, w, odd) && Alternating(m, i % 2 == 1)
    requires var p := Iterate(Tracked(a0, b0), n); Iterate(p, i) == ApplyRows(p, m) && Live(p, i)
    ensures Reached(a0, b0, n + i, Times(Magnitudes(m), w), odd != (m.aa1 < 0))
  {
    var h := Tracked(a0, b0);
    IterateAdd(h, n, i);
    LiveAdd(h, n, i);
    AlternatingIsSigned(m, i % 2 == 1);
    RowsCompose(Iterate(h, n), w, odd, Magnitudes(m), i % 2 == 1);
    ParityAdds(n, i);
  }

  lemma ParityAdds(n: nat, i: nat)
    ensures ((n % 2 == 1) != (i % 2 == 1)) == ((n + i) % 2 == 1)
  {
  }

  /** The pair of head remainders that a matrix leads to, in 128-bit arithmetic. */
  function HeadPair(a0: int, b0: int, w: Weights, odd: bool): (int, int) {
    if odd then
      (WrappedDifference(b0, w.w01, a0, w.w00), WrappedDifference(a0, w.w10, b0, w.w11))
    else
      (WrappedDifference(a0, w.w00, b0, w.w01), WrappedDifference(b0, w.w11, a0, w.w10))
  }

  lemma HeadPairIsExact(a0: int, b0: int, w: Weights, odd: bool, n: nat)
    requires WORD_128 > a0 && Reached(a0, b0, n, w, odd)
    ensures var p := Iterate(Tracked(a0, b0), n); HeadPair(a0, b0, w, odd) == (p.r2, p.r1)
  {
    var h := Tracked(a0, b0);
    TrackedRows(a0, b0, h, n);
    RemaindersDecrease(h, n);
    var p := Iterate(h, n);
    HeadRow(a0, b0, w.w00, w.w01, odd, p.r2);
    HeadRow(b0, a0, w.w11, w.w10, odd, p.r1);
  }

  lemma HeadRow(x: int, y: int, u: nat, v: nat, odd: bool, r: int)
    requires 0 <= r < WORD_128
    requires var (u: int, v: int) := (u, v); r == if odd then -u * x + v * y else u * x + -v * y
    ensures r == if odd then WrappedDifference(y, v, x, u) else WrappedDifference(x, u, y, v)
  {
    SignedProducts(u, x);
    SignedProducts(v, y);
    if odd {
      WrappedIsExact(y, v, x, u);
    } else {
      WrappedIsExact(x, u, y, v);
    }
  }

  const UNIT_WEIGHTS := Weights(1, 0, 0, 1)

  lemma UnitTimes(w: Weights)
    ensures Times(w, UNIT_WEIGHTS) == w
  {
  }

  /** The leading bits given to the single-word layer. */
  function BaseShift(a: nat, lehmer: bool, baseBits: nat): (shift: nat)
    ensures BitLength(a) <= shift + baseBits
  {
    var bits := if lehmer && BitLength(a) < 96 then 96 else BitLength(a);
    if bits > baseBits then bits - baseBits else 0
  }

  /** One batch of single-word quotients, multiplied onto the matrix w that leads from
      (a0, b0) to (a, b). */
  method HeadBatch(a0: int, b0: int, a: int, b: int, w: Weights, odd: bool, first: bool, lehmer: bool,
                   threshold: nat, baseBits: nat, maxSteps: nat, ghost n: nat)
    returns (ok: bool, next: Weights, nextOdd: bool, a': int, b': int, ghost i: nat)
    requires WORD_128 > a0 && Reached(a0, b0, n, w, odd) && (first ==> w == UNIT_WEIGHTS)
    requires Iterate(Tracked(a0, b0), n).r2 == a && Iterate(Tracked(a0, b0), n).r1 == b && b > threshold
    ensures ok ==> i > 0 && Reached(a0, b0, n + i, next, nextOdd)
    ensures ok ==> Iterate(Tracked(a0, b0), n + i).r2 == a' && Iterate(Tracked(a0, b0), n + i).r1 == b'
    ensures ok ==> 0 <= b' < b && b' <= a' <= a
  {
    RemaindersDecrease(Tracked(a0, b0), n);
    var shift := BaseShift(a, lehmer, baseBits);
    var m, steps := BaseQuotients(a / Pow2(shift), b / Pow2(shift), lehmer || shift != 0, threshold / Pow2(shift),
                                  maxSteps, Iterate(Tracked(a0, b0), n), Pow2(shift));
    i := steps;
    next, nextOdd, a', b' := Magnitudes(m), odd != (m.aa1 < 0), a, b;
    if steps == 0 {
      return false, next, nextOdd, a', b', i;
    }
    BatchRows(a0, b0, n, w, odd, m, i);
    UnitTimes(next);
    if !first {
      ok, next := MultiplyExact(next, w);
      if !ok {
        return false, next, nextOdd, a', b', i;
      }
    }
    HeadPairIsExact(a0, b0, next, nextOdd, n + i);
    BatchDecreases(a0, b0, n, i);
    var heads := HeadPair(a0, b0, next, nextOdd);
    return true, next, nextOdd, heads.0, heads.1, i;
  }

  lemma BatchIsTrue(a0: int, b0: int, e: State, M: int, lehmer: bool, w: Weights, odd: bool, n: nat)
    requires M > 0 && e.r2 >= e.r1 >= 0 && a0 == e.r2 / M && b0 == e.r1 / M && (!lehmer ==> M == 1)
    requires n > 0 && Reached(a0, b0, n, w, odd)
    requires lehmer ==> LehmerAccepts(w, odd, Iterate(Tracked(a0, b0), n).r2, Iterate(Tracked(a0, b0), n).r1)
    ensures Iterate(e, n) == ApplyRows(e, Signed(w, odd)) && Live(e, n)
  {
    if lehmer {
      LehmerBatch(a0, b0, e, M, w, odd, n);
    } else {
      TrackedRows(a0, b0, e, n);
    }
  }

  /** Quotients of the pair e from its leading parts a0 and b0 of up to 128 bits, as one
      matrix w that performs n division steps on e. Without the Lehmer flag the parts are
      the pair itself. */
  method Gcd128(a0: int, b0: int, lehmer: bool, threshold: nat, baseBits: nat, maxSteps: nat, maxIter: nat,
                ghost e: State, ghost M: int)
    returns (progress: bool, w: Weights, odd: bool, ghost n: nat)
    requires M > 0 && e.r2 >= e.r1 >= 0 && a0 == e.r2 / M && b0 == e.r1 / M && a0 < WORD_128
    requires !lehmer ==> M == 1
    ensures progress <==> n > 0
    ensures progress ==> b0 > threshold
    ensures odd <==> n % 2 == 1
    ensures Iterate(e, n) == ApplyRows(e, Signed(w, odd)) && Live(e, n)
  {
    DivideMonotone(e.r1, e.r2, M);
    var a, b := a0, b0;
    w, odd, n, progress := UNIT_WEIGHTS, false, 0, false;
    assert ApplyRows(e, IDENTITY_ROWS) == e;
    var iter := 0;
    while b > threshold
      invariant progress == (n > 0) && (iter == 0 ==> w == UNIT_WEIGHTS) && (n > 0 ==> b0 > threshold)
      invariant Reached(a0, b0, n, w, odd)
      invariant Iterate(Tracked(a0, b0), n).r2 == a && Iterate(Tracked(a0, b0), n).r1 == b
      invariant Iterate(e, n) == ApplyRows(e, Signed(w, odd)) && Live(e, n)
      decreases b
    {
      var ok, next, nextOdd, a', b';
      ghost var i;
      ok, next, nextOdd, a', b', i := HeadBatch(a0, b0, a, b, w, odd, iter == 0, lehmer, threshold, baseBits,
                                                maxSteps, n);
      if !ok || (lehmer && !LehmerAccepts(next, nextOdd, a', b')) || a' <= threshold {
        break;
      }
      BatchIsTrue(a0, b0, e, M, lehmer, next, nextOdd, n + i);
      a, b, w, odd, progress := a', b', next, nextOdd, true;
      n := n + i;
      iter := iter + 1;
      if iter >= maxIter {
        break;
      }
    }
  }

  lemma BatchDecreases(a0: int, b0: int, n: nat, i: nat)
    requires a0 >= b0 >= 0 && i > 0 && Live(Tracked(a0, b0), n + i)
    ensures var p, q := Iterate(Tracked(a0, b0), n), Iterate(Tracked(a0, b0), n + i);
            q.r2 >= q.r1 >= 0 && q.r1 < p.r1 && q.r2 <= p.r2
  {
    var h := Tracked(a0, b0);
    var p := Iterate(h, n);
    RemaindersDecrease(h, n);
    IterateAdd(h, n, i);
    forall j | 0 <= j < i
      ensures Iterate(p, j).r1 > 0
    {
      IterateAdd(h, n, j);
      assert Iterate(h, n + j).r1 > 0;
    }
    RemaindersDecrease(p, i);
  }

  // ----- The full gcd -----

  /** A batch of quotients from the leading 128 bits. */
  method NextBatch(g: Run, threshold: nat, baseBits: nat, maxSteps: nat, maxIter: nat)
    returns (progress: bool, w: Weights, odd: bool, ghost n: nat)
    requires g.Valid() && g.b > threshold
    ensures progress <==> n > 0
    ensures odd <==> n % 2 == 1
    ensures Iterate(Lift(g), n) == ApplyRows(Lift(g), Signed(w, odd)) && Live(Lift(g), n)
  {
    var bits := BitLength(g.a);
    var shift := if bits > 128 then bits - 128 else 0;
    HeadsFit(g.a, g.b, threshold, shift);
    progress, w, odd, n := Gcd128(Head(g.a, shift), Head(g.b, shift), shift != 0, Head(threshold, shift), baseBits,
                                  maxSteps, maxIter, Lift(g), Pow2(shift));
  }

  /** The run after one batch. */
  function Batch(g: Run, w: Weights, odd: bool): Run {
    Run(if odd then g.b * w.w01 - g.a * w.w00 else g.a * w.w00 - g.b * w.w01,
        if odd then g.a * w.w10 - g.b * w.w11 else g.b * w.w11 - g.a * w.w10,
        w.w00 * g.u0 + w.w01 * g.u1, w.w10 * g.u0 + w.w11 * g.u1,
        if odd then -g.parity else g.parity)
  }

  lemma BatchLift(g: Run, w: Weights, odd: bool)
    requires g.Valid()
    ensures ApplyRows(Lift(g), Signed(w, odd)) == Lift(Batch(g, w, odd))
  {
    BatchRow(g, w.w00, w.w01);
    BatchRow(g, w.w10, w.w11);
  }

  lemma BatchRow(g: Run, x: int, y: int)
    ensures -x * g.a == -(g.a * x) && -y * g.b == -(g.b * y) && x * g.a == g.a * x && y * g.b == g.b * y
    ensures x * -g.u0 == -(x * g.u0) && -x * g.u0 == -(x * g.u0) && -x * -g.u0 == x * g.u0
    ensures y * -g.u1 == -(y * g.u1) && -y * g.u1 == -(y * g.u1) && -y * -g.u1 == y * g.u1
    ensures x >= 0 && g.u0 >= 0 ==> x * g.u0 >= 0
    ensures y >= 0 && g.u1 >= 0 ==> y * g.u1 >= 0
  {
  }

  /** A batch of correct quotients leaves the outcome of the plain loop unchanged, as
      long as the larger remainder is still above the threshold. */
  lemma BatchKeepsGcd(g: Run, w: Weights, odd: bool, n: nat, threshold: nat)
    requires g.Valid() && n > 0 && odd == (n % 2 == 1)
    requires Live(Lift(g), n) && Iterate(Lift(g), n) == ApplyRows(Lift(g), Signed(w, odd))
    ensures var r := Batch(g, w, odd);
            r.Valid() && r.b < g.b && r.a <= g.a && (r.a > threshold ==> SlowGcd(g, threshold) == SlowGcd(r, threshold))
  {
    var r := Batch(g, w, odd);
    BatchLift(g, w, odd);
    RemaindersDecrease(Lift(g), n);
    BatchRow(g, w.w00, w.w01);
    BatchRow(g, w.w10, w.w11);
    if r.a > threshold {
      SlowGcdSkips(g, r, n, threshold);
    }
  }

  /** 64 bits of a number from a bit position on. */
  function WindowAt(v: nat, start: nat): nat {
    v / Pow2(start) % WORD_64
  }

  /** The 128 bits from a position on, as two windows. */
  function Head(v: nat, shift: nat): nat {
    WindowAt(v, shift) + WindowAt(v, shift + 64) * WORD_64
  }

  lemma HeadIsQuotient(v: nat, shift: nat)
    requires BitLength(v) <= shift + 128
    ensures Head(v, shift) == v / Pow2(shift) < WORD_128
  {
    HeadFits(v, shift, 128);
    WordPowers(shift);
    QuotientOfQuotient(v, Pow2(shift), WORD_64);
    TwoWords(v / Pow2(shift));
  }

  lemma WordPowers(shift: nat)
    ensures Pow2(128) == WORD_128 && Pow2(shift + 64) == Pow2(shift) * WORD_64
  {
    Pow2OfLimb();
    Pow2Add(64, 64);
    Pow2Add(shift, 64);
  }

  lemma TwoWords(x: nat)
    requires x < WORD_128
    ensures x % WORD_64 + x / WORD_64 % WORD_64 * WORD_64 == x
  {
    assert x == x / WORD_64 * WORD_64 + x % WORD_64;
    DivideBelow(x, WORD_64, WORD_64);
  }

  /** The in-out arguments of the gcd. */
  class GcdCell {
    var a: int
    var b: int
    var u0: int
    var u1: int
    var parity: int

    constructor (g: Run)
      ensures V() == g
    {
      a, b, u0, u1, parity := g.a, g.b, g.u0, g.u1, g.parity;
    }

    function V(): Run
      reads this
    {
      Run(a, b, u0, u1, parity)
    }

    /** The plain loop. */
    method GcdUnsignedSlow(threshold: nat)
      requires V().Valid() && a > threshold
      modifies this
      ensures V() == SlowGcd(old(V()), threshold)
    {
      while b > threshold
        invariant V().Valid() && SlowGcd(V(), threshold) == SlowGcd(old(V()), threshold)
        decreases b
      {
        SlowStepValid(V());
        var q, r := a / b, a % b;
        a, b := b, r;
        var next := u0 + q * u1;
        u0, u1 := u1, next;
        parity := -parity;
      }
    }

    /** The fast loop: batches of quotients from 128-bit heads, until the remainders
        straddle the threshold or a batch fails. If it ends as valid, it has done exactly
        what the plain loop does; in any case only correct division steps were made. */
    method FastLoop(threshold: nat, baseBits: nat, maxSteps: nat, maxIter: nat)
      returns (valid: bool)
      requires V().Valid() && a > threshold
      modifies this
      ensures V().Valid()
      ensures valid ==> V() == SlowGcd(old(V()), threshold)
      ensures a > threshold ==> SlowGcd(V(), threshold) == SlowGcd(old(V()), threshold)
      ensures old(b) <= threshold ==> valid
    {
      while true
        invariant V().Valid()
        invariant a > threshold ==> SlowGcd(V(), threshold) == SlowGcd(old(V()), threshold)
        invariant old(b) <= threshold ==> V() == old(V())
        decreases b
      {
        if a <= threshold {
          return false;
        }
        if b <= threshold {
          return true;
        }
        var g := V();
        var progress, w, odd;
        ghost var n;
        progress, w, odd, n := NextBatch(g, threshold, baseBits, maxSteps, maxIter);
        if !progress {
          return false;
        }
        BatchKeepsGcd(g, w, odd, n, threshold);
        var aNew := if odd then b * w.w01 - a * w.w00 else a * w.w00 - b * w.w01;
        var bNew := if odd then a * w.w10 - b * w.w11 else b * w.w11 - a * w.w10;
        assert aNew >= 0 && bNew >= 0;
        a, b := aNew, bNew;
        u0, u1 := w.w00 * u0 + w.w01 * u1, w.w10 * u0 + w.w11 * u1;
        if odd {
          parity := -parity;
        }
        assert V() == Batch(g, w, odd);
      }
    }

    /** The gcd with its closing cross-check: the plain loop's answer is taken when the
        fast loop failed, and agrees with the fast loop's otherwise. */
    method GcdUnsigned(threshold: nat, baseBits: nat, maxSteps: nat, maxIter: nat)
      requires V().Valid() && a > threshold
      modifies this
      ensures V() == SlowGcd(old(V()), threshold)
    {
      var check := new GcdCell(V());
      var valid := FastLoop(threshold, baseBits, maxSteps, maxIter);
      check.GcdUnsignedSlow(threshold);
      if valid {
        assert V() == check.V();
      } else {
        a, b, u0, u1, parity := check.a, check.b, check.u0, check.u1, check.parity;
      }
    }
  }

  lemma HeadsFit(a: nat, b: nat, threshold: nat, shift: nat)
    requires a >= b > threshold && BitLength(a) <= shift + 128
    ensures Head(a, shift) == a / Pow2(shift) < WORD_128
    ensures Head(b, shift) == b / Pow2(shift)
    ensures Head(threshold, shift) == threshold / Pow2(shift)
  {
    HeadIsQuotient(a, shift);
    BitLengthMonotone(b, a);
    HeadIsQuotient(b, shift);
    BitLengthMonotone(threshold, a);
    HeadIsQuotient(threshold, shift);
  }

}
