/** The partial extended gcd: Euclid's algorithm stopped at a bound L, run mostly on
    single machine words. */
module XgcdPartial {
  import opened Integers
  import opened Euclid
  import opened Lehmer
  import opened Words

  /** What the loop forms in its words for one quotient q, given the next rows n and the
      products of q with rr1 and the rows. The last difference is only formed once the first half of the test has
      passed. */
  predicate StepFits(m: Rows, n: Rows, odd: bool, q: int, qr: int, qa: int, qb: int, t1: int) {
    && FitsLimb(q) && FitsLimb(qr) && FitsLimb(qa) && FitsLimb(qb)
    && FitsLimb(n.aa1) && FitsLimb(n.bb1) && FitsLimb(-n.aa1) && FitsLimb(-n.bb1)
    && (odd ==> t1 >= -n.bb1 ==> FitsLimb(n.aa1 - m.aa1))
    && (!odd ==> t1 >= -n.aa1 ==> FitsLimb(n.bb1 - m.bb1))
  }

  /** No intermediate value of an iteration leaves the range of a signed word, given
      that the difference in the second half of the test is only formed once the
      first half has passed. */
  lemma WordsFit(m: Rows, odd: bool, R2: int, R1: int, rr2: int, rr1: int, q: int, t1: int)
    requires Alternating(m, odd) && 0 <= R1 <= R2 < LIMB_LIMIT
    requires rr2 == m.bb2 * R2 + m.aa2 * R1 && rr1 == m.bb1 * R2 + m.aa1 * R1
    requires R2 >= rr2 >= rr1 > 0 && q == rr2 / rr1 && t1 == rr2 - q * rr1
    ensures StepFits(m, NextRows(m, q), odd, q, q * rr1, q * m.aa1, q * m.bb1, t1)
  {
    DivisionStep(rr2, rr1);
    ProductGrows(q, rr1);
    EntriesBounded(m, odd, R2, R1, rr2, rr1, q, t1);
  }

  lemma EntriesBounded(m: Rows, odd: bool, R2: int, R1: int, rr2: int, rr1: int, q: int, t1: int)
    requires Alternating(m, odd) && rr1 > t1 >= 0 && q >= 1 && t1 == rr2 - q * rr1
    requires rr2 == m.bb2 * R2 + m.aa2 * R1 && rr1 == m.bb1 * R2 + m.aa1 * R1
    ensures var n := NextRows(m, q);
            && Alternating(n, !odd)
            && (if odd then n.aa1 <= R2 && -n.bb1 <= R1 else -n.aa1 <= R2 && n.bb1 <= R1)
            && (t1 >= 1 && odd ==> n.aa1 - n.aa2 <= R2 && n.bb2 - n.bb1 <= R1)
            && (t1 >= 1 && !odd ==> n.aa2 - n.aa1 <= R2 && n.bb1 - n.bb2 <= R1)
  {
    var n := NextRows(m, q);
    NextAlternates(m, q, odd);
    NextRow(R2, R1, m, q);
    RowsBoundEntries(R2, R1, n, !odd, rr1, t1);
    if odd {
      NegateProduct(n.aa2, t1);
      NegateProduct(n.bb1, rr1);
      PairBound(n.aa1, -n.aa2, rr1, t1, R2);
      PairBound(-n.bb1, n.bb2, rr1, t1, R1);
    } else {
      NegateProduct(n.aa1, rr1);
      NegateProduct(n.bb2, t1);
      PairBound(-n.aa1, n.aa2, rr1, t1, R2);
      PairBound(n.bb1, -n.bb2, rr1, t1, R1);
    }
  }

  lemma PairBound(p: int, p': int, r: int, t: int, R: int)
    requires p >= 0 && p' >= 0 && r > t >= 0 && p * r + p' * t == R
    ensures p <= R && (t >= 1 ==> p + p' <= R)
  {
    ProductGrows(p', t);
    ProductGrows(p, r);
  }

  // ----- How many division steps are taken -----

  /** The accepted quotients of the leading words, as rows, and their number. */
  ghost function WordRun(m: Rows, i: nat, rr2: int, rr1: int, bb: int): (r: (Rows, nat))
    decreases if rr1 > 0 then rr1 else 0
  {
    if rr1 <= 0 || rr1 <= bb then (m, i)
    else
      var q := rr2 / rr1;
      var t1 := rr2 - q * rr1;
      assert t1 == rr2 % rr1;
      if Accepted(m, i % 2 == 1, rr1, t1, q) then WordRun(NextRows(m, q), i + 1, rr1, t1, bb) else (m, i)
  }

  /** The division steps of one round of the outer loop. */
  ghost function RoundSteps(e: State, L: nat): (n: nat)
    requires e.r2 >= 0 && e.r1 >= 0
    ensures n > 0
  {
    var bits := WindowShift(e.r2, e.r1);
    var i := WordRun(IDENTITY_ROWS, 0, e.r2 / Pow2(bits), e.r1 / Pow2(bits), L / Pow2(bits)).1;
    if i == 0 then 1 else i
  }

  /** The number of division steps from e on. The last guard always passes, as Partial shows. */
  ghost function StepsTaken(e: State, L: nat): (n: nat)
    requires e.r2 >= 0
    decreases e.r1
  {
    if e.r1 <= L then 0
    else
      var steps := RoundSteps(e, L);
      var e' := Iterate(e, steps);
      if e'.r2 >= 0 && 0 <= e'.r1 < e.r1 then steps + StepsTaken(e', L) else steps
  }

  // ----- A first quotient of zero -----

  /** The rows in terms of the pair the other way round. */
  function Swapped(m: Rows): Rows {
    Rows(m.aa2, m.bb2, m.aa1, m.bb1)
  }

  /** A quotient of zero only exchanges the pair. */
  lemma SwapStep(e: State)
    requires 0 <= e.r2 < e.r1
    ensures Step(e) == State(e.r1, e.r2, e.co1, e.co2, e.d1, e.d2)
  {
    QuotientUnique(e.r2, e.r1, 0);
  }

  /** The leading parts of a pair. */
  predicate Heads(e: State, M: int, head2: int, head1: int) {
    M > 0 && e.r2 > 0 && e.r1 >= 0 && head2 == e.r2 / M >= 0 && head1 == e.r1 / M >= 0
  }

  lemma HeadsAreNumbers(e: State, M: int)
    requires M > 0 && e.r2 > 0 && e.r1 >= 0
    ensures Heads(e, M, e.r2 / M, e.r1 / M)
  {
    DivideMonotone(0, e.r2, M);
    DivideMonotone(0, e.r1, M);
  }

  /** The state of the word loop, also when the pair is in the wrong order: then the first
      quotient is zero, and what follows is the run of the exchanged pair. */
  ghost predicate RunInvariant(e: State, M: int, head2: int, head1: int, m: Rows, i: nat, rr2: int, rr1: int) {
    && Heads(e, M, head2, head1)
    && if head2 >= head1 then WordInvariant(e, M, m, i, rr2, rr1)
       else if i == 0 then m == IDENTITY_ROWS && rr2 == head2 && rr1 == head1
       else WordInvariant(Step(e), M, Swapped(m), i - 1, rr2, rr1)
  }

  lemma HeadsInOrder(e: State, M: int, head2: int, head1: int)
    requires Heads(e, M, head2, head1) && head2 < head1
    ensures e.r2 < e.r1
  {
    if e.r2 >= e.r1 {
      DivideMonotone(e.r1, e.r2, M);
    }
  }

  lemma SwappedNext(m: Rows, q: int)
    ensures Swapped(NextRows(m, q)) == NextRows(Swapped(m), q)
  {
  }

  lemma SwappedApply(e: State, m: Rows)
    requires 0 <= e.r2 < e.r1
    ensures ApplyRows(e, m) == ApplyRows(Step(e), Swapped(m))
  {
    SwapStep(e);
  }

  /** The two halves of the test are each other's mirror image. */
  lemma SwappedAccepted(m: Rows, i: nat, rr1: int, t1: int, q: int)
    requires i > 0
    ensures Accepted(m, i % 2 == 1, rr1, t1, q) <==> Accepted(Swapped(m), (i - 1) % 2 == 1, rr1, t1, q)
  {
  }

  lemma RunApplies(e: State, M: int, head2: int, head1: int, m: Rows, i: nat, rr2: int, rr1: int)
    requires RunInvariant(e, M, head2, head1, m, i, rr2, rr1)
    ensures Iterate(e, i) == ApplyRows(e, m)
  {
    if head2 < head1 {
      HeadsInOrder(e, M, head2, head1);
      SwapStep(e);
      if i > 0 {
        IterateAdd(e, 1, i - 1);
        assert Iterate(e, 1) == Step(Iterate(e, 0));
        SwappedApply(e, m);
      } else {
        assert ApplyRows(e, IDENTITY_ROWS) == e;
      }
    }
  }

  lemma RunStart(e: State, M: int, head2: int, head1: int)
    requires Heads(e, M, head2, head1)
    ensures RunInvariant(e, M, head2, head1, IDENTITY_ROWS, 0, head2, head1)
  {
    if head2 >= head1 {
      WordStartHeads(e, M, IDENTITY_ROWS, head2, head1);
    }
  }

  /** An accepted quotient carries the run on. */
  lemma RunStep(e: State, M: int, head2: int, head1: int, m: Rows, i: nat, rr2: int, rr1: int, q: int)
    requires RunInvariant(e, M, head2, head1, m, i, rr2, rr1) && rr1 > 0 && q == rr2 / rr1
    requires Accepted(m, i % 2 == 1, rr1, rr2 - q * rr1, q)
    ensures RunInvariant(e, M, head2, head1, NextRows(m, q), i + 1, rr1, rr2 - q * rr1)
    ensures rr2 - q * rr1 < rr1 && ApplyRows(e, NextRows(m, q)).r1 > 0
  {
    if head2 >= head1 {
      AcceptedIsTrueQuotient(e, M, m, i, rr2, rr1, q);
    } else {
      HeadsInOrder(e, M, head2, head1);
      if i == 0 {
        FirstQuotient(m, rr2, rr1, q, rr2 - q * rr1, NextRows(m, q));
        FirstSwap(e, M, head2, head1, NextRows(m, q));
      } else {
        SwappedRunStep(e, M, m, i, rr2, rr1, q);
      }
    }
  }

  lemma FirstQuotient(m: Rows, x: nat, y: nat, q: int, t: int, n: Rows)
    requires m == IDENTITY_ROWS && x < y && q == x / y && t == x - q * y && n == NextRows(m, q)
    ensures t == x && n == Rows(0, 1, 1, 0)
  {
    ZeroQuotient(x, y, q);
    ZeroRows();
  }

  lemma FirstSwap(e: State, M: int, head2: int, head1: int, n: Rows)
    requires Heads(e, M, head2, head1) && head2 < head1 && e.r2 < e.r1 && n == Rows(0, 1, 1, 0)
    ensures ApplyRows(e, n).r1 == e.r2
    ensures WordInvariant(Step(e), M, Swapped(n), 0, head1, head2)
  {
    SwapStep(e);
    WordStartHeads(Step(e), M, Swapped(n), head1, head2);
  }

  lemma ZeroQuotient(x: nat, y: nat, q: int)
    requires x < y && q == x / y
    ensures q == 0 && x - q * y == x
  {
  }

  lemma SwappedRunStep(e: State, M: int, m: Rows, i: nat, rr2: int, rr1: int, q: int)
    requires 0 < e.r2 < e.r1 && i > 0
    requires WordInvariant(Step(e), M, Swapped(m), i - 1, rr2, rr1) && rr1 > 0 && q == rr2 / rr1
    requires Accepted(m, i % 2 == 1, rr1, rr2 - q * rr1, q)
    ensures WordInvariant(Step(e), M, Swapped(NextRows(m, q)), i, rr1, rr2 - q * rr1)
    ensures rr2 - q * rr1 < rr1 && ApplyRows(e, NextRows(m, q)).r1 > 0
  {
    SwappedAccepted(m, i, rr1, rr2 - q * rr1, q);
    SwappedNext(m, q);
    SwappedApply(e, NextRows(m, q));
    AcceptedIsTrueQuotient(Step(e), M, Swapped(m), i - 1, rr2, rr1, q);
  }

  lemma SwappedStepFits(m: Rows, n: Rows, i: nat, q: int, qr: int, qa: int, qb: int, t1: int)
    requires i > 0
    ensures StepFits(m, n, i % 2 == 1, q, qr, qa, qb, t1)
       <==> StepFits(Swapped(m), Swapped(n), (i - 1) % 2 == 1, q, qr, qb, qa, t1)
  {
  }

  lemma ZeroRows()
    ensures NextRows(IDENTITY_ROWS, 0) == Rows(0, 1, 1, 0)
  {
  }

  lemma ZeroProduct(x: int)
    ensures 0 * x == 0
  {
  }

  lemma ZeroStepFits(t1: int)
    ensures StepFits(IDENTITY_ROWS, Rows(0, 1, 1, 0), false, 0, 0, 0, 0, t1)
  {
  }

  lemma FirstStepFits(m: Rows, rr2: nat, rr1: nat, q: int, t1: int)
    requires m == IDENTITY_ROWS && rr2 < rr1 && q == rr2 / rr1
    ensures StepFits(m, NextRows(m, q), false, q, q * rr1, q * m.aa1, q * m.bb1, t1)
  {
    ZeroQuotient(rr2, rr1, q);
    ZeroRows();
    ZeroProduct(rr1);
    ZeroProduct(m.aa1);
    ZeroProduct(m.bb1);
    ZeroStepFits(t1);
  }

  lemma LaterStepFits(m: Rows, i: nat, head2: int, head1: int, rr2: int, rr1: int, q: int, t1: int)
    requires i > 0 && Alternating(Swapped(m), (i - 1) % 2 == 1) && 0 <= head2 <= head1 < LIMB_LIMIT
    requires var m' := Swapped(m); rr2 == m'.bb2 * head1 + m'.aa2 * head2 && rr1 == m'.bb1 * head1 + m'.aa1 * head2
    requires head1 >= rr2 >= rr1 > 0 && q == rr2 / rr1 && t1 == rr2 - q * rr1
    ensures StepFits(m, NextRows(m, q), i % 2 == 1, q, q * rr1, q * m.aa1, q * m.bb1, t1)
  {
    SwappedNext(m, q);
    WordsFit(Swapped(m), (i - 1) % 2 == 1, head1, head2, rr2, rr1, q, t1);
    SwappedStepFits(m, NextRows(m, q), i, q, q * rr1, q * m.aa1, q * m.bb1, t1);
  }

  /** The same for a state of the loop, whatever the order of the pair. */
  lemma RunFits(e: State, M: int, head2: int, head1: int, m: Rows, i: nat, rr2: int, rr1: int, q: int, t1: int)
    requires RunInvariant(e, M, head2, head1, m, i, rr2, rr1)
    requires rr1 > 0 && q == rr2 / rr1 && t1 == rr2 - q * rr1 && head2 < LIMB_LIMIT && head1 < LIMB_LIMIT
    requires rr2 <= head2 || (head2 < head1 && i > 0 && rr2 <= head1)
    ensures StepFits(m, NextRows(m, q), i % 2 == 1, q, q * rr1, q * m.aa1, q * m.bb1, t1)
  {
    if head2 >= head1 {
      WordsFit(m, i % 2 == 1, head2, head1, rr2, rr1, q, t1);
    } else if i == 0 {
      FirstStepFits(m, rr2, rr1, q, t1);
    } else {
      HeadsInOrder(e, M, head2, head1);
      SwapStep(e);
      LaterStepFits(m, i, head2, head1, rr2, rr1, q, t1);
    }
  }

  /** The inner loop: quotients of the leading words rr2, rr1 until one is not certain
      or the bound bb is reached. Every variable stays in the range of a signed word. */
  method WordQuotients(head2: int, head1: int, bb: int, ghost e: State, ghost M: int)
    returns (m: Rows, i: nat)
    requires M > 0 && e.r2 > 0 && e.r1 >= 0
    requires head2 == e.r2 / M < LIMB_LIMIT && head1 == e.r1 / M < LIMB_LIMIT && 0 <= bb
    ensures Iterate(e, i) == ApplyRows(e, m)
    ensures i > 0 ==> Iterate(e, i).r1 > 0
    ensures (m, i) == WordRun(IDENTITY_ROWS, 0, head2, head1, bb)
  {
    var rr2, rr1 := head2, head1;
    var aa2, aa1 := 0, 1;
    var bb2, bb1 := 1, 0;
    i := 0;
    HeadsAreNumbers(e, M);
    RunStart(e, M, head2, head1);
    while rr1 != 0 && rr1 > bb
      invariant RunInvariant(e, M, head2, head1, Rows(bb2, aa2, bb1, aa1), i, rr2, rr1)
      invariant i > 0 ==> ApplyRows(e, Rows(bb2, aa2, bb1, aa1)).r1 > 0
      invariant rr2 <= head2 || (head2 < head1 && i > 0 && rr2 <= head1)
      invariant rr2 >= 0 && rr1 >= 0 && (i == 0 ==> rr2 == head2 && rr1 == head1) && (i > 0 ==> rr1 <= rr2)
      invariant WordRun(IDENTITY_ROWS, 0, head2, head1, bb) == WordRun(Rows(bb2, aa2, bb1, aa1), i, rr2, rr1, bb)
      decreases rr1
    {
      var qq := rr2 / rr1;
      var t1 := rr2 - qq * rr1;
      var t2 := aa2 - qq * aa1;
      var t3 := bb2 - qq * bb1;
      ghost var rows := Rows(bb2, aa2, bb1, aa1);
      RunFits(e, M, head2, head1, rows, i, rr2, rr1, qq, t1);
      if i % 2 == 1 {
        if t1 < -t3 {
          break;
        }
        if rr1 - t1 < t2 - aa1 {
          break;
        }
      } else {
        if t1 < -t2 {
          break;
        }
        if rr1 - t1 < t3 - bb1 {
          break;
        }
      }
      RunStep(e, M, head2, head1, rows, i, rr2, rr1, qq);
      rr2, rr1 := rr1, t1;
      aa2, aa1 := aa1, t2;
      bb2, bb1 := bb1, t3;
      i := i + 1;
    }
    m := Rows(bb2, aa2, bb1, aa1);
    RunApplies(e, M, head2, head1, m, i, rr2, rr1);
  }

  /** How many low bits the word-sized view drops. */
  function WindowShift(r2: nat, r1: nat): (bits: nat)
    ensures BitLength(r2) <= bits + 63 && BitLength(r1) <= bits + 63
  {
    var bits2, bits1 := BitLength(r2), BitLength(r1);
    var bits := (if bits2 >= bits1 then bits2 else bits1) - LIMB_BITS as int + 1;
    if bits < 0 then 0 else bits
  }

  lemma WindowFits(r2: nat, r1: nat, L: nat, bits: nat)
    requires r1 >= L && BitLength(r2) <= bits + 63 && BitLength(r1) <= bits + 63
    ensures 0 <= L / Pow2(bits) <= r1 / Pow2(bits) < LIMB_LIMIT && 0 <= r2 / Pow2(bits) < LIMB_LIMIT
  {
    HeadFits(r2, bits, 63);
    HeadFits(r1, bits, 63);
    Pow2OfLimb();
    DivideMonotone(L, r1, Pow2(bits));
  }

  /** One round of the outer loop: a run of word-sized quotients, or one full division. */
  method Round(ghost R2: int, ghost R1: int, L: int, co2_0: int, co1_0: int, r2_0: int, r1_0: int, ghost n: nat)
    returns (co2: int, co1: int, r2: int, r1: int, ghost steps: nat)
    requires r2_0 > 0 && r1_0 > L >= 0
    requires var e := Iterate(Start(R2, R1), n);
             e.r2 == r2_0 && e.r1 == r1_0 && e.co2 == co2_0 && e.co1 == co1_0
    ensures steps == RoundSteps(Iterate(Start(R2, R1), n), L)
    ensures var e := Iterate(Start(R2, R1), n + steps);
            e.r2 == r2 && e.r1 == r1 && e.co2 == co2 && e.co1 == co1 && r2 > r1 >= 0 && r1 < r1_0
    ensures r1 == 0 ==> r2 > L
  {
    co2, co1, r2, r1 := co2_0, co1_0, r2_0, r1_0;
    ghost var e := Iterate(Start(R2, R1), n);
    var bits := WindowShift(r2, r1);
    var rr2 := r2 / Pow2(bits);
    var rr1 := r1 / Pow2(bits);
    var bb := L / Pow2(bits);
    WindowFits(r2, r1, L, bits);
    assert FitsLimb(rr2) && FitsLimb(rr1) && FitsLimb(bb);
    var m, i := WordQuotients(rr2, rr1, bb, e, Pow2(bits));
    steps := if i == 0 then 1 else i;
    StepsDecrease(e, steps);
    IterateAdd(Start(R2, R1), n, steps);
    if i == 0 {
      var q := r2 / r1;
      r2, r1 := r1, r2 - q * r1;
      co2, co1 := co1, co2 - q * co1;
    } else {
      r2, r1 := m.bb2 * r2 + m.aa2 * r1, m.bb1 * r2 + m.aa1 * r1;
      co2, co1 := m.bb2 * co2 + m.aa2 * co1, m.bb1 * co2 + m.aa1 * co1;
      if r1 < 0 {
        co1, r1 := -co1, -r1;
      }
      if r2 < 0 {
        co2, r2 := -co2, -r2;
      }
    }
  }

  /** Runs Euclid's algorithm from (R2, R1) until the smaller remainder is at most L,
      possibly some steps further. The result is the state after some number n of plain
      division steps: the word-sized quotients are all correct and the final sign
      corrections of the original never apply. Steps on words never reach remainder zero.
      The pair may be in either order; a smaller R2 costs one more step. */
  method Partial(R2: int, R1: int, L: int) returns (co2: int, co1: int, r2: int, r1: int, ghost n: nat)
    requires R2 > 0 && R1 >= 0 && L >= 0
    ensures var e := Iterate(Start(R2, R1), n);
            r2 == e.r2 && r1 == e.r1 && co2 == e.co2 && co1 == e.co1
    ensures n == StepsTaken(Start(R2, R1), L)
    ensures r1 <= L && r1 >= 0
    ensures R1 <= L <==> n == 0
    ensures n > 0 ==> r1 < r2
    ensures r1 == 0 && R1 > 0 ==> r2 > L
  {
    r2, r1 := R2, R1;
    co2, co1 := 0, -1;
    n := 0;
    while r1 != 0 && r1 > L
      invariant var e := Iterate(Start(R2, R1), n);
                r2 == e.r2 && r1 == e.r1 && co2 == e.co2 && co1 == e.co1
      invariant r2 > 0 && r1 >= 0 && (n > 0 ==> r2 > r1)
      invariant StepsTaken(Start(R2, R1), L) == n + StepsTaken(Iterate(Start(R2, R1), n), L)
      invariant (R1 <= L ==> n == 0) && (n == 0 ==> r1 == R1)
      invariant r1 == 0 && R1 > 0 ==> r2 > L
      decreases r1
    {
      ghost var e := Iterate(Start(R2, R1), n);
      ghost var steps;
      co2, co1, r2, r1, steps := Round(R2, R1, L, co2, co1, r2, r1, n);
      IterateAdd(Start(R2, R1), n, steps);
      n := n + steps;
    }
    if r2 < 0 {
      co2, co1, r2 := -co2, -co1, -r2;
    }
  }

  /** From any pair of positive numbers the first step already puts them in order. */
  lemma {:induction false} StepsDecrease(e: State, i: nat)
    requires e.r2 > 0 && e.r1 > 0 && i > 0
    ensures var x := Iterate(e, i); x.r2 > x.r1 >= 0 && x.r1 < e.r1
  {
    if i > 1 {
      StepsDecrease(e, i - 1);
    }
    var x := Iterate(e, i - 1);
    if x.r1 > 0 {
      assert x.r2 == x.r2 / x.r1 * x.r1 + x.r2 % x.r1;
    }
  }

}
