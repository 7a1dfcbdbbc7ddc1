/** Lehmer's shortcut: quotients computed on the leading words of two integers are
    the true quotients as long as an acceptance test on the cofactors passes. */
module Lehmer {
  import opened Integers
  import opened Euclid
  import opened Words

  /** A cofactor matrix: the rows (bb2, aa2) and (bb1, aa1) express two consecutive
      remainders through the starting pair. */
  datatype Rows = Rows(bb2: int, aa2: int, bb1: int, aa1: int)

  const IDENTITY_ROWS := Rows(1, 0, 0, 1)

  function NextRows(m: Rows, q: int): Rows {
    Rows(m.bb1, m.aa1, m.bb2 - q * m.bb1, m.aa2 - q * m.aa1)
  }

  function ApplyRows(e: State, m: Rows): State {
    State(m.bb2 * e.r2 + m.aa2 * e.r1, m.bb1 * e.r2 + m.aa1 * e.r1,
          m.bb2 * e.co2 + m.aa2 * e.co1, m.bb1 * e.co2 + m.aa1 * e.co1,
          m.bb2 * e.d2 + m.aa2 * e.d1, m.bb1 * e.d2 + m.aa1 * e.d1)
  }

  lemma NextRow(x2: int, x1: int, m: Rows, q: int)
    ensures (m.bb2 * x2 + m.aa2 * x1) - q * (m.bb1 * x2 + m.aa1 * x1)
         == (m.bb2 - q * m.bb1) * x2 + (m.aa2 - q * m.aa1) * x1
  {
    Distribute(q, m.bb1 * x2, m.aa1 * x1);
    Distribute(x2, m.bb2, q * m.bb1);
    Distribute(x1, m.aa2, q * m.aa1);
  }

  lemma ApplyNextRows(e: State, m: Rows, q: int)
    requires ApplyRows(e, m).r1 > 0 && ApplyRows(e, m).r2 / ApplyRows(e, m).r1 == q
    ensures Step(ApplyRows(e, m)) == ApplyRows(e, NextRows(m, q))
  {
    NextRow(e.r2, e.r1, m, q);
    NextRow(e.co2, e.co1, m, q);
    NextRow(e.d2, e.d1, m, q);
  }

  /** The sign pattern of the rows after an even or odd number of steps. */
  predicate Alternating(m: Rows, odd: bool) {
    if odd then
      m.bb2 <= 0 < m.bb1 && m.aa1 < 0 < m.aa2 && m.bb2 * m.aa1 - m.aa2 * m.bb1 == -1
    else
      m.bb1 <= 0 < m.bb2 && m.aa2 <= 0 < m.aa1 && m.bb2 * m.aa1 - m.aa2 * m.bb1 == 1
  }

  lemma NextDeterminant(m: Rows, q: int)
    ensures var n := NextRows(m, q); n.bb2 * n.aa1 - n.aa2 * n.bb1 == -(m.bb2 * m.aa1 - m.aa2 * m.bb1)
  {
    Distribute(m.bb1, m.aa2, q * m.aa1);
    Distribute(m.aa1, m.bb2, q * m.bb1);
    Reassociate(q, m.bb1, m.aa1);
    Reassociate(q, m.aa1, m.bb1);
  }

  lemma NextSign(x: int, y: int, q: int)
    requires q >= 1
    ensures y < 0 <= x ==> x - q * y > 0
    ensures x <= 0 < y ==> x - q * y < 0
    ensures y <= 0 < x ==> x - q * y > 0
    ensures x < 0 <= y ==> x - q * y < 0
  {
    ProductGrows(q, y);
    ProductGrows(q, -y);
    NegateProduct(q, y);
  }

  lemma NextAlternates(m: Rows, q: int, odd: bool)
    requires Alternating(m, odd) && q >= 1
    ensures Alternating(NextRows(m, q), !odd)
    ensures if odd then NextRows(m, q).bb1 < 0 < NextRows(m, q).aa1 else NextRows(m, q).aa1 < 0 < NextRows(m, q).bb1
  {
    NextDeterminant(m, q);
    NextSign(m.bb2, m.bb1, q);
    NextSign(m.aa2, m.aa1, q);
  }

  /** The heart of the acceptance test. The new remainder t and the current one r of
      the leading words stand for M*t + tb*eb + ta*ea and M*r + lb*eb + la*ea of the
      full integers, where ea, eb < M are the truncated parts. */
  lemma AcceptedRemainder(M: int, ea: int, eb: int, r: int, t: int, ta: int, tb: int, la: int, lb: int)
    requires 0 <= ea < M && 0 <= eb < M
    requires ta <= 0 < tb && lb <= 0 <= la
    requires t >= -ta && r - t >= tb - lb
    ensures 0 <= M * t + tb * eb + ta * ea < M * r + lb * eb + la * ea
    ensures ta < 0 ==> 0 < M * t + tb * eb + ta * ea
  {
    assert M * t >= M * -ta by { ProductGrows(M, t + ta); Distribute(M, t, -ta); }
    assert M * -ta + ta * ea == -ta * (M - ea) by { Distribute(-ta, M, ea); }
    ProductGrows(-ta, M - ea);
    ProductGrows(tb, eb);
    assert M * (r - t) >= M * (tb - lb) by { ProductGrows(M, (r - t) - (tb - lb)); Distribute(M, r - t, tb - lb); }
    Distribute(M, r, t);
    assert M * (tb - lb) - (tb - lb) * eb == (tb - lb) * (M - eb) by { Distribute(tb - lb, M, eb); }
    ProductGrows(tb - lb, M - eb);
    Distribute(eb, tb, lb);
    ProductGrows(la - ta, ea);
    Distribute(ea, la, ta);
  }

  /** The rows bound their own entries: |bb2|*r1 + |bb1|*r2 is the smaller starting value
      and |aa2|*r1 + |aa1|*r2 the larger one. */
  lemma RowsBoundEntries(R2: int, R1: int, m: Rows, odd: bool, r2: int, r1: int)
    requires Alternating(m, odd)
    requires r2 == m.bb2 * R2 + m.aa2 * R1 && r1 == m.bb1 * R2 + m.aa1 * R1
    ensures if odd then m.aa2 * r1 - m.aa1 * r2 == R2 && m.bb1 * r2 - m.bb2 * r1 == R1
            else m.aa1 * r2 - m.aa2 * r1 == R2 && m.bb2 * r1 - m.bb1 * r2 == R1
  {
    var det := m.bb2 * m.aa1 - m.aa2 * m.bb1;
    assert m.aa1 * r2 - m.aa2 * r1 == det * R2 by {
      Distribute(m.aa1, m.bb2 * R2, m.aa2 * R1);
      Distribute(m.aa2, m.bb1 * R2, m.aa1 * R1);
    }
    assert m.bb2 * r1 - m.bb1 * r2 == det * R1 by {
      Distribute(m.bb2, m.bb1 * R2, m.aa1 * R1);
      Distribute(m.bb1, m.bb2 * R2, m.aa2 * R1);
    }
  }

  // ----- A run of quotients on leading words -----

  lemma LiftRow(M: int, R2: int, R1: int, eb: int, ea: int, bb: int, aa: int)
    ensures bb * (M * R2 + eb) + aa * (M * R1 + ea) == M * (bb * R2 + aa * R1) + bb * eb + aa * ea
  {
    Distribute(bb, M * R2, eb);
    Distribute(aa, M * R1, ea);
    Distribute(M, bb * R2, aa * R1);
  }

  /** The state of the single-word loop: rows applied to the leading words, and the
      same rows applied to the full state are a run of Euclid's algorithm. */
  ghost predicate WordInvariant(e: State, M: int, m: Rows, i: nat, rr2: int, rr1: int) {
    && M > 0 && e.r2 >= 0 && e.r1 >= 0
    && rr2 == m.bb2 * (e.r2 / M) + m.aa2 * (e.r1 / M)
    && rr1 == m.bb1 * (e.r2 / M) + m.aa1 * (e.r1 / M)
    && rr2 >= rr1 >= 0
    && Alternating(m, i % 2 == 1)
    && Iterate(e, i) == ApplyRows(e, m)
    && Live(e, i)
  }

  /** The acceptance test of the loop. */
  predicate Accepted(m: Rows, odd: bool, rr1: int, t1: int, q: int) {
    var t2, t3 := m.aa2 - q * m.aa1, m.bb2 - q * m.bb1;
    if odd then t1 >= -t3 && rr1 - t1 >= t2 - m.aa1 else t1 >= -t2 && rr1 - t1 >= t3 - m.bb1
  }

  lemma FullRemainders(e: State, M: int, m: Rows, rr2: int, rr1: int, q: int)
    requires M > 0
    requires rr2 == m.bb2 * (e.r2 / M) + m.aa2 * (e.r1 / M)
    requires rr1 == m.bb1 * (e.r2 / M) + m.aa1 * (e.r1 / M)
    ensures ApplyRows(e, m).r1 == M * rr1 + m.bb1 * (e.r2 % M) + m.aa1 * (e.r1 % M)
    ensures var n := NextRows(m, q);
            ApplyRows(e, m).r2 - q * ApplyRows(e, m).r1
            == M * (rr2 - q * rr1) + n.bb1 * (e.r2 % M) + n.aa1 * (e.r1 % M)
  {
    var n := NextRows(m, q);
    var R2, R1, eb, ea := e.r2 / M, e.r1 / M, e.r2 % M, e.r1 % M;
    assert e.r2 == M * R2 + eb && e.r1 == M * R1 + ea;
    LiftRow(M, R2, R1, eb, ea, m.bb1, m.aa1);
    LiftRow(M, R2, R1, eb, ea, n.bb1, n.aa1);
    NextRow(R2, R1, m, q);
    NextRow(e.r2, e.r1, m, q);
  }

  /** An accepted single-word quotient is the true quotient of the full integers. */
  lemma AcceptedIsTrueQuotient(e: State, M: int, m: Rows, i: nat, rr2: int, rr1: int, q: int)
    requires WordInvariant(e, M, m, i, rr2, rr1) && rr1 > 0 && q == rr2 / rr1
    requires Accepted(m, i % 2 == 1, rr1, rr2 - q * rr1, q)
    ensures WordInvariant(e, M, NextRows(m, q), i + 1, rr1, rr2 - q * rr1)
    ensures rr2 - q * rr1 < rr1 && ApplyRows(e, NextRows(m, q)).r1 > 0
  {
    var n, t1, x := NextRows(m, q), rr2 - q * rr1, ApplyRows(e, m);
    DivisionStep(rr2, rr1);
    FullRemainders(e, M, m, rr2, rr1, q);
    NextAlternates(m, q, i % 2 == 1);
    NextRow(e.r2 / M, e.r1 / M, m, q);
    if i % 2 == 1 {
      AcceptedRemainder(M, e.r2 % M, e.r1 % M, rr1, t1, n.bb1, n.aa1, m.bb1, m.aa1);
    } else {
      AcceptedRemainder(M, e.r1 % M, e.r2 % M, rr1, t1, n.aa1, n.bb1, m.aa1, m.bb1);
    }
    QuotientUnique(x.r2, x.r1, q);
    ApplyNextRows(e, m, q);
  }

  lemma WordStart(e: State, M: int)
    requires M > 0 && e.r2 >= e.r1 >= 0
    ensures WordInvariant(e, M, IDENTITY_ROWS, 0, e.r2 / M, e.r1 / M)
  {
    DivideMonotone(e.r1, e.r2, M);
    WordStartHeads(e, M, IDENTITY_ROWS, e.r2 / M, e.r1 / M);
  }

  /** Only the leading words need to be in order: on a tie no quotient is accepted. */
  lemma WordStartHeads(e: State, M: int, m: Rows, rr2: int, rr1: int)
    requires M > 0 && e.r2 >= 0 && e.r1 >= 0 && m == IDENTITY_ROWS
    requires rr2 == e.r2 / M && rr1 == e.r1 / M && rr2 >= rr1 >= 0
    ensures WordInvariant(e, M, m, 0, rr2, rr1)
  {
    assert ApplyRows(e, IDENTITY_ROWS) == e;
  }

}
