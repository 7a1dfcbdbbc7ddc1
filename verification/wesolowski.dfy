/** The bucketed Wesolowski prover, its two-way split, and the verifiers. */
module Wesolowski {
  import opened Integers
  import opened Words
  import opened Groups

  // ----- The exponent -----

  /** Exponent of the proof: the floor of 2^T / B. */
  function ProofExponent(T: nat, B: nat): nat
    requires B > 0
  {
    Pow2(T) / B
  }

  /** The i-th block as the prover computes it: a modular power, shifted and divided, of
      which the low word is returned. */
  function GetBlock(i: nat, k: nat, T: nat, B: nat): nat
    requires B > 0 && k * (i + 1) <= T
  {
    Pow2(T - k * (i + 1)) % B * Pow2(k) / B % WORD
  }

  /** The block where the prover adds one, and zero where it adds none. */
  function Digit(i: nat, k: nat, T: nat, B: nat): nat
    requires B > 0
  {
    if k * (i + 1) <= T then GetBlock(i, k, T, B) else 0
  }

  /** A block is the base-2^k digit of the exponent at its position. */
  lemma BlockIsDigit(i: nat, k: nat, T: nat, B: nat)
    requires B > 0 && k <= 64 && k * (i + 1) <= T
    ensures 0 <= k * i <= T && GetBlock(i, k, T, B) < Pow2(k)
    ensures ProofExponent(T - k * i, B) == ProofExponent(T - k * (i + 1), B) * Pow2(k) + GetBlock(i, k, T, B)
    ensures GetBlock(i, k, T, B) == ProofExponent(T - k * i, B) % Pow2(k)
  {
    BlockPosition(i, k, T);
    LongDivision(Pow2(T - k * (i + 1)), Pow2(k), B);
    WordHolds(k, Pow2(T - k * (i + 1)) % B * Pow2(k) / B);
  }

  lemma BlockPosition(i: nat, k: nat, T: nat)
    requires k * (i + 1) <= T
    ensures 0 <= k * i <= T && Pow2(T - k * i) == Pow2(T - k * (i + 1)) * Pow2(k)
  {
    Distribute(k, i, 1);
    ProductGrows(k, i);
    Pow2Add(T - k * (i + 1), k);
  }

  lemma WordHolds(k: nat, d: nat)
    requires k <= 64 && d < Pow2(k)
    ensures d % WORD == d
  {
    Pow2OfLimb();
    Pow2Monotone(k, 64);
  }

  /** Bringing down the next digit: floor((n*p) / B) from floor(n / B) and n mod B. */
  lemma LongDivision(n: nat, p: nat, B: nat)
    requires B > 0 && p > 0
    ensures var d := n % B * p / B; 0 <= d < p && n * p / B == n / B * p + d && d == n * p / B % p
  {
    var q, r := n / B, n % B;
    assert n == q * B + r;
    var d, e := r * p / B, r * p % B;
    assert r * p == d * B + e;
    DivideBelow2(r, p, B);
    assert n * p == (q * p + d) * B + e by {
      Distribute(p, q * B, r);
      Distribute(B, q * p, d);
      Reassociate(p, q, B);
    }
    QuotientIs(n * p, B, q * p + d, e);
    QuotientIs(q * p + d, p, q, d);
  }

  lemma DivideBelow2(r: nat, p: nat, B: nat)
    requires r < B && p > 0
    ensures r * p >= 0 && 0 <= r * p / B < p
  {
    ProductGrows(p, r);
    ProductGrows(p, B - r);
    Distribute(p, B, r);
    DivideBelow(r * p, B, p);
  }

  /** The value of the first n digits. */
  function DigitSum(n: nat, k: nat, T: nat, B: nat): nat
    requires B > 0
  {
    if n == 0 then 0 else DigitSum(n - 1, k, T, B) + Pow2(k * (n - 1)) * Digit(n - 1, k, T, B)
  }

  lemma {:induction false} DigitsTelescope(n: nat, k: nat, T: nat, B: nat)
    requires B > 0 && k <= 64 && k * n <= T
    ensures k * n >= 0 && DigitSum(n, k, T, B) + Pow2(k * n) * ProofExponent(T - k * n, B) == ProofExponent(T, B)
  {
    if n == 0 {
      assert Pow2(0) == 1;
    } else {
      Distribute(k, n, 1);
      ProductGrows(k, n - 1);
      DigitsTelescope(n - 1, k, T, B);
      SplitDigit(n - 1, k, T, k * (n - 1), B);
    }
  }

  /** The digit at position at = k*j split off from the rest of the exponent. */
  lemma SplitDigit(j: nat, k: nat, T: nat, at: nat, B: nat)
    requires B > 0 && k <= 64 && at == k * j && at + k <= T
    ensures Pow2(at) * ProofExponent(T - at, B)
         == Pow2(at) * Digit(j, k, T, B) + Pow2(at + k) * ProofExponent(T - (at + k), B)
  {
    Distribute(k, j, 1);
    BlockIsDigit(j, k, T, B);
    Pow2Add(at, k);
    MoveDigit(Pow2(at), Pow2(k), ProofExponent(T - (at + k), B), Digit(j, k, T, B));
  }

  lemma MoveDigit(p: int, q: int, Q: int, d: int)
    ensures p * (Q * q + d) == p * d + p * q * Q
  {
    Distribute(p, Q * q, d);
    Reassociate(p, q, Q);
  }

  lemma {:induction false} NoDigitsBeyond(m: nat, n: nat, k: nat, T: nat, B: nat)
    requires B > 0 && m <= n && k * (m + 1) > T
    ensures DigitSum(n, k, T, B) == DigitSum(m, k, T, B)
  {
    if m < n {
      NoDigitsBeyond(m, n - 1, k, T, B);
      ProductGrows(k, n - m - 1);
      Distribute(k, m + 1, n - m - 1);
    }
  }

  /** What all digits add up to: the exponent, but for a part that vanishes exactly
      when B exceeds the power of two left over by the division of T by k. */
  lemma AllDigits(n: nat, k: nat, T: nat, B: nat)
    requires B > 0 && 1 <= k <= 64 && k * n >= T
    ensures DigitSum(n, k, T, B) == ProofExponent(T, B) - Pow2(T - T % k) * ProofExponent(T % k, B)
    ensures DigitSum(n, k, T, B) == ProofExponent(T, B) <==> B > Pow2(T % k)
  {
    var m := T / k;
    WholeDigits(k, n, T);
    NoDigitsBeyond(m, n, k, T, B);
    DigitsTelescope(m, k, T, B);
    TopVanishes(Pow2(T % k), Pow2(T - T % k), B);
  }

  lemma WholeDigits(k: nat, n: nat, T: nat)
    requires k >= 1 && k * n >= T
    ensures k * (T / k) == T - T % k && T / k <= n && k * (T / k + 1) > T
  {
    assert T == T / k * k + T % k;
    Distribute(k, T / k, 1);
    CancelLe(k, T / k, n);
  }

  lemma TopVanishes(r: nat, p: nat, B: nat)
    requires p > 0 && B > 0
    ensures p * (r / B) >= 0
    ensures p * (r / B) == 0 <==> B > r
  {
    assert r == r / B * B + r % B;
    ProductGrows(p, r / B);
    if r >= B {
      ProductGrows(B, r / B);
    } else {
      QuotientIs(r, B, 0, r);
    }
  }

  /** A challenge of at least k bits always exceeds the left-over power. */
  lemma ChallengeCovers(k: nat, T: nat, B: nat)
    requires k >= 1 && B >= Pow2(k)
    ensures B > Pow2(T % k)
  {
    Pow2Monotone(T % k, k - 1);
  }

  const CHALLENGE_BITS: nat := 264

  /** The verifier's own challenges have their top bit set, and the block size is the number
      of bits of a word at most. */
  lemma FullChallengeCovers(k: nat, T: nat, B: nat)
    requires 1 <= k <= 64 && B >= Pow2(CHALLENGE_BITS - 1)
    ensures B > Pow2(T % k)
  {
    Pow2Monotone(k, CHALLENGE_BITS - 1);
    ChallengeCovers(k, T, B);
  }

  // ----- The order in which the prover adds the digits -----

  /** The i-th checkpoint is the start form to this power. */
  function CheckpointWeight(i: nat, k: nat, l: nat): nat {
    ProductGrows(i, k);
    ProductGrows(i * k, l);
    Pow2(i * k * l)
  }

  /** The block that checkpoint i contributes to the pass for residue j. */
  function Position(i: nat, l: nat, j: nat): nat {
    ProductGrows(i, l);
    i * l + j
  }

  /** What one pass over the first n checkpoints adds for residue j. */
  function PassSum(j: nat, n: nat, k: nat, l: nat, T: nat, B: nat): nat
    requires B > 0
  {
    if n == 0 then 0
    else PassSum(j, n - 1, k, l, T, B) + CheckpointWeight(n - 1, k, l) * Digit(Position(n - 1, l, j), k, T, B)
  }

  /** The passes for the residues lo <= j < hi, combined from the highest down. */
  function Passes(lo: nat, hi: nat, n: nat, k: nat, l: nat, T: nat, B: nat): nat
    requires B > 0 && lo <= hi
    decreases hi - lo
  {
    if lo == hi then 0 else PassSum(lo, n, k, l, T, B) + Pow2(k) * Passes(lo + 1, hi, n, k, l, T, B)
  }

  /** The digits at positions base + lo to base + hi - 1. */
  function DigitRange(base: nat, lo: nat, hi: nat, k: nat, T: nat, B: nat): nat
    requires B > 0 && lo <= hi
    decreases hi - lo
  {
    if lo == hi then 0 else Digit(base + lo, k, T, B) + Pow2(k) * DigitRange(base, lo + 1, hi, k, T, B)
  }

  lemma {:induction false} PassesStep(lo: nat, hi: nat, n: nat, k: nat, l: nat, T: nat, B: nat)
    requires B > 0 && lo <= hi
    ensures Passes(lo, hi, n + 1, k, l, T, B)
         == Passes(lo, hi, n, k, l, T, B) + CheckpointWeight(n, k, l) * DigitRange(Position(n, l, 0), lo, hi, k, T, B)
    decreases hi - lo
  {
    if lo < hi {
      PassesStep(lo + 1, hi, n, k, l, T, B);
      AddColumn(CheckpointWeight(n, k, l), Pow2(k), Passes(lo + 1, hi, n, k, l, T, B),
                DigitRange(Position(n, l, 0), lo + 1, hi, k, T, B), Digit(Position(n, l, lo), k, T, B));
    }
  }

  lemma AddColumn(p: int, q: int, r: int, s: int, d: int)
    ensures q * (r + p * s) + p * d == q * r + p * (d + q * s)
  {
    Distribute(q, r, p * s);
    Distribute(p, d, q * s);
    Swap(q, p, s);
  }

  lemma {:induction false} DigitRangeSum(base: nat, lo: nat, hi: nat, k: nat, T: nat, B: nat)
    requires B > 0 && lo <= hi
    ensures k * (base + lo) >= 0
    ensures DigitSum(base + hi, k, T, B)
         == DigitSum(base + lo, k, T, B) + Pow2(k * (base + lo)) * DigitRange(base, lo, hi, k, T, B)
    decreases hi - lo
  {
    ProductGrows(k, base + lo);
    if lo < hi {
      DigitRangeSum(base, lo + 1, hi, k, T, B);
      Distribute(k, base + lo, 1);
      Pow2Add(k * (base + lo), k);
      var p, q := Pow2(k * (base + lo)), Pow2(k);
      var d, s := Digit(base + lo, k, T, B), DigitRange(base, lo + 1, hi, k, T, B);
      Distribute(p, d, q * s);
      Reassociate(p, q, s);
    }
  }

  /** All passes together add every digit once, at its own weight. */
  lemma {:induction false} PassesAreDigits(n: nat, k: nat, l: nat, T: nat, B: nat)
    requires B > 0
    ensures n * l >= 0 && Passes(0, l, n, k, l, T, B) == DigitSum(n * l, k, T, B)
  {
    ProductGrows(n, l);
    if n == 0 {
      NoPasses(0, l, k, l, T, B);
    } else {
      PassesAreDigits(n - 1, k, l, T, B);
      PassesStep(0, l, n - 1, k, l, T, B);
      DigitRangeSum((n - 1) * l, 0, l, k, T, B);
      Distribute(l, n, 1);
      Reassociate(n - 1, k, l);
      Swap(n - 1, k, l);
    }
  }

  lemma {:induction false} NoPasses(lo: nat, hi: nat, k: nat, l: nat, T: nat, B: nat)
    requires B > 0 && lo <= hi
    ensures Passes(lo, hi, 0, k, l, T, B) == 0
    decreases hi - lo
  {
    if lo < hi {
      NoPasses(lo + 1, hi, k, l, T, B);
    }
  }

  /** Two ranges of residues, the upper one shifted into place, make up the whole. */
  lemma {:induction false} PassesSplit(lo: nat, mid: nat, hi: nat, n: nat, k: nat, l: nat, T: nat, B: nat)
    requires B > 0 && lo <= mid <= hi
    ensures (mid - lo) * k >= 0
    ensures Passes(lo, hi, n, k, l, T, B)
         == Passes(lo, mid, n, k, l, T, B) + Pow2((mid - lo) * k) * Passes(mid, hi, n, k, l, T, B)
    decreases mid - lo
  {
    if lo == mid {
      assert Pow2(0) == 1;
    } else {
      PassesSplit(lo + 1, mid, hi, n, k, l, T, B);
      ShiftPower(mid - (lo + 1), k);
      HornerStep(Pow2(k), Pow2((mid - (lo + 1)) * k),
                 Passes(lo + 1, mid, n, k, l, T, B), Passes(mid, hi, n, k, l, T, B));
    }
  }

  lemma ShiftPower(m: nat, k: nat)
    ensures m * k >= 0 && (m + 1) * k == k + m * k && Pow2((m + 1) * k) == Pow2(k) * Pow2(m * k)
  {
    ProductGrows(m, k);
    Distribute(k, m, 1);
    Pow2Add(k, m * k);
  }

  lemma HornerStep(q: int, p: int, r: int, s: int)
    ensures q * (r + p * s) == q * r + q * p * s
  {
    Distribute(q, r, p * s);
    Reassociate(q, p, s);
  }

  /** How many checkpoints a pass visits. */
  function Checkpoints(T: nat, k: nat, l: nat): (limit: nat)
    requires k * l > 0
  {
    T / (k * l) + (if T % (k * l) != 0 then 1 else 0)
  }

  lemma CheckpointsCover(T: nat, k: nat, l: nat)
    requires k >= 1 && l >= 1
    ensures k * l > 0 && k * (Checkpoints(T, k, l) * l) >= T
  {
    ProductGrows(k, l);
    var d, n := k * l, Checkpoints(T, k, l);
    assert T == T / d * d + T % d;
    Distribute(d, T / d, 1);
    Swap(k, n, l);
  }

  /** The exponent that the prover arrives at. */
  lemma PassesAreProofExponent(k: nat, l: nat, T: nat, B: nat)
    requires B > 0 && 1 <= k <= 64 && l >= 1
    ensures k * l > 0
    ensures Passes(0, l, Checkpoints(T, k, l), k, l, T, B) == ProofExponent(T, B) <==> B > Pow2(T % k)
  {
    CheckpointsCover(T, k, l);
    var n := Checkpoints(T, k, l);
    PassesAreDigits(n, k, l, T, B);
    AllDigits(n * l, k, T, B);
  }

  /** A challenge for which the exponents differ: one squaring in blocks of two bits. */
  lemma SmallChallengeExample()
    ensures Passes(0, 1, Checkpoints(1, 2, 1), 2, 1, 1, 1) != ProofExponent(1, 1)
  {
    PassesAreProofExponent(2, 1, 1, 1);
    assert Pow2(1) == 2;
  }

}
