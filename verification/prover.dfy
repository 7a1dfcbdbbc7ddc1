/** The Wesolowski provers: digits of the exponent gathered in buckets, and the buckets
    multiplied together in two passes over the halves of the bucket index. */
module Provers {
  import opened Integers
  import opened Words
  import opened Groups
  import opened Wesolowski

  // ----- Exponents held in buckets -----

  function At(ye: seq<nat>, i: nat): nat {
    if i < |ye| then ye[i] else 0
  }

  /** The exponent that the first n buckets stand for: each its index times its content. */
  function Weighted(ye: seq<nat>, n: nat): nat {
    if n == 0 then 0 else Weighted(ye, n - 1) + (n - 1) * At(ye, n - 1)
  }

  lemma {:induction false} WeightedUpdate(ye: seq<nat>, b: nat, c: nat, n: nat)
    requires b < |ye|
    ensures b * c >= 0 && Weighted(ye[b := ye[b] + c], n) == Weighted(ye, n) + (if b < n then b * c else 0)
  {
    ProductGrows(b, c);
    if n > 0 {
      WeightedUpdate(ye, b, c, n - 1);
      Distribute(b, ye[b], c);
    }
  }

  lemma {:induction false} WeightedZero(ye: seq<nat>, n: nat)
    requires forall i :: 0 <= i < |ye| ==> ye[i] == 0
    ensures Weighted(ye, n) == 0
  {
    if n > 0 {
      WeightedZero(ye, n - 1);
    }
  }

  /** The content of n buckets from a base on. */
  function Row(ye: seq<nat>, base: nat, n: nat): nat {
    if n == 0 then 0 else Row(ye, base, n - 1) + At(ye, base + n - 1)
  }

  /** The same with each bucket weighted by its offset from the base. */
  function Low(ye: seq<nat>, base: nat, n: nat): nat {
    if n == 0 then 0 else Low(ye, base, n - 1) + (n - 1) * At(ye, base + n - 1)
  }

  /** First pass: rows of K0 buckets, weighted by where the row starts. */
  function RowsTotal(ye: seq<nat>, K0: nat, n1: nat): nat {
    if n1 == 0 then 0 else RowsTotal(ye, K0, n1 - 1) + Row(ye, (n1 - 1) * K0, K0) * ((n1 - 1) * K0)
  }

  /** The content of the buckets with offset b0 in the first n1 rows. */
  function Column(ye: seq<nat>, K0: nat, b0: nat, n1: nat): nat {
    if n1 == 0 then 0 else Column(ye, K0, b0, n1 - 1) + At(ye, (n1 - 1) * K0 + b0)
  }

  /** Second pass: columns weighted by their offset. */
  function ColumnsTotal(ye: seq<nat>, K0: nat, n1: nat, m: nat): nat {
    if m == 0 then 0 else ColumnsTotal(ye, K0, n1, m - 1) + Column(ye, K0, m - 1, n1) * (m - 1)
  }

  lemma {:induction false} ColumnsStep(ye: seq<nat>, K0: nat, n1: nat, m: nat)
    ensures ColumnsTotal(ye, K0, n1 + 1, m) == ColumnsTotal(ye, K0, n1, m) + Low(ye, n1 * K0, m)
  {
    if m > 0 {
      ColumnsStep(ye, K0, n1, m - 1);
      ColumnTerm(ye, K0, n1, m - 1);
    }
  }

  lemma ColumnTerm(ye: seq<nat>, K0: nat, n1: nat, b0: nat)
    ensures Column(ye, K0, b0, n1 + 1) * b0 == Column(ye, K0, b0, n1) * b0 + b0 * At(ye, n1 * K0 + b0)
  {
    Distribute(b0, Column(ye, K0, b0, n1), At(ye, n1 * K0 + b0));
  }

  lemma {:induction false} WeightedRow(ye: seq<nat>, base: nat, n: nat)
    ensures Weighted(ye, base + n) == Weighted(ye, base) + Row(ye, base, n) * base + Low(ye, base, n)
  {
    if n > 0 {
      WeightedRow(ye, base, n - 1);
      var y := At(ye, base + (n - 1));
      assert Weighted(ye, base + n) == Weighted(ye, base + (n - 1)) + y * (base + (n - 1));
      WeightedTerm(Row(ye, base, n - 1), y, base, n - 1);
    }
  }

  lemma WeightedTerm(r: int, y: int, base: int, k: int)
    ensures r * base + y * (base + k) == (r + y) * base + y * k
  {
    Distribute(base, r, y);
    Distribute(y, base, k);
  }

  /** The two passes together weight every bucket by its index. */
  lemma {:induction false} TwoPasses(ye: seq<nat>, K0: nat, n1: nat)
    ensures n1 * K0 >= 0 && RowsTotal(ye, K0, n1) + ColumnsTotal(ye, K0, n1, K0) == Weighted(ye, n1 * K0)
  {
    ProductGrows(n1, K0);
    if n1 == 0 {
      NoColumns(ye, K0, K0);
    } else {
      TwoPasses(ye, K0, n1 - 1);
      ColumnsStep(ye, K0, n1 - 1, K0);
      WeightedRow(ye, (n1 - 1) * K0, K0);
      Distribute(K0, n1, 1);
    }
  }

  lemma {:induction false} NoColumns(ye: seq<nat>, K0: nat, m: nat)
    ensures ColumnsTotal(ye, K0, 0, m) == 0
  {
    if m > 0 {
      NoColumns(ye, K0, m - 1);
    }
  }

  lemma InRow(b1: nat, b0: nat, K1: nat, K0: nat)
    requires b1 < K1 && b0 < K0
    ensures 0 <= b1 * K0 + b0 < K1 * K0
  {
    ProductGrows(K0, b1);
    ProductGrows(K0, K1 - 1 - b1);
    Distribute(K0, K1 - 1, b1);
    Distribute(K0, K1, 1);
  }

  /** The buckets hold the powers of g that the exponents name. */
  ghost predicate Holds<G(!new)>(gr: Group<G>, g: G, ys: seq<G>, ye: seq<nat>) {
    |ys| == |ye| && forall b :: 0 <= b < |ys| ==> ys[b] == Pow(gr, g, ye[b])
  }

  // ----- The prover -----

  class Prover<G(!new)> {
    const gr: Group<G>
    const g: G
    const forms: seq<G>
    const numIterations: nat
    const k: nat
    const l: nat
    const B: nat
    var proof: G
    var isFinished: bool

    /** forms are the powers of the start form at every k*l iterations. */
    constructor (gr: Group<G>, g: G, forms: seq<G>, numIterations: nat, k: nat, l: nat, B: nat)
      ensures this.gr == gr && this.g == g && this.forms == forms && this.numIterations == numIterations
      ensures this.k == k && this.l == l && this.B == B && !isFinished
    {
      this.gr, this.g, this.forms, this.numIterations := gr, g, forms, numIterations;
      this.k, this.l, this.B := k, l, B;
      proof, isFinished := gr.one, false;
    }

    ghost predicate Valid() {
      && gr.Lawful()
      && 1 <= k < 31 && l >= 1 && k * l > 0 && B > 0
      && Checkpoints(numIterations, k, l) <= |forms|
      && (forall i :: 0 <= i < |forms| ==> forms[i] == Pow(gr, g, CheckpointWeight(i, k, l)))
    }

    /** One pass over the checkpoints for residue j: every block goes into its bucket. */
    method Gather(j: nat, ys: array<G>) returns (ghost ye: seq<nat>)
      requires Valid() && ys.Length == Pow2(k)
      modifies ys
      ensures Holds(gr, g, ys[..], ye)
      ensures Weighted(ye, Pow2(k)) == PassSum(j, Checkpoints(numIterations, k, l), k, l, numIterations, B)
    {
      for i := 0 to ys.Length
        invariant forall b :: 0 <= b < i ==> ys[b] == gr.one
      {
        ys[i] := gr.one;
      }
      ye := seq(Pow2(k), _ => 0);
      WeightedZero(ye, Pow2(k));
      var limit := Checkpoints(numIterations, k, l);
      for i := 0 to limit
        invariant Holds(gr, g, ys[..], ye) && |ye| == Pow2(k)
        invariant Weighted(ye, Pow2(k)) == PassSum(j, i, k, l, numIterations, B)
      {
        OneMoreTerm(j, i, k, l, numIterations, B);
        if numIterations >= k * (Position(i, l, j) + 1) {
          ghost var p := CheckpointWeight(i, k, l);
          var b := GetBlock(Position(i, l, j), k, numIterations, B);
          BlockAdds(ye, Position(i, l, j), p, k, numIterations, B);
          AddToBucket(gr, g, ys[..], ye, b, p, forms[i]);
          ys[b] := gr.mul(ys[b], forms[i]);
          ye := ye[b := ye[b] + p];
        }
      }
    }

    /** The buckets multiplied onto x, each to the power of its index. */
    method Combine(x0: G, ys: array<G>, ghost xe: nat, ghost ye: seq<nat>) returns (x: G)
      requires Valid() && ys.Length == Pow2(k) && Holds(gr, g, ys[..], ye) && x0 == Pow(gr, g, xe)
      ensures x == Pow(gr, g, xe + Weighted(ye, Pow2(k)))
    {
      var k1 := k / 2;
      var k0 := k - k1;
      Pow2Add(k1, k0);
      x := CombineRows(x0, ys, Pow2(k1), Pow2(k0), xe, ye);
      x := CombineColumns(x, ys, Pow2(k1), Pow2(k0), xe + RowsTotal(ye, Pow2(k0), Pow2(k1)), ye);
      TwoPasses(ye, Pow2(k0), Pow2(k1));
    }

    method CombineRows(x0: G, ys: array<G>, K1: nat, K0: nat, ghost xe: nat, ghost ye: seq<nat>) returns (x: G)
      requires gr.Lawful() && ys.Length == K1 * K0 && Holds(gr, g, ys[..], ye) && x0 == Pow(gr, g, xe)
      ensures x == Pow(gr, g, xe + RowsTotal(ye, K0, K1))
    {
      x := x0;
      for b1 := 0 to K1
        invariant x == Pow(gr, g, xe + RowsTotal(ye, K0, b1))
      {
        var z := MultiplyRow(ys, b1, K1, K0, ye);
        z := FastPow(gr, z, b1 * K0);
        x := gr.mul(x, z);
        AddPower(gr, g, xe + RowsTotal(ye, K0, b1), Row(ye, b1 * K0, K0), b1 * K0);
      }
    }

    method CombineColumns(x0: G, ys: array<G>, K1: nat, K0: nat, ghost xe: nat, ghost ye: seq<nat>) returns (x: G)
      requires gr.Lawful() && ys.Length == K1 * K0 && Holds(gr, g, ys[..], ye) && x0 == Pow(gr, g, xe)
      ensures x == Pow(gr, g, xe + ColumnsTotal(ye, K0, K1, K0))
    {
      x := x0;
      for b0 := 0 to K0
        invariant x == Pow(gr, g, xe + ColumnsTotal(ye, K0, K1, b0))
      {
        var z := MultiplyColumn(ys, b0, K1, K0, ye);
        z := FastPow(gr, z, b0);
        x := gr.mul(x, z);
        AddPower(gr, g, xe + ColumnsTotal(ye, K0, K1, b0), Column(ye, K0, b0, K1), b0);
      }
    }

    method MultiplyRow(ys: array<G>, b1: nat, K1: nat, K0: nat, ghost ye: seq<nat>) returns (z: G)
      requires gr.Lawful() && ys.Length == K1 * K0 && Holds(gr, g, ys[..], ye) && b1 < K1
      ensures z == Pow(gr, g, Row(ye, b1 * K0, K0))
    {
      z := gr.one;
      for b0 := 0 to K0
        invariant z == Pow(gr, g, Row(ye, b1 * K0, b0))
      {
        InRow(b1, b0, K1, K0);
        PowAdd(gr, g, Row(ye, b1 * K0, b0), At(ye, b1 * K0 + b0));
        assert ys[..][b1 * K0 + b0] == Pow(gr, g, At(ye, b1 * K0 + b0));
        z := gr.mul(z, ys[b1 * K0 + b0]);
      }
    }

    method MultiplyColumn(ys: array<G>, b0: nat, K1: nat, K0: nat, ghost ye: seq<nat>) returns (z: G)
      requires gr.Lawful() && ys.Length == K1 * K0 && Holds(gr, g, ys[..], ye) && b0 < K0
      ensures z == Pow(gr, g, Column(ye, K0, b0, K1))
    {
      z := gr.one;
      for b1 := 0 to K1
        invariant z == Pow(gr, g, Column(ye, K0, b0, b1))
      {
        InRow(b1, b0, K1, K0);
        PowAdd(gr, g, Column(ye, K0, b0, b1), At(ye, b1 * K0 + b0));
        assert ys[..][b1 * K0 + b0] == Pow(gr, g, At(ye, b1 * K0 + b0));
        z := gr.mul(z, ys[b1 * K0 + b0]);
      }
    }

    /** The passes for the residues from hi - 1 down to lo. */
    method Descend(lo: nat, hi: nat) returns (x: G)
      requires Valid() && lo <= hi
      ensures x == Pow(gr, g, Passes(lo, hi, Checkpoints(numIterations, k, l), k, l, numIterations, B))
    {
      x := gr.one;
      var j := hi;
      ghost var limit := Checkpoints(numIterations, k, l);
      var ys := new G[Pow2(k)](_ => gr.one);
      while j > lo
        invariant lo <= j <= hi && x == Pow(gr, g, Passes(j, hi, limit, k, l, numIterations, B))
      {
        j := j - 1;
        ghost var e := Passes(j + 1, hi, limit, k, l, numIterations, B);
        x := FastPow(gr, x, Pow2(k));
        PowPow(gr, g, e, Pow2(k));
        ghost var ye := Gather(j, ys);
        x := Combine(x, ys, e * Pow2(k), ye);
      }
    }

    /** The exponent that the prover arrives at, whatever B is. */
    ghost function ReachedExponent(): nat
      requires Valid()
    {
      Passes(0, l, Checkpoints(numIterations, k, l), k, l, numIterations, B)
    }

    method GenerateProof()
      requires Valid()
      modifies this
      ensures isFinished && proof == Pow(gr, g, ReachedExponent())
      ensures B > Pow2(numIterations % k) ==> proof == Pow(gr, g, ProofExponent(numIterations, B))
    {
      var x := Descend(0, l);
      PassesAreProofExponent(k, l, numIterations, B);
      proof, isFinished := x, true;
    }

    /** One thread's share: len residues below start, shifted into place by squarings. */
    method ProvePart(start: nat, len: nat) returns (x: G)
      requires Valid() && len <= start
      ensures (start - len) * k >= 0
      ensures x == Pow(gr, g, Passes(start - len, start, Checkpoints(numIterations, k, l), k, l, numIterations, B)
                       * Pow2((start - len) * k))
    {
      x := Descend(start - len, start);
      ProductGrows(start - len, k);
      PowPow(gr, g, Passes(start - len, start, Checkpoints(numIterations, k, l), k, l, numIterations, B),
             Pow2((start - len) * k));
      x := SquareN(gr, x, (start - len) * k);
    }

    /** Both threads' shares, multiplied. */
    method ProveParts() returns (x: G)
      requires Valid()
      ensures x == Pow(gr, g, ReachedExponent())
    {
      var l0 := l / 2;
      var l1 := l - l0;
      var upper := ProvePart(l, l0);
      var lower := ProvePart(l1, l1);
      ghost var limit := Checkpoints(numIterations, k, l);
      PartsMultiply(gr, g, l1, limit, k, l, numIterations, B);
      x := gr.mul(upper, lower);
    }

    method ParallelGenerateProof()
      requires Valid()
      modifies this
      ensures isFinished && proof == Pow(gr, g, ReachedExponent())
      ensures B > Pow2(numIterations % k) ==> proof == Pow(gr, g, ProofExponent(numIterations, B))
    {
      var x := ProveParts();
      PassesAreProofExponent(k, l, numIterations, B);
      proof, isFinished := x, true;
    }
  }

  /** The two shares multiply to the whole. */
  lemma PartsMultiply<G(!new)>(gr: Group<G>, g: G, l1: nat, n: nat, k: nat, l: nat, T: nat, B: nat)
    requires gr.Lawful() && l1 <= l && B > 0
    ensures l1 * k >= 0
    ensures gr.mul(Pow(gr, g, Passes(l1, l, n, k, l, T, B) * Pow2(l1 * k)), Pow(gr, g, Passes(0, l1, n, k, l, T, B) * Pow2(0)))
         == Pow(gr, g, Passes(0, l, n, k, l, T, B))
  {
    PartsCombine(l1, n, k, l, T, B);
    PowAdd(gr, g, Passes(l1, l, n, k, l, T, B) * Pow2(l1 * k), Passes(0, l1, n, k, l, T, B) * Pow2(0));
  }

  /** A block put into its bucket accounts for one term of the pass. */
  lemma BlockAdds(ye: seq<nat>, p: nat, c: nat, k: nat, T: nat, B: nat)
    requires B > 0 && k <= 64 && |ye| == Pow2(k) && T >= k * (p + 1)
    ensures var b := GetBlock(p, k, T, B);
            b < |ye| && Weighted(ye[b := ye[b] + c], Pow2(k)) == Weighted(ye, Pow2(k)) + c * Digit(p, k, T, B)
  {
    BlockFits(p, k, T, B);
    BucketAdds(ye, GetBlock(p, k, T, B), c);
  }

  lemma BlockFits(p: nat, k: nat, T: nat, B: nat)
    requires B > 0 && k <= 64 && T >= k * (p + 1)
    ensures GetBlock(p, k, T, B) < Pow2(k)
  {
    BlockIsDigit(p, k, T, B);
  }

  lemma BucketAdds(ye: seq<nat>, b: nat, c: nat)
    requires b < |ye|
    ensures Weighted(ye[b := ye[b] + c], |ye|) == Weighted(ye, |ye|) + c * b
  {
    WeightedUpdate(ye, b, c, |ye|);
  }

  lemma OneMoreTerm(j: nat, n: nat, k: nat, l: nat, T: nat, B: nat)
    requires B > 0
    ensures PassSum(j, n + 1, k, l, T, B)
         == PassSum(j, n, k, l, T, B) + CheckpointWeight(n, k, l) * Digit(Position(n, l, j), k, T, B)
  {
  }

  lemma UnitPower()
    ensures Pow2(0) == 1
  {
  }

  lemma PartsCombine(l1: nat, n: nat, k: nat, l: nat, T: nat, B: nat)
    requires l1 <= l && B > 0
    ensures l1 * k >= 0
    ensures Passes(l1, l, n, k, l, T, B) * Pow2(l1 * k) + Passes(0, l1, n, k, l, T, B) * Pow2(0)
         == Passes(0, l, n, k, l, T, B)
  {
    PassesSplit(0, l1, l, n, k, l, T, B);
    UnitPower();
  }

  lemma AddPower<G(!new)>(gr: Group<G>, g: G, xe: nat, e: nat, n: nat)
    requires gr.Lawful()
    ensures e * n >= 0
    ensures gr.mul(Pow(gr, g, xe), Pow(gr, Pow(gr, g, e), n)) == Pow(gr, g, xe + e * n)
  {
    PowPow(gr, g, e, n);
    PowAdd(gr, g, xe, e * n);
  }

  lemma AddToBucket<G(!new)>(gr: Group<G>, g: G, ys: seq<G>, ye: seq<nat>, b: nat, p: nat, y: G)
    requires gr.Lawful() && Holds(gr, g, ys, ye) && b < |ys| && y == Pow(gr, g, p)
    ensures Holds(gr, g, ys[b := gr.mul(ys[b], y)], ye[b := ye[b] + p])
  {
    PowAdd(gr, g, ye[b], p);
  }

}
