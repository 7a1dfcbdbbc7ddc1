/** Aggregated delay-function proofs: one proof by long division for many instances, and
    a verifier that splits the instances over threads. */
module Aggregate {
  import opened Integers
  import opened Words
  import opened Forms
  import opened Reduction
  import opened Groups
  import opened Wesolowski
  import Verifier
  import opened HashSearch

  /** The class group of discriminant D as an abstract group, with the maps from reduced
      forms into it and from its elements to bytes. */
  datatype Context<!G(!new)> = Context(gr: Group<G>, embed: Form -> G, serialize: G -> seq<Byte>, o: Oracle, D: int) {
    ghost predicate Valid() {
      gr.Lawful() && o.Valid() && D < 0 && D % 4 == 1
    }
  }

  // ----- The long-division prover -----

  /** The exponent reached after T steps: doubled each time, plus one where the remainder
      wraps. */
  function DivisionState(T: nat, B: nat): (s: (nat, nat))
    requires B > 0
  {
    if T == 0 then (0, 1)
    else
      var (x, r) := DivisionState(T - 1, B);
      (if r * 2 >= B then 2 * x + 1 else 2 * x, r * 2 % B)
  }

  /** Exactly for B above one the remainder starts out right and the exponent is the
      quotient of 2^T by B. */
  lemma {:induction false} DivisionIsExact(T: nat, B: nat)
    requires B > 0
    ensures B >= 2 ==> DivisionState(T, B).0 == ProofExponent(T, B) && DivisionState(T, B).1 == Pow2(T) % B
    ensures B == 1 ==> DivisionState(T, B).0 < ProofExponent(T, B)
  {
    if T == 0 {
      if B >= 2 {
        QuotientIs(1, B, 0, 1);
      }
    } else {
      DivisionIsExact(T - 1, B);
      var (x, r) := DivisionState(T - 1, B);
      if B >= 2 {
        DoubledDivision(Pow2(T - 1), B);
      } else {
        FallsBehind(T);
      }
    }
  }

  lemma DoubledDivision(n: nat, B: nat)
    requires B > 0
    ensures var x, r := n / B, n % B;
            2 * n / B == (if r * 2 >= B then 2 * x + 1 else 2 * x) && 2 * n % B == r * 2 % B
  {
    var x, r := n / B, n % B;
    assert n == x * B + r;
    var d := if r * 2 >= B then 1 else 0;
    Distribute(B, 2 * x, d);
    QuotientIs(2 * n, B, 2 * x + d, 2 * r - d * B);
    QuotientIs(2 * r, B, d, 2 * r - d * B);
  }

  lemma {:induction false} FallsBehind(T: nat)
    ensures DivisionState(T, 1).0 < Pow2(T) / 1 && DivisionState(T, 1).1 == if T == 0 then 1 else 0
  {
    if T > 0 {
      FallsBehind(T - 1);
    }
  }

  method PowFormWithQuotient<G(!new)>(gr: Group<G>, g: G, numIterations: nat, B: nat) returns (x: G)
    requires gr.Lawful() && B > 0
    ensures x == Pow(gr, g, DivisionState(numIterations, B).0)
    ensures B >= 2 ==> x == Pow(gr, g, ProofExponent(numIterations, B))
  {
    x := gr.one;
    var r := 1;
    for i := 0 to numIterations
      invariant x == Pow(gr, g, DivisionState(i, B).0) && r == DivisionState(i, B).1
    {
      ghost var e := DivisionState(i, B).0;
      x := gr.mul(x, x);
      PowAdd(gr, g, e, e);
      if r * 2 >= B {
        x := gr.mul(x, g);
        PowAdd(gr, g, e + e, 1);
        PowOne(gr, g);
      }
      r := r * 2 % B;
    }
    DivisionIsExact(numIterations, B);
  }

  // ----- Aggregation -----

  function IntToBytes(v: nat): seq<Byte> {
    [v / 0x100_0000 % 256, v / 0x1_0000 % 256, v / 0x100 % 256, v % 256]
  }

  /** An instance number below 2^32 is written as its four bytes, the highest first. */
  lemma IndexBytes(v: nat)
    ensures |IntToBytes(v)| == 4 && BytesToInt(IntToBytes(v)) == v % 0x1_0000_0000
    ensures v < 0x1_0000_0000 ==> BytesToInt(IntToBytes(v)) == v
  {
    FourBytes(v / 0x100_0000 % 256, v / 0x1_0000 % 256, v / 0x100 % 256, v % 256);
    LastByte(v, 0x100);
    LastByte(v, 0x1_0000);
    LastByte(v, 0x100_0000);
  }

  lemma LastByte(v: nat, m: nat)
    requires m > 0
    ensures v % (256 * m) == v / m % 256 * m + v % m
  {
    var q := v / m;
    assert v == q * m + v % m && q == q / 256 * 256 + q % 256;
    Distribute(m, q / 256 * 256, q % 256);
    Reassociate(q / 256, 256, m);
    ProductGrows(m, 255 - q % 256);
    Distribute(m, 255, q % 256);
    QuotientIs(v, 256 * m, q / 256, q % 256 * m + v % m);
  }

  lemma FourBytes(w: Byte, x: Byte, y: Byte, z: Byte)
    ensures BytesToInt([w, x, y, z]) == w * 0x100_0000 + x * 0x1_0000 + y * 0x100 + z
  {
    AppendedByte([], w);
    AppendedByte([w], x);
    AppendedByte([w, x], y);
    AppendedByte([w, x, y], z);
    assert [] + [w] == [w] && [w] + [x] == [w, x] && [w, x] + [y] == [w, x, y] && [w, x, y] + [z] == [w, x, y, z];
  }

  /** Different instances hash different strings. */
  lemma DifferentInstances(i: nat, j: nat, s: seq<Byte>)
    requires i < 0x1_0000_0000 && j < 0x1_0000_0000
    ensures IntToBytes(i) + s == IntToBytes(j) + s ==> i == j
  {
    IndexBytes(i);
    IndexBytes(j);
    var x, y := IntToBytes(i), IntToBytes(j);
    assert x == (x + s)[..4] && y == (y + s)[..4];
  }

  /** All generators and results, serialized in turn. */
  function Transcript<G(!new)>(ctx: Context<G>, gs: seq<G>, ys: seq<G>): seq<Byte>
    requires |gs| == |ys|
  {
    if gs == [] then []
    else
      var n := |gs| - 1;
      Transcript(ctx, gs[..n], ys[..n]) + (ctx.serialize(gs[n]) + ctx.serialize(ys[n]))
  }

  lemma OneTranscript<G(!new)>(ctx: Context<G>, g: G, y: G)
    ensures Transcript(ctx, [g], [y]) == ctx.serialize(g) + ctx.serialize(y)
  {
    assert [g][..0] == [] && [y][..0] == [];
  }

  lemma {:induction false} TranscriptSplit<G(!new)>(ctx: Context<G>, gs: seq<G>, ys: seq<G>, n: nat)
    requires |gs| == |ys| && n <= |gs|
    ensures Transcript(ctx, gs, ys) == Transcript(ctx, gs[..n], ys[..n]) + Transcript(ctx, gs[n..], ys[n..])
  {
    if n == |gs| {
      assert gs[..n] == gs && ys[..n] == ys;
    } else {
      var k := |gs| - 1;
      TranscriptSplit(ctx, gs[..k], ys[..k], n);
      assert gs[..k][..n] == gs[..n] && ys[..k][..n] == ys[..n];
      assert gs[..k][n..] == gs[n..][..k - n] && ys[..k][n..] == ys[n..][..k - n];
    }
  }

  /** Serializations of one length that tell elements apart. */
  ghost predicate Injective<G(!new)>(serialize: G -> seq<Byte>, width: nat) {
    (forall x :: |serialize(x)| == width) && forall x, y :: serialize(x) == serialize(y) ==> x == y
  }

  /** The transcript commits to every generator and every result. */
  lemma {:induction false} TranscriptBinds<G(!new)>(ctx: Context<G>, width: nat, gs: seq<G>, ys: seq<G>, gs': seq<G>,
                                                    ys': seq<G>)
    requires Injective(ctx.serialize, width) && |gs| == |ys| == |gs'| == |ys'|
    requires Transcript(ctx, gs, ys) == Transcript(ctx, gs', ys')
    ensures gs == gs' && ys == ys'
  {
    if gs != [] {
      var n := |gs| - 1;
      SameTail(Transcript(ctx, gs[..n], ys[..n]), ctx.serialize(gs[n]), ctx.serialize(ys[n]),
               Transcript(ctx, gs'[..n], ys'[..n]), ctx.serialize(gs'[n]), ctx.serialize(ys'[n]));
      TranscriptBinds(ctx, width, gs[..n], ys[..n], gs'[..n], ys'[..n]);
      assert gs == gs[..n] + [gs[n]] && gs' == gs'[..n] + [gs'[n]];
      assert ys == ys[..n] + [ys[n]] && ys' == ys'[..n] + [ys'[n]];
    }
  }

  lemma SameTail(s: seq<Byte>, g: seq<Byte>, y: seq<Byte>, s': seq<Byte>, g': seq<Byte>, y': seq<Byte>)
    requires |g| == |g'| && |y| == |y'| && s + (g + y) == s' + (g' + y')
    ensures s == s' && g == g' && y == y'
  {
    var n := |s|;
    assert |s| == |s'|;
    assert s == (s + (g + y))[..n] && s' == (s' + (g' + y'))[..n];
    assert g + y == (s + (g + y))[n..] && g' + y' == (s' + (g' + y'))[n..];
    assert g == (g + y)[..|g|] && g' == (g' + y')[..|g|] && y == (g + y)[|g|..] && y' == (g' + y')[|g|..];
  }

  /** The random weight of instance i. */
  function Alpha(o: Oracle, i: nat, s: seq<Byte>): nat {
    BytesToInt(o.hash(IntToBytes(i) + s))
  }

  /** The weighted product of the elements lo to hi - 1. */
  function Weighted<G(!new)>(gr: Group<G>, o: Oracle, xs: seq<G>, s: seq<Byte>, lo: nat, hi: nat): G
    requires lo <= hi <= |xs|
  {
    if lo == hi then gr.one else gr.mul(Weighted(gr, o, xs, s, lo, hi - 1), Pow(gr, xs[hi - 1], Alpha(o, hi - 1, s)))
  }

  /** One instance is raised to the hash of its number, in four bytes, before the transcript;
      an empty range is the identity. With the law of splitting this fixes the product. */
  lemma OneWeight<G(!new)>(gr: Group<G>, o: Oracle, xs: seq<G>, s: seq<Byte>, i: nat)
    requires gr.Lawful() && i < |xs|
    ensures var b: seq<Byte> := [i / 0x100_0000 % 256, i / 0x1_0000 % 256, i / 0x100 % 256, i % 256];
            Weighted(gr, o, xs, s, i, i + 1) == Pow(gr, xs[i], BytesToInt(o.hash(b + s)))
    ensures Weighted(gr, o, xs, s, i, i) == gr.one
  {
    gr.Unit(Pow(gr, xs[i], Alpha(o, i, s)));
  }

  lemma {:induction false} WeightedSplit<G(!new)>(gr: Group<G>, o: Oracle, xs: seq<G>, s: seq<Byte>, lo: nat, mid: nat,
                                                  hi: nat)
    requires gr.Lawful() && lo <= mid <= hi <= |xs|
    ensures Weighted(gr, o, xs, s, lo, hi)
         == gr.mul(Weighted(gr, o, xs, s, lo, mid), Weighted(gr, o, xs, s, mid, hi))
  {
    if mid == hi {
      gr.Unit(Weighted(gr, o, xs, s, lo, mid));
    } else {
      WeightedSplit(gr, o, xs, s, lo, mid, hi - 1);
      gr.Associate(Weighted(gr, o, xs, s, lo, mid), Weighted(gr, o, xs, s, mid, hi - 1),
                   Pow(gr, xs[hi - 1], Alpha(o, hi - 1, s)));
    }
  }

  /** Raising every element to a power raises the weighted product to it. */
  lemma {:induction false} WeightedPower<G(!new)>(gr: Group<G>, o: Oracle, xs: seq<G>, ys: seq<G>, s: seq<Byte>, hi: nat,
                                                  n: nat)
    requires gr.Lawful() && hi <= |xs| == |ys| && forall i :: 0 <= i < |xs| ==> ys[i] == Pow(gr, xs[i], n)
    ensures Weighted(gr, o, ys, s, 0, hi) == Pow(gr, Weighted(gr, o, xs, s, 0, hi), n)
  {
    if hi == 0 {
      PowOfOne(gr, n);
    } else {
      WeightedPower(gr, o, xs, ys, s, hi - 1, n);
      var x, a := xs[hi - 1], Alpha(o, hi - 1, s);
      PowPow(gr, x, n, a);
      PowPow(gr, x, a, n);
      PowProduct(gr, Weighted(gr, o, xs, s, 0, hi - 1), Pow(gr, x, a), n);
    }
  }

  /** What the verifier tests. */
  ghost predicate Passes<G(!new)>(ctx: Context<G>, gs: seq<G>, ys: seq<G>, proof: G, T: nat, B: nat)
    requires |gs| == |ys| && B > 0
  {
    var s := Transcript(ctx, gs, ys);
    ctx.gr.mul(Pow(ctx.gr, proof, B), Pow(ctx.gr, Weighted(ctx.gr, ctx.o, gs, s, 0, |gs|), Pow2(T) % B))
    == Weighted(ctx.gr, ctx.o, ys, s, 0, |ys|)
  }

  /** x is the generator of a recorded round, or the identity form when nothing prime was
      found there. */
  ghost predicate IsGenerator<G(!new)>(ctx: Context<G>, seed: seq<Byte>, round: nat, x: G)
    requires ctx.o.Valid() && round >= 1
  {
    var a := GeneratorCandidate(ctx.o, seed, round);
    exists f: Form :: x == ctx.embed(f)
                      && if ctx.o.prime(a) then a >= 3 && IsFormOf(f, a, OddRoot(a, ctx.D), ctx.D) else IsFormOf(f, 1, 1, ctx.D)
  }

  lemma GeneratorUnique<G(!new)>(ctx: Context<G>, seed: seq<Byte>, round: nat, x: G, y: G)
    requires ctx.o.Valid() && round >= 1 && IsGenerator(ctx, seed, round, x) && IsGenerator(ctx, seed, round, y)
    ensures x == y
  {
    var a := GeneratorCandidate(ctx.o, seed, round);
    if ctx.o.prime(a) {
      var f: Form :| x == ctx.embed(f) && IsFormOf(f, a, OddRoot(a, ctx.D), ctx.D);
      var f': Form :| y == ctx.embed(f') && IsFormOf(f', a, OddRoot(a, ctx.D), ctx.D);
      FormIsUnique(f, f', a, OddRoot(a, ctx.D), ctx.D);
    } else {
      var f: Form :| x == ctx.embed(f) && IsFormOf(f, 1, 1, ctx.D);
      var f': Form :| y == ctx.embed(f') && IsFormOf(f', 1, 1, ctx.D);
      FormIsUnique(f, f', 1, 1, ctx.D);
    }
  }

  ghost predicate Instances<G(!new)>(ctx: Context<G>, seeds: seq<seq<Byte>>, rounds: seq<nat>) {
    |seeds| == |rounds| && forall i :: 0 <= i < |seeds| ==> Searchable(ctx.o, seeds[i], ctx.D, rounds[i])
  }

  ghost predicate Generators<G(!new)>(ctx: Context<G>, seeds: seq<seq<Byte>>, rounds: seq<nat>, gs: seq<G>, lo: nat, hi: nat)
    requires Instances(ctx, seeds, rounds) && |gs| == |seeds| && lo <= hi <= |gs|
  {
    forall i :: lo <= i < hi ==> IsGenerator(ctx, seeds[i], rounds[i], gs[i])
  }

  method OneGenerator<G(!new)>(ctx: Context<G>, seed: seq<Byte>, round: nat) returns (x: G)
    requires ctx.Valid() && Searchable(ctx.o, seed, ctx.D, round)
    ensures IsGenerator(ctx, seed, round, x)
  {
    GeneratorEndsInThree(ctx.o, seed, round);
    var res := HashToGroupFast(ctx.o, seed, ctx.D, round, round);
    var cell := res.value;
    ghost var f := cell.V();
    x := ctx.embed(cell.V());
  }

  /** The challenge prime of 264 bits: its top bit is always set. */
  const PRIME_BITS := 264
  const TOP_BIT: seq<nat> := [263]

  lemma ChallengeIsLarge(o: Oracle, s: seq<Byte>, n: nat)
    requires n >= 1 && o.Valid()
    ensures PrimeCandidate(o, s, PRIME_BITS, TOP_BIT, n) >= 2
  {
    ChallengeShape(o, s, n);
    Pow2Monotone(1, 263);
  }

  /** A challenge is made of the first 33 bytes of the hashes of the next two counters. */
  lemma ChallengeBytes(o: Oracle, s: seq<Byte>, n: nat)
    requires n >= 1 && o.Valid()
    ensures var t := Next(SproutAfter(o, s, false, 33, n - 1), false);
            var blob := o.hash(t) + o.hash(Next(t, false))[..1];
            PrimeCandidate(o, s, PRIME_BITS, TOP_BIT, n) == SetBit(SetBit(BytesToInt(blob), 263), 0)
  {
    var sprout := SproutAfter(o, s, false, 33, n - 1);
    TwoHashes(o, sprout, false);
    SetBoth(BytesToInt(Expansion(o, sprout, false, [], 33).0));
  }

  lemma SetBoth(v: nat)
    ensures SetBits(v, TOP_BIT + [0]) == SetBit(SetBit(v, 263), 0)
  {
    var bits := TOP_BIT + [0];
    assert bits[0] == 263 && bits[1..] == [0] && bits[1..][1..] == [];
    assert SetBits(SetBit(v, 263), bits[1..]) == SetBits(SetBit(SetBit(v, 263), 0), bits[1..][1..]);
  }

  /** Every challenge is odd and has exactly 264 bits. */
  lemma ChallengeShape(o: Oracle, s: seq<Byte>, n: nat)
    requires n >= 1 && o.Valid()
    ensures var B := PrimeCandidate(o, s, PRIME_BITS, TOP_BIT, n);
            Pow2(263) <= B < Pow2(264) && B % 2 == 1
  {
    ChallengeBytes(o, s, n);
    var t := Next(SproutAfter(o, s, false, 33, n - 1), false);
    var blob := o.hash(t) + o.hash(Next(t, false))[..1];
    BytesBelow(blob);
    BytesAreBits(33);
    TopAndBottom(BytesToInt(blob), 263);
  }

  lemma {:induction false} BytesAreBits(n: nat)
    ensures Pow256(n) == Pow2(8 * n)
  {
    if n > 0 {
      BytesAreBits(n - 1);
      var k := 8 * (n - 1);
      assert Pow2(k + 4) == 2 * Pow2(k + 3) == 4 * Pow2(k + 2) == 8 * Pow2(k + 1) == 16 * Pow2(k);
      assert Pow2(k + 8) == 2 * Pow2(k + 7) == 4 * Pow2(k + 6) == 8 * Pow2(k + 5) == 16 * Pow2(k + 4);
    }
  }

  lemma TopAndBottom(v: nat, b: nat)
    requires v < Pow2(b + 1) && b >= 1
    ensures var w := SetBit(SetBit(v, b), 0); Pow2(b) <= w < Pow2(b + 1) && w % 2 == 1
  {
    var p, w := Pow2(b), SetBit(v, b);
    assert p <= w < 2 * p by {
      TopBitAt(v, b);
    }
    SetLow(w);
    StaysBelowEven(w, p, Pow2(b - 1));
  }

  lemma SetLow(v: nat)
    ensures SetBit(v, 0) == v + 1 - v % 2
  {
    assert Pow2(0) == 1;
  }

  lemma StaysBelowEven(w: nat, p: nat, half: nat)
    requires p == 2 * half && p <= w < 2 * p
    ensures p <= w + 1 - w % 2 < 2 * p && (w + 1 - w % 2) % 2 == 1
  {
  }

  // ----- The prover -----

  method AggregateVdfProofs<G(!new)>(ctx: Context<G>, seeds: seq<seq<Byte>>, ys: seq<G>, numIterations: nat,
                                     rounds: seq<nat>, ghost gs0: seq<G>, ghost bound: nat)
    returns (proof: G, iteration: nat)
    requires ctx.Valid() && Instances(ctx, seeds, rounds) && |ys| == |seeds| == |gs0|
    requires Generators(ctx, seeds, rounds, gs0, 0, |gs0|)
    requires bound >= 1 && ctx.o.prime(PrimeCandidate(ctx.o, Transcript(ctx, gs0, ys), PRIME_BITS, TOP_BIT, bound))
    ensures var s := Transcript(ctx, gs0, ys);
            FirstPrime(ctx.o, s, PRIME_BITS, TOP_BIT, 1, iteration) &&
            var B := PrimeCandidate(ctx.o, s, PRIME_BITS, TOP_BIT, iteration);
            B >= 2 && proof == Pow(ctx.gr, Weighted(ctx.gr, ctx.o, gs0, s, 0, |gs0|), ProofExponent(numIterations, B))
  {
    var gs := new G[|seeds|](_ => ctx.gr.one);
    FillSlice(ctx, seeds, rounds, gs, 0, |seeds|);
    SameGenerators(ctx, seeds, rounds, gs[..], gs0);
    var s := SerializeAll(ctx, gs[..], ys);
    var B;
    B, iteration := HashPrimeWithIteration(ctx.o, s, PRIME_BITS, TOP_BIT, bound);
    ChallengeIsLarge(ctx.o, s, iteration);
    var aggG := WeightedProduct(ctx, gs[..], s, 0, gs.Length);
    proof := PowFormWithQuotient(ctx.gr, aggG, numIterations, B);
  }

  lemma SameGenerators<G(!new)>(ctx: Context<G>, seeds: seq<seq<Byte>>, rounds: seq<nat>, gs: seq<G>, gs': seq<G>)
    requires Instances(ctx, seeds, rounds) && |gs| == |gs'| == |seeds|
    requires Generators(ctx, seeds, rounds, gs, 0, |gs|) && Generators(ctx, seeds, rounds, gs', 0, |gs'|)
    ensures gs == gs'
  {
    forall i | 0 <= i < |gs|
      ensures gs[i] == gs'[i]
    {
      GeneratorUnique(ctx, seeds[i], rounds[i], gs[i], gs'[i]);
    }
  }

  /** One thread's generators. */
  method FillSlice<G(!new)>(ctx: Context<G>, seeds: seq<seq<Byte>>, rounds: seq<nat>, gs: array<G>, bi: nat, ei: nat)
    requires ctx.Valid() && Instances(ctx, seeds, rounds) && gs.Length == |seeds| && bi <= ei <= gs.Length
    modifies gs
    ensures Generators(ctx, seeds, rounds, gs[..], bi, ei)
    ensures forall i :: 0 <= i < gs.Length && !(bi <= i < ei) ==> gs[i] == old(gs[i])
  {
    for i := bi to ei
      invariant Generators(ctx, seeds, rounds, gs[..], bi, i)
      invariant forall j :: 0 <= j < gs.Length && !(bi <= j < i) ==> gs[j] == old(gs[j])
    {
      gs[i] := OneGenerator(ctx, seeds[i], rounds[i]);
    }
  }

  method SerializeAll<G(!new)>(ctx: Context<G>, gs: seq<G>, ys: seq<G>) returns (s: seq<Byte>)
    requires |gs| == |ys|
    ensures s == Transcript(ctx, gs, ys)
  {
    s := [];
    assert gs[..|gs|] == gs && ys[..|ys|] == ys;
    for i := 0 to |gs|
      invariant s == Transcript(ctx, gs[..i], ys[..i])
    {
      assert gs[..i + 1][..i] == gs[..i] && ys[..i + 1][..i] == ys[..i];
      s := s + (ctx.serialize(gs[i]) + ctx.serialize(ys[i]));
    }
  }

  method WeightedProduct<G(!new)>(ctx: Context<G>, xs: seq<G>, s: seq<Byte>, bi: nat, ei: nat) returns (x: G)
    requires ctx.Valid() && bi <= ei <= |xs|
    ensures x == Weighted(ctx.gr, ctx.o, xs, s, bi, ei)
    ensures ei == bi + 1 ==>
              var b: seq<Byte> := [bi / 0x100_0000 % 256, bi / 0x1_0000 % 256, bi / 0x100 % 256, bi % 256];
              x == Pow(ctx.gr, xs[bi], BytesToInt(ctx.o.hash(b + s)))
  {
    if bi < |xs| {
      OneWeight(ctx.gr, ctx.o, xs, s, bi);
    }
    x := ctx.gr.one;
    for i := bi to ei
      invariant x == Weighted(ctx.gr, ctx.o, xs, s, bi, i)
    {
      var alpha := Alpha(ctx.o, i, s);
      var p := FastPow(ctx.gr, xs[i], alpha);
      x := ctx.gr.mul(x, p);
    }
  }

  // ----- The threaded verifier -----

  /** Where thread tt starts. */
  function SliceStart(tt: nat, n: nat, nthreads: nat): nat
    requires nthreads >= 1
  {
    ProductGrows(tt, n);
    tt * n / nthreads
  }

  /** Where thread tt ends. */
  function SliceEnd(tt: nat, n: nat, nthreads: nat): nat
    requires nthreads >= 1
  {
    if tt + 1 == nthreads then n else SliceStart(tt + 1, n, nthreads)
  }

  lemma SlicesMeet(tt: nat, n: nat, nthreads: nat)
    requires tt < nthreads
    ensures SliceStart(0, n, nthreads) == 0
    ensures SliceStart(tt, n, nthreads) <= SliceEnd(tt, n, nthreads) == SliceStart(tt + 1, n, nthreads) <= n
    ensures SliceStart(nthreads, n, nthreads) == n
  {
    ProductGrows(tt, n);
    Distribute(n, tt, 1);
    DivideMonotone(tt * n, (tt + 1) * n, nthreads);
    ProductGrows(n, nthreads - tt - 1);
    Distribute(n, nthreads, tt + 1);
    DivideMonotone((tt + 1) * n, nthreads * n, nthreads);
    Quotient(n, nthreads);
    Quotient(0, nthreads);
  }

  /** Slice bounds that follow one another from 0 to n. */
  ghost predicate Tiling(bounds: seq<(nat, nat)>, n: nat) {
    && |bounds| >= 1 && bounds[0].0 == 0 && bounds[|bounds| - 1].1 == n
    && (forall t :: 0 <= t < |bounds| ==> bounds[t].0 <= bounds[t].1 <= n)
    && (forall t, u :: 0 <= t < u < |bounds| && u == t + 1 ==> bounds[t].1 == bounds[u].0)
  }

  lemma ExtendTiling(bounds: seq<(nat, nat)>, lo: nat, hi: nat)
    requires lo <= hi && (if bounds == [] then lo == 0 else Tiling(bounds, lo))
    ensures Tiling(bounds + [(lo, hi)], hi)
  {
  }

  /** The threads' slices tile the instances. */
  method Slices(n: nat, nthreads: nat) returns (bounds: seq<(nat, nat)>)
    requires nthreads >= 1
    ensures |bounds| == nthreads && Tiling(bounds, n)
    ensures forall t :: 0 <= t < nthreads ==> bounds[t] == (SliceStart(t, n, nthreads), SliceEnd(t, n, nthreads))
  {
    bounds := [];
    SlicesMeet(0, n, nthreads);
    for tt := 0 to nthreads
      invariant |bounds| == tt
      invariant forall t :: 0 <= t < tt ==> bounds[t] == (SliceStart(t, n, nthreads), SliceEnd(t, n, nthreads))
      invariant if tt == 0 then SliceStart(0, n, nthreads) == 0 else Tiling(bounds, SliceStart(tt, n, nthreads))
    {
      SlicesMeet(tt, n, nthreads);
      ExtendTiling(bounds, SliceStart(tt, n, nthreads), SliceEnd(tt, n, nthreads));
      bounds := bounds + [(SliceStart(tt, n, nthreads), SliceEnd(tt, n, nthreads))];
    }
    SlicesMeet(nthreads - 1, n, nthreads);
  }

  /** All threads' generators. */
  method AllGenerators<G(!new)>(ctx: Context<G>, seeds: seq<seq<Byte>>, rounds: seq<nat>, bounds: seq<(nat, nat)>)
    returns (gs: array<G>)
    requires ctx.Valid() && Instances(ctx, seeds, rounds) && Tiling(bounds, |seeds|)
    ensures fresh(gs) && gs.Length == |seeds| && Generators(ctx, seeds, rounds, gs[..], 0, gs.Length)
  {
    gs := new G[|seeds|](_ => ctx.gr.one);
    for tt := 0 to |bounds|
      invariant Generators(ctx, seeds, rounds, gs[..], 0, if tt < |bounds| then bounds[tt].0 else gs.Length)
    {
      FillSlice(ctx, seeds, rounds, gs, bounds[tt].0, bounds[tt].1);
    }
  }

  ghost predicate IsPart<G(!new)>(ctx: Context<G>, xs: seq<G>, s: seq<Byte>, slice: (nat, nat), x: G) {
    slice.0 <= slice.1 <= |xs| && x == Weighted(ctx.gr, ctx.o, xs, s, slice.0, slice.1)
  }

  /** The threads' partial products of xs, each in its slot. */
  method PartialProducts<G(!new)>(ctx: Context<G>, xs: seq<G>, s: seq<Byte>, bounds: seq<(nat, nat)>)
    returns (parts: seq<G>)
    requires ctx.Valid() && Tiling(bounds, |xs|)
    ensures |parts| == |bounds|
    ensures forall t :: 0 <= t < |bounds| ==> IsPart(ctx, xs, s, bounds[t], parts[t])
  {
    var slots := new G[|bounds|](_ => ctx.gr.one);
    for tt := 0 to |bounds|
      invariant forall t :: 0 <= t < tt ==> IsPart(ctx, xs, s, bounds[t], slots[t])
    {
      var x := WeightedProduct(ctx, xs, s, bounds[tt].0, bounds[tt].1);
      assert IsPart(ctx, xs, s, bounds[tt], x);
      slots[tt] := x;
    }
    parts := slots[..];
  }

  lemma JoinPart<G(!new)>(ctx: Context<G>, xs: seq<G>, s: seq<Byte>, slice: (nat, nat), agg: G, x: G)
    requires ctx.Valid() && IsPart(ctx, xs, s, (0, slice.0), agg) && IsPart(ctx, xs, s, slice, x)
    ensures IsPart(ctx, xs, s, (0, slice.1), ctx.gr.mul(agg, x))
  {
    WeightedSplit(ctx.gr, ctx.o, xs, s, 0, slice.0, slice.1);
  }

  /** The product of the threads' partial products is the product of all instances. */
  method ThreadedProduct<G(!new)>(ctx: Context<G>, xs: seq<G>, s: seq<Byte>, bounds: seq<(nat, nat)>) returns (agg: G)
    requires ctx.Valid() && Tiling(bounds, |xs|)
    ensures agg == Weighted(ctx.gr, ctx.o, xs, s, 0, |xs|)
  {
    var parts := PartialProducts(ctx, xs, s, bounds);
    agg := ctx.gr.one;
    ghost var hi: nat := 0;
    assert IsPart(ctx, xs, s, (0, 0), agg);
    for tt := 0 to |bounds|
      invariant hi == if tt < |bounds| then bounds[tt].0 else |xs|
      invariant IsPart(ctx, xs, s, (0, hi), agg)
    {
      JoinPart(ctx, xs, s, bounds[tt], agg, parts[tt]);
      agg := ctx.gr.mul(agg, parts[tt]);
      hi := bounds[tt].1;
    }
  }

  /** The verifier decides the same whatever the number of threads. The challenge is the
      first prime from the recorded round on. */
  method VerifyAggProof<G(!new,==)>(ctx: Context<G>, seeds: seq<seq<Byte>>, ys: seq<G>, proof: G, numIterations: nat,
                                    nthreads: nat, rounds: seq<nat>, iteration: int, ghost gs0: seq<G>, ghost bound: nat)
    returns (valid: bool, ghost n: nat)
    requires ctx.Valid() && Instances(ctx, seeds, rounds) && |ys| == |seeds| == |gs0| && nthreads >= 1
    requires Generators(ctx, seeds, rounds, gs0, 0, |gs0|)
    requires bound >= 1 && bound >= iteration
    requires ctx.o.prime(PrimeCandidate(ctx.o, Transcript(ctx, gs0, ys), PRIME_BITS, TOP_BIT, bound))
    ensures FirstPrime(ctx.o, Transcript(ctx, gs0, ys), PRIME_BITS, TOP_BIT, iteration, n)
    ensures var s := Transcript(ctx, gs0, ys);
            var B := PrimeCandidate(ctx.o, s, PRIME_BITS, TOP_BIT, n);
            var aggX := Weighted(ctx.gr, ctx.o, gs0, s, 0, |gs0|);
            var aggY := Weighted(ctx.gr, ctx.o, ys, s, 0, |ys|);
            B > 0 && (valid <==> ctx.gr.mul(Pow(ctx.gr, proof, B), Pow(ctx.gr, aggX, Pow2(numIterations) % B)) == aggY)
  {
    var bounds := Slices(|seeds|, nthreads);
    var gs := AllGenerators(ctx, seeds, rounds, bounds);
    SameGenerators(ctx, seeds, rounds, gs[..], gs0);
    var s := SerializeAll(ctx, gs[..], ys);
    var B := HashPrimeFast(ctx.o, s, PRIME_BITS, TOP_BIT, iteration, bound);
    n :| FirstPrime(ctx.o, s, PRIME_BITS, TOP_BIT, iteration, n)
         && B == PrimeCandidate(ctx.o, s, PRIME_BITS, TOP_BIT, n);
    ChallengeIsLarge(ctx.o, s, n);
    var aggX := ThreadedProduct(ctx, gs[..], s, bounds);
    var aggY := ThreadedProduct(ctx, ys, s, bounds);
    var r := Pow2(numIterations) % B;
    var f1 := FastPow(ctx.gr, proof, B);
    var f2 := FastPow(ctx.gr, aggX, r);
    valid := ctx.gr.mul(f1, f2) == aggY;
  }

  /** Under one transcript, one proof and one challenge at most one weighted product of
      results is accepted. */
  lemma OneProduct<G(!new)>(ctx: Context<G>, gs: seq<G>, ys: seq<G>, ys': seq<G>, proof: G, T: nat, B: nat)
    requires |gs| == |ys| == |ys'| && B > 0 && Transcript(ctx, gs, ys) == Transcript(ctx, gs, ys')
    requires Passes(ctx, gs, ys, proof, T, B) && Passes(ctx, gs, ys', proof, T, B)
    ensures var s := Transcript(ctx, gs, ys);
            Weighted(ctx.gr, ctx.o, ys, s, 0, |ys|) == Weighted(ctx.gr, ctx.o, ys', s, 0, |ys|)
  {
  }

  /** The prover's element for claimed results passes exactly if their weighted product, under
      the transcript of the claim, is that of the true results. */
  lemma ClaimPasses<G(!new)>(ctx: Context<G>, gs: seq<G>, ys: seq<G>, claim: seq<G>, T: nat, B: nat)
    requires ctx.Valid() && |gs| == |ys| == |claim| && B > 0
    requires forall i :: 0 <= i < |gs| ==> ys[i] == Pow(ctx.gr, gs[i], Pow2(T))
    ensures var s := Transcript(ctx, gs, claim);
            Passes(ctx, gs, claim, Pow(ctx.gr, Weighted(ctx.gr, ctx.o, gs, s, 0, |gs|), ProofExponent(T, B)), T, B)
            <==> Weighted(ctx.gr, ctx.o, claim, s, 0, |gs|) == Weighted(ctx.gr, ctx.o, ys, s, 0, |gs|)
  {
    var s := Transcript(ctx, gs, claim);
    WeightedPower(ctx.gr, ctx.o, gs, ys, s, |gs|, Pow2(T));
    Verifier.ProofLeadsToResult(ctx.gr, Weighted(ctx.gr, ctx.o, gs, s, 0, |gs|), B, T);
  }

  lemma TwoWeights<G(!new)>(gr: Group<G>, o: Oracle, x: G, y: G, s: seq<Byte>)
    requires gr.Lawful()
    ensures Weighted(gr, o, [x, y], s, 0, 2)
         == gr.mul(Pow(gr, x, BytesToInt(o.hash([0, 0, 0, 0] + s))), Pow(gr, y, BytesToInt(o.hash([0, 0, 0, 1] + s))))
  {
    WeightedSplit(gr, o, [x, y], s, 0, 1, 2);
    OneWeight(gr, o, [x, y], s, 0);
    OneWeight(gr, o, [x, y], s, 1);
  }

  /** The results of two instances in each other's place are accepted only where the two
      weights do not tell them apart. */
  lemma ExchangedResults<G(!new)>(ctx: Context<G>, gs: seq<G>, y0: G, y1: G, T: nat, B: nat)
    requires ctx.Valid() && |gs| == 2 && B > 0
    requires y0 == Pow(ctx.gr, gs[0], Pow2(T)) && y1 == Pow(ctx.gr, gs[1], Pow2(T))
    ensures var s := Transcript(ctx, gs, [y1, y0]);
            var alpha0 := BytesToInt(ctx.o.hash([0, 0, 0, 0] + s));
            var alpha1 := BytesToInt(ctx.o.hash([0, 0, 0, 1] + s));
            var proof := Pow(ctx.gr, Weighted(ctx.gr, ctx.o, gs, s, 0, 2), ProofExponent(T, B));
            var claimed := ctx.gr.mul(Pow(ctx.gr, y1, alpha0), Pow(ctx.gr, y0, alpha1));
            var right := ctx.gr.mul(Pow(ctx.gr, y0, alpha0), Pow(ctx.gr, y1, alpha1));
            Passes(ctx, gs, [y1, y0], proof, T, B) <==> claimed == right
  {
    var s := Transcript(ctx, gs, [y1, y0]);
    ClaimPasses(ctx, gs, [y0, y1], [y1, y0], T, B);
    TwoWeights(ctx.gr, ctx.o, y1, y0, s);
    TwoWeights(ctx.gr, ctx.o, y0, y1, s);
  }

  /** The proof made with the right exponent of the weighted generators passes. */
  lemma HonestAggregatePasses<G(!new)>(ctx: Context<G>, gs: seq<G>, ys: seq<G>, T: nat, B: nat)
    requires ctx.Valid() && |gs| == |ys| && B > 0
    requires forall i :: 0 <= i < |gs| ==> ys[i] == Pow(ctx.gr, gs[i], Pow2(T))
    ensures var s := Transcript(ctx, gs, ys);
            Passes(ctx, gs, ys, Pow(ctx.gr, Weighted(ctx.gr, ctx.o, gs, s, 0, |gs|), ProofExponent(T, B)), T, B)
  {
    ClaimPasses(ctx, gs, ys, ys, T, B);
  }

  /** Evaluation of one instance. */
  method EvalAggVdf<G(!new)>(ctx: Context<G>, seed: seq<Byte>, t: nat, ghost bound: nat)
    returns (y: G, round: nat, ghost g: G)
    requires ctx.Valid() && IsGeneratorRound(ctx.o, seed, ctx.D, bound)
    ensures IsGeneratorRound(ctx.o, seed, ctx.D, round) && IsGenerator(ctx, seed, round, g)
    ensures y == Pow(ctx.gr, g, Pow2(t))
  {
    var cell;
    cell, round := HashToGroup(ctx.o, seed, ctx.D, bound);
    ghost var f := cell.V();
    g := ctx.embed(f);
    y := SquareN(ctx.gr, ctx.embed(cell.V()), t);
  }

  /** Instances evaluated honestly, aggregated and verified with any number of threads:
      the verifier accepts. */
  method AggregateAndVerify<G(!new,==)>(ctx: Context<G>, seeds: seq<seq<Byte>>, ys: seq<G>, numIterations: nat,
                                        nthreads: nat, rounds: seq<nat>, ghost gs: seq<G>, ghost bound: nat)
    returns (valid: bool)
    requires ctx.Valid() && Instances(ctx, seeds, rounds) && |ys| == |seeds| == |gs| && nthreads >= 1
    requires Generators(ctx, seeds, rounds, gs, 0, |gs|)
    requires forall i :: 0 <= i < |gs| ==> ys[i] == Pow(ctx.gr, gs[i], Pow2(numIterations))
    requires bound >= 1 && ctx.o.prime(PrimeCandidate(ctx.o, Transcript(ctx, gs, ys), PRIME_BITS, TOP_BIT, bound))
    ensures valid
  {
    var proof, iteration := AggregateVdfProofs(ctx, seeds, ys, numIterations, rounds, gs, bound);
    ghost var s := Transcript(ctx, gs, ys);
    ghost var n;
    valid, n := VerifyAggProof(ctx, seeds, ys, proof, numIterations, nthreads, rounds, iteration, gs, iteration);
    RecordedRound(ctx.o, s, PRIME_BITS, TOP_BIT, iteration, n);
    HonestAggregatePasses(ctx, gs, ys, numIterations, PrimeCandidate(ctx.o, s, PRIME_BITS, TOP_BIT, n));
  }

}
