/** The Wesolowski verifiers, and the chains of segment proofs that the proving manager
    assembles for them. */
module Verifier {
  import opened Integers
  import opened Words
  import opened Groups
  import opened Wesolowski
  import opened Provers

  datatype Verdict = Accepted | Rejected | DivisionByZero

  /** A stretch of squarings from x to y with its proof. */
  datatype Segment<G> = Empty | Segment(start: nat, length: nat, x: G, y: G, proof: G)

  /** One link of a serialized proof: iterations, challenge and segment proof. */
  datatype Link<G> = Link(iters: nat, B: nat, proof: G)

  datatype Proof<G> = Proof(y: G, proof: G, links: seq<Link<G>>)

  /** The outcome of assembling a proof: ready, segments missing, or a proof that a gap
      in the finished segments has found its way into. */
  datatype Outcome<G> = Ready(proof: Proof<G>) | Insufficient | TookGap

  // ----- One segment -----

  /** The element that a proof leads to. */
  function OutY<G(!new)>(gr: Group<G>, x: G, proof: G, B: nat, iters: nat): G
    requires B > 0
  {
    gr.mul(Pow(gr, proof, B), Pow(gr, x, Pow2(iters) % B))
  }

  /** The proof made with the right exponent leads to the true result. */
  lemma ProofLeadsToResult<G(!new)>(gr: Group<G>, x: G, B: nat, T: nat)
    requires gr.Lawful() && B > 0
    ensures OutY(gr, x, Pow(gr, x, ProofExponent(T, B)), B, T) == Pow(gr, x, Pow2(T))
  {
    PowDivided(gr, x, Pow2(T), B);
  }

  lemma PowDivided<G(!new)>(gr: Group<G>, x: G, n: nat, B: nat)
    requires gr.Lawful() && B > 0
    ensures gr.mul(Pow(gr, Pow(gr, x, n / B), B), Pow(gr, x, n % B)) == Pow(gr, x, n)
  {
    var q, r := n / B, n % B;
    assert n == q * B + r;
    PowPow(gr, x, q, B);
    PowAdd(gr, x, q * B, r);
  }

  /** 2^b modulo c. */
  method FastPowModular(b: nat, c: nat) returns (ok: bool, r: nat)
    ensures ok <==> c != 0
    ensures ok ==> r == Pow2(b) % c
  {
    if c == 0 {
      return false, 0;
    }
    r := 1 % c;
    for i := 0 to b
      invariant r == Pow2(i) % c
    {
      DoubleModulo(Pow2(i), c);
      r := 2 * r % c;
    }
    ok := true;
  }

  lemma DoubleModulo(n: nat, c: nat)
    requires c > 0
    ensures 2 * (n % c) % c == 2 * n % c
  {
    var m, d := n % c, 2 * (n % c) / c;
    assert n == n / c * c + m;
    assert 2 * m == d * c + 2 * m % c;
    Distribute(c, 2 * (n / c), d);
    assert 2 * n == (2 * (n / c) + d) * c + 2 * m % c;
    QuotientIs(2 * n, c, 2 * (n / c) + d, 2 * m % c);
  }

  method VerifyWesoSegment<G(!new,==)>(gr: Group<G>, getB: (G, G) -> nat, x: G, proof: G, B: nat, iters: nat)
    returns (verdict: Verdict, outY: G)
    requires gr.Lawful()
    ensures verdict == DivisionByZero <==> B == 0
    ensures B > 0 ==> outY == gr.mul(Pow(gr, proof, B), Pow(gr, x, Pow2(iters) % B)) == OutY(gr, x, proof, B, iters)
    ensures B > 0 ==> (verdict == Accepted <==> B == getB(x, outY))
  {
    var ok, r := FastPowModular(iters, B);
    if !ok {
      return DivisionByZero, x;
    }
    var f1 := FastPow(gr, proof, B);
    var f2 := FastPow(gr, x, r);
    outY := gr.mul(f1, f2);
    verdict := if B == getB(x, outY) then Accepted else Rejected;
  }

  method VerifyWesolowskiProof<G(!new,==)>(gr: Group<G>, getB: (G, G) -> nat, x: G, y: G, proof: G, iters: nat)
    returns (verdict: Verdict)
    requires gr.Lawful()
    ensures verdict == DivisionByZero <==> getB(x, y) == 0
    ensures verdict == Accepted <==>
            getB(x, y) > 0 && gr.mul(Pow(gr, proof, getB(x, y)), Pow(gr, x, Pow2(iters) % getB(x, y))) == y
    ensures verdict == FinalVerdict(gr, getB, x, y, proof, iters)
  {
    var B := getB(x, y);
    var ok, r := FastPowModular(iters, B);
    if !ok {
      return DivisionByZero;
    }
    var f1 := FastPow(gr, proof, B);
    var f2 := FastPow(gr, x, r);
    verdict := if gr.mul(f1, f2) == y then Accepted else Rejected;
  }

  ghost function FinalVerdict<G(!new)>(gr: Group<G>, getB: (G, G) -> nat, x: G, y: G, proof: G, iters: nat): Verdict {
    if getB(x, y) == 0 then DivisionByZero
    else if OutY(gr, x, proof, getB(x, y), iters) == y then Accepted else Rejected
  }

  /** Acceptance is the equation proof^B * x^(2^iters mod B) == y for the challenge B. */
  lemma AcceptedMeans<G(!new)>(gr: Group<G>, getB: (G, G) -> nat, x: G, y: G, proof: G, iters: nat)
    ensures FinalVerdict(gr, getB, x, y, proof, iters) == Accepted <==>
            getB(x, y) > 0 && gr.mul(Pow(gr, proof, getB(x, y)), Pow(gr, x, Pow2(iters) % getB(x, y))) == y
  {
  }

  /** Under one challenge a proof leads to one result only: any other is refused. */
  lemma OneResult<G(!new)>(gr: Group<G>, getB: (G, G) -> nat, x: G, y: G, y': G, proof: G, iters: nat)
    requires getB(x, y) == getB(x, y') && y != y'
    requires FinalVerdict(gr, getB, x, y, proof, iters) == Accepted
    ensures FinalVerdict(gr, getB, x, y', proof, iters) == Rejected
  {
    AcceptedMeans(gr, getB, x, y, proof, iters);
    AcceptedMeans(gr, getB, x, y', proof, iters);
  }

  /** The proof for the true result does not pass for a wrong one with the same challenge. */
  lemma WrongResultRefused<G(!new)>(gr: Group<G>, getB: (G, G) -> nat, x: G, y: G, T: nat)
    requires gr.Lawful() && y != Pow(gr, x, Pow2(T)) && getB(x, y) > 0
    ensures FinalVerdict(gr, getB, x, y, Pow(gr, x, ProofExponent(T, getB(x, y))), T) == Rejected
  {
    var B := getB(x, y);
    ProofLeadsToResult(gr, x, B, T);
    AcceptedMeans(gr, getB, x, y, Pow(gr, x, ProofExponent(T, B)), T);
  }

  /** Without a proof to speak of, that is with the neutral element, only the power of x that
      the challenge leaves over is accepted. */
  lemma NeutralProof<G(!new)>(gr: Group<G>, getB: (G, G) -> nat, x: G, y: G, iters: nat)
    requires gr.Lawful() && getB(x, y) > Pow2(iters)
    ensures FinalVerdict(gr, getB, x, y, gr.one, iters) == if y == Pow(gr, x, Pow2(iters)) then Accepted else Rejected
  {
    var B := getB(x, y);
    AcceptedMeans(gr, getB, x, y, gr.one, iters);
    PowOfOne(gr, B);
    QuotientIs(Pow2(iters), B, 0, Pow2(iters));
    gr.Unit(Pow(gr, x, Pow2(iters)));
  }

  // ----- Chains of segments -----

  /** What the verifier decides on a chain of links, read from the last one back. */
  ghost function ChainVerdict<G(!new)>(gr: Group<G>, getB: (G, G) -> nat, x: G, p: Proof<G>, iterations: nat): Verdict
    decreases |p.links|
  {
    if p.links == [] then
      FinalVerdict(gr, getB, x, p.y, p.proof, iterations)
    else
      var n := |p.links| - 1;
      var link := p.links[n];
      if link.B == 0 then DivisionByZero
      else
        var next := OutY(gr, x, link.proof, link.B, link.iters);
        if link.B != getB(x, next) || link.iters > iterations then Rejected
        else ChainVerdict(gr, getB, next, p.(links := p.links[..n]), iterations - link.iters)
  }

  /** The elements that a chain of links leads through, from the start at the end of the list
      down to the last segment's start: every link has the challenge of the elements it
      connects, and their iterations leave rest for the last segment. */
  ghost predicate LeadsThrough<G(!new)>(gr: Group<G>, getB: (G, G) -> nat, xs: seq<G>, links: seq<Link<G>>, iterations: nat,
                                        rest: nat)
  {
    && |xs| == |links| + 1 && iterations == Iterations(links) + rest
    && forall i :: 0 <= i < |links| ==> Connects(gr, getB, xs[i + 1], xs[i], links[i])
  }

  ghost predicate Connects<G(!new)>(gr: Group<G>, getB: (G, G) -> nat, x: G, y: G, link: Link<G>) {
    && link.B > 0 && link.B == getB(x, y)
    && y == gr.mul(Pow(gr, link.proof, link.B), Pow(gr, x, Pow2(link.iters) % link.B))
  }

  ghost function Iterations<G>(links: seq<Link<G>>): nat {
    if links == [] then 0 else Iterations(links[..|links| - 1]) + links[|links| - 1].iters
  }

  /** The chain is connected and its last segment's equation holds. */
  ghost predicate ChainHolds<G(!new)>(gr: Group<G>, getB: (G, G) -> nat, x: G, p: Proof<G>, iterations: nat, xs: seq<G>,
                                      rest: nat)
  {
    && LeadsThrough(gr, getB, xs, p.links, iterations, rest) && xs[|p.links|] == x
    && var B := getB(xs[0], p.y);
    B > 0 && gr.mul(Pow(gr, p.proof, B), Pow(gr, xs[0], Pow2(rest) % B)) == p.y
  }

  /** A chain is accepted exactly if all its links connect, within the iterations, and the last
      segment's equation holds. */
  lemma {:induction false} AcceptedChain<G(!new)>(gr: Group<G>, getB: (G, G) -> nat, x: G, p: Proof<G>, iterations: nat)
    ensures ChainVerdict(gr, getB, x, p, iterations) == Accepted <==>
            exists xs: seq<G>, rest: nat :: ChainHolds(gr, getB, x, p, iterations, xs, rest)
    decreases |p.links|
  {
    if p.links == [] {
      AcceptedMeans(gr, getB, x, p.y, p.proof, iterations);
      if ChainVerdict(gr, getB, x, p, iterations) == Accepted {
        assert ChainHolds(gr, getB, x, p, iterations, [x], iterations);
      }
    } else {
      var n := |p.links| - 1;
      var link := p.links[n];
      if link.B > 0 {
        var next := OutY(gr, x, link.proof, link.B, link.iters);
        if link.B == getB(x, next) && link.iters <= iterations {
          var q := p.(links := p.links[..n]);
          AcceptedChain(gr, getB, next, q, iterations - link.iters);
          if ChainVerdict(gr, getB, next, q, iterations - link.iters) == Accepted {
            var xs: seq<G>, rest: nat :| ChainHolds(gr, getB, next, q, iterations - link.iters, xs, rest);
            ExtendChain(gr, getB, x, p, iterations, xs, rest);
          }
        }
      }
      forall xs: seq<G>, rest: nat | ChainHolds(gr, getB, x, p, iterations, xs, rest)
        ensures ChainVerdict(gr, getB, x, p, iterations) == Accepted
      {
        ShortenChain(gr, getB, x, p, iterations, xs, rest);
        AcceptedChain(gr, getB, xs[n], p.(links := p.links[..n]), iterations - link.iters);
      }
    }
  }

  lemma ExtendChain<G(!new)>(gr: Group<G>, getB: (G, G) -> nat, x: G, p: Proof<G>, iterations: nat, xs: seq<G>, rest: nat)
    requires p.links != [] && p.links[|p.links| - 1].B > 0 && p.links[|p.links| - 1].iters <= iterations
    requires var link := p.links[|p.links| - 1];
             var next := OutY(gr, x, link.proof, link.B, link.iters);
             var rest' := p.(links := p.links[..|p.links| - 1]);
             link.B == getB(x, next) && ChainHolds(gr, getB, next, rest', iterations - link.iters, xs, rest)
    ensures ChainHolds(gr, getB, x, p, iterations, xs + [x], rest)
  {
    var n := |p.links| - 1;
    forall i | 0 <= i < |p.links|
      ensures Connects(gr, getB, (xs + [x])[i + 1], (xs + [x])[i], p.links[i])
    {
      if i < n {
        assert p.links[..n][i] == p.links[i];
        assert Connects(gr, getB, xs[i + 1], xs[i], p.links[..n][i]);
      }
    }
  }

  lemma ShortenChain<G(!new)>(gr: Group<G>, getB: (G, G) -> nat, x: G, p: Proof<G>, iterations: nat, xs: seq<G>, rest: nat)
    requires p.links != [] && ChainHolds(gr, getB, x, p, iterations, xs, rest)
    ensures var n := |p.links| - 1;
            var link := p.links[n];
            var rest' := p.(links := p.links[..n]);
            && link.B > 0 && link.iters <= iterations && xs[n] == OutY(gr, x, link.proof, link.B, link.iters)
            && link.B == getB(x, xs[n])
            && ChainHolds(gr, getB, xs[n], rest', iterations - link.iters, xs[..n + 1], rest)
  {
    var n := |p.links| - 1;
    assert Connects(gr, getB, xs[n + 1], xs[n], p.links[n]);
    forall i | 0 <= i < n
      ensures Connects(gr, getB, xs[..n + 1][i + 1], xs[..n + 1][i], p.links[..n][i])
    {
      assert Connects(gr, getB, xs[i + 1], xs[i], p.links[i]);
    }
  }

  /** The n-Wesolowski check, on a proof that parses. */
  method CheckProofOfTimeNWesolowski<G(!new,==)>(gr: Group<G>, getB: (G, G) -> nat, x0: G, p: Proof<G>,
                                                 iterations0: nat, depth: nat)
    returns (verdict: Verdict)
    requires gr.Lawful()
    ensures verdict == if |p.links| != depth then Rejected else ChainVerdict(gr, getB, x0, p, iterations0)
    ensures verdict == Accepted <==>
            |p.links| == depth && exists xs: seq<G>, rest: nat :: ChainHolds(gr, getB, x0, p, iterations0, xs, rest)
  {
    AcceptedChain(gr, getB, x0, p, iterations0);
    if |p.links| != depth {
      return Rejected;
    }
    var x := x0;
    var iterations: nat, i: nat := iterations0, |p.links|;
    assert p.links[..i] == p.links;
    while i > 0
      invariant 0 <= i <= |p.links|
      invariant ChainVerdict(gr, getB, x0, p, iterations0)
             == ChainVerdict(gr, getB, x, p.(links := p.links[..i]), iterations)
    {
      i := i - 1;
      var link := p.links[i];
      assert p.links[..i + 1][..i] == p.links[..i];
      var v, next := VerifyWesoSegment(gr, getB, x, link.proof, link.B, link.iters);
      if v != Accepted {
        return v;
      }
      x := next;
      if link.iters > iterations {
        return Rejected;
      }
      iterations := iterations - link.iters;
    }
    verdict := VerifyWesolowskiProof(gr, getB, x, p.y, p.proof, iterations);
  }

  /** A segment of the squaring chain of g with the proof that a prover makes for it. */
  ghost predicate Honest<G(!new)>(gr: Group<G>, getB: (G, G) -> nat, g: G, s: Segment<G>) {
    && s.Segment?
    && s.x == Pow(gr, g, Pow2(s.start))
    && s.y == Pow(gr, g, Pow2(s.start + s.length))
    && getB(s.x, s.y) > 0
    && s.proof == Pow(gr, s.x, ProofExponent(s.length, getB(s.x, s.y)))
  }

  lemma HonestSegment<G(!new)>(gr: Group<G>, getB: (G, G) -> nat, g: G, s: Segment<G>)
    requires gr.Lawful() && Honest(gr, getB, g, s)
    ensures OutY(gr, s.x, s.proof, getB(s.x, s.y), s.length) == s.y
  {
    ProofLeadsToResult(gr, s.x, getB(s.x, s.y), s.length);
    PowPow(gr, g, Pow2(s.start), Pow2(s.length));
    Pow2Add(s.start, s.length);
  }

  /** Honest segments that follow one another from start on. */
  ghost predicate Chained<G(!new)>(gr: Group<G>, getB: (G, G) -> nat, g: G, segs: seq<Segment<G>>, start: nat) {
    segs != [] ==> Honest(gr, getB, g, segs[0]) && segs[0].start == start
                   && Chained(gr, getB, g, segs[1..], start + segs[0].length)
  }

  ghost function TotalLength<G>(segs: seq<Segment<G>>): nat {
    if segs == [] then 0 else (if segs[0].Segment? then segs[0].length else 0) + TotalLength(segs[1..])
  }

  function LinkOf<G>(getB: (G, G) -> nat, s: Segment<G>): Link<G>
    requires s.Segment?
  {
    Link(s.length, getB(s.x, s.y), s.proof)
  }

  /** All links but the last segment's, in reverse order. */
  function Links<G>(getB: (G, G) -> nat, segs: seq<Segment<G>>): (r: seq<Link<G>>)
    requires forall s :: s in segs ==> s.Segment?
    ensures |r| == |segs|
  {
    if segs == [] then [] else Links(getB, segs[1..]) + [LinkOf(getB, segs[0])]
  }

  function Serialized<G>(getB: (G, G) -> nat, segs: seq<Segment<G>>): Proof<G>
    requires segs != [] && forall s :: s in segs ==> s.Segment?
  {
    var n := |segs| - 1;
    Proof(segs[n].y, segs[n].proof, Links(getB, segs[..n]))
  }

  /** The verifier accepts every chain of honest segments. */
  lemma {:induction false} HonestChainAccepted<G(!new)>(gr: Group<G>, getB: (G, G) -> nat, g: G, segs: seq<Segment<G>>,
                                                        start: nat)
    requires gr.Lawful() && segs != [] && Chained(gr, getB, g, segs, start)
    ensures forall s :: s in segs ==> s.Segment?
    ensures ChainVerdict(gr, getB, Pow(gr, g, Pow2(start)), Serialized(getB, segs), TotalLength(segs)) == Accepted
    decreases |segs|
  {
    HonestSegment(gr, getB, g, segs[0]);
    if |segs| == 1 {
      assert segs == [segs[0]];
      LastAccepted(gr, getB, segs[0]);
    } else {
      var rest := segs[1..];
      HonestChainAccepted(gr, getB, g, rest, start + segs[0].length);
      assert forall s :: s in segs ==> s == segs[0] || s in rest;
      SerializedStep(getB, segs);
      VerdictStep(gr, getB, segs[0], Serialized(getB, segs), TotalLength(segs));
    }
  }

  lemma LastAccepted<G(!new)>(gr: Group<G>, getB: (G, G) -> nat, s: Segment<G>)
    requires s.Segment? && getB(s.x, s.y) > 0 && OutY(gr, s.x, s.proof, getB(s.x, s.y), s.length) == s.y
    ensures ChainVerdict(gr, getB, s.x, Serialized(getB, [s]), TotalLength([s])) == Accepted
  {
    assert [s][1..] == [] && [s][..0] == [];
  }

  /** An honest last link passes the verdict on to the rest of the chain. */
  lemma VerdictStep<G(!new)>(gr: Group<G>, getB: (G, G) -> nat, s: Segment<G>, p: Proof<G>, iterations: nat)
    requires s.Segment? && getB(s.x, s.y) > 0 && OutY(gr, s.x, s.proof, getB(s.x, s.y), s.length) == s.y
    requires p.links != [] && p.links[|p.links| - 1] == LinkOf(getB, s) && s.length <= iterations
    ensures ChainVerdict(gr, getB, s.x, p, iterations)
         == ChainVerdict(gr, getB, s.y, p.(links := p.links[..|p.links| - 1]), iterations - s.length)
  {
  }

  lemma SerializedStep<G>(getB: (G, G) -> nat, segs: seq<Segment<G>>)
    requires |segs| >= 2 && forall s :: s in segs ==> s.Segment?
    ensures var p := Serialized(getB, segs);
            |p.links| == |segs| - 1 && p.links[|segs| - 2] == LinkOf(getB, segs[0])
            && p.(links := p.links[..|segs| - 2]) == Serialized(getB, segs[1..])
  {
    var n := |segs| - 1;
    assert segs[..n][1..] == segs[1..][..n - 1];
    assert segs[..n][0] == segs[0];
    var rest := Links(getB, segs[1..][..n - 1]);
    assert (rest + [LinkOf(getB, segs[0])])[..n - 1] == rest;
  }

  // ----- Assembling a proof from finished segments -----

  function SegmentSize(i: nat): nat {
    Pow2(16 + 2 * i)
  }

  /** Finished segments by bucket and position, with gaps where none has finished yet. */
  ghost predicate Recorded<G(!new)>(gr: Group<G>, getB: (G, G) -> nat, g: G, done: seq<seq<Segment<G>>>) {
    forall i, p :: 0 <= i < |done| && 0 <= p < |done[i]| && done[i][p].Segment? ==>
                     Honest(gr, getB, g, done[i][p]) && done[i][p].length == SegmentSize(i)
                     && done[i][p].start == p * SegmentSize(i)
  }

  /** Finished segments of size i reach beyond at, on its grid and within the iterations. */
  predicate Eligible<G(!new)>(done: seq<seq<Segment<G>>>, at: nat, iteration: nat, i: nat) {
    i < |done| && at % SegmentSize(i) == 0 && at / SegmentSize(i) < |done[i]| && at + SegmentSize(i) <= iteration
  }

  /** The largest size below n that is eligible, or -1. */
  function Longest<G(!new)>(done: seq<seq<Segment<G>>>, at: nat, iteration: nat, n: nat): (i: int)
    ensures -1 <= i < n && (i >= 0 ==> Eligible(done, at, iteration, i))
  {
    if n == 0 then -1
    else if Eligible(done, at, iteration, n - 1) then n - 1
    else Longest(done, at, iteration, n - 1)
  }

  /** The greedy selection from an iteration on: at each point the longest recorded slot that
      starts there, whether or not its segment has finished. */
  function Greedy<G(!new)>(done: seq<seq<Segment<G>>>, at: nat, iteration: nat): seq<Segment<G>>
    decreases iteration - at
  {
    var i := Longest(done, at, iteration, |done|);
    if i < 0 then []
    else [done[i][at / SegmentSize(i)]] + Greedy(done, at + SegmentSize(i), iteration)
  }

  /** How far the selection reaches. */
  function GreedyEnd<G(!new)>(done: seq<seq<Segment<G>>>, at: nat, iteration: nat): (end: nat)
    ensures end >= at && (at <= iteration ==> end <= iteration)
    decreases iteration - at
  {
    var i := Longest(done, at, iteration, |done|);
    if i < 0 then at else GreedyEnd(done, at + SegmentSize(i), iteration)
  }

  /** Segments of size i are used up: they end before at, or no longer fit. */
  ghost predicate Spent<G(!new)>(done: seq<seq<Segment<G>>>, at: nat, iteration: nat, i: nat)
    requires i < |done|
  {
    at + SegmentSize(i) > iteration || at >= |done[i]| * SegmentSize(i)
  }

  lemma SpentIsNotEligible<G(!new)>(done: seq<seq<Segment<G>>>, at: nat, iteration: nat, i: nat)
    requires i < |done| && at % SegmentSize(i) == 0
    ensures Spent(done, at, iteration, i) <==> !Eligible(done, at, iteration, i)
  {
    var d, n := SegmentSize(i), |done[i]|;
    assert at == at / d * d + at % d;
    if at / d < n {
      ProductMonotone(d, at / d + 1, n);
      Distribute(d, at / d, 1);
    } else {
      ProductMonotone(d, n, at / d);
    }
  }

  lemma {:induction false} LongestIs<G(!new)>(done: seq<seq<Segment<G>>>, at: nat, iteration: nat, n: nat, i: int)
    requires -1 <= i < n <= |done| && (i >= 0 ==> Eligible(done, at, iteration, i))
    requires forall j :: i < j < n ==> !Eligible(done, at, iteration, j)
    ensures Longest(done, at, iteration, n) == i
  {
    if n - 1 > i {
      if n > 1 {
        LongestIs(done, at, iteration, n - 1, i);
      }
    }
  }

  lemma NoneLonger<G(!new)>(done: seq<seq<Segment<G>>>, at: nat, iteration: nat, i: int)
    requires -1 <= i < |done| && (i >= 0 ==> Eligible(done, at, iteration, i))
    requires forall j :: i < j < |done| ==> Spent(done, at, iteration, j)
    ensures Longest(done, at, iteration, |done|) == i
  {
    forall j | i < j < |done|
      ensures !Eligible(done, at, iteration, j)
    {
      if at % SegmentSize(j) == 0 {
        SpentIsNotEligible(done, at, iteration, j);
      }
    }
    if |done| > 0 {
      LongestIs(done, at, iteration, |done|, i);
    }
  }

  /** Without a gap among them, the selected segments chain up to where the selection reaches. */
  lemma {:induction false} GreedyChains<G(!new)>(gr: Group<G>, getB: (G, G) -> nat, g: G, done: seq<seq<Segment<G>>>,
                                                 at: nat, iteration: nat)
    requires Recorded(gr, getB, g, done) && Empty !in Greedy(done, at, iteration)
    ensures Chained(gr, getB, g, Greedy(done, at, iteration), at)
    ensures at + TotalLength(Greedy(done, at, iteration)) == GreedyEnd(done, at, iteration)
    decreases iteration - at
  {
    var i := Longest(done, at, iteration, |done|);
    if i >= 0 {
      var s, rest := done[i][at / SegmentSize(i)], Greedy(done, at + SegmentSize(i), iteration);
      assert Greedy(done, at, iteration)[1..] == rest && Greedy(done, at, iteration)[0] == s;
      assert at == at / SegmentSize(i) * SegmentSize(i);
      GreedyChains(gr, getB, g, done, at + SegmentSize(i), iteration);
    }
  }

  lemma {:induction false} GreedyEndsWhole<G(!new)>(done: seq<seq<Segment<G>>>, at: nat, iteration: nat)
    requires at % SegmentSize(0) == 0
    ensures GreedyEnd(done, at, iteration) % SegmentSize(0) == 0
    ensures |done| > 0 ==> Spent(done, GreedyEnd(done, at, iteration), iteration, 0)
    decreases iteration - at
  {
    var i := Longest(done, at, iteration, |done|);
    if i >= 0 {
      WholeSizes(at, i);
      GreedyEndsWhole(done, at + SegmentSize(i), iteration);
    } else if |done| > 0 {
      NothingEligible(done, at, iteration, |done|);
      SpentIsNotEligible(done, at, iteration, 0);
    }
  }

  lemma {:induction false} NothingEligible<G(!new)>(done: seq<seq<Segment<G>>>, at: nat, iteration: nat, n: nat)
    requires n > 0 && Longest(done, at, iteration, n) < 0
    ensures !Eligible(done, at, iteration, 0)
  {
    if n > 1 {
      NothingEligible(done, at, iteration, n - 1);
    }
  }

  lemma WholeSizes(at: nat, i: nat)
    requires at % SegmentSize(0) == 0
    ensures (at + SegmentSize(i)) % SegmentSize(0) == 0
  {
    Pow2Add(2 * i, 16);
    NoRemainder(SegmentSize(0), at);
    DividesBy(SegmentSize(0), Pow2(2 * i));
    DividesCombination(SegmentSize(0), at, SegmentSize(i), 1, 1);
    NoRemainder(SegmentSize(0), at + SegmentSize(i));
  }

  /** segs is the part of the selection before proved. */
  ghost predicate Follows<G(!new)>(done: seq<seq<Segment<G>>>, iteration: nat, segs: seq<Segment<G>>, proved: nat) {
    && Greedy(done, 0, iteration) == segs + Greedy(done, proved, iteration)
    && GreedyEnd(done, 0, iteration) == GreedyEnd(done, proved, iteration)
  }

  ghost predicate LongerSpent<G(!new)>(done: seq<seq<Segment<G>>>, iteration: nat, proved: nat, i: nat) {
    forall j :: i <= j < |done| ==> Spent(done, proved, iteration, j)
  }

  lemma GreedyStep<G(!new)>(done: seq<seq<Segment<G>>>, iteration: nat, position: nat, size: nat, at: nat, i: nat)
    requires i < |done| && size == SegmentSize(i) && at == position * size
    requires position < |done[i]| && at + size <= iteration && LongerSpent(done, iteration, at, i + 1)
    ensures Greedy(done, at, iteration) == [done[i][position]] + Greedy(done, at + size, iteration)
    ensures GreedyEnd(done, at, iteration) == GreedyEnd(done, at + size, iteration)
  {
    Quotient(position, size);
    NoneLonger(done, at, iteration, i);
  }

  lemma SpentLater<G(!new)>(done: seq<seq<Segment<G>>>, iteration: nat, at: nat, later: nat, i: nat)
    requires at <= later && LongerSpent(done, iteration, at, i)
    ensures LongerSpent(done, iteration, later, i)
  {
    forall j | i <= j < |done|
      ensures Spent(done, later, iteration, j)
    {
      assert Spent(done, at, iteration, j);
    }
  }

  lemma FollowsOn<G(!new)>(done: seq<seq<Segment<G>>>, iteration: nat, segs: seq<Segment<G>>, s: Segment<G>, at: nat,
                           later: nat)
    requires Follows(done, iteration, segs, at) && GreedyEnd(done, at, iteration) == GreedyEnd(done, later, iteration)
    requires Greedy(done, at, iteration) == [s] + Greedy(done, later, iteration)
    ensures Follows(done, iteration, segs + [s], later)
  {
    var rest := Greedy(done, later, iteration);
    assert segs + ([s] + rest) == (segs + [s]) + rest;
  }

  lemma SpentNow<G(!new)>(done: seq<seq<Segment<G>>>, iteration: nat, position: nat, size: nat, at: nat, i: nat)
    requires i < |done| && size == SegmentSize(i) && at == position * size && LongerSpent(done, iteration, at, i + 1)
    requires position >= |done[i]| || at + size > iteration
    ensures at % size == 0 && LongerSpent(done, iteration, at, i)
  {
    Quotient(position, size);
    if position >= |done[i]| {
      ProductMonotone(size, |done[i]|, position);
    }
  }

  /** Takes finished segments, longest first, size by size. */
  method Assemble<G(!new)>(done: seq<seq<Segment<G>>>, iteration: nat) returns (segs: seq<Segment<G>>, proved: nat)
    ensures segs == Greedy(done, 0, iteration) && proved == GreedyEnd(done, 0, iteration)
  {
    segs, proved := [], 0;
    var i := |done|;
    while i > 0
      invariant 0 <= i <= |done| && proved % SegmentSize(i) == 0
      invariant Follows(done, iteration, segs, proved) && LongerSpent(done, iteration, proved, i)
    {
      i := i - 1;
      FinerSize(proved, i);
      segs, proved := TakeSegments(done, iteration, i, segs, proved);
    }
    NoneLonger(done, proved, iteration, -1);
  }

  /** The segments of one size, from where the proof stands, as far as they go. */
  method TakeSegments<G(!new)>(done: seq<seq<Segment<G>>>, iteration: nat, i: nat, segs0: seq<Segment<G>>, proved0: nat)
    returns (segs: seq<Segment<G>>, proved: nat)
    requires i < |done| && proved0 == proved0 / SegmentSize(i) * SegmentSize(i)
    requires Follows(done, iteration, segs0, proved0) && LongerSpent(done, iteration, proved0, i + 1)
    ensures proved % SegmentSize(i) == 0
    ensures Follows(done, iteration, segs, proved) && LongerSpent(done, iteration, proved, i)
  {
    segs, proved := segs0, proved0;
    var size := SegmentSize(i);
    var position := proved / size;
    while position < |done[i]| && proved + size <= iteration
      invariant proved == position * size
      invariant Follows(done, iteration, segs, proved) && LongerSpent(done, iteration, proved, i + 1)
      decreases |done[i]| - position
    {
      GreedyStep(done, iteration, position, size, proved, i);
      FollowsOn(done, iteration, segs, done[i][position], proved, proved + size);
      SpentLater(done, iteration, proved, proved + size, i + 1);
      Distribute(size, position, 1);
      segs := segs + [done[i][position]];
      position := position + 1;
      proved := proved + size;
    }
    SpentNow(done, iteration, position, size, proved, i);
  }

  lemma FinerSize(n: nat, i: nat)
    requires n % SegmentSize(i + 1) == 0
    ensures n / SegmentSize(i) * SegmentSize(i) == n
  {
    var d := SegmentSize(i);
    assert Pow2(17 + 2 * i) == 2 * d;
    assert SegmentSize(i + 1) == 4 * d;
    var q := n / SegmentSize(i + 1);
    assert n == q * SegmentSize(i + 1) + n % SegmentSize(i + 1);
    Reassociate(q, 4, d);
    assert n == q * 4 * d;
    Quotient(q * 4, d);
  }

  /** The selection is short enough for a proof, and reaches the last whole segment. */
  predicate Sufficient<G(!new)>(done: seq<seq<Segment<G>>>, iteration: nat) {
    && |Greedy(done, 0, iteration)| <= 63
    && GreedyEnd(done, 0, iteration) >= iteration - iteration % SegmentSize(0)
  }

  /** The whole proof for an iteration: the selected segments and a freshly proved rest.
      Whether a slot is a gap is not tested for; the outcome TookGap stands for what is
      then made of the empty segment. */
  method Prove<G(!new,==)>(gr: Group<G>, getB: (G, G) -> nat, ghost g: G, done: seq<seq<Segment<G>>>, iteration: nat,
                           last: Segment<G>)
    returns (r: Outcome<G>)
    requires gr.Lawful() && Recorded(gr, getB, g, done) && iteration > 0
    requires if iteration % SegmentSize(0) == 0 then last == Empty
             else Honest(gr, getB, g, last) && last.length == iteration % SegmentSize(0)
                  && last.start == iteration - iteration % SegmentSize(0)
    ensures r.Insufficient? <==> !Sufficient(done, iteration)
    ensures r.TookGap? <==> Sufficient(done, iteration) && Empty in Greedy(done, 0, iteration)
    ensures r.Ready? <==> Sufficient(done, iteration) && Empty !in Greedy(done, 0, iteration)
    ensures r.Ready? ==> ChainVerdict(gr, getB, g, r.proof, iteration) == Accepted && |r.proof.links| <= 63
  {
    var segs, proved := Assemble(done, iteration);
    if |segs| > 63 || proved < iteration - iteration % SegmentSize(0) {
      return Insufficient;
    }
    if Empty in segs {
      return TookGap;
    }
    GreedyChains(gr, getB, g, done, 0, iteration);
    GreedyEndsWhole(done, 0, iteration);
    TailLength(proved, iteration, SegmentSize(0));
    AssembledAccepted(gr, getB, g, segs, last, iteration);
    if last.Segment? {
      segs := segs + [last];
    }
    return Ready(Serialized(getB, segs));
  }

  /** The selection reaches the last whole segment whenever the slots of the smallest size do. */
  lemma CoveredReaches<G(!new)>(done: seq<seq<Segment<G>>>, iteration: nat)
    requires |done| > 0 && |done[0]| * SegmentSize(0) + SegmentSize(0) > iteration
    ensures GreedyEnd(done, 0, iteration) >= iteration - iteration % SegmentSize(0)
  {
    GreedyEndsWhole(done, 0, iteration);
    LastWhole(GreedyEnd(done, 0, iteration), iteration, SegmentSize(0));
  }

  lemma SmallSizes()
    ensures SegmentSize(0) == 0x1_0000 && SegmentSize(1) == 0x4_0000
  {
    Pow2Square(8, 0x100);
    assert Pow2(18) == 4 * Pow2(16);
  }

  /** How many finished segments follow each other from a position on, up to a limit. */
  function FinishedRun<G>(bucket: seq<Segment<G>>, position: nat, limit: nat): (n: nat)
    ensures n <= limit
    decreases limit
  {
    if limit == 0 || position >= |bucket| || bucket[position].Empty? then 0
    else 1 + FinishedRun(bucket, position + 1, limit - 1)
  }

  /** How far finished segments reach, as the proving loop computes it: largest size first,
      63 of them at most. Only once this covers the iteration does a proof for it begin. */
  function MaxProving<G>(done: seq<seq<Segment<G>>>, i: nat, proved: nat, blobs: nat): nat
    requires i <= |done| && blobs <= 63
    decreases i
  {
    if i == 0 || blobs == 63 then proved
    else if proved % SegmentSize(i - 1) != 0 then MaxProving(done, i - 1, proved, blobs)
    else
      var n := FinishedRun(done[i - 1], proved / SegmentSize(i - 1), 63 - blobs);
      MaxProving(done, i - 1, proved + n * SegmentSize(i - 1), blobs + n)
  }

  /** A larger segment that has finished first does not help below its end: the gaps left in
      the smallest size are taken, although everything that the proof waits for has happened. */
  lemma GapIsTaken<G(!new)>(s: Segment<G>, t: Segment<G>)
    requires s.Segment? && t.Segment?
    ensures var done := [[Empty, Empty, t], [s]];
            && MaxProving(done, 2, 0, 0) >= 0x3_0000
            && Sufficient(done, 0x3_0000) && Greedy(done, 0, 0x3_0000) == [Empty, Empty, t]
  {
    var done: seq<seq<Segment<G>>> := [[Empty, Empty, t], [s]];
    SmallSizes();
    LongestIs(done, 0, 0x3_0000, 2, 0);
    LongestIs(done, 0x1_0000, 0x3_0000, 2, 0);
    LongestIs(done, 0x2_0000, 0x3_0000, 2, 0);
    LongestIs(done, 0x3_0000, 0x3_0000, 2, -1);
    assert FinishedRun(done[1], 0, 63) == 1 + FinishedRun(done[1], 1, 62);
    assert FinishedRun(done[0], 4, 62) == 0;
    assert MaxProving(done, 1, 0x4_0000, 1) == MaxProving(done, 0, 0x4_0000, 1);
  }

  /** Gaps that a finished larger segment covers do no harm. */
  lemma CoveredGapIsNotTaken<G(!new)>(s: Segment<G>, t: Segment<G>)
    requires s.Segment? && t.Segment?
    ensures var done := [[Empty, Empty, Empty, Empty, t], [s]];
            Sufficient(done, 0x5_0000) && Greedy(done, 0, 0x5_0000) == [s, t]
  {
    var done: seq<seq<Segment<G>>> := [[Empty, Empty, Empty, Empty, t], [s]];
    SmallSizes();
    LongestIs(done, 0, 0x5_0000, 2, 1);
    LongestIs(done, 0x4_0000, 0x5_0000, 2, 0);
    LongestIs(done, 0x5_0000, 0x5_0000, 2, -1);
  }

  lemma LastWhole(proved: nat, iteration: nat, d: nat)
    requires d > 0 && proved % d == 0
    ensures proved + d > iteration ==> proved >= iteration - iteration % d
  {
    var p, q := proved / d, iteration / d;
    assert proved == p * d + proved % d && iteration == q * d + iteration % d;
    Distribute(d, p, 1);
    if p < q {
      ProductMonotone(d, p + 1, q);
    } else {
      ProductMonotone(d, q, p);
    }
  }

  lemma {:induction false} ChainedAppend<G(!new)>(gr: Group<G>, getB: (G, G) -> nat, g: G, segs: seq<Segment<G>>,
                                                  start: nat, s: Segment<G>)
    requires Chained(gr, getB, g, segs, start) && Honest(gr, getB, g, s) && s.start == start + TotalLength(segs)
    ensures Chained(gr, getB, g, segs + [s], start) && TotalLength(segs + [s]) == TotalLength(segs) + s.length
    decreases |segs|
  {
    if segs == [] {
      assert (segs + [s])[1..] == [];
    } else {
      ChainedAppend(gr, getB, g, segs[1..], start + segs[0].length, s);
      assert (segs + [s])[1..] == segs[1..] + [s];
    }
  }

  lemma AssembledAccepted<G(!new)>(gr: Group<G>, getB: (G, G) -> nat, g: G, segs: seq<Segment<G>>, last: Segment<G>,
                                   iteration: nat)
    requires gr.Lawful() && Chained(gr, getB, g, segs, 0) && iteration > 0
    requires last == Empty ==> iteration == TotalLength(segs)
    requires last != Empty ==> Honest(gr, getB, g, last) && last.start == TotalLength(segs)
                               && iteration == last.start + last.length
    ensures var all := if last.Segment? then segs + [last] else segs;
            all != [] && (forall s :: s in all ==> s.Segment?) &&
            ChainVerdict(gr, getB, g, Serialized(getB, all), iteration) == Accepted
  {
    var all := if last.Segment? then segs + [last] else segs;
    if last.Segment? {
      ChainedAppend(gr, getB, g, segs, 0, last);
    }
    HonestChainAccepted(gr, getB, g, all, 0);
    assert Pow2(0) == 1;
    PowOne(gr, g);
  }

  lemma TailLength(proved: nat, iteration: nat, d: nat)
    requires d > 0 && proved % d == 0 && iteration - iteration % d <= proved <= iteration
    ensures proved == iteration - iteration % d
  {
    assert proved == proved / d * d + proved % d;
    assert iteration == iteration / d * d + iteration % d;
    Distribute(d, proved / d, iteration / d);
    SmallMultiple(d, proved / d - iteration / d);
  }

  // ----- The prover meets the verifier -----

  /** The squarings from x, with every k*l-th form stored for the prover. */
  method SquareWithCheckpoints<G(!new)>(gr: Group<G>, x: G, T: nat, k: nat, l: nat)
    returns (y: G, forms: seq<G>)
    requires gr.Lawful() && k >= 1 && l >= 1
    ensures k * l > 0 && |forms| == Checkpoints(T, k, l) && y == Pow(gr, x, Pow2(T))
    ensures forall c :: 0 <= c < |forms| ==> forms[c] == Pow(gr, x, CheckpointWeight(c, k, l))
  {
    ProductGrows(k, l);
    y, forms := x, [];
    PowOne(gr, x);
    var r := 0;
    ghost var q: nat := 0;
    for i := 0 to T
      invariant i == q * (k * l) + r && 0 <= r < k * l
      invariant |forms| == q + (if r > 0 then 1 else 0) && y == Pow(gr, x, Pow2(i))
      invariant forall c :: 0 <= c < |forms| ==> forms[c] == Pow(gr, x, CheckpointWeight(c, k, l))
    {
      if r == 0 {
        Reassociate(q, k, l);
        forms := forms + [y];
      }
      y := gr.mul(y, y);
      PowAdd(gr, x, Pow2(i), Pow2(i));
      r := r + 1;
      if r == k * l {
        Distribute(k * l, q, 1);
        q, r := q + 1, 0;
      }
    }
    QuotientIs(T, k * l, q, r);
  }

  /** The proof the provers make is accepted whenever the challenge has at least k bits. */
  method ProveSlow<G(!new)>(gr: Group<G>, getB: (G, G) -> nat, x: G, T: nat, k: nat, l: nat, parallel: bool)
    returns (y: G, proof: G)
    requires gr.Lawful() && 1 <= k < 31 && l >= 1
    requires forall a, b :: getB(a, b) >= Pow2(k)
    ensures y == Pow(gr, x, Pow2(T)) && getB(x, y) > 0 && proof == Pow(gr, x, ProofExponent(T, getB(x, y)))
    ensures FinalVerdict(gr, getB, x, y, proof, T) == Accepted
  {
    var forms;
    y, forms := SquareWithCheckpoints(gr, x, T, k, l);
    var B := getB(x, y);
    var prover := new Prover(gr, x, forms, T, k, l, B);
    ChallengeCovers(k, T, B);
    if parallel {
      prover.ParallelGenerateProof();
    } else {
      prover.GenerateProof();
    }
    proof := prover.proof;
    ProofLeadsToResult(gr, x, B, T);
  }

}
