/** The queue of segment proofs behind the hardware squarer: chains of proofs linked by
    their predecessors, reference counts, cancellation and re-requesting. */
module ProofChains {
  import opened Integers

  /** No predecessor. Slots are numbered in 16 bits, so this is no slot's number. */
  const NONE := 0xffff
  const CHKP_THRES := 1_000_000
  const MAX_CHKP_SEGMENTS := 61

  /** A proof, or a slot whose proof was deleted. */
  datatype Slot =
    | Erased
    | Proof(iters: nat, segIters: nat, isReq: bool, started: bool, done: bool, prev: nat, refCnt: nat)

  datatype Request = Request(iters: nat, isChkp: bool)

  // ----- Links -----

  ghost predicate Live(ps: seq<Slot>, i: int) {
    0 <= i < |ps| && ps[i].Proof?
  }

  /** A live proof hangs on nothing or on an earlier live checkpoint. */
  ghost predicate LinkOk(ps: seq<Slot>, i: int)
    requires Live(ps, i)
  {
    var p := ps[i].prev;
    p == NONE || (p < i && Live(ps, p) && !ps[p].isReq)
  }

  ghost predicate Linked(ps: seq<Slot>) {
    forall i :: Live(ps, i) ==> LinkOk(ps, i)
  }

  /** A proof's iterations are those of its segment on top of its predecessor's, and a
      checkpoint ends on a multiple of the interval. */
  ghost predicate MeasureOk(ps: seq<Slot>, i: int, interval: nat)
    requires Live(ps, i) && LinkOk(ps, i) && interval > 0
  {
    var p := ps[i];
    && p.iters == p.segIters + (if p.prev == NONE then 0 else ps[p.prev].iters)
    && (!p.isReq ==> p.iters % interval == 0)
  }

  /** The number of segments of the chain that ends in proof i. */
  ghost function Depth(ps: seq<Slot>, i: int): nat
    requires Live(ps, i) && Linked(ps)
    decreases i
  {
    if ps[i].prev == NONE then 1 else 1 + Depth(ps, ps[i].prev)
  }

  ghost predicate ShortAt(ps: seq<Slot>, i: int)
    requires Live(ps, i) && Linked(ps)
  {
    Depth(ps, i) <= if ps[i].isReq then 64 else 63
  }

  ghost predicate Structured(ps: seq<Slot>, interval: nat) {
    && interval > 0
    && Linked(ps)
    && (forall i :: Live(ps, i) ==> MeasureOk(ps, i, interval))
    && (forall i :: Live(ps, i) ==> ShortAt(ps, i))
  }

  predicate SameShape(p: Slot, q: Slot) {
    p.Proof? && q.Proof? && p.iters == q.iters && p.segIters == q.segIters && p.isReq == q.isReq && p.prev == q.prev
  }

  /** Every proof live in qs is in ps too, up to its flags and reference count. */
  ghost predicate Within(qs: seq<Slot>, ps: seq<Slot>) {
    |qs| <= |ps| && forall i :: Live(qs, i) ==> Live(ps, i) && SameShape(qs[i], ps[i])
  }

  lemma {:induction false} DepthWithin(qs: seq<Slot>, ps: seq<Slot>, i: int)
    requires Within(qs, ps) && Linked(ps) && Linked(qs) && Live(qs, i)
    ensures Depth(qs, i) == Depth(ps, i)
    decreases i
  {
    assert LinkOk(qs, i);
    if qs[i].prev != NONE {
      DepthWithin(qs, ps, qs[i].prev);
    }
  }

  /** Deleting proofs, or changing flags and counts, keeps the structure as long as no
      proof is left hanging on a deleted one. */
  lemma WithinStructured(qs: seq<Slot>, ps: seq<Slot>, interval: nat)
    requires Within(qs, ps) && Structured(ps, interval) && Linked(qs)
    ensures Structured(qs, interval)
  {
    forall i | Live(qs, i)
      ensures MeasureOk(qs, i, interval) && ShortAt(qs, i)
    {
      assert LinkOk(qs, i);
      assert MeasureOk(ps, i, interval) && ShortAt(ps, i);
      DepthWithin(qs, ps, i);
    }
  }

  /** Changing flags and counts keeps the links. */
  lemma UpdateLinked(ps: seq<Slot>, k: nat, p: Slot)
    requires Linked(ps) && Live(ps, k) && SameShape(p, ps[k])
    ensures Within(ps[k := p], ps) && Linked(ps[k := p])
  {
    var qs := ps[k := p];
    forall i | Live(qs, i)
      ensures LinkOk(qs, i)
    {
      assert Live(ps, i) && LinkOk(ps, i);
    }
  }

  /** A new proof at the end. */
  lemma PushStructured(ps: seq<Slot>, p: Slot, interval: nat)
    requires Structured(ps, interval) && p.Proof? && |ps| < NONE
    requires p.prev == NONE || (Live(ps, p.prev) && !ps[p.prev].isReq)
    requires p.iters == p.segIters + (if p.prev == NONE then 0 else ps[p.prev].iters)
    requires !p.isReq ==> p.iters % interval == 0
    requires p.prev != NONE ==> Depth(ps, p.prev) < if p.isReq then 64 else 63
    ensures Structured(ps + [p], interval)
    ensures Depth(ps + [p], |ps|) == if p.prev == NONE then 1 else 1 + Depth(ps, p.prev)
  {
    var qs := ps + [p];
    forall i | Live(qs, i)
      ensures LinkOk(qs, i)
    {
      assert i < |ps| ==> Live(ps, i) && LinkOk(ps, i);
    }
    assert Within(ps, qs);
    if p.prev != NONE {
      DepthWithin(ps, qs, p.prev);
    }
    forall i | Live(qs, i)
      ensures MeasureOk(qs, i, interval) && ShortAt(qs, i)
    {
      if i < |ps| {
        assert MeasureOk(ps, i, interval) && ShortAt(ps, i);
        DepthWithin(ps, qs, i);
      }
    }
  }

  /** The proofs of the chain that ends in proof i. */
  ghost function Chain(ps: seq<Slot>, i: int): (s: set<nat>)
    requires Live(ps, i) && Linked(ps)
    ensures i in s && forall x :: x in s ==> x <= i && Live(ps, x)
    decreases i
  {
    {i as nat} + if ps[i].prev == NONE then {} else Chain(ps, ps[i].prev)
  }

  /** The proofs of that chain down to the first started one, without it. */
  ghost function OpenChain(ps: seq<Slot>, i: int): (s: set<nat>)
    requires Live(ps, i) && Linked(ps)
    ensures forall x :: x in s ==> x <= i && Live(ps, x)
    decreases i
  {
    if ps[i].started then {}
    else {i as nat} + if ps[i].prev == NONE then {} else OpenChain(ps, ps[i].prev)
  }

  /** A chain has the proof itself and with every proof its predecessor, as many as Depth says. */
  lemma {:induction false} ChainIs(ps: seq<Slot>, i: int)
    requires Live(ps, i) && Linked(ps)
    ensures |Chain(ps, i)| == Depth(ps, i) && i in Chain(ps, i)
    ensures forall x :: x in Chain(ps, i) && ps[x].prev != NONE ==> ps[x].prev in Chain(ps, i)
    decreases i
  {
    if ps[i].prev != NONE {
      assert LinkOk(ps, i);
      ChainIs(ps, ps[i].prev);
      assert i !in Chain(ps, ps[i].prev);
    }
  }

  /** The open part of a chain is what lies above its last started proof. */
  lemma {:induction false} OpenChainIs(ps: seq<Slot>, i: int)
    requires Live(ps, i) && Linked(ps)
    ensures forall x :: x in OpenChain(ps, i) <==>
                        x in Chain(ps, i) && forall y :: y in Chain(ps, i) && y >= x ==> !ps[y].started
    decreases i
  {
    if ps[i].prev != NONE {
      assert LinkOk(ps, i);
      OpenChainIs(ps, ps[i].prev);
    }
  }

  // ----- Reference counts -----

  /** The counts of the proofs below n that hang on proof i. */
  ghost function ChildRefs(ps: seq<Slot>, i: nat, n: nat): nat
    requires n <= |ps|
  {
    if n == 0 then 0
    else ChildRefs(ps, i, n - 1) + (if ps[n - 1].Proof? && ps[n - 1].prev == i then ps[n - 1].refCnt else 0)
  }

  lemma {:induction false} ChildRefsUpdate(ps: seq<Slot>, k: nat, p: Slot, i: nat, n: nat)
    requires n <= |ps| && Live(ps, k) && p.Proof? && p.prev == ps[k].prev
    ensures ChildRefs(ps[k := p], i, n)
         == ChildRefs(ps, i, n) + (if k < n && ps[k].prev == i then p.refCnt - ps[k].refCnt else 0)
  {
    if n > 0 {
      ChildRefsUpdate(ps, k, p, i, n - 1);
    }
  }

  lemma {:induction false} ChildRefsErase(ps: seq<Slot>, k: nat, i: nat, n: nat)
    requires n <= |ps| && Live(ps, k)
    ensures ChildRefs(ps[k := Erased], i, n)
         == ChildRefs(ps, i, n) - (if k < n && ps[k].prev == i then ps[k].refCnt else 0)
  {
    if n > 0 {
      ChildRefsErase(ps, k, i, n - 1);
    }
  }

  lemma {:induction false} ChildRefsPrefix(ps: seq<Slot>, qs: seq<Slot>, i: nat, n: nat)
    requires n <= |ps| && n <= |qs| && ps[..n] == qs[..n]
    ensures ChildRefs(ps, i, n) == ChildRefs(qs, i, n)
  {
    if n > 0 {
      assert ps[..n - 1] == ps[..n][..n - 1] && qs[..n - 1] == qs[..n][..n - 1];
      assert ps[n - 1] == ps[..n][n - 1] && qs[n - 1] == qs[..n][n - 1];
      ChildRefsPrefix(ps, qs, i, n - 1);
    }
  }

  lemma {:induction false} ChildRefsAtLeast(ps: seq<Slot>, i: nat, j: nat, n: nat)
    requires n <= |ps| && j < n && Live(ps, j) && ps[j].prev == i
    ensures ChildRefs(ps, i, n) >= ps[j].refCnt
  {
    if j < n - 1 {
      ChildRefsAtLeast(ps, i, j, n - 1);
    }
  }

  /** Proof i's count is its own request, unless cancelled, and all that hang on it. A started
      one may have more, since what hung on it is released without telling it. The marked
      proofs have one more than that to spare, or lack one. */
  ghost predicate CountedAt(ps: seq<Slot>, cancelled: set<nat>, spare: nat, lack: nat, i: int)
    requires Live(ps, i)
  {
    var held := ps[i].refCnt + One(i == lack);
    var needed := One(ps[i].isReq && i !in cancelled) + ChildRefs(ps, i, |ps|) + One(i == spare);
    held >= needed && (!ps[i].started ==> held == needed)
  }

  ghost predicate Counted(ps: seq<Slot>, cancelled: set<nat>, spare: nat, lack: nat) {
    forall i :: Live(ps, i) ==> CountedAt(ps, cancelled, spare, lack, i)
  }

  /** The slot with its count changed. */
  function WithCount(p: Slot, n: nat): Slot
    requires p.Proof?
  {
    p.(refCnt := n)
  }

  function Lower(ps: seq<Slot>, k: nat): (qs: seq<Slot>)
    requires k < |ps| && ps[k].Proof? && ps[k].refCnt >= 1
  {
    ps[k := WithCount(ps[k], ps[k].refCnt - 1)]
  }

  function Raise(ps: seq<Slot>, k: nat): (qs: seq<Slot>)
    requires k < |ps| && ps[k].Proof?
  {
    ps[k := WithCount(ps[k], ps[k].refCnt + 1)]
  }

  lemma DecrementCounted(ps: seq<Slot>, cancelled: set<nat>, k: nat)
    requires |ps| <= NONE && Linked(ps) && Live(ps, k) && Counted(ps, cancelled, k, NONE)
    ensures ps[k].refCnt >= 1
    ensures Counted(ps[k := WithCount(ps[k], ps[k].refCnt - 1)], cancelled, ps[k].prev, NONE)
  {
    assert CountedAt(ps, cancelled, k, NONE, k);
    var p := WithCount(ps[k], ps[k].refCnt - 1);
    var qs := ps[k := p];
    assert LinkOk(ps, k);
    forall i | Live(qs, i)
      ensures CountedAt(qs, cancelled, ps[k].prev, NONE, i)
    {
      assert Live(ps, i) && CountedAt(ps, cancelled, k, NONE, i);
      ChildRefsUpdate(ps, k, p, i, |ps|);
    }
  }

  lemma IncrementCounted(ps: seq<Slot>, spare: nat, k: nat)
    requires |ps| <= NONE && Linked(ps) && Live(ps, k) && Counted(ps, {}, spare, k)
    ensures Counted(ps[k := WithCount(ps[k], ps[k].refCnt + 1)], {}, spare, ps[k].prev)
  {
    var p := WithCount(ps[k], ps[k].refCnt + 1);
    var qs := ps[k := p];
    assert LinkOk(ps, k);
    forall i | Live(qs, i)
      ensures CountedAt(qs, {}, spare, ps[k].prev, i)
    {
      assert Live(ps, i) && CountedAt(ps, {}, spare, k, i);
      ChildRefsUpdate(ps, k, p, i, |ps|);
    }
  }

  /** A new proof with count one takes what its predecessor had to spare. */
  lemma PushCounted(ps: seq<Slot>, p: Slot)
    requires |ps| < NONE && Linked(ps) && p.Proof? && p.refCnt == 1 && !p.started
    requires p.prev == NONE || Live(ps, p.prev)
    requires Counted(ps, {}, p.prev, NONE)
    ensures Counted(ps + [p], {}, if p.isReq then NONE else |ps|, NONE)
  {
    var qs := ps + [p];
    assert qs[..|ps|] == ps[..|ps|];
    forall i | Live(qs, i)
      ensures CountedAt(qs, {}, if p.isReq then NONE else |ps|, NONE, i)
    {
      ChildRefsPrefix(ps, qs, i, |ps|);
      if i < |ps| {
        assert Live(ps, i) && CountedAt(ps, {}, p.prev, NONE, i);
      } else {
        NoChildren(ps, i, |ps|);
      }
    }
  }

  lemma {:induction false} NoChildren(ps: seq<Slot>, i: nat, n: nat)
    requires n <= |ps| <= i < NONE && Linked(ps)
    ensures ChildRefs(ps, i, n) == 0
  {
    if n > 0 {
      assert Live(ps, n - 1) ==> LinkOk(ps, n - 1);
      NoChildren(ps, i, n - 1);
    }
  }

  lemma {:induction false} SomeChild(ps: seq<Slot>, i: nat, n: nat) returns (j: nat)
    requires n <= |ps| && ChildRefs(ps, i, n) > 0
    ensures j < n && Live(ps, j) && ps[j].prev == i
  {
    j := n - 1;
    if !(ps[j].Proof? && ps[j].prev == i) {
      j := SomeChild(ps, i, n - 1);
    }
  }

  lemma {:induction false} ChainOfChain(ps: seq<Slot>, i: int, j: int)
    requires Linked(ps) && Live(ps, j) && i in Chain(ps, j)
    ensures Live(ps, i) && Chain(ps, i) <= Chain(ps, j)
    decreases j
  {
    assert LinkOk(ps, j);
    if i != j {
      ChainOfChain(ps, i, ps[j].prev);
    }
  }

  /** No checkpoint waits in vain: on every one that has not started hangs, directly or over
      other checkpoints, a request or a proof that has. */
  lemma {:induction false} CheckpointIsNeeded(ps: seq<Slot>, i: nat) returns (j: nat)
    requires |ps| <= NONE && Linked(ps) && Counted(ps, {}, NONE, NONE) && Positive(ps)
    requires Live(ps, i) && !ps[i].isReq && !ps[i].started
    ensures i < j && Live(ps, j) && i in Chain(ps, j) && (ps[j].isReq || ps[j].started)
    decreases |ps| - i
  {
    assert CountedAt(ps, {}, NONE, NONE, i);
    j := SomeChild(ps, i, |ps|);
    assert LinkOk(ps, j);
    var child := j;
    if !ps[child].isReq && !ps[child].started {
      j := CheckpointIsNeeded(ps, child);
      ChainOfChain(ps, child, j);
    }
  }

  // ----- The base of a request -----

  /** A checkpoint that a request can build on. */
  ghost predicate Eligible(ps: seq<Slot>, idx: nat, reqIters: nat)
    requires Linked(ps)
  {
    Live(ps, idx) && !ps[idx].isReq && ps[idx].iters <= reqIters && Depth(ps, idx) <= MAX_CHKP_SEGMENTS
  }

  ghost predicate NoneEligible(ps: seq<Slot>, queued: seq<nat>, reqIters: nat)
    requires Linked(ps)
  {
    forall k :: 0 <= k < |queued| ==> !Eligible(ps, queued[k], reqIters)
  }

  /** The queue has no eligible checkpoint behind this one. */
  ghost predicate LastEligible(ps: seq<Slot>, queued: seq<nat>, idx: nat, reqIters: nat)
    requires Linked(ps)
  {
    Eligible(ps, idx, reqIters)
    && exists k :: 0 <= k < |queued| && queued[k] == idx && NoneEligible(ps, queued[k + 1..], reqIters)
  }

  /** The base of a request: the last eligible checkpoint of the queue, or nothing. */
  ghost predicate IsBase(ps: seq<Slot>, queued: seq<nat>, reqIters: nat, base: nat, prev: nat) {
    && Linked(ps)
    && (prev == NONE ==> base == 0 && NoneEligible(ps, queued, reqIters))
    && (prev != NONE ==> LastEligible(ps, queued, prev, reqIters) && base == ps[prev].iters)
  }

  // ----- Splitting a request -----

  /** The segments that n iterations are split into: one, two of about 75 and 25 per cent, or
      three of about 69, 23 and 8. */
  function Plan(n: nat, interval: nat): (s: seq<nat>)
    requires interval > 0
    ensures 1 <= |s| <= 3
  {
    if n <= CHKP_THRES then [n]
    else if n - n * 3 / 4 <= CHKP_THRES then
      var c := RoundDown(n * 3 / 4, interval);
      [c, n - c]
    else
      var c := RoundDown(n * 69 / 100, interval);
      var c2 := RoundDown(n * (69 + 23) / 100 - c, interval);
      [c, c2, n - c - c2]
  }

  lemma PlanOfTwo(n: nat, interval: nat, c: nat)
    requires interval > 0 && n > CHKP_THRES && n - n * 3 / 4 <= CHKP_THRES && c == RoundDown(n * 3 / 4, interval)
    ensures Plan(n, interval) == [c] + [n - c]
  {
  }

  lemma PlanOfThree(n: nat, interval: nat, c: nat, c2: nat)
    requires interval > 0 && n - n * 3 / 4 > CHKP_THRES
    requires c == RoundDown(n * 69 / 100, interval) && c2 == RoundDown(n * (69 + 23) / 100 - c, interval)
    ensures c + c2 <= n && Plan(n, interval) == [c, c2] + [n - c - c2]
  {
  }

  /** The largest multiple of d that is not beyond n. */
  function RoundDown(n: nat, d: nat): (r: nat)
    requires d > 0
    ensures r <= n < r + d
  {
    RoundDownIs(n, d);
    n / d * d
  }

  lemma RoundDownIs(n: nat, d: nat)
    requires d > 0
    ensures 0 <= n / d * d <= n < n / d * d + d && n / d * d % d == 0
  {
    assert n == n / d * d + n % d;
    ProductGrows(n / d, d);
    Quotient(n / d, d);
  }

  function Total(s: seq<nat>): nat {
    if s == [] then 0 else s[0] + Total(s[1..])
  }

  /** The segments make up the whole, and all but the last end on the interval. */
  lemma PlanIsWhole(n: nat, interval: nat)
    requires interval > 0
    ensures var s := Plan(n, interval); Total(s) == n && forall k :: 0 <= k < |s| - 1 ==> s[k] % interval == 0
  {
    var s := Plan(n, interval);
    TotalOf(s);
    RoundDownIs(n * 3 / 4, interval);
    RoundDownIs(n * 69 / 100, interval);
    RoundDownIs(n * 92 / 100 - RoundDown(n * 69 / 100, interval), interval);
  }

  /** One segment up to 1,000,000 iterations; up to 4,000,000 two, the first of 75 per cent;
      beyond, three, of which the first makes up 69 per cent and the first two 92. All but the
      last are rounded down to the interval. */
  lemma PlanShares(n: nat, interval: nat)
    requires interval > 0
    ensures var s := Plan(n, interval);
            && (|s| == 1 <==> n <= 1_000_000)
            && (|s| == 2 <==> 1_000_000 < n <= 4_000_000)
            && (|s| == 2 ==> 4 * s[0] <= 3 * n < 4 * (s[0] + interval))
            && (|s| == 3 ==> 100 * s[0] <= 69 * n < 100 * (s[0] + interval))
            && (|s| == 3 ==> 100 * (s[0] + s[1]) <= 92 * n < 100 * (s[0] + s[1] + interval))
  {
    assert n * 69 / 100 <= n * 92 / 100;
  }

  lemma TotalOf(s: seq<nat>)
    ensures |s| == 1 ==> Total(s) == s[0]
    ensures |s| == 2 ==> Total(s) == s[0] + s[1]
    ensures |s| == 3 ==> Total(s) == s[0] + s[1] + s[2]
  {
    if |s| >= 2 {
      assert s[1..][0] == s[1];
    }
    if |s| == 3 {
      assert s[1..][1..] == [s[2]];
    }
  }

  /** The new checkpoints for the segments, each on top of the one before. */
  function Checkpoints(plan: seq<nat>, base: nat, prev: nat, pos: nat): (ps: seq<Slot>)
    requires |plan| <= 2
    ensures |ps| == |plan|
  {
    if |plan| == 0 then []
    else if |plan| == 1 then [Queued(base, plan[0], prev, false)]
    else [Queued(base, plan[0], prev, false), Queued(base + plan[0], plan[1], pos, false)]
  }

  /** What the last of them ends on, or prev without any. */
  function LastOf(plan: seq<nat>, prev: nat, pos: nat): nat {
    if |plan| == 0 then prev else pos + |plan| - 1
  }

  /** A new proof of n iterations above the given ones. */
  function Queued(base: nat, n: nat, prev: nat, isReq: bool): Slot {
    Proof(base + n, n, isReq, false, false, prev, 1)
  }

  function Positions(pos: nat, n: nat): (s: seq<nat>)
    requires n <= 2
    ensures |s| == n
  {
    if n == 0 then [] else if n == 1 then [pos] else [pos, pos + 1]
  }

  /** The checkpoints of a plan and the request itself have been added. */
  ghost predicate SegmentsQueued(qs: seq<Slot>, ps: seq<Slot>, plan: seq<nat>, rest: nat, reqIters: nat, base: nat,
                                 prev0: nat, interval: nat)
  {
    && interval > 0 && base <= reqIters && rest <= reqIters && |plan| <= 2
    && Plan(reqIters - base, interval) == plan + [rest]
    && qs == ps + Checkpoints(plan, base, prev0, |ps|) + [Queued(reqIters - rest, rest, LastOf(plan, prev0, |ps|), true)]
  }

  lemma TwoAdded(qs: seq<Slot>, mid: seq<Slot>, ps: seq<Slot>, q2: seq<nat>, q1: seq<nat>, q0: seq<nat>, first: nat,
                 second: nat, base: nat, prev0: nat)
    requires mid == ps + [Queued(base, first, prev0, false)] && qs == mid + [Queued(base + first, second, |ps|, false)]
    requires q1 == q0 + [|ps|] && q2 == q1 + [|ps| + 1]
    requires RequestsGrow(mid, ps, false, 0) && RequestsGrow(qs, mid, false, 0)
    ensures qs == ps + Checkpoints([first, second], base, prev0, |ps|) && q2 == q0 + Positions(|ps|, 2)
    ensures RequestsGrow(qs, ps, false, 0)
  {
  }

  lemma GrowFurther(rs: seq<Slot>, qs: seq<Slot>, ps: seq<Slot>, v: nat)
    requires RequestsGrow(qs, ps, false, 0) && RequestsGrow(rs, qs, true, v)
    ensures RequestsGrow(rs, ps, true, v)
  {
  }

  lemma Assembled(qs: seq<Slot>, mid: seq<Slot>, ps: seq<Slot>, plan: seq<nat>, rest: nat, reqIters: nat, base: nat,
                  prev0: nat, interval: nat, prev: nat, n: nat)
    requires interval > 0 && reqIters == base + n && rest <= n && Plan(n, interval) == plan + [rest]
    requires mid == ps + Checkpoints(plan, base, prev0, |ps|) && prev == LastOf(plan, prev0, |ps|)
    requires qs == mid + [Queued(reqIters - rest, rest, prev, true)]
    ensures SegmentsQueued(qs, ps, plan, rest, reqIters, base, prev0, interval)
  {
    assert |Plan(reqIters - base, interval)| == |plan| + 1;
  }

  /** A request that has not started. */
  predicate IsRequestFor(p: Slot, iters: nat) {
    p.Proof? && p.isReq && !p.started && p.iters == iters
  }

  // ----- Cancellation -----

  /** Only counts differ. */
  ghost predicate SameButCounts(qs: seq<Slot>, ps: seq<Slot>) {
    && |qs| == |ps|
    && forall i :: 0 <= i < |ps| ==> if ps[i].Proof? then qs[i].Proof? && qs[i] == WithCount(ps[i], qs[i].refCnt)
                     else qs[i].Erased?
  }

  /** The counts of the proofs of s are one higher, and nothing else differs. */
  ghost predicate Raised(qs: seq<Slot>, ps: seq<Slot>, s: set<nat>) {
    SameButCounts(qs, ps) && forall i :: Live(ps, i) ==> qs[i].refCnt == ps[i].refCnt + One(i in s)
  }

  /** A reference has been taken at every proof of the base's chain. */
  ghost predicate TakenAt(mid: seq<Slot>, ps: seq<Slot>, prev: nat) {
    if prev == NONE then mid == ps else Linked(ps) && Live(ps, prev) && Raised(mid, ps, Chain(ps, prev))
  }

  /** What has been added for a request: the checkpoints of its plan, each on top of the one
      before, and the request itself. */
  ghost predicate RequestQueued(qs: seq<Slot>, mid: seq<Slot>, plan: seq<nat>, reqIters: nat, base: nat, prev: nat,
                                interval: nat)
  {
    && |qs| > 0 && IsRequestFor(qs[|qs| - 1], reqIters)
    && exists rest: nat :: SegmentsQueued(qs, mid, plan, rest, reqIters, base, prev, interval)
  }

  lemma QueuedBy(qs: seq<Slot>, mid: seq<Slot>, plan: seq<nat>, rest: nat, reqIters: nat, base: nat, prev: nat, interval: nat)
    requires SegmentsQueued(qs, mid, plan, rest, reqIters, base, prev, interval)
    ensures RequestQueued(qs, mid, plan, reqIters, base, prev, interval) && |mid| < |qs| <= |mid| + 3
    ensures |plan| <= 2
  {
  }

  /** What happens between two states of a request being taken: the cancelled requests, the
      table and queue without them, the base, the table with its references, and the plan. */
  datatype Turn = Turn(cancelled: seq<nat>, proofs: seq<Slot>, queued: seq<nat>, base: nat, prev: nat, mid: seq<Slot>,
                       plan: seq<nat>)

  /** Exactly the queued requests for that many iterations or more are cancelled, if the request
      comes before the last queued proof, and none otherwise. */
  ghost predicate CancelTurn(cancelled: seq<nat>, qs: seq<Slot>, queued': seq<nat>, ps: seq<Slot>, queued: seq<nat>,
                             reqIters: nat)
  {
    if queued != [] && Live(ps, queued[|queued| - 1]) && reqIters < ps[queued[|queued| - 1]].iters then
      Cancels(cancelled, ps, queued, reqIters) && GivenBack(qs, ps, cancelled) && NoneLate(qs, queued', reqIters)
    else
      cancelled == [] && qs == ps && queued' == queued
  }

  /** The request is in the queue, on its base, with its plan. */
  ghost predicate QueueTurn(t: Turn, ps: seq<Slot>, queued: seq<nat>, reqIters: nat, interval: nat) {
    && IsBase(t.proofs, t.queued, reqIters, t.base, t.prev) && TakenAt(t.mid, t.proofs, t.prev)
    && RequestQueued(ps, t.mid, t.plan, reqIters, t.base, t.prev, interval) && |t.plan| <= 2
    && multiset(queued) == multiset(t.queued + Positions(|t.proofs|, |t.plan|) + [|ps| - 1])
    && |ps| - 1 in queued
  }

  lemma RaisedStep(qs: seq<Slot>, ps: seq<Slot>, s: set<nat>, k: nat)
    requires Raised(qs, ps, s) && Live(qs, k) && k !in s
    ensures Raised(Raise(qs, k), ps, s + {k})
  {
  }

  /** The walk down an open chain has come to proof k: the proofs of s are behind it, each
      with one reference less. */
  ghost predicate Walking(ps: seq<Slot>, qs: seq<Slot>, s: set<nat>, r: nat, k: nat)
    requires Linked(ps) && Live(ps, r)
  {
    && Raised(ps, qs, s) && SameButCounts(qs, ps) && Live(ps, k)
    && s + OpenChain(ps, k) == OpenChain(ps, r) && forall x :: x in s ==> x > k
  }

  lemma LoweredStep(ps: seq<Slot>, qs: seq<Slot>, s: set<nat>, k: nat)
    requires Raised(ps, qs, s) && SameButCounts(qs, ps) && Live(qs, k) && k !in s && qs[k].refCnt >= 1
    ensures Raised(ps, Lower(qs, k), s + {k}) && SameButCounts(Lower(qs, k), ps)
  {
    var rs := Lower(qs, k);
    assert forall i :: Live(rs, i) ==> Live(qs, i);
  }

  lemma WalkOn(ps: seq<Slot>, qs: seq<Slot>, s: set<nat>, r: nat, k: nat)
    requires Linked(ps) && Live(ps, r) && Walking(ps, qs, s, r, k)
    requires !qs[k].started && qs[k].refCnt >= 1
    ensures qs[k].prev != NONE ==> Walking(ps, Lower(qs, k), s + {k}, r, qs[k].prev)
    ensures qs[k].prev == NONE ==> Raised(ps, Lower(qs, k), OpenChain(ps, r))
  {
    assert LinkOk(ps, k);
    LoweredStep(ps, qs, s, k);
    if qs[k].prev == NONE {
      assert s + {k} == OpenChain(ps, r);
    } else {
      assert s + {k} + OpenChain(ps, qs[k].prev) == OpenChain(ps, r);
    }
  }

  /** How often proof i lies on the open chains of the first n listed proofs. */
  ghost function Releases(ps: seq<Slot>, idxs: seq<nat>, i: nat, n: nat): nat
    requires Linked(ps) && n <= |idxs| && forall k :: 0 <= k < |idxs| ==> Live(ps, idxs[k])
  {
    if n == 0 then 0 else Releases(ps, idxs, i, n - 1) + One(i in OpenChain(ps, idxs[n - 1]))
  }

  /** What the listed proofs release is gone from the counts, and nothing else differs. */
  ghost predicate Released(qs: seq<Slot>, ps: seq<Slot>, idxs: seq<nat>, n: nat)
    requires Linked(ps) && n <= |idxs| && forall k :: 0 <= k < |idxs| ==> Live(ps, idxs[k])
  {
    SameButCounts(qs, ps) && forall i :: Live(ps, i) ==> ps[i].refCnt == qs[i].refCnt + Releases(ps, idxs, i, n)
  }

  lemma {:induction false} OpenChainSame(qs: seq<Slot>, ps: seq<Slot>, i: int)
    requires SameButCounts(qs, ps) && Linked(qs) && Linked(ps) && Live(ps, i)
    ensures Live(qs, i) && OpenChain(qs, i) == OpenChain(ps, i)
    decreases i
  {
    assert LinkOk(ps, i);
    if !ps[i].started && ps[i].prev != NONE {
      OpenChainSame(qs, ps, ps[i].prev);
    }
  }

  /** One more chain released. */
  lemma ReleasedOneMore(rs: seq<Slot>, qs: seq<Slot>, ps: seq<Slot>, idxs: seq<nat>, n: nat)
    requires Linked(ps) && Linked(qs) && n < |idxs| && forall k :: 0 <= k < |idxs| ==> Live(ps, idxs[k])
    requires Released(qs, ps, idxs, n) && Live(qs, idxs[n]) && Raised(qs, rs, OpenChain(qs, idxs[n]))
    ensures Released(rs, ps, idxs, n + 1)
  {
    OpenChainSame(qs, ps, idxs[n]);
    forall i | Live(ps, i)
      ensures ps[i].refCnt == rs[i].refCnt + Releases(ps, idxs, i, n + 1)
    {
      assert Live(rs, i);
    }
  }

  lemma SlotBut(qs: seq<Slot>, ps: seq<Slot>, k: nat)
    requires SameButCounts(qs, ps) && Live(ps, k)
    ensures Live(qs, k) && qs[k].isReq == ps[k].isReq && qs[k].started == ps[k].started
  {
  }

  lemma SameButCountsLinked(qs: seq<Slot>, ps: seq<Slot>)
    requires SameButCounts(qs, ps) && Linked(ps)
    ensures Within(qs, ps) && Linked(qs)
  {
    forall i | Live(qs, i)
      ensures LinkOk(qs, i)
    {
      assert Live(ps, i) && LinkOk(ps, i);
    }
  }

  /** Requests are counted once, by themselves; a cancelled one whose release is done not at all. */
  ghost predicate RequestCounts(ps: seq<Slot>, cancelled: set<nat>, at: nat) {
    forall i :: Live(ps, i) && ps[i].isReq ==> ps[i].refCnt == if i in cancelled && i != at then 0 else 1
  }

  ghost predicate Positive(ps: seq<Slot>) {
    forall i :: Live(ps, i) ==> ps[i].refCnt >= 1
  }

  ghost predicate Distinct(s: seq<nat>) {
    forall i, j :: 0 <= i < j < |s| ==> s[i] != s[j]
  }

  /** The list of proofs to delete holds exactly those whose count has dropped to zero. */
  ghost predicate Doomed(ps: seq<Slot>, toDel: seq<nat>) {
    && Distinct(toDel)
    && (forall k :: 0 <= k < |toDel| ==> Live(ps, toDel[k]) && !ps[toDel[k]].started)
    && (forall i :: Live(ps, i) ==> (ps[i].refCnt == 0 <==> i in toDel))
  }

  lemma CancelCounted(ps: seq<Slot>, cancelled: set<nat>, r: nat)
    requires |ps| <= NONE && Live(ps, r) && ps[r].isReq && r !in cancelled && Counted(ps, cancelled, NONE, NONE)
    ensures Counted(ps, cancelled + {r}, r, NONE)
  {
    forall i | Live(ps, i)
      ensures CountedAt(ps, cancelled + {r}, r, NONE, i)
    {
      assert CountedAt(ps, cancelled, NONE, NONE, i);
    }
  }

  lemma DropSpare(ps: seq<Slot>, cancelled: set<nat>, k: nat)
    requires |ps| <= NONE && Counted(ps, cancelled, k, NONE) && (Live(ps, k) ==> ps[k].started)
    ensures Counted(ps, cancelled, NONE, NONE)
  {
    forall i | Live(ps, i)
      ensures CountedAt(ps, cancelled, NONE, NONE, i)
    {
      assert CountedAt(ps, cancelled, k, NONE, i);
    }
  }

  /** qs is ps without the proofs of count zero, and possibly without dead slots at the end. */
  ghost predicate Cleaned(qs: seq<Slot>, ps: seq<Slot>) {
    && |qs| <= |ps|
    && (forall i :: 0 <= i < |qs| ==> qs[i] == if ps[i].Proof? && ps[i].refCnt == 0 then Erased else ps[i])
    && (forall i :: |qs| <= i < |ps| ==> ps[i].Erased? || ps[i].refCnt == 0)
  }

  lemma {:induction false} CleanedChildRefs(qs: seq<Slot>, ps: seq<Slot>, i: nat, n: nat)
    requires Cleaned(qs, ps) && n <= |ps|
    ensures ChildRefs(ps, i, n) == ChildRefs(qs, i, if n <= |qs| then n else |qs|)
  {
    if n > 0 {
      CleanedChildRefs(qs, ps, i, n - 1);
    }
  }

  /** Deleting all proofs of count zero leaves no live proof hanging on a deleted one. */
  lemma CleanedLinked(qs: seq<Slot>, ps: seq<Slot>, cancelled: set<nat>)
    requires |ps| <= NONE && Linked(ps) && Counted(ps, cancelled, NONE, NONE) && Cleaned(qs, ps)
    ensures Linked(qs) && Within(qs, ps)
  {
    forall j | Live(qs, j)
      ensures LinkOk(qs, j)
    {
      assert Live(ps, j) && LinkOk(ps, j);
      var i := ps[j].prev;
      if i != NONE {
        assert CountedAt(ps, cancelled, NONE, NONE, i);
        ChildRefsAtLeast(ps, i, j, |ps|);
      }
    }
  }

  lemma CleanedCounted(qs: seq<Slot>, ps: seq<Slot>, cancelled: set<nat>)
    requires |ps| <= NONE && Linked(ps) && Counted(ps, cancelled, NONE, NONE) && Cleaned(qs, ps)
    requires RequestCounts(ps, cancelled, NONE)
    ensures Counted(qs, {}, NONE, NONE) && Positive(qs) && RequestCounts(qs, {}, NONE)
  {
    forall i | Live(qs, i)
      ensures CountedAt(qs, {}, NONE, NONE, i)
    {
      assert Live(ps, i) && CountedAt(ps, cancelled, NONE, NONE, i);
      CleanedChildRefs(qs, ps, i, |ps|);
    }
  }

  /** What is left of the proofs of ps once the listed ones are cancelled: every proof gives
      back as many references as the open chains of the listed ones pass through it, and is
      gone exactly if it has no other. */
  ghost predicate GivenBack(qs: seq<Slot>, ps: seq<Slot>, idxs: seq<nat>)
    requires Linked(ps) && forall k :: 0 <= k < |idxs| ==> Live(ps, idxs[k])
  {
    forall i :: Live(ps, i) ==>
                  var rest := ps[i].refCnt - Releases(ps, idxs, i, |idxs|);
                  && rest >= 0
                  && (rest == 0 <==> !Live(qs, i))
                  && (rest > 0 ==> Live(qs, i) && qs[i] == WithCount(ps[i], rest))
  }

  lemma ReleasedAndCleaned(qs: seq<Slot>, rs: seq<Slot>, ps: seq<Slot>, idxs: seq<nat>)
    requires Linked(ps) && forall k :: 0 <= k < |idxs| ==> Live(ps, idxs[k])
    requires Released(rs, ps, idxs, |idxs|) && Cleaned(qs, rs)
    ensures GivenBack(qs, ps, idxs)
  {
    forall i | Live(ps, i)
      ensures var rest := ps[i].refCnt - Releases(ps, idxs, i, |idxs|);
              && rest >= 0
              && (rest == 0 <==> !Live(qs, i))
              && (rest > 0 ==> Live(qs, i) && qs[i] == WithCount(ps[i], rest))
    {
      assert Live(rs, i) && rs[i] == WithCount(ps[i], rs[i].refCnt);
    }
  }

  /** A listed request lies on its own open chain, and nothing else holds it. */
  lemma {:induction false} ReleasesOwn(ps: seq<Slot>, idxs: seq<nat>, k: nat, n: nat)
    requires Linked(ps) && k < n <= |idxs| && forall j :: 0 <= j < |idxs| ==> Live(ps, idxs[j])
    requires !ps[idxs[k]].started
    ensures Releases(ps, idxs, idxs[k], n) >= 1
  {
    if k < n - 1 {
      ReleasesOwn(ps, idxs, k, n - 1);
    }
  }

  lemma ListedAreGone(qs: seq<Slot>, ps: seq<Slot>, idxs: seq<nat>)
    requires Linked(ps) && forall k :: 0 <= k < |idxs| ==> Live(ps, idxs[k]) && ps[idxs[k]].isReq && !ps[idxs[k]].started
    requires RequestCounts(ps, {}, NONE) && GivenBack(qs, ps, idxs)
    ensures forall k :: 0 <= k < |idxs| ==> !Live(qs, idxs[k])
  {
    forall k | 0 <= k < |idxs|
      ensures !Live(qs, idxs[k])
    {
      ReleasesOwn(ps, idxs, k, |idxs|);
    }
  }

  // ----- Outstanding requests -----

  /** How many live requests below n for v iterations are not cancelled. */
  ghost function Requested(ps: seq<Slot>, cancelled: set<nat>, v: nat, n: nat): nat
    requires n <= |ps|
  {
    if n == 0 then 0
    else Requested(ps, cancelled, v, n - 1)
         + One(ps[n - 1].Proof? && ps[n - 1].isReq && ps[n - 1].iters == v && n - 1 !in cancelled)
  }

  lemma {:induction false} RequestedSame(qs: seq<Slot>, ps: seq<Slot>, cancelled: set<nat>, v: nat, n: nat)
    requires n <= |ps| && SameButCounts(qs, ps)
    ensures Requested(qs, cancelled, v, n) == Requested(ps, cancelled, v, n)
  {
    if n > 0 {
      RequestedSame(qs, ps, cancelled, v, n - 1);
    }
  }

  lemma {:induction false} RequestedCancel(ps: seq<Slot>, cancelled: set<nat>, r: nat, v: nat, n: nat)
    requires n <= |ps| && Live(ps, r) && ps[r].isReq && r !in cancelled
    ensures Requested(ps, cancelled, v, n) == Requested(ps, cancelled + {r}, v, n) + One(r < n && ps[r].iters == v)
  {
    if n > 0 {
      RequestedCancel(ps, cancelled, r, v, n - 1);
    }
  }

  lemma {:induction false} RequestedCleaned(qs: seq<Slot>, ps: seq<Slot>, cancelled: set<nat>, v: nat, n: nat)
    requires Cleaned(qs, ps) && n <= |ps| && RequestCounts(ps, cancelled, NONE) && |ps| <= NONE
    ensures Requested(ps, cancelled, v, n) == Requested(qs, {}, v, if n <= |qs| then n else |qs|)
  {
    if n > 0 {
      RequestedCleaned(qs, ps, cancelled, v, n - 1);
      assert Live(ps, n - 1) && ps[n - 1].isReq ==> ps[n - 1].refCnt == if n - 1 in cancelled then 0 else 1;
    }
  }

  lemma {:induction false} RequestedPrefix(ps: seq<Slot>, qs: seq<Slot>, v: nat, n: nat)
    requires n <= |ps| && n <= |qs| && ps[..n] == qs[..n]
    ensures Requested(ps, {}, v, n) == Requested(qs, {}, v, n)
  {
    if n > 0 {
      assert ps[..n - 1] == ps[..n][..n - 1] && qs[..n - 1] == qs[..n][..n - 1];
      assert ps[n - 1] == ps[..n][n - 1] && qs[n - 1] == qs[..n][n - 1];
      RequestedPrefix(ps, qs, v, n - 1);
    }
  }

  /** There is one more request, or none. */
  ghost predicate RequestsGrow(qs: seq<Slot>, ps: seq<Slot>, isReq: bool, iters: nat) {
    forall v: nat :: Requested(qs, {}, v, |qs|) == Requested(ps, {}, v, |ps|) + One(isReq && iters == v)
  }

  lemma PushRequested(ps: seq<Slot>, p: Slot)
    requires p.Proof?
    ensures RequestsGrow(ps + [p], ps, p.isReq, p.iters)
  {
    assert (ps + [p])[..|ps|] == ps[..|ps|];
    forall v: nat
      ensures Requested(ps + [p], {}, v, |ps|) == Requested(ps, {}, v, |ps|)
    {
      RequestedPrefix(ps + [p], ps, v, |ps|);
    }
  }

  lemma RequestedRelease(qs: seq<Slot>, ps: seq<Slot>, cancelled: set<nat>, r: nat)
    requires SameButCounts(qs, ps) && Live(ps, r) && ps[r].isReq && r !in cancelled
    ensures forall v: nat :: Requested(ps, cancelled, v, |qs|)
                             == Requested(qs, cancelled + {r}, v, |qs|) + One(ps[r].iters == v)
  {
    forall v: nat
      ensures Requested(ps, cancelled, v, |qs|) == Requested(qs, cancelled + {r}, v, |qs|) + One(ps[r].iters == v)
    {
      RequestedCancel(ps, cancelled, r, v, |qs|);
      RequestedSame(qs, ps, cancelled + {r}, v, |qs|);
    }
  }

  /** Changed counts leave the structure, the depths and the requests alone. */
  lemma CountsKeepStructure(qs: seq<Slot>, ps: seq<Slot>, interval: nat, idx: nat)
    requires SameButCounts(qs, ps) && Structured(ps, interval) && Live(ps, idx)
    ensures Structured(qs, interval) && Live(qs, idx) && Depth(qs, idx) == Depth(ps, idx)
    ensures forall v: nat :: Requested(qs, {}, v, |ps|) == Requested(ps, {}, v, |ps|)
  {
    SameButCountsLinked(qs, ps);
    WithinStructured(qs, ps, interval);
    DepthWithin(qs, ps, idx);
    forall v: nat
      ensures Requested(qs, {}, v, |ps|) == Requested(ps, {}, v, |ps|)
    {
      RequestedSame(qs, ps, {}, v, |ps|);
    }
  }

  lemma DoomedStep(ps: seq<Slot>, toDel: seq<nat>, idx: nat)
    requires Live(ps, idx) && !ps[idx].started && ps[idx].refCnt > 0 && Doomed(ps, toDel)
    ensures var n := ps[idx].refCnt - 1;
            Doomed(ps[idx := WithCount(ps[idx], n)], if n == 0 then toDel + [idx] else toDel)
  {
  }

  lemma ReferenceHeld(ps: seq<Slot>, cancelled: set<nat>, idx: nat)
    requires |ps| <= NONE && Linked(ps) && Live(ps, idx) && Counted(ps, cancelled, idx, NONE)
    ensures ps[idx].refCnt >= 1
  {
    DecrementCounted(ps, cancelled, idx);
  }

  /** What releasing one reference of idx keeps. */
  lemma ReleaseKeeps(ps: seq<Slot>, qs: seq<Slot>, toDel: seq<nat>, toDel': seq<nat>, cancelled: set<nat>, at: nat, idx: nat)
    requires |ps| <= NONE && Linked(ps) && Live(ps, idx) && !ps[idx].started && ps[idx].refCnt >= 1
    requires Counted(ps, cancelled, idx, NONE) && RequestCounts(ps, cancelled, at) && Doomed(ps, toDel)
    requires ps[idx].isReq ==> idx == at && idx in cancelled
    requires at == idx || at == NONE
    requires var n := ps[idx].refCnt - 1;
             qs == Lower(ps, idx) && toDel' == if n == 0 then toDel + [idx] else toDel
    ensures SameButCounts(qs, ps) && Linked(qs) && Counted(qs, cancelled, qs[idx].prev, NONE)
    ensures RequestCounts(qs, cancelled, NONE) && Doomed(qs, toDel')
  {
    DecrementCounted(ps, cancelled, idx);
    UpdateLinked(ps, idx, WithCount(ps[idx], ps[idx].refCnt - 1));
    DoomedStep(ps, toDel, idx);
  }

  /** How many of the listed proofs end at v iterations. */
  ghost function Listed(ps: seq<Slot>, idxs: seq<nat>, v: nat, n: nat): nat
    requires n <= |idxs| && forall k :: 0 <= k < |idxs| ==> Live(ps, idxs[k])
  {
    if n == 0 then 0 else Listed(ps, idxs, v, n - 1) + One(ps[idxs[n - 1]].iters == v)
  }

  /** How many pending requests are for v iterations. */
  ghost function Pending(reqs: seq<Request>, v: nat): nat {
    if reqs == [] then 0 else One(reqs[0].iters == v) + Pending(reqs[1..], v)
  }

  lemma {:induction false} PendingInsert(reqs: seq<Request>, k: nat, r: Request, v: nat)
    requires k <= |reqs|
    ensures Pending(reqs[..k] + [r] + reqs[k..], v) == Pending(reqs, v) + One(r.iters == v)
  {
    var all := reqs[..k] + [r] + reqs[k..];
    if k == 0 {
      assert all[1..] == reqs;
    } else {
      assert all[1..] == reqs[1..][..k - 1] + [r] + reqs[1..][k - 1..];
      PendingInsert(reqs[1..], k - 1, r, v);
    }
  }

  /** After cancelling the first n listed proofs the requests are fewer by just those. */
  ghost predicate RequestsLeft(qs: seq<Slot>, ps: seq<Slot>, cancelled: set<nat>, idxs: seq<nat>, n: nat)
    requires |qs| == |ps| && n <= |idxs| && forall k :: 0 <= k < |idxs| ==> Live(ps, idxs[k])
  {
    forall v: nat :: Requested(ps, {}, v, |ps|) == Requested(qs, cancelled, v, |ps|) + Listed(ps, idxs, v, n)
  }

  lemma OneRequestLess(rs: seq<Slot>, qs: seq<Slot>, ps: seq<Slot>, cancelled: set<nat>, idxs: seq<nat>, n: nat)
    requires n < |idxs| && forall k :: 0 <= k < |idxs| ==> Live(ps, idxs[k])
    requires SameButCounts(qs, ps) && SameButCounts(rs, qs) && idxs[n] !in cancelled
    requires Live(ps, idxs[n]) && ps[idxs[n]].isReq
    requires RequestsLeft(qs, ps, cancelled, idxs, n)
    ensures RequestsLeft(rs, ps, cancelled + {idxs[n]}, idxs, n + 1)
  {
    RequestedRelease(rs, qs, cancelled, idxs[n]);
  }

  /** A request for that many iterations or more. */
  ghost predicate IsLate(ps: seq<Slot>, x: nat, reqIters: nat) {
    Live(ps, x) && ps[x].isReq && ps[x].iters >= reqIters
  }

  /** The listed proofs are exactly the queued requests for that many iterations or more. */
  ghost predicate Cancels(idxs: seq<nat>, ps: seq<Slot>, queued: seq<nat>, reqIters: nat) {
    && Linked(ps) && (forall k :: 0 <= k < |idxs| ==> Live(ps, idxs[k]))
    && forall x :: x in idxs <==> x in queued && IsLate(ps, x, reqIters)
  }

  /** No queued request is for that many iterations or more. */
  ghost predicate NoneLate(ps: seq<Slot>, queued: seq<nat>, reqIters: nat) {
    forall x :: x in queued && Live(ps, x) && ps[x].isReq ==> ps[x].iters < reqIters
  }

  lemma LateAreGone(qs: seq<Slot>, ps: seq<Slot>, queued': seq<nat>, queued: seq<nat>, idxs: seq<nat>, reqIters: nat)
    requires Cancels(idxs, ps, queued, reqIters) && Within(qs, ps)
    requires forall x :: x in queued' ==> x in queued
    requires forall k :: 0 <= k < |idxs| ==> !Live(qs, idxs[k])
    ensures NoneLate(qs, queued', reqIters)
  {
    forall x | x in queued' && Live(qs, x) && qs[x].isReq
      ensures qs[x].iters < reqIters
    {
      assert Live(ps, x) && SameShape(qs[x], ps[x]);
      assert x !in idxs;
    }
  }

  // ----- The state -----

  /** The queue holds distinct live proofs that have not been started. */
  ghost predicate QueueOk(ps: seq<Slot>, queued: seq<nat>) {
    Distinct(queued) && forall k :: 0 <= k < |queued| ==> Live(ps, queued[k]) && !ps[queued[k]].started
  }

  /** No proof that waits is forgotten: every live one that has not started is in the queue. */
  ghost predicate AllQueued(ps: seq<Slot>, queued: seq<nat>) {
    forall i :: WaitsInQueue(ps, queued, i)
  }

  ghost predicate WaitsInQueue(ps: seq<Slot>, queued: seq<nat>, i: int) {
    Live(ps, i) && !ps[i].started ==> i in queued
  }

  /** The same proofs wait. */
  lemma StillQueued(qs: seq<Slot>, ps: seq<Slot>, queued': seq<nat>, queued: seq<nat>)
    requires AllQueued(ps, queued)
    requires forall i :: Live(qs, i) && !qs[i].started ==> Live(ps, i) && !ps[i].started && (i in queued ==> i in queued')
    ensures AllQueued(qs, queued')
  {
    forall i
      ensures WaitsInQueue(qs, queued', i)
    {
      assert WaitsInQueue(ps, queued, i);
    }
  }

  lemma CountsQueued(qs: seq<Slot>, ps: seq<Slot>, queued: seq<nat>)
    requires SameButCounts(qs, ps) && AllQueued(ps, queued)
    ensures AllQueued(qs, queued)
  {
    StillQueued(qs, ps, queued, queued);
  }

  /** The first in the queue has been started. */
  lemma StartedQueued(ps: seq<Slot>, queued: seq<nat>, p: Slot)
    requires queued != [] && Live(ps, queued[0]) && p.Proof? && p.started && AllQueued(ps, queued)
    ensures AllQueued(ps[queued[0] := p], queued[1..])
  {
    assert queued == [queued[0]] + queued[1..];
    StillQueued(ps[queued[0] := p], ps, queued[1..], queued);
  }

  lemma FlagQueued(ps: seq<Slot>, queued: seq<nat>, k: nat, p: Slot)
    requires Live(ps, k) && p.Proof? && p.started && AllQueued(ps, queued)
    ensures AllQueued(ps[k := p], queued)
  {
    StillQueued(ps[k := p], ps, queued, queued);
  }

  /** A new proof waits at the end of the queue. */
  lemma PushQueued(ps: seq<Slot>, queued: seq<nat>, p: Slot)
    requires AllQueued(ps, queued)
    ensures AllQueued(ps + [p], queued + [|ps|])
  {
    forall i
      ensures WaitsInQueue(ps + [p], queued + [|ps|], i)
    {
      assert WaitsInQueue(ps, queued, i);
      if i == |ps| {
        assert (queued + [|ps|])[|queued|] == i;
      }
    }
  }

  ghost predicate DoneOk(ps: seq<Slot>, done: seq<nat>) {
    forall k :: 0 <= k < |done| ==> Live(ps, done[k]) && ps[done[k]].started && ps[done[k]].done && ps[done[k]].isReq
  }

  ghost predicate SortedRequests(reqs: seq<Request>) {
    forall i, j :: 0 <= i < j < |reqs| ==> reqs[i].iters <= reqs[j].iters
  }

  ghost predicate SortedQueue(ps: seq<Slot>, queued: seq<nat>)
    requires QueueOk(ps, queued)
  {
    forall i, j :: 0 <= i < j < |queued| ==> ps[queued[i]].iters <= ps[queued[j]].iters
  }

  lemma RemovedQueue(ps: seq<Slot>, q: seq<nat>, q': seq<nat>, idx: nat)
    requires QueueOk(ps, q) && SortedQueue(ps, q)
    requires q' == q || exists k :: 0 <= k < |q| && q[k] == idx && q' == q[..k] + q[k + 1..]
    ensures QueueOk(ps, q') && SortedQueue(ps, q')
    ensures forall k :: 0 <= k < |q'| ==> q'[k] in q
    ensures forall x :: x in q && x != idx ==> x in q'
  {
    if q' != q {
      var k :| 0 <= k < |q| && q[k] == idx && q' == q[..k] + q[k + 1..];
      RemovedAt(q, q', k);
      RemovedKeeps(ps, q, q', k);
    }
  }

  lemma RemovedKeeps(ps: seq<Slot>, q: seq<nat>, q': seq<nat>, k: nat)
    requires QueueOk(ps, q) && SortedQueue(ps, q) && k < |q| && |q'| == |q| - 1
    requires forall j :: 0 <= j < |q'| ==> q'[j] == q[if j < k then j else j + 1]
    ensures QueueOk(ps, q') && SortedQueue(ps, q')
  {
  }

  lemma RemovedAt(q: seq<nat>, q': seq<nat>, k: nat)
    requires k < |q| && q' == q[..k] + q[k + 1..]
    ensures |q'| == |q| - 1 && forall j :: 0 <= j < |q'| ==> q'[j] == q[if j < k then j else j + 1]
    ensures forall x :: x in q && x != q[k] ==> x in q'
  {
    assert q == q[..k] + [q[k]] + q[k + 1..];
  }

  /** Stable sorting of distinct numbers by a key. */
  method SortBy(s: seq<nat>, key: nat -> nat) returns (r: seq<nat>)
    requires Distinct(s)
    ensures Distinct(r) && |r| == |s| && forall x :: x in r <==> x in s
    ensures multiset(r) == multiset(s)
    ensures forall i, j :: 0 <= i < j < |r| ==> key(r[i]) <= key(r[j])
  {
    r := [];
    for i := 0 to |s|
      invariant Distinct(r) && |r| == i && forall x :: x in r <==> x in s[..i]
      invariant forall a, b :: 0 <= a < b < |r| ==> key(r[a]) <= key(r[b])
    {
      var k := |r|;
      while k > 0 && key(r[k - 1]) > key(s[i])
        invariant 0 <= k <= |r|
        invariant forall a :: k <= a < |r| ==> key(r[a]) > key(s[i])
      {
        k := k - 1;
      }
      assert s[..i + 1] == s[..i] + [s[i]];
      assert s[i] !in s[..i];
      InsertedAt(r, k, s[i]);
      r := r[..k] + [s[i]] + r[k..];
    }
    assert s[..|s|] == s;
    SameElements(r, s);
  }

  lemma {:induction false} CountOfDistinct(s: seq<nat>, x: nat)
    requires Distinct(s)
    ensures multiset(s)[x] == One(x in s)
  {
    if s != [] {
      var n := |s| - 1;
      assert s == s[..n] + [s[n]];
      assert s[n] !in s[..n];
      CountOfDistinct(s[..n], x);
    }
  }

  lemma SameElements(r: seq<nat>, s: seq<nat>)
    requires Distinct(r) && Distinct(s) && forall x :: x in r <==> x in s
    ensures multiset(r) == multiset(s)
  {
    forall x: nat
      ensures multiset(r)[x] == multiset(s)[x]
    {
      CountOfDistinct(r, x);
      CountOfDistinct(s, x);
    }
  }

  lemma InsertedAt(r: seq<nat>, k: nat, x: nat)
    requires k <= |r| && Distinct(r) && x !in r
    ensures var q := r[..k] + [x] + r[k..]; Distinct(q) && forall y :: y in q <==> y in r || y == x
  {
    var q := r[..k] + [x] + r[k..];
    forall y
      ensures y in q <==> y in r || y == x
    {
      assert r == r[..k] + r[k..];
    }
  }

  /** Every proof of the chain that ends in proof i is finished. */
  ghost predicate ChainDone(ps: seq<Slot>, i: int)
    requires Live(ps, i) && Linked(ps)
    decreases i
  {
    ps[i].done && (ps[i].prev == NONE || (assert LinkOk(ps, i); ChainDone(ps, ps[i].prev)))
  }

  lemma {:induction false} ChainDoneIs(ps: seq<Slot>, i: int)
    requires Live(ps, i) && Linked(ps)
    ensures ChainDone(ps, i) <==> forall x :: x in Chain(ps, i) ==> ps[x].done
    decreases i
  {
    if ps[i].prev != NONE {
      assert LinkOk(ps, i);
      ChainDoneIs(ps, ps[i].prev);
    }
  }

  lemma {:induction false} RequestedUpdate(ps: seq<Slot>, k: nat, p: Slot, v: nat, n: nat)
    requires n <= |ps| && Live(ps, k) && SameShape(p, ps[k])
    ensures Requested(ps[k := p], {}, v, n) == Requested(ps, {}, v, n)
  {
    if n > 0 {
      RequestedUpdate(ps, k, p, v, n - 1);
    }
  }

  lemma ListedPrefix(ps: seq<Slot>, idxs: seq<nat>, more: seq<nat>)
    requires forall k :: 0 <= k < |more| ==> Live(ps, more[k])
    requires |more| == |idxs| + 1 && more[..|idxs|] == idxs
    ensures forall v: nat :: Listed(ps, more, v, |more|)
                             == Listed(ps, idxs, v, |idxs|) + One(ps[more[|idxs|]].iters == v)
  {
    forall v: nat
      ensures Listed(ps, more, v, |idxs|) == Listed(ps, idxs, v, |idxs|)
    {
      ListedSame(ps, idxs, more, v, |idxs|);
    }
  }

  lemma {:induction false} ListedSame(ps: seq<Slot>, idxs: seq<nat>, more: seq<nat>, v: nat, n: nat)
    requires forall k :: 0 <= k < |more| ==> Live(ps, more[k])
    requires n <= |idxs| <= |more| && more[..|idxs|] == idxs
    ensures Listed(ps, more, v, n) == Listed(ps, idxs, v, n)
  {
    if n > 0 {
      ListedSame(ps, idxs, more, v, n - 1);
      assert more[n - 1] == more[..|idxs|][n - 1];
    }
  }

  lemma MultiplesAdd(x: nat, y: nat, d: nat)
    requires d > 0 && x % d == 0 && y % d == 0
    ensures (y + x) % d == 0 && (x + y) % d == 0
  {
    NoRemainder(d, x);
    NoRemainder(d, y);
    DividesCombination(d, x, y, 1, 1);
    NoRemainder(d, x + y);
  }

  class VdfState {
    const interval: nat
    var proofs: seq<Slot>
    var queued: seq<nat>
    var doneProofs: seq<nat>
    var reqProofs: seq<Request>

    constructor (interval: nat)
      requires interval > 0
      ensures Valid() && this.interval == interval && forall v :: Outstanding(v) == 0
    {
      this.interval := interval;
      proofs, queued, doneProofs, reqProofs := [], [], [], [];
    }

    /** Everything but the reference counts. */
    ghost predicate Consistent()
      reads this
    {
      && Structured(proofs, interval)
      && |proofs| <= NONE
      && QueueOk(proofs, queued) && AllQueued(proofs, queued)
      && DoneOk(proofs, doneProofs)
      && SortedRequests(reqProofs)
    }

    ghost predicate Valid()
      reads this
    {
      && Consistent()
      && Counted(proofs, {}, NONE, NONE) && Positive(proofs) && RequestCounts(proofs, {}, NONE)
      && SortedQueue(proofs, queued)
    }

    /** How many requests for v iterations are outstanding: still pending, or in a slot. */
    ghost function Outstanding(v: nat): nat
      reads this
    {
      Requested(proofs, {}, v, |proofs|) + Pending(reqProofs, v)
    }

    /** Releases one reference of proof idx, which has one to spare. */
    method ReleaseOne(idx: nat, toDel0: seq<nat>, ghost cancelled: set<nat>, ghost at: nat) returns (toDel: seq<nat>)
      requires |proofs| <= NONE && Linked(proofs) && Live(proofs, idx) && !proofs[idx].started
      requires Counted(proofs, cancelled, idx, NONE) && RequestCounts(proofs, cancelled, at) && Doomed(proofs, toDel0)
      requires proofs[idx].isReq ==> idx == at && idx in cancelled
      requires at == idx || at == NONE
      modifies this`proofs
      ensures SameButCounts(proofs, old(proofs)) && Linked(proofs)
      ensures old(proofs)[idx].refCnt >= 1
      ensures proofs == Lower(old(proofs), idx)
      ensures Counted(proofs, cancelled, proofs[idx].prev, NONE)
      ensures RequestCounts(proofs, cancelled, NONE) && Doomed(proofs, toDel)
    {
      var p := proofs[idx];
      ReferenceHeld(proofs, cancelled, idx);
      var n := p.refCnt - 1;
      var less := Lower(proofs, idx);
      toDel := if n == 0 then toDel0 + [idx] else toDel0;
      ReleaseKeeps(proofs, less, toDel0, toDel, cancelled, at, idx);
      proofs := less;
    }

    /** Walks down the chain from idx, releasing one reference at each proof until a
        started one. */
    method ReleaseChain(r: nat, toDel0: seq<nat>, ghost cancelled: set<nat>) returns (toDel: seq<nat>)
      requires |proofs| <= NONE && Linked(proofs) && Live(proofs, r) && proofs[r].isReq && !proofs[r].started
      requires r !in cancelled && Counted(proofs, cancelled, NONE, NONE)
      requires RequestCounts(proofs, cancelled, NONE) && Doomed(proofs, toDel0)
      modifies this`proofs
      ensures Raised(old(proofs), proofs, OpenChain(old(proofs), r)) && Linked(proofs)
      ensures Counted(proofs, cancelled + {r}, NONE, NONE)
      ensures RequestCounts(proofs, cancelled + {r}, NONE) && Doomed(proofs, toDel)
    {
      toDel := toDel0;
      CancelCounted(proofs, cancelled, r);
      var idx := r;
      ghost var ps, visited := proofs, {};
      while true
        invariant Walking(ps, proofs, visited, r, idx) && Linked(proofs)
        invariant Live(proofs, idx) && (idx == r || !proofs[idx].isReq)
        invariant Counted(proofs, cancelled + {r}, idx, NONE)
        invariant RequestCounts(proofs, cancelled + {r}, if idx == r then r else NONE)
        invariant Doomed(proofs, toDel)
        decreases idx
      {
        if proofs[idx].started {
          DropSpare(proofs, cancelled + {r}, idx);
          break;
        }
        assert LinkOk(proofs, idx);
        ReferenceHeld(proofs, cancelled + {r}, idx);
        WalkOn(ps, proofs, visited, r, idx);
        toDel := ReleaseOne(idx, toDel, cancelled + {r}, if idx == r then r else NONE);
        visited := visited + {idx};
        if proofs[idx].prev == NONE {
          break;
        }
        idx := proofs[idx].prev;
      }
    }

    /** Releases the references of the next listed request. */
    method ReleaseNext(idxs: seq<nat>, i: nat, toDel0: seq<nat>, ghost cancelled: set<nat>, ghost ps: seq<Slot>)
      returns (toDel: seq<nat>)
      requires |proofs| <= NONE && Linked(proofs) && Linked(ps) && i < |idxs|
      requires forall k :: 0 <= k < |idxs| ==> Live(ps, idxs[k])
      requires var r := idxs[i]; Live(ps, r) && ps[r].isReq && !ps[r].started && r !in cancelled
      requires Released(proofs, ps, idxs, i) && RequestsLeft(proofs, ps, cancelled, idxs, i)
      requires Counted(proofs, cancelled, NONE, NONE) && RequestCounts(proofs, cancelled, NONE) && Doomed(proofs, toDel0)
      modifies this`proofs
      ensures Linked(proofs) && Released(proofs, ps, idxs, i + 1)
      ensures RequestsLeft(proofs, ps, cancelled + {idxs[i]}, idxs, i + 1)
      ensures Counted(proofs, cancelled + {idxs[i]}, NONE, NONE) && RequestCounts(proofs, cancelled + {idxs[i]}, NONE)
      ensures Doomed(proofs, toDel)
    {
      ghost var before := proofs;
      SlotBut(before, ps, idxs[i]);
      toDel := ReleaseChain(idxs[i], toDel0, cancelled);
      ReleasedOneMore(proofs, before, ps, idxs, i);
      OneRequestLess(proofs, before, ps, cancelled, idxs, i);
    }

    /** Releases the references that the listed requests hold along their chains. */
    method Release(idxs: seq<nat>) returns (toDel: seq<nat>, ghost cancelled: set<nat>)
      requires |proofs| <= NONE && Linked(proofs) && Positive(proofs)
      requires Counted(proofs, {}, NONE, NONE) && RequestCounts(proofs, {}, NONE)
      requires Distinct(idxs)
      requires forall k :: 0 <= k < |idxs| ==> Live(proofs, idxs[k]) && proofs[idxs[k]].isReq && !proofs[idxs[k]].started
      modifies this`proofs
      ensures Released(proofs, old(proofs), idxs, |idxs|) && Linked(proofs)
      ensures Counted(proofs, cancelled, NONE, NONE) && RequestCounts(proofs, cancelled, NONE) && Doomed(proofs, toDel)
      ensures RequestsLeft(proofs, old(proofs), cancelled, idxs, |idxs|)
    {
      toDel, cancelled := [], {};
      for i := 0 to |idxs|
        invariant Released(proofs, old(proofs), idxs, i) && Linked(proofs)
        invariant forall k :: i <= k < |idxs| ==> idxs[k] !in cancelled
        invariant Counted(proofs, cancelled, NONE, NONE) && RequestCounts(proofs, cancelled, NONE) && Doomed(proofs, toDel)
        invariant RequestsLeft(proofs, old(proofs), cancelled, idxs, i)
      {
        toDel := ReleaseNext(idxs, i, toDel, cancelled, old(proofs));
        cancelled := cancelled + {idxs[i]};
      }
    }

    /** Takes a proof out of the queue, if it is there. */
    method RemoveFromQueue(idx: nat)
      requires Distinct(queued)
      modifies this`queued
      ensures idx !in queued
      ensures idx !in old(queued) ==> queued == old(queued)
      ensures idx in old(queued) ==> exists k :: 0 <= k < |old(queued)| && old(queued)[k] == idx
                                                 && queued == old(queued)[..k] + old(queued)[k + 1..]
    {
      ghost var q := queued;
      var j := 0;
      while j < |queued|
        invariant 0 <= j
        invariant queued == q ==> forall k :: 0 <= k < j && k < |q| ==> q[k] != idx
        invariant queued != q ==> exists k :: 0 <= k < |q| && q[k] == idx && queued == q[..k] + q[k + 1..]
        invariant queued != q ==> forall k :: 0 <= k < |queued| ==> queued[k] != idx
        decreases |queued| - j
      {
        if queued[j] == idx {
          assert queued == q;
          queued := queued[..j] + queued[j + 1..];
        }
        j := j + 1;
      }
    }

    /** Deletes the listed proofs, and drops deleted slots from the end of the table. */
    method DeleteAll(toDel: seq<nat>, ghost cancelled: set<nat>)
      requires |proofs| <= NONE && Linked(proofs) && Structured(proofs, interval)
      requires Counted(proofs, cancelled, NONE, NONE) && RequestCounts(proofs, cancelled, NONE) && Doomed(proofs, toDel)
      requires QueueOk(proofs, queued) && SortedQueue(proofs, queued) && DoneOk(proofs, doneProofs)
      requires AllQueued(proofs, queued)
      modifies this`proofs, this`queued
      ensures Cleaned(proofs, old(proofs)) && Structured(proofs, interval)
      ensures Counted(proofs, {}, NONE, NONE) && Positive(proofs) && RequestCounts(proofs, {}, NONE)
      ensures QueueOk(proofs, queued) && SortedQueue(proofs, queued) && DoneOk(proofs, doneProofs)
      ensures AllQueued(proofs, queued) && forall x :: x in queued ==> x in old(queued)
    {
      ghost var ps := proofs;
      var last := EraseListed(toDel);
      proofs := proofs[..last + 1];
      CleanedLinked(proofs, ps, cancelled);
      CleanedCounted(proofs, ps, cancelled);
      WithinStructured(proofs, ps, interval);
      StillQueued(proofs, ps, queued, old(queued));
    }

    /** Erases the listed proofs and takes them out of the queue; last is the end of the
        table that is left without the erased tail. */
    method EraseListed(toDel: seq<nat>) returns (last: int)
      requires |proofs| <= NONE && Doomed(proofs, toDel) && QueueOk(proofs, queued) && SortedQueue(proofs, queued)
      modifies this`proofs, this`queued
      ensures -1 <= last < |proofs| && |proofs| == |old(proofs)|
      ensures forall j :: 0 <= j < |proofs| ==> proofs[j] == if j in toDel then Erased else old(proofs)[j]
      ensures forall j :: last < j < |proofs| ==> j in toDel
      ensures QueueOk(old(proofs), queued) && SortedQueue(old(proofs), queued)
      ensures forall k :: 0 <= k < |queued| ==> queued[k] !in toDel
      ensures forall x :: x in old(queued) && x !in toDel ==> x in queued
      ensures forall x :: x in queued ==> x in old(queued)
    {
      ghost var ps := proofs;
      last := |proofs| - 1;
      var sorted := SortBy(toDel, x => x);
      var i := |sorted|;
      while i > 0
        invariant 0 <= i <= |sorted| && -1 <= last < |ps| && |proofs| == |ps|
        invariant forall j :: 0 <= j < |ps| ==> proofs[j] == if j in sorted[i..] then Erased else ps[j]
        invariant forall j :: last < j < |ps| ==> j in sorted[i..]
        invariant QueueOk(ps, queued) && SortedQueue(ps, queued)
        invariant forall k :: 0 <= k < |queued| ==> queued[k] !in sorted[i..]
        invariant forall x :: x in old(queued) && x !in sorted[i..] ==> x in queued
        invariant forall x :: x in queued ==> x in old(queued)
      {
        i := i - 1;
        var idx := sorted[i];
        assert sorted[i..] == [idx] + sorted[i + 1..];
        assert idx in toDel;
        if idx == last {
          last := last - 1;
        }
        proofs := proofs[idx := Erased];
        ghost var q := queued;
        RemoveFromQueue(idx);
        RemovedQueue(ps, q, queued, idx);
      }
      assert sorted[0..] == sorted;
    }

    /** Cancels queued requests that have not been started, with all checkpoints that
        only they needed: every proof gives back what the cancelled chains hold of it, and goes
        exactly if that is all. */
    method DecRef(idxs: seq<nat>)
      requires Valid() && Distinct(idxs)
      requires forall k :: 0 <= k < |idxs| ==> Live(proofs, idxs[k]) && proofs[idxs[k]].isReq && !proofs[idxs[k]].started
      modifies this`proofs, this`queued
      ensures Valid()
      ensures forall v: nat :: Requested(old(proofs), {}, v, |old(proofs)|)
                               == Requested(proofs, {}, v, |proofs|) + Listed(old(proofs), idxs, v, |idxs|)
      ensures |proofs| <= |old(proofs)| && Within(proofs, old(proofs)) && forall x :: x in queued ==> x in old(queued)
      ensures GivenBack(proofs, old(proofs), idxs) && forall k :: 0 <= k < |idxs| ==> !Live(proofs, idxs[k])
    {
      ghost var ps := proofs;
      var toDel;
      ghost var cancelled;
      toDel, cancelled := Release(idxs);
      ghost var released := proofs;
      CountsQueued(released, ps, queued);
      SameButCountsLinked(released, ps);
      WithinStructured(released, ps, interval);
      DeleteAll(toDel, cancelled);
      ReleasedAndCleaned(proofs, released, ps, idxs);
      ListedAreGone(proofs, ps, idxs);
      CleanedLinked(proofs, released, cancelled);
      forall v: nat
        ensures Requested(released, cancelled, v, |ps|) == Requested(proofs, {}, v, |proofs|)
      {
        RequestedCleaned(proofs, released, cancelled, v, |ps|);
      }
    }

    /** Adds a pending request, in order of iterations. */
    method RequestProof(iters: nat, isChkp: bool)
      requires SortedRequests(reqProofs)
      modifies this`reqProofs
      ensures SortedRequests(reqProofs)
      ensures exists k :: 0 <= k <= |old(reqProofs)|
                          && reqProofs == old(reqProofs)[..k] + [Request(iters, isChkp)] + old(reqProofs)[k..]
      ensures forall v: nat :: Pending(reqProofs, v) == Pending(old(reqProofs), v) + One(iters == v)
    {
      var r := Request(iters, isChkp);
      var k := |reqProofs|;
      while k > 0 && reqProofs[k - 1].iters > iters
        invariant 0 <= k <= |reqProofs|
        invariant forall a :: k <= a < |reqProofs| ==> reqProofs[a].iters > iters
      {
        k := k - 1;
      }
      forall v: nat
        ensures Pending(reqProofs[..k] + [r] + reqProofs[k..], v) == Pending(reqProofs, v) + One(iters == v)
      {
        PendingInsert(reqProofs, k, r, v);
      }
      reqProofs := reqProofs[..k] + [r] + reqProofs[k..];
    }

    /** A request before the last queued proof. */
    predicate ShouldQueue(iters: nat)
      reads this
      requires queued != [] && QueueOk(proofs, queued)
    {
      iters < proofs[queued[|queued| - 1]].iters
    }

    /** Puts every queued request for reqIters iterations or more back among the pending. */
    method CancelLater(reqIters: nat) returns (ghost cancelled: seq<nat>)
      requires Valid()
      modifies this`proofs, this`queued, this`reqProofs
      ensures Valid() && |proofs| <= |old(proofs)|
      ensures forall v: nat :: Outstanding(v) == old(Outstanding(v))
      ensures Cancels(cancelled, old(proofs), old(queued), reqIters) && GivenBack(proofs, old(proofs), cancelled)
      ensures NoneLate(proofs, queued, reqIters)
    {
      var toDel := ListLater(reqIters);
      DecRef(toDel);
      LateAreGone(proofs, old(proofs), queued, old(queued), toDel, reqIters);
      cancelled := toDel;
    }

    /** The queued requests for reqIters iterations or more, which also become pending again. */
    method ListLater(reqIters: nat) returns (toDel: seq<nat>)
      requires Valid()
      modifies this`reqProofs
      ensures SortedRequests(reqProofs) && Distinct(toDel) && Cancels(toDel, proofs, queued, reqIters)
      ensures forall k :: 0 <= k < |toDel| ==> proofs[toDel[k]].isReq && !proofs[toDel[k]].started
      ensures forall v: nat :: Pending(reqProofs, v) == Pending(old(reqProofs), v) + Listed(proofs, toDel, v, |toDel|)
    {
      toDel := [];
      for i := 0 to |queued|
        invariant SortedRequests(reqProofs) && Distinct(toDel)
        invariant forall x :: x in toDel <==> x in queued[..i] && IsLate(proofs, x, reqIters)
        invariant forall k :: 0 <= k < |toDel| ==>
                                Live(proofs, toDel[k]) && proofs[toDel[k]].isReq && !proofs[toDel[k]].started
        invariant forall v: nat :: Pending(reqProofs, v) == Pending(old(reqProofs), v) + Listed(proofs, toDel, v, |toDel|)
      {
        var idx := queued[i];
        assert idx !in queued[..i];
        assert queued[..i + 1] == queued[..i] + [idx];
        var isChkp := !proofs[idx].isReq;
        if isChkp || reqIters > proofs[idx].iters {
          continue;
        }
        ghost var listed := toDel;
        toDel := toDel + [idx];
        RequestProof(proofs[idx].iters, false);
        ListedPrefix(proofs, listed, toDel);
      }
      assert queued[..|queued|] == queued;
    }

    /** The number of segments of a chain, by walking it. */
    method CountSegments(idx0: nat) returns (cnt: nat)
      requires Linked(proofs) && Live(proofs, idx0)
      ensures cnt == Depth(proofs, idx0)
    {
      cnt := 0;
      var idx := idx0;
      while true
        invariant Live(proofs, idx) && cnt + Depth(proofs, idx) == Depth(proofs, idx0)
        decreases idx
      {
        assert LinkOk(proofs, idx);
        cnt := cnt + 1;
        idx := proofs[idx].prev;
        if idx == NONE {
          return;
        }
      }
    }

    /** Adds one reference to proof idx, which lacks one. */
    method AddOne(idx: nat, ghost spare: nat)
      requires |proofs| <= NONE && Linked(proofs) && Live(proofs, idx) && !proofs[idx].isReq
      requires Counted(proofs, {}, spare, idx) && Positive(proofs) && RequestCounts(proofs, {}, NONE)
      modifies this`proofs
      ensures proofs == Raise(old(proofs), idx)
      ensures SameButCounts(proofs, old(proofs)) && Linked(proofs)
      ensures Counted(proofs, {}, spare, proofs[idx].prev) && Positive(proofs) && RequestCounts(proofs, {}, NONE)
    {
      IncrementCounted(proofs, spare, idx);
      UpdateLinked(proofs, idx, WithCount(proofs[idx], proofs[idx].refCnt + 1));
      proofs := proofs[idx := WithCount(proofs[idx], proofs[idx].refCnt + 1)];
    }

    /** Adds one reference to every proof of a chain. */
    method IncRef(base: nat)
      requires Valid() && Live(proofs, base) && !proofs[base].isReq
      modifies this`proofs
      ensures Raised(proofs, old(proofs), Chain(old(proofs), base)) && Linked(proofs)
      ensures Counted(proofs, {}, base, NONE) && Positive(proofs) && RequestCounts(proofs, {}, NONE)
    {
      var idx := base;
      ghost var ps, visited := proofs, {};
      while true
        invariant Raised(proofs, ps, visited) && Linked(proofs)
        invariant Live(ps, idx) && visited + Chain(ps, idx) == Chain(ps, base) && forall x :: x in visited ==> x > idx
        invariant Live(proofs, idx) && !proofs[idx].isReq
        invariant Counted(proofs, {}, base, idx) && Positive(proofs) && RequestCounts(proofs, {}, NONE)
        decreases idx
      {
        assert LinkOk(proofs, idx);
        assert LinkOk(ps, idx);
        RaisedStep(proofs, ps, visited, idx);
        AddOne(idx, base);
        visited := visited + {idx};
        idx := proofs[idx].prev;
        if idx == NONE {
          return;
        }
      }
    }

    /** Everything holds but that proof spare has one reference too many, and that the queue is unsorted. */
    ghost predicate Building(spare: nat)
      reads this
    {
      Consistent() && Counted(proofs, {}, spare, NONE) && Positive(proofs) && RequestCounts(proofs, {}, NONE)
    }

    /** A new proof of segIters iterations on top of prev. */
    method QueueProof(segIters: nat, prev: nat, isReq: bool) returns (pos: nat)
      requires Building(prev) && |proofs| < NONE
      requires prev == NONE || (Live(proofs, prev) && !proofs[prev].isReq)
      requires prev != NONE ==> Depth(proofs, prev) < if isReq then 64 else 63
      requires !isReq ==> segIters % interval == 0
      modifies this`proofs, this`queued
      ensures Building(if isReq then NONE else pos)
      ensures pos == |old(proofs)| && |proofs| == pos + 1 && Live(proofs, pos)
      ensures queued == old(queued) + [pos]
      ensures var p := Queued(if prev == NONE then 0 else old(proofs)[prev].iters, segIters, prev, isReq);
              proofs == old(proofs) + [p] && proofs[pos] == p
      ensures Depth(proofs, pos) == if prev == NONE then 1 else 1 + Depth(old(proofs), prev)
      ensures RequestsGrow(proofs, old(proofs), isReq, proofs[pos].iters)
    {
      var iters := segIters;
      if prev != NONE {
        iters := iters + proofs[prev].iters;
        assert MeasureOk(proofs, prev, interval);
      }
      var p := Proof(iters, segIters, isReq, false, false, prev, 1);
      pos := |proofs|;
      if !isReq {
        MultiplesAdd(segIters, if prev == NONE then 0 else proofs[prev].iters, interval);
      }
      PushStructured(proofs, p, interval);
      PushCounted(proofs, p);
      PushRequested(proofs, p);
      PushQueued(proofs, queued, p);
      proofs := proofs + [p];
      queued := queued + [pos];
    }

    /** The last queued checkpoint that the request can build on. */
    method FindBase(reqIters: nat) returns (prev: nat)
      requires Structured(proofs, interval) && |proofs| <= NONE && QueueOk(proofs, queued)
      ensures prev == NONE ==> NoneEligible(proofs, queued, reqIters)
      ensures prev != NONE ==> LastEligible(proofs, queued, prev, reqIters)
      ensures prev != NONE ==> prev in queued && !proofs[prev].isReq && proofs[prev].iters <= reqIters
                               && Depth(proofs, prev) <= 61
      ensures prev == NONE ==> forall x :: x in queued ==>
                                             proofs[x].isReq || proofs[x].iters > reqIters || Depth(proofs, x) > 61
    {
      var i := |queued|;
      while i > 0
        invariant 0 <= i <= |queued|
        invariant NoneEligible(proofs, queued[i..], reqIters)
      {
        i := i - 1;
        var idx := queued[i];
        assert Live(proofs, idx);
        assert queued[i..] == [idx] + queued[i + 1..];
        if proofs[idx].isReq {
          continue;
        }
        var nSegments := CountSegments(idx);
        if proofs[idx].iters <= reqIters && nSegments <= MAX_CHKP_SEGMENTS {
          return idx;
        }
      }
      assert queued[0..] == queued;
      prev := NONE;
    }

    /** The base of a request, with a reference taken at every proof of its chain. */
    method ChooseBase(reqIters: nat) returns (base: nat, prev: nat)
      requires Valid()
      modifies this`proofs
      ensures Building(prev) && |proofs| == |old(proofs)|
      ensures prev == NONE ==> base == 0 && proofs == old(proofs) && NoneEligible(proofs, queued, reqIters)
      ensures prev != NONE ==> LastEligible(old(proofs), queued, prev, reqIters)
                               && Raised(proofs, old(proofs), Chain(old(proofs), prev))
      ensures prev != NONE ==> Live(proofs, prev) && !proofs[prev].isReq && proofs[prev].iters == base <= reqIters
                               && Depth(proofs, prev) <= MAX_CHKP_SEGMENTS
      ensures forall v: nat :: Requested(proofs, {}, v, |proofs|) == Requested(old(proofs), {}, v, |old(proofs)|)
    {
      base := 0;
      prev := FindBase(reqIters);
      if prev != NONE {
        ghost var ps := proofs;
        base := proofs[prev].iters;
        IncRef(prev);
        CountsKeepStructure(proofs, ps, interval, prev);
        CountsQueued(proofs, ps, queued);
      }
    }

    /** A checkpoint of the iterations rounded down to the interval. */
    method QueueCheckpoint(iters: nat, base: nat, prev: nat) returns (chkpIters: nat, pos: nat)
      requires Building(prev) && |proofs| < NONE
      requires prev == NONE ==> base == 0
      requires prev != NONE ==> Live(proofs, prev) && !proofs[prev].isReq && proofs[prev].iters == base
      requires prev != NONE ==> Depth(proofs, prev) < 63
      modifies this`proofs, this`queued
      ensures Building(pos) && chkpIters == RoundDown(iters, interval)
      ensures pos == |old(proofs)| && Live(proofs, pos) && Depth(proofs, pos) == if prev == NONE then 1 else 1 + Depth(old(proofs), prev)
      ensures var p := Queued(base, chkpIters, prev, false); proofs == old(proofs) + [p] && proofs[pos] == p
      ensures queued == old(queued) + [pos]
      ensures RequestsGrow(proofs, old(proofs), false, 0)
    {
      RoundDownIs(iters, interval);
      chkpIters := iters / interval * interval;
      pos := QueueProof(chkpIters, prev, false);
    }

    /** Two checkpoints, of which the second ends at about the given part of the whole. */
    method QueueTwo(iters: nat, whole: nat, base: nat, prev0: nat) returns (first: nat, second: nat, prev: nat)
      requires Building(prev0) && |proofs| + 3 <= NONE && iters <= whole
      requires prev0 == NONE ==> base == 0
      requires prev0 != NONE ==> Live(proofs, prev0) && !proofs[prev0].isReq && proofs[prev0].iters == base
                                 && Depth(proofs, prev0) <= MAX_CHKP_SEGMENTS
      modifies this`proofs, this`queued
      ensures first == RoundDown(iters, interval) && second == RoundDown(whole - first, interval)
      ensures Building(prev) && prev == |old(proofs)| + 1
      ensures Live(proofs, prev) && !proofs[prev].isReq && proofs[prev].iters == base + first + second && Depth(proofs, prev) <= 63
      ensures proofs == old(proofs) + Checkpoints([first, second], base, prev0, |old(proofs)|)
      ensures queued == old(queued) + Positions(|old(proofs)|, 2)
      ensures RequestsGrow(proofs, old(proofs), false, 0)
    {
      ghost var ps, q0 := proofs, queued;
      first, prev := QueueCheckpoint(iters, base, prev0);
      ghost var mid, q1 := proofs, queued;
      second, prev := QueueCheckpoint(whole - first, base + first, prev);
      TwoAdded(proofs, mid, ps, queued, q1, q0, first, second, base, prev0);
    }

    /** The checkpoints on the way to a request of n iterations above the base. */
    method QueueCheckpoints(n: nat, base: nat, prev0: nat) returns (rest: nat, prev: nat, ghost plan: seq<nat>)
      requires Building(prev0) && |proofs| + 3 <= NONE
      requires prev0 == NONE ==> base == 0
      requires prev0 != NONE ==> Live(proofs, prev0) && !proofs[prev0].isReq && proofs[prev0].iters == base
                                 && Depth(proofs, prev0) <= MAX_CHKP_SEGMENTS
      modifies this`proofs, this`queued
      ensures Plan(n, interval) == plan + [rest] && rest <= n
      ensures Building(prev) && prev == LastOf(plan, prev0, |old(proofs)|)
      ensures prev != NONE ==> Live(proofs, prev) && !proofs[prev].isReq && Depth(proofs, prev) <= 63
      ensures (if prev == NONE then 0 else proofs[prev].iters) + rest == base + n
      ensures proofs == old(proofs) + Checkpoints(plan, base, prev0, |old(proofs)|)
      ensures queued == old(queued) + Positions(|old(proofs)|, |plan|)
      ensures RequestsGrow(proofs, old(proofs), false, 0)
    {
      rest, prev, plan := n, prev0, [];
      if n > CHKP_THRES {
        var chkpIters := n * 3 / 4;
        if n - chkpIters > CHKP_THRES {
          var first, second;
          first, second, prev := QueueTwo(n * 69 / 100, n * (69 + 23) / 100, base, prev);
          PlanOfThree(n, interval, first, second);
          plan, rest := [first, second], n - first - second;
        } else {
          chkpIters, prev := QueueCheckpoint(chkpIters, base, prev);
          PlanOfTwo(n, interval, chkpIters);
          plan, rest := [chkpIters], n - chkpIters;
        }
      }
    }

    /** Splits the iterations above the base into checkpoints and a final segment. */
    method QueueSegments(reqIters: nat, base: nat, prev0: nat) returns (ghost plan: seq<nat>, ghost rest: nat)
      requires Building(prev0) && |proofs| + 3 <= NONE && base <= reqIters
      requires prev0 == NONE ==> base == 0
      requires prev0 != NONE ==> Live(proofs, prev0) && !proofs[prev0].isReq && proofs[prev0].iters == base
                                 && Depth(proofs, prev0) <= MAX_CHKP_SEGMENTS
      modifies this`proofs, this`queued
      ensures Building(NONE)
      ensures SegmentsQueued(proofs, old(proofs), plan, rest, reqIters, base, prev0, interval)
      ensures queued == old(queued) + Positions(|old(proofs)|, |plan|) + [|proofs| - 1]
      ensures RequestsGrow(proofs, old(proofs), true, reqIters)
    {
      var last, prev;
      ghost var ps := proofs;
      var n: nat := reqIters - base;
      last, prev, plan := QueueCheckpoints(n, base, prev0);
      ghost var mid := proofs;
      rest := last;
      Assembled(mid + [Queued(reqIters - last, last, prev, true)], mid, ps, plan, last, reqIters, base, prev0, interval, prev, n);
      QueueLast(last, prev, reqIters);
      GrowFurther(proofs, mid, ps, reqIters);
    }

    /** The segment that ends in the request. */
    method QueueLast(rest: nat, prev: nat, reqIters: nat)
      requires Building(prev) && |proofs| < NONE
      requires prev != NONE ==> Live(proofs, prev) && !proofs[prev].isReq && Depth(proofs, prev) <= 63
      requires (if prev == NONE then 0 else proofs[prev].iters) + rest == reqIters
      modifies this`proofs, this`queued
      ensures Building(NONE)
      ensures proofs == old(proofs) + [Queued(reqIters - rest, rest, prev, true)]
      ensures queued == old(queued) + [|old(proofs)|]
      ensures RequestsGrow(proofs, old(proofs), true, reqIters)
    {
      var last := QueueProof(rest, prev, true);
    }

    /** Queues the segments up to a request, on the base there is for it; mid is the table with
        the references taken at the base's chain. */
    method QueueRequest(reqIters: nat) returns (ghost base: nat, ghost prev: nat, ghost mid: seq<Slot>, ghost plan: seq<nat>)
      requires Valid() && |proofs| + 3 <= NONE
      modifies this`proofs, this`queued
      ensures Valid() && |old(proofs)| < |proofs| <= |old(proofs)| + 3
      ensures IsBase(old(proofs), old(queued), reqIters, base, prev) && TakenAt(mid, old(proofs), prev)
      ensures RequestQueued(proofs, mid, plan, reqIters, base, prev, interval)
      ensures multiset(queued) == multiset(old(queued) + Positions(|old(proofs)|, |plan|) + [|proofs| - 1])
      ensures RequestsGrow(proofs, old(proofs), true, reqIters)
    {
      var b, p := ChooseBase(reqIters);
      base, prev, mid := b, p, proofs;
      ghost var rest;
      plan, rest := QueueSegments(reqIters, b, p);
      QueuedBy(proofs, mid, plan, rest, reqIters, b, p, interval);
      SortQueue();
    }

    /** Takes the first pending request: later queued requests are put back among the
        pending, and segments up to the request are queued. No request is lost. */
    method ProcessReq() returns (ghost turn: Turn)
      requires Valid() && |proofs| + 3 <= NONE
      modifies this
      ensures Valid()
      ensures forall v: nat :: Outstanding(v) == old(Outstanding(v))
      ensures old(reqProofs) == [] ==>
                proofs == old(proofs) && queued == old(queued) && reqProofs == [] && doneProofs == old(doneProofs)
      ensures old(reqProofs) != [] ==>
                var reqIters := old(reqProofs)[0].iters;
                && CancelTurn(turn.cancelled, turn.proofs, turn.queued, old(proofs), old(queued), reqIters)
                && QueueTurn(turn, proofs, queued, reqIters, interval)
    {
      turn := Turn([], proofs, queued, 0, NONE, proofs, []);
      if reqProofs == [] {
        return;
      }
      var reqIters := reqProofs[0].iters;
      reqProofs := reqProofs[1..];
      label Taken:
      assert forall v: nat :: old(Outstanding(v)) == Outstanding(v) + One(reqIters == v);
      ghost var cancelled := CancelIfLater(reqIters);
      assert forall v: nat :: Outstanding(v) == old@Taken(Outstanding(v));
      turn := QueueAfter(reqIters, cancelled);
    }

    /** Cancels later requests if the new one comes before the last queued proof. */
    method CancelIfLater(reqIters: nat) returns (ghost cancelled: seq<nat>)
      requires Valid()
      modifies this`proofs, this`queued, this`reqProofs
      ensures Valid() && |proofs| <= |old(proofs)|
      ensures forall v: nat :: Outstanding(v) == old(Outstanding(v))
      ensures CancelTurn(cancelled, proofs, queued, old(proofs), old(queued), reqIters)
    {
      cancelled := [];
      if queued != [] && ShouldQueue(reqIters) {
        cancelled := CancelLater(reqIters);
      }
    }

    method QueueAfter(reqIters: nat, ghost cancelled: seq<nat>) returns (ghost turn: Turn)
      requires Valid() && |proofs| + 3 <= NONE
      modifies this`proofs, this`queued
      ensures Valid() && RequestsGrow(proofs, old(proofs), true, reqIters)
      ensures turn.cancelled == cancelled && turn.proofs == old(proofs) && turn.queued == old(queued)
      ensures QueueTurn(turn, proofs, queued, reqIters, interval)
    {
      ghost var ps, q := proofs, queued;
      ghost var base, prev, mid, plan := QueueRequest(reqIters);
      turn := Turn(cancelled, ps, q, base, prev, mid, plan);
      assert WaitsInQueue(proofs, queued, |proofs| - 1);
    }

    /** Sorts the queue by iterations. */
    method SortQueue()
      requires Building(NONE)
      modifies this`queued
      ensures Valid() && multiset(queued) == multiset(old(queued))
    {
      var ps := proofs;
      var q := queued;
      queued := SortBy(q, (x: nat) => if x < |ps| && ps[x].Proof? then ps[x].iters else 0);
      forall k | 0 <= k < |queued|
        ensures Live(proofs, queued[k]) && !proofs[queued[k]].started
      {
        assert queued[k] in q;
      }
      StillQueued(proofs, proofs, queued, q);
    }

    /** Starts the first queued proof. */
    method StartNext() returns (idx: nat)
      requires Valid() && queued != []
      modifies this`proofs, this`queued
      ensures Valid() && idx == old(queued)[0] && queued == old(queued)[1..]
      ensures Live(proofs, idx) && proofs == old(proofs)[idx := old(proofs)[idx].(started := true)]
      ensures forall v: nat :: Outstanding(v) == old(Outstanding(v))
    {
      idx := queued[0];
      StartedQueued(proofs, queued, proofs[idx].(started := true));
      queued := queued[1..];
      SetFlag(idx, proofs[idx].(started := true));
    }

    /** A proof thread has finished. */
    method Finish(idx: nat)
      requires Valid() && Live(proofs, idx) && proofs[idx].started
      modifies this`proofs, this`doneProofs
      ensures Valid() && proofs == old(proofs)[idx := old(proofs)[idx].(done := true)]
      ensures doneProofs == old(doneProofs) + (if old(proofs)[idx].isReq then [idx] else [])
      ensures forall v: nat :: Outstanding(v) == old(Outstanding(v))
    {
      if proofs[idx].isReq {
        doneProofs := doneProofs + [idx];
      }
      FlagQueued(proofs, queued, idx, proofs[idx].(done := true));
      SetFlag(idx, proofs[idx].(done := true));
    }

    method SetFlag(idx: nat, p: Slot)
      requires Structured(proofs, interval) && |proofs| <= NONE && Live(proofs, idx)
      requires SameShape(p, proofs[idx]) && p.refCnt == proofs[idx].refCnt && (proofs[idx].started ==> p.started)
      requires Counted(proofs, {}, NONE, NONE) && Positive(proofs) && RequestCounts(proofs, {}, NONE)
      modifies this`proofs
      ensures proofs == old(proofs)[idx := p] && Structured(proofs, interval)
      ensures Counted(proofs, {}, NONE, NONE) && Positive(proofs) && RequestCounts(proofs, {}, NONE)
      ensures forall v: nat :: Requested(proofs, {}, v, |proofs|) == Requested(old(proofs), {}, v, |proofs|)
    {
      ghost var ps := proofs;
      UpdateLinked(ps, idx, p);
      WithinStructured(ps[idx := p], ps, interval);
      proofs := proofs[idx := p];
      forall i | Live(proofs, i)
        ensures CountedAt(proofs, {}, NONE, NONE, i)
      {
        assert CountedAt(ps, {}, NONE, NONE, i);
        ChildRefsUpdate(ps, idx, p, i, |ps|);
      }
      forall v: nat
        ensures Requested(proofs, {}, v, |ps|) == Requested(ps, {}, v, |ps|)
      {
        RequestedUpdate(ps, idx, p, v, |ps|);
      }
    }

    /** The first finished request whose whole chain is finished, with the number of
        links below it. */
    method Retrieve() returns (found: bool, idx: nat, links: nat)
      requires Valid()
      modifies this`doneProofs
      ensures Valid() && (!found ==> doneProofs == old(doneProofs))
      ensures found ==> Live(proofs, idx) && proofs[idx].isReq && ChainDone(proofs, idx)
                        && links + 1 == Depth(proofs, idx) && links <= 63
      ensures found ==> forall x :: x in Chain(proofs, idx) ==> proofs[x].done
      ensures found ==> exists k :: 0 <= k < |old(doneProofs)| && old(doneProofs)[k] == idx
                                    && doneProofs == old(doneProofs)[..k] + old(doneProofs)[k + 1..]
      ensures !found ==> forall k :: 0 <= k < |doneProofs| ==> !ChainDone(proofs, doneProofs[k])
    {
      for i := 0 to |doneProofs|
        invariant doneProofs == old(doneProofs)
        invariant forall k :: 0 <= k < i ==> !ChainDone(proofs, doneProofs[k])
      {
        idx := doneProofs[i];
        var done;
        done, links := WalkDone(idx);
        if done {
          assert ShortAt(proofs, idx);
          ChainDoneIs(proofs, idx);
          doneProofs := doneProofs[..i] + doneProofs[i + 1..];
          return true, idx, links;
        }
      }
      return false, 0, 0;
    }

    /** Walks a chain while its proofs are finished. */
    method WalkDone(idx: nat) returns (done: bool, cnt: nat)
      requires Linked(proofs) && Live(proofs, idx) && proofs[idx].done
      ensures done <==> ChainDone(proofs, idx)
      ensures done ==> cnt + 1 == Depth(proofs, idx)
    {
      var j := proofs[idx].prev;
      cnt := 0;
      ghost var at := idx;
      assert LinkOk(proofs, idx);
      while j != NONE
        invariant Live(proofs, at) && proofs[at].done && j == proofs[at].prev && LinkOk(proofs, at)
        invariant ChainDone(proofs, idx) <==> ChainDone(proofs, at)
        invariant cnt + Depth(proofs, at) == Depth(proofs, idx)
        decreases at
      {
        if !proofs[j].done {
          return false, cnt;
        }
        at := j;
        assert LinkOk(proofs, at);
        j := proofs[j].prev;
        cnt := cnt + 1;
      }
      done := true;
    }
  }

}
