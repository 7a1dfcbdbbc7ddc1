/** The scheduling pass of the proving manager: which segments are proved by the limited
    number of threads, with running provers paused for better ones. */
module Scheduler {
  import opened Integers
  import opened Words

  datatype Segment = Empty | Segment(start: nat, length: nat)

  /** A prover with its segment; a paused one keeps its place. */
  datatype Job = Job(seg: Segment, paused: bool)

  /** Shorter segments first, then earlier ones; anything is better than nothing. */
  predicate IsWorseThan(x: Segment, y: Segment) {
    if x.Empty? then !y.Empty?
    else if y.Empty? then false
    else x.length > y.length || (x.length == y.length && x.start > y.start)
  }

  // ----- Ranks -----

  /** How many of the first n jobs have a better segment than x. */
  ghost function BetterJobs(jobs: seq<Job>, x: Segment, n: nat): nat
    requires n <= |jobs|
  {
    if n == 0 then 0 else BetterJobs(jobs, x, n - 1) + One(IsWorseThan(x, jobs[n - 1].seg))
  }

  ghost function BetterQueued(q: seq<Segment>, x: Segment): nat {
    if q == [] then 0 else One(IsWorseThan(x, q[0])) + BetterQueued(q[1..], x)
  }

  ghost function BetterPending(pending: seq<seq<Segment>>, x: Segment, n: nat): nat
    requires n <= |pending|
  {
    if n == 0 then 0 else BetterPending(pending, x, n - 1) + BetterQueued(pending[n - 1], x)
  }

  /** How many of all segments, in provers or pending, are better than x. */
  ghost function Rank(jobs: seq<Job>, pending: seq<seq<Segment>>, x: Segment): nat {
    BetterJobs(jobs, x, |jobs|) + BetterPending(pending, x, |pending|)
  }

  /** The ranks of the running jobs among the first n, added up. */
  ghost function RankSum(jobs: seq<Job>, n: nat, jobs0: seq<Job>, pending0: seq<seq<Segment>>): nat
    requires n <= |jobs|
  {
    if n == 0 then 0
    else RankSum(jobs, n - 1, jobs0, pending0) + (if jobs[n - 1].paused then 0 else Rank(jobs0, pending0, jobs[n - 1].seg))
  }

  function Running(jobs: seq<Job>, n: nat): (r: nat)
    requires n <= |jobs|
    ensures r <= n
  {
    if n == 0 then 0 else Running(jobs, n - 1) + One(!jobs[n - 1].paused)
  }

  ghost function RunningPlaces(jobs: seq<Job>, n: nat): set<nat>
    requires n <= |jobs|
  {
    set j: nat | j < n && !jobs[j].paused
  }

  /** Running counts the running provers. */
  lemma {:induction false} RunningCounts(jobs: seq<Job>, n: nat)
    requires n <= |jobs|
    ensures Running(jobs, n) == |RunningPlaces(jobs, n)|
  {
    if n > 0 {
      RunningCounts(jobs, n - 1);
      if jobs[n - 1].paused {
        assert RunningPlaces(jobs, n) == RunningPlaces(jobs, n - 1);
      } else {
        assert RunningPlaces(jobs, n) == RunningPlaces(jobs, n - 1) + {n - 1};
      }
    }
  }

  lemma {:induction false} BetterJobsMonotone(jobs: seq<Job>, x: Segment, y: Segment, k: int, n: nat)
    requires n <= |jobs| && IsWorseThan(x, y) && (0 <= k < |jobs| ==> jobs[k].seg == y)
    ensures BetterJobs(jobs, y, n) + One(0 <= k < n) <= BetterJobs(jobs, x, n)
  {
    if n > 0 {
      BetterJobsMonotone(jobs, x, y, k, n - 1);
    }
  }

  lemma {:induction false} BetterQueuedMonotone(q: seq<Segment>, x: Segment, y: Segment)
    requires IsWorseThan(x, y)
    ensures BetterQueued(q, y) <= BetterQueued(q, x)
    ensures q != [] && q[0] == y ==> BetterQueued(q, y) < BetterQueued(q, x)
  {
    if q != [] {
      BetterQueuedMonotone(q[1..], x, y);
    }
  }

  lemma {:induction false} BetterPendingMonotone(pending: seq<seq<Segment>>, x: Segment, y: Segment, k: int, n: nat)
    requires n <= |pending| && IsWorseThan(x, y)
    requires 0 <= k < |pending| ==> pending[k] != [] && pending[k][0] == y
    ensures BetterPending(pending, y, n) + One(0 <= k < n) <= BetterPending(pending, x, n)
  {
    if n > 0 {
      BetterPendingMonotone(pending, x, y, k, n - 1);
      BetterQueuedMonotone(pending[n - 1], x, y);
    }
  }

  /** Where a waiting segment is found: a paused prover, or the head of a pending queue. */
  ghost predicate Waiting(jobs: seq<Job>, pending: seq<seq<Segment>>, x: Segment, index: int, isNew: bool) {
    if isNew then 0 <= index < |pending| && pending[index] != [] && pending[index][0] == x
    else 0 <= index < |jobs| && jobs[index].paused && jobs[index].seg == x
  }

  /** A better waiting segment has a strictly smaller rank. */
  lemma BetterRank(jobs: seq<Job>, pending: seq<seq<Segment>>, x: Segment, y: Segment, index: int, isNew: bool)
    requires IsWorseThan(x, y) && Waiting(jobs, pending, y, index, isNew)
    ensures Rank(jobs, pending, y) < Rank(jobs, pending, x)
  {
    BetterJobsMonotone(jobs, x, y, if isNew then -1 else index, |jobs|);
    BetterPendingMonotone(pending, x, y, if isNew then index else -1, |pending|);
  }

  // ----- How a step changes ranks and counts -----

  lemma {:induction false} FlipJob(jobs: seq<Job>, k: nat, paused: bool, n: nat, jobs0: seq<Job>,
                                   pending0: seq<seq<Segment>>)
    requires n <= |jobs| && k < |jobs| && jobs[k].paused != paused
    ensures var more := jobs[k := Job(jobs[k].seg, paused)];
            && (forall x :: BetterJobs(more, x, n) == BetterJobs(jobs, x, n))
            && (if paused then Running(more, n) + One(k < n) == Running(jobs, n) &&
                               RankSum(more, n, jobs0, pending0) + (if k < n then Rank(jobs0, pending0, jobs[k].seg) else 0)
                               == RankSum(jobs, n, jobs0, pending0)
                else Running(more, n) == Running(jobs, n) + One(k < n) &&
                     RankSum(more, n, jobs0, pending0)
                     == RankSum(jobs, n, jobs0, pending0) + (if k < n then Rank(jobs0, pending0, jobs[k].seg) else 0))
  {
    if n > 0 {
      FlipJob(jobs, k, paused, n - 1, jobs0, pending0);
    }
  }

  lemma {:induction false} SamePrefix(jobs: seq<Job>, more: seq<Job>, n: nat, jobs0: seq<Job>, pending0: seq<seq<Segment>>)
    requires n <= |jobs| && n <= |more| && jobs[..n] == more[..n]
    ensures forall x :: BetterJobs(more, x, n) == BetterJobs(jobs, x, n)
    ensures Running(more, n) == Running(jobs, n)
    ensures RankSum(more, n, jobs0, pending0) == RankSum(jobs, n, jobs0, pending0)
  {
    if n > 0 {
      assert jobs[..n - 1] == jobs[..n][..n - 1] && more[..n - 1] == more[..n][..n - 1];
      assert jobs[n - 1] == jobs[..n][n - 1] && more[n - 1] == more[..n][n - 1];
      SamePrefix(jobs, more, n - 1, jobs0, pending0);
    }
  }

  lemma {:induction false} PopPending(pending: seq<seq<Segment>>, k: nat, x: Segment, n: nat)
    requires n <= |pending| && k < |pending| && pending[k] != []
    ensures BetterPending(pending[k := pending[k][1..]], x, n) + One(k < n && IsWorseThan(x, pending[k][0]))
         == BetterPending(pending, x, n)
  {
    if n > 0 {
      PopPending(pending, k, x, n - 1);
    }
  }

  /** Moving the head of a pending queue to a new running prover changes no rank. */
  lemma StartPending(jobs: seq<Job>, pending: seq<seq<Segment>>, k: nat, jobs0: seq<Job>, pending0: seq<seq<Segment>>)
    requires k < |pending| && pending[k] != []
    ensures var more, fewer := jobs + [Job(pending[k][0], false)], pending[k := pending[k][1..]];
            && (forall x :: Rank(more, fewer, x) == Rank(jobs, pending, x))
            && Running(more, |more|) == Running(jobs, |jobs|) + 1
            && RankSum(more, |more|, jobs0, pending0)
               == RankSum(jobs, |jobs|, jobs0, pending0) + Rank(jobs0, pending0, pending[k][0])
  {
    var more, fewer := jobs + [Job(pending[k][0], false)], pending[k := pending[k][1..]];
    assert more[..|jobs|] == jobs[..|jobs|];
    SamePrefix(jobs, more, |jobs|, jobs0, pending0);
    forall x
      ensures Rank(more, fewer, x) == Rank(jobs, pending, x)
    {
      PopPending(pending, k, x, |pending|);
    }
  }

  lemma {:induction false} SomeRunning(jobs: seq<Job>, n: nat)
    requires n <= |jobs| && Running(jobs, n) > 0
    ensures exists j :: 0 <= j < n && !jobs[j].paused
  {
    if jobs[n - 1].paused {
      SomeRunning(jobs, n - 1);
    }
  }

  lemma {:induction false} RankSumHas(jobs: seq<Job>, k: nat, n: nat, jobs0: seq<Job>, pending0: seq<seq<Segment>>)
    requires k < n <= |jobs| && !jobs[k].paused
    ensures RankSum(jobs, n, jobs0, pending0) >= Rank(jobs0, pending0, jobs[k].seg)
  {
    if k < n - 1 {
      RankSumHas(jobs, k, n - 1, jobs0, pending0);
    }
  }

  // ----- The manager -----

  class ProverManager {
    var provers: seq<Job>
    var pending: seq<seq<Segment>>
    var maxThreads: nat
    var lastAppended: seq<nat>

    constructor (buckets: nat, maxThreads: nat)
      requires maxThreads >= 1
      ensures Valid() && provers == [] && this.maxThreads == maxThreads && |pending| == buckets
    {
      provers, pending := [], seq(buckets, _ => []);
      this.maxThreads, lastAppended := maxThreads, seq(buckets, _ => 0);
    }

    /** The pending segments of a bucket have its length and lie one after another, up to
        where the last one was appended. */
    ghost predicate QueueOk(i: nat)
      reads this
      requires i < |pending| == |lastAppended|
    {
      && (forall a :: 0 <= a < |pending[i]| ==>
                        pending[i][a].Segment? && pending[i][a].length == Pow2(16 + 2 * i)
                        && pending[i][a].start + pending[i][a].length <= lastAppended[i])
      && (forall a, b :: 0 <= a < b < |pending[i]| ==> pending[i][a].start < pending[i][b].start)
    }

    ghost predicate Valid()
      reads this
    {
      && maxThreads >= 1 && |lastAppended| == |pending|
      && (forall j :: 0 <= j < |provers| ==> provers[j].seg.Segment?)
      && (forall i :: 0 <= i < |pending| ==> QueueOk(i))
    }

    /** The first n segments of a length from a point on. */
    static function Arrivals(from: nat, length: nat, n: nat): (s: seq<Segment>)
      ensures |s| == n
    {
      if n == 0 then [] else Arrivals(from, length, n - 1) + [Segment(from + (n - 1) * length, length)]
    }

    /** A bucket has received the segments from where it stood up to the finished iterations. */
    static ghost predicate Received(length: nat, queue: seq<Segment>, from: nat, queue': seq<Segment>, to: nat,
                                    iterations: nat)
    {
      exists n: nat :: Reaches(length, from, to, n) && queue' == queue + Arrivals(from, length, n)
                       && (n > 0 ==> to <= iterations)
    }

    static predicate Reaches(length: nat, from: nat, to: nat, n: nat) {
      to == from + n * length
    }

    /** Appends every segment that the finished iterations complete, bucket by bucket. */
    method AppendArrived(iterations: nat)
      requires Valid()
      modifies this`pending, this`lastAppended
      ensures Valid() && |pending| == |old(pending)|
      ensures forall i :: 0 <= i < |pending| ==> lastAppended[i] + Pow2(16 + 2 * i) > iterations
      ensures forall i :: 0 <= i < |pending| ==>
                            Received(Pow2(16 + 2 * i), old(pending[i]), old(lastAppended[i]), pending[i], lastAppended[i], iterations)
    {
      for i := 0 to |pending|
        invariant Valid() && |pending| == |old(pending)|
        invariant forall k :: 0 <= k < i ==> lastAppended[k] + Pow2(16 + 2 * k) > iterations
        invariant forall k :: 0 <= k < i ==>
                                Received(Pow2(16 + 2 * k), old(pending[k]), old(lastAppended[k]), pending[k], lastAppended[k], iterations)
        invariant forall k :: i <= k < |pending| ==> pending[k] == old(pending[k]) && lastAppended[k] == old(lastAppended[k])
      {
        FillBucket(i, iterations);
      }
    }

    method FillBucket(i: nat, iterations: nat)
      requires Valid() && i < |pending|
      modifies this`pending, this`lastAppended
      ensures Valid() && |pending| == |old(pending)|
      ensures lastAppended[i] + Pow2(16 + 2 * i) > iterations
      ensures Received(Pow2(16 + 2 * i), old(pending[i]), old(lastAppended[i]), pending[i], lastAppended[i], iterations)
      ensures forall k :: 0 <= k < |pending| && k != i ==>
                            pending[k] == old(pending[k]) && lastAppended[k] == old(lastAppended[k])
    {
      var length := Pow2(16 + 2 * i);
      ghost var n: nat := 0;
      while lastAppended[i] + length <= iterations
        invariant Valid() && |pending| == |old(pending)|
        invariant Reaches(length, old(lastAppended[i]), lastAppended[i], n)
        invariant pending[i] == old(pending[i]) + Arrivals(old(lastAppended[i]), length, n)
        invariant n > 0 ==> lastAppended[i] <= iterations
        invariant forall k :: 0 <= k < |pending| && k != i ==>
                                pending[k] == old(pending[k]) && lastAppended[k] == old(lastAppended[k])
        decreases iterations - lastAppended[i]
      {
        label Before:
        pending := pending[i := pending[i] + [Segment(lastAppended[i], length)]];
        lastAppended := lastAppended[i := lastAppended[i] + length];
        Distribute(length, n, 1);
        n := n + 1;
        forall k | 0 <= k < |pending|
          ensures QueueOk(k)
        {
          assert old@Before(QueueOk(k));
        }
      }
    }

    /** No running prover is worse than any waiting segment, wherever it stands in its queue. */
    ghost predicate NoneBetterWaits()
      reads this
    {
      forall j :: 0 <= j < |provers| && !provers[j].paused ==>
                    (forall w :: 0 <= w < |provers| && provers[w].paused ==> !IsWorseThan(provers[j].seg, provers[w].seg))
                    && (forall i, a :: 0 <= i < |pending| && 0 <= a < |pending[i]| ==>
                                         !IsWorseThan(provers[j].seg, pending[i][a]))
    }

    lemma QueuedIsSegment(i: nat, a: nat)
      requires Valid() && i < |pending| && a < |pending[i]|
      ensures pending[i][a].Segment?
    {
      assert QueueOk(i);
    }

    /** What runs is shorter than what waits, or as long and no later. */
    lemma RunningComesFirst()
      requires Valid() && NoneBetterWaits()
      ensures forall j, w ::
                0 <= j < |provers| && !provers[j].paused
                && 0 <= w < |provers| && provers[w].paused ==>
                  var x, y := provers[j].seg, provers[w].seg;
                  x.Segment? && y.Segment? && (x.length < y.length || (x.length == y.length && x.start <= y.start))
      ensures forall j, i, a ::
                0 <= j < |provers| && !provers[j].paused
                && 0 <= i < |pending| && 0 <= a < |pending[i]| ==>
                  var x, y := provers[j].seg, pending[i][a];
                  x.Segment? && y.Segment? && (x.length < y.length || (x.length == y.length && x.start <= y.start))
    {
      forall i, a | 0 <= i < |pending| && 0 <= a < |pending[i]|
        ensures pending[i][a].Segment?
      {
        QueuedIsSegment(i, a);
      }
    }

    ghost predicate NothingWaits()
      reads this
    {
      (forall w :: 0 <= w < |provers| ==> !provers[w].paused) && (forall i :: 0 <= i < |pending| ==> pending[i] == [])
    }

    /** The best waiting segment, or nothing. */
    method FindBest() returns (best: Segment, index: int, isNew: bool)
      requires Valid()
      ensures best.Empty? ==> NothingWaits()
      ensures best.Segment? ==> Waiting(provers, pending, best, index, isNew)
      ensures best.Segment? ==>
                forall w :: 0 <= w < |provers| && provers[w].paused ==>
                              var y := provers[w].seg;
                              y.Segment? && (best.length < y.length || (best.length == y.length && best.start <= y.start))
      ensures best.Segment? ==>
                forall i :: 0 <= i < |pending| && pending[i] != [] ==>
                              var y := pending[i][0];
                              y.Segment? && (best.length < y.length || (best.length == y.length && best.start <= y.start))
      ensures forall w :: 0 <= w < |provers| && provers[w].paused ==> !IsWorseThan(best, provers[w].seg)
      ensures forall i :: 0 <= i < |pending| && pending[i] != [] ==> !IsWorseThan(best, pending[i][0])
    {
      best, index, isNew := Empty, 0, false;
      for i := 0 to |provers|
        invariant best.Segment? ==> !isNew && Waiting(provers, pending, best, index, isNew)
        invariant forall w :: 0 <= w < i && provers[w].paused ==> !IsWorseThan(best, provers[w].seg)
      {
        if provers[i].paused && IsWorseThan(best, provers[i].seg) {
          best, index, isNew := provers[i].seg, i, false;
        }
      }
      for i := 0 to |pending|
        invariant best.Segment? ==> Waiting(provers, pending, best, index, isNew)
        invariant forall w :: 0 <= w < |provers| && provers[w].paused ==> !IsWorseThan(best, provers[w].seg)
        invariant forall k :: 0 <= k < i && pending[k] != [] ==> !IsWorseThan(best, pending[k][0])
        invariant best.Empty? ==> forall k :: 0 <= k < i ==> pending[k] == []
      {
        assert QueueOk(i);
        if |pending[i]| > 0 && IsWorseThan(best, pending[i][0]) {
          best, index, isNew := pending[i][0], i, true;
        }
      }
      forall i | 0 <= i < |pending| && pending[i] != []
        ensures pending[i][0].Segment?
      {
        assert QueueOk(i);
      }
    }

    /** The worst running prover, or nothing. */
    method FindWorst() returns (worst: Segment, index: int)
      requires Valid()
      ensures worst.Empty? ==> forall j :: 0 <= j < |provers| ==> provers[j].paused
      ensures worst.Segment? ==> 0 <= index < |provers| && !provers[index].paused && provers[index].seg == worst
      ensures worst.Segment? ==>
                forall j :: 0 <= j < |provers| && !provers[j].paused ==>
                              var x := provers[j].seg;
                              x.Segment? && (x.length < worst.length || (x.length == worst.length && x.start <= worst.start))
      ensures forall j :: 0 <= j < |provers| && !provers[j].paused ==> !IsWorseThan(provers[j].seg, worst)
    {
      worst, index := Empty, 0;
      for i := 0 to |provers|
        invariant worst.Empty? ==> forall j :: 0 <= j < i ==> provers[j].paused
        invariant worst.Segment? ==> 0 <= index < i && !provers[index].paused && provers[index].seg == worst
        invariant forall j :: 0 <= j < i && !provers[j].paused ==> !IsWorseThan(provers[j].seg, worst)
      {
        if !provers[i].paused && (worst.Empty? || IsWorseThan(provers[i].seg, worst)) {
          worst, index := provers[i].seg, i;
        }
      }
    }

    method CountRunning() returns (active: nat)
      ensures active == Running(provers, |provers|)
    {
      active := 0;
      for i := 0 to |provers|
        invariant active == Running(provers, i)
      {
        if !provers[i].paused {
          active := active + 1;
        }
      }
    }

    /** Nothing better waits when the worst running prover is no worse than the best that waits. */
    lemma Settled(worst: Segment, best: Segment)
      requires Valid() && best.Segment? && !IsWorseThan(worst, best) && worst.Segment?
      requires forall w :: 0 <= w < |provers| && provers[w].paused ==> !IsWorseThan(best, provers[w].seg)
      requires forall i :: 0 <= i < |pending| && pending[i] != [] ==> !IsWorseThan(best, pending[i][0])
      requires forall j :: 0 <= j < |provers| && !provers[j].paused ==> !IsWorseThan(provers[j].seg, worst)
      ensures NoneBetterWaits()
    {
      forall i, a | 0 <= i < |pending| && 0 <= a < |pending[i]|
        ensures !IsWorseThan(best, pending[i][a])
      {
        assert QueueOk(i) && !IsWorseThan(best, pending[i][0]);
        assert a > 0 ==> !IsWorseThan(pending[i][0], pending[i][a]);
      }
    }

    /** Runs a waiting segment: resumes its prover, or starts one and takes it off the queue. */
    method Spawn(best: Segment, index: int, isNew: bool, ghost jobs0: seq<Job>, ghost pending0: seq<seq<Segment>>)
      requires Valid() && Waiting(provers, pending, best, index, isNew)
      modifies this`provers, this`pending
      ensures Valid()
      ensures forall x :: Rank(provers, pending, x) == Rank(old(provers), old(pending), x)
      ensures Running(provers, |provers|) == Running(old(provers), |old(provers)|) + 1
      ensures RankSum(provers, |provers|, jobs0, pending0)
           == RankSum(old(provers), |old(provers)|, jobs0, pending0) + Rank(jobs0, pending0, best)
    {
      if !isNew {
        FlipJob(provers, index, false, |provers|, jobs0, pending0);
        provers := provers[index := Job(provers[index].seg, false)];
      } else {
        StartPending(provers, pending, index, jobs0, pending0);
        assert QueueOk(index);
        provers := provers + [Job(best, false)];
        pending := pending[index := pending[index][1..]];
      }
      forall k | 0 <= k < |pending|
        ensures QueueOk(k)
      {
        assert old(QueueOk(k));
      }
    }

    method Pause(index: nat, ghost jobs0: seq<Job>, ghost pending0: seq<seq<Segment>>)
      requires Valid() && index < |provers| && !provers[index].paused
      modifies this`provers
      ensures Valid() && provers == old(provers)[index := Job(old(provers)[index].seg, true)]
      ensures forall x :: Rank(provers, pending, x) == Rank(old(provers), pending, x)
      ensures Running(provers, |provers|) + 1 == Running(old(provers), |old(provers)|)
      ensures RankSum(provers, |provers|, jobs0, pending0) + Rank(jobs0, pending0, old(provers)[index].seg)
           == RankSum(old(provers), |old(provers)|, jobs0, pending0)
    {
      FlipJob(provers, index, true, |provers|, jobs0, pending0);
      provers := provers[index := Job(provers[index].seg, true)];
      forall k | 0 <= k < |pending|
        ensures QueueOk(k)
      {
        assert old(QueueOk(k));
      }
    }

    /** Pauses the worst running prover if the best waiting segment is better. */
    method MakeRoom(best: Segment, index: int, isNew: bool, ghost jobs0: seq<Job>, ghost pending0: seq<seq<Segment>>)
      returns (freed: bool)
      requires Valid() && best.Segment? && Waiting(provers, pending, best, index, isNew)
      requires exists j :: 0 <= j < |provers| && !provers[j].paused
      requires forall w :: 0 <= w < |provers| && provers[w].paused ==> !IsWorseThan(best, provers[w].seg)
      requires forall i :: 0 <= i < |pending| && pending[i] != [] ==> !IsWorseThan(best, pending[i][0])
      requires forall x :: Rank(provers, pending, x) == Rank(jobs0, pending0, x)
      modifies this`provers
      ensures Valid() && Waiting(provers, pending, best, index, isNew)
      ensures forall x :: Rank(provers, pending, x) == Rank(old(provers), pending, x)
      ensures !freed ==> provers == old(provers) && NoneBetterWaits()
      ensures freed ==> Running(provers, |provers|) + 1 == Running(old(provers), |old(provers)|)
      ensures freed ==> (RankSum(provers, |provers|, jobs0, pending0) + Rank(jobs0, pending0, best)
                         < RankSum(old(provers), |old(provers)|, jobs0, pending0))
    {
      var worst, worstIndex := FindWorst();
      freed := IsWorseThan(worst, best);
      if freed {
        BetterRank(provers, pending, worst, best, index, isNew);
        RankSumHas(provers, worstIndex, |provers|, jobs0, pending0);
        Pause(worstIndex, jobs0, pending0);
      } else {
        Settled(worst, best);
      }
    }

    /** The scheduling pass. stopped(t) is what the t-th look at the stop flag sees; once
        set, the flag stays set. The pass ends, never has more than maxThreads provers
        running, loses no segment, and unless stopped leaves nothing waiting that is
        better than something running, nor a free thread while something waits. */
    method Schedule(stopped: nat -> bool) returns (ghost interrupted: bool)
      requires Valid() && Running(provers, |provers|) <= maxThreads
      requires forall s, t :: s <= t && stopped(s) ==> stopped(t)
      modifies this`provers, this`pending
      ensures Valid() && Running(provers, |provers|) <= maxThreads
      ensures forall x :: Rank(provers, pending, x) == Rank(old(provers), old(pending), x)
      ensures interrupted ==> exists t :: stopped(t)
      ensures !interrupted ==>
                forall j, w ::
                  0 <= j < |provers| && !provers[j].paused
                  && 0 <= w < |provers| && provers[w].paused ==>
                    var x, y := provers[j].seg, provers[w].seg;
                    x.Segment? && y.Segment? && (x.length < y.length || (x.length == y.length && x.start <= y.start))
      ensures !interrupted ==>
                forall j, i, a ::
                  0 <= j < |provers| && !provers[j].paused
                  && 0 <= i < |pending| && 0 <= a < |pending[i]| ==>
                    var x, y := provers[j].seg, pending[i][a];
                    x.Segment? && y.Segment? && (x.length < y.length || (x.length == y.length && x.start <= y.start))
      ensures !interrupted ==> NothingWaits() || Running(provers, |provers|) == maxThreads
    {
      var active := CountRunning();
      interrupted := FillThreads(active, stopped);
      if !interrupted {
        RunningComesFirst();
      }
    }

    /** Runs what waits, the best first, while a thread is free or a worse prover runs. */
    method FillThreads(running: nat, stopped: nat -> bool) returns (ghost interrupted: bool)
      requires Valid() && running == Running(provers, |provers|) <= maxThreads
      requires forall s, t :: s <= t && stopped(s) ==> stopped(t)
      modifies this`provers, this`pending
      ensures Valid() && Running(provers, |provers|) <= maxThreads
      ensures forall x :: Rank(provers, pending, x) == Rank(old(provers), old(pending), x)
      ensures interrupted ==> exists t :: stopped(t)
      ensures !interrupted ==> NoneBetterWaits()
      ensures !interrupted ==> NothingWaits() || Running(provers, |provers|) == maxThreads
    {
      ghost var jobs0, pending0 := provers, pending;
      interrupted := true;
      var active := running;
      var t := 0;
      while !stopped(t)
        invariant Valid() && Running(provers, |provers|) <= active <= maxThreads
        invariant active != Running(provers, |provers|) ==> stopped(t)
        invariant forall x :: Rank(provers, pending, x) == Rank(jobs0, pending0, x)
        decreases maxThreads - active, RankSum(provers, |provers|, jobs0, pending0)
      {
        t := t + 1;
        var best, index, isNew := FindBest();
        if best.Empty? {
          interrupted := false;
          break;
        }
        if active < maxThreads {
          active := active + 1;
        } else {
          SomeRunning(provers, |provers|);
          var freed := MakeRoom(best, index, isNew, jobs0, pending0);
          if !freed {
            interrupted := false;
            break;
          }
        }
        if !isNew {
          Spawn(best, index, isNew, jobs0, pending0);
        } else {
          t := t + 1;
          if !stopped(t - 1) {
            Spawn(best, index, isNew, jobs0, pending0);
          }
        }
      }
    }
  }

}
