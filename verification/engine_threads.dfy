/** The two threads of the squaring engine as a step system. They share their data without
    locks and synchronise only by two counters, each written by one thread; a fence waits
    for the other thread's counter. Memory is sequentially consistent. */
module EngineThreads {
  import opened Integers

  // ----- Counters -----

  /** A counter value: the iteration and the offset within it. */
  datatype Clock = Clock(iter: nat, offset: nat)

  /** Offsets of the phases, where n is the number of counter values of one gcd. */
  function P1(n: nat): nat { n + 1 }
  function P2(n: nat): nat { 2 * n + 2 }
  function P3(n: nat): nat { 2 * n + 3 }
  function P4(n: nat): nat { 2 * n + 4 }
  function End(n: nat): nat { 2 * n + 5 }

  /** The number that the counter holds. */
  function Count(c: Clock, n: nat): nat {
    ProductGrows(c.iter, End(n));
    c.iter * End(n) + c.offset
  }

  predicate Ge(c: Clock, d: Clock) {
    c.iter > d.iter || (c.iter == d.iter && c.offset >= d.offset)
  }

  /** Comparing counters is comparing iterations first and offsets second. */
  lemma GeIsNumeric(c: Clock, d: Clock, n: nat)
    requires c.offset < End(n) && d.offset < End(n)
    ensures Ge(c, d) <==> Count(c, n) >= Count(d, n)
  {
    Distribute(End(n), c.iter, d.iter);
    ProductGrows(End(n), c.iter - d.iter);
    ProductGrows(End(n), d.iter - c.iter);
  }

  // ----- Threads and memory -----

  /** Where a thread is: its iteration, its place in the program of one iteration, the
      gcd entry it is at, and its counter. */
  datatype Thread = Thread(iter: nat, at: nat, index: nat, clock: Clock)

  /** The entries that a gcd hands to the other thread: for which iteration, how many are
      complete, whether the next is being written, and the number of the last, once known. */
  datatype Stream = Stream(tag: int, done: nat, busy: bool, exit: int)

  const BUSY := -1

  /** Every shared field by the iteration it was computed for, or BUSY while it is written.
      The slot not in use is not tracked. */
  datatype Memory = Memory(start: int, numValid: nat, gcd1: int, stream1: Stream, c: int, v: int,
                           gcd2: int, stream2: Stream, ts: int, e: int)

  /** A failed thread takes no more steps. */
  datatype State = State(m: Thread, s: Thread, mem: Memory, mFailed: bool, sFailed: bool)

  // The master's places.
  const M_START0 := 0
  const M_FENCE0 := 1
  const M_GCD := 2
  const M_ENTRY := 3
  const M_PUBLISH := 4
  const M_GCD_DONE := 5
  const M_START1 := 6
  const M_FENCE1 := 7
  const M_WAIT := 8
  const M_READ := 9
  const M_START2 := 10
  const M_PRODUCT := 11
  const M_FENCE2 := 12
  const M_PHASE2 := 13
  const M_START3 := 14
  const M_FENCE3 := 15
  const M_PHASE3 := 16
  const M_START4 := 17
  const M_CHECK := 18
  const M_FENCE4 := 19
  const M_PHASE4 := 20
  const M_LISTENER := 21

  // The slave's places.
  const S_START0 := 0
  const S_FENCE0 := 1
  const S_SETUP := 2
  const S_WAIT := 3
  const S_READ := 4
  const S_START1 := 5
  const S_LOAD := 6
  const S_GCD := 7
  const S_ENTRY := 8
  const S_PUBLISH := 9
  const S_GCD_DONE := 10
  const S_START2 := 11
  const S_FENCE1 := 12
  const S_SQUARE := 13
  const S_FENCE2 := 14
  const S_PHASE2 := 15
  const S_START3 := 16
  const S_PHASE3 := 17
  const S_START4 := 18
  const S_PHASE4 := 19

  /** The counter value a thread waits for at its present place, if it is a fence. */
  function MasterTarget(m: Thread, n: nat): (r: (bool, Clock)) {
    if m.at == M_FENCE0 then (true, Clock(m.iter, 0))
    else if m.at == M_FENCE1 then (true, Clock(m.iter, P1(n)))
    else if m.at == M_WAIT then (true, Clock(m.iter, P1(n) + m.index + 1))
    else if m.at == M_FENCE2 then (true, Clock(m.iter, P2(n)))
    else if m.at == M_FENCE3 then (true, Clock(m.iter, P3(n)))
    else if m.at == M_FENCE4 then (true, Clock(m.iter, P4(n)))
    else (false, Clock(0, 0))
  }

  function SlaveTarget(s: Thread, n: nat): (r: (bool, Clock)) {
    if s.at == S_FENCE0 then (true, Clock(s.iter, 0))
    else if s.at == S_WAIT then (true, Clock(s.iter, s.index + 1))
    else if s.at == S_FENCE1 then (true, Clock(s.iter, P1(n)))
    else if s.at == S_FENCE2 then (true, Clock(s.iter, P2(n)))
    else (false, Clock(0, 0))
  }

  predicate MasterBlocked(m: Thread, s: Thread, n: nat) {
    var (waits, target) := MasterTarget(m, n);
    waits && !Ge(s.clock, target)
  }

  predicate SlaveBlocked(m: Thread, s: Thread, n: nat) {
    var (waits, target) := SlaveTarget(s, n);
    waits && !Ge(m.clock, target)
  }

  predicate Finished(t: Thread, iters: nat) {
    t.iter == iters
  }

  /** A step is possible unless the thread is through or waits. Without an exit entry among
      the n that there is room for, it can only fail. */
  predicate MasterReady(m: Thread, s: Thread, mem: Memory, n: nat, iters: nat) {
    && !Finished(m, iters) && !MasterBlocked(m, s, n)
    && (m.at == M_PUBLISH ==> mem.stream1.exit >= 0 || m.index + 1 < n)
  }

  predicate SlaveReady(m: Thread, s: Thread, mem: Memory, n: nat, iters: nat) {
    && !Finished(s, iters) && !SlaveBlocked(m, s, n)
    && (s.at == S_PUBLISH ==> mem.stream2.exit >= 0 || s.index + 1 < n)
  }

  function To(t: Thread, at: nat): Thread {
    t.(at := at)
  }

  function Advance(t: Thread, offset: nat, at: nat): Thread {
    t.(clock := Clock(t.iter, offset), at := at)
  }

  function Begin(tag: int): Stream {
    Stream(tag, 0, false, -1)
  }

  function Complete(s: Stream, last: bool): Stream {
    Stream(s.tag, s.done + 1, false, if last then s.done else -1)
  }

  /** One step of the master. last says whether the gcd entry being written is the last. */
  function MasterStep(m: Thread, mem: Memory, n: nat, last: bool): (Thread, Memory) {
    var k := m.iter;
    if m.at == M_START0 then (Advance(m, 0, M_FENCE0), mem)
    else if m.at == M_FENCE0 then
      (To(m, M_GCD).(index := 0), mem.(gcd1 := BUSY, stream1 := Begin(k)))
    else if m.at == M_GCD then (To(m, M_ENTRY), mem.(stream1 := mem.stream1.(busy := true)))
    else if m.at == M_ENTRY then (To(m, M_PUBLISH), mem.(stream1 := Complete(mem.stream1, last)))
    else if m.at == M_PUBLISH then
      if mem.stream1.exit >= 0 then (Advance(m, m.index, M_GCD_DONE), mem)
      else (Advance(m, m.index, M_GCD).(index := m.index + 1), mem)
    else if m.at == M_GCD_DONE then (Advance(m, n, M_START1), mem.(gcd1 := k))
    else if m.at == M_START1 then (Advance(m, P1(n), M_FENCE1), mem)
    else if m.at == M_FENCE1 then (To(m, M_WAIT).(index := 0), mem.(v := BUSY))
    else if m.at == M_WAIT then (To(m, M_READ), mem)
    else if m.at == M_READ then
      if mem.stream2.exit == m.index then (To(m, M_START2), mem.(v := k))
      else (To(m, M_WAIT).(index := m.index + 1), mem)
    else if m.at == M_START2 then (Advance(m, P2(n), M_PRODUCT), mem)
    else if m.at == M_START3 then (Advance(m, P3(n), M_FENCE3), mem)
    else if m.at == M_START4 then (Advance(m, P4(n), M_CHECK), mem)
    else if m.at == M_PHASE4 then
      (To(m, M_LISTENER), mem.(start := k + 1, numValid := mem.numValid + 1, c := BUSY))
    else if m.at == M_LISTENER then (To(m, M_START0).(iter := k + 1), mem)
    else (To(m, m.at + 1), mem)
  }

  function SlaveStep(s: Thread, mem: Memory, n: nat, last: bool): (Thread, Memory) {
    var k := s.iter;
    if s.at == S_START0 then (Advance(s, 0, S_FENCE0), mem)
    else if s.at == S_FENCE0 then (To(s, S_SETUP), mem.(c := BUSY))
    else if s.at == S_SETUP then (To(s, S_WAIT).(index := 0), mem.(c := k))
    else if s.at == S_WAIT then (To(s, S_READ), mem)
    else if s.at == S_READ then
      if mem.stream1.exit == s.index then (To(s, S_START1), mem)
      else (To(s, S_WAIT).(index := s.index + 1), mem)
    else if s.at == S_START1 then (Advance(s, P1(n), S_LOAD), mem)
    else if s.at == S_LOAD then
      (To(s, S_GCD).(index := 0), mem.(gcd2 := BUSY, stream2 := Begin(k)))
    else if s.at == S_GCD then (To(s, S_ENTRY), mem.(stream2 := mem.stream2.(busy := true)))
    else if s.at == S_ENTRY then (To(s, S_PUBLISH), mem.(stream2 := Complete(mem.stream2, last)))
    else if s.at == S_PUBLISH then
      if mem.stream2.exit >= 0 then (Advance(s, P1(n) + s.index, S_GCD_DONE), mem)
      else (Advance(s, P1(n) + s.index, S_GCD).(index := s.index + 1), mem)
    else if s.at == S_GCD_DONE then (Advance(s, P1(n) + n, S_START2), mem.(gcd2 := k))
    else if s.at == S_START2 then (Advance(s, P2(n), S_FENCE1), mem)
    else if s.at == S_FENCE1 then (To(s, S_SQUARE), mem.(ts := BUSY))
    else if s.at == S_PHASE2 then (To(s, S_START3), mem.(ts := k))
    else if s.at == S_START3 then (Advance(s, P3(n), S_PHASE3), mem.(e := BUSY))
    else if s.at == S_PHASE3 then (To(s, S_START4), mem.(e := k))
    else if s.at == S_START4 then (Advance(s, P4(n), S_PHASE4), mem)
    else if s.at == S_PHASE4 then (To(s, S_START0).(iter := k + 1), mem)
    else (To(s, s.at + 1), mem)
  }

  // ----- Runs -----

  datatype Action = Master(last: bool) | Slave(last: bool) | MasterFails | SlaveFails

  predicate Enabled(st: State, act: Action, n: nat, iters: nat) {
    match act
    case Master(_) => !st.mFailed && MasterReady(st.m, st.s, st.mem, n, iters)
    case Slave(_) => !st.sFailed && SlaveReady(st.m, st.s, st.mem, n, iters)
    case MasterFails => true
    case SlaveFails => true
  }

  /** A failure may come at any time: a fence that spins too long, a gcd that gives up, a
      check that does not hold, or the other thread's error flag. */
  function Apply(st: State, act: Action, n: nat): State {
    match act
    case Master(last) =>
      var (m, mem) := MasterStep(st.m, st.mem, n, last);
      st.(m := m, mem := mem)
    case Slave(last) =>
      var (s, mem) := SlaveStep(st.s, st.mem, n, last);
      st.(s := s, mem := mem)
    case MasterFails => st.(mFailed := true)
    case SlaveFails => st.(sFailed := true)
  }

  function Initial(): State {
    var t := Thread(0, 0, 0, Clock(0, 0));
    var empty := Stream(-1, 1, false, 0);
    State(t, t, Memory(0, 0, -1, empty, -1, -1, -1, empty, -1, -1), false, false)
  }

  /** Two threads after the given actions, each of which was possible. */
  ghost predicate Reaches(acts: seq<Action>, st: State, n: nat, iters: nat) {
    if acts == [] then st == Initial()
    else
      var k := |acts| - 1;
      exists before: State :: Reaches(acts[..k], before, n, iters) && Enabled(before, acts[k], n, iters)
                              && st == Apply(before, acts[k], n)
  }

  // ----- The invariant -----

  /** The offset of a thread's counter at each of its places. */
  function MasterOffset(m: Thread, n: nat): nat {
    if m.at <= M_FENCE0 then 0
    else if m.at <= M_PUBLISH then (if m.index == 0 then 0 else m.index - 1)
    else if m.at == M_GCD_DONE then m.index
    else if m.at == M_START1 then n
    else if m.at <= M_START2 then P1(n)
    else if m.at <= M_START3 then P2(n)
    else if m.at <= M_START4 then P3(n)
    else P4(n)
  }

  function SlaveOffset(s: Thread, n: nat): nat {
    if s.at <= S_START1 then 0
    else if s.at == S_LOAD then P1(n)
    else if s.at <= S_PUBLISH then P1(n) + (if s.index == 0 then 0 else s.index - 1)
    else if s.at == S_GCD_DONE then P1(n) + s.index
    else if s.at == S_START2 then P1(n) + n
    else if s.at <= S_START3 then P2(n)
    else if s.at <= S_START4 then P3(n)
    else P4(n)
  }

  /** A thread that has not begun an iteration still has the last counter of the one before. */
  function ClockAt(t: Thread, offset: nat, n: nat): Clock {
    if t.at == 0 then (if t.iter == 0 then Clock(0, 0) else Clock(t.iter - 1, P4(n))) else Clock(t.iter, offset)
  }

  predicate Indexed(at: nat, master: bool) {
    if master then M_GCD <= at <= M_GCD_DONE || M_WAIT <= at <= M_READ
    else S_WAIT <= at <= S_READ || S_GCD <= at <= S_GCD_DONE
  }

  predicate InPlace(m: Thread, s: Thread, n: nat, iters: nat) {
    && m.at <= M_LISTENER && s.at <= S_PHASE4
    && m.iter <= iters && s.iter <= iters
    && (m.iter == iters ==> m.at == 0) && (s.iter == iters ==> s.at == 0)
    && (Indexed(m.at, true) ==> m.index < n) && (Indexed(s.at, false) ==> s.index < n)
    && m.clock == ClockAt(m, MasterOffset(m, n), n)
    && s.clock == ClockAt(s, SlaveOffset(s, n), n)
  }

  /** What the fences that a thread has passed tell of the other's counter. */
  predicate MasterPassed(m: Thread, c: Clock, n: nat) {
    && (m.at <= M_FENCE0 && m.iter > 0 ==> Ge(c, Clock(m.iter - 1, P4(n))))
    && (m.at >= M_GCD ==> Ge(c, Clock(m.iter, 0)))
    && (m.at >= M_WAIT ==> Ge(c, Clock(m.iter, P1(n))))
    && (m.at == M_WAIT ==> Ge(c, Clock(m.iter, P1(n) + m.index)))
    && (m.at == M_READ ==> Ge(c, Clock(m.iter, P1(n) + m.index + 1)))
    && (m.at >= M_PHASE2 ==> Ge(c, Clock(m.iter, P2(n))))
    && (m.at >= M_PHASE3 ==> Ge(c, Clock(m.iter, P3(n))))
    && (m.at >= M_PHASE4 ==> Ge(c, Clock(m.iter, P4(n))))
  }

  predicate SlavePassed(s: Thread, c: Clock, n: nat) {
    && (s.at <= S_FENCE0 && s.iter > 0 ==> Ge(c, Clock(s.iter - 1, P2(n))))
    && (s.at >= S_SETUP ==> Ge(c, Clock(s.iter, 0)))
    && (s.at == S_WAIT ==> Ge(c, Clock(s.iter, s.index)))
    && (s.at == S_READ ==> Ge(c, Clock(s.iter, s.index + 1)))
    && (s.at >= S_SQUARE ==> Ge(c, Clock(s.iter, P1(n))))
    && (s.at >= S_PHASE2 ==> Ge(c, Clock(s.iter, P2(n))))
  }

  /** A field written by one thread between two of its places. */
  predicate Tagged(tag: int, t: Thread, from: nat, to: nat) {
    tag == if t.at < from then t.iter - 1 else if t.at <= to then BUSY else t.iter
  }

  /** The stream of a gcd as seen from its writer's place; the gcd runs from place `from`. */
  predicate StreamOk(r: Stream, t: Thread, from: nat, n: nat) {
    if t.at < from then
      r.tag == t.iter - 1 && !r.busy && 0 <= r.exit && r.done == r.exit + 1
    else if t.at <= from + 1 then
      r.tag == t.iter && r.busy == (t.at == from + 1) && r.exit == -1 && r.done == t.index
    else if t.at == from + 2 then
      r.tag == t.iter && !r.busy && (r.exit == -1 || r.exit == t.index) && r.done == t.index + 1
    else
      r.tag == t.iter && !r.busy && 0 <= r.exit < n && r.done == r.exit + 1
  }

  predicate MemoryOk(m: Thread, s: Thread, mem: Memory, n: nat) {
    && mem.start == mem.numValid == (if m.at == M_LISTENER then m.iter + 1 else m.iter)
    && Tagged(mem.gcd1, m, M_GCD, M_GCD_DONE)
    && Tagged(mem.v, m, M_WAIT, M_READ)
    && Tagged(mem.gcd2, s, S_GCD, S_GCD_DONE)
    && Tagged(mem.ts, s, S_SQUARE, S_PHASE2)
    && Tagged(mem.e, s, S_PHASE3, S_PHASE3)
    && StreamOk(mem.stream1, m, M_GCD, n)
    && StreamOk(mem.stream2, s, S_GCD, n)
  }

  /** The slave's c is good until the master's listener computes its own in its place. */
  predicate CoefficientOk(m: Thread, s: Thread, c: int) {
    && (s.at >= S_WAIT && m.at < M_LISTENER && m.iter <= s.iter ==> c == s.iter)
    && (s.at <= S_FENCE0 && m.at < M_LISTENER && m.iter < s.iter ==> c == s.iter - 1)
  }

  /** A reader has not gone past the last entry. */
  predicate ReadersOk(m: Thread, s: Thread, mem: Memory) {
    && (S_WAIT <= s.at <= S_READ && mem.stream1.tag == s.iter ==> mem.stream1.exit < 0 || mem.stream1.exit >= s.index)
    && (M_WAIT <= m.at <= M_READ && mem.stream2.tag == m.iter ==> mem.stream2.exit < 0 || mem.stream2.exit >= m.index)
  }

  predicate Inv(m: Thread, s: Thread, mem: Memory, n: nat, iters: nat) {
    && n >= 1
    && InPlace(m, s, n, iters) && MasterPassed(m, s.clock, n) && SlavePassed(s, m.clock, n)
    && MemoryOk(m, s, mem, n) && CoefficientOk(m, s, mem.c) && ReadersOk(m, s, mem)
  }

  lemma InitialInv(n: nat, iters: nat)
    requires n >= 1
    ensures var st := Initial(); Inv(st.m, st.s, st.mem, n, iters)
  {
  }

  // ----- The invariant is kept, place by place -----

  lemma MasterStepEnters(m: Thread, s: Thread, mem: Memory, n: nat, iters: nat, last: bool)
    requires Inv(m, s, mem, n, iters) && MasterReady(m, s, mem, n, iters) && 0 <= m.at <= 1
    ensures var (m', mem') := MasterStep(m, mem, n, last); Inv(m', s, mem', n, iters)
  {
  }

  lemma MasterStepWrites(m: Thread, s: Thread, mem: Memory, n: nat, iters: nat, last: bool)
    requires Inv(m, s, mem, n, iters) && MasterReady(m, s, mem, n, iters) && 2 <= m.at <= 3
    ensures var (m', mem') := MasterStep(m, mem, n, last); Inv(m', s, mem', n, iters)
  {
  }

  lemma MasterStepPublishes(m: Thread, s: Thread, mem: Memory, n: nat, iters: nat, last: bool)
    requires Inv(m, s, mem, n, iters) && MasterReady(m, s, mem, n, iters) && 4 <= m.at <= 5
    ensures var (m', mem') := MasterStep(m, mem, n, last); Inv(m', s, mem', n, iters)
  {
  }

  lemma MasterStepCrosses(m: Thread, s: Thread, mem: Memory, n: nat, iters: nat, last: bool)
    requires Inv(m, s, mem, n, iters) && MasterReady(m, s, mem, n, iters) && 6 <= m.at <= 7
    ensures var (m', mem') := MasterStep(m, mem, n, last); Inv(m', s, mem', n, iters)
  {
  }

  lemma MasterStepReads(m: Thread, s: Thread, mem: Memory, n: nat, iters: nat, last: bool)
    requires Inv(m, s, mem, n, iters) && MasterReady(m, s, mem, n, iters) && 8 <= m.at <= 9
    ensures var (m', mem') := MasterStep(m, mem, n, last); Inv(m', s, mem', n, iters)
  {
  }

  lemma MasterStepMultiplies(m: Thread, s: Thread, mem: Memory, n: nat, iters: nat, last: bool)
    requires Inv(m, s, mem, n, iters) && MasterReady(m, s, mem, n, iters) && 10 <= m.at <= 12
    ensures var (m', mem') := MasterStep(m, mem, n, last); Inv(m', s, mem', n, iters)
  {
  }

  lemma MasterStepCombines(m: Thread, s: Thread, mem: Memory, n: nat, iters: nat, last: bool)
    requires Inv(m, s, mem, n, iters) && MasterReady(m, s, mem, n, iters) && 13 <= m.at <= 15
    ensures var (m', mem') := MasterStep(m, mem, n, last); Inv(m', s, mem', n, iters)
  {
  }

  lemma MasterStepChecks(m: Thread, s: Thread, mem: Memory, n: nat, iters: nat, last: bool)
    requires Inv(m, s, mem, n, iters) && MasterReady(m, s, mem, n, iters) && 16 <= m.at <= 18
    ensures var (m', mem') := MasterStep(m, mem, n, last); Inv(m', s, mem', n, iters)
  {
  }

  lemma MasterStepFinishes(m: Thread, s: Thread, mem: Memory, n: nat, iters: nat, last: bool)
    requires Inv(m, s, mem, n, iters) && MasterReady(m, s, mem, n, iters) && 19 <= m.at <= 21
    ensures var (m', mem') := MasterStep(m, mem, n, last); Inv(m', s, mem', n, iters)
  {
  }

  lemma SlaveStepEnters(m: Thread, s: Thread, mem: Memory, n: nat, iters: nat, last: bool)
    requires Inv(m, s, mem, n, iters) && SlaveReady(m, s, mem, n, iters) && 0 <= s.at <= 1
    ensures var (s', mem') := SlaveStep(s, mem, n, last); Inv(m, s', mem', n, iters)
  {
  }

  lemma SlaveStepReads(m: Thread, s: Thread, mem: Memory, n: nat, iters: nat, last: bool)
    requires Inv(m, s, mem, n, iters) && SlaveReady(m, s, mem, n, iters) && 2 <= s.at <= 4
    ensures var (s', mem') := SlaveStep(s, mem, n, last); Inv(m, s', mem', n, iters)
  {
  }

  lemma SlaveStepLoads(m: Thread, s: Thread, mem: Memory, n: nat, iters: nat, last: bool)
    requires Inv(m, s, mem, n, iters) && SlaveReady(m, s, mem, n, iters) && 5 <= s.at <= 6
    ensures var (s', mem') := SlaveStep(s, mem, n, last); Inv(m, s', mem', n, iters)
  {
  }

  lemma SlaveStepWrites(m: Thread, s: Thread, mem: Memory, n: nat, iters: nat, last: bool)
    requires Inv(m, s, mem, n, iters) && SlaveReady(m, s, mem, n, iters) && 7 <= s.at <= 8
    ensures var (s', mem') := SlaveStep(s, mem, n, last); Inv(m, s', mem', n, iters)
  {
  }

  lemma SlaveStepPublishes(m: Thread, s: Thread, mem: Memory, n: nat, iters: nat, last: bool)
    requires Inv(m, s, mem, n, iters) && SlaveReady(m, s, mem, n, iters) && 9 <= s.at <= 10
    ensures var (s', mem') := SlaveStep(s, mem, n, last); Inv(m, s', mem', n, iters)
  {
  }

  lemma SlaveStepSquares(m: Thread, s: Thread, mem: Memory, n: nat, iters: nat, last: bool)
    requires Inv(m, s, mem, n, iters) && SlaveReady(m, s, mem, n, iters) && 11 <= s.at <= 13
    ensures var (s', mem') := SlaveStep(s, mem, n, last); Inv(m, s', mem', n, iters)
  {
  }

  lemma SlaveStepCombines(m: Thread, s: Thread, mem: Memory, n: nat, iters: nat, last: bool)
    requires Inv(m, s, mem, n, iters) && SlaveReady(m, s, mem, n, iters) && 14 <= s.at <= 15
    ensures var (s', mem') := SlaveStep(s, mem, n, last); Inv(m, s', mem', n, iters)
  {
  }

  lemma SlaveStepDivides(m: Thread, s: Thread, mem: Memory, n: nat, iters: nat, last: bool)
    requires Inv(m, s, mem, n, iters) && SlaveReady(m, s, mem, n, iters) && 16 <= s.at <= 17
    ensures var (s', mem') := SlaveStep(s, mem, n, last); Inv(m, s', mem', n, iters)
  {
  }

  lemma SlaveStepFinishes(m: Thread, s: Thread, mem: Memory, n: nat, iters: nat, last: bool)
    requires Inv(m, s, mem, n, iters) && SlaveReady(m, s, mem, n, iters) && 18 <= s.at <= 19
    ensures var (s', mem') := SlaveStep(s, mem, n, last); Inv(m, s', mem', n, iters)
  {
  }

  lemma MasterKeepsInv(m: Thread, s: Thread, mem: Memory, n: nat, iters: nat, last: bool)
    requires Inv(m, s, mem, n, iters) && MasterReady(m, s, mem, n, iters)
    ensures var (m', mem') := MasterStep(m, mem, n, last); Inv(m', s, mem', n, iters)
  {
    if m.at <= 1 {
      MasterStepEnters(m, s, mem, n, iters, last);
    } else if m.at <= 3 {
      MasterStepWrites(m, s, mem, n, iters, last);
    } else if m.at <= 5 {
      MasterStepPublishes(m, s, mem, n, iters, last);
    } else if m.at <= 7 {
      MasterStepCrosses(m, s, mem, n, iters, last);
    } else if m.at <= 9 {
      MasterStepReads(m, s, mem, n, iters, last);
    } else if m.at <= 12 {
      MasterStepMultiplies(m, s, mem, n, iters, last);
    } else if m.at <= 15 {
      MasterStepCombines(m, s, mem, n, iters, last);
    } else if m.at <= 18 {
      MasterStepChecks(m, s, mem, n, iters, last);
    } else {
      MasterStepFinishes(m, s, mem, n, iters, last);
    }
  }

  lemma SlaveKeepsInv(m: Thread, s: Thread, mem: Memory, n: nat, iters: nat, last: bool)
    requires Inv(m, s, mem, n, iters) && SlaveReady(m, s, mem, n, iters)
    ensures var (s', mem') := SlaveStep(s, mem, n, last); Inv(m, s', mem', n, iters)
  {
    if s.at <= 1 {
      SlaveStepEnters(m, s, mem, n, iters, last);
    } else if s.at <= 4 {
      SlaveStepReads(m, s, mem, n, iters, last);
    } else if s.at <= 6 {
      SlaveStepLoads(m, s, mem, n, iters, last);
    } else if s.at <= 8 {
      SlaveStepWrites(m, s, mem, n, iters, last);
    } else if s.at <= 10 {
      SlaveStepPublishes(m, s, mem, n, iters, last);
    } else if s.at <= 13 {
      SlaveStepSquares(m, s, mem, n, iters, last);
    } else if s.at <= 15 {
      SlaveStepCombines(m, s, mem, n, iters, last);
    } else if s.at <= 17 {
      SlaveStepDivides(m, s, mem, n, iters, last);
    } else {
      SlaveStepFinishes(m, s, mem, n, iters, last);
    }
  }

  ghost predicate StateInv(st: State, n: nat, iters: nat) {
    Inv(st.m, st.s, st.mem, n, iters)
  }

  lemma ActionKeepsInv(st: State, act: Action, t: State, n: nat, iters: nat)
    requires StateInv(st, n, iters) && Enabled(st, act, n, iters) && t == Apply(st, act, n)
    ensures StateInv(t, n, iters)
  {
    match act {
      case Master(last) => MasterKeepsInv(st.m, st.s, st.mem, n, iters, last);
      case Slave(last) => SlaveKeepsInv(st.m, st.s, st.mem, n, iters, last);
      case MasterFails =>
      case SlaveFails =>
    }
  }

  /** The invariant holds after every interleaving. */
  lemma {:induction false} ReachableInv(acts: seq<Action>, st: State, n: nat, iters: nat)
    requires n >= 1 && Reaches(acts, st, n, iters)
    ensures StateInv(st, n, iters)
  {
    if acts == [] {
      InitialInv(n, iters);
    } else {
      var k := |acts| - 1;
      var before: State :| Reaches(acts[..k], before, n, iters) && Enabled(before, acts[k], n, iters)
                           && st == Apply(before, acts[k], n);
      ReachableInv(acts[..k], before, n, iters);
      ActionKeepsInv(before, acts[k], st, n, iters);
    }
  }

  // ----- Race freedom -----

  /** The shared data: the current and the other slot, the two gcds with their entries, the
      results of the phases, and the flag that records corruption. */
  datatype Field = Start | Other | Gcd1 | Entry1(i: nat) | Scratch | C | U | V | Gcd2 | Entry2(i: nat) | Ts | E
                 | Corruption

  predicate MasterWrites(m: Thread, f: Field) {
    match f
    case Start => m.at == M_PHASE4
    case Other => m.at == M_PHASE3 || m.at == M_PHASE4
    case Gcd1 => M_GCD <= m.at <= M_GCD_DONE
    case Entry1(i) => m.at == M_ENTRY && i == m.index
    case Scratch => m.at == M_LISTENER
    case C => m.at == M_LISTENER
    case V => M_WAIT <= m.at <= M_READ
    case Corruption => m.at == M_CHECK
    case _ => false
  }

  predicate MasterReads(m: Thread, f: Field) {
    match f
    case Start => m.at == M_GCD || m.at == M_PHASE2 || m.at == M_LISTENER
    case Gcd1 => m.at == M_CHECK
    case C => m.at == M_PRODUCT
    case V => m.at == M_PRODUCT || m.at == M_PHASE2
    case Gcd2 => m.at == M_PHASE2
    case Entry2(i) => m.at == M_READ && i == m.index
    case Ts => m.at == M_PHASE3 || m.at == M_CHECK
    case E => m.at == M_PHASE4
    case Corruption => m.at == M_LISTENER
    case _ => false
  }

  predicate SlaveWrites(s: Thread, f: Field) {
    match f
    case Scratch => s.at == S_SETUP
    case C => s.at == S_SETUP
    case U => S_SETUP <= s.at <= S_READ
    case Gcd2 => S_LOAD <= s.at <= S_GCD_DONE
    case Entry2(i) => s.at == S_ENTRY && i == s.index
    case Ts => S_SQUARE <= s.at <= S_PHASE2
    case E => s.at == S_PHASE3
    case Corruption => s.at == S_SETUP
    case _ => false
  }

  predicate SlaveReads(s: Thread, f: Field) {
    match f
    case Start => S_SETUP <= s.at <= S_READ || s.at == S_LOAD || s.at == S_PHASE3
    case Entry1(i) => s.at == S_READ && i == s.index
    case C => s.at == S_READ
    case U => s.at == S_LOAD
    case V => s.at == S_PHASE2 || s.at == S_PHASE3
    case Gcd2 => s.at == S_SQUARE || s.at == S_PHASE3
    case _ => false
  }

  /** One thread may be writing a field while the other accesses it. */
  predicate Races(m: Thread, s: Thread, f: Field) {
    || (MasterWrites(m, f) && (SlaveReads(s, f) || SlaveWrites(s, f)))
    || (SlaveWrites(s, f) && MasterReads(m, f))
  }

  lemma InvHasNoRace(m: Thread, s: Thread, mem: Memory, n: nat, iters: nat, f: Field)
    requires Inv(m, s, mem, n, iters)
    ensures !Races(m, s, f)
  {
  }

  /** In no interleaving does one thread access a field that the other may be writing. */
  lemma NoRace(acts: seq<Action>, st: State, n: nat, iters: nat, f: Field)
    requires n >= 1 && Reaches(acts, st, n, iters)
    ensures !Races(st.m, st.s, f)
  {
    ReachableInv(acts, st, n, iters);
    InvHasNoRace(st.m, st.s, st.mem, n, iters, f);
  }

  // ----- Data flow -----

  /** Whatever the master reads was computed for its iteration. */
  predicate MasterReadsCurrent(m: Thread, mem: Memory) {
    && (m.at == M_GCD || m.at == M_PHASE2 ==> mem.start == m.iter)
    && (m.at == M_READ ==> mem.stream2.tag == m.iter && m.index < mem.stream2.done)
    && (m.at == M_PRODUCT ==> mem.c == m.iter && mem.v == m.iter)
    && (m.at == M_PHASE2 ==> mem.gcd2 == m.iter && mem.v == m.iter)
    && (m.at == M_PHASE3 ==> mem.ts == m.iter)
    && (m.at == M_CHECK ==> mem.gcd1 == m.iter && mem.ts == m.iter)
    && (m.at == M_PHASE4 ==> mem.e == m.iter)
    && (m.at == M_LISTENER ==> mem.start == m.iter + 1)
  }

  predicate SlaveReadsCurrent(s: Thread, mem: Memory) {
    && (S_SETUP <= s.at <= S_LOAD || s.at == S_PHASE3 ==> mem.start == s.iter)
    && (s.at == S_READ ==> mem.stream1.tag == s.iter && s.index < mem.stream1.done && mem.c == s.iter)
    && (s.at == S_SQUARE ==> mem.gcd2 == s.iter)
    && (s.at == S_PHASE2 ==> mem.v == s.iter)
    && (s.at == S_PHASE3 ==> mem.gcd2 == s.iter && mem.v == s.iter)
  }

  lemma InvReadsCurrent(m: Thread, s: Thread, mem: Memory, n: nat, iters: nat)
    requires Inv(m, s, mem, n, iters)
    ensures MasterReadsCurrent(m, mem) && SlaveReadsCurrent(s, mem)
  {
  }

  /** In every interleaving each phase works on values of its own iteration, and the current
      slot holds the result of exactly numValid of them, whenever the threads stop. */
  lemma DataFlow(acts: seq<Action>, st: State, n: nat, iters: nat)
    requires n >= 1 && Reaches(acts, st, n, iters)
    ensures MasterReadsCurrent(st.m, st.mem) && SlaveReadsCurrent(st.s, st.mem)
    ensures st.mem.start == st.mem.numValid <= iters
  {
    ReachableInv(acts, st, n, iters);
    InvReadsCurrent(st.m, st.s, st.mem, n, iters);
  }

  // ----- Progress -----

  /** A thread has written as many gcd entries as there is room for, without an end. */
  predicate OutOfRoom(m: Thread, s: Thread, mem: Memory, n: nat) {
    || (m.at == M_PUBLISH && mem.stream1.exit < 0 && m.index + 1 == n)
    || (s.at == S_PUBLISH && mem.stream2.exit < 0 && s.index + 1 == n)
  }

  lemma InvIsNotStuck(m: Thread, s: Thread, mem: Memory, n: nat, iters: nat)
    requires Inv(m, s, mem, n, iters)
    ensures !(MasterBlocked(m, s, n) && SlaveBlocked(m, s, n))
    ensures Finished(s, iters) ==> !MasterBlocked(m, s, n)
    ensures Finished(m, iters) ==> !SlaveBlocked(m, s, n)
  {
  }

  /** The two threads never both wait, nor one for a thread that is through: without a
      failure one of them can go on until both are. */
  lemma NoDeadlock(acts: seq<Action>, st: State, n: nat, iters: nat)
    requires n >= 1 && Reaches(acts, st, n, iters) && !st.mFailed && !st.sFailed
    ensures !(MasterBlocked(st.m, st.s, n) && SlaveBlocked(st.m, st.s, n))
    ensures Enabled(st, Master(true), n, iters) || Enabled(st, Slave(true), n, iters)
            || OutOfRoom(st.m, st.s, st.mem, n) || (Finished(st.m, iters) && Finished(st.s, iters))
  {
    ReachableInv(acts, st, n, iters);
    InvIsNotStuck(st.m, st.s, st.mem, n, iters);
  }

}
