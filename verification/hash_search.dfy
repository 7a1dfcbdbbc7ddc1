/** Searching for primes and generators by hashing a counter: the searches that report
    the round they ended in, and the fast ones that jump to that round. */
module HashSearch {
  import opened Integers
  import opened Words
  import opened Forms
  import opened Reduction
  import opened Congruences
  import opened Primes
  import opened Wrappers

  /** The hash function and the primality test, of which only the digest size is known. */
  datatype Oracle = Oracle(hash: seq<Byte> -> seq<Byte>, prime: nat -> bool) {
    ghost predicate Valid() {
      forall s :: |hash(s)| == 32
    }
  }

  // ----- The counter -----

  function BytesToInt(s: seq<Byte>): nat {
    if s == [] then 0 else BytesToInt(s[..|s| - 1]) * 256 + s[|s| - 1]
  }

  lemma AppendedByte(p: seq<Byte>, b: Byte)
    ensures BytesToInt(p + [b]) == BytesToInt(p) * 256 + b
  {
    assert (p + [b])[..|p|] == p;
  }

  function Wrapped(b: Byte): Byte {
    if b == 255 then 0 else b + 1
  }

  /** Bytes are incremented from the last one back. A proper counter stops at the first
      byte that does not wrap to zero; the generator search stops at the first that does. */
  function Next(s: seq<Byte>, stopAtZero: bool): (r: seq<Byte>)
    ensures |r| == |s|
  {
    if s == [] then []
    else
      var n := |s| - 1;
      var last := Wrapped(s[n]);
      if (last == 0) == stopAtZero then s[..n] + [last] else Next(s[..n], stopAtZero) + [last]
  }

  lemma BytesBelow(s: seq<Byte>)
    ensures BytesToInt(s) < Pow256(|s|)
  {
    if s != [] {
      BytesBelow(s[..|s| - 1]);
    }
  }

  /** The proper counter counts, modulo its size. */
  lemma {:induction false} NextCounts(s: seq<Byte>)
    ensures BytesToInt(Next(s, false)) == (BytesToInt(s) + 1) % Pow256(|s|)
  {
    if s != [] {
      var n := |s| - 1;
      var p, last := s[..n], Wrapped(s[n]);
      NextCounts(p);
      BytesBelow(p);
      if last == 0 {
        assert (Next(p, false) + [last])[..n] == Next(p, false);
        Carry(BytesToInt(p), Pow256(n));
      } else {
        assert (p + [last])[..n] == p;
        SmallRemainder(BytesToInt(p) * 256 + last, 256 * Pow256(n));
      }
    }
  }

  lemma Carry(n: nat, m: nat)
    requires n < m
    ensures (n + 1) % m * 256 == (n * 256 + 256) % (256 * m)
  {
    if n + 1 < m {
      SmallRemainder(n + 1, m);
      SmallRemainder(n * 256 + 256, 256 * m);
    } else {
      Quotient(1, m);
      Quotient(1, 256 * m);
    }
  }

  lemma SmallRemainder(n: nat, m: nat)
    requires n < m
    ensures n % m == n
  {
    assert n == n / m * m + n % m;
    SmallMultiple(m, n / m);
  }

  /** The generator search's increment does not count. */
  lemma InvertedIncrementExample()
    ensures Next([0, 0], true) == [1, 1] && BytesToInt(Next([0, 0], true)) != BytesToInt([0, 0]) + 1
  {
    assert [0, 0][..1] == [0];
    assert [0][..0] == [];
    assert [1, 1][..1] == [1];
    assert [1][..0] == [];
  }

  lemma NextStep(s: seq<Byte>, i: nat, stopAtZero: bool, tail: seq<Byte>)
    requires i < |s|
    ensures var last := Wrapped(s[i]);
            Next(s[..i + 1], stopAtZero) + tail
            == (if (last == 0) == stopAtZero then s[..i] else Next(s[..i], stopAtZero)) + ([last] + tail)
  {
    assert s[..i + 1][..i] == s[..i];
  }

  method IncrementAt(sprout: array<Byte>, i: nat, ghost start: seq<Byte>, ghost tail: seq<Byte>) returns (last: Byte)
    requires i < sprout.Length == |start| && sprout[..i + 1] == start[..i + 1] && sprout[i + 1..] == tail
    modifies sprout
    ensures last == Wrapped(start[i]) && sprout[..i] == start[..i] && sprout[i..] == [last] + tail
  {
    assert sprout[i] == sprout[..i + 1][i] && start[..i] == start[..i + 1][..i] == sprout[..i];
    sprout[i] := Wrapped(sprout[i]);
    last := sprout[i];
    assert sprout[i..] == [last] + sprout[i + 1..];
  }

  method Increment(sprout: array<Byte>, stopAtZero: bool)
    modifies sprout
    ensures sprout[..] == Next(old(sprout[..]), stopAtZero)
  {
    ghost var start, tail := sprout[..], [];
    var i: nat := sprout.Length;
    assert start[..i] == start && start + tail == start;
    while i > 0
      invariant i <= sprout.Length && sprout[..i] == start[..i] && sprout[i..] == tail
      invariant Next(start, stopAtZero) == Next(start[..i], stopAtZero) + tail
    {
      i := i - 1;
      NextStep(start, i, stopAtZero, tail);
      var last := IncrementAt(sprout, i, start, tail);
      tail := [last] + tail;
      if (last == 0) == stopAtZero {
        assert sprout[..] == sprout[..i] + sprout[i..];
        return;
      }
    }
    assert sprout[..] == tail && start[..0] == [];
  }

  // ----- One round -----

  /** Hashes are appended until the blob has the given number of bytes. */
  function Expansion(o: Oracle, sprout: seq<Byte>, stopAtZero: bool, blob: seq<Byte>, bytes: nat)
    : (r: (seq<Byte>, seq<Byte>))
    requires forall s :: |o.hash(s)| == 32
    ensures |r.1| == |sprout|
    decreases bytes - |blob|
  {
    if |blob| >= bytes then (blob, sprout)
    else
      var s := Next(sprout, stopAtZero);
      var h := o.hash(s);
      Expansion(o, s, stopAtZero, blob + h[..if bytes - |blob| < 32 then bytes - |blob| else 32], bytes)
  }

  /** A round of 32 bytes is one hash, of the next counter. */
  lemma OneHash(o: Oracle, sprout: seq<Byte>, stopAtZero: bool)
    requires o.Valid()
    ensures var s := Next(sprout, stopAtZero);
            Expansion(o, sprout, stopAtZero, [], 32) == (o.hash(s), s)
  {
    var h := o.hash(Next(sprout, stopAtZero));
    assert [] + h[..32] == h;
  }

  /** A round of 33 bytes is the hash of the next counter and the first byte of the hash of the
      one after. */
  lemma TwoHashes(o: Oracle, sprout: seq<Byte>, stopAtZero: bool)
    requires o.Valid()
    ensures var s := Next(sprout, stopAtZero);
            var s' := Next(s, stopAtZero);
            Expansion(o, sprout, stopAtZero, [], 33) == (o.hash(s) + o.hash(s')[..1], s')
  {
    var h := o.hash(Next(sprout, stopAtZero));
    assert [] + h[..32] == h;
  }

  /** The counter after n rounds. */
  function SproutAfter(o: Oracle, seed: seq<Byte>, stopAtZero: bool, bytes: nat, n: nat): (r: seq<Byte>)
    requires forall s :: |o.hash(s)| == 32
    ensures |r| == |seed|
  {
    if n == 0 then seed else Expansion(o, SproutAfter(o, seed, stopAtZero, bytes, n - 1), stopAtZero, [], bytes).1
  }

  predicate BitAt(v: nat, b: nat) {
    if b == 0 then v % 2 == 1 else BitAt(v / 2, b - 1)
  }

  function SetBit(v: nat, b: nat): nat {
    if BitAt(v, b) then v else v + Pow2(b)
  }

  /** A bit is the parity of what is left above it. */
  lemma {:induction false} BitIsParity(v: nat, b: nat)
    ensures BitAt(v, b) <==> v / Pow2(b) % 2 == 1
  {
    if b > 0 {
      BitIsParity(v / 2, b - 1);
      HalfFirst(v, Pow2(b - 1));
    }
  }

  lemma HalfFirst(v: nat, p: nat)
    requires p > 0
    ensures v / (2 * p) == v / 2 / p
  {
    var h := v / 2;
    assert h == h / p * p + h % p;
    assert v == 2 * h + v % 2;
    QuotientIs(v, 2 * p, h / p, 2 * (h % p) + v % 2);
  }

  /** The top bit of a number of b + 1 bits. */
  lemma {:induction false} TopBitAt(v: nat, b: nat)
    requires v < Pow2(b + 1)
    ensures BitAt(v, b) <==> v >= Pow2(b)
  {
    if b > 0 {
      TopBitAt(v / 2, b - 1);
    }
  }

  function SetBits(v: nat, bits: seq<nat>): nat
    decreases |bits|
  {
    if bits == [] then v else SetBits(SetBit(v, bits[0]), bits[1..])
  }

  /** The number tested in round n, counted from one. */
  function Candidate(o: Oracle, seed: seq<Byte>, stopAtZero: bool, bytes: nat, bits: seq<nat>, n: nat): nat
    requires n >= 1 && forall s :: |o.hash(s)| == 32
  {
    SetBits(BytesToInt(Expansion(o, SproutAfter(o, seed, stopAtZero, bytes, n - 1), stopAtZero, [], bytes).0), bits)
  }

  method Round(o: Oracle, sprout: array<Byte>, stopAtZero: bool, bytes: nat, bits: seq<nat>) returns (p: nat)
    requires o.Valid()
    modifies sprout
    ensures var r := Expansion(o, old(sprout[..]), stopAtZero, [], bytes);
            sprout[..] == r.1 && p == SetBits(BytesToInt(r.0), bits)
  {
    var blob: seq<Byte> := [];
    while |blob| < bytes
      invariant Expansion(o, old(sprout[..]), stopAtZero, [], bytes)
             == Expansion(o, sprout[..], stopAtZero, blob, bytes)
      decreases bytes - |blob|
    {
      Increment(sprout, stopAtZero);
      var h := o.hash(sprout[..]);
      blob := blob + h[..if bytes - |blob| < 32 then bytes - |blob| else 32];
    }
    p := BytesToInt(blob);
    var i := 0;
    while i < |bits|
      invariant 0 <= i <= |bits|
      invariant SetBits(BytesToInt(blob), bits) == SetBits(p, bits[i..])
    {
      assert bits[i..][1..] == bits[i + 1..];
      p := SetBit(p, bits[i]);
      i := i + 1;
    }
  }

  method Copy(s: seq<Byte>) returns (a: array<Byte>)
    ensures fresh(a) && a[..] == s
  {
    a := new Byte[|s|](i requires 0 <= i < |s| => s[i]);
  }

  // ----- Searching for a prime -----

  /** The candidates of the prime search: the given bits set, and odd. */
  function PrimeCandidate(o: Oracle, seed: seq<Byte>, length: nat, bitmask: seq<nat>, n: nat): nat
    requires n >= 1 && forall s :: |o.hash(s)| == 32
  {
    Candidate(o, seed, false, length / 8, bitmask + [0], n)
  }

  /** n is the first round from lo on whose candidate is prime. */
  ghost predicate FirstPrime(o: Oracle, seed: seq<Byte>, length: nat, bitmask: seq<nat>, lo: int, n: nat) {
    && o.Valid() && n >= 1 && n >= lo
    && o.prime(PrimeCandidate(o, seed, length, bitmask, n))
    && forall m :: 1 <= m < n && m >= lo ==> !o.prime(PrimeCandidate(o, seed, length, bitmask, m))
  }

  /** Searches from round skip on; with skip at most 1 this is the full search. Rounds
      before skip are hashed but not tested. The bound is a round where a prime turns up. */
  method HashPrimeFrom(o: Oracle, seed: seq<Byte>, length: nat, bitmask: seq<nat>, skip: int, ghost bound: nat)
    returns (p: nat, iteration: nat)
    requires o.Valid() && length % 8 == 0
    requires bound >= 1 && bound >= skip && o.prime(PrimeCandidate(o, seed, length, bitmask, bound))
    ensures FirstPrime(o, seed, length, bitmask, skip, iteration)
    ensures p == PrimeCandidate(o, seed, length, bitmask, iteration)
  {
    var sprout := Copy(seed);
    iteration := 0;
    while true
      invariant iteration <= bound && (iteration == bound ==> bound < skip)
      invariant fresh(sprout) && sprout[..] == SproutAfter(o, seed, false, length / 8, iteration)
      invariant forall m :: 1 <= m <= iteration && m >= skip ==> !o.prime(PrimeCandidate(o, seed, length, bitmask, m))
      decreases bound - iteration
    {
      p := Round(o, sprout, false, length / 8, bitmask + [0]);
      iteration := iteration + 1;
      assert p == PrimeCandidate(o, seed, length, bitmask, iteration);
      if iteration < skip {
        continue;
      }
      if o.prime(p) {
        return;
      }
    }
  }

  method HashPrimeWithIteration(o: Oracle, seed: seq<Byte>, length: nat, bitmask: seq<nat>, ghost bound: nat)
    returns (p: nat, iteration: nat)
    requires o.Valid() && length % 8 == 0 && bound >= 1 && o.prime(PrimeCandidate(o, seed, length, bitmask, bound))
    ensures FirstPrime(o, seed, length, bitmask, 1, iteration)
    ensures p == PrimeCandidate(o, seed, length, bitmask, iteration)
  {
    p, iteration := HashPrimeFrom(o, seed, length, bitmask, 0, bound);
  }

  method HashPrimeFast(o: Oracle, seed: seq<Byte>, length: nat, bitmask: seq<nat>, skip: int, ghost bound: nat)
    returns (p: nat)
    requires o.Valid() && length % 8 == 0
    requires bound >= 1 && bound >= skip && o.prime(PrimeCandidate(o, seed, length, bitmask, bound))
    ensures exists n: nat :: FirstPrime(o, seed, length, bitmask, skip, n) && p == PrimeCandidate(o, seed, length, bitmask, n)
  {
    var n;
    p, n := HashPrimeFrom(o, seed, length, bitmask, skip, bound);
  }

  /** Jumping to the recorded round finds the same prime. */
  lemma RecordedRound(o: Oracle, seed: seq<Byte>, length: nat, bitmask: seq<nat>, iteration: nat, n: nat)
    requires FirstPrime(o, seed, length, bitmask, 1, iteration) && FirstPrime(o, seed, length, bitmask, iteration, n)
    ensures n == iteration
  {
  }

  // ----- Searching for a generator -----

  /** The test on a prime candidate: D is a square modulo a. */
  predicate IsResidue(a: nat, D: int)
    requires a >= 3
  {
    FastPowMod(D % a, (a - 1) / 2, a) == 1
  }

  function OddRoot(a: nat, D: int): int
    requires a >= 3
  {
    var b := FastPowMod(D % a, (a + 1) / 4, a);
    if b % 2 == 0 then a - b else b
  }

  /** For a = 3 (mod 4) the residue test makes the computed b an odd square root of D,
      and so (a, b) the start of a form of discriminant D. */
  lemma RootGivesForm(a: nat, D: int)
    requires a % 4 == 3 && D % 4 == 1 && IsResidue(a, D)
    ensures var b := OddRoot(a, D); 0 < b < a && b % 2 == 1 && (b * b - D) % (4 * a) == 0 && Divides(a, b * b - D)
  {
    var b0 := FastPowMod(D % a, (a + 1) / 4, a);
    RootSquares(a, D, b0);
    RootIsNotZero(a, D, b0);
    FormFromRoot(a, D, b0);
  }

  lemma RootIsNotZero(a: nat, D: int, b0: nat)
    requires a >= 3 && IsResidue(a, D) && Divides(a, b0 * b0 - D)
    ensures b0 != 0
  {
    if b0 == 0 {
      DividesCombination(a, b0 * b0 - D, 0, -1, 0);
      var q :| D == q * a;
      QuotientIs(D, a, q, 0);
      assert IntPow(0, (a - 1) / 2) == 0;
      CongruentInRange(a, 0, 1);
    }
  }

  lemma PowerOfSquare(b: int, n: nat)
    ensures IntPow(b * b, n) == IntPow(b, n + n)
  {
    if n > 0 {
      PowerOfSquare(b, n - 1);
      Reassociate(b, b, IntPow(b, n - 1 + (n - 1)));
    }
  }

  ghost predicate IsRoot(a: nat, D: int, b: int) {
    Divides(a, b * b - D)
  }

  /** On a prime the test accepts exactly the discriminants that it does not divide and that
      are squares modulo it. */
  lemma ResidueTest(a: nat, D: int)
    requires Prime(a) && a % 4 == 3
    ensures IsResidue(a, D) <==> !Divides(a, D) && exists b: int :: IsRoot(a, D, b)
  {
    if IsResidue(a, D) {
      RootGivesResidue(a, D);
    } else if !Divides(a, D) {
      forall b: int | IsRoot(a, D, b)
        ensures false
      {
        SquarePasses(a, D, b);
      }
    }
  }

  lemma RootGivesResidue(a: nat, D: int)
    requires a % 4 == 3 && IsResidue(a, D)
    ensures !Divides(a, D) && exists b: int :: IsRoot(a, D, b)
  {
    var b0 := FastPowMod(D % a, (a + 1) / 4, a);
    RootSquares(a, D, b0);
    assert IsRoot(a, D, b0);
    if Divides(a, D) {
      Negated(a, D);
      RootIsNotZero(a, D, 0);
    }
  }

  lemma Negated(a: nat, D: int)
    requires Divides(a, D)
    ensures Divides(a, 0 * 0 - D)
  {
    DividesCombination(a, D, D, -1, 0);
  }

  lemma SquarePasses(a: nat, D: int, b: int)
    requires Prime(a) && a % 4 == 3 && !Divides(a, D) && IsRoot(a, D, b)
    ensures IsResidue(a, D)
  {
    ResidueOfSquare(a, D, b);
    PowerPasses(a, D % a, b, (a - 1) / 2);
  }

  lemma PowerPasses(a: nat, k: int, b: int, h: nat)
    requires Prime(a) && a == 2 * h + 1 && !Divides(a, b) && Congruent(a, k, b * b)
    ensures FastPowMod(k, h, a) == 1
  {
    PowerIsOne(a, k, b, h);
    ResidueIsOne(a, IntPow(k, h), FastPowMod(k, h, a));
  }

  lemma ResidueOfSquare(a: nat, D: int, b: int)
    requires a > 0 && !Divides(a, D) && IsRoot(a, D, b)
    ensures !Divides(a, b) && Congruent(a, D % a, b * b)
  {
    if Divides(a, b) {
      DividesCombination(a, b, b * b - D, b, -1);
    }
    assert D - D % a == D / a * a;
    DividesCombination(a, b * b - D, D - D % a, -1, -1);
  }

  lemma ResidueIsOne(a: nat, n: int, r: nat)
    requires a > 1 && Congruent(a, n, 1) && Divides(a, n - r) && r < a
    ensures r == 1
  {
    CongruentSym(a, n, r);
    CongruentTrans(a, r, n, 1);
    CongruentInRange(a, r, 1);
  }

  lemma PowerIsOne(a: nat, k: int, b: int, h: nat)
    requires Prime(a) && h + h == a - 1 && !Divides(a, b) && Congruent(a, k, b * b)
    ensures Congruent(a, IntPow(k, h), 1)
  {
    CongruentPower(a, k, b * b, h);
    PowerOfSquare(b, h);
    FermatUnit(a, b);
    CongruentTrans(a, IntPow(k, h), IntPow(b, a - 1), 1);
  }

  /** On a prime there is one such root. */
  lemma OddRootIsUnique(a: nat, D: int, b: nat)
    requires Prime(a) && a % 4 == 3 && D % 4 == 1 && IsResidue(a, D)
    requires 0 < b < a && b % 2 == 1 && IsRoot(a, D, b)
    ensures b == OddRoot(a, D)
  {
    var c := OddRoot(a, D);
    OddRootInRange(a, D, c);
    SameRoot(a, D, b, c);
  }

  lemma OddRootInRange(a: nat, D: int, b: int)
    requires a % 4 == 3 && D % 4 == 1 && IsResidue(a, D) && b == OddRoot(a, D)
    ensures 0 < b < a && b % 2 == 1 && IsRoot(a, D, b)
  {
    RootGivesForm(a, D);
  }

  lemma SameRoot(a: nat, D: int, b: nat, c: nat)
    requires Prime(a) && a % 4 == 3 && 0 < b < a && 0 < c < a && b % 2 == 1 && c % 2 == 1
    requires IsRoot(a, D, b) && IsRoot(a, D, c)
    ensures b == c
  {
    TwoRoots(a, D, b, c);
    if Divides(a, b - c) {
      CongruentInRange(a, b, c);
    } else {
      DividesSmall(a, b + c);
    }
  }

  lemma TwoRoots(a: nat, D: int, b: nat, c: nat)
    requires Prime(a) && Divides(a, b * b - D) && Divides(a, c * c - D)
    ensures Divides(a, b - c) || Divides(a, b + c)
  {
    DividesCombination(a, b * b - D, c * c - D, 1, -1);
    DifferenceOfSquares(b, c);
    PrimeDividesFactor(a, b + c, b - c);
  }

  lemma DividesSmall(a: int, n: int)
    requires Divides(a, n) && 0 < n < 2 * a
    ensures n == a
  {
    var q :| n == q * a;
    ProductGrows(a, -q);
    ProductGrows(a, q - 2);
    Distribute(a, q, 2);
  }

  lemma FormFromRoot(a: nat, D: int, b0: int)
    requires a % 4 == 3 && D % 4 == 1 && Divides(a, b0 * b0 - D)
    ensures var b := if b0 % 2 == 0 then a - b0 else b0;
            b % 2 == 1 && (b * b - D) % (4 * a) == 0 && Divides(a, b * b - D)
  {
    if b0 % 2 == 0 {
      OtherRoot(a, b0, D);
      OddMinusEven(a, b0);
      OddRootDivides(a, D, a - b0);
    } else {
      OddRootDivides(a, D, b0);
    }
  }

  lemma OddMinusEven(a: int, b: int)
    requires a % 4 == 3 && b % 2 == 0
    ensures (a - b) % 2 == 1
  {
    assert a == 4 * (a / 4) + 3 && b == 2 * (b / 2);
    QuotientIs(a - b, 2, 2 * (a / 4) + 1 - b / 2, 1);
  }

  lemma OddRootDivides(a: nat, D: int, b: int)
    requires a % 4 == 3 && D % 4 == 1 && b % 2 == 1 && Divides(a, b * b - D)
    ensures (b * b - D) % (4 * a) == 0
  {
    OddSquare(b);
    FourTimes(a, b * b - D);
  }

  lemma RootSquares(a: nat, D: int, b0: nat)
    requires a % 4 == 3 && IsResidue(a, D) && b0 == FastPowMod(D % a, (a + 1) / 4, a)
    ensures Divides(a, b0 * b0 - D)
  {
    var k, e := D % a, (a + 1) / 4;
    HalfExponent(k, e, (a - 1) / 2);
    SquareOfRoot(a, k, IntPow(k, e), IntPow(k, (a - 1) / 2), b0);
    SameResidue(a, D, b0 * b0);
  }

  lemma SameResidue(a: nat, D: int, n: int)
    requires a > 0 && Divides(a, n - D % a)
    ensures Divides(a, n - D)
  {
    var k := D % a;
    assert D - k == D / a * a;
    DividesCombination(a, n - k, D - k, 1, -1);
  }

  lemma HalfExponent(k: int, e: nat, h: nat)
    requires e + e == 1 + h
    ensures IntPow(k, e) * IntPow(k, e) == k * IntPow(k, h)
  {
    IntPowAdd(k, e, e);
  }

  lemma SquareOfRoot(a: nat, k: int, x: int, h: int, b: int)
    requires x * x == k * h && Divides(a, x - b) && Divides(a, h - 1)
    ensures Divides(a, b * b - k)
  {
    DividesCombination(a, h - 1, x - b, k, -(x + b));
    DifferenceOfSquares(x, b);
    Distribute(k, h, 1);
  }

  lemma DifferenceOfSquares(x: int, b: int)
    ensures (x + b) * (x - b) == x * x - b * b && -(x + b) * (x - b) == b * b - x * x
  {
  }

  lemma OtherRoot(a: nat, b: int, D: int)
    requires Divides(a, b * b - D)
    ensures Divides(a, (a - b) * (a - b) - D)
  {
    DividesBy(a, a - 2 * b);
    DividesCombination(a, b * b - D, (a - 2 * b) * a, 1, 1);
    SquareOfDifference(a, b);
  }

  lemma SquareOfDifference(a: int, b: int)
    ensures (a - b) * (a - b) == b * b + (a - 2 * b) * a
  {
    Distribute(a - b, a, b);
    Distribute(a, a, b);
    Distribute(b, a, b);
    Distribute(a, a, 2 * b);
  }

  lemma OddSquare(b: int)
    requires b % 2 == 1
    ensures b * b % 4 == 1
  {
    var h := b / 2;
    assert b == 2 * h + 1;
    assert b * b == 4 * (h * h + h) + 1;
  }

  lemma FourTimes(a: nat, n: int)
    requires a % 4 == 3 && Divides(a, n) && n % 4 == 0
    ensures n % (4 * a) == 0
  {
    var q :| n == q * a;
    var m := a / 4;
    assert a == 4 * m + 3;
    Distribute(q, 4 * m, 3);
    Swap4(q, m);
    assert 3 * q % 4 == 0;
    assert q == q / 4 * 4;
    Reassociate(q / 4, 4, a);
    Quotient(q / 4, 4 * a);
  }

  lemma Swap4(q: int, m: int)
    ensures q * (4 * m) == 4 * (q * m)
  {
  }

  /** The candidates of the generator search end in two set bits. */
  function GeneratorCandidate(o: Oracle, seed: seq<Byte>, n: nat): nat
    requires n >= 1 && forall s :: |o.hash(s)| == 32
  {
    Candidate(o, seed, true, 32, [0, 1], n)
  }

  lemma CandidateEndsInThree(v: nat)
    ensures SetBits(v, [0, 1]) % 4 == 3
  {
    var bits: seq<nat> := [0, 1];
    assert bits[1..] == [1] && bits[1..][1..] == [];
    var w := SetBit(v, 0);
    assert SetBits(w, bits[1..]) == SetBits(SetBit(w, 1), []);
    TwoLowBits(v);
  }

  lemma TwoLowBits(v: nat)
    ensures SetBit(SetBit(v, 0), 1) % 4 == 3
  {
    var w := SetBit(v, 0);
    assert w == (if v % 2 == 1 then v else v + 1);
    assert BitAt(w, 1) <==> w / 2 % 2 == 1;
    assert SetBit(w, 1) == (if w / 2 % 2 == 1 then w else w + 2);
  }

  lemma GeneratorEndsInThree(o: Oracle, seed: seq<Byte>, n: nat)
    requires n >= 1 && o.Valid()
    ensures GeneratorCandidate(o, seed, n) % 4 == 3
  {
    CandidateEndsInThree(BytesToInt(Expansion(o, SproutAfter(o, seed, true, 32, n - 1), true, [], 32).0));
  }

  /** A candidate is the hash of the next counter with its two low bits set. */
  lemma GeneratorBytes(o: Oracle, seed: seq<Byte>, n: nat)
    requires n >= 1 && o.Valid()
    ensures var t := Next(SproutAfter(o, seed, true, 32, n - 1), true);
            && SproutAfter(o, seed, true, 32, n) == t
            && GeneratorCandidate(o, seed, n) == SetBit(SetBit(BytesToInt(o.hash(t)), 0), 1)
  {
    OneHash(o, SproutAfter(o, seed, true, 32, n - 1), true);
    LowBits(BytesToInt(o.hash(SproutAfter(o, seed, true, 32, n))));
  }

  lemma LowBits(v: nat)
    ensures SetBits(v, [0, 1]) == SetBit(SetBit(v, 0), 1)
  {
    var bits: seq<nat> := [0, 1];
    assert bits[1..] == [1] && bits[1..][1..] == [];
    assert SetBits(SetBit(v, 0), bits[1..]) == SetBits(SetBit(SetBit(v, 0), 1), []);
  }

  ghost predicate IsGeneratorRound(o: Oracle, seed: seq<Byte>, D: int, n: nat) {
    && o.Valid() && n >= 1
    && var a := GeneratorCandidate(o, seed, n);
    a >= 3 && o.prime(a) && IsResidue(a, D)
  }

  /** The canonical form of discriminant D with leading coefficients (a, b). */
  ghost predicate IsFormOf(g: Form, a: int, b: int, D: int) {
    exists f: Form :: f.a == a && f.b == b && Disc(f) == D && PositiveDefinite(f) && g == Canon(f)
  }

  method GeneratorFrom(a: nat, D: int) returns (g: FormCell)
    requires a % 4 == 3 && D % 4 == 1 && D < 0 && IsResidue(a, D)
    ensures IsFormOf(g.V(), a, OddRoot(a, D), D)
  {
    RootGivesForm(a, D);
    var res := FromAbd(a, OddRoot(a, D), D);
    g := res.value;
  }

  /** Hashes a challenge into the class group of D and reports the round. */
  method HashToGroup(o: Oracle, seed: seq<Byte>, D: int, ghost bound: nat) returns (g: FormCell, iteration: nat)
    requires o.Valid() && D < 0 && D % 4 == 1 && IsGeneratorRound(o, seed, D, bound)
    ensures IsGeneratorRound(o, seed, D, iteration)
    ensures forall m :: 1 <= m < iteration ==> !IsGeneratorRound(o, seed, D, m)
    ensures var a := GeneratorCandidate(o, seed, iteration); IsFormOf(g.V(), a, OddRoot(a, D), D)
  {
    var a;
    a, iteration := SearchGenerator(o, seed, D, bound);
    GeneratorEndsInThree(o, seed, iteration);
    g := GeneratorFrom(a, D);
  }

  method SearchGenerator(o: Oracle, seed: seq<Byte>, D: int, ghost bound: nat) returns (a: nat, iteration: nat)
    requires o.Valid() && IsGeneratorRound(o, seed, D, bound) && D % 4 == 1
    ensures IsGeneratorRound(o, seed, D, iteration) && a == GeneratorCandidate(o, seed, iteration)
    ensures forall m :: 1 <= m < iteration ==> !IsGeneratorRound(o, seed, D, m)
  {
    var sprout := Copy(seed);
    iteration := 0;
    while true
      invariant iteration < bound
      invariant fresh(sprout) && sprout[..] == SproutAfter(o, seed, true, 32, iteration)
      invariant forall m :: 1 <= m <= iteration ==> !IsGeneratorRound(o, seed, D, m)
      decreases bound - iteration
    {
      a := GeneratorRound(o, sprout, seed, iteration + 1);
      iteration := iteration + 1;
      var hit := TestGenerator(o, seed, D, iteration, a);
      if hit {
        return;
      }
    }
  }

  method GeneratorRound(o: Oracle, sprout: array<Byte>, ghost seed: seq<Byte>, ghost n: nat) returns (a: nat)
    requires o.Valid() && n >= 1 && sprout[..] == SproutAfter(o, seed, true, 32, n - 1)
    modifies sprout
    ensures sprout[..] == SproutAfter(o, seed, true, 32, n) && a == GeneratorCandidate(o, seed, n)
  {
    a := Round(o, sprout, true, 32, [0, 1]);
  }

  /** The tests on a candidate: first for a prime, then for a residue. */
  method TestGenerator(o: Oracle, seed: seq<Byte>, D: int, ghost n: nat, a: nat) returns (hit: bool)
    requires o.Valid() && n >= 1 && a == GeneratorCandidate(o, seed, n)
    ensures hit <==> IsGeneratorRound(o, seed, D, n)
    ensures hit ==> a % 4 == 3 && IsResidue(a, D)
  {
    GeneratorEndsInThree(o, seed, n);
    hit := o.prime(a) && IsResidue(a, D);
  }

  /** A recorded round on which the fast search ends. */
  ghost predicate Searchable(o: Oracle, seed: seq<Byte>, D: int, round: int) {
    && o.Valid() && round >= 1
    && (o.prime(GeneratorCandidate(o, seed, round)) ==> IsGeneratorRound(o, seed, D, round))
  }

  /** The test of the recorded round: the form over its candidate, the identity when that is
      not prime, and nothing when it is no residue. */
  method TestRecorded(o: Oracle, seed: seq<Byte>, D: int, ghost n: nat, a: nat) returns (g: Option<FormCell>)
    requires o.Valid() && D < 0 && D % 4 == 1 && n >= 1 && a == GeneratorCandidate(o, seed, n)
    ensures g.Some? <==> Searchable(o, seed, D, n)
    ensures g.Some? ==> if o.prime(a) then IsFormOf(g.value.V(), a, OddRoot(a, D), D) else IsFormOf(g.value.V(), 1, 1, D)
  {
    GeneratorEndsInThree(o, seed, n);
    if o.prime(a) {
      if IsResidue(a, D) {
        var cell := GeneratorFrom(a, D);
        return Some(cell);
      }
      return None;
    }
    var id := FromAbd(1, 1, D);
    return Some(id.value);
  }

  /** The same for a recorded round: only that round is tested. When it is prime but fails
      the residue test the search goes on without end; here it is given up, without a result,
      after any number of rounds. */
  method HashToGroupFast(o: Oracle, seed: seq<Byte>, D: int, recorded: int, limit: nat) returns (g: Option<FormCell>)
    requires o.Valid() && D < 0 && D % 4 == 1
    ensures g.Some? <==> recorded <= limit && Searchable(o, seed, D, recorded)
    ensures g.Some? ==> var a := GeneratorCandidate(o, seed, recorded);
                        if o.prime(a) then IsFormOf(g.value.V(), a, OddRoot(a, D), D) else IsFormOf(g.value.V(), 1, 1, D)
  {
    var sprout := Copy(seed);
    var iteration := 0;
    while iteration < limit
      invariant 0 <= iteration <= limit
      invariant 1 <= recorded <= iteration ==> !Searchable(o, seed, D, recorded)
      invariant fresh(sprout) && sprout[..] == SproutAfter(o, seed, true, 32, iteration)
    {
      var a := GeneratorRound(o, sprout, seed, iteration + 1);
      iteration := iteration + 1;
      if iteration == recorded {
        g := TestRecorded(o, seed, D, recorded, a);
        if g.Some? {
          return;
        }
      }
    }
    g := None;
  }

  /** A form is determined by its leading coefficients and discriminant. */
  lemma FormIsUnique(g: Form, h: Form, a: int, b: int, D: int)
    requires IsFormOf(g, a, b, D) && IsFormOf(h, a, b, D) && a > 0
    ensures g == h
  {
    var f: Form :| f.a == a && f.b == b && Disc(f) == D && PositiveDefinite(f) && g == Canon(f);
    var f': Form :| f'.a == a && f'.b == b && Disc(f') == D && PositiveDefinite(f') && h == Canon(f');
    SameC(f, f');
  }

}
