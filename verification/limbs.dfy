/** Sign-magnitude arithmetic on arrays of limbs, least significant first, in place. */
module Limbs {
  import opened Integers

  ghost predicate AreLimbs(base: nat, s: seq<nat>) {
    forall i :: 0 <= i < |s| ==> s[i] < base
  }

  /** A limb, with zeros beyond the end. */
  function At(s: seq<nat>, i: nat): nat {
    if i < |s| then s[i] else 0
  }

  function Place(base: nat, n: nat): (p: nat)
    ensures base >= 1 ==> p >= 1
  {
    if n == 0 then 1 else
    var p := Place(base, n - 1);
    ProductGrows(p, base);
    p * base
  }

  /** The number that the first n limbs stand for. */
  function Magnitude(base: nat, s: seq<nat>, n: nat): nat {
    if n == 0 then 0 else
    ProductGrows(At(s, n - 1), Place(base, n - 1));
    Magnitude(base, s, n - 1) + At(s, n - 1) * Place(base, n - 1)
  }

  function Value(base: nat, s: seq<nat>, negative: bool): int {
    var m: int := Magnitude(base, s, |s|);
    if negative then -m else m
  }

  lemma {:induction false} MagnitudeBelow(base: nat, s: seq<nat>, n: nat)
    requires base >= 1 && AreLimbs(base, s)
    ensures Magnitude(base, s, n) < Place(base, n)
  {
    if n > 0 {
      MagnitudeBelow(base, s, n - 1);
      var p := Place(base, n - 1);
      ProductGrows(p, base - 1 - At(s, n - 1));
      Distribute(p, base - 1, At(s, n - 1));
      Distribute(p, base, 1);
    }
  }

  lemma {:induction false} MagnitudeSame(base: nat, s: seq<nat>, t: seq<nat>, n: nat)
    requires forall i :: 0 <= i < n ==> At(s, i) == At(t, i)
    ensures Magnitude(base, s, n) == Magnitude(base, t, n)
  {
    if n > 0 {
      MagnitudeSame(base, s, t, n - 1);
    }
  }

  lemma {:induction false} MagnitudePadded(base: nat, s: seq<nat>, n: nat)
    requires n >= |s|
    ensures Magnitude(base, s, n) == Magnitude(base, s, |s|)
  {
    if n > |s| {
      MagnitudePadded(base, s, n - 1);
    }
  }

  lemma TwoLimbs(base: nat, x: nat, y: nat)
    ensures Magnitude(base, [x], 1) == x && Magnitude(base, [x, y], 2) == x + y * base
  {
    var s := [x, y];
    assert Place(base, 0) == 1 && Place(base, 1) == base;
    assert Magnitude(base, s, 1) == x;
  }

  lemma EqualDigits(p: nat, u: nat, v: nat, m: nat, n: nat)
    requires m < p && n < p && m + u * p == n + v * p
    ensures m == n && u == v
  {
    Distribute(p, u, v);
    SmallMultiple(p, u - v);
  }

  /** Limbs of one length that stand for the same number are the same. */
  lemma {:induction false} MagnitudeInjective(base: nat, s: seq<nat>, t: seq<nat>, n: nat)
    requires base >= 1 && AreLimbs(base, s) && AreLimbs(base, t) && Magnitude(base, s, n) == Magnitude(base, t, n)
    ensures forall i: nat :: i < n ==> At(s, i) == At(t, i)
  {
    if n > 0 {
      MagnitudeBelow(base, s, n - 1);
      MagnitudeBelow(base, t, n - 1);
      EqualDigits(Place(base, n - 1), At(s, n - 1), At(t, n - 1), Magnitude(base, s, n - 1), Magnitude(base, t, n - 1));
      MagnitudeInjective(base, s, t, n - 1);
    }
  }

  /** Addition of two limbs and a carry. */
  method AddCarry(base: nat, a: nat, b: nat, carryIn: nat) returns (r: nat, carryOut: nat)
    requires a < base && b < base && carryIn <= 1
    ensures r < base && carryOut <= 1 && r + carryOut * base == a + b + carryIn
  {
    r := a + b + carryIn;
    carryOut := 0;
    if r >= base {
      r, carryOut := r - base, 1;
    }
  }

  /** One more limb of a running sum. */
  lemma OneLimb(base: nat, p: nat, sum: int, total: int, r: nat, carry: nat, carry': nat, x: int, y: int)
    requires sum + carry * p == total && r + carry' * base == x + y + carry
    ensures sum + r * p + carry' * (p * base) == total + x * p + y * p
  {
    Distribute(p, r, carry' * base);
    Distribute(p, x + y, carry);
    Distribute(p, x, y);
    assert p * (carry' * base) == carry' * (p * base);
  }

  // ----- Addition -----

  /** What the first pass leaves: the sum of the magnitudes, or their difference in
      complement form, with the carry. */
  ghost predicate Passed(base: nat, x: nat, res: seq<nat>, carry: nat, a: seq<nat>, b: seq<nat>, opposite: bool) {
    Magnitude(base, res, x) + carry * Place(base, x)
    == Magnitude(base, a, x) + if opposite then Place(base, x) - Magnitude(base, b, x) else Magnitude(base, b, x)
  }

  lemma PassLimb(base: nat, x: nat, res: seq<nat>, carry: nat, carry': nat, a: seq<nat>, b: seq<nat>, opposite: bool)
    requires base >= 1 && Passed(base, x, res, carry, a, b, opposite)
    requires At(res, x) + carry' * base == At(a, x) + (if opposite then base - 1 - At(b, x) else At(b, x)) + carry
    ensures Passed(base, x + 1, res, carry', a, b, opposite)
  {
    var p := Place(base, x);
    var y := if opposite then base - 1 - At(b, x) else At(b, x);
    OneLimb(base, p, Magnitude(base, res, x), Magnitude(base, res, x) + carry * p, At(res, x), carry, carry', At(a, x), y);
    if opposite {
      Distribute(p, base - 1, At(b, x));
      Distribute(p, base, 1);
    }
  }

  /** Adds or subtracts b's limbs to a's, into res, which may be a or b. */
  method FirstPass(base: nat, a: array<nat>, b: array<nat>, res: array<nat>, opposite: bool) returns (carry: nat)
    requires base >= 2 && AreLimbs(base, a[..]) && AreLimbs(base, b[..])
    requires res.Length >= a.Length && res.Length >= b.Length
    modifies res
    ensures AreLimbs(base, res[..]) && carry <= 1
    ensures Passed(base, res.Length, res[..], carry, old(a[..]), old(b[..]), opposite)
  {
    ghost var a0, b0 := a[..], b[..];
    carry := if opposite then 1 else 0;
    for x := 0 to res.Length
      invariant carry <= 1
      invariant forall i :: 0 <= i < x ==> res[i] < base
      invariant forall i :: x <= i < a.Length ==> a[i] == a0[i]
      invariant forall i :: x <= i < b.Length ==> b[i] == b0[i]
      invariant Passed(base, x, res[..x], carry, a0, b0, opposite)
    {
      var va := if x < a.Length then a[x] else 0;
      var vb := if x < b.Length then b[x] else 0;
      ghost var carry0, before := carry, res[..x];
      var r;
      r, carry := AddCarry(base, va, if opposite then base - 1 - vb else vb, carry);
      res[x] := r;
      assert res[..x + 1] == before + [r];
      MagnitudeSame(base, before, before + [r], x);
      PassLimb(base, x, before + [r], carry0, carry, a0, b0, opposite);
    }
    assert res[..res.Length] == res[..];
  }

  /** Replaces the limbs by their complement, which negates modulo the width. */
  method Negate(base: nat, res: array<nat>)
    requires base >= 2 && AreLimbs(base, res[..])
    modifies res
    ensures AreLimbs(base, res[..])
    ensures Magnitude(base, old(res[..]), res.Length) > 0 ==>
              Magnitude(base, res[..], res.Length) == Place(base, res.Length) - Magnitude(base, old(res[..]), res.Length)
  {
    ghost var r0 := res[..];
    var carry := 0;
    ghost var zero: seq<nat> := [];
    for x := 0 to res.Length
      invariant carry <= 1
      invariant forall i :: 0 <= i < x ==> res[i] < base
      invariant forall i :: x <= i < res.Length ==> res[i] == r0[i]
      invariant x == 0 ==> carry == 0
      invariant x > 0 ==> Passed(base, x, res[..x], carry, zero, r0, true)
    {
      ghost var carry0, before := carry, res[..x];
      var r;
      r, carry := AddCarry(base, base - 1 - res[x], if x == 0 then 1 else 0, carry);
      res[x] := r;
      assert res[..x + 1] == before + [r];
      MagnitudeSame(base, before, before + [r], x);
      ghost var c0 := if x == 0 then 1 else carry0;
      assert Passed(base, x, before + [r], c0, zero, r0, true);
      PassLimb(base, x, before + [r], c0, carry, zero, r0, true);
    }
    assert res[..res.Length] == res[..];
    MagnitudePadded(base, zero, res.Length);
    MagnitudeBelow(base, res[..], res.Length);
    MagnitudeBelow(base, r0, res.Length);
    if res.Length > 0 {
      CarryOfDifference(Magnitude(base, res[..], res.Length), Place(base, res.Length), Magnitude(base, r0, res.Length), carry);
    }
  }

  lemma CarryOfDifference(m: nat, p: nat, d: nat, carry: nat)
    requires m < p && carry <= 1 && m + carry * p == p - d
    ensures d > 0 ==> carry == 0 && m == p - d
  {
    if carry == 1 {
      assert carry * p == p;
    }
  }

  /** Which operand looks larger from its two top limbs. */
  predicate LooksLess(a: seq<nat>, b: seq<nat>)
    requires |a| == |b| >= 1
  {
    var n := |a|;
    if a[n - 1] == b[n - 1] && n >= 2 then a[n - 2] < b[n - 2] else a[n - 1] < b[n - 1]
  }

  /** r is the sum of a and b: exactly for opposite signs, and for equal signs up to a
      carry out of the width of r. */
  ghost predicate IsSum(base: nat, r: seq<nat>, negR: bool, a: seq<nat>, negA: bool, b: seq<nat>, negB: bool) {
    if negA != negB then
      Value(base, r, negR) == Value(base, a, negA) + Value(base, b, negB)
    else
      negR == negA &&
      (|| Magnitude(base, r, |r|) == Magnitude(base, a, |a|) + Magnitude(base, b, |b|)
       || Magnitude(base, r, |r|) + Place(base, |r|) == Magnitude(base, a, |a|) + Magnitude(base, b, |b|))
  }

  /** With a limb to spare there is no carry out. */
  lemma SumIsExact(base: nat, r: seq<nat>, negR: bool, a: seq<nat>, negA: bool, b: seq<nat>, negB: bool)
    requires base >= 2 && AreLimbs(base, a) && AreLimbs(base, b) && |r| > |a| && |r| > |b|
    requires IsSum(base, r, negR, a, negA, b, negB)
    ensures Value(base, r, negR) == Value(base, a, negA) + Value(base, b, negB)
  {
    var n := |r| - 1;
    MagnitudePadded(base, a, n);
    MagnitudePadded(base, b, n);
    MagnitudeBelow(base, a, n);
    MagnitudeBelow(base, b, n);
    ProductGrows(Place(base, n), base - 2);
    Distribute(Place(base, n), base, 2);
  }

  /** What the carry of the first pass tells. */
  lemma WhichOrder(m: nat, p: nat, mx: nat, my: nat, carry: nat)
    requires m < p && mx < p && my < p && carry <= 1
    ensures m + carry * p == mx + (p - my) ==> if carry == 1 then m == mx - my else m > 0 && m == p - (my - mx)
    ensures carry * p == if carry == 1 then p else 0
  {
  }

  /** The sum by one pass, and a second one when the difference was taken in the wrong
      order. Which operand is larger makes no difference to the result. */
  method AddInOrder(base: nat, x: array<nat>, negX: bool, y: array<nat>, negY: bool, res: array<nat>)
    returns (negRes: bool)
    requires base >= 2 && AreLimbs(base, x[..]) && AreLimbs(base, y[..])
    requires res.Length >= x.Length && res.Length >= y.Length
    modifies res
    ensures AreLimbs(base, res[..])
    ensures IsSum(base, res[..], negRes, old(x[..]), negX, old(y[..]), negY)
  {
    ghost var x0, y0 := x[..], y[..];
    var opposite := negX != negY;
    var carry := FirstPass(base, x, y, res, opposite);
    negRes := negX;
    ghost var r0 := res[..];
    if carry == 0 && opposite {
      Negate(base, res);
      negRes := !negRes;
    }
    PassesGiveSum(base, x0, negX, y0, negY, r0, carry, res[..], negRes);
  }

  lemma PassesGiveSum(base: nat, x: seq<nat>, negX: bool, y: seq<nat>, negY: bool, r0: seq<nat>, carry: nat,
                      r: seq<nat>, negR: bool)
    requires base >= 2 && AreLimbs(base, x) && AreLimbs(base, y) && AreLimbs(base, r0) && carry <= 1
    requires |r| == |r0| >= |x| && |r0| >= |y|
    requires Passed(base, |r0|, r0, carry, x, y, negX != negY)
    requires if carry == 0 && negX != negY
             then negR == !negX && (Magnitude(base, r0, |r|) > 0 ==>
                                      Magnitude(base, r, |r|) == Place(base, |r|) - Magnitude(base, r0, |r|))
             else r == r0 && negR == negX
    ensures IsSum(base, r, negR, x, negX, y, negY)
  {
    var n := |r|;
    MagnitudePadded(base, x, n);
    MagnitudePadded(base, y, n);
    MagnitudeBelow(base, x, n);
    MagnitudeBelow(base, y, n);
    MagnitudeBelow(base, r0, n);
    WhichOrder(Magnitude(base, r0, n), Place(base, n), Magnitude(base, x, n), Magnitude(base, y, n), carry);
  }

  /** res := a + b, where res may be the same array as a or b. */
  method Add(base: nat, a: array<nat>, negA: bool, b: array<nat>, negB: bool, res: array<nat>) returns (negRes: bool)
    requires base >= 2 && AreLimbs(base, a[..]) && AreLimbs(base, b[..])
    requires a.Length >= 1 && b.Length >= 1 && res.Length >= a.Length && res.Length >= b.Length
    modifies res
    ensures AreLimbs(base, res[..])
    ensures IsSum(base, res[..], negRes, old(a[..]), negA, old(b[..]), negB)
  {
    var x, y, negX, negY := a, b, negA, negB;
    if b.Length > a.Length {
      x, y, negX, negY := b, a, negB, negA;
    }
    if x.Length == y.Length && LooksLess(x[..], y[..]) {
      x, y, negX, negY := y, x, negY, negX;
    }
    negRes := AddInOrder(base, x, negX, y, negY, res);
  }

  // ----- Multiplication by a limb -----

  /** The running product and sum, with the parts still to be carried. */
  ghost predicate MadState(base: nat, x: nat, res: seq<nat>, high: nat, carryMul: nat, carryAdd: nat, a: seq<nat>, b: nat,
                           c: seq<nat>)
  {
    Magnitude(base, res, x) + (high + carryMul + carryAdd) * Place(base, x)
    == Magnitude(base, a, x) * b + Magnitude(base, c, x)
  }

  lemma MadLimb(base: nat, p: int, sum: int, carried: nat, carried': nat, am: int, x: nat, b: nat, cm: int, y: nat, r: nat)
    requires sum + carried * p == am * b + cm && r + carried' * base == x * b + y + carried
    ensures sum + r * p + carried' * (p * base) == (am + x * p) * b + (cm + y * p)
  {
    Distribute(p, r, carried' * base);
    Distribute(p, x * b + y, carried);
    Distribute(p, x * b, y);
    Distribute(b, am, x * p);
    assert p * (carried' * base) == carried' * (p * base);
    assert p * (x * b) == x * p * b;
  }

  lemma MadStep(base: nat, x: nat, before: seq<nat>, sum: nat, carried: nat, high: nat, carryMul: nat, carryAdd: nat,
                a: seq<nat>, b: nat, c: seq<nat>)
    requires |before| == x
    requires Magnitude(base, before, x) + carried * Place(base, x) == Magnitude(base, a, x) * b + Magnitude(base, c, x)
    requires sum + carryAdd * base + carryMul * base + high * base == At(a, x) * b + At(c, x) + carried
    ensures MadState(base, x + 1, before + [sum], high, carryMul, carryAdd, a, b, c)
  {
    MagnitudeSame(base, before, before + [sum], x);
    Distribute(base, high + carryMul, carryAdd);
    Distribute(base, high, carryMul);
    MadLimb(base, Place(base, x), Magnitude(base, before, x), carried, high + carryMul + carryAdd,
            Magnitude(base, a, x), At(a, x), b, Magnitude(base, c, x), At(c, x), sum);
  }

  /** The two words of a product. */
  method Multiply(base: nat, x: nat, y: nat) returns (low: nat, high: nat)
    requires base >= 2 && x < base && y < base
    ensures low < base && high <= base - 2 && low + high * base == x * y
  {
    var n := x * y;
    LimbProduct(base - 1, x, y);
    low, high := n % base, n / base;
    assert n == n / base * base + n % base;
    HighWord(base, high, n);
  }

  lemma LimbProduct(m: nat, x: nat, y: nat)
    requires x <= m && y <= m
    ensures 0 <= x * y <= m * m
  {
    ProductGrows(x, y);
    ProductGrows(x, m - y);
    Distribute(x, m, y);
    ProductGrows(m, m - x);
    Distribute(m, m, x);
  }

  lemma HighWord(base: nat, high: nat, n: nat)
    requires base >= 2 && high * base <= n <= (base - 1) * (base - 1)
    ensures high <= base - 2
  {
    Distribute(base - 1, base, 1);
    Distribute(base, high, base - 1);
    ProductGrows(base, high - (base - 1));
  }

  /** One limb of the result, and what it carries on. Past the last limb of the other factor the
      product carries nothing more. */
  method MadColumn(base: nat, va: nat, b: nat, vc: nat, high: nat, carryMul: nat, carryAdd: nat)
    returns (sum: nat, high': nat, carryMul': nat, carryAdd': nat)
    requires base >= 2 && va < base && b < base && vc < base && high <= base - 2 && carryMul <= 1 && carryAdd <= 1
    ensures sum < base && high' <= base - 2 && carryMul' <= 1 && carryAdd' <= 1
    ensures sum + carryAdd' * base + carryMul' * base + high' * base == va * b + vc + (high + carryMul + carryAdd)
    ensures va == 0 ==> high' == 0 && carryMul' == 0
    ensures high == 0 && carryMul == 0 ==> carryMul' == 0
  {
    var low;
    low, high' := Multiply(base, va, b);
    var product;
    product, carryMul' := AddCarry(base, low, high, carryMul);
    sum, carryAdd' := AddCarry(base, product, vc, carryAdd);
    if va == 0 {
      NoProduct(base, low, high');
    }
  }

  lemma NoProduct(base: nat, low: nat, high: nat)
    requires base >= 1 && low + high * base == 0
    ensures low == 0 && high == 0
  {
    ProductGrows(high, base);
  }

  /** The limbs of an array that may be missing. */
  function LimbsOf(c: array?<nat>): seq<nat>
    reads c
  {
    if c == null then [] else c[..]
  }

  /** res := a * b + c modulo the width of res, where res may be the same array as c. Without
      an array c is zero. */
  method Mad(base: nat, a: array<nat>, b: nat, c: array?<nat>, sizeC: nat, res: array<nat>)
    requires base >= 2 && AreLimbs(base, a[..]) && AreLimbs(base, LimbsOf(c)) && b < base
    requires c != null ==> c.Length == sizeC
    requires res.Length >= sizeC >= a.Length >= 1 && res != a
    modifies res
    ensures AreLimbs(base, res[..])
    ensures exists k: nat ::
              Magnitude(base, res[..], res.Length) + k * Place(base, res.Length)
              == Magnitude(base, a[..], a.Length) * b + Magnitude(base, old(LimbsOf(c)), |old(LimbsOf(c))|)
  {
    ghost var a0, c0 := a[..], LimbsOf(c);
    var high: nat, carryMul: nat, carryAdd: nat := 0, 0, 0;
    for x := 0 to res.Length
      invariant high <= base - 2 && carryMul <= 1 && carryAdd <= 1 && a[..] == a0
      invariant x == 0 || x > a.Length ==> high == 0 && carryMul == 0
      invariant forall i :: 0 <= i < x ==> res[i] < base
      invariant forall i :: x <= i < |c0| ==> c != null && c[i] == c0[i]
      invariant MadState(base, x, res[..x], high, carryMul, carryAdd, a0, b, c0)
    {
      ghost var before, carried := res[..x], high + carryMul + carryAdd;
      var va := if x >= a.Length then 0 else a[x];
      var vc := if x >= sizeC || c == null then 0 else c[x];
      var sum;
      sum, high, carryMul, carryAdd := MadColumn(base, va, b, vc, high, carryMul, carryAdd);
      res[x] := sum;
      assert res[..x + 1] == before + [sum];
      MadStep(base, x, before, sum, carried, high, carryMul, carryAdd, a0, b, c0);
    }
    assert res[..res.Length] == res[..];
    MadEnd(base, res[..], high, carryMul, carryAdd, a0, b, c0);
  }

  lemma MadEnd(base: nat, r: seq<nat>, high: nat, carryMul: nat, carryAdd: nat, a: seq<nat>, b: nat, c: seq<nat>)
    requires |a| <= |r| && |c| <= |r| && MadState(base, |r|, r, high, carryMul, carryAdd, a, b, c)
    ensures exists k: nat ::
              Magnitude(base, r, |r|) + k * Place(base, |r|) == Magnitude(base, a, |a|) * b + Magnitude(base, c, |c|)
  {
    MagnitudePadded(base, a, |r|);
    MagnitudePadded(base, c, |r|);
  }

}
