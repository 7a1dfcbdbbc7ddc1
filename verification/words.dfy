/** Machine words: powers of two, bit lengths, and the range and wrap-around of 64-bit
    signed integers. */
module Words {
  import opened Integers

  const LIMB_BITS: nat := 64
  const LIMB_LIMIT := 0x8000_0000_0000_0000

  predicate FitsLimb(x: int) {
    -LIMB_LIMIT <= x < LIMB_LIMIT
  }

  type Byte = x: int | 0 <= x < 256

  function Pow256(n: nat): (p: nat)
    ensures p >= 1
  {
    if n == 0 then 1 else 256 * Pow256(n - 1)
  }

  function Pow2(n: nat): (p: nat)
    ensures p >= 1
  {
    if n == 0 then 1 else 2 * Pow2(n - 1)
  }

  lemma Pow2Add(m: nat, n: nat)
    ensures Pow2(m + n) == Pow2(m) * Pow2(n)
  {
    if m > 0 {
      Pow2Add(m - 1, n);
    }
  }

  /** Number of significant bits; zero counts as one bit. */
  function BitLength(n: nat): (b: nat)
    ensures b >= 1 && n < Pow2(b)
    ensures n > 0 ==> Pow2(b - 1) <= n
  {
    if n <= 1 then 1 else 1 + BitLength(n / 2)
  }

  lemma DivideBelow(n: nat, m: nat, p: nat)
    requires m > 0 && n < m * p
    ensures 0 <= n / m < p
  {
    assert n == n / m * m + n % m;
    Distribute(m, n / m, p);
    ProductGrows(m, n / m - p);
  }

  lemma Pow2Square(n: nat, p: nat)
    requires Pow2(n) == p
    ensures Pow2(n + n) == p * p
  {
    Pow2Add(n, n);
  }

  lemma Pow2OfLimb()
    ensures Pow2(63) == LIMB_LIMIT && Pow2(64) == 2 * LIMB_LIMIT
  {
    Pow2Square(8, 0x100);
    Pow2Square(16, 0x1_0000);
    Pow2Square(32, 0x1_0000_0000);
  }

  lemma BitLengthMonotone(x: nat, y: nat)
    requires x <= y
    ensures BitLength(x) <= BitLength(y)
  {
    if x > 1 {
      BitLengthMonotone(x / 2, y / 2);
    }
  }

  /** The leading w bits of a number of at most bits + w bits. */
  lemma BitLengthIs(n: nat, k: nat)
    requires k >= 1
    ensures BitLength(n) <= k <==> n < Pow2(k)
  {
    if BitLength(n) <= k {
      Pow2Monotone(BitLength(n), k);
    } else {
      Pow2Monotone(k, BitLength(n) - 1);
    }
  }

  lemma HeadFits(r: nat, bits: nat, w: nat)
    requires BitLength(r) <= bits + w
    ensures 0 <= r / Pow2(bits) < Pow2(w)
  {
    Pow2Monotone(BitLength(r), bits + w);
    Pow2Add(bits, w);
    assert r < Pow2(bits) * Pow2(w);
    DivideBelow(r, Pow2(bits), Pow2(w));
  }

  lemma Pow2Monotone(m: nat, n: nat)
    requires m <= n
    ensures Pow2(m) <= Pow2(n)
  {
    if m < n {
      Pow2Monotone(m, n - 1);
    }
  }

  lemma DivideMonotone(x: int, y: int, m: int)
    requires 0 <= x <= y && m > 0
    ensures 0 <= x / m <= y / m
  {
    assert x == x / m * m + x % m && y == y / m * m + y % m;
    Distribute(m, x / m, y / m);
    ProductGrows(m, x / m - y / m);
  }

  const WORD := 0x1_0000_0000_0000_0000

  /** Two's complement wrap-around into the signed 64-bit range. */
  function Wrap(x: int): (r: int)
    ensures FitsLimb(r) && Divides(WORD, r - x)
  {
    var r := (x + LIMB_LIMIT) % WORD - LIMB_LIMIT;
    assert r - x == -((x + LIMB_LIMIT) / WORD) * WORD;
    r
  }

  /** Bitwise or. */
  function Or(p: nat, q: nat): (r: nat)
    ensures r >= p && r >= q
  {
    if p == 0 then q
    else if q == 0 then p
    else 2 * Or(p / 2, q / 2) + (if p % 2 == 1 || q % 2 == 1 then 1 else 0)
  }

  /** Only zero and the same single bit can be or'ed into a single bit without a trace. */
  lemma {:induction false} OrSingleBit(k: nat, q: nat)
    requires Or(Pow2(k), q) <= Pow2(k)
    ensures q == 0 || q == Pow2(k)
  {
    if k > 0 && q > 0 {
      assert Pow2(k) / 2 == Pow2(k - 1);
      OrSingleBit(k - 1, q / 2);
    }
  }

  /** Or'ing sets no bit beyond the highest. */
  lemma {:induction false} OrBelow(k: nat, p: nat, q: nat)
    requires p < Pow2(k) && q < Pow2(k)
    ensures Or(p, q) < Pow2(k)
  {
    if p > 0 && q > 0 {
      OrBelow(k - 1, p / 2, q / 2);
    }
  }

  lemma {:induction false} OrSym(p: nat, q: nat)
    ensures Or(p, q) == Or(q, p)
  {
    if p > 0 && q > 0 {
      OrSym(p / 2, q / 2);
    }
  }

}
