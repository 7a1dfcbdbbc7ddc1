/** How large the coefficients of the squaring engine can grow: the bound on one iteration,
    and the sizes of discriminant, threshold and bit test for which every iteration stays
    below the discriminant. */
module EngineSizes {
  import opened Integers
  import opened Words
  import opened Forms
  import opened Euclid

  /** A leading coefficient A that one iteration can reach from a middle coefficient b. */
  ghost predicate Bounded(L: nat, b: int, D: int, A: int) {
    4 * (L * L) * A <= Square(2 * (L * L) + Abs(b)) - D
  }

  function Square(x: int): (y: int)
    ensures y >= 0
  {
    x * x
  }

  lemma SquareOfProduct(x: int, y: int)
    ensures Square(x * y) == Square(x) * Square(y)
  {
    Reassociate(x, y, x * y);
    Swap(y, x, y);
    Reassociate(x, x, y * y);
  }

  lemma SquareIsMonotone(x: int, y: int)
    requires Abs(x) <= y
    ensures Square(x) <= Square(y)
  {
    ProductMonotone(Abs(x), Abs(x), y);
    ProductMonotone(y, Abs(x), y);
    NegateProduct(x, x);
    NegateProduct(-x, x);
  }

  /** A value of (a, -b, c) at a remainder r at most L and its cofactor q, which L times is
      at most a, without the factor a. */
  lemma ValueIsBounded(a: int, b: int, c: int, L: nat, r: int, q: int, A: int, D: int)
    requires a > 0 && 0 <= r <= L && Abs(q) * L <= a && D == b * b - 4 * a * c && D < 0
    requires a * A == Value(Form(a, -b, c), r, q)
    ensures Bounded(L, b, D, A)
  {
    var m := 2 * (L * L) + Abs(b);
    var x := 2 * a * r + -b * q;
    CompleteSquare(Form(a, -b, c), r, q);
    NegateProduct(b, b);
    NegateProduct(-b, b);
    RootIsBounded(a, b, L, r, q, x);
    ScaleBound(a, L, q, x, m, D, A);
  }

  lemma RootIsBounded(a: int, b: int, L: nat, r: int, q: int, x: int)
    requires a > 0 && 0 <= r <= L && Abs(q) * L <= a && x == 2 * a * r + -b * q
    ensures Abs(L * x) <= a * (2 * (L * L) + Abs(b))
  {
    var y, z := 2 * a * r, -b * q;
    Distribute(L, y, z);
    RemainderPart(a, L, r);
    CofactorPart(a, b, L, q);
    Distribute(a, 2 * (L * L), Abs(b));
  }

  lemma RemainderPart(a: int, L: nat, r: int)
    requires a > 0 && 0 <= r <= L
    ensures 0 <= L * (2 * a * r) <= a * (2 * (L * L))
  {
    Reassociate(2, a, r);
    Swap(L, 2, a * r);
    Swap(L, a, r);
    Swap(a, 2, L * L);
    ProductMonotone(L, r, L);
    ProductMonotone(a, L * r, L * L);
    ProductGrows(L, r);
    ProductGrows(a, L * r);
  }

  lemma CofactorPart(a: int, b: int, L: nat, q: int)
    requires a > 0 && Abs(q) * L <= a
    ensures Abs(L * (-b * q)) <= a * Abs(b)
  {
    AbsOfProduct(-b, q);
    AbsOfProduct(L, -b * q);
    Swap(L, Abs(b), Abs(q));
    ProductMonotone(Abs(b), Abs(q) * L, a);
  }

  lemma AbsOfProduct(x: int, y: int)
    ensures Abs(x * y) == Abs(x) * Abs(y)
  {
    ProductGrows(x, y);
    ProductGrows(-x, y);
    ProductGrows(-x, -y);
    ProductGrows(x, -y);
    NegateProduct(x, y);
    NegateProduct(-x, y);
    NegateProduct(x, -y);
  }

  lemma ScaleBound(a: int, L: nat, q: int, x: int, m: int, D: int, A: int)
    requires a > 0 && D < 0 && m >= 0 && Abs(L * x) <= a * m && Abs(q) * L <= a
    requires 4 * a * (a * A) == x * x - D * q * q
    ensures 4 * (L * L) * A <= Square(m) - D
  {
    SquareIsMonotone(L * x, a * m);
    SquareOfProduct(L, x);
    SquareOfProduct(a, m);
    AbsOfProduct(q, L);
    SquareIsMonotone(q * L, a);
    SquareOfProduct(q, L);
    Reassociate(D, q, q);
    NegateProduct(D, Square(q));
    CancelSquare(Square(a), Square(L), Square(q), Square(x), Square(m), -D, A) by {
      Reassociate(4, a, a * A);
      Reassociate(a, a, A);
    }
  }

  lemma CancelSquare(aa: int, ll: int, qq: int, xx: int, mm: int, n: int, A: int)
    requires aa > 0 && n > 0 && ll >= 0 && ll * xx <= aa * mm && qq * ll <= aa
    requires 4 * (aa * A) == xx + n * qq
    ensures 4 * ll * A <= mm + n
  {
    ProductMonotone(n, qq * ll, aa);
    Distribute(ll, xx, n * qq);
    Swap(ll, n, qq);
    Distribute(aa, mm, n);
    Swap(ll, 4, aa * A);
    Swap(ll, aa, A);
    Reassociate(4, ll, A);
    Swap(aa, 4, ll * A);
    CancelLe(aa, 4 * (ll * A), mm + n);
  }

  // ----- Sizes for which the forms stay below the discriminant -----

  /** With coefficients of at most maxBits bits and remainders down to L, an iteration
      gives a leading coefficient smaller than |D|. */
  ghost predicate SafeSizes(L: nat, maxBits: nat, D: int) {
    L >= 1 && D < 0 && Square(2 * (L * L) + Pow2(maxBits)) - D < 4 * (L * L) * -D
  }

  lemma StaysBelow(L: nat, maxBits: nat, D: int, b: int, A: int)
    requires SafeSizes(L, maxBits, D) && BitLength(Abs(b)) <= maxBits && Bounded(L, b, D, A)
    ensures A < -D
  {
    Pow2Monotone(BitLength(Abs(b)), maxBits);
    SquareIsMonotone(2 * (L * L) + Abs(b), 2 * (L * L) + Pow2(maxBits));
    ProductGrows(L, L);
    Swap(4, L * L, A);
    if A >= -D {
      ProductMonotone(4 * (L * L), -D, A);
    }
  }

  /** Fourth roots, rounded down. */
  ghost predicate IsFourthRoot(L: nat, n: nat) {
    Square(L * L) <= n < Square((L + 1) * (L + 1))
  }

  /** The sizes the engine is made for are safe: a discriminant of 2k + 2 bits, its fourth
      root, and coefficients of at most k + 4 bits. */
  lemma FourthRootIsSafe(k: nat, L: nat, D: int)
    requires k >= 7 && D < 0 && Pow2(2 * k + 1) <= -D && IsFourthRoot(L, -D)
    ensures SafeSizes(L, k + 4, D)
  {
    var p: int := Pow2(k);
    PowersOfHalf(k);
    RootIsLarge(L, p);
    SafeBound(L * L, p, -D);
  }

  /** Bits of half the discriminant the engine is compiled for, and what a coefficient may
      exceed them by. */
  const MAX_BITS_BASE: nat := 1024
  const NUM_EXTRA_BITS_AB: nat := 3

  /** With the engine's own limit all discriminants of at least 2048 bits are safe. */
  lemma ProductionSizesAreSafe(L: nat, D: int)
    requires D < 0 && BitLength(-D) >= 2 * MAX_BITS_BASE && IsFourthRoot(L, -D)
    ensures SafeSizes(L, MAX_BITS_BASE + NUM_EXTRA_BITS_AB, D)
  {
    var k := MAX_BITS_BASE - 1;
    Pow2Monotone(2 * k + 1, BitLength(-D) - 1);
    FourthRootIsSafe(k, L, D);
  }

  lemma PowersOfHalf(k: nat)
    requires k >= 7
    ensures var p := Pow2(k); p >= 128 && Pow2(2 * k + 1) == 2 * (p * p) && Pow2(k + 4) == 16 * p
  {
    Pow2Monotone(7, k);
    Pow2Add(k, k);
    Pow2Add(k, 4);
    assert Pow2(2 * k) == Pow2(k + k);
    assert Pow2(4) == 16 && Pow2(7) == 8 * Pow2(4);
  }

  lemma RootIsLarge(L: nat, p: int)
    requires p >= 128 && 2 * (p * p) < Square((L + 1) * (L + 1))
    ensures L * L >= p
  {
    var s := L * L;
    assert (L + 1) * (L + 1) == s + 2 * L + 1;
    if s < p {
      if L >= 10 {
        ProductMonotone(L, 10, L);
        assert 10 * L <= s;
        assert 5 * (s + 2 * L + 1) <= 6 * p;
        SquareIsMonotone(5 * (s + 2 * L + 1), 6 * p);
        SquareOfProduct(5, s + 2 * L + 1);
        SquareOfProduct(6, p);
        ProductGrows(p, p);
      } else {
        ProductMonotone(L, L, 9);
        SquareIsMonotone(s + 2 * L + 1, 100);
        ProductMonotone(p, 128, p);
      }
    }
  }

  lemma SafeBound(s: int, p: int, n: int)
    requires s >= p >= 128 && Square(s) <= n
    ensures Square(2 * s + 16 * p) + n < 4 * s * n
  {
    SquareIsMonotone(2 * s + 16 * p, 18 * s);
    SquareOfProduct(18, s);
    ProductGrows(s, s);
    ProductMonotone(n, 128, s);
    Reassociate(4, s, n);
  }

}
