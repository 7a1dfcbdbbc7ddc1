/** An abstract commutative group, written multiplicatively, and its powers. The proof
    systems use the class group only through these laws. */
module Groups {
  import opened Integers
  import opened Words

  datatype Group<!G(!new)> = Group(mul: (G, G) -> G, one: G) {
    ghost predicate CommutesAt(x: G, y: G) {
      mul(x, y) == mul(y, x)
    }

    ghost predicate AssociatesAt(x: G, y: G, z: G) {
      mul(mul(x, y), z) == mul(x, mul(y, z))
    }

    ghost predicate UnitAt(x: G) {
      mul(x, one) == x
    }

    ghost predicate Lawful() {
      && (forall x, y :: CommutesAt(x, y))
      && (forall x, y, z :: AssociatesAt(x, y, z))
      && (forall x :: UnitAt(x))
    }

    lemma Commute(x: G, y: G)
      requires Lawful()
      ensures mul(x, y) == mul(y, x)
    {
      assert CommutesAt(x, y);
    }

    lemma Associate(x: G, y: G, z: G)
      requires Lawful()
      ensures mul(mul(x, y), z) == mul(x, mul(y, z))
    {
      assert AssociatesAt(x, y, z);
    }

    lemma Unit(x: G)
      requires Lawful()
      ensures mul(x, one) == x && mul(one, x) == x
    {
      assert UnitAt(x);
      Commute(x, one);
    }
  }

  function Pow<G(!new)>(gr: Group<G>, x: G, n: nat): G {
    if n == 0 then gr.one else gr.mul(x, Pow(gr, x, n - 1))
  }

  lemma {:induction false} PowAdd<G(!new)>(gr: Group<G>, x: G, m: nat, n: nat)
    requires gr.Lawful()
    ensures Pow(gr, x, m + n) == gr.mul(Pow(gr, x, m), Pow(gr, x, n))
  {
    if m == 0 {
      gr.Unit(Pow(gr, x, n));
    } else {
      PowAdd(gr, x, m - 1, n);
      gr.Associate(x, Pow(gr, x, m - 1), Pow(gr, x, n));
    }
  }

  lemma PowOne<G(!new)>(gr: Group<G>, x: G)
    requires gr.Lawful()
    ensures Pow(gr, x, 1) == x
  {
    gr.Unit(x);
  }

  lemma {:induction false} PowPow<G(!new)>(gr: Group<G>, x: G, m: nat, n: nat)
    requires gr.Lawful()
    ensures m * n >= 0 && Pow(gr, Pow(gr, x, m), n) == Pow(gr, x, m * n)
  {
    ProductGrows(m, n);
    if n > 0 {
      PowPow(gr, x, m, n - 1);
      Distribute(m, n, 1);
      PowAdd(gr, x, m, m * (n - 1));
    }
  }

  lemma {:induction false} PowProduct<G(!new)>(gr: Group<G>, x: G, y: G, n: nat)
    requires gr.Lawful()
    ensures Pow(gr, gr.mul(x, y), n) == gr.mul(Pow(gr, x, n), Pow(gr, y, n))
  {
    if n == 0 {
      gr.Unit(gr.one);
    } else {
      PowProduct(gr, x, y, n - 1);
      Interchange(gr, x, y, Pow(gr, x, n - 1), Pow(gr, y, n - 1));
    }
  }

  lemma Interchange<G(!new)>(gr: Group<G>, x: G, y: G, z: G, w: G)
    requires gr.Lawful()
    ensures gr.mul(gr.mul(x, y), gr.mul(z, w)) == gr.mul(gr.mul(x, z), gr.mul(y, w))
  {
    gr.Associate(x, y, gr.mul(z, w));
    gr.Associate(y, z, w);
    gr.Commute(y, z);
    gr.Associate(z, y, w);
    gr.Associate(x, z, gr.mul(y, w));
  }

  lemma {:induction false} PowOfOne<G(!new)>(gr: Group<G>, n: nat)
    requires gr.Lawful()
    ensures Pow(gr, gr.one, n) == gr.one
  {
    if n > 0 {
      PowOfOne(gr, n - 1);
      gr.Unit(gr.one);
    }
  }

  // ----- Exponentiation -----

  /** Exponentiation by squaring, from the top bit of the exponent down. */
  method FastPow<G(!new)>(gr: Group<G>, x: G, n: nat) returns (res: G)
    requires gr.Lawful()
    ensures res == Pow(gr, x, n)
  {
    if n == 0 {
      return gr.one;
    }
    res := x;
    var i := BitLength(n) - 2;
    PowOne(gr, x);
    TopBit(n);
    while i >= 0
      invariant -1 <= i
      invariant res == Pow(gr, x, n / Pow2(i + 1))
    {
      NextBit(n, i);
      BitStep(gr, x, n / Pow2(i + 1), n / Pow2(i) % 2, res);
      res := gr.mul(res, res);
      if n / Pow2(i) % 2 == 1 {
        res := gr.mul(res, x);
      }
      i := i - 1;
    }
    assert Pow2(0) == 1;
  }

  lemma BitStep<G(!new)>(gr: Group<G>, x: G, e: nat, bit: nat, res: G)
    requires gr.Lawful() && res == Pow(gr, x, e) && bit <= 1
    ensures Pow(gr, x, e + e + bit) == if bit == 1 then gr.mul(gr.mul(res, res), x) else gr.mul(res, res)
  {
    PowAdd(gr, x, e, e);
    PowOne(gr, x);
    PowAdd(gr, x, e + e, 1);
  }

  lemma TopBit(n: nat)
    requires n > 0
    ensures n / Pow2(BitLength(n) - 1) == 1
  {
    var b := BitLength(n);
    assert Pow2(b) == 2 * Pow2(b - 1);
    QuotientIs(n, Pow2(b - 1), 1, n - Pow2(b - 1));
  }

  lemma NextBit(n: nat, i: nat)
    ensures n / Pow2(i) == n / Pow2(i + 1) + n / Pow2(i + 1) + n / Pow2(i) % 2
  {
    var x := n / Pow2(i);
    QuotientOfQuotient(n, Pow2(i), 2);
    assert Pow2(i + 1) == Pow2(i) * 2;
    assert x == x / 2 * 2 + x % 2;
  }

  /** cnt squarings in a row. */
  method SquareN<G(!new)>(gr: Group<G>, x: G, cnt: nat) returns (f: G)
    requires gr.Lawful()
    ensures f == Pow(gr, x, Pow2(cnt))
  {
    f := x;
    PowOne(gr, x);
    for i := 0 to cnt
      invariant f == Pow(gr, x, Pow2(i))
    {
      f := gr.mul(f, f);
      PowAdd(gr, x, Pow2(i), Pow2(i));
    }
  }

}
