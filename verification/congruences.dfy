/** Congruence of integers, shared by the primality tests and the commitment scheme. */
module Congruences {
  import opened Integers

  ghost predicate Congruent(m: int, x: int, y: int) {
    Divides(m, x - y)
  }

  lemma CongruentProduct(m: int, x: int, x': int, y: int, y': int)
    requires Congruent(m, x, x') && Congruent(m, y, y')
    ensures Congruent(m, x * y, x' * y')
  {
    DividesCombination(m, x - x', y - y', y, x');
    Distribute(y, x, x');
    Distribute(x', y, y');
  }

  lemma CongruentCombination(m: int, x: int, x': int, y: int, y': int, u: int, v: int)
    requires Congruent(m, x, x') && Congruent(m, y, y')
    ensures Congruent(m, u * x + v * y, u * x' + v * y')
  {
    DividesCombination(m, x - x', y - y', u, v);
    Distribute(u, x, x');
    Distribute(v, y, y');
  }

  lemma CongruentTrans(m: int, x: int, y: int, z: int)
    requires Congruent(m, x, y) && Congruent(m, y, z)
    ensures Congruent(m, x, z)
  {
    DividesCombination(m, x - y, y - z, 1, 1);
  }

  lemma CongruentRefl(m: int, x: int)
    ensures Congruent(m, x, x)
  {
    DividesBy(m, 0);
  }

  lemma CongruentSym(m: int, x: int, y: int)
    requires Congruent(m, x, y)
    ensures Congruent(m, y, x)
  {
    DividesCombination(m, x - y, x - y, -1, 0);
  }

  /** Two numbers less than m apart are congruent only if equal. */
  lemma CongruentInRange(m: int, x: int, y: int)
    requires m > 0 && -m < x - y < m
    ensures Congruent(m, x, y) <==> x == y
  {
    if Congruent(m, x, y) {
      var q :| x - y == q * m;
      SmallMultiple(m, q);
    } else if x == y {
      CongruentRefl(m, x);
    }
  }

  lemma CongruentIff(m: int, x: int, y: int, z: int)
    requires Congruent(m, x, y)
    ensures Congruent(m, x, z) <==> Congruent(m, y, z)
  {
    CongruentSym(m, x, y);
    if Congruent(m, x, z) {
      CongruentTrans(m, y, x, z);
    }
    if Congruent(m, y, z) {
      CongruentTrans(m, x, y, z);
    }
  }

}
