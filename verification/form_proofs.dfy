/** Proofs of time on forms: powers by NUCOMP and NUDUPL with reductions in between, the
    verifiers built on them, and an engine's result verified. All of it is the class group's
    arithmetic, for any group that realises the reference multiplication, as ClassGroupOf does. */
module FormProofs {
  import opened Integers
  import opened Words
  import opened Forms
  import opened Reduction
  import opened SlowArithmetic
  import opened ClassGroup
  import opened Groups
  import opened EngineSizes
  import FastReducer
  import Nucomp
  import Wesolowski
  import Verifier
  import SquaringEngine

  /** f is a form of discriminant D, reduced or not. */
  predicate FormOf(D: int, f: Form) {
    PositiveDefinite(f) && Disc(f) == D
  }

  /** The class of f to the power of n. */
  ghost function Power(gr: Group<Form>, f: Form, n: nat): Form
    requires PositiveDefinite(f)
  {
    Pow(gr, Canon(f), n)
  }

  lemma ElementIsCanonical(D: int, f: Form)
    requires Element(D, f)
    ensures Canon(f) == f
  {
    EquivRefl(f);
    CanonIsTheReducedForm(f, f);
  }

  lemma CanonIsElement(D: int, f: Form)
    requires FormOf(D, f)
    ensures Element(D, Canon(f)) && Canon(Canon(f)) == Canon(f)
  {
    EquivDisc(f, Canon(f));
    ElementIsCanonical(D, Canon(f));
  }

  /** c is the reduced form of the class of f. */
  ghost predicate Represents(D: int, f: Form, c: Form) {
    FormOf(D, f) && Element(D, c) && Equiv(f, c)
  }

  lemma RepresentsCanon(D: int, f: Form, c: Form)
    requires FormOf(D, f)
    ensures Represents(D, f, c) <==> c == Canon(f)
  {
    CanonIsElement(D, f);
    if Represents(D, f, c) {
      CanonIsTheReducedForm(f, c);
    }
  }

  // ----- Powers -----

  /** Reduction by the fast reducer, which may end on the twin of the canonical form or, after
      the given rounds, not at all. The class is kept in any case. */
  method Reduce(f: FormCell, rounds: nat, ghost D: int, ghost c: Form) returns (done: bool)
    requires Represents(D, f.V(), c)
    modifies f
    ensures Represents(D, f.V(), c)
    ensures done ==> FastReducer.Balanced(f.V())
  {
    ghost var trace;
    done, trace := FastReducer.Run(f, rounds);
    EquivDisc(old(f.V()), f.V());
    EquivSym(old(f.V()), f.V());
    EquivTrans(f.V(), old(f.V()), c);
  }

  lemma ProductRepresents(gr: Group<Form>, D: int, f: Form, c: Form, g: Form, d: Form, r: Form)
    requires Represents(D, f, c) && Represents(D, g, d) && FormOf(D, r) && Realises(gr, D)
    requires Canon(r) == Multiply(f, g)
    ensures Represents(D, r, gr.mul(c, d))
  {
    RepresentsCanon(D, f, c);
    RepresentsCanon(D, g, d);
    ProductOfClasses(gr, D, f, g);
    RepresentsCanon(D, r, gr.mul(c, d));
  }

  method SquareForm(res: FormCell, D: int, L: nat, large: nat, rounds: nat, ghost gr: Group<Form>, ghost c: Form)
    requires Represents(D, res.V(), c) && Realises(gr, D)
    modifies res
    ensures Represents(D, res.V(), gr.mul(c, c))
  {
    ghost var f := res.V();
    Nucomp.Nudupl(res, res, D, L);
    ProductRepresents(gr, D, f, c, f, c, res.V());
    if (BitLength(Abs(res.a)) + 63) / 64 > large {
      var _ := Reduce(res, rounds, D, gr.mul(c, c));
    }
  }

  method MultiplyForm(res: FormCell, x: FormCell, D: int, L: nat, ghost gr: Group<Form>, ghost c: Form, ghost b: Form)
    requires Represents(D, res.V(), c) && Represents(D, x.V(), b) && Realises(gr, D)
    modifies res
    ensures Represents(D, res.V(), gr.mul(c, b))
  {
    ghost var f, g := res.V(), x.V();
    Nucomp.Nucomp(res, res, x, D, L);
    ProductRepresents(gr, D, f, c, g, b, res.V());
  }

  /** One bit of the exponent. */
  method PowerStep(res: FormCell, x: FormCell, bit: bool, D: int, L: nat, large: nat, rounds: nat,
                   ghost gr: Group<Form>, ghost c: Form, ghost b: Form) returns (ghost d: Form)
    requires Represents(D, res.V(), c) && Represents(D, x.V(), b) && Realises(gr, D) && res != x
    modifies res
    ensures Represents(D, res.V(), d)
    ensures d == if bit then gr.mul(gr.mul(c, c), b) else gr.mul(c, c)
  {
    SquareForm(res, D, L, large, rounds, gr, c);
    d := gr.mul(c, c);
    if bit {
      MultiplyForm(res, x, D, L, gr, d, b);
      d := gr.mul(d, b);
    }
  }

  lemma NextExponent(n: nat, i: nat, e: nat)
    requires e == n / Pow2(i + 1)
    ensures e + e + One(n / Pow2(i) % 2 == 1) == n / Pow2(i)
  {
    NextBit(n, i);
  }

  lemma ExponentEnds(n: nat)
    requires n > 0
    ensures n / Pow2(BitLength(n) - 1) == 1 && n / Pow2(0) == n
  {
    TopBit(n);
    assert Pow2(0) == 1;
  }

  lemma NextPower(gr: Group<Form>, D: int, b: Form, e: nat, bit: bool, c: Form)
    requires Realises(gr, D) && c == Pow(gr, b, e)
    ensures Pow(gr, b, e + e + One(bit)) == if bit then gr.mul(gr.mul(c, c), b) else gr.mul(c, c)
  {
    RealisesLaws(gr, D);
    BitStep(gr, b, e, One(bit), c);
  }

  lemma FirstPowers(gr: Group<Form>, D: int, b: Form)
    requires Realises(gr, D)
    ensures ClassDiscriminant(D) && Pow(gr, b, 0) == Identity(D) && Pow(gr, b, 1) == b
  {
    RealisesLaws(gr, D);
    PowOne(gr, b);
  }

  /** The bits of a positive exponent, from the top one down. */
  method PowerLoop(x: Form, D: int, n: nat, L: nat, large: nat, rounds: nat, ghost gr: Group<Form>, ghost b: Form)
    returns (res: FormCell)
    requires Represents(D, x, b) && Realises(gr, D) && n > 0
    ensures fresh(res) && Represents(D, res.V(), Pow(gr, b, n))
  {
    res := new FormCell(x);
    var base := new FormCell(x);
    var i := BitLength(n) - 2;
    FirstPowers(gr, D, b);
    ExponentEnds(n);
    ghost var e: nat, c := 1, b;
    while i >= 0
      invariant -1 <= i && fresh(res) && fresh(base) && res != base && base.V() == x
      invariant e == n / Pow2(i + 1) && Represents(D, res.V(), c) && c == Pow(gr, b, e)
    {
      NextExponent(n, i, e);
      var bit := n / Pow2(i) % 2 == 1;
      NextPower(gr, D, b, e, bit, c);
      c := PowerStep(res, base, bit, D, L, large, rounds, gr, c, b);
      e := e + e + One(bit);
      i := i - 1;
    }
  }

  /** Exponentiation by squaring on forms. */
  method FastPowFormNucomp(x: Form, D: int, n: nat, L: nat, large: nat, rounds: nat, ghost gr: Group<Form>)
    returns (res: FormCell, done: bool)
    requires FormOf(D, x) && Realises(gr, D)
    ensures fresh(res) && FormOf(D, res.V()) && Canon(res.V()) == Power(gr, x, n)
    ensures done ==> FastReducer.Balanced(res.V())
  {
    RepresentsCanon(D, x, Canon(x));
    ghost var y := Power(gr, x, n);
    if n == 0 {
      FirstPowers(gr, D, Canon(x));
      ElementIsCanonical(D, Identity(D));
      res := new FormCell(Identity(D));
      return res, true;
    }
    res := PowerLoop(x, D, n, L, large, rounds, gr, Canon(x));
    done := Reduce(res, rounds, D, y);
    RepresentsCanon(D, res.V(), y);
  }

  // ----- The verifiers -----

  /** The form that a proof leads to. */
  method LeadsTo(x: Form, proof: Form, B: nat, iters: nat, D: int, L: nat, large: nat, rounds: nat,
                 ghost gr: Group<Form>) returns (y: Form)
    requires FormOf(D, x) && FormOf(D, proof) && Realises(gr, D) && B > 0
    ensures Element(D, y) && y == gr.mul(Power(gr, proof, B), Power(gr, x, Pow2(iters) % B))
    ensures y == Verifier.OutY(gr, Canon(x), Canon(proof), B, iters)
  {
    var _, r := Verifier.FastPowModular(iters, B);
    var f1, _ := FastPowFormNucomp(proof, D, B, L, large, rounds, gr);
    var f2, _ := FastPowFormNucomp(x, D, r, L, large, rounds, gr);
    ProductOfClasses(gr, D, f1.V(), f2.V());
    y := Multiply(f1.V(), f2.V());
  }

  /** The verdict on one segment is that of the class group. */
  method VerifyWesoSegment(getB: (Form, Form) -> nat, x: Form, proof: Form, B: nat, iters: nat,
                           D: int, L: nat, large: nat, rounds: nat, ghost gr: Group<Form>)
    returns (verdict: Verifier.Verdict, outY: Form)
    requires FormOf(D, x) && FormOf(D, proof) && Realises(gr, D)
    ensures verdict == Verifier.DivisionByZero <==> B == 0
    ensures B > 0 ==> Element(D, outY) && outY == gr.mul(Power(gr, proof, B), Power(gr, x, Pow2(iters) % B))
    ensures B > 0 ==> outY == Verifier.OutY(gr, Canon(x), Canon(proof), B, iters)
    ensures B > 0 ==> (verdict == Verifier.Accepted <==> B == getB(Canon(x), outY))
  {
    if B == 0 {
      return Verifier.DivisionByZero, x;
    }
    outY := LeadsTo(x, proof, B, iters, D, L, large, rounds, gr);
    ElementIsCanonical(D, outY);
    verdict := if B == getB(Canon(x), outY) then Verifier.Accepted else Verifier.Rejected;
  }

  /** The verdict on a proof is that of the class group, however x, y and the proof are
      represented: the challenge reduces x and y first. */
  method VerifyWesolowskiProof(getB: (Form, Form) -> nat, x: Form, y: Form, proof: Form, iters: nat,
                               D: int, L: nat, large: nat, rounds: nat, ghost gr: Group<Form>)
    returns (verdict: Verifier.Verdict)
    requires FormOf(D, x) && FormOf(D, y) && FormOf(D, proof) && Realises(gr, D)
    ensures var B := getB(Canon(x), Canon(y));
            && (verdict == Verifier.DivisionByZero <==> B == 0)
            && (verdict == Verifier.Accepted <==>
                B > 0 && gr.mul(Power(gr, proof, B), Power(gr, x, Pow2(iters) % B)) == Canon(y))
    ensures verdict == Verifier.FinalVerdict(gr, getB, Canon(x), Canon(y), Canon(proof), iters)
  {
    var B := getB(Canon(x), Canon(y));
    if B == 0 {
      return Verifier.DivisionByZero;
    }
    var z := LeadsTo(x, proof, B, iters, D, L, large, rounds, gr);
    verdict := if z == Canon(y) then Verifier.Accepted else Verifier.Rejected;
  }

  /** A parsed proof: its forms have been received, hence reduced. */
  ghost predicate Parsed(D: int, p: Verifier.Proof<Form>) {
    && Element(D, p.y) && Element(D, p.proof)
    && forall i :: 0 <= i < |p.links| ==> Element(D, p.links[i].proof)
  }

  method VerifyElements(getB: (Form, Form) -> nat, x: Form, link: Verifier.Link<Form>,
                        D: int, L: nat, large: nat, rounds: nat, ghost gr: Group<Form>)
    returns (verdict: Verifier.Verdict, outY: Form)
    requires Element(D, x) && Element(D, link.proof) && Realises(gr, D)
    ensures verdict == Verifier.DivisionByZero <==> link.B == 0
    ensures link.B > 0 ==> Element(D, outY) && outY == Verifier.OutY(gr, x, link.proof, link.B, link.iters)
    ensures link.B > 0 ==> (verdict == Verifier.Accepted <==> link.B == getB(x, outY))
  {
    ElementIsCanonical(D, x);
    ElementIsCanonical(D, link.proof);
    verdict, outY := VerifyWesoSegment(getB, x, link.proof, link.B, link.iters, D, L, large, rounds, gr);
  }

  method VerifyLast(getB: (Form, Form) -> nat, x: Form, p: Verifier.Proof<Form>, iters: nat,
                    D: int, L: nat, large: nat, rounds: nat, ghost gr: Group<Form>)
    returns (verdict: Verifier.Verdict)
    requires Element(D, x) && Element(D, p.y) && Element(D, p.proof) && Realises(gr, D)
    ensures verdict == Verifier.FinalVerdict(gr, getB, x, p.y, p.proof, iters)
  {
    ElementIsCanonical(D, x);
    ElementIsCanonical(D, p.y);
    ElementIsCanonical(D, p.proof);
    verdict := VerifyWesolowskiProof(getB, x, p.y, p.proof, iters, D, L, large, rounds, gr);
  }

  /** The n-Wesolowski check on forms decides the class group's reading of the chain. */
  method CheckProofOfTimeNWesolowski(getB: (Form, Form) -> nat, x0: Form, p: Verifier.Proof<Form>, iterations0: nat,
                                     depth: nat, D: int, L: nat, large: nat, rounds: nat, ghost gr: Group<Form>)
    returns (verdict: Verifier.Verdict)
    requires Element(D, x0) && Parsed(D, p) && Realises(gr, D)
    ensures verdict == if |p.links| != depth then Verifier.Rejected
                       else Verifier.ChainVerdict(gr, getB, x0, p, iterations0)
    ensures verdict == Verifier.Accepted <==>
            |p.links| == depth && exists xs: seq<Form>, rest: nat :: Verifier.ChainHolds(gr, getB, x0, p, iterations0, xs, rest)
  {
    Verifier.AcceptedChain(gr, getB, x0, p, iterations0);
    if |p.links| != depth {
      return Verifier.Rejected;
    }
    var x := x0;
    var iterations: nat, i: nat := iterations0, |p.links|;
    assert p.links[..i] == p.links;
    while i > 0
      invariant 0 <= i <= |p.links| && Element(D, x)
      invariant Verifier.ChainVerdict(gr, getB, x0, p, iterations0)
             == Verifier.ChainVerdict(gr, getB, x, p.(links := p.links[..i]), iterations)
    {
      i := i - 1;
      var link := p.links[i];
      assert p.links[..i + 1][..i] == p.links[..i];
      var v, next := VerifyElements(getB, x, link, D, L, large, rounds, gr);
      if v != Verifier.Accepted {
        return v;
      }
      x := next;
      if link.iters > iterations {
        return Verifier.Rejected;
      }
      iterations := iterations - link.iters;
    }
    verdict := VerifyLast(getB, x, p, iterations, D, L, large, rounds, gr);
  }

  // ----- A wrong proof is refused -----

  /** In the class group of discriminant -23 the result (1, 1, 6) of squaring (2, 1, 3) once, with
      the neutral form as its proof, is refused for every challenge above 2: the square is
      (2, -1, 3). */
  lemma WrongSquareRefused(gr: Group<Form>, getB: (Form, Form) -> nat, x: Form, y: Form)
    requires Realises(gr, -23) && x == Form(2, 1, 3) && y == Form(1, 1, 6) && getB(x, y) > 2
    ensures Element(-23, x) && Element(-23, y) && y == gr.one
    ensures Verifier.FinalVerdict(gr, getB, x, y, y, 1) == Verifier.Rejected
  {
    RealisesLaws(gr, -23);
    assert Pow2(1) == 2;
    NotItsOwnInverse(x);
    SquareIsNotNeutral(gr, -23, x);
    Verifier.NeutralProof(gr, getB, x, y, 1);
  }

  /** A reduced form that is not its own inverse has a square other than the identity. */
  lemma SquareIsNotNeutral(gr: Group<Form>, D: int, x: Form)
    requires Realises(gr, D) && Element(D, x) && Inverse(x) != x
    ensures Pow(gr, x, 2) != gr.one
  {
    RealisesLaws(gr, D);
    InverseIsInverse(x, D);
    RealisesProduct(gr, D, x, Inverse(x));
    SecondPower(gr, x);
    if gr.mul(x, x) == gr.one {
      OnlyInverse(gr, x, x, Inverse(x));
    }
  }

  lemma NotItsOwnInverse(x: Form)
    requires x == Form(2, 1, 3)
    ensures Element(-23, x) && Inverse(x) != x
  {
    InverseOfReduced(x);
  }

  lemma SecondPower(gr: Group<Form>, x: Form)
    requires gr.Lawful()
    ensures Pow(gr, x, 2) == gr.mul(x, x)
  {
    PowOne(gr, x);
  }

  lemma OnlyInverse(gr: Group<Form>, x: Form, y: Form, z: Form)
    requires gr.Lawful() && gr.mul(x, y) == gr.one && gr.mul(x, z) == gr.one
    ensures y == z
  {
    gr.Associate(y, x, z);
    gr.Commute(x, y);
    gr.Unit(y);
    gr.Unit(z);
  }

  // ----- The engine's squarings are powers -----

  lemma {:induction false} SquaringsArePower(gr: Group<Form>, D: int, c: Form, n: nat, e: nat) returns (h: Form)
    requires Element(D, c) && Realises(gr, D) && e == Pow2(n)
    ensures Element(D, h) && h == SquaringEngine.Times(SquaringEngine.SquareOf, c, n) && h == Pow(gr, c, e)
  {
    if n == 0 {
      FirstPowers(gr, D, c);
      h := c;
    } else {
      var g := SquaringsArePower(gr, D, c, n - 1, Pow2(n - 1));
      h := NextSquaring(gr, D, c, n - 1, Pow2(n - 1), g);
    }
  }

  lemma NextSquaring(gr: Group<Form>, D: int, c: Form, n: nat, e: nat, g: Form) returns (h: Form)
    requires Realises(gr, D) && Element(D, g)
    requires g == SquaringEngine.Times(SquaringEngine.SquareOf, c, n) && g == Pow(gr, c, e)
    ensures Element(D, h) && h == SquaringEngine.Times(SquaringEngine.SquareOf, c, n + 1) && h == Pow(gr, c, 2 * e)
  {
    RealisesProduct(gr, D, g, g);
    NextPower(gr, D, c, e, false, g);
    h := Multiply(g, g);
  }

  lemma SquaredIsPower(gr: Group<Form>, D: int, f: Form, n: nat)
    requires FormOf(D, f) && Realises(gr, D)
    ensures SquaringEngine.Squared(f, n) == Power(gr, f, Pow2(n))
  {
    CanonIsElement(D, f);
    var _ := SquaringsArePower(gr, D, Canon(f), n, Pow2(n));
  }

  /** Whatever the engine's threads run into, the form it ends on is the start form to the
      power of 2 to the number of squarings it reports. */
  method Evaluate(f: FormCell, D: int, L: nat, maxBits: nat, batchSize: nat, rounds: nat,
                  faults: nat -> SquaringEngine.Faults, ghost gr: Group<Form>) returns (num: nat, derailed: bool)
    requires FormOf(D, f.V()) && Realises(gr, D)
    modifies f
    ensures FormOf(D, f.V()) && Canon(f.V()) == Power(gr, old(f.V()), Pow2(num))
    ensures !derailed && batchSize > 0 ==> num >= rounds
    ensures PrimeDiscriminant(D) && SafeSizes(L, maxBits, D) && old(f.a) < -D ==> !derailed
  {
    RealisesLaws(gr, D);
    num, derailed := SquaringEngine.RepeatedSquare(f, D, L, maxBits, batchSize, rounds, faults);
    SquaredIsPower(gr, D, old(f.V()), num);
  }

  /** From the engine to the verifier: the engine squares x, a prover over the class group
      proves the result for the number of squarings reported, and the verifier on forms
      accepts. */
  method EvaluateAndVerify(x: Form, D: int, L: nat, maxBits: nat, batchSize: nat, rounds: nat,
                           faults: nat -> SquaringEngine.Faults, getB: (Form, Form) -> nat, k: nat, l: nat,
                           parallel: bool, large: nat, reductions: nat, gr: Group<Form>)
    returns (y: FormCell, num: nat, proof: Form, verdict: Verifier.Verdict)
    requires FormOf(D, x) && Realises(gr, D) && 1 <= k < 31 && l >= 1
    requires forall a, b :: getB(a, b) >= Pow2(k)
    ensures FormOf(D, y.V()) && Canon(y.V()) == Power(gr, x, Pow2(num))
    ensures PrimeDiscriminant(D) && SafeSizes(L, maxBits, D) && x.a < -D && batchSize > 0 ==> num >= rounds
    ensures Element(D, proof) && verdict == Verifier.Accepted
  {
    RealisesLaws(gr, D);
    y := new FormCell(x);
    var derailed;
    num, derailed := Evaluate(y, D, L, maxBits, batchSize, rounds, faults, gr);
    var z;
    z, proof := Verifier.ProveSlow(gr, getB, Canon(x), num, k, l, parallel);
    CanonIsElement(D, x);
    PowersAreElements(gr, D, Canon(x), Wesolowski.ProofExponent(num, getB(Canon(x), z)));
    ElementIsCanonical(D, proof);
    verdict := VerifyWesolowskiProof(getB, x, y.V(), proof, num, D, L, large, reductions, gr);
  }

}
