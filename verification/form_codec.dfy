/** Forms on the wire: what a received byte string is taken for, and which strings lead to
    one class. */
module FormCodec {
  import opened Integers
  import opened Words
  import opened Euclid
  import opened Wrappers
  import opened Forms
  import opened Reduction
  import opened Bqfc
  import opened BqfcBytes
  import Lehmer
  import XgcdPartial

  function DiscWords(D: int): nat {
    WordsOf(BitLength(Abs(D)))
  }

  /** The pair that the decoder accepts a string as. */
  ghost predicate AcceptedPair(s: seq<Byte>, a: int, b: int, D: int)
    requires DiscWords(D) <= 32
  {
    && |s| == FORM_SIZE
    && if HasFlag(s[0]) then a == (if s[0] / 8 % 2 == 1 then 2 else 1) && b == 1
       else EncodesSurvivor(s, a, b, DiscWords(D), D)
  }

  /** f is the form of discriminant D with leading coefficients (a, b). */
  ghost predicate FormOver(f: Form, a: int, b: int, D: int) {
    f.a == a && f.b == b && Disc(f) == D && PositiveDefinite(f)
  }

  /** The string is received as the reduced form g. */
  ghost predicate LeadsTo(s: seq<Byte>, D: int, g: Form)
    requires DiscWords(D) <= 32
  {
    exists f: Form :: AcceptedPair(s, f.a, f.b, D) && FormOver(f, f.a, f.b, D) && Canon(f) == g
  }

  /** The strings that lead to a reduced form are those that are accepted as leading
      coefficients of some form of its class, reduced or not. */
  lemma StringsOfClass(s: seq<Byte>, D: int, g: Form)
    requires DiscWords(D) <= 32 && Reduced(g) && PositiveDefinite(g) && Disc(g) == D
    ensures LeadsTo(s, D, g) <==> exists f: Form :: AcceptedPair(s, f.a, f.b, D) && PositiveDefinite(f) && Equiv(f, g)
  {
    if LeadsTo(s, D, g) {
      var f: Form :| AcceptedPair(s, f.a, f.b, D) && FormOver(f, f.a, f.b, D) && Canon(f) == g;
      assert Equiv(f, g);
    }
    if exists f: Form :: AcceptedPair(s, f.a, f.b, D) && PositiveDefinite(f) && Equiv(f, g) {
      var f: Form :| AcceptedPair(s, f.a, f.b, D) && PositiveDefinite(f) && Equiv(f, g);
      EquivDisc(f, g);
      CanonIsTheReducedForm(f, g);
      assert FormOver(f, f.a, f.b, D);
    }
  }

  /** What a receiver makes of a string. Undetermined stands for the comparison with an
      encoding that has no room. */
  datatype Received = Refused(error: string) | Received(form: FormCell) | Undetermined

  lemma AcceptedOnce(s: seq<Byte>, a: int, b: int, a': int, b': int, D: int)
    requires DiscWords(D) <= 32 && AcceptedPair(s, a, b, D) && AcceptedPair(s, a', b', D)
    ensures a == a' && b == b'
  {
    if !HasFlag(s[0]) {
      FirstByte(s, a, b, DiscWords(D));
      FirstByte(s, a', b', DiscWords(D));
      SurvivorsDecode(s, a, b, DiscWords(D), D);
      SurvivorsDecode(s, a', b', DiscWords(D), D);
      DecompressesUnique(D, Parsed(s, DiscWords(D)).value, a, b, a', b');
    }
  }

  /** The form that an accepted pair stands for, if any. It is reduced while it is built, so
      that the test for being reduced never refuses anything. */
  method Build(a: int, b: int, D: int, ghost s: seq<Byte>) returns (r: Received)
    requires D < 0 && DiscWords(D) <= 32 && AcceptedPair(s, a, b, D)
    ensures forall g: Form :: LeadsTo(s, D, g) <==> r.Received? && r.form.V() == g
    ensures !r.Undetermined? && r != Refused("Form is not reduced")
    ensures r.Received? ==> Reduced(r.form.V()) && PositiveDefinite(r.form.V()) && Disc(r.form.V()) == D
    ensures r.Received? <==> a > 0 && (b * b - D) % (4 * a) == 0
  {
    var f := FromAbd(a, b, D);
    if f.Err? {
      NoForm(s, a, b, D);
      return Refused(f.error);
    }
    ghost var k: Form :| k.a == a && k.b == b && Disc(k) == D && PositiveDefinite(k) && f.value.V() == Canon(k);
    EquivDisc(k, Canon(k));
    OnlyForm(s, k, D);
    var reduced := f.value.IsReduced();
    if !reduced {
      return Refused("Form is not reduced");
    }
    r := Received(f.value);
  }

  lemma NoForm(s: seq<Byte>, a: int, b: int, D: int)
    requires DiscWords(D) <= 32 && AcceptedPair(s, a, b, D) && !(a > 0 && (b * b - D) % (4 * a) == 0)
    ensures forall g: Form :: !LeadsTo(s, D, g)
  {
    forall f: Form | AcceptedPair(s, f.a, f.b, D)
      ensures !FormOver(f, f.a, f.b, D)
    {
      AcceptedOnce(s, a, b, f.a, f.b, D);
      FormNeedsFit(f, a, b, D);
    }
  }

  lemma FormNeedsFit(f: Form, a: int, b: int, D: int)
    requires f.a == a && f.b == b && !(a > 0 && (b * b - D) % (4 * a) == 0)
    ensures !FormOver(f, a, b, D)
  {
    if FormOver(f, a, b, D) {
      CoefficientsFit(f, D);
    }
  }

  lemma OnlyForm(s: seq<Byte>, k: Form, D: int)
    requires DiscWords(D) <= 32 && AcceptedPair(s, k.a, k.b, D) && FormOver(k, k.a, k.b, D)
    ensures forall g: Form :: LeadsTo(s, D, g) <==> g == Canon(k)
  {
    forall f: Form | AcceptedPair(s, f.a, f.b, D) && FormOver(f, f.a, f.b, D)
      ensures f == k
    {
      AcceptedOnce(s, k.a, k.b, f.a, f.b, D);
      SameC(f, k);
    }
  }

  /** The received form is the reduced one of the class of the accepted pair. */
  method DeserializeForm(D: int, str: array<Byte>) returns (r: Received)
    requires D < 0 && DiscWords(D) <= 32
    ensures forall g: Form :: LeadsTo(str[..], D, g) <==> r.Received? && r.form.V() == g
    ensures r != Refused("Form is not reduced")
    ensures r.Received? ==> Reduced(r.form.V()) && PositiveDefinite(r.form.V()) && Disc(r.form.V()) == D
  {
    var res := Deserialize(D, str, BitLength(Abs(D)));
    match res {
      case Rejected =>
        assert forall a, b :: !AcceptedPair(str[..], a, b, D);
        r := Refused("Deserializing compressed form failed");
      case Undefined(_, _) =>
        assert forall a, b :: !AcceptedPair(str[..], a, b, D);
        r := Undetermined;
      case Accepted(a, b) =>
        r := Build(a, b, D, str[..]);
    }
  }

  lemma CoefficientsFit(f: Form, D: int)
    requires f.a > 0 && Disc(f) == D
    ensures (f.b * f.b - D) % (4 * f.a) == 0
  {
    Reassociate(4, f.a, f.c);
    assert f.b * f.b - D == f.c * (4 * f.a);
    Quotient(f.c, 4 * f.a);
  }

  /** Reduces a form and writes it. */
  method SerializeForm(y: FormCell, D: int, out: array<Byte>) returns (ok: bool)
    requires PositiveDefinite(y.V()) && Disc(y.V()) == D && DiscWords(D) <= 32 && out.Length == FORM_SIZE
    modifies y, out
    ensures y.V() == Canon(old(y.V()))
    ensures ok <==> Encodable(y.a, y.b, DiscWords(D))
    ensures ok ==> IsEncoding(out[..], y.a, y.b, DiscWords(D))
    ensures Short(y.a, y.b, DiscWords(D)) ==> ok
  {
    y.Reduce();
    ok := Serialize(out, y.a, y.b, BitLength(Abs(D)));
  }

  /** A sent form whose fields have room is received as the reduced form of its class exactly
      if the leading coefficients of that are recoverable. */
  method SendAndReceive(y: FormCell, D: int) returns (r: Received)
    requires PositiveDefinite(y.V()) && Disc(y.V()) == D && 1 <= DiscWords(D) <= 32
    requires Short(Canon(y.V()).a, Canon(y.V()).b, DiscWords(D))
    modifies y
    ensures y.V() == Canon(old(y.V()))
    ensures r.Received? && r.form.V() == y.V() <==> Recoverable(y.a, y.b)
  {
    var str := new Byte[FORM_SIZE];
    var ok := SerializeForm(y, D, str);
    ghost var g, s := y.V(), str[..];
    EquivDisc(old(y.V()), g);
    SentString(s, g, D);
    r := DeserializeForm(D, str);
    assert y.V() == g && str[..] == s;
    assert LeadsTo(s, D, g) <==> r.Received? && r.form.V() == g;
  }

  lemma FormDivides(f: Form)
    requires f.a > 0
    ensures Divides(f.a, f.b * f.b - Disc(f))
  {
    Reassociate(4, f.a, f.c);
    assert f.b * f.b - Disc(f) == 4 * f.c * f.a;
    DividesBy(f.a, 4 * f.c);
  }

  lemma SurvivorIsAccepted(s: seq<Byte>, f: Form, D: int)
    requires PositiveDefinite(f) && Disc(f) == D && DiscWords(D) <= 32 && |s| == FORM_SIZE
    requires !HasFlag(s[0]) && EncodesSurvivor(s, f.a, f.b, DiscWords(D), D)
    ensures AcceptedPair(s, f.a, f.b, D) && LeadsTo(s, D, Canon(f))
  {
    assert AcceptedPair(s, f.a, f.b, D) && FormOver(f, f.a, f.b, D);
  }

  lemma FlaggedIsAccepted(s: seq<Byte>, f: Form, D: int)
    requires PositiveDefinite(f) && Disc(f) == D && DiscWords(D) <= 32 && IsSpecial(f.a, f.b) && s == SpecialBytes(f.a)
    ensures AcceptedPair(s, f.a, f.b, D) && LeadsTo(s, D, Canon(f))
  {
    assert AcceptedPair(s, f.a, f.b, D) && FormOver(f, f.a, f.b, D);
  }

  lemma EncodingSurvives(s: seq<Byte>, f: Form, D: int)
    requires PositiveDefinite(f) && Disc(f) == D && DiscWords(D) <= 32 && ComesBack(f.a, f.b)
    requires IsEncoding(s, f.a, f.b, DiscWords(D)) && !IsSpecial(f.a, f.b)
    ensures |s| == FORM_SIZE && EncodesSurvivor(s, f.a, f.b, DiscWords(D), D)
  {
    EncodedFields(s, f.a, f.b, DiscWords(D));
    FormDivides(f);
    SurvivorsComeBack(Parsed(s, DiscWords(D)).value, f.a, f.b, D);
  }

  /** The encoding of a form that comes back, reduced or not, leads to the class of the form. */
  lemma EncodingIsAccepted(s: seq<Byte>, f: Form, D: int)
    requires PositiveDefinite(f) && Disc(f) == D && DiscWords(D) <= 32 && ComesBack(f.a, f.b)
    requires IsEncoding(s, f.a, f.b, DiscWords(D))
    ensures AcceptedPair(s, f.a, f.b, D) && LeadsTo(s, D, Canon(f))
  {
    FirstByte(s, f.a, f.b, DiscWords(D));
    if IsSpecial(f.a, f.b) {
      FlaggedIsAccepted(s, f, D);
    } else {
      EncodingSurvives(s, f, D);
      SurvivorIsAccepted(s, f, D);
    }
  }

  /** A reduced form's string leads to it exactly if its leading coefficients are
      recoverable. */
  lemma SentString(s: seq<Byte>, g: Form, D: int)
    requires PositiveDefinite(g) && Reduced(g) && Disc(g) == D && DiscWords(D) <= 32
    requires IsEncoding(s, g.a, g.b, DiscWords(D))
    ensures LeadsTo(s, D, g) <==> Recoverable(g.a, g.b)
  {
    EquivRefl(g);
    CanonIsTheReducedForm(g, g);
    if IsSpecial(g.a, g.b) {
      assert 0 * g.a + 1 * g.b == 1;
      CoprimeIsRecoverable(g.a, g.b);
    }
    if Recoverable(g.a, g.b) {
      EncodingIsAccepted(s, g, D);
    } else {
      LostString(s, g, D);
    }
  }

  lemma LostString(s: seq<Byte>, g: Form, D: int)
    requires PositiveDefinite(g) && Reduced(g) && Disc(g) == D && DiscWords(D) <= 32
    requires IsEncoding(s, g.a, g.b, DiscWords(D)) && !IsSpecial(g.a, g.b) && !Recoverable(g.a, g.b)
    ensures !LeadsTo(s, D, g)
  {
    if LeadsTo(s, D, g) {
      var f: Form :| AcceptedPair(s, f.a, f.b, D) && FormOver(f, f.a, f.b, D) && Canon(f) == g;
      ZeroStaysZero(f);
      ReceivedIsSent(s, g, f.a, f.b, D);
      LostIsNotZero(g.a, g.b);
    }
  }

  lemma AcceptedDecodes(s: seq<Byte>, a: int, b: int, D: int)
    requires DiscWords(D) <= 32 && AcceptedPair(s, a, b, D) && !HasFlag(s[0])
    ensures DecodesTo(s, a, b, DiscWords(D), D)
  {
    FirstByte(s, a, b, DiscWords(D));
    SurvivorsDecode(s, a, b, DiscWords(D), D);
  }

  lemma EncodedDecodes(s: seq<Byte>, g: Form, D: int)
    requires PositiveDefinite(g) && Reduced(g) && Disc(g) == D && DiscWords(D) <= 32 && g.a != g.b
    requires IsEncoding(s, g.a, g.b, DiscWords(D)) && !IsSpecial(g.a, g.b)
    ensures |s| == FORM_SIZE && DecodesTo(s, g.a, RecoveredB(g.a, g.b), DiscWords(D), D)
  {
    EncodedFields(s, g.a, g.b, DiscWords(D));
    var c := Parsed(s, DiscWords(D)).value;
    var root :| Compresses(c, g.a, g.b, root);
    FormDivides(g);
    CompressedDivides(g.a, g.b * g.b - D, c.a, c.g);
    CompressedComesBack(D, c, g.a, g.b, root);
  }

  /** With b lost the decoder can only arrive at zero in its place. */
  lemma ReceivedIsSent(s: seq<Byte>, g: Form, a: int, b: int, D: int)
    requires PositiveDefinite(g) && Reduced(g) && Disc(g) == D && DiscWords(D) <= 32
    requires IsEncoding(s, g.a, g.b, DiscWords(D)) && !IsSpecial(g.a, g.b) && !Recoverable(g.a, g.b)
    requires AcceptedPair(s, a, b, D)
    ensures b == 0
  {
    if g.a == g.b {
      EqualIsRecoverable(g.a);
    } else {
      FirstByte(s, g.a, g.b, DiscWords(D));
      AcceptedDecodes(s, a, b, D);
      EncodedDecodes(s, g, D);
      DecompressesUnique(D, Parsed(s, DiscWords(D)).value, g.a, RecoveredB(g.a, g.b), a, b);
    }
  }

  /** A form with b == 0 is equivalent to a reduced one with b == 0. */
  lemma ZeroStaysZero(f: Form)
    requires PositiveDefinite(f)
    ensures f.b == 0 ==> Canon(f).b == 0
  {
    if f.b == 0 {
      PositiveC(f);
      EquivRefl(f);
      FlipTranslate(f, 0);
      if f.a <= f.c {
        CanonIsTheReducedForm(f, f);
      } else {
        CanonIsTheReducedForm(f, Form(f.c, 0, f.a));
      }
    }
  }

  // ----- Several strings for one class -----

  /** A string for any form that comes back and has room, reduced or not: it leads to the
      class of the form. */
  method Encode(f: Form, D: int) returns (s: seq<Byte>)
    requires PositiveDefinite(f) && Disc(f) == D && DiscWords(D) <= 32
    requires Short(f.a, f.b, DiscWords(D)) && HasRoom(f.a, f.b) && ComesBack(f.a, f.b)
    ensures AcceptedPair(s, f.a, f.b, D) && LeadsTo(s, D, Canon(f))
  {
    var out := new Byte[FORM_SIZE];
    var ok := Serialize(out, f.a, f.b, BitLength(Abs(D)));
    s := out[..];
    EncodingIsAccepted(s, f, D);
  }

  lemma ISqrtIs(n: nat, r: nat)
    requires r * r <= n < (r + 1) * (r + 1)
    ensures ISqrt(n) == r
  {
    var s := ISqrt(n);
    SquareMonotone(s + 1, r);
    SquareMonotone(r + 1, s);
  }

  lemma SmallWindow(x: nat, y: nat)
    requires x < 32 && y < 32
    ensures XgcdPartial.WindowShift(x, y) == 0
  {
    BitLengthMonotone(x, 31);
    BitLengthMonotone(y, 31);
    assert BitLength(31) == 5;
  }

  /** On small numbers the words are the numbers themselves. */
  lemma SmallRound(e: State, L: nat)
    requires 0 <= e.r2 < 32 && 0 <= e.r1 < 32
    ensures var i := XgcdPartial.WordRun(Lehmer.IDENTITY_ROWS, 0, e.r2, e.r1, L).1;
            XgcdPartial.RoundSteps(e, L) == if i == 0 then 1 else i
  {
    SmallWindow(e.r2, e.r1);
    WholeWords(e.r2, e.r1, L, Pow2(0));
  }

  lemma WholeWords(x: int, y: int, L: int, p: int)
    requires p == 1
    ensures x / p == x && y / p == y && L / p == L
  {
  }

  /** One quotient of the word loop, with what the test compares. */
  lemma WordStep(m: Lehmer.Rows, n: Lehmer.Rows, i: nat, rr2: int, rr1: int, bb: int, q: int, t1: int)
    requires rr1 > bb >= 0 && 0 <= t1 < rr1 && rr2 == q * rr1 + t1
    requires n.bb2 == m.bb1 && n.aa2 == m.aa1 && n.bb1 == m.bb2 - q * m.bb1 && n.aa1 == m.aa2 - q * m.aa1
    ensures XgcdPartial.WordRun(m, i, rr2, rr1, bb)
         == if (if i % 2 == 1 then t1 >= -n.bb1 && rr1 - t1 >= n.aa1 - m.aa1 else t1 >= -n.aa1 && rr1 - t1 >= n.bb1 - m.bb1)
            then XgcdPartial.WordRun(n, i + 1, rr1, t1, bb) else (m, i)
  {
    QuotientUnique(rr2, rr1, q);
    assert n == Lehmer.NextRows(m, q);
  }

  /** The word loop ends once the remainder is down at the bound. */
  lemma WordEnd(m: Lehmer.Rows, i: nat, rr2: int, rr1: int, bb: int)
    requires rr1 <= bb
    ensures XgcdPartial.WordRun(m, i, rr2, rr1, bb) == (m, i)
  {
  }

  lemma Divide(e: State, q: int)
    requires e.r1 > 0 && 0 <= e.r2 - q * e.r1 < e.r1
    ensures Iterate(e, 1) == State(e.r1, e.r2 - q * e.r1, e.co1, e.co2 - q * e.co1, e.d1, e.d2 - q * e.d1)
  {
    QuotientUnique(e.r2, e.r1, q);
    assert Iterate(e, 1) == Step(Iterate(e, 0));
  }

  lemma LastRun(m: Lehmer.Rows, x: int, y: int, bb: int)
    requires m == Lehmer.IDENTITY_ROWS && x == 8 && y == 3 && bb == 2
    ensures XgcdPartial.WordRun(m, 0, x, y, bb).1 == 1
  {
    var n := Lehmer.Rows(0, 1, 1, -2);
    WordStep(m, n, 0, x, y, bb, 2, 2);
    WordEnd(n, 1, y, 2, bb);
  }

  /** A pair in the wrong order is always exchanged first. */
  lemma ExchangeStart(m: Lehmer.Rows, n: Lehmer.Rows, x: int, y: int, bb: int)
    requires m == Lehmer.IDENTITY_ROWS && n == Lehmer.Rows(0, 1, 1, 0) && 0 <= x < y && y > bb >= 0
    ensures XgcdPartial.WordRun(m, 0, x, y, bb) == XgcdPartial.WordRun(n, 1, y, x, bb)
  {
    ZeroAccepted(x, y);
    XgcdPartial.ZeroRows();
    UnfoldZero(m, n, x, y, bb);
  }

  lemma UnfoldZero(m: Lehmer.Rows, n: Lehmer.Rows, x: int, y: int, bb: int)
    requires n == Lehmer.NextRows(m, 0) && 0 <= x < y && y > bb >= 0 && Lehmer.Accepted(m, false, y, x, 0)
    ensures XgcdPartial.WordRun(m, 0, x, y, bb) == XgcdPartial.WordRun(n, 1, y, x, bb)
  {
    XgcdPartial.ZeroQuotient(x, y, x / y);
  }

  lemma ZeroAccepted(x: int, y: int)
    requires 0 <= x < y
    ensures Lehmer.Accepted(Lehmer.IDENTITY_ROWS, false, y, x, 0)
  {
  }

  lemma ExchangeMiddle(m: Lehmer.Rows, n: Lehmer.Rows, x: int, y: int, z: int, bb: int)
    requires m == Lehmer.Rows(0, 1, 1, 0) && n == Lehmer.Rows(1, 0, -2, 1) && x == 8 && y == 19 && z == 3 && bb == 2
    ensures XgcdPartial.WordRun(m, 1, y, x, bb) == XgcdPartial.WordRun(n, 2, x, z, bb)
  {
    WordStep(m, n, 1, y, x, bb, 2, z);
  }

  lemma ExchangeStop(m: Lehmer.Rows, x: int, z: int, bb: int)
    requires m == Lehmer.Rows(1, 0, -2, 1) && x == 8 && z == 3 && bb == 2
    ensures XgcdPartial.WordRun(m, 2, x, z, bb) == (m, 2)
  {
    WordStep(m, Lehmer.Rows(-2, 1, 5, -2), 2, x, z, bb, 2, 2);
  }

  lemma ExchangeRun(m: Lehmer.Rows, x: int, y: int, bb: int)
    requires m == Lehmer.IDENTITY_ROWS && x == 8 && y == 19 && bb == 2
    ensures XgcdPartial.WordRun(m, 0, x, y, bb).1 == 2
  {
    var m1, m2, z := Lehmer.Rows(0, 1, 1, 0), Lehmer.Rows(1, 0, -2, 1), 3;
    ExchangeStart(m, m1, x, y, bb);
    ExchangeMiddle(m1, m2, x, y, z, bb);
    ExchangeStop(m2, x, z, bb);
  }

  lemma TakeSteps(e: State, L: nat, n: nat)
    requires e.r2 >= 0 && e.r1 > L && XgcdPartial.RoundSteps(e, L) == n
    requires var x := Iterate(e, n); x.r2 >= 0 && 0 <= x.r1 < e.r1
    ensures XgcdPartial.StepsTaken(e, L) == n + XgcdPartial.StepsTaken(Iterate(e, n), L)
  {
  }

  lemma NoSteps(e: State, L: nat)
    requires e.r2 >= 0 && e.r1 <= L
    ensures XgcdPartial.StepsTaken(e, L) == 0
  {
  }

  lemma LastRound(e: State, L: nat)
    requires e.r2 == 8 && e.r1 == 3 && L == 2
    ensures XgcdPartial.RoundSteps(e, L) == 1
  {
    SmallRound(e, L);
    LastRun(Lehmer.IDENTITY_ROWS, e.r2, e.r1, L);
  }

  lemma LastDivision(e: State)
    requires e.r2 == 8 && e.r1 == 3 && e.co2 == 0 && e.co1 == -1
    ensures var x := Iterate(e, 1); x.r2 == 3 && x.r1 == 2 && x.co1 == 2
  {
    Divide(e, 2);
  }

  /** From the pair (8, 3) one step reaches the root of 8. */
  lemma LastStep(e: State, L: nat)
    requires e.r2 == 8 && e.r1 == 3 && e.co2 == 0 && e.co1 == -1 && L == 2
    ensures XgcdPartial.StepsTaken(e, L) == 1 && Iterate(e, 1).co1 == 2
  {
    LastRound(e, L);
    LastDivision(e);
    NoSteps(Iterate(e, 1), L);
    TakeSteps(e, L, 1);
  }

  lemma FirstRound(e: State, L: nat)
    requires e.r2 == 8 && e.r1 == 19 && L == 2
    ensures XgcdPartial.RoundSteps(e, L) == 2
  {
    SmallRound(e, L);
    ExchangeRun(Lehmer.IDENTITY_ROWS, e.r2, e.r1, L);
  }

  lemma FirstDivisions(e: State)
    requires e.r2 == 8 && e.r1 == 19 && e.co2 == 0 && e.co1 == -1
    ensures var x := Iterate(e, 2); x.r2 == 8 && x.r1 == 3 && x.co2 == 0 && x.co1 == -1
  {
    var e1 := Iterate(e, 1);
    FirstDivision(e);
    SecondDivision(e1);
    IterateAdd(e, 1, 1);
  }

  lemma FirstDivision(e: State)
    requires e.r2 == 8 && e.r1 == 19 && e.co2 == 0 && e.co1 == -1
    ensures var x := Iterate(e, 1); x.r2 == 19 && x.r1 == 8 && x.co2 == -1 && x.co1 == 0
  {
    Divide(e, 0);
  }

  lemma SecondDivision(e: State)
    requires e.r2 == 19 && e.r1 == 8 && e.co2 == -1 && e.co1 == 0
    ensures var x := Iterate(e, 1); x.r2 == 8 && x.r1 == 3 && x.co2 == 0 && x.co1 == -1
  {
    Divide(e, 2);
  }

  /** From (8, 19) a quotient of zero and one of two lead there. */
  lemma AllSteps(e: State, L: nat)
    requires e.r2 == 8 && e.r1 == 19 && e.co2 == 0 && e.co1 == -1 && L == 2
    ensures XgcdPartial.StepsTaken(e, L) == 3 && Iterate(e, 3).co1 == 2
  {
    FirstRound(e, L);
    FirstDivisions(e);
    var x := Iterate(e, 2);
    TakeSteps(e, L, 2);
    LastStep(x, L);
    IterateAdd(e, 2, 1);
  }

  /** The partial gcds of (8, 3) and (8, 19) stop at the same cofactor. */
  lemma StopOf8(a: int, b: int)
    requires a == 8 && (b == -3 || b == -19)
    ensures StopOf(a, b).co1 == 2
  {
    ISqrtIs(a, 2);
    if b == -3 {
      LastStep(Start(a, Abs(b)), ISqrt(a));
    } else {
      AllSteps(Start(a, Abs(b)), ISqrt(a));
    }
  }

  lemma FactorOf8(r: GcdRes, x: int, n: int)
    requires x == 8 && n == -2 && IsGcd(r, x, n) && r.gcd >= 1
    ensures r.gcd == 2
  {
    DividesBy(2, 4);
    DividesBy(2, -1);
    GcdIsGreatest(r, x, n, 2);
    DividesCombination(r.gcd, n, n, -1, 0);
    MutualDivisors(r.gcd, 2);
  }

  lemma TwinGcd(a: int, t: int)
    requires a == 8 && t == -2
    ensures Gcd(a, t).gcd == 2
  {
    GcdPositive(a, t);
    FactorOf8(Gcd(a, t), a, t);
  }

  lemma TwinFactor(a: int, b: int)
    requires a == 8 && (b == -3 || b == -19)
    ensures CommonFactor(a, b) == 2
  {
    StopOf8(a, b);
    TwinGcd(a, -2);
  }

  lemma TwinLeading(a: int, b: int)
    requires a == 8 && CommonFactor(a, b) == 2
    ensures LeadingPart(a, b) == 4
  {
  }

  lemma SixOneStop(a: int, b: int)
    requires a == 6 && b == 1
    ensures StopOf(a, b).co1 == -1
  {
    ISqrtIs(a, 2);
    NoSteps(Start(a, Abs(b)), ISqrt(a));
    assert StopOf(a, b) == Start(a, Abs(b));
  }

  lemma OneByteEach()
    ensures |ToBytes(0)| == 0 && |ToBytes(2)| == |ToBytes(4)| == 1 && Pow256(1) == 256 && Pow256(2) == 0x1_0000
  {
    assert ToBytes(0) == [];
  }

  lemma SmallDisc()
    ensures DiscWords(-23) == 1
  {
    assert BitLength(23) == 5;
  }

  /** (8, -3) and (8, -19) both have room and come back; the second only because its quotient
      by 4 is stored next to the common factor 2. */
  lemma TwinsFit(a: int, b: int)
    requires a == 8 && (b == -3 || b == -19)
    ensures Short(a, b, 1) && HasRoom(a, b) && ComesBack(a, b)
  {
    TwinIsShort(a, b);
    TwinFactor(a, b);
    TwinLeading(a, b);
    TwinRoom(a, b);
    if b == -3 {
      assert -1 * a + -3 * b == 1;
      CoprimeIsRecoverable(a, b);
    }
  }

  lemma TwinIsShort(a: int, b: int)
    requires a == 8 && (b == -3 || b == -19)
    ensures Short(a, b, 1)
  {
    OneByteEach();
    StopOf8(a, b);
  }

  lemma TwinRoom(a: int, b: int)
    requires a > 0 && -20 < b < 0 && LeadingPart(a, b) == 4 && CommonFactor(a, b) == 2
    ensures HasRoom(a, b)
  {
    SmallLength(Abs(b) / 4);
    assert |ToBytes(2)| == 1;
  }

  lemma SmallLength(n: nat)
    requires n < 256
    ensures |ToBytes(n)| <= 1
  {
    ByteLength(n, 1);
  }

  lemma SixOneFits(a: int, b: int)
    requires a == 6 && b == 1
    ensures Short(a, b, 1) && HasRoom(a, b) && ComesBack(a, b)
  {
    SixOneIsShort(a, b);
    assert 0 * a + 1 * b == 1;
    CoprimeIsRecoverable(a, b);
  }

  lemma SixOneIsShort(a: int, b: int)
    requires a == 6 && b == 1
    ensures Short(a, b, 1)
  {
    OneByteEach();
    SixOneStop(a, b);
  }

  /** The forms whose strings are compared below are in the class of the identity. */
  lemma IdentityForms(f: Form, g: Form)
    requires g == Form(1, 1, 6) && (f == Form(6, 1, 1) || f == Form(8, -3, 1))
    ensures Canon(f) == g && PositiveDefinite(f) && Disc(f) == -23
  {
    FlipTranslate(f, if f.a == 6 then 1 else -1);
    CanonIsTheReducedForm(f, g);
  }

  lemma LargeTranslates(h: Form, f: Form)
    requires h == Form(8, -19, 12) && f == Form(8, -3, 1)
    ensures Equiv(h, f) && PositiveDefinite(h) && Disc(h) == -23
  {
    assert h.b * h.b == 361;
    TranslateByOne(h, h.a + h.b + h.c);
  }

  lemma TranslateByOne(h: Form, c: int)
    requires c == h.a + h.b + h.c
    ensures Equiv(h, Form(h.a, h.b + 2 * h.a, c))
  {
    Translate(h, 1);
  }

  lemma LargeIdentityForm(h: Form, f: Form, g: Form)
    requires PositiveDefinite(h) && Equiv(h, f) && PositiveDefinite(f) && Reduced(g) && Canon(f) == g
    ensures Canon(h) == g
  {
    EquivTrans(h, f, g);
    CanonIsTheReducedForm(h, g);
  }

  /** Three strings for the identity g of discriminant -23, besides its own with the flag:
      those of the forms (6, 1, 1), (8, -3, 1) and (8, -19, 12), of which none is reduced and
      the last has a b that exceeds a. */
  method IdentityStrings(g: Form, p: Form, q: Form, r: Form) returns (s: seq<Byte>, t: seq<Byte>, u: seq<Byte>)
    requires g == Form(1, 1, 6) && p == Form(6, 1, 1) && q == Form(8, -3, 1) && r == Form(8, -19, 12)
    ensures DiscWords(-23) == 1
    ensures AcceptedPair(s, p.a, p.b, -23) && LeadsTo(s, -23, g)
    ensures AcceptedPair(t, q.a, q.b, -23) && LeadsTo(t, -23, g)
    ensures AcceptedPair(u, r.a, r.b, -23) && LeadsTo(u, -23, g)
  {
    SmallDisc();
    SixOneFits(p.a, p.b);
    IdentityForms(p, g);
    s := Encode(p, -23);
    TwinsFit(q.a, q.b);
    IdentityForms(q, g);
    t := Encode(q, -23);
    TwinsFit(r.a, r.b);
    LargeTranslates(r, q);
    LargeIdentityForm(r, q, g);
    u := Encode(r, -23);
  }

  lemma FlaggedIdentity(g: Form)
    requires g == Form(1, 1, 6)
    ensures DiscWords(-23) == 1 && LeadsTo(SpecialBytes(1), -23, g)
  {
    SmallDisc();
    EquivRefl(g);
    CanonIsTheReducedForm(g, g);
    assert AcceptedPair(SpecialBytes(1), g.a, g.b, -23) && FormOver(g, g.a, g.b, -23);
  }

}
