/** The two byte increments of the hash searches: which of them counts, and why the other
    one still runs through every nonce once before it repeats. */
module Nonces {
  import opened Integers
  import opened Words
  import opened HashSearch

  // ----- When the inverted increment counts -----

  lemma SplitLast(s: seq<Byte>)
    requires s != []
    ensures s == s[..|s| - 1] + [s[|s| - 1]]
  {
  }

  lemma OneMoreByte(p: seq<Byte>, b: Byte)
    ensures Next(p + [b], true) == (if b == 255 then p else Next(p, true)) + [Wrapped(b)]
  {
    assert (p + [b])[..|p|] == p;
  }

  /** The last byte always changes, so the number does. */
  lemma NextChangesValue(p: seq<Byte>, stopAtZero: bool)
    requires p != []
    ensures BytesToInt(Next(p, stopAtZero)) != BytesToInt(p)
  {
    var n := |p| - 1;
    var last := Wrapped(p[n]);
    SplitLast(p);
    AppendedByte(p[..n], p[n]);
    AppendedByte(p[..n], last);
    AppendedByte(Next(p[..n], stopAtZero), last);
    DifferentLast(BytesToInt(p[..n]), BytesToInt(p[..n]), p[n], last);
    DifferentLast(BytesToInt(p[..n]), BytesToInt(Next(p[..n], stopAtZero)), p[n], last);
  }

  lemma DifferentLast(x: nat, y: nat, b: Byte, c: Byte)
    requires b != c
    ensures x * 256 + b != y * 256 + c
  {
  }

  lemma SuccessorWithoutCarry(x: nat, m: nat, b: nat)
    requires x < m && b < 255
    ensures (x * 256 + b + 1) % (256 * m) == x * 256 + b + 1
  {
    SmallRemainder(x * 256 + b + 1, 256 * m);
  }

  lemma SuccessorWithCarry(x: nat, m: nat)
    requires x < m && m > 1
    ensures (x * 256 + 255 + 1) % (256 * m) != x * 256
  {
    Carry(x, m);
    if x + 1 < m {
      SmallRemainder(x + 1, m);
    } else {
      Quotient(1, m);
    }
  }

  /** On strings of two or more bytes the generator search's increment never adds one:
      without a wrap it changes the prefix as well, with a wrap it fails to. */
  lemma InvertedNeverCounts(s: seq<Byte>)
    requires |s| >= 2
    ensures BytesToInt(Next(s, true)) != (BytesToInt(s) + 1) % Pow256(|s|)
  {
    SplitLast(s);
    PrefixDecides(s, s[..|s| - 1], s[|s| - 1]);
  }

  lemma PrefixDecides(s: seq<Byte>, p: seq<Byte>, b: Byte)
    requires p != [] && s == p + [b]
    ensures BytesToInt(Next(s, true)) != (BytesToInt(s) + 1) % Pow256(|s|)
  {
    var x, y, m := NextValues(s, p, b);
    NotTheSuccessor(x, y, m, b);
  }

  /** The values before and after, by their prefixes. */
  lemma NextValues(s: seq<Byte>, p: seq<Byte>, b: Byte) returns (x: nat, y: nat, m: nat)
    requires p != [] && s == p + [b]
    ensures BytesToInt(s) == x * 256 + b && BytesToInt(Next(s, true)) == y * 256 + Wrapped(b)
    ensures Pow256(|s|) == 256 * m && x < m && m > 1 && (y == x <==> b == 255)
  {
    var next := if b == 255 then p else Next(p, true);
    OneMoreByte(p, b);
    AppendedByte(p, b);
    AppendedByte(next, Wrapped(b));
    NextChangesValue(p, true);
    BytesBelow(p);
    SizesAreLarge(|p|);
    x, y, m := BytesToInt(p), BytesToInt(next), Pow256(|p|);
  }

  lemma NotTheSuccessor(x: nat, y: nat, m: nat, b: Byte)
    requires x < m && m > 1 && (y == x <==> b == 255)
    ensures y * 256 + Wrapped(b) != (x * 256 + b + 1) % (256 * m)
  {
    if b == 255 {
      SuccessorWithCarry(x, m);
    } else {
      SuccessorWithoutCarry(x, m, b);
    }
  }

  lemma SizesAreLarge(n: nat)
    requires n >= 1
    ensures Pow256(n) > 1 && Pow256(n + 1) == 256 * Pow256(n)
  {
  }

  lemma ShortCounts(s: seq<Byte>)
    requires |s| <= 1
    ensures BytesToInt(Next(s, true)) == (BytesToInt(s) + 1) % Pow256(|s|)
  {
    if s == [] {
      NothingCounts(s);
    } else {
      OneCounts(s, s[0]);
    }
  }

  lemma OneCounts(s: seq<Byte>, b: Byte)
    requires s == [b]
    ensures BytesToInt(Next(s, true)) == (BytesToInt(s) + 1) % Pow256(|s|)
  {
    OneByte(s, b);
    WrapsAround(b, BytesToInt(s), BytesToInt(Next(s, true)), Pow256(|s|));
  }

  lemma NothingCounts(s: seq<Byte>)
    requires s == []
    ensures BytesToInt(Next(s, true)) == 0 == (BytesToInt(s) + 1) % Pow256(|s|)
  {
    assert Pow256(|s|) == 1;
  }

  lemma OneByte(s: seq<Byte>, b: Byte)
    requires s == [b]
    ensures BytesToInt(s) == b && BytesToInt(Next(s, true)) == Wrapped(b) && Pow256(|s|) == 256
  {
    assert s == [] + [b];
    OneMoreByte([], b);
    AppendedByte([], b);
    AppendedByte([], Wrapped(b));
    assert Next([], true) == [];
  }

  lemma WrapsAround(b: Byte, v: nat, next: nat, m: nat)
    requires v == b && next == Wrapped(b) && m == 256
    ensures next == (v + 1) % m
  {
  }

  /** The generator search's increment adds one, modulo its size, exactly on strings of at
      most one byte. */
  lemma InvertedCounts(s: seq<Byte>)
    ensures BytesToInt(Next(s, true)) == (BytesToInt(s) + 1) % Pow256(|s|) <==> |s| <= 1
  {
    if |s| <= 1 {
      ShortCounts(s);
    } else {
      InvertedNeverCounts(s);
    }
  }

  /** The seed length that the generator search derives from the size of the discriminant. */
  function SeedLength(dBits: nat): nat {
    (dBits + 16) / 16
  }

  /** With a discriminant of 16 bits or more no increment of the search adds one. */
  lemma GeneratorNeverCounts(seed: seq<Byte>, dBits: nat)
    requires |seed| == SeedLength(dBits)
    ensures BytesToInt(Next(seed, true)) == (BytesToInt(seed) + 1) % Pow256(|seed|) <==> dBits < 16
  {
    InvertedCounts(seed);
  }

  // ----- The cycle -----

  function Advance(s: seq<Byte>, k: nat): (r: seq<Byte>)
    ensures |r| == |s|
  {
    if k == 0 then s else Next(Advance(s, k - 1), true)
  }

  lemma {:induction false} AdvanceAdd(s: seq<Byte>, m: nat, k: nat)
    ensures Advance(Advance(s, m), k) == Advance(s, m + k)
  {
    if k > 0 {
      AdvanceAdd(s, m, k - 1);
    }
  }

  /** The steps that reach the prefix: all but those in which the last byte wraps. */
  function PrefixSteps(b: Byte, k: nat): nat {
    k - (b + k) / 256
  }

  lemma {:induction false} AdvanceSplits(p: seq<Byte>, b: Byte, k: nat)
    ensures Advance(p + [b], k) == Advance(p, PrefixSteps(b, k)) + [(b + k) % 256]
  {
    if k > 0 {
      AdvanceSplits(p, b, k - 1);
      StepCounts(b, k);
      OneMoreByte(Advance(p, PrefixSteps(b, k - 1)), (b + k - 1) % 256);
    }
  }

  lemma StepCounts(b: Byte, k: nat)
    requires k > 0
    ensures Wrapped((b + k - 1) % 256) == (b + k) % 256
    ensures PrefixSteps(b, k) == if (b + k - 1) % 256 == 255 then PrefixSteps(b, k - 1) else PrefixSteps(b, k - 1) + 1
  {
  }

  lemma OneModulo255(n: nat) returns (q: nat)
    ensures Pow256(n) == 255 * q + 1
  {
    if n == 0 {
      q := 0;
    } else {
      q := OneModulo255(n - 1);
      q := 256 * q + 1;
    }
  }

  lemma Cancel255(n: nat, m: nat)
    ensures Divides(Pow256(n), 255 * m) <==> Divides(Pow256(n), m)
  {
    var q: int := OneModulo255(n);
    assert 1 * Pow256(n) + -q * 255 == 1;
    if Divides(Pow256(n), 255 * m) {
      CoprimeDivides(Pow256(n), 255, m);
    }
    if Divides(Pow256(n), m) {
      DividesCombination(Pow256(n), m, m, 255, 0);
    }
  }

  lemma Scale256(p: nat, m: nat)
    ensures Divides(256 * p, 256 * m) <==> Divides(p, m)
  {
    if Divides(256 * p, 256 * m) {
      var q :| 256 * m == q * (256 * p);
      Swap(q, 256, p);
      DividesBy(p, q);
    }
    if Divides(p, m) {
      var q :| m == q * p;
      Swap(q, 256, p);
      DividesBy(256 * p, q);
    }
  }

  lemma NotAMultiple(p: nat, k: nat)
    requires Divides(256 * p, k)
    ensures k % 256 == 0
  {
    var q :| k == q * (256 * p);
    Swap(q, 256, p);
  }

  lemma SameLast(x: seq<Byte>, y: seq<Byte>, b: Byte, c: Byte)
    requires |x| == |y|
    ensures x + [b] == y + [c] <==> x == y && b == c
  {
    if x + [b] == y + [c] {
      assert x == (x + [b])[..|x|] && y == (y + [c])[..|y|];
      assert b == (x + [b])[|x|] && c == (y + [c])[|y|];
    }
  }

  /** The increments return to a nonce of n bytes exactly after multiples of 256^n steps. */
  lemma {:induction false} Period(s: seq<Byte>, k: nat)
    ensures Advance(s, k) == s <==> Divides(Pow256(|s|), k)
    decreases |s|
  {
    if s == [] {
      DividesBy(1, k);
    } else {
      var n := |s| - 1;
      var p, b := s[..n], s[n];
      SplitLast(s);
      AdvanceSplits(p, b, k);
      SameLast(Advance(p, PrefixSteps(b, k)), p, (b + k) % 256, b);
      if k % 256 == 0 {
        var m := k / 256;
        assert PrefixSteps(b, k) == 255 * m && (b + k) % 256 == b;
        Period(p, 255 * m);
        Cancel255(n, m);
        Scale256(Pow256(n), m);
      } else {
        if Divides(256 * Pow256(n), k) {
          NotAMultiple(Pow256(n), k);
        }
      }
    }
  }

  lemma SmallIsNoMultiple(d: nat, k: nat)
    requires 0 < k < d
    ensures !Divides(d, k)
  {
    if Divides(d, k) {
      var q :| k == q * d;
      SmallMultiple(d, q);
    }
  }

  /** No nonce repeats before all of its length have been used. */
  lemma NoncesDiffer(s: seq<Byte>, i: nat, j: nat)
    requires i < j < i + Pow256(|s|)
    ensures Advance(s, i) != Advance(s, j)
  {
    AdvanceAdd(s, i, j - i);
    Period(Advance(s, i), j - i);
    SmallIsNoMultiple(Pow256(|s|), j - i);
  }

  lemma {:induction false} NextInjective(s: seq<Byte>, t: seq<Byte>)
    requires |s| == |t| && Next(s, true) == Next(t, true)
    ensures s == t
    decreases |s|
  {
    if s != [] {
      var n := |s| - 1;
      SplitLast(s);
      SplitLast(t);
      OneMoreByte(s[..n], s[n]);
      OneMoreByte(t[..n], t[n]);
      SameLast(if s[n] == 255 then s[..n] else Next(s[..n], true), if t[n] == 255 then t[..n] else Next(t[..n], true),
               Wrapped(s[n]), Wrapped(t[n]));
      if s[n] != 255 {
        NextInjective(s[..n], t[..n]);
      }
    }
  }

  // ----- The generator search -----

  /** Each round of the generator search hashes once, after one increment. */
  lemma {:induction false} RoundsAdvance(o: Oracle, seed: seq<Byte>, n: nat)
    requires o.Valid()
    ensures SproutAfter(o, seed, true, 32, n) == Advance(seed, n)
  {
    if n > 0 {
      RoundsAdvance(o, seed, n - 1);
      OneRound(o, Advance(seed, n - 1));
    }
  }

  lemma OneRound(o: Oracle, sprout: seq<Byte>)
    requires o.Valid()
    ensures Expansion(o, sprout, true, [], 32).1 == Next(sprout, true)
  {
    var next := Next(sprout, true);
    var blob: seq<Byte> := [] + o.hash(next)[..32];
    assert |o.hash(next)| == 32 && |blob| == 32;
    assert Expansion(o, next, true, blob, 32).1 == next;
  }

  /** The generator search hashes a new nonce in every one of its first 256^n rounds. */
  lemma GeneratorRoundsDiffer(o: Oracle, seed: seq<Byte>, i: nat, j: nat)
    requires o.Valid() && i < j < i + Pow256(|seed|)
    ensures SproutAfter(o, seed, true, 32, i) != SproutAfter(o, seed, true, 32, j)
  {
    RoundsAdvance(o, seed, i);
    RoundsAdvance(o, seed, j);
    NoncesDiffer(seed, i, j);
  }

}
