/** The byte layout of compressed forms: fixed-width little-endian fields, whose split
    between the large fields and the common factor g is itself part of the data. */
module BqfcBytes {
  import opened Integers
  import opened Words
  import opened Euclid
  import opened Bqfc
  import opened Wrappers
  import Forms

  const FORM_SIZE := 100
  const IS_1: Byte := 4
  const IS_GEN: Byte := 8

  // ----- Little-endian numbers -----

  function ToBytes(n: nat): (s: seq<Byte>) {
    if n == 0 then [] else [n % 256] + ToBytes(n / 256)
  }

  function FromBytes(s: seq<Byte>): nat {
    if s == [] then 0 else s[0] + 256 * FromBytes(s[1..])
  }

  function Zeros(n: nat): (s: seq<Byte>)
    ensures |s| == n
  {
    seq(n, i => 0)
  }

  function Padded(n: nat, size: nat): (s: seq<Byte>)
    requires |ToBytes(n)| <= size
    ensures |s| == size
  {
    ToBytes(n) + Zeros(size - |ToBytes(n)|)
  }

  lemma {:induction false} ZerosAreZero(n: nat)
    ensures FromBytes(Zeros(n)) == 0
  {
    if n > 0 {
      assert Zeros(n)[1..] == Zeros(n - 1);
      ZerosAreZero(n - 1);
    }
  }

  /** Reading a padded number back. */
  lemma {:induction false} PaddedReads(n: nat, size: nat)
    requires |ToBytes(n)| <= size
    ensures FromBytes(Padded(n, size)) == n
  {
    if n == 0 {
      assert Padded(n, size) == Zeros(size);
      ZerosAreZero(size);
    } else {
      assert Padded(n, size)[1..] == Padded(n / 256, size - 1);
      PaddedReads(n / 256, size - 1);
    }
  }

  /** A number takes at most k bytes just when it is below 256^k. */
  lemma {:induction false} ByteLength(n: nat, k: nat)
    ensures |ToBytes(n)| <= k <==> n < Pow256(k)
  {
    if n > 0 && k > 0 {
      ByteLength(n / 256, k - 1);
      assert n == n / 256 * 256 + n % 256;
    }
  }

  lemma {:induction false} Pow256Add(m: nat, n: nat)
    ensures Pow256(m + n) == Pow256(m) * Pow256(n)
  {
    if m > 0 {
      Pow256Add(m - 1, n);
      Reassociate(256, Pow256(m - 1), Pow256(n));
    }
  }

  // ----- The layout -----

  /** The discriminant length in units of 32 bits, rounded up. */
  function WordsOf(dBits: nat): nat {
    (dBits + 31) / 32
  }

  /** The size of g in bytes, minus one. */
  function ExtraBytes(g: nat): nat {
    if g == 0 then 0 else |ToBytes(g)| - 1
  }

  /** Every field fits its width. */
  predicate Fits(c: Compressed, w: nat) {
    && w <= 32 && c.a >= 0 && c.g >= 0 && c.b0 >= 0
    && var e := ExtraBytes(c.g);
    && e < w
    && |ToBytes(c.a)| <= 2 * w - e && |ToBytes(Abs(c.t))| <= w - e
    && |ToBytes(c.g)| <= e + 1 && |ToBytes(c.b0)| <= e + 1
  }

  lemma FactorWidth(g: nat)
    ensures |ToBytes(g)| <= ExtraBytes(g) + 1
  {
  }

  function Flags(c: Compressed): Byte {
    (if c.bSign then 1 else 0) + (if c.t < 0 then 2 else 0)
  }

  function Signed(flags: Byte, t: nat): int {
    if flags / 2 % 2 == 1 then -(t as int) else t
  }

  predicate BSign(flags: Byte) {
    flags % 2 == 1
  }

  lemma FlagsRead(c: Compressed)
    ensures Signed(Flags(c), Abs(c.t)) == c.t && BSign(Flags(c)) == c.bSign
  {
  }

  /** The fields one after the other, and whatever follows them. */
  function Layout(c: Compressed, w: nat, tail: seq<Byte>): (s: seq<Byte>)
    requires Fits(c, w)
    ensures |s| == 3 * w + 4 + |tail|
  {
    [Flags(c), ExtraBytes(c.g)] + Body(c, w, tail)
  }

  function Body(c: Compressed, w: nat, tail: seq<Byte>): (s: seq<Byte>)
    requires Fits(c, w)
    ensures |s| == 3 * w + 2 + |tail|
  {
    Padded(c.a, 2 * w - ExtraBytes(c.g)) + AfterA(c, w, tail)
  }

  function AfterA(c: Compressed, w: nat, tail: seq<Byte>): (s: seq<Byte>)
    requires Fits(c, w)
    ensures |s| == w + 2 + ExtraBytes(c.g) + |tail|
  {
    Padded(Abs(c.t), w - ExtraBytes(c.g)) + AfterT(c, w, tail)
  }

  function AfterT(c: Compressed, w: nat, tail: seq<Byte>): (s: seq<Byte>)
    requires Fits(c, w)
    ensures |s| == 2 * ExtraBytes(c.g) + 2 + |tail|
  {
    Padded(c.g, ExtraBytes(c.g) + 1) + AfterG(c, w, tail)
  }

  function AfterG(c: Compressed, w: nat, tail: seq<Byte>): (s: seq<Byte>)
    requires Fits(c, w)
    ensures |s| == ExtraBytes(c.g) + 1 + |tail|
  {
    Padded(c.b0, ExtraBytes(c.g) + 1) + tail
  }

  /** Writes a number of at most size bytes at the offset, padded with zeros. */
  method Export(out: array<Byte>, offset: nat, size: nat, n: nat) returns (offset': nat)
    requires offset + size <= out.Length && |ToBytes(n)| <= size
    modifies out
    ensures offset' == offset + size
    ensures out[..offset'] == old(out[..offset]) + Padded(n, size)
    ensures out[offset'..] == old(out[offset'..])
  {
    var rest, bytes := n, 0;
    while rest != 0
      invariant 0 <= bytes <= |ToBytes(n)| && ToBytes(n)[bytes..] == ToBytes(rest)
      invariant out[..offset + bytes] == old(out[..offset]) + ToBytes(n)[..bytes]
      invariant out[offset + size..] == old(out[offset + size..])
      decreases rest
    {
      out[offset + bytes] := rest % 256;
      assert ToBytes(n)[bytes..][1..] == ToBytes(n)[bytes + 1..];
      assert ToBytes(n)[bytes] == ToBytes(n)[bytes..][0];
      rest, bytes := rest / 256, bytes + 1;
    }
    ghost var written := bytes;
    assert ToBytes(n)[..bytes] == ToBytes(n);
    while bytes < size
      invariant written <= bytes <= size
      invariant out[..offset + bytes] == old(out[..offset]) + ToBytes(n) + Zeros(bytes - written)
      invariant out[offset + size..] == old(out[offset + size..])
    {
      out[offset + bytes] := 0;
      bytes := bytes + 1;
    }
    return offset + size;
  }

  /** The same behind the bytes written so far, with the end of the array left alone. */
  method ExportField(out: array<Byte>, offset: nat, size: nat, n: nat, ghost before: seq<Byte>, ghost tail: seq<Byte>)
    returns (offset': nat)
    requires offset + size + |tail| <= out.Length && |ToBytes(n)| <= size
    requires out[..offset] == before && out[out.Length - |tail|..] == tail
    modifies out
    ensures offset' == offset + size
    ensures out[..offset'] == before + Padded(n, size) && out[out.Length - |tail|..] == tail
  {
    ghost var k := out.Length - |tail| - (offset + size);
    assert out[out.Length - |tail|..] == out[offset + size..][k..];
    offset' := Export(out, offset, size, n);
    assert out[out.Length - |tail|..] == out[offset'..][k..];
  }

  lemma Nest(h: seq<Byte>, a: seq<Byte>, t: seq<Byte>, g: seq<Byte>, b: seq<Byte>, tail: seq<Byte>)
    ensures h + a + t + g + b + tail == h + (a + (t + (g + (b + tail))))
  {
  }

  lemma NestedFields(c: Compressed, w: nat, h: seq<Byte>, tail: seq<Byte>)
    requires Fits(c, w)
    ensures var e := ExtraBytes(c.g);
            h + Padded(c.a, 2 * w - e) + Padded(Abs(c.t), w - e) + Padded(c.g, e + 1) + Padded(c.b0, e + 1) + tail
            == h + Body(c, w, tail)
  {
    var e := ExtraBytes(c.g);
    Nest(h, Padded(c.a, 2 * w - e), Padded(Abs(c.t), w - e), Padded(c.g, e + 1), Padded(c.b0, e + 1), tail);
  }

  /** Bit 0 of the first byte is the sign of b and bit 1 that of t, and there is no other; after
      the size byte come a, t, g and b0 in their widths. */
  lemma FieldOrder(c: Compressed, w: nat, tail: seq<Byte>)
    requires Fits(c, w)
    ensures var e := ExtraBytes(c.g);
            Layout(c, w, tail)[2..]
            == Padded(c.a, 2 * w - e) + Padded(Abs(c.t), w - e) + Padded(c.g, e + 1) + Padded(c.b0, e + 1) + tail
    ensures Layout(c, w, tail)[0] % 2 == 1 <==> c.bSign
    ensures Layout(c, w, tail)[0] / 2 % 2 == 1 <==> c.t < 0
    ensures Layout(c, w, tail)[0] < 4
  {
    NestedFields(c, w, [], tail);
    assert [] + Body(c, w, tail) == Body(c, w, tail);
    assert [] + Padded(c.a, 2 * w - ExtraBytes(c.g)) == Padded(c.a, 2 * w - ExtraBytes(c.g));
  }

  /** The bytes of a number of one byte and of a number of two. */
  lemma ShortNumbers(x: Byte, y: Byte)
    requires y > 0
    ensures ToBytes(y) == [y] && ToBytes(x + 256 * y) == [x, y]
  {
    assert (x + 256 * y) / 256 == y && (x + 256 * y) % 256 == x;
    assert ToBytes(y / 256) == [];
  }

  /** A string byte by byte: b negative (bit 0), t negative (bit 1), a factor of two bytes, and
      then a, t, g and b0, the low byte first. */
  lemma LayoutExample(w: nat)
    requires w == 2
    ensures var c := Compressed(0x0201, -5, 0x0403, 0x0605, true);
            Fits(c, w) && Layout(c, w, []) == [3, 1, 1, 2, 0, 5, 3, 4, 5, 6]
    ensures var c := Compressed(0x0201, -5, 0x0403, 0x0605, false); Fits(c, w) && Layout(c, w, [])[0] == 2
    ensures var c := Compressed(0x0201, 5, 0x0403, 0x0605, true); Fits(c, w) && Layout(c, w, [])[0] == 1
  {
    ShortNumbers(1, 2);
    ShortNumbers(3, 4);
    ShortNumbers(5, 6);
    ShortNumbers(0, 5);
    var c := Compressed(0x0201, -5, 0x0403, 0x0605, true);
    FieldOrder(c, w, []);
    assert Padded(c.a, 3) == [1, 2, 0];
    assert Padded(5, 1) == [5] && Padded(c.g, 2) == [3, 4] && Padded(c.b0, 2) == [5, 6];
    assert Layout(c, w, []) == [3, 1] + Layout(c, w, [])[2..];
  }

  method SerializeOnly(out: array<Byte>, c: Compressed, dBits: nat)
    requires Fits(c, WordsOf(dBits)) && out.Length >= 3 * WordsOf(dBits) + 4
    modifies out
    ensures out[..] == Layout(c, WordsOf(dBits), old(out[3 * WordsOf(dBits) + 4..]))
  {
    var w := WordsOf(dBits);
    ghost var tail := out[3 * w + 4..];
    var e: nat := ExtraBytes(c.g);
    WriteHeader(out, Flags(c), e, tail);
    WriteFields(out, c, w, e, [Flags(c), e], tail);
  }

  /** The four fields behind the header. */
  method WriteFields(out: array<Byte>, c: Compressed, w: nat, e: nat, ghost h: seq<Byte>, ghost tail: seq<Byte>)
    requires Fits(c, w) && e == ExtraBytes(c.g) && |h| == 2 && 3 * w + 4 + |tail| == out.Length
    requires out[..2] == h && out[out.Length - |tail|..] == tail
    modifies out
    ensures out[..] == h + Body(c, w, tail)
  {
    ghost var long := h + Padded(c.a, 2 * w - e) + Padded(Abs(c.t), w - e);
    var offset := WriteTwo(out, 2, 2 * w - e, c.a, w - e, Abs(c.t), h, tail);
    offset := WriteTwo(out, offset, e + 1, c.g, e + 1, c.b0, long, tail);
    Whole(out, offset, long + Padded(c.g, e + 1) + Padded(c.b0, e + 1), tail);
    NestedFields(c, w, h, tail);
  }

  method WriteHeader(out: array<Byte>, flags: Byte, e: Byte, ghost tail: seq<Byte>)
    requires out.Length >= 2 + |tail| && out[out.Length - |tail|..] == tail
    modifies out
    ensures out[..2] == [flags, e] && out[out.Length - |tail|..] == tail
  {
    out[0] := flags;
    out[1] := e;
  }

  lemma Whole(out: array<Byte>, offset: nat, front: seq<Byte>, tail: seq<Byte>)
    requires offset + |tail| == out.Length && out[..offset] == front && out[out.Length - |tail|..] == tail
    ensures out[..] == front + tail
  {
  }

  method WriteTwo(out: array<Byte>, offset: nat, size: nat, n: nat, size': nat, n': nat,
                  ghost before: seq<Byte>, ghost tail: seq<Byte>) returns (offset': nat)
    requires offset + size + size' + |tail| <= out.Length && |ToBytes(n)| <= size && |ToBytes(n')| <= size'
    requires out[..offset] == before && out[out.Length - |tail|..] == tail
    modifies out
    ensures offset' == offset + size + size'
    ensures out[..offset'] == before + Padded(n, size) + Padded(n', size') && out[out.Length - |tail|..] == tail
  {
    offset' := ExportField(out, offset, size, n, before, tail);
    offset' := ExportField(out, offset', size', n', before + Padded(n, size), tail);
  }

  // ----- Reading -----

  /** The number in the first size bytes, and what follows. */
  function ReadField(s: seq<Byte>, size: nat): (r: (nat, seq<Byte>))
    requires size <= |s|
    ensures |r.1| == |s| - size
  {
    (FromBytes(s[..size]), s[size..])
  }

  lemma ReadsBack(n: nat, size: nat, rest: seq<Byte>)
    requires |ToBytes(n)| <= size
    ensures ReadField(Padded(n, size) + rest, size) == (n, rest)
  {
    var s := Padded(n, size) + rest;
    assert s[..size] == Padded(n, size) && s[size..] == rest;
    PaddedReads(n, size);
  }

  /** The four numbers of a byte string with e extra bytes for g. */
  function ParsedFields(s: seq<Byte>, w: nat, e: nat): (r: (nat, nat, nat, nat))
    requires |s| >= 3 * w + 2 && e < w
  {
    var a := ReadField(s, 2 * w - e);
    var t := ReadField(a.1, w - e);
    var (g, b0) := ShortFields(t.1, e);
    (a.0, t.0, g, b0)
  }

  function ShortFields(s: seq<Byte>, e: nat): (r: (nat, nat))
    requires |s| >= 2 * e + 2
  {
    var g := ReadField(s, e + 1);
    var b := ReadField(g.1, e + 1);
    (g.0, b.0)
  }

  /** What the fields of a byte string say; None when g would leave no room for t. */
  function Parsed(s: seq<Byte>, w: nat): Option<Compressed>
    requires |s| >= 3 * w + 4
  {
    if s[1] >= w then None
    else
      var (a, t, g, b0) := ParsedFields(s[2..], w, s[1]);
      Some(Compressed(a, Signed(s[0], t), g, b0, BSign(s[0])))
  }

  method Import(str: array<Byte>, offset: nat, size: nat, ghost rest: seq<Byte>) returns (n: nat, offset': nat)
    requires offset + size <= str.Length && str[offset..] == rest
    ensures offset' == offset + size && (n, str[offset'..]) == ReadField(rest, size)
  {
    assert str[offset..offset + size] == str[offset..][..size];
    n := FromBytes(str[offset..offset + size]);
    offset' := offset + size;
    assert str[offset + size..] == str[offset..][size..];
  }

  method ImportFields(str: array<Byte>, w: nat, e: nat) returns (a: nat, t: nat, g: nat, b0: nat)
    requires str.Length >= 3 * w + 4 && e < w
    ensures (a, t, g, b0) == ParsedFields(str[2..], w, e)
  {
    var offset: nat := 2;
    a, offset := Import(str, offset, 2 * w - e, str[2..]);
    t, offset := Import(str, offset, w - e, str[offset..]);
    g, b0 := ImportShort(str, offset, e);
  }

  method ImportShort(str: array<Byte>, offset: nat, e: nat) returns (g: nat, b0: nat)
    requires str.Length >= offset + 2 * e + 2
    ensures (g, b0) == ShortFields(str[offset..], e)
  {
    var next;
    g, next := Import(str, offset, e + 1, str[offset..]);
    b0, next := Import(str, next, e + 1, str[next..]);
  }

  method DeserializeOnly(str: array<Byte>, dBits: nat) returns (res: Option<Compressed>)
    requires str.Length >= 3 * WordsOf(dBits) + 4
    ensures res == Parsed(str[..], WordsOf(dBits))
  {
    var w := WordsOf(dBits);
    if str[1] >= w {
      return None;
    }
    var a, t, g, b0 := ImportFields(str, w, str[1]);
    assert str[..][2..] == str[2..];
    res := Some(Compressed(a, Signed(str[0], t), g, b0, BSign(str[0])));
  }

  lemma BodyReads(c: Compressed, w: nat, tail: seq<Byte>)
    requires Fits(c, w)
    ensures ParsedFields(Body(c, w, tail), w, ExtraBytes(c.g)) == (c.a, Abs(c.t), c.g, c.b0)
  {
    var e := ExtraBytes(c.g);
    ReadsBack(c.a, 2 * w - e, AfterA(c, w, tail));
    ReadsBack(Abs(c.t), w - e, AfterT(c, w, tail));
    ShortRead(c, w, tail);
  }

  lemma ShortRead(c: Compressed, w: nat, tail: seq<Byte>)
    requires Fits(c, w)
    ensures ShortFields(AfterT(c, w, tail), ExtraBytes(c.g)) == (c.g, c.b0)
  {
    var e := ExtraBytes(c.g);
    ReadsBack(c.g, e + 1, AfterG(c, w, tail));
    ReadsBack(c.b0, e + 1, tail);
  }

  /** Every compressed form that fits is read back exactly, whatever follows it. */
  lemma LayoutReads(c: Compressed, w: nat, tail: seq<Byte>)
    requires Fits(c, w)
    ensures Parsed(Layout(c, w, tail), w) == Some(c)
  {
    assert Layout(c, w, tail)[2..] == Body(c, w, tail);
    BodyReads(c, w, tail);
    FlagsRead(c);
  }

  // ----- Which forms fit -----

  /** What the widths are made for: a below half the discriminant's length and a cofactor t
      below a quarter of it. */
  ghost predicate Short(a: int, b: int, w: nat) {
    && 1 <= w <= 32 && 0 < a < Pow256(2 * w)
    && (a != b ==> Abs(StopOf(a, b).co1) < Pow256(w))
  }

  /** The stored quotient has as many bytes as the common factor; for |b| < a it always fits. */
  predicate QuotientFits(b: int, a': int, g: int)
    requires a' > 0
  {
    g <= 1 || |ToBytes(Abs(b) / a')| <= |ToBytes(g)|
  }

  /** The leading coefficient of a reduced form of a w-word discriminant is short enough. */
  lemma ReducedIsShort(f: Forms.Form, w: nat)
    requires Forms.Reduced(f) && Forms.PositiveDefinite(f) && -Forms.Disc(f) < Pow256(4 * w)
    ensures -f.a < f.b <= f.a < Pow256(2 * w)
  {
    Pow256Add(2 * w, 2 * w);
    SquareMonotone(Pow256(2 * w), f.a);
    ProductMonotone(f.a, f.a, f.c);
    SquareMonotone(Abs(f.b), f.a);
    Reassociate(4, f.a, f.c);
    AbsSquare(f.b);
  }

  lemma DividedWidth(n: nat, n': nat, g: nat, k: nat, e: nat)
    requires n' * g == n < Pow256(k) && Pow256(e) <= g && e <= k
    ensures |ToBytes(n')| <= k - e
  {
    ByteLength(n', k - e);
    Pow256Add(k - e, e);
    Smaller(n', g, Pow256(k - e), Pow256(e));
  }

  lemma Smaller(n: nat, g: nat, p: nat, q: nat)
    requires n * g < p * q && q <= g
    ensures n < p
  {
    if n >= p {
      ProductMonotone(n, q, g);
      ProductMonotone(q, p, n);
    }
  }

  lemma FactorSize(g: nat)
    requires g >= 1
    ensures Pow256(ExtraBytes(g)) <= g
  {
    ByteLength(g, ExtraBytes(g));
  }

  lemma QuotientBelow(b: nat, a': nat, g: nat)
    requires a' > 0 && b < a' * g
    ensures 0 <= b / a' < g
  {
    DivideBelow(b, a', g);
  }

  lemma AbsQuotient(t: int, t': int, g: nat)
    requires t' * g == t
    ensures Abs(t') * g == Abs(t)
  {
    NegateProduct(t', g);
    ProductGrows(t', g);
    ProductGrows(-t', g);
  }

  /** A factor of a number is no longer than the number. */
  lemma FactorBelow(n: nat, n': nat, g: nat, k: nat)
    requires n' * g == n && 0 < n < Pow256(k)
    ensures ExtraBytes(g) < k
  {
    PositiveFactor(g, n');
    ProductGrows(n', g);
    ByteLength(g, k);
  }

  /** If a and the full cofactor fit, so do all the fields, however long g is, but for the
      quotient of a b that exceeds a. */
  lemma CompressionFits(c: Compressed, a: int, b: int, w: nat)
    requires Short(a, b, w) && IsCompression(c, a, b) && (a != b ==> c.t != 0 || a == 1)
    ensures a == b ==> Fits(c, w)
    ensures a != b ==> (Fits(c, w) <==> QuotientFits(b, c.a, c.g))
    ensures Abs(b) < a ==> Fits(c, w)
  {
    if a == b {
      ByteLength(a, 2 * w);
      assert ToBytes(0) == [];
    } else {
      FieldsFit(c, a, b, -StopOf(a, b).co1, w);
      if Abs(b) < a && c.g > 1 {
        QuotientWidth(Abs(b), c.a, c.g);
      }
    }
  }

  lemma FieldsFit(c: Compressed, a: int, b: int, t: int, w: nat)
    requires 1 <= w <= 32 && 0 < a < Pow256(2 * w) && Abs(t) < Pow256(w)
    requires Fields(c, a, b, t, c.g) && (c.t != 0 || a == 1)
    ensures Fits(c, w) <==> QuotientFits(b, c.a, c.g)
  {
    var e := ExtraBytes(c.g);
    AbsQuotient(t, c.t, c.g);
    ProductGrows(Abs(c.t), c.g);
    FactorSize(c.g);
    FactorWidth(c.g);
    if c.t != 0 {
      FactorBelow(Abs(t), Abs(c.t), c.g, w);
    } else {
      UnitProduct(c.a, c.g);
      assert ToBytes(1) == [1];
    }
    DividedWidth(a, c.a, c.g, 2 * w, e);
    DividedWidth(Abs(t), Abs(c.t), c.g, w, e);
    StoredWidth(c, b);
  }

  lemma StoredWidth(c: Compressed, b: int)
    requires c.g >= 1 && c.a > 0 && c.b0 == StoredQuotient(b, c.a, c.g)
    ensures c.b0 >= 0 && (|ToBytes(c.b0)| <= ExtraBytes(c.g) + 1 <==> QuotientFits(b, c.a, c.g))
  {
    DivideMonotone(0, Abs(b), c.a);
    assert ToBytes(0) == [];
  }

  lemma QuotientWidth(b: nat, a': nat, g: nat)
    requires a' > 0 && b < a' * g
    ensures b / a' >= 0 && |ToBytes(b / a')| <= ExtraBytes(g) + 1 && QuotientFits(b, a', g)
  {
    QuotientBelow(b, a', g);
    FactorWidth(g);
    ByteLength(g, ExtraBytes(g) + 1);
    ByteLength(b / a', ExtraBytes(g) + 1);
  }

  /** The cofactor fits as soon as the partial gcd has not stepped past the square root. */
  lemma CofactorFits(a: int, b: int, w: nat)
    requires -a < b < a < Pow256(2 * w) && StopOf(a, b).r2 > ISqrt(a)
    ensures Abs(StopOf(a, b).co1) < Pow256(w)
  {
    var e := StopOf(a, b);
    StopInvariant(a, b);
    CofactorTimesRemainder(a, Abs(b), e);
    Pow256Add(w, w);
    BelowRoot(a, Abs(e.co1), e.r2, ISqrt(a), Pow256(w));
  }

  lemma StopInvariant(a: int, b: int)
    requires -a < b < a
    ensures Invariant(a, Abs(b), StopOf(a, b))
  {
    IterateInvariant(a, Abs(b), XgcdPartial.StepsTaken(Start(a, Abs(b)), ISqrt(a)));
  }

  lemma BelowRoot(a: nat, t: nat, r: nat, s: nat, p: nat)
    requires t * r <= a < (s + 1) * (s + 1) && r > s && s * s <= a < p * p
    ensures t < p
  {
    SquareMonotone(p, s);
    if t >= p {
      ProductMonotone(t, s + 1, r);
      ProductMonotone(s + 1, s + 1, t);
    }
  }

  // ----- The encoding of a form -----

  predicate IsSpecial(a: int, b: int) {
    b == 1 && a <= 2
  }

  ghost predicate CompressedAs(c: Compressed, a: int, b: int)
    requires Compressible(a, b)
  {
    IsCompression(c, a, b) && (a != b && (Abs(b) < a || a > 1) ==> exists root :: Compresses(c, a, b, root))
  }

  /** c is the compression of (a, b), and fits. */
  ghost predicate FitsAs(c: Compressed, a: int, b: int, w: nat) {
    Compressible(a, b) && CompressedAs(c, a, b) && Fits(c, w)
  }

  /** The pairs that have an encoding; on the others the encoder would run out of its
      fields, which nothing in it checks. */
  ghost predicate Encodable(a: int, b: int, w: nat) {
    IsSpecial(a, b) || exists c :: FitsAs(c, a, b, w)
  }

  /** For a and cofactor within the widths: the quotient of b fits, as it always does for
      |b| < a. */
  ghost predicate HasRoom(a: int, b: int)
    requires a > 0
  {
    IsSpecial(a, b) || a == b || Abs(b) < a || QuotientFits(b, LeadingPart(a, b), CommonFactor(a, b))
  }

  function SpecialBytes(a: int): (s: seq<Byte>) {
    [if a == 2 then IS_GEN else IS_1] + Zeros(FORM_SIZE - 1)
  }

  /** s is the encoding of the form that starts with (a, b). */
  ghost predicate IsEncoding(s: seq<Byte>, a: int, b: int, w: nat) {
    if IsSpecial(a, b) then s == SpecialBytes(a)
    else exists c :: FitsAs(c, a, b, w) && s == Layout(c, w, Zeros(FORM_SIZE - 4 - 3 * w))
  }

  /** A pair has at most one encoding, and none exactly if it is not encodable. */
  lemma EncodingUnique(s: seq<Byte>, s': seq<Byte>, a: int, b: int, w: nat)
    requires IsEncoding(s, a, b, w)
    ensures Encodable(a, b, w)
    ensures IsEncoding(s', a, b, w) ==> s == s'
  {
    if !IsSpecial(a, b) {
      var c :| FitsAs(c, a, b, w) && s == Layout(c, w, Zeros(FORM_SIZE - 4 - 3 * w));
      if IsEncoding(s', a, b, w) {
        var c' :| FitsAs(c', a, b, w) && s' == Layout(c', w, Zeros(FORM_SIZE - 4 - 3 * w));
        CompressionUnique(c, c', a, b);
      }
    }
  }

  method ZeroFrom(out: array<Byte>, start: nat)
    requires start <= out.Length
    modifies out
    ensures out[..] == old(out[..start]) + Zeros(out.Length - start)
  {
    for i := start to out.Length
      invariant out[..i] == old(out[..start]) + Zeros(i - start)
    {
      out[i] := 0;
    }
    assert out[..out.Length] == out[..];
  }

  /** Writes the encoding of the pair. Not ok stands for fields that are too short for it,
      where the original writes past them. */
  method Serialize(out: array<Byte>, a: int, b: int, dBits: nat) returns (ok: bool)
    requires out.Length == FORM_SIZE && WordsOf(dBits) <= 32
    modifies out
    ensures ok <==> Encodable(a, b, WordsOf(dBits))
    ensures ok ==> IsEncoding(out[..], a, b, WordsOf(dBits))
    ensures Short(a, b, WordsOf(dBits)) ==> (ok <==> HasRoom(a, b))
  {
    if b == 1 && a <= 2 {
      out[0] := if a == 2 then IS_GEN else IS_1;
      assert out[..1] == [out[0]];
      ZeroFrom(out, 1);
      return true;
    }
    if a <= 0 && !(a == 0 && b == 0) {
      return false;
    }
    var c := Compress(a, b);
    FitsOrNot(c, a, b, WordsOf(dBits));
    if !Fits(c, WordsOf(dBits)) {
      return false;
    }
    assert FitsAs(c, a, b, WordsOf(dBits));
    SerializePadded(out, c, dBits);
    ok := true;
  }

  /** Whether a pair is encodable is decided by its one compression. */
  lemma FitsOrNot(c: Compressed, a: int, b: int, w: nat)
    requires Compressible(a, b) && CompressedAs(c, a, b) && !IsSpecial(a, b)
    ensures Encodable(a, b, w) <==> Fits(c, w)
    ensures Short(a, b, w) ==> (Fits(c, w) <==> HasRoom(a, b))
  {
    if Encodable(a, b, w) {
      var c' :| FitsAs(c', a, b, w);
      CompressionUnique(c, c', a, b);
    }
    if Fits(c, w) {
      assert FitsAs(c, a, b, w);
    }
    if Short(a, b, w) {
      CompressionFits(c, a, b, w);
      if a != b {
        LeadingPartIs(c, a, b);
      }
    }
  }

  method SerializePadded(out: array<Byte>, c: Compressed, dBits: nat)
    requires out.Length == FORM_SIZE && Fits(c, WordsOf(dBits))
    modifies out
    ensures out[..] == Layout(c, WordsOf(dBits), Zeros(FORM_SIZE - 4 - 3 * WordsOf(dBits)))
  {
    var w := WordsOf(dBits);
    SerializeOnly(out, c, dBits);
    LayoutTail(c, w, old(out[3 * w + 4..]), out[..]);
    ZeroFrom(out, 3 * w + 4);
  }

  /** What follows the fields can be replaced. */
  lemma LayoutTail(c: Compressed, w: nat, tail: seq<Byte>, s: seq<Byte>)
    requires Fits(c, w) && s == Layout(c, w, tail)
    ensures forall tail' :: s[..3 * w + 4] + tail' == Layout(c, w, tail')
  {
    var e := ExtraBytes(c.g);
    var h := [Flags(c), e];
    var front := h + Padded(c.a, 2 * w - e) + Padded(Abs(c.t), w - e) + Padded(c.g, e + 1) + Padded(c.b0, e + 1);
    NestedFields(c, w, h, tail);
    assert s == front + tail && |front| == 3 * w + 4;
    Front(front, tail);
    forall tail'
      ensures s[..3 * w + 4] + tail' == Layout(c, w, tail')
    {
      NestedFields(c, w, h, tail');
    }
  }

  lemma Front(x: seq<Byte>, y: seq<Byte>)
    ensures (x + y)[..|x|] == x && (x + y)[|x|..] == y
  {
  }

  // ----- Decoding -----

  lemma SpecialFlags(c: Compressed)
    ensures Flags(c) / 4 % 4 == 0
  {
  }

  /** The flags of the two special forms are never set in any other encoding. */
  lemma FirstByte(s: seq<Byte>, a: int, b: int, w: nat)
    requires IsEncoding(s, a, b, w)
    ensures |s| == FORM_SIZE && (HasFlag(s[0]) <==> IsSpecial(a, b))
    ensures IsSpecial(a, b) ==> s[0] == (if a == 2 then 8 else 4) && forall i :: 1 <= i < FORM_SIZE ==> s[i] == 0
    ensures !IsSpecial(a, b) ==> s[0] < 4
  {
    if !IsSpecial(a, b) {
      var c :| FitsAs(c, a, b, w) && s == Layout(c, w, Zeros(FORM_SIZE - 4 - 3 * w));
      SpecialFlags(c);
    }
  }

  predicate HasFlag(first: Byte) {
    first / 4 % 4 != 0
  }

  lemma EncodedFields(s: seq<Byte>, a: int, b: int, w: nat)
    requires IsEncoding(s, a, b, w) && !IsSpecial(a, b)
    ensures |s| == FORM_SIZE && Compressible(a, b)
    ensures Parsed(s, w).Some? && CompressedAs(Parsed(s, w).value, a, b)
  {
    var c :| FitsAs(c, a, b, w) && s == Layout(c, w, Zeros(FORM_SIZE - 4 - 3 * w));
    LayoutReads(c, w, Zeros(FORM_SIZE - 4 - 3 * w));
  }

  /** s is the encoding of a pair that survives decompression. */
  ghost predicate EncodesSurvivor(s: seq<Byte>, a: int, b: int, w: nat, D: int)
    requires |s| >= 3 * w + 4
  {
    IsEncoding(s, a, b, w) && Parsed(s, w).Some? && Survives(Parsed(s, w).value, a, b, D)
  }

  /** The fields of s are decompressed to (a, b). */
  ghost predicate DecodesTo(s: seq<Byte>, a: int, b: int, w: nat, D: int)
    requires |s| >= 3 * w + 4
  {
    Parsed(s, w).Some? && Decompresses(D, Parsed(s, w).value, a, b)
  }

  /** On the encoding of a pair the decoder gets the pair exactly if it survives. */
  lemma SurvivorsDecode(s: seq<Byte>, a: int, b: int, w: nat, D: int)
    requires IsEncoding(s, a, b, w) && !IsSpecial(a, b)
    ensures |s| == FORM_SIZE >= 3 * w + 4 && (DecodesTo(s, a, b, w, D) <==> EncodesSurvivor(s, a, b, w, D))
  {
    EncodedFields(s, a, b, w);
    var c :| FitsAs(c, a, b, w) && s == Layout(c, w, Zeros(FORM_SIZE - 4 - 3 * w));
    SurvivesIff(D, Parsed(s, w).value, a, b);
  }

  datatype Comparison = Same | Different | OutOfFields

  /** Whether the string is the one that the form would be encoded to. */
  method VerifyCanon(a: int, b: int, str: array<Byte>, dBits: nat) returns (r: Comparison)
    requires WordsOf(dBits) <= 32
    ensures r.Same? <==> IsEncoding(str[..], a, b, WordsOf(dBits))
    ensures r.OutOfFields? <==> !Encodable(a, b, WordsOf(dBits))
  {
    var canon := new Byte[FORM_SIZE];
    var ok := Serialize(canon, a, b, dBits);
    if IsEncoding(str[..], a, b, WordsOf(dBits)) {
      EncodingUnique(str[..], canon[..], a, b, WordsOf(dBits));
    }
    if !ok {
      return OutOfFields;
    }
    r := if canon[..] == str[..] then Same else Different;
  }

  /** What becomes of a byte string: refused, accepted as a pair, or decoded to a pair whose
      fields are too long to be written, so that the comparison with its encoding is undefined. */
  datatype Decoded = Rejected | Accepted(a: int, b: int) | Undefined(a: int, b: int)

  /** Decodes any byte string, and compares it with the encoding of what it got. Strings with
      the flag of a special form are accepted whatever follows; of all others exactly the
      encodings of pairs that survive decompression. */
  method Deserialize(D: int, str: array<Byte>, dBits: nat) returns (res: Decoded)
    requires WordsOf(dBits) <= 32
    ensures str.Length != FORM_SIZE ==> res == Rejected
    ensures str.Length == FORM_SIZE && HasFlag(str[0]) ==> res == Accepted(if str[0] / 8 % 2 == 1 then 2 else 1, 1)
    ensures str.Length == FORM_SIZE && !HasFlag(str[0]) ==>
              forall a, b :: res == Accepted(a, b) <==> EncodesSurvivor(str[..], a, b, WordsOf(dBits), D)
    ensures str.Length == FORM_SIZE && !HasFlag(str[0]) ==>
              forall a, b :: res == Undefined(a, b) <==>
                             DecodesTo(str[..], a, b, WordsOf(dBits), D) && !Encodable(a, b, WordsOf(dBits))
    ensures res.Undefined? ==> str.Length == FORM_SIZE && !HasFlag(str[0])
  {
    var w := WordsOf(dBits);
    if str.Length != FORM_SIZE {
      return Rejected;
    }
    if str[0] / 4 % 4 != 0 {
      return Accepted(if str[0] / 8 % 2 == 1 then 2 else 1, 1);
    }
    forall a, b | IsEncoding(str[..], a, b, w)
      ensures DecodesTo(str[..], a, b, w, D) <==> EncodesSurvivor(str[..], a, b, w, D)
    {
      FirstByte(str[..], a, b, w);
      SurvivorsDecode(str[..], a, b, w, D);
    }
    var c := DeserializeOnly(str, dBits);
    if c.None? {
      return Rejected;
    }
    var form := Decompress(D, c.value);
    if form.None? {
      return Rejected;
    }
    res := Compare(form.value.0, form.value.1, str, dBits);
  }

  /** The last step of decoding. */
  method Compare(a: int, b: int, str: array<Byte>, dBits: nat) returns (res: Decoded)
    requires WordsOf(dBits) <= 32
    ensures res == if IsEncoding(str[..], a, b, WordsOf(dBits)) then Accepted(a, b)
                   else if Encodable(a, b, WordsOf(dBits)) then Rejected else Undefined(a, b)
  {
    var same := VerifyCanon(a, b, str, dBits);
    if IsEncoding(str[..], a, b, WordsOf(dBits)) {
      EncodingUnique(str[..], str[..], a, b, WordsOf(dBits));
    }
    match same {
      case Same => res := Accepted(a, b);
      case Different => res := Rejected;
      case OutOfFields => res := Undefined(a, b);
    }
  }

  /** Through the bytes and back, for any pair whose a and cofactor are within the widths: it
      comes back exactly if it would without the bytes and its quotient has room. With
      |b| > a that takes a common factor that compression divides out. */
  method ThroughBytes(a: int, b: int, D: int, dBits: nat) returns (res: Decoded)
    requires Short(a, b, WordsOf(dBits)) && Divides(a, b * b - D)
    ensures res == Accepted(a, b) <==> ComesBack(a, b) && HasRoom(a, b)
    ensures -a < b <= a ==> (res == Accepted(a, b) <==> Recoverable(a, b))
  {
    var str := new Byte[FORM_SIZE];
    var ok := Serialize(str, a, b, dBits);
    if a == b {
      EqualIsRecoverable(a);
    }
    if !ok {
      return Rejected;
    }
    FirstByte(str[..], a, b, WordsOf(dBits));
    if IsSpecial(a, b) {
      assert 0 * a + 1 * b == 1;
      CoprimeIsRecoverable(a, b);
    } else {
      EncodedFields(str[..], a, b, WordsOf(dBits));
      SurvivorsComeBack(Parsed(str[..], WordsOf(dBits)).value, a, b, D);
    }
    res := Deserialize(D, str, dBits);
  }

  /** A string of zeros is the encoding of the pair (0, 0), and decodes to it. */
  lemma ZeroPairIsEncoded(w: nat, D: int)
    requires 1 <= w <= 32
    ensures IsEncoding(Zeros(FORM_SIZE), 0, 0, w) && !HasFlag(Zeros(FORM_SIZE)[0])
    ensures Survives(Compressed(0, 0, 0, 0, false), 0, 0, D)
  {
    var c := Compressed(0, 0, 0, 0, false);
    assert ToBytes(0) == [];
    assert FitsAs(c, 0, 0, w);
    assert Layout(c, w, Zeros(FORM_SIZE - 4 - 3 * w)) == Zeros(FORM_SIZE);
  }

}
