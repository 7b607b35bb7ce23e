/** What the tables and the steps of Rijndael are, in the field of 256 elements: the substitution, the mixing of the
    columns, the shifted rows and the constants of the key schedule. */
module RijndaelField {
  import opened Bytes
  import opened Rijndael
  import opened RijndaelTables
  import opened RijndaelKeys

  // ---------------------------------------------------------------- products of bytes

  /** The sum of x^i a for the bits i >= k of b, divided by x^k. */
  function ProductFrom(a: Byte, b: Byte, k: nat): (r: Byte)
    requires k <= 8
    decreases 8 - k
  {
    if k == 8 then NoBits() else Xor8(Times2(ProductFrom(a, b, k + 1)), if b[k] then a else NoBits())
  }

  /** a times b as polynomials, modulo x^8 + x^4 + x^3 + x + 1. */
  function Product(a: Byte, b: Byte): (r: Byte)
  {
    ProductFrom(a, b, 0)
  }

  /** The byte of a small number. */
  function Constant(b0: bool, b1: bool, b2: bool, b3: bool): (b: Byte)
  {
    [b0, b1, b2, b3, false, false, false, false]
  }

  // ---------------------------------------------------------------- machine words and bytes

  function Has(v: bv8, m: bv8): (b: bool)
  {
    v & m != 0
  }

  lemma BitsAre(v: bv8)
    ensures var b := ByteOf(v);
            && b[0] == Has(v, 0x01) && b[1] == Has(v, 0x02) && b[2] == Has(v, 0x04) && b[3] == Has(v, 0x08)
            && b[4] == Has(v, 0x10) && b[5] == Has(v, 0x20) && b[6] == Has(v, 0x40) && b[7] == Has(v, 0x80)
  {}

  lemma DoubleBits(v: bv8)
    ensures Has(Double(v), 0x01) == Has(v, 0x80) && Has(Double(v), 0x02) == (Has(v, 0x01) != Has(v, 0x80))
    ensures Has(Double(v), 0x04) == Has(v, 0x02) && Has(Double(v), 0x08) == (Has(v, 0x04) != Has(v, 0x80))
    ensures Has(Double(v), 0x10) == (Has(v, 0x08) != Has(v, 0x80)) && Has(Double(v), 0x20) == Has(v, 0x10)
    ensures Has(Double(v), 0x40) == Has(v, 0x20) && Has(Double(v), 0x80) == Has(v, 0x40)
  {}

  lemma SumBit(v: bv8, w: bv8, m: bv8)
    requires m == 0x01 || m == 0x02 || m == 0x04 || m == 0x08 || m == 0x10 || m == 0x20 || m == 0x40 || m == 0x80
    ensures Has(v ^ w, m) == (Has(v, m) != Has(w, m))
  {}

  lemma SameByte(a: Byte, b: Byte)
    requires a[0] == b[0] && a[1] == b[1] && a[2] == b[2] && a[3] == b[3] && a[4] == b[4] && a[5] == b[5] && a[6] == b[6] && a[7] == b[7]
    ensures a == b
  {
    forall i | 0 <= i < 8 ensures a[i] == b[i] {}
  }

  lemma TwiceBits(b: Byte)
    ensures var c := Times2(b);
            && c[0] == b[7] && c[1] == (b[0] != b[7]) && c[2] == b[1] && c[3] == (b[2] != b[7])
            && c[4] == (b[3] != b[7]) && c[5] == b[4] && c[6] == b[5] && c[7] == b[6]
  {
    Times2Bit(b, 0);
    Times2Bit(b, 1);
    Times2Bit(b, 2);
    Times2Bit(b, 3);
    Times2Bit(b, 4);
    Times2Bit(b, 5);
    Times2Bit(b, 6);
    Times2Bit(b, 7);
    hide Times2, Times3;
  }

  lemma XorBits(a: Byte, b: Byte)
    ensures forall i :: 0 <= i < 8 ==> Xor8(a, b)[i] == (a[i] != b[i])
  {}

  lemma DoubleIs(v: bv8)
    ensures ByteOf(Double(v)) == Times2(ByteOf(v))
  {
    hide *;
    BitsAre(v);
    BitsAre(Double(v));
    DoubleBits(v);
    TwiceBits(ByteOf(v));
    SameByte(ByteOf(Double(v)), Times2(ByteOf(v)));
  }

  lemma SumIs(v: bv8, w: bv8)
    ensures ByteOf(v ^ w) == Xor8(ByteOf(v), ByteOf(w))
  {
    hide *;
    BitsAre(v);
    BitsAre(w);
    BitsAre(v ^ w);
    SumBit(v, w, 0x01);
    SumBit(v, w, 0x02);
    SumBit(v, w, 0x04);
    SumBit(v, w, 0x08);
    SumBit(v, w, 0x10);
    SumBit(v, w, 0x20);
    SumBit(v, w, 0x40);
    SumBit(v, w, 0x80);
    XorBits(ByteOf(v), ByteOf(w));
    SameByte(ByteOf(v ^ w), Xor8(ByteOf(v), ByteOf(w)));
  }

  lemma MaskedIs(q: bv8, p: bv8)
    ensures ByteOf(0) == NoBits()
    ensures ByteOf(Masked(q, 0x80, p)) == (if ByteOf(q)[7] then ByteOf(p) else NoBits())
    ensures ByteOf(Masked(q, 0x40, p)) == (if ByteOf(q)[6] then ByteOf(p) else NoBits())
    ensures ByteOf(Masked(q, 0x20, p)) == (if ByteOf(q)[5] then ByteOf(p) else NoBits())
    ensures ByteOf(Masked(q, 0x10, p)) == (if ByteOf(q)[4] then ByteOf(p) else NoBits())
    ensures ByteOf(Masked(q, 0x08, p)) == (if ByteOf(q)[3] then ByteOf(p) else NoBits())
    ensures ByteOf(Masked(q, 0x04, p)) == (if ByteOf(q)[2] then ByteOf(p) else NoBits())
    ensures ByteOf(Masked(q, 0x02, p)) == (if ByteOf(q)[1] then ByteOf(p) else NoBits())
    ensures ByteOf(Masked(q, 0x01, p)) == (if ByteOf(q)[0] then ByteOf(p) else NoBits())
  {}

  lemma ProductStep(a: Byte, b: Byte, k: nat, r: bv8, s: bv8, m: bv8)
    requires k < 8 && ByteOf(r) == ProductFrom(a, b, k + 1) && s == Next(r, m)
    requires ByteOf(m) == if b[k] then a else NoBits()
    ensures ByteOf(s) == ProductFrom(a, b, k)
  {
    DoubleIs(r);
    SumIs(Double(r), m);
    hide ByteOf, Double, Times2, Xor8;
  }

  lemma ProductStarts(a: Byte, b: Byte, m: bv8)
    requires ByteOf(m) == if b[7] then a else NoBits()
    ensures ByteOf(m) == ProductFrom(a, b, 7)
  {
    assert Times2(NoBits()) == NoBits();
    assert forall c: Byte :: Xor8(NoBits(), c) == c;
    hide Times2, Xor8, ByteOf;
  }

  /** The product in machine words is the product. */
  lemma MulIs(p: bv8, q: bv8)
    ensures ByteOf(Mul(p, q)) == Product(ByteOf(p), ByteOf(q))
  {
    hide *;
    MulOpen(p, q);
    var a, b := ByteOf(p), ByteOf(q);
    MaskedIs(q, p);
    var m7, m6, m5, m4 := Masked(q, 0x80, p), Masked(q, 0x40, p), Masked(q, 0x20, p), Masked(q, 0x10, p);
    var m3, m2, m1, m0 := Masked(q, 0x08, p), Masked(q, 0x04, p), Masked(q, 0x02, p), Masked(q, 0x01, p);
    ProductStarts(a, b, m7);
    var r6 := Next(m7, m6);
    ProductStep(a, b, 6, m7, r6, m6);
    var r5 := Next(r6, m5);
    ProductStep(a, b, 5, r6, r5, m5);
    var r4 := Next(r5, m4);
    ProductStep(a, b, 4, r5, r4, m4);
    var r3 := Next(r4, m3);
    ProductStep(a, b, 3, r4, r3, m3);
    var r2 := Next(r3, m2);
    ProductStep(a, b, 2, r3, r2, m2);
    var r1 := Next(r2, m1);
    ProductStep(a, b, 1, r2, r1, m1);
    ProductStep(a, b, 0, r1, Next(r1, m0), m0);
    ProductOpen(a, b);
  }

  lemma MulOpen(p: bv8, q: bv8)
    ensures Mul(p, q) == Next(Next(Next(Next(Next(Next(Next(Masked(q, 0x80, p), Masked(q, 0x40, p)), Masked(q, 0x20, p)),
                Masked(q, 0x10, p)), Masked(q, 0x08, p)), Masked(q, 0x04, p)), Masked(q, 0x02, p)), Masked(q, 0x01, p))
  {
    hide Double, Masked, Next;
  }

  lemma ProductOpen(a: Byte, b: Byte)
    ensures Product(a, b) == ProductFrom(a, b, 0)
  {}

  // ---------------------------------------------------------------- the substitution

  /** Bit i of the affine map of y: the sum of five bits of y, and of a bit of 0x63. */
  function AffineBit(y: Byte, i: nat): (b: bool)
    requires i < 8
  {
    (y[i] != y[(i + 4) % 8]) != ((y[(i + 5) % 8] != y[(i + 6) % 8]) != (y[(i + 7) % 8] != (i == 0 || i == 1 || i == 5 || i == 6)))
  }

  lemma AffineIs(v: bv8, i: nat)
    requires i < 8
    ensures ByteOf(Affine(v))[i] == AffineBit(ByteOf(v), i)
  {
    AffineBits(v);
    var y, s := ByteOf(v), ByteOf(Affine(v));
    hide ByteOf, Affine;
    if i == 0 {} else if i == 1 {} else if i == 2 {} else if i == 3 {} else if i == 4 {} else if i == 5 {} else if i == 6 {} else {}
  }

  lemma AffineBits(v: bv8)
    ensures var y, s := ByteOf(v), ByteOf(Affine(v));
            && s[0] == !((y[0] != y[4]) != ((y[5] != y[6]) != y[7])) && s[1] == !((y[1] != y[5]) != ((y[6] != y[7]) != y[0]))
            && s[2] == ((y[2] != y[6]) != ((y[7] != y[0]) != y[1])) && s[3] == ((y[3] != y[7]) != ((y[0] != y[1]) != y[2]))
            && s[4] == ((y[4] != y[0]) != ((y[1] != y[2]) != y[3])) && s[5] == !((y[5] != y[1]) != ((y[2] != y[3]) != y[4]))
            && s[6] == !((y[6] != y[2]) != ((y[3] != y[4]) != y[5])) && s[7] == ((y[7] != y[3]) != ((y[4] != y[5]) != y[6]))
  {
    hide *;
    BitsAre(v);
    BitsAre(Affine(v));
    AffineLow(v, Affine(v));
    AffineHigh(v, Affine(v));
  }

  lemma AffineLow(y: bv8, s: bv8)
    requires s == Affine(y)
    ensures Has(s, 0x01) == !((Has(y, 0x01) != Has(y, 0x10)) != ((Has(y, 0x20) != Has(y, 0x40)) != Has(y, 0x80)))
    ensures Has(s, 0x02) == !((Has(y, 0x02) != Has(y, 0x20)) != ((Has(y, 0x40) != Has(y, 0x80)) != Has(y, 0x01)))
    ensures Has(s, 0x04) == ((Has(y, 0x04) != Has(y, 0x40)) != ((Has(y, 0x80) != Has(y, 0x01)) != Has(y, 0x02)))
    ensures Has(s, 0x08) == ((Has(y, 0x08) != Has(y, 0x80)) != ((Has(y, 0x01) != Has(y, 0x02)) != Has(y, 0x04)))
  {}

  lemma AffineHigh(y: bv8, s: bv8)
    requires s == Affine(y)
    ensures Has(s, 0x10) == ((Has(y, 0x10) != Has(y, 0x01)) != ((Has(y, 0x02) != Has(y, 0x04)) != Has(y, 0x08)))
    ensures Has(s, 0x20) == !((Has(y, 0x20) != Has(y, 0x02)) != ((Has(y, 0x04) != Has(y, 0x08)) != Has(y, 0x10)))
    ensures Has(s, 0x40) == !((Has(y, 0x40) != Has(y, 0x04)) != ((Has(y, 0x08) != Has(y, 0x10)) != Has(y, 0x20)))
    ensures Has(s, 0x80) == ((Has(y, 0x80) != Has(y, 0x08)) != ((Has(y, 0x10) != Has(y, 0x20)) != Has(y, 0x40)))
  {}

  /** y is the inverse of x in the field, where zero stands for its own. */
  ghost predicate InverseOf(x: Byte, y: Byte)
  {
    if x == NoBits() then y == NoBits() else Product(x, y) == Constant(true, false, false, false)
  }

  /** The substituted byte is the affine map of the inverse. */
  lemma SubByteAffine(x: Byte)
    ensures exists y :: InverseOf(x, y) && forall i :: 0 <= i < 8 ==> SubByte(x)[i] == AffineBit(y, i)
  {
    hide *;
    var u := InverseWord(x);
    var y := ByteOf(u);
    InverseIs(x);
    SubByteIs(x);
    forall i | 0 <= i < 8 ensures SubByte(x)[i] == AffineBit(y, i) { AffineIs(u, i); }
  }

  /** The inverse that the entry of the table determines. */
  function InverseWord(x: Byte): (u: bv8)
  {
    var v := WordOf(x);
    Unaffine(Sbox(v >> 4, v & 0xf))
  }

  lemma SubByteIs(x: Byte)
    ensures SubByte(x) == ByteOf(Affine(InverseWord(x)))
  {
    hide Sbox, Affine, Unaffine, WordOf, ByteOf;
    var v := WordOf(x);
    AffineBack(Sbox(v >> 4, v & 0xf));
  }

  lemma InverseIs(x: Byte)
    ensures InverseOf(x, ByteOf(InverseWord(x)))
  {
    hide Sbox, Unaffine, Mul, WordOf, ByteOf, Product, NoBits, Constant;
    var v, u := WordOf(x), InverseWord(x);
    SboxAffine(v);
    ByteOfWord(x);
    ZeroIs(v);
    ZeroIs(u);
    OneIs();
    MulIs(v, u);
  }

  lemma ZeroIs(v: bv8)
    ensures ByteOf(v) == NoBits() <==> v == 0
  {
    WordOfByte(v);
    WordOfByte(0);
    MaskedIs(0, 0);
    hide ByteOf, WordOf;
  }

  lemma OneIs()
    ensures ByteOf(1) == Constant(true, false, false, false)
  {}

  // ---------------------------------------------------------------- the mixing of the columns

  function Times(b: bool, a: Byte): (r: Byte)
  {
    if b then a else NoBits()
  }

  lemma Nothing(a: Byte)
    ensures Times2(NoBits()) == NoBits() && Xor8(NoBits(), a) == a == Xor8(a, NoBits())
  {}

  /** The product with a number below sixteen. */
  lemma SmallProduct(a: Byte, b0: bool, b1: bool, b2: bool, b3: bool)
    ensures Product(a, Constant(b0, b1, b2, b3))
         == Xor8(Times2(Xor8(Times2(Xor8(Times2(Times(b3, a)), Times(b2, a))), Times(b1, a))), Times(b0, a))
  {
    var c := Constant(b0, b1, b2, b3);
    Nothing(NoBits());
    Nothing(Times(b3, a));
    hide Times2, Xor8;
    assert ProductFrom(a, c, 7) == Xor8(Times2(NoBits()), NoBits());
    assert ProductFrom(a, c, 6) == NoBits();
    assert ProductFrom(a, c, 5) == NoBits();
    assert ProductFrom(a, c, 4) == NoBits();
    assert ProductFrom(a, c, 3) == Times(b3, a);
    assert ProductFrom(a, c, 2) == Xor8(Times2(Times(b3, a)), Times(b2, a));
    assert ProductFrom(a, c, 1) == Xor8(Times2(Xor8(Times2(Times(b3, a)), Times(b2, a))), Times(b1, a));
  }

  lemma FactorProducts(a: Byte)
    ensures Product(a, Constant(true, false, false, false)) == a
    ensures Product(a, Constant(false, true, false, false)) == Times2(a)
    ensures Product(a, Constant(true, true, false, false)) == Times3(a)
  {
    SmallProduct(a, true, false, false, false);
    SmallProduct(a, false, true, false, false);
    SmallProduct(a, true, true, false, false);
    Nothing(a);
    Nothing(NoBits());
    Nothing(Times2(a));
    Times2Linear(a, a);
    Swapped(a, Times2(a));
    hide Product, Times2, Times3, Xor8, NoBits;
  }

  lemma Swapped(a: Byte, b: Byte)
    ensures Xor8(a, b) == Xor8(b, a)
  {}

  lemma InverseFactorProducts(a: Byte)
    ensures Product(a, Constant(false, true, true, true)) == Times14(a)
    ensures Product(a, Constant(true, true, false, true)) == Times11(a)
    ensures Product(a, Constant(true, false, true, true)) == Times13(a)
    ensures Product(a, Constant(true, false, false, true)) == Times9(a)
  {
    SmallProduct(a, false, true, true, true);
    SmallProduct(a, true, true, false, true);
    SmallProduct(a, true, false, true, true);
    SmallProduct(a, true, false, false, true);
    Nothing(a);
    Nothing(Times2(a));
    Nothing(Times2(Times2(a)));
    Nothing(Times2(Times2(Times2(a))));
    Nothing(Times2(Xor8(Times2(a), a)));
    Nothing(Times2(Times2(Xor8(Times2(a), a))));
    Nothing(Times2(Xor8(Times2(Xor8(Times2(a), a)), a)));
    hide Product, Times2, Xor8, NoBits;
  }

  /** A mixed byte is 2 a + 3 b + c + d, and back it is 14 a + 11 b + 13 c + 9 d. */
  lemma MixedByte(a: Byte, b: Byte, c: Byte, d: Byte)
    ensures MixByte(a, b, c, d)
         == Xor8(Xor8(Product(a, Constant(false, true, false, false)), Product(b, Constant(true, true, false, false))),
                 Xor8(Product(c, Constant(true, false, false, false)), Product(d, Constant(true, false, false, false))))
    ensures InvMixByte(a, b, c, d)
         == Xor8(Xor8(Xor8(Product(a, Constant(false, true, true, true)), Product(b, Constant(true, true, false, true))),
                      Product(c, Constant(true, false, true, true))), Product(d, Constant(true, false, false, true)))
  {
    FactorProducts(a);
    FactorProducts(b);
    FactorProducts(c);
    FactorProducts(d);
    InverseFactorProducts(a);
    InverseFactorProducts(b);
    InverseFactorProducts(c);
    InverseFactorProducts(d);
    hide Product, Times2, Times3, Times14, Times11, Times13, Times9, Xor8, Constant;
  }

  // ---------------------------------------------------------------- the shifted rows and the constants

  /** Rows 1, 2 and 3 are shifted by one, two and three columns, and by one, three and four in a block of eight. */
  lemma ShiftedRow(s: State, nb: nat, r: nat, c: nat)
    requires BlockSize(nb) && r < 4 && c < nb
    ensures 4 <= nb <= 8 && r + 4 * c < 32
    ensures var k := if nb < 8 then r else if r < 2 then r else r + 1;
            r + 4 * ((c + k) % nb) < 32 && SubShift(s, nb)[r + 4 * c] == SubByte(s[r + 4 * ((c + k) % nb)])
  {
    hide SubByte, Source;
    SourceIs(nb, r, c);
    var k := Shift(nb, r);
    Wrapped(c + k, nb);
    assert r + 4 * c < 4 * nb;
  }

  /** The constants of the key schedule are the powers of x. */
  lemma RconDoubles(i: nat)
    requires i < 28
    ensures Rcon(0) == 1 && Rcon(i + 1) == Double(Rcon(i))
  {}
}
