/** The checksum of the list benchmark: bits are taken and shifted out at the low end, so the lowest bit of a
    word is the highest coefficient of its polynomial. */
module ListCrc {
  import opened BinaryAlgebra
  import opened CrcDivision
  import opened Numerals
  import opened OutputBits
  import opened Words
  import BitMatrix
  import ControlBitsCheck

  /** A 16-bit word, read without a sign. */
  type Half = x: int | 0 <= x < 0x1_0000

  /** The feedback, x^15 + x^2 + 1 without its leading coefficient. */
  function Feedback(): (p: Word)
  {
    seq(16, i => i == 0 || i == 13 || i == 15)
  }

  /** The checksum after the bits of m. */
  function Checked(crc: Half, m: Bits): (c: Half)
    ensures LowBits(c, 16) == Fed(Feedback(), LowBits(crc, 16), m)
  {
    var r := Fed(Feedback(), LowBits(crc, 16), m);
    NumberBound(r);
    Pow2Values();
    BitsOfNumber(r);
    Number(r)
  }

  /** crcu16(newval, crc), crc16(newval, crc) */
  function Crc16(newval: Half, crc: Half): (c: Half)
  {
    Checked(crc, LowBits(newval, 16))
  }

  lemma SameBits(a: Half, b: Half)
    requires LowBits(a, 16) == LowBits(b, 16)
    ensures a == b
  {
    Pow2Values();
    NumberOfBits(a, 16);
    NumberOfBits(b, 16);
  }

  /** Exactly the checksum is left over by the division of the bits by x^16 + x^15 + x^2 + 1. */
  lemma CheckedExactly(crc: Half, m: Bits, c: Half)
    ensures LeftOver(15, 2, Dividend(LowBits(crc, 16), m), LowBits(c, 16)) <==> c == Checked(crc, m)
  {
    assert Exponents(Feedback(), 15, 2);
    hide *;
    FedExactly(Feedback(), 15, 2, LowBits(crc, 16), m, LowBits(c, 16));
    if LowBits(c, 16) == LowBits(Checked(crc, m), 16) { SameBits(c, Checked(crc, m)); }
  }

  lemma CheckedTwo(crc: Half, a: Bits, b: Bits)
    ensures Checked(Checked(crc, a), b) == Checked(crc, a + b)
  {
    hide *;
    FedTwo(Feedback(), LowBits(crc, 16), a, b);
    SameBits(Checked(Checked(crc, a), b), Checked(crc, a + b));
  }

  // ---------------------------------------------------------------- one bit

  lemma {:induction false} XorBits(w: nat, a: nat, b: nat, k: nat)
    requires k < w
    ensures BitOf(Xor(w, a, b), k) == (BitOf(a, k) + BitOf(b, k)) % 2
    decreases w
  {
    var r := Xor(w, a, b);
    assert r / 2 == Xor(w - 1, a / 2, b / 2) && r % 2 == if a % 2 == b % 2 then 0 else 1;
    if k > 0 { XorBits(w - 1, a / 2, b / 2, k - 1); }
  }

  lemma MaskBits(k: nat)
    requires k < 16
    ensures BitOf(0x4002, k) == if k == 1 || k == 14 then 1 else 0
  {
    Pow2Values();
    assert Pow2(14) == 0x4000 && Pow2(1) == 2;
    BitMatrix.BitOfConcat(1, 2, 14, k);
    BitMatrix.BitOfConcat(1, 0, 1, k);
    OneBitOf(if k < 14 then k - 1 else k - 14);
    ControlBitsCheck.ZeroBit(k);
  }

  lemma OneBitOf(k: int)
    ensures k >= 0 ==> BitOf(1, k) == if k == 0 then 1 else 0
  {
    if k > 0 { ControlBitsCheck.ZeroBit(k - 1); }
  }

  /** crc >>= 1; crc |= 0x8000 or crc &= 0x7fff */
  lemma ShiftedBits(x: Half, carry: bool, k: nat)
    requires k < 16
    ensures BitOf(x / 2 + if carry then 0x8000 else 0, k) == if k == 15 then (if carry then 1 else 0) else BitOf(x, k + 1)
  {
    Pow2Values();
    assert Pow2(15) == 0x8000;
    BitMatrix.BitOfConcat(if carry then 1 else 0, x / 2, 15, k);
    assert BitOf(x, k + 1) == BitOf(x / 2, k);
    assert BitOf(if carry then 1 else 0, 0) == if carry then 1 else 0;
  }

  /** The step that the loop makes for one bit. */
  lemma OneBit(crc: Half, x: Half, bit: bool, c: Half)
    requires var carry := (crc % 2 == 1) != bit;
             x == (if carry then Xor(16, crc, 0x4002) else crc) && c == x / 2 + if carry then 0x8000 else 0
    ensures LowBits(c, 16) == Step(Feedback(), Plus(LowBits(crc, 16), [bit] + Zero(15)))
  {
    hide *;
    var carry := (crc % 2 == 1) != bit;
    var r := LowBits(crc, 16);
    AddedBit(crc, bit);
    var s: Word := Plus(r, [bit] + Zero(15));
    StepBits(s, carry);
    var t, u := LowBits(c, 16), Step(Feedback(), s);
    forall k | 0 <= k < 16 ensures t[k] == u[k] {
      LowBit(c, k);
      if k < 15 { LowBit(crc, k + 1); }
      ShiftedBits(x, carry, k);
      if carry && k < 15 {
        XorBits(16, crc, 0x4002, k + 1);
        MaskBits(k + 1);
        BitSmall(crc, k + 1);
      }
    }
  }

  lemma BitSmall(v: nat, k: nat)
    ensures BitOf(v, k) < 2
  {}

  lemma LowBit(v: nat, k: nat)
    requires k < 16
    ensures LowBits(v, 16)[k] == (BitOf(v, k) == 1)
  {}

  lemma AddedBit(crc: Half, bit: bool)
    ensures var s: Word := Plus(LowBits(crc, 16), [bit] + Zero(15));
            s[0] == ((crc % 2 == 1) != bit) && forall k :: 0 < k < 16 ==> s[k] == LowBits(crc, 16)[k]
  {
    assert BitOf(crc, 0) == crc % 2;
    hide BitOf;
  }

  lemma StepBits(s: Word, carry: bool)
    requires s[0] == carry
    ensures forall k :: 0 <= k < 16 ==>
              Step(Feedback(), s)[k] == if k == 15 then carry else s[k + 1] != (carry && (k == 0 || k == 13))
  {
    var l, f := ShiftLeft(s), Feedback();
    assert forall k :: 0 <= k < 16 ==> l[k] == if k == 15 then false else s[k + 1];
    assert forall k :: 0 <= k < 16 ==> f[k] == (k == 0 || k == 13 || k == 15);
    hide ShiftLeft, Feedback;
  }

  // ---------------------------------------------------------------- the code

  /** One bit more of the checked bits. */
  lemma CheckedBit(crc0: Half, m: Bits, i: nat, crc: Half, x: Half, c: Half)
    requires i < |m| && crc == Checked(crc0, m[..i])
    requires var carry := (crc % 2 == 1) != m[i];
             x == (if carry then Xor(16, crc, 0x4002) else crc) && c == x / 2 + if carry then 0x8000 else 0
    ensures c == Checked(crc0, m[..i + 1])
  {
    OneBit(crc, x, m[i], c);
    assert m[..i + 1][..i] == m[..i];
    hide LowBits, Number, Step, Feedback, Xor, Plus;
    SameBits(c, Checked(crc0, m[..i + 1]));
  }

  lemma ShiftedData(data: nat, n: nat)
    requires n > 0
    ensures LowBits(data, n)[0] == (data % 2 == 1) && LowBits(data / 2, n - 1) == LowBits(data, n)[1..]
  {}

  lemma XorSmall(crc: Half)
    ensures Xor(16, crc, 0x4002) < 0x1_0000
  {
    hide *;
    XorBounds(16, crc, 0x4002);
    Pow2Values();
  }

  /** crcu8(data, crc) */
  method Crcu8(data0: nat, crc0: Half) returns (crc: Half)
    requires data0 < 0x100
    ensures crc == Checked(crc0, LowBits(data0, 8))
  {
    hide *;
    var data := data0;
    crc := crc0;
    ghost var m := LowBits(data0, 8);
    CheckedNone(crc0);
    assert m[..0] == [] && m[0..] == m;
    var i := 0;
    while i < 8
      invariant 0 <= i <= 8 && crc == Checked(crc0, m[..i]) && LowBits(data, 8 - i) == m[i..]
    {
      ShiftedData(data, 8 - i);
      ghost var was := crc;
      var x16 := if data % 2 == crc % 2 then 0 else 1;
      data := data / 2;
      if x16 == 1 {
        XorSmall(crc);
        crc := Xor(16, crc, 0x4002);
        CheckedBit(crc0, m, i, was, crc, crc / 2 + 0x8000);
        crc := crc / 2 + 0x8000;
      } else {
        CheckedBit(crc0, m, i, was, crc, crc / 2);
        crc := crc / 2;
      }
      i := i + 1;
    }
    assert m[..8] == m;
  }

  lemma ByteBits(v: Half)
    ensures LowBits(v % 0x100, 8) + LowBits(v / 0x100, 8) == LowBits(v, 16)
  {
    var l, h, w := LowBits(v % 0x100, 8), LowBits(v / 0x100, 8), LowBits(v, 16);
    hide BitOf;
    forall k | 0 <= k < 16 ensures (l + h)[k] == w[k] {
      ByteBit(v, k);
      if k < 8 { assert (l + h)[k] == l[k]; } else { assert (l + h)[k] == h[k - 8]; }
    }
  }

  lemma ByteBit(v: nat, k: nat)
    ensures BitOf(v, k) == if k < 8 then BitOf(v % 0x100, k) else BitOf(v / 0x100, k - 8)
  {
    hide *;
    BitMatrix.Pow2Of32();
    BitMatrix.BitOfConcat(v / 0x100, v % 0x100, 8, k);
  }

  /** crcu16(newval, crc), the low byte first */
  method Crcu16(newval: Half, crc0: Half) returns (crc: Half)
    ensures crc == Crc16(newval, crc0)
  {
    ByteBits(newval);
    CheckedTwo(crc0, LowBits(newval % 0x100, 8), LowBits(newval / 0x100, 8));
    hide LowBits, Checked;
    crc := Crcu8(newval % 0x100, crc0);
    crc := Crcu8(newval / 0x100, crc);
  }

  lemma CheckedNone(crc: Half)
    ensures Checked(crc, []) == crc
  {
    hide LowBits, Number;
    SameBits(Checked(crc, []), crc);
  }
}
