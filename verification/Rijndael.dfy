/** The Rijndael cipher for blocks and keys of 128, 192 and 256 bits: its steps on a state of bytes,
    and the inverse of each of them. */
module Rijndael {
  import opened BinaryAlgebra
  import opened Bytes
  import opened OutputBits
  import opened Numerals
  import opened RijndaelTables
  import ControlBitsCheck
  import Arithmetic

  // ---------------------------------------------------------------- bytes

  function Bits8(v: nat): (b: Byte)
  {
    LowBits(v, 8)
  }

  function Flag(c: bool, m: bv8): (r: bv8)
  {
    if c then m else 0
  }

  /** The byte as a machine word, and back. */
  function WordOf(b: Byte): (v: bv8)
  {
    Flag(b[0], 1) | Flag(b[1], 2) | Flag(b[2], 4) | Flag(b[3], 8) | Flag(b[4], 16) | Flag(b[5], 32) | Flag(b[6], 64) | Flag(b[7], 128)
  }

  function ByteOf(v: bv8): (b: Byte)
  {
    [v & 1 != 0, v & 2 != 0, v & 4 != 0, v & 8 != 0, v & 16 != 0, v & 32 != 0, v & 64 != 0, v & 128 != 0]
  }

  lemma ByteOfWord(b: Byte)
    ensures ByteOf(WordOf(b)) == b
  {}

  lemma WordOfByte(v: bv8)
    ensures WordOf(ByteOf(v)) == v
  {}

  /** Sbox[b >> 4][b & 0xf] */
  function SubByte(b: Byte): (r: Byte)
  {
    var v := WordOf(b);
    ByteOf(Sbox(v >> 4, v & 0xf))
  }

  function InvSubByte(b: Byte): (r: Byte)
  {
    var v := WordOf(b);
    ByteOf(InvSbox(v >> 4, v & 0xf))
  }

  lemma SubByteInverse(b: Byte)
    ensures InvSubByte(SubByte(b)) == b
  {
    hide Sbox, InvSbox, WordOf, ByteOf;
    var v := WordOf(b);
    TablesInverse(v);
    WordOfByte(Sbox(v >> 4, v & 0xf));
    ByteOfWord(b);
  }

  // ---------------------------------------------------------------- multiplication in the byte field

  /** The bits of 283, the polynomial x^8 + x^4 + x^3 + x + 1. */
  function Modulus(): (p: Bits)
    ensures |p| == 9
  {
    [true, true, false, true, true, false, false, false, true]
  }

  /** if ((x >> 8) == 1) x ^= 283; */
  function Reduce(x: Bits): (b: Byte)
    requires |x| == 9
  {
    if x[8] then Plus(x, Modulus())[..8] else x[..8]
  }

  /** x = b << 1, reduced */
  function Times2(b: Byte): (r: Byte)
  {
    Reduce([false] + b)
  }

  /** x = b; x ^= x << 1, reduced */
  function Times3(b: Byte): (r: Byte)
  {
    Reduce(Plus(b + [false], [false] + b))
  }

  lemma Times2Linear(a: Byte, b: Byte)
    ensures Times2(Xor8(a, b)) == Xor8(Times2(a), Times2(b)) && Times3(a) == Xor8(a, Times2(a))
  {
    forall i | 0 <= i < 8
      ensures Times2(Xor8(a, b))[i] == (Times2(a)[i] != Times2(b)[i]) && Times3(a)[i] == (a[i] != Times2(a)[i])
    {
      Times2Bit(a, i);
      Times2Bit(b, i);
      Times2Bit(Xor8(a, b), i);
    }
  }

  lemma Times2Bit(a: Byte, i: nat)
    requires i < 8
    ensures Times2(a)[i] == ((i > 0 && a[i - 1]) != (a[7] && Modulus()[i]))
    ensures Times3(a)[i] == (a[i] != ((i > 0 && a[i - 1]) != (a[7] && Modulus()[i])))
  {}

  /** The steps of the inverse for the factors 14, 11, 13 and 9. */
  function Times14(b: Byte): (r: Byte)
  {
    Times2(Xor8(Times2(Xor8(Times2(b), b)), b))
  }

  function Times11(b: Byte): (r: Byte)
  {
    Xor8(Times2(Xor8(Times2(Times2(b)), b)), b)
  }

  function Times13(b: Byte): (r: Byte)
  {
    Xor8(Times2(Times2(Xor8(Times2(b), b))), b)
  }

  function Times9(b: Byte): (r: Byte)
  {
    Xor8(Times2(Times2(Times2(b))), b)
  }

  /** The result for row i of a column, before the round key is added. */
  function MixByte(a: Byte, b: Byte, c: Byte, d: Byte): (r: Byte)
  {
    Xor8(Xor8(Times2(a), Times3(b)), Xor8(c, d))
  }

  function InvMixByte(a: Byte, b: Byte, c: Byte, d: Byte): (r: Byte)
  {
    Xor8(Xor8(Xor8(Times14(a), Times11(b)), Times13(c)), Times9(d))
  }

  /** b times 2, 4 and 8, and these of a sum. */
  function Twice(b: Byte, k: nat): (r: Byte)
    decreases k
  {
    if k == 0 then b else Times2(Twice(b, k - 1))
  }

  lemma TwiceIs(b: Byte)
    ensures Twice(b, 0) == b && Twice(b, 1) == Times2(b) && Twice(b, 2) == Times2(Times2(b))
    ensures Twice(b, 3) == Times2(Times2(Times2(b))) && Twice(b, 4) == Times2(Times2(Times2(Times2(b))))
    ensures Twice(Times2(b), 1) == Twice(b, 2) && Twice(Times2(b), 2) == Twice(b, 3) && Twice(Times2(b), 3) == Twice(b, 4)
  {
    hide Times2;
    assert Twice(b, 1) == Times2(Twice(b, 0));
    assert Twice(b, 2) == Times2(Twice(b, 1));
    assert Twice(b, 3) == Times2(Twice(b, 2));
    assert Twice(b, 4) == Times2(Twice(b, 3));
    var c := Times2(b);
    assert Twice(c, 1) == Times2(Twice(c, 0));
    assert Twice(c, 2) == Times2(Twice(c, 1));
    assert Twice(c, 3) == Times2(Twice(c, 2));
  }

  lemma {:induction false} TwiceLinear(a: Byte, b: Byte, k: nat)
    ensures Twice(Xor8(a, b), k) == Xor8(Twice(a, k), Twice(b, k))
    decreases k
  {
    hide Times2, Times3, Xor8;
    if k > 0 {
      TwiceLinear(a, b, k - 1);
      Times2Linear(Twice(a, k - 1), Twice(b, k - 1));
    }
  }

  /** The factors as sums of powers of two. */
  lemma FactorsAre(b: Byte)
    ensures Times14(b) == Xor8(Xor8(Twice(b, 3), Twice(b, 2)), Twice(b, 1))
    ensures Times11(b) == Xor8(Xor8(Twice(b, 3), Twice(b, 1)), b)
    ensures Times13(b) == Xor8(Xor8(Twice(b, 3), Twice(b, 2)), b)
    ensures Times9(b) == Xor8(Twice(b, 3), b)
  {
    TwiceIs(b);
    hide Times2, Times3, Xor8, Twice;
    var t := Times2(b);
    var u := Times2(t);
    Times2Linear(t, b);
    Times2Linear(Xor8(u, t), b);
    Times2Linear(u, t);
    Times2Linear(u, b);
  }

  lemma XorLaws(a: Byte, b: Byte, c: Byte)
    ensures Xor8(a, b) == Xor8(b, a) && Xor8(Xor8(a, b), c) == Xor8(a, Xor8(b, c))
    ensures Xor8(Xor8(a, b), b) == a && Xor8(a, Bits8(0)) == a && Xor8(a, a) == Bits8(0)
  {
    forall k | 0 <= k < 8 ensures !Bits8(0)[k] { ControlBitsCheck.ZeroBit(k); }
  }

  /** The powers of two times 2 a and 3 a. */
  lemma TwiceOfMultiples(a: Byte, k: nat)
    ensures Twice(Times2(a), k) == Twice(a, k + 1) && Twice(Times3(a), k) == Xor8(Twice(a, k), Twice(a, k + 1))
  {
    TwiceShifts(a, k);
    Times2Linear(a, a);
    TwiceLinear(a, Times2(a), k);
  }

  lemma {:induction false} TwiceShifts(a: Byte, k: nat)
    ensures Twice(Times2(a), k) == Twice(a, k + 1)
    decreases k
  {
    if k > 0 { TwiceShifts(a, k - 1); }
  }

  /** All factors of the inverse on the multiples of one byte, as sums of its powers of two. */
  lemma OneByte(a: Byte)
    ensures InvMixByte(Times2(a), a, a, Times3(a)) == a
    ensures InvMixByte(Times3(a), Times2(a), a, a) == Bits8(0)
    ensures InvMixByte(a, Times3(a), Times2(a), a) == Bits8(0)
    ensures InvMixByte(a, a, Times3(a), Times2(a)) == Bits8(0)
  {
    hide *;
    var d, t := Times2(a), Times3(a);
    FactorsAre(a);
    FactorsAre(d);
    FactorsAre(t);
    TwiceIs(a);
    TwiceOfMultiples(a, 0);
    TwiceOfMultiples(a, 1);
    TwiceOfMultiples(a, 2);
    TwiceOfMultiples(a, 3);
    TwiceZero(d);
    TwiceZero(t);
    InvMixByteIs(d, a, a, t);
    InvMixByteIs(t, d, a, a);
    InvMixByteIs(a, t, d, a);
    InvMixByteIs(a, a, t, d);
    Cancel(a, Twice(a, 1), Twice(a, 2), Twice(a, 3), Twice(a, 4));
  }

  lemma TwiceZero(b: Byte)
    ensures Twice(b, 0) == b
  {}

  lemma InvMixByteIs(a: Byte, b: Byte, c: Byte, d: Byte)
    ensures InvMixByte(a, b, c, d) == Xor8(Xor8(Xor8(Times14(a), Times11(b)), Times13(c)), Times9(d))
  {}

  /** The cancellations: p, q, r, s, u are 1, 2, 4, 8 and 16 times a byte. */
  lemma Cancel(p: Byte, q: Byte, r: Byte, s: Byte, u: Byte)
    ensures // 14 (2 a) + 11 a + 13 a + 9 (3 a) = a
      Xor8(Xor8(Xor8(Xor8(Xor8(u, s), r), Xor8(Xor8(s, q), p)), Xor8(Xor8(s, r), p)), Xor8(Xor8(s, u), Xor8(p, q))) == p
    ensures // 14 (3 a) + 11 (2 a) + 13 a + 9 a = 0
      Xor8(Xor8(Xor8(Xor8(Xor8(Xor8(s, u), Xor8(r, s)), Xor8(q, r)), Xor8(Xor8(u, r), q)), Xor8(Xor8(s, r), p)), Xor8(s, p)) == Bits8(0)
    ensures // 14 a + 11 (3 a) + 13 (2 a) + 9 a = 0
      Xor8(Xor8(Xor8(Xor8(Xor8(s, r), q), Xor8(Xor8(Xor8(s, u), Xor8(q, r)), Xor8(p, q))), Xor8(Xor8(u, s), q)), Xor8(s, p)) == Bits8(0)
    ensures // 14 a + 11 a + 13 (3 a) + 9 (2 a) = 0
      Xor8(Xor8(Xor8(Xor8(Xor8(s, r), q), Xor8(Xor8(s, q), p)), Xor8(Xor8(Xor8(s, u), Xor8(r, s)), Xor8(p, q))), Xor8(u, q)) == Bits8(0)
  {
    forall k | 0 <= k < 8 ensures !Bits8(0)[k] { ControlBitsCheck.ZeroBit(k); }
    hide Bits8;
  }

  lemma InvMixLinear(a: Byte, b: Byte, c: Byte, d: Byte, e: Byte, f: Byte, g: Byte, h: Byte)
    ensures InvMixByte(Xor8(a, e), Xor8(b, f), Xor8(c, g), Xor8(d, h)) == Xor8(InvMixByte(a, b, c, d), InvMixByte(e, f, g, h))
  {
    hide *;
    FactorLinear(a, e);
    FactorLinear(b, f);
    FactorLinear(c, g);
    FactorLinear(d, h);
    InvMixByteIs(a, b, c, d);
    InvMixByteIs(e, f, g, h);
    InvMixByteIs(Xor8(a, e), Xor8(b, f), Xor8(c, g), Xor8(d, h));
    RegroupEight(Times14(a), Times14(e), Times11(b), Times11(f), Times13(c), Times13(g), Times9(d), Times9(h));
  }

  lemma FactorLinear(a: Byte, b: Byte)
    ensures Times14(Xor8(a, b)) == Xor8(Times14(a), Times14(b)) && Times11(Xor8(a, b)) == Xor8(Times11(a), Times11(b))
    ensures Times13(Xor8(a, b)) == Xor8(Times13(a), Times13(b)) && Times9(Xor8(a, b)) == Xor8(Times9(a), Times9(b))
  {
    hide *;
    FactorsAre(a);
    FactorsAre(b);
    FactorsAre(Xor8(a, b));
    TwiceLinear(a, b, 1);
    TwiceLinear(a, b, 2);
    TwiceLinear(a, b, 3);
    RegroupSix(Twice(a, 3), Twice(b, 3), Twice(a, 2), Twice(b, 2), Twice(a, 1), Twice(b, 1));
    RegroupSix(Twice(a, 3), Twice(b, 3), Twice(a, 1), Twice(b, 1), a, b);
    RegroupSix(Twice(a, 3), Twice(b, 3), Twice(a, 2), Twice(b, 2), a, b);
  }

  lemma RegroupSix(a: Byte, b: Byte, c: Byte, d: Byte, e: Byte, f: Byte)
    ensures Xor8(Xor8(Xor8(a, b), Xor8(c, d)), Xor8(e, f)) == Xor8(Xor8(Xor8(a, c), e), Xor8(Xor8(b, d), f))
    ensures Xor8(Xor8(a, b), Xor8(e, f)) == Xor8(Xor8(a, e), Xor8(b, f))
  {}

  lemma RegroupEight(a: Byte, b: Byte, c: Byte, d: Byte, e: Byte, f: Byte, g: Byte, h: Byte)
    ensures Xor8(Xor8(Xor8(Xor8(a, b), Xor8(c, d)), Xor8(e, f)), Xor8(g, h))
         == Xor8(Xor8(Xor8(Xor8(a, c), e), g), Xor8(Xor8(Xor8(b, d), f), h))
  {}

  /** The four rows of a mixed column, sorted by the byte they come from. */
  lemma MixedColumn(a: Byte, b: Byte, c: Byte, d: Byte)
    ensures MixByte(a, b, c, d) == Xor8(Xor8(Xor8(Times2(a), Times3(b)), c), d)
    ensures MixByte(b, c, d, a) == Xor8(Xor8(Xor8(a, Times2(b)), Times3(c)), d)
    ensures MixByte(c, d, a, b) == Xor8(Xor8(Xor8(a, b), Times2(c)), Times3(d))
    ensures MixByte(d, a, b, c) == Xor8(Xor8(Xor8(Times3(a), b), c), Times2(d))
  {
    hide Times2, Times3;
    Reorder(Times2(a), Times3(b), c, d);
    Reorder(Times2(b), Times3(c), d, a);
    Reorder(Times2(c), Times3(d), a, b);
    Reorder(Times2(d), Times3(a), b, c);
  }

  lemma Reorder(p: Byte, q: Byte, r: Byte, s: Byte)
    ensures Xor8(Xor8(p, q), Xor8(r, s)) == Xor8(Xor8(Xor8(p, q), r), s) == Xor8(Xor8(Xor8(s, p), q), r)
    ensures Xor8(Xor8(p, q), Xor8(r, s)) == Xor8(Xor8(Xor8(r, s), p), q) == Xor8(Xor8(Xor8(q, r), s), p)
  {}

  /** Mixing a column and mixing it back. */
  lemma ColumnInverse(a: Byte, b: Byte, c: Byte, d: Byte)
    ensures InvMixByte(MixByte(a, b, c, d), MixByte(b, c, d, a), MixByte(c, d, a, b), MixByte(d, a, b, c)) == a
  {
    hide *;
    MixedColumn(a, b, c, d);
    OneByte(a);
    OneByte(b);
    OneByte(c);
    OneByte(d);
    InvMixLinear(Times2(a), a, a, Times3(a), Times3(b), Times2(b), b, b);
    InvMixLinear(Xor8(Times2(a), Times3(b)), Xor8(a, Times2(b)), Xor8(a, b), Xor8(Times3(a), b), c, Times3(c), Times2(c), c);
    InvMixLinear(Xor8(Xor8(Times2(a), Times3(b)), c), Xor8(Xor8(a, Times2(b)), Times3(c)), Xor8(Xor8(a, b), Times2(c)),
                 Xor8(Xor8(Times3(a), b), c), d, d, Times3(d), Times2(d));
    XorLaws(a, a, a);
  }

  // ---------------------------------------------------------------- the state

  /** 32 bytes, of which the first 4 nb hold the block; byte r + 4 c is row r of column c. */
  type State = s: seq<Byte> | |s| == 32 witness seq(32, i => seq(8, j => false))

  predicate BlockSize(nb: nat)
  {
    nb == 4 || nb == 6 || nb == 8
  }

  /** By how many columns row r is shifted. */
  function Shift(nb: nat, r: nat): (k: nat)
  {
    if r == 0 then 0 else if nb == 8 && r >= 2 then r + 1 else r
  }

  /** The column k columns further on, and k columns back. */
  function Ahead(nb: nat, c: nat, k: nat): (d: int)
  {
    if c + k < nb then c + k else c + k - nb
  }

  function Behind(nb: nat, c: nat, k: nat): (d: int)
  {
    if c >= k then c - k else c + nb - k
  }

  /** Where byte i comes from when the rows are shifted, and when they are shifted back. */
  function Source(nb: nat, i: nat): (j: nat)
    requires BlockSize(nb)
  {
    var r, c := i % 4, i / 4;
    var k := Shift(nb, r);
    r + 4 * Ahead(nb, c, k)
  }

  function InvSource(nb: nat, i: nat): (j: nat)
    requires BlockSize(nb)
  {
    var r, c := i % 4, i / 4;
    var k := Shift(nb, r);
    r + 4 * Behind(nb, c, k)
  }

  lemma SourcesInverse(nb: nat, i: nat)
    requires BlockSize(nb) && i < 4 * nb
    ensures Source(nb, i) < 4 * nb && InvSource(nb, i) < 4 * nb && Source(nb, InvSource(nb, i)) == i
    ensures Source(nb, i) % 4 == i % 4 == InvSource(nb, i) % 4
  {
    hide Source, InvSource, Shift;
    var r, c := i % 4, i / 4;
    SourceIs(nb, r, c);
    var k := Shift(nb, r);
    SourceIs(nb, r, Behind(nb, c, k));
    assert i == r + 4 * c;
    RowColumn(r, Behind(nb, c, k));
    RowColumn(r, Ahead(nb, c, k));
  }

  lemma SourceIs(nb: nat, r: nat, c: nat)
    requires BlockSize(nb) && r < 4
    ensures 4 <= nb <= 8 && Shift(nb, r) <= 4
    ensures Source(nb, r + 4 * c) == r + 4 * Ahead(nb, c, Shift(nb, r))
    ensures InvSource(nb, r + 4 * c) == r + 4 * Behind(nb, c, Shift(nb, r))
  {
    RowColumn(r, c);
  }

  lemma Wrapped(x: nat, nb: nat)
    requires 0 < nb && x < 2 * nb
    ensures x % nb == if x < nb then x else x - nb
  {
    Arithmetic.QuotientUnique(nb, if x < nb then 0 else 1, if x < nb then x else x - nb);
  }

  lemma RowColumn(r: nat, c: nat)
    requires r < 4
    ensures (r + 4 * c) % 4 == r && (r + 4 * c) / 4 == c
  {}

  /** Every byte substituted, every row shifted. */
  function SubShift(s: State, nb: nat): (t: State)
    requires BlockSize(nb)
  {
    seq(32, i requires 0 <= i < 32 => if i < 4 * nb && Source(nb, i) < 32 then SubByte(s[Source(nb, i)]) else s[i])
  }

  function InvShiftSub(s: State, nb: nat): (t: State)
    requires BlockSize(nb)
  {
    seq(32, i requires 0 <= i < 32 => if i < 4 * nb && InvSource(nb, i) < 32 then InvSubByte(s[InvSource(nb, i)]) else s[i])
  }

  lemma SubShiftInverse(s: State, nb: nat)
    requires BlockSize(nb)
    ensures InvShiftSub(SubShift(s, nb), nb) == s
  {
    hide SubByte, InvSubByte, Source, InvSource;
    forall i | 0 <= i < 32 ensures InvShiftSub(SubShift(s, nb), nb)[i] == s[i] {
      if i < 4 * nb {
        SourcesInverse(nb, i);
        SourcesInverse(nb, InvSource(nb, i));
        SubByteInverse(s[i]);
      }
    }
  }

  /** A round key: four rows of columns, as many as the block has. */
  type Schedule = seq<seq<Byte>>

  function KeyByte(w: Schedule, i: nat, j: nat): (b: Byte)
  {
    if i < |w| && j < |w[i]| then w[i][j] else Bits8(0)
  }

  /** Round key n exclusive-or'ed into the block. */
  function AddKey(s: State, nb: nat, w: Schedule, n: nat): (t: State)
  {
    seq(32, i requires 0 <= i < 32 => if i < 4 * nb then Xor8(s[i], KeyByte(w, i % 4, i / 4 + nb * n)) else s[i])
  }

  lemma AddKeyInverse(s: State, nb: nat, w: Schedule, n: nat)
    ensures AddKey(AddKey(s, nb, w, n), nb, w, n) == s
  {
    hide KeyByte, Xor8;
    forall i | 0 <= i < 32 ensures AddKey(AddKey(s, nb, w, n), nb, w, n)[i] == s[i] {
      XorLaws(s[i], KeyByte(w, i % 4, i / 4 + nb * n), s[i]);
    }
  }

  /** Row k rows below byte i of the same column. */
  function Below(i: nat, k: nat): (j: nat)
  {
    (i % 4 + k) % 4 + 4 * (i / 4)
  }

  lemma BelowIs(i: nat, k: nat, l: nat)
    requires i < 32 && k < 4 && l < 4
    ensures Below(i, 0) == i && Below(i, k) < 32 && Below(i, k) / 4 == i / 4 && Below(Below(i, k), l) == Below(i, (k + l) % 4)
  {
    hide *;
    var r, c := i % 4, i / 4;
    var m := (r + k) % 4;
    assert i == r + 4 * c;
    BelowAt(r, c, 0);
    BelowAt(r, c, k);
    BelowAt(m, c, l);
    BelowAt(r, c, (k + l) % 4);
    RowColumn(m, c);
    Wrapped(r, 4);
    Wrapped(r + k, 4);
    Wrapped(k + l, 4);
    Wrapped(m + l, 4);
    Wrapped(r + (k + l) % 4, 4);
  }

  lemma BelowAt(r: nat, c: nat, k: nat)
    requires r < 4
    ensures Below(r + 4 * c, k) == (r + k) % 4 + 4 * c
  {
    RowColumn(r, c);
  }

  lemma MixIs(s: State, nb: nat, i: nat)
    requires i < 32
    ensures Below(i, 1) < 32 && Below(i, 2) < 32 && Below(i, 3) < 32
    ensures i < 4 * nb ==> Mix(s, nb)[i] == MixByte(s[i], s[Below(i, 1)], s[Below(i, 2)], s[Below(i, 3)])
    ensures i < 4 * nb ==> InvMix(s, nb)[i] == InvMixByte(s[i], s[Below(i, 1)], s[Below(i, 2)], s[Below(i, 3)])
    ensures i >= 4 * nb ==> Mix(s, nb)[i] == s[i] == InvMix(s, nb)[i]
  {}

  function Mix(s: State, nb: nat): (t: State)
  {
    seq(32, i requires 0 <= i < 32 => if i < 4 * nb then MixByte(s[i], s[Below(i, 1)], s[Below(i, 2)], s[Below(i, 3)]) else s[i])
  }

  function InvMix(s: State, nb: nat): (t: State)
  {
    seq(32, i requires 0 <= i < 32 => if i < 4 * nb then InvMixByte(s[i], s[Below(i, 1)], s[Below(i, 2)], s[Below(i, 3)]) else s[i])
  }

  lemma MixInverse(s: State, nb: nat)
    requires BlockSize(nb)
    ensures InvMix(Mix(s, nb), nb) == s
  {
    hide *;
    var t := Mix(s, nb);
    forall i | 0 <= i < 32 ensures InvMix(t, nb)[i] == s[i] {
      MixIs(s, nb, i);
      MixIs(t, nb, i);
      if i < 4 * nb {
        MixAt(s, nb, i, 1);
        MixAt(s, nb, i, 2);
        MixAt(s, nb, i, 3);
        ColumnInverse(s[i], s[Below(i, 1)], s[Below(i, 2)], s[Below(i, 3)]);
        BelowIs(i, 0, 0);
      }
    }
  }

  /** The mixed byte k rows below byte i. */
  lemma MixAt(s: State, nb: nat, i: nat, k: nat)
    requires BlockSize(nb) && i < 4 * nb && k < 4
    ensures Below(i, k) < 32 && Below(i, (k + 1) % 4) < 32 && Below(i, (k + 2) % 4) < 32 && Below(i, (k + 3) % 4) < 32
    ensures Mix(s, nb)[Below(i, k)]
         == MixByte(s[Below(i, k)], s[Below(i, (k + 1) % 4)], s[Below(i, (k + 2) % 4)], s[Below(i, (k + 3) % 4)])
  {
    SameColumn(i, k, nb);
    hide *;
    BelowIs(i, k, 1);
    BelowIs(i, k, 2);
    BelowIs(i, k, 3);
    MixIs(s, nb, Below(i, k));
  }

  lemma SameColumn(i: nat, k: nat, nb: nat)
    requires BlockSize(nb) && i < 4 * nb && k < 4
    ensures i < 32 && Below(i, k) < 4 * nb
  {
    BelowIs(i, k, 0);
    hide Below;
  }
}
