/** Field arithmetic on single elements: the product of two polynomials in a machine word, reduced
    with masks and shifts. */
module ScalarField {
  import opened Words
  import opened BinaryAlgebra
  import opened Field
  import opened Polynomials
  import opened BenesNetwork
  import opened OutputBits
  import opened BitMatrix
  import ControlBitsCheck

  // ---------------------------------------------------------------- words of 32 bits

  type Word32 = w: Bits | |w| == 32 witness seq(32, i => false)

  /** w << s */
  function Up(w: Word32, s: nat): (r: Word32)
  {
    seq(32, k requires 0 <= k < 32 => k >= s && w[k - s])
  }

  /** w >> s */
  function Down(w: Word32, s: nat): (r: Word32)
  {
    seq(32, k requires 0 <= k < 32 => k + s < 32 && w[k + s])
  }

  function And32(u: Word32, v: Word32): (r: Word32)
  {
    seq(32, k requires 0 <= k < 32 => u[k] && v[k])
  }

  function Or32(u: Word32, v: Word32): (r: Word32)
  {
    seq(32, k requires 0 <= k < 32 => u[k] || v[k])
  }

  /** The word of a number. */
  function Of32(v: nat): (r: Word32)
  {
    seq(32, k requires 0 <= k < 32 => BitOf(v, k) == 1)
  }

  /** The bits lo to hi - 1. */
  function Range32(lo: nat, hi: nat): (r: Word32)
  {
    seq(32, k => lo <= k < hi)
  }

  lemma {:induction false} OnesBits(m: nat, k: nat)
    ensures BitOf(Pow2(m) - 1, k) == 1 <==> k < m
    decreases m
  {
    if m == 0 {
      ControlBitsCheck.ZeroBit(k);
    } else {
      assert (Pow2(m) - 1) / 2 == Pow2(m - 1) - 1 && (Pow2(m) - 1) % 2 == 1;
      if k > 0 { OnesBits(m - 1, k - 1); }
    }
  }

  /** The bits of a run of ones. */
  lemma RunBits(v: nat, lo: nat, m: nat, k: nat)
    requires v == (Pow2(m) - 1) * Pow2(lo)
    ensures BitOf(v, k) == 1 <==> lo <= k < lo + m
  {
    hide *;
    BitOfConcat(Pow2(m) - 1, 0, lo, k);
    ControlBitsCheck.ZeroBit(k);
    if k >= lo { OnesBits(m, k - lo); }
  }

  lemma ReductionMasks()
    ensures Of32(0x7FC000) == Range32(14, 23) && Of32(0x3000) == Range32(12, 14) && Of32(0xFFF) == Range32(0, 12)
  {
    hide Pow2, BitOf;
    MaskValues();
    forall k | 0 <= k < 32
      ensures (BitOf(0x7FC000, k) == 1 <==> 14 <= k < 23) && (BitOf(0x3000, k) == 1 <==> 12 <= k < 14)
      ensures BitOf(0xFFF, k) == 1 <==> k < 12
    {
      RunBits(0x7FC000, 14, 9, k);
      RunBits(0x3000, 12, 2, k);
      RunBits(0xFFF, 0, 12, k);
    }
  }

  lemma MaskValues()
    ensures (Pow2(9) - 1) * Pow2(14) == 0x7FC000 && (Pow2(2) - 1) * Pow2(12) == 0x3000 && (Pow2(12) - 1) * Pow2(0) == 0xFFF
  {
    assert Pow2(4) == 16;
    assert Pow2(8) == 256;
    assert Pow2(9) == 512 && Pow2(12) == 4096 && Pow2(14) == 16384 && Pow2(2) == 4 && Pow2(0) == 1;
  }

  // ---------------------------------------------------------------- reduction

  /** The coefficients from x^n on, m of them, folded down to x^(n-9) and x^(n-12). */
  function FoldedDown(p: Bits, n: nat, m: nat): (q: Bits)
    requires 12 <= n && m <= 9 && |p| == n + m
    ensures |q| == n
  {
    var h := p[n..];
    Plus(Plus(p[..n], Zero(n - 9) + h + Zero(9 - m)), Zero(n - 12) + h + Zero(12 - m))
  }

  lemma FoldedDownValue(p: Bits, n: nat, m: nat)
    requires 12 <= n && m <= 9 && |p| == n + m
    ensures Value(FoldedDown(p, n, m)) == Value(p)
  {
    hide *;
    var h := p[n..];
    var v, l := Value(h), Value(p[..n]);
    FoldedDownIs(p, n, m);
    SplitTop(p, n, m);
    ValuePlus(p[..n] + Zero(m), Zero(n) + h);
    ValuePad(p[..n], m);
    ValueShift(n, h);
    var a, b := Zero(n - 9) + h + Zero(9 - m), Zero(n - 12) + h + Zero(12 - m);
    ValuePlus(p[..n], a);
    ValuePlus(Plus(p[..n], a), b);
    ValuePad(Zero(n - 9) + h, 9 - m);
    ValuePad(Zero(n - 12) + h, 12 - m);
    ValueShift(n - 9, h);
    ValueShift(n - 12, h);
    XPowSum(12, n - 12, v);
    XPowSum(3, n - 12, v);
    Relation(XPow(n - 12, v));
    AddLaws(l, XPow(n - 9, v), XPow(n - 12, v));
  }

  lemma FoldedDownIs(p: Bits, n: nat, m: nat)
    requires 12 <= n && m <= 9 && |p| == n + m
    ensures |Zero(n - 9) + p[n..] + Zero(9 - m)| == n == |Zero(n - 12) + p[n..] + Zero(12 - m)| && |p[..n]| == n
    ensures FoldedDown(p, n, m) == Plus(Plus(p[..n], Zero(n - 9) + p[n..] + Zero(9 - m)), Zero(n - 12) + p[n..] + Zero(12 - m))
  {}

  lemma SplitTop(p: Bits, n: nat, m: nat)
    requires |p| == n + m
    ensures |p[..n] + Zero(m)| == |Zero(n) + p[n..]| && p == Plus(p[..n] + Zero(m), Zero(n) + p[n..])
  {}

  /** t = w & mask; w ^= t >> 9; w ^= t >> 12; */
  function FoldWord(w: Word32, mask: nat): (r: Word32)
  {
    var t := And32(w, Of32(mask));
    Plus(Plus(w, Down(t, 9)), Down(t, 12))
  }

  lemma FirstFold(w: Word32)
    requires w[23..] == Zero(9)
    ensures FoldWord(w, 0x7FC000)[..14] == FoldedDown(w[..23], 14, 9)
  {
    ReductionMasks();
    hide Of32;
    var f, q := FoldWord(w, 0x7FC000), FoldedDown(w[..23], 14, 9);
    assert forall i :: 0 <= i < 9 ==> w[23..][i] == Zero(9)[i];
    forall k | 0 <= k < 14 ensures f[k] == q[k] {
      var h := w[..23][14..];
      assert (Zero(5) + h + Zero(0))[k] == (k >= 5 && w[k + 9]);
      assert (Zero(2) + h + Zero(3))[k] == (2 <= k < 11 && w[k + 12]);
    }
  }

  lemma SecondFold(w: Word32)
    ensures FoldWord(w, 0x3000)[..12] == FoldedDown(w[..14], 12, 2)
  {
    ReductionMasks();
    hide Of32;
    var f, q := FoldWord(w, 0x3000), FoldedDown(w[..14], 12, 2);
    forall k | 0 <= k < 12 ensures f[k] == q[k] {
      var h := w[..14][12..];
      assert (Zero(3) + h + Zero(7))[k] == (3 <= k < 5 && w[k + 9]);
      assert (Zero(0) + h + Zero(10))[k] == (k < 2 && w[k + 12]);
    }
  }

  /** The two reduction steps and the final mask. */
  function ReducedWord(w: Word32): (e: Elem)
  {
    FoldWord(FoldWord(w, 0x7FC000), 0x3000)[..12]
  }

  lemma ReducedWordIs(w: Word32)
    requires w[23..] == Zero(9)
    ensures ReducedWord(w) == Value(w[..23])
  {
    hide *;
    FirstFold(w);
    var u := FoldWord(w, 0x7FC000);
    SecondFold(u);
    FoldedDownValue(w[..23], 14, 9);
    FoldedDownValue(u[..14], 12, 2);
    ReducedWordUnfolds(w);
    ValueElem(ReducedWord(w));
  }

  lemma ReducedWordUnfolds(w: Word32)
    ensures ReducedWord(w) == FoldWord(FoldWord(w, 0x7FC000), 0x3000)[..12]
  {}

  // ---------------------------------------------------------------- multiplication

  /** An element as a word. */
  function Widen(a: Elem): (w: Word32)
  {
    a + Zero(20)
  }

  /** t0 * (t1 & (1 << i)): shifted by i if bit i of t1 is set, else zero. */
  function TimesBit(t0: Word32, bit: bool, i: nat): (r: Word32)
  {
    if bit then Up(t0, i) else Zero(32)
  }

  lemma TimesBitValue(a: Elem, bit: bool, i: nat)
    requires i < 12
    ensures TimesBit(Widen(a), bit, i)[23..] == Zero(9)
    ensures Value(TimesBit(Widen(a), bit, i)[..23]) == If(bit, XPow(i, a))
  {
    hide *;
    TimesBitIs(a, bit, i);
    IfFalse(XPow(i, a));
    if bit {
      ValuePad(Zero(i) + a, 11 - i);
      ValueShift(i, a);
      ValueElem(a);
    } else {
      ValueZero(23);
    }
  }

  lemma TimesBitIs(a: Elem, bit: bool, i: nat)
    requires i < 12
    ensures TimesBit(Widen(a), bit, i)[23..] == Zero(9)
    ensures TimesBit(Widen(a), bit, i)[..23] == if bit then (Zero(i) + a) + Zero(11 - i) else Zero(23)
  {
    if bit {
      var w, p := Up(Widen(a), i), (Zero(i) + a) + Zero(11 - i);
      forall k | 0 <= k < 32 ensures w[k] == (i <= k < i + 12 && a[k - i]) { }
      assert w[..23] == p;
    }
  }

  /** tmp holds the sum of the first i shifted products. */
  ghost predicate Summed(tmp: Word32, a: Elem, b: Elem, i: nat)
  {
    i <= 12 && tmp[23..] == Zero(9) && Value(tmp[..23]) == SumTo(a, b, i)
  }

  lemma SummedStep(tmp: Word32, a: Elem, b: Elem, i: nat)
    requires i < 12 && Summed(tmp, a, b, i)
    ensures Summed(Plus(tmp, TimesBit(Widen(a), b[i], i)), a, b, i + 1)
  {
    var w := TimesBit(Widen(a), b[i], i);
    TimesBitValue(a, b[i], i);
    PlusParts(tmp, w);
    hide TimesBit, Value, SumTo, If, Plus, Widen;
    ValuePlus(tmp[..23], w[..23]);
    SumToStep(a, b, i);
  }

  lemma PlusParts(u: Word32, v: Word32)
    requires u[23..] == Zero(9) == v[23..]
    ensures Plus(u, v)[..23] == Plus(u[..23], v[..23]) && Plus(u, v)[23..] == Zero(9)
  {
    forall i | 0 <= i < 9 ensures Plus(u, v)[23..][i] == false {
      assert !u[23..][i] && !v[23..][i];
    }
  }

  lemma SummedStart(a: Elem, b: Elem)
    ensures Summed(Zero(32), a, b, 0)
  {
    assert Zero(32)[..23] == Zero(23) && Zero(32)[23..] == Zero(9);
    ValueZero(23);
  }

  lemma SummedEnd(tmp: Word32, a: Elem, b: Elem)
    requires Summed(tmp, a, b, 12)
    ensures ReducedWord(tmp) == Mul(a, b)
  {
    hide Value, ReducedWord, SumTo, Mul;
    ReducedWordIs(tmp);
    SumIsMul(a, b);
  }

  /** gf_mul */
  method GfMul(in0: Elem, in1: Elem) returns (r: Elem)
    ensures r == Mul(in0, in1)
  {
    hide *;
    var t0 := Widen(in0);
    SummedStart(in0, in1);
    SummedStep(Zero(32), in0, in1, 0);
    var tmp: Word32 := TimesBit(t0, in1[0], 0);
    PlusZero(tmp);
    var i := 1;
    while i < 12
      invariant 1 <= i <= 12 && Summed(tmp, in0, in1, i)
    {
      SummedStep(tmp, in0, in1, i);
      tmp := Plus(tmp, TimesBit(t0, in1[i], i));
      i := i + 1;
    }
    SummedEnd(tmp, in0, in1);
    r := ReducedWord(tmp);
  }

  lemma PlusZero(w: Word32)
    ensures Plus(Zero(32), w) == w
  {}

  // ---------------------------------------------------------------- two products in one word

  /** tmp ^= t0 * (t1 & mask): the two bits of t1 are 32 places apart, so that the shifted copies of
      the 12-bit t0 do not meet. */
  function TimesTwoBits(t0: Word, low: bool, high: bool, i: nat): (r: Word)
  {
    XorWord(if low then Left(t0, i) else WordOf(0), if high then Left(t0, i + 32) else WordOf(0))
  }

  lemma ZeroWord(k: nat)
    requires k < 64
    ensures !WordOf(0)[k]
  {
    ControlBitsCheck.ZeroBit(k);
  }

  lemma TwoBitsHalves(a: Elem, low: bool, high: bool, i: nat)
    requires i < 12
    ensures var w := TimesTwoBits(a + Zero(52), low, high, i);
            w[..32] == TimesBit(Widen(a), low, i) && w[32..] == TimesBit(Widen(a), high, i)
  {
    var w := TimesTwoBits(a + Zero(52), low, high, i);
    hide WordOf;
    forall k | 0 <= k < 32 ensures w[..32][k] == TimesBit(Widen(a), low, i)[k] && w[32..][k] == TimesBit(Widen(a), high, i)[k] {
      ZeroWord(k);
      ZeroWord(k + 32);
    }
  }

  /** tmp ^= ((tmp & mask) >> 9) ^ ((tmp & mask) >> 12), for the same mask in both halves */
  function FoldBoth(w: Word, lo: nat, hi: nat): (r: Word)
  {
    var t := AndWord(w, seq(64, k => lo <= k % 32 < hi));
    XorWord(w, XorWord(Right(t, 9), Right(t, 12)))
  }

  lemma FoldBothHalves(w: Word)
    ensures FoldBoth(w, 14, 23)[..32] == FoldWord(w[..32], 0x7FC000) && FoldBoth(w, 14, 23)[32..] == FoldWord(w[32..], 0x7FC000)
    ensures FoldBoth(w, 12, 14)[..32] == FoldWord(w[..32], 0x3000) && FoldBoth(w, 12, 14)[32..] == FoldWord(w[32..], 0x3000)
  {
    ReductionMasks();
    hide Of32;
    FoldBothAt(w, 14, 23);
    FoldBothAt(w, 12, 14);
  }

  lemma FoldBothAt(w: Word, lo: nat, hi: nat)
    requires 12 <= lo <= hi <= 23
    ensures FoldBoth(w, lo, hi)[..32] == FoldedBy(w[..32], Range32(lo, hi))
    ensures FoldBoth(w, lo, hi)[32..] == FoldedBy(w[32..], Range32(lo, hi))
  {
    hide *;
    var f, u, v := FoldBoth(w, lo, hi), FoldedBy(w[..32], Range32(lo, hi)), FoldedBy(w[32..], Range32(lo, hi));
    forall k | 0 <= k < 32 ensures f[k] == u[k] && f[32 + k] == v[k] {
      FoldBothBit(w, lo, hi, k);
      FoldBothBit(w, lo, hi, 32 + k);
      FoldedByBit(w[..32], lo, hi, k);
      FoldedByBit(w[32..], lo, hi, k);
    }
    assert f[..32] == u && f[32..] == v;
  }

  /** A fold with the mask as a word. */
  function FoldedBy(w: Word32, mask: Word32): (r: Word32)
  {
    Plus(Plus(w, Down(And32(w, mask), 9)), Down(And32(w, mask), 12))
  }

  lemma FoldedByBit(w: Word32, lo: nat, hi: nat, k: nat)
    requires k < 32
    ensures FoldedBy(w, Range32(lo, hi))[k]
         == ((w[k] != (k + 9 < 32 && lo <= k + 9 < hi && w[k + 9])) != (k + 12 < 32 && lo <= k + 12 < hi && w[k + 12]))
  {}

  lemma FoldBothBit(w: Word, lo: nat, hi: nat, k: nat)
    requires k < 64
    ensures FoldBoth(w, lo, hi)[k]
         == (w[k] != ((k + 9 < 64 && lo <= (k + 9) % 32 < hi && w[k + 9]) != (k + 12 < 64 && lo <= (k + 12) % 32 < hi && w[k + 12])))
  {}

  /** gf_mul2: two products with the same factor at once */
  method GfMul2(a: Elem, b0: Elem, b1: Elem) returns (r0: Elem, r1: Elem)
    ensures r0 == Mul(a, b0) && r1 == Mul(a, b1)
  {
    hide *;
    var t0: Word := a + Zero(52);
    var tmp := WordOf(0);
    ZeroHalves();
    SummedStart(a, b0);
    SummedStart(a, b1);
    var i := 0;
    while i < 12
      invariant 0 <= i <= 12 && Summed(tmp[..32], a, b0, i) && Summed(tmp[32..], a, b1, i)
    {
      TwoBitsHalves(a, b0[i], b1[i], i);
      SummedStep(tmp[..32], a, b0, i);
      SummedStep(tmp[32..], a, b1, i);
      XorHalves(tmp, TimesTwoBits(t0, b0[i], b1[i], i));
      tmp := XorWord(tmp, TimesTwoBits(t0, b0[i], b1[i], i));
      i := i + 1;
    }
    SummedEnd(tmp[..32], a, b0);
    SummedEnd(tmp[32..], a, b1);
    ReducedWordUnfolds(tmp[..32]);
    ReducedWordUnfolds(tmp[32..]);
    FoldBothHalves(tmp);
    tmp := FoldBoth(tmp, 14, 23);
    FoldBothHalves(tmp);
    tmp := FoldBoth(tmp, 12, 14);
    r0, r1 := tmp[..12], tmp[32..44];
    assert tmp[..32][..12] == tmp[..12] && tmp[32..][..12] == tmp[32..44];
  }

  lemma ZeroHalves()
    ensures WordOf(0)[..32] == Zero(32) == WordOf(0)[32..]
  {
    forall k | 0 <= k < 64 ensures !WordOf(0)[k] { ZeroWord(k); }
  }

  lemma XorHalves(u: Word, v: Word)
    ensures XorWord(u, v)[..32] == Plus(u[..32], v[..32]) && XorWord(u, v)[32..] == Plus(u[32..], v[32..])
  {}

  // ---------------------------------------------------------------- squaring

  /** B[d] */
  function SpreadMask(d: nat): (m: nat)
  {
    if d == 0 then 0x55555555 else if d == 1 then 0x33333333 else if d == 2 then 0x0F0F0F0F else 0x00FF00FF
  }

  lemma SpreadMaskBits(d: nat, k: nat)
    requires d < 4 && k < 32
    ensures Of32(SpreadMask(d))[k] <==> BitOf(k, d) == 0
  {
    hide BitOf, Pow2;
    Pow2Of32();
    assert SpreadMask(d) * 0x1_0000_0000 + SpreadMask(d) == LowMask(d);
    hide SpreadMask, LowMask;
    SpreadMaskBound(d);
    BitOfConcat(SpreadMask(d), SpreadMask(d), 32, k);
    MaskBits(d, k);
    WordBit(LowMask(d), k);
  }

  lemma SpreadMaskBound(d: nat)
    ensures SpreadMask(d) < 0x1_0000_0000
  {}

  /** Bit k holds coefficient k with bit d left out, if that bit is zero. */
  ghost predicate Spread32(x: Word32, a: Elem, d: nat)
  {
    forall k :: 0 <= k < 32 ==> SpreadAt(x, a, d, k)
  }

  ghost predicate SpreadAt(x: Word32, a: Elem, d: nat, k: nat)
    requires k < 32
  {
    x[k] == (BitOf(k, d) == 0 && PairIndex(k, d) < 12 && a[PairIndex(k, d)])
  }

  /** Moving the left-out bit down by one. */
  lemma {:induction false} LeftOutBit(k: nat, e: nat)
    requires BitOf(k, e) == 0
    ensures BitOf(k, e + 1) == 0 ==> PairIndex(k, e) == PairIndex(k, e + 1)
    ensures k >= Pow2(e) ==> BitOf(k - Pow2(e), e + 1) == 1 - BitOf(k, e + 1)
    ensures BitOf(k, e + 1) == 1 ==> k >= Pow2(e) && PairIndex(k - Pow2(e), e + 1) == PairIndex(k, e)
    decreases e
  {
    if e > 0 {
      var p := Pow2(e - 1);
      LeftOutBit(k / 2, e - 1);
      assert Pow2(e) == 2 * p;
      if k >= Pow2(e) { assert (k - Pow2(e)) / 2 == k / 2 - p && (k - Pow2(e)) % 2 == k % 2; }
    } else {
      LeftOutFirst(k);
    }
  }

  lemma LeftOutFirst(k: nat)
    requires BitOf(k, 0) == 0
    ensures Pow2(0) == 1
    ensures BitOf(k, 1) == 0 ==> PairIndex(k, 0) == PairIndex(k, 1)
    ensures k >= 1 ==> BitOf(k - 1, 1) == 1 - BitOf(k, 1)
    ensures BitOf(k, 1) == 1 ==> k >= 1 && PairIndex(k - 1, 1) == PairIndex(k, 0)
  {}

  /** x = (x | (x << s)) & B[e] */
  lemma SpreadStep(x: Word32, a: Elem, e: nat)
    requires e < 4 && Spread32(x, a, e + 1)
    ensures Spread32(And32(Or32(x, Up(x, Pow2(e))), Of32(SpreadMask(e))), a, e)
  {
    var s, d := Pow2(e), e + 1;
    var y := And32(Or32(x, Up(x, s)), Of32(SpreadMask(e)));
    hide BitOf, PairIndex, Of32, Pow2;
    forall k | 0 <= k < 32 ensures SpreadAt(y, a, e, k) {
      SpreadMaskBits(e, k);
      assert SpreadAt(x, a, d, k);
      if k >= s { assert SpreadAt(x, a, d, k - s); }
      if BitOf(k, e) == 0 { LeftOutBit(k, e); BitRange(k, d); }
    }
  }

  lemma BitRange(k: nat, d: nat)
    ensures BitOf(k, d) == 0 || BitOf(k, d) == 1
  {}

  lemma {:induction false} SmallIndex(k: nat, d: nat)
    requires k < Pow2(d)
    ensures BitOf(k, d) == 0 && PairIndex(k, d) == k
    decreases d
  {
    if d > 0 { SmallIndex(k / 2, d - 1); }
  }

  lemma {:induction false} LargeIndex(k: nat, d: nat)
    requires Pow2(d) <= k < 2 * Pow2(d)
    ensures BitOf(k, d) == 1
    decreases d
  {
    if d > 0 { LargeIndex(k / 2, d - 1); }
  }

  lemma SpreadStart(a: Elem)
    ensures Spread32(Widen(a), a, 4)
  {
    hide BitOf, PairIndex, Pow2;
    Pow2Of16();
    forall k | 0 <= k < 32 ensures SpreadAt(Widen(a), a, 4, k) {
      if k < 16 { SmallIndex(k, 4); } else { LargeIndex(k, 4); }
    }
  }

  lemma Pow2Of16()
    ensures Pow2(4) == 16 && Pow2(3) == 8 && Pow2(2) == 4 && Pow2(1) == 2 && Pow2(0) == 1
  {
    assert Pow2(4) == 16;
  }

  /** The coefficients with zeros in between. */
  function Spaced(p: Bits): (q: Bits)
    ensures |q| == 2 * |p|
    ensures forall k :: 0 <= k < |q| ==> q[k] == (k % 2 == 0 && p[k / 2])
  {
    if |p| == 0 then [] else [p[0], false] + Spaced(p[1..])
  }

  lemma {:induction false} SpacedValue(a: Elem, i: nat)
    requires i <= 12
    ensures Value(Spaced(a[i..])) == Square(From(a, i))
    decreases 12 - i
  {
    hide *;
    FromStep(a, i);
    SpacedStep(a, i);
    if i == 12 {
      ValueStep(false, []);
      SquareAdd(Nil(), Nil());
    } else {
      SpacedValue(a, i + 1);
      var q, u, t := Spaced(a[i + 1..]), If(a[i], One()), From(a, i + 1);
      ValueStep(a[i], [false] + q);
      ValueStep(false, q);
      SquareAdd(u, X(t));
      SquareAdd(t, t);
      SquareAdd(One(), One());
      IfFalse(One());
      AddLaws(X(Value(q)), Nil(), Nil());
    }
  }

  lemma SpacedStep(a: Elem, i: nat)
    requires i <= 12
    ensures Spaced(a[i..]) == if i == 12 then [] else [a[i]] + ([false] + Spaced(a[i + 1..]))
  {
    if i < 12 {
      assert a[i..][1..] == a[i + 1..];
      assert [a[i], false] + Spaced(a[i + 1..]) == [a[i]] + ([false] + Spaced(a[i + 1..]));
    }
  }

  lemma SpreadValue(x: Word32, a: Elem)
    requires Spread32(x, a, 0)
    ensures x[23..] == Zero(9) && Value(x[..23]) == Mul(a, a)
  {
    hide Value, Mul, Square, Spaced;
    forall k | 0 <= k < 32 ensures x[k] == (k % 2 == 0 && k / 2 < 12 && a[k / 2]) { assert SpreadAt(x, a, 0, k); }
    assert x[..23] + Zero(1) == Spaced(a[0..]);
    ValuePad(x[..23], 1);
    SpacedValue(a, 0);
    FromIs(a);
    SquareIs(a);
  }

  /** gf_sq */
  method GfSq(input: Elem) returns (r: Elem)
    ensures r == Mul(input, input)
  {
    hide *;
    Pow2Of16();
    var x := Widen(input);
    SpreadStart(input);
    SpreadStep(x, input, 3);
    x := And32(Or32(x, Up(x, 8)), Of32(SpreadMask(3)));
    SpreadStep(x, input, 2);
    x := And32(Or32(x, Up(x, 4)), Of32(SpreadMask(2)));
    SpreadStep(x, input, 1);
    x := And32(Or32(x, Up(x, 2)), Of32(SpreadMask(1)));
    SpreadStep(x, input, 0);
    x := And32(Or32(x, Up(x, 1)), Of32(SpreadMask(0)));
    SpreadValue(x, input);
    ReducedWordIs(x);
    r := ReducedWord(x);
  }

  // ---------------------------------------------------------------- inversion

  method SquareOf(x: Elem, ghost a: Elem, ghost k: nat) returns (r: Elem)
    requires x == Pow(a, k)
    ensures r == Pow(a, 2 * k)
  {
    hide *;
    r := GfSq(x);
    PowSum(a, k, k);
    assert k + k == 2 * k;
  }

  /** gf_inv: the power 4094, which is the inverse of what is not zero */
  method GfInv(input: Elem) returns (r: Elem)
    ensures r == Inv(input)
    ensures input != Nil() ==> Mul(input, r) == One()
  {
    hide *;
    ghost var a := input;
    PowSmall(a);
    var out := SquareOf(input, a, 1);
    var tmp11 := GfMul(out, input);
    PowSum(a, 2, 1);
    out := SquareOf(tmp11, a, 3);
    out := SquareOf(out, a, 6);
    var tmp1111 := GfMul(out, tmp11);
    PowSum(a, 12, 3);
    out := SquareOf(tmp1111, a, 15);
    out := SquareOf(out, a, 30);
    out := SquareOf(out, a, 60);
    out := SquareOf(out, a, 120);
    out := GfMul(out, tmp1111);
    PowSum(a, 240, 15);
    out := SquareOf(out, a, 255);
    out := SquareOf(out, a, 510);
    out := GfMul(out, tmp11);
    PowSum(a, 1020, 3);
    out := SquareOf(out, a, 1023);
    out := GfMul(out, input);
    PowSum(a, 2046, 1);
    r := SquareOf(out, a, 2047);
    InvIs(a);
    if input != Nil() { Inverse(input); }
  }

  /** gf_frac: num / den */
  method GfFrac(den: Elem, num: Elem) returns (r: Elem)
    ensures den != Nil() ==> Mul(den, r) == num
  {
    hide *;
    var i := GfInv(den);
    r := GfMul(i, num);
    MulAssociates(den, i, num);
    MulCommutes(num, num);
  }
}
