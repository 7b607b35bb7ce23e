/** The inversion-free Berlekamp-Massey algorithm on bitsliced polynomials: it finds a shortest
    linear recurrence of the syndrome sequence. */
module BerlekampMassey {
  import opened BinaryAlgebra
  import opened Field
  import opened BitMatrix
  import opened VecField
  import opened BatchInversion
  import opened Recurrences
  import opened Elimination
  import opened ScalarField

  // ---------------------------------------------------------------- the 64 lanes as coefficients

  /** The word with value 0 or 1. */
  function Single(b: bool): (w: Word)
  {
    seq(64, k => k == 0 && b)
  }

  /** update(in, e): every lane moves down by one, the new top lane is e. */
  function Pushed(f: Vec, e: Elem): (r: Vec)
  {
    seq(12, i requires 0 <= i < 12 => OrWord(Right(f[i], 1), Left(Single(e[i]), 63)))
  }

  lemma PushedLane(f: Vec, e: Elem, r: nat)
    requires r < 64
    ensures Lane(Pushed(f, e), r) == if r < 63 then Lane(f, r + 1) else e
  {
    forall i | 0 <= i < 12 ensures Pushed(f, e)[i][r] == if r < 63 then f[i][r + 1] else e[i] {
      assert Right(f[i], 1)[r] == (r + 1 < 64 && f[i][r + 1]);
      assert Left(Single(e[i]), 63)[r] == (r >= 63 && e[i]);
    }
  }

  /** vec_setbits of every coefficient of e: the vector with e in all lanes. */
  function Broadcast(e: Elem): (r: Vec)
  {
    seq(12, i requires 0 <= i < 12 => Spread(e[i]))
  }

  lemma BroadcastLane(e: Elem, r: nat)
    requires r < 64
    ensures Lane(Broadcast(e), r) == e
  {}

  /** vec_cmov(out, in, mask) */
  function Chosen(out: Vec, input: Vec, mask: bool): (r: Vec)
  {
    seq(12, i requires 0 <= i < 12 => OrWord(AndWord(input[i], Spread(mask)), AndWord(out[i], Spread(!mask))))
  }

  lemma ChosenIs(out: Vec, input: Vec, mask: bool)
    ensures Chosen(out, input, mask) == if mask then input else out
  {
    forall i | 0 <= i < 12 ensures Chosen(out, input, mask)[i] == if mask then input[i] else out[i] { }
  }

  function XorVec(f: Vec, g: Vec): (r: Vec)
  {
    seq(12, i requires 0 <= i < 12 => XorWord(f[i], g[i]))
  }

  lemma XorLane(f: Vec, g: Vec, r: nat)
    requires r < 64
    ensures Lane(XorVec(f, g), r) == Add(Lane(f, r), Lane(g, r))
  {}

  /** The polynomial with constant coefficient c0; lane 63 holds the coefficient of z. */
  function Poly(c0: Elem, f: Vec): (c: seq<Elem>)
    ensures |c| == 65
  {
    seq(65, j requires 0 <= j < 65 => if j == 0 then c0 else Lane(f, 64 - j))
  }

  lemma PolyAt(c0: Elem, f: Vec, j: nat)
    requires j < 65
    ensures Poly(c0, f)[j] == if j == 0 then c0 else Lane(f, 64 - j)
  {}

  /** Pushing the constant coefficient shifts the polynomial. */
  lemma PushedPoly(c0: Elem, f: Vec)
    ensures Poly(Nil(), Pushed(f, c0)) == Raised(Poly(c0, f))
  {
    hide *;
    forall j | 0 <= j < 65 ensures Poly(Nil(), Pushed(f, c0))[j] == Raised(Poly(c0, f))[j] {
      PolyAt(Nil(), Pushed(f, c0), j);
      ShiftedAt(Poly(c0, f), j);
      if j > 0 {
        PolyAt(c0, f, j - 1);
        PushedLane(f, c0, 64 - j);
      }
    }
  }

  lemma MixedPoly(b: Elem, c0: Elem, c: Vec, d: Elem, p: Vec, r: Vec)
    requires forall k :: 0 <= k < 64 ==> Lane(r, k) == Add(Mul(b, Lane(c, k)), Mul(d, Lane(p, k)))
    ensures Poly(Mul(c0, b), r) == Combined(b, Poly(c0, c), d, Poly(Nil(), p))
  {
    hide *;
    var m := Combined(b, Poly(c0, c), d, Poly(Nil(), p));
    forall j | 0 <= j < 65 ensures Poly(Mul(c0, b), r)[j] == m[j] {
      PolyAt(Mul(c0, b), r, j);
      PolyAt(c0, c, j);
      PolyAt(Nil(), p, j);
      MixAt(b, Poly(c0, c), d, Poly(Nil(), p), j);
      if j == 0 {
        MulCommutes(c0, b);
        MulLinear(d, d, d);
        AddLaws(Mul(b, c0), Nil(), Nil());
      }
    }
  }

  // ---------------------------------------------------------------- the discrepancy

  /** The exclusive or of the bits. */
  function Parity(p: Bits): (b: bool)
    decreases |p|
  {
    if |p| == 0 then false else Parity(p[..|p| - 1]) != p[|p| - 1]
  }

  lemma {:induction false} ParityConcat(p: Bits, q: Bits)
    ensures Parity(p + q) == (Parity(p) != Parity(q))
    decreases |q|
  {
    if |q| == 0 {
      assert p + q == p;
    } else {
      ParityConcat(p, q[..|q| - 1]);
      assert (p + q)[..|p + q| - 1] == p + q[..|q| - 1];
    }
  }

  lemma {:induction false} ParityPlus(p: Bits, q: Bits)
    requires |p| == |q|
    ensures Parity(Plus(p, q)) == (Parity(p) != Parity(q))
    decreases |p|
  {
    if |p| > 0 {
      var k := |p| - 1;
      ParityPlus(p[..k], q[..k]);
      assert Plus(p, q)[..k] == Plus(p[..k], q[..k]);
    }
  }

  /** tmp ^= tmp >> s keeps the parity in the lower half. */
  lemma FoldHalf(w: Word, s: nat)
    requires 2 * s <= 64
    ensures Parity(XorWord(w, Right(w, s))[..s]) == Parity(w[..2 * s])
  {
    var a, b := w[..s], w[s..2 * s];
    assert XorWord(w, Right(w, s))[..s] == Plus(a, b);
    assert w[..2 * s] == a + b;
    ParityPlus(a, b);
    ParityConcat(a, b);
  }

  /** The six foldings: bit 0 becomes the parity of the word. */
  method ParityOf(w: Word) returns (b: bool)
    ensures b == Parity(w)
  {
    hide *;
    assert w[..64] == w;
    FoldHalf(w, 32);
    var tmp := XorWord(w, Right(w, 32));
    FoldHalf(tmp, 16);
    tmp := XorWord(tmp, Right(tmp, 16));
    FoldHalf(tmp, 8);
    tmp := XorWord(tmp, Right(tmp, 8));
    FoldHalf(tmp, 4);
    tmp := XorWord(tmp, Right(tmp, 4));
    FoldHalf(tmp, 2);
    tmp := XorWord(tmp, Right(tmp, 2));
    FoldHalf(tmp, 1);
    tmp := XorWord(tmp, Right(tmp, 1));
    b := tmp[0];
    ParitySingle(tmp[..1]);
  }

  lemma ParitySingle(p: Bits)
    requires |p| == 1
    ensures Parity(p) == p[0]
  {
    assert p[..0] == [];
  }

  function Lanes(): (n: nat)
    ensures n == 64
  {
    64
  }

  /** The sum of the lanes below k. */
  function LaneSum(f: Vec, k: nat): (e: Elem)
    requires k <= 64
    decreases k
  {
    if k == 0 then Nil() else Add(LaneSum(f, k - 1), Lane(f, k - 1))
  }

  lemma {:induction false} LaneSumBits(f: Vec, k: nat, i: nat)
    requires k <= 64 && i < 12
    ensures LaneSum(f, k)[i] == Parity(f[i][..k])
    decreases k
  {
    if k > 0 {
      LaneSumBits(f, k - 1, i);
      assert f[i][..k][..k - 1] == f[i][..k - 1];
      AddBit(LaneSum(f, k - 1), Lane(f, k - 1), i);
      LaneAt(f, k - 1, i);
    }
  }

  /** vec_reduce(in): ret = (ret << 1) | parity, from the top coefficient down. */
  method VecReduce(f: Vec) returns (e: Elem)
    ensures e == LaneSum(f, Lanes())
  {
    var ret: seq<bool> := [];
    var i := 11;
    while i >= 0
      invariant -1 <= i <= 11 && |ret| == 11 - i
      invariant forall k :: i < k < 12 ==> ret[k - i - 1] == Parity(f[k])
    {
      var p := ParityOf(f[i]);
      ret := [p] + ret;
      i := i - 1;
    }
    ReducedIs(f, ret);
    e := ret;
  }

  lemma ReducedIs(f: Vec, ret: seq<bool>)
    requires |ret| == 12 && forall k :: 0 <= k < 12 ==> ret[k] == Parity(f[k])
    ensures ret == LaneSum(f, Lanes())
  {
    hide Parity, LaneSum;
    forall k | 0 <= k < 12 ensures ret[k] == LaneSum(f, Lanes())[k] {
      LaneSumBits(f, 64, k);
      assert f[k][..64] == f[k];
    }
  }

  /** The register holds the last 64 elements, the latest one in lane 63. */
  ghost predicate Register(reg: Vec, s: seq<Elem>, n: nat)
  {
    forall r :: 0 <= r < 64 ==> Lane(reg, r) == At(s, n - 64 + r)
  }

  lemma RegisterStep(reg: Vec, s: seq<Elem>, n: nat)
    requires Register(reg, s, n) && n < |s|
    ensures Register(Pushed(reg, s[n]), s, n + 1)
  {
    hide Lane, Pushed;
    forall r | 0 <= r < 64 ensures Lane(Pushed(reg, s[n]), r) == At(s, n + 1 - 64 + r) {
      PushedLane(reg, s[n], r);
    }
  }

  lemma RegisterStart(reg: Vec, s: seq<Elem>)
    requires forall i :: 0 <= i < 12 ==> reg[i] == Spread(false)
    ensures Register(reg, s, 0)
  {
    forall r | 0 <= r < 64 ensures Lane(reg, r) == Nil() { assert forall i :: 0 <= i < 12 ==> !reg[i][r]; }
  }

  ghost predicate Multiplied(prod: Vec, f: Vec, g: Vec)
  {
    forall r :: 0 <= r < 64 ==> Lane(prod, r) == Mul(Lane(f, r), Lane(g, r))
  }

  lemma MultipliedFrom(prod: Vec, f: Vec, g: Vec)
    requires forall r :: 0 <= r < 64 ==> Lane(prod, r) == Mul(Lane(f, r), Lane(g, r))
    ensures Multiplied(prod, f, g)
  {}

  lemma MultipliedAt(prod: Vec, f: Vec, g: Vec, r: nat)
    requires Multiplied(prod, f, g) && r < 64
    ensures Lane(prod, r) == Mul(Lane(f, r), Lane(g, r))
  {}

  /** Lane by lane products from the top lane down are the terms of the discrepancy. */
  lemma {:induction false} LanesAndConv(prod: Vec, reg: Vec, c0: Elem, c: Vec, s: seq<Elem>, n: nat, k: nat)
    requires k <= 64 && Register(reg, s, n)
    requires Multiplied(prod, reg, c)
    ensures Add(LaneSum(prod, 64 - k), Conv(Poly(c0, c), s, n, k + 1)) == Add(LaneSum(prod, Lanes()), Mul(c0, At(s, n)))
    decreases k
  {
    hide *;
    var p := Poly(c0, c);
    PolyAt(c0, c, k);
    ConvStep(p, s, n, k);
    if k == 0 {
      ConvEmpty(p, s, n);
      AddLaws(Mul(c0, At(s, n)), Nil(), Nil());
      AddLaws(Nil(), Mul(c0, At(s, n)), Nil());
    } else {
      var r := 64 - k;
      LanesAndConv(prod, reg, c0, c, s, n, k - 1);
      LaneSumStep(prod, r);
      RegisterAt(reg, s, n, r);
      MulCommutes(Lane(reg, r), Lane(c, r));
      assert Lane(prod, r) == Mul(Lane(reg, r), Lane(c, r)) by { MultipliedAt(prod, reg, c, r); }
      MoveTerm(LaneSum(prod, r), Mul(p[k], At(s, n - k)), Conv(p, s, n, k));
    }
  }

  lemma RegisterAt(reg: Vec, s: seq<Elem>, n: nat, r: nat)
    requires Register(reg, s, n) && r < 64
    ensures Lane(reg, r) == At(s, n - (64 - r))
  {}

  lemma LaneSumStep(f: Vec, r: nat)
    requires r < 64
    ensures LaneSum(f, r + 1) == Add(LaneSum(f, r), Lane(f, r))
  {}

  lemma MoveTerm(a: Elem, t: Elem, b: Elem)
    ensures Add(a, Add(b, t)) == Add(Add(a, t), b)
  {}

  /** The discrepancy that the code computes. */
  lemma DiscrepancyComputed(prod: Vec, reg: Vec, c0: Elem, c: Vec, s: seq<Elem>, n: nat)
    requires n < |s| && Register(reg, s, n)
    requires Multiplied(prod, reg, c)
    ensures Add(LaneSum(prod, Lanes()), Mul(c0, s[n])) == Discrepancy(Poly(c0, c), s, n)
  {
    hide Mul, Conv, Poly, Lane;
    LanesAndConv(prod, reg, c0, c, s, n, 64);
    AddLaws(Conv(Poly(c0, c), s, n, 65), Nil(), Nil());
    AddLaws(Nil(), Conv(Poly(c0, c), s, n, 65), Nil());
  }

  // ---------------------------------------------------------------- the algorithm

  /** The variables of the algorithm after n steps. */
  ghost predicate Running(c0: Elem, c: Vec, p: Vec, b: Elem, l: nat, reg: Vec, s: seq<Elem>, n: nat)
  {
    l <= n && Register(reg, s, n) && State(Poly(c0, c), Poly(Nil(), p), b, l, s, n, 64)
  }

  /** mask_nonzero(d) & mask_leq(2 L, N), for numbers that fit 16 bits */
  function ChangeMask(d: Elem, l: nat, n: nat): (mask: bool)
  {
    d != Nil() && 2 * l <= n
  }

  lemma RunningStep(c0: Elem, c: Vec, p: Vec, b: Elem, l: nat, reg: Vec, s: seq<Elem>, n: nat, d: Elem, mask: bool,
                    c2: Vec, p2: Vec, b2: Elem, l2: nat, reg2: Vec)
    requires n < |s| && l <= n && mask == ChangeMask(d, l, n) && reg2 == Pushed(reg, s[n])
    requires forall k :: 0 <= k < 64 ==> Lane(c2, k) == Add(Mul(b, Lane(c, k)), Mul(d, Lane(p, k)))
    requires p2 == Pushed(if mask then c else p, if mask then c0 else Nil())
    requires b2 == (if mask then d else b) && l2 == if mask then n + 1 - l else l
    requires d == Discrepancy(Poly(c0, c), s, n) && Running(c0, c, p, b, l, reg, s, n)
    ensures l2 <= n + 1 && Running(Mul(c0, b), c2, p2, b2, l2, reg2, s, n + 1)
  {
    hide Mul, Discrepancy, Combined, Raised, Poly, Lane, Pushed, State, Register;
    MixedPoly(b, c0, c, d, p, c2);
    PushedPoly(c0, c);
    PushedPoly(Nil(), p);
    RegisterStep(reg, s, n);
    StateStep(Poly(c0, c), Poly(Nil(), p), b, l, s, n, 64, d, mask, Poly(Nil(), p2), b2, l2);
  }

  lemma RunningRegister(c0: Elem, c: Vec, p: Vec, b: Elem, l: nat, reg: Vec, s: seq<Elem>, n: nat)
    requires Running(c0, c, p, b, l, reg, s, n)
    ensures Register(reg, s, n)
  {}

  /** C = b C + d B in all lanes */
  method Combine(b: Elem, c: Vec, d: Elem, p: Vec) returns (r: Vec)
    ensures forall k :: 0 <= k < 64 ==> Lane(r, k) == Add(Mul(b, Lane(c, k)), Mul(d, Lane(p, k)))
  {
    hide *;
    var bTmp := Product(Broadcast(d), p);
    var cTmp := Product(Broadcast(b), c);
    r := XorVec(bTmp, cTmp);
    forall k | 0 <= k < 64 ensures Lane(r, k) == Add(Mul(b, Lane(c, k)), Mul(d, Lane(p, k))) {
      XorLane(bTmp, cTmp, k);
      BroadcastLane(d, k);
      BroadcastLane(b, k);
      AddLaws(Mul(b, Lane(c, k)), Mul(d, Lane(p, k)), Nil());
    }
  }

  lemma RunningStart(s: seq<Elem>, zero: Vec)
    requires zero == Broadcast(Nil())
    ensures Running(One(), zero, Pushed(zero, One()), One(), 0, zero, s, 0)
  {
    hide *;
    var p := Pushed(zero, One());
    BroadcastWords(zero);
    RegisterStart(zero, s);
    forall j | 0 <= j < 65
      ensures Poly(One(), zero)[j] == (if j == 0 then One() else Nil())
      ensures Poly(Nil(), p)[j] == (if j == 1 then One() else Nil())
    {
      PolyAt(One(), zero, j);
      PolyAt(Nil(), p, j);
      if j > 0 {
        BroadcastLane(Nil(), 64 - j);
        PushedLane(zero, One(), 64 - j);
        if j > 1 { BroadcastLane(Nil(), 65 - j); }
      }
    }
    StartDegrees(Poly(One(), zero), Poly(Nil(), p));
    StateStart(Poly(One(), zero), Poly(Nil(), p), s, 64);
    RunningIs(One(), zero, p, One(), 0, zero, s, 0);
  }

  lemma BroadcastWords(zero: Vec)
    requires zero == Broadcast(Nil())
    ensures forall i :: 0 <= i < 12 ==> zero[i] == Spread(false)
  {}

  lemma StartDegrees(c: seq<Elem>, p: seq<Elem>)
    requires |c| == |p| == 65
    requires forall j :: 0 <= j < 65 ==> c[j] == if j == 0 then One() else Nil()
    requires forall j :: 0 <= j < 65 ==> p[j] == if j == 1 then One() else Nil()
    ensures DegreeAtMost(c, 0) && DegreeAtMost(p, 1)
  {}

  lemma RunningIs(c0: Elem, c: Vec, p: Vec, b: Elem, l: nat, reg: Vec, s: seq<Elem>, n: nat)
    ensures Running(c0, c, p, b, l, reg, s, n)
       <==> l <= n && Register(reg, s, n) && State(Poly(c0, c), Poly(Nil(), p), b, l, s, n, 64)
  {}

  lemma StateMeans(c: seq<Elem>, p: seq<Elem>, b: Elem, l: nat, s: seq<Elem>, n: nat, t: nat)
    requires State(c, p, b, l, s, n, t)
    ensures l <= t ==> Recurrence(c, l, s, n) && Shortest(l, s, n)
    ensures l > t ==> Shortest(t + 1, s, n)
  {
    hide Recurrence, Shortest, DegreeAtMost, Holds, Discrepancy;
  }

  /** vec_mul(out, c0^-1, C) */
  lemma RunningEnd(c0: Elem, c: Vec, p: Vec, b: Elem, l: nat, reg: Vec, s: seq<Elem>, n: nat, out: Vec)
    requires Running(c0, c, p, b, l, reg, s, n)
    requires forall r :: 0 <= r < 64 ==> Lane(out, r) == Mul(Inv(c0), Lane(c, r))
    ensures l <= 64 ==> Recurrence(Poly(One(), out), l, s, n) && Shortest(l, s, n)
    ensures l > 64 ==> Shortest(65, s, n)
  {
    hide *;
    RunningIs(c0, c, p, b, l, reg, s, n);
    var q := Poly(c0, c);
    StateMeans(q, Poly(Nil(), p), b, l, s, n, 64);
    if l <= 64 {
      PolyAt(c0, c, 0);
      NormalizedRecurrence(q, l, s, n);
      var r := Normalized(q, Inv(c0));
      forall j | 0 <= j < 65 ensures Poly(One(), out)[j] == r[j] {
        PolyAt(One(), out, j);
        PolyAt(c0, c, j);
        NormalizedAt(q, Inv(c0), j);
      }
      assert Poly(One(), out) == r;
    }
  }

  /** bm, from the coefficients on: the result is a shortest recurrence, provided that there is one of
      length at most 64. */
  method Bm(coefs: seq<Elem>) returns (out: Vec, length: nat)
    requires |coefs| < 0x8000
    ensures length <= 64 ==> Recurrence(Poly(One(), out), length, coefs, |coefs|) && Shortest(length, coefs, |coefs|)
    ensures length > 64 ==> Shortest(65, coefs, |coefs|)
  {
    hide *;
    var zero: Vec := Broadcast(Nil());
    var reg, c, p := zero, zero, Pushed(zero, One());
    var c0, b := One(), One();
    length := 0;
    RunningStart(coefs, zero);
    var n := 0;
    while n < |coefs|
      invariant 0 <= length <= n <= |coefs| && Running(c0, c, p, b, length, reg, coefs, n)
    {
      var prod := Product(reg, c);
      MultipliedFrom(prod, reg, c);
      var d := VecReduce(prod);
      var t0, t1 := GfMul2(c0, coefs[n], b);
      d := Add(d, t0);
      RunningRegister(c0, c, p, b, length, reg, coefs, n);
      DiscrepancyComputed(prod, reg, c0, c, coefs, n);
      var mask := ChangeMask(d, length, n);
      var c2 := Combine(b, c, d, p);
      ChosenIs(p, c, mask);
      var p2 := Pushed(Chosen(p, c, mask), If(mask, c0));
      IfFalse(c0);
      var b2, length2, reg2 := if mask then d else b, if mask then n + 1 - length else length, Pushed(reg, coefs[n]);
      RunningStep(c0, c, p, b, length, reg, coefs, n, d, mask, c2, p2, b2, length2, reg2);
      c, p, c0, b, length, reg := c2, p2, t1, b2, length2, reg2;
      n := n + 1;
    }
    var i := GfInv(c0);
    var inverse := Broadcast(i);
    out := Product(inverse, c);
    forall r | 0 <= r < 64 ensures Lane(out, r) == Mul(Inv(c0), Lane(c, r)) { BroadcastLane(i, r); }
    RunningEnd(c0, c, p, b, length, reg, coefs, |coefs|, out);
  }
}
