/** Polynomials of degree below t over the field of 4096 elements, modulo y^t + y^3 + y + x. */
module ExtensionRing {
  import opened Field
  import opened ScalarField

  type Row = seq<Elem>

  function VNil(t: nat): (r: Row)
    ensures |r| == t
  {
    seq(t, i => Nil())
  }

  function VAdd(a: Row, b: Row): (r: Row)
    requires |a| == |b|
    ensures |r| == |a|
  {
    seq(|a|, i requires 0 <= i < |a| => Add(a[i], b[i]))
  }

  function VScale(e: Elem, a: Row): (r: Row)
    ensures |r| == |a|
  {
    seq(|a|, i requires 0 <= i < |a| => Mul(e, a[i]))
  }

  function VUnit(t: nat, k: nat): (r: Row)
    ensures |r| == t
  {
    seq(t, i => UnitEntry(i, k))
  }

  function UnitEntry(i: int, k: nat): (e: Elem)
  {
    if i == k then One() else Nil()
  }

  lemma VAddAt(a: Row, b: Row, i: nat)
    requires |a| == |b| && i < |a|
    ensures VAdd(a, b)[i] == Add(a[i], b[i])
  {}

  lemma VScaleAt(e: Elem, a: Row, i: nat)
    requires i < |a|
    ensures VScale(e, a)[i] == Mul(e, a[i])
  {}

  lemma VUnitAt(t: nat, k: nat, i: nat)
    requires i < t
    ensures VUnit(t, k)[i] == (if i == k then One() else Nil()) && VNil(t)[i] == Nil()
  {}

  lemma VAddLaws(a: Row, b: Row, c: Row)
    requires |a| == |b| == |c|
    ensures VAdd(a, b) == VAdd(b, a) && VAdd(VAdd(a, b), c) == VAdd(a, VAdd(b, c))
    ensures VAdd(a, VNil(|a|)) == a == VAdd(VNil(|a|), a) && VAdd(a, a) == VNil(|a|)
  {
    hide Add, Nil;
    forall i | 0 <= i < |a|
      ensures Add(a[i], b[i]) == Add(b[i], a[i]) && Add(Add(a[i], b[i]), c[i]) == Add(a[i], Add(b[i], c[i]))
      ensures Add(a[i], Nil()) == a[i] == Add(Nil(), a[i]) && Add(a[i], a[i]) == Nil()
    {
      AddLaws(a[i], b[i], c[i]);
      AddLaws(Nil(), a[i], c[i]);
    }
  }

  lemma VScaleLaws(d: Elem, e: Elem, a: Row, b: Row)
    requires |a| == |b|
    ensures VScale(e, VAdd(a, b)) == VAdd(VScale(e, a), VScale(e, b))
    ensures VScale(Add(d, e), a) == VAdd(VScale(d, a), VScale(e, a))
    ensures VScale(d, VScale(e, a)) == VScale(Mul(d, e), a) && VScale(One(), a) == a && VScale(Nil(), a) == VNil(|a|)
  {
    hide Add, Nil, Mul, One;
    forall i | 0 <= i < |a|
      ensures Mul(e, Add(a[i], b[i])) == Add(Mul(e, a[i]), Mul(e, b[i]))
      ensures Mul(Add(d, e), a[i]) == Add(Mul(d, a[i]), Mul(e, a[i]))
      ensures Mul(d, Mul(e, a[i])) == Mul(Mul(d, e), a[i]) && Mul(One(), a[i]) == a[i] && Mul(Nil(), a[i]) == Nil()
    {
      MulLinear(e, a[i], b[i]);
      MulLinear(d, e, a[i]);
      MulLinear(a[i], a[i], a[i]);
      MulAssociates(d, e, a[i]);
      MulCommutes(a[i], a[i]);
    }
  }

  // ---------------------------------------------------------------- powers of y

  /** The field element x, the number 2 of the code. */
  function XElem(): (e: Elem)
  {
    X(One())
  }

  /** y a */
  function Y(a: Row): (r: Row)
    requires |a| >= 4
    ensures |r| == |a|
  {
    seq(|a|, i requires 0 <= i < |a| => YAt(a, i))
  }

  function YAt(a: Row, i: nat): (e: Elem)
    requires |a| >= 4 && i < |a|
  {
    var top := a[|a| - 1];
    if i == 0 then Mul(XElem(), top) else if i == 1 || i == 3 then Add(a[i - 1], top) else a[i - 1]
  }

  /** The residue of y^k. */
  function YK(t: nat, k: nat): (r: Row)
    requires t >= 4
    ensures |r| == t
    decreases k
  {
    if k == 0 then VUnit(t, 0) else Y(YK(t, k - 1))
  }

  lemma YIs(a: Row, i: nat)
    requires |a| >= 4 && i < |a|
    ensures Y(a)[i] == if i == 0 then Mul(XElem(), a[|a| - 1])
                       else if i == 1 || i == 3 then Add(a[i - 1], a[|a| - 1]) else a[i - 1]
  {}

  lemma YKStep(t: nat, k: nat)
    requires t >= 4
    ensures YK(t, 0) == VUnit(t, 0) && YK(t, k + 1) == Y(YK(t, k))
  {}

  lemma {:induction false} YKUnit(t: nat, k: nat)
    requires t >= 4 && k < t
    ensures YK(t, k) == VUnit(t, k)
    decreases k
  {
    hide *;
    YKStep(t, 0);
    if k > 0 {
      YKUnit(t, k - 1);
      YKStep(t, k - 1);
      var u, r := VUnit(t, k - 1), VUnit(t, k);
      forall i | 0 <= i < t ensures Y(u)[i] == r[i] {
        YIs(u, i);
        VUnitAt(t, k, i);
        VUnitAt(t, k - 1, t - 1);
        MulLinear(XElem(), XElem(), XElem());
        if i > 0 {
          VUnitAt(t, k - 1, i - 1);
          AddLaws(u[i - 1], Nil(), Nil());
        }
      }
      assert Y(u) == r;
    }
  }

  /** y^t = y^3 + y + x */
  lemma YKTop(t: nat)
    requires t >= 4
    ensures YK(t, t) == VAdd(VAdd(YK(t, 3), YK(t, 1)), VScale(XElem(), YK(t, 0)))
  {
    hide *;
    YKUnit(t, t - 1);
    YKUnit(t, 3);
    YKUnit(t, 1);
    YKUnit(t, 0);
    YKStep(t, t - 1);
    var u, p, q, z := VUnit(t, t - 1), VUnit(t, 3), VUnit(t, 1), VUnit(t, 0);
    var v := VAdd(VAdd(p, q), VScale(XElem(), z));
    forall i | 0 <= i < t ensures Y(u)[i] == v[i] {
      YIs(u, i);
      VUnitAt(t, t - 1, t - 1);
      if i > 0 { VUnitAt(t, t - 1, i - 1); }
      VUnitAt(t, 3, i);
      VUnitAt(t, 1, i);
      VUnitAt(t, 0, i);
      VAddAt(VAdd(p, q), VScale(XElem(), z), i);
      VAddAt(p, q, i);
      VScaleAt(XElem(), z, i);
      MulLinear(XElem(), XElem(), XElem());
      AddNil(One());
      AddNil(Nil());
      AddNil(XElem());
    }
    assert Y(u) == v;
  }

  lemma AddNil(a: Elem)
    ensures Add(a, Nil()) == a == Add(Nil(), a)
  {
    AddLaws(a, Nil(), Nil());
  }

  lemma YLinear(a: Row, b: Row, e: Elem)
    requires |a| == |b| >= 4
    ensures Y(VAdd(a, b)) == VAdd(Y(a), Y(b)) && Y(VScale(e, a)) == VScale(e, Y(a))
  {
    hide Mul, Nil, One, Add, XElem;
    forall i | 0 <= i < |a|
      ensures YAt(VAdd(a, b), i) == Add(YAt(a, i), YAt(b, i)) && YAt(VScale(e, a), i) == Mul(e, YAt(a, i))
    {
      var ta, tb := a[|a| - 1], b[|a| - 1];
      MulLinear(XElem(), ta, tb);
      MulAssociates(XElem(), e, ta);
      MulAssociates(e, XElem(), ta);
      MulCommutes(XElem(), e);
      if i > 0 {
        Regroup(a[i - 1], b[i - 1], ta, tb);
        MulLinear(e, a[i - 1], ta);
      }
    }
  }

  /** The relation at every higher power. */
  lemma {:induction false} YKReduces(t: nat, k: nat)
    requires t >= 4 && k >= t
    ensures YK(t, k) == VAdd(VAdd(YK(t, k - t + 3), YK(t, k - t + 1)), VScale(XElem(), YK(t, k - t)))
    decreases k
  {
    hide *;
    if k == t {
      YKTop(t);
    } else {
      YKReduces(t, k - 1);
      var i := k - 1 - t;
      var a, b, c := YK(t, i + 3), YK(t, i + 1), YK(t, i);
      YKStep(t, k - 1);
      YKStep(t, i + 3);
      YKStep(t, i + 1);
      YKStep(t, i);
      YLinear(VAdd(a, b), VScale(XElem(), c), One());
      YLinear(a, b, One());
      YLinear(c, c, XElem());
    }
  }

  // ---------------------------------------------------------------- residues of polynomials

  /** The residue of the polynomial with the first k coefficients of p. */
  function Residue(t: nat, p: Row, k: nat): (r: Row)
    requires t >= 4 && k <= |p|
    ensures |r| == t
    decreases k
  {
    if k == 0 then VNil(t) else VAdd(Residue(t, p, k - 1), VScale(p[k - 1], YK(t, k - 1)))
  }

  lemma ResidueStep(t: nat, p: Row, k: nat)
    requires t >= 4 && k < |p|
    ensures Residue(t, p, k + 1) == VAdd(Residue(t, p, k), VScale(p[k], YK(t, k)))
  {}

  lemma ResidueEmpty(t: nat, p: Row)
    requires t >= 4
    ensures Residue(t, p, 0) == VNil(t)
  {}

  /** Adding to one coefficient adds a multiple of a power of y. */
  lemma {:induction false} ResidueToggle(t: nat, p: Row, i: nat, e: Elem, k: nat)
    requires t >= 4 && i < |p| && k <= |p|
    ensures Residue(t, p[i := Add(p[i], e)], k)
         == if i < k then VAdd(Residue(t, p, k), VScale(e, YK(t, i))) else Residue(t, p, k)
    decreases k
  {
    hide *;
    var q := p[i := Add(p[i], e)];
    if k == 0 {
      ResidueEmpty(t, p);
      ResidueEmpty(t, q);
    } else {
      var j := k - 1;
      ResidueToggle(t, p, i, e, j);
      ResidueStep(t, p, j);
      ResidueStep(t, q, j);
      var u, v := Residue(t, p, j), VScale(p[j], YK(t, j));
      if j == i {
        VScaleLaws(p[i], e, YK(t, i), YK(t, i));
        VAddLaws(u, v, VScale(e, YK(t, i)));
      } else if i < j {
        var x := VScale(e, YK(t, i));
        VAddLaws(u, x, v);
        VAddLaws(x, v, v);
        VAddLaws(u, v, x);
      }
    }
  }

  /** Coefficients below y^t are their own residue. */
  lemma {:induction false} ResidueSmall(t: nat, p: Row, k: nat)
    requires t >= 4 && k <= t <= |p|
    ensures Residue(t, p, k) == p[..k] + VNil(t - k)
    decreases k
  {
    hide *;
    if k == 0 {
      ResidueEmpty(t, p);
      assert p[..0] + VNil(t) == VNil(t);
    } else {
      var j := k - 1;
      ResidueSmall(t, p, j);
      YKUnit(t, j);
      ResidueStep(t, p, j);
      PlaceCoefficient(t, p, j);
    }
  }

  lemma PlaceCoefficient(t: nat, p: Row, j: nat)
    requires j < t <= |p|
    ensures VAdd(p[..j] + VNil(t - j), VScale(p[j], VUnit(t, j))) == p[..j + 1] + VNil(t - j - 1)
  {
    hide *;
    var a, b, c := p[..j] + VNil(t - j), VScale(p[j], VUnit(t, j)), p[..j + 1] + VNil(t - j - 1);
    var r := VAdd(a, b);
    forall i | 0 <= i < t ensures r[i] == c[i] {
      VAddAt(a, b, i);
      VScaleAt(p[j], VUnit(t, j), i);
      VUnitAt(t, j, i);
      if i >= j { VUnitAt(t - j, 0, i - j); }
      if i > j { VUnitAt(t - j - 1, 0, i - j - 1); }
      MulLinear(p[j], p[j], p[j]);
      AddNil(a[i]);
      AddNil(p[j]);
    }
    assert r == c;
  }

  // ---------------------------------------------------------------- multiplication

  /** The sum of a_i b_j y^(i+j) over the rows before i and the first j products of row i. */
  function PartialSum(a: Row, b: Row, i: nat, j: nat): (r: Row)
    requires |a| == |b| >= 4 && i <= |a| && j <= |a| && (i == |a| ==> j == 0)
    ensures |r| == |a|
    decreases i, j
  {
    if j > 0 then VAdd(PartialSum(a, b, i, j - 1), VScale(Mul(a[i], b[j - 1]), YK(|a|, i + (j - 1))))
    else if i > 0 then PartialSum(a, b, i - 1, |a|)
    else VNil(|a|)
  }

  /** The product in the quotient ring. */
  function RMul(a: Row, b: Row): (r: Row)
    requires |a| == |b| >= 4
    ensures |r| == |a|
  {
    PartialSum(a, b, |a|, 0)
  }

  lemma PartialSumStep(a: Row, b: Row, i: nat, j: nat)
    requires |a| == |b| >= 4 && i < |a| && j < |a|
    ensures PartialSum(a, b, 0, 0) == VNil(|a|) && PartialSum(a, b, i + 1, 0) == PartialSum(a, b, i, |a|)
    ensures PartialSum(a, b, i, j + 1) == VAdd(PartialSum(a, b, i, j), VScale(Mul(a[i], b[j]), YK(|a|, i + j)))
  {}

  /** The buffer after these products. */
  ghost predicate Collected(prod: Row, a: Row, b: Row, i: nat, j: nat)
  {
    && |a| == |b| >= 4 && i <= |a| && j <= |a| && (i == |a| ==> j == 0) && |prod| == 2 * |a| - 1
    && Residue(|a|, prod, |prod|) == PartialSum(a, b, i, j)
  }

  lemma CollectedStep(prod: Row, a: Row, b: Row, i: nat, j: nat)
    requires Collected(prod, a, b, i, j) && i < |a| && j < |a|
    ensures Collected(prod[i + j := Add(prod[i + j], Mul(a[i], b[j]))], a, b, i, j + 1)
  {
    hide Residue, PartialSum, VAdd, VScale, Mul, Add;
    PartialSumStep(a, b, i, j);
    ResidueToggle(|a|, prod, i + j, Mul(a[i], b[j]), |prod|);
  }

  lemma {:induction false} ResidueZero(t: nat, p: Row, k: nat)
    requires t >= 4 && k <= |p| && forall i :: 0 <= i < |p| ==> p[i] == Nil()
    ensures Residue(t, p, k) == VNil(t)
    decreases k
  {
    hide *;
    if k == 0 {
      ResidueEmpty(t, p);
    } else {
      ResidueZero(t, p, k - 1);
      ResidueStep(t, p, k - 1);
      VScaleLaws(Nil(), Nil(), YK(t, k - 1), YK(t, k - 1));
      VAddLaws(VNil(t), VNil(t), VNil(t));
    }
  }

  lemma CollectedEnds(prod: Row, a: Row, b: Row, i: nat)
    requires |a| == |b| >= 4 && |prod| == 2 * |a| - 1
    ensures (forall k :: 0 <= k < |prod| ==> prod[k] == Nil()) ==> Collected(prod, a, b, 0, 0)
    ensures i < |a| && Collected(prod, a, b, i, |a|) ==> Collected(prod, a, b, i + 1, 0)
    ensures Collected(prod, a, b, |a|, 0) ==> Residue(|a|, prod, |prod|) == RMul(a, b)
  {
    PartialSumStep(a, b, if i < |a| then i else 0, 0);
    hide Residue, PartialSum;
    if forall k :: 0 <= k < |prod| ==> prod[k] == Nil() { ResidueZero(|a|, prod, |prod|); }
  }

  /** The coefficient of y^i goes to the three lower ones. */
  function FoldedRow(p: Row, t: nat, i: nat): (q: Row)
    requires 4 <= t <= i < |p|
    ensures |q| == |p|
  {
    var q1 := p[i - t + 3 := Add(p[i - t + 3], p[i])];
    var q2 := q1[i - t + 1 := Add(q1[i - t + 1], p[i])];
    q2[i - t := Add(q2[i - t], Mul(p[i], XElem()))]
  }

  lemma FoldedRowResidue(p: Row, t: nat, i: nat)
    requires 4 <= t <= i < |p|
    ensures Residue(t, FoldedRow(p, t, i), i) == Residue(t, p, i + 1)
  {
    hide *;
    var e := p[i];
    var q1 := p[i - t + 3 := Add(p[i - t + 3], e)];
    var q2 := q1[i - t + 1 := Add(q1[i - t + 1], e)];
    var q3 := q2[i - t := Add(q2[i - t], Mul(e, XElem()))];
    FoldedRowIs(p, t, i);
    ResidueToggle(t, p, i - t + 3, e, i);
    ResidueToggle(t, q1, i - t + 1, e, i);
    ResidueToggle(t, q2, i - t, Mul(e, XElem()), i);
    ResidueStep(t, p, i);
    YKReduces(t, i);
    var r, a, b, c := Residue(t, p, i), YK(t, i - t + 3), YK(t, i - t + 1), YK(t, i - t);
    VScaleLaws(e, e, VAdd(a, b), VScale(XElem(), c));
    VScaleLaws(e, e, a, b);
    VScaleLaws(e, XElem(), c, c);
    VAddLaws(r, VScale(e, a), VScale(e, b));
    VAddLaws(r, VAdd(VScale(e, a), VScale(e, b)), VScale(Mul(e, XElem()), c));
  }

  lemma FoldedRowIs(p: Row, t: nat, i: nat)
    requires 4 <= t <= i < |p|
    ensures FoldedRow(p, t, i)
         == p[i - t + 3 := Add(p[i - t + 3], p[i])]
             [i - t + 1 := Add(p[i - t + 3 := Add(p[i - t + 3], p[i])][i - t + 1], p[i])]
             [i - t := Add(p[i - t + 3 := Add(p[i - t + 3], p[i])]
                            [i - t + 1 := Add(p[i - t + 3 := Add(p[i - t + 3], p[i])][i - t + 1], p[i])][i - t], Mul(p[i], XElem()))]
  {}

  /** GF_mul(out, in0, in1) */
  method GFMul(in0: Row, in1: Row) returns (out: Row)
    requires |in0| == |in1| >= 4
    ensures out == RMul(in0, in1)
  {
    hide *;
    var t := |in0|;
    var prod := new Elem[2 * t - 1](k => Nil());
    CollectedEnds(prod[..], in0, in1, 0);
    var i := 0;
    while i < t
      invariant 0 <= i <= t && Collected(prod[..], in0, in1, i, 0)
    {
      var j := 0;
      while j < t
        invariant 0 <= j <= t && Collected(prod[..], in0, in1, i, j)
      {
        ghost var p := prod[..];
        var e := GfMul(in0[i], in1[j]);
        CollectedStep(p, in0, in1, i, j);
        prod[i + j] := Add(prod[i + j], e);
        assert prod[..] == p[i + j := Add(p[i + j], e)];
        j := j + 1;
      }
      CollectedEnds(prod[..], in0, in1, i);
      i := i + 1;
    }
    CollectedEnds(prod[..], in0, in1, t);
    i := 2 * (t - 1);
    while i >= t
      invariant t - 1 <= i <= 2 * (t - 1) && Residue(t, prod[..], i + 1) == RMul(in0, in1)
    {
      FoldTop(prod, t, i);
      i := i - 1;
    }
    ResidueSmall(t, prod[..], t);
    out := prod[..t];
    assert out + VNil(0) == out;
  }

  method FoldTop(prod: array<Elem>, t: nat, i: nat)
    requires 4 <= t <= i < prod.Length
    modifies prod
    ensures Residue(t, prod[..], i) == Residue(t, old(prod[..]), i + 1)
  {
    hide *;
    ghost var p := prod[..];
    FoldedRowResidue(p, t, i);
    FoldedRowIs(p, t, i);
    prod[i - t + 3] := Add(prod[i - t + 3], prod[i]);
    prod[i - t + 1] := Add(prod[i - t + 1], prod[i]);
    var e := GfMul(prod[i], XElem());
    prod[i - t] := Add(prod[i - t], e);
    assert prod[..] == FoldedRow(p, t, i);
  }
}
