/** The product that the code computes makes the rows a commutative ring with a one: multiplying by a row
    is a combination of powers of the map that multiplies by y, and all such maps commute. */
module ExtensionRingLaws {
  import opened Field
  import opened ExtensionRing

  /** y^i b */
  function YPow(b: Row, i: nat): (r: Row)
    requires |b| >= 4
    ensures |r| == |b|
    decreases i
  {
    if i == 0 then b else Y(YPow(b, i - 1))
  }

  /** The sum of a_i y^i b over the first k coefficients of a. */
  function Act(a: Row, b: Row, k: nat): (r: Row)
    requires |b| >= 4 && k <= |a|
    ensures |r| == |b|
    decreases k
  {
    if k == 0 then VNil(|b|) else VAdd(Act(a, b, k - 1), VScale(a[k - 1], YPow(b, k - 1)))
  }

  lemma YPowStep(b: Row, i: nat)
    requires |b| >= 4
    ensures YPow(b, 0) == b && YPow(b, i + 1) == Y(YPow(b, i))
  {}

  lemma ActStep(a: Row, b: Row, k: nat)
    requires |b| >= 4 && k < |a|
    ensures Act(a, b, 0) == VNil(|b|) && Act(a, b, k + 1) == VAdd(Act(a, b, k), VScale(a[k], YPow(b, k)))
  {}

  lemma {:induction false} YPowLinear(b: Row, c: Row, e: Elem, i: nat)
    requires |b| == |c| >= 4
    ensures YPow(VAdd(b, c), i) == VAdd(YPow(b, i), YPow(c, i)) && YPow(VScale(e, b), i) == VScale(e, YPow(b, i))
    ensures YPow(Y(b), i) == Y(YPow(b, i))
    decreases i
  {
    hide *;
    if i == 0 {
      YPowStep(VAdd(b, c), 0);
      YPowStep(VScale(e, b), 0);
      YPowStep(Y(b), 0);
      YPowStep(b, 0);
      YPowStep(c, 0);
    } else {
      var j := i - 1;
      YPowLinear(b, c, e, j);
      YPowStep(VAdd(b, c), j);
      YPowStep(VScale(e, b), j);
      YPowStep(Y(b), j);
      YPowStep(b, j);
      YPowStep(c, j);
      YLinear(YPow(b, j), YPow(c, j), e);
    }
  }

  lemma YNil(t: nat)
    requires t >= 4
    ensures Y(VNil(t)) == VNil(t)
  {
    hide *;
    YLinear(VNil(t), VNil(t), One());
    VAddLaws(VNil(t), VNil(t), VNil(t));
    VAddLaws(Y(VNil(t)), Y(VNil(t)), VNil(t));
  }

  /** Multiplying by a row is linear. */
  lemma {:induction false} ActLinear(a: Row, b: Row, c: Row, e: Elem, k: nat)
    requires |b| == |c| >= 4 && k <= |a|
    ensures Act(a, VAdd(b, c), k) == VAdd(Act(a, b, k), Act(a, c, k))
    ensures Act(a, VScale(e, b), k) == VScale(e, Act(a, b, k))
    decreases k
  {
    hide *;
    if k == 0 {
      ActNone(a, VAdd(b, c));
      ActNone(a, VScale(e, b));
      ActNone(a, b);
      ActNone(a, c);
      VAddLaws(VNil(|b|), VNil(|b|), VNil(|b|));
      ScaleNil(e, |b|);
    } else {
      var j := k - 1;
      ActLinear(a, b, c, e, j);
      ActStep(a, VAdd(b, c), j);
      ActStep(a, VScale(e, b), j);
      ActStep(a, b, j);
      ActStep(a, c, j);
      YPowLinear(b, c, e, j);
      var p, q, u, v := Act(a, b, j), Act(a, c, j), YPow(b, j), YPow(c, j);
      VScaleLaws(a[j], a[j], u, v);
      Regroup4(p, q, VScale(a[j], u), VScale(a[j], v));
      VScaleLaws(e, e, p, VScale(a[j], u));
      ScaleSwap(e, a[j], u);
    }
  }

  lemma ActNone(a: Row, b: Row)
    requires |b| >= 4
    ensures Act(a, b, 0) == VNil(|b|)
  {}

  lemma ScaleNil(e: Elem, t: nat)
    ensures VScale(e, VNil(t)) == VNil(t)
  {
    hide Mul, Nil;
    MulLinear(e, e, e);
  }

  lemma ScaleSwap(d: Elem, e: Elem, a: Row)
    ensures VScale(d, VScale(e, a)) == VScale(e, VScale(d, a))
  {
    hide *;
    VScaleLaws(d, e, a, a);
    VScaleLaws(e, d, a, a);
    MulCommutes(d, e);
  }

  lemma Regroup4(p: Row, q: Row, u: Row, v: Row)
    requires |p| == |q| == |u| == |v|
    ensures VAdd(VAdd(p, q), VAdd(u, v)) == VAdd(VAdd(p, u), VAdd(q, v))
  {
    hide *;
    VAddLaws(p, q, VAdd(u, v));
    VAddLaws(q, u, v);
    VAddLaws(u, q, v);
    VAddLaws(q, u, u);
    VAddLaws(p, u, VAdd(q, v));
  }

  /** Multiplying by a row commutes with multiplying by y. */
  lemma {:induction false} ActY(a: Row, b: Row, k: nat)
    requires |b| >= 4 && k <= |a|
    ensures Act(a, Y(b), k) == Y(Act(a, b, k))
    decreases k
  {
    hide *;
    if k == 0 {
      ActNone(a, Y(b));
      ActNone(a, b);
      YNil(|b|);
    } else {
      var j := k - 1;
      ActY(a, b, j);
      ActStep(a, Y(b), j);
      ActStep(a, b, j);
      YPowLinear(b, b, a[j], j);
      YLinear(Act(a, b, j), VScale(a[j], YPow(b, j)), a[j]);
      YLinear(YPow(b, j), YPow(b, j), a[j]);
    }
  }

  lemma {:induction false} ActYPow(a: Row, b: Row, k: nat, i: nat)
    requires |b| >= 4 && k <= |a|
    ensures Act(a, YPow(b, i), k) == YPow(Act(a, b, k), i)
    decreases i
  {
    hide *;
    if i == 0 {
      YPowStep(b, 0);
      YPowStep(Act(a, b, k), 0);
    } else {
      ActYPow(a, b, k, i - 1);
      YPowStep(b, i - 1);
      YPowStep(Act(a, b, k), i - 1);
      ActY(a, YPow(b, i - 1), k);
    }
  }

  /** The maps commute with each other. */
  lemma {:induction false} ActsCommute(a: Row, b: Row, c: Row, k: nat, l: nat)
    requires |c| >= 4 && k <= |a| && l <= |b|
    ensures Act(a, Act(b, c, l), k) == Act(b, Act(a, c, k), l)
    decreases l
  {
    hide *;
    if l == 0 {
      ActNone(b, c);
      ActNone(b, Act(a, c, k));
      ActNil(a, |c|, k);
    } else {
      var j := l - 1;
      ActsCommute(a, b, c, k, j);
      ActStep(b, c, j);
      ActStep(b, Act(a, c, k), j);
      ActLinear(a, Act(b, c, j), VScale(b[j], YPow(c, j)), One(), k);
      ActLinear(a, YPow(c, j), YPow(c, j), b[j], k);
      ActYPow(a, c, k, j);
    }
  }

  lemma {:induction false} ActNil(a: Row, t: nat, k: nat)
    requires t >= 4 && k <= |a|
    ensures Act(a, VNil(t), k) == VNil(t)
  {
    hide *;
    ScaleNil(Nil(), t);
    ActLinear(a, VNil(t), VNil(t), Nil(), k);
    VScaleLaws(Nil(), Nil(), Act(a, VNil(t), k), VNil(t));
  }

  // ---------------------------------------------------------------- the product is such a map

  lemma {:induction false} YPowOne(t: nat, i: nat)
    requires t >= 4
    ensures YPow(VUnit(t, 0), i) == YK(t, i)
    decreases i
  {
    hide *;
    YPowStep(VUnit(t, 0), 0);
    YKStep(t, 0);
    if i > 0 {
      YPowOne(t, i - 1);
      YPowStep(VUnit(t, 0), i - 1);
      YKStep(t, i - 1);
    }
  }

  lemma {:induction false} ActOne(a: Row, t: nat, k: nat)
    requires t >= 4 && k <= |a|
    ensures Act(a, VUnit(t, 0), k) == Residue(t, a, k)
    decreases k
  {
    hide *;
    if k == 0 {
      ActNone(a, VUnit(t, 0));
      ResidueEmpty(t, a);
    } else {
      ActOne(a, t, k - 1);
      ActStep(a, VUnit(t, 0), k - 1);
      ResidueStep(t, a, k - 1);
      YPowOne(t, k - 1);
    }
  }

  /** A row times the one. */
  lemma ActUnit(a: Row)
    requires |a| >= 4
    ensures Act(a, VUnit(|a|, 0), |a|) == a
  {
    hide *;
    ActOne(a, |a|, |a|);
    ResidueSmall(|a|, a, |a|);
    assert a[..|a|] + VNil(0) == a;
  }

  /** The sum of b_l y^(i + l) over the first j coefficients of b. */
  function ShiftedSum(b: Row, i: nat, j: nat): (r: Row)
    requires |b| >= 4 && j <= |b|
    ensures |r| == |b|
    decreases j
  {
    if j == 0 then VNil(|b|) else VAdd(ShiftedSum(b, i, j - 1), VScale(b[j - 1], YK(|b|, i + (j - 1))))
  }

  lemma ShiftedStep(b: Row, i: nat, j: nat)
    requires |b| >= 4 && j < |b|
    ensures ShiftedSum(b, i, 0) == VNil(|b|) && ShiftedSum(b, i, j + 1) == VAdd(ShiftedSum(b, i, j), VScale(b[j], YK(|b|, i + j)))
  {}

  lemma {:induction false} ShiftedNext(b: Row, i: nat, j: nat)
    requires |b| >= 4 && j <= |b|
    ensures ShiftedSum(b, i + 1, j) == Y(ShiftedSum(b, i, j))
    decreases j
  {
    hide *;
    if j == 0 {
      ShiftedStep(b, i, 0);
      ShiftedStep(b, i + 1, 0);
      YNil(|b|);
    } else {
      var l := j - 1;
      ShiftedNext(b, i, l);
      ShiftedStep(b, i, l);
      ShiftedStep(b, i + 1, l);
      assert i + 1 + l == i + l + 1;
      YKStep(|b|, i + l);
      YLinear(ShiftedSum(b, i, l), VScale(b[l], YK(|b|, i + l)), b[l]);
      YLinear(YK(|b|, i + l), YK(|b|, i + l), b[l]);
    }
  }

  lemma {:induction false} ShiftedResidue(b: Row, j: nat)
    requires |b| >= 4 && j <= |b|
    ensures ShiftedSum(b, 0, j) == Residue(|b|, b, j)
    decreases j
  {
    hide *;
    if j == 0 {
      ShiftedStep(b, 0, 0);
      ResidueEmpty(|b|, b);
    } else {
      ShiftedResidue(b, j - 1);
      ShiftedStep(b, 0, j - 1);
      ResidueStep(|b|, b, j - 1);
    }
  }

  lemma {:induction false} YPowShifted(b: Row, i: nat)
    requires |b| >= 4
    ensures YPow(b, i) == ShiftedSum(b, i, |b|)
    decreases i
  {
    hide *;
    if i == 0 {
      YPowStep(b, 0);
      ShiftedResidue(b, |b|);
      ResidueSmall(|b|, b, |b|);
      assert b[..|b|] + VNil(0) == b;
    } else {
      YPowShifted(b, i - 1);
      YPowStep(b, i - 1);
      ShiftedNext(b, i - 1, |b|);
    }
  }

  /** The double sum, row by row. */
  lemma {:induction false} PartialIsAct(a: Row, b: Row, i: nat, j: nat)
    requires |a| == |b| >= 4 && i <= |a| && j <= |a| && (i == |a| ==> j == 0)
    ensures PartialSum(a, b, i, j) == if i < |a| then VAdd(Act(a, b, i), VScale(a[i], ShiftedSum(b, i, j))) else Act(a, b, i)
    decreases i, j
  {
    hide *;
    if j > 0 {
      var l := j - 1;
      PartialIsAct(a, b, i, l);
      PartialSumStep(a, b, i, l);
      ShiftedStep(b, i, l);
      var p, q, u := Act(a, b, i), ShiftedSum(b, i, l), YK(|a|, i + l);
      VScaleLaws(a[i], b[l], u, u);
      VScaleLaws(a[i], a[i], q, VScale(b[l], u));
      VAddLaws(p, VScale(a[i], q), VScale(Mul(a[i], b[l]), u));
    } else if i > 0 {
      PartialIsAct(a, b, i - 1, |a|);
      PartialSumStep(a, b, i - 1, 0);
      YPowShifted(b, i - 1);
      ActStep(a, b, i - 1);
      if i < |a| { NothingShifted(a, b, i); }
    } else {
      PartialSumStep(a, b, 0, 0);
      ActNone(a, b);
      NothingShifted(a, b, 0);
    }
  }

  lemma NothingShifted(a: Row, b: Row, i: nat)
    requires |a| == |b| >= 4 && i < |a|
    ensures VAdd(Act(a, b, i), VScale(a[i], ShiftedSum(b, i, 0))) == Act(a, b, i)
  {
    hide *;
    ShiftedStep(b, i, 0);
    ScaleNil(a[i], |b|);
    VAddLaws(Act(a, b, i), VNil(|b|), VNil(|b|));
  }

  lemma ProductIsAct(a: Row, b: Row)
    requires |a| == |b| >= 4
    ensures RMul(a, b) == Act(a, b, |a|)
  {
    PartialIsAct(a, b, |a|, 0);
    hide Act, PartialSum;
  }

  // ---------------------------------------------------------------- the laws

  lemma ProductCommutes(a: Row, b: Row)
    requires |a| == |b| >= 4
    ensures RMul(a, b) == RMul(b, a)
  {
    hide *;
    ProductIsAct(a, b);
    ProductIsAct(b, a);
    ActUnit(a);
    ActUnit(b);
    ActsCommute(a, b, VUnit(|a|, 0), |a|, |a|);
  }

  lemma ProductAssociates(a: Row, b: Row, c: Row)
    requires |a| == |b| == |c| >= 4
    ensures RMul(RMul(a, b), c) == RMul(a, RMul(b, c))
  {
    hide *;
    ProductCommutes(RMul(a, b), c);
    ProductCommutes(b, c);
    ProductIsAct(c, RMul(a, b));
    ProductIsAct(a, b);
    ProductIsAct(a, RMul(c, b));
    ProductIsAct(c, b);
    ActsCommute(c, a, b, |a|, |a|);
  }

  lemma ProductDistributes(a: Row, b: Row, c: Row)
    requires |a| == |b| == |c| >= 4
    ensures RMul(a, VAdd(b, c)) == VAdd(RMul(a, b), RMul(a, c))
  {
    hide *;
    ProductIsAct(a, VAdd(b, c));
    ProductIsAct(a, b);
    ProductIsAct(a, c);
    ActLinear(a, b, c, One(), |a|);
  }

  /** The unit vector is the one of the ring. */
  lemma OneNeutral(b: Row)
    requires |b| >= 4
    ensures RMul(VUnit(|b|, 0), b) == b == RMul(b, VUnit(|b|, 0))
  {
    hide *;
    ProductCommutes(b, VUnit(|b|, 0));
    ProductIsAct(b, VUnit(|b|, 0));
    ActUnit(b);
  }
}
