/** The field of 4096 elements: polynomials over the field of two elements modulo x^12 + x^3 + 1,
    the coefficient of x^i at index i. */
module Field {
  import opened BinaryAlgebra

  type Elem = e: Bits | |e| == 12 witness seq(12, i => false)

  function Nil(): (e: Elem)
  {
    Zero(12)
  }

  function One(): (e: Elem)
  {
    Unit(12, 0)
  }

  function Add(a: Elem, b: Elem): (r: Elem)
  {
    Plus(a, b)
  }

  /** b a, for a bit b */
  function If(b: bool, a: Elem): (r: Elem)
  {
    if b then a else Nil()
  }

  /** x a */
  function X(a: Elem): (r: Elem)
  {
    [a[11], a[0], a[1], a[2] != a[11], a[3], a[4], a[5], a[6], a[7], a[8], a[9], a[10]]
  }

  /** x^k a */
  function XPow(k: nat, a: Elem): (r: Elem)
    decreases k
  {
    if k == 0 then a else X(XPow(k - 1, a))
  }

  /** a times the polynomial whose coefficients are b[i..]. */
  function MulFrom(a: Elem, b: Elem, i: nat): (r: Elem)
    requires i <= 12
    decreases 12 - i
  {
    if i == 12 then Nil() else Add(If(b[i], a), X(MulFrom(a, b, i + 1)))
  }

  function Mul(a: Elem, b: Elem): (r: Elem)
  {
    MulFrom(a, b, 0)
  }

  // ---------------------------------------------------------------- addition

  lemma AddLaws(a: Elem, b: Elem, c: Elem)
    ensures Add(a, b) == Add(b, a) && Add(Add(a, b), c) == Add(a, Add(b, c))
    ensures Add(a, Nil()) == a && Add(a, a) == Nil() && Add(Add(a, b), b) == a
  {}

  lemma XAdd(a: Elem, b: Elem)
    ensures X(Add(a, b)) == Add(X(a), X(b)) && X(Nil()) == Nil()
  {
    forall i | 0 <= i < 12 ensures X(Add(a, b))[i] == (X(a)[i] != X(b)[i]) && !X(Nil())[i] {
      XBit(Add(a, b), i);
      XBit(a, i);
      XBit(b, i);
      XBit(Nil(), i);
    }
    hide X;
  }

  lemma {:induction false} XPowAdd(k: nat, a: Elem, b: Elem)
    ensures XPow(k, Add(a, b)) == Add(XPow(k, a), XPow(k, b)) && XPow(k, Nil()) == Nil()
    decreases k
  {
    hide X, Add, Nil;
    if k > 0 {
      XPowAdd(k - 1, a, b);
      XAdd(XPow(k - 1, a), XPow(k - 1, b));
    }
  }

  lemma {:induction false} XPowSum(k: nat, j: nat, a: Elem)
    ensures XPow(k + j, a) == XPow(k, XPow(j, a))
    decreases k
  {
    if k > 0 { XPowSum(k - 1, j, a); }
  }

  /** x^3 a */
  function Cubed(a: Elem): (r: Elem)
  {
    [a[9], a[10], a[11], a[0] != a[9], a[1] != a[10], a[2] != a[11], a[3], a[4], a[5], a[6], a[7], a[8]]
  }

  lemma CubedIs(a: Elem)
    ensures XPow(3, a) == Cubed(a)
  {
    assert XPow(1, a) == X(XPow(0, a));
    assert XPow(2, a) == X(XPow(1, a));
    assert XPow(3, a) == X(XPow(2, a));
  }

  /** The relation x^12 = x^3 + 1 */
  lemma Relation(a: Elem)
    ensures XPow(12, a) == Add(XPow(3, a), a)
  {
    hide *;
    CubedIs(a);
    CubedIs(XPow(3, a));
    CubedIs(XPow(6, a));
    CubedIs(XPow(9, a));
    XPowSum(3, 3, a);
    XPowSum(3, 6, a);
    XPowSum(3, 9, a);
    FourCubes(a);
  }

  lemma FourCubes(a: Elem)
    ensures Cubed(Cubed(Cubed(Cubed(a)))) == Add(Cubed(a), a)
  {
    hide *;
    CubedTwice(a);
    CubedThrice(a);
    CubedLast(a);
  }

  /** x^6 a */
  function Sixth(a: Elem): (r: Elem)
  {
    [a[6], a[7], a[8], a[9] != a[6], a[10] != a[7], a[11] != a[8],
     a[0] != a[9], a[1] != a[10], a[2] != a[11], a[3], a[4], a[5]]
  }

  /** x^9 a */
  function Ninth(a: Elem): (r: Elem)
  {
    [a[3], a[4], a[5], a[6] != a[3], a[7] != a[4], a[8] != a[5],
     a[9] != a[6], a[10] != a[7], a[11] != a[8], a[0] != a[9], a[1] != a[10], a[2] != a[11]]
  }

  lemma CubedTwice(a: Elem)
    ensures Cubed(Cubed(a)) == Sixth(a)
  {}

  lemma CubedThrice(a: Elem)
    ensures Cubed(Sixth(a)) == Ninth(a)
  {}

  lemma CubedLast(a: Elem)
    ensures Cubed(Ninth(a)) == Add(Cubed(a), a)
  {
    hide *;
    var n := Ninth(a);
    forall i | 0 <= i < 12 ensures Cubed(n)[i] == Add(Cubed(a), a)[i] {
      AddBit(Cubed(a), a, i);
      CubedBit(a, i);
      CubedBit(n, i);
      NinthBit(a, if i < 3 then i + 9 else i - 3);
      if 3 <= i < 6 { NinthBit(a, i + 6); }
    }
  }

  lemma CubedBit(a: Elem, i: nat)
    requires i < 12
    ensures Cubed(a)[i] == if i < 3 then a[i + 9] else if i < 6 then a[i - 3] != a[i + 6] else a[i - 3]
  {}

  lemma NinthBit(a: Elem, i: nat)
    requires i < 12
    ensures Ninth(a)[i] == if i < 3 then a[i + 3] else if i < 9 then a[i + 3] != a[i] else a[i - 9] != a[i]
  {}

  // ---------------------------------------------------------------- multiplication is bilinear

  lemma {:induction false} MulFromAddLeft(a: Elem, b: Elem, c: Elem, i: nat)
    requires i <= 12
    ensures MulFrom(Add(a, b), c, i) == Add(MulFrom(a, c, i), MulFrom(b, c, i))
    decreases 12 - i
  {
    hide *;
    if i == 12 {
      MulFromEnd(a, c);
      MulFromEnd(b, c);
      MulFromEnd(Add(a, b), c);
      AddLaws(Nil(), Nil(), Nil());
    } else {
      MulFromAddLeft(a, b, c, i + 1);
      var u, v := MulFrom(a, c, i + 1), MulFrom(b, c, i + 1);
      XAdd(u, v);
      MulFromStep(Add(a, b), c, i);
      MulFromStep(a, c, i);
      MulFromStep(b, c, i);
      IfAdd(c[i], a, b);
      Regroup(If(c[i], a), If(c[i], b), X(u), X(v));
    }
  }

  lemma IfAdd(c: bool, a: Elem, b: Elem)
    ensures If(c, Add(a, b)) == Add(If(c, a), If(c, b))
  {}

  lemma IfSum(c: bool, d: bool, a: Elem)
    ensures If(c != d, a) == Add(If(c, a), If(d, a))
  {}

  lemma MulFromStep(a: Elem, b: Elem, i: nat)
    requires i < 12
    ensures MulFrom(a, b, i) == Add(If(b[i], a), X(MulFrom(a, b, i + 1)))
  {}

  lemma AddBit(b: Elem, c: Elem, i: nat)
    requires i < 12
    ensures Add(b, c)[i] == (b[i] != c[i])
  {}

  lemma Regroup(a: Elem, b: Elem, c: Elem, d: Elem)
    ensures Add(Add(a, b), Add(c, d)) == Add(Add(a, c), Add(b, d))
  {}

  lemma {:induction false} MulFromAddRight(a: Elem, b: Elem, c: Elem, i: nat)
    requires i <= 12
    ensures MulFrom(a, Add(b, c), i) == Add(MulFrom(a, b, i), MulFrom(a, c, i))
    decreases 12 - i
  {
    hide *;
    if i == 12 {
      MulFromEnd(a, b);
      MulFromEnd(a, c);
      MulFromEnd(a, Add(b, c));
      AddLaws(Nil(), Nil(), Nil());
    } else {
      MulFromAddRight(a, b, c, i + 1);
      var u, v := MulFrom(a, b, i + 1), MulFrom(a, c, i + 1);
      XAdd(u, v);
      MulFromStep(a, Add(b, c), i);
      MulFromStep(a, b, i);
      MulFromStep(a, c, i);
      assert Add(b, c)[i] == (b[i] != c[i]) by { AddBit(b, c, i); }
      IfSum(b[i], c[i], a);
      Regroup(If(b[i], a), If(c[i], a), X(u), X(v));
    }
  }

  /** (x a) b = x (a b) */
  lemma {:induction false} MulFromXLeft(a: Elem, b: Elem, i: nat)
    requires i <= 12
    ensures MulFrom(X(a), b, i) == X(MulFrom(a, b, i))
    decreases 12 - i
  {
    hide X, Add;
    XAdd(Nil(), Nil());
    if i < 12 {
      MulFromXLeft(a, b, i + 1);
      XAdd(If(b[i], a), X(MulFrom(a, b, i + 1)));
    }
  }

  /** Multiplying by a shifted polynomial, from coefficient i >= 4 on: the coefficient that the
      shift moves to x^12 is what is missing. */
  lemma {:induction false} MulShifted(a: Elem, d: Elem, i: nat)
    requires 4 <= i <= 12
    ensures MulFrom(a, X(d), i) == Add(MulFrom(a, d, i - 1), XPow(12 - i, If(d[11], a)))
    decreases 12 - i
  {
    hide *;
    if i == 12 {
      MulFromStep(a, d, 11);
      MulFromEnd(a, d);
      MulFromEnd(a, X(d));
      XPowZero(If(d[11], a));
      XAdd(Nil(), Nil());
      AddLaws(If(d[11], a), Nil(), Nil());
    } else {
      MulShifted(a, d, i + 1);
      MulFromStep(a, X(d), i);
      MulFromStep(a, d, i - 1);
      XBit(d, i);
      XPowStep(12 - i, If(d[11], a));
      var u, v := MulFrom(a, d, i), XPow(12 - i - 1, If(d[11], a));
      XAdd(u, v);
      AddLaws(If(d[i - 1], a), X(u), X(v));
    }
  }

  lemma MulFromEnd(a: Elem, b: Elem)
    ensures MulFrom(a, b, 12) == Nil()
  {}

  lemma XPowZero(a: Elem)
    ensures XPow(0, a) == a
  {}

  lemma XPowStep(k: nat, a: Elem)
    requires k > 0
    ensures XPow(k, a) == X(XPow(k - 1, a))
  {}

  lemma XBit(d: Elem, i: nat)
    requires i < 12
    ensures X(d)[i] == if i == 0 then d[11] else if i == 3 then d[2] != d[11] else d[i - 1]
  {}

  /** a (x b) = x (a b) */
  lemma MulXRight(a: Elem, d: Elem)
    ensures Mul(a, X(d)) == X(Mul(a, d))
  {
    hide *;
    var t := If(d[11], a);
    var m0, m1, m2 := MulFrom(a, d, 0), MulFrom(a, d, 1), MulFrom(a, d, 2);
    MulShifted(a, d, 4);
    // coefficient 3
    MulFromStep(a, X(d), 3);
    XBit(d, 3);
    IfSum(d[2], d[11], a);
    MulFromStep(a, d, 2);
    XAdd(MulFrom(a, d, 3), XPow(8, t));
    XPowStep(9, t);
    AddFour(If(d[2], a), t, X(MulFrom(a, d, 3)), XPow(9, t));
    assert MulFrom(a, X(d), 3) == Add(m2, Add(t, XPow(9, t)));
    // coefficients 2 and 1
    var e := Add(t, XPow(9, t));
    ShiftStep(a, d, 2, e);
    ShiftStep(a, d, 1, X(e));
    // coefficient 0 and the relation
    MulFromStep(a, X(d), 0);
    XBit(d, 0);
    LastTerm(t, m0, e);
    MulIs(a, d);
    MulIs(a, X(d));
  }

  lemma MulIs(a: Elem, b: Elem)
    ensures Mul(a, b) == MulFrom(a, b, 0)
  {}

  lemma AddFour(p: Elem, t: Elem, u: Elem, v: Elem)
    ensures Add(Add(p, t), Add(u, v)) == Add(Add(p, u), Add(t, v))
  {}

  /** The extra term e is shifted along. */
  lemma ShiftStep(a: Elem, d: Elem, i: nat, e: Elem)
    requires 1 <= i <= 2 && MulFrom(a, X(d), i + 1) == Add(MulFrom(a, d, i), e)
    ensures MulFrom(a, X(d), i) == Add(MulFrom(a, d, i - 1), X(e))
  {
    hide *;
    MulFromStep(a, X(d), i);
    MulFromStep(a, d, i - 1);
    XBit(d, i);
    XAdd(MulFrom(a, d, i), e);
    AddLaws(If(d[i - 1], a), X(MulFrom(a, d, i)), X(e));
  }

  /** t + x (m + x^2 (t + x^9 t)) = x m */
  lemma LastTerm(t: Elem, m: Elem, e: Elem)
    requires e == Add(t, XPow(9, t))
    ensures Add(t, X(Add(m, X(X(e))))) == X(m)
  {
    hide *;
    XAdd(m, X(X(e)));
    ThreeSteps(e);
    XPowAdd(3, t, XPow(9, t));
    XPowSum(3, 9, t);
    Relation(t);
    AddLaws(XPow(3, t), t, Nil());
    // x^3 e = x^3 t + x^12 t = t
    AddLaws(XPow(3, t), Add(XPow(3, t), t), Nil());
    CancelTwice(XPow(3, t), t);
    AddLaws(t, X(m), Nil());
    CancelTwice(t, X(m));
  }

  lemma ThreeSteps(e: Elem)
    ensures XPow(3, e) == X(X(X(e)))
  {
    XPowStep(3, e);
    XPowStep(2, e);
    XPowStep(1, e);
    XPowZero(e);
  }

  lemma CancelTwice(a: Elem, b: Elem)
    ensures Add(a, Add(a, b)) == b && Add(a, Add(b, a)) == b
  {}

  // ---------------------------------------------------------------- the ring laws

  lemma {:induction false} MulNil(a: Elem, i: nat)
    requires i <= 12
    ensures MulFrom(a, Nil(), i) == Nil() && MulFrom(Nil(), a, i) == Nil()
    decreases 12 - i
  {
    hide *;
    if i == 12 {
      MulFromEnd(a, Nil());
      MulFromEnd(Nil(), a);
    } else {
      MulNil(a, i + 1);
      MulFromStep(a, Nil(), i);
      MulFromStep(Nil(), a, i);
      XAdd(Nil(), Nil());
      NilBits(i);
      IfNil(a[i]);
      IfNil(Nil()[i]);
      IfFalse(a);
      AddLaws(Nil(), Nil(), Nil());
    }
  }

  lemma NilBits(i: nat)
    requires i < 12
    ensures !Nil()[i] && One()[i] == (i == 0)
  {}

  lemma IfNil(b: bool)
    ensures If(b, Nil()) == Nil()
  {}

  lemma IfFalse(a: Elem)
    ensures If(false, a) == Nil() && If(true, a) == a
  {}

  lemma {:induction false} MulOneFrom(a: Elem, i: nat)
    requires 1 <= i <= 12
    ensures MulFrom(a, One(), i) == Nil()
    decreases 12 - i
  {
    hide *;
    if i == 12 {
      MulFromEnd(a, One());
    } else {
      MulOneFrom(a, i + 1);
      MulFromStep(a, One(), i);
      NilBits(i);
      IfFalse(a);
      XAdd(Nil(), Nil());
      AddLaws(Nil(), Nil(), Nil());
    }
  }

  /** Linear in both factors, with a one on the right. */
  lemma MulLinear(a: Elem, b: Elem, c: Elem)
    ensures Mul(Add(a, b), c) == Add(Mul(a, c), Mul(b, c)) && Mul(a, Add(b, c)) == Add(Mul(a, b), Mul(a, c))
    ensures Mul(X(a), b) == X(Mul(a, b)) == Mul(a, X(b))
    ensures Mul(a, Nil()) == Nil() == Mul(Nil(), a) && Mul(a, One()) == a
  {
    hide *;
    MulFromAddLeft(a, b, c, 0);
    MulFromAddRight(a, b, c, 0);
    MulFromXLeft(a, b, 0);
    MulXRight(a, b);
    MulNil(a, 0);
    MulOneFrom(a, 1);
    MulIs(Add(a, b), c);
    MulIs(a, c);
    MulIs(b, c);
    MulIs(a, Add(b, c));
    MulIs(a, b);
    MulIs(X(a), b);
    MulIs(a, X(b));
    MulIs(a, Nil());
    MulIs(Nil(), a);
    MulIs(a, One());
    MulFromStep(a, One(), 0);
    NilBits(0);
    IfFalse(a);
    XAdd(Nil(), Nil());
    AddLaws(a, Nil(), Nil());
  }

  /** The polynomial with the coefficients of b from i on, shifted down: every element is made of
      ones by adding and by multiplying with x. */
  function From(b: Elem, i: nat): (r: Elem)
    requires i <= 12
    decreases 12 - i
  {
    if i == 12 then Nil() else Add(If(b[i], One()), X(From(b, i + 1)))
  }

  lemma {:induction false} FromShifts(b: Elem, i: nat)
    requires i <= 12
    ensures From(b, i) == b[i..] + Zero(i)
    decreases 12 - i
  {
    hide *;
    FromStep(b, i);
    if i < 12 {
      FromShifts(b, i + 1);
      Padding(b, i);
      Shifted(b[i + 1..] + Zero(i + 1), b[i]);
    } else {
      NilIs();
      assert b[12..] == [];
    }
  }

  lemma NilIs()
    ensures Nil() == Zero(12)
  {}

  lemma Padding(b: Elem, i: nat)
    requires i < 12
    ensures var t := b[i + 1..] + Zero(i + 1); |t| == 12 && !t[11] && [b[i]] + t[..11] == b[i..] + Zero(i)
  {
    var t := b[i + 1..] + Zero(i + 1);
    assert t[..11] == b[i + 1..] + Zero(i);
  }

  lemma FromStep(b: Elem, i: nat)
    requires i <= 12
    ensures From(b, i) == if i == 12 then Nil() else Add(If(b[i], One()), X(From(b, i + 1)))
  {}

  /** Without a top coefficient, multiplying by x is a shift. */
  lemma Shifted(t: Elem, bit: bool)
    requires !t[11]
    ensures Add(If(bit, One()), X(t)) == [bit] + t[..11]
  {
    var r: Elem := [bit] + t[..11];
    hide X;
    forall i | 0 <= i < 12 ensures Add(If(bit, One()), X(t))[i] == r[i] {
      XBit(t, i);
    }
  }

  lemma FromIs(b: Elem)
    ensures From(b, 0) == b
  {
    FromShifts(b, 0);
  }

  lemma MulIf(bit: bool, a: Elem, b: Elem)
    ensures Mul(a, If(bit, b)) == If(bit, Mul(a, b)) && Mul(If(bit, b), a) == If(bit, Mul(b, a))
  {
    MulLinear(a, b, b);
    hide Mul, Nil;
  }

  /** One coefficient of the right or the left factor at a time. */
  lemma MulStep(a: Elem, c: Elem, i: nat)
    requires i < 12
    ensures Mul(a, From(c, i)) == Add(If(c[i], a), X(Mul(a, From(c, i + 1))))
    ensures Mul(From(c, i), a) == Add(If(c[i], Mul(One(), a)), X(Mul(From(c, i + 1), a)))
  {
    hide *;
    FromStep(c, i);
    var u, t := If(c[i], One()), From(c, i + 1);
    MulLinear(a, u, X(t));
    MulLinear(a, t, t);
    MulLinear(u, X(t), a);
    MulLinear(t, a, a);
    MulLinear(a, a, a);
    MulIf(c[i], a, One());
  }

  lemma {:induction false} OneMul(c: Elem, i: nat)
    requires i <= 12
    ensures Mul(One(), From(c, i)) == From(c, i)
    decreases 12 - i
  {
    hide *;
    FromStep(c, i);
    if i == 12 {
      MulLinear(One(), One(), One());
    } else {
      OneMul(c, i + 1);
      MulStep(One(), c, i);
    }
  }

  lemma {:induction false} MulCommutesFrom(a: Elem, c: Elem, i: nat)
    requires i <= 12
    ensures Mul(a, From(c, i)) == Mul(From(c, i), a)
    decreases 12 - i
  {
    hide *;
    FromStep(c, i);
    if i == 12 {
      MulLinear(a, a, a);
    } else {
      MulCommutesFrom(a, c, i + 1);
      MulStep(a, c, i);
      OneMul(a, 0);
      FromIs(a);
    }
  }

  lemma MulCommutes(a: Elem, b: Elem)
    ensures Mul(a, b) == Mul(b, a) && Mul(One(), a) == a
  {
    hide *;
    FromIs(b);
    FromIs(a);
    MulCommutesFrom(a, b, 0);
    OneMul(a, 0);
  }

  lemma {:induction false} MulAssociatesFrom(a: Elem, b: Elem, c: Elem, i: nat)
    requires i <= 12
    ensures Mul(a, Mul(b, From(c, i))) == Mul(Mul(a, b), From(c, i))
    decreases 12 - i
  {
    hide *;
    FromStep(c, i);
    if i == 12 {
      MulLinear(a, a, a);
      MulLinear(b, b, b);
      MulLinear(Mul(a, b), a, a);
    } else {
      MulAssociatesFrom(a, b, c, i + 1);
      MulStep(b, c, i);
      MulStep(Mul(a, b), c, i);
      var t := Mul(b, From(c, i + 1));
      MulLinear(a, If(c[i], b), X(t));
      MulLinear(a, t, t);
      MulIf(c[i], a, b);
    }
  }

  lemma MulAssociates(a: Elem, b: Elem, c: Elem)
    ensures Mul(a, Mul(b, c)) == Mul(Mul(a, b), c)
  {
    hide *;
    FromIs(c);
    MulAssociatesFrom(a, b, c, 0);
  }

  // ---------------------------------------------------------------- powers

  function Pow(a: Elem, k: nat): (r: Elem)
    decreases k
  {
    if k == 0 then One() else Mul(a, Pow(a, k - 1))
  }

  lemma {:induction false} PowSum(a: Elem, j: nat, k: nat)
    ensures Pow(a, j + k) == Mul(Pow(a, j), Pow(a, k))
    decreases j
  {
    hide Mul, One;
    if j == 0 {
      MulCommutes(Pow(a, k), One());
    } else {
      PowSum(a, j - 1, k);
      MulAssociates(a, Pow(a, j - 1), Pow(a, k));
    }
  }

  lemma PowSmall(a: Elem)
    ensures Pow(a, 0) == One() && Pow(a, 1) == a && Pow(a, 2) == Mul(a, a)
  {
    hide Mul, One;
    MulLinear(a, a, a);
    assert Pow(a, 1) == Mul(a, Pow(a, 0));
    assert Pow(a, 2) == Mul(a, Pow(a, 1));
  }

  /** a^2 */
  function Square(a: Elem): (r: Elem)
  {
    Mul(a, a)
  }

  /** Squaring is additive. */
  lemma SquareAdd(a: Elem, b: Elem)
    ensures Square(Add(a, b)) == Add(Square(a), Square(b)) && Square(X(a)) == X(X(Square(a)))
    ensures Square(Mul(a, b)) == Mul(Square(a), Square(b))
    ensures Square(Nil()) == Nil() && Square(One()) == One()
  {
    hide *;
    SquareIs(Add(a, b));
    SquareIs(a);
    SquareIs(b);
    SquareIs(X(a));
    SquareIs(Mul(a, b));
    SquareIs(Nil());
    SquareIs(One());
    MulLinear(a, b, Add(a, b));
    MulLinear(a, a, b);
    MulLinear(b, a, b);
    MulCommutes(a, b);
    var p := Mul(a, b);
    MiddleCancels(Square(a), p, Square(b));
    MulLinear(a, X(a), a);
    MulLinear(a, a, a);
    MulLinear(Nil(), Nil(), Nil());
    MulLinear(One(), One(), One());
    // (ab)(ab) = a(b(ab)) = a((ba)b) = a((ab)b) = a(a(bb)) = (aa)(bb)
    MulAssociates(a, b, p);
    MulAssociates(b, a, b);
    MulAssociates(a, b, b);
    MulAssociates(a, a, Square(b));
  }

  lemma SquareIs(a: Elem)
    ensures Square(a) == Mul(a, a)
  {}

  lemma MiddleCancels(a: Elem, p: Elem, b: Elem)
    ensures Add(Add(a, p), Add(p, b)) == Add(a, b)
  {}

  // ---------------------------------------------------------------- squaring in bits

  lemma XBits(a: Elem)
    ensures
    && X(a)[0] == (a[11]) && X(a)[1] == (a[0]) && X(a)[2] == (a[1]) && X(a)[3] == (a[2] != a[11])
    && X(a)[4] == (a[3]) && X(a)[5] == (a[4]) && X(a)[6] == (a[5]) && X(a)[7] == (a[6])
    && X(a)[8] == (a[7]) && X(a)[9] == (a[8]) && X(a)[10] == (a[9]) && X(a)[11] == (a[10])
  {}

  lemma EqualBits(u: Elem, v: Elem)
    requires u[0] == v[0] && u[1] == v[1] && u[2] == v[2] && u[3] == v[3] && u[4] == v[4] && u[5] == v[5]
    requires u[6] == v[6] && u[7] == v[7] && u[8] == v[8] && u[9] == v[9] && u[10] == v[10] && u[11] == v[11]
    ensures u == v
  {
    forall i | 0 <= i < 12 ensures u[i] == v[i] {
      if i < 6 {
        if i == 0 || i == 1 || i == 2 || i == 3 || i == 4 || i == 5 {}
      } else {
        if i == 6 || i == 7 || i == 8 || i == 9 || i == 10 || i == 11 {}
      }
    }
  }

  /** The square of a, coefficient by coefficient. */
  function SquareBits(a: Elem): (r: Elem)
  {
    seq(12, i requires 0 <= i < 12 => SquareBit(a, i))
  }

  function SquareBit(a: Elem, i: nat): (b: bool)
  {
    match i
    case 0 => a[0] != a[6]
    case 1 => a[11]
    case 2 => a[1] != a[7]
    case 3 => a[6]
    case 4 => (a[2] != a[8]) != a[11]
    case 5 => a[7]
    case 6 => a[3] != a[9]
    case 7 => a[8]
    case 8 => a[4] != a[10]
    case 9 => a[9]
    case 10 => a[5] != a[11]
    case _ => a[10]
  }

  lemma SquareFacts(a: Elem)
    ensures SquareBits(a)[0] == (a[0] != a[6]) && SquareBits(a)[1] == (a[11]) && SquareBits(a)[2] == (a[1] != a[7])
    && SquareBits(a)[3] == (a[6]) && SquareBits(a)[4] == ((a[2] != a[8]) != a[11]) && SquareBits(a)[5] == (a[7])
    && SquareBits(a)[6] == (a[3] != a[9]) && SquareBits(a)[7] == (a[8]) && SquareBits(a)[8] == (a[4] != a[10])
    && SquareBits(a)[9] == (a[9]) && SquareBits(a)[10] == (a[5] != a[11]) && SquareBits(a)[11] == (a[10])
  {}

  /** The square of the square, a^4. */
  function Fourth(a: Elem): (r: Elem)
  {
    seq(12, i requires 0 <= i < 12 => FourthBit(a, i))
  }

  function FourthBit(a: Elem, i: nat): (b: bool)
  {
    match i
    case 0 => ((a[0] != a[3]) != a[6]) != a[9]
    case 1 => a[10]
    case 2 => a[8] != a[11]
    case 3 => a[3] != a[9]
    case 4 => (a[1] != a[4]) != a[7]
    case 5 => a[8]
    case 6 => a[6] != a[9]
    case 7 => a[4] != a[10]
    case 8 => (a[2] != a[5]) != a[8]
    case 9 => a[9]
    case 10 => a[7] != a[10]
    case _ => a[5] != a[11]
  }

  lemma FourthBits(a: Elem)
    ensures Fourth(a)[0] == (((a[0] != a[3]) != a[6]) != a[9]) && Fourth(a)[1] == (a[10]) && Fourth(a)[2] == (a[8] != a[11])
    && Fourth(a)[3] == (a[3] != a[9]) && Fourth(a)[4] == ((a[1] != a[4]) != a[7]) && Fourth(a)[5] == (a[8])
    && Fourth(a)[6] == (a[6] != a[9]) && Fourth(a)[7] == (a[4] != a[10]) && Fourth(a)[8] == ((a[2] != a[5]) != a[8])
    && Fourth(a)[9] == (a[9]) && Fourth(a)[10] == (a[7] != a[10]) && Fourth(a)[11] == (a[5] != a[11])
  {}

  /** a^16 */
  function Sixteenth(a: Elem): (r: Elem)
  {
    seq(12, i requires 0 <= i < 12 => SixteenthBit(a, i))
  }

  function SixteenthBit(a: Elem, i: nat): (b: bool)
  {
    match i
    case 0 => a[0]
    case 1 => a[7] != a[10]
    case 2 => (a[2] != a[8]) != a[11]
    case 3 => a[3]
    case 4 => a[1] != a[7]
    case 5 => (a[2] != a[5]) != a[8]
    case 6 => a[6]
    case 7 => (a[1] != a[4]) != a[10]
    case 8 => ((a[2] != a[5]) != a[8]) != a[11]
    case 9 => a[9]
    case 10 => a[4] != a[7]
    case _ => (a[5] != a[8]) != a[11]
  }

  lemma SixteenthBits(a: Elem)
    ensures Sixteenth(a)[0] == (a[0]) && Sixteenth(a)[1] == (a[7] != a[10]) && Sixteenth(a)[2] == ((a[2] != a[8]) != a[11])
    && Sixteenth(a)[3] == (a[3]) && Sixteenth(a)[4] == (a[1] != a[7]) && Sixteenth(a)[5] == ((a[2] != a[5]) != a[8])
    && Sixteenth(a)[6] == (a[6]) && Sixteenth(a)[7] == ((a[1] != a[4]) != a[10]) && Sixteenth(a)[8] == (((a[2] != a[5]) != a[8]) != a[11])
    && Sixteenth(a)[9] == (a[9]) && Sixteenth(a)[10] == (a[4] != a[7]) && Sixteenth(a)[11] == ((a[5] != a[8]) != a[11])
  {}

  /** a^256 */
  function Power256(a: Elem): (r: Elem)
  {
    seq(12, i requires 0 <= i < 12 => Power256Bit(a, i))
  }

  function Power256Bit(a: Elem, i: nat): (b: bool)
  {
    match i
    case 0 => a[0]
    case 1 => (a[1] != a[7]) != a[10]
    case 2 => a[8] != a[11]
    case 3 => a[3]
    case 4 => (a[1] != a[4]) != a[7]
    case 5 => a[2] != a[8]
    case 6 => a[6]
    case 7 => ((a[1] != a[4]) != a[7]) != a[10]
    case 8 => (a[2] != a[5]) != a[11]
    case 9 => a[9]
    case 10 => (a[4] != a[7]) != a[10]
    case _ => a[5] != a[8]
  }

  lemma Power256Bits(a: Elem)
    ensures Power256(a)[0] == (a[0]) && Power256(a)[1] == ((a[1] != a[7]) != a[10]) && Power256(a)[2] == (a[8] != a[11])
    && Power256(a)[3] == (a[3]) && Power256(a)[4] == ((a[1] != a[4]) != a[7]) && Power256(a)[5] == (a[2] != a[8])
    && Power256(a)[6] == (a[6]) && Power256(a)[7] == (((a[1] != a[4]) != a[7]) != a[10]) && Power256(a)[8] == ((a[2] != a[5]) != a[11])
    && Power256(a)[9] == (a[9]) && Power256(a)[10] == ((a[4] != a[7]) != a[10]) && Power256(a)[11] == (a[5] != a[8])
  {}

  lemma SquareBitsX(a: Elem)
    ensures SquareBits(X(a)) == X(X(SquareBits(a)))
  {
    hide *;
    XBits(a);
    SquareFacts(a);
    SquareFacts(X(a));
    XBits(SquareBits(a));
    XBits(X(SquareBits(a)));
    EqualBits(SquareBits(X(a)), X(X(SquareBits(a))));
  }

  lemma SquareBitsAdd(a: Elem, b: Elem)
    ensures SquareBits(Add(a, b)) == Add(SquareBits(a), SquareBits(b))
  {
    hide *;
    SquareFacts(a);
    SquareFacts(b);
    SquareFacts(Add(a, b));
    AddBits(a, b);
    AddBits(SquareBits(a), SquareBits(b));
    EqualBits(SquareBits(Add(a, b)), Add(SquareBits(a), SquareBits(b)));
  }

  lemma AddBits(b: Elem, c: Elem)
    ensures forall i :: 0 <= i < 12 ==> Add(b, c)[i] == (b[i] != c[i])
  {}

  lemma {:induction false} SquareFrom(a: Elem, i: nat)
    requires i <= 12
    ensures Square(From(a, i)) == SquareBits(From(a, i))
    decreases 12 - i
  {
    hide *;
    FromStep(a, i);
    if i == 12 {
      SquareConstants();
    } else {
      SquareFrom(a, i + 1);
      var u, t := If(a[i], One()), From(a, i + 1);
      SquareAdd(u, X(t));
      SquareAdd(t, t);
      SquareBitsAdd(u, X(t));
      SquareBitsX(t);
      SquareConstants();
      IfFalse(One());
    }
  }

  lemma SquareConstants()
    ensures Square(Nil()) == SquareBits(Nil()) && Square(One()) == SquareBits(One())
  {
    SquareAdd(Nil(), Nil());
    hide Square;
    assert SquareBits(Nil()) == Nil();
    assert SquareBits(One()) == One();
  }

  /** The squaring formula. */
  lemma SquareIsBits(a: Elem)
    ensures Mul(a, a) == SquareBits(a)
  {
    hide *;
    FromIs(a);
    SquareFrom(a, 0);
    SquareIs(a);
  }

  lemma PowDouble(a: Elem, k: nat)
    ensures Pow(a, 2 * k) == SquareBits(Pow(a, k))
  {
    hide *;
    PowSum(a, k, k);
    SquareIsBits(Pow(a, k));
    assert k + k == 2 * k;
  }

  /** Squaring four times, and twelve times. */
  lemma FourSquares(a: Elem)
    ensures SquareBits(SquareBits(SquareBits(SquareBits(a)))) == Sixteenth(a)
  {
    hide *;
    TwoSquares(a);
    TwoSquares(Fourth(a));
    FourthFourth(a);
  }

  lemma TwoSquares(a: Elem)
    ensures SquareBits(SquareBits(a)) == Fourth(a)
  {
    hide *;
    SquareFacts(a);
    SquareFacts(SquareBits(a));
    FourthBits(a);
    EqualBits(SquareBits(SquareBits(a)), Fourth(a));
  }

  lemma FourthFourth(a: Elem)
    ensures Fourth(Fourth(a)) == Sixteenth(a)
  {
    hide *;
    FourthBits(a);
    FourthBits(Fourth(a));
    SixteenthBits(a);
    EqualBits(Fourth(Fourth(a)), Sixteenth(a));
  }

  lemma TwelveSquares(a: Elem)
    ensures Sixteenth(Sixteenth(Sixteenth(a))) == a
  {
    hide *;
    SixteenthTwice(a);
    SixteenthLast(a);
  }

  lemma SixteenthTwice(a: Elem)
    ensures Sixteenth(Sixteenth(a)) == Power256(a)
  {
    hide *;
    SixteenthBits(a);
    SixteenthBits(Sixteenth(a));
    Power256Bits(a);
    EqualBits(Sixteenth(Sixteenth(a)), Power256(a));
  }

  lemma SixteenthLast(a: Elem)
    ensures Sixteenth(Power256(a)) == a
  {
    hide *;
    Power256Bits(a);
    SixteenthBits(Power256(a));
    EqualBits(Sixteenth(Power256(a)), a);
  }

  lemma PowSixteen(a: Elem, k: nat)
    ensures Pow(a, 16 * k) == Sixteenth(Pow(a, k))
  {
    hide *;
    PowDouble(a, k);
    PowDouble(a, 2 * k);
    PowDouble(a, 4 * k);
    PowDouble(a, 8 * k);
    FourSquares(Pow(a, k));
  }

  /** a^4096 = a */
  lemma PowFieldSize(a: Elem)
    ensures Pow(a, 4096) == a
  {
    hide *;
    PowSmall(a);
    PowSixteen(a, 1);
    PowSixteen(a, 16);
    PowSixteen(a, 256);
    TwelveSquares(a);
  }

  /** The only elements equal to their squares are zero and one. */
  lemma IdempotentIs(e: Elem)
    requires Mul(e, e) == e
    ensures e == Nil() || e == One()
  {
    hide *;
    SquareIsBits(e);
    SquareFacts(e);
    ConstantBits();
    if e[0] { EqualBits(e, One()); } else { EqualBits(e, Nil()); }
  }

  lemma ConstantBits()
    ensures forall i :: 0 <= i < 12 ==> !Nil()[i] && One()[i] == (i == 0)
  {}

  // ---------------------------------------------------------------- inverses

  /** a^4094 */
  function Inv(a: Elem): (r: Elem)
  {
    Pow(a, 4094)
  }

  /** Every element except zero has an inverse. */
  lemma Inverse(a: Elem)
    requires a != Nil()
    ensures Mul(a, Inv(a)) == One() == Mul(Inv(a), a)
  {
    hide *;
    var e := Pow(a, 4095);
    PowSmall(a);
    PowFieldSize(a);
    PowSum(a, 1, 4094);
    PowSum(a, 1, 4095);
    InvIs(a);
    MulCommutes(a, Inv(a));
    // e e = a^4096 a^4094 = a a^4094 = e
    PowSum(a, 4095, 4095);
    PowSum(a, 4096, 4094);
    IdempotentIs(e);
    MulLinear(a, a, a);
  }

  lemma InvIs(a: Elem)
    ensures Inv(a) == Pow(a, 4094)
  {}

  /** There are no zero divisors. */
  lemma NoZeroDivisors(a: Elem, b: Elem)
    ensures Mul(a, b) == Nil() <==> a == Nil() || b == Nil()
  {
    hide *;
    MulLinear(a, b, b);
    MulLinear(b, a, a);
    if a != Nil() && Mul(a, b) == Nil() {
      Inverse(a);
      MulAssociates(Inv(a), a, b);
      MulCommutes(b, One());
      MulLinear(Inv(a), a, a);
    }
  }
}
