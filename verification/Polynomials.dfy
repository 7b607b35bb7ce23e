/** Polynomials of any degree over the field of two elements, and their values modulo
    x^12 + x^3 + 1. */
module Polynomials {
  import opened BinaryAlgebra
  import opened Field

  /** The residue of the polynomial with the coefficients p. */
  function Value(p: Bits): (r: Elem)
    decreases |p|
  {
    if |p| == 0 then Nil() else Add(If(p[0], One()), X(Value(p[1..])))
  }

  lemma ValueStep(b: bool, p: Bits)
    ensures Value([b] + p) == Add(If(b, One()), X(Value(p))) && Value([]) == Nil()
  {
    assert ([b] + p)[1..] == p;
  }

  lemma {:induction false} ValuePlus(p: Bits, q: Bits)
    requires |p| == |q|
    ensures Value(Plus(p, q)) == Add(Value(p), Value(q))
    decreases |p|
  {
    if |p| == 0 {
      assert Plus(p, q) == [];
      AddLaws(Nil(), Nil(), Nil());
    } else {
      hide *;
      var s, t := p[1..], q[1..];
      ValuePlus(s, t);
      PlusHead(p, q);
      ValueStep(p[0] != q[0], Plus(s, t));
      ValueStep(p[0], s);
      ValueStep(q[0], t);
      XAdd(Value(s), Value(t));
      IfSum(p[0], q[0], One());
      Regroup(If(p[0], One()), If(q[0], One()), X(Value(s)), X(Value(t)));
    }
  }

  lemma PlusHead(p: Bits, q: Bits)
    requires |p| == |q| > 0
    ensures Plus(p, q) == [p[0] != q[0]] + Plus(p[1..], q[1..]) && p == [p[0]] + p[1..] && q == [q[0]] + q[1..]
  {}

  lemma {:induction false} ValueZero(k: nat)
    ensures Value(Zero(k)) == Nil()
    decreases k
  {
    if k > 0 {
      ValueZero(k - 1);
      assert Zero(k) == [false] + Zero(k - 1);
      hide *;
      ValueStep(false, Zero(k - 1));
      IfFalse(One());
      XAdd(Nil(), Nil());
      AddLaws(Nil(), Nil(), Nil());
    }
  }

  /** Shifting the coefficients up multiplies by a power of x. */
  lemma {:induction false} ValueShift(k: nat, p: Bits)
    ensures Value(Zero(k) + p) == XPow(k, Value(p))
    decreases k
  {
    if k == 0 {
      assert Zero(0) + p == p;
      XPowZero(Value(p));
    } else {
      ValueShift(k - 1, p);
      assert Zero(k) + p == [false] + (Zero(k - 1) + p);
      hide *;
      ValueStep(false, Zero(k - 1) + p);
      XPowStep(k, Value(p));
      IfFalse(One());
      AddLaws(X(Value(Zero(k - 1) + p)), Nil(), Nil());
    }
  }

  /** Leading zeros do not count. */
  lemma {:induction false} ValuePad(p: Bits, k: nat)
    ensures Value(p + Zero(k)) == Value(p)
    decreases |p|
  {
    if |p| == 0 {
      assert p + Zero(k) == Zero(k);
      ValueZero(k);
    } else {
      ValuePad(p[1..], k);
      assert p + Zero(k) == [p[0]] + (p[1..] + Zero(k)) && p == [p[0]] + p[1..];
      hide *;
      ValueStep(p[0], p[1..] + Zero(k));
      ValueStep(p[0], p[1..]);
    }
  }

  lemma {:induction false} ValueFrom(e: Elem, i: nat)
    requires i <= 12
    ensures Value(e[i..]) == From(e, i)
    decreases 12 - i
  {
    hide *;
    if i == 12 {
      assert e[12..] == [];
      ValueStep(false, []);
      FromStep(e, 12);
    } else {
      ValueFrom(e, i + 1);
      assert e[i..] == [e[i]] + e[i + 1..];
      ValueStep(e[i], e[i + 1..]);
      FromStep(e, i);
    }
  }

  /** A polynomial of degree below 12 is its own residue. */
  lemma ValueElem(e: Elem)
    ensures Value(e) == e
  {
    ValueFrom(e, 0);
    FromIs(e);
    assert e[0..] == e;
  }

  /** The power x^k. */
  function XK(k: nat): (r: Elem)
  {
    XPow(k, One())
  }

  lemma XKIs(k: nat)
    ensures XK(k) == XPow(k, One())
  {}

  /** Changing one coefficient adds a power of x. */
  lemma ValueToggle(p: Bits, k: nat, b: bool)
    requires k < |p|
    ensures Value(p[k := p[k] != b]) == Add(Value(p), If(b, XK(k)))
  {
    var rest := |p| - k - 1;
    var d := Zero(k) + ([b] + Zero(rest));
    assert p[k := p[k] != b] == Plus(p, d);
    assert Zero(0) == [];
    hide *;
    ValuePlus(p, d);
    ValueShift(k, [b] + Zero(rest));
    ValueStep(b, Zero(rest));
    ValueZero(rest);
    XAdd(Nil(), Nil());
    AddLaws(If(b, One()), Nil(), Nil());
    XPowIf(k, b);
    XKIs(k);
  }

  lemma XPowIf(k: nat, b: bool)
    ensures XPow(k, If(b, One())) == If(b, XPow(k, One()))
  {
    XPowAdd(k, Nil(), Nil());
  }

  /** x^k = x^(k-9) + x^(k-12) */
  lemma XKReduces(k: nat)
    requires k >= 12
    ensures XK(k) == Add(XK(k - 9), XK(k - 12))
  {
    hide *;
    var u := XPow(k - 12, One());
    XKIs(k);
    XKIs(k - 9);
    XKIs(k - 12);
    XPowSum(12, k - 12, One());
    XPowSum(3, k - 12, One());
    Relation(u);
  }

  // ---------------------------------------------------------------- products as sums

  /** The sum of the first i products b_j x^j a. */
  function SumTo(a: Elem, b: Elem, i: nat): (r: Elem)
    requires i <= 12
    decreases i
  {
    if i == 0 then Nil() else Add(SumTo(a, b, i - 1), If(b[i - 1], XPow(i - 1, a)))
  }

  lemma SumToStep(a: Elem, b: Elem, i: nat)
    requires i < 12
    ensures SumTo(a, b, 0) == Nil() && SumTo(a, b, i + 1) == Add(SumTo(a, b, i), If(b[i], XPow(i, a)))
  {}

  lemma {:induction false} SumToRest(a: Elem, b: Elem, i: nat)
    requires i <= 12
    ensures Add(SumTo(a, b, i), XPow(i, MulFrom(a, b, i))) == Mul(a, b)
    decreases i
  {
    hide *;
    if i == 0 {
      SumToStep(a, b, 0);
      XPowZero(MulFrom(a, b, 0));
      MulIs(a, b);
      AddLaws(Mul(a, b), Nil(), Nil());
    } else {
      var k := i - 1;
      SumToRest(a, b, k);
      SumToStep(a, b, k);
      MulFromStep(a, b, k);
      var u, v := If(b[k], a), MulFrom(a, b, i);
      XPowAdd(k, u, X(v));
      XPowOfIf(k, b[k], a);
      XPowX(k, v);
      AddLaws(SumTo(a, b, k), If(b[k], XPow(k, a)), XPow(i, v));
    }
  }

  lemma XPowOfIf(k: nat, b: bool, a: Elem)
    ensures XPow(k, If(b, a)) == If(b, XPow(k, a))
  {
    XPowAdd(k, Nil(), Nil());
  }

  lemma XPowX(k: nat, a: Elem)
    ensures XPow(k, X(a)) == XPow(k + 1, a)
  {
    hide *;
    XPowSum(k, 1, a);
    XPowStep(1, a);
    XPowZero(a);
  }

  /** A product is the sum of shifted factors. */
  lemma SumIsMul(a: Elem, b: Elem)
    ensures SumTo(a, b, 12) == Mul(a, b)
  {
    hide *;
    SumToRest(a, b, 12);
    MulFromEnd(a, b);
    XPowAdd(12, Nil(), Nil());
    AddLaws(SumTo(a, b, 12), Nil(), Nil());
  }
}
