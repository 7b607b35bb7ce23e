/** Vectors and matrices over the field of two elements. */
module BinaryAlgebra {

  type Bits = seq<bool>

  function Plus(u: Bits, v: Bits): (r: Bits)
    requires |u| == |v|
    ensures |r| == |u|
  {
    seq(|u|, i requires 0 <= i < |u| => u[i] != v[i])
  }

  function Zero(w: nat): (r: Bits)
    ensures |r| == w
  {
    seq(w, i => false)
  }

  function Unit(w: nat, k: nat): (r: Bits)
    ensures |r| == w
  {
    seq(w, i => i == k)
  }

  ghost predicate Rows(m: seq<Bits>, n: nat, w: nat)
  {
    |m| == n && forall r :: 0 <= r < n ==> |m[r]| == w
  }

  /** The sum of the rows that v selects: the product of a row vector and a matrix. */
  function Select(v: Bits, m: seq<Bits>, w: nat): (r: Bits)
    requires |v| == |m| && forall i :: 0 <= i < |m| ==> |m[i]| == w
    ensures |r| == w
    decreases |v|
  {
    if |v| == 0 then Zero(w)
    else
      var k := |v| - 1;
      Plus(Select(v[..k], m[..k], w), if v[k] then m[k] else Zero(w))
  }

  lemma {:induction false} SelectPlus(u: Bits, v: Bits, m: seq<Bits>, w: nat)
    requires |u| == |v| == |m| && Rows(m, |m|, w)
    ensures Select(Plus(u, v), m, w) == Plus(Select(u, m, w), Select(v, m, w))
    decreases |u|
  {
    if |u| > 0 {
      var k := |u| - 1;
      SelectPlus(u[..k], v[..k], m[..k], w);
      assert Plus(u, v)[..k] == Plus(u[..k], v[..k]);
    }
  }

  lemma {:induction false} SelectZero(m: seq<Bits>, w: nat)
    requires Rows(m, |m|, w)
    ensures Select(Zero(|m|), m, w) == Zero(w)
    decreases |m|
  {
    if |m| > 0 {
      var k := |m| - 1;
      SelectZero(m[..k], w);
      assert Zero(|m|)[..k] == Zero(k);
    }
  }

  lemma {:induction false} SelectUnit(k: nat, m: seq<Bits>, w: nat)
    requires k < |m| && Rows(m, |m|, w)
    ensures Select(Unit(|m|, k), m, w) == m[k]
    decreases |m|
  {
    var l := |m| - 1;
    if k == l {
      assert Unit(|m|, k)[..l] == Zero(l);
      SelectZero(m[..l], w);
    } else {
      assert Unit(|m|, k)[..l] == Unit(l, k);
      SelectUnit(k, m[..l], w);
    }
  }

  function Dot(u: Bits, x: Bits): (b: bool)
    requires |u| == |x|
    decreases |u|
  {
    if |u| == 0 then false
    else
      var k := |u| - 1;
      Dot(u[..k], x[..k]) != (u[k] && x[k])
  }

  lemma {:induction false} DotPlus(u: Bits, v: Bits, x: Bits)
    requires |u| == |v| == |x|
    ensures Dot(Plus(u, v), x) == (Dot(u, x) != Dot(v, x))
    decreases |u|
  {
    if |u| > 0 {
      var k := |u| - 1;
      DotPlus(u[..k], v[..k], x[..k]);
      assert Plus(u, v)[..k] == Plus(u[..k], v[..k]);
    }
  }

  lemma {:induction false} DotZero(x: Bits)
    ensures !Dot(Zero(|x|), x)
    decreases |x|
  {
    if |x| > 0 {
      var k := |x| - 1;
      DotZero(x[..k]);
      assert Zero(|x|)[..k] == Zero(k);
    }
  }

  lemma {:induction false} DotUnit(k: nat, x: Bits)
    requires k < |x|
    ensures Dot(Unit(|x|, k), x) == x[k]
    decreases |x|
  {
    var l := |x| - 1;
    if k == l {
      assert Unit(|x|, k)[..l] == Zero(l);
      DotZero(x[..l]);
    } else {
      assert Unit(|x|, k)[..l] == Unit(l, k);
      DotUnit(k, x[..l]);
    }
  }

  /** Setting one entry of the vector. */
  lemma {:induction false} DotUpdate(u: Bits, x: Bits, k: nat, b: bool)
    requires |u| == |x| && k < |x|
    ensures Dot(u, x[k := b]) == (Dot(u, x) != (u[k] && x[k] != b))
    decreases |x|
  {
    var l := |x| - 1;
    if k == l {
      assert x[k := b][..l] == x[..l];
    } else {
      assert x[k := b][..l] == x[..l][k := b];
      DotUpdate(u[..l], x[..l], k, b);
    }
  }

  /** m x = 0 */
  ghost predicate Kernel(m: seq<Bits>, x: Bits)
  {
    forall r :: 0 <= r < |m| ==> |m[r]| == |x| && !Dot(m[r], x)
  }

  ghost predicate Singular(m: seq<Bits>, n: nat)
  {
    exists x :: |x| == n && x != Zero(n) && Kernel(m, x)
  }

  /** A vector that every row maps to zero is mapped to zero by every sum of rows. */
  lemma {:induction false} KernelSelect(v: Bits, m: seq<Bits>, w: nat, x: Bits)
    requires |v| == |m| && |x| == w && Rows(m, |m|, w) && Kernel(m, x)
    ensures !Dot(Select(v, m, w), x)
    decreases |v|
  {
    if |v| == 0 {
      DotZero(x);
    } else {
      var k := |v| - 1;
      assert m[..k][..] == m[..k];
      assert forall r :: 0 <= r < k ==> m[..k][r] == m[r];
      KernelSelect(v[..k], m[..k], w, x);
      DotZero(x);
      DotPlus(Select(v[..k], m[..k], w), if v[k] then m[k] else Zero(w), x);
    }
  }

  /** o m = 1 */
  ghost predicate LeftInverse(o: seq<Bits>, m: seq<Bits>, n: nat)
    requires Rows(o, n, n) && Rows(m, n, n)
  {
    forall r :: 0 <= r < n ==> Select(o[r], m, n) == Unit(n, r)
  }

  /** A matrix with a left inverse is not singular. */
  lemma InverseNotSingular(o: seq<Bits>, m: seq<Bits>, n: nat)
    requires Rows(o, n, n) && Rows(m, n, n) && LeftInverse(o, m, n)
    ensures !Singular(m, n)
  {
    forall x | |x| == n && Kernel(m, x) ensures x == Zero(n) {
      forall r | 0 <= r < n ensures !x[r] {
        KernelSelect(o[r], m, n, x);
        DotUnit(r, x);
      }
    }
  }

  // ---------------------------------------------------------------- inverses on both sides

  /** m x */
  function Apply(m: seq<Bits>, x: Bits): (y: Bits)
    requires Rows(m, |m|, |x|)
    ensures |y| == |m|
  {
    seq(|m|, r requires 0 <= r < |m| => Dot(m[r], x))
  }

  lemma {:induction false} DotRightZero(u: Bits)
    ensures !Dot(u, Zero(|u|))
    decreases |u|
  {
    if |u| > 0 {
      var k := |u| - 1;
      DotRightZero(u[..k]);
      assert Zero(|u|)[..k] == Zero(k);
    }
  }

  lemma {:induction false} DotRightPlus(u: Bits, x: Bits, y: Bits)
    requires |u| == |x| == |y|
    ensures Dot(u, Plus(x, y)) == (Dot(u, x) != Dot(u, y))
    decreases |u|
  {
    if |u| > 0 {
      var k := |u| - 1;
      DotRightPlus(u[..k], x[..k], y[..k]);
      assert Plus(x, y)[..k] == Plus(x[..k], y[..k]);
    }
  }

  /** (v m) x == v (m x) */
  lemma {:induction false} DotSelect(v: Bits, m: seq<Bits>, x: Bits)
    requires |v| == |m| && Rows(m, |m|, |x|)
    ensures Dot(Select(v, m, |x|), x) == Dot(v, Apply(m, x))
    decreases |v|
  {
    if |v| == 0 {
      DotZero(x);
    } else {
      var k := |v| - 1;
      DotSelect(v[..k], m[..k], x);
      assert Apply(m, x)[..k] == Apply(m[..k], x);
      DotZero(x);
      DotPlus(Select(v[..k], m[..k], |x|), if v[k] then m[k] else Zero(|x|), x);
    }
  }

  lemma {:induction false} DotUnitRight(u: Bits, k: nat)
    requires k < |u|
    ensures Dot(u, Unit(|u|, k)) == u[k]
    decreases |u|
  {
    var l := |u| - 1;
    if k == l {
      assert Unit(|u|, k)[..l] == Zero(l);
      DotRightZero(u[..l]);
    } else {
      assert Unit(|u|, k)[..l] == Unit(l, k);
      DotUnitRight(u[..l], k);
    }
  }

  /** Column k of the identity goes through o and m back to itself. */
  lemma RightInverseColumn(o: seq<Bits>, m: seq<Bits>, n: nat, k: nat)
    requires Rows(o, n, n) && Rows(m, n, n) && LeftInverse(o, m, n) && !Singular(o, n) && k < n
    ensures Apply(m, Apply(o, Unit(n, k))) == Unit(n, k)
  {
    var e := Unit(n, k);
    var y := Apply(o, e);
    var z := Apply(m, y);
    var d := Plus(z, e);
    hide Select, Dot;
    forall i | 0 <= i < n ensures !Dot(o[i], d) {
      DotRightPlus(o[i], z, e);
      DotSelect(o[i], m, y);
      assert Select(o[i], m, n) == Unit(n, i);
      DotUnit(i, y);
      assert y[i] == Dot(o[i], e);
    }
    assert Kernel(o, d);
    assert d == Zero(n);
    forall i | 0 <= i < n ensures z[i] == e[i] { assert !d[i]; }
  }

  /** The left inverse of a square matrix, when it is regular itself, is a right inverse too. */
  lemma RightInverse(o: seq<Bits>, m: seq<Bits>, n: nat)
    requires Rows(o, n, n) && Rows(m, n, n) && LeftInverse(o, m, n) && !Singular(o, n)
    ensures LeftInverse(m, o, n)
  {
    hide Select, Dot, Singular;
    forall r | 0 <= r < n ensures Select(m[r], o, n) == Unit(n, r) {
      var s := Select(m[r], o, n);
      forall k | 0 <= k < n ensures s[k] == (k == r) {
        RightInverseColumn(o, m, n, k);
        DotUnitRight(s, k);
        DotSelect(m[r], o, Unit(n, k));
        assert Apply(m, Apply(o, Unit(n, k)))[r] == Dot(m[r], Apply(o, Unit(n, k)));
      }
    }
  }

  /** The rows of o h. */
  function Applied(o: seq<Bits>, h: seq<Bits>, w: nat): (t: seq<Bits>)
    requires Rows(o, |o|, |h|) && Rows(h, |h|, w)
    ensures |t| == |o| && Rows(t, |o|, w)
  {
    seq(|o|, r requires 0 <= r < |o| => Select(o[r], h, w))
  }

  lemma {:induction false} SelectApplied(v: Bits, o: seq<Bits>, h: seq<Bits>, n: nat, w: nat)
    requires |v| == |o| && Rows(o, |o|, n) && Rows(h, n, w)
    ensures Select(v, Applied(o, h, w), w) == Select(Select(v, o, n), h, w)
    decreases |v|
  {
    if |v| == 0 {
      SelectZero(h, w);
    } else {
      var k := |v| - 1;
      SelectApplied(v[..k], o[..k], h, n, w);
      assert Applied(o, h, w)[..k] == Applied(o[..k], h, w);
      SelectPlus(Select(v[..k], o[..k], n), if v[k] then o[k] else Zero(n), h, w);
      SelectZero(h, w);
    }
  }

  /** With an inverse o of m, the rows of o h are the solution t of m t = h. */
  lemma Solution(o: seq<Bits>, m: seq<Bits>, h: seq<Bits>, n: nat, w: nat, r: nat)
    requires Rows(o, n, n) && Rows(m, n, n) && LeftInverse(m, o, n) && Rows(h, n, w) && r < n
    ensures Select(m[r], Applied(o, h, w), w) == h[r]
  {
    hide Select;
    SelectApplied(m[r], o, h, n, w);
    SelectUnit(r, h, w);
  }
}
