/** The inversion of many field elements with a single inversion: prefix products on the way up,
    inverses on the way down. Used by the public-key generation and by the decryption. */
module BatchInversion {
  import opened Field
  import opened BitMatrix
  import opened VecField

  type Vec = v: seq<Word> | |v| == 12 witness seq(12, i => seq(64, j => false))

  // ---------------------------------------------------------------- one lane

  lemma {:induction false} PowProduct(a: Elem, b: Elem, k: nat)
    ensures Pow(Mul(a, b), k) == Mul(Pow(a, k), Pow(b, k))
    decreases k
  {
    hide Mul, One;
    if k == 0 {
      MulCommutes(One(), One());
    } else {
      PowProduct(a, b, k - 1);
      var u, v := Pow(a, k - 1), Pow(b, k - 1);
      // (ab)(uv) = a(b(uv)) = a((bu)v) = a((ub)v) = a(u(bv)) = (au)(bv)
      MulAssociates(a, b, Mul(u, v));
      MulAssociates(b, u, v);
      MulCommutes(b, u);
      MulAssociates(u, b, v);
      MulAssociates(a, u, Mul(b, v));
    }
  }

  lemma InvProduct(a: Elem, b: Elem)
    ensures Inv(Mul(a, b)) == Mul(Inv(a), Inv(b)) && Inv(Nil()) == Nil()
  {
    hide *;
    PowProduct(a, b, 4094);
    InvIs(a);
    InvIs(b);
    InvIs(Mul(a, b));
    InvIs(Nil());
    PowSum(Nil(), 1, 4093);
    PowSmall(Nil());
    MulLinear(Pow(Nil(), 4093), Nil(), Nil());
  }

  /** The product of the elements 0 to i. */
  function Prefix(e: seq<Elem>, i: nat): (p: Elem)
    requires i < |e|
    decreases i
  {
    if i == 0 then e[0] else Mul(Prefix(e, i - 1), e[i])
  }

  ghost predicate NoZero(e: seq<Elem>)
  {
    forall i :: 0 <= i < |e| ==> e[i] != Nil()
  }

  lemma {:induction false} PrefixZero(e: seq<Elem>, i: nat)
    requires i < |e|
    ensures Prefix(e, i) == Nil() <==> exists j :: 0 <= j <= i && e[j] == Nil()
    decreases i
  {
    hide Mul, Nil;
    if i > 0 {
      PrefixZero(e, i - 1);
      NoZeroDivisors(Prefix(e, i - 1), e[i]);
    }
  }

  /** The state on the way down, at index i: t is the inverse of the prefix product, the outputs
      above i are inverses, those up to i are still prefix products. */
  ghost predicate Down(p: seq<Elem>, t: Elem, e: seq<Elem>, i: nat)
  {
    && |p| == |e| && i < |e| && (forall j :: 0 <= j <= i ==> p[j] == Prefix(e, j))
    && if NoZero(e) then t == Inv(Prefix(e, i)) && forall j :: i < j < |e| ==> p[j] == Inv(e[j])
       else t == Nil() && forall j :: i < j < |e| ==> p[j] == Nil()
  }

  lemma DownStart(p: seq<Elem>, e: seq<Elem>)
    requires |p| == |e| > 0 && forall j :: 0 <= j < |e| ==> p[j] == Prefix(e, j)
    ensures Down(p, Inv(Prefix(e, |e| - 1)), e, |e| - 1)
  {
    hide Mul, Nil, Inv, Prefix;
    PrefixZero(e, |e| - 1);
    InvProduct(Nil(), Nil());
  }

  lemma DownStep(p: seq<Elem>, t: Elem, e: seq<Elem>, i: nat)
    requires Down(p, t, e, i + 1)
    ensures Down(p[i + 1 := Mul(p[i], t)], Mul(t, e[i + 1]), e, i)
  {
    var x, q := e[i + 1], Prefix(e, i);
    DownMeans(p, t, e, i);
    hide *;
    if NoZero(e) {
      NoZeroMeans(e, i);
      InvProduct(q, x);
      Cancels(q, x);
    } else {
      MulLinear(p[i], p[i], p[i]);
      MulLinear(x, x, x);
    }
    DownMake(p, t, e, i, Mul(p[i], t), Mul(t, x));
  }

  lemma DownMeans(p: seq<Elem>, t: Elem, e: seq<Elem>, i: nat)
    requires Down(p, t, e, i + 1)
    ensures |p| == |e| && i + 1 < |e| && p[i] == Prefix(e, i)
    ensures t == if NoZero(e) then Inv(Mul(Prefix(e, i), e[i + 1])) else Nil()
  {
    assert Prefix(e, i + 1) == Mul(Prefix(e, i), e[i + 1]);
    hide Mul, Nil, Inv, Prefix, NoZero;
  }

  lemma NoZeroMeans(e: seq<Elem>, i: nat)
    requires NoZero(e) && i + 1 < |e|
    ensures e[i + 1] != Nil() && Prefix(e, i) != Nil()
  {
    hide Prefix;
    PrefixZero(e, i);
  }

  lemma DownMake(p: seq<Elem>, t: Elem, e: seq<Elem>, i: nat, h: Elem, next: Elem)
    requires Down(p, t, e, i + 1)
    requires if NoZero(e) then h == Inv(e[i + 1]) && next == Inv(Prefix(e, i)) else h == Nil() && next == Nil()
    ensures Down(p[i + 1 := h], next, e, i)
  {
    hide Mul, Nil, Inv, Prefix, NoZero;
  }

  /** q (q^-1 x^-1) = x^-1 and (q^-1 x^-1) x = q^-1 */
  lemma Cancels(q: Elem, x: Elem)
    requires q != Nil() && x != Nil()
    ensures Mul(q, Mul(Inv(q), Inv(x))) == Inv(x) && Mul(Mul(Inv(q), Inv(x)), x) == Inv(q)
  {
    hide *;
    Inverse(q);
    Inverse(x);
    MulAssociates(q, Inv(q), Inv(x));
    MulAssociates(Inv(q), Inv(x), x);
    MulCommutes(Inv(x), One());
    MulCommutes(Inv(q), One());
  }

  // ---------------------------------------------------------------- all lanes

  /** Lane r of a list of vectors. */
  function Lanes(s: seq<Vec>, r: nat): (e: seq<Elem>)
    requires r < 64
    ensures |e| == |s|
  {
    seq(|s|, i requires 0 <= i < |s| => Lane(s[i], r))
  }

  method Product(f: Vec, g: Vec) returns (h: Vec)
    ensures forall r :: 0 <= r < 64 ==> Lane(h, r) == Mul(Lane(f, r), Lane(g, r))
  {
    hide *;
    var x, y := new Word[12](i requires 0 <= i < 12 => f[i]), new Word[12](i requires 0 <= i < 12 => g[i]);
    assert x[..] == f && y[..] == g;
    VecMul(x, x, y);
    h := x[..];
  }

  method Inverted(f: Vec) returns (h: Vec)
    ensures forall r :: 0 <= r < 64 ==> Lane(h, r) == Inv(Lane(f, r))
  {
    hide *;
    var x := new Word[12](i requires 0 <= i < 12 => f[i]);
    assert x[..] == f;
    var y := new Word[12];
    VecInv(y, x);
    h := y[..];
  }

  ghost predicate UpTo(prod: seq<Vec>, eval: seq<Vec>, i: nat)
  {
    |prod| == |eval| && i <= |eval| && forall r, j :: 0 <= r < 64 && 0 <= j < i ==> Lane(prod[j], r) == Prefix(Lanes(eval, r), j)
  }

  ghost predicate DownTo(prod: seq<Vec>, tmp: Vec, eval: seq<Vec>, i: nat)
  {
    forall r :: 0 <= r < 64 ==> Down(Lanes(prod, r), Lane(tmp, r), Lanes(eval, r), i)
  }

  lemma UpStep(prod: seq<Vec>, eval: seq<Vec>, i: nat, h: Vec)
    requires 0 < i < |eval| && UpTo(prod, eval, i)
    requires forall r :: 0 <= r < 64 ==> Lane(h, r) == Mul(Lane(prod[i - 1], r), Lane(eval[i], r))
    ensures UpTo(prod[i := h], eval, i + 1)
  {
    hide Mul, Lane;
    forall r | 0 <= r < 64 ensures Lane(h, r) == Prefix(Lanes(eval, r), i) { }
  }

  lemma DownBegins(prod: seq<Vec>, tmp: Vec, eval: seq<Vec>)
    requires |eval| > 0 && UpTo(prod, eval, |eval|)
    requires forall r :: 0 <= r < 64 ==> Lane(tmp, r) == Inv(Lane(prod[|eval| - 1], r))
    ensures DownTo(prod, tmp, eval, |eval| - 1)
  {
    hide Mul, Lane, Inv, Prefix, Down;
    forall r | 0 <= r < 64 ensures Down(Lanes(prod, r), Lane(tmp, r), Lanes(eval, r), |eval| - 1) {
      DownStart(Lanes(prod, r), Lanes(eval, r));
    }
  }

  lemma DownSteps(prod: seq<Vec>, tmp: Vec, eval: seq<Vec>, i: nat, h: Vec, next: Vec)
    requires |prod| == |eval| && i + 1 < |eval| && DownTo(prod, tmp, eval, i + 1)
    requires forall r :: 0 <= r < 64 ==> Lane(h, r) == Mul(Lane(prod[i], r), Lane(tmp, r))
    requires forall r :: 0 <= r < 64 ==> Lane(next, r) == Mul(Lane(tmp, r), Lane(eval[i + 1], r))
    ensures DownTo(prod[i + 1 := h], next, eval, i)
  {
    hide Mul, Lane, Down;
    forall r | 0 <= r < 64 ensures Down(Lanes(prod[i + 1 := h], r), Lane(next, r), Lanes(eval, r), i) {
      DownStep(Lanes(prod, r), Lane(tmp, r), Lanes(eval, r), i);
      assert Lanes(prod[i + 1 := h], r) == Lanes(prod, r)[i + 1 := Lane(h, r)];
    }
  }

  /** In every lane without a zero, each output is the inverse of its input; in the other lanes all
      outputs are zero. */
  ghost predicate AllInverted(prod: seq<Vec>, eval: seq<Vec>)
  {
    |prod| == |eval| && forall r :: 0 <= r < 64 ==> LaneInverted(Lanes(prod, r), Lanes(eval, r))
  }

  ghost predicate LaneInverted(p: seq<Elem>, e: seq<Elem>)
  {
    |p| == |e| && forall j :: 0 <= j < |e| ==> p[j] == if NoZero(e) then Inv(e[j]) else Nil()
  }

  lemma DownEnds(prod: seq<Vec>, tmp: Vec, eval: seq<Vec>)
    requires |prod| == |eval| > 0 && DownTo(prod, tmp, eval, 0)
    ensures AllInverted(prod[0 := tmp], eval)
  {
    hide Mul, Lane, Inv;
    forall r | 0 <= r < 64 ensures LaneInverted(Lanes(prod[0 := tmp], r), Lanes(eval, r)) {
      assert Down(Lanes(prod, r), Lane(tmp, r), Lanes(eval, r), 0);
      assert Lanes(prod[0 := tmp], r) == Lanes(prod, r)[0 := Lane(tmp, r)];
    }
  }

  /** The two passes. */
  method InvertAll(prod: array<Vec>, eval: seq<Vec>)
    requires prod.Length == |eval| > 0
    modifies prod
    ensures AllInverted(prod[..], eval)
  {
    hide *;
    var n := |eval|;
    prod[0] := eval[0];
    UpBegins(prod[..], eval);
    var i := 1;
    while i < n
      invariant 1 <= i <= n && UpTo(prod[..], eval, i)
    {
      ghost var p := prod[..];
      var h := Product(prod[i - 1], eval[i]);
      UpStep(p, eval, i, h);
      prod[i] := h;
      assert prod[..] == p[i := h];
      i := i + 1;
    }
    var tmp := Inverted(prod[n - 1]);
    DownBegins(prod[..], tmp, eval);
    i := n - 2;
    while i >= 0
      invariant -1 <= i <= n - 2 && DownTo(prod[..], tmp, eval, i + 1)
    {
      ghost var p := prod[..];
      var h := Product(prod[i], tmp);
      var next := Product(tmp, eval[i + 1]);
      DownSteps(p, tmp, eval, i, h, next);
      prod[i + 1] := h;
      tmp := next;
      assert prod[..] == p[i + 1 := h];
      i := i - 1;
    }
    ghost var p := prod[..];
    DownEnds(p, tmp, eval);
    prod[0] := tmp;
    assert prod[..] == p[0 := tmp];
  }

  lemma UpBegins(prod: seq<Vec>, eval: seq<Vec>)
    requires |prod| == |eval| > 0 && prod[0] == eval[0]
    ensures UpTo(prod, eval, 1)
  {}
}
