/** Field arithmetic on 64 elements at a time: word i of a vector holds the coefficients of x^i. */
module VecField {
  import opened BinaryAlgebra
  import opened Field
  import opened Polynomials
  import opened BitMatrix

  /** Coefficients of lane r. */
  function Column(f: seq<Word>, r: nat): (p: Bits)
    requires r < 64
    ensures |p| == |f|
  {
    seq(|f|, i requires 0 <= i < |f| => f[i][r])
  }

  function Lane(f: seq<Word>, r: nat): (e: Elem)
    requires |f| == 12 && r < 64
  {
    Column(f, r)
  }

  // ---------------------------------------------------------------- multiplication

  /** What the buffer is worth after rows before i and the first j products of row i. */
  function Partial(a: Elem, b: Elem, i: nat, j: nat): (r: Elem)
    requires i <= 12 && j <= 12 && (i == 12 ==> j == 0)
    decreases i, j
  {
    if j > 0 then Add(Partial(a, b, i, j - 1), If(a[i] && b[j - 1], XK(i + (j - 1))))
    else if i > 0 then Partial(a, b, i - 1, 12)
    else Nil()
  }

  lemma PartialStep(a: Elem, b: Elem, i: nat, j: nat)
    requires i < 12 && j < 12
    ensures Partial(a, b, i, j + 1) == Add(Partial(a, b, i, j), If(a[i] && b[j], XK(i + j)))
    ensures Partial(a, b, i + 1, 0) == Partial(a, b, i, 12) && Partial(a, b, 0, 0) == Nil()
  {}

  lemma {:induction false} PartialRow(a: Elem, b: Elem, i: nat, j: nat)
    requires i < 12 && j <= 12
    ensures Partial(a, b, i, j) == Add(Partial(a, b, i, 0), If(a[i], XPow(i, SumTo(One(), b, j))))
    decreases j
  {
    hide *;
    if j == 0 {
      SumToStep(One(), b, 0);
      XPowAdd(i, Nil(), Nil());
      IfNil(a[i]);
      AddLaws(Partial(a, b, i, 0), Nil(), Nil());
    } else {
      var k := j - 1;
      PartialRow(a, b, i, k);
      PartialStep(a, b, i, k);
      SumToStep(One(), b, k);
      var u, v := SumTo(One(), b, k), If(b[k], XPow(k, One()));
      XPowAdd(i, u, v);
      XPowOfIf(i, b[k], XPow(k, One()));
      XPowSum(i, k, One());
      XKIs(i + k);
      IfBoth(a[i], b[k], XK(i + k));
      IfAdd(a[i], XPow(i, u), XPow(i, v));
      AddLaws(Partial(a, b, i, 0), If(a[i], XPow(i, u)), If(a[i], XPow(i, v)));
    }
  }

  lemma IfBoth(p: bool, q: bool, a: Elem)
    ensures If(p && q, a) == If(p, If(q, a))
  {}

  lemma {:induction false} PartialRows(a: Elem, b: Elem, i: nat)
    requires i <= 12
    ensures Partial(a, b, i, 0) == SumTo(b, a, i)
    decreases i
  {
    hide *;
    if i == 0 {
      PartialStep(a, b, 0, 0);
      SumToStep(b, a, 0);
    } else {
      var k := i - 1;
      PartialRows(a, b, k);
      PartialRow(a, b, k, 12);
      PartialStep(a, b, k, 0);
      SumIsMul(One(), b);
      MulCommutes(b, One());
      SumToStep(b, a, k);
    }
  }

  /** All products together are the product. */
  lemma PartialIsMul(a: Elem, b: Elem)
    ensures Partial(a, b, 12, 0) == Mul(a, b)
  {
    hide *;
    PartialRows(a, b, 12);
    SumIsMul(b, a);
    MulCommutes(a, b);
  }

  /** The lanes of the product buffer. */
  ghost predicate Buffered(buf: seq<Word>, f: seq<Word>, g: seq<Word>, i: nat, j: nat)
  {
    && |buf| == 23 && |f| == |g| == 12 && i <= 12 && j <= 12 && (i == 12 ==> j == 0)
    && forall r :: 0 <= r < 64 ==> BufferedAt(buf, f, g, i, j, r)
  }

  ghost predicate BufferedAt(buf: seq<Word>, f: seq<Word>, g: seq<Word>, i: nat, j: nat, r: nat)
    requires |buf| == 23 && |f| == |g| == 12 && i <= 12 && j <= 12 && (i == 12 ==> j == 0) && r < 64
  {
    Value(Column(buf, r)) == Partial(Lane(f, r), Lane(g, r), i, j)
  }

  /** buf[i+j] ^= f[i] & g[j]; */
  lemma BufferedStep(buf: seq<Word>, next: seq<Word>, f: seq<Word>, g: seq<Word>, i: nat, j: nat)
    requires Buffered(buf, f, g, i, j) && i < 12 && j < 12
    requires next == buf[i + j := XorWord(buf[i + j], AndWord(f[i], g[j]))]
    ensures Buffered(next, f, g, i, j + 1)
  {
    hide Value, Partial, Column, Lane, XorWord, AndWord;
    var k := j + 1;
    forall r | 0 <= r < 64 ensures BufferedAt(next, f, g, i, k, r) {
      assert BufferedAt(buf, f, g, i, j, r);
      PartialStep(Lane(f, r), Lane(g, r), i, j);
      ColumnToggle(buf, i + j, f[i], g[j], r);
      LaneAt(f, r, i);
      LaneAt(g, r, j);
      ValueToggle(Column(buf, r), i + j, f[i][r] && g[j][r]);
    }
  }

  lemma ColumnToggle(buf: seq<Word>, k: nat, u: Word, v: Word, r: nat)
    requires k < |buf| && r < 64
    ensures Column(buf[k := XorWord(buf[k], AndWord(u, v))], r) == Column(buf, r)[k := Column(buf, r)[k] != (u[r] && v[r])]
  {}

  lemma LaneAt(f: seq<Word>, r: nat, i: nat)
    requires |f| == 12 && r < 64 && i < 12
    ensures Lane(f, r)[i] == f[i][r]
  {}

  /** The first n words of the buffer are worth the product. */
  ghost predicate Reduced(buf: seq<Word>, f: seq<Word>, g: seq<Word>, n: nat)
  {
    |buf| == 23 && |f| == |g| == 12 && n <= 23 && forall r :: 0 <= r < 64 ==> ReducedAt(buf, f, g, n, r)
  }

  ghost predicate ReducedAt(buf: seq<Word>, f: seq<Word>, g: seq<Word>, n: nat, r: nat)
    requires |buf| == 23 && |f| == |g| == 12 && n <= 23 && r < 64
  {
    Value(Column(buf, r)[..n]) == Mul(Lane(f, r), Lane(g, r))
  }

  lemma ReducedStart(buf: seq<Word>, f: seq<Word>, g: seq<Word>)
    requires Buffered(buf, f, g, 12, 0)
    ensures Reduced(buf, f, g, 23)
  {
    hide Value, Partial, Column, Lane, Mul;
    forall r | 0 <= r < 64 ensures ReducedAt(buf, f, g, 23, r) {
      assert BufferedAt(buf, f, g, 12, 0, r);
      PartialIsMul(Lane(f, r), Lane(g, r));
      assert Column(buf, r)[..23] == Column(buf, r);
    }
  }

  /** The coefficient of x^n goes to those of x^(n-9) and x^(n-12). */
  function Folded(p: Bits, n: nat): (q: Bits)
    requires 12 <= n < |p|
    ensures |q| == |p|
  {
    p[n - 9 := p[n - 9] != p[n]][n - 12 := p[n - 12] != p[n]]
  }

  lemma FoldedPrefix(p: Bits, n: nat)
    requires 12 <= n < |p|
    ensures Folded(p, n)[..n] == p[..n][n - 9 := p[n - 9] != p[n]][n - 12 := p[n - 12] != p[n]]
    ensures p[..n + 1] == (p[..n] + [false])[n := false != p[n]] && Zero(1) == [false]
  {}

  lemma FoldTop(p: Bits, n: nat)
    requires 12 <= n < |p|
    ensures Value(Folded(p, n)[..n]) == Value(p[..n + 1])
  {
    hide *;
    var q, b := p[..n], p[n];
    var q1 := q[n - 9 := q[n - 9] != b];
    var q2 := q1[n - 12 := q1[n - 12] != b];
    FoldedPrefix(p, n);
    ValueToggle(q, n - 9, b);
    ValueToggle(q1, n - 12, b);
    ValuePad(q, 1);
    ValueToggle(q + [false], n, b);
    XKReduces(n);
    IfAdd(b, XK(n - 9), XK(n - 12));
    AddLaws(Value(q), If(b, XK(n - 9)), If(b, XK(n - 12)));
  }

  lemma ReducedStep(buf: seq<Word>, next: seq<Word>, f: seq<Word>, g: seq<Word>, n: nat)
    requires 12 <= n < 23 && Reduced(buf, f, g, n + 1)
    requires next == buf[n - 9 := XorWord(buf[n - 9], buf[n])][n - 12 := XorWord(buf[n - 12], buf[n])]
    ensures Reduced(next, f, g, n)
  {
    hide Value, Column, Lane, Mul, XorWord, Folded;
    var m := n + 1;
    forall r | 0 <= r < 64 ensures ReducedAt(next, f, g, n, r) {
      assert ReducedAt(buf, f, g, m, r);
      FoldTop(Column(buf, r), n);
      ColumnFold(buf, n, r);
    }
  }

  lemma ColumnFold(buf: seq<Word>, n: nat, r: nat)
    requires 12 <= n < |buf| && r < 64
    ensures Column(buf[n - 9 := XorWord(buf[n - 9], buf[n])][n - 12 := XorWord(buf[n - 12], buf[n])], r)
         == Folded(Column(buf, r), n)
  {}

  lemma ReducedEnd(buf: seq<Word>, f: seq<Word>, g: seq<Word>)
    requires Reduced(buf, f, g, 12)
    ensures forall r :: 0 <= r < 64 ==> Lane(buf[..12], r) == Mul(Lane(f, r), Lane(g, r))
  {
    hide Value, Mul;
    forall r | 0 <= r < 64 ensures Lane(buf[..12], r) == Mul(Lane(f, r), Lane(g, r)) {
      assert ReducedAt(buf, f, g, 12, r);
      assert Column(buf, r)[..12] == Lane(buf[..12], r);
      ValueElem(Lane(buf[..12], r));
    }
  }

  /** vec_mul(h, f, g): in every lane the product; h may be f or g. */
  method VecMul(h: array<Word>, f: array<Word>, g: array<Word>)
    requires h.Length == f.Length == g.Length == 12
    modifies h
    ensures forall r :: 0 <= r < 64 ==> Lane(h[..], r) == Mul(Lane(old(f[..]), r), Lane(old(g[..]), r))
  {
    hide *;
    ghost var u, v := f[..], g[..];
    var buf := new Word[23](k => seq(64, i => false));
    BufferedStart(buf[..], u, v);
    var i := 0;
    while i < 12
      invariant 0 <= i <= 12 && Buffered(buf[..], u, v, i, 0)
      invariant f[..] == u && g[..] == v
    {
      var j := 0;
      while j < 12
        invariant 0 <= j <= 12 && Buffered(buf[..], u, v, i, j)
        invariant f[..] == u && g[..] == v
      {
        ghost var b := buf[..];
        buf[i + j] := XorWord(buf[i + j], AndWord(f[i], g[j]));
        BufferedStep(b, buf[..], u, v, i, j);
        j := j + 1;
      }
      BufferedNext(buf[..], u, v, i);
      i := i + 1;
    }
    ReducedStart(buf[..], u, v);
    i := 22;
    while i >= 12
      invariant 11 <= i <= 22 && Reduced(buf[..], u, v, i + 1)
    {
      ghost var b := buf[..];
      buf[i - 9] := XorWord(buf[i - 9], buf[i]);
      buf[i - 12] := XorWord(buf[i - 12], buf[i]);
      ReducedStep(b, buf[..], u, v, i);
      i := i - 1;
    }
    i := 0;
    ghost var b := buf[..];
    while i < 12
      invariant 0 <= i <= 12 && buf[..] == b && h[..i] == b[..i]
    {
      h[i] := buf[i];
      i := i + 1;
    }
    assert h[..] == b[..12];
    ReducedEnd(b, u, v);
  }

  lemma BufferedStart(buf: seq<Word>, f: seq<Word>, g: seq<Word>)
    requires |buf| == 23 && |f| == |g| == 12 && forall k :: 0 <= k < 23 ==> buf[k] == seq(64, i => false)
    ensures Buffered(buf, f, g, 0, 0)
  {
    hide Value, Lane, Partial;
    forall r | 0 <= r < 64 ensures BufferedAt(buf, f, g, 0, 0, r) {
      assert Column(buf, r) == Zero(23);
      ValueZero(23);
      PartialStep(Lane(f, r), Lane(g, r), 0, 0);
    }
  }

  lemma BufferedNext(buf: seq<Word>, f: seq<Word>, g: seq<Word>, i: nat)
    requires i < 12 && Buffered(buf, f, g, i, 12)
    ensures Buffered(buf, f, g, i + 1, 0)
  {
    hide Value, Column, Lane, Partial;
    var k := i + 1;
    forall r | 0 <= r < 64 ensures BufferedAt(buf, f, g, k, 0, r) {
      assert BufferedAt(buf, f, g, i, 12, r);
      PartialStep(Lane(f, r), Lane(g, r), i, 0);
    }
  }

  // ---------------------------------------------------------------- squaring and inverting

  /** vec_sq(out, in): in every lane the square; out may be in. */
  method VecSq(out: array<Word>, input: array<Word>)
    requires out.Length == input.Length == 12
    modifies out
    ensures forall r :: 0 <= r < 64 ==> Lane(out[..], r) == Mul(Lane(old(input[..]), r), Lane(old(input[..]), r))
  {
    ghost var a := input[..];
    var result := SquaredWords(input[..]);
    var i := 0;
    while i < 12
      invariant 0 <= i <= 12 && out[..i] == result[..i]
    {
      out[i] := result[i];
      i := i + 1;
    }
    assert out[..] == result;
    hide *;
    forall r | 0 <= r < 64 ensures Lane(out[..], r) == Mul(Lane(a, r), Lane(a, r)) {
      SquaredLane(a, r);
      SquareIsBits(Lane(a, r));
    }
  }

  /** The words of the squares. */
  function SquaredWords(a: seq<Word>): (r: seq<Word>)
    requires |a| == 12
    ensures |r| == 12
  {
    [XorWord(a[0], a[6]), a[11], XorWord(a[1], a[7]), a[6],
     XorWord(XorWord(a[2], a[11]), a[8]), a[7], XorWord(a[3], a[9]), a[8],
     XorWord(a[4], a[10]), a[9], XorWord(a[5], a[11]), a[10]]
  }

  lemma SquaredLane(a: seq<Word>, r: nat)
    requires |a| == 12 && r < 64
    ensures Lane(SquaredWords(a), r) == SquareBits(Lane(a, r))
  {
    hide *;
    var l := Lane(a, r);
    SquareFacts(l);
    SquaredFacts(a, r);
    LaneFacts(a, r);
    EqualBits(Lane(SquaredWords(a), r), SquareBits(l));
  }

  lemma LaneFacts(a: seq<Word>, r: nat)
    requires |a| == 12 && r < 64
    ensures forall i :: 0 <= i < 12 ==> Lane(a, r)[i] == a[i][r]
  {}

  lemma SquaredFacts(a: seq<Word>, r: nat)
    requires |a| == 12 && r < 64
    ensures var l := Lane(SquaredWords(a), r);
            && l[0] == (a[0][r] != a[6][r]) && l[1] == a[11][r] && l[2] == (a[1][r] != a[7][r]) && l[3] == a[6][r]
            && l[4] == ((a[2][r] != a[11][r]) != a[8][r]) && l[5] == a[7][r] && l[6] == (a[3][r] != a[9][r])
            && l[7] == a[8][r] && l[8] == (a[4][r] != a[10][r]) && l[9] == a[9][r] && l[10] == (a[5][r] != a[11][r])
            && l[11] == a[10][r]
  {}

  /** In every lane, t holds the power k of a. */
  ghost predicate Powers(t: seq<Word>, a: seq<Word>, k: nat)
  {
    |t| == |a| == 12 && forall r :: 0 <= r < 64 ==> Lane(t, r) == Pow(Lane(a, r), k)
  }

  lemma SquaredPowers(t: seq<Word>, u: seq<Word>, a: seq<Word>, k: nat)
    requires |t| == 12 && Powers(u, a, k) && forall r :: 0 <= r < 64 ==> Lane(t, r) == Mul(Lane(u, r), Lane(u, r))
    ensures Powers(t, a, 2 * k)
  {
    hide Mul, Pow, Lane;
    forall r | 0 <= r < 64 ensures Lane(t, r) == Pow(Lane(a, r), 2 * k) {
      assert Lane(u, r) == Pow(Lane(a, r), k);
      PowSum(Lane(a, r), k, k);
      assert k + k == 2 * k;
    }
  }

  lemma MultipliedPowers(t: seq<Word>, u: seq<Word>, v: seq<Word>, a: seq<Word>, k: nat, j: nat)
    requires |t| == 12 && Powers(u, a, k) && Powers(v, a, j)
    requires forall r :: 0 <= r < 64 ==> Lane(t, r) == Mul(Lane(u, r), Lane(v, r))
    ensures Powers(t, a, k + j)
  {
    hide Mul, Pow, Lane;
    forall r | 0 <= r < 64 ensures Lane(t, r) == Pow(Lane(a, r), k + j) {
      assert Lane(u, r) == Pow(Lane(a, r), k) && Lane(v, r) == Pow(Lane(a, r), j);
      PowSum(Lane(a, r), k, j);
    }
  }

  method SquarePowers(t: array<Word>, u: array<Word>, ghost a: seq<Word>, ghost k: nat)
    requires t.Length == u.Length == 12 && Powers(u[..], a, k)
    modifies t
    ensures Powers(t[..], a, 2 * k)
  {
    hide *;
    ghost var x := u[..];
    VecSq(t, u);
    SquaredPowers(t[..], x, a, k);
  }

  method MulPowers(t: array<Word>, u: array<Word>, v: array<Word>, ghost a: seq<Word>, ghost k: nat, ghost j: nat)
    requires t.Length == u.Length == v.Length == 12 && Powers(u[..], a, k) && Powers(v[..], a, j)
    modifies t
    ensures Powers(t[..], a, k + j)
  {
    hide *;
    ghost var x, y := u[..], v[..];
    VecMul(t, u, v);
    MultipliedPowers(t[..], x, y, a, k, j);
  }

  lemma PowersOne(a: seq<Word>)
    requires |a| == 12
    ensures Powers(a, a, 1)
  {
    hide Pow, Lane;
    forall r | 0 <= r < 64 ensures Lane(a, r) == Pow(Lane(a, r), 1) { PowSmall(Lane(a, r)); }
  }

  /** vec_inv(out, in): in every lane the power 4094, which is the inverse of what is not zero. */
  method VecInv(out: array<Word>, input: array<Word>)
    requires out.Length == input.Length == 12 && out != input
    modifies out
    ensures forall r :: 0 <= r < 64 ==> Lane(out[..], r) == Inv(Lane(input[..], r))
  {
    hide *;
    ghost var a := input[..];
    var tmp11, tmp1111 := new Word[12], new Word[12];
    PowersOne(a);
    VecCopy(out, input);
    FirstPowers(out, input, tmp11, tmp1111, a);
    LastPowers(out, input, tmp11, tmp1111, a);
    InvPowers(out[..], a);
  }

  /** The powers 3 and 15. */
  method FirstPowers(out: array<Word>, input: array<Word>, tmp11: array<Word>, tmp1111: array<Word>, ghost a: seq<Word>)
    requires out.Length == input.Length == tmp11.Length == tmp1111.Length == 12
    requires out != input && tmp11 !in {out, input} && tmp1111 !in {out, input, tmp11}
    requires Powers(out[..], a, 1) && Powers(input[..], a, 1)
    modifies out, tmp11, tmp1111
    ensures Powers(tmp11[..], a, 3) && Powers(tmp1111[..], a, 15)
  {
    hide *;
    SquarePowers(out, out, a, 1);
    MulPowers(tmp11, out, input, a, 2, 1);
    SquarePowers(out, tmp11, a, 3);
    SquarePowers(out, out, a, 6);
    MulPowers(tmp1111, out, tmp11, a, 12, 3);
  }

  /** From the power 15 to the power 4094. */
  method LastPowers(out: array<Word>, input: array<Word>, tmp11: array<Word>, tmp1111: array<Word>, ghost a: seq<Word>)
    requires out.Length == input.Length == tmp11.Length == tmp1111.Length == 12
    requires out !in {input, tmp11, tmp1111}
    requires Powers(input[..], a, 1) && Powers(tmp11[..], a, 3) && Powers(tmp1111[..], a, 15)
    modifies out
    ensures Powers(out[..], a, 4094)
  {
    hide *;
    SquarePowers(out, tmp1111, a, 15);
    SquarePowers(out, out, a, 30);
    SquarePowers(out, out, a, 60);
    SquarePowers(out, out, a, 120);
    MulPowers(out, out, tmp1111, a, 240, 15);
    SquarePowers(out, out, a, 255);
    SquarePowers(out, out, a, 510);
    MulPowers(out, out, tmp11, a, 1020, 3);
    SquarePowers(out, out, a, 1023);
    MulPowers(out, out, input, a, 2046, 1);
    SquarePowers(out, out, a, 2047);
  }

  method VecCopy(out: array<Word>, input: array<Word>)
    requires out.Length == input.Length == 12 && out != input
    modifies out
    ensures out[..] == input[..]
  {
    var i := 0;
    while i < 12
      invariant 0 <= i <= 12 && out[..i] == input[..i]
    {
      out[i] := input[i];
      i := i + 1;
    }
    assert out[..] == out[..12] && input[..] == input[..12];
  }

  lemma InvPowers(t: seq<Word>, a: seq<Word>)
    requires Powers(t, a, 4094)
    ensures forall r :: 0 <= r < 64 ==> Lane(t, r) == Inv(Lane(a, r))
  {
    hide Pow, Lane;
  }
}
