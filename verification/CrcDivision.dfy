/** The division of polynomials over the field of two elements by a generator of degree 16, of which a word
    holds the lower coefficients, and cyclic redundancy checks as remainders. Bits are listed with the highest
    coefficient first. */
module CrcDivision {
  import opened BinaryAlgebra

  type Word = w: Bits | |w| == 16 witness seq(16, i => false)

  /** remainder << 1, on 16 bits */
  function ShiftLeft(r: Word): (s: Word)
  {
    r[1..] + [false]
  }

  /** One step of the division: remainder & TOPBIT decides whether the polynomial is subtracted. */
  function Step(poly: Word, r: Word): (s: Word)
  {
    if r[0] then Plus(ShiftLeft(r), poly) else ShiftLeft(r)
  }

  function Steps(poly: Word, r: Word, n: nat): (s: Word)
    decreases n
  {
    if n == 0 then r else Steps(poly, Step(poly, r), n - 1)
  }

  lemma StepLinear(poly: Word, r: Word, s: Word)
    ensures Step(poly, Plus(r, s)) == Plus(Step(poly, r), Step(poly, s))
  {
    assert ShiftLeft(Plus(r, s)) == Plus(ShiftLeft(r), ShiftLeft(s));
    hide ShiftLeft;
    PlusLaws(ShiftLeft(r), ShiftLeft(s), poly);
  }

  lemma PlusLaws(a: Word, b: Word, p: Word)
    ensures Plus(Plus(a, b), p) == Plus(Plus(a, p), b) == Plus(a, Plus(b, p))
    ensures Plus(Plus(a, p), Plus(b, p)) == Plus(a, b)
  {}

  lemma {:induction false} StepsLinear(poly: Word, r: Word, s: Word, n: nat)
    ensures Steps(poly, Plus(r, s), n) == Plus(Steps(poly, r, n), Steps(poly, s, n))
    decreases n
  {
    if n > 0 {
      StepLinear(poly, r, s);
      StepsLinear(poly, Step(poly, r), Step(poly, s), n - 1);
    }
  }

  lemma StepsOne(poly: Word, r: Word, n: nat)
    requires n > 0
    ensures Steps(poly, r, n) == Steps(poly, Step(poly, r), n - 1) && Steps(poly, r, 0) == r
  {}

  // ---------------------------------------------------------------- the division

  /** The generator, with its leading coefficient. */
  function Generator(poly: Word): (g: Bits)
    ensures |g| == 17
  {
    [true] + poly
  }

  /** The product of q and the generator. */
  function Product(poly: Word, q: Bits): (p: Bits)
    ensures |p| == |q| + 16
    decreases |q|
  {
    if q == [] then Zero(16)
    else
      var shifted := [false] + Product(poly, q[1..]);
      if q[0] then Plus(Generator(poly) + Zero(|q| - 1), shifted) else shifted
  }

  /** r is what remains of p after q times the generator is subtracted. */
  ghost predicate Divided(poly: Word, p: Bits, q: Bits, r: Word)
  {
    |p| == |q| + 16 && p == Plus(Product(poly, q), Zero(|q|) + r)
  }

  ghost predicate Remainder(poly: Word, p: Bits, r: Word)
  {
    exists q :: Divided(poly, p, q, r)
  }

  function Times(poly: Word, c: bool): (g: Bits)
    ensures |g| == 17
  {
    if c then Generator(poly) else Zero(17)
  }

  lemma ProductIs(poly: Word, q: Bits)
    requires q != []
    ensures Product(poly, q) == Plus(Times(poly, q[0]) + Zero(|q| - 1), [false] + Product(poly, q[1..]))
  {
    ProductOpen(poly, q);
    hide *;
    PlusNothing([false] + Product(poly, q[1..]), |q| - 1);
    TimesIs(poly, q[0]);
  }

  lemma ProductOpen(poly: Word, q: Bits)
    requires q != []
    ensures q[0] ==> Product(poly, q) == Plus(Generator(poly) + Zero(|q| - 1), [false] + Product(poly, q[1..]))
    ensures !q[0] ==> Product(poly, q) == [false] + Product(poly, q[1..])
  {
    hide Generator, Plus, Zero;
  }

  lemma PlusNothing(a: Bits, n: nat)
    requires |a| == 17 + n
    ensures Plus(Zero(17) + Zero(n), a) == a
  {}

  lemma TimesIs(poly: Word, c: bool)
    ensures Times(poly, c) == (if c then Generator(poly) else Zero(17)) && Times(poly, c)[0] == c
  {}

  lemma ProductNone(poly: Word)
    ensures Product(poly, []) == Zero(16)
  {}

  lemma {:induction false} ProductAppend(poly: Word, q: Bits, c: bool)
    ensures Product(poly, q + [c]) == Plus(Product(poly, q) + [false], Zero(|q|) + Times(poly, c))
    decreases |q|
  {
    hide *;
    var n := |q|;
    ProductIs(poly, q + [c]);
    if q == [] {
      assert (q + [c])[1..] == [] && q + [c] == [c];
      ProductNone(poly);
      AppendFirst(Times(poly, c));
    } else {
      ProductAppend(poly, q[1..], c);
      ProductIs(poly, q);
      assert (q + [c])[1..] == q[1..] + [c];
      AppendNext(Times(poly, q[0]), Product(poly, q[1..]), Times(poly, c), n);
    }
  }

  lemma AppendFirst(g: Bits)
    requires |g| == 17
    ensures Plus(g + Zero(0), [false] + Zero(16)) == Plus(Zero(16) + [false], Zero(0) + g)
  {}

  lemma AppendNext(g: Bits, a: Bits, h: Bits, n: nat)
    requires n > 0 && |g| == |h| == 17 && |a| == n + 15
    ensures Plus(g + Zero(n), [false] + Plus(a + [false], Zero(n - 1) + h)) == Plus(Plus(g + Zero(n - 1), [false] + a) + [false], Zero(n) + h)
  {}

  /** One more bit of dividend. */
  lemma DividedStep(poly: Word, p: Bits, q: Bits, r: Word)
    requires Divided(poly, p, q, r)
    ensures Divided(poly, p + [false], q + [r[0]], Step(poly, r))
  {
    ProductAppend(poly, q, r[0]);
    var g := Times(poly, r[0]);
    assert r + [false] == Plus(g, [false] + Step(poly, r));
    var a, n := Product(poly, q), |q|;
    assert Zero(n + 1) + Step(poly, r) == Zero(n) + ([false] + Step(poly, r));
    assert p + [false] == Plus(a + [false], Zero(n) + (r + [false]));
    hide *;
    Associates(a + [false], Zero(n), g, [false] + Step(poly, r), r + [false]);
    DividedFrom(poly, p + [false], q + [r[0]], Step(poly, r));
  }

  lemma DividedFrom(poly: Word, p: Bits, q: Bits, r: Word)
    requires |p| == |q| + 16 && p == Plus(Product(poly, q), Zero(|q|) + r)
    ensures Divided(poly, p, q, r)
  {}

  lemma Associates(a: Bits, z: Bits, g: Bits, s: Bits, t: Bits)
    requires |a| == |z| + |g| && |g| == |s| && t == Plus(g, s) && z == Zero(|z|)
    ensures Plus(a, z + t) == Plus(Plus(a, z + g), z + s)
  {}

  /** Adding below the degree of the generator leaves the quotient. */
  lemma DividedAdd(poly: Word, p: Bits, q: Bits, r: Word, s: Word)
    requires Divided(poly, p, q, r)
    ensures Divided(poly, Plus(p, Zero(|q|) + s), q, Plus(r, s))
  {
    hide Product;
  }

  lemma QuotientSize(poly: Word, p: Bits, q: Bits, r: Word)
    requires Divided(poly, p, q, r)
    ensures |q| == |p| - 16
  {}

  // ---------------------------------------------------------------- there is only one remainder

  lemma {:induction false} ProductPlus(poly: Word, q: Bits, u: Bits)
    requires |q| == |u|
    ensures Product(poly, Plus(q, u)) == Plus(Product(poly, q), Product(poly, u))
    decreases |q|
  {
    if q != [] {
      hide *;
      ProductPlus(poly, q[1..], u[1..]);
      ProductIs(poly, q);
      ProductIs(poly, u);
      ProductIs(poly, Plus(q, u));
      PlusFirst(q, u);
      TimesPlus(poly, q[0], u[0]);
      Regrouped(Times(poly, q[0]), Times(poly, u[0]), Product(poly, q[1..]), Product(poly, u[1..]), |q| - 1);
    } else {
      NoProduct(poly, q, u);
    }
  }

  lemma NoProduct(poly: Word, q: Bits, u: Bits)
    requires q == u == []
    ensures Product(poly, Plus(q, u)) == Plus(Product(poly, q), Product(poly, u))
  {
    assert Plus(q, u) == [];
  }

  lemma PlusFirst(q: Bits, u: Bits)
    requires |q| == |u| > 0
    ensures Plus(q, u)[0] == (q[0] != u[0]) && Plus(q, u)[1..] == Plus(q[1..], u[1..])
  {}

  lemma Regrouped(g: Bits, h: Bits, a: Bits, b: Bits, n: nat)
    requires |g| == |h| == 17 && |a| == |b| == n + 16
    ensures Plus(Plus(g, h) + Zero(n), [false] + Plus(a, b)) == Plus(Plus(g + Zero(n), [false] + a), Plus(h + Zero(n), [false] + b))
  {}

  lemma TimesPlus(poly: Word, c: bool, d: bool)
    ensures Times(poly, c != d) == Plus(Times(poly, c), Times(poly, d))
  {
    hide Generator;
  }

  /** A product whose high bits are clear is zero. */
  lemma {:induction false} ProductSmall(poly: Word, q: Bits)
    requires forall i :: 0 <= i < |q| ==> !Product(poly, q)[i]
    ensures Product(poly, q) == Zero(|q| + 16)
    decreases |q|
  {
    if q != [] {
      ProductIs(poly, q);
      hide Product;
      TimesIs(poly, q[0]);
      assert !Product(poly, q)[0];
      assert forall i :: 0 <= i < |q| - 1 ==> Product(poly, q[1..])[i] == Product(poly, q)[i + 1];
      ProductSmall(poly, q[1..]);
    }
  }

  lemma OneRemainder(poly: Word, p: Bits, r: Word, s: Word)
    requires Remainder(poly, p, r) && Remainder(poly, p, s)
    ensures r == s
  {
    hide Product;
    var q :| Divided(poly, p, q, r);
    var u :| Divided(poly, p, u, s);
    var n := |q|;
    ProductPlus(poly, q, u);
    var d := Product(poly, Plus(q, u));
    forall i | 0 <= i < n + 16 ensures d[i] == ((Zero(n) + r)[i] != (Zero(n) + s)[i]) {
      assert p[i] == Plus(Product(poly, q), Zero(n) + r)[i] == Plus(Product(poly, u), Zero(n) + s)[i];
    }
    ProductSmall(poly, Plus(q, u));
    forall j | 0 <= j < 16 ensures r[j] == s[j] {
      assert !d[n + j] && (Zero(n) + r)[n + j] == r[j] && (Zero(n) + s)[n + j] == s[j];
    }
  }

  // ---------------------------------------------------------------- feeding bits one at a time

  /** The remainder r after the bits of m, each added to the highest coefficient. */
  function Fed(poly: Word, r: Word, m: Bits): (s: Word)
    decreases |m|
  {
    if m == [] then r else Step(poly, Plus(Fed(poly, r, m[..|m| - 1]), [m[|m| - 1]] + Zero(15)))
  }

  /** The bits of m as coefficients, followed by sixteen zeros, with r added to the first sixteen. */
  function Dividend(r: Word, m: Bits): (p: Bits)
    ensures |p| == |m| + 16
  {
    Plus(r + Zero(|m|), m + Zero(16))
  }

  lemma DividendNext(r: Word, m: Bits, c: bool)
    ensures Dividend(r, m + [c]) == Plus(Dividend(r, m), Zero(|m|) + ([c] + Zero(15))) + [false]
  {}

  lemma {:induction false} FedIsRemainder(poly: Word, r: Word, m: Bits)
    ensures Remainder(poly, Dividend(r, m), Fed(poly, r, m))
    decreases |m|
  {
    hide Divided, Product, Dividend, Step;
    if m == [] {
      NothingFed(poly, r);
    } else {
      var k := |m| - 1;
      FedIsRemainder(poly, r, m[..k]);
      var p, s, c := Dividend(r, m[..k]), Fed(poly, r, m[..k]), [m[k]] + Zero(15);
      var q :| Divided(poly, p, q, s);
      QuotientSize(poly, p, q, s);
      DividedAdd(poly, p, q, s, c);
      DividedStep(poly, Plus(p, Zero(k) + c), q, Plus(s, c));
      assert m[..k] + [m[k]] == m;
      DividendNext(r, m[..k], m[k]);
    }
  }

  lemma NothingFed(poly: Word, r: Word)
    ensures Remainder(poly, Dividend(r, []), Fed(poly, r, []))
  {
    assert Dividend(r, []) == r;
    assert Divided(poly, r, [], r);
  }

  lemma {:induction false} FedTwo(poly: Word, r: Word, a: Bits, b: Bits)
    ensures Fed(poly, Fed(poly, r, a), b) == Fed(poly, r, a + b)
    decreases |b|
  {
    hide Step, Plus;
    if b == [] {
      assert a + b == a;
    } else {
      var k := |b| - 1;
      FedTwo(poly, r, a, b[..k]);
      assert (a + b)[..|a| + k] == a + b[..k];
    }
  }

  /** Steps on a word to which bits were added are the steps that feed these bits. */
  lemma {:induction false} StepsFed(poly: Word, r: Word, b: Bits)
    requires |b| <= 16
    ensures Steps(poly, Plus(r, b + Zero(16 - |b|)), |b|) == Fed(poly, r, b)
    decreases |b|
  {
    if b == [] {
      assert Plus(r, b + Zero(16)) == r;
    } else {
      var c, d := [b[0]], b[1..];
      FedTwo(poly, r, c, d);
      assert c + d == b;
      FedOne(poly, r, b[0]);
      AddedFirst(poly, r, b);
      hide Plus, Step, Fed;
      StepsFed(poly, Fed(poly, r, c), d);
    }
  }

  lemma FedOne(poly: Word, r: Word, c: bool)
    ensures Fed(poly, r, [c]) == Step(poly, Plus(r, [c] + Zero(15)))
  {
    hide Step, Plus;
    assert [c][..0] == [];
  }

  lemma AddedFirst(poly: Word, r: Word, b: Bits)
    requires 0 < |b| <= 16
    ensures Step(poly, Plus(r, b + Zero(16 - |b|))) == Plus(Step(poly, Plus(r, [b[0]] + Zero(15))), b[1..] + Zero(17 - |b|))
  {
    var low: Word := [false] + b[1..] + Zero(16 - |b|);
    assert Plus(r, b + Zero(16 - |b|)) == Plus(Plus(r, [b[0]] + Zero(15)), low);
    StepLinear(poly, Plus(r, [b[0]] + Zero(15)), low);
    assert Step(poly, low) == b[1..] + Zero(17 - |b|);
  }

  // ---------------------------------------------------------------- the exponents

  /** q x^16 + q x^a + q x^b + q */
  function FourShifts(a: nat, b: nat, q: Bits): (p: Bits)
    requires a <= 16 && b <= 16
    ensures |p| == |q| + 16
  {
    Plus(Plus(q + Zero(16), Zero(16 - a) + q + Zero(a)), Plus(Zero(16 - b) + q + Zero(b), Zero(16) + q))
  }

  /** The generator has the exponents 16, a, b and 0. */
  ghost predicate Exponents(poly: Word, a: nat, b: nat)
  {
    0 < b < a < 16 && forall i :: 0 <= i < 16 ==> (poly[i] <==> i == 15 - a || i == 15 - b || i == 15)
  }

  lemma {:induction false} ProductShifts(poly: Word, a: nat, b: nat, q: Bits)
    requires Exponents(poly, a, b)
    ensures Product(poly, q) == FourShifts(a, b, q)
    decreases |q|
  {
    if q == [] {
      ProductNone(poly);
      assert FourShifts(a, b, q) == Zero(16);
    } else {
      ProductIs(poly, q);
      ProductShifts(poly, a, b, q[1..]);
      TimesShifts(poly, a, b, q[0]);
      hide *;
      assert [q[0]] + q[1..] == q;
      ShiftsNext(a, b, q[0], q[1..]);
    }
  }

  lemma TimesShifts(poly: Word, a: nat, b: nat, c: bool)
    requires Exponents(poly, a, b)
    ensures Times(poly, c) == FourShifts(a, b, [c])
  {}

  lemma ShiftsNext(a: nat, b: nat, c: bool, q: Bits)
    requires 0 < b < a < 16
    ensures FourShifts(a, b, [c] + q) == Plus(FourShifts(a, b, [c]) + Zero(|q|), [false] + FourShifts(a, b, q))
  {
    hide *;
    ShiftNext(16, c, q);
    ShiftNext(a, c, q);
    ShiftNext(b, c, q);
    ShiftNext(0, c, q);
    ShiftsOpen(a, b, [c] + q);
    ShiftsOpen(a, b, [c]);
    ShiftsOpen(a, b, q);
    SumOfFour(Shifted(16, [c]), Shifted(a, [c]), Shifted(b, [c]), Shifted(0, [c]), Shifted(16, q), Shifted(a, q), Shifted(b, q), Shifted(0, q), |q|);
  }

  /** q x^a, with sixteen more coefficients than q. */
  function Shifted(a: nat, q: Bits): (p: Bits)
    requires a <= 16
    ensures |p| == |q| + 16
  {
    Zero(16 - a) + q + Zero(a)
  }

  lemma ShiftNext(a: nat, c: bool, q: Bits)
    requires a <= 16
    ensures Shifted(a, [c] + q) == Plus(Shifted(a, [c]) + Zero(|q|), [false] + Shifted(a, q))
  {}

  lemma ShiftsOpen(a: nat, b: nat, q: Bits)
    requires a <= 16 && b <= 16
    ensures FourShifts(a, b, q) == Plus(Plus(Shifted(16, q), Shifted(a, q)), Plus(Shifted(b, q), Shifted(0, q)))
  {
    assert Zero(0) == [];
  }

  lemma SumOfFour(d: Bits, e: Bits, f: Bits, g: Bits, t: Bits, u: Bits, v: Bits, w: Bits, n: nat)
    requires |d| == |e| == |f| == |g| == 17 && |t| == |u| == |v| == |w| == n + 16
    ensures Plus(Plus(Plus(d + Zero(n), [false] + t), Plus(e + Zero(n), [false] + u)), Plus(Plus(f + Zero(n), [false] + v), Plus(g + Zero(n), [false] + w)))
         == Plus(Plus(Plus(d, e), Plus(f, g)) + Zero(n), [false] + Plus(Plus(t, u), Plus(v, w)))
  {}

  /** Exactly the fed word is left over. */
  lemma FedExactly(poly: Word, a: nat, b: nat, r: Word, m: Bits, s: Word)
    requires Exponents(poly, a, b)
    ensures LeftOver(a, b, Dividend(r, m), s) <==> s == Fed(poly, r, m)
  {
    RemainderShifts(poly, a, b, Dividend(r, m), s);
    FedIsRemainder(poly, r, m);
    hide *;
    if Remainder(poly, Dividend(r, m), s) { OneRemainder(poly, Dividend(r, m), s, Fed(poly, r, m)); }
  }

  /** r is what is left of p after a multiple of x^16 + x^a + x^b + 1 is subtracted. */
  ghost predicate LeftOver(a: nat, b: nat, p: Bits, r: Word)
    requires a <= 16 && b <= 16
  {
    exists q :: Subtracted(a, b, p, q, r)
  }

  ghost predicate Subtracted(a: nat, b: nat, p: Bits, q: Bits, r: Word)
    requires a <= 16 && b <= 16
  {
    |p| == |q| + 16 && p == Plus(FourShifts(a, b, q), Zero(|q|) + r)
  }

  lemma RemainderShifts(poly: Word, a: nat, b: nat, p: Bits, r: Word)
    requires Exponents(poly, a, b)
    ensures LeftOver(a, b, p, r) <==> Remainder(poly, p, r)
  {
    hide FourShifts, Product;
    if LeftOver(a, b, p, r) {
      var q :| Subtracted(a, b, p, q, r);
      ProductShifts(poly, a, b, q);
      assert Divided(poly, p, q, r);
    }
    if Remainder(poly, p, r) {
      var q :| Divided(poly, p, q, r);
      ProductShifts(poly, a, b, q);
      assert Subtracted(a, b, p, q, r);
    }
  }
}
