/** The encryption: the syndrome of the error vector, computed from the rows of the public key with 64-bit
    words, and what it is for the parity-check matrix that the key was made from. */
module Syndrome {
  import opened OutputBits
  import opened BinaryAlgebra
  import opened BitMatrix
  import opened BitslicedBenes
  import opened PublicRows
  import opened PublicKey
  import opened ErrorVector
  import ControlBitsCheck

  // ---------------------------------------------------------------- sums of bits

  function Both(u: Bits, v: Bits): (r: Bits)
    requires |u| == |v|
    ensures |r| == |u|
  {
    seq(|u|, i requires 0 <= i < |u| => u[i] && v[i])
  }

  /** The sum of the bits. */
  function Odd(u: Bits): (b: bool)
    decreases |u|
  {
    if |u| == 0 then false else Odd(u[..|u| - 1]) != u[|u| - 1]
  }

  lemma {:induction false} OddPlus(u: Bits, v: Bits)
    requires |u| == |v|
    ensures Odd(Plus(u, v)) == (Odd(u) != Odd(v))
    decreases |u|
  {
    if |u| > 0 {
      var k := |u| - 1;
      OddPlus(u[..k], v[..k]);
      assert Plus(u, v)[..k] == Plus(u[..k], v[..k]);
    }
  }

  lemma {:induction false} OddConcat(u: Bits, v: Bits)
    ensures Odd(u + v) == (Odd(u) != Odd(v))
    decreases |v|
  {
    if |v| == 0 {
      assert u + v == u;
    } else {
      var k := |v| - 1;
      OddConcat(u, v[..k]);
      assert (u + v)[..|u| + k] == u + v[..k];
    }
  }

  lemma {:induction false} OddZero(w: nat)
    ensures !Odd(Zero(w))
  {
    if w > 0 {
      OddZero(w - 1);
      assert Zero(w)[..w - 1] == Zero(w - 1);
    }
  }

  lemma {:induction false} OddBoth(u: Bits, v: Bits)
    requires |u| == |v|
    ensures Odd(Both(u, v)) == Dot(u, v)
    decreases |u|
  {
    if |u| > 0 {
      var k := |u| - 1;
      OddBoth(u[..k], v[..k]);
      assert Both(u, v)[..k] == Both(u[..k], v[..k]);
    }
  }

  lemma {:induction false} DotConcat(u: Bits, x: Bits, v: Bits, y: Bits)
    requires |u| == |x| && |v| == |y|
    ensures Dot(u + v, x + y) == (Dot(u, x) != Dot(v, y))
    decreases |v|
  {
    if |v| == 0 {
      assert u + v == u && x + y == x;
    } else {
      var k := |v| - 1;
      DotConcat(u, x, v[..k], y[..k]);
      assert (u + v)[..|u| + k] == u + v[..k] && (x + y)[..|u| + k] == x + y[..k];
    }
  }

  // ---------------------------------------------------------------- the parity of a word

  /** b ^= b >> k */
  lemma FoldStep(b: Word, k: nat)
    requires 2 * k <= 64
    ensures Odd(XorWord(b, Right(b, k))[..k]) == Odd(b[..2 * k])
  {
    assert XorWord(b, Right(b, k))[..k] == Plus(b[..k], b[k..2 * k]);
    OddPlus(b[..k], b[k..2 * k]);
    OddConcat(b[..k], b[k..2 * k]);
    assert b[..k] + b[k..2 * k] == b[..2 * k];
  }

  lemma OddOne(b: Word)
    ensures Odd(b[..1]) == b[0]
  {
    assert b[..1][..0] == [];
  }

  /** The six foldings, and b &= 1. */
  method ParityOf(w: Word) returns (f: nat)
    ensures f == if Odd(w) then 1 else 0
  {
    hide *;
    var b := w;
    assert w[..64] == w;
    FoldStep(b, 32);
    b := XorWord(b, Right(b, 32));
    FoldStep(b, 16);
    b := XorWord(b, Right(b, 16));
    FoldStep(b, 8);
    b := XorWord(b, Right(b, 8));
    FoldStep(b, 4);
    b := XorWord(b, Right(b, 4));
    FoldStep(b, 2);
    b := XorWord(b, Right(b, 2));
    FoldStep(b, 1);
    b := XorWord(b, Right(b, 1));
    OddOne(b);
    f := if b[0] then 1 else 0;
  }

  // ---------------------------------------------------------------- one row of the key

  /** The bits of the bytes from place `at` on. */
  function BitsFrom(s: seq<nat>, at: nat, count: nat): (b: Bits)
    requires at + count <= |s|
    ensures |b| == 8 * count
  {
    seq(8 * count, k requires 0 <= k < 8 * count => BitOf(s[at + k / 8], k % 8) == 1)
  }

  lemma BitsFromAdd(s: seq<nat>, at: nat, j: nat, count: nat)
    requires at + j + count <= |s|
    ensures BitsFrom(s, at, j + count) == BitsFrom(s, at, j) + BitsFrom(s, at + j, count)
  {
    hide BitOf;
    var a, b := BitsFrom(s, at, j + count), BitsFrom(s, at, j) + BitsFrom(s, at + j, count);
    forall k | 0 <= k < 8 * (j + count) ensures a[k] == b[k] {
      if k >= 8 * j {
        assert (k - 8 * j) / 8 == k / 8 - j && (k - 8 * j) % 8 == k % 8;
      }
    }
  }

  lemma LoadedBits(r: Word, s: seq<nat>, at: nat, count: nat)
    requires Loaded(r, s, at, count) && count <= 8
    ensures at + count <= |s| && r == BitsFrom(s, at, count) + Zero(64 - 8 * count)
  {
    hide BitOf;
    var b := BitsFrom(s, at, count) + Zero(64 - 8 * count);
    forall k | 0 <= k < 64 ensures r[k] == b[k] { assert LoadedAt(r, s, at, count, k); }
  }

  /** The sum of the products of two loaded words. */
  lemma AndParity(u: Word, v: Word, a: Bits, x: Bits)
    requires |a| == |x| <= 64 && u == a + Zero(64 - |a|) && v == x + Zero(64 - |a|)
    ensures Odd(AndWord(u, v)) == Dot(a, x)
  {
    OddBoth(a, x);
    OddZero(64 - |a|);
    OddConcat(Both(a, x), Zero(64 - |a|));
    assert AndWord(u, v) == Both(a, x) + Zero(64 - |a|);
  }

  /** b ^= pk_ptr[j] & e_ptr[j] */
  lemma Accumulated(b: Word, u: Word, v: Word, pk: seq<nat>, e: seq<nat>, at: nat, from: nat, done: nat, count: nat)
    requires count <= 8 && Loaded(u, pk, at + done, count) && Loaded(v, e, from + done, count)
    requires at + done <= |pk| && from + done <= |e| && Odd(b) == Dot(BitsFrom(pk, at, done), BitsFrom(e, from, done))
    ensures at + done + count <= |pk| && from + done + count <= |e|
    ensures Odd(XorWord(b, AndWord(u, v))) == Dot(BitsFrom(pk, at, done + count), BitsFrom(e, from, done + count))
  {
    LoadedBits(u, pk, at + done, count);
    LoadedBits(v, e, from + done, count);
    hide *;
    var a, x := BitsFrom(pk, at + done, count), BitsFrom(e, from + done, count);
    AndParity(u, v, a, x);
    XorIsPlus(b, AndWord(u, v));
    OddPlus(b, AndWord(u, v));
    BitsFromAdd(pk, at, done, count);
    BitsFromAdd(e, from, done, count);
    DotConcat(BitsFrom(pk, at, done), BitsFrom(e, from, done), a, x);
  }

  lemma XorIsPlus(a: Word, b: Word)
    ensures XorWord(a, b) == Plus(a, b)
  {}

  lemma NothingYet(pk: seq<nat>, e: seq<nat>, at: nat, from: nat)
    requires at <= |pk| && from <= |e|
    ensures Odd(WordOf(0)) == Dot(BitsFrom(pk, at, 0), BitsFrom(e, from, 0))
  {
    forall k | 0 <= k < 64 ensures !WordOf(0)[k] { ControlBitsCheck.ZeroBit(k); }
    assert WordOf(0) == Zero(64);
    OddZero(64);
  }

  /** The product of the row of the key at `at` and the part of the error vector at `from`: whole words, and
      four bytes more. */
  method RowProduct(pk: array<nat>, e: array<nat>, at: nat, from: nat, full: nat) returns (f: nat)
    requires at + (8 * full + 4) <= pk.Length && from + (8 * full + 4) <= e.Length && AreBytes(pk[..]) && AreBytes(e[..])
    ensures f == if Dot(BitsFrom(pk[..], at, 8 * full + 4), BitsFrom(e[..], from, 8 * full + 4)) then 1 else 0
  {
    hide *;
    var b := WordOf(0);
    NothingYet(pk[..], e[..], at, from);
    var j := 0;
    while j < full
      invariant 0 <= j <= full
      invariant Odd(b) == Dot(BitsFrom(pk[..], at, 8 * j), BitsFrom(e[..], from, 8 * j))
    {
      var u := Load8(pk, at + 8 * j);
      var v := Load8(e, from + 8 * j);
      Accumulated(b, u, v, pk[..], e[..], at, from, 8 * j, 8);
      b := XorWord(b, AndWord(u, v));
      j := j + 1;
    }
    var u := Load4(pk, at + 8 * j);
    var v := Load4(e, from + 8 * j);
    Accumulated(b, u, v, pk[..], e[..], at, from, 8 * j, 4);
    b := XorWord(b, AndWord(u, v));
    f := ParityOf(b);
  }

  // ---------------------------------------------------------------- the syndrome

  /** The rows of the key, as they lie in its bytes. */
  function KeyRows(pk: seq<nat>, n: nat, rowBytes: nat): (t: seq<Bits>)
    requires Times(rowBytes, n) <= |pk|
    ensures Rows(t, n, 8 * rowBytes)
  {
    seq(n, r requires 0 <= r < n => (TimesBound(rowBytes, r, n); BitsFrom(pk, Times(rowBytes, r), rowBytes)))
  }

  lemma TimesBound(step: nat, r: nat, n: nat)
    requires r < n
    ensures Times(step, r) + step <= Times(step, n)
  {
    hide Times;
    TimesFacts(step, r, 1);
    TimesFacts(step, r + 1, n - r - 1);
  }

  /** The first part of the error vector plus the key applied to the rest. */
  function SyndromeBits(pk: seq<nat>, e: seq<nat>, n: nat, rowBytes: nat): (s: Bits)
    requires n % 8 == 0 && n / 8 + rowBytes <= |e| && Times(rowBytes, n) <= |pk|
    ensures |s| == n
  {
    Plus(BitsFrom(e, 0, n / 8), Apply(KeyRows(pk, n, rowBytes), BitsFrom(e, n / 8, rowBytes)))
  }

  /** The first i bits are done, the others are those of the error vector, and the bits from n on stay. */
  ghost predicate DoneTo(o: seq<nat>, was: seq<nat>, x: Bits, s: Bits, i: nat)
  {
    && |x| == |s| <= |o| == |was| && i <= |s|
    && forall k :: 0 <= k < |o| ==> o[k] == if k < i then One(s[k]) else if k < |s| then One(x[k]) else was[k]
  }

  function One(b: bool): (f: nat)
    ensures f < 2
  {
    if b then 1 else 0
  }

  lemma DoneStep(o: seq<nat>, was: seq<nat>, x: Bits, s: Bits, i: nat, f: nat)
    requires DoneTo(o, was, x, s, i) && i < |s| && f == One(x[i] != s[i])
    ensures DoneTo(ToggleOne(o, i, f), was, x, s, i + 1)
  {}

  /** for (i = 0; i < SYND_BYTES; i++) s[i] = e[i]; */
  method CopyHead(s: array<nat>, e: array<nat>, count: nat)
    requires count <= s.Length && count <= e.Length && s != e
    modifies s
    ensures s[..] == e[..count] + old(s[count..])
  {
    ghost var was := s[..];
    CopyFrom(was, e[..]);
    hide *;
    var i := 0;
    while i < count
      invariant 0 <= i <= count && s[..] == e[..i] + was[i..]
    {
      CopyStep(was, e[..], i);
      ghost var now := s[..];
      s[i] := e[i];
      assert s[..] == now[i := e[i]];
      i := i + 1;
    }
  }

  lemma CopyFrom(was: seq<nat>, e: seq<nat>)
    ensures was == e[..0] + was[0..]
  {}

  lemma CopyStep(was: seq<nat>, e: seq<nat>, i: nat)
    requires i < |was| && i < |e|
    ensures (e[..i] + was[i..])[i := e[i]] == e[..i + 1] + was[i + 1..]
  {}

  lemma CopiedBits(t: seq<nat>, was: seq<nat>, e: seq<nat>, count: nat, s: Bits)
    requires count <= |was| && count <= |e| && t == e[..count] + was[count..] && |s| == 8 * count
    ensures DoneTo(OutputBits.Bits(t), OutputBits.Bits(was), BitsFrom(e, 0, count), s, 0)
  {
    hide BitOf;
    var x := BitsFrom(e, 0, count);
    forall k | 0 <= k < |OutputBits.Bits(t)| ensures OutputBits.Bits(t)[k] == if k < |s| then One(x[k]) else OutputBits.Bits(was)[k] {
      if k < |s| { BitRange(e[k / 8], k % 8); }
    }
  }

  lemma BitRange(b: nat, k: nat)
    ensures BitOf(b, k) == One(BitOf(b, k) == 1)
  {}

  lemma SyndromeBit(pk: seq<nat>, e: seq<nat>, n: nat, rowBytes: nat, i: nat)
    requires n % 8 == 0 && n / 8 + rowBytes <= |e| && Times(rowBytes, n) <= |pk| && i < n
    ensures Times(rowBytes, i) + rowBytes <= |pk|
    ensures SyndromeBits(pk, e, n, rowBytes)[i]
         == (BitsFrom(e, 0, n / 8)[i] != Dot(BitsFrom(pk, Times(rowBytes, i), rowBytes), BitsFrom(e, n / 8, rowBytes)))
  {
    hide Times, BitsFrom, Dot;
    TimesBound(rowBytes, i, n);
  }

  /** syndrome(s, pk, e) */
  method SyndromeOf(s: array<nat>, pk: array<nat>, e: array<nat>, n: nat, full: nat)
    requires n % 8 == 0 && n / 8 <= s.Length && n / 8 + (8 * full + 4) <= e.Length && Times(8 * full + 4, n) <= pk.Length
    requires AreBytes(pk[..]) && AreBytes(e[..]) && s != pk && s != e
    modifies s
    ensures BitsFrom(s[..], 0, n / 8) == SyndromeBits(pk[..], e[..], n, 8 * full + 4)
    ensures OutputBits.Bits(s[..])[n..] == old(OutputBits.Bits(s[..]))[n..]
  {
    ghost var was, x, y := OutputBits.Bits(s[..]), BitsFrom(e[..], 0, n / 8), SyndromeBits(pk[..], e[..], n, 8 * full + 4);
    ghost var held := s[..];
    CopyHead(s, e, n / 8);
    CopiedBits(s[..], held, e[..], n / 8, y);
    hide *;
    var i := 0;
    while i < n
      invariant 0 <= i <= n && DoneTo(OutputBits.Bits(s[..]), was, x, y, i)
    {
      SyndromeBit(pk[..], e[..], n, 8 * full + 4, i);
      var f := RowProduct(pk, e, Times(8 * full + 4, i), n / 8, full);
      OneIs(x[i] != y[i]);
      DoneStep(OutputBits.Bits(s[..]), was, x, y, i, f);
      XorAt(s, i, f);
      i := i + 1;
    }
    DoneEnds(s[..], was, x, y, n);
  }

  lemma OneIs(b: bool)
    ensures One(b) == if b then 1 else 0
  {}

  lemma DoneEnds(t: seq<nat>, was: seq<nat>, x: Bits, y: Bits, n: nat)
    requires DoneTo(OutputBits.Bits(t), was, x, y, n) && n == |y| && n % 8 == 0
    ensures n / 8 <= |t| && BitsFrom(t, 0, n / 8) == y && n <= |was| == |OutputBits.Bits(t)| && OutputBits.Bits(t)[n..] == was[n..]
  {
    hide BitOf;
    forall k | 0 <= k < n ensures BitsFrom(t, 0, n / 8)[k] == y[k] { assert OutputBits.Bits(t)[k] == One(y[k]); }
  }

  // ---------------------------------------------------------------- what the syndrome is for

  /** The first c columns. */
  function Cut(m: seq<Bits>, n: nat, c: nat, w: nat): (r: seq<Bits>)
    requires Rows(m, n, w) && c <= w
    ensures Rows(r, n, c)
  {
    seq(n, i requires 0 <= i < n => m[i][..c])
  }

  /** The matrix m with the matrix h on its right. */
  function Beside(m: seq<Bits>, h: seq<Bits>, n: nat, w: nat): (r: seq<Bits>)
    requires Rows(m, n, n) && Rows(h, n, w)
    ensures Rows(r, n, n + w)
  {
    seq(n, i requires 0 <= i < n => m[i] + h[i])
  }

  lemma {:induction false} SelectCut(v: Bits, m: seq<Bits>, w: nat, c: nat)
    requires |v| == |m| && Rows(m, |m|, w) && c <= w
    ensures Select(v, Cut(m, |m|, c, w), c) == Select(v, m, w)[..c]
    decreases |v|
  {
    if |v| > 0 {
      var k := |v| - 1;
      SelectCut(v[..k], m[..k], w, c);
      assert Cut(m, |m|, c, w)[..k] == Cut(m[..k], k, c, w);
    }
  }

  lemma StoredRows(pk: seq<nat>, t: seq<Bits>, n: nat, w: nat, rowBytes: nat)
    requires Rows(t, n, w) && 8 * rowBytes <= w && Times(rowBytes, n) <= |pk|
    requires forall r :: 0 <= r < n ==> RowStored(pk, Times(rowBytes, r), t[r], rowBytes)
    ensures KeyRows(pk, n, rowBytes) == Cut(t, n, 8 * rowBytes, w)
  {
    hide Times, BitOf;
    forall r | 0 <= r < n ensures KeyRows(pk, n, rowBytes)[r] == Cut(t, n, 8 * rowBytes, w)[r] {
      TimesBound(rowBytes, r, n);
      assert RowStored(pk, Times(rowBytes, r), t[r], rowBytes);
      forall k | 0 <= k < 8 * rowBytes ensures BitsFrom(pk, Times(rowBytes, r), rowBytes)[k] == t[r][k] {
        assert BitStored(pk, Times(rowBytes, r), t[r], k);
      }
    }
  }

  /** What m maps the first part plus the key's image of the rest to. */
  lemma MappedTo(m: seq<Bits>, t: seq<Bits>, h: seq<Bits>, n: nat, w: nat, c: nat, x: Bits, y: Bits, r: nat)
    requires Rows(m, n, n) && Rows(t, n, w) && Rows(h, n, w) && c <= w && |x| == n && |y| == c && r < n
    requires Select(m[r], t, w) == h[r]
    ensures Dot(m[r], Plus(x, Apply(Cut(t, n, c, w), y))) == Dot(m[r] + h[r][..c], x + y)
  {
    hide Select, Dot;
    var z := Apply(Cut(t, n, c, w), y);
    DotRightPlus(m[r], x, z);
    DotSelect(m[r], Cut(t, n, c, w), y);
    SelectCut(m[r], t, w, c);
    DotConcat(m[r], x, h[r][..c], y);
  }

  /** A regular matrix maps different vectors to different ones. */
  lemma AppliedOnce(m: seq<Bits>, n: nat, x: Bits, y: Bits)
    requires Rows(m, n, n) && !Singular(m, n) && |x| == |y| == n && Apply(m, x) == Apply(m, y)
    ensures x == y
  {
    hide Dot;
    var d := Plus(x, y);
    forall r | 0 <= r < n ensures !Dot(m[r], d) {
      DotRightPlus(m[r], x, y);
      assert Apply(m, x)[r] == Apply(m, y)[r];
    }
    assert Kernel(m, d);
    assert d == Zero(n);
    forall i | 0 <= i < n ensures x[i] == y[i] { assert !d[i]; }
  }

  /** m maps s to the syndrome of the bits of e under m with h, up to its column 8 rowBytes, on the right. */
  ghost predicate Ciphertext(m: seq<Bits>, h: seq<Bits>, n: nat, w: nat, rowBytes: nat, e: seq<nat>, s: Bits)
  {
    && Rows(m, n, n) && Rows(h, n, w) && 8 * rowBytes <= w && n % 8 == 0 && n / 8 + rowBytes <= |e| && |s| == n
    && Apply(m, s) == Apply(Beside(m, Cut(h, n, 8 * rowBytes, w), n, 8 * rowBytes), BitsFrom(e, 0, n / 8 + rowBytes))
  }

  /** What KeyOf says about one row. */
  lemma KeyAt(pk: seq<nat>, t: seq<Bits>, m: seq<Bits>, h: seq<Bits>, n: nat, w: nat, rowBytes: nat)
    requires KeyOf(pk, t, m, h, n, w, rowBytes) && 8 * rowBytes <= w && Times(rowBytes, n) <= |pk|
    ensures Rows(t, n, w) && Rows(m, n, n) && Rows(h, n, w)
    ensures forall r :: 0 <= r < n ==> Select(m[r], t, w) == h[r]
    ensures KeyRows(pk, n, rowBytes) == Cut(t, n, 8 * rowBytes, w)
  {
    hide Select, Times, RowStored, Cut, KeyRows;
    StoredRows(pk, t, n, w, rowBytes);
  }

  lemma SameImage(m: seq<Bits>, t: seq<Bits>, h: seq<Bits>, n: nat, w: nat, c: nat, x: Bits, y: Bits)
    requires Rows(m, n, n) && Rows(t, n, w) && Rows(h, n, w) && c <= w && |x| == n && |y| == c
    requires forall r :: 0 <= r < n ==> Select(m[r], t, w) == h[r]
    ensures Apply(m, Plus(x, Apply(Cut(t, n, c, w), y))) == Apply(Beside(m, Cut(h, n, c, w), n, c), x + y)
  {
    hide Select, Dot, Plus;
    forall r | 0 <= r < n ensures Dot(m[r], Plus(x, Apply(Cut(t, n, c, w), y))) == Dot(m[r] + h[r][..c], x + y) {
      MappedTo(m, t, h, n, w, c, x, y, r);
    }
  }

  lemma CiphertextFrom(pk: seq<nat>, t: seq<Bits>, m: seq<Bits>, h: seq<Bits>, n: nat, w: nat, rowBytes: nat, e: seq<nat>)
    requires KeyOf(pk, t, m, h, n, w, rowBytes) && 8 * rowBytes <= w && Times(rowBytes, n) <= |pk|
    requires n % 8 == 0 && n / 8 + rowBytes <= |e|
    ensures Ciphertext(m, h, n, w, rowBytes, e, SyndromeBits(pk, e, n, rowBytes))
  {
    KeyAt(pk, t, m, h, n, w, rowBytes);
    hide Select, Dot, BitsFrom, Times, RowStored, Cut, KeyOf, KeyRows, Apply, Beside, Plus, Rows;
    BitsFromAdd(e, 0, n / 8, rowBytes);
    SameImage(m, t, h, n, w, 8 * rowBytes, BitsFrom(e, 0, n / 8), BitsFrom(e, n / 8, rowBytes));
  }

  lemma OneCiphertext(m: seq<Bits>, h: seq<Bits>, n: nat, w: nat, rowBytes: nat, e: seq<nat>, s: Bits, t: Bits)
    requires Ciphertext(m, h, n, w, rowBytes, e, s) && Ciphertext(m, h, n, w, rowBytes, e, t) && !Singular(m, n)
    ensures s == t
  {
    hide Singular, Apply, Beside, Cut, BitsFrom;
    AppliedOnce(m, n, s, t);
  }

  /** For a public key made from the regular matrix m and the matrix h beside it, the syndrome of e is the one
      vector that m maps to the syndrome of e under both. */
  lemma SyndromeExactly(pk: seq<nat>, t: seq<Bits>, m: seq<Bits>, h: seq<Bits>, n: nat, w: nat, rowBytes: nat, e: seq<nat>, s: Bits)
    requires KeyOf(pk, t, m, h, n, w, rowBytes) && !Singular(m, n) && 8 * rowBytes <= w && Times(rowBytes, n) <= |pk|
    requires n % 8 == 0 && n / 8 + rowBytes <= |e|
    ensures Ciphertext(m, h, n, w, rowBytes, e, s) <==> s == SyndromeBits(pk, e, n, rowBytes)
  {
    hide *;
    CiphertextFrom(pk, t, m, h, n, w, rowBytes, e);
    if Ciphertext(m, h, n, w, rowBytes, e, s) { OneCiphertext(m, h, n, w, rowBytes, e, s, SyndromeBits(pk, e, n, rowBytes)); }
  }

  /** encrypt(s, pk, e) with a key made from m and h: with the first accepted draw, e has t bits, and m maps
      the ciphertext to the syndrome of e under m and h. */
  method Encrypt(draws: seq<seq<nat>>, s: array<nat>, pk: array<nat>, e: array<nat>, n: nat, full: nat, t: nat,
                 ghost rows: seq<Bits>, ghost m: seq<Bits>, ghost h: seq<Bits>, ghost w: nat) returns (used: nat)
    requires n % 8 == 0 && n / 8 <= s.Length && n / 8 + (8 * full + 4) <= e.Length && Times(8 * full + 4, n) <= pk.Length
    requires n + 64 * full + 32 <= 0x8000 && (n + 64 * full + 32) % 64 > 0
    requires AreBytes(pk[..]) && AreBytes(e[..]) && s != pk && s != e && e != pk
    requires KeyOf(pk[..], rows, m, h, n, w, 8 * full + 4) && 8 * (8 * full + 4) <= w
    modifies s, e
    ensures used <= |draws| && forall d :: 0 <= d < used ==> !Accepted(draws[d], n + 64 * full + 32, t)
    ensures used < |draws| ==> Accepted(draws[used], n + 64 * full + 32, t)
    ensures used < |draws| ==> ErrorStored(e[..], draws[used], n + 64 * full + 32, t)
    ensures used < |draws| ==> Ciphertext(m, h, n, w, 8 * full + 4, e[..], BitsFrom(s[..], 0, n / 8))
  {
    hide *;
    ghost var key := pk[..];
    used := GenError(draws, e, n + 64 * full + 32, t);
    if used < |draws| {
      assert pk[..] == key;
      SyndromeOf(s, pk, e, n, full);
      CiphertextFrom(key, rows, m, h, n, w, 8 * full + 4, e[..]);
    }
  }
}
