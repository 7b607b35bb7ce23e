/** The one-shot sponge and SHAKE256, and the proof that the incremental code computes the same for
    every way of cutting the input and the output. */
module Shake {
  import opened Bytes
  import opened Sequences
  import opened Sponge
  import opened KeccakSponge
  import opened Numerals
  import Words

  /** load64(x): the bytes are combined with | after a shift. */
  method Load64(x: seq<Byte>, at: nat) returns (r: Lane)
    requires at + 8 <= |x|
    ensures r == x[at..at + 8]
  {
    hide Or8, Shifted, NoBits;
    r := NoLane();
    var i := 0;
    while i < 8
      invariant 0 <= i <= 8
      invariant forall j :: 0 <= j < i ==> r[j] == x[at + j]
      invariant forall j :: i <= j < 8 ==> r[j] == NoBits()
    {
      var l := Shifted(x[at + i], i);
      forall j | 0 <= j < 8 ensures OrLane(r, l)[j] == if j == i then x[at + i] else r[j] {
        ShiftedAt(x[at + i], i, j);
        OrNothing(r[j]);
        OrNothing(x[at + i]);
      }
      r := OrLane(r, l);
      i := i + 1;
    }
  }

  function NoLane(): (l: Lane)
    ensures forall j :: 0 <= j < 8 ==> l[j] == NoBits()
  {
    seq(8, i => NoBits())
  }

  lemma OrNothing(b: Byte)
    ensures Or8(b, NoBits()) == b && Or8(NoBits(), b) == b
  {
    assert Or8(b, NoBits()) == b;
  }

  /** for (i = 0; i < r / 8; ++i) s[i] ^= load64(m + 8 * i) */
  method AddBlock(s: array<Lane>, r: nat, m: seq<Byte>, at: nat)
    requires s.Length == 25 && r <= 200 && r % 8 == 0 && at + r <= |m|
    modifies s
    ensures Flat(s[..]) == XorAt(old(Flat(s[..])), 0, m[at..at + r])
  {
    hide *;
    ghost var x := Flat(s[..]);
    XorNone(x, 0);
    assert m[at..at] == [];
    var i := 0;
    while i < r / 8
      invariant 0 <= i <= r / 8 && Flat(s[..]) == XorAt(x, 0, m[at..at + 8 * i])
    {
      ghost var t := s[..];
      var l := Load64(m, at + 8 * i);
      s[i] := XorLane(s[i], l);
      LaneAdded(t, s[..], i, l);
      XorJoined(x, 0, m[at..at + 8 * i], l);
      assert m[at..at + 8 * i] + l == m[at..at + 8 * (i + 1)];
      i := i + 1;
    }
  }

  /** A rate of whole lanes. */
  predicate Rate(r: nat)
  {
    0 < r <= 200 && r % 8 == 0
  }

  /** keccak_absorb: the state, once permuted, is that of the sponge of FIPS 202, whatever the domain
      byte. */
  method KeccakAbsorb(s: array<Lane>, f: State -> State, r: nat, m: seq<Byte>, p: Byte)
    requires s.Length == 25 && Rate(r)
    modifies s
    ensures f(Flat(s[..])) == Blocks(f, r, Start(), m + Padding(r, Pending(r, m), p))
  {
    hide *;
    RateIs(r);
    Clear(s);
    ghost var pad := Padding(r, Pending(r, m), p);
    var k := 0;
    assert m[0..] == m;
    while |m| - k >= r
      invariant 0 <= k <= |m| && Pending(r, m[k..]) == Pending(r, m)
      invariant Blocks(f, r, Flat(s[..]), m[k..] + pad) == Blocks(f, r, Start(), m + pad)
    {
      BlocksStep(f, r, Flat(s[..]), m[k..], pad);
      AddBlock(s, r, m, k);
      Permute(s, f);
      assert m[k..][..r] == m[k..k + r] && m[k..][r..] == m[k + r..];
      k := k + r;
    }
    var t := LastBlock(r, m[k..], p);
    PendingShort(r, m[k..]);
    ghost var x := Flat(s[..]);
    assert m[k..] + pad == t == t[0..0 + r];
    AddBlock(s, r, t, 0);
    BlocksLast(f, r, x, t);
  }

  lemma RateIs(r: nat)
    requires Rate(r)
    ensures 0 < r <= 200 && r % 8 == 0
  {}

  /** for (i = 0; i < 25; ++i) s[i] = 0 */
  method Clear(s: array<Lane>)
    requires s.Length == 25
    modifies s
    ensures Flat(s[..]) == Start()
  {
    hide NoBits;
    var i := 0;
    while i < 25
      invariant 0 <= i <= 25 && forall k :: 0 <= k < i ==> s[k] == NoLane()
    {
      s[i] := NoLane();
      i := i + 1;
    }
    forall k | 0 <= k < 25 ensures s[..][k] == LaneOf(Start(), k) {}
    FlatOfLanes(s[..], Start());
  }

  lemma PendingShort(r: nat, m: seq<Byte>)
    requires 0 < r && |m| < r
    ensures Pending(r, m) == |m|
  {}

  lemma BlocksStep(f: State -> State, r: nat, x: State, m: seq<Byte>, pad: seq<Byte>)
    requires 0 < r <= 200 && |m| >= r
    ensures Blocks(f, r, x, m + pad) == Blocks(f, r, f(XorAt(x, 0, m[..r])), m[r..] + pad)
    ensures Pending(r, m) == Pending(r, m[r..])
  {
    assert (m + pad)[..r] == m[..r] && (m + pad)[r..] == m[r..] + pad;
    hide XorAt;
  }

  lemma BlocksLast(f: State -> State, r: nat, x: State, t: seq<Byte>)
    requires 0 < r <= 200 && |t| == r
    ensures Blocks(f, r, x, t) == f(XorAt(x, 0, t))
  {
    assert t[..r] == t && t[r..] == [];
    hide XorAt;
  }

  /** The last block: zeros, the rest of the message, the domain byte, and the top bit set in the
      last byte. */
  method LastBlock(r: nat, m: seq<Byte>, p: Byte) returns (t: seq<Byte>)
    requires 0 < r <= 200 && |m| < r
    ensures t == m + Padding(r, |m|, p)
  {
    hide Or8;
    var b := new Byte[200](_ => NoBits());
    var i := 0;
    while i < |m|
      invariant 0 <= i <= |m| && (forall k :: 0 <= k < i ==> b[k] == m[k]) && forall k :: i <= k < 200 ==> b[k] == NoBits()
    {
      b[i] := m[i];
      i := i + 1;
    }
    b[i] := p;
    b[r - 1] := Or8(b[r - 1], TopBit());
    OrNothing(TopBit());
    t := b[..r];
  }

  // ---------------------------------------------------------------- squeezing whole blocks

  /** store64(x, u) */
  method Store64(h: array<Byte>, at: nat, u: Lane)
    requires at + 8 <= h.Length
    modifies h
    ensures h[at..at + 8] == u && h[..at] == old(h[..at]) && h[at + 8..] == old(h[at + 8..])
  {
    var i := 0;
    while i < 8
      invariant 0 <= i <= 8 && forall k :: at <= k < at + i ==> h[k] == u[k - at]
      invariant h[..at] == old(h[..at]) && h[at + 8..] == old(h[at + 8..])
    {
      h[at + i] := ByteAt(u, i);
      i := i + 1;
    }
  }

  lemma FlatSlice(s: seq<Lane>, i: nat)
    requires |s| == 25 && i < 25
    ensures Flat(s)[8 * i..8 * i + 8] == s[i]
  {
    forall j | 0 <= j < 8 ensures Flat(s)[8 * i + j] == s[i][j] {}
  }

  lemma SliceStep(g: seq<Byte>, h: seq<Byte>, at: nat, k: nat, i: nat, x: seq<Byte>)
    requires |g| == |h| && at + k + i <= |h| && k + i <= |x|
    requires h[..at + k] == g[..at + k] && h[at + k + i..] == g[at + k + i..]
    requires g[at..at + k] == x[..k] && h[at + k..at + k + i] == x[k..k + i]
    ensures h[at..at + (k + i)] == x[..k + i] && h[..at] == g[..at]
  {
    assert h[at..at + k] == h[..at + k][at..] == g[at..at + k];
    assert h[..at] == h[..at + k][..at] == g[..at];
    assert h[at..at + (k + i)] == h[at..at + k] + h[at + k..at + k + i];
  }

  lemma SameEnd(g: seq<Byte>, h: seq<Byte>, a: nat, b: nat)
    requires |g| == |h| && a <= b <= |h| && h[a..] == g[a..]
    ensures h[b..] == g[b..]
  {
    var d := b - a;
    assert h[b..] == h[a..][d..] && g[b..] == g[a..][d..];
  }

  /** for (i = 0; i < (r >> 3); i++) store64(h + 8 * i, s[i]) */
  method StoreBlock(h: array<Byte>, at: nat, s: array<Lane>, r: nat)
    requires s.Length == 25 && r <= 200 && r % 8 == 0 && at + r <= h.Length
    modifies h
    ensures h[at..at + r] == Flat(s[..])[..r] && h[..at] == old(h[..at]) && h[at + r..] == old(h[at + r..])
  {
    hide *;
    ghost var x := Flat(s[..]);
    var i := 0;
    while i < r / 8
      invariant 0 <= i <= r / 8 && h[at..at + 8 * i] == x[..8 * i] && Flat(s[..]) == x
      invariant h[..at] == old(h[..at]) && h[at + r..] == old(h[at + r..])
    {
      ghost var g := h[..];
      FlatSlice(s[..], i);
      Store64(h, at + 8 * i, s[i]);
      SliceStep(g, h[..], at, 8 * i, 8, x);
      SameEnd(g, h[..], at + 8 * i + 8, at + r);
      i := i + 1;
    }
  }

  lemma TimesStep(k: nat, r: nat)
    ensures (k + 1) * r == k * r + r && k * r >= 0
  {}

  /** keccak_squeezeblocks(h, nblocks, s, r) */
  method SqueezeBlocks(h: array<Byte>, at: nat, nblocks: nat, s: array<Lane>, f: State -> State, r: nat)
    requires s.Length == 25 && Rate(r) && at + nblocks * r <= h.Length
    modifies h, s
    ensures Progress(f, r, old(Flat(s[..])), 0, nblocks * r, Flat(s[..]), 0, h[at..at + nblocks * r])
    ensures h[..at] == old(h[..at]) && h[at + nblocks * r..] == old(h[at + nblocks * r..])
  {
    hide *;
    RateIs(r);
    ghost var x := Flat(s[..]);
    var k, n := 0, 0;
    ProgressNone(f, r, x);
    assert h[at..at] == [];
    while k < nblocks
      invariant 0 <= k <= nblocks && n == k * r
      invariant at + n <= h.Length && Progress(f, r, x, 0, n, Flat(s[..]), 0, h[at..at + n])
      invariant h[..at] == old(h[..at]) && h[at + n..] == old(h[at + n..])
    {
      ghost var y, g := Flat(s[..]), h[..];
      TimesStep(k, r);
      MoreTimes(k + 1, nblocks, r);
      Permute(s, f);
      StoreBlock(h, at + n, s, r);
      OneBlock(f, r, y, r);
      ProgressStep(f, r, x, 0, n, r, y, 0, Flat(s[..]), 0, g[at..at + n], h[at + n..at + n + r]);
      Joined(g, h[..], at, n, r);
      SameEnd(old(h[..]), g, at + n, at + n + r);
      k, n := k + 1, n + r;
    }
  }

  lemma MoreTimes(k: nat, n: nat, r: nat)
    requires k <= n
    ensures k * r <= n * r
  {}

  lemma ProgressNone(f: State -> State, r: nat, x: State)
    requires 0 < r <= 200
    ensures Progress(f, r, x, 0, 0, x, 0, [])
  {
    AheadIs(f, r, x, 0, 0);
    assert x[r..r] == [];
  }

  lemma Joined(g: seq<Byte>, h: seq<Byte>, at: nat, n: nat, i: nat)
    requires |g| == |h| && at + n + i <= |h| && h[..at + n] == g[..at + n]
    ensures h[at..at + (n + i)] == g[at..at + n] + h[at + n..at + n + i] && h[..at] == g[..at]
  {
    assert h[at..at + n] == h[..at + n][at..] == g[at..at + n];
    assert h[..at] == h[..at + n][..at] == g[..at];
  }

  // ---------------------------------------------------------------- the hashes

  lemma Quotient(n: nat, r: nat)
    requires 0 < r
    ensures 0 <= n / r * r <= n && n - n / r * r < r
  {}

  /** for (i = 0; i < n; ++i) output[i] = t[i] */
  method CopyBytes(output: array<Byte>, at: nat, t: array<Byte>, n: nat)
    requires at + n <= output.Length && n <= t.Length && t != output
    modifies output
    ensures output[at..at + n] == t[..n] && output[..at] == old(output[..at]) && output[at + n..] == old(output[at + n..])
  {
    var i := 0;
    while i < n
      invariant 0 <= i <= n && output[..at] == old(output[..at]) && output[at + n..] == old(output[at + n..])
      invariant forall k :: at <= k < at + i ==> output[k] == t[k - at]
    {
      output[at + i] := t[i];
      i := i + 1;
    }
  }

  /** The last, partial block goes through a buffer of its own. */
  method LastPart(output: array<Byte>, at: nat, rest: nat, s: array<Lane>, f: State -> State, r: nat)
    requires s.Length == 25 && Rate(r) && rest < r && at + rest <= output.Length
    modifies output, s
    ensures output[at..at + rest] == Ahead(f, r, old(Flat(s[..])), 0, r)[..rest]
    ensures output[..at] == old(output[..at]) && output[at + rest..] == old(output[at + rest..])
  {
    hide *;
    RateIs(r);
    ghost var y := Flat(s[..]);
    var t := new Byte[200](_ => NoBits());
    TimesStep(0, r);
    SqueezeBlocks(t, 0, 1, s, f, r);
    ProgressIs(f, r, y, 0, r, Flat(s[..]), 0, t[0..0 + r]);
    assert t[..rest] == t[0..0 + r][..rest];
    CopyBytes(output, at, t, rest);
  }

  /** shake128 and shake256, for any rate, permutation and domain byte: the output is that of the
      sponge of FIPS 202. */
  method OneShot(output: array<Byte>, outlen: nat, m: seq<Byte>, f: State -> State, r: nat, p: Byte)
    requires Rate(r) && outlen <= output.Length
    modifies output
    ensures output[..outlen] == SpongeHash(f, r, m, p, outlen) && output[outlen..] == old(output[outlen..])
  {
    hide *;
    RateIs(r);
    var s := new Lane[25](_ => NoLane());
    KeccakAbsorb(s, f, r, m, p);
    ghost var x := Flat(s[..]);
    var nblocks := outlen / r;
    Quotient(outlen, r);
    var full := nblocks * r;
    SqueezeBlocks(output, 0, nblocks, s, f, r);
    var rest := outlen - full;
    ghost var g, y := output[..], Flat(s[..]);
    assert g[0..0 + full] == g[..full];
    SameEnd(old(output[..]), g, full, outlen);
    if rest > 0 {
      LastPart(output, full, rest, s, f, r);
      HashEnds(f, r, m, p, x, full, rest, y, g[..full], Ahead(f, r, y, 0, r));
      assert output[..outlen] == output[..full] + output[full..full + rest];
    } else {
      HashWhole(f, r, m, p, x, full, y, g[..full]);
    }
  }

  lemma HashIs(f: State -> State, r: nat, m: seq<Byte>, p: Byte, x: State, n: nat)
    requires 0 < r <= 200 && f(x) == Blocks(f, r, Start(), m + Padding(r, Pending(r, m), p))
    ensures Ahead(f, r, x, 0, n) == SpongeHash(f, r, m, p, n)
  {
    hide Blocks, Output, Ahead;
    AheadIs(f, r, x, 0, n);
    AheadOutput(f, r, f(x), n);
    assert x[r..r] == [];
    OutputNone(f, r, f(x));
  }

  lemma HashWhole(f: State -> State, r: nat, m: seq<Byte>, p: Byte, x: State, n: nat, y: State, a: seq<Byte>)
    requires 0 < r <= 200 && f(x) == Blocks(f, r, Start(), m + Padding(r, Pending(r, m), p))
    requires Progress(f, r, x, 0, n, y, 0, a)
    ensures a == SpongeHash(f, r, m, p, n)
  {
    hide *;
    HashIs(f, r, m, p, x, n);
    ProgressIs(f, r, x, 0, n, y, 0, a);
  }

  /** The last, partial block. */
  lemma HashEnds(f: State -> State, r: nat, m: seq<Byte>, p: Byte, x: State, n: nat, rest: nat, y: State, a: seq<Byte>, t: seq<Byte>)
    requires 0 < r <= 200 && f(x) == Blocks(f, r, Start(), m + Padding(r, Pending(r, m), p)) && 0 < rest < r
    requires Progress(f, r, x, 0, n, y, 0, a) && t == Ahead(f, r, y, 0, r)
    ensures a + t[..rest] == SpongeHash(f, r, m, p, n + rest)
  {
    hide *;
    HashIs(f, r, m, p, x, n + rest);
    ProgressIs(f, r, x, 0, n, y, 0, a);
    AheadSplits(f, r, x, 0, n, rest);
    OneBlock(f, r, y, r);
    OneBlock(f, r, y, rest);
    assert f(y)[..r][..rest] == f(y)[..rest];
  }

  /** SHAKE256_RATE, and the domain byte 0x1F. */
  const RATE256: nat := 136

  function Domain(): (p: Byte)
    ensures !p[7]
  {
    seq(8, i => i < 5)
  }

  /** The domain byte is the suffix 1111 of SHAKE followed by the first bit of the padding, and the capacity is twice
      the 256 bits of security. */
  lemma Shake256Parameters()
    ensures Number(Domain()) == 0x1f && RATE256 == 200 - 2 * 256 / 8
  {
    NumberOfBits(0x1f, 8);
    assert Words.Pow2(8) == 256;
    assert Domain() == LowBits(0x1f, 8);
  }

  /** shake256(output, outlen, input, inlen) */
  method Shake256(output: array<Byte>, outlen: nat, m: seq<Byte>, f: State -> State)
    requires outlen <= output.Length
    modifies output
    ensures output[..outlen] == SpongeHash(f, RATE256, m, Domain(), outlen) && output[outlen..] == old(output[outlen..])
  {
    OneShot(output, outlen, m, f, RATE256, Domain());
  }

  function Sum(sizes: seq<nat>): (n: nat)
    ensures sizes == [] ==> n == 0
  {
    if sizes == [] then 0 else Sum(sizes[..|sizes| - 1]) + sizes[|sizes| - 1]
  }

  lemma {:induction false} SumGrows(sizes: seq<nat>, k: nat)
    requires k <= |sizes|
    ensures Sum(sizes[..k]) <= Sum(sizes)
    decreases |sizes|
  {
    if k == |sizes| {
      assert sizes[..k] == sizes;
    } else {
      SumGrows(sizes[..|sizes| - 1], k);
      assert sizes[..|sizes| - 1][..k] == sizes[..k];
    }
  }

  lemma SumStep(sizes: seq<nat>, k: nat)
    requires k < |sizes|
    ensures Sum(sizes[..k + 1]) == Sum(sizes[..k]) + sizes[k] <= Sum(sizes)
  {
    assert sizes[..k + 1][..k] == sizes[..k];
    SumGrows(sizes, k + 1);
  }

  /** Absorbing the message in any pieces and squeezing the output in any pieces gives the bytes of the
      one-shot hash of the whole message. */
  method InPieces(h: array<Byte>, pieces: seq<seq<Byte>>, sizes: seq<nat>, f: State -> State, r: nat, p: Byte)
    requires 0 < r <= 200 && !p[7] && Sum(sizes) <= h.Length
    modifies h
    ensures h[..Sum(sizes)] == SpongeHash(f, r, Concat(pieces), p, Sum(sizes)) && h[Sum(sizes)..] == old(h[Sum(sizes)..])
  {
    hide *;
    var c := new Context(f);
    var k := 0;
    ghost var m := [];
    ConcatNone<Byte>();
    SumNone();
    assert pieces[..0] == [] && sizes[..0] == [];
    while k < |pieces|
      invariant 0 <= k <= |pieces| && c.Taken(r, m) && m == Concat(pieces[..k])
      invariant fresh(c) && fresh(c.lanes) && c.f == f && h[..] == old(h[..])
    {
      c.Absorb(r, pieces[k], m);
      ConcatStep(pieces, k);
      m := m + pieces[k];
      k := k + 1;
    }
    assert pieces[..k] == pieces;
    c.Finalize(r, p, m);
    ghost var z := Finished(f, r, m, p);
    var j, n := 0, 0;
    FinishedOutput(f, r, m, p, 0);
    assert h[..0] == [];
    while j < |sizes|
      invariant 0 <= j <= |sizes| && n == Sum(sizes[..j]) && n <= h.Length && c.Given(r, z, n)
      invariant h[..n] == Ahead(f, r, z, 0, n) && h[n..] == old(h[n..])
      invariant fresh(c) && fresh(c.lanes) && c.f == f
    {
      ghost var g := h[..];
      SumStep(sizes, j);
      c.Squeeze(h, n, sizes[j], r, z, n);
      assert h[..n + sizes[j]] == h[..n] + h[n..n + sizes[j]];
      SameEnd(old(h[..]), g, n, n + sizes[j]);
      n := n + sizes[j];
      j := j + 1;
    }
    assert sizes[..j] == sizes;
    FinishedOutput(f, r, m, p, n);
  }

  lemma SumNone()
    ensures Sum([]) == 0
  {}
}
