/** The outermost call: it computes the control bits of a permutation and checks them by
    replaying the network. */
module ControlBitsCheck {
  import opened Words
  import opened CInt
  import opened SortNetwork
  import opened Permutations
  import opened BenesNetwork
  import opened ControlBitsCode
  import opened OutputBits
  import opened LayerBits
  import opened ControlBitsRecursion

  // ---------------------------------------------------------------- one layer, in place

  /** The positions that round j of block m of the layer of stride 2^s exchanges. */
  lemma {:induction false} PairPlace(s: nat, m: nat, b: nat, j: nat)
    requires j < Pow2(s) && b == Times(m, Pow2(s))
    ensures var x := 2 * b + j;
            var y := x + Pow2(s);
            && PairIndex(x, s) == b + j == PairIndex(y, s) && Partner(x, s) == y && Partner(y, s) == x
    decreases s
  {
    hide *;
    if s == 0 {
      FirstPlace(b, j);
    } else {
      var p := Pow2(s - 1);
      var c := Times(m, p);
      TimesFacts(m, p, p);
      Pow2Step(s);
      PairPlace(s - 1, m, c, j / 2);
      PairPlaceStep(s, p, c, j);
    }
  }

  lemma FirstPlace(b: nat, j: nat)
    ensures Pow2(0) == 1
    ensures j == 0 ==> PairIndex(2 * b + j, 0) == b + j == PairIndex(2 * b + j + 1, 0)
    ensures j == 0 ==> Partner(2 * b + j, 0) == 2 * b + j + 1 && Partner(2 * b + j + 1, 0) == 2 * b + j
  {}

  lemma Pow2Step(s: nat)
    requires s > 0
    ensures Pow2(s) == Pow2(s - 1) + Pow2(s - 1)
  {}

  lemma PairPlaceStep(s: nat, p: nat, c: nat, j: nat)
    requires s > 0 && j < 2 * p
    requires var x, y := 2 * c + j / 2, 2 * c + j / 2 + p;
             PairIndex(x, s - 1) == c + j / 2 == PairIndex(y, s - 1) && Partner(x, s - 1) == y && Partner(y, s - 1) == x
    ensures var x, y := 2 * (c + c) + j, 2 * (c + c) + j + (p + p);
            PairIndex(x, s) == c + c + j == PairIndex(y, s) && Partner(x, s) == y && Partner(y, s) == x
  {
    hide *;
    var x, y := 2 * (c + c) + j, 2 * (c + c) + j + (p + p);
    PairStep(x, s);
    PairStep(y, s);
    assert x / 2 == 2 * c + j / 2 && y / 2 == 2 * c + j / 2 + p && x % 2 == j % 2 == y % 2;
  }

  lemma PairStep(x: nat, s: nat)
    requires s > 0
    ensures PairIndex(x, s) == 2 * PairIndex(x / 2, s - 1) + x % 2
    ensures Partner(x, s) == 2 * Partner(x / 2, s - 1) + x % 2
  {}

  lemma {:induction false} SamePair(x: nat, y: nat, s: nat)
    requires PairIndex(x, s) == PairIndex(y, s)
    ensures y == x || y == Partner(x, s)
    decreases s
  {
    if s > 0 {
      var a, b := PairIndex(x / 2, s - 1), PairIndex(y / 2, s - 1);
      assert 2 * a + x % 2 == 2 * b + y % 2;
      SamePair(x / 2, y / 2, s - 1);
    }
  }

  /** The first `index` pairs of the layer have been treated. */
  ghost predicate LayerUpTo(now: seq<nat>, was: seq<nat>, bits: seq<nat>, s: nat, index: nat)
  {
    |now| == |was| && forall x :: 0 <= x < |now| ==> now[x] == if PairIndex(x, s) < index then LayerAt(was, bits, s, x) else was[x]
  }

  lemma LayerUpToStep(now: seq<nat>, was: seq<nat>, bits: seq<nat>, s: nat, index: nat, x: nat, y: nat)
    requires LayerUpTo(now, was, bits, s, index) && index < |bits| && x < |now| && y < |now| && x != y
    requires PairIndex(x, s) == index == PairIndex(y, s) && Partner(x, s) == y && Partner(y, s) == x
    ensures LayerUpTo(if bits[index] == 1 then now[x := now[y]][y := now[x]] else now, was, bits, s, index + 1)
  {
    var next := if bits[index] == 1 then now[x := now[y]][y := now[x]] else now;
    hide PairIndex, Partner;
    forall z | 0 <= z < |now|
      ensures next[z] == if PairIndex(z, s) < index + 1 then LayerAt(was, bits, s, z) else was[z]
    {
      if PairIndex(z, s) == index { SamePair(x, z, s); }
    }
  }

  lemma LayerUpToEnds(now: seq<nat>, was: seq<nat>, bits: seq<nat>, s: nat, w: nat)
    requires s < w && |was| == Pow2(w)
    ensures LayerUpTo(was, was, bits, s, 0)
    ensures LayerUpTo(now, was, bits, s, Pow2(w - 1)) ==> now == Layer<nat>(was, bits, s)
  {
    hide PairIndex, Partner, Pow2;
    forall x | 0 <= x < |was| ensures PairIndex(x, s) < Pow2(w - 1) { LayerRanges(w, x, s); }
  }

  /** The bits of one layer are those from byte ptr on. */
  ghost predicate BitsAt(cb: seq<nat>, ptr: nat, bits: seq<nat>)
  {
    forall i :: 0 <= i < |bits| ==> ptr + i / 8 < |cb| && BitOf(cb[ptr + i / 8], i % 8) == bits[i]
  }

  /** d = p[x]^p[y]; m = -bit; d &= m; p[x] ^= d; p[y] ^= d; */
  method ExchangeIf(p: array<nat>, x: nat, y: nat, bit: nat)
    requires x < p.Length && y < p.Length && x != y && p[x] < 0x1_0000 && p[y] < 0x1_0000 && bit < 2
    modifies p
    ensures p[..] == old(if bit == 1 then p[..][x := p[y]][y := p[x]] else p[..])
  {
    hide Pow2, And, Xor;
    Pow2Values();
    var d := Xor(16, p[x], p[y]);
    var m := -(bit as int) % 0x1_0000;
    MaskedExchange(16, p[x], p[y], m);
    MaskedExchange(16, p[y], p[x], m);
    d := And(16, m, d);
    p[x] := Xor(16, p[x], d);
    p[y] := Xor(16, p[y], d);
  }

  ghost predicate Short(p: seq<nat>)
  {
    forall x :: 0 <= x < |p| ==> p[x] < 0x8000
  }

  /** Round `index` of a layer. */
  method LayerRound(p: array<nat>, cb: array<nat>, ptr: nat, s: nat, x: nat, y: nat, index: nat, ghost bits: seq<nat>, ghost was: seq<nat>)
    requires LayerUpTo(p[..], was, bits, s, index) && Short(p[..]) && index < |bits| && BitsAt(cb[..], ptr, bits)
    requires x < p.Length && y < p.Length && x != y
    requires PairIndex(x, s) == index == PairIndex(y, s) && Partner(x, s) == y && Partner(y, s) == x && p as object != cb
    modifies p
    ensures LayerUpTo(p[..], was, bits, s, index + 1) && Short(p[..])
  {
    assert ptr + index / 8 < |cb[..]| && BitOf(cb[..][ptr + index / 8], index % 8) == bits[index];
    LayerUpToStep(p[..], was, bits, s, index, x, y);
    hide LayerUpTo, PairIndex, Partner, BitOf, BitsAt;
    ExchangeIf(p, x, y, BitOf(cb[ptr + index / 8], index % 8));
  }

  lemma BlockBounds(w: nat, s: nat, m: nat, stride: nat)
    requires s < w && stride == Pow2(s)
    ensures stride > 0 && Times(0, stride) == 0 && Times(m + 1, stride) == Times(m, stride) + stride
    ensures Times(Pow2(w - 1 - s), stride) == Pow2(w - 1) && Pow2(w) == 2 * Pow2(w - 1)
    ensures Times(m, stride) < Pow2(w - 1) ==> Times(m, stride) + stride <= Pow2(w - 1)
  {
    Pow2Add(w - 1 - s, s);
    Pow2Step(w);
    hide Pow2;
    assert Times(Pow2(w - 1 - s), stride) == Pow2(w - 1);
    BlockFits(m, Pow2(w - 1 - s), stride);
  }

  lemma BlockFits(m: nat, b: nat, stride: nat)
    ensures Times(0, stride) == 0 && Times(m + 1, stride) == Times(m, stride) + stride
    ensures Times(m, stride) < Times(b, stride) ==> Times(m, stride) + stride <= Times(b, stride)
  {
    hide *;
    TimesAdds(m, 1, stride);
    if m >= b { TimesAdds(b, m - b, stride); } else { TimesAdds(m + 1, b - m - 1, stride); }
  }

  lemma TimesAdds(a: nat, d: nat, stride: nat)
    ensures Times(a + d, stride) == Times(a, stride) + Times(d, stride)
    ensures Times(0, stride) == 0 && Times(1, stride) == stride
  {
    assert (a + d) * stride == a * stride + d * stride;
  }

  /** layer(p, cb + ptr, s, n) */
  method LayerPass(p: array<nat>, cb: array<nat>, ptr: nat, ghost w: nat, s: nat, n: nat, ghost bits: seq<nat>)
    requires s < w && n == Pow2(w) == p.Length && |bits| == Pow2(w - 1) && BitsAt(cb[..], ptr, bits) && Short(p[..])
    requires p as object != cb
    modifies p
    ensures p[..] == Layer<nat>(old(p[..]), bits, s) && Short(p[..])
  {
    hide *;
    ghost var was := p[..];
    var stride := Pow2(s);
    var i, index := 0, 0;
    ghost var m := 0;
    LayerUpToEnds(was, was, bits, s, w);
    BlockBounds(w, s, 0, stride);
    while i < n
      invariant i == 2 * index && index == Times(m, stride) <= |bits|
      invariant LayerUpTo(p[..], was, bits, s, index) && Short(p[..])
    {
      BlockBounds(w, s, m, stride);
      var j := 0;
      while j < stride
        invariant 0 <= j <= stride && index == Times(m, stride) + j
        invariant LayerUpTo(p[..], was, bits, s, index) && Short(p[..])
      {
        PairPlace(s, m, Times(m, stride), j);
        LayerRound(p, cb, ptr, s, i + j, i + j + stride, index, bits, was);
        index := index + 1;
        j := j + 1;
      }
      i := i + stride * 2;
      m := m + 1;
    }
    assert index == Pow2(w - 1);
    LayerUpToEnds(p[..], was, bits, s, w);
  }

  // ---------------------------------------------------------------- the layers in the output

  /** The first k runs of h bits. */
  function LayersIn(o: seq<nat>, h: nat, k: nat): (layers: seq<seq<nat>>)
    ensures |layers| == k
  {
    if k == 0 then [] else if |o| < h then seq(k, i => []) else [o[..h]] + LayersIn(o[h..], h, k - 1)
  }

  lemma {:induction false} LayersInFlat(layers: seq<seq<nat>>, rest: seq<nat>, h: nat)
    requires forall t :: 0 <= t < |layers| ==> |layers[t]| == h
    ensures LayersIn(Flat(layers) + rest, h, |layers|) == layers
    decreases |layers|
  {
    if |layers| > 0 {
      var o, tail := Flat(layers) + rest, Flat(layers[1..]) + rest;
      assert o == layers[0] + tail;
      assert o[..h] == layers[0] && o[h..] == tail;
      LayersInFlat(layers[1..], rest, h);
      assert layers == [layers[0]] + layers[1..];
    }
  }

  /** Where layer t starts. */
  lemma {:induction false} FlatAt(layers: seq<seq<nat>>, h: nat, t: nat)
    requires t < |layers| && forall i :: 0 <= i < |layers| ==> |layers[i]| == h
    ensures Times(h, t) + h <= |Flat(layers)| && Flat(layers)[Times(h, t)..][..h] == layers[t]
    decreases t
  {
    var o, tail := Flat(layers), Flat(layers[1..]);
    assert o == layers[0] + tail;
    assert Times(h, 0) == 0;
    if t > 0 {
      TimesFacts(h, 1, t - 1);
      FlatAt(layers[1..], h, t - 1);
      var i := Times(h, t - 1);
      hide Flat, Times;
      assert o[h + i..] == tail[i..];
    }
  }

  lemma {:induction false} AllBitsBinary(w: nat, perm: seq<nat>)
    requires w > 0 && PermOf(w, perm)
    ensures Binary(AllBits(w, perm))
    decreases w
  {
    if w == 1 {
      SingleBit(w, perm, [0], 0, 1);
      FlatSingle([perm[0]]);
    } else {
      AllBitsSplit(w, perm);
      AllBitsBinary(w - 1, SubPerm(perm, 0));
      AllBitsBinary(w - 1, SubPerm(perm, 1));
      assert Binary(FirstBits(perm)) && Binary(LastBits(perm));
    }
  }

  ghost predicate Binary(s: seq<nat>)
  {
    forall i :: 0 <= i < |s| ==> s[i] < 2
  }

  /** Exclusive or into zeros writes the bits. */
  lemma {:induction false} ToggleZeros(o: seq<nat>, cb: seq<nat>)
    requires Binary(cb) && |cb| <= |o| && forall i :: 0 <= i < |cb| ==> o[i] == 0
    ensures ToggleAll(o, 0, 1, cb) == cb + o[|cb|..]
    decreases |cb|
  {
    if |cb| > 0 {
      var k := |cb| - 1;
      ToggleZeros(o, cb[..k]);
      assert Times(1, k) == k;
    }
  }

  /** The output begins with the bits of the layers. */
  ghost predicate Holds(out: seq<nat>, layers: seq<seq<nat>>)
  {
    |Flat(layers)| <= 8 * |out| && Bits(out)[..|Flat(layers)|] == Flat(layers)
  }

  /** Layer t starts at byte t*(n>>4). */
  lemma LayerBytes(out: seq<nat>, layers: seq<seq<nat>>, h: nat, e: nat, t: nat)
    requires Holds(out, layers) && h == 8 * e && t < |layers| && forall i :: 0 <= i < |layers| ==> |layers[i]| == h
    ensures BitsAt(out, Times(e, t), layers[t])
  {
    FlatAt(layers, h, t);
    var f, ptr, b := Flat(layers), Times(e, t), layers[t];
    assert Times(h, t) == 8 * ptr;
    hide Flat, Times, BitOf;
    forall i | 0 <= i < |b| ensures ptr + i / 8 < |out| && BitOf(out[ptr + i / 8], i % 8) == b[i] {
      assert b[i] == f[8 * ptr..][..h][i] == f[8 * ptr + i] == Bits(out)[8 * ptr + i];
      assert (8 * ptr + i) / 8 == ptr + i / 8 && (8 * ptr + i) % 8 == i % 8;
    }
  }

  lemma Sixteenths(w: nat)
    requires w >= 4
    ensures Pow2(w - 1) == 8 * (Pow2(w) / 16) && Pow2(w) == 16 * (Pow2(w) / 16)
  {
    hide *;
    Pow2Step(w);
    Pow2Step(w - 1);
    Pow2Step(w - 2);
    Pow2Step(w - 3);
  }

  lemma AllFit(w: nat, layers: seq<seq<nat>>)
    requires LayersFit(w, layers)
    ensures |layers| == 2 * w - 1 && forall t :: 0 <= t < |layers| ==> |layers[t]| == Pow2(w - 1)
  {}

  /** layer(pi_test, ptr, i, n); ptr += n >> 4; */
  method ReplayLayer(p: array<nat>, out: array<nat>, ptr: nat, ghost w: nat, s: nat, n: nat, ghost layers: seq<seq<nat>>, ghost t: nat)
      returns (next: nat)
    requires 4 <= w && n == Pow2(w) == p.Length && p as object != out && LayersFit(w, layers) && Holds(out[..], layers)
    requires t < 2 * w - 1 && s == Stride(w, t) && ptr == Times(n / 16, t)
    requires p[..] == Run<nat>(w, Identity(n), layers, t) && Short(p[..])
    modifies p
    ensures p[..] == Run<nat>(w, Identity(n), layers, t + 1) && Short(p[..]) && next == Times(n / 16, t + 1)
  {
    hide *;
    var e := n / 16;
    Sixteenths(w);
    AllFit(w, layers);
    LayerBytes(out[..], layers, Pow2(w - 1), e, t);
    TimesFacts(e, t, 1);
    RunStep<nat>(w, Identity(n), layers, t);
    LayerPass(p, out, ptr, w, s, n, layers[t]);
    next := ptr + e;
  }

  /** The two loops over the layers. */
  method Replay(p: array<nat>, out: array<nat>, w: nat, n: nat, ghost layers: seq<seq<nat>>)
    requires 4 <= w && n == Pow2(w) == p.Length && p as object != out && LayersFit(w, layers) && Holds(out[..], layers)
    requires p[..] == Identity(n) && Short(p[..])
    modifies p
    ensures p[..] == Network<nat>(w, Identity(n), layers)
  {
    hide *;
    AllFit(w, layers);
    TimesFacts(n / 16, 0, 0);
    RunStep<nat>(w, Identity(n), layers, 0);
    StrideIs(w);
    var ptr, i := 0, 0;
    while i < w
      invariant 0 <= i <= w && ptr == Times(n / 16, i)
      invariant p[..] == Run<nat>(w, Identity(n), layers, i) && Short(p[..])
    {
      ptr := ReplayLayer(p, out, ptr, w, i, n, layers, i);
      i := i + 1;
    }
    i := w - 2;
    assert w == 2 * w - 2 - i;
    while i >= 0
      invariant -1 <= i <= w - 2 && ptr == Times(n / 16, 2 * w - 2 - i)
      invariant p[..] == Run<nat>(w, Identity(n), layers, 2 * w - 2 - i) && Short(p[..])
    {
      ptr := ReplayLayer(p, out, ptr, w, i, n, layers, 2 * w - 2 - i);
      i := i - 1;
    }
    assert 2 * w - 2 - i == 2 * w - 1;
    NetworkIs(w, n, layers);
  }

  lemma StrideIs(w: nat)
    ensures forall t :: 0 <= t < w ==> t <= 2 * w - 2 && Stride(w, t) == t
    ensures forall t :: w <= t <= 2 * w - 2 ==> Stride(w, t) == 2 * w - 2 - t
  {}

  lemma NetworkIs(w: nat, n: nat, layers: seq<seq<nat>>)
    requires |layers| == 2 * w - 1
    ensures Run<nat>(w, Identity(n), layers, 2 * w - 1) == Network<nat>(w, Identity(n), layers)
  {}

  // ---------------------------------------------------------------- the outermost call

  /** The bytes that memset clears: all those of the control bits and no others. */
  lemma ByteCount(w: nat, n: nat)
    requires 4 <= w && n == Pow2(w)
    ensures (2 * w - 1) * n / 2 == Count(w) && ((2 * w - 1) * n / 2 + 7) / 8 * 8 == Count(w)
  {
    CountIs(w);
    Sixteenths(w);
    hide Pow2;
    var h := Pow2(w - 1);
    assert n == 2 * h;
    EighthsOfCount(2 * w - 1, n, h, Count(w), n / 16);
  }

  lemma EighthsOfCount(m: nat, n: nat, h: nat, c: nat, e: nat)
    requires n == 2 * h && h == 8 * e && c == m * h
    ensures m * n / 2 == c && (m * n / 2 + 7) / 8 * 8 == c
  {
    assert m * n == 2 * c;
    assert c == 8 * (m * e);
  }

  lemma {:induction false} ZeroBit(k: nat)
    ensures BitOf(0, k) == 0
  {
    if k > 0 { ZeroBit(k - 1); }
  }

  /** memset(out,0,bytes) */
  method Clear(out: array<nat>, bytes: nat)
    requires bytes <= out.Length
    modifies out
    ensures |Bits(out[..])| == 8 * out.Length
    ensures forall i :: 0 <= i < 8 * bytes ==> Bits(out[..])[i] == 0
    ensures Bits(out[..])[8 * bytes..] == old(Bits(out[..]))[8 * bytes..]
  {
    ghost var was := out[..];
    var i := 0;
    while i < bytes
      invariant 0 <= i <= bytes
      invariant forall k :: 0 <= k < i ==> out[k] == 0
      invariant forall k :: i <= k < out.Length ==> out[k] == was[k]
    {
      out[i] := 0;
      i := i + 1;
    }
    forall i | 0 <= i < 8 * bytes ensures Bits(out[..])[i] == 0 { ZeroBit(i % 8); }
  }

  lemma {:induction false} OrIsZero(w: nat, a: nat, b: nat)
    requires a < Pow2(w) && b < Pow2(w)
    ensures Or(w, a, b) == 0 <==> a == 0 && b == 0
    ensures Or(w, a, b) < Pow2(w)
  {
    if w > 0 { OrIsZero(w - 1, a / 2, b / 2); }
  }

  lemma {:induction false} XorIsZero(w: nat, a: nat, b: nat)
    requires a < Pow2(w) && b < Pow2(w)
    ensures Xor(w, a, b) == 0 <==> a == b
  {
    if w > 0 {
      XorIsZero(w - 1, a / 2, b / 2);
      assert a == b <==> a / 2 == b / 2 && a % 2 == b % 2;
    }
  }

  /** for (i = 0; i < n; i++) diff |= pi[i] ^ pi_test[i]; */
  method Differences(pi: array<int>, p: array<nat>, n: nat, ghost perm: seq<nat>) returns (diff: nat)
    requires p.Length == n && Shorts(pi, 0).Shows(perm) && |perm| == n && Short(perm) && Short(p[..])
    ensures diff == 0 <==> p[..] == perm
  {
    hide Pow2, Or, Xor;
    Pow2Values();
    diff := 0;
    var i := 0;
    while i < n
      invariant 0 <= i <= n && diff < 0x1_0000
      invariant diff == 0 <==> p[..i] == perm[..i]
    {
      assert Shorts(pi, 0).Read(pi[..], i) == perm[i] && p[i] == p[..][i] < 0x8000;
      XorBounds(16, perm[i], p[i]);
      XorIsZero(16, perm[i], p[i]);
      OrIsZero(16, diff, Xor(16, perm[i], p[i]));
      diff := Or(16, diff, Xor(16, Pattern(16, pi[i]), p[i]));
      assert p[..i + 1] == p[..i] + [p[i]] && perm[..i + 1] == perm[..i] + [perm[i]];
      i := i + 1;
    }
    assert p[..n] == p[..] && perm[..n] == perm;
  }

  /** for (i = 0; i < n; i++) pi_test[i] = i; */
  method LoadIdentity(p: array<nat>, n: nat)
    requires p.Length == n <= 0x8000
    modifies p
    ensures p[..] == Identity(n) && Short(p[..])
  {
    var i := 0;
    while i < n
      invariant 0 <= i <= n && forall k :: 0 <= k < i ==> p[k] == k
    {
      p[i] := i;
      i := i + 1;
    }
  }

  /** The output holds the bits of pi, and nothing behind them has changed. */
  ghost predicate BitsWritten(was: seq<nat>, out: seq<nat>, w: nat, perm: seq<nat>)
  {
    w > 0 && PermOf(w, perm) && Count(w) <= |was| && Bits(out) == AllBits(w, perm) + was[Count(w)..]
  }

  /** One pass of the loop: it finds no difference. */
  method Pass(out: array<nat>, pi: array<int>, w: nat, n: nat, temp: array<int>, test: array<nat>, ghost perm: seq<nat>)
      returns (diff: nat)
    requires 4 <= w <= 14 && n == Pow2(w) == test.Length && PermOf(w, perm) && Shorts(pi, 0).Shows(perm)
    requires temp.Length == 2 * n && ((2 * w - 1) * n / 2 + 7) / 8 <= out.Length
    requires temp as object != out && pi as object != out && pi != temp && test as object != pi && test as object != temp && test as object != out
    modifies out, temp, test
    ensures diff == 0 && BitsWritten(old(Bits(out[..])), out[..], w, perm)
  {
    hide *;
    ghost var o, c := Bits(out[..]), Count(w);
    ByteCount(w, n);
    var bytes := ((2 * w - 1) * n / 2 + 7) / 8;
    Clear(out, bytes);
    ghost var z := Bits(out[..]);
    RoomForAll(out[..], c);
    ApartFrom(Shorts(pi, 0), temp, 2 * n);
    CbRecursion(out, 0, 1, Shorts(pi, 0), w, n, temp, perm);
    WrittenIs(o, z, out[..], w, perm);
    ghost var layers := ControlBits(w, perm);
    HoldsLayers(o, out[..], w, perm);
    ShortPerm(w, perm);
    LoadIdentity(test, n);
    Replay(test, out, w, n, layers);
    NetworkRealizes(w, perm);
    ShortEqual(test[..], perm);
    diff := Differences(pi, test, n, perm);
  }

  lemma ShortEqual(p: seq<nat>, perm: seq<nat>)
    requires p == perm && Short(perm)
    ensures Short(p)
  {}

  lemma ApartFrom(view: View, temp: array<int>, m: nat)
    requires view.cells != temp
    ensures view.Apart(temp, m)
  {}

  lemma RoomForAll(out: seq<nat>, c: nat)
    requires c <= 8 * |out|
    ensures Room(out, 0, 1, c)
  {}

  lemma WrittenIs(o: seq<nat>, z: seq<nat>, out: seq<nat>, w: nat, perm: seq<nat>)
    requires w > 0 && PermOf(w, perm) && Count(w) <= |o| == |z| && z[Count(w)..] == o[Count(w)..]
    requires forall i :: 0 <= i < Count(w) ==> z[i] == 0
    requires Bits(out) == ToggleAll(z, 0, 1, AllBits(w, perm))
    ensures BitsWritten(o, out, w, perm)
  {
    AllBitsCount(w, perm);
    AllBitsBinary(w, perm);
    ToggleZeros(z, AllBits(w, perm));
  }

  lemma HoldsLayers(o: seq<nat>, out: seq<nat>, w: nat, perm: seq<nat>)
    requires w > 0 && PermOf(w, perm) && BitsWritten(o, out, w, perm)
    ensures Holds(out, ControlBits(w, perm))
  {
    AllBitsCount(w, perm);
  }

  lemma ShortPerm(w: nat, perm: seq<nat>)
    requires w <= 14 && PermOf(w, perm)
    ensures Short(perm) && |perm| == Pow2(w) <= 0x8000
  {
    Pow2Monotone(w, 14);
    hide Pow2;
    Sizes();
  }

  /** The network with the bits read back from the output realizes the permutation. */
  lemma WrittenRealizes(was: seq<nat>, out: seq<nat>, w: nat, perm: seq<nat>)
    requires BitsWritten(was, out, w, perm)
    ensures var layers := LayersIn(Bits(out), Pow2(w - 1), 2 * w - 1);
            LayersFit(w, layers) && Network<nat>(w, Identity(Pow2(w)), layers) == perm
  {
    var layers := ControlBits(w, perm);
    AllFit(w, layers);
    LayersInFlat(layers, was[Count(w)..], Pow2(w - 1));
    NetworkRealizes(w, perm);
  }

  /** controlbitsfrompermutation: whatever the permutation, the first pass ends the loop, and the
      bits in the output drive the network from the identity to the permutation. */
  method ControlBitsFromPermutation(out: array<nat>, pi: array<int>, w: nat, n: nat, ghost perm: seq<nat>)
      returns (ghost passes: nat)
    requires 4 <= w <= 14 && n == Pow2(w) && PermOf(w, perm) && Shorts(pi, 0).Shows(perm)
    requires ((2 * w - 1) * n / 2 + 7) / 8 <= out.Length && pi as object != out
    modifies out
    ensures Count(w) <= 8 * out.Length && passes == 1
    ensures var layers := LayersIn(Bits(out[..]), Pow2(w - 1), 2 * w - 1);
            LayersFit(w, layers) && Network<nat>(w, Identity(n), layers) == perm
    ensures Bits(out[..])[Count(w)..] == old(Bits(out[..]))[Count(w)..]
  {
    hide *;
    ghost var o := Bits(out[..]);
    var temp, test := new int[2 * n], new nat[n];
    var again := true;
    passes := 0;
    while again
      invariant if again then passes == 0 && out[..] == old(out[..]) else passes == 1 && BitsWritten(o, out[..], w, perm)
      invariant Shorts(pi, 0).Shows(perm)
      decreases again
    {
      var diff := Pass(out, pi, w, n, temp, test, perm);
      passes := passes + 1;
      again := diff != 0;
    }
    WrittenRealizes(o, out[..], w, perm);
    WrittenKeeps(o, out[..], w, perm);
  }

  lemma WrittenKeeps(was: seq<nat>, out: seq<nat>, w: nat, perm: seq<nat>)
    requires BitsWritten(was, out, w, perm)
    ensures Count(w) <= |was| && |Bits(out)| == |was| && Bits(out)[Count(w)..] == was[Count(w)..]
  {
    AllBitsCount(w, perm);
  }
}
