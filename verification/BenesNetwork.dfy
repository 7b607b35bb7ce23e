/** The Benes network as layers of conditional exchanges, and the control bits that make it
    realize a given permutation. */
module BenesNetwork {
  import opened Words
  import opened Permutations
  import opened Cycles

  // ---------------------------------------------------------------- layers

  /** The other end of the exchange at position x in the layer of stride 2^s: x ^ 2^s. */
  function Partner(x: nat, s: nat): (y: nat)
  {
    if s == 0 then Flip(x) else 2 * Partner(x / 2, s - 1) + x % 2
  }

  /** The number of the exchange at position x: x with bit s left out. */
  function PairIndex(x: nat, s: nat): (i: nat)
  {
    if s == 0 then x / 2 else 2 * PairIndex(x / 2, s - 1) + x % 2
  }

  lemma {:induction false} LayerRanges(w: nat, x: nat, s: nat)
    requires s < w && x < Pow2(w)
    ensures Partner(x, s) < Pow2(w) && PairIndex(x, s) < Pow2(w - 1)
    ensures Partner(Partner(x, s), s) == x && PairIndex(Partner(x, s), s) == PairIndex(x, s)
  {
    assert Pow2(w) == 2 * Pow2(w - 1);
    if s == 0 {
      FlipInRange(x, Pow2(w));
    } else {
      LayerRanges(w - 1, x / 2, s - 1);
      var y := 2 * Partner(x / 2, s - 1) + x % 2;
      assert Partner(x, s) == y && y / 2 == Partner(x / 2, s - 1) && y % 2 == x % 2;
    }
  }

  /** One layer: exchange the two ends of every pair whose bit is one. On 2^w elements both the
      pair number and the partner are always in range (LayerRanges). */
  function Layer<T>(p: seq<T>, bits: seq<nat>, s: nat): (r: seq<T>)
    ensures |r| == |p|
  {
    seq(|p|, x requires 0 <= x < |p| => LayerAt(p, bits, s, x))
  }

  function LayerAt<T>(p: seq<T>, bits: seq<nat>, s: nat, x: nat): (r: T)
    requires x < |p|
  {
    if PairIndex(x, s) < |bits| && Partner(x, s) < |p| && bits[PairIndex(x, s)] == 1 then p[Partner(x, s)] else p[x]
  }

  /** The strides go 1, 2, 4, ..., n/2 and back to 1. */
  function Stride(w: nat, t: nat): (s: nat)
    requires t <= 2 * w - 2
    ensures s < w
  {
    if t < w then t else 2 * w - 2 - t
  }

  ghost predicate LayersFit(w: nat, layers: seq<seq<nat>>)
  {
    w > 0 && |layers| == 2 * w - 1 && forall t :: 0 <= t < |layers| ==> |layers[t]| == Pow2(w - 1)
  }

  /** The first t layers of the network. */
  function Run<T>(w: nat, p: seq<T>, layers: seq<seq<nat>>, t: nat): (r: seq<T>)
    requires |layers| == 2 * w - 1 && t <= |layers|
    ensures |r| == |p|
    decreases t
  {
    if t == 0 then p else Layer(Run(w, p, layers, t - 1), layers[t - 1], Stride(w, t - 1))
  }

  function Network<T>(w: nat, p: seq<T>, layers: seq<seq<nat>>): (r: seq<T>)
    requires |layers| == 2 * w - 1
    ensures |r| == |p|
  {
    Run(w, p, layers, 2 * w - 1)
  }

  // ---------------------------------------------------------------- even and odd positions

  function Half<T>(p: seq<T>, b: nat): (r: seq<T>)
    requires b < 2 && |p| % 2 == 0
    ensures |r| == |p| / 2
  {
    seq(|p| / 2, k requires 0 <= k < |p| / 2 => p[2 * k + b])
  }

  function Interleave<T>(a: seq<T>, b: seq<T>): (r: seq<T>)
    requires |a| == |b|
    ensures |r| == 2 * |a|
  {
    seq(2 * |a|, x requires 0 <= x < 2 * |a| => if x % 2 == 0 then a[x / 2] else b[x / 2])
  }

  function InterleaveLayers(a: seq<seq<nat>>, b: seq<seq<nat>>): (r: seq<seq<nat>>)
    requires |a| == |b| && forall t :: 0 <= t < |a| ==> |a[t]| == |b[t]|
    ensures |r| == |a|
  {
    seq(|a|, t requires 0 <= t < |a| => Interleave(a[t], b[t]))
  }

  /** A layer of stride at least 2 works on even and odd positions separately. */
  lemma LayerSplits<T>(p: seq<T>, a: seq<nat>, b: seq<nat>, s: nat)
    requires |p| % 2 == 0 && |a| == |b|
    ensures Layer(p, Interleave(a, b), s + 1) == Interleave(Layer(Half(p, 0), a, s), Layer(Half(p, 1), b, s))
  {
    forall x | 0 <= x < |p|
      ensures LayerAt(p, Interleave(a, b), s + 1, x)
           == LayerAt(Half(p, x % 2), if x % 2 == 0 then a else b, s, x / 2)
    {
      LayerSplitsAt(p, a, b, s, x);
    }
  }

  lemma LayerSplitsAt<T>(p: seq<T>, a: seq<nat>, b: seq<nat>, s: nat, x: nat)
    requires |p| % 2 == 0 && |a| == |b| && x < |p|
    ensures LayerAt(p, Interleave(a, b), s + 1, x) == LayerAt(Half(p, x % 2), if x % 2 == 0 then a else b, s, x / 2)
  {
    var i, y := PairIndex(x / 2, s), Partner(x / 2, s);
    assert PairIndex(x, s + 1) == 2 * i + x % 2 && Partner(x, s + 1) == 2 * y + x % 2;
  }

  lemma HalvesInterleave<T>(a: seq<T>, b: seq<T>)
    requires |a| == |b|
    ensures Half(Interleave(a, b), 0) == a && Half(Interleave(a, b), 1) == b
  {}

  lemma InterleaveHalves<T>(p: seq<T>)
    requires |p| % 2 == 0
    ensures Interleave(Half(p, 0), Half(p, 1)) == p
  {}

  // ---------------------------------------------------------------- control bits

  ghost predicate PermOf(w: nat, pi: seq<nat>)
  {
    IsPerm(pi) && |pi| == Pow2(w)
  }

  lemma PermOfEven(w: nat, pi: seq<nat>)
    requires w > 0 && PermOf(w, pi)
    ensures EvenPerm(pi) && |pi| == Pow2(w) == 2 * Pow2(w - 1) && IsPerm(Pibar(pi))
  {
    PibarPerm(pi);
  }

  /** The least element of every cycle of pibar. */
  ghost function CycleMins(pi: seq<nat>): (c: seq<nat>)
    requires EvenPerm(pi)
    ensures |c| == |pi|
  {
    PibarPerm(pi);
    seq(|pi|, x requires 0 <= x < |pi| => OrbitMin(Pibar(pi), x, |pi| / 2))
  }

  /** The exchanges (2j, 2j + 1) with bit one. */
  function Switches(bits: seq<nat>): (f: seq<nat>)
    ensures |f| == 2 * |bits|
  {
    seq(2 * |bits|, x requires 0 <= x < 2 * |bits| => if bits[x / 2] == 1 then Flip(x) else x)
  }

  ghost function FirstBits(pi: seq<nat>): (f: seq<nat>)
    requires EvenPerm(pi)
    ensures |f| == |pi| / 2
  {
    seq(|pi| / 2, j requires 0 <= j < |pi| / 2 => CycleMins(pi)[2 * j] % 2)
  }

  /** F(pi) */
  ghost function Switched(pi: seq<nat>): (g: seq<nat>)
    requires EvenPerm(pi)
    ensures |g| == |pi|
  {
    Compose(Switches(FirstBits(pi)), pi)
  }

  ghost function LastBits(pi: seq<nat>): (l: seq<nat>)
    requires EvenPerm(pi)
    ensures |l| == |pi| / 2
  {
    seq(|pi| / 2, k requires 0 <= k < |pi| / 2 => Switched(pi)[2 * k] % 2)
  }

  lemma SwitchesInvolution(bits: seq<nat>)
    ensures IsPerm(Switches(bits))
    ensures forall x :: 0 <= x < 2 * |bits| ==> Switches(bits)[Switches(bits)[x]] == x
  {
    var f := Switches(bits);
    forall x | 0 <= x < |f| ensures f[x] < |f| && f[f[x]] == x {
      FlipInRange(x, |f|);
    }
    assert forall x, y :: 0 <= x < |f| && 0 <= y < |f| && f[x] == f[y] ==> f[f[x]] == f[f[y]];
  }

  /** M = F(pi(L)) */
  ghost function Middle(pi: seq<nat>): (m: seq<nat>)
    requires EvenPerm(pi)
    ensures |m| == |pi|
  {
    SwitchesInvolution(LastBits(pi));
    Compose(Switched(pi), Switches(LastBits(pi)))
  }

  /** The parity of F(x) is that of the least element of the cycle of x. */
  lemma SwitchParity(pi: seq<nat>, x: nat)
    requires EvenPerm(pi) && x < |pi|
    ensures Switches(FirstBits(pi))[x] % 2 == CycleMins(pi)[x] % 2
  {
    var c, f, k := CycleMins(pi), FirstBits(pi), x / 2;
    var y := 2 * k;
    assert f[k] == c[y] % 2;
    EvenSwitch(f, x);
    PairStart(x);
    MinsPair(pi, y);
    FlipParity(c[y]);
  }

  lemma PairStart(x: nat)
    ensures x == if x % 2 == 0 then 2 * (x / 2) else Flip(2 * (x / 2))
  {}

  lemma EvenSwitch(f: seq<nat>, x: nat)
    requires x < 2 * |f| && f[x / 2] < 2
    ensures Switches(f)[x] % 2 == if x % 2 == 0 then f[x / 2] else 1 - f[x / 2]
  {}

  lemma FlipParity(x: nat)
    ensures Flip(x) % 2 == 1 - x % 2
  {}

  lemma MinsPair(pi: seq<nat>, x: nat)
    requires EvenPerm(pi) && x < |pi|
    ensures Flip(x) < |pi| && CycleMins(pi)[Flip(x)] == Flip(CycleMins(pi)[x])
  {
    PibarPerm(pi);
    FlipInRange(x, |pi|);
    HalfOrbitSuffices(pi, x);
    HalfOrbitSuffices(pi, Flip(x));
    PartnerMin(pi, x, CycleMins(pi)[x]);
    CycleMinUnique(Pibar(pi), Flip(x), CycleMins(pi)[Flip(x)], Flip(CycleMins(pi)[x]));
  }

  /** F(pi(x)) and F(pi(x ^ 1)) have different parities. */
  lemma SwitchedParities(pi: seq<nat>, x: nat)
    requires EvenPerm(pi) && x < |pi|
    ensures Flip(x) < |pi| && Switched(pi)[Flip(x)] % 2 != Switched(pi)[x] % 2
  {
    FlipInRange(x, |pi|);
    var y, z, c := pi[x], pi[Flip(x)], CycleMins(pi);
    var f, g := Switches(FirstBits(pi)), Switched(pi);
    assert g[x] == f[y] && g[Flip(x)] == f[z] && y < |pi| && z < |pi|;
    PibarPerm(pi);
    FlipInRange(y, |pi|);
    hide *;
    SwitchParity(pi, y);
    SwitchParity(pi, z);
    MinsPair(pi, y);
    // z is the next element after the partner of y
    PibarOfPartner(pi, x);
    SameMinNext(pi, Flip(y));
    FlipParity(c[y]);
  }

  lemma SameMinNext(pi: seq<nat>, x: nat)
    requires EvenPerm(pi) && x < |pi| && IsPerm(Pibar(pi))
    ensures CycleMins(pi)[Pibar(pi)[x]] == CycleMins(pi)[x]
  {
    var p := Pibar(pi);
    var d := ShortPeriod(pi, x);
    HalfOrbitSuffices(pi, x);
    HalfOrbitSuffices(pi, p[x]);
    CycleMinSteps(p, x, d, CycleMins(pi)[x]);
    CycleMinUnique(p, p[x], CycleMins(pi)[p[x]], CycleMins(pi)[x]);
  }

  /** The middle permutation keeps parities. */
  lemma MiddleParity(pi: seq<nat>, y: nat)
    requires EvenPerm(pi) && y < |pi|
    ensures Middle(pi)[y] % 2 == y % 2
  {
    var g, l := Switched(pi), LastBits(pi);
    var k := y / 2;
    FlipInRange(y, |pi|);
    SwitchedParities(pi, 2 * k);
    assert l[k] == g[2 * k] % 2;
  }

  lemma MiddlePerm(pi: seq<nat>)
    requires EvenPerm(pi)
    ensures IsPerm(Middle(pi))
  {
    SwitchesInvolution(FirstBits(pi));
    SwitchesInvolution(LastBits(pi));
    ComposePerm(Switches(FirstBits(pi)), pi);
    ComposePerm(Switched(pi), Switches(LastBits(pi)));
  }

  /** The permutation of the even (b = 0) or odd (b = 1) positions inside the middle one. */
  ghost function SubPerm(pi: seq<nat>, b: nat): (q: seq<nat>)
    requires EvenPerm(pi) && b < 2
    ensures |q| == |pi| / 2
  {
    seq(|pi| / 2, j requires 0 <= j < |pi| / 2 => Middle(pi)[2 * j + b] / 2)
  }

  lemma SubPermPerm(w: nat, pi: seq<nat>, b: nat)
    requires w > 0 && PermOf(w, pi) && b < 2
    ensures EvenPerm(pi) && PermOf(w - 1, SubPerm(pi, b))
    ensures forall j :: 0 <= j < |pi| / 2 ==> Middle(pi)[2 * j + b] == 2 * SubPerm(pi, b)[j] + b
  {
    PermOfEven(w, pi);
    MiddlePerm(pi);
    SubPermParity(pi, b);
    hide Middle, SubPerm, IsPerm;
    HalvedPerm(Middle(pi), SubPerm(pi, b), b);
  }

  lemma SubPermParity(pi: seq<nat>, b: nat)
    requires EvenPerm(pi) && b < 2
    ensures forall j :: 0 <= j < |pi| / 2 ==> Middle(pi)[2 * j + b] == 2 * SubPerm(pi, b)[j] + b
  {
    hide *;
    forall j | 0 <= j < |pi| / 2 ensures Middle(pi)[2 * j + b] == 2 * SubPerm(pi, b)[j] + b {
      SubPermAt(pi, b, j);
    }
  }

  lemma SubPermAt(pi: seq<nat>, b: nat, j: nat)
    requires EvenPerm(pi) && b < 2 && j < |pi| / 2
    ensures Middle(pi)[2 * j + b] == 2 * SubPerm(pi, b)[j] + b
  {
    hide *;
    var i := 2 * j + b;
    assert i % 2 == b;
    MiddleParity(pi, i);
    SubPermIs(pi, b, j);
  }

  lemma SubPermIs(pi: seq<nat>, b: nat, j: nat)
    requires EvenPerm(pi) && b < 2 && j < |pi| / 2
    ensures SubPerm(pi, b)[j] == Middle(pi)[2 * j + b] / 2
  {}

  lemma HalvedPerm(m: seq<nat>, q: seq<nat>, b: nat)
    requires IsPerm(m) && |m| == 2 * |q| && b < 2
    requires forall j :: 0 <= j < |q| ==> m[2 * j + b] == 2 * q[j] + b
    ensures IsPerm(q)
  {
    forall i, j | 0 <= i < |q| && 0 <= j < |q| && q[i] == q[j] ensures i == j {
      assert m[2 * i + b] == m[2 * j + b];
    }
  }

  /** The control bits of pi, layer by layer. */
  ghost function ControlBits(w: nat, pi: seq<nat>): (layers: seq<seq<nat>>)
    requires w > 0 && PermOf(w, pi)
    ensures LayersFit(w, layers)
    decreases w
  {
    if w == 1 then
      [[pi[0]]]
    else
      SubPermPerm(w, pi, 0);
      SubPermPerm(w, pi, 1);
      var a, b := ControlBits(w - 1, SubPerm(pi, 0)), ControlBits(w - 1, SubPerm(pi, 1));
      [FirstBits(pi)] + InterleaveLayers(a, b) + [LastBits(pi)]
  }

  // ---------------------------------------------------------------- the network realizes pi

  /** Where the run takes its elements from. */
  function Source(w: nat, layers: seq<seq<nat>>, t: nat): (r: seq<nat>)
    requires |layers| == 2 * w - 1 && t <= |layers|
    ensures |r| == Pow2(w)
  {
    Run<nat>(w, Identity(Pow2(w)), layers, t)
  }

  /** A run only moves elements around, so it commutes with relabelling them. */
  lemma {:induction false} RunNatural<T>(w: nat, p: seq<T>, layers: seq<seq<nat>>, t: nat)
    requires |layers| == 2 * w - 1 && |p| == Pow2(w) && t <= |layers|
    ensures forall x :: 0 <= x < |p| ==> Source(w, layers, t)[x] < |p|
    ensures forall x :: 0 <= x < |p| ==> Run(w, p, layers, t)[x] == p[Source(w, layers, t)[x]]
    decreases t
  {
    if t == 0 {
      assert Source(w, layers, 0) == Identity(Pow2(w));
    } else {
      RunNatural(w, p, layers, t - 1);
      var i, q := Source(w, layers, t - 1), Run(w, p, layers, t - 1);
      var bits, s := layers[t - 1], Stride(w, t - 1);
      assert Source(w, layers, t) == Layer<nat>(i, bits, s) && Run(w, p, layers, t) == Layer(q, bits, s);
      assert forall x :: 0 <= x < |p| ==>
        Layer<nat>(i, bits, s)[x] < |p| && Layer(q, bits, s)[x] == p[Layer<nat>(i, bits, s)[x]];
    }
  }

  /** The layers between the first and the last interleave those of two half-size networks. */
  ghost predicate Nested(w: nat, layers: seq<seq<nat>>, a: seq<seq<nat>>, b: seq<seq<nat>>)
  {
    && w > 0 && |a| == |b| == 2 * w - 1 && |layers| == 2 * w + 1
    && forall i :: 0 <= i < |a| ==> |a[i]| == |b[i]| && layers[i + 1] == Interleave(a[i], b[i])
  }

  lemma NestedAt(w: nat, layers: seq<seq<nat>>, a: seq<seq<nat>>, b: seq<seq<nat>>, i: nat)
    requires Nested(w, layers, a, b) && i < 2 * w - 1
    ensures |a| == |b| == 2 * w - 1 && |layers| == 2 * w + 1 && |a[i]| == |b[i]|
    ensures layers[i + 1] == Interleave(a[i], b[i]) && Stride(w + 1, i + 1) == Stride(w, i) + 1
  {}

  lemma RunStep<T>(w: nat, p: seq<T>, layers: seq<seq<nat>>, t: nat)
    requires |layers| == 2 * w - 1 && t < |layers|
    ensures Run(w, p, layers, 0) == p
    ensures Run(w, p, layers, t + 1) == Layer(Run(w, p, layers, t), layers[t], Stride(w, t))
  {}

  /** The two half-size networks side by side, after t layers. */
  function SideBySide<T>(w: nat, q: seq<T>, a: seq<seq<nat>>, b: seq<seq<nat>>, t: nat): (r: seq<T>)
    requires |a| == |b| == 2 * w - 1 && t <= 2 * w - 1 && |q| % 2 == 0
    ensures |r| == |q|
  {
    Interleave(Run(w, Half(q, 0), a, t), Run(w, Half(q, 1), b, t))
  }

  lemma SideBySideStart<T>(w: nat, q: seq<T>, a: seq<seq<nat>>, b: seq<seq<nat>>)
    requires w > 0 && |a| == |b| == 2 * w - 1 && |q| % 2 == 0
    ensures SideBySide(w, q, a, b, 0) == q
  {
    RunStep(w, Half(q, 0), a, 0);
    RunStep(w, Half(q, 1), b, 0);
    InterleaveHalves(q);
  }

  lemma SideBySideStep<T>(w: nat, q: seq<T>, a: seq<seq<nat>>, b: seq<seq<nat>>, t: nat)
    requires |a| == |b| == 2 * w - 1 && t < 2 * w - 1 && |q| % 2 == 0 && |a[t]| == |b[t]|
    ensures SideBySide(w, q, a, b, t + 1) == Layer(SideBySide(w, q, a, b, t), Interleave(a[t], b[t]), Stride(w, t) + 1)
  {
    hide Run, Layer, Interleave, Half;
    RunStep(w, Half(q, 0), a, t);
    RunStep(w, Half(q, 1), b, t);
    var c, d := Run(w, Half(q, 0), a, t), Run(w, Half(q, 1), b, t);
    LayerSplits(Interleave(c, d), a[t], b[t], Stride(w, t));
    HalvesInterleave(c, d);
  }

  /** Between the first and the last layer, the network is two half-size networks side by side. */
  lemma {:induction false} RunSplits<T>(w: nat, p: seq<T>, layers: seq<seq<nat>>, a: seq<seq<nat>>, b: seq<seq<nat>>, t: nat)
    requires w > 0 && |a| == |b| == 2 * w - 1 && |layers| == 2 * w + 1 && Nested(w, layers, a, b)
    requires |p| % 2 == 0 && t <= 2 * w - 1
    ensures Run(w + 1, p, layers, t + 1) == SideBySide(w, Layer(p, layers[0], 0), a, b, t)
    decreases t
  {
    hide Run, Layer, SideBySide, Nested;
    var q := Layer(p, layers[0], 0);
    RunStep(w + 1, p, layers, t);
    if t == 0 {
      RunStep(w + 1, p, layers, 0);
      SideBySideStart(w, q, a, b);
    } else {
      RunSplits(w, p, layers, a, b, t - 1);
      NestedAt(w, layers, a, b, t - 1);
      SideBySideStep(w, q, a, b, t - 1);
    }
  }

  /** A single layer of stride 1 is the permutation of its switches. */
  lemma FirstLayer<T>(p: seq<T>, bits: seq<nat>)
    requires |p| == 2 * |bits|
    ensures forall x :: 0 <= x < |p| ==> Switches(bits)[x] < |p| && Layer(p, bits, 0)[x] == p[Switches(bits)[x]]
  {
    SwitchesInvolution(bits);
  }

  /** The control bits of a permutation drive the network from the identity to it. */
  lemma {:induction false} NetworkRealizes(w: nat, pi: seq<nat>)
    requires w > 0 && PermOf(w, pi)
    ensures Network<nat>(w, Identity(Pow2(w)), ControlBits(w, pi)) == pi
    decreases w
  {
    if w == 1 {
      SingleSwitch(pi);
    } else {
      PermOfEven(w, pi);
      SubPermPerm(w, pi, 0);
      SubPermPerm(w, pi, 1);
      NetworkRealizes(w - 1, SubPerm(pi, 0));
      NetworkRealizes(w - 1, SubPerm(pi, 1));
      ControlBitsNested(w, pi);
      hide *;
      var a, b := ControlBits(w - 1, SubPerm(pi, 0)), ControlBits(w - 1, SubPerm(pi, 1));
      MiddleRun(w, pi, ControlBits(w, pi), a, b);
      LastLayer(w, pi, ControlBits(w, pi));
    }
  }

  lemma ControlBitsNested(w: nat, pi: seq<nat>)
    requires w > 1 && PermOf(w, pi) && EvenPerm(pi)
    requires PermOf(w - 1, SubPerm(pi, 0)) && PermOf(w - 1, SubPerm(pi, 1))
    ensures var layers := ControlBits(w, pi);
            && Nested(w - 1, layers, ControlBits(w - 1, SubPerm(pi, 0)), ControlBits(w - 1, SubPerm(pi, 1)))
            && layers[0] == FirstBits(pi) && layers[2 * w - 2] == LastBits(pi)
  {}

  lemma SingleSwitch(pi: seq<nat>)
    requires PermOf(1, pi)
    ensures Network<nat>(1, Identity(Pow2(1)), ControlBits(1, pi)) == pi
  {
    var bits := [pi[0]];
    assert ControlBits(1, pi) == [bits];
    RunStep<nat>(1, Identity(2), [bits], 0);
    FirstLayer<nat>(Identity(2), bits);
    assert pi[0] != pi[1];
  }

  /** After the first layer and both half-size networks, position x holds F(M(x)). */
  lemma MiddleRun(w: nat, pi: seq<nat>, layers: seq<seq<nat>>, a: seq<seq<nat>>, b: seq<seq<nat>>)
    requires w > 1 && PermOf(w, pi) && EvenPerm(pi) && Nested(w - 1, layers, a, b) && layers[0] == FirstBits(pi)
    requires Network<nat>(w - 1, Identity(Pow2(w - 1)), a) == SubPerm(pi, 0)
    requires Network<nat>(w - 1, Identity(Pow2(w - 1)), b) == SubPerm(pi, 1)
    ensures IsPerm(Middle(pi))
    ensures Run<nat>(w, Identity(Pow2(w)), layers, 2 * w - 2) == Compose(Switches(FirstBits(pi)), Middle(pi))
  {
    hide *;
    NestedAt(w - 1, layers, a, b, 0);
    PermOfEven(w, pi);
    MiddlePerm(pi);
    var n, f := Pow2(w), FirstBits(pi);
    var q := Layer<nat>(Identity(n), f, 0);
    FirstLayer<nat>(Identity(n), f);
    assert q == Switches(f);
    RunSplits<nat>(w - 1, Identity(n), layers, a, b, 2 * w - 3);
    HalvesRun(w, pi, q, a, b);
  }

  lemma HalvesRun(w: nat, pi: seq<nat>, q: seq<nat>, a: seq<seq<nat>>, b: seq<seq<nat>>)
    requires w > 1 && PermOf(w, pi) && EvenPerm(pi) && IsPerm(Middle(pi)) && |q| == |pi| && |a| == |b| == 2 * w - 3
    requires Network<nat>(w - 1, Identity(Pow2(w - 1)), a) == SubPerm(pi, 0)
    requires Network<nat>(w - 1, Identity(Pow2(w - 1)), b) == SubPerm(pi, 1)
    ensures SideBySide<nat>(w - 1, q, a, b, 2 * w - 3) == Compose(q, Middle(pi))
  {
    hide Run, Layer, Half, Interleave, Switches, Switched, Middle, SubPerm, EvenPerm, Pow2;
    PermOfEven(w, pi);
    SubPermPerm(w, pi, 0);
    SubPermPerm(w, pi, 1);
    var r0 := HalfRun(w - 1, Half<nat>(q, 0), a, SubPerm(pi, 0));
    var r1 := HalfRun(w - 1, Half<nat>(q, 1), b, SubPerm(pi, 1));
    Rejoin(q, Middle(pi), SubPerm(pi, 0), SubPerm(pi, 1), r0, r1);
  }

  lemma HalfRun(w: nat, p: seq<nat>, layers: seq<seq<nat>>, s: seq<nat>) returns (r: seq<nat>)
    requires |layers| == 2 * w - 1 && |p| == Pow2(w) && PermOf(w, s)
    requires Network<nat>(w, Identity(Pow2(w)), layers) == s
    ensures r == Run<nat>(w, p, layers, 2 * w - 1)
    ensures forall j :: 0 <= j < |s| ==> s[j] < |p| && r[j] == p[s[j]]
  {
    r := Run<nat>(w, p, layers, 2 * w - 1);
    RunNatural<nat>(w, p, layers, 2 * w - 1);
    assert Source(w, layers, 2 * w - 1) == s;
  }

  /** Permuting even and odd positions separately is one permutation that keeps parities. */
  lemma Rejoin(q: seq<nat>, m: seq<nat>, s0: seq<nat>, s1: seq<nat>, r0: seq<nat>, r1: seq<nat>)
    requires |q| == |m| == 2 * |s0| && |s0| == |s1| == |r0| == |r1| && IsPerm(m)
    requires forall j :: 0 <= j < |s0| ==> m[2 * j + 0] == 2 * s0[j] + 0 && m[2 * j + 1] == 2 * s1[j] + 1
    requires forall j :: 0 <= j < |s0| ==> s0[j] < |s0| && s1[j] < |s0|
    requires forall j :: 0 <= j < |s0| ==> r0[j] == Half<nat>(q, 0)[s0[j]] && r1[j] == Half<nat>(q, 1)[s1[j]]
    ensures Interleave<nat>(r0, r1) == Compose(q, m)
  {
    forall x | 0 <= x < |q| ensures Interleave<nat>(r0, r1)[x] == q[m[x]] {
      var k := x / 2;
      assert x == 2 * k + x % 2;
    }
  }

  /** The last layer turns F(M) = F(F(pi(L))) into pi. */
  lemma LastLayer(w: nat, pi: seq<nat>, layers: seq<seq<nat>>)
    requires w > 1 && PermOf(w, pi) && EvenPerm(pi) && IsPerm(Middle(pi))
    requires |layers| == 2 * w - 1 && layers[2 * w - 2] == LastBits(pi)
    requires Run<nat>(w, Identity(Pow2(w)), layers, 2 * w - 2) == Compose(Switches(FirstBits(pi)), Middle(pi))
    ensures Network<nat>(w, Identity(Pow2(w)), layers) == pi
  {
    PermOfEven(w, pi);
    var f, l, n := Switches(FirstBits(pi)), Switches(LastBits(pi)), Pow2(w);
    var p := Run<nat>(w, Identity(n), layers, 2 * w - 2);
    assert Stride(w, 2 * w - 2) == 0;
    RunStep<nat>(w, Identity(n), layers, 2 * w - 2);
    FirstLayer<nat>(p, LastBits(pi));
    SwitchesInvolution(FirstBits(pi));
    SwitchesInvolution(LastBits(pi));
    hide Run, Layer, Switches, FirstBits, LastBits, EvenPerm, Pow2;
    forall x | 0 <= x < n ensures p[l[x]] == pi[x] {
      assert Middle(pi)[l[x]] == f[pi[l[l[x]]]];
    }
  }
}
