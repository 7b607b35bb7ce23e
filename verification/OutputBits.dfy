/** The output bytes of the control-bit computation as a sequence of bits, each of which is only
    ever changed by exclusive or. */
module OutputBits {
  import opened Words
  import opened BenesNetwork

  /** (b >> k) & 1 */
  function BitOf(b: nat, k: nat): (v: nat)
    ensures v < 2
  {
    if k == 0 then b % 2 else BitOf(b / 2, k - 1)
  }

  /** Exclusive or with f << k changes bit k only. */
  lemma {:induction false} XorBit(w: nat, b: nat, f: nat, k: nat, m: nat)
    requires k < w && m < w && f < 2
    ensures BitOf(Xor(w, b, f * Pow2(k)), m) == if m == k then (BitOf(b, m) + f) % 2 else BitOf(b, m)
    decreases w
  {
    var c := f * Pow2(k);
    if k == 0 {
      assert c == f && c / 2 == 0;
      XorWithZero(w - 1, b / 2);
      if m > 0 { XorWithZeroBit(w - 1, b / 2, m - 1); }
    } else {
      assert c == 2 * (f * Pow2(k - 1));
      if m > 0 { XorBit(w - 1, b / 2, f, k - 1, m - 1); }
    }
    var r := Xor(w, b, c);
    assert r / 2 == Xor(w - 1, b / 2, c / 2) && r % 2 == if b % 2 == c % 2 then 0 else 1;
  }

  lemma {:induction false} XorWithZero(w: nat, b: nat)
    ensures Xor(w, b, 0) < Pow2(w)
  {
    XorBounds(w, b, 0);
  }

  lemma {:induction false} XorWithZeroBit(w: nat, b: nat, m: nat)
    requires m < w
    ensures BitOf(Xor(w, b, 0), m) == BitOf(b, m)
    decreases w
  {
    var r := Xor(w, b, 0);
    assert r / 2 == Xor(w - 1, b / 2, 0) && r % 2 == b % 2;
    if m > 0 { XorWithZeroBit(w - 1, b / 2, m - 1); }
  }

  ghost predicate AreBytes(cb: seq<nat>)
  {
    forall i :: 0 <= i < |cb| ==> cb[i] < 256
  }

  /** Output position P is 1 & (out[P/8] >> (P & 7)). */
  function Bits(out: seq<nat>): (o: seq<nat>)
    ensures |o| == 8 * |out|
  {
    seq(8 * |out|, P requires 0 <= P < 8 * |out| => BitOf(out[P / 8], P % 8))
  }

  function ToggleOne(o: seq<nat>, P: nat, f: nat): (r: seq<nat>)
    requires P < |o|
    ensures |r| == |o|
  {
    o[P := (o[P] + f) % 2]
  }

  /** The bits of cb go to positions pos, pos + step, ...; what is out of range is skipped. */
  function ToggleAll(o: seq<nat>, pos: nat, step: nat, cb: seq<nat>): (r: seq<nat>)
    ensures |r| == |o|
    decreases |cb|
  {
    if |cb| == 0 then o
    else
      var k := |cb| - 1;
      var r := ToggleAll(o, pos, step, cb[..k]);
      ToggleAt(r, pos + Times(step, k), cb[k])
  }

  /** step * k, the distance of k steps */
  function Times(step: nat, k: nat): (d: nat)
  {
    step * k
  }

  lemma TimesFacts(step: nat, k: nat, j: nat)
    ensures Times(step, 0) == 0 && Times(step, 1) == step
    ensures Times(step, k + j) == Times(step, k) + Times(step, j)
    ensures Times(2 * step, k) == 2 * Times(step, k) == Times(step, 2 * k)
  {
    assert step * (k + j) == step * k + step * j;
  }

  /** One bit more, wherever it lies. */
  function ToggleAt(o: seq<nat>, P: nat, f: nat): (r: seq<nat>)
    ensures |r| == |o|
  {
    if P < |o| then ToggleOne(o, P, f) else o
  }

  /** out[pos>>3] ^= f<<(pos&7); */
  method XorAt(out: array<nat>, pos: nat, f: nat)
    requires pos < 8 * out.Length && f < 2
    modifies out
    ensures Bits(out[..]) == ToggleOne(Bits(old(out[..])), pos, f)
  {
    ghost var s := out[..];
    var i, k := pos / 8, pos % 8;
    out[i] := Xor(8, out[i], f * Pow2(k));
    XoredByte(s, out[..], pos, f);
  }

  lemma XoredByte(s: seq<nat>, t: seq<nat>, pos: nat, f: nat)
    requires pos < 8 * |s| && f < 2 && t == s[pos / 8 := Xor(8, s[pos / 8], f * Pow2(pos % 8))]
    ensures Bits(t) == ToggleOne(Bits(s), pos, f)
  {
    var o := ToggleOne(Bits(s), pos, f);
    hide Xor, Pow2, BitOf;
    forall P | 0 <= P < 8 * |s| ensures Bits(t)[P] == o[P] {
      if P / 8 == pos / 8 {
        XorBit(8, s[pos / 8], f, pos % 8, P % 8);
        SamePosition(P, pos);
      }
    }
  }

  lemma SamePosition(P: nat, Q: nat)
    requires P / 8 == Q / 8
    ensures P % 8 == Q % 8 <==> P == Q
  {}

  // ---------------------------------------------------------------- the order does not matter

  lemma ToggleLast(o: seq<nat>, pos: nat, step: nat, cb: seq<nat>)
    requires |cb| > 0
    ensures ToggleAll(o, pos, step, cb)
         == ToggleAt(ToggleAll(o, pos, step, cb[..|cb| - 1]), pos + Times(step, |cb| - 1), cb[|cb| - 1])
  {}

  lemma TwoToggles(o: seq<nat>, P: nat, f: nat, Q: nat, g: nat)
    ensures ToggleAt(ToggleAt(o, P, f), Q, g) == ToggleAt(ToggleAt(o, Q, g), P, f)
  {}

  lemma {:induction false} ToggleCommutes(o: seq<nat>, P: nat, f: nat, pos: nat, step: nat, cb: seq<nat>)
    ensures ToggleAll(ToggleAt(o, P, f), pos, step, cb) == ToggleAt(ToggleAll(o, pos, step, cb), P, f)
    decreases |cb|
  {
    hide ToggleAt, Times;
    if |cb| > 0 {
      var k := |cb| - 1;
      ToggleCommutes(o, P, f, pos, step, cb[..k]);
      TwoToggles(ToggleAll(o, pos, step, cb[..k]), P, f, pos + Times(step, k), cb[k]);
    }
  }

  /** Exclusive or's at different times can be exchanged. */
  lemma {:induction false} TogglesCommute(o: seq<nat>, pos: nat, step: nat, cb: seq<nat>, pos2: nat, step2: nat, cb2: seq<nat>)
    ensures ToggleAll(ToggleAll(o, pos, step, cb), pos2, step2, cb2)
         == ToggleAll(ToggleAll(o, pos2, step2, cb2), pos, step, cb)
    decreases |cb|
  {
    hide ToggleAt, Times;
    if |cb| > 0 {
      var k := |cb| - 1;
      TogglesCommute(o, pos, step, cb[..k], pos2, step2, cb2);
      ToggleCommutes(ToggleAll(o, pos, step, cb[..k]), pos + Times(step, k), cb[k], pos2, step2, cb2);
    }
  }

  lemma {:induction false} ToggleConcat(o: seq<nat>, pos: nat, step: nat, a: seq<nat>, b: seq<nat>)
    ensures ToggleAll(o, pos, step, a + b) == ToggleAll(ToggleAll(o, pos, step, a), pos + Times(step, |a|), step, b)
    decreases |b|
  {
    hide ToggleAt, Times;
    if |b| == 0 {
      assert a + b == a;
    } else {
      var k := |b| - 1;
      ToggleConcat(o, pos, step, a, b[..k]);
      assert (a + b)[..|a| + k] == a + b[..k];
      TimesFacts(step, |a|, k);
    }
  }

  lemma InterleaveLast(a: seq<nat>, b: seq<nat>, k: nat)
    requires |a| == |b| == k + 1
    ensures var i := Interleave(a, b);
            && i[..2 * k + 1][..2 * k] == Interleave(a[..k], b[..k])
            && i[..2 * k + 1] == i[..2 * k + 1][..2 * k] + [a[k]] && i == i[..2 * k + 1] + [b[k]]
  {}

  /** One bit more at the end of a run. */
  lemma ToggleSnoc(o: seq<nat>, pos: nat, step: nat, cb: seq<nat>, f: nat)
    ensures ToggleAll(o, pos, step, cb + [f]) == ToggleAt(ToggleAll(o, pos, step, cb), pos + Times(step, |cb|), f)
  {
    assert (cb + [f])[..|cb|] == cb;
  }

  /** The places of the last two bits. */
  lemma LastPlaces(step: nat, k: nat)
    ensures Times(2 * step, k) == Times(step, 2 * k)
    ensures step + Times(2 * step, k) == Times(step, 2 * k + 1)
  {
    TimesFacts(step, 2 * k, 1);
    TimesFacts(step, k, 0);
  }

  /** The last bit of each of two runs, the first of them moved past the second run. */
  lemma InterleavedStep(o: seq<nat>, pos: nat, step: nat, c: seq<nat>, d: seq<nat>, e: seq<nat>, x: nat, y: nat)
    requires |c| == |d| && |e| == 2 * |c|
    requires ToggleAll(ToggleAll(o, pos, 2 * step, c), pos + step, 2 * step, d) == ToggleAll(o, pos, step, e)
    ensures ToggleAll(ToggleAll(o, pos, 2 * step, c + [x]), pos + step, 2 * step, d + [y])
         == ToggleAll(o, pos, step, (e + [x]) + [y])
  {
    hide *;
    var k := |c|;
    LastPlaces(step, k);
    var r, P, Q := ToggleAll(o, pos, 2 * step, c), pos + Times(2 * step, k), pos + step + Times(2 * step, k);
    ToggleSnoc(o, pos, step, e, x);
    ToggleSnoc(o, pos, step, e + [x], y);
    ToggleSnoc(o, pos, 2 * step, c, x);
    ToggleSnoc(ToggleAt(r, P, x), pos + step, 2 * step, d, y);
    ToggleCommutes(r, P, x, pos + step, 2 * step, d);
    assert pos + Times(step, 2 * k + 1) == Q;
  }

  /** Two interleaved runs of double step are one run. */
  lemma {:induction false} ToggleInterleaved(o: seq<nat>, pos: nat, step: nat, a: seq<nat>, b: seq<nat>)
    requires |a| == |b|
    ensures ToggleAll(ToggleAll(o, pos, 2 * step, a), pos + step, 2 * step, b)
         == ToggleAll(o, pos, step, Interleave(a, b))
    decreases |a|
  {
    if |a| == 0 {
      assert a == [] && b == [] && Interleave(a, b) == [];
    } else {
      hide *;
      var k := |a| - 1;
      var c, d := a[..k], b[..k];
      ToggleInterleaved(o, pos, step, c, d);
      InterleavedStep(o, pos, step, c, d, Interleave(c, d), a[k], b[k]);
      InterleaveLast(a, b, k);
      assert a == c + [a[k]] && b == d + [b[k]];
    }
  }
}
