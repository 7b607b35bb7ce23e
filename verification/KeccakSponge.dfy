/** The Keccak code around the permutation: absorbing and squeezing in one call and in many. A 64-bit
    word is its eight bytes, the low byte first, since the code shifts by whole bytes only. */
module KeccakSponge {
  import opened Bytes
  import opened Sponge

  type Lane = l: seq<Byte> | |l| == 8 witness seq(8, i => NoBits())

  /** (uint64_t)b << 8 * k */
  function Shifted(b: Byte, k: nat): (l: Lane)
    requires k < 8
  {
    [If(k == 0, b), If(k == 1, b), If(k == 2, b), If(k == 3, b), If(k == 4, b), If(k == 5, b), If(k == 6, b), If(k == 7, b)]
  }

  lemma ShiftedAt(b: Byte, k: nat, j: nat)
    requires k < 8 && j < 8
    ensures Shifted(b, k)[j] == if j == k then b else NoBits()
  {}

  function If(c: bool, b: Byte): (r: Byte)
  {
    if c then b else NoBits()
  }

  function XorLane(a: Lane, b: Lane): (l: Lane)
  {
    seq(8, j requires 0 <= j < 8 => Xor8(a[j], b[j]))
  }

  function OrLane(a: Lane, b: Lane): (l: Lane)
  {
    seq(8, j requires 0 <= j < 8 => Or8(a[j], b[j]))
  }

  /** (uint8_t)(w >> 8 * k) */
  function ByteAt(w: Lane, k: nat): (b: Byte)
    requires k < 8
  {
    w[k]
  }

  /** The bytes of the state. */
  function Flat(s: seq<Lane>): (x: State)
    requires |s| == 25
  {
    seq(200, q requires 0 <= q < 200 => s[q / 8][q % 8])
  }

  function LaneOf(x: State, i: nat): (l: Lane)
    requires i < 25
  {
    x[8 * i..8 * i + 8]
  }

  lemma FlatOfLanes(s: seq<Lane>, x: State)
    requires |s| == 25 && forall i :: 0 <= i < 25 ==> s[i] == LaneOf(x, i)
    ensures Flat(s) == x
  {
    forall q | 0 <= q < 200 ensures Flat(s)[q] == x[q] {
      assert s[q / 8] == LaneOf(x, q / 8);
    }
  }

  /** One byte added to one lane. */
  lemma ByteAdded(s: seq<Lane>, t: seq<Lane>, q: nat, b: Byte)
    requires |s| == |t| == 25 && q < 200
    requires t[q / 8] == XorLane(s[q / 8], Shifted(b, q % 8)) && forall i :: 0 <= i < 25 && i != q / 8 ==> t[i] == s[i]
    ensures Flat(t) == XorAt(Flat(s), q, [b])
  {
    forall i | 0 <= i < 200 ensures Flat(t)[i] == XorAt(Flat(s), q, [b])[i] {
      if i / 8 == q / 8 {
        assert t[i / 8][i % 8] == Xor8(s[i / 8][i % 8], Shifted(b, q % 8)[i % 8]);
        XorNothing(s[i / 8][i % 8]);
        ShiftedAt(b, q % 8, i % 8);
        if i % 8 == q % 8 { assert i == q; }
      }
    }
  }

  lemma XorNothing(b: Byte)
    ensures Xor8(b, NoBits()) == b
  {}

  /** One lane added. */
  lemma LaneAdded(s: seq<Lane>, t: seq<Lane>, i: nat, l: Lane)
    requires |s| == |t| == 25 && i < 25
    requires t[i] == XorLane(s[i], l) && forall j :: 0 <= j < 25 && j != i ==> t[j] == s[j]
    ensures Flat(t) == XorAt(Flat(s), 8 * i, l)
  {
    hide Xor8;
    forall k | 0 <= k < 200 ensures Flat(t)[k] == XorAt(Flat(s), 8 * i, l)[k] {
      if k / 8 == i {
        assert k - 8 * i == k % 8;
        assert t[i][k % 8] == Xor8(s[i][k % 8], l[k % 8]);
      } else {
        assert !(8 * i <= k < 8 * i + 8);
      }
    }
  }

  /** KeccakF1600_StatePermute, for any permutation f of the state. */
  method Permute(s: array<Lane>, f: State -> State)
    requires s.Length == 25
    modifies s
    ensures Flat(s[..]) == f(old(Flat(s[..])))
  {
    hide Flat;
    var y := f(Flat(s[..]));
    var i := 0;
    while i < 25
      invariant 0 <= i <= 25 && forall k :: 0 <= k < i ==> s[k] == LaneOf(y, k)
    {
      s[i] := LaneOf(y, i);
      i := i + 1;
    }
    FlatOfLanes(s[..], y);
  }

  /** for (i = 0; i < n; i++) s[(q + i) >> 3] ^= (uint64_t)m[i] << (8 * ((q + i) & 0x07)) */
  method AddBytes(s: array<Lane>, q: nat, m: seq<Byte>, n: nat)
    requires s.Length == 25 && n <= |m| && q + n <= 200
    modifies s
    ensures Flat(s[..]) == XorAt(old(Flat(s[..])), q, m[..n])
  {
    hide *;
    ghost var x := Flat(s[..]);
    var i := 0;
    XorNone(x, q);
    assert m[..0] == [];
    while i < n
      invariant 0 <= i <= n && Flat(s[..]) == XorAt(x, q, m[..i])
    {
      ghost var t := s[..];
      s[(q + i) / 8] := XorLane(s[(q + i) / 8], Shifted(m[i], (q + i) % 8));
      ByteAdded(t, s[..], q + i, m[i]);
      XorJoined(x, q, m[..i], [m[i]]);
      assert m[..i] + [m[i]] == m[..i + 1];
      i := i + 1;
    }
  }

  // ---------------------------------------------------------------- the incremental code

  /** The incremental state: 25 lanes, and the count that the code keeps in slot 25. */
  class Context {
    const lanes: array<Lane>
    const f: State -> State
    var count: nat

    ghost function Now(): (x: State)
      requires lanes.Length == 25
      reads this, lanes
    {
      Flat(lanes[..])
    }

    /** The context has taken in m. */
    ghost predicate Taken(r: nat, m: seq<Byte>)
      reads this, lanes
    {
      0 < r <= 200 && lanes.Length == 25 && Now() == Absorbed(f, r, Start(), m) && count == Pending(r, m)
    }

    /** The context has given n bytes of the output of z. */
    ghost predicate Given(r: nat, z: State, n: nat)
      reads this, lanes
    {
      0 < r <= 200 && lanes.Length == 25 && (Now(), count) == After(f, r, z, 0, n)
    }

    /** keccak_inc_init */
    constructor (f: State -> State)
      ensures this.f == f && lanes.Length == 25 && fresh(lanes)
      ensures forall r: nat :: 0 < r <= 200 ==> Taken(r, [])
    {
      this.f := f;
      lanes := new Lane[25](_ => seq(8, i => NoBits()));
      count := 0;
      new;
      FlatOfLanes(lanes[..], Start());
      XorNone(Start(), 0);
    }

    /** keccak_inc_absorb: the bytes of m are appended to what was taken in. */
    method Absorb(r: nat, m: seq<Byte>, ghost before: seq<Byte>)
      requires Taken(r, before)
      modifies this, lanes
      ensures Taken(r, before + m)
    {
      hide Flat, XorAt, Absorbed, Pending, Start;
      var k := 0;
      assert before + m[..0] == before;
      while |m| - k + count >= r
        invariant 0 <= k <= |m| && Taken(r, before + m[..k])
        decreases |m| - k + count
      {
        var n := r - count;
        ghost var part := m[k..][..n];
        AddBytes(lanes, count, m[k..], n);
        k := k + n;
        count := 0;
        Permute(lanes, f);
        AbsorbFull(f, r, Start(), before + m[..k - n], part);
        assert before + m[..k - n] + part == before + m[..k];
      }
      AddBytes(lanes, count, m[k..], |m| - k);
      count := count + (|m| - k);
      AbsorbPart(f, r, Start(), before + m[..k], m[k..][..|m| - k]);
      assert before + m[..k] + m[k..][..|m| - k] == before + m;
    }

    /** keccak_inc_finalize */
    method Finalize(r: nat, p: Byte, ghost m: seq<Byte>)
      requires Taken(r, m)
      modifies this, lanes
      ensures Given(r, Finished(f, r, m, p), 0)
    {
      hide Flat, XorAt, Absorbed, Pending, Start;
      ghost var x, c := Now(), count;
      ghost var t := lanes[..];
      lanes[count / 8] := XorLane(lanes[count / 8], Shifted(p, count % 8));
      ByteAdded(t, lanes[..], c, p);
      t := lanes[..];
      lanes[(r - 1) / 8] := XorLane(lanes[(r - 1) / 8], Shifted(TopBit(), (r - 1) % 8));
      ByteAdded(t, lanes[..], r - 1, TopBit());
      count := 0;
    }

    /** keccak_inc_squeeze: the next outlen bytes of the output, however many were given before. */
    method Squeeze(h: array<Byte>, off: nat, outlen: nat, r: nat, ghost z: State, ghost n: nat)
      requires Given(r, z, n) && off + outlen <= h.Length
      modifies this, lanes, h
      ensures Given(r, z, n + outlen)
      ensures Ahead(f, r, z, 0, n + outlen) == Ahead(f, r, z, 0, n) + h[off..off + outlen]
      ensures h[..off] == old(h[..off]) && h[off + outlen..] == old(h[off + outlen..])
    {
      hide *;
      ghost var (x, left) := GivenNow(r, z, n);
      GivenIs(r, z, n);
      AheadSplits(f, r, z, 0, n, outlen);
      var k := Leftover(h, off, outlen, r);
      ProgressFrom(f, r, x, left, k, Now(), count, h[off..off + k]);
      while k < outlen
        invariant 0 <= k <= outlen && (k < outlen ==> count == 0) && lanes.Length == 25 && count <= r
        invariant Progress(f, r, x, left, k, Now(), count, h[off..off + k])
        invariant h[..off] == old(h[..off]) && h[off + outlen..] == old(h[off + outlen..])
      {
        ghost var y, g := Now(), h[..];
        var i := NextBlock(h, off + k, outlen - k, r);
        Sliced(g, h[..], off, k, i, outlen);
        ProgressStep(f, r, x, left, k, i, y, 0, Now(), count, g[off..off + k], h[off + k..off + k + i]);
        k := k + i;
      }
      ProgressIs(f, r, x, left, k, Now(), count, h[off..off + k]);
      GivenFrom(r, z, n + outlen);
    }

    /** The bytes of the last block that are still to come. */
    method Leftover(h: array<Byte>, off: nat, outlen: nat, r: nat) returns (k: nat)
      requires lanes.Length == 25 && count <= r <= 200 && 0 < r && off + outlen <= h.Length
      modifies this, h
      ensures k <= outlen && (k < outlen ==> count == 0) && count <= r && Now() == old(Now())
      ensures h[off..off + k] == Ahead(f, r, Now(), old(count), k) && (Now(), count) == After(f, r, Now(), old(count), k)
      ensures h[..off] == old(h[..off]) && h[off + outlen..] == old(h[off + outlen..])
    {
      hide Ahead, After, Flat;
      k := if outlen < count then outlen else count;
      CopyOut(h, off, lanes, r - count, k);
      AheadIs(f, r, Now(), count, k);
      count := count - k;
    }

    /** One more block, or the part of it that is wanted. */
    method NextBlock(h: array<Byte>, off: nat, want: nat, r: nat) returns (i: nat)
      requires lanes.Length == 25 && 0 < r <= 200 && 0 < want && off + want <= h.Length
      modifies this, lanes, h
      ensures i == (if want < r then want else r) && (i < want ==> count == 0) && count <= r
      ensures h[off..off + i] == Ahead(f, r, old(Now()), 0, i) && (Now(), count) == After(f, r, old(Now()), 0, i)
      ensures h[..off] == old(h[..off]) && h[off + i..] == old(h[off + i..])
    {
      hide Ahead, After, Flat;
      ghost var y := Now();
      Permute(lanes, f);
      i := if want < r then want else r;
      CopyOut(h, off, lanes, 0, i);
      count := r - i;
      OneBlock(f, r, y, i);
    }

    lemma Sliced(g: seq<Byte>, h: seq<Byte>, off: nat, k: nat, i: nat, outlen: nat)
      requires |g| == |h| && off + outlen <= |h| && k + i <= outlen
      requires h[..off + k] == g[..off + k] && h[off + k + i..] == g[off + k + i..]
      ensures h[off..off + (k + i)] == g[off..off + k] + h[off + k..off + k + i]
      ensures h[..off] == g[..off] && h[off + outlen..] == g[off + outlen..]
    {
      assert h[off..off + k] == h[..off + k][off..] == g[off..off + k];
      assert h[..off] == h[..off + k][..off] == g[..off];
      var d := outlen - k - i;
      assert h[off + outlen..] == h[off + k + i..][d..] == g[off + outlen..];
    }

    ghost function GivenNow(r: nat, z: State, n: nat): (a: (State, nat))
      requires Given(r, z, n)
      reads this, lanes
      ensures a == (Now(), count) == After(f, r, z, 0, n)
    {
      (Now(), count)
    }

    lemma GivenIs(r: nat, z: State, n: nat)
      requires Given(r, z, n)
      ensures 0 < r <= 200 && lanes.Length == 25 && (Now(), count) == After(f, r, z, 0, n) && count <= r
    {}

    lemma GivenFrom(r: nat, z: State, n: nat)
      requires 0 < r <= 200 && lanes.Length == 25 && (Now(), count) == After(f, r, z, 0, n)
      ensures Given(r, z, n)
    {}
  }

  /** k bytes of output have been given since the state x with left bytes to come. */
  ghost predicate Progress(f: State -> State, r: nat, x: State, left: nat, k: nat, now: State, count: nat, part: seq<Byte>)
    requires left <= r <= 200 && 0 < r
  {
    part == Ahead(f, r, x, left, k) && (now, count) == After(f, r, x, left, k)
  }

  lemma ProgressFrom(f: State -> State, r: nat, x: State, left: nat, k: nat, now: State, count: nat, part: seq<Byte>)
    requires left <= r <= 200 && 0 < r
    requires part == Ahead(f, r, x, left, k) && (now, count) == After(f, r, x, left, k)
    ensures Progress(f, r, x, left, k, now, count, part)
  {}

  lemma ProgressIs(f: State -> State, r: nat, x: State, left: nat, k: nat, now: State, count: nat, part: seq<Byte>)
    requires left <= r <= 200 && 0 < r && Progress(f, r, x, left, k, now, count, part)
    ensures part == Ahead(f, r, x, left, k) && (now, count) == After(f, r, x, left, k)
  {}

  lemma ProgressStep(f: State -> State, r: nat, x: State, left: nat, k: nat, i: nat, y: State, c: nat, now: State, count: nat,
                     part: seq<Byte>, more: seq<Byte>)
    requires left <= r <= 200 && 0 < r && c <= r && Progress(f, r, x, left, k, y, c, part)
    requires more == Ahead(f, r, y, c, i) && (now, count) == After(f, r, y, c, i)
    ensures Progress(f, r, x, left, k + i, now, count, part + more)
  {
    hide *;
    ProgressIs(f, r, x, left, k, y, c, part);
    AheadSplits(f, r, x, left, k, i);
    ProgressFrom(f, r, x, left, k + i, now, count, part + more);
  }

  /** The first bytes of the next block. */
  lemma OneBlock(f: State -> State, r: nat, y: State, i: nat)
    requires 0 < i <= r <= 200
    ensures Ahead(f, r, y, 0, i) == f(y)[..i] && After(f, r, y, 0, i) == (f(y), r - i)
  {
    AheadIs(f, r, y, 0, i);
    AheadIs(f, r, f(y), r, i);
    assert y[r..r] == [];
  }

  /** for (i = 0; i < n; i++) h[off + i] = (uint8_t)(s[(q + i) >> 3] >> (8 * ((q + i) & 0x07))) */
  method CopyOut(h: array<Byte>, off: nat, s: array<Lane>, q: nat, n: nat)
    requires s.Length == 25 && q + n <= 200 && off + n <= h.Length
    modifies h
    ensures h[off..off + n] == Flat(s[..])[q..q + n]
    ensures h[..off] == old(h[..off]) && h[off + n..] == old(h[off + n..])
  {
    ghost var x := Flat(s[..]);
    var i := 0;
    while i < n
      invariant 0 <= i <= n && forall k :: off <= k < off + i ==> h[k] == x[q + (k - off)]
      invariant h[..off] == old(h[..off]) && h[off + n..] == old(h[off + n..])
      invariant Flat(s[..]) == x
    {
      h[off + i] := ByteAt(s[(q + i) / 8], (q + i) % 8);
      i := i + 1;
    }
  }
}
