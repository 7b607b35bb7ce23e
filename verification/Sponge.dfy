/** The sponge of section 4 of FIPS 202 on a state of 200 bytes, in the two forms in which the code
    computes it, with the permutation as a parameter. */
module Sponge {
  import opened Bytes

  type State = s: seq<Byte> | |s| == 200 witness seq(200, i => NoBits())

  /** The state with the bytes of b added from place q on. */
  function XorAt(x: State, q: nat, b: seq<Byte>): (y: State)
    requires q + |b| <= 200
  {
    seq(200, i requires 0 <= i < 200 => if q <= i < q + |b| then Xor8(x[i], b[i - q]) else x[i])
  }

  function Start(): (x: State)
  {
    seq(200, i => NoBits())
  }

  lemma XorNone(x: State, q: nat)
    requires q <= 200
    ensures XorAt(x, q, []) == x
  {}

  lemma XorJoined(x: State, q: nat, a: seq<Byte>, b: seq<Byte>)
    requires q + |a| + |b| <= 200
    ensures XorAt(XorAt(x, q, a), q + |a|, b) == XorAt(x, q, a + b)
  {
    hide Xor8;
  }

  // ---------------------------------------------------------------- absorbing

  /** The state that has taken in m: all full blocks are permuted, the bytes of the last block are
      only added. */
  function Absorbed(f: State -> State, r: nat, x: State, m: seq<Byte>): (y: State)
    requires 0 < r <= 200
    decreases |m|
  {
    if |m| < r then XorAt(x, 0, m) else Absorbed(f, r, f(XorAt(x, 0, m[..r])), m[r..])
  }

  /** The number of bytes in the last block. */
  function Pending(r: nat, m: seq<Byte>): (c: nat)
    requires 0 < r
    ensures c < r
    decreases |m|
  {
    if |m| < r then |m| else Pending(r, m[r..])
  }

  /** Bytes that do not fill the last block are added where it ends. */
  lemma {:induction false} AbsorbPart(f: State -> State, r: nat, x: State, m: seq<Byte>, b: seq<Byte>)
    requires 0 < r <= 200 && Pending(r, m) + |b| < r
    ensures Absorbed(f, r, x, m + b) == XorAt(Absorbed(f, r, x, m), Pending(r, m), b)
    ensures Pending(r, m + b) == Pending(r, m) + |b|
    decreases |m|
  {
    if |m| < r {
      XorJoined(x, 0, m, b);
    } else {
      AbsorbPart(f, r, f(XorAt(x, 0, m[..r])), m[r..], b);
      assert (m + b)[..r] == m[..r] && (m + b)[r..] == m[r..] + b;
      hide XorAt;
    }
  }

  /** Bytes that fill the last block end with a permutation. */
  lemma {:induction false} AbsorbFull(f: State -> State, r: nat, x: State, m: seq<Byte>, b: seq<Byte>)
    requires 0 < r <= 200 && Pending(r, m) + |b| == r
    ensures Absorbed(f, r, x, m + b) == f(XorAt(Absorbed(f, r, x, m), Pending(r, m), b))
    ensures Pending(r, m + b) == 0
    decreases |m|
  {
    if |m| < r {
      XorJoined(x, 0, m, b);
      assert (m + b)[..r] == m + b && (m + b)[r..] == [];
      XorNone(f(XorAt(x, 0, m + b)), 0);
    } else {
      AbsorbFull(f, r, f(XorAt(x, 0, m[..r])), m[r..], b);
      assert (m + b)[..r] == m[..r] && (m + b)[r..] == m[r..] + b;
      hide XorAt;
    }
  }

  // ---------------------------------------------------------------- the end of the message

  /** The state before the first output: the domain byte after the message, and the top bit of the
      last byte of the block. */
  function Finished(f: State -> State, r: nat, m: seq<Byte>, p: Byte): (y: State)
    requires 0 < r <= 200
  {
    XorAt(XorAt(Absorbed(f, r, Start(), m), Pending(r, m), [p]), r - 1, [TopBit()])
  }

  function Zeros(n: nat): (z: seq<Byte>)
    ensures |z| == n
  {
    seq(n, i => NoBits())
  }

  /** The last block as the one-shot code builds it after c bytes of message: the domain byte,
      zeros, and the top bit set in the last byte. */
  function Padding(r: nat, c: nat, p: Byte): (b: seq<Byte>)
    requires c < r
    ensures |b| == r - c
  {
    if c == r - 1 then [Or8(p, TopBit())] else [p] + Zeros(r - c - 2) + [TopBit()]
  }

  /** The padding fills the block: it starts with the domain bits, ends with a set bit, and has zeros between. */
  lemma PaddingShape(r: nat, c: nat, p: Byte)
    requires c < r
    ensures |Padding(r, c, p)| == r - c && forall k :: 0 <= k < 7 ==> Padding(r, c, p)[0][k] == p[k]
    ensures Padding(r, c, p)[r - c - 1][7] && (c < r - 1 ==> Padding(r, c, p)[0] == p)
    ensures forall i, k :: 0 < i < r - c && 0 <= k < 8 && !(i == r - c - 1 && k == 7) ==> !Padding(r, c, p)[i][k]
  {}

  /** The sponge of FIPS 202 on a padded message: every block is added and permuted. */
  function Blocks(f: State -> State, r: nat, x: State, m: seq<Byte>): (y: State)
    requires 0 < r <= 200
    decreases |m|
  {
    if |m| < r then x else Blocks(f, r, f(XorAt(x, 0, m[..r])), m[r..])
  }

  lemma {:induction false} BlocksAbsorbed(f: State -> State, r: nat, x: State, m: seq<Byte>)
    requires 0 < r <= 200 && Pending(r, m) == 0
    ensures Absorbed(f, r, x, m) == Blocks(f, r, x, m)
    decreases |m|
  {
    if |m| < r {
      XorNone(x, 0);
    } else {
      BlocksAbsorbed(f, r, f(XorAt(x, 0, m[..r])), m[r..]);
    }
  }

  /** Adding the padding is adding its two bytes, unless both fall on a byte whose top bit they both set. */
  lemma PaddingAdded(x: State, r: nat, c: nat, p: Byte)
    requires c < r <= 200
    ensures XorAt(x, c, Padding(r, c, p)) == XorAt(XorAt(x, c, [p]), r - 1, [TopBit()]) <==> !(c == r - 1 && p[7])
  {
    var y, z := XorAt(x, c, Padding(r, c, p)), XorAt(XorAt(x, c, [p]), r - 1, [TopBit()]);
    forall i | 0 <= i < 200 && !(c == r - 1 && i == c) ensures y[i] == z[i] {
      if c < i < r - 1 {
        assert Padding(r, c, p)[i - c] == NoBits();
        assert Xor8(x[i], NoBits()) == x[i];
      }
    }
    if c == r - 1 {
      assert y[c] == Xor8(x[c], Or8(p, TopBit())) && z[c] == Xor8(Xor8(x[c], p), TopBit());
      TopBitAdded(x[c], p);
    } else {
      assert y[c] == z[c];
    }
  }

  lemma TopBitAdded(x: Byte, p: Byte)
    ensures Xor8(x, Or8(p, TopBit())) == Xor8(Xor8(x, p), TopBit()) <==> !p[7]
  {
    var y, z := Xor8(x, Or8(p, TopBit())), Xor8(Xor8(x, p), TopBit());
    assert forall k :: 0 <= k < 7 ==> y[k] == z[k];
    assert y[7] == z[7] <==> !p[7];
  }

  /** The state after the padded message of FIPS 202, section 4, is the permuted state of the
      incremental code for every domain byte whose top bit is clear. */
  lemma FinishedIsSponge(f: State -> State, r: nat, m: seq<Byte>, p: Byte)
    requires 0 < r <= 200 && !p[7]
    ensures f(Finished(f, r, m, p)) == Blocks(f, r, Start(), m + Padding(r, Pending(r, m), p))
  {
    var c := Pending(r, m);
    AbsorbFull(f, r, Start(), m, Padding(r, c, p));
    BlocksAbsorbed(f, r, Start(), m + Padding(r, c, p));
    PaddingAdded(Absorbed(f, r, Start(), m), r, c, p);
  }

  // ---------------------------------------------------------------- squeezing

  /** The next n bytes of output when the last left bytes of the block are still to come. */
  function Ahead(f: State -> State, r: nat, z: State, left: nat, n: nat): (h: seq<Byte>)
    requires left <= r <= 200 && 0 < r
    ensures |h| == n
    decreases n, r - left
  {
    if n <= left then z[r - left..r - left + n]
    else z[r - left..r] + Ahead(f, r, f(z), r, n - left)
  }

  /** The state and the count after n bytes of output. */
  function After(f: State -> State, r: nat, z: State, left: nat, n: nat): (a: (State, nat))
    requires left <= r <= 200 && 0 < r
    ensures a.1 <= r
    decreases n, r - left
  {
    if n <= left then (z, left - n) else After(f, r, f(z), r, n - left)
  }

  /** Output in two calls is output in one. */
  lemma {:induction false} AheadSplits(f: State -> State, r: nat, z: State, left: nat, n: nat, k: nat)
    requires left <= r <= 200 && 0 < r
    ensures var (z2, left2) := After(f, r, z, left, n);
            Ahead(f, r, z, left, n + k) == Ahead(f, r, z, left, n) + Ahead(f, r, z2, left2, k)
            && After(f, r, z, left, n + k) == After(f, r, z2, left2, k)
    decreases n, r - left
  {
    hide *;
    AheadIs(f, r, z, left, n);
    AheadIs(f, r, z, left, n + k);
    if n > left {
      AheadSplits(f, r, f(z), r, n - left, k);
      assert n - left + k == n + k - left;
    } else {
      AheadIs(f, r, z, left - n, k);
      Slices(z, r - left, r - left + n, if n + k > left then r else r - left + n + k);
    }
  }

  lemma AheadIs(f: State -> State, r: nat, z: State, left: nat, n: nat)
    requires left <= r <= 200 && 0 < r
    ensures n <= left ==> Ahead(f, r, z, left, n) == z[r - left..r - left + n] && After(f, r, z, left, n) == (z, left - n)
    ensures n > left ==> Ahead(f, r, z, left, n) == z[r - left..r] + Ahead(f, r, f(z), r, n - left)
    ensures n > left ==> After(f, r, z, left, n) == After(f, r, f(z), r, n - left)
  {}

  lemma Slices(z: State, a: nat, b: nat, c: nat)
    requires a <= b <= c <= 200
    ensures z[a..c] == z[a..b] + z[b..c]
  {}

  /** The sponge of FIPS 202 with its output: blocks of r bytes, permuted in between. */
  function Output(f: State -> State, r: nat, y: State, n: nat): (h: seq<Byte>)
    requires 0 < r <= 200
    decreases n
  {
    if n <= r then y[..n] else y[..r] + Output(f, r, f(y), n - r)
  }

  lemma {:induction false} AheadOutput(f: State -> State, r: nat, y: State, n: nat)
    requires 0 < r <= 200
    ensures Ahead(f, r, y, r, n) == Output(f, r, y, n)
    decreases n
  {
    if n > r { AheadOutput(f, r, f(y), n - r); }
  }

  /** The function that FIPS 202 defines for the domain byte p: pad, absorb, squeeze n bytes. */
  function SpongeHash(f: State -> State, r: nat, m: seq<Byte>, p: Byte, n: nat): (h: seq<Byte>)
    requires 0 < r <= 200
  {
    Output(f, r, Blocks(f, r, Start(), m + Padding(r, Pending(r, m), p)), n)
  }

  /** The output after the incremental code has taken in the message. */
  lemma FinishedOutput(f: State -> State, r: nat, m: seq<Byte>, p: Byte, n: nat)
    requires 0 < r <= 200 && !p[7]
    ensures Ahead(f, r, Finished(f, r, m, p), 0, n) == SpongeHash(f, r, m, p, n)
  {
    FinishedIsSponge(f, r, m, p);
    AheadOutput(f, r, f(Finished(f, r, m, p)), n);
    hide Finished, Blocks, Output;
    var z := Finished(f, r, m, p);
    if n == 0 {
      OutputNone(f, r, f(z));
    } else {
      assert z[r..r] == [];
    }
  }

  lemma OutputNone(f: State -> State, r: nat, y: State)
    requires 0 < r <= 200
    ensures Output(f, r, y, 0) == []
  {}
}
