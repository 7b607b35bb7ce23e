/** Hashing by blocks of 64 bytes: the folding of a compression function over a message that arrives in
    pieces, and the padding of section 5.1.1 of FIPS 180-4. */
module BlockHash {
  import opened Bytes

  type Block = b: seq<Octet> | |b| == 64 witness seq(64, i => 0)

  /** The hash value after the full blocks of m, for a compression function f. */
  function Folded<S>(f: (S, Block) -> S, s: S, m: seq<Octet>): (r: S)
    decreases |m|
  {
    if |m| < 64 then s else Folded(f, f(s, m[..64]), m[64..])
  }

  /** The bytes after the last full block. */
  function Tail(m: seq<Octet>): (t: seq<Octet>)
    ensures |t| == |m| % 64
    decreases |m|
  {
    if |m| < 64 then m else Tail(m[64..])
  }

  /** Bytes that do not fill the last block are kept. */
  lemma {:induction false} FoldPart<S>(f: (S, Block) -> S, s: S, m: seq<Octet>, b: seq<Octet>)
    requires |Tail(m)| + |b| < 64
    ensures Folded(f, s, m + b) == Folded(f, s, m) && Tail(m + b) == Tail(m) + b
    decreases |m|
  {
    if |m| >= 64 {
      FoldPart(f, f(s, m[..64]), m[64..], b);
      assert (m + b)[..64] == m[..64] && (m + b)[64..] == m[64..] + b;
    }
  }

  /** Bytes that fill the last block are compressed with it. */
  lemma {:induction false} FoldFull<S>(f: (S, Block) -> S, s: S, m: seq<Octet>, b: seq<Octet>)
    requires |Tail(m)| + |b| == 64
    ensures Folded(f, s, m + b) == f(Folded(f, s, m), Tail(m) + b) && Tail(m + b) == []
    decreases |m|
  {
    if |m| >= 64 {
      FoldFull(f, f(s, m[..64]), m[64..], b);
      assert (m + b)[..64] == m[..64] && (m + b)[64..] == m[64..] + b;
    } else {
      assert (m + b)[..64] == m + b && (m + b)[64..] == [];
    }
  }

  /** The number of zero bytes after the first byte of the padding. */
  function ZeroCount(n: nat): (k: nat)
    ensures (n + 1 + k + 8) % 64 == 0 && k < 64
  {
    if n % 64 < 56 then 55 - n % 64 else 119 - n % 64
  }

  function Zeros(k: nat): (z: seq<Octet>)
    ensures |z| == k
  {
    seq(k, i => 0)
  }

  /** Octet i of a 64-bit number, the high byte first. */
  function LengthByte(n: nat, i: nat): (b: Octet)
  {
    match i
    case 0 => n / 0x100_0000_0000_0000 % 0x100
    case 1 => n / 0x1_0000_0000_0000 % 0x100
    case 2 => n / 0x100_0000_0000 % 0x100
    case 3 => n / 0x1_0000_0000 % 0x100
    case 4 => n / 0x100_0000 % 0x100
    case 5 => n / 0x1_0000 % 0x100
    case 6 => n / 0x100 % 0x100
    case _ => n % 0x100
  }

  function Length64(n: nat): (b: seq<Octet>)
    ensures |b| == 8
  {
    seq(8, i requires 0 <= i < 8 => LengthByte(n, i))
  }

  /** The padding of section 5.1.1, with the length in bits modulo 2^64. */
  function Padding(n: nat): (p: seq<Octet>)
    ensures (n + |p|) % 64 == 0
  {
    [0x80] + Zeros(ZeroCount(n)) + Length64(8 * n % 0x1_0000_0000_0000_0000)
  }

  /** The padding is a byte 0x80, as few zeros as fill the block, and the length with its high byte first. */
  lemma PaddingShape(n: nat)
    ensures 9 <= |Padding(n)| <= 72 && (n + |Padding(n)|) % 64 == 0 && Padding(n)[0] == 0x80
    ensures forall i :: 0 < i < |Padding(n)| - 8 ==> Padding(n)[i] == 0
    ensures Value(Padding(n)[|Padding(n)| - 8..]) == 8 * n % 0x1_0000_0000_0000_0000
  {
    hide Length64, LengthByte, Value;
    LengthValue(8 * n % 0x1_0000_0000_0000_0000);
    assert Padding(n)[|Padding(n)| - 8..] == Length64(8 * n % 0x1_0000_0000_0000_0000);
  }

  /** The number of a sequence of bytes, the first of which counts most. */
  function Value(b: seq<Octet>): (v: nat)
  {
    if b == [] then 0 else Value(b[..|b| - 1]) * 256 + b[|b| - 1]
  }

  lemma LengthValue(n: nat)
    requires n < 0x1_0000_0000_0000_0000
    ensures Value(Length64(n)) == n
  {
    assert Length64(n)[..8] == Length64(n);
    ValueUpTo(n, 7);
  }

  /** What the first bytes make up. */
  lemma {:induction false} ValueUpTo(n: nat, i: nat)
    requires n < 0x1_0000_0000_0000_0000 && i < 8
    ensures Value(Length64(n)[..i + 1]) == Above(n, i)
    decreases i
  {
    var l := Length64(n);
    assert l[..i + 1][..i] == l[..i];
    if i == 0 {
      assert l[..0] == [];
    } else {
      ValueUpTo(n, i - 1);
      AboveStep(n, i);
    }
  }

  lemma AboveStep(n: nat, i: nat)
    requires 0 < i < 8
    ensures Above(n, i - 1) * 256 + LengthByte(n, i) == Above(n, i)
  {}

  /** The number without its low bytes. */
  function Above(n: nat, i: nat): (v: nat)
  {
    match i
    case 0 => n / 0x100_0000_0000_0000
    case 1 => n / 0x1_0000_0000_0000
    case 2 => n / 0x100_0000_0000
    case 3 => n / 0x1_0000_0000
    case 4 => n / 0x100_0000
    case 5 => n / 0x1_0000
    case 6 => n / 0x100
    case _ => n
  }

  lemma ZerosJoined(a: nat, b: nat)
    ensures Zeros(a) + Zeros(b) == Zeros(a + b)
  {}

  /** What is in a block besides the message and the length. */
  function Filler(n: nat): (p: seq<Octet>)
  {
    [0x80] + Zeros(n)
  }

  function LengthOf(n: nat): (b: seq<Octet>)
    ensures |b| == 8
  {
    Length64(8 * n % 0x1_0000_0000_0000_0000)
  }

  lemma PaddingIs(n: nat)
    ensures Padding(n) == Filler(ZeroCount(n)) + LengthOf(n)
  {
    hide Zeros, Length64, ZeroCount;
  }

  lemma PaddingSplit(n: nat, z: nat)
    requires ZeroCount(n) == z + 56
    ensures Padding(n) == Filler(z) + (Zeros(56) + LengthOf(n))
  {
    hide LengthOf, ZeroCount, Padding;
    PaddingIs(n);
    ZerosJoined(z, 56);
    hide Zeros;
    assert [0x80] + (Zeros(z) + Zeros(56)) + LengthOf(n) == [0x80] + Zeros(z) + (Zeros(56) + LengthOf(n));
  }

  lemma FillerIs(n: nat)
    ensures |Filler(n)| == n + 1 && |Zeros(56)| == 56
  {}

  lemma Counts(n: nat)
    ensures n % 64 < 56 ==> ZeroCount(n) == 55 - n % 64
    ensures n % 64 >= 56 ==> ZeroCount(n) == 63 - n % 64 + 56
  {}

  /** The padding fits into the last block. */
  lemma PaddingOne<S>(f: (S, Block) -> S, s: S, m: seq<Octet>, t: seq<Octet>)
    requires t == Tail(m) && |t| + 1 <= 56
    ensures |t + Filler(55 - |t|) + LengthOf(|m|)| == 64
    ensures f(Folded(f, s, m), t + Filler(55 - |t|) + LengthOf(|m|)) == Folded(f, s, m + Padding(|m|))
  {
    hide *;
    TailSize(m);
    Counts(|m|);
    PaddingIs(|m|);
    FillerIs(55 - |t|);
    assert t + Padding(|m|) == t + Filler(55 - |t|) + LengthOf(|m|);
    FoldFull(f, s, m, Padding(|m|));
  }

  lemma TailSize(m: seq<Octet>)
    ensures |Tail(m)| == |m| % 64
  {}

  /** The padding takes one more block. */
  lemma PaddingTwo<S>(f: (S, Block) -> S, s: S, m: seq<Octet>, t: seq<Octet>)
    requires t == Tail(m) && |t| + 1 > 56
    ensures |t + Filler(63 - |t|)| == 64 && |Zeros(56) + LengthOf(|m|)| == 64
    ensures f(f(Folded(f, s, m), t + Filler(63 - |t|)), Zeros(56) + LengthOf(|m|)) == Folded(f, s, m + Padding(|m|))
  {
    hide *;
    TailSize(m);
    Counts(|m|);
    FillerIs(63 - |t|);
    PaddingSplit(|m|, 63 - |t|);
    TwoBlocks(f, s, m, Filler(63 - |t|), Zeros(56) + LengthOf(|m|));
  }

  lemma FoldWhole<S>(f: (S, Block) -> S, s: S, m: seq<Octet>, b: Block)
    requires Tail(m) == []
    ensures Folded(f, s, m + b) == f(Folded(f, s, m), b)
  {
    hide *;
    FoldFull(f, s, m, b);
    assert Tail(m) + b == b;
  }

  lemma TwoBlocks<S>(f: (S, Block) -> S, s: S, m: seq<Octet>, p: seq<Octet>, q: seq<Octet>)
    requires |Tail(m)| + |p| == 64 && |q| == 64
    ensures f(f(Folded(f, s, m), Tail(m) + p), q) == Folded(f, s, m + (p + q))
  {
    hide *;
    var n := m + p;
    FoldFull(f, s, m, p);
    FoldWhole(f, s, n, q);
    assert n + q == m + (p + q);
  }
}
