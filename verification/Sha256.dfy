/** The SHA-256 context: a message that arrives in any pieces is hashed as a whole. */
module Sha256 {
  import opened Bytes
  import opened Sequences
  import opened BlockHash
  import opened Sha256Spec
  import opened Sha256Compress
  import Arithmetic

  /** Arithmetic on 64 bits. */
  const TWO64: nat := 0x1_0000_0000_0000_0000

  /** memcpy(dst + at, src + from, n) */
  method CopyInto(dst: array<Octet>, at: nat, src: seq<Octet>, from: nat, n: nat)
    requires at + n <= dst.Length && from + n <= |src|
    modifies dst
    ensures dst[..at] == old(dst[..at]) && dst[at..at + n] == src[from..from + n] && dst[at + n..] == old(dst[at + n..])
  {
    var i := 0;
    while i < n
      invariant 0 <= i <= n && dst[..at] == old(dst[..at]) && dst[at + n..] == old(dst[at + n..])
      invariant forall k :: at <= k < at + i ==> dst[k] == src[from + (k - at)]
    {
      dst[at + i] := src[from + i];
      i := i + 1;
    }
  }

  /** memset(dst + at, 0, n) */
  method Clear(dst: array<Octet>, at: nat, n: nat)
    requires at + n <= dst.Length
    modifies dst
    ensures dst[..at] == old(dst[..at]) && dst[at..at + n] == Zeros(n) && dst[at + n..] == old(dst[at + n..])
  {
    var i := 0;
    while i < n
      invariant 0 <= i <= n && dst[..at] == old(dst[..at]) && dst[at + n..] == old(dst[at + n..])
      invariant forall k :: at <= k < at + i ==> dst[k] == 0
    {
      dst[at + i] := 0;
      i := i + 1;
    }
  }

  /** WRITE_UINT64(p, i) */
  method WriteUint64(dst: array<Octet>, at: nat, n: nat)
    requires at + 8 <= dst.Length && n < TWO64
    modifies dst
    ensures dst[..at] == old(dst[..at]) && dst[at..at + 8] == Length64(n) && dst[at + 8..] == old(dst[at + 8..])
  {
    hide LengthByte;
    dst[at] := LengthByte(n, 0);
    dst[at + 1] := LengthByte(n, 1);
    dst[at + 2] := LengthByte(n, 2);
    dst[at + 3] := LengthByte(n, 3);
    dst[at + 4] := LengthByte(n, 4);
    dst[at + 5] := LengthByte(n, 5);
    dst[at + 6] := LengthByte(n, 6);
    dst[at + 7] := LengthByte(n, 7);
    assert dst[at..at + 8] == Length64(n);
  }

  // ---------------------------------------------------------------- the digest bytes

  lemma DigestAt(s: seq<bv32>, i: nat)
    requires |s| == 8 && i < 32
    ensures DigestOf(RegsOf(s))[i] == WordByte(s[i / 4], i % 4)
  {
    hide WordByte;
  }

  /** WRITE_UINT32(p, i) */
  method WriteUint32(dst: array<Octet>, at: nat, w: bv32)
    requires at + 4 <= dst.Length
    modifies dst
    ensures forall k :: at <= k < at + 4 ==> dst[k] == WordByte(w, k - at)
    ensures forall k :: 0 <= k < dst.Length && !(at <= k < at + 4) ==> dst[k] == old(dst[k])
  {
    hide WordByte;
    dst[at] := WordByte(w, 0);
    dst[at + 1] := WordByte(w, 1);
    dst[at + 2] := WordByte(w, 2);
    dst[at + 3] := WordByte(w, 3);
  }

  /** The switch on the number of bytes of the last word. */
  method WriteSome(dst: array<Octet>, at: nat, w: bv32, leftover: nat)
    requires 0 < leftover < 4 && at + leftover <= dst.Length
    modifies dst
    ensures forall k :: at <= k < at + leftover ==> dst[k] == WordByte(w, k - at)
    ensures forall k :: 0 <= k < dst.Length && !(at <= k < at + leftover) ==> dst[k] == old(dst[k])
  {
    hide WordByte;
    if leftover == 3 { dst[at + 2] := WordByte(w, 2); }
    if leftover >= 2 { dst[at + 1] := WordByte(w, 1); }
    dst[at] := WordByte(w, 0);
  }

  lemma DigestWord(s: seq<bv32>, i: nat)
    requires |s| == 8 && i < 8
    ensures forall k :: 4 * i <= k < 4 * i + 4 ==> DigestOf(RegsOf(s))[k] == WordByte(s[i], k - 4 * i)
  {
    hide WordByte, DigestOf, RegsOf;
    DigestAt(s, 4 * i);
    DigestAt(s, 4 * i + 1);
    DigestAt(s, 4 * i + 2);
    DigestAt(s, 4 * i + 3);
  }

  /** _nettle_write_be32(length, dst, src): the digest is cut after length bytes, inside a word if need be. */
  method WriteBe32(length: nat, dst: array<Octet>, src: seq<bv32>)
    requires |src| == 8 && length <= 32 && length <= dst.Length
    modifies dst
    ensures dst[..length] == DigestOf(RegsOf(src))[..length] && dst[length..] == old(dst[length..])
  {
    hide WordByte, DigestOf, RegsOf;
    ghost var d := DigestOf(RegsOf(src));
    var words, leftover := length / 4, length % 4;
    var i := 0;
    while i < words
      invariant 0 <= i <= words
      invariant forall k :: 0 <= k < 4 * i ==> dst[k] == d[k]
      invariant forall k :: length <= k < dst.Length ==> dst[k] == old(dst[k])
    {
      DigestWord(src, i);
      WriteUint32(dst, 4 * i, src[i]);
      i := i + 1;
    }
    if leftover != 0 {
      DigestWord(src, i);
      WriteSome(dst, 4 * i, src[i], leftover);
    }
  }

  // ---------------------------------------------------------------- the context

  lemma CompressionIs(s: Regs, b: Block)
    ensures Compression()(s, b) == Compressed(s, b)
  {
    hide Compressed;
  }

  /** The number of full blocks, on 64 bits. */
  function CountOf(m: seq<Octet>): (c: nat)
  {
    |m| / 64 % TWO64
  }

  /** The bit count that the code puts together from the block count and the index. */
  lemma BitCount(n: nat)
    ensures (n / 64 % TWO64 * 512) % TWO64 + n % 64 * 8 == 8 * n % TWO64
  {
    var q, i := n / 64, n % 64;
    var c, k := q % 0x1_0000_0000_0000_0000, q / 0x1_0000_0000_0000_0000;
    var h, l := c / 0x80_0000_0000_0000, c % 0x80_0000_0000_0000;
    assert n == 64 * q + i && q == 0x1_0000_0000_0000_0000 * k + c && c == 0x80_0000_0000_0000 * h + l;
    hide *;
    Arithmetic.QuotientUnique(0x1_0000_0000_0000_0000, h, 512 * l);
    Arithmetic.QuotientUnique(0x1_0000_0000_0000_0000, 512 * k + h, 512 * l + 8 * i);
  }

  /** memcpy(state, r, sizeof(state)) */
  method StoreRegs(state: array<bv32>, r: Regs)
    requires state.Length == 8
    modifies state
    ensures RegsOf(state[..]) == r
  {
    hide *;
    state[0] := r.a;
    state[1] := r.b;
    state[2] := r.c;
    state[3] := r.d;
    state[4] := r.e;
    state[5] := r.f;
    state[6] := r.g;
    state[7] := r.h;
    RegsOfIs(state[..]);
  }

  /** count++ */
  function CountUp(c: nat): (d: nat)
  {
    (c + 1) % TWO64
  }

  class Context {
    const state: array<bv32>
    const block: array<Octet>
    var count: nat
    var index: nat

    ghost predicate Shape()
      reads this
    {
      state.Length == 8 && block.Length == 64 && index < 64 && state as object != block as object
    }

    /** The context has taken in m. */
    ghost predicate Taken(m: seq<Octet>)
      reads this, state, block
    {
      && Shape() && RegsOf(state[..]) == Folded(Compression(), Initial(), m)
      && block[..index] == Tail(m) && count == CountOf(m)
    }

    /** sha256_init for a new context */
    constructor ()
      ensures Taken([]) && fresh(state) && fresh(block)
    {
      state := new bv32[8](_ => 0);
      block := new Octet[64](_ => 0);
      index := 0;
      count := 0;
      new;
      Init();
    }

    /** sha256_init */
    method Init()
      requires state.Length == 8 && block.Length == 64
      modifies this, state
      ensures Taken([])
    {
      hide *;
      StoreRegs(state, Initial());
      count := 0;
      index := 0;
      TakenNone();
    }

    lemma TakenNone()
      requires state.Length == 8 && block.Length == 64 && RegsOf(state[..]) == Initial() && count == 0 && index == 0
      ensures Taken([])
    {
      hide Initial, RegsOf, Compressed;
    }

    /** The values behind Taken. */
    ghost predicate Holds(r: Regs, t: seq<Octet>, c: nat)
      reads this, state, block
    {
      Shape() && RegsOf(state[..]) == r && block[..index] == t && count == c
    }

    lemma TakenIs(m: seq<Octet>)
      ensures Taken(m) <==> Holds(Folded(Compression(), Initial(), m), Tail(m), CountOf(m))
    {}

    /** COMPRESS(ctx, data) */
    method CompressBlock(b: Block)
      requires state.Length == 8
      modifies state
      ensures RegsOf(state[..]) == Compression()(old(RegsOf(state[..])), b)
    {
      hide *;
      CompressionIs(RegsOf(state[..]), b);
      Compress(state, b);
    }

    /** The bytes that do not fill the block are kept: memcpy(block + index, data, n), index += n. */
    method Keep(data: seq<Octet>, from: nat, n: nat, ghost m: seq<Octet>)
      requires from + n <= |data| && Taken(m) && index + n < 64
      modifies this, block
      ensures Taken(m + data[from..from + n])
    {
      hide *;
      ghost var b := data[from..from + n];
      TakenIs(m);
      HoldsIs(Folded(Compression(), Initial(), m), Tail(m), CountOf(m));
      FoldPart(Compression(), Initial(), m, b);
      CountSame(m, b);
      CopyInto(block, index, data, from, n);
      index := index + n;
      assert block[..index] == block[..index - n] + block[index - n..index - n + n];
      HoldsFrom(Folded(Compression(), Initial(), m + b), Tail(m + b), CountOf(m + b));
      TakenIs(m + b);
    }

    /** f(ctx, data), incr: a full block that comes straight from the data. */
    method WholeBlock(b: Block, ghost m: seq<Octet>)
      requires Taken(m) && index == 0
      modifies this, state
      ensures Taken(m + b) && index == 0
    {
      hide *;
      TakenIs(m);
      HoldsIs(Folded(Compression(), Initial(), m), Tail(m), CountOf(m));
      FoldFull(Compression(), Initial(), m, b);
      CountNext(m, b);
      assert Tail(m) + b == b;
      CompressBlock(b);
      count := CountUp(count);
      HoldsFrom(Folded(Compression(), Initial(), m + b), Tail(m + b), CountOf(m + b));
      TakenIs(m + b);
    }

    /** The partial block is filled and compressed. The code leaves the old index in place until the end
        of the update; nothing reads it in between. */
    method FillBlock(data: seq<Octet>, from: nat, n: nat, ghost m: seq<Octet>)
      requires from + n <= |data| && Taken(m) && index + n == 64
      modifies this, state, block
      ensures Taken(m + data[from..from + n]) && index == 0
    {
      hide *;
      ghost var b := data[from..from + n];
      TakenIs(m);
      HoldsIs(Folded(Compression(), Initial(), m), Tail(m), CountOf(m));
      FoldFull(Compression(), Initial(), m, b);
      CountNext(m, b);
      ghost var t := state[..];
      CopyInto(block, index, data, from, n);
      assert block[..] == block[..index] + block[index..index + n];
      assert state[..] == t;
      CompressBlock(block[..]);
      count := CountUp(count);
      index := 0;
      HoldsFrom(Folded(Compression(), Initial(), m + b), Tail(m + b), CountOf(m + b));
      TakenIs(m + b);
    }

    /** sha256_update(ctx, length, data): the data is appended to the message. */
    method Update(data: seq<Octet>, ghost m: seq<Octet>)
      requires Taken(m)
      modifies this, state, block
      ensures Taken(m + data)
    {
      hide *;
      IndexSmall(m);
      var k := 0;
      ghost var done := m;
      if index != 0 {
        var left := 64 - index;
        if |data| < left {
          Keep(data, 0, |data|, m);
          assert data[0..0 + |data|] == data;
          return;
        }
        FillBlock(data, 0, left, m);
        k := left;
        done := m + data[0..0 + left];
      }
      assert done == m + data[..k];
      while |data| - k >= 64
        invariant 0 <= k <= |data| && done == m + data[..k] && Taken(done) && index == 0
      {
        WholeBlock(data[k..k + 64], done);
        assert done + data[k..k + 64] == m + data[..k + 64];
        done, k := done + data[k..k + 64], k + 64;
      }
      Keep(data, k, |data| - k, done);
      assert done + data[k..k + (|data| - k)] == m + data;
    }

    /** MD_PAD(ctx, 8, COMPRESS) for a message whose last block has room for the length or not: what is in
        the block then, with the length still to come, completes the padding. */
    method Pad(ghost m: seq<Octet>)
      requires Taken(m)
      modifies state, block
      ensures block.Length == 64 && state.Length == 8 && state as object != block as object && index == |Tail(m)| && count == CountOf(m)
      ensures Compression()(RegsOf(state[..]), block[..56] + LengthOf(|m|)) == HashValue(m)
    {
      hide *;
      TakenIs(m);
      HoldsIs(Folded(Compression(), Initial(), m), Tail(m), CountOf(m));
      var i := index;
      ghost var t := block[..index];
      block[i] := 0x80;
      i := i + 1;
      HashValueIs(m);
      if i > 56 {
        Clear(block, i, 64 - i);
        PaddingTwo(Compression(), Initial(), m, t);
        FilledBlock(63 - |t|, t, block[..]);
        CompressBlock(block[..]);
        i := 0;
        Clear(block, 0, 56);
        assert block[..56] == block[0..0 + 56];
      } else {
        Clear(block, i, 56 - i);
        PaddingOne(Compression(), Initial(), m, t);
        FilledBlock(55 - |t|, t, block[..56]);
      }
    }

    /** sha256_write_digest(ctx, length, digest) */
    method WriteDigest(length: nat, digest: array<Octet>, ghost m: seq<Octet>)
      requires Taken(m) && length <= 32 && length <= digest.Length && digest != block && digest as object != state as object
      modifies state, block, digest
      ensures digest[..length] == DigestOf(HashValue(m))[..length] && digest[length..] == old(digest[length..])
      ensures state.Length == 8 && block.Length == 64 && state as object != block as object
    {
      hide *;
      Pad(m);
      TailSize(m);
      BitCountIs(m);
      var bitCount := BitsOf(count, index);
      ghost var b := block[..56];
      WriteUint64(block, 56, bitCount);
      assert block[..] == b + block[56..56 + 8];
      CompressBlock(block[..]);
      WriteBe32(length, digest, state[..]);
    }

    /** sha256_digest(ctx, length, digest): the first bytes of the digest of the whole message, and a
        context that is ready for the next one. */
    method Digest(length: nat, digest: array<Octet>, ghost m: seq<Octet>)
      requires Taken(m) && length <= 32 && length <= digest.Length && digest != block && digest as object != state as object
      modifies this, state, block, digest
      ensures digest[..length] == DigestOf(HashValue(m))[..length] && digest[length..] == old(digest[length..])
      ensures Taken([])
    {
      hide *;
      WriteDigest(length, digest, m);
      Init();
    }

    lemma IndexSmall(m: seq<Octet>)
      requires Taken(m)
      ensures index < 64
    {
      hide RegsOf, Compression, Initial;
    }

    lemma HoldsIs(r: Regs, t: seq<Octet>, c: nat)
      requires Holds(r, t, c)
      ensures state.Length == 8 && block.Length == 64 && index < 64 && index == |t| && RegsOf(state[..]) == r && block[..index] == t && count == c
    {
      hide RegsOf;
    }

    lemma HoldsFrom(r: Regs, t: seq<Octet>, c: nat)
      requires state.Length == 8 && block.Length == 64 && index < 64 && RegsOf(state[..]) == r && block[..index] == t && count == c
      ensures Holds(r, t, c)
    {
      hide RegsOf;
    }
  }

  /** (count << 9) | (index << 3): the two parts have no bit in common. */
  function BitsOf(count: nat, index: nat): (n: nat)
  {
    count * 512 % TWO64 + index * 8
  }

  lemma BitCountIs(m: seq<Octet>)
    ensures Length64(BitsOf(CountOf(m), |m| % 64)) == LengthOf(|m|) && BitsOf(CountOf(m), |m| % 64) < TWO64
  {
    BitCount(|m|);
  }

  lemma FilledBlock(n: nat, t: seq<Octet>, b: seq<Octet>)
    requires |b| == |t| + 1 + n && b[..|t|] == t && b[|t|] == 0x80 && b[|t| + 1..|t| + 1 + n] == Zeros(n)
    ensures b == t + Filler(n)
  {
    hide Zeros;
    assert b == b[..|t|] + [b[|t|]] + b[|t| + 1..|t| + 1 + n];
  }

  lemma HashValueIs(m: seq<Octet>)
    ensures HashValue(m) == Folded(Compression(), Initial(), m + Padding(|m|)) && TWO64 == 0x1_0000_0000_0000_0000
  {
    hide Folded, Compression, Initial, Padding;
  }

  lemma CountNext(m: seq<Octet>, b: seq<Octet>)
    requires |Tail(m)| + |b| == 64
    ensures CountUp(CountOf(m)) == CountOf(m + b)
  {
    var q := |m| / 64;
    var c, k := q % 0x1_0000_0000_0000_0000, q / 0x1_0000_0000_0000_0000;
    assert |m + b| / 64 == q + 1 && q == 0x1_0000_0000_0000_0000 * k + c;
    hide Tail;
    if c + 1 < 0x1_0000_0000_0000_0000 {
      Arithmetic.QuotientUnique(0x1_0000_0000_0000_0000, k, c + 1);
    } else {
      Arithmetic.QuotientUnique(0x1_0000_0000_0000_0000, k + 1, 0);
    }
  }

  lemma CountSame(m: seq<Octet>, b: seq<Octet>)
    requires |Tail(m)| + |b| < 64
    ensures CountOf(m) == CountOf(m + b)
  {
    assert |m + b| / 64 == |m| / 64;
  }

  /** init, any updates, digest: the digest of the concatenated pieces. */
  method HashPieces(pieces: seq<seq<Octet>>, length: nat) returns (digest: seq<Octet>)
    requires length <= 32
    ensures digest == DigestOf(HashValue(Concat(pieces)))[..length]
  {
    hide *;
    var c := new Context();
    var out := new Octet[32](_ => 0);
    var k := 0;
    ghost var m := [];
    ConcatNone<Octet>();
    assert pieces[..0] == [];
    while k < |pieces|
      invariant 0 <= k <= |pieces| && m == Concat(pieces[..k]) && c.Taken(m)
      invariant fresh(c) && fresh(c.state) && fresh(c.block) && out != c.block && out as object != c.state as object
    {
      c.Update(pieces[k], m);
      ConcatStep(pieces, k);
      m := m + pieces[k];
      k := k + 1;
    }
    assert pieces[..k] == pieces;
    c.Digest(length, out, m);
    digest := out[..length];
  }
}
