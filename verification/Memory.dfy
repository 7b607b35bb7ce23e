/** A memory of bytes with little-endian words: pointers are addresses, and word accesses are aligned. */
module Memory {
  import opened Words
  import opened Bytes
  import Arithmetic

  // ---------------------------------------------------------------- words

  /** The little-endian word of four bytes. */
  function Word32(a: Octet, b: Octet, c: Octet, d: Octet): (w: nat)
    ensures w < 0x1_0000_0000
  {
    a + 0x100 * b + 0x1_0000 * c + 0x100_0000 * d
  }

  function Byte32(w: nat, i: nat): (b: Octet)
  {
    match i
    case 0 => w % 0x100
    case 1 => w / 0x100 % 0x100
    case 2 => w / 0x1_0000 % 0x100
    case _ => w / 0x100_0000 % 0x100
  }

  /** (w >> 8 k) | (x << 8 (4 - k)) for a shift of k = 4 - c bytes. */
  function Merged(w: nat, x: nat, c: nat): (m: nat)
    requires 1 <= c <= 3
  {
    if c == 1 then Or(32, x * 0x100 % 0x1_0000_0000, w / 0x100_0000)
    else if c == 2 then Or(32, x * 0x1_0000 % 0x1_0000_0000, w / 0x1_0000)
    else Or(32, x * 0x100_0000 % 0x1_0000_0000, w / 0x100)
  }

  lemma Powers()
    ensures Pow2(8) == 0x100 && Pow2(16) == 0x1_0000 && Pow2(24) == 0x100_0000 && Pow2(32) == 0x1_0000_0000
  {
    Pow2Values();
    assert Pow2(8) == 0x100;
    assert Pow2(24) == 0x100 * Pow2(16);
  }

  lemma ShiftedOne(x: nat, l: nat)
    requires l < 0x100
    ensures Or(32, x * 0x100 % 0x1_0000_0000, l) == x % 0x100_0000 * 0x100 + l
  {
    hide *;
    Powers();
    assert x == 0x100_0000 * (x / 0x100_0000) + x % 0x100_0000;
    Arithmetic.QuotientUnique(0x1_0000_0000, x / 0x100_0000, x % 0x100_0000 * 0x100);
    OrDisjoint(32, 8, x % 0x100_0000, l);
  }

  lemma ShiftedTwo(x: nat, l: nat)
    requires l < 0x1_0000
    ensures Or(32, x * 0x1_0000 % 0x1_0000_0000, l) == x % 0x1_0000 * 0x1_0000 + l
  {
    hide *;
    Powers();
    assert x == 0x1_0000 * (x / 0x1_0000) + x % 0x1_0000;
    Arithmetic.QuotientUnique(0x1_0000_0000, x / 0x1_0000, x % 0x1_0000 * 0x1_0000);
    OrDisjoint(32, 16, x % 0x1_0000, l);
  }

  lemma ShiftedThree(x: nat, l: nat)
    requires l < 0x100_0000
    ensures Or(32, x * 0x100_0000 % 0x1_0000_0000, l) == x % 0x100 * 0x100_0000 + l
  {
    hide *;
    Powers();
    assert x == 0x100 * (x / 0x100) + x % 0x100;
    Arithmetic.QuotientUnique(0x1_0000_0000, x / 0x100, x % 0x100 * 0x100_0000);
    OrDisjoint(32, 24, x % 0x100, l);
  }

  lemma WordParts(a: Octet, b: Octet, c: Octet, d: Octet)
    ensures Word32(a, b, c, d) / 0x100 == b + 0x100 * c + 0x1_0000 * d && Word32(a, b, c, d) % 0x100 == a
    ensures Word32(a, b, c, d) / 0x1_0000 == c + 0x100 * d && Word32(a, b, c, d) % 0x1_0000 == a + 0x100 * b
    ensures Word32(a, b, c, d) / 0x100_0000 == d && Word32(a, b, c, d) % 0x100_0000 == a + 0x100 * b + 0x1_0000 * c
  {
    Arithmetic.QuotientUnique(0x100, b + 0x100 * c + 0x1_0000 * d, a);
    Arithmetic.QuotientUnique(0x1_0000, c + 0x100 * d, a + 0x100 * b);
    Arithmetic.QuotientUnique(0x100_0000, d, a + 0x100 * b + 0x1_0000 * c);
  }

  lemma Byte32Is(w: nat)
    ensures Byte32(w, 0) == w % 0x100 && Byte32(w, 1) == w / 0x100 % 0x100
    ensures Byte32(w, 2) == w / 0x1_0000 % 0x100 && Byte32(w, 3) == w / 0x100_0000 % 0x100
  {}

  lemma BytesOfWord(a: Octet, b: Octet, c: Octet, d: Octet)
    ensures Byte32(Word32(a, b, c, d), 0) == a && Byte32(Word32(a, b, c, d), 1) == b
    ensures Byte32(Word32(a, b, c, d), 2) == c && Byte32(Word32(a, b, c, d), 3) == d
  {
    hide *;
    Byte32Is(Word32(a, b, c, d));
    WordParts(a, b, c, d);
    Arithmetic.QuotientUnique(0x100, c + 0x100 * d, b);
    Arithmetic.QuotientUnique(0x100, d, c);
    Arithmetic.QuotientUnique(0x100, 0, d);
  }

  lemma WordIs(a: Octet, b: Octet, c: Octet, d: Octet)
    ensures Word32(a, b, c, d) == a + 0x100 * b + 0x1_0000 * c + 0x100_0000 * d
  {}

  lemma MergedIs(w: nat, x: nat)
    ensures Merged(w, x, 1) == Or(32, x * 0x100 % 0x1_0000_0000, w / 0x100_0000)
    ensures Merged(w, x, 2) == Or(32, x * 0x1_0000 % 0x1_0000_0000, w / 0x1_0000)
    ensures Merged(w, x, 3) == Or(32, x * 0x100_0000 % 0x1_0000_0000, w / 0x100)
  {
    hide Or;
  }

  /** The merged word holds the last c bytes of the first word and the first 4 - c of the second. */
  lemma MergedBytes(a0: Octet, a1: Octet, a2: Octet, a3: Octet, b0: Octet, b1: Octet, b2: Octet, b3: Octet)
    ensures Merged(Word32(a0, a1, a2, a3), Word32(b0, b1, b2, b3), 1) == Word32(a3, b0, b1, b2)
    ensures Merged(Word32(a0, a1, a2, a3), Word32(b0, b1, b2, b3), 2) == Word32(a2, a3, b0, b1)
    ensures Merged(Word32(a0, a1, a2, a3), Word32(b0, b1, b2, b3), 3) == Word32(a1, a2, a3, b0)
  {
    hide *;
    var w, x := Word32(a0, a1, a2, a3), Word32(b0, b1, b2, b3);
    MergedIs(w, x);
    WordParts(a0, a1, a2, a3);
    WordParts(b0, b1, b2, b3);
    ShiftedOne(x, a3);
    ShiftedTwo(x, a2 + 0x100 * a3);
    ShiftedThree(x, a1 + 0x100 * a2 + 0x1_0000 * a3);
    WordIs(a3, b0, b1, b2);
    WordIs(a2, a3, b0, b1);
    WordIs(a1, a2, a3, b0);
  }

  /** An address at which a 32-bit access is aligned. */
  predicate Aligned(p: nat)
  {
    p % 4 == 0
  }

  lemma AlignedMore(p: nat)
    requires Aligned(p)
    ensures Aligned(p + 4) && Aligned(p + 8) && Aligned(p + 12) && Aligned(p + 16)
  {}

  function LoadAt(m: seq<Octet>, p: nat): (w: nat)
    requires p + 4 <= |m|
    ensures w < 0x1_0000_0000
  {
    Word32(m[p], m[p + 1], m[p + 2], m[p + 3])
  }

  /** The memory with the bytes s at p. */
  function Put(m: seq<Octet>, p: nat, s: seq<Octet>): (t: seq<Octet>)
    requires p + |s| <= |m|
    ensures |t| == |m|
  {
    m[..p] + s + m[p + |s|..]
  }

  /** *(u32 *)p = w */
  method Store32(mem: array<Octet>, p: nat, w: nat)
    requires Aligned(p) && p + 4 <= mem.Length
    modifies mem
    ensures mem[..] == Put(old(mem[..]), p, [Byte32(w, 0), Byte32(w, 1), Byte32(w, 2), Byte32(w, 3)])
  {
    hide Byte32;
    mem[p] := Byte32(w, 0);
    mem[p + 1] := Byte32(w, 1);
    mem[p + 2] := Byte32(w, 2);
    mem[p + 3] := Byte32(w, 3);
  }

  /** *(u32 *)p */
  method Load32(mem: array<Octet>, p: nat) returns (w: nat)
    requires Aligned(p) && p + 4 <= mem.Length
    ensures w == LoadAt(mem[..], p)
  {
    w := Word32(mem[p], mem[p + 1], mem[p + 2], mem[p + 3]);
  }
}
