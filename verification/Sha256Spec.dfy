/** SHA-256 as FIPS 180-4 defines it: the compression of section 6.2.2 and the hash of a message. */
module Sha256Spec {
  import opened Bytes
  import opened BlockHash
  import opened Sha256Words

  /** The eight working variables. */
  datatype Regs = Regs(a: bv32, b: bv32, c: bv32, d: bv32, e: bv32, f: bv32, g: bv32, h: bv32)

  function K0(i: nat): (k: bv32)
  {
    match i
    case 0 => 0x428a2f98 case 1 => 0x71374491 case 2 => 0xb5c0fbcf case 3 => 0xe9b5dba5
    case 4 => 0x3956c25b case 5 => 0x59f111f1 case 6 => 0x923f82a4 case _ => 0xab1c5ed5
  }

  function K1(i: nat): (k: bv32)
  {
    match i
    case 0 => 0xd807aa98 case 1 => 0x12835b01 case 2 => 0x243185be case 3 => 0x550c7dc3
    case 4 => 0x72be5d74 case 5 => 0x80deb1fe case 6 => 0x9bdc06a7 case _ => 0xc19bf174
  }

  function K2(i: nat): (k: bv32)
  {
    match i
    case 0 => 0xe49b69c1 case 1 => 0xefbe4786 case 2 => 0x0fc19dc6 case 3 => 0x240ca1cc
    case 4 => 0x2de92c6f case 5 => 0x4a7484aa case 6 => 0x5cb0a9dc case _ => 0x76f988da
  }

  function K3(i: nat): (k: bv32)
  {
    match i
    case 0 => 0x983e5152 case 1 => 0xa831c66d case 2 => 0xb00327c8 case 3 => 0xbf597fc7
    case 4 => 0xc6e00bf3 case 5 => 0xd5a79147 case 6 => 0x06ca6351 case _ => 0x14292967
  }

  function K4(i: nat): (k: bv32)
  {
    match i
    case 0 => 0x27b70a85 case 1 => 0x2e1b2138 case 2 => 0x4d2c6dfc case 3 => 0x53380d13
    case 4 => 0x650a7354 case 5 => 0x766a0abb case 6 => 0x81c2c92e case _ => 0x92722c85
  }

  function K5(i: nat): (k: bv32)
  {
    match i
    case 0 => 0xa2bfe8a1 case 1 => 0xa81a664b case 2 => 0xc24b8b70 case 3 => 0xc76c51a3
    case 4 => 0xd192e819 case 5 => 0xd6990624 case 6 => 0xf40e3585 case _ => 0x106aa070
  }

  function K6(i: nat): (k: bv32)
  {
    match i
    case 0 => 0x19a4c116 case 1 => 0x1e376c08 case 2 => 0x2748774c case 3 => 0x34b0bcb5
    case 4 => 0x391c0cb3 case 5 => 0x4ed8aa4a case 6 => 0x5b9cca4f case _ => 0x682e6ff3
  }

  function K7(i: nat): (k: bv32)
  {
    match i
    case 0 => 0x748f82ee case 1 => 0x78a5636f case 2 => 0x84c87814 case 3 => 0x8cc70208
    case 4 => 0x90befffa case 5 => 0xa4506ceb case 6 => 0xbef9a3f7 case _ => 0xc67178f2
  }

  /** The 64 constants of section 4.2.2. */
  function K(t: nat): (k: bv32)
  {
    var i := t % 8;
    match t / 8
    case 0 => K0(i) case 1 => K1(i) case 2 => K2(i) case 3 => K3(i)
    case 4 => K4(i) case 5 => K5(i) case 6 => K6(i) case _ => K7(i)
  }

  function Constants(): (k: seq<bv32>)
    ensures |k| == 64
  {
    seq(64, t requires 0 <= t < 64 => K(t))
  }

  /** The initial hash value of section 5.3.3. */
  function Initial(): (s: Regs)
  {
    Regs(0x6a09e667, 0xbb67ae85, 0x3c6ef372, 0xa54ff53a, 0x510e527f, 0x9b05688c, 0x1f83d9ab, 0x5be0cd19)
  }

  /** A big-endian word. */
  function WordAt(m: seq<Octet>, i: nat): (w: bv32)
    requires i + 4 <= |m|
  {
    ((m[i] as bv32) << 24) | ((m[i + 1] as bv32) << 16) | ((m[i + 2] as bv32) << 8) | (m[i + 3] as bv32)
  }

  /** The message schedule. */
  function W(b: Block, t: nat): (w: bv32)
    decreases t
  {
    if t < 16 then WordAt(b, 4 * t)
    else Add(Add(Add(SmallSigma1(W(b, t - 2)), W(b, t - 7)), SmallSigma0(W(b, t - 15))), W(b, t - 16))
  }

  function T1(r: Regs, k: bv32, w: bv32): (x: bv32) { Add(Add(Add(Add(r.h, BigSigma1(r.e)), Ch(r.e, r.f, r.g)), k), w) }

  function T2(r: Regs): (x: bv32) { Add(BigSigma0(r.a), Maj(r.a, r.b, r.c)) }

  /** One round. */
  function Round(r: Regs, k: bv32, w: bv32): (n: Regs)
  {
    Regs(Add(T1(r, k, w), T2(r)), r.a, r.b, r.c, Add(r.d, T1(r, k, w)), r.e, r.f, r.g)
  }

  /** The working variables after t rounds. */
  function Rounds(s: Regs, b: Block, t: nat): (r: Regs)
    requires t <= 64
    decreases t
  {
    if t == 0 then s else Round(Rounds(s, b, t - 1), Constants()[t - 1], W(b, t - 1))
  }

  function AddRegs(s: Regs, r: Regs): (n: Regs)
  {
    Regs(Add(s.a, r.a), Add(s.b, r.b), Add(s.c, r.c), Add(s.d, r.d), Add(s.e, r.e), Add(s.f, r.f), Add(s.g, r.g), Add(s.h, r.h))
  }

  function RoundCount(): (n: nat)
    ensures n == 64
  {
    64
  }

  function Compressed(s: Regs, b: Block): (n: Regs)
  {
    AddRegs(s, Rounds(s, b, RoundCount()))
  }

  /** The compression as a function value. */
  function Compression(): (f: (Regs, Block) -> Regs)
  {
    (s: Regs, b: Block) => Compressed(s, b)
  }

  /** The hash value of a message. */
  function HashValue(m: seq<Octet>): (s: Regs)
  {
    Folded(Compression(), Initial(), m + Padding(|m|))
  }

  /** Octet i of a word, the high byte first. */
  function WordByte(w: bv32, i: nat): (b: Octet)
    requires i < 4
  {
    match i
    case 0 => ((w >> 24) & 0xff) as int
    case 1 => ((w >> 16) & 0xff) as int
    case 2 => ((w >> 8) & 0xff) as int
    case _ => (w & 0xff) as int
  }

  function Register(s: Regs, i: nat): (w: bv32)
    requires i < 8
  {
    match i
    case 0 => s.a case 1 => s.b case 2 => s.c case 3 => s.d
    case 4 => s.e case 5 => s.f case 6 => s.g case _ => s.h
  }

  /** The digest: the words of the hash value, the high byte first. */
  function DigestOf(s: Regs): (d: seq<Octet>)
    ensures |d| == 32
  {
    seq(32, i requires 0 <= i < 32 => WordByte(Register(s, i / 4), i % 4))
  }

  // ---------------------------------------------------------------- the order of the bytes

  /** The first byte of a word counts most. */
  lemma BigEndian(b0: Octet, b1: Octet, b2: Octet, b3: Octet)
    ensures WordAt([b0, b1, b2, b3], 0)
         == (((b0 as bv32) * 256 + (b1 as bv32)) * 256 + (b2 as bv32)) * 256 + (b3 as bv32)
  {
    OctetSmall(b0);
    OctetSmall(b1);
    OctetSmall(b2);
    OctetSmall(b3);
    var x0, x1, x2, x3 := b0 as bv32, b1 as bv32, b2 as bv32, b3 as bv32;
    Places(x0, x1, x2, x3);
  }

  lemma OctetSmall(b: Octet)
    ensures (b as bv32) < 256
  {}

  lemma Places(a: bv32, b: bv32, c: bv32, d: bv32)
    requires a < 256 && b < 256 && c < 256 && d < 256
    ensures (a << 24) | (b << 16) | (c << 8) | d == ((a * 256 + b) * 256 + c) * 256 + d
  {
    hide *;
  }

  /** The bytes of a word in the digest make up the word again. */
  lemma DigestBytes(w: bv32)
    ensures WordAt([WordByte(w, 0), WordByte(w, 1), WordByte(w, 2), WordByte(w, 3)], 0) == w
  {
    hide *;
    WordBytes(w);
    Joined(w);
    WordAtIs(WordByte(w, 0), WordByte(w, 1), WordByte(w, 2), WordByte(w, 3));
  }

  lemma WordAtIs(b0: Octet, b1: Octet, b2: Octet, b3: Octet)
    ensures WordAt([b0, b1, b2, b3], 0) == ((b0 as bv32) << 24) | ((b1 as bv32) << 16) | ((b2 as bv32) << 8) | (b3 as bv32)
  {}

  lemma WordBytes(w: bv32)
    ensures (WordByte(w, 0) as bv32) == (w >> 24) & 0xff && (WordByte(w, 1) as bv32) == (w >> 16) & 0xff
    ensures (WordByte(w, 2) as bv32) == (w >> 8) & 0xff && (WordByte(w, 3) as bv32) == w & 0xff
  {
    hide *;
    WordByte0(w);
    WordByte1(w);
    WordByte2(w);
    WordByte3(w);
  }

  lemma WordByte0(w: bv32) ensures (WordByte(w, 0) as bv32) == (w >> 24) & 0xff { ThereAndBack((w >> 24) & 0xff); }

  lemma WordByte1(w: bv32) ensures (WordByte(w, 1) as bv32) == (w >> 16) & 0xff { ThereAndBack((w >> 16) & 0xff); }

  lemma WordByte2(w: bv32) ensures (WordByte(w, 2) as bv32) == (w >> 8) & 0xff { ThereAndBack((w >> 8) & 0xff); }

  lemma WordByte3(w: bv32) ensures (WordByte(w, 3) as bv32) == w & 0xff { ThereAndBack(w & 0xff); }

  lemma ThereAndBack(v: bv32)
    ensures ((v as int) as bv32) == v
  {}

  lemma Joined(w: bv32)
    ensures (((w >> 24) & 0xff) << 24) | (((w >> 16) & 0xff) << 16) | (((w >> 8) & 0xff) << 8) | (w & 0xff) == w
  {
    hide *;
  }
}
