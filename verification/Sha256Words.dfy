/** The functions of section 4.1.2 of FIPS 180-4 on 32-bit words, and the forms in which the code writes
    them. */
module Sha256Words {
  function Ch(x: bv32, y: bv32, z: bv32): (r: bv32) { (x & y) ^ (!x & z) }

  function Maj(x: bv32, y: bv32, z: bv32): (r: bv32) { (x & y) ^ (x & z) ^ (y & z) }

  /** The four functions that combine rotations to the right. */
  function BigSigma0(x: bv32): (r: bv32) { ((x >> 2) | (x << 30)) ^ ((x >> 13) | (x << 19)) ^ ((x >> 22) | (x << 10)) }

  function BigSigma1(x: bv32): (r: bv32) { ((x >> 6) | (x << 26)) ^ ((x >> 11) | (x << 21)) ^ ((x >> 25) | (x << 7)) }

  function SmallSigma0(x: bv32): (r: bv32) { ((x >> 7) | (x << 25)) ^ ((x >> 18) | (x << 14)) ^ (x >> 3) }

  function SmallSigma1(x: bv32): (r: bv32) { ((x >> 17) | (x << 15)) ^ ((x >> 19) | (x << 13)) ^ (x >> 10) }

  /** Addition modulo 2^32. */
  function Add(a: bv32, b: bv32): (c: bv32) { a + b }

  function Choice(x: bv32, y: bv32, z: bv32): (r: bv32) { z ^ (x & (y ^ z)) }

  function Majority(x: bv32, y: bv32, z: bv32): (r: bv32) { (x & y) ^ (z & (x ^ y)) }

  /** S0, S1, s0 and s1, with the rotations to the left of ROTL32. */
  function S0(x: bv32): (r: bv32) { ((x << 30) | (x >> 2)) ^ ((x << 19) | (x >> 13)) ^ ((x << 10) | (x >> 22)) }

  function S1(x: bv32): (r: bv32) { ((x << 26) | (x >> 6)) ^ ((x << 21) | (x >> 11)) ^ ((x << 7) | (x >> 25)) }

  function Little0(x: bv32): (r: bv32) { ((x << 25) | (x >> 7)) ^ ((x << 14) | (x >> 18)) ^ (x >> 3) }

  function Little1(x: bv32): (r: bv32) { ((x << 15) | (x >> 17)) ^ ((x << 13) | (x >> 19)) ^ (x >> 10) }

  lemma ChoiceIs(x: bv32, y: bv32, z: bv32)
    ensures Choice(x, y, z) == Ch(x, y, z)
  {
    hide *;
    ChoiceBits(x, y, z);
    ChoiceOpen(x, y, z);
  }

  lemma ChoiceBits(x: bv32, y: bv32, z: bv32)
    ensures z ^ (x & (y ^ z)) == (x & y) ^ (!x & z)
  {
    hide *;
  }

  lemma ChoiceOpen(x: bv32, y: bv32, z: bv32)
    ensures Choice(x, y, z) == z ^ (x & (y ^ z))
    ensures Ch(x, y, z) == (x & y) ^ (!x & z)
  {}

  lemma MajorityIs(x: bv32, y: bv32, z: bv32)
    ensures Majority(x, y, z) == Maj(x, y, z)
  {
    hide *;
    MajorityBits(x, y, z);
    MajorityOpen(x, y, z);
  }

  lemma MajorityBits(x: bv32, y: bv32, z: bv32)
    ensures (x & y) ^ (z & (x ^ y)) == (x & y) ^ (x & z) ^ (y & z)
  {
    hide *;
  }

  lemma MajorityOpen(x: bv32, y: bv32, z: bv32)
    ensures Majority(x, y, z) == (x & y) ^ (z & (x ^ y))
    ensures Maj(x, y, z) == (x & y) ^ (x & z) ^ (y & z)
  {}

  lemma S0Is(x: bv32) ensures S0(x) == BigSigma0(x) {}

  lemma S1Is(x: bv32) ensures S1(x) == BigSigma1(x) {}

  lemma Little0Is(x: bv32) ensures Little0(x) == SmallSigma0(x) {}

  lemma Little1Is(x: bv32) ensures Little1(x) == SmallSigma1(x) {}

  lemma AddLaws(a: bv32, b: bv32, c: bv32)
    ensures Add(Add(a, b), c) == Add(a, Add(b, c)) && Add(a, b) == Add(b, a)
  {}

  lemma FiveAdded(h: bv32, s: bv32, c: bv32, k: bv32, w: bv32)
    ensures Add(h, Add(Add(Add(s, c), k), w)) == Add(Add(Add(Add(h, s), c), k), w)
  {
    hide Add;
    AddLaws(h, Add(Add(s, c), k), w);
    AddLaws(h, Add(s, c), k);
    AddLaws(h, s, c);
  }

  lemma FourAdded(w: bv32, x: bv32, y: bv32, z: bv32)
    ensures Add(w, Add(Add(x, y), z)) == Add(Add(Add(x, y), z), w)
  {
    AddLaws(w, Add(x, y), z);
    hide Add;
    AddLaws(Add(Add(x, y), z), w, w);
  }
}
