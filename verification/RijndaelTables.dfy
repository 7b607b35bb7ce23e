/** The substitution tables of Rijndael, a word of sixteen entries for each row, and the proofs that the one inverts
    the other and that the first is an affine map of the inverse in the field of 256 elements. */
module RijndaelTables {

  /** Sbox[h], the entry of column 0 first */
  function SboxRow(h: bv8): (r: bv128)
  {
    if h == 0x0 then 0x637c777bf26b6fc53001672bfed7ab76
    else if h == 0x1 then 0xca82c97dfa5947f0add4a2af9ca472c0
    else if h == 0x2 then 0xb7fd9326363ff7cc34a5e5f171d83115
    else if h == 0x3 then 0x04c723c31896059a071280e2eb27b275
    else if h == 0x4 then 0x09832c1a1b6e5aa0523bd6b329e32f84
    else if h == 0x5 then 0x53d100ed20fcb15b6acbbe394a4c58cf
    else if h == 0x6 then 0xd0efaafb434d338545f9027f503c9fa8
    else if h == 0x7 then 0x51a3408f929d38f5bcb6da2110fff3d2
    else if h == 0x8 then 0xcd0c13ec5f974417c4a77e3d645d1973
    else if h == 0x9 then 0x60814fdc222a908846eeb814de5e0bdb
    else if h == 0xa then 0xe0323a0a4906245cc2d3ac629195e479
    else if h == 0xb then 0xe7c8376d8dd54ea96c56f4ea657aae08
    else if h == 0xc then 0xba78252e1ca6b4c6e8dd741f4bbd8b8a
    else if h == 0xd then 0x703eb5664803f60e613557b986c11d9e
    else if h == 0xe then 0xe1f8981169d98e949b1e87e9ce5528df
    else 0x8ca1890dbfe6426841992d0fb054bb16
  }

  /** Sbox[h][l] */
  function Sbox(h: bv8, l: bv8): (v: bv8)
  {
    ((SboxRow(h) >> (120 - 8 * (l & 0xf))) & 0xff) as bv8
  }

  /** invSbox[h], the entry of column 0 first */
  function InvSboxRow(h: bv8): (r: bv128)
  {
    if h == 0x0 then 0x52096ad53036a538bf40a39e81f3d7fb
    else if h == 0x1 then 0x7ce339829b2fff87348e4344c4dee9cb
    else if h == 0x2 then 0x547b9432a6c2233dee4c950b42fac34e
    else if h == 0x3 then 0x082ea16628d924b2765ba2496d8bd125
    else if h == 0x4 then 0x72f8f66486689816d4a45ccc5d65b692
    else if h == 0x5 then 0x6c704850fdedb9da5e154657a78d9d84
    else if h == 0x6 then 0x90d8ab008cbcd30af7e45805b8b34506
    else if h == 0x7 then 0xd02c1e8fca3f0f02c1afbd0301138a6b
    else if h == 0x8 then 0x3a9111414f67dcea97f2cfcef0b4e673
    else if h == 0x9 then 0x96ac7422e7ad3585e2f937e81c75df6e
    else if h == 0xa then 0x47f11a711d29c5896fb7620eaa18be1b
    else if h == 0xb then 0xfc563e4bc6d279209adbc0fe78cd5af4
    else if h == 0xc then 0x1fdda8338807c731b11210592780ec5f
    else if h == 0xd then 0x60517fa919b54a0d2de57a9f93c99cef
    else if h == 0xe then 0xa0e03b4dae2af5b0c8ebbb3c83539961
    else 0x172b047eba77d626e169146355210c7d
  }

  /** invSbox[h][l] */
  function InvSbox(h: bv8, l: bv8): (v: bv8)
  {
    ((InvSboxRow(h) >> (120 - 8 * (l & 0xf))) & 0xff) as bv8
  }

  // ---------------------------------------------------------------- the field of 256 elements

  /** The product with x, modulo x^8 + x^4 + x^3 + x + 1. */
  function Double(p: bv8): (r: bv8)
  {
    if p & 0x80 == 0 then p << 1 else (p << 1) ^ 0x1b
  }

  function Masked(q: bv8, m: bv8, p: bv8): (r: bv8)
  {
    if q & m == 0 then 0 else p
  }

  function Next(r: bv8, m: bv8): (s: bv8)
  {
    Double(r) ^ m
  }

  /** p times q, from the highest bit of q down. */
  function Mul(p: bv8, q: bv8): (r: bv8)
  {
    Next(Next(Next(Next(Next(Next(Next(Masked(q, 0x80, p), Masked(q, 0x40, p)), Masked(q, 0x20, p)), Masked(q, 0x10, p)),
         Masked(q, 0x08, p)), Masked(q, 0x04, p)), Masked(q, 0x02, p)), Masked(q, 0x01, p))
  }

  /** Bit i is the sum of the bits i, i + 4, i + 5, i + 6 and i + 7 modulo 8, and of bit i of 0x63. */
  function Affine(y: bv8): (s: bv8)
  {
    y ^ ((y << 4) | (y >> 4)) ^ ((y << 3) | (y >> 5)) ^ ((y << 2) | (y >> 6)) ^ ((y << 1) | (y >> 7)) ^ 0x63
  }

  /** The inverse map. */
  function Unaffine(s: bv8): (y: bv8)
  {
    ((s << 1) | (s >> 7)) ^ ((s << 3) | (s >> 5)) ^ ((s << 6) | (s >> 2)) ^ 0x05
  }

  lemma AffineBack(s: bv8)
    ensures Affine(Unaffine(s)) == s
  {}

  /** The place that the entry s stands at, and the inverse of it that s determines. */
  predicate Substitutes(x: bv8, s: bv8)
  {
    var y := Unaffine(s);
    if x == 0 then y == 0 else Mul(x, y) == 1
  }


  /** Every entry is the affine map of the inverse of its place, where zero stands for its own inverse. */
  lemma SboxAffine(x: bv8)
    ensures Substitutes(x, Sbox(x >> 4, x & 0xf))
  {
    hide *;
    if x < 0x80 { SboxLow(x); } else { SboxHigh(x); }
  }

  lemma SboxLow(x: bv8)
    requires x < 0x80
    ensures Substitutes(x, Sbox(x >> 4, x & 0xf))
  {}

  lemma SboxHigh(x: bv8)
    requires x >= 0x80
    ensures Substitutes(x, Sbox(x >> 4, x & 0xf))
  {}

  /** Substituting and substituting back, for every byte. */
  lemma TablesInverse(x: bv8)
    ensures var s := Sbox(x >> 4, x & 0xf); InvSbox(s >> 4, s & 0xf) == x
  {
    hide *;
    if x < 0x80 { InverseLow(x); } else { InverseHigh(x); }
  }

  lemma InverseLow(x: bv8)
    requires x < 0x80
    ensures var s := Sbox(x >> 4, x & 0xf); InvSbox(s >> 4, s & 0xf) == x
  {}

  lemma InverseHigh(x: bv8)
    requires x >= 0x80
    ensures var s := Sbox(x >> 4, x & 0xf); InvSbox(s >> 4, s & 0xf) == x
  {}
}
