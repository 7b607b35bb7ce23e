/** Numbers and their bits, the lowest first. */
module Numerals {
  import opened Words
  import opened BinaryAlgebra
  import opened OutputBits

  /** The number whose bits are s. */
  function Number(s: Bits): (v: nat)
  {
    if |s| == 0 then 0 else (if s[0] then 1 else 0) + 2 * Number(s[1..])
  }

  /** The m lowest bits of a number. */
  function LowBits(v: nat, m: nat): (s: Bits)
    ensures |s| == m
  {
    seq(m, k requires 0 <= k < m => BitOf(v, k) == 1)
  }

  lemma {:induction false} NumberBits(s: Bits, k: nat)
    requires k < |s|
    ensures BitOf(Number(s), k) == 1 <==> s[k]
    decreases |s|
  {
    var v := Number(s);
    assert v / 2 == Number(s[1..]) && v % 2 == if s[0] then 1 else 0;
    if k > 0 { NumberBits(s[1..], k - 1); }
  }

  lemma {:induction false} NumberBound(s: Bits)
    ensures Number(s) < Pow2(|s|)
    decreases |s|
  {
    if |s| > 0 { NumberBound(s[1..]); }
  }

  lemma {:induction false} NumberOfBits(v: nat, m: nat)
    requires v < Pow2(m)
    ensures Number(LowBits(v, m)) == v
    decreases m
  {
    if m > 0 {
      NumberOfBits(v / 2, m - 1);
      assert LowBits(v, m)[1..] == LowBits(v / 2, m - 1);
      assert LowBits(v, m)[0] == (v % 2 == 1);
    }
  }

  lemma BitsOfNumber(s: Bits)
    ensures LowBits(Number(s), |s|) == s
  {
    forall k | 0 <= k < |s| ensures (BitOf(Number(s), k) == 1) == s[k] { NumberBits(s, k); }
  }
}
