/** Machine words as numbers: a w-bit word is a natural number below 2^w, and the C operators
    on it are spelled out bit by bit. */
module Words {

  function Pow2(k: nat): (r: int)
    ensures r > 0
  {
    if k == 0 then 1 else 2 * Pow2(k - 1)
  }

  /** The C operator ^ on w-bit words. */
  function Xor(w: nat, a: nat, b: nat): (r: nat)
  {
    if w == 0 then 0 else (if a % 2 == b % 2 then 0 else 1) + 2 * Xor(w - 1, a / 2, b / 2)
  }

  /** The C operator & on w-bit words. */
  function And(w: nat, a: nat, b: nat): (r: nat)
  {
    if w == 0 then 0 else (if a % 2 == 1 && b % 2 == 1 then 1 else 0) + 2 * And(w - 1, a / 2, b / 2)
  }

  /** The C operator | on w-bit words. */
  function Or(w: nat, a: nat, b: nat): (r: nat)
  {
    if w == 0 then 0 else (if a % 2 == 1 || b % 2 == 1 then 1 else 0) + 2 * Or(w - 1, a / 2, b / 2)
  }

  /** Combining words that have no bit in common adds them. */
  lemma {:induction false} OrDisjoint(w: nat, k: nat, h: nat, l: nat)
    requires h * Pow2(k) + l < Pow2(w) && l < Pow2(k)
    ensures Or(w, h * Pow2(k), l) == h * Pow2(k) + l
    decreases w
  {
    if k == 0 {
      OrZero(w, h);
    } else if w > 0 {
      var d := h * Pow2(k - 1);
      assert h * Pow2(k) == 2 * d;
      OrDisjoint(w - 1, k - 1, h, l / 2);
    } else {
      assert h * Pow2(k) >= 0;
    }
  }

  lemma {:induction false} OrZero(w: nat, a: nat)
    requires a < Pow2(w)
    ensures Or(w, a, 0) == a
  {
    if w > 0 { OrZero(w - 1, a / 2); }
  }

  lemma {:induction false} XorBounds(w: nat, a: nat, b: nat)
    ensures Xor(w, a, b) < Pow2(w)
  {
    if w > 0 { XorBounds(w - 1, a / 2, b / 2); }
  }

  lemma {:induction false} AndBounds(w: nat, a: nat, b: nat)
    ensures And(w, a, b) < Pow2(w)
  {
    if w > 0 { AndBounds(w - 1, a / 2, b / 2); }
  }

  /** Exclusive or with the exclusive or of two words turns one into the other. */
  lemma {:induction false} XorExchanges(w: nat, a: nat, b: nat)
    requires a < Pow2(w) && b < Pow2(w)
    ensures Xor(w, a, Xor(w, a, b)) == b
    ensures Xor(w, b, Xor(w, a, b)) == a
  {
    if w > 0 {
      XorExchanges(w - 1, a / 2, b / 2);
      var x := Xor(w, a, b);
      assert x % 2 == (if a % 2 == b % 2 then 0 else 1) && x / 2 == Xor(w - 1, a / 2, b / 2);
    }
  }

  lemma {:induction false} XorZero(w: nat, a: nat)
    requires a < Pow2(w)
    ensures Xor(w, a, 0) == a
  {
    if w > 0 { XorZero(w - 1, a / 2); }
  }

  /** Masking with all ones keeps a word, masking with zero clears it. */
  lemma {:induction false} AndMask(w: nat, a: nat)
    requires a < Pow2(w)
    ensures And(w, Pow2(w) - 1, a) == a
    ensures And(w, 0, a) == 0
  {
    if w > 0 {
      AndMask(w - 1, a / 2);
      assert (Pow2(w) - 1) / 2 == Pow2(w - 1) - 1;
    }
  }

  /** The top bit of ^ and & is computed from the top bits of the operands. */
  lemma {:induction false} TopBits(w: nat, a: nat, b: nat)
    requires w > 0 && a < Pow2(w) && b < Pow2(w)
    ensures Xor(w, a, b) >= Pow2(w - 1) <==> ((a >= Pow2(w - 1)) != (b >= Pow2(w - 1)))
    ensures And(w, a, b) >= Pow2(w - 1) <==> (a >= Pow2(w - 1) && b >= Pow2(w - 1))
  {
    if w == 1 {
      assert Xor(0, a / 2, b / 2) == 0 == And(0, a / 2, b / 2);
    } else {
      TopBits(w - 1, a / 2, b / 2);
      XorBounds(w - 1, a / 2, b / 2);
      AndBounds(w - 1, a / 2, b / 2);
    }
  }

  lemma Pow2Values()
    ensures Pow2(15) == 0x8000 && Pow2(16) == 0x1_0000
    ensures Pow2(31) == 0x8000_0000 && Pow2(32) == 0x1_0000_0000
    ensures Pow2(63) == 0x8000_0000_0000_0000 && Pow2(64) == 0x1_0000_0000_0000_0000
  {
    assert Pow2(8) == 256;
    assert Pow2(16) == 0x1_0000;
    assert Pow2(24) == 0x100_0000;
    assert Pow2(32) == 0x1_0000_0000;
    assert Pow2(40) == 0x100_0000_0000;
    assert Pow2(48) == 0x1_0000_0000_0000;
    assert Pow2(56) == 0x100_0000_0000_0000;
  }
}
