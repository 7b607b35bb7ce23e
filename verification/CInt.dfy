/** The int32 operators of the C code on values of type int, with their wrap-around. */
module CInt {
  import opened Words
  import opened Arithmetic
  import opened SortNetwork

  function Wrap(v: int): (r: int)
  {
    Signed(32, Pattern(32, v))
  }

  /** a << k */
  function Shl(a: int, k: nat): (r: int)
  {
    Wrap(a * Pow2(k))
  }

  /** a >> k, arithmetic */
  function Shr(a: int, k: nat): (r: int)
  {
    a / Pow2(k)
  }

  /** a & (2^k - 1) */
  function Low(a: int, k: nat): (r: int)
  {
    a % Pow2(k)
  }

  /** a & ~(2^k - 1) */
  function High(a: int, k: nat): (r: int)
  {
    a - a % Pow2(k)
  }

  /** a | b */
  function OrInt(a: int, b: int): (r: int)
  {
    Signed(32, Or(32, Pattern(32, a), Pattern(32, b)))
  }

  /** a + b */
  function AddInt(a: int, b: int): (r: int)
  {
    Wrap(a + b)
  }

  lemma WrapSmall(v: int)
    requires 0 <= v < 0x8000_0000
    ensures Wrap(v) == v && Pattern(32, v) == v
  {
    Pow2Values();
    QuotientUnique(Pow2(32), 0, v);
  }

  /** A word made of a key and a payload of k bits takes apart into them. */
  lemma Unpack(h: nat, k: nat, l: nat)
    requires l < Pow2(k)
    ensures Shr(h * Pow2(k) + l, k) == h && Low(h * Pow2(k) + l, k) == l && High(h * Pow2(k) + l, k) == h * Pow2(k)
  {
    QuotientUnique(Pow2(k), h, l);
    assert Pow2(k) * h == h * Pow2(k);
  }

  /** Key and payload are put together by | as well as by +. */
  lemma Repack(h: nat, k: nat, l: nat)
    requires l < Pow2(k) && h * Pow2(k) + l < 0x8000_0000
    ensures OrInt(h * Pow2(k), l) == h * Pow2(k) + l == AddInt(h * Pow2(k), l)
  {
    hide Or, Pow2;
    Pow2Values();
    var v := h * Pow2(k);
    assert v >= 0;
    WrapSmall(v);
    WrapSmall(l);
    WrapSmall(v + l);
    OrDisjoint(32, k, h, l);
    assert Or(32, v, l) == v + l;
  }

  /** Shifting left by j drops what lies at bit 32 - j and above. */
  lemma ShlDrops(g: nat, h: nat, k: nat, j: nat, m: nat)
    requires k + j >= 32 && k + j == 32 + m && h * Pow2(j) < 0x8000_0000
    ensures Shl(g * Pow2(k) + h, j) == h * Pow2(j)
  {
    hide Pow2, Wrap;
    Pow2Add(k, j);
    Pow2Add(32, m);
    Regroup(g, h, Pow2(k), Pow2(j), Pow2(32), Pow2(m));
    assert h * Pow2(j) >= 0;
    WrapDrops(g * Pow2(m), h * Pow2(j));
  }

  lemma WrapDrops(q: int, r: int)
    requires 0 <= r < 0x8000_0000
    ensures Wrap(Pow2(32) * q + r) == r
  {
    hide Pow2;
    Pow2Values();
    QuotientUnique(Pow2(32), q, r);
  }

  lemma Regroup(g: int, h: int, a: int, b: int, c: int, d: int)
    requires a * b == c * d
    ensures (g * a + h) * b == c * (g * d) + h * b
  {
    calc {
      (g * a + h) * b;
      g * (a * b) + h * b;
      g * (c * d) + h * b;
      c * (g * d) + h * b;
    }
  }

  lemma {:induction false} Pow2Add(k: nat, j: nat)
    ensures Pow2(k + j) == Pow2(k) * Pow2(j)
    decreases j
  {
    if j > 0 {
      Pow2Add(k, j - 1);
      assert Pow2(k + j) == 2 * Pow2(k + (j - 1));
      assert Pow2(k) * (2 * Pow2(j - 1)) == 2 * (Pow2(k) * Pow2(j - 1));
    }
  }

  lemma Sizes()
    ensures Pow2(10) == 1024 && Pow2(14) == 16384 && Pow2(16) == 0x1_0000 && Pow2(20) == 0x10_0000
    ensures Pow2(0) == 1 && Pow2(4) == 16 && Pow2(6) == 64
  {
    assert Pow2(4) == 16;
    assert Pow2(8) == 256;
    assert Pow2(12) == 4096;
    assert Pow2(16) == 0x1_0000;
  }

  /** (h << k) | l and (h << k) + l */
  lemma Join(h: nat, k: nat, l: nat)
    requires l < Pow2(k) && h * Pow2(k) + l < 0x8000_0000
    ensures Shl(h, k) == h * Pow2(k)
    ensures OrInt(Shl(h, k), l) == h * Pow2(k) + l == AddInt(Shl(h, k), l)
  {
    hide Pow2, Wrap, OrInt, AddInt;
    assert h * Pow2(k) >= 0;
    WrapSmall(h * Pow2(k));
    Repack(h, k, l);
  }

  /** ((g << 16 | h) << j) | l, where j is at least 16: the old key is shifted out. */
  lemma Rekey(g: nat, h: nat, j: nat, l: nat)
    requires j >= 16 && l < Pow2(j) && h * Pow2(j) + l < 0x8000_0000
    ensures OrInt(Shl(g * 0x1_0000 + h, j), l) == h * Pow2(j) + l == AddInt(Shl(g * 0x1_0000 + h, j), l)
  {
    hide Pow2, Shl, OrInt, AddInt;
    Sizes();
    ShlDrops(g, h, 16, j, j - 16);
    Repack(h, j, l);
  }
}
