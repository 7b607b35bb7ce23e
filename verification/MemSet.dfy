/** memset of musl: head and tail are filled with overlapping stores of bytes and words, and the middle with
    aligned words of eight bytes. */
module MemSet {
  import opened Words
  import opened Bytes
  import opened Memory
  import Arithmetic

  /** Only bytes of the region have changed, and only to c. */
  ghost predicate Within(mem: seq<Octet>, m: seq<Octet>, dest: nat, n: nat, c: Octet)
  {
    && |mem| == |m| && dest + n <= |m|
    && forall a :: 0 <= a < |m| ==> mem[a] == m[a] || (dest <= a < dest + n && mem[a] == c)
  }

  /** The bytes from lo to hi are c. */
  ghost predicate Has(mem: seq<Octet>, c: Octet, lo: nat, hi: nat)
  {
    hi <= |mem| && forall a :: lo <= a < hi ==> mem[a] == c
  }

  /** The bytes that are c stay c. */
  ghost predicate Keeps(s: seq<Octet>, t: seq<Octet>, c: Octet)
  {
    |s| == |t| && forall a :: 0 <= a < |s| && s[a] == c ==> t[a] == c
  }

  lemma HasKept(s: seq<Octet>, t: seq<Octet>, c: Octet, lo: nat, hi: nat)
    requires Has(s, c, lo, hi) && Keeps(s, t, c)
    ensures Has(t, c, lo, hi)
  {}

  lemma KeepsTwice(s: seq<Octet>, t: seq<Octet>, u: seq<Octet>, c: Octet)
    requires Keeps(s, t, c) && Keeps(t, u, c)
    ensures Keeps(s, u, c)
  {}

  lemma KeepsSelf(s: seq<Octet>, c: Octet)
    ensures Keeps(s, s, c)
  {}

  lemma HasJoined(s: seq<Octet>, c: Octet, lo: nat, mid: nat, mid2: nat, hi: nat)
    requires Has(s, c, lo, mid2) && Has(s, c, mid, hi) && mid <= mid2
    ensures Has(s, c, lo, hi)
  {}

  /** A store of count bytes c inside the region. */
  lemma Stored(s: seq<Octet>, t: seq<Octet>, m: seq<Octet>, dest: nat, n: nat, c: Octet, p: nat, b: seq<Octet>)
    requires Within(s, m, dest, n, c) && dest <= p && p + |b| <= dest + n && forall i :: 0 <= i < |b| ==> b[i] == c
    requires |s| == |m| && dest + n <= |m| && t == Put(s, p, b)
    ensures Within(t, m, dest, n, c) && Keeps(s, t, c) && Has(t, c, p, p + |b|)
  {}

  /** s[i] = c */
  method SetByte(mem: array<Octet>, p: nat, c: Octet, ghost m: seq<Octet>, ghost dest: nat, ghost n: nat)
    requires Within(mem[..], m, dest, n, c) && dest <= p < dest + n
    modifies mem
    ensures Within(mem[..], m, dest, n, c) && Keeps(old(mem[..]), mem[..], c) && Has(mem[..], c, p, p + 1)
  {
    ghost var s := mem[..];
    mem[p] := c;
    assert mem[..] == Put(s, p, [c]);
    hide *;
    Sizes(s, m, dest, n, c);
    Stored(s, mem[..], m, dest, n, c, p, [c]);
  }

  lemma Sizes(s: seq<Octet>, m: seq<Octet>, dest: nat, n: nat, c: Octet)
    requires Within(s, m, dest, n, c)
    ensures |s| == |m| && dest + n <= |m|
  {}

  /** ((u32)-1) / 255 * (unsigned char)c */
  function Spread32(c: Octet): (w: nat)
  {
    0xFFFF_FFFF / 255 * c
  }

  lemma Spread32Bytes(c: Octet)
    ensures Spread32(c) == Word32(c, c, c, c)
  {}

  /** *(u32 *)p = c32 */
  method SetWord(mem: array<Octet>, p: nat, c: Octet, c32: nat, ghost m: seq<Octet>, ghost dest: nat, ghost n: nat)
    requires Within(mem[..], m, dest, n, c) && dest <= p && p + 4 <= dest + n && Aligned(p) && c32 == Spread32(c)
    modifies mem
    ensures Within(mem[..], m, dest, n, c) && Keeps(old(mem[..]), mem[..], c) && Has(mem[..], c, p, p + 4)
  {
    hide *;
    ghost var s := mem[..];
    Sizes(s, m, dest, n, c);
    Spread32Bytes(c);
    BytesOfWord(c, c, c, c);
    Store32(mem, p, c32);
    Stored(s, mem[..], m, dest, n, c, p, [Byte32(c32, 0), Byte32(c32, 1), Byte32(c32, 2), Byte32(c32, 3)]);
  }

  // ---------------------------------------------------------------- words of eight bytes

  /** An address at which a 64-bit access is aligned. */
  predicate Aligned8(p: nat)
  {
    p % 8 == 0
  }

  lemma Aligned8More(p: nat)
    requires Aligned8(p)
    ensures Aligned8(p + 8) && Aligned8(p + 16) && Aligned8(p + 24) && Aligned8(p + 32)
  {}

  /** *(u64 *)p = w */
  method Store64(mem: array<Octet>, p: nat, w: nat)
    requires Aligned8(p) && p + 8 <= mem.Length
    modifies mem
    ensures mem[..] == Put(old(mem[..]), p, [Byte32(w % 0x1_0000_0000, 0), Byte32(w % 0x1_0000_0000, 1), Byte32(w % 0x1_0000_0000, 2), Byte32(w % 0x1_0000_0000, 3),
                                             Byte32(w / 0x1_0000_0000, 0), Byte32(w / 0x1_0000_0000, 1), Byte32(w / 0x1_0000_0000, 2), Byte32(w / 0x1_0000_0000, 3)])
  {
    hide Byte32, Aligned8;
    var l, h := w % 0x1_0000_0000, w / 0x1_0000_0000;
    mem[p] := Byte32(l, 0);
    mem[p + 1] := Byte32(l, 1);
    mem[p + 2] := Byte32(l, 2);
    mem[p + 3] := Byte32(l, 3);
    mem[p + 4] := Byte32(h, 0);
    mem[p + 5] := Byte32(h, 1);
    mem[p + 6] := Byte32(h, 2);
    mem[p + 7] := Byte32(h, 3);
  }

  /** c32 | ((u64)c32 << 32) */
  function Spread64(c: Octet): (w: nat)
  {
    Or(64, Spread32(c) * 0x1_0000_0000, Spread32(c))
  }

  lemma Spread64Halves(c: Octet)
    ensures Spread64(c) % 0x1_0000_0000 == Spread64(c) / 0x1_0000_0000 == Spread32(c)
  {
    hide *;
    Spread64Is(c);
    Spread32Small(c);
    Pow2Values();
    OrDisjoint(64, 32, Spread32(c), Spread32(c));
    Arithmetic.QuotientUnique(0x1_0000_0000, Spread32(c), Spread32(c));
  }

  lemma Spread64Is(c: Octet)
    ensures Spread64(c) == Or(64, Spread32(c) * 0x1_0000_0000, Spread32(c))
  {
    hide Or;
  }

  lemma Spread32Small(c: Octet)
    ensures Spread32(c) <= 0xFFFF_FFFF
  {}

  /** *(u64 *)p = c64 */
  method SetLong(mem: array<Octet>, p: nat, c: Octet, c64: nat, ghost m: seq<Octet>, ghost dest: nat, ghost n: nat)
    requires Within(mem[..], m, dest, n, c) && dest <= p && p + 8 <= dest + n && Aligned8(p) && c64 == Spread64(c)
    modifies mem
    ensures Within(mem[..], m, dest, n, c) && Keeps(old(mem[..]), mem[..], c) && Has(mem[..], c, p, p + 8)
  {
    hide *;
    ghost var s := mem[..];
    Sizes(s, m, dest, n, c);
    Spread64Halves(c);
    Spread32Bytes(c);
    BytesOfWord(c, c, c, c);
    Store64(mem, p, c64);
    ghost var w := Spread32(c);
    Stored(s, mem[..], m, dest, n, c, p, [Byte32(w, 0), Byte32(w, 1), Byte32(w, 2), Byte32(w, 3), Byte32(w, 0), Byte32(w, 1), Byte32(w, 2), Byte32(w, 3)]);
  }

  // ---------------------------------------------------------------- the three stages

  /** The head of h and the tail of t bytes from lo to hi are c. */
  ghost predicate Ends(mem: seq<Octet>, c: Octet, lo: nat, hi: nat, h: nat, t: nat)
  {
    h <= hi - lo && t <= hi - lo && Has(mem, c, lo, lo + h) && Has(mem, c, hi - t, hi)
  }

  lemma EndsMeet(mem: seq<Octet>, c: Octet, lo: nat, hi: nat, h: nat, t: nat)
    requires Ends(mem, c, lo, hi, h, t) && hi - lo <= h + t
    ensures Has(mem, c, lo, hi)
  {}

  lemma EndsKept(s: seq<Octet>, t: seq<Octet>, c: Octet, lo: nat, hi: nat, h: nat, l: nat)
    requires Ends(s, c, lo, hi, h, l) && Keeps(s, t, c)
    ensures Ends(t, c, lo, hi, h, l)
  {
    HasKept(s, t, c, lo, lo + h);
    HasKept(s, t, c, hi - l, hi);
    hide Has, Keeps;
  }

  /** A store of j bytes at the end of the head, or in front of the tail. */
  lemma EndsGrow(s: seq<Octet>, t: seq<Octet>, c: Octet, lo: nat, hi: nat, h: nat, l: nat, j: nat)
    requires Ends(s, c, lo, hi, h, l) && Keeps(s, t, c)
    ensures h + j <= hi - lo && Has(t, c, lo + h, lo + h + j) ==> Ends(t, c, lo, hi, h + j, l)
    ensures l + j <= hi - lo && Has(t, c, hi - l - j, hi - l) ==> Ends(t, c, lo, hi, h, l + j)
  {
    EndsKept(s, t, c, lo, hi, h, l);
    if h + j <= hi - lo && Has(t, c, lo + h, lo + h + j) { HasJoined(t, c, lo, lo + h, lo + h, lo + h + j); }
    if l + j <= hi - lo && Has(t, c, hi - l - j, hi - l) { HasJoined(t, c, hi - l - j, hi - l, hi - l, hi); }
    hide Has, Keeps;
  }

  lemma EndsNone(s: seq<Octet>, c: Octet, lo: nat, hi: nat)
    requires lo <= hi <= |s|
    ensures Ends(s, c, lo, hi, 0, 0)
  {}

  /** s[h] = c at the head, or s[n - l - 1] = c at the tail */
  method GrowByte(mem: array<Octet>, atHead: bool, c: Octet, h: nat, l: nat, ghost m: seq<Octet>, dest: nat, n: nat)
    requires Within(mem[..], m, dest, n, c) && Ends(mem[..], c, dest, dest + n, h, l) && (if atHead then h < n else l < n)
    modifies mem
    ensures Within(mem[..], m, dest, n, c) && Keeps(old(mem[..]), mem[..], c)
    ensures Ends(mem[..], c, dest, dest + n, if atHead then h + 1 else h, if atHead then l else l + 1)
  {
    hide *;
    ghost var s := mem[..];
    SetByte(mem, if atHead then dest + h else dest + n - l - 1, c, m, dest, n);
    EndsGrow(s, mem[..], c, dest, dest + n, h, l, 1);
  }

  /** The same with a word, for an aligned part of the region. */
  method GrowWord(mem: array<Octet>, atHead: bool, c: Octet, c32: nat, h: nat, l: nat, p: nat, k: nat, ghost m: seq<Octet>, ghost dest: nat, ghost n: nat)
    requires Within(mem[..], m, dest, n, c) && Ends(mem[..], c, p, p + k, h, l) && (if atHead then h + 4 <= k else l + 4 <= k)
    requires dest <= p && p + k <= dest + n && c32 == Spread32(c) && Aligned(p + h) && Aligned(p + k - l)
    modifies mem
    ensures Within(mem[..], m, dest, n, c) && Keeps(old(mem[..]), mem[..], c)
    ensures Ends(mem[..], c, p, p + k, if atHead then h + 4 else h, if atHead then l else l + 4)
    ensures if atHead then Aligned(p + (h + 4)) else Aligned(p + k - (l + 4))
  {
    hide *;
    ghost var s := mem[..];
    EndsBounds(s, c, p, p + k, h, l);
    AlignedNear(p + h);
    AlignedNear(p + k - l);
    SetWord(mem, if atHead then p + h else p + k - l - 4, c, c32, m, dest, n);
    EndsGrow(s, mem[..], c, p, p + k, h, l, 4);
  }

  lemma AlignedNear(a: nat)
    requires Aligned(a)
    ensures Aligned(a + 4) && (a >= 4 ==> Aligned(a - 4))
  {}

  lemma EndsBounds(s: seq<Octet>, c: Octet, lo: nat, hi: nat, h: nat, t: nat)
    requires Ends(s, c, lo, hi, h, t)
    ensures h <= hi - lo && t <= hi - lo
  {}

  /** The stores of single bytes. */
  method FillBytes(mem: array<Octet>, dest: nat, n: nat, c: Octet, ghost m: seq<Octet>) returns (done: bool)
    requires Within(mem[..], m, dest, n, c) && dest + n <= mem.Length && n > 0
    modifies mem
    ensures Within(mem[..], m, dest, n, c)
    ensures done ==> Has(mem[..], c, dest, dest + n)
    ensures !done ==> n > 8 && Ends(mem[..], c, dest, dest + n, 4, 4)
  {
    hide *;
    EndsNone(mem[..], c, dest, dest + n);
    GrowByte(mem, true, c, 0, 0, m, dest, n);
    GrowByte(mem, false, c, 1, 0, m, dest, n);
    if n <= 2 {
      EndsMeet(mem[..], c, dest, dest + n, 1, 1);
      return true;
    }
    GrowByte(mem, true, c, 1, 1, m, dest, n);
    GrowByte(mem, true, c, 2, 1, m, dest, n);
    GrowByte(mem, false, c, 3, 1, m, dest, n);
    GrowByte(mem, false, c, 3, 2, m, dest, n);
    if n <= 6 {
      EndsMeet(mem[..], c, dest, dest + n, 3, 3);
      return true;
    }
    GrowByte(mem, true, c, 3, 3, m, dest, n);
    GrowByte(mem, false, c, 4, 3, m, dest, n);
    if n <= 8 {
      EndsMeet(mem[..], c, dest, dest + n, 4, 4);
      return true;
    }
    done := false;
  }

  /** The stores of words of four bytes, at both ends of an aligned part. */
  method FillWords(mem: array<Octet>, p: nat, k: nat, c: Octet, c32: nat, ghost m: seq<Octet>, ghost dest: nat, ghost n: nat) returns (done: bool)
    requires Within(mem[..], m, dest, n, c) && p + k <= mem.Length && dest <= p && p + k <= dest + n
    requires Aligned(p) && Aligned(p + k) && 4 <= k && k % 4 == 0 && c32 == Spread32(c)
    modifies mem
    ensures Within(mem[..], m, dest, n, c) && Keeps(old(mem[..]), mem[..], c)
    ensures done ==> Has(mem[..], c, p, p + k)
    ensures !done ==> k >= 28 && Ends(mem[..], c, p, p + k, 28, 28)
  {
    hide *;
    ghost var s := mem[..];
    EndsNone(s, c, p, p + k);
    GrowWord(mem, true, c, c32, 0, 0, p, k, m, dest, n);
    ghost var s1 := mem[..];
    GrowWord(mem, false, c, c32, 4, 0, p, k, m, dest, n);
    KeepsTwice(s, s1, mem[..], c);
    if k <= 8 {
      EndsMeet(mem[..], c, p, p + k, 4, 4);
      return true;
    }
    ghost var s2 := mem[..];
    GrowTwo(mem, c, c32, 4, 4, p, k, m, dest, n);
    KeepsTwice(s, s2, mem[..], c);
    if k <= 24 {
      EndsMeet(mem[..], c, p, p + k, 12, 12);
      return true;
    }
    ghost var s3 := mem[..];
    GrowTwo(mem, c, c32, 12, 12, p, k, m, dest, n);
    KeepsTwice(s, s3, mem[..], c);
    ghost var s4 := mem[..];
    GrowTwo(mem, c, c32, 20, 20, p, k, m, dest, n);
    KeepsTwice(s, s4, mem[..], c);
    done := false;
  }

  /** Two words at the head and two at the tail. */
  method GrowTwo(mem: array<Octet>, c: Octet, c32: nat, h: nat, l: nat, p: nat, k: nat, ghost m: seq<Octet>, ghost dest: nat, ghost n: nat)
    requires Within(mem[..], m, dest, n, c) && Ends(mem[..], c, p, p + k, h, l) && h + 8 <= k && l + 8 <= k
    requires dest <= p && p + k <= dest + n && c32 == Spread32(c) && Aligned(p + h) && Aligned(p + k - l)
    modifies mem
    ensures Within(mem[..], m, dest, n, c) && Keeps(old(mem[..]), mem[..], c)
    ensures Ends(mem[..], c, p, p + k, h + 8, l + 8) && Aligned(p + (h + 8)) && Aligned(p + k - (l + 8))
  {
    hide *;
    ghost var s := mem[..];
    GrowWord(mem, true, c, c32, h, l, p, k, m, dest, n);
    ghost var s1 := mem[..];
    GrowWord(mem, true, c, c32, h + 4, l, p, k, m, dest, n);
    KeepsTwice(s, s1, mem[..], c);
    ghost var s2 := mem[..];
    GrowWord(mem, false, c, c32, h + 8, l, p, k, m, dest, n);
    KeepsTwice(s, s2, mem[..], c);
    ghost var s3 := mem[..];
    GrowWord(mem, false, c, c32, h + 8, l + 4, p, k, m, dest, n);
    KeepsTwice(s, s3, mem[..], c);
  }

  /** for (; n >= 32; n -= 32, s += 32) four words of eight bytes; what is left at the end is part of the
      tail that is filled already. */
  method FillLongs(mem: array<Octet>, p: nat, k: nat, q: nat, c: Octet, c64: nat, ghost m: seq<Octet>, ghost dest: nat, ghost n: nat)
    requires Within(mem[..], m, dest, n, c) && p + k <= mem.Length && dest <= p && p + k <= dest + n
    requires Ends(mem[..], c, p, p + k, 28, 28) && c64 == Spread64(c)
    requires q <= 28 && Aligned(k - q) && Aligned8(p + q)
    modifies mem
    ensures Within(mem[..], m, dest, n, c) && Keeps(old(mem[..]), mem[..], c) && Has(mem[..], c, p, p + k)
  {
    hide *;
    ghost var first := mem[..];
    var s, rest := p + q, k - q;
    EndsParts(first, c, p, p + k, 28, 28, q);
    KeepsSelf(first, c);
    while rest >= 32
      invariant 0 <= rest && s + rest == p + k && p + q <= s && Aligned8(s) && Aligned(rest)
      invariant Within(mem[..], m, dest, n, c) && Keeps(first, mem[..], c) && Has(mem[..], c, p, s)
    {
      ghost var now := mem[..];
      SetFour(mem, p, s, c, c64, m, dest, n);
      KeepsTwice(first, now, mem[..], c);
      FewerAligned(rest);
      rest, s := rest - 32, s + 32;
    }
    FewAligned(rest);
    HasKept(first, mem[..], c, p + k - 28, p + k);
    HasJoined(mem[..], c, p, p + k - 28, s, p + k);
  }

  lemma FewerAligned(n: nat)
    requires Aligned(n) && n >= 32
    ensures Aligned(n - 32)
  {}

  lemma FewAligned(n: nat)
    requires Aligned(n) && n < 32
    ensures n <= 28
  {}

  lemma EndsParts(s: seq<Octet>, c: Octet, lo: nat, hi: nat, h: nat, t: nat, q: nat)
    requires Ends(s, c, lo, hi, h, t) && q <= h
    ensures h <= hi - lo && t <= hi - lo && Has(s, c, lo, lo + q) && Has(s, c, hi - t, hi)
  {}

  /** The body of the loop. */
  method SetFour(mem: array<Octet>, p: nat, s: nat, c: Octet, c64: nat, ghost m: seq<Octet>, ghost dest: nat, ghost n: nat)
    requires Within(mem[..], m, dest, n, c) && dest <= p <= s && s + 32 <= dest + n && Aligned8(s) && c64 == Spread64(c) && Has(mem[..], c, p, s)
    modifies mem
    ensures Within(mem[..], m, dest, n, c) && Keeps(old(mem[..]), mem[..], c) && Has(mem[..], c, p, s + 32) && Aligned8(s + 32)
  {
    hide *;
    Aligned8More(s);
    ghost var s0 := mem[..];
    SetLong(mem, s, c, c64, m, dest, n);
    HasKept(s0, mem[..], c, p, s);
    HasJoined(mem[..], c, p, s, s, s + 8);
    ghost var s1 := mem[..];
    SetLong(mem, s + 8, c, c64, m, dest, n);
    HasKept(s1, mem[..], c, p, s + 8);
    HasJoined(mem[..], c, p, s + 8, s + 8, s + 16);
    KeepsTwice(s0, s1, mem[..], c);
    ghost var s2 := mem[..];
    SetLong(mem, s + 16, c, c64, m, dest, n);
    HasKept(s2, mem[..], c, p, s + 16);
    HasJoined(mem[..], c, p, s + 16, s + 16, s + 24);
    KeepsTwice(s0, s2, mem[..], c);
    ghost var s3 := mem[..];
    SetLong(mem, s + 24, c, c64, m, dest, n);
    HasKept(s3, mem[..], c, p, s + 24);
    HasJoined(mem[..], c, p, s + 24, s + 24, s + 32);
    KeepsTwice(s0, s3, mem[..], c);
  }

  /** (unsigned char)c */
  function Low(c: int): (b: Octet)
  {
    c % 0x100
  }

  function Repeated(c: Octet, n: nat): (s: seq<Octet>)
    ensures |s| == n
  {
    seq(n, i => c)
  }

  lemma Complete(mem: seq<Octet>, m: seq<Octet>, dest: nat, n: nat, c: Octet)
    requires Within(mem, m, dest, n, c) && Has(mem, c, dest, dest + n)
    ensures dest + n <= |m| && mem == Put(m, dest, Repeated(c, n))
  {}

  lemma WithinStart(m: seq<Octet>, dest: nat, n: nat, c: Octet)
    requires dest + n <= |m|
    ensures Within(m, m, dest, n, c)
  {}

  /** The aligned part: k = -s & 3 bytes are skipped, and its length is rounded down. */
  lemma AlignedPart(dest: nat, n: nat, k: nat, l: nat)
    requires n > 8 && k == (if dest % 4 == 0 then 0 else 4 - dest % 4) && l == (n - k) / 4 * 4
    ensures k <= 3 && 4 <= l && l % 4 == 0 && k + l <= n <= k + l + 3 && Aligned(dest + k) && Aligned(dest + k + l)
  {}

  /** k = 24 + ((uintptr_t)s & 4) */
  lemma LongPart(p: nat, q: nat)
    requires Aligned(p) && q == 24 + (if p / 4 % 2 == 1 then 4 else 0)
    ensures q <= 28 && q % 4 == 0 && Aligned8(p + q)
  {}

  lemma BothAligned(k: nat, q: nat)
    requires k >= q && k % 4 == 0 && q % 4 == 0
    ensures Aligned(k - q)
  {}

  lemma SetEverywhere(m: seq<Octet>, dest: nat, n: nat, c: int)
    requires dest + n <= |m|
    ensures forall i :: 0 <= i < |m| ==> Put(m, dest, Repeated(Low(c), n))[i] == if dest <= i < dest + n then c % 256 else m[i]
  {}

  /** memset_musl(dest, c, n): exactly the n bytes are set, for every length and alignment. */
  method MemSet(mem: array<Octet>, dest: nat, c: int, n: nat)
    requires dest + n <= mem.Length
    modifies mem
    ensures mem[..] == Put(old(mem[..]), dest, Repeated(Low(c), n))
    ensures forall i :: 0 <= i < mem.Length ==> mem[i] == if dest <= i < dest + n then c % 256 else old(mem[..])[i]
  {
    hide *;
    ghost var m := mem[..];
    var b := Low(c);
    SetEverywhere(m, dest, n, c);
    WithinStart(m, dest, n, b);
    if n == 0 {
      NoneSet(m, dest, b);
      return;
    }
    var done := FillBytes(mem, dest, n, b, m);
    if done {
      Complete(mem[..], m, dest, n, b);
      return;
    }
    var k := if dest % 4 == 0 then 0 else 4 - dest % 4;
    var p, l := dest + k, (n - k) / 4 * 4;
    AlignedPart(dest, n, k, l);
    ghost var s := mem[..];
    var c32 := Spread32(b);
    done := FillWords(mem, p, l, b, c32, m, dest, n);
    if !done {
      var q := 24 + (if p / 4 % 2 == 1 then 4 else 0);
      LongPart(p, q);
      BothAligned(l, q);
      var c64 := Spread64(b);
      ghost var s1 := mem[..];
      FillLongs(mem, p, l, q, b, c64, m, dest, n);
      KeepsTwice(s, s1, mem[..], b);
    }
    EndsParts(s, b, dest, dest + n, 4, 4, k);
    HasKept(s, mem[..], b, dest, p);
    HasKept(s, mem[..], b, dest + n - 4, dest + n);
    HasJoined(mem[..], b, dest, p, p, p + l);
    HasJoined(mem[..], b, dest, dest + n - 4, p + l, dest + n);
    Complete(mem[..], m, dest, n, b);
  }

  lemma NoneSet(m: seq<Octet>, dest: nat, c: Octet)
    requires dest <= |m|
    ensures m == Put(m, dest, Repeated(c, 0))
  {}
}
