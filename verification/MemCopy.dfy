/** memcpy of musl: whole words when both pointers agree modulo four, and otherwise words merged from two
    loads that are carried from one iteration to the next. */
module MemCopy {
  import opened Bytes
  import opened Memory

  /** The memory after a copy of n bytes. */
  function Copied(m: seq<Octet>, dest: nat, src: nat, n: nat): (t: seq<Octet>)
    requires dest + n <= |m| && src + n <= |m|
    ensures |t| == |m|
  {
    Put(m, dest, m[src..src + n])
  }

  /** k of the n bytes are copied; the buffers do not overlap. */
  ghost predicate Done(mem: seq<Octet>, m: seq<Octet>, dest: nat, src: nat, n: nat, k: nat)
  {
    && dest + n <= |m| && src + n <= |m| && (dest + n <= src || src + n <= dest) && k <= n
    && mem == Copied(m, dest, src, k)
  }

  /** The source is still as it was. */
  lemma SourceKept(mem: seq<Octet>, m: seq<Octet>, dest: nat, src: nat, n: nat, k: nat, i: nat)
    requires Done(mem, m, dest, src, n, k) && i < n
    ensures |mem| == |m| && mem[src + i] == m[src + i]
  {}

  lemma DoneMore(mem: seq<Octet>, t: seq<Octet>, m: seq<Octet>, dest: nat, src: nat, n: nat, k: nat, j: nat, s: seq<Octet>)
    requires Done(mem, m, dest, src, n, k) && k + j <= n && |s| == j
    requires forall i :: 0 <= i < j ==> s[i] == m[src + k + i]
    requires |mem| == |m| && t == Put(mem, dest + k, s)
    ensures Done(t, m, dest, src, n, k + j)
  {
    assert s == m[src + k..src + k + j];
    assert m[src..src + (k + j)] == m[src..src + k] + m[src + k..src + k + j];
  }

  lemma DoneFacts(mem: seq<Octet>, m: seq<Octet>, dest: nat, src: nat, n: nat, k: nat)
    requires Done(mem, m, dest, src, n, k)
    ensures |mem| == |m| && dest + n <= |m| && src + n <= |m| && k <= n
  {}

  /** *d++ = *s++ */
  method CopyByte(mem: array<Octet>, d: nat, s: nat, ghost m: seq<Octet>, ghost dest: nat, ghost src: nat, ghost n: nat, ghost k: nat)
    requires Done(mem[..], m, dest, src, n, k) && d == dest + k && s == src + k && k < n
    modifies mem
    ensures Done(mem[..], m, dest, src, n, k + 1)
  {
    hide *;
    ghost var t := mem[..];
    DoneFacts(t, m, dest, src, n, k);
    SourceKept(t, m, dest, src, n, k, k);
    mem[d] := mem[s];
    PutOne(t, d, t[s]);
    DoneMore(t, mem[..], m, dest, src, n, k, 1, [t[s]]);
  }

  lemma PutOne(m: seq<Octet>, p: nat, b: Octet)
    requires p < |m|
    ensures Put(m, p, [b]) == m[p := b]
  {}

  /** count times *d++ = *s++ */
  method CopyBytes(mem: array<Octet>, d: nat, s: nat, count: nat, ghost m: seq<Octet>, ghost dest: nat, ghost src: nat, ghost n: nat, ghost k: nat)
    requires Done(mem[..], m, dest, src, n, k) && d == dest + k && s == src + k && k + count <= n
    modifies mem
    ensures Done(mem[..], m, dest, src, n, k + count)
  {
    hide *;
    var i := 0;
    while i < count
      invariant 0 <= i <= count && Done(mem[..], m, dest, src, n, k + i)
    {
      CopyByte(mem, d + i, s + i, m, dest, src, n, k + i);
      i := i + 1;
    }
  }

  lemma LoadIs(mem: seq<Octet>, m: seq<Octet>, dest: nat, src: nat, n: nat, k: nat, i: nat)
    requires Done(mem, m, dest, src, n, k) && i + 4 <= n
    ensures |mem| == |m| && LoadAt(mem, src + i) == Word32(m[src + i], m[src + i + 1], m[src + i + 2], m[src + i + 3])
  {
    hide Word32, Done;
    SourceKept(mem, m, dest, src, n, k, i);
    SourceKept(mem, m, dest, src, n, k, i + 1);
    SourceKept(mem, m, dest, src, n, k, i + 2);
    SourceKept(mem, m, dest, src, n, k, i + 3);
  }

  /** *(u32 *)d = w, for a word of the next four bytes */
  method StoreNext(mem: array<Octet>, d: nat, w: nat, ghost m: seq<Octet>, ghost dest: nat, ghost src: nat, ghost n: nat, ghost k: nat)
    requires Done(mem[..], m, dest, src, n, k) && d == dest + k && k + 4 <= n && src + n <= |m| && Aligned(d)
    requires w == Word32(m[src + k], m[src + k + 1], m[src + k + 2], m[src + k + 3])
    modifies mem
    ensures Done(mem[..], m, dest, src, n, k + 4)
  {
    hide *;
    ghost var t := mem[..];
    DoneFacts(t, m, dest, src, n, k);
    BytesOfWord(m[src + k], m[src + k + 1], m[src + k + 2], m[src + k + 3]);
    Store32(mem, d, w);
    DoneMore(t, mem[..], m, dest, src, n, k, 4, [Byte32(w, 0), Byte32(w, 1), Byte32(w, 2), Byte32(w, 3)]);
  }

  /** *(u32 *)d = *(u32 *)s */
  method CopyWord(mem: array<Octet>, d: nat, s: nat, ghost m: seq<Octet>, ghost dest: nat, ghost src: nat, ghost n: nat, ghost k: nat)
    requires Done(mem[..], m, dest, src, n, k) && d == dest + k && s == src + k && k + 4 <= n && Aligned(d) && Aligned(s)
    modifies mem
    ensures Done(mem[..], m, dest, src, n, k + 4)
  {
    hide *;
    DoneFacts(mem[..], m, dest, src, n, k);
    LoadIs(mem[..], m, dest, src, n, k, k);
    var w := Load32(mem, s);
    StoreNext(mem, d, w, m, dest, src, n, k);
  }

  // ---------------------------------------------------------------- pointers that agree modulo four

  /** The branch for an aligned destination. */
  method CopyAligned(mem: array<Octet>, d0: nat, s0: nat, n0: nat, ghost m: seq<Octet>, ghost dest: nat, ghost src: nat, ghost n: nat, ghost k0: nat)
    requires Done(mem[..], m, dest, src, n, k0) && d0 == dest + k0 && s0 == src + k0 && k0 + n0 == n
    requires Aligned(d0) && (n0 > 0 ==> Aligned(s0))
    modifies mem
    ensures Done(mem[..], m, dest, src, n, n)
  {
    hide *;
    var d, s, rest := d0, s0, n0;
    ghost var k := k0;
    while rest >= 16
      invariant d == dest + k && s == src + k && k + rest == n && 0 <= rest && Aligned(d) && (rest > 0 ==> Aligned(s))
      invariant Done(mem[..], m, dest, src, n, k)
    {
      AlignedMore(d);
      AlignedMore(s);
      CopyWord(mem, d, s, m, dest, src, n, k);
      CopyWord(mem, d + 4, s + 4, m, dest, src, n, k + 4);
      CopyWord(mem, d + 8, s + 8, m, dest, src, n, k + 8);
      CopyWord(mem, d + 12, s + 12, m, dest, src, n, k + 12);
      s, d, rest, k := s + 16, d + 16, rest - 16, k + 16;
    }
    RestBits(rest);
    if BitSet(rest, 8) {
      AlignedMore(d);
      AlignedMore(s);
      CopyWord(mem, d, s, m, dest, src, n, k);
      CopyWord(mem, d + 4, s + 4, m, dest, src, n, k + 4);
      d, s, k := d + 8, s + 8, k + 8;
    }
    if BitSet(rest, 4) {
      CopyWord(mem, d, s, m, dest, src, n, k);
      d, s, k := d + 4, s + 4, k + 4;
    }
    if BitSet(rest, 2) {
      CopyBytes(mem, d, s, 2, m, dest, src, n, k);
      d, s, k := d + 2, s + 2, k + 2;
    }
    if BitSet(rest, 1) {
      CopyByte(mem, d, s, m, dest, src, n, k);
      k := k + 1;
    }
  }

  /** n & p, for a power p of two */
  predicate BitSet(n: nat, p: nat)
    requires p > 0
  {
    n / p % 2 == 1
  }

  function Part(n: nat, p: nat): (r: nat)
    requires p > 0
    ensures r == if BitSet(n, p) then p else 0
  {
    if BitSet(n, p) then p else 0
  }

  /** The bits of a number below 32 add up to it. */
  lemma RestBits(rest: nat)
    requires rest < 32
    ensures rest == Part(rest, 16) + Part(rest, 8) + Part(rest, 4) + Part(rest, 2) + Part(rest, 1)
    ensures rest < 16 ==> !BitSet(rest, 16)
  {}

  // ---------------------------------------------------------------- merged words

  /** The last c bytes of w are the next c bytes of the source. */
  ghost predicate Carried(m: seq<Octet>, at: nat, w: nat, c: nat)
  {
    && 1 <= c <= 3 && at + c <= |m| && at + c >= 4
    && w == Word32(m[at + c - 4], m[at + c - 3], m[at + c - 2], m[at + c - 1])
  }

  /** Loading the next word and storing the merged one. */
  method MergeStep(mem: array<Octet>, d: nat, s: nat, w: nat, c: nat, ghost m: seq<Octet>, ghost dest: nat, ghost src: nat, ghost n: nat, ghost k: nat)
    returns (x: nat)
    requires Done(mem[..], m, dest, src, n, k) && d == dest + k && s == src + k && k + 4 + c <= n
    requires Aligned(d) && Aligned(s + c) && Carried(m, s, w, c)
    modifies mem
    ensures Done(mem[..], m, dest, src, n, k + 4) && Carried(m, s + 4, x, c)
  {
    hide Done, Word32, Merged, LoadAt;
    DoneFacts(mem[..], m, dest, src, n, k);
    LoadIs(mem[..], m, dest, src, n, k, k + c);
    x := Load32(mem, s + c);
    var a := s + c;
    MergedBytes(m[a - 4], m[a - 3], m[a - 2], m[a - 1], m[a], m[a + 1], m[a + 2], m[a + 3]);
    StoreNext(mem, d, Merged(w, x, c), m, dest, src, n, k);
  }

  /** The body of the loops: four merged words, with w and x taking turns. */
  method MergeSixteen(mem: array<Octet>, d: nat, s: nat, w0: nat, c: nat, ghost m: seq<Octet>, ghost dest: nat, ghost src: nat, ghost n: nat, ghost k: nat)
    returns (w: nat)
    requires Done(mem[..], m, dest, src, n, k) && d == dest + k && s == src + k && k + 16 + c <= n
    requires Aligned(d) && Aligned(s + c) && Carried(m, s, w0, c)
    modifies mem
    ensures Done(mem[..], m, dest, src, n, k + 16) && Carried(m, s + 16, w, c)
    ensures Aligned(d + 16) && Aligned(s + 16 + c)
  {
    hide *;
    AlignedMore(d);
    AlignedMore(s + c);
    var x := MergeStep(mem, d, s, w0, c, m, dest, src, n, k);
    w := MergeStep(mem, d + 4, s + 4, x, c, m, dest, src, n, k + 4);
    x := MergeStep(mem, d + 8, s + 8, w, c, m, dest, src, n, k + 8);
    w := MergeStep(mem, d + 12, s + 12, x, c, m, dest, src, n, k + 12);
  }

  /** One case of the switch, for c carried bytes: 4 - c single bytes, then sixteen bytes at a time. */
  method CopyMerged(mem: array<Octet>, d0: nat, s0: nat, n0: nat, c: nat, ghost m: seq<Octet>, ghost dest: nat, ghost src: nat, ghost n: nat, ghost k0: nat)
    returns (d: nat, s: nat, rest: nat)
    requires Done(mem[..], m, dest, src, n, k0) && d0 == dest + k0 && s0 == src + k0 && k0 + n0 == n && n0 >= 32
    requires 1 <= c <= 3 && d0 % 4 == c && Aligned(s0)
    modifies mem
    ensures rest < 32 && rest <= n && d == dest + (n - rest) && s == src + (n - rest) && Done(mem[..], m, dest, src, n, n - rest)
  {
    hide *;
    DoneFacts(mem[..], m, dest, src, n, k0);
    LoadIs(mem[..], m, dest, src, n, k0, k0);
    var w := Load32(mem, s0);
    CopyBytes(mem, d0, s0, 4 - c, m, dest, src, n, k0);
    d, s, rest := d0 + (4 - c), s0 + (4 - c), n0 - (4 - c);
    ghost var k := k0 + (4 - c);
    CarriedFirst(m, s0, w, c);
    AlignedAfter(d0, s0, c);
    while rest >= 16 + c
      invariant d == dest + k && s == src + k && k + rest == n && 0 <= rest && Aligned(d) && Aligned(s + c)
      invariant Done(mem[..], m, dest, src, n, k) && Carried(m, s, w, c)
    {
      w := MergeSixteen(mem, d, s, w, c, m, dest, src, n, k);
      s, d, rest, k := s + 16, d + 16, rest - 16, k + 16;
    }
  }

  lemma AlignedAfter(d: nat, s: nat, c: nat)
    requires 1 <= c <= 3 && d % 4 == c && Aligned(s)
    ensures Aligned(d + (4 - c)) && Aligned(s + (4 - c) + c)
  {}

  lemma CarriedFirst(m: seq<Octet>, s: nat, w: nat, c: nat)
    requires 1 <= c <= 3 && s + 4 <= |m| && w == Word32(m[s], m[s + 1], m[s + 2], m[s + 3])
    ensures Carried(m, s + (4 - c), w, c)
  {
    hide Word32;
  }

  /** The last bytes, by the bits of their number. */
  method CopyRest(mem: array<Octet>, d0: nat, s0: nat, rest: nat, ghost m: seq<Octet>, ghost dest: nat, ghost src: nat, ghost n: nat)
    requires rest < 32 && rest <= n && d0 == dest + (n - rest) && s0 == src + (n - rest) && Done(mem[..], m, dest, src, n, n - rest)
    modifies mem
    ensures Done(mem[..], m, dest, src, n, n)
  {
    hide *;
    var d, s := d0, s0;
    ghost var k := n - rest;
    RestBits(rest);
    if BitSet(rest, 16) {
      CopyBytes(mem, d, s, 16, m, dest, src, n, k);
      d, s, k := d + 16, s + 16, k + 16;
    }
    if BitSet(rest, 8) {
      CopyBytes(mem, d, s, 8, m, dest, src, n, k);
      d, s, k := d + 8, s + 8, k + 8;
    }
    if BitSet(rest, 4) {
      CopyBytes(mem, d, s, 4, m, dest, src, n, k);
      d, s, k := d + 4, s + 4, k + 4;
    }
    if BitSet(rest, 2) {
      CopyBytes(mem, d, s, 2, m, dest, src, n, k);
      d, s, k := d + 2, s + 2, k + 2;
    }
    if BitSet(rest, 1) {
      CopyByte(mem, d, s, m, dest, src, n, k);
      k := k + 1;
    }
  }

  lemma CopiedAt(m: seq<Octet>, dest: nat, src: nat, n: nat)
    requires dest + n <= |m| && src + n <= |m|
    ensures forall i :: 0 <= i < |m| ==> Copied(m, dest, src, n)[i] == m[if dest <= i < dest + n then src + (i - dest) else i]
  {}

  /** memcpy_musl(dest, src, n), for every length and every alignment of two buffers that do not overlap:
      exactly the n bytes are copied. */
  method MemCpy(mem: array<Octet>, dest: nat, src: nat, n: nat)
    requires dest + n <= mem.Length && src + n <= mem.Length && (dest + n <= src || src + n <= dest)
    modifies mem
    ensures mem[..] == Copied(old(mem[..]), dest, src, n)
    ensures forall i :: 0 <= i < mem.Length ==> mem[i] == old(mem[..])[if dest <= i < dest + n then src + (i - dest) else i]
  {
    hide *;
    ghost var m := mem[..];
    CopiedAt(m, dest, src, n);
    DoneNone(m, dest, src, n);
    var d, s, rest := dest, src, n;
    while !Aligned(s) && rest != 0
      invariant 0 <= rest <= n && d == dest + (n - rest) && s == src + (n - rest) && Done(mem[..], m, dest, src, n, n - rest)
      decreases rest
    {
      CopyByte(mem, d, s, m, dest, src, n, n - rest);
      d, s, rest := d + 1, s + 1, rest - 1;
    }
    if Aligned(d) {
      CopyAligned(mem, d, s, rest, m, dest, src, n, n - rest);
      DoneAll(mem[..], m, dest, src, n);
      return;
    }
    if rest >= 32 {
      var c := d % 4;
      Unaligned(d);
      d, s, rest := CopyMerged(mem, d, s, rest, c, m, dest, src, n, n - rest);
    }
    CopyRest(mem, d, s, rest, m, dest, src, n);
    DoneAll(mem[..], m, dest, src, n);
  }

  lemma Unaligned(d: nat)
    requires !Aligned(d)
    ensures 1 <= d % 4 <= 3
  {}

  lemma DoneNone(m: seq<Octet>, dest: nat, src: nat, n: nat)
    requires dest + n <= |m| && src + n <= |m| && (dest + n <= src || src + n <= dest)
    ensures Done(m, m, dest, src, n, 0)
  {}

  lemma DoneAll(mem: seq<Octet>, m: seq<Octet>, dest: nat, src: nat, n: nat)
    requires Done(mem, m, dest, src, n, n)
    ensures dest + n <= |m| && src + n <= |m| && mem == Copied(m, dest, src, n)
  {}
}
