/** Pointer doubling in the scratch array: the least element of every cycle of pibar, with
    10-bit payloads for w <= 10 and 16-bit payloads above. */
module CycleMinimaCode {
  import opened Words
  import opened CInt
  import opened SortNetwork
  import opened Permutations
  import opened ControlBitsCode

  // ---------------------------------------------------------------- one word of each loop, w <= 10

  /** B[x] = ((A[x]&0xffff)<<10)|(B[x]&0x3ff); */
  function ShortStart(x: nat, a: int, b: int): (r: int)
  {
    OrInt(Shl(Low(a, 16), 10), Low(b, 10))
  }

  /** A[x] = ((B[x]&~0x3ff)<<6)|x; */
  function ShortLoad(x: nat, a: int, b: int): (r: int)
  {
    OrInt(Shl(High(b, 10), 6), x)
  }

  /** A[x] = (A[x]<<20)|B[x]; */
  function ShortKey(x: nat, a: int, b: int): (r: int)
  {
    OrInt(Shl(a, 20), b)
  }

  /** ppcpx = A[x]&0xfffff; ppcx = (A[x]&0xffc00)|(B[x]&0x3ff); B[x] = min(ppcx,ppcpx); */
  function ShortMin(x: nat, a: int, b: int): (r: int)
  {
    var ppcpx := Low(a, 20);
    var ppcx := OrInt(High(Low(a, 20), 10), Low(b, 10));
    Min(ppcx, ppcpx)
  }

  /** B[x] &= 0x3ff; */
  function ShortKeep(x: nat, a: int, b: int): (r: int)
  {
    Low(b, 10)
  }

  // ---------------------------------------------------------------- one word of each loop, w > 10

  /** (A[x]<<16)|(B[x]&0xffff), for A and for B */
  function LongJoin(x: nat, a: int, b: int): (r: int)
  {
    OrInt(Shl(a, 16), Low(b, 16))
  }

  /** A[x] = (B[x]&~0xffff)|x; */
  function LongLoad(x: nat, a: int, b: int): (r: int)
  {
    OrInt(High(b, 16), x)
  }

  /** B[x] = (A[x]&~0xffff)|(B[x]>>16); */
  function LongSquare(x: nat, a: int, b: int): (r: int)
  {
    OrInt(High(a, 16), Shr(b, 16))
  }

  /** B[x] = (B[x]<<16)|(A[x]&0xffff); */
  function LongRejoin(x: nat, a: int, b: int): (r: int)
  {
    OrInt(Shl(b, 16), Low(a, 16))
  }

  /** cpx = (B[x]&~0xffff)|(A[x]&0xffff); B[x] = min(B[x],cpx); */
  function LongMin(x: nat, a: int, b: int): (r: int)
  {
    var cpx := OrInt(High(b, 16), Low(a, 16));
    Min(cpx, b)
  }

  /** B[x] &= 0xffff; */
  function LongKeep(x: nat, a: int, b: int): (r: int)
  {
    Low(b, 16)
  }

  // ---------------------------------------------------------------- what the words become

  lemma ShortWords(x: nat, p: nat, q: nat, c: nat, e: nat, a: int)
    requires x < 1024 && p < 1024 && q < 1024 && c < 1024 && e < 1024
    ensures ShortStart(x, x * 0x1_0000 + p, q * 0x1_0000 + c) == p * 1024 + c
    ensures ShortLoad(x, a, p * 1024 + c) == p * 0x1_0000 + x
    ensures ShortKey(x, x * 0x1_0000 + q, p * 1024 + c) == q * 0x10_0000 + (p * 1024 + c)
    ensures ShortMin(x, x * 0x10_0000 + (p * 1024 + e), q * 1024 + c) == p * 1024 + Min(c, e)
    ensures ShortKeep(x, a, p * 1024 + c) == c
  {
    hide Shl, Shr, Low, High, OrInt, AddInt, Pow2;
    Sizes();
    // ShortStart
    Unpack(x, 16, p);
    Unpack(q * 64, 10, c);
    Join(p, 10, c);
    // ShortLoad
    Unpack(p, 10, c);
    Join(p * 1024, 6, 0);
    Repack(p, 16, x);
    // ShortKey
    Rekey(x, q, 20, p * 1024 + c);
    // ShortMin
    Unpack(x, 20, p * 1024 + e);
    Unpack(p, 10, e);
    Unpack(q, 10, c);
    Repack(p, 10, c);
  }

  lemma LongWords(x: nat, p: nat, q: nat, c: nat, e: nat, a: int)
    requires x < 16384 && p < 16384 && q < 16384 && c < 16384 && e < 16384
    ensures LongJoin(x, x * 0x1_0000 + p, q * 0x1_0000 + c) == p * 0x1_0000 + c
    ensures LongLoad(x, a, p * 0x1_0000 + c) == p * 0x1_0000 + x
    ensures LongSquare(x, q * 0x1_0000 + e, p * 0x1_0000 + c) == q * 0x1_0000 + p
    ensures LongRejoin(x, q * 0x1_0000 + c, x * 0x1_0000 + p) == p * 0x1_0000 + c
    ensures LongMin(x, x * 0x1_0000 + e, p * 0x1_0000 + c) == p * 0x1_0000 + Min(c, e)
    ensures LongKeep(x, a, p * 0x1_0000 + c) == c
  {
    hide Shl, Shr, Low, High, OrInt, AddInt, Pow2;
    Sizes();
    Unpack(p, 16, c);
    Unpack(q, 16, c);
    Unpack(q, 16, e);
    Unpack(x, 16, e);
    Rekey(x, p, 16, c);
    Repack(p, 16, x);
    Repack(q, 16, p);
    Repack(p, 16, e);
  }

  // ---------------------------------------------------------------- what the loops compute

  lemma LesserAt(c: seq<nat>, e: seq<nat>, x: nat)
    requires |c| == |e| && x < |c|
    ensures Lesser(c, e)[x] == Min(c[x], e[x])
  {}

  lemma ShortLoadAt(p: seq<nat>, c: seq<nat>, a: seq<int>, x: nat)
    requires |p| == |c| == |a| <= 1024 && x < |p|
    requires Below(p, 1024) && Below(c, 1024)
    ensures ShortLoad(x, a[x], Pack(p, c, 1024)[x]) == p[x] * 0x1_0000 + Identity(|p|)[x]
  {
    hide *;
    PackAt(p, c, 1024, x);
    BelowAt(p, 1024, x);
    BelowAt(c, 1024, x);
    ShortWords(x, p[x], 0, c[x], 0, a[x]);
  }

  lemma ShortLoadWords(p: seq<nat>, c: seq<nat>, a: seq<int>)
    requires |p| == |c| == |a| <= 1024 && Below(p, 1024) && Below(c, 1024)
    ensures Mapped(a, Pack(p, c, 1024), ShortLoad) == Pack(p, Identity(|p|), 0x1_0000)
  {
    hide *;
    forall x | 0 <= x < |p|
      ensures ShortLoad(x, a[x], Pack(p, c, 1024)[x]) == p[x] * 0x1_0000 + Identity(|p|)[x]
    {
      ShortLoadAt(p, c, a, x);
    }
    MappedIs(a, Pack(p, c, 1024), ShortLoad, p, Identity(|p|), 0x1_0000);
  }

  /** p and c side by side as 20-bit payloads */
  function Packed(p: seq<nat>, c: seq<nat>): (r: seq<nat>)
    requires |p| == |c|
    ensures |r| == |p|
  {
    seq(|p|, x requires 0 <= x < |p| => p[x] * 1024 + c[x])
  }

  lemma PackedAt(p: seq<nat>, c: seq<nat>, x: nat)
    requires |p| == |c| && x < |p|
    ensures Packed(p, c)[x] == p[x] * 1024 + c[x]
  {}

  lemma ShortKeyAt(q: seq<nat>, p: seq<nat>, c: seq<nat>, x: nat)
    requires |q| == |p| == |c| <= 1024 && x < |q|
    requires Below(q, 1024) && Below(p, 1024) && Below(c, 1024)
    ensures ShortKey(x, Pack(Identity(|q|), q, 0x1_0000)[x], Pack(p, c, 1024)[x]) == q[x] * 0x10_0000 + Packed(p, c)[x]
  {
    hide *;
    PackAt(Identity(|q|), q, 0x1_0000, x);
    PackAt(p, c, 1024, x);
    PackedAt(p, c, x);
    BelowAt(q, 1024, x);
    BelowAt(p, 1024, x);
    BelowAt(c, 1024, x);
    ShortWords(x, p[x], q[x], c[x], 0, 0);
  }

  lemma ShortKeyWords(q: seq<nat>, p: seq<nat>, c: seq<nat>)
    requires |q| == |p| == |c| <= 1024 && Below(q, 1024) && Below(p, 1024) && Below(c, 1024)
    ensures Mapped(Pack(Identity(|q|), q, 0x1_0000), Pack(p, c, 1024), ShortKey) == Pack(q, Packed(p, c), 0x10_0000)
  {
    hide *;
    forall x | 0 <= x < |q|
      ensures ShortKey(x, Pack(Identity(|q|), q, 0x1_0000)[x], Pack(p, c, 1024)[x]) == q[x] * 0x10_0000 + Packed(p, c)[x]
    {
      ShortKeyAt(q, p, c, x);
    }
    MappedIs(Pack(Identity(|q|), q, 0x1_0000), Pack(p, c, 1024), ShortKey, q, Packed(p, c), 0x10_0000);
  }

  lemma PackedBelow(p: seq<nat>, c: seq<nat>)
    requires |p| == |c| && Below(p, 1024) && Below(c, 1024)
    ensures Below(Packed(p, c), 0x10_0000)
  {}

  lemma ShortMinAt(s: seq<nat>, e: seq<nat>, p: seq<nat>, c: seq<nat>, x: nat)
    requires |s| == |e| == |p| == |c| <= 1024 && x < |s|
    requires Below(s, 1024) && Below(e, 1024) && Below(p, 1024) && Below(c, 1024)
    ensures ShortMin(x, Pack(Identity(|s|), Packed(s, e), 0x10_0000)[x], Pack(p, c, 1024)[x]) == s[x] * 1024 + Lesser(c, e)[x]
  {
    hide *;
    PackAt(Identity(|s|), Packed(s, e), 0x10_0000, x);
    PackAt(p, c, 1024, x);
    PackedAt(s, e, x);
    LesserAt(c, e, x);
    BelowAt(s, 1024, x);
    BelowAt(e, 1024, x);
    BelowAt(p, 1024, x);
    BelowAt(c, 1024, x);
    ShortWords(x, s[x], p[x], c[x], e[x], 0);
  }

  lemma ShortMinWords(s: seq<nat>, e: seq<nat>, p: seq<nat>, c: seq<nat>)
    requires |s| == |e| == |p| == |c| <= 1024
    requires Below(s, 1024) && Below(e, 1024) && Below(p, 1024) && Below(c, 1024)
    ensures Mapped(Pack(Identity(|s|), Packed(s, e), 0x10_0000), Pack(p, c, 1024), ShortMin) == Pack(s, Lesser(c, e), 1024)
  {
    hide *;
    forall x | 0 <= x < |s|
      ensures ShortMin(x, Pack(Identity(|s|), Packed(s, e), 0x10_0000)[x], Pack(p, c, 1024)[x]) == s[x] * 1024 + Lesser(c, e)[x]
    {
      ShortMinAt(s, e, p, c, x);
    }
    MappedIs(Pack(Identity(|s|), Packed(s, e), 0x10_0000), Pack(p, c, 1024), ShortMin, s, Lesser(c, e), 1024);
  }

  lemma ShortKeepAt(p: seq<nat>, c: seq<nat>, a: seq<int>, x: nat)
    requires |p| == |c| == |a| <= 1024 && x < |p|
    requires Below(p, 1024) && Below(c, 1024)
    ensures ShortKeep(x, a[x], Pack(p, c, 1024)[x]) == c[x]
  {
    hide *;
    PackAt(p, c, 1024, x);
    BelowAt(p, 1024, x);
    BelowAt(c, 1024, x);
    ShortWords(x, p[x], 0, c[x], 0, a[x]);
  }

  lemma ShortKeepWords(p: seq<nat>, c: seq<nat>, a: seq<int>)
    requires |p| == |c| == |a| <= 1024 && Below(p, 1024) && Below(c, 1024)
    ensures Mapped(a, Pack(p, c, 1024), ShortKeep) == c
  {
    hide *;
    forall x | 0 <= x < |p|
      ensures ShortKeep(x, a[x], Pack(p, c, 1024)[x]) == c[x]
    {
      ShortKeepAt(p, c, a, x);
    }
    MappedTo(a, Pack(p, c, 1024), ShortKeep, c);
  }

  /** Looking up the packed pairs at p. */
  lemma PackedCompose(p: seq<nat>, c: seq<nat>)
    requires IsPerm(p) && |c| == |p|
    ensures Compose(Packed(p, c), p) == Packed(Compose(p, p), Compose(c, p))
  {}

  lemma ComposeBelow(c: seq<nat>, p: seq<nat>, n: nat)
    requires IsPerm(p) && |c| == |p| && Below(c, n)
    ensures Below(Compose(c, p), n) && Below(Lesser(c, Compose(c, p)), n)
  {}

  lemma ScratchB(t: seq<int>, n: nat)
    requires 2 * n <= |t|
    ensures forall a, b :: Scratch(t, n, a, b) ==> HasB(t, n, b) && b == t[n..2 * n]
  {}

  ghost predicate HasB(t: seq<int>, n: nat, b: seq<int>)
  {
    2 * n <= |t| && |b| == n && t[n..2 * n] == b
  }

  /** One doubling step, w <= 10: from (p, c) to (p^2, min(c, c(p))). */
  method ShortDouble(temp: array<int>, ghost w: nat, n: nat, ghost p: seq<nat>, ghost c: seq<nat>)
    requires Size(w, n) && w <= 10 && IsPerm(p) && |p| == |c| == n && Below(c, n)
    requires HasB(temp[..], n, Pack(p, c, 1024))
    modifies temp
    ensures HasB(temp[..], n, Pack(Compose(p, p), Lesser(c, Compose(c, p)), 1024))
    ensures SameRest(old(temp[..]), temp[..], n)
  {
    SizeFacts(w, n);
    ghost var a, b, id, q := temp[..n], Pack(p, c, 1024), Identity(n), Inverse(p);
    ComposeIdentity(p, n);
    ComposeInverse(Packed(p, c), p);
    PackedCompose(p, c);
    ComposePerm(p, p);
    ComposeBelow(c, p, n);
    assert Below(p, 1024) && Below(q, 1024) && Below(c, 1024) && Below(Compose(p, p), 1024) && Below(Compose(c, p), 1024);
    hide IsPerm, Inverse, Compose, Mapped, Pack, Packed, Lesser, Identity, Size;
    ShortLoadWords(p, c, a);
    ForEachA(temp, n, ShortLoad, a, b);                  // A = (p<<16)+id
    SortableShort(w, n, p, id);
    SortA(temp, n, p, id, 0x1_0000, b);                  // A = (id<<16)+p^{-1}
    ShortKeyWords(q, p, c);
    ForEachA(temp, n, ShortKey, Pack(id, q, 0x1_0000), b); // A = (p^{-1}<<20)+(p<<10)+c
    PackedBelow(p, c);
    SortA(temp, n, q, Packed(p, c), 0x10_0000, b);       // A = (id<<20)+(pp<<10)+cp
    ShortMinWords(Compose(p, p), Compose(c, p), p, c);
    ForEachB(temp, n, ShortMin, Pack(id, Packed(Compose(p, p), Compose(c, p)), 0x10_0000), b);
  }

  lemma LongLoadAt(p: seq<nat>, c: seq<nat>, a: seq<int>, x: nat)
    requires |p| == |c| == |a| <= 16384 && x < |p|
    requires Below(p, 16384) && Below(c, 16384)
    ensures LongLoad(x, a[x], Pack(p, c, 0x1_0000)[x]) == p[x] * 0x1_0000 + Identity(|p|)[x]
    ensures LongKeep(x, a[x], Pack(p, c, 0x1_0000)[x]) == c[x]
  {
    hide *;
    PackAt(p, c, 0x1_0000, x);
    BelowAt(p, 16384, x);
    BelowAt(c, 16384, x);
    LongWords(x, p[x], 0, c[x], 0, a[x]);
  }

  lemma LongLoadWords(p: seq<nat>, c: seq<nat>, a: seq<int>)
    requires |p| == |c| == |a| <= 16384 && Below(p, 16384) && Below(c, 16384)
    ensures Mapped(a, Pack(p, c, 0x1_0000), LongLoad) == Pack(p, Identity(|p|), 0x1_0000)
    ensures Mapped(a, Pack(p, c, 0x1_0000), LongKeep) == c
  {
    hide *;
    forall x | 0 <= x < |p|
      ensures LongLoad(x, a[x], Pack(p, c, 0x1_0000)[x]) == p[x] * 0x1_0000 + Identity(|p|)[x]
      ensures LongKeep(x, a[x], Pack(p, c, 0x1_0000)[x]) == c[x]
    {
      LongLoadAt(p, c, a, x);
    }
    MappedIs(a, Pack(p, c, 0x1_0000), LongLoad, p, Identity(|p|), 0x1_0000);
    MappedTo(a, Pack(p, c, 0x1_0000), LongKeep, c);
  }

  lemma LongJoinAt(q: seq<nat>, p: seq<nat>, c: seq<nat>, x: nat)
    requires |q| == |p| == |c| <= 16384 && x < |q|
    requires Below(q, 16384) && Below(p, 16384) && Below(c, 16384)
    ensures LongJoin(x, Pack(Identity(|q|), q, 0x1_0000)[x], Pack(p, c, 0x1_0000)[x]) == q[x] * 0x1_0000 + c[x]
  {
    hide *;
    PackAt(Identity(|q|), q, 0x1_0000, x);
    PackAt(p, c, 0x1_0000, x);
    BelowAt(q, 16384, x);
    BelowAt(p, 16384, x);
    BelowAt(c, 16384, x);
    LongWords(x, q[x], p[x], c[x], 0, 0);
  }

  lemma LongJoinWords(q: seq<nat>, p: seq<nat>, c: seq<nat>)
    requires |q| == |p| == |c| <= 16384 && Below(q, 16384) && Below(p, 16384) && Below(c, 16384)
    ensures Mapped(Pack(Identity(|q|), q, 0x1_0000), Pack(p, c, 0x1_0000), LongJoin) == Pack(q, c, 0x1_0000)
  {
    hide *;
    forall x | 0 <= x < |q|
      ensures LongJoin(x, Pack(Identity(|q|), q, 0x1_0000)[x], Pack(p, c, 0x1_0000)[x]) == q[x] * 0x1_0000 + c[x]
    {
      LongJoinAt(q, p, c, x);
    }
    MappedIs(Pack(Identity(|q|), q, 0x1_0000), Pack(p, c, 0x1_0000), LongJoin, q, c, 0x1_0000);
  }

  lemma LongSquareAt(q: seq<nat>, p: seq<nat>, c: seq<nat>, x: nat)
    requires |q| == |p| == |c| <= 16384 && x < |q|
    requires Below(q, 16384) && Below(p, 16384) && Below(c, 16384)
    ensures LongSquare(x, Pack(q, c, 0x1_0000)[x], Pack(p, c, 0x1_0000)[x]) == q[x] * 0x1_0000 + p[x]
  {
    hide *;
    PackAt(q, c, 0x1_0000, x);
    PackAt(p, c, 0x1_0000, x);
    BelowAt(q, 16384, x);
    BelowAt(p, 16384, x);
    BelowAt(c, 16384, x);
    LongWords(x, p[x], q[x], c[x], c[x], 0);
  }

  lemma LongSquareWords(q: seq<nat>, p: seq<nat>, c: seq<nat>)
    requires |q| == |p| == |c| <= 16384 && Below(q, 16384) && Below(p, 16384) && Below(c, 16384)
    ensures Mapped(Pack(q, c, 0x1_0000), Pack(p, c, 0x1_0000), LongSquare) == Pack(q, p, 0x1_0000)
  {
    hide *;
    forall x | 0 <= x < |q|
      ensures LongSquare(x, Pack(q, c, 0x1_0000)[x], Pack(p, c, 0x1_0000)[x]) == q[x] * 0x1_0000 + p[x]
    {
      LongSquareAt(q, p, c, x);
    }
    MappedIs(Pack(q, c, 0x1_0000), Pack(p, c, 0x1_0000), LongSquare, q, p, 0x1_0000);
  }

  lemma LongRejoinAt(q: seq<nat>, s: seq<nat>, c: seq<nat>, x: nat)
    requires |q| == |s| == |c| <= 16384 && x < |q|
    requires Below(q, 16384) && Below(s, 16384) && Below(c, 16384)
    ensures LongRejoin(x, Pack(q, c, 0x1_0000)[x], Pack(Identity(|s|), s, 0x1_0000)[x]) == s[x] * 0x1_0000 + c[x]
  {
    hide *;
    PackAt(q, c, 0x1_0000, x);
    PackAt(Identity(|s|), s, 0x1_0000, x);
    BelowAt(q, 16384, x);
    BelowAt(s, 16384, x);
    BelowAt(c, 16384, x);
    LongWords(x, s[x], q[x], c[x], 0, 0);
  }

  lemma LongRejoinWords(q: seq<nat>, s: seq<nat>, c: seq<nat>)
    requires |q| == |s| == |c| <= 16384 && Below(q, 16384) && Below(s, 16384) && Below(c, 16384)
    ensures Mapped(Pack(q, c, 0x1_0000), Pack(Identity(|s|), s, 0x1_0000), LongRejoin) == Pack(s, c, 0x1_0000)
  {
    hide *;
    forall x | 0 <= x < |q|
      ensures LongRejoin(x, Pack(q, c, 0x1_0000)[x], Pack(Identity(|s|), s, 0x1_0000)[x]) == s[x] * 0x1_0000 + c[x]
    {
      LongRejoinAt(q, s, c, x);
    }
    MappedIs(Pack(q, c, 0x1_0000), Pack(Identity(|s|), s, 0x1_0000), LongRejoin, s, c, 0x1_0000);
  }

  lemma LongMinAt(e: seq<nat>, p: seq<nat>, c: seq<nat>, x: nat)
    requires |e| == |p| == |c| <= 16384 && x < |e|
    requires Below(e, 16384) && Below(p, 16384) && Below(c, 16384)
    ensures LongMin(x, Pack(Identity(|e|), e, 0x1_0000)[x], Pack(p, c, 0x1_0000)[x]) == p[x] * 0x1_0000 + Lesser(c, e)[x]
  {
    hide *;
    PackAt(Identity(|e|), e, 0x1_0000, x);
    PackAt(p, c, 0x1_0000, x);
    LesserAt(c, e, x);
    BelowAt(e, 16384, x);
    BelowAt(p, 16384, x);
    BelowAt(c, 16384, x);
    LongWords(x, p[x], 0, c[x], e[x], 0);
  }

  lemma LongMinWords(e: seq<nat>, p: seq<nat>, c: seq<nat>)
    requires |e| == |p| == |c| <= 16384 && Below(e, 16384) && Below(p, 16384) && Below(c, 16384)
    ensures Mapped(Pack(Identity(|e|), e, 0x1_0000), Pack(p, c, 0x1_0000), LongMin) == Pack(p, Lesser(c, e), 0x1_0000)
  {
    hide *;
    forall x | 0 <= x < |e|
      ensures LongMin(x, Pack(Identity(|e|), e, 0x1_0000)[x], Pack(p, c, 0x1_0000)[x]) == p[x] * 0x1_0000 + Lesser(c, e)[x]
    {
      LongMinAt(e, p, c, x);
    }
    MappedIs(Pack(Identity(|e|), e, 0x1_0000), Pack(p, c, 0x1_0000), LongMin, p, Lesser(c, e), 0x1_0000);
  }

  /** One doubling step, w > 10. The last one leaves p alone, which nobody reads any more. */
  method LongDouble(temp: array<int>, ghost w: nat, n: nat, last: bool, ghost p: seq<nat>, ghost c: seq<nat>)
    requires Size(w, n) && IsPerm(p) && |p| == |c| == n && Below(c, n)
    requires HasB(temp[..], n, Pack(p, c, 0x1_0000))
    modifies temp
    ensures HasB(temp[..], n, Pack(if last then p else Compose(p, p), Lesser(c, Compose(c, p)), 0x1_0000))
    ensures SameRest(old(temp[..]), temp[..], n)
  {
    SizeFacts(w, n);
    ghost var a, b, id, q := temp[..n], Pack(p, c, 0x1_0000), Identity(n), Inverse(p);
    ComposeIdentity(p, n);
    ComposeInverse(p, p);
    ComposeInverse(c, p);
    ComposePerm(p, p);
    ComposeBelow(c, p, n);
    assert Below(p, 16384) && Below(q, 16384) && Below(c, 16384) && Below(Compose(p, p), 16384) && Below(Compose(c, p), 16384);
    hide IsPerm, Inverse, Compose, Mapped, Pack, Lesser, Identity, Size;
    LongLoadWords(p, c, a);
    ForEachA(temp, n, LongLoad, a, b);                   // A = (p<<16)+id
    SortableShort(w, n, p, id);
    SortA(temp, n, p, id, 0x1_0000, b);                  // A = (id<<16)+p^(-1)
    LongJoinWords(q, p, c);
    ForEachA(temp, n, LongJoin, Pack(id, q, 0x1_0000), b); // A = p^(-1)<<16+c
    ghost var s := p;
    if !last {
      LongSquareWords(q, p, c);
      ForEachB(temp, n, LongSquare, Pack(q, c, 0x1_0000), b); // B = (p^(-1)<<16)+p
      SortableShort(w, n, q, p);
      SortB(temp, n, q, p, 0x1_0000, Pack(q, c, 0x1_0000));   // B = (id<<16)+p^2
      s := Compose(p, p);
      LongRejoinWords(q, s, c);
      ForEachB(temp, n, LongRejoin, Pack(q, c, 0x1_0000), Pack(id, s, 0x1_0000)); // B = (p^2<<16)+c
    }
    SortableShort(w, n, q, c);
    SortA(temp, n, q, c, 0x1_0000, Pack(s, c, 0x1_0000)); // A = id<<16+cp
    LongMinWords(Compose(c, p), s, c);
    ForEachB(temp, n, LongMin, Pack(id, Compose(c, p), 0x1_0000), Pack(s, c, 0x1_0000));
  }

  lemma ShortStartAt(s: seq<nat>, p: seq<nat>, c: seq<nat>, x: nat)
    requires |s| == |p| == |c| <= 1024 && x < |s|
    requires Below(s, 1024) && Below(p, 1024) && Below(c, 1024)
    ensures ShortStart(x, Pack(Identity(|s|), s, 0x1_0000)[x], Pack(p, c, 0x1_0000)[x]) == s[x] * 1024 + c[x]
  {
    hide *;
    PackAt(Identity(|s|), s, 0x1_0000, x);
    PackAt(p, c, 0x1_0000, x);
    BelowAt(s, 1024, x);
    BelowAt(p, 1024, x);
    BelowAt(c, 1024, x);
    ShortWords(x, s[x], p[x], c[x], 0, 0);
  }

  lemma ShortStartWords(s: seq<nat>, p: seq<nat>, c: seq<nat>)
    requires |s| == |p| == |c| <= 1024 && Below(s, 1024) && Below(p, 1024) && Below(c, 1024)
    ensures Mapped(Pack(Identity(|s|), s, 0x1_0000), Pack(p, c, 0x1_0000), ShortStart) == Pack(s, c, 1024)
  {
    hide *;
    forall x | 0 <= x < |s|
      ensures ShortStart(x, Pack(Identity(|s|), s, 0x1_0000)[x], Pack(p, c, 0x1_0000)[x]) == s[x] * 1024 + c[x]
    {
      ShortStartAt(s, p, c, x);
    }
    MappedIs(Pack(Identity(|s|), s, 0x1_0000), Pack(p, c, 0x1_0000), ShortStart, s, c, 1024);
  }

  /** One doubling step on the iterates and minima of pibar. */
  lemma DoublingStepMeaning(p: seq<nat>, n: nat, i: nat)
    requires IsPerm(p) && |p| == n
    ensures var m := Pow2(i);
            && IsPerm(Power(p, m)) && Below(Power(p, m), n) && Below(Mins(p, m), n)
            && Compose(Power(p, m), Power(p, m)) == Power(p, Pow2(i + 1))
            && Lesser(Mins(p, m), Compose(Mins(p, m), Power(p, m))) == Mins(p, Pow2(i + 1))
  {
    var m := Pow2(i);
    assert Pow2(i + 1) == 2 * m;
    PowerPerm(p, m);
    MinsBelow(p, m);
    PowerDoubles(p, m);
    MinsDouble(p, m);
  }

  lemma BelowMonotone(s: seq<nat>, n: nat, m: nat)
    requires Below(s, n) && n <= m
    ensures Below(s, m)
  {}

  /** Only the minima stay. */
  method ShortMask(temp: array<int>, n: nat, ghost p: seq<nat>, ghost c: seq<nat>)
    requires |p| == |c| == n <= 1024 && Below(p, n) && Below(c, n) && HasB(temp[..], n, Pack(p, c, 1024))
    modifies temp
    ensures HasB(temp[..], n, c) && SameRest(old(temp[..]), temp[..], n)
  {
    BelowMonotone(p, n, 1024);
    BelowMonotone(c, n, 1024);
    hide Pack, Mapped, Below;
    ShortKeepWords(p, c, temp[..n]);
    ForEachB(temp, n, ShortKeep, temp[..n], Pack(p, c, 1024));
  }

  /** B at the start of round i: the 2^i-th iterates and the minima of the first 2^i iterates. */
  ghost function ShortRound(p: seq<nat>, i: nat): (b: seq<int>)
    requires IsPerm(p)
    ensures |b| == |p|
  {
    Pack(Power(p, Pow2(i)), Mins(p, Pow2(i)), 1024)
  }

  /** The loop for w <= 10. */
  method ShortMinima(temp: array<int>, w: nat, n: nat, ghost p: seq<nat>)
    requires 2 <= w <= 10 && Size(w, n) && IsPerm(p) && |p| == n && HasB(temp[..], n, ShortRound(p, 1))
    modifies temp
    ensures HasB(temp[..], n, ShortRound(p, w - 1)) && SameRest(old(temp[..]), temp[..], n)
  {
    assert SameRest(temp[..], temp[..], n);
    hide ShortRound, HasB, Size, IsPerm, Mins, SameRest;
    var i := 1;
    while i < w - 1
      invariant 1 <= i <= w - 1
      invariant HasB(temp[..], n, ShortRound(p, i)) && SameRest(old(temp[..]), temp[..], n)
    {
      ghost var before := temp[..];
      ShortStep(temp, w, n, p, i);
      SameRestTransitive(old(temp[..]), before, temp[..], n);
      i := i + 1;
    }
    assert i == w - 1;
  }

  lemma SameRestTransitive(s: seq<int>, t: seq<int>, u: seq<int>, n: nat)
    requires SameRest(s, t, n) && SameRest(t, u, n)
    ensures SameRest(s, u, n)
  {}

  method ShortStep(temp: array<int>, ghost w: nat, n: nat, ghost p: seq<nat>, ghost i: nat)
    requires Size(w, n) && w <= 10 && IsPerm(p) && |p| == n && HasB(temp[..], n, ShortRound(p, i))
    modifies temp
    ensures HasB(temp[..], n, ShortRound(p, i + 1)) && SameRest(old(temp[..]), temp[..], n)
  {
    DoublingStepMeaning(p, n, i);
    hide Size, IsPerm, Below, Power, Mins, Pow2, HasB, SameRest, Pack, Compose, Lesser;
    ShortDouble(temp, w, n, Power(p, Pow2(i)), Mins(p, Pow2(i)));
  }

  method ShortFinish(temp: array<int>, ghost w: nat, n: nat, ghost p: seq<nat>)
    requires 2 <= w <= 10 && Size(w, n) && IsPerm(p) && |p| == n && HasB(temp[..], n, ShortRound(p, w - 1))
    modifies temp
    ensures HasB(temp[..], n, Mins(p, Pow2(w - 1))) && SameRest(old(temp[..]), temp[..], n)
  {
    SizeFacts(w, n);
    ghost var i := w - 1;
    DoublingStepMeaning(p, n, i);
    hide Size, IsPerm, Below, Power, Mins, Pow2, HasB, SameRest, Pack, Compose, Lesser;
    ShortMask(temp, n, Power(p, Pow2(i)), Mins(p, Pow2(i)));
  }

  /** The same for w > 10; what p is after the last round does not matter. */
  ghost predicate LongRound(w: nat, p: seq<nat>, i: nat, b: seq<int>)
    requires IsPerm(p)
  {
    exists s: seq<nat> ::
      IsPerm(s) && |s| == |p| && (i < w - 1 ==> s == Power(p, Pow2(i))) && b == Pack(s, Mins(p, Pow2(i)), 0x1_0000)
  }

  /** The loop for w > 10. */
  method LongMinima(temp: array<int>, w: nat, n: nat, ghost p: seq<nat>)
    requires w >= 2 && Size(w, n) && IsPerm(p) && |p| == n
    requires 2 * n <= temp.Length && LongRound(w, p, 1, temp[n..2 * n])
    modifies temp
    ensures LongRound(w, p, w - 1, temp[n..2 * n]) && SameRest(old(temp[..]), temp[..], n)
  {
    assert SameRest(temp[..], temp[..], n);
    hide LongRound, HasB, Size, IsPerm, Mins, SameRest;
    var i := 1;
    while i < w - 1
      invariant 1 <= i <= w - 1
      invariant LongRound(w, p, i, temp[n..2 * n]) && SameRest(old(temp[..]), temp[..], n)
    {
      ghost var before := temp[..];
      LongStep(temp, w, n, p, i);
      SameRestTransitive(old(temp[..]), before, temp[..], n);
      i := i + 1;
    }
    assert i == w - 1;
  }

  method LongStep(temp: array<int>, w: nat, n: nat, ghost p: seq<nat>, i: nat)
    requires Size(w, n) && IsPerm(p) && |p| == n && 2 * n <= temp.Length && i < w - 1 && LongRound(w, p, i, temp[n..2 * n])
    modifies temp
    ensures LongRound(w, p, i + 1, temp[n..2 * n]) && SameRest(old(temp[..]), temp[..], n)
  {
    DoublingStepMeaning(p, n, i);
    DoublingStepMeaning(p, n, i + 1);
    ghost var s, c := Power(p, Pow2(i)), Mins(p, Pow2(i));
    hide Size, IsPerm, Below, Power, Mins, Pow2, SameRest, Pack, Compose, Lesser;
    LongDouble(temp, w, n, i == w - 2, s, c);
    ghost var t := if i == w - 2 then s else Compose(s, s);
    assert temp[n..2 * n] == Pack(t, Mins(p, Pow2(i + 1)), 0x1_0000);
  }

  method LongFinish(temp: array<int>, ghost w: nat, n: nat, ghost p: seq<nat>, ghost i: nat)
    requires Size(w, n) && IsPerm(p) && |p| == n && 2 * n <= temp.Length && LongRound(w, p, i, temp[n..2 * n])
    modifies temp
    ensures HasB(temp[..], n, Mins(p, Pow2(i))) && SameRest(old(temp[..]), temp[..], n)
  {
    SizeFacts(w, n);
    DoublingStepMeaning(p, n, i);
    ghost var c := Mins(p, Pow2(i));
    ghost var s: seq<nat> :| IsPerm(s) && |s| == |p| && temp[n..2 * n] == Pack(s, c, 0x1_0000);
    assert Below(s, n);
    BelowMonotone(s, n, 16384);
    BelowMonotone(c, n, 16384);
    hide Size, IsPerm, Below, Power, Mins, Pow2, SameRest, Pack, Mapped;
    LongLoadWords(s, c, temp[..n]);
    ForEachB(temp, n, LongKeep, temp[..n], Pack(s, c, 0x1_0000));
  }

  lemma LongRoundStart(w: nat, p: seq<nat>)
    requires IsPerm(p)
    ensures LongRound(w, p, 1, Pack(Power(p, 2), Mins(p, 2), 0x1_0000))
  {
    assert Pow2(1) == 2;
    PowerPerm(p, 2);
  }

  lemma ShortRoundStart(p: seq<nat>)
    requires IsPerm(p)
    ensures ShortRound(p, 1) == Pack(Power(p, 2), Mins(p, 2), 1024)
  {
    assert Pow2(1) == 2;
  }

  lemma SquareBelow(n: nat, p: seq<nat>, k: nat)
    requires IsPerm(p) && |p| == n <= k
    ensures Below(Power(p, 2), k) && Below(p, k) && Below(Mins(p, 2), k)
  {
    MinsBelow(p, 2);
  }

  /** B becomes the least elements of the cycles of p, for w <= 10. */
  method ShortCycleMinima(temp: array<int>, w: nat, n: nat, ghost p: seq<nat>, ghost b: seq<int>)
    requires w <= 10 && Size(w, n) && IsPerm(p) && |p| == n && b == Pack(p, Mins(p, 2), 0x1_0000)
    requires Scratch(temp[..], n, Pack(Identity(n), Power(p, 2), 0x1_0000), b)
    modifies temp
    ensures HasB(temp[..], n, Mins(p, Pow2(w - 1))) && SameRest(old(temp[..]), temp[..], n)
  {
    SizeFacts(w, n);
    SquareBelow(n, p, 1024);
    ShortRoundStart(p);
    ghost var a, start := Pack(Identity(n), Power(p, 2), 0x1_0000), temp[..];
    hide Power, Mins, Pack, Mapped, Identity, Size, IsPerm, Below, SameRest, HasB, Scratch, ShortRound, Pow2;
    ShortStartWords(Power(p, 2), p, Mins(p, 2));
    ForEachB(temp, n, ShortStart, a, b);
    ghost var t := temp[..];
    ScratchB(t, n);
    ShortMinima(temp, w, n, p);
    ghost var u := temp[..];
    ShortFinish(temp, w, n, p);
    SameRestTransitive(start, t, u, n);
    SameRestTransitive(start, u, temp[..], n);
  }

  /** B becomes the least elements of the cycles of p, for w > 10. */
  method LongCycleMinima(temp: array<int>, w: nat, n: nat, ghost p: seq<nat>, ghost b: seq<int>)
    requires w > 10 && Size(w, n) && IsPerm(p) && |p| == n && b == Pack(p, Mins(p, 2), 0x1_0000)
    requires Scratch(temp[..], n, Pack(Identity(n), Power(p, 2), 0x1_0000), b)
    modifies temp
    ensures HasB(temp[..], n, Mins(p, Pow2(w - 1))) && SameRest(old(temp[..]), temp[..], n)
  {
    SizeFacts(w, n);
    SquareBelow(n, p, 16384);
    LongRoundStart(w, p);
    ghost var a, start := Pack(Identity(n), Power(p, 2), 0x1_0000), temp[..];
    hide Power, Mins, Pack, Mapped, Identity, Size, IsPerm, Below, SameRest, HasB, Scratch, LongRound, Pow2;
    LongJoinWords(Power(p, 2), p, Mins(p, 2));
    ForEachB(temp, n, LongJoin, a, b);
    ghost var t := temp[..];
    ScratchB(t, n);
    LongMinima(temp, w, n, p);
    ghost var u := temp[..];
    LongFinish(temp, w, n, p, w - 1);
    SameRestTransitive(start, t, u, n);
    SameRestTransitive(start, u, temp[..], n);
  }

  /** B becomes the least elements of the cycles of p. */
  method CycleMinima(temp: array<int>, w: nat, n: nat, ghost p: seq<nat>)
    requires Size(w, n) && IsPerm(p) && |p| == n
    requires Scratch(temp[..], n, Pack(Identity(n), Power(p, 2), 0x1_0000), Pack(p, Mins(p, 2), 0x1_0000))
    modifies temp
    ensures HasB(temp[..], n, Mins(p, n / 2)) && SameRest(old(temp[..]), temp[..], n)
  {
    SizeFacts(w, n);
    ghost var h := n / 2;
    assert h == Pow2(w - 1);
    if w <= 10 {
      ShortCycleMinima(temp, w, n, p, Pack(p, Mins(p, 2), 0x1_0000));
    } else {
      LongCycleMinima(temp, w, n, p, Pack(p, Mins(p, 2), 0x1_0000));
    }
  }
}
