/** The computation of the control bits in the scratch array, as the C code performs it. */
module ControlBitsCode {
  import opened Words
  import opened CInt
  import opened SortNetwork
  import opened Permutations
  import opened Cycles
  import opened BenesNetwork

  // ---------------------------------------------------------------- the scratch array

  /** The scratch array holds A in its first n words and B in the next n. */
  ghost predicate Scratch(t: seq<int>, n: nat, a: seq<int>, b: seq<int>)
  {
    |a| == |b| == n && 2 * n <= |t| && t[..n] == a && t[n..2 * n] == b
  }

  /** The words behind A and B. */
  ghost predicate SameRest(s: seq<int>, t: seq<int>, n: nat)
  {
    |s| == |t| && 2 * n <= |s| && s[2 * n..] == t[2 * n..]
  }

  /** The new A or B of a loop over x that computes it from the old A[x] and B[x]. */
  function Mapped(a: seq<int>, b: seq<int>, f: (nat, int, int) -> int): (r: seq<int>)
    requires |a| == |b|
    ensures |r| == |a|
  {
    seq(|a|, x requires 0 <= x < |a| => f(x, a[x], b[x]))
  }

  /** for (x = 0;x < n;++x) A[x] = f(x, A[x], B[x]); */
  method ForEachA(temp: array<int>, n: nat, f: (nat, int, int) -> int, ghost a: seq<int>, ghost b: seq<int>)
    requires Scratch(temp[..], n, a, b)
    modifies temp
    ensures Scratch(temp[..], n, Mapped(a, b, f), b) && SameRest(old(temp[..]), temp[..], n)
  {
    var x := 0;
    while x < n
      invariant 0 <= x <= n
      invariant forall i :: 0 <= i < x ==> temp[i] == f(i, a[i], b[i])
      invariant forall i :: x <= i < n ==> temp[i] == a[i]
      invariant forall i :: n <= i < temp.Length ==> temp[i] == old(temp[i])
      invariant temp[n..2 * n] == b
    {
      assert b[x] == temp[n..2 * n][x];
      temp[x] := f(x, temp[x], temp[n + x]);
      x := x + 1;
    }
  }

  /** for (x = 0;x < n;++x) B[x] = f(x, A[x], B[x]); */
  method ForEachB(temp: array<int>, n: nat, f: (nat, int, int) -> int, ghost a: seq<int>, ghost b: seq<int>)
    requires Scratch(temp[..], n, a, b)
    modifies temp
    ensures Scratch(temp[..], n, a, Mapped(a, b, f)) && SameRest(old(temp[..]), temp[..], n)
  {
    var x := 0;
    assert forall i :: 0 <= i < n ==> temp[n + i] == temp[n..2 * n][i];
    while x < n
      invariant 0 <= x <= n
      invariant forall i :: 0 <= i < x ==> temp[n + i] == f(i, a[i], b[i])
      invariant forall i :: x <= i < n ==> temp[n + i] == b[i]
      invariant forall i :: 2 * n <= i < temp.Length ==> temp[i] == old(temp[i])
      invariant temp[..n] == a
    {
      assert a[x] == temp[..n][x];
      temp[n + x] := f(x, temp[x], temp[n + x]);
      x := x + 1;
    }
  }

  /** The packed words sorted by key. */
  ghost function ByKey(key: seq<nat>, payload: seq<nat>, base: nat): (r: seq<int>)
    requires IsPerm(key) && |payload| == |key|
    ensures |r| == |key|
  {
    Pack(Identity(|key|), Compose(payload, Inverse(key)), base)
  }

  ghost predicate Sortable(key: seq<nat>, payload: seq<nat>, base: nat)
  {
    IsPerm(key) && |payload| == |key| && Below(payload, base) && |key| * base <= 0x8000_0000
  }

  lemma SortableInRange(key: seq<nat>, payload: seq<nat>, base: nat)
    requires Sortable(key, payload, base)
    ensures AllInRange(Int32, Pack(key, payload, base))
  {
    hide Pow2;
    Pow2Values();
    forall x | 0 <= x < |key| ensures 0 <= key[x] * base + payload[x] < 0x8000_0000 {
      PackedBound(key[x], |key|, base, payload[x]);
    }
  }

  lemma PackedBound(k: nat, n: nat, base: nat, v: nat)
    requires k < n && v < base
    ensures 0 <= k * base + v < n * base
  {
    KeyOrder(base, k, n, v, 0);
    assert k * base >= 0;
  }

  /** int32_sort(A,n) */
  method SortA(temp: array<int>, n: nat, ghost key: seq<nat>, ghost payload: seq<nat>, ghost base: nat, ghost b: seq<int>)
    requires Sortable(key, payload, base) && Scratch(temp[..], n, Pack(key, payload, base), b)
    modifies temp
    ensures Scratch(temp[..], n, ByKey(key, payload, base), b) && SameRest(old(temp[..]), temp[..], n)
  {
    SortableInRange(key, payload, base);
    hide AllInRange, Sorted, Permutes, Pack, IsPerm;
    assert temp[0..0 + n] == temp[..n];
    Sort(Int32, temp, 0, n);
    SortsByKey(key, payload, base, temp[0..0 + n]);
    assert temp[..n] == temp[0..0 + n];
    assert temp[n..2 * n] == temp[0 + n..][..n] && old(temp[n..2 * n]) == old(temp[0 + n..])[..n];
    assert temp[2 * n..] == temp[0 + n..][n..] && old(temp[2 * n..]) == old(temp[0 + n..])[n..];
  }

  /** int32_sort(B,n) */
  method SortB(temp: array<int>, n: nat, ghost key: seq<nat>, ghost payload: seq<nat>, ghost base: nat, ghost a: seq<int>)
    requires Sortable(key, payload, base) && Scratch(temp[..], n, a, Pack(key, payload, base))
    modifies temp
    ensures Scratch(temp[..], n, a, ByKey(key, payload, base)) && SameRest(old(temp[..]), temp[..], n)
  {
    SortableInRange(key, payload, base);
    hide AllInRange, Sorted, Permutes, Pack, IsPerm;
    assert temp[n..n + n] == temp[n..2 * n];
    Sort(Int32, temp, n, n);
    SortsByKey(key, payload, base, temp[n..n + n]);
    assert temp[n..2 * n] == temp[n..n + n];
    assert temp[2 * n..] == temp[n + n..] && old(temp[2 * n..]) == old(temp[n + n..]);
  }

  // ---------------------------------------------------------------- the cycles of pibar

  /** 2 <= w <= 14 and n = 2^w, so that n * 2^16 fits an int32. */
  ghost predicate Size(w: nat, n: nat)
  {
    2 <= w <= 14 && n == Pow2(w)
  }

  lemma {:induction false} Pow2Monotone(k: nat, l: nat)
    requires k <= l
    ensures Pow2(k) <= Pow2(l)
    decreases l
  {
    if k < l { Pow2Monotone(k, l - 1); }
  }

  lemma SizeFacts(w: nat, n: nat)
    requires Size(w, n)
    ensures 2 <= w <= 14 && n == Pow2(w)
    ensures 4 <= n <= 16384 && n % 2 == 0 && n / 2 == Pow2(w - 1) && n / 2 % 2 == 0
    ensures w <= 10 ==> n <= 1024
  {
    hide Pow2;
    Sizes();
    Pow2Monotone(w, 14);
    if w <= 10 { Pow2Monotone(w, 10); }
    Halving(w);
  }

  lemma Halving(w: nat)
    requires w >= 2
    ensures Pow2(w) >= 4 && Pow2(w) == 2 * Pow2(w - 1) && Pow2(w - 1) % 2 == 0
  {}

  /** Words of 16-bit payloads below n can be sorted by a permutation of n. */
  lemma SortableShort(w: nat, n: nat, key: seq<nat>, payload: seq<nat>)
    requires Size(w, n) && IsPerm(key) && |key| == |payload| == n && Below(payload, n)
    ensures Sortable(key, payload, 0x1_0000)
  {
    SizeFacts(w, n);
  }

  ghost function Power(p: seq<nat>, m: nat): (r: seq<nat>)
    requires IsPerm(p)
    ensures |r| == |p|
    ensures forall x :: 0 <= x < |p| ==> r[x] == Iterate(p, x, m) < |p|
  {
    seq(|p|, x requires 0 <= x < |p| => Iterate(p, x, m))
  }

  ghost function Mins(p: seq<nat>, m: nat): (r: seq<nat>)
    requires IsPerm(p) && m > 0
    ensures |r| == |p|
    ensures forall x :: 0 <= x < |p| ==> r[x] == OrbitMin(p, x, m)
  {
    seq(|p|, x requires 0 <= x < |p| => OrbitMin(p, x, m))
  }

  lemma PowerPerm(p: seq<nat>, m: nat)
    requires IsPerm(p)
    ensures IsPerm(Power(p, m))
  {
    hide Iterate;
    var r := Power(p, m);
    forall x, y | 0 <= x < |p| && 0 <= y < |p| && r[x] == r[y] ensures x == y {
      IterateInjective(p, x, y, m);
    }
  }

  lemma PowerDoubles(p: seq<nat>, m: nat)
    requires IsPerm(p)
    ensures Compose(Power(p, m), Power(p, m)) == Power(p, 2 * m)
  {
    hide Iterate, IsPerm;
    var r := Power(p, m);
    forall x | 0 <= x < |p| ensures r[r[x]] == Power(p, 2 * m)[x] {
      IterateAdd(p, x, m, m);
    }
  }

  lemma MinsBelow(p: seq<nat>, m: nat)
    requires IsPerm(p) && m > 0
    ensures Below(Mins(p, m), |p|)
  {
    hide Iterate, IsPerm, OrbitMin;
    forall x | 0 <= x < |p| ensures OrbitMin(p, x, m) < |p| {
      var k :| 0 <= k < m && Iterate(p, x, k) == OrbitMin(p, x, m);
    }
  }

  /** The lesser of c(x) and c(p(x)), for all x. */
  ghost function Lesser(c: seq<nat>, e: seq<nat>): (r: seq<nat>)
    requires |c| == |e|
    ensures |r| == |c|
  {
    seq(|c|, x requires 0 <= x < |c| => if e[x] < c[x] then e[x] else c[x])
  }

  lemma MinsDouble(p: seq<nat>, m: nat)
    requires IsPerm(p) && m > 0
    ensures Lesser(Mins(p, m), Compose(Mins(p, m), Power(p, m))) == Mins(p, 2 * m)
  {
    hide Iterate, IsPerm, OrbitMin;
    var c, r := Mins(p, m), Power(p, m);
    forall x | 0 <= x < |p|
      ensures (if c[r[x]] < c[x] then c[r[x]] else c[x]) == Mins(p, 2 * m)[x]
    {
      OrbitMinDoubles(p, x, m);
    }
  }

  // ---------------------------------------------------------------- where pi is stored

  /** pi is an array of int16: one of its own for the outermost call, and the upper part of the
      scratch array, two to a word, for the recursive ones. */
  datatype View = Shorts(cells: array<int>, at: nat) | Halves(cells: array<int>, at: nat) {
    /** The element x of an int16 array at this place. */
    function Read(s: seq<int>, x: nat): (v: int)
      requires Inside(|s|, x + 1)
    {
      if Shorts? then s[at + x]
      else if (at + x) % 2 == 0 then Signed(16, Pattern(16, s[(at + x) / 2]))
      else Signed(16, Pattern(16, Shr(s[(at + x) / 2], 16)))
    }

    predicate Inside(length: nat, n: nat)
    {
      if Shorts? then at + n <= length else at + n <= 2 * length
    }

    ghost predicate ShowsIn(s: seq<int>, p: seq<nat>)
    {
      Inside(|s|, |p|) && forall x :: 0 <= x < |p| ==> Read(s, x) == p[x]
    }

    ghost predicate Shows(p: seq<nat>)
      reads cells
    {
      ShowsIn(cells[..], p)
    }

    /** The first m words of the scratch array are free to be written. */
    ghost predicate Apart(temp: array<int>, m: nat)
    {
      if cells == temp then Halves? && at >= 2 * m else true
    }
  }

  /** Writing A and B leaves pi in place. */
  lemma StillShows(pi: View, s: seq<int>, t: seq<int>, n: nat, perm: seq<nat>)
    requires pi.Halves? && pi.at >= 4 * n && pi.ShowsIn(s, perm) && SameRest(s, t, n)
    ensures pi.ShowsIn(t, perm)
  {
    forall x | 0 <= x < |perm| ensures pi.Read(t, x) == perm[x] {
      var i := (pi.at + x) / 2;
      assert s[2 * n..][i - 2 * n] == t[2 * n..][i - 2 * n];
      assert pi.Read(s, x) == perm[x];
    }
  }

  /** ((pi[x]^1)<<16)|pi[x^1] */
  function FirstKeys(perm: seq<nat>): (k: seq<nat>)
    ensures |k| == |perm|
  {
    seq(|perm|, x requires 0 <= x < |perm| => Flip(perm[x]))
  }

  ghost function FirstPayload(perm: seq<nat>): (v: seq<nat>)
    requires EvenPerm(perm)
    ensures |v| == |perm|
  {
    seq(|perm|, x requires 0 <= x < |perm| => FirstPayloadAt(perm, x))
  }

  ghost function FirstPayloadAt(perm: seq<nat>, x: nat): (v: nat)
    requires EvenPerm(perm) && x < |perm|
  {
    FlipInRange(x, |perm|);
    perm[Flip(x)]
  }

  /** Sorting by the first keys yields pibar. */
  lemma FirstSort(perm: seq<nat>)
    requires EvenPerm(perm)
    ensures IsPerm(FirstKeys(perm)) && Below(FirstPayload(perm), |perm|)
    ensures Compose(FirstPayload(perm), Inverse(FirstKeys(perm))) == Pibar(perm)
  {
    var k, v, n := FirstKeys(perm), FirstPayload(perm), |perm|;
    forall x | 0 <= x < n ensures k[x] < n && v[x] < n && Flip(k[x]) == perm[x] {
      FlipInRange(perm[x], n);
      FlipInRange(x, n);
    }
    assert IsPerm(k);
    hide Pibar, PibarAt, Flip;
    forall y | 0 <= y < n ensures v[Inverse(k)[y]] == Pibar(perm)[y] {
      var x := Inverse(k)[y];
      assert k[x] == Flip(perm[x]);
      PibarOfPartner(perm, x);
      assert v[x] == perm[Flip(x)];
    }
  }

  /** for (x = 0;x < n;++x) A[x] = ((pi[x]^1)<<16)|pi[x^1]; */
  method LoadPairs(temp: array<int>, ghost w: nat, n: nat, pi: View, ghost perm: seq<nat>)
    requires Size(w, n) && 2 * n <= temp.Length && |perm| == n && EvenPerm(perm) && pi.Shows(perm) && pi.Apart(temp, 2 * n)
    modifies temp
    ensures temp[..n] == Pack(FirstKeys(perm), FirstPayload(perm), 0x1_0000)
    ensures temp[n..] == old(temp[n..])
  {
    SizeFacts(w, n);
    var x := 0;
    while x < n
      invariant 0 <= x <= n
      invariant temp[..x] == Pack(FirstKeys(perm), FirstPayload(perm), 0x1_0000)[..x]
      invariant temp[n..] == old(temp[n..]) && pi.Shows(perm)
    {
      ghost var before := pi.cells[..];
      LoadedAt(pi, before, w, n, perm, x);
      temp[x] := OrInt(Shl(Flip(pi.Read(pi.cells[..], x)), 16), pi.Read(pi.cells[..], Flip(x)));
      if pi.cells == temp { StillShows(pi, before, temp[..], n, perm); }
      x := x + 1;
    }
  }

  lemma LoadedAt(pi: View, s: seq<int>, w: nat, n: nat, perm: seq<nat>, x: nat)
    requires Size(w, n) && |perm| == n && EvenPerm(perm) && pi.ShowsIn(s, perm) && x < n
    ensures Flip(x) < n && pi.Inside(|s|, n) && pi.Inside(|s|, x + 1) && pi.Inside(|s|, Flip(x) + 1)
    ensures pi.Read(s, x) == perm[x] && OrInt(Shl(Flip(perm[x]), 16), pi.Read(s, Flip(x)))
         == Pack(FirstKeys(perm), FirstPayload(perm), 0x1_0000)[x]
  {
    SizeFacts(w, n);
    FlipInRange(x, n);
    assert perm[x] < n && perm[Flip(x)] < n && pi.Read(s, Flip(x)) == perm[Flip(x)];
    hide Shl, OrInt, Size, EvenPerm;
    LoadedPair(perm[x], perm[Flip(x)]);
  }

  lemma LoadedPair(a: nat, b: nat)
    requires a < 16384 && b < 16384
    ensures OrInt(Shl(Flip(a), 16), b) == Flip(a) * 0x1_0000 + b
  {
    hide Shl, OrInt, Pow2;
    Sizes();
    Join(Flip(a), 16, b);
  }

  // ---------------------------------------------------------------- one word of each loop

  /** px = Ax&0xffff; cx = min(px,x); B[x] = (px<<16)|cx; */
  function PairWithMin(x: nat, a: int, b: int): (r: int)
  {
    var px := Low(a, 16);
    OrInt(Shl(px, 16), Min(px, x))
  }

  /** A[x] = (A[x]<<16)|x; */
  function SwapWithIndex(x: nat, a: int, b: int): (r: int)
  {
    OrInt(Shl(a, 16), x)
  }

  /** A[x] = (A[x]<<16)+(B[x]>>16); */
  function SwapWithHigh(x: nat, a: int, b: int): (r: int)
  {
    AddInt(Shl(a, 16), Shr(b, 16))
  }

  lemma FirstWords(x: nat, v: nat, h: nat, l: nat, other: int)
    requires x < 16384 && v < 16384 && h < 16384 && l < 16384
    ensures PairWithMin(x, x * 0x1_0000 + v, other) == v * 0x1_0000 + Min(v, x)
    ensures SwapWithIndex(x, x * 0x1_0000 + v, other) == v * 0x1_0000 + x
    ensures SwapWithHigh(x, x * 0x1_0000 + v, h * 0x1_0000 + l) == v * 0x1_0000 + h
  {
    hide Shl, Shr, Low, OrInt, AddInt, Pow2;
    Sizes();
    Unpack(x, 16, v);
    Unpack(h, 16, l);
    Join(v, 16, Min(v, x));
    Rekey(x, v, 16, x);
    Rekey(x, v, 16, h);
  }

  lemma MappedIs(a: seq<int>, b: seq<int>, f: (nat, int, int) -> int, key: seq<nat>, payload: seq<nat>, base: nat)
    requires |a| == |b| == |key| == |payload|
    requires forall x :: 0 <= x < |a| ==> f(x, a[x], b[x]) == key[x] * base + payload[x]
    ensures Mapped(a, b, f) == Pack(key, payload, base)
  {}

  lemma PackAt(key: seq<nat>, payload: seq<nat>, base: nat, x: nat)
    requires |key| == |payload| && x < |key|
    ensures Pack(key, payload, base)[x] == key[x] * base + payload[x]
  {}

  lemma BelowAt(s: seq<nat>, bound: nat, x: nat)
    requires Below(s, bound) && x < |s|
    ensures s[x] < bound
  {}

  lemma MappedTo(a: seq<int>, b: seq<int>, f: (nat, int, int) -> int, r: seq<int>)
    requires |a| == |b| == |r| && forall x :: 0 <= x < |a| ==> f(x, a[x], b[x]) == r[x]
    ensures Mapped(a, b, f) == r
  {}

  lemma ComposeIdentity(p: seq<nat>, n: nat)
    requires IsPerm(p) && |p| == n
    ensures Compose(Identity(n), Inverse(p)) == Inverse(p)
    ensures IsPerm(Identity(n)) && Below(Identity(n), n) && Below(p, n) && Below(Inverse(p), n)
  {
    InversePerm(p);
  }

  /** Sorting what is keyed by the inverse of p applies p. */
  lemma ComposeInverse(v: seq<nat>, p: seq<nat>)
    requires IsPerm(p) && |v| == |p|
    ensures IsPerm(Inverse(p)) && Compose(v, Inverse(Inverse(p))) == Compose(v, p)
  {
    InversePerm(p);
    InverseUnique(Inverse(p), p);
  }

  lemma PowerFacts(p: seq<nat>)
    requires IsPerm(p)
    ensures Power(p, 1) == p && Compose(p, p) == Power(p, 2)
    ensures Lesser(Identity(|p|), p) == Mins(p, 2)
  {
    assert forall x :: 0 <= x < |p| ==> Iterate(p, x, 0) == x && Iterate(p, x, 1) == p[x];
    assert Power(p, 1) == p;
    PowerDoubles(p, 1);
    hide Iterate;
    forall x | 0 <= x < |p| ensures OrbitMin(p, x, 1) == x { }
    assert Mins(p, 1) == Identity(|p|);
    assert Compose(Identity(|p|), p) == p;
    MinsDouble(p, 1);
  }

  /** A = (id<<16)+pibar, before and after the first sort */
  method ComputePibar(temp: array<int>, ghost w: nat, n: nat, pi: View, ghost perm: seq<nat>)
    requires Size(w, n) && 2 * n <= temp.Length && PermOf(w, perm) && pi.Shows(perm) && pi.Apart(temp, 2 * n)
    modifies temp
    ensures EvenPerm(perm) && IsPerm(Pibar(perm))
    ensures var p := Pibar(perm);
            Scratch(temp[..], n, Pack(Identity(n), Power(p, 2), 0x1_0000), Pack(p, Mins(p, 2), 0x1_0000))
    ensures SameRest(old(temp[..]), temp[..], n)
  {
    PermOfEven(w, perm);
    FirstSort(perm);
    ghost var p, b, id := Pibar(perm), temp[n..2 * n], Identity(n);
    ghost var start := temp[..];
    LoadPairs(temp, w, n, pi, perm);
    assert temp[n..2 * n] == temp[n..][..n];
    assert temp[2 * n..] == temp[n..][n..] && start[2 * n..] == start[n..][n..];
    SortableShort(w, n, FirstKeys(perm), FirstPayload(perm));
    SortA(temp, n, FirstKeys(perm), FirstPayload(perm), 0x1_0000, b);
    SquarePibar(temp, w, n, p, b);
  }

  /** From pibar to its square and to the first minima. */
  method SquarePibar(temp: array<int>, ghost w: nat, n: nat, ghost p: seq<nat>, ghost b: seq<int>)
    requires Size(w, n) && IsPerm(p) && |p| == n && Scratch(temp[..], n, Pack(Identity(n), p, 0x1_0000), b)
    modifies temp
    ensures Scratch(temp[..], n, Pack(Identity(n), Power(p, 2), 0x1_0000), Pack(p, Mins(p, 2), 0x1_0000))
    ensures SameRest(old(temp[..]), temp[..], n)
  {
    SizeFacts(w, n);
    ghost var id, c, q := Identity(n), Mins(p, 2), Inverse(p);
    ghost var a0, b0 := Pack(id, p, 0x1_0000), Pack(p, c, 0x1_0000);
    PowerFacts(p);
    ComposeIdentity(p, n);
    ComposeInverse(p, p);
    MinsBelow(p, 2);
    SquareWords(n, p, b);

    ForEachB(temp, n, PairWithMin, a0, b);           // B = (p<<16)+c
    ForEachA(temp, n, SwapWithIndex, a0, b0);        // A = (pibar<<16)+id
    SortableShort(w, n, p, id);
    SortA(temp, n, p, id, 0x1_0000, b0);             // A = (id<<16)+pibar^-1
    ForEachA(temp, n, SwapWithHigh, Pack(id, q, 0x1_0000), b0); // A = (pibar^(-1)<<16)+pibar
    SortableShort(w, n, q, p);
    SortA(temp, n, q, p, 0x1_0000, b0);              // A = (id<<16)+pibar^2
  }

  lemma SquareWords(n: nat, p: seq<nat>, b: seq<int>)
    requires n <= 16384 && IsPerm(p) && |p| == n == |b|
    ensures IsPerm(Inverse(p))
    ensures var id, c, q := Identity(n), Mins(p, 2), Inverse(p);
            && Mapped(Pack(id, p, 0x1_0000), b, PairWithMin) == Pack(p, c, 0x1_0000)
            && Mapped(Pack(id, p, 0x1_0000), Pack(p, c, 0x1_0000), SwapWithIndex) == Pack(p, id, 0x1_0000)
            && Mapped(Pack(id, q, 0x1_0000), Pack(p, c, 0x1_0000), SwapWithHigh) == Pack(q, p, 0x1_0000)
  {
    InversePerm(p);
    PowerFacts(p);
    MinsBelow(p, 2);
    var c, q := Mins(p, 2), Inverse(p);
    assert forall x :: 0 <= x < n ==> c[x] == Lesser(Identity(n), p)[x] == Min(p[x], x);
    assert Below(p, 16384) && Below(q, 16384) && Below(c, 16384);
    hide *;
    PairWithMinWords(p, c, b);
    SwapWithIndexWords(p, Pack(p, c, 0x1_0000));
    SwapWithHighWords(q, p, c);
  }

  lemma PairWithMinWords(p: seq<nat>, c: seq<nat>, b: seq<int>)
    requires |p| == |c| == |b| <= 16384 && Below(p, 16384)
    requires forall x :: 0 <= x < |p| ==> c[x] == Min(p[x], x)
    ensures Mapped(Pack(Identity(|p|), p, 0x1_0000), b, PairWithMin) == Pack(p, c, 0x1_0000)
  {
    hide *;
    var a := Pack(Identity(|p|), p, 0x1_0000);
    forall x | 0 <= x < |p| ensures PairWithMin(x, a[x], b[x]) == p[x] * 0x1_0000 + c[x] {
      PackAt(Identity(|p|), p, 0x1_0000, x);
      BelowAt(p, 16384, x);
      FirstWords(x, p[x], 0, 0, b[x]);
    }
    MappedIs(a, b, PairWithMin, p, c, 0x1_0000);
  }

  lemma SwapWithIndexWords(p: seq<nat>, b: seq<int>)
    requires |p| == |b| <= 16384 && Below(p, 16384)
    ensures Mapped(Pack(Identity(|p|), p, 0x1_0000), b, SwapWithIndex) == Pack(p, Identity(|p|), 0x1_0000)
  {
    hide *;
    var a := Pack(Identity(|p|), p, 0x1_0000);
    forall x | 0 <= x < |p| ensures SwapWithIndex(x, a[x], b[x]) == p[x] * 0x1_0000 + Identity(|p|)[x] {
      PackAt(Identity(|p|), p, 0x1_0000, x);
      BelowAt(p, 16384, x);
      FirstWords(x, p[x], 0, 0, b[x]);
    }
    MappedIs(a, b, SwapWithIndex, p, Identity(|p|), 0x1_0000);
  }

  lemma SwapWithHighWords(q: seq<nat>, h: seq<nat>, l: seq<nat>)
    requires |q| == |h| == |l| <= 16384 && Below(q, 16384) && Below(h, 16384) && Below(l, 16384)
    ensures Mapped(Pack(Identity(|q|), q, 0x1_0000), Pack(h, l, 0x1_0000), SwapWithHigh) == Pack(q, h, 0x1_0000)
  {
    hide *;
    var a, b := Pack(Identity(|q|), q, 0x1_0000), Pack(h, l, 0x1_0000);
    forall x | 0 <= x < |q| ensures SwapWithHigh(x, a[x], b[x]) == q[x] * 0x1_0000 + h[x] {
      PackAt(Identity(|q|), q, 0x1_0000, x);
      PackAt(h, l, 0x1_0000, x);
      BelowAt(q, 16384, x);
      BelowAt(h, 16384, x);
      BelowAt(l, 16384, x);
      FirstWords(x, q[x], h[x], l[x], 0);
    }
    MappedIs(a, b, SwapWithHigh, q, h, 0x1_0000);
  }
}
