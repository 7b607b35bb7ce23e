/** The recursion that writes the control bits of a permutation into the output bytes. */
module ControlBitsRecursion {
  import opened Words
  import opened CInt
  import opened SortNetwork
  import opened Permutations
  import opened Cycles
  import opened BenesNetwork
  import opened ControlBitsCode
  import opened CycleMinimaCode
  import opened OutputBits
  import opened LayerBits

  // ---------------------------------------------------------------- between the layers

  /** A[x] = (((int32)pi[x])<<16)+x; */
  method LoadInverse(temp: array<int>, ghost w: nat, n: nat, pi: View, ghost perm: seq<nat>)
    requires Size(w, n) && 2 * n <= temp.Length && |perm| == n && IsPerm(perm) && pi.Shows(perm) && pi.Apart(temp, 2 * n)
    modifies temp
    ensures temp[..n] == Pack(perm, Identity(n), 0x1_0000) && temp[n..] == old(temp[n..])
  {
    SizeFacts(w, n);
    ghost var a := Pack(perm, Identity(n), 0x1_0000);
    var x := 0;
    while x < n
      invariant 0 <= x <= n
      invariant temp[..x] == a[..x]
      invariant temp[n..] == old(temp[n..]) && pi.Shows(perm)
    {
      ghost var before := pi.cells[..];
      InverseWordAt(pi, before, w, n, perm, x);
      temp[x] := AddInt(Shl(pi.Read(pi.cells[..], x), 16), x);
      if pi.cells == temp { StillShows(pi, before, temp[..], n, perm); }
      x := x + 1;
    }
  }

  lemma InverseWordAt(pi: View, s: seq<int>, w: nat, n: nat, perm: seq<nat>, x: nat)
    requires Size(w, n) && |perm| == n && IsPerm(perm) && pi.ShowsIn(s, perm) && x < n
    ensures pi.Inside(|s|, x + 1)
    ensures AddInt(Shl(pi.Read(s, x), 16), x) == Pack(perm, Identity(n), 0x1_0000)[x]
  {
    SizeFacts(w, n);
    assert perm[x] < n && pi.Read(s, x) == perm[x];
    LoadedWord(perm[x], x);
  }

  lemma LoadedWord(v: nat, x: nat)
    requires v < 16384 && x < 16384
    ensures AddInt(Shl(v, 16), x) == v * 0x1_0000 + x
  {
    hide *;
    Sizes();
    Join(v, 16, x);
  }

  lemma CycleMinsAre(perm: seq<nat>)
    requires EvenPerm(perm) && |perm| > 0
    ensures IsPerm(Pibar(perm)) && Mins(Pibar(perm), |perm| / 2) == CycleMins(perm)
  {
    PibarPerm(perm);
  }

  /** B holds the least elements of the cycles, A is sorted to hold the inverse of pi. */
  method CyclesAndInverse(temp: array<int>, w: nat, n: nat, pi: View, ghost perm: seq<nat>)
    requires Size(w, n) && 2 * n <= temp.Length && PermOf(w, perm) && pi.Shows(perm) && pi.Apart(temp, 2 * n)
    modifies temp
    ensures EvenPerm(perm) && |perm| == n && Scratch(temp[..], n, Pack(Identity(n), Inverse(perm), 0x1_0000), CycleMins(perm))
    ensures SameRest(old(temp[..]), temp[..], n)
  {
    SizeFacts(w, n);
    PermOfEven(w, perm);
    CycleMinsAre(perm);
    ghost var start := temp[..];
    ComputePibar(temp, w, n, pi, perm);
    ghost var now := temp[..];
    CycleMinima(temp, w, n, Pibar(perm));
    SameRestTransitive(start, now, temp[..], n);
    now := temp[..];
    if pi.cells == temp { StillShows(pi, start, now, n, perm); }
    LoadInverse(temp, w, n, pi, perm);
    LoadedScratch(now, temp[..], n, Pack(perm, Identity(n), 0x1_0000), CycleMins(perm));
    SameRestTransitive(start, now, temp[..], n);
    now := temp[..];
    ComposeIdentity(perm, n);
    SortableShort(w, n, perm, Identity(n));
    SortA(temp, n, perm, Identity(n), 0x1_0000, CycleMins(perm));
    SameRestTransitive(start, now, temp[..], n);
  }

  lemma LoadedScratch(s: seq<int>, t: seq<int>, n: nat, a: seq<int>, b: seq<int>)
    requires HasB(s, n, b) && |s| == |t| && |a| == n && t[..n] == a && s[n..] == t[n..]
    ensures Scratch(t, n, a, b) && SameRest(s, t, n)
  {
    assert t[n..2 * n] == t[n..][..n] && s[n..2 * n] == s[n..][..n];
    assert t[2 * n..] == t[n..][n..] && s[2 * n..] == s[n..][n..];
  }

  /** What the first and the last layer need to know about pi. */
  lemma LayerFacts(w: nat, n: nat, perm: seq<nat>)
    requires Size(w, n) && PermOf(w, perm)
    ensures EvenPerm(perm) && |perm| == n && n <= 16384
    ensures var c, q, f, g, l := CycleMins(perm), Inverse(perm), FirstBits(perm), Switched(perm), LastBits(perm);
            && n == 2 * |f| == 2 * |l| && |q| == |c| == |g| == n && Below(q, 16384) && Below(g, 16384)
            && (forall j :: 0 <= j < |f| ==> f[j] == c[2 * j] % 2)
            && (forall k :: 0 <= k < |l| ==> l[k] == g[2 * k] % 2)
            && IsPerm(q) && Sortable(q, Switches(f), 0x1_0000) && Compose(Switches(f), Inverse(q)) == g
            && IsPerm(Switches(l)) && Sortable(Switches(l), g, 0x1_0000) && Compose(g, Inverse(Switches(l))) == Middle(perm)
  {
    SizeFacts(w, n);
    PermOfEven(w, perm);
    var q, f, g, l := Inverse(perm), FirstBits(perm), Switched(perm), LastBits(perm);
    InversePerm(perm);
    SwitchesInvolution(f);
    SwitchesInvolution(l);
    InverseUnique(Switches(l), Switches(l));
    ComposeInverse(Switches(f), perm);
    hide Switches, Inverse, CycleMins, Pow2;
    SortableShort(w, n, q, Switches(f));
    SortableShort(w, n, Switches(l), g);
  }

  /** pos += (2*w-3)*step*(n/2) skips the layers in between. */
  lemma Jump(w: nat, n: nat, step: nat)
    requires Size(w, n)
    ensures (2 * w - 3) * step * (n / 2) == Times(step, 2 * Count(w - 1))
    ensures (2 * w - 2) * step * (n / 2) == Times(step, 2 * Count(w - 1)) + Times(step, n / 2)
  {
    SizeFacts(w, n);
    CountIs(w - 1);
    var h, g := n / 2, Pow2(w - 2);
    assert h == 2 * g && Count(w - 1) == (2 * w - 3) * g;
    JumpLength(2 * w - 3, step, h, g, Count(w - 1));
  }

  lemma JumpLength(m: nat, step: nat, h: nat, g: nat, c: nat)
    requires h == 2 * g && c == m * g
    ensures m * step * h == Times(step, 2 * c) && (m + 1) * step * h == Times(step, 2 * c) + Times(step, h)
  {
    assert m * step * h == step * (2 * (m * g));
    assert (m + 1) * step * h == m * step * h + step * h;
  }

  /** The room for all bits is room for those of the first layer, of the last layer and of both halves. */
  lemma RoomParts(out: seq<nat>, start: nat, step: nat, w: nat, n: nat)
    requires Size(w, n) && Room(out, start, step, Count(w))
    ensures var p := start + Times(step, n / 2);
            && Room(out, start, step, n / 2) && Room(out, p + Times(step, 2 * Count(w - 1)), step, n / 2)
            && Room(out, p, 2 * step, Count(w - 1)) && Room(out, p + step, 2 * step, Count(w - 1))
  {
    hide *;
    SizeFacts(w, n);
    var h, c := n / 2, Count(w - 1);
    CountStep(w);
    CountPositive(w - 1);
    PartsPlaces(step, h, c);
    var p, last := start + Times(step, h), start + Times(step, 2 * c + 2 * h - 1);
    RoomLast(out, start, step, Count(w));
    RoomIs(out, start, step, h);
    RoomIs(out, p + Times(step, 2 * c), step, h);
    RoomIs(out, p, 2 * step, c);
    RoomIs(out, p + step, 2 * step, c);
  }

  lemma CountStep(w: nat)
    requires w > 1
    ensures Count(w) == 2 * Count(w - 1) + 2 * Pow2(w - 1)
  {}

  lemma RoomLast(out: seq<nat>, pos: nat, step: nat, count: nat)
    requires Room(out, pos, step, count) && count > 0
    ensures step > 0 && pos + Times(step, count - 1) < 8 * |out|
  {}

  lemma RoomIs(out: seq<nat>, pos: nat, step: nat, count: nat)
    requires step > 0 && count > 0 && pos + Times(step, count - 1) < 8 * |out|
    ensures Room(out, pos, step, count)
  {}

  lemma {:induction false} CountPositive(w: nat)
    requires w > 0
    ensures Count(w) > 0
  {
    if w > 1 { CountPositive(w - 1); }
  }

  lemma TimesMonotone(step: nat, a: nat, b: nat)
    requires a <= b
    ensures Times(step, a) <= Times(step, b)
  {
    assert step * b == step * a + step * (b - a);
  }

  /** The last bit of each part lies before the last bit of all. */
  lemma PartsPlaces(step: nat, h: nat, c: nat)
    requires h > 0 && c > 0
    ensures Times(step, h - 1) <= Times(step, 2 * c + 2 * h - 1)
    ensures Times(step, h) + Times(step, 2 * c) + Times(step, h - 1) == Times(step, 2 * c + 2 * h - 1)
    ensures Times(step, h) + Times(2 * step, c - 1) <= Times(step, h) + step + Times(2 * step, c - 1) <= Times(step, 2 * c + 2 * h - 1)
  {
    hide *;
    TimesMonotone(step, h - 1, 2 * c + 2 * h - 1);
    TimesFacts(step, h + 2 * c, h - 1);
    TimesFacts(step, h, 2 * c);
    TimesFacts(step, c - 1, 0);
    TimesFacts(step, 2 * (c - 1), 1);
    TimesFacts(step, h, 2 * c - 1);
    TimesMonotone(step, h + 2 * c - 1, 2 * c + 2 * h - 1);
  }

  lemma RoomSame(s: seq<nat>, t: seq<nat>, pos: nat, step: nat, count: nat)
    requires |s| == |t| && Room(s, pos, step, count)
    ensures Room(t, pos, step, count)
  {}

  /** Everything before the recursive calls: the bits of the first and of the last layer are
      written, and A holds the middle permutation. */
  method OuterLayers(temp: array<int>, w: nat, n: nat, pi: View, out: array<nat>, start: nat, step: nat,
                     ghost perm: seq<nat>) returns (pos: nat)
    requires Size(w, n) && 2 * n <= temp.Length && PermOf(w, perm) && pi.Shows(perm) && pi.Apart(temp, 2 * n)
    requires temp as object != out && Room(out[..], start, step, Count(w))
    modifies temp, out
    ensures EvenPerm(perm) && n <= temp.Length && temp[..n] == Pack(Identity(n), Middle(perm), 0x1_0000)
    ensures SameRest(old(temp[..]), temp[..], n)
    ensures pos == start + Times(step, n / 2)
    ensures Bits(out[..]) == ToggleAll(ToggleAll(Bits(old(out[..])), start, step, FirstBits(perm)),
                                       pos + Times(step, 2 * Count(w - 1)), step, LastBits(perm))
  {
    hide *;
    SizeFacts(w, n);
    RoomParts(out[..], start, step, w, n);
    ghost var skip := Times(step, 2 * Count(w - 1));
    var h := n / 2;
    ghost var t0, o := temp[..], out[..];
    pos := FirstPart(temp, w, n, pi, out, start, step, perm);
    ghost var t1 := temp[..];
    pos := JumpTo(w, n, start, step, pos);
    RoomSame(o, out[..], start + Times(step, h) + skip, step, h);
    pos := LastPart(temp, w, n, out, pos, step, perm);
    pos := JumpBack(w, n, start, step, pos);
    SameRestTransitive(t0, t1, temp[..], n);
  }

  /** pos += (2*w-3)*step*(n/2); */
  method JumpTo(w: nat, n: nat, ghost start: nat, step: nat, pos: nat) returns (r: nat)
    requires Size(w, n) && pos == start + Times(step, n / 2)
    ensures r == start + Times(step, n / 2) + Times(step, 2 * Count(w - 1))
  {
    SizeFacts(w, n);
    Jump(w, n, step);
    hide Times, Count, Size;
    var skipped := (2 * w - 3) * step * (n / 2);
    r := pos + skipped;
  }

  /** pos -= (2*w-2)*step*(n/2); */
  method JumpBack(w: nat, n: nat, ghost start: nat, step: nat, pos: nat) returns (r: nat)
    requires Size(w, n) && pos == start + Times(step, n / 2) + Times(step, 2 * Count(w - 1)) + Times(step, n / 2)
    ensures r == start + Times(step, n / 2)
  {
    SizeFacts(w, n);
    Jump(w, n, step);
    hide Times, Count, Size;
    var skipped := (2 * w - 2) * step * (n / 2);
    r := pos - skipped;
  }

  /** The first layer is written, and B holds F(pi). */
  method FirstPart(temp: array<int>, w: nat, n: nat, pi: View, out: array<nat>, start: nat, step: nat,
                   ghost perm: seq<nat>) returns (pos: nat)
    requires Size(w, n) && 2 * n <= temp.Length && PermOf(w, perm) && pi.Shows(perm) && pi.Apart(temp, 2 * n)
    requires temp as object != out && Room(out[..], start, step, n / 2)
    modifies temp, out
    ensures EvenPerm(perm) && |perm| == n && n <= temp.Length
    ensures Scratch(temp[..], n, Pack(Identity(n), Inverse(perm), 0x1_0000), Pack(Identity(n), Switched(perm), 0x1_0000))
    ensures SameRest(old(temp[..]), temp[..], n)
    ensures pos == start + Times(step, n / 2)
    ensures Bits(out[..]) == ToggleAll(Bits(old(out[..])), start, step, FirstBits(perm))
  {
    LayerFacts(w, n, perm);
    ghost var c, q, f, g := CycleMins(perm), Inverse(perm), FirstBits(perm), Switched(perm);
    ghost var t0 := temp[..];
    hide *;
    CyclesAndInverse(temp, w, n, pi, perm);
    ghost var t1 := temp[..];
    pos := WriteFirstLayer(temp, n, out, start, step, q, c, f);
    ghost var t2 := temp[..];
    SortB(temp, n, q, Switches(f), 0x1_0000, Pack(Identity(n), q, 0x1_0000));
    ByKeyIs(q, Switches(f), g, n);
    SameRestTransitive(t0, t1, t2, n);
    SameRestTransitive(t0, t2, temp[..], n);
  }

  /** The last layer is written, and A holds the middle permutation. */
  method LastPart(temp: array<int>, w: nat, n: nat, out: array<nat>, start: nat, step: nat, ghost perm: seq<nat>)
      returns (pos: nat)
    requires Size(w, n) && 2 * n <= temp.Length && PermOf(w, perm) && EvenPerm(perm) && |perm| == n
    requires Scratch(temp[..], n, Pack(Identity(n), Inverse(perm), 0x1_0000), Pack(Identity(n), Switched(perm), 0x1_0000))
    requires temp as object != out && Room(out[..], start, step, n / 2)
    modifies temp, out
    ensures temp[..n] == Pack(Identity(n), Middle(perm), 0x1_0000)
    ensures SameRest(old(temp[..]), temp[..], n)
    ensures pos == start + Times(step, n / 2)
    ensures Bits(out[..]) == ToggleAll(Bits(old(out[..])), start, step, LastBits(perm))
  {
    LayerFacts(w, n, perm);
    ghost var g, l, a0 := Switched(perm), LastBits(perm), Pack(Identity(n), Inverse(perm), 0x1_0000);
    ghost var t0 := temp[..];
    hide *;
    pos := WriteLastLayer(temp, n, out, start, step, g, l, a0);
    ghost var t1 := temp[..];
    SortA(temp, n, Switches(l), g, 0x1_0000, Pack(Identity(n), g, 0x1_0000));
    ScratchA(temp[..], n, ByKey(Switches(l), g, 0x1_0000), Pack(Identity(n), g, 0x1_0000));
    ByKeyIs(Switches(l), g, Middle(perm), n);
    SameRestTransitive(t0, t1, temp[..], n);
  }

  lemma ScratchA(t: seq<int>, n: nat, a: seq<int>, b: seq<int>)
    requires Scratch(t, n, a, b)
    ensures n <= |t| && t[..n] == a
  {}

  lemma ByKeyIs(key: seq<nat>, payload: seq<nat>, r: seq<nat>, n: nat)
    requires IsPerm(key) && |key| == |payload| == |r| == n && Compose(payload, Inverse(key)) == r
    ensures ByKey(key, payload, 0x1_0000) == Pack(Identity(n), r, 0x1_0000)
  {}

  // ---------------------------------------------------------------- the two halves

  /** The word after writing one of its halves, on a little-endian machine. */
  function StoreHalf(word: int, high: bool, v: nat): (r: int)
  {
    if high then v * 0x1_0000 + word % 0x1_0000 else word - word % 0x1_0000 + v
  }

  lemma StoredHalf(word: int, v: nat)
    requires v < 0x8000
    ensures StoreHalf(word, false, v) % 0x1_0000 == v && StoreHalf(word, false, v) / 0x1_0000 == word / 0x1_0000
    ensures StoreHalf(word, true, v) % 0x1_0000 == word % 0x1_0000 && StoreHalf(word, true, v) / 0x1_0000 == v
  {}

  /** The int16 number i of the scratch array. */
  function HalfAt(s: seq<int>, i: nat): (v: int)
    requires i / 2 < |s|
  {
    Signed(16, if i % 2 == 0 then s[i / 2] % 0x1_0000 else s[i / 2] / 0x1_0000 % 0x1_0000)
  }

  /** This is what a view reads. */
  lemma HalfRead(view: View, s: seq<int>, x: nat)
    requires view.Halves? && (view.at + x) / 2 < |s| && view.Inside(|s|, x + 1)
    ensures view.Read(s, x) == HalfAt(s, view.at + x)
  {
    hide Signed, Pow2;
    Pow2Values();
  }

  /** ((int16 *) temp)[i] = v changes nothing else. */
  lemma HalfStored(s: seq<int>, i: nat, v: nat, k: nat)
    requires i / 2 < |s| && v < 0x8000 && k / 2 < |s|
    ensures HalfAt(s[i / 2 := StoreHalf(s[i / 2], i % 2 == 1, v)], k) == if k == i then v else HalfAt(s, k)
  {
    StoredHalf(s[i / 2], v);
    SmallSigned(v);
    hide StoreHalf, Signed;
    if k / 2 == i / 2 { SameHalf(i, k); }
  }

  lemma SameHalf(i: nat, k: nat)
    requires i / 2 == k / 2
    ensures i % 2 == k % 2 <==> i == k
  {}

  lemma SmallSigned(v: nat)
    requires v < 0x8000
    ensures Signed(16, v) == v && v % 0x1_0000 == v
  {
    hide Pow2;
    Pow2Values();
  }

  /** The first k elements of p are stored from the int16 number `at` on. */
  ghost predicate Stored(s: seq<int>, at: nat, p: seq<nat>, k: nat)
  {
    k <= |p| && at + |p| <= 2 * |s| && forall x :: 0 <= x < k ==> StoredAt(s, at, p, x)
  }

  ghost predicate StoredAt(s: seq<int>, at: nat, p: seq<nat>, x: nat)
  {
    x < |p| && (at + x) / 2 < |s| && HalfAt(s, at + x) == p[x]
  }

  lemma StoredShows(view: View, s: seq<int>, p: seq<nat>)
    requires view.Halves? && Stored(s, view.at, p, |p|)
    ensures view.ShowsIn(s, p)
  {
    hide HalfAt;
    forall x | 0 <= x < |p| ensures view.Read(s, x) == p[x] {
      assert StoredAt(s, view.at, p, x);
      HalfRead(view, s, x);
    }
  }

  lemma StoredStays(s: seq<int>, i: nat, v: nat, at: nat, p: seq<nat>, k: nat)
    requires i / 2 < |s| && v < 0x8000 && Stored(s, at, p, k)
    requires !(at <= i < at + k)
    ensures Stored(s[i / 2 := StoreHalf(s[i / 2], i % 2 == 1, v)], at, p, k)
  {
    hide HalfAt, StoreHalf;
    var t := s[i / 2 := StoreHalf(s[i / 2], i % 2 == 1, v)];
    forall x | 0 <= x < k ensures StoredAt(t, at, p, x) {
      assert StoredAt(s, at, p, x);
      HalfStored(s, i, v, at + x);
    }
  }

  lemma StoredMore(s: seq<int>, at: nat, p: seq<nat>, k: nat)
    requires Stored(s, at, p, k) && StoredAt(s, at, p, k)
    ensures Stored(s, at, p, k + 1)
  {}

  /** q[j] = v; the other half-size permutation and A stay as they are. */
  method StoreShort(temp: array<int>, n: nat, at: nat, j: nat, v: nat, ghost p: seq<nat>,
                    ghost other: nat, ghost r: seq<nat>, ghost k: nat)
    requires 2 * n <= temp.Length && 2 * n <= at && at + |p| <= 4 * n && j < |p| && v == p[j] < 0x8000
    requires Stored(temp[..], at, p, j) && Stored(temp[..], other, r, k) && !(other <= at + j < other + k)
    modifies temp
    ensures Stored(temp[..], at, p, j + 1) && Stored(temp[..], other, r, k)
    ensures SameRest(old(temp[..]), temp[..], n) && temp[..n] == old(temp[..n])
  {
    ghost var s := temp[..];
    var i := at + j;
    StoredStays(s, i, v, at, p, j);
    StoredStays(s, i, v, other, r, k);
    HalfStored(s, i, v, i);
    temp[i / 2] := StoreHalf(temp[i / 2], i % 2 == 1, v);
    assert temp[..] == s[i / 2 := StoreHalf(s[i / 2], i % 2 == 1, v)];
    hide HalfAt, StoreHalf;
    StoredMore(temp[..], at, p, j);
    assert temp[..n] == temp[..][..n] && s[..n] == old(temp[..n]);
  }

  /** (A[x]&0xffff)>>1 */
  lemma HalvedWord(x: nat, v: nat)
    requires v < 16384
    ensures Shr(Low(x * 0x1_0000 + v, 16), 1) == v / 2 < 0x8000
  {
    hide *;
    Sizes();
    var y := x * Pow2(16) + v;
    Unpack(x, 16, v);
    assert y == x * 0x1_0000 + v;
    ShrOne(v);
  }

  lemma ShrOne(v: nat)
    ensures Shr(v, 1) == v / 2
  {
    assert Pow2(1) == 2;
  }

  lemma SplitWord(w: nat, n: nat, perm: seq<nat>, j: nat, b: nat)
    requires Size(w, n) && PermOf(w, perm) && EvenPerm(perm) && |perm| == n && j < n / 2 && b < 2
    ensures var a := Pack(Identity(n), Middle(perm), 0x1_0000);
            2 * j + b < n && Shr(Low(a[2 * j + b], 16), 1) == SubPerm(perm, b)[j] < 0x8000
  {
    SizeFacts(w, n);
    MiddlePerm(perm);
    var x := 2 * j + b;
    assert Middle(perm)[x] < n;
    PackAt(Identity(n), Middle(perm), 0x1_0000, x);
    HalvedWord(x, Middle(perm)[x]);
  }

  /** The int16 number where q starts: q is (int16 *)(temp+n+n/4). */
  function QAt(n: nat): (at: nat)
  {
    2 * (n + n / 4)
  }

  lemma QFits(w: nat, n: nat)
    requires Size(w, n)
    ensures 2 * n <= QAt(n) && QAt(n) + n / 2 + n / 2 <= 4 * n
  {
    SizeFacts(w, n);
  }

  /** for (j = 0;j < n/2;++j) { q[j] = (A[2*j]&0xffff)>>1; q[j+n/2] = (A[2*j+1]&0xffff)>>1; } */
  method Split(temp: array<int>, w: nat, n: nat, ghost perm: seq<nat>)
    requires Size(w, n) && 2 * n <= temp.Length && PermOf(w, perm) && EvenPerm(perm) && |perm| == n
    requires temp[..n] == Pack(Identity(n), Middle(perm), 0x1_0000)
    modifies temp
    ensures Halves(temp, QAt(n)).Shows(SubPerm(perm, 0)) && Halves(temp, QAt(n) + n / 2).Shows(SubPerm(perm, 1))
    ensures SameRest(old(temp[..]), temp[..], n)
  {
    hide *;
    QFits(w, n);
    var h, at := n / 2, QAt(n);
    ghost var a, p, r := Pack(Identity(n), Middle(perm), 0x1_0000), SubPerm(perm, 0), SubPerm(perm, 1);
    forall j | 0 <= j < h ensures Halved(a, p, r, j) { SplitWords(w, n, perm, j); }
    SplitLoop(temp, n, h, at, a, p, r);
    StoredShows(Halves(temp, at), temp[..], p);
    StoredShows(Halves(temp, at + h), temp[..], r);
    ViewShows(Halves(temp, at), p);
    ViewShows(Halves(temp, at + h), r);
  }

  method SplitLoop(temp: array<int>, n: nat, h: nat, at: nat, ghost a: seq<int>, ghost p: seq<nat>, ghost r: seq<nat>)
    requires 2 * n <= temp.Length && |p| == |r| == h && 2 * n <= at && at + h + h <= 4 * n
    requires temp[..n] == a && forall j :: 0 <= j < h ==> Halved(a, p, r, j)
    modifies temp
    ensures Stored(temp[..], at, p, h) && Stored(temp[..], at + h, r, h) && SameRest(old(temp[..]), temp[..], n)
  {
    ghost var t := temp[..];
    assert Stored(t, at, p, 0) && Stored(t, at + h, r, 0) && SameRest(t, t, n);
    hide *;
    var j := 0;
    while j < h
      invariant 0 <= j <= h
      invariant Stored(temp[..], at, p, j) && Stored(temp[..], at + h, r, j)
      invariant SameRest(t, temp[..], n) && temp[..n] == a
    {
      ghost var now := temp[..];
      SplitStep(temp, n, j, h, at, a, p, r);
      SameRestTransitive(t, now, temp[..], n);
      j := j + 1;
    }
  }

  /** What round j of the loop computes. */
  ghost predicate Halved(a: seq<int>, p: seq<nat>, r: seq<nat>, j: nat)
  {
    && 2 * j + 1 < |a| && j < |p| == |r|
    && Shr(Low(a[2 * j], 16), 1) == p[j] < 0x8000 && Shr(Low(a[2 * j + 1], 16), 1) == r[j] < 0x8000
  }

  lemma SplitWords(w: nat, n: nat, perm: seq<nat>, j: nat)
    requires Size(w, n) && PermOf(w, perm) && EvenPerm(perm) && |perm| == n && j < n / 2
    ensures Halved(Pack(Identity(n), Middle(perm), 0x1_0000), SubPerm(perm, 0), SubPerm(perm, 1), j)
  {
    hide SubPerm, Shr, Low, Pack, Middle, Identity, Size, IsPerm;
    SplitWord(w, n, perm, j, 0);
    SplitWord(w, n, perm, j, 1);
  }

  method SplitStep(temp: array<int>, n: nat, j: nat, h: nat, at: nat, ghost a: seq<int>, ghost p: seq<nat>, ghost r: seq<nat>)
    requires 2 * n <= temp.Length && |p| == |r| == h && 2 * n <= at && at + h + h <= 4 * n && j < h
    requires temp[..n] == a && Halved(a, p, r, j)
    requires Stored(temp[..], at, p, j) && Stored(temp[..], at + h, r, j)
    modifies temp
    ensures Stored(temp[..], at, p, j + 1) && Stored(temp[..], at + h, r, j + 1)
    ensures SameRest(old(temp[..]), temp[..], n) && temp[..n] == a
  {
    ghost var t := temp[..];
    hide Stored, SameRest, Low, Shr;
    assert temp[2 * j] == temp[..n][2 * j] && temp[2 * j + 1] == temp[..n][2 * j + 1];
    var u, v := Shr(Low(temp[2 * j], 16), 1), Shr(Low(temp[2 * j + 1], 16), 1);
    StoreShort(temp, n, at, j, u, p, at + h, r, j);
    ghost var mid := temp[..];
    StoreShort(temp, n, at + h, j, v, r, at, p, j + 1);
    SameRestTransitive(t, mid, temp[..], n);
  }

  lemma ViewShows(view: View, p: seq<nat>)
    ensures view.Shows(p) <==> view.ShowsIn(view.cells[..], p)
  {}

  // ---------------------------------------------------------------- the recursion

  /** The four runs of exclusive or's in the order of the code are one run over all bits. */
  lemma Recombine(o: seq<nat>, start: nat, step: nat, f: seq<nat>, a: seq<nat>, b: seq<nat>, l: seq<nat>, pos: nat, last: nat)
    requires |a| == |b| && pos == start + Times(step, |f|) && last == pos + Times(step, 2 * |a|)
    ensures ToggleAll(ToggleAll(ToggleAll(ToggleAll(o, start, step, f), last, step, l), pos, 2 * step, a), pos + step, 2 * step, b)
         == ToggleAll(o, start, step, f + Interleave(a, b) + l)
  {
    hide *;
    var i, o0 := Interleave(a, b), ToggleAll(o, start, step, f);
    ToggleInterleaved(ToggleAll(o0, last, step, l), pos, step, a, b);
    TogglesCommute(o0, last, step, l, pos, step, i);
    ToggleConcat(o, start, step, f, i);
    TimesFacts(step, |f|, 2 * |a|);
    ToggleConcat(o, start, step, f + i, l);
  }

  /** A single pair of elements has a single bit. */
  lemma SingleBit(w: nat, perm: seq<nat>, o: seq<nat>, pos: nat, step: nat)
    requires w == 1 && PermOf(w, perm) && pos < |o|
    ensures |perm| == 2 && perm[0] < 2
    ensures ToggleAll(o, pos, step, AllBits(w, perm)) == ToggleOne(o, pos, perm[0])
  {
    assert Pow2(1) == 2;
    FlatSingle([perm[0]]);
    assert AllBits(w, perm) == [perm[0]];
    assert [perm[0]][..0] == [];
    assert Times(step, 0) == 0;
  }

  /** cbrecursion: the bits of pi are exclusive-or'ed into the output at pos, pos + step, ... */
  method CbRecursion(out: array<nat>, pos: nat, step: nat, pi: View, w: nat, n: nat, temp: array<int>, ghost perm: seq<nat>)
    requires 1 <= w <= 14 && n == Pow2(w) && PermOf(w, perm) && pi.Shows(perm)
    requires 2 * n <= temp.Length && pi.Apart(temp, 2 * n) && Room(out[..], pos, step, Count(w))
    requires temp as object != out && pi.cells as object != out
    modifies temp, out
    ensures Bits(out[..]) == ToggleAll(Bits(old(out[..])), pos, step, AllBits(w, perm))
    ensures SameRest(old(temp[..]), temp[..], n)
    decreases w, 1
  {
    hide *;
    if w == 1 {
      OneBit(out, pos, step, pi, w, perm);
      SameRestReflexive(temp[..], n);
      return;
    }
    ghost var o, t0 := out[..], temp[..];
    SizeIs(w, n);
    AllBitsSplit(w, perm);
    FirstAndLastCount(w, n, perm);
    RoomParts(o, pos, step, w, n);
    ghost var p, r := SubPerm(perm, 0), SubPerm(perm, 1);
    var next := OuterLayers(temp, w, n, pi, out, pos, step, perm);
    ghost var t1 := temp[..];
    Split(temp, w, n, perm);
    RoomSame(o, out[..], next, 2 * step, Count(w - 1));
    RoomSame(o, out[..], next + step, 2 * step, Count(w - 1));
    ghost var t2 := temp[..];
    BothHalves(out, next, step, w, n, temp, p, r);
    SameRestTransitive(t0, t1, t2, n);
    SameRestTransitive(t0, t2, temp[..], n);
    Recombine(Bits(o), pos, step, FirstBits(perm), AllBits(w - 1, p), AllBits(w - 1, r), LastBits(perm), next,
              next + Times(step, 2 * Count(w - 1)));
  }

  lemma FirstAndLastCount(w: nat, n: nat, perm: seq<nat>)
    requires Size(w, n) && PermOf(w, perm) && EvenPerm(perm)
    ensures |FirstBits(perm)| == n / 2 == |LastBits(perm)| && |perm| == n
  {}

  /** cbrecursion(out,pos,step*2,q,w-1,n/2,temp); cbrecursion(out,pos+step,step*2,q+n/2,w-1,n/2,temp); */
  method BothHalves(out: array<nat>, pos: nat, step: nat, w: nat, n: nat, temp: array<int>, ghost p: seq<nat>, ghost r: seq<nat>)
    requires Size(w, n) && 2 * n <= temp.Length && PermOf(w - 1, p) && PermOf(w - 1, r) && temp as object != out
    requires Halves(temp, QAt(n)).Shows(p) && Halves(temp, QAt(n) + n / 2).Shows(r)
    requires Room(out[..], pos, 2 * step, Count(w - 1)) && Room(out[..], pos + step, 2 * step, Count(w - 1))
    modifies temp, out
    ensures Bits(out[..]) == ToggleAll(ToggleAll(Bits(old(out[..])), pos, 2 * step, AllBits(w - 1, p)),
                                       pos + step, 2 * step, AllBits(w - 1, r))
    ensures SameRest(old(temp[..]), temp[..], n)
    decreases w, 0
  {
    hide *;
    ghost var o, t := out[..], temp[..];
    HalfSize(w, n);
    var at, h, twice := QAt(n), n / 2, step * 2;
    ApartHalves(temp, at, h);
    ApartHalves(temp, at + h, h);
    ViewShows(Halves(temp, at + h), r);
    CbRecursion(out, pos, twice, Halves(temp, at), w - 1, h, temp, p);
    ghost var u := temp[..];
    RoomSame(o, out[..], pos + step, twice, Count(w - 1));
    StillShows(Halves(temp, at + h), t, u, h, r);
    ViewShows(Halves(temp, at + h), r);
    CbRecursion(out, pos + step, twice, Halves(temp, at + h), w - 1, h, temp, r);
    SameRestTransitive(t, u, temp[..], h);
    SameRestMore(t, temp[..], h, n);
  }

  lemma HalfSize(w: nat, n: nat)
    requires Size(w, n)
    ensures 1 <= w - 1 <= 14 && n / 2 == Pow2(w - 1) && QAt(n) >= 4 * (n / 2)
  {
    SizeFacts(w, n);
  }

  lemma SameRestReflexive(s: seq<int>, n: nat)
    requires 2 * n <= |s|
    ensures SameRest(s, s, n)
  {}

  lemma SameRestMore(s: seq<int>, t: seq<int>, h: nat, n: nat)
    requires SameRest(s, t, h) && h <= n && 2 * n <= |s|
    ensures SameRest(s, t, n)
  {
    assert s[2 * n..] == s[2 * h..][2 * (n - h)..] && t[2 * n..] == t[2 * h..][2 * (n - h)..];
  }

  method OneBit(out: array<nat>, pos: nat, step: nat, pi: View, ghost w: nat, ghost perm: seq<nat>)
    requires w == 1 && PermOf(w, perm) && pi.Shows(perm) && Room(out[..], pos, step, Count(w)) && pi.cells as object != out
    modifies out
    ensures Bits(out[..]) == ToggleAll(Bits(old(out[..])), pos, step, AllBits(w, perm))
  {
    assert Times(step, 0) == 0;
    SingleBit(w, perm, Bits(out[..]), pos, step);
    XorAt(out, pos, pi.Read(pi.cells[..], 0));
  }

  lemma SizeIs(w: nat, n: nat)
    requires 2 <= w <= 14 && n == Pow2(w)
    ensures Size(w, n) && n / 2 == Pow2(w - 1)
  {}

  /** q does not overlap what the recursive calls write. */
  lemma ApartHalves(temp: array<int>, at: nat, h: nat)
    requires at >= 4 * h
    ensures Halves(temp, at).Apart(temp, 2 * h)
  {}
}
