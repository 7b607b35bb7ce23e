/** The control bits as one sequence of output bits, and the loops that write the first and the
    last layer of a permutation. */
module LayerBits {
  import opened Words
  import opened CInt
  import opened Permutations
  import opened Cycles
  import opened BenesNetwork
  import opened ControlBitsCode
  import opened CycleMinimaCode
  import opened OutputBits

  // ---------------------------------------------------------------- the layers one after another

  function Flat(layers: seq<seq<nat>>): (r: seq<nat>)
  {
    if |layers| == 0 then [] else layers[0] + Flat(layers[1..])
  }

  lemma FlatHead(c: seq<seq<nat>>)
    requires |c| > 0
    ensures Flat(c) == c[0] + Flat(c[1..])
  {}

  lemma {:induction false} FlatConcat(a: seq<seq<nat>>, b: seq<seq<nat>>)
    ensures Flat(a + b) == Flat(a) + Flat(b)
  {
    if |a| == 0 {
      assert a + b == b;
    } else {
      hide *;
      var c := a + b;
      FlatConcat(a[1..], b);
      assert c[0] == a[0] && c[1..] == a[1..] + b;
      FlatHead(c);
      FlatHead(a);
      Associates(a[0], Flat(a[1..]), Flat(b));
    }
  }

  lemma Associates(x: seq<nat>, y: seq<nat>, z: seq<nat>)
    ensures x + (y + z) == (x + y) + z
  {}

  lemma FlatSingle(l: seq<nat>)
    ensures Flat([l]) == l
  {
    assert [l][1..] == [] && Flat([]) == [];
  }

  ghost predicate Matching(a: seq<seq<nat>>, b: seq<seq<nat>>)
  {
    |a| == |b| && forall t :: 0 <= t < |a| ==> |a[t]| == |b[t]|
  }

  lemma {:induction false} FlatInterleave(a: seq<seq<nat>>, b: seq<seq<nat>>)
    requires Matching(a, b)
    ensures |Flat(a)| == |Flat(b)| && Flat(InterleaveLayers(a, b)) == Interleave(Flat(a), Flat(b))
    decreases |a|
  {
    var i := InterleaveLayers(a, b);
    if |a| > 0 {
      FlatInterleave(a[1..], b[1..]);
      assert i[1..] == InterleaveLayers(a[1..], b[1..]);
      InterleaveConcat(a[0], b[0], Flat(a[1..]), Flat(b[1..]));
    }
  }

  lemma InterleaveConcat(a: seq<nat>, b: seq<nat>, c: seq<nat>, d: seq<nat>)
    requires |a| == |b| && |c| == |d|
    ensures Interleave(a, b) + Interleave(c, d) == Interleave(a + c, b + d)
  {}

  /** The number of control bits for 2^w elements. */
  function Count(w: nat): (c: nat)
    requires w > 0
  {
    if w == 1 then 1 else 2 * Count(w - 1) + 2 * Pow2(w - 1)
  }

  lemma {:induction false} CountIs(w: nat)
    requires w > 0
    ensures Count(w) == (2 * w - 1) * Pow2(w - 1)
  {
    if w > 1 {
      CountIs(w - 1);
      var h := Pow2(w - 2);
      assert Pow2(w - 1) == 2 * h && Count(w - 1) == (2 * w - 3) * h;
      assert (2 * w - 1) * (2 * h) == 2 * ((2 * w - 3) * h) + 4 * h;
    }
  }

  /** The control bits of pi in the order of their positions. */
  ghost function AllBits(w: nat, pi: seq<nat>): (r: seq<nat>)
    requires w > 0 && PermOf(w, pi)
  {
    Flat(ControlBits(w, pi))
  }

  lemma {:induction false} FlatLength(layers: seq<seq<nat>>, h: nat)
    requires forall t :: 0 <= t < |layers| ==> |layers[t]| == h
    ensures |Flat(layers)| == |layers| * h
    decreases |layers|
  {
    if |layers| > 0 {
      FlatLength(layers[1..], h);
      assert |layers| * h == h + (|layers| - 1) * h;
    }
  }

  lemma AllBitsCount(w: nat, pi: seq<nat>)
    requires w > 0 && PermOf(w, pi)
    ensures |AllBits(w, pi)| == Count(w)
  {
    CountIs(w);
    FlatLength(ControlBits(w, pi), Pow2(w - 1));
  }

  /** The recursion, on the flat sequence of bits. */
  lemma AllBitsSplit(w: nat, pi: seq<nat>)
    requires w > 1 && PermOf(w, pi)
    ensures EvenPerm(pi) && PermOf(w - 1, SubPerm(pi, 0)) && PermOf(w - 1, SubPerm(pi, 1))
    ensures var a, b := AllBits(w - 1, SubPerm(pi, 0)), AllBits(w - 1, SubPerm(pi, 1));
            |a| == |b| == Count(w - 1) && AllBits(w, pi) == FirstBits(pi) + Interleave(a, b) + LastBits(pi)
  {
    PermOfEven(w, pi);
    SubPermPerm(w, pi, 0);
    SubPermPerm(w, pi, 1);
    var a, b := ControlBits(w - 1, SubPerm(pi, 0)), ControlBits(w - 1, SubPerm(pi, 1));
    assert Matching(a, b);
    var f, l := [FirstBits(pi)], [LastBits(pi)];
    assert ControlBits(w, pi) == f + InterleaveLayers(a, b) + l;
    AllBitsCount(w - 1, SubPerm(pi, 0));
    AllBitsCount(w - 1, SubPerm(pi, 1));
    hide *;
    FlatConcat(f + InterleaveLayers(a, b), l);
    FlatConcat(f, InterleaveLayers(a, b));
    FlatInterleave(a, b);
    FlatSingle(FirstBits(pi));
    FlatSingle(LastBits(pi));
  }

  // ---------------------------------------------------------------- the first and the last layer

  /** Bits pos, pos + step, ..., count of them, lie inside the output. */
  ghost predicate Room(out: seq<nat>, pos: nat, step: nat, count: nat)
  {
    step > 0 && (count > 0 ==> pos + Times(step, count - 1) < 8 * |out|)
  }

  lemma RoomAt(out: seq<nat>, pos: nat, step: nat, count: nat, j: nat)
    requires Room(out, pos, step, count) && j < count
    ensures pos + Times(step, j) < 8 * |out|
    ensures Times(step, j + 1) == Times(step, j) + step
  {
    TimesFacts(step, j, count - 1 - j);
    TimesFacts(step, j, 1);
  }

  lemma ToggleNext(o: seq<nat>, pos: nat, step: nat, cb: seq<nat>, j: nat)
    requires j < |cb| && pos + Times(step, j) < |o|
    ensures ToggleAll(o, pos, step, cb[..j + 1]) == ToggleOne(ToggleAll(o, pos, step, cb[..j]), pos + Times(step, j), cb[j])
  {
    assert cb[..j + 1][..j] == cb[..j];
    ToggleLast(o, pos, step, cb[..j + 1]);
  }

  /** (A[x]<<16)|y */
  lemma KeyWord(x: nat, v: nat, y: nat)
    requires x < 16384 && v < 16384 && y < 16384
    ensures OrInt(Shl(x * 0x1_0000 + v, 16), y) == v * 0x1_0000 + y
  {
    hide Shl, OrInt, Pow2;
    Sizes();
    Rekey(x, v, 16, y);
  }

  /** A[i] = v; */
  method PutA(temp: array<int>, n: nat, i: nat, v: int, ghost a: seq<int>, ghost b: seq<int>)
    requires Scratch(temp[..], n, a, b) && i < n
    modifies temp
    ensures Scratch(temp[..], n, a[i := v], b) && SameRest(old(temp[..]), temp[..], n)
  {
    ghost var t := temp[..];
    temp[i] := v;
    assert temp[..] == t[i := v];
  }

  /** B[i] = v; */
  method PutB(temp: array<int>, n: nat, i: nat, v: int, ghost a: seq<int>, ghost b: seq<int>)
    requires Scratch(temp[..], n, a, b) && i < n
    modifies temp
    ensures Scratch(temp[..], n, a, b[i := v]) && SameRest(old(temp[..]), temp[..], n)
  {
    ghost var t := temp[..];
    temp[n + i] := v;
    assert temp[..] == t[n + i := v];
  }

  lemma ScratchAt(t: seq<int>, n: nat, a: seq<int>, b: seq<int>, i: nat)
    requires Scratch(t, n, a, b) && i < n
    ensures n + i < |t| && t[i] == a[i] && t[n + i] == b[i]
  {
    assert t[n..2 * n][i] == t[n + i];
  }

  /** The new values up to index i, the old ones from there on. */
  ghost function UpTo(b: seq<int>, c: seq<int>, i: nat): (r: seq<int>)
    requires |b| == |c| && i <= |c|
    ensures |r| == |c|
  {
    b[..i] + c[i..]
  }

  lemma UpToStep(b: seq<int>, c: seq<int>, i: nat)
    requires |b| == |c| && i + 1 < |c|
    ensures UpTo(b, c, i)[i] == c[i] && UpTo(b, c, i)[i + 1] == c[i + 1]
    ensures UpTo(b, c, i)[i := b[i]][i + 1 := b[i + 1]] == UpTo(b, c, i + 2)
  {}

  lemma UpToEnds(b: seq<int>, c: seq<int>)
    requires |b| == |c|
    ensures UpTo(b, c, 0) == c && UpTo(b, c, |c|) == b
  {}

  /** The first j bits of f are in the output that held the bits o. */
  ghost predicate Written(o: seq<nat>, out: seq<nat>, start: nat, step: nat, f: seq<nat>, j: nat)
  {
    j <= |f| && |o| == 8 * |out| && Bits(out) == ToggleAll(o, start, step, f[..j])
  }

  lemma WrittenEnds(o: seq<nat>, out: seq<nat>, start: nat, step: nat, f: seq<nat>)
    ensures o == Bits(out) ==> Written(o, out, start, step, f, 0)
    ensures Written(o, out, start, step, f, |f|) ==> Bits(out) == ToggleAll(o, start, step, f)
    ensures Times(step, 0) == 0
  {
    assert f[..0] == [] && f[..|f|] == f;
  }

  /** out[pos>>3] ^= f[j]<<(pos&7); */
  method WriteBit(out: array<nat>, pos: nat, v: nat, ghost start: nat, ghost step: nat, ghost f: seq<nat>, ghost j: nat, ghost o: seq<nat>)
    requires j < |f| && v == f[j] < 2 && Written(o, out[..], start, step, f, j)
    requires Room(out[..], start, step, |f|) && pos == start + Times(step, j)
    modifies out
    ensures Written(o, out[..], start, step, f, j + 1) && Room(out[..], start, step, |f|)
    ensures pos + step == start + Times(step, j + 1)
  {
    RoomAt(out[..], start, step, |f|, j);
    assert |out[..]| == out.Length;
    hide Bits, ToggleAll, ToggleOne, Times;
    ToggleNext(o, start, step, f, j);
    XorAt(out, pos, v);
  }

  /** A is fixed, and B holds the new values below 2j and the old ones from there on. */
  ghost predicate BDone(t: seq<int>, n: nat, a: seq<int>, b: seq<int>, c: seq<int>, j: nat)
  {
    |b| == |c| && 2 * j <= |c| && Scratch(t, n, a, UpTo(b, c, 2 * j))
  }

  /** B[2*j] = v; B[2*j+1] = u; */
  method PutPairB(temp: array<int>, n: nat, j: nat, v: int, u: int, ghost a: seq<int>, ghost b: seq<int>, ghost c: seq<int>)
    requires BDone(temp[..], n, a, b, c, j) && 2 * j + 1 < n && v == b[2 * j] && u == b[2 * j + 1]
    modifies temp
    ensures BDone(temp[..], n, a, b, c, j + 1) && SameRest(old(temp[..]), temp[..], n)
  {
    ghost var t, d := temp[..], UpTo(b, c, 2 * j);
    UpToStep(b, c, 2 * j);
    hide UpTo;
    PutB(temp, n, 2 * j, v, a, d);
    PutB(temp, n, 2 * j + 1, u, a, d[2 * j := v]);
  }

  /** The same with the roles of A and B exchanged. */
  ghost predicate ADone(t: seq<int>, n: nat, a: seq<int>, c: seq<int>, b: seq<int>, j: nat)
  {
    |a| == |c| && 2 * j <= |c| && Scratch(t, n, UpTo(a, c, 2 * j), b)
  }

  method PutPairA(temp: array<int>, n: nat, j: nat, v: int, u: int, ghost a: seq<int>, ghost c: seq<int>, ghost b: seq<int>)
    requires ADone(temp[..], n, a, c, b, j) && 2 * j + 1 < n && v == a[2 * j] && u == a[2 * j + 1]
    modifies temp
    ensures ADone(temp[..], n, a, c, b, j + 1) && SameRest(old(temp[..]), temp[..], n)
  {
    ghost var t, d := temp[..], UpTo(a, c, 2 * j);
    UpToStep(a, c, 2 * j);
    hide UpTo;
    PutA(temp, n, 2 * j, v, d, b);
    PutA(temp, n, 2 * j + 1, u, d[2 * j := v], b);
  }

  /** What round j of a layer loop reads. */
  lemma BDoneAt(t: seq<int>, n: nat, a: seq<int>, b: seq<int>, c: seq<int>, j: nat)
    requires BDone(t, n, a, b, c, j) && 2 * j + 1 < n
    ensures n + 2 * j + 1 < |t| && t[2 * j] == a[2 * j] && t[2 * j + 1] == a[2 * j + 1]
    ensures t[n + 2 * j] == c[2 * j] && t[n + 2 * j + 1] == c[2 * j + 1]
  {
    ScratchAt(t, n, a, UpTo(b, c, 2 * j), 2 * j);
    ScratchAt(t, n, a, UpTo(b, c, 2 * j), 2 * j + 1);
  }

  lemma ADoneAt(t: seq<int>, n: nat, a: seq<int>, c: seq<int>, b: seq<int>, j: nat)
    requires ADone(t, n, a, c, b, j) && 2 * j + 1 < n
    ensures n + 2 * j + 1 < |t| && t[n + 2 * j] == b[2 * j] && t[n + 2 * j + 1] == b[2 * j + 1]
  {
    ScratchAt(t, n, UpTo(a, c, 2 * j), b, 2 * j);
    ScratchAt(t, n, UpTo(a, c, 2 * j), b, 2 * j + 1);
  }

  lemma DoneEnds(t: seq<int>, n: nat, a: seq<int>, b: seq<int>, c: seq<int>, h: nat)
    requires n == 2 * h == |b| == |c|
    ensures Scratch(t, n, a, c) ==> BDone(t, n, a, b, c, 0)
    ensures BDone(t, n, a, b, c, h) ==> Scratch(t, n, a, b)
    ensures Scratch(t, n, c, a) ==> ADone(t, n, b, c, a, 0)
    ensures ADone(t, n, b, c, a, h) ==> Scratch(t, n, b, a)
  {
    UpToEnds(b, c);
  }

  lemma ScratchRest(t: seq<int>, n: nat, a: seq<int>, b: seq<int>)
    requires Scratch(t, n, a, b)
    ensures SameRest(t, t, n)
  {}

  /** for (j = 0;j < n/2;++j) { f[j] goes to the output, and B = (pi^(-1)<<16)+F } */
  method WriteFirstLayer(temp: array<int>, n: nat, out: array<nat>, start: nat, step: nat,
                         ghost q: seq<nat>, ghost c: seq<nat>, ghost f: seq<nat>) returns (pos: nat)
    requires n == 2 * |f| <= 16384 && |q| == |c| == n && Below(q, 16384)
    requires forall j :: 0 <= j < |f| ==> f[j] == c[2 * j] % 2
    requires Scratch(temp[..], n, Pack(Identity(n), q, 0x1_0000), c)
    requires temp as object != out && Room(out[..], start, step, |f|)
    modifies temp, out
    ensures Scratch(temp[..], n, Pack(Identity(n), q, 0x1_0000), Pack(q, Switches(f), 0x1_0000))
    ensures SameRest(old(temp[..]), temp[..], n)
    ensures Bits(out[..]) == ToggleAll(Bits(old(out[..])), start, step, f) && pos == start + Times(step, |f|)
  {
    hide *;
    ghost var a, b, o, t := Pack(Identity(n), q, 0x1_0000), Pack(q, Switches(f), 0x1_0000), Bits(out[..]), temp[..];
    var j, h := 0, n / 2;
    pos := start;
    ScratchRest(t, n, a, c);
    WrittenEnds(o, out[..], start, step, f);
    DoneEnds(t, n, a, b, c, h);
    while j < h
      invariant 0 <= j <= h && pos == start + Times(step, j)
      invariant BDone(temp[..], n, a, b, c, j) && SameRest(t, temp[..], n)
      invariant Written(o, out[..], start, step, f, j) && Room(out[..], start, step, |f|)
    {
      ghost var now := temp[..];
      FirstLayerWords(q, c, f, j);
      FirstLayerStep(temp, n, out, start, step, pos, j, a, b, c, f, o);
      SameRestTransitive(t, now, temp[..], n);
      pos := pos + step;
      j := j + 1;
    }
    assert j == |f|;
    WrittenEnds(o, out[..], start, step, f);
    DoneEnds(temp[..], n, a, b, c, h);
  }

  method FirstLayerStep(temp: array<int>, n: nat, out: array<nat>, ghost start: nat, ghost step: nat, pos: nat, j: nat,
                        ghost a: seq<int>, ghost b: seq<int>, ghost c: seq<nat>, ghost f: seq<nat>, ghost o: seq<nat>)
    requires n == 2 * |f| == |a| == |b| && j < |f| && f[j] < 2
    requires BDone(temp[..], n, a, b, c, j) && FirstLayerWord(a, b, c, f, j)
    requires temp as object != out && Written(o, out[..], start, step, f, j)
    requires Room(out[..], start, step, |f|) && pos == start + Times(step, j)
    modifies temp, out
    ensures BDone(temp[..], n, a, b, c, j + 1) && SameRest(old(temp[..]), temp[..], n)
    ensures Written(o, out[..], start, step, f, j + 1) && Room(out[..], start, step, |f|)
    ensures pos + step == start + Times(step, j + 1)
  {
    hide *;
    BDoneAt(temp[..], n, a, b, c, j);
    FirstLayerWordIs(a, b, c, f, j);
    var x := 2 * j;
    var fj := Low(temp[n + x], 1);
    var v, u := OrInt(Shl(temp[x], 16), x + fj), OrInt(Shl(temp[x + 1], 16), Flip(x + fj));
    WriteBit(out, pos, fj, start, step, f, j, o);
    PutPairB(temp, n, j, v, u, a, b, c);
  }

  /** The words that round j reads and writes. */
  ghost predicate FirstLayerWord(a: seq<int>, b: seq<int>, c: seq<nat>, f: seq<nat>, j: nat)
  {
    && 2 * j + 1 < |a| == |b| == |c| && j < |f|
    && Low(c[2 * j], 1) == f[j]
    && OrInt(Shl(a[2 * j], 16), 2 * j + f[j]) == b[2 * j]
    && OrInt(Shl(a[2 * j + 1], 16), Flip(2 * j + f[j])) == b[2 * j + 1]
  }

  lemma FirstLayerWordIs(a: seq<int>, b: seq<int>, c: seq<nat>, f: seq<nat>, j: nat)
    requires FirstLayerWord(a, b, c, f, j)
    ensures 2 * j + 1 < |a| == |b| == |c| && j < |f| && Low(c[2 * j], 1) == f[j]
    ensures OrInt(Shl(a[2 * j], 16), 2 * j + f[j]) == b[2 * j]
    ensures OrInt(Shl(a[2 * j + 1], 16), Flip(2 * j + f[j])) == b[2 * j + 1]
  {}

  lemma FirstLayerWords(q: seq<nat>, c: seq<nat>, f: seq<nat>, j: nat)
    requires |q| == |c| == 2 * |f| <= 16384 && Below(q, 16384) && j < |f| && f[j] == c[2 * j] % 2
    ensures f[j] < 2 && FirstLayerWord(Pack(Identity(|q|), q, 0x1_0000), Pack(q, Switches(f), 0x1_0000), c, f, j)
  {
    assert Pow2(1) == 2;
    hide OrInt, Shl, Switches, Pack;
    SwitchWords(q, f, j, 0);
    SwitchWords(q, f, j, 1);
  }

  lemma SwitchWords(q: seq<nat>, f: seq<nat>, j: nat, d: nat)
    requires |q| == 2 * |f| <= 16384 && Below(q, 16384) && j < |f| && f[j] < 2 && d < 2
    ensures OrInt(Shl(Pack(Identity(|q|), q, 0x1_0000)[2 * j + d], 16), if d == 0 then 2 * j + f[j] else Flip(2 * j + f[j]))
         == Pack(q, Switches(f), 0x1_0000)[2 * j + d]
  {
    var s, x := Switches(f), 2 * j + d;
    BelowAt(q, 16384, x);
    hide *;
    SwitchValue(f, j, d);
    PackAt(Identity(|q|), q, 0x1_0000, x);
    PackAt(q, s, 0x1_0000, x);
    KeyWord(x, q[x], s[x]);
  }

  lemma SwitchValue(f: seq<nat>, j: nat, d: nat)
    requires j < |f| && f[j] < 2 && d < 2
    ensures Switches(f)[2 * j + d] == if d == 0 then 2 * j + f[j] else Flip(2 * j + f[j])
    ensures Switches(f)[2 * j + d] < 2 * |f|
  {
    var x := 2 * j + d;
    assert x / 2 == j && x % 2 == d;
  }

  // ---------------------------------------------------------------- the last layer

  /** for (k = 0;k < n/2;++k) { l[k] goes to the output, and A = (L<<16)+F(pi) } */
  method WriteLastLayer(temp: array<int>, n: nat, out: array<nat>, start: nat, step: nat,
                        ghost g: seq<nat>, ghost l: seq<nat>, ghost a0: seq<int>) returns (pos: nat)
    requires n == 2 * |l| <= 16384 && |g| == |a0| == n && Below(g, 16384)
    requires forall k :: 0 <= k < |l| ==> l[k] == g[2 * k] % 2
    requires Scratch(temp[..], n, a0, Pack(Identity(n), g, 0x1_0000))
    requires temp as object != out && Room(out[..], start, step, |l|)
    modifies temp, out
    ensures Scratch(temp[..], n, Pack(Switches(l), g, 0x1_0000), Pack(Identity(n), g, 0x1_0000))
    ensures SameRest(old(temp[..]), temp[..], n)
    ensures Bits(out[..]) == ToggleAll(Bits(old(out[..])), start, step, l) && pos == start + Times(step, |l|)
  {
    hide *;
    ghost var a, b, o, t := Pack(Switches(l), g, 0x1_0000), Pack(Identity(n), g, 0x1_0000), Bits(out[..]), temp[..];
    var k, h := 0, n / 2;
    pos := start;
    ScratchRest(t, n, a0, b);
    WrittenEnds(o, out[..], start, step, l);
    DoneEnds(t, n, b, a, a0, h);
    while k < h
      invariant 0 <= k <= h && pos == start + Times(step, k)
      invariant ADone(temp[..], n, a, a0, b, k) && SameRest(t, temp[..], n)
      invariant Written(o, out[..], start, step, l, k) && Room(out[..], start, step, |l|)
    {
      ghost var now := temp[..];
      LastLayerWords(g, l, k);
      LastLayerStep(temp, n, out, start, step, pos, k, a, a0, b, l, o);
      SameRestTransitive(t, now, temp[..], n);
      pos := pos + step;
      k := k + 1;
    }
    assert k == |l|;
    WrittenEnds(o, out[..], start, step, l);
    DoneEnds(temp[..], n, b, a, a0, h);
  }

  method LastLayerStep(temp: array<int>, n: nat, out: array<nat>, ghost start: nat, ghost step: nat, pos: nat, k: nat,
                       ghost a: seq<int>, ghost a0: seq<int>, ghost b: seq<int>, ghost l: seq<nat>, ghost o: seq<nat>)
    requires n == 2 * |l| == |a| == |b| && k < |l| && l[k] < 2
    requires ADone(temp[..], n, a, a0, b, k) && LastLayerWord(a, b, l, k)
    requires temp as object != out && Written(o, out[..], start, step, l, k)
    requires Room(out[..], start, step, |l|) && pos == start + Times(step, k)
    modifies temp, out
    ensures ADone(temp[..], n, a, a0, b, k + 1) && SameRest(old(temp[..]), temp[..], n)
    ensures Written(o, out[..], start, step, l, k + 1) && Room(out[..], start, step, |l|)
    ensures pos + step == start + Times(step, k + 1)
  {
    hide *;
    ADoneAt(temp[..], n, a, a0, b, k);
    LastLayerWordIs(a, b, l, k);
    var y := 2 * k;
    var lk := Low(temp[n + y], 1);
    var v, u := OrInt(Shl(y + lk, 16), Low(temp[n + y], 16)), OrInt(Shl(Flip(y + lk), 16), Low(temp[n + y + 1], 16));
    WriteBit(out, pos, lk, start, step, l, k, o);
    PutPairA(temp, n, k, v, u, a, a0, b);
  }

  /** The words that round k reads and writes. */
  ghost predicate LastLayerWord(a: seq<int>, b: seq<int>, l: seq<nat>, k: nat)
  {
    && 2 * k + 1 < |a| == |b| && k < |l|
    && Low(b[2 * k], 1) == l[k]
    && OrInt(Shl(2 * k + l[k], 16), Low(b[2 * k], 16)) == a[2 * k]
    && OrInt(Shl(Flip(2 * k + l[k]), 16), Low(b[2 * k + 1], 16)) == a[2 * k + 1]
  }

  lemma LastLayerWordIs(a: seq<int>, b: seq<int>, l: seq<nat>, k: nat)
    requires LastLayerWord(a, b, l, k)
    ensures 2 * k + 1 < |a| == |b| && k < |l| && Low(b[2 * k], 1) == l[k]
    ensures OrInt(Shl(2 * k + l[k], 16), Low(b[2 * k], 16)) == a[2 * k]
    ensures OrInt(Shl(Flip(2 * k + l[k]), 16), Low(b[2 * k + 1], 16)) == a[2 * k + 1]
  {}

  lemma LastLayerWords(g: seq<nat>, l: seq<nat>, k: nat)
    requires |g| == 2 * |l| <= 16384 && Below(g, 16384) && k < |l| && l[k] == g[2 * k] % 2
    ensures l[k] < 2 && LastLayerWord(Pack(Switches(l), g, 0x1_0000), Pack(Identity(|g|), g, 0x1_0000), l, k)
  {
    var a, b := Pack(Switches(l), g, 0x1_0000), Pack(Identity(|g|), g, 0x1_0000);
    hide OrInt, Shl, Low, Switches, Pack, Below, Identity;
    assert Low(b[2 * k], 1) == l[k] by {
      LowBit(2 * k, g[2 * k]);
      PackAt(Identity(|g|), g, 0x1_0000, 2 * k);
    }
    LastWords(g, l, k, 0);
    LastWords(g, l, k, 1);
  }

  lemma LowBit(x: nat, v: nat)
    ensures Low(x * 0x1_0000 + v, 1) == v % 2
  {
    assert Pow2(1) == 2;
  }

  lemma LastWords(g: seq<nat>, l: seq<nat>, k: nat, d: nat)
    requires |g| == 2 * |l| <= 16384 && Below(g, 16384) && k < |l| && l[k] < 2 && d < 2
    ensures OrInt(Shl(if d == 0 then 2 * k + l[k] else Flip(2 * k + l[k]), 16), Low(Pack(Identity(|g|), g, 0x1_0000)[2 * k + d], 16))
         == Pack(Switches(l), g, 0x1_0000)[2 * k + d]
  {
    var s, y := Switches(l), 2 * k + d;
    BelowAt(g, 16384, y);
    hide *;
    SwitchValue(l, k, d);
    PackAt(Identity(|g|), g, 0x1_0000, y);
    PackAt(s, g, 0x1_0000, y);
    JoinedWord(s[y], y, g[y]);
  }

  /** (Ly<<16)|(B[y]&0xffff) */
  lemma JoinedWord(h: nat, y: nat, v: nat)
    requires h < 16384 && v < 16384
    ensures OrInt(Shl(h, 16), Low(y * 0x1_0000 + v, 16)) == h * 0x1_0000 + v
  {
    hide *;
    Sizes();
    var x := y * Pow2(16) + v;
    Unpack(y, 16, v);
    assert x == y * 0x1_0000 + v;
    Join(h, 16, v);
  }
}
