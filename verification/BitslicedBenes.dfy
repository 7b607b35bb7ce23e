/** The Benes network on 4096 bits kept in 64 words, and its inverse. */
module BitslicedBenes {
  import opened Sequences
  import opened Words
  import opened Permutations
  import opened Cycles
  import opened BenesNetwork
  import opened OutputBits
  import opened ControlBitsCheck
  import opened BitMatrix

  // ---------------------------------------------------------------- one layer on words

  /** In the columns where the condition word of the pair is set, the two rows are exchanged. */
  function RowLayer(m: Matrix, bits: Matrix, s: nat): (r: Matrix)
  {
    seq(64, x requires 0 <= x < 64 => seq(64, c requires 0 <= c < 64 => RowLayerAt(m, bits, s, x, c)))
  }

  function RowLayerAt(m: Matrix, bits: Matrix, s: nat, x: nat, c: nat): (b: bool)
    requires x < 64 && c < 64
  {
    if PairIndex(x, s) < 64 && Partner(x, s) < 64 && bits[PairIndex(x, s)][c] then m[Partner(x, s)][c] else m[x][c]
  }

  /** d = (a ^ b) & bits; both words are exclusive-or'ed with d */
  lemma ExchangedWords(a: Word, b: Word, bits: Word, c: nat)
    requires c < 64
    ensures var d := AndWord(XorWord(a, b), bits);
            && XorWord(a, d)[c] == (if bits[c] then b[c] else a[c])
            && XorWord(b, d)[c] == (if bits[c] then a[c] else b[c])
  {}

  lemma RowsExchanged(m: Matrix, bits: Matrix, s: nat, x: nat, y: nat, index: nat)
    requires x < 64 && y < 64 && index < 64 && Partner(x, s) == y && Partner(y, s) == x
    requires PairIndex(x, s) == index == PairIndex(y, s)
    ensures var d := AndWord(XorWord(m[x], m[y]), bits[index]);
            XorWord(m[x], d) == RowLayer(m, bits, s)[x] && XorWord(m[y], d) == RowLayer(m, bits, s)[y]
  {
    var d, r := AndWord(XorWord(m[x], m[y]), bits[index]), RowLayer(m, bits, s);
    hide XorWord, AndWord, PairIndex, Partner;
    forall c | 0 <= c < 64 ensures XorWord(m[x], d)[c] == r[x][c] && XorWord(m[y], d)[c] == r[y][c] {
      ExchangedWords(m[x], m[y], bits[index], c);
    }
  }

  method LayerRound(data: array<Word>, bits: array<Word>, lgs: nat, s: nat, j: nat, index: nat, ghost m: Matrix)
    requires data.Length == 64 == bits.Length && data != bits && s > 0 && j + s < 64 && index < 64
    requires PairIndex(j, lgs) == index == PairIndex(j + s, lgs) && Partner(j, lgs) == j + s && Partner(j + s, lgs) == j
    requires Blend(data[..], RowLayer(m, bits[..], lgs), m, lgs, index)
    modifies data
    ensures Blend(data[..], RowLayer(m, bits[..], lgs), m, lgs, index + 1)
  {
    hide *;
    ghost var now: seq<Word>, r: seq<Word> := data[..], RowLayer(m, bits[..], lgs);
    BlendAt(now, r, m, lgs, index, j);
    BlendAt(now, r, m, lgs, index, j + s);
    BlendStep(now, r, m, lgs, index, j, j + s);
    RowsExchanged(m, bits[..], lgs, j, j + s, index);
    var d := AndWord(XorWord(data[j], data[j + s]), bits[index]);
    data[j] := XorWord(data[j], d);
    data[j + s] := XorWord(data[j + s], d);
    assert data[..] == now[j := r[j]][j + s := r[j + s]];
  }

  /** layer(data, bits, lgs) */
  method LayerOfWords(data: array<Word>, bits: array<Word>, lgs: nat)
    requires data.Length == 64 == bits.Length && data != bits && lgs < 6
    modifies data
    ensures data[..] == RowLayer(old(data[..]), bits[..], lgs)
  {
    hide *;
    ghost var m: Matrix := data[..];
    ghost var r := RowLayer(m, bits[..], lgs);
    var s := Pow2(lgs);
    var i, index := 0, 0;
    ghost var b := 0;
    Pow2Of32();
    BlendEnds(m, r, m, lgs);
    BlockBounds(6, lgs, 0, s);
    while i < 64
      invariant i == 2 * index && index == Times(b, s) <= 32
      invariant Blend(data[..], r, m, lgs, index)
    {
      BlockBounds(6, lgs, b, s);
      var j := i;
      while j < i + s
        invariant i <= j <= i + s && index == Times(b, s) + (j - i)
        invariant Blend(data[..], r, m, lgs, index)
      {
        RowPlace(lgs, b, j - i);
        LayerRound(data, bits, lgs, s, j, index, m);
        index := index + 1;
        j := j + 1;
      }
      i := i + s * 2;
      b := b + 1;
    }
    assert index == 32;
    BlendEnds(data[..], r, m, lgs);
  }

  // ---------------------------------------------------------------- the 4096 bits in a row

  function FlatBits(m: Matrix): (p: seq<bool>)
    ensures |p| == 4096
  {
    seq(4096, x requires 0 <= x < 4096 => m[x / 64][x % 64])
  }

  /** Strides of at least 2^e work on the part of the index above bit e. */
  lemma {:induction false} HighPlace(e: nat, i: nat, j: nat, s: nat)
    requires j < Pow2(e)
    ensures PairIndex(Times(Pow2(e), i) + j, e + s) == Times(Pow2(e), PairIndex(i, s)) + j
    ensures Partner(Times(Pow2(e), i) + j, e + s) == Times(Pow2(e), Partner(i, s)) + j
    decreases e
  {
    hide *;
    if e > 0 {
      DoubledPlace(e, i, j);
      HighPlace(e - 1, i, j / 2, s);
      PairStep(Times(Pow2(e), i) + j, e + s);
      DoubledPlace(e, PairIndex(i, s), j);
      DoubledPlace(e, Partner(i, s), j);
    } else {
      TimesOne(i);
      TimesOne(PairIndex(i, s));
      TimesOne(Partner(i, s));
    }
  }

  /** Strides below 2^e work on the part of the index below bit e. */
  lemma {:induction false} LowPlace(e: nat, i: nat, j: nat, s: nat)
    requires s < e && j < Pow2(e)
    ensures PairIndex(Times(Pow2(e), i) + j, s) == Times(Pow2(e - 1), i) + PairIndex(j, s)
    ensures Partner(Times(Pow2(e), i) + j, s) == Times(Pow2(e), i) + Partner(j, s)
    decreases s
  {
    hide *;
    DoubledPlace(e, i, j);
    var x := Times(Pow2(e), i) + j;
    if s == 0 {
      FirstStride(x);
      FirstStride(j);
      FlipSum(Times(Pow2(e - 1), i), j);
    } else {
      LowPlace(e - 1, i, j / 2, s - 1);
      PairStep(x, s);
      PairStep(j, s);
      DoubledPlace(e - 1, i, 0);
    }
  }

  lemma DoubledPlace(e: nat, i: nat, j: nat)
    requires e > 0
    ensures var x := Times(Pow2(e), i) + j;
            Times(Pow2(e), i) == 2 * Times(Pow2(e - 1), i) && x / 2 == Times(Pow2(e - 1), i) + j / 2 && x % 2 == j % 2
    ensures j < Pow2(e) ==> j / 2 < Pow2(e - 1)
  {
    TimesFacts(Pow2(e - 1), i, 0);
  }

  lemma TimesOne(i: nat)
    ensures Times(Pow2(0), i) == i && Pow2(0) == 1
  {}

  lemma FirstStride(x: nat)
    ensures PairIndex(x, 0) == x / 2 && Partner(x, 0) == Flip(x)
  {}

  lemma FlipSum(a: nat, j: nat)
    ensures Flip(2 * a + j) == 2 * a + Flip(j)
  {}

  /** Bit j of word i is bit 64 i + j of the row. */
  lemma FlatPlace(i: nat, j: nat, s: nat)
    requires i < 64 && j < 64 && s < 6
    ensures PairIndex(i, s) < 32 && Partner(i, s) < 64 && PairIndex(j, s) < 32 && Partner(j, s) < 64
    ensures PairIndex(64 * i + j, 6 + s) == 64 * PairIndex(i, s) + j && Partner(64 * i + j, 6 + s) == 64 * Partner(i, s) + j
    ensures PairIndex(64 * i + j, s) == 32 * i + PairIndex(j, s) && Partner(64 * i + j, s) == 64 * i + Partner(j, s)
  {
    hide *;
    Pow2Of32();
    LayerRanges(6, i, s);
    LayerRanges(6, j, s);
    HighPlace(6, i, j, s);
    LowPlace(6, i, j, s);
    SixtyFour(i);
    SixtyFour(PairIndex(i, s));
    SixtyFour(Partner(i, s));
  }

  lemma SixtyFour(i: nat)
    ensures Times(64, i) == 64 * i && Times(32, i) == 32 * i
  {}

  /** Bit c of condition word k is the control bit 64 k + c. */
  ghost predicate ByRow(bits: Matrix, l: seq<nat>)
  {
    |l| == 2048 && forall k, c :: 0 <= k < 32 && 0 <= c < 64 ==> ByRowAt(bits, l, k, c)
  }

  ghost predicate ByRowAt(bits: Matrix, l: seq<nat>, k: nat, c: nat)
    requires k < 32 && c < 64 && |l| == 2048
  {
    bits[k][c] <==> l[64 * k + c] == 1
  }

  /** Bit i of condition word k is the control bit 32 i + k. */
  ghost predicate ByColumn(bits: Matrix, l: seq<nat>)
  {
    |l| == 2048 && forall k, i :: 0 <= k < 32 && 0 <= i < 64 ==> ByColumnAt(bits, l, k, i)
  }

  ghost predicate ByColumnAt(bits: Matrix, l: seq<nat>, k: nat, i: nat)
    requires k < 32 && i < 64 && |l| == 2048
  {
    bits[k][i] <==> l[32 * i + k] == 1
  }

  /** A layer on whole words is a layer of stride 64 or more on the bits. */
  lemma RowLayerFlat(m: Matrix, bits: Matrix, l: seq<nat>, s: nat)
    requires s < 6 && ByRow(bits, l)
    ensures FlatBits(RowLayer(m, bits, s)) == Layer<bool>(FlatBits(m), l, 6 + s)
  {
    hide *;
    forall x | 0 <= x < 4096 ensures FlatBits(RowLayer(m, bits, s))[x] == Layer<bool>(FlatBits(m), l, 6 + s)[x] {
      RowLayerFlatAt(m, bits, l, s, x / 64, x % 64);
    }
  }

  lemma RowLayerFlatAt(m: Matrix, bits: Matrix, l: seq<nat>, s: nat, i: nat, j: nat)
    requires s < 6 && ByRow(bits, l) && i < 64 && j < 64
    ensures FlatBits(RowLayer(m, bits, s))[64 * i + j] == Layer<bool>(FlatBits(m), l, 6 + s)[64 * i + j]
  {
    hide PairIndex, Partner;
    FlatPlace(i, j, s);
    assert ByRowAt(bits, l, PairIndex(i, s), j);
    var x, y := 64 * i + j, 64 * Partner(i, s) + j;
    assert x / 64 == i && x % 64 == j && y / 64 == Partner(i, s) && y % 64 == j;
  }

  /** A layer on the transposed words is a layer of stride below 64 on the bits. */
  lemma ColumnLayerFlat(m: Matrix, bits: Matrix, l: seq<nat>, s: nat)
    requires s < 6 && ByColumn(bits, l)
    ensures FlatBits(Transposed(RowLayer(Transposed(m), bits, s))) == Layer<bool>(FlatBits(m), l, s)
  {
    hide *;
    forall x | 0 <= x < 4096
      ensures FlatBits(Transposed(RowLayer(Transposed(m), bits, s)))[x] == Layer<bool>(FlatBits(m), l, s)[x]
    {
      ColumnLayerFlatAt(m, bits, l, s, x / 64, x % 64);
    }
  }

  lemma ColumnLayerFlatAt(m: Matrix, bits: Matrix, l: seq<nat>, s: nat, i: nat, j: nat)
    requires s < 6 && ByColumn(bits, l) && i < 64 && j < 64
    ensures FlatBits(Transposed(RowLayer(Transposed(m), bits, s)))[64 * i + j] == Layer<bool>(FlatBits(m), l, s)[64 * i + j]
  {
    hide PairIndex, Partner;
    FlatPlace(i, j, s);
    assert ByColumnAt(bits, l, PairIndex(j, s), i);
    var x, y := 64 * i + j, 64 * i + Partner(j, s);
    assert x / 64 == i && x % 64 == j && y / 64 == i && y % 64 == Partner(j, s);
  }

  // ---------------------------------------------------------------- loading the conditions

  /** The word that n bytes from place `at` on make up, the first one lowest. */
  ghost predicate Loaded(r: Word, cb: seq<nat>, at: nat, n: nat)
  {
    at + n <= |cb| && forall k :: 0 <= k < 64 ==> LoadedAt(r, cb, at, n, k)
  }

  ghost predicate LoadedAt(r: Word, cb: seq<nat>, at: nat, n: nat, k: nat)
    requires at + n <= |cb| && k < 64
  {
    r[k] <==> k < 8 * n && BitOf(cb[at + k / 8], k % 8) == 1
  }

  lemma {:induction false} HighBitsZero(m: nat, v: nat, k: nat)
    requires v < Pow2(m) && k >= m
    ensures BitOf(v, k) == 0
    decreases m
  {
    if m == 0 { ZeroBit(k); } else { HighBitsZero(m - 1, v / 2, k - 1); }
  }

  lemma LoadFirst(cb: seq<nat>, at: nat)
    requires at < |cb| && AreBytes(cb)
    ensures Loaded(WordOf(cb[at]), cb, at, 1)
  {
    hide BitOf, Pow2;
    Pow2Of32();
    forall k | 0 <= k < 64 ensures LoadedAt(WordOf(cb[at]), cb, at, 1, k) {
      if k >= 8 { HighBitsZero(8, cb[at], k); }
    }
  }

  /** ret <<= 8; ret |= in[i]; */
  lemma LoadNext(r: Word, cb: seq<nat>, at: nat, n: nat)
    requires at > 0 && n < 8 && Loaded(r, cb, at, n) && AreBytes(cb)
    ensures Loaded(OrWord(Left(r, 8), WordOf(cb[at - 1])), cb, at - 1, n + 1)
  {
    hide BitOf, Pow2;
    Pow2Of32();
    var next, from, count := OrWord(Left(r, 8), WordOf(cb[at - 1])), at - 1, n + 1;
    forall k | 0 <= k < 64 ensures LoadedAt(next, cb, from, count, k) {
      if k >= 8 {
        HighBitsZero(8, cb[at - 1], k);
        assert LoadedAt(r, cb, at, n, k - 8);
      }
    }
  }

  method Load4(cb: array<nat>, at: nat) returns (r: Word)
    requires at + 4 <= cb.Length && AreBytes(cb[..])
    ensures Loaded(r, cb[..], at, 4)
  {
    hide *;
    LoadFirst(cb[..], at + 3);
    r := WordOf(cb[at + 3]);
    LoadNext(r, cb[..], at + 3, 1);
    r := OrWord(Left(r, 8), WordOf(cb[at + 2]));
    LoadNext(r, cb[..], at + 2, 2);
    r := OrWord(Left(r, 8), WordOf(cb[at + 1]));
    LoadNext(r, cb[..], at + 1, 3);
    r := OrWord(Left(r, 8), WordOf(cb[at]));
  }

  method Load8(cb: array<nat>, at: nat) returns (r: Word)
    requires at + 8 <= cb.Length && AreBytes(cb[..])
    ensures Loaded(r, cb[..], at, 8)
  {
    hide *;
    LoadFirst(cb[..], at + 7);
    r := WordOf(cb[at + 7]);
    var i := 6;
    while i >= 0
      invariant -1 <= i <= 6 && Loaded(r, cb[..], at + i + 1, 7 - i)
    {
      LoadNext(r, cb[..], at + i + 1, 7 - i);
      r := OrWord(Left(r, 8), WordOf(cb[at + i]));
      i := i - 1;
    }
  }

  /** Condition layer u: 2048 bits from byte 256 u on. */
  function Conditions(cb: seq<nat>, u: nat): (l: seq<nat>)
    requires 256 * u + 256 <= |cb|
    ensures |l| == 2048
  {
    Bits(cb)[2048 * u..2048 * u + 2048]
  }

  lemma ConditionAt(cb: seq<nat>, u: nat, at: nat, k: nat)
    requires 256 * u + 256 <= |cb| && at + k / 8 < 256
    ensures 8 * at + k < 2048 && Conditions(cb, u)[8 * at + k] == BitOf(cb[256 * u + at + k / 8], k % 8)
  {
    hide BitOf;
    var p := 2048 * u + (8 * at + k);
    assert p / 8 == 256 * u + at + k / 8 && p % 8 == k % 8;
  }

  /** for (i = 0; i < 32; i++) cond[i] = load8(cond_ptr + i*8); */
  method LoadRows(cond: array<Word>, cb: array<nat>, u: nat)
    requires cond.Length == 64 && 256 * u + 256 <= cb.Length && AreBytes(cb[..])
    modifies cond
    ensures ByRow(cond[..], Conditions(cb[..], u))
  {
    hide *;
    var i := 0;
    while i < 32
      invariant 0 <= i <= 32
      invariant forall k :: 0 <= k < i ==> Loaded(cond[k], cb[..], 256 * u + 8 * k, 8)
    {
      cond[i] := Load8(cb, 256 * u + i * 8);
      i := i + 1;
    }
    RowsLoaded(cond[..], cb[..], u);
  }

  lemma RowsLoaded(cond: Matrix, cb: seq<nat>, u: nat)
    requires 256 * u + 256 <= |cb| && forall k :: 0 <= k < 32 ==> Loaded(cond[k], cb, 256 * u + 8 * k, 8)
    ensures ByRow(cond, Conditions(cb, u))
  {
    hide Bits, BitOf, Conditions;
    forall k, c | 0 <= k < 32 && 0 <= c < 64 ensures ByRowAt(cond, Conditions(cb, u), k, c) {
      assert LoadedAt(cond[k], cb, 256 * u + 8 * k, 8, c);
      ConditionAt(cb, u, 8 * k, c);
    }
  }

  /** for (i = 0; i < 64; i++) cond[i] = load4(cond_ptr + i*4); transpose_64x64(cond, cond); */
  method LoadColumns(cond: array<Word>, cb: array<nat>, u: nat)
    requires cond.Length == 64 && 256 * u + 256 <= cb.Length && AreBytes(cb[..])
    modifies cond
    ensures ByColumn(cond[..], Conditions(cb[..], u))
  {
    hide *;
    var i := 0;
    while i < 64
      invariant 0 <= i <= 64
      invariant forall k :: 0 <= k < i ==> Loaded(cond[k], cb[..], 256 * u + 4 * k, 4)
    {
      cond[i] := Load4(cb, 256 * u + i * 4);
      i := i + 1;
    }
    ColumnsLoaded(cond[..], cb[..], u);
    Transpose(cond, cond);
  }

  lemma ColumnsLoaded(cond: Matrix, cb: seq<nat>, u: nat)
    requires 256 * u + 256 <= |cb| && forall i :: 0 <= i < 64 ==> Loaded(cond[i], cb, 256 * u + 4 * i, 4)
    ensures ByColumn(Transposed(cond), Conditions(cb, u))
  {
    hide Bits, BitOf, Conditions;
    forall k, i | 0 <= k < 32 && 0 <= i < 64 ensures ByColumnAt(Transposed(cond), Conditions(cb, u), k, i) {
      assert LoadedAt(cond[i], cb, 256 * u + 4 * i, 4, k);
      ConditionAt(cb, u, 4 * i, k);
    }
  }

  // ---------------------------------------------------------------- the whole network

  /** The 23 condition layers. */
  function Layers(cb: seq<nat>): (layers: seq<seq<nat>>)
    requires 23 * 256 <= |cb|
    ensures |layers| == 23
  {
    seq(23, u requires 0 <= u < 23 => Conditions(cb, u))
  }

  /** The layers in the order in which they are applied. */
  function InOrder(layers: seq<seq<nat>>, rev: int): (r: seq<seq<nat>>)
    ensures |r| == |layers|
  {
    if rev == 0 then layers else Reversed(layers)
  }

  /** The number of the layer that step t applies. */
  function LayerOf(rev: int, t: nat): (u: nat)
    requires t < 23
    ensures u < 23
  {
    if rev == 0 then t else 22 - t
  }

  /** After t steps the matrix holds what the first t layers make of p. */
  ghost predicate Reached(m: Matrix, p: seq<bool>, layers: seq<seq<nat>>, t: nat)
  {
    |layers| == 23 && t <= 23 && FlatBits(m) == Run<bool>(12, p, layers, t)
  }

  lemma ReachedStep(m: Matrix, next: Matrix, p: seq<bool>, cb: seq<nat>, rev: int, t: nat, s: nat)
    requires 23 * 256 <= |cb| && t < 23 && s == Stride(12, t)
    requires Reached(m, p, InOrder(Layers(cb), rev), t)
    requires FlatBits(next) == Layer<bool>(FlatBits(m), Conditions(cb, LayerOf(rev, t)), s)
    ensures Reached(next, p, InOrder(Layers(cb), rev), t + 1)
  {
    RunStep<bool>(12, p, InOrder(Layers(cb), rev), t);
    hide Run, Layer, Stride, Conditions, FlatBits;
  }

  /** One step on the rows: the strides from 64 on. */
  method RowStep(r: array<Word>, cond: array<Word>, cb: array<nat>, condPtr: int, low: nat,
                 rev: int, ghost p: seq<bool>, ghost t: nat)
    requires r.Length == cond.Length == 64 && r != cond && 23 * 256 <= cb.Length && AreBytes(cb[..])
    requires t < 23 && low < 6 && 6 + low == Stride(12, t) && condPtr == 256 * LayerOf(rev, t)
    requires Reached(r[..], p, InOrder(Layers(cb[..]), rev), t)
    modifies r, cond
    ensures Reached(r[..], p, InOrder(Layers(cb[..]), rev), t + 1)
  {
    hide *;
    ghost var m: Matrix := r[..];
    LoadRows(cond, cb, condPtr / 256);
    LayerOfWords(r, cond, low);
    RowLayerFlat(m, cond[..], Conditions(cb[..], LayerOf(rev, t)), low);
    ReachedStep(m, r[..], p, cb[..], rev, t, 6 + low);
  }

  /** One step on the columns, while r is transposed: the strides below 64. */
  method ColumnStep(r: array<Word>, cond: array<Word>, cb: array<nat>, condPtr: int, low: nat,
                    rev: int, ghost p: seq<bool>, ghost t: nat)
    requires r.Length == cond.Length == 64 && r != cond && 23 * 256 <= cb.Length && AreBytes(cb[..])
    requires t < 23 && low < 6 && low == Stride(12, t) && condPtr == 256 * LayerOf(rev, t)
    requires Reached(Transposed(r[..]), p, InOrder(Layers(cb[..]), rev), t)
    modifies r, cond
    ensures Reached(Transposed(r[..]), p, InOrder(Layers(cb[..]), rev), t + 1)
  {
    hide *;
    ghost var m: Matrix := r[..];
    TransposedTwice(m);
    LoadColumns(cond, cb, condPtr / 256);
    LayerOfWords(r, cond, low);
    ColumnLayerFlat(Transposed(m), cond[..], Conditions(cb[..], LayerOf(rev, t)), low);
    ReachedStep(Transposed(m), Transposed(r[..]), p, cb[..], rev, t, low);
  }

  /** benes(r, bits, rev) */
  method Benes(r: array<Word>, bits: array<nat>, rev: int)
    requires r.Length == 64 && 23 * 256 <= bits.Length && AreBytes(bits[..])
    modifies r
    ensures FlatBits(r[..]) == Network<bool>(12, FlatBits(old(r[..])), InOrder(Layers(bits[..]), rev))
  {
    hide *;
    ghost var p, layers := FlatBits(r[..]), InOrder(Layers(bits[..]), rev);
    ghost var m: Matrix := r[..];
    var cond := new Word[64];
    var inc, condPtr := if rev == 0 then 256 else -256, if rev == 0 then 0 else 22 * 256;
    Strides();
    Pointer(rev);
    ReachedStart(m, layers);
    Transpose(r, r);
    TransposedTwice(m);
    var low := 0;
    while low <= 5
      invariant 0 <= low <= 6 && condPtr == (if rev == 0 then 256 * low else 256 * (22 - low))
      invariant Reached(Transposed(r[..]), p, layers, low)
    {
      ColumnStep(r, cond, bits, condPtr, low, rev, p, low);
      condPtr := condPtr + inc;
      low := low + 1;
    }
    Transpose(r, r);
    low := 0;
    while low <= 5
      invariant 0 <= low <= 6 && condPtr == (if rev == 0 then 256 * (6 + low) else 256 * (16 - low))
      invariant Reached(r[..], p, layers, 6 + low)
    {
      RowStep(r, cond, bits, condPtr, low, rev, p, 6 + low);
      condPtr := condPtr + inc;
      low := low + 1;
    }
    var high := 4;
    while high >= 0
      invariant -1 <= high <= 4 && condPtr == (if rev == 0 then 256 * (16 - high) else 256 * (6 + high))
      invariant Reached(r[..], p, layers, 16 - high)
    {
      RowStep(r, cond, bits, condPtr, high, rev, p, 16 - high);
      condPtr := condPtr + inc;
      high := high - 1;
    }
    m := r[..];
    TransposedTwice(m);
    Transpose(r, r);
    high := 5;
    while high >= 0
      invariant -1 <= high <= 5 && condPtr == (if rev == 0 then 256 * (22 - high) else 256 * high)
      invariant Reached(Transposed(r[..]), p, layers, 22 - high)
    {
      ColumnStep(r, cond, bits, condPtr, high, rev, p, 22 - high);
      condPtr := condPtr + inc;
      high := high - 1;
    }
    m := r[..];
    Transpose(r, r);
    ReachedEnd(r[..], p, layers);
  }

  lemma Strides()
    ensures forall t: nat :: t < 23 ==> Stride(12, t) == if t < 12 then t else 22 - t
  {}

  lemma Pointer(rev: int)
    ensures forall t: nat :: t < 23 ==> LayerOf(rev, t) == if rev == 0 then t else 22 - t
  {}

  lemma ReachedStart(m: Matrix, layers: seq<seq<nat>>)
    requires |layers| == 23
    ensures Reached(m, FlatBits(m), layers, 0)
  {
    RunStep<bool>(12, FlatBits(m), layers, 0);
  }

  lemma ReachedEnd(m: Matrix, p: seq<bool>, layers: seq<seq<nat>>)
    requires Reached(m, p, layers, 23)
    ensures |layers| == 2 * 12 - 1 && FlatBits(m) == Network<bool>(12, p, layers)
  {}

  // ---------------------------------------------------------------- the inverse

  /** Every layer undoes itself. */
  lemma LayerInvolution<T>(w: nat, p: seq<T>, bits: seq<nat>, s: nat)
    requires |p| == Pow2(w) && s < w
    ensures Layer(Layer(p, bits, s), bits, s) == p
  {
    hide PairIndex, Partner, Pow2;
    forall x | 0 <= x < |p| ensures Layer(Layer(p, bits, s), bits, s)[x] == p[x] {
      LayerRanges(w, x, s);
    }
  }

  /** Running the layers backwards undoes them one by one. */
  lemma {:induction false} RunReversed<T>(w: nat, p: seq<T>, layers: seq<seq<nat>>, t: nat)
    requires w > 0 && |p| == Pow2(w) && |layers| == 2 * w - 1 && t <= 2 * w - 1
    ensures Run(w, Network(w, p, layers), Reversed(layers), t) == Run(w, p, layers, 2 * w - 1 - t)
    decreases t
  {
    hide Run, Layer, Pow2;
    var q := Network(w, p, layers);
    if t == 0 {
      RunStep(w, q, Reversed(layers), 0);
    } else {
      var u := 2 * w - 1 - t;
      RunReversed(w, p, layers, t - 1);
      RunStep(w, q, Reversed(layers), t - 1);
      RunStep(w, p, layers, u);
      LayerInvolution(w, Run(w, p, layers, u), layers[u], Stride(w, u));
    }
  }

  /** The reverse run is the inverse of the forward run, on every input and for all conditions. */
  lemma ReverseInverts<T>(w: nat, p: seq<T>, layers: seq<seq<nat>>)
    requires w > 0 && |p| == Pow2(w) && |layers| == 2 * w - 1
    ensures Network(w, Network(w, p, layers), Reversed(layers)) == p
    ensures Network(w, Network(w, p, Reversed(layers)), layers) == p
  {
    hide *;
    InvertsOneWay(w, p, layers);
    InvertsOneWay(w, p, Reversed(layers));
    assert Reversed(Reversed(layers)) == layers;
  }

  lemma InvertsOneWay<T>(w: nat, p: seq<T>, layers: seq<seq<nat>>)
    requires w > 0 && |p| == Pow2(w) && |layers| == 2 * w - 1
    ensures Network(w, Network(w, p, layers), Reversed(layers)) == p
  {
    RunReversed(w, p, layers, 2 * w - 1);
    hide Layer, Reversed, Pow2;
    RunStep(w, p, layers, 0);
  }

  lemma TwelveBits()
    ensures Pow2(12) == 4096 && Pow2(11) == 2048
  {
    assert Pow2(4) == 16;
    assert Pow2(8) == 256;
  }

  /** Running benes in both directions restores the bits. */
  lemma BenesInverts(p: seq<bool>, cb: seq<nat>, rev: int)
    requires |p| == 4096 && 23 * 256 <= |cb|
    ensures var back := if rev == 0 then 1 else 0;
            Network<bool>(12, Network<bool>(12, p, InOrder(Layers(cb), rev)), InOrder(Layers(cb), back)) == p
  {
    hide *;
    TwelveBits();
    ReverseInverts<bool>(12, p, Layers(cb));
    OrderIs(Layers(cb), 0);
    OrderIs(Layers(cb), 1);
    OrderIs(Layers(cb), rev);
  }

  lemma OrderIs(layers: seq<seq<nat>>, rev: int)
    ensures InOrder(layers, rev) == if rev == 0 then layers else Reversed(layers)
  {}

  /** The layers of benes are those in which the control bits are written. */
  lemma {:induction false} LayersAgree(o: seq<nat>, k: nat)
    requires 2048 * k <= |o|
    ensures LayersIn(o, 2048, k) == seq(k, u requires 0 <= u < k => o[2048 * u..2048 * u + 2048])
    decreases k
  {
    if k > 0 {
      var rest := o[2048..];
      LayersAgree(rest, k - 1);
      forall u | 1 <= u < k ensures LayersIn(o, 2048, k)[u] == o[2048 * u..2048 * u + 2048] {
        assert LayersIn(rest, 2048, k - 1)[u - 1] == rest[2048 * (u - 1)..2048 * (u - 1) + 2048];
      }
    }
  }

  lemma LayersRead(cb: seq<nat>)
    requires 23 * 256 <= |cb|
    ensures LayersIn(Bits(cb), 2048, 23) == Layers(cb)
  {
    LayersAgree(Bits(cb), 23);
  }

  /** With the control bits of pi, benes moves bit pi(x) to place x, and the reverse run moves it back. */
  lemma BenesPermutes(cb: seq<nat>, pi: seq<nat>, p: seq<bool>, x: nat)
    requires 23 * 256 <= |cb| && PermOf(12, pi) && |p| == 4096 && x < 4096
    requires Network<nat>(12, Identity(Pow2(12)), LayersIn(Bits(cb), Pow2(11), 23)) == pi
    ensures |pi| == 4096 && pi[x] < 4096
    ensures Network<bool>(12, p, InOrder(Layers(cb), 0))[x] == p[pi[x]]
    ensures Network<bool>(12, p, InOrder(Layers(cb), 1))[pi[x]] == p[x]
  {
    hide *;
    TwelveBits();
    LayersRead(cb);
    OrderIs(Layers(cb), 0);
    OrderIs(Layers(cb), 1);
    NetworkMoves(p, Layers(cb), pi, x);
    var q := Network<bool>(12, p, Reversed(Layers(cb)));
    NetworkMoves(q, Layers(cb), pi, x);
    ReverseInverts<bool>(12, p, Layers(cb));
  }

  lemma NetworkMoves(p: seq<bool>, layers: seq<seq<nat>>, pi: seq<nat>, x: nat)
    requires |p| == 4096 == Pow2(12) && |layers| == 23 && Network<nat>(12, Identity(Pow2(12)), layers) == pi && x < 4096
    ensures |pi| == 4096 && pi[x] < 4096 && Network<bool>(12, p, layers)[x] == p[pi[x]]
  {
    hide Run, Pow2;
    RunNatural<bool>(12, p, layers, 23);
    assert Source(12, layers, 23) == pi;
  }
}
