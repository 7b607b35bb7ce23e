/** 64-bit words as sequences of bits, and the in-place transposition of a 64x64 bit matrix. */
module BitMatrix {
  import opened Words
  import opened CInt
  import opened BenesNetwork
  import opened OutputBits
  import opened ControlBitsCheck

  // ---------------------------------------------------------------- uint64 as bits

  type Word = w: seq<bool> | |w| == 64 witness seq(64, i => false)

  function AndWord(a: Word, b: Word): (r: Word)
  {
    seq(64, k requires 0 <= k < 64 => a[k] && b[k])
  }

  function OrWord(a: Word, b: Word): (r: Word)
  {
    seq(64, k requires 0 <= k < 64 => a[k] || b[k])
  }

  function XorWord(a: Word, b: Word): (r: Word)
  {
    seq(64, k requires 0 <= k < 64 => a[k] != b[k])
  }

  /** a << s */
  function Left(a: Word, s: nat): (r: Word)
  {
    seq(64, k requires 0 <= k < 64 => k >= s && a[k - s])
  }

  /** a >> s */
  function Right(a: Word, s: nat): (r: Word)
  {
    seq(64, k requires 0 <= k < 64 => k + s < 64 && a[k + s])
  }

  /** The word of a number. */
  function WordOf(v: nat): (r: Word)
  {
    seq(64, k requires 0 <= k < 64 => BitOf(v, k) == 1)
  }

  // ---------------------------------------------------------------- the masks

  /** masks[d][0] */
  function LowMask(d: nat): (m: nat)
  {
    if d == 0 then 0x5555555555555555
    else if d == 1 then 0x3333333333333333
    else if d == 2 then 0x0F0F0F0F0F0F0F0F
    else if d == 3 then 0x00FF00FF00FF00FF
    else if d == 4 then 0x0000FFFF0000FFFF
    else 0x00000000FFFFFFFF
  }

  /** masks[d][1] */
  function HighMask(d: nat): (m: nat)
  {
    if d == 0 then 0xAAAAAAAAAAAAAAAA
    else if d == 1 then 0xCCCCCCCCCCCCCCCC
    else if d == 2 then 0xF0F0F0F0F0F0F0F0
    else if d == 3 then 0xFF00FF00FF00FF00
    else if d == 4 then 0xFFFF0000FFFF0000
    else 0xFFFFFFFF00000000
  }

  /** 2^e bits, of which bit k is set exactly when bit d of k is b. */
  function Tile(b: nat, d: nat, e: nat): (m: nat)
    requires b < 2
    decreases e
  {
    if e == 0 then 1 - b
    else Tile(if e - 1 == d then 1 - b else b, d, e - 1) * Pow2(Pow2(e - 1)) + Tile(b, d, e - 1)
  }

  lemma {:induction false} BitOfConcat(h: nat, l: nat, m: nat, k: nat)
    requires l < Pow2(m)
    ensures BitOf(h * Pow2(m) + l, k) == if k < m then BitOf(l, k) else BitOf(h, k - m)
    decreases m
  {
    if m > 0 {
      var p := h * Pow2(m - 1);
      assert h * Pow2(m) == 2 * p;
      hide Pow2;
      assert (2 * p + l) % 2 == l % 2 && (2 * p + l) / 2 == p + l / 2;
      if k > 0 {
        assert l / 2 < Pow2(m - 1) by { Pow2Step(m); }
        BitOfConcat(h, l / 2, m - 1, k - 1);
      }
    }
  }

  lemma {:induction false} TileBound(b: nat, d: nat, e: nat)
    requires b < 2
    ensures Tile(b, d, e) < Pow2(Pow2(e))
    decreases e
  {
    if e == 0 {
      assert Pow2(Pow2(0)) == 2;
    } else {
      hide *;
      var c, p := if e - 1 == d then 1 - b else b, Pow2(Pow2(e - 1));
      TileBound(c, d, e - 1);
      TileBound(b, d, e - 1);
      TileStep(b, d, e);
      Pow2Step(e);
      Pow2Add(Pow2(e - 1), Pow2(e - 1));
      DigitsBound(Tile(c, d, e - 1), p, Tile(b, d, e - 1));
    }
  }

  lemma TileStep(b: nat, d: nat, e: nat)
    requires b < 2 && e > 0
    ensures Tile(b, d, e) == Tile(if e - 1 == d then 1 - b else b, d, e - 1) * Pow2(Pow2(e - 1)) + Tile(b, d, e - 1)
  {}

  lemma DigitsBound(h: nat, p: nat, l: nat)
    requires h < p && l < p
    ensures h * p + l < p * p
  {
    var d := p - 1 - h;
    assert p * p == (h + 1 + d) * p == h * p + p + d * p;
    assert d * p >= 0;
  }

  /** The bits of a number below 2^e, with and without bit e. */
  lemma {:induction false} TopBitOf(e: nat, x: nat, d: nat)
    requires x < Pow2(e)
    ensures BitOf(Pow2(e) + x, d) == if d == e then 1 else BitOf(x, d)
    ensures d >= e ==> BitOf(x, d) == 0
    decreases e
  {
    assert 1 * Pow2(e) == Pow2(e);
    BitOfConcat(1, x, e, d);
    BitOfConcat(0, x, e, d);
    ZeroBit(if d >= e then d - e else 0);
    if d > e { ZeroBit(d - e - 1); }
  }

  lemma {:induction false} TileBits(b: nat, d: nat, e: nat, k: nat)
    requires b < 2 && k < Pow2(e)
    ensures BitOf(Tile(b, d, e), k) == 1 <==> BitOf(k, d) == b
    decreases e
  {
    if e == 0 {
      ZeroBit(d);
    } else {
      hide Pow2, BitOf;
      Pow2Step(e);
      var p, c := Pow2(e - 1), if e - 1 == d then 1 - b else b;
      TileBound(b, d, e - 1);
      BitOfConcat(Tile(c, d, e - 1), Tile(b, d, e - 1), p, k);
      var x := if k < p then k else k - p;
      TopBitOf(e - 1, x, d);
      TileBits(b, d, e - 1, x);
      TileBits(c, d, e - 1, x);
    }
  }

  lemma Pow2Of32()
    ensures Pow2(1) == 2 && Pow2(2) == 4 && Pow2(3) == 8 && Pow2(5) == 32 && Pow2(6) == 64
    ensures Pow2(8) == 0x100 && Pow2(16) == 0x1_0000 && Pow2(32) == 0x1_0000_0000
  {
    assert Pow2(8) == 0x100;
    assert Pow2(16) == 0x1_0000;
    assert Pow2(24) == 0x100_0000;
  }

  lemma TileLevel(b: nat, d: nat, e: nat, p: nat)
    requires b < 2 && e > 0 && p == Pow2(Pow2(e - 1))
    ensures Tile(b, d, 0) == 1 - b
    ensures Tile(b, d, e) == Tile(if e - 1 == d then 1 - b else b, d, e - 1) * p + Tile(b, d, e - 1)
  {}

  /** One more level of a tile of at most 32 bits. */
  lemma TileLevels(b: nat, d: nat)
    requires b < 2 && d < 6
    ensures Tile(b, d, 0) == 1 - b
    ensures Tile(b, d, 1) == Tile(if d == 0 then 1 - b else b, d, 0) * 2 + Tile(b, d, 0)
    ensures Tile(b, d, 2) == Tile(if d == 1 then 1 - b else b, d, 1) * 4 + Tile(b, d, 1)
    ensures Tile(b, d, 3) == Tile(if d == 2 then 1 - b else b, d, 2) * 0x10 + Tile(b, d, 2)
    ensures Tile(b, d, 4) == Tile(if d == 3 then 1 - b else b, d, 3) * 0x100 + Tile(b, d, 3)
    ensures Tile(b, d, 5) == Tile(if d == 4 then 1 - b else b, d, 4) * 0x1_0000 + Tile(b, d, 4)
    ensures Tile(b, d, 6) == Tile(if d == 5 then 1 - b else b, d, 5) * 0x1_0000_0000 + Tile(b, d, 5)
  {
    hide *;
    Pow2Of32();
    Sizes();
    TileLevel(b, d, 1, 2);
    TileLevel(b, d, 2, 4);
    TileLevel(b, d, 3, 0x10);
    TileLevel(b, d, 4, 0x100);
    TileLevel(b, d, 5, 0x1_0000);
    TileLevel(b, d, 6, 0x1_0000_0000);
  }

  /** The tables of the code are the tiles. */
  lemma MasksAreTiles(d: nat)
    requires d < 6
    ensures Tile(0, d, 6) == LowMask(d) && Tile(1, d, 6) == HighMask(d)
  {
    hide Tile;
    TileLevels(0, d);
    TileLevels(1, d);
  }

  /** masks[d][0] selects the columns whose bit d is zero, masks[d][1] the others. */
  lemma MaskBits(d: nat, k: nat)
    requires d < 6 && k < 64
    ensures WordOf(LowMask(d))[k] <==> BitOf(k, d) == 0
    ensures WordOf(HighMask(d))[k] <==> BitOf(k, d) == 1
  {
    hide *;
    MasksAreTiles(d);
    Pow2Of32();
    TileBits(0, d, 6, k);
    TileBits(1, d, 6, k);
    WordBit(LowMask(d), k);
    WordBit(HighMask(d), k);
  }

  lemma WordBit(v: nat, k: nat)
    requires k < 64
    ensures WordOf(v)[k] <==> BitOf(v, k) == 1
  {}

  // ---------------------------------------------------------------- transposition

  type Matrix = m: seq<Word> | |m| == 64 witness seq(64, i => seq(64, j => false))

  function Transposed(m: Matrix): (t: Matrix)
  {
    seq(64, i requires 0 <= i < 64 => seq(64, j requires 0 <= j < 64 => m[j][i]))
  }

  /** The low d bits of i below the other bits of k. */
  function Mix(i: nat, k: nat, d: nat): (x: nat)
  {
    if d == 0 then k else 2 * Mix(i / 2, k / 2, d - 1) + i % 2
  }

  lemma {:induction false} MixBound(e: nat, i: nat, k: nat, d: nat)
    requires i < Pow2(e) && k < Pow2(e) && d <= e
    ensures Mix(i, k, d) < Pow2(e)
    ensures d == e ==> Mix(i, k, d) == i
    decreases d
  {
    if d > 0 { MixBound(e - 1, i / 2, k / 2, d - 1); }
  }

  /** Exchanging bit d as well. */
  lemma {:induction false} MixStep(i: nat, k: nat, d: nat)
    ensures BitOf(i, d) == BitOf(k, d) ==> Mix(i, k, d + 1) == Mix(i, k, d)
    ensures BitOf(i, d) != BitOf(k, d) ==> Mix(Partner(i, d), Partner(k, d), d + 1) == Mix(i, k, d)
    decreases d
  {
    if d > 0 {
      MixStep(i / 2, k / 2, d - 1);
      var x, y := Partner(i, d), Partner(k, d);
      assert x / 2 == Partner(i / 2, d - 1) && y / 2 == Partner(k / 2, d - 1) && x % 2 == i % 2;
    }
  }

  /** The matrix with the index bits from d on exchanged between rows and columns. */
  function Turned(m: Matrix, d: nat): (t: Matrix)
  {
    seq(64, i requires 0 <= i < 64 => seq(64, k requires 0 <= k < 64 => MixedAt(m, i, k, d)))
  }

  function MixedAt(m: Matrix, i: nat, k: nat, d: nat): (b: bool)
  {
    Mix(i, k, d) < 64 && Mix(k, i, d) < 64 && m[Mix(i, k, d)][Mix(k, i, d)]
  }

  lemma TurnedEnds(m: Matrix)
    ensures Turned(m, 6) == m && Turned(m, 0) == Transposed(m)
  {
    forall i, k | 0 <= i < 64 && 0 <= k < 64 ensures MixedAt(m, i, k, 6) == m[i][k] && MixedAt(m, i, k, 0) == m[k][i] {
      Pow2Of32();
      MixBound(6, i, k, 6);
      MixBound(6, k, i, 6);
    }
    hide MixedAt;
    forall i | 0 <= i < 64 ensures Turned(m, 6)[i] == m[i] && Turned(m, 0)[i] == Transposed(m)[i] { }
  }

  /** What one stage of the transposition puts into column k of row i. */
  lemma TurnedStep(m: Matrix, i: nat, k: nat, d: nat)
    requires i < 64 && k < 64 && d < 6
    ensures Partner(i, d) < 64 && Partner(k, d) < 64
    ensures Turned(m, d)[i][k]
         == if BitOf(i, d) == BitOf(k, d) then Turned(m, d + 1)[i][k] else Turned(m, d + 1)[Partner(i, d)][Partner(k, d)]
  {
    hide Mix, Partner, BitOf;
    Pow2Of32();
    LayerRanges(6, i, d);
    LayerRanges(6, k, d);
    MixStep(i, k, d);
    MixStep(k, i, d);
  }

  /** A word whose bit d is zero, and its partner. */
  lemma {:induction false} PartnerBit(x: nat, d: nat)
    ensures Partner(x, d) == if BitOf(x, d) == 0 then x + Pow2(d) else x - Pow2(d)
    ensures BitOf(Partner(x, d), d) == 1 - BitOf(x, d)
    decreases d
  {
    if d > 0 {
      PartnerBit(x / 2, d - 1);
      var y := Partner(x, d);
      assert y == 2 * Partner(x / 2, d - 1) + x % 2 && y / 2 == Partner(x / 2, d - 1);
    }
  }

  /** x = (a & masks[d][0]) | ((b & masks[d][0]) << s) */
  function UpperRow(a: Word, b: Word, d: nat): (x: Word)
  {
    OrWord(AndWord(a, WordOf(LowMask(d))), Left(AndWord(b, WordOf(LowMask(d))), Pow2(d)))
  }

  /** y = ((a & masks[d][1]) >> s) | (b & masks[d][1]) */
  function LowerRow(a: Word, b: Word, d: nat): (y: Word)
  {
    OrWord(Right(AndWord(a, WordOf(HighMask(d))), Pow2(d)), AndWord(b, WordOf(HighMask(d))))
  }

  lemma RowBits(a: Word, b: Word, d: nat, k: nat)
    requires d < 6 && k < 64
    ensures Partner(k, d) < 64
    ensures UpperRow(a, b, d)[k] == if BitOf(k, d) == 0 then a[k] else b[Partner(k, d)]
    ensures LowerRow(a, b, d)[k] == if BitOf(k, d) == 0 then a[Partner(k, d)] else b[k]
  {
    hide *;
    Pow2Of32();
    LayerRanges(6, k, d);
    PartnerBit(k, d);
    ShiftedBit(k, d);
    RowBit(a, b, d, k);
    forall l | 0 <= l < 64
      ensures WordOf(LowMask(d))[l] == (BitOf(l, d) == 0) && WordOf(HighMask(d))[l] == (BitOf(l, d) == 1) { MaskBits(d, l); }
  }

  /** Adding or subtracting 2^d always changes bit d. */
  lemma ShiftedBit(k: nat, d: nat)
    ensures BitOf(k + Pow2(d), d) == 1 - BitOf(k, d)
    ensures k >= Pow2(d) ==> BitOf(k - Pow2(d), d) == 1 - BitOf(k, d)
  {
    AddedBit(k, d);
    if k >= Pow2(d) { AddedBit(k - Pow2(d), d); }
  }

  lemma {:induction false} AddedBit(k: nat, d: nat)
    ensures BitOf(k + Pow2(d), d) == 1 - BitOf(k, d)
    decreases d
  {
    if d > 0 {
      AddedBit(k / 2, d - 1);
      assert (k + Pow2(d)) / 2 == k / 2 + Pow2(d - 1);
    }
  }

  lemma RowBit(a: Word, b: Word, d: nat, k: nat)
    requires k < 64
    ensures var s, l, h := Pow2(d), WordOf(LowMask(d)), WordOf(HighMask(d));
            && UpperRow(a, b, d)[k] == ((a[k] && l[k]) || (k >= s && b[k - s] && l[k - s]))
            && LowerRow(a, b, d)[k] == ((k + s < 64 && a[k + s] && h[k + s]) || (b[k] && h[k]))
  {
    hide LowMask, HighMask, WordOf, Pow2;
  }

  /** The two rows that one round of stage d rewrites. */
  lemma RowsTurned(m: Matrix, d: nat, i: nat)
    requires d < 6 && i < 64 && BitOf(i, d) == 0
    ensures i + Pow2(d) < 64
    ensures var a, b := Turned(m, d + 1)[i], Turned(m, d + 1)[i + Pow2(d)];
            UpperRow(a, b, d) == Turned(m, d)[i] && LowerRow(a, b, d) == Turned(m, d)[i + Pow2(d)]
  {
    hide *;
    Pow2Of32();
    LayerRanges(6, i, d);
    PartnerBit(i, d);
    var o, t, j := Turned(m, d + 1), Turned(m, d), i + Pow2(d);
    PartnerBit(j, d);
    forall k | 0 <= k < 64 ensures UpperRow(o[i], o[j], d)[k] == t[i][k] && LowerRow(o[i], o[j], d)[k] == t[j][k] {
      RowBits(o[i], o[j], d, k);
      TurnedStep(m, i, k, d);
      TurnedStep(m, j, k, d);
      PartnerBit(k, d);
    }
  }

  /** The rows of the pairs before `index` are new, the others old. */
  ghost predicate Blend(now: seq<Word>, next: seq<Word>, was: seq<Word>, s: nat, index: nat)
  {
    |now| == |next| == |was| && forall x :: 0 <= x < |now| ==> now[x] == if PairIndex(x, s) < index then next[x] else was[x]
  }

  lemma BlendAt(now: seq<Word>, next: seq<Word>, was: seq<Word>, s: nat, index: nat, x: nat)
    requires Blend(now, next, was, s, index) && x < |now| && PairIndex(x, s) == index
    ensures |was| == |next| == |now| && now[x] == was[x]
  {}

  lemma BlendStep(now: seq<Word>, next: seq<Word>, was: seq<Word>, s: nat, index: nat, x: nat, y: nat)
    requires Blend(now, next, was, s, index) && x < |now| && y < |now| && x != y
    requires PairIndex(x, s) == index == PairIndex(y, s) && Partner(x, s) == y
    ensures |next| == |now| && Blend(now[x := next[x]][y := next[y]], next, was, s, index + 1)
  {
    var after := now[x := next[x]][y := next[y]];
    hide PairIndex, Partner;
    forall z | 0 <= z < |now| ensures after[z] == if PairIndex(z, s) < index + 1 then next[z] else was[z] {
      if PairIndex(z, s) == index { SamePair(x, z, s); }
    }
  }

  lemma BlendEnds(now: seq<Word>, next: seq<Word>, was: seq<Word>, s: nat)
    requires s < 6 && |next| == |was| == 64
    ensures Blend(was, next, was, s, 0)
    ensures Blend(now, next, was, s, 32) ==> now == next
  {
    hide PairIndex, Pow2;
    forall x | 0 <= x < 64 ensures PairIndex(x, s) < 32 {
      Pow2Of32();
      LayerRanges(6, x, s);
    }
  }

  /** The place of round j of block m among 64 rows. */
  lemma RowPlace(s: nat, m: nat, j: nat)
    requires s < 6 && j < Pow2(s) && Times(m, Pow2(s)) + j < 32
    ensures var x, y := 2 * Times(m, Pow2(s)) + j, 2 * Times(m, Pow2(s)) + j + Pow2(s);
            && x < y < 64 && PairIndex(x, s) == Times(m, Pow2(s)) + j == PairIndex(y, s) && Partner(x, s) == y && Partner(y, s) == x
            && BitOf(x, s) == 0
  {
    hide *;
    var x, p := 2 * Times(m, Pow2(s)) + j, Pow2(s);
    PairPlace(s, m, Times(m, p), j);
    PartnerBit(x, s);
    Pow2Of32();
    BlockBounds(6, s, m, p);
  }

  /** The pair of rows j and j + s. */
  method TransposeRound(rows: array<Word>, d: nat, s: nat, j: nat, ghost m: Matrix, ghost index: nat)
    requires rows.Length == 64 && d < 6 && s == Pow2(d) && j + s < 64 && BitOf(j, d) == 0
    requires PairIndex(j, d) == index == PairIndex(j + s, d) && Partner(j, d) == j + s
    requires Blend(rows[..], Turned(m, d), Turned(m, d + 1), d, index)
    modifies rows
    ensures Blend(rows[..], Turned(m, d), Turned(m, d + 1), d, index + 1)
  {
    hide *;
    ghost var now := rows[..];
    Pow2Of32();
    BlendAt(now, Turned(m, d), Turned(m, d + 1), d, index, j);
    BlendAt(now, Turned(m, d), Turned(m, d + 1), d, index, j + s);
    BlendStep(now, Turned(m, d), Turned(m, d + 1), d, index, j, j + s);
    RowsTurned(m, d, j);
    PartnerBit(j, d);
    var x, y := UpperRow(rows[j], rows[j + s], d), LowerRow(rows[j], rows[j + s], d);
    rows[j] := x;
    rows[j + s] := y;
    assert rows[..] == now[j := x][j + s := y];
  }

  /** One stage of the transposition. */
  method TransposeStage(rows: array<Word>, d: nat, ghost m: Matrix)
    requires rows.Length == 64 && d < 6 && rows[..] == Turned(m, d + 1)
    modifies rows
    ensures rows[..] == Turned(m, d)
  {
    hide *;
    var s := Pow2(d);
    var i := 0;
    ghost var index, b := 0, 0;
    Pow2Of32();
    BlendEnds(rows[..], Turned(m, d), Turned(m, d + 1), d);
    BlockBounds(6, d, 0, s);
    while i < 64
      invariant i == 2 * index && index == Times(b, s) <= 32
      invariant Blend(rows[..], Turned(m, d), Turned(m, d + 1), d, index)
    {
      BlockBounds(6, d, b, s);
      var j := i;
      while j < i + s
        invariant i <= j <= i + s && index == Times(b, s) + (j - i)
        invariant Blend(rows[..], Turned(m, d), Turned(m, d + 1), d, index)
      {
        RowPlace(d, b, j - i);
        TransposeRound(rows, d, s, j, m, index);
        index := index + 1;
        j := j + 1;
      }
      i := i + s * 2;
      b := b + 1;
    }
    assert index == 32;
    BlendEnds(rows[..], Turned(m, d), Turned(m, d + 1), d);
  }

  /** transpose_64x64(out, in), where out may be in */
  method Transpose(out: array<Word>, input: array<Word>)
    requires out.Length == input.Length == 64
    modifies out
    ensures out[..] == Transposed(old(input[..]))
  {
    ghost var m: Matrix := input[..];
    var i := 0;
    while i < 64
      invariant 0 <= i <= 64
      invariant forall k :: 0 <= k < i ==> out[k] == m[k]
      invariant out == input ==> out[..] == m
      invariant input != out ==> input[..] == m
    {
      out[i] := input[i];
      i := i + 1;
    }
    assert out[..] == m;
    hide *;
    TurnedEnds(m);
    var d := 5;
    while d >= 0
      invariant -1 <= d <= 5 && out[..] == Turned(m, d + 1)
    {
      TransposeStage(out, d, m);
      d := d - 1;
    }
  }

  /** Transposing twice changes nothing. */
  lemma TransposedTwice(m: Matrix)
    ensures Transposed(Transposed(m)) == m
  {
    var t := Transposed(m);
    forall i | 0 <= i < 64 ensures Transposed(t)[i] == m[i] {
      assert forall j :: 0 <= j < 64 ==> Transposed(t)[i][j] == t[j][i] == m[i][j];
    }
  }
}
