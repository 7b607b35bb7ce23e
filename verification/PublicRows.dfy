/** The systematic rows of the public key: the logged row operations applied to the columns on
    the right of the square part, stored as bytes. */
module PublicRows {
  import opened OutputBits
  import opened BinaryAlgebra
  import opened BitMatrix
  import opened Elimination
  import opened Numerals
  import opened Words
  import ControlBitsCheck

  // ---------------------------------------------------------------- one row

  /** The bits of the words from nb up to nh. */
  function Span(row: seq<Word>, nb: nat, nh: nat): (r: Bits)
    requires nb <= nh
    ensures |r| == 64 * (nh - nb)
  {
    seq(64 * (nh - nb), b requires 0 <= b < 64 * (nh - nb) => nb + b / 64 < |row| && row[nb + b / 64][b % 64])
  }

  function RightRows(mat: seq<seq<Word>>, nb: nat, nh: nat): (m: seq<Bits>)
    requires nb <= nh
    ensures |m| == |mat| && forall i :: 0 <= i < |m| ==> |m[i]| == 64 * (nh - nb)
  {
    seq(|mat|, r requires 0 <= r < |mat| => Span(mat[r], nb, nh))
  }

  /** one_row[k] ^= mat[c][k] & mask for nb <= k < nh, up to word k */
  function MaskedFrom(a: seq<Word>, b: seq<Word>, mask: Word, nb: nat, k: nat): (r: seq<Word>)
    requires nb <= k <= |a| && k <= |b|
    ensures |r| == |a|
  {
    seq(|a|, c requires 0 <= c < |a| => if nb <= c < k then XorWord(a[c], AndWord(b[c], mask)) else a[c])
  }

  lemma MaskedFromStep(a: seq<Word>, b: seq<Word>, mask: Word, nb: nat, k: nat)
    requires nb <= k < |a| && k < |b|
    ensures MaskedFrom(a, b, mask, nb, nb) == a && MaskedFrom(a, b, mask, nb, k)[k] == a[k]
    ensures SetAt(MaskedFrom(a, b, mask, nb, k), k, XorWord(a[k], AndWord(b[k], mask))) == MaskedFrom(a, b, mask, nb, k + 1)
  {}

  lemma MaskedFromBits(a: seq<Word>, b: seq<Word>, bit: bool, nb: nat, nh: nat)
    requires nb <= nh <= |a| && nh <= |b|
    ensures Span(MaskedFrom(a, b, Spread(bit), nb, nh), nb, nh)
         == if bit then Plus(Span(a, nb, nh), Span(b, nb, nh)) else Span(a, nb, nh)
  {
    var r := MaskedFrom(a, b, Spread(bit), nb, nh);
    forall i | 0 <= i < 64 * (nh - nb)
      ensures var x, y := nb + i / 64, i % 64; x < nh && r[x][y] == if bit then a[x][y] != b[x][y] else a[x][y]
    {
      assert i / 64 < nh - nb;
    }
  }

  lemma SelectStep(v: Bits, m: seq<Bits>, w: nat, c: nat)
    requires c < |v| && |v| == |m| && forall i :: 0 <= i < |m| ==> |m[i]| == w
    ensures Select(v[..0], m[..0], w) == Zero(w)
    ensures Select(v[..c + 1], m[..c + 1], w) == if v[c] then Plus(Select(v[..c], m[..c], w), m[c]) else Select(v[..c], m[..c], w)
  {
    assert v[..c + 1][..c] == v[..c] && m[..c + 1][..c] == m[..c];
    var s := Select(v[..c], m[..c], w);
    assert Plus(s, Zero(w)) == s;
  }

  /** What one_row holds after the first c rows. */
  ghost predicate Summed(one: seq<Word>, v: Bits, m: seq<Bits>, nb: nat, nh: nat, c: nat)
  {
    && nb <= nh && |one| == nh && |v| == |m| && c <= |v| && (forall i :: 0 <= i < |m| ==> |m[i]| == 64 * (nh - nb))
    && Span(one, nb, nh) == Select(v[..c], m[..c], 64 * (nh - nb))
  }

  lemma SummedStep(one: seq<Word>, next: seq<Word>, mat: seq<seq<Word>>, v: Bits, n: nat, nb: nat, nh: nat, c: nat)
    requires nb <= nh && Shaped(mat, n, nh) && |v| == n && c < n && Summed(one, v, RightRows(mat, nb, nh), nb, nh, c)
    requires next == MaskedFrom(one, mat[c], Spread(v[c]), nb, nh)
    ensures Summed(next, v, RightRows(mat, nb, nh), nb, nh, c + 1)
  {
    MaskedFromBits(one, mat[c], v[c], nb, nh);
    SelectStep(v, RightRows(mat, nb, nh), 64 * (nh - nb), c);
    hide MaskedFrom, Spread, Select, Plus, Span;
  }

  lemma SummedStart(one: seq<Word>, v: Bits, m: seq<Bits>, nb: nat, nh: nat)
    requires nb <= nh && |one| == nh && |v| == |m| && forall i :: 0 <= i < |m| ==> |m[i]| == 64 * (nh - nb)
    requires forall k :: 0 <= k < nh ==> one[k] == WordOf(0)
    ensures Summed(one, v, m, nb, nh, 0)
  {
    forall i | 0 <= i < 64 * (nh - nb) ensures nb + i / 64 < nh && !one[nb + i / 64][i % 64] {
      ControlBitsCheck.ZeroBit(i % 64);
    }
    assert v[..0] == [] && m[..0] == [];
  }

  lemma SummedEnd(one: seq<Word>, v: Bits, m: seq<Bits>, nb: nat, nh: nat, n: nat)
    requires Summed(one, v, m, nb, nh, n) && |v| == n
    ensures Span(one, nb, nh) == Select(v, m, 64 * (nh - nb))
  {
    assert v[..n] == v && m[..n] == m;
  }

  /** for (k = nb; k < nh; k++) one_row[k] ^= row[k] & mask; */
  method MaskInto(one: seq<Word>, row: seq<Word>, mask: Word, nb: nat, nh: nat) returns (next: seq<Word>)
    requires nb <= nh <= |one| && nh <= |row|
    ensures next == MaskedFrom(one, row, mask, nb, nh)
  {
    next := one;
    if nb < nh { MaskedFromStep(one, row, mask, nb, nb); }
    assert MaskedFrom(one, row, mask, nb, nb) == one;
    hide MaskedFrom, XorWord, AndWord;
    var k := nb;
    while k < nh
      invariant nb <= k <= nh && next == MaskedFrom(one, row, mask, nb, k)
    {
      MaskedFromStep(one, row, mask, nb, k);
      next := SetAt(next, k, XorWord(next[k], AndWord(row[k], mask)));
      k := k + 1;
    }
  }

  /** one_row = the sum of the rows of mat that row `row` of ops selects, from block nb on */
  method OneRow(mat: array<seq<Word>>, ops: array<seq<Word>>, row: nat, n: nat, nb: nat, nh: nat) returns (one: seq<Word>)
    requires n == 64 * nb && nb <= nh && Shaped(mat[..], n, nh) && Shaped(ops[..], n, nb) && row < n
    ensures |one| == nh && |Left64(ops[..], nb)| == |RightRows(mat[..], nb, nh)| == n
    ensures Span(one, nb, nh) == Select(Left64(ops[..], nb)[row], RightRows(mat[..], nb, nh), 64 * (nh - nb))
  {
    one := seq(nh, k => WordOf(0));
    ghost var v, m := Left64(ops[..], nb)[row], RightRows(mat[..], nb, nh);
    SummedStart(one, v, m, nb, nh);
    assert forall r :: 0 <= r < n ==> |mat[r]| == nh;
    hide *;
    var c := 0;
    while c < n
      invariant 0 <= c <= n && Summed(one, v, m, nb, nh, c) && |one| == nh
    {
      BitAtIs(ops[..], n, nb, nb, row, c);
      var bit := BitAt(ops[row], c);
      ghost var prev := one;
      one := MaskInto(one, mat[c], Spread(bit), nb, nh);
      SummedStep(prev, one, mat[..], v, n, nb, nh, c);
      c := c + 1;
    }
    SummedEnd(one, v, m, nb, nh, n);
  }

  // ---------------------------------------------------------------- storing the words as bytes

  /** (w >> 8 j) & 0xFF */
  function ByteOf(w: Word, j: nat): (v: nat)
  {
    Number(Right(w, 8 * j)[..8])
  }

  lemma ByteBits(w: Word, j: nat, k: nat)
    requires j < 8 && k < 8
    ensures BitOf(ByteOf(w, j), k) == 1 <==> w[8 * j + k]
  {
    NumberBits(Right(w, 8 * j)[..8], k);
  }

  /** The bytes from place `at` on hold the first 8 * count bits. */
  ghost predicate RowStored(pk: seq<nat>, at: nat, bits: Bits, count: nat)
  {
    at + count <= |pk| && 8 * count <= |bits| && forall b :: 0 <= b < 8 * count ==> BitStored(pk, at, bits, b)
  }

  ghost predicate BitStored(pk: seq<nat>, at: nat, bits: Bits, b: nat)
  {
    at + b / 8 < |pk| && b < |bits| && (BitOf(pk[at + b / 8], b % 8) == 1 <==> bits[b])
  }

  lemma StoredByte(pk: seq<nat>, at: nat, bits: Bits, done: nat, w: Word, j: nat)
    requires RowStored(pk, at, bits, done + j) && j < 8 && at + done + j < |pk| && 8 * done + 64 <= |bits|
    requires forall k :: 0 <= k < 64 ==> bits[8 * done + k] == w[k]
    ensures RowStored(pk[at + done + j := ByteOf(w, j)], at, bits, done + j + 1)
  {
    var p := pk[at + done + j := ByteOf(w, j)];
    hide BitOf, ByteOf;
    forall b | 0 <= b < 8 * (done + j + 1) ensures BitStored(p, at, bits, b) {
      if b < 8 * (done + j) {
        assert BitStored(pk, at, bits, b) && b / 8 < done + j;
      } else {
        var k := b - 8 * (done + j);
        ByteBits(w, j, k);
        assert b / 8 == done + j && b % 8 == k && bits[8 * done + (8 * j + k)] == w[8 * j + k];
      }
    }
  }

  /** The bytes below `at` stay. */
  ghost predicate SamePrefix(s: seq<nat>, t: seq<nat>, at: nat)
  {
    |s| == |t| && at <= |s| && s[..at] == t[..at]
  }

  /** store8(pk, w), or store_i(pk, w, count) */
  method StoreWord(pk: array<nat>, at: nat, done: nat, w: Word, count: nat, ghost bits: Bits)
    requires count <= 8 && at + done + count <= pk.Length && 8 * done + 64 <= |bits| && RowStored(pk[..], at, bits, done)
    requires forall k :: 0 <= k < 64 ==> bits[8 * done + k] == w[k]
    modifies pk
    ensures RowStored(pk[..], at, bits, done + count) && SamePrefix(old(pk[..]), pk[..], at)
    ensures AreBytes(old(pk[..])) ==> AreBytes(pk[..])
  {
    ghost var s := pk[..];
    assert SamePrefix(s, s, at);
    hide *;
    var j := 0;
    while j < count
      invariant 0 <= j <= count && RowStored(pk[..], at, bits, done + j) && SamePrefix(s, pk[..], at)
      invariant AreBytes(s) ==> AreBytes(pk[..])
    {
      ghost var now := pk[..];
      StoredByte(now, at, bits, done, w, j);
      BytesStay(now, at + done + j, w, j);
      pk[at + done + j] := ByteOf(w, j);
      assert pk[..] == now[at + done + j := ByteOf(w, j)];
      PrefixStays(s, now, at, at + done + j, ByteOf(w, j));
      j := j + 1;
    }
  }

  lemma BytesStay(s: seq<nat>, i: nat, w: Word, j: nat)
    requires i < |s| && j < 8
    ensures AreBytes(s) ==> AreBytes(s[i := ByteOf(w, j)])
  {
    hide Pow2;
    NumberBound(Right(w, 8 * j)[..8]);
    Pow2Of32();
  }

  lemma PrefixStays(s: seq<nat>, t: seq<nat>, at: nat, i: nat, v: nat)
    requires SamePrefix(s, t, at) && at <= i < |t|
    ensures SamePrefix(s, t[i := v], at)
  {}

  lemma SpanWord(one: seq<Word>, nb: nat, nh: nat, i: nat, w: Word)
    requires nb + i < nh <= |one| && w == one[nb + i]
    ensures 8 * (8 * i) + 64 <= |Span(one, nb, nh)|
    ensures forall k :: 0 <= k < 64 ==> Span(one, nb, nh)[8 * (8 * i) + k] == w[k]
  {
    forall k | 0 <= k < 64 ensures Span(one, nb, nh)[64 * i + k] == w[k] {
      assert (64 * i + k) / 64 == i && (64 * i + k) % 64 == k;
    }
  }

  /** The words of one row, the last of them only in part. */
  method StoreRow(pk: array<nat>, at: nat, one: seq<Word>, nb: nat, nh: nat, rowBytes: nat)
    requires nb < nh <= |one| && rowBytes == 8 * (nh - 1 - nb) + rowBytes % 8 && at + rowBytes <= pk.Length
    modifies pk
    ensures RowStored(pk[..], at, Span(one, nb, nh), rowBytes) && SamePrefix(old(pk[..]), pk[..], at)
  {
    ghost var s, bits := pk[..], Span(one, nb, nh);
    assert SamePrefix(s, s, at) && RowStored(s, at, bits, 0);
    hide *;
    var k := nb;
    while k < nh - 1
      invariant nb <= k <= nh - 1 && RowStored(pk[..], at, bits, 8 * (k - nb)) && SamePrefix(s, pk[..], at)
    {
      ghost var now := pk[..];
      SpanWord(one, nb, nh, k - nb, one[k]);
      StoreWord(pk, at, 8 * (k - nb), one[k], 8, bits);
      PrefixTransitive(s, now, pk[..], at);
      k := k + 1;
    }
    ghost var now := pk[..];
    SpanWord(one, nb, nh, k - nb, one[k]);
    StoreWord(pk, at, 8 * (k - nb), one[k], rowBytes % 8, bits);
    PrefixTransitive(s, now, pk[..], at);
  }

  lemma PrefixTransitive(s: seq<nat>, t: seq<nat>, u: seq<nat>, at: nat)
    requires SamePrefix(s, t, at) && SamePrefix(t, u, at)
    ensures SamePrefix(s, u, at)
  {}

  /** Row r of the log times the columns on the right. */
  ghost function PublicRow(o: seq<Bits>, h: seq<Bits>, w: nat, r: nat): (p: Bits)
    requires r < |o| && |o[r]| == |h| && forall i :: 0 <= i < |h| ==> |h[i]| == w
  {
    Select(o[r], h, w)
  }

  /** The rows before `row` are in the public key. */
  ghost predicate RowsStored(pk: seq<nat>, o: seq<Bits>, h: seq<Bits>, w: nat, rowBytes: nat, row: nat)
  {
    && row <= |o| && (forall i :: 0 <= i < |h| ==> |h[i]| == w) && (forall r :: 0 <= r < |o| ==> |o[r]| == |h|)
    && forall r :: 0 <= r < row ==> RowStored(pk, Times(rowBytes, r), PublicRow(o, h, w, r), rowBytes)
  }

  lemma RowsStoredStep(s: seq<nat>, t: seq<nat>, o: seq<Bits>, h: seq<Bits>, w: nat, rowBytes: nat, row: nat)
    requires RowsStored(s, o, h, w, rowBytes, row) && row < |o| && SamePrefix(s, t, Times(rowBytes, row))
    requires RowStored(t, Times(rowBytes, row), PublicRow(o, h, w, row), rowBytes)
    ensures RowsStored(t, o, h, w, rowBytes, row + 1)
  {
    hide RowStored, PublicRow, SamePrefix, Times;
    forall r | 0 <= r < row ensures RowStored(t, Times(rowBytes, r), PublicRow(o, h, w, r), rowBytes) {
      StoredBelow(s, t, PublicRow(o, h, w, r), rowBytes, r, row);
    }
  }

  lemma StoredBelow(s: seq<nat>, t: seq<nat>, bits: Bits, rowBytes: nat, r: nat, row: nat)
    requires r < row && RowStored(s, Times(rowBytes, r), bits, rowBytes) && SamePrefix(s, t, Times(rowBytes, row))
    ensures RowStored(t, Times(rowBytes, r), bits, rowBytes)
  {
    var at, end := Times(rowBytes, r), Times(rowBytes, row);
    TimesFacts(rowBytes, r, 1);
    TimesFacts(rowBytes, r + 1, row - r - 1);
    hide Times, BitOf;
    forall b | 0 <= b < 8 * rowBytes ensures BitStored(t, at, bits, b) {
      assert BitStored(s, at, bits, b);
      assert s[..end][at + b / 8] == t[..end][at + b / 8];
    }
  }

  /** The loop over the rows: row r of the public key is row r of ops * H, for the columns of H
      on the right of the square part. */
  method StoreRows(pk: array<nat>, mat: array<seq<Word>>, ops: array<seq<Word>>, n: nat, nb: nat, nh: nat, rowBytes: nat)
    requires n == 64 * nb && nb < nh && Shaped(mat[..], n, nh) && Shaped(ops[..], n, nb) && mat != ops
    requires rowBytes == 8 * (nh - 1 - nb) + rowBytes % 8 && Times(rowBytes, n) <= pk.Length
    requires pk as object != mat && pk as object != ops
    modifies pk
    ensures RowsStored(pk[..], Left64(ops[..], nb), RightRows(mat[..], nb, nh), 64 * (nh - nb), rowBytes, n)
  {
    ghost var o, h, w := Left64(ops[..], nb), RightRows(mat[..], nb, nh), 64 * (nh - nb);
    assert RowsStored(pk[..], o, h, w, rowBytes, 0) && Times(rowBytes, 0) == 0;
    hide *;
    var row, at := 0, 0;
    while row < n
      invariant 0 <= row <= n && at == Times(rowBytes, row) && RowsStored(pk[..], o, h, w, rowBytes, row)
    {
      ghost var s := pk[..];
      TimesFacts(rowBytes, row, 1);
      TimesFacts(rowBytes, row + 1, n - row - 1);
      var one := OneRow(mat, ops, row, n, nb, nh);
      StoreRow(pk, at, one, nb, nh, rowBytes);
      RowIs(o, h, w, row);
      RowsStoredStep(s, pk[..], o, h, w, rowBytes, row);
      at := at + rowBytes;
      row := row + 1;
    }
  }

  lemma RowIs(o: seq<Bits>, h: seq<Bits>, w: nat, r: nat)
    requires r < |o| && |o[r]| == |h| && forall i :: 0 <= i < |h| ==> |h[i]| == w
    ensures PublicRow(o, h, w, r) == Select(o[r], h, w)
  {}
}
