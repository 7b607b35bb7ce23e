/** The bit-packed Gaussian elimination of the public-key generation, which logs its row
    operations so that they can be replayed on other columns. */
module Elimination {
  import opened BinaryAlgebra
  import opened BitMatrix
  import opened OutputBits
  import ControlBitsCheck

  // ---------------------------------------------------------------- row operations on bits

  /** Row src is added to row dst. */
  function AddRow(a: seq<Bits>, dst: nat, src: nat): (r: seq<Bits>)
    requires dst < |a| && src < |a| && |a[dst]| == |a[src]|
    ensures |r| == |a|
  {
    a[dst := Plus(a[dst], a[src])]
  }

  /** a is what the row operations logged in o have made of m. */
  ghost predicate Tracks(a: seq<Bits>, o: seq<Bits>, m: seq<Bits>, n: nat)
  {
    && Rows(a, n, n) && Rows(o, n, n) && Rows(m, n, n)
    && Products(a, o, m, n) && SameKernel(a, m, n) && !Singular(o, n)
  }

  /** a = o m */
  ghost predicate Products(a: seq<Bits>, o: seq<Bits>, m: seq<Bits>, n: nat)
    requires Rows(a, n, n) && Rows(o, n, n) && Rows(m, n, n)
  {
    forall r :: 0 <= r < n ==> ProductAt(a, o, m, n, r)
  }

  ghost predicate ProductAt(a: seq<Bits>, o: seq<Bits>, m: seq<Bits>, n: nat, r: nat)
    requires Rows(a, n, n) && Rows(o, n, n) && Rows(m, n, n) && r < n
  {
    a[r] == Select(o[r], m, n)
  }

  ghost predicate SameKernel(a: seq<Bits>, m: seq<Bits>, n: nat)
  {
    forall x :: |x| == n ==> (Kernel(a, x) <==> Kernel(m, x))
  }

  lemma AddRowKernel(a: seq<Bits>, dst: nat, src: nat, n: nat, x: Bits)
    requires Rows(a, n, n) && dst < n && src < n && dst != src && |x| == n
    ensures Kernel(AddRow(a, dst, src), x) <==> Kernel(a, x)
  {
    var b := AddRow(a, dst, src);
    DotPlus(a[dst], a[src], x);
    assert b[src] == a[src] && b[dst] == Plus(a[dst], a[src]);
    assert forall r :: 0 <= r < n && r != dst ==> b[r] == a[r];
    hide Dot, Plus;
    if Kernel(a, x) {
      assert !Dot(a[dst], x) && !Dot(a[src], x);
    }
    if Kernel(b, x) {
      assert !Dot(b[dst], x) && !Dot(b[src], x);
    }
  }

  lemma TracksStart(m: seq<Bits>, o: seq<Bits>, n: nat)
    requires Rows(m, n, n) && Rows(o, n, n) && forall r :: 0 <= r < n ==> o[r] == Unit(n, r)
    ensures Tracks(m, o, m, n)
  {
    forall r | 0 <= r < n ensures ProductAt(m, o, m, n, r) { SelectUnit(r, m, n); }
    UnitNotSingular(o, n);
  }

  lemma UnitNotSingular(o: seq<Bits>, n: nat)
    requires Rows(o, n, n) && forall r :: 0 <= r < n ==> o[r] == Unit(n, r)
    ensures !Singular(o, n)
  {
    forall x | |x| == n && Kernel(o, x) ensures x == Zero(n) {
      forall r | 0 <= r < n ensures !x[r] { DotUnit(r, x); }
    }
  }

  /** Adding a row to another keeps the log regular. */
  lemma RegularAdd(o: seq<Bits>, n: nat, dst: nat, src: nat)
    requires Rows(o, n, n) && !Singular(o, n) && dst < n && src < n && dst != src
    ensures !Singular(AddRow(o, dst, src), n)
  {
    hide Kernel, AddRow;
    forall x: Bits | |x| == n && Kernel(AddRow(o, dst, src), x) ensures x == Zero(n) {
      AddRowKernel(o, dst, src, n, x);
    }
  }

  lemma TracksAdd(a: seq<Bits>, o: seq<Bits>, m: seq<Bits>, n: nat, dst: nat, src: nat)
    requires Tracks(a, o, m, n) && dst < n && src < n && dst != src
    ensures Tracks(AddRow(a, dst, src), AddRow(o, dst, src), m, n)
  {
    hide *;
    TracksParts(a, o, m, n);
    RowsAdd(a, n, dst, src);
    RowsAdd(o, n, dst, src);
    ProductsAdd(a, o, m, n, dst, src);
    SameKernelAdd(a, m, n, dst, src);
    RegularAdd(o, n, dst, src);
    TracksParts(AddRow(a, dst, src), AddRow(o, dst, src), m, n);
  }

  lemma TracksParts(a: seq<Bits>, o: seq<Bits>, m: seq<Bits>, n: nat)
    ensures Tracks(a, o, m, n)
       <==> Rows(a, n, n) && Rows(o, n, n) && Rows(m, n, n) && Products(a, o, m, n) && SameKernel(a, m, n) && !Singular(o, n)
    ensures Rows(a, n, n) ==> |a| == n && forall r :: 0 <= r < n ==> |a[r]| == n
    ensures Rows(o, n, n) ==> |o| == n && forall r :: 0 <= r < n ==> |o[r]| == n
  {}

  lemma RowsAdd(a: seq<Bits>, n: nat, dst: nat, src: nat)
    requires Rows(a, n, n) && dst < n && src < n
    ensures |a| == n && |a[dst]| == |a[src]| == n && Rows(AddRow(a, dst, src), n, n)
  {}

  lemma ProductsAdd(a: seq<Bits>, o: seq<Bits>, m: seq<Bits>, n: nat, dst: nat, src: nat)
    requires Rows(a, n, n) && Rows(o, n, n) && Rows(m, n, n) && Products(a, o, m, n) && dst < n && src < n
    ensures Rows(AddRow(a, dst, src), n, n) && Rows(AddRow(o, dst, src), n, n)
    ensures Products(AddRow(a, dst, src), AddRow(o, dst, src), m, n)
  {
    var b, p := AddRow(a, dst, src), AddRow(o, dst, src);
    SelectPlus(o[dst], o[src], m, n);
    hide Select, Plus;
    assert ProductAt(a, o, m, n, dst) && ProductAt(a, o, m, n, src);
    forall r | 0 <= r < n ensures ProductAt(b, p, m, n, r) {
      assert ProductAt(a, o, m, n, r);
    }
  }

  lemma SameKernelAdd(a: seq<Bits>, m: seq<Bits>, n: nat, dst: nat, src: nat)
    requires Rows(a, n, n) && SameKernel(a, m, n) && dst < n && src < n && dst != src
    ensures SameKernel(AddRow(a, dst, src), m, n)
  {
    hide Kernel, AddRow;
    forall x: Bits | |x| == n ensures Kernel(AddRow(a, dst, src), x) <==> Kernel(m, x) {
      AddRowKernel(a, dst, src, n, x);
    }
  }

  // ---------------------------------------------------------------- the triangular form

  /** Columns before `row` are done: ones on the diagonal and zeros below it. */
  ghost predicate UpperTo(a: seq<Bits>, n: nat, row: nat)
  {
    Rows(a, n, n) && row <= n && forall r :: 0 <= r < n ==> UpperAt(a, n, row, r)
  }

  ghost predicate UpperAt(a: seq<Bits>, n: nat, row: nat, r: nat)
    requires Rows(a, n, n) && r < n
  {
    && (forall c :: 0 <= c < r && c < row && c < n ==> !a[r][c])
    && (r < row ==> a[r][r])
  }

  /** Adding a row from `row` on to another such row keeps the finished columns. */
  lemma UpperAdd(a: seq<Bits>, n: nat, row: nat, dst: nat, src: nat)
    requires UpperTo(a, n, row) && row <= dst < n && row <= src < n
    ensures UpperTo(AddRow(a, dst, src), n, row)
  {
    var b := AddRow(a, dst, src);
    assert UpperAt(a, n, row, dst) && UpperAt(a, n, row, src);
    forall r | 0 <= r < n ensures UpperAt(b, n, row, r) {
      assert UpperAt(a, n, row, r);
    }
  }

  /** One more column. */
  lemma UpperNext(a: seq<Bits>, n: nat, row: nat)
    requires UpperTo(a, n, row) && row < n && a[row][row]
    requires forall k :: row < k < n ==> !a[k][row]
    ensures UpperTo(a, n, row + 1)
  {
    var next := row + 1;
    forall r | 0 <= r < n ensures UpperAt(a, n, next, r) {
      assert UpperAt(a, n, row, r);
    }
  }

  /** The kernel vector of a matrix whose column `row` has no pivot, from entry r on. */
  ghost function KernelVector(a: seq<Bits>, n: nat, row: nat, r: nat): (x: Bits)
    requires Rows(a, n, n) && r <= row < n
    ensures |x| == n
    decreases row - r
  {
    if r == row then Unit(n, row)
    else
      var x := KernelVector(a, n, row, r + 1);
      x[r := Dot(a[r], x)]
  }

  lemma {:induction false} KernelVectorShape(a: seq<Bits>, n: nat, row: nat, r: nat)
    requires Rows(a, n, n) && r <= row < n
    ensures var x := KernelVector(a, n, row, r);
            x[row] && (forall c :: row < c < n ==> !x[c]) && (forall c :: 0 <= c < r ==> !x[c])
    decreases row - r
  {
    if r < row { KernelVectorShape(a, n, row, r + 1); }
  }

  /** Back substitution: the rows from r on are mapped to zero. */
  lemma {:induction false} KernelVectorSolves(a: seq<Bits>, n: nat, row: nat, r: nat, i: nat)
    requires UpperTo(a, n, row) && r <= row < n && (forall k :: row <= k < n ==> !a[k][row]) && r <= i < n
    ensures !Dot(a[i], KernelVector(a, n, row, r))
    decreases row - r
  {
    if r == row {
      DotSymmetric(a[i], Unit(n, row));
      DotUnit(row, a[i]);
    } else {
      var x := KernelVector(a, n, row, r + 1);
      KernelVectorShape(a, n, row, r + 1);
      assert UpperAt(a, n, row, i);
      DotUpdate(a[i], x, r, Dot(a[r], x));
      if i > r { KernelVectorSolves(a, n, row, r + 1, i); }
    }
  }

  lemma {:induction false} DotSymmetric(u: Bits, v: Bits)
    requires |u| == |v|
    ensures Dot(u, v) == Dot(v, u)
    decreases |u|
  {
    if |u| > 0 { DotSymmetric(u[..|u| - 1], v[..|v| - 1]); }
  }

  /** Without a pivot in column `row` the matrix is singular. */
  lemma NoPivotSingular(a: seq<Bits>, n: nat, row: nat)
    requires UpperTo(a, n, row) && row < n && forall k :: row <= k < n ==> !a[k][row]
    ensures Singular(a, n)
  {
    var x := KernelVector(a, n, row, 0);
    KernelVectorShape(a, n, row, 0);
    assert x != Zero(n);
    forall i | 0 <= i < n ensures !Dot(a[i], x) { KernelVectorSolves(a, n, row, 0, i); }
    assert Kernel(a, x);
  }

  lemma SingularTracks(a: seq<Bits>, o: seq<Bits>, m: seq<Bits>, n: nat)
    requires Tracks(a, o, m, n) && Singular(a, n)
    ensures Singular(m, n)
  {
    hide Select, Kernel, Products;
    var x :| |x| == n && x != Zero(n) && Kernel(a, x);
    assert Kernel(m, x);
  }

  // ---------------------------------------------------------------- back substitution on the log alone

  /** Row k of the triangular matrix with the columns from `row` on already cleared. */
  function Cleared(u: Bits, k: nat, row: nat): (r: Bits)
    ensures |r| == |u|
  {
    seq(|u|, c requires 0 <= c < |u| => if c >= row then c == k else u[c])
  }

  /** The log turns m into the matrix u with its columns from `row` on cleared (from row + 1 on in
      the rows from j on), though u itself is not updated. */
  ghost predicate Back(o: seq<Bits>, u: seq<Bits>, m: seq<Bits>, n: nat, row: nat, j: nat)
  {
    Rows(o, n, n) && Rows(u, n, n) && Rows(m, n, n) && forall k :: 0 <= k < n ==> BackAt(o, u, m, n, row, j, k)
  }

  ghost predicate BackAt(o: seq<Bits>, u: seq<Bits>, m: seq<Bits>, n: nat, row: nat, j: nat, k: nat)
    requires Rows(o, n, n) && Rows(u, n, n) && Rows(m, n, n) && k < n
  {
    Select(o[k], m, n) == Cleared(u[k], k, if k < j then row else row + 1)
  }

  lemma BackStart(u: seq<Bits>, o: seq<Bits>, m: seq<Bits>, n: nat)
    requires Tracks(u, o, m, n) && n > 0
    ensures Back(o, u, m, n, n - 1, 0)
  {
    hide Select, SameKernel;
    var row := n - 1;
    forall k | 0 <= k < n ensures BackAt(o, u, m, n, row, 0, k) {
      assert ProductAt(u, o, m, n, k);
      assert Cleared(u[k], k, n) == u[k];
    }
  }

  /** for (k = 0; k < row; k++) ops[k] ^= ops[row] if mat[k] has a one in column row */
  lemma BackStep(o: seq<Bits>, u: seq<Bits>, m: seq<Bits>, n: nat, row: nat, k: nat)
    requires UpperTo(u, n, n) && k < row < n && Back(o, u, m, n, row, k)
    ensures Rows(o, n, n) && Rows(u, n, n) && Back(if u[k][row] then AddRow(o, k, row) else o, u, m, n, row, k + 1)
  {
    var p := if u[k][row] then AddRow(o, k, row) else o;
    assert UpperAt(u, n, n, row);
    assert BackAt(o, u, m, n, row, k, row) && BackAt(o, u, m, n, row, k, k);
    assert Cleared(u[row], row, row + 1) == Unit(n, row);
    SelectPlus(o[k], o[row], m, n);
    ClearedStep(u[k], k, row);
    hide Select, Cleared, Unit, Plus;
    var next := k + 1;
    forall i | 0 <= i < n ensures BackAt(p, u, m, n, row, next, i) {
      assert BackAt(o, u, m, n, row, k, i);
    }
  }

  lemma ClearedStep(u: Bits, k: nat, row: nat)
    requires k < row < |u|
    ensures Cleared(u, k, row)
         == if u[row] then Plus(Cleared(u, k, row + 1), Unit(|u|, row)) else Cleared(u, k, row + 1)
  {}

  /** All rows above `row` are treated: on to the row above. */
  lemma BackNext(o: seq<Bits>, u: seq<Bits>, m: seq<Bits>, n: nat, row: nat)
    requires UpperTo(u, n, n) && row < n && Back(o, u, m, n, row, row)
    ensures row > 0 ==> Back(o, u, m, n, row - 1, 0)
    ensures row == 0 ==> LeftInverse(o, m, n)
  {
    forall k | 0 <= k < n ensures Select(o[k], m, n) == Cleared(u[k], k, row) {
      assert BackAt(o, u, m, n, row, row, k) && UpperAt(u, n, n, k);
      if k >= row { assert Cleared(u[k], k, row) == Cleared(u[k], k, row + 1); }
    }
    hide Select;
    if row > 0 {
      var prev := row - 1;
      forall k | 0 <= k < n ensures BackAt(o, u, m, n, prev, 0, k) { }
    } else {
      forall k | 0 <= k < n ensures Select(o[k], m, n) == Unit(n, k) {
        assert Cleared(u[k], k, 0) == Unit(n, k);
      }
    }
  }

  // ---------------------------------------------------------------- rows of words

  ghost predicate Shaped(t: seq<seq<Word>>, n: nat, width: nat)
  {
    |t| == n && forall r :: 0 <= r < n ==> |t[r]| == width
  }

  /** The bits of the first nb words of a row. */
  function RowBits(row: seq<Word>, nb: nat): (r: Bits)
    ensures |r| == 64 * nb
  {
    seq(64 * nb, b requires 0 <= b < 64 * nb => b / 64 < |row| && row[b / 64][b % 64])
  }

  function Left64(t: seq<seq<Word>>, nb: nat): (a: seq<Bits>)
    ensures |a| == |t|
  {
    seq(|t|, r requires 0 <= r < |t| => RowBits(t[r], nb))
  }

  /** All ones if the bit is set: what 0 - bit wraps to. */
  function Spread(bit: bool): (w: Word)
  {
    seq(64, k => bit)
  }

  /** a[c] ^= b[c] & mask for c < nb */
  function Masked(a: seq<Word>, b: seq<Word>, mask: Word, nb: nat): (r: seq<Word>)
    requires nb <= |a| && nb <= |b|
    ensures |r| == |a|
  {
    seq(|a|, c requires 0 <= c < |a| => if c < nb then XorWord(a[c], AndWord(b[c], mask)) else a[c])
  }

  lemma MaskedBits(a: seq<Word>, b: seq<Word>, bit: bool, nb: nat)
    requires nb <= |a| && nb <= |b|
    ensures RowBits(Masked(a, b, Spread(bit), nb), nb) == if bit then Plus(RowBits(a, nb), RowBits(b, nb)) else RowBits(a, nb)
  {
    var r := Masked(a, b, Spread(bit), nb);
    forall i | 0 <= i < 64 * nb
      ensures r[i / 64][i % 64] == if bit then a[i / 64][i % 64] != b[i / 64][i % 64] else a[i / 64][i % 64]
    {
      assert i / 64 < nb;
    }
  }

  /** What a masked row operation does to the bits of the table. */
  lemma MaskedRows(t: seq<seq<Word>>, dst: nat, src: nat, bit: bool, n: nat, width: nat, nb: nat)
    requires Shaped(t, n, width) && dst < n && src < n && nb <= width
    ensures var r := t[dst := Masked(t[dst], t[src], Spread(bit), nb)];
            && Shaped(r, n, width)
            && Left64(r, nb) == if bit then AddRow(Left64(t, nb), dst, src) else Left64(t, nb)
  {
    MaskedBits(t[dst], t[src], bit, nb);
    hide RowBits, Masked, Spread, Plus;
  }

  /** The row with word c replaced. */
  function SetAt(row: seq<Word>, c: nat, w: Word): (r: seq<Word>)
    requires c < |row|
    ensures |r| == |row|
  {
    row[..c] + [w] + row[c + 1..]
  }

  lemma MaskedStep(a: seq<Word>, b: seq<Word>, mask: Word, c: nat)
    requires c < |a| && c < |b|
    ensures Masked(a, b, mask, 0) == a
    ensures Masked(a, b, mask, c)[c] == a[c]
    ensures SetAt(Masked(a, b, mask, c), c, XorWord(a[c], AndWord(b[c], mask))) == Masked(a, b, mask, c + 1)
  {}

  /** The table while a row operation has reached word c. */
  ghost predicate Midway(t: seq<seq<Word>>, s: seq<seq<Word>>, dst: nat, src: nat, mask: Word, c: nat)
  {
    && dst < |s| && src < |s| && dst != src && c <= |s[dst]| && c <= |s[src]|
    && t == s[dst := Masked(s[dst], s[src], mask, c)]
  }

  lemma MidwayStep(t: seq<seq<Word>>, s: seq<seq<Word>>, dst: nat, src: nat, mask: Word, c: nat)
    requires Midway(t, s, dst, src, mask, c) && c < |s[dst]| && c < |s[src]|
    ensures |t| == |s| && c < |t[dst]| && c < |t[src]|
    ensures Midway(t[dst := SetAt(t[dst], c, XorWord(t[dst][c], AndWord(t[src][c], mask)))], s, dst, src, mask, c + 1)
  {
    MaskedStep(s[dst], s[src], mask, c);
    hide Masked, XorWord, AndWord;
  }

  lemma MidwayStart(s: seq<seq<Word>>, n: nat, width: nat, dst: nat, src: nat, mask: Word)
    requires Shaped(s, n, width) && dst < n && src < n && dst != src
    ensures Midway(s, s, dst, src, mask, 0) && |s| == n && |s[dst]| == |s[src]| == width
  {
    assert Masked(s[dst], s[src], mask, 0) == s[dst];
  }

  /** The table after a row operation. */
  ghost predicate Added(t: seq<seq<Word>>, s: seq<seq<Word>>, n: nat, width: nat, nb: nat, dst: nat, src: nat, bit: bool)
    requires dst < |s| && src < |s|
  {
    Shaped(t, n, width) && Left64(t, nb) == if bit then AddRow(Left64(s, nb), dst, src) else Left64(s, nb)
  }

  lemma MidwayEnd(t: seq<seq<Word>>, s: seq<seq<Word>>, n: nat, width: nat, nb: nat, dst: nat, src: nat, bit: bool)
    requires Shaped(s, n, width) && dst < n && src < n && nb <= width && Midway(t, s, dst, src, Spread(bit), nb)
    ensures Added(t, s, n, width, nb, dst, src, bit)
  {
    MaskedRows(s, dst, src, bit, n, width, nb);
  }

  /** for (c = 0; c < nb; c++) { mat[dst][c] ^= mat[src][c] & mask; ops[dst][c] ^= ops[src][c] & mask; } */
  method AddMasked(mat: array<seq<Word>>, ops: array<seq<Word>>, dst: nat, src: nat, bit: bool, n: nat, nb: nat, ghost width: nat)
    requires Shaped(mat[..], n, width) && Shaped(ops[..], n, nb) && dst < n && src < n && dst != src && nb <= width
    requires mat != ops
    modifies mat, ops
    ensures |old(mat[..])| == |old(ops[..])| == n
    ensures Added(mat[..], old(mat[..]), n, width, nb, dst, src, bit)
    ensures Added(ops[..], old(ops[..]), n, nb, nb, dst, src, bit)
  {
    hide *;
    ghost var s, o := mat[..], ops[..];
    var mask := Spread(bit);
    MidwayStart(s, n, width, dst, src, mask);
    MidwayStart(o, n, nb, dst, src, mask);
    var c := 0;
    while c < nb
      invariant 0 <= c <= nb
      invariant Midway(mat[..], s, dst, src, mask, c) && Midway(ops[..], o, dst, src, mask, c)
    {
      MidwayStep(mat[..], s, dst, src, mask, c);
      MidwayStep(ops[..], o, dst, src, mask, c);
      SetWord(mat, dst, c, XorWord(mat[dst][c], AndWord(mat[src][c], mask)));
      SetWord(ops, dst, c, XorWord(ops[dst][c], AndWord(ops[src][c], mask)));
      c := c + 1;
    }
    MidwayEnd(mat[..], s, n, width, nb, dst, src, bit);
    MidwayEnd(ops[..], o, n, nb, nb, dst, src, bit);
  }

  /** t[r][c] = w; */
  method SetWord(t: array<seq<Word>>, r: nat, c: nat, w: Word)
    requires r < t.Length && c < |t[r]|
    modifies t
    ensures t[..] == old(t[..])[r := SetAt(old(t[r]), c, w)]
  {
    t[r] := SetAt(t[r], c, w);
  }

  // ---------------------------------------------------------------- the elimination loops

  /** The tables while the elimination is working on column `row`. */
  ghost predicate Working(mat: seq<seq<Word>>, ops: seq<seq<Word>>, m: seq<Bits>, n: nat, nb: nat, width: nat, row: nat)
  {
    && n == 64 * nb && nb <= width && Shaped(mat, n, width) && Shaped(ops, n, nb)
    && Tracks(Left64(mat, nb), Left64(ops, nb), m, n) && UpperTo(Left64(mat, nb), n, row)
  }

  /** Adding a row from `row` on to another one keeps all that. */
  lemma WorkingAdd(mat: seq<seq<Word>>, ops: seq<seq<Word>>, mat2: seq<seq<Word>>, ops2: seq<seq<Word>>, m: seq<Bits>,
                   n: nat, nb: nat, width: nat, row: nat, dst: nat, src: nat, bit: bool)
    requires Working(mat, ops, m, n, nb, width, row) && row <= dst < n && row <= src < n && dst != src
    requires |mat| == |ops| == n
    requires Added(mat2, mat, n, width, nb, dst, src, bit) && Added(ops2, ops, n, nb, nb, dst, src, bit)
    ensures Working(mat2, ops2, m, n, nb, width, row)
  {
    var a, o := Left64(mat, nb), Left64(ops, nb);
    hide AddRow, Tracks, UpperTo, Left64, RowBits;
    if bit {
      TracksAdd(a, o, m, n, dst, src);
      UpperAdd(a, n, row, dst, src);
    }
  }

  /** (mat[k][row / 64] >> (row & 63)) & 1 */
  function BitAt(words: seq<Word>, row: nat): (bit: bool)
    requires row / 64 < |words|
  {
    Right(words[row / 64], row % 64)[0]
  }

  lemma BitAtIs(mat: seq<seq<Word>>, n: nat, nb: nat, width: nat, k: nat, row: nat)
    requires Shaped(mat, n, width) && nb <= width && k < n && row < 64 * nb
    ensures row / 64 < |mat[k]| && |Left64(mat, nb)[k]| == 64 * nb && BitAt(mat[k], row) == Left64(mat, nb)[k][row]
  {}

  /** So far a row with a one in column `row` has been seen only if the pivot row has one. */
  ghost predicate PivotSeen(a: seq<Bits>, n: nat, row: nat, k: nat)
  {
    Rows(a, n, n) && row < n && forall i :: row < i < k && i < n ==> a[i][row] ==> a[row][row]
  }

  lemma PivotSeenStep(a: seq<Bits>, b: seq<Bits>, n: nat, row: nat, k: nat)
    requires PivotSeen(a, n, row, k) && row < k < n && b == if !a[row][row] then AddRow(a, row, k) else a
    ensures PivotSeen(b, n, row, k + 1)
  {}

  /** The rows between `row` and k have a zero in column `row`, the pivot row has a one. */
  ghost predicate ClearedBelow(a: seq<Bits>, n: nat, row: nat, k: nat)
  {
    Rows(a, n, n) && row < n && a[row][row] && forall i :: row < i < k && i < n ==> !a[i][row]
  }

  lemma ClearedBelowStep(a: seq<Bits>, b: seq<Bits>, n: nat, row: nat, k: nat)
    requires ClearedBelow(a, n, row, k) && row < k < n && b == if a[k][row] then AddRow(a, k, row) else a
    ensures ClearedBelow(b, n, row, k + 1)
  {}

  lemma WorkingParts(mat: seq<seq<Word>>, ops: seq<seq<Word>>, m: seq<Bits>, n: nat, nb: nat, width: nat, row: nat)
    requires Working(mat, ops, m, n, nb, width, row)
    ensures n == 64 * nb && nb <= width && Shaped(mat, n, width) && Shaped(ops, n, nb) && |mat| == |ops| == n
    ensures Rows(Left64(mat, nb), n, n) && UpperTo(Left64(mat, nb), n, row)
    ensures Tracks(Left64(mat, nb), Left64(ops, nb), m, n)
  {}

  lemma AddedIs(t: seq<seq<Word>>, s: seq<seq<Word>>, n: nat, width: nat, nb: nat, dst: nat, src: nat, bit: bool)
    requires |s| == n && dst < n && src < n && Added(t, s, n, width, nb, dst, src, bit)
    ensures Shaped(t, n, width) && |Left64(s, nb)| == n && |Left64(s, nb)[dst]| == |Left64(s, nb)[src]|
    ensures Left64(t, nb) == if bit then AddRow(Left64(s, nb), dst, src) else Left64(s, nb)
  {}

  /** Rows below are added to the pivot row while it has a zero in its column. */
  method BringPivot(mat: array<seq<Word>>, ops: array<seq<Word>>, n: nat, nb: nat, row: nat, ghost m: seq<Bits>, ghost width: nat)
    requires mat != ops && row < n && Working(mat[..], ops[..], m, n, nb, width, row)
    modifies mat, ops
    ensures Working(mat[..], ops[..], m, n, nb, width, row) && PivotSeen(Left64(mat[..], nb), n, row, n)
  {
    hide *;
    WorkingParts(mat[..], ops[..], m, n, nb, width, row);
    PivotSeenStart(Left64(mat[..], nb), n, row);
    var k := row + 1;
    while k < n
      invariant row < k <= n && Working(mat[..], ops[..], m, n, nb, width, row) && PivotSeen(Left64(mat[..], nb), n, row, k)
    {
      ghost var s, o := mat[..], ops[..];
      WorkingParts(s, o, m, n, nb, width, row);
      BitAtIs(s, n, nb, width, row, row);
      var bit := BitAt(mat[row], row);
      AddMasked(mat, ops, row, k, !bit, n, nb, width);
      WorkingAdd(s, o, mat[..], ops[..], m, n, nb, width, row, row, k, !bit);
      AddedIs(mat[..], s, n, width, nb, row, k, !bit);
      PivotSeenStep(Left64(s, nb), Left64(mat[..], nb), n, row, k);
      k := k + 1;
    }
  }

  lemma PivotSeenStart(a: seq<Bits>, n: nat, row: nat)
    requires Rows(a, n, n) && row < n
    ensures PivotSeen(a, n, row, row + 1)
    ensures a[row][row] ==> ClearedBelow(a, n, row, row + 1)
  {}

  /** The pivot row is added to the rows below that have a one in its column. */
  method ClearColumn(mat: array<seq<Word>>, ops: array<seq<Word>>, n: nat, nb: nat, row: nat, ghost m: seq<Bits>, ghost width: nat)
    requires mat != ops && row < n && Working(mat[..], ops[..], m, n, nb, width, row)
    requires ClearedBelow(Left64(mat[..], nb), n, row, row + 1)
    modifies mat, ops
    ensures Working(mat[..], ops[..], m, n, nb, width, row) && ClearedBelow(Left64(mat[..], nb), n, row, n)
  {
    hide *;
    var k := row + 1;
    while k < n
      invariant row < k <= n && Working(mat[..], ops[..], m, n, nb, width, row) && ClearedBelow(Left64(mat[..], nb), n, row, k)
    {
      ghost var s, o := mat[..], ops[..];
      WorkingParts(s, o, m, n, nb, width, row);
      BitAtIs(s, n, nb, width, k, row);
      var bit := BitAt(mat[k], row);
      AddMasked(mat, ops, k, row, bit, n, nb, width);
      WorkingAdd(s, o, mat[..], ops[..], m, n, nb, width, row, k, row, bit);
      AddedIs(mat[..], s, n, width, nb, k, row, bit);
      ClearedBelowStep(Left64(s, nb), Left64(mat[..], nb), n, row, k);
      k := k + 1;
    }
  }

  lemma WorkingNext(mat: seq<seq<Word>>, ops: seq<seq<Word>>, m: seq<Bits>, n: nat, nb: nat, width: nat, row: nat)
    requires Working(mat, ops, m, n, nb, width, row) && row < n && ClearedBelow(Left64(mat, nb), n, row, n)
    ensures Working(mat, ops, m, n, nb, width, row + 1)
  {
    hide Tracks, Left64, RowBits;
    UpperNext(Left64(mat, nb), n, row);
  }

  /** No pivot was brought up: the matrix is singular. */
  lemma FailureSingular(mat: seq<seq<Word>>, ops: seq<seq<Word>>, m: seq<Bits>, n: nat, nb: nat, width: nat, row: nat)
    requires Working(mat, ops, m, n, nb, width, row) && row < n && PivotSeen(Left64(mat, nb), n, row, n)
    requires |Left64(mat, nb)[row]| == n && !Left64(mat, nb)[row][row]
    ensures Singular(m, n)
  {
    var a := Left64(mat, nb);
    hide Tracks, Left64, RowBits;
    NoPivotSingular(a, n, row);
    SingularTracks(a, Left64(ops, nb), m, n);
  }

  /** The log starts as the identity. */
  method StartLog(ops: array<seq<Word>>, n: nat, nb: nat)
    requires ops.Length == n == 64 * nb && Shaped(ops[..], n, nb)
    modifies ops
    ensures Shaped(ops[..], n, nb) && forall r :: 0 <= r < n ==> Left64(ops[..], nb)[r] == Unit(n, r)
  {
    var i := 0;
    while i < n
      invariant 0 <= i <= n
      invariant Shaped(ops[..], n, nb) && forall r :: 0 <= r < i ==> RowBits(ops[r], nb) == Unit(n, r)
    {
      ghost var now := ops[..];
      LogRow(n, nb, i);
      ops[i] := SetAt(seq(nb, c => WordOf(0)), i / 64, Left(WordOf(1), i % 64));
      assert ops[..] == now[i := ops[i]];
      hide RowBits, SetAt, Left, WordOf, Unit;
      i := i + 1;
    }
  }

  lemma LogRow(n: nat, nb: nat, i: nat)
    requires n == 64 * nb && i < n
    ensures i / 64 < nb
    ensures RowBits(SetAt(seq(nb, c => WordOf(0)), i / 64, Left(WordOf(1), i % 64)), nb) == Unit(n, i)
  {
    var row := SetAt(seq(nb, c => WordOf(0)), i / 64, Left(WordOf(1), i % 64));
    forall k | 0 <= k < 64 ensures !WordOf(0)[k] && (WordOf(1)[k] <==> k == 0) {
      ControlBitsCheck.ZeroBit(k);
      if k > 0 { ControlBitsCheck.ZeroBit(k - 1); }
    }
    hide WordOf, BitOf;
    forall b | 0 <= b < n ensures row[b / 64][b % 64] == (b == i) {
      assert b / 64 < nb;
      if b / 64 == i / 64 { SameWord(b, i); }
    }
  }

  lemma SameWord(a: nat, b: nat)
    requires a / 64 == b / 64
    ensures a == b <==> a % 64 == b % 64
  {}

  /** Elimination to triangular form: fails exactly when the left square matrix is singular. */
  method Eliminate(mat: array<seq<Word>>, ops: array<seq<Word>>, n: nat, nb: nat, ghost m: seq<Bits>, ghost width: nat)
      returns (ok: bool)
    requires mat != ops && ops.Length == n == 64 * nb && nb <= width && Shaped(mat[..], n, width) && Shaped(ops[..], n, nb)
    requires m == Left64(mat[..], nb)
    modifies mat, ops
    ensures !ok ==> Singular(m, n)
    ensures ok ==> Working(mat[..], ops[..], m, n, nb, width, n)
  {
    hide *;
    StartLog(ops, n, nb);
    WorkingStart(mat[..], ops[..], m, n, nb, width);
    var row := 0;
    while row < n
      invariant 0 <= row <= n && Working(mat[..], ops[..], m, n, nb, width, row)
    {
      BringPivot(mat, ops, n, nb, row, m, width);
      WorkingParts(mat[..], ops[..], m, n, nb, width, row);
      BitAtIs(mat[..], n, nb, width, row, row);
      if !BitAt(mat[row], row) {
        FailureSingular(mat[..], ops[..], m, n, nb, width, row);
        return false;
      }
      PivotSeenStart(Left64(mat[..], nb), n, row);
      ClearColumn(mat, ops, n, nb, row, m, width);
      WorkingNext(mat[..], ops[..], m, n, nb, width, row);
      row := row + 1;
    }
    ok := true;
  }

  lemma WorkingStart(mat: seq<seq<Word>>, ops: seq<seq<Word>>, m: seq<Bits>, n: nat, nb: nat, width: nat)
    requires n == 64 * nb && nb <= width && Shaped(mat, n, width) && Shaped(ops, n, nb) && m == Left64(mat, nb)
    requires forall r :: 0 <= r < n ==> Left64(ops, nb)[r] == Unit(n, r)
    ensures Working(mat, ops, m, n, nb, width, 0)
  {
    TracksStart(m, Left64(ops, nb), n);
    hide Tracks;
    forall r | 0 <= r < n ensures UpperAt(m, n, 0, r) { }
  }

  /** for (c = 0; c < nb; c++) ops[dst][c] ^= ops[src][c] & mask; */
  method AddLogged(ops: array<seq<Word>>, dst: nat, src: nat, bit: bool, n: nat, nb: nat)
    requires Shaped(ops[..], n, nb) && dst < n && src < n && dst != src
    modifies ops
    ensures |old(ops[..])| == n && Added(ops[..], old(ops[..]), n, nb, nb, dst, src, bit)
  {
    hide *;
    ghost var o := ops[..];
    var mask := Spread(bit);
    MidwayStart(o, n, nb, dst, src, mask);
    var c := 0;
    while c < nb
      invariant 0 <= c <= nb && Midway(ops[..], o, dst, src, mask, c)
    {
      MidwayStep(ops[..], o, dst, src, mask, c);
      SetWord(ops, dst, c, XorWord(ops[dst][c], AndWord(ops[src][c], mask)));
      c := c + 1;
    }
    MidwayEnd(ops[..], o, n, nb, nb, dst, src, bit);
  }

  /** The back substitution changes the log only, and makes it the inverse of the left matrix. */
  method BackSubstitute(mat: array<seq<Word>>, ops: array<seq<Word>>, n: nat, nb: nat, ghost m: seq<Bits>, ghost width: nat)
    requires mat != ops && n > 0 && Working(mat[..], ops[..], m, n, nb, width, n)
    modifies ops
    ensures Shaped(ops[..], n, nb) && Rows(Left64(ops[..], nb), n, n) && Rows(m, n, n)
    ensures LeftInverse(Left64(ops[..], nb), m, n) && !Singular(Left64(ops[..], nb), n)
  {
    hide *;
    WorkingParts(mat[..], ops[..], m, n, nb, width, n);
    ghost var u := Left64(mat[..], nb);
    TracksParts(u, Left64(ops[..], nb), m, n);
    BackStart(u, Left64(ops[..], nb), m, n);
    var row := n - 1;
    while row >= 0
      invariant -1 <= row < n && Shaped(ops[..], n, nb) && Rows(Left64(ops[..], nb), n, n) && !Singular(Left64(ops[..], nb), n)
      invariant row >= 0 ==> Back(Left64(ops[..], nb), u, m, n, row, 0)
      invariant row < 0 ==> LeftInverse(Left64(ops[..], nb), m, n)
    {
      var k := 0;
      while k < row
        invariant 0 <= k <= row && Shaped(ops[..], n, nb) && Back(Left64(ops[..], nb), u, m, n, row, k)
        invariant !Singular(Left64(ops[..], nb), n)
      {
        ghost var o := ops[..];
        BitAtIs(mat[..], n, nb, width, k, row);
        var bit := BitAt(mat[k], row);
        BackStep(Left64(o, nb), u, m, n, row, k);
        BackRows(Left64(o, nb), u, m, n, row, k);
        RegularAdd(Left64(o, nb), n, k, row);
        AddLogged(ops, k, row, bit, n, nb);
        AddedIs(ops[..], o, n, nb, nb, k, row, bit);
        k := k + 1;
      }
      BackRows(Left64(ops[..], nb), u, m, n, row, k);
      BackNext(Left64(ops[..], nb), u, m, n, row);
      row := row - 1;
    }
  }

  lemma BackRows(o: seq<Bits>, u: seq<Bits>, m: seq<Bits>, n: nat, row: nat, j: nat)
    requires Back(o, u, m, n, row, j)
    ensures Rows(o, n, n) && Rows(u, n, n) && Rows(m, n, n)
  {}

  /** The two parts together: failure exactly for singular matrices, otherwise the log is the inverse,
      from the left and from the right. */
  method Systematize(mat: array<seq<Word>>, ops: array<seq<Word>>, n: nat, nb: nat, ghost m: seq<Bits>, ghost width: nat)
      returns (ok: bool)
    requires mat != ops && ops.Length == n == 64 * nb && 0 < nb <= width && Shaped(mat[..], n, width) && Shaped(ops[..], n, nb)
    requires m == Left64(mat[..], nb)
    modifies mat, ops
    ensures ok <==> !Singular(m, n)
    ensures ok ==> Shaped(mat[..], n, width) && Shaped(ops[..], n, nb) && Rows(Left64(ops[..], nb), n, n) && Rows(m, n, n)
    ensures ok ==> LeftInverse(Left64(ops[..], nb), m, n) && LeftInverse(m, Left64(ops[..], nb), n)
  {
    hide *;
    ok := Eliminate(mat, ops, n, nb, m, width);
    if !ok { return false; }
    WorkingParts(mat[..], ops[..], m, n, nb, width, n);
    BackSubstitute(mat, ops, n, nb, m, width);
    InverseNotSingular(Left64(ops[..], nb), m, n);
    RightInverse(Left64(ops[..], nb), m, n);
  }
}
