/** The parity-check matrix of the public-key generation: block by block, 64 columns at a time, the
    powers of the field elements times the inverses of the Goppa polynomial's values. */
module ParityMatrix {
  import opened BinaryAlgebra
  import opened BitMatrix
  import opened Field
  import opened VecField
  import opened BatchInversion
  import opened Elimination
  import opened PublicRows

  /** The twelve words of block j in the rows 12 i to 12 i + 11. */
  function Cell(mat: seq<seq<Word>>, i: nat, j: nat): (v: Vec)
  {
    [WordIn(mat, 12 * i, j), WordIn(mat, 12 * i + 1, j), WordIn(mat, 12 * i + 2, j), WordIn(mat, 12 * i + 3, j), WordIn(mat, 12 * i + 4, j), WordIn(mat, 12 * i + 5, j), WordIn(mat, 12 * i + 6, j), WordIn(mat, 12 * i + 7, j), WordIn(mat, 12 * i + 8, j), WordIn(mat, 12 * i + 9, j), WordIn(mat, 12 * i + 10, j), WordIn(mat, 12 * i + 11, j)]
  }

  lemma CellAt(mat: seq<seq<Word>>, i: nat, j: nat, k: nat)
    requires k < 12
    ensures Cell(mat, i, j)[k] == WordIn(mat, 12 * i + k, j)
  {
    hide WordIn;
  }

  function WordIn(mat: seq<seq<Word>>, r: nat, j: nat): (w: Word)
  {
    if r < |mat| && j < |mat[r]| then mat[r][j] else seq(64, b => false)
  }

  /** In every lane v is p times the power i of c. */
  ghost predicate Powered(v: Vec, p: Vec, c: Vec, i: nat)
  {
    forall l :: 0 <= l < 64 ==> Lane(v, l) == Mul(Lane(p, l), Pow(Lane(c, l), i))
  }

  lemma PoweredStart(p: Vec, c: Vec)
    ensures Powered(p, p, c, 0)
  {
    forall l | 0 <= l < 64 ensures Lane(p, l) == Mul(Lane(p, l), Pow(Lane(c, l), 0)) {
      PowZero(Lane(c, l));
      MulCommutes(Lane(p, l), One());
    }
  }

  lemma PowZero(a: Elem)
    ensures Pow(a, 0) == One()
  {}

  lemma PowNext(a: Elem, i: nat)
    ensures Pow(a, i + 1) == Mul(a, Pow(a, i))
  {
    hide Mul;
  }

  /** vec_mul(prod[j], prod[j], consts[j]) */
  lemma PoweredNext(v: Vec, u: Vec, p: Vec, c: Vec, i: nat)
    requires Powered(v, p, c, i) && forall l :: 0 <= l < 64 ==> Lane(u, l) == Mul(Lane(v, l), Lane(c, l))
    ensures Powered(u, p, c, i + 1)
  {
    hide Mul, Lane, Pow;
    forall l | 0 <= l < 64 ensures Lane(u, l) == Mul(Lane(p, l), Pow(Lane(c, l), i + 1)) {
      PowNext(Lane(c, l), i);
      MulAssociates(Lane(p, l), Pow(Lane(c, l), i), Lane(c, l));
      MulCommutes(Pow(Lane(c, l), i), Lane(c, l));
    }
  }

  // ---------------------------------------------------------------- filling one block

  /** The tables differ in column j only, and there only in the twelve rows from 12 i on. */
  ghost predicate OnlyCell(s: seq<seq<Word>>, t: seq<seq<Word>>, i: nat, j: nat)
  {
    |s| == |t| && forall r, c :: 0 <= r < |s| && (c != j || r / 12 != i) && 0 <= c ==> WordIn(s, r, c) == WordIn(t, r, c)
  }

  ghost predicate CellPart(mat: seq<seq<Word>>, v: Vec, i: nat, j: nat, k: nat)
  {
    forall l :: 0 <= l < k && l < 12 ==> WordIn(mat, 12 * i + l, j) == v[l]
  }

  lemma CellStep(s: seq<seq<Word>>, t: seq<seq<Word>>, u: seq<seq<Word>>, v: Vec, n: nat, width: nat, i: nat, j: nat, k: nat)
    requires Shaped(t, n, width) && OnlyCell(s, t, i, j) && CellPart(t, v, i, j, k) && k < 12 && 12 * i + k < n && j < width
    requires u == t[12 * i + k := SetAt(t[12 * i + k], j, v[k])]
    ensures Shaped(u, n, width) && OnlyCell(s, u, i, j) && CellPart(u, v, i, j, k + 1)
  {}

  lemma CellDone(mat: seq<seq<Word>>, v: Vec, i: nat, j: nat)
    requires CellPart(mat, v, i, j, 12)
    ensures Cell(mat, i, j) == v
  {}

  lemma ShapedRow(t: seq<seq<Word>>, n: nat, width: nat, r: nat)
    requires Shaped(t, n, width) && r < n
    ensures |t| == n && |t[r]| == width
  {}

  lemma OnlyCellSelf(s: seq<seq<Word>>, v: Vec, i: nat, j: nat)
    ensures OnlyCell(s, s, i, j) && CellPart(s, v, i, j, 0)
  {}

  /** for (k = 0; k < GFBITS; k++) mat[i * GFBITS + k][j] = prod[j][k] */
  method PutBlock(mat: array<seq<Word>>, v: Vec, n: nat, width: nat, i: nat, j: nat)
    requires Shaped(mat[..], n, width) && 12 * i + 12 <= n && j < width
    modifies mat
    ensures Shaped(mat[..], n, width) && OnlyCell(old(mat[..]), mat[..], i, j) && Cell(mat[..], i, j) == v
  {
    hide *;
    ghost var s := mat[..];
    OnlyCellSelf(s, v, i, j);
    var k := 0;
    while k < 12
      invariant 0 <= k <= 12 && Shaped(mat[..], n, width) && OnlyCell(s, mat[..], i, j) && CellPart(mat[..], v, i, j, k)
    {
      ghost var t := mat[..];
      ShapedRow(t, n, width, 12 * i + k);
      SetWord(mat, 12 * i + k, j, v[k]);
      CellStep(s, t, mat[..], v, n, width, i, j, k);
      k := k + 1;
    }
    CellDone(mat[..], v, i, j);
  }

  // ---------------------------------------------------------------- filling the blocks from `from` to `to`

  /** Block j of group h of the rows is done. */
  ghost predicate GroupDone(mat: seq<seq<Word>>, p: Vec, c: Vec, h: nat, j: nat)
  {
    Powered(Cell(mat, h, j), p, c, h)
  }

  /** Block j of the first i groups of rows is done. */
  ghost predicate BlockTo(mat: seq<seq<Word>>, p: Vec, c: Vec, i: nat, j: nat)
  {
    forall h :: 0 <= h < i ==> GroupDone(mat, p, c, h, j)
  }

  /** What the loops have done: the blocks before `mid` have i + 1 groups of rows, the others i, and prod
      has the power of the last group. */
  ghost predicate Filled(mat: seq<seq<Word>>, prod: seq<Vec>, ps: seq<Vec>, cs: seq<Vec>, from: nat, mid: nat, to: nat, i: nat)
  {
    && |prod| == |ps| == |cs| && from <= mid <= to <= |ps|
    && (forall j :: from <= j < mid ==> BlockTo(mat, ps[j], cs[j], i + 1, j) && Powered(prod[j], ps[j], cs[j], i))
    && (forall j :: mid <= j < to ==> BlockTo(mat, ps[j], cs[j], i, j) && Powered(prod[j], ps[j], cs[j], if i == 0 then 0 else i - 1))
    && (forall j :: 0 <= j < |ps| && !(from <= j < to) ==> prod[j] == ps[j])
  }

  /** Outside the blocks from `from` to `to` nothing changes. */
  ghost predicate OnlyBlocks(s: seq<seq<Word>>, t: seq<seq<Word>>, from: nat, to: nat)
  {
    |s| == |t| && forall r, c :: 0 <= r < |s| && 0 <= c && !(from <= c < to) ==> WordIn(s, r, c) == WordIn(t, r, c)
  }

  lemma OnlyBlocksStep(s: seq<seq<Word>>, t: seq<seq<Word>>, u: seq<seq<Word>>, from: nat, to: nat, i: nat, j: nat)
    requires OnlyBlocks(s, t, from, to) && OnlyCell(t, u, i, j) && from <= j < to
    ensures OnlyBlocks(s, u, from, to)
  {
    forall r, c | 0 <= r < |s| && 0 <= c && !(from <= c < to) ensures WordIn(s, r, c) == WordIn(u, r, c) {
      assert WordIn(s, r, c) == WordIn(t, r, c) && WordIn(t, r, c) == WordIn(u, r, c);
    }
  }

  lemma CellKept(s: seq<seq<Word>>, t: seq<seq<Word>>, i: nat, j: nat, h: nat, c: nat)
    requires OnlyCell(s, t, i, j) && (h != i || c != j)
    ensures Cell(s, h, c) == Cell(t, h, c)
  {
    forall r | 12 * h <= r < 12 * h + 12 ensures WordIn(s, r, c) == WordIn(t, r, c) {
      assert r / 12 == h;
    }
  }

  lemma BlockKept(s: seq<seq<Word>>, t: seq<seq<Word>>, p: Vec, c: Vec, i: nat, j: nat, m: nat, b: nat)
    requires OnlyCell(s, t, i, j) && BlockTo(s, p, c, m, b) && (b != j || m <= i)
    ensures BlockTo(t, p, c, m, b)
  {
    hide Powered, Cell, OnlyCell;
    forall h | 0 <= h < m ensures GroupDone(t, p, c, h, b) {
      assert GroupDone(s, p, c, h, b);
      CellKept(s, t, i, j, h, b);
    }
  }

  lemma BlockGrows(t: seq<seq<Word>>, p: Vec, c: Vec, i: nat, j: nat)
    requires BlockTo(t, p, c, i, j) && Powered(Cell(t, i, j), p, c, i)
    ensures BlockTo(t, p, c, i + 1, j)
  {}

  lemma FilledStep(s: seq<seq<Word>>, t: seq<seq<Word>>, prod: seq<Vec>, next: seq<Vec>, ps: seq<Vec>, cs: seq<Vec>,
                   from: nat, mid: nat, to: nat, i: nat)
    requires Filled(s, prod, ps, cs, from, mid, to, i) && mid < to <= |ps| && OnlyCell(s, t, i, mid)
    requires |next| == |prod| == |ps| && next == prod[mid := next[mid]]
    requires Cell(t, i, mid) == next[mid] && Powered(next[mid], ps[mid], cs[mid], i)
    ensures Filled(t, next, ps, cs, from, mid + 1, to, i)
  {
    hide Powered, BlockTo, Cell, OnlyCell;
    forall j | from <= j < mid ensures BlockTo(t, ps[j], cs[j], i + 1, j) { BlockKept(s, t, ps[j], cs[j], i, mid, i + 1, j); }
    forall j | mid <= j < to ensures BlockTo(t, ps[j], cs[j], i, j) { BlockKept(s, t, ps[j], cs[j], i, mid, i, j); }
    BlockGrows(t, ps[mid], cs[mid], i, mid);
  }

  lemma FilledTurn(s: seq<seq<Word>>, prod: seq<Vec>, ps: seq<Vec>, cs: seq<Vec>, from: nat, to: nat, i: nat)
    requires Filled(s, prod, ps, cs, from, to, to, i)
    ensures Filled(s, prod, ps, cs, from, from, to, i + 1)
  {
    hide Powered, BlockTo, Cell;
  }

  lemma FilledAt(s: seq<seq<Word>>, prod: seq<Vec>, ps: seq<Vec>, cs: seq<Vec>, from: nat, mid: nat, to: nat, i: nat)
    requires Filled(s, prod, ps, cs, from, mid, to, i) && mid < to
    ensures |prod| == |ps| == |cs| && mid < to <= |ps| && Powered(prod[mid], ps[mid], cs[mid], if i == 0 then 0 else i - 1)
  {
    hide Powered, BlockTo;
  }

  lemma FilledStarts(s: seq<seq<Word>>, ps: seq<Vec>, cs: seq<Vec>, from: nat, to: nat)
    requires |ps| == |cs| && from <= to <= |ps|
    ensures Filled(s, ps, ps, cs, from, from, to, 0) && OnlyBlocks(s, s, from, to)
  {
    forall j | from <= j < to ensures Powered(ps[j], ps[j], cs[j], 0) { PoweredStart(ps[j], cs[j]); }
    hide Powered;
  }

  /** One block of one group of rows; from the second group on the product is multiplied first. */
  method FillBlock(mat: array<seq<Word>>, prod: array<Vec>, consts: seq<Vec>, n: nat, width: nat, from: nat, mid: nat, to: nat, i: nat,
                   ghost ps: seq<Vec>)
    requires Shaped(mat[..], n, width) && 12 * i + 12 <= n && mid < to <= width && mat as object != prod as object
    requires Filled(mat[..], prod[..], ps, consts, from, mid, to, i)
    modifies mat, prod
    ensures Shaped(mat[..], n, width) && Filled(mat[..], prod[..], ps, consts, from, mid + 1, to, i)
    ensures OnlyCell(old(mat[..]), mat[..], i, mid)
  {
    hide *;
    ghost var s, now := mat[..], prod[..];
    FilledAt(s, now, ps, consts, from, mid, to, i);
    if i > 0 {
      var h := Product(prod[mid], consts[mid]);
      PoweredNext(prod[mid], h, ps[mid], consts[mid], i - 1);
      prod[mid] := h;
    }
    assert prod[..] == now[mid := prod[mid]] && mat[..] == s;
    PutBlock(mat, prod[mid], n, width, i, mid);
    FilledStep(s, mat[..], now, prod[..], ps, consts, from, mid, to, i);
  }

  /** The two nests of loops that fill the blocks from `from` to `to`. */
  method FillColumns(mat: array<seq<Word>>, prod: array<Vec>, consts: seq<Vec>, t: nat, width: nat, from: nat, to: nat)
    requires Shaped(mat[..], 12 * t, width) && prod.Length == |consts| == width && from <= to <= width && 0 < t
    requires mat as object != prod as object
    modifies mat, prod
    ensures Shaped(mat[..], 12 * t, width) && OnlyBlocks(old(mat[..]), mat[..], from, to)
    ensures Filled(mat[..], prod[..], old(prod[..]), consts, from, to, to, t - 1)
  {
    hide *;
    ghost var s, ps := mat[..], prod[..];
    FilledStarts(s, ps, consts, from, to);
    var i := 0;
    while i < t
      invariant 0 <= i <= t && Shaped(mat[..], 12 * t, width) && OnlyBlocks(s, mat[..], from, to)
      invariant i < t ==> Filled(mat[..], prod[..], ps, consts, from, from, to, i)
      invariant i == t ==> Filled(mat[..], prod[..], ps, consts, from, to, to, t - 1)
    {
      var j := from;
      while j < to
        invariant from <= j <= to && Shaped(mat[..], 12 * t, width) && OnlyBlocks(s, mat[..], from, to)
        invariant Filled(mat[..], prod[..], ps, consts, from, j, to, i)
      {
        ghost var now := mat[..];
        FillBlock(mat, prod, consts, 12 * t, width, from, j, to, i, ps);
        OnlyBlocksStep(s, now, mat[..], from, to, i, j);
        j := j + 1;
      }
      FilledTurn(mat[..], prod[..], ps, consts, from, to, i);
      i := i + 1;
    }
  }

  // ---------------------------------------------------------------- the matrix

  /** Row r of the column of the elements p, p c, p c^2, ... in lane l. */
  function EntryAt(p: Vec, c: Vec, r: nat, l: nat): (e: bool)
    requires l < 64
  {
    Mul(Lane(p, l), Pow(Lane(c, l), r / 12))[r % 12]
  }

  /** Row r, column b of the matrix whose column 64 j + l is the vector of the bits of the elements
      p, p c, p c^2, ..., for p and c in lane l of block j. */
  function Entry(ps: seq<Vec>, cs: seq<Vec>, r: nat, b: nat): (e: bool)
    requires |ps| == |cs| && b < 64 * |ps|
  {
    EntryAt(ps[b / 64], cs[b / 64], r, b % 64)
  }

  function ParityRow(ps: seq<Vec>, cs: seq<Vec>, r: nat, from: nat, to: nat): (m: Bits)
    requires |ps| == |cs| && from <= to <= |ps|
    ensures |m| == 64 * (to - from)
  {
    seq(64 * (to - from), b requires 0 <= b < 64 * (to - from) => Entry(ps, cs, r, 64 * from + b))
  }

  /** The columns of the blocks from `from` to `to`. */
  function Parity(ps: seq<Vec>, cs: seq<Vec>, n: nat, from: nat, to: nat): (m: seq<Bits>)
    requires |ps| == |cs| && from <= to <= |ps|
    ensures Rows(m, n, 64 * (to - from))
  {
    seq(n, r requires 0 <= r < n => ParityRow(ps, cs, r, from, to))
  }

  lemma EntryIs(mat: seq<seq<Word>>, p: Vec, c: Vec, r: nat, j: nat, l: nat)
    requires GroupDone(mat, p, c, r / 12, j) && l < 64
    ensures WordIn(mat, r, j)[l] == EntryAt(p, c, r, l)
  {
    hide *;
    GroupIs(mat, p, c, r / 12, j, l);
    CellAt(mat, r / 12, j, r % 12);
    LaneAt(Cell(mat, r / 12, j), l, r % 12);
    EntryAtIs(p, c, r, l);
    assert r == 12 * (r / 12) + r % 12;
  }

  lemma GroupIs(mat: seq<seq<Word>>, p: Vec, c: Vec, h: nat, j: nat, l: nat)
    requires GroupDone(mat, p, c, h, j) && l < 64
    ensures Lane(Cell(mat, h, j), l) == Mul(Lane(p, l), Pow(Lane(c, l), h))
  {
    hide Mul, Pow, Cell, Lane;
  }

  lemma EntryAtIs(p: Vec, c: Vec, r: nat, l: nat)
    requires l < 64
    ensures EntryAt(p, c, r, l) == Mul(Lane(p, l), Pow(Lane(c, l), r / 12))[r % 12]
  {
    hide Mul, Pow, Lane;
  }

  lemma GroupsOf(mat: seq<seq<Word>>, prod: seq<Vec>, ps: seq<Vec>, cs: seq<Vec>, from: nat, to: nat, t: nat, j: nat, i: nat)
    requires 0 < t && Filled(mat, prod, ps, cs, from, to, to, t - 1) && from <= j < to && i < t
    ensures |ps| == |cs| && j < |ps| && GroupDone(mat, ps[j], cs[j], i, j)
  {
    hide GroupDone, Powered;
    assert BlockTo(mat, ps[j], cs[j], t, j);
  }

  lemma FilledEntry(mat: seq<seq<Word>>, prod: seq<Vec>, ps: seq<Vec>, cs: seq<Vec>, t: nat, from: nat, to: nat, r: nat, b: nat)
    requires 0 < t && Filled(mat, prod, ps, cs, from, to, to, t - 1) && r < 12 * t && 64 * from <= b < 64 * to
    ensures |ps| == |cs| && b < 64 * |ps| && WordIn(mat, r, b / 64)[b % 64] == Entry(ps, cs, r, b)
  {
    hide *;
    GroupsOf(mat, prod, ps, cs, from, to, t, b / 64, r / 12);
    EntryIs(mat, ps[b / 64], cs[b / 64], r, b / 64, b % 64);
    EntryOf(ps, cs, r, b);
  }

  lemma EntryOf(ps: seq<Vec>, cs: seq<Vec>, r: nat, b: nat)
    requires |ps| == |cs| && b < 64 * |ps|
    ensures Entry(ps, cs, r, b) == EntryAt(ps[b / 64], cs[b / 64], r, b % 64)
  {
    hide EntryAt;
  }

  lemma ParityAt(ps: seq<Vec>, cs: seq<Vec>, n: nat, from: nat, to: nat, r: nat, b: nat)
    requires |ps| == |cs| && from <= to <= |ps| && r < n && b < 64 * (to - from)
    ensures |Parity(ps, cs, n, from, to)| == n && |Parity(ps, cs, n, from, to)[r]| == 64 * (to - from)
    ensures Parity(ps, cs, n, from, to)[r][b] == Entry(ps, cs, r, 64 * from + b)
  {
    hide Entry;
  }

  lemma ParitySizes(ps: seq<Vec>, cs: seq<Vec>, n: nat, from: nat, to: nat)
    requires |ps| == |cs| && from <= to <= |ps|
    ensures |Parity(ps, cs, n, from, to)| == n && forall r :: 0 <= r < n ==> |Parity(ps, cs, n, from, to)[r]| == 64 * (to - from)
  {
    hide ParityRow;
  }

  lemma FilledSizes(mat: seq<seq<Word>>, prod: seq<Vec>, ps: seq<Vec>, cs: seq<Vec>, from: nat, mid: nat, to: nat, i: nat)
    requires Filled(mat, prod, ps, cs, from, mid, to, i)
    ensures |ps| == |cs| && from <= to <= |ps|
  {
    hide BlockTo, Powered;
  }

  lemma LeftBit(mat: seq<seq<Word>>, n: nat, width: nat, nb: nat, r: nat, b: nat)
    requires Shaped(mat, n, width) && nb <= width && r < n && b < 64 * nb
    ensures |Left64(mat, nb)| == n && |Left64(mat, nb)[r]| == 64 * nb && Left64(mat, nb)[r][b] == WordIn(mat, r, b / 64)[b % 64]
  {}

  lemma RightBit(mat: seq<seq<Word>>, n: nat, width: nat, nb: nat, r: nat, b: nat)
    requires Shaped(mat, n, width) && nb <= width && r < n && b < 64 * (width - nb)
    ensures RightRows(mat, nb, width)[r][b] == WordIn(mat, r, (64 * nb + b) / 64)[(64 * nb + b) % 64]
  {
    assert (64 * nb + b) / 64 == nb + b / 64 && (64 * nb + b) % 64 == b % 64;
  }

  /** The blocks on the left are the square matrix of the elimination. */
  lemma LeftIsParity(mat: seq<seq<Word>>, prod: seq<Vec>, ps: seq<Vec>, cs: seq<Vec>, t: nat, width: nat, nb: nat)
    requires 0 < t && Shaped(mat, 12 * t, width) && nb <= width == |ps| && Filled(mat, prod, ps, cs, 0, nb, nb, t - 1)
    ensures |ps| == |cs| && Left64(mat, nb) == Parity(ps, cs, 12 * t, 0, nb)
  {
    hide *;
    FilledSizes(mat, prod, ps, cs, 0, nb, nb, t - 1);
    var a, p := Left64(mat, nb), Parity(ps, cs, 12 * t, 0, nb);
    ParitySizes(ps, cs, 12 * t, 0, nb);
    SizesOf(mat, 12 * t, width, nb);
    forall r | 0 <= r < 12 * t ensures a[r] == p[r] {
      forall b | 0 <= b < 64 * nb ensures a[r][b] == p[r][b] {
        LeftBit(mat, 12 * t, width, nb, r, b);
        FilledEntry(mat, prod, ps, cs, t, 0, nb, r, b);
        ParityAt(ps, cs, 12 * t, 0, nb, r, b);
      }
    }
  }

  lemma SizesOf(mat: seq<seq<Word>>, n: nat, width: nat, nb: nat)
    requires Shaped(mat, n, width) && nb <= width
    ensures |mat| == |Left64(mat, nb)| == |RightRows(mat, nb, width)| == n
    ensures forall r :: 0 <= r < n ==> |Left64(mat, nb)[r]| == 64 * nb && |RightRows(mat, nb, width)[r]| == 64 * (width - nb)
  {}

  lemma RightIsParity(mat: seq<seq<Word>>, prod: seq<Vec>, ps: seq<Vec>, cs: seq<Vec>, t: nat, width: nat, nb: nat)
    requires 0 < t && Shaped(mat, 12 * t, width) && nb <= width == |ps| && Filled(mat, prod, ps, cs, nb, width, width, t - 1)
    ensures |ps| == |cs| && RightRows(mat, nb, width) == Parity(ps, cs, 12 * t, nb, width)
  {
    hide *;
    FilledSizes(mat, prod, ps, cs, nb, width, width, t - 1);
    var a, p := RightRows(mat, nb, width), Parity(ps, cs, 12 * t, nb, width);
    ParitySizes(ps, cs, 12 * t, nb, width);
    SizesOf(mat, 12 * t, width, nb);
    forall r | 0 <= r < 12 * t ensures a[r] == p[r] {
      forall b | 0 <= b < 64 * (width - nb) ensures a[r][b] == p[r][b] {
        RightBit(mat, 12 * t, width, nb, r, b);
        FilledEntry(mat, prod, ps, cs, t, nb, width, r, 64 * nb + b);
        ParityAt(ps, cs, 12 * t, nb, width, r, b);
      }
    }
  }
}
