/** The public-key generation from the inverses on: the parity-check matrix, its elimination and the
    public rows, joined into one statement about the key. */
module PublicKey {
  import opened BinaryAlgebra
  import opened BitMatrix
  import opened OutputBits
  import opened Permutations
  import opened Sequences
  import opened BatchInversion
  import opened Elimination
  import opened PublicRows
  import opened ParityMatrix
  import opened KeyPermutation

  /** The blocks from `from` on do not depend on those before. */
  lemma ParityAgrees(ps: seq<Vec>, qs: seq<Vec>, cs: seq<Vec>, n: nat, from: nat, to: nat)
    requires |ps| == |qs| == |cs| && from <= to <= |ps| && forall j :: from <= j < to ==> ps[j] == qs[j]
    ensures Parity(ps, cs, n, from, to) == Parity(qs, cs, n, from, to)
  {
    hide *;
    ParitySizes(ps, cs, n, from, to);
    ParitySizes(qs, cs, n, from, to);
    var a, b := Parity(ps, cs, n, from, to), Parity(qs, cs, n, from, to);
    forall r | 0 <= r < n ensures a[r] == b[r] {
      forall i | 0 <= i < 64 * (to - from) ensures a[r][i] == b[r][i] {
        ParityAt(ps, cs, n, from, to, r, i);
        ParityAt(qs, cs, n, from, to, r, i);
        EntryOf(ps, cs, r, 64 * from + i);
        EntryOf(qs, cs, r, 64 * from + i);
      }
    }
  }

  /** t solves m t = h, and its rows are in the public key. */
  ghost predicate KeyOf(pk: seq<nat>, t: seq<Bits>, m: seq<Bits>, h: seq<Bits>, n: nat, w: nat, rowBytes: nat)
  {
    && Rows(t, n, w) && Rows(m, n, n) && Rows(h, n, w)
    && (forall r :: 0 <= r < n ==> Select(m[r], t, w) == h[r])
    && forall r :: 0 <= r < n ==> RowStored(pk, Times(rowBytes, r), t[r], rowBytes)
  }

  lemma KeyFrom(pk: seq<nat>, o: seq<Bits>, m: seq<Bits>, h: seq<Bits>, n: nat, w: nat, rowBytes: nat)
    requires Rows(o, n, n) && Rows(m, n, n) && Rows(h, n, w) && LeftInverse(m, o, n)
    requires RowsStored(pk, o, h, w, rowBytes, n)
    ensures KeyOf(pk, Applied(o, h, w), m, h, n, w, rowBytes)
  {
    var t := Applied(o, h, w);
    hide Select, RowStored, LeftInverse;
    forall r | 0 <= r < n ensures Select(m[r], t, w) == h[r] { Solution(o, m, h, n, w, r); }
    forall r | 0 <= r < n ensures RowStored(pk, Times(rowBytes, r), t[r], rowBytes) {
      RowIs(o, h, w, r);
    }
  }

  lemma FilledOthers(s: seq<seq<Word>>, prod: seq<Vec>, ps: seq<Vec>, cs: seq<Vec>, from: nat, mid: nat, to: nat, i: nat)
    requires Filled(s, prod, ps, cs, from, mid, to, i)
    ensures |prod| == |ps| == |cs| && forall j :: 0 <= j < |ps| && !(from <= j < to) ==> prod[j] == ps[j]
  {
    hide BlockTo, Powered;
  }

  /** From the matrix on the left to the public rows: failure exactly when the square matrix on the left is
      singular; otherwise the rows t of the key satisfy (left) t = (right). */
  method PublicRowsOf(mat: array<seq<Word>>, ops: array<seq<Word>>, prod: array<Vec>, consts: seq<Vec>, pk: array<nat>,
                      t: nat, nb: nat, nh: nat, rowBytes: nat) returns (ok: bool, ghost rows: seq<Bits>)
    requires 12 * t == 64 * nb && 0 < nb < nh && prod.Length == |consts| == nh
    requires mat != ops && Shaped(mat[..], 12 * t, nh) && ops.Length == 12 * t && Shaped(ops[..], 12 * t, nb)
    requires rowBytes == 8 * (nh - 1 - nb) + rowBytes % 8 && Times(rowBytes, 12 * t) <= pk.Length
    requires mat as object != prod && ops as object != prod && pk as object != mat && pk as object != ops && pk as object != prod
    modifies mat, ops, prod, pk
    ensures ok <==> !Singular(Parity(old(prod[..]), consts, 12 * t, 0, nb), 12 * t)
    ensures ok ==> KeyOf(pk[..], rows, Parity(old(prod[..]), consts, 12 * t, 0, nb), Parity(old(prod[..]), consts, 12 * t, nb, nh),
                         12 * t, 64 * (nh - nb), rowBytes)
  {
    hide *;
    ghost var p, n := prod[..], 12 * t;
    rows := [];
    FillColumns(mat, prod, consts, t, nh, 0, nb);
    ghost var q := prod[..];
    LeftIsParity(mat[..], q, p, consts, t, nh, nb);
    FilledOthers(mat[..], q, p, consts, 0, nb, nb, t - 1);
    ghost var m := Parity(p, consts, n, 0, nb);
    ok := Systematize(mat, ops, 12 * t, nb, m, nh);
    if !ok { return; }
    ghost var o := Left64(ops[..], nb);
    FillColumns(mat, prod, consts, t, nh, nb, nh);
    RightIsParity(mat[..], prod[..], q, consts, t, nh, nb);
    ParityAgrees(p, q, consts, n, nb, nh);
    StoreRows(pk, mat, ops, 12 * t, nb, nh, rowBytes);
    ParityRows(p, consts, n, nb, nh);
    RowsSize(o, n, n);
    RowsSize(Parity(p, consts, n, nb, nh), n, 64 * (nh - nb));
    rows := Applied(o, Parity(p, consts, n, nb, nh), 64 * (nh - nb));
    KeyFrom(pk[..], o, m, Parity(p, consts, n, nb, nh), n, 64 * (nh - nb), rowBytes);
  }

  lemma ParityRows(ps: seq<Vec>, cs: seq<Vec>, n: nat, from: nat, to: nat)
    requires |ps| == |cs| && from <= to <= |ps|
    ensures Rows(Parity(ps, cs, n, from, to), n, 64 * (to - from))
  {
    hide ParityRow;
  }

  lemma RowsSize(a: seq<Bits>, n: nat, w: nat)
    requires Rows(a, n, w)
    ensures |a| == n
  {}

  /** pk_gen from the sorted list on: -1 exactly when two of the random words are equal or the square
      matrix on the left, for the ordering of the field that pi then holds, is singular; otherwise the
      public key is the systematic form. The bitslicing of the sorted list is a parameter, as a function
      of the ordering. */
  method PkGen(list: array<int>, perm: array<nat>, pi: array<nat>, g: nat, inv: seq<nat>, slices: seq<nat> -> (seq<Vec>, seq<Vec>),
               mat: array<seq<Word>>, ops: array<seq<Word>>, prod: array<Vec>, pk: array<nat>,
               t: nat, nb: nat, nh: nat, rowBytes: nat) returns (result: int, ghost rows: seq<Bits>)
    requires list.Length == perm.Length == pi.Length == |inv| && KeyRanges(inv, perm[..], g)
    requires forall i :: 0 <= i < |inv| ==> list[i] == inv[i]
    requires forall s: seq<nat> :: |slices(s).0| == |slices(s).1| == nh
    requires 12 * t == 64 * nb && 0 < nb < nh && prod.Length == nh
    requires Shaped(mat[..], 12 * t, nh) && ops.Length == 12 * t && Shaped(ops[..], 12 * t, nb)
    requires rowBytes == 8 * (nh - 1 - nb) + rowBytes % 8 && Times(rowBytes, 12 * t) <= pk.Length
    requires list as object != perm && list as object != pi && list as object != pk && list as object != mat && list as object != ops && list as object != prod
    requires perm as object != pi && perm as object != pk && perm as object != mat && perm as object != ops && perm as object != prod
    requires pi as object != pk && pi as object != mat && pi as object != ops && pi as object != prod
    requires pk as object != mat && pk as object != ops && pk as object != prod
    requires mat as object != ops && mat as object != prod
    requires ops as object != prod
    modifies list, pi, mat, ops, prod, pk
    ensures result == 0 || result == -1
    ensures result == 0 ==> Distinct(perm[..])
    ensures Distinct(perm[..]) ==> IsPerm(pi[..]) && forall i, j :: 0 <= i < j < |inv| ==> pi[i] < |inv| && pi[j] < |inv| && perm[pi[i]] < perm[pi[j]]
    ensures Distinct(perm[..]) ==> (result == 0 <==> !Singular(Parity(slices(pi[..]).0, slices(pi[..]).1, 12 * t, 0, nb), 12 * t))
    ensures result == 0 ==> KeyOf(pk[..], rows, Parity(slices(pi[..]).0, slices(pi[..]).1, 12 * t, 0, nb),
                                  Parity(slices(pi[..]).0, slices(pi[..]).1, 12 * t, nb, nh), 12 * t, 64 * (nh - nb), rowBytes)
  {
    hide *;
    rows := [];
    var ok := OrderField(list, perm, pi, g, |inv|, inv);
    if !ok { return -1, []; }
    ghost var matWas, opsWas := mat[..], ops[..];
    var order := pi[..];
    var (inverses, consts) := slices(order);
    assert |inverses| == nh && |consts| == nh;
    var j := 0;
    while j < nh
      invariant 0 <= j <= nh && forall k :: 0 <= k < j ==> prod[k] == inverses[k]
      modifies prod
    {
      prod[j] := inverses[j];
      j := j + 1;
    }
    assert prod[..] == inverses;
    assert mat[..] == matWas;
    assert ops[..] == opsWas;
    assert pi[..] == order;
    ok, rows := PublicRowsOf(mat, ops, prod, consts, pk, t, nb, nh, rowBytes);
    result := if ok then 0 else -1;
  }
}
