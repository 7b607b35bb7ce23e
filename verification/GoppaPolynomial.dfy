/** The generation of the Goppa polynomial: column elimination on the powers of a ring element
    either finds that they are dependent, or expresses the next power by them. */
module GoppaPolynomial {
  import opened Field
  import opened ScalarField
  import opened ExtensionRing
  import opened ExtensionRingLaws

  // ---------------------------------------------------------------- combinations of rows

  ghost predicate Shape(m: seq<Row>, t: nat)
  {
    |m| == t + 1 && forall r :: 0 <= r <= t ==> |m[r]| == t
  }

  /** The sum of the first k rows with the coefficients a. */
  ghost function Comb(a: Row, m: seq<Row>, t: nat, k: nat): (v: Row)
    requires |a| == |m| && k <= |m| && forall r :: 0 <= r < |m| ==> |m[r]| == t
    ensures |v| == t
    decreases k
  {
    if k == 0 then VNil(t) else VAdd(Comb(a, m, t, k - 1), VScale(a[k - 1], m[k - 1]))
  }

  /** The rows with these coefficients add up to zero. */
  ghost predicate Relation(a: Row, m: seq<Row>, t: nat)
    requires Shape(m, t) && |a| == t + 1
  {
    Comb(a, m, t, t + 1) == VNil(t)
  }

  ghost predicate SameRelations(m: seq<Row>, n: seq<Row>, t: nat)
  {
    Shape(m, t) && Shape(n, t) && forall a: Row :: |a| == t + 1 ==> (Relation(a, m, t) <==> Relation(a, n, t))
  }

  /** The first t rows are linearly dependent. */
  ghost predicate Dependent(m: seq<Row>, t: nat)
    requires Shape(m, t)
  {
    exists a: Row :: |a| == t + 1 && a[t] == Nil() && a != VNil(t + 1) && Relation(a, m, t)
  }

  // ---------------------------------------------------------------- column operations

  /** Column j plus e times column k. */
  function AddColumn(v: Row, j: nat, k: nat, e: Elem): (r: Row)
    requires j < |v| && k < |v|
    ensures |r| == |v|
  {
    v[j := Add(v[j], Mul(v[k], e))]
  }

  function ScaleColumn(v: Row, j: nat, e: Elem): (r: Row)
    requires j < |v|
    ensures |r| == |v|
  {
    v[j := Mul(v[j], e)]
  }

  lemma AddColumnLinear(u: Row, v: Row, d: Elem, j: nat, k: nat, e: Elem)
    requires |u| == |v| && j < |v| && k < |v|
    ensures AddColumn(VAdd(u, v), j, k, e) == VAdd(AddColumn(u, j, k, e), AddColumn(v, j, k, e))
    ensures AddColumn(VScale(d, u), j, k, e) == VScale(d, AddColumn(u, j, k, e))
  {
    hide Add, Mul;
    MulLinear(u[k], v[k], e);
    Regroup(u[j], v[j], Mul(u[k], e), Mul(v[k], e));
    MulAssociates(d, u[k], e);
    MulLinear(d, u[j], Mul(u[k], e));
  }

  lemma ScaleColumnLinear(u: Row, v: Row, d: Elem, j: nat, e: Elem)
    requires |u| == |v| && j < |v|
    ensures ScaleColumn(VAdd(u, v), j, e) == VAdd(ScaleColumn(u, j, e), ScaleColumn(v, j, e))
    ensures ScaleColumn(VScale(d, u), j, e) == VScale(d, ScaleColumn(u, j, e))
  {
    hide Add, Mul;
    MulLinear(u[j], v[j], e);
    MulAssociates(d, u[j], e);
  }

  /** Both operations can be undone. */
  lemma AddColumnZero(v: Row, j: nat, k: nat, e: Elem)
    requires j < |v| && k < |v| && j != k
    ensures AddColumn(v, j, k, e) == VNil(|v|) <==> v == VNil(|v|)
  {
    hide Add, Mul, Nil;
    var w := AddColumn(v, j, k, e);
    MulLinear(e, e, e);
    AddLaws(Nil(), Nil(), Nil());
    assert forall i :: 0 <= i < |v| && i != j ==> w[i] == v[i];
    if w == VNil(|v|) {
      assert w[k] == Nil() && w[j] == Nil();
      AddLaws(v[j], Nil(), Nil());
      forall i | 0 <= i < |v| ensures v[i] == Nil() { assert w[i] == Nil(); }
    }
  }

  lemma ScaleColumnZero(v: Row, j: nat, e: Elem)
    requires j < |v| && e != Nil()
    ensures ScaleColumn(v, j, e) == VNil(|v|) <==> v == VNil(|v|)
  {
    hide Add, Mul, Nil;
    var w := ScaleColumn(v, j, e);
    NoZeroDivisors(v[j], e);
    assert forall i :: 0 <= i < |v| && i != j ==> w[i] == v[i];
    if w == VNil(|v|) {
      assert w[j] == Nil();
      forall i | 0 <= i < |v| ensures v[i] == Nil() { assert w[i] == Nil(); }
    }
  }

  /** The operation on every row. */
  function AddColumns(m: seq<Row>, j: nat, k: nat, e: Elem): (r: seq<Row>)
    requires forall i :: 0 <= i < |m| ==> j < |m[i]| && k < |m[i]|
    ensures |r| == |m|
  {
    seq(|m|, i requires 0 <= i < |m| => AddColumn(m[i], j, k, e))
  }

  function ScaleColumns(m: seq<Row>, j: nat, e: Elem): (r: seq<Row>)
    requires forall i :: 0 <= i < |m| ==> j < |m[i]|
    ensures |r| == |m|
  {
    seq(|m|, i requires 0 <= i < |m| => ScaleColumn(m[i], j, e))
  }

  lemma {:induction false} CombAddColumns(a: Row, m: seq<Row>, t: nat, j: nat, k: nat, e: Elem, h: nat)
    requires |a| == |m| && h <= |m| && j < t && k < t && forall r :: 0 <= r < |m| ==> |m[r]| == t
    ensures Comb(a, AddColumns(m, j, k, e), t, h) == AddColumn(Comb(a, m, t, h), j, k, e)
    decreases h
  {
    hide *;
    AddColumnsAt(m, t, j, k, e);
    if h == 0 {
      CombEmpty(a, m, t);
      CombEmpty(a, AddColumns(m, j, k, e), t);
      NilColumn(t, j, k, e);
    } else {
      CombAddColumns(a, m, t, j, k, e, h - 1);
      CombStep(a, m, t, h - 1);
      CombStep(a, AddColumns(m, j, k, e), t, h - 1);
      AddColumnLinear(Comb(a, m, t, h - 1), VScale(a[h - 1], m[h - 1]), a[h - 1], j, k, e);
      AddColumnLinear(m[h - 1], m[h - 1], a[h - 1], j, k, e);
    }
  }

  lemma CombEmpty(a: Row, m: seq<Row>, t: nat)
    requires |a| == |m| && forall r :: 0 <= r < |m| ==> |m[r]| == t
    ensures Comb(a, m, t, 0) == VNil(t)
  {}

  lemma AddColumnsAt(m: seq<Row>, t: nat, j: nat, k: nat, e: Elem)
    requires j < t && k < t && forall r :: 0 <= r < |m| ==> |m[r]| == t
    ensures forall r :: 0 <= r < |m| ==> AddColumns(m, j, k, e)[r] == AddColumn(m[r], j, k, e) && |AddColumns(m, j, k, e)[r]| == t
  {}

  lemma ScaleColumnsAt(m: seq<Row>, t: nat, j: nat, e: Elem)
    requires j < t && forall r :: 0 <= r < |m| ==> |m[r]| == t
    ensures forall r :: 0 <= r < |m| ==> ScaleColumns(m, j, e)[r] == ScaleColumn(m[r], j, e) && |ScaleColumns(m, j, e)[r]| == t
  {}

  lemma NilColumn(t: nat, j: nat, k: nat, e: Elem)
    requires j < t && k < t
    ensures AddColumn(VNil(t), j, k, e) == VNil(t) && ScaleColumn(VNil(t), j, e) == VNil(t)
  {
    hide Add, Mul, Nil;
    MulLinear(e, e, e);
    AddLaws(Nil(), Nil(), Nil());
  }

  lemma CombStep(a: Row, m: seq<Row>, t: nat, k: nat)
    requires |a| == |m| && k < |m| && forall r :: 0 <= r < |m| ==> |m[r]| == t
    ensures Comb(a, m, t, k + 1) == VAdd(Comb(a, m, t, k), VScale(a[k], m[k]))
  {}

  lemma {:induction false} CombScaleColumns(a: Row, m: seq<Row>, t: nat, j: nat, e: Elem, h: nat)
    requires |a| == |m| && h <= |m| && j < t && forall r :: 0 <= r < |m| ==> |m[r]| == t
    ensures Comb(a, ScaleColumns(m, j, e), t, h) == ScaleColumn(Comb(a, m, t, h), j, e)
    decreases h
  {
    hide *;
    ScaleColumnsAt(m, t, j, e);
    if h == 0 {
      CombEmpty(a, m, t);
      CombEmpty(a, ScaleColumns(m, j, e), t);
      NilColumn(t, j, j, e);
    } else {
      CombScaleColumns(a, m, t, j, e, h - 1);
      CombStep(a, m, t, h - 1);
      CombStep(a, ScaleColumns(m, j, e), t, h - 1);
      ScaleColumnLinear(Comb(a, m, t, h - 1), VScale(a[h - 1], m[h - 1]), a[h - 1], j, e);
      ScaleColumnLinear(m[h - 1], m[h - 1], a[h - 1], j, e);
    }
  }

  lemma AddColumnsRelations(m: seq<Row>, n: seq<Row>, t: nat, j: nat, k: nat, e: Elem)
    requires SameRelations(m, n, t) && j < t && k < t && j != k
    ensures Shape(m, t) && SameRelations(AddColumns(m, j, k, e), n, t)
  {
    hide Comb, AddColumn;
    forall a: Row | |a| == t + 1 ensures Relation(a, AddColumns(m, j, k, e), t) <==> Relation(a, n, t) {
      CombAddColumns(a, m, t, j, k, e, t + 1);
      AddColumnZero(Comb(a, m, t, t + 1), j, k, e);
      assert Relation(a, m, t) <==> Relation(a, n, t);
    }
  }

  lemma ScaleColumnsRelations(m: seq<Row>, n: seq<Row>, t: nat, j: nat, e: Elem)
    requires SameRelations(m, n, t) && j < t && e != Nil()
    ensures Shape(m, t) && SameRelations(ScaleColumns(m, j, e), n, t)
  {
    hide Comb, ScaleColumn;
    forall a: Row | |a| == t + 1 ensures Relation(a, ScaleColumns(m, j, e), t) <==> Relation(a, n, t) {
      CombScaleColumns(a, m, t, j, e, t + 1);
      ScaleColumnZero(Comb(a, m, t, t + 1), j, e);
      assert Relation(a, m, t) <==> Relation(a, n, t);
    }
  }

  // ---------------------------------------------------------------- the stages of the elimination

  /** The first j rows are unit vectors, and the relations are those of n. */
  ghost predicate Stage(m: seq<Row>, n: seq<Row>, t: nat, j: nat)
  {
    SameRelations(m, n, t) && j <= t && forall c :: 0 <= c < j ==> m[c] == VUnit(t, c)
  }

  lemma StageParts(m: seq<Row>, n: seq<Row>, t: nat, j: nat)
    ensures Stage(m, n, t, j) <==> SameRelations(m, n, t) && j <= t && |m| == t + 1 && forall c :: 0 <= c < j ==> m[c] == VUnit(t, c)
    ensures SameRelations(m, n, t) ==> Shape(m, t) && Shape(n, t) && |m| == t + 1 && forall r :: 0 <= r < |m| ==> |m[r]| == t
  {}

  lemma UnitKept(t: nat, i: nat, c: nat, k: nat, e: Elem)
    requires i < t && c < t && k < t && i != k
    ensures AddColumn(VUnit(t, i), c, k, e) == VUnit(t, i)
    ensures k == c ==> ScaleColumn(VUnit(t, i), c, e) == VUnit(t, i)
  {
    hide Add, Mul, Nil;
    MulLinear(e, e, e);
    AddLaws(VUnit(t, i)[c], Nil(), Nil());
  }

  /** A column changed by one from j on: in the rows above row j there is nothing to add. */
  lemma AddBelow(m: seq<Row>, n: seq<Row>, t: nat, j: nat, c: nat, k: nat, e: Elem)
    requires Stage(m, n, t, j) && j < t && c < t && k < t && c != k && k >= j
    ensures |m| == t + 1 && forall i :: 0 <= i < |m| ==> |m[i]| == t
    ensures forall i :: 0 <= i < j ==> AddColumns(m, c, k, e)[i] == m[i]
    ensures Stage(AddColumns(m, c, k, e), n, t, j)
  {
    hide *;
    StageParts(m, n, t, j);
    AddColumnsAt(m, t, c, k, e);
    AddColumnsRelations(m, n, t, c, k, e);
    forall i | 0 <= i < j ensures AddColumn(m[i], c, k, e) == VUnit(t, i) { UnitKept(t, i, c, k, e); }
    StageParts(AddColumns(m, c, k, e), n, t, j);
  }

  lemma ScaleBelow(m: seq<Row>, n: seq<Row>, t: nat, j: nat, e: Elem)
    requires Stage(m, n, t, j) && j < t && e != Nil()
    ensures |m| == t + 1 && forall i :: 0 <= i < |m| ==> |m[i]| == t
    ensures forall i :: 0 <= i < j ==> ScaleColumns(m, j, e)[i] == m[i]
    ensures Stage(ScaleColumns(m, j, e), n, t, j)
  {
    hide *;
    StageParts(m, n, t, j);
    ScaleColumnsAt(m, t, j, e);
    ScaleColumnsRelations(m, n, t, j, e);
    forall i | 0 <= i < j ensures ScaleColumn(m[i], j, e) == VUnit(t, i) { UnitKept(t, i, j, j, e); }
    StageParts(ScaleColumns(m, j, e), n, t, j);
  }

  /** The coefficients that express row j by the unit vectors above it. */
  function Witness(v: Row, j: nat, t: nat): (a: Row)
    requires j < |v|
    ensures |a| == t + 1
  {
    seq(t + 1, i => if 0 <= i < j then v[i] else UnitEntry(i, j))
  }

  lemma {:induction false} CombUnits(a: Row, m: seq<Row>, t: nat, j: nat, k: nat)
    requires |a| == |m| == t + 1 && k <= j <= t && (forall r :: 0 <= r < |m| ==> |m[r]| == t)
    requires forall c :: 0 <= c < j ==> m[c] == VUnit(t, c)
    ensures Comb(a, m, t, k) == a[..k] + VNil(t - k)
    decreases k
  {
    hide *;
    if k == 0 {
      CombEmpty(a, m, t);
      assert a[..0] + VNil(t) == VNil(t);
    } else {
      CombUnits(a, m, t, j, k - 1);
      CombStep(a, m, t, k - 1);
      PlaceCoefficient(t, a, k - 1);
    }
  }

  lemma {:induction false} CombTail(a: Row, m: seq<Row>, t: nat, j: nat, k: nat)
    requires |a| == |m| && j <= k <= |m| && (forall r :: 0 <= r < |m| ==> |m[r]| == t)
    requires forall i :: j <= i < k ==> a[i] == Nil()
    ensures Comb(a, m, t, k) == Comb(a, m, t, j)
    decreases k
  {
    hide *;
    if k > j {
      CombTail(a, m, t, j, k - 1);
      CombStep(a, m, t, k - 1);
      VScaleLaws(Nil(), Nil(), m[k - 1], m[k - 1]);
      VAddLaws(Comb(a, m, t, k - 1), m[k - 1], m[k - 1]);
    }
  }

  /** A row without a pivot makes the rows up to it dependent. */
  lemma NoPivotDependent(m: seq<Row>, n: seq<Row>, t: nat, j: nat)
    requires Stage(m, n, t, j) && j < t && forall k :: j <= k < t ==> m[j][k] == Nil()
    ensures Shape(n, t) && Dependent(n, t)
  {
    hide *;
    NoPivotParts(m, n, t, j);
    var v := m[j];
    var a := Witness(v, j, t);
    WitnessFacts(v, j, t);
    CombUnits(a, m, t, j, j);
    CombStep(a, m, t, j);
    CombTail(a, m, t, j + 1, t + 1);
    VScaleLaws(One(), One(), v, v);
    RowIsPadded(v, j, t, a);
    VAddLaws(v, v, v);
    DependentBy(m, n, t, a);
  }

  lemma NoPivotParts(m: seq<Row>, n: seq<Row>, t: nat, j: nat)
    requires Stage(m, n, t, j)
    ensures |m| == t + 1 && (forall r :: 0 <= r < |m| ==> |m[r]| == t) && Shape(m, t) && Shape(n, t) && SameRelations(m, n, t)
    ensures forall c :: 0 <= c < j ==> m[c] == VUnit(t, c)
  {}

  lemma WitnessFacts(v: Row, j: nat, t: nat)
    requires j < |v| == t
    ensures var a := Witness(v, j, t);
            a[..j] == v[..j] && a[j] == One() && a[t] == Nil() && (forall i :: j < i < t + 1 ==> a[i] == Nil())
  {}

  lemma RowIsPadded(v: Row, j: nat, t: nat, a: Row)
    requires j < |v| == t < |a| && a[..j] == v[..j] && forall k :: j <= k < t ==> v[k] == Nil()
    ensures a[..j] + VNil(t - j) == v
  {}

  lemma DependentBy(m: seq<Row>, n: seq<Row>, t: nat, a: Row)
    requires SameRelations(m, n, t) && Shape(m, t) && Shape(n, t) && |a| == t + 1 && a[t] == Nil()
    requires Comb(a, m, t, t + 1) == VNil(t) && exists i :: 0 <= i < t && a[i] == One()
    ensures Dependent(n, t)
  {
    hide Comb;
    assert Relation(a, m, t);
    assert One()[0] && !Nil()[0];
    var i :| 0 <= i < t && a[i] == One();
    assert a != VNil(t + 1);
  }

  /** With all rows reduced, the rows are independent and the last one is expressed by the others. */
  lemma FullRank(m: seq<Row>, n: seq<Row>, t: nat)
    requires Stage(m, n, t, t)
    ensures Shape(n, t) && !Dependent(n, t) && |m[t]| == t && Relation(m[t] + [One()], n, t)
  {
    NoPivotParts(m, n, t, t);
    var b := m[t] + [One()];
    forall a: Row | |a| == t + 1 && a[t] == Nil() && Relation(a, n, t) ensures a == VNil(t + 1) {
      IndependentUnits(a, m, n, t);
    }
    hide *;
    CombUnits(b, m, t, t, t);
    CombStep(b, m, t, t);
    VScaleLaws(One(), One(), m[t], m[t]);
    assert b[..t] + VNil(0) == m[t];
    VAddLaws(m[t], m[t], m[t]);
    RelationBack(b, m, n, t);
  }

  lemma RelationBack(b: Row, m: seq<Row>, n: seq<Row>, t: nat)
    requires SameRelations(m, n, t) && Shape(m, t) && Shape(n, t) && |b| == t + 1
    requires Comb(b, m, t, t + 1) == VNil(t)
    ensures Relation(b, n, t)
  {
    hide Comb;
    assert Relation(b, m, t);
  }

  lemma IndependentUnits(a: Row, m: seq<Row>, n: seq<Row>, t: nat)
    requires Stage(m, n, t, t) && Shape(n, t) && |a| == t + 1 && a[t] == Nil() && Relation(a, n, t)
    ensures a == VNil(t + 1)
  {
    hide *;
    NoPivotParts(m, n, t, t);
    RelationForward(a, m, n, t);
    CombUnits(a, m, t, t, t);
    CombTail(a, m, t, t, t + 1);
    assert a[..t] + VNil(0) == a[..t];
    PaddedNil(a, t);
  }

  lemma RelationForward(a: Row, m: seq<Row>, n: seq<Row>, t: nat)
    requires SameRelations(m, n, t) && Shape(n, t) && |a| == t + 1 && Relation(a, n, t)
    ensures Shape(m, t) && Comb(a, m, t, t + 1) == VNil(t)
  {
    hide Comb;
    assert Relation(a, m, t);
  }

  lemma PaddedNil(a: Row, t: nat)
    requires |a| == t + 1 && a[..t] == VNil(t) && a[t] == Nil()
    ensures a == VNil(t + 1)
  {
    forall i | 0 <= i < t ensures a[i] == Nil() { assert a[..t][i] == VNil(t)[i]; }
  }

  // ---------------------------------------------------------------- the loops

  /** for (c = j; c < t + 1; c++) mat[c][to] ^= gf_mul(mat[c][from], e); */
  method AddColumnFrom(mat: array<Row>, ghost n: seq<Row>, t: nat, j: nat, to: nat, from: nat, e: Elem)
    requires mat.Length == t + 1 && Stage(mat[..], n, t, j) && j < t && to < t && from < t && to != from && from >= j
    modifies mat
    ensures |old(mat[..])| == t + 1 && (forall i :: 0 <= i < t + 1 ==> |old(mat[..])[i]| == t)
    ensures mat[..] == AddColumns(old(mat[..]), to, from, e) && Stage(mat[..], n, t, j)
  {
    hide *;
    ghost var m := mat[..];
    AddBelow(m, n, t, j, to, from, e);
    AddColumnsAt(m, t, to, from, e);
    ghost var r := AddColumns(m, to, from, e);
    var c := j;
    while c < t + 1
      invariant j <= c <= t + 1
      invariant forall i :: 0 <= i < c ==> mat[i] == r[i]
      invariant forall i :: c <= i < t + 1 ==> mat[i] == m[i]
    {
      var p := GfMul(mat[c][from], e);
      AddColumnIs(mat[c], to, from, e);
      mat[c] := mat[c][to := Add(mat[c][to], p)];
      c := c + 1;
    }
    assert mat[..] == r;
  }

  lemma AddColumnIs(v: Row, j: nat, k: nat, e: Elem)
    requires j < |v| && k < |v|
    ensures AddColumn(v, j, k, e) == v[j := Add(v[j], Mul(v[k], e))]
    ensures ScaleColumn(v, j, e) == v[j := Mul(v[j], e)]
  {}

  /** for (c = j; c < t + 1; c++) mat[c][j] ^= mat[c][k] & mask; */
  method AddMaskedColumn(mat: array<Row>, ghost n: seq<Row>, t: nat, j: nat, k: nat, mask: bool)
    requires mat.Length == t + 1 && Stage(mat[..], n, t, j) && j < k < t
    modifies mat
    ensures |old(mat[..])| == t + 1 && (forall i :: 0 <= i < t + 1 ==> |old(mat[..])[i]| == t)
    ensures mat[..] == AddColumns(old(mat[..]), j, k, If(mask, One())) && Stage(mat[..], n, t, j)
  {
    hide *;
    ghost var m, e := mat[..], If(mask, One());
    AddBelow(m, n, t, j, j, k, e);
    AddColumnsAt(m, t, j, k, e);
    ghost var r := AddColumns(m, j, k, e);
    var c := j;
    while c < t + 1
      invariant j <= c <= t + 1
      invariant forall i :: 0 <= i < c ==> mat[i] == r[i]
      invariant forall i :: c <= i < t + 1 ==> mat[i] == m[i]
    {
      AddColumnIs(mat[c], j, k, e);
      TimesMask(mat[c][k], mask);
      mat[c] := mat[c][j := Add(mat[c][j], If(mask, mat[c][k]))];
      c := c + 1;
    }
    assert mat[..] == r;
  }

  lemma TimesMask(a: Elem, mask: bool)
    ensures Mul(a, If(mask, One())) == If(mask, a)
  {
    hide Mul, One, Nil;
    MulLinear(a, a, a);
  }

  /** for (c = j; c < t + 1; c++) mat[c][j] = gf_mul(mat[c][j], inv); */
  method ScaleColumnFrom(mat: array<Row>, ghost n: seq<Row>, t: nat, j: nat, e: Elem)
    requires mat.Length == t + 1 && Stage(mat[..], n, t, j) && j < t && e != Nil()
    modifies mat
    ensures |old(mat[..])| == t + 1 && (forall i :: 0 <= i < t + 1 ==> |old(mat[..])[i]| == t)
    ensures mat[..] == ScaleColumns(old(mat[..]), j, e) && Stage(mat[..], n, t, j)
  {
    hide *;
    ghost var m := mat[..];
    ScaleBelow(m, n, t, j, e);
    ScaleColumnsAt(m, t, j, e);
    ghost var r := ScaleColumns(m, j, e);
    var c := j;
    while c < t + 1
      invariant j <= c <= t + 1
      invariant forall i :: 0 <= i < c ==> mat[i] == r[i]
      invariant forall i :: c <= i < t + 1 ==> mat[i] == m[i]
    {
      var p := GfMul(mat[c][j], e);
      AddColumnIs(mat[c], j, j, e);
      mat[c] := mat[c][j := p];
      c := c + 1;
    }
    assert mat[..] == r;
  }

  /** Columns up to k have been looked at for a pivot of row j. */
  ghost predicate Sought(v: Row, j: nat, k: nat)
  {
    j < |v| && forall i :: j < i < k && i < |v| ==> v[i] != Nil() ==> v[j] != Nil()
  }

  lemma SoughtStep(v: Row, j: nat, k: nat, mask: bool)
    requires j < k < |v| && Sought(v, j, k) && (mask <==> v[j] == Nil())
    ensures Sought(AddColumn(v, j, k, If(mask, One())), j, k + 1)
  {
    hide *;
    TimesMask(v[k], mask);
    AddColumnIs(v, j, k, If(mask, One()));
    IfFalse(v[k]);
    AddNil(v[j]);
    AddNil(v[k]);
    SoughtUpdate(v, j, k, Add(v[j], If(mask, v[k])));
  }

  lemma SoughtUpdate(v: Row, j: nat, k: nat, x: Elem)
    requires Sought(v, j, k) && j < k < |v| && x == if v[j] == Nil() then v[k] else v[j]
    ensures Sought(v[j := x], j, k + 1)
  {
    hide Nil;
  }

  /** Columns on the right are added to column j while it has a zero in row j. */
  method SeekPivot(mat: array<Row>, ghost n: seq<Row>, t: nat, j: nat)
    requires mat.Length == t + 1 && Stage(mat[..], n, t, j) && j < t
    modifies mat
    ensures Stage(mat[..], n, t, j) && Sought(mat[j], j, t) && |mat[j]| == t
  {
    hide *;
    StageParts(mat[..], n, t, j);
    SoughtStart(mat[j], j);
    var k := j + 1;
    while k < t
      invariant j < k <= t && Stage(mat[..], n, t, j) && Sought(mat[j], j, k)
    {
      ghost var m := mat[..];
      StageParts(m, n, t, j);
      var mask := mat[j][j] == Nil();
      AddColumnsAt(m, t, j, k, If(mask, One()));
      SoughtStep(mat[j], j, k, mask);
      AddMaskedColumn(mat, n, t, j, k, mask);
      assert mat[j] == mat[..][j];
      k := k + 1;
    }
    StageParts(mat[..], n, t, j);
  }

  lemma SoughtStart(v: Row, j: nat)
    requires j < |v|
    ensures Sought(v, j, j + 1)
  {}

  lemma SoughtEnd(v: Row, j: nat, t: nat)
    requires Sought(v, j, t) && |v| == t && v[j] == Nil()
    ensures forall k :: j <= k < t ==> v[k] == Nil()
  {}

  /** Row j has a one in column j and zeros in the other columns before k. */
  ghost predicate Cleared(v: Row, j: nat, k: nat)
  {
    j < |v| && v[j] == One() && forall i :: 0 <= i < k && i < |v| && i != j ==> v[i] == Nil()
  }

  lemma ClearedStep(v: Row, j: nat, k: nat)
    requires Cleared(v, j, k) && k < |v|
    ensures k != j ==> Cleared(AddColumn(v, k, j, v[k]), j, k + 1)
    ensures k == j ==> Cleared(v, j, k + 1)
  {
    hide Mul, One, Nil, Add;
    MulCommutes(v[k], v[j]);
    AddLaws(v[k], v[k], v[k]);
  }

  /** Column j is subtracted from all others so that row j becomes a unit vector. */
  method ClearRow(mat: array<Row>, ghost n: seq<Row>, t: nat, j: nat)
    requires mat.Length == t + 1 && Stage(mat[..], n, t, j) && j < t && Cleared(mat[j], j, 0)
    modifies mat
    ensures Stage(mat[..], n, t, j + 1)
  {
    hide *;
    var k := 0;
    while k < t
      invariant 0 <= k <= t && Stage(mat[..], n, t, j) && Cleared(mat[j], j, k)
    {
      ghost var m := mat[..];
      StageParts(m, n, t, j);
      ClearedStep(mat[j], j, k);
      if k != j {
        var e := mat[j][k];
        AddColumnsAt(m, t, k, j, e);
        AddColumnFrom(mat, n, t, j, k, j, e);
        assert mat[j] == mat[..][j];
      }
      k := k + 1;
    }
    StageParts(mat[..], n, t, j);
    ClearedUnit(mat[j], j, t);
    StageParts(mat[..], n, t, j + 1);
  }

  lemma ClearedUnit(v: Row, j: nat, t: nat)
    requires Cleared(v, j, t) && |v| == t
    ensures v == VUnit(t, j)
  {}

  // ---------------------------------------------------------------- the algorithm

  /** f^i, as the code computes it */
  function RPow(f: Row, i: nat): (r: Row)
    requires |f| >= 4
    ensures |r| == |f|
    decreases i
  {
    if i == 0 then VUnit(|f|, 0) else if i == 1 then f else RMul(RPow(f, i - 1), f)
  }

  lemma RPowNext(f: Row, i: nat)
    requires |f| >= 4
    ensures RPow(f, 0) == VUnit(|f|, 0) && RPow(f, i + 1) == RMul(RPow(f, i), f)
  {
    OneNeutral(f);
    hide RMul, VUnit;
  }

  /** The powers do not depend on the order in which they are multiplied up. */
  lemma {:induction false} RPowSum(f: Row, i: nat, j: nat)
    requires |f| >= 4
    ensures RPow(f, i + j) == RMul(RPow(f, i), RPow(f, j))
    decreases j
  {
    hide *;
    RPowNext(f, 0);
    if j == 0 {
      OneNeutral(RPow(f, i));
    } else {
      RPowSum(f, i, j - 1);
      RPowNext(f, j - 1);
      RPowNext(f, i + (j - 1));
      ProductAssociates(RPow(f, i), RPow(f, j - 1), f);
    }
  }

  /** The powers 1, f, ..., f^t. */
  function PowersOf(f: Row): (m: seq<Row>)
    requires |f| >= 4
    ensures |m| == |f| + 1
    ensures forall i :: 0 <= i <= |f| ==> m[i] == RPow(f, i) && |m[i]| == |f|
  {
    seq(|f| + 1, i requires 0 <= i < |f| + 1 => RPow(f, i))
  }

  /** The rows of the matrix. */
  method FillPowers(mat: array<Row>, f: Row)
    requires |f| >= 4 && mat.Length == |f| + 1
    modifies mat
    ensures mat[..] == PowersOf(f)
  {
    hide RMul, VUnit;
    var t := |f|;
    mat[0] := VUnit(t, 0);
    mat[1] := f;
    var j := 2;
    while j <= t
      invariant 2 <= j <= t + 1
      invariant forall i :: 0 <= i < j ==> mat[i] == RPow(f, i)
    {
      var p := GFMul(mat[j - 1], f);
      mat[j] := p;
      j := j + 1;
    }
  }

  lemma StageStart(m: seq<Row>, t: nat)
    requires Shape(m, t)
    ensures Stage(m, m, t, 0)
  {
    hide Relation;
  }

  /** genpoly_gen: it fails exactly when 1, f, ..., f^(t-1) are linearly dependent, and otherwise
      out expresses f^t by them: the sum of out_i f^i, plus f^t, is zero. */
  method GenPoly(f: Row) returns (ok: bool, out: Row)
    requires |f| >= 4
    ensures Shape(PowersOf(f), |f|)
    ensures ok <==> !Dependent(PowersOf(f), |f|)
    ensures ok ==> |out| == |f| && Relation(out + [One()], PowersOf(f), |f|)
  {
    hide *;
    var t := |f|;
    var mat := new Row[t + 1](i => []);
    FillPowers(mat, f);
    ghost var n := PowersOf(f);
    PowersShape(f);
    StageStart(n, t);
    out := [];
    var j := 0;
    while j < t
      invariant 0 <= j <= t && Stage(mat[..], n, t, j)
    {
      SeekPivot(mat, n, t, j);
      if mat[j][j] == Nil() {
        SoughtEnd(mat[j], j, t);
        NoPivotDependent(mat[..], n, t, j);
        return false, [];
      }
      var inv := GfInv(mat[j][j]);
      StageParts(mat[..], n, t, j);
      PivotScales(mat[..], t, j, inv);
      ScaleColumnFrom(mat, n, t, j, inv);
      assert mat[j] == mat[..][j];
      ClearRow(mat, n, t, j);
      j := j + 1;
    }
    FullRank(mat[..], n, t);
    out := mat[t];
    ok := true;
  }

  lemma PowersShape(f: Row)
    requires |f| >= 4
    ensures Shape(PowersOf(f), |f|)
  {}

  lemma PivotScales(m: seq<Row>, t: nat, j: nat, e: Elem)
    requires |m| == t + 1 && j < t && (forall r :: 0 <= r < |m| ==> |m[r]| == t) && Mul(m[j][j], e) == One()
    ensures e != Nil() && Cleared(ScaleColumns(m, j, e)[j], j, 0)
  {
    assert One()[0] && !Nil()[0];
    hide Mul, One, Nil;
    NoZeroDivisors(m[j][j], e);
  }
}
