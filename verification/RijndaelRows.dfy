/** The unrolled code that substitutes the bytes and shifts the rows of the state in place, row by
    row as the assignments are grouped, and the code that undoes it. */
module RijndaelRows {
  import opened Bytes
  import opened Rijndael

  predicate InRow(i: nat, nb: nat, r: nat)
  {
    i < 4 * nb && i % 4 == r
  }

  lemma RowIndices(i: nat, r: nat)
    requires r < 4
    ensures InRow(i, 4, r) ==> i == r || i == r + 4 || i == r + 8 || i == r + 12
    ensures InRow(i, 6, r) ==> i == r || i == r + 4 || i == r + 8 || i == r + 12 || i == r + 16 || i == r + 20
    ensures InRow(i, 8, r) ==>
      i == r || i == r + 4 || i == r + 8 || i == r + 12 || i == r + 16 || i == r + 20 || i == r + 24 || i == r + 28
    ensures i == r || i == r + 4 || i == r + 8 || i == r + 12 ==> InRow(i, 4, r)
    ensures i == r || i == r + 4 || i == r + 8 || i == r + 12 || i == r + 16 || i == r + 20 ==> InRow(i, 6, r)
    ensures i == r || i == r + 4 || i == r + 8 || i == r + 12 || i == r + 16 || i == r + 20 || i == r + 24 || i == r + 28 ==>
      InRow(i, 8, r)
  {}

  /** Row r of t is the shifted and substituted row r of s, all else is the same. */
  ghost predicate RowShifted(s: seq<Byte>, t: seq<Byte>, nb: nat, r: nat)
    requires BlockSize(nb)
  {
    |s| == |t| == 32 && forall i :: 0 <= i < 32 ==> RowShiftedAt(s, t, nb, r, i)
  }

  ghost predicate RowShiftedAt(s: seq<Byte>, t: seq<Byte>, nb: nat, r: nat, i: nat)
    requires BlockSize(nb) && |s| == |t| == 32 && i < 32
  {
    t[i] == if InRow(i, nb, r) && Source(nb, i) < 32 then SubByte(s[Source(nb, i)]) else s[i]
  }

  ghost predicate RowShiftedBack(s: seq<Byte>, t: seq<Byte>, nb: nat, r: nat)
    requires BlockSize(nb)
  {
    |s| == |t| == 32 && forall i :: 0 <= i < 32 ==> RowShiftedBackAt(s, t, nb, r, i)
  }

  ghost predicate RowShiftedBackAt(s: seq<Byte>, t: seq<Byte>, nb: nat, r: nat, i: nat)
    requires BlockSize(nb) && |s| == |t| == 32 && i < 32
  {
    t[i] == if InRow(i, nb, r) && InvSource(nb, i) < 32 then InvSubByte(s[InvSource(nb, i)]) else s[i]
  }

  lemma ShiftValues()
    ensures Shift(4, 0) == Shift(6, 0) == Shift(8, 0) == 0 && Shift(4, 1) == Shift(6, 1) == Shift(8, 1) == 1
    ensures Shift(4, 2) == Shift(6, 2) == 2 && Shift(8, 2) == 3 && Shift(4, 3) == Shift(6, 3) == 3 && Shift(8, 3) == 4
  {}

  lemma ColumnSource(nb: nat, c: nat)
    requires BlockSize(nb)
    ensures Source(nb, 4 * c) == 4 * Ahead(nb, c, Shift(nb, 0)) && InvSource(nb, 4 * c) == 4 * Behind(nb, c, Shift(nb, 0))
    ensures Source(nb, 4 * c + 1) == 1 + 4 * Ahead(nb, c, Shift(nb, 1)) && InvSource(nb, 4 * c + 1) == 1 + 4 * Behind(nb, c, Shift(nb, 1))
    ensures Source(nb, 4 * c + 2) == 2 + 4 * Ahead(nb, c, Shift(nb, 2)) && InvSource(nb, 4 * c + 2) == 2 + 4 * Behind(nb, c, Shift(nb, 2))
    ensures Source(nb, 4 * c + 3) == 3 + 4 * Ahead(nb, c, Shift(nb, 3)) && InvSource(nb, 4 * c + 3) == 3 + 4 * Behind(nb, c, Shift(nb, 3))
  {
    hide Source, InvSource, Shift;
    SourceIs(nb, 0, c);
    SourceIs(nb, 1, c);
    SourceIs(nb, 2, c);
    SourceIs(nb, 3, c);
  }

  lemma Sources4()
    ensures Source(4, 0) == 0 && Source(4, 1) == 5 && Source(4, 2) == 10 && Source(4, 3) == 15
    ensures Source(4, 4) == 4 && Source(4, 5) == 9 && Source(4, 6) == 14 && Source(4, 7) == 3
    ensures Source(4, 8) == 8 && Source(4, 9) == 13 && Source(4, 10) == 2 && Source(4, 11) == 7
    ensures Source(4, 12) == 12 && Source(4, 13) == 1 && Source(4, 14) == 6 && Source(4, 15) == 11
    ensures InvSource(4, 0) == 0 && InvSource(4, 1) == 13 && InvSource(4, 2) == 10 && InvSource(4, 3) == 7
    ensures InvSource(4, 4) == 4 && InvSource(4, 5) == 1 && InvSource(4, 6) == 14 && InvSource(4, 7) == 11
    ensures InvSource(4, 8) == 8 && InvSource(4, 9) == 5 && InvSource(4, 10) == 2 && InvSource(4, 11) == 15
    ensures InvSource(4, 12) == 12 && InvSource(4, 13) == 9 && InvSource(4, 14) == 6 && InvSource(4, 15) == 3
  {
    hide Source, InvSource, Shift;
    ShiftValues();
    ColumnSource(4, 0);
    ColumnSource(4, 1);
    ColumnSource(4, 2);
    ColumnSource(4, 3);
  }

  lemma Sources6()
    ensures Source(6, 0) == 0 && Source(6, 1) == 5 && Source(6, 2) == 10 && Source(6, 3) == 15
    ensures Source(6, 4) == 4 && Source(6, 5) == 9 && Source(6, 6) == 14 && Source(6, 7) == 19
    ensures Source(6, 8) == 8 && Source(6, 9) == 13 && Source(6, 10) == 18 && Source(6, 11) == 23
    ensures Source(6, 12) == 12 && Source(6, 13) == 17 && Source(6, 14) == 22 && Source(6, 15) == 3
    ensures Source(6, 16) == 16 && Source(6, 17) == 21 && Source(6, 18) == 2 && Source(6, 19) == 7
    ensures Source(6, 20) == 20 && Source(6, 21) == 1 && Source(6, 22) == 6 && Source(6, 23) == 11
    ensures InvSource(6, 0) == 0 && InvSource(6, 1) == 21 && InvSource(6, 2) == 18 && InvSource(6, 3) == 15
    ensures InvSource(6, 4) == 4 && InvSource(6, 5) == 1 && InvSource(6, 6) == 22 && InvSource(6, 7) == 19
    ensures InvSource(6, 8) == 8 && InvSource(6, 9) == 5 && InvSource(6, 10) == 2 && InvSource(6, 11) == 23
    ensures InvSource(6, 12) == 12 && InvSource(6, 13) == 9 && InvSource(6, 14) == 6 && InvSource(6, 15) == 3
    ensures InvSource(6, 16) == 16 && InvSource(6, 17) == 13 && InvSource(6, 18) == 10 && InvSource(6, 19) == 7
    ensures InvSource(6, 20) == 20 && InvSource(6, 21) == 17 && InvSource(6, 22) == 14 && InvSource(6, 23) == 11
  {
    hide Source, InvSource, Shift;
    ShiftValues();
    ColumnSource(6, 0);
    ColumnSource(6, 1);
    ColumnSource(6, 2);
    ColumnSource(6, 3);
    ColumnSource(6, 4);
    ColumnSource(6, 5);
  }

  lemma Sources8()
    ensures Source(8, 0) == 0 && Source(8, 1) == 5 && Source(8, 2) == 14 && Source(8, 3) == 19
    ensures Source(8, 4) == 4 && Source(8, 5) == 9 && Source(8, 6) == 18 && Source(8, 7) == 23
    ensures Source(8, 8) == 8 && Source(8, 9) == 13 && Source(8, 10) == 22 && Source(8, 11) == 27
    ensures Source(8, 12) == 12 && Source(8, 13) == 17 && Source(8, 14) == 26 && Source(8, 15) == 31
    ensures Source(8, 16) == 16 && Source(8, 17) == 21 && Source(8, 18) == 30 && Source(8, 19) == 3
    ensures Source(8, 20) == 20 && Source(8, 21) == 25 && Source(8, 22) == 2 && Source(8, 23) == 7
    ensures Source(8, 24) == 24 && Source(8, 25) == 29 && Source(8, 26) == 6 && Source(8, 27) == 11
    ensures Source(8, 28) == 28 && Source(8, 29) == 1 && Source(8, 30) == 10 && Source(8, 31) == 15
    ensures InvSource(8, 0) == 0 && InvSource(8, 1) == 29 && InvSource(8, 2) == 22 && InvSource(8, 3) == 19
    ensures InvSource(8, 4) == 4 && InvSource(8, 5) == 1 && InvSource(8, 6) == 26 && InvSource(8, 7) == 23
    ensures InvSource(8, 8) == 8 && InvSource(8, 9) == 5 && InvSource(8, 10) == 30 && InvSource(8, 11) == 27
    ensures InvSource(8, 12) == 12 && InvSource(8, 13) == 9 && InvSource(8, 14) == 2 && InvSource(8, 15) == 31
    ensures InvSource(8, 16) == 16 && InvSource(8, 17) == 13 && InvSource(8, 18) == 6 && InvSource(8, 19) == 3
    ensures InvSource(8, 20) == 20 && InvSource(8, 21) == 17 && InvSource(8, 22) == 10 && InvSource(8, 23) == 7
    ensures InvSource(8, 24) == 24 && InvSource(8, 25) == 21 && InvSource(8, 26) == 14 && InvSource(8, 27) == 11
    ensures InvSource(8, 28) == 28 && InvSource(8, 29) == 25 && InvSource(8, 30) == 18 && InvSource(8, 31) == 15
  {
    hide Source, InvSource, Shift;
    ShiftValues();
    ColumnSource(8, 0);
    ColumnSource(8, 1);
    ColumnSource(8, 2);
    ColumnSource(8, 3);
    ColumnSource(8, 4);
    ColumnSource(8, 5);
    ColumnSource(8, 6);
    ColumnSource(8, 7);
  }

  lemma RowDone4(s: seq<Byte>, t: seq<Byte>, r: nat, j0: nat, j1: nat, j2: nat, j3: nat)
    requires |s| == |t| == 32 && r < 4
    requires j0 == Source(4, r) && j0 < 32 && t[r] == SubByte(s[j0])
    requires j1 == Source(4, r + 4) && j1 < 32 && t[r + 4] == SubByte(s[j1])
    requires j2 == Source(4, r + 8) && j2 < 32 && t[r + 8] == SubByte(s[j2])
    requires j3 == Source(4, r + 12) && j3 < 32 && t[r + 12] == SubByte(s[j3])
    requires forall i :: 0 <= i < 32 && !(i == r || i == r + 4 || i == r + 8 || i == r + 12) ==> t[i] == s[i]
    ensures RowShifted(s, t, 4, r)
  {
    hide SubByte, Source, InRow;
    forall i | 0 <= i < 32 ensures RowShiftedAt(s, t, 4, r, i) { RowIndices(i, r); }
  }

  lemma RowDone6(s: seq<Byte>, t: seq<Byte>, r: nat, j0: nat, j1: nat, j2: nat, j3: nat, j4: nat, j5: nat)
    requires |s| == |t| == 32 && r < 4
    requires j0 == Source(6, r) && j0 < 32 && t[r] == SubByte(s[j0])
    requires j1 == Source(6, r + 4) && j1 < 32 && t[r + 4] == SubByte(s[j1])
    requires j2 == Source(6, r + 8) && j2 < 32 && t[r + 8] == SubByte(s[j2])
    requires j3 == Source(6, r + 12) && j3 < 32 && t[r + 12] == SubByte(s[j3])
    requires j4 == Source(6, r + 16) && j4 < 32 && t[r + 16] == SubByte(s[j4])
    requires j5 == Source(6, r + 20) && j5 < 32 && t[r + 20] == SubByte(s[j5])
    requires forall i :: 0 <= i < 32 && !(i == r || i == r + 4 || i == r + 8 || i == r + 12 || i == r + 16 || i == r + 20) ==> t[i] == s[i]
    ensures RowShifted(s, t, 6, r)
  {
    hide SubByte, Source, InRow;
    forall i | 0 <= i < 32 ensures RowShiftedAt(s, t, 6, r, i) { RowIndices(i, r); }
  }

  lemma RowDone8(s: seq<Byte>, t: seq<Byte>, r: nat, j0: nat, j1: nat, j2: nat, j3: nat, j4: nat, j5: nat, j6: nat, j7: nat)
    requires |s| == |t| == 32 && r < 4
    requires j0 == Source(8, r) && j0 < 32 && t[r] == SubByte(s[j0])
    requires j1 == Source(8, r + 4) && j1 < 32 && t[r + 4] == SubByte(s[j1])
    requires j2 == Source(8, r + 8) && j2 < 32 && t[r + 8] == SubByte(s[j2])
    requires j3 == Source(8, r + 12) && j3 < 32 && t[r + 12] == SubByte(s[j3])
    requires j4 == Source(8, r + 16) && j4 < 32 && t[r + 16] == SubByte(s[j4])
    requires j5 == Source(8, r + 20) && j5 < 32 && t[r + 20] == SubByte(s[j5])
    requires j6 == Source(8, r + 24) && j6 < 32 && t[r + 24] == SubByte(s[j6])
    requires j7 == Source(8, r + 28) && j7 < 32 && t[r + 28] == SubByte(s[j7])
    requires forall i :: 0 <= i < 32 && !(i == r || i == r + 4 || i == r + 8 || i == r + 12 || i == r + 16 || i == r + 20 || i == r + 24 || i == r + 28) ==> t[i] == s[i]
    ensures RowShifted(s, t, 8, r)
  {
    hide SubByte, Source, InRow;
    forall i | 0 <= i < 32 ensures RowShiftedAt(s, t, 8, r, i) { RowIndices(i, r); }
  }

  lemma RowDoneBack4(s: seq<Byte>, t: seq<Byte>, r: nat, j0: nat, j1: nat, j2: nat, j3: nat)
    requires |s| == |t| == 32 && r < 4
    requires j0 == InvSource(4, r) && j0 < 32 && t[r] == InvSubByte(s[j0])
    requires j1 == InvSource(4, r + 4) && j1 < 32 && t[r + 4] == InvSubByte(s[j1])
    requires j2 == InvSource(4, r + 8) && j2 < 32 && t[r + 8] == InvSubByte(s[j2])
    requires j3 == InvSource(4, r + 12) && j3 < 32 && t[r + 12] == InvSubByte(s[j3])
    requires forall i :: 0 <= i < 32 && !(i == r || i == r + 4 || i == r + 8 || i == r + 12) ==> t[i] == s[i]
    ensures RowShiftedBack(s, t, 4, r)
  {
    hide InvSubByte, InvSource, InRow;
    forall i | 0 <= i < 32 ensures RowShiftedBackAt(s, t, 4, r, i) { RowIndices(i, r); }
  }

  lemma RowDoneBack6(s: seq<Byte>, t: seq<Byte>, r: nat, j0: nat, j1: nat, j2: nat, j3: nat, j4: nat, j5: nat)
    requires |s| == |t| == 32 && r < 4
    requires j0 == InvSource(6, r) && j0 < 32 && t[r] == InvSubByte(s[j0])
    requires j1 == InvSource(6, r + 4) && j1 < 32 && t[r + 4] == InvSubByte(s[j1])
    requires j2 == InvSource(6, r + 8) && j2 < 32 && t[r + 8] == InvSubByte(s[j2])
    requires j3 == InvSource(6, r + 12) && j3 < 32 && t[r + 12] == InvSubByte(s[j3])
    requires j4 == InvSource(6, r + 16) && j4 < 32 && t[r + 16] == InvSubByte(s[j4])
    requires j5 == InvSource(6, r + 20) && j5 < 32 && t[r + 20] == InvSubByte(s[j5])
    requires forall i :: 0 <= i < 32 && !(i == r || i == r + 4 || i == r + 8 || i == r + 12 || i == r + 16 || i == r + 20) ==> t[i] == s[i]
    ensures RowShiftedBack(s, t, 6, r)
  {
    hide InvSubByte, InvSource, InRow;
    forall i | 0 <= i < 32 ensures RowShiftedBackAt(s, t, 6, r, i) { RowIndices(i, r); }
  }

  lemma RowDoneBack8(s: seq<Byte>, t: seq<Byte>, r: nat, j0: nat, j1: nat, j2: nat, j3: nat, j4: nat, j5: nat, j6: nat, j7: nat)
    requires |s| == |t| == 32 && r < 4
    requires j0 == InvSource(8, r) && j0 < 32 && t[r] == InvSubByte(s[j0])
    requires j1 == InvSource(8, r + 4) && j1 < 32 && t[r + 4] == InvSubByte(s[j1])
    requires j2 == InvSource(8, r + 8) && j2 < 32 && t[r + 8] == InvSubByte(s[j2])
    requires j3 == InvSource(8, r + 12) && j3 < 32 && t[r + 12] == InvSubByte(s[j3])
    requires j4 == InvSource(8, r + 16) && j4 < 32 && t[r + 16] == InvSubByte(s[j4])
    requires j5 == InvSource(8, r + 20) && j5 < 32 && t[r + 20] == InvSubByte(s[j5])
    requires j6 == InvSource(8, r + 24) && j6 < 32 && t[r + 24] == InvSubByte(s[j6])
    requires j7 == InvSource(8, r + 28) && j7 < 32 && t[r + 28] == InvSubByte(s[j7])
    requires forall i :: 0 <= i < 32 && !(i == r || i == r + 4 || i == r + 8 || i == r + 12 || i == r + 16 || i == r + 20 || i == r + 24 || i == r + 28) ==> t[i] == s[i]
    ensures RowShiftedBack(s, t, 8, r)
  {
    hide InvSubByte, InvSource, InRow;
    forall i | 0 <= i < 32 ensures RowShiftedBackAt(s, t, 8, r, i) { RowIndices(i, r); }
  }

  method SubRow1Of4(st: array<Byte>)
    requires st.Length == 32
    modifies st
    ensures RowShifted(old(st[..]), st[..], 4, 1)
  {
    hide *;
    ghost var s := st[..];
    Sources4();
    var temp := SubByte(st[1]);
    st[1] := SubByte(st[5]);
    st[5] := SubByte(st[9]);
    st[9] := SubByte(st[13]);
    st[13] := temp;
    RowDone4(s, st[..], 1, 5, 9, 13, 1);
  }

  method SubRow2Of4(st: array<Byte>)
    requires st.Length == 32
    modifies st
    ensures RowShifted(old(st[..]), st[..], 4, 2)
  {
    hide *;
    ghost var s := st[..];
    Sources4();
    var temp := SubByte(st[2]);
    st[2] := SubByte(st[10]);
    st[10] := temp;
    temp := SubByte(st[6]);
    st[6] := SubByte(st[14]);
    st[14] := temp;
    RowDone4(s, st[..], 2, 10, 14, 2, 6);
  }

  method SubRow3Of4(st: array<Byte>)
    requires st.Length == 32
    modifies st
    ensures RowShifted(old(st[..]), st[..], 4, 3)
  {
    hide *;
    ghost var s := st[..];
    Sources4();
    var temp := SubByte(st[3]);
    st[3] := SubByte(st[15]);
    st[15] := SubByte(st[11]);
    st[11] := SubByte(st[7]);
    st[7] := temp;
    RowDone4(s, st[..], 3, 15, 3, 7, 11);
  }

  method SubRow0Of4(st: array<Byte>)
    requires st.Length == 32
    modifies st
    ensures RowShifted(old(st[..]), st[..], 4, 0)
  {
    hide *;
    ghost var s := st[..];
    Sources4();
    st[0] := SubByte(st[0]);
    st[4] := SubByte(st[4]);
    st[8] := SubByte(st[8]);
    st[12] := SubByte(st[12]);
    RowDone4(s, st[..], 0, 0, 4, 8, 12);
  }

  method SubRow1Of6(st: array<Byte>)
    requires st.Length == 32
    modifies st
    ensures RowShifted(old(st[..]), st[..], 6, 1)
  {
    hide *;
    ghost var s := st[..];
    Sources6();
    var temp := SubByte(st[1]);
    st[1] := SubByte(st[5]);
    st[5] := SubByte(st[9]);
    st[9] := SubByte(st[13]);
    st[13] := SubByte(st[17]);
    st[17] := SubByte(st[21]);
    st[21] := temp;
    RowDone6(s, st[..], 1, 5, 9, 13, 17, 21, 1);
  }

  method SubRow2Of6(st: array<Byte>)
    requires st.Length == 32
    modifies st
    ensures RowShifted(old(st[..]), st[..], 6, 2)
  {
    hide *;
    ghost var s := st[..];
    Sources6();
    var temp := SubByte(st[2]);
    st[2] := SubByte(st[10]);
    st[10] := SubByte(st[18]);
    st[18] := temp;
    temp := SubByte(st[6]);
    st[6] := SubByte(st[14]);
    st[14] := SubByte(st[22]);
    st[22] := temp;
    RowDone6(s, st[..], 2, 10, 14, 18, 22, 2, 6);
  }

  method SubRow3Of6(st: array<Byte>)
    requires st.Length == 32
    modifies st
    ensures RowShifted(old(st[..]), st[..], 6, 3)
  {
    hide *;
    ghost var s := st[..];
    Sources6();
    var temp := SubByte(st[3]);
    st[3] := SubByte(st[15]);
    st[15] := temp;
    temp := SubByte(st[7]);
    st[7] := SubByte(st[19]);
    st[19] := temp;
    temp := SubByte(st[11]);
    st[11] := SubByte(st[23]);
    st[23] := temp;
    RowDone6(s, st[..], 3, 15, 19, 23, 3, 7, 11);
  }

  method SubRow0Of6(st: array<Byte>)
    requires st.Length == 32
    modifies st
    ensures RowShifted(old(st[..]), st[..], 6, 0)
  {
    hide *;
    ghost var s := st[..];
    Sources6();
    st[0] := SubByte(st[0]);
    st[4] := SubByte(st[4]);
    st[8] := SubByte(st[8]);
    st[12] := SubByte(st[12]);
    st[16] := SubByte(st[16]);
    st[20] := SubByte(st[20]);
    RowDone6(s, st[..], 0, 0, 4, 8, 12, 16, 20);
  }

  method SubRow1Of8(st: array<Byte>)
    requires st.Length == 32
    modifies st
    ensures RowShifted(old(st[..]), st[..], 8, 1)
  {
    hide *;
    ghost var s := st[..];
    Sources8();
    var temp := SubByte(st[1]);
    st[1] := SubByte(st[5]);
    st[5] := SubByte(st[9]);
    st[9] := SubByte(st[13]);
    st[13] := SubByte(st[17]);
    st[17] := SubByte(st[21]);
    st[21] := SubByte(st[25]);
    st[25] := SubByte(st[29]);
    st[29] := temp;
    RowDone8(s, st[..], 1, 5, 9, 13, 17, 21, 25, 29, 1);
  }

  method SubRow2Of8(st: array<Byte>)
    requires st.Length == 32
    modifies st
    ensures RowShifted(old(st[..]), st[..], 8, 2)
  {
    hide *;
    ghost var s := st[..];
    Sources8();
    var temp := SubByte(st[2]);
    st[2] := SubByte(st[14]);
    st[14] := SubByte(st[26]);
    st[26] := SubByte(st[6]);
    st[6] := SubByte(st[18]);
    st[18] := SubByte(st[30]);
    st[30] := SubByte(st[10]);
    st[10] := SubByte(st[22]);
    st[22] := temp;
    RowDone8(s, st[..], 2, 14, 18, 22, 26, 30, 2, 6, 10);
  }

  method SubRow3Of8(st: array<Byte>)
    requires st.Length == 32
    modifies st
    ensures RowShifted(old(st[..]), st[..], 8, 3)
  {
    hide *;
    ghost var s := st[..];
    Sources8();
    var temp := SubByte(st[3]);
    st[3] := SubByte(st[19]);
    st[19] := temp;
    temp := SubByte(st[7]);
    st[7] := SubByte(st[23]);
    st[23] := temp;
    temp := SubByte(st[11]);
    st[11] := SubByte(st[27]);
    st[27] := temp;
    temp := SubByte(st[15]);
    st[15] := SubByte(st[31]);
    st[31] := temp;
    RowDone8(s, st[..], 3, 19, 23, 27, 31, 3, 7, 11, 15);
  }

  method SubRow0Of8(st: array<Byte>)
    requires st.Length == 32
    modifies st
    ensures RowShifted(old(st[..]), st[..], 8, 0)
  {
    hide *;
    ghost var s := st[..];
    Sources8();
    st[0] := SubByte(st[0]);
    st[4] := SubByte(st[4]);
    st[8] := SubByte(st[8]);
    st[12] := SubByte(st[12]);
    st[16] := SubByte(st[16]);
    st[20] := SubByte(st[20]);
    st[24] := SubByte(st[24]);
    st[28] := SubByte(st[28]);
    RowDone8(s, st[..], 0, 0, 4, 8, 12, 16, 20, 24, 28);
  }

  method InvSubRow1Of4(st: array<Byte>)
    requires st.Length == 32
    modifies st
    ensures RowShiftedBack(old(st[..]), st[..], 4, 1)
  {
    hide *;
    ghost var s := st[..];
    Sources4();
    var temp := InvSubByte(st[13]);
    st[13] := InvSubByte(st[9]);
    st[9] := InvSubByte(st[5]);
    st[5] := InvSubByte(st[1]);
    st[1] := temp;
    RowDoneBack4(s, st[..], 1, 13, 1, 5, 9);
  }

  method InvSubRow2Of4(st: array<Byte>)
    requires st.Length == 32
    modifies st
    ensures RowShiftedBack(old(st[..]), st[..], 4, 2)
  {
    hide *;
    ghost var s := st[..];
    Sources4();
    var temp := InvSubByte(st[14]);
    st[14] := InvSubByte(st[6]);
    st[6] := temp;
    temp := InvSubByte(st[2]);
    st[2] := InvSubByte(st[10]);
    st[10] := temp;
    RowDoneBack4(s, st[..], 2, 10, 14, 2, 6);
  }

  method InvSubRow3Of4(st: array<Byte>)
    requires st.Length == 32
    modifies st
    ensures RowShiftedBack(old(st[..]), st[..], 4, 3)
  {
    hide *;
    ghost var s := st[..];
    Sources4();
    var temp := InvSubByte(st[15]);
    st[15] := InvSubByte(st[3]);
    st[3] := InvSubByte(st[7]);
    st[7] := InvSubByte(st[11]);
    st[11] := temp;
    RowDoneBack4(s, st[..], 3, 7, 11, 15, 3);
  }

  method InvSubRow0Of4(st: array<Byte>)
    requires st.Length == 32
    modifies st
    ensures RowShiftedBack(old(st[..]), st[..], 4, 0)
  {
    hide *;
    ghost var s := st[..];
    Sources4();
    st[0] := InvSubByte(st[0]);
    st[4] := InvSubByte(st[4]);
    st[8] := InvSubByte(st[8]);
    st[12] := InvSubByte(st[12]);
    RowDoneBack4(s, st[..], 0, 0, 4, 8, 12);
  }

  method InvSubRow1Of6(st: array<Byte>)
    requires st.Length == 32
    modifies st
    ensures RowShiftedBack(old(st[..]), st[..], 6, 1)
  {
    hide *;
    ghost var s := st[..];
    Sources6();
    var temp := InvSubByte(st[21]);
    st[21] := InvSubByte(st[17]);
    st[17] := InvSubByte(st[13]);
    st[13] := InvSubByte(st[9]);
    st[9] := InvSubByte(st[5]);
    st[5] := InvSubByte(st[1]);
    st[1] := temp;
    RowDoneBack6(s, st[..], 1, 21, 1, 5, 9, 13, 17);
  }

  method InvSubRow2Of6(st: array<Byte>)
    requires st.Length == 32
    modifies st
    ensures RowShiftedBack(old(st[..]), st[..], 6, 2)
  {
    hide *;
    ghost var s := st[..];
    Sources6();
    var temp := InvSubByte(st[22]);
    st[22] := InvSubByte(st[14]);
    st[14] := InvSubByte(st[6]);
    st[6] := temp;
    temp := InvSubByte(st[18]);
    st[18] := InvSubByte(st[10]);
    st[10] := InvSubByte(st[2]);
    st[2] := temp;
    RowDoneBack6(s, st[..], 2, 18, 22, 2, 6, 10, 14);
  }

  method InvSubRow3Of6(st: array<Byte>)
    requires st.Length == 32
    modifies st
    ensures RowShiftedBack(old(st[..]), st[..], 6, 3)
  {
    hide *;
    ghost var s := st[..];
    Sources6();
    var temp := InvSubByte(st[15]);
    st[15] := InvSubByte(st[3]);
    st[3] := temp;
    temp := InvSubByte(st[19]);
    st[19] := InvSubByte(st[7]);
    st[7] := temp;
    temp := InvSubByte(st[23]);
    st[23] := InvSubByte(st[11]);
    st[11] := temp;
    RowDoneBack6(s, st[..], 3, 15, 19, 23, 3, 7, 11);
  }

  method InvSubRow0Of6(st: array<Byte>)
    requires st.Length == 32
    modifies st
    ensures RowShiftedBack(old(st[..]), st[..], 6, 0)
  {
    hide *;
    ghost var s := st[..];
    Sources6();
    st[0] := InvSubByte(st[0]);
    st[4] := InvSubByte(st[4]);
    st[8] := InvSubByte(st[8]);
    st[12] := InvSubByte(st[12]);
    st[16] := InvSubByte(st[16]);
    st[20] := InvSubByte(st[20]);
    RowDoneBack6(s, st[..], 0, 0, 4, 8, 12, 16, 20);
  }

  method InvSubRow1Of8(st: array<Byte>)
    requires st.Length == 32
    modifies st
    ensures RowShiftedBack(old(st[..]), st[..], 8, 1)
  {
    hide *;
    ghost var s := st[..];
    Sources8();
    var temp := InvSubByte(st[29]);
    st[29] := InvSubByte(st[25]);
    st[25] := InvSubByte(st[21]);
    st[21] := InvSubByte(st[17]);
    st[17] := InvSubByte(st[13]);
    st[13] := InvSubByte(st[9]);
    st[9] := InvSubByte(st[5]);
    st[5] := InvSubByte(st[1]);
    st[1] := temp;
    RowDoneBack8(s, st[..], 1, 29, 1, 5, 9, 13, 17, 21, 25);
  }

  method InvSubRow2Of8(st: array<Byte>)
    requires st.Length == 32
    modifies st
    ensures RowShiftedBack(old(st[..]), st[..], 8, 2)
  {
    hide *;
    ghost var s := st[..];
    Sources8();
    var temp := InvSubByte(st[30]);
    st[30] := InvSubByte(st[18]);
    st[18] := InvSubByte(st[6]);
    st[6] := InvSubByte(st[26]);
    st[26] := InvSubByte(st[14]);
    st[14] := InvSubByte(st[2]);
    st[2] := InvSubByte(st[22]);
    st[22] := InvSubByte(st[10]);
    st[10] := temp;
    RowDoneBack8(s, st[..], 2, 22, 26, 30, 2, 6, 10, 14, 18);
  }

  method InvSubRow3Of8(st: array<Byte>)
    requires st.Length == 32
    modifies st
    ensures RowShiftedBack(old(st[..]), st[..], 8, 3)
  {
    hide *;
    ghost var s := st[..];
    Sources8();
    var temp := InvSubByte(st[31]);
    st[31] := InvSubByte(st[15]);
    st[15] := temp;
    temp := InvSubByte(st[27]);
    st[27] := InvSubByte(st[11]);
    st[11] := temp;
    temp := InvSubByte(st[23]);
    st[23] := InvSubByte(st[7]);
    st[7] := temp;
    temp := InvSubByte(st[19]);
    st[19] := InvSubByte(st[3]);
    st[3] := temp;
    RowDoneBack8(s, st[..], 3, 19, 23, 27, 31, 3, 7, 11, 15);
  }

  method InvSubRow0Of8(st: array<Byte>)
    requires st.Length == 32
    modifies st
    ensures RowShiftedBack(old(st[..]), st[..], 8, 0)
  {
    hide *;
    ghost var s := st[..];
    Sources8();
    st[0] := InvSubByte(st[0]);
    st[4] := InvSubByte(st[4]);
    st[8] := InvSubByte(st[8]);
    st[12] := InvSubByte(st[12]);
    st[16] := InvSubByte(st[16]);
    st[20] := InvSubByte(st[20]);
    st[24] := InvSubByte(st[24]);
    st[28] := InvSubByte(st[28]);
    RowDoneBack8(s, st[..], 0, 0, 4, 8, 12, 16, 20, 24, 28);
  }

  /** The four rows together. */
  lemma RowsAreAll(s: State, a: State, b: State, c: State, t: State, nb: nat)
    requires BlockSize(nb)
    requires RowShifted(s, a, nb, 1) && RowShifted(a, b, nb, 2) && RowShifted(b, c, nb, 3) && RowShifted(c, t, nb, 0)
    ensures t == SubShift(s, nb)
  {
    hide SubByte, Source;
    forall i | 0 <= i < 32 ensures t[i] == SubShift(s, nb)[i] {
      assert RowShiftedAt(s, a, nb, 1, i) && RowShiftedAt(a, b, nb, 2, i) && RowShiftedAt(b, c, nb, 3, i) && RowShiftedAt(c, t, nb, 0, i);
      if i < 4 * nb {
        SameRow(nb, i);
        var j := Source(nb, i);
        assert RowShiftedAt(s, a, nb, 1, j) && RowShiftedAt(a, b, nb, 2, j) && RowShiftedAt(b, c, nb, 3, j);
      }
    }
  }

  lemma SameRow(nb: nat, i: nat)
    requires BlockSize(nb) && i < 4 * nb
    ensures Source(nb, i) < 32 && Source(nb, i) % 4 == i % 4 && InvSource(nb, i) < 32 && InvSource(nb, i) % 4 == i % 4
  {
    SourcesInverse(nb, i);
    hide Source, InvSource;
  }

  lemma RowsAreAllBack(s: State, a: State, b: State, c: State, t: State, nb: nat)
    requires BlockSize(nb)
    requires RowShiftedBack(s, a, nb, 1) && RowShiftedBack(a, b, nb, 2) && RowShiftedBack(b, c, nb, 3) && RowShiftedBack(c, t, nb, 0)
    ensures t == InvShiftSub(s, nb)
  {
    hide InvSubByte, InvSource;
    forall i | 0 <= i < 32 ensures t[i] == InvShiftSub(s, nb)[i] {
      assert RowShiftedBackAt(s, a, nb, 1, i) && RowShiftedBackAt(a, b, nb, 2, i);
      assert RowShiftedBackAt(b, c, nb, 3, i) && RowShiftedBackAt(c, t, nb, 0, i);
      if i < 4 * nb {
        SameRow(nb, i);
        var j := InvSource(nb, i);
        assert RowShiftedBackAt(s, a, nb, 1, j) && RowShiftedBackAt(a, b, nb, 2, j) && RowShiftedBackAt(b, c, nb, 3, j);
      }
    }
  }

  /** ByteSub_ShiftRow(statemt, nb) */
  method ByteSubShiftRow(st: array<Byte>, nb: nat)
    requires st.Length == 32 && BlockSize(nb)
    modifies st
    ensures st[..] == SubShift(old(st[..]), nb)
  {
    hide *;
    ghost var s := st[..];
    ghost var a, b, c: State := s, s, s;
    SizeIs(nb);
    if nb == 4 {
      SubRow1Of4(st);
      a := st[..];
      SubRow2Of4(st);
      b := st[..];
      SubRow3Of4(st);
      c := st[..];
      SubRow0Of4(st);
    } else if nb == 6 {
      SubRow1Of6(st);
      a := st[..];
      SubRow2Of6(st);
      b := st[..];
      SubRow3Of6(st);
      c := st[..];
      SubRow0Of6(st);
    } else {
      SubRow1Of8(st);
      a := st[..];
      SubRow2Of8(st);
      b := st[..];
      SubRow3Of8(st);
      c := st[..];
      SubRow0Of8(st);
    }
    RowsAreAll(s, a, b, c, st[..], nb);
  }

  lemma SizeIs(nb: nat)
    ensures BlockSize(nb) <==> nb == 4 || nb == 6 || nb == 8
  {}

  /** InversShiftRow_ByteSub(statemt, nb) */
  method InversShiftRowByteSub(st: array<Byte>, nb: nat)
    requires st.Length == 32 && BlockSize(nb)
    modifies st
    ensures st[..] == InvShiftSub(old(st[..]), nb)
  {
    hide *;
    ghost var s := st[..];
    ghost var a, b, c: State := s, s, s;
    SizeIs(nb);
    if nb == 4 {
      InvSubRow1Of4(st);
      a := st[..];
      InvSubRow2Of4(st);
      b := st[..];
      InvSubRow3Of4(st);
      c := st[..];
      InvSubRow0Of4(st);
    } else if nb == 6 {
      InvSubRow1Of6(st);
      a := st[..];
      InvSubRow2Of6(st);
      b := st[..];
      InvSubRow3Of6(st);
      c := st[..];
      InvSubRow0Of6(st);
    } else {
      InvSubRow1Of8(st);
      a := st[..];
      InvSubRow2Of8(st);
      b := st[..];
      InvSubRow3Of8(st);
      c := st[..];
      InvSubRow0Of8(st);
    }
    RowsAreAllBack(s, a, b, c, st[..], nb);
  }
}
