/** The rounds as the code performs them, column by column, and the proof that the decryption, with its
    round keys prepared and its steps in another order, inverts the encryption. */
module RijndaelCode {
  import opened Bytes
  import opened Rijndael
  import opened RijndaelRows

  // ---------------------------------------------------------------- the nine types

  /** A type is 1000 times the key bits plus the block bits. */
  predicate Known(kind: int)
  {
    kind in {128128, 192128, 256128, 128192, 192192, 256192, 128256, 192256, 256256}
  }

  /** The number of key columns, from the switch of the key schedule. */
  function KeyColumns(kind: int): (nk: nat)
  {
    if kind in {128128, 128192, 128256} then 4 else if kind in {192128, 192192, 192256} then 6 else 8
  }

  function BlockColumns(kind: int): (nb: nat)
    ensures BlockSize(nb)
  {
    if kind in {128128, 192128, 256128} then 4 else if kind in {128192, 192192, 256192} then 6 else 8
  }

  /** The number of rounds, from the switches of the key schedule and of the decryption. */
  function Rounds(kind: int): (n: nat)
  {
    if kind == 128128 then 10 else if kind in {128192, 192192, 192128} then 12 else 14
  }

  /** round_val of the encryption, which counts the rounds above ten. */
  function ExtraRounds(kind: int): (n: nat)
  {
    if kind == 128128 then 0 else if kind in {192128, 128192, 192192} then 2 else 4
  }

  /** The three switches agree, and the tables are large enough. */
  lemma KindsAgree(kind: int)
    requires Known(kind)
    ensures kind == 1000 * (32 * KeyColumns(kind)) + 32 * BlockColumns(kind)
    ensures Rounds(kind) == ExtraRounds(kind) + 10
    ensures BlockColumns(kind) * (Rounds(kind) + 1) <= 120
    ensures KeyColumns(kind) >= 4 && Rounds(kind) == 6 + if KeyColumns(kind) > BlockColumns(kind) then KeyColumns(kind) else BlockColumns(kind)
  {}

  // ---------------------------------------------------------------- the cipher as a function

  /** The state after the first i rounds. */
  function AfterRounds(s: State, nb: nat, w: Schedule, i: nat): (t: State)
    requires BlockSize(nb)
    decreases i
  {
    if i == 0 then AddKey(s, nb, w, 0) else AddKey(Mix(SubShift(AfterRounds(s, nb, w, i - 1), nb), nb), nb, w, i)
  }

  /** n rounds, the last of them without mixing the columns. */
  function Encrypted(s: State, nb: nat, w: Schedule, n: nat): (t: State)
    requires BlockSize(nb) && n > 0
  {
    AddKey(SubShift(AfterRounds(s, nb, w, n - 1), nb), nb, w, n)
  }

  /** The decryption down to round i. */
  function DownTo(s: State, nb: nat, w: Schedule, n: nat, i: nat): (t: State)
    requires BlockSize(nb) && 0 < i <= n
    decreases n - i
  {
    if i == n then InvShiftSub(AddKey(s, nb, w, n), nb)
    else InvShiftSub(InvMix(AddKey(DownTo(s, nb, w, n, i + 1), nb, w, i), nb), nb)
  }

  function Decrypted(s: State, nb: nat, w: Schedule, n: nat): (t: State)
    requires BlockSize(nb) && n > 0
  {
    AddKey(DownTo(s, nb, w, n, 1), nb, w, 0)
  }

  /** On the way down the decryption passes through the states of the encryption. */
  lemma {:induction false} DownMeetsUp(s: State, nb: nat, w: Schedule, n: nat, i: nat)
    requires BlockSize(nb) && 0 < i <= n
    ensures DownTo(Encrypted(s, nb, w, n), nb, w, n, i) == AfterRounds(s, nb, w, i - 1)
    decreases n - i
  {
    hide SubShift, InvShiftSub, Mix, InvMix, AddKey, BlockSize;
    var t := SubShift(AfterRounds(s, nb, w, i - 1), nb);
    SubShiftInverse(AfterRounds(s, nb, w, i - 1), nb);
    if i == n {
      AddKeyInverse(t, nb, w, n);
    } else {
      DownMeetsUp(s, nb, w, n, i + 1);
      AddKeyInverse(Mix(t, nb), nb, w, i);
      MixInverse(t, nb);
    }
  }

  /** Decrypting what was encrypted with the same round keys gives the block back. */
  lemma DecryptInverts(s: State, nb: nat, w: Schedule, n: nat)
    requires BlockSize(nb) && n > 0
    ensures Decrypted(Encrypted(s, nb, w, n), nb, w, n) == s
  {
    DownMeetsUp(s, nb, w, n, 1);
    hide SubShift, InvShiftSub, Mix, InvMix, AddKey, BlockSize, DownTo, Encrypted;
    AddKeyInverse(s, nb, w, 0);
  }

  // ---------------------------------------------------------------- the round steps, in place

  /** The table has the round keys w in its first columns. */
  ghost predicate Agrees(word: Schedule, w: Schedule, count: nat)
  {
    |word| == 4 && forall i, j :: 0 <= i < 4 && 0 <= j < count ==> AgreesHere(word, w, i, j)
  }

  ghost predicate AgreesHere(word: Schedule, w: Schedule, i: nat, j: nat)
  {
    i < |word| && j < |word[i]| && word[i][j] == KeyByte(w, i, j)
  }

  lemma AgreesAt(word: Schedule, w: Schedule, count: nat, i: nat, j: nat)
    requires Agrees(word, w, count) && i < 4 && j < count
    ensures |word| == 4 && j < |word[i]| && word[i][j] == KeyByte(w, i, j)
  {
    assert AgreesHere(word, w, i, j);
  }

  lemma ColumnInside(nb: nat, n: nat, j: nat, count: nat)
    requires j < nb && nb * (n + 1) <= count
    ensures 0 <= nb * n && j + nb * n < count
  {
    KeyPlace(nb, n);
  }

  lemma KeyPlace(nb: nat, n: nat)
    ensures 0 <= nb * n && nb * (n + 1) == nb * n + nb
  {}

  /** The first k bytes are new. */
  ghost predicate Partly(t: seq<Byte>, next: State, s: State, k: nat)
  {
    |t| == 32 && forall i :: 0 <= i < 32 ==> t[i] == if i < k then next[i] else s[i]
  }

  lemma AddKeyAt(s: State, nb: nat, w: Schedule, n: nat, r: nat, c: nat)
    requires r < 4 && c < nb <= 8
    ensures r + 4 * c < 32 && AddKey(s, nb, w, n)[r + 4 * c] == Xor8(s[r + 4 * c], KeyByte(w, r, c + nb * n))
  {
    RowColumn(r, c);
    hide KeyByte, Xor8;
  }

  lemma AddKeyRest(s: State, nb: nat, w: Schedule, n: nat)
    requires nb <= 8
    ensures Partly(AddKey(s, nb, w, n), AddKey(s, nb, w, n), s, 4 * nb)
  {}

  lemma PartlyEnds(t: seq<Byte>, next: State, s: State, k: nat)
    requires Partly(next, next, s, k)
    ensures Partly(s, next, s, 0) && (Partly(t, next, s, k) ==> t == next)
  {}

  /** AddRoundKey(statemt, type, n) */
  method AddRoundKey(st: array<Byte>, word: array<seq<Byte>>, nb: nat, n: nat, ghost w: Schedule, ghost count: nat)
    requires st.Length == 32 && BlockSize(nb) && Agrees(word[..], w, count) && nb * (n + 1) <= count
    modifies st
    ensures st[..] == AddKey(old(st[..]), nb, w, n)
  {
    hide *;
    ghost var s: State := st[..];
    ghost var next := AddKey(s, nb, w, n);
    SizeIs(nb);
    AddKeyRest(s, nb, w, n);
    PartlyEnds(s, next, s, 4 * nb);
    var j := 0;
    while j < nb
      invariant 0 <= j <= nb && Partly(st[..], next, s, 4 * j)
    {
      AddColumn(st, word, nb, n, j, w, count, s);
      j := j + 1;
    }
    PartlyEnds(st[..], next, s, 4 * nb);
  }

  lemma PartlyStep(t: seq<Byte>, u: seq<Byte>, next: State, s: State, k: nat)
    requires Partly(t, next, s, k) && k + 4 <= 32 && |u| == 32
    requires u[k] == next[k] && u[k + 1] == next[k + 1] && u[k + 2] == next[k + 2] && u[k + 3] == next[k + 3]
    requires forall i :: 0 <= i < 32 && !(k <= i < k + 4) ==> u[i] == t[i]
    ensures Partly(u, next, s, k + 4)
  {}

  lemma PartlyOld(t: seq<Byte>, next: State, s: State, k: nat)
    requires Partly(t, next, s, k) && k + 4 <= 32
    ensures |t| == 32 && t[k] == s[k] && t[k + 1] == s[k + 1] && t[k + 2] == s[k + 2] && t[k + 3] == s[k + 3]
  {}

  method AddColumn(st: array<Byte>, word: array<seq<Byte>>, nb: nat, n: nat, j: nat, ghost w: Schedule, ghost count: nat, ghost s: State)
    requires st.Length == 32 && j < nb <= 8 && Agrees(word[..], w, count) && nb * (n + 1) <= count
    requires Partly(st[..], AddKey(s, nb, w, n), s, 4 * j)
    modifies st
    ensures Partly(st[..], AddKey(s, nb, w, n), s, 4 * (j + 1))
  {
    hide *;
    ghost var next, t := AddKey(s, nb, w, n), st[..];
    var x := nb * n;
    ColumnInside(nb, n, j, count);
    PartlyOld(t, next, s, 4 * j);
    AddKeyAt(s, nb, w, n, 0, j);
    AddKeyAt(s, nb, w, n, 1, j);
    AddKeyAt(s, nb, w, n, 2, j);
    AddKeyAt(s, nb, w, n, 3, j);
    AgreesAt(word[..], w, count, 0, j + x);
    AgreesAt(word[..], w, count, 1, j + x);
    AgreesAt(word[..], w, count, 2, j + x);
    AgreesAt(word[..], w, count, 3, j + x);
    st[j * 4] := Xor8(st[j * 4], word[0][j + x]);
    st[1 + j * 4] := Xor8(st[1 + j * 4], word[1][j + x]);
    st[2 + j * 4] := Xor8(st[2 + j * 4], word[2][j + x]);
    st[3 + j * 4] := Xor8(st[3 + j * 4], word[3][j + x]);
    PartlyStep(t, st[..], next, s, 4 * j);
  }

  /** A mixed byte with its round key. */
  lemma MixKeyAt(s: State, nb: nat, w: Schedule, n: nat, r: nat, c: nat, i: nat, x: nat)
    requires r < 4 && c < nb && BlockSize(nb) && i == r + 4 * c && x == c + nb * n
    ensures i < 32 && Below(i, 1) < 32 && Below(i, 2) < 32 && Below(i, 3) < 32
    ensures AddKey(Mix(s, nb), nb, w, n)[i]
         == Xor8(Xor8(Times2(s[i]), Times3(s[Below(i, 1)])), Xor8(Xor8(s[Below(i, 2)], s[Below(i, 3)]), KeyByte(w, r, x)))
  {
    hide *;
    SmallBlock(nb, r, c);
    AddKeyAt(Mix(s, nb), nb, w, n, r, c);
    MixIs(s, nb, i);
    MixByteIs(s[i], s[Below(i, 1)], s[Below(i, 2)], s[Below(i, 3)]);
    XorLaws(Xor8(Times2(s[i]), Times3(s[Below(i, 1)])), Xor8(s[Below(i, 2)], s[Below(i, 3)]), KeyByte(w, r, x));
  }

  /** The other rows of column c. */
  lemma BelowColumn(c: nat)
    ensures Below(4 * c, 1) == 1 + 4 * c && Below(4 * c, 2) == 2 + 4 * c && Below(4 * c, 3) == 3 + 4 * c
    ensures Below(1 + 4 * c, 1) == 2 + 4 * c && Below(1 + 4 * c, 2) == 3 + 4 * c && Below(1 + 4 * c, 3) == 4 * c
    ensures Below(2 + 4 * c, 1) == 3 + 4 * c && Below(2 + 4 * c, 2) == 4 * c && Below(2 + 4 * c, 3) == 1 + 4 * c
    ensures Below(3 + 4 * c, 1) == 4 * c && Below(3 + 4 * c, 2) == 1 + 4 * c && Below(3 + 4 * c, 3) == 2 + 4 * c
  {
    hide *;
    BelowAt(0, c, 1);
    BelowAt(0, c, 2);
    BelowAt(0, c, 3);
    BelowAt(1, c, 1);
    BelowAt(1, c, 2);
    BelowAt(1, c, 3);
    BelowAt(2, c, 1);
    BelowAt(2, c, 2);
    BelowAt(2, c, 3);
    BelowAt(3, c, 1);
    BelowAt(3, c, 2);
    BelowAt(3, c, 3);
  }

  lemma SmallBlock(nb: nat, r: nat, c: nat)
    requires r < 4 && c < nb && BlockSize(nb)
    ensures nb <= 8 && r + 4 * c < 4 * nb <= 32
  {}

  lemma MixByteIs(a: Byte, b: Byte, c: Byte, d: Byte)
    ensures MixByte(a, b, c, d) == Xor8(Xor8(Times2(a), Times3(b)), Xor8(c, d))
  {}

  lemma MixRest(s: State, nb: nat, w: Schedule, n: nat)
    requires BlockSize(nb)
    ensures Partly(AddKey(Mix(s, nb), nb, w, n), AddKey(Mix(s, nb), nb, w, n), s, 4 * nb)
    ensures Partly(InvMix(s, nb), InvMix(s, nb), s, 4 * nb)
  {
    hide MixByte, InvMixByte, Xor8, KeyByte, Below;
  }

  /** MixColumn_AddRoundKey(statemt, nb, n) */
  method MixColumnAddRoundKey(st: array<Byte>, word: array<seq<Byte>>, nb: nat, n: nat, ghost w: Schedule, ghost count: nat)
    requires st.Length == 32 && BlockSize(nb) && Agrees(word[..], w, count) && nb * (n + 1) <= count
    modifies st
    ensures st[..] == AddKey(Mix(old(st[..]), nb), nb, w, n)
  {
    hide *;
    ghost var s: State := st[..];
    ghost var next := AddKey(Mix(s, nb), nb, w, n);
    SizeIs(nb);
    MixRest(s, nb, w, n);
    PartlyEnds(s, next, s, 4 * nb);
    var ret := new Byte[32](i requires 0 <= i < 32 reads st => st[i]);
    assert ret[..] == s;
    var j := 0;
    while j < nb
      invariant 0 <= j <= nb && Partly(ret[..], next, s, 4 * j) && st[..] == s
    {
      MixOneColumn(st, ret, word, nb, n, j, w, count, s);
      j := j + 1;
    }
    PartlyEnds(ret[..], next, s, 4 * nb);
    CopyColumns(st, ret, nb, next, s);
  }

  method MixOneColumn(st: array<Byte>, ret: array<Byte>, word: array<seq<Byte>>, nb: nat, n: nat, j: nat,
                      ghost w: Schedule, ghost count: nat, ghost s: State)
    requires st.Length == ret.Length == 32 && st != ret && j < nb && BlockSize(nb) && st[..] == s
    requires Agrees(word[..], w, count) && nb * (n + 1) <= count && Partly(ret[..], AddKey(Mix(s, nb), nb, w, n), s, 4 * j)
    modifies ret
    ensures Partly(ret[..], AddKey(Mix(s, nb), nb, w, n), s, 4 * (j + 1))
  {
    hide *;
    ghost var next, t := AddKey(Mix(s, nb), nb, w, n), ret[..];
    var x := nb * n;
    SizeIs(nb);
    ColumnInside(nb, n, j, count);
    BelowColumn(j);
    MixKeyAt(s, nb, w, n, 0, j, 4 * j, j + x);
    MixKeyAt(s, nb, w, n, 1, j, 1 + 4 * j, j + x);
    MixKeyAt(s, nb, w, n, 2, j, 2 + 4 * j, j + x);
    MixKeyAt(s, nb, w, n, 3, j, 3 + 4 * j, j + x);
    AgreesAt(word[..], w, count, 0, j + x);
    AgreesAt(word[..], w, count, 1, j + x);
    AgreesAt(word[..], w, count, 2, j + x);
    AgreesAt(word[..], w, count, 3, j + x);
    var a, b, c, d := st[j * 4], st[1 + j * 4], st[2 + j * 4], st[3 + j * 4];
    ret[j * 4] := Xor8(Xor8(Times2(a), Times3(b)), Xor8(Xor8(c, d), word[0][j + x]));
    ret[1 + j * 4] := Xor8(Xor8(Times2(b), Times3(c)), Xor8(Xor8(d, a), word[1][j + x]));
    ret[2 + j * 4] := Xor8(Xor8(Times2(c), Times3(d)), Xor8(Xor8(a, b), word[2][j + x]));
    ret[3 + j * 4] := Xor8(Xor8(Times2(d), Times3(a)), Xor8(Xor8(b, c), word[3][j + x]));
    PartlyStep(t, ret[..], next, s, 4 * j);
  }

  /** for (j = 0; j < nb; ++j) the four bytes of column j are copied back */
  method CopyColumns(st: array<Byte>, ret: array<Byte>, nb: nat, ghost next: State, ghost s: State)
    requires st.Length == ret.Length == 32 && st != ret && BlockSize(nb) && st[..] == s && ret[..] == next
    requires Partly(next, next, s, 4 * nb)
    modifies st
    ensures st[..] == next
  {
    hide *;
    SizeIs(nb);
    PartlyEnds(s, next, s, 4 * nb);
    var j := 0;
    while j < nb
      invariant 0 <= j <= nb && Partly(st[..], next, s, 4 * j) && ret[..] == next
    {
      ghost var t := st[..];
      st[j * 4] := ret[j * 4];
      st[1 + j * 4] := ret[1 + j * 4];
      st[2 + j * 4] := ret[2 + j * 4];
      st[3 + j * 4] := ret[3 + j * 4];
      PartlyStep(t, st[..], next, s, 4 * j);
      j := j + 1;
    }
    PartlyEnds(st[..], next, s, 4 * nb);
  }

  lemma PartlyOne(t: seq<Byte>, u: seq<Byte>, next: State, s: State, k: nat)
    requires Partly(t, next, s, k) && k < 32 && |u| == 32 && u[k] == next[k]
    requires forall i :: 0 <= i < 32 && i != k ==> u[i] == t[i]
    ensures Partly(u, next, s, k + 1)
  {}

  /** AddRoundKey_InversMixColumn(statemt, nb, n) */
  method AddRoundKeyInversMixColumn(st: array<Byte>, word: array<seq<Byte>>, nb: nat, n: nat, ghost w: Schedule, ghost count: nat)
    requires st.Length == 32 && BlockSize(nb) && Agrees(word[..], w, count) && nb * (n + 1) <= count
    modifies st
    ensures st[..] == InvMix(AddKey(old(st[..]), nb, w, n), nb)
  {
    hide *;
    AddRoundKey(st, word, nb, n, w, count);
    ghost var s: State := st[..];
    ghost var next := InvMix(s, nb);
    SizeIs(nb);
    MixRest(s, nb, w, n);
    PartlyEnds(s, next, s, 4 * nb);
    var ret := new Byte[32](i requires 0 <= i < 32 reads st => st[i]);
    assert ret[..] == s;
    var j := 0;
    while j < nb
      invariant 0 <= j <= nb && Partly(ret[..], next, s, 4 * j) && st[..] == s
    {
      var i := 0;
      while i < 4
        invariant 0 <= i <= 4 && Partly(ret[..], next, s, i + 4 * j) && st[..] == s
      {
        InvMixOne(st, ret, nb, i, j, s);
        i := i + 1;
      }
      j := j + 1;
    }
    PartlyEnds(ret[..], next, s, 4 * nb);
    CopyColumns(st, ret, nb, next, s);
  }

  /** The rows that the code takes with (i + 1) % 4 and so on. */
  lemma RowsBelow(nb: nat, i: nat, j: nat)
    requires i < 4 && j < nb && BlockSize(nb)
    ensures i + j * 4 < 32 && i + j * 4 < 4 * nb
    ensures (i + 1) % 4 + j * 4 == Below(i + 4 * j, 1) < 32 && (i + 2) % 4 + j * 4 == Below(i + 4 * j, 2) < 32
    ensures (i + 3) % 4 + j * 4 == Below(i + 4 * j, 3) < 32
  {
    SmallBlock(nb, i, j);
    BelowAt(i, j, 1);
    BelowAt(i, j, 2);
    BelowAt(i, j, 3);
    hide Below, BlockSize;
    BelowIs(i + 4 * j, 1, 0);
    BelowIs(i + 4 * j, 2, 0);
    BelowIs(i + 4 * j, 3, 0);
  }

  /** One byte of a column mixed back. */
  method InvMixOne(st: array<Byte>, ret: array<Byte>, nb: nat, i: nat, j: nat, ghost s: State)
    requires st.Length == ret.Length == 32 && st != ret && i < 4 && j < nb && BlockSize(nb) && st[..] == s
    requires Partly(ret[..], InvMix(s, nb), s, i + 4 * j)
    modifies ret
    ensures Partly(ret[..], InvMix(s, nb), s, i + 4 * j + 1)
  {
    hide *;
    ghost var t := ret[..];
    RowsBelow(nb, i, j);
    var k0, k1, k2, k3 := i + j * 4, (i + 1) % 4 + j * 4, (i + 2) % 4 + j * 4, (i + 3) % 4 + j * 4;
    MixIs(s, nb, k0);
    InvMixByteIs(st[k0], st[k1], st[k2], st[k3]);
    ret[k0] := Times14(st[k0]);
    ret[k0] := Xor8(ret[k0], Times11(st[k1]));
    ret[k0] := Xor8(ret[k0], Times13(st[k2]));
    ret[k0] := Xor8(ret[k0], Times9(st[k3]));
    PartlyOne(t, ret[..], InvMix(s, nb), s, k0);
  }
}
