/** The key schedule: what it leaves in the table of round keys. */
module RijndaelKeys {
  import opened Bytes
  import opened Rijndael
  import opened RijndaelCode

  /** Rcon0[i] */
  function Rcon(i: nat): (v: bv8)
  {
    match i
    case 0 => 0x01 case 1 => 0x02 case 2 => 0x04 case 3 => 0x08
    case 4 => 0x10 case 5 => 0x20 case 6 => 0x40 case 7 => 0x80
    case 8 => 0x1b case 9 => 0x36 case 10 => 0x6c case 11 => 0xd8
    case 12 => 0xab case 13 => 0x4d case 14 => 0x9a case 15 => 0x2f
    case 16 => 0x5e case 17 => 0xbc case 18 => 0x63 case 19 => 0xc6
    case 20 => 0x97 case 21 => 0x35 case 22 => 0x6a case 23 => 0xd4
    case 24 => 0xb3 case 25 => 0x7d case 26 => 0xfa case 27 => 0xef
    case 28 => 0xc5 case _ => 0x91
  }

  type Column = c: seq<Byte> | |c| == 4 witness seq(4, i => seq(8, j => false))

  function ByteOr(b: seq<Byte>, i: nat): (r: Byte)
  {
    if i < |b| then b[i] else Bits8(0)
  }

  /** Column j of the key itself. */
  function FirstColumn(key: seq<Byte>, j: nat): (c: Column)
  {
    [ByteOr(key, 4 * j), ByteOr(key, 1 + 4 * j), ByteOr(key, 2 + 4 * j), ByteOr(key, 3 + 4 * j)]
  }

  function AddColumns(a: Column, b: Column): (c: Column)
  {
    [Xor8(a[0], b[0]), Xor8(a[1], b[1]), Xor8(a[2], b[2]), Xor8(a[3], b[3])]
  }

  function Substituted(c: Column): (t: Column)
  {
    [SubByte(c[0]), SubByte(c[1]), SubByte(c[2]), SubByte(c[3])]
  }

  function Rotated(c: Column): (t: Column)
  {
    [c[1], c[2], c[3], c[0]]
  }

  function WithConstant(c: Column, b: Byte): (t: Column)
  {
    [Xor8(c[0], b), c[1], c[2], c[3]]
  }

  /** The column before, rotated and substituted at the start of a group, substituted in the middle
      of a group of eight. */
  function Turned(nk: nat, j: nat, c: Column): (t: Column)
    requires 0 < nk <= j
  {
    if j % nk == 0 then WithConstant(Substituted(Rotated(c)), ByteOf(RconFor(nk, j)))
    else if nk > 6 && j % nk == 4 then Substituted(c)
    else c
  }

  function RconFor(nk: nat, j: nat): (v: bv8)
    requires 0 < nk <= j
  {
    GroupFor(nk, j);
    Rcon(j / nk - 1)
  }

  lemma GroupFor(nk: nat, j: nat)
    requires 0 < nk <= j
    ensures j / nk >= 1
  {}

  /** The table of constants is long enough. */
  lemma RconInside(nk: nat, j: nat)
    requires 4 <= nk <= j < 120
    ensures 0 <= j / nk - 1 < 29
  {}

  /** Column j of the key schedule, section 5.2 of FIPS 197 for any number of columns. */
  function KeyColumn(nk: nat, key: seq<Byte>, j: nat): (c: Column)
    requires nk > 0
    decreases j
  {
    if j < nk then FirstColumn(key, j)
    else AddColumns(KeyColumn(nk, key, j - nk), Turned(nk, j, KeyColumn(nk, key, j - 1)))
  }

  /** The round keys of a key, row by row. */
  function KeyTable(nk: nat, key: seq<Byte>, count: nat): (w: Schedule)
    requires nk > 0
  {
    [KeyRow(nk, key, count, 0), KeyRow(nk, key, count, 1), KeyRow(nk, key, count, 2), KeyRow(nk, key, count, 3)]
  }

  function KeyRow(nk: nat, key: seq<Byte>, count: nat, i: nat): (r: seq<Byte>)
    requires nk > 0 && i < 4
    ensures |r| == count
  {
    seq(count, j requires 0 <= j < count => KeyColumn(nk, key, j)[i])
  }

  lemma KeyTableAt(nk: nat, key: seq<Byte>, count: nat, i: nat, j: nat)
    requires nk > 0 && i < 4 && j < count
    ensures KeyByte(KeyTable(nk, key, count), i, j) == KeyColumn(nk, key, j)[i]
  {
    hide KeyColumn;
  }

  // ---------------------------------------------------------------- the method

  /** Column j of the table is c in its first i rows. */
  ghost predicate HasColumn(word: Schedule, j: nat, c: Column, i: nat)
    requires i <= 4
  {
    Shaped(word) && j < 120 && forall k :: 0 <= k < i ==> word[k][j] == c[k]
  }

  ghost predicate Shaped(word: Schedule)
  {
    |word| == 4 && forall i :: 0 <= i < 4 ==> |word[i]| == 120
  }

  ghost predicate Filled(word: Schedule, nk: nat, key: seq<Byte>, n: nat)
    requires nk > 0
  {
    Shaped(word) && forall j :: 0 <= j < n ==> HasColumn(word, j, KeyColumn(nk, key, j), 4)
  }

  lemma FilledAt(word: Schedule, nk: nat, key: seq<Byte>, n: nat, j: nat, c: Column)
    requires nk > 0 && Filled(word, nk, key, n) && j < n && c == KeyColumn(nk, key, j)
    ensures Shaped(word) && j < 120 && word[0][j] == c[0] && word[1][j] == c[1] && word[2][j] == c[2] && word[3][j] == c[3]
  {
    assert HasColumn(word, j, KeyColumn(nk, key, j), 4);
    hide KeyColumn;
  }

  /** A filled table agrees with the round keys. */
  lemma FilledAgrees(word: Schedule, nk: nat, key: seq<Byte>, n: nat)
    requires nk > 0 && Filled(word, nk, key, n)
    ensures Agrees(word, KeyTable(nk, key, n), n)
  {
    hide KeyColumn, KeyTable, KeyByte;
    forall i: nat, j: nat | 0 <= i < 4 && 0 <= j < n ensures AgreesHere(word, KeyTable(nk, key, n), i, j) {
      KeyTableAt(nk, key, n, i, j);
      assert HasColumn(word, j, KeyColumn(nk, key, j), 4);
    }
  }

  function SetByte(r: seq<Byte>, j: nat, b: Byte): (t: seq<Byte>)
    requires j < |r|
    ensures |t| == |r| && forall k :: 0 <= k < |r| ==> t[k] == if k == j then b else r[k]
  {
    r[..j] + [b] + r[j + 1..]
  }

  /** Only the byte in row i and column j differs. */
  ghost predicate OneByteSet(u: Schedule, t: Schedule, i: nat, j: nat, b: Byte)
    requires Shaped(t) && i < 4 && j < 120
  {
    |u| == 4 && u[i] == SetByte(t[i], j, b) && forall k :: 0 <= k < 4 && k != i ==> u[k] == t[k]
  }

  lemma FilledKeeps(t: Schedule, u: Schedule, nk: nat, key: seq<Byte>, n: nat, i: nat, j: nat, b: Byte)
    requires nk > 0 && Filled(t, nk, key, n) && i < 4 && n <= j < 120 && OneByteSet(u, t, i, j, b)
    ensures Filled(u, nk, key, n)
  {
    hide KeyColumn, Filled;
    FilledShaped(t, nk, key, n);
    ShapedKeeps(t, u, i, j, b);
    forall c: nat | 0 <= c < n ensures HasColumn(u, c, KeyColumn(nk, key, c), 4) {
      FilledColumn(t, nk, key, n, c);
    }
    FilledFrom(u, nk, key, n);
  }

  lemma ShapedKeeps(t: Schedule, u: Schedule, i: nat, j: nat, b: Byte)
    requires Shaped(t) && i < 4 && j < 120 && OneByteSet(u, t, i, j, b)
    ensures Shaped(u)
  {}

  lemma FilledColumn(t: Schedule, nk: nat, key: seq<Byte>, n: nat, c: nat)
    requires nk > 0 && Filled(t, nk, key, n) && c < n
    ensures Shaped(t) && HasColumn(t, c, KeyColumn(nk, key, c), 4)
  {}

  lemma FilledShaped(t: Schedule, nk: nat, key: seq<Byte>, n: nat)
    requires nk > 0 && Filled(t, nk, key, n)
    ensures Shaped(t)
  {}

  lemma FilledFrom(u: Schedule, nk: nat, key: seq<Byte>, n: nat)
    requires nk > 0 && Shaped(u) && forall c: nat :: c < n ==> HasColumn(u, c, KeyColumn(nk, key, c), 4)
    ensures Filled(u, nk, key, n)
  {}

  lemma FilledNext(u: Schedule, nk: nat, key: seq<Byte>, n: nat)
    requires nk > 0 && Filled(u, nk, key, n) && HasColumn(u, n, KeyColumn(nk, key, n), 4)
    ensures Filled(u, nk, key, n + 1)
  {}

  lemma HasColumnNone(t: Schedule, j: nat, c: Column)
    requires Shaped(t) && j < 120
    ensures HasColumn(t, j, c, 0)
  {}

  lemma HasColumnStep(t: Schedule, u: Schedule, j: nat, c: Column, i: nat, b: Byte)
    requires i < 4 && HasColumn(t, j, c, i) && OneByteSet(u, t, i, j, b) && b == c[i]
    ensures HasColumn(u, j, c, i + 1)
  {}

  lemma ShapedRow(t: Schedule)
    requires Shaped(t)
    ensures |t| == 4 && |t[0]| == |t[1]| == |t[2]| == |t[3]| == 120
  {}

  /** word[i][j] = b */
  method Store(word: array<seq<Byte>>, i: nat, j: nat, b: Byte)
    requires Shaped(word[..]) && i < 4 && j < 120
    modifies word
    ensures Shaped(old(word[..])) && OneByteSet(word[..], old(word[..]), i, j, b)
  {
    word[i] := SetByte(word[i], j, b);
  }

  /** The previous column as the code turns it, in temp. */
  method TurnColumn(word: array<seq<Byte>>, nk: nat, j: nat, ghost c: Column) returns (temp: array<Byte>)
    requires 4 <= nk <= j < 120 && Shaped(word[..])
    requires word[0][j - 1] == c[0] && word[1][j - 1] == c[1] && word[2][j - 1] == c[2] && word[3][j - 1] == c[3]
    ensures fresh(temp) && temp[..] == Turned(nk, j, c)
  {
    hide SubByte, Xor8, Rcon, Bits8, ByteOf;
    temp := new Byte[4](_ => Bits8(0));
    RconInside(nk, j);
    if j % nk == 0 {
      temp[0] := Xor8(SubByte(word[1][j - 1]), ByteOf(Rcon(j / nk - 1)));
      temp[1] := SubByte(word[2][j - 1]);
      temp[2] := SubByte(word[3][j - 1]);
      temp[3] := SubByte(word[0][j - 1]);
    }
    if j % nk != 0 {
      temp[0] := word[0][j - 1];
      temp[1] := word[1][j - 1];
      temp[2] := word[2][j - 1];
      temp[3] := word[3][j - 1];
    }
    if nk > 6 && j % nk == 4 {
      var i := 0;
      while i < 4
        invariant 0 <= i <= 4
        invariant forall k :: 0 <= k < 4 ==> temp[k] == if k < i then SubByte(c[k]) else c[k]
      {
        temp[i] := SubByte(temp[i]);
        i := i + 1;
      }
    }
  }

  lemma KeyColumnAt(nk: nat, key: seq<Byte>, j: nat)
    requires 0 < nk <= j
    ensures KeyColumn(nk, key, j) == AddColumns(KeyColumn(nk, key, j - nk), Turned(nk, j, KeyColumn(nk, key, j - 1)))
  {
    hide AddColumns, Turned;
  }

  lemma AddColumnsAt(a: Column, b: Column, i: nat)
    requires i < 4
    ensures AddColumns(a, b)[i] == Xor8(a[i], b[i])
  {
    hide Xor8;
  }

  /** One pass of the second loop. */
  method ExpandColumn(word: array<seq<Byte>>, nk: nat, j: nat, ghost key: seq<Byte>)
    requires 4 <= nk <= j < 120 && Filled(word[..], nk, key, j)
    modifies word
    ensures Filled(word[..], nk, key, j + 1)
  {
    hide *;
    ghost var p := KeyColumn(nk, key, j - 1);
    ghost var q := KeyColumn(nk, key, j - nk);
    ghost var c := KeyColumn(nk, key, j);
    FilledAt(word[..], nk, key, j, j - 1, p);
    ShapedRow(word[..]);
    var temp := TurnColumn(word, nk, j, p);
    ghost var turned := Turned(nk, j, p);
    KeyColumnAt(nk, key, j);
    HasColumnNone(word[..], j, c);
    var i := 0;
    while i < 4
      invariant 0 <= i <= 4 && temp[..] == turned
      invariant Filled(word[..], nk, key, j) && HasColumn(word[..], j, c, i)
    {
      ghost var t := word[..];
      FilledAt(t, nk, key, j, j - nk, q);
      ShapedRow(t);
      AddColumnsAt(q, turned, i);
      var b := Xor8(word[i][j - nk], temp[i]);
      Store(word, i, j, b);
      FilledKeeps(t, word[..], nk, key, j, i, j, b);
      HasColumnStep(t, word[..], j, c, i, b);
      i := i + 1;
    }
    FilledNext(word[..], nk, key, j);
  }

  lemma KeyColumnFirst(nk: nat, key: seq<Byte>, j: nat)
    requires j < nk <= 8 && |key| == 32
    ensures KeyColumn(nk, key, j) == [key[4 * j], key[1 + 4 * j], key[2 + 4 * j], key[3 + 4 * j]]
  {}

  lemma FilledNone(word: Schedule, nk: nat, key: seq<Byte>)
    requires nk > 0 && Shaped(word)
    ensures Filled(word, nk, key, 0)
  {}

  /** One pass of the first loop. */
  method CopyColumn(word: array<seq<Byte>>, nk: nat, j: nat, key: array<Byte>)
    requires 4 <= nk <= 8 && j < nk && key.Length == 32 && Filled(word[..], nk, key[..], j)
    modifies word
    ensures Filled(word[..], nk, key[..], j + 1)
  {
    hide *;
    ghost var c := KeyColumn(nk, key[..], j);
    KeyColumnFirst(nk, key[..], j);
    FilledShaped(word[..], nk, key[..], j);
    HasColumnNone(word[..], j, c);
    var i := 0;
    while i < 4
      invariant 0 <= i <= 4
      invariant Filled(word[..], nk, key[..], j) && HasColumn(word[..], j, c, i)
    {
      ghost var t := word[..];
      FilledShaped(t, nk, key[..], j);
      var b := key[i + j * 4];
      Store(word, i, j, b);
      FilledKeeps(t, word[..], nk, key[..], j, i, j, b);
      HasColumnStep(t, word[..], j, c, i, b);
      i := i + 1;
    }
    FilledNext(word[..], nk, key[..], j);
  }

  /** KeySchedule(type, key): the round keys of a known type, and nothing but the error for another. */
  method KeySchedule(word: array<seq<Byte>>, kind: int, key: array<Byte>) returns (r: int)
    requires Shaped(word[..]) && key.Length == 32
    modifies word
    ensures r == if Known(kind) then 0 else -1
    ensures Shaped(word[..]) && (!Known(kind) ==> word[..] == old(word[..]))
    ensures Known(kind) ==> Agrees(word[..], KeyTable(KeyColumns(kind), key[..], BlockColumns(kind) * (Rounds(kind) + 1)),
                                   BlockColumns(kind) * (Rounds(kind) + 1))
  {
    hide *;
    if !Known(kind) { return -1; }
    KindsAgree(kind);
    var nk, count := KeyColumns(kind), BlockColumns(kind) * (Rounds(kind) + 1);
    FilledNone(word[..], nk, key[..]);
    ColumnCounts(kind);
    var j := 0;
    while j < nk
      invariant 0 <= j <= nk && Filled(word[..], nk, key[..], j)
    {
      CopyColumn(word, nk, j, key);
      j := j + 1;
    }
    while j < count
      invariant nk <= j <= count && Filled(word[..], nk, key[..], j)
    {
      ExpandColumn(word, nk, j, key[..]);
      j := j + 1;
    }
    FilledAgrees(word[..], nk, key[..], count);
    FilledShaped(word[..], nk, key[..], count);
    return 0;
  }

  lemma ColumnCounts(kind: int)
    requires Known(kind)
    ensures 4 <= KeyColumns(kind) <= 8 && KeyColumns(kind) <= BlockColumns(kind) * (Rounds(kind) + 1) <= 120
  {}
}
