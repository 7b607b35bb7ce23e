/** Encryption and decryption of one block, for the nine key and block sizes. */
module RijndaelCipher {
  import opened Bytes
  import opened Rijndael
  import opened RijndaelRows
  import opened RijndaelCode
  import opened RijndaelKeys

  /** The round keys that the key schedule leaves for a known type. */
  function RoundKeys(kind: int, key: seq<Byte>): (w: Schedule)
    requires Known(kind)
  {
    KindsAgree(kind);
    KeyTable(KeyColumns(kind), key, KeyCount(kind))
  }

  function KeyCount(kind: int): (n: nat)
  {
    BlockColumns(kind) * (Rounds(kind) + 1)
  }

  /** The block that encryption leaves. */
  function EncryptedBlock(kind: int, key: seq<Byte>, s: State): (t: State)
    requires Known(kind)
  {
    KindsAgree(kind);
    Encrypted(s, BlockColumns(kind), RoundKeys(kind, key), Rounds(kind))
  }

  /** The block that decryption leaves. */
  function DecryptedBlock(kind: int, key: seq<Byte>, s: State): (t: State)
    requires Known(kind)
  {
    KindsAgree(kind);
    Decrypted(s, BlockColumns(kind), RoundKeys(kind, key), Rounds(kind))
  }

  /** Decryption undoes encryption, for every type, key and block. */
  lemma RoundTrip(kind: int, key: seq<Byte>, s: State)
    requires Known(kind)
    ensures DecryptedBlock(kind, key, EncryptedBlock(kind, key, s)) == s
  {
    hide Rounds, BlockColumns, Known, RoundKeys, Encrypted, Decrypted;
    KindsAgree(kind);
    DecryptInverts(s, BlockColumns(kind), RoundKeys(kind, key), Rounds(kind));
  }

  lemma Sizes(kind: int)
    requires Known(kind)
    ensures BlockSize(BlockColumns(kind)) && Rounds(kind) == ExtraRounds(kind) + 10
  {}

  lemma EncryptedIs(kind: int, key: seq<Byte>, s: State)
    requires Known(kind)
    ensures BlockSize(BlockColumns(kind)) && Rounds(kind) > 0
    ensures EncryptedBlock(kind, key, s)
         == AddKey(SubShift(AfterRounds(s, BlockColumns(kind), RoundKeys(kind, key), Rounds(kind) - 1), BlockColumns(kind)),
                   BlockColumns(kind), RoundKeys(kind, key), Rounds(kind))
  {
    hide SubShift, AddKey, AfterRounds, RoundKeys;
  }

  lemma DecryptedIs(kind: int, key: seq<Byte>, s: State)
    requires Known(kind)
    ensures BlockSize(BlockColumns(kind)) && Rounds(kind) > 0
    ensures DecryptedBlock(kind, key, s)
         == AddKey(DownTo(s, BlockColumns(kind), RoundKeys(kind, key), Rounds(kind), 1), BlockColumns(kind), RoundKeys(kind, key), 0)
  {
    hide DownTo, AddKey, RoundKeys;
  }

  lemma AfterRoundsIs(s: State, nb: nat, w: Schedule, i: nat)
    requires BlockSize(nb)
    ensures AfterRounds(s, nb, w, 0) == AddKey(s, nb, w, 0)
    ensures i > 0 ==> AfterRounds(s, nb, w, i) == AddKey(Mix(SubShift(AfterRounds(s, nb, w, i - 1), nb), nb), nb, w, i)
  {
    hide SubShift, AddKey, Mix, BlockSize;
  }

  lemma DownToIs(s: State, nb: nat, w: Schedule, n: nat, i: nat)
    requires BlockSize(nb) && 0 < i <= n
    ensures DownTo(s, nb, w, n, n) == InvShiftSub(AddKey(s, nb, w, n), nb)
    ensures i < n ==> DownTo(s, nb, w, n, i) == InvShiftSub(InvMix(AddKey(DownTo(s, nb, w, n, i + 1), nb, w, i), nb), nb)
  {
    hide InvShiftSub, AddKey, InvMix, BlockSize;
  }

  /** Round i uses columns that the schedule has filled. */
  lemma RoundInside(kind: int, i: nat)
    requires Known(kind) && i <= Rounds(kind)
    ensures BlockColumns(kind) * (i + 1) <= KeyCount(kind)
  {
    Wider(BlockColumns(kind), i + 1, Rounds(kind) + 1);
    hide BlockColumns, Rounds;
  }

  lemma Wider(nb: nat, i: nat, n: nat)
    requires i <= n
    ensures nb * i <= nb * n
  {}

  lemma ScheduleIs(kind: int, key: seq<Byte>)
    requires Known(kind)
    ensures KeyColumns(kind) > 0
    ensures KeyTable(KeyColumns(kind), key, BlockColumns(kind) * (Rounds(kind) + 1)) == RoundKeys(kind, key)
    ensures BlockColumns(kind) * (Rounds(kind) + 1) == KeyCount(kind)
  {
    hide BlockColumns, Rounds, KeyTable, KeyColumns;
    KindsAgree(kind);
  }

  /** encrypt(statemt, key, type) */
  method Encrypt(st: array<Byte>, key: array<Byte>, word: array<seq<Byte>>, kind: int)
    requires Known(kind) && st.Length == 32 && key.Length == 32 && st != key && Shaped(word[..])
    modifies st, word
    ensures st[..] == EncryptedBlock(kind, key[..], old(st[..])) && Shaped(word[..])
  {
    hide *;
    ghost var s: State := st[..];
    ghost var w, count := RoundKeys(kind, key[..]), KeyCount(kind);
    var r := KeySchedule(word, kind, key);
    Sizes(kind);
    ScheduleIs(kind, key[..]);
    var nb, extra := BlockColumns(kind), ExtraRounds(kind);
    RoundInside(kind, 0);
    AddRoundKey(st, word, nb, 0, w, count);
    AfterRoundsIs(s, nb, w, 0);
    var i := 1;
    while i <= extra + 9
      invariant 1 <= i <= extra + 10 && Shaped(word[..]) && Agrees(word[..], w, count)
      invariant st[..] == AfterRounds(s, nb, w, i - 1)
    {
      RoundInside(kind, i);
      ByteSubShiftRow(st, nb);
      MixColumnAddRoundKey(st, word, nb, i, w, count);
      AfterRoundsIs(s, nb, w, i);
      i := i + 1;
    }
    RoundInside(kind, i);
    ByteSubShiftRow(st, nb);
    AddRoundKey(st, word, nb, i, w, count);
    EncryptedIs(kind, key[..], s);
  }

  /** decrypt(statemt, key, type) */
  method Decrypt(st: array<Byte>, key: array<Byte>, word: array<seq<Byte>>, kind: int)
    requires Known(kind) && st.Length == 32 && key.Length == 32 && st != key && Shaped(word[..])
    modifies st, word
    ensures st[..] == DecryptedBlock(kind, key[..], old(st[..])) && Shaped(word[..])
  {
    hide *;
    ghost var s: State := st[..];
    ghost var w, count := RoundKeys(kind, key[..]), KeyCount(kind);
    var r := KeySchedule(word, kind, key);
    Sizes(kind);
    ScheduleIs(kind, key[..]);
    var nb, n := BlockColumns(kind), Rounds(kind);
    RoundInside(kind, n);
    AddRoundKey(st, word, nb, n, w, count);
    InversShiftRowByteSub(st, nb);
    DownToIs(s, nb, w, n, n);
    var i := n - 1;
    while i >= 1
      invariant 0 <= i <= n - 1 && Shaped(word[..]) && Agrees(word[..], w, count)
      invariant st[..] == DownTo(s, nb, w, n, i + 1)
    {
      RoundInside(kind, i);
      AddRoundKeyInversMixColumn(st, word, nb, i, w, count);
      InversShiftRowByteSub(st, nb);
      DownToIs(s, nb, w, n, i);
      i := i - 1;
    }
    RoundInside(kind, 0);
    AddRoundKey(st, word, nb, 0, w, count);
    DecryptedIs(kind, key[..], s);
  }

  /** A block that is encrypted and then decrypted with the same key is the block itself. */
  method EncryptDecrypt(st: array<Byte>, key: array<Byte>, word: array<seq<Byte>>, kind: int)
    requires Known(kind) && st.Length == 32 && key.Length == 32 && st != key && Shaped(word[..])
    modifies st, word
    ensures st[..] == old(st[..])
  {
    hide *;
    ghost var s: State := st[..];
    Encrypt(st, key, word, kind);
    Decrypt(st, key, word, kind);
    RoundTrip(kind, key[..], s);
  }
}
