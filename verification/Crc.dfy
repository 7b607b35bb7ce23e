/** The CRC-CCITT of the benchmark: bit by bit, by table, and as the remainder of a division of
    polynomials over the field of two elements. Bits are listed with the highest first. */
module Crc {
  import opened BinaryAlgebra
  import opened Bytes
  import opened Numerals
  import opened Sequences
  import opened CrcDivision
  import Words

  // ---------------------------------------------------------------- words

  /** POLYNOMIAL, 0x1021 */
  function Polynomial(): (p: Word)
  {
    seq(16, i => i == 3 || i == 10 || i == 15)
  }

  /** INITIAL_REMAINDER, 0xFFFF */
  function InitialRemainder(): (r: Word)
  {
    seq(16, i => true)
  }

  /** data << (WIDTH - 8) */
  function AtTop(b: Byte): (w: Word)
  {
    b + Zero(8)
  }

  /** remainder >> (WIDTH - 8) */
  function Top(r: Word): (b: Byte)
  {
    r[..8]
  }

  /** remainder << 8, on 16 bits */
  function ShiftByte(r: Word): (s: Word)
  {
    r[8..] + Zero(8)
  }

  /** While the high bits are clear, the steps only shift. */
  lemma {:induction false} StepsShift(r: Word, n: nat)
    requires n <= 8 && forall i :: 0 <= i < n ==> !r[i]
    ensures Steps(Polynomial(), r, n) == r[n..] + Zero(n)
    decreases n
  {
    if n == 0 {
      assert r[0..] + Zero(0) == r;
    } else {
      assert Step(Polynomial(), r) == r[1..] + [false];
      StepsShift(Step(Polynomial(), r), n - 1);
      assert Step(Polynomial(), r)[n - 1..] + Zero(n - 1) == r[n..] + Zero(n);
    }
  }

  /** The table step is eight bit steps: the high byte and the message byte meet in the index, the low
      byte is only shifted. */
  lemma TableStep(r: Word, b: Byte)
    ensures Steps(Polynomial(), Plus(r, AtTop(b)), 8) == Plus(Steps(Polynomial(), AtTop(Plus(b, Top(r))), 8), ShiftByte(r))
  {
    var low: Word := Zero(8) + r[8..];
    assert Plus(r, AtTop(b)) == Plus(AtTop(Plus(b, Top(r))), low);
    StepsLinear(Polynomial(), AtTop(Plus(b, Top(r))), low, 8);
    StepsShift(low, 8);
    assert low[8..] + Zero(8) == ShiftByte(r);
  }

  // ---------------------------------------------------------------- the three computations

  /** The remainder after a message. */
  function CrcOf(r: Word, m: seq<Byte>): (s: Word)
    decreases |m|
  {
    if m == [] then r else Steps(Polynomial(), Plus(CrcOf(r, m[..|m| - 1]), AtTop(m[|m| - 1])), 8)
  }

  lemma CrcStep(r: Word, m: seq<Byte>, k: nat)
    requires k < |m|
    ensures CrcOf(r, m[..k + 1]) == Steps(Polynomial(), Plus(CrcOf(r, m[..k]), AtTop(m[k])), 8)
  {
    assert m[..k + 1][..k] == m[..k];
  }

  /** for (bit = 8; bit > 0; --bit) if (remainder & TOPBIT) ... else ... */
  method DivideByte(r: Word) returns (remainder: Word)
    ensures remainder == Steps(Polynomial(), r, 8)
  {
    hide Steps, ShiftLeft, Polynomial;
    remainder := r;
    var bit := 8;
    while bit > 0
      invariant 0 <= bit <= 8 && Steps(Polynomial(), remainder, bit) == Steps(Polynomial(), r, 8)
    {
      StepsOne(Polynomial(), remainder, bit);
      if remainder[0] {
        remainder := Plus(ShiftLeft(remainder), Polynomial());
      } else {
        remainder := ShiftLeft(remainder);
      }
      bit := bit - 1;
    }
    StepsOne(Polynomial(), remainder, 1);
  }

  /** crcSlow(message, nBytes) */
  method CrcSlow(m: seq<Byte>) returns (remainder: Word)
    ensures remainder == CrcOf(InitialRemainder(), m)
  {
    hide Steps, InitialRemainder;
    remainder := InitialRemainder();
    var byte := 0;
    while byte < |m|
      invariant 0 <= byte <= |m| && remainder == CrcOf(InitialRemainder(), m[..byte])
    {
      CrcStep(InitialRemainder(), m, byte);
      remainder := Plus(remainder, AtTop(m[byte]));
      remainder := DivideByte(remainder);
      byte := byte + 1;
    }
    assert m[..byte] == m;
  }

  /** The number of a byte, and the byte of a number; here the highest bit comes first. */
  function Value(b: Byte): (v: nat)
  {
    Number(Reversed(b))
  }

  function ByteOf(v: nat): (b: Byte)
  {
    Reversed(LowBits(v, 8))
  }

  lemma ByteOfValue(b: Byte)
    ensures Value(b) < 256 && ByteOf(Value(b)) == b
  {
    NumberBound(Reversed(b));
    assert Words.Pow2(8) == 256;
    BitsOfNumber(Reversed(b));
  }

  /** The table that crcInit leaves. */
  ghost predicate TableReady(table: seq<Word>, n: nat)
  {
    |table| == 256 && n <= 256 && forall d :: 0 <= d < n ==> table[d] == Steps(Polynomial(), AtTop(ByteOf(d)), 8)
  }

  lemma TableAt(table: seq<Word>, b: Byte)
    requires TableReady(table, 256)
    ensures Value(b) < |table| && table[Value(b)] == Steps(Polynomial(), AtTop(b), 8)
  {
    ByteOfValue(b);
    hide Steps, AtTop, ByteOf, Value;
  }

  /** crcInit() */
  method CrcInit(table: array<Word>)
    requires table.Length == 256
    modifies table
    ensures TableReady(table[..], 256)
  {
    hide Steps, AtTop, ByteOf;
    var dividend := 0;
    while dividend < 256
      invariant 0 <= dividend <= 256 && TableReady(table[..], dividend)
    {
      var remainder := DivideByte(AtTop(ByteOf(dividend)));
      table[dividend] := remainder;
      dividend := dividend + 1;
    }
  }

  /** crcFast(message, nBytes), after crcInit: the same remainder as crcSlow. */
  method CrcFast(table: array<Word>, m: seq<Byte>) returns (remainder: Word)
    requires TableReady(table[..], 256)
    ensures remainder == CrcOf(InitialRemainder(), m)
  {
    hide Steps, InitialRemainder, Top, AtTop, ShiftByte, Value, TableReady;
    remainder := InitialRemainder();
    var byte := 0;
    while byte < |m|
      invariant 0 <= byte <= |m| && remainder == CrcOf(InitialRemainder(), m[..byte])
    {
      CrcStep(InitialRemainder(), m, byte);
      TableStep(remainder, m[byte]);
      var data := Plus(m[byte], Top(remainder));
      TableAt(table[..], data);
      remainder := Plus(table[Value(data)], ShiftByte(remainder));
      byte := byte + 1;
    }
    assert m[..byte] == m;
  }

  function MessageBits(m: seq<Byte>): (b: Bits)
    ensures |b| == 8 * |m|
    decreases |m|
  {
    if m == [] then [] else MessageBits(m[..|m| - 1]) + m[|m| - 1]
  }

  /** The bytes of a message feed its bits, the highest bit of each byte first. */
  lemma {:induction false} BytesFed(r: Word, m: seq<Byte>)
    ensures CrcOf(r, m) == Fed(Polynomial(), r, MessageBits(m))
    decreases |m|
  {
    hide Steps, Fed;
    if m == [] {
      FedNone(r);
    } else {
      var k := |m| - 1;
      BytesFed(r, m[..k]);
      StepsFed(Polynomial(), CrcOf(r, m[..k]), m[k]);
      FedTwo(Polynomial(), r, MessageBits(m[..k]), m[k]);
    }
  }

  lemma FedNone(r: Word)
    ensures Fed(Polynomial(), r, []) == r
  {}

  /** The value of the two computations is the only remainder that the division by x^16 + x^12 + x^5 + 1 leaves of
      the message, with sixteen ones added to its first bits. */
  lemma CrcExactly(m: seq<Byte>, ones: Word, r: Word)
    requires forall i :: 0 <= i < 16 ==> ones[i]
    ensures LeftOver(12, 5, Dividend(ones, MessageBits(m)), r) <==> r == CrcOf(InitialRemainder(), m)
  {
    assert ones == InitialRemainder();
    assert Exponents(Polynomial(), 12, 5);
    hide *;
    BytesFed(ones, m);
    FedExactly(Polynomial(), 12, 5, ones, MessageBits(m), r);
  }
}
