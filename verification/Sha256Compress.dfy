/** The compression as the code performs it: a schedule of sixteen words that is rewritten in place,
    and eight variables whose roles rotate from round to round. */
module Sha256Compress {
  import opened BlockHash
  import opened Sha256Spec
  import opened Sha256Words

  lemma RoundIs(r: Regs, k: bv32, w: bv32)
    ensures Round(r, k, w) == Regs(Add(T1(r, k, w), T2(r)), r.a, r.b, r.c, Add(r.d, T1(r, k, w)), r.e, r.f, r.g)
    ensures T1(r, k, w) == Add(Add(Add(Add(r.h, BigSigma1(r.e)), Ch(r.e, r.f, r.g)), k), w)
    ensures T2(r) == Add(BigSigma0(r.a), Maj(r.a, r.b, r.c))
  {
    hide BigSigma0, BigSigma1, Ch, Maj;
  }

  /** ROUND(a, b, c, d, e, f, g, h, k, data): only d and h change, and in the order h, a, ..., g the
      variables are those of the next round. */
  method OneRound(a: bv32, b: bv32, c: bv32, d0: bv32, e: bv32, f: bv32, g: bv32, h0: bv32, k: bv32, data: bv32) returns (d: bv32, h: bv32)
    ensures Regs(h, a, b, c, d, e, f, g) == Round(Regs(a, b, c, d0, e, f, g, h0), k, data)
  {
    hide *;
    ghost var r := Regs(a, b, c, d0, e, f, g, h0);
    RoundIs(r, k, data);
    S1Is(e);
    S0Is(a);
    ChoiceIs(e, f, g);
    MajorityIs(a, b, c);
    h := Add(h0, Add(Add(Add(S1(e), Choice(e, f, g)), k), data));
    FiveAdded(h0, S1(e), Choice(e, f, g), k, data);
    d := Add(d0, h);
    h := Add(h, Add(S0(a), Majority(a, b, c)));
  }

  lemma RoundsStep(s: Regs, b: Block, t: nat, k: bv32, w: bv32)
    requires t < 64 && k == Constants()[t] && w == W(b, t)
    ensures Rounds(s, b, t + 1) == Round(Rounds(s, b, t), k, w)
  {
    hide Round, Constants, W;
  }

  /** Round t of the block b. */
  method RoundAt(a: bv32, b: bv32, c: bv32, d0: bv32, e: bv32, f: bv32, g: bv32, h0: bv32, k: seq<bv32>, t: nat, data: bv32,
                 ghost s: Regs, ghost block: Block) returns (d: bv32, h: bv32)
    requires k == Constants() && |k| == 64 && t < 64 && data == W(block, t)
    requires Regs(a, b, c, d0, e, f, g, h0) == Rounds(s, block, t)
    ensures Regs(h, a, b, c, d, e, f, g) == Rounds(s, block, t + 1)
  {
    hide *;
    d, h := OneRound(a, b, c, d0, e, f, g, h0, k[t], data);
    RoundsStep(s, block, t, k[t], data);
  }

  // ---------------------------------------------------------------- the schedule in place

  /** The sixteen words around place i + j: those before are already the new ones. */
  ghost predicate Window(data: seq<bv32>, b: Block, i: nat, j: nat)
    requires j <= 16
  {
    |data| == 16 && i >= 16 && forall l :: 0 <= l < 16 ==> data[l] == W(b, if l < j then i + l else i + l - 16)
  }

  lemma ScheduleIs(b: Block, t: nat)
    requires t >= 16
    ensures W(b, t) == Add(Add(Add(SmallSigma1(W(b, t - 2)), W(b, t - 7)), SmallSigma0(W(b, t - 15))), W(b, t - 16))
  {
    hide SmallSigma0, SmallSigma1, WordAt;
  }

  lemma WindowAt(data: seq<bv32>, b: Block, i: nat, j: nat)
    requires j < 16 && Window(data, b, i, j)
    ensures |data| == 16 && i + j >= 16 && data[j] == W(b, i + j - 16) && data[(j + 14) % 16] == W(b, i + j - 2)
    ensures data[(j + 9) % 16] == W(b, i + j - 7) && data[(j + 1) % 16] == W(b, i + j - 15)
  {
    hide W;
  }

  lemma WindowNext(data: seq<bv32>, next: seq<bv32>, b: Block, i: nat, j: nat)
    requires j < 16 && Window(data, b, i, j) && next == data[j := W(b, i + j)]
    ensures Window(next, b, i, j + 1)
  {
    hide W;
  }

  /** EXPAND(W, j) */
  method Expand(data: array<bv32>, j: nat, ghost b: Block, ghost i: nat) returns (w: bv32)
    requires j < 16 && Window(data[..], b, i, j)
    modifies data
    ensures Window(data[..], b, i, j + 1) && w == W(b, i + j)
  {
    hide *;
    ghost var t := data[..];
    WindowAt(t, b, i, j);
    ScheduleIs(b, i + j);
    Little0Is(data[(j + 1) % 16]);
    Little1Is(data[(j + 14) % 16]);
    FourAdded(data[j], Little1(data[(j + 14) % 16]), data[(j + 9) % 16], Little0(data[(j + 1) % 16]));
    data[j] := Add(data[j], Add(Add(Little1(data[(j + 14) % 16]), data[(j + 9) % 16]), Little0(data[(j + 1) % 16])));
    assert data[..] == t[j := W(b, i + j)];
    WindowNext(t, data[..], b, i, j);
    w := data[j];
  }

  ghost predicate FirstWords(data: seq<bv32>, b: Block, n: nat)
    requires n <= 16
  {
    |data| == 16 && forall l :: 0 <= l < n ==> data[l] == W(b, l)
  }

  /** Eight rounds on the words of the block itself. */
  method EightRounds(k: seq<bv32>, data: array<bv32>, i: nat, r: Regs, ghost s: Regs, ghost b: Block) returns (n: Regs)
    requires k == Constants() && |k| == 64 && i + 8 <= 16 && FirstWords(data[..], b, 16) && r == Rounds(s, b, i)
    ensures n == Rounds(s, b, i + 8)
  {
    hide *;
    FirstWordsAt(data[..], b, i);
    var A, B, C, D, E, F, G, H := r.a, r.b, r.c, r.d, r.e, r.f, r.g, r.h;
    D, H := RoundAt(A, B, C, D, E, F, G, H, k, i + 0, data[i + 0], s, b);
    C, G := RoundAt(H, A, B, C, D, E, F, G, k, i + 1, data[i + 1], s, b);
    B, F := RoundAt(G, H, A, B, C, D, E, F, k, i + 2, data[i + 2], s, b);
    A, E := RoundAt(F, G, H, A, B, C, D, E, k, i + 3, data[i + 3], s, b);
    H, D := RoundAt(E, F, G, H, A, B, C, D, k, i + 4, data[i + 4], s, b);
    G, C := RoundAt(D, E, F, G, H, A, B, C, k, i + 5, data[i + 5], s, b);
    F, B := RoundAt(C, D, E, F, G, H, A, B, k, i + 6, data[i + 6], s, b);
    E, A := RoundAt(B, C, D, E, F, G, H, A, k, i + 7, data[i + 7], s, b);
    n := Regs(A, B, C, D, E, F, G, H);
  }

  lemma FirstWordsAt(data: seq<bv32>, b: Block, i: nat)
    requires FirstWords(data, b, 16) && i + 8 <= 16
    ensures |data| == 16 && forall l :: i <= l < i + 8 ==> data[l] == W(b, l)
  {}

  /** ROUND(a, b, c, d, e, f, g, h, k[j], EXPAND(data, j)) */
  method ExpandRound(a: bv32, b: bv32, c: bv32, d0: bv32, e: bv32, f: bv32, g: bv32, h0: bv32, k: seq<bv32>, data: array<bv32>, j: nat,
                     i: nat, ghost s: Regs, ghost block: Block) returns (d: bv32, h: bv32)
    requires k == Constants() && |k| == 64 && j < 16 && i + 16 <= 64 && Window(data[..], block, i, j)
    requires Regs(a, b, c, d0, e, f, g, h0) == Rounds(s, block, i + j)
    modifies data
    ensures Window(data[..], block, i, j + 1) && Regs(h, a, b, c, d, e, f, g) == Rounds(s, block, i + j + 1)
  {
    hide *;
    var w := Expand(data, j, block, i);
    d, h := RoundAt(a, b, c, d0, e, f, g, h0, k, i + j, w, s, block);
  }

  /** Sixteen rounds, each of which makes the word that it uses. */
  method SixteenRounds(k: seq<bv32>, data: array<bv32>, i: nat, r: Regs, ghost s: Regs, ghost b: Block) returns (n: Regs)
    requires k == Constants() && |k| == 64 && i + 16 <= 64 && Window(data[..], b, i, 0) && r == Rounds(s, b, i)
    modifies data
    ensures n == Rounds(s, b, i + 16) && Window(data[..], b, i, 16)
  {
    hide *;
    var A, B, C, D, E, F, G, H := r.a, r.b, r.c, r.d, r.e, r.f, r.g, r.h;
    D, H := ExpandRound(A, B, C, D, E, F, G, H, k, data, 0, i, s, b);
    C, G := ExpandRound(H, A, B, C, D, E, F, G, k, data, 1, i, s, b);
    B, F := ExpandRound(G, H, A, B, C, D, E, F, k, data, 2, i, s, b);
    A, E := ExpandRound(F, G, H, A, B, C, D, E, k, data, 3, i, s, b);
    H, D := ExpandRound(E, F, G, H, A, B, C, D, k, data, 4, i, s, b);
    G, C := ExpandRound(D, E, F, G, H, A, B, C, k, data, 5, i, s, b);
    F, B := ExpandRound(C, D, E, F, G, H, A, B, k, data, 6, i, s, b);
    E, A := ExpandRound(B, C, D, E, F, G, H, A, k, data, 7, i, s, b);
    D, H := ExpandRound(A, B, C, D, E, F, G, H, k, data, 8, i, s, b);
    C, G := ExpandRound(H, A, B, C, D, E, F, G, k, data, 9, i, s, b);
    B, F := ExpandRound(G, H, A, B, C, D, E, F, k, data, 10, i, s, b);
    A, E := ExpandRound(F, G, H, A, B, C, D, E, k, data, 11, i, s, b);
    H, D := ExpandRound(E, F, G, H, A, B, C, D, k, data, 12, i, s, b);
    G, C := ExpandRound(D, E, F, G, H, A, B, C, k, data, 13, i, s, b);
    F, B := ExpandRound(C, D, E, F, G, H, A, B, k, data, 14, i, s, b);
    E, A := ExpandRound(B, C, D, E, F, G, H, A, k, data, 15, i, s, b);
    n := Regs(A, B, C, D, E, F, G, H);
  }

  // ---------------------------------------------------------------- the compression

  function RegsOf(s: seq<bv32>): (r: Regs)
    requires |s| == 8
  {
    Regs(s[0], s[1], s[2], s[3], s[4], s[5], s[6], s[7])
  }

  lemma FirstWindow(data: seq<bv32>, b: Block)
    requires FirstWords(data, b, 16)
    ensures Window(data, b, 16, 0)
  {
    hide W;
  }

  lemma NextWindow(data: seq<bv32>, b: Block, i: nat)
    requires Window(data, b, i, 16)
    ensures Window(data, b, i + 16, 0)
  {
    hide W;
  }

  lemma FirstWordsStep(data: seq<bv32>, next: seq<bv32>, b: Block, n: nat)
    requires n < 16 && FirstWords(data, b, n) && next == data[n := WordAt(b, 4 * n)]
    ensures FirstWords(next, b, n + 1)
  {
    hide WordAt;
  }

  lemma FirstWordsNone(data: seq<bv32>, b: Block)
    requires |data| == 16
    ensures FirstWords(data, b, 0)
  {}

  /** for (i = 0; i < SHA256_DATA_LENGTH; i++, input += 4) data[i] = READ_UINT32(input) */
  method ReadWords(data: array<bv32>, b: Block)
    requires data.Length == 16
    modifies data
    ensures FirstWords(data[..], b, 16)
  {
    hide *;
    FirstWordsNone(data[..], b);
    var i := 0;
    while i < 16
      invariant 0 <= i <= 16 && FirstWords(data[..], b, i)
    {
      ghost var t := data[..];
      data[i] := WordAt(b, 4 * i);
      assert data[..] == t[i := WordAt(b, 4 * i)];
      FirstWordsStep(t, data[..], b, i);
      i := i + 1;
    }
  }

  lemma RoundsStart(s: Regs, b: Block)
    ensures Rounds(s, b, 0) == s
    ensures Compressed(s, b) == AddRegs(s, Rounds(s, b, RoundCount()))
  {
    hide AddRegs, Round;
  }

  lemma AddRegsIs(s: Regs, r: Regs)
    ensures AddRegs(s, r) == Regs(Add(s.a, r.a), Add(s.b, r.b), Add(s.c, r.c), Add(s.d, r.d), Add(s.e, r.e), Add(s.f, r.f), Add(s.g, r.g), Add(s.h, r.h))
  {}

  /** _nettle_sha256_compress(state, input, K) */
  method Compress(state: array<bv32>, b: Block)
    requires state.Length == 8
    modifies state
    ensures RegsOf(state[..]) == Compressed(old(RegsOf(state[..])), b)
  {
    hide *;
    RegsOfIs(state[..]);
    ghost var s := RegsOf(state[..]);
    var k := Constants();
    var data := new bv32[16](_ => 0);
    ReadWords(data, b);
    var r := Regs(state[0], state[1], state[2], state[3], state[4], state[5], state[6], state[7]);
    RoundsStart(s, b);
    var i := 0;
    while i < 16
      invariant (i == 0 || i == 8 || i == 16) && r == Rounds(s, b, i) && FirstWords(data[..], b, 16)
      invariant fresh(data) && RegsOf(state[..]) == s
    {
      r := EightRounds(k, data, i, r, s, b);
      i := i + 8;
    }
    FirstWindow(data[..], b);
    while i < 64
      invariant (i == 16 || i == 32 || i == 48 || i == 64) && r == Rounds(s, b, i) && Window(data[..], b, i, 0)
      invariant fresh(data) && RegsOf(state[..]) == s
    {
      r := SixteenRounds(k, data, i, r, s, b);
      NextWindow(data[..], b, i);
      i := i + 16;
    }
    AddState(state, r);
  }

  /** state[0] += A; and so on */
  method AddState(state: array<bv32>, r: Regs)
    requires state.Length == 8
    modifies state
    ensures RegsOf(state[..]) == AddRegs(old(RegsOf(state[..])), r)
  {
    hide *;
    RegsOfIs(state[..]);
    AddRegsIs(RegsOf(state[..]), r);
    state[0] := Add(state[0], r.a);
    state[1] := Add(state[1], r.b);
    state[2] := Add(state[2], r.c);
    state[3] := Add(state[3], r.d);
    state[4] := Add(state[4], r.e);
    state[5] := Add(state[5], r.f);
    state[6] := Add(state[6], r.g);
    state[7] := Add(state[7], r.h);
    RegsOfIs(state[..]);
  }

  lemma RegsOfIs(s: seq<bv32>)
    requires |s| == 8
    ensures RegsOf(s) == Regs(s[0], s[1], s[2], s[3], s[4], s[5], s[6], s[7])
  {}
}
