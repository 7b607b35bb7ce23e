/** The constant-time sorting network shared, up to the word type, by int32_sort, uint64_sort
    and uint16_sort: Batcher's merge exchange for an arbitrary number of elements. */
module SortNetwork {
  import opened Words
  import opened Arithmetic

  // ---------------------------------------------------------------- compare and exchange

  /** The three instances of the network. */
  datatype Kind = Int32 | UInt64 | UInt16 {
    function Width(): (w: nat)
    {
      match this case Int32 => 32 case UInt64 => 64 case UInt16 => 16
    }

    /** The values the word type can hold. */
    predicate Holds(v: int)
    {
      if Int32? then -0x8000_0000 <= v < 0x8000_0000 else 0 <= v < Pow2(Width())
    }

    /** The values on which the macro of this instance is a compare and exchange: every int32,
        but only the lower half of the unsigned types. */
    predicate InRange(v: int)
    {
      Holds(v) && v < Pow2(Width() - 1)
    }
  }

  /** Two's complement. */
  function Pattern(w: nat, v: int): (u: nat)
    ensures u < Pow2(w)
  {
    v % Pow2(w)
  }

  function Signed(w: nat, u: nat): (v: int)
    requires w > 0
  {
    if u < Pow2(w - 1) then u else u - Pow2(w)
  }

  /** The unsigned macro: the sign of the wrapped difference becomes the exchange mask. */
  function UnsignedMinMax(w: nat, a: nat, b: nat): (r: (nat, nat))
    requires w > 0
  {
    var difference := (b - a) % Pow2(w);
    var top := difference / Pow2(w - 1);
    var mask := (-top) % Pow2(w);
    var c := And(w, mask, Xor(w, a, b));
    (Xor(w, a, c), Xor(w, b, c))
  }

  /** The signed macro corrects the sign of the difference for overflow first. */
  function SignedMinMax(w: nat, a: int, b: int): (r: (int, int))
    requires w > 0
  {
    var ua, ub := Pattern(w, a), Pattern(w, b);
    var ab := Xor(w, ub, ua);
    var c := (ub - ua) % Pow2(w);
    var corrected := Xor(w, c, And(w, ab, Xor(w, c, ub)));
    var mask := if corrected >= Pow2(w - 1) then Pow2(w) - 1 else 0; // arithmetic shift by w - 1
    var exchange := And(w, mask, ab);
    (Signed(w, Xor(w, ua, exchange)), Signed(w, Xor(w, ub, exchange)))
  }

  function MinMax(kind: Kind, a: int, b: int): (r: (int, int))
    requires kind.Holds(a) && kind.Holds(b)
  {
    if kind.Int32? then SignedMinMax(32, a, b) else UnsignedMinMax(kind.Width(), a, b)
  }

  function Min(a: int, b: int): int { if b < a then b else a }

  function Max(a: int, b: int): int { if b < a then a else b }

  /** The exchange mask is zero or all ones, so a pair is kept or exchanged as a whole. */
  lemma MaskedExchange(w: nat, a: nat, b: nat, mask: nat)
    requires a < Pow2(w) && b < Pow2(w)
    requires mask == 0 || mask == Pow2(w) - 1
    ensures var c := And(w, mask, Xor(w, a, b));
            (Xor(w, a, c), Xor(w, b, c)) == if mask == 0 then (a, b) else (b, a)
    ensures Xor(w, a, b) == Xor(w, b, a)
  {
    XorBounds(w, a, b);
    AndMask(w, Xor(w, a, b));
    XorExchanges(w, a, b);
    XorZero(w, a);
    XorZero(w, b);
    XorCommutes(w, a, b);
    if w == 0 { assert Pow2(w) == 1; }
  }

  lemma {:induction false} XorCommutes(w: nat, a: nat, b: nat)
    ensures Xor(w, a, b) == Xor(w, b, a)
  {
    if w > 0 { XorCommutes(w - 1, a / 2, b / 2); }
  }

  /** The unsigned macro exchanges exactly when the wrapped difference has its top bit set. */
  lemma UnsignedMinMaxExchanges(w: nat, a: nat, b: nat)
    requires w > 0 && a < Pow2(w) && b < Pow2(w)
    ensures UnsignedMinMax(w, a, b)
         == if (b - a) % Pow2(w) >= Pow2(w - 1) then (b, a) else (a, b)
  {
    SignMask(w, (b - a) % Pow2(w));
    MaskedExchange(w, a, b, (-((b - a) % Pow2(w) / Pow2(w - 1))) % Pow2(w));
  }

  /** Negating the top bit of a word spreads it over the whole word. */
  lemma SignMask(w: nat, d: nat)
    requires w > 0 && d < Pow2(w)
    ensures (-(d / Pow2(w - 1))) % Pow2(w) == if d >= Pow2(w - 1) then Pow2(w) - 1 else 0
  {
    var half := Pow2(w - 1);
    assert Pow2(w) == 2 * half;
    if d >= half {
      QuotientUnique(half, 1, d - half);
      QuotientUnique(Pow2(w), -1, Pow2(w) - 1);
      assert Pow2(w) * -1 + (Pow2(w) - 1) == -1;
    } else {
      QuotientUnique(half, 0, d);
      QuotientUnique(Pow2(w), 0, 0);
    }
  }

  lemma WrappedDifference(w: nat, a: nat, b: nat)
    requires a < Pow2(w) && b < Pow2(w)
    ensures (b - a) % Pow2(w) == if b < a then b - a + Pow2(w) else b - a
  {
    QuotientUnique(Pow2(w), if b < a then -1 else 0, if b < a then b - a + Pow2(w) else b - a);
  }

  /** The unsigned macro yields minimum and maximum exactly when the operands are close: less
      than half the word range apart, or exactly half with the larger one first. */
  lemma UnsignedMinMaxExact(w: nat, a: nat, b: nat)
    requires w > 0 && a < Pow2(w) && b < Pow2(w)
    ensures UnsignedMinMax(w, a, b) == (Min(a, b), Max(a, b))
       <==> (a <= b ==> b - a < Pow2(w - 1)) && (b < a ==> a - b <= Pow2(w - 1))
  {
    UnsignedMinMaxExchanges(w, a, b);
    WrappedDifference(w, a, b);
  }

  lemma SignedMinMaxExact(w: nat, a: int, b: int)
    requires w > 0
    requires -Pow2(w - 1) <= a < Pow2(w - 1) && -Pow2(w - 1) <= b < Pow2(w - 1)
    ensures SignedMinMax(w, a, b) == (Min(a, b), Max(a, b))
  {
    var ua, ub := Pattern(w, a), Pattern(w, b);
    PatternValue(w, a);
    PatternValue(w, b);
    CorrectedSign(w, ua, ub);
    var ab, c := Xor(w, ub, ua), (ub - ua) % Pow2(w);
    var corrected := Xor(w, c, And(w, ab, Xor(w, c, ub)));
    hide Xor, And, Pow2, Pattern;
    MaskedExchange(w, ua, ub, if corrected >= Pow2(w - 1) then Pow2(w) - 1 else 0);
  }

  /** The corrected sign bit says whether the second operand is the smaller one. */
  lemma CorrectedSign(w: nat, ua: nat, ub: nat)
    requires w > 0 && ua < Pow2(w) && ub < Pow2(w)
    ensures var c := (ub - ua) % Pow2(w);
            Xor(w, c, And(w, Xor(w, ub, ua), Xor(w, c, ub))) >= Pow2(w - 1) <==> Signed(w, ub) < Signed(w, ua)
  {
    assert Pow2(w) == 2 * Pow2(w - 1);
    hide Xor, And, Pow2;
    var ab, c := Xor(w, ub, ua), (ub - ua) % Pow2(w);
    WrappedDifference(w, ua, ub);
    XorBounds(w, ub, ua);
    XorBounds(w, c, ub);
    AndBounds(w, ab, Xor(w, c, ub));
    TopBits(w, ub, ua);
    TopBits(w, c, ub);
    TopBits(w, ab, Xor(w, c, ub));
    TopBits(w, c, And(w, ab, Xor(w, c, ub)));
  }

  lemma PatternValue(w: nat, v: int)
    requires w > 0 && -Pow2(w - 1) <= v < Pow2(w - 1)
    ensures Pattern(w, v) == if v < 0 then v + Pow2(w) else v
    ensures Signed(w, Pattern(w, v)) == v
  {
    QuotientUnique(Pow2(w), if v < 0 then -1 else 0, if v < 0 then v + Pow2(w) else v);
  }

  /** On its range, each macro is a compare and exchange. */
  lemma MinMaxExact(kind: Kind, a: int, b: int)
    requires kind.InRange(a) && kind.InRange(b)
    ensures kind.Holds(a) && kind.Holds(b)
    ensures MinMax(kind, a, b) == (Min(a, b), Max(a, b))
  {
    Pow2Values();
    if kind.Int32? {
      SignedMinMaxExact(32, a, b);
    } else {
      UnsignedMinMaxExact(kind.Width(), a, b);
    }
  }

  /** Beyond that range the unsigned macros fail: at every width this pair comes out reversed. */
  lemma UnsignedMinMaxReverses(w: nat)
    requires w > 0
    ensures UnsignedMinMax(w, 0, Pow2(w - 1)) == (Pow2(w - 1), 0)
  {
    UnsignedMinMaxExchanges(w, 0, Pow2(w - 1));
    WrappedDifference(w, 0, Pow2(w - 1));
  }

  // ---------------------------------------------------------------- the network, stage by stage

  /** i & p == 0, for a power of two p. */
  predicate Clear(i: int, p: int)
    requires p > 0
  {
    (i / p) % 2 == 0
  }

  /** The distances visited by halving: a power of two times `p`. */
  ghost predicate Doubling(p: nat, r: nat)
    decreases r
  {
    p > 0 && (r == p || (r > p && r % 2 == 0 && Doubling(p, r / 2)))
  }

  lemma Parity(i: int, p: nat, k: int)
    requires p > 0
    ensures Clear(i + p, p) <==> !Clear(i, p)
    ensures Clear(i + 2 * p * k, p) <==> Clear(i, p)
  {
    ShiftQuotient(i, p, 1);
    ShiftQuotient(i, p, 2 * k);
    assert p * (2 * k) == 2 * p * k;
  }

  lemma {:induction false} DoublingMultiple(p: nat, r: nat) returns (k: nat)
    requires Doubling(p, r)
    ensures r == p * k && k > 0
    decreases r
  {
    if r == p {
      k := 1;
    } else {
      var h := DoublingMultiple(p, r / 2);
      k := 2 * h;
    }
  }

  /** Moving by a distance that is a multiple of 2p keeps the p bit; moving by p flips it. */
  lemma ParityAt(i: int, p: nat, r: nat)
    requires p > 0 && Doubling(2 * p, r)
    ensures Clear(i + r, p) <==> Clear(i, p)
    ensures Clear(i - r, p) <==> Clear(i, p)
    ensures Clear(i + p, p) <==> !Clear(i, p)
    ensures Clear(i - p, p) <==> !Clear(i, p)
    ensures i >= 0 && !Clear(i, p) ==> i >= p
  {
    if 0 <= i < p { QuotientUnique(p, 0, i); }
    var k := DoublingMultiple(2 * p, r);
    hide Clear, Doubling;
    Parity(i, p, k);
    Parity(i - r, p, k);
    Parity(i - p, p, 0);
  }

  /** First pass of phase p: exchange (i, i + p) wherever the p bit of i is clear. */
  function Pairs(s: seq<int>, p: nat): (t: seq<int>)
    requires p > 0
    ensures |t| == |s|
  {
    seq(|s|, j requires 0 <= j < |s| => PairsAt(s, p, j))
  }

  function PairsAt(s: seq<int>, p: nat, j: nat): int
    requires p > 0 && j < |s|
  {
    if Clear(j, p) then (if j + p < |s| then Min(s[j], s[j + p]) else s[j])
    else if j >= p then Max(s[j - p], s[j])
    else s[j]
  }

  /** One merge stage of phase p: exchange (i + p, i + r) wherever the p bit of i is clear. */
  function Stage(s: seq<int>, p: nat, r: nat): (t: seq<int>)
    requires p > 0 && r > p
    ensures |t| == |s|
  {
    seq(|s|, j requires 0 <= j < |s| => StageAt(s, p, r, j))
  }

  function StageAt(s: seq<int>, p: nat, r: nat, j: nat): int
    requires p > 0 && r > p && j < |s|
  {
    if Clear(j, p) then (if j >= r then Max(s[j - r + p], s[j]) else s[j])
    else if j >= p && j - p + r < |s| then Min(s[j], s[j - p + r])
    else s[j]
  }

  /** The stages at distances top, top/2, ..., r, in this order. */
  function Stages(s: seq<int>, p: nat, top: nat, r: nat): (t: seq<int>)
    requires p > 0 && r > p
    ensures |t| == |s|
    decreases top - r
  {
    if r > top then s else Stage(Stages(s, p, top, 2 * r), p, r)
  }

  /** Every subsequence at stride p is sorted. */
  ghost predicate Ordered(s: seq<int>, p: nat)
  {
    forall i, j :: 0 <= i < |s| && 0 <= j < |s| && j == i + p ==> s[i] <= s[j]
  }

  /** The invariant of a phase: sorted at stride 2p, pairs in order, and each upper half of a
      pair at most the lower half at distance R from its partner. */
  ghost predicate Merging(s: seq<int>, p: nat, R: nat)
    requires p > 0
  {
    && Ordered(s, 2 * p)
    && (forall i, j :: 0 <= i < |s| && 0 <= j < |s| && j == i + p && Clear(i, p) ==> s[i] <= s[j])
    && (forall i, j :: p <= i < |s| && 0 <= j < |s| && j == i - p + R && !Clear(i, p) ==> s[i] <= s[j])
  }

  lemma {:induction false} OrderedSteps(s: seq<int>, d: nat, j: nat, k: nat)
    requires d > 0 && Ordered(s, d) && j + d * k < |s|
    ensures s[j] <= s[j + d * k]
    decreases k
  {
    if k > 0 {
      var i := j + d * (k - 1);
      assert i + d == j + d * k;
      OrderedSteps(s, d, j, k - 1);
    }
  }

  lemma OrderedAt(s: seq<int>, d: nat, r: nat, j: nat)
    requires d > 0 && Doubling(d, r) && Ordered(s, d) && j + r < |s|
    ensures s[j] <= s[j + r]
  {
    var k := DoublingMultiple(d, r);
    OrderedSteps(s, d, j, k);
  }

  lemma PairsMerging(s: seq<int>, p: nat, R: nat)
    requires p > 0 && Ordered(s, 2 * p) && R >= |s|
    ensures Merging(Pairs(s, p), p, R)
  {
    hide Clear, Doubling;
    DoublingBase(2 * p);
    var t := Pairs(s, p);
    forall i, j | 0 <= i < |s| && 0 <= j < |s| && j == i + 2 * p ensures t[i] <= t[j] {
      ParityAt(i, p, 2 * p);
    }
    forall i, j | 0 <= i < |s| && 0 <= j < |s| && j == i + p && Clear(i, p) ensures t[i] <= t[j] {
      ParityAt(i, p, 2 * p);
    }
  }

  lemma StageOrdered(s: seq<int>, p: nat, r: nat, j: nat)
    requires p > 0 && r >= 2 * p && Doubling(2 * p, r) && Ordered(s, 2 * p) && j + 2 * p < |s|
    ensures StageAt(s, p, r, j) <= StageAt(s, p, r, j + 2 * p)
  {
    hide Clear, Doubling;
    DoublingBase(2 * p);
    ParityAt(j, p, 2 * p);
  }

  lemma StagePaired(s: seq<int>, p: nat, r: nat, j: nat)
    requires p > 0 && r >= 2 * p && Doubling(2 * p, r) && Merging(s, p, 2 * r) && j + p < |s| && Clear(j, p)
    ensures StageAt(s, p, r, j) <= StageAt(s, p, r, j + p)
  {
    hide Clear, Doubling;
    ParityAt(j, p, r);
    if j + r < |s| { OrderedAt(s, 2 * p, r, j); }
    if j >= r {
      ParityAt(j - r, p, r);
      OrderedAt(s, 2 * p, r, j - r + p);
    }
  }

  lemma StageCrossed(s: seq<int>, p: nat, r: nat, i: nat)
    requires p > 0 && r >= 2 * p && Doubling(2 * p, r) && p <= i < |s| && i - p + r < |s| && !Clear(i, p)
    ensures StageAt(s, p, r, i) <= StageAt(s, p, r, i - p + r)
  {
    hide Clear, Doubling;
    ParityAt(i, p, r);
    ParityAt(i - p, p, r);
  }

  lemma StageMerging(s: seq<int>, p: nat, r: nat)
    requires p > 0 && Doubling(2 * p, r) && Merging(s, p, 2 * r)
    ensures r > p && Merging(Stage(s, p, r), p, r)
  {
    DoublingBound(2 * p, r);
    StageOrderedAll(s, p, r);
    StagePairedAll(s, p, r);
    StageCrossedAll(s, p, r);
    hide *;
    MergingFrom(Stage(s, p, r), p, r);
  }

  lemma StageOrderedAll(s: seq<int>, p: nat, r: nat)
    requires p > 0 && r >= 2 * p && Doubling(2 * p, r) && Merging(s, p, 2 * r)
    ensures Ordered(Stage(s, p, r), 2 * p)
  {
    var t := Stage(s, p, r);
    assert forall j :: 0 <= j < |s| ==> t[j] == StageAt(s, p, r, j);
    hide Clear, Doubling, StageAt, Stage;
    forall i, j | 0 <= i < |s| && 0 <= j < |s| && j == i + 2 * p ensures t[i] <= t[j] {
      StageOrdered(s, p, r, i);
    }
  }

  lemma StagePairedAll(s: seq<int>, p: nat, r: nat)
    requires p > 0 && r >= 2 * p && Doubling(2 * p, r) && Merging(s, p, 2 * r)
    ensures var t := Stage(s, p, r);
            forall i, j :: 0 <= i < |t| && 0 <= j < |t| && j == i + p && Clear(i, p) ==> t[i] <= t[j]
  {
    var t := Stage(s, p, r);
    assert forall j :: 0 <= j < |s| ==> t[j] == StageAt(s, p, r, j);
    hide *;
    forall i, j | 0 <= i < |s| && 0 <= j < |s| && j == i + p && Clear(i, p) ensures t[i] <= t[j] {
      StagePaired(s, p, r, i);
    }
  }

  lemma StageCrossedAll(s: seq<int>, p: nat, r: nat)
    requires p > 0 && r >= 2 * p && Doubling(2 * p, r) && Merging(s, p, 2 * r)
    ensures var t := Stage(s, p, r);
            forall i, j :: p <= i < |t| && 0 <= j < |t| && j == i - p + r && !Clear(i, p) ==> t[i] <= t[j]
  {
    var t := Stage(s, p, r);
    assert forall j :: 0 <= j < |s| ==> t[j] == StageAt(s, p, r, j);
    hide *;
    forall i, j | p <= i < |s| && 0 <= j < |s| && j == i - p + r && !Clear(i, p) ensures t[i] <= t[j] {
      StageCrossed(s, p, r, i);
    }
  }

  lemma MergingFrom(s: seq<int>, p: nat, R: nat)
    requires p > 0 && Ordered(s, 2 * p)
    requires forall i, j :: 0 <= i < |s| && 0 <= j < |s| && j == i + p && Clear(i, p) ==> s[i] <= s[j]
    requires forall i, j :: p <= i < |s| && 0 <= j < |s| && j == i - p + R && !Clear(i, p) ==> s[i] <= s[j]
    ensures Merging(s, p, R)
  {}

  /** All stages of phase p turn stride 2p order into stride p order. */
  lemma {:induction false} StagesMerging(s: seq<int>, p: nat, top: nat, r: nat)
    requires p > 0 && Doubling(2 * p, r) && r > p
    requires Merging(s, p, 2 * top) && Doubling(2 * p, 2 * top) && r <= 2 * top
    ensures Merging(Stages(s, p, top, r), p, r)
    decreases top - r
  {
    if r <= top {
      DoublingStep(2 * p, r);
      DoublingOrder(2 * p, r, 2 * top);
      StagesMerging(s, p, top, 2 * r);
      StageMerging(Stages(s, p, top, 2 * r), p, r);
    } else {
      DoublingOrder(2 * p, r, 2 * top);
    }
  }

  lemma DoublingBase(p: nat)
    requires p > 0
    ensures Doubling(p, p)
  {}

  lemma DoublingStep(p: nat, r: nat)
    requires Doubling(p, r)
    ensures Doubling(p, 2 * r)
  {}

  /** Powers of two times p are at least a factor of two apart. */
  lemma {:induction false} DoublingOrder(p: nat, r: nat, t: nat)
    requires Doubling(p, r) && Doubling(p, t) && r <= t
    ensures r == t || 2 * r <= t
    decreases t
  {
    if r == p {
      if t != p { DoublingBound(p, t / 2); }
    } else if t != p {
      DoublingOrder(p, r / 2, t / 2);
    }
  }

  lemma {:induction false} DoublingBound(p: nat, t: nat)
    requires Doubling(p, t)
    ensures t >= p
  {}

  /** A whole phase: from stride 2p order to stride p order. */
  function Phase(s: seq<int>, p: nat, top: nat): (t: seq<int>)
    requires p > 0
  {
    Stages(Pairs(s, p), p, top, 2 * p)
  }

  /** A phase turns stride 2p order into stride p order, for any number of elements up to 2 top. */
  lemma PhaseOrders(s: seq<int>, p: nat, top: nat)
    requires Doubling(p, top) && |s| <= 2 * top && Ordered(s, 2 * p)
    ensures |Phase(s, p, top)| == |s| && Ordered(Phase(s, p, top), p)
  {
    PairsMerging(s, p, 2 * top);
    DoublingBase(2 * p);
    DoublingTwice(p, top);
    DoublingBound(p, top);
    StagesMerging(Pairs(s, p), p, top, 2 * p);
    hide *;
    MergedOrders(Phase(s, p, top), p);
  }

  /** Once the merge has reached distance 2p, neighbours at stride p are in order. */
  lemma MergedOrders(s: seq<int>, p: nat)
    requires p > 0 && Merging(s, p, 2 * p)
    ensures Ordered(s, p)
  {
    hide Clear;
    forall i, j | 0 <= i < |s| && 0 <= j < |s| && j == i + p ensures s[i] <= s[j] {
      DoublingBase(2 * p);
      ParityAt(i, p, 2 * p);
    }
  }

  lemma {:induction false} DoublingTwice(p: nat, t: nat)
    requires Doubling(p, t)
    ensures Doubling(2 * p, 2 * t)
    decreases t
  {
    if t != p { DoublingTwice(p, t / 2); }
  }

  lemma DoublingUp(p: nat, t: nat)
    requires Doubling(p, t) && t > p
    ensures Doubling(2 * p, t)
  {
    DoublingTwice(p, t / 2);
  }

  // ---------------------------------------------------------------- the order the code uses

  /** The code runs all distances r for one i before moving to the next i. When it has finished
      the indices below i, the lower element at distance d above i has been through the stages
      down to this one. */
  ghost function Level(d: int, r: nat, top: nat): (R: nat)
    requires r > 0
    decreases top - r
  {
    if r <= top && r <= d then Level(d, 2 * r, top) else r
  }

  lemma {:induction false} LevelIs(d: int, r: nat, top: nat, R: nat)
    requires Doubling(r, R) && (R > d || R > top) && (R == r || (R / 2 <= d && R / 2 <= top))
    ensures Level(d, r, top) == R
    decreases top - r
  {
    if R != r {
      DoublingBound(r, R / 2);
      DoublingUp(r, R);
      LevelIs(d, 2 * r, top, R);
    }
  }

  lemma {:induction false} LevelFacts(d: int, r: nat, top: nat)
    requires r > 0
    ensures var R := Level(d, r, top);
            Doubling(r, R) && (R > d || R > top) && (R == r || (R / 2 <= d && R / 2 <= top && Doubling(r, R / 2)))
    decreases top - r
  {
    if r <= top && r <= d {
      LevelFacts(d, 2 * r, top);
      DoublingDown(r, Level(d, 2 * r, top));
    }
  }

  lemma {:induction false} DoublingDown(p: nat, t: nat)
    requires p > 0 && Doubling(2 * p, t)
    ensures Doubling(p, t) && Doubling(p, t / 2) && t > p
    decreases t
  {
    if t != 2 * p { DoublingDown(p, t / 2); }
  }

  /** Only at a distance that is one of the strides does the level change. */
  lemma LevelSteps(d: int, r: nat, top: nat)
    requires r > 0
    ensures 0 < d <= top && Doubling(r, d) ==> Level(d, r, top) == 2 * d && Level(d - 1, r, top) == d
    ensures !(0 < d <= top && Doubling(r, d)) ==> Level(d - 1, r, top) == Level(d, r, top)
  {
    if 0 < d <= top && Doubling(r, d) {
      DoublingStep(r, d);
      LevelIs(d, r, top, 2 * d);
      LevelIs(d - 1, r, top, d);
    } else {
      LevelFacts(d, r, top);
      LevelIs(d - 1, r, top, Level(d, r, top));
    }
  }

  /** Stages whose distance reaches past the end leave an upper element alone. */
  lemma {:induction false} HighStagesSkip(s: seq<int>, p: nat, top: nat, r: nat, i: nat)
    requires p > 0 && r > p && i + p < |s| && Clear(i, p) && i + r >= |s|
    ensures Stages(s, p, top, r)[i + p] == s[i + p]
    decreases top - r
  {
    Parity(i, p, 0);
    if r <= top { HighStagesSkip(s, p, top, 2 * r, i); }
  }

  // ---------------------------------------------------------------- the code

  ghost predicate AllInRange(kind: Kind, s: seq<int>)
  {
    forall j :: 0 <= j < |s| ==> kind.InRange(s[j])
  }

  ghost predicate Permutes(s: seq<int>, t: seq<int>)
  {
    multiset(s) == multiset(t)
  }

  lemma PermutesReflexive(s: seq<int>)
    ensures Permutes(s, s)
  {}

  lemma PermutesTransitive(s: seq<int>, t: seq<int>, u: seq<int>)
    requires Permutes(s, t) && Permutes(t, u)
    ensures Permutes(s, u)
  {}

  /** MINMAX on two elements of a sequence. */
  function Exchanged(s: seq<int>, i: nat, j: nat): (t: seq<int>)
    requires i < |s| && j < |s|
    ensures |t| == |s|
  {
    s[i := Min(s[i], s[j])][j := Max(s[i], s[j])]
  }

  lemma ExchangedFrom(s: seq<int>, t: seq<int>, i: nat, j: nat)
    requires i < |s| == |t| && j < |s| && i != j
    requires t[i] == Min(s[i], s[j]) && t[j] == Max(s[i], s[j])
    requires forall k :: 0 <= k < |s| && k != i && k != j ==> t[k] == s[k]
    ensures t == Exchanged(s, i, j)
  {}

  lemma ExchangePermutes(s: seq<int>, i: nat, j: nat)
    requires i < |s| && j < |s| && i != j
    ensures Permutes(s, Exchanged(s, i, j))
  {}

  lemma ExchangeCorrect(kind: Kind, s: seq<int>, i: nat, j: nat)
    requires i < |s| && j < |s| && i != j && AllInRange(kind, s)
    ensures kind.Holds(s[i]) && kind.Holds(s[j])
    ensures MinMax(kind, s[i], s[j]) == (Exchanged(s, i, j)[i], Exchanged(s, i, j)[j])
    ensures AllInRange(kind, Exchanged(s, i, j))
  {
    MinMaxExact(kind, s[i], s[j]);
  }

  /** The array outside the n elements from lo on. The C functions get a pointer to an element
      and a count; here that is the array with lo and n. */
  ghost predicate SameOutside(s: seq<int>, t: seq<int>, lo: nat, n: nat)
  {
    |s| == |t| && lo + n <= |s| && s[..lo] == t[..lo] && s[lo + n..] == t[lo + n..]
  }

  lemma SameOutsideTransitive(s: seq<int>, t: seq<int>, u: seq<int>, lo: nat, n: nat)
    requires SameOutside(s, t, lo, n) && SameOutside(t, u, lo, n)
    ensures SameOutside(s, u, lo, n)
  {}

  lemma UpdateInside(s: seq<int>, lo: nat, n: nat, i: nat, v: int)
    requires lo + n <= |s| && i < n
    ensures s[lo + i := v][lo..lo + n] == s[lo..lo + n][i := v]
    ensures SameOutside(s, s[lo + i := v], lo, n)
  {}

  /** x[i] = v, for the element at lo + i. */
  method Store(x: array<int>, lo: nat, n: nat, i: nat, v: int)
    requires lo + n <= x.Length && i < n
    modifies x
    ensures x[lo..lo + n] == old(x[lo..lo + n])[i := v]
    ensures SameOutside(old(x[..]), x[..], lo, n)
  {
    ghost var s := x[..];
    UpdateInside(s, lo, n, i, v);
    assert s[lo..lo + n] == x[lo..lo + n];
    x[lo + i] := v;
    assert x[..] == s[lo + i := v];
    assert x[..][lo..lo + n] == x[lo..lo + n];
  }

  /** MINMAX(x[i], x[j]). */
  method Exchange(kind: Kind, x: array<int>, lo: nat, n: nat, i: nat, j: nat)
    requires lo + n <= x.Length && i < n && j < n && i != j && AllInRange(kind, x[lo..lo + n])
    modifies x
    ensures x[lo..lo + n] == Exchanged(old(x[lo..lo + n]), i, j) && AllInRange(kind, x[lo..lo + n])
    ensures SameOutside(old(x[..]), x[..], lo, n)
  {
    ghost var s, t := x[..], x[lo..lo + n];
    ExchangeCorrect(kind, t, i, j);
    assert t[i] == x[lo + i] && t[j] == x[lo + j];
    hide *;
    var e := MinMax(kind, x[lo + i], x[lo + j]);
    Store(x, lo, n, i, e.0);
    ghost var u := x[..];
    Store(x, lo, n, j, e.1);
    SameOutsideTransitive(s, u, x[..], lo, n);
    ExchangedIs(t, i, j);
  }

  lemma ExchangedIs(s: seq<int>, i: nat, j: nat)
    requires i < |s| && j < |s| && i != j
    ensures Exchanged(s, i, j) == s[i := Exchanged(s, i, j)[i]][j := Exchanged(s, i, j)[j]]
  {}

  /** The first pass of a phase, once the indices below i are done. */
  ghost function PairsUpTo(s: seq<int>, p: nat, i: int): (t: seq<int>)
    requires p > 0
    ensures |t| == |s|
  {
    seq(|s|, j requires 0 <= j < |s| =>
      if (if Clear(j, p) then j else j - p) < i then PairsAt(s, p, j) else s[j])
  }

  lemma PairsStart(s: seq<int>, p: nat)
    requires p > 0
    ensures PairsUpTo(s, p, 0) == s
    ensures |s| - p <= 0 ==> Pairs(s, p) == s
  {
    forall j | 0 <= j < |s| ensures PairsUpTo(s, p, 0)[j] == s[j] && (|s| <= p ==> Clear(j, p)) {
      if j < p { QuotientUnique(p, 0, j); }
    }
  }

  lemma PairsStep(s: seq<int>, p: nat, i: nat)
    requires p > 0 && i + p < |s|
    ensures PairsUpTo(s, p, i + 1)
         == if Clear(i, p) then Exchanged(PairsUpTo(s, p, i), i, i + p) else PairsUpTo(s, p, i)
  {
    Parity(i, p, 0);
    Parity(i - p, p, 0);
    hide Clear;
    var t, u := PairsUpTo(s, p, i), PairsUpTo(s, p, i + 1);
    assert forall j :: 0 <= j < |s| && j != i && j != i + p ==> t[j] == u[j];
  }

  lemma PairsEnd(s: seq<int>, p: nat)
    requires p > 0 && |s| - p >= 0
    ensures PairsUpTo(s, p, |s| - p) == Pairs(s, p)
  {}

  lemma {:induction false} PairsUpToPermutes(s: seq<int>, p: nat, i: nat)
    requires p > 0 && i + p <= |s|
    ensures Permutes(s, PairsUpTo(s, p, i))
  {
    hide *;
    if i == 0 {
      PairsStart(s, p);
      PermutesReflexive(s);
    } else {
      PairsUpToPermutes(s, p, i - 1);
      PairsStep(s, p, i - 1);
      ExchangePermutes(PairsUpTo(s, p, i - 1), i - 1, i - 1 + p);
      PermutesTransitive(s, PairsUpTo(s, p, i - 1), PairsUpTo(s, p, i));
    }
  }

  /** The first pass only moves elements around. */
  lemma PairsPermutes(s: seq<int>, p: nat)
    requires p > 0
    ensures Permutes(s, Pairs(s, p))
  {
    PairsStart(s, p);
    if p <= |s| {
      PairsUpToPermutes(s, p, |s| - p);
      PairsEnd(s, p);
    }
  }

  /** The first pass of a phase. */
  method ExchangePairs(kind: Kind, x: array<int>, lo: nat, n: nat, p: nat)
    requires p > 0 && lo + n <= x.Length && AllInRange(kind, x[lo..lo + n])
    modifies x
    ensures x[lo..lo + n] == Pairs(old(x[lo..lo + n]), p)
    ensures SameOutside(old(x[..]), x[..], lo, n)
  {
    hide *;
    ghost var before, s := x[..], x[lo..lo + n];
    var i := 0;
    PairsStart(s, p);
    SameOutsideReflexive(before, lo, n);
    while i < n - p
      invariant 0 <= i && (i <= n - p || (i == 0 && n < p))
      invariant x[lo..lo + n] == PairsUpTo(s, p, i) && AllInRange(kind, x[lo..lo + n])
      invariant SameOutside(before, x[..], lo, n)
    {
      PairsStep(s, p, i);
      if Clear(i, p) {
        ghost var now := x[..];
        Exchange(kind, x, lo, n, i, i + p);
        SameOutsideTransitive(before, now, x[..], lo, n);
      }
      i := i + 1;
    }
    if n - p >= 0 { PairsEnd(s, p); }
  }

  lemma SameOutsideReflexive(s: seq<int>, lo: nat, n: nat)
    requires lo + n <= |s|
    ensures SameOutside(s, s, lo, n)
  {}

  /** What position j holds once all indices below i are finished. */
  ghost function FinishedAt(s: seq<int>, p: nat, top: nat, i: int, j: nat): int
    requires p > 0 && j < |s|
  {
    if Clear(j, p) then Stages(s, p, top, LevelFrom(j - i, p, top))[j]
    else if j - p < i then Stages(s, p, top, 2 * p)[j]
    else s[j]
  }

  ghost function LevelFrom(d: int, p: nat, top: nat): (R: nat)
    requires p > 0
    ensures R > p
  {
    LevelFacts(d, 2 * p, top);
    DoublingBound(2 * p, Level(d, 2 * p, top));
    Level(d, 2 * p, top)
  }

  ghost function Finished(s: seq<int>, p: nat, top: nat, i: int): (t: seq<int>)
    requires p > 0
    ensures |t| == |s|
  {
    seq(|s|, j requires 0 <= j < |s| => FinishedAt(s, p, top, i, j))
  }

  /** In the middle of index i: distances above r have been compared, and the register with the
      upper element has been through their stages. */
  ghost function PartialAt(s: seq<int>, p: nat, top: nat, i: nat, r: nat, j: nat): int
    requires 0 < p <= r && j < |s|
  {
    if j == i + p then Stages(s, p, top, 2 * r)[j]
    else if Clear(j, p) && j - i > r then FinishedAt(s, p, top, i + 1, j)
    else FinishedAt(s, p, top, i, j)
  }

  ghost function Partial(s: seq<int>, p: nat, top: nat, i: nat, r: nat): (t: seq<int>)
    requires 0 < p <= r
    ensures |t| == |s|
  {
    seq(|s|, j requires 0 <= j < |s| => PartialAt(s, p, top, i, r, j))
  }

  lemma UpperElement(s: seq<int>, p: nat, top: nat, i: nat)
    requires p > 0 && i + p < |s| && Clear(i, p)
    ensures !Clear(i + p, p)
    ensures FinishedAt(s, p, top, i, i + p) == s[i + p]
    ensures FinishedAt(s, p, top, i + 1, i + p) == Stages(s, p, top, 2 * p)[i + p]
  {
    Parity(i, p, 0);
  }

  /** An index with its p bit set has no comparisons. */
  lemma FinishedSkips(s: seq<int>, p: nat, top: nat, i: nat)
    requires p > 0 && !Clear(i, p)
    ensures Finished(s, p, top, i + 1) == Finished(s, p, top, i)
  {
    forall j | 0 <= j < |s| ensures FinishedAt(s, p, top, i + 1, j) == FinishedAt(s, p, top, i, j) {
      FinishedSkipsAt(s, p, top, i, j);
    }
  }

  lemma FinishedSkipsAt(s: seq<int>, p: nat, top: nat, i: nat, j: nat)
    requires p > 0 && !Clear(i, p) && j < |s|
    ensures FinishedAt(s, p, top, i + 1, j) == FinishedAt(s, p, top, i, j)
  {
    LevelSteps(j - i, 2 * p, top);
    if j > i && Doubling(2 * p, j - i) { ParityAt(i, p, j - i); }
    Parity(j - p, p, 0);
  }

  /** Before the first distance, and after the last, an index is at one of the two ends. */
  lemma PartialEnds(s: seq<int>, p: nat, top: nat, q: nat, i: nat)
    requires p > 0 && Clear(i, p) && Doubling(2 * p, q) && q <= top && i + q < |s| <= i + 2 * q
    ensures q > p && Partial(s, p, top, i, q) == Finished(s, p, top, i)
    ensures Partial(s, p, top, i, p) == Finished(s, p, top, i + 1)
  {
    DoublingBound(2 * p, q);
    UpperElement(s, p, top, i);
    HighStagesSkip(s, p, top, 2 * q, i);
    hide Clear, FinishedAt;
    forall j | 0 <= j < |s|
      ensures PartialAt(s, p, top, i, q, j) == FinishedAt(s, p, top, i, j)
      ensures PartialAt(s, p, top, i, p, j) == FinishedAt(s, p, top, i + 1, j)
    {
      if j != i + p { PartialEndsAt(s, p, top, q, i, j); }
    }
  }

  lemma PartialEndsAt(s: seq<int>, p: nat, top: nat, q: nat, i: nat, j: nat)
    requires 0 < p < q && Doubling(2 * p, q) && q <= top && j < |s| <= i + 2 * q && Clear(i, p) && j != i + p
    ensures PartialAt(s, p, top, i, q, j) == FinishedAt(s, p, top, i, j)
    ensures PartialAt(s, p, top, i, p, j) == FinishedAt(s, p, top, i + 1, j)
  {
    LevelSteps(j - i, 2 * p, top);
    if j - i > q && Doubling(2 * p, j - i) { DoublingOrder(2 * p, q, j - i); }
    assert !Clear(j, p) ==> j - p != i;
  }

  /** One comparison: exactly the register and the element at distance r change. */
  lemma PartialSteps(s: seq<int>, p: nat, top: nat, i: nat, r: nat)
    requires 0 < p < r && Doubling(2 * p, r) && r <= top && i + r < |s| && Clear(i, p)
    ensures r / 2 >= p && (r / 2 == p || Doubling(2 * p, r / 2))
    ensures Partial(s, p, top, i, r / 2) == Exchanged(Partial(s, p, top, i, r), i + p, i + r)
  {
    DoublingBound(2 * p, r);
    assert 2 * (r / 2) == r;
    PartialStepsRegister(s, p, top, i, r);
    PartialStepsOthers(s, p, top, i, r);
    hide Clear, Doubling, PartialAt, Stages;
    ExchangedFrom(Partial(s, p, top, i, r), Partial(s, p, top, i, r / 2), i + p, i + r);
  }

  lemma PartialStepsOthers(s: seq<int>, p: nat, top: nat, i: nat, r: nat)
    requires 0 < p < r && Doubling(2 * p, r) && r / 2 >= p && Clear(i, p)
    ensures forall j :: 0 <= j < |s| && j != i + p && j != i + r ==>
      Partial(s, p, top, i, r / 2)[j] == Partial(s, p, top, i, r)[j]
  {
    hide Clear, Doubling, PartialAt, Stages;
    forall j | 0 <= j < |s| && j != i + p && j != i + r
      ensures Partial(s, p, top, i, r / 2)[j] == Partial(s, p, top, i, r)[j]
    {
      PartialStepsAt(s, p, top, i, r, j);
    }
  }

  lemma PartialStepsAt(s: seq<int>, p: nat, top: nat, i: nat, r: nat, j: nat)
    requires 0 < p < r && Doubling(2 * p, r) && r / 2 >= p && j < |s| && Clear(i, p)
    requires j != i + p && j != i + r
    ensures PartialAt(s, p, top, i, r / 2, j) == PartialAt(s, p, top, i, r, j)
  {
    LevelSteps(j - i, 2 * p, top);
    if r / 2 < j - i < r && Doubling(2 * p, j - i) { DoublingOrder(2 * p, j - i, r); }
  }

  lemma PartialStepsRegister(s: seq<int>, p: nat, top: nat, i: nat, r: nat)
    requires 0 < p < r && Doubling(2 * p, r) && r <= top && i + r < |s| && Clear(i, p) && r / 2 >= p && 2 * (r / 2) == r
    ensures var a, b := PartialAt(s, p, top, i, r, i + p), PartialAt(s, p, top, i, r, i + r);
            PartialAt(s, p, top, i, r / 2, i + p) == Min(a, b) && PartialAt(s, p, top, i, r / 2, i + r) == Max(a, b)
  {
    ParityAt(i, p, r);
    LevelSteps(r, 2 * p, top);
    assert LevelFrom(r, p, top) == 2 * r && LevelFrom(r - 1, p, top) == r;
    var t := Stages(s, p, top, 2 * r);
    StageRegister(s, p, top, i, r);
    hide Clear, Doubling, Stages, LevelFrom;
    assert PartialAt(s, p, top, i, r, i + r) == t[i + r];
  }

  lemma StageRegister(s: seq<int>, p: nat, top: nat, i: nat, r: nat)
    requires 0 < p < r <= top && i + r < |s| && Clear(i, p) && Clear(i + r, p) && !Clear(i + p, p)
    ensures var t, u := Stages(s, p, top, 2 * r), Stages(s, p, top, r);
            u[i + p] == Min(t[i + p], t[i + r]) && u[i + r] == Max(t[i + p], t[i + r])
  {
    var t := Stages(s, p, top, 2 * r);
    assert Stages(s, p, top, r) == Stage(t, p, r);
    hide Clear, Stages;
    assert StageAt(t, p, r, i + p) == Min(t[i + p], t[i + r]);
    assert StageAt(t, p, r, i + r) == Max(t[i + p], t[i + r]);
  }

  /** The comparisons of one index: its upper element is held in a register while it meets the
      lower elements at distances q, q/2, ..., 2p. */
  method MergeIndex(kind: Kind, x: array<int>, lo: nat, n: nat, p: nat, i: nat, q: nat, ghost s: seq<int>, ghost top: nat)
    requires p > 0 && Clear(i, p) && Doubling(2 * p, q) && q <= top
    requires lo + n <= x.Length && i + q < n <= i + 2 * q && |s| == n && AllInRange(kind, x[lo..lo + n])
    requires x[lo..lo + n] == Finished(s, p, top, i)
    modifies x
    ensures x[lo..lo + n] == Finished(s, p, top, i + 1) && AllInRange(kind, x[lo..lo + n])
    ensures SameOutside(old(x[..]), x[..], lo, n)
  {
    hide *;
    ghost var before, held := x[..], x[lo..lo + n];
    PartialEnds(s, p, top, q, i);
    SameOutsideReflexive(before, lo, n);
    var a, r := x[lo + i + p], q;
    while r > p
      invariant p <= r <= q && (r == p || Doubling(2 * p, r))
      invariant held == x[lo..lo + n][i + p := a] && held == Partial(s, p, top, i, r)
      invariant AllInRange(kind, held) && SameOutside(before, x[..], lo, n)
      decreases r
    {
      PartialSteps(s, p, top, i, r);
      ghost var now, t := x[..], x[lo..lo + n];
      ExchangeRegister(kind, t, i + p, i + r, a);
      assert t[i + r] == x[lo + i + r];
      var e := MinMax(kind, a, x[lo + i + r]);
      held := Exchanged(held, i + p, i + r);
      a := e.0;
      Store(x, lo, n, i + r, e.1);
      SameOutsideTransitive(before, now, x[..], lo, n);
      r := r / 2;
    }
    ghost var now := x[..];
    Store(x, lo, n, i + p, a);
    SameOutsideTransitive(before, now, x[..], lo, n);
  }

  /** The comparisons of one index only move elements around. */
  lemma {:induction false} PartialPermutes(s: seq<int>, p: nat, top: nat, i: nat, r: nat)
    requires 0 < p <= r <= top && (r == p || Doubling(2 * p, r)) && i + r < |s| && Clear(i, p)
    ensures Permutes(Partial(s, p, top, i, r), Partial(s, p, top, i, p))
    decreases r
  {
    hide *;
    if r == p {
      PermutesReflexive(Partial(s, p, top, i, r));
    } else {
      PartialSteps(s, p, top, i, r);
      PartialPermutes(s, p, top, i, r / 2);
      ExchangePermutes(Partial(s, p, top, i, r), i + p, i + r);
      PermutesTransitive(Partial(s, p, top, i, r), Partial(s, p, top, i, r / 2), Partial(s, p, top, i, p));
    }
  }

  /** MINMAX on a register that stands for one element of the array. */
  lemma ExchangeRegister(kind: Kind, s: seq<int>, i: nat, j: nat, a: int)
    requires i < |s| && j < |s| && i != j && AllInRange(kind, s[i := a])
    ensures kind.Holds(a) && kind.Holds(s[j])
    ensures var e, t := MinMax(kind, a, s[j]), Exchanged(s[i := a], i, j);
            t == s[j := e.1][i := e.0] && AllInRange(kind, t)
  {
    ExchangeCorrect(kind, s[i := a], i, j);
  }

  /** The merge of a phase. The index i runs on across the distances q, so that each index meets
      every distance that stays inside the array, largest first. */
  method Merge(kind: Kind, x: array<int>, lo: nat, n: nat, p: nat, top: nat)
    requires p > 0 && Doubling(p, top) && top < n <= 2 * top
    requires lo + n <= x.Length && AllInRange(kind, x[lo..lo + n])
    modifies x
    ensures x[lo..lo + n] == Stages(old(x[lo..lo + n]), p, top, 2 * p)
    ensures SameOutside(old(x[..]), x[..], lo, n)
  {
    hide *;
    ghost var before, s := x[..], x[lo..lo + n];
    var i, q := 0, top;
    MergeStarts(s, p, top);
    SameOutsideReflexive(before, lo, n);
    while q > p
      invariant p <= q <= top && Doubling(p, q)
      invariant 0 <= i && i == if q == top then 0 else n - 2 * q
      invariant x[lo..lo + n] == Finished(s, p, top, i) && AllInRange(kind, x[lo..lo + n])
      invariant SameOutside(before, x[..], lo, n)
      decreases q
    {
      DoublingUp(p, q);
      while i < n - q
        invariant 0 <= i <= n - q && i + 2 * q >= n
        invariant x[lo..lo + n] == Finished(s, p, top, i) && AllInRange(kind, x[lo..lo + n])
        invariant SameOutside(before, x[..], lo, n)
      {
        if Clear(i, p) {
          ghost var now := x[..];
          MergeIndex(kind, x, lo, n, p, i, q, s, top);
          SameOutsideTransitive(before, now, x[..], lo, n);
        } else {
          FinishedSkips(s, p, top, i);
        }
        i := i + 1;
      }
      DoublingDownStep(p, q);
      q := q / 2;
    }
    MergeEnds(s, p, top, i);
  }

  lemma {:induction false} FinishedPermutes(s: seq<int>, p: nat, top: nat, i: nat)
    requires p > 0 && Doubling(p, top) && top < |s| <= 2 * top && (i == 0 || i + 2 * p <= |s|)
    ensures Permutes(s, Finished(s, p, top, i))
  {
    hide *;
    if i == 0 {
      MergeStarts(s, p, top);
      PermutesReflexive(s);
    } else {
      var t, u := Finished(s, p, top, i - 1), Finished(s, p, top, i);
      FinishedPermutes(s, p, top, i - 1);
      FinishedSteps(s, p, top, i - 1);
      PermutesTransitive(s, t, u);
    }
  }

  lemma FinishedSteps(s: seq<int>, p: nat, top: nat, i: nat)
    requires Doubling(p, top) && top < |s| <= 2 * top && i + 2 * p < |s|
    ensures Permutes(Finished(s, p, top, i), Finished(s, p, top, i + 1))
  {
    DoublingBound(p, top);
    if Clear(i, p) {
      DoublingUp(p, top);
      var q := LargestDistance(p, top, |s|, i);
      hide *;
      PartialEnds(s, p, top, q, i);
      PartialPermutes(s, p, top, i, q);
    } else {
      FinishedSkips(s, p, top, i);
    }
  }

  lemma {:induction false} LargestDistance(p: nat, q: nat, n: nat, i: nat) returns (d: nat)
    requires p > 0 && Doubling(2 * p, q) && i + 2 * p < n <= i + 2 * q
    ensures Doubling(2 * p, d) && d <= q && i + d < n <= i + 2 * d
    decreases q
  {
    if i + q < n { d := q; } else { d := LargestDistance(p, q / 2, n, i); }
  }

  /** The merge only moves elements around. */
  lemma StagesPermutes(s: seq<int>, p: nat, top: nat)
    requires Doubling(p, top) && top < |s| <= 2 * top
    ensures Permutes(s, Stages(s, p, top, 2 * p))
  {
    DoublingBound(p, top);
    var i := if p == top then 0 else |s| - 2 * p;
    if p != top { DoublingDownStep(p, top); DoublingOrder(p, p, top); }
    FinishedPermutes(s, p, top, i);
    MergeEnds(s, p, top, i);
  }

  lemma DoublingDownStep(p: nat, q: nat)
    requires Doubling(p, q) && q > p
    ensures Doubling(p, q / 2) && q / 2 >= p && 2 * (q / 2) == q
  {
    DoublingBound(p, q / 2);
  }

  lemma MergeStarts(s: seq<int>, p: nat, top: nat)
    requires Doubling(p, top) && top < |s| <= 2 * top
    ensures p <= top && Finished(s, p, top, 0) == s
  {
    DoublingBound(p, top);
    forall j | 0 <= j < |s| ensures FinishedAt(s, p, top, 0, j) == s[j] {
      MergeStartsAt(s, p, top, j);
    }
  }

  lemma MergeStartsAt(s: seq<int>, p: nat, top: nat, j: nat)
    requires 0 < p <= top && j < |s| <= 2 * top
    ensures FinishedAt(s, p, top, 0, j) == s[j]
  {
    LevelFacts(j, 2 * p, top);
    if Clear(j, p) && j < LevelFrom(j, p, top) {
      // no stage reaches below its own distance
      LowStagesSkip(s, p, top, LevelFrom(j, p, top), j);
    }
    if j < p { QuotientUnique(p, 0, j); }
  }

  lemma {:induction false} LowStagesSkip(s: seq<int>, p: nat, top: nat, r: nat, j: nat)
    requires p > 0 && r > p && j < |s| && Clear(j, p) && j < r
    ensures Stages(s, p, top, r)[j] == s[j]
    decreases top - r
  {
    if r <= top { LowStagesSkip(s, p, top, 2 * r, j); }
  }

  lemma MergeEnds(s: seq<int>, p: nat, top: nat, i: nat)
    requires Doubling(p, top) && top < |s| <= 2 * top
    requires i == if p == top then 0 else |s| - 2 * p
    ensures Finished(s, p, top, i) == Stages(s, p, top, 2 * p)
  {
    DoublingBound(p, top);
    forall j | 0 <= j < |s| ensures FinishedAt(s, p, top, i, j) == Stages(s, p, top, 2 * p)[j] {
      MergeEndsAt(s, p, top, i, j);
    }
  }

  lemma MergeEndsAt(s: seq<int>, p: nat, top: nat, i: nat, j: nat)
    requires 0 < p <= top < |s| <= 2 * top && j < |s|
    requires i == if p == top then 0 else |s| - 2 * p
    ensures FinishedAt(s, p, top, i, j) == Stages(s, p, top, 2 * p)[j]
  {
    Parity(j - p, p, 0);
    if j < p { QuotientUnique(p, 0, j); }
    if p == top {
      LevelFacts(j - i, 2 * p, top);
    } else if !Clear(j, p) && j - p >= i {
      HighStagesSkip(s, p, top, 2 * p, j - p);
    }
  }

  ghost predicate Sorted(s: seq<int>)
  {
    forall i, j :: 0 <= i <= j < |s| ==> s[i] <= s[j]
  }

  /** The whole network: for every number of elements it leaves a sorted permutation. */
  method Sort(kind: Kind, x: array<int>, lo: nat, n: nat)
    requires lo + n <= x.Length && AllInRange(kind, x[lo..lo + n])
    modifies x
    ensures Sorted(x[lo..lo + n]) && Permutes(old(x[lo..lo + n]), x[lo..lo + n])
    ensures SameOutside(old(x[..]), x[..], lo, n)
  {
    ghost var before, s := x[..], x[lo..lo + n];
    if n < 2 { return; }
    var top := 1;
    while top < n - top
      invariant Doubling(1, top) && top < n
    {
      top := top + top;
    }
    hide *;
    PermutesReflexive(s);
    SameOutsideReflexive(before, lo, n);
    LastPhase(s, top);
    var p := top;
    while p > 0
      invariant p >= 0 && Doubling(1, top) && top < n <= 2 * top
      invariant p > 0 ==> Doubling(p, top) && Doubling(1, p) && Ordered(x[lo..lo + n], 2 * p)
      invariant p == 0 ==> Ordered(x[lo..lo + n], 1)
      invariant AllInRange(kind, x[lo..lo + n]) && Permutes(s, x[lo..lo + n])
      invariant SameOutside(before, x[..], lo, n)
    {
      PhaseCorrect(kind, s, x[lo..lo + n], p, top);
      PhaseIs(x[lo..lo + n], p, top);
      ghost var now := x[..];
      ExchangePairs(kind, x, lo, n, p);
      ghost var paired := x[..];
      Merge(kind, x, lo, n, p, top);
      SameOutsideTransitive(before, now, paired, lo, n);
      SameOutsideTransitive(before, paired, x[..], lo, n);
      DoublingHalf(p, top);
      p := p / 2;
    }
    OrderedIsSorted(x[lo..lo + n]);
  }

  /** What one phase does to the array that started as s. */
  lemma PhaseCorrect(kind: Kind, s: seq<int>, t: seq<int>, p: nat, top: nat)
    requires Doubling(p, top) && top < |t| <= 2 * top && Ordered(t, 2 * p)
    requires AllInRange(kind, t) && Permutes(s, t)
    ensures var paired := Pairs(t, p);
            var merged := Phase(t, p, top);
            AllInRange(kind, paired) && AllInRange(kind, merged) && Permutes(s, merged) && Ordered(merged, p)
  {
    var paired := Pairs(t, p);
    PhaseOrders(t, p, top);
    PairsPermutes(t, p);
    StagesPermutes(paired, p, top);
    PermutesInRange(kind, t, paired);
    PermutesInRange(kind, paired, Phase(t, p, top));
  }

  lemma PermutesInRange(kind: Kind, s: seq<int>, t: seq<int>)
    requires Permutes(s, t) && AllInRange(kind, s)
    ensures AllInRange(kind, t)
  {
    forall j | 0 <= j < |t| ensures kind.InRange(t[j]) {
      assert t[j] in multiset(t);
      assert t[j] in multiset(s);
    }
  }

  /** Before the first phase there is nothing at stride 2 top to be out of order. */
  lemma LastPhase(s: seq<int>, top: nat)
    requires top > 0 && |s| <= 2 * top
    ensures Doubling(top, top) && Ordered(s, 2 * top)
  {}

  lemma PhaseIs(s: seq<int>, p: nat, top: nat)
    requires p > 0
    ensures Phase(s, p, top) == Stages(Pairs(s, p), p, top, 2 * p)
  {}

  lemma {:induction false} DoublingHalf(p: nat, t: nat)
    requires Doubling(p, t) && Doubling(1, p)
    ensures p > 1 ==> Doubling(p / 2, t) && Doubling(1, p / 2) && 2 * (p / 2) == p
    decreases t
  {
    if t != p { DoublingHalf(p, t / 2); }
    if p > 1 { DoublingBound(p, t); }
  }

  lemma OrderedIsSorted(s: seq<int>)
    requires Ordered(s, 1)
    ensures Sorted(s)
  {
    forall i, j | 0 <= i <= j < |s| ensures s[i] <= s[j] {
      OrderedSteps(s, 1, i, j - i);
    }
  }
}
