/** Linear recurrences over the field of 4096 elements, and the step of the inversion-free
    Berlekamp-Massey algorithm that keeps the shortest one. */
module Recurrences {
  import opened Field

  /** Element i of the sequence, zero outside. */
  function At(s: seq<Elem>, i: int): (e: Elem)
  {
    if 0 <= i < |s| then s[i] else Nil()
  }

  /** The sum of c_j s_(n-j) over the first k coefficients. */
  function Conv(c: seq<Elem>, s: seq<Elem>, n: int, k: nat): (e: Elem)
    requires k <= |c|
    decreases k
  {
    if k == 0 then Nil() else Add(Conv(c, s, n, k - 1), Mul(c[k - 1], At(s, n - (k - 1))))
  }

  /** How far the recurrence c is from holding at index n. */
  function Discrepancy(c: seq<Elem>, s: seq<Elem>, n: int): (e: Elem)
  {
    Conv(c, s, n, |c|)
  }

  ghost predicate DegreeAtMost(c: seq<Elem>, l: int)
  {
    forall j :: 0 <= j < |c| && j > l ==> c[j] == Nil()
  }

  /** c holds from index lo up to but not including n. */
  ghost predicate Holds(c: seq<Elem>, s: seq<Elem>, lo: int, n: int)
  {
    forall m :: lo <= m < n ==> Discrepancy(c, s, m) == Nil()
  }

  /** A recurrence of length l that generates the first n elements. */
  ghost predicate Recurrence(c: seq<Elem>, l: nat, s: seq<Elem>, n: nat)
  {
    |c| > 0 && c[0] != Nil() && DegreeAtMost(c, l) && Holds(c, s, l, n)
  }

  /** No shorter recurrence generates the first n elements. */
  ghost predicate Shortest(l: nat, s: seq<Elem>, n: nat)
  {
    forall c, k: nat :: Recurrence(c, k, s, n) ==> k >= l
  }

  // ---------------------------------------------------------------- sums

  lemma ConvStep(c: seq<Elem>, s: seq<Elem>, n: int, k: nat)
    requires k < |c|
    ensures Conv(c, s, n, 0) == Nil()
    ensures Conv(c, s, n, k + 1) == Add(Conv(c, s, n, k), Mul(c[k], At(s, n - k)))
  {}

  /** b c + d p, coefficient by coefficient */
  function Combined(b: Elem, c: seq<Elem>, d: Elem, p: seq<Elem>): (r: seq<Elem>)
    requires |c| == |p|
    ensures |r| == |c|
  {
    seq(|c|, j requires 0 <= j < |c| => Add(Mul(b, c[j]), Mul(d, p[j])))
  }

  lemma {:induction false} ConvMix(b: Elem, c: seq<Elem>, d: Elem, p: seq<Elem>, s: seq<Elem>, n: int, k: nat)
    requires |c| == |p| && k <= |c|
    ensures Conv(Combined(b, c, d, p), s, n, k) == Add(Mul(b, Conv(c, s, n, k)), Mul(d, Conv(p, s, n, k)))
    decreases k
  {
    hide *;
    var r := Combined(b, c, d, p);
    if k == 0 {
      ConvEmpty(r, s, n);
      ConvEmpty(c, s, n);
      ConvEmpty(p, s, n);
      MulLinear(b, b, b);
      MulLinear(d, d, d);
      AddLaws(Nil(), Nil(), Nil());
    } else {
      var j := k - 1;
      ConvMix(b, c, d, p, s, n, j);
      MixAt(b, c, d, p, j);
      ConvStep(r, s, n, j);
      ConvStep(c, s, n, j);
      ConvStep(p, s, n, j);
      var x, u, v := At(s, n - j), Conv(c, s, n, j), Conv(p, s, n, j);
      MulLinear(Mul(b, c[j]), Mul(d, p[j]), x);
      MulAssociates(b, c[j], x);
      MulAssociates(d, p[j], x);
      MulLinear(b, u, Mul(c[j], x));
      MulLinear(d, v, Mul(p[j], x));
      Regroup(Mul(b, u), Mul(d, v), Mul(b, Mul(c[j], x)), Mul(d, Mul(p[j], x)));
    }
  }

  lemma MixAt(b: Elem, c: seq<Elem>, d: Elem, p: seq<Elem>, j: nat)
    requires |c| == |p| && j < |c|
    ensures Combined(b, c, d, p)[j] == Add(Mul(b, c[j]), Mul(d, p[j]))
  {}

  lemma ConvEmpty(c: seq<Elem>, s: seq<Elem>, n: int)
    ensures Conv(c, s, n, 0) == Nil()
  {}

  lemma DiscrepancyMix(b: Elem, c: seq<Elem>, d: Elem, p: seq<Elem>, s: seq<Elem>, n: int)
    requires |c| == |p|
    ensures Discrepancy(Combined(b, c, d, p), s, n) == Add(Mul(b, Discrepancy(c, s, n)), Mul(d, Discrepancy(p, s, n)))
  {
    hide Conv, Combined;
    ConvMix(b, c, d, p, s, n, |c|);
  }

  /** The coefficients moved up by one place, with the last one dropped. */
  function Raised(c: seq<Elem>): (r: seq<Elem>)
    requires |c| > 0
    ensures |r| == |c|
  {
    [Nil()] + c[..|c| - 1]
  }

  lemma {:induction false} ConvShifted(c: seq<Elem>, s: seq<Elem>, n: int, k: nat)
    requires 0 < k <= |c|
    ensures Conv(Raised(c), s, n, k) == Conv(c, s, n - 1, k - 1)
    decreases k
  {
    hide *;
    var r := Raised(c);
    ShiftedAt(c, k - 1);
    ConvStep(r, s, n, k - 1);
    if k == 1 {
      ConvEmpty(c, s, n - 1);
      MulLinear(At(s, n), At(s, n), At(s, n));
      AddLaws(Nil(), Nil(), Nil());
    } else {
      ConvShifted(c, s, n, k - 1);
      ConvStep(c, s, n - 1, k - 2);
      assert n - (k - 1) == n - 1 - (k - 2);
    }
  }

  lemma ShiftedAt(c: seq<Elem>, j: nat)
    requires j < |c|
    ensures Raised(c)[j] == if j == 0 then Nil() else c[j - 1]
  {}

  lemma DiscrepancyShifted(c: seq<Elem>, s: seq<Elem>, n: int)
    requires |c| > 0 && c[|c| - 1] == Nil()
    ensures Discrepancy(Raised(c), s, n) == Discrepancy(c, s, n - 1)
  {
    hide *;
    var k := |c| - 1;
    ConvShifted(c, s, n, |c|);
    ConvStep(c, s, n - 1, k);
    MulLinear(At(s, n - 1 - k), At(s, n - 1 - k), At(s, n - 1 - k));
    AddLaws(Conv(c, s, n - 1, k), Nil(), Nil());
    DiscrepancyIs(c, s, n - 1);
    DiscrepancyIs(Raised(c), s, n);
  }

  lemma DiscrepancyIs(c: seq<Elem>, s: seq<Elem>, n: int)
    ensures Discrepancy(c, s, n) == Conv(c, s, n, |c|)
  {}

  // ---------------------------------------------------------------- the shortest recurrence

  /** The sum over i < h and j < k of f_i c_j s_(n-i-j). */
  function Double(f: seq<Elem>, c: seq<Elem>, s: seq<Elem>, n: int, h: nat, k: nat): (e: Elem)
    requires h <= |f| && k <= |c|
    decreases h
  {
    if h == 0 then Nil() else Add(Double(f, c, s, n, h - 1, k), Mul(f[h - 1], Conv(c, s, n - (h - 1), k)))
  }

  lemma DoubleStep(f: seq<Elem>, c: seq<Elem>, s: seq<Elem>, n: int, h: nat, k: nat)
    requires h < |f| && k <= |c|
    ensures Double(f, c, s, n, h + 1, k) == Add(Double(f, c, s, n, h, k), Mul(f[h], Conv(c, s, n - h, k)))
  {}

  lemma DoubleEmpty(f: seq<Elem>, c: seq<Elem>, s: seq<Elem>, n: int, k: nat)
    requires k <= |c|
    ensures Double(f, c, s, n, 0, k) == Nil()
  {}

  /** One more coefficient of c. */
  lemma {:induction false} DoubleColumn(f: seq<Elem>, c: seq<Elem>, s: seq<Elem>, n: int, h: nat, k: nat)
    requires h <= |f| && k < |c|
    ensures Double(f, c, s, n, h, k + 1) == Add(Double(f, c, s, n, h, k), Mul(c[k], Conv(f, s, n - k, h)))
    decreases h
  {
    hide *;
    if h == 0 {
      DoubleEmpty(f, c, s, n, k + 1);
      DoubleEmpty(f, c, s, n, k);
      ConvEmpty(f, s, n - k);
      MulLinear(c[k], c[k], c[k]);
      AddLaws(Nil(), Nil(), Nil());
    } else {
      var i := h - 1;
      DoubleColumn(f, c, s, n, i, k);
      DoubleStep(f, c, s, n, i, k + 1);
      DoubleStep(f, c, s, n, i, k);
      ConvStep(c, s, n - i, k);
      ConvStep(f, s, n - k, i);
      var x, u, v := At(s, n - i - k), Conv(c, s, n - i, k), Conv(f, s, n - k, i);
      assert n - i - k == n - k - i;
      MulLinear(f[i], u, Mul(c[k], x));
      MulLinear(c[k], v, Mul(f[i], x));
      MulAssociates(f[i], c[k], x);
      MulAssociates(c[k], f[i], x);
      MulCommutes(f[i], c[k]);
      Rearrange(Double(f, c, s, n, i, k), Mul(c[k], v), Mul(f[i], u), Mul(f[i], Mul(c[k], x)));
    }
  }

  lemma Rearrange(a: Elem, b: Elem, c: Elem, d: Elem)
    ensures Add(Add(a, b), Add(c, d)) == Add(Add(a, c), Add(b, d))
  {}

  /** The double sum does not depend on the order of summation. */
  lemma {:induction false} DoubleSymmetric(f: seq<Elem>, c: seq<Elem>, s: seq<Elem>, n: int, h: nat, k: nat)
    requires h <= |f| && k <= |c|
    ensures Double(f, c, s, n, h, k) == Double(c, f, s, n, k, h)
    decreases k
  {
    hide *;
    if k == 0 {
      DoubleEmpty(c, f, s, n, h);
      DoubleNoColumns(f, c, s, n, h);
    } else {
      DoubleSymmetric(f, c, s, n, h, k - 1);
      DoubleColumn(f, c, s, n, h, k - 1);
      DoubleStep(c, f, s, n, k - 1, h);
    }
  }

  lemma {:induction false} DoubleNoColumns(f: seq<Elem>, c: seq<Elem>, s: seq<Elem>, n: int, h: nat)
    requires h <= |f|
    ensures Double(f, c, s, n, h, 0) == Nil()
    decreases h
  {
    hide *;
    if h == 0 {
      DoubleEmpty(f, c, s, n, 0);
    } else {
      DoubleNoColumns(f, c, s, n, h - 1);
      DoubleStep(f, c, s, n, h - 1, 0);
      ConvEmpty(c, s, n - (h - 1));
      MulLinear(f[h - 1], f[h - 1], f[h - 1]);
      AddLaws(Nil(), Nil(), Nil());
    }
  }

  /** If the discrepancies of c at n, n-1, ... are zero where f has coefficients, the sum is zero;
      if only the first one is not zero, the sum is not either. */
  lemma {:induction false} DoubleVanishes(f: seq<Elem>, c: seq<Elem>, s: seq<Elem>, n: int, h: nat)
    requires 0 < h <= |f|
    requires forall i :: 1 <= i < h ==> f[i] == Nil() || Discrepancy(c, s, n - i) == Nil()
    ensures Double(f, c, s, n, h, |c|) == Mul(f[0], Discrepancy(c, s, n))
    decreases h
  {
    hide *;
    var i := h - 1;
    DoubleStep(f, c, s, n, i, |c|);
    DiscrepancyIs(c, s, n - i);
    if h == 1 {
      DoubleEmpty(f, c, s, n, |c|);
      AddLaws(Mul(f[0], Discrepancy(c, s, n)), Nil(), Nil());
    } else {
      DoubleVanishes(f, c, s, n, i);
      MulLinear(f[i], f[i], f[i]);
      MulLinear(Discrepancy(c, s, n - i), f[i], f[i]);
      AddLaws(Double(f, c, s, n, i, |c|), Nil(), Nil());
    }
  }

  /** Massey's bound: when a recurrence of length l fails at index n, every recurrence that also
      generates element n has at least the length n + 1 - l. */
  lemma LengthBound(c: seq<Elem>, l: nat, f: seq<Elem>, k: nat, s: seq<Elem>, n: nat)
    requires Recurrence(c, l, s, n) && Discrepancy(c, s, n) != Nil() && Recurrence(f, k, s, n + 1)
    ensures l + k > n
  {
    hide Conv, Discrepancy, Double, Mul, Nil, Add;
    if l + k <= n {
      forall i | 1 <= i < |f| ensures f[i] == Nil() || Discrepancy(c, s, n - i) == Nil() { }
      DoubleVanishes(f, c, s, n, |f|);
      forall j | 1 <= j < |c| ensures c[j] == Nil() || Discrepancy(f, s, n - j) == Nil() { }
      DoubleVanishes(c, f, s, n, |c|);
      DoubleSymmetric(f, c, s, n, |f|, |c|);
      MulLinear(c[0], c[0], c[0]);
      NoZeroDivisors(f[0], Discrepancy(c, s, n));
    }
  }

  /** A recurrence that fails at index n makes the shortest one for n + 1 elements longer. */
  lemma ShortestGrows(c: seq<Elem>, l: nat, s: seq<Elem>, n: nat)
    requires Recurrence(c, l, s, n) && l <= n && Shortest(l, s, n)
    ensures Discrepancy(c, s, n) != Nil() && 2 * l <= n ==> Shortest(n + 1 - l, s, n + 1)
    ensures Discrepancy(c, s, n) == Nil() || 2 * l > n ==> Shortest(l, s, n + 1)
  {
    hide Discrepancy, DegreeAtMost;
    var next := n + 1;
    forall f, k: nat | Recurrence(f, k, s, next) ensures k >= l {
      assert Recurrence(f, k, s, n);
    }
    if Discrepancy(c, s, n) != Nil() && 2 * l <= n {
      forall f, k: nat | Recurrence(f, k, s, next) ensures k >= next - l {
        LengthBound(c, l, f, k, s, n);
      }
    }
  }

  // ---------------------------------------------------------------- the step of the algorithm

  /** After n steps: c is a shortest recurrence for the first n elements, of length l; p has zero
      discrepancies from n + 1 - l on and the discrepancy b at n, as long as it is not cut off. */
  ghost predicate Tracked(c: seq<Elem>, p: seq<Elem>, b: Elem, l: nat, s: seq<Elem>, n: nat, t: nat)
  {
    && |c| == |p| == t + 1 && l <= n && l <= t && b != Nil() && p[0] == Nil()
    && Recurrence(c, l, s, n) && Shortest(l, s, n)
    && (n + 1 - l <= t ==> DegreeAtMost(p, n + 1 - l) && (l > 0 ==> Holds(p, s, n + 1 - l, n) && Discrepancy(p, s, n) == b))
  }

  /** Once the length exceeds t, no recurrence of length at most t exists. */
  ghost predicate State(c: seq<Elem>, p: seq<Elem>, b: Elem, l: nat, s: seq<Elem>, n: nat, t: nat)
  {
    && l <= n && |c| == |p| == t + 1
    && if l <= t then Tracked(c, p, b, l, s, n, t) else Shortest(t + 1, s, n)
  }

  lemma StateStart(c: seq<Elem>, p: seq<Elem>, s: seq<Elem>, t: nat)
    requires |c| == |p| == t + 1 && t > 0
    requires c[0] == One() && DegreeAtMost(c, 0) && p[0] == Nil() && DegreeAtMost(p, 1)
    ensures State(c, p, One(), 0, s, 0, t)
  {
    hide Discrepancy;
    assert One()[0] && !Nil()[0];
  }

  /** c' = b c + d p */
  lemma MixDegree(b: Elem, c: seq<Elem>, d: Elem, p: seq<Elem>, l: int)
    requires |c| == |p| && DegreeAtMost(c, l) && (d == Nil() || DegreeAtMost(p, l))
    ensures DegreeAtMost(Combined(b, c, d, p), l)
  {
    hide Mul, Add, Nil;
    forall j | 0 <= j < |c| && j > l ensures Combined(b, c, d, p)[j] == Nil() {
      MulLinear(b, b, b);
      MulLinear(d, d, d);
      MulLinear(p[j], p[j], p[j]);
      AddLaws(Nil(), Nil(), Nil());
    }
  }

  lemma MixHolds(b: Elem, c: seq<Elem>, d: Elem, p: seq<Elem>, s: seq<Elem>, lo: int, n: int)
    requires |c| == |p| && Holds(c, s, lo, n) && (d == Nil() || Holds(p, s, lo, n))
    ensures Holds(Combined(b, c, d, p), s, lo, n)
  {
    hide Mul, Add, Nil, Discrepancy, Combined;
    forall m | lo <= m < n ensures Discrepancy(Combined(b, c, d, p), s, m) == Nil() {
      DiscrepancyMix(b, c, d, p, s, m);
      MulLinear(b, b, b);
      MulLinear(d, d, d);
      MulLinear(Discrepancy(p, s, m), d, d);
      AddLaws(Nil(), Nil(), Nil());
    }
  }

  /** The new recurrence also holds at n: b d + d b = 0. */
  lemma MixHoldsNext(b: Elem, c: seq<Elem>, d: Elem, p: seq<Elem>, s: seq<Elem>, lo: int, n: int)
    requires |c| == |p| && Holds(c, s, lo, n) && d == Discrepancy(c, s, n)
    requires d == Nil() || (Holds(p, s, lo, n) && Discrepancy(p, s, n) == b)
    ensures Holds(Combined(b, c, d, p), s, lo, n + 1)
  {
    hide Mul, Add, Nil, Discrepancy, Combined;
    MixHolds(b, c, d, p, s, lo, n);
    DiscrepancyMix(b, c, d, p, s, n);
    MulCommutes(b, d);
    MulLinear(b, b, b);
    MulLinear(Discrepancy(p, s, n), d, d);
    AddLaws(Nil(), Nil(), Nil());
    AddLaws(Mul(b, d), Nil(), Nil());
  }

  lemma MixHead(b: Elem, c: seq<Elem>, d: Elem, p: seq<Elem>)
    requires |c| == |p| > 0 && c[0] != Nil() && b != Nil() && p[0] == Nil()
    ensures Combined(b, c, d, p)[0] == Mul(b, c[0]) != Nil()
  {
    hide Mul, Add, Nil;
    MulLinear(d, d, d);
    AddLaws(Mul(b, c[0]), Nil(), Nil());
    NoZeroDivisors(b, c[0]);
  }

  lemma ShiftedHolds(c: seq<Elem>, s: seq<Elem>, lo: int, n: int)
    requires |c| > 0 && c[|c| - 1] == Nil() && Holds(c, s, lo, n)
    ensures Holds(Raised(c), s, lo + 1, n + 1) && Discrepancy(Raised(c), s, n + 1) == Discrepancy(c, s, n)
  {
    hide Discrepancy, Raised;
    DiscrepancyShifted(c, s, n + 1);
    forall m | lo + 1 <= m < n + 1 ensures Discrepancy(Raised(c), s, m) == Nil() {
      DiscrepancyShifted(c, s, m);
    }
  }

  lemma ShiftedDegree(c: seq<Elem>, l: int)
    requires |c| > 0 && DegreeAtMost(c, l)
    ensures DegreeAtMost(Raised(c), l + 1)
  {}

  lemma ShortestLess(l: nat, k: nat, s: seq<Elem>, n: nat)
    requires Shortest(l, s, n) && k <= l
    ensures Shortest(k, s, n)
  {}

  lemma ShortestLonger(l: nat, s: seq<Elem>, n: nat)
    requires Shortest(l, s, n)
    ensures Shortest(l, s, n + 1)
  {
    hide Discrepancy, DegreeAtMost;
    var next := n + 1;
    forall f, k: nat | Recurrence(f, k, s, next) ensures k >= l { assert Recurrence(f, k, s, n); }
  }

  lemma HoldsLess(c: seq<Elem>, s: seq<Elem>, lo: int, hi: int, n: int)
    requires Holds(c, s, lo, n) && lo <= hi
    ensures Holds(c, s, hi, n)
  {}

  lemma DegreeMore(c: seq<Elem>, l: int, k: int)
    requires DegreeAtMost(c, l) && l <= k
    ensures DegreeAtMost(c, k)
  {}

  /** The step without a change of length. */
  lemma TrackedKeeps(c: seq<Elem>, p: seq<Elem>, b: Elem, l: nat, s: seq<Elem>, n: nat, t: nat, d: Elem)
    requires |c| == |p| == t + 1 && l <= n
    requires Tracked(c, p, b, l, s, n, t) && d == Discrepancy(c, s, n) && (d == Nil() || 2 * l > n)
    ensures Tracked(Combined(b, c, d, p), Raised(p), b, l, s, n + 1, t)
  {
    hide Discrepancy, Combined, Raised, DegreeAtMost, Holds, Shortest, Mul;
    ShortestGrows(c, l, s, n);
    MixHead(b, c, d, p);
    if d != Nil() {
      DegreeMore(p, n + 1 - l, l);
      HoldsLess(p, s, n + 1 - l, l, n);
    }
    MixDegree(b, c, d, p, l);
    MixHoldsNext(b, c, d, p, s, l, n);
    ShiftedAt(p, 0);
    if n + 2 - l <= t {
      ShiftedDegree(p, n + 1 - l);
      LastIsNil(p, n + 1 - l);
      if l > 0 { ShiftedHolds(p, s, n + 1 - l, n); }
    }
  }

  lemma LastIsNil(p: seq<Elem>, l: int)
    requires DegreeAtMost(p, l) && 0 <= l < |p| - 1
    ensures p[|p| - 1] == Nil()
  {}

  /** The step with a change of length. */
  lemma TrackedGrows(c: seq<Elem>, p: seq<Elem>, b: Elem, l: nat, s: seq<Elem>, n: nat, t: nat, d: Elem)
    requires |c| == |p| == t + 1 && l <= n
    requires Tracked(c, p, b, l, s, n, t) && d == Discrepancy(c, s, n) && d != Nil() && 2 * l <= n && n + 1 - l <= t
    ensures Tracked(Combined(b, c, d, p), Raised(c), d, n + 1 - l, s, n + 1, t)
  {
    hide Discrepancy, Combined, Raised, DegreeAtMost, Holds, Shortest, Mul;
    var k := n + 1 - l;
    ShortestGrows(c, l, s, n);
    MixHead(b, c, d, p);
    DegreeMore(c, l, k);
    MixDegree(b, c, d, p, k);
    HoldsLess(c, s, l, k, n);
    if l > 0 { MixHoldsNext(b, c, d, p, s, k, n); } else { HoldsNothing(Combined(b, c, d, p), s, k, n + 1); }
    ShiftedAt(c, 0);
    ShiftedDegree(c, l);
    LastIsNil(c, l);
    ShiftedHolds(c, s, l, n);
  }

  lemma HoldsNothing(c: seq<Elem>, s: seq<Elem>, lo: int, n: int)
    requires lo >= n
    ensures Holds(c, s, lo, n)
  {}

  /** What a step makes of p, b and l. */
  ghost predicate Moved(c: seq<Elem>, p: seq<Elem>, b: Elem, l: nat, n: nat, d: Elem, change: bool,
                        p2: seq<Elem>, b2: Elem, l2: int)
    requires |c| > 0 && |p| > 0
  {
    if change then p2 == Raised(c) && b2 == d && l2 == n + 1 - l else p2 == Raised(p) && b2 == b && l2 == l
  }

  /** One step of the algorithm. */
  lemma StateStep(c: seq<Elem>, p: seq<Elem>, b: Elem, l: nat, s: seq<Elem>, n: nat, t: nat, d: Elem, change: bool,
                  p2: seq<Elem>, b2: Elem, l2: nat)
    requires |c| == |p| == t + 1 && State(c, p, b, l, s, n, t) && Moved(c, p, b, l, n, d, change, p2, b2, l2)
    requires d == Discrepancy(c, s, n) && (change <==> d != Nil() && 2 * l <= n)
    ensures State(Combined(b, c, d, p), p2, b2, l2, s, n + 1, t)
  {
    hide Discrepancy, Combined, Raised, Tracked, Shortest;
    if l > t {
      ShortestLonger(t + 1, s, n);
    } else if !change {
      TrackedKeeps(c, p, b, l, s, n, t, d);
    } else if n + 1 - l <= t {
      TrackedGrows(c, p, b, l, s, n, t, d);
    } else {
      TooLong(c, p, b, l, s, n, t);
    }
  }

  lemma TooLong(c: seq<Elem>, p: seq<Elem>, b: Elem, l: nat, s: seq<Elem>, n: nat, t: nat)
    requires |c| == |p| == t + 1 && l <= n
    requires Tracked(c, p, b, l, s, n, t) && Discrepancy(c, s, n) != Nil() && 2 * l <= n && n + 1 - l > t
    ensures Shortest(t + 1, s, n + 1)
  {
    hide Discrepancy, DegreeAtMost, Holds, Shortest, Recurrence;
    ShortestGrows(c, l, s, n);
    ShortestLess(n + 1 - l, t + 1, s, n + 1);
  }

  // ---------------------------------------------------------------- the normalized result

  /** c_j / c_0 */
  function Normalized(c: seq<Elem>, i: Elem): (r: seq<Elem>)
    ensures |r| == |c|
  {
    seq(|c|, j requires 0 <= j < |c| => Mul(i, c[j]))
  }

  lemma NormalizedRecurrence(c: seq<Elem>, l: nat, s: seq<Elem>, n: nat)
    requires Recurrence(c, l, s, n)
    ensures Recurrence(Normalized(c, Inv(c[0])), l, s, n) && Normalized(c, Inv(c[0]))[0] == One()
  {
    hide *;
    RecurrenceParts(c, l, s, n);
    var i := Inv(c[0]);
    var r := Normalized(c, i);
    Inverse(c[0]);
    NormalizedIs(c, i);
    OneNotNil();
    MixDegree(i, c, Nil(), c, l);
    MixHolds(i, c, Nil(), c, s, l, n);
    NormalizedAt(c, i, 0);
    RecurrenceFrom(r, l, s, n);
  }

  lemma OneNotNil()
    ensures One() != Nil()
  {
    assert One()[0] && !Nil()[0];
  }

  lemma NormalizedAt(c: seq<Elem>, i: Elem, j: nat)
    requires j < |c|
    ensures Normalized(c, i)[j] == Mul(i, c[j])
  {}

  lemma NormalizedIs(c: seq<Elem>, i: Elem)
    ensures Normalized(c, i) == Combined(i, c, Nil(), c)
  {
    hide Mul, Add, Nil;
    forall j | 0 <= j < |c| ensures Mul(i, c[j]) == Add(Mul(i, c[j]), Mul(Nil(), c[j])) {
      MulLinear(c[j], c[j], c[j]);
      AddLaws(Mul(i, c[j]), Nil(), Nil());
    }
  }

  lemma RecurrenceParts(c: seq<Elem>, l: nat, s: seq<Elem>, n: nat)
    requires Recurrence(c, l, s, n)
    ensures |c| > 0 && c[0] != Nil() && DegreeAtMost(c, l) && Holds(c, s, l, n)
  {}

  lemma RecurrenceFrom(c: seq<Elem>, l: nat, s: seq<Elem>, n: nat)
    requires |c| > 0 && c[0] != Nil() && DegreeAtMost(c, l) && Holds(c, s, l, n)
    ensures Recurrence(c, l, s, n)
  {}
}
