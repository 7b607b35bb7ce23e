/** Cycles of the permutation pi o flip o pi^-1 o flip, on which the Nassimi-Sahni algorithm
    for Benes control bits rests. */
module Cycles {
  import opened Permutations
  import opened Sequences

  /** x ^ 1 */
  function Flip(x: nat): (y: nat)
  {
    if x % 2 == 0 then x + 1 else x - 1
  }

  ghost predicate EvenPerm(pi: seq<nat>)
  {
    IsPerm(pi) && |pi| % 2 == 0
  }

  lemma FlipInRange(x: nat, n: nat)
    requires n % 2 == 0 && x < n
    ensures Flip(x) < n && Flip(Flip(x)) == x && Flip(x) != x && Flip(x) / 2 == x / 2
  {}

  /** pibar(y) = pi(pi^-1(y^1)^1) */
  ghost function Pibar(pi: seq<nat>): (p: seq<nat>)
    requires EvenPerm(pi)
    ensures |p| == |pi|
  {
    seq(|pi|, y requires 0 <= y < |pi| => PibarAt(pi, y))
  }

  ghost function PibarAt(pi: seq<nat>, y: nat): (z: nat)
    requires EvenPerm(pi) && y < |pi|
    ensures z < |pi|
  {
    FlipInRange(y, |pi|);
    var x := Inverse(pi)[Flip(y)];
    FlipInRange(x, |pi|);
    pi[Flip(x)]
  }

  /** pibar takes the partner of pi(x) to pi of the partner of x. */
  lemma PibarOfPartner(pi: seq<nat>, x: nat)
    requires EvenPerm(pi) && x < |pi|
    ensures Flip(pi[x]) < |pi| && Flip(x) < |pi|
    ensures Pibar(pi)[Flip(pi[x])] == pi[Flip(x)]
  {
    FlipInRange(pi[x], |pi|);
    FlipInRange(x, |pi|);
    InversePerm(pi);
  }

  lemma PibarPerm(pi: seq<nat>)
    requires EvenPerm(pi)
    ensures IsPerm(Pibar(pi))
  {
    var p, n := Pibar(pi), |pi|;
    InversePerm(pi);
    forall x, y | 0 <= x < n && 0 <= y < n && p[x] == p[y] ensures x == y {
      PibarInjective(pi, x, y);
    }
    assert forall x :: 0 <= x < n ==> p[x] == PibarAt(pi, x);
  }

  lemma PibarInjective(pi: seq<nat>, x: nat, y: nat)
    requires EvenPerm(pi) && x < |pi| && y < |pi| && PibarAt(pi, x) == PibarAt(pi, y)
    ensures x == y
  {
    var n := |pi|;
    FlipInRange(x, n);
    FlipInRange(y, n);
    var a, b := Inverse(pi)[Flip(x)], Inverse(pi)[Flip(y)];
    FlipInRange(a, n);
    FlipInRange(b, n);
    assert Flip(a) == Flip(b);
    assert pi[a] == pi[b];
  }

  /** pibar has no fixed relation to the partner: pibar(y) != y^1. */
  lemma PibarAvoidsPartner(pi: seq<nat>, y: nat)
    requires EvenPerm(pi) && y < |pi|
    ensures Pibar(pi)[y] != Flip(y)
  {
    FlipInRange(y, |pi|);
    FlipInRange(Inverse(pi)[Flip(y)], |pi|);
    assert pi[Inverse(pi)[Flip(y)]] == Flip(y);
  }

  /** Conjugating by the partner map inverts pibar. */
  lemma PibarFlips(pi: seq<nat>, x: nat)
    requires EvenPerm(pi) && x < |pi|
    ensures Flip(Pibar(pi)[x]) < |pi| && Pibar(pi)[Flip(Pibar(pi)[x])] == Flip(x)
  {
    var n := |pi|;
    FlipInRange(x, n);
    var a := Inverse(pi)[Flip(x)];
    FlipInRange(a, n);
    PibarOfPartner(pi, Flip(a));
  }

  // ---------------------------------------------------------------- iteration

  ghost function Iterate(p: seq<nat>, x: nat, k: nat): (y: nat)
    requires IsPerm(p) && x < |p|
    ensures y < |p|
    decreases k
  {
    if k == 0 then x else p[Iterate(p, x, k - 1)]
  }

  lemma {:induction false} IterateAdd(p: seq<nat>, x: nat, j: nat, k: nat)
    requires IsPerm(p) && x < |p|
    ensures Iterate(p, Iterate(p, x, j), k) == Iterate(p, x, j + k)
    decreases k
  {
    if k > 0 { IterateAdd(p, x, j, k - 1); }
  }

  lemma {:induction false} IterateInjective(p: seq<nat>, x: nat, y: nat, k: nat)
    requires IsPerm(p) && x < |p| && y < |p| && Iterate(p, x, k) == Iterate(p, y, k)
    ensures x == y
    decreases k
  {
    if k > 0 { IterateInjective(p, x, y, k - 1); }
  }

  lemma IterateStep(p: seq<nat>, x: nat, k: nat)
    requires IsPerm(p) && x < |p|
    ensures Iterate(p, x, 0) == x && Iterate(p, x, 1) == p[x]
    ensures Iterate(p, x, k + 1) == p[Iterate(p, x, k)]
  {
    assert Iterate(p, x, 1) == p[Iterate(p, x, 0)];
  }

  /** Going k steps from x, taking the partner, and going k more steps ends at the partner of x. */
  lemma {:induction false} IterateFlips(pi: seq<nat>, x: nat, k: nat)
    requires EvenPerm(pi) && x < |pi|
    ensures IsPerm(Pibar(pi))
    ensures var z := Flip(Iterate(Pibar(pi), x, k));
            z < |pi| && Iterate(Pibar(pi), z, k) == Flip(x)
    decreases k
  {
    hide Flip, Pibar, PibarAt, IsPerm, Iterate;
    PibarPerm(pi);
    FlipInRange(x, |pi|);
    var p := Pibar(pi);
    if k == 0 {
      IterateStep(p, x, 0);
      IterateStep(p, Flip(x), 0);
    } else {
      var y := Iterate(p, x, k - 1);
      IterateStep(p, x, k - 1);
      PibarFlips(pi, y);
      var z := Flip(p[y]);
      IterateStep(p, z, 0);
      IterateAdd(p, z, 1, k - 1);
      IterateFlips(pi, x, k - 1);
    }
  }

  /** An element and its partner lie on different cycles of pibar. */
  lemma PartnersApart(pi: seq<nat>, x: nat, k: nat)
    requires EvenPerm(pi) && x < |pi|
    ensures IsPerm(Pibar(pi)) && Iterate(Pibar(pi), x, k) != Flip(x)
  {
    hide Flip, Pibar, PibarAt, IsPerm, Iterate;
    PibarPerm(pi);
    var p, m := Pibar(pi), k / 2;
    var z := Iterate(p, x, m);
    IterateFlips(pi, x, m);
    FlipInRange(z, |pi|);
    if k % 2 == 0 {
      IterateAdd(p, x, m, m);
      if Iterate(p, x, k) == Flip(x) { IterateInjective(p, z, Flip(z), m); }
    } else {
      IterateAdd(p, x, m, m + 1);
      IterateStep(p, z, 0);
      IterateAdd(p, z, 1, m);
      PibarAvoidsPartner(pi, z);
      if Iterate(p, x, k) == Flip(x) { IterateInjective(p, p[z], Flip(z), m); }
    }
  }

  /** No element of a cycle of pibar has its partner on the same cycle. */
  lemma CyclesApart(pi: seq<nat>, x: nat, i: nat, j: nat)
    requires EvenPerm(pi) && x < |pi|
    ensures IsPerm(Pibar(pi)) && Iterate(Pibar(pi), x, i) != Flip(Iterate(Pibar(pi), x, j))
  {
    hide Flip, Pibar, PibarAt, IsPerm, Iterate;
    PibarPerm(pi);
    var p := Pibar(pi);
    var l, h := if i <= j then i else j, if i <= j then j else i;
    IterateAdd(p, x, l, h - l);
    PartnersApart(pi, Iterate(p, x, l), h - l);
    FlipInRange(Iterate(p, x, i), |pi|);
    FlipInRange(Iterate(p, x, j), |pi|);
  }

  ghost function Orbit(p: seq<nat>, x: nat, m: nat): (s: seq<nat>)
    requires IsPerm(p) && x < |p|
    ensures |s| == m
    ensures forall k :: 0 <= k < m ==> s[k] == Iterate(p, x, k) < |p|
  {
    seq(m, k requires 0 <= k < m => Iterate(p, x, k))
  }

  ghost function Partners(s: seq<nat>, n: nat): (t: seq<nat>)
    requires n % 2 == 0 && forall k :: 0 <= k < |s| ==> s[k] < n
    ensures |t| == |s|
    ensures forall k :: 0 <= k < |s| ==> t[k] == Flip(s[k]) < n && Flip(t[k]) == s[k]
  {
    seq(|s|, k requires 0 <= k < |s| => Flip(s[k]))
  }

  /** As long as the iterates do not repeat, they and their partners are all different. */
  lemma DistinctOrbitBound(pi: seq<nat>, x: nat, m: nat)
    requires EvenPerm(pi) && x < |pi| && IsPerm(Pibar(pi)) && Distinct(Orbit(Pibar(pi), x, m))
    ensures 2 * m <= |pi|
  {
    var p, n := Pibar(pi), |pi|;
    var s := Orbit(p, x, m);
    var t := Partners(s, n);
    hide Flip, Pibar, PibarAt, IsPerm, EvenPerm, Iterate, Orbit;
    forall i, j | 0 <= i < m && 0 <= j < m ensures s[i] != t[j] {
      CyclesApart(pi, x, i, j);
    }
    DistinctTogether(s, t, n);
  }

  lemma DistinctTogether(s: seq<nat>, t: seq<nat>, n: nat)
    requires Distinct(s) && Distinct(t)
    requires forall i, j :: 0 <= i < |s| && 0 <= j < |t| ==> s[i] != t[j]
    requires (forall i :: 0 <= i < |s| ==> s[i] < n) && (forall i :: 0 <= i < |t| ==> t[i] < n)
    ensures |s| + |t| <= n
  {
    var u := s + t;
    var values := set k | 0 <= k < |u| :: u[k];
    ValuesCard(u, |u|);
    SubsetCard(values, Range(n));
    RangeCard(n);
  }

  /** Hence every cycle of pibar is closed after at most n/2 steps. */
  lemma ShortPeriod(pi: seq<nat>, x: nat) returns (d: nat)
    requires EvenPerm(pi) && x < |pi|
    ensures IsPerm(Pibar(pi)) && 0 < d <= |pi| / 2 && Iterate(Pibar(pi), x, d) == x
  {
    hide Flip, Pibar, PibarAt, IsPerm, EvenPerm, Iterate, Orbit;
    PibarPerm(pi);
    var p, h := Pibar(pi), |pi| / 2;
    var s := Orbit(p, x, h + 1);
    if Distinct(s) { DistinctOrbitBound(pi, x, h + 1); }
    var i, j :| 0 <= i < |s| && 0 <= j < |s| && s[i] == s[j] && i != j;
    var a, b := if i < j then i else j, if i < j then j else i;
    IterateAdd(p, x, b - a, a);
    IterateInjective(p, Iterate(p, x, b - a), x, a);
    d := b - a;
  }

  lemma {:induction false} IteratePeriodic(p: seq<nat>, x: nat, d: nat, m: nat, r: nat)
    requires IsPerm(p) && x < |p| && Iterate(p, x, d) == x
    ensures Iterate(p, x, m * d + r) == Iterate(p, x, r)
    decreases m
  {
    hide *;
    if m > 0 {
      var rest := (m - 1) * d + r;
      assert m * d + r == d + rest;
      IteratePeriodic(p, x, d, m - 1, r);
      IterateAdd(p, x, d, rest);
    }
  }

  /** Every element of a cycle is met within one period. */
  lemma IterateReduced(p: seq<nat>, x: nat, d: nat, k: nat)
    requires IsPerm(p) && x < |p| && d > 0 && Iterate(p, x, d) == x
    ensures Iterate(p, x, k) == Iterate(p, x, k % d)
  {
    IteratePeriodic(p, x, d, k / d, k % d);
    assert k == (k / d) * d + k % d;
  }

  // ---------------------------------------------------------------- cycle minima

  ghost predicate OnCycle(p: seq<nat>, x: nat, y: nat)
    requires IsPerm(p) && x < |p|
  {
    exists k: nat :: Iterate(p, x, k) == y
  }

  /** c is the least element of the cycle of x. */
  ghost predicate IsCycleMin(p: seq<nat>, x: nat, c: nat)
    requires IsPerm(p) && x < |p|
  {
    OnCycle(p, x, c) && forall k: nat :: c <= Iterate(p, x, k)
  }

  /** The least of the first m iterates. */
  ghost function OrbitMin(p: seq<nat>, x: nat, m: nat): (c: nat)
    requires IsPerm(p) && x < |p| && m > 0
    ensures exists k :: 0 <= k < m && Iterate(p, x, k) == c
    ensures forall k :: 0 <= k < m ==> c <= Iterate(p, x, k)
    decreases m
  {
    if m == 1 then
      assert Iterate(p, x, 0) == x;
      x
    else
      var c, y := OrbitMin(p, x, m - 1), Iterate(p, x, m - 1);
      if y < c then y else c
  }

  /** The least of 2m iterates is the lesser of two minima over m iterates. */
  lemma OrbitMinDoubles(p: seq<nat>, x: nat, m: nat)
    requires IsPerm(p) && x < |p| && m > 0
    ensures var a, b := OrbitMin(p, x, m), OrbitMin(p, Iterate(p, x, m), m);
            OrbitMin(p, x, 2 * m) == if b < a then b else a
  {
    hide IsPerm, Iterate, OrbitMin;
    var y := Iterate(p, x, m);
    var a, b := OrbitMin(p, x, m), OrbitMin(p, y, m);
    var i :| 0 <= i < m && Iterate(p, x, i) == a;
    var j :| 0 <= j < m && Iterate(p, y, j) == b;
    IterateAdd(p, x, m, j);
    var c, l := if b < a then b else a, if b < a then m + j else i;
    OrbitMinBelow(p, x, m, c);
    OrbitMinIs(p, x, 2 * m, c, l);
  }

  lemma OrbitMinBelow(p: seq<nat>, x: nat, m: nat, c: nat)
    requires IsPerm(p) && x < |p| && m > 0
    requires c <= OrbitMin(p, x, m) && c <= OrbitMin(p, Iterate(p, x, m), m)
    ensures forall k :: 0 <= k < 2 * m ==> c <= Iterate(p, x, k)
  {
    hide IsPerm, Iterate, OrbitMin;
    forall k | 0 <= k < 2 * m ensures c <= Iterate(p, x, k) { OrbitHalves(p, x, m, k); }
  }

  lemma OrbitHalves(p: seq<nat>, x: nat, m: nat, k: nat)
    requires IsPerm(p) && x < |p| && m > 0 && k < 2 * m
    ensures (if k < m then OrbitMin(p, x, m) else OrbitMin(p, Iterate(p, x, m), m)) <= Iterate(p, x, k)
  {
    hide IsPerm, Iterate, OrbitMin;
    if k >= m {
      var i := k - m;
      IterateAdd(p, x, m, i);
      assert Iterate(p, Iterate(p, x, m), i) == Iterate(p, x, k);
    }
  }

  lemma OrbitMinIs(p: seq<nat>, x: nat, m: nat, c: nat, i: nat)
    requires IsPerm(p) && x < |p| && i < m && Iterate(p, x, i) == c
    requires forall k :: 0 <= k < m ==> c <= Iterate(p, x, k)
    ensures OrbitMin(p, x, m) == c
  {
    hide IsPerm, Iterate, OrbitMin;
    var k :| 0 <= k < m && Iterate(p, x, k) == OrbitMin(p, x, m);
  }

  /** n/2 iterates suffice for the minimum of the whole cycle. */
  lemma HalfOrbitSuffices(pi: seq<nat>, x: nat)
    requires EvenPerm(pi) && x < |pi|
    ensures IsPerm(Pibar(pi)) && IsCycleMin(Pibar(pi), x, OrbitMin(Pibar(pi), x, |pi| / 2))
  {
    PibarPerm(pi);
    var p := Pibar(pi);
    var d := ShortPeriod(pi, x);
    var c := OrbitMin(p, x, |pi| / 2);
    forall k: nat ensures c <= Iterate(p, x, k) {
      IterateReduced(p, x, d, k);
      assert 0 <= k % d < |pi| / 2;
    }
  }

  /** The partner of an element of the cycle of x is on the cycle of the partner of x. */
  lemma PartnerCycle(pi: seq<nat>, x: nat, y: nat)
    requires EvenPerm(pi) && x < |pi| && IsPerm(Pibar(pi)) && OnCycle(Pibar(pi), x, y)
    ensures y < |pi| && Flip(x) < |pi| && OnCycle(Pibar(pi), Flip(x), Flip(y))
  {
    hide Flip, Pibar, PibarAt, IsPerm, Iterate;
    var p := Pibar(pi);
    FlipInRange(x, |pi|);
    var k: nat :| Iterate(p, x, k) == y;
    FlipInRange(y, |pi|);
    IterateFlips(pi, x, k);
    var z := Flip(y);
    var d := ShortPeriod(pi, z);
    // from z it is k steps to the partner of x, and from there the rest of k periods back to z
    ReturnsTo(p, z, d, k);
  }

  /** On a cycle the way back exists. */
  lemma ReturnsTo(p: seq<nat>, x: nat, d: nat, k: nat)
    requires IsPerm(p) && x < |p| && d > 0 && Iterate(p, x, d) == x
    ensures OnCycle(p, Iterate(p, x, k), x)
  {
    hide IsPerm, Iterate;
    var rest := k * (d - 1);
    assert k + rest == k * d;
    IterateStep(p, x, 0);
    IteratePeriodic(p, x, d, k, 0);
    IterateAdd(p, x, k, rest);
  }

  /** The least element of the partner's cycle is the partner of the least element. */
  lemma PartnerMin(pi: seq<nat>, x: nat, c: nat)
    requires EvenPerm(pi) && x < |pi| && IsPerm(Pibar(pi)) && IsCycleMin(Pibar(pi), x, c)
    ensures Flip(x) < |pi| && IsCycleMin(Pibar(pi), Flip(x), Flip(c))
  {
    hide Pibar, PibarAt, IsPerm, Iterate;
    var p, n := Pibar(pi), |pi|;
    FlipInRange(x, n);
    PartnerCycle(pi, x, c);
    forall k: nat ensures Flip(c) <= Iterate(p, Flip(x), k) {
      var e := Iterate(p, Flip(x), k);
      PartnerCycle(pi, Flip(x), e);
      FlipInRange(e, n);
      var i: nat :| Iterate(p, x, i) == Flip(e);
      var j: nat :| Iterate(p, x, j) == c;
      CyclesApart(pi, x, i, j);
    }
  }

  lemma CycleMinUnique(p: seq<nat>, x: nat, c: nat, e: nat)
    requires IsPerm(p) && x < |p| && IsCycleMin(p, x, c) && IsCycleMin(p, x, e)
    ensures c == e
  {
    var i: nat :| Iterate(p, x, i) == c;
    var j: nat :| Iterate(p, x, j) == e;
  }

  /** pibar does not leave a cycle. */
  lemma CycleMinSteps(p: seq<nat>, x: nat, d: nat, c: nat)
    requires IsPerm(p) && x < |p| && d > 0 && Iterate(p, x, d) == x && IsCycleMin(p, x, c)
    ensures IsCycleMin(p, p[x], c)
  {
    var k: nat :| Iterate(p, x, k) == c;
    IterateStep(p, x, 0);
    hide IsPerm, Iterate;
    IteratePeriodic(p, x, d, 1, k);
    var rest := d + k - 1;
    IterateAdd(p, x, 1, rest);
    assert Iterate(p, p[x], rest) == c;
    forall j: nat ensures c <= Iterate(p, p[x], j) {
      IterateAdd(p, x, 1, j);
    }
  }
}
