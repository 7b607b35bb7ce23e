/** Permutations of 0, 1, ..., n - 1 as sequences, and sorting by a key that is one. */
module Permutations {
  import opened Sequences
  import opened SortNetwork

  ghost predicate IsPerm(p: seq<nat>)
  {
    && (forall x :: 0 <= x < |p| ==> p[x] < |p|)
    && (forall x, y :: 0 <= x < |p| && 0 <= y < |p| && p[x] == p[y] ==> x == y)
  }

  function Identity(n: nat): (p: seq<nat>)
    ensures |p| == n
    ensures forall x :: 0 <= x < n ==> p[x] == x
  {
    seq(n, x => x)
  }

  function Compose(p: seq<nat>, q: seq<nat>): (r: seq<nat>)
    requires forall x :: 0 <= x < |q| ==> q[x] < |p|
    ensures |r| == |q|
  {
    seq(|q|, x requires 0 <= x < |q| => p[q[x]])
  }

  /** An injective map from a finite range into itself is onto. */
  lemma Surjective(p: seq<nat>, y: nat)
    requires IsPerm(p) && y < |p|
    ensures exists x :: 0 <= x < |p| && p[x] == y
  {
    var n := |p|;
    var values := set x | 0 <= x < n :: p[x];
    ValuesCard(p, n);
    RangeCard(n);
    var range := Range(n);
    assert values <= range;
    if y !in values {
      assert values <= range - {y};
      SubsetCard(values, range - {y});
    }
  }

  lemma SubsetCard<T>(a: set<T>, b: set<T>)
    requires a <= b
    ensures |a| <= |b|
  {
    assert b == a + (b - a);
  }

  /** The set of the first n numbers. */
  function Range(n: nat): (s: set<nat>)
    ensures forall x :: x in s <==> 0 <= x < n
  {
    if n == 0 then {} else Range(n - 1) + {n - 1}
  }

  lemma {:induction false} RangeCard(n: nat)
    ensures |Range(n)| == n
  {
    if n > 0 { RangeCard(n - 1); }
  }

  lemma {:induction false} ValuesCard<T>(p: seq<T>, n: nat)
    requires n <= |p| && (forall x, y :: 0 <= x < |p| && 0 <= y < |p| && p[x] == p[y] ==> x == y)
    ensures |set x | 0 <= x < n :: p[x]| == n
  {
    if n > 0 {
      ValuesCard(p, n - 1);
      assert (set x | 0 <= x < n :: p[x]) == (set x | 0 <= x < n - 1 :: p[x]) + {p[n - 1]};
    }
  }

  ghost function IndexOf(p: seq<nat>, y: nat): (x: nat)
    requires IsPerm(p) && y < |p|
    ensures x < |p| && p[x] == y
  {
    Surjective(p, y);
    var x :| 0 <= x < |p| && p[x] == y;
    x
  }

  ghost function Inverse(p: seq<nat>): (q: seq<nat>)
    requires IsPerm(p)
    ensures |q| == |p|
    ensures forall y :: 0 <= y < |p| ==> q[y] < |p| && p[q[y]] == y
  {
    seq(|p|, y requires 0 <= y < |p| => IndexOf(p, y))
  }

  lemma InversePerm(p: seq<nat>)
    requires IsPerm(p)
    ensures IsPerm(Inverse(p))
    ensures forall x :: 0 <= x < |p| ==> Inverse(p)[p[x]] == x
  {
    var q := Inverse(p);
    assert forall x, y :: 0 <= x < |p| && 0 <= y < |p| && q[x] == q[y] ==> p[q[x]] == p[q[y]];
  }

  lemma ComposePerm(p: seq<nat>, q: seq<nat>)
    requires IsPerm(p) && IsPerm(q) && |p| == |q|
    ensures IsPerm(Compose(p, q))
  {}

  /** The inverse is the only right inverse. */
  lemma InverseUnique(p: seq<nat>, q: seq<nat>)
    requires IsPerm(p) && |q| == |p| && (forall x :: 0 <= x < |p| ==> q[x] < |p| && q[p[x]] == x)
    ensures q == Inverse(p)
  {
    forall y | 0 <= y < |p| ensures q[y] == Inverse(p)[y] {
      assert q[p[Inverse(p)[y]]] == Inverse(p)[y];
    }
  }

  // ---------------------------------------------------------------- sorting packed words

  /** Words with a key above a payload of less than `base`. */
  function Pack(key: seq<nat>, payload: seq<nat>, base: nat): (s: seq<int>)
    requires |key| == |payload|
    ensures |s| == |key|
  {
    seq(|key|, x requires 0 <= x < |key| => key[x] * base + payload[x])
  }

  ghost predicate Below(s: seq<nat>, bound: nat)
  {
    forall x :: 0 <= x < |s| ==> s[x] < bound
  }

  lemma KeyOrder(base: nat, k: nat, l: nat, v: nat, w: nat)
    requires v < base && w < base
    ensures k < l ==> k * base + v < l * base + w
    ensures k * base + v == l * base + w ==> k == l && v == w
  {
    var d := l - k;
    assert l * base == k * base + d * base;
    assert d >= 1 ==> d * base >= base;
    assert d <= -1 ==> d * base <= 0 - base;
  }

  lemma HeadAndTail(s: seq<int>)
    requires |s| > 0 && Sorted(s)
    ensures multiset(s[1..]) == multiset(s) - multiset{s[0]}
    ensures Sorted(s[1..]) && s[0] in multiset(s)
    ensures forall v :: v in multiset(s) ==> s[0] <= v
  {
    assert s == [s[0]] + s[1..];
  }

  /** Two sorted sequences with the same elements are equal. */
  lemma {:induction false} SortedUnique(s: seq<int>, t: seq<int>)
    requires Sorted(s) && Sorted(t) && Permutes(s, t)
    ensures s == t
    decreases |s|
  {
    assert |s| == |multiset(s)| == |multiset(t)| == |t|;
    if |s| > 0 {
      var m := multiset(s);
      assert m == multiset(t);
      hide Sorted;
      HeadAndTail(s);
      HeadAndTail(t);
      assert s[0] == t[0];
      assert multiset(s[1..]) == m - multiset{s[0]} == multiset(t[1..]);
      SortedUnique(s[1..], t[1..]);
      assert s == [s[0]] + s[1..] && t == [t[0]] + t[1..];
    }
  }

  lemma {:induction false} DistinctMultiplicity<T>(s: seq<T>, v: T)
    requires Distinct(s)
    ensures multiset(s)[v] == if v in s then 1 else 0
    decreases |s|
  {
    if |s| > 0 {
      var r := s[..|s| - 1];
      DistinctMultiplicity(r, v);
      assert s == r + [s[|s| - 1]];
    }
  }

  /** Distinct sequences with the same elements are permutations of each other. */
  lemma DistinctPermutes(s: seq<int>, t: seq<int>)
    requires Distinct(s) && Distinct(t)
    requires forall v :: v in s <==> v in t
    ensures Permutes(s, t)
  {
    forall v: int ensures multiset(s)[v] == multiset(t)[v] {
      DistinctMultiplicity(s, v);
      DistinctMultiplicity(t, v);
    }
  }

  /** Sorting words whose keys are a permutation puts the payload of key k at index k. */
  lemma SortsByKey(key: seq<nat>, payload: seq<nat>, base: nat, t: seq<int>)
    requires IsPerm(key) && |payload| == |key| && Below(payload, base)
    requires Sorted(t) && Permutes(Pack(key, payload, base), t)
    ensures t == Pack(Identity(|key|), Compose(payload, Inverse(key)), base)
  {
    var inv := Inverse(key);
    var s, u := Pack(key, payload, base), Pack(Identity(|key|), Compose(payload, inv), base);
    InversePerm(key);
    PackDistinct(key, payload, base);
    PackSorted(Compose(payload, inv), base);
    PackDistinct(Identity(|key|), Compose(payload, inv), base);
    forall v: int ensures v in s <==> v in u {
      if v in s {
        var x :| 0 <= x < |s| && s[x] == v;
        assert u[key[x]] == v;
      }
      if v in u {
        var k :| 0 <= k < |u| && u[k] == v;
        assert s[inv[k]] == v;
      }
    }
    DistinctPermutes(s, u);
    SortedUnique(t, u);
  }

  lemma PackDistinct(key: seq<nat>, payload: seq<nat>, base: nat)
    requires IsPerm(key) && |payload| == |key| && Below(payload, base)
    ensures Distinct(Pack(key, payload, base))
  {
    var s := Pack(key, payload, base);
    forall x, y | 0 <= x < |s| && 0 <= y < |s| && s[x] == s[y] ensures x == y {
      KeyOrder(base, key[x], key[y], payload[x], payload[y]);
    }
  }

  lemma PackSorted(payload: seq<nat>, base: nat)
    requires Below(payload, base)
    ensures Sorted(Pack(Identity(|payload|), payload, base))
  {
    var s := Pack(Identity(|payload|), payload, base);
    forall x, y | 0 <= x <= y < |s| ensures s[x] <= s[y] {
      if x < y { KeyOrder(base, x, y, payload[x], payload[y]); }
    }
  }
}
