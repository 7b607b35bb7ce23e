/** The two places where the sorting network turns random words into a permutation or into a set:
    the field ordering of the public-key generation and the error positions of the encryption. */
module KeyPermutation {
  import opened Words
  import opened Arithmetic
  import opened CInt
  import opened SortNetwork
  import opened Permutations
  import opened Sequences
  import ControlBitsCode

  // ---------------------------------------------------------------- duplicates

  /** A permutation of a sequence without duplicates has none. */
  lemma DistinctCarries(s: seq<int>, t: seq<int>)
    requires Permutes(s, t)
    ensures Distinct(s) <==> Distinct(t)
  {
    if Distinct(s) { DistinctCarriesOver(s, t); }
    if Distinct(t) { DistinctCarriesOver(t, s); }
  }

  lemma DistinctCarriesOver(s: seq<int>, t: seq<int>)
    requires Permutes(s, t) && Distinct(s)
    ensures Distinct(t)
  {
    forall i, j | 0 <= i < j < |t| ensures t[i] != t[j] {
      if t[i] == t[j] {
        DistinctMultiplicity(s, t[i]);
        TwiceCounted(t, i, j);
      }
    }
  }

  lemma TwiceCounted(t: seq<int>, i: nat, j: nat)
    requires i < j < |t| && t[i] == t[j]
    ensures multiset(t)[t[i]] >= 2
  {
    assert t == t[..j] + t[j..];
    assert t[..j][i] == t[i] && t[j..][0] == t[i];
    assert t[i] in multiset(t[..j]) && t[i] in multiset(t[j..]);
  }

  /** In a sorted sequence duplicates are neighbours. */
  lemma NeighboursExact(s: seq<int>)
    requires Sorted(s)
    ensures Distinct(s) <==> forall i :: 1 <= i < |s| ==> s[i - 1] != s[i]
  {
    if forall i :: 1 <= i < |s| ==> s[i - 1] != s[i] {
      forall i, j | 0 <= i < j < |s| ensures s[i] != s[j] {
        assert s[i] <= s[j - 1] <= s[j] && s[j - 1] != s[j];
      }
    }
  }

  // ---------------------------------------------------------------- the field ordering

  lemma {:induction false} OrCommutes(w: nat, a: nat, b: nat)
    ensures Or(w, a, b) == Or(w, b, a)
  {
    if w > 0 { OrCommutes(w - 1, a / 2, b / 2); }
  }

  /** list[i] <<= GFBITS; list[i] |= i; list[i] |= ((uint64_t) perm[i]) << 31; */
  function KeyOf(g: nat, v: nat, i: nat, p: nat): (x: nat)
  {
    Or(64, Or(64, v * Pow2(g), i), p * Pow2(31))
  }

  lemma KeyIs(g: nat, v: nat, i: nat, p: nat)
    requires g <= 15 && v < Pow2(g) && i < Pow2(g) && p < 0x1_0000_0000
    ensures KeyOf(g, v, i, p) == p * 0x8000_0000 + (v * Pow2(g) + i) < 0x8000_0000_0000_0000
    ensures v * Pow2(g) + i < 0x8000_0000
  {
    hide *;
    Pow2Values();
    var l := v * Pow2(g) + i;
    LowPart(g, v, i);
    OrDisjoint(64, g, v, i);
    OrDisjoint(64, 31, p, l);
    OrCommutes(64, p * Pow2(31), l);
    KeyUnfolds(g, v, i, p);
  }

  lemma KeyUnfolds(g: nat, v: nat, i: nat, p: nat)
    ensures KeyOf(g, v, i, p) == Or(64, Or(64, v * Pow2(g), i), p * Pow2(31))
  {}

  lemma LowPart(g: nat, v: nat, i: nat)
    requires g <= 15 && v < Pow2(g) && i < Pow2(g)
    ensures 0 <= v * Pow2(g) && v * Pow2(g) + i < 0x8000_0000
  {
    hide *;
    ControlBitsCode.Pow2Monotone(g, 15);
    Pow2Values();
    DigitsBound(v, Pow2(g), i);
  }

  lemma DigitsBound(v: nat, b: nat, i: nat)
    requires v < b <= 0x8000 && i < b
    ensures 0 <= v * b && v * b + i < 0x8000_0000
  {
    assert v * b <= v * 0x8000 by { assert v * (0x8000 - b) >= 0; }
  }

  /** The parts of a key: list[k] >> 31 and list[k] & GFMASK. */
  lemma KeyParts(g: nat, v: nat, i: nat, p: nat)
    requires g <= 15 && v < Pow2(g) && i < Pow2(g) && p < 0x1_0000_0000
    ensures KeyOf(g, v, i, p) / 0x8000_0000 == p && KeyOf(g, v, i, p) % Pow2(g) == i
  {
    hide *;
    KeyIs(g, v, i, p);
    Pow2Values();
    QuotientUnique(0x8000_0000, p, v * Pow2(g) + i);
    Pow2Add(31 - g, g);
    Multiples(p, Pow2(31 - g), Pow2(g), v, i);
    QuotientUnique(Pow2(g), p * Pow2(31 - g) + v, i);
  }

  lemma Multiples(p: nat, a: nat, b: nat, v: nat, i: nat)
    ensures p * (a * b) + (v * b + i) == b * (p * a + v) + i
  {}

  ghost predicate KeyRanges(inv: seq<nat>, perm: seq<nat>, g: nat)
  {
    && 1 <= g <= 15 && |inv| == |perm| == Pow2(g)
    && (forall i :: 0 <= i < |inv| ==> inv[i] < Pow2(g)) && (forall i :: 0 <= i < |perm| ==> perm[i] < 0x1_0000_0000)
  }

  ghost function Keys(inv: seq<nat>, perm: seq<nat>, g: nat): (s: seq<int>)
    requires |inv| == |perm|
    ensures |s| == |inv|
  {
    seq(|inv|, i requires 0 <= i < |inv| => KeyOf(g, inv[i], i, perm[i]))
  }

  lemma KeyAt(inv: seq<nat>, perm: seq<nat>, g: nat, i: nat)
    requires KeyRanges(inv, perm, g) && i < |inv|
    ensures var x := Keys(inv, perm, g)[i];
            0 <= x < 0x8000_0000_0000_0000 && x / 0x8000_0000 == perm[i] && x % Pow2(g) == i
  {
    KeyIs(g, inv[i], i, perm[i]);
    KeyParts(g, inv[i], i, perm[i]);
  }

  lemma KeysDistinct(inv: seq<nat>, perm: seq<nat>, g: nat)
    requires KeyRanges(inv, perm, g)
    ensures Distinct(Keys(inv, perm, g)) && AllInRange(UInt64, Keys(inv, perm, g))
  {
    hide Keys, KeyOf, Pow2;
    Pow2Values();
    var s := Keys(inv, perm, g);
    forall i | 0 <= i < |s| ensures UInt64.InRange(s[i]) && s[i] % Pow2(g) == i { KeyAt(inv, perm, g, i); }
  }

  function LowOf(x: int, g: nat): (v: nat)
  {
    x % Pow2(g)
  }

  /** list[k] & GFMASK, and list[k] >> 31 */
  function Order(t: seq<int>, g: nat): (q: seq<nat>)
    ensures |q| == |t|
  {
    seq(|t|, k requires 0 <= k < |t| => LowOf(t[k], g))
  }

  function Tops(t: seq<int>): (p: seq<int>)
    ensures |p| == |t|
  {
    seq(|t|, k requires 0 <= k < |t| => t[k] / 0x8000_0000)
  }

  /** The low parts of the sorted keys are a permutation, and the high parts follow it. */
  lemma SortedKeys(inv: seq<nat>, perm: seq<nat>, g: nat, t: seq<int>)
    requires KeyRanges(inv, perm, g) && Sorted(t) && Permutes(Keys(inv, perm, g), t)
    ensures |t| == |perm| && IsPerm(Order(t, g)) && Sorted(Tops(t))
    ensures forall k :: 0 <= k < |t| ==> Order(t, g)[k] < |perm| && Tops(t)[k] == perm[Order(t, g)[k]]
  {
    var s, q := Keys(inv, perm, g), Order(t, g);
    assert |multiset(s)| == |multiset(t)|;
    KeysDistinct(inv, perm, g);
    DistinctCarries(s, t);
    hide Keys, KeyOf;
    forall k | 0 <= k < |t| ensures q[k] < |perm| && t[k] == s[q[k]] && Tops(t)[k] == perm[q[k]] {
      assert t[k] in multiset(t);
      assert t[k] in multiset(s);
      var i :| 0 <= i < |s| && s[i] == t[k];
      KeyAt(inv, perm, g, i);
    }
    forall i, j | 0 <= i <= j < |t| ensures Tops(t)[i] <= Tops(t)[j] { TopOrder(t[i], t[j]); }
  }

  lemma TopOrder(x: int, y: int)
    requires x <= y
    ensures x / 0x8000_0000 <= y / 0x8000_0000
  {}

  /** The high parts have a duplicate exactly when the random words have one. */
  lemma TopsDistinct(perm: seq<nat>, q: seq<nat>, tops: seq<int>)
    requires IsPerm(q) && |q| == |perm| == |tops| && forall k :: 0 <= k < |q| ==> q[k] < |perm| && tops[k] == perm[q[k]]
    ensures Distinct(tops) <==> Distinct(perm)
  {
    if Distinct(tops) {
      forall x, y | 0 <= x < |perm| && 0 <= y < |perm| && perm[x] == perm[y] ensures x == y {
        var i, j := IndexOf(q, x), IndexOf(q, y);
        assert tops[i] == tops[j];
      }
    }
  }

  /** for (i = 0; i < n; i++) { list[i] = ... } */
  method LoadKeys(list: array<int>, perm: array<nat>, g: nat, n: nat, ghost inv: seq<nat>)
    requires list.Length == perm.Length == n == |inv| && KeyRanges(inv, perm[..], g)
    requires forall i :: 0 <= i < n ==> list[i] == inv[i]
    requires list as object != perm
    modifies list
    ensures list[..] == Keys(inv, perm[..], g)
  {
    hide KeyOf, Pow2;
    var i := 0;
    while i < n
      invariant 0 <= i <= n
      invariant forall k :: 0 <= k < i ==> list[k] == KeyOf(g, inv[k], k, perm[k])
      invariant forall k :: i <= k < n ==> list[k] == inv[k]
    {
      list[i] := KeyOf(g, list[i], i, perm[i]);
      i := i + 1;
    }
  }

  /** for (i = 1; i < n; i++) if (list[i-1] >> 31 == list[i] >> 31) return -1; */
  method NoNeighbours(list: array<int>, n: nat) returns (ok: bool)
    requires list.Length == n && Sorted(Tops(list[..]))
    ensures ok <==> Distinct(Tops(list[..]))
  {
    ghost var t := Tops(list[..]);
    NeighboursExact(t);
    hide Distinct, Sorted;
    var i := 1;
    while i < n
      invariant 1 <= i && forall k :: 1 <= k < i && k < n ==> t[k - 1] != t[k]
    {
      assert t[i - 1] == list[i - 1] / 0x8000_0000 && t[i] == list[i] / 0x8000_0000;
      if list[i - 1] / 0x8000_0000 == list[i] / 0x8000_0000 { return false; }
      i := i + 1;
    }
    ok := true;
  }

  /** The ordering of the field: it fails exactly when a random word occurs twice, and otherwise pi is
      the permutation that sorts the random words. */
  method OrderField(list: array<int>, perm: array<nat>, pi: array<nat>, g: nat, n: nat, ghost inv: seq<nat>) returns (ok: bool)
    requires list.Length == perm.Length == pi.Length == n == |inv| && KeyRanges(inv, perm[..], g)
    requires forall i :: 0 <= i < n ==> list[i] == inv[i]
    requires list as object != perm && list as object != pi && perm != pi
    modifies list, pi
    ensures ok <==> Distinct(perm[..])
    ensures ok ==> IsPerm(pi[..]) && forall i, j :: 0 <= i < j < n ==> pi[i] < n && pi[j] < n && perm[pi[i]] < perm[pi[j]]
  {
    ghost var p := perm[..];
    LoadKeys(list, perm, g, n, inv);
    KeysDistinct(inv, p, g);
    assert list[0..0 + n] == list[..];
    Sort(UInt64, list, 0, n);
    ghost var t := list[..];
    assert list[0..0 + n] == t;
    SortedKeys(inv, p, g, t);
    TopsDistinct(p, Order(t, g), Tops(t));
    ok := NoNeighbours(list, n);
    if !ok { return; }
    ReadOrder(list, pi, g, n);
    OrderedKeys(p, Order(t, g), Tops(t));
  }

  lemma OrderedKeys(p: seq<nat>, q: seq<nat>, tops: seq<int>)
    requires |q| == |p| == |tops| && Sorted(tops) && Distinct(tops) && forall k :: 0 <= k < |q| ==> q[k] < |p| && tops[k] == p[q[k]]
    ensures forall i, j :: 0 <= i < j < |p| ==> p[q[i]] < p[q[j]]
  {
    forall i, j | 0 <= i < j < |p| ensures p[q[i]] < p[q[j]] { assert tops[i] <= tops[j] && tops[i] != tops[j]; }
  }

  /** for (i = 0; i < n; i++) pi[i] = list[i] & GFMASK; */
  method ReadOrder(list: array<int>, pi: array<nat>, g: nat, n: nat)
    requires list.Length == pi.Length == n && list as object != pi
    modifies pi
    ensures pi[..] == Order(list[..], g)
  {
    hide Pow2;
    var i := 0;
    while i < n
      invariant 0 <= i <= n && forall k :: 0 <= k < i ==> pi[k] == list[k] % Pow2(g)
    {
      pi[i] := list[i] % Pow2(g);
      i := i + 1;
    }
  }
}
