/** The quicksort of the benchmark utilities: a partition from both ends around a pivot element that
    moves when it is swapped. */
module QuickSort {

  /** memswap(a, b, size): two ranges of bytes that do not overlap are exchanged. */
  method MemSwap<T>(m: array<T>, a: nat, b: nat, size: nat)
    requires a + size <= b && b + size <= m.Length
    modifies m
    ensures m[a..a + size] == old(m[b..b + size]) && m[b..b + size] == old(m[a..a + size])
    ensures m[..a] == old(m[..a]) && m[a + size..b] == old(m[a + size..b]) && m[b + size..] == old(m[b + size..])
  {
    ghost var s := m[..];
    var i := 0;
    while i < size
      invariant 0 <= i <= size && HalfSwapped(m[..], s, a, b, i)
    {
      ghost var t := m[..];
      var temp := m[a + i];
      m[a + i] := m[b + i];
      m[b + i] := temp;
      HalfSwappedStep(t, m[..], s, a, b, i, size);
      i := i + 1;
    }
    SwappedRanges(m[..], s, a, b, size);
  }

  /** The first i bytes of the ranges are exchanged. */
  ghost predicate HalfSwapped<T>(t: seq<T>, s: seq<T>, a: nat, b: nat, i: nat)
  {
    && |t| == |s| && a + i <= b && b + i <= |s|
    && (forall k :: a <= k < a + i ==> t[k] == s[k + (b - a)])
    && (forall k :: b <= k < b + i ==> t[k] == s[k - (b - a)])
    && (forall k :: 0 <= k < |s| && !(a <= k < a + i) && !(b <= k < b + i) ==> t[k] == s[k])
  }

  lemma HalfSwappedStep<T>(t: seq<T>, u: seq<T>, s: seq<T>, a: nat, b: nat, i: nat, size: nat)
    requires HalfSwapped(t, s, a, b, i) && i < size && a + size <= b && b + size <= |s|
    requires u == t[a + i := t[b + i]][b + i := t[a + i]]
    ensures HalfSwapped(u, s, a, b, i + 1)
  {}

  lemma SwappedRanges<T>(t: seq<T>, s: seq<T>, a: nat, b: nat, size: nat)
    requires HalfSwapped(t, s, a, b, size)
    ensures t[a..a + size] == s[b..b + size] && t[b..b + size] == s[a..a + size]
    ensures t[..a] == s[..a] && t[a + size..b] == s[a + size..b] && t[b + size..] == s[b + size..]
  {}

  // ---------------------------------------------------------------- orders

  /** A comparator that orders all pairs: its sign is antisymmetric and "not greater" is transitive. */
  ghost predicate TotalPreorder<T(!new)>(cmp: (T, T) -> int)
  {
    && (forall x, y :: cmp(x, y) < 0 <==> cmp(y, x) > 0)
    && forall x, y, z :: cmp(x, y) <= 0 && cmp(y, z) <= 0 ==> cmp(x, z) <= 0
  }

  ghost predicate Sorted<T(!new)>(cmp: (T, T) -> int, s: seq<T>)
  {
    forall i, j :: 0 <= i < j < |s| ==> cmp(s[i], s[j]) <= 0
  }

  ghost predicate AllBelow<T(!new)>(cmp: (T, T) -> int, s: seq<T>, v: T)
  {
    forall i :: 0 <= i < |s| ==> cmp(s[i], v) <= 0
  }

  ghost predicate AllAbove<T(!new)>(cmp: (T, T) -> int, s: seq<T>, v: T)
  {
    forall i :: 0 <= i < |s| ==> cmp(v, s[i]) <= 0
  }

  lemma Equal<T(!new)>(cmp: (T, T) -> int, v: T)
    requires TotalPreorder(cmp)
    ensures cmp(v, v) == 0
  {}

  lemma Flip<T(!new)>(cmp: (T, T) -> int, x: T, y: T)
    requires TotalPreorder(cmp)
    ensures cmp(x, y) >= 0 <==> cmp(y, x) <= 0
  {}

  /** A property of all elements survives a permutation. */
  lemma BelowPermuted<T(!new)>(cmp: (T, T) -> int, s: seq<T>, t: seq<T>, v: T)
    requires AllBelow(cmp, s, v) && multiset(s) == multiset(t)
    ensures AllBelow(cmp, t, v)
  {
    forall i | 0 <= i < |t| ensures cmp(t[i], v) <= 0 {
      assert t[i] in multiset(t);
      assert t[i] in s;
    }
  }

  lemma AbovePermuted<T(!new)>(cmp: (T, T) -> int, s: seq<T>, t: seq<T>, v: T)
    requires AllAbove(cmp, s, v) && multiset(s) == multiset(t)
    ensures AllAbove(cmp, t, v)
  {
    forall i | 0 <= i < |t| ensures cmp(v, t[i]) <= 0 {
      assert t[i] in multiset(t);
      assert t[i] in s;
    }
  }

  lemma SortedJoined<T(!new)>(cmp: (T, T) -> int, s: seq<T>, m: seq<T>, t: seq<T>, v: T)
    requires TotalPreorder(cmp) && Sorted(cmp, s) && Sorted(cmp, t) && AllBelow(cmp, s, v) && AllAbove(cmp, t, v)
    requires |m| <= 1 && AllBelow(cmp, m, v) && AllAbove(cmp, m, v)
    ensures Sorted(cmp, s + m + t)
  {
    var a := s + m + t;
    forall i, j | 0 <= i < j < |a| ensures cmp(a[i], a[j]) <= 0 {
      if j < |s| {
        assert a[i] == s[i] && a[j] == s[j];
      } else if i >= |s| + |m| {
        var k, l := i - |s| - |m|, j - |s| - |m|;
        assert a[i] == t[k] && a[j] == t[l];
      } else {
        assert cmp(a[i], v) <= 0;
        assert cmp(v, a[j]) <= 0;
      }
    }
  }

  // ---------------------------------------------------------------- the partition

  /** The array with two elements exchanged. */
  function Swapped<T>(s: seq<T>, i: nat, j: nat): (t: seq<T>)
    requires i < |s| && j < |s|
    ensures |t| == |s|
  {
    s[i := s[j]][j := s[i]]
  }

  lemma SwappedAt<T>(s: seq<T>, i: nat, j: nat, k: nat)
    requires i < |s| && j < |s| && k < |s|
    ensures Swapped(s, i, j)[if k == i then j else if k == j then i else k] == s[k]
  {}

  /** The elements from lo to hi are permuted, the others stay. */
  ghost predicate Rearranged<T>(s: seq<T>, t: seq<T>, lo: nat, hi: nat)
  {
    |s| == |t| && lo <= hi <= |s| && multiset(s[lo..hi]) == multiset(t[lo..hi]) && s[..lo] == t[..lo] && s[hi..] == t[hi..]
  }

  lemma RearrangedTwice<T>(s: seq<T>, t: seq<T>, u: seq<T>, lo: nat, hi: nat)
    requires Rearranged(s, t, lo, hi) && Rearranged(t, u, lo, hi)
    ensures Rearranged(s, u, lo, hi)
  {}

  /** A permutation of a part is a permutation of the whole. */
  lemma RearrangedWider<T>(s: seq<T>, t: seq<T>, lo: nat, hi: nat, l: nat, h: nat)
    requires Rearranged(s, t, l, h) && lo <= l && h <= hi <= |s|
    ensures Rearranged(s, t, lo, hi)
  {
    assert s[lo..hi] == s[..l][lo..] + s[l..h] + s[h..][..hi - h];
    assert t[lo..hi] == t[..l][lo..] + t[l..h] + t[h..][..hi - h];
    assert s[..lo] == s[..l][..lo] && t[..lo] == t[..l][..lo];
    assert s[hi..] == s[h..][hi - h..] && t[hi..] == t[h..][hi - h..];
  }

  lemma SwappedSame<T>(s: seq<T>, i: nat, j: nat, lo: nat, hi: nat)
    requires lo <= i < hi <= |s| && lo <= j < hi
    ensures Rearranged(s, Swapped(s, i, j), lo, hi)
  {
    var p := s[lo..hi];
    assert Swapped(s, i, j)[lo..hi] == p[i - lo := p[j - lo]][j - lo := p[i - lo]];
  }

  /** What the partition keeps for the pivot value v: before l nothing is greater, after h nothing is
      smaller, and both scans will stop inside the range. */
  ghost predicate Split<T(!new)>(cmp: (T, T) -> int, s: seq<T>, lo: nat, hi: nat, l: int, h: int, v: T)
  {
    && lo <= hi <= |s| && lo <= l <= hi && lo - 1 <= h < hi
    && (forall k :: lo <= k < l ==> cmp(s[k], v) <= 0)
    && (forall k :: h < k < hi ==> cmp(s[k], v) >= 0)
  }

  // ---------------------------------------------------------------- elements in memory

  /** The place of element k. */
  function Place(k: nat, size: nat): (p: nat)
  {
    k * size
  }

  /** The bytes at b + k*size. */
  function Element<B>(m: seq<B>, size: nat, k: nat): (e: seq<B>)
  {
    if Place(k, size) + size <= |m| then m[Place(k, size)..Place(k, size) + size] else []
  }

  /** The n elements of the array. */
  function View<B>(m: seq<B>, size: nat, n: nat): (s: seq<seq<B>>)
    ensures |s| == n && forall k :: 0 <= k < n ==> s[k] == Element(m, size, k)
  {
    seq(n, k requires 0 <= k < n => Element(m, size, k))
  }

  lemma PlaceUp(k: nat, d: nat, size: nat)
    ensures Place(k, size) + size <= Place(k + 1 + d, size)
  {
    assert (k + 1 + d) * size == k * size + size + d * size;
  }

  /** Different elements do not overlap. */
  lemma Places(l: nat, h: nat, n: nat, size: nat)
    requires l < h < n
    ensures Place(l, size) == l * size && Place(h, size) == h * size && Place(l, size) + size <= Place(h, size)
    ensures Place(h, size) + size <= Place(n, size)
  {
    PlaceUp(l, h - l - 1, size);
    PlaceUp(h, n - h - 1, size);
  }

  /** Exchanging the bytes of two elements exchanges the elements. */
  lemma SwappedView<B>(s: seq<B>, t: seq<B>, size: nat, n: nat, l: nat, h: nat)
    requires l < h < n && |s| == |t| == Place(n, size) && Place(l, size) + size <= Place(h, size) && Place(h, size) + size <= |s|
    requires t[Place(l, size)..Place(l, size) + size] == s[Place(h, size)..Place(h, size) + size]
    requires t[Place(h, size)..Place(h, size) + size] == s[Place(l, size)..Place(l, size) + size]
    requires t[..Place(l, size)] == s[..Place(l, size)] && t[Place(l, size) + size..Place(h, size)] == s[Place(l, size) + size..Place(h, size)]
    requires t[Place(h, size) + size..] == s[Place(h, size) + size..]
    ensures View(t, size, n) == Swapped(View(s, size, n), l, h)
  {
    var v, w := View(t, size, n), Swapped(View(s, size, n), l, h);
    hide Place;
    forall k | 0 <= k < n ensures v[k] == w[k] {
      SwappedElement(s, t, size, n, l, h, k);
    }
  }

  lemma SwappedElement<B>(s: seq<B>, t: seq<B>, size: nat, n: nat, l: nat, h: nat, k: nat)
    requires l < h < n && k < n && |s| == |t| == Place(n, size) && Place(l, size) + size <= Place(h, size) && Place(h, size) + size <= |s|
    requires t[Place(l, size)..Place(l, size) + size] == s[Place(h, size)..Place(h, size) + size]
    requires t[Place(h, size)..Place(h, size) + size] == s[Place(l, size)..Place(l, size) + size]
    requires t[..Place(l, size)] == s[..Place(l, size)] && t[Place(l, size) + size..Place(h, size)] == s[Place(l, size) + size..Place(h, size)]
    requires t[Place(h, size) + size..] == s[Place(h, size) + size..]
    ensures Element(t, size, k) == Element(s, size, if k == l then h else if k == h then l else k)
  {
    hide *;
    InEnd(k, n, size);
    ElementIs(s, size, k);
    ElementIs(t, size, k);
    ElementIs(s, size, l);
    ElementIs(s, size, h);
    var p, a, b := Place(k, size), Place(l, size), Place(h, size);
    if k < l {
      Places(k, l, n, size);
      SameInside(s, t, 0, a, p, size);
    } else if l < k < h {
      Places(l, k, n, size);
      Places(k, h, n, size);
      SameInside(s, t, a + size, b, p, size);
    } else if h < k {
      Places(h, k, n, size);
      SameInside(s, t, b + size, |s|, p, size);
    }
  }

  lemma ElementIs<B>(m: seq<B>, size: nat, k: nat)
    ensures Place(k, size) + size <= |m| ==> Element(m, size, k) == m[Place(k, size)..Place(k, size) + size]
  {
    hide Place;
  }

  lemma SameInside<B>(s: seq<B>, t: seq<B>, lo: nat, hi: nat, p: nat, size: nat)
    requires lo <= p && p + size <= hi <= |s| && |s| == |t| && s[lo..hi] == t[lo..hi]
    ensures s[p..p + size] == t[p..p + size]
  {
    forall i | p <= i < p + size ensures s[i] == t[i] {
      assert s[lo..hi][i - lo] == t[lo..hi][i - lo];
    }
  }

  lemma InEnd(k: nat, n: nat, size: nat)
    requires k < n
    ensures Place(k, size) + size <= Place(n, size)
  {
    PlaceUp(k, n - k - 1, size);
  }

  // ---------------------------------------------------------------- the scans and the partition

  /** while (cmp(b + l*size, b + pivot*size) < 0) ++l; */
  method ScanUp<B(!new)>(m: array<B>, size: nat, n: nat, cmp: (seq<B>, seq<B>) -> int, lo: nat, hi: nat, l0: nat, h: int, pivot: nat, ghost stop: nat) returns (l: nat)
    requires TotalPreorder(cmp) && hi <= n && m.Length == Place(n, size) && lo <= pivot < hi
    requires Split(cmp, View(m[..], size, n), lo, hi, l0, h, Element(m[..], size, pivot)) && l0 <= stop < hi && cmp(Element(m[..], size, stop), Element(m[..], size, pivot)) >= 0
    ensures l0 <= l <= stop && Split(cmp, View(m[..], size, n), lo, hi, l, h, Element(m[..], size, pivot)) && cmp(Element(m[..], size, l), Element(m[..], size, pivot)) >= 0
    ensures forall k :: l0 <= k < l ==> cmp(Element(m[..], size, k), Element(m[..], size, pivot)) < 0
  {
    hide Element, Place, TotalPreorder;
    l := l0;
    while cmp(Element(m[..], size, l), Element(m[..], size, pivot)) < 0
      invariant l0 <= l <= stop && Split(cmp, View(m[..], size, n), lo, hi, l, h, Element(m[..], size, pivot))
      invariant forall k :: l0 <= k < l ==> cmp(Element(m[..], size, k), Element(m[..], size, pivot)) < 0
      decreases stop - l
    {
      l := l + 1;
    }
  }

  /** while (cmp(b + h*size, b + pivot*size) > 0) --h; */
  method ScanDown<B(!new)>(m: array<B>, size: nat, n: nat, cmp: (seq<B>, seq<B>) -> int, lo: nat, hi: nat, l: nat, h0: nat, pivot: nat, ghost stop: nat) returns (h: nat)
    requires TotalPreorder(cmp) && hi <= n && m.Length == Place(n, size) && lo <= pivot < hi
    requires Split(cmp, View(m[..], size, n), lo, hi, l, h0, Element(m[..], size, pivot)) && lo <= stop <= h0 && cmp(Element(m[..], size, stop), Element(m[..], size, pivot)) <= 0
    ensures stop <= h <= h0 && Split(cmp, View(m[..], size, n), lo, hi, l, h, Element(m[..], size, pivot)) && cmp(Element(m[..], size, h), Element(m[..], size, pivot)) <= 0
  {
    hide Element, Place, TotalPreorder;
    h := h0;
    while cmp(Element(m[..], size, h), Element(m[..], size, pivot)) > 0
      invariant stop <= h <= h0 && Split(cmp, View(m[..], size, n), lo, hi, l, h, Element(m[..], size, pivot))
      decreases h - stop
    {
      h := h - 1;
    }
  }

  /** Both scans: they stop inside the range, at most one place beyond each other. */
  method Scan<B(!new)>(m: array<B>, size: nat, n: nat, cmp: (seq<B>, seq<B>) -> int, lo: nat, hi: nat, l0: nat, h0: nat, pivot: nat, ghost up: nat, ghost down: nat)
    returns (l: nat, h: nat)
    requires TotalPreorder(cmp) && hi <= n && m.Length == Place(n, size) && lo <= pivot < hi
    requires Split(cmp, View(m[..], size, n), lo, hi, l0, h0, Element(m[..], size, pivot)) && Stops(cmp, View(m[..], size, n), lo, hi, l0, h0, Element(m[..], size, pivot), up, down)
    ensures l0 <= l < hi && lo <= h <= h0 && l <= h + 1 && Split(cmp, View(m[..], size, n), lo, hi, l, h, Element(m[..], size, pivot))
    ensures cmp(Element(m[..], size, l), Element(m[..], size, pivot)) >= 0 && cmp(Element(m[..], size, h), Element(m[..], size, pivot)) <= 0
  {
    hide Element, Place, TotalPreorder, View;
    l := ScanUp(m, size, n, cmp, lo, hi, l0, h0, pivot, up);
    ghost var last := if up == down || l == l0 then down else l - 1;
    h := ScanDown(m, size, n, cmp, lo, hi, l, h0, pivot, last);
  }

  /** The elements at which the scans stop at the latest: the pivot in the first pass, the elements that
      were exchanged last in the others. */
  ghost predicate Stops<T(!new)>(cmp: (T, T) -> int, s: seq<T>, lo: nat, hi: nat, l: int, h: int, v: T, up: nat, down: nat)
  {
    && lo <= l <= up < hi <= |s| && lo <= down <= h && up <= h + 1 && l <= down + 1 && down <= up
    && cmp(s[up], v) >= 0 && cmp(s[down], v) <= 0
  }

  lemma SplitSwapped<T(!new)>(cmp: (T, T) -> int, s: seq<T>, lo: nat, hi: nat, l: nat, h: nat, v: T)
    requires Split(cmp, s, lo, hi, l, h, v) && lo <= l < h < hi && cmp(s[l], v) >= 0 && cmp(s[h], v) <= 0
    ensures Split(cmp, Swapped(s, l, h), lo, hi, l + 1, h - 1, v)
    ensures Stops(cmp, Swapped(s, l, h), lo, hi, l + 1, h - 1, v, h, l)
  {}

  lemma SplitEnds<T(!new)>(cmp: (T, T) -> int, s: seq<T>, lo: nat, hi: nat, l: nat, h: nat, v: T)
    requires TotalPreorder(cmp) && Split(cmp, s, lo, hi, l, h, v)
    ensures AllBelow(cmp, s[lo..l], v) && AllAbove(cmp, s[h + 1..hi], v)
  {}

  /** memswap(b + l*size, b + h*size, size), and the pivot follows its element. */
  method SwapEnds<B>(m: array<B>, size: nat, n: nat, l: nat, h: nat, pivot: nat) returns (p: nat)
    requires l < h < n && pivot < n && m.Length == Place(n, size)
    modifies m
    ensures View(m[..], size, n) == Swapped(old(View(m[..], size, n)), l, h)
    ensures p == (if pivot == l then h else if pivot == h then l else pivot) && Element(m[..], size, p) == old(Element(m[..], size, pivot))
  {
    hide *;
    Places(l, h, n, size);
    ghost var s := m[..];
    MemSwap(m, l * size, h * size, size);
    SwappedView(s, m[..], size, n, l, h);
    SwappedAt(View(s, size, n), l, h, pivot);
    p := if pivot == l then h else if pivot == h then l else pivot;
  }

  /** The partition of the elements from lo to hi. */
  method Partition<B(!new)>(m: array<B>, size: nat, n: nat, cmp: (seq<B>, seq<B>) -> int, lo: nat, hi: nat) returns (l: nat, h: nat, ghost v: seq<B>)
    requires TotalPreorder(cmp) && lo + 2 <= hi <= n && m.Length == Place(n, size)
    modifies m
    ensures lo <= l < hi && lo <= h < hi && h <= l <= h + 1
    ensures AllBelow(cmp, View(m[..], size, n)[lo..l], v) && AllAbove(cmp, View(m[..], size, n)[h + 1..hi], v)
    ensures l == h ==> cmp(Element(m[..], size, l), v) <= 0 && cmp(v, Element(m[..], size, l)) <= 0
    ensures Rearranged(old(View(m[..], size, n)), View(m[..], size, n), lo, hi)
  {
    hide *;
    var pivot := lo + (hi - lo) / 2;
    l, h := lo, hi - 1;
    v := Element(m[..], size, pivot);
    ghost var up: nat, down: nat := pivot, pivot;
    PartitionStarts(cmp, View(m[..], size, n), lo, hi, pivot);
    while true
      invariant lo <= pivot < hi && Element(m[..], size, pivot) == v
      invariant Split(cmp, View(m[..], size, n), lo, hi, l, h, v) && Stops(cmp, View(m[..], size, n), lo, hi, l, h, v, up, down)
      invariant Rearranged(old(View(m[..], size, n)), View(m[..], size, n), lo, hi)
      invariant l <= h + 2 && lo <= l && h < hi
      decreases h - l + 2
    {
      l, h := Scan(m, size, n, cmp, lo, hi, l, h, pivot, up, down);
      if l >= h {
        Flip(cmp, Element(m[..], size, l), v);
        SplitEnds(cmp, View(m[..], size, n), lo, hi, l, h, v);
        break;
      }
      ghost var s := View(m[..], size, n);
      SwappedSame(s, l, h, lo, hi);
      SplitSwapped(cmp, s, lo, hi, l, h, v);
      pivot := SwapEnds(m, size, n, l, h, pivot);
      RearrangedTwice(old(View(m[..], size, n)), s, View(m[..], size, n), lo, hi);
      up, down := h, l;
      l, h := l + 1, h - 1;
    }
  }

  lemma PartitionStarts<T(!new)>(cmp: (T, T) -> int, s: seq<T>, lo: nat, hi: nat, pivot: nat)
    requires TotalPreorder(cmp) && lo <= pivot < hi <= |s|
    ensures Split(cmp, s, lo, hi, lo, hi - 1, s[pivot]) && Stops(cmp, s, lo, hi, lo, hi - 1, s[pivot], pivot, pivot)
    ensures Rearranged(s, s, lo, hi)
  {
    Equal(cmp, s[pivot]);
  }

  /** qsort(b, len, size, cmp) on the elements from lo to hi, for every comparator that is a total
      preorder: the elements are permuted into order. */
  method QSort<B(!new)>(m: array<B>, size: nat, n: nat, cmp: (seq<B>, seq<B>) -> int, lo: nat, hi: nat)
    requires TotalPreorder(cmp) && lo <= hi <= n && m.Length == Place(n, size)
    modifies m
    ensures Sorted(cmp, View(m[..], size, n)[lo..hi]) && Rearranged(old(View(m[..], size, n)), View(m[..], size, n), lo, hi)
    decreases hi - lo
  {
    hide *;
    if hi - lo < 2 {
      FewSorted(cmp, View(m[..], size, n), lo, hi);
      return;
    }
    ghost var s0 := View(m[..], size, n);
    ghost var v;
    var l, h;
    l, h, v := Partition(m, size, n, cmp, lo, hi);
    ghost var s1 := View(m[..], size, n);
    QSort(m, size, n, cmp, lo, l);
    ghost var s2 := View(m[..], size, n);
    LeftSorted(cmp, s1, s2, lo, l, h, hi, v);
    QSort(m, size, n, cmp, h + 1, hi);
    RightSorted(cmp, s2, View(m[..], size, n), lo, l, h, hi, v);
    RearrangedTwice(s0, s1, s2, lo, hi);
    RearrangedTwice(s0, s2, View(m[..], size, n), lo, hi);
  }

  lemma FewSorted<T(!new)>(cmp: (T, T) -> int, s: seq<T>, lo: nat, hi: nat)
    requires lo <= hi <= |s| && hi - lo < 2
    ensures Sorted(cmp, s[lo..hi]) && Rearranged(s, s, lo, hi)
  {}

  /** The middle element that neither call sorts. */
  ghost predicate Middle<T(!new)>(cmp: (T, T) -> int, s: seq<T>, l: nat, h: nat, v: T)
  {
    h < |s| && (l == h ==> cmp(s[l], v) <= 0 && cmp(v, s[l]) <= 0)
  }

  lemma LeftSorted<T(!new)>(cmp: (T, T) -> int, s: seq<T>, t: seq<T>, lo: nat, l: nat, h: nat, hi: nat, v: T)
    requires lo <= l <= h + 1 <= hi <= |s| && h <= l && Rearranged(s, t, lo, l)
    requires AllBelow(cmp, s[lo..l], v) && AllAbove(cmp, s[h + 1..hi], v) && (l == h ==> cmp(s[l], v) <= 0 && cmp(v, s[l]) <= 0)
    ensures AllBelow(cmp, t[lo..l], v) && AllAbove(cmp, t[h + 1..hi], v) && Middle(cmp, t, l, h, v)
    ensures Rearranged(s, t, lo, hi)
  {
    BelowPermuted(cmp, s[lo..l], t[lo..l], v);
    assert s[h + 1..hi] == s[l..][h + 1 - l..hi - l] && t[h + 1..hi] == t[l..][h + 1 - l..hi - l];
    assert l == h ==> s[l] == s[l..][0] && t[l] == t[l..][0];
    RearrangedWider(s, t, lo, hi, lo, l);
  }

  lemma RightSorted<T(!new)>(cmp: (T, T) -> int, s: seq<T>, t: seq<T>, lo: nat, l: nat, h: nat, hi: nat, v: T)
    requires TotalPreorder(cmp) && lo <= l <= h + 1 <= hi <= |s| && h <= l && Rearranged(s, t, h + 1, hi)
    requires Sorted(cmp, s[lo..l]) && Sorted(cmp, t[h + 1..hi])
    requires AllBelow(cmp, s[lo..l], v) && AllAbove(cmp, s[h + 1..hi], v) && Middle(cmp, s, l, h, v)
    ensures Sorted(cmp, t[lo..hi]) && Rearranged(s, t, lo, hi)
  {
    hide *;
    KeptBefore(s, t, lo, h + 1, hi);
    AbovePermuted(cmp, s[h + 1..hi], t[h + 1..hi], v);
    assert t[lo..l] == t[lo..h + 1][..l - lo] == s[lo..h + 1][..l - lo] == s[lo..l];
    assert t[l..h + 1] == t[lo..h + 1][l - lo..] == s[lo..h + 1][l - lo..] == s[l..h + 1];
    MiddleIs(cmp, s, l, h, v);
    SortedJoined(cmp, t[lo..l], t[l..h + 1], t[h + 1..hi], v);
    assert t[lo..hi] == t[lo..l] + t[l..h + 1] + t[h + 1..hi];
    RearrangedWider(s, t, lo, hi, h + 1, hi);
  }

  lemma KeptBefore<T>(s: seq<T>, t: seq<T>, lo: nat, m: nat, hi: nat)
    requires Rearranged(s, t, m, hi) && lo <= m
    ensures |s| == |t| && s[lo..m] == t[lo..m] && multiset(s[m..hi]) == multiset(t[m..hi])
  {
    assert s[lo..m] == s[..m][lo..] && t[lo..m] == t[..m][lo..];
  }

  lemma MiddleIs<T(!new)>(cmp: (T, T) -> int, s: seq<T>, l: nat, h: nat, v: T)
    requires h <= l <= h + 1 && Middle(cmp, s, l, h, v)
    ensures |s[l..h + 1]| <= 1 && AllBelow(cmp, s[l..h + 1], v) && AllAbove(cmp, s[l..h + 1], v)
  {}
}
