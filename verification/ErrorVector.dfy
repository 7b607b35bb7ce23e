/** The error vector of the encryption: distinct random positions below n, rejection of the draws
    that do not give them, and the bits they set. */
module ErrorVector {
  import opened Words
  import opened SortNetwork
  import opened Permutations
  import opened Sequences
  import opened KeyPermutation
  import opened OutputBits
  import opened BinaryAlgebra
  import opened BitMatrix
  import opened Elimination
  import opened PublicRows
  import ControlBitsCheck

  // ---------------------------------------------------------------- choosing the positions

  /** The numbers below n, in their order. */
  function InRangeOnly(nums: seq<nat>, n: nat): (r: seq<nat>)
    ensures |r| <= |nums| && forall i :: 0 <= i < |r| ==> r[i] < n
    decreases |nums|
  {
    if |nums| == 0 then []
    else
      var k := |nums| - 1;
      InRangeOnly(nums[..k], n) + if nums[k] < n then [nums[k]] else []
  }

  lemma {:induction false} PrefixInRange(nums: seq<nat>, n: nat, i: nat)
    requires i <= |nums|
    ensures InRangeOnly(nums[..i], n) <= InRangeOnly(nums, n)
    decreases |nums|
  {
    var k := |nums| - 1;
    if i == |nums| {
      assert nums[..i] == nums;
    } else {
      PrefixInRange(nums[..k], n, i);
      assert nums[..k][..i] == nums[..i];
    }
  }

  /** The first t numbers below n, or None if there are fewer. */
  function Chosen(nums: seq<nat>, n: nat, t: nat): (r: Option<seq<nat>>)
  {
    var all := InRangeOnly(nums, n);
    if |all| < t then None else Some(all[..t])
  }

  /** The places before p that hold a number below n. */
  ghost function Places(nums: seq<nat>, n: nat, p: nat): (s: set<nat>)
    requires p <= |nums|
  {
    set i: nat | i < p && nums[i] < n
  }

  /** Exactly t of the numbers before p are below n. */
  ghost predicate TakenUpTo(nums: seq<nat>, n: nat, t: nat, p: nat)
  {
    p <= |nums| && |Places(nums, n, p)| == t
  }

  /** The numbers below n among the first p are different. */
  ghost predicate DifferentUpTo(nums: seq<nat>, n: nat, p: nat)
    requires p <= |nums|
  {
    forall i, j :: 0 <= i < j < p && nums[i] < n && nums[j] < n ==> nums[i] != nums[j]
  }

  /** A draw is accepted when it holds t numbers below n, and the first t of them are different. */
  ghost predicate Accepted(nums: seq<nat>, n: nat, t: nat)
  {
    exists p: nat :: TakenUpTo(nums, n, t, p) && DifferentUpTo(nums, n, p)
  }

  lemma {:induction false} PlacesCount(nums: seq<nat>, n: nat, p: nat)
    requires p <= |nums|
    ensures |Places(nums, n, p)| == |InRangeOnly(nums[..p], n)|
    ensures forall x :: x in InRangeOnly(nums[..p], n) <==> x < n && x in nums[..p]
    decreases p
  {
    if p > 0 {
      var k := p - 1;
      PlacesCount(nums, n, k);
      CollectStep(nums, n, k);
      var s := Places(nums, n, k);
      assert k !in s;
      assert Places(nums, n, p) == if nums[k] < n then s + {k} else s;
      assert nums[..p] == nums[..k] + [nums[k]];
    } else {
      assert Places(nums, n, p) == {};
    }
  }

  lemma {:induction false} DifferentIs(nums: seq<nat>, n: nat, p: nat)
    requires p <= |nums|
    ensures DifferentUpTo(nums, n, p) <==> Distinct(InRangeOnly(nums[..p], n))
    decreases p
  {
    if p > 0 {
      var k := p - 1;
      DifferentIs(nums, n, k);
      CollectStep(nums, n, k);
      PlacesCount(nums, n, k);
      var a := InRangeOnly(nums[..k], n);
      if nums[k] < n { DistinctAppend(a, nums[k]); }
      assert a + [] == a;
      hide Distinct;
      assert DifferentUpTo(nums, n, p) <==> DifferentUpTo(nums, n, k) && (nums[k] < n ==> nums[k] !in nums[..k]);
    } else {
      assert InRangeOnly(nums[..0], n) == [];
    }
  }

  lemma DistinctAppend(a: seq<nat>, x: nat)
    ensures Distinct(a + [x]) <==> Distinct(a) && x !in a
  {
    var b := a + [x];
    assert b[|a|] == x;
    if Distinct(b) {
      forall i, j | 0 <= i < j < |a| ensures a[i] != a[j] { assert b[i] == a[i] && b[j] == a[j]; }
      forall y | y in a ensures y != x {
        var i :| 0 <= i < |a| && a[i] == y;
        assert b[i] == a[i];
      }
      assert Distinct(a);
    }
    if Distinct(a) && x !in a {
      forall i, j | 0 <= i < j < |b| ensures b[i] != b[j] { assert b[i] == a[i] && a[i] in a; }
    }
  }

  lemma {:induction false} SomePrefix(nums: seq<nat>, n: nat, t: nat, p: nat)
    requires p <= |nums| && t <= |InRangeOnly(nums[..p], n)|
    ensures exists q: nat :: q <= p && |InRangeOnly(nums[..q], n)| == t
    decreases p
  {
    if |InRangeOnly(nums[..p], n)| > t {
      CollectStep(nums, n, p - 1);
      SomePrefix(nums, n, t, p - 1);
      var q: nat :| q <= p - 1 && |InRangeOnly(nums[..q], n)| == t;
      assert q <= p;
    } else {
      assert p <= p && |InRangeOnly(nums[..p], n)| == t;
    }
  }

  /** The first t numbers below n are those before some place, and there are none if no place has t before it. */
  lemma ChosenUpTo(nums: seq<nat>, n: nat, t: nat, p: nat)
    requires TakenUpTo(nums, n, t, p)
    ensures Chosen(nums, n, t) == Some(InRangeOnly(nums[..p], n))
  {
    PlacesCount(nums, n, p);
    PrefixInRange(nums, n, p);
    assert InRangeOnly(nums, n)[..t] == InRangeOnly(nums[..p], n);
  }

  lemma ChosenSome(nums: seq<nat>, n: nat, t: nat)
    requires Chosen(nums, n, t).Some?
    ensures exists p: nat :: TakenUpTo(nums, n, t, p)
  {
    assert nums[..|nums|] == nums;
    SomePrefix(nums, n, t, |nums|);
    var p: nat :| p <= |nums| && |InRangeOnly(nums[..p], n)| == t;
    PlacesCount(nums, n, p);
    assert TakenUpTo(nums, n, t, p);
  }

  lemma AcceptedIs(nums: seq<nat>, n: nat, t: nat)
    ensures Accepted(nums, n, t) <==> Chosen(nums, n, t).Some? && Distinct(Chosen(nums, n, t).value)
  {
    hide Distinct, DifferentUpTo, Chosen, Places;
    if Accepted(nums, n, t) {
      var p: nat :| TakenUpTo(nums, n, t, p) && DifferentUpTo(nums, n, p);
      ChosenUpTo(nums, n, t, p);
      DifferentIs(nums, n, p);
    }
    if Chosen(nums, n, t).Some? {
      ChosenSome(nums, n, t);
      var p: nat :| TakenUpTo(nums, n, t, p);
      ChosenUpTo(nums, n, t, p);
      DifferentIs(nums, n, p);
    }
  }

  /** for (i = 0; i < |nums| && count < t; i++) if (nums[i] < n) ind[count++] = nums[i]; */
  method Collect(nums: seq<nat>, ind: array<int>, n: nat, t: nat) returns (count: nat)
    requires ind.Length == t
    modifies ind
    ensures count <= t && (count < t <==> Chosen(nums, n, t).None?)
    ensures count == t ==> ind[..] == Chosen(nums, n, t).value
  {
    count := 0;
    var i := 0;
    while i < |nums| && count < t
      invariant 0 <= i <= |nums| && count <= t
      invariant |InRangeOnly(nums[..i], n)| == count && ind[..count] == InRangeOnly(nums[..i], n)
    {
      CollectStep(nums, n, i);
      ghost var s := ind[..];
      if nums[i] < n {
        ind[count] := nums[i];
        assert ind[..count + 1] == s[..count] + [nums[i]];
        count := count + 1;
      }
      i := i + 1;
    }
    PrefixInRange(nums, n, i);
    assert i == |nums| ==> nums[..i] == nums;
    assert ind[..t] == ind[..];
  }

  lemma CollectStep(nums: seq<nat>, n: nat, i: nat)
    requires i < |nums|
    ensures InRangeOnly(nums[..i + 1], n) == InRangeOnly(nums[..i], n) + if nums[i] < n then [nums[i]] else []
  {
    assert nums[..i + 1][..i] == nums[..i];
  }

  /** eq = 1 if two neighbours are equal */
  method HasNeighbours(ind: array<int>, t: nat) returns (eq: bool)
    requires ind.Length == t && Sorted(ind[..])
    ensures eq <==> !Distinct(ind[..])
  {
    ghost var s := ind[..];
    NeighboursExact(s);
    hide Distinct, Sorted;
    eq := false;
    var i := 1;
    while i < t
      invariant 1 <= i && (eq <==> exists k :: 1 <= k < i && k < t && s[k - 1] == s[k])
    {
      assert s[i - 1] == ind[i - 1] && s[i] == ind[i];
      if ind[i - 1] == ind[i] { eq := true; }
      i := i + 1;
    }
  }

  // ---------------------------------------------------------------- setting the bits

  /** Bit b of word i is set for the positions seen so far. */
  ghost predicate BitsOfWord(w: Word, ind: seq<int>, i: nat, j: nat)
  {
    j <= |ind| && forall b :: 0 <= b < 64 ==> (w[b] <==> 64 * i + b in ind[..j])
  }

  lemma OneShifted(s: nat, b: nat)
    requires s < 64 && b < 64
    ensures Left(WordOf(1), s)[b] <==> b == s
  {
    if b > s { ControlBitsCheck.ZeroBit(b - s - 1); }
  }

  /** mask = i ^ (ind[j] >> 6); mask -= 1; mask >>= 63; mask = -mask; e_int[i] |= val[j] & mask; */
  lemma BitsOfWordStep(w: Word, ind: seq<int>, i: nat, j: nat)
    requires BitsOfWord(w, ind, i, j) && j < |ind| && ind[j] >= 0
    ensures BitsOfWord(OrWord(w, AndWord(Left(WordOf(1), ind[j] % 64), Spread(i == ind[j] / 64))), ind, i, j + 1)
  {
    var p := ind[j];
    hide WordOf, Left;
    forall b | 0 <= b < 64
      ensures (w[b] || (Left(WordOf(1), p % 64)[b] && i == p / 64)) <==> 64 * i + b in ind[..j + 1]
    {
      OneShifted(p % 64, b);
      assert ind[..j + 1] == ind[..j] + [p];
      assert 64 * i + b == p <==> i == p / 64 && b == p % 64;
    }
  }

  method ErrorWord(ind: array<int>, i: nat, t: nat) returns (w: Word)
    requires ind.Length == t && forall j :: 0 <= j < t ==> ind[j] >= 0
    ensures BitsOfWord(w, ind[..], i, t)
  {
    w := WordOf(0);
    forall b | 0 <= b < 64 ensures !w[b] { ControlBitsCheck.ZeroBit(b); }
    hide WordOf, Left, OrWord, AndWord, Spread;
    var j := 0;
    while j < t
      invariant 0 <= j <= t && BitsOfWord(w, ind[..], i, j)
    {
      BitsOfWordStep(w, ind[..], i, j);
      w := OrWord(w, AndWord(Left(WordOf(1), ind[j] % 64), Spread(i == ind[j] / 64)));
      j := j + 1;
    }
  }

  /** The bits of the error vector: position p is set exactly when it was drawn. */
  ghost function Positions(ind: seq<int>, m: nat): (bits: Bits)
    ensures |bits| == m
  {
    seq(m, p requires 0 <= p < m => p in ind)
  }

  ghost function Support(bits: Bits): (s: set<nat>)
  {
    set p: nat | p < |bits| && bits[p]
  }

  /** As many bits are set as there are different positions. */
  lemma WeightIs(ind: seq<nat>, n: nat)
    requires Distinct(ind) && forall j :: 0 <= j < |ind| ==> ind[j] < n
    ensures |Support(Positions(ind, n))| == |ind|
  {
    ValuesCard(ind, |ind|);
    var values := set j | 0 <= j < |ind| :: ind[j];
    forall p: nat ensures p in values <==> p in Support(Positions(ind, n)) {
      if p in values { assert p in ind; }
    }
    assert values == Support(Positions(ind, n));
  }

  lemma WordOfPositions(w: Word, ind: seq<int>, i: nat, m: nat)
    requires BitsOfWord(w, ind, i, |ind|) && 64 * i + 64 <= m
    ensures forall k :: 0 <= k < 64 ==> Positions(ind, m)[8 * (8 * i) + k] == w[k]
  {
    assert ind[..|ind|] == ind;
    forall k | 0 <= k < 64 ensures Positions(ind, m)[64 * i + k] == w[k] { assert w[k] <==> 64 * i + k in ind[..|ind|]; }
  }

  ghost predicate AllWords(words: seq<Word>, ind: seq<int>)
  {
    forall i :: 0 <= i < |words| ==> BitsOfWord(words[i], ind, i, |ind|)
  }

  /** The words e_int. */
  method ErrorWords(ind: array<int>, blocks: nat, t: nat) returns (words: seq<Word>)
    requires ind.Length == t && forall j :: 0 <= j < t ==> ind[j] >= 0
    ensures |words| == blocks && AllWords(words, ind[..])
  {
    hide BitsOfWord;
    words := [];
    var i := 0;
    while i < blocks
      invariant 0 <= i <= blocks && |words| == i && AllWords(words, ind[..])
    {
      var w := ErrorWord(ind, i, t);
      words := words + [w];
      i := i + 1;
    }
  }

  lemma WordAt(words: seq<Word>, ind: seq<int>, i: nat)
    requires AllWords(words, ind) && i < |words|
    ensures BitsOfWord(words[i], ind, i, |ind|)
  {}

  /** The words go to the output, the last of them only up to bit n. */
  method StorePositions(e: array<nat>, ind: array<int>, n: nat, t: nat)
    requires ind.Length == t && (forall j :: 0 <= j < t ==> ind[j] >= 0)
    requires n % 8 == 0 && n % 64 > 0 && n <= 8 * e.Length && e as object != ind
    modifies e
    ensures RowStored(e[..], 0, Positions(ind[..], 64 * ((n + 63) / 64)), n / 8)
    ensures AreBytes(old(e[..])) ==> AreBytes(e[..])
  {
    hide *;
    var blocks := (n + 63) / 64;
    ghost var s := ind[..];
    ghost var bits := Positions(s, 64 * blocks);
    NothingStored(e[..], bits);
    var words := ErrorWords(ind, blocks, t);
    var i := 0;
    while i < blocks - 1
      invariant 0 <= i <= blocks - 1 && RowStored(e[..], 0, bits, 8 * i)
      invariant AreBytes(old(e[..])) ==> AreBytes(e[..])
    {
      WordAt(words, s, i);
      WordOfPositions(words[i], s, i, 64 * blocks);
      StoreWord(e, 0, 8 * i, words[i], 8, bits);
      i := i + 1;
    }
    WordAt(words, s, i);
    WordOfPositions(words[i], s, i, 64 * blocks);
    StoreWord(e, 0, 8 * i, words[i], n % 64 / 8, bits);
    assert 8 * i + n % 64 / 8 == n / 8;
  }

  lemma NothingStored(e: seq<nat>, bits: Bits)
    ensures RowStored(e, 0, bits, 0)
  {}

  /** Exactly the positions below n that are among the first p numbers are set. */
  ghost predicate SetUpTo(e: seq<nat>, nums: seq<nat>, n: nat, p: nat)
    requires p <= |nums|
  {
    forall q: nat :: q < n ==> PositionSet(e, q, q in nums[..p])
  }

  ghost predicate PositionSet(e: seq<nat>, q: nat, b: bool)
  {
    q / 8 < |e| && (BitOf(e[q / 8], q % 8) == 1 <==> b)
  }

  /** The error vector of a draw: the positions of its first t numbers below n are set, and no others; they are t. */
  ghost predicate ErrorStored(e: seq<nat>, nums: seq<nat>, n: nat, t: nat)
  {
    && (exists p: nat :: TakenUpTo(nums, n, t, p) && SetUpTo(e, nums, n, p))
    && |set q: nat | q < n && PositionSet(e, q, true)| == t
  }

  lemma StoredIs(e: seq<nat>, nums: seq<nat>, n: nat, t: nat, ind: seq<nat>)
    requires n % 8 == 0 && Chosen(nums, n, t) == Some(ind) && Distinct(ind)
    requires RowStored(e, 0, Positions(ind, 64 * ((n + 63) / 64)), n / 8)
    ensures ErrorStored(e, nums, n, t)
  {
    ChosenSome(nums, n, t);
    var p: nat :| TakenUpTo(nums, n, t, p);
    ChosenUpTo(nums, n, t, p);
    PlacesCount(nums, n, p);
    hide Chosen, InRangeOnly, Distinct, BitOf, Places;
    forall q: nat | q < n ensures PositionSet(e, q, q in nums[..p]) {
      assert BitStored(e, 0, Positions(ind, 64 * ((n + 63) / 64)), q);
    }
    assert SetUpTo(e, nums, n, p);
    WeightIs(ind, n);
    forall q: nat ensures q in Support(Positions(ind, n)) <==> q < n && PositionSet(e, q, true) {
      if q < n { assert PositionSet(e, q, q in nums[..p]); }
    }
    assert Support(Positions(ind, n)) == set q: nat | q < n && PositionSet(e, q, true);
  }

  /** One pass of the loop. */
  method DrawError(nums: seq<nat>, e: array<nat>, n: nat, t: nat) returns (ok: bool)
    requires n % 8 == 0 && n % 64 > 0 && n <= 0x8000 && n <= 8 * e.Length
    modifies e
    ensures ok <==> Accepted(nums, n, t)
    ensures ok ==> ErrorStored(e[..], nums, n, t)
    ensures !ok ==> e[..] == old(e[..])
    ensures AreBytes(old(e[..])) ==> AreBytes(e[..])
  {
    AcceptedIs(nums, n, t);
    var ind := new int[t];
    var count := Collect(nums, ind, n, t);
    if count < t { return false; }
    ghost var c := Chosen(nums, n, t).value;
    PositionsInRange(c, n);
    assert ind[0..0 + t] == ind[..];
    Sort(UInt16, ind, 0, t);
    assert ind[0..0 + t] == ind[..];
    DistinctCarries(c, ind[..]);
    SortedPositions(c, ind[..], n);
    var eq := HasNeighbours(ind, t);
    if eq { return false; }
    StorePositions(e, ind, n, t);
    StoredIs(e[..], nums, n, t, c);
    ok := true;
  }

  lemma PositionsInRange(c: seq<nat>, n: nat)
    requires n <= 0x8000 && forall j :: 0 <= j < |c| ==> c[j] < n
    ensures AllInRange(UInt16, c)
  {
    hide Pow2;
    Pow2Values();
  }

  lemma SortedPositions(c: seq<nat>, s: seq<int>, n: nat)
    requires Permutes(c, s) && forall j :: 0 <= j < |c| ==> c[j] < n
    ensures (forall j :: 0 <= j < |s| ==> 0 <= s[j] < n) && forall m: nat :: Positions(c, m) == Positions(s, m)
  {
    forall p: int ensures p in c <==> p in s { assert p in multiset(c) <==> p in multiset(s); }
    forall j | 0 <= j < |s| ensures 0 <= s[j] < n { assert s[j] in c; }
  }

  /** gen_e, with the draws of the random generator as an argument: it ends with the first draw
      that is accepted, and then exactly t bits are set. */
  method GenError(draws: seq<seq<nat>>, e: array<nat>, n: nat, t: nat) returns (used: nat)
    requires n % 8 == 0 && n % 64 > 0 && n <= 0x8000 && n <= 8 * e.Length
    modifies e
    ensures used <= |draws| && forall d :: 0 <= d < used ==> !Accepted(draws[d], n, t)
    ensures used < |draws| ==> Accepted(draws[used], n, t) && ErrorStored(e[..], draws[used], n, t)
    ensures used == |draws| ==> e[..] == old(e[..])
    ensures AreBytes(old(e[..])) ==> AreBytes(e[..])
  {
    used := 0;
    while used < |draws|
      invariant 0 <= used <= |draws| && e[..] == old(e[..])
      invariant forall d :: 0 <= d < used ==> !Accepted(draws[d], n, t)
    {
      var ok := DrawError(draws[used], e, n, t);
      if ok { return; }
      used := used + 1;
    }
  }
}
