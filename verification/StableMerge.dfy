/** Merging runs stably when the keys of the elements become known only while they are compared. */
module StableMerge {
  import opened Sequences

  /** The keys known so far. */
  type Keys<T> = map<T, Option<int>>

  /** Nothing that was known has changed. */
  ghost predicate Extends<T>(m: Keys<T>, n: Keys<T>)
  {
    forall x :: x in m ==> x in n && (m[x].Some? ==> n[x] == m[x])
  }

  /** Both keys are known, and a comes first: it has the smaller key, or the same key and the
      earlier place. */
  ghost predicate Before<T>(m: Keys<T>, rank: map<T, int>, a: T, b: T)
  {
    && a in m && b in m && m[a].Some? && m[b].Some? && a in rank && b in rank
    && (m[a].value < m[b].value || (m[a].value == m[b].value && rank[a] < rank[b]))
  }

  ghost predicate Sorted<T>(m: Keys<T>, rank: map<T, int>, s: seq<T>)
  {
    forall i, j :: 0 <= i < j < |s| ==> Before(m, rank, s[i], s[j])
  }

  /** Every element of s has an earlier place than every element of t. */
  ghost predicate Earlier<T>(rank: map<T, int>, s: seq<T>, t: seq<T>)
  {
    && (forall a :: a in s ==> a in rank) && (forall a :: a in t ==> a in rank)
    && forall a, b :: a in s && b in t ==> rank[a] < rank[b]
  }

  lemma SortedExtends<T>(m: Keys<T>, n: Keys<T>, rank: map<T, int>, s: seq<T>)
    requires Sorted(m, rank, s) && Extends(m, n)
    ensures Sorted(n, rank, s)
  {
    forall i, j | 0 <= i < j < |s| ensures Before(n, rank, s[i], s[j]) {
      assert Before(m, rank, s[i], s[j]);
    }
  }

  lemma ExtendsChain<T>(m: Keys<T>, n: Keys<T>, o: Keys<T>)
    requires Extends(m, n) && Extends(n, o)
    ensures Extends(m, o)
  {}

  /** The state of a merge: what has been taken is in front of both remainders. */
  ghost predicate Merging<T>(m: Keys<T>, rank: map<T, int>, out: seq<T>, ps: seq<T>, qs: seq<T>)
  {
    Sorted(m, rank, out + ps) && Sorted(m, rank, out + qs)
  }

  lemma MergingExtends<T>(m: Keys<T>, n: Keys<T>, rank: map<T, int>, out: seq<T>, ps: seq<T>, qs: seq<T>)
    requires Merging(m, rank, out, ps, qs) && Extends(m, n)
    ensures Merging(n, rank, out, ps, qs)
  {
    SortedExtends(m, n, rank, out + ps);
    SortedExtends(m, n, rank, out + qs);
  }

  lemma MergingStarts<T>(m: Keys<T>, rank: map<T, int>, ps: seq<T>, qs: seq<T>)
    requires Sorted(m, rank, ps) && Sorted(m, rank, qs)
    ensures Merging(m, rank, [], ps, qs)
  {
    assert [] + ps == ps && [] + qs == qs;
  }

  /** An element in front of the other remainder may be taken. */
  lemma SortedTake<T>(m: Keys<T>, rank: map<T, int>, out: seq<T>, ps: seq<T>, qs: seq<T>)
    requires Merging(m, rank, out, ps, qs) && ps != []
    requires qs != [] ==> Before(m, rank, ps[0], qs[0])
    ensures Sorted(m, rank, out + [ps[0]] + ps[1..]) && Sorted(m, rank, out + [ps[0]] + qs)
  {
    assert out + [ps[0]] + ps[1..] == out + ps;
    var t, k := out + [ps[0]] + qs, |out|;
    forall i, j | 0 <= i < j < |t| ensures Before(m, rank, t[i], t[j]) {
      if j <= k {
        assert t[i] == (out + ps)[i] && t[j] == (out + ps)[j];
      } else if i == k {
        assert t[j] == (out + qs)[j - 1] && qs[0] == (out + qs)[k];
      } else {
        var a, b := if i < k then i else i - 1, j - 1;
        assert t[i] == (out + qs)[a] && t[j] == (out + qs)[b];
      }
    }
  }

  lemma TakeLeft<T>(m: Keys<T>, rank: map<T, int>, out: seq<T>, ps: seq<T>, qs: seq<T>)
    requires Merging(m, rank, out, ps, qs) && ps != []
    requires qs != [] ==> Before(m, rank, ps[0], qs[0])
    ensures Merging(m, rank, out + [ps[0]], ps[1..], qs)
  {
    SortedTake(m, rank, out, ps, qs);
  }

  lemma TakeRight<T>(m: Keys<T>, rank: map<T, int>, out: seq<T>, ps: seq<T>, qs: seq<T>)
    requires Merging(m, rank, out, ps, qs) && qs != []
    requires ps != [] ==> Before(m, rank, qs[0], ps[0])
    ensures Merging(m, rank, out + [qs[0]], ps, qs[1..])
  {
    SortedTake(m, rank, out, qs, ps);
  }

  /** The comparison of the first elements, a tie being won by the left run. */
  lemma FirstBefore<T>(m: Keys<T>, rank: map<T, int>, ps: seq<T>, qs: seq<T>)
    requires ps != [] && qs != [] && Earlier(rank, ps, qs)
    requires ps[0] in m && qs[0] in m && m[ps[0]].Some? && m[qs[0]].Some?
    ensures m[ps[0]].value <= m[qs[0]].value ==> Before(m, rank, ps[0], qs[0])
    ensures m[ps[0]].value > m[qs[0]].value ==> Before(m, rank, qs[0], ps[0])
  {
    assert ps[0] in ps && qs[0] in qs;
  }

  lemma MergingEnds<T>(m: Keys<T>, rank: map<T, int>, out: seq<T>)
    requires Merging(m, rank, out, [], [])
    ensures Sorted(m, rank, out)
  {
    assert out + [] == out;
  }

  // ---------------------------------------------------------------- the runs of a pass

  function Flat<T>(runs: seq<seq<T>>): (s: seq<T>)
  {
    if runs == [] then [] else runs[0] + Flat(runs[1..])
  }

  lemma {:induction false} FlatAppend<T>(runs: seq<seq<T>>, s: seq<T>)
    ensures Flat(runs + [s]) == Flat(runs) + s
  {
    if runs == [] {
      assert [] + [s] == [s] && s + [] == s;
      assert [s][1..] == [];
    } else {
      assert (runs + [s])[1..] == runs[1..] + [s];
      FlatAppend(runs[1..], s);
      assert runs[0] + (Flat(runs[1..]) + s) == runs[0] + Flat(runs[1..]) + s;
    }
  }

  /** Runs of the given length, the last one perhaps shorter. */
  ghost predicate Sized<T>(runs: seq<seq<T>>, size: nat)
  {
    && (forall k :: 0 <= k < |runs| ==> 0 < |runs[k]| <= size)
    && forall k :: 0 <= k < |runs| - 1 ==> |runs[k]| == size
  }

  ghost predicate AllSize<T>(runs: seq<seq<T>>, size: nat)
  {
    forall k :: 0 <= k < |runs| ==> |runs[k]| == size
  }

  ghost predicate AllSorted<T>(m: Keys<T>, rank: map<T, int>, runs: seq<seq<T>>)
  {
    forall k :: 0 <= k < |runs| ==> Sorted(m, rank, runs[k])
  }

  /** The runs are in the order of their places. */
  ghost predicate Separated<T>(rank: map<T, int>, runs: seq<seq<T>>)
  {
    forall k, l :: 0 <= k < l < |runs| ==> Earlier(rank, runs[k], runs[l])
  }

  /** The runs merged so far, followed by the runs still to be merged. */
  ghost predicate PassState<T>(m: Keys<T>, rank: map<T, int>, done: seq<seq<T>>, left: seq<seq<T>>, size: nat)
  {
    && AllSorted(m, rank, done) && AllSorted(m, rank, left) && Separated(rank, done + left)
    && Sized(left, size) && Sized(done, 2 * size) && (left != [] ==> AllSize(done, 2 * size))
  }

  function Second<T>(left: seq<seq<T>>): (q: seq<T>)
  {
    if |left| >= 2 then left[1] else []
  }

  function Beyond<T>(left: seq<seq<T>>): (r: seq<seq<T>>)
  {
    if |left| >= 2 then left[2..] else []
  }

  /** The chain ahead of a merge: the two runs and the rest. */
  lemma FlatFirst<T>(left: seq<seq<T>>)
    requires left != []
    ensures Flat(left) == left[0] + Flat(left[1..]) && Flat(left[1..]) == Second(left) + Flat(Beyond(left))
  {
    if |left| >= 2 {
      assert left[1..][0] == left[1] && left[1..][1..] == left[2..];
    } else {
      assert left[1..] == [];
      assert [] + Flat<T>([]) == [];
    }
  }

  lemma FirstRuns<T>(m: Keys<T>, rank: map<T, int>, done: seq<seq<T>>, left: seq<seq<T>>, size: nat)
    requires PassState(m, rank, done, left, size) && left != []
    ensures 0 < |left[0]| <= size && (|left| >= 2 ==> |left[0]| == size)
    ensures |Second(left)| <= size && (|Second(left)| < size ==> Beyond(left) == [])
    ensures Sorted(m, rank, left[0]) && Sorted(m, rank, Second(left))
    ensures Second(left) != [] ==> Earlier(rank, left[0], Second(left))
  {
    if |left| >= 2 {
      assert (done + left)[|done|] == left[0] && (done + left)[|done| + 1] == left[1];
    }
  }

  /** Earlier than both runs is earlier than the merged run, and the other way round. */
  lemma EarlierMerged<T>(rank: map<T, int>, p: seq<T>, q: seq<T>, o: seq<T>, s: seq<T>)
    requires forall a :: a in o ==> a in p || a in q
    ensures Earlier(rank, s, p) && (q != [] ==> Earlier(rank, s, q)) ==> Earlier(rank, s, o)
    ensures Earlier(rank, p, s) && (q != [] ==> Earlier(rank, q, s)) ==> Earlier(rank, o, s)
  {}

  lemma SeparatedStep<T>(rank: map<T, int>, done: seq<seq<T>>, left: seq<seq<T>>, out: seq<T>)
    requires Separated(rank, done + left) && left != []
    requires forall a :: a in out ==> a in left[0] || a in Second(left)
    ensures Separated(rank, done + [out] + Beyond(left))
  {
    var u, v, d := done + left, done + [out] + Beyond(left), |done|;
    hide Earlier;
    assert u[d] == left[0];
    assert |left| >= 2 ==> u[d + 1] == left[1];
    forall k, l | 0 <= k < l < |v| ensures Earlier(rank, v[k], v[l]) {
      if l < d {
        assert v[k] == u[k] && v[l] == u[l];
      } else if l == d {
        assert v[k] == u[k] && v[l] == out;
        EarlierMerged(rank, left[0], Second(left), out, u[k]);
      } else {
        var l' := l + 1;
        assert v[l] == u[l'];
        if k < d {
          assert v[k] == u[k];
        } else if k == d {
          EarlierMerged(rank, left[0], Second(left), out, u[l']);
        } else {
          var k' := k + 1;
          assert v[k] == u[k'];
        }
      }
    }
  }

  lemma SizesStep<T>(done: seq<seq<T>>, left: seq<seq<T>>, out: seq<T>, size: nat)
    requires Sized(left, size) && left != [] && Sized(done, 2 * size) && AllSize(done, 2 * size)
    requires |out| == |left[0]| + |Second(left)|
    ensures Sized(Beyond(left), size) && Sized(done + [out], 2 * size)
    ensures Beyond(left) != [] ==> AllSize(done + [out], 2 * size)
  {}

  /** After a merge the state of the pass is there again. */
  lemma PassStep<T>(m: Keys<T>, n: Keys<T>, rank: map<T, int>, done: seq<seq<T>>, left: seq<seq<T>>, size: nat, out: seq<T>)
    requires PassState(m, rank, done, left, size) && left != [] && Extends(m, n)
    requires Sorted(n, rank, out) && multiset(out) == multiset(left[0] + Second(left))
    ensures PassState(n, rank, done + [out], Beyond(left), size)
  {
    assert |multiset(out)| == |multiset(left[0] + Second(left))|;
    SizesStep(done, left, out, size);
    forall a | a in out ensures a in left[0] || a in Second(left) {
      assert a in multiset(out);
      assert a in left[0] + Second(left);
    }
    SeparatedStep(rank, done, left, out);
    hide Separated, Sized, AllSize, Extends, Sorted;
    forall k | 0 <= k < |done + [out]| ensures Sorted(n, rank, (done + [out])[k]) {
      if k < |done| { SortedExtends(m, n, rank, done[k]); }
    }
    forall k | 0 <= k < |Beyond(left)| ensures Sorted(n, rank, Beyond(left)[k]) {
      var l := k + 2;
      SortedExtends(m, n, rank, left[l]);
    }
  }

  lemma PassStarts<T>(m: Keys<T>, rank: map<T, int>, runs: seq<seq<T>>, size: nat)
    requires Sized(runs, size) && AllSorted(m, rank, runs) && Separated(rank, runs)
    ensures PassState(m, rank, [], runs, size)
  {
    assert [] + runs == runs;
  }

  lemma PassEnds<T>(m: Keys<T>, rank: map<T, int>, runs: seq<seq<T>>, size: nat)
    requires PassState(m, rank, runs, [], size)
    ensures Sized(runs, 2 * size) && AllSorted(m, rank, runs) && Separated(rank, runs)
  {
    assert runs + [] == runs;
  }

  // ---------------------------------------------------------------- the places

  /** The place of an element in the list to be sorted. */
  function Ranks<T>(s: seq<T>): (rank: map<T, int>)
    ensures rank.Keys == set a | a in s
    ensures forall a :: a in s ==> 0 <= rank[a] < |s| && s[rank[a]] == a
  {
    if s == [] then map[] else Ranks(s[..|s| - 1])[s[|s| - 1] := |s| - 1]
  }

  function Singles<T>(s: seq<T>): (runs: seq<seq<T>>)
  {
    seq(|s|, i requires 0 <= i < |s| => [s[i]])
  }

  lemma {:induction false} FlatSingles<T>(s: seq<T>)
    ensures Flat(Singles(s)) == s
  {
    if s != [] {
      FlatSingles(s[1..]);
      assert Singles(s)[1..] == Singles(s[1..]);
      assert [s[0]] + s[1..] == s;
    }
  }

  lemma SinglesSorted<T>(m: Keys<T>, s: seq<T>)
    requires Distinct(s)
    ensures Sized(Singles(s), 1) && AllSorted(m, Ranks(s), Singles(s)) && Separated(Ranks(s), Singles(s))
  {
    var rank := Ranks(s);
    forall k, l | 0 <= k < l < |s| ensures Earlier(rank, Singles(s)[k], Singles(s)[l]) {
      assert s[k] in s && s[l] in s;
      assert s[rank[s[k]]] == s[k] && s[rank[s[l]]] == s[l];
    }
  }
}
