/** The bottom-up merge sort that relinks the nodes of the list. */
module ListSort {
  import opened Sequences
  import opened StableMerge
  import opened ListCrc
  import opened ListItems

  // ---------------------------------------------------------------- lists on the heap

  ghost predicate Linked(s: seq<ListHead>)
    reads s
  {
    forall i, j :: 0 <= i < j < |s| && j == i + 1 ==> s[i].next == s[j]
  }

  /** The nodes of s, from first to the end of the list. */
  ghost predicate Chain(s: seq<ListHead>, first: ListHead?)
    reads s
  {
    && Linked(s)
    && (if s == [] then first == null else first == s[0] && s[|s| - 1].next == null)
  }

  /** A list under construction, with its head and its tail. */
  ghost predicate Open(s: seq<ListHead>, list: ListHead?, tail: ListHead?)
    reads s
  {
    && Linked(s)
    && (if s == [] then list == null && tail == null else list == s[0] && tail == s[|s| - 1])
  }

  ghost function SetOf(s: seq<ListHead>): (t: set<ListHead>)
  {
    set n | n in s
  }

  ghost function Infos(s: seq<ListHead>): set<ListData>
    reads s`info
  {
    set n | n in s :: n.info
  }

  /** The keys that are settled. */
  ghost function Settled(cmp: Comparator, restore: bool, s: seq<ListHead>): (m: Keys<ListHead>)
    reads s`info, Infos(s)
    ensures m.Keys == set n | n in s
  {
    map n | n in s :: KeyIn(cmp, restore, n.info)
  }

  // ---------------------------------------------------------------- one comparison

  /** The comparison of two nodes of s. */
  method CompareNodes(cmp: Comparator, p: ListHead, q: ListHead, res: Results?, ghost s: seq<ListHead>) returns (r: int)
    requires cmp.CmpComplex? ==> res != null
    requires p in s && q in s
    modifies Infos(s)`data16, res
    ensures Extends(old(Settled(cmp, res == null, s)), Settled(cmp, res == null, s))
    ensures KeyIn(cmp, res == null, p.info).Some? && KeyIn(cmp, res == null, q.info).Some?
    ensures r <= 0 <==> KeyIn(cmp, res == null, p.info).value <= KeyIn(cmp, res == null, q.info).value
    ensures AllEvolved(cmp, res, old(MarksOf(res)), old(DataOf(s)), MarksOf(res), DataOf(s))
  {
    hide Cached, Restored, Low7, Reaches, Evolved;
    ghost var m, d, marks := Settled(cmp, res == null, s), DataOf(s), MarksOf(res);
    r := Compare(cmp, p.info, q.info, res);
    forall n | n in s && m[n].Some? ensures KeyIn(cmp, res == null, n.info) == m[n] {}
    EvolvedMarks(cmp, res, marks, d[p], MarksOf(res), p.info.data16);
    forall n | n in s ensures Evolved(cmp, res, marks, d[n], MarksOf(res), n.info.data16) {
      if n.info != p.info && n.info != q.info { UntouchedEvolves(cmp, res, marks, d[n], MarksOf(res)); }
    }
  }

  ghost function DataOf(s: seq<ListHead>): (d: map<ListHead, Half>)
    reads s`info, Infos(s)
  {
    map n | n in s :: n.info.data16
  }

  /** What comparisons may do to the data of the nodes. */
  ghost predicate AllEvolved(cmp: Comparator, res: Results?, s: Marks, d: map<ListHead, Half>, t: Marks, e: map<ListHead, Half>)
  {
    && d.Keys == e.Keys
    && (if cmp.CmpComplex? then res != null && Reaches(res.bench, s, t) else s == t)
    && forall n :: n in d ==> Evolved(cmp, res, s, d[n], t, e[n])
  }

  lemma AllEvolvedSelf(cmp: Comparator, res: Results?, s: Marks, d: map<ListHead, Half>)
    requires cmp.CmpComplex? ==> res != null
    ensures AllEvolved(cmp, res, s, d, s, d)
  {
    hide Reaches, Evolved;
    forall n | n in d ensures Evolved(cmp, res, s, d[n], s, d[n]) { EvolvedSelf(cmp, res, s, d[n]); }
    if res != null { ReachesSelf(res.bench, s); }
  }

  lemma AllEvolvedTwo(cmp: Comparator, res: Results?, s: Marks, d: map<ListHead, Half>, t: Marks, e: map<ListHead, Half>, u: Marks, f: map<ListHead, Half>)
    requires AllEvolved(cmp, res, s, d, t, e) && AllEvolved(cmp, res, t, e, u, f)
    ensures AllEvolved(cmp, res, s, d, u, f)
  {
    hide Reaches, Evolved;
    forall n | n in d ensures Evolved(cmp, res, s, d[n], u, f[n]) { EvolvedTwo(cmp, res, s, d[n], t, e[n], u, f[n]); }
    if cmp.CmpComplex? { ReachesTwo(res.bench, s, t, u); }
  }

  // ---------------------------------------------------------------- one merge

  /** Two disjoint lists of distinct nodes. */
  ghost predicate Apart(s: seq<ListHead>, t: seq<ListHead>, u: seq<ListHead>)
  {
    Distinct(s + t + u)
  }

  /** What a merge has in hand: the merged list, the rest of the left run, and the chain that starts
      with the rest of the right run. */
  ghost predicate Hand(linked: seq<ListHead>, ps: seq<ListHead>, rest: seq<ListHead>, list: ListHead?, tail: ListHead?, p: ListHead?, q: ListHead?)
    reads linked, ps, rest
  {
    && Apart(linked, ps, rest) && Open(linked, list, tail) && Linked(ps) && Chain(rest, q)
    && (ps != [] ==> p == ps[0])
  }

  lemma Disjoint(s: seq<ListHead>, t: seq<ListHead>, u: seq<ListHead>)
    requires Apart(s, t, u)
    ensures forall n :: n in s ==> n !in t && n !in u
    ensures forall n :: n in t ==> n !in u
  {
    var a := s + t + u;
    forall i, j | 0 <= i < |s| && 0 <= j < |t| ensures s[i] != t[j] {
      assert a[i] == s[i] && a[|s| + j] == t[j];
    }
    forall i, j | 0 <= i < |s| && 0 <= j < |u| ensures s[i] != u[j] {
      assert a[i] == s[i] && a[|s| + |t| + j] == u[j];
    }
    forall i, j | 0 <= i < |t| && 0 <= j < |u| ensures t[i] != u[j] {
      assert a[|s| + i] == t[i] && a[|s| + |t| + j] == u[j];
    }
  }

  lemma DistinctParts(s: seq<ListHead>, t: seq<ListHead>, u: seq<ListHead>)
    requires Apart(s, t, u)
    ensures Distinct(s) && Distinct(t) && Distinct(u)
  {
    var a := s + t + u;
    forall i, j | 0 <= i < j < |s| ensures s[i] != s[j] { assert a[i] == s[i] && a[j] == s[j]; }
    forall i, j | 0 <= i < j < |t| ensures t[i] != t[j] { assert a[|s| + i] == t[i] && a[|s| + j] == t[j]; }
    forall i, j | 0 <= i < j < |u| ensures u[i] != u[j] { assert a[|s| + |t| + i] == u[i] && a[|s| + |t| + j] == u[j]; }
  }

  lemma ApartLeft(s: seq<ListHead>, t: seq<ListHead>, u: seq<ListHead>)
    requires Apart(s, t, u) && t != []
    ensures Apart(s + [t[0]], t[1..], u)
  {
    assert s + [t[0]] + t[1..] + u == s + t + u;
  }

  lemma ApartRight(s: seq<ListHead>, t: seq<ListHead>, u: seq<ListHead>)
    requires Apart(s, t, u) && u != []
    ensures Apart(s + [u[0]], t, u[1..])
  {
    var a, b, n := s + t + u, s + [u[0]] + t + u[1..], |s|;
    forall i, j | 0 <= i < j < |b| ensures b[i] != b[j] {
      var k, l := if i < n then i else if i == n then n + |t| else if i <= n + |t| then i - 1 else i,
                  if j < n then j else if j == n then n + |t| else if j <= n + |t| then j - 1 else j;
      assert b[i] == a[k] && b[j] == a[l] && k != l;
    }
  }

  /** if (tail) tail->next = e; else list = e; tail = e; */
  method Append(list: ListHead?, tail: ListHead?, e: ListHead, ghost linked: seq<ListHead>,
                ghost cmp: Comparator, ghost restore: bool, ghost all: seq<ListHead>)
    returns (list2: ListHead?, tail2: ListHead?)
    requires Open(linked, list, tail) && Distinct(linked + [e])
    modifies (if tail == null then {} else {tail})`next
    ensures Open(linked + [e], list2, tail2)
    ensures tail != null ==> tail in linked
    ensures Settled(cmp, restore, all) == old(Settled(cmp, restore, all)) && DataOf(all) == old(DataOf(all))
  {
    list2 := list;
    ghost var s, n := linked + [e], |linked|;
    assert forall i :: 0 <= i < n ==> s[i] == linked[i];
    assert forall i :: 0 <= i < n - 1 ==> s[i] != s[n - 1];
    if tail != null {
      tail.next := e;
    } else {
      list2 := e;
    }
    tail2 := e;
  }

  lemma LinkedTail(s: seq<ListHead>)
    requires Linked(s) && s != []
    ensures Linked(s[1..]) && (|s| > 1 ==> s[0].next == s[1])
  {
    var t := s[1..];
    forall i, j | 0 <= i < j < |t| && j == i + 1 ensures t[i].next == t[j] {
      var k, l := i + 1, j + 1;
      assert s[k].next == s[l];
    }
  }

  lemma ChainTail(s: seq<ListHead>, q: ListHead)
    requires Chain(s, q)
    ensures s != [] && q == s[0] && Chain(s[1..], q.next)
  {
    LinkedTail(s);
  }

  lemma HandParts(linked: seq<ListHead>, ps: seq<ListHead>, rest: seq<ListHead>, list: ListHead?, tail: ListHead?, p: ListHead?, q: ListHead?)
    requires Hand(linked, ps, rest, list, tail, p, q)
    ensures Apart(linked, ps, rest) && Open(linked, list, tail) && Linked(ps) && Chain(rest, q)
    ensures tail != null ==> tail in linked
    ensures ps != [] ==> p == ps[0]
    ensures q == (if rest == [] then null else rest[0])
  {}

  lemma HandFrom(linked: seq<ListHead>, ps: seq<ListHead>, rest: seq<ListHead>, list: ListHead?, tail: ListHead?, p: ListHead?, q: ListHead?)
    requires Apart(linked, ps, rest) && Open(linked, list, tail) && Linked(ps) && Chain(rest, q)
    requires ps != [] ==> p == ps[0]
    ensures Hand(linked, ps, rest, list, tail, p, q)
  {}

  /** e = p; p = p->next; psize--; and e is linked to the end. */
  method TakeFromLeft(list: ListHead?, tail: ListHead?, p: ListHead, q: ListHead?,
                      ghost linked: seq<ListHead>, ghost ps: seq<ListHead>, ghost rest: seq<ListHead>,
                      ghost cmp: Comparator, ghost restore: bool, ghost all: seq<ListHead>)
    returns (list2: ListHead?, tail2: ListHead?, p2: ListHead?)
    requires ps != [] && Hand(linked, ps, rest, list, tail, p, q)
    modifies (if tail == null then {} else {tail})`next
    ensures Hand(linked + [ps[0]], ps[1..], rest, list2, tail2, p2, q)
    ensures Settled(cmp, restore, all) == old(Settled(cmp, restore, all)) && DataOf(all) == old(DataOf(all))
  {
    hide *;
    HandParts(linked, ps, rest, list, tail, p, q);
    Disjoint(linked, ps, rest);
    ApartLeft(linked, ps, rest);
    DistinctParts(linked + [ps[0]], ps[1..], rest);
    LinkedTail(ps);
    var e := p;
    p2 := p.next;
    assert forall n :: n in ps[1..] ==> n in ps;
    list2, tail2 := Append(list, tail, e, linked, cmp, restore, all);
    HandFrom(linked + [ps[0]], ps[1..], rest, list2, tail2, p2, q);
  }

  /** e = q; q = q->next; qsize--; and e is linked to the end. */
  method TakeFromRight(list: ListHead?, tail: ListHead?, p: ListHead?, q: ListHead,
                       ghost linked: seq<ListHead>, ghost ps: seq<ListHead>, ghost rest: seq<ListHead>,
                       ghost cmp: Comparator, ghost restore: bool, ghost all: seq<ListHead>)
    returns (list2: ListHead?, tail2: ListHead?, q2: ListHead?)
    requires Hand(linked, ps, rest, list, tail, p, q)
    modifies (if tail == null then {} else {tail})`next
    ensures rest != [] && Hand(linked + [rest[0]], ps, rest[1..], list2, tail2, p, q2)
    ensures Settled(cmp, restore, all) == old(Settled(cmp, restore, all)) && DataOf(all) == old(DataOf(all))
  {
    hide *;
    HandParts(linked, ps, rest, list, tail, p, q);
    Disjoint(linked, ps, rest);
    ApartRight(linked, ps, rest);
    DistinctParts(linked + [rest[0]], ps, rest[1..]);
    ChainTail(rest, q);
    var e := q;
    q2 := q.next;
    assert forall n :: n in rest[1..] ==> n in rest;
    list2, tail2 := Append(list, tail, e, linked, cmp, restore, all);
    HandFrom(linked + [rest[0]], ps, rest[1..], list2, tail2, p, q2);
  }

  // ---------------------------------------------------------------- one merge

  ghost predicate Within(all: seq<ListHead>, s: seq<ListHead>)
  {
    forall n :: n in s ==> n in all
  }

  /** The values of a merge under way, with out merged so far. */
  ghost predicate Under(m: Keys<ListHead>, rank: map<ListHead, int>, all: seq<ListHead>, whole: multiset<ListHead>,
                        out: seq<ListHead>, ps: seq<ListHead>, qs: seq<ListHead>)
  {
    && Merging(m, rank, out, ps, qs) && (qs != [] ==> Earlier(rank, ps, qs))
    && Within(all, ps) && Within(all, qs) && multiset(out + ps + qs) == whole
  }

  lemma UnderParts(m: Keys<ListHead>, rank: map<ListHead, int>, all: seq<ListHead>, whole: multiset<ListHead>,
                   out: seq<ListHead>, ps: seq<ListHead>, qs: seq<ListHead>)
    requires Under(m, rank, all, whole, out, ps, qs)
    ensures ps != [] ==> ps[0] in all
    ensures qs != [] ==> qs[0] in all
  {}

  lemma UnderExtends(m: Keys<ListHead>, n: Keys<ListHead>, rank: map<ListHead, int>, all: seq<ListHead>, whole: multiset<ListHead>,
                     out: seq<ListHead>, ps: seq<ListHead>, qs: seq<ListHead>)
    requires Under(m, rank, all, whole, out, ps, qs) && Extends(m, n)
    ensures Under(n, rank, all, whole, out, ps, qs)
  {
    MergingExtends(m, n, rank, out, ps, qs);
  }

  lemma UnderLeft(m: Keys<ListHead>, rank: map<ListHead, int>, all: seq<ListHead>, whole: multiset<ListHead>,
                  out: seq<ListHead>, ps: seq<ListHead>, qs: seq<ListHead>)
    requires Under(m, rank, all, whole, out, ps, qs) && ps != []
    requires qs != [] ==> Before(m, rank, ps[0], qs[0])
    ensures Under(m, rank, all, whole, out + [ps[0]], ps[1..], qs)
  {
    TakeLeft(m, rank, out, ps, qs);
    hide Merging, Before;
    assert out + [ps[0]] + ps[1..] + qs == out + ps + qs;
  }

  lemma UnderRightWithin(m: Keys<ListHead>, rank: map<ListHead, int>, all: seq<ListHead>, whole: multiset<ListHead>,
                         out: seq<ListHead>, ps: seq<ListHead>, qs: seq<ListHead>)
    requires Under(m, rank, all, whole, out, ps, qs) && qs != []
    ensures Within(all, ps) && Within(all, qs[1..]) && (qs[1..] != [] ==> Earlier(rank, ps, qs[1..]))
  {
    hide Merging, Before;
  }

  lemma TakenElements(out: seq<ListHead>, ps: seq<ListHead>, qs: seq<ListHead>)
    requires qs != []
    ensures multiset(out + [qs[0]] + ps + qs[1..]) == multiset(out + ps + qs)
  {
    assert qs == [qs[0]] + qs[1..];
    assert multiset(qs) == multiset([qs[0]]) + multiset(qs[1..]);
  }

  lemma UnderRight(m: Keys<ListHead>, rank: map<ListHead, int>, all: seq<ListHead>, whole: multiset<ListHead>,
                   out: seq<ListHead>, ps: seq<ListHead>, qs: seq<ListHead>)
    requires Under(m, rank, all, whole, out, ps, qs) && qs != []
    requires ps != [] ==> Before(m, rank, qs[0], ps[0])
    ensures Under(m, rank, all, whole, out + [qs[0]], ps, qs[1..])
  {
    TakeRight(m, rank, out, ps, qs);
    TakenElements(out, ps, qs);
    UnderRightWithin(m, rank, all, whole, out, ps, qs);
    hide Merging, Before;
  }

  lemma UnderEnds(m: Keys<ListHead>, rank: map<ListHead, int>, all: seq<ListHead>, whole: multiset<ListHead>, out: seq<ListHead>)
    requires Under(m, rank, all, whole, out, [], [])
    ensures Sorted(m, rank, out) && multiset(out) == whole
  {
    MergingEnds(m, rank, out);
    assert out + [] + [] == out;
  }

  lemma UnderStarts(m: Keys<ListHead>, rank: map<ListHead, int>, all: seq<ListHead>, ps: seq<ListHead>, qs: seq<ListHead>)
    requires Sorted(m, rank, ps) && Sorted(m, rank, qs) && (qs != [] ==> Earlier(rank, ps, qs)) && Within(all, ps) && Within(all, qs)
    ensures Under(m, rank, all, multiset(ps + qs), [], ps, qs)
  {
    MergingStarts(m, rank, ps, qs);
    assert [] + ps + qs == ps + qs;
  }

  /** The settled order of the first elements. */
  lemma FirstSettled(m: Keys<ListHead>, rank: map<ListHead, int>, all: seq<ListHead>, whole: multiset<ListHead>,
                     out: seq<ListHead>, ps: seq<ListHead>, qs: seq<ListHead>)
    requires Under(m, rank, all, whole, out, ps, qs) && ps != [] && qs != []
    requires ps[0] in m && qs[0] in m && m[ps[0]].Some? && m[qs[0]].Some?
    ensures m[ps[0]].value <= m[qs[0]].value ==> Before(m, rank, ps[0], qs[0])
    ensures m[ps[0]].value > m[qs[0]].value ==> Before(m, rank, qs[0], ps[0])
  {
    FirstBefore(m, rank, ps, qs);
  }

  lemma SettledAt(cmp: Comparator, restore: bool, all: seq<ListHead>, n: ListHead)
    requires n in all
    ensures n in Settled(cmp, restore, all) && Settled(cmp, restore, all)[n] == KeyIn(cmp, restore, n.info)
  {}

  /** Is the next element taken from the left run? */
  method Choose(cmp: Comparator, res: Results?, p: ListHead?, q: ListHead?, psize: nat, qsize: nat,
                ghost all: seq<ListHead>, ghost rank: map<ListHead, int>, ghost whole: multiset<ListHead>,
                ghost out: seq<ListHead>, ghost ps: seq<ListHead>, ghost qs: seq<ListHead>) returns (left: bool)
    requires cmp.CmpComplex? ==> res != null
    requires Under(Settled(cmp, res == null, all), rank, all, whole, out, ps, qs)
    requires psize == |ps| && (ps != [] ==> p == ps[0]) && (qs != [] ==> q == qs[0])
    requires qs == [] <==> qsize == 0 || q == null
    requires ps != [] || qs != []
    modifies Infos(all)`data16, res
    ensures Extends(old(Settled(cmp, res == null, all)), Settled(cmp, res == null, all))
    ensures Under(Settled(cmp, res == null, all), rank, all, whole, out, ps, qs)
    ensures if left then ps != [] && (qs != [] ==> Before(Settled(cmp, res == null, all), rank, ps[0], qs[0]))
            else qs != [] && (ps != [] ==> Before(Settled(cmp, res == null, all), rank, qs[0], ps[0]))
    ensures AllEvolved(cmp, res, old(MarksOf(res)), old(DataOf(all)), MarksOf(res), DataOf(all))
  {
    hide *;
    ghost var m := Settled(cmp, res == null, all);
    ExtendsSelf(m);
    AllEvolvedSelf(cmp, res, MarksOf(res), DataOf(all));
    if psize == 0 {
      left := false;
    } else if qsize == 0 || q == null {
      left := true;
    } else {
      UnderParts(m, rank, all, whole, out, ps, qs);
      var r := CompareNodes(cmp, p, q, res, all);
      left := r <= 0;
      ghost var n := Settled(cmp, res == null, all);
      UnderExtends(m, n, rank, all, whole, out, ps, qs);
      SettledAt(cmp, res == null, all, p);
      SettledAt(cmp, res == null, all, q);
      FirstSettled(n, rank, all, whole, out, ps, qs);
    }
  }

  lemma ExtendsSelf(m: Keys<ListHead>)
    ensures Extends(m, m)
  {}

  /** The chain in front of the right pointer: the rest of the run, of at most qsize nodes, and what
      is beyond it. */
  ghost predicate RunAhead(qs: seq<ListHead>, beyond: seq<ListHead>, qsize: nat)
  {
    |qs| <= qsize && (|qs| < qsize ==> beyond == [])
  }

  lemma RunAheadStep(qs: seq<ListHead>, beyond: seq<ListHead>, qsize: nat, q: ListHead?)
    requires RunAhead(qs, beyond, qsize) && q == (if qs + beyond == [] then null else (qs + beyond)[0])
    ensures qs == [] <==> qsize == 0 || q == null
    ensures qs != [] ==> q == qs[0] && (qs + beyond)[0] == qs[0] && (qs + beyond)[1..] == qs[1..] + beyond && RunAhead(qs[1..], beyond, qsize - 1)
  {}

  /** A merge under way. */
  ghost predicate Merge(linked: seq<ListHead>, out: seq<ListHead>, ps: seq<ListHead>, qs: seq<ListHead>, beyond: seq<ListHead>,
                        list: ListHead?, tail: ListHead?, p: ListHead?, q: ListHead?, psize: nat, qsize: nat)
    reads linked, out, ps, qs, beyond
  {
    Hand(linked + out, ps, qs + beyond, list, tail, p, q) && psize == |ps| && RunAhead(qs, beyond, qsize)
  }

  lemma MergeParts(linked: seq<ListHead>, out: seq<ListHead>, ps: seq<ListHead>, qs: seq<ListHead>, beyond: seq<ListHead>,
                   list: ListHead?, tail: ListHead?, p: ListHead?, q: ListHead?, psize: nat, qsize: nat)
    requires Merge(linked, out, ps, qs, beyond, list, tail, p, q, psize, qsize)
    ensures Hand(linked + out, ps, qs + beyond, list, tail, p, q) && psize == |ps| && RunAhead(qs, beyond, qsize)
    ensures tail != null ==> tail in linked + out
    ensures ps != [] ==> p == ps[0]
    ensures qs == [] <==> qsize == 0 || q == null
    ensures qs != [] ==> q == qs[0] && (qs + beyond)[0] == qs[0] && (qs + beyond)[1..] == qs[1..] + beyond && RunAhead(qs[1..], beyond, qsize - 1)
  {
    HandParts(linked + out, ps, qs + beyond, list, tail, p, q);
    RunAheadStep(qs, beyond, qsize, q);
  }

  lemma MergeFrom(linked: seq<ListHead>, out: seq<ListHead>, e: ListHead, ps: seq<ListHead>, qs: seq<ListHead>, beyond: seq<ListHead>,
                  list: ListHead?, tail: ListHead?, p: ListHead?, q: ListHead?, psize: nat, qsize: nat)
    requires Hand(linked + out + [e], ps, qs + beyond, list, tail, p, q) && psize == |ps| && RunAhead(qs, beyond, qsize)
    ensures Merge(linked, out + [e], ps, qs, beyond, list, tail, p, q, psize, qsize)
  {
    assert linked + out + [e] == linked + (out + [e]);
  }

  lemma WithinTail(all: seq<ListHead>, linked: seq<ListHead>, out: seq<ListHead>, e: ListHead, tail: ListHead?)
    requires Within(all, linked + out) && e in all && (tail != null ==> tail in linked + out)
    ensures tail != null ==> tail in all
    ensures Within(all, linked + (out + [e]))
  {}

  /** One pass of the merge loop: an element is chosen and linked to the end. */
  method MergeStep(cmp: Comparator, res: Results?, list0: ListHead?, tail0: ListHead?, p0: ListHead?, q0: ListHead?, psize0: nat, qsize0: nat,
                   ghost all: seq<ListHead>, ghost rank: map<ListHead, int>, ghost whole: multiset<ListHead>, ghost linked: seq<ListHead>,
                   ghost out0: seq<ListHead>, ghost ps0: seq<ListHead>, ghost qs0: seq<ListHead>, ghost beyond: seq<ListHead>)
    returns (list: ListHead?, tail: ListHead?, p: ListHead?, q: ListHead?, psize: nat, qsize: nat,
             ghost out: seq<ListHead>, ghost ps: seq<ListHead>, ghost qs: seq<ListHead>)
    requires cmp.CmpComplex? ==> res != null
    requires Merge(linked, out0, ps0, qs0, beyond, list0, tail0, p0, q0, psize0, qsize0)
    requires Under(Settled(cmp, res == null, all), rank, all, whole, out0, ps0, qs0)
    requires Within(all, linked + out0)
    requires psize0 > 0 || (qsize0 > 0 && q0 != null)
    modifies (if tail0 == null then {} else {tail0})`next, Infos(all)`data16, res
    ensures Extends(old(Settled(cmp, res == null, all)), Settled(cmp, res == null, all))
    ensures Merge(linked, out, ps, qs, beyond, list, tail, p, q, psize, qsize)
    ensures Under(Settled(cmp, res == null, all), rank, all, whole, out, ps, qs)
    ensures Within(all, linked + out)
    ensures AllEvolved(cmp, res, old(MarksOf(res)), old(DataOf(all)), MarksOf(res), DataOf(all))
    ensures |ps| + |qs| < |ps0| + |qs0|
  {
    hide *;
    list, tail, p, q, psize, qsize := list0, tail0, p0, q0, psize0, qsize0;
    out, ps, qs := out0, ps0, qs0;
    MergeParts(linked, out, ps, qs, beyond, list, tail, p, q, psize, qsize);
    var left := Choose(cmp, res, p, q, psize, qsize, all, rank, whole, out, ps, qs);
    ghost var n := Settled(cmp, res == null, all);
    UnderParts(n, rank, all, whole, out, ps, qs);
    if left {
      WithinTail(all, linked, out, ps[0], tail);
      UnderLeft(n, rank, all, whole, out, ps, qs);
      list, tail, p := TakeFromLeft(list, tail, p, q, linked + out, ps, qs + beyond, cmp, res == null, all);
      psize := psize - 1;
      MergeFrom(linked, out, ps[0], ps[1..], qs, beyond, list, tail, p, q, psize, qsize);
      out, ps := out + [ps[0]], ps[1..];
    } else {
      WithinTail(all, linked, out, qs[0], tail);
      UnderRight(n, rank, all, whole, out, ps, qs);
      list, tail, q := TakeFromRight(list, tail, p, q, linked + out, ps, qs + beyond, cmp, res == null, all);
      qsize := qsize - 1;
      MergeFrom(linked, out, qs[0], ps, qs[1..], beyond, list, tail, p, q, psize, qsize);
      out, qs := out + [qs[0]], qs[1..];
    }
  }

  lemma TailWithin(all: seq<ListHead>, linked: seq<ListHead>, out: seq<ListHead>, tail: ListHead?)
    requires Within(all, linked + out) && (tail != null ==> tail in linked + out)
    ensures tail != null ==> tail in SetOf(all)
  {}

  lemma MergeStarts(linked: seq<ListHead>, ps: seq<ListHead>, qs: seq<ListHead>, beyond: seq<ListHead>,
                    list: ListHead?, tail: ListHead?, p: ListHead?, q: ListHead?, psize: nat, qsize: nat)
    requires Hand(linked, ps, qs + beyond, list, tail, p, q) && psize == |ps| && RunAhead(qs, beyond, qsize)
    ensures Merge(linked, [], ps, qs, beyond, list, tail, p, q, psize, qsize)
  {
    assert linked + [] == linked;
  }

  lemma MergeEnds(linked: seq<ListHead>, out: seq<ListHead>, ps: seq<ListHead>, qs: seq<ListHead>, beyond: seq<ListHead>,
                  list: ListHead?, tail: ListHead?, p: ListHead?, q: ListHead?, psize: nat, qsize: nat)
    requires Merge(linked, out, ps, qs, beyond, list, tail, p, q, psize, qsize) && psize == 0 && (qsize == 0 || q == null)
    ensures ps == [] && qs == [] && Hand(linked + out, [], beyond, list, tail, null, q)
  {
    MergeParts(linked, out, ps, qs, beyond, list, tail, p, q, psize, qsize);
    assert qs + beyond == beyond;
  }

  /** The merge of the run ps with the run qs that follows it in the chain. */
  method MergeRuns(cmp: Comparator, res: Results?, list0: ListHead?, tail0: ListHead?, p0: ListHead?, q0: ListHead?, psize0: nat, insize: nat,
                   ghost all: seq<ListHead>, ghost rank: map<ListHead, int>, ghost linked: seq<ListHead>,
                   ghost ps0: seq<ListHead>, ghost qs0: seq<ListHead>, ghost beyond: seq<ListHead>)
    returns (list: ListHead?, tail: ListHead?, q: ListHead?, ghost out: seq<ListHead>)
    requires cmp.CmpComplex? ==> res != null
    requires Hand(linked, ps0, qs0 + beyond, list0, tail0, p0, q0) && psize0 == |ps0| && RunAhead(qs0, beyond, insize)
    requires Under(Settled(cmp, res == null, all), rank, all, multiset(ps0 + qs0), [], ps0, qs0)
    requires Within(all, linked)
    modifies SetOf(all)`next, Infos(all)`data16, res
    ensures Extends(old(Settled(cmp, res == null, all)), Settled(cmp, res == null, all))
    ensures Hand(linked + out, [], beyond, list, tail, null, q)
    ensures Sorted(Settled(cmp, res == null, all), rank, out) && multiset(out) == multiset(ps0 + qs0)
    ensures Within(all, linked + out)
    ensures AllEvolved(cmp, res, old(MarksOf(res)), old(DataOf(all)), MarksOf(res), DataOf(all))
  {
    hide *;
    ghost var whole := multiset(ps0 + qs0);
    ghost var m, marks, d := Settled(cmp, res == null, all), MarksOf(res), DataOf(all);
    ExtendsSelf(m);
    AllEvolvedSelf(cmp, res, marks, d);
    ghost var ps, qs := ps0, qs0;
    var p, psize, qsize := p0, psize0, insize;
    list, tail, q := list0, tail0, q0;
    out := [];
    assert linked + out == linked;
    MergeStarts(linked, ps, qs, beyond, list, tail, p, q, psize, qsize);
    while psize > 0 || (qsize > 0 && q != null)
      invariant Merge(linked, out, ps, qs, beyond, list, tail, p, q, psize, qsize)
      invariant Under(Settled(cmp, res == null, all), rank, all, whole, out, ps, qs)
      invariant Within(all, linked + out)
      invariant Extends(m, Settled(cmp, res == null, all))
      invariant Infos(all) == old(Infos(all)) && AllEvolved(cmp, res, old(MarksOf(res)), old(DataOf(all)), MarksOf(res), DataOf(all))
      decreases |ps| + |qs|
    {
      MergeParts(linked, out, ps, qs, beyond, list, tail, p, q, psize, qsize);
      TailWithin(all, linked, out, tail);
      ghost var m1, marks1, d1 := Settled(cmp, res == null, all), MarksOf(res), DataOf(all);
      list, tail, p, q, psize, qsize, out, ps, qs :=
        MergeStep(cmp, res, list, tail, p, q, psize, qsize, all, rank, whole, linked, out, ps, qs, beyond);
      AllEvolvedTwo(cmp, res, marks, d, marks1, d1, MarksOf(res), DataOf(all));
      ExtendsChain(m, m1, Settled(cmp, res == null, all));
    }
    MergeEnds(linked, out, ps, qs, beyond, list, tail, p, q, psize, qsize);
    UnderEnds(Settled(cmp, res == null, all), rank, all, whole, out);
  }

  // ---------------------------------------------------------------- one pass

  lemma ChainDrop(s: seq<ListHead>, k: nat, q: ListHead)
    requires k < |s| && Chain(s[k..], q)
    ensures q == s[k] && Chain(s[k + 1..], q.next) && (q.next == null <==> k + 1 == |s|)
  {
    ChainTail(s[k..], q);
    assert s[k..][1..] == s[k + 1..];
  }

  /** for (i = 0; i < insize; i++) { psize++; q = q->next; if (!q) break; } */
  method StepAlong(p: ListHead, insize: nat, ghost s: seq<ListHead>,
                   ghost cmp: Comparator, ghost restore: bool, ghost all: seq<ListHead>) returns (q: ListHead?, psize: nat)
    requires insize > 0 && Chain(s, p)
    ensures psize == (if insize < |s| then insize else |s|) && Chain(s[psize..], q)
    ensures Settled(cmp, restore, all) == old(Settled(cmp, restore, all)) && DataOf(all) == old(DataOf(all)) && Infos(all) == old(Infos(all))
  {
    hide Chain;
    q, psize := p, 0;
    assert s[0..] == s;
    NotEmpty(s, p);
    var i := 0;
    while i < insize && q != null
      invariant i == psize <= |s| && i <= insize && Chain(s[psize..], q) && (q == null <==> psize == |s|)
    {
      ChainDrop(s, psize, q);
      psize := psize + 1;
      q := q.next;
      if q == null { break; }
      i := i + 1;
    }
  }

  lemma NotEmpty(s: seq<ListHead>, p: ListHead?)
    requires Chain(s, p)
    ensures p == null <==> s == []
  {}

  /** The first run is cut off the chain. */
  lemma HandSplit(linked: seq<ListHead>, a: seq<ListHead>, b: seq<ListHead>, list: ListHead?, tail: ListHead?, p: ListHead?, q: ListHead?)
    requires Hand(linked, [], a + b, list, tail, null, p) && a != [] && Chain(b, q)
    ensures Hand(linked, a, b, list, tail, p, q)
  {
    assert linked + [] + (a + b) == linked + a + b;
    var s := a + b;
    forall i, j | 0 <= i < j < |a| && j == i + 1 ensures a[i].next == a[j] { assert s[i].next == s[j]; }
    assert s[0] == a[0];
  }

  /** A pass under way: the merged runs are linked, the chain holds the runs that are left. */
  ghost predicate Pass(m: Keys<ListHead>, rank: map<ListHead, int>, all: seq<ListHead>, whole: multiset<ListHead>, size: nat,
                       done: seq<seq<ListHead>>, left: seq<seq<ListHead>>, list: ListHead?, tail: ListHead?, p: ListHead?)
    reads Flat(done), Flat(left)
  {
    && Hand(Flat(done), [], Flat(left), list, tail, null, p) && PassState(m, rank, done, left, size)
    && multiset(Flat(done) + Flat(left)) == whole && Within(all, Flat(done)) && Within(all, Flat(left))
  }

  lemma PassParts(m: Keys<ListHead>, rank: map<ListHead, int>, all: seq<ListHead>, whole: multiset<ListHead>, size: nat,
                  done: seq<seq<ListHead>>, left: seq<seq<ListHead>>, list: ListHead?, tail: ListHead?, p: ListHead?)
    requires Pass(m, rank, all, whole, size, done, left, list, tail, p)
    ensures Hand(Flat(done), [], Flat(left), list, tail, null, p) && Chain(Flat(left), p) && PassState(m, rank, done, left, size)
    ensures Within(all, Flat(done)) && Within(all, Flat(left)) && multiset(Flat(done) + Flat(left)) == whole
    ensures p == null <==> left == []
  {
    hide PassState, Within, Distinct, Linked;
    if left != [] {
      FlatFirst(left);
      hide Flat;
      FirstRuns(m, rank, done, left, size);
    }
  }

  /** The runs that are merged next. */
  lemma NextRuns(m: Keys<ListHead>, rank: map<ListHead, int>, all: seq<ListHead>, done: seq<seq<ListHead>>, left: seq<seq<ListHead>>, size: nat)
    requires PassState(m, rank, done, left, size) && left != [] && Within(all, Flat(left))
    ensures left[0] != [] && Flat(left) == left[0] + (Second(left) + Flat(Beyond(left)))
    ensures |left[0]| == if size < |Flat(left)| then size else |Flat(left)|
    ensures RunAhead(Second(left), Flat(Beyond(left)), size)
    ensures Under(m, rank, all, multiset(left[0] + Second(left)), [], left[0], Second(left))
    ensures Within(all, Flat(Beyond(left)))
  {
    FlatFirst(left);
    FirstRuns(m, rank, done, left, size);
    hide PassState, Sorted, Earlier;
    assert |left| == 1 ==> Second(left) == [] && Beyond(left) == [];
    assert Beyond(left) == [] ==> Flat(Beyond(left)) == [];
    hide Flat;
    UnderStarts(m, rank, all, left[0], Second(left));
  }

  lemma PassNext(m: Keys<ListHead>, n: Keys<ListHead>, rank: map<ListHead, int>, all: seq<ListHead>, whole: multiset<ListHead>, size: nat,
                 done: seq<seq<ListHead>>, left: seq<seq<ListHead>>, out: seq<ListHead>, list: ListHead?, tail: ListHead?, q: ListHead?)
    requires PassState(m, rank, done, left, size) && left != [] && Extends(m, n)
    requires multiset(Flat(done) + Flat(left)) == whole
    requires Hand(Flat(done) + out, [], Flat(Beyond(left)), list, tail, null, q)
    requires Sorted(n, rank, out) && multiset(out) == multiset(left[0] + Second(left))
    requires Within(all, Flat(done) + out) && Within(all, Flat(Beyond(left)))
    ensures Pass(n, rank, all, whole, size, done + [out], Beyond(left), list, tail, q)
  {
    PassStep(m, n, rank, done, left, size, out);
    FlatAppend(done, out);
    FlatFirst(left);
    hide *;
    PassElements(Flat(done), left[0], Second(left), Flat(Beyond(left)), out);
    PassFrom(n, rank, all, whole, size, done + [out], Beyond(left), list, tail, q);
  }

  lemma PassElements(d: seq<ListHead>, a: seq<ListHead>, b: seq<ListHead>, r: seq<ListHead>, out: seq<ListHead>)
    requires multiset(out) == multiset(a + b)
    ensures multiset(d + out + r) == multiset(d + (a + (b + r)))
  {
    assert a + (b + r) == (a + b) + r;
    assert multiset(a + b + r) == multiset(a + b) + multiset(r);
  }

  lemma PassFrom(m: Keys<ListHead>, rank: map<ListHead, int>, all: seq<ListHead>, whole: multiset<ListHead>, size: nat,
                 done: seq<seq<ListHead>>, left: seq<seq<ListHead>>, list: ListHead?, tail: ListHead?, p: ListHead?)
    requires Hand(Flat(done), [], Flat(left), list, tail, null, p) && PassState(m, rank, done, left, size)
    requires multiset(Flat(done) + Flat(left)) == whole && Within(all, Flat(done)) && Within(all, Flat(left))
    ensures Pass(m, rank, all, whole, size, done, left, list, tail, p)
  {}

  lemma PassBegins(m: Keys<ListHead>, rank: map<ListHead, int>, all: seq<ListHead>, size: nat, runs: seq<seq<ListHead>>, p: ListHead?)
    requires Sized(runs, size) && AllSorted(m, rank, runs) && Separated(rank, runs)
    requires Chain(Flat(runs), p) && Distinct(Flat(runs)) && Within(all, Flat(runs))
    ensures Pass(m, rank, all, multiset(Flat(runs)), size, [], runs, null, null, p)
  {
    PassStarts(m, rank, runs, size);
    assert Flat<ListHead>([]) == [];
    hide *;
    assert [] + Flat(runs) == Flat(runs);
    HandBegins(Flat(runs), p);
    WithinNone(all);
    PassFrom(m, rank, all, multiset(Flat(runs)), size, [], runs, null, null, p);
  }

  lemma HandBegins(s: seq<ListHead>, p: ListHead?)
    requires Chain(s, p) && Distinct(s)
    ensures Hand([], [], s, null, null, null, p)
  {
    assert [] + [] + s == s;
  }

  lemma WithinNone(all: seq<ListHead>)
    ensures Within(all, [])
  {}

  /** tail->next = NULL; */
  method Close(tail: ListHead, list: ListHead?, ghost s: seq<ListHead>, ghost cmp: Comparator, ghost restore: bool, ghost all: seq<ListHead>)
    requires Open(s, list, tail) && Distinct(s)
    modifies tail`next
    ensures Chain(s, list)
    ensures Settled(cmp, restore, all) == old(Settled(cmp, restore, all)) && DataOf(all) == old(DataOf(all))
  {
    tail.next := null;
  }

  lemma PassEnding(m: Keys<ListHead>, rank: map<ListHead, int>, all: seq<ListHead>, whole: multiset<ListHead>, size: nat,
                   done: seq<seq<ListHead>>, list: ListHead?, tail: ListHead?, p: ListHead?)
    requires Pass(m, rank, all, whole, size, done, [], list, tail, p)
    ensures Open(Flat(done), list, tail) && Distinct(Flat(done)) && Within(all, Flat(done)) && multiset(Flat(done)) == whole
    ensures tail != null ==> tail in SetOf(all)
    ensures Sized(done, 2 * size) && AllSorted(m, rank, done) && Separated(rank, done)
    ensures done != [] ==> tail != null
  {
    PassEnds(m, rank, done, size);
    assert Flat<ListHead>([]) == [];
    assert done != [] ==> done[0] != [] && Flat(done) == done[0] + Flat(done[1..]);
    hide Flat, PassState, Sized, AllSorted, Separated;
    assert Flat(done) + [] == Flat(done) && Flat(done) + [] + [] == Flat(done);
  }

  /** The first run of the chain is found and merged with the second. */
  method CutAndMerge(cmp: Comparator, res: Results?, list0: ListHead?, tail0: ListHead?, p: ListHead, insize: nat,
                     ghost all: seq<ListHead>, ghost rank: map<ListHead, int>,
                     ghost d: seq<ListHead>, ghost a: seq<ListHead>, ghost b: seq<ListHead>, ghost r: seq<ListHead>)
    returns (list: ListHead?, tail: ListHead?, q: ListHead?, ghost out: seq<ListHead>)
    requires (cmp.CmpComplex? ==> res != null) && insize > 0 && a != []
    requires Hand(d, [], a + (b + r), list0, tail0, null, p) && Chain(a + (b + r), p)
    requires |a| == (if insize < |a + (b + r)| then insize else |a + (b + r)|) && RunAhead(b, r, insize)
    requires Under(Settled(cmp, res == null, all), rank, all, multiset(a + b), [], a, b) && Within(all, d)
    modifies SetOf(all)`next, Infos(all)`data16, res
    ensures Extends(old(Settled(cmp, res == null, all)), Settled(cmp, res == null, all))
    ensures Hand(d + out, [], r, list, tail, null, q)
    ensures Sorted(Settled(cmp, res == null, all), rank, out) && multiset(out) == multiset(a + b)
    ensures Within(all, d + out)
    ensures AllEvolved(cmp, res, old(MarksOf(res)), old(DataOf(all)), MarksOf(res), DataOf(all))
  {
    hide *;
    var psize: nat;
    q, psize := StepAlong(p, insize, a + (b + r), cmp, res == null, all);
    assert (a + (b + r))[|a|..] == b + r;
    HandSplit(d, a, b + r, list0, tail0, p, q);
    list, tail, q, out := MergeRuns(cmp, res, list0, tail0, p, q, psize, insize, all, rank, d, a, b, r);
  }

  /** One merge of a pass: the two runs at p become one run at the end of the list. */
  method MergeNext(cmp: Comparator, res: Results?, list0: ListHead?, tail0: ListHead?, p: ListHead, insize: nat,
                   ghost all: seq<ListHead>, ghost rank: map<ListHead, int>, ghost whole: multiset<ListHead>,
                   ghost done: seq<seq<ListHead>>, ghost left: seq<seq<ListHead>>)
    returns (list: ListHead?, tail: ListHead?, q: ListHead?, ghost out: seq<ListHead>)
    requires (cmp.CmpComplex? ==> res != null) && insize > 0
    requires Pass(Settled(cmp, res == null, all), rank, all, whole, insize, done, left, list0, tail0, p)
    modifies SetOf(all)`next, Infos(all)`data16, res
    ensures Extends(old(Settled(cmp, res == null, all)), Settled(cmp, res == null, all))
    ensures Pass(Settled(cmp, res == null, all), rank, all, whole, insize, done + [out], Beyond(left), list, tail, q) && left != []
    ensures AllEvolved(cmp, res, old(MarksOf(res)), old(DataOf(all)), MarksOf(res), DataOf(all))
  {
    hide *;
    ghost var m := Settled(cmp, res == null, all);
    PassParts(m, rank, all, whole, insize, done, left, list0, tail0, p);
    NextRuns(m, rank, all, done, left, insize);
    HandParts(Flat(done), [], Flat(left), list0, tail0, null, p);
    list, tail, q, out := CutAndMerge(cmp, res, list0, tail0, p, insize, all, rank, Flat(done), left[0], Second(left), Flat(Beyond(left)));
    PassNext(m, Settled(cmp, res == null, all), rank, all, whole, insize, done, left, out, list, tail, q);
  }

  /** One pass of the outer loop. */
  method SortPass(cmp: Comparator, res: Results?, list0: ListHead?, insize: nat,
                  ghost all: seq<ListHead>, ghost rank: map<ListHead, int>, ghost runs: seq<seq<ListHead>>)
    returns (list: ListHead?, nmerges: nat, ghost done: seq<seq<ListHead>>)
    requires (cmp.CmpComplex? ==> res != null) && insize > 0 && runs != []
    requires Sized(runs, insize) && AllSorted(Settled(cmp, res == null, all), rank, runs) && Separated(rank, runs)
    requires Chain(Flat(runs), list0) && Distinct(Flat(runs)) && Within(all, Flat(runs))
    modifies SetOf(all)`next, Infos(all)`data16, res
    ensures Extends(old(Settled(cmp, res == null, all)), Settled(cmp, res == null, all))
    ensures Chain(Flat(done), list) && Distinct(Flat(done)) && Within(all, Flat(done)) && multiset(Flat(done)) == multiset(Flat(runs))
    ensures Sized(done, 2 * insize) && AllSorted(Settled(cmp, res == null, all), rank, done) && Separated(rank, done)
    ensures nmerges == |done| > 0 && 2 * |done| <= |runs| + 1
    ensures AllEvolved(cmp, res, old(MarksOf(res)), old(DataOf(all)), MarksOf(res), DataOf(all))
  {
    hide *;
    ghost var m, marks, d, whole := Settled(cmp, res == null, all), MarksOf(res), DataOf(all), multiset(Flat(runs));
    ExtendsSelf(m);
    AllEvolvedSelf(cmp, res, marks, d);
    var p, tail := list0, null;
    list := null;
    nmerges := 0;
    done := [];
    ghost var left := runs;
    PassBegins(m, rank, all, insize, runs, p);
    PassParts(m, rank, all, whole, insize, done, left, list, tail, p);
    while p != null
      invariant Pass(Settled(cmp, res == null, all), rank, all, whole, insize, done, left, list, tail, p)
      invariant p == null <==> left == []
      invariant nmerges == |done| && 2 * |done| + |left| <= |runs| + 1 && (left != [] ==> 2 * |done| + |left| == |runs|)
      invariant done == [] ==> left != []
      invariant Extends(m, Settled(cmp, res == null, all))
      invariant Infos(all) == old(Infos(all)) && AllEvolved(cmp, res, old(MarksOf(res)), old(DataOf(all)), MarksOf(res), DataOf(all))
      decreases |left|
    {
      nmerges := nmerges + 1;
      ghost var m1, marks1, d1 := Settled(cmp, res == null, all), MarksOf(res), DataOf(all);
      ghost var out;
      list, tail, p, out := MergeNext(cmp, res, list, tail, p, insize, all, rank, whole, done, left);
      AllEvolvedTwo(cmp, res, marks, d, marks1, d1, MarksOf(res), DataOf(all));
      ExtendsChain(m, m1, Settled(cmp, res == null, all));
      BeyondSize(left);
      done, left := done + [out], Beyond(left);
      PassParts(Settled(cmp, res == null, all), rank, all, whole, insize, done, left, list, tail, p);
    }
    PassEnding(Settled(cmp, res == null, all), rank, all, whole, insize, done, list, tail, p);
    Close(tail, list, Flat(done), cmp, res == null, all);
  }

  lemma BeyondSize(left: seq<seq<ListHead>>)
    requires left != []
    ensures |Beyond(left)| == if |left| >= 2 then |left| - 2 else 0
  {}

  // ---------------------------------------------------------------- the sort

  /** Both keys are settled, and a comes before b: by its key, or by its place in ns. */
  ghost predicate InOrder(cmp: Comparator, restore: bool, ns: seq<ListHead>, a: ListHead, b: ListHead)
    reads a`info, b`info, a.info, b.info
  {
    && KeyIn(cmp, restore, a.info).Some? && KeyIn(cmp, restore, b.info).Some? && a in ns && b in ns
    && (KeyIn(cmp, restore, a.info).value < KeyIn(cmp, restore, b.info).value
        || (KeyIn(cmp, restore, a.info) == KeyIn(cmp, restore, b.info) && Ranks(ns)[a] < Ranks(ns)[b]))
  }

  /** The list is sorted by its final keys, and equal keys are in the order in which ns has them. */
  ghost predicate StablySorted(cmp: Comparator, restore: bool, ns: seq<ListHead>, out: seq<ListHead>)
    reads out`info, Infos(out)
  {
    forall i, j :: 0 <= i < j < |out| ==> InOrder(cmp, restore, ns, out[i], out[j])
  }

  lemma SortedIsStable(cmp: Comparator, restore: bool, ns: seq<ListHead>, out: seq<ListHead>)
    requires Sorted(Settled(cmp, restore, ns), Ranks(ns), out)
    ensures StablySorted(cmp, restore, ns, out)
  {
    hide KeyIn;
    forall i, j | 0 <= i < j < |out| ensures InOrder(cmp, restore, ns, out[i], out[j]) {
      assert Before(Settled(cmp, restore, ns), Ranks(ns), out[i], out[j]);
    }
  }

  /** With two nodes or more every key is settled. */
  lemma AllSettled(cmp: Comparator, restore: bool, ns: seq<ListHead>, out: seq<ListHead>)
    requires StablySorted(cmp, restore, ns, out) && |out| >= 2
    ensures forall n :: n in out ==> KeyIn(cmp, restore, n.info).Some?
  {
    hide KeyIn;
    forall n | n in out ensures KeyIn(cmp, restore, n.info).Some? {
      var i :| 0 <= i < |out| && out[i] == n;
      assert if i > 0 then InOrder(cmp, restore, ns, out[0], out[i]) else InOrder(cmp, restore, ns, out[0], out[1]);
    }
  }

  /** Where the key of a node comes from: a key that was cached is kept, data of the other kinds is its own key, and
      data of the two benchmarks has the low bits of what the benchmark returned for its step. */
  lemma KeysComputed(res: Results, s: Marks, d: map<ListHead, Half>, t: Marks, e: map<ListHead, Half>, n: ListHead)
    requires AllEvolved(CmpComplex, res, s, d, t, e) && n in d && Cached(e[n])
    ensures e[n] / 0x100 == d[n] / 0x100 && (Cached(d[n]) ==> e[n] == d[n])
    ensures !Cached(d[n]) ==> SettledFrom(res.bench, s, d[n], t, e[n])
    ensures !Cached(d[n]) && d[n] % 8 >= 2 ==> Low7(e[n]) == d[n] % 0x80
    ensures !Cached(d[n]) && d[n] % 8 <= 1 ==> FromBench(res.bench, d[n] % 8 == 0, Step(d[n]), Low7(e[n]))
  {
    hide Reaches, Cached, Low7, Step, SettledFrom, FromBench;
    assert Evolved(CmpComplex, res, s, d[n], t, e[n]);
    EvolvedHigh(CmpComplex, res, s, d[n], t, e[n]);
    EvolvedCached(res, s, d[n], t, e[n]);
    if SettledFrom(res.bench, s, d[n], t, e[n]) { SettledKey(res.bench, s, d[n], t, e[n]); }
  }

  lemma EvolvedCached(res: Results, s: Marks, x: Half, t: Marks, y: Half)
    requires Evolved(CmpComplex, res, s, x, t, y)
    ensures Cached(x) ==> y == x
  {
    hide Reaches;
  }

  lemma OneRun(m: Keys<ListHead>, rank: map<ListHead, int>, runs: seq<seq<ListHead>>)
    requires |runs| == 1 && AllSorted(m, rank, runs)
    ensures Sorted(m, rank, Flat(runs))
  {
    assert Flat(runs) == runs[0] + Flat(runs[1..]) == runs[0] + [] == runs[0];
  }

  lemma SameMembers(s: seq<ListHead>, t: seq<ListHead>)
    requires multiset(s) == multiset(t)
    ensures |s| == |t| && forall n :: n in s ==> n in t
  {
    assert |multiset(s)| == |multiset(t)|;
    assert forall n :: n in t <==> n in multiset(t);
    assert forall n :: n in s <==> n in multiset(s);
  }

  lemma WithinSelf(ns: seq<ListHead>)
    ensures Within(ns, ns)
  {}

  lemma RunsStart(m: Keys<ListHead>, ns: seq<ListHead>)
    requires Distinct(ns) && ns != []
    ensures Singles(ns) != [] && Sized(Singles(ns), 1) && AllSorted(m, Ranks(ns), Singles(ns)) && Separated(Ranks(ns), Singles(ns))
    ensures Flat(Singles(ns)) == ns
  {
    SinglesSorted(m, ns);
    FlatSingles(ns);
    hide *;
    assert |Singles(ns)| == |ns|;
  }

  /** core_list_mergesort(list, cmp, res) for a list that is not empty: the same nodes, stably sorted by
      their final keys, which with two nodes or more are all settled. */
  method MergeSort(list0: ListHead, cmp: Comparator, res: Results?, ghost ns: seq<ListHead>)
    returns (list: ListHead?, ghost out: seq<ListHead>)
    requires cmp.CmpComplex? ==> res != null
    requires Chain(ns, list0) && Distinct(ns)
    modifies SetOf(ns)`next, Infos(ns)`data16, res
    ensures Chain(out, list) && Distinct(out) && multiset(out) == multiset(ns)
    ensures StablySorted(cmp, res == null, ns, out)
    ensures |ns| >= 2 ==> forall n :: n in ns ==> KeyIn(cmp, res == null, n.info).Some?
    ensures Extends(old(Settled(cmp, res == null, ns)), Settled(cmp, res == null, ns))
    ensures AllEvolved(cmp, res, old(MarksOf(res)), old(DataOf(ns)), MarksOf(res), DataOf(ns))
  {
    hide *;
    ghost var rank, m, marks, d := Ranks(ns), Settled(cmp, res == null, ns), MarksOf(res), DataOf(ns);
    AllEvolvedSelf(cmp, res, marks, d);
    NotEmpty(ns, list0);
    RunsStart(m, ns);
    WithinSelf(ns);
    ExtendsSelf(m);
    ghost var runs := Singles(ns);
    list := list0;
    var insize := 1;
    while true
      invariant insize > 0 && runs != []
      invariant Chain(Flat(runs), list) && Distinct(Flat(runs)) && Within(ns, Flat(runs)) && multiset(Flat(runs)) == multiset(ns)
      invariant Sized(runs, insize) && AllSorted(Settled(cmp, res == null, ns), rank, runs) && Separated(rank, runs)
      invariant Extends(m, Settled(cmp, res == null, ns))
      invariant Infos(ns) == old(Infos(ns)) && AllEvolved(cmp, res, old(MarksOf(res)), old(DataOf(ns)), MarksOf(res), DataOf(ns))
      decreases |runs|
    {
      var nmerges: nat;
      ghost var m1, marks1, d1 := Settled(cmp, res == null, ns), MarksOf(res), DataOf(ns);
      ghost var done;
      list, nmerges, done := SortPass(cmp, res, list, insize, ns, rank, runs);
      AllEvolvedTwo(cmp, res, marks, d, marks1, d1, MarksOf(res), DataOf(ns));
      ExtendsChain(m, m1, Settled(cmp, res == null, ns));
      if nmerges <= 1 {
        out := Flat(done);
        OneRun(Settled(cmp, res == null, ns), rank, done);
        SortedIsStable(cmp, res == null, ns, out);
        SameMembers(ns, out);
        if |ns| >= 2 { AllSettled(cmp, res == null, ns, out); }
        return;
      }
      runs := done;
      insize := insize * 2;
    }
  }
}
