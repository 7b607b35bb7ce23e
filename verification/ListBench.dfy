/** Finding, reversing, removing and sorting: the benchmark gives the list back as it was. */
module ListBench {
  import opened Sequences
  import CrcDivision
  import Numerals
  import opened ListCrc
  import opened StableMerge
  import opened ListItems
  import opened ListSort

  // ---------------------------------------------------------------- finding

  /** The test of core_list_find: by index, or by the low byte when the index is negative. */
  predicate Matches(d: ListData, data16: Half, idx: Short)
    reads d
  {
    if idx >= 0 then d.idx == idx else d.data16 % 0x100 == data16
  }

  /** What a node shows, apart from its link. */
  datatype Item = Item(data: Half, idx: Short)

  type View = map<ListHead, Item>

  ghost function ViewOf(s: seq<ListHead>): (v: View)
    reads s`info, Infos(s)
    ensures v.Keys == set n | n in s
  {
    map n | n in s :: Item(n.info.data16, n.info.idx)
  }

  ghost predicate Seen(v: View, s: seq<ListHead>)
  {
    forall n :: n in s ==> n in v
  }

  predicate Fits(d: Item, data16: Half, idx: Short)
  {
    if idx >= 0 then d.idx == idx else d.data % 0x100 == data16
  }

  /** The place of the first node that fits, or the length. */
  ghost function FirstMatch(v: View, s: seq<ListHead>, data16: Half, idx: Short): (k: nat)
    requires Seen(v, s)
    ensures k <= |s|
  {
    if s == [] || Fits(v[s[0]], data16, idx) then 0 else 1 + FirstMatch(v, s[1..], data16, idx)
  }

  lemma {:induction false} FirstMatchFits(v: View, s: seq<ListHead>, data16: Half, idx: Short)
    requires Seen(v, s)
    ensures var k := FirstMatch(v, s, data16, idx);
            (k < |s| ==> Fits(v[s[k]], data16, idx)) && forall i :: 0 <= i < k ==> !Fits(v[s[i]], data16, idx)
  {
    hide Fits;
    if s != [] && !Fits(v[s[0]], data16, idx) {
      FirstMatchFits(v, s[1..], data16, idx);
      var k := FirstMatch(v, s, data16, idx);
      forall i | 0 <= i < k ensures !Fits(v[s[i]], data16, idx) {
        if i > 0 { assert s[i] == s[1..][i - 1]; }
      }
    }
  }

  lemma FirstMatchIs(v: View, s: seq<ListHead>, data16: Half, idx: Short, k: nat)
    requires Seen(v, s) && k <= |s| && (k < |s| ==> Fits(v[s[k]], data16, idx))
    requires forall i :: 0 <= i < k ==> !Fits(v[s[i]], data16, idx)
    ensures k == FirstMatch(v, s, data16, idx)
  {
    var f := FirstMatch(v, s, data16, idx);
    FirstMatchFits(v, s, data16, idx);
    hide FirstMatch, Fits;
    assert f < |s| ==> Fits(v[s[f]], data16, idx);
    assert k < |s| ==> Fits(v[s[k]], data16, idx);
  }

  /** core_list_find(list, info): the first node that matches. */
  method Find(list0: ListHead?, data16: Half, idx: Short, ghost ns: seq<ListHead>) returns (list: ListHead?, ghost k: nat)
    requires Chain(ns, list0)
    ensures list == null <==> forall n :: n in ns ==> !Matches(n.info, data16, idx)
    ensures list != null ==> list in ns && Matches(list.info, data16, idx)
    ensures k <= |ns| && (list == null <==> k == |ns|) && (k < |ns| ==> list == ns[k])
    ensures forall i :: 0 <= i < k ==> !Matches(ns[i].info, data16, idx)
  {
    hide Chain;
    list := list0;
    k := 0;
    assert ns[0..] == ns;
    Position(ns, 0, list);
    if idx >= 0 {
      while list != null && list.info.idx != idx
        invariant k <= |ns| && Chain(ns[k..], list) && (list == null <==> k == |ns|) && (k < |ns| ==> list == ns[k])
        invariant forall i :: 0 <= i < k ==> !Matches(ns[i].info, data16, idx)
        decreases |ns| - k
      {
        Position(ns, k, list);
        list := list.next;
        k := k + 1;
        Position(ns, k, list);
      }
    } else {
      while list != null && list.info.data16 % 0x100 != data16
        invariant k <= |ns| && Chain(ns[k..], list) && (list == null <==> k == |ns|) && (k < |ns| ==> list == ns[k])
        invariant forall i :: 0 <= i < k ==> !Matches(ns[i].info, data16, idx)
        decreases |ns| - k
      {
        Position(ns, k, list);
        list := list.next;
        k := k + 1;
        Position(ns, k, list);
      }
    }
  }

  lemma Position(ns: seq<ListHead>, k: nat, p: ListHead?)
    requires k <= |ns| && Chain(ns[k..], p)
    ensures p == null <==> k == |ns|
    ensures k < |ns| ==> p == ns[k] && Chain(ns[k + 1..], p.next)
  {
    if k < |ns| {
      ChainTail(ns[k..], p);
      assert ns[k..][1..] == ns[k + 1..];
    }
  }

  // ---------------------------------------------------------------- reversing

  lemma ReversedAppend<T>(s: seq<T>, e: T)
    ensures Reversed(s + [e]) == [e] + Reversed(s)
  {}

  lemma {:induction false} ReversedSame<T>(s: seq<T>)
    ensures multiset(Reversed(s)) == multiset(s)
  {
    if s != [] {
      var n := |s| - 1;
      assert s == s[..n] + [s[n]];
      ReversedAppend(s[..n], s[n]);
      ReversedSame(s[..n]);
    }
  }

  lemma ReversedDistinct(s: seq<ListHead>)
    requires Distinct(s)
    ensures Distinct(Reversed(s))
  {
    forall i, j | 0 <= i < j < |s| ensures Reversed(s)[i] != Reversed(s)[j] {
      var k, l := |s| - 1 - i, |s| - 1 - j;
      assert s[l] != s[k];
    }
  }

  /** The node at the front is linked to what was reversed before. */
  lemma ChainFront(s: seq<ListHead>, n: ListHead, first: ListHead?)
    requires Chain(s, first) && n.next == first
    ensures Chain([n] + s, n)
  {
    var t := [n] + s;
    forall i, j | 0 <= i < j < |t| && j == i + 1 ensures t[i].next == t[j] {
      if i > 0 {
        var k, l := i - 1, j - 1;
        assert s[k].next == s[l];
      }
    }
  }

  /** core_list_reverse(list) */
  method Reverse(list0: ListHead?, ghost ns: seq<ListHead>) returns (next: ListHead?)
    requires Chain(ns, list0) && Distinct(ns)
    modifies SetOf(ns)`next
    ensures Chain(Reversed(ns), next)
  {
    hide *;
    var list := list0;
    next := null;
    ghost var k := 0;
    assert ns[0..] == ns && ns[..0] == [];
    ReversedNone();
    EmptyChain();
    Position(ns, 0, list);
    while list != null
      invariant k <= |ns| && Chain(ns[k..], list) && (list == null <==> k == |ns|) && (k < |ns| ==> list == ns[k])
      invariant Chain(Reversed(ns[..k]), next)
      decreases |ns| - k
    {
      Position(ns, k, list);
      DoneApart(ns, k);
      InSet(ns, k);
      var tmp := list.next;
      list.next := next;
      ChainFront(Reversed(ns[..k]), list, next);
      ReversedAppend(ns[..k], ns[k]);
      assert ns[..k] + [ns[k]] == ns[..k + 1];
      next := list;
      list := tmp;
      k := k + 1;
      Position(ns, k, list);
    }
    assert ns[..k] == ns;
  }

  lemma ReversedNone()
    ensures Reversed<ListHead>([]) == []
  {}

  lemma InSet(s: seq<ListHead>, k: nat)
    requires k < |s|
    ensures s[k] in SetOf(s)
  {}

  lemma EmptyChain()
    ensures Chain([], null)
  {}

  lemma DoneApart(ns: seq<ListHead>, k: nat)
    requires Distinct(ns) && k < |ns|
    ensures ns[k] !in Reversed(ns[..k]) && ns[k] !in ns[k + 1..]
  {}

  // ---------------------------------------------------------------- moving a node to the front

  /** The node after position k becomes the second node. */
  function Moved<T>(s: seq<T>, k: nat): (r: seq<T>)
    requires k + 1 < |s|
  {
    if k == 0 then s else s[..1] + [s[k + 1]] + s[1..k + 1] + s[k + 2..]
  }

  lemma MovedSame<T>(s: seq<T>, k: nat)
    requires k + 1 < |s|
    ensures |Moved(s, k)| == |s| && multiset(Moved(s, k)) == multiset(s) && Moved(s, k)[0] == s[0]
  {
    var a, b, c, d := s[..1], s[1..k + 1], [s[k + 1]], s[k + 2..];
    assert s == a + b + c + d;
    assert multiset(a + c + b + d) == multiset(a + b + c + d);
  }

  lemma MovedDistinct(s: seq<ListHead>, k: nat)
    requires k + 1 < |s| && Distinct(s)
    ensures Distinct(Moved(s, k))
  {
    var r := Moved(s, k);
    forall i, j | 0 <= i < j < |r| ensures r[i] != r[j] {
      assert r[i] == s[MovedFrom(i, k)] && r[j] == s[MovedFrom(j, k)];
    }
  }

  /** Where the node at place i of the moved list comes from. */
  function MovedFrom(i: nat, k: nat): (j: nat)
  {
    if k == 0 || i == 0 || i > k + 1 then i else if i == 1 then k + 1 else i - 1
  }

  lemma MovedAt(s: seq<ListHead>, k: nat, i: nat)
    requires k + 1 < |s| && i < |s|
    ensures |Moved(s, k)| == |s| && MovedFrom(i, k) < |s| && Moved(s, k)[i] == s[MovedFrom(i, k)]
  {}

  function NextIn(s: seq<ListHead>, i: nat): (n: ListHead?)
  {
    if i + 1 < |s| then s[i + 1] else null
  }

  lemma ChainAt(s: seq<ListHead>, first: ListHead?, i: nat)
    requires Chain(s, first) && i < |s|
    ensures s[i].next == NextIn(s, i)
  {
    if i + 1 < |s| {
      var j := i + 1;
      assert s[i].next == s[j];
    }
  }

  lemma ChainFrom(s: seq<ListHead>, first: ListHead?)
    requires s != [] && first == s[0] && forall i :: 0 <= i < |s| ==> s[i].next == NextIn(s, i)
    ensures Chain(s, first)
  {}

  /** finder = this_find->next; this_find->next = finder->next; finder->next = list->next; list->next = finder; */
  method MoveNext(list: ListHead, thisFind: ListHead, ghost s: seq<ListHead>, ghost k: nat) returns (ghost t: seq<ListHead>)
    requires Chain(s, list) && Distinct(s) && k < |s| && thisFind == s[k]
    modifies SetOf(s)`next
    ensures t == if k + 1 < |s| then Moved(s, k) else s
    ensures Chain(t, list)
  {
    hide Chain, Linked, Moved, NextIn;
    t := s;
    FirstOf(s, list);
    forall i | 0 <= i < |s| ensures s[i].next == NextIn(s, i) { ChainAt(s, list, i); }
    NextInAt(s, k);
    if thisFind.next != null {
      NextInAt(s, k + 1);
      NextInAt(s, 0);
      var finder := thisFind.next;
      thisFind.next := finder.next;
      finder.next := list.next;
      list.next := finder;
      t := Moved(s, k);
      MovedChain(s, k, list);
    }
  }

  lemma NextInAt(s: seq<ListHead>, i: nat)
    requires i < |s|
    ensures NextIn(s, i) == if i + 1 < |s| then s[i + 1] else null
  {}

  lemma FirstOf(s: seq<ListHead>, first: ListHead?)
    requires Chain(s, first) && s != []
    ensures first == s[0]
  {}

  /** The links after the three assignments. */
  ghost predicate MovedLinks(s: seq<ListHead>, k: nat)
    requires k + 1 < |s|
    reads s
  {
    && (forall i :: 0 <= i < |s| && i != 0 && i != k && i != k + 1 ==> s[i].next == NextIn(s, i))
    && s[0].next == s[k + 1]
    && (k > 0 ==> s[k + 1].next == s[1] && s[k].next == NextIn(s, k + 1))
    && (k == 0 ==> s[1].next == NextIn(s, 1))
  }

  lemma MovedLink(s: seq<ListHead>, k: nat, i: nat)
    requires k + 1 < |s| && Distinct(s) && MovedLinks(s, k) && i < |s|
    ensures s[MovedFrom(i, k)].next == if i + 1 < |s| then s[MovedFrom(i + 1, k)] else null
  {
    hide Distinct;
  }

  lemma MovedChain(s: seq<ListHead>, k: nat, list: ListHead)
    requires k + 1 < |s| && Distinct(s) && list == s[0] && MovedLinks(s, k)
    ensures Chain(Moved(s, k), list)
  {
    hide *;
    var r := Moved(s, k);
    MovedSame(s, k);
    forall i | 0 <= i < |r| ensures r[i].next == NextIn(r, i) {
      MovedAt(s, k, i);
      MovedLink(s, k, i);
      NextInAt(r, i);
      if i + 1 < |r| { MovedAt(s, k, i + 1); }
    }
    ChainFrom(r, list);
  }

  // ---------------------------------------------------------------- the finds of the benchmark

  /** Arithmetic on 16 bits. */
  function Wrap(x: int): (h: Half)
  {
    x % 0x1_0000
  }

  /** info.idx++ on a signed 16-bit number. */
  function Increment(idx: Short): (i: Short)
  {
    if idx == 0x7fff then -0x8000 else idx + 1
  }

  /** Two orders of the same distinct nodes. */
  ghost predicate Reordered(s: seq<ListHead>, t: seq<ListHead>)
  {
    |s| == |t| && multiset(s) == multiset(t) && Distinct(t)
  }

  lemma ReorderedWithin(s: seq<ListHead>, t: seq<ListHead>)
    requires multiset(s) == multiset(t)
    ensures |s| == |t| && (forall n :: n in t <==> n in s) && SetOf(s) == SetOf(t)
  {
    assert |multiset(s)| == |multiset(t)|;
    assert forall n :: n in t <==> n in multiset(t);
    assert forall n :: n in s <==> n in multiset(s);
  }

  lemma SeenBy(v: View, whole: seq<ListHead>, s: seq<ListHead>)
    requires (forall n :: n in whole ==> n in v) && forall n :: n in s ==> n in whole
    ensures Seen(v, s)
  {}

  /** What the search on the heap says about the view. */
  lemma FoundAt(v: View, s: seq<ListHead>, data16: Half, idx: Short, k: nat)
    requires forall n :: n in s ==> n in v && v[n].data == n.info.data16 && v[n].idx == n.info.idx
    requires k <= |s| && (k < |s| ==> Matches(s[k].info, data16, idx))
    requires forall i :: 0 <= i < k ==> !Matches(s[i].info, data16, idx)
    ensures Seen(v, s) && k == FirstMatch(v, s, data16, idx)
  {
    hide FirstMatch;
    assert forall i :: 0 <= i < |s| ==> s[i] in s;
    FirstMatchIs(v, s, data16, idx, k);
  }

  lemma OrderIs(v: View, s: seq<ListHead>, data16: Half, idx: Short)
    requires Seen(v, s)
    ensures var k, r := FirstMatch(v, s, data16, idx), Reversed(s);
            |r| == |s| && NextOrder(v, s, data16, idx) == if 0 < k < |s| then Moved(r, |s| - 1 - k) else r
  {}

  lemma PickedIs(v: View, s: seq<ListHead>, data16: Half, idx: Short)
    requires Seen(v, s) && |s| >= 2
    ensures var k := FirstMatch(v, s, data16, idx);
            PickedBit(v, s, data16, idx)
            == if k == |s| then v[s[|s| - 2]].data / 0x100 % 2
               else if v[s[k]].data % 2 == 1 then v[s[k]].data / 0x200 % 2 else 0
  {}

  lemma ReversedSecond(s: seq<ListHead>)
    requires |s| >= 2
    ensures |Reversed(s)| == |s| && Reversed(s)[1] == s[|s| - 2]
  {}

  /** The order after one pass: reversed, with the node after the one that was found moved to the second place. */
  ghost function NextOrder(v: View, s: seq<ListHead>, data16: Half, idx: Short): (t: seq<ListHead>)
    requires Seen(v, s)
  {
    var k, r := FirstMatch(v, s, data16, idx), Reversed(s);
    if 0 < k < |s| then Moved(r, |s| - 1 - k) else r
  }

  /** The bit that one pass picks: bit 9 of an odd item that was found, or bit 8 of the second item after reversing. */
  ghost function PickedBit(v: View, s: seq<ListHead>, data16: Half, idx: Short): (b: nat)
    requires Seen(v, s) && |s| >= 2
    ensures b < 2
  {
    var k := FirstMatch(v, s, data16, idx);
    if k == |s| then v[s[|s| - 2]].data / 0x100 % 2
    else if v[s[k]].data % 2 == 1 then v[s[k]].data / 0x200 % 2 else 0
  }

  /** One pass of the loop that finds, reverses and moves. */
  method FindOnce(list0: ListHead, data16: Half, idx: Short, retval0: Half, found0: Half, missed0: Half,
                  ghost s: seq<ListHead>, ghost whole: seq<ListHead>, ghost v: View)
    returns (list: ListHead, retval: Half, found: Half, missed: Half)
    requires Chain(s, list0) && Distinct(s) && Reordered(whole, s) && |whole| >= 2
    requires forall n :: n in whole ==> n in v && v[n].data == n.info.data16 && v[n].idx == n.info.idx
    modifies SetOf(whole)`next
    ensures Seen(v, s) && |s| >= 2 && Chain(NextOrder(v, s, data16, idx), list) && Reordered(whole, NextOrder(v, s, data16, idx))
    ensures retval == Wrap(retval0 + PickedBit(v, s, data16, idx))
    ensures if FirstMatch(v, s, data16, idx) < |s| then found == Wrap(found0 + 1) && missed == missed0
            else found == found0 && missed == Wrap(missed0 + 1)
    ensures forall n :: n in whole ==> n in v && v[n].data == n.info.data16 && v[n].idx == n.info.idx
  {
    hide *;
    retval, found, missed := retval0, found0, missed0;
    ReorderedIs(whole, s);
    ReorderedWithin(whole, s);
    ghost var k;
    var thisFind;
    thisFind, k := Find(list0, data16, idx, s);
    FoundAt(v, s, data16, idx, k);
    PickedIs(v, s, data16, idx);
    ReversedSecond(s);
    WrapSmall(retval0);
    assert s[|s| - 2] in whole && (k < |s| ==> s[k] in whole);
    ghost var r := Reversed(s);
    ReversedSame(s);
    ReversedDistinct(s);
    ReorderedFrom(whole, r);
    ReorderedWithin(whole, r);
    var reversed := Reverse(list0, s);
    FirstOf(r, reversed);
    list := reversed;
    OrderIs(v, s, data16, idx);
    if thisFind == null {
      missed := Wrap(missed + 1);
      ChainAt(r, list, 0);
      NextInAt(r, 0);
      assert list.next == s[|s| - 2];
      retval := Wrap(retval + list.next.info.data16 / 0x100 % 2);
    } else {
      found := Wrap(found + 1);
      if thisFind.info.data16 % 2 == 1 {
        retval := Wrap(retval + thisFind.info.data16 / 0x200 % 2);
      }
      ghost var l := |s| - 1 - k;
      ghost var t := MoveNext(list, thisFind, r, l);
      if l + 1 < |r| {
        MovedSame(r, l);
        MovedDistinct(r, l);
      }
      ReorderedFrom(whole, t);
    }
  }

  lemma ReorderedIs(s: seq<ListHead>, t: seq<ListHead>)
    requires Reordered(s, t)
    ensures |s| == |t| && multiset(s) == multiset(t)
  {}

  lemma ReorderedFrom(s: seq<ListHead>, t: seq<ListHead>)
    requires multiset(s) == multiset(t) && Distinct(t)
    ensures Reordered(s, t)
  {
    assert |multiset(s)| == |multiset(t)|;
  }

  // ---------------------------------------------------------------- removing and undoing

  /** core_list_remove(item): the item takes the data of the next node, which is unlinked. */
  method Remove(item: ListHead) returns (ret: ListHead)
    requires item.next != null && item.next != item
    modifies item`next, item`info, item.next`next, item.next`info
    ensures ret == old(item.next)
    ensures item.info == old(item.next.info) && ret.info == old(item.info)
    ensures item.next == old(item.next.next) && ret.next == null
  {
    ret := item.next;
    var tmp := item.info;
    item.info := ret.info;
    ret.info := tmp;
    item.next := item.next.next;
    ret.next := null;
  }

  /** core_list_undo_remove(item_removed, item_modified) */
  method UndoRemove(removed: ListHead, modified: ListHead) returns (r: ListHead)
    requires removed != modified
    modifies removed`next, removed`info, modified`next, modified`info
    ensures r == removed
    ensures removed.info == old(modified.info) && modified.info == old(removed.info)
    ensures removed.next == old(modified.next) && modified.next == removed
  {
    var tmp := removed.info;
    removed.info := modified.info;
    modified.info := tmp;
    removed.next := modified.next;
    modified.next := removed;
    r := removed;
  }

  /** The loop that adds the head's data to the checksum once for every node from finder on. */
  method Checksum(list: ListHead, finder0: ListHead?, retval0: Half, ghost s: seq<ListHead>) returns (retval: Half)
    requires Chain(s, finder0)
    ensures retval == Repeated(list.info.data16, retval0, |s|)
  {
    hide *;
    retval := retval0;
    var finder := finder0;
    ghost var k := 0;
    assert s[0..] == s;
    Position(s, 0, finder);
    while finder != null
      invariant k <= |s| && Chain(s[k..], finder) && (finder == null <==> k == |s|)
      invariant Repeated(list.info.data16, retval, |s| - k) == Repeated(list.info.data16, retval0, |s|)
      decreases |s| - k
    {
      Position(s, k, finder);
      RepeatedStep(list.info.data16, retval, |s| - k);
      retval := Crcu16(list.info.data16, retval);
      finder := finder.next;
      k := k + 1;
      Position(s, k, finder);
    }
    RepeatedStep(list.info.data16, retval, 0);
  }

  function Repeated(data: Half, crc: Half, n: nat): (c: Half)
    decreases n
  {
    if n == 0 then crc else Repeated(data, Crc16(data, crc), n - 1)
  }

  lemma RepeatedStep(data: Half, crc: Half, n: nat)
    ensures n == 0 ==> Repeated(data, crc, n) == crc
    ensures n > 0 ==> Repeated(data, crc, n) == Repeated(data, Crc16(data, crc), n - 1)
  {}

  lemma RemovedChain(s: seq<ListHead>, list: ListHead)
    requires |s| >= 3 && Distinct(s) && list == s[0] && s[1].next == NextIn(s, 2)
    requires forall i :: 0 <= i < |s| && i != 1 && i != 2 ==> s[i].next == NextIn(s, i)
    ensures Chain(s[..2] + s[3..], list) && Chain(s[1..2] + s[3..], list.next)
  {
    var t := s[..2] + s[3..];
    forall i | 0 <= i < |t| ensures t[i].next == NextIn(t, i) {
      var k := if i < 2 then i else i + 1;
      assert t[i] == s[k];
    }
    ChainFrom(t, list);
    ChainTail(t, list);
    assert t[1..] == s[1..2] + s[3..];
  }

  /** How often the checksum is taken: once for every node from the found one on, when the second node is left
      out, or from the one after the head. */
  ghost function SuffixCount(v: View, s: seq<ListHead>, data16: Half, idx: Short): (c: nat)
    requires Seen(v, s) && |s| >= 3
  {
    var u := s[..1] + s[2..];
    var k := FirstMatch(v, u, data16, idx);
    if k < |u| then |u| - k else |u| - 1
  }

  /** The search after the removal: the item of the third node is seen at the second one. */
  lemma FoundWithout(v: View, s: seq<ListHead>, t: seq<ListHead>, data16: Half, idx: Short, k: nat)
    requires Seen(v, s) && |s| >= 3 && t == s[..2] + s[3..] && k <= |t|
    requires forall i :: 0 <= i < |t| ==> var n := if i == 0 then s[0] else s[i + 1];
                                          v[n].data == t[i].info.data16 && v[n].idx == t[i].info.idx
    requires k < |t| ==> Matches(t[k].info, data16, idx)
    requires forall i :: 0 <= i < k ==> !Matches(t[i].info, data16, idx)
    ensures SuffixCount(v, s, data16, idx) == if k < |t| then |t| - k else |t| - 1
  {
    hide FirstMatch;
    var u := s[..1] + s[2..];
    assert forall i :: 0 <= i < |u| ==> u[i] == (if i == 0 then s[0] else s[i + 1]) && u[i] in s;
    hide Fits, Matches;
    SeenWithout(v, s);
    forall i | 0 <= i < |u| ensures Fits(v[u[i]], data16, idx) <==> Matches(t[i].info, data16, idx) {
      FitsIs(v[u[i]], t[i].info, data16, idx);
    }
    FirstMatchIs(v, u, data16, idx, k);
  }

  lemma SeenWithout(v: View, s: seq<ListHead>)
    requires Seen(v, s) && |s| >= 2
    ensures Seen(v, s[..1] + s[2..])
  {}

  lemma FitsIs(d: Item, e: ListData, data16: Half, idx: Short)
    requires d.data == e.data16 && d.idx == e.idx
    ensures Fits(d, data16, idx) <==> Matches(e, data16, idx)
  {}

  lemma WithoutItems(v: View, s: seq<ListHead>, t: seq<ListHead>)
    requires Seen(v, s) && |s| >= 3 && t == s[..2] + s[3..]
    requires forall i :: 0 <= i < |s| && i != 1 && i != 2 ==> v[s[i]].data == s[i].info.data16 && v[s[i]].idx == s[i].info.idx
    requires v[s[2]].data == s[1].info.data16 && v[s[2]].idx == s[1].info.idx
    ensures s[0] in v && v[s[0]].data == s[0].info.data16
    ensures forall i :: 0 <= i < |t| ==> var n := if i == 0 then s[0] else s[i + 1];
                                         n in v && v[n].data == t[i].info.data16 && v[n].idx == t[i].info.idx
  {
    forall i | 0 <= i < |t|
      ensures var n := if i == 0 then s[0] else s[i + 1]; n in v && v[n].data == t[i].info.data16 && v[n].idx == t[i].info.idx
    {
      var j := if i == 0 then 0 else i + 1;
      assert s[j] in s && t[i] == if i < 2 then s[i] else s[j];
    }
  }

  /** The search and the checksum after the removal. */
  method CheckRest(list: ListHead, data16: Half, idx: Short, retval0: Half, ghost s: seq<ListHead>, ghost v: View) returns (retval: Half)
    requires Seen(v, s) && |s| >= 3 && list == s[0] && list.next == s[1]
    requires Chain(s[..2] + s[3..], list) && Chain(s[1..2] + s[3..], list.next)
    requires forall i :: 0 <= i < |s| && i != 1 && i != 2 ==> v[s[i]].data == s[i].info.data16 && v[s[i]].idx == s[i].info.idx
    requires v[s[2]].data == s[1].info.data16 && v[s[2]].idx == s[1].info.idx
    ensures retval == Repeated(v[s[0]].data, retval0, SuffixCount(v, s, data16, idx))
  {
    ghost var t := s[..2] + s[3..];
    WithoutItems(v, s, t);
    hide *;
    ghost var k;
    ghost var u := s[1..2] + s[3..];
    var finder;
    finder, k := Find(list, data16, idx, t);
    FoundWithout(v, s, t, data16, idx, k);
    if finder == null {
      finder := list.next;
    } else {
      SuffixChain(t, list, k);
      u := t[k..];
    }
    retval := Checksum(list, finder, retval0, u);
  }

  /** remove, find, checksum and undo: every node ends as it was. */
  method WithoutOne(list: ListHead, data16: Half, idx: Short, retval0: Half, ghost s: seq<ListHead>, ghost v: View) returns (retval: Half)
    requires Chain(s, list) && Distinct(s) && |s| >= 3
    requires forall n :: n in s ==> n in v && v[n].data == n.info.data16 && v[n].idx == n.info.idx
    modifies SetOf(s)`next, SetOf(s)`info
    ensures forall n :: n in s ==> n.next == old(n.next) && n.info == old(n.info)
    ensures Seen(v, s) && s[0] in v && retval == Repeated(v[s[0]].data, retval0, SuffixCount(v, s, data16, idx))
  {
    hide Chain, NextIn, Repeated, SuffixCount;
    FirstOf(s, list);
    forall i | 0 <= i < |s| ensures s[i].next == NextIn(s, i) { ChainAt(s, list, i); }
    NextInAt(s, 0);
    NextInAt(s, 1);
    var item := list.next;
    var remover := Remove(item);
    RemovedChain(s, list);
    retval := CheckRest(list, data16, idx, retval0, s, v);
    remover := UndoRemove(remover, list.next);
  }

  lemma {:induction false} SuffixChain(t: seq<ListHead>, list: ListHead?, k: nat)
    requires Chain(t, list) && k < |t|
    ensures Chain(t[k..], t[k])
  {
    var r := t[k..];
    forall i | 0 <= i < |r| ensures r[i].next == NextIn(r, i) {
      ChainAt(t, list, k + i);
    }
    ChainFrom(r, t[k]);
  }

  // ---------------------------------------------------------------- the benchmark

  /** The nodes are in the strict order of their indices. */
  ghost predicate Indexed(s: seq<ListHead>)
    reads s`info, Infos(s)
  {
    forall i, j :: 0 <= i < j < |s| ==> s[i].info.idx < s[j].info.idx
  }

  /** Every low byte is the copy of the high byte. */
  ghost predicate AllRestored(s: seq<ListHead>)
    reads s`info, Infos(s)
  {
    forall n :: n in s ==> Restored(n.info.data16)
  }

  ghost predicate StrictlyUp(k: map<ListHead, int>, s: seq<ListHead>)
  {
    (forall n :: n in s ==> n in k) && forall i, j :: 0 <= i < j < |s| ==> k[s[i]] < k[s[j]]
  }

  lemma SameTails(s: seq<ListHead>, t: seq<ListHead>)
    requires s != [] && t != [] && s[0] == t[0] && multiset(s) == multiset(t)
    ensures multiset(s[1..]) == multiset(t[1..])
  {
    assert s == [s[0]] + s[1..] && t == [t[0]] + t[1..];
    assert multiset(s[1..]) == multiset(s) - multiset([s[0]]);
    assert multiset(t[1..]) == multiset(t) - multiset([t[0]]);
  }

  /** There is only one strict order. */
  lemma {:induction false} OneOrder(k: map<ListHead, int>, s: seq<ListHead>, t: seq<ListHead>)
    requires StrictlyUp(k, s) && StrictlyUp(k, t) && multiset(s) == multiset(t)
    ensures s == t
    decreases |s|
  {
    ReorderedWithin(s, t);
    if s != [] {
      assert s[0] in t && t[0] in s;
      assert s[0] == t[0];
      SameTails(s, t);
      OneOrder(k, s[1..], t[1..]);
    }
  }

  ghost function Indices(s: seq<ListHead>): (k: map<ListHead, int>)
    reads s`info, Infos(s)
  {
    map n | n in s :: n.info.idx as int
  }

  lemma IndexedUp(s: seq<ListHead>)
    requires Indexed(s)
    ensures StrictlyUp(Indices(s), s)
  {}

  lemma IndicesAt(s: seq<ListHead>, n: ListHead)
    requires n in s
    ensures n in Indices(s) && Indices(s)[n] == n.info.idx
  {}

  /** A list sorted by index has its nodes in the strict order, when there is one. */
  lemma SortedUp(k: map<ListHead, int>, ns: seq<ListHead>, s: seq<ListHead>, out: seq<ListHead>)
    requires StrictlyUp(k, ns) && Reordered(ns, out) && StablySorted(CmpIdx, true, s, out)
    requires forall n :: n in ns ==> n in k && k[n] == n.info.idx
    ensures StrictlyUp(k, out)
  {
    ReorderedWithin(ns, out);
    hide StrictlyUp;
    forall i, j | 0 <= i < j < |out| ensures k[out[i]] < k[out[j]] {
      assert InOrder(CmpIdx, true, s, out[i], out[j]);
      UpDiffer(k, ns, out[i], out[j]);
    }
    UpFrom(k, out);
  }

  lemma UpDiffer(k: map<ListHead, int>, ns: seq<ListHead>, a: ListHead, b: ListHead)
    requires StrictlyUp(k, ns) && a in ns && b in ns && a != b
    ensures a in k && b in k && k[a] != k[b]
  {
    var i :| 0 <= i < |ns| && ns[i] == a;
    var j :| 0 <= j < |ns| && ns[j] == b;
  }

  lemma UpFrom(k: map<ListHead, int>, s: seq<ListHead>)
    requires forall n :: n in s ==> n in k
    requires forall i, j :: 0 <= i < j < |s| ==> k[s[i]] < k[s[j]]
    ensures StrictlyUp(k, s)
  {}

  lemma SortedRestored(cur: seq<ListHead>, out: seq<ListHead>)
    requires StablySorted(CmpIdx, true, cur, out) && |out| >= 2
    ensures AllRestored(out)
  {
    forall n | n in out ensures Restored(n.info.data16) {
      var i :| 0 <= i < |out| && out[i] == n;
      assert if i > 0 then InOrder(CmpIdx, true, cur, out[0], out[i]) else InOrder(CmpIdx, true, cur, out[0], out[1]);
    }
  }

  /** info.idx after n passes: counted up until it wraps, unless it was negative. */
  function IdxAfter(idx: Short, n: nat): (i: Short)
  {
    if idx < 0 then idx else if idx + n <= 0x7fff then idx + n else -0x8000
  }

  ghost function OrderAfter(v: View, s: seq<ListHead>, idx: Short, n: nat): (t: seq<ListHead>)
    requires Seen(v, s)
    ensures Seen(v, t) && |t| == |s|
    decreases n
  {
    if n == 0 then s
    else
      var u := OrderAfter(v, s, idx, n - 1);
      NextSame(v, u, (n - 1) % 0x100, IdxAfter(idx, n - 1));
      NextOrder(v, u, (n - 1) % 0x100, IdxAfter(idx, n - 1))
  }

  lemma NextSame(v: View, s: seq<ListHead>, data16: Half, idx: Short)
    requires Seen(v, s)
    ensures Seen(v, NextOrder(v, s, data16, idx)) && |NextOrder(v, s, data16, idx)| == |s|
    ensures multiset(NextOrder(v, s, data16, idx)) == multiset(s)
  {
    hide FirstMatch, Moved, Reversed;
    ReversedSame(s);
    var k, r := FirstMatch(v, s, data16, idx), Reversed(s);
    if 0 < k < |s| { MovedSame(r, |s| - 1 - k); }
    var t := NextOrder(v, s, data16, idx);
    assert forall n :: n in t ==> n in multiset(t);
    assert forall n :: n in s <==> n in multiset(s);
  }

  /** The sum of the bits that the first n passes pick. */
  ghost function PickedSum(v: View, s: seq<ListHead>, idx: Short, n: nat): (b: nat)
    requires Seen(v, s) && |s| >= 2
    decreases n
  {
    if n == 0 then 0
    else PickedSum(v, s, idx, n - 1) + PickedBit(v, OrderAfter(v, s, idx, n - 1), (n - 1) % 0x100, IdxAfter(idx, n - 1))
  }

  /** Some node fits what pass i looks for. */
  ghost predicate Hit(v: View, s: seq<ListHead>, idx: Short, i: nat)
    requires Seen(v, s)
  {
    exists n :: n in s && Fits(v[n], i % 0x100, IdxAfter(idx, i))
  }

  /** The passes among the first n in which some node fits. */
  ghost function HitSet(v: View, s: seq<ListHead>, idx: Short, n: nat): (h: set<nat>)
    requires Seen(v, s)
  {
    set i: nat | i < n && Hit(v, s, idx, i)
  }

  lemma HitSetNext(v: View, s: seq<ListHead>, idx: Short, n: nat)
    requires Seen(v, s)
    ensures HitSet(v, s, idx, 0) == {} && |HitSet(v, s, idx, n)| <= n
    ensures |HitSet(v, s, idx, n + 1)| == |HitSet(v, s, idx, n)| + if Hit(v, s, idx, n) then 1 else 0
  {
    hide Hit;
    var h := HitSet(v, s, idx, n);
    assert HitSet(v, s, idx, n + 1) == if Hit(v, s, idx, n) then h + {n} else h;
    assert n !in h;
    SmallSet(h, n);
  }

  lemma {:induction false} SmallSet(h: set<nat>, n: nat)
    requires forall i :: i in h ==> i < n
    ensures |h| <= n
    decreases n
  {
    if n == 0 {
      assert h == {};
    } else {
      SmallSet(h - {n - 1}, n - 1);
    }
  }

  /** Whether a pass hits does not depend on the order of the nodes. */
  lemma HitIs(v: View, s: seq<ListHead>, idx: Short, i: nat, t: seq<ListHead>)
    requires Seen(v, s) && multiset(t) == multiset(s)
    ensures Seen(v, t) && (FirstMatch(v, t, i % 0x100, IdxAfter(idx, i)) < |t| <==> Hit(v, s, idx, i))
  {
    ReorderedWithin(s, t);
    hide Fits, IdxAfter;
    var k := FirstMatch(v, t, i % 0x100, IdxAfter(idx, i));
    FirstMatchFits(v, t, i % 0x100, IdxAfter(idx, i));
    hide FirstMatch;
    assert k < |t| ==> t[k] in s;
    if Hit(v, s, idx, i) {
      var n :| n in s && Fits(v[n], i % 0x100, IdxAfter(idx, i));
      var j :| 0 <= j < |t| && t[j] == n;
      assert Fits(v[t[j]], i % 0x100, IdxAfter(idx, i));
    }
  }

  /** The state of the loop of the finds after i passes. */
  ghost predicate Found(v: View, whole: seq<ListHead>, idx0: Short, junk: Half, i: nat, s: seq<ListHead>, retval: Half, found: Half, missed: Half, data16: Half, idx: Short)
  {
    && Seen(v, whole) && |whole| >= 2 && i <= 0x7fff
    && s == OrderAfter(v, whole, idx0, i) && retval == Wrap(PickedSum(v, whole, idx0, i))
    && found == |HitSet(v, whole, idx0, i)| && missed == i - found
    && idx == IdxAfter(idx0, i) && data16 == LowAfter(junk, i)
  }

  lemma FoundStart(v: View, whole: seq<ListHead>, idx0: Short, junk: Half)
    requires Seen(v, whole) && |whole| >= 2
    ensures Found(v, whole, idx0, junk, 0, whole, 0, 0, 0, junk, idx0)
  {
    HitSetNext(v, whole, idx0, 0);
  }

  lemma FoundStep(v: View, whole: seq<ListHead>, idx0: Short, junk: Half, i: nat, s: seq<ListHead>, retval: Half, found: Half, missed: Half, data16: Half, idx: Short,
                  retval2: Half, found2: Half, missed2: Half)
    requires Found(v, whole, idx0, junk, i, s, retval, found, missed, data16, idx) && i < 0x7fff
    requires Seen(v, s) && |s| >= 2 && multiset(s) == multiset(whole)
    requires retval2 == Wrap(retval + PickedBit(v, s, i % 0x100, idx))
    requires if FirstMatch(v, s, i % 0x100, idx) < |s| then found2 == Wrap(found + 1) && missed2 == missed
             else found2 == found && missed2 == Wrap(missed + 1)
    ensures Found(v, whole, idx0, junk, i + 1, NextOrder(v, s, i % 0x100, idx), retval2, found2, missed2, i % 0x100,
                  if idx >= 0 then Increment(idx) else idx)
  {
    hide *;
    FoundIs(v, whole, idx0, junk, i, s, retval, found, missed, data16, idx);
    PassNext(v, whole, idx0, i);
    IdxNext(idx0, i);
    LowNext(junk, i);
    PickedNext(retval, PickedSum(v, whole, idx0, i), PickedBit(v, s, i % 0x100, idx), retval2);
    HitNext(v, whole, idx0, i, s, found, missed, found2, missed2);
    FoundFrom(v, whole, idx0, junk, i + 1, NextOrder(v, s, i % 0x100, idx), retval2, found2, missed2, i % 0x100, IdxAfter(idx0, i + 1));
  }

  lemma PickedNext(r: Half, sum: nat, b: nat, r2: Half)
    requires r == Wrap(sum) && r2 == Wrap(r + b)
    ensures r2 == Wrap(sum + b)
  {
    WrapSum(sum, b);
  }

  lemma HitNext(v: View, whole: seq<ListHead>, idx0: Short, i: nat, s: seq<ListHead>, found: Half, missed: Half, found2: Half, missed2: Half)
    requires Seen(v, whole) && Seen(v, s) && multiset(s) == multiset(whole) && i < 0x7fff
    requires found == |HitSet(v, whole, idx0, i)| && missed == i - found
    requires if FirstMatch(v, s, i % 0x100, IdxAfter(idx0, i)) < |s| then found2 == Wrap(found + 1) && missed2 == missed
             else found2 == found && missed2 == Wrap(missed + 1)
    ensures found2 == |HitSet(v, whole, idx0, i + 1)| && missed2 == i + 1 - found2
  {
    hide *;
    HitSetNext(v, whole, idx0, i);
    HitIs(v, whole, idx0, i, s);
    WrapSmall(found + 1);
    WrapSmall(missed + 1);
  }

  lemma FoundIs(v: View, whole: seq<ListHead>, idx0: Short, junk: Half, i: nat, s: seq<ListHead>, retval: Half, found: Half, missed: Half, data16: Half, idx: Short)
    requires Found(v, whole, idx0, junk, i, s, retval, found, missed, data16, idx)
    ensures Seen(v, whole) && |whole| >= 2 && i <= 0x7fff
    ensures s == OrderAfter(v, whole, idx0, i) && retval == Wrap(PickedSum(v, whole, idx0, i))
    ensures found == |HitSet(v, whole, idx0, i)| && missed == i - found && idx == IdxAfter(idx0, i)
  {
    hide OrderAfter, PickedSum, HitSet, IdxAfter;
  }

  lemma FoundFrom(v: View, whole: seq<ListHead>, idx0: Short, junk: Half, i: nat, s: seq<ListHead>, retval: Half, found: Half, missed: Half, data16: Half, idx: Short)
    requires Seen(v, whole) && |whole| >= 2 && i <= 0x7fff
    requires s == OrderAfter(v, whole, idx0, i) && retval == Wrap(PickedSum(v, whole, idx0, i))
    requires found == |HitSet(v, whole, idx0, i)| && missed == i - found
    requires idx == IdxAfter(idx0, i) && data16 == LowAfter(junk, i)
    ensures Found(v, whole, idx0, junk, i, s, retval, found, missed, data16, idx)
  {
    hide OrderAfter, PickedSum, HitSet, IdxAfter, LowAfter;
  }

  /** What one more pass adds. */
  lemma PassNext(v: View, whole: seq<ListHead>, idx0: Short, i: nat)
    requires Seen(v, whole) && |whole| >= 2
    ensures OrderAfter(v, whole, idx0, i + 1) == NextOrder(v, OrderAfter(v, whole, idx0, i), i % 0x100, IdxAfter(idx0, i))
    ensures PickedSum(v, whole, idx0, i + 1)
         == PickedSum(v, whole, idx0, i) + PickedBit(v, OrderAfter(v, whole, idx0, i), i % 0x100, IdxAfter(idx0, i))
  {
    hide NextOrder, PickedBit, IdxAfter;
  }

  lemma IdxNext(idx0: Short, i: nat)
    ensures IdxAfter(idx0, i + 1) == if IdxAfter(idx0, i) >= 0 then Increment(IdxAfter(idx0, i)) else IdxAfter(idx0, i)
  {}

  lemma LowNext(junk: Half, i: nat)
    ensures LowAfter(junk, i + 1) == i % 0x100
  {}

  lemma WrapSmall(a: nat)
    ensures a < 0x1_0000 ==> Wrap(a) == a
  {}

  lemma WrapSum(a: int, b: int)
    ensures Wrap(Wrap(a) + b) == Wrap(a + b)
  {}

  /** What the finds return: four for every pass that hits, less one for every pass that misses, and the picked
      bits, on 16 bits. */
  ghost function FindsTotal(v: View, whole: seq<ListHead>, idx: Short, n: nat): (r: Half)
    requires Seen(v, whole) && |whole| >= 2
  {
    var found := |HitSet(v, whole, idx, n)|;
    (PickedSum(v, whole, idx, n) + 4 * found - (n - found)) % 0x1_0000
  }

  /** The low byte that was last looked for. */
  function LowAfter(junk: Half, n: nat): (d: Half)
  {
    if n == 0 then junk else (n - 1) % 0x100
  }

  ghost predicate FindsDone(v: View, whole: seq<ListHead>, idx0: Short, junk: Half, n: nat, s: seq<ListHead>, retval: Half, data16: Half, idx: Short)
  {
    && Seen(v, whole) && |whole| >= 2
    && s == OrderAfter(v, whole, idx0, n) && retval == FindsTotal(v, whole, idx0, n)
    && idx == IdxAfter(idx0, n) && data16 == LowAfter(junk, n)
  }

  lemma FoundDone(v: View, whole: seq<ListHead>, idx0: Short, junk: Half, n: nat, s: seq<ListHead>, retval: Half, found: Half, missed: Half, data16: Half, idx: Short)
    requires Found(v, whole, idx0, junk, n, s, retval, found, missed, data16, idx)
    ensures FindsDone(v, whole, idx0, junk, n, s, Wrap(retval + 4 * found - missed), data16, idx)
  {
    hide HitSet, PickedSum, OrderAfter, IdxAfter;
    WrapSum(PickedSum(v, whole, idx0, n), 4 * found - missed);
  }

  function Passes(findNum: Short): (n: nat)
    ensures n <= 0x7fff
  {
    if findNum < 0 then 0 else findNum
  }

  /** The loop of the finds. */
  method Finds(list0: ListHead, findNum: Short, idx0: Short, junk: Half, ghost whole: seq<ListHead>, ghost v: View)
    returns (list: ListHead, retval: Half, data16: Half, idx: Short, ghost s: seq<ListHead>)
    requires Chain(whole, list0) && Distinct(whole) && |whole| >= 2
    requires forall n :: n in whole ==> n in v && v[n].data == n.info.data16 && v[n].idx == n.info.idx
    modifies SetOf(whole)`next
    ensures Chain(s, list) && Distinct(s) && Reordered(whole, s)
    ensures FindsDone(v, whole, idx0, junk, Passes(findNum), s, retval, data16, idx)
  {
    hide *;
    list, retval, data16, idx, s := list0, 0, junk, idx0, whole;
    var found, missed: Half := 0, 0;
    ReorderedFrom(whole, s);
    SeenBy(v, whole, whole);
    FoundStart(v, whole, idx0, junk);
    PassesIs(findNum);
    var i: int := 0;
    while i < findNum
      invariant 0 <= i <= Passes(findNum)
      invariant Chain(s, list) && Distinct(s) && Reordered(whole, s)
      invariant Found(v, whole, idx0, junk, i, s, retval, found, missed, data16, idx)
      invariant forall n :: n in whole ==> n in v && v[n].data == n.info.data16 && v[n].idx == n.info.idx
      decreases findNum - i
    {
      ghost var s1, retval1, found1, missed1, low1 := s, retval, found, missed, data16;
      ReorderedIs(whole, s);
      data16 := i % 0x100;
      list, retval, found, missed := FindOnce(list, data16, idx, retval, found, missed, s, whole, v);
      FoundStep(v, whole, idx0, junk, i, s1, retval1, found1, missed1, low1, idx, retval, found, missed);
      s := NextOrder(v, s, data16, idx);
      ReorderedDistinct(whole, s);
      if idx >= 0 { idx := Increment(idx); }
      i := i + 1;
    }
    FoundDone(v, whole, idx0, junk, Passes(findNum), s, retval, found, missed, data16, idx);
    var total: int := retval as int + 4 * found as int - missed as int;
    retval := Wrap(total);
  }

  lemma PassesIs(findNum: Short)
    ensures Passes(findNum) == if findNum < 0 then 0 else findNum
  {}

  lemma ReorderedDistinct(s: seq<ListHead>, t: seq<ListHead>)
    requires Reordered(s, t)
    ensures Distinct(t)
  {}

  lemma SameInfos(s: seq<ListHead>, t: seq<ListHead>)
    requires Reordered(s, t)
    ensures SetOf(s) == SetOf(t) && Infos(s) == Infos(t) && DataOf(s) == DataOf(t) && ViewOf(s) == ViewOf(t)
    ensures forall n :: n in s <==> n in t
  {
    ReorderedWithin(s, t);
  }

  ghost function DataIn(v: View): (d: map<ListHead, Half>)
  {
    map n | n in v :: v[n].data
  }

  /** The view w is sorted by the keys of the items in it, nodes with equal keys in the order of ns. */
  ghost predicate SortedView(w: View, ns: seq<ListHead>, s: seq<ListHead>)
  {
    Seen(w, s) && forall i, j :: 0 <= i < j < |s| ==> OrderedIn(w, ns, s[i], s[j])
  }

  ghost predicate OrderedIn(w: View, ns: seq<ListHead>, a: ListHead, b: ListHead)
  {
    && a in w && b in w && Cached(w[a].data) && Cached(w[b].data) && a in Ranks(ns) && b in Ranks(ns)
    && (Low7(w[a].data) < Low7(w[b].data) || (Low7(w[a].data) == Low7(w[b].data) && Ranks(ns)[a] < Ranks(ns)[b]))
  }

  lemma SortedViewFrom(ns: seq<ListHead>, s: seq<ListHead>)
    requires StablySorted(CmpComplex, false, ns, s)
    ensures SortedView(ViewOf(s), ns, s)
  {
    forall i, j | 0 <= i < j < |s| ensures OrderedIn(ViewOf(s), ns, s[i], s[j]) {
      assert InOrder(CmpComplex, false, ns, s[i], s[j]);
    }
  }

  /** The data of w is what comparisons made of the data of v; the indices are the same. */
  ghost predicate EvolvedView(res: Results, s: Marks, v: View, t: Marks, w: View)
  {
    && AllEvolved(CmpComplex, res, s, DataIn(v), t, DataIn(w))
    && v.Keys == w.Keys && forall n :: n in v ==> v[n].idx == w[n].idx
  }

  lemma DataOfView(s: seq<ListHead>)
    ensures DataOf(s) == DataIn(ViewOf(s))
  {}

  lemma ViewGives(s: seq<ListHead>, v: View)
    requires v == ViewOf(s)
    ensures forall n :: n in s ==> n in v && v[n].data == n.info.data16 && v[n].idx == n.info.idx
    ensures Seen(v, s)
  {}

  lemma ViewFrom(s: seq<ListHead>, v: View)
    requires v.Keys == set n | n in s
    requires forall n :: n in s ==> v[n].data == n.info.data16 && v[n].idx == n.info.idx
    ensures ViewOf(s) == v
  {}

  /** A sort of a list whose nodes are those of ns. */
  method SortAgain(list0: ListHead, cmp: Comparator, res: Results?, ghost s: seq<ListHead>, ghost ns: seq<ListHead>)
    returns (list: ListHead, ghost out: seq<ListHead>)
    requires cmp.CmpComplex? ==> res != null
    requires Chain(s, list0) && Distinct(s) && Reordered(ns, s) && |ns| >= 3
    modifies SetOf(ns)`next, Infos(ns)`data16, res
    ensures Chain(out, list) && Distinct(out) && Reordered(ns, out) && StablySorted(cmp, res == null, s, out)
    ensures AllEvolved(cmp, res, old(MarksOf(res)), old(DataOf(ns)), MarksOf(res), DataOf(ns))
    ensures forall n :: n in ns ==> n.info == old(n.info)
    ensures forall n :: n in ns ==> n.info.idx == old(n.info.idx)
  {
    hide *;
    SameInfos(ns, s);
    ReorderedIs(ns, s);
    var sorted;
    sorted, out := MergeSort(list0, cmp, res, s);
    ReorderedFrom(ns, out);
    ReorderedIs(ns, out);
    FirstOf(out, sorted);
    SameInfos(ns, s);
    list := sorted;
  }

  /** The finds, when the view is that of the heap. */
  method FindsKeep(list0: ListHead, findNum: Short, idx0: Short, junk: Half, ghost ns: seq<ListHead>, ghost v: View)
    returns (list: ListHead, retval: Half, data16: Half, idx: Short, ghost s: seq<ListHead>)
    requires Chain(ns, list0) && Distinct(ns) && |ns| >= 2 && v == ViewOf(ns)
    modifies SetOf(ns)`next
    ensures Chain(s, list) && Distinct(s) && Reordered(ns, s)
    ensures forall n :: n in ns ==> n.info == old(n.info)
    ensures ViewOf(ns) == v
    ensures FindsDone(v, ns, idx0, junk, Passes(findNum), s, retval, data16, idx)
  {
    hide *;
    ViewGives(ns, v);
    list, retval, data16, idx, s := Finds(list0, findNum, idx0, junk, ns, v);
    ViewKeys(ns, v);
    ViewFrom(ns, v);
  }

  lemma ViewKeys(s: seq<ListHead>, v: View)
    ensures ViewOf(s).Keys == set n | n in s
  {}

  method WithoutOneKeep(list: ListHead, data16: Half, idx: Short, retval0: Half, ghost s: seq<ListHead>, ghost ns: seq<ListHead>, ghost v: View)
    returns (retval: Half)
    requires Chain(s, list) && Distinct(s) && Reordered(ns, s) && |ns| >= 3 && v == ViewOf(ns)
    modifies SetOf(ns)`next, SetOf(ns)`info
    ensures Chain(s, list)
    ensures forall n :: n in ns ==> n.info == old(n.info)
    ensures ViewOf(ns) == v && |s| == |ns|
    ensures Seen(v, s) && s[0] in v && retval == Repeated(v[s[0]].data, retval0, SuffixCount(v, s, data16, idx))
  {
    hide Distinct, Reordered, SuffixCount, FirstMatch, Repeated;
    ReorderedIs(ns, s);
    SameInfos(ns, s);
    retval := WithoutOne(list, data16, idx, retval0, s, v);
    assert forall n :: n in ns ==> n in s;
  }

  /** The last checksum, from the second node on, reads the list only. */
  method LastChecksum(list: ListHead, retval0: Half, ghost s: seq<ListHead>, ghost out: seq<ListHead>, ghost ns: seq<ListHead>)
    returns (retval: Half)
    requires Chain(out, list) && |out| >= 3 && StablySorted(CmpIdx, true, s, out)
    ensures Chain(out, list) && StablySorted(CmpIdx, true, s, out)
    ensures retval == Repeated(list.info.data16, retval0, |out| - 1)
  {
    hide InOrder, Repeated, NextIn, Linked;
    FirstOf(out, list);
    NextInAt(out, 0);
    ChainAt(out, list, 0);
    SuffixChain(out, list, 1);
    hide Chain;
    retval := Checksum(list, list.next, retval0, out[1..]);
  }

  lemma EvolvedViewFrom(res: Results, s: Marks, v: View, t: Marks, w: View)
    requires AllEvolved(CmpComplex, res, s, DataIn(v), t, DataIn(w))
    requires v.Keys == w.Keys && forall n :: n in v ==> v[n].idx == w[n].idx
    ensures EvolvedView(res, s, v, t, w)
  {}

  lemma HighKept(cmp: Comparator, res: Results?, s: Marks, v: View, t: Marks, w: View)
    requires AllEvolved(cmp, res, s, DataIn(v), t, DataIn(w))
    ensures forall n :: n in v ==> n in w && w[n].data / 0x100 == v[n].data / 0x100
  {
    hide Evolved, Reaches;
    forall n | n in v ensures n in w && w[n].data / 0x100 == v[n].data / 0x100 {
      assert n in DataIn(v) && n in DataIn(w);
      EvolvedHigh(cmp, res, s, v[n].data, t, w[n].data);
    }
  }

  lemma KeysAre(s: seq<ListHead>, v: View)
    requires v == ViewOf(s)
    ensures v.Keys == set n | n in s
  {}

  /** The sort by computed keys, when there is one: s is the new order, and w the new view. */
  method SortByKey(res: Results, list0: ListHead, finderIdx: Short, ghost s0: seq<ListHead>, ghost ns: seq<ListHead>, ghost v: View)
    returns (list: ListHead, ghost s: seq<ListHead>, ghost w: View)
    requires Chain(s0, list0) && Distinct(s0) && Reordered(ns, s0) && |ns| >= 3 && v == ViewOf(ns)
    modifies SetOf(ns)`next, Infos(ns)`data16, res
    ensures Chain(s, list) && Distinct(s) && Reordered(ns, s) && w == ViewOf(ns)
    ensures finderIdx > 0 ==> SortedView(w, s0, s) && EvolvedView(res, old(MarksOf(res)), v, MarksOf(res), w)
    ensures finderIdx <= 0 ==> s == s0 && w == v && MarksOf(res) == old(MarksOf(res))
    ensures forall n :: n in ns ==> n.info == old(n.info)
    ensures forall n :: n in v ==> n in w && w[n].data / 0x100 == v[n].data / 0x100 && w[n].idx == v[n].idx
  {
    hide *;
    list, s := list0, s0;
    if finderIdx > 0 {
      ghost var marks := MarksOf(res);
      ViewGives(ns, v);
      KeysAre(ns, v);
      DataOfView(ns);
      list, s := SortAgain(list, CmpComplex, res, s0, ns);
      w := ViewOf(ns);
      ViewGives(ns, w);
      KeysAre(ns, w);
      DataOfView(ns);
      SameInfos(ns, s);
      SortedViewFrom(s0, s);
      HighKept(CmpComplex, res, marks, v, MarksOf(res), w);
      forall n | n in v ensures v[n].idx == w[n].idx {}
      EvolvedViewFrom(res, marks, v, MarksOf(res), w);
    } else {
      w := v;
    }
  }

  /** The sort by index, and the checksums after it. */
  method SortByIndex(list0: ListHead, retval0: Half, ghost s: seq<ListHead>, ghost ns: seq<ListHead>, ghost w: View)
    returns (retval: Half, list: ListHead, ghost out: seq<ListHead>)
    requires Chain(s, list0) && Distinct(s) && Reordered(ns, s) && |ns| >= 3 && w == ViewOf(ns)
    modifies SetOf(ns)`next, Infos(ns)`data16
    ensures Chain(out, list) && Reordered(ns, out) && StablySorted(CmpIdx, true, s, out)
    ensures retval == Repeated(list.info.data16, retval0, |ns| - 1)
    ensures forall n :: n in ns ==> n.info == old(n.info) && n.info.idx == old(n.info.idx)
    ensures forall n :: n in ns ==> n in w && n.info.data16 / 0x100 == w[n].data / 0x100
  {
    hide *;
    KeysAre(ns, w);
    DataOfView(ns);
    list, out := SortAgain(list0, CmpIdx, null, s, ns);
    ghost var f := ViewOf(ns);
    ViewGives(ns, f);
    DataOfView(ns);
    HighKept(CmpIdx, null, MarksOf(null), w, MarksOf(null), f);
    ReorderedIs(ns, out);
    retval := LastChecksum(list, retval0, s, out, ns);
  }

  /** What the list operations return, from the view w and the order s at the removal: the total of the finds goes
      through the checksums of the head, first the head of s, then the head at the end. */
  ghost function BenchValue(v: View, ns: seq<ListHead>, finderIdx: Short, n: nat, junk: Half, w: View, s: seq<ListHead>, last: Half): (r: Half)
    requires Seen(v, ns) && Seen(w, s) && |ns| == |s| >= 3
  {
    var middle := Repeated(w[s[0]].data, FindsTotal(v, ns, finderIdx, n), SuffixCount(w, s, LowAfter(junk, n), IdxAfter(finderIdx, n)));
    Repeated(last, middle, |ns| - 1)
  }

  lemma BenchValueIs(v: View, ns: seq<ListHead>, finderIdx: Short, n: nat, junk: Half, w: View, s: seq<ListHead>, last: Half,
                     s0: seq<ListHead>, total: Half, low: Half, idx: Short, middle: Half)
    requires FindsDone(v, ns, finderIdx, junk, n, s0, total, low, idx)
    requires Seen(w, s) && |ns| == |s| >= 3 && middle == Repeated(w[s[0]].data, total, SuffixCount(w, s, low, idx))
    ensures Seen(v, ns) && s0 == OrderAfter(v, ns, finderIdx, n)
    ensures BenchValue(v, ns, finderIdx, n, junk, w, s, last) == Repeated(last, middle, |ns| - 1)
  {
    hide Repeated, SuffixCount, FindsTotal, OrderAfter;
  }

  /** The list operations of the benchmark. */
  method BenchSteps(res: Results, list0: ListHead, finderIdx: Short, findNum: Short, junk: Half, ghost ns: seq<ListHead>, ghost v: View)
    returns (retval: Half, list: ListHead, ghost w: View, ghost s: seq<ListHead>, ghost out: seq<ListHead>)
    requires Chain(ns, list0) && Distinct(ns) && |ns| >= 3 && v == ViewOf(ns)
    modifies SetOf(ns)`next, SetOf(ns)`info, Infos(ns)`data16, res
    ensures Chain(out, list) && Reordered(ns, out) && StablySorted(CmpIdx, true, s, out)
    ensures Seen(v, ns) && Seen(w, s) && |s| == |ns| && Reordered(ns, s)
    ensures finderIdx > 0 ==> SortedView(w, OrderAfter(v, ns, finderIdx, Passes(findNum)), s)
                              && EvolvedView(res, old(MarksOf(res)), v, MarksOf(res), w)
    ensures finderIdx <= 0 ==> s == OrderAfter(v, ns, finderIdx, Passes(findNum)) && w == v && MarksOf(res) == old(MarksOf(res))
    ensures retval == BenchValue(v, ns, finderIdx, Passes(findNum), junk, w, s, list.info.data16)
    ensures forall n :: n in ns ==> n.info == old(n.info) && n.info.idx == old(n.info.idx)
    ensures forall n :: n in ns ==> n.info.data16 / 0x100 == old(n.info.data16) / 0x100
  {
    hide *;
    ghost var s0;
    var data16, idx, total;
    ViewGives(ns, v);
    KeysAre(ns, v);
    list, total, data16, idx, s0 := FindsKeep(list0, findNum, finderIdx, junk, ns, v);
    list, s, w := SortByKey(res, list, finderIdx, s0, ns, v);
    retval := WithoutOneKeep(list, data16, idx, total, s, ns, w);
    BenchValueIs(v, ns, finderIdx, Passes(findNum), junk, w, s, 0, s0, total, data16, idx, retval);
    ghost var middle := retval;
    retval, list, out := SortByIndex(list, retval, s, ns, w);
    BenchValueIs(v, ns, finderIdx, Passes(findNum), junk, w, s, list.info.data16, s0, total, data16, idx, middle);
  }

  lemma RestoredFromHigh(x: Half, y: Half)
    requires Restored(x) && Restored(y) && x / 0x100 == y / 0x100
    ensures x == y
  {}

  lemma AllRestoredAt(s: seq<ListHead>, n: ListHead)
    requires AllRestored(s) && n in s
    ensures Restored(n.info.data16)
  {}

  /** core_bench_list(res, finder_idx): a list whose nodes are in the strict order of their indices is
      given back in that order and with the same head, whatever is found, sorted and removed on the
      way; data whose low bytes copy the high bytes is given back too. The value returned is that of the finds,
      fed through the checksums, where s is the order at the removal and w what the nodes show then. */
  method BenchList(res: Results, list0: ListHead, finderIdx: Short, findNum: Short, junk: Half, ghost ns: seq<ListHead>)
    returns (retval: Half, list: ListHead, ghost w: View, ghost s: seq<ListHead>)
    requires Chain(ns, list0) && Distinct(ns) && |ns| >= 3
    modifies SetOf(ns)`next, SetOf(ns)`info, Infos(ns)`data16, res
    ensures old(Indexed(ns)) ==> list == list0 && Chain(ns, list)
    ensures forall n :: n in ns ==> n.info == old(n.info) && Restored(n.info.data16)
    ensures forall n :: n in ns ==> n.info.data16 / 0x100 == old(n.info.data16) / 0x100
    ensures old(AllRestored(ns)) ==> forall n :: n in ns ==> n.info.data16 == old(n.info.data16)
    ensures Seen(old(ViewOf(ns)), ns) && Seen(w, s) && |s| == |ns| && Reordered(ns, s)
    ensures finderIdx > 0 ==> SortedView(w, OrderAfter(old(ViewOf(ns)), ns, finderIdx, Passes(findNum)), s)
                              && EvolvedView(res, old(MarksOf(res)), old(ViewOf(ns)), MarksOf(res), w)
    ensures finderIdx <= 0 ==> s == OrderAfter(old(ViewOf(ns)), ns, finderIdx, Passes(findNum)) && w == old(ViewOf(ns))
                               && MarksOf(res) == old(MarksOf(res))
    ensures retval == BenchValue(old(ViewOf(ns)), ns, finderIdx, Passes(findNum), junk, w, s, list.info.data16)
  {
    hide *;
    ghost var out;
    ghost var v, k := ViewOf(ns), Indices(ns);
    ghost var indexed, restored := Indexed(ns), AllRestored(ns);
    forall n | n in ns ensures (restored ==> Restored(n.info.data16)) && n in k && k[n] == n.info.idx {
      IndicesAt(ns, n);
      if restored { AllRestoredAt(ns, n); }
    }
    if indexed { IndexedUp(ns); }
    FirstOf(ns, list0);
    retval, list, w, s, out := BenchSteps(res, list0, finderIdx, findNum, junk, ns, v);
    ReorderedIs(ns, out);
    SameInfos(ns, out);
    SortedRestored(s, out);
    forall n | n in ns
      ensures Restored(n.info.data16)
      ensures restored ==> n.info.data16 == old(n.info.data16)
    {
      AllRestoredAt(out, n);
      if restored { RestoredFromHigh(n.info.data16, old(n.info.data16)); }
    }
    if indexed {
      SortedUp(k, ns, s, out);
      OneOrder(k, ns, out);
      FirstOf(ns, list);
    }
  }

  // ---------------------------------------------------------------- the checksum as a division

  /** n copies of the bits of a word. */
  function Copies(data: Half, n: nat): (m: seq<bool>)
    decreases n
  {
    if n == 0 then [] else Numerals.LowBits(data, 16) + Copies(data, n - 1)
  }

  lemma {:induction false} RepeatedCopies(data: Half, crc: Half, n: nat)
    ensures Repeated(data, crc, n) == Checked(crc, Copies(data, n))
    decreases n
  {
    if n == 0 {
      CheckedNone(crc);
    } else {
      RepeatedCopies(data, Crc16(data, crc), n - 1);
      CheckedTwo(crc, Numerals.LowBits(data, 16), Copies(data, n - 1));
    }
  }

  /** Feeding the head's data n times leaves what the division of the n copies by x^16 + x^15 + x^2 + 1 leaves, and
      nothing else does. */
  lemma RepeatedExactly(data: Half, crc: Half, n: nat, c: Half)
    ensures CrcDivision.LeftOver(15, 2, CrcDivision.Dividend(Numerals.LowBits(crc, 16), Copies(data, n)), Numerals.LowBits(c, 16))
       <==> c == Repeated(data, crc, n)
  {
    hide *;
    RepeatedCopies(data, crc, n);
    CheckedExactly(crc, Copies(data, n), c);
  }
}
