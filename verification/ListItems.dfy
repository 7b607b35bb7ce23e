/** The items of the benchmark list and the two comparators, which rewrite the data they compare. */
module ListItems {
  import opened Sequences
  import opened ListCrc

  /** A signed 16-bit number. */
  type Short = x: int | -0x8000 <= x < 0x8000

  class ListData {
    var data16: Half
    var idx: Short

    constructor (data16: Half, idx: Short)
      ensures this.data16 == data16 && this.idx == idx
    {
      this.data16 := data16;
      this.idx := idx;
    }
  }

  class ListHead {
    var next: ListHead?
    var info: ListData

    constructor (next: ListHead?, info: ListData)
      ensures this.next == next && this.info == info
    {
      this.next := next;
      this.info := info;
    }
  }

  /** The part of the results that the comparator changes. The state and matrix benchmarks that it
      may run are a parameter: any function of the benchmark, the step, the checksum and the number
      of benchmarks run before. */
  class Results {
    var crc: Half
    var crcstate: Half
    var crcmatrix: Half
    var calls: nat
    const bench: Bench

    constructor (bench: Bench)
    {
      this.bench := bench;
      crc, crcstate, crcmatrix, calls := 0, 0, 0, 0;
    }
  }

  // ---------------------------------------------------------------- the memoised key

  /** (data >> 7) & 1 */
  predicate Cached(data: Half)
  {
    data / 0x80 % 2 == 1
  }

  /** The key of a cached item, data & 0x007f. */
  function Low7(data: Half): (k: int)
    ensures 0 <= k < 0x80
  {
    data % 0x80
  }

  /** The step of the benchmark: bits 3 to 6 in both nibbles, but at least 2 for the state benchmark. */
  function Step(data: Half): (d: int)
    ensures 0 <= d < 0x100
    ensures d / 16 == d % 16 == if data % 8 == 0 && data / 8 % 16 < 2 then 2 else data / 8 % 16
  {
    var d := data / 8 % 16;
    if data % 8 == 0 && 17 * d < 0x22 then 0x22 else 17 * d
  }

  /** (data & 0xff00) | 0x0080 | (retval & 0x007f) */
  function CachedWith(data: Half, value: Half): (d: Half)
    ensures Cached(d) && Low7(d) == Low7(value) && d / 0x100 == data / 0x100
  {
    data / 0x100 * 0x100 + 0x80 + value % 0x80
  }

  /** The checksum and the number of benchmarks run: what the value of an item depends on beside its data. */
  datatype Marks = Marks(crc: Half, calls: nat)

  type Bench = (bool, int, Half, nat) -> Half

  /** The value that an item without a cached key computes. */
  function ValueAt(bench: Bench, data: Half, s: Marks): (v: Half)
  {
    match data % 8
    case 0 => bench(true, Step(data), s.crc, s.calls)
    case 1 => bench(false, Step(data), s.crc, s.calls)
    case _ => data
  }

  /** The marks after that. */
  function NextMarks(bench: Bench, data: Half, s: Marks): (t: Marks)
  {
    Marks(Crc16(ValueAt(bench, data, s), s.crc), s.calls + if data % 8 <= 1 then 1 else 0)
  }

  ghost function MarksOf(res: Results?): (s: Marks)
    reads res
  {
    if res == null then Marks(0, 0) else Marks(res.crc, res.calls)
  }

  function Computed(data: Half, res: Results): (v: Half)
    reads res
  {
    ValueAt(res.bench, data, Marks(res.crc, res.calls))
  }

  /** calc_func(pdata, res): the item ends with its key cached, and a cached item and the results
      stay as they are. */
  method CalcFunc(d: ListData, res: Results) returns (r: int)
    modifies d`data16, res
    ensures d.data16 == if Cached(old(d.data16)) then old(d.data16) else CachedWith(old(d.data16), old(Computed(d.data16, res)))
    ensures r == Low7(d.data16)
    ensures res.crc == if Cached(old(d.data16)) then old(res.crc) else Crc16(old(Computed(d.data16, res)), old(res.crc))
    ensures res.calls == old(res.calls) + if !Cached(old(d.data16)) && old(d.data16) % 8 <= 1 then 1 else 0
    ensures res.crcstate == if !Cached(old(d.data16)) && old(d.data16) % 8 == 0 && old(res.crcstate) == 0
                            then old(Computed(d.data16, res)) else old(res.crcstate)
    ensures res.crcmatrix == if !Cached(old(d.data16)) && old(d.data16) % 8 == 1 && old(res.crcmatrix) == 0
                             then old(Computed(d.data16, res)) else old(res.crcmatrix)
  {
    hide Crc16;
    var data := d.data16;
    if data / 0x80 % 2 != 0 {
      return data % 0x80;
    }
    var flag, dtype := data % 8, data / 8 % 16;
    dtype := dtype + dtype * 16;
    var retval: Half;
    if flag == 0 {
      if dtype < 0x22 { dtype := 0x22; }
      retval := res.bench(true, dtype, res.crc, res.calls);
      res.calls := res.calls + 1;
      if res.crcstate == 0 { res.crcstate := retval; }
    } else if flag == 1 {
      retval := res.bench(false, dtype, res.crc, res.calls);
      res.calls := res.calls + 1;
      if res.crcmatrix == 0 { res.crcmatrix := retval; }
    } else {
      retval := data;
    }
    res.crc := Crcu16(retval, res.crc);
    retval := retval % 0x80;
    d.data16 := CachedWith(data, retval);
    r := retval;
  }

  // ---------------------------------------------------------------- the comparators

  datatype Comparator = CmpComplex | CmpIdx

  /** The low byte is the copy of the high byte that the index comparator restores. */
  predicate Restored(data: Half)
  {
    data % 0x100 == data / 0x100
  }

  /** (data & 0xff00) | (0x00ff & (data >> 8)) */
  function RestoredFrom(data: Half): (d: Half)
    ensures Restored(d) && d / 0x100 == data / 0x100 && (Restored(data) ==> d == data)
  {
    data / 0x100 * 0x100 + data / 0x100
  }

  /** The key by which an item is ordered, once a comparison has settled it: the cached value, or the
      index of an item whose data has been restored. Without results the index comparator restores. */
  ghost function KeyIn(cmp: Comparator, restore: bool, d: ListData): (k: Option<int>)
    reads d
  {
    match cmp
    case CmpComplex => if Cached(d.data16) then Some(Low7(d.data16)) else None
    case CmpIdx => if restore && !Restored(d.data16) then None else Some(d.idx as int)
  }

  // ---------------------------------------------------------------- what happens to the data

  /** The marks after the items with the data of log have computed their values one after the other. */
  function After(bench: Bench, s: Marks, log: seq<Half>): (t: Marks)
    decreases |log|
  {
    if log == [] then s else NextMarks(bench, log[|log| - 1], After(bench, s, log[..|log| - 1]))
  }

  ghost predicate Reaches(bench: Bench, s: Marks, t: Marks)
  {
    exists log :: After(bench, s, log) == t
  }

  /** The data y of an item that was x when its value was computed at the marks u. */
  ghost predicate SettledWith(bench: Bench, x: Half, y: Half, u: Marks)
  {
    !Cached(x) && y == CachedWith(x, ValueAt(bench, x, u))
  }

  /** Data that was settled at some time between s and t. */
  ghost predicate SettledFrom(bench: Bench, s: Marks, x: Half, t: Marks, y: Half)
  {
    exists u :: Reaches(bench, s, u) && SettledWith(bench, x, y, u) && Reaches(bench, NextMarks(bench, x, u), t)
  }

  /** What comparisons may do to the data of an item, while the marks go from s to t. */
  ghost predicate Evolved(cmp: Comparator, res: Results?, s: Marks, x: Half, t: Marks, y: Half)
  {
    match cmp
    case CmpComplex => res != null && Reaches(res.bench, s, t) && (x == y || SettledFrom(res.bench, s, x, t, y))
    case CmpIdx => s == t && (x == y || (res == null && y / 0x100 == y % 0x100 == x / 0x100))
  }

  /** The key of an item that was settled is the one its own data determines: seven bits of the data, or of a value
      that the benchmark computed from its bits 3 to 6. */
  lemma SettledKey(bench: Bench, s: Marks, x: Half, t: Marks, y: Half)
    requires SettledFrom(bench, s, x, t, y)
    ensures Cached(y) && y / 0x100 == x / 0x100
    ensures x % 8 >= 2 ==> Low7(y) == x % 0x80
    ensures x % 8 <= 1 ==> FromBench(bench, x % 8 == 0, Step(x), Low7(y))
  {
    hide Reaches, NextMarks, Step, ValueAt, CachedWith, Low7, Cached;
    var u :| Reaches(bench, s, u) && SettledWith(bench, x, y, u);
    assert y == CachedWith(x, ValueAt(bench, x, u));
    ValueIs(bench, x, u);
    if x % 8 <= 1 { assert Low7(y) == bench(x % 8 == 0, Step(x), u.crc, u.calls) % 0x80; }
  }

  /** The low seven bits of what a benchmark returns for some checksum and some number of earlier calls. */
  ghost predicate FromBench(bench: Bench, state: bool, step: int, key: int)
  {
    exists crc, calls :: key == bench(state, step, crc, calls) % 0x80
  }

  lemma ValueIs(bench: Bench, x: Half, u: Marks)
    ensures x % 8 >= 2 ==> Low7(ValueAt(bench, x, u)) == x % 0x80
    ensures x % 8 <= 1 ==> Low7(ValueAt(bench, x, u)) == bench(x % 8 == 0, Step(x), u.crc, u.calls) % 0x80
  {}

  lemma {:induction false} AfterTwo(bench: Bench, s: Marks, a: seq<Half>, b: seq<Half>)
    ensures After(bench, After(bench, s, a), b) == After(bench, s, a + b)
    decreases |b|
  {
    hide NextMarks;
    if b == [] {
      assert a + b == a;
    } else {
      var k := |b| - 1;
      AfterTwo(bench, s, a, b[..k]);
      assert (a + b)[..|a| + k] == a + b[..k];
    }
  }

  lemma ReachesSelf(bench: Bench, s: Marks)
    ensures Reaches(bench, s, s)
  {
    assert After(bench, s, []) == s;
  }

  lemma ReachesNext(bench: Bench, s: Marks, x: Half)
    ensures Reaches(bench, s, NextMarks(bench, x, s))
  {
    hide NextMarks;
    assert [x][..0] == [];
    assert After(bench, s, [x]) == NextMarks(bench, x, s);
  }

  lemma ReachesTwo(bench: Bench, s: Marks, t: Marks, u: Marks)
    requires Reaches(bench, s, t) && Reaches(bench, t, u)
    ensures Reaches(bench, s, u)
  {
    var a :| After(bench, s, a) == t;
    var b :| After(bench, t, b) == u;
    AfterTwo(bench, s, a, b);
  }

  lemma EvolvedSelf(cmp: Comparator, res: Results?, s: Marks, x: Half)
    requires cmp.CmpComplex? ==> res != null
    ensures Evolved(cmp, res, s, x, s, x)
  {
    if res != null { ReachesSelf(res.bench, s); }
  }

  lemma EvolvedTwo(cmp: Comparator, res: Results?, s: Marks, x: Half, t: Marks, y: Half, u: Marks, z: Half)
    requires Evolved(cmp, res, s, x, t, y) && Evolved(cmp, res, t, y, u, z)
    ensures Evolved(cmp, res, s, x, u, z)
  {
    if cmp.CmpComplex? {
      hide After, ValueAt, NextMarks, Reaches;
      ReachesTwo(res.bench, s, t, u);
      if x == y && SettledFrom(res.bench, t, y, u, z) {
        var m :| Reaches(res.bench, t, m) && SettledWith(res.bench, y, z, m) && Reaches(res.bench, NextMarks(res.bench, y, m), u);
        ReachesTwo(res.bench, s, t, m);
      } else if SettledFrom(res.bench, s, x, t, y) {
        var m :| Reaches(res.bench, s, m) && SettledWith(res.bench, x, y, m) && Reaches(res.bench, NextMarks(res.bench, x, m), t);
        ReachesTwo(res.bench, NextMarks(res.bench, x, m), t, u);
      }
    }
  }

  lemma EvolvedHigh(cmp: Comparator, res: Results?, s: Marks, x: Half, t: Marks, y: Half)
    requires Evolved(cmp, res, s, x, t, y)
    ensures y / 0x100 == x / 0x100
  {
    hide Reaches, ValueAt, NextMarks;
  }

  /** What calc_func does to the data of an item. */
  lemma CalcEvolves(res: Results, s: Marks, x: Half, t: Marks, y: Half)
    requires if Cached(x) then y == x && t == s else y == CachedWith(x, ValueAt(res.bench, x, s)) && t == NextMarks(res.bench, x, s)
    ensures Evolved(CmpComplex, res, s, x, t, y)
  {
    hide After, ValueAt, NextMarks, Reaches;
    ReachesSelf(res.bench, s);
    ReachesNext(res.bench, s, x);
    ReachesSelf(res.bench, t);
    if !Cached(x) { assert SettledWith(res.bench, x, y, s); }
  }

  lemma UntouchedEvolves(cmp: Comparator, res: Results?, s: Marks, x: Half, t: Marks)
    requires if cmp.CmpComplex? then res != null && Reaches(res.bench, s, t) else s == t
    ensures Evolved(cmp, res, s, x, t, x)
  {}

  lemma EvolvedMarks(cmp: Comparator, res: Results?, s: Marks, x: Half, t: Marks, y: Half)
    requires Evolved(cmp, res, s, x, t, y)
    ensures if cmp.CmpComplex? then res != null && Reaches(res.bench, s, t) else s == t
  {}

  /** One call of calc_func, as a comparison makes it. */
  method CalcComplex(d: ListData, res: Results) returns (r: int)
    modifies d`data16, res
    ensures Cached(d.data16) && r == Low7(d.data16) && (old(Cached(d.data16)) ==> d.data16 == old(d.data16))
    ensures Evolved(CmpComplex, res, old(MarksOf(res)), old(d.data16), MarksOf(res), d.data16)
    ensures Reaches(res.bench, old(MarksOf(res)), MarksOf(res))
  {
    hide After, Reaches, Evolved, Crc16;
    ghost var s, x := MarksOf(res), d.data16;
    r := CalcFunc(d, res);
    CalcEvolves(res, s, x, MarksOf(res), d.data16);
    EvolvedMarks(CmpComplex, res, s, x, MarksOf(res), d.data16);
  }

  /** cmp(a, b, res) */
  method Compare(cmp: Comparator, a: ListData, b: ListData, res: Results?) returns (r: int)
    requires cmp.CmpComplex? ==> res != null
    modifies a`data16, b`data16, res
    ensures KeyIn(cmp, res == null, a).Some? && KeyIn(cmp, res == null, b).Some?
    ensures old(KeyIn(cmp, res == null, a).Some?) ==> a.data16 == old(a.data16)
    ensures old(KeyIn(cmp, res == null, b).Some?) ==> b.data16 == old(b.data16)
    ensures Evolved(cmp, res, old(MarksOf(res)), old(a.data16), MarksOf(res), a.data16)
    ensures Evolved(cmp, res, old(MarksOf(res)), old(b.data16), MarksOf(res), b.data16)
    ensures r <= 0 <==> KeyIn(cmp, res == null, a).value <= KeyIn(cmp, res == null, b).value
  {
    match cmp {
      case CmpComplex =>
        hide After, ValueAt, NextMarks, Reaches, Evolved;
        ghost var s, x, y := MarksOf(res), a.data16, b.data16;
        var val1 := CalcComplex(a, res);
        ghost var t, x1, y1 := MarksOf(res), a.data16, b.data16;
        var val2 := CalcComplex(b, res);
        ghost var u := MarksOf(res);
        if a == b {
          EvolvedTwo(cmp, res, s, x, t, x1, u, b.data16);
        } else {
          UntouchedEvolves(cmp, res, t, x1, u);
          UntouchedEvolves(cmp, res, s, y, t);
          EvolvedTwo(cmp, res, s, x, t, x1, u, a.data16);
          EvolvedTwo(cmp, res, s, y, t, y1, u, b.data16);
        }
        r := val1 - val2;
      case CmpIdx =>
        if res == null {
          a.data16 := RestoredFrom(a.data16);
          b.data16 := RestoredFrom(b.data16);
        }
        r := a.idx as int - b.idx as int;
    }
  }
}
