/**
 The nodes and data items of the CycleMark list (coremark.h) and the two comparators that
 core_list_join.c passes to its merge sort. Both comparators write to the items they compare.
 */
module ListItems {
  import Crc

  type s16 = x: int | -0x8000 <= x < 0x8000

  /** struct list_data_s; data16 is kept as its 16 bits. */
  class ListData {
    var data16: bv16
    var idx: s16

    constructor (data16: bv16, idx: s16)
      ensures this.data16 == data16 && this.idx == idx
    {
      this.data16, this.idx := data16, idx;
    }
  }

  /** struct list_head_s */
  class ListHead {
    var next: ListHead?
    var info: ListData

    constructor (next: ListHead?, info: ListData)
      ensures this.next == next && this.info == info
    {
      this.next, this.info := next, info;
    }
  }

  datatype Kernel = StateKernel | MatrixKernel

  /** What the kernels return: any value for every kernel, parameter and number of the call. */
  type Bench = (Kernel, bv16, nat) -> bv16

  /**
   The part of struct RESULTS_S the list code uses. What core_bench_state and core_bench_matrix
   return depends on memory outside this model: `bench` may give any value to every call.
   */
  class Results {
    const bench: Bench
    var calls: nat
    var seed3: s16
    var list: ListHead
    var crc: bv16
    var crclist: bv16
    var crcmatrix: bv16
    var crcstate: bv16

    constructor (bench: Bench, seed3: s16, list: ListHead)
      ensures this.bench == bench && this.seed3 == seed3 && this.list == list
    {
      this.bench, this.seed3, this.list := bench, seed3, list;
      calls, crc, crclist, crcmatrix, crcstate := 0, 0, 0, 0, 0;
    }
  }

  /** The fields of the results that a comparison may change. */
  datatype Acc = Acc(calls: nat, crc: bv16, crcstate: bv16, crcmatrix: bv16)

  function AccOf(res: Results?): Acc
    reads if res == null then {} else {res}
  {
    if res == null then Acc(0, 0, 0, 0) else Acc(res.calls, res.crc, res.crcstate, res.crcmatrix)
  }

  function BenchOf(res: Results?): Bench {
    if res == null then (_, _, _) => 0 else res.bench
  }

  // ---------------------------------------------------------------------------
  // The fields packed into data16
  // ---------------------------------------------------------------------------

  /** Bits 15..8: the backup of the original byte. */
  function Backup(d: bv16): bv16 { d >> 8 }

  /** Bit 7: bits 6..0 hold a cached value. */
  predicate Cached(d: bv16) { (d >> 7) & 1 == 1 }

  /** Bits 6..0. */
  function Value(d: bv16): bv16 { d & 0x7f }

  /** The low byte equals the backup. */
  predicate Regenerated(d: bv16) { d & 0xff == d >> 8 }

  lemma RegenerateWord(d: bv16)
    ensures var w := (d & 0xff00) | (0x00ff & (d >> 8));
      Regenerated(w) && Backup(w) == Backup(d) && (Regenerated(d) ==> w == d)
  {}

  /** A word is its backup byte once it is regenerated. */
  lemma RegeneratedUnique(d: bv16, w: bv16)
    requires Regenerated(d) && Regenerated(w) && Backup(d) == Backup(w)
    ensures d == w
  {}

  // ---------------------------------------------------------------------------
  // calc_func
  // ---------------------------------------------------------------------------

  /** The kernel parameter in bits 6..3 of a word, doubled to a byte. */
  function DataType(d: bv16): bv16 {
    var dtype := (d >> 3) & 0xf;
    dtype | (dtype << 4)
  }

  /** What an item is worth before it is cut to seven bits: a kernel's result, or the word itself. */
  function Computed(d: bv16, bench: Bench, calls: nat): bv16 {
    if d & 7 == 0 then bench(StateKernel, if DataType(d) < 0x22 then 0x22 else DataType(d), calls)
    else if d & 7 == 1 then bench(MatrixKernel, DataType(d), calls)
    else d
  }

  /** Whether the word asks for a kernel. */
  predicate Kernelled(d: bv16) { d & 6 == 0 }

  /**
   Bits 2..0 of a word choose what it is worth: zero the state kernel, whose parameter is at least 0x22; one the
   matrix kernel; anything else the word. The parameter p has bits 6..3 of the word in both nibbles.
   */
  lemma ComputedBy(d: bv16, p: bv16, bench: Bench, calls: nat)
    requires p & 0xf == (d & 0x78) >> 3 && p >> 4 == (d & 0x78) >> 3
    ensures Kernelled(d) && d & 1 == 0 ==>
      Computed(d, bench, calls) == bench(StateKernel, if p < 0x22 then 0x22 else p, calls)
    ensures Kernelled(d) && d & 1 == 1 ==> Computed(d, bench, calls) == bench(MatrixKernel, p, calls)
    ensures !Kernelled(d) ==> Computed(d, bench, calls) == d
  {
    FlagBits(d);
    NibblesUnique(d, p);
    hide DataType;
  }

  lemma FlagBits(d: bv16)
    ensures Kernelled(d) <==> d & 7 == 0 || d & 7 == 1
    ensures d & 7 == 0 <==> Kernelled(d) && d & 1 == 0
    ensures d & 7 == 1 <==> Kernelled(d) && d & 1 == 1
  {}

  lemma NibblesUnique(d: bv16, p: bv16)
    requires p & 0xf == (d & 0x78) >> 3 && p >> 4 == (d & 0x78) >> 3
    ensures p == DataType(d)
  {}

  /** A kernel's checksum field keeps the first result that is not zero. */
  function FirstResult(ran: bool, result: bv16, had: bv16): bv16 {
    if ran && had == 0 then result else had
  }

  /** The switch of calc_func: run the kernel that the word asks for. */
  method Compute(data: bv16, res: Results) returns (retval: bv16)
    modifies res`calls, res`crcmatrix, res`crcstate
    ensures retval == Computed(data, res.bench, old(res.calls))
    ensures res.calls == old(res.calls) + if data & 7 == 0 || data & 7 == 1 then 1 else 0
    ensures res.crcstate == FirstResult(data & 7 == 0, retval, old(res.crcstate))
    ensures res.crcmatrix == FirstResult(data & 7 == 1, retval, old(res.crcmatrix))
  {
    var flag := data & 0x7;
    var dtype := (data >> 3) & 0xf;
    dtype := dtype | (dtype << 4);
    if flag == 0 {
      if dtype < 0x22 {
        dtype := 0x22;
      }
      retval := res.bench(StateKernel, dtype, res.calls);
      res.calls := res.calls + 1;
      if res.crcstate == 0 {
        res.crcstate := retval;
      }
    } else if flag == 1 {
      retval := res.bench(MatrixKernel, dtype, res.calls);
      res.calls := res.calls + 1;
      if res.crcmatrix == 0 {
        res.crcmatrix := retval;
      }
    } else {
      retval := data;
    }
  }

  /** The word that caches a value. */
  function CachedWord(d: bv16, v: bv16): bv16 { (d & 0xff00) | 0x0080 | (v & 0x7f) }

  lemma CacheWord(d: bv16, v: bv16)
    ensures var w := CachedWord(d, v); Cached(w) && Value(w) == Value(v) && Backup(w) == Backup(d)
  {}

  /** The test of the cache bit, and the value behind it. */
  lemma CacheTest(d: bv16)
    ensures (d >> 7) & 1 != 0 <==> Cached(d)
    ensures d & 0x007f == Value(d)
  {}

  /** A word and the results after a comparison that computes it. */
  function Caches(w: bv16, bench: Bench, acc: Acc): (r: (bv16, Acc)) {
    var v := Computed(w, bench, acc.calls);
    (CachedWord(w, v),
     Acc(acc.calls + (if Kernelled(w) then 1 else 0), Crc.Feed(Crc.MessageBits([Crc.Low8(v), Crc.High8(v)]), acc.crc),
         FirstResult(w & 7 == 0, v, acc.crcstate), FirstResult(w & 7 == 1, v, acc.crcmatrix)))
  }

  /**
   The value of an item. The first call computes and caches it; every later call returns the
   same value and changes nothing. The backup byte is never touched.
   */
  method CalcFunc(pdata: ListData, res: Results) returns (retval: bv16)
    modifies pdata`data16, res`calls, res`crc, res`crcmatrix, res`crcstate
    ensures Cached(pdata.data16) && retval == Value(pdata.data16)
    ensures Backup(pdata.data16) == old(Backup(pdata.data16))
    ensures old(Cached(pdata.data16)) ==> pdata.data16 == old(pdata.data16) && AccOf(res) == old(AccOf(res))
    ensures !old(Cached(pdata.data16)) ==>
      (pdata.data16, AccOf(res)) == Caches(old(pdata.data16), res.bench, old(AccOf(res)))
    ensures !old(Kernelled(pdata.data16)) ==> Value(pdata.data16) == old(Value(pdata.data16))
  {
    hide Backup, Cached, CachedWord, Computed, Crc.Feed, Crc.High8, Crc.Low8, Crc.MessageBits, FirstResult, Kernelled;
    hide Value;
    var data := pdata.data16;
    CacheTest(data);
    FlagBits(data);
    var optype := (data >> 7) & 1;
    if optype != 0 {
      return data & 0x007f;
    }
    retval := Compute(data, res);
    PlainWord(data, res.bench, old(res.calls));
    res.crc := Crc.Crcu16(retval, res.crc);
    CacheWord(data, retval);
    pdata.data16 := CachedWord(data, retval);
    CacheTest(retval);
    retval := retval & 0x007f;
  }

  lemma PlainWord(d: bv16, bench: Bench, calls: nat)
    ensures !Kernelled(d) ==> Computed(d, bench, calls) == d
  {
    FlagBits(d);
  }

  // ---------------------------------------------------------------------------
  // The comparators
  // ---------------------------------------------------------------------------

  /**
   The function pointer given to the sort: cmp_complex, cmp_idx, which regenerates when it gets a NULL
   result, or any other comparison that only looks at its items, by any total order with ties.
   */
  datatype Cmp = Complex | Idx(regenerate: bool) | ByKey(key: (bv16, s16) -> int)

  /** What a comparison orders by. */
  function Key(cmp: Cmp, d: ListData): int
    reads d
  {
    match cmp
    case Complex => Value(d.data16) as int
    case Idx(_) => d.idx
    case ByKey(key) => key(d.data16, d.idx)
  }

  /** A comparison has visited the item: its value is cached, or its low byte is regenerated. */
  predicate Seen(cmp: Cmp, d: ListData)
    reads d
  {
    SeenWord(cmp, d.data16)
  }

  predicate SeenWord(cmp: Cmp, w: bv16) {
    match cmp
    case Complex => Cached(w)
    case Idx(regenerate) => regenerate ==> Regenerated(w)
    case ByKey(_) => true
  }

  /** What a comparison makes of one of its items and of the results: nothing, if it has visited it before. */
  function Visit(cmp: Cmp, bench: Bench, w: bv16, acc: Acc): (r: (bv16, Acc))
    ensures SeenWord(cmp, r.0) && Backup(r.0) == Backup(w)
    ensures cmp == Complex && !Kernelled(w) ==> Value(r.0) == Value(w)
  {
    CacheWord(w, Computed(w, bench, acc.calls));
    RegenerateWord(w);
    PlainWord(w, bench, acc.calls);
    if SeenWord(cmp, w) then (w, acc)
    else if cmp.Complex? then Caches(w, bench, acc)
    else ((w & 0xff00) | (0x00ff & (w >> 8)), acc)
  }

  /** Regeneration is the only thing that the sort by idx can do to a word. */
  lemma VisitRegenerates(w: bv16, bench: Bench, acc: Acc, w': bv16)
    requires Regenerated(w') && Backup(w') == Backup(w)
    ensures Visit(Idx(true), bench, w, acc) == (w', acc)
  {
    hide Backup, Regenerated;
    RegeneratedUnique(Visit(Idx(true), bench, w, acc).0, w');
  }

  /** The words of some items, and the results. */
  datatype Memory = Memory(words: map<ListData, bv16>, acc: Acc)

  function VisitItem(cmp: Cmp, bench: Bench, m: Memory, d: ListData): (r: Memory)
    requires d in m.words
    ensures r.words.Keys == m.words.Keys
  {
    var (w, acc) := Visit(cmp, bench, m.words[d], m.acc);
    Memory(m.words[d := w], acc)
  }

  function VisitBoth(cmp: Cmp, bench: Bench, m: Memory, a: ListData, b: ListData): (r: Memory)
    requires a in m.words && b in m.words
    ensures r.words.Keys == m.words.Keys
  {
    VisitItem(cmp, bench, VisitItem(cmp, bench, m, a), b)
  }

  /** Two items and the results. */
  function Pair(a: ListData, b: ListData, res: Results?): (m: Memory)
    reads a, b, if res == null then {} else {res}
    ensures m.words.Keys == {a, b} && m.words[a] == a.data16 && m.words[b] == b.data16 && m.acc == AccOf(res)
  {
    Memory(map d | d in {a, b} :: d.data16, AccOf(res))
  }

  lemma MemoryIs(cmp: Cmp, bench: Bench, m: Memory, d: ListData, m': Memory)
    requires d in m.words && m'.words.Keys == m.words.Keys
    requires (m'.words[d], m'.acc) == Visit(cmp, bench, m.words[d], m.acc)
    requires forall e :: e in m.words && e != d ==> m'.words[e] == m.words[e]
    ensures m' == VisitItem(cmp, bench, m, d)
  {
    hide Visit;
  }

  lemma VisitCaches(bench: Bench, w: bv16, acc: Acc)
    ensures Visit(Complex, bench, w, acc) == if Cached(w) then (w, acc) else Caches(w, bench, acc)
  {
    hide Caches, Cached;
  }

  method CmpComplex(a: ListData, b: ListData, res: Results) returns (r: int)
    modifies a`data16, b`data16, res`calls, res`crc, res`crcmatrix, res`crcstate
    ensures Pair(a, b, res) == VisitBoth(Complex, res.bench, old(Pair(a, b, res)), a, b)
    ensures Seen(Complex, a) && Seen(Complex, b)
    ensures r == Key(Complex, a) - Key(Complex, b)
    ensures Backup(a.data16) == old(Backup(a.data16)) && Backup(b.data16) == old(Backup(b.data16))
    ensures old(Seen(Complex, a)) ==> a.data16 == old(a.data16)
    ensures old(Seen(Complex, b)) ==> b.data16 == old(b.data16)
    ensures !old(Kernelled(a.data16)) ==> Value(a.data16) == old(Value(a.data16))
    ensures !old(Kernelled(b.data16)) ==> Value(b.data16) == old(Value(b.data16))
  {
    hide Backup, Cached, Caches, Kernelled, Pair, Value, Visit;
    ghost var m := Pair(a, b, res);
    VisitCaches(res.bench, m.words[a], m.acc);
    var val1 := CalcFunc(a, res);
    MemoryIs(Complex, res.bench, m, a, Pair(a, b, res));
    m := Pair(a, b, res);
    VisitCaches(res.bench, m.words[b], m.acc);
    var val2 := CalcFunc(b, res);
    MemoryIs(Complex, res.bench, m, b, Pair(a, b, res));
    return val1 as int - val2 as int;
  }

  /** The assignment cmp_idx makes to both of its items. */
  method Regenerate(d: ListData)
    modifies d`data16
    ensures Regenerated(d.data16) && Backup(d.data16) == old(Backup(d.data16))
    ensures old(Regenerated(d.data16)) ==> d.data16 == old(d.data16)
  {
    RegenerateWord(d.data16);
    d.data16 := (d.data16 & 0xff00) | (0x00ff & (d.data16 >> 8));
  }

  method CmpIdx(a: ListData, b: ListData, res: Results?) returns (r: int)
    modifies a`data16, b`data16
    ensures Pair(a, b, res) == VisitBoth(Idx(res == null), BenchOf(res), old(Pair(a, b, res)), a, b)
    ensures Seen(Idx(res == null), a) && Seen(Idx(res == null), b)
    ensures r == a.idx - b.idx
    ensures Backup(a.data16) == old(Backup(a.data16)) && Backup(b.data16) == old(Backup(b.data16))
    ensures old(Seen(Idx(res == null), a)) ==> a.data16 == old(a.data16)
    ensures old(Seen(Idx(res == null), b)) ==> b.data16 == old(b.data16)
  {
    hide AccOf, Backup, Pair, Regenerated, Visit;
    ghost var m := Pair(a, b, res);
    if res == null {
      Regenerate(a);
      VisitRegenerates(m.words[a], BenchOf(res), m.acc, a.data16);
      MemoryIs(Idx(true), BenchOf(res), m, a, Pair(a, b, res));
      m := Pair(a, b, res);
      Regenerate(b);
      VisitRegenerates(m.words[b], BenchOf(res), m.acc, b.data16);
      MemoryIs(Idx(true), BenchOf(res), m, b, Pair(a, b, res));
    } else {
      VisitNothing(Idx(false), BenchOf(res), a, b, m);
    }
    return a.idx - b.idx;
  }

  /** A comparison that only looks. */
  lemma VisitNothing(cmp: Cmp, bench: Bench, a: ListData, b: ListData, m: Memory)
    requires cmp == Idx(false) || cmp.ByKey?
    requires a in m.words && b in m.words
    ensures VisitBoth(cmp, bench, m, a, b) == m
  {
    assert m.words[a := m.words[a]] == m.words && m.words[b := m.words[b]] == m.words;
  }

  /** cmp_complex needs a result structure; cmp_idx tells NULL from non-NULL. */
  predicate Callable(cmp: Cmp, res: Results?) {
    match cmp
    case Complex => res != null
    case Idx(regenerate) => regenerate == (res == null)
    case ByKey(_) => true
  }

  /** The call through the function pointer: it visits its first item and then its second. */
  method Compare(cmp: Cmp, a: ListData, b: ListData, res: Results?) returns (r: int)
    requires Callable(cmp, res)
    modifies a`data16, b`data16
    modifies if res == null then {} else {res}
    ensures Pair(a, b, res) == VisitBoth(cmp, BenchOf(res), old(Pair(a, b, res)), a, b)
    ensures Seen(cmp, a) && Seen(cmp, b)
    ensures r == Key(cmp, a) - Key(cmp, b)
    ensures Backup(a.data16) == old(Backup(a.data16)) && Backup(b.data16) == old(Backup(b.data16))
    ensures old(Seen(cmp, a)) ==> a.data16 == old(a.data16) && Key(cmp, a) == old(Key(cmp, a))
    ensures old(Seen(cmp, b)) ==> b.data16 == old(b.data16) && Key(cmp, b) == old(Key(cmp, b))
    ensures res != null ==> res.seed3 == old(res.seed3) && res.list == old(res.list) && res.crclist == old(res.crclist)
  {
    hide Cached, Value, Backup, Regenerated, VisitBoth;
    match cmp
    case Complex => r := CmpComplex(a, b, res);
    case Idx(_) => r := CmpIdx(a, b, res);
    case ByKey(key) =>
      VisitNothing(cmp, BenchOf(res), a, b, Pair(a, b, res));
      r := key(a.data16, a.idx) - key(b.data16, b.idx);
  }
}
