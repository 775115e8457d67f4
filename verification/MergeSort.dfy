/**
 core_list_mergesort: the bottom-up, non-recursive merge sort that relinks the nodes in place.

 `nodes` is always the list as it was handed in; a chain in the heap is described by the
 sequence of its positions in `nodes`.
 */
module MergeSort {
  import opened SortOrder
  import opened ListItems
  import opened Tour

  // ---------------------------------------------------------------------------
  // Chains in the heap
  // ---------------------------------------------------------------------------

  predicate Distinct(nodes: seq<ListHead>) {
    forall i, j :: 0 <= i < j < |nodes| ==> nodes[i] != nodes[j]
  }

  predicate Linked(nodes: seq<ListHead>, s: seq<nat>)
    requires InRange(s, |nodes|)
    reads nodes`next
  {
    forall i :: 0 <= i < |s| - 1 ==> nodes[s[i]].next == nodes[s[i + 1]]
  }

  /** A complete list: linked, and the last node ends it. */
  predicate Chain(nodes: seq<ListHead>, s: seq<nat>)
    requires InRange(s, |nodes|)
    reads nodes`next
  {
    Linked(nodes, s) && (s != [] ==> nodes[s[|s| - 1]].next == null)
  }

  function First(nodes: seq<ListHead>, s: seq<nat>): ListHead?
    requires InRange(s, |nodes|)
  {
    if s == [] then null else nodes[s[0]]
  }

  function Last(nodes: seq<ListHead>, s: seq<nat>): ListHead?
    requires InRange(s, |nodes|)
  {
    if s == [] then null else nodes[s[|s| - 1]]
  }

  function Infos(nodes: seq<ListHead>): set<ListData>
    reads nodes`info
  {
    set n | n in nodes :: n.info
  }

  /** The sort keys of all nodes, by position. */
  function Keys(nodes: seq<ListHead>, cmp: Cmp): (ks: seq<int>)
    reads nodes`info, Infos(nodes)
    ensures |ks| == |nodes| && forall i :: 0 <= i < |ks| ==> ks[i] == Key(cmp, nodes[i].info)
  {
    if nodes == [] then [] else Keys(nodes[..|nodes| - 1], cmp) + [Key(cmp, nodes[|nodes| - 1].info)]
  }

  /** Which nodes a comparison has visited, by position. */
  function Marks(nodes: seq<ListHead>, cmp: Cmp): (pr: seq<bool>)
    reads nodes`info, Infos(nodes)
    ensures |pr| == |nodes| && forall i :: 0 <= i < |pr| ==> pr[i] == Seen(cmp, nodes[i].info)
  {
    if nodes == [] then [] else Marks(nodes[..|nodes| - 1], cmp) + [Seen(cmp, nodes[|nodes| - 1].info)]
  }

  /** The backup bytes, by position. */
  function Backups(nodes: seq<ListHead>): (bs: seq<bv16>)
    reads nodes`info, Infos(nodes)
    ensures |bs| == |nodes| && forall i :: 0 <= i < |bs| ==> bs[i] == Backup(nodes[i].info.data16)
  {
    if nodes == [] then [] else Backups(nodes[..|nodes| - 1]) + [Backup(nodes[|nodes| - 1].info.data16)]
  }

  /** What no comparison changes: the data items, their backup bytes, and three fields of the results. */
  datatype Frame = Frame(infos: set<ListData>, backups: seq<bv16>, seed3: int, list: ListHead?, crclist: bv16)

  function Kept(nodes: seq<ListHead>, res: Results?): (k: Frame)
    reads nodes`info, Infos(nodes), if res == null then {} else {res}
    ensures k.infos == Infos(nodes)
  {
    if res == null then Frame(Infos(nodes), Backups(nodes), 0, null, 0)
    else Frame(Infos(nodes), Backups(nodes), res.seed3, res.list, res.crclist)
  }

  /** What the items and the results hold. */
  function MemoryOf(nodes: seq<ListHead>, res: Results?): (m: Memory)
    reads nodes`info, Infos(nodes), if res == null then {} else {res}
    ensures m.words.Keys == Infos(nodes) && m.acc == AccOf(res)
    ensures forall d :: d in m.words ==> m.words[d] == d.data16
  {
    Memory(map d | d in Infos(nodes) :: d.data16, AccOf(res))
  }

  /** The data item of every node, by position. */
  function Items(nodes: seq<ListHead>): (ds: seq<ListData>)
    reads nodes`info
    ensures |ds| == |nodes| && forall i :: 0 <= i < |ds| ==> ds[i] == nodes[i].info
  {
    if nodes == [] then [] else Items(nodes[..|nodes| - 1]) + [nodes[|nodes| - 1].info]
  }

  /** The items and the results hold what the walk along the list has left so far. */
  predicate OnWalk(nodes: seq<ListHead>, cmp: Cmp, res: Results?, walk: Walk)
    reads nodes`info, Infos(nodes), if res == null then {} else {res}
  {
    && walk.items == Items(nodes) && walk.visited <= |nodes| && Covers(walk.start, walk.items)
    && MemoryOf(nodes, res) == Toured(cmp, BenchOf(res), walk.start, walk.items, walk.visited)
  }

  // ---------------------------------------------------------------------------
  // Sequences of positions without repetition
  // ---------------------------------------------------------------------------

  predicate Apart(s: seq<nat>, t: seq<nat>) {
    forall i, j :: 0 <= i < |s| && 0 <= j < |t| ==> s[i] != t[j]
  }

  predicate AllApart(s: seq<nat>, t: seq<nat>, u: seq<nat>) {
    NoDup(s) && NoDup(t) && NoDup(u) && Apart(s, t) && Apart(s, u) && Apart(t, u)
  }

  /**
   The three pieces of the heap during a merge: the output, the rest of the left run (its last
   link is stale), and the rest of the right run with everything behind it.
   */
  predicate Pieces(nodes: seq<ListHead>, s: seq<nat>, a: seq<nat>, u: seq<nat>)
    reads nodes`next
  {
    && InRange(s, |nodes|) && InRange(a, |nodes|) && InRange(u, |nodes|)
    && AllApart(s, a, u) && Linked(nodes, s) && Linked(nodes, a) && Chain(nodes, u)
  }

  predicate Heap(nodes: seq<ListHead>, st: Merge)
    reads nodes`next
  {
    st.InRanges(|nodes|) && Pieces(nodes, st.out + st.m, st.a, st.b + st.rest)
  }

  function OutFirst(nodes: seq<ListHead>, st: Merge): ListHead?
    requires st.InRanges(|nodes|)
  {
    First(nodes, st.out + st.m)
  }

  function OutLast(nodes: seq<ListHead>, st: Merge): ListHead?
    requires st.InRanges(|nodes|)
  {
    Last(nodes, st.out + st.m)
  }

  function LeftHead(nodes: seq<ListHead>, st: Merge): ListHead?
    requires st.InRanges(|nodes|)
  {
    First(nodes, st.a)
  }

  function RightHead(nodes: seq<ListHead>, st: Merge): ListHead?
    requires st.InRanges(|nodes|)
  {
    First(nodes, st.b + st.rest)
  }

  lemma PiecesSplit(nodes: seq<ListHead>, s: seq<nat>, a: seq<nat>, u: seq<nat>)
    requires InRange(s, |nodes|) && InRange(a, |nodes|) && InRange(u, |nodes|)
    requires Linked(nodes, s) && Chain(nodes, a + u) && AllApart(s, a, u)
    ensures Pieces(nodes, s, a, u)
  {
    forall i | 0 <= i < |a| - 1 ensures nodes[a[i]].next == nodes[a[i + 1]] {
      assert nodes[(a + u)[i]].next == nodes[(a + u)[i + 1]];
    }
    forall i | 0 <= i < |u| - 1 ensures nodes[u[i]].next == nodes[u[i + 1]] {
      assert nodes[(a + u)[|a| + i]].next == nodes[(a + u)[|a| + i + 1]];
    }
  }

  /** Where the two read pointers are, and where they go next. */
  lemma NextHeads(nodes: seq<ListHead>, st: Merge)
    requires Heap(nodes, st)
    ensures st.a != [] ==> st.a[0] < |nodes| && LeftHead(nodes, st) == nodes[st.a[0]]
    ensures st.b != [] ==> (st.b + st.rest)[0] < |nodes| && RightHead(nodes, st) == nodes[(st.b + st.rest)[0]]
    ensures RightHead(nodes, st) == null <==> st.b == [] && st.rest == []
  {
    hide AllApart, Linked, Chain;
  }

  lemma NextLeft(nodes: seq<ListHead>, st: Merge)
    requires Heap(nodes, st) && st.a != []
    ensures LeftHead(nodes, st) != null && st.Take(true).InRanges(|nodes|)
    ensures |st.a| > 1 ==> LeftHead(nodes, st).next == LeftHead(nodes, st.Take(true))
    ensures RightHead(nodes, st.Take(true)) == RightHead(nodes, st)
  {
    hide AllApart, Chain;
    st.TakeRanges(|nodes|, true);
  }

  lemma NextRight(nodes: seq<ListHead>, st: Merge)
    requires Heap(nodes, st) && st.b != []
    ensures RightHead(nodes, st) != null && st.Take(false).InRanges(|nodes|)
    ensures RightHead(nodes, st).next == RightHead(nodes, st.Take(false))
    ensures LeftHead(nodes, st.Take(false)) == LeftHead(nodes, st)
  {
    hide AllApart;
    st.TakeRanges(|nodes|, false);
  }

  /** Lines 566-575: the node e, head of one of the runs, joins the output. */
  method Append(ghost nodes: seq<ListHead>, ghost st: Merge, ghost left: bool,
                list0: ListHead?, tail0: ListHead?, e: ListHead, ghost cmp: Cmp, ghost res: Results?, ghost walk: Walk)
    returns (list: ListHead, tail: ListHead)
    requires Distinct(nodes) && Heap(nodes, st) && (if left then st.a else st.b) != []
    requires list0 == OutFirst(nodes, st) && tail0 == OutLast(nodes, st)
    requires e == (if left then LeftHead(nodes, st) else RightHead(nodes, st)) && OnWalk(nodes, cmp, res, walk)
    modifies nodes`next
    ensures Kept(nodes, res) == old(Kept(nodes, res)) && OnWalk(nodes, cmp, res, walk)
    ensures Keys(nodes, cmp) == old(Keys(nodes, cmp)) && Marks(nodes, cmp) == old(Marks(nodes, cmp))
    ensures Heap(nodes, st.Take(left))
    ensures list == OutFirst(nodes, st.Take(left)) && tail == OutLast(nodes, st.Take(left))
  {
    hide *;
    ghost var s, a, u := st.out + st.m, st.a, st.b + st.rest;
    ghost var x := Entering(nodes, st, left);
    OutEnds(nodes, st);
    if tail0 != null {
      list := list0;
    } else {
      list := e;
    }
    Extend(nodes, s, a, u, tail0, e, x, cmp, res, walk);
    tail := e;
    TakeHeap(nodes, st, left, x);
  }

  lemma OutEnds(nodes: seq<ListHead>, st: Merge)
    requires st.InRanges(|nodes|)
    ensures OutFirst(nodes, st) == null <==> OutLast(nodes, st) == null
  {}

  /** The position of the node that joins the output, and what is known of the heap just before. */
  ghost function Entering(nodes: seq<ListHead>, st: Merge, left: bool): (x: nat)
    requires Heap(nodes, st) && (if left then st.a else st.b) != []
    reads nodes`next
    ensures x < |nodes| && x == if left then st.a[0] else (st.b + st.rest)[0]
    ensures nodes[x] == if left then LeftHead(nodes, st) else RightHead(nodes, st)
    ensures InRange(st.out + st.m, |nodes|) && InRange(st.a, |nodes|) && InRange(st.b + st.rest, |nodes|)
    ensures InRange(st.out + st.m + [x], |nodes|) && st.InRanges(|nodes|)
    ensures AllApart(st.out + st.m, st.a, st.b + st.rest) && Linked(nodes, st.out + st.m)
    ensures Linked(nodes, st.a) && Chain(nodes, st.b + st.rest)
    ensures OutLast(nodes, st) == Last(nodes, st.out + st.m)
    ensures OutLast(nodes, st) == null <==> st.out + st.m == []
  {
    if left then st.a[0] else (st.b + st.rest)[0]
  }

  /** Line 569: only the last link of the output is written, and no other chain contains that node. */
  method Extend(ghost nodes: seq<ListHead>, ghost s: seq<nat>, ghost a: seq<nat>, ghost u: seq<nat>,
                tail: ListHead?, e: ListHead, ghost x: nat, ghost cmp: Cmp, ghost res: Results?, ghost walk: Walk)
    requires InRange(s, |nodes|) && InRange(a, |nodes|) && InRange(u, |nodes|) && x < |nodes| && e == nodes[x]
    requires Distinct(nodes) && AllApart(s, a, u) && Linked(nodes, s) && Linked(nodes, a) && Chain(nodes, u)
    requires InRange(s + [x], |nodes|) && tail == Last(nodes, s) && OnWalk(nodes, cmp, res, walk)
    modifies nodes`next
    ensures Kept(nodes, res) == old(Kept(nodes, res)) && OnWalk(nodes, cmp, res, walk)
    ensures Keys(nodes, cmp) == old(Keys(nodes, cmp)) && Marks(nodes, cmp) == old(Marks(nodes, cmp))
    ensures Linked(nodes, s + [x]) && Linked(nodes, a) && Chain(nodes, u)
  {
    hide AllApart, Infos, Kept, Keys, Marks, OnWalk;
    if s != [] { LastElsewhere(s, a, u); }
    if tail != null {
      SetNext(nodes, tail, e, cmp, res, walk);
    }
  }

  /** One link is written: nothing but the links is different. */
  method SetNext(ghost nodes: seq<ListHead>, node: ListHead, next: ListHead?, ghost cmp: Cmp, ghost res: Results?,
                 ghost walk: Walk)
    requires OnWalk(nodes, cmp, res, walk)
    modifies node`next
    ensures node.next == next && Kept(nodes, res) == old(Kept(nodes, res)) && OnWalk(nodes, cmp, res, walk)
    ensures Keys(nodes, cmp) == old(Keys(nodes, cmp)) && Marks(nodes, cmp) == old(Marks(nodes, cmp))
  {
    hide Kept, Keys, Marks, OnWalk;
    node.next := next;
  }

  lemma LastElsewhere(s: seq<nat>, a: seq<nat>, u: seq<nat>)
    requires AllApart(s, a, u) && s != []
    ensures forall i :: 0 <= i < |s| - 1 ==> s[i] != s[|s| - 1]
    ensures forall i :: 0 <= i < |a| ==> a[i] != s[|s| - 1]
    ensures forall i :: 0 <= i < |u| ==> u[i] != s[|s| - 1]
  {}

  lemma TakeHeap(nodes: seq<ListHead>, st: Merge, left: bool, x: nat)
    requires (if left then st.a else st.b) != [] && x == if left then st.a[0] else (st.b + st.rest)[0]
    requires st.InRanges(|nodes|) && AllApart(st.out + st.m, st.a, st.b + st.rest)
    requires x < |nodes| && InRange(st.out + st.m + [x], |nodes|) && Linked(nodes, st.out + st.m + [x])
    requires Linked(nodes, st.a) && Chain(nodes, st.b + st.rest)
    ensures Heap(nodes, st.Take(left))
    ensures OutLast(nodes, st.Take(left)) == nodes[x]
    ensures OutFirst(nodes, st.Take(left)) == if OutLast(nodes, st) == null then nodes[x] else OutFirst(nodes, st)
  {
    hide AllApart, Linked, Chain;
    st.TakeRanges(|nodes|, left);
    TakePieces(nodes, st.out + st.m, st.a, st.b + st.rest, left, x);
  }

  lemma TakePieces(nodes: seq<ListHead>, s: seq<nat>, a: seq<nat>, u: seq<nat>, left: bool, x: nat)
    requires (if left then a else u) != [] && AllApart(s, a, u) && x == if left then a[0] else u[0]
    requires InRange(a, |nodes|) && InRange(u, |nodes|) && Linked(nodes, a) && Chain(nodes, u)
    requires InRange(s + [x], |nodes|) && Linked(nodes, s + [x])
    ensures if left then Pieces(nodes, s + [a[0]], a[1..], u) else Pieces(nodes, s + [u[0]], a, u[1..])
  {}

  // ---------------------------------------------------------------------------
  // Lines 514-579: step over the first run and merge it with the second
  // ---------------------------------------------------------------------------

  method StepOver(ghost nodes: seq<ListHead>, p: ListHead, insize: nat,
                  ghost a: seq<nat>, ghost rest: seq<nat>) returns (q: ListHead?, psize: nat)
    requires InRange(a, |nodes|) && InRange(rest, |nodes|)
    requires Chain(nodes, a + rest) && p == First(nodes, a + rest)
    requires 0 < |a| <= insize && (rest != [] ==> |a| == insize)
    ensures psize == |a| && q == First(nodes, rest)
  {
    ghost var s := a + rest;
    q := p;
    psize := 0;
    for i := 0 to insize
      invariant psize == i <= |a| && i < |s| && q == nodes[s[i]]
    {
      psize := psize + 1;
      assert i + 1 < |s| ==> nodes[s[i]].next == nodes[s[i + 1]];
      q := q.next;
      if q == null {
        break;
      }
    }
    assert psize == |a| && (rest != [] ==> s[|a|] == rest[0]);
  }

  /** A comparison of two items, in terms of all of them. */
  lemma BothVisited(cmp: Cmp, bench: Bench, a: ListData, b: ListData, m: Memory, m': Memory, pair: Memory,
                    pair': Memory)
    requires a in m.words && b in m.words && m'.words.Keys == m.words.Keys
    requires pair.words.Keys == pair'.words.Keys == {a, b} && pair' == VisitBoth(cmp, bench, pair, a, b)
    requires pair.words[a] == m.words[a] && pair.words[b] == m.words[b] && pair.acc == m.acc
    requires pair'.words[a] == m'.words[a] && pair'.words[b] == m'.words[b] && pair'.acc == m'.acc
    requires forall d :: d in m.words && d != a && d != b ==> m'.words[d] == m.words[d]
    ensures m' == VisitBoth(cmp, bench, m, a, b)
  {
    hide Visit;
  }

  /** The comparison of two items of the list: no other item is written. */
  method CompareItems(ghost nodes: seq<ListHead>, cmp: Cmp, a: ListData, b: ListData, res: Results?) returns (r: int)
    requires a in Infos(nodes) && b in Infos(nodes) && Callable(cmp, res)
    modifies a`data16, b`data16
    modifies if res == null then {} else {res}
    ensures Seen(cmp, a) && Seen(cmp, b)
    ensures r == Key(cmp, a) - Key(cmp, b)
    ensures Backup(a.data16) == old(Backup(a.data16)) && Backup(b.data16) == old(Backup(b.data16))
    ensures old(Seen(cmp, a)) ==> a.data16 == old(a.data16) && Key(cmp, a) == old(Key(cmp, a))
    ensures old(Seen(cmp, b)) ==> b.data16 == old(b.data16) && Key(cmp, b) == old(Key(cmp, b))
    ensures res != null ==> res.seed3 == old(res.seed3) && res.list == old(res.list) && res.crclist == old(res.crclist)
    ensures a in old(MemoryOf(nodes, res)).words && b in old(MemoryOf(nodes, res)).words
    ensures MemoryOf(nodes, res) == VisitBoth(cmp, BenchOf(res), old(MemoryOf(nodes, res)), a, b)
  {
    hide AccOf, BenchOf, Cached, Value, Backup, Regenerated, Key, Seen, Callable, MemoryOf, Pair, VisitBoth;
    ghost var m, pair := MemoryOf(nodes, res), Pair(a, b, res);
    r := Compare(cmp, a, b, res);
    assert Infos(nodes) == old(Infos(nodes));
    BothVisited(cmp, BenchOf(res), a, b, m, MemoryOf(nodes, res), pair, Pair(a, b, res));
  }

  /** The comparison of the items at positions i and j: the walk goes on. */
  method CompareOn(ghost nodes: seq<ListHead>, ghost i: nat, ghost j: nat, cmp: Cmp, a: ListData, b: ListData,
                   res: Results?, ghost walk: Walk) returns (r: int)
    requires i < |nodes| && j < |nodes| && a == nodes[i].info && b == nodes[j].info && Callable(cmp, res)
    requires OnWalk(nodes, cmp, res, walk) && i <= walk.visited && j <= Reach(walk.visited, i)
    modifies a`data16, b`data16
    modifies if res == null then {} else {res}
    ensures OnWalk(nodes, cmp, res, walk.To(i).To(j))
    ensures Seen(cmp, a) && Seen(cmp, b)
    ensures r == Key(cmp, a) - Key(cmp, b)
    ensures Backup(a.data16) == old(Backup(a.data16)) && Backup(b.data16) == old(Backup(b.data16))
    ensures old(Seen(cmp, a)) ==> a.data16 == old(a.data16) && Key(cmp, a) == old(Key(cmp, a))
    ensures old(Seen(cmp, b)) ==> b.data16 == old(b.data16) && Key(cmp, b) == old(Key(cmp, b))
    ensures res != null ==> res.seed3 == old(res.seed3) && res.list == old(res.list) && res.crclist == old(res.crclist)
  {
    hide *;
    WalkParts(nodes, cmp, res, walk);
    ghost var m := MemoryOf(nodes, res);
    InfoAt(nodes, i);
    InfoAt(nodes, j);
    r := CompareItems(nodes, cmp, a, b, res);
    WalkNext(nodes, cmp, res, walk, i, j, m);
  }

  lemma InfoAt(nodes: seq<ListHead>, i: nat)
    requires i < |nodes|
    ensures nodes[i].info in Infos(nodes)
  {}

  lemma WalkParts(nodes: seq<ListHead>, cmp: Cmp, res: Results?, walk: Walk)
    requires OnWalk(nodes, cmp, res, walk)
    ensures walk.items == Items(nodes) && walk.visited <= |nodes| && Covers(walk.start, walk.items)
    ensures MemoryOf(nodes, res) == Toured(cmp, BenchOf(res), walk.start, walk.items, walk.visited)
  {}

  lemma WalkNext(nodes: seq<ListHead>, cmp: Cmp, res: Results?, walk: Walk, i: nat, j: nat, m: Memory)
    requires i < |nodes| && j < |nodes| && i <= walk.visited <= |nodes| && j <= Reach(walk.visited, i)
    requires walk.items == Items(nodes) && Covers(walk.start, walk.items)
    requires m == Toured(cmp, BenchOf(res), walk.start, walk.items, walk.visited)
    requires nodes[i].info in m.words && nodes[j].info in m.words
    requires MemoryOf(nodes, res) == VisitBoth(cmp, BenchOf(res), m, nodes[i].info, nodes[j].info)
    ensures OnWalk(nodes, cmp, res, walk.To(i).To(j))
  {
    hide BenchOf, Items, MemoryOf, Toured, VisitItem;
    TouredNext(cmp, BenchOf(res), walk.start, walk.items, walk.visited, i);
    TouredNext(cmp, BenchOf(res), walk.start, walk.items, Reach(walk.visited, i), j);
  }

  /** The comparison of the nodes at positions i and j. */
  method CompareAt(ghost nodes: seq<ListHead>, ghost i: nat, ghost j: nat, p: ListHead, q: ListHead,
                   cmp: Cmp, res: Results?, ghost walk: Walk) returns (r: int)
    requires i < |nodes| && j < |nodes| && p == nodes[i] && q == nodes[j] && Callable(cmp, res)
    requires OnWalk(nodes, cmp, res, walk) && i <= walk.visited && j <= Reach(walk.visited, i)
    modifies Infos(nodes)`data16
    modifies if res == null then {} else {res}
    ensures Evolves(old(Keys(nodes, cmp)), old(Marks(nodes, cmp)), Keys(nodes, cmp), Marks(nodes, cmp))
    ensures |Keys(nodes, cmp)| == |Marks(nodes, cmp)| == |nodes|
    ensures Marks(nodes, cmp)[i] && Marks(nodes, cmp)[j]
    ensures r == Keys(nodes, cmp)[i] - Keys(nodes, cmp)[j]
    ensures Kept(nodes, res) == old(Kept(nodes, res)) && OnWalk(nodes, cmp, res, walk.To(i).To(j))
  {
    hide Cached, Value, Backup, Regenerated;
    hide Key, Seen, Keys, Marks, Backups, Callable, OnWalk;
    r := CompareOn(nodes, i, j, cmp, p.info, q.info, res, walk);
    forall k | 0 <= k < |nodes|
      ensures old(Seen(cmp, nodes[k].info)) ==>
        Seen(cmp, nodes[k].info) && Key(cmp, nodes[k].info) == old(Key(cmp, nodes[k].info))
      ensures Backup(nodes[k].info.data16) == old(Backup(nodes[k].info.data16))
    {
      assert nodes[k].info == old(nodes[k].info);
    }
    assert Backups(nodes) == old(Backups(nodes));
  }

  /** Every comparison that a merge of a and b may make is of items visited before, or of the next two. */
  predicate Due(a: seq<nat>, b: seq<nat>, v: nat) {
    forall i, j :: 0 <= i < |a| && 0 <= j < |b| ==> a[i] <= v && b[j] <= Reach(v, a[i])
  }

  /** The walk after the next step of a merge. */
  function Compared(walk: Walk, st: Merge): Walk {
    if st.a != [] && st.b != [] then walk.To(st.a[0]).To(st.b[0]) else walk
  }

  /** Lines 535-564: decide whether the next node of the merge comes from p or from q. */
  method Choose(ghost nodes: seq<ListHead>, ghost st: Merge, p0: ListHead?, q0: ListHead?, psize0: nat, qsize0: nat,
                cmp: Cmp, res: Results?, ghost walk: Walk)
    returns (e: ListHead, p: ListHead?, q: ListHead?, psize: nat, qsize: nat, ghost left: bool)
    requires Callable(cmp, res) && Heap(nodes, st) && st.InRanges(|nodes|)
    requires OnWalk(nodes, cmp, res, walk) && Due(st.a, st.b, walk.visited)
    requires psize0 == |st.a| && (qsize0 > 0 && q0 != null <==> st.b != []) && (psize0 > 0 || st.b != [])
    requires (st.a != [] ==> p0 == LeftHead(nodes, st)) && q0 == RightHead(nodes, st)
    modifies Infos(nodes)`data16
    modifies if res == null then {} else {res}
    ensures (if left then st.a else st.b) != [] && e == if left then LeftHead(nodes, st) else RightHead(nodes, st)
    ensures psize == |st.Take(left).a| && qsize - |st.Take(left).b| == qsize0 - |st.b|
    ensures |st.Take(left).a| + |st.Take(left).b| == |st.a| + |st.b| - 1 && |st.Take(left).b| <= |st.b|
    ensures st.Take(left).out == st.out && st.Take(left).rest == st.rest
    ensures st.Take(left).InRanges(|nodes|) && q == RightHead(nodes, st.Take(left))
    ensures st.Take(left).a != [] ==> p == LeftHead(nodes, st.Take(left))
    ensures Evolves(old(Keys(nodes, cmp)), old(Marks(nodes, cmp)), Keys(nodes, cmp), Marks(nodes, cmp))
    ensures Chosen(nodes, st, cmp, left)
    ensures Kept(nodes, res) == old(Kept(nodes, res)) && OnWalk(nodes, cmp, res, Compared(walk, st))
  {
    hide OnWalk;
    hide Heap, Merge.InRanges, Cached, Value, Backup, Regenerated, Key, Seen, Backups, Callable, Evolves;
    hide LeftHead, RightHead;
    EvolvesRefl(Keys(nodes, cmp), Marks(nodes, cmp));
    NextHeads(nodes, st);
    if st.a != [] { NextLeft(nodes, st); }
    if st.b != [] { NextRight(nodes, st); }
    p, q, psize, qsize := p0, q0, psize0, qsize0;
    left := st.b == [];
    if psize == 0 {
      e := q;
      q := q.next;
      qsize := qsize - 1;
    } else if qsize == 0 || q == null {
      e := p;
      p := p.next;
      psize := psize - 1;
    } else {
      var c := CompareAt(nodes, st.a[0], (st.b + st.rest)[0], p, q, cmp, res, walk);
      if c <= 0 {
        e := p;
        p := p.next;
        psize := psize - 1;
        left := true;
      } else {
        e := q;
        q := q.next;
        qsize := qsize - 1;
      }
    }
  }

  /** Both heads were compared, and the left one goes first exactly when its key is not larger. */
  predicate Chosen(nodes: seq<ListHead>, st: Merge, cmp: Cmp, left: bool)
    requires st.InRanges(|nodes|)
    reads nodes`info, Infos(nodes)
  {
    st.a != [] && st.b != [] ==>
      var i, j := st.a[0], (st.b + st.rest)[0];
      && Marks(nodes, cmp)[i] && Marks(nodes, cmp)[j]
      && left == (Keys(nodes, cmp)[i] <= Keys(nodes, cmp)[j])
  }

  /** The state between two iterations of the merge loop (line 532). */
  predicate InMerge(nodes: seq<ListHead>, start: Merge, st: Merge, cmp: Cmp, list: ListHead?, tail: ListHead?,
                    p: ListHead?, q: ListHead?, psize: nat, qsize: nat, insize: nat)
    reads nodes, Infos(nodes)
  {
    && st.out == start.out && st.rest == start.rest && |st.b| <= |start.b|
    && |start.b| <= insize && (st.rest != [] ==> |start.b| == insize)
    && psize == |st.a| && qsize == insize - |start.b| + |st.b|
    && Heap(nodes, st) && st.Merges(Keys(nodes, cmp), Marks(nodes, cmp), start.a, start.b)
    && list == OutFirst(nodes, st) && tail == OutLast(nodes, st)
    && (st.a != [] ==> p == LeftHead(nodes, st)) && q == RightHead(nodes, st)
  }

  lemma MoreToMerge(nodes: seq<ListHead>, start: Merge, st: Merge, cmp: Cmp, list: ListHead?, tail: ListHead?,
                    p: ListHead?, q: ListHead?, psize: nat, qsize: nat, insize: nat)
    requires InMerge(nodes, start, st, cmp, list, tail, p, q, psize, qsize, insize)
    ensures qsize > 0 && q != null <==> st.b != []
    ensures psize > 0 <==> st.a != []
  {
    hide Merge.Merges;
    NextHeads(nodes, st);
  }

  /** One iteration: choose a node and add it to the merged list. */
  method MergeStep(ghost nodes: seq<ListHead>, list0: ListHead?, tail0: ListHead?, p0: ListHead?, q0: ListHead?,
                   psize0: nat, qsize0: nat, ghost insize: nat, cmp: Cmp, res: Results?,
                   ghost start: Merge, ghost st: Merge, ghost walk: Walk)
    returns (list: ListHead, tail: ListHead, p: ListHead?, q: ListHead?, psize: nat, qsize: nat, ghost st': Merge)
    requires Distinct(nodes) && Callable(cmp, res)
    requires InMerge(nodes, start, st, cmp, list0, tail0, p0, q0, psize0, qsize0, insize)
    requires psize0 > 0 || (qsize0 > 0 && q0 != null)
    requires OnWalk(nodes, cmp, res, walk) && Due(st.a, st.b, walk.visited)
    modifies nodes`next, Infos(nodes)`data16
    modifies if res == null then {} else {res}
    ensures InMerge(nodes, start, st', cmp, list, tail, p, q, psize, qsize, insize)
    ensures |st'.a| + |st'.b| < |st.a| + |st.b|
    ensures OnWalk(nodes, cmp, res, Compared(walk, st)) && Due(st'.a, st'.b, Compared(walk, st).visited)
    ensures Evolves(old(Keys(nodes, cmp)), old(Marks(nodes, cmp)), Keys(nodes, cmp), Marks(nodes, cmp))
    ensures Kept(nodes, res) == old(Kept(nodes, res))
  {
    hide InRange, First, Last, Linked, Chain, Distinct, AllApart, AllBelow, RunOk, Callable, Evolves;
    hide Heap, Pieces, Merge.InRanges, Merge.Merges, Merge.Take, OutFirst, OutLast, LeftHead, RightHead;
    hide Keys, Marks, Kept, Chosen, OnWalk, Due, Compared;
    MoreToMerge(nodes, start, st, cmp, list0, tail0, p0, q0, psize0, qsize0, insize);
    HeapRanges(nodes, st);
    var e;
    ghost var left;
    e, p, q, psize, qsize, left := Choose(nodes, st, p0, q0, psize0, qsize0, cmp, res, walk);
    AfterChoice(nodes, st, cmp, left, old(Keys(nodes, cmp)), old(Marks(nodes, cmp)), start.a, start.b);
    list, tail := Append(nodes, st, left, list0, tail0, e, cmp, res, Compared(walk, st));
    st' := st.Take(left);
    DueNext(st, left, walk);
  }

  lemma DueNext(st: Merge, left: bool, walk: Walk)
    requires (if left then st.a else st.b) != [] && Due(st.a, st.b, walk.visited)
    ensures Due(st.Take(left).a, st.Take(left).b, Compared(walk, st).visited)
  {}

  lemma HeapRanges(nodes: seq<ListHead>, st: Merge)
    requires Heap(nodes, st)
    ensures st.InRanges(|nodes|)
  {}

  /** How far a merge of a and b has brought the walk: not at all without b, and past both if they are single nodes. */
  predicate Merged(walk: Walk, next: Walk, a: seq<nat>, b: seq<nat>) {
    && next == walk.(visited := next.visited) && walk.visited <= next.visited
    && (b == [] ==> next == walk) && (|a| == |b| == 1 ==> next == walk.To(a[0]).To(b[0]))
  }

  predicate Merging(walk: Walk, next: Walk, start: Merge, st: Merge) {
    && next == walk.(visited := next.visited) && walk.visited <= next.visited
    && |st.a| + |st.b| <= |start.a| + |start.b| && (start.b == [] ==> next == walk)
    && (if |st.a| + |st.b| == |start.a| + |start.b| then st == start && next == walk
        else |start.a| == |start.b| == 1 ==> next == walk.To(start.a[0]).To(start.b[0]))
  }

  lemma MergingStart(walk: Walk, start: Merge)
    ensures Merging(walk, walk, start, start)
  {}

  lemma MergingNext(walk: Walk, next: Walk, start: Merge, st: Merge, st': Merge)
    requires Merging(walk, next, start, st) && |st.b| <= |start.b| && |st'.a| + |st'.b| < |st.a| + |st.b|
    ensures Merging(walk, Compared(next, st), start, st')
  {}

  lemma MergingEnd(walk: Walk, next: Walk, start: Merge, st: Merge)
    requires Merging(walk, next, start, st) && st.a == [] && st.b == [] && start.a != []
    ensures Merged(walk, next, start.a, start.b)
  {}

  lemma InMergeRight(nodes: seq<ListHead>, start: Merge, st: Merge, cmp: Cmp, list: ListHead?, tail: ListHead?,
                     p: ListHead?, q: ListHead?, psize: nat, qsize: nat, insize: nat)
    requires InMerge(nodes, start, st, cmp, list, tail, p, q, psize, qsize, insize)
    ensures |st.b| <= |start.b|
  {}

  method MergeTwo(ghost nodes: seq<ListHead>, list0: ListHead?, tail0: ListHead?, p0: ListHead, q0: ListHead?,
                  psize0: nat, insize: nat, cmp: Cmp, res: Results?, ghost start: Merge, ghost walk: Walk)
    returns (list: ListHead, tail: ListHead, q: ListHead?, ghost m: seq<nat>, ghost next: Walk)
    requires Distinct(nodes) && Callable(cmp, res) && start.a != []
    requires InMerge(nodes, start, start, cmp, list0, tail0, p0, q0, psize0, insize, insize)
    requires OnWalk(nodes, cmp, res, walk) && Due(start.a, start.b, walk.visited)
    modifies nodes`next, Infos(nodes)`data16
    modifies if res == null then {} else {res}
    ensures Evolves(old(Keys(nodes, cmp)), old(Marks(nodes, cmp)), Keys(nodes, cmp), Marks(nodes, cmp))
    ensures RunOk(Keys(nodes, cmp), Marks(nodes, cmp), m) && Mixes(m, start.a, start.b)
    ensures Pieces(nodes, start.out + m, [], start.rest)
    ensures list == First(nodes, start.out + m) && tail == Last(nodes, start.out + m) && q == First(nodes, start.rest)
    ensures Kept(nodes, res) == old(Kept(nodes, res))
    ensures OnWalk(nodes, cmp, res, next) && Merged(walk, next, start.a, start.b)
  {
    hide InRange, First, Last, Linked, Chain, Distinct, AllApart, AllBelow, RunOk, Mixes, Callable, Evolves;
    hide Heap, Pieces, InMerge, Keys, Marks, Kept, OnWalk, Due, Merging, Merged, Compared;
    ghost var st := start;
    next := walk;
    MergingStart(walk, start);
    var p: ListHead?, psize, qsize := p0, psize0, insize;
    var l, t: ListHead? := list0, tail0;
    q := q0;
    KeysLength(nodes, cmp);
    EvolvesRefl(Keys(nodes, cmp), Marks(nodes, cmp));
    while psize > 0 || (qsize > 0 && q != null)
      invariant InMerge(nodes, start, st, cmp, l, t, p, q, psize, qsize, insize)
      invariant OnWalk(nodes, cmp, res, next) && Due(st.a, st.b, next.visited) && Merging(walk, next, start, st)
      invariant Evolves(old(Keys(nodes, cmp)), old(Marks(nodes, cmp)), Keys(nodes, cmp), Marks(nodes, cmp))
      invariant Kept(nodes, res) == old(Kept(nodes, res))
      decreases |st.a| + |st.b|
    {
      ghost var ks, pr := Keys(nodes, cmp), Marks(nodes, cmp);
      ghost var was := st;
      InMergeRight(nodes, start, st, cmp, l, t, p, q, psize, qsize, insize);
      l, t, p, q, psize, qsize, st := MergeStep(nodes, l, t, p, q, psize, qsize, insize, cmp, res, start, st, next);
      MergingNext(walk, next, start, was, st);
      next := Compared(next, was);
      EvolvesTrans(old(Keys(nodes, cmp)), old(Marks(nodes, cmp)), ks, pr, Keys(nodes, cmp), Marks(nodes, cmp));
    }
    m := st.m;
    MoreToMerge(nodes, start, st, cmp, l, t, p, q, psize, qsize, insize);
    MergeEnd(nodes, start, st, cmp, l, t, p, q, psize, qsize, insize);
    MergingEnd(walk, next, start, st);
    list, tail := l, t;
  }

  lemma KeysLength(nodes: seq<ListHead>, cmp: Cmp)
    ensures |Keys(nodes, cmp)| == |Marks(nodes, cmp)| == |nodes|
  {}

  lemma MergeEnd(nodes: seq<ListHead>, start: Merge, st: Merge, cmp: Cmp, list: ListHead?, tail: ListHead?,
                 p: ListHead?, q: ListHead?, psize: nat, qsize: nat, insize: nat)
    requires InMerge(nodes, start, st, cmp, list, tail, p, q, psize, qsize, insize)
    requires st.a == [] && st.b == [] && start.a != []
    ensures RunOk(Keys(nodes, cmp), Marks(nodes, cmp), st.m) && Mixes(st.m, start.a, start.b)
    ensures Pieces(nodes, start.out + st.m, [], start.rest) && q == First(nodes, start.rest)
    ensures list != null && list == First(nodes, start.out + st.m)
    ensures tail != null && tail == Last(nodes, start.out + st.m)
  {
    hide Pieces, RunOk, AllBelow;
    assert st.m + st.a == st.m && st.b + st.rest == st.rest;
    assert st.m != [] by {
      assert multiset(start.a)[start.a[0]] > 0;
    }
  }

  lemma AfterChoice(nodes: seq<ListHead>, st: Merge, cmp: Cmp, left: bool,
                    ks: seq<int>, pr: seq<bool>, a0: seq<nat>, b0: seq<nat>)
    requires (if left then st.a else st.b) != [] && st.InRanges(|nodes|) && st.Merges(ks, pr, a0, b0)
    requires Evolves(ks, pr, Keys(nodes, cmp), Marks(nodes, cmp)) && Chosen(nodes, st, cmp, left)
    ensures st.Take(left).Merges(Keys(nodes, cmp), Marks(nodes, cmp), a0, b0)
  {
    hide Merge.Merges;
    st.KeysChange(ks, pr, Keys(nodes, cmp), Marks(nodes, cmp), a0, b0);
    st.TakeHead(Keys(nodes, cmp), Marks(nodes, cmp), a0, b0, left);
  }

  lemma MergeStart(nodes: seq<ListHead>, out: seq<nat>, a0: seq<nat>, b0: seq<nat>, rest: seq<nat>, cmp: Cmp)
    requires InRange(out, |nodes|) && InRange(a0, |nodes|) && InRange(b0, |nodes|) && InRange(b0 + rest, |nodes|)
    requires AllApart(out, a0, b0 + rest) && Linked(nodes, out) && Chain(nodes, a0 + (b0 + rest)) && a0 != []
    requires RunOk(Keys(nodes, cmp), Marks(nodes, cmp), a0) && RunOk(Keys(nodes, cmp), Marks(nodes, cmp), b0)
    requires AllBelow(a0, b0)
    ensures var st := Merge(out, [], a0, b0, rest);
      && Heap(nodes, st) && st.Merges(Keys(nodes, cmp), Marks(nodes, cmp), a0, b0)
      && OutFirst(nodes, st) == First(nodes, out) && OutLast(nodes, st) == Last(nodes, out)
      && LeftHead(nodes, st) == First(nodes, a0 + (b0 + rest)) && RightHead(nodes, st) == First(nodes, b0 + rest)
  {
    hide AllApart, RunOk, AllBelow;
    var m: seq<nat> := [];
    assert out + m == out && m + a0 == a0 && m + b0 == b0;
    PiecesSplit(nodes, out, a0, b0 + rest);
  }

  // ---------------------------------------------------------------------------
  // Lines 506-582: one pass over the list
  // ---------------------------------------------------------------------------

  /** The state between two merges of a pass (line 512). */
  predicate InPass(nodes: seq<ListHead>, cmp: Cmp, out: seq<seq<nat>>, rest: seq<seq<nat>>, insize: nat,
                   list: ListHead?, tail: ListHead?, p: ListHead?)
    reads nodes, Infos(nodes)
  {
    && Passing(Keys(nodes, cmp), Marks(nodes, cmp), out, rest, insize)
    && Pieces(nodes, Flat(out), [], Flat(rest))
    && list == First(nodes, Flat(out)) && tail == Last(nodes, Flat(out)) && p == First(nodes, Flat(rest))
  }

  lemma MoreRuns(nodes: seq<ListHead>, cmp: Cmp, out: seq<seq<nat>>, rest: seq<seq<nat>>, insize: nat,
                 list: ListHead?, tail: ListHead?, p: ListHead?)
    requires InPass(nodes, cmp, out, rest, insize, list, tail, p)
    ensures p != null <==> rest != []
    ensures tail != null <==> out != []
    ensures list != null <==> out != []
  {
    hide AllApart, Linked, Chain, RunsOk, Sized, Flat, Keys, Marks;
    FlatNonEmpty(rest, insize);
    FlatNonEmpty(out, 2 * insize);
  }

  /**
   In the first pass the runs to come are the single nodes that the walk has not reached; from the second pass on it
   has reached all nodes but perhaps the last.
   */
  predicate Unvisited(rest: seq<seq<nat>>, v: nat, n: nat) {
    && (n == 1 ==> v == 0 && |rest| <= 1)
    && (v + 1 >= n || (v + |rest| == n && forall k :: 0 <= k < |rest| ==> rest[k] == [v + k]))
  }

  lemma RunsDue(nodes: seq<ListHead>, rest: seq<seq<nat>>, v: nat)
    requires rest != [] && Unvisited(rest, v, |nodes|)
    requires InRange(rest[0], |nodes|) && InRange(Second(rest) + Flat(Later(rest)), |nodes|)
    ensures Due(rest[0], Second(rest), v)
  {
    hide Flat, Later;
    forall j | 0 <= j < |Second(rest)| ensures Second(rest)[j] < |nodes| {
      assert (Second(rest) + Flat(Later(rest)))[j] == Second(rest)[j];
    }
  }

  lemma StillUnvisited(rest: seq<seq<nat>>, walk: Walk, next: Walk, n: nat)
    requires rest != [] && Unvisited(rest, walk.visited, n) && Merged(walk, next, rest[0], Second(rest))
    ensures Unvisited(Later(rest), next.visited, n) && next == walk.(visited := next.visited)
  {}

  /** Merge the first two runs of the rest of the list. */
  method PassOnce(ghost nodes: seq<ListHead>, list0: ListHead?, tail0: ListHead?, p0: ListHead, insize: nat,
                  cmp: Cmp, res: Results?, ghost out: seq<seq<nat>>, ghost rest: seq<seq<nat>>, ghost walk: Walk)
    returns (list: ListHead, tail: ListHead, p: ListHead?, ghost m: seq<nat>, ghost next: Walk)
    requires Distinct(nodes) && Callable(cmp, res) && rest != []
    requires InPass(nodes, cmp, out, rest, insize, list0, tail0, p0)
    requires OnWalk(nodes, cmp, res, walk) && Unvisited(rest, walk.visited, |nodes|)
    modifies nodes`next, Infos(nodes)`data16
    modifies if res == null then {} else {res}
    ensures InPass(nodes, cmp, out + [m], Later(rest), insize, list, tail, p)
    ensures OnWalk(nodes, cmp, res, next) && Unvisited(Later(rest), next.visited, |nodes|)
    ensures next == walk.(visited := next.visited)
    ensures Evolves(old(Keys(nodes, cmp)), old(Marks(nodes, cmp)), Keys(nodes, cmp), Marks(nodes, cmp))
    ensures Kept(nodes, res) == old(Kept(nodes, res))
  {
    hide InRange, First, Last, Linked, Chain, Distinct, AllApart, AllBelow, RunOk, Mixes, Callable, Evolves;
    hide Heap, Pieces, InMerge, Keys, Marks, Kept, RunsOk, Passing, Flat, Second, Later, Sized, InPass;
    hide OnWalk, Due, Merged, Unvisited;
    ghost var start := Merge(Flat(out), [], rest[0], Second(rest), Flat(Later(rest)));
    ghost var ks, pr := Keys(nodes, cmp), Marks(nodes, cmp);
    PassMerge(nodes, cmp, out, rest, insize, list0, tail0, p0);
    ConcatRange(rest[0], Second(rest) + Flat(Later(rest)), |nodes|);
    var q, psize := StepOver(nodes, p0, insize, rest[0], Second(rest) + Flat(Later(rest)));
    EnterMerge(nodes, cmp, out, rest, insize, list0, tail0, p0, q, psize);
    RunsDue(nodes, rest, walk.visited);
    list, tail, p, m, next := MergeTwo(nodes, list0, tail0, p0, q, psize, insize, cmp, res, start, walk);
    StillUnvisited(rest, walk, next, |nodes|);
    LeaveMerge(nodes, cmp, out, rest, insize, ks, pr, m, list, tail, p);
  }

  /** What StepOver needs to know: the rest of the list is its first run and what lies behind it. */
  lemma PassMerge(nodes: seq<ListHead>, cmp: Cmp, out: seq<seq<nat>>, rest: seq<seq<nat>>, insize: nat,
                  list: ListHead?, tail: ListHead?, p: ListHead?)
    requires InPass(nodes, cmp, out, rest, insize, list, tail, p) && rest != []
    ensures Flat(rest) == rest[0] + (Second(rest) + Flat(Later(rest)))
    ensures InRange(Flat(rest), |nodes|) && Chain(nodes, Flat(rest)) && p == First(nodes, Flat(rest))
    ensures 0 < |rest[0]| <= insize && (Second(rest) + Flat(Later(rest)) != [] ==> |rest[0]| == insize)
    ensures Passing(Keys(nodes, cmp), Marks(nodes, cmp), out, rest, insize)
  {
    hide AllApart, Linked, Chain, First, Last, Keys, Marks, Flat, Second, Later, RunsOk, InRange, Sized;
    SplitRest(rest, insize);
  }

  lemma EnterMerge(nodes: seq<ListHead>, cmp: Cmp, out: seq<seq<nat>>, rest: seq<seq<nat>>, insize: nat,
                   list: ListHead?, tail: ListHead?, p: ListHead?, q: ListHead?, psize: nat)
    requires InPass(nodes, cmp, out, rest, insize, list, tail, p) && rest != []
    requires InRange(rest[0], |nodes|) && InRange(Second(rest) + Flat(Later(rest)), |nodes|)
    requires psize == |rest[0]| && q == First(nodes, Second(rest) + Flat(Later(rest)))
    ensures var start := Merge(Flat(out), [], rest[0], Second(rest), Flat(Later(rest)));
      InMerge(nodes, start, start, cmp, list, tail, p, q, psize, insize, insize)
  {
    hide AllApart, Linked, RunOk, AllBelow, RunsOk, InRange, Chain, Sized, Merge.Merges;
    hide Heap, OutFirst, OutLast, LeftHead, RightHead, First, Last;
    SplitRest(rest, insize);
    SecondRun(Keys(nodes, cmp), Marks(nodes, cmp), out, rest);
    SplitApart(Flat(out), rest[0], Second(rest) + Flat(Later(rest)));
    ConcatRange(Second(rest), Flat(Later(rest)), |nodes|);
    MergeStart(nodes, Flat(out), rest[0], Second(rest), Flat(Later(rest)), cmp);
  }

  lemma SplitApart(s: seq<nat>, a: seq<nat>, u: seq<nat>)
    requires AllApart(s, [], a + u)
    ensures AllApart(s, a, u)
  {
    var t := a + u;
    assert forall i :: 0 <= i < |a| ==> t[i] == a[i];
    assert forall i :: 0 <= i < |u| ==> t[|a| + i] == u[i];
  }

  lemma LeaveMerge(nodes: seq<ListHead>, cmp: Cmp, out: seq<seq<nat>>, rest: seq<seq<nat>>, insize: nat,
                   ks: seq<int>, pr: seq<bool>, m: seq<nat>, list: ListHead?, tail: ListHead?, p: ListHead?)
    requires rest != [] && Passing(ks, pr, out, rest, insize)
    requires Evolves(ks, pr, Keys(nodes, cmp), Marks(nodes, cmp))
    requires RunOk(Keys(nodes, cmp), Marks(nodes, cmp), m) && Mixes(m, rest[0], Second(rest))
    requires Pieces(nodes, Flat(out) + m, [], Flat(Later(rest)))
    requires list == First(nodes, Flat(out) + m) && tail == Last(nodes, Flat(out) + m)
    requires p == First(nodes, Flat(Later(rest)))
    ensures InPass(nodes, cmp, out + [m], Later(rest), insize, list, tail, p)
  {
    hide Pieces, RunOk, Passing, Evolves;
    PassStep(ks, pr, out, rest, insize, Keys(nodes, cmp), Marks(nodes, cmp), m);
  }

  /** Line 582: the list ends at the last node of the output. */
  method EndList(ghost nodes: seq<ListHead>, ghost s: seq<nat>, tail: ListHead, ghost cmp: Cmp, ghost res: Results?,
                 ghost walk: Walk)
    requires Distinct(nodes) && Pieces(nodes, s, [], []) && tail == Last(nodes, s) && OnWalk(nodes, cmp, res, walk)
    modifies nodes`next
    ensures Kept(nodes, res) == old(Kept(nodes, res)) && OnWalk(nodes, cmp, res, walk)
    ensures Keys(nodes, cmp) == old(Keys(nodes, cmp)) && Marks(nodes, cmp) == old(Marks(nodes, cmp))
    ensures Pieces(nodes, [], [], s)
  {
    hide Infos, Kept, Keys, Marks, OnWalk;
    SetNext(nodes, tail, null, cmp, res, walk);
  }

  /** One pass: every pair of neighbouring runs becomes one run. */
  method Pass(ghost nodes: seq<ListHead>, list0: ListHead, insize: nat, cmp: Cmp, res: Results?,
              ghost runs: seq<seq<nat>>, ghost walk: Walk)
    returns (list: ListHead, nmerges: nat, ghost out: seq<seq<nat>>, ghost next: Walk)
    requires Distinct(nodes) && Callable(cmp, res)
    requires InPass(nodes, cmp, [], runs, insize, null, null, list0)
    requires OnWalk(nodes, cmp, res, walk) && Unvisited(runs, walk.visited, |nodes|)
    modifies nodes`next, Infos(nodes)`data16
    modifies if res == null then {} else {res}
    ensures InPass(nodes, cmp, [], out, 2 * insize, null, null, list)
    ensures Passing(Keys(nodes, cmp), Marks(nodes, cmp), out, [], insize)
    ensures nmerges == |out| == (|runs| + 1) / 2
    ensures OnWalk(nodes, cmp, res, next) && next == walk.(visited := next.visited)
    ensures next.visited + 1 >= |nodes| && (|nodes| == 1 ==> next.visited == 0) && Unvisited(out, next.visited, |nodes|)
    ensures Evolves(old(Keys(nodes, cmp)), old(Marks(nodes, cmp)), Keys(nodes, cmp), Marks(nodes, cmp))
    ensures Kept(nodes, res) == old(Kept(nodes, res))
  {
    hide InRange, First, Last, Linked, Chain, Distinct, AllApart, Callable, Evolves;
    hide Pieces, Keys, Marks, Kept, Passing, Flat, Later, InPass, OnWalk, Unvisited;
    next := walk;
    var p: ListHead?, l: ListHead?, t: ListHead? := list0, null, null;
    nmerges := 0;
    out := [];
    ghost var rest := runs;
    KeysLength(nodes, cmp);
    EvolvesRefl(Keys(nodes, cmp), Marks(nodes, cmp));
    MoreRuns(nodes, cmp, out, rest, insize, l, t, p);
    while p != null
      invariant InPass(nodes, cmp, out, rest, insize, l, t, p)
      invariant nmerges == |out| && (rest != [] ==> |rest| == |runs| - 2 * |out|)
      invariant rest == [] ==> |out| == (|runs| + 1) / 2
      invariant p != null <==> rest != []
      invariant OnWalk(nodes, cmp, res, next) && Unvisited(rest, next.visited, |nodes|)
      invariant next == walk.(visited := next.visited)
      invariant Evolves(old(Keys(nodes, cmp)), old(Marks(nodes, cmp)), Keys(nodes, cmp), Marks(nodes, cmp))
      invariant Kept(nodes, res) == old(Kept(nodes, res))
      decreases |rest|
    {
      ghost var ks, pr := Keys(nodes, cmp), Marks(nodes, cmp);
      ghost var m;
      nmerges := nmerges + 1;
      l, t, p, m, next := PassOnce(nodes, l, t, p, insize, cmp, res, out, rest, next);
      EvolvesTrans(old(Keys(nodes, cmp)), old(Marks(nodes, cmp)), ks, pr, Keys(nodes, cmp), Marks(nodes, cmp));
      LaterLength(rest);
      out, rest := out + [m], Later(rest);
      MoreRuns(nodes, cmp, out, rest, insize, l, t, p);
    }
    MoreRuns(nodes, cmp, out, rest, insize, l, t, p);
    PassDone(nodes, cmp, out, insize, l, t, p);
    EndList(nodes, Flat(out), t, cmp, res, next);
    AllButLast(next.visited, |nodes|);
    OneRun(runs, walk.visited, |nodes|);
    NextPass(Keys(nodes, cmp), Marks(nodes, cmp), out, insize);
    PassRestart(nodes, cmp, out, insize, l);
    list := l;
  }

  lemma AllButLast(v: nat, n: nat)
    requires Unvisited([], v, n)
    ensures v + 1 >= n && (n == 1 ==> v == 0)
    ensures forall runs :: |runs| <= 1 || n != 1 ==> Unvisited(runs, v, n)
  {}

  lemma OneRun(runs: seq<seq<nat>>, v: nat, n: nat)
    requires Unvisited(runs, v, n)
    ensures n == 1 ==> |runs| <= 1
  {}

  lemma LaterLength(rest: seq<seq<nat>>)
    requires rest != []
    ensures |Later(rest)| == if |rest| >= 2 then |rest| - 2 else 0
  {}

  lemma PassDone(nodes: seq<ListHead>, cmp: Cmp, out: seq<seq<nat>>, insize: nat,
                 list: ListHead?, tail: ListHead?, p: ListHead?)
    requires InPass(nodes, cmp, out, [], insize, list, tail, p)
    ensures Passing(Keys(nodes, cmp), Marks(nodes, cmp), out, [], insize) && Pieces(nodes, Flat(out), [], [])
    ensures list == First(nodes, Flat(out)) && tail == Last(nodes, Flat(out))
  {
    hide Passing, AllApart, Linked, Chain;
    assert Flat([]) == [];
  }

  lemma PassRestart(nodes: seq<ListHead>, cmp: Cmp, out: seq<seq<nat>>, insize: nat, list: ListHead)
    requires Passing(Keys(nodes, cmp), Marks(nodes, cmp), [], out, 2 * insize) && Pieces(nodes, [], [], Flat(out))
    requires list == First(nodes, Flat(out))
    ensures InPass(nodes, cmp, [], out, 2 * insize, null, null, list)
  {
    hide Passing, AllApart, Linked, Chain;
    assert Flat([]) == [];
  }

  // ---------------------------------------------------------------------------
  // core_list_mergesort
  // ---------------------------------------------------------------------------

  /**
   The nodes are relinked into the one stable order by the keys they have in the end, whatever
   the comparator wrote to them on the way. Exactly the same nodes, the last one ending the list.
   A list of two or more nodes has every node visited by a comparison.

   An ee_s32 holds the run length as long as there are at most 2^30 nodes.
   */
  method CoreListMergesort(ghost nodes: seq<ListHead>, list0: ListHead, cmp: Cmp, res: Results?)
    returns (list: ListHead)
    requires Distinct(nodes) && Callable(cmp, res) && 0 < |nodes| <= 0x4000_0000
    requires list0 == nodes[0] && Chain(nodes, Iota(|nodes|))
    modifies nodes`next, Infos(nodes)`data16
    modifies if res == null then {} else {res}
    ensures Chain(nodes, StableOrder(Keys(nodes, cmp))) && list == First(nodes, StableOrder(Keys(nodes, cmp)))
    ensures Evolves(old(Keys(nodes, cmp)), old(Marks(nodes, cmp)), Keys(nodes, cmp), Marks(nodes, cmp))
    ensures |nodes| >= 2 ==> forall k :: 0 <= k < |nodes| ==> Seen(cmp, nodes[k].info)
    ensures Kept(nodes, res) == old(Kept(nodes, res))
    ensures WalkedAlong(cmp, BenchOf(res), Items(nodes), old(MemoryOf(nodes, res)), MemoryOf(nodes, res))
  {
    hide InRange, First, Last, Linked, Chain, Distinct, AllApart, Callable, Evolves, Seen;
    hide Pieces, Keys, Marks, Kept, Passing, Flat, InPass, StableOrder, OnWalk, Unvisited, WalkedAlong, MemoryOf, Items;
    ghost var ds, m := Items(nodes), MemoryOf(nodes, res);
    ghost var walk := Walk(ds, m, 0);
    WalkStarts(nodes, cmp, res);
    NoneVisited(|nodes|);
    var insize := 1;
    list := list0;
    ghost var runs := Singles(|nodes|);
    SortStart(nodes, list0, cmp);
    KeysLength(nodes, cmp);
    EvolvesRefl(Keys(nodes, cmp), Marks(nodes, cmp));
    while true
      invariant 1 <= insize < 0x8000_0000 && runs != []
      invariant InPass(nodes, cmp, [], runs, insize, null, null, list)
      invariant OnWalk(nodes, cmp, res, walk) && Unvisited(runs, walk.visited, |nodes|)
      invariant walk.items == ds && walk.start == m
      invariant Evolves(old(Keys(nodes, cmp)), old(Marks(nodes, cmp)), Keys(nodes, cmp), Marks(nodes, cmp))
      invariant Kept(nodes, res) == old(Kept(nodes, res))
      decreases |runs|
    {
      ghost var ks, pr := Keys(nodes, cmp), Marks(nodes, cmp);
      var nmerges;
      ghost var out;
      list, nmerges, out, walk := Pass(nodes, list, insize, cmp, res, runs, walk);
      EvolvesTrans(old(Keys(nodes, cmp)), old(Marks(nodes, cmp)), ks, pr, Keys(nodes, cmp), Marks(nodes, cmp));
      KeysLength(nodes, cmp);
      if nmerges <= 1 {
        SortDone(nodes, cmp, out, insize, list);
        WalkParts(nodes, cmp, res, walk);
        WalkDone(nodes, cmp, res, walk);
        return;
      }
      NextPass(Keys(nodes, cmp), Marks(nodes, cmp), out, insize);
      insize := insize * 2;
      runs := out;
    }
  }

  /** What a sort leaves in items and results: a single item is not compared, otherwise all are visited in order. */
  predicate WalkedAlong(cmp: Cmp, bench: Bench, ds: seq<ListData>, m: Memory, m': Memory) {
    Covers(m, ds) && m' == Toured(cmp, bench, m, ds, if |ds| == 1 then 0 else |ds|)
  }

  lemma WalkStarts(nodes: seq<ListHead>, cmp: Cmp, res: Results?)
    ensures OnWalk(nodes, cmp, res, Walk(Items(nodes), MemoryOf(nodes, res), 0))
  {
    hide AccOf, BenchOf, Items, MemoryOf, Toured;
    TouredNone(cmp, BenchOf(res), MemoryOf(nodes, res), Items(nodes));
  }

  lemma NoneVisited(n: nat)
    ensures Unvisited(Singles(n), 0, n)
  {}

  /** The last of an odd number of nodes has been visited by the end of the sort too. */
  lemma WalkDone(nodes: seq<ListHead>, cmp: Cmp, res: Results?, walk: Walk)
    requires OnWalk(nodes, cmp, res, walk) && walk.visited + 1 >= |nodes| > 0
    requires |nodes| == 1 ==> walk.visited == 0
    requires |nodes| >= 2 ==> forall k :: 0 <= k < |nodes| ==> Seen(cmp, nodes[k].info)
    ensures WalkedAlong(cmp, BenchOf(res), Items(nodes), walk.start, MemoryOf(nodes, res))
  {
    hide *;
    var n := |nodes|;
    WalkParts(nodes, cmp, res, walk);
    if n >= 2 && walk.visited + 1 == n {
      MemoryAt(nodes, cmp, res, n - 1);
      TouredLast(cmp, BenchOf(res), walk.start, walk.items);
    }
    AlongIs(cmp, BenchOf(res), walk.items, walk.start, MemoryOf(nodes, res));
  }

  lemma MemoryAt(nodes: seq<ListHead>, cmp: Cmp, res: Results?, i: nat)
    requires i < |nodes|
    ensures nodes[i].info in MemoryOf(nodes, res).words
    ensures Seen(cmp, nodes[i].info) ==> SeenWord(cmp, MemoryOf(nodes, res).words[nodes[i].info])
  {
    hide SeenWord, AccOf;
    InfoAt(nodes, i);
  }

  lemma AlongIs(cmp: Cmp, bench: Bench, ds: seq<ListData>, m: Memory, m': Memory)
    requires Covers(m, ds) && m' == Toured(cmp, bench, m, ds, if |ds| == 1 then 0 else |ds|)
    ensures WalkedAlong(cmp, bench, ds, m, m')
  {}

  lemma LinkedEmpty(nodes: seq<ListHead>)
    ensures Linked(nodes, [])
  {}

  lemma SortStart(nodes: seq<ListHead>, list: ListHead, cmp: Cmp)
    requires nodes != [] && list == nodes[0] && Chain(nodes, Iota(|nodes|))
    ensures InPass(nodes, cmp, [], Singles(|nodes|), 1, null, null, list)
  {
    hide Linked, Passing;
    KeysLength(nodes, cmp);
    StartRuns(Keys(nodes, cmp), Marks(nodes, cmp));
    assert Flat([]) == [] && Flat(Singles(|nodes|)) == Iota(|nodes|);
    assert Linked(nodes, []) by { LinkedEmpty(nodes); }
  }

  lemma SortDone(nodes: seq<ListHead>, cmp: Cmp, out: seq<seq<nat>>, insize: nat, list: ListHead)
    requires nodes != [] && |out| <= 1 && Passing(Keys(nodes, cmp), Marks(nodes, cmp), out, [], insize)
    requires InPass(nodes, cmp, [], out, 2 * insize, null, null, list)
    ensures Chain(nodes, StableOrder(Keys(nodes, cmp))) && list == First(nodes, StableOrder(Keys(nodes, cmp)))
    ensures |nodes| >= 2 ==> forall k :: 0 <= k < |nodes| ==> Seen(cmp, nodes[k].info)
  {
    hide Passing, Seen, AllApart, Linked, StableOrder;
    LastPass(Keys(nodes, cmp), Marks(nodes, cmp), out, insize);
    assert |nodes| >= 2 ==> forall k :: 0 <= k < |nodes| ==> Marks(nodes, cmp)[k];
  }
}
