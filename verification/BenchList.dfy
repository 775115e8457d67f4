/**
 core_bench_list: finds, reversals, splices, two sorts and a remove with its undo, all in place,
 and the promise that the list is afterwards back in its original state.

 `nodes` is the list as the benchmark received it; the state of the list at any time is the
 sequence of positions in `nodes` that its links visit.
 */
module BenchList {
  import opened SortOrder
  import opened ListOrder
  import opened ListItems
  import opened Tour
  import opened MergeSort
  import opened BenchSpec
  import Crc

  // ---------------------------------------------------------------------------
  // Arrangements of the list
  // ---------------------------------------------------------------------------

  /** The links of the heap visit the nodes in the order s, starting at list. */
  predicate Ordered(nodes: seq<ListHead>, s: seq<nat>, list: ListHead?)
    reads nodes`next
  {
    Perm(s, |nodes|) && Chain(nodes, s) && list == First(nodes, s)
  }

  // ---------------------------------------------------------------------------
  // core_list_find
  // ---------------------------------------------------------------------------

  /** Whether core_list_find stops at an item: by idx, or by low byte when idx is negative. */
  predicate Matches(d: ListData, idx: s16, data16: bv16)
    reads d
  {
    if idx >= 0 then d.idx == idx else d.data16 & 0xff == data16
  }

  /** The first matching node from `list` on, or null. */
  method CoreListFind(ghost nodes: seq<ListHead>, ghost s: seq<nat>, list: ListHead?, idx: s16, data16: bv16)
    returns (found: ListHead?, ghost k: nat)
    requires InRange(s, |nodes|) && Chain(nodes, s) && list == First(nodes, s)
    ensures k <= |s| && forall i :: 0 <= i < k ==> !Matches(nodes[s[i]].info, idx, data16)
    ensures if k < |s| then found == nodes[s[k]] else found == null
    ensures found != null ==> Matches(found.info, idx, data16)
  {
    found := list;
    k := 0;
    while found != null && !Matches(found.info, idx, data16)
      invariant k <= |s| && forall i :: 0 <= i < k ==> !Matches(nodes[s[i]].info, idx, data16)
      invariant found == if k < |s| then nodes[s[k]] else null
      decreases |s| - k
    {
      found := found.next;
      k := k + 1;
    }
  }

  // ---------------------------------------------------------------------------
  // core_list_reverse
  // ---------------------------------------------------------------------------

  /** Two separate complete chains. */
  predicate TwoChains(nodes: seq<ListHead>, a: seq<nat>, u: seq<nat>)
    reads nodes`next
  {
    && InRange(a, |nodes|) && InRange(u, |nodes|) && NoDup(a) && NoDup(u) && Apart(a, u)
    && Chain(nodes, a) && Chain(nodes, u)
  }

  lemma HeadApart(a: seq<nat>, u: seq<nat>)
    requires u != [] && NoDup(a) && NoDup(u) && Apart(a, u)
    ensures NoDup([u[0]] + a) && NoDup(u[1..]) && Apart([u[0]] + a, u[1..])
    ensures forall k :: 0 <= k < |a| ==> a[k] != u[0]
    ensures forall k :: 0 < k < |u| ==> u[k] != u[0]
  {}

  /** The body of the loop: the head of u moves in front of a. */
  method Turn(ghost nodes: seq<ListHead>, ghost a: seq<nat>, ghost u: seq<nat>, list: ListHead, next: ListHead?)
    returns (tmp: ListHead?)
    requires Distinct(nodes) && TwoChains(nodes, a, u)
    requires list == First(nodes, u) && next == First(nodes, a)
    modifies nodes`next
    ensures TwoChains(nodes, [u[0]] + a, u[1..]) && tmp == First(nodes, u[1..])
  {
    hide NoDup, Apart;
    HeadApart(a, u);
    if |u| > 1 { LinkAt(nodes, u, 0); }
    tmp := list.next;
    list.next := next;
    forall k | 0 <= k < |a| ensures nodes[([u[0]] + a)[k]].next == nodes[([u[0]] + a)[k + 1]] {
      if k > 0 { assert old(nodes[a[k - 1]].next) == nodes[a[k]]; }
    }
    forall k | 0 <= k < |u| - 2 ensures nodes[u[1..][k]].next == nodes[u[1..][k + 1]] {
      assert old(nodes[u[k + 1]].next) == nodes[u[k + 1 + 1]];
    }
  }

  /** The state of the reversal of s: a is done, u is still to be turned. */
  predicate Reversing(nodes: seq<ListHead>, s: seq<nat>, a: seq<nat>, u: seq<nat>, list: ListHead?, next: ListHead?)
    reads nodes`next
  {
    && TwoChains(nodes, a, u) && list == First(nodes, u) && next == First(nodes, a)
    && Rev(u) + a == Rev(s)
  }

  method CoreListReverse(ghost nodes: seq<ListHead>, ghost s: seq<nat>, list0: ListHead?) returns (next: ListHead?)
    requires Distinct(nodes) && Ordered(nodes, s, list0)
    modifies nodes`next
    ensures Ordered(nodes, Rev(s), next)
  {
    hide Distinct, TwoChains, Ordered, Rev, Reversing, First;
    var list := list0;
    next := null;
    ghost var a: seq<nat>, u := [], s;
    OrderedPerm(nodes, s, list0);
    StartReverse(nodes, s, list);
    while list != null
      invariant Reversing(nodes, s, a, u, list, next)
      decreases |u|
    {
      TurnPossible(nodes, s, a, u, list, next);
      var tmp := Turn(nodes, a, u, list, next);
      TurnDone(nodes, s, a, u, list, tmp);
      a, u := [u[0]] + a, u[1..];
      next := list;
      list := tmp;
    }
    EndReverse(nodes, s, a, u, list, next);
  }

  lemma OrderedPerm(nodes: seq<ListHead>, s: seq<nat>, list: ListHead?)
    ensures Ordered(nodes, s, list) ==> Perm(s, |nodes|)
  {}

  lemma StartReverse(nodes: seq<ListHead>, s: seq<nat>, list: ListHead?)
    requires Ordered(nodes, s, list)
    ensures Reversing(nodes, s, [], s, list, null)
  {
    assert Rev(s) + [] == Rev(s);
  }

  lemma TurnPossible(nodes: seq<ListHead>, s: seq<nat>, a: seq<nat>, u: seq<nat>, list: ListHead, next: ListHead?)
    requires Reversing(nodes, s, a, u, list, next)
    ensures TwoChains(nodes, a, u) && list == First(nodes, u) && next == First(nodes, a)
    ensures u != [] && u[0] < |nodes| && list == nodes[u[0]] && Rev(u) + a == Rev(s)
  {}

  lemma TurnDone(nodes: seq<ListHead>, s: seq<nat>, a: seq<nat>, u: seq<nat>, list: ListHead, tmp: ListHead?)
    requires u != [] && TwoChains(nodes, [u[0]] + a, u[1..]) && Rev(u) + a == Rev(s)
    requires u[0] < |nodes| && list == nodes[u[0]] && tmp == First(nodes, u[1..])
    ensures Reversing(nodes, s, [u[0]] + a, u[1..], tmp, list)
  {
    hide TwoChains;
    assert Rev(u[1..]) + ([u[0]] + a) == Rev(u) + a;
  }

  lemma EndReverse(nodes: seq<ListHead>, s: seq<nat>, a: seq<nat>, u: seq<nat>, list: ListHead?, next: ListHead?)
    requires Reversing(nodes, s, a, u, list, next) && list == null
    requires Perm(s, |nodes|)
    ensures Ordered(nodes, Rev(s), next)
  {
    hide Chain;
    assert u == [];
    assert Rev(u) + a == a;
  }

  lemma LinkAt(nodes: seq<ListHead>, s: seq<nat>, k: nat)
    requires InRange(s, |nodes|) && Linked(nodes, s) && k + 1 < |s|
    ensures nodes[s[k]].next == nodes[s[k + 1]]
  {}

  // ---------------------------------------------------------------------------
  // Lines 184-190: the node after the found one moves to the second place
  // ---------------------------------------------------------------------------

  method Splice(ghost nodes: seq<ListHead>, ghost s: seq<nat>, list: ListHead, thisFind: ListHead, ghost j: nat)
    requires Distinct(nodes) && Ordered(nodes, s, list) && 0 < j < |s| && thisFind == nodes[s[j - 1]]
    modifies nodes`next
    ensures Ordered(nodes, MoveToSecond(s, j), list)
  {
    MovePerm(s, j, |nodes|);
    LinkAt(nodes, s, j - 1);
    LinkAt(nodes, s, 0);
    if j + 1 < |s| { LinkAt(nodes, s, j); }
    var finder := thisFind.next;
    thisFind.next := finder.next;
    finder.next := list.next;
    list.next := finder;
    forall k | 0 < k < |s| && k != j && k != j - 1 ensures NextIs(nodes, s, k) {
      assert nodes[s[k]].next == old(nodes[s[k]].next);
      assert k + 1 < |s| ==> old(nodes[s[k]].next) == nodes[s[k + 1]];
    }
    SplicedChain(nodes, s, j);
  }

  predicate NextIs(nodes: seq<ListHead>, s: seq<nat>, k: nat)
    requires InRange(s, |nodes|) && k < |s|
    reads nodes`next
  {
    nodes[s[k]].next == if k + 1 < |s| then nodes[s[k + 1]] else null
  }

  /** The links after the splice, in terms of the order before it. */
  lemma SplicedChain(nodes: seq<ListHead>, s: seq<nat>, j: nat)
    requires InRange(s, |nodes|) && 0 < j < |s| && InRange(MoveToSecond(s, j), |nodes|)
    requires nodes[s[0]].next == nodes[s[j]]
    requires j > 1 ==> nodes[s[j]].next == nodes[s[1]]
    requires j > 1 ==> nodes[s[j - 1]].next == if j + 1 < |s| then nodes[s[j + 1]] else null
    requires j == 1 ==> nodes[s[j]].next == if j + 1 < |s| then nodes[s[j + 1]] else null
    requires forall k :: 0 < k < |s| && k != j && k != j - 1 ==> NextIs(nodes, s, k)
    ensures Chain(nodes, MoveToSecond(s, j))
  {
    var r := MoveToSecond(s, j);
    forall k | 0 <= k < |r| ensures NextIs(nodes, r, k) {
      if k == 0 {
        assert r[0] == s[0] && r[1] == s[j];
      } else if k == 1 {
        assert r[1] == s[j] && (|r| > 2 ==> r[2] == s[if j > 1 then 1 else 2]);
      } else if k < j {
        assert r[k] == s[k - 1] && r[k + 1] == s[k] && NextIs(nodes, s, k - 1);
      } else if k == j {
        assert r[k] == s[j - 1] && (k + 1 < |r| ==> r[k + 1] == s[k + 1]);
      } else {
        assert r[k] == s[k] && (k + 1 < |r| ==> r[k + 1] == s[k + 1]);
        assert NextIs(nodes, s, k);
      }
    }
    assert NextIs(nodes, r, |r| - 1);
    forall k | 0 <= k < |r| - 1 ensures nodes[r[k]].next == nodes[r[k + 1]] {
      assert NextIs(nodes, r, k);
    }
  }

  // ---------------------------------------------------------------------------
  // core_list_remove and core_list_undo_remove
  // ---------------------------------------------------------------------------

  /** The third node leaves the chain; it has exchanged data items with the second. */
  method CoreListRemove(ghost nodes: seq<ListHead>, ghost s: seq<nat>, item: ListHead) returns (ret: ListHead)
    requires Distinct(nodes) && Perm(s, |nodes|) && Chain(nodes, s) && |s| >= 3 && item == nodes[s[1]]
    modifies nodes`next, nodes`info
    ensures ret == nodes[s[2]] && Chain(nodes, [s[0], s[1]] + s[3..])
    ensures item.info == old(ret.info) && ret.info == old(item.info)
    ensures forall i :: 0 <= i < |nodes| && i != s[1] && i != s[2] ==> nodes[i].info == old(nodes[i].info)
  {
    LinkAt(nodes, s, 1);
    if |s| > 3 { LinkAt(nodes, s, 2); }
    ret := item.next;
    var tmp := item.info;
    item.info := ret.info;
    ret.info := tmp;
    item.next := item.next.next;
    ret.next := null;
  }

  /** The order without its third node, place by place. */
  lemma Removed(s: seq<nat>)
    requires NoDup(s) && |s| >= 3
    ensures var t := [s[0], s[1]] + s[3..];
            |t| == |s| - 1 && forall k :: 0 <= k < |t| ==> t[k] == s[if k < 2 then k else k + 1]
    ensures forall k :: 0 <= k < |s| && k != 1 && k != 2 ==> s[k] != s[1] && s[k] != s[2]
    ensures s[1] != s[2]
  {}

  /** The inverse of the removal: the chain and the data items are back. */
  method CoreListUndoRemove(ghost nodes: seq<ListHead>, ghost s: seq<nat>, itemRemoved: ListHead,
                            itemModified: ListHead)
    returns (r: ListHead)
    requires Distinct(nodes) && Perm(s, |nodes|) && |s| >= 3 && Chain(nodes, [s[0], s[1]] + s[3..])
    requires itemRemoved == nodes[s[2]] && itemModified == nodes[s[1]]
    modifies nodes`next, nodes`info
    ensures r == itemRemoved && Chain(nodes, s)
    ensures itemModified.info == old(itemRemoved.info) && itemRemoved.info == old(itemModified.info)
    ensures forall i :: 0 <= i < |nodes| && i != s[1] && i != s[2] ==> nodes[i].info == old(nodes[i].info)
  {
    Removed(s);
    ghost var t := [s[0], s[1]] + s[3..];
    hide NoDup;
    LinkAt(nodes, t, 0);
    forall k | 3 <= k < |s| - 1 ensures nodes[s[k]].next == nodes[s[k + 1]] {
      LinkAt(nodes, t, k - 1);
    }
    if |s| > 3 { LinkAt(nodes, t, 1); }
    var tmp := itemRemoved.info;
    itemRemoved.info := itemModified.info;
    itemModified.info := tmp;
    itemRemoved.next := itemModified.next;
    itemModified.next := itemRemoved;
    return itemRemoved;
  }

  // ---------------------------------------------------------------------------
  // Sorting a list that is already in some order
  // ---------------------------------------------------------------------------

  lemma ArrangeDistinct(nodes: seq<ListHead>, s: seq<nat>)
    requires Distinct(nodes) && Perm(s, |nodes|)
    ensures Distinct(Arrange(nodes, s))
  {}

  lemma ArrangeChain(nodes: seq<ListHead>, s: seq<nat>, o: seq<nat>)
    requires InRange(s, |nodes|) && InRange(o, |s|)
    ensures Chain(Arrange(nodes, s), o) <==> Chain(nodes, Arrange(s, o))
    ensures First(Arrange(nodes, s), o) == First(nodes, Arrange(s, o))
  {}

  /** The item of every node is one of those the arrangement shows, and the other way round. */
  lemma ArrangeInfos(nodes: seq<ListHead>, s: seq<nat>)
    requires Perm(s, |nodes|)
    ensures Infos(Arrange(nodes, s)) == Infos(nodes)
  {
    var ns := Arrange(nodes, s);
    forall n | n in nodes ensures n in ns {
      var x :| 0 <= x < |nodes| && nodes[x] == n;
      PermOnto(s, |nodes|, x);
    }
  }

  /** core_list_mergesort applied to a list in the order s. */
  method SortList(ghost nodes: seq<ListHead>, ghost s: seq<nat>, list0: ListHead, cmp: Cmp, res: Results?)
    returns (list: ListHead, ghost s': seq<nat>)
    requires Distinct(nodes) && Ordered(nodes, s, list0) && Callable(cmp, res) && 0 < |nodes| <= 0x4000_0000
    modifies nodes`next, Infos(nodes)`data16
    modifies if res == null then {} else {res}
    ensures Ordered(nodes, s', list) && s' == SortedFrom(Keys(nodes, cmp), s)
    ensures |nodes| >= 2 ==> forall k :: 0 <= k < |nodes| ==> Seen(cmp, nodes[k].info)
    ensures Kept(nodes, res) == old(Kept(nodes, res)) && Indices(nodes) == old(Indices(nodes))
    ensures InRange(s, |nodes|)
    ensures WalkedAlong(cmp, BenchOf(res), Arrange(Items(nodes), s), old(MemoryOf(nodes, res)), MemoryOf(nodes, res))
  {
    hide *;
    list, s' := SortArranged(nodes, s, list0, cmp, res);
    assert Indices(nodes) == old(Indices(nodes));
  }

  method SortArranged(ghost nodes: seq<ListHead>, ghost s: seq<nat>, list0: ListHead, cmp: Cmp, res: Results?)
    returns (list: ListHead, ghost s': seq<nat>)
    requires Distinct(nodes) && Ordered(nodes, s, list0) && Callable(cmp, res) && 0 < |nodes| <= 0x4000_0000
    modifies nodes`next, Infos(nodes)`data16
    modifies if res == null then {} else {res}
    ensures Ordered(nodes, s', list) && s' == SortedFrom(Keys(nodes, cmp), s)
    ensures |nodes| >= 2 ==> forall k :: 0 <= k < |nodes| ==> Seen(cmp, nodes[k].info)
    ensures Kept(nodes, res) == old(Kept(nodes, res)) && InRange(s, |nodes|)
    ensures WalkedAlong(cmp, BenchOf(res), Arrange(Items(nodes), s), old(MemoryOf(nodes, res)), MemoryOf(nodes, res))
  {
    hide Chain, Distinct, Seen, StableOrder, NoDup, StablySorted, Keys, Kept, Backups, Permute, WalkedAlong, MemoryOf;
    hide Items, BenchOf;
    ghost var ns := Arrange(nodes, s);
    MemoryArranged(nodes, s, res);
    ArrangeDistinct(nodes, s);
    ArrangeInfos(nodes, s);
    ArrangeChain(nodes, s, Iota(|nodes|));
    ComposeIota(s);
    KeptArranged(nodes, s, res);
    KeptBackups(nodes, res);
    list := CoreListMergesort(ns, list0, cmp, res);
    MemoryArranged(nodes, s, res);
    SortedArrangement(nodes, s, cmp);
    ghost var o := StableOrder(Keys(ns, cmp));
    ArrangeChain(nodes, s, o);
    s' := Arrange(s, o);
    if |nodes| >= 2 { SeenArranged(nodes, s, cmp); }
    ArrangeInfos(nodes, s);
    KeptArranged(nodes, s, res);
    PermuteInjective(Backups(nodes), old(Backups(nodes)), s);
    assert Kept(nodes, res) == Kept(ns, res).(backups := Backups(nodes)) by { KeptBackups(nodes, res); }
    assert old(Kept(nodes, res)) == old(Kept(ns, res)).(backups := old(Backups(nodes)));
  }

  /** The list in its order shows the same items, and they hold the same. */
  lemma MemoryArranged(nodes: seq<ListHead>, s: seq<nat>, res: Results?)
    requires Perm(s, |nodes|) && InRange(s, |nodes|)
    ensures Items(Arrange(nodes, s)) == Arrange(Items(nodes), s)
    ensures MemoryOf(Arrange(nodes, s), res) == MemoryOf(nodes, res)
  {
    hide *;
    ArrangeInfos(nodes, s);
    ArrangeItems(nodes, s);
    SameMemory(Arrange(nodes, s), nodes, res);
  }

  lemma ArrangeItems(nodes: seq<ListHead>, s: seq<nat>)
    requires InRange(s, |nodes|)
    ensures Items(Arrange(nodes, s)) == Arrange(Items(nodes), s)
  {
    hide Items;
  }

  lemma SameMemory(ns: seq<ListHead>, nodes: seq<ListHead>, res: Results?)
    requires Infos(ns) == Infos(nodes)
    ensures MemoryOf(ns, res) == MemoryOf(nodes, res)
  {
    hide AccOf, Infos, MemoryOf;
    assert MemoryOf(ns, res).words == MemoryOf(nodes, res).words;
  }

  lemma BackupsArranged(nodes: seq<ListHead>, s: seq<nat>)
    requires Perm(s, |nodes|)
    ensures |Backups(nodes)| == |nodes| && Backups(Arrange(nodes, s)) == Permute(Backups(nodes), s)
  {
    hide Backup;
  }

  lemma KeptArranged(nodes: seq<ListHead>, s: seq<nat>, res: Results?)
    requires Perm(s, |nodes|)
    ensures |Backups(nodes)| == |nodes| && Kept(Arrange(nodes, s), res).backups == Permute(Backups(nodes), s)
    ensures Kept(Arrange(nodes, s), res) == Kept(nodes, res).(backups := Permute(Backups(nodes), s))
  {
    hide Backups, Permute, Arrange, NoDup, Infos;
    ArrangeInfos(nodes, s);
    BackupsArranged(nodes, s);
  }

  lemma KeptBackups(nodes: seq<ListHead>, res: Results?)
    ensures Kept(nodes, res).backups == Backups(nodes)
  {}

  lemma SeenArranged(nodes: seq<ListHead>, s: seq<nat>, cmp: Cmp)
    requires Perm(s, |nodes|)
    requires forall k :: 0 <= k < |nodes| ==> Seen(cmp, Arrange(nodes, s)[k].info)
    ensures forall k :: 0 <= k < |nodes| ==> Seen(cmp, nodes[k].info)
  {
    hide Seen;
    forall x | 0 <= x < |nodes| ensures Seen(cmp, nodes[x].info) {
      PermOnto(s, |nodes|, x);
      var i :| 0 <= i < |s| && s[i] == x;
      assert Arrange(nodes, s)[i] == nodes[x];
    }
  }

  /** The stable order of the arranged nodes, in terms of the original ones. */
  lemma SortedArrangement(nodes: seq<ListHead>, s: seq<nat>, cmp: Cmp)
    requires Perm(s, |nodes|)
    ensures var o := StableOrder(Keys(Arrange(nodes, s), cmp));
      Perm(o, |s|) && Perm(Arrange(s, o), |nodes|) && Arrange(s, o) == SortedFrom(Keys(nodes, cmp), s)
  {
    hide Key, StableOrder, NoDup;
    SortedFromPerm(Keys(nodes, cmp), s);
    assert Keys(Arrange(nodes, s), cmp) == Arrange(Keys(nodes, cmp), s);
  }

  // ---------------------------------------------------------------------------
  // core_bench_list
  // ---------------------------------------------------------------------------

  /** The idx of every node, by position. */
  function Indices(nodes: seq<ListHead>): (ks: seq<int>)
    reads nodes`info, Infos(nodes)`idx
    ensures |ks| == |nodes| && forall i :: 0 <= i < |ks| ==> ks[i] == nodes[i].info.idx
  {
    if nodes == [] then [] else Indices(nodes[..|nodes| - 1]) + [nodes[|nodes| - 1].info.idx]
  }

  /** The data16 of every node, by position. */
  function Words(nodes: seq<ListHead>): (ws: seq<bv16>)
    reads nodes`info, Infos(nodes)
    ensures |ws| == |nodes| && forall i :: 0 <= i < |ws| ==> ws[i] == nodes[i].info.data16
  {
    if nodes == [] then [] else Words(nodes[..|nodes| - 1]) + [nodes[|nodes| - 1].info.data16]
  }

  /** The idx values and backup bytes of given items. */
  function Fields(ds: seq<ListData>): (r: (seq<int>, seq<bv16>))
    reads ds
    ensures |r.0| == |r.1| == |ds|
    ensures forall i :: 0 <= i < |ds| ==> r.0[i] == ds[i].idx && r.1[i] == Backup(ds[i].data16)
  {
    if ds == [] then ([], [])
    else
      var (ks, bs) := Fields(ds[..|ds| - 1]);
      (ks + [ds[|ds| - 1].idx], bs + [Backup(ds[|ds| - 1].data16)])
  }

  lemma FieldsOfItems(nodes: seq<ListHead>)
    ensures Fields(Items(nodes)) == (Indices(nodes), Backups(nodes))
  {
    hide Backup;
  }

  lemma ItemsInfos(nodes: seq<ListHead>)
    ensures Infos(nodes) == set d | d in Items(nodes)
  {
    var ds := Items(nodes);
    assert forall n :: n in nodes ==> exists i :: 0 <= i < |nodes| && nodes[i] == n && ds[i] == n.info;
  }

  /** What no step of the benchmark changes for good. */
  datatype Still = Still(items: seq<ListData>, indices: seq<int>, frame: Frame)

  function StillOf(nodes: seq<ListHead>, res: Results): (k: Still)
    reads nodes`info, Infos(nodes), res
    ensures k.frame == Kept(nodes, res) && k.items == Items(nodes) && k.indices == Indices(nodes)
  {
    Still(Items(nodes), Indices(nodes), Kept(nodes, res))
  }

  /** What the sort by data starts from. */
  function StoreOf(nodes: seq<ListHead>, res: Results): Store
    reads nodes`info, Infos(nodes), res
  {
    Store(Items(nodes), res.bench, MemoryOf(nodes, res))
  }

  lemma StoreShows(nodes: seq<ListHead>, res: Results)
    ensures Shows(MemoryOf(nodes, res), Items(nodes), Words(nodes))
  {
    hide Items, Words, AccOf;
  }

  lemma KeptFields(nodes: seq<ListHead>, res: Results?)
    ensures Kept(nodes, res).backups == Backups(nodes) && Kept(nodes, res).infos == Infos(nodes)
    ensures res != null ==> Kept(nodes, res).seed3 == res.seed3 && Kept(nodes, res).list == res.list
    ensures res != null ==> Kept(nodes, res).crclist == res.crclist
  {}

  /** ks and ws are the idx and data16 of every node, by position. */
  predicate Snapshot(nodes: seq<ListHead>, ks: seq<int>, ws: seq<bv16>)
    reads nodes`info, Infos(nodes)
  {
    && |ks| == |ws| == |nodes|
    && forall x :: 0 <= x < |nodes| ==> nodes[x].info.idx == ks[x] && nodes[x].info.data16 == ws[x]
  }

  lemma SnapshotIs(nodes: seq<ListHead>, ks: seq<int>, ws: seq<bv16>)
    ensures Snapshot(nodes, ks, ws) <==> Indices(nodes) == ks && Words(nodes) == ws
  {
    hide Indices, Words;
  }

  /** A list in the order s whose items hold ks and ws. */
  predicate State(nodes: seq<ListHead>, ks: seq<int>, ws: seq<bv16>, s: seq<nat>, list: ListHead?)
    reads nodes, Infos(nodes)
  {
    && Distinct(nodes) && 3 <= |nodes| <= 0x4000_0000 && |ks| == |ws| == |nodes|
    && Ordered(nodes, s, list) && Snapshot(nodes, ks, ws)
  }

  lemma StateOf(nodes: seq<ListHead>, ks: seq<int>, ws: seq<bv16>, s: seq<nat>, list: ListHead?)
    requires Distinct(nodes) && 3 <= |nodes| <= 0x4000_0000
    requires Ordered(nodes, s, list) && Snapshot(nodes, ks, ws)
    ensures State(nodes, ks, ws, s, list)
  {
    hide Distinct, Ordered;
  }

  lemma StateParts(nodes: seq<ListHead>, ks: seq<int>, ws: seq<bv16>, s: seq<nat>, list: ListHead?)
    requires State(nodes, ks, ws, s, list)
    ensures Distinct(nodes) && 3 <= |nodes| <= 0x4000_0000 && |ks| == |ws| == |nodes|
    ensures Ordered(nodes, s, list) && Perm(s, |nodes|) && InRange(s, |ks|) && Snapshot(nodes, ks, ws)
  {
    hide Chain, Distinct, NoDup, Snapshot;
  }

  /** Line 169: a search in the heap is one in the snapshots. */
  method FindAt(ghost nodes: seq<ListHead>, ghost ks: seq<int>, ghost ws: seq<bv16>, ghost s: seq<nat>, list: ListHead,
                idx: s16, data16: bv16) returns (found: ListHead?, ghost k: nat)
    requires Ordered(nodes, s, list) && Snapshot(nodes, ks, ws)
    ensures k == Found(ks, ws, s, idx, data16) && found == if k < |s| then nodes[s[k]] else null
  {
    hide Found, NoDup, Linked;
    found, k := CoreListFind(nodes, s, list, idx, data16);
    FoundIs(ks, ws, s, idx, data16, k);
  }

  /** Lines 171-182: the bit that a search adds to the sum. */
  method TakeBit(ghost nodes: seq<ListHead>, ghost ks: seq<int>, ghost ws: seq<bv16>, ghost s: seq<nat>, list: ListHead,
                 thisFind: ListHead?, ghost k: nat, retval0: u16) returns (retval: u16)
    requires Ordered(nodes, Rev(s), list) && Snapshot(nodes, ks, ws) && |nodes| >= 2 && |s| == |nodes|
    requires InRange(s, |nodes|) && k <= |s| && thisFind == if k < |s| then nodes[s[k]] else null
    ensures InRange(Rev(s), |ws|) && InRange(s, |ws|) && |s| >= 2 && retval == Plus(retval0, Bit(ws, s, k))
  {
    hide Bit8, Bit9, Chain, NoDup, Rev;
    SecondNode(nodes, Rev(s), list);
    retval := retval0;
    if thisFind == null {
      retval := (retval + Bit8(list.next.info.data16)) % 0x1_0000;
    } else if thisFind.info.data16 & 0x1 != 0 {
      retval := (retval + Bit9(thisFind.info.data16)) % 0x1_0000;
    }
  }

  /** Lines 168-199: one search, and what it does to the order. */
  method FindOnce(ghost nodes: seq<ListHead>, ghost ks: seq<int>, ghost ws: seq<bv16>, ghost s: seq<nat>,
                  list0: ListHead, idx: s16, data16: bv16, retval0: u16)
    returns (list: ListHead, retval: u16, hit: bool, ghost k: nat)
    requires State(nodes, ks, ws, s, list0)
    modifies nodes`next
    ensures InRange(s, |ks|) && |ks| == |ws| && k == Found(ks, ws, s, idx, data16) && (hit <==> k < |s|)
    ensures State(nodes, ks, ws, Turned(s, k), list)
    ensures InRange(Rev(s), |ws|) && retval == Plus(retval0, Bit(ws, s, k))
  {
    hide Bit, Chain, Distinct, Found, MoveToSecond, NoDup, Plus, Rev;
    var thisFind;
    thisFind, k := FindAt(nodes, ks, ws, s, list0, idx, data16);
    hit := thisFind != null;
    list := CoreListReverse(nodes, s, list0);
    RevPerm(s, |nodes|);
    retval := TakeBit(nodes, ks, ws, s, list, thisFind, k, retval0);
    if thisFind != null {
      FoundAfterReverse(nodes, s, list, k);
      if thisFind.next != null {
        Splice(nodes, Rev(s), list, thisFind, |s| - k);
      }
    }
  }

  /** The searches so far have left the list in the order that their state says. */
  predicate InSearch(nodes: seq<ListHead>, ks: seq<int>, ws: seq<bv16>, s0: seq<nat>, idx0: s16, m: nat, se: Searches,
                     list: ListHead)
    reads nodes, Infos(nodes)
  {
    && State(nodes, ks, ws, se.s, list) && Perm(s0, |ks|) && Searched(ks, ws, s0, idx0, m, se)
  }

  /** Lines 168-199: one turn of the loop. */
  method FindTurn(ghost nodes: seq<ListHead>, ghost ks: seq<int>, ghost ws: seq<bv16>, ghost s0: seq<nat>,
                  ghost from: s16, ghost se: Searches, i: nat, list0: ListHead, idx0: s16, ghost data0: bv16,
                  retval0: u16, found0: u16, missed0: u16)
    returns (list: ListHead, idx: s16, data16: bv16, retval: u16, found: u16, missed: u16, ghost next: Searches)
    requires InSearch(nodes, ks, ws, s0, from, i, se, list0) && Holds(se, idx0, data0, retval0, found0, missed0)
    modifies nodes`next
    ensures InSearch(nodes, ks, ws, s0, from, i + 1, next, list)
    ensures Holds(next, idx, data16, retval, found, missed)
  {
    hide Bit, Found, LowByte, NextSearch, Perm, Plus, Rev, Searched, State, Turned;
    StateParts(nodes, ks, ws, se.s, list0);
    SearchNext(ks, ws, s0, from, i, se);
    next := NextSearch(ks, ws, se, i);
    data16 := LowByte(i);
    var hit;
    ghost var k;
    list, retval, hit, k := FindOnce(nodes, ks, ws, se.s, list0, idx0, data16, retval0);
    NextParts(ks, ws, se, i, k, hit);
    if hit {
      found, missed := (found0 + 1) % 0x1_0000, missed0;
    } else {
      found, missed := found0, (missed0 + 1) % 0x1_0000;
    }
    idx := if idx0 >= 0 then NextIdx(idx0) else idx0;
  }

  /** Lines 166-200: find an item, reverse the list, and move the found item's successor forward. */
  method FindLoop(ghost nodes: seq<ListHead>, ghost ks: seq<int>, ghost ws: seq<bv16>, ghost s0: seq<nat>,
                  list0: ListHead, findNum: s16, finderIdx: s16)
    returns (list: ListHead, retval: bv16, idx: s16, data16: bv16, ghost se: Searches)
    requires InSearch(nodes, ks, ws, s0, finderIdx, 0, StartAt(s0, finderIdx), list0)
    modifies nodes`next
    ensures InSearch(nodes, ks, ws, s0, finderIdx, if findNum > 0 then findNum else 0, se, list)
    ensures retval == se.Sum() && idx == se.idx && data16 == se.data16
  {
    hide *;
    var sum: u16, found: u16, missed: u16 := 0, 0, 0;
    list, idx, data16 := list0, finderIdx, 0;
    se := StartAt(s0, finderIdx);
    StartHolds(s0, finderIdx);
    var i: nat := 0;
    while i < findNum
      invariant i <= (if findNum > 0 then findNum else 0) && InSearch(nodes, ks, ws, s0, finderIdx, i, se, list)
      invariant Holds(se, idx, data16, sum, found, missed)
      decreases findNum - i
    {
      list, idx, data16, sum, found, missed, se :=
        FindTurn(nodes, ks, ws, s0, finderIdx, se, i, list, idx, data16, sum, found, missed);
      i := i + 1;
    }
    HoldsParts(se, idx, data16, sum, found, missed);
    retval := ToU16(sum + (found * 4 - missed));
  }

  lemma SecondNode(nodes: seq<ListHead>, s: seq<nat>, list: ListHead?)
    requires Ordered(nodes, s, list) && |nodes| >= 2
    ensures InRange(s, |nodes|) && |s| == |nodes| && Chain(nodes, s)
    ensures list != null && list.next != null && list == nodes[s[0]] && list.next == nodes[s[1]]
  {
    hide NoDup;
    LinkAt(nodes, s, 0);
  }

  /** After the reversal of s, the node found at place k is at place |s| - 1 - k. */
  lemma FoundAfterReverse(nodes: seq<ListHead>, s: seq<nat>, list: ListHead?, k: nat)
    requires Ordered(nodes, Rev(s), list) && k < |s| && InRange(s, |nodes|)
    ensures nodes[s[k]] == nodes[Rev(s)[|s| - 1 - k]]
    ensures nodes[s[k]].next != null <==> k > 0
  {
    hide NoDup, Rev;
    RevAt(s, |s| - 1 - k);
    if k > 0 { LinkAt(nodes, Rev(s), |s| - 1 - k); }
  }

  /** The loops of lines 214-218 and 227-231: one CRC step for every node from `finder` on. */
  method CrcAlong(ghost nodes: seq<ListHead>, ghost t: seq<nat>, ghost k: nat, list: ListHead, finder0: ListHead?,
                  retval0: bv16)
    returns (retval: bv16)
    requires InRange(t, |nodes|) && Chain(nodes, t) && k <= |t|
    requires finder0 == if k < |t| then nodes[t[k]] else null
    ensures retval == CrcRepeat(list.info.data16, |t| - k, retval0)
  {
    hide Crc.WordCrc;
    var finder := finder0;
    ghost var j := k;
    retval := retval0;
    while finder != null
      invariant k <= j <= |t| && finder == if j < |t| then nodes[t[j]] else null
      invariant CrcRepeat(list.info.data16, |t| - j, retval) == CrcRepeat(list.info.data16, |t| - k, retval0)
      decreases |t| - j
    {
      retval := Crc.Crc16(list.info.data16, retval);
      finder := finder.next;
      j := j + 1;
    }
  }

  /** Lines 207-218, on the shortened list t, whose nodes hold the items of the order w. */
  method CrcFrom(ghost nodes: seq<ListHead>, ghost t: seq<nat>, ghost w: seq<nat>, ghost ks: seq<int>,
                 ghost ws: seq<bv16>, list: ListHead, idx: s16, data16: bv16, retval0: bv16) returns (retval: bv16)
    requires InRange(t, |nodes|) && Chain(nodes, t) && list == First(nodes, t) && |t| >= 2
    requires |w| == |t| && |ks| == |ws| && InRange(w, |ks|)
    requires forall i :: 0 <= i < |t| ==> nodes[t[i]].info.idx == ks[w[i]] && nodes[t[i]].info.data16 == ws[w[i]]
    ensures var k := Found(ks, ws, w, idx, data16);
            retval == CrcRepeat(ws[w[0]], |t| - (if k < |t| then k else 1), retval0)
  {
    hide CrcRepeat, Found;
    LinkAt(nodes, t, 0);
    var finder;
    ghost var k;
    finder, k := CoreListFind(nodes, t, list, idx, data16);
    FoundIs(ks, ws, w, idx, data16, k);
    if finder == null {
      finder := list.next;
      k := 1;
    }
    retval := CrcAlong(nodes, t, k, list, finder, retval0);
  }

  lemma RemovedItems(s: seq<nat>, n: nat)
    requires Perm(s, n) && |s| >= 3
    ensures InRange(Shortened(s), n) && InRange([s[0], s[1]] + s[3..], n)
    ensures var t, w := [s[0], s[1]] + s[3..], Shortened(s);
            && |t| == |w| == n - 1 && t[0] == w[0] == s[0] && t[1] == s[1] && w[1] == s[2]
            && forall i :: 2 <= i < |t| ==> t[i] == w[i] == s[i + 1]
  {}

  /** Lines 206-218: remove a node and use the shortened list. */
  method RemoveAndScan(ghost nodes: seq<ListHead>, ghost ks: seq<int>, ghost ws: seq<bv16>, ghost s: seq<nat>,
                       list: ListHead, idx: s16, data16: bv16, retval0: bv16)
    returns (remover: ListHead, retval: bv16)
    requires Distinct(nodes) && |nodes| >= 3 && Ordered(nodes, s, list) && Snapshot(nodes, ks, ws)
    modifies nodes`next, nodes`info
    ensures Perm(s, |nodes|) && InRange([s[0], s[1]] + s[3..], |nodes|) && Chain(nodes, [s[0], s[1]] + s[3..])
    ensures remover == nodes[s[2]] && list == nodes[s[0]] && list.next == nodes[s[1]]
    ensures nodes[s[1]].info == old(nodes[s[2]].info) && nodes[s[2]].info == old(nodes[s[1]].info)
    ensures forall i :: 0 <= i < |nodes| && i != s[1] && i != s[2] ==> nodes[i].info == old(nodes[i].info)
    ensures retval == FirstCrc(ks, ws, s, idx, data16, retval0)
  {
    hide CrcRepeat, Distinct, Found, Linked, NoDup, Shortened;
    SecondNode(nodes, s, list);
    Removed(s);
    RemovedItems(s, |nodes|);
    ghost var t, w := [s[0], s[1]] + s[3..], Shortened(s);
    remover := CoreListRemove(nodes, s, list.next);
    LinkAt(nodes, t, 0);
    retval := CrcFrom(nodes, t, w, ks, ws, list, idx, data16, retval0);
  }

  method RemoveFindUndo(ghost nodes: seq<ListHead>, ghost ks: seq<int>, ghost ws: seq<bv16>, ghost s: seq<nat>,
                        list: ListHead, idx: s16, data16: bv16, retval0: bv16)
    returns (retval: bv16)
    requires Distinct(nodes) && |nodes| >= 3 && Ordered(nodes, s, list) && Snapshot(nodes, ks, ws)
    modifies nodes`next, nodes`info
    ensures Ordered(nodes, s, list) && Items(nodes) == old(Items(nodes)) && Snapshot(nodes, ks, ws)
    ensures InRange(s, |nodes|) && retval == FirstCrc(ks, ws, s, idx, data16, retval0)
  {
    hide Chain, CrcRepeat, Distinct, FirstCrc, Found, Items, NoDup;
    var remover;
    remover, retval := RemoveAndScan(nodes, ks, ws, s, list, idx, data16, retval0);
    remover := CoreListUndoRemove(nodes, s, remover, list.next);
    assert forall i :: 0 <= i < |nodes| ==> nodes[i].info == old(nodes[i].info);
  }

  /** Lines 206-222: remove a node, use the shortened list, and put the node back. */
  method RemoveAndUndo(ghost nodes: seq<ListHead>, ghost ks: seq<int>, ghost ws: seq<bv16>, ghost s: seq<nat>,
                       list: ListHead, idx: s16, data16: bv16, retval0: bv16, ghost res: Results)
    returns (retval: bv16)
    requires State(nodes, ks, ws, s, list)
    modifies nodes`next, nodes`info
    ensures State(nodes, ks, ws, s, list) && StillOf(nodes, res) == old(StillOf(nodes, res))
    ensures |ks| == |ws| >= 3 && InRange(s, |ks|) && |s| == |ks| && retval == FirstCrc(ks, ws, s, idx, data16, retval0)
  {
    hide Infos, Backup, FirstCrc, Linked, Distinct, NoDup, Indices, Backups, Fields;
    KeptFields(nodes, res);
    ItemsInfos(nodes);
    FieldsOfItems(nodes);
    retval := RemoveFindUndo(nodes, ks, ws, s, list, idx, data16, retval0);
    ItemsInfos(nodes);
    FieldsOfItems(nodes);
    KeptFields(nodes, res);
  }

  // ---------------------------------------------------------------------------
  // The promise of core_bench_list
  // ---------------------------------------------------------------------------

  predicate AllRegenerated(ws: seq<bv16>) {
    forall i :: 0 <= i < |ws| ==> Regenerated(ws[i])
  }

  /** A list in some order whose low bytes equal their backups. */
  predicate Benchable(nodes: seq<ListHead>, s: seq<nat>, list: ListHead?)
    reads nodes, Infos(nodes)
  {
    Distinct(nodes) && Ordered(nodes, s, list) && AllRegenerated(Words(nodes))
  }

  /** Where the link at place i of a list in its original order leads. */
  function Following(nodes: seq<ListHead>, i: nat): ListHead?
    requires i < |nodes|
  {
    if i + 1 < |nodes| then nodes[i + 1] else null
  }

  lemma BackupsOfItems(nodes: seq<ListHead>)
    ensures Backups(nodes) == BackupsOf(Words(nodes))
  {
    hide Backup;
  }

  /** Regenerated words are determined by their backup bytes. */
  lemma WordsRestored(ws: seq<bv16>, ws': seq<bv16>)
    requires AllRegenerated(ws) && AllRegenerated(ws') && BackupsOf(ws) == BackupsOf(ws')
    ensures ws == ws'
  {
    hide Regenerated, Backup;
    forall i | 0 <= i < |ws| ensures ws[i] == ws'[i] {
      assert BackupsOf(ws)[i] == BackupsOf(ws')[i];
      RegeneratedUnique(ws[i], ws'[i]);
    }
  }

  /** The second sort has regenerated every word. */
  lemma BenchDone(nodes: seq<ListHead>, ws: seq<bv16>)
    requires forall k :: 0 <= k < |nodes| ==> Seen(Idx(true), nodes[k].info)
    requires AllRegenerated(ws) && Backups(nodes) == BackupsOf(ws)
    ensures AllRegenerated(Words(nodes)) && Words(nodes) == ws
  {
    hide Regenerated, Backup, BackupsOf, Backups, Words, Keys;
    KeysAreIndices(nodes);
    BackupsOfItems(nodes);
    WordsRestored(ws, Words(nodes));
  }

  lemma KeysAreIndices(nodes: seq<ListHead>)
    ensures Keys(nodes, Idx(true)) == Indices(nodes) && |Indices(nodes)| == |nodes|
    ensures (forall k :: 0 <= k < |nodes| ==> Seen(Idx(true), nodes[k].info)) ==> AllRegenerated(Words(nodes))
  {
    hide Regenerated;
  }

  lemma OriginalChain(nodes: seq<ListHead>)
    requires Chain(nodes, Iota(|nodes|))
    ensures forall i :: 0 <= i < |nodes| ==> nodes[i].next == Following(nodes, i)
  {
    forall i | 0 <= i < |nodes| ensures nodes[i].next == Following(nodes, i) {
      if i + 1 < |nodes| { LinkAt(nodes, Iota(|nodes|), i); }
    }
  }

  lemma CallableIdx()
    ensures Callable(Idx(true), null)
  {}

  /** Line 224: the sort by idx puts the items in order, ties as they are, and regenerates every word. */
  method SecondSort(ghost nodes: seq<ListHead>, ghost ks: seq<int>, ghost s: seq<nat>, list0: ListHead,
                    ghost ws: seq<bv16>)
    returns (list: ListHead, ghost s': seq<nat>)
    requires Distinct(nodes) && Ordered(nodes, s, list0) && 3 <= |nodes| <= 0x4000_0000
    requires AllRegenerated(ws) && Backups(nodes) == BackupsOf(ws) && ks == Indices(nodes)
    modifies nodes`next, Infos(nodes)`data16
    ensures Benchable(nodes, s', list) && Words(nodes) == ws && Indices(nodes) == ks
    ensures Perm(s, |ks|) && s' == SortedFrom(ks, s)
  {
    assert Perm(s, |nodes|);
    assert Callable(Idx(true), null) by { CallableIdx(); }
    hide Distinct, Ordered, Perm, Seen, AllRegenerated, Backups, BackupsOf, Words, Keys, SortedFrom, Callable, Kept;
    hide Indices, Regenerated, Infos;
    KeptFields(nodes, null);
    list, s' := SortList(nodes, s, list0, Idx(true), null);
    KeptFields(nodes, null);
    KeysAreIndices(nodes);
    BenchDone(nodes, ws);
  }

  lemma StillInfos(nodes: seq<ListHead>, res: Results)
    ensures StillOf(nodes, res).frame.infos == Infos(nodes)
  {}

  /** The keys of the sort by data are the cached values. */
  lemma ComplexKeys(nodes: seq<ListHead>)
    ensures Keys(nodes, Complex) == ValuesOf(Words(nodes))
    ensures (forall k :: 0 <= k < |nodes| ==> Seen(Complex, nodes[k].info)) ==> AllCached(Words(nodes))
  {
    hide Cached, Keys, Value, ValuesOf, Words;
    var ks, vs := Keys(nodes, Complex), ValuesOf(Words(nodes));
    forall i | 0 <= i < |nodes| ensures ks[i] == vs[i] {
      assert ks[i] == Key(Complex, nodes[i].info) && vs[i] == Value(Words(nodes)[i]) as int;
    }
  }

  /** Line 204: the sort by data. */
  method SortComplex(ghost nodes: seq<ListHead>, ghost s: seq<nat>, list0: ListHead, res: Results)
    returns (list: ListHead, ghost t: seq<nat>)
    requires Distinct(nodes) && 3 <= |nodes| <= 0x4000_0000 && Ordered(nodes, s, list0) && Perm(s, |nodes|)
    modifies nodes`next, Infos(nodes)`data16, res
    ensures Ordered(nodes, t, list) && t == SortedFrom(Keys(nodes, Complex), s)
    ensures forall k :: 0 <= k < |nodes| ==> Seen(Complex, nodes[k].info)
    ensures StillOf(nodes, res) == old(StillOf(nodes, res)) && Backups(nodes) == old(Backups(nodes))
    ensures WalkedAlong(Complex, res.bench, Arrange(Items(nodes), s), old(MemoryOf(nodes, res)), MemoryOf(nodes, res))
  {
    hide *;
    CallableComplex(res);
    StillParts(nodes, res);
    list, t := SortList(nodes, s, list0, Complex, res);
    StillParts(nodes, res);
  }

  lemma CallableComplex(res: Results)
    ensures Callable(Complex, res) && BenchOf(res) == res.bench
  {}

  lemma StillParts(nodes: seq<ListHead>, res: Results)
    ensures StillOf(nodes, res) == Still(Items(nodes), Indices(nodes), Kept(nodes, res))
    ensures Kept(nodes, res).backups == Backups(nodes)
  {}

  /** The walk of the sort by data, on the words by position. */
  lemma WalkedMemory(st: Store, ws: seq<bv16>, ws1: seq<bv16>, s: seq<nat>, m: Memory)
    requires Shows(st.memory, st.items, ws) && Shows(m, st.items, ws1) && |ws| >= 3 && Perm(s, |ws|)
    requires WalkedAlong(Complex, st.bench, Arrange(st.items, s), st.memory, m)
    ensures Shows(SortedMemory(st, s), st.items, ws1) && m == SortedMemory(st, s)
  {
    hide Toured, NoDup;
  }

  lemma SortedByData(nodes: seq<ListHead>, ks: seq<int>, ws: seq<bv16>, s: seq<nat>, t: seq<nat>, list: ListHead,
                     st: Store, res: Results)
    requires Distinct(nodes) && 3 <= |nodes| <= 0x4000_0000 && Ordered(nodes, t, list)
    requires Indices(nodes) == ks && Backups(nodes) == BackupsOf(ws)
    requires Perm(s, |nodes|) && t == SortedFrom(Keys(nodes, Complex), s)
    requires forall k :: 0 <= k < |nodes| ==> Seen(Complex, nodes[k].info)
    requires |ws| == |nodes| && Shows(st.memory, st.items, ws) && st.items == Items(nodes)
    requires WalkedAlong(Complex, st.bench, Arrange(Items(nodes), s), st.memory, MemoryOf(nodes, res))
    ensures State(nodes, ks, Words(nodes), t, list) && FirstSorted(st, ws, Words(nodes), s, t, AccOf(res))
  {
    hide AccOf, AllCached, Backups, BackupsOf, Distinct, Items, Keys, Indices, MemoryOf, Ordered, Perm, Seen, Shows;
    hide Snapshot, SortedFrom, SortedMemory, State, ValuesOf, WalkedAlong, Words;
    BackupsOfItems(nodes);
    ComplexKeys(nodes);
    SnapshotIs(nodes, ks, Words(nodes));
    StateOf(nodes, ks, Words(nodes), t, list);
    StoreShows(nodes, res);
    WalkedMemory(st, ws, Words(nodes), s, MemoryOf(nodes, res));
  }

  lemma StillIndices(nodes: seq<ListHead>, res: Results)
    ensures StillOf(nodes, res).indices == Indices(nodes) && StillOf(nodes, res).items == Items(nodes)
  {}

  lemma StoreParts(nodes: seq<ListHead>, res: Results)
    ensures StoreOf(nodes, res) == Store(Items(nodes), res.bench, MemoryOf(nodes, res))
    ensures StoreOf(nodes, res).memory.acc == AccOf(res)
  {}

  method SortByData(ghost nodes: seq<ListHead>, ghost ks: seq<int>, ghost ws: seq<bv16>, ghost s: seq<nat>,
                    list0: ListHead, res: Results) returns (list: ListHead, ghost ws1: seq<bv16>, ghost t: seq<nat>)
    requires State(nodes, ks, ws, s, list0)
    modifies nodes`next, Infos(nodes)`data16, res
    ensures State(nodes, ks, ws1, t, list) && StillOf(nodes, res) == old(StillOf(nodes, res))
    ensures FirstSorted(old(StoreOf(nodes, res)), ws, ws1, s, t, AccOf(res))
  {
    hide *;
    ghost var st := StoreOf(nodes, res);
    StateParts(nodes, ks, ws, s, list0);
    SnapshotIs(nodes, ks, ws);
    BackupsOfItems(nodes);
    StillIndices(nodes, res);
    StoreParts(nodes, res);
    StoreShows(nodes, res);
    list, t := SortComplex(nodes, s, list0, res);
    StillIndices(nodes, res);
    SortedByData(nodes, ks, ws, s, t, list, st, res);
    ws1 := Words(nodes);
  }

  /** Lines 202-205; ws1 are the words afterwards. */
  method FirstSort(ghost nodes: seq<ListHead>, ghost ks: seq<int>, ghost ws: seq<bv16>, ghost s: seq<nat>,
                   list0: ListHead, res: Results, finderIdx: s16)
    returns (list: ListHead, ghost ws1: seq<bv16>, ghost t: seq<nat>)
    requires State(nodes, ks, ws, s, list0)
    modifies nodes`next, Infos(nodes)`data16, res
    ensures State(nodes, ks, ws1, t, list) && StillOf(nodes, res) == old(StillOf(nodes, res))
    ensures if finderIdx > 0 then FirstSorted(old(StoreOf(nodes, res)), ws, ws1, s, t, AccOf(res))
            else ws1 == ws && t == s && AccOf(res) == old(AccOf(res))
  {
    hide AccOf, FirstSorted, State, StillOf, StoreOf;
    list, ws1, t := list0, ws, s;
    if finderIdx > 0 {
      list, ws1, t := SortByData(nodes, ks, ws, s, list, res);
    }
  }

  lemma SearchState(nodes: seq<ListHead>, ks: seq<int>, ws: seq<bv16>, s0: seq<nat>, idx: s16, m: nat, se: Searches,
                    list: ListHead)
    ensures InSearch(nodes, ks, ws, s0, idx, m, se, list) <==>
      && State(nodes, ks, ws, se.s, list) && Perm(s0, |ks|) && |ks| == |ws| >= 2
      && Searched(ks, ws, s0, idx, m, se)
  {
    hide Perm, Searched, Distinct, Ordered, Snapshot;
  }

  /** Lines 164-201: the searches, and that they touch no item. */
  method FindAll(ghost nodes: seq<ListHead>, ghost ks: seq<int>, ghost ws: seq<bv16>, ghost s0: seq<nat>,
                 list0: ListHead, findNum: s16, finderIdx: s16, ghost res: Results)
    returns (list: ListHead, retval: bv16, idx: s16, data16: bv16, ghost se: Searches)
    requires State(nodes, ks, ws, s0, list0)
    modifies nodes`next
    ensures StillOf(nodes, res) == old(StillOf(nodes, res)) && State(nodes, ks, ws, se.s, list)
    ensures |ks| == |ws| >= 3 && Perm(s0, |ks|)
    ensures Searched(ks, ws, s0, finderIdx, if findNum > 0 then findNum else 0, se)
    ensures retval == se.Sum() && idx == se.idx && data16 == se.data16
    ensures StoreOf(nodes, res) == old(StoreOf(nodes, res))
    ensures var m: nat := if findNum > 0 then findNum else 0;
            retval == ToU16(Tally(ks, ws, s0, finderIdx, m)) && idx == SoughtIdx(finderIdx, m)
  {
    hide InSearch, Perm, Searched, Searches.Sum, SoughtIdx, State, StillOf, StoreOf, Tally, ToU16;
    StateParts(nodes, ks, ws, s0, list0);
    SearchStart(ks, ws, s0, finderIdx);
    SearchState(nodes, ks, ws, s0, finderIdx, 0, StartAt(s0, finderIdx), list0);
    list, retval, idx, data16, se := FindLoop(nodes, ks, ws, s0, list0, findNum, finderIdx);
    SearchState(nodes, ks, ws, s0, finderIdx, if findNum > 0 then findNum else 0, se, list);
    SearchesEnd(ks, ws, s0, finderIdx, if findNum > 0 then findNum else 0, se);
  }

  /** Lines 202-222: the first sort, and one item removed and put back. */
  method SortAndRemove(ghost nodes: seq<ListHead>, ghost ks: seq<int>, ghost ws: seq<bv16>, ghost s: seq<nat>,
                       list0: ListHead, res: Results, finderIdx: s16, idx: s16, data16: bv16, retval0: bv16)
    returns (list: ListHead, retval: bv16, ghost ws1: seq<bv16>, ghost t: seq<nat>)
    requires State(nodes, ks, ws, s, list0)
    modifies nodes`next, nodes`info, Infos(nodes)`data16, res
    ensures State(nodes, ks, ws1, t, list) && StillOf(nodes, res) == old(StillOf(nodes, res))
    ensures if finderIdx > 0 then FirstSorted(old(StoreOf(nodes, res)), ws, ws1, s, t, AccOf(res))
            else ws1 == ws && t == s && AccOf(res) == old(AccOf(res))
    ensures |ks| == |ws1| >= 3 && Perm(t, |ks|) && retval == FirstCrc(ks, ws1, t, idx, data16, retval0)
  {
    hide AccOf, FirstCrc, FirstSorted, Perm, State, StillOf, StoreOf, Infos;
    StillInfos(nodes, res);
    list, ws1, t := FirstSort(nodes, ks, ws, s, list0, res, finderIdx);
    retval := RemoveAndUndo(nodes, ks, ws1, t, list, idx, data16, retval0, res);
    StateParts(nodes, ks, ws1, t, list);
  }

  /** Lines 164-222: everything before the second sort. */
  method Scramble(ghost nodes: seq<ListHead>, ghost ks: seq<int>, ghost ws: seq<bv16>, ghost s0: seq<nat>, res: Results,
                  finderIdx: s16)
    returns (list: ListHead, retval: bv16, ghost ws1: seq<bv16>, ghost t: seq<nat>)
    requires State(nodes, ks, ws, s0, res.list)
    modifies nodes`next, nodes`info, Infos(nodes)`data16, res
    ensures State(nodes, ks, ws1, t, list) && StillOf(nodes, res) == old(StillOf(nodes, res))
    ensures |ks| == |ws| >= 3 && Perm(s0, |ks|)
    ensures Scrambled(old(StoreOf(nodes, res)), ks, ws, s0, finderIdx, old(res.seed3), ws1, t, AccOf(res), retval)
  {
    hide AccOf, FirstCrc, FirstSorted, Perm, Scrambled, Searched, Searches.Sum, State, StillOf, StoreOf, Infos;
    StoreParts(nodes, res);
    var idx, data16;
    ghost var se;
    StillInfos(nodes, res);
    list, retval, idx, data16, se := FindAll(nodes, ks, ws, s0, res.list, res.seed3, finderIdx, res);
    StillInfos(nodes, res);
    list, retval, ws1, t := SortAndRemove(nodes, ks, ws, se.s, list, res, finderIdx, idx, data16, retval);
    ScrambledBy(old(StoreOf(nodes, res)), ks, ws, s0, finderIdx, old(res.seed3), ws1, t, AccOf(res), retval, se);
  }

  /** Lines 164-224. */
  method SortBack(ghost nodes: seq<ListHead>, ghost ks: seq<int>, ghost ws: seq<bv16>, ghost s0: seq<nat>, res: Results,
                  finderIdx: s16)
    returns (list: ListHead, retval: bv16, ghost ws1: seq<bv16>, ghost t: seq<nat>, ghost s: seq<nat>)
    requires 3 <= |nodes| <= 0x4000_0000 && Benchable(nodes, s0, res.list)
    requires ks == Indices(nodes) && ws == Words(nodes)
    modifies nodes`next, nodes`info, Infos(nodes)`data16, res
    ensures Benchable(nodes, s, list) && Perm(t, |ks|) && s == SortedFrom(ks, t)
    ensures Perm(s0, |ks|)
    ensures Scrambled(old(StoreOf(nodes, res)), ks, ws, s0, finderIdx, res.seed3, ws1, t, AccOf(res), retval)
    ensures Items(nodes) == old(Items(nodes)) && Words(nodes) == ws && Indices(nodes) == ks
    ensures res.list == old(res.list) && res.seed3 == old(res.seed3) && res.crclist == old(res.crclist)
  {
    hide Distinct, Chain, NoDup, Ordered, Perm, InRange, First, Iota, StillOf, Kept, Items, Backups, Indices;
    hide Words, BackupsOf, AllRegenerated, Infos, Scrambled, Snapshot, SortedFrom, StoreOf, AccOf;
    SnapshotIs(nodes, ks, ws);
    BackupsOfItems(nodes);
    KeptFields(nodes, res);
    StillInfos(nodes, res);
    list, retval, ws1, t := Scramble(nodes, ks, ws, s0, res, finderIdx);
    KeptFields(nodes, res);
    StillInfos(nodes, res);
    list, s := SecondSort(nodes, ks, t, list, ws);
  }

  lemma HeadStays(nodes: seq<ListHead>, s: seq<nat>, list: ListHead)
    requires 3 <= |nodes| && Benchable(nodes, s, list) && SortedBy(Indices(nodes), s) && HeadLeast(Indices(nodes))
    ensures list == nodes[0]
  {
    hide NoDup, Chain, Distinct, AllRegenerated, Indices;
    PermOnto(s, |nodes|, 0);
    var i :| 0 <= i < |s| && s[i] == 0;
    if i > 0 { assert Indices(nodes)[s[0]] <= Indices(nodes)[s[i]]; }
  }

  /** Without ties the list is in its original order. */
  lemma BackInPlace(nodes: seq<ListHead>, s: seq<nat>, list: ListHead?)
    requires Benchable(nodes, s, list) && SortedBy(Indices(nodes), s) && Increasing(Indices(nodes))
    ensures s == Iota(|nodes|)
  {
    hide NoDup, Chain, Distinct, AllRegenerated, Indices;
    SortedIsOriginal(Indices(nodes), s);
  }

  lemma LinksInPlace(nodes: seq<ListHead>, s: seq<nat>, list: ListHead?)
    requires Benchable(nodes, s, list) && s == Iota(|nodes|)
    ensures forall i :: 0 <= i < |nodes| ==> nodes[i].next == Following(nodes, i)
  {
    hide AllRegenerated, Words;
    OriginalChain(nodes);
  }

  /** Where no item changes, neither does what is said of the list. */
  twostate lemma Untouched(nodes: seq<ListHead>)
    requires forall i :: 0 <= i < |nodes| ==> nodes[i].info == old(nodes[i].info)
    requires forall i :: 0 <= i < |nodes| ==> nodes[i].info.data16 == old(nodes[i].info.data16)
    requires forall i :: 0 <= i < |nodes| ==> nodes[i].info.idx == old(nodes[i].info.idx)
    ensures Items(nodes) == old(Items(nodes)) && Words(nodes) == old(Words(nodes))
    ensures Indices(nodes) == old(Indices(nodes))
  {
    hide *;
  }

  /** Lines 226-231: a CRC step of the first word for every node but the first. */
  method Checksum(ghost nodes: seq<ListHead>, ghost s: seq<nat>, list: ListHead, retval0: bv16) returns (retval: bv16)
    requires 3 <= |nodes| && Benchable(nodes, s, list)
    ensures InRange(s, |nodes|) && retval == CrcRepeat(Words(nodes)[s[0]], |nodes| - 1, retval0)
    ensures Benchable(nodes, s, list) && Items(nodes) == old(Items(nodes)) && Words(nodes) == old(Words(nodes))
    ensures Indices(nodes) == old(Indices(nodes))
  {
    hide AllRegenerated, CrcRepeat, Crc.WordCrc, Distinct, Indices, Infos, Items, Ordered, Words;
    SecondNode(nodes, s, list);
    assert list.info.data16 == Words(nodes)[s[0]];
    retval := CrcAlong(nodes, s, 1, list, list.next, retval0);
    Untouched(nodes);
  }

  /**
   Whatever order the list comes in, it leaves sorted by idx, with the same item at every node and
   the same word in every item, and what is returned is what `Benched` says. `res.bench` may return
   anything.
   */
  method CoreBenchList(ghost nodes: seq<ListHead>, ghost s0: seq<nat>, res: Results, finderIdx: s16)
    returns (retval: bv16, ghost list: ListHead, ghost ws1: seq<bv16>, ghost t: seq<nat>, ghost crc: bv16,
             ghost s: seq<nat>)
    requires 3 <= |nodes| <= 0x4000_0000 && Benchable(nodes, s0, res.list)
    modifies nodes`next, nodes`info, Infos(nodes)`data16, res
    ensures Benchable(nodes, s, list) && SortedBy(Indices(nodes), s)
    ensures Perm(s0, |nodes|)
    ensures Benched(old(StoreOf(nodes, res)), Indices(nodes), Words(nodes), s0, finderIdx, res.seed3, ws1, t,
                    AccOf(res), crc, s, retval)
    ensures Items(nodes) == old(Items(nodes)) && Words(nodes) == old(Words(nodes))
    ensures Indices(nodes) == old(Indices(nodes)) && res.list == old(res.list) && res.seed3 == old(res.seed3)
    ensures res.crclist == old(res.crclist)
    ensures && s0 == Iota(|nodes|) && SortedBy(Indices(nodes), s0) && res.seed3 == 1 && finderIdx <= 0
            && (forall x :: 0 <= x < |nodes| ==> !Hits(Indices(nodes), Words(nodes), x, finderIdx, 0))
            ==> (s == Iota(|nodes|) <==> Increasing(Indices(nodes)))
  {
    hide AccOf, Benchable, CrcRepeat, Hits, Increasing, Indices, Infos, Items, Perm, Scrambled, SortedBy, SortedFrom;
    hide StoreOf, Words;
    ghost var ks, ws := Indices(nodes), Words(nodes);
    var l;
    l, retval, ws1, t, s := SortBack(nodes, ks, ws, s0, res, finderIdx);
    list, crc := l, retval;
    retval := Checksum(nodes, s, l, retval);
    if && s0 == Iota(|ks|) && SortedBy(ks, s0) && res.seed3 == 1 && finderIdx <= 0
       && (forall x :: 0 <= x < |nodes| ==> !Hits(ks, ws, x, finderIdx, 0)) {
      FruitlessBench(old(StoreOf(nodes, res)), ks, ws, finderIdx, ws1, t, AccOf(res), crc);
    }
  }

  // ---------------------------------------------------------------------------
  // core_main.c, iterate
  // ---------------------------------------------------------------------------

  /** A store that shows these words, and nothing but the items. */
  predicate Base(st: Store, ws: seq<bv16>) {
    Shows(st.memory, st.items, ws) && st.memory.words.Keys == set d | d in st.items
  }

  /** The list holds the items and words of the store, and the results may have moved on. */
  ghost predicate From(nodes: seq<ListHead>, res: Results, st: Store)
    reads nodes`info, Infos(nodes), res
  {
    StoreOf(nodes, res) == st.(memory := st.memory.(acc := AccOf(res)))
  }

  lemma FromAgain(nodes: seq<ListHead>, res: Results, st: Store, ws: seq<bv16>)
    requires Base(st, ws) && Items(nodes) == st.items && res.bench == st.bench && Words(nodes) == ws
    ensures From(nodes, res, st)
  {
    hide AccOf, Infos, Items, MemoryOf, Words;
    StoreShows(nodes, res);
    ItemsInfos(nodes);
    var m := MemoryOf(nodes, res);
    forall d | d in m.words ensures m.words[d] == st.memory.words[d] {
      var i :| 0 <= i < |st.items| && st.items[i] == d;
      assert m.words[st.items[i]] == ws[i] == st.memory.words[st.items[i]];
    }
    assert m.words == st.memory.words;
  }

  lemma BaseOf(nodes: seq<ListHead>, res: Results)
    ensures Base(StoreOf(nodes, res), Words(nodes)) && From(nodes, res, StoreOf(nodes, res))
    ensures StoreOf(nodes, res).items == Items(nodes) && StoreOf(nodes, res).bench == res.bench
    ensures StoreOf(nodes, res).memory.acc == AccOf(res)
  {
    hide AccOf, Infos, Items, MemoryOf, Words;
    StoreShows(nodes, res);
    ItemsInfos(nodes);
  }

  /** Line 66: the result of a run goes into the overall CRC. */
  method Fold(ghost nodes: seq<ListHead>, ghost s: seq<nat>, ghost list: ListHead, res: Results, crc0: bv16)
    requires Benchable(nodes, s, list)
    modifies res`crc
    ensures Benchable(nodes, s, list) && Items(nodes) == old(Items(nodes)) && Words(nodes) == old(Words(nodes))
    ensures Indices(nodes) == old(Indices(nodes))
    ensures AccOf(res) == old(AccOf(res)).(crc := Crc.WordCrc(crc0, old(res.crc)))
  {
    hide AllRegenerated, Crc.Feed, Crc.MessageBits, Distinct, Indices, Infos, Items, Ordered, Words;
    var crc := Crc.Crcu16(crc0, res.crc);
    res.crc := crc;
    Untouched(nodes);
  }

  lemma RunBy(st: Store, ks: seq<int>, ws: seq<bv16>, s0: seq<nat>, idx: s16, findNum: s16, ws1: seq<bv16>, t: seq<nat>,
              acc: Acc, crc: bv16, s: seq<nat>, retval: bv16, before: Acc, after: Acc)
    requires |ks| == |ws| >= 3 && Perm(s0, |ks|)
    requires Benched(st.(memory := st.memory.(acc := before)), ks, ws, s0, idx, findNum, ws1, t, acc, crc, s, retval)
    requires after == acc.(crc := Crc.WordCrc(retval, acc.crc))
    ensures RunsOnce(st, ks, ws, findNum, idx, Run(s0, before, ws1, t, acc, crc, s, retval, after))
  {
    hide Benched, Crc.WordCrc, NoDup;
  }

  /** Lines 65-66: one run, folded into the overall CRC. */
  method BenchAndFold(ghost nodes: seq<ListHead>, ghost ks: seq<int>, ghost ws: seq<bv16>, ghost s0: seq<nat>,
                      res: Results, finderIdx: s16, ghost st: Store)
    returns (ghost list: ListHead, ghost run: Run)
    requires 3 <= |nodes| <= 0x4000_0000 && Benchable(nodes, s0, res.list)
    requires ks == Indices(nodes) && ws == Words(nodes) && Base(st, ws) && From(nodes, res, st)
    modifies nodes`next, nodes`info, Infos(nodes)`data16, res
    ensures Benchable(nodes, run.s, list) && SortedBy(Indices(nodes), run.s)
    ensures Items(nodes) == old(Items(nodes)) && Words(nodes) == ws && Indices(nodes) == ks
    ensures res.list == old(res.list) && res.seed3 == old(res.seed3) && res.crclist == old(res.crclist)
    ensures From(nodes, res, st) && |ks| == |ws| == |nodes| && RunsOnce(st, ks, ws, res.seed3, finderIdx, run)
    ensures run.s0 == s0 && run.before == old(AccOf(res)) && run.after == AccOf(res)
  {
    hide *;
    var crc;
    ghost var ws1, t, crc1, s;
    ghost var before := AccOf(res);
    FromParts(nodes, res, st);
    crc, list, ws1, t, crc1, s := CoreBenchList(nodes, s0, res, finderIdx);
    ghost var acc := AccOf(res);
    AccCrc(res);
    Fold(nodes, s, list, res, crc);
    FromAgain(nodes, res, st, ws);
    RunBy(st, ks, ws, s0, finderIdx, res.seed3, ws1, t, acc, crc1, s, crc, before, AccOf(res));
    run := Run(s0, before, ws1, t, acc, crc1, s, crc, AccOf(res));
  }

  lemma AccCrc(res: Results)
    ensures AccOf(res).crc == res.crc
  {}

  lemma FromParts(nodes: seq<ListHead>, res: Results, st: Store)
    requires From(nodes, res, st)
    ensures StoreOf(nodes, res) == st.(memory := st.memory.(acc := AccOf(res)))
    ensures Items(nodes) == st.items && res.bench == st.bench && |Indices(nodes)| == |Words(nodes)| == |nodes|
  {}

  /** Lines 65-68: two runs of the benchmark. */
  method BenchTwice(ghost nodes: seq<ListHead>, ghost ks: seq<int>, ghost ws: seq<bv16>, ghost s00: seq<nat>,
                    res: Results, ghost st: Store, ghost runs0: seq<Run>)
    returns (ghost runs: seq<Run>)
    requires 3 <= |nodes| <= 0x4000_0000 && |runs0| % 2 == 0
    requires Benchable(nodes, OrderBefore(s00, runs0, |runs0|), res.list) && res.list == nodes[0] && HeadLeast(ks)
    requires ks == Indices(nodes) && ws == Words(nodes) && Base(st, ws) && From(nodes, res, st) && |ks| == |ws| >= 3
    requires RunsInTurn(st, ks, ws, res.seed3, s00, runs0) && AccBefore(st.memory.acc, runs0, |runs0|) == AccOf(res)
    modifies nodes`next, nodes`info, Infos(nodes)`data16, res
    ensures |runs| == |runs0| + 2 && runs0 <= runs
    ensures Benchable(nodes, runs[|runs0| + 1].s, res.list) && SortedBy(Indices(nodes), runs[|runs0| + 1].s)
    ensures Items(nodes) == old(Items(nodes)) && Words(nodes) == ws && Indices(nodes) == ks
    ensures res.list == old(res.list) && res.seed3 == old(res.seed3) && res.crclist == old(res.crclist)
    ensures From(nodes, res, st) && RunsInTurn(st, ks, ws, res.seed3, s00, runs)
    ensures runs[|runs0| + 1].after == AccOf(res)
  {
    hide *;
    ghost var list, one, two;
    ItemsInfos(nodes);
    list, one := BenchAndFold(nodes, ks, ws, OrderBefore(s00, runs0, |runs0|), res, 1, st);
    HeadStays(nodes, one.s, list);
    RunAgain(st, ks, ws, res.seed3, s00, runs0, one);
    ItemsInfos(nodes);
    list, two := BenchAndFold(nodes, ks, ws, one.s, res, -1, st);
    HeadStays(nodes, two.s, list);
    RunAgain(st, ks, ws, res.seed3, s00, runs0 + [one], two);
    runs := runs0 + [one] + [two];
  }

  /** Lines 58-61. */
  method Restart(ghost nodes: seq<ListHead>, ghost s: seq<nat>, res: Results)
    requires Benchable(nodes, s, res.list)
    modifies res`crc, res`crclist, res`crcmatrix, res`crcstate
    ensures Benchable(nodes, s, res.list) && Items(nodes) == old(Items(nodes)) && Words(nodes) == old(Words(nodes))
    ensures Indices(nodes) == old(Indices(nodes))
    ensures AccOf(res) == Acc(old(res.calls), 0, 0, 0) && res.crclist == 0
  {
    hide AllRegenerated, Distinct, Indices, Infos, Items, Ordered, Words;
    res.crc := 0;
    res.crclist := 0;
    res.crcmatrix := 0;
    res.crcstate := 0;
    Untouched(nodes);
  }

  /** Lines 69-72. */
  method KeepFirst(ghost nodes: seq<ListHead>, ghost s: seq<nat>, res: Results, i: nat, ghost st: Store,
                   ghost ws: seq<bv16>)
    requires Benchable(nodes, s, res.list) && Base(st, ws) && From(nodes, res, st) && Words(nodes) == ws
    modifies res`crclist
    ensures Benchable(nodes, s, res.list) && Items(nodes) == old(Items(nodes)) && Words(nodes) == old(Words(nodes))
    ensures Indices(nodes) == old(Indices(nodes)) && AccOf(res) == old(AccOf(res)) && From(nodes, res, st)
    ensures res.crclist == if i == 0 then res.crc else old(res.crclist)
  {
    hide AllRegenerated, Base, Distinct, From, Indices, Infos, Items, Ordered, Words;
    FromParts(nodes, res, st);
    if i == 0 {
      res.crclist := res.crc;
    }
    Untouched(nodes);
    FromAgain(nodes, res, st, ws);
  }

  /**
   core_main.c, iterate. The benchmark never updates the head of the list, so every run but the
   first needs it where the last one left it, at the item that comes first. What the results hold in
   the end is what 2 * iterations runs have left, which `RunsUnique` shows to be determined.
   */
  method Iterate(ghost nodes: seq<ListHead>, res: Results, iterations: nat)
    returns (ghost s: seq<nat>, ghost st: Store, ghost runs: seq<Run>)
    requires 3 <= |nodes| <= 0x4000_0000 && Benchable(nodes, Iota(|nodes|), res.list)
    requires HeadLeast(Indices(nodes))
    modifies nodes`next, nodes`info, Infos(nodes)`data16, res
    ensures Benchable(nodes, s, res.list) && res.list == old(res.list) && res.seed3 == old(res.seed3)
    ensures Indices(nodes) == old(Indices(nodes)) && (iterations > 0 ==> SortedBy(Indices(nodes), s))
    ensures Items(nodes) == old(Items(nodes)) && Words(nodes) == old(Words(nodes))
    ensures Increasing(Indices(nodes)) ==>
      s == Iota(|nodes|) && forall i :: 0 <= i < |nodes| ==> nodes[i].next == Following(nodes, i)
    ensures st.items == Items(nodes) && st.bench == res.bench && Base(st, Words(nodes))
    ensures st.memory.acc == Acc(old(res.calls), 0, 0, 0) && |runs| == 2 * iterations
    ensures |Indices(nodes)| == |Words(nodes)| >= 3
    ensures RunsInTurn(st, Indices(nodes), Words(nodes), res.seed3, Iota(|nodes|), runs)
    ensures s == OrderBefore(Iota(|nodes|), runs, |runs|) && AccOf(res) == AccBefore(st.memory.acc, runs, |runs|)
    ensures res.crclist == if iterations == 0 then 0 else runs[1].after.crc
  {
    hide *;
    ghost var ks, ws, ds := Indices(nodes), Words(nodes), Items(nodes);
    HeadFirst(nodes, res.list);
    Restart(nodes, Iota(|nodes|), res);
    BaseOf(nodes, res);
    st, runs, s := StoreOf(nodes, res), [], Iota(|nodes|);
    FromParts(nodes, res, st);
    NoRuns(st, ks, ws, res.seed3, s);
    var i: nat := 0;
    while i < iterations
      invariant i <= iterations && |runs| == 2 * i && |ks| == |ws| == |nodes|
      invariant s == OrderBefore(Iota(|nodes|), runs, |runs|) && Benchable(nodes, s, res.list) && res.list == nodes[0]
      invariant Indices(nodes) == ks && Items(nodes) == ds && Words(nodes) == ws && res.seed3 == old(res.seed3)
      invariant i > 0 ==> SortedBy(ks, s)
      invariant From(nodes, res, st) && RunsInTurn(st, ks, ws, res.seed3, Iota(|nodes|), runs)
      invariant AccOf(res) == AccBefore(st.memory.acc, runs, |runs|)
      invariant res.crclist == if i == 0 then 0 else runs[1].after.crc
    {
      ItemsInfos(nodes);
      ghost var before := runs;
      runs := BenchTwice(nodes, ks, ws, Iota(|nodes|), res, st, runs);
      s := runs[|before| + 1].s;
      KeepFirst(nodes, s, res, i, st, ws);
      AccCrc(res);
      LastRun(st, runs);
      i := i + 1;
    }
    if Increasing(ks) {
      if iterations > 0 { BackInPlace(nodes, s, res.list); }
      LinksInPlace(nodes, s, res.list);
    }
  }

  lemma HeadFirst(nodes: seq<ListHead>, list: ListHead?)
    requires 0 < |nodes| && Benchable(nodes, Iota(|nodes|), list)
    ensures list == nodes[0]
  {
    hide AllRegenerated, Distinct, Words;
  }

  lemma NoRuns(st: Store, ks: seq<int>, ws: seq<bv16>, findNum: s16, s0: seq<nat>)
    requires |ks| == |ws| >= 3
    ensures RunsInTurn(st, ks, ws, findNum, s0, []) && OrderBefore(s0, [], 0) == s0
    ensures AccBefore(st.memory.acc, [], 0) == st.memory.acc
  {}

  lemma LastRun(st: Store, runs: seq<Run>)
    requires runs != []
    ensures forall s0 :: OrderBefore(s0, runs, |runs|) == runs[|runs| - 1].s
    ensures AccBefore(st.memory.acc, runs, |runs|) == runs[|runs| - 1].after
  {}
}
