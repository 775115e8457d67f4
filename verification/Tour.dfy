/**
 The order in which core_list_mergesort calls its comparator on the items: the first pass, over runs
 of one node, visits them one after the other as they stand in the list, and every later comparison
 finds items that were visited before, but for the last of an odd number. So the state that the sort
 leaves in the words and in the results is that of one walk along the list.
 */
module Tour {
  import opened SortOrder
  import opened ListItems
  import Crc

  function Reach(v: nat, i: nat): nat { if i == v then v + 1 else v }

  /** The items of a list, what they and the results held, and how many have been visited. */
  datatype Walk = Walk(items: seq<ListData>, start: Memory, visited: nat) {
    /** The item at place i is visited next, or again. */
    function To(i: nat): Walk { this.(visited := Reach(visited, i)) }
  }

  predicate Covers(m: Memory, ds: seq<ListData>) {
    forall i :: 0 <= i < |ds| ==> ds[i] in m.words
  }

  /** The first v items of the list visited, in order. */
  function Toured(cmp: Cmp, bench: Bench, m: Memory, ds: seq<ListData>, v: nat): (r: Memory)
    requires v <= |ds| && Covers(m, ds)
    ensures r.words.Keys == m.words.Keys
  {
    if v == 0 then m else VisitItem(cmp, bench, Toured(cmp, bench, m, ds, v - 1), ds[v - 1])
  }

  lemma TouredNone(cmp: Cmp, bench: Bench, m: Memory, ds: seq<ListData>)
    requires Covers(m, ds)
    ensures Toured(cmp, bench, m, ds, 0) == m
  {}

  lemma VisitSeen(cmp: Cmp, bench: Bench, m: Memory, d: ListData)
    requires d in m.words
    ensures SeenWord(cmp, VisitItem(cmp, bench, m, d).words[d])
    ensures SeenWord(cmp, m.words[d]) ==> VisitItem(cmp, bench, m, d) == m
    ensures forall e :: e in m.words && e != d ==> VisitItem(cmp, bench, m, d).words[e] == m.words[e]
  {
    hide SeenWord, Caches;
    assert m.words[d := m.words[d]] == m.words;
  }

  /** An item that was visited stays so. */
  lemma {:induction false} TouredSeen(cmp: Cmp, bench: Bench, m: Memory, ds: seq<ListData>, v: nat, i: nat)
    requires i < v <= |ds| && Covers(m, ds)
    ensures SeenWord(cmp, Toured(cmp, bench, m, ds, v).words[ds[i]])
  {
    hide SeenWord, VisitItem;
    var before := Toured(cmp, bench, m, ds, v - 1);
    VisitSeen(cmp, bench, before, ds[v - 1]);
    if i < v - 1 {
      TouredSeen(cmp, bench, m, ds, v - 1, i);
      VisitSeen(cmp, bench, before, ds[i]);
    }
  }

  /** Another visit to one of the first items changes nothing. */
  lemma TouredNext(cmp: Cmp, bench: Bench, m: Memory, ds: seq<ListData>, v: nat, i: nat)
    requires i <= v <= |ds| && i < |ds| && Covers(m, ds)
    ensures Reach(v, i) <= |ds|
    ensures VisitItem(cmp, bench, Toured(cmp, bench, m, ds, v), ds[i]) == Toured(cmp, bench, m, ds, Reach(v, i))
  {
    hide SeenWord, VisitItem;
    if i < v {
      TouredSeen(cmp, bench, m, ds, v, i);
      VisitSeen(cmp, bench, Toured(cmp, bench, m, ds, v), ds[i]);
    }
  }

  /** If the last item is already seen, the walk is over. */
  lemma TouredLast(cmp: Cmp, bench: Bench, m: Memory, ds: seq<ListData>)
    requires ds != [] && Covers(m, ds)
    requires SeenWord(cmp, Toured(cmp, bench, m, ds, |ds| - 1).words[ds[|ds| - 1]])
    ensures Toured(cmp, bench, m, ds, |ds| - 1) == Toured(cmp, bench, m, ds, |ds|)
  {
    hide SeenWord, VisitItem;
    VisitSeen(cmp, bench, Toured(cmp, bench, m, ds, |ds| - 1), ds[|ds| - 1]);
  }

  // ---------------------------------------------------------------------------
  // What the walk leaves behind
  // ---------------------------------------------------------------------------

  lemma VisitWord(cmp: Cmp, bench: Bench, m: Memory, d: ListData)
    requires d in m.words
    ensures VisitItem(cmp, bench, m, d).words[d] == Visit(cmp, bench, m.words[d], m.acc).0
  {
    hide Visit;
  }

  /**
   An item is written once, when the walk first comes to it: its word is then what a visit with the results of that
   moment makes of its word before the walk. All others keep their words.
   */
  lemma {:induction false} TouredAt(cmp: Cmp, bench: Bench, m: Memory, ds: seq<ListData>, v: nat, d: ListData, i: nat)
    requires v <= |ds| && Covers(m, ds) && d in m.words
    requires i <= v && (forall k :: 0 <= k < i ==> ds[k] != d) && (i < v ==> ds[i] == d)
    ensures Toured(cmp, bench, m, ds, v).words[d]
         == if i < v then Visit(cmp, bench, m.words[d], Toured(cmp, bench, m, ds, i).acc).0 else m.words[d]
  {
    hide SeenWord, Visit, VisitItem;
    if v > 0 {
      var before := Toured(cmp, bench, m, ds, v - 1);
      VisitSeen(cmp, bench, before, ds[v - 1]);
      VisitWord(cmp, bench, before, ds[v - 1]);
      TouredAt(cmp, bench, m, ds, v - 1, d, if i < v then i else v - 1);
      if i < v - 1 { TouredSeen(cmp, bench, m, ds, v - 1, i); }
    }
  }

  /** All words keep their backups, seen ones everything, and those that ask for no kernel their low seven bits. */
  lemma TouredKeeps(cmp: Cmp, bench: Bench, m: Memory, ds: seq<ListData>, d: ListData)
    requires Covers(m, ds) && d in m.words
    ensures var was, now := m.words[d], Toured(cmp, bench, m, ds, |ds|).words[d];
            && Backup(now) == Backup(was) && (SeenWord(cmp, was) ==> now == was)
            && (cmp == Complex && !Kernelled(was) ==> Value(now) == Value(was))
  {
    hide Backup, Caches, Kernelled, SeenWord, Toured, Value;
    var i := FirstPlace(ds, d);
    TouredAt(cmp, bench, m, ds, |ds|, d, i);
  }

  /** The first place of an item in a list, or the length of the list. */
  function FirstPlace(ds: seq<ListData>, d: ListData): (i: nat)
    ensures i <= |ds| && (forall k :: 0 <= k < i ==> ds[k] != d) && (i < |ds| ==> ds[i] == d)
  {
    if ds == [] || ds[0] == d then 0 else 1 + FirstPlace(ds[1..], d)
  }

  /** What the sort by data computes on its walk: a value for every item that has none cached. */
  function Computations(bench: Bench, m: Memory, ds: seq<ListData>, v: nat): seq<bv16>
    requires v <= |ds| && Covers(m, ds)
  {
    if v == 0 then []
    else
      var before := Toured(Complex, bench, m, ds, v - 1);
      var w := before.words[ds[v - 1]];
      Computations(bench, m, ds, v - 1) + if Cached(w) then [] else [Computed(w, bench, before.acc.calls)]
  }

  /** Values as the bytes that go into a checksum, low byte first. */
  function Bytes(vs: seq<bv16>): seq<bv8> {
    if vs == [] then []
    else Bytes(vs[..|vs| - 1]) + [Crc.Low8(vs[|vs| - 1]), Crc.High8(vs[|vs| - 1])]
  }

  /** The checksum of the results takes in every value that the sort computes, once, in the order of the list. */
  lemma {:induction false} TouredCrc(bench: Bench, m: Memory, ds: seq<ListData>, v: nat)
    requires v <= |ds| && Covers(m, ds)
    ensures Toured(Complex, bench, m, ds, v).acc.crc
         == Crc.Feed(Crc.MessageBits(Bytes(Computations(bench, m, ds, v))), m.acc.crc)
  {
    hide Cached, Computed, Crc.Feed, Crc.MessageBits, Bytes, VisitItem;
    if v == 0 {
      NoneFed(m.acc.crc);
    } else {
      TouredCrc(bench, m, ds, v - 1);
      var before := Toured(Complex, bench, m, ds, v - 1);
      VisitCrc(bench, before, ds[v - 1]);
      var vs, w := Computations(bench, m, ds, v - 1), before.words[ds[v - 1]];
      if !Cached(w) {
        OneMore(vs, Computed(w, bench, before.acc.calls), m.acc.crc);
      } else {
        assert vs + [] == vs;
      }
    }
  }

  lemma NoneFed(crc: bv16)
    ensures Crc.Feed(Crc.MessageBits(Bytes([])), crc) == crc
  {
    assert Crc.MessageBits([]) == [];
  }

  lemma OneMore(vs: seq<bv16>, x: bv16, crc: bv16)
    ensures Crc.Feed(Crc.MessageBits(Bytes(vs + [x])), crc)
         == Crc.WordCrc(x, Crc.Feed(Crc.MessageBits(Bytes(vs)), crc))
  {
    hide Crc.Feed, Crc.MessageBits, Crc.Low8, Crc.High8;
    assert (vs + [x])[..|vs|] == vs;
    Crc.FeedBytes(Bytes(vs), [Crc.Low8(x), Crc.High8(x)], crc);
  }

  lemma VisitCrc(bench: Bench, m: Memory, d: ListData)
    requires d in m.words
    ensures VisitItem(Complex, bench, m, d).acc.crc
         == if Cached(m.words[d]) then m.acc.crc else Crc.WordCrc(Computed(m.words[d], bench, m.acc.calls), m.acc.crc)
  {
    hide Cached, CachedWord, Computed, Crc.Feed, Crc.MessageBits, Crc.Low8, Crc.High8, FirstResult, Kernelled, Visit;
    VisitCaches(bench, m.words[d], m.acc);
  }

  /** Different items that ask for no kernel and are not cached put their own words into the checksum. */
  lemma {:induction false} PlainComputations(bench: Bench, m: Memory, ds: seq<ListData>, v: nat)
    requires v <= |ds| && Covers(m, ds) && forall i, j :: 0 <= i < j < |ds| ==> ds[i] != ds[j]
    requires forall i :: 0 <= i < |ds| ==> !Kernelled(m.words[ds[i]]) && !Cached(m.words[ds[i]])
    ensures |Computations(bench, m, ds, v)| == v
    ensures forall i :: 0 <= i < v ==> Computations(bench, m, ds, v)[i] == m.words[ds[i]]
  {
    hide Cached, Kernelled, Computed, Toured;
    if v > 0 {
      PlainComputations(bench, m, ds, v - 1);
      TouredAt(Complex, bench, m, ds, v - 1, ds[v - 1], v - 1);
      PlainWord(m.words[ds[v - 1]], bench, Toured(Complex, bench, m, ds, v - 1).acc.calls);
    }
  }
}
