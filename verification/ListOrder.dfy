/**
 Arrangements of a list as sequences of positions, and what a stable sort makes of them, down to
 the exact condition under which sorting a scrambled list brings the original order back.
 */
module ListOrder {
  import opened SortOrder

  /** s visits each of n positions exactly once. */
  predicate Perm(s: seq<nat>, n: nat) {
    InRange(s, n) && NoDup(s) && |s| == n
  }

  function Range(n: nat): (r: set<nat>)
    ensures |r| == n && forall x: nat :: x in r <==> x < n
  {
    if n == 0 then {} else Range(n - 1) + {n - 1}
  }

  function Visits(s: seq<nat>): (r: set<nat>)
    ensures forall x :: x in r <==> x in s
  {
    if s == [] then {} else Visits(s[1..]) + {s[0]}
  }

  lemma {:induction false} VisitsSize(s: seq<nat>)
    requires NoDup(s)
    ensures |Visits(s)| == |s|
  {
    if s != [] {
      VisitsSize(s[1..]);
      assert s[0] !in s[1..];
    }
  }

  lemma SubsetOfSameSize(a: set<nat>, b: set<nat>)
    requires a <= b && |a| == |b|
    ensures a == b
  {
    assert b == a + (b - a);
  }

  /** No position is missed. */
  lemma PermOnto(s: seq<nat>, n: nat, x: nat)
    requires Perm(s, n) && x < n
    ensures exists i :: 0 <= i < |s| && s[i] == x
  {
    VisitsSize(s);
    SubsetOfSameSize(Visits(s), Range(n));
    assert x in Visits(s);
  }

  // ---------------------------------------------------------------------------
  // Reversing and moving
  // ---------------------------------------------------------------------------

  function Rev(s: seq<nat>): (r: seq<nat>)
    ensures |r| == |s|
  {
    if s == [] then [] else Rev(s[1..]) + [s[0]]
  }

  lemma {:induction false} RevAt(s: seq<nat>, k: nat)
    requires k < |s|
    ensures Rev(s)[k] == s[|s| - 1 - k]
  {
    if k < |s| - 1 { RevAt(s[1..], k); }
  }

  function MoveToSecond(s: seq<nat>, j: nat): (r: seq<nat>)
    requires 0 < j < |s|
    ensures |r| == |s|
    ensures forall k :: 0 <= k < |s| ==>
      r[k] == s[if k == 0 then 0 else if k == 1 then j else if k <= j then k - 1 else k]
  {
    [s[0]] + [s[j]] + s[1..j] + s[j + 1..]
  }

  lemma MovePerm(s: seq<nat>, j: nat, n: nat)
    requires Perm(s, n) && 0 < j < |s|
    ensures Perm(MoveToSecond(s, j), n)
  {}

  // ---------------------------------------------------------------------------
  // Sorting what is already in some order
  // ---------------------------------------------------------------------------

  /** The elements of xs in the order s. */
  function Arrange<T>(xs: seq<T>, s: seq<nat>): (r: seq<T>)
    requires InRange(s, |xs|)
    ensures |r| == |s| && forall i :: 0 <= i < |s| ==> r[i] == xs[s[i]]
  {
    seq(|s|, i requires 0 <= i < |s| => xs[s[i]])
  }

  lemma ComposePerm(s: seq<nat>, o: seq<nat>, n: nat)
    requires Perm(s, n) && Perm(o, n)
    ensures Perm(Arrange(s, o), n)
  {}

  lemma ComposeIota(s: seq<nat>)
    ensures Arrange(s, Iota(|s|)) == s
  {}

  lemma StableOrderPerm(ks: seq<int>)
    ensures Perm(StableOrder(ks), |ks|) && StablySorted(ks, StableOrder(ks))
  {
    var o := StableOrder(ks);
    OrderOfSorted(ks, |ks|);
    OrderOfContents(ks, |ks|);
    assert |o| == |multiset(o)| == |multiset(Iota(|ks|))| == |ks|;
    forall i, j | 0 <= i < j < |o| ensures o[i] != o[j] {
      assert Before(ks, o[i], o[j]);
    }
  }

  function Permute(bs: seq<bv16>, s: seq<nat>): (r: seq<bv16>)
    requires InRange(s, |bs|)
    ensures |r| == |s|
  {
    seq(|s|, i requires 0 <= i < |s| => bs[s[i]])
  }

  lemma PermuteInjective(a: seq<bv16>, b: seq<bv16>, s: seq<nat>)
    requires |a| == |b| && Perm(s, |a|) && Permute(a, s) == Permute(b, s)
    ensures a == b
  {
    forall x | 0 <= x < |a| ensures a[x] == b[x] {
      PermOnto(s, |a|, x);
      var i :| 0 <= i < |s| && s[i] == x;
      assert Permute(a, s)[i] == a[x] && Permute(b, s)[i] == b[x];
    }
  }

  /** Non-decreasing keys along the list. */
  predicate SortedBy(ks: seq<int>, s: seq<nat>) {
    InRange(s, |ks|) && forall i, j :: 0 <= i < j < |s| ==> ks[s[i]] <= ks[s[j]]
  }

  lemma SortedFromPerm(ks: seq<int>, s: seq<nat>)
    requires Perm(s, |ks|)
    ensures var o := StableOrder(Arrange(ks, s));
            Perm(o, |s|) && Perm(Arrange(s, o), |ks|) && SortedBy(ks, Arrange(s, o))
  {
    hide NoDup, StableOrder;
    var o := StableOrder(Arrange(ks, s));
    StableOrderPerm(Arrange(ks, s));
    ComposePerm(s, o, |ks|);
    var t := Arrange(s, o);
    forall i, j | 0 <= i < j < |t| ensures ks[t[i]] <= ks[t[j]] {
      assert Before(Arrange(ks, s), o[i], o[j]);
    }
  }

  /** Where a stable sort takes the elements of s: tied ones stay as they are in s. */
  function SortedFrom(ks: seq<int>, s: seq<nat>): (r: seq<nat>)
    requires Perm(s, |ks|)
    ensures Perm(r, |ks|) && SortedBy(ks, r)
  {
    SortedFromPerm(ks, s);
    Arrange(s, StableOrder(Arrange(ks, s)))
  }

  // ---------------------------------------------------------------------------
  // Equal keys
  // ---------------------------------------------------------------------------

  lemma {:induction false} IncreasingBelow(s: seq<nat>, n: nat, k: nat)
    requires InRange(s, n) && |s| == n && k < n
    requires forall i, j :: 0 <= i < j < n ==> s[i] < s[j]
    ensures s[k] >= k
  {
    if k > 0 { IncreasingBelow(s, n, k - 1); }
  }

  lemma {:induction false} IncreasingAbove(s: seq<nat>, n: nat, k: nat)
    requires InRange(s, n) && |s| == n && k < n
    requires forall i, j :: 0 <= i < j < n ==> s[i] < s[j]
    ensures s[k] <= k
    decreases n - k
  {
    if k < n - 1 { IncreasingAbove(s, n, k + 1); }
  }

  predicate Increasing(ks: seq<int>) {
    forall i, j :: 0 <= i < j < |ks| ==> ks[i] < ks[j]
  }

  /** With strictly increasing keys, the only sorted arrangement is the original order. */
  lemma SortedIsOriginal(ks: seq<int>, s: seq<nat>)
    requires Perm(s, |ks|) && SortedBy(ks, s)
    requires forall i, j :: 0 <= i < j < |ks| ==> ks[i] < ks[j]
    ensures s == Iota(|ks|)
  {
    forall i, j | 0 <= i < j < |s| ensures s[i] < s[j] {
      assert ks[s[i]] <= ks[s[j]] && s[i] != s[j];
    }
    forall k | 0 <= k < |s| ensures s[k] == k {
      IncreasingBelow(s, |ks|, k);
      IncreasingAbove(s, |ks|, k);
    }
  }

  /** A sorted list whose first item comes strictly first still starts with it. */
  predicate HeadLeast(ks: seq<int>) {
    forall i :: 0 < i < |ks| ==> ks[0] < ks[i]
  }

  /** Tied elements are in their original order. */
  predicate TiesInOrder(ks: seq<int>, s: seq<nat>)
    requires InRange(s, |ks|)
  {
    forall i, j :: 0 <= i < j < |s| && ks[s[i]] == ks[s[j]] ==> s[i] < s[j]
  }

  /** From an order that has the ties right, the sort comes back to the original one. */
  lemma TiesKept(ks: seq<int>, s: seq<nat>)
    requires Perm(s, |ks|) && SortedBy(ks, Iota(|ks|)) && TiesInOrder(ks, s)
    ensures SortedFrom(ks, s) == Iota(|ks|)
  {
    hide NoDup, StableOrder;
    var ks', o, t := Arrange(ks, s), StableOrder(Arrange(ks, s)), SortedFrom(ks, s);
    StableOrderPerm(ks');
    forall x, y | 0 <= x <= y < |ks| ensures ks[x] <= ks[y] {
      assert x == Iota(|ks|)[x] && y == Iota(|ks|)[y];
    }
    forall i, j | 0 <= i < j < |t| ensures t[i] < t[j] {
      assert Before(ks', o[i], o[j]);
    }
    forall k | 0 <= k < |t| ensures t[k] == k {
      IncreasingBelow(t, |ks|, k);
      IncreasingAbove(t, |ks|, k);
    }
  }

  /** Tied elements stay as they are in s. */
  lemma TiesStay(ks: seq<int>, s: seq<nat>, i: nat, j: nat) returns (p: nat, q: nat)
    requires Perm(s, |ks|) && i < j < |s| && ks[s[i]] == ks[s[j]]
    ensures p < q < |s| && SortedFrom(ks, s)[p] == s[i] && SortedFrom(ks, s)[q] == s[j]
  {
    hide NoDup, StableOrder;
    var ks', o := Arrange(ks, s), StableOrder(Arrange(ks, s));
    StableOrderPerm(ks');
    PermOnto(o, |s|, i);
    PermOnto(o, |s|, j);
    p :| 0 <= p < |o| && o[p] == i;
    q :| 0 <= q < |o| && o[q] == j;
    assert Before(ks', o[if p < q then p else q], o[if p < q then q else p]);
  }

  /**
   Sorting a scrambled list restores the original, sorted order if and only if scrambling has left
   tied elements in order.
   */
  lemma RestoredExactly(ks: seq<int>, s: seq<nat>)
    requires Perm(s, |ks|) && SortedBy(ks, Iota(|ks|))
    ensures SortedFrom(ks, s) == Iota(|ks|) <==> TiesInOrder(ks, s)
  {
    assert InRange(s, |ks|);
    hide NoDup, Perm, SortedFrom, SortedBy;
    if TiesInOrder(ks, s) {
      TiesKept(ks, s);
    } else {
      var i, j :| 0 <= i < j < |s| && ks[s[i]] == ks[s[j]] && s[i] >= s[j];
      var p, q := TiesStay(ks, s, i, j);
    }
  }

  /** The first item of the original order is first again if and only if scrambling put no tied one before it. */
  lemma FirstExactly(ks: seq<int>, s: seq<nat>, j: nat)
    requires Perm(s, |ks|) && SortedBy(ks, Iota(|ks|)) && j < |s| && s[j] == 0
    ensures SortedFrom(ks, s)[0] == 0 <==> forall i :: 0 <= i < j ==> ks[s[i]] != ks[0]
  {
    var t := SortedFrom(ks, s);
    if i :| 0 <= i < j && ks[s[i]] == ks[0] {
      var p, q := TiesStay(ks, s, i, j);
    } else if t[0] != 0 {
      PermOnto(t, |ks|, 0);
      var k :| 0 <= k < |t| && t[k] == 0;
      assert ks[t[0]] <= ks[t[k]] && ks[Iota(|ks|)[0]] <= ks[Iota(|ks|)[t[0]]];
      PermOnto(s, |ks|, t[0]);
      var i :| 0 <= i < |s| && s[i] == t[0];
      var p, q := TiesStay(ks, s, j, i);
    }
  }

  // ---------------------------------------------------------------------------
  // What can be told from the keys alone
  // ---------------------------------------------------------------------------

  /** The original order reversed. */
  lemma RevIota(n: nat)
    ensures Perm(Rev(Iota(n)), n) && forall k :: 0 <= k < n ==> Rev(Iota(n))[k] == n - 1 - k
  {
    hide Rev;
    forall k | 0 <= k < n ensures Rev(Iota(n))[k] == n - 1 - k {
      RevAt(Iota(n), k);
    }
  }

  lemma SortedAt(ks: seq<int>, i: nat, j: nat)
    requires SortedBy(ks, Iota(|ks|)) && i <= j < |ks|
    ensures ks[i] <= ks[j]
  {
    assert Iota(|ks|)[i] == i && Iota(|ks|)[j] == j;
  }

  /** A sorted list comes back from its own reversal if and only if no two keys are equal. */
  lemma ReversalExactly(ks: seq<int>)
    requires SortedBy(ks, Iota(|ks|))
    ensures Perm(Rev(Iota(|ks|)), |ks|)
    ensures SortedFrom(ks, Rev(Iota(|ks|))) == Iota(|ks|) <==> Increasing(ks)
  {
    var n, r := |ks|, Rev(Iota(|ks|));
    RevIota(n);
    RestoredExactly(ks, r);
    hide NoDup, Rev, SortedBy, SortedFrom;
    if !Increasing(ks) {
      var i, j :| 0 <= i < j < n && ks[i] >= ks[j];
      SortedAt(ks, i, j);
      assert r[n - 1 - j] == j && r[n - 1 - i] == i;
    }
  }

  /** Every scrambling of a sorted list is undone if and only if no two keys are equal. */
  lemma AlwaysRestored(ks: seq<int>)
    requires SortedBy(ks, Iota(|ks|))
    ensures (forall t :: Perm(t, |ks|) ==> SortedFrom(ks, t) == Iota(|ks|)) <==> Increasing(ks)
  {
    ReversalExactly(ks);
    hide Perm, Rev, SortedBy, SortedFrom;
    if Increasing(ks) {
      forall t | Perm(t, |ks|) ensures SortedFrom(ks, t) == Iota(|ks|) {
        SortedIsOriginal(ks, SortedFrom(ks, t));
      }
    }
  }

  /** Its first element is first again after every scrambling if and only if its key is strictly least. */
  lemma AlwaysFirst(ks: seq<int>)
    requires ks != [] && SortedBy(ks, Iota(|ks|))
    ensures (forall t :: Perm(t, |ks|) ==> SortedFrom(ks, t)[0] == 0) <==> HeadLeast(ks)
  {
    var n, r := |ks|, Rev(Iota(|ks|));
    RevIota(n);
    hide NoDup, Rev, SortedBy, SortedFrom;
    if HeadLeast(ks) {
      forall t | Perm(t, n) ensures SortedFrom(ks, t)[0] == 0 {
        PermOnto(t, n, 0);
        var j :| 0 <= j < |t| && t[j] == 0;
        FirstExactly(ks, t, j);
        assert forall i :: 0 <= i < j ==> t[i] != t[j] by { Different(t, j); }
      }
    } else {
      var i :| 0 < i < n && ks[0] >= ks[i];
      SortedAt(ks, 0, i);
      FirstExactly(ks, r, n - 1);
      assert r[n - 1 - i] == i;
    }
  }

  lemma Different(s: seq<nat>, j: nat)
    requires NoDup(s) && j < |s|
    ensures forall i :: 0 <= i < j ==> s[i] != s[j]
  {}

  lemma RevPerm(s: seq<nat>, n: nat)
    requires Perm(s, n)
    ensures Perm(Rev(s), n)
  {
    hide Rev;
    forall k | 0 <= k < n ensures Rev(s)[k] == s[n - 1 - k] {
      RevAt(s, k);
    }
  }
}
