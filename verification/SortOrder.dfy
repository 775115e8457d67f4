/**
 The specification side of core_list_mergesort, free of any heap.

 A list is described by positions: position `k` names the k-th node of the list as it was
 handed to the sort. `ks[k]` is the sort key of that node and `pr[k]` says whether a
 comparison has already visited it. The comparators write to the items they compare, so both
 snapshots change while the sort runs; `Evolves` is all that can happen to them.
 */
module SortOrder {

  /** a precedes b in the stable order: smaller key, or same key and earlier position. */
  predicate Before(ks: seq<int>, a: nat, b: nat)
    requires a < |ks| && b < |ks|
  {
    ks[a] < ks[b] || (ks[a] == ks[b] && a < b)
  }

  predicate InRange(s: seq<nat>, n: nat) {
    forall i :: 0 <= i < |s| ==> s[i] < n
  }

  predicate NoDup(s: seq<nat>) {
    forall i, j :: 0 <= i < j < |s| ==> s[i] != s[j]
  }

  predicate StablySorted(ks: seq<int>, s: seq<nat>)
    requires InRange(s, |ks|)
  {
    forall i, j :: 0 <= i < j < |s| ==> Before(ks, s[i], s[j])
  }

  /** Keys of visited items are final, and a visited item stays visited. */
  predicate Evolves(ks: seq<int>, pr: seq<bool>, ks': seq<int>, pr': seq<bool>) {
    && |ks| == |pr| == |ks'| == |pr'|
    && forall k :: 0 <= k < |pr| && pr[k] ==> pr'[k] && ks'[k] == ks[k]
  }

  lemma EvolvesRefl(ks: seq<int>, pr: seq<bool>)
    requires |ks| == |pr|
    ensures Evolves(ks, pr, ks, pr)
  {}

  lemma EvolvesTrans(ks: seq<int>, pr: seq<bool>, ks1: seq<int>, pr1: seq<bool>, ks2: seq<int>, pr2: seq<bool>)
    requires Evolves(ks, pr, ks1, pr1) && Evolves(ks1, pr1, ks2, pr2)
    ensures Evolves(ks, pr, ks2, pr2)
  {}

  predicate Visited(pr: seq<bool>, s: seq<nat>)
    requires InRange(s, |pr|)
  {
    forall i :: 0 <= i < |s| ==> pr[s[i]]
  }

  /** A run of two or more nodes was produced by comparisons that visited all of them. */
  predicate RunOk(ks: seq<int>, pr: seq<bool>, s: seq<nat>)
    requires |ks| == |pr|
  {
    InRange(s, |ks|) && StablySorted(ks, s) && (|s| >= 2 ==> Visited(pr, s))
  }

  lemma RunEvolves(ks: seq<int>, pr: seq<bool>, ks': seq<int>, pr': seq<bool>, s: seq<nat>)
    requires Evolves(ks, pr, ks', pr') && RunOk(ks, pr, s)
    ensures RunOk(ks', pr', s)
  {
    forall i, j | 0 <= i < j < |s|
      ensures Before(ks', s[i], s[j])
    {
      assert pr[s[i]] && pr[s[j]] && Before(ks, s[i], s[j]);
    }
  }

  /** Every position in a is smaller than every position in b. */
  predicate AllBelow(a: seq<nat>, b: seq<nat>) {
    forall i, j :: 0 <= i < |a| && 0 <= j < |b| ==> a[i] < b[j]
  }

  // ---------------------------------------------------------------------------
  // One merge: m is the output so far, a and b the unread parts of the two runs
  // ---------------------------------------------------------------------------

  /** The head of the left run may go out when its key is not larger. */
  lemma TakeLeft(ks: seq<int>, m: seq<nat>, a: seq<nat>, b: seq<nat>)
    requires a != [] && InRange(m + a, |ks|) && InRange(m + b, |ks|)
    requires StablySorted(ks, m + a) && StablySorted(ks, m + b) && AllBelow(a, b)
    requires b != [] ==> a[0] < |ks| && b[0] < |ks| && ks[a[0]] <= ks[b[0]]
    ensures InRange(m + [a[0]] + b, |ks|) && StablySorted(ks, m + [a[0]] + b)
  {
    var ma, mb, t := m + a, m + b, m + [a[0]] + b;
    assert ma[|m|] == a[0];
    forall i | 0 <= i < |t| ensures t[i] < |ks| {
      if i < |m| { assert t[i] == ma[i]; } else if i > |m| { assert t[i] == mb[i - 1]; }
    }
    forall i, j | 0 <= i < j < |t|
      ensures Before(ks, t[i], t[j])
    {
      if j < |m| {
        assert t[i] == ma[i] && t[j] == ma[j];
      } else if j == |m| {
        assert t[i] == ma[i] && t[j] == ma[j];
      } else if i == |m| {
        assert b[0] == mb[|m|] && t[j] == b[j - |m| - 1] == mb[j - 1];
        assert a[0] < b[j - |m| - 1];
        assert j - 1 > |m| ==> Before(ks, mb[|m|], mb[j - 1]);
      } else {
        assert t[j] == mb[j - 1] && t[i] == mb[if i < |m| then i else i - 1];
      }
    }
  }

  /** The head of the right run goes out only when its key is strictly smaller, or a is used up. */
  lemma TakeRight(ks: seq<int>, m: seq<nat>, a: seq<nat>, b: seq<nat>)
    requires b != [] && InRange(m + a, |ks|) && InRange(m + b, |ks|)
    requires StablySorted(ks, m + a) && StablySorted(ks, m + b)
    requires a != [] ==> a[0] < |ks| && b[0] < |ks| && ks[b[0]] < ks[a[0]]
    ensures InRange(m + [b[0]] + a, |ks|) && StablySorted(ks, m + [b[0]] + a)
  {
    var ma, mb, t := m + a, m + b, m + [b[0]] + a;
    assert mb[|m|] == b[0];
    forall i | 0 <= i < |t| ensures t[i] < |ks| {
      if i < |m| { assert t[i] == mb[i]; } else if i > |m| { assert t[i] == ma[i - 1]; }
    }
    forall i, j | 0 <= i < j < |t|
      ensures Before(ks, t[i], t[j])
    {
      if j <= |m| {
        assert t[i] == mb[i] && t[j] == mb[j];
      } else if i == |m| {
        assert a[0] == ma[|m|] && t[j] == ma[j - 1];
        assert j - 1 > |m| ==> Before(ks, ma[|m|], ma[j - 1]);
      } else {
        assert t[j] == ma[j - 1] && t[i] == ma[if i < |m| then i else i - 1];
      }
    }
  }

  /** As TakeLeft, for runs whose members have all been visited once there are two of them. */
  lemma TakeLeftRun(ks: seq<int>, pr: seq<bool>, m: seq<nat>, a: seq<nat>, b: seq<nat>)
    requires |ks| == |pr| && a != [] && RunOk(ks, pr, m + a) && RunOk(ks, pr, m + b) && AllBelow(a, b)
    requires a[0] < |ks| && (b != [] ==> b[0] < |ks| && ks[a[0]] <= ks[b[0]] && pr[a[0]] && pr[b[0]])
    ensures RunOk(ks, pr, m + [a[0]] + b) && m + a == m + [a[0]] + a[1..]
  {
    TakeLeft(ks, m, a, b);
    TakeVisited(pr, m, a, b);
  }

  lemma TakeRightRun(ks: seq<int>, pr: seq<bool>, m: seq<nat>, a: seq<nat>, b: seq<nat>)
    requires |ks| == |pr| && b != [] && RunOk(ks, pr, m + a) && RunOk(ks, pr, m + b)
    requires b[0] < |ks| && (a != [] ==> a[0] < |ks| && ks[b[0]] < ks[a[0]] && pr[a[0]] && pr[b[0]])
    ensures RunOk(ks, pr, m + [b[0]] + a) && m + b == m + [b[0]] + b[1..]
  {
    TakeRight(ks, m, a, b);
    TakeVisited(pr, m, b, a);
  }

  lemma TakeVisited(pr: seq<bool>, m: seq<nat>, a: seq<nat>, b: seq<nat>)
    requires a != [] && InRange(m + a, |pr|) && InRange(m + b, |pr|) && InRange(m + [a[0]] + b, |pr|)
    requires (|m + a| >= 2 ==> Visited(pr, m + a)) && (|m + b| >= 2 ==> Visited(pr, m + b))
    requires b != [] ==> a[0] < |pr| && b[0] < |pr| && pr[a[0]] && pr[b[0]]
    ensures |m + [a[0]] + b| >= 2 ==> Visited(pr, m + [a[0]] + b)
  {
    var t := m + [a[0]] + b;
    if |t| >= 2 {
      forall i | 0 <= i < |t| ensures pr[t[i]] {
        if i < |m| {
          assert t[i] == (m + a)[i];
        } else if i == |m| {
          assert b == [] ==> t[i] == (m + a)[i];
        } else {
          assert t[i] == (m + b)[i - 1];
          assert |m + b| < 2 ==> b == [b[0]];
        }
      }
    }
  }

  /**
   A merge in progress: `out` is the output of earlier merges, m that of this one, a and b are
   the unread parts of the two runs, and `rest` is the part of the list behind them.
   */
  datatype Merge = Merge(out: seq<nat>, m: seq<nat>, a: seq<nat>, b: seq<nat>, rest: seq<nat>) {
    predicate InRanges(n: nat) {
      InRange(out + m, n) && InRange(a, n) && InRange(b + rest, n)
    }

    /** The head of the left or of the right run moves to the output. */
    function Take(left: bool): Merge
      requires (if left then a else b) != []
    {
      if left then Merge(out, m + [a[0]], a[1..], b, rest) else Merge(out, m + [b[0]], a, b[1..], rest)
    }

    /** The output stays sorted whatever run the next node comes from, and merges a0 with b0. */
    predicate Merges(ks: seq<int>, pr: seq<bool>, a0: seq<nat>, b0: seq<nat>)
    {
      && |ks| == |pr| && InRanges(|ks|) && RunOk(ks, pr, m + a) && RunOk(ks, pr, m + b) && AllBelow(a, b)
      && multiset(m) + multiset(a) + multiset(b) == multiset(a0) + multiset(b0)
    }

    lemma TakeHead(ks: seq<int>, pr: seq<bool>, a0: seq<nat>, b0: seq<nat>, left: bool)
      requires Merges(ks, pr, a0, b0) && (if left then a else b) != []
      requires a != [] && b != [] ==> pr[a[0]] && pr[(b + rest)[0]] && left == (ks[a[0]] <= ks[(b + rest)[0]])
      ensures Take(left).Merges(ks, pr, a0, b0)
    {
      hide RunOk;
      assert b != [] ==> (b + rest)[0] == b[0];
      TakeRanges(|ks|, left);
      TakeContents(left);
      if left {
        TakeLeftRun(ks, pr, m, a, b);
      } else {
        TakeRightRun(ks, pr, m, a, b);
      }
    }

    lemma TakeContents(left: bool)
      requires (if left then a else b) != []
      ensures var t := Take(left);
        multiset(t.m) + multiset(t.a) + multiset(t.b) == multiset(m) + multiset(a) + multiset(b)
    {
      if left {
        assert a == [a[0]] + a[1..];
      } else {
        assert b == [b[0]] + b[1..];
      }
    }

    lemma TakeRanges(n: nat, left: bool)
      requires InRanges(n) && (if left then a else b) != []
      ensures Take(left).InRanges(n)
      ensures left ==> Take(left).out + Take(left).m == out + m + [a[0]]
      ensures !left ==> Take(left).out + Take(left).m == out + m + [(b + rest)[0]]
      ensures !left ==> Take(left).b + Take(left).rest == (b + rest)[1..]
    {
      assert !left ==> (b + rest)[0] == b[0] && (b + rest)[1..] == b[1..] + rest;
      assert left ==> out + m + [a[0]] == out + (m + [a[0]]);
      assert !left ==> out + m + [b[0]] == out + (m + [b[0]]);
      assert forall i :: 0 <= i < |out + m| ==> (out + m)[i] < n;
    }

    /** A comparison may have written to the items it visited. */
    lemma KeysChange(ks: seq<int>, pr: seq<bool>, ks': seq<int>, pr': seq<bool>, a0: seq<nat>, b0: seq<nat>)
      requires Merges(ks, pr, a0, b0) && Evolves(ks, pr, ks', pr')
      ensures Merges(ks', pr', a0, b0)
    {
      hide RunOk;
      RunEvolves(ks, pr, ks', pr', m + a);
      RunEvolves(ks, pr, ks', pr', m + b);
    }
  }

  // ---------------------------------------------------------------------------
  // The runs of one pass
  // ---------------------------------------------------------------------------

  function Flat(runs: seq<seq<nat>>): seq<nat> {
    if runs == [] then [] else runs[0] + Flat(runs[1..])
  }

  lemma {:induction false} FlatAppend(a: seq<seq<nat>>, b: seq<seq<nat>>)
    ensures Flat(a + b) == Flat(a) + Flat(b)
  {
    if a == [] {
      assert a + b == b;
    } else {
      var ab := a + b;
      assert ab[1..] == a[1..] + b && ab[0] == a[0];
      FlatAppend(a[1..], b);
      assert Flat(ab) == a[0] + Flat(a[1..] + b) == a[0] + (Flat(a[1..]) + Flat(b));
    }
  }

  lemma FlatSingle(s: seq<nat>)
    ensures Flat([s]) == s
  {
    assert Flat([s]) == s + Flat([]);
  }

  lemma ConcatRange(a: seq<nat>, b: seq<nat>, n: nat)
    ensures InRange(a + b, n) <==> InRange(a, n) && InRange(b, n)
  {
    var ab := a + b;
    assert forall i :: 0 <= i < |a| ==> ab[i] == a[i];
    assert forall i :: 0 <= i < |b| ==> ab[|a| + i] == b[i];
  }

  lemma FlatNonEmpty(runs: seq<seq<nat>>, size: nat)
    requires Sized(runs, size)
    ensures Flat(runs) == [] <==> runs == []
  {
    if runs != [] {
      assert 0 < |runs[0]|;
    }
  }

  /** Runs of exactly `size` nodes, except that the last one may be shorter; none is empty. */
  predicate Sized(runs: seq<seq<nat>>, size: nat) {
    && (forall i :: 0 <= i < |runs| ==> 0 < |runs[i]| <= size)
    && (forall i :: 0 <= i < |runs| - 1 ==> |runs[i]| == size)
  }

  predicate RunsOk(ks: seq<int>, pr: seq<bool>, runs: seq<seq<nat>>)
    requires |ks| == |pr|
  {
    && (forall i :: 0 <= i < |runs| ==> RunOk(ks, pr, runs[i]))
    && (forall i, j :: 0 <= i < j < |runs| ==> AllBelow(runs[i], runs[j]))
  }

  lemma RunsEvolve(ks: seq<int>, pr: seq<bool>, ks': seq<int>, pr': seq<bool>, runs: seq<seq<nat>>)
    requires Evolves(ks, pr, ks', pr') && RunsOk(ks, pr, runs)
    ensures RunsOk(ks', pr', runs)
  {
    forall i | 0 <= i < |runs| ensures RunOk(ks', pr', runs[i]) {
      RunEvolves(ks, pr, ks', pr', runs[i]);
    }
  }

  /** Same nodes: m holds the elements of a and b. */
  predicate Mixes(m: seq<nat>, a: seq<nat>, b: seq<nat>) {
    multiset(m) == multiset(a) + multiset(b)
  }

  lemma MixBelow(m: seq<nat>, a: seq<nat>, b: seq<nat>, c: seq<nat>)
    requires Mixes(m, a, b)
    ensures AllBelow(a, c) && AllBelow(b, c) ==> AllBelow(m, c)
    ensures AllBelow(c, a) && AllBelow(c, b) ==> AllBelow(c, m)
  {
    forall i | 0 <= i < |m|
      ensures (exists k :: 0 <= k < |a| && a[k] == m[i]) || (exists k :: 0 <= k < |b| && b[k] == m[i])
    {
      assert m[i] in multiset(m);
      assert m[i] in multiset(a) || m[i] in multiset(b);
      assert m[i] in a || m[i] in b;
    }
  }

  /** Replacing the first two runs a, b after the finished runs by their merge m. */
  lemma MergeRuns(ks: seq<int>, pr: seq<bool>, out: seq<seq<nat>>, a: seq<nat>, b: seq<nat>,
                  rest: seq<seq<nat>>, m: seq<nat>)
    requires |ks| == |pr|
    requires RunsOk(ks, pr, out + [a, b] + rest) && RunOk(ks, pr, m) && Mixes(m, a, b)
    ensures RunsOk(ks, pr, out + [m] + rest)
    ensures multiset(Flat(out + [m] + rest)) == multiset(Flat(out + [a, b] + rest))
  {
    var old_, new_ := out + [a, b] + rest, out + [m] + rest;
    var k := |out|;
    assert old_[k] == a && old_[k + 1] == b && new_[k] == m;
    assert forall i :: 0 <= i < k ==> new_[i] == old_[i];
    assert forall i :: k < i < |new_| ==> new_[i] == old_[i + 1];
    forall i, j | 0 <= i < j < |new_| ensures AllBelow(new_[i], new_[j]) {
      if i == k {
        assert AllBelow(old_[k], old_[j + 1]) && AllBelow(old_[k + 1], old_[j + 1]);
        MixBelow(m, a, b, new_[j]);
      } else if j == k {
        assert AllBelow(old_[i], old_[k]) && AllBelow(old_[i], old_[k + 1]);
        MixBelow(m, a, b, new_[i]);
      } else {
        var i', j' := if i < k then i else i + 1, if j < k then j else j + 1;
        assert AllBelow(old_[i'], old_[j']);
      }
    }
    forall i | 0 <= i < |new_| ensures RunOk(ks, pr, new_[i]) {
      if i != k { assert RunOk(ks, pr, old_[if i < k then i else i + 1]); }
    }
    FlatAppend(out + [m], rest); FlatAppend(out, [m]); FlatSingle(m);
    FlatAppend(out + [a, b], rest); FlatAppend(out, [a, b]);
    assert [a, b][1..] == [b]; FlatSingle(b);
    assert Flat([a, b]) == a + b;
  }

  /** The state of one pass over the runs: `out` is merged, `rest` is still to be merged. */
  predicate Passing(ks: seq<int>, pr: seq<bool>, out: seq<seq<nat>>, rest: seq<seq<nat>>, insize: nat) {
    && |ks| == |pr| && RunsOk(ks, pr, out + rest) && Sized(rest, insize) && Sized(out, 2 * insize)
    && (rest != [] ==> forall i :: 0 <= i < |out| ==> |out[i]| == 2 * insize)
    && multiset(Flat(out + rest)) == multiset(Iota(|ks|))
  }

  /** The second run of a merge, empty when an odd run is left over. */
  function Second(rest: seq<seq<nat>>): seq<nat>
    requires rest != []
  {
    if |rest| >= 2 then rest[1] else []
  }

  function Later(rest: seq<seq<nat>>): seq<seq<nat>>
    requires rest != []
  {
    if |rest| >= 2 then rest[2..] else []
  }

  lemma SplitRest(rest: seq<seq<nat>>, insize: nat)
    requires rest != [] && Sized(rest, insize)
    ensures Flat(rest) == rest[0] + (Second(rest) + Flat(Later(rest)))
    ensures 0 < |rest[0]| <= insize && |Second(rest)| <= insize
    ensures Second(rest) + Flat(Later(rest)) != [] ==> |rest[0]| == insize
    ensures Flat(Later(rest)) != [] ==> |Second(rest)| == insize
  {
    if |rest| >= 2 {
      assert rest[1..][0] == rest[1] && rest[1..][1..] == rest[2..];
    }
  }

  lemma PadRuns(ks: seq<int>, pr: seq<bool>, runs: seq<seq<nat>>)
    requires |ks| == |pr| && RunsOk(ks, pr, runs)
    ensures RunsOk(ks, pr, runs + [[]]) && Flat(runs + [[]]) == Flat(runs)
  {
    FlatAppend(runs, [[]]);
    FlatSingle([]);
  }

  lemma SecondRun(ks: seq<int>, pr: seq<bool>, out: seq<seq<nat>>, rest: seq<seq<nat>>)
    requires |ks| == |pr| && rest != [] && RunsOk(ks, pr, out + rest)
    ensures RunsOk(ks, pr, out + [rest[0], Second(rest)] + Later(rest))
    ensures RunOk(ks, pr, rest[0]) && RunOk(ks, pr, Second(rest)) && AllBelow(rest[0], Second(rest))
    ensures Flat(out + [rest[0], Second(rest)] + Later(rest)) == Flat(out + rest)
  {
    hide RunOk, AllBelow, Flat;
    var padded := out + [rest[0], Second(rest)] + Later(rest);
    if |rest| >= 2 {
      assert padded == out + rest;
    } else {
      assert padded == out + rest + [[]];
      PadRuns(ks, pr, out + rest);
    }
    assert padded[|out|] == rest[0] && padded[|out| + 1] == Second(rest);
  }

  lemma PassStep(ks: seq<int>, pr: seq<bool>, out: seq<seq<nat>>, rest: seq<seq<nat>>, insize: nat,
                 ks': seq<int>, pr': seq<bool>, m: seq<nat>)
    requires rest != [] && Passing(ks, pr, out, rest, insize) && Evolves(ks, pr, ks', pr')
    requires RunOk(ks', pr', m) && Mixes(m, rest[0], Second(rest))
    ensures Passing(ks', pr', out + [m], Later(rest), insize)
    ensures Flat(out + [m]) == Flat(out) + m
  {
    SecondRun(ks, pr, out, rest);
    RunsEvolve(ks, pr, ks', pr', out + [rest[0], Second(rest)] + Later(rest));
    MergeRuns(ks', pr', out, rest[0], Second(rest), Later(rest), m);
    PassSizes(out, rest, insize, m);
    FlatAppend(out, [m]);
    FlatSingle(m);
  }

  lemma PassSizes(out: seq<seq<nat>>, rest: seq<seq<nat>>, insize: nat, m: seq<nat>)
    requires rest != [] && Sized(rest, insize) && Sized(out, 2 * insize) && Mixes(m, rest[0], Second(rest))
    requires forall i :: 0 <= i < |out| ==> |out[i]| == 2 * insize
    ensures Sized(Later(rest), insize) && Sized(out + [m], 2 * insize)
    ensures Later(rest) != [] ==> forall i :: 0 <= i < |out + [m]| ==> |(out + [m])[i]| == 2 * insize
  {
    assert |m| == |multiset(m)| == |rest[0]| + |Second(rest)|;
  }

  /** The runs the sort starts with: one node each. */
  function Singles(n: nat): (runs: seq<seq<nat>>)
    ensures |runs| == n && forall i :: 0 <= i < n ==> runs[i] == [i]
  {
    seq(n, i requires 0 <= i < n => [i])
  }

  lemma {:induction false} FlatSingles(n: nat)
    ensures Flat(Singles(n)) == Iota(n)
  {
    if n > 0 {
      FlatSingles(n - 1);
      assert Singles(n) == Singles(n - 1) + [[n - 1]];
      FlatAppend(Singles(n - 1), [[n - 1]]);
      FlatSingle([n - 1]);
      assert Iota(n) == Iota(n - 1) + [n - 1];
    } else {
      assert Iota(0) == [] && Singles(0) == [];
    }
  }

  lemma StartRuns(ks: seq<int>, pr: seq<bool>)
    requires |ks| == |pr|
    ensures Passing(ks, pr, [], Singles(|ks|), 1) && Flat(Singles(|ks|)) == Iota(|ks|)
  {
    hide RunsOk, Iota;
    FlatSingles(|ks|);
    SinglesOk(ks, pr);
    assert [] + Singles(|ks|) == Singles(|ks|);
  }

  lemma SinglesOk(ks: seq<int>, pr: seq<bool>)
    requires |ks| == |pr|
    ensures RunsOk(ks, pr, Singles(|ks|)) && Sized(Singles(|ks|), 1)
  {}

  /** A finished pass is the start of the next one. */
  lemma NextPass(ks: seq<int>, pr: seq<bool>, out: seq<seq<nat>>, insize: nat)
    requires Passing(ks, pr, out, [], insize)
    ensures Passing(ks, pr, [], out, 2 * insize)
    ensures |out| >= 2 ==> 2 * insize < |ks|
  {
    assert out + [] == out && [] + out == out;
    if |out| >= 2 {
      var s := Flat(out);
      assert |s| == |multiset(s)| == |multiset(Iota(|ks|))| == |ks|;
      assert s == out[0] + Flat(out[1..]) && Flat(out[1..]) == out[1] + Flat(out[1..][1..]);
    }
  }

  /** One run left: it is the stable order, and two or more nodes have all been visited. */
  lemma LastPass(ks: seq<int>, pr: seq<bool>, out: seq<seq<nat>>, insize: nat)
    requires Passing(ks, pr, out, [], insize) && |out| <= 1 && ks != []
    ensures Flat(out) == StableOrder(ks)
    ensures |ks| >= 2 ==> forall k :: 0 <= k < |pr| ==> pr[k]
  {
    assert out + [] == out;
    assert |Flat(out)| == |multiset(Flat(out))| == |multiset(Iota(|ks|))| == |ks|;
    assert out != [];
    var m := out[0];
    assert out == [m];
    FlatSingle(m);
    IsStableOrder(ks, m);
    if |ks| >= 2 {
      assert |m| == |multiset(m)| == |multiset(Iota(|ks|))| == |ks|;
      forall k | 0 <= k < |pr| ensures pr[k] {
        assert Iota(|ks|)[k] == k && k in multiset(Iota(|ks|));
        assert k in multiset(m);
        var i :| 0 <= i < |m| && m[i] == k;
      }
    }
  }

  // ---------------------------------------------------------------------------
  // The reference: insertion of the positions one by one
  // ---------------------------------------------------------------------------

  /** Insert position k into a stably sorted sequence of positions. */
  function Insert(ks: seq<int>, k: nat, s: seq<nat>): (r: seq<nat>)
    requires k < |ks| && InRange(s, k)
    ensures InRange(r, k + 1) && multiset(r) == multiset(s) + multiset{k}
  {
    if s == [] || Before(ks, k, s[0]) then
      [k] + s
    else
      var t := Insert(ks, k, s[1..]);
      assert s == [s[0]] + s[1..];
      [s[0]] + t
  }

  function OrderOf(ks: seq<int>, n: nat): (r: seq<nat>)
    requires n <= |ks|
    ensures InRange(r, n)
  {
    if n == 0 then [] else Insert(ks, n - 1, OrderOf(ks, n - 1))
  }

  /** The stable sorted order of all positions 0, 1, ..., |ks| - 1. */
  function StableOrder(ks: seq<int>): (r: seq<nat>)
    ensures InRange(r, |ks|)
  {
    OrderOf(ks, |ks|)
  }

  function Iota(n: nat): (s: seq<nat>)
    ensures |s| == n && forall i :: 0 <= i < n ==> s[i] == i
  {
    seq(n, i requires 0 <= i < n => i as nat)
  }

  lemma PrependSorted(ks: seq<int>, x: nat, t: seq<nat>)
    requires x < |ks| && InRange(t, |ks|) && StablySorted(ks, t)
    requires forall i :: 0 <= i < |t| ==> Before(ks, x, t[i])
    ensures InRange([x] + t, |ks|) && StablySorted(ks, [x] + t)
  {
    hide Before;
    var r := [x] + t;
    forall i, j | 0 <= i < j < |r| ensures Before(ks, r[i], r[j]) {
      assert r[j] == t[j - 1] && (i > 0 ==> r[i] == t[i - 1]);
    }
  }

  lemma {:induction false} InsertSorted(ks: seq<int>, k: nat, s: seq<nat>)
    requires k < |ks| && InRange(s, k) && StablySorted(ks, s)
    ensures StablySorted(ks, Insert(ks, k, s))
  {
    if s == [] {
    } else if Before(ks, k, s[0]) {
      assert forall i :: 0 < i < |s| ==> Before(ks, s[0], s[i]);
      PrependSorted(ks, k, s);
    } else {
      var t := Insert(ks, k, s[1..]);
      InsertSorted(ks, k, s[1..]);
      forall i | 0 <= i < |t| ensures Before(ks, s[0], t[i]) {
        InsertMember(ks, k, s[1..], t[i]);
      }
      PrependSorted(ks, s[0], t);
    }
  }

  lemma InsertMember(ks: seq<int>, k: nat, s: seq<nat>, x: nat)
    requires k < |ks| && InRange(s, k) && x in Insert(ks, k, s)
    ensures x == k || exists i :: 0 <= i < |s| && s[i] == x
  {
    assert x in multiset(Insert(ks, k, s));
    assert x == k || x in multiset(s);
  }

  lemma IotaContents(n: nat)
    requires n > 0
    ensures multiset(Iota(n)) == multiset(Iota(n - 1) + [n - 1])
  {
    assert Iota(n) == Iota(n - 1) + [n - 1];
  }

  lemma OrderNone(ks: seq<int>)
    ensures OrderOf(ks, 0) == [] == Iota(0) && StablySorted(ks, [])
  {}

  lemma OrderUnfold(ks: seq<int>, n: nat)
    requires 0 < n <= |ks|
    ensures OrderOf(ks, n) == Insert(ks, n - 1, OrderOf(ks, n - 1))
  {
    hide Insert;
  }

  lemma OrderStep(ks: seq<int>, n: nat)
    requires 0 < n <= |ks|
    ensures multiset(OrderOf(ks, n)) == multiset(OrderOf(ks, n - 1) + [n - 1])
  {
    OrderUnfold(ks, n);
    hide *;
  }

  lemma {:induction false} OrderOfContents(ks: seq<int>, n: nat)
    requires n <= |ks|
    ensures multiset(OrderOf(ks, n)) == multiset(Iota(n))
  {
    hide *;
    if n == 0 {
      OrderNone(ks);
    } else {
      OrderOfContents(ks, n - 1);
      OrderStep(ks, n);
      IotaContents(n);
    }
  }

  lemma {:induction false} OrderOfSorted(ks: seq<int>, n: nat)
    requires n <= |ks|
    ensures StablySorted(ks, OrderOf(ks, n))
  {
    hide *;
    if n == 0 {
      OrderNone(ks);
    } else {
      OrderOfSorted(ks, n - 1);
      InsertSorted(ks, n - 1, OrderOf(ks, n - 1));
      OrderUnfold(ks, n);
    }
  }

  lemma HeadFirst(ks: seq<int>, s: seq<nat>, x: nat)
    requires InRange(s, |ks|) && StablySorted(ks, s) && x in s
    ensures x < |ks| && (x == s[0] || Before(ks, s[0], x))
  {
    var i :| 0 <= i < |s| && s[i] == x;
  }

  lemma DropHead(s: seq<nat>, t: seq<nat>)
    requires s != [] && t != [] && s[0] == t[0] && multiset(s) == multiset(t)
    ensures multiset(s[1..]) == multiset(t[1..])
  {
    assert s == [s[0]] + s[1..] && t == [t[0]] + t[1..];
    assert multiset(s[1..]) == multiset(s) - multiset{s[0]};
    assert multiset(t[1..]) == multiset(t) - multiset{t[0]};
  }

  /** There is only one stably sorted arrangement of given positions. */
  lemma {:induction false} SortedUnique(ks: seq<int>, s: seq<nat>, t: seq<nat>)
    requires InRange(s, |ks|) && InRange(t, |ks|)
    requires StablySorted(ks, s) && StablySorted(ks, t) && multiset(s) == multiset(t)
    ensures s == t
  {
    assert |s| == |multiset(s)| == |multiset(t)| == |t|;
    if s != [] {
      assert s[0] in multiset(t) && t[0] in multiset(s);
      HeadFirst(ks, s, t[0]);
      HeadFirst(ks, t, s[0]);
      assert s[0] == t[0];
      DropHead(s, t);
      SortedUnique(ks, s[1..], t[1..]);
      assert s == [s[0]] + s[1..] && t == [t[0]] + t[1..];
    }
  }

  /** A stably sorted arrangement of all positions is the reference order. */
  lemma IsStableOrder(ks: seq<int>, s: seq<nat>)
    requires InRange(s, |ks|) && StablySorted(ks, s) && multiset(s) == multiset(Iota(|ks|))
    ensures s == StableOrder(ks)
  {
    OrderOfSorted(ks, |ks|);
    OrderOfContents(ks, |ks|);
    SortedUnique(ks, s, StableOrder(ks));
  }

  /** The reference order is the one arrangement of all positions that is sorted and stable. */
  lemma StableOrderIs(ks: seq<int>, s: seq<nat>)
    ensures s == StableOrder(ks)
       <==> InRange(s, |ks|) && StablySorted(ks, s) && multiset(s) == multiset(Iota(|ks|))
  {
    OrderOfSorted(ks, |ks|);
    OrderOfContents(ks, |ks|);
    if InRange(s, |ks|) && StablySorted(ks, s) && multiset(s) == multiset(Iota(|ks|)) {
      IsStableOrder(ks, s);
    }
  }
}
