/**
 What core_bench_list does to the order of the list and what it returns, on sequences: ks and ws
 are the idx and data16 of every item by position, an order is a sequence of positions.
 */
module BenchSpec {
  import opened SortOrder
  import opened ListOrder
  import opened ListItems
  import opened Tour
  import Crc

  /** ee_s16 increment; the conversion back to 16 bits wraps. */
  function NextIdx(idx: s16): s16 {
    if idx == 0x7fff then -0x8000 else idx + 1
  }

  /** Whether a search stops at the item at position x: by idx, or by low byte when idx is negative. */
  predicate Hits(ks: seq<int>, ws: seq<bv16>, x: nat, idx: s16, data16: bv16)
    requires x < |ks| == |ws|
  {
    if idx >= 0 then ks[x] == idx else ws[x] & 0xff == data16
  }

  /** The place where a search in the order s stops, or the length of s. */
  function Found(ks: seq<int>, ws: seq<bv16>, s: seq<nat>, idx: s16, data16: bv16): (k: nat)
    requires InRange(s, |ks|) && |ks| == |ws|
    ensures k <= |s| && forall i :: 0 <= i < k ==> !Hits(ks, ws, s[i], idx, data16)
    ensures k < |s| ==> Hits(ks, ws, s[k], idx, data16)
  {
    if s == [] || Hits(ks, ws, s[0], idx, data16) then 0 else 1 + Found(ks, ws, s[1..], idx, data16)
  }

  /** There is only one such place. */
  lemma FoundIs(ks: seq<int>, ws: seq<bv16>, s: seq<nat>, idx: s16, data16: bv16, k: nat)
    requires InRange(s, |ks|) && |ks| == |ws| && k <= |s|
    requires forall i :: 0 <= i < k ==> !Hits(ks, ws, s[i], idx, data16)
    requires k < |s| ==> Hits(ks, ws, s[k], idx, data16)
    ensures k == Found(ks, ws, s, idx, data16)
  {
    hide Hits;
  }

  /** Lines 169-190: the list is reversed, and what followed the found item moves to the second place. */
  function Turned(s: seq<nat>, k: nat): (r: seq<nat>)
    requires k <= |s|
    ensures |r| == |s|
  {
    if k == 0 || k == |s| then Rev(s) else MoveToSecond(Rev(s), |s| - k)
  }

  lemma TurnedPerm(s: seq<nat>, k: nat, n: nat)
    requires Perm(s, n) && k <= |s|
    ensures Perm(Turned(s, k), n)
  {
    hide MoveToSecond, Perm, Rev;
    RevPerm(s, n);
    if 0 < k < |s| {
      MovePerm(Rev(s), |s| - k, n);
    }
  }

  /** ee_u16 */
  type u16 = x: nat | x < 0x1_0000

  function Bit8(w: bv16): nat { ((w >> 8) & 1) as nat }
  function Bit9(w: bv16): nat { ((w >> 9) & 1) as nat }

  /** Lines 173, 179-181: one bit of the item found, or of the second item of the reversed list. */
  function Bit(ws: seq<bv16>, s: seq<nat>, k: nat): nat
    requires InRange(s, |ws|) && InRange(Rev(s), |ws|) && 2 <= |s| && k <= |s|
  {
    if k == |s| then Bit8(ws[Rev(s)[1]])
    else if ws[s[k]] & 0x1 != 0 then Bit9(ws[s[k]])
    else 0
  }

  /** Lines 172-181: an addition to one of the sums. */
  function Plus(sum: u16, n: nat): u16 { (sum + n) % 0x1_0000 }

  /** Line 200. */
  function Total(bits: u16, found: u16, missed: u16): bv16 { ToU16(bits + (found * 4 - missed)) }

  /** The conversion to ee_u16. */
  function ToU16(x: int): bv16 { (x % 0x1_0000) as bv16 }

  /** The state of the searches: order, what to look for next, and the sums so far. */
  datatype Searches = Searches(s: seq<nat>, idx: s16, data16: bv16, bits: u16, found: u16, missed: u16) {
    function Sum(): bv16 { Total(bits, found, missed) }
  }

  /** The local variables hold the state of the searches. */
  predicate Holds(se: Searches, idx: s16, data16: bv16, retval: u16, found: u16, missed: u16) {
    se == Searches(se.s, idx, data16, retval, found, missed)
  }

  lemma HoldsParts(se: Searches, idx: s16, data16: bv16, retval: u16, found: u16, missed: u16)
    requires Holds(se, idx, data16, retval, found, missed)
    ensures idx == se.idx && data16 == se.data16
    ensures se.Sum() == ToU16(retval + (found * 4 - missed))
  {}

  function NextLow(w: bv16): bv16 { (w + 1) & 0xff }

  /** Line 168: i & 0xff, what search i looks for. */
  function LowByte(i: nat): bv16 {
    if i == 0 then 0 else NextLow(LowByte(i - 1))
  }

  /** Lines 169-199, with data16 set for search i. */
  function NextSearch(ks: seq<int>, ws: seq<bv16>, se: Searches, i: nat): (r: Searches)
    requires |ks| == |ws| >= 2 && Perm(se.s, |ks|)
    ensures Perm(r.s, |ks|)
  {
    var data16 := LowByte(i);
    var k := Found(ks, ws, se.s, se.idx, data16);
    TurnedPerm(se.s, k, |ks|);
    RevPerm(se.s, |ks|);
    Searches(Turned(se.s, k), if se.idx >= 0 then NextIdx(se.idx) else se.idx, data16, Plus(se.bits, Bit(ws, se.s, k)),
             if k < |se.s| then Plus(se.found, 1) else se.found, if k < |se.s| then se.missed else Plus(se.missed, 1))
  }

  lemma NextParts(ks: seq<int>, ws: seq<bv16>, se: Searches, i: nat, k: nat, hit: bool)
    requires |ks| == |ws| >= 2 && Perm(se.s, |ks|) && InRange(Rev(se.s), |ks|)
    requires k == Found(ks, ws, se.s, se.idx, LowByte(i)) && (hit <==> k < |se.s|)
    ensures var r := NextSearch(ks, ws, se, i);
            && r.s == Turned(se.s, k) && r.idx == (if se.idx >= 0 then NextIdx(se.idx) else se.idx)
            && r.data16 == LowByte(i) && r.bits == Plus(se.bits, Bit(ws, se.s, k))
            && r.found == (if hit then (se.found + 1) % 0x1_0000 else se.found)
            && r.missed == (if hit then se.missed else (se.missed + 1) % 0x1_0000)
  {
    hide Found, LowByte, Turned, Bit;
  }

  /** Before the first search. */
  function StartAt(s0: seq<nat>, idx: s16): Searches { Searches(s0, idx, 0, 0, 0, 0) }

  lemma StartHolds(s0: seq<nat>, idx: s16)
    ensures Holds(StartAt(s0, idx), idx, 0, 0, 0, 0)
  {}

  /** The first m searches. */
  function SearchesOf(ks: seq<int>, ws: seq<bv16>, s0: seq<nat>, idx: s16, m: nat): (r: Searches)
    requires |ks| == |ws| >= 2 && Perm(s0, |ks|)
    ensures Perm(r.s, |ks|)
  {
    if m == 0 then StartAt(s0, idx)
    else NextSearch(ks, ws, SearchesOf(ks, ws, s0, idx, m - 1), m - 1)
  }

  /** The state after m searches. */
  predicate Searched(ks: seq<int>, ws: seq<bv16>, s0: seq<nat>, idx: s16, m: nat, se: Searches)
    requires |ks| == |ws| >= 2 && Perm(s0, |ks|)
  {
    se == SearchesOf(ks, ws, s0, idx, m)
  }

  lemma SearchStart(ks: seq<int>, ws: seq<bv16>, s0: seq<nat>, idx: s16)
    requires |ks| == |ws| >= 2 && Perm(s0, |ks|)
    ensures Searched(ks, ws, s0, idx, 0, StartAt(s0, idx)) && StartAt(s0, idx).s == s0
  {}

  lemma SearchNext(ks: seq<int>, ws: seq<bv16>, s0: seq<nat>, idx: s16, m: nat, se: Searches)
    requires |ks| == |ws| >= 2 && Perm(s0, |ks|) && Searched(ks, ws, s0, idx, m, se)
    ensures Perm(se.s, |ks|) && Searched(ks, ws, s0, idx, m + 1, NextSearch(ks, ws, se, m))
  {
    hide NextSearch;
  }

  /** A single search that finds nothing reverses the list. */
  lemma FruitlessSearch(ks: seq<int>, ws: seq<bv16>, s0: seq<nat>, idx: s16)
    requires |ks| == |ws| >= 2 && Perm(s0, |ks|)
    requires forall x :: 0 <= x < |ks| ==> !Hits(ks, ws, x, idx, 0)
    ensures SearchesOf(ks, ws, s0, idx, 1).s == Rev(s0)
  {
    hide Hits, NoDup, Rev, MoveToSecond;
    assert SearchesOf(ks, ws, s0, idx, 0).s == s0;
  }

  // ---------------------------------------------------------------------------
  // What the searches look for and what they add up to, search by search
  // ---------------------------------------------------------------------------

  /** The number that a byte stands for, and the number in the low byte of a word. */
  function ByteNumber(b: bv8): (n: nat)
    ensures n < 256
  {
    (if b & 0x01 != 0 then 1 else 0) + (if b & 0x02 != 0 then 2 else 0) + (if b & 0x04 != 0 then 4 else 0)
    + (if b & 0x08 != 0 then 8 else 0) + (if b & 0x10 != 0 then 16 else 0) + (if b & 0x20 != 0 then 32 else 0)
    + (if b & 0x40 != 0 then 64 else 0) + (if b & 0x80 != 0 then 128 else 0)
  }

  function LowNumber(w: bv16): nat { ByteNumber(Crc.Low8(w)) }

  lemma ByteNext(b: bv8)
    ensures ByteNumber(b + 1) == (ByteNumber(b) + 1) % 256
  {}

  lemma ByteInjective(a: bv8, b: bv8)
    requires ByteNumber(a) == ByteNumber(b)
    ensures a == b
  {}

  lemma LowNext(w: bv16)
    ensures LowNumber(NextLow(w)) == (LowNumber(w) + 1) % 256 && OneByte(NextLow(w))
  {
    assert Crc.Low8(NextLow(w)) == Crc.Low8(w) + 1;
    ByteNext(Crc.Low8(w));
    hide ByteNumber;
  }

  predicate OneByte(w: bv16) { w & 0xff00 == 0 }

  /** Search i looks for the low byte of i, the number i modulo 256. */
  lemma {:induction false} LowByteIs(i: nat)
    ensures LowNumber(LowByte(i)) == i % 256 && OneByte(LowByte(i))
  {
    hide LowNumber, OneByte, NextLow;
    if i > 0 {
      LowByteIs(i - 1);
      LowNext(LowByte(i - 1));
    } else {
      LowZero();
    }
  }

  lemma LowZero()
    ensures LowNumber(0) == 0 && OneByte(0)
  {}

  /** Search i looks for the starting idx plus i as long as that does not overflow; from then on by low byte. */
  function SoughtIdx(idx: s16, i: nat): s16 {
    if idx < 0 then idx else if idx + i <= 0x7fff then idx + i else -0x8000
  }

  /** The item at position x is what search i looks for. */
  predicate Wanted(ks: seq<int>, ws: seq<bv16>, idx: s16, i: nat, x: nat)
    requires x < |ks| == |ws|
  {
    var sought := SoughtIdx(idx, i);
    if sought >= 0 then ks[x] == sought else LowNumber(ws[x]) == i % 256
  }

  /** Some item is. */
  predicate Hit(ks: seq<int>, ws: seq<bv16>, idx: s16, i: nat)
    requires |ks| == |ws|
  {
    exists x: nat :: x < |ks| && Wanted(ks, ws, idx, i, x)
  }

  /** How many of the first m searches find an item. */
  function HitCount(ks: seq<int>, ws: seq<bv16>, idx: s16, m: nat): (h: nat)
    requires |ks| == |ws|
    ensures h <= m
  {
    if m == 0 then 0 else HitCount(ks, ws, idx, m - 1) + if Hit(ks, ws, idx, m - 1) then 1 else 0
  }

  /** The first place in the order s of an item that search i looks for, or the length of s. */
  function PlaceOf(ks: seq<int>, ws: seq<bv16>, s: seq<nat>, idx: s16, i: nat): (k: nat)
    requires InRange(s, |ks|) && |ks| == |ws|
    ensures k <= |s| && (forall j :: 0 <= j < k ==> !Wanted(ks, ws, idx, i, s[j]))
    ensures k < |s| ==> Wanted(ks, ws, idx, i, s[k])
  {
    if s == [] || Wanted(ks, ws, idx, i, s[0]) then 0 else 1 + PlaceOf(ks, ws, s[1..], idx, i)
  }

  /** The order after m searches. */
  function OrderAfter(ks: seq<int>, ws: seq<bv16>, s0: seq<nat>, idx: s16, m: nat): (s: seq<nat>)
    requires |ks| == |ws| && Perm(s0, |ks|)
    ensures Perm(s, |ks|)
  {
    if m == 0 then s0
    else
      var s := OrderAfter(ks, ws, s0, idx, m - 1);
      var k := PlaceOf(ks, ws, s, idx, m - 1);
      TurnedPerm(s, k, |ks|);
      Turned(s, k)
  }

  /**
   The bit that search i, in the order s, adds to the result: bit 9 of the item found if its bit 0 is set too, or bit
   8 of the item that is second once the list is reversed.
   */
  function Extra(ks: seq<int>, ws: seq<bv16>, s: seq<nat>, idx: s16, i: nat): (bit: nat)
    requires |ks| == |ws| >= 2 && Perm(s, |ks|)
    ensures bit <= 1
  {
    var k := PlaceOf(ks, ws, s, idx, i);
    if (if k < |s| then ws[s[k]] & 0x201 == 0x201 else ws[s[|s| - 2]] & 0x100 == 0x100) then 1 else 0
  }

  /** All that it adds: four more for an item found, one less otherwise. */
  function Yield(ks: seq<int>, ws: seq<bv16>, s: seq<nat>, idx: s16, i: nat): int
    requires |ks| == |ws| >= 2 && Perm(s, |ks|)
  {
    Extra(ks, ws, s, idx, i) + if Hit(ks, ws, idx, i) then 4 else -1
  }

  /** The sum over the first m searches. */
  function Tally(ks: seq<int>, ws: seq<bv16>, s0: seq<nat>, idx: s16, m: nat): int
    requires |ks| == |ws| >= 2 && Perm(s0, |ks|)
  {
    if m == 0 then 0
    else Tally(ks, ws, s0, idx, m - 1) + Yield(ks, ws, OrderAfter(ks, ws, s0, idx, m - 1), idx, m - 1)
  }

  /** The bits alone. */
  function ExtraCount(ks: seq<int>, ws: seq<bv16>, s0: seq<nat>, idx: s16, m: nat): nat
    requires |ks| == |ws| >= 2 && Perm(s0, |ks|)
  {
    if m == 0 then 0
    else ExtraCount(ks, ws, s0, idx, m - 1) + Extra(ks, ws, OrderAfter(ks, ws, s0, idx, m - 1), idx, m - 1)
  }

  lemma {:induction false} TallyIs(ks: seq<int>, ws: seq<bv16>, s0: seq<nat>, idx: s16, m: nat)
    requires |ks| == |ws| >= 2 && Perm(s0, |ks|)
    ensures var hits := HitCount(ks, ws, idx, m);
            Tally(ks, ws, s0, idx, m) == ExtraCount(ks, ws, s0, idx, m) + 4 * hits - (m - hits)
  {
    hide Hit, Extra, OrderAfter, NoDup;
    if m > 0 { TallyIs(ks, ws, s0, idx, m - 1); }
  }

  lemma LowBytes(w: bv16, b: bv16)
    requires OneByte(b)
    ensures w & 0xff == b <==> LowNumber(w) == LowNumber(b)
  {
    assert w & 0xff == b <==> Crc.Low8(w) == Crc.Low8(b);
    if LowNumber(w) == LowNumber(b) { ByteInjective(Crc.Low8(w), Crc.Low8(b)); }
    hide ByteNumber;
  }

  lemma WantedHits(ks: seq<int>, ws: seq<bv16>, idx: s16, i: nat, x: nat)
    requires x < |ks| == |ws|
    ensures Wanted(ks, ws, idx, i, x) <==> Hits(ks, ws, x, SoughtIdx(idx, i), LowByte(i))
  {
    LowByteIs(i);
    LowBytes(ws[x], LowByte(i));
    hide LowNumber, LowByte, OneByte;
  }

  lemma PlaceFound(ks: seq<int>, ws: seq<bv16>, s: seq<nat>, idx: s16, i: nat)
    requires |ks| == |ws| && Perm(s, |ks|)
    ensures PlaceOf(ks, ws, s, idx, i) == Found(ks, ws, s, SoughtIdx(idx, i), LowByte(i))
    ensures PlaceOf(ks, ws, s, idx, i) < |s| <==> Hit(ks, ws, idx, i)
  {
    hide Wanted, Hits, LowByte, NoDup, PlaceOf;
    var k := PlaceOf(ks, ws, s, idx, i);
    forall j | 0 <= j < |s|
      ensures Wanted(ks, ws, idx, i, s[j]) <==> Hits(ks, ws, s[j], SoughtIdx(idx, i), LowByte(i))
    {
      WantedHits(ks, ws, idx, i, s[j]);
    }
    FoundIs(ks, ws, s, SoughtIdx(idx, i), LowByte(i), k);
    if Hit(ks, ws, idx, i) {
      var x: nat :| x < |ks| && Wanted(ks, ws, idx, i, x);
      PermOnto(s, |ks|, x);
    }
  }

  lemma OneBit(w: bv16)
    ensures Bit8(w) == if w & 0x100 == 0x100 then 1 else 0
    ensures Bit9(w) == if w & 0x200 == 0x200 then 1 else 0
    ensures w & 0x201 == 0x201 <==> w & 0x1 != 0 && w & 0x200 == 0x200
  {
    assert (w >> 8) & 1 == if w & 0x100 == 0x100 then 1 else 0;
    assert (w >> 9) & 1 == if w & 0x200 == 0x200 then 1 else 0;
  }

  lemma ExtraBit(ks: seq<int>, ws: seq<bv16>, s: seq<nat>, idx: s16, i: nat)
    requires |ks| == |ws| >= 2 && Perm(s, |ks|)
    ensures InRange(Rev(s), |ws|) && Bit(ws, s, PlaceOf(ks, ws, s, idx, i)) == Extra(ks, ws, s, idx, i)
  {
    hide NoDup, PlaceOf, Rev;
    var k := PlaceOf(ks, ws, s, idx, i);
    RevPerm(s, |ks|);
    RevAt(s, 1);
    OneBit(if k < |s| then ws[s[k]] else ws[s[|s| - 2]]);
    hide Bit8, Bit9;
  }

  lemma WrapAround(bits: nat, hits: nat, misses: nat)
    ensures ToU16(bits % 0x1_0000 + ((hits % 0x1_0000) * 4 - misses % 0x1_0000)) == ToU16(bits + 4 * hits - misses)
  {
    var x, y := bits % 0x1_0000 + ((hits % 0x1_0000) * 4 - misses % 0x1_0000), bits + 4 * hits - misses;
    var q := bits / 0x1_0000 + 4 * (hits / 0x1_0000) - misses / 0x1_0000;
    assert y == x + 0x1_0000 * q;
    hide ToU16;
    SameRest(x, q);
  }

  lemma SameRest(x: int, q: int)
    ensures ToU16(x + 0x1_0000 * q) == ToU16(x)
  {
    assert (x + 0x1_0000 * q) % 0x1_0000 == x % 0x1_0000;
  }

  lemma NextWrap(sum: nat, n: nat)
    ensures (sum % 0x1_0000 + n) % 0x1_0000 == (sum + n) % 0x1_0000
  {}

  /** What one search does, in terms of the closed forms. */
  lemma NextYield(ks: seq<int>, ws: seq<bv16>, se: Searches, idx: s16, i: nat)
    requires |ks| == |ws| >= 2 && Perm(se.s, |ks|) && se.idx == SoughtIdx(idx, i)
    ensures var r, hit := NextSearch(ks, ws, se, i), Hit(ks, ws, idx, i);
            && r.s == Turned(se.s, PlaceOf(ks, ws, se.s, idx, i)) && r.idx == SoughtIdx(idx, i + 1)
            && r.data16 == LowByte(i) && r.bits == Plus(se.bits, Extra(ks, ws, se.s, idx, i))
            && r.found == Plus(se.found, if hit then 1 else 0) && r.missed == Plus(se.missed, if hit then 0 else 1)
  {
    hide Bit, Extra, Found, Hit, LowByte, NextSearch, NoDup, PlaceOf, Rev, Turned;
    PlaceFound(ks, ws, se.s, idx, i);
    ExtraBit(ks, ws, se.s, idx, i);
    NextParts(ks, ws, se, i, PlaceOf(ks, ws, se.s, idx, i), Hit(ks, ws, idx, i));
  }

  /** After m searches: the order, and what the last one looked for and the next one will. */
  lemma {:induction false} SearchesGo(ks: seq<int>, ws: seq<bv16>, s0: seq<nat>, idx: s16, m: nat)
    requires |ks| == |ws| >= 2 && Perm(s0, |ks|)
    ensures var se := SearchesOf(ks, ws, s0, idx, m);
            && se.s == OrderAfter(ks, ws, s0, idx, m) && se.idx == SoughtIdx(idx, m)
            && se.data16 == (if m == 0 then 0 else LowByte(m - 1))
  {
    hide Extra, Hit, LowByte, NextSearch, NoDup, PlaceOf, Plus, Turned;
    if m > 0 {
      SearchesGo(ks, ws, s0, idx, m - 1);
      NextYield(ks, ws, SearchesOf(ks, ws, s0, idx, m - 1), idx, m - 1);
    }
  }

  /** After m searches: the three sums. */
  lemma {:induction false} SearchesCount(ks: seq<int>, ws: seq<bv16>, s0: seq<nat>, idx: s16, m: nat)
    requires |ks| == |ws| >= 2 && Perm(s0, |ks|)
    ensures var se := SearchesOf(ks, ws, s0, idx, m);
            && se.bits == ExtraCount(ks, ws, s0, idx, m) % 0x1_0000
            && se.found == HitCount(ks, ws, idx, m) % 0x1_0000
            && se.missed == (m - HitCount(ks, ws, idx, m)) % 0x1_0000
  {
    hide Extra, Hit, LowByte, NextSearch, NoDup, OrderAfter, PlaceOf, SoughtIdx, Turned;
    if m > 0 {
      var se := SearchesOf(ks, ws, s0, idx, m - 1);
      var hits := HitCount(ks, ws, idx, m - 1);
      SearchesCount(ks, ws, s0, idx, m - 1);
      SearchesGo(ks, ws, s0, idx, m - 1);
      NextYield(ks, ws, se, idx, m - 1);
      NextWrap(ExtraCount(ks, ws, s0, idx, m - 1), Extra(ks, ws, se.s, idx, m - 1));
      NextWrap(hits, if Hit(ks, ws, idx, m - 1) then 1 else 0);
      NextWrap(m - 1 - hits, if Hit(ks, ws, idx, m - 1) then 0 else 1);
    }
  }

  /** What the searches come to is the sum over all of them, modulo 2^16. */
  lemma SearchesAddUp(ks: seq<int>, ws: seq<bv16>, s0: seq<nat>, idx: s16, m: nat)
    requires |ks| == |ws| >= 2 && Perm(s0, |ks|)
    ensures SearchesOf(ks, ws, s0, idx, m).Sum() == ToU16(Tally(ks, ws, s0, idx, m))
         == (Tally(ks, ws, s0, idx, m) % 0x1_0000) as bv16
  {
    hide ExtraCount, HitCount, NoDup, SearchesOf, Tally, ToU16;
    SearchesCount(ks, ws, s0, idx, m);
    TallyIs(ks, ws, s0, idx, m);
    var hits := HitCount(ks, ws, idx, m);
    WrapAround(ExtraCount(ks, ws, s0, idx, m), hits, m - hits);
    ToU16Is(Tally(ks, ws, s0, idx, m));
  }

  lemma SearchesEnd(ks: seq<int>, ws: seq<bv16>, s0: seq<nat>, idx: s16, m: nat, se: Searches)
    requires |ks| == |ws| >= 2 && Perm(s0, |ks|) && Searched(ks, ws, s0, idx, m, se)
    ensures se.Sum() == ToU16(Tally(ks, ws, s0, idx, m)) && se.idx == SoughtIdx(idx, m)
  {
    hide NoDup, SearchesOf, Searches.Sum, Tally, ToU16;
    SearchesGo(ks, ws, s0, idx, m);
    SearchesAddUp(ks, ws, s0, idx, m);
  }

  lemma ToU16Is(x: int)
    ensures ToU16(x) == (x % 0x1_0000) as bv16
  {}

  /** n times the CRC of one word: the loops read list->info, not finder->info. */
  function CrcRepeat(word: bv16, n: nat, crc: bv16): bv16 {
    if n == 0 then crc else CrcRepeat(word, n - 1, Crc.WordCrc(word, crc))
  }

  /** The list without its second item. */
  function Shortened(s: seq<nat>): (r: seq<nat>)
    requires |s| >= 3
    ensures |r| == |s| - 1 && forall i :: 0 <= i < |r| ==> r[i] == s[if i == 0 then 0 else i + 1]
  {
    [s[0]] + s[2..]
  }

  /** Lines 206-218: the checksum of the shortened list, from the item found or else from the second one. */
  function FirstCrc(ks: seq<int>, ws: seq<bv16>, t: seq<nat>, idx: s16, data16: bv16, crc: bv16): bv16
    requires |ks| == |ws| >= 3 && InRange(t, |ks|) && |t| == |ks|
  {
    var k := Found(ks, ws, Shortened(t), idx, data16);
    CrcRepeat(ws[t[0]], |t| - 1 - (if k < |t| - 1 then k else 1), crc)
  }

  /** The seven-bit values that words cache. */
  function ValuesOf(ws: seq<bv16>): (ks: seq<int>)
    ensures |ks| == |ws| && forall i :: 0 <= i < |ks| ==> ks[i] == Value(ws[i]) as int
  {
    seq(|ws|, i requires 0 <= i < |ws| => Value(ws[i]) as int)
  }

  function BackupsOf(ws: seq<bv16>): (bs: seq<bv16>)
    ensures |bs| == |ws| && forall i :: 0 <= i < |bs| ==> bs[i] == Backup(ws[i])
  {
    seq(|ws|, i requires 0 <= i < |ws| => Backup(ws[i]))
  }

  predicate AllCached(ws: seq<bv16>) {
    forall i :: 0 <= i < |ws| ==> Cached(ws[i])
  }

  /** The items of the list by position, what the kernels return, and what items and results hold. */
  datatype Store = Store(items: seq<ListData>, bench: Bench, memory: Memory)

  /** These words by position are what the items hold. */
  predicate Shows(m: Memory, items: seq<ListData>, ws: seq<bv16>) {
    |ws| == |items| && Covers(m, items) && forall i :: 0 <= i < |items| ==> m.words[items[i]] == ws[i]
  }

  lemma ArrangeCovers(m: Memory, items: seq<ListData>, s: seq<nat>)
    requires Covers(m, items) && InRange(s, |items|)
    ensures Covers(m, Arrange(items, s))
  {}

  /** What the sort by data leaves in the items and the results: those of one walk along the list in the order s. */
  function SortedMemory(st: Store, s: seq<nat>): (m: Memory)
    requires Covers(st.memory, st.items) && InRange(s, |st.items|)
    ensures m.words.Keys == st.memory.words.Keys
  {
    ArrangeCovers(st.memory, st.items, s);
    Toured(Complex, st.bench, st.memory, Arrange(st.items, s), |s|)
  }

  /** Lines 202-205: the words and results after the first sort, and the order it gives. */
  predicate FirstSorted(st: Store, ws: seq<bv16>, ws1: seq<bv16>, s: seq<nat>, t: seq<nat>, acc: Acc) {
    && AllCached(ws1) && BackupsOf(ws1) == BackupsOf(ws)
    && Perm(s, |ws1|) && t == SortedFrom(ValuesOf(ws1), s)
    && |ws| == |ws1| && Shows(st.memory, st.items, ws)
    && Shows(SortedMemory(st, s), st.items, ws1) && acc == SortedMemory(st, s).acc
  }

  /** Cached words are kept, and words that ask for no kernel keep their low seven bits. */
  lemma SortedWords(st: Store, ws: seq<bv16>, ws1: seq<bv16>, s: seq<nat>, t: seq<nat>, acc: Acc, i: nat)
    requires FirstSorted(st, ws, ws1, s, t, acc) && i < |ws|
    ensures Cached(ws[i]) ==> ws1[i] == ws[i]
    ensures !Kernelled(ws[i]) ==> Value(ws1[i]) == Value(ws[i])
  {
    hide AllCached, BackupsOf, Cached, Kernelled, NoDup, SortedFrom, Toured, Value, ValuesOf;
    ArrangeCovers(st.memory, st.items, s);
    TouredKeeps(Complex, st.bench, st.memory, Arrange(st.items, s), st.items[i]);
  }

  /** A list of words that ask for no kernel is put in the stable order of the values they had before. */
  lemma SortedByOwnValues(st: Store, ws: seq<bv16>, ws1: seq<bv16>, s: seq<nat>, t: seq<nat>, acc: Acc)
    requires FirstSorted(st, ws, ws1, s, t, acc)
    requires forall i :: 0 <= i < |ws| ==> !Kernelled(ws[i])
    ensures ValuesOf(ws1) == ValuesOf(ws) && t == SortedFrom(ValuesOf(ws), s)
  {
    forall i | 0 <= i < |ws| ensures Value(ws1[i]) == Value(ws[i]) {
      SortedWords(st, ws, ws1, s, t, acc, i);
    }
    hide AllCached, BackupsOf, Cached, Kernelled, NoDup, Shows, SortedFrom, SortedMemory, Value;
  }

  /** The results' checksum takes in the value of every item that had none cached, once, in the order of the list. */
  lemma SortedCrc(st: Store, ws: seq<bv16>, ws1: seq<bv16>, s: seq<nat>, t: seq<nat>, acc: Acc)
    requires FirstSorted(st, ws, ws1, s, t, acc)
    ensures Covers(st.memory, Arrange(st.items, s))
    ensures var values := Computations(st.bench, st.memory, Arrange(st.items, s), |s|);
            acc.crc == Crc.Feed(Crc.MessageBits(Bytes(values)), st.memory.acc.crc)
  {
    ArrangeCovers(st.memory, st.items, s);
    TouredCrc(st.bench, st.memory, Arrange(st.items, s), |s|);
  }

  /** For different items with words that are not cached and ask for no kernel, these values are their words. */
  lemma PlainCrc(st: Store, ws: seq<bv16>, ws1: seq<bv16>, s: seq<nat>, t: seq<nat>, acc: Acc)
    requires FirstSorted(st, ws, ws1, s, t, acc)
    requires forall i :: 0 <= i < |ws| ==> !Kernelled(ws[i]) && !Cached(ws[i])
    requires forall i, j :: 0 <= i < j < |ws| ==> st.items[i] != st.items[j]
    ensures acc.crc == Crc.Feed(Crc.MessageBits(Bytes(Arrange(ws, s))), st.memory.acc.crc)
  {
    hide AllCached, BackupsOf, Cached, Crc.Feed, Crc.MessageBits, Bytes, Kernelled, SortedFrom, Toured, ValuesOf;
    SortedCrc(st, ws, ws1, s, t, acc);
    var ds := Arrange(st.items, s);
    assert forall i, j :: 0 <= i < j < |ds| ==> ds[i] != ds[j];
    PlainComputations(st.bench, st.memory, ds, |s|);
    assert Computations(st.bench, st.memory, ds, |s|) == Arrange(ws, s);
  }

  /**
   Lines 164-222 on a list in the order s0: ws1, t and acc are the words, the order and the results when an item
   is removed, and crc is the checksum by then.
   */
  predicate Scrambled(st: Store, ks: seq<int>, ws: seq<bv16>, s0: seq<nat>, idx: s16, findNum: s16, ws1: seq<bv16>,
                      t: seq<nat>, acc: Acc, crc: bv16)
    requires |ks| == |ws| >= 3 && Perm(s0, |ks|)
  {
    var se := SearchesOf(ks, ws, s0, idx, if findNum > 0 then findNum else 0);
    && |ws1| == |ks| && Perm(t, |ks|)
    && (if idx > 0 then FirstSorted(st, ws, ws1, se.s, t, acc) else ws1 == ws && t == se.s && acc == st.memory.acc)
    && crc == FirstCrc(ks, ws1, t, se.idx, se.data16, se.Sum())
  }

  lemma ScrambledBy(st: Store, ks: seq<int>, ws: seq<bv16>, s0: seq<nat>, idx: s16, findNum: s16, ws1: seq<bv16>,
                    t: seq<nat>, acc: Acc, crc: bv16, se: Searches)
    requires |ks| == |ws| == |ws1| >= 3 && Perm(s0, |ks|) && Perm(t, |ks|)
    requires Searched(ks, ws, s0, idx, if findNum > 0 then findNum else 0, se)
    requires if idx > 0 then FirstSorted(st, ws, ws1, se.s, t, acc) else ws1 == ws && t == se.s && acc == st.memory.acc
    requires crc == FirstCrc(ks, ws1, t, se.idx, se.data16, se.Sum())
    ensures Scrambled(st, ks, ws, s0, idx, findNum, ws1, t, acc, crc)
  {
    hide FirstSorted, FirstCrc, NoDup, SearchesOf;
  }

  /** The whole of core_bench_list: s is the order of the list that comes out, and retval what is returned. */
  predicate Benched(st: Store, ks: seq<int>, ws: seq<bv16>, s0: seq<nat>, idx: s16, findNum: s16, ws1: seq<bv16>,
                    t: seq<nat>, acc: Acc, crc: bv16, s: seq<nat>, retval: bv16)
    requires |ks| == |ws| >= 3 && Perm(s0, |ks|)
  {
    && Scrambled(st, ks, ws, s0, idx, findNum, ws1, t, acc, crc)
    && s == SortedFrom(ks, t) && retval == CrcRepeat(ws[s[0]], |ks| - 1, crc)
  }

  /** The order, words and results that go in determine everything that comes out. */
  lemma BenchUnique(st: Store, ks: seq<int>, ws: seq<bv16>, s0: seq<nat>, idx: s16, findNum: s16, ws1: seq<bv16>,
                    t: seq<nat>, acc: Acc, crc: bv16, s: seq<nat>, retval: bv16, ws1': seq<bv16>, t': seq<nat>,
                    acc': Acc, crc': bv16, s': seq<nat>, retval': bv16)
    requires |ks| == |ws| >= 3 && Perm(s0, |ks|)
    requires Benched(st, ks, ws, s0, idx, findNum, ws1, t, acc, crc, s, retval)
    requires Benched(st, ks, ws, s0, idx, findNum, ws1', t', acc', crc', s', retval')
    ensures ws1 == ws1' && t == t' && acc == acc' && crc == crc' && s == s' && retval == retval'
  {
    hide AllCached, BackupsOf, CrcRepeat, FirstCrc, NoDup, SearchesOf, SortedFrom, SortedMemory, ValuesOf;
  }

  // ---------------------------------------------------------------------------
  // core_main.c, iterate: one run after the other
  // ---------------------------------------------------------------------------

  /** One run of the benchmark and the fold of its result into the results' checksum. */
  datatype Run = Run(s0: seq<nat>, before: Acc, ws1: seq<bv16>, t: seq<nat>, benched: Acc, crc: bv16, s: seq<nat>,
                     retval: bv16, after: Acc)

  /** Lines 65-66 or 67-68, on a list that holds ks and ws in the order run.s0. */
  predicate RunsOnce(st: Store, ks: seq<int>, ws: seq<bv16>, findNum: s16, idx: s16, run: Run)
    requires |ks| == |ws| >= 3
  {
    && Perm(run.s0, |ks|)
    && Benched(st.(memory := st.memory.(acc := run.before)), ks, ws, run.s0, idx, findNum, run.ws1, run.t,
               run.benched, run.crc, run.s, run.retval)
    && run.after == run.benched.(crc := Crc.WordCrc(run.retval, run.benched.crc))
  }

  /** A run with the same start ends the same. */
  lemma OnceUnique(st: Store, ks: seq<int>, ws: seq<bv16>, findNum: s16, idx: s16, a: Run, b: Run)
    requires |ks| == |ws| >= 3 && a.s0 == b.s0 && a.before == b.before
    requires RunsOnce(st, ks, ws, findNum, idx, a) && RunsOnce(st, ks, ws, findNum, idx, b)
    ensures a == b
  {
    hide Benched, Crc.WordCrc, NoDup;
    BenchUnique(st.(memory := st.memory.(acc := a.before)), ks, ws, a.s0, idx, findNum,
                a.ws1, a.t, a.benched, a.crc, a.s, a.retval, b.ws1, b.t, b.benched, b.crc, b.s, b.retval);
  }

  function OrderBefore(s0: seq<nat>, runs: seq<Run>, k: nat): seq<nat>
    requires k <= |runs|
  {
    if k == 0 then s0 else runs[k - 1].s
  }

  function AccBefore(acc: Acc, runs: seq<Run>, k: nat): Acc
    requires k <= |runs|
  {
    if k == 0 then acc else runs[k - 1].after
  }

  /** Run k, with 1 or -1 in turn, from the order and the results that the one before has left. */
  predicate InTurn(st: Store, ks: seq<int>, ws: seq<bv16>, findNum: s16, s0: seq<nat>, runs: seq<Run>, k: nat)
    requires |ks| == |ws| >= 3 && k < |runs|
  {
    && RunsOnce(st, ks, ws, findNum, if k % 2 == 0 then 1 else -1, runs[k])
    && runs[k].s0 == OrderBefore(s0, runs, k) && runs[k].before == AccBefore(st.memory.acc, runs, k)
  }

  predicate RunsInTurn(st: Store, ks: seq<int>, ws: seq<bv16>, findNum: s16, s0: seq<nat>, runs: seq<Run>)
    requires |ks| == |ws| >= 3
  {
    forall k: nat :: k < |runs| ==> InTurn(st, ks, ws, findNum, s0, runs, k)
  }

  lemma InTurnStill(st: Store, ks: seq<int>, ws: seq<bv16>, findNum: s16, s0: seq<nat>, runs: seq<Run>, run: Run,
                    k: nat)
    requires |ks| == |ws| >= 3 && k < |runs| && InTurn(st, ks, ws, findNum, s0, runs, k)
    ensures InTurn(st, ks, ws, findNum, s0, runs + [run], k)
  {
    hide RunsOnce;
    assert (runs + [run])[k] == runs[k] && (k > 0 ==> (runs + [run])[k - 1] == runs[k - 1]);
  }

  lemma InTurnNext(st: Store, ks: seq<int>, ws: seq<bv16>, findNum: s16, s0: seq<nat>, runs: seq<Run>, run: Run)
    requires |ks| == |ws| >= 3
    requires RunsOnce(st, ks, ws, findNum, if |runs| % 2 == 0 then 1 else -1, run)
    requires run.s0 == OrderBefore(s0, runs, |runs|) && run.before == AccBefore(st.memory.acc, runs, |runs|)
    ensures InTurn(st, ks, ws, findNum, s0, runs + [run], |runs|)
    ensures OrderBefore(s0, runs + [run], |runs| + 1) == run.s
    ensures AccBefore(st.memory.acc, runs + [run], |runs| + 1) == run.after
  {
    hide RunsOnce;
    assert runs != [] ==> (runs + [run])[|runs| - 1] == runs[|runs| - 1];
  }

  lemma RunAgain(st: Store, ks: seq<int>, ws: seq<bv16>, findNum: s16, s0: seq<nat>, runs: seq<Run>, run: Run)
    requires |ks| == |ws| >= 3 && RunsInTurn(st, ks, ws, findNum, s0, runs)
    requires RunsOnce(st, ks, ws, findNum, if |runs| % 2 == 0 then 1 else -1, run)
    requires run.s0 == OrderBefore(s0, runs, |runs|) && run.before == AccBefore(st.memory.acc, runs, |runs|)
    ensures RunsInTurn(st, ks, ws, findNum, s0, runs + [run])
    ensures OrderBefore(s0, runs + [run], |runs| + 1) == run.s
    ensures AccBefore(st.memory.acc, runs + [run], |runs| + 1) == run.after
  {
    hide InTurn, RunsOnce, OrderBefore, AccBefore;
    forall k: nat | k < |runs| ensures InTurn(st, ks, ws, findNum, s0, runs + [run], k) {
      InTurnStill(st, ks, ws, findNum, s0, runs, run, k);
    }
    InTurnNext(st, ks, ws, findNum, s0, runs, run);
  }

  /** What the runs leave behind is determined by the list and the results they start from. */
  lemma {:induction false} RunsUnique(st: Store, ks: seq<int>, ws: seq<bv16>, findNum: s16, s0: seq<nat>,
                                      runs: seq<Run>, runs': seq<Run>, k: nat)
    requires |ks| == |ws| >= 3 && k < |runs| == |runs'|
    requires RunsInTurn(st, ks, ws, findNum, s0, runs) && RunsInTurn(st, ks, ws, findNum, s0, runs')
    ensures runs[k] == runs'[k]
  {
    hide RunsOnce;
    if k > 0 { RunsUnique(st, ks, ws, findNum, s0, runs, runs', k - 1); }
    assert InTurn(st, ks, ws, findNum, s0, runs, k) && InTurn(st, ks, ws, findNum, s0, runs', k);
    OnceUnique(st, ks, ws, findNum, if k % 2 == 0 then 1 else -1, runs[k], runs'[k]);
  }

  /** Without a sort by data, a sorted list comes back if and only if its searches leave ties in order. */
  lemma BenchRestores(st: Store, ks: seq<int>, ws: seq<bv16>, idx: s16, findNum: s16, ws1: seq<bv16>, t: seq<nat>,
                      acc: Acc, crc: bv16)
    requires |ks| == |ws| >= 3 && SortedBy(ks, Iota(|ks|)) && idx <= 0
    requires Scrambled(st, ks, ws, Iota(|ks|), idx, findNum, ws1, t, acc, crc)
    ensures SortedFrom(ks, t) == Iota(|ks|) <==>
            TiesInOrder(ks, SearchesOf(ks, ws, Iota(|ks|), idx, if findNum > 0 then findNum else 0).s)
  {
    RestoredExactly(ks, t);
  }

  /** After a single search that finds nothing, if and only if no two indices are equal. */
  lemma FruitlessBench(st: Store, ks: seq<int>, ws: seq<bv16>, idx: s16, ws1: seq<bv16>, t: seq<nat>, acc: Acc,
                       crc: bv16)
    requires |ks| == |ws| >= 3 && SortedBy(ks, Iota(|ks|)) && idx <= 0
    requires Scrambled(st, ks, ws, Iota(|ks|), idx, 1, ws1, t, acc, crc)
    requires forall x :: 0 <= x < |ks| ==> !Hits(ks, ws, x, idx, 0)
    ensures SortedFrom(ks, t) == Iota(|ks|) <==> Increasing(ks)
  {
    assert Perm(Iota(|ks|), |ks|);
    hide CrcRepeat, FirstCrc, Hits, Increasing, NoDup, Rev, SortedBy, SortedFrom, TiesInOrder;
    FruitlessSearch(ks, ws, Iota(|ks|), idx);
    ReversalExactly(ks);
  }
}
