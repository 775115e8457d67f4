/**
 The Gray coding of async_fifo.sv for every counter width, and why it survives a clock domain
 crossing: whatever each bit of a changing code settles to, the sample is the old or the new one.

 Bit vectors are sequences of bits, least significant bit first.
 */
module GrayCode {

  function Pow2(n: nat): (p: nat)
    ensures p > 0
  {
    if n == 0 then 1 else 2 * Pow2(n - 1)
  }

  /** The n-bit vector of a count, taken modulo 2^n. */
  function Bits(n: nat, v: nat): (b: seq<bool>)
    ensures |b| == n
  {
    if n == 0 then [] else [v % 2 == 1] + Bits(n - 1, v / 2)
  }

  function Value(b: seq<bool>): nat {
    if b == [] then 0 else (if b[0] then 1 else 0) + 2 * Value(b[1..])
  }

  lemma {:induction false} ValueOfBits(n: nat, v: nat)
    requires v < Pow2(n)
    ensures Value(Bits(n, v)) == v
  {
    if n > 0 { ValueOfBits(n - 1, v / 2); }
  }

  lemma {:induction false} BitsOfValue(b: seq<bool>)
    ensures Value(b) < Pow2(|b|) && Bits(|b|, Value(b)) == b
  {
    if b != [] { BitsOfValue(b[1..]); }
  }

  /** bin ^ (bin >> 1) */
  function BinToGray(b: seq<bool>): (g: seq<bool>)
    ensures |g| == |b|
  {
    seq(|b|, i requires 0 <= i < |b| => b[i] != (i + 1 < |b| && b[i + 1]))
  }

  /** Bit i of the binary value is the parity of the Gray bits from i up. */
  function Parities(g: seq<bool>): (b: seq<bool>)
    ensures |b| == |g|
  {
    if g == [] then []
    else
      var rest := Parities(g[1..]);
      [g[0] != (rest != [] && rest[0])] + rest
  }

  /** The loop of gray_to_bin, from the top bit down. */
  method GrayToBin(g: seq<bool>) returns (b: seq<bool>)
    requires g != []
    ensures b == Parities(g)
  {
    var n := |g|;
    b := [g[n - 1]];
    assert g[n - 1..] == [g[n - 1]];
    var i := n - 1;
    while i > 0
      invariant 0 <= i < n && b == Parities(g[i..])
    {
      i := i - 1;
      assert g[i..][1..] == g[i + 1..];
      b := [b[0] != g[i]] + b;
    }
    assert g[0..] == g;
  }

  lemma {:induction false} ParitiesInvert(b: seq<bool>)
    ensures Parities(BinToGray(b)) == b
  {
    if b != [] {
      assert BinToGray(b)[1..] == BinToGray(b[1..]);
      ParitiesInvert(b[1..]);
    }
  }

  lemma {:induction false} GrayInverts(g: seq<bool>)
    ensures BinToGray(Parities(g)) == g
  {
    if g != [] {
      GrayInverts(g[1..]);
      var b, rest := Parities(g), Parities(g[1..]);
      forall i | 0 <= i < |g| ensures BinToGray(b)[i] == g[i] {
        if i > 0 { assert BinToGray(rest)[i - 1] == g[i]; }
      }
    }
  }

  /** The increment of a register of fixed width. */
  function Increment(b: seq<bool>): (c: seq<bool>)
    ensures |c| == |b|
  {
    if b == [] then [] else if b[0] then [false] + Increment(b[1..]) else [true] + b[1..]
  }

  lemma {:induction false} IncrementBits(n: nat, v: nat)
    requires v < Pow2(n)
    ensures Increment(Bits(n, v)) == Bits(n, if v + 1 == Pow2(n) then 0 else v + 1)
  {
    if n == 0 {
    } else if v % 2 == 1 {
      IncrementBits(n - 1, v / 2);
      assert v / 2 + 1 == (v + 1) / 2;
    }
  }

  /** Exactly one bit differs. */
  predicate DifferAt(a: seq<bool>, b: seq<bool>, k: nat) {
    |a| == |b| && k < |a| && forall i :: 0 <= i < |a| ==> (a[i] != b[i] <==> i == k)
  }

  /** The place where the Gray codes of b and its increment differ. */
  function FlipAt(b: seq<bool>): (k: nat)
    requires b != []
    ensures k < |b|
  {
    if b[0] && |b| > 1 then FlipAt(b[1..]) + 1 else 0
  }

  lemma {:induction false} GrayStep(b: seq<bool>)
    requires b != []
    ensures DifferAt(BinToGray(b), BinToGray(Increment(b)), FlipAt(b))
  {
    var c := Increment(b);
    if b[0] && |b| > 1 {
      GrayStep(b[1..]);
      var g, h := BinToGray(b[1..]), BinToGray(c[1..]);
      assert BinToGray(b)[1..] == g && BinToGray(c)[1..] == h;
      forall i | 0 <= i < |b| ensures BinToGray(b)[i] != BinToGray(c)[i] <==> i == FlipAt(b) {
        if i > 0 {
          assert BinToGray(b)[i] == g[i - 1] && BinToGray(c)[i] == h[i - 1];
        } else {
          assert c[1] != b[1];
        }
      }
    }
  }

  // ---------------------------------------------------------------------------
  // Unbounded counts in registers that wrap
  // ---------------------------------------------------------------------------

  /** The count x as a register modulo m holds it. */
  function Wrap(x: nat, m: nat): (r: nat)
    requires m > 0
    ensures r < m
  {
    if x < m then x else Wrap(x - m, m)
  }

  lemma {:induction false} WrapStep(x: nat, m: nat)
    requires m > 0
    ensures Wrap(x + 1, m) == if Wrap(x, m) + 1 == m then 0 else Wrap(x, m) + 1
  {
    if x >= m { WrapStep(x - m, m); }
  }

  lemma {:induction false} WrapMultiple(x: nat, k: nat, m: nat)
    requires m > 0
    ensures Wrap(x + k * m, m) == Wrap(x, m)
    decreases k
  {
    if k > 0 {
      assert x + k * m == (x + (k - 1) * m) + m;
      WrapMultiple(x, k - 1, m);
    }
  }

  /** Subtraction modulo m. */
  function WrapSub(a: nat, b: nat, m: nat): nat
    requires a < m && b < m
  {
    if a >= b then a - b else a + m - b
  }

  /** The difference of two registers is the true difference as long as that is below m. */
  lemma {:induction false} WrapDifference(x: nat, y: nat, m: nat)
    requires m > 0 && y <= x < y + m
    ensures WrapSub(Wrap(x, m), Wrap(y, m), m) == x - y
  {
    if y >= m {
      WrapDifference(x - m, y - m, m);
    } else if x >= m {
      assert Wrap(x, m) == x - m;
    }
  }

  /** Two counts less than m apart share a register value only when they are equal. */
  lemma WrapInjective(x: nat, y: nat, m: nat)
    requires m > 0 && y <= x < y + m && Wrap(x, m) == Wrap(y, m)
    ensures x == y
  {
    WrapDifference(x, y, m);
  }

  // ---------------------------------------------------------------------------
  // Counts and their codes
  // ---------------------------------------------------------------------------

  /** The Gray code of an unbounded event count in an n-bit register. */
  function Encode(n: nat, count: nat): (g: seq<bool>)
    ensures |g| == n
  {
    BinToGray(Bits(n, Wrap(count, Pow2(n))))
  }

  function Decode(g: seq<bool>): nat {
    Value(Parities(g))
  }

  lemma DecodeEncode(n: nat, count: nat)
    ensures Decode(Encode(n, count)) == Wrap(count, Pow2(n))
  {
    ParitiesInvert(Bits(n, Wrap(count, Pow2(n))));
    ValueOfBits(n, Wrap(count, Pow2(n)));
  }

  /** The bit that changes when the count goes up by one. */
  function FlippedBit(n: nat, count: nat): (k: nat)
    requires n > 0
    ensures k < n
  {
    FlipAt(Bits(n, Wrap(count, Pow2(n))))
  }

  /** Consecutive counts differ in one bit of their codes, also when the register wraps. */
  lemma EncodeStep(n: nat, count: nat)
    requires n > 0
    ensures DifferAt(Encode(n, count), Encode(n, count + 1), FlippedBit(n, count))
  {
    IncrementBits(n, Wrap(count, Pow2(n)));
    WrapStep(count, Pow2(n));
    GrayStep(Bits(n, Wrap(count, Pow2(n))));
  }

  /** Every bit has settled to its old or to its new value. */
  predicate Settles(was: seq<bool>, will: seq<bool>, sample: seq<bool>) {
    |was| == |will| == |sample| && forall i :: 0 <= i < |sample| ==> sample[i] == was[i] || sample[i] == will[i]
  }

  /** A register caught while it changes: late(i) decides which value bit i settles to. */
  function Sample(was: seq<bool>, will: seq<bool>, late: nat -> bool): (s: seq<bool>)
    requires |was| == |will|
    ensures Settles(was, will, s)
  {
    seq(|was|, i requires 0 <= i < |was| => if late(i) then was[i] else will[i])
  }

  lemma SettlesToOne(a: seq<bool>, b: seq<bool>, k: nat, sample: seq<bool>)
    requires DifferAt(a, b, k) && Settles(a, b, sample)
    ensures sample == if sample[k] == a[k] then a else b
  {}

  /** A register caught while it counts from `count` to `next` reads as one of the two. */
  lemma SampleIsOldOrNew(n: nat, count: nat, next: nat, sample: seq<bool>)
    requires n > 0 && (next == count || next == count + 1)
    requires Settles(Encode(n, count), Encode(n, next), sample)
    ensures sample == Encode(n, count) || sample == Encode(n, next)
  {
    hide Encode, FlippedBit;
    if next == count + 1 {
      EncodeStep(n, count);
      SettlesToOne(Encode(n, count), Encode(n, next), FlippedBit(n, count), sample);
    } else {
      assert sample == Encode(n, count);
    }
  }
}
