/** Bus words as little-endian byte strings. */
module Words {

  type Byte = b: nat | b < 256

  /** A bus word, as its bytes from the lowest address up. */
  type Word = seq<Byte>

  /** The number of values an n-byte word can hold. */
  function Range(n: nat): (m: nat)
    ensures m > 0
  {
    if n == 0 then 1 else 256 * Range(n - 1)
  }

  lemma {:induction false} RangeGrows(a: nat, b: nat)
    requires a <= b
    ensures Range(a) <= Range(b)
  {
    if a < b { RangeGrows(a, b - 1); }
  }

  /** The n-byte word holding v modulo its range. */
  function ToWord(n: nat, v: nat): (w: Word)
    ensures |w| == n
  {
    if n == 0 then [] else [v % 256] + ToWord(n - 1, v / 256)
  }

  function FromWord(w: Word): nat {
    if w == [] then 0 else w[0] + 256 * FromWord(w[1..])
  }

  lemma {:induction false} FromToWord(n: nat, v: nat)
    requires v < Range(n)
    ensures FromWord(ToWord(n, v)) == v
  {
    if n > 0 { FromToWord(n - 1, v / 256); }
  }

  lemma {:induction false} ToFromWord(w: Word)
    ensures FromWord(w) < Range(|w|) && ToWord(|w|, FromWord(w)) == w
  {
    if w != [] {
      ToFromWord(w[1..]);
      var v := FromWord(w[1..]);
      assert FromWord(w) % 256 == w[0] && FromWord(w) / 256 == v;
      assert [w[0]] + w[1..] == w;
    }
  }
}

/** The status word of the FIFOs and the decoders that both sides apply to it. */
module FifoStatus {

  /** A count in its 12-bit field. */
  function CountField(count: nat): nat { count % 4096 }

  /** The status word for a FIFO of capacity cap that holds `level` words. */
  function StatusWord(cap: nat, level: nat): nat {
    var full := level >= cap;
    (if level == 0 then 1 else 0) + (if full then 2 else 0) + 256 * CountField(level)
    + 0x10_0000 * CountField(if full then 0 else cap - level)
  }

  predicate Empty(status: nat) { status % 2 == 1 }
  predicate Full(status: nat) { status / 2 % 2 == 1 }
  function Rcount(status: nat): nat { status / 256 % 4096 }
  function Wcount(status: nat): nat { status / 0x10_0000 % 4096 }

  lemma UnpackBit(s: nat, low: nat, high: nat)
    requires s == low + 2 * high && low <= 1
    ensures s % 2 == low && s / 2 == high
  {}

  lemma UnpackByte(s: nat, low: nat, high: nat)
    requires s == low + 256 * high && low < 256
    ensures s / 256 == high
  {}

  lemma UnpackField(s: nat, low: nat, high: nat)
    requires s == low + 4096 * high && low < 4096
    ensures s % 4096 == low && s / 4096 == high
  {}

  lemma UnpackTop(s: nat, low: nat, high: nat)
    requires s == low + 0x10_0000 * high && low < 0x10_0000 && high < 4096
    ensures s / 0x10_0000 % 4096 == high
  {}

  /** The decoders recover flags and counts, and the two counts add up to the capacity. */
  lemma StatusDecodes(cap: nat, level: nat)
    requires 0 < cap <= 4095 && level <= cap
    ensures var s := StatusWord(cap, level);
            && s < 0x1_0000_0000
            && (Empty(s) <==> level == 0) && (Full(s) <==> level == cap)
            && Rcount(s) == level && Wcount(s) == cap - level && Rcount(s) + Wcount(s) == cap
  {
    var e, f, free := if level == 0 then 1 else 0, if level == cap then 1 else 0, cap - level;
    var s := e + 2 * f + 256 * level + 0x10_0000 * free;
    assert StatusWord(cap, level) == s;
    hide StatusWord;
    UnpackBit(s, e, f + 128 * level + 0x8_0000 * free);
    UnpackBit(s / 2, f, 64 * level + 0x4_0000 * free);
    UnpackByte(s, e + 2 * f, level + 4096 * free);
    UnpackField(s / 256, level, free);
    UnpackTop(s, e + 2 * f + 256 * level, free);
  }
}
