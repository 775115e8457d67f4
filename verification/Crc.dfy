/**
 The 16-bit CRC of CycleMark (core_util.c) and what it computes: the remainder of the message
 polynomial, sent least significant bit first, modulo x^16 + x^15 + x^2 + 1.
 */
module Crc {

  // ---------------------------------------------------------------------------
  // The register, one message bit at a time
  // ---------------------------------------------------------------------------

  /** One division step on the reflected register. */
  function Step(bit: bool, crc: bv16): bv16 {
    if (crc & 1 == 1) != bit then (crc >> 1) ^ 0xA001 else crc >> 1
  }

  /** Feed message bits, first bit first. */
  function Feed(bits: seq<bool>, crc: bv16): bv16 {
    if bits == [] then crc else Feed(bits[1..], Step(bits[0], crc))
  }

  function ShiftRight(b: bv8, i: nat): bv8 {
    if i == 0 then b else ShiftRight(b, i - 1) >> 1
  }

  /** The bits of a byte, in transmission order. */
  function ByteBits(b: bv8): (s: seq<bool>)
    ensures |s| == 8
  {
    seq(8, i requires 0 <= i < 8 => ShiftRight(b, i) & 1 == 1)
  }

  /** The bits of a message of any length, in transmission order. */
  function MessageBits(bytes: seq<bv8>): (s: seq<bool>)
    ensures |s| == 8 * |bytes|
  {
    if bytes == [] then [] else ByteBits(bytes[0]) + MessageBits(bytes[1..])
  }

  lemma {:induction false} FeedConcat(a: seq<bool>, b: seq<bool>, crc: bv16)
    ensures Feed(a + b, crc) == Feed(b, Feed(a, crc))
  {
    if a == [] {
      assert a + b == b;
    } else {
      assert (a + b)[1..] == a[1..] + b;
      FeedConcat(a[1..], b, Step(a[0], crc));
    }
  }

  // ---------------------------------------------------------------------------
  // The routines of core_util.c
  // ---------------------------------------------------------------------------

  function Low8(x: bv16): bv8 { (x & 0xff) as bv8 }
  function High8(x: bv16): bv8 { (x >> 8) as bv8 }

  /** The two bytes of a value, low byte first, are all of it. */
  lemma BytesOf16(x: bv16)
    ensures (Low8(x) as bv16) | ((High8(x) as bv16) << 8) == x
  {}

  method Crcu8(data: bv8, crc: bv16) returns (r: bv16)
    ensures r == Feed(ByteBits(data), crc)
  {
    var d := data;
    ghost var bits := ByteBits(data);
    r := crc;
    for i := 0 to 8
      invariant d == ShiftRight(data, i)
      invariant Feed(bits[i..], r) == Feed(bits, crc)
    {
      FeedNext(bits, i, r);
      r := ShiftIn(d, r);
      d := d >> 1;
    }
  }

  /** The body of the loop: the constant 0x4002 and the carry bit make one division step. */
  method ShiftIn(d: bv8, crc: bv16) returns (r: bv16)
    ensures r == Step(d & 1 == 1, crc)
  {
    var x16, carry := (d & 1) ^ (Low8(crc) & 1), false;
    XorOfLowBits(d, crc);
    r := crc;
    if x16 == 1 {
      r := r ^ 0x4002;
      carry := true;
    }
    r := r >> 1;
    if carry {
      r := r | 0x8000;
    } else {
      r := r & 0x7fff;
    }
  }

  lemma FeedNext(bits: seq<bool>, i: nat, r: bv16)
    requires i < |bits|
    ensures Feed(bits[i..], r) == Feed(bits[i + 1..], Step(bits[i], r))
  {
    assert bits[i..][1..] == bits[i + 1..];
  }

  lemma XorOfLowBits(d: bv8, r: bv16)
    ensures ((d & 1) ^ (Low8(r) & 1) == 1) == ((r & 1 == 1) != (d & 1 == 1))
  {}

  method Crcu16(newval: bv16, crc: bv16) returns (r: bv16)
    ensures r == Feed(MessageBits([Low8(newval), High8(newval)]), crc)
  {
    r := Crcu8(Low8(newval), crc);
    r := Crcu8(High8(newval), r);
    FeedBytes([Low8(newval)], [High8(newval)], crc);
    FeedByte(Low8(newval), crc);
    FeedByte(High8(newval), Feed(ByteBits(Low8(newval)), crc));
  }

  lemma FeedByte(b: bv8, crc: bv16)
    ensures Feed(MessageBits([b]), crc) == Feed(ByteBits(b), crc)
  {
    assert MessageBits([b]) == ByteBits(b) + MessageBits([]);
    FeedConcat(ByteBits(b), [], crc);
  }

  /** A message may be fed in pieces. */
  lemma {:induction false} FeedBytes(a: seq<bv8>, b: seq<bv8>, crc: bv16)
    ensures Feed(MessageBits(a + b), crc) == Feed(MessageBits(b), Feed(MessageBits(a), crc))
  {
    if a == [] {
      assert a + b == b;
    } else {
      assert (a + b)[1..] == a[1..] + b;
      FeedConcat(ByteBits(a[0]), MessageBits(a[1..] + b), crc);
      FeedConcat(ByteBits(a[0]), MessageBits(a[1..]), crc);
      FeedBytes(a[1..], b, Feed(ByteBits(a[0]), crc));
    }
  }

  /** The value crc16 returns. */
  function WordCrc(newval: bv16, crc: bv16): bv16 {
    Feed(MessageBits([Low8(newval), High8(newval)]), crc)
  }

  method Crc16(newval: bv16, crc: bv16) returns (r: bv16)
    ensures r == WordCrc(newval, crc)
  {
    r := Crcu16(newval, crc);
  }

  method Crcu32(newval: bv32, crc: bv16) returns (r: bv16)
    ensures r == Feed(MessageBits(LittleEndian(newval)), crc)
  {
    r := Crc16(Low16(newval), crc);
    r := Crc16(High16(newval), r);
    var lo, hi := [Low8(Low16(newval)), High8(Low16(newval))], [Low8(High16(newval)), High8(High16(newval))];
    FeedBytes(lo, hi, crc);
    assert lo + hi == LittleEndian(newval);
  }

  function Low16(x: bv32): bv16 { (x & 0xffff) as bv16 }
  function High16(x: bv32): bv16 { (x >> 16) as bv16 }

  function LittleEndian(x: bv32): seq<bv8> {
    [Low8(Low16(x)), High8(Low16(x)), Low8(High16(x)), High8(High16(x))]
  }

  /** So are the four. */
  lemma BytesOf32(x: bv32)
    ensures var b := LittleEndian(x);
            |b| == 4 && (b[0] as bv32) | ((b[1] as bv32) << 8) | ((b[2] as bv32) << 16) | ((b[3] as bv32) << 24) == x
  {
    BytesOf16(Low16(x));
    BytesOf16(High16(x));
  }

  // ---------------------------------------------------------------------------
  // The register as sixteen coefficients; bit 0 of the register belongs to x^15
  // ---------------------------------------------------------------------------

  function Xor(a: seq<bool>, b: seq<bool>): (c: seq<bool>)
    requires |a| == |b|
    ensures |c| == |a|
  {
    seq(|a|, i requires 0 <= i < |a| => a[i] != b[i])
  }

  function Zeros(n: nat): (z: seq<bool>)
    ensures |z| == n
  {
    seq(n, i requires 0 <= i < n => false)
  }

  /** x^16 + x^15 + x^2 + 1, highest coefficient first. */
  function P(): (p: seq<bool>)
    ensures |p| == 17
  {
    [true, true] + Zeros(12) + [true, false, true]
  }

  const MASKS: seq<bv16> :=
    [1, 2, 4, 8, 0x10, 0x20, 0x40, 0x80, 0x100, 0x200, 0x400, 0x800, 0x1000, 0x2000, 0x4000, 0x8000]

  predicate Bit(c: bv16, mask: bv16) {
    c & mask == mask
  }

  function RegisterBits(c: bv16): (s: seq<bool>)
    ensures |s| == 16
  {
    seq(16, i requires 0 <= i < 16 => Bit(c, MASKS[i]))
  }

  lemma RegisterInjective(a: bv16, b: bv16)
    requires RegisterBits(a) == RegisterBits(b)
    ensures a == b
  {
    var s, t := RegisterBits(a), RegisterBits(b);
    assert s[0] == t[0] && s[1] == t[1] && s[2] == t[2] && s[3] == t[3] && s[4] == t[4] && s[5] == t[5];
    assert s[6] == t[6] && s[7] == t[7] && s[8] == t[8] && s[9] == t[9] && s[10] == t[10];
    assert s[11] == t[11] && s[12] == t[12] && s[13] == t[13] && s[14] == t[14] && s[15] == t[15];
  }

  lemma XorBit(a: bv16, b: bv16, i: nat)
    requires i < 16
    ensures Bit(a ^ b, MASKS[i]) == (Bit(a, MASKS[i]) != Bit(b, MASKS[i]))
  {}

  lemma XorRegister(a: bv16, b: bv16)
    ensures RegisterBits(a ^ b) == Xor(RegisterBits(a), RegisterBits(b))
  {
    hide Bit;
    forall i | 0 <= i < 16 ensures RegisterBits(a ^ b)[i] == Xor(RegisterBits(a), RegisterBits(b))[i] {
      XorBit(a, b, i);
    }
  }

  lemma ShiftBit(c: bv16, i: nat)
    requires i < 16
    ensures Bit(c >> 1, MASKS[i]) == (i < 15 && Bit(c, MASKS[i + 1]))
  {}

  lemma ShiftRegister(c: bv16)
    ensures RegisterBits(c >> 1) == RegisterBits(c)[1..] + [false]
  {
    hide Bit;
    forall i | 0 <= i < 16 ensures RegisterBits(c >> 1)[i] == (RegisterBits(c)[1..] + [false])[i] {
      ShiftBit(c, i);
    }
  }

  lemma FlipRegister()
    ensures RegisterBits(0xA001) == P()[1..]
  {}

  /** Multiply by x and reduce: the coefficient that leaves at the top is r[0] plus the message bit. */
  function Divide(bit: bool, r: seq<bool>): (s: seq<bool>)
    requires |r| == 16
    ensures |s| == 16
  {
    Xor(r[1..] + [false], if r[0] != bit then P()[1..] else Zeros(16))
  }

  lemma StepDivides(bit: bool, c: bv16)
    ensures RegisterBits(Step(bit, c)) == Divide(bit, RegisterBits(c))
  {
    ShiftRegister(c);
    FlipRegister();
    XorRegister(c >> 1, 0xA001);
  }

  function Register(bits: seq<bool>, r: seq<bool>): (s: seq<bool>)
    requires |r| == 16
    ensures |s| == 16
  {
    if bits == [] then r else Register(bits[1..], Divide(bits[0], r))
  }

  lemma {:induction false} FeedRegister(bits: seq<bool>, c: bv16)
    ensures RegisterBits(Feed(bits, c)) == Register(bits, RegisterBits(c))
  {
    hide Step, RegisterBits, Divide;
    if bits != [] {
      StepDivides(bits[0], c);
      FeedRegister(bits[1..], Step(bits[0], c));
    }
  }

  // ---------------------------------------------------------------------------
  // Linearity
  // ---------------------------------------------------------------------------

  lemma {:induction false} RegisterLinear(m1: seq<bool>, m2: seq<bool>, r1: seq<bool>, r2: seq<bool>)
    requires |m1| == |m2| && |r1| == |r2| == 16
    ensures Register(Xor(m1, m2), Xor(r1, r2)) == Xor(Register(m1, r1), Register(m2, r2))
  {
    if m1 == [] {
    } else {
      assert Divide(m1[0] != m2[0], Xor(r1, r2)) == Xor(Divide(m1[0], r1), Divide(m2[0], r2));
      assert Xor(m1, m2)[1..] == Xor(m1[1..], m2[1..]);
      RegisterLinear(m1[1..], m2[1..], Divide(m1[0], r1), Divide(m2[0], r2));
    }
  }

  lemma FeedLinearBits(m1: seq<bool>, m2: seq<bool>, c1: bv16, c2: bv16, c: bv16)
    requires |m1| == |m2| && RegisterBits(c) == Xor(RegisterBits(c1), RegisterBits(c2))
    ensures RegisterBits(Feed(Xor(m1, m2), c)) == Xor(RegisterBits(Feed(m1, c1)), RegisterBits(Feed(m2, c2)))
  {
    hide *;
    FeedRegister(m1, c1);
    FeedRegister(m2, c2);
    FeedRegister(Xor(m1, m2), c);
    RegisterLinear(m1, m2, RegisterBits(c1), RegisterBits(c2));
  }

  lemma XorByBits(a: bv16, b: bv16, c: bv16)
    requires RegisterBits(c) == Xor(RegisterBits(a), RegisterBits(b))
    ensures c == a ^ b
  {
    hide *;
    XorRegister(a, b);
    RegisterInjective(c, a ^ b);
  }

  /** XOR of two messages of one length and of two initial values gives the XOR of the CRCs. */
  lemma FeedLinear(m1: seq<bool>, m2: seq<bool>, c1: bv16, c2: bv16)
    requires |m1| == |m2|
    ensures Feed(Xor(m1, m2), c1 ^ c2) == Feed(m1, c1) ^ Feed(m2, c2)
  {
    hide *;
    XorRegister(c1, c2);
    FeedLinearBits(m1, m2, c1, c2, c1 ^ c2);
    XorByBits(Feed(m1, c1), Feed(m2, c2), Feed(Xor(m1, m2), c1 ^ c2));
  }

  // ---------------------------------------------------------------------------
  // Division of polynomials over GF(2), highest coefficient first
  // ---------------------------------------------------------------------------

  /** The multiple of P that a quotient coefficient t contributes, n places above the bottom. */
  function Term(t: bool, n: nat): (p: seq<bool>)
    ensures |p| == n + 17
  {
    if t then P() + Zeros(n) else Zeros(n + 17)
  }

  /** The product of q and P. */
  function TimesP(q: seq<bool>): (p: seq<bool>)
    ensures |p| == |q| + 16
  {
    if q == [] then Zeros(16) else Xor(Term(q[0], |q| - 1), [false] + TimesP(q[1..]))
  }

  /** q times P, plus a remainder r of degree below 16. */
  function Compose(q: seq<bool>, r: seq<bool>): (m: seq<bool>)
    requires |r| == 16
    ensures |m| == |q| + 16
  {
    Xor(TimesP(q), Zeros(|q|) + r)
  }

  /** The message shifted left by 16 places, with the initial register added at its top. */
  function Dividend(m: seq<bool>, r: seq<bool>): (s: seq<bool>)
    requires |r| == 16
    ensures |s| == |m| + 16
  {
    Xor(m + Zeros(16), r + Zeros(|m|))
  }

  /** The quotient the register computes on the way. */
  function Quotient(m: seq<bool>, r: seq<bool>): (q: seq<bool>)
    requires |r| == 16
    ensures |q| == |m|
  {
    if m == [] then [] else [r[0] != m[0]] + Quotient(m[1..], Divide(m[0], r))
  }

  lemma DividendTail(m: seq<bool>, r: seq<bool>)
    requires m != [] && |r| == 16
    ensures Dividend(m, r) == Xor(Term(r[0] != m[0], |m| - 1), [false] + Dividend(m[1..], Divide(m[0], r)))
  {
    var t, m', d := r[0] != m[0], m[1..], Divide(m[0], r);
    var left, tail := Dividend(m, r), [false] + Dividend(m', d);
    forall i | 0 <= i < |left| ensures left[i] == (Term(t, |m'|)[i] != tail[i]) {
      if 0 < i { assert tail[i] == ((m' + Zeros(16))[i - 1] != (d + Zeros(|m'|))[i - 1]); }
    }
  }

  lemma {:induction false} RegisterIsRemainder(m: seq<bool>, r: seq<bool>)
    requires |r| == 16
    ensures Dividend(m, r) == Compose(Quotient(m, r), Register(m, r))
  {
    if m == [] {
    } else {
      var t, m', r' := r[0] != m[0], m[1..], Divide(m[0], r);
      RegisterIsRemainder(m', r');
      assert Quotient(m, r)[1..] == Quotient(m', r');
      DividendTail(m, r);
      ComposeTail(Quotient(m, r), Register(m, r));
    }
  }

  /** Quotient and remainder are unique. */
  lemma {:induction false} DivisionUnique(q1: seq<bool>, r1: seq<bool>, q2: seq<bool>, r2: seq<bool>)
    requires |r1| == |r2| == 16 && |q1| == |q2|
    requires Compose(q1, r1) == Compose(q2, r2)
    ensures q1 == q2 && r1 == r2
  {
    if q1 == [] {
      assert forall i :: 0 <= i < 16 ==> Compose(q1, r1)[i] == r1[i] && Compose(q2, r2)[i] == r2[i];
    } else {
      assert Compose(q1, r1)[0] == q1[0] && Compose(q2, r2)[0] == q2[0];
      ComposeTail(q1, r1);
      ComposeTail(q2, r2);
      var t := Term(q1[0], |q1| - 1);
      var c1, c2 := Compose(q1[1..], r1), Compose(q2[1..], r2);
      forall i | 0 <= i < |c1| ensures c1[i] == c2[i] {
        assert Compose(q1, r1)[i + 1] == (t[i + 1] != c1[i]);
        assert Compose(q2, r2)[i + 1] == (t[i + 1] != c2[i]);
      }
      DivisionUnique(q1[1..], r1, q2[1..], r2);
      assert q1 == [q1[0]] + q1[1..] && q2 == [q2[0]] + q2[1..];
    }
  }

  lemma ComposeTail(q: seq<bool>, r: seq<bool>)
    requires q != [] && |r| == 16
    ensures Compose(q, r) == Xor(Term(q[0], |q| - 1), [false] + Compose(q[1..], r))
  {
    hide Term, P;
    var t, tail, z := Term(q[0], |q| - 1), TimesP(q[1..]), Zeros(|q| - 1) + r;
    var whole, shifted := Compose(q, r), [false] + Compose(q[1..], r);
    var product := TimesP(q);
    assert product == Xor(t, [false] + tail);
    assert Zeros(|q|) + r == [false] + z;
    hide TimesP, Zeros;
    forall i | 0 <= i < |whole| ensures whole[i] == (t[i] != shifted[i]) {
      assert product[i] == (t[i] != ([false] + tail)[i]);
      if 0 < i { assert shifted[i] == (tail[i - 1] != z[i - 1]); }
    }
  }

  /**
   For a message of any length and any initial value: c is the CRC exactly when it is the
   remainder of the shifted message modulo x^16 + x^15 + x^2 + 1.
   */
  lemma CrcIsRemainder(bytes: seq<bv8>, init: bv16, c: bv16)
    ensures c == Feed(MessageBits(bytes), init) <==>
      exists q: seq<bool> :: |q| == 8 * |bytes|
        && Dividend(MessageBits(bytes), RegisterBits(init)) == Compose(q, RegisterBits(c))
  {
    var m, r := MessageBits(bytes), RegisterBits(init);
    RegisterIsRemainder(m, r);
    FeedRegister(m, init);
    if q: seq<bool> :| |q| == 8 * |bytes| && Dividend(m, r) == Compose(q, RegisterBits(c)) {
      DivisionUnique(q, RegisterBits(c), Quotient(m, r), Register(m, r));
      RegisterInjective(c, Feed(m, init));
    }
  }
}
