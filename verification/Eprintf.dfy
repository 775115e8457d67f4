/** The formatter of eprintf.c (NO_SPIKE build), against a reference rendering of its formats. */
module Eprintf {

  import opened Words
  import opened Frames
  import opened Echo

  type Text = seq<Byte>

  const PERCENT: Byte := 0x25
  const LETTER_C: Byte := 0x63
  const LETTER_D: Byte := 0x64
  const LETTER_L: Byte := 0x6C
  const LETTER_S: Byte := 0x73
  const LETTER_U: Byte := 0x75
  const LETTER_X: Byte := 0x78
  const MINUS: Byte := 0x2D

  // ---------------------------------------------------------------------------
  // The reference rendering
  // ---------------------------------------------------------------------------

  datatype Arg = CharArg(c: Byte) | StrArg(s: Text) | NullStr | Signed(i: int) | Unsigned(u: nat)

  datatype Kind = Char | Str | Decimal | Natural | Hex

  datatype Piece = Lit(c: Byte) | Dir(kind: Kind, long: bool)

  /** The conversion that a letter asks for after % or after %l. */
  function Conversion(c: Byte, long: bool): Piece {
    if c == LETTER_D then Dir(Decimal, long)
    else if c == LETTER_U then Dir(Natural, long)
    else if c == LETTER_X then Dir(Hex, long)
    else if c == LETTER_C && !long then Dir(Char, false)
    else if c == LETTER_S && !long then Dir(Str, false)
    else Lit(c)
  }

  /** What a format means; an unknown or unfinished specifier stands for itself. */
  function Parse(fmt: Text): seq<Piece> {
    if fmt == [] then []
    else if fmt[0] != PERCENT then [Lit(fmt[0])] + Parse(fmt[1..])
    else if |fmt| == 1 then [Lit(PERCENT)]
    else if fmt[1] == PERCENT then [Lit(PERCENT)] + Parse(fmt[2..])
    else if fmt[1] != LETTER_L then
      var p := Conversion(fmt[1], false);
      (if p.Dir? then [p] else [Lit(PERCENT), p]) + Parse(fmt[2..])
    else if |fmt| == 2 then [Lit(PERCENT), Lit(LETTER_L)]
    else
      var p := Conversion(fmt[2], true);
      (if p.Dir? then [p] else [Lit(PERCENT), Lit(LETTER_L), p]) + Parse(fmt[3..])
  }

  function Digit(d: nat): Byte
    requires d < 16
  {
    if d < 10 then 0x30 + d else 0x61 + (d - 10)
  }

  /** A number without leading zeros. */
  function Digits(u: nat, base: nat): (t: Text)
    requires 2 <= base <= 16
    ensures t != []
  {
    if u < base then [Digit(u)] else Digits(u / base, base) + [Digit(u % base)]
  }

  /** "(null)" */
  function NullText(): Text { [0x28, 0x6E, 0x75, 0x6C, 0x6C, 0x29] }

  function RenderSigned(i: int): Text {
    if i < 0 then [MINUS] + Digits(-i, 10) else Digits(i, 10)
  }

  /** How many non-negative values an n-byte signed number has. */
  function Half(n: nat): nat { Range(n) / 2 }

  lemma HalfOfRange(n: nat)
    requires n > 0
    ensures 2 * Half(n) == Range(n) && Half(n) > 0
  {
    assert Range(n) == 2 * (128 * Range(n - 1));
  }

  /** The argument has the type that the conversion reads; long is n bytes wide, int four. */
  predicate Fits(n: WordBytes, p: Piece, arg: Arg)
    requires p.Dir?
  {
    var half := Half(if p.long then n else 4);
    match p.kind
    case Char => arg.CharArg? && arg.c != 0
    case Str => arg.NullStr? || (arg.StrArg? && forall k :: 0 <= k < |arg.s| ==> arg.s[k] != 0)
    case Decimal => arg.Signed? && 0 - half <= arg.i < half
    case Natural => arg.Unsigned? && arg.u < Range(if p.long then n else 4)
    case Hex => arg.Unsigned? && arg.u < Range(if p.long then n else 4)
  }

  function RenderArg(n: WordBytes, p: Piece, arg: Arg): Text
    requires p.Dir? && Fits(n, p, arg)
  {
    match p.kind
    case Char => [arg.c]
    case Str => if arg.NullStr? then NullText() else arg.s
    case Decimal => RenderSigned(arg.i)
    case Natural => Digits(arg.u, 10)
    case Hex => Digits(arg.u, 16)
  }

  /** Every conversion finds an argument of its type. */
  predicate AllFit(n: WordBytes, ps: seq<Piece>, args: seq<Arg>) {
    if ps == [] then true
    else if ps[0].Lit? then AllFit(n, ps[1..], args)
    else args != [] && Fits(n, ps[0], args[0]) && AllFit(n, ps[1..], args[1..])
  }

  function Render(n: WordBytes, ps: seq<Piece>, args: seq<Arg>): Text
    requires AllFit(n, ps, args)
  {
    if ps == [] then []
    else if ps[0].Lit? then [ps[0].c] + Render(n, ps[1..], args)
    else RenderArg(n, ps[0], args[0]) + Render(n, ps[1..], args[1..])
  }

  // ---------------------------------------------------------------------------
  // Printed numbers
  // ---------------------------------------------------------------------------

  function ValueOf(c: Byte): nat {
    if 0x30 <= c <= 0x39 then c - 0x30 else if 0x61 <= c <= 0x66 then c - 0x61 + 10 else 0
  }

  /** Reading a printed number. */
  function Number(t: Text, base: nat): nat {
    if t == [] then 0 else Number(t[..|t| - 1], base) * base + ValueOf(t[|t| - 1])
  }

  lemma Euclid(u: nat, base: nat)
    requires base > 0
    ensures (u / base) * base + u % base == u
  {}

  lemma NumberSnoc(t: Text, d: nat, base: nat)
    requires d < base <= 16
    ensures Number(t + [Digit(d)], base) == Number(t, base) * base + d
  {
    var s := t + [Digit(d)];
    assert s[..|s| - 1] == t && ValueOf(s[|s| - 1]) == d;
  }

  lemma NumberOne(d: nat, base: nat)
    requires d < base <= 16
    ensures Number([Digit(d)], base) == d
  {
    var t := [Digit(d)];
    assert t[..|t| - 1] == [] && ValueOf(t[|t| - 1]) == d;
    assert 0 * base == 0;
  }

  /** Every printed number reads back. */
  lemma {:induction false} DigitsReadBack(u: nat, base: nat)
    requires 2 <= base <= 16
    ensures Number(Digits(u, base), base) == u
  {
    hide Number;
    if u >= base {
      DigitsReadBack(u / base, base);
      NumberSnoc(Digits(u / base, base), u % base, base);
      Euclid(u, base);
    } else {
      NumberOne(u, base);
    }
  }

  function ReadSigned(t: Text): int {
    if t != [] && t[0] == 0x2D then 0 - Number(t[1..], 10) else Number(t, 10)
  }

  lemma {:induction false} DigitsNoMinus(u: nat, base: nat)
    requires 2 <= base <= 16
    ensures Digits(u, base)[0] != MINUS && forall k :: 0 <= k < |Digits(u, base)| ==> Digits(u, base)[k] != 0
  {
    if u >= base { DigitsNoMinus(u / base, base); }
  }

  /** Every printed integer reads back, the most negative one included. */
  lemma SignedReadBack(i: int)
    ensures ReadSigned(RenderSigned(i)) == i
  {
    if i < 0 {
      DigitsReadBack(-i, 10);
      assert RenderSigned(i)[1..] == Digits(-i, 10);
    } else {
      DigitsReadBack(i, 10);
      DigitsNoMinus(i, 10);
    }
  }

  /** A number as one writes it: digits of the base only, and no zero in front. */
  predicate WellPrinted(t: Text, base: nat) {
    && t != [] && (|t| == 1 || t[0] != 0x30)
    && forall k :: 0 <= k < |t| ==> 0x30 <= t[k] <= 0x39 || (base == 16 && 0x61 <= t[k] <= 0x66)
  }

  lemma {:induction false} DigitsPrinted(u: nat, base: nat)
    requires base == 10 || base == 16
    ensures WellPrinted(Digits(u, base), base) && (u > 0 ==> Digits(u, base)[0] != 0x30)
  {
    hide Digits, Quot, Rem;
    DigitsUnfold(u, base);
    LastDigit(u, base);
    if Quot(u, base) != 0 {
      DigitsPrinted(Quot(u, base), base);
    }
  }

  lemma LastDigit(u: nat, base: nat)
    requires base == 10 || base == 16
    ensures Quot(u, base) == 0 ==> Rem(u, base) == u
    ensures Quot(u, base) != 0 ==> Quot(u, base) < u
  {}

  /** 1000 to the n. */
  function Thousands(n: nat): nat { if n == 0 then 1 else 1000 * Thousands(n - 1) }

  lemma {:induction false} ThreePerThousand(u: nat, n: nat)
    requires n > 0 && u < Thousands(n)
    ensures |Digits(u, 10)| <= 3 * n
  {
    if u >= 1000 {
      ThreePerThousand(u / 1000, n - 1);
      assert u / 10 / 10 / 10 == u / 1000;
      assert Digits(u, 10) == Digits(u / 10, 10) + [Digit(u % 10)];
      assert Digits(u / 10, 10) == Digits(u / 10 / 10, 10) + [Digit(u / 10 % 10)];
      assert Digits(u / 10 / 10, 10) == Digits(u / 10 / 10 / 10, 10) + [Digit(u / 10 / 10 % 10)];
    } else {
      assert u / 10 < 100 && u / 10 / 10 < 10;
      assert u >= 100 ==> Digits(u, 10) == Digits(u / 10, 10) + [Digit(u % 10)];
    }
  }

  lemma {:induction false} TwoPerByte(u: nat, n: nat)
    requires n > 0 && u < Range(n)
    ensures |Digits(u, 16)| <= 2 * n
  {
    if u >= 256 {
      TwoPerByte(u / 256, n - 1);
      assert u / 16 / 16 == u / 256;
      assert Digits(u, 16) == Digits(u / 16, 16) + [Digit(u % 16)];
      assert Digits(u / 16, 16) == Digits(u / 16 / 16, 16) + [Digit(u / 16 % 16)];
    }
  }

  lemma {:induction false} RangeBelowThousands(n: nat)
    ensures Range(n) <= Thousands(n)
  {
    if n > 0 { RangeBelowThousands(n - 1); }
  }

  /** Three characters for each byte and two more hold any number of n bytes and its terminator. */
  lemma DigitsFit(u: nat, n: nat, base: nat)
    requires n > 0 && u < Range(n) && (base == 10 || base == 16)
    ensures |Digits(u, base)| + 1 <= 3 * n + 2
  {
    if base == 10 {
      RangeBelowThousands(n);
      ThreePerThousand(u, n);
    } else {
      TwoPerByte(u, n);
    }
  }

  // ---------------------------------------------------------------------------
  // The buffer
  // ---------------------------------------------------------------------------

  const EPRINTF_BUFFER_SIZE: nat := 512

  /** What of a text the buffer keeps: one byte is reserved for the final NUL. */
  function Kept(t: Text): (r: Text)
    ensures r <= t && |r| <= 511 && (|t| <= 511 ==> r == t)
  {
    if |t| <= 511 then t else t[..511]
  }

  function NonNul(t: Text): nat {
    if t == [] then 0 else NonNul(t[..|t| - 1]) + if t[|t| - 1] != 0 then 1 else 0
  }

  lemma {:induction false} NonNulAll(t: Text)
    requires forall k :: 0 <= k < |t| ==> t[k] != 0
    ensures NonNul(t) == |t|
  {
    if t != [] { NonNulAll(t[..|t| - 1]); }
  }

  /** The context NewEprintf; text is everything written to it, also what no longer fitted. */
  class Context {
    const buffer: array<Byte>
    var byteIndex: nat
    var count: nat
    ghost var text: Text

    constructor ()
      ensures Valid() && text == [] && fresh(buffer)
    {
      buffer := new Byte[EPRINTF_BUFFER_SIZE](_ => 0);
      byteIndex, count, text := 0, 0, [];
    }

    ghost predicate Valid()
      reads this, buffer
    {
      && buffer.Length == 512 && byteIndex == |Kept(text)|
      && buffer[..byteIndex] == Kept(text)
      && count == NonNul(Kept(text))
    }

    /** Store one character unless the buffer is full. */
    method Ewc(c: Byte)
      requires Valid()
      modifies this, buffer
      ensures Valid() && text == old(text) + [c]
    {
      text := text + [c];
      if byteIndex >= 511 {
        assert Kept(text) == Kept(old(text));
        return;
      }
      assert Kept(text) == text && text[..|text| - 1] == old(text);
      buffer[byteIndex] := c;
      byteIndex := byteIndex + 1;
      if c != 0 {
        count := count + 1;
      }
    }

    /** Store a text character by character. */
    method Put(t: Text)
      requires Valid()
      modifies this, buffer
      ensures Valid() && text == old(text) + t
    {
      for i := 0 to |t|
        invariant Valid() && text == old(text) + t[..i]
      {
        Ewc(t[i]);
        assert t[..i + 1] == t[..i] + [t[i]];
      }
      assert t[..|t|] == t;
    }

    /** Euts: print an unsigned number through a scratch buffer of three bytes per byte and two. */
    method Euts(n: nat, num: nat, base: nat) returns (written: nat)
      requires Valid() && n > 0 && num < Range(n) && (base == 10 || base == 16)
      modifies this, buffer
      ensures Valid() && text == old(text) + Digits(num, base) && written == |Digits(num, base)|
    {
      hide *;
      var scratch := new Byte[3 * n + 2](_ => 0);
      var end := scratch.Length - 1;
      ghost var ds := Digits(num, base);
      DigitsNoMinus(num, base);
      var ptr := Convert(scratch, n, num, base);
      assert scratch[ptr] == scratch[ptr..end][0];
      written := 0;
      while scratch[ptr] != 0
        invariant Valid() && written <= |ds| <= end && ptr == end - |ds| + written
        invariant scratch[end] == 0 && scratch[end - |ds|..end] == ds
        invariant written < |ds| ==> scratch[ptr] == ds[written]
        invariant text == old(text) + ds[..written]
        decreases end - ptr
      {
        assert ds[..written + 1] == ds[..written] + [ds[written]];
        Ewc(scratch[ptr]);
        ptr := ptr + 1;
        written := written + 1;
        assert written < |ds| ==> scratch[ptr] == scratch[end - |ds|..end][written];
      }
      assert ds[..|ds|] == ds;
    }

    /** Eits: print a signed number; the most negative one is its own negation in machine words. */
    method Eits(n: WordBytes, num: int, base: nat) returns (written: nat)
      requires Valid() && 0 - Half(n) <= num < Half(n) && base == 10
      modifies this, buffer
      ensures Valid() && text == old(text) + RenderSigned(num)
    {
      hide CoreLink.Valid, Digits, Half, Range, Valid;
      HalfOfRange(n);
      var word := if num < 0 then num + Range(n) else num;
      written := 0;
      var u := word;
      if num < 0 && base == 10 {
        Ewc(MINUS);
        written := 1;
        u := if word == 0 then 0 else Range(n) - word;
      }
      ghost var before := text;
      var digits := Euts(n, u, base);
      written := written + digits;
    }
  }

  /** Quotient and remainder by the base. */
  function Quot(u: nat, base: nat): (q: nat)
    requires base == 10 || base == 16
    ensures u != 0 ==> q < u
  {
    if base == 10 then u / 10 else u / 16
  }

  function Rem(u: nat, base: nat): (d: nat)
    requires base == 10 || base == 16
    ensures d < base
  {
    if base == 10 then u % 10 else u % 16
  }

  /** *--ptr = digit */
  method PushDigit(scratch: array<Byte>, at: nat, d: nat) returns (ptr: nat)
    requires 0 < at < scratch.Length && d < 16 && scratch[scratch.Length - 1] == 0
    modifies scratch
    ensures ptr == at - 1 && scratch[scratch.Length - 1] == 0
    ensures scratch[ptr..scratch.Length - 1] == [Digit(d)] + old(scratch[at..scratch.Length - 1])
  {
    hide Digit;
    ptr := at - 1;
    scratch[ptr] := Digit(d);
  }

  /** The digit loop of Euts: digits go in from the end of the scratch buffer. */
  method Convert(scratch: array<Byte>, n: nat, num: nat, base: nat) returns (ptr: nat)
    requires n > 0 && num < Range(n) && (base == 10 || base == 16) && scratch.Length == 3 * n + 2
    modifies scratch
    ensures var end := scratch.Length - 1; var ds := Digits(num, base);
            |ds| <= end && ptr == end - |ds| && scratch[ptr..end] == ds && scratch[end] == 0
  {
    hide *;
    DigitsFit(num, n, base);
    var end := scratch.Length - 1;
    scratch[end] := 0;
    ghost var ds := Digits(num, base);
    DigitsUnfold(num, base);
    ptr := PushDigit(scratch, end, Rem(num, base));
    var rest := Quot(num, base);
    ghost var left := if rest == 0 then [] else Digits(rest, base);
    assert ds == left + scratch[ptr..end];
    while rest != 0
      invariant 0 <= rest && 0 <= ptr < end && scratch[end] == 0
      invariant left == if rest == 0 then [] else Digits(rest, base)
      invariant ds == left + scratch[ptr..end] && |ds| <= end
      decreases rest
    {
      ghost var before, d := scratch[ptr..end], Digit(Rem(rest, base));
      DigitsUnfold(rest, base);
      ghost var next := if Quot(rest, base) == 0 then [] else Digits(Quot(rest, base), base);
      Regrouped(next, d, before);
      assert |before| == end - ptr && ptr > 0;
      ptr := PushDigit(scratch, ptr, Rem(rest, base));
      rest := Quot(rest, base);
      left := next;
    }
  }

  lemma Regrouped(a: Text, d: Byte, b: Text)
    ensures (a + [d]) + b == a + ([d] + b) && |(a + [d]) + b| == |a| + 1 + |b|
  {}

  lemma DigitsUnfold(u: nat, base: nat)
    requires base == 10 || base == 16
    ensures Digits(u, base) == (if Quot(u, base) == 0 then [] else Digits(Quot(u, base), base)) + [Digit(Rem(u, base))]
  {
    hide Digit;
    if base == 10 {
      assert u < 10 ==> u / 10 == 0 && u % 10 == u;
    } else {
      assert u < 16 ==> u / 16 == 0 && u % 16 == u;
    }
    if u < base {
      assert Digits(u, base) == [] + [Digit(u)];
    }
  }

  // ---------------------------------------------------------------------------
  // The format loop
  // ---------------------------------------------------------------------------

  function Lits(t: Text): (ps: seq<Piece>)
    ensures |ps| == |t|
  {
    seq(|t|, i requires 0 <= i < |t| => Lit(t[i]))
  }

  lemma RenderLit(n: WordBytes, c: Byte, ps: seq<Piece>, args: seq<Arg>)
    requires AllFit(n, [Lit(c)] + ps, args)
    ensures AllFit(n, ps, args) && Render(n, [Lit(c)] + ps, args) == [c] + Render(n, ps, args)
  {
    hide Fits, RenderArg;
    assert ([Lit(c)] + ps)[1..] == ps;
  }

  lemma {:induction false} RenderLits(n: WordBytes, t: Text, rest: seq<Piece>, args: seq<Arg>)
    requires AllFit(n, Lits(t) + rest, args)
    ensures AllFit(n, rest, args) && Render(n, Lits(t) + rest, args) == t + Render(n, rest, args)
  {
    if t == [] {
      assert Lits(t) + rest == rest;
    } else {
      assert Lits(t) + rest == [Lit(t[0])] + (Lits(t[1..]) + rest);
      hide *;
      RenderLit(n, t[0], Lits(t[1..]) + rest, args);
      RenderLits(n, t[1..], rest, args);
      Associative([t[0]], t[1..], Render(n, rest, args));
      assert [t[0]] + t[1..] == t;
    }
  }

  /** Characters that stand for themselves. */
  method PutLits(ctx: Context, n: WordBytes, t: Text, ghost rest: seq<Piece>, ghost args: seq<Arg>)
    requires ctx.Valid() && AllFit(n, Lits(t) + rest, args)
    modifies ctx, ctx.buffer
    ensures ctx.Valid() && AllFit(n, rest, args)
    ensures ctx.text + Render(n, rest, args) == old(ctx.text) + Render(n, Lits(t) + rest, args)
  {
    hide *;
    ctx.Put(t);
    RenderLits(n, t, rest, args);
  }

  /** A conversion takes the next argument. */
  method PutNext(ctx: Context, n: WordBytes, p: Piece, ghost rest: seq<Piece>, args: seq<Arg>)
    requires ctx.Valid() && p.Dir? && AllFit(n, [p] + rest, args)
    modifies ctx, ctx.buffer
    ensures ctx.Valid() && args != [] && AllFit(n, rest, args[1..])
    ensures ctx.text + Render(n, rest, args[1..]) == old(ctx.text) + Render(n, [p] + rest, args)
  {
    hide *;
    RenderDir(n, p, rest, args);
    PutArg(ctx, n, p, args[0]);
  }

  lemma RenderDir(n: WordBytes, p: Piece, rest: seq<Piece>, args: seq<Arg>)
    requires p.Dir? && AllFit(n, [p] + rest, args)
    ensures args != [] && Fits(n, p, args[0]) && AllFit(n, rest, args[1..])
    ensures Render(n, [p] + rest, args) == RenderArg(n, p, args[0]) + Render(n, rest, args[1..])
  {
    assert ([p] + rest)[1..] == rest;
  }

  /** Print one argument. */
  method PutArg(ctx: Context, n: WordBytes, p: Piece, arg: Arg)
    requires ctx.Valid() && p.Dir? && Fits(n, p, arg)
    modifies ctx, ctx.buffer
    ensures ctx.Valid() && ctx.text == old(ctx.text) + RenderArg(n, p, arg)
  {
    hide Context.Valid, CoreLink.Valid, Digits, Half, NullText, Range, RenderSigned;
    var size := if p.long then n else 4;
    Widths(n, p.long);
    match p.kind {
      case Char => ctx.Ewc(arg.c);
      case Str => ctx.Put(if arg.NullStr? then NullText() else arg.s);
      case Decimal => var written := ctx.Eits(n, arg.i, 10);
      case Natural => var written := ctx.Euts(n, arg.u, 10);
      case Hex => var written := ctx.Euts(n, arg.u, 16);
    }
  }

  /** An int is no wider than a long. */
  lemma Widths(n: WordBytes, long: bool)
    ensures Range(if long then n else 4) <= Range(n) && Half(if long then n else 4) <= Half(n)
  {
    RangeGrows(4, n);
  }

  /** What the specifier at the front of a format consists of, and where the format goes on. */
  function Front(rest: Text): (r: (seq<Piece>, nat))
    requires rest != []
    ensures 0 < r.1 <= |rest|
  {
    if rest[0] != PERCENT then (Lits([rest[0]]), 1)
    else if |rest| == 1 then (Lits([PERCENT]), 1)
    else if rest[1] == PERCENT then (Lits([PERCENT]), 2)
    else if rest[1] != LETTER_L then
      var p := Conversion(rest[1], false);
      (if p.Dir? then [p] else Lits([PERCENT, rest[1]]), 2)
    else if |rest| == 2 then (Lits([PERCENT, LETTER_L]), 2)
    else
      var p := Conversion(rest[2], true);
      (if p.Dir? then [p] else Lits([PERCENT, LETTER_L, rest[2]]), 3)
  }

  lemma ParseFront(rest: Text)
    requires rest != []
    ensures Parse(rest) == Front(rest).0 + Parse(rest[Front(rest).1..])
  {
    assert Lits([rest[0]]) == [Lit(rest[0])] && Lits([PERCENT]) == [Lit(PERCENT)];
    assert Lits([PERCENT, LETTER_L]) == [Lit(PERCENT), Lit(LETTER_L)];
    if |rest| > 1 { assert Lits([PERCENT, rest[1]]) == [Lit(PERCENT), Lit(rest[1])]; }
    if |rest| > 2 { assert Lits([PERCENT, LETTER_L, rest[2]]) == [Lit(PERCENT), Lit(LETTER_L), Lit(rest[2])]; }
    hide Lits;
  }

  /** One turn of the format loop, from the character at the front of rest. */
  method FormatStep(ctx: Context, n: WordBytes, rest: Text, args: seq<Arg>) returns (used: nat, taken: nat)
    requires ctx.Valid() && rest != [] && AllFit(n, Parse(rest), args)
    modifies ctx, ctx.buffer
    ensures ctx.Valid() && 0 < used <= |rest| && taken <= |args|
    ensures AllFit(n, Parse(rest[used..]), args[taken..])
    ensures ctx.text + Render(n, Parse(rest[used..]), args[taken..]) == old(ctx.text) + Render(n, Parse(rest), args)
  {
    hide AllFit, Context.Valid, Conversion, CoreLink.Valid, Lits, Parse, Render;
    taken := 0;
    assert args[0..] == args;
    ParseFront(rest);
    ghost var tail := Parse(rest[Front(rest).1..]);
    if rest[0] != PERCENT {
      used := 1;
      PutLits(ctx, n, [rest[0]], tail, args);
    } else if |rest| == 1 {
      used := 1;
      PutLits(ctx, n, [PERCENT], tail, args);
    } else if rest[1] == PERCENT {
      used := 2;
      PutLits(ctx, n, [PERCENT], tail, args);
    } else if rest[1] != LETTER_L {
      used := 2;
      var p := Conversion(rest[1], false);
      if p.Dir? {
        PutNext(ctx, n, p, tail, args);
        taken := 1;
      } else {
        PutLits(ctx, n, [PERCENT, rest[1]], tail, args);
      }
    } else if |rest| == 2 {
      used := 2;
      PutLits(ctx, n, [PERCENT, LETTER_L], tail, args);
    } else {
      used := 3;
      var p := Conversion(rest[2], true);
      if p.Dir? {
        PutNext(ctx, n, p, tail, args);
        taken := 1;
      } else {
        PutLits(ctx, n, [PERCENT, LETTER_L, rest[2]], tail, args);
      }
    }
  }

  lemma RenderNothing(n: WordBytes, args: seq<Arg>)
    requires AllFit(n, Parse([]), args)
    ensures Render(n, Parse([]), args) == []
  {}

  lemma TailOfTail<T>(s: seq<T>, i: nat, k: nat)
    requires i + k <= |s|
    ensures s[i..][k..] == s[i + k..]
  {}

  /** The format loop writes the reference rendering. */
  method Format(ctx: Context, n: WordBytes, fmt: Text, args: seq<Arg>)
    requires ctx.Valid() && AllFit(n, Parse(fmt), args)
    modifies ctx, ctx.buffer
    ensures ctx.Valid() && ctx.text == old(ctx.text) + Render(n, Parse(fmt), args)
  {
    hide AllFit, Context.Valid, Conversion, CoreLink.Valid, Parse, Render;
    var i: nat, a: nat := 0, 0;
    assert fmt[0..] == fmt && args[0..] == args;
    while i < |fmt|
      invariant ctx.Valid() && i <= |fmt| && a <= |args| && AllFit(n, Parse(fmt[i..]), args[a..])
      invariant ctx.text + Render(n, Parse(fmt[i..]), args[a..]) == old(ctx.text) + Render(n, Parse(fmt), args)
    {
      var used, taken := FormatStep(ctx, n, fmt[i..], args[a..]);
      TailOfTail(fmt, i, used);
      TailOfTail(args, a, taken);
      i, a := i + used, a + taken;
    }
    assert fmt[i..] == [];
    RenderNothing(n, args[a..]);
  }

  // ---------------------------------------------------------------------------
  // What the formats mean, from their bytes
  // ---------------------------------------------------------------------------

  /** The nine specifiers: %c %s %d %u %x %ld %lu %lx and their arguments; long is n bytes wide. */
  predicate Asks(n: WordBytes, spec: Text, arg: Arg) {
    var range := if n == 4 then 0x1_0000_0000 else 0x1_0000_0000_0000_0000;
    || (spec == [0x25, 0x63] && arg.CharArg? && arg.c != 0)
    || (spec == [0x25, 0x73] && (arg.NullStr? || (arg.StrArg? && forall k :: 0 <= k < |arg.s| ==> arg.s[k] != 0)))
    || (spec == [0x25, 0x64] && arg.Signed? && -0x8000_0000 <= arg.i < 0x8000_0000)
    || ((spec == [0x25, 0x75] || spec == [0x25, 0x78]) && arg.Unsigned? && arg.u < 0x1_0000_0000)
    || (spec == [0x25, 0x6C, 0x64] && arg.Signed? && -range <= 2 * arg.i < range)
    || ((spec == [0x25, 0x6C, 0x75] || spec == [0x25, 0x6C, 0x78]) && arg.Unsigned? && arg.u < range)
  }

  /** A text is what the specifier should make of its argument: the byte, the text, or a number that reads back. */
  predicate Renders(spec: Text, arg: Arg, t: Text)
  {
    match arg
    case CharArg(c) => t == [c]
    case StrArg(s) => t == s
    case NullStr => t == [0x28, 0x6E, 0x75, 0x6C, 0x6C, 0x29]
    case Signed(i) => ReadSigned(t) == i && WellPrinted(if i < 0 && |t| > 1 then t[1..] else t, 10)
    case Unsigned(u) =>
      var base := if spec == [0x25, 0x78] || spec == [0x25, 0x6C, 0x78] then 16 else 10;
      Number(t, base) == u && WellPrinted(t, base)
  }

  /** The piece that a specifier with a fitting argument is. */
  lemma SpecifierPiece(n: WordBytes, spec: Text, arg: Arg, rest: Text) returns (p: Piece)
    requires Asks(n, spec, arg)
    ensures p.Dir? && Fits(n, p, arg) && Parse(spec + rest) == [p] + Parse(rest)
    ensures p == Conversion(spec[|spec| - 1], |spec| == 3)
  {
    p := Conversion(spec[|spec| - 1], |spec| == 3);
    var fmt := spec + rest;
    assert Front(fmt) == ([p], |spec|);
    assert fmt[|spec|..] == rest;
    ParseFront(fmt);
    Ranges(n);
    hide Parse, Front;
  }

  lemma Ranges(n: WordBytes)
    ensures Range(4) == 0x1_0000_0000 && Half(4) == 0x8000_0000
    ensures n == 8 ==> Range(n) == 0x1_0000_0000_0000_0000 && Half(n) == 0x8000_0000_0000_0000
  {
    assert Range(1) == 0x100 && Range(2) == 0x1_0000 && Range(3) == 0x100_0000 && Range(4) == 0x1_0000_0000;
    assert Range(5) == 0x100_0000_0000 && Range(6) == 0x1_0000_0000_0000 && Range(7) == 0x100_0000_0000_0000;
  }

  lemma Rendered(n: WordBytes, spec: Text, arg: Arg, p: Piece)
    requires Asks(n, spec, arg) && p == Conversion(spec[|spec| - 1], |spec| == 3) && p.Dir? && Fits(n, p, arg)
    ensures Renders(spec, arg, RenderArg(n, p, arg))
  {
    hide Digits, Number, Range, Half, WellPrinted;
    match arg
    case Signed(i) =>
      SignedReadBack(i);
      DigitsPrinted(if i < 0 then -i else i, 10);
      assert i < 0 ==> RenderSigned(i)[1..] == Digits(-i, 10);
    case Unsigned(u) =>
      DigitsReadBack(u, 10);
      DigitsReadBack(u, 16);
      DigitsPrinted(u, 10);
      DigitsPrinted(u, 16);
    case _ =>
  }

  /**
   A specifier takes the first argument, and what is written for it is the byte, the text, or the number in the base
   of its letter; the format goes on behind it with the other arguments.
   */
  lemma SpecifierMeans(n: WordBytes, spec: Text, arg: Arg, rest: Text, args: seq<Arg>) returns (t: Text)
    requires Asks(n, spec, arg) && AllFit(n, Parse(rest), args)
    ensures AllFit(n, Parse(spec + rest), [arg] + args)
    ensures Render(n, Parse(spec + rest), [arg] + args) == t + Render(n, Parse(rest), args) && Renders(spec, arg, t)
  {
    hide Asks, Conversion, Fits, Parse, Renders, RenderArg;
    var p := SpecifierPiece(n, spec, arg, rest);
    Rendered(n, spec, arg, p);
    t := RenderArg(n, p, arg);
    assert ([p] + Parse(rest))[1..] == Parse(rest) && ([arg] + args)[1..] == args;
    RenderDir(n, p, Parse(rest), [arg] + args);
  }

  /** A text that stands for itself in a format: bytes but %, an unknown specifier, or %% for one %. */
  predicate StandsFor(spec: Text, t: Text) {
    || (spec == t && |spec| == 1 && spec[0] != 0x25)
    || (spec == [0x25, 0x25] && t == [0x25])
    || (spec == t && |spec| == 2 && spec[0] == 0x25 && spec[1] !in [0x25, 0x63, 0x64, 0x6C, 0x73, 0x75, 0x78])
    || (spec == t && |spec| == 3 && spec[..2] == [0x25, 0x6C] && spec[2] !in [0x64, 0x75, 0x78])
  }

  lemma FrontLits(spec: Text, t: Text, rest: Text)
    requires StandsFor(spec, t)
    ensures Front(spec + rest) == (Lits(t), |spec|)
  {
    var fmt := spec + rest;
    if |spec| == 1 {
      assert t == [fmt[0]];
    } else if spec == [0x25, 0x25] && t == [0x25] {
      assert fmt[0] == fmt[1] == PERCENT;
    } else if |spec| == 2 {
      assert t == [PERCENT, fmt[1]] && fmt[0] == PERCENT;
    } else {
      assert spec == spec[..2] + [spec[2]];
      assert t == [PERCENT, LETTER_L, fmt[2]] && fmt[0] == PERCENT && fmt[1] == LETTER_L;
    }
  }

  lemma LiteralMeans(n: WordBytes, spec: Text, t: Text, rest: Text, args: seq<Arg>)
    requires StandsFor(spec, t) && AllFit(n, Parse(rest), args)
    ensures AllFit(n, Parse(spec + rest), args)
    ensures Render(n, Parse(spec + rest), args) == t + Render(n, Parse(rest), args)
  {
    var fmt := spec + rest;
    assert fmt[|spec|..] == rest;
    FrontLits(spec, t, rest);
    ParseFront(fmt);
    hide Front, StandsFor, Parse;
    LitsFit(n, t, Parse(rest), args);
    RenderLits(n, t, Parse(rest), args);
  }

  lemma {:induction false} LitsFit(n: WordBytes, t: Text, ps: seq<Piece>, args: seq<Arg>)
    requires AllFit(n, ps, args)
    ensures AllFit(n, Lits(t) + ps, args)
  {
    if t == [] {
      assert Lits(t) + ps == ps;
    } else {
      LitsFit(n, t[1..], ps, args);
      assert (Lits(t) + ps)[1..] == Lits(t[1..]) + ps;
    }
  }

  /** Text without % stands for itself. */
  lemma {:induction false} PlainMeans(n: WordBytes, t: Text, rest: Text, args: seq<Arg>)
    requires 0x25 !in t && AllFit(n, Parse(rest), args)
    ensures AllFit(n, Parse(t + rest), args)
    ensures Render(n, Parse(t + rest), args) == t + Render(n, Parse(rest), args)
  {
    hide AllFit, Parse, Render;
    if t == [] {
      assert t + rest == rest;
    } else {
      PlainMeans(n, t[1..], rest, args);
      LiteralMeans(n, [t[0]], [t[0]], t[1..] + rest, args);
      assert [t[0]] + (t[1..] + rest) == t + rest && [t[0]] + t[1..] == t;
    }
  }

  /**
   One specifier between two texts: Eprintf's payload is the first text, what the specifier makes of its argument, the
   second text and a NUL, as long as the buffer holds it.
   */
  lemma FormatMeans(n: WordBytes, pre: Text, spec: Text, post: Text, arg: Arg) returns (t: Text)
    requires 0x25 !in pre && 0x25 !in post && Asks(n, spec, arg)
    ensures AllFit(n, Parse(pre + spec + post), [arg]) && Renders(spec, arg, t)
    ensures Render(n, Parse(pre + spec + post), [arg]) == pre + t + post
    ensures |pre + t + post| <= 511 ==> Payload(n, pre + spec + post, [arg]) == pre + t + post + [0]
  {
    hide *;
    PlainAlone(n, post);
    t := SpecifierFirst(n, spec, arg, post);
    PlainMeans(n, pre, spec + post, [arg]);
    Associative(pre, spec, post);
    Associative(pre, t, post);
    WholePayload(n, pre + spec + post, [arg], pre + t + post);
  }

  lemma PlainAlone(n: WordBytes, t: Text)
    requires 0x25 !in t
    ensures AllFit(n, Parse(t), []) && Render(n, Parse(t), []) == t
  {
    assert AllFit(n, Parse([]), []) && Render(n, Parse([]), []) == [];
    PlainMeans(n, t, [], []);
    hide AllFit, Parse, Render;
    assert t + [] == t;
  }

  lemma SpecifierFirst(n: WordBytes, spec: Text, arg: Arg, post: Text) returns (t: Text)
    requires Asks(n, spec, arg) && AllFit(n, Parse(post), []) && Render(n, Parse(post), []) == post
    ensures AllFit(n, Parse(spec + post), [arg]) && Render(n, Parse(spec + post), [arg]) == t + post
    ensures Renders(spec, arg, t)
  {
    hide *;
    t := SpecifierMeans(n, spec, arg, post, []);
    assert [arg] + [] == [arg];
  }

  lemma WholePayload(n: WordBytes, fmt: Text, args: seq<Arg>, t: Text)
    requires AllFit(n, Parse(fmt), args) && Render(n, Parse(fmt), args) == t
    ensures |t| <= 511 ==> Payload(n, fmt, args) == t + [0]
  {
    hide AllFit, Parse, Render, Kept;
  }

  // ---------------------------------------------------------------------------
  // Eprintf
  // ---------------------------------------------------------------------------

  /** Padding with NUL bytes to whole words changes nothing. */
  lemma {:induction false} ChunkZeros(n: WordBytes, payload: Text, bytes: Text)
    requires payload != [] && |bytes| == n * WordsFor(n, |payload|) && payload <= bytes
    requires forall i :: |payload| <= i < |bytes| ==> bytes[i] == 0
    ensures Chunk(n, bytes) == Chunk(n, payload)
    decreases |payload|
  {
    RoundUp(n, |payload|);
    if |payload| <= n {
      assert |bytes| == n;
      assert Chunk(n, bytes)[0] == bytes == payload + seq(n - |payload|, _ => 0);
    } else {
      assert n * WordsFor(n, |payload|) == n * WordsFor(n, |payload| - n) + n;
      ChunkZeros(n, payload[n..], bytes[n..]);
      assert bytes[..n] == payload[..n];
    }
  }

  /** Every character of a rendering is printable text or a literal of the format. */
  lemma {:induction false} RenderNonNul(n: WordBytes, ps: seq<Piece>, args: seq<Arg>)
    requires AllFit(n, ps, args) && forall k :: 0 <= k < |ps| && ps[k].Lit? ==> ps[k].c != 0
    ensures forall k :: 0 <= k < |Render(n, ps, args)| ==> Render(n, ps, args)[k] != 0
  {
    if ps != [] {
      if ps[0].Lit? {
        RenderNonNul(n, ps[1..], args);
      } else {
        RenderNonNul(n, ps[1..], args[1..]);
        ArgNonNul(n, ps[0], args[0]);
      }
    }
  }

  lemma ArgNonNul(n: WordBytes, p: Piece, arg: Arg)
    requires p.Dir? && Fits(n, p, arg)
    ensures forall k :: 0 <= k < |RenderArg(n, p, arg)| ==> RenderArg(n, p, arg)[k] != 0
  {
    match p.kind
    case Char =>
    case Str =>
    case Decimal => DigitsNoMinus(if arg.i < 0 then -arg.i else arg.i, 10);
    case Natural => DigitsNoMinus(arg.u, 10);
    case Hex => DigitsNoMinus(arg.u, 16);
  }

  lemma {:induction false} ParseNonNul(fmt: Text)
    requires forall k :: 0 <= k < |fmt| ==> fmt[k] != 0
    ensures forall k :: 0 <= k < |Parse(fmt)| && Parse(fmt)[k].Lit? ==> Parse(fmt)[k].c != 0
    decreases |fmt|
  {
    if fmt != [] {
      ParseFront(fmt);
      ParseNonNul(fmt[Front(fmt).1..]);
    }
  }

  /** A format string, or a null pointer. */
  datatype FormatArg = NullFormat | FormatText(text: Text)

  /** What Eprintf delivers: the rendering cut to the buffer, and a final NUL. */
  function Payload(n: WordBytes, fmt: Text, args: seq<Arg>): (t: Text)
    requires AllFit(n, Parse(fmt), args)
    ensures 1 <= |t| <= 512
  {
    Kept(Render(n, Parse(fmt), args)) + [0]
  }

  lemma SizeFits(n: WordBytes, size: nat)
    requires size <= 512
    ensures size < Range(n) && CeilWords(n, size) == WordsFor(n, size) && n * WordsFor(n, size) <= 512
  {
    assert Range(1) == 256 && Range(2) == 65536;
    RangeGrows(2, n);
    hide Range;
    CeilIsPayload(n, size);
    PayloadWordsExact(n, size);
    RoundUp(n, size);
    if n == 4 {
      assert 4 * WordsFor(n, size) < 516;
    } else {
      assert 8 * WordsFor(n, size) < 520;
    }
  }

  /** Terminate the text, clear the bytes up to the next word, and view the buffer as words. */
  method Finish(ctx: Context, n: WordBytes) returns (words: seq<Word>)
    requires ctx.Valid() && ctx.count == ctx.byteIndex
    modifies ctx.buffer
    ensures words == Chunk(n, Kept(ctx.text) + [0])
  {
    hide CeilWords, Chunk, CoreLink.Valid, Kept, NonNul, Range, WordsFor;
    ghost var payload := Kept(ctx.text) + [0];
    var buffer := ctx.buffer;
    buffer[ctx.byteIndex] := 0;
    var size := ctx.count + 1;
    assert buffer[..size] == payload;
    SizeFits(n, size);
    var padded := CeilWords(n, size) * n;
    RoundUp(n, size);
    for i := size to padded
      invariant buffer[..size] == payload
      invariant forall k :: size <= k < i ==> buffer[k] == 0
    {
      buffer[i] := 0;
    }
    assert payload <= buffer[..padded];
    ChunkZeros(n, payload, buffer[..padded]);
    words := Chunk(n, buffer[..padded]);
  }

  /** Header, then payload words; EprintfWriteWords is the echo's writing loop without the pause. */
  method SendFrame(link: CoreLink, ghost payload: Text, size: nat, words: seq<Word>) returns (alive: bool)
    requires link.Valid() && size == |payload| && words == Chunk(link.n, payload)
    modifies link`sent, link`looks, link`asked, link`busy
    ensures link.Valid() && (!alive ==> link.StoresOver())
    ensures old(link.sent) <= link.sent <= old(link.sent) + EncodeFrame(link.n, payload)
    ensures alive ==> link.sent == old(link.sent) + EncodeFrame(link.n, payload)
    ensures Used(old(link.busy), link.busy, |link.sent| - |old(link.sent)|, !alive)
    ensures OnlyAsked(old(link.asked), link.asked, Ctp)
  {
    hide Chunk, Context.Valid, CoreLink.Valid, OnlyAsked, ToWord, WordsFor;
    ghost var before, frame := link.sent, EncodeFrame(link.n, payload);
    var header := ToWord(link.n, size);
    assert frame == [header] + words;
    var written;
    alive, written := CtpWriteWordsBlocking(link, [header]);
    if !alive {
      return;
    }
    assert link.sent == before + [header] && before + [header] + words == before + frame;
    ghost var asked := link.asked;
    alive, written := CtpWriteWordsBlocking(link, words);
    AskedMore(old(link.asked), asked, link.asked, Ctp);
    assert before + [header] + words[..written] == before + ([header] + words[..written]);
  }

  /**
   Eprintf sends one frame whose payload is the rendering cut to 511 characters and a NUL, and
   whose header is its exact length; it returns the number of characters.
   */
  method Eprintf(link: CoreLink, fmt: FormatArg, args: seq<Arg>) returns (alive: bool, result: nat)
    requires link.Valid()
    requires fmt.FormatText? ==>
      AllFit(link.n, Parse(fmt.text), args) && forall k :: 0 <= k < |fmt.text| ==> fmt.text[k] != 0
    modifies link`sent, link`looks, link`asked, link`busy
    ensures link.Valid() && (!alive ==> link.StoresOver())
    ensures Used(old(link.busy), link.busy, |link.sent| - |old(link.sent)|, !alive)
    ensures OnlyAsked(old(link.asked), link.asked, Ctp)
    ensures fmt.NullFormat? ==> alive && result == 0 && link.sent == old(link.sent)
    ensures fmt.FormatText? ==>
      var payload := Payload(link.n, fmt.text, args);
      && result == |payload| - 1
      && old(link.sent) <= link.sent <= old(link.sent) + EncodeFrame(link.n, payload)
      && (alive ==> link.sent == old(link.sent) + EncodeFrame(link.n, payload))
  {
    AskedNone(link.asked, Ctp);
    hide AllFit, Chunk, CoreLink.Valid, EncodeFrame, Kept, NonNul, OnlyAsked, Parse, Render;
    if fmt.NullFormat? {
      return true, 0;
    }
    var n := link.n;
    var ctx := new Context();
    Format(ctx, n, fmt.text, args);
    ghost var text, payload := ctx.text, Payload(n, fmt.text, args);
    assert text == Render(n, Parse(fmt.text), args) && payload == Kept(text) + [0];
    ParseNonNul(fmt.text);
    RenderNonNul(n, Parse(fmt.text), args);
    assert forall k :: 0 <= k < |Kept(text)| ==> Kept(text)[k] == text[k];
    NonNulAll(Kept(text));
    result := ctx.count;
    assert ctx.count == NonNul(Kept(text)) && ctx.byteIndex == |Kept(text)|;
    var words := Finish(ctx, n);
    alive := SendFrame(link, payload, result + 1, words);
  }
}
