/** The state-machine kernel of CycleMark (core_state.c): scanning, corrupting and restoring a block. */
module CoreState {

  import opened NumberGrammar
  import Crc

  const NUL: Char := 0

  // ---------------------------------------------------------------------------
  // One token
  // ---------------------------------------------------------------------------

  predicate Ends(c: Char) { c == NUL || c == COMMA }

  /** Where the token that starts at p ends: at a comma, at a NUL, or at the end of the block. */
  function TokenEnd(s: Text, p: nat): (e: nat)
    requires p <= |s|
    ensures p <= e <= |s| && (e < |s| ==> Ends(s[e])) && forall k :: p <= k < e ==> !Ends(s[k])
    decreases |s| - p
  {
    if p < |s| && !Ends(s[p]) then TokenEnd(s, p + 1) else p
  }

  function Token(s: Text, p: nat): Text
    requires p <= |s|
  {
    s[p..TokenEnd(s, p)]
  }

  /** How much of a rejected text has been read: up to and including the first offending symbol. */
  function RejectAt(t: Text): (k: nat)
    requires Fold(t) == INVALID
    ensures 0 < k <= |t| && Fold(t[..k]) == INVALID && Fold(t[..k - 1]) != INVALID
  {
    var u := t[..|t| - 1];
    if Fold(u) == INVALID then
      var k := RejectAt(u);
      assert u[..k] == t[..k] && u[..k - 1] == t[..k - 1];
      k
    else
      assert t[..|t|] == t;
      |t|
  }

  /** Where the next token starts. */
  function NextToken(s: Text, p: nat): nat
    requires p <= |s|
  {
    var e := TokenEnd(s, p);
    if Fold(s[p..e]) == INVALID then p + RejectAt(s[p..e])
    else if e < |s| && s[e] == COMMA then e + 1 else e
  }

  /** Scanning always advances, and never beyond the first NUL. */
  lemma NextTokenAdvances(s: Text, p: nat, nul: nat)
    requires p <= nul < |s| && s[nul] == NUL
    ensures p <= NextToken(s, p) <= nul
    ensures s[p] != NUL ==> NextToken(s, p) > p
  {
    var e := TokenEnd(s, p);
    assert e <= nul;
    if s[p] == COMMA {
      assert s[p..e] == [];
    }
  }

  /** Position of a state in the counter arrays. */
  function Index(s: State): (i: nat)
    ensures i < 8
  {
    match s
    case START => 0 case INVALID => 1 case S1 => 2 case S2 => 3
    case INT => 4 case FLOAT => 5 case EXPONENT => 6 case SCIENTIFIC => 7
  }

  /** A 32-bit counter. */
  type Counter = bv32

  function Inc(x: Counter): Counter { x + 1 }

  function Bump(counts: seq<Counter>, s: State): (r: seq<Counter>)
    requires |counts| == 8
    ensures |r| == 8
  {
    counts[Index(s) := Inc(counts[Index(s)])]
  }

  /** Which counters one symbol moves. */
  function Track(counts: seq<Counter>, s: State, c: Char): (r: seq<Counter>)
    requires |counts| == 8
    ensures |r| == 8
  {
    var next := Delta(s, c);
    match s
    case START => Bump(if next == INVALID then Bump(counts, INVALID) else counts, START)
    case S1 => Bump(counts, S1)
    case INT => if next != INT then Bump(counts, INT) else counts
    case FLOAT => if next != FLOAT then Bump(counts, FLOAT) else counts
    case S2 => Bump(counts, S2)
    case EXPONENT => Bump(counts, EXPONENT)
    case SCIENTIFIC => if next == INVALID then Bump(counts, INVALID) else counts
    case INVALID => counts
  }

  /** The counters after a text. */
  function TrackAll(counts: seq<Counter>, t: Text): (r: seq<Counter>)
    requires |counts| == 8
    ensures |r| == 8
  {
    if t == [] then counts
    else Track(TrackAll(counts, t[..|t| - 1]), Fold(t[..|t| - 1]), t[|t| - 1])
  }

  method Add(counts: array<Counter>, s: State)
    requires counts.Length == 8
    modifies counts
    ensures counts[..] == Bump(old(counts[..]), s)
  {
    counts[Index(s)] := Inc(counts[Index(s)]);
  }

  /** The switch statement: next state, and the counters in place. */
  method Switch(state: State, c: Char, counts: array<Counter>) returns (next: State)
    requires counts.Length == 8
    modifies counts
    ensures next == Delta(state, c)
    ensures counts[..] == Track(old(counts[..]), state, c)
  {
    CharClasses(c);
    hide IsDigit, IsSign, IsDot, IsE, Bump;
    next := state;
    match state {
      case START =>
        if IsDigit(c) {
          next := INT;
        } else if c == PLUS || c == MINUS {
          next := S1;
        } else if c == DOT {
          next := FLOAT;
        } else {
          next := INVALID;
          Add(counts, INVALID);
        }
        Add(counts, START);
      case S1 =>
        next := if IsDigit(c) then INT else if c == DOT then FLOAT else INVALID;
        Add(counts, S1);
      case INT =>
        if c == DOT {
          next := FLOAT;
          Add(counts, INT);
        } else if !IsDigit(c) {
          next := INVALID;
          Add(counts, INT);
        }
      case FLOAT =>
        if c == UPPER_E || c == LOWER_E {
          next := S2;
          Add(counts, FLOAT);
        } else if !IsDigit(c) {
          next := INVALID;
          Add(counts, FLOAT);
        }
      case S2 =>
        next := if c == PLUS || c == MINUS then EXPONENT else INVALID;
        Add(counts, S2);
      case EXPONENT =>
        next := if IsDigit(c) then SCIENTIFIC else INVALID;
        Add(counts, EXPONENT);
      case SCIENTIFIC =>
        if !IsDigit(c) {
          next := INVALID;
          Add(counts, INVALID);
        }
      case INVALID =>
    }
  }

  /** The part of a token that is read before the scan stops. */
  function ReadPart(t: Text): Text {
    if Fold(t) == INVALID then t[..RejectAt(t)] else t
  }

  /** core_state_transition: classify the token at p and move on to the next. */
  method CoreStateTransition(mem: array<Char>, p: nat, counts: array<Counter>, ghost nul: nat)
    returns (q: nat, state: State)
    requires counts.Length == 8 && p <= nul < mem.Length && mem[nul] == NUL
    modifies counts
    ensures state == Fold(Token(mem[..], p)) && q == NextToken(mem[..], p)
    ensures counts[..] == TrackAll(old(counts[..]), ReadPart(Token(mem[..], p)))
  {
    hide Track, Delta;
    state := START;
    var str := p;
    ghost var s, e := mem[..], TokenEnd(mem[..], p);
    assert e <= nul;
    var comma := false;
    while mem[str] != NUL && state != INVALID && !comma
      invariant p <= str <= e + (if comma then 1 else 0) && str <= nul
      invariant comma ==> str == e + 1 && s[e] == COMMA && state != INVALID && state == Fold(s[p..e])
                          && counts[..] == TrackAll(old(counts[..]), s[p..e])
      invariant !comma ==> str <= e && state == Fold(s[p..str]) && counts[..] == TrackAll(old(counts[..]), s[p..str])
      invariant !comma && state == INVALID ==> str > p && Fold(s[p..str - 1]) != INVALID
      decreases nul - str
    {
      var c := mem[str];
      if c == COMMA {
        assert str == e;
        str := str + 1;
        comma := true;
      } else {
        assert str < e;
        ghost var t := s[p..str + 1];
        assert t[..|t| - 1] == s[p..str] && t[|t| - 1] == c;
        state := Switch(state, c, counts);
        str := str + 1;
      }
    }
    q := str;
    Stopped(s, p, e, q, state, comma);
  }

  lemma RejectedFromThere(t: Text, a: nat, b: nat)
    requires a <= b <= |t| && Fold(t[..a]) == INVALID
    ensures Fold(t[..b]) == INVALID
  {
    InvalidStays(t[..a], t[a..b]);
    assert t[..a] + t[a..b] == t[..b];
  }

  lemma RejectUnique(t: Text, k: nat)
    requires 0 < k <= |t| && Fold(t[..k]) == INVALID && Fold(t[..k - 1]) != INVALID
    ensures Fold(t) == INVALID && RejectAt(t) == k
  {
    hide Fold, RejectAt;
    RejectedFromThere(t, k, |t|);
    assert t[..|t|] == t;
    var r := RejectAt(t);
    if r < k {
      RejectedFromThere(t, r, k - 1);
    } else if r > k {
      RejectedFromThere(t, k, r - 1);
    }
  }

  lemma Stopped(s: Text, p: nat, e: nat, q: nat, state: State, comma: bool)
    requires p <= |s| && e == TokenEnd(s, p) && p <= q <= |s|
    requires comma ==> q == e + 1 && s[e] == COMMA && state != INVALID && state == Fold(s[p..e])
    requires !comma ==> q <= e && state == Fold(s[p..q])
    requires !comma && state == INVALID ==> q > p && Fold(s[p..q - 1]) != INVALID
    requires !comma && state != INVALID ==> q < |s| && s[q] == NUL
    ensures state == Fold(s[p..e]) && q == NextToken(s, p)
    ensures ReadPart(s[p..e]) == s[p..if comma then e else q]
  {
    hide Fold, RejectAt, TokenEnd;
    var t := s[p..e];
    if !comma && state != INVALID {
      assert q == e && s[e] != COMMA;
    } else if !comma {
      var k := q - p;
      assert t[..k] == s[p..q];
      assert t[..k - 1] == s[p..p + (k - 1)];
      RejectUnique(t, k);
    }
  }

  // ---------------------------------------------------------------------------
  // A whole block
  // ---------------------------------------------------------------------------

  /** The states of the tokens from p to the first NUL. */
  ghost function TokenStates(s: Text, p: nat, nul: nat): seq<State>
    requires p <= nul < |s| && s[nul] == NUL
    decreases nul - p
  {
    if s[p] == NUL then []
    else
      NextTokenAdvances(s, p, nul);
      [Fold(Token(s, p))] + TokenStates(s, NextToken(s, p), nul)
  }

  ghost function CountStates(counts: seq<Counter>, states: seq<State>): (r: seq<Counter>)
    requires |counts| == 8
    ensures |r| == 8
    decreases |states|
  {
    if states == [] then counts else CountStates(Bump(counts, states[0]), states[1..])
  }

  /** The transition counters after all tokens from p on. */
  ghost function TrackBlock(counts: seq<Counter>, s: Text, p: nat, nul: nat): (r: seq<Counter>)
    requires |counts| == 8 && p <= nul < |s| && s[nul] == NUL
    ensures |r| == 8
    decreases nul - p
  {
    if s[p] == NUL then counts
    else
      NextTokenAdvances(s, p, nul);
      TrackBlock(TrackAll(counts, ReadPart(Token(s, p))), s, NextToken(s, p), nul)
  }

  /** The scanning loop of core_bench_state; it ends, and stays before the first NUL. */
  method ScanBlock(mem: array<Char>, finals: array<Counter>, tracks: array<Counter>, ghost nul: nat)
    requires finals.Length == 8 && tracks.Length == 8 && finals != tracks
    requires nul < mem.Length && mem[nul] == NUL
    modifies finals, tracks
    ensures finals[..] == CountStates(old(finals[..]), TokenStates(mem[..], 0, nul))
    ensures tracks[..] == TrackBlock(old(tracks[..]), mem[..], 0, nul)
  {
    hide TrackAll, NextToken, Token, Fold, Bump;
    var p := 0;
    ghost var s := mem[..];
    while mem[p] != NUL
      invariant p <= nul
      invariant CountStates(finals[..], TokenStates(s, p, nul)) == CountStates(old(finals[..]), TokenStates(s, 0, nul))
      invariant TrackBlock(tracks[..], s, p, nul) == TrackBlock(old(tracks[..]), s, 0, nul)
      decreases nul - p
    {
      NextTokenAdvances(s, p, nul);
      var state;
      ghost var was := finals[..];
      ghost var rest := TokenStates(s, NextToken(s, p), nul);
      assert CountStates(was, [Fold(Token(s, p))] + rest) == CountStates(Bump(was, Fold(Token(s, p))), rest) by {
        assert ([Fold(Token(s, p))] + rest)[1..] == rest;
      }
      p, state := CoreStateTransition(mem, p, tracks, nul);
      Add(finals, state);
    }
  }

  // ---------------------------------------------------------------------------
  // Corruption
  // ---------------------------------------------------------------------------

  /** One corrupted byte: separators are left alone. */
  function Flip(b: Char, seed: bv8): Char {
    if b == COMMA then b else b ^ seed
  }

  /** The bytes that a pass with this step touches. */
  predicate Stepped(i: nat, step: nat)
    requires step > 0
  {
    i == 0 || (i >= step && Stepped(i - step, step))
  }

  /** Those are the multiples of the step. */
  lemma {:induction false} SteppedIs(i: nat, step: nat)
    requires step > 0
    ensures Stepped(i, step) <==> i % step == 0
    decreases i
  {
    if i >= step {
      SteppedIs(i - step, step);
      SameRemainder(i - step, step);
    }
  }

  lemma SameRemainder(i: nat, step: nat)
    requires step > 0
    ensures (i + step) % step == i % step
  {
    var q, r := i / step, i % step;
    var p, m := (i + step) / step, (i + step) % step;
    Divided(i, step);
    Divided(i + step, step);
    assert (q + 1) * step == q * step + step;
    RestUnique(q + 1, r, p, m, step);
  }

  lemma Divided(x: nat, step: nat)
    requires step > 0
    ensures x == (x / step) * step + x % step
  {}

  /** A remainder is unique. */
  lemma RestUnique(q: nat, r: nat, p: nat, m: nat, step: nat)
    requires q * step + r == p * step + m && r < step && m < step
    ensures r == m
  {
    if q > p {
      Apart(q, p, step);
    } else if p > q {
      Apart(p, q, step);
    }
  }

  lemma Apart(q: nat, p: nat, step: nat)
    requires q > p
    ensures q * step >= p * step + step
  {
    var d := q - p - 1;
    assert q * step == p * step + d * step + step;
    assert d * step >= 0;
  }

  function Corrupted(s: Text, seed: bv8, step: nat): (r: Text)
    requires step > 0
    ensures |r| == |s|
  {
    seq(|s|, i requires 0 <= i < |s| => if Stepped(i, step) then Flip(s[i], seed) else s[i])
  }

  lemma {:induction false} NotStepped(i: nat, from: nat, step: nat)
    requires step > 0 && Stepped(from, step) && from < i < from + step
    ensures !Stepped(i, step)
    decreases from
  {
    if from > 0 { NotStepped(i - step, from - step, step); }
  }

  /** The pass over the block that corrupts it, or undoes the corruption. */
  method CorruptBlock(mem: array<Char>, blksize: nat, seed: bv8, step: nat)
    requires blksize <= mem.Length && step > 0
    modifies mem
    ensures mem[..blksize] == Corrupted(old(mem[..blksize]), seed, step)
    ensures mem[blksize..] == old(mem[blksize..])
  {
    hide Flip;
    var p := 0;
    while p < blksize
      invariant Stepped(p, step)
      invariant forall k :: 0 <= k < blksize ==>
        mem[k] == if k < p && Stepped(k, step) then Flip(old(mem[k]), seed) else old(mem[k])
      invariant mem[blksize..] == old(mem[blksize..])
    {
      FlipIs(mem[p], seed);
      if mem[p] != COMMA {
        mem[p] := mem[p] ^ seed;
      }
      forall k | p < k < p + step ensures !Stepped(k, step) { NotStepped(k, p, step); }
      p := p + step;
    }
  }

  lemma FlipIs(b: Char, seed: bv8)
    ensures Flip(b, seed) == if b == COMMA then b else b ^ seed
  {}

  /** A byte comes back exactly when the seed is zero or the byte does not turn into a separator. */
  lemma FlipTwice(b: Char, seed: bv8)
    ensures Flip(Flip(b, seed), seed) == b <==> seed == 0 || b != COMMA ^ seed
  {}

  /** The seed is zero, or no touched byte turns into a separator. */
  ghost predicate Restorable(s: Text, seed: bv8, step: nat)
    requires step > 0
  {
    seed == 0 || forall i :: 0 <= i < |s| && Stepped(i, step) ==> s[i] != COMMA ^ seed
  }

  /**
   With equal seeds the two passes restore the block if and only if the seed's low byte is zero or
   no touched byte turns into a separator.
   */
  lemma UndoRestores(s: Text, seed: bv8, step: nat)
    requires step > 0
    ensures Corrupted(Corrupted(s, seed, step), seed, step) == s <==> Restorable(s, seed, step)
  {
    hide Flip, Stepped;
    var t := Corrupted(Corrupted(s, seed, step), seed, step);
    forall i | 0 <= i < |s| ensures t[i] == s[i] <==> !Stepped(i, step) || seed == 0 || s[i] != COMMA ^ seed {
      FlipTwice(s[i], seed);
    }
    if Restorable(s, seed, step) {
      assert forall i :: 0 <= i < |s| ==> t[i] == s[i];
    }
  }

  /** Two NUL bytes at the end of a block survive a pass that skips at least every other byte. */
  lemma NulSurvives(s: Text, seed: bv8, step: nat)
    requires step >= 2 && |s| >= 2 && s[|s| - 1] == NUL && s[|s| - 2] == NUL
    ensures var r := Corrupted(s, seed, step); r[|s| - 1] == NUL || r[|s| - 2] == NUL
  {
    if Stepped(|s| - 2, step) {
      NotStepped(|s| - 1, |s| - 2, step);
    }
  }

  // ---------------------------------------------------------------------------
  // The initial block
  // ---------------------------------------------------------------------------

  /** The 16 bits of the seed, as a number. */
  type Seed = x: nat | x < 0x1_0000

  // intpat, floatpat, scipat and errpat
  const INTEGERS: seq<Text> := [
    [0x35, 0x30, 0x31, 0x32],  // 5012
    [0x31, 0x32, 0x33, 0x34],  // 1234
    [0x2D, 0x38, 0x37, 0x34],  // -874
    [0x2B, 0x31, 0x32, 0x32]  // +122
  ]

  const FLOATS: seq<Text> := [
    [0x33, 0x35, 0x2E, 0x35, 0x34, 0x34, 0x30, 0x30],  // 35.54400
    [0x2E, 0x31, 0x32, 0x33, 0x34, 0x35, 0x30, 0x30],  // .1234500
    [0x2D, 0x31, 0x31, 0x30, 0x2E, 0x37, 0x30, 0x30],  // -110.700
    [0x2B, 0x30, 0x2E, 0x36, 0x34, 0x34, 0x30, 0x30]  // +0.64400
  ]

  const SCIENTIFICS: seq<Text> := [
    [0x35, 0x2E, 0x35, 0x30, 0x30, 0x65, 0x2B, 0x33],  // 5.500e+3
    [0x2D, 0x2E, 0x31, 0x32, 0x33, 0x65, 0x2D, 0x32],  // -.123e-2
    [0x2D, 0x38, 0x37, 0x65, 0x2B, 0x38, 0x33, 0x32],  // -87e+832
    [0x2B, 0x30, 0x2E, 0x36, 0x65, 0x2D, 0x31, 0x32]  // +0.6e-12
  ]

  const INVALIDS: seq<Text> := [
    [0x54, 0x30, 0x2E, 0x33, 0x65, 0x2D, 0x31, 0x46],  // T0.3e-1F
    [0x2D, 0x54, 0x2E, 0x54, 0x2B, 0x2B, 0x54, 0x71],  // -T.T++Tq
    [0x31, 0x54, 0x33, 0x2E, 0x34, 0x65, 0x34, 0x7A],  // 1T3.4e4z
    [0x33, 0x34, 0x2E, 0x30, 0x65, 0x2D, 0x54, 0x5E]  // 34.0e-T^
  ]

  /** The pattern that a seed selects. */
  function Pattern(seed: Seed): (t: Text)
    ensures |t| == 4 || |t| == 8
  {
    var kind, k := seed % 8, seed / 8 % 4;
    if kind <= 2 then INTEGERS[k] else if kind <= 4 then FLOATS[k]
    else if kind <= 6 then SCIENTIFICS[k] else INVALIDS[k]
  }

  /** The machine, symbol by symbol from a state on. */
  function Machine(s: State, t: Text): State
    decreases |t|
  {
    if t == [] then s else Machine(Delta(s, t[0]), t[1..])
  }

  lemma {:induction false} MachineSnoc(s: State, t: Text, c: Char)
    ensures Machine(s, t + [c]) == Delta(Machine(s, t), c)
    decreases |t|
  {
    hide Delta;
    if t == [] {
      assert Machine(s, [c]) == Machine(Delta(s, c), []);
    } else {
      assert (t + [c])[1..] == t[1..] + [c];
      MachineSnoc(Delta(s, t[0]), t[1..], c);
    }
  }

  lemma {:induction false} FoldIs(t: Text)
    ensures Fold(t) == Machine(START, t)
  {
    hide Delta;
    if t != [] {
      var u := t[..|t| - 1];
      FoldIs(u);
      MachineSnoc(START, u, t[|t| - 1]);
      assert u + [t[|t| - 1]] == t;
    }
  }

  lemma IntegerPattern0()
    ensures Fold(INTEGERS[0]) == INT
  {
    FoldIs(INTEGERS[0]);
    assert Machine(START, [0x35, 0x30, 0x31, 0x32]) == INT;
  }

  lemma IntegerPattern1()
    ensures Fold(INTEGERS[1]) == INT
  {
    FoldIs(INTEGERS[1]);
    assert Machine(START, [0x31, 0x32, 0x33, 0x34]) == INT;
  }

  lemma IntegerPattern2()
    ensures Fold(INTEGERS[2]) == INT
  {
    FoldIs(INTEGERS[2]);
    assert Machine(START, [0x2D, 0x38, 0x37, 0x34]) == INT;
  }

  lemma IntegerPattern3()
    ensures Fold(INTEGERS[3]) == INT
  {
    FoldIs(INTEGERS[3]);
    assert Machine(START, [0x2B, 0x31, 0x32, 0x32]) == INT;
  }

  lemma FloatPattern0()
    ensures Fold(FLOATS[0]) == FLOAT
  {
    FoldIs(FLOATS[0]);
    assert Machine(START, [0x33, 0x35, 0x2E, 0x35, 0x34, 0x34, 0x30, 0x30]) == FLOAT;
  }

  lemma FloatPattern1()
    ensures Fold(FLOATS[1]) == FLOAT
  {
    FoldIs(FLOATS[1]);
    assert Machine(START, [0x2E, 0x31, 0x32, 0x33, 0x34, 0x35, 0x30, 0x30]) == FLOAT;
  }

  lemma FloatPattern2()
    ensures Fold(FLOATS[2]) == FLOAT
  {
    FoldIs(FLOATS[2]);
    assert Machine(START, [0x2D, 0x31, 0x31, 0x30, 0x2E, 0x37, 0x30, 0x30]) == FLOAT;
  }

  lemma FloatPattern3()
    ensures Fold(FLOATS[3]) == FLOAT
  {
    FoldIs(FLOATS[3]);
    assert Machine(START, [0x2B, 0x30, 0x2E, 0x36, 0x34, 0x34, 0x30, 0x30]) == FLOAT;
  }

  lemma ScientificPattern0()
    ensures Fold(SCIENTIFICS[0]) == SCIENTIFIC
  {
    FoldIs(SCIENTIFICS[0]);
    assert Machine(START, [0x35, 0x2E, 0x35, 0x30, 0x30, 0x65, 0x2B, 0x33]) == SCIENTIFIC;
  }

  lemma ScientificPattern1()
    ensures Fold(SCIENTIFICS[1]) == SCIENTIFIC
  {
    FoldIs(SCIENTIFICS[1]);
    assert Machine(START, [0x2D, 0x2E, 0x31, 0x32, 0x33, 0x65, 0x2D, 0x32]) == SCIENTIFIC;
  }

  lemma ScientificPattern2()
    ensures Fold(SCIENTIFICS[2]) == INVALID
  {
    FoldIs(SCIENTIFICS[2]);
    assert Machine(START, [0x2D, 0x38, 0x37, 0x65, 0x2B, 0x38, 0x33, 0x32]) == INVALID;
  }

  lemma ScientificPattern3()
    ensures Fold(SCIENTIFICS[3]) == SCIENTIFIC
  {
    FoldIs(SCIENTIFICS[3]);
    assert Machine(START, [0x2B, 0x30, 0x2E, 0x36, 0x65, 0x2D, 0x31, 0x32]) == SCIENTIFIC;
  }

  lemma InvalidPattern0()
    ensures Fold(INVALIDS[0]) == INVALID
  {
    FoldIs(INVALIDS[0]);
    assert Machine(START, [0x54, 0x30, 0x2E, 0x33, 0x65, 0x2D, 0x31, 0x46]) == INVALID;
  }

  lemma InvalidPattern1()
    ensures Fold(INVALIDS[1]) == INVALID
  {
    FoldIs(INVALIDS[1]);
    assert Machine(START, [0x2D, 0x54, 0x2E, 0x54, 0x2B, 0x2B, 0x54, 0x71]) == INVALID;
  }

  lemma InvalidPattern2()
    ensures Fold(INVALIDS[2]) == INVALID
  {
    FoldIs(INVALIDS[2]);
    assert Machine(START, [0x31, 0x54, 0x33, 0x2E, 0x34, 0x65, 0x34, 0x7A]) == INVALID;
  }

  lemma InvalidPattern3()
    ensures Fold(INVALIDS[3]) == INVALID
  {
    FoldIs(INVALIDS[3]);
    assert Machine(START, [0x33, 0x34, 0x2E, 0x30, 0x65, 0x2D, 0x54, 0x5E]) == INVALID;
  }

  /**
   The third of the patterns meant to be scientific is none: an exponent needs a dot before it, so
   the machine stops at its letter e and the rest of the pattern becomes a token of its own.
   */
  lemma ThirdScientificPattern()
    ensures Fold(SCIENTIFICS[2]) == INVALID && RejectAt(SCIENTIFICS[2]) == 4
  {
    var t := SCIENTIFICS[2];
    FoldIs(t[..3]);
    FoldIs(t[..4]);
    assert t[..3] == [0x2D, 0x38, 0x37] && t[..4] == [0x2D, 0x38, 0x37, 0x65];
    assert Machine(START, [0x2D, 0x38, 0x37]) == INT && Machine(START, [0x2D, 0x38, 0x37, 0x65]) == INVALID;
    hide Fold, Machine, RejectAt;
    RejectUnique(t, 4);
  }

  /**
   What the patterns are, by the seed's low three bits: integers, floats, scientific numbers but for the one
   above, and texts that are no numbers.
   */
  lemma PatternKinds(seed: Seed)
    ensures var form := Fold(Pattern(seed));
            && (seed % 8 <= 2 ==> form == INT && |Pattern(seed)| == 4) && (3 <= seed % 8 <= 4 ==> form == FLOAT)
            && (5 <= seed % 8 <= 6 ==> form == if seed / 8 % 4 == 2 then INVALID else SCIENTIFIC)
            && (seed % 8 == 7 ==> form == INVALID) && (seed % 8 > 2 ==> |Pattern(seed)| == 8)
  {
    IntegerPattern0(); IntegerPattern1(); IntegerPattern2(); IntegerPattern3();
    FloatPattern0(); FloatPattern1(); FloatPattern2(); FloatPattern3();
    ScientificPattern0(); ScientificPattern1(); ScientificPattern2(); ScientificPattern3();
    InvalidPattern0(); InvalidPattern1(); InvalidPattern2(); InvalidPattern3();
    hide Fold;
  }

  function NextSeed(seed: Seed): Seed { (seed + 1) % 0x1_0000 }

  /** The seed of the k-th pattern: seed plus k, in 16 bits. */
  function SeedAt(seed: Seed, k: nat): (s: Seed)
    ensures s == (seed + k) % 0x1_0000
  {
    if k == 0 then seed else NextSeed(SeedAt(seed, k - 1))
  }

  /** The first k patterns, each with its separator. */
  function Joined(seed: Seed, k: nat): Text {
    if k == 0 then [] else Joined(seed, k - 1) + Pattern(SeedAt(seed, k)) + [COMMA]
  }

  /** Copy one pattern and its separator into the block. */
  method PutPattern(p: array<Char>, total: nat, buf: Text)
    requires total + |buf| + 1 <= p.Length
    modifies p
    ensures p[..total + |buf| + 1] == old(p[..total]) + (buf + [COMMA])
    ensures forall i :: total + |buf| + 1 <= i < p.Length ==> p[i] == old(p[i])
  {
    hide COMMA;
    for i := 0 to |buf|
      invariant p[..total] == old(p[..total]) && p[total..total + i] == buf[..i]
      invariant forall j :: total + |buf| + 1 <= j < p.Length ==> p[j] == old(p[j])
    {
      p[total + i] := buf[i];
    }
    p[total + |buf|] := COMMA;
    assert p[..total + |buf| + 1] == p[..total] + p[total..total + |buf|] + [COMMA];
  }

  /** Fill the rest of the block with NUL bytes. */
  method FillNul(p: array<Char>, from: nat, size: nat)
    requires from <= size <= p.Length
    modifies p
    ensures p[..from] == old(p[..from])
    ensures forall i :: from <= i < size ==> p[i] == NUL
    ensures forall i :: size <= i < p.Length ==> p[i] == old(p[i])
  {
    hide NUL;
    var total := from;
    while total < size
      invariant from <= total <= size && p[..from] == old(p[..from])
      invariant forall i :: from <= i < total ==> p[i] == NUL
      invariant forall i :: size <= i < p.Length ==> p[i] == old(p[i])
    {
      p[total] := NUL;
      total := total + 1;
    }
  }

  /** core_init_state: as many patterns as leave two bytes, then NUL bytes. */
  method CoreInitState(size: nat, seed: Seed, p: array<Char>) returns (ghost k: nat)
    requires 1 <= size <= p.Length
    modifies p
    ensures |Joined(seed, k)| <= size && (size >= 2 ==> |Joined(seed, k)| + 2 <= size)
    ensures size > 2 ==> |Joined(seed, k + 1)| + 2 > size
    ensures p[..|Joined(seed, k)|] == Joined(seed, k)
    ensures forall i :: |Joined(seed, k)| <= i < size ==> p[i] == NUL
    ensures forall i :: size <= i < p.Length ==> p[i] == old(p[i])
  {
    hide NextSeed, Pattern;
    var total, next, buf, s := 0, 0, [], seed;
    var limit := size - 1;
    k := 0;
    JoinedNext(seed, 0);
    assert Joined(seed, 0) == [] && SeedAt(seed, 0) == seed;
    while total + next + 1 < limit
      invariant next == |buf| && total == |Joined(seed, k)| && (total == 0 || total + 2 <= size)
      invariant p[..total] == Joined(seed, k)
      invariant if next > 0 then buf == Pattern(s) && s == SeedAt(seed, k + 1) else k == 0 && s == SeedAt(seed, 0)
      invariant forall i :: size <= i < p.Length ==> p[i] == old(p[i])
      decreases size - total, if next == 0 then 1 else 0
    {
      if next > 0 {
        PutPattern(p, total, buf);
        JoinedNext(seed, k);
        total := total + next + 1;
        k := k + 1;
      }
      assert NextSeed(s) == SeedAt(seed, k + 1);
      s := NextSeed(s);
      buf := Pattern(s);
      next := |buf|;
    }
    JoinedNext(seed, k);
    FillNul(p, total, size);
  }

  lemma JoinedNext(seed: Seed, k: nat)
    ensures Joined(seed, k + 1) == Joined(seed, k) + (Pattern(SeedAt(seed, k + 1)) + [COMMA])
  {
    hide Pattern, SeedAt;
  }

  // ---------------------------------------------------------------------------
  // The benchmark
  // ---------------------------------------------------------------------------

  /** The checksum over both counter arrays, state by state. */
  ghost function CountsCrc(finals: seq<Counter>, tracks: seq<Counter>, k: nat, crc: bv16): bv16
    requires |finals| == |tracks| == 8 && k <= 8
  {
    if k == 0 then crc
    else
      var before := CountsCrc(finals, tracks, k - 1, crc);
      var mid := Crc.Feed(Crc.MessageBits(Crc.LittleEndian(finals[k - 1])), before);
      Crc.Feed(Crc.MessageBits(Crc.LittleEndian(tracks[k - 1])), mid)
  }

  method CrcCounts(finals: array<Counter>, tracks: array<Counter>, init: bv16) returns (crc: bv16)
    requires finals.Length == 8 && tracks.Length == 8
    ensures crc == CountsCrc(finals[..], tracks[..], 8, init)
  {
    hide Crc.Feed, Crc.MessageBits, Crc.LittleEndian;
    crc := init;
    for i := 0 to 8
      invariant crc == CountsCrc(finals[..], tracks[..], i, init)
    {
      crc := Crc.Crcu32(finals[i], crc);
      crc := Crc.Crcu32(tracks[i], crc);
    }
  }

  /** enum CORE_STATE */
  const STATES: seq<State> := [START, INVALID, S1, S2, INT, FLOAT, EXPONENT, SCIENTIFIC]

  /** Every state has its own counter, in the order of the enumeration. */
  lemma IndexIs(s: State, i: nat)
    requires i < 8
    ensures STATES[Index(s)] == s && Index(STATES[i]) == i
  {}

  /** A counter after n increments. */
  function Plus(c: Counter, n: nat): Counter {
    if n == 0 then c else Plus(c, n - 1) + 1
  }

  lemma {:induction false} PlusPlus(c: Counter, a: nat, b: nat)
    ensures Plus(Plus(c, a), b) == Plus(c, a + b)
  {
    if b > 0 { PlusPlus(c, a, b - 1); }
  }

  lemma Bumped(counts: seq<Counter>, s: State, q: State)
    requires |counts| == 8
    ensures Bump(counts, s)[Index(q)] == Plus(counts[Index(q)], if q == s then 1 else 0)
  {
    hide Inc, Index, Plus;
    IndexIs(s, 0);
    IndexIs(q, 0);
    PlusNone(counts[Index(q)]);
    PlusOne(counts[Index(q)]);
  }

  lemma PlusNone(c: Counter)
    ensures Plus(c, 0) == c
  {}

  lemma PlusOne(c: Counter)
    ensures Plus(c, 1) == Inc(c)
  {
    assert Plus(c, 1) == Plus(c, 0) + 1;
  }

  /** How many tokens end in a state. */
  function Endings(states: seq<State>, q: State): nat {
    if states == [] then 0 else (if states[0] == q then 1 else 0) + Endings(states[1..], q)
  }

  /** A final count is the number of tokens that end in the state. */
  lemma {:induction false} FinalCount(counts: seq<Counter>, states: seq<State>, q: State)
    requires |counts| == 8
    ensures CountStates(counts, states)[Index(q)] == Plus(counts[Index(q)], Endings(states, q))
    decreases |states|
  {
    hide Bump, Index, Plus;
    if states != [] {
      Bumped(counts, states[0], q);
      FinalCount(Bump(counts, states[0]), states[1..], q);
      PlusPlus(counts[Index(q)], if q == states[0] then 1 else 0, Endings(states[1..], q));
    } else {
      PlusNone(counts[Index(q)]);
    }
  }

  /**
   Whether a symbol that takes the machine from one state to another is counted for the state q: every symbol read
   in START, S1, S2 and EXPONENT, those that leave INT and FLOAT, and for INVALID those that reject from START or
   SCIENTIFIC.
   */
  predicate CountedFor(q: State, from: State, to: State) {
    if q == INVALID then to == INVALID && (from == START || from == SCIENTIFIC)
    else if q == INT || q == FLOAT then from == q && to != q
    else from == q && q != SCIENTIFIC
  }

  lemma Tracked(counts: seq<Counter>, s: State, c: Char, q: State)
    requires |counts| == 8
    ensures Track(counts, s, c)[Index(q)] == Plus(counts[Index(q)], if CountedFor(q, s, Delta(s, c)) then 1 else 0)
  {
    hide Bump, Delta, Index, Plus;
    var next := Delta(s, c);
    if s == START && next == INVALID {
      var mid := Bump(counts, INVALID);
      Bumped(counts, INVALID, q);
      Bumped(mid, START, q);
      PlusPlus(counts[Index(q)], if q == INVALID then 1 else 0, if q == START then 1 else 0);
    } else if s == SCIENTIFIC && next == INVALID {
      Bumped(counts, INVALID, q);
    } else {
      StaysInvalid(c);
      Bumped(counts, s, q);
      PlusNone(counts[Index(q)]);
    }
  }

  lemma StaysInvalid(c: Char)
    ensures Delta(INVALID, c) == INVALID
  {}

  /** How many symbols of a text are counted for a state. */
  function Moves(t: Text, q: State): nat {
    if t == [] then 0
    else Moves(t[..|t| - 1], q) + if CountedFor(q, Fold(t[..|t| - 1]), Fold(t)) then 1 else 0
  }

  lemma {:induction false} TrackCount(counts: seq<Counter>, t: Text, q: State)
    requires |counts| == 8
    ensures TrackAll(counts, t)[Index(q)] == Plus(counts[Index(q)], Moves(t, q))
  {
    hide Delta, Index, Plus, Track, CountedFor;
    if t != [] {
      var u := t[..|t| - 1];
      TrackCount(counts, u, q);
      Tracked(TrackAll(counts, u), Fold(u), t[|t| - 1], q);
      PlusPlus(counts[Index(q)], Moves(u, q), if CountedFor(q, Fold(u), Fold(t)) then 1 else 0);
    } else {
      PlusNone(counts[Index(q)]);
    }
  }

  /** How many symbols are counted for a state in all tokens from p on. */
  ghost function BlockMoves(s: Text, p: nat, nul: nat, q: State): nat
    requires p <= nul < |s| && s[nul] == NUL
    decreases nul - p
  {
    if s[p] == NUL then 0
    else
      NextTokenAdvances(s, p, nul);
      Moves(ReadPart(Token(s, p)), q) + BlockMoves(s, NextToken(s, p), nul, q)
  }

  /** A transition count is the number of symbols counted for the state. */
  lemma {:induction false} TransitionCount(counts: seq<Counter>, s: Text, p: nat, nul: nat, q: State)
    requires |counts| == 8 && p <= nul < |s| && s[nul] == NUL
    ensures TrackBlock(counts, s, p, nul)[Index(q)] == Plus(counts[Index(q)], BlockMoves(s, p, nul, q))
    decreases nul - p
  {
    hide Index, Plus, TrackAll, Token, NextToken, Moves, ReadPart;
    if s[p] != NUL {
      NextTokenAdvances(s, p, nul);
      var read := ReadPart(Token(s, p));
      TrackCount(counts, read, q);
      TransitionCount(TrackAll(counts, read), s, NextToken(s, p), nul, q);
      PlusPlus(counts[Index(q)], Moves(read, q), BlockMoves(s, NextToken(s, p), nul, q));
    } else {
      PlusNone(counts[Index(q)]);
    }
  }

  /** The counters as bytes: for each state its final count and then its transition count, low bytes first. */
  function CounterBytes(finals: seq<Counter>, tracks: seq<Counter>, k: nat): seq<bv8>
    requires |finals| == |tracks| == 8 && k <= 8
  {
    if k == 0 then []
    else CounterBytes(finals, tracks, k - 1) + Crc.LittleEndian(finals[k - 1]) + Crc.LittleEndian(tracks[k - 1])
  }

  lemma {:induction false} CountsCrcIs(finals: seq<Counter>, tracks: seq<Counter>, k: nat, crc: bv16)
    requires |finals| == |tracks| == 8 && k <= 8
    ensures CountsCrc(finals, tracks, k, crc) == Crc.Feed(Crc.MessageBits(CounterBytes(finals, tracks, k)), crc)
  {
    hide Crc.LittleEndian, Crc.Feed, Crc.MessageBits;
    if k > 0 {
      var before := CounterBytes(finals, tracks, k - 1);
      var f, t := Crc.LittleEndian(finals[k - 1]), Crc.LittleEndian(tracks[k - 1]);
      CountsCrcIs(finals, tracks, k - 1, crc);
      Crc.FeedBytes(before, f, crc);
      Crc.FeedBytes(before + f, t, crc);
    } else {
      NothingFed(crc);
    }
  }

  lemma NothingFed(crc: bv16)
    ensures Crc.Feed(Crc.MessageBits([]), crc) == crc
  {
    assert Crc.MessageBits([]) == [];
  }

  ghost function Zeros(): (z: seq<Counter>)
    ensures |z| == 8
  {
    seq(8, _ => 0)
  }

  /** The checksum that the benchmark computes: the counts of the block and of its corrupted form. */
  ghost function BenchCrc(block: Text, nul1: nat, corrupted: Text, nul2: nat, crc: bv16): bv16
    requires nul1 < |block| && block[nul1] == NUL && nul2 < |corrupted| && corrupted[nul2] == NUL
  {
    CountsCrc(CountStates(CountStates(Zeros(), TokenStates(block, 0, nul1)), TokenStates(corrupted, 0, nul2)),
              TrackBlock(TrackBlock(Zeros(), block, 0, nul1), corrupted, 0, nul2), 8, crc)
  }

  /** The final and the transition count of a state after both scans. */
  ghost function BothEndings(block: Text, nul1: nat, corrupted: Text, nul2: nat, q: State): nat
    requires nul1 < |block| && block[nul1] == NUL && nul2 < |corrupted| && corrupted[nul2] == NUL
  {
    Endings(TokenStates(block, 0, nul1), q) + Endings(TokenStates(corrupted, 0, nul2), q)
  }

  ghost function BothMoves(block: Text, nul1: nat, corrupted: Text, nul2: nat, q: State): nat
    requires nul1 < |block| && block[nul1] == NUL && nul2 < |corrupted| && corrupted[nul2] == NUL
  {
    BlockMoves(block, 0, nul1, q) + BlockMoves(corrupted, 0, nul2, q)
  }

  /**
   The checksum is that of sixteen counters in the order of the states: how many tokens of the two scans ended in the
   state, and how many symbols were counted for it.
   */
  lemma BenchCrcIs(block: Text, nul1: nat, corrupted: Text, nul2: nat, crc: bv16, finals: seq<Counter>,
                   tracks: seq<Counter>)
    requires nul1 < |block| && block[nul1] == NUL && nul2 < |corrupted| && corrupted[nul2] == NUL
    requires |finals| == |tracks| == 8
    requires forall i :: 0 <= i < 8 ==> finals[i] == Plus(0, BothEndings(block, nul1, corrupted, nul2, STATES[i]))
    requires forall i :: 0 <= i < 8 ==> tracks[i] == Plus(0, BothMoves(block, nul1, corrupted, nul2, STATES[i]))
    ensures BenchCrc(block, nul1, corrupted, nul2, crc)
         == Crc.Feed(Crc.MessageBits(CounterBytes(finals, tracks, 8)), crc)
  {
    var fs := CountStates(CountStates(Zeros(), TokenStates(block, 0, nul1)), TokenStates(corrupted, 0, nul2));
    var ts := TrackBlock(TrackBlock(Zeros(), block, 0, nul1), corrupted, 0, nul2);
    forall i | 0 <= i < 8 ensures fs[i] == finals[i] && ts[i] == tracks[i] {
      CountsBoth(block, nul1, corrupted, nul2, i);
    }
    hide *;
    assert fs == finals && ts == tracks;
    CountsCrcIs(finals, tracks, 8, crc);
  }

  lemma CountsBoth(block: Text, nul1: nat, corrupted: Text, nul2: nat, i: nat)
    requires nul1 < |block| && block[nul1] == NUL && nul2 < |corrupted| && corrupted[nul2] == NUL && i < 8
    ensures CountStates(CountStates(Zeros(), TokenStates(block, 0, nul1)), TokenStates(corrupted, 0, nul2))[i]
         == Plus(0, BothEndings(block, nul1, corrupted, nul2, STATES[i]))
    ensures TrackBlock(TrackBlock(Zeros(), block, 0, nul1), corrupted, 0, nul2)[i]
         == Plus(0, BothMoves(block, nul1, corrupted, nul2, STATES[i]))
  {
    hide BlockMoves, CountStates, Endings, Index, Plus, TokenStates, TrackBlock;
    var q := STATES[i];
    IndexIs(q, i);
    assert Zeros()[Index(q)] == 0;
    FinalCount(Zeros(), TokenStates(block, 0, nul1), q);
    FinalCount(CountStates(Zeros(), TokenStates(block, 0, nul1)), TokenStates(corrupted, 0, nul2), q);
    PlusPlus(0, Endings(TokenStates(block, 0, nul1), q), Endings(TokenStates(corrupted, 0, nul2), q));
    TransitionCount(Zeros(), block, 0, nul1, q);
    TransitionCount(TrackBlock(Zeros(), block, 0, nul1), corrupted, 0, nul2, q);
    PlusPlus(0, BlockMoves(block, 0, nul1, q), BlockMoves(corrupted, 0, nul2, q));
  }

  /**
   core_bench_state. Each pass of the scanner ends at a NUL byte, which the block must hold before
   and after it is corrupted.
   */
  method CoreBenchState(mem: array<Char>, seed1: bv16, seed2: bv16, step: nat, init: bv16, ghost nul1: nat,
                        ghost nul2: nat)
    returns (crc: bv16)
    requires step > 0 && nul1 < mem.Length && mem[nul1] == NUL
    requires nul2 < mem.Length && Corrupted(mem[..], Crc.Low8(seed1), step)[nul2] == NUL
    modifies mem
    ensures mem[..] == Corrupted(Corrupted(old(mem[..]), Crc.Low8(seed1), step), Crc.Low8(seed2), step)
    ensures crc == BenchCrc(old(mem[..]), nul1, Corrupted(old(mem[..]), Crc.Low8(seed1), step), nul2, init)
  {
    hide Corrupted, CountStates, CountsCrc, Crc.Low8, Crc.Zeros, TokenStates, TrackBlock;
    var finals, tracks := new Counter[8](_ => 0), new Counter[8](_ => 0);
    ghost var block := mem[..];
    ghost var corrupted := Corrupted(block, Crc.Low8(seed1), step);
    assert finals[..] == Zeros() && tracks[..] == Zeros();
    ScanBlock(mem, finals, tracks, nul1);
    assert mem[..] == block && mem[..mem.Length] == block;
    CorruptBlock(mem, mem.Length, Crc.Low8(seed1), step);
    assert mem[..] == mem[..mem.Length] == corrupted;
    ScanBlock(mem, finals, tracks, nul2);
    assert mem[..mem.Length] == corrupted;
    CorruptBlock(mem, mem.Length, Crc.Low8(seed2), step);
    assert mem[..] == mem[..mem.Length];
    crc := CrcCounts(finals, tracks, init);
  }

  /** k patterns with their separators, then at least two NUL bytes. */
  ghost predicate InitialBlock(seed: Seed, k: nat, s: Text) {
    && Joined(seed, k) <= s && |Joined(seed, k)| + 2 <= |s|
    && forall i :: |Joined(seed, k)| <= i < |s| ==> s[i] == NUL
  }

  lemma InitialForm(seed: Seed, k: nat, s: Text)
    requires |Joined(seed, k)| + 2 <= |s| && s[..|Joined(seed, k)|] == Joined(seed, k)
    requires forall i :: |Joined(seed, k)| <= i < |s| ==> s[i] == NUL
    ensures InitialBlock(seed, k, s) && s[|s| - 1] == NUL && s[|s| - 2] == NUL
  {
    hide Joined;
  }

  /**
   Build a block and run the benchmark on it: with at least two bytes and a step of at least two the
   corrupted block still ends in a NUL byte, so the second scan stays inside; with equal seeds the
   block is restored exactly when no touched byte turns into a separator.
   */
  method InitAndBench(mem: array<Char>, seed: Seed, seed1: bv16, seed2: bv16, step: nat, init: bv16)
    returns (crc: bv16, ghost initial: Text)
    requires mem.Length >= 2 && step >= 2
    modifies mem
    ensures |initial| == mem.Length
    ensures mem[..] == Corrupted(Corrupted(initial, Crc.Low8(seed1), step), Crc.Low8(seed2), step)
    ensures Crc.Low8(seed1) == Crc.Low8(seed2) ==>
              (mem[..] == initial <==> Restorable(initial, Crc.Low8(seed1), step))
    ensures exists k :: InitialBlock(seed, k, initial)
  {
    hide *;
    ghost var k := CoreInitState(mem.Length, seed, mem);
    initial := mem[..];
    InitialForm(seed, k, initial);
    ghost var size, s1 := mem.Length, Crc.Low8(seed1);
    NulSurvives(initial, s1, step);
    ghost var nul2 := if Corrupted(initial, s1, step)[size - 1] == NUL then size - 1 else size - 2;
    crc := CoreBenchState(mem, seed1, seed2, step, init, size - 1, nul2);
    UndoRestores(initial, s1, step);
  }
}
