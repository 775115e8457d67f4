/** The number classifier of core_state.c: its transition function, and the grammar it accepts. */
module NumberGrammar {

  type Char = bv8
  type Text = seq<Char>

  const ZERO: Char := 0x30
  const NINE: Char := 0x39
  const PLUS: Char := 0x2B
  const MINUS: Char := 0x2D
  const DOT: Char := 0x2E
  const COMMA: Char := 0x2C
  const UPPER_E: Char := 0x45
  const LOWER_E: Char := 0x65

  datatype State = START | INVALID | S1 | S2 | INT | FLOAT | EXPONENT | SCIENTIFIC

  predicate IsDigit(c: Char) { ZERO <= c <= NINE }
  predicate IsSign(c: Char) { c == PLUS || c == MINUS }
  predicate IsDot(c: Char) { c == DOT }
  predicate IsE(c: Char) { c == UPPER_E || c == LOWER_E }

  lemma CharClasses(c: Char)
    ensures !(IsDigit(c) && (IsSign(c) || IsDot(c) || IsE(c)))
    ensures !(IsSign(c) && (IsDot(c) || IsE(c))) && !(IsDot(c) && IsE(c))
    ensures IsDigit(c) <==> c in [0x30, 0x31, 0x32, 0x33, 0x34, 0x35, 0x36, 0x37, 0x38, 0x39]
    ensures (IsSign(c) <==> c in [0x2B, 0x2D]) && (IsDot(c) <==> c == 0x2E) && (IsE(c) <==> c in [0x45, 0x65])
  {}

  /** One symbol of the switch statement. */
  function Delta(s: State, c: Char): State {
    match s
    case START => if IsDigit(c) then INT else if IsSign(c) then S1 else if IsDot(c) then FLOAT else INVALID
    case S1 => if IsDigit(c) then INT else if IsDot(c) then FLOAT else INVALID
    case INT => if IsDot(c) then FLOAT else if IsDigit(c) then INT else INVALID
    case FLOAT => if IsE(c) then S2 else if IsDigit(c) then FLOAT else INVALID
    case S2 => if IsSign(c) then EXPONENT else INVALID
    case EXPONENT => if IsDigit(c) then SCIENTIFIC else INVALID
    case SCIENTIFIC => if IsDigit(c) then SCIENTIFIC else INVALID
    case INVALID => INVALID
  }

  /** The state after a text. */
  function Fold(t: Text): State {
    if t == [] then START else Delta(Fold(t[..|t| - 1]), t[|t| - 1])
  }

  // ---------------------------------------------------------------------------
  // The grammar
  // ---------------------------------------------------------------------------

  ghost predicate Digits(t: Text) {
    forall i :: 0 <= i < |t| ==> IsDigit(t[i])
  }

  /** The text without its optional sign. */
  function Unsigned(t: Text): Text {
    if t != [] && IsSign(t[0]) then t[1..] else t
  }

  /** [+-]? digit+ */
  ghost predicate IsInteger(t: Text) {
    Unsigned(t) != [] && Digits(Unsigned(t))
  }

  ghost predicate DotAt(t: Text, i: nat) {
    i < |t| && IsDot(t[i]) && Digits(t[..i]) && Digits(t[i + 1..])
  }

  /** [+-]? digit* . digit* */
  ghost predicate IsFloat(t: Text) {
    exists i: nat :: DotAt(Unsigned(t), i)
  }

  ghost predicate ExponentAt(t: Text, i: nat) {
    i + 2 < |t| && IsFloat(t[..i]) && IsE(t[i]) && IsSign(t[i + 1]) && Digits(t[i + 2..])
  }

  /** A float, then e or E, a sign, and at least one digit. */
  ghost predicate IsScientific(t: Text) {
    exists i: nat :: ExponentAt(t, i)
  }

  lemma DigitsSnoc(t: Text, c: Char)
    ensures Digits(t + [c]) <==> Digits(t) && IsDigit(c)
  {
    if Digits(t + [c]) {
      assert forall i :: 0 <= i < |t| ==> t[i] == (t + [c])[i];
      assert (t + [c])[|t|] == c;
    }
  }

  lemma UnsignedSnoc(t: Text, c: Char)
    ensures Unsigned(t + [c]) == if t == [] then (if IsSign(c) then [] else [c]) else Unsigned(t) + [c]
  {}

  lemma IntegerSnoc(t: Text, c: Char)
    ensures IsInteger(t + [c]) <==> IsDigit(c) && Digits(Unsigned(t))
  {
    hide IsDigit, IsSign, IsDot, IsE;
    CharClasses(c);
    UnsignedSnoc(t, c);
    DigitsSnoc(Unsigned(t), c);
    assert [] + [c] == [c];
    DigitsSnoc([], c);
  }

  lemma DotSnoc(u: Text, c: Char, i: nat)
    requires i <= |u|
    ensures DotAt(u + [c], i) <==> if i == |u| then IsDot(c) && Digits(u) else DotAt(u, i) && IsDigit(c)
  {
    hide IsDigit, IsSign, IsDot, IsE;
    var v := u + [c];
    if i == |u| {
      assert v[..i] == u && v[i + 1..] == [];
    } else {
      assert v[..i] == u[..i] && v[i + 1..] == u[i + 1..] + [c];
      DigitsSnoc(u[i + 1..], c);
    }
  }

  lemma FloatSnoc(t: Text, c: Char)
    ensures IsFloat(t + [c]) <==> (IsDigit(c) && IsFloat(t)) || (IsDot(c) && Digits(Unsigned(t)))
  {
    hide IsDigit, IsSign, IsDot, IsE, Digits;
    CharClasses(c);
    UnsignedSnoc(t, c);
    var u := Unsigned(t);
    assert t == [] ==> u == [];
    if IsSign(c) && t == [] {
      assert !IsFloat(t + [c]);
    } else {
      assert Unsigned(t + [c]) == u + [c];
      if IsFloat(t + [c]) {
        var i: nat :| DotAt(u + [c], i);
        assert i <= |u|;
        DotSnoc(u, c, i);
      }
      if IsDigit(c) && IsFloat(t) {
        var i: nat :| DotAt(u, i);
        assert i <= |u|;
        DotSnoc(u, c, i);
        assert i != |u|;
      }
      if IsDot(c) && Digits(u) {
        DotSnoc(u, c, |u|);
      }
    }
  }

  /** A float and the letter of its exponent. */
  ghost predicate UpToE(t: Text) {
    t != [] && IsFloat(t[..|t| - 1]) && IsE(t[|t| - 1])
  }

  /** A float, the letter and the sign of its exponent. */
  ghost predicate UpToSign(t: Text) {
    t != [] && UpToE(t[..|t| - 1]) && IsSign(t[|t| - 1])
  }

  lemma ExponentSnoc(t: Text, c: Char, i: nat)
    requires i + 2 <= |t|
    ensures ExponentAt(t + [c], i) <==>
              IsDigit(c) && IsFloat(t[..i]) && IsE(t[i]) && IsSign(t[i + 1]) && Digits(t[i + 2..])
  {
    hide IsDigit, IsSign, IsDot, IsE, IsFloat, Digits;
    assert (t + [c])[..i] == t[..i] && (t + [c])[i + 2..] == t[i + 2..] + [c];
    DigitsSnoc(t[i + 2..], c);
  }

  lemma ScientificSnoc(t: Text, c: Char)
    ensures IsScientific(t + [c]) <==> IsDigit(c) && (IsScientific(t) || UpToSign(t))
  {
    hide IsDigit, IsSign, IsDot, IsE, IsFloat;
    if IsScientific(t + [c]) {
      var i: nat :| ExponentAt(t + [c], i);
      ExponentSnoc(t, c, i);
      if i + 2 == |t| {
        assert t[..|t| - 1][..i] == t[..i];
      } else {
        assert ExponentAt(t, i);
      }
    }
    if IsDigit(c) && IsScientific(t) {
      var i: nat :| ExponentAt(t, i);
      ExponentSnoc(t, c, i);
    }
    if IsDigit(c) && UpToSign(t) {
      var i := |t| - 2;
      assert t[..|t| - 1][..i] == t[..i] && Digits(t[i + 2..]);
      ExponentSnoc(t, c, i);
    }
  }

  /** What a text looks like in each state. */
  ghost predicate Meets(t: Text, s: State) {
    match s
    case START => t == []
    case S1 => |t| == 1 && IsSign(t[0])
    case INT => IsInteger(t)
    case FLOAT => IsFloat(t)
    case S2 => UpToE(t)
    case EXPONENT => UpToSign(t)
    case SCIENTIFIC => IsScientific(t)
    case INVALID =>
      && t != [] && !(|t| == 1 && IsSign(t[0])) && !IsInteger(t) && !IsFloat(t)
      && !UpToE(t) && !UpToSign(t) && !IsScientific(t)
  }

  /** Before the dot a text may be empty, a sign, or an integer. */
  lemma DigitsSoFar(t: Text)
    ensures Digits(Unsigned(t)) <==> Meets(t, START) || Meets(t, S1) || Meets(t, INT)
  {
    hide IsDigit, IsSign;
  }

  /** Where each state can be entered from. */
  lemma DeltaCases(f: State, c: Char)
    ensures Delta(f, c) != START
    ensures Delta(f, c) == S1 <==> f == START && IsSign(c)
    ensures Delta(f, c) == INT <==> IsDigit(c) && (f == START || f == S1 || f == INT)
    ensures Delta(f, c) == FLOAT <==> (IsDigit(c) && f == FLOAT) || (IsDot(c) && (f == START || f == S1 || f == INT))
    ensures Delta(f, c) == S2 <==> f == FLOAT && IsE(c)
    ensures Delta(f, c) == EXPONENT <==> f == S2 && IsSign(c)
    ensures Delta(f, c) == SCIENTIFIC <==> IsDigit(c) && (f == EXPONENT || f == SCIENTIFIC)
  {
    CharClasses(c);
    hide IsDigit, IsSign, IsDot, IsE;
  }

  lemma {:induction false} FoldForms(t: Text)
    ensures Fold(t) == START <==> Meets(t, START)
    ensures Fold(t) == S1 <==> Meets(t, S1)
    ensures Fold(t) == INT <==> Meets(t, INT)
    ensures Fold(t) == FLOAT <==> Meets(t, FLOAT)
    ensures Fold(t) == S2 <==> Meets(t, S2)
    ensures Fold(t) == EXPONENT <==> Meets(t, EXPONENT)
    ensures Fold(t) == SCIENTIFIC <==> Meets(t, SCIENTIFIC)
    decreases |t|
  {
    hide Delta, IsDigit, IsDot, IsE, IsSign, Meets;
    if t == [] {
      EmptyMeets();
      assert Fold(t) == START;
    } else {
      var u, c := t[..|t| - 1], t[|t| - 1];
      assert t == u + [c];
      FoldForms(u);
      assert Fold(t) == Delta(Fold(u), c);
      DeltaCases(Fold(u), c);
      FormsSnoc(u, c);
    }
  }

  lemma EmptyMeets()
    ensures forall s: State :: Meets([], s) <==> s == START
  {
    assert Unsigned([]) == [];
  }

  /** The forms of a text one character longer. */
  lemma FormsSnoc(u: Text, c: Char)
    ensures var t := u + [c];
            && !Meets(t, START)
            && (Meets(t, S1) <==> Meets(u, START) && IsSign(c))
            && (Meets(t, INT) <==> IsDigit(c) && (Meets(u, START) || Meets(u, S1) || Meets(u, INT)))
            && (Meets(t, FLOAT) <==> (IsDigit(c) && Meets(u, FLOAT))
                                     || (IsDot(c) && (Meets(u, START) || Meets(u, S1) || Meets(u, INT))))
            && (Meets(t, S2) <==> Meets(u, FLOAT) && IsE(c))
            && (Meets(t, EXPONENT) <==> Meets(u, S2) && IsSign(c))
            && (Meets(t, SCIENTIFIC) <==> IsDigit(c) && (Meets(u, EXPONENT) || Meets(u, SCIENTIFIC)))
  {
    hide IsDigit, IsSign, IsDot, IsE, IsInteger, IsFloat, IsScientific, Digits, Unsigned;
    var t := u + [c];
    assert t[..|t| - 1] == u && t[|t| - 1] == c;
    DigitsSoFar(u);
    IntegerSnoc(u, c);
    FloatSnoc(u, c);
    ScientificSnoc(u, c);
  }

  /** The state machine recognizes the grammar: it is in each state after exactly the texts of its form. */
  lemma FoldMeets(t: Text, s: State)
    ensures Fold(t) == s <==> Meets(t, s)
  {
    hide Fold, IsInteger, IsFloat, IsScientific, UpToE, UpToSign;
    FoldForms(t);
  }

  /** A complete number. */
  ghost predicate IsNumber(t: Text) {
    IsInteger(t) || IsFloat(t) || IsScientific(t)
  }

  lemma {:induction false} InvalidStays(t: Text, u: Text)
    requires Fold(t) == INVALID
    ensures Fold(t + u) == INVALID
    decreases |u|
  {
    if u == [] {
      assert t + u == t;
    } else {
      InvalidStays(t, u[..|u| - 1]);
      assert (t + u)[..|t + u| - 1] == t + u[..|u| - 1];
    }
  }

  /** What is missing to a number. */
  function Completion(s: State): Text {
    match s
    case START => [ZERO]
    case S1 => [ZERO]
    case S2 => [PLUS, ZERO]
    case EXPONENT => [ZERO]
    case _ => []
  }

  /** The machine rejects a text as soon as, and only when, no continuation makes it a number. */
  lemma RejectsExactly(t: Text)
    ensures Fold(t) == INVALID <==> forall u: Text :: !IsNumber(t + u)
  {
    hide Fold, IsInteger, IsFloat, IsScientific;
    if Fold(t) == INVALID {
      forall u: Text ensures !IsNumber(t + u) {
        InvalidStays(t, u);
        FoldForms(t + u);
      }
    } else {
      var u := Completion(Fold(t));
      CompletionFolds(t);
      FoldForms(t + u);
      assert IsNumber(t + u);
    }
  }

  lemma CompletionFolds(t: Text)
    requires Fold(t) != INVALID
    ensures var s := Fold(t + Completion(Fold(t))); s == INT || s == FLOAT || s == SCIENTIFIC
  {
    assert IsDigit(ZERO) && IsSign(PLUS);
    hide Fold, IsDigit, IsSign, IsDot, IsE, ZERO, PLUS;
    var f := Fold(t);
    var u := Completion(f);
    FoldSnoc(t, ZERO);
    CharClasses(ZERO);
    if f == S2 {
      FoldSnoc(t, PLUS);
      FoldSnoc(t + [PLUS], ZERO);
      assert t + u == t + [PLUS] + [ZERO];
    } else if u == [] {
      assert t + u == t;
    }
  }

  lemma FoldSnoc(t: Text, c: Char)
    ensures Fold(t + [c]) == Delta(Fold(t), c)
  {
    assert (t + [c])[..|t|] == t;
  }
}
