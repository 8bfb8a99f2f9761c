/** Picking a number out of noisy text, after NumberParser.java.

    A finite automaton reads the characters one by one. It skips everything
    before the first digit, then reads digits with group separators (a space,
    or a '.' or ',' seen a second time) and at most one fraction separator
    ('.' or ','), and stops at the first digit that follows the number. The
    digits build a mantissa `value`, and a fraction separator starts a
    power-of-ten denominator. Both are exact naturals here; the result is
    the pair, and `Parsed.Value` is the quotient the program computes in
    floating point. Digits are the ASCII digits. */
module NumberParser {
  import opened Wrappers

  const BASE: nat := 10

  /** The states that can be entered. `fractionSeparator` and
      `fractionDigit` are never entered, so they have no counterpart. */
  datatype State =
    | Start
    | NumberDigit
    | NumberGroupOrFractionSeparator
    | NumberDigitAfterFirstSeparator
    | NumberGroupSeparator
    | AfterNumber
    | Error

  /** The fields of `FiniteAutomate`. */
  datatype Automaton = Automaton(
    state: State,
    charCounter: nat,
    isError: bool,
    lastFractionSeparatorChar: char,
    startNumberPosition: int,
    finishNumberPosition: int,
    value: nat,
    fractionDenominator: nat)

  const INIT: Automaton := Automaton(Start, 0, false, 0 as char, -1, -1, 0, 0)

  predicate IsDigit(ch: char)
  {
    '0' <= ch <= '9'
  }

  predicate IsFractionSeparator(ch: char)
  {
    ch == '.' || ch == ','
  }

  predicate IsGroupSeparator(ch: char)
  {
    ch == ' '
  }

  function Digit(ch: char): (d: nat)
    requires IsDigit(ch)
    ensures d < BASE
  {
    ch as int - '0' as int
  }

  /** `pushDigit(ch)`. */
  function AfterDigit(a: Automaton, ch: char): (r: Automaton)
    requires IsDigit(ch)
  {
    a.(value := a.value * BASE + Digit(ch), fractionDenominator := a.fractionDenominator * BASE)
  }

  /** The state functions of `finiteAutomateTransitions`: the fields they
      set and the state they return. */
  function Transition(a: Automaton, ch: char): Automaton
  {
    match a.state
    case Start =>
      if IsDigit(ch) then AfterDigit(a, ch).(startNumberPosition := a.charCounter, state := NumberDigit)
      else a
    case NumberDigit =>
      if IsDigit(ch) then AfterDigit(a, ch)
      else if IsFractionSeparator(ch) then
        a.(lastFractionSeparatorChar := ch, fractionDenominator := 1, state := NumberGroupOrFractionSeparator)
      else if IsGroupSeparator(ch) then a.(lastFractionSeparatorChar := ch, state := NumberGroupSeparator)
      else a.(isError := true, state := Error)
    case NumberGroupOrFractionSeparator =>
      if IsDigit(ch) then AfterDigit(a, ch).(state := NumberDigitAfterFirstSeparator)
      else a.(finishNumberPosition := a.charCounter, state := AfterNumber)
    case NumberDigitAfterFirstSeparator =>
      if IsDigit(ch) then AfterDigit(a, ch)
      else if a.lastFractionSeparatorChar == ch then a.(fractionDenominator := 0, state := NumberGroupSeparator)
      else a.(finishNumberPosition := a.charCounter, state := AfterNumber)
    case NumberGroupSeparator =>
      if IsDigit(ch) then AfterDigit(a, ch).(state := NumberDigitAfterFirstSeparator)
      else a.(finishNumberPosition := a.charCounter, state := AfterNumber)
    case AfterNumber =>
      if IsDigit(ch) then a.(isError := true, state := Error) else a
    case Error => a
  }

  /** `onChar(ch)`: one transition, then the character is counted. */
  function AfterChar(a: Automaton, ch: char): Automaton
  {
    Transition(a, ch).(charCounter := a.charCounter + 1)
  }

  /** The loop of `parseDouble`, started from `a`: characters are fed until
      the error flag is raised. */
  function RunFrom(a: Automaton, s: string): Automaton
  {
    if s == [] then a
    else
      var r := RunFrom(a, s[..|s| - 1]);
      if r.isError then r else AfterChar(r, s[|s| - 1])
  }

  function Run(s: string): Automaton
  {
    RunFrom(INIT, s)
  }

  /** The number found: `value / fractionDenominator` when the denominator
      is positive, else `value`. */
  datatype Parsed = Parsed(mantissa: nat, denominator: nat)
  {
    function Value(): real
    {
      if denominator > 0 then mantissa as real / denominator as real else mantissa as real
    }
  }

  /** `parseDouble(s)`: `None` stands for `OptionalDouble.empty()`. */
  function Parse(s: string): Option<Parsed>
  {
    var a := Run(s);
    if a.isError && a.startNumberPosition == -1 then None
    else Some(Parsed(a.value, a.fractionDenominator))
  }

  // ---------------------------------------------------------------------
  // The automaton in place

  class FiniteAutomate {
    var state: State
    var charCounter: nat
    var isError: bool
    var lastFractionSeparatorChar: char
    var startNumberPosition: int
    var finishNumberPosition: int
    var value: nat
    var fractionDenominator: nat

    function Model(): Automaton
      reads this
    {
      Automaton(state, charCounter, isError, lastFractionSeparatorChar, startNumberPosition,
                finishNumberPosition, value, fractionDenominator)
    }

    constructor ()
      ensures Model() == INIT
    {
      state := Start;
      charCounter := 0;
      isError := false;
      lastFractionSeparatorChar := 0 as char;
      startNumberPosition := -1;
      finishNumberPosition := -1;
      value := 0;
      fractionDenominator := 0;
    }

    /** `pushDigit(ch)`. */
    method PushDigit(ch: char)
      requires IsDigit(ch)
      modifies this
      ensures Model() == AfterDigit(old(Model()), ch)
    {
      value := value * BASE + (ch as int - '0' as int);
      fractionDenominator := fractionDenominator * BASE;
    }

    /** `onChar(ch)`: the current state function updates the fields and
        names the next state. */
    method OnChar(ch: char)
      modifies this
      ensures Model() == AfterChar(old(Model()), ch)
    {
      match state {
      case Start =>
        if IsDigit(ch) {
          PushDigit(ch);
          startNumberPosition := charCounter;
          state := NumberDigit;
        }
      case NumberDigit =>
        if IsDigit(ch) {
          PushDigit(ch);
        } else if IsFractionSeparator(ch) {
          lastFractionSeparatorChar := ch;
          fractionDenominator := 1;
          state := NumberGroupOrFractionSeparator;
        } else if IsGroupSeparator(ch) {
          lastFractionSeparatorChar := ch;
          state := NumberGroupSeparator;
        } else {
          isError := true;
          state := Error;
        }
      case NumberGroupOrFractionSeparator =>
        if IsDigit(ch) {
          PushDigit(ch);
          state := NumberDigitAfterFirstSeparator;
        } else {
          finishNumberPosition := charCounter;
          state := AfterNumber;
        }
      case NumberDigitAfterFirstSeparator =>
        if IsDigit(ch) {
          PushDigit(ch);
        } else if lastFractionSeparatorChar == ch {
          fractionDenominator := 0;
          state := NumberGroupSeparator;
        } else {
          finishNumberPosition := charCounter;
          state := AfterNumber;
        }
      case NumberGroupSeparator =>
        if IsDigit(ch) {
          PushDigit(ch);
          state := NumberDigitAfterFirstSeparator;
        } else {
          finishNumberPosition := charCounter;
          state := AfterNumber;
        }
      case AfterNumber =>
        if IsDigit(ch) {
          isError := true;
          state := Error;
        }
      case Error =>
      }
      charCounter := charCounter + 1;
    }
  }

  /** Once the error flag is up, further characters are not fed. */
  lemma {:induction false} ErrorStops(a: Automaton, s: string, t: string)
    requires RunFrom(a, s).isError
    ensures RunFrom(a, s + t) == RunFrom(a, s)
    decreases |t|
  {
    if t == [] {
      assert s + t == s;
    } else {
      assert (s + t)[..|s + t| - 1] == s + t[..|t| - 1];
      ErrorStops(a, s, t[..|t| - 1]);
    }
  }

  /** `parseDouble(s)`. */
  method ParseDouble(s: string) returns (r: Option<Parsed>)
    ensures r == Parse(s)
  {
    var length := |s|;
    var fa := new FiniteAutomate();
    var i := 0;
    while i < length && !fa.isError
      invariant 0 <= i <= length
      invariant fa.Model() == Run(s[..i])
    {
      assert s[..i + 1][..i] == s[..i];
      fa.OnChar(s[i]);
      i := i + 1;
    }
    if i < length {
      ErrorStops(INIT, s[..i], s[i..]);
      assert s[..i] + s[i..] == s;
    } else {
      assert s[..i] == s;
    }
    if fa.isError && fa.startNumberPosition == -1 {
      return None;
    }
    if fa.finishNumberPosition == -1 {
      fa.finishNumberPosition := length - 1;
    }
    return Some(Parsed(fa.value, fa.fractionDenominator));
  }

  // ---------------------------------------------------------------------
  // What the automaton keeps

  /** The relations between the fields that every reachable state keeps:
      the error flag is the error state; before the first digit nothing is
      accumulated; a number has started in every other state. */
  ghost predicate Inv(a: Automaton)
  {
    (a.isError <==> a.state == Error) &&
    (a.state == Start ==> a.value == 0 && a.fractionDenominator == 0 && a.startNumberPosition == -1) &&
    (a.state != Start ==> a.startNumberPosition >= 0) &&
    (a.state == NumberDigit ==> a.fractionDenominator == 0)
  }

  lemma AfterCharKeepsInv(a: Automaton, ch: char)
    requires Inv(a)
    ensures Inv(AfterChar(a, ch))
  {
  }

  lemma {:induction false} RunKeepsInv(a: Automaton, s: string)
    requires Inv(a)
    ensures Inv(RunFrom(a, s))
  {
    if s != [] {
      RunKeepsInv(a, s[..|s| - 1]);
      AfterCharKeepsInv(RunFrom(a, s[..|s| - 1]), s[|s| - 1]);
    }
  }

  /** The `OptionalDouble.empty()` branch is never taken: the error flag is
      raised only after a digit has started a number. */
  lemma NeverEmpty(s: string)
    ensures Parse(s).Some?
  {
    RunKeepsInv(INIT, s);
  }

  /** The error state keeps every field but the counter, and `afterNumber`
      ignores non-digits and fails on a digit without touching the
      number. */
  lemma ErrorAndAfterNumber(a: Automaton, ch: char)
    ensures a.state == Error ==> AfterChar(a, ch) == a.(charCounter := a.charCounter + 1)
    ensures a.state == AfterNumber && !IsDigit(ch) ==> AfterChar(a, ch) == a.(charCounter := a.charCounter + 1)
    ensures a.state == AfterNumber && IsDigit(ch) ==>
      AfterChar(a, ch) == a.(charCounter := a.charCounter + 1, isError := true, state := Error)
  {
  }

  predicate NoDigits(s: string)
  {
    forall i :: 0 <= i < |s| ==> !IsDigit(s[i])
  }

  predicate AllDigits(s: string)
  {
    forall i :: 0 <= i < |s| ==> IsDigit(s[i])
  }

  /** The number the digits `ds` spell in base ten. */
  function Val(ds: string): nat
    requires AllDigits(ds)
  {
    if ds == [] then 0 else Val(ds[..|ds| - 1]) * BASE + Digit(ds[|ds| - 1])
  }

  function Pow10(n: nat): (r: nat)
    ensures r > 0
  {
    if n == 0 then 1 else BASE * Pow10(n - 1)
  }

  /** Characters before the first digit are skipped: only the counter
      moves. */
  lemma {:induction false} NoiseSkipped(s: string)
    requires NoDigits(s)
    ensures Run(s) == INIT.(charCounter := |s|)
  {
    if s != [] {
      NoiseSkipped(s[..|s| - 1]);
    }
  }

  /** A string without digits yields zero. */
  lemma DigitFreeIsZero(s: string)
    requires NoDigits(s)
    ensures Parse(s) == Some(Parsed(0, 0)) && Parse(s).value.Value() == 0.0
  {
    NoiseSkipped(s);
  }

  lemma {:induction false} RunFromConcat(a: Automaton, s: string, t: string)
    ensures RunFrom(a, s + t) == RunFrom(RunFrom(a, s), t)
    decreases |t|
  {
    if t == [] {
      assert s + t == s;
    } else {
      assert (s + t)[..|s + t| - 1] == s + t[..|t| - 1];
      RunFromConcat(a, s, t[..|t| - 1]);
    }
  }

  /** In a state that reads digits in place, each digit multiplies the
      mantissa and the denominator by ten and adds the digit to the
      mantissa. */
  lemma {:induction false} DigitsRead(a: Automaton, ds: string)
    requires a.state == NumberDigit || a.state == NumberDigitAfterFirstSeparator
    requires !a.isError && AllDigits(ds)
    ensures RunFrom(a, ds) == a.(value := a.value * Pow10(|ds|) + Val(ds),
                                 fractionDenominator := a.fractionDenominator * Pow10(|ds|),
                                 charCounter := a.charCounter + |ds|)
  {
    if ds != [] {
      var p := ds[..|ds| - 1];
      assert AllDigits(p);
      DigitsRead(a, p);
      var r := RunFrom(a, p);
      Append(a.value, Val(p), Digit(ds[|ds| - 1]), a.fractionDenominator, Pow10(|p|), Pow10(|ds|),
             r.value, r.fractionDenominator);
    }
  }

  lemma Append(v: nat, w: nat, d: nat, f: nat, n: nat, n1: nat, value: nat, denominator: nat)
    requires n1 == BASE * n && value == v * n + w && denominator == f * n
    ensures value * BASE + d == v * n1 + (w * BASE + d)
    ensures denominator * BASE == f * n1
  {
  }

  lemma {:induction false} ValConcat(a: string, b: string)
    requires AllDigits(a) && AllDigits(b)
    ensures AllDigits(a + b) && Val(a + b) == Val(a) * Pow10(|b|) + Val(b)
    decreases |b|
  {
    if b == [] {
      assert a + b == a;
    } else {
      var p := b[..|b| - 1];
      assert (a + b)[..|a + b| - 1] == a + p;
      ValConcat(a, p);
      Append(Val(a), Val(p), Digit(b[|b| - 1]), 0, Pow10(|p|), Pow10(|b|), Val(a + p), 0);
    }
  }

  /** One character fed to a running automaton. */
  lemma OneChar(a: Automaton, c: char)
    ensures RunFrom(a, [c]) == if a.isError then a else AfterChar(a, c)
  {
    assert [c][..0] == [];
  }

  /** The first digit starts the number at the position of the digit. */
  lemma FirstDigit(noise: string, d: char)
    requires NoDigits(noise) && IsDigit(d)
    ensures Run(noise + [d]) ==
      INIT.(state := NumberDigit, charCounter := |noise| + 1, startNumberPosition := |noise|, value := Digit(d))
  {
    NoiseSkipped(noise);
    RunFromConcat(INIT, noise, [d]);
    OneChar(Run(noise), d);
  }

  lemma Shift(v: nat, d: nat, f: nat, n: nat, n1: nat, value: nat, denominator: nat)
    requires n1 == BASE * n && value == v * BASE + d && denominator == f * BASE
    ensures v * n1 + d * n == value * n
    ensures f * n1 == denominator * n
  {
  }

  /** The value of a digit run is its first digit, scaled, plus the value
      of the rest. */
  lemma ValHead(ds: string)
    requires ds != [] && AllDigits(ds)
    ensures AllDigits(ds[1..]) && Val(ds) == Digit(ds[0]) * Pow10(|ds| - 1) + Val(ds[1..])
  {
    var d, rest := ds[0], ds[1..];
    assert AllDigits(rest);
    ValConcat([d], rest);
    assert [d] + rest == ds;
    assert Val([d]) == Digit(d) by {
      assert [d][..0] == [];
    }
  }

  /** One digit read, then a run of digits in place: the digit and the run
      together are read as one run. */
  lemma DigitThenDigits(r2: Automaton, ds: string, v: nat, f: nat)
    requires ds != [] && AllDigits(ds)
    requires r2.state == NumberDigit || r2.state == NumberDigitAfterFirstSeparator
    requires !r2.isError && r2.value == v * BASE + Digit(ds[0]) && r2.fractionDenominator == f * BASE
    ensures RunFrom(r2, ds[1..]) ==
      r2.(value := v * Pow10(|ds|) + Val(ds), fractionDenominator := f * Pow10(|ds|),
          charCounter := r2.charCounter + |ds| - 1)
  {
    var rest := ds[1..];
    ValHead(ds);
    var n, n1 := Pow10(|rest|), Pow10(|ds|);
    Shift(v, Digit(ds[0]), f, n, n1, r2.value, r2.fractionDenominator);
    DigitsRead(r2, rest);
  }

  /** The integer part: a run of digits after the noise is read into the
      mantissa, and the denominator stays 0. */
  lemma IntegerPart(noise: string, ds: string)
    requires NoDigits(noise) && AllDigits(ds) && ds != []
    ensures Run(noise + ds) ==
      INIT.(state := NumberDigit, charCounter := |noise| + |ds|, startNumberPosition := |noise|, value := Val(ds))
  {
    var d, rest := ds[0], ds[1..];
    var x := noise + [d];
    var s := x + rest;
    assert s == noise + ds;
    FirstDigit(noise, d);
    var r := Run(x);
    RunFromConcat(INIT, x, rest);
    assert Run(s) == RunFrom(r, rest);
    DigitThenDigits(r, ds, 0, 0);
  }

  /** A digit run that ends the text, or is followed by something other
      than a digit, separator or space, is an integer: the error raised by
      the character after it leaves the mantissa as it is. */
  lemma Integer(noise: string, ds: string, tail: string)
    requires NoDigits(noise) && AllDigits(ds) && ds != []
    requires tail != [] ==> !IsDigit(tail[0]) && !IsFractionSeparator(tail[0]) && !IsGroupSeparator(tail[0])
    ensures Parse(noise + ds + tail) == Some(Parsed(Val(ds), 0))
  {
    var x := noise + ds;
    IntegerPart(noise, ds);
    if tail != [] {
      var y := x + [tail[0]];
      var s := y + tail[1..];
      assert s == noise + ds + tail;
      RunFromConcat(INIT, x, [tail[0]]);
      OneChar(Run(x), tail[0]);
      ErrorStops(INIT, y, tail[1..]);
      assert Run(s) == Run(y);
    } else {
      assert x + tail == x;
    }
  }

  /** After the number, characters without digits change nothing but the
      counter. */
  lemma {:induction false} QuietTail(a: Automaton, tail: string)
    requires a.state == AfterNumber && !a.isError && NoDigits(tail)
    ensures RunFrom(a, tail) == a.(charCounter := a.charCounter + |tail|)
  {
    if tail != [] {
      QuietTail(a, tail[..|tail| - 1]);
    }
  }

  /** After digits, a separator and more digits: a fraction separator
      starts the denominator at one, so it ends as ten to the number of
      digits after it; a space leaves it at zero. Either way the digits on
      both sides form one mantissa. */
  lemma SeparatorThenDigits(r: Automaton, c: char, b: string)
    requires r.state == NumberDigit && !r.isError && r.fractionDenominator == 0
    requires IsFractionSeparator(c) || IsGroupSeparator(c)
    requires AllDigits(b) && b != []
    ensures RunFrom(r, [c] + b) ==
      r.(state := NumberDigitAfterFirstSeparator, lastFractionSeparatorChar := c,
         value := r.value * Pow10(|b|) + Val(b),
         fractionDenominator := if IsFractionSeparator(c) then Pow10(|b|) else 0,
         charCounter := r.charCounter + 1 + |b|)
  {
    var r1 := AfterChar(r, c);
    OneChar(r, c);
    var r2 := AfterChar(r1, b[0]);
    OneChar(r1, b[0]);
    var rest := b[1..];
    assert AllDigits(rest);
    var x := [c] + [b[0]];
    var y := x + rest;
    assert y == [c] + b;
    assert [b[0]] + rest == b;
    RunFromConcat(r, [c], [b[0]]);
    RunFromConcat(r, x, rest);
    DigitThenDigits(r2, b, r.value, r1.fractionDenominator);
  }

  /** A separator met again after digits that followed it groups: the
      denominator drops to zero and the next digits extend the mantissa. */
  lemma RepeatedSeparatorThenDigits(r: Automaton, e: string)
    requires r.state == NumberDigitAfterFirstSeparator && !r.isError
    requires AllDigits(e) && e != []
    requires !IsDigit(r.lastFractionSeparatorChar)
    ensures RunFrom(r, [r.lastFractionSeparatorChar] + e) ==
      r.(value := r.value * Pow10(|e|) + Val(e), fractionDenominator := 0,
         charCounter := r.charCounter + 1 + |e|)
  {
    var c := r.lastFractionSeparatorChar;
    var r1 := AfterChar(r, c);
    OneChar(r, c);
    var r2 := AfterChar(r1, e[0]);
    OneChar(r1, e[0]);
    var rest := e[1..];
    assert AllDigits(rest);
    var x := [c] + [e[0]];
    var y := x + rest;
    assert y == [c] + e;
    assert [e[0]] + rest == e;
    RunFromConcat(r, [c], [e[0]]);
    RunFromConcat(r, x, rest);
    DigitThenDigits(r2, e, r.value, 0);
  }

  /** A tail without digits that does not start with the separator ends the
      number and changes nothing else. */
  lemma TailEnds(r: Automaton, tail: string)
    requires r.state == NumberDigitAfterFirstSeparator && !r.isError
    requires NoDigits(tail) && (tail != [] ==> tail[0] != r.lastFractionSeparatorChar)
    ensures RunFrom(r, tail).value == r.value && RunFrom(r, tail).fractionDenominator == r.fractionDenominator
    ensures !RunFrom(r, tail).isError
  {
    if tail != [] {
      var t := tail[1..];
      var r1 := AfterChar(r, tail[0]);
      OneChar(r, tail[0]);
      assert tail == [tail[0]] + t;
      RunFromConcat(r, [tail[0]], t);
      assert NoDigits(t);
      QuietTail(r1, t);
    }
  }

  lemma FractionValue(x: nat, y: nat, n: nat, m: nat)
    requires n > 0 && m == x * n + y
    ensures Parsed(m, n).Value() == x as real + y as real / n as real
  {
    assert m as real == x as real * n as real + y as real;
  }

  /** Digits, a separator and digits: the digits on both sides form one
      mantissa, and the denominator is ten to the number of digits after a
      '.' or ',' and zero after a space. */
  lemma SeparatedRun(noise: string, a: string, c: char, b: string)
    requires NoDigits(noise) && AllDigits(a) && a != [] && AllDigits(b) && b != []
    requires IsFractionSeparator(c) || IsGroupSeparator(c)
    ensures AllDigits(a + b)
    ensures Run(noise + a + [c] + b) ==
      INIT.(state := NumberDigitAfterFirstSeparator, charCounter := |noise| + |a| + 1 + |b|,
            startNumberPosition := |noise|, lastFractionSeparatorChar := c, value := Val(a + b),
            fractionDenominator := if IsFractionSeparator(c) then Pow10(|b|) else 0)
  {
    var x := noise + a;
    var y := [c] + b;
    var z := x + y;
    assert z == noise + a + [c] + b;
    IntegerPart(noise, a);
    var r := Run(x);
    SeparatorThenDigits(r, c, b);
    RunFromConcat(INIT, x, y);
    assert Run(z) == RunFrom(r, y);
    ValConcat(a, b);
  }

  /** Digits, one '.' or ',', digits: a decimal fraction whose denominator
      is ten to the number of digits after the separator. A tail without
      digits that does not repeat the separator ends it. */
  lemma Fraction(noise: string, a: string, sep: char, b: string, tail: string)
    requires NoDigits(noise) && AllDigits(a) && a != [] && IsFractionSeparator(sep) && AllDigits(b) && b != []
    requires NoDigits(tail) && (tail != [] ==> tail[0] != sep)
    ensures AllDigits(a + b)
    ensures Parse(noise + a + [sep] + b + tail) == Some(Parsed(Val(a + b), Pow10(|b|)))
  {
    var z := noise + a + [sep] + b;
    var s := z + tail;
    SeparatedRun(noise, a, sep, b);
    var r3 := Run(z);
    TailEnds(r3, tail);
    RunFromConcat(INIT, z, tail);
    var r4 := Run(s);
    assert r4 == RunFrom(r3, tail);
  }

  /** The number so read is `Val(a) + Val(b) / 10^|b|`. */
  lemma FractionIsDecimal(noise: string, a: string, sep: char, b: string, tail: string)
    requires NoDigits(noise) && AllDigits(a) && a != [] && IsFractionSeparator(sep) && AllDigits(b) && b != []
    requires NoDigits(tail) && (tail != [] ==> tail[0] != sep)
    ensures Parse(noise + a + [sep] + b + tail).Some?
    ensures Parse(noise + a + [sep] + b + tail).value.Value() == Val(a) as real + Val(b) as real / Pow10(|b|) as real
  {
    Fraction(noise, a, sep, b, tail);
    ValConcat(a, b);
    var x, y, n, m := Val(a), Val(b), Pow10(|b|), Val(a + b);
    FractionValue(x, y, n, m);
  }

  /** A space after digits groups them: the digits on both sides form one
      integer. */
  lemma SpaceGroups(noise: string, a: string, b: string)
    requires NoDigits(noise) && AllDigits(a) && a != [] && AllDigits(b) && b != []
    ensures AllDigits(a + b)
    ensures Parse(noise + a + [' '] + b) == Some(Parsed(Val(a + b), 0))
  {
    SeparatedRun(noise, a, ' ', b);
  }

  /** The same separator twice groups three runs of digits into one
      integer, whether it is '.', ',' or a space. */
  lemma RepeatedSeparatorGroups(noise: string, a: string, c: char, b: string, e: string)
    requires NoDigits(noise) && AllDigits(a) && a != [] && AllDigits(b) && b != [] && AllDigits(e) && e != []
    requires IsFractionSeparator(c) || IsGroupSeparator(c)
    ensures AllDigits(a + b + e)
    ensures Parse(noise + a + [c] + b + [c] + e) == Some(Parsed(Val(a + b + e), 0))
  {
    var z := noise + a + [c] + b;
    var w := [c] + e;
    var s := z + w;
    assert s == noise + a + [c] + b + [c] + e;
    SeparatedRun(noise, a, c, b);
    var r3 := Run(z);
    RepeatedSeparatorThenDigits(r3, e);
    RunFromConcat(INIT, z, w);
    var r4 := Run(s);
    assert r4 == RunFrom(r3, w);
    ValConcat(a + b, e);
    assert r4.value == r3.value * Pow10(|e|) + Val(e) == Val(a + b + e);
  }

  /** "12 467" is read as 12467. */
  lemma SpaceExample()
    ensures Parse("12 467") == Some(Parsed(12467, 0))
  {
    var a, b := "12", "467";
    assert AllDigits(a) && AllDigits(b);
    SpaceGroups("", a, b);
    assert "" + a + [' '] + b == "12 467";
    assert a + b == "12467";
    DigitsValue5('1', '2', '4', '6', '7');
  }

  /** "12,467,552" is read as 12467552: the second ',' drops the fraction. */
  lemma GroupExample()
    ensures Parse("12,467,552") == Some(Parsed(12467552, 0))
  {
    var a, b, e := "12", "467", "552";
    assert AllDigits(a) && AllDigits(b) && AllDigits(e);
    RepeatedSeparatorGroups("", a, ',', b, e);
    assert "" + a + [','] + b + [','] + e == "12,467,552";
    ValConcat(a + b, e);
    assert a + b == "12467";
    DigitsValue5('1', '2', '4', '6', '7');
    DigitsValue3('5', '5', '2');
    assert Val(a + b) == 12467 && Val(e) == 552;
    assert Pow10(3) == 1000;
  }

  /** "price 3.25" is read as 325 over 100. */
  lemma FractionExample()
    ensures Parse("price 3.25") == Some(Parsed(325, 100))
    ensures Parse("price 3.25").value.Value() == 3.25
  {
    var noise, a, b := "price ", "3", "25";
    assert NoDigits(noise) && AllDigits(a) && AllDigits(b);
    Fraction(noise, a, '.', b, "");
    assert noise + a + ['.'] + b + "" == "price 3.25";
    assert a + b == "325";
    DigitsValue3('3', '2', '5');
    assert Pow10(2) == 100;
  }

  lemma DigitsValue3(c1: char, c2: char, c3: char)
    requires IsDigit(c1) && IsDigit(c2) && IsDigit(c3)
    ensures AllDigits([c1, c2, c3])
    ensures Val([c1, c2, c3]) == Digit(c1) * 100 + Digit(c2) * 10 + Digit(c3)
  {
    assert [c1, c2, c3][..2] == [c1, c2];
    assert [c1, c2][..1] == [c1];
    assert [c1][..0] == [];
    assert Val([c1]) == Digit(c1);
    assert Val([c1, c2]) == Digit(c1) * 10 + Digit(c2);
  }

  lemma DigitsValue5(c1: char, c2: char, c3: char, c4: char, c5: char)
    requires IsDigit(c1) && IsDigit(c2) && IsDigit(c3) && IsDigit(c4) && IsDigit(c5)
    ensures AllDigits([c1, c2, c3, c4, c5])
    ensures Val([c1, c2, c3, c4, c5]) ==
      Digit(c1) * 10000 + Digit(c2) * 1000 + Digit(c3) * 100 + Digit(c4) * 10 + Digit(c5)
  {
    assert [c1, c2, c3, c4, c5][..4] == [c1, c2, c3, c4];
    assert [c1, c2, c3, c4][..3] == [c1, c2, c3];
    DigitsValue3(c1, c2, c3);
  }
}
