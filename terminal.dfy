/** Text decoration for terminals with SGR ("select graphic rendition")
    control sequences, section 8.3.117 of ECMA-48: a string is wrapped in
    ESC '[' <code> 'm' ... ESC '[' <reset code> 'm'. */
module Terminal {
  import opened Wrappers

  const ESC: char := '\U{1B}'
  /** Control sequence introducer. */
  const CSI: char := '['
  /** Final byte of "select graphic rendition". */
  const SGR: char := 'm'

  const RESET: int := 0
  const BOLD: int := 1
  const HALF_BRIGHT: int := 2
  const UNDERLINE: int := 4
  const BLINK: int := 5
  const REVERSE_COLOR: int := 7
  const UNDERLINE_OFF: int := 24
  const BLINK_OFF: int := 25
  const REVERSE_COLOR_OFF: int := 27
  const FOREGROUND_COLOR: int := 30
  const RESET_COLOR: int := 39
  const BACKGROUND_COLOR: int := 40
  const RESET_BACKGROUND: int := 49

  /** The eight terminal colours, in declaration order. */
  datatype Color = White | Red | Green | Brown | Blue | Magenta | Cyan | Gray

  /** The enum constant's `ordinal()`. */
  function Ordinal(c: Color): nat
  {
    match c
    case White => 0
    case Red => 1
    case Green => 2
    case Brown => 3
    case Blue => 4
    case Magenta => 5
    case Cyan => 6
    case Gray => 7
  }

  predicate IsDigit(c: char) { '0' <= c <= '9' }

  predicate AllDigits(s: string) { forall i :: 0 <= i < |s| ==> IsDigit(s[i]) }

  function DigitChar(d: nat): char
    requires d < 10
  {
    ('0' as int + d) as char
  }

  /** Decimal digits of a natural number, without leading zeros. */
  function Digits(n: nat): string
    decreases n
  {
    if n < 10 then [DigitChar(n)] else Digits(n / 10) + [DigitChar(n % 10)]
  }

  /** How string concatenation renders an `int`: an optional minus sign, then
      its decimal digits. */
  function Decimal(n: int): string
  {
    if n < 0 then "-" + Digits(-n) else Digits(n)
  }

  /** The value of a string of decimal digits. */
  function DigitsValue(s: string): nat
    requires AllDigits(s)
  {
    if s == [] then 0 else DigitsValue(s[..|s| - 1]) * 10 + (s[|s| - 1] as int - '0' as int)
  }

  /** `Digits` yields a non-empty run of digits that reads back as the number. */
  lemma {:induction false} DigitsRoundTrip(n: nat)
    ensures |Digits(n)| >= 1 && AllDigits(Digits(n))
    ensures DigitsValue(Digits(n)) == n
  {
    if n >= 10 {
      DigitsRoundTrip(n / 10);
      var s := Digits(n);
      assert s[..|s| - 1] == Digits(n / 10);
    }
  }

  /** `attribute(s, attribute, reset)`: the string between an SGR sequence that
      sets `attribute` and one that sets `reset`. */
  function Attribute(s: string, attribute: int, reset: int): string
  {
    [ESC, CSI] + Decimal(attribute) + [SGR] + s + [ESC, CSI] + Decimal(reset) + [SGR]
  }

  /** `color(s, color)`: foreground colour 30 + ordinal, reset with 39. */
  function Colored(s: string, color: Color): string
  {
    Attribute(s, FOREGROUND_COLOR + Ordinal(color), RESET_COLOR)
  }

  /** `background(s, color)`: background colour 40 + ordinal, reset with
      `RESET_COLOR` (39), as the source does, not with `RESET_BACKGROUND` (49). */
  function Background(s: string, color: Color): string
  {
    Attribute(s, BACKGROUND_COLOR + Ordinal(color), RESET_COLOR)
  }

  function Inverse(s: string): string
  {
    Attribute(s, REVERSE_COLOR, REVERSE_COLOR_OFF)
  }

  function Red(s: string): string { Colored(s, Color.Red) }
  function Green(s: string): string { Colored(s, Color.Green) }
  function Brown(s: string): string { Colored(s, Color.Brown) }
  function Blue(s: string): string { Colored(s, Color.Blue) }
  function Magenta(s: string): string { Colored(s, Color.Magenta) }
  function Cyan(s: string): string { Colored(s, Color.Cyan) }

  /** A decoded SGR-wrapped string. */
  datatype Styled = Styled(attribute: nat, text: string, reset: nat)

  /** First index at or after `i` that does not hold a digit. */
  function DigitRunEnd(t: string, i: nat): (j: nat)
    requires i <= |t|
    ensures i <= j <= |t|
    ensures forall k :: i <= k < j ==> IsDigit(t[k])
    decreases |t| - i
  {
    if i < |t| && IsDigit(t[i]) then DigitRunEnd(t, i + 1) else i
  }

  /** Start of the run of digits that ends just before index `j`. */
  function DigitRunStart(t: string, j: nat): (i: nat)
    requires j <= |t|
    ensures i <= j
    ensures forall k :: i <= k < j ==> IsDigit(t[k])
    decreases j
  {
    if j > 0 && IsDigit(t[j - 1]) then DigitRunStart(t, j - 1) else j
  }

  /** Reads back what `Attribute` wrote: ESC '[' digits 'm', then the text,
      then ESC '[' digits 'm' at the very end. */
  function ParseAttribute(t: string): Option<Styled>
  {
    if |t| < 2 || t[0] != ESC || t[1] != CSI then None
    else
      var i := DigitRunEnd(t, 2);
      if i == 2 || i >= |t| || t[i] != SGR || t[|t| - 1] != SGR then None
      else
        var k := DigitRunStart(t, |t| - 1);
        if k == |t| - 1 || k < i + 3 || t[k - 1] != CSI || t[k - 2] != ESC then None
        else Some(Styled(DigitsValue(t[2..i]), t[i + 1..k - 2], DigitsValue(t[k..|t| - 1])))
  }

  lemma {:induction false} DigitRunEndOver(t: string, i: nat, n: nat)
    requires i + n <= |t|
    requires forall k :: i <= k < i + n ==> IsDigit(t[k])
    requires i + n == |t| || !IsDigit(t[i + n])
    ensures DigitRunEnd(t, i) == i + n
    decreases n
  {
    if n > 0 {
      DigitRunEndOver(t, i + 1, n - 1);
    }
  }

  lemma {:induction false} DigitRunStartOver(t: string, j: nat, n: nat)
    requires n <= j <= |t|
    requires forall k :: j - n <= k < j ==> IsDigit(t[k])
    requires j == n || !IsDigit(t[j - n - 1])
    ensures DigitRunStart(t, j) == j - n
    decreases n
  {
    if n > 0 {
      DigitRunStartOver(t, j - 1, n - 1);
    }
  }

  /** A string that starts with ESC '[' digits 'm' and ends with ESC '['
      digits 'm' parses into the two digit runs and the text between. */
  lemma ParseFramed(t: string, i: nat, k: nat)
    requires 2 < i && i + 3 <= k < |t| - 1
    requires t[0] == ESC && t[1] == CSI && t[i] == SGR
    requires t[k - 2] == ESC && t[k - 1] == CSI && t[|t| - 1] == SGR
    requires forall x :: 2 <= x < i ==> IsDigit(t[x])
    requires forall x :: k <= x < |t| - 1 ==> IsDigit(t[x])
    ensures AllDigits(t[2..i]) && AllDigits(t[k..|t| - 1])
    ensures ParseAttribute(t) == Some(Styled(DigitsValue(t[2..i]), t[i + 1..k - 2], DigitsValue(t[k..|t| - 1])))
  {
    DigitRunEndOver(t, 2, i - 2);
    DigitRunStartOver(t, |t| - 1, |t| - 1 - k);
  }

  /** Where the pieces of a decorated string lie. */
  lemma FramedParts(t: string, a: string, s: string, r: string)
    requires AllDigits(a) && AllDigits(r)
    requires t == [ESC, CSI] + a + [SGR] + s + [ESC, CSI] + r + [SGR]
    ensures var i, k := 2 + |a|, |t| - |r| - 1;
      |t| == k + |r| + 1 && i + 1 + |s| + 2 == k &&
      t[0] == ESC && t[1] == CSI && t[i] == SGR &&
      t[k - 2] == ESC && t[k - 1] == CSI && t[|t| - 1] == SGR &&
      (forall x :: 2 <= x < i ==> IsDigit(t[x])) &&
      (forall x :: k <= x < |t| - 1 ==> IsDigit(t[x])) &&
      t[2..i] == a && t[i + 1..k - 2] == s && t[k..|t| - 1] == r
  {
    var i, k := 2 + |a|, |t| - |r| - 1;
    forall x | 2 <= x < i
      ensures IsDigit(t[x])
    {
      assert t[x] == a[x - 2];
    }
    forall x | k <= x < |t| - 1
      ensures IsDigit(t[x])
    {
      assert t[x] == r[x - k];
    }
  }

  /** The text and both codes can be read back from the decorated string: the
      text appears unchanged between the two control sequences. */
  lemma AttributeRoundTrip(s: string, attribute: nat, reset: nat)
    ensures ParseAttribute(Attribute(s, attribute, reset)) == Some(Styled(attribute, s, reset))
  {
    var a, r := Digits(attribute), Digits(reset);
    DigitsRoundTrip(attribute);
    DigitsRoundTrip(reset);
    var t := Attribute(s, attribute, reset);
    assert Decimal(attribute) == a && Decimal(reset) == r;
    FramedParts(t, a, s, r);
    ParseFramed(t, 2 + |a|, |t| - |r| - 1);
  }

  /** `color` brackets the text with codes 30 + ordinal and 39. */
  lemma ColoredCodes(s: string, color: Color)
    ensures ParseAttribute(Colored(s, color)) == Some(Styled(30 + Ordinal(color), s, 39))
  {
    AttributeRoundTrip(s, 30 + Ordinal(color), 39);
  }

  /** `background` brackets the text with codes 40 + ordinal and 39: its reset
      is the foreground reset, not the background reset 49. */
  lemma BackgroundCodes(s: string, color: Color)
    ensures ParseAttribute(Background(s, color)) == Some(Styled(40 + Ordinal(color), s, 39))
    ensures ParseAttribute(Background(s, color)).value.reset != RESET_BACKGROUND
  {
    AttributeRoundTrip(s, 40 + Ordinal(color), 39);
  }

  /** `background` with the reset `RESET_BACKGROUND` (49), which restores the
      default background and leaves the foreground alone. */
  function BackgroundRestored(s: string, color: Color): string
  {
    Attribute(s, BACKGROUND_COLOR + Ordinal(color), RESET_BACKGROUND)
  }

  /** The restored background brackets the text with codes 40 + ordinal and 49. */
  lemma BackgroundRestoredCodes(s: string, color: Color)
    ensures ParseAttribute(BackgroundRestored(s, color)) == Some(Styled(40 + Ordinal(color), s, 49))
    ensures ParseAttribute(BackgroundRestored(s, color)).value.reset == RESET_BACKGROUND
  {
    AttributeRoundTrip(s, 40 + Ordinal(color), 49);
  }

  /** `inverse` brackets the text with codes 7 and 27. */
  lemma InverseCodes(s: string)
    ensures ParseAttribute(Inverse(s)) == Some(Styled(7, s, 27))
  {
    AttributeRoundTrip(s, 7, 27);
  }

  /** `red` ... `cyan` use the foreground codes 31 to 36. */
  lemma NamedColorCodes(s: string)
    ensures ParseAttribute(Red(s)) == Some(Styled(31, s, 39))
    ensures ParseAttribute(Green(s)) == Some(Styled(32, s, 39))
    ensures ParseAttribute(Brown(s)) == Some(Styled(33, s, 39))
    ensures ParseAttribute(Blue(s)) == Some(Styled(34, s, 39))
    ensures ParseAttribute(Magenta(s)) == Some(Styled(35, s, 39))
    ensures ParseAttribute(Cyan(s)) == Some(Styled(36, s, 39))
  {
    ColoredCodes(s, Color.Red);
    ColoredCodes(s, Color.Green);
    ColoredCodes(s, Color.Brown);
    ColoredCodes(s, Color.Blue);
    ColoredCodes(s, Color.Magenta);
    ColoredCodes(s, Color.Cyan);
  }
}
