/** Cyrillic-to-Latin transliteration after Transliteration.java, following
    the ICAO Doc 9303 Part 3 table for Russian.

    One 256-entry table is indexed by the low byte of a character. It holds
    the Russian letters (U+0430 to U+044F and U+0451, low bytes 0x30 to 0x4F
    and 0x51) and a set of accented Latin letters (U+00DF to U+00FF, and a few
    of U+0100 to U+0192). Only characters whose high byte is 0x04 are looked
    up, after lower-casing, so the Latin entries serve whatever Cyrillic
    letter shares their low byte. */
module Transliteration {
  import opened Wrappers

  const HI_BYTE_MASK: int := 0xFF00
  const LO_BYTE_MASK: int := 0x00FF
  const CYRILLIC_HI_BYTE: int := 0x0400

  /** The Russian small letters а to я (U+0430 to U+044F), in order. */
  const RUSSIAN: seq<string> := [
    "a", "b", "v", "g", "d", "e", "zh", "z", "i", "i", "k", "l", "m", "n", "o", "p",
    "r", "s", "t", "u", "f", "kh", "ts", "ch", "sh", "shch", "", "y", "", "e", "iu", "ia"
  ]

  /** The other entries of the table, by low byte: ß, à to ÿ but ÷, ā, ą, č,
      œ, ś, ş, š and ƒ. */
  const LATIN: map<int, string> := map[
    0xDF := "ss",
    0xE0 := "a", 0xE1 := "a", 0xE2 := "a", 0xE3 := "a", 0xE4 := "a", 0xE5 := "a",
    0xE6 := "ae", 0xE7 := "c",
    0xE8 := "e", 0xE9 := "e", 0xEA := "e", 0xEB := "e",
    0xEC := "i", 0xED := "i", 0xEE := "i", 0xEF := "i",
    0xF0 := "d", 0xF1 := "n",
    0xF2 := "o", 0xF3 := "o", 0xF4 := "o", 0xF5 := "o", 0xF6 := "o",
    0xF8 := "oe",
    0xF9 := "u", 0xFA := "u", 0xFB := "u", 0xFC := "u",
    0xFD := "y", 0xFE := "th", 0xFF := "y",
    0x01 := "a", 0x05 := "a", 0x0D := "c",
    0x53 := "oe", 0x5B := "s", 0x5F := "s", 0x61 := "s",
    0x92 := "f"
  ]

  /** The table `T`: the replacement filed under a low byte, if any. The
      Russian letters sit at 0x30 to 0x4F and ё at 0x51. */
  function T(b: int): (r: Option<string>)
    requires 0 <= b < 256
    ensures 0x30 <= b < 0x50 ==> r == Some(RUSSIAN[b - 0x30])
    ensures b == 0x51 ==> r == Some("e")
    ensures r.Some? ==> |r.value| <= 4 && forall k :: 0 <= k < |r.value| ==> 'a' <= r.value[k] <= 'z'
  {
    if 0x30 <= b < 0x50 then Some(RUSSIAN[b - 0x30])
    else if b == 0x51 then Some("e")
    else if b in LATIN then Some(LATIN[b])
    else None
  }

  /** `(ch & HI_BYTE_MASK) == CYRILLIC_HI_BYTE`: the character lies in the
      block U+0400 to U+04FF. */
  predicate IsCyrillic(ch: char)
  {
    0x400 <= ch as int < 0x500
  }

  /** `Character.toLowerCase` on the Cyrillic block: U+0400 to U+040F and
      U+0410 to U+042F have their lower case 0x50 and 0x20 above; in U+0460 to
      U+0481, U+048A to U+04BF and U+04D0 to U+04FF an even code point is the
      capital of the next one; U+04C0 lowers to U+04CF; in U+04C1 to U+04CE an
      odd code point is the capital of the next one. */
  function ToLower(ch: char): (r: char)
    requires IsCyrillic(ch)
    ensures IsCyrillic(r)
    ensures 0x400 <= ch as int < 0x430 ==> 0x430 <= r as int < 0x460
    ensures 0x430 <= ch as int < 0x460 ==> r == ch
  {
    var c := ch as int;
    if c < 0x410 then (c + 0x50) as char
    else if c < 0x430 then (c + 0x20) as char
    else if c < 0x460 then ch
    else if (c < 0x482 || (0x48A <= c < 0x4C0) || 0x4D0 <= c) && c % 2 == 0 then (c + 1) as char
    else if c == 0x4C0 then 0x4CF as char
    else if 0x4C1 <= c < 0x4CF && c % 2 == 1 then (c + 1) as char
    else ch
  }

  /** What one character of the input becomes: a character outside the
      Cyrillic block is copied, and a Cyrillic one is either copied or
      replaced by at most four Latin small letters, never by another
      Cyrillic character. */
  function TransliterateChar(ch: char): (r: string)
    ensures !IsCyrillic(ch) ==> r == [ch]
    ensures r == [ch] || (IsCyrillic(ch) && |r| <= 4 && forall k :: 0 <= k < |r| ==> 'a' <= r[k] <= 'z')
    ensures forall k :: 0 <= k < |r| && IsCyrillic(r[k]) ==> r == [ch]
  {
    if !IsCyrillic(ch) then [ch]
    else
      match T(ToLower(ch) as int % 256)
      case None => [ch]
      case Some(newCh) => newCh
  }

  /** `transliterate(s)`: the concatenation of every character's
      replacement, in order. */
  function Transliterated(s: string): string
  {
    if s == [] then [] else Transliterated(s[..|s| - 1]) + TransliterateChar(s[|s| - 1])
  }

  /** `transliterate(s)`: appends each character's replacement to a builder. */
  method Transliterate(s: string) returns (res: string)
    ensures res == Transliterated(s)
  {
    res := [];
    for i := 0 to |s|
      invariant res == Transliterated(s[..i])
    {
      assert s[..i + 1][..i] == s[..i];
      var ch := s[i];
      if !IsCyrillic(ch) {
        res := res + [ch];
        continue;
      }
      var newCh := T(ToLower(ch) as int % 256);
      if newCh.None? {
        res := res + [ch];
        continue;
      }
      res := res + newCh.value;
    }
    assert s[..|s|] == s;
  }

  /** Transliteration works character by character: the result of a
      concatenation is the concatenation of the results. */
  lemma {:induction false} TransliteratedConcat(s: string, t: string)
    ensures Transliterated(s + t) == Transliterated(s) + Transliterated(t)
    decreases |t|
  {
    if t != [] {
      var t' := t[..|t| - 1];
      assert (s + t)[..|s + t| - 1] == s + t';
      assert (s + t)[|s + t| - 1] == t[|t| - 1];
      TransliteratedConcat(s, t');
      var last := TransliterateChar(t[|t| - 1]);
      var x, y := Transliterated(s), Transliterated(t');
      assert Transliterated(t) == y + last;
      assert Transliterated(s + t) == (x + y) + last;
      assert (x + y) + last == x + (y + last);
    } else {
      assert s + t == s;
    }
  }

  /** A string with no character of the Cyrillic block, accented Latin
      letters included, is copied unchanged. */
  lemma {:induction false} NonCyrillicUnchanged(s: string)
    requires forall k :: 0 <= k < |s| ==> !IsCyrillic(s[k])
    ensures Transliterated(s) == s
  {
    if s != [] {
      NonCyrillicUnchanged(s[..|s| - 1]);
      assert s[..|s| - 1] + [s[|s| - 1]] == s;
    }
  }

  /** A capital Russian letter (U+0410 to U+042F, and Ё at U+0401) gives the
      same output as its small letter. */
  lemma CaseInsensitive(ch: char)
    requires 0x410 <= ch as int < 0x430 || ch as int == 0x401
    ensures var small := (if ch as int == 0x401 then 0x451 else ch as int + 0x20) as char;
      TransliterateChar(ch) == TransliterateChar(small) && TransliterateChar(ch) != [ch]
  {
    var small := (if ch as int == 0x401 then 0x451 else ch as int + 0x20) as char;
    assert ToLower(ch) == small && ToLower(small) == small;
    RussianLettersReplaced(ch);
    RussianLettersReplaced(small);
    assert 'z' < ch;
  }

  /** Every Russian letter, capital or small, is replaced by its table
      entry: never left as it is. */
  lemma RussianLettersReplaced(ch: char)
    requires 0x410 <= ch as int < 0x450 || ch as int == 0x401 || ch as int == 0x451
    ensures TransliterateChar(ch) == T(ToLower(ch) as int % 256).value
    ensures |TransliterateChar(ch)| <= 4
    ensures forall k :: 0 <= k < |TransliterateChar(ch)| ==> 'a' <= TransliterateChar(ch)[k] <= 'z'
  {
    assert 0x30 <= ToLower(ch) as int % 256 < 0x50 || ToLower(ch) as int % 256 == 0x51;
  }

  /** The hard and soft signs ъ and ь (U+044A, U+044C) and their capitals
      are deleted. */
  lemma SignsDeleted()
    ensures TransliterateChar(0x44A as char) == [] && TransliterateChar(0x44C as char) == []
    ensures TransliterateChar(0x42A as char) == [] && TransliterateChar(0x42C as char) == []
  {
    assert RUSSIAN[0x1A] == [] && RUSSIAN[0x1C] == [];
    assert ToLower(0x42A as char) == 0x44A as char && ToLower(0x44A as char) == 0x44A as char;
    assert ToLower(0x42C as char) == 0x44C as char && ToLower(0x44C as char) == 0x44C as char;
  }

  /** The Latin entries are reached only through Cyrillic letters with the
      same low byte: 'é' stays 'é', while ѓ (U+0453) becomes "oe" and ӡ
      (U+04E1) becomes "a". */
  lemma SharedLowBytes()
    ensures TransliterateChar(0xE9 as char) == [0xE9 as char]
    ensures TransliterateChar(0x453 as char) == "oe"
    ensures TransliterateChar(0x4E1 as char) == "a"
    ensures TransliterateChar(0x4E0 as char) == "a"
  {
    assert ToLower(0x453 as char) == 0x453 as char && LATIN[0x53] == "oe";
    assert ToLower(0x4E1 as char) == 0x4E1 as char && ToLower(0x4E0 as char) == 0x4E1 as char;
    assert LATIN[0xE1] == "a";
  }

  /** "мама" becomes "mama". */
  lemma Mama()
    ensures Transliterated([0x43C as char, 0x430 as char, 0x43C as char, 0x430 as char]) == "mama"
  {
    var m, a := 0x43C as char, 0x430 as char;
    assert ToLower(m) == m && ToLower(a) == a;
    assert RUSSIAN[0xC] == "m" && RUSSIAN[0] == "a";
    assert TransliterateChar(m) == "m" && TransliterateChar(a) == "a";
    assert [m, a, m, a][..3] == [m, a, m];
    assert [m, a, m][..2] == [m, a];
    assert [m, a][..1] == [m];
    assert [m][..0] == [];
    assert Transliterated([m]) == "m";
    assert Transliterated([m, a]) == "ma";
    assert Transliterated([m, a, m]) == "mam";
  }
}
