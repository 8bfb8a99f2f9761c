/** A reusable fixed-capacity character buffer with a line reader, after
    MutableString.java.

    The input stream is a sequence of `read()` results: a byte 0..255, or a
    negative value for the end of the stream; an exhausted sequence also
    reads as the end. The output stream is the sequence of bytes written:
    `write(int)` keeps the low eight bits. */
module MutableString {
  import opened Wrappers
  import opened JavaInt

  /** The `ArrayIndexOutOfBoundsException` of a store past the capacity. */
  datatype BufferError = CapacityExceeded

  /** What `InputStream.read()` may return. */
  predicate IsStream(input: seq<int>)
  {
    forall k :: 0 <= k < |input| ==> -1 <= input[k] <= 255
  }

  /** `Character.isWhitespace` on the characters a byte stream can deliver:
      the controls U+0009 to U+000D and U+001C to U+001F, and the space. */
  predicate IsWhitespace(c: char)
  {
    '\t' <= c <= '\r' || '\U{1C}' <= c <= ' '
  }

  /** The line `readln` stores from `input`, and the input left after it:
      characters up to and including the first line feed or up to the end of
      the stream; with `noSpaces`, whitespace is read but not stored, the line
      feed included. */
  function ReadLine(input: seq<int>, noSpaces: bool): (seq<char>, seq<int>)
    requires IsStream(input)
    decreases |input|
  {
    if input == [] then ([], [])
    else if input[0] < 0 then ([], input[1..])
    else
      var ch := input[0] as char;
      if ch == '\n' then (Kept(ch, noSpaces), input[1..])
      else
        var tail := ReadLine(input[1..], noSpaces);
        (Kept(ch, noSpaces) + tail.0, tail.1)
  }

  /** The line holds bytes only, no line feed but possibly a final one, no
      whitespace when `noSpaces` holds, and the input left is a suffix of the
      input. */
  lemma {:induction false} ReadLineShape(input: seq<int>, noSpaces: bool)
    requires IsStream(input)
    ensures var (line, rest) := ReadLine(input, noSpaces);
      |rest| <= |input| && rest == input[|input| - |rest|..] &&
      (forall k :: 0 <= k < |line| - 1 ==> line[k] != '\n') &&
      (noSpaces ==> forall k :: 0 <= k < |line| ==> !IsWhitespace(line[k])) &&
      (forall k :: 0 <= k < |line| ==> line[k] as int < 256)
    decreases |input|
  {
    if input != [] && input[0] >= 0 && input[0] as char != '\n' {
      ReadLineShape(input[1..], noSpaces);
      var tail := ReadLine(input[1..], noSpaces);
      assert input[1..][|input[1..]| - |tail.1|..] == input[|input| - |tail.1|..];
    }
  }

  /** What the buffer keeps of a character read: nothing for whitespace when
      `noSpaces` holds, else the character. */
  function Kept(ch: char, noSpaces: bool): (k: seq<char>)
    ensures |k| <= 1 && (k != [] ==> k[0] == ch)
    ensures k == [] <==> noSpaces && IsWhitespace(ch)
  {
    if noSpaces && IsWhitespace(ch) then [] else [ch]
  }

  /** One character of `ReadLine` after `prefix`: a line feed ends the line,
      any other byte is followed by the rest of it. */
  lemma ReadLineAdvance(input: seq<int>, noSpaces: bool, prefix: seq<char>)
    requires IsStream(input) && input != [] && input[0] >= 0
    ensures IsStream(input[1..])
    ensures input[0] as char == '\n' ==>
      prefix + ReadLine(input, noSpaces).0 == prefix + Kept(input[0] as char, noSpaces) &&
      ReadLine(input, noSpaces).1 == input[1..]
    ensures input[0] as char != '\n' ==>
      prefix + ReadLine(input, noSpaces).0 ==
        (prefix + Kept(input[0] as char, noSpaces)) + ReadLine(input[1..], noSpaces).0 &&
      ReadLine(input, noSpaces).1 == ReadLine(input[1..], noSpaces).1
  {
  }

  /** `ReadLine` at the end of the stream reads nothing. */
  lemma ReadLineEnd(input: seq<int>, noSpaces: bool)
    requires IsStream(input) && (input == [] || input[0] < 0)
    ensures ReadLine(input, noSpaces) == ([], if input == [] then [] else input[1..])
  {
  }

  /** A line that continues past `prefix` with `ch` is longer than `prefix`
      and starts with it. */
  lemma PrefixBeforeKept(prefix: seq<char>, ch: char, pending: seq<char>, line: seq<char>)
    requires |pending| > 0 && pending[0] == ch && line == prefix + pending
    ensures |line| > |prefix| && line[..|prefix|] == prefix
  {
  }

  /** The bytes `write` emits for a string: the low eight bits of each char. */
  function Bytes(s: seq<char>): (b: seq<int>)
    ensures |b| == |s|
    ensures forall k :: 0 <= k < |s| ==> 0 <= b[k] < 256 && b[k] == s[k] as int % 256
  {
    if s == [] then [] else Bytes(s[..|s| - 1]) + [s[|s| - 1] as int % 256]
  }

  /** `Arrays.hashCode`-style polynomial hash with 32-bit wrap-around, folded
      from 1. */
  function Hash(s: seq<char>): Int
  {
    if s == [] then 1 else WrapInt(31 * Hash(s[..|s| - 1]) + s[|s| - 1] as int)
  }

  /** The same polynomial over unbounded integers: 31^n + Σ s[k]·31^(n-1-k). */
  function Polynomial(s: seq<char>): int
  {
    if s == [] then 1 else 31 * Polynomial(s[..|s| - 1]) + s[|s| - 1] as int
  }

  /** `hashCode` is the polynomial reduced modulo 2^32. */
  lemma {:induction false} HashIsPolynomial(s: seq<char>)
    ensures (Hash(s) - Polynomial(s)) % TWO_32 == 0
  {
    if s != [] {
      var p := s[..|s| - 1];
      var c := s[|s| - 1] as int;
      HashIsPolynomial(p);
      var x := 31 * Hash(p) + c;
      MulMultiple(Hash(p) - Polynomial(p), 31);
      assert x - Polynomial(s) == 31 * (Hash(p) - Polynomial(p));
      AddMultiples(Hash(s) - x, x - Polynomial(s));
    }
  }

  lemma MulMultiple(d: int, f: int)
    requires d % TWO_32 == 0
    ensures (f * d) % TWO_32 == 0
  {
    var q := d / TWO_32;
    assert d == TWO_32 * q;
    assert f * d == TWO_32 * (f * q);
  }

  lemma AddMultiples(d: int, e: int)
    requires d % TWO_32 == 0 && e % TWO_32 == 0
    ensures (d + e) % TWO_32 == 0
  {
    var q, r := d / TWO_32, e / TWO_32;
    assert d == TWO_32 * q && e == TWO_32 * r;
    assert d + e == TWO_32 * (q + r);
  }

  class MutableString {
    const noSpaces: bool
    const chars: array<char>
    var length: nat

    ghost predicate Valid()
      reads this
    {
      length <= chars.Length
    }

    /** `toString()`: the first `length` characters. */
    function ToString(): (s: string)
      requires Valid()
      reads this, chars
      ensures |s| == length
    {
      chars[..length]
    }

    /** `MutableString(maxLength, noSpaces)`: an empty buffer of capacity
        `maxLength`. */
    constructor (maxLength: nat, noSpaces: bool)
      ensures Valid() && fresh(chars)
      ensures this.noSpaces == noSpaces && chars.Length == maxLength && length == 0
    {
      this.noSpaces := noSpaces;
      chars := new char[maxLength](_ => '\0');
      length := 0;
    }

    /** `MutableString()`: capacity 1000, whitespace kept. */
    constructor Default()
      ensures Valid() && fresh(chars)
      ensures !noSpaces && chars.Length == 1000 && length == 0
    {
      noSpaces := false;
      chars := new char[1000](_ => '\0');
      length := 0;
    }

    /** `readln(in)`: replaces the contents with the next line of `input` and
        returns the rest of the stream. A line longer than the capacity fails
        at the first character that does not fit, leaving the buffer full with
        the line's first characters. */
    method Readln(input: seq<int>) returns (rest: seq<int>, r: Result<(), BufferError>)
      requires IsStream(input)
      modifies this, chars
      ensures Valid()
      ensures |ReadLine(input, noSpaces).0| <= chars.Length ==>
        r.Ok? && ToString() == ReadLine(input, noSpaces).0 && rest == ReadLine(input, noSpaces).1
      ensures |ReadLine(input, noSpaces).0| > chars.Length ==>
        r.Err? && length == chars.Length && chars[..] == ReadLine(input, noSpaces).0[..chars.Length]
    {
      ghost var line := ReadLine(input, noSpaces).0;
      ghost var after := ReadLine(input, noSpaces).1;
      length := 0;
      var stream := input;
      while true
        invariant IsStream(stream) && Valid()
        invariant chars[..length] + ReadLine(stream, noSpaces).0 == line
        invariant ReadLine(stream, noSpaces).1 == after
        decreases |stream|
      {
        if stream == [] || stream[0] < 0 {
          ReadLineEnd(stream, noSpaces);
          rest := if stream == [] then [] else stream[1..];
          assert chars[..length] == line;
          break;
        }
        ghost var prefix := chars[..length];
        ReadLineAdvance(stream, noSpaces, prefix);
        ghost var pending := ReadLine(stream, noSpaces).0;
        var read := stream[0];
        stream := stream[1..];
        var ch := read as char;
        if !(noSpaces && IsWhitespace(ch)) {
          if length >= chars.Length {
            assert chars[..] == prefix;
            PrefixBeforeKept(prefix, ch, pending, line);
            return stream, Err(CapacityExceeded);
          }
          chars[length] := ch;
          length := length + 1;
          assert chars[..length] == prefix + [ch];
        }
        assert chars[..length] == prefix + Kept(ch, noSpaces);
        if ch == '\n' {
          rest := stream;
          break;
        }
      }
      r := Ok(());
    }

    /** `println(out)`: the bytes of the contents, then a line feed. */
    method Println() returns (out: seq<int>)
      requires Valid()
      ensures out == Bytes(ToString()) + [10]
    {
      out := [];
      var i := 0;
      while i < length
        invariant 0 <= i <= length
        invariant out == Bytes(chars[..i])
      {
        assert chars[..i + 1][..i] == chars[..i];
        out := out + [chars[i] as int % 256];
        i := i + 1;
      }
      assert chars[..length] == ToString();
      out := out + [10];
    }

    /** `set(s)`, corrected: copies `s`'s length and characters when they fit,
        and otherwise fails before changing anything. */
    method Set(s: MutableString) returns (r: Result<(), BufferError>)
      requires Valid() && s.Valid()
      modifies this, chars
      ensures Valid()
      ensures old(s.length) <= chars.Length ==> r.Ok? && ToString() == old(s.ToString())
      ensures old(s.length) > chars.Length ==> r.Err? && length == old(length) && unchanged(chars)
    {
      if s.length > chars.Length {
        return Err(CapacityExceeded);
      }
      length := s.length;
      CopyPrefix(s, s.length);
      r := Ok(());
    }

    /** `set(s)` as written: `length` is assigned before `System.arraycopy`
        checks the capacity, so a failed copy leaves a length past the end of
        the buffer. */
    method SetAsWritten(s: MutableString) returns (r: Result<(), BufferError>)
      requires Valid() && s.Valid()
      modifies this, chars
      ensures old(s.length) <= chars.Length ==> r.Ok? && Valid() && ToString() == old(s.ToString())
      ensures old(s.length) > chars.Length ==> r.Err? && length == old(s.length) && !Valid()
    {
      length := s.length;
      if s.length > chars.Length {
        return Err(CapacityExceeded);
      }
      CopyPrefix(s, s.length);
      r := Ok(());
    }

    /** `System.arraycopy(s.chars, 0, chars, 0, n)`. */
    method CopyPrefix(s: MutableString, n: nat)
      requires n <= s.chars.Length && n <= chars.Length
      modifies chars
      ensures chars[..n] == old(s.chars[..n])
      ensures chars[n..] == old(chars[n..])
    {
      var k := 0;
      while k < n
        invariant 0 <= k <= n
        invariant forall m :: 0 <= m < k ==> chars[m] == old(s.chars[m])
        invariant forall m :: k <= m < s.chars.Length ==> s.chars[m] == old(s.chars[m])
        invariant forall m :: k <= m < chars.Length ==> chars[m] == old(chars[m])
      {
        chars[k] := s.chars[k];
        k := k + 1;
      }
    }

    /** `equals(o)`: another buffer with the same length and the same first
        `length` characters; capacity and `noSpaces` play no part. */
    method Equals(o: MutableString?) returns (r: bool)
      requires Valid() && (o != null ==> o.Valid())
      ensures r <==> o != null && ToString() == o.ToString()
    {
      if o == this {
        return true;
      }
      if o == null {
        return false;
      }
      if length != o.length {
        return false;
      }
      var i := 0;
      while i < length
        invariant 0 <= i <= length
        invariant chars[..i] == o.chars[..i]
      {
        if chars[i] != o.chars[i] {
          return false;
        }
        i := i + 1;
      }
      return true;
    }

    /** `hashCode()`: `31 * result + element` over the contents, from 1, with
        32-bit wrap-around. */
    method HashCode() returns (result: Int)
      requires Valid()
      ensures result == Hash(ToString())
    {
      result := 1;
      var i := 0;
      while i < length
        invariant 0 <= i <= length
        invariant result == Hash(chars[..i])
      {
        assert chars[..i + 1][..i] == chars[..i];
        result := WrapInt(31 * result + chars[i] as int);
        i := i + 1;
      }
      assert chars[..length] == ToString();
    }
  }
}
