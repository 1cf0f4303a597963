/** The string routines the stub calls, on C strings: hexadecimal numbers,
    bounded comparison, byte search. */
module Text {
  import opened Bytes
  import opened Memory

  datatype Number = Value(v: Address) | Overflow

  const SPACE_CHAR: Byte := 0x20
  const TAB: Byte := 0x09

  function SkipPad(s: seq<Byte>): (r: seq<Byte>)
    ensures |r| <= |s|
  {
    if s != [] && (s[0] == SPACE_CHAR || s[0] == TAB) then SkipPad(s[1..]) else s
  }

  function SkipZeros(s: seq<Byte>): (r: seq<Byte>)
    ensures |r| <= |s|
    ensures r != [] ==> r[0] != ZERO
  {
    if s != [] && s[0] == ZERO then SkipZeros(s[1..]) else s
  }

  /** The digit loop: stop at the first non-digit, fail when the next digit overflows. */
  function HexDigits(s: seq<Byte>, value: Address): Number
    decreases |s|
  {
    if s == [] || !IsHexDigit(s[0]) then Value(value)
    else if value > (SPACE - 1 - HexValue(s[0])) / 16 then Overflow
    else HexDigits(s[1..], 16 * value + HexValue(s[0]))
  }

  /** AsciiStrHexToUint64S: padding, leading zeros and an optional x after them
      are skipped; an x without a zero before it reads as 0. */
  function ParseHex64(s: seq<Byte>): Number {
    var t := SkipPad(s);
    var z := SkipZeros(t);
    if z != [] && ToUpper(z[0]) == 0x58 then
      if |z| == |t| then Value(0) else HexDigits(z[1..], 0)
    else HexDigits(z, 0)
  }

  /** AsciiStrHexToUintn saturates where the checked form fails. */
  function ParseHex(s: seq<Byte>): Address {
    match ParseHex64(s)
    case Value(v) => v
    case Overflow => SPACE - 1
  }

  /** The number that a string of hex digits writes. */
  function Positional(s: seq<Byte>): nat
    requires AllHex(s)
  {
    if s == [] then 0 else 16 * Positional(s[..|s| - 1]) + HexValue(s[|s| - 1])
  }

  lemma {:induction false} PositionalPrefix(s: seq<Byte>, k: nat)
    requires AllHex(s) && k <= |s|
    ensures AllHex(s[..k]) && Positional(s[..k]) <= Positional(s)
    decreases |s|
  {
    if k < |s| {
      PositionalPrefix(s[..|s| - 1], k);
      assert s[..|s| - 1][..k] == s[..k];
    } else {
      assert s[..k] == s;
    }
  }

  /** The digit loop over the rest of s, having read s[..k]. */
  lemma {:induction false} HexDigitsRead(s: seq<Byte>, k: nat)
    requires AllHex(s) && k <= |s|
    requires AllHex(s[..k]) && Positional(s[..k]) < SPACE
    ensures HexDigits(s[k..], Positional(s[..k]))
         == if Positional(s) < SPACE then Value(Positional(s)) else Overflow
    decreases |s| - k
  {
    PositionalPrefix(s, k);
    if k == |s| {
      assert s[..k] == s;
    } else {
      PositionalPrefix(s, k + 1);
      assert s[..k + 1][..k] == s[..k];
      assert s[k..][1..] == s[k + 1..];
      if Positional(s[..k + 1]) < SPACE { HexDigitsRead(s, k + 1); }
    }
  }

  lemma {:induction false} ZerosAreNothing(s: seq<Byte>)
    requires AllHex(s)
    ensures AllHex(SkipZeros(s)) && Positional(SkipZeros(s)) == Positional(s)
    decreases |s|
  {
    if s != [] && s[0] == ZERO {
      LeadingZero(s);
      ZerosAreNothing(s[1..]);
    }
  }

  lemma {:induction false} LeadingZero(s: seq<Byte>)
    requires AllHex(s) && s != [] && s[0] == ZERO
    ensures Positional(s[1..]) == Positional(s)
    decreases |s|
  {
    var n := |s| - 1;
    if n > 0 {
      LeadingZero(s[..n]);
      assert s[1..][..n - 1] == s[..n][1..];
    } else {
      assert s[..n] == [];
      assert s[1..] == [];
    }
  }

  /** A string of hex digits is read as the number it writes, or as an overflow
      exactly when that number needs more than 64 bits. */
  lemma ParseHexDigits(s: seq<Byte>)
    requires AllHex(s)
    ensures ParseHex64(s) == if Positional(s) < SPACE then Value(Positional(s)) else Overflow
  {
    assert SkipPad(s) == s;
    var z := SkipZeros(s);
    ZerosAreNothing(s);
    assert z[..0] == [] && z[0..] == z;
    HexDigitsRead(z, 0);
  }

  // What may stand around the digits.

  predicate EndsDigits(rest: seq<Byte>) {
    rest == [] || (!IsHexDigit(rest[0]) && ToUpper(rest[0]) != 0x58)
  }

  lemma {:induction false} HexDigitsStop(s: seq<Byte>, rest: seq<Byte>, value: Address)
    requires AllHex(s) && (rest == [] || !IsHexDigit(rest[0]))
    ensures HexDigits(s + rest, value) == HexDigits(s, value)
    decreases |s|
  {
    if s == [] {
      assert s + rest == rest;
    } else {
      assert (s + rest)[1..] == s[1..] + rest;
      if value <= (SPACE - 1 - HexValue(s[0])) / 16 {
        HexDigitsStop(s[1..], rest, 16 * value + HexValue(s[0]));
      }
    }
  }

  lemma {:induction false} ZerosStop(s: seq<Byte>, rest: seq<Byte>)
    requires AllHex(s) && (rest == [] || rest[0] != ZERO)
    ensures SkipZeros(s + rest) == SkipZeros(s) + rest && AllHex(SkipZeros(s))
    decreases |s|
  {
    if s == [] {
      assert s + rest == rest;
    } else {
      assert (s + rest)[1..] == s[1..] + rest;
      if s[0] == ZERO { ZerosStop(s[1..], rest); }
    }
  }

  /** Reading stops at the first character that is no hex digit; blanks in front
      are skipped, and so is an x after a zero; an x on its own reads as 0. */
  lemma ParseHexAround(s: seq<Byte>, rest: seq<Byte>, b: Byte)
    requires AllHex(s) && s != [] && EndsDigits(rest)
    ensures ParseHex64(s + rest) == ParseHex64(s)
    ensures b in {0x20, 0x09} ==> ParseHex64([b] + (s + rest)) == ParseHex64(s)
    ensures b in {0x58, 0x78} ==> ParseHex64([ZERO, b] + (s + rest)) == ParseHex64(s)
    ensures b in {0x58, 0x78} ==> ParseHex64([b] + (s + rest)) == Value(0)
  {
    hide HexDigits;
    assert SkipPad(s) == s && SkipPad(s + rest) == s + rest;
    ZerosStop(s, rest);
    HexDigitsStop(SkipZeros(s), rest, 0);
    ParseHexDigits(s);
    if b in {0x20, 0x09} {
      assert ([b] + (s + rest))[1..] == s + rest;
    }
    if b in {0x58, 0x78} {
      var t := [ZERO, b] + (s + rest);
      assert t[1..] == [b] + (s + rest) && ([b] + (s + rest))[1..] == s + rest;
      assert SkipZeros([b] + (s + rest)) == [b] + (s + rest);
      DigitsFromZeros(s, rest);
    }
  }

  /** Leading zeros do not count in the digit loop either. */
  lemma DigitsFromZeros(s: seq<Byte>, rest: seq<Byte>)
    requires AllHex(s) && (rest == [] || !IsHexDigit(rest[0]))
    ensures HexDigits(s + rest, 0) == if Positional(s) < SPACE then Value(Positional(s)) else Overflow
  {
    HexDigitsStop(s, rest, 0);
    assert s[..0] == [] && s[0..] == s;
    HexDigitsRead(s, 0);
  }

  lemma ParseHexSpelled(s: seq<Byte>)
    requires AllHex(s)
    ensures ParseHex(s) == if Positional(s) < SPACE then Positional(s) else SPACE - 1
  {
    ParseHexDigits(s);
  }

  /** AsciiStrnCmp (s, t, n) == 0 for two C strings. */
  predicate SameUpTo(s: seq<Byte>, t: seq<Byte>, n: nat) {
    s[..if n < |s| then n else |s|] == t[..if n < |t| then n else |t|]
  }

  /** ScanMem8 over the n bytes from start on: the first match, or -1 for none. */
  method ScanMem8(buffer: array<Byte>, start: nat, n: nat, value: Byte) returns (found: int)
    requires start + n <= buffer.Length
    ensures found == -1 <==> Find(buffer[start..start + n], value) == n
    ensures found != -1 ==> found == start + Find(buffer[start..start + n], value)
  {
    for i := 0 to n
      invariant forall j :: start <= j < start + i ==> buffer[j] != value
    {
      if buffer[start + i] == value {
        FindUnique(buffer[start..start + n], value, i);
        return start + i;
      }
    }
    FindUnique(buffer[start..start + n], value, n);
    found := -1;
  }

  /** AsciiStrLen of the string at start. */
  method AsciiStrLen(buffer: array<Byte>, start: nat) returns (n: nat)
    requires start <= buffer.Length && Find(buffer[start..], NUL) < buffer.Length - start
    ensures n == Find(buffer[start..], NUL) == |CString(buffer[start..])|
    ensures start + n < buffer.Length && buffer[start + n] == NUL
  {
    n := 0;
    while buffer[start + n] != NUL
      invariant start + n < buffer.Length
      invariant n <= Find(buffer[start..], NUL)
      invariant forall j :: start <= j < start + n ==> buffer[j] != NUL
      decreases buffer.Length - n
    {
      n := n + 1;
    }
    FindUnique(buffer[start..], NUL, n);
  }
}
