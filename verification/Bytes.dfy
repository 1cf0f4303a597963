/** Bytes, the hex codecs of the stub, and their round trips. */
module Bytes {

  type Byte = x: int | 0 <= x < 256

  const NUL: Byte := 0
  const HASH: Byte := 0x23
  const DOLLAR: Byte := 0x24
  const PLUS: Byte := 0x2B
  const COMMA: Byte := 0x2C
  const MINUS: Byte := 0x2D
  const ZERO: Byte := 0x30
  const COLON: Byte := 0x3A
  const SEMICOLON: Byte := 0x3B
  const EQUALS: Byte := 0x3D
  const QUESTION: Byte := 0x3F

  /** The bytes of an ASCII literal. */
  function Ascii(s: string): (r: seq<Byte>)
    ensures |r| == |s|
  {
    seq(|s|, i requires 0 <= i < |s| => if s[i] as int < 128 then s[i] as int else QUESTION)
  }

  /** The delimiters of the protocol. */
  lemma DelimitersAre()
    ensures Ascii("$#+-,:;=?0") == [DOLLAR, HASH, PLUS, MINUS, COMMA, COLON, SEMICOLON, EQUALS, QUESTION, ZERO]
  {
  }

  // ---------------------------------------------------------------- digits

  /** HexChars[n]. */
  function HexChar(n: int): (c: Byte)
    requires 0 <= n < 16
    ensures IsLowerHex(c) && HexValue(c) == n
  {
    if n < 10 then 48 + n else 87 + n
  }

  predicate IsHexDigit(c: Byte) {
    48 <= c <= 57 || 65 <= c <= 70 || 97 <= c <= 102
  }

  predicate IsLowerHex(c: Byte) {
    48 <= c <= 57 || 97 <= c <= 102
  }

  function HexValue(c: Byte): (v: int)
    requires IsHexDigit(c)
    ensures 0 <= v < 16
  {
    if c <= 57 then c - 48 else if c <= 70 then c - 55 else c - 87
  }

  function ToUpper(c: Byte): Byte {
    if 97 <= c <= 122 then c - 32 else c
  }

  function ToLower(c: Byte): Byte {
    if 65 <= c <= 90 then c + 32 else c
  }

  // Bitwise or, top bit first.

  function Bit(x: int, p: int): int {
    if x >= p then p else 0
  }

  function Max(x: int, y: int): int {
    if x >= y then x else y
  }

  function Or3(a: int, b: int): (r: int)
    requires 0 <= a < 8 && 0 <= b < 8
    ensures 0 <= r < 8 && (a == 0 ==> r == b) && (b == 0 ==> r == a)
  {
    var a2, b2 := a - Bit(a, 4), b - Bit(b, 4);
    var a1, b1 := a2 - Bit(a2, 2), b2 - Bit(b2, 2);
    Max(Bit(a, 4), Bit(b, 4)) + Max(Bit(a2, 2), Bit(b2, 2)) + Max(a1, b1)
  }

  function Or4(a: int, b: int): (r: int)
    requires 0 <= a < 16 && 0 <= b < 16
    ensures 0 <= r < 16 && (a == 0 ==> r == b) && (b == 0 ==> r == a)
  {
    Max(Bit(a, 8), Bit(b, 8)) + Or3(a - Bit(a, 8), b - Bit(b, 8))
  }

  /** (result << 4) | n in a byte: the shifted-in zeros leave the low nibble of n alone. */
  function ShiftOr(result: Byte, n: Byte): (r: Byte)
    ensures result == 0 ==> r == n
    ensures n < 16 && result < 16 ==> r == result * 16 + n
  {
    16 * Or4(result % 16, n / 16) + n % 16
  }

  /** What one character contributes to HexToByte; a character that is not a
      hex digit still contributes, truncated to a byte. */
  function NibbleOf(c: Byte): (n: Byte)
    ensures IsHexDigit(c) ==> n == HexValue(c)
  {
    if 48 <= c <= 57 then c - 48 else Truncate(10 + ToUpper(c) - 65)
  }

  /** The UINT8 value of a small signed number. */
  function Truncate(x: int): (b: Byte)
    requires -256 <= x < 256
    ensures b == x % 256
  {
    if x < 0 then x + 256 else x
  }

  /** HexToByte on any two characters. */
  function HexPair(c0: Byte, c1: Byte): (r: Byte)
    ensures IsHexDigit(c0) && IsHexDigit(c1) ==> r == 16 * HexValue(c0) + HexValue(c1)
  {
    ShiftOr(NibbleOf(c0), NibbleOf(c1))
  }

  /** HexToByte: shift the running result left by four, or in the next digit. */
  method HexToByte(chars: array<Byte>, start: nat) returns (result: Byte)
    requires start + 2 <= chars.Length
    ensures result == HexPair(chars[start], chars[start + 1])
    ensures IsHexDigit(chars[start]) && IsHexDigit(chars[start + 1]) ==>
              result == 16 * HexValue(chars[start]) + HexValue(chars[start + 1])
  {
    hide ShiftOr, Or4;
    result := 0;
    var index := 0;
    while index < 2
      invariant 0 <= index <= 2
      invariant index == 0 ==> result == 0
      invariant index == 1 ==> result == NibbleOf(chars[start])
      invariant index == 2 ==> result == HexPair(chars[start], chars[start + 1])
    {
      var c := chars[start + index];
      var nibble: Byte;
      if 48 <= c <= 57 {
        nibble := c - 48;
      } else {
        nibble := Truncate(10 + ToUpper(c) - 65);
      }
      assert nibble == NibbleOf(c);
      result := ShiftOr(result, nibble);
      index := index + 1;
    }
  }

  /** The two digits of a byte read as hex are the digits read, in lower case. */
  lemma PairDigits(c0: Byte, c1: Byte)
    requires IsHexDigit(c0) && IsHexDigit(c1)
    ensures HexChar(HexPair(c0, c1) / 16) == ToLower(c0)
    ensures HexChar(HexPair(c0, c1) % 16) == ToLower(c1)
  {
    var v := HexPair(c0, c1);
    assert v / 16 == HexValue(c0) && v % 16 == HexValue(c1);
  }

  // --------------------------------------------------------------- strings

  predicate AllHex(h: seq<Byte>) {
    forall i :: 0 <= i < |h| ==> IsHexDigit(h[i])
  }

  predicate AllLowerHex(h: seq<Byte>) {
    forall i :: 0 <= i < |h| ==> IsLowerHex(h[i])
  }

  function Lower(h: seq<Byte>): seq<Byte> {
    seq(|h|, i requires 0 <= i < |h| => ToLower(h[i]))
  }

  /** Two lower-case digits a byte, high nibble first. */
  function Encode(s: seq<Byte>): (h: seq<Byte>)
    ensures |h| == 2 * |s|
    ensures AllLowerHex(h)
  {
    seq(2 * |s|, i requires 0 <= i < 2 * |s| => HexChar(if i % 2 == 0 then s[i / 2] / 16 else s[i / 2] % 16))
  }

  /** HexToByte over every pair of characters. */
  function Decode(h: seq<Byte>): (s: seq<Byte>)
    ensures |s| == |h| / 2
  {
    seq(|h| / 2, i requires 0 <= i < |h| / 2 => HexPair(h[2 * i], h[2 * i + 1]))
  }

  lemma DecodeEncode(s: seq<Byte>)
    ensures Decode(Encode(s)) == s
  {
    hide HexPair, HexChar;
    var h := Encode(s);
    forall i | 0 <= i < |s|
      ensures Decode(h)[i] == s[i]
    {
      assert h[2 * i] == HexChar(s[i] / 16) && h[2 * i + 1] == HexChar(s[i] % 16);
      CharsOfByte(s[i]);
    }
  }

  lemma CharsOfByte(b: Byte)
    ensures HexPair(HexChar(b / 16), HexChar(b % 16)) == b
  {
    hide HexPair, HexChar;
  }

  lemma EncodeDecode(h: seq<Byte>)
    requires AllHex(h) && |h| % 2 == 0
    ensures Encode(Decode(h)) == Lower(h)
  {
    hide HexPair, HexChar, ToLower;
    forall i | 0 <= i < |h|
      ensures Encode(Decode(h))[i] == Lower(h)[i]
    {
      var k := i / 2;
      PairDigits(h[2 * k], h[2 * k + 1]);
    }
  }

  lemma EncodeConcat(s: seq<Byte>, t: seq<Byte>)
    ensures Encode(s + t) == Encode(s) + Encode(t)
  {
    forall i | 0 <= i < 2 * |s + t|
      ensures Encode(s + t)[i] == (Encode(s) + Encode(t))[i]
    {
      if i >= 2 * |s| { assert (s + t)[i / 2] == t[(i - 2 * |s|) / 2]; }
    }
  }

  /** The position of the first b, or |s|. */
  function Find(s: seq<Byte>, b: Byte): (k: nat)
    ensures k <= |s|
    ensures forall i :: 0 <= i < k ==> s[i] != b
    ensures k < |s| ==> s[k] == b
  {
    if s == [] then 0 else if s[0] == b then 0 else 1 + Find(s[1..], b)
  }

  /** Find is the only position with these two properties. */
  lemma FindUnique(s: seq<Byte>, b: Byte, k: nat)
    requires k <= |s|
    requires forall i :: 0 <= i < k ==> s[i] != b
    requires k < |s| ==> s[k] == b
    ensures Find(s, b) == k
  {
    var f := Find(s, b);
    if f < k { assert false; }
    if k < f { assert false; }
  }

  /** The C string that starts at the head of a buffer. */
  function CString(s: seq<Byte>): (r: seq<Byte>)
    ensures NUL !in r
    ensures |r| <= |s| && r == s[..|r|]
    ensures |r| < |s| ==> s[|r|] == NUL
  {
    s[..Find(s, NUL)]
  }

  lemma FindAtMost(s: seq<Byte>, b: Byte, i: nat)
    requires i < |s| && s[i] == b
    ensures Find(s, b) <= i
  {
    if Find(s, b) > i { assert false; }
  }

  /** A string that ends inside s ends at the same place whatever follows. */
  lemma CStringCut(s: seq<Byte>, t: seq<Byte>)
    requires t != [] && t[0] == NUL
    ensures CString(s + t) == CString(s)
  {
    var k := Find(s, NUL);
    FindUnique(s + t, NUL, k);
    assert (s + t)[..k] == s[..k];
  }

  lemma CStringTail(s: seq<Byte>, k: nat)
    requires k <= |CString(s)|
    ensures CString(s[k..]) == CString(s)[k..]
  {
    FindUnique(s[k..], NUL, Find(s, NUL) - k);
  }
}
