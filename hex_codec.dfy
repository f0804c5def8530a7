/**
 * The hexadecimal text form of the signature used in the key/value map:
 * `store` writes each byte as two lowercase, zero-padded hex digits, and
 * `_load` reads the text back two characters at a time with `strtol(.., 16)`.
 */
module HexCodec {
  import opened Types

  /** Lowercase hex digit for a nibble, as `std::hex` prints it. */
  function HexDigit(d: nat): (c: char)
    requires d < 16
    ensures IsLowerHexDigit(c)
    ensures IsHexDigit(c) && DigitValue(c) == d
  {
    if d < 10 then ('0' as int + d) as char else ('a' as int + d - 10) as char
  }

  predicate IsLowerHexDigit(c: char) {
    '0' <= c <= '9' || 'a' <= c <= 'f'
  }

  /** The characters `strtol` accepts as base-16 digits. */
  predicate IsHexDigit(c: char) {
    '0' <= c <= '9' || 'a' <= c <= 'f' || 'A' <= c <= 'F'
  }

  function DigitValue(c: char): (v: nat)
    requires IsHexDigit(c)
    ensures v < 16
  {
    if '0' <= c <= '9' then c as int - '0' as int
    else if 'a' <= c <= 'f' then c as int - 'a' as int + 10
    else c as int - 'A' as int + 10
  }

  /** The white space `strtol` skips in the C locale (`isspace`). */
  predicate IsSpace(c: char) {
    c == ' ' || 9 <= c as int <= 13
  }

  /**
   * One byte as `setw(2) << setfill('0') << hex << (0xff & b)` prints it:
   * two lowercase hex digits, high nibble first, which `strtol` reads back
   * as the byte.
   */
  function ByteHex(b: byte): (s: string)
    ensures |s| == 2 && IsLowerHexDigit(s[0]) && IsLowerHexDigit(s[1])
    ensures IsHexDigit(s[0]) && IsHexDigit(s[1]) && 16 * DigitValue(s[0]) + DigitValue(s[1]) == b
    ensures ParsedByte(s) == b
  {
    [HexDigit(b / 16), HexDigit(b % 16)]
  }

  /** The `sig_hex` string after appending the hex form of every byte of `s` in order. */
  function HexOf(s: seq<byte>): (r: string)
    ensures |r| == 2 * |s|
  {
    if s == [] then [] else HexOf(s[..|s| - 1]) + ByteHex(s[|s| - 1])
  }

  /** The two characters of `HexOf(s)` at position `2 * j` are the hex form of `s[j]`. */
  lemma {:induction false} HexOfAt(s: seq<byte>, j: nat)
    requires j < |s|
    ensures HexOf(s)[2 * j] == HexDigit(s[j] / 16)
    ensures HexOf(s)[2 * j + 1] == HexDigit(s[j] % 16)
  {
    var init := s[..|s| - 1];
    assert HexOf(s) == HexOf(init) + ByteHex(s[|s| - 1]);
    if j < |s| - 1 {
      HexOfAt(init, j);
      assert init[j] == s[j];
    }
  }

  /**
   * The string `store` produces for a signature: two lowercase hex digits per
   * byte, high nibble first, in byte order, and nothing else.
   */
  lemma {:induction false} StoreFormat(s: seq<byte>)
    ensures |HexOf(s)| == 2 * |s|
    ensures forall j :: 0 <= j < |s| ==>
      && IsLowerHexDigit(HexOf(s)[2 * j]) && IsLowerHexDigit(HexOf(s)[2 * j + 1])
      && IsHexDigit(HexOf(s)[2 * j]) && IsHexDigit(HexOf(s)[2 * j + 1])
      && 16 * DigitValue(HexOf(s)[2 * j]) + DigitValue(HexOf(s)[2 * j + 1]) == s[j]
  {
    forall j | 0 <= j < |s|
      ensures IsLowerHexDigit(HexOf(s)[2 * j]) && IsLowerHexDigit(HexOf(s)[2 * j + 1])
      ensures IsHexDigit(HexOf(s)[2 * j]) && IsHexDigit(HexOf(s)[2 * j + 1])
      ensures 16 * DigitValue(HexOf(s)[2 * j]) + DigitValue(HexOf(s)[2 * j + 1]) == s[j]
    {
      HexOfAt(s, j);
    }
  }

  /** Every character `store` writes is a lowercase hex digit. */
  lemma {:induction false} StoreIsLowercaseHex(s: seq<byte>)
    ensures forall k :: 0 <= k < |HexOf(s)| ==> IsLowerHexDigit(HexOf(s)[k])
  {
    forall k | 0 <= k < |HexOf(s)|
      ensures IsLowerHexDigit(HexOf(s)[k])
    {
      var j := k / 2;
      HexOfAt(s, j);
      assert k == 2 * j || k == 2 * j + 1;
    }
  }

  /**
   * `strtol(p, NULL, 16)` for a string of one or two characters: leading
   * white space, then an optional sign, then the longest run of hex digits;
   * no digit at all gives 0. (A "0x" prefix with no digit after it reads
   * as the single digit 0, which the first case covers.)
   */
  function StrtolHex(p: string): (v: int)
    requires 1 <= |p| <= 2
    ensures -15 <= v <= 255
    ensures |p| == 2 && IsHexDigit(p[0]) && IsHexDigit(p[1]) ==> v == 16 * DigitValue(p[0]) + DigitValue(p[1])
    ensures !IsHexDigit(p[0]) && (|p| == 1 || !IsHexDigit(p[1])) ==> v == 0
  {
    if IsHexDigit(p[0]) then
      if |p| == 2 && IsHexDigit(p[1]) then 16 * DigitValue(p[0]) + DigitValue(p[1])
      else DigitValue(p[0])
    else if |p| == 2 && (IsSpace(p[0]) || p[0] == '+') && IsHexDigit(p[1]) then DigitValue(p[1])
    else if |p| == 2 && p[0] == '-' && IsHexDigit(p[1]) then -(DigitValue(p[1]) as int)
    else 0
  }

  /** The byte stored by `(char) strtol(..)`: the value taken modulo 256. */
  function ParsedByte(p: string): (b: byte)
    requires 1 <= |p| <= 2
    ensures 0 <= StrtolHex(p) ==> b == StrtolHex(p)
    ensures StrtolHex(p) < 0 ==> b == StrtolHex(p) + 0x100
  {
    StrtolHex(p) % 0x100
  }

  /** `substr(i, 2)`: the two characters at `i`, or the last one alone. */
  function Window(hex: string, i: nat): (w: string)
    requires i < |hex|
    ensures 1 <= |w| <= 2 && w[0] == hex[i]
    ensures i + 1 < |hex| ==> w == [hex[i], hex[i + 1]]
  {
    hex[i..if i + 2 <= |hex| then i + 2 else |hex|]
  }

  /**
   * The signature buffer after the `_load` loop has read `hex` over the
   * buffer `prev`: byte `j` is parsed from the window at `2 * j` when there
   * is one, so a pair of hex digits gives its value, and bytes past
   * `ceil(|hex| / 2)` keep their old value.
   */
  function DecodeInto(prev: seq<byte>, hex: string): (r: seq<byte>)
    requires |hex| <= 2 * |prev|
    ensures |r| == |prev|
    ensures forall j ::
      (0 <= j < |prev| && 2 * j + 1 < |hex| && IsHexDigit(hex[2 * j]) && IsHexDigit(hex[2 * j + 1])) ==>
        r[j] == 16 * DigitValue(hex[2 * j]) + DigitValue(hex[2 * j + 1])
    ensures forall j :: (|hex| + 1) / 2 <= j < |prev| ==> r[j] == prev[j]
  {
    seq(|prev|, j requires 0 <= j < |prev| =>
      if 2 * j < |hex| then ParsedByte(Window(hex, 2 * j)) else prev[j])
  }

  /** Reading back what `store` wrote restores every byte, whatever the buffer held. */
  lemma {:induction false} DecodeHexOf(prev: seq<byte>, s: seq<byte>)
    requires |prev| == |s|
    ensures DecodeInto(prev, HexOf(s)) == s
  {
    var hex := HexOf(s);
    forall j | 0 <= j < |s|
      ensures DecodeInto(prev, hex)[j] == s[j]
    {
      HexOfAt(s, j);
      assert Window(hex, 2 * j) == ByteHex(s[j]);
    }
  }
}
