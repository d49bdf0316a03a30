/** Python's rendering of a byte as text: `hex(v)[2:].rjust(2, '0')`, and its inverse. */
module HexFormat {

  predicate IsHexDigit(c: char) {
    '0' <= c <= '9' || 'a' <= c <= 'f'
  }

  predicate AllHexDigits(s: string) {
    forall k :: 0 <= k < |s| ==> IsHexDigit(s[k])
  }

  /** The lowercase hexadecimal digit of 0 <= d < 16, as `hex` writes it. */
  function HexDigit(d: nat): (c: char)
    requires d < 16
    ensures IsHexDigit(c)
  {
    if d < 10 then ('0' as int + d) as char else ('a' as int + (d - 10)) as char
  }

  /** The value of a lowercase hexadecimal digit. */
  function DigitValue(c: char): (d: nat)
    requires IsHexDigit(c)
    ensures d < 16 && HexDigit(d) == c
  {
    if c <= '9' then c as int - '0' as int else c as int - 'a' as int + 10
  }

  /** `hex(v)[2:]`: the shortest lowercase hexadecimal numeral of v, without its "0x" prefix. */
  function PyHex(v: nat): (s: string)
    ensures 1 <= |s| && AllHexDigits(s)
    ensures v < 16 <==> |s| == 1
  {
    if v < 16 then [HexDigit(v)] else PyHex(v / 16) + [HexDigit(v % 16)]
  }

  /** `s.rjust(width, fill)`: s, padded on the left with `fill` up to `width` characters. */
  function RJust(s: string, width: nat, fill: char): (r: string)
    ensures |r| == if |s| >= width then |s| else width
    ensures r[|r| - |s|..] == s
    ensures forall k :: 0 <= k < |r| - |s| ==> r[k] == fill
  {
    if |s| >= width then s else seq(width - |s|, _ => fill) + s
  }

  /** One byte of a difference hash, as the hasher writes it: `hex(v)[2:].rjust(2, '0')`. */
  function HexByte(v: nat): (text: string)
    ensures |text| >= 2 && AllHexDigits(text)
    ensures v < 256 ==> |text| == 2
  {
    var digits := PyHex(v);
    var text := RJust(digits, 2, '0');
    assert forall k :: |text| - |digits| <= k < |text| ==> text[k] == digits[k - (|text| - |digits|)];
    text
  }

  type Byte = v: nat | v < 256

  /** A byte as two lowercase hex digits, high nibble first. */
  function ByteDigits(b: Byte): (s: string)
    ensures |s| == 2 && AllHexDigits(s)
  {
    [HexDigit(b / 16), HexDigit(b % 16)]
  }

  function ParseHexByte(s: string): (b: Byte)
    requires |s| == 2 && AllHexDigits(s)
  {
    16 * DigitValue(s[0]) + DigitValue(s[1])
  }

  /** For a byte, `hex` and `rjust` together always give exactly two digits, high nibble first. */
  lemma HexByteDigits(b: Byte)
    ensures HexByte(b) == ByteDigits(b)
  {
    if b < 16 {
      assert PyHex(b) == [HexDigit(b)];
      assert HexDigit(0) == '0';
      assert RJust(PyHex(b), 2, '0') == ['0'] + PyHex(b);
    } else {
      assert PyHex(b / 16) == [HexDigit(b / 16)];
    }
  }

  lemma NibbleSplit(hi: nat, lo: nat)
    requires hi < 16 && lo < 16
    ensures (16 * hi + lo) / 16 == hi && (16 * hi + lo) % 16 == lo
  {
  }

  /** Reading back a written byte gives the byte. */
  lemma ParseByteDigits(b: Byte)
    ensures ParseHexByte(ByteDigits(b)) == b
  {
  }

  /** Writing a parsed two-digit numeral gives the numeral back: the encoding is a bijection. */
  lemma ByteDigitsOfParse(s: string)
    requires |s| == 2 && AllHexDigits(s)
    ensures ByteDigits(ParseHexByte(s)) == s
  {
    var hi, lo := DigitValue(s[0]), DigitValue(s[1]);
    NibbleSplit(hi, lo);
    assert s == [HexDigit(hi), HexDigit(lo)];
  }
}
