/**
  The two views of a Qt `QString` that the core relies on: its length as
  `QString::length` reports it (UTF-16 code units) and the bytes that
  `QString::toUtf8` produces. A Dafny `char` is a Unicode scalar value, so a
  character above U+FFFF takes two UTF-16 code units and four UTF-8 bytes.
 */
module QtText {

  /** The number of UTF-16 code units one character takes. */
  function Utf16Units(c: char): (n: nat)
    ensures n == 1 || n == 2
  {
    if c as int >= 0x1_0000 then 2 else 1
  }

  /** `QString::length`: the number of UTF-16 code units of `s`. */
  function Utf16Length(s: string): (n: nat)
    ensures |s| <= n <= 2 * |s|
  {
    if s == [] then 0 else Utf16Units(s[0]) + Utf16Length(s[1..])
  }

  /** A string without characters above U+FFFF has one UTF-16 code unit per character. */
  lemma {:induction false} Utf16LengthOfBmp(s: string)
    requires forall i :: 0 <= i < |s| ==> s[i] as int < 0x1_0000
    ensures Utf16Length(s) == |s|
  {
    if s != [] {
      Utf16LengthOfBmp(s[1..]);
    }
  }

  /** The UTF-8 encoding of a scalar value of U+0080 or above: two to four bytes. */
  function Utf8MultiByte(v: int): (r: seq<bv8>)
    requires 0x80 <= v < 0x11_0000
    ensures 2 <= |r| <= 4
    ensures v >= 0x1_0000 ==> |r| == 4
  {
    if v < 0x800 then
      [(0xC0 + v / 0x40) as bv8, (0x80 + v % 0x40) as bv8]
    else if v < 0x1_0000 then
      [(0xE0 + v / 0x1000) as bv8, (0x80 + (v / 0x40) % 0x40) as bv8, (0x80 + v % 0x40) as bv8]
    else
      [(0xF0 + v / 0x4_0000) as bv8, (0x80 + (v / 0x1000) % 0x40) as bv8,
       (0x80 + (v / 0x40) % 0x40) as bv8, (0x80 + v % 0x40) as bv8]
  }

  /** The UTF-8 encoding of one Unicode scalar value. */
  function Utf8Char(c: char): (r: seq<bv8>)
    ensures 1 <= |r| <= 4
    ensures |r| >= Utf16Units(c)
    ensures (|r| == 1) == (c as int < 0x80)
    ensures |r| == 1 ==> r[0] == c as int as bv8
  {
    var v := c as int;
    if v < 0x80 then [v as bv8] else Utf8MultiByte(v)
  }

  /** `QString::toUtf8`: the UTF-8 encoding of `s`. */
  function Utf8(s: string): seq<bv8>
  {
    if s == [] then [] else Utf8Char(s[0]) + Utf8(s[1..])
  }

  /** Every UTF-16 code unit of a string costs at least one UTF-8 byte. */
  lemma {:induction false} Utf8CoversUtf16(s: string)
    ensures |Utf8(s)| >= Utf16Length(s)
  {
    if s != [] {
      Utf8CoversUtf16(s[1..]);
    }
  }

  /** An ASCII first character is also the first byte of the encoding. */
  lemma Utf8FirstAscii(s: string)
    requires s != [] && s[0] as int < 0x80
    ensures Utf8(s) != [] && Utf8(s)[0] == s[0] as int as bv8
  {
    assert Utf8(s) == Utf8Char(s[0]) + Utf8(s[1..]);
  }

  /** A string of ASCII characters encodes to one byte per character. */
  lemma {:induction false} Utf8LengthOfAscii(s: string)
    requires forall i :: 0 <= i < |s| ==> s[i] as int < 0x80
    ensures |Utf8(s)| == |s|
  {
    if s != [] {
      Utf8LengthOfAscii(s[1..]);
    }
  }
}
