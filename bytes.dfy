/** Bytes and the ASCII character classes the lexer tests. */
module Bytes {

  /** An unsigned 8-bit value, the element type of the lexer's input slice. */
  newtype byte = b: int | 0 <= b < 256

  predicate IsAsciiString(s: string)
  {
    forall i :: 0 <= i < |s| ==> s[i] as int < 128
  }

  /** The bytes of an ASCII string literal, one byte per character. */
  function Ascii(s: string): (r: seq<byte>)
    requires IsAsciiString(s)
    ensures |r| == |s|
    ensures forall i :: 0 <= i < |s| ==> r[i] as int == s[i] as int
    ensures forall i :: 0 <= i < |r| ==> IsAscii(r[i])
  {
    seq(|s|, i requires 0 <= i < |s| => s[i] as int as byte)
  }

  predicate IsAscii(b: byte)
  {
    b < 128
  }

  predicate IsDigit(b: byte)
  {
    '0' as byte <= b <= '9' as byte
  }

  predicate IsAsciiLetter(b: byte)
  {
    ('A' as byte <= b <= 'Z' as byte) || ('a' as byte <= b <= 'z' as byte)
  }

  /** ASCII lower-casing of one byte; every other byte is left as it is. */
  function ToAsciiLower(b: byte): byte
  {
    if 'A' as byte <= b <= 'Z' as byte then b + 32 else b
  }

}
