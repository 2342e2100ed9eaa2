/**
 * Well-formed UTF-8 as RFC 3629 section 4 defines it; `std::str::from_utf8`
 * accepts exactly these byte strings.
 */
module Utf8 {
  import opened Bytes

  predicate IsContinuation(b: byte)
  {
    0x80 <= b <= 0xBF
  }

  /** Length of the well-formed character encoding at the head of `s`, 0 when there is none. */
  function CharLen(s: seq<byte>): (n: nat)
    requires |s| > 0
    ensures n <= 4 && n <= |s|
  {
    var b0 := s[0];
    if b0 < 0x80 then 1
    else if 0xC2 <= b0 <= 0xDF then
      if |s| >= 2 && IsContinuation(s[1]) then 2 else 0
    else if b0 == 0xE0 then
      if |s| >= 3 && 0xA0 <= s[1] <= 0xBF && IsContinuation(s[2]) then 3 else 0
    else if 0xE1 <= b0 <= 0xEC || 0xEE <= b0 <= 0xEF then
      if |s| >= 3 && IsContinuation(s[1]) && IsContinuation(s[2]) then 3 else 0
    else if b0 == 0xED then
      if |s| >= 3 && 0x80 <= s[1] <= 0x9F && IsContinuation(s[2]) then 3 else 0
    else if b0 == 0xF0 then
      if |s| >= 4 && 0x90 <= s[1] <= 0xBF && IsContinuation(s[2]) && IsContinuation(s[3]) then 4 else 0
    else if 0xF1 <= b0 <= 0xF3 then
      if |s| >= 4 && IsContinuation(s[1]) && IsContinuation(s[2]) && IsContinuation(s[3]) then 4 else 0
    else if b0 == 0xF4 then
      if |s| >= 4 && 0x80 <= s[1] <= 0x8F && IsContinuation(s[2]) && IsContinuation(s[3]) then 4 else 0
    else 0
  }

  predicate Valid(s: seq<byte>)
    decreases |s|
  {
    |s| == 0 || (var n := CharLen(s); n > 0 && Valid(s[n..]))
  }

  /** Every ASCII byte string is well-formed UTF-8. */
  lemma {:induction false} AsciiIsValid(s: seq<byte>)
    requires forall i :: 0 <= i < |s| ==> IsAscii(s[i])
    ensures Valid(s)
  {
    if |s| > 0 {
      assert CharLen(s) == 1;
      AsciiIsValid(s[1..]);
    }
  }
}
