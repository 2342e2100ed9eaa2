/**
 * The text Rust's `f64::from_str` accepts (the grammar documented for `FromStr`
 * on `f64`):
 *
 *   Float    ::= Sign? ( 'inf' | 'infinity' | 'nan' | Number )
 *   Number   ::= ( Digit+ | Digit+ '.' Digit* | Digit* '.' Digit+ ) Exp?
 *   Exp      ::= 'e' Sign? Digit+
 *   Sign     ::= [+-]
 *
 * with letters matched case-insensitively. The binary value it rounds to is not
 * modelled; for plain decimals (a Number with no sign and no exponent) the exact
 * rational value is given by `PlainDecimalValue`.
 */
module FloatSyntax {
  import opened Bytes

  predicate IsSign(b: byte)
  {
    b == '+' as byte || b == '-' as byte
  }

  predicate IsExpMark(b: byte)
  {
    b == 'e' as byte || b == 'E' as byte
  }

  predicate AllDigits(s: seq<byte>)
  {
    forall i :: 0 <= i < |s| ==> IsDigit(s[i])
  }

  /** End of the run of digits that starts at `i`. */
  function DigitRunEnd(s: seq<byte>, i: nat): (r: nat)
    requires i <= |s|
    ensures i <= r <= |s|
    ensures forall j :: i <= j < r ==> IsDigit(s[j])
    ensures r == |s| || !IsDigit(s[r])
    decreases |s| - i
  {
    if i < |s| && IsDigit(s[i]) then DigitRunEnd(s, i + 1) else i
  }

  /** Index of the first exponent mark at or after `i`, or `|s|`. */
  function ExpStart(s: seq<byte>, i: nat): (r: nat)
    requires i <= |s|
    ensures i <= r <= |s|
    ensures forall j :: i <= j < r ==> !IsExpMark(s[j])
    ensures r == |s| || IsExpMark(s[r])
    decreases |s| - i
  {
    if i < |s| && !IsExpMark(s[i]) then ExpStart(s, i + 1) else i
  }

  /** `Digit+ | Digit+ '.' Digit* | Digit* '.' Digit+` */
  predicate IsMantissa(s: seq<byte>)
  {
    var k := DigitRunEnd(s, 0);
    (k == |s| && k > 0)
    || (k < |s| && s[k] == '.' as byte && DigitRunEnd(s, k + 1) == |s| && |s| > 1)
  }

  /** `'e' Sign? Digit+` */
  predicate IsExponent(s: seq<byte>)
  {
    |s| >= 2 && IsExpMark(s[0])
    && var t := if IsSign(s[1]) then s[2..] else s[1..];
       |t| > 0 && AllDigits(t)
  }

  predicate IsNumber(s: seq<byte>)
  {
    var j := ExpStart(s, 0);
    IsMantissa(s[..j]) && (j == |s| || IsExponent(s[j..]))
  }

  /** `t` spells the lower-case ASCII `word`, ignoring ASCII case. */
  predicate SpellsIgnoringCase(t: seq<byte>, word: string)
  {
    |t| == |word| && forall i :: 0 <= i < |t| ==> ToAsciiLower(t[i]) as int == word[i] as int
  }

  predicate IsFloatLiteral(s: seq<byte>)
  {
    var t := if |s| > 0 && IsSign(s[0]) then s[1..] else s;
    SpellsIgnoringCase(t, "inf") || SpellsIgnoringCase(t, "infinity") || SpellsIgnoringCase(t, "nan")
    || IsNumber(t)
  }

  /** Only non-empty text is a literal: the empty buffer always fails to convert. */
  lemma EmptyIsNotLiteral()
    ensures !IsFloatLiteral([])
  {
    assert DigitRunEnd([], 0) == 0;
  }

  function Pow10(n: nat): (r: nat)
    ensures r >= 1
  {
    if n == 0 then 1 else 10 * Pow10(n - 1)
  }

  /** The number a run of decimal digits denotes. */
  function DigitsValue(s: seq<byte>): nat
    requires AllDigits(s)
  {
    if |s| == 0 then 0
    else 10 * DigitsValue(s[..|s| - 1]) + (s[|s| - 1] - '0' as byte) as nat
  }

  /** The exact value of a plain decimal `int.frac`, before rounding to a double. */
  function PlainDecimalValue(s: seq<byte>): real
    requires IsMantissa(s)
  {
    var k := DigitRunEnd(s, 0);
    if k == |s| then DigitsValue(s) as real
    else DigitsValue(s[..k]) as real + DigitsValue(s[k + 1..]) as real / Pow10(|s| - k - 1) as real
  }
}
