/**
 * The behaviour the parser's own unit tests check, stated on the model: the
 * cursor primitives on small inputs, the classifier hooks, `read_value` on
 * "12.34" and `parse` on "12.34 + 43.21 + 11.11", plus the unit suffix and the
 * error cases.
 */
module ParserExamples {
  import opened Bytes
  import opened Optional
  import opened Errors
  import opened Grammar
  import opened Cursor
  import opened FloatSyntax
  import Utf8
  import opened Parsing
  import OperatorProps
  import ConstantProps
  import ExpressionProps

  // ---------------------------------------------------------------------------
  // Cursor primitives

  method ReadThree() returns (a: Result<byte>, b: Result<byte>, c: Result<byte>, d: Result<byte>, rest: seq<byte>)
    ensures a == Ok(1) && b == Ok(2) && c == Ok(3)
    ensures d == Err(New(Eof)) && rest == []
  {
    var bs: seq<byte> := [1, 2, 3];
    assert Peek(bs, 0) == Some(1) && Peek(bs, 1) == Some(2) && Peek(bs, 2) == Some(3) && Peek(bs, 3) == None;
    a, bs := Read(bs);
    b, bs := Read(bs);
    c, bs := Read(bs);
    d, rest := Read(bs);
  }

  lemma SpaceClasses()
    ensures IsAtEof([]) && !IsAtEof([1])
    ensures IsSpace(' ' as byte) && IsSpace('\t' as byte) && IsSpace('\r' as byte) && IsSpace('\n' as byte)
    ensures !IsSpace('a' as byte) && !IsSpace('1' as byte) && !IsSpace('.' as byte)
  {
  }

  method SpaceExample() returns (rest: seq<byte>)
    ensures rest == Ascii("abc 123   ")
  {
    var body := Ascii("abc 123   ");
    var ws: seq<byte> := [' ' as byte, ' ' as byte];
    SkipSpacePrefix(ws, body);
    SkipSpaceOfSpaced(body);
    rest := Space(ws + body);
  }

  // ---------------------------------------------------------------------------
  // Classifier hooks

  lemma DefaultClassifiers()
    ensures CallIsFuncByte(DefaultParser, Some('a' as byte), 0)
    ensures CallIsVarByte(DefaultParser, Some('a' as byte), 0)
    ensures !CallIsConstByte(DefaultParser, Some('a' as byte), 0)
  {
  }

  /** A hook that accepts every byte. */
  const AcceptAll: Parser := Parser(Some((b, i) => true), None, None)

  lemma ConstHook()
    ensures CallIsConstByte(AcceptAll, Some('a' as byte), 0)
  {
  }

  // ---------------------------------------------------------------------------
  // Constants

  /** A plain decimal `int.frac` is a float literal, and its value is `int + frac / 10^|frac|`. */
  lemma DecimalParts(s: seq<byte>, a: seq<byte>, b: seq<byte>)
    requires s == a + ['.' as byte] + b
    requires |a| > 0 && AllDigits(a) && AllDigits(b)
    ensures IsFloatLiteral(s) && IsMantissa(s)
    ensures PlainDecimalValue(s) == DigitsValue(a) as real + DigitsValue(b) as real / Pow10(|b|) as real
  {
    DecimalMantissa(s, a, b);
    MantissaIsLiteral(s);
    DecimalValue(s, a, b);
  }

  lemma DecimalMantissa(s: seq<byte>, a: seq<byte>, b: seq<byte>)
    requires s == a + ['.' as byte] + b
    requires |a| > 0 && AllDigits(a) && AllDigits(b)
    ensures DigitRunEnd(s, 0) == |a| && IsMantissa(s)
    ensures IsDigit(s[0]) && forall i :: 0 <= i < |s| ==> IsDigit(s[i]) || s[i] == '.' as byte
  {
    assert forall i :: 0 <= i < |a| ==> s[i] == a[i];
    assert s[|a|] == '.' as byte;
    assert forall i :: |a| < i < |s| ==> s[i] == b[i - |a| - 1];
    DigitRunFrom(s, 0, |a|);
    DigitRunFrom(s, |a| + 1, |s|);
  }

  lemma DecimalValue(s: seq<byte>, a: seq<byte>, b: seq<byte>)
    requires s == a + ['.' as byte] + b
    requires IsMantissa(s) && DigitRunEnd(s, 0) == |a| && AllDigits(a) && AllDigits(b)
    ensures PlainDecimalValue(s) == DigitsValue(a) as real + DigitsValue(b) as real / Pow10(|b|) as real
  {
    var k := DigitRunEnd(s, 0);
    assert s[..k] == a && s[k + 1..] == b && |s| - k - 1 == |b|;
    calc {
      PlainDecimalValue(s);
      DigitsValue(s[..k]) as real + DigitsValue(s[k + 1..]) as real / Pow10(|s| - k - 1) as real;
      DigitsValue(a) as real + DigitsValue(b) as real / Pow10(|b|) as real;
    }
  }

  /** A mantissa that starts with a digit and has no exponent mark is a float literal. */
  lemma MantissaIsLiteral(s: seq<byte>)
    requires IsMantissa(s) && |s| > 0 && IsDigit(s[0])
    requires forall i :: 0 <= i < |s| ==> IsDigit(s[i]) || s[i] == '.' as byte
    ensures IsFloatLiteral(s)
  {
    ConstantProps.NoExponent(s);
    assert s[..|s|] == s;
    assert ToAsciiLower(s[0]) == s[0];
  }

  /** A run of digits from `i` to `n` followed by a non-digit (or the end) ends at `n`. */
  lemma {:induction false} DigitRunFrom(s: seq<byte>, i: nat, n: nat)
    requires i <= n <= |s|
    requires forall j :: i <= j < n ==> IsDigit(s[j])
    requires n == |s| || !IsDigit(s[n])
    ensures DigitRunEnd(s, i) == n
    decreases n - i
  {
    if i < n {
      DigitRunFrom(s, i + 1, n);
    }
  }

  /** The value of a two-digit numeral. */
  lemma TwoDigits(x: byte, y: byte)
    requires IsDigit(x) && IsDigit(y)
    ensures DigitsValue([x, y]) == 10 * (x - '0' as byte) as nat + (y - '0' as byte) as nat
  {
    assert DigitsValue([x]) == (x - '0' as byte) as nat by {
      assert [x][..0] == [];
    }
    assert [x, y][..1] == [x];
  }

  // The numerals of the parser's tests: "12.34", "43.21" and "11.11".
  const Text1234: seq<byte> := ['1' as byte, '2' as byte, '.' as byte, '3' as byte, '4' as byte]
  const Text4321: seq<byte> := ['4' as byte, '3' as byte, '.' as byte, '2' as byte, '1' as byte]
  const Text1111: seq<byte> := ['1' as byte, '1' as byte, '.' as byte, '1' as byte, '1' as byte]

  /** " + " */
  const Plus: seq<byte> := [' ' as byte, '+' as byte, ' ' as byte]

  /** `dd.dd` */
  predicate IsNumeral(s: seq<byte>)
  {
    |s| == 5 && s[2] == '.' as byte && IsDigit(s[0]) && IsDigit(s[1]) && IsDigit(s[3]) && IsDigit(s[4])
  }

  function DigitOf(b: byte): nat
    requires IsDigit(b)
  {
    (b - '0' as byte) as nat
  }

  /** A `dd.dd` numeral is a float literal with the value its digits spell. */
  lemma Numeral(s: seq<byte>)
    requires IsNumeral(s)
    ensures IsFloatLiteral(s) && IsMantissa(s)
    ensures PlainDecimalValue(s)
         == (10 * DigitOf(s[0]) + DigitOf(s[1])) as real + (10 * DigitOf(s[3]) + DigitOf(s[4])) as real / 100.0
  {
    var a, b := [s[0], s[1]], [s[3], s[4]];
    assert s == a + ['.' as byte] + b;
    DecimalParts(s, a, b);
    TwoDigits(s[0], s[1]);
    TwoDigits(s[3], s[4]);
    assert Pow10(2) == 100;
  }

  /** The values of the test numerals. */
  lemma NumeralValues()
    ensures IsMantissa(Text1234) && PlainDecimalValue(Text1234) == 12.34
    ensures IsMantissa(Text4321) && PlainDecimalValue(Text4321) == 43.21
    ensures IsMantissa(Text1111) && PlainDecimalValue(Text1111) == 11.11
  {
    assert IsMantissa(Text1234) && PlainDecimalValue(Text1234) == 12.34 by {
      Numeral(Text1234);
    }
    assert IsMantissa(Text4321) && PlainDecimalValue(Text4321) == 43.21 by {
      Numeral(Text4321);
    }
    assert IsMantissa(Text1111) && PlainDecimalValue(Text1111) == 11.11 by {
      Numeral(Text1111);
    }
  }

  /** `read_value` on "12.34" gives the constant 12.34 and consumes everything. */
  lemma ReadValueDecimal()
    ensures ValueRead(DefaultParser, Text1234) == (Ok(EConstant(Constant(Text1234, 1))), [])
    ensures IsMantissa(Text1234) && ConstantValue(Constant(Text1234, 1)) == 12.34
  {
    NumeralRead(Text1234, []);
    assert Text1234 + [] == Text1234;
    NumeralValues();
  }

  method ReadValueExample() returns (v: Result<Value>, rest: seq<byte>)
    ensures v == Ok(EConstant(Constant(Text1234, 1))) && rest == []
  {
    ReadValueDecimal();
    SkipSpaceOfSpaced(Text1234);
    v, rest := ReadValue(DefaultParser, Text1234);
  }

  /** One turn of the operator/value loop on " + " followed by a value. */
  lemma PlusValue(p: Parser, u: seq<byte>, v: Value, t: seq<byte>, acc: seq<ExpressionTok>)
    requires Spaced(u)
    requires ValueRead(p, u) == (Ok(v), t)
    ensures ChainRead(p, Plus + u, acc) == ChainRead(p, t, acc + [EBinaryOp(EPlus), EValue(v)])
  {
    PlusRead(u);
    ExpressionProps.ChainTurn(p, Plus + u, EPlus, [' ' as byte] + u, v, t, acc);
  }

  /** " + " before a spaced cursor reads as `+`, and the space after it is skipped. */
  lemma PlusRead(u: seq<byte>)
    requires Spaced(u)
    ensures OpRead(SkipSpace(Plus + u)) == (Ok(EPlus), [' ' as byte] + u)
    ensures SkipSpace([' ' as byte] + u) == u
  {
    var t1 := [' ' as byte] + u;
    var s := Spelling(EPlus) + t1;
    assert SkipSpace(Plus + u) == s by {
      assert Plus + u == [' ' as byte] + s;
      SkipSpacePrefix([' ' as byte], s);
      SkipSpaceOfSpaced(s);
    }
    OperatorProps.OpReadRoundTrip(EPlus, t1);
    SkipSpacePrefix([' ' as byte], u);
    SkipSpaceOfSpaced(u);
  }

  /** `parse` on three `dd.dd` numerals joined by " + ". */
  lemma ParseSumOf(n1: seq<byte>, n2: seq<byte>, n3: seq<byte>)
    requires IsNumeral(n1) && IsNumeral(n2) && IsNumeral(n3)
    ensures ExpressionRead(DefaultParser, n1 + Plus + n2 + Plus + n3, true).0
         == Ok(Expression([EValue(EConstant(Constant(n1, 1))), EBinaryOp(EPlus),
                           EValue(EConstant(Constant(n2, 1))), EBinaryOp(EPlus),
                           EValue(EConstant(Constant(n3, 1)))]))
  {
    var v1, v2, v3 := EConstant(Constant(n1, 1)), EConstant(Constant(n2, 1)), EConstant(Constant(n3, 1));
    var u2 := SumValues(n1, n2, n3);
    SumChain(DefaultParser, u2, n3, v1, v2, v3);
    ExpressionOf(DefaultParser, n1 + Plus + n2 + Plus + n3, v1, Plus + u2,
                 [EValue(v1), EBinaryOp(EPlus), EValue(v2), EBinaryOp(EPlus), EValue(v3)], [], true);
  }

  /** The three values of the sum, each followed by " + " or the end. */
  lemma SumValues(n1: seq<byte>, n2: seq<byte>, n3: seq<byte>) returns (u2: seq<byte>)
    requires IsNumeral(n1) && IsNumeral(n2) && IsNumeral(n3)
    ensures var text := n1 + Plus + n2 + Plus + n3;
            SkipSpace(text) == text
            && ValueRead(DefaultParser, text) == (Ok(EConstant(Constant(n1, 1))), Plus + u2)
            && Spaced(u2) && ValueRead(DefaultParser, u2) == (Ok(EConstant(Constant(n2, 1))), Plus + n3)
            && Spaced(n3) && ValueRead(DefaultParser, n3) == (Ok(EConstant(Constant(n3, 1))), [])
  {
    u2 := n2 + Plus + n3;
    var text := n1 + Plus + u2;
    assert text == n1 + Plus + n2 + Plus + n3;
    assert text == n1 + (Plus + u2);
    NumeralRead(n1, Plus + u2);
    SkipSpaceOfSpaced(text);
    assert u2 == n2 + (Plus + n3);
    NumeralRead(n2, Plus + n3);
    assert n3 + [] == n3;
    NumeralRead(n3, []);
  }

  /** The chain " + v2 + v3" after the first value. */
  lemma SumChain(p: Parser, u2: seq<byte>, n3: seq<byte>, v1: Value, v2: Value, v3: Value)
    requires Spaced(u2) && ValueRead(p, u2) == (Ok(v2), Plus + n3)
    requires Spaced(n3) && ValueRead(p, n3) == (Ok(v3), [])
    ensures ChainRead(p, Plus + u2, [EValue(v1)])
         == (Ok([EValue(v1), EBinaryOp(EPlus), EValue(v2), EBinaryOp(EPlus), EValue(v3)]), [])
  {
    var acc2 := [EValue(v1)] + [EBinaryOp(EPlus), EValue(v2)];
    var acc3 := acc2 + [EBinaryOp(EPlus), EValue(v3)];
    PlusValue(p, u2, v2, Plus + n3, [EValue(v1)]);
    PlusValue(p, n3, v3, [], acc2);
    assert ChainRead(p, [], acc3) == (Ok(acc3), []);
    FiveTokens(EValue(v1), EBinaryOp(EPlus), EValue(v2), EBinaryOp(EPlus), EValue(v3));
  }

  lemma FiveTokens(a: ExpressionTok, b: ExpressionTok, c: ExpressionTok, d: ExpressionTok, e: ExpressionTok)
    ensures [a] + [b, c] + [d, e] == [a, b, c, d, e]
  {
  }

  /**
   * A value, then an operator/value chain that stops at a spaced cursor, is the
   * expression; with `expect_eof`, it is an error unless nothing is left.
   */
  lemma ExpressionOf(p: Parser, bs: seq<byte>, v: Value, r1: seq<byte>, toks: seq<ExpressionTok>, rest: seq<byte>, expectEof: bool)
    requires ValueRead(p, SkipSpace(bs)) == (Ok(v), r1)
    requires ChainRead(p, r1, [EValue(v)]) == (Ok(toks), rest)
    requires Spaced(rest)
    ensures ExpressionRead(p, bs, expectEof)
         == if expectEof && rest != [] then (Err(New(UnparsedTokensRemaining)), rest) else (Ok(Expression(toks)), rest)
  {
    SkipSpaceOfSpaced(rest);
  }

  /** `parse` on "12.34 + 43.21 + 11.11". */
  lemma ParseSum()
    ensures ExpressionRead(DefaultParser, Text1234 + Plus + Text4321 + Plus + Text1111, true).0
         == Ok(Expression([EValue(EConstant(Constant(Text1234, 1))), EBinaryOp(EPlus),
                           EValue(EConstant(Constant(Text4321, 1))), EBinaryOp(EPlus),
                           EValue(EConstant(Constant(Text1111, 1)))]))
  {
    ParseSumOf(Text1234, Text4321, Text1111);
  }

  /** A `dd.dd` numeral is read by the built-in classifier as one constant of scale 1 when a space or the end follows it. */
  lemma NumeralRead(s: seq<byte>, t: seq<byte>)
    requires IsNumeral(s)
    requires t == [] || t[0] == ' ' as byte
    ensures Spaced(s + t)
    ensures ValueRead(DefaultParser, s + t) == (Ok(EConstant(Constant(s, 1))), t)
  {
    Numeral(s);
    assert (s + t)[0] == s[0];
    ConstantProps.DecimalValueRead(s, t);
  }

  method ParseExample() returns (r: Result<Expression>)
    ensures r == Ok(Expression([EValue(EConstant(Constant(Text1234, 1))), EBinaryOp(EPlus),
                                EValue(EConstant(Constant(Text4321, 1))), EBinaryOp(EPlus),
                                EValue(EConstant(Constant(Text1111, 1)))]))
  {
    var text := Text1234 + Plus + Text4321 + Plus + Text1111;
    Utf8.AsciiIsValid(text);
    ParseSum();
    r := Parse(DefaultParser, text);
  }

  /** A single digit is a float literal whose value is that digit. */
  lemma DigitLiteral(d: byte)
    requires IsDigit(d)
    ensures IsFloatLiteral([d]) && IsMantissa([d]) && PlainDecimalValue([d]) == DigitOf(d) as real
  {
    assert DigitRunEnd([d], 0) == 1;
    assert ExpStart([d], 0) == 1;
    assert [d][..1] == [d];
    assert DigitsValue([d]) == DigitOf(d) by {
      assert [d][..0] == [];
    }
  }

  /** A digit is read by the built-in classifier as one constant of scale 1 when a space or the end follows it. */
  lemma DigitRead(d: byte, t: seq<byte>)
    requires IsDigit(d)
    requires t == [] || t[0] == ' ' as byte
    ensures Spaced([d] + t)
    ensures ValueRead(DefaultParser, [d] + t) == (Ok(EConstant(Constant([d], 1))), t)
  {
    DigitLiteral(d);
    assert ([d] + t)[0] == d;
    ConstantProps.DecimalValueRead([d], t);
  }

  /**
   * "1+2", "1 + 2" and "1\t+\n2" parse alike: whitespace between the tokens
   * does not matter.
   */
  lemma OperatorSpacing(d1: byte, d2: byte, expectEof: bool)
    requires IsDigit(d1) && IsDigit(d2)
    ensures ExpressionRead(DefaultParser, [d1] + Plus + [d2], expectEof)
         == ExpressionRead(DefaultParser, [d1, '+' as byte, d2], expectEof)
    ensures ExpressionRead(DefaultParser, [d1, '\t' as byte, '+' as byte, '\n' as byte, d2], expectEof)
         == ExpressionRead(DefaultParser, [d1, '+' as byte, d2], expectEof)
  {
    var sp, tab, nl := [' ' as byte], ['\t' as byte], ['\n' as byte];
    assert [d1] + sp + ['+' as byte] + sp + [d2] == [d1] + Plus + [d2];
    SpacedSum(d1, d2, sp, sp, expectEof);
    assert [d1] + tab + ['+' as byte] + nl + [d2] == [d1, '\t' as byte, '+' as byte, '\n' as byte, d2];
    SpacedSum(d1, d2, tab, nl, expectEof);
  }

  /** Any whitespace around the `+` of a two-digit sum leaves the parse unchanged. */
  lemma SpacedSum(d1: byte, d2: byte, ws1: seq<byte>, ws2: seq<byte>, expectEof: bool)
    requires IsDigit(d1) && IsDigit(d2)
    requires forall i :: 0 <= i < |ws1| ==> IsSpace(ws1[i])
    requires forall i :: 0 <= i < |ws2| ==> IsSpace(ws2[i])
    ensures ExpressionRead(DefaultParser, [d1] + ws1 + ['+' as byte] + ws2 + [d2], expectEof)
         == ExpressionRead(DefaultParser, [d1, '+' as byte, d2], expectEof)
  {
    var p := DefaultParser;
    var x := ws1 + Spelling(EPlus) + ws2 + [d2];
    var y := Spelling(EPlus) + [d2];
    assert [d1] + ws1 + ['+' as byte] + ws2 + [d2] == [d1] + x;
    assert [d1, '+' as byte, d2] == [d1] + y;
    assert x[0] == if |ws1| > 0 then ws1[0] else '+' as byte;
    DigitLiteral(d1);
    ConstantProps.DecimalValueRead([d1], x);
    ConstantProps.DecimalValueRead([d1], y);
    assert ([d1] + x)[0] == d1 && ([d1] + y)[0] == d1;
    SkipSpaceOfSpaced([d1] + x);
    SkipSpaceOfSpaced([d1] + y);
    ExpressionProps.SpaceAroundOperator(p, ws1, EPlus, ws2, [d2], [EValue(EConstant(Constant([d1], 1)))]);
  }

  /** " x" and what is left of it after whitespace skipping. */
  const SpaceX: seq<byte> := [' ' as byte, 'x' as byte]
  const JustX: seq<byte> := ['x' as byte]

  /**
   * "1 + 2 x": the sum is read and "x" is left over, which `parse` (with
   * `expect_eof`) reports as "unparsed tokens remaining".
   */
  lemma TrailingTokens(d1: byte, d2: byte)
    requires IsDigit(d1) && IsDigit(d2)
    ensures var v1, v2 := EConstant(Constant([d1], 1)), EConstant(Constant([d2], 1));
            ExpressionRead(DefaultParser, [d1] + Plus + [d2] + SpaceX, false)
              == (Ok(Expression([EValue(v1), EBinaryOp(EPlus), EValue(v2)])), JustX)
    ensures ExpressionRead(DefaultParser, [d1] + Plus + [d2] + SpaceX, true).0 == Err(New(UnparsedTokensRemaining))
  {
    var text := [d1] + Plus + [d2] + SpaceX;
    var v1, v2 := EConstant(Constant([d1], 1)), EConstant(Constant([d2], 1));
    var toks := [EValue(v1), EBinaryOp(EPlus), EValue(v2)];
    var r1 := TrailingChain(d1, d2);
    assert Spaced(JustX);
    ExpressionOf(DefaultParser, text, v1, r1, toks, JustX, false);
    ExpressionOf(DefaultParser, text, v1, r1, toks, JustX, true);
  }

  /** The steps of "1 + 2 x": the first value, then one turn of the loop that stops before "x". */
  lemma TrailingChain(d1: byte, d2: byte) returns (r1: seq<byte>)
    requires IsDigit(d1) && IsDigit(d2)
    ensures var text := [d1] + Plus + [d2] + SpaceX;
            var v1, v2 := EConstant(Constant([d1], 1)), EConstant(Constant([d2], 1));
            SkipSpace(text) == text && ValueRead(DefaultParser, text) == (Ok(v1), r1)
            && ChainRead(DefaultParser, r1, [EValue(v1)]) == (Ok([EValue(v1), EBinaryOp(EPlus), EValue(v2)]), JustX)
  {
    var p := DefaultParser;
    var v1, v2 := EConstant(Constant([d1], 1)), EConstant(Constant([d2], 1));
    var u2 := [d2] + SpaceX;
    r1 := Plus + u2;
    var text := [d1] + r1;
    assert text == [d1] + Plus + [d2] + SpaceX;
    DigitRead(d1, r1);
    SkipSpaceOfSpaced(text);
    DigitRead(d2, SpaceX);
    assert ChainRead(p, SpaceX, [EValue(v1)] + [EBinaryOp(EPlus), EValue(v2)])
        == (Ok([EValue(v1)] + [EBinaryOp(EPlus), EValue(v2)]), JustX) by {
      assert SkipSpace(SpaceX) == JustX;
    }
    PlusValue(p, u2, v2, SpaceX, [EValue(v1)]);
    assert [EValue(v1)] + [EBinaryOp(EPlus), EValue(v2)] == [EValue(v1), EBinaryOp(EPlus), EValue(v2)];
  }

  /** "1 +": an operator with no value after it fails with "InvalidValue" under "read_value". */
  lemma DanglingOperator(d: byte)
    requires IsDigit(d)
    ensures ExpressionRead(DefaultParser, [d] + [' ' as byte, '+' as byte], true).0 == Err(Error(InvalidValue, [InReadValue]))
  {
    var p := DefaultParser;
    var t := [' ' as byte, '+' as byte];
    DigitRead(d, t);
    SkipSpaceOfSpaced([d] + t);
    assert SkipSpace(t) == ['+' as byte];
    assert OpRead(['+' as byte]) == (Ok(EPlus), []);
    assert ValueRead(p, SkipSpace([])) == (Err(New(InvalidValue)), []);
    assert ChainRead(p, t, [EValue(EConstant(Constant([d], 1)))]).0 == Err(Error(InvalidValue, [InReadValue]));
  }

  /** A trailing unit letter is removed and scales the value: "1k" is 1 * 1000. */
  lemma UnitSuffix()
    ensures var (c, rest) := ConstRead(DefaultParser, Ascii("1k"));
            rest == [] && c == Ok(Constant(Ascii("1"), 1000)) && ConstantValue(c.value) == 1000.0
  {
    var s := Ascii("1k");
    ConstantProps.ConstReadOf(DefaultParser, s, []);
    assert s + [] == s;
    assert s[..1] == Ascii("1");
    Utf8.AsciiIsValid(Ascii("1"));
    assert DigitRunEnd(Ascii("1"), 0) == 1;
    assert ExpStart(Ascii("1"), 0) == 1;
  }

  /** A digit followed by a unit letter is that digit scaled by the unit. */
  lemma DigitUnit(d: byte, u: byte)
    requires IsDigit(d) && IsUnitByte(u)
    ensures var (c, rest) := ConstRead(DefaultParser, [d, u]);
            rest == [] && c == Ok(Constant([d], UnitScale(u)))
            && ConstantValue(c.value) == (DigitOf(d) * UnitScale(u)) as real
  {
    var s := [d, u];
    ConstantProps.ConstReadOf(DefaultParser, s, []);
    assert s + [] == s;
    assert s[..1] == [d];
    DigitLiteral(d);
    Utf8.AsciiIsValid([d]);
  }

  /** "2M", "3G" and "4T" scale by 10^6, 10^9 and 10^12; "5" has no unit and scale 1. */
  lemma UnitExamples()
    ensures ConstRead(DefaultParser, ['2' as byte, 'M' as byte]) == (Ok(Constant(['2' as byte], 1000000)), [])
    ensures ConstRead(DefaultParser, ['3' as byte, 'G' as byte]) == (Ok(Constant(['3' as byte], 1000000000)), [])
    ensures ConstRead(DefaultParser, ['4' as byte, 'T' as byte]) == (Ok(Constant(['4' as byte], 1000000000000)), [])
    ensures ConstRead(DefaultParser, ['5' as byte]) == (Ok(Constant(['5' as byte], 1)), [])
  {
    DigitUnit('2' as byte, 'M' as byte);
    DigitUnit('3' as byte, 'G' as byte);
    DigitUnit('4' as byte, 'T' as byte);
    SingleDigit('5' as byte);
  }

  /** A digit alone is a constant of scale 1. */
  lemma SingleDigit(d: byte)
    requires IsDigit(d)
    ensures ConstRead(DefaultParser, [d]) == (Ok(Constant([d], 1)), [])
  {
    ConstantProps.ConstReadOf(DefaultParser, [d], []);
    assert [d] + [] == [d];
    DigitLiteral(d);
    Utf8.AsciiIsValid([d]);
  }

  // ---------------------------------------------------------------------------
  // Conversion failures, reachable through a hook that accepts every byte

  lemma HookUtf8Error()
    ensures ValueRead(AcceptAll, [0xFF]).0 == Err(New(Utf8Error))
  {
    var s: seq<byte> := [0xFF];
    ConstantProps.ConstReadOf(AcceptAll, s, []);
    assert s + [] == s;
  }

  lemma HookParseF64Error()
    ensures ValueRead(AcceptAll, Ascii("x")).0 == Err(Error(ParseF64Error, [InText(Ascii("x"))]))
  {
    var s := Ascii("x");
    ConstantProps.ConstReadOf(AcceptAll, s, []);
    assert s + [] == s;
    Utf8.AsciiIsValid(s);
    assert DigitRunEnd(s, 0) == 0;
    assert ExpStart(s, 0) == 1;
    assert !SpellsIgnoringCase(s, "inf");
  }
}
