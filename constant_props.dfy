/**
 * What `read_const` takes and what it makes of it: the run it takes is the
 * unique maximal one, and with the built-in classifier the run is plain ASCII,
 * so the UTF-8 check never fails and an accepted constant is a plain decimal.
 */
module ConstantProps {
  import opened Bytes
  import opened Optional
  import opened Errors
  import opened Grammar
  import opened Cursor
  import opened FloatSyntax
  import Utf8
  import opened Parsing

  /** A run accepted byte by byte and followed by a rejected byte (or the end) is where the run ends. */
  lemma {:induction false} ConstRunEndAt(p: Parser, s: seq<byte>, i: nat, n: nat)
    requires i <= n <= |s|
    requires forall j :: i <= j < n ==> CallIsConstByte(p, Some(s[j]), j)
    requires !CallIsConstByte(p, Peek(s, n), n)
    ensures ConstRunEnd(p, s, i) == n
    decreases n - i
  {
    if i < n {
      assert Peek(s, i) == Some(s[i]);
      ConstRunEndAt(p, s, i + 1, n);
    }
  }

  /**
   * The converse of `ConstReadRun`: a run whose every byte is accepted, followed
   * by input whose first byte is rejected, is exactly what `read_const` takes.
   */
  lemma ConstReadOf(p: Parser, run: seq<byte>, t: seq<byte>)
    requires forall j :: 0 <= j < |run| ==> CallIsConstByte(p, Some(run[j]), j)
    requires !CallIsConstByte(p, Peek(t, 0), |run|)
    ensures ConstRead(p, run + t) == (ConstantOf(run), t)
  {
    var s := run + t;
    assert forall j :: 0 <= j < |run| ==> s[j] == run[j];
    assert Peek(s, |run|) == Peek(t, 0);
    ConstRunEndAt(p, s, 0, |run|);
    assert s[..|run|] == run && s[|run|..] == t;
  }

  /** The built-in classifier accepts digits and '.', and unit letters after the first byte. */
  lemma DefaultRunBytes(s: seq<byte>)
    ensures var n := |s| - |ConstRead(DefaultParser, s).1|;
            forall j :: 0 <= j < n ==> IsDigit(s[j]) || s[j] == '.' as byte || (j > 0 && IsUnitByte(s[j]))
  {
    ConstReadRun(DefaultParser, s);
  }

  /** With the built-in classifier the UTF-8 check never fails: the run is ASCII. */
  lemma DefaultNoUtf8Error(s: seq<byte>)
    ensures ConstRead(DefaultParser, s).0 != Err(New(Utf8Error))
  {
    var n := ConstRunEnd(DefaultParser, s, 0);
    var text := SplitUnit(s[..n]).0;
    assert Utf8.Valid(text) by {
      DefaultRunAscii(s);
      assert forall i :: 0 <= i < |text| ==> text[i] == s[i];
      Utf8.AsciiIsValid(text);
    }
    assert ConstRead(DefaultParser, s).0 == ConstantOf(s[..n]);
  }

  lemma DefaultRunAscii(s: seq<byte>)
    ensures forall j :: 0 <= j < ConstRunEnd(DefaultParser, s, 0) ==> IsAscii(s[j])
  {
    DefaultRunBytes(s);
  }

  /**
   * Whitespace is never part of a token: the built-in classifiers reject it at
   * every position, it is not a unit letter, and no operator starts with it.
   * Skipping it therefore never loses a token.
   */
  lemma SpaceStartsNoToken(b: byte, i: nat, t: seq<byte>)
    requires IsSpace(b)
    ensures !DefaultIsConstByte(b, i) && !DefaultIsVarByte(b, i) && !IsUnitByte(b)
    ensures !OpPeek([b] + t)
  {
    assert ([b] + t)[0] == b;
  }

  /** Text with no exponent mark is its own mantissa part. */
  lemma NoExponent(t: seq<byte>)
    requires forall i :: 0 <= i < |t| ==> !IsExpMark(t[i])
    ensures ExpStart(t, 0) == |t|
  {
  }

  /** A float literal made of digits, '.' and unit letters only is a plain decimal. */
  lemma DecimalBytesLiteral(t: seq<byte>)
    requires forall i :: 0 <= i < |t| ==> IsDigit(t[i]) || t[i] == '.' as byte || IsUnitByte(t[i])
    requires |t| > 0 ==> IsDigit(t[0]) || t[0] == '.' as byte
    requires IsFloatLiteral(t)
    ensures IsMantissa(t)
  {
    assert !SpellsIgnoringCase(t, "inf") && !SpellsIgnoringCase(t, "infinity") && !SpellsIgnoringCase(t, "nan") by {
      if |t| > 0 {
        assert ToAsciiLower(t[0]) == t[0];
      }
    }
    NoExponent(t);
    assert t[..|t|] == t;
  }

  /**
   * With the built-in classifier an accepted constant is a plain decimal
   * (`12`, `1.5`, `.5`, `3.`): no sign, no exponent, no "inf" or "nan", so its
   * exact value `ConstantValue` is defined.
   */
  lemma DefaultConstantIsDecimal(s: seq<byte>)
    requires ConstRead(DefaultParser, s).0.Ok?
    ensures IsMantissa(ConstRead(DefaultParser, s).0.value.text)
  {
    var (c, rest) := ConstRead(DefaultParser, s);
    var n := |s| - |rest|;
    DefaultRunBytes(s);
    ConstReadRun(DefaultParser, s);
    var t := c.value.text;
    assert forall i :: 0 <= i < |t| ==> t[i] == s[i];
    DecimalBytesLiteral(t);
  }

  /** The two built-in classifiers never both accept a first byte: a token's first byte decides whether it is a constant or a name. */
  lemma DefaultClassesDisjoint(b: byte)
    ensures !(DefaultIsConstByte(b, 0) && DefaultIsVarByte(b, 0))
  {
  }

  /**
   * A decimal made of digits and '.' is read by the built-in classifier as one
   * constant of scale 1, provided the next byte cannot extend it.
   */
  lemma DecimalValueRead(num: seq<byte>, t: seq<byte>)
    requires |num| > 0 && forall j :: 0 <= j < |num| ==> IsDigit(num[j]) || num[j] == '.' as byte
    requires IsFloatLiteral(num)
    requires !CallIsConstByte(DefaultParser, Peek(t, 0), |num|)
    ensures ValueRead(DefaultParser, num + t) == (Ok(EConstant(Constant(num, 1))), t)
  {
    ConstReadOf(DefaultParser, num, t);
    assert SplitUnit(num) == (num, 1);
    Utf8.AsciiIsValid(num);
    assert (num + t)[0] == num[0];
  }
}
