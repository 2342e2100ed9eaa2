/**
 * What a parse produces: a successful parse alternates values and operators
 * (N operators, 2N+1 tokens) and stops before anything that is not an operator;
 * a failed one reports either trailing tokens or a value failure under the
 * "read_value" context; `expect_eof` only adds the trailing-token check.
 */
module ExpressionProps {
  import opened Bytes
  import opened Errors
  import opened Grammar
  import opened Cursor
  import Utf8
  import FloatSyntax
  import opened Parsing
  import OperatorProps

  /** The failures `read_value` itself reports. */
  predicate IsValueError(e: Error)
  {
    e == New(InvalidValue) || e == New(Utf8Error)
    || (e.msg == ParseF64Error && |e.context| == 1 && e.context[0].InText?)
  }

  lemma ValueErrors(p: Parser, s: seq<byte>)
    ensures ValueRead(p, s).0.Err? ==> IsValueError(ValueRead(p, s).0.error)
  {
    if CallIsConstByte(p, Peek(s, 0), 0) {
      var run := s[..|s| - |ConstRead(p, s).1|];
      var text := SplitUnit(run).0;
      if Utf8.Valid(text) && !FloatSyntax.IsFloatLiteral(text) {
        assert ConstantOf(run) == Err(New(ParseF64Error).Pre(InText(text)));
      }
    }
  }

  /** Appending an operator and a value keeps a token sequence alternating. */
  lemma AppendPair(acc: seq<ExpressionTok>, op: BinaryOp, v: Value)
    requires Alternates(acc)
    ensures Alternates(acc + [EBinaryOp(op), EValue(v)])
  {
    var acc' := acc + [EBinaryOp(op), EValue(v)];
    forall i | 0 <= i < |acc'|
      ensures acc'[i].EValue? <==> i % 2 == 0
    {
      if i < |acc| {
        assert acc'[i] == acc[i];
      }
    }
  }

  /**
   * The operator/value loop: on success the tokens read so far are kept as a
   * prefix, the result still alternates, and the cursor is left spaced and not
   * at an operator; on failure the error carries the "read_value" context over
   * a value failure.
   */
  lemma {:induction false} ChainReadOutcome(p: Parser, bs: seq<byte>, acc: seq<ExpressionTok>)
    requires Alternates(acc)
    ensures var (r, rest) := ChainRead(p, bs, acc);
            (r.Ok? ==> acc <= r.value && Alternates(r.value) && Spaced(rest) && !OpPeek(rest))
            && (r.Err? ==> r.error.msg != UnparsedTokensRemaining && |r.error.context| > 0
                           && r.error.context[0] == InReadValue
                           && IsValueError(Error(r.error.msg, r.error.context[1..])))
    decreases |bs|
  {
    var s := SkipSpace(bs);
    if OpPeek(s) {
      PeekAgreesWithRead(s);
      var (op, r1) := OpRead(s);
      var s1 := SkipSpace(r1);
      var (v, r2) := ValueRead(p, s1);
      if v.Ok? {
        var acc' := acc + [EBinaryOp(op.value), EValue(v.value)];
        AppendPair(acc, op.value, v.value);
        ChainReadOutcome(p, r2, acc');
      } else {
        ValueErrors(p, s1);
        assert [InReadValue] + v.error.context == v.error.Pre(InReadValue).context;
      }
    }
  }

  /** The loop as `read_expression` starts it, after the first value. */
  lemma ChainFromValue(p: Parser, bs: seq<byte>, v: Value)
    ensures var (r, rest) := ChainRead(p, bs, [EValue(v)]);
            (r.Ok? ==> Alternates(r.value) && Spaced(rest) && !OpPeek(rest))
            && (r.Err? ==> |r.error.context| > 0 && r.error.context[0] == InReadValue
                           && IsValueError(Error(r.error.msg, r.error.context[1..])))
  {
    assert Alternates([EValue(v)]);
    ChainReadOutcome(p, bs, [EValue(v)]);
  }

  /** A successful parse alternates values and operators: N operators, 2N+1 tokens. */
  lemma ParseShape(p: Parser, bs: seq<byte>, expectEof: bool)
    ensures var (r, rest) := ExpressionRead(p, bs, expectEof);
            r.Ok? ==> Alternates(r.value.toks) && |r.value.toks| == 2 * OpCount(r.value.toks) + 1
                      && Spaced(rest) && !OpPeek(rest) && (expectEof ==> rest == [])
  {
    FromShape(p, SkipSpace(bs), expectEof);
    var r := ExpressionRead(p, bs, expectEof).0;
    if r.Ok? {
      AlternatingLength(r.value.toks);
    }
  }

  lemma FromShape(p: Parser, s: seq<byte>, expectEof: bool)
    ensures var (r, rest) := ExpressionFrom(p, s, expectEof);
            r.Ok? ==> Alternates(r.value.toks) && Spaced(rest) && !OpPeek(rest) && (expectEof ==> rest == [])
  {
    var (v, r1) := ValueRead(p, s);
    if v.Ok? {
      var (c, r2) := ChainRead(p, r1, [EValue(v.value)]);
      if c.Ok? {
        assert Alternates(c.value) && Spaced(r2) && !OpPeek(r2) by {
          ChainFromValue(p, r1, v.value);
        }
        SkipSpaceOfSpaced(r2);
        assert ExpressionFrom(p, s, expectEof)
            == if expectEof && !IsAtEof(r2) then (Err(New(UnparsedTokensRemaining)), r2)
               else (Ok(Expression(c.value)), r2);
      }
    }
  }

  /**
   * Every failure is either "UnparsedTokensRemaining" with no context, or a
   * `read_value` failure ("InvalidValue", "Utf8Error" or "ParseF64Error")
   * under the "read_value" context; the operator errors cannot surface.
   */
  lemma ParseErrors(p: Parser, bs: seq<byte>, expectEof: bool)
    ensures var r := ExpressionRead(p, bs, expectEof).0;
            r.Err? ==> r.error == New(UnparsedTokensRemaining)
                       || (|r.error.context| > 0 && r.error.context[0] == InReadValue
                           && IsValueError(Error(r.error.msg, r.error.context[1..])))
  {
    FromErrors(p, SkipSpace(bs), expectEof);
  }

  lemma FromErrors(p: Parser, s: seq<byte>, expectEof: bool)
    ensures var r := ExpressionFrom(p, s, expectEof).0;
            r.Err? ==> r.error == New(UnparsedTokensRemaining)
                       || (|r.error.context| > 0 && r.error.context[0] == InReadValue
                           && IsValueError(Error(r.error.msg, r.error.context[1..])))
  {
    var (v, r1) := ValueRead(p, s);
    if v.Ok? {
      var (c, r2) := ChainRead(p, r1, [EValue(v.value)]);
      if c.Err? {
        assert |c.error.context| > 0 && c.error.context[0] == InReadValue
               && IsValueError(Error(c.error.msg, c.error.context[1..])) by {
          ChainFromValue(p, r1, v.value);
        }
        assert ExpressionFrom(p, s, expectEof).0 == Err(c.error);
      }
    } else {
      ValueErrors(p, s);
      assert [InReadValue] + v.error.context == v.error.Pre(InReadValue).context;
    }
  }

  /** Text that cannot start a constant (after whitespace) fails with "InvalidValue" under "read_value". */
  lemma MissingValue(p: Parser, bs: seq<byte>, expectEof: bool)
    requires !CallIsConstByte(p, Peek(SkipSpace(bs), 0), 0)
    ensures ExpressionRead(p, bs, expectEof).0 == Err(Error(InvalidValue, [InReadValue]))
  {
    var s := SkipSpace(bs);
    assert ValueRead(p, s) == (Err(New(InvalidValue)), s);
    assert New(InvalidValue).Pre(InReadValue) == Error(InvalidValue, [InReadValue]);
  }

  /**
   * `expect_eof` changes nothing but the end: it turns a success that leaves
   * input into "UnparsedTokensRemaining"; the cursor ends in the same place.
   */
  lemma ExpectEof(p: Parser, bs: seq<byte>)
    ensures var (r, rest) := ExpressionRead(p, bs, false);
            ExpressionRead(p, bs, true)
              == (if r.Ok? && rest != [] then Err(New(UnparsedTokensRemaining)) else r, rest)
  {
  }

  /**
   * Once the value/operator chain has been read, `expect_eof` accepts exactly
   * when everything after it is whitespace (trailing whitespace alone is fine).
   */
  lemma TrailingInput(p: Parser, s: seq<byte>)
    ensures var (v, r1) := ValueRead(p, s);
            v.Ok? ==> var (c, r2) := ChainRead(p, r1, [EValue(v.value)]);
                      c.Ok? ==> (ExpressionFrom(p, s, true).0.Ok? <==> forall i :: 0 <= i < |r2| ==> IsSpace(r2[i]))
  {
    var (v, r1) := ValueRead(p, s);
    if v.Ok? {
      var (c, r2) := ChainRead(p, r1, [EValue(v.value)]);
      SkipSpaceEmpty(r2);
    }
  }

  /**
   * Whitespace on either side of an operator does not change the loop's
   * outcome, provided the operator, written without it, still reads as itself
   * (`<` or `>` directly followed by `=` would read as `<=` or `>=`).
   */
  lemma SpaceAroundOperator(p: Parser, ws1: seq<byte>, op: BinaryOp, ws2: seq<byte>, u: seq<byte>, acc: seq<ExpressionTok>)
    requires forall i :: 0 <= i < |ws1| ==> IsSpace(ws1[i])
    requires forall i :: 0 <= i < |ws2| ==> IsSpace(ws2[i])
    requires (op == ELT || op == EGT) ==> !PeekIs(u, 0, '=' as byte)
    ensures ChainRead(p, ws1 + Spelling(op) + ws2 + u, acc) == ChainRead(p, Spelling(op) + u, acc)
  {
    var s := Spelling(op) + (ws2 + u);
    assert ws1 + Spelling(op) + ws2 + u == ws1 + s;
    SpaceAfterOperator(p, op, ws2, u, acc);
    SkipSpacePrefix(ws1, s);
    SkipSpaceOfSpaced(s);
    ChainReadSkipsSpace(p, ws1 + s, acc);
  }

  /** The half of `SpaceAroundOperator` after the operator: the value is read after skipping whitespace. */
  lemma SpaceAfterOperator(p: Parser, op: BinaryOp, ws2: seq<byte>, u: seq<byte>, acc: seq<ExpressionTok>)
    requires forall i :: 0 <= i < |ws2| ==> IsSpace(ws2[i])
    requires (op == ELT || op == EGT) ==> !PeekIs(u, 0, '=' as byte)
    ensures Spaced(Spelling(op) + (ws2 + u))
    ensures ChainRead(p, Spelling(op) + (ws2 + u), acc) == ChainRead(p, Spelling(op) + u, acc)
  {
    var t := ws2 + u;
    if ws2 == [] {
      assert t == u;
    } else {
      assert t[0] == ws2[0];
    }
    SpacedOperator(op, t);
    SpacedOperator(op, u);
    SkipSpacePrefix(ws2, u);
  }

  /** An operator's spelling followed by `t` starts a spaced cursor at which the operator is read, leaving `t`. */
  lemma SpacedOperator(op: BinaryOp, t: seq<byte>)
    requires (op == ELT || op == EGT) ==> !PeekIs(t, 0, '=' as byte)
    ensures var s := Spelling(op) + t;
            Spaced(s) && SkipSpace(s) == s && OpPeek(s) && OpRead(s) == (Ok(op), t)
  {
    var s := Spelling(op) + t;
    assert s[0] == Spelling(op)[0];
    SkipSpaceOfSpaced(s);
    OperatorProps.OpReadRoundTrip(op, t);
    PeekAgreesWithRead(s);
  }

  /** The outcome depends on the input only through the cursor left after whitespace skipping. */
  lemma SameAfterSpace(p: Parser, bs1: seq<byte>, bs2: seq<byte>, expectEof: bool)
    requires SkipSpace(bs1) == SkipSpace(bs2)
    ensures ExpressionRead(p, bs1, expectEof) == ExpressionRead(p, bs2, expectEof)
  {
  }

  /** Leading whitespace does not change the outcome. */
  lemma LeadingSpace(p: Parser, ws: seq<byte>, bs: seq<byte>, expectEof: bool)
    requires forall i :: 0 <= i < |ws| ==> IsSpace(ws[i])
    ensures ExpressionRead(p, ws + bs, expectEof) == ExpressionRead(p, bs, expectEof)
  {
    SkipSpacePrefix(ws, bs);
    SameAfterSpace(p, ws + bs, bs, expectEof);
  }

  // ---------------------------------------------------------------------------
  // The cursor only moves forward

  lemma OpReadAdvances(s: seq<byte>)
    ensures IsSuffix(OpRead(s).1, s)
  {
    if OpRead(s).0.Ok? {
      OperatorProps.OpReadSpelling(s);
    }
  }

  lemma ValueReadAdvances(p: Parser, s: seq<byte>)
    ensures IsSuffix(ValueRead(p, s).1, s)
  {
    ConstReadRun(p, s);
  }

  lemma {:induction false} ChainReadAdvances(p: Parser, bs: seq<byte>, acc: seq<ExpressionTok>)
    ensures IsSuffix(ChainRead(p, bs, acc).1, bs)
    decreases |bs|
  {
    var s := SkipSpace(bs);
    SkipSpaceRemovesOnlySpace(bs);
    if OpPeek(s) {
      PeekAgreesWithRead(s);
      var (op, r1) := OpRead(s);
      OpReadAdvances(s);
      var s1 := SkipSpace(r1);
      SkipSpaceRemovesOnlySpace(r1);
      var (v, r2) := ValueRead(p, s1);
      ValueReadAdvances(p, s1);
      SuffixTransitive(s1, r1, s);
      SuffixTransitive(r2, s1, s);
      SuffixTransitive(r2, s, bs);
      if v.Ok? {
        var acc' := acc + [EBinaryOp(op.value), EValue(v.value)];
        ChainReadAdvances(p, r2, acc');
        SuffixTransitive(ChainRead(p, r2, acc').1, r2, bs);
      }
    }
  }

  /** What is left after `read_expression` is a suffix of its input: the parser only consumes bytes. */
  lemma ExpressionReadAdvances(p: Parser, bs: seq<byte>, expectEof: bool)
    ensures IsSuffix(ExpressionRead(p, bs, expectEof).1, bs)
  {
    var s := SkipSpace(bs);
    FromAdvances(p, s, expectEof);
    SkipSpaceRemovesOnlySpace(bs);
    SuffixTransitive(ExpressionFrom(p, s, expectEof).1, s, bs);
  }

  lemma FromAdvances(p: Parser, s: seq<byte>, expectEof: bool)
    ensures IsSuffix(ExpressionFrom(p, s, expectEof).1, s)
  {
    var (v, r1) := ValueRead(p, s);
    assert IsSuffix(r1, s) by {
      ValueReadAdvances(p, s);
    }
    if v.Ok? {
      var (c, r2) := ChainRead(p, r1, [EValue(v.value)]);
      assert IsSuffix(r2, s) by {
        ChainReadAdvances(p, r1, [EValue(v.value)]);
        SuffixTransitive(r2, r1, s);
      }
      assert IsSuffix(SkipSpace(r2), s) by {
        SkipSpaceRemovesOnlySpace(r2);
        SuffixTransitive(SkipSpace(r2), r2, s);
      }
      assert ExpressionFrom(p, s, expectEof).1 == if c.Err? then r2 else SkipSpace(r2);
    }
  }

  /** One successful turn of the operator/value loop, from the facts about its steps. */
  lemma ChainTurn(p: Parser, bs: seq<byte>, op: BinaryOp, r1: seq<byte>, v: Value, r2: seq<byte>, acc: seq<ExpressionTok>)
    requires OpRead(SkipSpace(bs)) == (Ok(op), r1)
    requires ValueRead(p, SkipSpace(r1)) == (Ok(v), r2)
    ensures ChainRead(p, bs, acc) == ChainRead(p, r2, acc + [EBinaryOp(op), EValue(v)])
  {
    var s := SkipSpace(bs);
    PeekAgreesWithRead(s);
    ChainReadSkipsSpace(p, bs, acc);
    ChainReadStep(p, s, acc);
    ChainReadSkipsSpace(p, r2, acc + [EBinaryOp(op), EValue(v)]);
  }
}
