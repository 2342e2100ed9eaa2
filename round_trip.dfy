/**
 * Well-formed text parses, and parses to what it spells: a plain decimal,
 * then any number of operator/decimal pairs, each operator with any
 * whitespace on either side, reads back as exactly those tokens.
 */
module RoundTrip {
  import opened Bytes
  import opened Errors
  import opened Grammar
  import opened Cursor
  import opened FloatSyntax
  import opened Parsing
  import ConstantProps
  import ExpressionProps
  import ParserExamples

  /** A constant the built-in classifier accepts whole: digits and '.', and a float literal. */
  predicate IsDecimalText(t: seq<byte>)
  {
    |t| > 0 && (forall j :: 0 <= j < |t| ==> IsDigit(t[j]) || t[j] == '.' as byte) && IsFloatLiteral(t)
  }

  /** One `binaryop value` step of the text: whitespace, the operator, whitespace, a decimal. */
  datatype Step = Step(before: seq<byte>, op: BinaryOp, after: seq<byte>, text: seq<byte>)

  predicate IsWhitespace(ws: seq<byte>)
  {
    forall i :: 0 <= i < |ws| ==> IsSpace(ws[i])
  }

  predicate WellFormed(steps: seq<Step>)
  {
    forall k :: 0 <= k < |steps| ==>
      IsWhitespace(steps[k].before) && IsWhitespace(steps[k].after) && IsDecimalText(steps[k].text)
  }

  /** The text of the steps, one after the other. */
  function Render(steps: seq<Step>): (r: seq<byte>)
    ensures steps == [] <==> r == []
  {
    if steps == [] then []
    else
      var st := steps[0];
      st.before + Spelling(st.op) + st.after + st.text + Render(steps[1..])
  }

  /** The tokens the steps spell: an operator and a constant of scale 1 for each. */
  function Tokens(steps: seq<Step>): (r: seq<ExpressionTok>)
    ensures |r| == 2 * |steps|
  {
    if steps == [] then []
    else [EBinaryOp(steps[0].op), EValue(EConstant(Constant(steps[0].text, 1)))] + Tokens(steps[1..])
  }

  /** No operator's first byte can extend a constant. */
  lemma SpellingHead(op: BinaryOp)
    ensures var b := Spelling(op)[0];
            !IsDigit(b) && b != '.' as byte && !IsUnitByte(b)
  {
  }

  /** The text of some steps starts with whitespace or with the first operator. */
  lemma RenderFirst(steps: seq<Step>)
    requires steps != [] && IsWhitespace(steps[0].before)
    ensures var r := Render(steps);
            r != [] && (IsSpace(r[0]) || r[0] == Spelling(steps[0].op)[0])
  {
    var st := steps[0];
    var w := Spelling(st.op) + (st.after + st.text + Render(steps[1..]));
    assert Render(steps) == st.before + w;
    if st.before != [] {
      assert Render(steps)[0] == st.before[0];
    } else {
      assert Render(steps)[0] == w[0];
    }
  }

  /** What follows a constant in the text cannot extend it. */
  lemma RenderHead(steps: seq<Step>, n: nat)
    requires WellFormed(steps)
    ensures !CallIsConstByte(DefaultParser, Peek(Render(steps), 0), n)
  {
    if steps != [] {
      RenderFirst(steps);
      var b := Render(steps)[0];
      if IsSpace(b) {
        ConstantProps.SpaceStartsNoToken(b, n, []);
      } else {
        SpellingHead(steps[0].op);
      }
    }
  }

  /** One step of the text, followed by anything no constant continues into, is one turn of the loop. */
  lemma StepRead(st: Step, tail: seq<byte>, acc: seq<ExpressionTok>)
    requires IsWhitespace(st.before) && IsWhitespace(st.after) && IsDecimalText(st.text)
    requires !CallIsConstByte(DefaultParser, Peek(tail, 0), |st.text|)
    ensures ChainRead(DefaultParser, st.before + Spelling(st.op) + st.after + st.text + tail, acc)
         == ChainRead(DefaultParser, tail, acc + [EBinaryOp(st.op), EValue(EConstant(Constant(st.text, 1)))])
  {
    var p := DefaultParser;
    var u := st.text + tail;
    assert st.before + Spelling(st.op) + st.after + st.text + tail == st.before + Spelling(st.op) + st.after + u;
    assert u[0] == st.text[0];
    ExpressionProps.SpaceAroundOperator(p, st.before, st.op, st.after, u, acc);
    ExpressionProps.SpacedOperator(st.op, u);
    SkipSpaceOfSpaced(u);
    ConstantProps.DecimalValueRead(st.text, tail);
    ExpressionProps.ChainTurn(p, Spelling(st.op) + u, st.op, u, EConstant(Constant(st.text, 1)), tail, acc);
  }

  /** The first step of well-formed text is one turn of the loop, leaving the text of the rest. */
  lemma FirstStep(steps: seq<Step>, acc: seq<ExpressionTok>, step: seq<ExpressionTok>)
    requires steps != [] && WellFormed(steps)
    requires step == [EBinaryOp(steps[0].op), EValue(EConstant(Constant(steps[0].text, 1)))]
    ensures WellFormed(steps[1..])
    ensures ChainRead(DefaultParser, Render(steps), acc) == ChainRead(DefaultParser, Render(steps[1..]), acc + step)
  {
    var st, rest := steps[0], steps[1..];
    assert WellFormed(rest) by {
      assert forall k :: 0 <= k < |rest| ==> rest[k] == steps[k + 1];
    }
    assert IsWhitespace(st.before) && IsWhitespace(st.after) && IsDecimalText(st.text);
    RenderHead(rest, |st.text|);
    StepRead(st, Render(rest), acc);
  }

  /** The tokens of some steps are those of the first step, then those of the rest. */
  lemma TokensStep(steps: seq<Step>, acc: seq<ExpressionTok>, step: seq<ExpressionTok>)
    requires steps != []
    requires step == [EBinaryOp(steps[0].op), EValue(EConstant(Constant(steps[0].text, 1)))]
    ensures acc + Tokens(steps) == acc + step + Tokens(steps[1..])
  {
    assert acc + (step + Tokens(steps[1..])) == acc + step + Tokens(steps[1..]);
  }

  /** With nothing left, the loop stops and returns what it has. */
  lemma EmptyChain(acc: seq<ExpressionTok>)
    ensures ChainRead(DefaultParser, Render([]), acc) == (Ok(acc + Tokens([])), [])
  {
    assert acc + [] == acc;
    assert SkipSpace([]) == [];
  }

  /** The operator/value loop reads the rendered steps back as their tokens and consumes everything. */
  lemma {:induction false} ChainRoundTrip(steps: seq<Step>, acc: seq<ExpressionTok>)
    requires WellFormed(steps)
    ensures ChainRead(DefaultParser, Render(steps), acc) == (Ok(acc + Tokens(steps)), [])
    decreases |steps|
  {
    if steps == [] {
      EmptyChain(acc);
    } else {
      var step := [EBinaryOp(steps[0].op), EValue(EConstant(Constant(steps[0].text, 1)))];
      FirstStep(steps, acc, step);
      ChainRoundTrip(steps[1..], acc + step);
      TokensStep(steps, acc, step);
    }
  }

  /**
   * A decimal followed by well-formed steps parses, with or without
   * `expect_eof`, to exactly the tokens it spells, and nothing is left: the
   * 2N+1 tokens of N operators are those of the text.
   */
  lemma ParseRoundTrip(first: seq<byte>, steps: seq<Step>, expectEof: bool)
    requires IsDecimalText(first) && WellFormed(steps)
    ensures ExpressionRead(DefaultParser, first + Render(steps), expectEof)
         == (Ok(Expression([EValue(EConstant(Constant(first, 1)))] + Tokens(steps))), [])
  {
    var p := DefaultParser;
    var v := EConstant(Constant(first, 1));
    var tail := Render(steps);
    assert (first + tail)[0] == first[0];
    SkipSpaceOfSpaced(first + tail);
    RenderHead(steps, |first|);
    ConstantProps.DecimalValueRead(first, tail);
    ChainRoundTrip(steps, [EValue(v)]);
    ParserExamples.ExpressionOf(p, first + tail, v, tail, [EValue(v)] + Tokens(steps), [], expectEof);
  }
}
