/**
 * The flat-token parser: turns formula text into an `Expression` that
 * alternates values and binary operators, with no precedence handling.
 *
 * Each step that advances the cursor is a method taking the unread input and
 * returning the advanced cursor; each is proved equal to a pure function of the
 * same name family (`...Read`, `...Peek`) that the lemmas below reason about.
 */
module Parsing {
  import opened Bytes
  import opened Optional
  import opened Errors
  import opened Grammar
  import opened Cursor
  import Utf8
  import opened FloatSyntax

  /** A byte classifier hook: (byte, position within the token) -> accept? */
  type ByteClassifier = (byte, nat) -> bool

  /** The parser's three optional classifier hooks; an absent hook means the built-in default. */
  datatype Parser = Parser(
    isConstByte: Option<ByteClassifier>,
    isFuncByte: Option<ByteClassifier>,
    isVarByte: Option<ByteClassifier>)

  const DefaultParser: Parser := Parser(None, None, None)

  // ---------------------------------------------------------------------------
  // Unit suffixes

  /** The unit suffixes: ASCII letters, so never a digit, '.', or whitespace. */
  function IsUnitByte(b: byte): (r: bool)
    ensures r ==> IsAsciiLetter(b) && !IsDigit(b) && b != '.' as byte && !IsSpace(b)
  {
    b == 'k' as byte || b == 'K' as byte || b == 'M' as byte || b == 'G' as byte || b == 'T' as byte
  }

  /** The multiplier a unit suffix stands for: a power of 1000 from 10^3 (`k`, `K`) to 10^12 (`T`). */
  function UnitScale(b: byte): (r: nat)
    requires IsUnitByte(b)
    ensures 1000 <= r <= 1000000000000 && r % 1000 == 0
    ensures r == 1000 <==> b == 'k' as byte || b == 'K' as byte
    ensures b == 'M' as byte ==> r == 1000000
    ensures b == 'G' as byte ==> r == 1000000000
    ensures b == 'T' as byte ==> r == 1000000000000
  {
    if b == 'k' as byte || b == 'K' as byte then 1000
    else if b == 'M' as byte then 1000000
    else if b == 'G' as byte then 1000000000
    else 1000000000000
  }

  // ---------------------------------------------------------------------------
  // Classifiers

  function DefaultIsConstByte(b: byte, i: nat): (r: bool)
    ensures i == 0 ==> (r <==> IsDigit(b) || b == '.' as byte)
    ensures i > 0 ==> (r <==> IsDigit(b) || b == '.' as byte || IsUnitByte(b))
  {
    if IsDigit(b) || b == '.' as byte then true
    else if i > 0 && IsUnitByte(b) then true
    else false
  }

  function DefaultIsVarByte(b: byte, i: nat): (r: bool)
    ensures r ==> IsAscii(b)
    ensures i == 0 ==> (r <==> IsAsciiLetter(b) || b == '_' as byte)
    ensures i > 0 ==> (r <==> IsAsciiLetter(b) || b == '_' as byte || IsDigit(b))
  {
    IsAsciiLetter(b) || b == '_' as byte || (i > 0 && IsDigit(b))
  }

  function CallIsConstByte(p: Parser, bo: Option<byte>, i: nat): (r: bool)
    ensures bo.None? ==> !r
    ensures bo.Some? && p.isConstByte.Some? ==> r == p.isConstByte.value(bo.value, i)
    ensures bo.Some? && p.isConstByte.None? ==> r == DefaultIsConstByte(bo.value, i)
  {
    match bo
    case Some(b) =>
      (match p.isConstByte
       case Some(f) => f(b, i)
       case None => DefaultIsConstByte(b, i))
    case None => false
  }

  function CallIsFuncByte(p: Parser, bo: Option<byte>, i: nat): (r: bool)
    ensures bo.None? ==> !r
    ensures bo.Some? && p.isFuncByte.Some? ==> r == p.isFuncByte.value(bo.value, i)
    ensures bo.Some? && p.isFuncByte.None? ==> r == DefaultIsVarByte(bo.value, i)
  {
    match bo
    case Some(b) =>
      (match p.isFuncByte
       case Some(f) => f(b, i)
       case None => DefaultIsVarByte(b, i))
    case None => false
  }

  function CallIsVarByte(p: Parser, bo: Option<byte>, i: nat): (r: bool)
    ensures bo.None? ==> !r
    ensures bo.Some? && p.isVarByte.Some? ==> r == p.isVarByte.value(bo.value, i)
    ensures bo.Some? && p.isVarByte.None? ==> r == DefaultIsVarByte(bo.value, i)
  {
    match bo
    case Some(b) =>
      (match p.isVarByte
       case Some(f) => f(b, i)
       case None => DefaultIsVarByte(b, i))
    case None => false
  }

  // ---------------------------------------------------------------------------
  // Constants

  /** End of the run of accepted constant bytes from position `i` of `s`. */
  function ConstRunEnd(p: Parser, s: seq<byte>, i: nat): (n: nat)
    requires i <= |s|
    ensures i <= n <= |s|
    decreases |s| - i
  {
    if CallIsConstByte(p, Peek(s, i), i) then ConstRunEnd(p, s, i + 1) else i
  }

  /** The run is maximal: every byte in it is accepted at its position, the byte after it is not. */
  lemma {:induction false} ConstRunMaximal(p: Parser, s: seq<byte>, i: nat)
    requires i <= |s|
    ensures forall j :: i <= j < ConstRunEnd(p, s, i) ==> CallIsConstByte(p, Some(s[j]), j)
    ensures !CallIsConstByte(p, Peek(s, ConstRunEnd(p, s, i)), ConstRunEnd(p, s, i))
    decreases |s| - i
  {
    if CallIsConstByte(p, Peek(s, i), i) {
      ConstRunMaximal(p, s, i + 1);
    }
  }

  /**
   * Only the last byte of the run is examined: a unit byte there is removed
   * once and gives the scale; otherwise the scale is 1.
   */
  function SplitUnit(buf: seq<byte>): (r: (seq<byte>, nat))
    ensures r.1 == 1 ==> r.0 == buf && (|buf| == 0 || !IsUnitByte(buf[|buf| - 1]))
    ensures r.1 != 1 ==> |buf| > 0 && IsUnitByte(buf[|buf| - 1])
                         && r.0 == buf[..|buf| - 1] && r.1 == UnitScale(buf[|buf| - 1])
  {
    if |buf| > 0 && IsUnitByte(buf[|buf| - 1]) then (buf[..|buf| - 1], UnitScale(buf[|buf| - 1]))
    else (buf, 1)
  }

  /** Converts an accepted run to a constant: the UTF-8 check, then the decimal-literal check. */
  function ConstantOf(buf: seq<byte>): (r: Result<Constant>)
    ensures r.Ok? <==> Utf8.Valid(SplitUnit(buf).0) && IsFloatLiteral(SplitUnit(buf).0)
    ensures r.Ok? ==> |buf| > 0 && r.value == Constant(SplitUnit(buf).0, SplitUnit(buf).1)
    ensures !Utf8.Valid(SplitUnit(buf).0) ==> r == Err(New(Utf8Error))
    ensures r.Err? && Utf8.Valid(SplitUnit(buf).0) ==> r.error == New(ParseF64Error).Pre(InText(SplitUnit(buf).0))
  {
    var (text, scale) := SplitUnit(buf);
    EmptyIsNotLiteral();
    if !Utf8.Valid(text) then Err(New(Utf8Error))
    else if !IsFloatLiteral(text) then Err(New(ParseF64Error).Pre(InText(text)))
    else Ok(Constant(text, scale))
  }

  /**
   * `read_const` after its leading `space`: take the run of accepted bytes of
   * `s`, then convert it.
   */
  function ConstRead(p: Parser, s: seq<byte>): (r: (Result<Constant>, seq<byte>))
    ensures |r.1| <= |s|
    ensures r.0.Ok? ==> |r.1| < |s|
  {
    var n := ConstRunEnd(p, s, 0);
    (ConstantOf(s[..n]), s[n..])
  }

  /**
   * The run `read_const` takes is the maximal one: each of its bytes is
   * accepted at its position, the byte after it is not (or the input ended),
   * and the result is the conversion of exactly that run.
   */
  lemma ConstReadRun(p: Parser, s: seq<byte>)
    ensures var (c, rest) := ConstRead(p, s);
            var n := |s| - |rest|;
            (forall j :: 0 <= j < n ==> CallIsConstByte(p, Some(s[j]), j))
            && !CallIsConstByte(p, Peek(rest, 0), n)
            && c == ConstantOf(s[..n]) && rest == s[n..]
  {
    var n := ConstRunEnd(p, s, 0);
    ConstRunMaximal(p, s, 0);
    assert Peek(s, n) == Peek(s[n..], 0);
  }

  method PeekConst(p: Parser, bs: seq<byte>) returns (b: bool, rest: seq<byte>)
    ensures rest == SkipSpace(bs)
    ensures b == CallIsConstByte(p, Peek(rest, 0), 0)
  {
    rest := Space(bs);
    b := CallIsConstByte(p, Peek(rest, 0), 0);
  }

  /** The unit-suffix step of `read_const`: inspect the last byte of the run once. */
  method TrimUnitSuffix(run: seq<byte>) returns (buf: seq<byte>, multiple: nat)
    ensures (buf, multiple) == SplitUnit(run)
  {
    buf, multiple := run, 1;
    if |buf| > 0 {
      var last := buf[|buf| - 1];
      if last == 'k' as byte || last == 'K' as byte {
        multiple := 1000;
        buf := buf[..|buf| - 1];
      } else if last == 'M' as byte {
        multiple := 1000000;
        buf := buf[..|buf| - 1];
      } else if last == 'G' as byte {
        multiple := 1000000000;
        buf := buf[..|buf| - 1];
      } else if last == 'T' as byte {
        multiple := 1000000000000;
        buf := buf[..|buf| - 1];
      }
    }
  }

  method ReadConst(p: Parser, bs: seq<byte>) returns (r: Result<Constant>, rest: seq<byte>)
    ensures (r, rest) == ConstRead(p, SkipSpace(bs))
  {
    rest := Space(bs);
    ghost var s := rest;
    var buf: seq<byte> := [];
    while true
      invariant |buf| <= |s| && buf == s[..|buf|] && rest == s[|buf|..]
      invariant ConstRunEnd(p, s, |buf|) == ConstRunEnd(p, s, 0)
      decreases |rest|
    {
      if !CallIsConstByte(p, Peek(rest, 0), |buf|) {
        break;
      }
      var b;
      b, rest := Read(rest);
      buf := buf + [b.value];
    }
    ghost var run := buf;
    assert ConstRunEnd(p, s, 0) == |run|;
    var multiple;
    buf, multiple := TrimUnitSuffix(buf);
    if !Utf8.Valid(buf) {
      r := Err(New(Utf8Error));
    } else if !IsFloatLiteral(buf) {
      r := Err(New(ParseF64Error).Pre(InText(buf)));
    } else {
      r := Ok(Constant(buf, multiple));
    }
    assert r == ConstantOf(run);
  }

  // ---------------------------------------------------------------------------
  // Values

  /**
   * `read_value` after the `space` in `peek_const`: a constant if the first
   * byte of `s` may start one, else "InvalidValue".
   */
  function ValueRead(p: Parser, s: seq<byte>): (r: (Result<Value>, seq<byte>))
    ensures |r.1| <= |s|
    ensures r.0.Ok? ==> |r.1| < |s|
    ensures !CallIsConstByte(p, Peek(s, 0), 0) ==> r == (Err(New(InvalidValue)), s)
  {
    if CallIsConstByte(p, Peek(s, 0), 0) then
      var (c, rest) := ConstRead(p, s);
      (if c.Ok? then Ok(EConstant(c.value)) else Err(c.error), rest)
    else
      (Err(New(InvalidValue)), s)
  }

  method ReadValue(p: Parser, bs: seq<byte>) returns (r: Result<Value>, rest: seq<byte>)
    ensures (r, rest) == ValueRead(p, SkipSpace(bs))
  {
    var isConst;
    isConst, rest := PeekConst(p, bs);
    if isConst {
      SkipSpaceOfSpaced(rest);
      var c;
      c, rest := ReadConst(p, rest);
      r := if c.Ok? then Ok(EConstant(c.value)) else Err(c.error);
      return;
    }
    r := Err(New(InvalidValue));
  }

  // ---------------------------------------------------------------------------
  // Binary operators

  /** `read_binaryop` on an already spaced cursor. */
  function OpRead(s: seq<byte>): (r: (Result<BinaryOp>, seq<byte>))
    ensures |r.1| <= |s|
    ensures r.0.Ok? ==> |s| - |r.1| == |Spelling(r.0.value)|
  {
    if |s| == 0 then (Err(New(Eof)), s)
    else
      var b, t := s[0], s[1..];
      if b == '+' as byte then (Ok(EPlus), t)
      else if b == '-' as byte then (Ok(EMinus), t)
      else if b == '*' as byte then (Ok(EMul), t)
      else if b == '/' as byte then (Ok(EDiv), t)
      else if b == '%' as byte then (Ok(EMod), t)
      else if b == '^' as byte then (Ok(EExp), t)
      else if b == '<' as byte then
        if PeekIs(t, 0, '=' as byte) then (Ok(ELTE), t[1..]) else (Ok(ELT), t)
      else if b == '>' as byte then
        if PeekIs(t, 0, '=' as byte) then (Ok(EGTE), t[1..]) else (Ok(EGT), t)
      else if b == '=' as byte then
        if PeekIs(t, 0, '=' as byte) then (Ok(EEQ), t[1..]) else (Err(New(IllegalBinaryop)), t)
      else if b == '!' as byte then
        if PeekIs(t, 0, '=' as byte) then (Ok(ENE), t[1..]) else (Err(New(IllegalBinaryop)), t)
      else if b == 'o' as byte then
        if PeekIs(t, 0, 'r' as byte) then (Ok(EOR), t[1..]) else (Err(New(IllegalBinaryop)), t)
      else if b == 'a' as byte then
        if PeekIs(t, 0, 'n' as byte) && PeekIs(t, 1, 'd' as byte) then (Ok(EAND), t[2..])
        else (Err(New(IllegalBinaryop)), t)
      else (Err(New(IllegalBinaryop)), t)
  }

  /**
   * The failures of `read_binaryop`: "EOF" on an empty cursor, which is left as
   * it is; otherwise "IllegalBinaryop" with only the first byte consumed.
   */
  lemma OpReadErrors(s: seq<byte>)
    ensures |s| == 0 ==> OpRead(s) == (Err(New(Eof)), s)
    ensures |s| > 0 && OpRead(s).0.Err? ==> OpRead(s) == (Err(New(IllegalBinaryop)), s[1..])
  {
  }

  /** `peek_binaryop` on an already spaced cursor. */
  function OpPeek(s: seq<byte>): (r: bool)
    ensures r ==> |s| > 0 && !IsSpace(s[0]) && !DefaultIsConstByte(s[0], 0)
  {
    match Peek(s, 0)
    case None => false
    case Some(b) =>
      if b == '+' as byte || b == '-' as byte || b == '*' as byte || b == '/' as byte
         || b == '%' as byte || b == '^' as byte || b == '<' as byte || b == '>' as byte then true
      else if b == '=' as byte then PeekIs(s, 1, '=' as byte)
      else if b == '!' as byte then PeekIs(s, 1, '=' as byte)
      else if b == 'o' as byte then PeekIs(s, 1, 'r' as byte)
      else if b == 'a' as byte then PeekIs(s, 1, 'n' as byte) && PeekIs(s, 2, 'd' as byte)
      else false
  }
  /** The peek says yes exactly when the read would succeed. */
  lemma PeekAgreesWithRead(s: seq<byte>)
    ensures OpPeek(s) <==> OpRead(s).0.Ok?
  {
  }


  method PeekBinaryop(bs: seq<byte>) returns (b: bool, rest: seq<byte>)
    ensures rest == SkipSpace(bs)
    ensures b == OpPeek(rest)
  {
    rest := Space(bs);
    match Peek(rest, 0)
    case None =>
      b := false;
    case Some(c) =>
      if c == '+' as byte || c == '-' as byte || c == '*' as byte || c == '/' as byte
         || c == '%' as byte || c == '^' as byte || c == '<' as byte || c == '>' as byte {
        b := true;
      } else if c == '=' as byte || c == '!' as byte {
        b := PeekIs(rest, 1, '=' as byte);
      } else if c == 'o' as byte {
        b := PeekIs(rest, 1, 'r' as byte);
      } else if c == 'a' as byte {
        b := PeekIs(rest, 1, 'n' as byte) && PeekIs(rest, 2, 'd' as byte);
      } else {
        b := false;
      }
  }

  method ReadBinaryop(bs: seq<byte>) returns (r: Result<BinaryOp>, rest: seq<byte>)
    ensures (r, rest) == OpRead(SkipSpace(bs))
  {
    var illegal := Err(New(IllegalBinaryop));
    rest := Space(bs);
    var first;
    first, rest := Read(rest);
    if first.Err? {
      r := Err(first.error);
      return;
    }
    var b := first.value;
    if b == '+' as byte {
      r := Ok(EPlus);
    } else if b == '-' as byte {
      r := Ok(EMinus);
    } else if b == '*' as byte {
      r := Ok(EMul);
    } else if b == '/' as byte {
      r := Ok(EDiv);
    } else if b == '%' as byte {
      r := Ok(EMod);
    } else if b == '^' as byte {
      r := Ok(EExp);
    } else if b == '<' as byte {
      if PeekIs(rest, 0, '=' as byte) {
        var _, next := Read(rest);
        rest, r := next, Ok(ELTE);
      } else {
        r := Ok(ELT);
      }
    } else if b == '>' as byte {
      if PeekIs(rest, 0, '=' as byte) {
        var _, next := Read(rest);
        rest, r := next, Ok(EGTE);
      } else {
        r := Ok(EGT);
      }
    } else if b == '=' as byte {
      if PeekIs(rest, 0, '=' as byte) {
        var _, next := Read(rest);
        rest, r := next, Ok(EEQ);
      } else {
        r := illegal;
      }
    } else if b == '!' as byte {
      if PeekIs(rest, 0, '=' as byte) {
        var _, next := Read(rest);
        rest, r := next, Ok(ENE);
      } else {
        r := illegal;
      }
    } else if b == 'o' as byte {
      if PeekIs(rest, 0, 'r' as byte) {
        var _, next := Read(rest);
        rest, r := next, Ok(EOR);
      } else {
        r := illegal;
      }
    } else if b == 'a' as byte {
      if PeekIs(rest, 0, 'n' as byte) && PeekIs(rest, 1, 'd' as byte) {
        var _, next := Read(rest);
        var _, next2 := Read(next);
        rest, r := next2, Ok(EAND);
      } else {
        r := illegal;
      }
    } else {
      r := illegal;
    }
  }

  // ---------------------------------------------------------------------------
  // Expressions

  /**
   * The `while peek_binaryop { read_binaryop; read_value }` loop of
   * `read_expression`, appending to the tokens read so far in `acc`: stop with
   * the spaced cursor when no operator follows, else take one turn.
   */
  function ChainRead(p: Parser, bs: seq<byte>, acc: seq<ExpressionTok>): (r: (Result<seq<ExpressionTok>>, seq<byte>))
    ensures |r.1| <= |bs|
    ensures r.0.Ok? ==> acc <= r.0.value && Spaced(r.1) && !OpPeek(r.1)
    decreases |bs|, 1
  {
    var s := SkipSpace(bs);
    if !OpPeek(s) then (Ok(acc), s) else ChainAfterOp(p, s, acc)
  }

  /**
   * One turn of the loop on a cursor that starts with an operator: read it, then
   * a value. `read_binaryop` cannot fail once `peek_binaryop` said yes (`OpPeek`'s
   * contract), so its error branch, with the "read_binaryop" context, is dead.
   */
  function ChainAfterOp(p: Parser, s: seq<byte>, acc: seq<ExpressionTok>): (r: (Result<seq<ExpressionTok>>, seq<byte>))
    requires OpPeek(s)
    ensures |r.1| <= |s|
    ensures r.0.Ok? ==> acc <= r.0.value && Spaced(r.1) && !OpPeek(r.1)
    decreases |s|, 0
  {
    PeekAgreesWithRead(s);
    var (op, r1) := OpRead(s);
    var (v, r2) := ValueRead(p, SkipSpace(r1));
    if v.Err? then (Err(v.error.Pre(InReadValue)), r2)
    else ChainRead(p, r2, acc + [EBinaryOp(op.value), EValue(v.value)])
  }

  /** `read_expression`: a value, the operator/value chain, trailing whitespace, the end-of-input test. */
  function ExpressionRead(p: Parser, bs: seq<byte>, expectEof: bool): (r: (Result<Expression>, seq<byte>))
    ensures |r.1| <= |bs|
    ensures r.0.Ok? ==> |r.0.value.toks| > 0 && Spaced(r.1) && (expectEof ==> r.1 == [])
  {
    ExpressionFrom(p, SkipSpace(bs), expectEof)
  }

  /** `read_expression` once the whitespace in front of its first value is skipped. */
  function ExpressionFrom(p: Parser, s: seq<byte>, expectEof: bool): (r: (Result<Expression>, seq<byte>))
    ensures |r.1| <= |s|
    ensures r.0.Ok? ==> |r.0.value.toks| > 0 && Spaced(r.1) && (expectEof ==> r.1 == [])
  {
    var (v, r1) := ValueRead(p, s);
    if v.Err? then (Err(v.error.Pre(InReadValue)), r1)
    else
      var (c, r2) := ChainRead(p, r1, [EValue(v.value)]);
      if c.Err? then (Err(c.error), r2)
      else
        var r3 := SkipSpace(r2);
        if expectEof && !IsAtEof(r3) then (Err(New(UnparsedTokensRemaining)), r3)
        else (Ok(Expression(c.value)), r3)
  }

  /** One turn of the operator/value loop, on a spaced cursor that starts with an operator. */
  lemma ChainReadStep(p: Parser, s: seq<byte>, acc: seq<ExpressionTok>)
    requires Spaced(s) && OpPeek(s)
    ensures OpRead(s).0.Ok?
    ensures var (op, r1) := OpRead(s);
            var (v, r2) := ValueRead(p, SkipSpace(r1));
            ChainRead(p, s, acc)
              == if v.Err? then (Err(v.error.Pre(InReadValue)), r2)
                 else ChainRead(p, SkipSpace(r2), acc + [EBinaryOp(op.value), EValue(v.value)])
  {
    PeekAgreesWithRead(s);
    SkipSpaceOfSpaced(s);
    var (op, r1) := OpRead(s);
    var (v, r2) := ValueRead(p, SkipSpace(r1));
    if v.Ok? {
      ChainReadSkipsSpace(p, r2, acc + [EBinaryOp(op.value), EValue(v.value)]);
    }
  }

  /** The loop starts with `peek_binaryop`, which skips whitespace first. */
  lemma ChainReadSkipsSpace(p: Parser, bs: seq<byte>, acc: seq<ExpressionTok>)
    ensures ChainRead(p, SkipSpace(bs), acc) == ChainRead(p, bs, acc)
  {
    SkipSpaceOfSpaced(SkipSpace(bs));
  }

  method ReadExpression(p: Parser, bs: seq<byte>, expectEof: bool) returns (r: Result<Expression>, rest: seq<byte>)
    ensures (r, rest) == ExpressionRead(p, bs, expectEof)
  {
    var val;
    val, rest := ReadValue(p, bs);
    if val.Err? {
      r := Err(val.error.Pre(InReadValue));
      return;
    }
    var toks := [EValue(val.value)];
    ghost var goal := ChainRead(p, rest, toks);
    assert ExpressionRead(p, bs, expectEof)
        == if goal.0.Err? then (Err(goal.0.error), goal.1)
           else if expectEof && !IsAtEof(SkipSpace(goal.1)) then (Err(New(UnparsedTokensRemaining)), SkipSpace(goal.1))
           else (Ok(Expression(goal.0.value)), SkipSpace(goal.1));
    ChainReadSkipsSpace(p, rest, toks);
    var more;
    more, rest := PeekBinaryop(rest);
    while more
      invariant Spaced(rest)
      invariant more == OpPeek(rest)
      invariant ChainRead(p, rest, toks) == goal
      decreases |rest|
    {
      ChainReadStep(p, rest, toks);
      SkipSpaceOfSpaced(rest);
      var op;
      op, rest := ReadBinaryop(rest);
      val, rest := ReadValue(p, rest);
      if val.Err? {
        r := Err(val.error.Pre(InReadValue));
        return;
      }
      toks := toks + [EBinaryOp(op.value), EValue(val.value)];
      more, rest := PeekBinaryop(rest);
    }
    SkipSpaceOfSpaced(rest);
    assert goal == (Ok(toks), rest);
    rest := Space(rest);
    if expectEof && !IsAtEof(rest) {
      r := Err(New(UnparsedTokensRemaining));
      return;
    }
    r := Ok(Expression(toks));
  }

  /** `parse`: the whole text must be one expression; `text` is a Rust `&str`, hence valid UTF-8. */
  method Parse(p: Parser, text: seq<byte>) returns (r: Result<Expression>)
    requires Utf8.Valid(text)
    ensures r == ExpressionRead(p, text, true).0
  {
    var rest;
    r, rest := ReadExpression(p, text, true);
  }
}
