/**
 * The token types the parser produces: a flat expression that alternates values
 * and binary operators, with no precedence structure.
 */
module Grammar {
  import opened Bytes
  import FloatSyntax

  datatype BinaryOp =
    | EPlus | EMinus | EMul | EDiv | EMod | EExp
    | ELT | ELTE | EEQ | ENE | EGTE | EGT
    | EOR | EAND

  /**
   * A literal constant: the accepted text with its unit suffix removed, and the
   * integer scale the suffix stands for (1 when there is none). The double the
   * text converts to is left abstract.
   */
  datatype Constant = Constant(text: seq<byte>, scale: nat)

  datatype Value = EConstant(constant: Constant)

  datatype ExpressionTok = EValue(value: Value) | EBinaryOp(op: BinaryOp)

  datatype Expression = Expression(toks: seq<ExpressionTok>)

  /** The bytes that spell each operator in formula text. */
  function Spelling(op: BinaryOp): (s: seq<byte>)
    ensures 1 <= |s| <= 3
  {
    match op
    case EPlus => ['+' as byte]
    case EMinus => ['-' as byte]
    case EMul => ['*' as byte]
    case EDiv => ['/' as byte]
    case EMod => ['%' as byte]
    case EExp => ['^' as byte]
    case ELT => ['<' as byte]
    case ELTE => ['<' as byte, '=' as byte]
    case EEQ => ['=' as byte, '=' as byte]
    case ENE => ['!' as byte, '=' as byte]
    case EGTE => ['>' as byte, '=' as byte]
    case EGT => ['>' as byte]
    case EOR => ['o' as byte, 'r' as byte]
    case EAND => ['a' as byte, 'n' as byte, 'd' as byte]
  }

  /** Values at even positions, operators at odd ones, a value first and last. */
  predicate Alternates(toks: seq<ExpressionTok>)
  {
    |toks| % 2 == 1 && forall i :: 0 <= i < |toks| ==> (toks[i].EValue? <==> i % 2 == 0)
  }

  /** Number of operator tokens. */
  function OpCount(toks: seq<ExpressionTok>): nat
  {
    if |toks| == 0 then 0
    else OpCount(toks[..|toks| - 1]) + (if toks[|toks| - 1].EBinaryOp? then 1 else 0)
  }

  /** An alternating sequence with N operators has 2N+1 tokens. */
  lemma AlternatingLength(toks: seq<ExpressionTok>)
    requires Alternates(toks)
    ensures |toks| == 2 * OpCount(toks) + 1
  {
    AlternatingPrefixCount(toks);
  }

  lemma {:induction false} AlternatingPrefixCount(toks: seq<ExpressionTok>)
    requires forall i :: 0 <= i < |toks| ==> (toks[i].EValue? <==> i % 2 == 0)
    ensures OpCount(toks) == |toks| / 2
  {
    if |toks| > 0 {
      var init := toks[..|toks| - 1];
      assert forall i :: 0 <= i < |init| ==> init[i] == toks[i];
      AlternatingPrefixCount(init);
    }
  }

  /** The value of a constant whose text is a plain decimal, before rounding to a double. */
  function ConstantValue(c: Constant): real
    requires FloatSyntax.IsMantissa(c.text)
  {
    FloatSyntax.PlainDecimalValue(c.text) * c.scale as real
  }
}
