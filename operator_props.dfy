/**
 * What the binary-operator lexer recognises: each operator is exactly its
 * spelling at the head of the cursor, the longest spelling wins, and the
 * prefixes `=`, `!`, `o` and `a` of longer spellings are not operators alone.
 */
module OperatorProps {
  import opened Bytes
  import opened Errors
  import opened Grammar
  import opened Cursor
  import opened Parsing

  /**
   * A successful read consumes exactly the operator's spelling (one, two or
   * three bytes), and no other operator has a longer spelling at that place.
   */
  lemma OpReadSpelling(s: seq<byte>)
    requires OpRead(s).0.Ok?
    ensures var (r, rest) := OpRead(s);
            s == Spelling(r.value) + rest
            && forall op :: Spelling(op) <= s ==> |Spelling(op)| <= |Spelling(r.value)|
  {
    var (r, rest) := OpRead(s);
    var w := |Spelling(r.value)|;
    assert s == s[..w] + s[w..];
    assert rest == s[w..];
    assert s[..w] == Spelling(r.value);
  }

  /** Reading an operator's spelling gives it back, except that `<` or `>` followed by `=` reads as `<=` or `>=`. */
  lemma OpReadRoundTrip(op: BinaryOp, t: seq<byte>)
    ensures OpRead(Spelling(op) + t)
         == if op == ELT && PeekIs(t, 0, '=' as byte) then (Ok(ELTE), t[1..])
            else if op == EGT && PeekIs(t, 0, '=' as byte) then (Ok(EGTE), t[1..])
            else (Ok(op), t)
  {
    var s := Spelling(op) + t;
    var w := |Spelling(op)|;
    assert s[0] == Spelling(op)[0];
    if w == 1 {
      assert s[1..] == t;
    } else if w == 2 {
      assert s[1] == Spelling(op)[1];
      assert s[1..][1..] == t;
    } else {
      assert op == EAND;
      assert s[1] == 'n' as byte && s[2] == 'd' as byte;
      assert s[1..][2..] == t;
    }
  }

  /** The peek says yes exactly when some operator's spelling begins the cursor. */
  lemma OperatorIffSpellingPrefix(s: seq<byte>)
    ensures OpPeek(s) <==> exists op :: Spelling(op) <= s
  {
    PeekAgreesWithRead(s);
    if OpPeek(s) {
      OpReadSpelling(s);
      var op := OpRead(s).0.value;
      assert Spelling(op) <= s;
    }
    if op :| Spelling(op) <= s {
      var t := s[|Spelling(op)|..];
      assert s == Spelling(op) + t;
      OpReadRoundTrip(op, t);
    }
  }

  /** `=`, `!`, `o` and `a` that do not begin `==`, `!=`, `or` and `and` are rejected, and only their first byte is consumed. */
  lemma IncompleteSpellings(s: seq<byte>)
    requires |s| > 0
    requires s[0] == '=' as byte || s[0] == '!' as byte || s[0] == 'o' as byte || s[0] == 'a' as byte
    requires !(exists op :: Spelling(op) <= s)
    ensures OpRead(s) == (Err(New(IllegalBinaryop)), s[1..])
  {
    OperatorIffSpellingPrefix(s);
    PeekAgreesWithRead(s);
    OpReadErrors(s);
  }
}
