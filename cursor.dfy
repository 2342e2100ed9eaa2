/**
 * The byte-slice cursor the lexer advances (a `&mut &[u8]` in the source). A
 * cursor is the unread suffix of the input; the operations that advance it
 * return the new suffix.
 */
module Cursor {
  import opened Bytes
  import opened Optional
  import opened Errors

  /** `a` is what is left of `b` after some prefix of `b` has been consumed. */
  predicate IsSuffix(a: seq<byte>, b: seq<byte>)
  {
    |a| <= |b| && forall i :: 0 <= i < |a| ==> a[i] == b[|b| - |a| + i]
  }

  lemma SuffixTransitive(a: seq<byte>, b: seq<byte>, c: seq<byte>)
    requires IsSuffix(a, b) && IsSuffix(b, c)
    ensures IsSuffix(a, c)
  {
  }

  /** The byte `skip` places ahead, without consuming anything. */
  function Peek(bs: seq<byte>, skip: nat): (r: Option<byte>)
    ensures r.Some? <==> skip < |bs|
    ensures r.Some? ==> r.value == bs[skip]
  {
    if |bs| > skip then Some(bs[skip]) else None
  }

  function IsAtEof(bs: seq<byte>): (r: bool)
    ensures r <==> Peek(bs, 0).None?
  {
    |bs| == 0
  }

  function PeekIs(bs: seq<byte>, skip: nat, val: byte): (r: bool)
    ensures r <==> skip < |bs| && bs[skip] == val
  {
    match Peek(bs, skip)
    case None => false
    case Some(b) => b == val
  }

  /** Space, tab, CR and LF. */
  predicate IsSpace(b: byte)
  {
    b == ' ' as byte || b == '\t' as byte || b == '\r' as byte || b == '\n' as byte
  }

  /** A cursor with no leading whitespace: empty, or starting with a non-space byte. */
  predicate Spaced(s: seq<byte>)
  {
    s == [] || !IsSpace(s[0])
  }

  /**
   * The cursor after whitespace skipping: the input without its maximal leading
   * run of space, tab, CR and LF bytes.
   */
  function SkipSpace(bs: seq<byte>): (r: seq<byte>)
    ensures |r| <= |bs|
    ensures Spaced(r)
    decreases |bs|
  {
    if |bs| > 0 && IsSpace(bs[0]) then
      SkipSpace(bs[1..])
    else bs
  }

  /** `SkipSpace` removes a prefix of the input, and that prefix is whitespace only. */
  lemma {:induction false} SkipSpaceRemovesOnlySpace(bs: seq<byte>)
    ensures IsSuffix(SkipSpace(bs), bs)
    ensures forall i :: 0 <= i < |bs| - |SkipSpace(bs)| ==> IsSpace(bs[i])
    decreases |bs|
  {
    if |bs| > 0 && IsSpace(bs[0]) {
      var r := SkipSpace(bs[1..]);
      SkipSpaceRemovesOnlySpace(bs[1..]);
      assert bs[1..][|bs| - 1 - |r|..] == bs[|bs| - |r|..];
      assert forall i :: 1 <= i < |bs| ==> bs[i] == bs[1..][i - 1];
    }
  }

  /** A cursor with no leading whitespace is left as it is; in particular skipping twice is skipping once. */
  lemma SkipSpaceOfSpaced(s: seq<byte>)
    requires Spaced(s)
    ensures SkipSpace(s) == s
  {
  }

  /** Nothing is left after skipping exactly when the input is all whitespace. */
  lemma SkipSpaceEmpty(bs: seq<byte>)
    ensures SkipSpace(bs) == [] <==> forall i :: 0 <= i < |bs| ==> IsSpace(bs[i])
  {
    var r := SkipSpace(bs);
    SkipSpaceRemovesOnlySpace(bs);
    if r != [] {
      assert r[0] == bs[|bs| - |r|];
    }
  }

  /** Whitespace in front of a cursor is skipped along with the cursor's own. */
  lemma {:induction false} SkipSpacePrefix(ws: seq<byte>, bs: seq<byte>)
    requires forall i :: 0 <= i < |ws| ==> IsSpace(ws[i])
    ensures SkipSpace(ws + bs) == SkipSpace(bs)
  {
    if |ws| > 0 {
      assert (ws + bs)[0] == ws[0] && (ws + bs)[1..] == ws[1..] + bs;
      SkipSpacePrefix(ws[1..], bs);
    } else {
      assert ws + bs == bs;
    }
  }

  /** Removes and returns the first byte; fails with "EOF" on an empty cursor, which is left as it is. */
  method Read(bs: seq<byte>) returns (r: Result<byte>, rest: seq<byte>)
    ensures r.Ok? <==> Peek(bs, 0).Some?
    ensures r.Ok? ==> r.value == bs[0] && rest == bs[1..]
    ensures r.Err? ==> r.error == New(Eof) && rest == bs
  {
    if |bs| > 0 {
      var b := bs[0];
      rest := bs[1..];
      r := Ok(b);
    } else {
      r, rest := Err(New(Eof)), bs;
    }
  }

  /** Advances the cursor past leading whitespace. */
  method Space(bs: seq<byte>) returns (rest: seq<byte>)
    ensures rest == SkipSpace(bs)
  {
    rest := bs;
    while true
      invariant SkipSpace(rest) == SkipSpace(bs)
      decreases |rest|
    {
      var b := Peek(rest, 0);
      if b.None? || !IsSpace(b.value) {
        break;
      }
      var _, next := Read(rest);
      rest := next;
    }
  }
}
