/**
 * The error value threaded through the lexer: a stable message and a chain of
 * contexts, each one prepended where the error crosses a rule boundary
 * (`Error::new` and `Error::pre`). The messages and contexts this parser uses
 * are named by datatypes; `MessageText` and `ContextText` give their exact text.
 */
module Errors {
  import opened Bytes

  /** The messages the parser raises. */
  datatype Message =
    | Eof                      // "EOF"
    | InvalidValue             // "InvalidValue"
    | UnparsedTokensRemaining  // "unparsed tokens remaining"
    | Utf8Error                // "Utf8Error"
    | ParseF64Error            // "parse<f64> error"
    | IllegalBinaryop          // "illegal binaryop"

  /** The contexts the parser prepends: a rule name, or the text that failed to convert. */
  datatype Context =
    | InReadValue              // "read_value"
    | InReadBinaryop           // "read_binaryop"
    | InText(text: seq<byte>)  // the rejected literal itself

  function MessageText(m: Message): string
  {
    match m
    case Eof => "EOF"
    case InvalidValue => "InvalidValue"
    case UnparsedTokensRemaining => "unparsed tokens remaining"
    case Utf8Error => "Utf8Error"
    case ParseF64Error => "parse<f64> error"
    case IllegalBinaryop => "illegal binaryop"
  }

  datatype Error = Error(msg: Message, context: seq<Context>)
  {
    /** The error with `ctx` prepended to its context chain (`Error::pre`). */
    function Pre(ctx: Context): Error
    {
      Error(msg, [ctx] + context)
    }
  }

  /** A fresh error with no context (`Error::new`). */
  function New(msg: Message): Error
  {
    Error(msg, [])
  }

  datatype Result<+T> = Ok(value: T) | Err(error: Error)
}
