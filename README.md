# fasteval's flat-token parser, in Dafny

This project models the lexer primitives and the flat-token parser of the
fasteval expression evaluator (`src/parser.rs`), and proves properties of them.

The parser reads formula text such as `12.34 + 43.21 + 11.11` into an
`Expression`. An `Expression` is a flat sequence of tokens that alternates
values and binary operators; there is no precedence handling. In this parser a
value is always a numeric constant. A constant is a run of bytes that the
constant classifier accepts, with an optional unit suffix (`k`/`K` = 1e3,
`M` = 1e6, `G` = 1e9, `T` = 1e12). The parser holds three optional classifier
hooks (constant, function name, variable name); each falls back to a built-in
default.

How the model is built:

- **The cursor.** The source's cursor is a `&mut &[u8]`. Here a cursor is the
  unread suffix of the input, a `seq<byte>`. Every step that advances the
  cursor is a `method` that takes the unread suffix and returns the new one.
- **Methods against functions.** Each step is also written as a pure function
  (`ConstRead`, `ValueRead`, `OpRead`, `ChainRead`, `ExpressionRead`), and each
  method is proved to return exactly what its function returns. The loops of
  `space`, `read_const` and `read_expression` carry the invariants that
  connect them to those functions.
- **Where the properties live.** The lemmas state the parser's properties about
  the functions, in `operator_props.dfy`, `constant_props.dfy` and
  `expression_props.dfy`. `parser_examples.dfy` restates the source's unit tests
  on the model. `round_trip.dfy` proves the converse of the parse's shape:
  every well-formed text (a decimal, then operator and decimal pairs with any
  whitespace around each operator) parses to exactly the tokens it spells.
- **Constants.** A constant is kept as its accepted text (unit letter removed)
  and its integer scale.
  - The UTF-8 check is modelled as well-formedness in the sense of RFC 3629,
    section 4 (`utf8.dfy`).
  - The `parse::<f64>` failure path is modelled as the grammar Rust documents
    for `f64`'s `FromStr` (`float_syntax.dfy`).
  - For plain decimals, `ConstantValue` gives the exact value before rounding.
- **Errors.** An error is a message plus a chain of contexts that `Pre`
  prepends, as `Error::new` and `.pre` do.
  - The six messages the parser raises are a datatype; `MessageText` gives
    their exact text.
  - The contexts are `read_value`, `read_binaryop`, or the rejected literal
    itself.

## Model

| member | source | states |
|---|---|---|
| Cursor.Read | src/parser.rs:8-14 | on a non-empty cursor returns `bs[0]` and leaves `bs[1..]`; on an empty cursor fails with "EOF" and leaves the cursor as it is |
| Cursor.Peek | src/parser.rs:15-18 | `Some(bs[skip])` exactly when `skip < |bs|`, else `None`; nothing is consumed |
| Cursor.IsAtEof | src/parser.rs:19 | true exactly when `Peek(bs, 0)` is `None` |
| Cursor.PeekIs | src/parser.rs:20-25 | true exactly when byte `skip` exists and equals `val` |
| Cursor.SkipSpace | src/parser.rs:27-38 | the result is no longer than the input and does not start with space, tab, CR or LF |
| Cursor.SkipSpaceRemovesOnlySpace | src/parser.rs:33-38 | the result is a suffix of the input, and every removed byte is whitespace, so the removed run is the maximal leading one |
| Cursor.SkipSpaceOfSpaced | src/parser.rs:33-38 | a cursor with no leading whitespace is left unchanged, so skipping twice is skipping once |
| Cursor.SkipSpaceEmpty | src/parser.rs:33-38 | nothing is left exactly when the input is all whitespace |
| Cursor.SkipSpacePrefix | src/parser.rs:33-38 | whitespace in front of a cursor is skipped together with the cursor's own |
| Cursor.Space | src/parser.rs:33-38 | the `while let` loop leaves exactly `SkipSpace(bs)` |
| Parsing.DefaultIsConstByte | src/parser.rs:49-53 | digits and `.` are accepted at any position; `k K M G T` only at positions after the first |
| Parsing.DefaultIsVarByte | src/parser.rs:54-56 | ASCII letters and `_` are accepted anywhere, digits only after the first position; every accepted byte is ASCII |
| Parsing.CallIsConstByte | src/parser.rs:58-66 | an absent byte is rejected; a supplied hook decides alone; otherwise the default constant classifier decides |
| Parsing.CallIsFuncByte | src/parser.rs:67-75 | an absent byte is rejected; a supplied hook decides alone; otherwise the default name classifier decides |
| Parsing.CallIsVarByte | src/parser.rs:76-84 | an absent byte is rejected; a supplied hook decides alone; otherwise the default name classifier decides |
| Parsing.ConstRunEnd | src/parser.rs:125-133 | the end of the accepted run lies between its start and the end of the input |
| Parsing.ConstRunMaximal | src/parser.rs:125-133 | every byte of the run is accepted at its own position, and the byte after it is rejected or absent |
| Parsing.SplitUnit | src/parser.rs:135-144 | only the last byte is examined: a unit letter there is removed once and gives its scale, otherwise the run is kept with scale 1 |
| Parsing.TrimUnitSuffix | src/parser.rs:135-144 | the `match buf.last()` step returns exactly `SplitUnit(run)` |
| Parsing.IsUnitByte | src/parser.rs:138-141 | the unit letters `k K M G T` are ASCII letters, never a digit, `.` or whitespace |
| Parsing.UnitScale | src/parser.rs:138-141 | `k` and `K` stand for 10^3 (and are the only units that do), `M` for 10^6, `G` for 10^9, `T` for 10^12 |
| Parsing.ConstantOf | src/parser.rs:146-150 | success exactly when the unit-less text is well-formed UTF-8 and a Rust float literal; then the constant is that text with the unit's scale; text that is not UTF-8 gives "Utf8Error" with no context; valid UTF-8 that does not convert gives "parse<f64> error" with the text as context |
| Parsing.ConstRead | src/parser.rs:121-150 | never lengthens the cursor, and a success consumes at least one byte |
| Parsing.ConstReadRun | src/parser.rs:121-150 | what is consumed is the maximal accepted run, and the result is the conversion of exactly that run |
| Parsing.ReadConst | src/parser.rs:121-151 | the loop that pushes bytes into `buf`, then the unit and conversion steps, return exactly `ConstRead` of the spaced cursor |
| Parsing.PeekConst | src/parser.rs:117-120 | leaves the spaced cursor and answers whether its first byte may start a constant |
| Parsing.ValueRead | src/parser.rs:104-115 | a cursor whose first byte cannot start a constant gives "InvalidValue" and is not advanced; a success consumes at least one byte |
| Parsing.ReadValue | src/parser.rs:104-115 | returns exactly `ValueRead` of the spaced cursor |
| Parsing.OpRead | src/parser.rs:172-196 | `read_binaryop` on a spaced cursor: never lengthens it, and a success consumes exactly as many bytes as the operator's spelling has |
| Parsing.OpPeek | src/parser.rs:158-171 | `peek_binaryop` on a spaced cursor: a yes needs a byte that is neither whitespace nor a possible first byte of a built-in constant |
| Parsing.OpReadErrors | src/parser.rs:172-196 | on an empty cursor "EOF" with nothing consumed; any other failure is "illegal binaryop" with only the first byte consumed |
| Parsing.PeekAgreesWithRead | src/parser.rs:158-196 | `peek_binaryop` says yes exactly when `read_binaryop` succeeds on the same cursor |
| Parsing.PeekBinaryop | src/parser.rs:158-171 | leaves the spaced cursor and returns `OpPeek` of it |
| Parsing.ReadBinaryop | src/parser.rs:172-196 | returns exactly `OpRead` of the spaced cursor, including "EOF" from the first `read` on an empty cursor |
| Parsing.ChainRead | src/parser.rs:94-98 | the `while peek_binaryop` loop from the tokens read so far: never lengthens the cursor; on success the earlier tokens are a prefix of the result, and the loop stops at a spaced cursor that does not start an operator |
| Parsing.ChainAfterOp | src/parser.rs:95-97 | one turn of the loop on a cursor that starts with an operator; the same guarantees as `ChainRead`, which it calls for the rest of the loop |
| Parsing.ExpressionRead | src/parser.rs:91-101 | `read_expression`: never lengthens the cursor; a success holds at least one token and leaves a spaced cursor, which is empty under `expect_eof` |
| Parsing.ExpressionFrom | src/parser.rs:92-101 | the same, once the whitespace in front of the first value is skipped |
| Parsing.ChainReadStep | src/parser.rs:94-97 | one turn of the loop: read the operator, read a value, then either fail under "read_value" or append both tokens and continue |
| Parsing.ChainReadSkipsSpace | src/parser.rs:94 | the loop test skips whitespace first, so the loop's outcome does not change when the cursor is spaced first |
| Parsing.ReadExpression | src/parser.rs:91-102 | the `while peek_binaryop` loop that pushes into `vec`, then `space` and the end-of-input test, return exactly `ExpressionRead` |
| Parsing.Parse | src/parser.rs:86-89 | returns `ExpressionRead(p, text, true)`; the text is valid UTF-8 because it is a Rust `&str` |
| Grammar.Spelling | src/parser.rs:163-193 | each operator is spelled with one, two or three bytes |
| Grammar.AlternatingLength | src/parser.rs:93-97 | an alternating token sequence with N operators has 2N+1 tokens |
| OperatorProps.OpReadSpelling | src/parser.rs:172-196 | a successful read consumes exactly the operator's spelling, and no operator with a longer spelling matches there |
| OperatorProps.OpReadRoundTrip | src/parser.rs:172-196 | reading an operator's spelling gives the operator back; the one exception is `<` or `>` followed by `=`, which reads as `<=` or `>=` |
| OperatorProps.OperatorIffSpellingPrefix | src/parser.rs:158-171 | `peek_binaryop` says yes exactly when some operator's spelling begins the cursor |
| OperatorProps.IncompleteSpellings | src/parser.rs:186-193 | `=`, `!`, `o` and `a` that do not begin `==`, `!=`, `or` or `and` are rejected, and only their first byte is consumed |
| ConstantProps.ConstReadOf | src/parser.rs:121-150 | converse of `ConstReadRun`: an accepted run followed by a rejected byte (or the end) is exactly what is read |
| ConstantProps.DefaultRunBytes | src/parser.rs:49-53 | with the built-in classifier, the run is digits, `.` and unit letters after the first byte |
| ConstantProps.DefaultNoUtf8Error | src/parser.rs:146 | with the built-in classifier, the UTF-8 check never fails |
| ConstantProps.DefaultConstantIsDecimal | src/parser.rs:147-150 | with the built-in classifier, an accepted constant is a plain decimal (no sign, no exponent, no inf or nan), so its exact value is defined |
| ConstantProps.SpaceStartsNoToken | src/parser.rs:27-32 | the four whitespace bytes are rejected by both built-in classifiers at every position, are not unit letters and start no operator, so skipping them never loses a token |
| ConstantProps.DefaultClassesDisjoint | src/parser.rs:49-56 | no byte is accepted as the first byte of both a built-in constant and a built-in name |
| ConstantProps.DecimalBytesLiteral | src/parser.rs:147 | a float literal made only of digits, `.` and unit letters is a plain decimal |
| ExpressionProps.ValueErrors | src/parser.rs:104-150 | `read_value` fails only with "InvalidValue", "Utf8Error", or "parse<f64> error" under the rejected text |
| ExpressionProps.AppendPair | src/parser.rs:97 | pushing an operator and a value keeps the token sequence alternating |
| ExpressionProps.ChainReadOutcome | src/parser.rs:94-98 | after a successful loop, the earlier tokens are a prefix, the tokens alternate, and the cursor is spaced and not at an operator; a failed loop carries "read_value" over a value failure |
| ExpressionProps.ChainFromValue | src/parser.rs:93-98 | the same, for the loop as it starts after the first value |
| ExpressionProps.ParseShape | src/parser.rs:91-101 | a successful parse alternates values and operators with 2N+1 tokens for N operators, and stops at a spaced cursor that is not an operator (empty under `expect_eof`) |
| ExpressionProps.ParseErrors | src/parser.rs:91-101 | a failure is either "unparsed tokens remaining" with no context, or a `read_value` failure under "read_value"; the "read_binaryop" error never surfaces |
| ExpressionProps.MissingValue | src/parser.rs:92-115 | text that cannot start a constant (after whitespace) fails with "InvalidValue" under the "read_value" context |
| ExpressionProps.ExpectEof | src/parser.rs:99-100 | `expect_eof` changes only the end: a success that leaves input becomes "unparsed tokens remaining", and the cursor ends at the same place |
| ExpressionProps.TrailingInput | src/parser.rs:99-100 | after the chain, `expect_eof` accepts exactly when only whitespace remains |
| ExpressionProps.SameAfterSpace | src/parser.rs:91-92 | the outcome depends on the input only through the cursor left after whitespace skipping |
| ExpressionProps.LeadingSpace | src/parser.rs:91-92 | leading whitespace does not change the outcome |
| ExpressionProps.SpaceAroundOperator | src/parser.rs:94-96 | whitespace before and after an operator does not change the loop's outcome, as long as the operator without it still reads as itself (`<` or `>` directly followed by `=` would read as `<=` or `>=`) |
| ExpressionProps.SpaceAfterOperator | src/parser.rs:95-96 | whitespace between an operator and the next value does not change the loop's outcome |
| ExpressionProps.SpacedOperator | src/parser.rs:158-196 | an operator's spelling followed by anything but the `=` that would extend `<` or `>` is a spaced cursor where `peek_binaryop` says yes and `read_binaryop` reads that operator |
| ExpressionProps.OpReadAdvances | src/parser.rs:172-196 | what `read_binaryop` leaves is a suffix of its input |
| ExpressionProps.ValueReadAdvances | src/parser.rs:104-150 | what `read_value` leaves is a suffix of its input |
| ExpressionProps.ChainReadAdvances | src/parser.rs:94-98 | what the loop leaves is a suffix of its input |
| ExpressionProps.ExpressionReadAdvances | src/parser.rs:91-101 | what `read_expression` leaves is a suffix of its input: the parser only consumes bytes |
| Utf8.AsciiIsValid | src/parser.rs:146 | every ASCII byte string passes the UTF-8 check |
| FloatSyntax.EmptyIsNotLiteral | src/parser.rs:147 | the empty buffer always fails to convert |
| ParserExamples.ReadThree | src/parser.rs:208-222 | on `[1,2,3]` three reads give 1, 2 and 3, and a fourth fails with "EOF" on the empty cursor |
| ParserExamples.SpaceClasses | src/parser.rs:232-243 | `is_at_eof` and `is_space` on the tested bytes |
| ParserExamples.SpaceExample | src/parser.rs:245-250 | `space` on "  abc 123   " leaves "abc 123   " |
| ParserExamples.DefaultClassifiers | src/parser.rs:255-262 | with no hooks, `a` may start a function or variable name but not a constant |
| ParserExamples.ConstHook | src/parser.rs:264-269 | a hook that accepts every byte makes `a` a constant byte |
| ParserExamples.ReadValueDecimal | src/parser.rs:277-281 | `read_value` on "12.34" gives the constant 12.34 and consumes everything |
| ParserExamples.ReadValueExample | src/parser.rs:277-281 | the same through the `ReadValue` method |
| ParserExamples.NumeralValues | src/parser.rs:283-289 | the test numerals are worth exactly 12.34, 43.21 and 11.11 |
| ParserExamples.ParseSum | src/parser.rs:283-289 | `parse("12.34 + 43.21 + 11.11")` gives the three constants joined by two `EPlus` |
| ParserExamples.ParseExample | src/parser.rs:283-289 | the same through the `Parse` method |
| ParserExamples.TrailingTokens | src/parser.rs:99-100 | "1 + 2 x" reads the sum and leaves "x", which `parse` reports as "unparsed tokens remaining" |
| ParserExamples.SpacedSum | src/parser.rs:94-99 | any whitespace around the `+` of a sum of two digits leaves the parse unchanged |
| ParserExamples.OperatorSpacing | src/parser.rs:94-99 | "1+2", "1 + 2" and "1\t+\n2" parse to the same result |
| ParserExamples.DanglingOperator | src/parser.rs:96-114 | "1 +" fails with "InvalidValue" under "read_value" |
| ParserExamples.UnitSuffix | src/parser.rs:135-150 | "1k" is the text "1" with scale 1000, worth 1000 |
| ParserExamples.DigitUnit | src/parser.rs:121-150 | a digit followed by a unit letter reads as the digit with that unit's scale, worth the digit times the scale, and consumes both bytes |
| ParserExamples.UnitExamples | src/parser.rs:135-150 | "2M", "3G" and "4T" read with scales 10^6, 10^9 and 10^12; "5" reads with scale 1 |
| ParserExamples.SingleDigit | src/parser.rs:121-150 | a single digit reads as that digit with scale 1 and consumes it |
| ParserExamples.HookUtf8Error | src/parser.rs:146 | under an accept-all hook, the byte 0xFF fails with "Utf8Error" |
| ParserExamples.HookParseF64Error | src/parser.rs:147-149 | under an accept-all hook, "x" fails with "parse<f64> error" under the context "x" |
| ConstantProps.DecimalValueRead | src/parser.rs:103-150 | `read_value` on a decimal text of digits and `.` that is a valid float literal, followed by a byte that cannot extend it, gives that constant with scale 1 and stops right after it |
| ExpressionProps.ChainTurn | src/parser.rs:93-97 | when the cursor starts with an operator and a value follows it, one turn of the loop appends both tokens and continues from after the value |
| RoundTrip.RenderHead | src/parser.rs:124-129 | what follows a constant in well-formed text starts with whitespace or an operator, so the constant's byte run ends there |
| RoundTrip.StepRead | src/parser.rs:93-97 | one operator with any whitespace on either side, then a decimal, is exactly one turn of the loop, which appends that operator and that constant |
| RoundTrip.FirstStep | src/parser.rs:93-97 | the first step of well-formed text is one turn of the loop, leaving the text of the remaining steps |
| RoundTrip.ChainRoundTrip | src/parser.rs:93-98 | the loop reads the text of any well-formed steps back as exactly their operator and constant tokens, after the tokens read so far, and consumes all of it |
| RoundTrip.ParseRoundTrip | src/parser.rs:86-101 | a decimal followed by well-formed steps parses, with or without `expect_eof`, to exactly the 2N+1 tokens it spells and consumes all of it: the converse of the result shape that `parse` guarantees |

## Left out

- The double a constant evaluates to. `parse::<f64>`'s rounding and `val*multiple` are not modelled: a `Constant` keeps its text and integer scale. `ConstantValue` is the exact rational value for plain decimals, which is all the built-in classifier produces.
- ConstantOf: which texts convert is modelled by the grammar of Rust's documented `f64` `FromStr`, not by Rust's own implementation.
- `std::str::from_utf8` is modelled by RFC 3629's definition of well-formed UTF-8, not by Rust's implementation.
- The `?` after the `read` in `read_const`'s loop and after each `read` of `read_binaryop` that follows a successful `peek_is` is not modelled as a branch. Those reads happen only after a peek has seen a byte, so they cannot fail.
- The `map_err(|e| e.pre("read_binaryop"))` in `read_expression` cannot be reached: `read_binaryop` only runs after `peek_binaryop` has said yes. It has no branch in `ChainAfterOp`.
- The `while` loop of `read_expression` is written as two mutually recursive functions, `ChainRead` (the `peek_binaryop` test) and `ChainAfterOp` (one turn). The alternation of the tokens and the error contexts are stated in lemmas about them rather than on the functions.
- `call_is_func_byte` and `call_is_var_byte` are modelled, but no parse path uses them: name parsing is commented out in `read_value`.
- The commented-out unary-operator, callable and variable branches of `read_value` are left out; they are not part of the code.
- `crate::error::Error` is not part of this model. Only `Error::new` and `.pre` are modelled. Messages and contexts are datatypes; `MessageText` gives the exact strings.
- Lifetimes and the `&dyn Fn` plumbing are left out: hooks are Dafny functions `(byte, nat) -> bool`. Hooks are therefore assumed pure and deterministic. `peek_const` and the first turn of `read_const` both call the constant hook on the same byte at position 0, and the model's "a success consumes at least one byte" relies on the two calls agreeing; a stateful hook that answered differently could reach "parse<f64> error" on the empty text.
- Positions are `nat`, so `usize` overflow is not modelled; it cannot occur on real inputs.
- `benches/bench.rs` is a timing harness over evaluator modules that are not part of this model.
