# memcached response classifier

This project models the response classifier of rpc-perf's memcache parser:
`Response::parse` in `lib/parser/src/memcache.rs`. It proves properties of the
model in Dafny.

rpc-perf reads a memcached server's reply to a text-protocol request into a
growing buffer. After each read it asks `parse` what the buffer holds. `parse`
answers with one of eight outcomes:

- `Incomplete`: wait for more bytes.
- `Ok`, `Miss` or `Hit`: a complete reply of that kind.
- `Error(text)`: the server reported an error; the text is the whole buffer.
- `Version(text)`: the server's version string.
- `Invalid`: a recognised reply shape with a bad field.
- `Unknown`: an unrecognised reply.

The classifier keeps no state and does no I/O. It is a decision tree over
three things:

- the CRLF-delimited lines of the buffer;
- the whitespace-separated tokens of the first line;
- decimal parses of some of those tokens.

## Files

- `rust_str.dfy` (module `RustStr`) covers the pieces of Rust's `str` API that
  the classifier uses:
  - `split("\r\n")` as `SplitCrlf`, and `join("\r\n")` as `JoinCrlf`;
  - `split_whitespace` as `Words`, and `join(" ")` as `JoinSpaces`;
  - `len()` as `ByteLen`.

  It proves the split/join round trips and how a split behaves around a CRLF.
- `rust_num.dfy` (module `RustNum`) covers `str::parse` for `u32`, `u64` and
  `usize` (`ParseUnsigned`). It proves the round trip with decimal rendering.
- `memcache.dfy` (module `Memcache`) holds:
  - the outcome datatype;
  - the classifier: `Parse`, split into `SingleLine` and `MultiLine` the way
    the source branches on the line count;
  - lemmas stating what each branch decides, over every buffer of the given
    shape.
- `memcache_tests.dfy` (module `MemcacheTests`) derives the expected outcome
  of every unit test in `memcache.rs` from the general lemmas.

## Modelling decisions

**Text.** A Rust `&str` is a sequence of Unicode scalar values stored as UTF-8.
The model uses Dafny `string` for it.

- `len()` is the UTF-8 byte count (`ByteLen`), not the character count.
  `RustStr.ByteLenAscii` shows the two agree on ASCII text.
- `split_whitespace` splits on the full Unicode White_Space set, as
  `char::is_whitespace` does. This set contains the ASCII whitespace
  characters, so ASCII input is one case of the model, not a restriction of it.
- A lone `\r` or `\n` can survive the CRLF split inside a line. It then counts
  as whitespace for the tokeniser.

**Numbers.** Unsigned parsing accepts:

- an optional leading `+`;
- then one or more decimal digits;
- with a value no larger than the type's maximum.

Leading zeros are accepted. Every string of digits is some zeros followed by a
canonical decimal rendering, so `LeadingZeroIgnored`, `PlusIgnored` and
`DecimalRoundTrip` together give the result of `ParseUnsigned` on every such
string. The ensures clauses of `ParseUnsigned` make every other string fail.

`usize` is taken to be 64 bits wide. At `memcache.rs:107` the length field is
parsed as `usize`, because it is compared against `data.len()`.

**Panics.** The source indexes `lines[0]` and `tokens[0]` without a check, so
it panics on the following inputs:

- the empty buffer;
- any CRLF-terminated buffer whose first line is empty or only whitespace,
  `"\r\n"` included.

The classifier is therefore not total, and the model follows the code.
`Memcache.Parse` has the precondition `!Panics(response)`, so it has no result
on the inputs where the source panics. `Memcache.PanicCondition` states
exactly which buffers that excludes.

**Redundant length check.** The single-line length check (`memcache.rs:39`) is
kept in `SingleLine` as the source writes it. `Memcache.LengthCheckRedundant`
proves that it can never fail.

**Long VALUE headers.** A VALUE header with six or more tokens gets no check
beyond its flags and length fields. The source does the same.

**Test buffers.** The unit-test buffers are written line by line: the line's
words joined with single spaces, then CRLF. A lemma ending in `Buffer` next to
each such test proves that this is the literal the unit test passes. For
example, `VersionBuffer` proves that `JoinSpaces(["VERSION", "1.2.3"]) + CRLF`
is `"VERSION 1.2.3\r\n"`.
Tests that repeat one shape for several tokens take the token as a parameter
ranging over the tested values.

## Model

| member | source | states |
|---|---|---|
| RustStr.ByteLenConcat | lib/parser/src/memcache.rs:39 | the byte length of a concatenation is the sum of the byte lengths |
| RustStr.ByteLenAscii | lib/parser/src/memcache.rs:109 | on ASCII text the byte length equals the character count |
| RustStr.JoinSplit | lib/parser/src/memcache.rs:25 | rejoining the CRLF-split pieces with CRLF gives back the original string |
| RustStr.SplitJoin | lib/parser/src/memcache.rs:106 | splitting CRLF-joined pieces that contain no CRLF gives back exactly those pieces |
| RustStr.SplitAround | lib/parser/src/memcache.rs:25 | splitting `a + CRLF + b` gives the pieces of `a` followed by the pieces of `b` |
| RustStr.SplitPiecesNoCrlf | lib/parser/src/memcache.rs:25 | no piece of a CRLF split contains CRLF |
| RustStr.SplitNoCrlf | lib/parser/src/memcache.rs:25 | a string with no CRLF splits into itself alone |
| RustStr.LastPieceEmpty | lib/parser/src/memcache.rs:25-32 | the last piece of the split is empty exactly when the string is empty or ends in CRLF |
| RustStr.JoinSnoc | lib/parser/src/memcache.rs:106 | joining one more piece appends CRLF and that piece |
| RustStr.WordsJoinSpaces | lib/parser/src/memcache.rs:70 | tokenising words joined by single spaces gives back those words |
| RustStr.WordsEmpty | lib/parser/src/memcache.rs:34 | a line has no tokens exactly when every character of it is whitespace |
| RustStr.JoinSpacesNoCr | lib/parser/src/memcache.rs:70 | words joined by spaces contain no carriage return and so no CRLF |
| RustNum.ParseUnsigned | lib/parser/src/memcache.rs:61 | a successful unsigned parse yields a value no larger than the type's maximum, from a token of decimal digits with at most one leading `+` and at least one digit; any other character makes the parse fail |
| RustNum.DecimalRoundTrip | lib/parser/src/memcache.rs:89 | parsing the decimal rendering of n gives n when n fits the type, and an error when it overflows |
| RustNum.PlusSignAccepted | lib/parser/src/memcache.rs:96 | a leading `+` is accepted and does not change the parsed value |
| RustNum.DecimalValueLeadingZero | lib/parser/src/memcache.rs:61 | a leading zero does not change the value of a digit string |
| RustNum.LeadingZeroIgnored | lib/parser/src/memcache.rs:96 | leading zeros are accepted and do not change the parsed value (so `"007"` parses as 7, and `"00"` flags pass the `u32` check) |
| RustNum.PlusIgnored | lib/parser/src/memcache.rs:107 | a `+` in front of any non-empty digit string is accepted and does not change the parsed value |
| RustStr.ByteLen | lib/parser/src/memcache.rs:39 | `str::len`: the UTF-8 byte count (1 to 4 bytes per character), so between the character count and four times it |
| RustStr.SplitCrlf | lib/parser/src/memcache.rs:25 | `split("\r\n")`: the pieces between CRLF occurrences found left to right; always at least one piece (round trips proved by JoinSplit and SplitJoin) |
| RustStr.JoinCrlf | lib/parser/src/memcache.rs:106 | `join("\r\n")`: the pieces separated by CRLF (definition; its partner is SplitCrlf through JoinSplit and SplitJoin) |
| RustStr.IsWhitespace | lib/parser/src/memcache.rs:34 | `char::is_whitespace`: the Unicode White_Space set, ASCII tab to carriage return and space included (definition) |
| RustStr.Words | lib/parser/src/memcache.rs:34 | `split_whitespace`: the maximal runs of non-whitespace, each a non-empty whitespace-free token |
| RustStr.WordsAround | lib/parser/src/memcache.rs:34 | a run of one or more whitespace characters of any kind (tabs, several spaces, a stray `\r`) separates the tokens before it from the tokens after it |
| RustStr.WordsSkipWhitespace | lib/parser/src/memcache.rs:34 | leading whitespace of any kind and length adds no token |
| RustStr.LeadingWordBeforeWhitespace | lib/parser/src/memcache.rs:34 | a token ends at the first whitespace character after it |
| RustStr.JoinSpaces | lib/parser/src/memcache.rs:70 | `join(" ")`: the words separated by single spaces (definition; its partner is Words through WordsJoinSpaces) |
| RustNum.DecimalValue | lib/parser/src/memcache.rs:61 | the value of a digit string, most significant digit first (definition; inverted by Decimal in DecimalValueOfDecimal) |
| RustNum.DecimalValueOfDecimal | lib/parser/src/memcache.rs:61 | the value of the decimal rendering of n is n |
| Memcache.IsAck | lib/parser/src/memcache.rs:46-48 | the tokens OK, STORED and DELETED (definition) |
| Memcache.IsMissToken | lib/parser/src/memcache.rs:49-51 | the tokens END, EXISTS, NOT_FOUND and NOT_STORED (definition) |
| Memcache.IsCounter | lib/parser/src/memcache.rs:60-63 | a token that parses as `u64` (definition) |
| Memcache.Panics | lib/parser/src/memcache.rs:28-34 | the unchecked `lines[0]` and `tokens[0]` indexing (also at :45, :65, :82): a terminated buffer with no line, or whose first line has no token (characterised by PanicCondition) |
| Memcache.Payload | lib/parser/src/memcache.rs:106 | the payload: the lines strictly between the header and the last line, rejoined with CRLF (definition) |
| Memcache.ValueHeaderOk | lib/parser/src/memcache.rs:84-101 | the header passes every check made before END: at least four tokens, a `u64` fifth token when there are exactly five, `u32` flags (definition) |
| Memcache.Parse | lib/parser/src/memcache.rs:22-131 | the classifier; an Error outcome always carries the entire input, CRLF included |
| Memcache.SingleLine | lib/parser/src/memcache.rs:37-80 | a one-line reply is never Hit or Invalid; Ok only for an acknowledgement or u64 token alone, Miss only for a negative token alone, Error only for a lone ERROR or a CLIENT_ERROR/SERVER_ERROR with a message, Version only for VERSION with at least one more token |
| Memcache.MultiLine | lib/parser/src/memcache.rs:81-128 | a multi-line reply is never Ok, Miss, Error or Version; Hit only with a good VALUE header, a final END line and a declared length equal to the payload's byte length |
| Memcache.IncompleteUntilTerminated | lib/parser/src/memcache.rs:25-32 | every non-empty buffer that does not end in CRLF is Incomplete |
| Memcache.PanicCondition | lib/parser/src/memcache.rs:28-34 | the source panics exactly on the empty buffer and on a CRLF-terminated buffer whose first line is all whitespace |
| Memcache.LinesOfTerminated | lib/parser/src/memcache.rs:25-29 | a CRLF-terminated buffer is its CRLF-free lines joined with CRLF, plus a final CRLF |
| Memcache.LinesFrame | lib/parser/src/memcache.rs:25-29 | a buffer built from CRLF-free lines splits back into those lines and an empty last piece |
| Memcache.ParseOfLines | lib/parser/src/memcache.rs:34-37 | on a buffer given by its lines, one line goes to the single-line decisions and several lines to the multi-line ones |
| Memcache.LengthCheckRedundant | lib/parser/src/memcache.rs:37-41 | a one-line buffer is that line plus CRLF, so the length check never returns Incomplete |
| Memcache.SingleTokenLine | lib/parser/src/memcache.rs:44-63 | for a one-token line: Ok iff the token is an acknowledgement or a u64; Miss iff it is a negative token; Incomplete iff it is VALUE; Error iff it is ERROR; Unknown iff none of these (so a bare CLIENT_ERROR, SERVER_ERROR or VERSION is Unknown) |
| Memcache.OneTokenDecisions | lib/parser/src/memcache.rs:44-63 | the same iffs, for the single-line decisions once the length check has passed |
| Memcache.CounterReply | lib/parser/src/memcache.rs:60-63 | every u64 written in decimal, alone on its line, is Ok |
| Memcache.MultiTokenLine | lib/parser/src/memcache.rs:64-79 | for a line of two or more tokens: VALUE is Incomplete; VERSION gives the remaining tokens joined by spaces (which tokenise back to those tokens); CLIENT_ERROR/SERVER_ERROR are Error of the whole buffer; anything else is Unknown |
| Memcache.MultiLineNotValue | lib/parser/src/memcache.rs:81-127 | a multi-line reply whose first token is not VALUE is Unknown |
| Memcache.ValueHeaderChecks | lib/parser/src/memcache.rs:83-101 | before END is checked: fewer than 4 header tokens is Incomplete, a non-u64 fifth token is Invalid, a non-u32 flags token is Invalid |
| Memcache.ValuePayload | lib/parser/src/memcache.rs:102-123 | with a good header: no final END is Incomplete; a non-usize length is Invalid; otherwise Hit iff the payload's byte length equals the declared length, Invalid iff longer, Incomplete iff shorter |
| Memcache.ValueBlock | lib/parser/src/memcache.rs:83-123 | for header, payload and END on the wire (CRLFs inside the payload allowed), the same decisions stated over the header tokens and the payload's byte length |
| Memcache.ValueBlockLines | lib/parser/src/memcache.rs:106 | the lines of a VALUE block are the header, the payload's pieces and END, and the payload rejoins to the data |
| Memcache.ValueBlockUnfinished | lib/parser/src/memcache.rs:102-105 | a good VALUE header followed by payload lines with no END line is Incomplete, however long the payload |
| Memcache.UnfinishedLines | lib/parser/src/memcache.rs:102-106 | a header line plus payload lines splits into the header followed by the payload's pieces |
| Memcache.MultiLineWithoutEnd | lib/parser/src/memcache.rs:102-105 | with a good header and a last line other than END, the multi-line decision is Incomplete |
| Memcache.HitShape | lib/parser/src/memcache.rs:106-111 | Hit implies: CRLF-terminated, at least two lines, a good VALUE header, a final END line, and a declared length equal to the payload's byte length |
| Memcache.ErrorShape | lib/parser/src/memcache.rs:55-74 | Error implies a one-line reply that is a lone ERROR, or CLIENT_ERROR/SERVER_ERROR with a message, and the outcome carries the whole buffer |
| Memcache.VersionShape | lib/parser/src/memcache.rs:69-71 | Version implies a one-line reply of VERSION and at least one more token, and the version string tokenises back to those tokens |
| MemcacheTests.ParseUnterminatedCases | lib/parser/src/memcache.rs:139-177 | each unterminated test buffer is Incomplete |
| MemcacheTests.HeaderOnlyBuffer | lib/parser/src/memcache.rs:167 | the built buffer is `"VALUE key 0 1 0\r\n"` |
| MemcacheTests.ParseValueHeaderOnly | lib/parser/src/memcache.rs:167-168 | `VALUE key 0 1 0` alone on a line is Incomplete |
| MemcacheTests.WithoutEndBuffer | lib/parser/src/memcache.rs:170 | the built buffer is `"VALUE key 0 10\r\n0123456789\r\n"` |
| MemcacheTests.ParseValueWithoutEnd | lib/parser/src/memcache.rs:170-171 | a VALUE block whose END line has not arrived is Incomplete |
| MemcacheTests.LongPayloadBuffer | lib/parser/src/memcache.rs:182 | the built buffer is `"VALUE key 0 10\r\n0123456789ABCDEF\r\nEND\r\n"` |
| MemcacheTests.ParseLongPayloadInvalid | lib/parser/src/memcache.rs:182-183 | a 16-byte payload declared as 10 bytes is Invalid |
| MemcacheTests.BadLengthBuffer | lib/parser/src/memcache.rs:185 | the built buffer is `"VALUE key 0 NaN\r\n0123456789ABCDEF\r\nEND\r\n"` |
| MemcacheTests.ParseBadLengthInvalid | lib/parser/src/memcache.rs:185-186 | a length field `NaN` is Invalid |
| MemcacheTests.BadFlagsBuffer | lib/parser/src/memcache.rs:188 | the built buffer is `"VALUE key NaN 10\r\n0123456789\r\nEND\r\n"` |
| MemcacheTests.ParseBadFlagsInvalid | lib/parser/src/memcache.rs:188-189 | a flags field `NaN` is Invalid |
| MemcacheTests.TokenLine | lib/parser/src/memcache.rs:44-57 | for a test token alone on its line: Ok iff acknowledgement or u64, Miss iff negative token, Error iff ERROR |
| MemcacheTests.ParseOkCases | lib/parser/src/memcache.rs:194-201 | `OK`, `STORED` and `DELETED` lines are Ok |
| MemcacheTests.HitBuffer | lib/parser/src/memcache.rs:203 | the built buffer is `"VALUE key 0 10\r\n0123456789\r\nEND\r\n"` |
| MemcacheTests.ParseHitCase | lib/parser/src/memcache.rs:203-207 | a 10-byte payload declared as 10 bytes, then END, is a Hit |
| MemcacheTests.ParseCounterCase | lib/parser/src/memcache.rs:209-210 | `12345` alone on a line is Ok |
| MemcacheTests.ParseBareError | lib/parser/src/memcache.rs:215-216 | `ERROR` is an Error carrying the whole buffer |
| MemcacheTests.ErrorMessageBuffer | lib/parser/src/memcache.rs:218-222 | the built buffer is the error word followed by `" some message\r\n"` |
| MemcacheTests.ParseErrorWithMessage | lib/parser/src/memcache.rs:218-224 | CLIENT_ERROR and SERVER_ERROR with a message are Errors carrying the whole buffer |
| MemcacheTests.ParseMissCases | lib/parser/src/memcache.rs:229-236 | `EXISTS`, `NOT_FOUND` and `NOT_STORED` lines are Miss |
| MemcacheTests.VersionBuffer | lib/parser/src/memcache.rs:241 | the built buffer is `"VERSION 1.2.3\r\n"` |
| MemcacheTests.ParseVersionCase | lib/parser/src/memcache.rs:241-242 | `VERSION 1.2.3` gives Version("1.2.3") |

## Left out

- src/logger.rs is not part of this model. It prints timestamped log lines to
  stdout through an external logging crate: I/O, a wall clock and foreign
  calls, with no classification logic.
- The parent module's `Parse` trait and `ParsedResponse` type are not shown
  (`memcache.rs:16`). The eight-outcome datatype is re-declared in
  `Memcache`, and nothing else of that module is assumed.
- The caller's read/retry loop, its socket handling and its request
  construction are not part of this model.
- Memcache.Parse: has no outcome for the inputs on which the source panics
  (the precondition `!Panics`). `Memcache.PanicCondition` characterises those
  inputs.
- Memcache.Parse: `usize` is fixed at 64 bits. On a 32-bit target a length
  field above 4294967295 would parse as Invalid rather than being compared.
- Memory allocation, the intermediate `Vec`s and the `lines.pop()` at
  `memcache.rs:29` are not modelled as such. The pop becomes taking a prefix of
  the split.
