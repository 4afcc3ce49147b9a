# SUB command codec of a NATS client, in Dafny

This project models the SUB command of the NATS client protocol as
implemented in `src/protocol/client/sub_cmd.rs`. SUB registers interest in a
subject, optionally inside a queue group, under a subscription id (sid). The
model covers three things:

- the encoder `into_vec`, which writes the frame
  `SUB\t<subject>[\t<queue group>]\t<sid>\r\n`;
- the parser `try_parse`, which checks the `\r\n` terminator, decodes the line
  as UTF-8, splits it on whitespace and picks the fields out of the token list
  with the iterator calls `next` / `next_back`;
- the builder check `SubCommandBuilder::validate`.

Rust strings and buffers are both byte sequences here. `Utf8.Text` is the set
of byte sequences that are well-formed UTF-8 (section 3.9, Table 3-7 of the
Unicode Standard), which is the invariant of Rust's `String`. The fields of
`SubCommand` have that type. `std::str::from_utf8` becomes the check
`Utf8.Valid`. `split_whitespace` becomes `Whitespace.SplitWhitespace`, which
splits on the ASCII whitespace bytes. Because an ASCII byte in well-formed
UTF-8 always stands alone, every token of well-formed text is well-formed text
again (`SplitWhitespaceKeepsUtf8`).

The body of `check_cmd_arg!` is not part of this model. It is assumed to
accept exactly the non-empty strings that contain no ASCII whitespace; that
predicate is `SubCmd.ValidArg`.

`SplitWhitespace` is pinned down from both sides. `SplitSpaced` says that
tokens laid out with whitespace gaps split back into exactly those tokens.
`SplitDecomposes` says that every text is laid out that way from its own
split.

Files: `wrappers.dfy` (Option, Result), `utf8.dfy` (bytes, UTF-8
well-formedness), `split_whitespace.dfy` (splitting and joining),
`sub_cmd.dfy` (the command, codec and validation), `sub_cmd_tests.dfy` (the
source's unit tests and further example frames).

## Model

| member | source | states |
|---|---|---|
| SubCmd.Encode | src/protocol/client/sub_cmd.rs:34-44 | Encoding never fails. The frame begins with the command name `SUB` followed by a tab, and it ends with `\r\n`. |
| SubCmd.EncodeFrame | src/protocol/client/sub_cmd.rs:35-43 | The frame is the fields `SUB`, subject, [queue group], sid joined by single tabs, then `\r\n`. The queue group and its tab appear exactly when a group is present. |
| SubCmd.EncodedLineValid | src/protocol/client/sub_cmd.rs:41-43 | The frame without its terminator is well-formed UTF-8. |
| SubCmd.EncodeNoAdjacentSeparators | src/protocol/client/sub_cmd.rs:35-41 | When every field obeys the argument rule, no two tabs are adjacent in the frame. An absent queue group therefore leaves no empty field. Derived from EncodeFrame and the general `Whitespace.JoinNoAdjacentSeparators`. |
| SubCmd.Parse | src/protocol/client/sub_cmd.rs:46-73 | For a buffer of at least two bytes: no `\r\n` at the end gives IncompleteCommandError; ill-formed UTF-8 before it gives DecodeError. Otherwise, with t the whitespace tokens: fewer than 3 tokens or a first token other than `SUB` gives CommandMalformed. Else subject = t[1] and sid = the last token; the queue group is absent with 3 tokens and is t[2] with 4 or more, and any further middle tokens are dropped. |
| SubCmd.RoundTrip | src/protocol/client/sub_cmd.rs:34-73 | If subject, sid and any queue group obey the argument rule, parsing the encoding of a command gives back that command. |
| SubCmd.ParseAnySpacing | src/protocol/client/sub_cmd.rs:46-73 | If a command's fields obey the argument rule, it parses back from any layout of its fields with whitespace gaps. The layout may be runs of any length and kind between the fields, and optional runs before and after them. |
| SubCmd.Validate | src/protocol/client/sub_cmd.rs:77-89 | Validation succeeds iff a set subject and a set queue group obey the argument rule. A bad subject is reported as field "subject"; otherwise a bad group is reported as "queue group". |
| SubCmd.ValidateIgnoresSid | src/protocol/client/sub_cmd.rs:77-89 | The result of validation does not depend on the sid. |
| SubCmd.ValidatedRoundTrip | src/protocol/client/sub_cmd.rs:34-89 | A command whose fields pass validation round-trips, provided its sid obeys the argument rule as a separate condition. |
| SubCmd.ValidateAcceptsSplittingSid | src/protocol/client/sub_cmd.rs:77-89 | Take any sid of the form a + tab + b with a, b valid arguments. Validation accepts it, but the encoded frame parses back as queue group a and sid b, which is a different command. |
| SubCmd.ValidateAcceptsSplittingSidExample | src/protocol/client/sub_cmd.rs:77-89 | The concrete case: subject `FOO`, sid `a\tb` validates and comes back as queue group `a`, sid `b`. |
| SubCmd.ValidateWithSid | src/protocol/client/sub_cmd.rs:77-89 | Corrected validation: it succeeds iff the source's checks pass and a set sid also obeys the argument rule. When the source's check fails, it reports the same error. |
| SubCmd.ValidateWithSidRoundTrip | src/protocol/client/sub_cmd.rs:77-89 | Every command whose builder passes the corrected validation round-trips through encode and parse. |
| SubCmd.GeneratedSidIsValidArg | src/protocol/client/sub_cmd.rs:25-28 | A sid shaped like `generate_sid`'s output (12 ASCII letters or digits) is well-formed text and obeys the argument rule, so it never blocks the round trip. |
| Utf8.LeadWidth | src/protocol/client/sub_cmd.rs:53 | The width, at most 4 bytes, of the well-formed UTF-8 encoding at the front of the bytes, or 0 if there is none. It is 1 exactly for an ASCII byte, and the bytes after the first are never ASCII. |
| Utf8.Valid | src/protocol/client/sub_cmd.rs:53 | Accepts exactly the sequences of well-formed encodings of Table 3-7, which is what `from_utf8` accepts. Well-formed text never starts with a continuation byte. |
| SubCmd.Next | src/protocol/client/sub_cmd.rs:55-66 | `next` on the split iterator: None exactly when no token remains, otherwise the front token and the rest. |
| SubCmd.NextBack | src/protocol/client/sub_cmd.rs:64 | `next_back` on the split iterator: None exactly when no token remains, otherwise the back token and the rest. |
| Wrappers.Option.ToResult | src/protocol/client/sub_cmd.rs:55-64 | `ok_or_else`: Ok exactly when the option holds a value, and then with that value; otherwise Err with the given error. |
| SubCmd.BuilderOf | src/protocol/client/sub_cmd.rs:6-18 | The derived builder with every field set from a command. Validation accepts it iff subject and group obey the argument rule, and the corrected validation accepts it iff all fields do. |
| Whitespace.SplitWhitespace | src/protocol/client/sub_cmd.rs:54 | Every token is non-empty and free of whitespace. |
| Whitespace.SplitDropsLeadingGap | src/protocol/client/sub_cmd.rs:54 | A whitespace run at the front of the text is dropped and changes no token. |
| Whitespace.SplitSpaced | src/protocol/client/sub_cmd.rs:54 | Tokens laid out with whitespace gaps split back into exactly those tokens. The gaps between tokens are non-empty runs of any length; those at either end may be empty. |
| Whitespace.SplitDecomposes | src/protocol/client/sub_cmd.rs:54 | Every text is its own tokens laid out with such gaps, so the tokens are its maximal whitespace-free runs. |
| Whitespace.SplitWhitespaceContents | src/protocol/client/sub_cmd.rs:54 | Splitting drops exactly the whitespace: the tokens concatenated are the non-whitespace bytes of the line, in order. |
| Whitespace.SplitJoin | src/protocol/client/sub_cmd.rs:54 | Splitting tokens that were joined with a whitespace separator gives back exactly those tokens. |
| Whitespace.JoinNoAdjacentSeparators | src/protocol/client/sub_cmd.rs:35-41 | Joining non-empty whitespace-free tokens with a whitespace separator never puts two separators side by side, and the result does not end with one. |
| Whitespace.SpacedKeepsUtf8 | src/protocol/client/sub_cmd.rs:53-54 | Well-formed tokens laid out with whitespace gaps form well-formed UTF-8. |
| Whitespace.SplitWhitespaceKeepsUtf8 | src/protocol/client/sub_cmd.rs:53-54 | Every token of well-formed UTF-8 text is well-formed UTF-8, so parsed fields are valid strings. |
| SubCmdTests.ItParses | src/protocol/client/sub_cmd.rs:99-106 | `SUB\tFOO\tpouet\r\n` parses with subject `FOO`, sid `pouet` and no queue group. |
| SubCmdTests.ItStringifies | src/protocol/client/sub_cmd.rs:108-121 | The builder with subject `FOO` and sid `pouet` validates, and that command encodes to exactly `SUB\tFOO\tpouet\r\n`. |
| SubCmdTests.ParsesQueueGroup | src/protocol/client/sub_cmd.rs:62-72 | `SUB\tFOO\tGRP1\tpouet\r\n` parses with queue group `GRP1`. |
| SubCmdTests.ParsesDroppingExtraTokens | src/protocol/client/sub_cmd.rs:64-66 | With five tokens the group is the third token, the sid is the last one, and the fourth token is dropped. |
| SubCmdTests.ParsesIrregularWhitespace | src/protocol/client/sub_cmd.rs:54-72 | ` SUB \t FOO\x0B\x0Cpouet \r\n`, with runs of mixed whitespace between and around the tokens, parses to subject `FOO`, sid `pouet` and no group. |
| SubCmdTests.RejectsMissingTerminator | src/protocol/client/sub_cmd.rs:47-51 | `SUB\tFOO\tpouet` with no `\r\n` is IncompleteCommandError. |
| SubCmdTests.RejectsOtherCommand | src/protocol/client/sub_cmd.rs:54-59 | `PUB\tFOO\tpouet\r\n` is CommandMalformed. |

## Left out

- `generate_sid` draws from a thread-local random generator. The sid is a caller-supplied value; only the shape of the generator's output is stated (`GeneratedSidIsValidArg`).
- The code that `derive_builder` generates is generated by the macro and not modelled. That covers the setters, the required-field check for `subject`, the defaults `None` and `generate_sid()`, and the `build` function. `BuilderOf` gives the builder with every field set.
- `check_cmd_arg!` is defined in `src/protocol` and not modelled. Its rule is assumed to be `ValidArg`, and its error message is modelled only by the field name it reports.
- Parse: `split_whitespace` splits on every Unicode whitespace character. The model splits only on the ASCII ones (space and 0x09 to 0x0D), so non-ASCII whitespace such as U+00A0 or U+3000 stays inside a token.
- RoundTrip: `ValidArg` excludes only ASCII whitespace, so this lemma, ValidatedRoundTrip and ValidateWithSidRoundTrip also cover fields that hold non-ASCII whitespace. The source would split those. For example, subject `a` U+00A0 `b` (bytes 61 C2 A0 62) with sid `pouet` comes back from the source as subject `a`, group `b`. The round trip is promised only for arguments without any Unicode whitespace.
- Parse: a buffer shorter than two bytes makes the source panic through an index underflow. The model requires at least two bytes and gives that case no behaviour.
- The conversion from `std::str::Utf8Error` into `CommandError` is defined in `src/protocol` and not modelled. Its variant is named `DecodeError` here.
- The `Command` and `CommandError` definitions in `src/protocol` are not modelled, and neither is `bytes::Bytes`. Only `CMD_NAME` and the two operations used here are modelled.

## Findings

| source | as written | input that shows it | evidently intended | confidence | as-written member | corrected member |
|---|---|---|---|---|---|---|
| src/protocol/client/sub_cmd.rs:77-89 | `validate` checks the subject and the queue group but never the sid, although the sid is documented as alphanumeric (line 15) and whitespace is the field separator. | builder with subject `FOO` and sid `a\tb`: it validates, encodes to `SUB\tFOO\ta\tb\r\n`, and that frame parses as queue group `a`, sid `b` | a set sid is checked with the same argument rule, so every validated command round-trips | medium, not executed | SubCmd.ValidateAcceptsSplittingSid | SubCmd.ValidateWithSidRoundTrip |
