# md.rs byte scanners, modelled in Dafny

This project models the byte-level scanning core of the `md.rs` Markdown parser in
Dafny. The repository holds two snapshots of the parser, and both are modelled.

- **Reader-based snapshot.** This is `src/lib.rs` and `src/md/lib.rs`, plus the block
  productions in `block_quote.rs`, `block_code.rs`, `misc.rs` and `atx_heading.rs`, and
  `inline/mod.rs`. It reads from a `Reader` through a replay buffer. Its productions
  return the four-way `ParseResult`: `Success`, `PartialSuccess`, `Failure` or `NoParse`.
- **Slice-based snapshot.** This is `block/mod.rs`, `lists.rs`, `emphasis.rs`,
  `escape.rs` and `link.rs`. It walks an immutable byte slice with a cursor. Its
  productions return `Success`, `NoParse` or `End`.

Every production is a pure function of the input bytes and a position. It returns a
result and the position after it. Marks are saved positions, and a reset returns to one.

The modules follow the source:

- `Util` models `src/util.rs`: character classes, byte matchers, and the four trims.
- `Io` holds the byte source. It delivers its bytes, then one error, which is end of
  file or another kind.
- `Errors` and `Results` model `src/result.rs`.
- `Replay` models `Buf` and `BufferStack` of `src/lib.rs`.
- `Drain` models `read_while_possible`, in both copies.
- `Scan` holds the reading primitives of the reader-based snapshot. `Cursor` holds those
  of the slice-based one.
- `InlineParser` models `inline` and `find_emph_closing`.
- `BlockQuoteParser`, `BlockCodeParser`, `MiscParser` and `AtxHeadingParser` model the
  reader-based block productions.
- `BlockParser`, `LibParser` and `ListsParser` model the two `parse_block` dispatchers
  and list aggregation.
- `EmphasisParser`, `EscapeParser` and `LinkParser` model the slice-based inline scanners.
- `ClosingAgreement` relates the closing searches of the two snapshots.
- `Tokens` holds the document tree.

The closing search for emphasis and code spans is stated against a reference walk,
`EmphasisParser.Reached`. The walk steps over the slice one piece at a time, never closing.
A piece is a backslash, an escaped byte, one byte of a delimiter run, a whole code span
through its closing run, or any other byte. A closing candidate, `EmphasisParser.Closes`,
is a position with exactly `n` copies of the delimiter, followed by another byte or the
end. Both snapshots stop at the first candidate the walk reaches. The reader-based one
fails instead when that candidate's run reaches the end of the source, or when there is
no candidate. Without a candidate the slice-based search stops where the walk ends,
`EmphasisParser.WalkEndsAt`. That is the end of the slice, or just after the first
backtick of an opening run that reaches the end. So an unclosed delimiter makes the rest
of the slice its span, unless that rest is empty, ends in a space, or ends a closing run
that was turned down.

Some calls go to code that the repository does not contain or leaves unfinished. Each of
these is a parameter of the model:

- the nested document parse of a block quote's buffer;
- the inline parse of an emphasised span in the slice-based snapshot;
- `parse_list_item`;
- the slice-based block productions;
- the outcome of each reader-based production in `src/lib.rs`, whose bodies there are stubs;
- the rendering of the buffer in `parse_error`;
- the stream of results that `next()` yields.

A byte is an integer newtype in `0..256`. The scanners compare bytes and never operate
on their bits.

## Model

| member | source | states |
|---|---|---|
| Util.CharClassesDisjoint | src/util.rs:20-30 | No byte is in two of the classes emphasis (`*` `_`), code (backtick) and space (space, line feed). An opening delimiter is never the escape byte. |
| Util.AnyMatchesIsMembership | src/util.rs:47-51 | A slice matcher accepts a byte exactly when the byte occurs in the slice. |
| Util.MatcherSemantics | src/util.rs:42-51 | A byte matcher accepts exactly its own byte. A slice matcher accepts exactly its members. |
| Util.FirstUnmatched | src/util.rs:65 | The result is the first index the matcher rejects; every earlier byte is accepted. There is none exactly when every byte is accepted. |
| Util.LastUnmatched | src/util.rs:72 | The result is the last index the matcher rejects; every later byte is accepted. There is none exactly when every byte is accepted. |
| Util.TrimLeft | src/util.rs:64-69 | The result is a suffix of the input. Every dropped byte matches, and the first kept byte does not. The result is empty exactly when every byte matches. |
| Util.TrimRight | src/util.rs:71-76 | The result is a prefix of the input. Every dropped byte matches, and the last kept byte does not. The result is empty exactly when every byte matches. |
| Util.TrimLeftIdempotent | src/util.rs:64-69 | Trimming on the left a second time changes nothing. |
| Util.TrimRightIdempotent | src/util.rs:71-76 | Trimming on the right a second time changes nothing. |
| Util.TrimRightUnique | src/util.rs:71-76 | The prefix `trim_right` keeps is the only one that is followed by matching bytes only and does not end in a matching byte. |
| Util.TrimLeftOne | src/util.rs:79-84 | The first byte is dropped exactly when it matches. The empty slice is returned unchanged. |
| Util.TrimRightOne | src/util.rs:87-92 | The last byte is dropped exactly when it matches. The empty slice is returned unchanged. |
| Util.TrimLeftOneAbsorbed | src/util.rs:64-84 | A full left trim after a one-byte trim gives the same slice as the full trim alone. |
| Util.TrimRightOneAbsorbed | src/util.rs:71-92 | A full right trim after a one-byte trim gives the same slice as the full trim alone. |
| Io.SubSource | src/parser/block/misc.rs:77 | A buffer pushed for a nested parse delivers exactly its bytes, then end of file. |
| Errors.Show | src/result.rs:27-33 | A parse error renders as `parse error: ` followed by its message. An I/O error renders as `i/o error: ` followed by its description. |
| Errors.ShowParseErrorIsInjective | src/result.rs:29-32 | Only `ParseError(msg)` renders as the text of `ParseError(msg)`. In particular, no I/O error does. |
| Errors.FromIo | src/result.rs:38-40 | `from_io` wraps its argument as an `IoError` and keeps it as the cause. |
| Errors.FromIoFaithful | src/result.rs:29-40 | A wrapped I/O error renders with its description, and distinct causes stay distinct. |
| Results.ToResult | src/result.rs:12-17 | The result is `Ok` exactly when the input is not a failure. `Ok` carries the value, full or partial. `Err` carries the error. |
| Results.ToResultRoundTrip | src/md/lib.rs:15-22 | `to_result` undoes the embedding of an ordinary result. The embedding undoes `to_result` exactly on results that are not partial. |
| Replay.ReadSource | src/lib.rs:35 | A source read delivers the next byte and advances. At the end it reports the source's error and does not advance. |
| Replay.NewBuf | src/lib.rs:25-27 | A new buffer is empty, at position 0. |
| Replay.ReadFrom | src/lib.rs:29-41 | Inside the recorded data, the read replays `data[pos]`, advances, and leaves the source alone. At the end of the data, a delivered byte is appended and is then `data[pos-1]`. A failed read changes nothing. `pos <= \|data\|` is kept. |
| Replay.Rewind | src/lib.rs:43-45 | A rewind keeps the data and returns to position 0. |
| Replay.Consume | src/lib.rs:47-50 | Consuming leaves an empty buffer at position 0. |
| Replay.ReplayReadsRecorded | src/lib.rs:30-33 | `k` reads inside the recorded data return the next `k` recorded bytes in order, and the source is not touched. |
| Replay.RewindReplaysAll | src/lib.rs:29-45 | After a rewind, the next `\|data\|` reads return the whole recording in order. They end at its end and leave the source where it was. |
| Replay.NewStack | src/lib.rs:59 | A new stack holds no buffer. |
| Replay.PushNew | src/lib.rs:61-63 | An empty buffer goes on top, and the buffers below are unchanged. |
| Replay.Pop | src/lib.rs:65-68 | On a non-empty stack, the top buffer goes and the rest are unchanged. |
| Replay.RewindTop | src/lib.rs:70-73 | Only the top buffer is rewound; the buffers below are unchanged. |
| Replay.ConsumeTop | src/lib.rs:75-78 | Only the top buffer is consumed; the buffers below are unchanged. |
| Replay.ReadFromTop | src/lib.rs:80-83 | The read goes through the top buffer exactly as `Buf::read_from` does. The buffers below are unchanged. |
| Drain.ReadWhilePossible | src/md/lib.rs:64-83 | The document holds the tokens of the leading successes, then the token of a partial success that stops the loop. The error is the partial success's error, or that of a failure other than end of file. It is none exactly when the loop stops at an end-of-file failure. |
| Drain.LibReadWhilePossibleAgrees | src/lib.rs:134-149 | The early-returning loop of `src/lib.rs` returns exactly the document and error of `src/md/lib.rs`, for every stream that stops. |
| Drain.IterNext | src/md/lib.rs:56-61 | The iterator yields the value of a full or partial success, and nothing for a failure. |
| Scan.ReadBytePr | src/parser/block/atx_heading.rs:11 | A byte read returns the byte and advances. At the end it fails with the source's error. |
| Scan.ReadChar | src/parser/block/block_quote.rs:9 | The result is success when the next byte is the expected one and `NoParse` when it is another. The end of the source is a failure. Either byte is consumed. |
| Scan.TryReadChar | src/parser/block/block_quote.rs:10 | Like `read_char`, except that a byte that is not the expected one is left unread. |
| Scan.UnreadByte | src/parser/block/atx_heading.rs:5 | Steps back one byte, never before the start. |
| Scan.SkipInitialSpaces | src/parser/block/block_quote.rs:8 | At most three spaces are skipped, and fewer only when a non-space or the end comes first. |
| Scan.SkipSpaces | src/parser/block/atx_heading.rs:20-23 | Skips to the end of the run of spaces. Reaching the end of the source fails, and is partial when some spaces were skipped. |
| Scan.ReadLine | src/parser/block/block_quote.rs:21 | The bytes appended are the source bytes read. A success ends at the first line feed. A failure is at the end of the source, with the unterminated rest appended. |
| Scan.TryParseEmptyLine | src/parser/block/block_quote.rs:24 | A blank line is consumed. A line with other content is `NoParse` and keeps the position. Trailing spaces at the end of the source are a failure. |
| Scan.OneLineRead | src/parser/block/block_quote.rs:21 | On a line, `read_line_pr` succeeds and appends exactly that line. |
| Scan.BlankLineSkipped | src/parser/block/block_quote.rs:24-25 | On a blank line, `try_parse_empty_line` succeeds and stops right after it. |
| InlineParser.CloseTicks | src/parser/inline/mod.rs:63-79 | The copy is exactly the bytes read. Without a failure it ends just after `sn` backticks in a row, at least `sn - tn` bytes on. A failure happens only at the end of the source. That the run is the first one is stated by `ClosingAgreement.TickSpanEndsAtFirstRun`. |
| InlineParser.TickSpan | src/parser/inline/mod.rs:52-80 | Without a failed read, the span is exactly the bytes from its opening run to where it stopped. A stop of the scan always comes with a failure. That the span ends at the first later run of `sn` backticks is stated by `ClosingAgreement.TickSpanEndsAtFirstRun`. |
| InlineParser.ScanEmph | src/parser/inline/mod.rs:25-88 | Unless a read failed, the content is exactly the bytes before a run of exactly `n` bytes `ec`, and the scan stops right after that run. Which run that is, is stated by `ClosingAgreement.ScanEmphAgrees`. |
| InlineParser.CopyOne | src/parser/inline/mod.rs:28-29 | A copied byte goes in front of the rest of the scan, and the closing property is kept. |
| InlineParser.CopySpan | src/parser/inline/mod.rs:52-80 | A copied code span goes in front of the rest of the scan, and the closing property is kept. |
| InlineParser.FindEmphClosing | src/parser/inline/mod.rs:17-94 | A success returns the bytes up to a closing run of exactly `n` bytes `ec` and stops after it. The end of the source gives a partial success. That the run is the first closing candidate is stated by `ClosingAgreement.FindEmphClosingIsFirst`. |
| InlineParser.Inline | src/parser/inline/mod.rs:152-161 | A source that ends in end of file gives a success. Any other error gives a partial success with that error. |
| InlineParser.InlineLoop | src/parser/inline/mod.rs:96-150 | Tokens are only ever appended. The loop ends with the source's end error. |
| InlineParser.Delimiter | src/parser/inline/mod.rs:103-145 | Tokens are only ever appended. The loop ends with the source's end error. |
| InlineParser.PlainBytesCollected | src/parser/inline/mod.rs:148 | Over bytes that are neither escapes nor delimiters, every byte lands in the pending buffer and no token is made. |
| InlineParser.PlainTextIsOneChunk | src/parser/inline/mod.rs:152-158 | Plain text parses to one chunk of its bytes, or to nothing when it is empty. |
| InlineParser.EscapedByteIsLiteral | src/parser/inline/mod.rs:100-101 | A backslash is dropped, and the byte after it is kept literally. |
| InlineParser.SpacedDelimiterIsLiteral | src/parser/inline/mod.rs:103-118 | After a space, a delimiter followed by a space flushes the pending chunk and becomes literal text. |
| InlineParser.PlainSpanCloses | src/parser/inline/mod.rs:32-42 | Over plain bytes, the closing search for `n` delimiters stops at the first delimiter when exactly `n` of them stand there. It returns the bytes before them. |
| InlineParser.DelimitedSpan | src/parser/inline/mod.rs:122-144 | A delimiter, plain text and the same delimiter make one `Code` span for a backtick, or an `Emphasis` of one chunk otherwise. The pending bytes are flushed first. |
| InlineParser.DoubledDelimiterSpan | src/parser/inline/mod.rs:121-144 | A doubled delimiter, plain text and the same doubled delimiter make one `Code` span for backticks, or a `MoreEmphasis` of one chunk otherwise. The pending bytes are flushed first. |
| InlineParser.UnclosedDelimiterDropsRest | src/parser/inline/mod.rs:128 | A delimiter never closed before the end flushes the pending bytes. The delimiter and the rest of the text are dropped. |
| InlineParser.UnclosedScanFails | src/parser/inline/mod.rs:26 | Over plain bytes to the end of the source, the closing search fails. |
| MiscParser.ToNumeric | src/parser/block/misc.rs:10-15 | A Setext level numbers 1 or 2. |
| MiscParser.SetextNumbering | src/parser/block/misc.rs:3-15 | An `=` underline gives level 1 and a `-` underline level 2. |
| MiscParser.ScanRunThenSpaces | src/parser/block/misc.rs:25-32 | The line end is found exactly after a run of the marker byte, then only spaces, then a line feed. The end of the source fails exactly when the rest is such a run. |
| MiscParser.ScanFindsLineEnd | src/parser/block/misc.rs:113-120 | Every run-then-spaces stretch ending in a line feed is scanned to just after that line feed. |
| MiscParser.HorizontalRule | src/parser/block/misc.rs:19-39 | A success is a rule line: up to three spaces, one of `-` `*` `_`, more of it, then spaces, then a line feed. `NoParse` restores the position. |
| MiscParser.RuleLineAccepted | src/parser/block/misc.rs:24-34 | Every rule line, even one rule byte long, is accepted, and the production stops after its line feed. |
| MiscParser.TryParseHeaderLine | src/parser/block/misc.rs:103-121 | A success is an underline whose first byte gives the level. `NoParse` restores the position. |
| MiscParser.UnderlineAccepted | src/parser/block/misc.rs:107-117 | Every underline is recognised, and the position is kept after its line feed. |
| MiscParser.CollectParagraph | src/parser/block/misc.rs:47-66 | The buffer is the source bytes from the start. Without an error it is whole lines. An error is the end-of-source error and leaves no level. |
| MiscParser.ParagraphStopsAtBreak | src/parser/block/misc.rs:51-61 | A clean stop is at an underline whose first byte gives the level, or else at a blank line. |
| MiscParser.BlankLineRecognised | src/parser/block/misc.rs:51-53 | Every blank line is accepted by `try_parse_empty_line`. |
| MiscParser.NeitherBreak | src/parser/block/misc.rs:51-61 | A line both tests reject is neither blank nor an underline. |
| MiscParser.LaterLinesRejected | src/parser/block/misc.rs:47-66 | Both tests rejected every collected line after the first. |
| MiscParser.ParagraphStopsAtFirstBreak | src/parser/block/misc.rs:47-66 | No collected line after the first is blank or an underline, so the loop stops at the first break. |
| MiscParser.LastIndexOf | src/parser/block/misc.rs:73 | Gives the last position of the byte, or none exactly when the byte does not occur. |
| MiscParser.SplitLastLineAsWritten | src/parser/block/misc.rs:73-75 | The two parts join to the buffer. The kept part ends in the last line feed, and the head holds none. |
| MiscParser.SplitAsWrittenHeadIsEmpty | src/parser/block/misc.rs:73-75 | On a buffer of whole lines, the split as written keeps everything and leaves the head empty. |
| MiscParser.SplitLastLine | src/parser/block/misc.rs:70-75 | The two parts join to the buffer. The kept part is whole lines, and the head is exactly one line. |
| MiscParser.FinishParagraph | src/parser/block/misc.rs:77-100 | The paragraph is the inline parse of the kept lines. It is partial exactly when the loop had an error. A heading of the loop's level, over the head, is queued exactly when there is an underline. |
| MiscParser.ParseParagraphAsWritten | src/parser/block/misc.rs:41-101 | As written, any queued heading has empty content. |
| MiscParser.ParseParagraph | src/parser/block/misc.rs:41-101 | The result is a paragraph, partial exactly when the loop had an error. A successful heading is queued exactly when an underline stopped the loop. |
| MiscParser.OneLineThenUnderline | src/parser/block/misc.rs:47-61 | A plain line over an underline is collected alone, with the underline's level, and the loop stops after the underline. |
| MiscParser.SetextHeadingTakesLastLine | src/parser/block/misc.rs:68-86 | With the intended split, a plain line over an underline becomes a heading of that line at the underline's level, and the paragraph is empty. |
| MiscParser.SetextHeadingAsWrittenIsEmpty | src/parser/block/misc.rs:73-85 | As written, the same input gives an empty heading, and the line stays in the paragraph. |
| BlockQuoteParser.QuotePrefix | src/parser/block/block_quote.rs:7-11 | A success is up to three spaces, `>`, and one optional space. `NoParse` restores the position exactly when the indented byte is not `>`. |
| BlockQuoteParser.QuotePrefixAccepted | src/parser/block/block_quote.rs:7-11 | Every quote prefix is recognised, and the prefix stops right after it. |
| BlockQuoteParser.CollectQuote | src/parser/block/block_quote.rs:19-34 | The buffer is never longer than what was read. Without an error it ends in a line feed. An error is the end-of-source error. |
| BlockQuoteParser.QuoteLineAdded | src/parser/block/block_quote.rs:20-21 | A line not followed by a blank line adds the rest after its prefix, and the loop goes on at the next line. |
| BlockQuoteParser.BlankThenUnquotedEnds | src/parser/block/block_quote.rs:24-28 | A blank line followed by a line without a prefix ends the quote right after the blank line. The blank line adds nothing. |
| BlockQuoteParser.BlankThenQuotedContinues | src/parser/block/block_quote.rs:24-29 | A blank line followed by a quoted line is dropped, and the loop goes on at that line. |
| BlockQuoteParser.QuoteOutcome | src/parser/block/block_quote.rs:42-47 | An inner error with an empty result fails. An inner error otherwise makes the quote partial, and so does an outer error alone. With no error it succeeds. Each row is stated both ways. |
| BlockQuoteParser.ParseBlockQuote | src/parser/block/block_quote.rs:6-48 | There is no quote unless the first line has a prefix. Otherwise the lines from the start are collected, parsed as a nested document, and judged by the outcome table. |
| BlockCodeParser.CodePrefix | src/parser/block/block_code.rs:3-15 | The result is a success exactly when four spaces come next, and it then stops after them. `NoParse` restores the position. |
| BlockCodeParser.CodePrefixFailsOnlyAtEnd | src/parser/block/block_code.rs:3-15 | The prefix fails exactly when fewer than four bytes remain and all of them are spaces. |
| BlockCodeParser.CollectCode | src/parser/block/block_code.rs:23-37 | The code is never longer than what was read. An error is the end-of-source error, at the end. A clean stop is before the end. |
| BlockCodeParser.IndentedLineAdded | src/parser/block/block_code.rs:35 | A prefixed line adds everything after exactly four spaces, so extra indentation is kept. |
| BlockCodeParser.ShortBlankLineAdded | src/parser/block/block_code.rs:27-31 | An unprefixed blank line adds one line feed and is consumed. |
| BlockCodeParser.UnindentedLineEnds | src/parser/block/block_code.rs:29 | An unprefixed non-blank line ends the block at its start, without an error. |
| BlockCodeParser.ParseBlockCode | src/parser/block/block_code.rs:2-47 | There is no block without a first prefix. Otherwise the result is the collected code with no tag. It is partial exactly when a read failed. |
| BlockCodeParser.CodeBlockAtEndIsPartial | src/parser/block/block_code.rs:23-46 | A code block that reaches the end of the source is always partial. |
| AtxHeadingParser.CountHashes | src/parser/block/atx_heading.rs:8-15 | At most six `#` are counted. Fewer means a non-`#` byte comes next, or the end of the source, with its error. |
| AtxHeadingParser.HeadingText | src/parser/block/atx_heading.rs:42-53 | The text is a prefix of the line, not ending in a space. Only `#` and spaces were dropped. |
| AtxHeadingParser.ClosingHashesDropped | src/parser/block/atx_heading.rs:42-53 | Closing hashes are dropped together with the spaces before them. |
| AtxHeadingParser.HashBeforeSpacesKept | src/parser/block/atx_heading.rs:42-53 | A `#` followed by trailing spaces is kept, and only the spaces go. |
| AtxHeadingParser.HeadingOf | src/parser/block/atx_heading.rs:56-64 | The inline parse of the text succeeds as a heading of the given level. |
| AtxHeadingParser.ReadHeadingLine | src/parser/block/atx_heading.rs:8-30 | The level is between 1 and 6. A clean read ends after a line feed. An error is the end-of-source error, at the end. |
| AtxHeadingParser.ParseAtxHeading | src/parser/block/atx_heading.rs:2-65 | `NoParse` exactly when the byte is not `#`. The level is between 1 and 6. A partial heading has no content and is at the end of the source. |
| AtxHeadingParser.AtxLineAccepted | src/parser/block/atx_heading.rs:4-64 | A complete line gives the heading whose level is the number of hashes. Its text is the line without its line feed, closing hashes and trailing spaces. |
| AtxHeadingParser.CompleteLineIsHeading | src/parser/block/atx_heading.rs:39-64 | A heading line read without an error is the heading of its stripped text. |
| AtxHeadingParser.HeadingLineRead | src/parser/block/atx_heading.rs:8-30 | Hashes, spaces and a line are read as that level and that line. |
| AtxHeadingParser.HashesCounted | src/parser/block/atx_heading.rs:8-15 | The count stops after six hashes, or before the first other byte. |
| Cursor.NextByte | src/parser/inline/emphasis.rs:57 | Returns the byte under the cursor and moves past it. At the end of the slice it returns `End`. |
| Cursor.TryReadChar | src/parser/inline/emphasis.rs:70 | Consumes the expected byte only. The end of the slice gives `End`. |
| Cursor.TryParseEmptyLine | src/parser/block/mod.rs:24 | A success consumes a blank line. Otherwise the position is kept. `End` comes exactly when only spaces remain. |
| Cursor.BlankLineConsumed | src/parser/block/mod.rs:24 | Every blank line is consumed whole. |
| BlockParser.Order | src/parser/block/mod.rs:26-33 | There are six productions, quote first and paragraph last. |
| BlockParser.SkipBlankLines | src/parser/block/mod.rs:24 | Stops at a line that is not blank, or returns `End` where only spaces remain. |
| BlockParser.BlankLineSkipped | src/parser/block/mod.rs:24 | A blank line in front changes nothing. |
| BlockParser.ParseBlock | src/parser/block/mod.rs:21-35 | Reaching the end while skipping blank lines gives `End`. Otherwise the result is that of the first production that applies. |
| BlockParser.EarlierProductionWins | src/parser/block/mod.rs:26-34 | When the production at some rank applies, the productions after it cannot change the result. |
| LibParser.Order | src/lib.rs:176-184 | There are seven productions, quote first and paragraph last. |
| LibParser.FirstOfIsFirstPresent | src/lib.rs:117-122 | `first_of!`, read as the right-nested `or_else` chain it evidently means, picks the first alternative present, and gives none exactly when none is. |
| LibParser.BlockError | src/lib.rs:229-231 | The message starts with `unable to parse a block` and ends with the buffer contents. |
| LibParser.ParseBlockPriority | src/lib.rs:175-186 | The result is that of the first production present, in the order quote, code, rule, heading, ordered list, unordered list, paragraph. With none present, the parse error is returned. |
| ListsParser.CollectItems | src/parser/block/lists.rs:21-30 | With no item, the info is unchanged and the cursor is where the item call left it. With items, some info is kept. |
| ListsParser.ParseList | src/parser/block/lists.rs:18-42 | `NoParse` exactly when the first item call does not succeed. A list is otherwise ordered or unordered, and never `End`. |
| ListsParser.CollectFollowsRun | src/parser/block/lists.rs:21-30 | The loop gathers exactly the items of the run, in order. Each call receives the previous item's info. The cursor is left where the call after the last item left it, since the mark taken before each call is never reset. |
| ListsParser.ListFromRun | src/parser/block/lists.rs:18-42 | With no item the result is `NoParse`. Otherwise it is an ordered list from the last item's start, or an unordered list, holding the items in order. Either way the cursor is where the call after the last item left it. |
| EscapeParser.ParseEscape | src/parser/inline/escape.rs:9-18 | The end of the slice gives `End`. Otherwise one byte is consumed, and it becomes a one-byte chunk exactly when it is in the escape set. |
| EscapeParser.EscapeSetShape | src/parser/inline/escape.rs:10 | The escape set has 22 distinct bytes, all ASCII punctuation. |
| EscapeParser.NonPunctuationNotEscaped | src/parser/inline/escape.rs:13-15 | A letter, digit, space or line feed after a backslash gives nothing. |
| LinkParser.StepLabel | src/parser/inline/link.rs:16-26 | A backslash always starts an escape. An escaped byte is skipped. `[` deepens and `]` shallows by one. |
| LinkParser.ScanLabel | src/parser/inline/link.rs:16-27 | A stop is just after a `]`. |
| LinkParser.ParseLinkLabel | src/parser/inline/link.rs:9-29 | The label is the slice from the start up to and including the closing `]`. |
| LinkParser.ScanFindsFirstClose | src/parser/inline/link.rs:14-27 | The scan stops where the depth first reaches zero. It finds nothing exactly when the depth never does. |
| LinkParser.LabelIsShortestBalanced | src/parser/inline/link.rs:14-29 | The label is the shortest prefix whose brackets balance, and there is none exactly when no prefix balances. |
| LinkParser.NestedBracketsKept | src/parser/inline/link.rs:20-24 | `a[b]c]` is one label: balanced nested brackets stay in it. |
| LinkParser.EscapedBracketKept | src/parser/inline/link.rs:18-19 | An escaped `]` does not close the label. |
| LinkParser.DoubleBackslashStillEscapes | src/parser/inline/link.rs:18-19 | A second backslash escapes again, so in `\\]` the `]` stays escaped. |
| EmphasisParser.TickClose | src/parser/inline/emphasis.rs:99-111 | A found position ends a run of `sn` backticks, and lies after `p` unless the run was already complete. At the end of the slice nothing is found. That the run is the first one is stated by `EmphasisParser.TickCloseFindsFirst`. |
| EmphasisParser.ScanClosing | src/parser/inline/emphasis.rs:56-119 | A closing is at a run of exactly `n` bytes `ec`, and the cursor is left after it. Without one the scan runs to the end. The end position equals the start only at the end or on a closing. That the closing is the first candidate is stated by `EmphasisParser.ScanStopsAtFirstClosing` and `EmphasisParser.FirstCandidateStops`. Where an unclosed search stops is stated by `EmphasisParser.ScanUnclosedEnd`. |
| EmphasisParser.UntilEmphClosing | src/parser/inline/emphasis.rs:45-122 | Returns none exactly when no byte was passed over. Otherwise the end lies after the start. The mark of an unclosed search is stated by `EmphasisParser.UnclosedSearchEndsWithWalk`. |
| EmphasisParser.InertSpanCloses | src/parser/inline/emphasis.rs:65-78 | Inert bytes followed by exactly `n` bytes `ec` close at that run. |
| EmphasisParser.EscapedByteSkipped | src/parser/inline/emphasis.rs:61-62 | The byte after a backslash never closes. |
| EmphasisParser.WrongRunSkipped | src/parser/inline/emphasis.rs:76-84 | A run of `ec` of another length than `n` does not close at its first byte. The search resumes just after that byte. |
| EmphasisParser.LongRunClosesOnItsTail | src/parser/inline/emphasis.rs:65-85 | A run of `ec` longer than `n` closes on its last `n` bytes, because the search resumes one byte further each time. |
| EmphasisParser.CodeSpanSkipped | src/parser/inline/emphasis.rs:89-112 | A one-backtick code span is passed over whole, so `ec` inside it never closes. |
| EmphasisParser.TickSpanEnds | src/parser/inline/emphasis.rs:99-111 | The span's closing loop stops just after the next backtick. |
| EmphasisParser.FindSpan | src/parser/inline/emphasis.rs:15-36 | An accepted end lies after the search start, and the byte before it is not a space. The cursor never moves backwards. That it is the first such end is stated by `EmphasisParser.FindSpanTurnsDown` and `EmphasisParser.FindSpanTakesAcceptable`. What it gives when no end is acceptable is stated by `EmphasisParser.FindSpanUnclosed`. |
| EmphasisParser.ParseEmphasis | src/parser/inline/emphasis.rs:12-37 | A span is returned exactly when the span search accepts an end. It is the bytes from the start to that end, which do not end in a space: as code for a backtick, otherwise the inline parse as `Emphasis` for one delimiter and `MoreEmphasis` for two. Without a span the cursor stays where the last search left it. The case with no acceptable end is stated by `EmphasisParser.EmphasisWithoutAcceptableEnd`. |
| EmphasisParser.InertEmphasis | src/parser/inline/emphasis.rs:12-37 | Inert text not ending in a space, then exactly `n` delimiters, is the emphasised span. |
| EmphasisParser.SpaceBeforeCloseRejected | src/parser/inline/emphasis.rs:14-22 | An end after a space is rejected. The search resumes after the closing run, and the span still starts at the original start. |
| EmphasisParser.Skip | src/parser/inline/emphasis.rs:56-119 | Each piece of the walk of the closing search is non-empty and stays within the slice. |
| EmphasisParser.NoClosingInsideRun | src/parser/inline/emphasis.rs:65-85 | No closing candidate starts inside another one. |
| EmphasisParser.ScanStopsAtFirstClosing | src/parser/inline/emphasis.rs:56-119 | The search closes at the first closing candidate that the walk reaches. The walk passes over escaped bytes, and over code spans up to the end of their closing run. When the search ends without closing, the walk reaches no candidate. |
| EmphasisParser.FirstCandidateStops | src/parser/inline/emphasis.rs:56-119 | Conversely, the first closing candidate the walk reaches is where the search closes, with the cursor after its run. |
| EmphasisParser.TickCloseFindsFirst | src/parser/inline/emphasis.rs:99-111 | The closing loop of a code span stops after the first run of `sn` backticks that lies wholly after the opening run. It finds nothing only when there is no such run. |
| EmphasisParser.TickCloseStopsAtFirstRun | src/parser/inline/emphasis.rs:89-111 | A code span passed over by the closing search ends after the first later run as long as its opening run, or runs to the end when there is none. |
| EmphasisParser.FindSpanTurnsDown | src/parser/inline/emphasis.rs:14-36 | Every closing candidate the walk reaches before the accepted end lies after the start and follows a space. |
| EmphasisParser.FindSpanTakesAcceptable | src/parser/inline/emphasis.rs:14-36 | When an acceptable end exists and the start is not a closing candidate, an end is accepted. It is acceptable, and the cursor is after its run. |
| EmphasisParser.ClosingAtStartGivesNothing | src/parser/inline/emphasis.rs:14-17 | A closing candidate right at the start gives no span, and leaves the cursor after its run. |
| EmphasisParser.EmphasisEndsAtFirstAcceptable | src/parser/inline/emphasis.rs:12-37 | When an acceptable end exists and the start is not a candidate, the span ends at the first acceptable end. Every candidate passed before it follows a space, and the cursor is after its run. |
| EmphasisParser.ScanUnclosedEnd | src/parser/inline/emphasis.rs:56-121 | A search that does not close stops where the walk ends. That is just after the first backtick of an opening run that reaches the end of the slice, when the walk meets one, and the end of the slice otherwise. |
| EmphasisParser.UnclosedSearchEndsWithWalk | src/parser/inline/emphasis.rs:45-122 | Without a closing, `until_emph_closing` returns the end of the walk, or none when the walk ends where it started. The cursor is at the end of the slice. |
| EmphasisParser.FindSpanUnclosed | src/parser/inline/emphasis.rs:14-36 | When no end is acceptable, every round turns down a candidate after a space until one does not close. The search then accepts the end of the walk if that round passed over something not ending in a space. Otherwise it gives nothing. The cursor ends at the end of the slice. |
| EmphasisParser.EmphasisWithoutAcceptableEnd | src/parser/inline/emphasis.rs:12-37 | Without an acceptable end, and with no candidate at the start, an unclosed delimiter takes the bytes up to the end of the walk as its span, made into code or emphasis. This holds when those bytes are not empty, do not end in a space, and do not end a turned-down closing run. Otherwise there is no span. The cursor is at the end of the slice. |
| EmphasisParser.InertRestUnclosed | src/parser/inline/emphasis.rs:56-121 | Over inert bytes to the end, the search passes over everything and does not close. |
| EmphasisParser.InertRestIsSpan | src/parser/inline/emphasis.rs:12-37 | An unclosed delimiter before inert text that does not end in a space makes the rest of the slice its span. |
| ClosingAgreement.CloseTicksAgrees | src/parser/inline/mod.rs:63-79 | The backtick-counting loops of the two snapshots stop at the same position, and fail together. |
| ClosingAgreement.TickSpanEndsAtFirstRun | src/parser/inline/mod.rs:52-80 | A code span copied by `find_emph_closing` ends after the first later run as long as its opening run. The copy fails exactly when the opening run reaches the end of the source or no such run follows. |
| ClosingAgreement.ScanEmphAgrees | src/parser/inline/mod.rs:25-88 | `find_emph_closing` fails exactly when `until_emph_closing` does not close before the end of the source. Otherwise both stop at the same position. |
| ClosingAgreement.FindEmphClosingIsFirst | src/parser/inline/mod.rs:17-94 | A success ends at the first closing candidate the walk reaches. A partial success means no candidate is reached except one ending at the end of the source. |
| ClosingAgreement.FirstClosingFound | src/parser/inline/mod.rs:17-94 | When the first candidate the walk reaches ends before the end of the source, `find_emph_closing` returns exactly the bytes before it and stops after its run. |
| ClosingAgreement.DelimiterTakesFirstClosing | src/parser/inline/mod.rs:103-144 | For any content, the span of a delimiter is the bytes up to the first closing candidate the walk reaches, made into `Code`, `Emphasis` or `MoreEmphasis`. The scan goes on after its run. |

## Left out

- **I/O.** The reader is a byte sequence followed by one error. Error kinds other than end of file are one abstract kind. File opening, printing and `debug!` logging are not modelled.
- **UTF-8.** Contents stay bytes, so `String::from_utf8(..).unwrap()` and its failure are not modelled.
- **Source bodies that are not in the repository.** The reading helpers `read_char`, `try_read_char`, `read_line_pr`, `skip_initial_spaces`, `skip_spaces`, `try_parse_empty_line`, `unread_byte` and `next_byte` are given the meaning their callers rely on. So are the macros `try_reset!`, `break_err!`, `try_parse!`, `attempt!` and `iotry_err!`:
  - reset on `NoParse`;
  - stop on a failure or a partial success;
  - `backtrack` returns to the production's start.
- **Stub productions.** The productions in src/lib.rs:188-226 are stubs, so each one's outcome is a parameter of `LibParser.ParseBlock`. Also not modelled are the empty block_quote_prefix in src/parser/block/block_quote.rs:2-4, `parse_list_item` in src/parser/block/lists.rs:50-52, and `next` in src/md/lib.rs:85-87.
- **Slice-based productions.** Their slice-based bodies are not in the repository. `BlockParser.ParseBlock` takes them as parameters.
- **Panic in block dispatch.** The panic when no production applies becomes the precondition that the paragraph production always applies.
- **Nested parses.** The nested document parse of a block quote's buffer, and the inline parse of an emphasised slice, are parameters.
- **Link parsing after the label.** What `parse_link` does after the label (src/parser/inline/link.rs:33-48) is unfinished and not modelled.
- **Marks.** Marks are saved positions. The mark taken in the loop of src/parser/block/lists.rs:22 is never used, so the positions follow the item parser.
- **Event queue.** The heading that `paragraph` pushes onto its event queue is returned beside the paragraph. `to_md_result` is not modelled.
- EmphasisParser.ParseEmphasis: the source's `unreachable!()` for runs longer than two is a precondition (`n <= 2` unless the delimiter is a backtick).
- BlockQuoteParser.CollectQuote: the code, not the prose description, is followed. After a blank line followed by a quoted line, the position stays after the blank line, because the mark is reset there. The blank line is not added to the buffer.
- InlineParser.Inline: the inline parse of an emphasised span reads a buffer that ends in end of file. Its result is therefore always a success. An error inside the nested parse is not modelled separately.
- LibParser.FirstOf: `first_of!` in src/lib.rs:117-122 passes the rest to `try_parse!`, not back to `first_of!`, and the body of `try_parse!` is not part of the repository. Its rest pattern expects commas, but src/lib.rs:176-184 separates all seven alternatives with `or`. src/lib.rs:185 calls `parse_error` without `self.` and passes a closure to `or`. As written this does not compile. The model reads it as a right-nested `or_else` chain, and the fallback as `Failure(BlockError(..))`.
- LinkParser.StepLabel: the `match` of src/parser/inline/link.rs:17-26 has no arm for a byte that is neither a backslash nor a bracket when no escape is pending. As written it does not compile. The model passes over such a byte and leaves the depth alone, which is what the loop evidently means.
- Drain.ReadWhilePossible and Drain.LibReadWhilePossible: the results are a finite sequence that reaches one that is not a full success. The source reads an unbounded stream, and a stream of successes only would keep it looping. That case is not modelled.
- ListsParser.CollectItems: the loop is modelled only for item parsers that advance on success, and that leave the cursor inside the slice and never before where the call started. Otherwise the source would loop forever, or the position would leave the slice. `parse_list_item` is unimplemented, so nothing in the repository breaks this.
- **Document tree.** `src/tokens.rs` and `src/md/tokens.rs` are taken as datatype shapes only. `OrderedList` carries the start index that `lists.rs` builds.

## Findings

| source | as written | input that shows it | evidently intended | confidence | as-written member | corrected member |
|---|---|---|---|---|---|---|
| src/parser/block/misc.rs:73-75 | The buffer is split after its last line feed. The loop always ends the buffer with a line feed, so the heading text is always empty and the underlined line stays in the paragraph. | `Title\n=====\n` | The heading takes the last line of the buffer, and the paragraph keeps the lines before it. | high, not executed | MiscParser.SetextHeadingAsWrittenIsEmpty | MiscParser.SetextHeadingTakesLastLine |
