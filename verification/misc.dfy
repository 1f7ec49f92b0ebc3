/** src/parser/block/misc.rs: horizontal rules, Setext underlines and paragraphs. */
module MiscParser {
  import opened Util
  import opened Io
  import opened Errors
  import opened Scan
  import opened Tokens
  import opened Core
  import InlineParser

  /** `SetextHeaderLevel`: the underline byte of a Setext heading. */
  datatype SetextLevel = StxFirst | StxSecond

  /** `SetextHeaderLevel::to_numeric`. */
  function ToNumeric(l: SetextLevel): (n: nat)
    ensures 1 <= n <= 2
  {
    match l
    case StxFirst => 1
    case StxSecond => 2
  }

  /** `FromPrimitive::from_u8` on an underline byte. */
  function LevelOf(b: Byte): SetextLevel
    requires b == EQUALS || b == DASH
  {
    if b == EQUALS then StxFirst else StxSecond
  }

  /** An `=` underline makes a first-level heading and a `-` underline a second-level one. */
  lemma SetextNumbering(b: Byte)
    requires b == EQUALS || b == DASH
    ensures ToNumeric(LevelOf(b)) == 1 <==> b == EQUALS
    ensures ToNumeric(LevelOf(b)) == 2 <==> b == DASH
  {
  }

  /** `bytes[lo..hi]` is a run of `c` followed by a run of spaces; either may be empty. */
  ghost predicate RunThenSpaces(bytes: Bytes, lo: nat, hi: nat, c: Byte) {
    lo <= hi <= |bytes| &&
    var m := RunEnd(bytes, lo, c);
    forall i :: m <= i < hi ==> bytes[i] == SPACE
  }

  /** How the rest of a rule or underline line ended. */
  datatype TailScan = LineEnd(next: nat) | Mismatch | ReadFailed(at: nat)

  /** The loop shared by `horizontal_rule` and `try_parse_header_line`: after the first
      marker byte `c`, accept more `c`, switch to accepting only spaces at the first space,
      and stop at the line feed. */
  function ScanRunThenSpaces(src: Source, q: nat, c: Byte): (t: TailScan)
    requires q <= |src.bytes| && c != NL
    ensures t.LineEnd? ==>
      q < t.next <= |src.bytes| && src.bytes[t.next - 1] == NL && RunThenSpaces(src.bytes, q, t.next - 1, c)
    ensures t.ReadFailed? <==> RunThenSpaces(src.bytes, q, |src.bytes|, c)
    ensures t.ReadFailed? ==> t.at == |src.bytes|
    decreases |src.bytes| - q
  {
    if q == |src.bytes| then ReadFailed(q)
    else if src.bytes[q] == NL then LineEnd(q + 1)
    else if src.bytes[q] == SPACE then ScanRunThenSpaces(src, q + 1, SPACE)
    else if src.bytes[q] == c then ScanRunThenSpaces(src, q + 1, c)
    else Mismatch
  }

  /** The scan reaches the line end exactly when a run-then-spaces stretch ends in a line feed. */
  lemma {:induction false} ScanFindsLineEnd(src: Source, q: nat, c: Byte, e: nat)
    requires q <= e < |src.bytes| && c != NL && src.bytes[e] == NL
    requires RunThenSpaces(src.bytes, q, e, c)
    ensures ScanRunThenSpaces(src, q, c) == LineEnd(e + 1)
    decreases e - q
  {
    if q < e {
      if src.bytes[q] == SPACE && c != SPACE {
        ScanFindsLineEnd(src, q + 1, SPACE, e);
      } else {
        ScanFindsLineEnd(src, q + 1, c, e);
      }
    }
  }

  /** The bytes that may draw a horizontal rule. */
  predicate IsRuleByte(b: Byte) {
    b == DASH || b == STAR || b == UNDERSCORE
  }

  /** `bytes[p..q]` is a rule line: at most three spaces, a rule byte, more of the same
      byte, then only spaces, then a line feed. No minimum count of rule bytes. */
  ghost predicate IsRuleLine(bytes: Bytes, p: nat, q: nat) {
    p <= |bytes| &&
    var g := RunEnd(bytes, p, SPACE);
    && g <= p + 3 && g < q - 1 && q <= |bytes|
    && IsRuleByte(bytes[g]) && bytes[q - 1] == NL
    && RunThenSpaces(bytes, g + 1, q - 1, bytes[g])
  }

  /** `horizontal_rule`. */
  function HorizontalRule(src: Source, p: nat): (s: Step<Block>)
    requires p <= |src.bytes|
    ensures s.result.Success? ==> s.result.value == Block.HorizontalRule && IsRuleLine(src.bytes, p, s.next)
    ensures s.result.NoParse? ==> s.next == p
    ensures !s.result.PartialSuccess?
    ensures s.result.Failure? ==> s.result.error == EndError(src)
  {
    var g := SkipInitialSpaces(src, p);
    if g == |src.bytes| then Step(Failure(EndError(src)), g)
    else
      var c := src.bytes[g];
      if IsRuleByte(c) then
        RunEndUnique(src.bytes, p, SPACE, g);
        match ScanRunThenSpaces(src, g + 1, c)
        case LineEnd(q) => Step(Success(Block.HorizontalRule), q)
        case Mismatch => Step(NoParse, p)
        case ReadFailed(at) => Step(Failure(EndError(src)), at)
      else Step(NoParse, p)
  }

  /** Every rule line is accepted, and the production stops just after its line feed. */
  lemma RuleLineAccepted(src: Source, p: nat, q: nat)
    requires p <= |src.bytes| && IsRuleLine(src.bytes, p, q)
    ensures HorizontalRule(src, p) == Step(Success(Block.HorizontalRule), q)
  {
    var g := RunEnd(src.bytes, p, SPACE);
    assert SkipInitialSpaces(src, p) == g;
    ScanFindsLineEnd(src, g + 1, src.bytes[g], q - 1);
  }

  /** `bytes[p..q]` is a Setext underline: `=` or `-`, more of the same byte, then only
      spaces, then a line feed. */
  ghost predicate IsUnderline(bytes: Bytes, p: nat, q: nat) {
    && p + 1 < q <= |bytes|
    && (bytes[p] == EQUALS || bytes[p] == DASH) && bytes[q - 1] == NL
    && RunThenSpaces(bytes, p + 1, q - 1, bytes[p])
  }

  /** `try_parse_header_line`. */
  function TryParseHeaderLine(src: Source, p: nat): (s: Step<SetextLevel>)
    requires p <= |src.bytes|
    ensures s.result.Success? ==> IsUnderline(src.bytes, p, s.next)
    ensures s.result.Success? ==> (s.result.value == StxFirst <==> src.bytes[p] == EQUALS)
    ensures s.result.NoParse? ==> s.next == p
    ensures !s.result.PartialSuccess?
    ensures s.result.Failure? ==> s.result.error == EndError(src)
  {
    if p == |src.bytes| then Step(Failure(EndError(src)), p)
    else
      var c := src.bytes[p];
      if c == EQUALS || c == DASH then
        match ScanRunThenSpaces(src, p + 1, c)
        case LineEnd(q) => Step(Success(LevelOf(c)), q)
        case Mismatch => Step(NoParse, p)
        case ReadFailed(at) => Step(Failure(EndError(src)), at)
      else Step(NoParse, p)
  }

  /** Every underline is recognised, and the position is kept after its line feed. */
  lemma UnderlineAccepted(src: Source, p: nat, q: nat)
    requires p <= |src.bytes| && IsUnderline(src.bytes, p, q)
    ensures TryParseHeaderLine(src, p) == Step(Success(LevelOf(src.bytes[p])), q)
  {
    var c := src.bytes[p];
    ScanFindsLineEnd(src, p + 1, c, q - 1);
  }

  /** Some line of `bytes` starting at `s` is blank. */
  ghost predicate BlankLineAt(bytes: Bytes, s: nat) {
    exists q :: IsBlankLine(bytes, s, q)
  }

  /** Some line of `bytes` starting at `s` is a Setext underline. */
  ghost predicate UnderlineAt(bytes: Bytes, s: nat) {
    exists q :: IsUnderline(bytes, s, q)
  }

  /** What the line loop of `paragraph` collected: the lines, the error that stopped it if
      any, the underline level if an underline stopped it, where the line that stopped it
      begins, and the position after. */
  datatype ParagraphLines = ParagraphLines(buf: Bytes, err: Option<MdError>, level: Option<SetextLevel>, end: nat, next: nat)

  /** The line loop of `paragraph`: read a line, then stop at a blank line (consumed) or at
      a Setext underline (consumed, its level kept); a failed read stops it with the error.
      The collected lines are the source bytes from `p` on, and a loop that stopped cleanly
      collected whole lines. */
  function CollectParagraph(src: Source, p: nat): (r: ParagraphLines)
    requires p <= |src.bytes|
    ensures r.end == p + |r.buf| <= |src.bytes| && r.buf == src.bytes[p..r.end]
    ensures r.err.Some? ==> r.err.value == EndError(src) && r.level.None?
    ensures r.err.None? ==> |r.buf| > 0 && r.buf[|r.buf| - 1] == NL
    decreases |src.bytes| - p
  {
    var l := ReadLine(src, p);
    if l.result.Failure? then ParagraphLines(l.line, Some(l.result.error), None, l.next, l.next)
    else
      var s := l.next;
      var e := TryParseEmptyLine(src, s);
      if e.result.Success? then ParagraphLines(l.line, None, None, s, e.next)
      else if e.result.Failure? then ParagraphLines(l.line, Some(e.result.error), None, s, e.next)
      else
        var h := TryParseHeaderLine(src, s);
        if h.result.Success? then ParagraphLines(l.line, None, Some(h.result.value), s, h.next)
        else if h.result.Failure? then ParagraphLines(l.line, Some(h.result.error), None, s, h.next)
        else
          var rest := CollectParagraph(src, s);
          SliceJoin(src.bytes, p, s, rest.end);
          ParagraphLines(l.line + rest.buf, rest.err, rest.level, rest.end, rest.next)
  }

  /** A loop that stopped cleanly stopped at the line after the collected ones: at an
      underline whose first byte gives the level, or else at a blank line. */
  lemma {:induction false} ParagraphStopsAtBreak(src: Source, p: nat)
    requires p <= |src.bytes|
    ensures var r := CollectParagraph(src, p);
      && (r.level.Some? ==>
        && IsUnderline(src.bytes, r.end, r.next)
        && (r.level.value == StxFirst <==> src.bytes[r.end] == EQUALS))
      && (r.err.None? && r.level.None? ==> IsBlankLine(src.bytes, r.end, r.next))
    decreases |src.bytes| - p
  {
    var l := ReadLine(src, p);
    if l.result.Success? {
      var s := l.next;
      if TryParseEmptyLine(src, s).result.NoParse? && TryParseHeaderLine(src, s).result.NoParse? {
        ParagraphStopsAtBreak(src, s);
      }
    }
  }

  /** A blank line is always recognised by `try_parse_empty_line`. */
  lemma BlankLineRecognised(src: Source, s: nat, q: nat)
    requires s <= |src.bytes| && IsBlankLine(src.bytes, s, q)
    ensures TryParseEmptyLine(src, s) == Step(Success(()), q)
  {
    RunEndUnique(src.bytes, s, SPACE, q - 1);
  }

  /** A line that neither `try_parse_empty_line` nor `try_parse_header_line` accepts is
      neither blank nor an underline. */
  lemma NeitherBreak(src: Source, s: nat)
    requires s <= |src.bytes|
    requires TryParseEmptyLine(src, s).result.NoParse? && TryParseHeaderLine(src, s).result.NoParse?
    ensures !BlankLineAt(src.bytes, s) && !UnderlineAt(src.bytes, s)
  {
    if BlankLineAt(src.bytes, s) {
      var q :| IsBlankLine(src.bytes, s, q);
      BlankLineRecognised(src, s, q);
    }
    if UnderlineAt(src.bytes, s) {
      var q :| IsUnderline(src.bytes, s, q);
      UnderlineAccepted(src, s, q);
    }
  }

  /** Both line tests rejected every line the loop collected after the first: a collected
      line begins at `x`, just after a line feed. */
  lemma {:induction false} LaterLinesRejected(src: Source, p: nat, x: nat)
    requires p <= |src.bytes| && p < x < CollectParagraph(src, p).end && src.bytes[x - 1] == NL
    ensures TryParseEmptyLine(src, x).result.NoParse? && TryParseHeaderLine(src, x).result.NoParse?
    decreases |src.bytes| - p
  {
    var l := ReadLine(src, p);
    var s := l.next;
    assert l.result.Success?;
    var e := TryParseEmptyLine(src, s);
    var h := TryParseHeaderLine(src, s);
    assert e.result.NoParse? && h.result.NoParse?;
    assert CollectParagraph(src, p).end == CollectParagraph(src, s).end;
    if x != s {
      assert x > s;
      LaterLinesRejected(src, s, x);
    }
  }

  /** The paragraph holds no blank line and no underline: every line the loop collected
      after the first is neither, so the loop stops at the first one. */
  lemma ParagraphStopsAtFirstBreak(src: Source, p: nat)
    requires p <= |src.bytes|
    ensures forall x :: p < x < CollectParagraph(src, p).end && src.bytes[x - 1] == NL ==>
      !BlankLineAt(src.bytes, x) && !UnderlineAt(src.bytes, x)
  {
    forall x | p < x < CollectParagraph(src, p).end && src.bytes[x - 1] == NL
      ensures !BlankLineAt(src.bytes, x) && !UnderlineAt(src.bytes, x)
    {
      LaterLinesRejected(src, p, x);
      NeitherBreak(src, x);
    }
  }

  /** The position of the last `b` in `s`, if any (`rposition_elem`). */
  function LastIndexOf(s: Bytes, b: Byte): (r: Option<nat>)
    ensures r.Some? ==> r.value < |s| && s[r.value] == b
    ensures r.Some? ==> forall j :: r.value < j < |s| ==> s[j] != b
    ensures r.None? <==> forall j :: 0 <= j < |s| ==> s[j] != b
  {
    if |s| == 0 then None
    else if s[|s| - 1] == b then Some(|s| - 1)
    else LastIndexOf(s[..|s| - 1], b)
  }

  /** The split `paragraph` performs before its heading, as written: cut after the last line
      feed of the buffer. The head is what follows that line feed. */
  function SplitLastLineAsWritten(buf: Bytes): (split: (Bytes, Bytes))
    requires NL in buf
    ensures split.0 + split.1 == buf
    ensures |split.0| > 0 && split.0[|split.0| - 1] == NL && NL !in split.1
  {
    var i := LastIndexOf(buf, NL).value;
    assert buf[..i + 1] + buf[i + 1..] == buf;
    (buf[..i + 1], buf[i + 1..])
  }

  /** On a buffer of whole lines, which is what the loop hands over, the split as written
      leaves the head empty and keeps every line in the paragraph. */
  lemma SplitAsWrittenHeadIsEmpty(buf: Bytes)
    requires |buf| > 0 && buf[|buf| - 1] == NL
    ensures SplitLastLineAsWritten(buf) == (buf, [])
  {
    assert LastIndexOf(buf, NL) == Some(|buf| - 1);
    assert buf[..|buf|] == buf;
  }

  /** The split as intended: the head is the last line of the buffer, with its line feed,
      and the paragraph keeps the lines before it. */
  function SplitLastLine(buf: Bytes): (split: (Bytes, Bytes))
    requires |buf| > 0 && buf[|buf| - 1] == NL
    ensures split.0 + split.1 == buf
    ensures split.0 == [] || split.0[|split.0| - 1] == NL
    ensures |split.1| > 0 && split.1[|split.1| - 1] == NL
    ensures forall j :: 0 <= j < |split.1| - 1 ==> split.1[j] != NL
  {
    var body := buf[..|buf| - 1];
    match LastIndexOf(body, NL)
    case None => ([], buf)
    case Some(i) =>
      assert buf[..i + 1] + buf[i + 1..] == buf;
      (buf[..i + 1], buf[i + 1..])
  }

  /** What `paragraph` returns, the heading result it queues for the driver (kept as the
      production result; `to_md_result` is not part of this model), and the position after. */
  datatype ParagraphOutcome = ParagraphOutcome(result: ParseResult<Block>, queued: Option<ParseResult<Block>>, next: nat)

  /** The end of `paragraph`, once the lines `kept` for the paragraph and the `head` of the
      heading are chosen: parse both as inline text and combine with the loop's error. */
  function FinishParagraph(src: Source, r: ParagraphLines, kept: Bytes, head: Bytes): (o: ParagraphOutcome)
    requires r.err.Some? ==> r.err.value == EndError(src)
    ensures o.result.Success? <==> r.err.None?
    ensures o.result.PartialSuccess? <==> r.err.Some?
    ensures o.result.PartialSuccess? ==> o.result.error == EndError(src)
    ensures o.result.Success? || o.result.PartialSuccess?
    ensures o.result.value == Block.Paragraph(InlineParser.Inline(SubSource(kept), 0).result.value)
    ensures o.queued.Some? <==> r.level.Some?
    ensures r.level.Some? ==>
      o.queued.value == Success(Heading(ToNumeric(r.level.value), InlineParser.Inline(SubSource(head), 0).result.value))
    ensures o.next == r.next
  {
    var queued := match r.level
      case None => None
      case Some(level) =>
        Some(InlineParser.Inline(SubSource(head), 0).result.Map((t: Text) => Heading(ToNumeric(level), t)));
    var result := InlineParser.Inline(SubSource(kept), 0).result;
    var outcome := match (r.err, result)
      case (Some(e), Success(t)) => PartialSuccess(Block.Paragraph(t), e)
      case (Some(e), PartialSuccess(t, _)) => PartialSuccess(Block.Paragraph(t), e)
      case (Some(e), _) => Failure(e)
      case (None, _) => result.Map((t: Text) => Block.Paragraph(t));
    ParagraphOutcome(outcome, queued, r.next)
  }

  /** `paragraph` as written: the heading takes what follows the last line feed. */
  function ParseParagraphAsWritten(src: Source, p: nat): (o: ParagraphOutcome)
    requires p <= |src.bytes|
    ensures o.queued.Some? ==>
      o.queued.value.Success? && o.queued.value.value.Heading? && o.queued.value.value.content == []
  {
    var r := CollectParagraph(src, p);
    if r.level.Some? then
      var (kept, head) := SplitLastLineAsWritten(r.buf);
      SplitAsWrittenHeadIsEmpty(r.buf);
      InlineParser.PlainTextIsOneChunk([]);
      FinishParagraph(src, r, kept, head)
    else FinishParagraph(src, r, r.buf, [])
  }

  /** `paragraph` with the split as intended: the heading takes the last collected line. */
  function ParseParagraph(src: Source, p: nat): (o: ParagraphOutcome)
    requires p <= |src.bytes|
    ensures o.result.Success? <==> CollectParagraph(src, p).err.None?
    ensures o.result.PartialSuccess? ==> o.result.error == EndError(src)
    ensures o.result.Success? || o.result.PartialSuccess?
    ensures o.result.value.Paragraph?
    ensures o.queued.Some? <==> CollectParagraph(src, p).level.Some?
    ensures o.queued.Some? ==> o.queued.value.Success? && o.queued.value.value.Heading?
  {
    var r := CollectParagraph(src, p);
    if r.level.Some? then
      var (kept, head) := SplitLastLine(r.buf);
      FinishParagraph(src, r, kept, head)
    else FinishParagraph(src, r, r.buf, [])
  }

  /** `bytes[p..m]` is one line of plain text: no escape byte, no delimiter, and its only
      line feed at the end. */
  ghost predicate PlainLine(bytes: Bytes, p: nat, m: nat) {
    && p < m <= |bytes| && bytes[m - 1] == NL
    && (forall i :: p <= i < m - 1 ==> bytes[i] != NL)
    && (forall i :: p <= i < m ==> InlineParser.Plain(bytes[i]))
  }

  /** A plain line followed by an underline is collected alone, stopped by the underline. */
  lemma OneLineThenUnderline(src: Source, p: nat, m: nat, q: nat)
    requires PlainLine(src.bytes, p, m) && IsUnderline(src.bytes, m, q)
    ensures CollectParagraph(src, p)
      == ParagraphLines(src.bytes[p..m], None, Some(LevelOf(src.bytes[m])), m, q)
  {
    var l := ReadLine(src, p);
    assert l.next == m && l.result.Success?;
    RunEndUnique(src.bytes, m, SPACE, m);
    assert TryParseEmptyLine(src, m).result.NoParse?;
    UnderlineAccepted(src, m, q);
  }

  /** With the split as intended, a plain line over an underline becomes a heading of that
      line, at the level the underline gives, and the paragraph before it is empty. */
  lemma SetextHeadingTakesLastLine(src: Source, p: nat, m: nat, q: nat)
    requires PlainLine(src.bytes, p, m) && IsUnderline(src.bytes, m, q)
    ensures ParseParagraph(src, p) == ParagraphOutcome(
      Success(Block.Paragraph([])),
      Some(Success(Heading(ToNumeric(LevelOf(src.bytes[m])), [Chunk(src.bytes[p..m])]))),
      q)
  {
    OneLineThenUnderline(src, p, m, q);
    var line := src.bytes[p..m];
    assert LastIndexOf(line[..|line| - 1], NL).None?;
    assert SplitLastLine(line) == ([], line);
    InlineParser.PlainTextIsOneChunk(line);
    InlineParser.PlainTextIsOneChunk([]);
  }

  /** As written, the same input gives a heading with no content, and the line stays in the
      paragraph. */
  lemma SetextHeadingAsWrittenIsEmpty(src: Source, p: nat, m: nat, q: nat)
    requires PlainLine(src.bytes, p, m) && IsUnderline(src.bytes, m, q)
    ensures ParseParagraphAsWritten(src, p) == ParagraphOutcome(
      Success(Block.Paragraph([Chunk(src.bytes[p..m])])),
      Some(Success(Heading(ToNumeric(LevelOf(src.bytes[m])), []))),
      q)
  {
    OneLineThenUnderline(src, p, m, q);
    var line := src.bytes[p..m];
    SplitAsWrittenHeadIsEmpty(line);
    InlineParser.PlainTextIsOneChunk(line);
    InlineParser.PlainTextIsOneChunk([]);
  }
}
