/** src/parser/block/block_quote.rs: block quotes of the reader-based parser. The quoted
    lines are collected into a buffer whose nested document parse (`read_while_possible` on
    that buffer) is a parameter: the block productions it would run are not part of it. */
module BlockQuoteParser {
  import opened Core
  import opened Util
  import opened Io
  import opened Errors
  import opened Scan
  import opened Tokens

  /** `bytes[p..q]` is a quote prefix: at most three spaces, `>`, and then one space if one
      follows. */
  ghost predicate IsQuotePrefix(bytes: Bytes, p: nat, q: nat) {
    exists g :: p <= g <= p + 3 && g < q <= |bytes|
      && (forall i :: p <= i < g ==> bytes[i] == SPACE)
      && bytes[g] == GT
      && (q == g + 1 ==> q < |bytes| && bytes[q] != SPACE)
      && (q == g + 2 ==> bytes[g + 1] == SPACE)
      && q <= g + 2
  }

  /** `block_quote_prefix`: the prefix, `NoParse` with the position restored when the
      indented byte is not `>`, and the end-of-source error when the line ends first. */
  function QuotePrefix(src: Source, p: nat): (s: Step<()>)
    requires p <= |src.bytes|
    ensures s.result.Success? ==> IsQuotePrefix(src.bytes, p, s.next)
    ensures s.result.NoParse? <==>
      var g := SkipInitialSpaces(src, p); g < |src.bytes| && src.bytes[g] != GT
    ensures s.result.NoParse? ==> s.next == p
    ensures !s.result.PartialSuccess?
    ensures s.result.Failure? ==> s.result.error == EndError(src)
    ensures p <= s.next <= |src.bytes|
  {
    var g := SkipInitialSpaces(src, p);
    var gt := ReadChar(src, g, GT);
    if gt.result.NoParse? then Step(NoParse, p)
    else if gt.result.Failure? then Step(Failure(gt.result.error), gt.next)
    else
      var sp := TryReadChar(src, g + 1, SPACE);
      if sp.result.Failure? then Step(Failure(sp.result.error), sp.next)
      else Step(Success(()), sp.next)
  }

  /** Every quote prefix is recognised, and the production stops right after it. */
  lemma QuotePrefixAccepted(src: Source, p: nat, q: nat)
    requires p <= |src.bytes| && IsQuotePrefix(src.bytes, p, q)
    ensures QuotePrefix(src, p) == Step(Success(()), q)
  {
    var g :| p <= g <= p + 3 && g < q <= |src.bytes|
      && (forall i :: p <= i < g ==> src.bytes[i] == SPACE)
      && src.bytes[g] == GT
      && (q == g + 1 ==> q < |src.bytes| && src.bytes[q] != SPACE)
      && (q == g + 2 ==> src.bytes[g + 1] == SPACE)
      && q <= g + 2;
    RunEndUnique(src.bytes, p, SPACE, g);
    assert SkipInitialSpaces(src, p) == g;
  }

  /** What the line loop of `block_quote` collected: the line contents, the error that
      stopped it if any, and the position after. */
  datatype QuoteLines = QuoteLines(buf: Bytes, err: Option<MdError>, next: nat)

  /** The line loop of `block_quote` from a line start `p`: strip the prefix when there is
      one (a line without one continues the quote), add the rest of the line to the buffer,
      and after a blank line look at the next line: without a prefix the quote ends just
      after the blank line, with one the loop goes on there. The blank line itself is not
      added. A failed read stops the loop with its error. */
  function CollectQuote(src: Source, p: nat): (r: QuoteLines)
    requires p <= |src.bytes|
    ensures p <= r.next <= |src.bytes| && |r.buf| <= r.next - p
    ensures r.err.Some? ==> r.err.value == EndError(src)
    ensures r.err.None? ==> |r.buf| > 0 && r.buf[|r.buf| - 1] == NL
    decreases |src.bytes| - p
  {
    var pr := QuotePrefix(src, p);
    if pr.result.Failure? then QuoteLines([], Some(pr.result.error), pr.next)
    else
      var l := ReadLine(src, pr.next);
      if l.result.Failure? then QuoteLines(l.line, Some(l.result.error), l.next)
      else
        var e := TryParseEmptyLine(src, l.next);
        if e.result.Failure? then QuoteLines(l.line, Some(e.result.error), e.next)
        else if e.result.NoParse? then Continue(l.line, CollectQuote(src, l.next))
        else
          var after := QuotePrefix(src, e.next);
          if after.result.Failure? then QuoteLines(l.line, Some(after.result.error), after.next)
          else if after.result.NoParse? then QuoteLines(l.line, None, e.next)
          else Continue(l.line, CollectQuote(src, e.next))
  }

  /** A collected line in front of what the rest of the loop collects. */
  function Continue(line: Bytes, rest: QuoteLines): (r: QuoteLines)
    ensures r.buf == line + rest.buf && r.err == rest.err && r.next == rest.next
  {
    QuoteLines(line + rest.buf, rest.err, rest.next)
  }

  /** A line that is not followed by a blank line adds the rest of the line after its prefix
      (the whole line when there is none) and the loop goes on at the next line. */
  lemma QuoteLineAdded(src: Source, p: nat, y: nat, z: nat)
    requires p <= |src.bytes|
    requires (IsQuotePrefix(src.bytes, p, y) || (y == p && QuotePrefix(src, p).result.NoParse?))
    requires IsLine(src.bytes, y, z) && TryParseEmptyLine(src, z).result.NoParse?
    ensures CollectQuote(src, p) == Continue(src.bytes[y..z], CollectQuote(src, z))
  {
    if IsQuotePrefix(src.bytes, p, y) {
      QuotePrefixAccepted(src, p, y);
    }
    OneLineRead(src, y, z);
  }

  /** A blank line followed by a line without a prefix ends the quote right after the blank
      line; the blank line adds nothing. */
  lemma BlankThenUnquotedEnds(src: Source, p: nat, y: nat, z: nat, w: nat)
    requires p <= |src.bytes|
    requires (IsQuotePrefix(src.bytes, p, y) || (y == p && QuotePrefix(src, p).result.NoParse?))
    requires IsLine(src.bytes, y, z) && IsBlankLine(src.bytes, z, w)
    requires QuotePrefix(src, w).result.NoParse?
    ensures CollectQuote(src, p) == QuoteLines(src.bytes[y..z], None, w)
  {
    if IsQuotePrefix(src.bytes, p, y) {
      QuotePrefixAccepted(src, p, y);
    }
    OneLineRead(src, y, z);
    BlankLineSkipped(src, z, w);
  }

  /** A blank line followed by a quoted line is dropped and the loop goes on at that line. */
  lemma BlankThenQuotedContinues(src: Source, p: nat, y: nat, z: nat, w: nat)
    requires p <= |src.bytes|
    requires (IsQuotePrefix(src.bytes, p, y) || (y == p && QuotePrefix(src, p).result.NoParse?))
    requires IsLine(src.bytes, y, z) && IsBlankLine(src.bytes, z, w)
    requires QuotePrefix(src, w).result.Success?
    ensures CollectQuote(src, p) == Continue(src.bytes[y..z], CollectQuote(src, w))
  {
    if IsQuotePrefix(src.bytes, p, y) {
      QuotePrefixAccepted(src, p, y);
    }
    OneLineRead(src, y, z);
    BlankLineSkipped(src, z, w);
  }

  /** `read_while_possible` on a buffer: the blocks read and the error that stopped it. */
  type NestedParse = Bytes -> (Document, Option<MdError>)

  /** The outcome table of `block_quote`: the nested error wins, and with it an empty
      result is a failure; otherwise the loop's error makes the quote partial. */
  function QuoteOutcome(err0: Option<MdError>, result: Document, err: Option<MdError>): (r: ParseResult<Block>)
    ensures r.Failure? <==> err.Some? && |result| == 0
    ensures r.Failure? ==> r.error == err.value
    ensures r.PartialSuccess? <==> (err.Some? && |result| > 0) || (err.None? && err0.Some?)
    ensures r.PartialSuccess? ==> r.value == BlockQuote(result) && r.error == (if err.Some? then err.value else err0.value)
    ensures r.Success? <==> err0.None? && err.None?
    ensures r.Success? ==> r.value == BlockQuote(result)
  {
    match (err0, err, |result| == 0)
    case (_, Some(e), true) => Failure(e)
    case (_, Some(e), false) => PartialSuccess(BlockQuote(result), e)
    case (Some(e), None, _) => PartialSuccess(BlockQuote(result), e)
    case (None, None, _) => Success(BlockQuote(result))
  }

  /** `block_quote`: no quote unless the first line has the prefix; otherwise the lines
      from the start, parsed as a nested document. */
  function ParseBlockQuote(src: Source, p: nat, nested: NestedParse): (s: Step<Block>)
    requires p <= |src.bytes|
    ensures s.result.NoParse? <==> QuotePrefix(src, p).result.NoParse?
    ensures s.result.NoParse? ==> s.next == p
    ensures QuotePrefix(src, p).result.Failure? ==> s.result == Failure(EndError(src))
    ensures QuotePrefix(src, p).result.Success? ==>
      var r := CollectQuote(src, p);
      var (doc, err) := nested(r.buf);
      s == Step(QuoteOutcome(r.err, doc, err), r.next)
  {
    var first := QuotePrefix(src, p);
    if first.result.NoParse? then Step(NoParse, p)
    else if first.result.Failure? then Step(Failure(first.result.error), first.next)
    else
      var r := CollectQuote(src, p);
      var (doc, err) := nested(r.buf);
      Step(QuoteOutcome(r.err, doc, err), r.next)
  }
}
