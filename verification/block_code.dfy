/** src/parser/block/block_code.rs: indented code blocks of the reader-based parser. */
module BlockCodeParser {
  import opened Core
  import opened Util
  import opened Io
  import opened Errors
  import opened Scan
  import opened Tokens

  /** The width of the code prefix, in spaces. */
  const INDENT: nat := 4

  /** `block_code_prefix`: four spaces read one by one; a byte other than a space before
      the fourth restores the position, the end of the source before it is an error. */
  function CodePrefix(src: Source, p: nat): (s: Step<()>)
    requires p <= |src.bytes|
    ensures !s.result.PartialSuccess?
    ensures s.result.Success? <==>
      p + INDENT <= |src.bytes| && forall i :: p <= i < p + INDENT ==> src.bytes[i] == SPACE
    ensures s.result.Success? ==> s.next == p + INDENT
    ensures s.result.NoParse? ==> s.next == p
    ensures s.result.Failure? ==> s.result.error == EndError(src) && s.next == |src.bytes|
  {
    var e := RunEnd(src.bytes, p, SPACE);
    if e >= p + INDENT then Step(Success(()), p + INDENT)
    else if e < |src.bytes| then Step(NoParse, p)
    else Step(Failure(EndError(src)), e)
  }

  /** The prefix fails only at the end of the source: with fewer than four spaces left. */
  lemma CodePrefixFailsOnlyAtEnd(src: Source, p: nat)
    requires p <= |src.bytes|
    ensures CodePrefix(src, p).result.Failure? <==>
      |src.bytes| < p + INDENT && forall i :: p <= i < |src.bytes| ==> src.bytes[i] == SPACE
  {
    var e := RunEnd(src.bytes, p, SPACE);
    if |src.bytes| < p + INDENT && forall i :: p <= i < |src.bytes| ==> src.bytes[i] == SPACE {
      RunEndUnique(src.bytes, p, SPACE, |src.bytes|);
    }
  }

  /** What the line loop of `block_code` collected: the code, the error that stopped it if
      any, and the position after. */
  datatype CodeLines = CodeLines(buf: Bytes, err: Option<MdError>, next: nat)

  /** The line loop of `block_code` from a line start `p`. A prefixed line adds the rest of
      the line (extra indentation kept); a blank line without the prefix adds one line feed;
      a non-blank line without it ends the block at its start; a failed read ends it with
      the error. */
  function CollectCode(src: Source, p: nat): (r: CodeLines)
    requires p <= |src.bytes|
    ensures p <= r.next <= |src.bytes| && |r.buf| <= r.next - p
    ensures r.err.Some? ==> r.err.value == EndError(src) && r.next == |src.bytes|
    ensures r.err.None? ==> r.next < |src.bytes|
    decreases |src.bytes| - p
  {
    var pr := CodePrefix(src, p);
    if pr.result.Failure? then CodeLines([], Some(pr.result.error), pr.next)
    else if pr.result.NoParse? then
      var e := TryParseEmptyLine(src, p);
      if e.result.Failure? then CodeLines([], Some(e.result.error), |src.bytes|)
      else if e.result.NoParse? then CodeLines([], None, p)
      else Add([NL], CollectCode(src, e.next))
    else
      var l := ReadLine(src, pr.next);
      if l.result.Failure? then CodeLines(l.line, Some(l.result.error), l.next)
      else Add(l.line, CollectCode(src, l.next))
  }

  /** Code collected in front of what the rest of the loop collects. */
  function Add(line: Bytes, rest: CodeLines): (r: CodeLines)
    ensures r.buf == line + rest.buf && r.err == rest.err && r.next == rest.next
  {
    CodeLines(line + rest.buf, rest.err, rest.next)
  }

  /** An indented line adds everything after its first four spaces. */
  lemma IndentedLineAdded(src: Source, p: nat, q: nat)
    requires p + INDENT <= |src.bytes| && forall i :: p <= i < p + INDENT ==> src.bytes[i] == SPACE
    requires IsLine(src.bytes, p + INDENT, q)
    ensures CollectCode(src, p) == Add(src.bytes[p + INDENT..q], CollectCode(src, q))
  {
    assert CodePrefix(src, p) == Step(Success(()), p + INDENT);
    OneLineRead(src, p + INDENT, q);
  }

  /** A blank line with less than four spaces adds a single line feed. */
  lemma ShortBlankLineAdded(src: Source, p: nat, q: nat)
    requires IsBlankLine(src.bytes, p, q) && q < p + INDENT + 1
    ensures CollectCode(src, p) == Add([NL], CollectCode(src, q))
  {
    RunEndUnique(src.bytes, p, SPACE, q - 1);
  }

  /** A line that starts with fewer than four spaces and is not blank ends the block at its
      start, without an error. */
  lemma UnindentedLineEnds(src: Source, p: nat, g: nat)
    requires p <= g < p + INDENT && g < |src.bytes|
    requires forall i :: p <= i < g ==> src.bytes[i] == SPACE
    requires src.bytes[g] != SPACE && src.bytes[g] != NL
    ensures CollectCode(src, p) == CodeLines([], None, p)
  {
    RunEndUnique(src.bytes, p, SPACE, g);
  }

  /** `block_code`: no block unless the first line is indented; otherwise the code of the
      lines from the start, partial when a read failed. The info string is always absent. */
  function ParseBlockCode(src: Source, p: nat): (s: Step<Block>)
    requires p <= |src.bytes|
    ensures s.result.NoParse? <==> CodePrefix(src, p).result.NoParse?
    ensures s.result.NoParse? ==> s.next == p
    ensures s.result.Failure? <==> CodePrefix(src, p).result.Failure?
    ensures s.result.Failure? ==> s.result.error == EndError(src)
    ensures (s.result.Success? || s.result.PartialSuccess?) ==>
      var r := CollectCode(src, p);
      s.result.value == BlockCode(None, r.buf) && s.next == r.next
      && (s.result.PartialSuccess? <==> r.err.Some?)
  {
    var first := CodePrefix(src, p);
    if first.result.NoParse? then Step(NoParse, p)
    else if first.result.Failure? then Step(Failure(first.result.error), first.next)
    else
      var r := CollectCode(src, p);
      match r.err
      case Some(e) => Step(PartialSuccess(BlockCode(None, r.buf), e), r.next)
      case None => Step(Success(BlockCode(None, r.buf)), r.next)
  }

  /** A code block that runs to the end of the source is always cut short by the end of
      the source: only an unindented, non-blank line ends a block without an error. */
  lemma CodeBlockAtEndIsPartial(src: Source, p: nat)
    requires p <= |src.bytes| && CodePrefix(src, p).result.Success?
    ensures ParseBlockCode(src, p).next == |src.bytes| ==> ParseBlockCode(src, p).result.PartialSuccess?
  {
  }
}
