/** src/parser/block/atx_heading.rs: `#` headings of the reader-based parser. */
module AtxHeadingParser {
  import opened Core
  import opened Util
  import opened Io
  import opened Errors
  import opened Scan
  import opened Tokens
  import InlineParser

  /** The deepest heading level. */
  const MAX_LEVEL: nat := 6

  /** The hashes counted at the start of a heading, where the count stopped, and the error
      when the source ended first. */
  datatype Hashes = Hashes(level: nat, next: nat, err: Option<MdError>)

  /** The counting loop of `atx_heading`: at most six `#`; a different byte reached earlier
      is left unread; the end of the source stops the count with its error. */
  function CountHashes(src: Source, p: nat): (h: Hashes)
    requires p <= |src.bytes|
    ensures h.next == p + h.level <= |src.bytes| && h.level <= MAX_LEVEL
    ensures forall i :: p <= i < h.next ==> src.bytes[i] == HASH
    ensures h.err.None? ==> h.level == MAX_LEVEL || (h.next < |src.bytes| && src.bytes[h.next] != HASH)
    ensures h.err.Some? ==> h.level < MAX_LEVEL && h.next == |src.bytes| && h.err.value == EndError(src)
  {
    var e := RunEnd(src.bytes, p, HASH);
    if e - p >= MAX_LEVEL then Hashes(MAX_LEVEL, p + MAX_LEVEL, None)
    else if e < |src.bytes| then Hashes(e - p, e, None)
    else Hashes(e - p, e, Some(EndError(src)))
  }

  /** The text of a heading line (its line feed removed): trailing `#` dropped first, then
      trailing spaces. */
  function HeadingText(line: Bytes): (t: Bytes)
    ensures |t| <= |line| && t == line[..|t|]
    ensures |t| > 0 ==> t[|t| - 1] != SPACE
    ensures forall i :: |t| <= i < |line| ==> line[i] == SPACE || line[i] == HASH
  {
    TrimRight(TrimRight(line, Exactly(HASH)), Exactly(SPACE))
  }

  /** A closing run of `#` is dropped together with the spaces before it. */
  lemma ClosingHashesDropped(text: Bytes, spaces: nat, hashes: nat)
    requires |text| > 0 && text[|text| - 1] != SPACE && text[|text| - 1] != HASH
    ensures HeadingText(text + Repeat(SPACE, spaces) + Repeat(HASH, hashes)) == text
  {
    var s1 := text + Repeat(SPACE, spaces);
    var line := s1 + Repeat(HASH, hashes);
    TrimRightUnique(line, Exactly(HASH), |s1|);
    assert line[..|s1|] == s1;
    TrimRightUnique(s1, Exactly(SPACE), |text|);
    assert s1[..|text|] == text;
  }

  /** A `#` followed by trailing spaces is kept: only the spaces go. */
  lemma HashBeforeSpacesKept(text: Bytes, spaces: nat)
    requires spaces > 0
    ensures HeadingText(text + [HASH] + Repeat(SPACE, spaces)) == text + [HASH]
  {
    var line := text + [HASH] + Repeat(SPACE, spaces);
    TrimRightUnique(line, Exactly(HASH), |line|);
    assert line[..|line|] == line;
    TrimRightUnique(line, Exactly(SPACE), |text| + 1);
    assert line[..|text| + 1] == text + [HASH];
  }

  /** `n` copies of a byte. */
  function Repeat(b: Byte, n: nat): (s: Bytes)
    ensures |s| == n && forall i :: 0 <= i < n ==> s[i] == b
  {
    if n == 0 then [] else [b] + Repeat(b, n - 1)
  }

  /** The heading the inline parser makes of a text, at a level. */
  function HeadingOf(level: nat, text: Bytes): (r: ParseResult<Block>)
    ensures r.Success? && r.value.Heading? && r.value.level == level
  {
    InlineParser.Inline(SubSource(text), 0).result.Map((t: Text) => Heading(level, t))
  }

  /** The line of a heading read up to its text: the level, the error when the source
      ended first, the text before its line feed, and the position after the line. */
  datatype HeadingLine = HeadingLine(level: nat, err: Option<MdError>, text: Bytes, next: nat)

  /** The reading part of `atx_heading` from a `#`: count the hashes, skip the spaces after
      them, read the rest of the line and drop its line feed. Each step runs only when the
      previous one found no error. */
  function ReadHeadingLine(src: Source, p: nat): (r: HeadingLine)
    requires p < |src.bytes| && src.bytes[p] == HASH
    ensures 1 <= r.level <= MAX_LEVEL && p < r.next <= |src.bytes|
    ensures r.err.Some? ==> r.err.value == EndError(src) && r.next == |src.bytes|
    ensures r.err.None? ==> src.bytes[r.next - 1] == NL
  {
    var h := CountHashes(src, p);
    if h.err.Some? then HeadingLine(h.level, h.err, [], h.next)
    else
      var sk := SkipSpaces(src, h.next);
      if !sk.result.Success? then HeadingLine(h.level, Some(sk.result.error), [], sk.next)
      else
        var l := ReadLine(src, sk.next);
        if l.result.Failure? then HeadingLine(h.level, Some(l.result.error), [], l.next)
        else HeadingLine(h.level, None, l.line[..|l.line| - 1], l.next)
  }

  /** `atx_heading`. No heading unless the line starts with `#`; the hashes give the level,
      spaces after them are skipped and the rest of the line, stripped of closing hashes
      and trailing spaces, is parsed as inline text. When the source ends first the
      heading is partial and has no content. */
  function ParseAtxHeading(src: Source, p: nat): (s: Step<Block>)
    requires p <= |src.bytes|
    ensures s.result.NoParse? <==> p < |src.bytes| && src.bytes[p] != HASH
    ensures s.result.NoParse? ==> s.next == p
    ensures s.result.Failure? <==> p == |src.bytes|
    ensures s.result.Failure? ==> s.result.error == EndError(src)
    ensures (s.result.Success? || s.result.PartialSuccess?) ==>
      s.result.value.Heading? && 1 <= s.result.value.level <= MAX_LEVEL
    ensures s.result.PartialSuccess? ==>
      s.result.value.content == [] && s.result.error == EndError(src) && s.next == |src.bytes|
    ensures s.result.Success? ==> p < s.next <= |src.bytes| && src.bytes[s.next - 1] == NL
  {
    var first := ReadChar(src, p, HASH);
    if first.result.NoParse? then Step(NoParse, p)
    else if first.result.Failure? then Step(Failure(first.result.error), p)
    else
      var r := ReadHeadingLine(src, p);
      match r.err
      case Some(e) => Step(PartialSuccess(Heading(r.level, []), e), r.next)
      case None => Step(HeadingOf(r.level, HeadingText(r.text)), r.next)
  }

  /** A complete heading line: the hashes `bytes[p..h]` (at most six, and not followed by
      another when fewer), spaces up to `s`, and the line `bytes[s..q]`, make the heading
      whose level is the number of hashes and whose text is that line without its line
      feed, closing hashes and trailing spaces. */
  lemma AtxLineAccepted(src: Source, p: nat, h: nat, s: nat, q: nat)
    requires IsLine(src.bytes, s, q) && src.bytes[s] != SPACE
    requires p < h <= p + MAX_LEVEL && h <= s
    requires forall i :: p <= i < h ==> src.bytes[i] == HASH
    requires h < p + MAX_LEVEL ==> src.bytes[h] != HASH
    requires forall i :: h <= i < s ==> src.bytes[i] == SPACE
    ensures ParseAtxHeading(src, p) == Step(HeadingOf(h - p, HeadingText(src.bytes[s..q - 1])), q)
  {
    var text := src.bytes[s..q - 1];
    assert src.bytes[p] == HASH;
    assert ReadHeadingLine(src, p) == HeadingLine(h - p, None, text, q) by {
      HeadingLineRead(src, p, h, s, q);
    }
    CompleteLineIsHeading(src, p, h - p, text, q);
  }

  /** A heading line read without an error is the heading of its text. */
  lemma CompleteLineIsHeading(src: Source, p: nat, level: nat, text: Bytes, next: nat)
    requires p < |src.bytes| && src.bytes[p] == HASH
    requires ReadHeadingLine(src, p) == HeadingLine(level, None, text, next)
    ensures ParseAtxHeading(src, p) == Step(HeadingOf(level, HeadingText(text)), next)
  {
  }

  /** The reading part of `AtxLineAccepted`. */
  lemma HeadingLineRead(src: Source, p: nat, h: nat, s: nat, q: nat)
    requires IsLine(src.bytes, s, q) && src.bytes[s] != SPACE
    requires p < h <= p + MAX_LEVEL && h <= s
    requires forall i :: p <= i < h ==> src.bytes[i] == HASH
    requires h < p + MAX_LEVEL ==> src.bytes[h] != HASH
    requires forall i :: h <= i < s ==> src.bytes[i] == SPACE
    ensures ReadHeadingLine(src, p) == HeadingLine(h - p, None, src.bytes[s..q - 1], q)
  {
    HashesCounted(src, p, h);
    RunEndUnique(src.bytes, h, SPACE, s);
    OneLineRead(src, s, q);
  }

  /** The count stops after at most six hashes, or before the first other byte. */
  lemma HashesCounted(src: Source, p: nat, h: nat)
    requires p <= h <= p + MAX_LEVEL && h < |src.bytes|
    requires forall i :: p <= i < h ==> src.bytes[i] == HASH
    requires h < p + MAX_LEVEL ==> src.bytes[h] != HASH
    ensures CountHashes(src, p) == Hashes(h - p, h, None)
  {
    if h < p + MAX_LEVEL {
      RunEndUnique(src.bytes, p, HASH, h);
    }
  }
}
