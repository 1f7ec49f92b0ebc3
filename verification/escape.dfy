/** src/parser/inline/escape.rs: the byte after a backslash, in the slice-based parser. */
module EscapeParser {
  import opened Core
  import opened Util
  import opened Tokens
  import opened Cursor

  /** The bytes a backslash makes literal: \ ` * _ { } [ ] ( ) # + - . ! : | & < > ^ ~ */
  const ESCAPE_CHARS: Bytes :=
    [92, 96, 42, 95, 123, 125, 91, 93, 40, 41, 35, 43, 45, 46, 33, 58, 124, 38, 60, 62, 94, 126]

  /** `parse_escape`: read one byte; an escapable one becomes a one-byte chunk, any other
      gives nothing; with no byte left the input has ended. */
  function ParseEscape(bytes: Bytes, p: nat): (r: CStep<Option<Inline>>)
    requires p <= |bytes|
    ensures r.result.End? <==> p == |bytes|
    ensures r.result.End? ==> r.next == p
    ensures r.result.Success? ==> r.next == p + 1
    ensures r.result.Success? ==>
      (r.result.value.Some? <==> bytes[p] in ESCAPE_CHARS)
      && (r.result.value.Some? ==> r.result.value.value == Chunk([bytes[p]]))
    ensures !r.result.NoParse?
  {
    match NextByte(bytes, p).result
    case Success(c) =>
      if c in ESCAPE_CHARS then CStep(Success(Some(Chunk([c]))), p + 1)
      else CStep(Success(None), p + 1)
    case _ => CStep(End, p)
  }

  /** ASCII punctuation: the printable bytes that are neither letters, digits nor space. */
  predicate IsAsciiPunctuation(b: Byte) {
    (33 <= b <= 47) || (58 <= b <= 64) || (91 <= b <= 96) || (123 <= b <= 126)
  }

  /** The escape set has 22 distinct members, all of them ASCII punctuation; so letters,
      digits, spaces and line feeds are never escaped. */
  lemma EscapeSetShape()
    ensures |ESCAPE_CHARS| == 22
    ensures forall i, j :: 0 <= i < j < |ESCAPE_CHARS| ==> ESCAPE_CHARS[i] != ESCAPE_CHARS[j]
    ensures forall b :: b in ESCAPE_CHARS ==> IsAsciiPunctuation(b)
  {
  }

  /** A backslash before a letter, a digit or a space gives nothing: only punctuation is
      escaped. */
  lemma NonPunctuationNotEscaped(bytes: Bytes, p: nat)
    requires p < |bytes| && !IsAsciiPunctuation(bytes[p])
    ensures ParseEscape(bytes, p) == CStep(Success(None), p + 1)
  {
    EscapeSetShape();
  }
}
