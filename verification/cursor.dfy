/** The cursor of the slice-based parser snapshot: a position in an immutable byte slice,
    marks as saved positions, and the three-way production result. The reading helpers'
    bodies are not part of the repository; each is given here the meaning its callers rely
    on, with a production that does not apply restoring the position it started from. */
module Cursor {
  import opened Util

  /** `ParseResult` of the slice-based parser: a value, "this production does not apply
      here", or "the input ended". */
  datatype SliceResult<T> = Success(value: T) | NoParse | End

  /** A result paired with the cursor position after the call. */
  datatype CStep<T> = CStep(result: SliceResult<T>, next: nat)

  /** `next_byte`: the byte under the cursor, which then moves past it. */
  function NextByte(bytes: Bytes, p: nat): (r: CStep<Byte>)
    requires p <= |bytes|
    ensures p < |bytes| ==> r == CStep(Success(bytes[p]), p + 1)
    ensures p == |bytes| ==> r == CStep(End, p)
  {
    if p < |bytes| then CStep(Success(bytes[p]), p + 1) else CStep(End, p)
  }

  /** `try_read_char`: consume the byte `c` if it is next; another byte is left unread. */
  function TryReadChar(bytes: Bytes, p: nat, c: Byte): (r: CStep<()>)
    requires p <= |bytes|
    ensures r.result.Success? <==> p < |bytes| && bytes[p] == c
    ensures r.result.End? <==> p == |bytes|
    ensures r.next == if r.result.Success? then p + 1 else p
  {
    if p == |bytes| then CStep(End, p)
    else if bytes[p] == c then CStep(Success(()), p + 1)
    else CStep(NoParse, p)
  }

  /** `try_parse_empty_line`: consume spaces and a line feed; a line with other content is
      not blank, and a slice that ends in spaces ends the input; both keep the position. */
  function TryParseEmptyLine(bytes: Bytes, p: nat): (r: CStep<()>)
    requires p <= |bytes|
    ensures r.result.Success? ==> IsBlankLine(bytes, p, r.next)
    ensures !r.result.Success? ==> r.next == p
    ensures r.result.End? <==> forall i :: p <= i < |bytes| ==> bytes[i] == SPACE
  {
    var e := RunEnd(bytes, p, SPACE);
    if e == |bytes| then CStep(End, p)
    else if bytes[e] == NL then CStep(Success(()), e + 1)
    else CStep(NoParse, p)
  }

  /** Every blank line is recognised and consumed whole. */
  lemma BlankLineConsumed(bytes: Bytes, p: nat, q: nat)
    requires IsBlankLine(bytes, p, q)
    ensures TryParseEmptyLine(bytes, p) == CStep(Success(()), q)
  {
    RunEndUnique(bytes, p, SPACE, q - 1);
  }
}
