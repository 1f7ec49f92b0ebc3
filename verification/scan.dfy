/** The reading primitives the reader-based parser snapshot builds its productions on
    (`read_byte_pr`, `read_char`, `try_read_char`, `unread_byte`, `skip_initial_spaces`,
    `skip_spaces`, `read_line_pr`, `try_parse_empty_line`). Their bodies are not part of
    the repository; each is given here the meaning its callers rely on. The cursor is a
    position in a `Source`; reading at the end reports the source's tail error. */
module Scan {
  import opened Util
  import opened Io
  import opened Errors

  /** The production result of the reader-based parser: a value, a value cut short by an
      error, an error, or "this production does not apply here". */
  datatype ParseResult<T> =
    | Success(value: T)
    | PartialSuccess(value: T, error: MdError)
    | Failure(error: MdError)
    | NoParse
  {
    /** `map`: transform the carried value, keep the outcome. */
    function Map<U>(f: T -> U): (r: ParseResult<U>)
      ensures r.Success? == this.Success? && r.PartialSuccess? == this.PartialSuccess?
      ensures r.Failure? == this.Failure? && r.NoParse? == this.NoParse?
      ensures (this.Success? || this.PartialSuccess?) ==> r.value == f(this.value)
      ensures (this.Failure? || this.PartialSuccess?) ==> r.error == this.error
    {
      match this
      case Success(v) => Success(f(v))
      case PartialSuccess(v, e) => PartialSuccess(f(v), e)
      case Failure(e) => Failure(e)
      case NoParse => NoParse
    }
  }

  /** A result paired with the cursor position after the call. */
  datatype Step<T> = Step(result: ParseResult<T>, next: nat)

  /** The error a read at the end of the source reports. */
  function EndError(src: Source): (e: MdError)
    ensures e.IoError? && e.cause == src.tail
  {
    MdError.IoError(src.tail)
  }

  /** `read_byte_pr`. */
  function ReadBytePr(src: Source, p: nat): (s: Step<Byte>)
    requires p <= |src.bytes|
    ensures p < |src.bytes| ==> s == Step(Success(src.bytes[p]), p + 1)
    ensures p == |src.bytes| ==> s == Step(Failure(EndError(src)), p)
  {
    if p < |src.bytes| then Step(Success(src.bytes[p]), p + 1) else Step(Failure(EndError(src)), p)
  }

  /** `read_char`: read one byte and report whether it is `c`; a mismatching byte is
      consumed too, callers reset. */
  function ReadChar(src: Source, p: nat, c: Byte): (s: Step<()>)
    requires p <= |src.bytes|
    ensures s.result.Success? <==> p < |src.bytes| && src.bytes[p] == c
    ensures s.result.NoParse? <==> p < |src.bytes| && src.bytes[p] != c
    ensures s.result.Failure? <==> p == |src.bytes|
    ensures s.result.Failure? ==> s.result.error == EndError(src) && s.next == p
    ensures !s.result.Failure? ==> s.next == p + 1
  {
    if p == |src.bytes| then Step(Failure(EndError(src)), p)
    else if src.bytes[p] == c then Step(Success(()), p + 1)
    else Step(NoParse, p + 1)
  }

  /** `try_read_char`: like `read_char`, but a mismatching byte is left unread. */
  function TryReadChar(src: Source, p: nat, c: Byte): (s: Step<()>)
    requires p <= |src.bytes|
    ensures s.result.Success? <==> p < |src.bytes| && src.bytes[p] == c
    ensures s.result.NoParse? <==> p < |src.bytes| && src.bytes[p] != c
    ensures s.result.Failure? <==> p == |src.bytes|
    ensures s.result.Failure? ==> s.result.error == EndError(src)
    ensures s.next == if s.result.Success? then p + 1 else p
  {
    var s := ReadChar(src, p, c);
    if s.result.NoParse? then Step(NoParse, p) else s
  }

  /** `unread_byte`: step back one byte, never before the start. */
  function UnreadByte(p: nat): (q: nat)
    ensures p > 0 ==> q == p - 1
    ensures p == 0 ==> q == 0
  {
    if p == 0 then 0 else p - 1
  }

  /** `skip_initial_spaces`: skip up to three spaces; it never fails. */
  function SkipInitialSpaces(src: Source, p: nat): (g: nat)
    requires p <= |src.bytes|
    ensures p <= g <= p + 3 && g <= |src.bytes|
    ensures forall i :: p <= i < g ==> src.bytes[i] == SPACE
    ensures g < p + 3 ==> g == |src.bytes| || src.bytes[g] != SPACE
  {
    var e := RunEnd(src.bytes, p, SPACE);
    if e <= p + 3 then e else p + 3
  }

  /** `skip_spaces`: skip every space; reaching the end of the source is an error, reported
      as partial when some spaces were skipped. */
  function SkipSpaces(src: Source, p: nat): (s: Step<()>)
    requires p <= |src.bytes|
    ensures s.next == RunEnd(src.bytes, p, SPACE)
    ensures s.result.Success? <==> s.next < |src.bytes|
    ensures s.result.PartialSuccess? <==> p < s.next == |src.bytes|
    ensures s.result.Failure? <==> p == s.next == |src.bytes|
    ensures (s.result.PartialSuccess? || s.result.Failure?) ==> s.result.error == EndError(src)
  {
    var e := RunEnd(src.bytes, p, SPACE);
    if e < |src.bytes| then Step(Success(()), e)
    else if p < e then Step(PartialSuccess((), EndError(src)), e)
    else Step(Failure(EndError(src)), e)
  }

  /** The outcome of `read_line_pr`: the result, the bytes appended and the next position. */
  datatype LineRead = LineRead(result: ParseResult<()>, line: Bytes, next: nat)

  /** `read_line_pr`: read up to and including the next line feed. At the end of the source
      it fails, having appended the unterminated rest. */
  function ReadLine(src: Source, p: nat): (r: LineRead)
    requires p <= |src.bytes|
    ensures p <= r.next <= |src.bytes| && r.line == src.bytes[p..r.next]
    ensures r.result.Success? || r.result.Failure?
    ensures forall i :: p <= i < r.next - 1 ==> src.bytes[i] != NL
    ensures r.result.Success? ==> p < r.next && src.bytes[r.next - 1] == NL
    ensures r.result.Failure? ==>
      r.next == |src.bytes| && r.result.error == EndError(src)
      && (r.next == p || src.bytes[r.next - 1] != NL)
    decreases |src.bytes| - p
  {
    if p == |src.bytes| then LineRead(Failure(EndError(src)), [], p)
    else if src.bytes[p] == NL then LineRead(Success(()), [NL], p + 1)
    else
      var rest := ReadLine(src, p + 1);
      LineRead(rest.result, [src.bytes[p]] + rest.line, rest.next)
  }

  /** `try_parse_empty_line`: consume a blank line; a line with other content is not one
      (the position is kept); a source ending in spaces reports its error. */
  function TryParseEmptyLine(src: Source, p: nat): (s: Step<()>)
    requires p <= |src.bytes|
    ensures !s.result.PartialSuccess?
    ensures s.result.Success? ==> IsBlankLine(src.bytes, p, s.next)
    ensures !s.result.Success? ==> s.next == p
    ensures s.result.NoParse? <==>
      var e := RunEnd(src.bytes, p, SPACE); e < |src.bytes| && src.bytes[e] != NL
    ensures s.result.Failure? <==> RunEnd(src.bytes, p, SPACE) == |src.bytes|
    ensures s.result.Failure? ==> s.result.error == EndError(src)
  {
    var e := RunEnd(src.bytes, p, SPACE);
    if e == |src.bytes| then Step(Failure(EndError(src)), p)
    else if src.bytes[e] == NL then Step(Success(()), e + 1)
    else Step(NoParse, p)
  }

  /** `read_line_pr` reads exactly one line. */
  lemma OneLineRead(src: Source, y: nat, z: nat)
    requires IsLine(src.bytes, y, z)
    ensures ReadLine(src, y) == LineRead(Success(()), src.bytes[y..z], z)
  {
    var l := ReadLine(src, y);
    if l.next != z {
      assert false;
    } else {
      assert l.result.Success?;
      assert l.result.value == ();
      assert l.result == Success(());
      assert l.line == src.bytes[y..z];
    }
  }

  /** `try_parse_empty_line` consumes exactly one blank line. */
  lemma BlankLineSkipped(src: Source, z: nat, w: nat)
    requires IsBlankLine(src.bytes, z, w)
    ensures TryParseEmptyLine(src, z) == Step(Success(()), w)
  {
    RunEndUnique(src.bytes, z, SPACE, w - 1);
  }
}
