/** src/parser/inline/mod.rs: the inline scanner of the reader-based parser, `inline` and
    its helper `find_emph_closing`. Positions are absolute indices into the source; the
    replay buffer and its `consume` calls are the concern of the `Replay` module. */
module InlineParser {
  import opened Util
  import opened Io
  import opened Errors
  import opened Scan
  import opened Tokens

  /** What a scan copied, where it stopped, and whether a read failed on the way. */
  datatype EmphScan = EmphScan(content: Bytes, next: nat, failed: bool)

  /** `find_emph_closing` keeps every byte it reads in front of what the rest of the scan keeps. */
  function Prepend(b: Bytes, r: EmphScan): (r': EmphScan)
    ensures r'.content == b + r.content && r'.next == r.next && r'.failed == r.failed
  {
    EmphScan(b + r.content, r.next, r.failed)
  }

  /** The `tn` loop of `find_emph_closing`: copy bytes until `sn` consecutive backticks have
      been read (`tn` of them already were, just before `p`), or the source runs out. */
  function CloseTicks(src: Source, p: nat, sn: nat, tn: nat): (r: EmphScan)
    requires p <= |src.bytes| && tn <= sn && tn <= p
    requires forall i :: p - tn <= i < p ==> src.bytes[i] == BACKTICK
    ensures p <= r.next <= |src.bytes| && r.content == src.bytes[p..r.next]
    ensures r.failed ==> r.next == |src.bytes|
    ensures !r.failed ==> p + (sn - tn) <= r.next && sn <= r.next
    ensures !r.failed ==> forall i :: r.next - sn <= i < r.next ==> src.bytes[i] == BACKTICK
    decreases |src.bytes| - p
  {
    if tn == sn then EmphScan([], p, false)
    else if p == |src.bytes| then EmphScan([], p, true)
    else
      var b := src.bytes[p];
      var r := CloseTicks(src, p + 1, sn, if b == BACKTICK then tn + 1 else 0);
      Prepend([b], r)
  }

  /** `r` ends the search started at `p`: without a failed read, its content is exactly the
      bytes before a run of `n` bytes `ec`, which ends just before a byte that is not `ec`. */
  ghost predicate ClosedAt(src: Source, p: nat, ec: Byte, n: nat, r: EmphScan) {
    !r.failed ==>
      && p + n <= r.next < |src.bytes|
      && r.content == src.bytes[p..r.next - n]
      && (forall i :: r.next - n <= i < r.next ==> src.bytes[i] == ec)
      && src.bytes[r.next] != ec
  }

  /** The outer loop of `find_emph_closing` from position `p`, looking for a run of exactly
      `n` bytes `ec`. A backslash and the byte after it are copied as they are; a backtick
      span (when `ec` is not the backtick) is copied through to its closing run; a run of
      `ec` of another length is copied one byte at a time. A failed read is remembered and
      the scan goes on where the code goes on. */
  function ScanEmph(src: Source, p: nat, ec: Byte, n: nat, escaping: bool): (r: EmphScan)
    requires p <= |src.bytes| && n > 0
    ensures r.next <= |src.bytes|
    ensures ClosedAt(src, p, ec, n, r)
    decreases |src.bytes| - p
  {
    if p == |src.bytes| then EmphScan([], p, true)
    else
      var c := src.bytes[p];
      if c == BACKSLASH then
        CopyOne(src, p, ec, n, ScanEmph(src, p + 1, ec, n, true), false)
      else if escaping then
        CopyOne(src, p, ec, n, ScanEmph(src, p + 1, ec, n, false), false)
      else if c == ec then
        var e := RunEnd(src.bytes, p + 1, ec);
        var runFailed := e == |src.bytes|;
        if e - p == n then
          // the closing run: step back over the byte that ended it
          EmphScan([], if runFailed then e - 1 else e, runFailed)
        else
          CopyOne(src, p, ec, n, ScanEmph(src, p + 1, ec, n, false), runFailed)
      else if c == BACKTICK then
        var t := TickSpan(src, p);
        if t.stop then EmphScan(t.content, t.next, true)
        else CopySpan(src, p, t, ec, n, ScanEmph(src, t.next, ec, n, false))
      else
        CopyOne(src, p, ec, n, ScanEmph(src, p + 1, ec, n, false), false)
  }

  /** A backtick span copied through by `find_emph_closing`: its bytes, where it ended,
      whether the scan must stop there, and whether a read failed. */
  datatype Span = Span(content: Bytes, next: nat, stop: bool, failed: bool)

  /** The backtick arm of `find_emph_closing`: count the opening run of `sn` backticks
      (the byte that ends it is stepped back over), then copy up to and including the first
      run of `sn` backticks. A failed read while counting is remembered, one while copying
      stops the scan. Without either, the span is exactly the bytes read. */
  function TickSpan(src: Source, p: nat): (t: Span)
    requires p < |src.bytes| && src.bytes[p] == BACKTICK
    ensures p < t.next <= |src.bytes|
    ensures t.stop ==> t.failed
    ensures !t.failed ==> t.content == src.bytes[p..t.next]
  {
    var e := RunEnd(src.bytes, p + 1, BACKTICK);
    var runFailed := e == |src.bytes|;
    var at := if runFailed then e - 1 else e;
    var c := CloseTicks(src, at, e - p, 0);
    if !runFailed && !c.failed then
      assert src.bytes[p..e] + src.bytes[e..c.next] == src.bytes[p..c.next];
      Span(src.bytes[p..e] + c.content, c.next, false, false)
    else
      // after a failed count the byte stepped back over is read a second time
      Span(src.bytes[p..e] + c.content, c.next, c.failed, true)
  }

  /** Keep byte `p` in front of the scan `r` that continues after it; `failed` records a
      read that failed on the way. */
  function CopyOne(src: Source, p: nat, ec: Byte, n: nat, r: EmphScan, failed: bool): (r': EmphScan)
    requires p < |src.bytes| && ClosedAt(src, p + 1, ec, n, r)
    ensures r'.next == r.next && r'.failed == (r.failed || failed)
    ensures ClosedAt(src, p, ec, n, r')
  {
    if !r.failed then
      assert [src.bytes[p]] + src.bytes[p + 1..r.next - n] == src.bytes[p..r.next - n];
      EmphScan([src.bytes[p]] + r.content, r.next, failed)
    else EmphScan([src.bytes[p]] + r.content, r.next, true)
  }

  /** Keep the span `t` starting at `p` in front of the scan `r` that continues after it. */
  function CopySpan(src: Source, p: nat, t: Span, ec: Byte, n: nat, r: EmphScan): (r': EmphScan)
    requires p <= t.next <= |src.bytes| && (!t.failed ==> t.content == src.bytes[p..t.next])
    requires ClosedAt(src, t.next, ec, n, r)
    ensures r'.next == r.next && r'.failed == (r.failed || t.failed)
    ensures ClosedAt(src, p, ec, n, r')
  {
    if !r.failed && !t.failed then
      assert src.bytes[p..t.next] + src.bytes[t.next..r.next - n] == src.bytes[p..r.next - n];
      EmphScan(t.content + r.content, r.next, false)
    else EmphScan(t.content + r.content, r.next, true)
  }

  /** `find_emph_closing`: on success the content up to the closing run, and the position
      just after that run; a failed read gives a partial success with what was copied. */
  function FindEmphClosing(src: Source, p: nat, ec: Byte, n: nat): (s: Step<Bytes>)
    requires p <= |src.bytes| && n > 0
    ensures s.result.Success? || s.result.PartialSuccess?
    ensures s.result.PartialSuccess? ==> s.result.error == EndError(src)
    ensures s.result.Success? ==>
      && p + n <= s.next < |src.bytes|
      && s.result.value == src.bytes[p..s.next - n]
      && (forall i :: s.next - n <= i < s.next ==> src.bytes[i] == ec)
      && src.bytes[s.next] != ec
  {
    var r := ScanEmph(src, p, ec, n, false);
    if r.failed then Step(PartialSuccess(r.content, EndError(src)), r.next)
    else Step(Success(r.content), r.next)
  }

  /** Where the scan loop of `inline` stopped: the tokens so far, the pending bytes, and the
      error that ended it. */
  datatype InlineEnd = InlineEnd(tokens: Text, buf: Bytes, err: MdError, next: nat)

  /** `inline`: scan the whole source into tokens. Reaching the end of a source that ends in
      end of file is a success; any other error gives a partial success. */
  function Inline(src: Source, p: nat): (s: Step<Text>)
    requires p <= |src.bytes|
    ensures s.result.Success? <==> src.tail.kind == EndOfFile
    ensures s.result.PartialSuccess? <==> src.tail.kind != EndOfFile
    ensures s.result.PartialSuccess? ==> s.result.error == EndError(src)
    decreases |src.bytes| - p, 2
  {
    var r := InlineLoop(src, p, [], [], false, false);
    var tokens := if |r.buf| > 0 then r.tokens + [Chunk(r.buf)] else r.tokens;
    if IsEndOfFile(r.err) then Step(Success(tokens), r.next)
    else Step(PartialSuccess(tokens, r.err), r.next)
  }

  /** The loop of `inline`. A space is kept and remembered; a backslash is dropped and makes
      the next byte literal; an emphasis or code delimiter is handled by `Delimiter`; any
      other byte is kept. Tokens are only ever appended. */
  function InlineLoop(src: Source, p: nat, tokens: Text, buf: Bytes, escaping: bool, space: bool): (r: InlineEnd)
    requires p <= |src.bytes|
    ensures r.err == EndError(src)
    ensures |tokens| <= |r.tokens| && r.tokens[..|tokens|] == tokens
    decreases |src.bytes| - p, 1
  {
    if p == |src.bytes| then InlineEnd(tokens, buf, EndError(src), p)
    else
      var c := src.bytes[p];
      if c == SPACE then InlineLoop(src, p + 1, tokens, buf + [c], escaping, true)
      else if c == BACKSLASH then InlineLoop(src, p + 1, tokens, buf, true, space)
      else if escaping then InlineLoop(src, p + 1, tokens, buf + [c], false, space)
      else if IsEmphasis(c) || IsCode(c) then Delimiter(src, p + 1, c, tokens + [Chunk(buf)], space)
      else InlineLoop(src, p + 1, tokens, buf + [c], escaping, space)
  }

  /** The delimiter arm of `inline`, entered just after the delimiter `c` with the pending
      bytes already flushed. After a space, a delimiter followed by a space is literal text.
      Otherwise a doubled delimiter makes `n = 2`, the closing run is searched, and the span
      becomes `Code` for a backtick, or the inline parse of its content, as `Emphasis` for
      one delimiter and `MoreEmphasis` for two. A failed read ends the scan. */
  function Delimiter(src: Source, p: nat, c: Byte, tokens: Text, space: bool): (r: InlineEnd)
    requires p <= |src.bytes| && (IsEmphasis(c) || IsCode(c))
    ensures r.err == EndError(src)
    ensures |tokens| <= |r.tokens| && r.tokens[..|tokens|] == tokens
    decreases |src.bytes| - p + 1, 0
  {
    if p == |src.bytes| then InlineEnd(tokens, [], EndError(src), p)
    else if space && src.bytes[p] == SPACE then InlineLoop(src, p, tokens, [c], false, false)
    else
      var n := if src.bytes[p] == c then 2 else 1;
      var f := FindEmphClosing(src, p + n - 1, c, n);
      if f.result.PartialSuccess? then InlineEnd(tokens, [], EndError(src), f.next)
      else if IsCode(c) then InlineLoop(src, f.next, tokens + [Code(f.result.value)], [], false, false)
      else
        // the nested parse reads a buffer that ends in end of file, so it succeeds
        var inner := Inline(SubSource(f.result.value), 0);
        var span := if n == 1 then Emphasis(inner.result.value) else MoreEmphasis(inner.result.value);
        InlineLoop(src, f.next, tokens + [span], [], false, false)
  }

  /** A byte `inline` keeps as it is: not the escape byte and not a delimiter. */
  predicate Plain(b: Byte) {
    b != BACKSLASH && !IsEmphasis(b) && !IsCode(b)
  }

  /** Over plain bytes the loop only collects: every byte lands in the pending buffer. */
  lemma {:induction false} PlainBytesCollected(src: Source, p: nat, tokens: Text, buf: Bytes, space: bool)
    requires p <= |src.bytes|
    requires forall i :: p <= i < |src.bytes| ==> Plain(src.bytes[i])
    ensures InlineLoop(src, p, tokens, buf, false, space)
      == InlineEnd(tokens, buf + src.bytes[p..], EndError(src), |src.bytes|)
    decreases |src.bytes| - p
  {
    if p < |src.bytes| {
      var c := src.bytes[p];
      PlainBytesCollected(src, p + 1, tokens, buf + [c], space || c == SPACE);
      assert buf + [c] + src.bytes[p + 1..] == buf + src.bytes[p..];
    } else {
      assert buf + src.bytes[p..] == buf;
    }
  }

  /** Text without escapes or delimiters is one chunk (none when empty), and reading it from
      a buffer is a success. */
  lemma PlainTextIsOneChunk(bytes: Bytes)
    requires forall i :: 0 <= i < |bytes| ==> Plain(bytes[i])
    ensures Inline(SubSource(bytes), 0) == Step(Success(if |bytes| > 0 then [Chunk(bytes)] else []), |bytes|)
  {
    var src := SubSource(bytes);
    PlainBytesCollected(src, 0, [], [], false);
    assert [] + bytes[0..] == bytes;
    assert InlineLoop(src, 0, [], [], false, false) == InlineEnd([], bytes, EndError(src), |bytes|);
    assert IsEndOfFile(EndError(src));
    var empty: Text := [];
    assert empty + [Chunk(bytes)] == [Chunk(bytes)];
  }

  /** A backslash is dropped and the byte after it is kept literally, even a delimiter. */
  lemma EscapedByteIsLiteral(src: Source, p: nat, tokens: Text, buf: Bytes, space: bool)
    requires p + 1 < |src.bytes| && src.bytes[p] == BACKSLASH
    requires src.bytes[p + 1] != BACKSLASH && src.bytes[p + 1] != SPACE
    ensures InlineLoop(src, p, tokens, buf, false, space)
      == InlineLoop(src, p + 2, tokens, buf + [src.bytes[p + 1]], false, space)
  {
  }

  /** After a space, a delimiter followed by a space flushes the pending bytes and then
      starts the new pending bytes with itself, as literal text. */
  lemma SpacedDelimiterIsLiteral(src: Source, p: nat, tokens: Text, buf: Bytes)
    requires p + 1 < |src.bytes| && (IsEmphasis(src.bytes[p]) || IsCode(src.bytes[p]))
    requires src.bytes[p + 1] == SPACE
    ensures InlineLoop(src, p, tokens, buf, false, true)
      == InlineLoop(src, p + 1, tokens + [Chunk(buf)], [src.bytes[p]], false, false)
  {
  }

  /** Over plain bytes the closing search for `n` delimiters `ec` copies up to the first
      `ec`; exactly `n` of them there close the span. */
  lemma {:induction false} PlainSpanCloses(src: Source, p: nat, q: nat, ec: Byte, n: nat)
    requires p <= q && 0 < n && q + n < |src.bytes| && (IsEmphasis(ec) || IsCode(ec))
    requires forall i :: p <= i < q ==> Plain(src.bytes[i])
    requires forall i :: q <= i < q + n ==> src.bytes[i] == ec
    requires src.bytes[q + n] != ec
    ensures ScanEmph(src, p, ec, n, false) == EmphScan(src.bytes[p..q], q + n, false)
    decreases q - p
  {
    if p < q {
      PlainSpanCloses(src, p + 1, q, ec, n);
      assert [src.bytes[p]] + src.bytes[p + 1..q] == src.bytes[p..q];
    } else {
      RunEndUnique(src.bytes, q + 1, ec, q + n);
    }
  }

  /** So over plain bytes the closing search succeeds with those bytes. */
  lemma PlainSpanFound(src: Source, p: nat, q: nat, ec: Byte, n: nat)
    requires p <= q && 0 < n && q + n < |src.bytes| && (IsEmphasis(ec) || IsCode(ec))
    requires forall i :: p <= i < q ==> Plain(src.bytes[i])
    requires forall i :: q <= i < q + n ==> src.bytes[i] == ec
    requires src.bytes[q + n] != ec
    ensures FindEmphClosing(src, p, ec, n) == Step(Success(src.bytes[p..q]), q + n)
  {
    PlainSpanCloses(src, p, q, ec, n);
  }

  /** The token a closed span of `n` delimiters `c` around `text` stands for: code for a
      backtick, and otherwise the inline parse of the text, emphasised once or twice. */
  function SpanToken(c: Byte, n: nat, text: Bytes): Tokens.Inline {
    if IsCode(c) then Code(text)
    else
      var inner := Inline(SubSource(text), 0).result.value;
      if n == 1 then Emphasis(inner) else MoreEmphasis(inner)
  }

  /** A delimiter outside an escape flushes the pending bytes and enters the delimiter
      arm just after it. */
  lemma DelimiterEntered(src: Source, p: nat, tokens: Text, buf: Bytes, space: bool)
    requires p < |src.bytes| && (IsEmphasis(src.bytes[p]) || IsCode(src.bytes[p]))
    ensures InlineLoop(src, p, tokens, buf, false, space) == Delimiter(src, p + 1, src.bytes[p], tokens + [Chunk(buf)], space)
  {
  }

  /** The delimiter arm once `find_emph_closing` has found the closing run at `m`. */
  lemma DelimiterGivenClosing(src: Source, p: nat, c: Byte, n: nat, o: nat, m: nat, tokens: Text, space: bool)
    requires p < |src.bytes| && (IsEmphasis(c) || IsCode(c))
    requires !(space && src.bytes[p] == SPACE)
    requires n == (if src.bytes[p] == c then 2 else 1) && o == p + n - 1
    requires o <= m && m + n < |src.bytes|
    requires FindEmphClosing(src, o, c, n) == Step(Success(src.bytes[o..m]), m + n)
    ensures Delimiter(src, p, c, tokens, space) == InlineLoop(src, m + n, tokens + [SpanToken(c, n, src.bytes[o..m])], [], false, false)
  {
  }

  /** A single delimiter, plain text and the same delimiter again make one span: `Code`
      holding the text for a backtick, `Emphasis` holding the text as one chunk otherwise.
      The bytes pending before it are flushed first, and the scan goes on after it. */
  lemma DelimitedSpan(src: Source, p: nat, q: nat, tokens: Text, buf: Bytes)
    requires p + 1 < q && q + 1 < |src.bytes|
    requires IsEmphasis(src.bytes[p]) || IsCode(src.bytes[p])
    requires forall i :: p + 1 <= i < q ==> Plain(src.bytes[i])
    requires src.bytes[q] == src.bytes[p] && src.bytes[q + 1] != src.bytes[p]
    ensures var c := src.bytes[p]; var text := src.bytes[p + 1..q];
      InlineLoop(src, p, tokens, buf, false, false)
        == InlineLoop(src, q + 1, tokens + [Chunk(buf), if IsCode(c) then Code(text) else Emphasis([Chunk(text)])], [], false, false)
  {
    var c := src.bytes[p];
    var text := src.bytes[p + 1..q];
    var span := if IsCode(c) then Code(text) else Emphasis([Chunk(text)]);
    DelimiterEntered(src, p, tokens, buf, false);
    PlainSpanFound(src, p + 1, q, c, 1);
    DelimiterGivenClosing(src, p + 1, c, 1, p + 1, q, tokens + [Chunk(buf)], false);
    PlainTextIsOneChunk(text);
    assert Delimiter(src, p + 1, c, tokens + [Chunk(buf)], false) == InlineLoop(src, q + 1, tokens + [Chunk(buf)] + [span], [], false, false);
    assert tokens + [Chunk(buf)] + [span] == tokens + [Chunk(buf), span];
  }

  /** A doubled delimiter, plain text and the same doubled delimiter again make one span:
      `Code` holding the text for backticks, `MoreEmphasis` holding the text as one chunk
      otherwise. The bytes pending before it are flushed first, and the scan goes on after
      it. */
  lemma DoubledDelimiterSpan(src: Source, p: nat, q: nat, tokens: Text, buf: Bytes)
    requires p + 2 < q && q + 2 < |src.bytes|
    requires IsEmphasis(src.bytes[p]) || IsCode(src.bytes[p])
    requires src.bytes[p + 1] == src.bytes[p]
    requires forall i :: p + 2 <= i < q ==> Plain(src.bytes[i])
    requires src.bytes[q] == src.bytes[p] && src.bytes[q + 1] == src.bytes[p]
    requires src.bytes[q + 2] != src.bytes[p]
    ensures var c := src.bytes[p]; var text := src.bytes[p + 2..q];
      InlineLoop(src, p, tokens, buf, false, false)
        == InlineLoop(src, q + 2, tokens + [Chunk(buf), if IsCode(c) then Code(text) else MoreEmphasis([Chunk(text)])], [], false, false)
  {
    var c := src.bytes[p];
    var text := src.bytes[p + 2..q];
    DelimiterEntered(src, p, tokens, buf, false);
    PlainSpanFound(src, p + 2, q, c, 2);
    DelimiterGivenClosing(src, p + 1, c, 2, p + 2, q, tokens + [Chunk(buf)], false);
    PlainTextIsOneChunk(text);
    assert Delimiter(src, p + 1, c, tokens + [Chunk(buf)], false)
      == InlineLoop(src, q + 2, tokens + [Chunk(buf)] + [if IsCode(c) then Code(text) else MoreEmphasis([Chunk(text)])], [], false, false);
    assert tokens + [Chunk(buf)] + [if IsCode(c) then Code(text) else MoreEmphasis([Chunk(text)])]
      == tokens + [Chunk(buf), if IsCode(c) then Code(text) else MoreEmphasis([Chunk(text)])];
  }

  /** A delimiter that is never closed before the end of the source ends the scan: the
      pending bytes are flushed, and the delimiter and everything after it are dropped. */
  lemma UnclosedDelimiterDropsRest(src: Source, p: nat, tokens: Text, buf: Bytes)
    requires p + 1 < |src.bytes| && (IsEmphasis(src.bytes[p]) || IsCode(src.bytes[p]))
    requires forall i :: p + 1 <= i < |src.bytes| ==> Plain(src.bytes[i])
    ensures var r := InlineLoop(src, p, tokens, buf, false, false);
      r.tokens == tokens + [Chunk(buf)] && r.buf == []
  {
    UnclosedScanFails(src, p + 1, src.bytes[p]);
  }

  /** Over plain bytes up to the end of the source the closing search fails. */
  lemma {:induction false} UnclosedScanFails(src: Source, p: nat, ec: Byte)
    requires p <= |src.bytes| && (IsEmphasis(ec) || IsCode(ec))
    requires forall i :: p <= i < |src.bytes| ==> Plain(src.bytes[i])
    ensures ScanEmph(src, p, ec, 1, false).failed
    decreases |src.bytes| - p
  {
    if p < |src.bytes| {
      UnclosedScanFails(src, p + 1, ec);
    }
  }
}
