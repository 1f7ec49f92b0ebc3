/** src/parser/inline/emphasis.rs: emphasis and code spans in the slice-based parser. The
    recursive inline parse of an emphasised span (`parse_inline` of a sub-parser, whose
    slice-based body is not part of the repository) is a parameter. */
module EmphasisParser {
  import opened Core
  import opened Util
  import opened Tokens

  /** Where the closing search stopped: `last` is the position the span ends at (the start
      of the closing run, when one was found), `next` the cursor position, and `closed`
      whether a closing run was found. */
  datatype EmphStop = EmphStop(last: nat, next: nat, closed: bool)

  /** The closing loop of the backtick arm, at `p` with `tn` consecutive backticks just read:
      the position after the first `sn` consecutive backticks, or nothing when the slice
      ends first. */
  function TickClose(bytes: Bytes, p: nat, sn: nat, tn: nat): (r: Option<nat>)
    requires tn <= sn && tn <= p <= |bytes|
    requires forall i :: p - tn <= i < p ==> bytes[i] == BACKTICK
    ensures r.Some? ==> p <= r.value <= |bytes| && sn <= r.value
    ensures r.Some? ==> forall i :: r.value - sn <= i < r.value ==> bytes[i] == BACKTICK
    ensures r.Some? && tn < sn ==> p < r.value
    decreases |bytes| - p
  {
    if tn == sn then Some(p)
    else if p == |bytes| then None
    else TickClose(bytes, p + 1, sn, if bytes[p] == BACKTICK then tn + 1 else 0)
  }

  /** The loop of `until_emph_closing` from `p`. A backslash is passed over and starts an
      escape (again, when escaping); an escaped byte is passed over; a run of `ec` closes
      when it is exactly `n` long and is otherwise passed over one byte at a time; a code
      span is passed over whole; any other byte is passed over. The end of the slice stops
      the search: `last` is then the end of what was passed over, which inside a code span
      still missing its closing run is the end of the slice, and is just after the opening
      backtick when that run reaches the end. */
  function ScanClosing(bytes: Bytes, p: nat, escaping: bool, ec: Byte, n: nat): (r: EmphStop)
    requires p <= |bytes| && n > 0
    ensures p <= r.last <= r.next <= |bytes|
    ensures r.closed ==> r.next == r.last + n
    ensures r.closed ==> forall i :: r.last <= i < r.next ==> bytes[i] == ec
    ensures r.closed ==> r.next == |bytes| || bytes[r.next] != ec
    ensures !r.closed ==> r.next == |bytes|
    ensures r.last == p ==> p == |bytes| || r.closed
    decreases |bytes| - p
  {
    if p == |bytes| then EmphStop(p, p, false)
    else
      var c := bytes[p];
      if c == BACKSLASH then ScanClosing(bytes, p + 1, true, ec, n)
      else if escaping then ScanClosing(bytes, p + 1, false, ec, n)
      else if c == ec then
        var e := RunEnd(bytes, p + 1, ec);
        if e - p == n then EmphStop(p, e, true) else ScanClosing(bytes, p + 1, false, ec, n)
      else if c == BACKTICK then
        var e := RunEnd(bytes, p + 1, BACKTICK);
        match TickClose(bytes, e, e - p, 0)
        case None => EmphStop(if e == |bytes| then p + 1 else |bytes|, |bytes|, false)
        case Some(q) => ScanClosing(bytes, q, false, ec, n)
      else ScanClosing(bytes, p + 1, false, ec, n)
  }

  /** What `until_emph_closing` returns, and where it leaves the cursor. */
  datatype Closing = Closing(last: Option<nat>, next: nat)

  /** `until_emph_closing`: the end of the span, or nothing when the search stopped before
      passing over any byte. */
  function UntilEmphClosing(bytes: Bytes, start: nat, ec: Byte, n: nat): (r: Closing)
    requires start <= |bytes| && n > 0
    ensures r.last.Some? ==> start < r.last.value <= r.next <= |bytes|
    ensures r.last.None? <==> start == |bytes| || ScanClosing(bytes, start, false, ec, n).last == start
  {
    var s := ScanClosing(bytes, start, false, ec, n);
    if s.last == start then Closing(None, s.next) else Closing(Some(s.last), s.next)
  }

  /** A byte that neither escapes, nor may close, nor opens a code span. */
  predicate Inert(b: Byte, ec: Byte) {
    b != BACKSLASH && b != ec && b != BACKTICK
  }

  /** Inert bytes followed by a run of exactly `n` copies of `ec` close at the run. */
  lemma {:induction false} InertSpanCloses(bytes: Bytes, p: nat, m: nat, ec: Byte, n: nat)
    requires p <= m && m + n <= |bytes| && n > 0 && ec != BACKSLASH
    requires forall i :: p <= i < m ==> Inert(bytes[i], ec)
    requires forall i :: m <= i < m + n ==> bytes[i] == ec
    requires m + n == |bytes| || bytes[m + n] != ec
    ensures ScanClosing(bytes, p, false, ec, n) == EmphStop(m, m + n, true)
    decreases m - p
  {
    if p < m {
      InertSpanCloses(bytes, p + 1, m, ec, n);
    } else {
      RunEndUnique(bytes, p + 1, ec, m + n);
    }
  }

  /** A byte after a backslash never closes: the search goes on after it. */
  lemma EscapedByteSkipped(bytes: Bytes, p: nat, ec: Byte, n: nat)
    requires p + 2 <= |bytes| && n > 0
    requires bytes[p] == BACKSLASH && bytes[p + 1] != BACKSLASH
    ensures ScanClosing(bytes, p, false, ec, n) == ScanClosing(bytes, p + 2, false, ec, n)
  {
  }

  /** A run of `ec` of another length than `n` does not close: the search goes on just
      after its first byte. */
  lemma WrongRunSkipped(bytes: Bytes, p: nat, ec: Byte, n: nat)
    requires p < |bytes| && n > 0 && bytes[p] == ec && ec != BACKSLASH
    requires RunEnd(bytes, p + 1, ec) - p != n
    ensures ScanClosing(bytes, p, false, ec, n) == ScanClosing(bytes, p + 1, false, ec, n)
  {
  }

  /** A run of `ec` at least `n` long closes on its last `n` bytes: each shorter tail is
      passed over one byte at a time. */
  lemma {:induction false} LongRunClosesOnItsTail(bytes: Bytes, p: nat, e: nat, ec: Byte, n: nat)
    requires p + n <= e <= |bytes| && n > 0 && ec != BACKSLASH
    requires forall i :: p <= i < e ==> bytes[i] == ec
    requires e == |bytes| || bytes[e] != ec
    ensures ScanClosing(bytes, p, false, ec, n) == EmphStop(e - n, e, true)
    decreases e - p
  {
    RunEndUnique(bytes, p + 1, ec, e);
    if p + n < e {
      LongRunClosesOnItsTail(bytes, p + 1, e, ec, n);
    }
  }

  /** A non-empty one-backtick code span is passed over whole, so an `ec` inside it never
      closes. */
  lemma CodeSpanSkipped(bytes: Bytes, p: nat, q: nat, ec: Byte, n: nat)
    requires p + 3 <= q <= |bytes| && n > 0 && ec != BACKTICK && ec != BACKSLASH
    requires bytes[p] == BACKTICK && bytes[q - 1] == BACKTICK
    requires forall i :: p < i < q - 1 ==> bytes[i] != BACKTICK
    ensures ScanClosing(bytes, p, false, ec, n) == ScanClosing(bytes, q, false, ec, n)
  {
    RunEndUnique(bytes, p + 1, BACKTICK, p + 1);
    TickSpanEnds(bytes, p + 1, q);
  }

  /** The closing loop of a one-backtick span stops just after the next backtick. */
  lemma {:induction false} TickSpanEnds(bytes: Bytes, p: nat, q: nat)
    requires p < q <= |bytes| && bytes[q - 1] == BACKTICK
    requires forall i :: p <= i < q - 1 ==> bytes[i] != BACKTICK
    ensures TickClose(bytes, p, 1, 0) == Some(q)
    decreases q - p
  {
    if p < q - 1 {
      TickSpanEnds(bytes, p + 1, q);
    }
  }

  /** The span search of `parse_emphasis`: from `q`, find a span end whose last byte, in the
      slice that starts at `start`, is not a space. */
  function FindSpan(bytes: Bytes, start: nat, q: nat, ec: Byte, n: nat): (r: Closing)
    requires start <= q <= |bytes| && n > 0
    ensures r.last.Some? ==> q < r.last.value <= r.next <= |bytes| && bytes[r.last.value - 1] != SPACE
    ensures q <= r.next <= |bytes|
    decreases |bytes| - q
  {
    var u := UntilEmphClosing(bytes, q, ec, n);
    match u.last
    case None => u
    case Some(last) =>
      if bytes[last - 1] != SPACE then u
      else FindSpan(bytes, start, u.next, ec, n)
  }

  /** `parse_inline` of a sub-parser over a slice. */
  type InlineParse = Bytes -> Text

  /** The inline that a span `slice` of delimiter `ec` repeated `n` times stands for: code
      for a backtick, and otherwise the inline parse of the span, emphasised once or twice. */
  function SpanOf(ec: Byte, n: nat, slice: Bytes, inline: InlineParse): Inline {
    if IsCode(ec) then Code(slice)
    else if n == 1 then Emphasis(inline(slice))
    else MoreEmphasis(inline(slice))
  }

  /** `parse_emphasis`: the span from `start` to the accepted end, or nothing, with the
      cursor where the last closing search left it. */
  function ParseEmphasis(bytes: Bytes, start: nat, ec: Byte, n: nat, inline: InlineParse): (r: (Option<Inline>, nat))
    requires start <= |bytes| && 0 < n && (IsCode(ec) || n <= 2)
    ensures r.0.Some? ==> (match FindSpan(bytes, start, start, ec, n).last
      case None => false
      case Some(last) =>
        var slice := bytes[start..last];
        |slice| > 0 && slice[|slice| - 1] != SPACE && r.0.value == SpanOf(ec, n, slice, inline))
    ensures r.0.None? <==> FindSpan(bytes, start, start, ec, n).last.None?
    ensures start <= r.1 <= |bytes|
  {
    var f := FindSpan(bytes, start, start, ec, n);
    match f.last
    case None => (None, f.next)
    case Some(last) =>
      assert bytes[start..last][last - start - 1] == bytes[last - 1];
      (Some(SpanOf(ec, n, bytes[start..last], inline)), f.next)
  }

  /** Inert text not ending in a space, then exactly `n` delimiters: the text is the span. */
  lemma InertEmphasis(bytes: Bytes, start: nat, m: nat, ec: Byte, n: nat, inline: InlineParse)
    requires start < m && m + n <= |bytes| && 0 < n <= 2 && !IsCode(ec) && ec != BACKSLASH
    requires forall i :: start <= i < m ==> Inert(bytes[i], ec)
    requires forall i :: m <= i < m + n ==> bytes[i] == ec
    requires m + n == |bytes| || bytes[m + n] != ec
    requires bytes[m - 1] != SPACE
    ensures ParseEmphasis(bytes, start, ec, n, inline)
      == (Some(if n == 1 then Emphasis(inline(bytes[start..m])) else MoreEmphasis(inline(bytes[start..m]))), m + n)
  {
    InertSpanCloses(bytes, start, m, ec, n);
  }

  /** A span end after a space is not accepted: the search resumes after the closing run,
      and the span still starts at `start`. */
  lemma SpaceBeforeCloseRejected(bytes: Bytes, start: nat, q: nat, m: nat, ec: Byte, n: nat)
    requires start <= q < m && m + n <= |bytes| && n > 0 && ec != BACKSLASH
    requires forall i :: q <= i < m ==> Inert(bytes[i], ec)
    requires forall i :: m <= i < m + n ==> bytes[i] == ec
    requires m + n == |bytes| || bytes[m + n] != ec
    requires bytes[m - 1] == SPACE
    ensures FindSpan(bytes, start, q, ec, n) == FindSpan(bytes, start, m + n, ec, n)
  {
    InertSpanCloses(bytes, q, m, ec, n);
    FindSpanPastSpace(bytes, start, q, m, ec, n);
  }

  /** A closing run at `m` after a space sends the span search on past the run. */
  lemma FindSpanPastSpace(bytes: Bytes, start: nat, q: nat, m: nat, ec: Byte, n: nat)
    requires start <= q < m && m + n <= |bytes| && n > 0
    requires ScanClosing(bytes, q, false, ec, n) == EmphStop(m, m + n, true)
    requires bytes[m - 1] == SPACE
    ensures FindSpan(bytes, start, q, ec, n) == FindSpan(bytes, start, m + n, ec, n)
  {
    FindSpanStep(bytes, start, q, ec, n);
  }

  /** One round of the span search: a candidate not after a space ends it, and one after
      a space sends it on past the closing run. */
  lemma FindSpanStep(bytes: Bytes, start: nat, q: nat, ec: Byte, n: nat)
    requires start <= q < |bytes| && n > 0
    requires ScanClosing(bytes, q, false, ec, n).last != q
    ensures var s := ScanClosing(bytes, q, false, ec, n);
      FindSpan(bytes, start, q, ec, n)
        == if bytes[s.last - 1] != SPACE then Closing(Some(s.last), s.next)
           else FindSpan(bytes, start, s.next, ec, n)
  {
    var s := ScanClosing(bytes, q, false, ec, n);
    assert UntilEmphClosing(bytes, q, ec, n) == Closing(Some(s.last), s.next);
  }

  /** A closing candidate at `m`: exactly `n` copies of `ec` from `m` on, then a byte that
      is not `ec` or the end of the slice. The byte before `m` may itself be `ec`. */
  predicate Closes(bytes: Bytes, m: nat, ec: Byte, n: nat) {
    m < |bytes| && bytes[m] == ec && RunEnd(bytes, m + 1, ec) - m == n
  }

  /** Inside a closing candidate no other candidate starts. */
  lemma NoClosingInsideRun(bytes: Bytes, m: nat, k: nat, ec: Byte, n: nat)
    requires Closes(bytes, m, ec, n) && m < k < m + n
    ensures !Closes(bytes, k, ec, n)
  {
    RunEndUnique(bytes, k + 1, ec, m + n);
  }

  /** One step of a closing search that never closes: where the piece that starts at `p`
      ends, and whether an escape is pending after it. A backslash is one piece and starts
      an escape; an escaped byte, an `ec` and any other byte are one piece each; a code
      span is one piece up to the end of its closing run, or up to the end of the slice. */
  function Skip(bytes: Bytes, p: nat, escaping: bool, ec: Byte): (r: (nat, bool))
    requires p < |bytes|
    ensures p < r.0 <= |bytes|
  {
    var c := bytes[p];
    if c == BACKSLASH then (p + 1, true)
    else if escaping then (p + 1, false)
    else if c == ec then (p + 1, false)
    else if c == BACKTICK then
      var e := RunEnd(bytes, p + 1, BACKTICK);
      match TickClose(bytes, e, e - p, 0)
      case None => (|bytes|, false)
      case Some(q) => (q, false)
    else (p + 1, false)
  }

  /** The walk of `Skip` from `p` starts a piece at `m` with no escape pending: `m` lies
      neither inside a code span nor just after a backslash. */
  ghost predicate Reached(bytes: Bytes, p: nat, escaping: bool, ec: Byte, m: nat)
    decreases |bytes| - p
  {
    p <= m <= |bytes| &&
    if p == m then !escaping
    else
      var s := Skip(bytes, p, escaping, ec);
      Reached(bytes, s.0, s.1, ec, m)
  }

  /** The walk is one walk: two positions it reaches are reached from each other. */
  lemma {:induction false} ReachedSplit(bytes: Bytes, a: nat, escaping: bool, ec: Byte, b: nat, c: nat)
    requires Reached(bytes, a, escaping, ec, b) && Reached(bytes, a, escaping, ec, c) && b <= c
    ensures Reached(bytes, b, false, ec, c)
    decreases |bytes| - a
  {
    if a < b {
      var s := Skip(bytes, a, escaping, ec);
      ReachedSplit(bytes, s.0, s.1, ec, b, c);
    }
  }

  /** Walking on from a reached position reaches what the walk from there reaches. */
  lemma {:induction false} ReachedTrans(bytes: Bytes, a: nat, escaping: bool, ec: Byte, b: nat, c: nat)
    requires Reached(bytes, a, escaping, ec, b) && Reached(bytes, b, false, ec, c)
    ensures Reached(bytes, a, escaping, ec, c)
    decreases |bytes| - a
  {
    if a < b {
      var s := Skip(bytes, a, escaping, ec);
      ReachedTrans(bytes, s.0, s.1, ec, b, c);
    }
  }

  /** A run of `ec` is walked over one byte at a time. */
  lemma {:induction false} ReachedThroughRun(bytes: Bytes, m: nat, j: nat, ec: Byte)
    requires m <= j <= |bytes| && ec != BACKSLASH
    requires forall i :: m <= i < j ==> bytes[i] == ec
    ensures Reached(bytes, m, false, ec, j)
    decreases j - m
  {
    if m < j {
      ReachedThroughRun(bytes, m + 1, j, ec);
    }
  }

  /** The closing search stops at the first closing candidate of the walk, and finds none
      when it reaches the end: runs, escapes and code spans are passed over exactly as the
      walk passes over them. */
  lemma {:induction false} ScanStopsAtFirstClosing(bytes: Bytes, p: nat, escaping: bool, ec: Byte, n: nat)
    requires p <= |bytes| && n > 0 && ec != BACKSLASH
    ensures var r := ScanClosing(bytes, p, escaping, ec, n);
      r.closed ==> Reached(bytes, p, escaping, ec, r.last) && Closes(bytes, r.last, ec, n)
    ensures var r := ScanClosing(bytes, p, escaping, ec, n);
      r.closed ==> forall m :: p <= m < r.last && Reached(bytes, p, escaping, ec, m) ==> !Closes(bytes, m, ec, n)
    ensures var r := ScanClosing(bytes, p, escaping, ec, n);
      !r.closed ==> forall m :: Reached(bytes, p, escaping, ec, m) ==> !Closes(bytes, m, ec, n)
    decreases |bytes| - p
  {
    if p < |bytes| {
      var s := Skip(bytes, p, escaping, ec);
      if !escaping && Closes(bytes, p, ec, n) {
        assert ScanClosing(bytes, p, escaping, ec, n).last == p;
      } else {
        ScanFollowsSkip(bytes, p, escaping, ec, n);
        ScanStopsAtFirstClosing(bytes, s.0, s.1, ec, n);
      }
    }
  }

  /** Away from a closing candidate the closing search goes on where the walk goes on: it
      closes, and where, exactly as it does from the next piece. */
  lemma ScanFollowsSkip(bytes: Bytes, p: nat, escaping: bool, ec: Byte, n: nat)
    requires p < |bytes| && n > 0 && ec != BACKSLASH
    requires !(!escaping && Closes(bytes, p, ec, n))
    ensures var s := Skip(bytes, p, escaping, ec);
      var r := ScanClosing(bytes, p, escaping, ec, n); var r' := ScanClosing(bytes, s.0, s.1, ec, n);
      r.closed == r'.closed && (r.closed ==> r.last == r'.last)
  {
  }

  /** Conversely, the first closing candidate the walk reaches is where the closing search
      stops. */
  lemma FirstCandidateStops(bytes: Bytes, p: nat, ec: Byte, n: nat, m: nat)
    requires p <= m && n > 0 && ec != BACKSLASH
    requires Reached(bytes, p, false, ec, m) && Closes(bytes, m, ec, n)
    requires forall k: nat :: p <= k < m && Reached(bytes, p, false, ec, k) ==> !Closes(bytes, k, ec, n)
    ensures ScanClosing(bytes, p, false, ec, n) == EmphStop(m, m + n, true)
  {
    ScanStopsAtFirstClosing(bytes, p, false, ec, n);
  }

  /** An opening run of backticks at `m` that reaches the end of the slice: the closing
      search stops inside it, having passed over its first backtick only. A backtick that
      is the delimiter itself opens no code span. */
  predicate OpenAtEnd(bytes: Bytes, ec: Byte, m: nat) {
    m < |bytes| && bytes[m] == BACKTICK && ec != BACKTICK && RunEnd(bytes, m + 1, BACKTICK) == |bytes|
  }

  /** The walk from `p` ends at `L`: just after the first backtick of an opening run that
      reaches the end of the slice when the walk meets one, and at the end of the slice
      otherwise. */
  ghost predicate WalkEndsAt(bytes: Bytes, p: nat, escaping: bool, ec: Byte, L: nat) {
    p <= L <= |bytes|
    && (forall m: nat :: Reached(bytes, p, escaping, ec, m) && OpenAtEnd(bytes, ec, m) ==> L == m + 1)
    && (L < |bytes| ==> p < L && Reached(bytes, p, escaping, ec, L - 1) && OpenAtEnd(bytes, ec, L - 1))
  }

  /** The walk ends in one place. */
  lemma WalkEndsUnique(bytes: Bytes, p: nat, escaping: bool, ec: Byte, L: nat, L': nat)
    requires WalkEndsAt(bytes, p, escaping, ec, L) && WalkEndsAt(bytes, p, escaping, ec, L')
    ensures L == L'
  {
  }

  /** A closing search that does not close stops where the walk ends: it reports the end
      of the slice, or the position just after the opening backtick of a code span whose
      opening run reaches the end. */
  lemma {:induction false} ScanUnclosedEnd(bytes: Bytes, p: nat, escaping: bool, ec: Byte, n: nat)
    requires p <= |bytes| && n > 0 && ec != BACKSLASH
    ensures var r := ScanClosing(bytes, p, escaping, ec, n);
      !r.closed ==> WalkEndsAt(bytes, p, escaping, ec, r.last)
    decreases |bytes| - p
  {
    if p == |bytes| {
      forall m: nat | Reached(bytes, p, escaping, ec, m)
        ensures m == |bytes|
      {
      }
    } else if !escaping && Closes(bytes, p, ec, n) {
      assert ScanClosing(bytes, p, escaping, ec, n).closed;
    } else if !escaping && OpenAtEnd(bytes, ec, p) {
      OpenRunEndsWalk(bytes, p, ec, n);
    } else {
      var s := Skip(bytes, p, escaping, ec);
      ScanFollowsWalk(bytes, p, escaping, ec, n);
      ScanUnclosedEnd(bytes, s.0, s.1, ec, n);
      var r := ScanClosing(bytes, s.0, s.1, ec, n);
      if !r.closed {
        WalkEndsAfterSkip(bytes, p, escaping, ec, r.last);
      }
    }
  }

  /** `until_emph_closing` without a closing run: the mark is where the walk ends, or none
      when the walk ends where it started, and the cursor is at the end of the slice. */
  lemma UnclosedSearchEndsWithWalk(bytes: Bytes, start: nat, ec: Byte, n: nat, L: nat)
    requires start <= |bytes| && n > 0 && ec != BACKSLASH
    requires !ScanClosing(bytes, start, false, ec, n).closed && WalkEndsAt(bytes, start, false, ec, L)
    ensures UntilEmphClosing(bytes, start, ec, n) == Closing(if start < L then Some(L) else None, |bytes|)
  {
    ScanUnclosedEnd(bytes, start, false, ec, n);
    WalkEndsUnique(bytes, start, false, ec, L, ScanClosing(bytes, start, false, ec, n).last);
  }

  /** An opening backtick run that reaches the end stops the search just after its first
      backtick, and ends the walk there. */
  lemma OpenRunEndsWalk(bytes: Bytes, p: nat, ec: Byte, n: nat)
    requires n > 0 && ec != BACKSLASH && OpenAtEnd(bytes, ec, p)
    ensures ScanClosing(bytes, p, false, ec, n) == EmphStop(p + 1, |bytes|, false)
    ensures WalkEndsAt(bytes, p, false, ec, p + 1)
  {
    assert TickClose(bytes, |bytes|, |bytes| - p, 0).None?;
    assert Skip(bytes, p, false, ec) == (|bytes|, false);
  }

  /** Away from a closing candidate and an opening run that reaches the end, the closing
      search from a piece of the walk is the search from the next piece. */
  lemma ScanFollowsWalk(bytes: Bytes, p: nat, escaping: bool, ec: Byte, n: nat)
    requires p < |bytes| && n > 0 && ec != BACKSLASH
    requires !(!escaping && Closes(bytes, p, ec, n)) && !(!escaping && OpenAtEnd(bytes, ec, p))
    ensures var s := Skip(bytes, p, escaping, ec);
      ScanClosing(bytes, p, escaping, ec, n) == ScanClosing(bytes, s.0, s.1, ec, n)
  {
  }

  /** Where the walk from the next piece ends, the walk from `p` ends too. */
  lemma WalkEndsAfterSkip(bytes: Bytes, p: nat, escaping: bool, ec: Byte, L: nat)
    requires p < |bytes| && !(!escaping && OpenAtEnd(bytes, ec, p))
    requires var s := Skip(bytes, p, escaping, ec); WalkEndsAt(bytes, s.0, s.1, ec, L)
    ensures WalkEndsAt(bytes, p, escaping, ec, L)
  {
    var s := Skip(bytes, p, escaping, ec);
    forall m: nat | Reached(bytes, p, escaping, ec, m) && OpenAtEnd(bytes, ec, m)
      ensures L == m + 1
    {
      if m != p {
        assert Reached(bytes, s.0, s.1, ec, m);
      }
    }
    if L < |bytes| {
      assert Reached(bytes, s.0, s.1, ec, L - 1);
    }
  }

  /** The closing loop of a code span, started at `p` with the `tn` backticks before `p`
      counted and no run of `sn` backticks ending after `o + sn` and before `p`, stops at
      the first run of `sn` backticks that lies wholly at or after `o`, and fails only when
      there is none. */
  lemma {:induction false} TickCloseFindsFirst(bytes: Bytes, o: nat, p: nat, sn: nat, tn: nat)
    requires o + tn <= p <= |bytes| && tn <= sn
    requires forall i :: p - tn <= i < p ==> bytes[i] == BACKTICK
    requires o + tn < p ==> bytes[p - tn - 1] != BACKTICK
    requires forall k :: o + sn <= k < p ==> !TicksEndAt(bytes, o, k, sn)
    ensures var r := TickClose(bytes, p, sn, tn);
      r.Some? ==> TicksEndAt(bytes, o, r.value, sn)
    ensures var r := TickClose(bytes, p, sn, tn);
      r.Some? ==> forall k :: o + sn <= k < r.value ==> !TicksEndAt(bytes, o, k, sn)
    ensures var r := TickClose(bytes, p, sn, tn);
      r.None? ==> forall k :: o + sn <= k <= |bytes| ==> !TicksEndAt(bytes, o, k, sn)
    decreases |bytes| - p
  {
    if tn < sn {
      assert !TicksEndAt(bytes, o, p, sn) by {
        if o + sn <= p {
          assert bytes[p - tn - 1] != BACKTICK;
        }
      }
      if p < |bytes| {
        TickCloseFindsFirst(bytes, o, p + 1, sn, if bytes[p] == BACKTICK then tn + 1 else 0);
      }
    }
  }

  /** The code span passed over by the closing search, whose opening run of `sn` backticks
      ends at `e`, ends after the first later run of `sn` backticks, or has none. */
  lemma TickCloseStopsAtFirstRun(bytes: Bytes, e: nat, sn: nat)
    requires e <= |bytes|
    ensures var r := TickClose(bytes, e, sn, 0);
      r.Some? ==> TicksEndAt(bytes, e, r.value, sn) && forall k :: e + sn <= k < r.value ==> !TicksEndAt(bytes, e, k, sn)
    ensures var r := TickClose(bytes, e, sn, 0);
      r.None? ==> forall k :: e + sn <= k <= |bytes| ==> !TicksEndAt(bytes, e, k, sn)
  {
    TickCloseFindsFirst(bytes, e, e, sn, 0);
  }

  /** A span end the search of `parse_emphasis` from `start` accepts: a closing candidate
      the walk reaches, past `start`, whose byte before is not a space. */
  ghost predicate Acceptable(bytes: Bytes, start: nat, ec: Byte, n: nat, k: nat) {
    start < k && Reached(bytes, start, false, ec, k) && Closes(bytes, k, ec, n) && bytes[k - 1] != SPACE
  }

  /** A closing candidate at `k` the walk from `start` reaches is one the search turns down:
      it lies past `start` and follows a space. */
  ghost predicate TurnedDown(bytes: Bytes, start: nat, ec: Byte, n: nat, k: nat) {
    Reached(bytes, start, false, ec, k) && Closes(bytes, k, ec, n) ==> start < k && bytes[k - 1] == SPACE
  }

  /** Past a reached position `q`, the walks from `start` and from `q` reach the same. */
  lemma ReachedFrom(bytes: Bytes, start: nat, q: nat, ec: Byte, k: nat)
    requires Reached(bytes, start, false, ec, q) && q <= k
    ensures Reached(bytes, start, false, ec, k) <==> Reached(bytes, q, false, ec, k)
  {
    if Reached(bytes, start, false, ec, k) {
      ReachedSplit(bytes, start, false, ec, q, k);
    }
    if Reached(bytes, q, false, ec, k) {
      ReachedTrans(bytes, start, false, ec, q, k);
    }
  }

  /** After a turned-down end at `m`, the search resumes at `m + n`, which the walk
      reaches, and every candidate from `q` up to there was turned down. */
  lemma ResumeAfterSpace(bytes: Bytes, start: nat, q: nat, ec: Byte, n: nat)
    requires start <= q <= |bytes| && n > 0 && ec != BACKSLASH
    requires Reached(bytes, start, false, ec, q)
    requires var s := ScanClosing(bytes, q, false, ec, n); s.closed && s.last != q && bytes[s.last - 1] == SPACE
    ensures var s := ScanClosing(bytes, q, false, ec, n); Reached(bytes, start, false, ec, s.next)
    ensures var s := ScanClosing(bytes, q, false, ec, n);
      forall k :: q <= k < s.next ==> TurnedDown(bytes, start, ec, n, k)
    ensures var s := ScanClosing(bytes, q, false, ec, n); !Closes(bytes, s.next, ec, n)
  {
    var s := ScanClosing(bytes, q, false, ec, n);
    ScanStopsAtFirstClosing(bytes, q, false, ec, n);
    ReachedThroughRun(bytes, s.last, s.next, ec);
    ReachedTrans(bytes, q, false, ec, s.last, s.next);
    ReachedTrans(bytes, start, false, ec, q, s.next);
    TurnedDownThroughStop(bytes, start, q, ec, n);
  }

  /** Every candidate from `q` up to the end of the closing run, when the search from `q`
      closes after a space, is turned down. */
  lemma TurnedDownThroughStop(bytes: Bytes, start: nat, q: nat, ec: Byte, n: nat)
    requires start <= q <= |bytes| && n > 0 && ec != BACKSLASH
    requires Reached(bytes, start, false, ec, q)
    requires var s := ScanClosing(bytes, q, false, ec, n); s.closed && s.last != q && bytes[s.last - 1] == SPACE
    ensures var s := ScanClosing(bytes, q, false, ec, n);
      forall k :: q <= k < s.next ==> TurnedDown(bytes, start, ec, n, k)
  {
    var s := ScanClosing(bytes, q, false, ec, n);
    TurnedDownBeforeStop(bytes, start, q, ec, n);
    ScanStopsAtFirstClosing(bytes, q, false, ec, n);
    ClosingRunTurnedDown(bytes, start, s.last, ec, n);
  }

  /** A candidate after a space, and everything inside its run, is turned down. */
  lemma ClosingRunTurnedDown(bytes: Bytes, start: nat, m: nat, ec: Byte, n: nat)
    requires start < m && Closes(bytes, m, ec, n) && bytes[m - 1] == SPACE
    ensures forall k :: m <= k < m + n ==> TurnedDown(bytes, start, ec, n, k)
  {
    forall k | m < k < m + n
      ensures !Closes(bytes, k, ec, n)
    {
      NoClosingInsideRun(bytes, m, k, ec, n);
    }
  }

  /** The span search resumed at `q`, after every candidate before `q` was turned down,
      turns down only candidates after a space. */
  lemma {:induction false} FindSpanTurnsDown(bytes: Bytes, start: nat, q: nat, ec: Byte, n: nat)
    requires start <= q <= |bytes| && n > 0 && ec != BACKSLASH
    requires Reached(bytes, start, false, ec, q)
    requires forall k :: start <= k < q ==> TurnedDown(bytes, start, ec, n, k)
    ensures var r := FindSpan(bytes, start, q, ec, n);
      r.last.Some? ==> forall k :: start <= k < r.last.value ==> TurnedDown(bytes, start, ec, n, k)
    decreases |bytes| - q
  {
    var s := ScanClosing(bytes, q, false, ec, n);
    if s.last != q {
      if bytes[s.last - 1] != SPACE {
        TurnedDownBeforeAccepted(bytes, start, q, ec, n);
      } else if s.closed {
        TurnedDownPastSpace(bytes, start, q, ec, n);
        FindSpanTurnsDown(bytes, start, s.next, ec, n);
      } else {
        FindSpanStep(bytes, start, q, ec, n);
      }
    }
  }

  /** A round of the span search that accepts its candidate turned down everything before
      it. */
  lemma TurnedDownBeforeAccepted(bytes: Bytes, start: nat, q: nat, ec: Byte, n: nat)
    requires start <= q < |bytes| && n > 0 && ec != BACKSLASH
    requires Reached(bytes, start, false, ec, q)
    requires forall k :: start <= k < q ==> TurnedDown(bytes, start, ec, n, k)
    requires var s := ScanClosing(bytes, q, false, ec, n); s.last != q && bytes[s.last - 1] != SPACE
    ensures var r := FindSpan(bytes, start, q, ec, n);
      r.last.Some? && forall k :: start <= k < r.last.value ==> TurnedDown(bytes, start, ec, n, k)
  {
    FindSpanStep(bytes, start, q, ec, n);
    TurnedDownBeforeStop(bytes, start, q, ec, n);
  }

  /** A round of the span search that turns down a candidate after a space leaves the
      search where the walk reaches, with everything before turned down. */
  lemma TurnedDownPastSpace(bytes: Bytes, start: nat, q: nat, ec: Byte, n: nat)
    requires start <= q < |bytes| && n > 0 && ec != BACKSLASH
    requires Reached(bytes, start, false, ec, q)
    requires forall k :: start <= k < q ==> TurnedDown(bytes, start, ec, n, k)
    requires var s := ScanClosing(bytes, q, false, ec, n); s.closed && s.last != q && bytes[s.last - 1] == SPACE
    ensures var s := ScanClosing(bytes, q, false, ec, n);
      Reached(bytes, start, false, ec, s.next) && forall k :: start <= k < s.next ==> TurnedDown(bytes, start, ec, n, k)
    ensures var s := ScanClosing(bytes, q, false, ec, n);
      FindSpan(bytes, start, q, ec, n) == FindSpan(bytes, start, s.next, ec, n)
  {
    FindSpanStep(bytes, start, q, ec, n);
    ResumeAfterSpace(bytes, start, q, ec, n);
  }

  /** Every candidate from `q` up to where the closing search from `q` stops is turned
      down. */
  lemma TurnedDownBeforeStop(bytes: Bytes, start: nat, q: nat, ec: Byte, n: nat)
    requires start <= q <= |bytes| && n > 0 && ec != BACKSLASH
    requires Reached(bytes, start, false, ec, q)
    ensures var s := ScanClosing(bytes, q, false, ec, n);
      forall k :: q <= k < s.last ==> TurnedDown(bytes, start, ec, n, k)
  {
    var s := ScanClosing(bytes, q, false, ec, n);
    ScanStopsAtFirstClosing(bytes, q, false, ec, n);
    forall k | q <= k < s.last
      ensures TurnedDown(bytes, start, ec, n, k)
    {
      ReachedFrom(bytes, start, q, ec, k);
    }
  }

  /** An acceptable end at or after `q` means the search from `q` closes, past `q` and
      not after that end, at a candidate the walk from `start` reaches. */
  lemma LaterAcceptableCloses(bytes: Bytes, start: nat, q: nat, ec: Byte, n: nat, k: nat)
    requires start <= q <= k && n > 0 && ec != BACKSLASH
    requires Reached(bytes, start, false, ec, q)
    requires q == start || !Closes(bytes, q, ec, n)
    requires !Closes(bytes, start, ec, n)
    requires Acceptable(bytes, start, ec, n, k)
    ensures var s := ScanClosing(bytes, q, false, ec, n);
      s.closed && q < s.last <= k && Reached(bytes, start, false, ec, s.last) && Closes(bytes, s.last, ec, n)
  {
    var s := ScanClosing(bytes, q, false, ec, n);
    ScanStopsAtFirstClosing(bytes, q, false, ec, n);
    ReachedFrom(bytes, start, q, ec, k);
    ReachedFrom(bytes, start, q, ec, s.last);
  }

  /** A reached candidate past `start` not after a space ends the span search. */
  lemma FindSpanAcceptsHere(bytes: Bytes, start: nat, q: nat, ec: Byte, n: nat)
    requires start <= q < |bytes| && n > 0
    requires var s := ScanClosing(bytes, q, false, ec, n);
      s.closed && q < s.last && bytes[s.last - 1] != SPACE
      && Reached(bytes, start, false, ec, s.last) && Closes(bytes, s.last, ec, n)
    ensures var r := FindSpan(bytes, start, q, ec, n);
      r.last.Some? && Acceptable(bytes, start, ec, n, r.last.value) && r.next == r.last.value + n
  {
    FindSpanStep(bytes, start, q, ec, n);
  }

  /** A candidate after a space before an acceptable end: the search resumes past the
      candidate's run, still not past that end, at a reached position that is no
      candidate. */
  lemma AcceptableBeyondSpace(bytes: Bytes, start: nat, q: nat, ec: Byte, n: nat, k: nat)
    requires start <= q <= k && n > 0 && ec != BACKSLASH
    requires Reached(bytes, start, false, ec, q)
    requires Acceptable(bytes, start, ec, n, k)
    requires var s := ScanClosing(bytes, q, false, ec, n); s.closed && s.last != q && bytes[s.last - 1] == SPACE
    ensures var s := ScanClosing(bytes, q, false, ec, n);
      s.next <= k && Reached(bytes, start, false, ec, s.next) && !Closes(bytes, s.next, ec, n)
  {
    var s := ScanClosing(bytes, q, false, ec, n);
    ResumeAfterSpace(bytes, start, q, ec, n);
    assert s.next <= k || TurnedDown(bytes, start, ec, n, k);
  }

  /** The span search resumed at `q`, after every candidate before `q` was turned down and
      with no candidate at `q` past `start`, takes the first acceptable end when there is
      one. */
  lemma {:induction false} FindSpanTakesAcceptable(bytes: Bytes, start: nat, q: nat, ec: Byte, n: nat, k: nat)
    requires start <= q <= k && n > 0 && ec != BACKSLASH
    requires Reached(bytes, start, false, ec, q)
    requires q == start || !Closes(bytes, q, ec, n)
    requires !Closes(bytes, start, ec, n)
    requires Acceptable(bytes, start, ec, n, k)
    ensures var r := FindSpan(bytes, start, q, ec, n);
      r.last.Some? && Acceptable(bytes, start, ec, n, r.last.value) && r.next == r.last.value + n
    decreases |bytes| - q
  {
    var s := ScanClosing(bytes, q, false, ec, n);
    LaterAcceptableCloses(bytes, start, q, ec, n, k);
    if bytes[s.last - 1] == SPACE {
      FindSpanStep(bytes, start, q, ec, n);
      AcceptableBeyondSpace(bytes, start, q, ec, n, k);
      FindSpanTakesAcceptable(bytes, start, s.next, ec, n, k);
    } else {
      FindSpanAcceptsHere(bytes, start, q, ec, n);
    }
  }

  /** A closing candidate right at the start gives no span, and leaves the cursor after it. */
  lemma ClosingAtStartGivesNothing(bytes: Bytes, start: nat, ec: Byte, n: nat, inline: InlineParse)
    requires start <= |bytes| && 0 < n && (IsCode(ec) || n <= 2) && ec != BACKSLASH
    requires Closes(bytes, start, ec, n)
    ensures ParseEmphasis(bytes, start, ec, n, inline) == (None, start + n)
  {
    assert ScanClosing(bytes, start, false, ec, n) == EmphStop(start, start + n, true);
  }

  /** `parse_emphasis` ends the span at the first acceptable end: when an acceptable end
      exists and the start is not a closing candidate, the span runs up to the first
      acceptable end, every closing candidate the search passed before it was turned down,
      and the cursor is after its run. */
  lemma EmphasisEndsAtFirstAcceptable(bytes: Bytes, start: nat, ec: Byte, n: nat, inline: InlineParse, k: nat)
    requires start <= |bytes| && 0 < n && (IsCode(ec) || n <= 2) && ec != BACKSLASH
    requires !Closes(bytes, start, ec, n) && Acceptable(bytes, start, ec, n, k)
    ensures var r := ParseEmphasis(bytes, start, ec, n, inline);
      r.0.Some? && exists j: nat :: (Acceptable(bytes, start, ec, n, j) && j <= k
        && r == (Some(SpanOf(ec, n, bytes[start..j], inline)), j + n)
        && forall i :: start <= i < j ==> TurnedDown(bytes, start, ec, n, i))
  {
    var f := FindSpan(bytes, start, start, ec, n);
    FirstAcceptableFound(bytes, start, ec, n, k);
    var j := f.last.value;
    assert ParseEmphasis(bytes, start, ec, n, inline) == (Some(SpanOf(ec, n, bytes[start..j], inline)), j + n);
  }

  /** The span search from `start` accepts the first acceptable end. */
  lemma FirstAcceptableFound(bytes: Bytes, start: nat, ec: Byte, n: nat, k: nat)
    requires start <= |bytes| && 0 < n && ec != BACKSLASH
    requires !Closes(bytes, start, ec, n) && Acceptable(bytes, start, ec, n, k)
    ensures var f := FindSpan(bytes, start, start, ec, n);
      f.last.Some? && Acceptable(bytes, start, ec, n, f.last.value) && f.last.value <= k
      && f.next == f.last.value + n
      && forall i :: start <= i < f.last.value ==> TurnedDown(bytes, start, ec, n, i)
  {
    var f := FindSpan(bytes, start, start, ec, n);
    FindSpanTakesAcceptable(bytes, start, start, ec, n, k);
    FindSpanTurnsDown(bytes, start, start, ec, n);
    assert f.last.value <= k || TurnedDown(bytes, start, ec, n, k);
  }

  /** A closing candidate the walk from `start` reaches ends at `L`. */
  ghost predicate CandidateEndsAt(bytes: Bytes, start: nat, ec: Byte, n: nat, L: nat) {
    n <= L && Reached(bytes, start, false, ec, L - n) && Closes(bytes, L - n, ec, n)
  }

  /** After an opening backtick run that reaches the end, the walk reaches nothing but the
      end of the slice. */
  lemma NothingPastOpenRun(bytes: Bytes, q: nat, ec: Byte, a: nat, b: nat)
    requires Reached(bytes, q, false, ec, a) && OpenAtEnd(bytes, ec, a)
    requires Reached(bytes, q, false, ec, b) && b < |bytes|
    ensures b <= a
  {
    if a < b {
      ReachedSplit(bytes, q, false, ec, a, b);
    }
  }

  /** Past a candidate the walk reaches, the walk ends where it ended before it: the walk
      cannot end inside the candidate's run, nor before it. */
  lemma WalkEndPastCandidate(bytes: Bytes, q: nat, m: nat, ec: Byte, n: nat, L: nat)
    requires ec != BACKSLASH && WalkEndsAt(bytes, q, false, ec, L)
    requires Reached(bytes, q, false, ec, m) && Closes(bytes, m, ec, n)
    ensures WalkEndsAt(bytes, m + n, false, ec, L)
  {
    ReachedThroughRun(bytes, m, m + n, ec);
    ReachedTrans(bytes, q, false, ec, m, m + n);
    forall k: nat | Reached(bytes, m + n, false, ec, k) && OpenAtEnd(bytes, ec, k)
      ensures L == k + 1
    {
      ReachedTrans(bytes, q, false, ec, m + n, k);
    }
    if L < |bytes| {
      NothingPastOpenRun(bytes, q, ec, L - 1, m);
      ReachedSplit(bytes, q, false, ec, m + n, L - 1);
    }
  }

  /** What the span search from `q` gives when no end is acceptable and the walk ends at
      `L`: that end when the last round passed over something not ending in a space, and
      nothing otherwise; the cursor is at the end of the slice. */
  ghost function UnclosedSpan(bytes: Bytes, start: nat, q: nat, ec: Byte, n: nat, L: nat): Closing
    requires L <= |bytes|
  {
    if q < L && bytes[L - 1] != SPACE && !CandidateEndsAt(bytes, start, ec, n, L)
    then Closing(Some(L), |bytes|) else Closing(None, |bytes|)
  }

  /** The span search from `q`, when no end is acceptable: every closing candidate it meets
      follows a space, and the last round ends where the walk ends. */
  lemma {:induction false} FindSpanUnclosed(bytes: Bytes, start: nat, q: nat, ec: Byte, n: nat, L: nat)
    requires start <= q <= |bytes| && n > 0 && ec != BACKSLASH
    requires Reached(bytes, start, false, ec, q) && !Closes(bytes, q, ec, n)
    requires q == start || CandidateEndsAt(bytes, start, ec, n, q)
    requires forall k :: !Acceptable(bytes, start, ec, n, k)
    requires WalkEndsAt(bytes, q, false, ec, L)
    ensures FindSpan(bytes, start, q, ec, n) == UnclosedSpan(bytes, start, q, ec, n, L)
    decreases |bytes| - q
  {
    var s := ScanClosing(bytes, q, false, ec, n);
    if s.closed {
      ClosedRound(bytes, start, q, ec, n, L);
      FindSpanUnclosed(bytes, start, s.next, ec, n, L);
    } else {
      LastRoundUnclosed(bytes, start, q, ec, n, L);
    }
  }

  /** A candidate reached from `q` when no end is acceptable follows a space, and the walk
      from `start` reaches the end of its run. */
  lemma TurnedDownRound(bytes: Bytes, start: nat, q: nat, m: nat, ec: Byte, n: nat)
    requires start <= q && n > 0 && ec != BACKSLASH
    requires Reached(bytes, start, false, ec, q) && !Closes(bytes, q, ec, n)
    requires forall k :: !Acceptable(bytes, start, ec, n, k)
    requires Reached(bytes, q, false, ec, m) && Closes(bytes, m, ec, n)
    ensures q < m && bytes[m - 1] == SPACE
    ensures Reached(bytes, start, false, ec, m + n) && CandidateEndsAt(bytes, start, ec, n, m + n)
  {
    ReachedTrans(bytes, start, false, ec, q, m);
    assert !Acceptable(bytes, start, ec, n, m);
    ReachedThroughRun(bytes, m, m + n, ec);
    ReachedTrans(bytes, start, false, ec, m, m + n);
  }

  /** A round of the span search that closes, with no acceptable end: the search goes on
      past the candidate's run, from where the walk ends in the same place and the outcome
      is the same. */
  lemma ClosedRound(bytes: Bytes, start: nat, q: nat, ec: Byte, n: nat, L: nat)
    requires start <= q <= |bytes| && n > 0 && ec != BACKSLASH
    requires Reached(bytes, start, false, ec, q) && !Closes(bytes, q, ec, n)
    requires forall k :: !Acceptable(bytes, start, ec, n, k)
    requires WalkEndsAt(bytes, q, false, ec, L)
    requires ScanClosing(bytes, q, false, ec, n).closed
    ensures var s := ScanClosing(bytes, q, false, ec, n);
      q < s.next && Reached(bytes, start, false, ec, s.next) && !Closes(bytes, s.next, ec, n)
      && CandidateEndsAt(bytes, start, ec, n, s.next) && WalkEndsAt(bytes, s.next, false, ec, L)
      && FindSpan(bytes, start, q, ec, n) == FindSpan(bytes, start, s.next, ec, n)
      && UnclosedSpan(bytes, start, q, ec, n, L) == UnclosedSpan(bytes, start, s.next, ec, n, L)
  {
    var s := ScanClosing(bytes, q, false, ec, n);
    PastTurnedDown(bytes, start, q, ec, n, L);
    FindSpanPastSpace(bytes, start, q, s.last, ec, n);
    UnclosedSpanPastCandidate(bytes, start, q, s.next, ec, n, L);
  }

  /** A round of the span search that closes, with no acceptable end: the candidate follows
      a space, and the walk from `start` reaches the end of its run, from where the walk
      ends in the same place. */
  lemma PastTurnedDown(bytes: Bytes, start: nat, q: nat, ec: Byte, n: nat, L: nat)
    requires start <= q <= |bytes| && n > 0 && ec != BACKSLASH
    requires Reached(bytes, start, false, ec, q) && !Closes(bytes, q, ec, n)
    requires forall k :: !Acceptable(bytes, start, ec, n, k)
    requires WalkEndsAt(bytes, q, false, ec, L)
    requires ScanClosing(bytes, q, false, ec, n).closed
    ensures var s := ScanClosing(bytes, q, false, ec, n);
      q < s.last && bytes[s.last - 1] == SPACE
      && Reached(bytes, start, false, ec, s.next) && !Closes(bytes, s.next, ec, n)
      && CandidateEndsAt(bytes, start, ec, n, s.next) && WalkEndsAt(bytes, s.next, false, ec, L)
  {
    var s := ScanClosing(bytes, q, false, ec, n);
    ScanStopsAtFirstClosing(bytes, q, false, ec, n);
    TurnedDownRound(bytes, start, q, s.last, ec, n);
    WalkEndPastCandidate(bytes, q, s.last, ec, n, L);
  }

  /** The outcome is decided by where the walk ends, whichever round the search is in. */
  lemma UnclosedSpanPastCandidate(bytes: Bytes, start: nat, q: nat, q': nat, ec: Byte, n: nat, L: nat)
    requires q < q' <= L <= |bytes| && CandidateEndsAt(bytes, start, ec, n, q')
    ensures UnclosedSpan(bytes, start, q, ec, n, L) == UnclosedSpan(bytes, start, q', ec, n, L)
  {
  }

  /** The last round of the span search, which does not close: it ends where the walk
      ends, and no candidate the walk from `start` reaches ends there unless the round
      passed over nothing. */
  lemma LastRoundUnclosed(bytes: Bytes, start: nat, q: nat, ec: Byte, n: nat, L: nat)
    requires start <= q <= |bytes| && n > 0 && ec != BACKSLASH
    requires Reached(bytes, start, false, ec, q)
    requires q == start || CandidateEndsAt(bytes, start, ec, n, q)
    requires WalkEndsAt(bytes, q, false, ec, L)
    requires !ScanClosing(bytes, q, false, ec, n).closed
    ensures FindSpan(bytes, start, q, ec, n) == UnclosedSpan(bytes, start, q, ec, n, L)
  {
    var s := ScanClosing(bytes, q, false, ec, n);
    ScanUnclosedEnd(bytes, q, false, ec, n);
    WalkEndsUnique(bytes, q, false, ec, L, s.last);
    if q < L {
      NoCandidateEndsPastRound(bytes, start, q, ec, n, L);
      assert UntilEmphClosing(bytes, q, ec, n) == Closing(Some(L), |bytes|);
      if bytes[L - 1] == SPACE {
        assert UntilEmphClosing(bytes, |bytes|, ec, n) == Closing(None, |bytes|);
      }
    }
  }

  /** A round that does not close reaches no candidate, so no candidate reached from
      `start` ends where the round ends. */
  lemma NoCandidateEndsPastRound(bytes: Bytes, start: nat, q: nat, ec: Byte, n: nat, L: nat)
    requires start <= q < L <= |bytes| && n > 0 && ec != BACKSLASH
    requires Reached(bytes, start, false, ec, q)
    requires q == start || CandidateEndsAt(bytes, start, ec, n, q)
    requires !ScanClosing(bytes, q, false, ec, n).closed
    ensures !CandidateEndsAt(bytes, start, ec, n, L)
  {
    if CandidateEndsAt(bytes, start, ec, n, L) {
      ScanStopsAtFirstClosing(bytes, q, false, ec, n);
      if q <= L - n {
        ReachedSplit(bytes, start, false, ec, q, L - n);
        assert false;
      } else {
        assert false;
      }
    }
  }

  /** Without an acceptable end, `parse_emphasis` takes what the walk passed over up to its
      end as the span, when that is not empty, does not end in a space and is not the end
      of a closing run; otherwise it gives nothing. Either way the cursor is at the end of
      the slice. */
  lemma EmphasisWithoutAcceptableEnd(bytes: Bytes, start: nat, ec: Byte, n: nat, inline: InlineParse, L: nat)
    requires start <= |bytes| && 0 < n && (IsCode(ec) || n <= 2) && ec != BACKSLASH
    requires !Closes(bytes, start, ec, n) && forall k :: !Acceptable(bytes, start, ec, n, k)
    requires WalkEndsAt(bytes, start, false, ec, L)
    ensures ParseEmphasis(bytes, start, ec, n, inline)
      == if start < L && bytes[L - 1] != SPACE && !CandidateEndsAt(bytes, start, ec, n, L)
         then (Some(SpanOf(ec, n, bytes[start..L], inline)), |bytes|) else (None, |bytes|)
  {
    FindSpanUnclosed(bytes, start, start, ec, n, L);
  }

  /** Inert bytes to the end of the slice: the search passes over all of them. */
  lemma {:induction false} InertRestUnclosed(bytes: Bytes, p: nat, ec: Byte, n: nat)
    requires p <= |bytes| && n > 0
    requires forall i :: p <= i < |bytes| ==> Inert(bytes[i], ec)
    ensures ScanClosing(bytes, p, false, ec, n) == EmphStop(|bytes|, |bytes|, false)
    decreases |bytes| - p
  {
    if p < |bytes| {
      InertRestUnclosed(bytes, p + 1, ec, n);
    }
  }

  /** An unclosed delimiter before inert text not ending in a space makes the rest of the
      slice the span. */
  lemma InertRestIsSpan(bytes: Bytes, start: nat, ec: Byte, n: nat, inline: InlineParse)
    requires start < |bytes| && 0 < n && (IsCode(ec) || n <= 2)
    requires forall i :: start <= i < |bytes| ==> Inert(bytes[i], ec)
    requires bytes[|bytes| - 1] != SPACE
    ensures ParseEmphasis(bytes, start, ec, n, inline) == (Some(SpanOf(ec, n, bytes[start..], inline)), |bytes|)
  {
    InertRestUnclosed(bytes, start, ec, n);
    assert bytes[start..|bytes|] == bytes[start..];
  }
}
