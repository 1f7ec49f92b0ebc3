/** The closing searches of the two snapshots side by side: `find_emph_closing` of
    src/parser/inline/mod.rs and `until_emph_closing` of src/parser/inline/emphasis.rs stop at
    the same closing run whenever the first does not fail, so what is proved about the walk of
    the second holds for the first as well. */
module ClosingAgreement {
  import opened Core
  import opened Util
  import opened Io
  import opened Scan
  import opened Tokens
  import I = InlineParser
  import E = EmphasisParser

  /** The `tn` loops of the two snapshots stop at the same place, and fail together. */
  lemma {:induction false} CloseTicksAgrees(src: Source, p: nat, sn: nat, tn: nat)
    requires p <= |src.bytes| && tn <= sn && tn <= p
    requires forall i :: p - tn <= i < p ==> src.bytes[i] == BACKTICK
    ensures var c := I.CloseTicks(src, p, sn, tn); var t := E.TickClose(src.bytes, p, sn, tn);
      (c.failed <==> t.None?) && (!c.failed ==> c.next == t.value)
    decreases |src.bytes| - p
  {
    if tn != sn && p < |src.bytes| {
      CloseTicksAgrees(src, p + 1, sn, if src.bytes[p] == BACKTICK then tn + 1 else 0);
    }
  }

  /** A code span copied through by `find_emph_closing`, whose opening run of `sn`
      backticks ends at `e`, ends after the first later run of as many backticks; the copy
      fails exactly when the opening run reaches the end of the source or no such run
      follows. */
  lemma TickSpanEndsAtFirstRun(src: Source, p: nat, e: nat, sn: nat)
    requires p < |src.bytes| && src.bytes[p] == BACKTICK
    requires e == RunEnd(src.bytes, p + 1, BACKTICK) && sn == e - p
    ensures var t := I.TickSpan(src, p);
      !t.failed ==> TicksEndAt(src.bytes, e, t.next, sn)
    ensures var t := I.TickSpan(src, p);
      !t.failed ==> forall k :: e + sn <= k < t.next ==> !TicksEndAt(src.bytes, e, k, sn)
    ensures var t := I.TickSpan(src, p);
      t.failed <==> e == |src.bytes| || forall k :: e + sn <= k <= |src.bytes| ==> !TicksEndAt(src.bytes, e, k, sn)
  {
    if e < |src.bytes| {
      CloseTicksAgrees(src, e, sn, 0);
      E.TickCloseStopsAtFirstRun(src.bytes, e, sn);
    }
  }

  /** The outcome `r` of `find_emph_closing` and the stop `s` of `until_emph_closing` over a
      source of `len` bytes agree: `r` fails exactly when `s` is not a closing run that ends
      before the end, and otherwise ends where `s` does. */
  predicate Agree(r: I.EmphScan, s: E.EmphStop, len: nat) {
    (r.failed <==> !(s.closed && s.next < len)) && (!r.failed ==> r.next == s.next)
  }

  /** A backslash, an escaped byte or a byte that is neither `ec` nor a backtick: both
      searches pass over it alone. */
  lemma PassOneStep(src: Source, p: nat, ec: Byte, n: nat, escaping: bool)
    requires p < |src.bytes| && n > 0
    requires src.bytes[p] == BACKSLASH || escaping || (src.bytes[p] != ec && src.bytes[p] != BACKTICK)
    ensures var esc := src.bytes[p] == BACKSLASH;
      var r := I.ScanEmph(src, p, ec, n, escaping); var r' := I.ScanEmph(src, p + 1, ec, n, esc);
      r.next == r'.next && r.failed == r'.failed
      && E.ScanClosing(src.bytes, p, escaping, ec, n) == E.ScanClosing(src.bytes, p + 1, esc, ec, n)
  {
  }

  /** So the searches agree from such a byte when they agree after it. */
  lemma PassOneAgrees(src: Source, p: nat, ec: Byte, n: nat, escaping: bool)
    requires p < |src.bytes| && n > 0
    requires src.bytes[p] == BACKSLASH || escaping || (src.bytes[p] != ec && src.bytes[p] != BACKTICK)
    requires Agree(I.ScanEmph(src, p + 1, ec, n, src.bytes[p] == BACKSLASH), E.ScanClosing(src.bytes, p + 1, src.bytes[p] == BACKSLASH, ec, n), |src.bytes|)
    ensures Agree(I.ScanEmph(src, p, ec, n, escaping), E.ScanClosing(src.bytes, p, escaping, ec, n), |src.bytes|)
  {
    PassOneStep(src, p, ec, n, escaping);
  }

  /** A run of exactly `n` bytes `ec`: both searches stop there, and `find_emph_closing`
      fails exactly when the run reaches the end of the source. */
  lemma CloseArmAgrees(src: Source, p: nat, ec: Byte, n: nat)
    requires p < |src.bytes| && src.bytes[p] == ec && ec != BACKSLASH && n > 0
    requires RunEnd(src.bytes, p + 1, ec) - p == n
    ensures var e := RunEnd(src.bytes, p + 1, ec); var r := I.ScanEmph(src, p, ec, n, false);
      (r.failed <==> e == |src.bytes|) && (!r.failed ==> r.next == e)
      && E.ScanClosing(src.bytes, p, false, ec, n) == E.EmphStop(p, e, true)
    ensures Agree(I.ScanEmph(src, p, ec, n, false), E.ScanClosing(src.bytes, p, false, ec, n), |src.bytes|)
  {
  }

  /** A run of `ec` of another length: both searches go on after its first byte, and when
      the run reaches the end, `find_emph_closing` has failed and `until_emph_closing` can
      only close at the end. */
  lemma WrongRunStep(src: Source, p: nat, ec: Byte, n: nat)
    requires p < |src.bytes| && src.bytes[p] == ec && ec != BACKSLASH && n > 0
    requires RunEnd(src.bytes, p + 1, ec) - p != n
    ensures var r := I.ScanEmph(src, p, ec, n, false); var r' := I.ScanEmph(src, p + 1, ec, n, false);
      r.next == r'.next && r.failed == (r'.failed || RunEnd(src.bytes, p + 1, ec) == |src.bytes|)
    ensures E.ScanClosing(src.bytes, p, false, ec, n) == E.ScanClosing(src.bytes, p + 1, false, ec, n)
    ensures var s := E.ScanClosing(src.bytes, p + 1, false, ec, n);
      RunEnd(src.bytes, p + 1, ec) == |src.bytes| && s.closed ==> s.next == |src.bytes|
  {
  }

  /** So the searches agree from such a run when they agree after its first byte. */
  lemma WrongRunAgrees(src: Source, p: nat, ec: Byte, n: nat)
    requires p < |src.bytes| && src.bytes[p] == ec && ec != BACKSLASH && n > 0
    requires RunEnd(src.bytes, p + 1, ec) - p != n
    requires Agree(I.ScanEmph(src, p + 1, ec, n, false), E.ScanClosing(src.bytes, p + 1, false, ec, n), |src.bytes|)
    ensures Agree(I.ScanEmph(src, p, ec, n, false), E.ScanClosing(src.bytes, p, false, ec, n), |src.bytes|)
  {
    WrongRunStep(src, p, ec, n);
  }

  /** The backtick arm, when `ec` is not the backtick, with the opening run reaching the
      end or no closing run: `find_emph_closing` fails where `until_emph_closing` stops
      unclosed. */
  lemma TickFailStep(src: Source, p: nat, ec: Byte, n: nat, e: nat)
    requires p < |src.bytes| && src.bytes[p] == BACKTICK && ec != BACKTICK && n > 0
    requires e == RunEnd(src.bytes, p + 1, BACKTICK)
    requires e == |src.bytes| || I.CloseTicks(src, e, e - p, 0).failed
    ensures I.ScanEmph(src, p, ec, n, false).failed && !E.ScanClosing(src.bytes, p, false, ec, n).closed
  {
    if e < |src.bytes| {
      CloseTicksAgrees(src, e, e - p, 0);
    }
    ClosingTickFail(src.bytes, p, ec, n, e);
    InlineTickFail(src, p, ec, n, e);
  }

  /** The backtick arm of `until_emph_closing` without a closing run stops unclosed. */
  lemma ClosingTickFail(bytes: Bytes, p: nat, ec: Byte, n: nat, e: nat)
    requires p < |bytes| && bytes[p] == BACKTICK && ec != BACKTICK && n > 0
    requires e == RunEnd(bytes, p + 1, BACKTICK)
    requires E.TickClose(bytes, e, e - p, 0).None?
    ensures !E.ScanClosing(bytes, p, false, ec, n).closed
  {
  }

  /** The backtick arm of `find_emph_closing` fails when the opening run reaches the end
      or no closing run follows. */
  lemma InlineTickFail(src: Source, p: nat, ec: Byte, n: nat, e: nat)
    requires p < |src.bytes| && src.bytes[p] == BACKTICK && ec != BACKTICK && n > 0
    requires e == RunEnd(src.bytes, p + 1, BACKTICK)
    requires e == |src.bytes| || I.CloseTicks(src, e, e - p, 0).failed
    ensures I.ScanEmph(src, p, ec, n, false).failed
  {
    var at := if e == |src.bytes| then e - 1 else e;
    assert I.TickSpan(src, p) == I.Span(src.bytes[p..e] + I.CloseTicks(src, at, e - p, 0).content, I.CloseTicks(src, at, e - p, 0).next, I.CloseTicks(src, at, e - p, 0).failed, true);
  }

  /** The backtick arm of `find_emph_closing` with a closing run ending at `q`: the scan
      goes on at `q`. */
  lemma InlineTickStep(src: Source, p: nat, ec: Byte, n: nat, e: nat, q: nat)
    requires p < |src.bytes| && src.bytes[p] == BACKTICK && ec != BACKTICK && n > 0
    requires e == RunEnd(src.bytes, p + 1, BACKTICK)
    requires e < |src.bytes| && !I.CloseTicks(src, e, e - p, 0).failed && q == I.CloseTicks(src, e, e - p, 0).next
    ensures var r := I.ScanEmph(src, p, ec, n, false); var r' := I.ScanEmph(src, q, ec, n, false);
      p < q && r.failed == r'.failed && r.next == r'.next
  {
    var t := I.TickSpan(src, p);
    assert !t.stop && !t.failed && t.next == q;
  }

  /** The backtick arm of `until_emph_closing` with a closing run ending at `q`: the search
      goes on at `q`. */
  lemma ClosingTickStep(bytes: Bytes, p: nat, ec: Byte, n: nat, e: nat, q: nat)
    requires p < |bytes| && bytes[p] == BACKTICK && ec != BACKTICK && n > 0
    requires e == RunEnd(bytes, p + 1, BACKTICK)
    requires E.TickClose(bytes, e, e - p, 0).Some? && E.TickClose(bytes, e, e - p, 0).value == q
    ensures E.ScanClosing(bytes, p, false, ec, n) == E.ScanClosing(bytes, q, false, ec, n)
  {
  }

  /** So the searches agree from a code span that has its closing run when they agree
      after it. */
  lemma TickSpanAgrees(src: Source, p: nat, ec: Byte, n: nat, e: nat, q: nat)
    requires p < |src.bytes| && src.bytes[p] == BACKTICK && ec != BACKTICK && n > 0
    requires e == RunEnd(src.bytes, p + 1, BACKTICK)
    requires e < |src.bytes| && !I.CloseTicks(src, e, e - p, 0).failed && q == I.CloseTicks(src, e, e - p, 0).next
    requires Agree(I.ScanEmph(src, q, ec, n, false), E.ScanClosing(src.bytes, q, false, ec, n), |src.bytes|)
    ensures Agree(I.ScanEmph(src, p, ec, n, false), E.ScanClosing(src.bytes, p, false, ec, n), |src.bytes|)
  {
    CloseTicksAgrees(src, e, e - p, 0);
    ClosingTickStep(src.bytes, p, ec, n, e, q);
    InlineTickStep(src, p, ec, n, e, q);
  }

  /** And they agree at a code span whose opening run reaches the end or which has no
      closing run. */
  lemma TickFailAgrees(src: Source, p: nat, ec: Byte, n: nat, e: nat)
    requires p < |src.bytes| && src.bytes[p] == BACKTICK && ec != BACKTICK && n > 0
    requires e == RunEnd(src.bytes, p + 1, BACKTICK)
    requires e == |src.bytes| || I.CloseTicks(src, e, e - p, 0).failed
    ensures Agree(I.ScanEmph(src, p, ec, n, false), E.ScanClosing(src.bytes, p, false, ec, n), |src.bytes|)
  {
    TickFailStep(src, p, ec, n, e);
  }

  /** The outer loop of `find_emph_closing` fails exactly when `until_emph_closing` does not
      stop at a closing run that ends before the end of the source, and otherwise stops where
      it does. */
  lemma {:induction false} ScanEmphAgrees(src: Source, p: nat, ec: Byte, n: nat, escaping: bool)
    requires p <= |src.bytes| && n > 0
    ensures Agree(I.ScanEmph(src, p, ec, n, escaping), E.ScanClosing(src.bytes, p, escaping, ec, n), |src.bytes|)
    decreases |src.bytes| - p
  {
    if p < |src.bytes| {
      var c := src.bytes[p];
      if c == BACKSLASH || escaping || (c != ec && c != BACKTICK) {
        ScanEmphAgrees(src, p + 1, ec, n, c == BACKSLASH);
        PassOneAgrees(src, p, ec, n, escaping);
      } else if c == ec {
        if RunEnd(src.bytes, p + 1, ec) - p != n {
          ScanEmphAgrees(src, p + 1, ec, n, false);
          WrongRunAgrees(src, p, ec, n);
        } else {
          CloseArmAgrees(src, p, ec, n);
        }
      } else {
        var e := RunEnd(src.bytes, p + 1, BACKTICK);
        if e < |src.bytes| && !I.CloseTicks(src, e, e - p, 0).failed {
          var q := I.CloseTicks(src, e, e - p, 0).next;
          ScanEmphAgrees(src, q, ec, n, false);
          TickSpanAgrees(src, p, ec, n, e, q);
        } else {
          TickFailAgrees(src, p, ec, n, e);
        }
      }
    }
  }

  /** `find_emph_closing` succeeds at the first closing candidate the walk from `p` reaches,
      and gives a partial success only when no candidate is reached that ends before the end
      of the source. */
  lemma FindEmphClosingIsFirst(src: Source, p: nat, ec: Byte, n: nat)
    requires p <= |src.bytes| && n > 0 && ec != BACKSLASH
    ensures var f := I.FindEmphClosing(src, p, ec, n);
      f.result.Success? ==> n <= f.next && E.Reached(src.bytes, p, false, ec, f.next - n) && E.Closes(src.bytes, f.next - n, ec, n)
    ensures var f := I.FindEmphClosing(src, p, ec, n);
      f.result.Success? ==> forall k: nat :: p <= k < f.next - n && E.Reached(src.bytes, p, false, ec, k) ==> !E.Closes(src.bytes, k, ec, n)
    ensures var f := I.FindEmphClosing(src, p, ec, n);
      f.result.PartialSuccess? ==> forall k: nat :: E.Reached(src.bytes, p, false, ec, k) && E.Closes(src.bytes, k, ec, n) ==> k + n == |src.bytes|
  {
    FindEmphClosingFollowsStop(src, p, ec, n);
    E.ScanStopsAtFirstClosing(src.bytes, p, false, ec, n);
    var s := E.ScanClosing(src.bytes, p, false, ec, n);
    if s.closed {
      ClosingRunHoldsNoOther(src.bytes, s.last, ec, n);
    }
  }

  /** `find_emph_closing` in terms of the stop of `until_emph_closing`: success ends at a
      closing stop before the end of the source, partial success means there is none. */
  lemma FindEmphClosingFollowsStop(src: Source, p: nat, ec: Byte, n: nat)
    requires p <= |src.bytes| && n > 0
    ensures var f := I.FindEmphClosing(src, p, ec, n); var s := E.ScanClosing(src.bytes, p, false, ec, n);
      (f.result.Success? ==> s.closed && f.next == s.next && s.next < |src.bytes|)
      && (f.result.PartialSuccess? ==> !(s.closed && s.next < |src.bytes|))
  {
    ScanEmphAgrees(src, p, ec, n, false);
  }

  /** No closing candidate starts inside the run of one at `m`. */
  lemma ClosingRunHoldsNoOther(bytes: Bytes, m: nat, ec: Byte, n: nat)
    requires E.Closes(bytes, m, ec, n)
    ensures forall k :: m < k < m + n ==> !E.Closes(bytes, k, ec, n)
  {
    forall k | m < k < m + n
      ensures !E.Closes(bytes, k, ec, n)
    {
      E.NoClosingInsideRun(bytes, m, k, ec, n);
    }
  }

  /** `find_emph_closing` from `q` succeeds with the bytes up to `m` when `m` is the first
      closing candidate the walk reaches and its run ends before the end of the source. */
  lemma FirstClosingFound(src: Source, q: nat, ec: Byte, n: nat, m: nat)
    requires q <= m && m + n < |src.bytes| && n > 0 && ec != BACKSLASH
    requires E.Reached(src.bytes, q, false, ec, m) && E.Closes(src.bytes, m, ec, n)
    requires forall k: nat :: q <= k < m && E.Reached(src.bytes, q, false, ec, k) ==> !E.Closes(src.bytes, k, ec, n)
    ensures I.FindEmphClosing(src, q, ec, n) == Step(Success(src.bytes[q..m]), m + n)
  {
    E.FirstCandidateStops(src.bytes, q, ec, n, m);
    ClosedStopFound(src, q, ec, n, m);
  }

  /** When `until_emph_closing` closes at `m` before the end of the source, so does
      `find_emph_closing`. */
  lemma ClosedStopFound(src: Source, q: nat, ec: Byte, n: nat, m: nat)
    requires q <= m && m + n < |src.bytes| && n > 0
    requires E.ScanClosing(src.bytes, q, false, ec, n) == E.EmphStop(m, m + n, true)
    ensures I.FindEmphClosing(src, q, ec, n) == Step(Success(src.bytes[q..m]), m + n)
  {
    ScanEmphAgrees(src, q, ec, n, false);
  }

  /** The delimiter arm with any content: when the walk from the start of the span reaches
      a closing candidate that ends before the end of the source, and none before it, the
      span is exactly the bytes up to that candidate, and the scan goes on after its run. */
  lemma DelimiterTakesFirstClosing(src: Source, p: nat, c: Byte, n: nat, m: nat, tokens: Text, space: bool)
    requires p < |src.bytes| && (IsEmphasis(c) || IsCode(c))
    requires !(space && src.bytes[p] == SPACE)
    requires n == (if src.bytes[p] == c then 2 else 1)
    requires p + n - 1 <= m && m + n < |src.bytes|
    requires E.Reached(src.bytes, p + n - 1, false, c, m) && E.Closes(src.bytes, m, c, n)
    requires forall k: nat :: p + n - 1 <= k < m && E.Reached(src.bytes, p + n - 1, false, c, k) ==> !E.Closes(src.bytes, k, c, n)
    ensures I.Delimiter(src, p, c, tokens, space)
      == I.InlineLoop(src, m + n, tokens + [I.SpanToken(c, n, src.bytes[p + n - 1..m])], [], false, false)
  {
    FirstClosingFound(src, p + n - 1, c, n, m);
    I.DelimiterGivenClosing(src, p, c, n, p + n - 1, m, tokens, space);
  }
}
