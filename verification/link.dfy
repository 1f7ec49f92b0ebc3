/** src/parser/inline/link.rs: the search for the `]` that closes a link label, in the
    slice-based parser. What `parse_link` does after the label is unfinished in the
    repository and not part of this model. */
module LinkParser {
  import opened Core
  import opened Util
  import opened Tokens

  /** The state of the bracket search: the nesting depth and whether the previous byte was
      a backslash. */
  datatype LabelState = LabelState(depth: int, escaping: bool)

  /** The state at the start of a label, just after its opening `[`. */
  const START: LabelState := LabelState(1, false)

  /** One step of the bracket search: a backslash always starts an escape, the byte after
      one is skipped, `[` nests one level deeper and `]` one level shallower; any other
      byte changes nothing. */
  function StepLabel(s: LabelState, b: Byte): (t: LabelState)
    ensures b == BACKSLASH ==> t == LabelState(s.depth, true)
    ensures b != BACKSLASH && s.escaping ==> t == LabelState(s.depth, false)
    ensures b != BACKSLASH && !s.escaping ==>
      t.depth == s.depth + (if b == LBRACKET then 1 else if b == RBRACKET then -1 else 0) && !t.escaping
  {
    if b == BACKSLASH then LabelState(s.depth, true)
    else if s.escaping then LabelState(s.depth, false)
    else if b == LBRACKET then LabelState(s.depth + 1, false)
    else if b == RBRACKET then LabelState(s.depth - 1, false)
    else s
  }

  /** The search state after the bytes `bytes[lo..hi]`, folded from the left. */
  function Fold(bytes: Bytes, lo: nat, hi: nat): (s: LabelState)
    requires lo <= hi <= |bytes|
    decreases hi - lo
  {
    if hi == lo then START else StepLabel(Fold(bytes, lo, hi - 1), bytes[hi - 1])
  }

  /** The loop of `parse_link` from `p` in state `s`: stop just after the `]` that brings
      the depth to zero; the end of the slice first gives nothing. */
  function ScanLabel(bytes: Bytes, p: nat, s: LabelState): (r: Option<nat>)
    requires p <= |bytes|
    ensures r.Some? ==> p < r.value <= |bytes| && bytes[r.value - 1] == RBRACKET
    decreases |bytes| - p
  {
    if p == |bytes| then None
    else
      var b := bytes[p];
      var t := StepLabel(s, b);
      if b == RBRACKET && !s.escaping && t.depth <= 0 then Some(p + 1)
      else ScanLabel(bytes, p + 1, t)
  }

  /** The label of `parse_link` starting at `start`: the bytes up to and including the
      closing `]`, and the position after it. */
  function ParseLinkLabel(bytes: Bytes, start: nat): (r: Option<(Bytes, nat)>)
    requires start <= |bytes|
    ensures r.Some? ==> start < r.value.1 <= |bytes| && r.value.0 == bytes[start..r.value.1]
    ensures r.Some? ==> r.value.0[|r.value.0| - 1] == RBRACKET
  {
    match ScanLabel(bytes, start, START)
    case None => None
    case Some(q) => Some((bytes[start..q], q))
  }

  /** The label ends where the depth, counted from the start, first reaches zero: every
      shorter prefix is still open. With no such place there is no label. */
  lemma {:induction false} ScanFindsFirstClose(bytes: Bytes, start: nat, p: nat)
    requires start <= p <= |bytes|
    requires forall k :: start <= k <= p ==> Fold(bytes, start, k).depth >= 1
    ensures var r := ScanLabel(bytes, p, Fold(bytes, start, p));
      (r.Some? ==> Fold(bytes, start, r.value).depth == 0)
      && (r.Some? ==> forall k :: start <= k < r.value ==> Fold(bytes, start, k).depth >= 1)
      && (r.None? <==> forall k :: start <= k <= |bytes| ==> Fold(bytes, start, k).depth >= 1)
    decreases |bytes| - p
  {
    if p < |bytes| {
      var s := Fold(bytes, start, p);
      var t := StepLabel(s, bytes[p]);
      assert Fold(bytes, start, p + 1) == t;
      if bytes[p] == RBRACKET && !s.escaping && t.depth <= 0 {
        assert t.depth == 0;
      } else {
        assert t.depth >= 1;
        ScanFindsFirstClose(bytes, start, p + 1);
      }
    }
  }

  /** `ParseLinkLabel` returns the shortest label whose brackets balance. */
  lemma LabelIsShortestBalanced(bytes: Bytes, start: nat)
    requires start <= |bytes|
    ensures var r := ParseLinkLabel(bytes, start);
      (r.Some? ==> Fold(bytes, start, r.value.1).depth == 0)
      && (r.Some? ==> forall k :: start <= k < r.value.1 ==> Fold(bytes, start, k).depth >= 1)
      && (r.None? <==> forall k :: start <= k <= |bytes| ==> Fold(bytes, start, k).depth >= 1)
  {
    ScanFindsFirstClose(bytes, start, start);
  }

  /** Nested brackets stay in the label: after `[`, the input `a[b]c]` is one label. */
  lemma NestedBracketsKept()
    ensures ParseLinkLabel([97, LBRACKET, 98, RBRACKET, 99, RBRACKET], 0)
      == Some(([97, LBRACKET, 98, RBRACKET, 99, RBRACKET], 6))
  {
    var b: Bytes := [97, LBRACKET, 98, RBRACKET, 99, RBRACKET];
    assert ScanLabel(b, 5, LabelState(1, false)) == Some(6);
    assert ScanLabel(b, 4, LabelState(1, false)) == Some(6);
    assert ScanLabel(b, 3, LabelState(2, false)) == Some(6);
    assert ScanLabel(b, 2, LabelState(2, false)) == Some(6);
    assert ScanLabel(b, 1, LabelState(1, false)) == Some(6);
    assert ScanLabel(b, 0, START) == Some(6);
    assert b[0..6] == b;
  }

  /** An escaped `]` does not close: after `[`, the input `\]]` is one label. */
  lemma EscapedBracketKept()
    ensures ParseLinkLabel([BACKSLASH, RBRACKET, RBRACKET], 0) == Some(([BACKSLASH, RBRACKET, RBRACKET], 3))
  {
    var b: Bytes := [BACKSLASH, RBRACKET, RBRACKET];
    assert ScanLabel(b, 2, LabelState(1, false)) == Some(3);
    assert ScanLabel(b, 1, LabelState(1, true)) == Some(3);
    assert ScanLabel(b, 0, START) == Some(3);
    assert b[0..3] == b;
  }

  /** An escaped backslash escapes again: after `[`, in `\\]` the `]` is still escaped and
      the label stays open. */
  lemma DoubleBackslashStillEscapes()
    ensures ParseLinkLabel([BACKSLASH, BACKSLASH, RBRACKET], 0) == None
  {
    var b: Bytes := [BACKSLASH, BACKSLASH, RBRACKET];
    assert ScanLabel(b, 3, LabelState(1, false)) == None;
    assert ScanLabel(b, 2, LabelState(1, true)) == None;
    assert ScanLabel(b, 1, LabelState(1, true)) == None;
    assert ScanLabel(b, 0, START) == None;
  }
}
