/** Byte utilities of src/util.rs: character classes, byte matchers and slice trimming. */
module Util {
  import opened Core

  /** A byte of the input; no bit operations are needed, so an integer range. */
  newtype Byte = b: int | 0 <= b < 256
  type Bytes = seq<Byte>

  const SPACE: Byte := 32  // ' '
  const NL: Byte := 10  // line feed
  const STAR: Byte := 42  // '*'
  const UNDERSCORE: Byte := 95  // '_'
  const BACKTICK: Byte := 96  // '`'
  const BACKSLASH: Byte := 92  // '\\'
  const GT: Byte := 62  // '>'
  const HASH: Byte := 35  // '#'
  const DASH: Byte := 45  // '-'
  const EQUALS: Byte := 61  // '='
  const LBRACKET: Byte := 91  // '['
  const RBRACKET: Byte := 93  // ']'

  /** `CharOps::is_emphasis`: the two emphasis delimiters. */
  predicate IsEmphasis(b: Byte) {
    b == STAR || b == UNDERSCORE
  }

  /** `CharOps::is_code`: the code-span delimiter. */
  predicate IsCode(b: Byte) {
    b == BACKTICK
  }

  /** `CharOps::is_space`: space and line feed. */
  predicate IsSpace(b: Byte) {
    b == SPACE || b == NL
  }

  /** Adjacent slices of a sequence join into one. */
  lemma SliceJoin<T>(s: seq<T>, a: nat, b: nat, c: nat)
    requires a <= b <= c <= |s|
    ensures s[a..b] + s[b..c] == s[a..c]
  {
  }

  /** The first position at or after `p` that does not hold `c`. */
  function RunEnd(bytes: Bytes, p: nat, c: Byte): (e: nat)
    requires p <= |bytes|
    ensures p <= e <= |bytes|
    ensures forall i :: p <= i < e ==> bytes[i] == c
    ensures e < |bytes| ==> bytes[e] != c
    decreases |bytes| - p
  {
    if p == |bytes| || bytes[p] != c then p else RunEnd(bytes, p + 1, c)
  }

  /** `RunEnd` is the only position that ends the run. */
  lemma RunEndUnique(bytes: Bytes, p: nat, c: Byte, g: nat)
    requires p <= g <= |bytes|
    requires forall i :: p <= i < g ==> bytes[i] == c
    requires g < |bytes| ==> bytes[g] != c
    ensures RunEnd(bytes, p, c) == g
  {
  }

  /** `bytes[p..q]` is a blank line: spaces, then a line feed. */
  ghost predicate IsBlankLine(bytes: Bytes, p: nat, q: nat) {
    p < q <= |bytes| && bytes[q - 1] == NL && forall i :: p <= i < q - 1 ==> bytes[i] == SPACE
  }

  /** `bytes[p..q]` is a line: bytes without a line feed, then a line feed. */
  ghost predicate IsLine(bytes: Bytes, p: nat, q: nat) {
    p < q <= |bytes| && bytes[q - 1] == NL && forall i :: p <= i < q - 1 ==> bytes[i] != NL
  }

  /** `sn` backticks end just before `k`, all of them at or after `o`. */
  predicate TicksEndAt(bytes: Bytes, o: nat, k: nat, sn: nat) {
    o + sn <= k <= |bytes| && forall i :: k - sn <= i < k ==> bytes[i] == BACKTICK
  }

  /** The first index whose element satisfies `test`, if any. */
  function FirstIndex<T>(s: seq<T>, test: T -> bool): (k: Option<nat>)
    ensures k.Some? ==> k.value < |s| && test(s[k.value])
    ensures k.Some? ==> forall i :: 0 <= i < k.value ==> !test(s[i])
    ensures k.None? <==> forall i :: 0 <= i < |s| ==> !test(s[i])
    decreases |s|
  {
    if |s| == 0 then None
    else if test(s[0]) then Some(0)
    else
      match FirstIndex(s[1..], test)
      case None => None
      case Some(i) => Some(i + 1)
  }

  /** The three classes are pairwise disjoint, and every byte that opens an inline span
      (an emphasis or code delimiter) is neither a space nor the escape byte. */
  lemma CharClassesDisjoint(b: Byte)
    ensures !(IsEmphasis(b) && IsCode(b))
    ensures !(IsEmphasis(b) && IsSpace(b))
    ensures !(IsCode(b) && IsSpace(b))
    ensures (IsEmphasis(b) || IsCode(b)) ==> b != BACKSLASH
  {
  }

  /** The `ByteMatcher` implementations: a closure, a single byte, or a slice of bytes. */
  datatype Matcher =
    | Where(test: Byte -> bool)
    | Exactly(byte: Byte)
    | AnyOf(bytes: Bytes)

  /** `iter().any(|c| c.matches(b))` over the bytes of a slice matcher, element by element. */
  predicate AnyMatches(s: Bytes, b: Byte)
    decreases |s|
  {
    |s| > 0 && (s[0] == b || AnyMatches(s[1..], b))
  }

  /** `ByteMatcher::matches`. */
  predicate Matches(m: Matcher, b: Byte) {
    match m
    case Where(test) => test(b)
    case Exactly(x) => x == b
    case AnyOf(s) => AnyMatches(s, b)
  }

  /** A slice matcher accepts a byte exactly when the byte occurs in the slice. */
  lemma {:induction false} AnyMatchesIsMembership(s: Bytes, b: Byte)
    ensures AnyMatches(s, b) <==> b in s
    decreases |s|
  {
    if |s| > 0 {
      AnyMatchesIsMembership(s[1..], b);
      assert s == [s[0]] + s[1..];
    }
  }

  /** A single-byte matcher accepts exactly that byte, and a slice matcher exactly its members. */
  lemma MatcherSemantics(m: Matcher, b: Byte)
    ensures m.Exactly? ==> (Matches(m, b) <==> b == m.byte)
    ensures m.AnyOf? ==> (Matches(m, b) <==> b in m.bytes)
  {
    if m.AnyOf? {
      AnyMatchesIsMembership(m.bytes, b);
    }
  }

  /** `iter().position(|b| !m.matches(b))`: the first byte the matcher rejects. */
  function FirstUnmatched(s: Bytes, m: Matcher): (r: Option<nat>)
    ensures r.Some? ==> r.value < |s| && !Matches(m, s[r.value])
    ensures r.Some? ==> forall i :: 0 <= i < r.value ==> Matches(m, s[i])
    ensures r.None? <==> forall i :: 0 <= i < |s| ==> Matches(m, s[i])
    decreases |s|
  {
    if |s| == 0 then None
    else if !Matches(m, s[0]) then Some(0)
    else
      match FirstUnmatched(s[1..], m)
      case None => None
      case Some(i) => Some(i + 1)
  }

  /** `iter().rposition(|b| !m.matches(b))`: the last byte the matcher rejects. */
  function LastUnmatched(s: Bytes, m: Matcher): (r: Option<nat>)
    ensures r.Some? ==> r.value < |s| && !Matches(m, s[r.value])
    ensures r.Some? ==> forall i :: r.value < i < |s| ==> Matches(m, s[i])
    ensures r.None? <==> forall i :: 0 <= i < |s| ==> Matches(m, s[i])
    decreases |s|
  {
    if |s| == 0 then None
    else if !Matches(m, s[|s| - 1]) then Some(|s| - 1)
    else LastUnmatched(s[..|s| - 1], m)
  }

  /** `trim_left`: drop the longest prefix of matching bytes. */
  function TrimLeft(s: Bytes, m: Matcher): (r: Bytes)
    ensures |r| <= |s| && r == s[|s| - |r|..]
    ensures forall i :: 0 <= i < |s| - |r| ==> Matches(m, s[i])
    ensures |r| > 0 ==> !Matches(m, r[0])
    ensures r == [] <==> forall i :: 0 <= i < |s| ==> Matches(m, s[i])
  {
    match FirstUnmatched(s, m)
    case None => []
    case Some(idx) => s[idx..]
  }

  /** `trim_right`: drop the longest suffix of matching bytes. */
  function TrimRight(s: Bytes, m: Matcher): (r: Bytes)
    ensures |r| <= |s| && r == s[..|r|]
    ensures forall i :: |r| <= i < |s| ==> Matches(m, s[i])
    ensures |r| > 0 ==> !Matches(m, r[|r| - 1])
    ensures r == [] <==> forall i :: 0 <= i < |s| ==> Matches(m, s[i])
  {
    match LastUnmatched(s, m)
    case None => []
    case Some(idx) => s[..idx + 1]
  }

  /** Trimming an already trimmed slice changes nothing. */
  lemma TrimLeftIdempotent(s: Bytes, m: Matcher)
    ensures TrimLeft(TrimLeft(s, m), m) == TrimLeft(s, m)
  {
    var t := TrimLeft(s, m);
    if |t| > 0 {
      assert FirstUnmatched(t, m) == Some(0);
    }
  }

  /** Trimming an already trimmed slice changes nothing. */
  lemma TrimRightIdempotent(s: Bytes, m: Matcher)
    ensures TrimRight(TrimRight(s, m), m) == TrimRight(s, m)
  {
    var t := TrimRight(s, m);
    if |t| > 0 {
      assert LastUnmatched(t, m) == Some(|t| - 1);
    }
  }

  /** The prefix `TrimRight` keeps is the only one that ends in a rejected byte (or is
      empty) and is followed by matching bytes only. */
  lemma TrimRightUnique(s: Bytes, m: Matcher, k: nat)
    requires k <= |s|
    requires forall i :: k <= i < |s| ==> Matches(m, s[i])
    requires k > 0 ==> !Matches(m, s[k - 1])
    ensures TrimRight(s, m) == s[..k]
  {
    var r := TrimRight(s, m);
    if |r| < k {
      assert false;
    } else if |r| > k {
      assert false;
    }
  }

  /** `trim_left_one`: drop the first byte when it matches. */
  function TrimLeftOne(s: Bytes, m: Matcher): (r: Bytes)
    ensures |s| > 0 && Matches(m, s[0]) ==> r == s[1..]
    ensures |s| == 0 || !Matches(m, s[0]) ==> r == s
  {
    if |s| > 0 && Matches(m, s[0]) then s[1..] else s
  }

  /** `trim_right_one`: drop the last byte when it matches. */
  function TrimRightOne(s: Bytes, m: Matcher): (r: Bytes)
    ensures |s| > 0 && Matches(m, s[|s| - 1]) ==> r == s[..|s| - 1]
    ensures |s| == 0 || !Matches(m, s[|s| - 1]) ==> r == s
  {
    if |s| > 0 && Matches(m, s[|s| - 1]) then s[..|s| - 1] else s
  }

  /** Dropping one matching byte first does not change what `trim_left` keeps: the single
      step is absorbed by the full trim. */
  lemma TrimLeftOneAbsorbed(s: Bytes, m: Matcher)
    ensures TrimLeft(TrimLeftOne(s, m), m) == TrimLeft(s, m)
  {
    if |s| > 0 && Matches(m, s[0]) {
      var t := s[1..];
      match FirstUnmatched(t, m)
      case None =>
      case Some(i) =>
        assert FirstUnmatched(s, m) == Some(i + 1);
        assert t[i..] == s[i + 1..];
    }
  }

  /** Dropping one matching byte first does not change what `trim_right` keeps. */
  lemma TrimRightOneAbsorbed(s: Bytes, m: Matcher)
    ensures TrimRight(TrimRightOne(s, m), m) == TrimRight(s, m)
  {
    if |s| > 0 && Matches(m, s[|s| - 1]) {
      var t := s[..|s| - 1];
      assert LastUnmatched(s, m) == LastUnmatched(t, m);
      match LastUnmatched(t, m)
      case None =>
      case Some(i) =>
        assert t[..i + 1] == s[..i + 1];
    }
  }
}
