/** src/parser/block/mod.rs: `parse_block` of the slice-based parser. The productions are
    parameters: their slice-based bodies are not part of the repository (the reader-based
    ones are modelled in their own modules). */
module BlockParser {
  import opened Core
  import opened Util
  import opened Tokens
  import opened Cursor

  /** A block production run at a position of the slice. */
  type Production = (Bytes, nat) -> CStep<Block>

  /** The productions `parse_block` chooses from. */
  datatype BlockProductions = BlockProductions(
    quote: Production, code: Production, rule: Production,
    heading: Production, list: Production, paragraph: Production)

  /** The productions in the order they are tried. */
  function Order(ps: BlockProductions): (order: seq<Production>)
    ensures |order| == 6 && order[0] == ps.quote && order[5] == ps.paragraph
  {
    [ps.quote, ps.code, ps.rule, ps.heading, ps.list, ps.paragraph]
  }

  /** The blank-line loop of `parse_block`: consume blank lines one at a time; the end of
      the input inside it ends the parse. */
  function SkipBlankLines(bytes: Bytes, p: nat): (r: CStep<()>)
    requires p <= |bytes|
    ensures p <= r.next <= |bytes| && !r.result.NoParse?
    ensures r.result.Success? ==> TryParseEmptyLine(bytes, r.next).result.NoParse?
    ensures r.result.End? ==> TryParseEmptyLine(bytes, r.next).result.End?
    decreases |bytes| - p
  {
    var e := TryParseEmptyLine(bytes, p);
    match e.result
    case Success(_) => SkipBlankLines(bytes, e.next)
    case NoParse => CStep(Success(()), p)
    case End => CStep(End, p)
  }

  /** A blank line in front changes nothing: the loop consumes it and goes on. */
  lemma BlankLineSkipped(bytes: Bytes, p: nat, q: nat)
    requires IsBlankLine(bytes, p, q)
    ensures SkipBlankLines(bytes, p) == SkipBlankLines(bytes, q)
  {
    BlankLineConsumed(bytes, p, q);
  }

  /** Whether a production applies: anything but `NoParse`. */
  predicate Applies(s: CStep<Block>) {
    !s.result.NoParse?
  }

  /** What each production gives at a position, in order. */
  function Outcomes(ps: BlockProductions, bytes: Bytes, q: nat): (os: seq<CStep<Block>>)
    ensures |os| == 6 && forall i :: 0 <= i < 6 ==> os[i] == Order(ps)[i](bytes, q)
  {
    seq(6, i requires 0 <= i < 6 => Order(ps)[i](bytes, q))
  }

  /** The paragraph production, the last one, applies everywhere, so some production always
      does; the source panics otherwise. */
  ghost predicate ParagraphAlwaysApplies(ps: BlockProductions, bytes: Bytes) {
    forall q :: 0 <= q <= |bytes| ==> Applies(ps.paragraph(bytes, q))
  }

  /** `parse_block`: after the blank lines, the first production that applies decides the
      result; the end of the input while skipping blank lines is the end. */
  function ParseBlock(ps: BlockProductions, bytes: Bytes, p: nat): (r: CStep<Block>)
    requires p <= |bytes| && ParagraphAlwaysApplies(ps, bytes)
    ensures !r.result.NoParse?
    ensures SkipBlankLines(bytes, p).result.End? ==> r == CStep(End, SkipBlankLines(bytes, p).next)
    ensures SkipBlankLines(bytes, p).result.Success? ==>
      var q := SkipBlankLines(bytes, p).next;
      var k := FirstIndex(Outcomes(ps, bytes, q), Applies);
      k.Some? && r == Order(ps)[k.value](bytes, q)
  {
    var s := SkipBlankLines(bytes, p);
    if s.result.End? then CStep(End, s.next)
    else
      var os := Outcomes(ps, bytes, s.next);
      match FirstIndex(os, Applies)
      case Some(k) => os[k]
      case None => assert false; CStep(End, s.next)
  }

  /** Priority: when the production at rank `k` applies after the blank lines, it decides
      the result, whatever the productions after it would give. */
  lemma EarlierProductionWins(ps: BlockProductions, ps': BlockProductions, bytes: Bytes, p: nat, k: nat)
    requires p <= |bytes| && ParagraphAlwaysApplies(ps, bytes) && ParagraphAlwaysApplies(ps', bytes)
    requires SkipBlankLines(bytes, p).result.Success? && k < 6
    requires forall i :: 0 <= i <= k ==> Order(ps)[i] == Order(ps')[i]
    requires Applies(Order(ps)[k](bytes, SkipBlankLines(bytes, p).next))
    ensures ParseBlock(ps, bytes, p) == ParseBlock(ps', bytes, p)
  {
    var q := SkipBlankLines(bytes, p).next;
    var os, os' := Outcomes(ps, bytes, q), Outcomes(ps', bytes, q);
    var j, j' := FirstIndex(os, Applies), FirstIndex(os', Applies);
    assert j.value <= k && j'.value <= k by {
      assert Applies(os[k]) && Applies(os'[k]);
    }
  }
}
