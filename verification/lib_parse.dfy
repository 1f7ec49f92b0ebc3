/** `parse_block` of the reader-based parser in src/lib.rs: the `first_of!` alternation over
    productions that give `None` when they do not apply, and the parse error when none does.
    Each production's outcome is a parameter: the bodies in src/lib.rs are stubs. */
module LibParser {
  import opened Core
  import opened Util
  import opened Errors
  import opened Results
  import opened Tokens

  /** What each production of src/lib.rs gives when tried, in the order written. */
  datatype Productions = Productions(
    quote: Option<MdResult<Block>>, code: Option<MdResult<Block>>,
    rule: Option<MdResult<Block>>, heading: Option<MdResult<Block>>,
    orderedList: Option<MdResult<Block>>, unorderedList: Option<MdResult<Block>>,
    paragraph: Option<MdResult<Block>>)

  /** The productions in the order `parse_block` tries them. */
  function Order(ps: Productions): (os: seq<Option<MdResult<Block>>>)
    ensures |os| == 7 && os[0] == ps.quote && os[6] == ps.paragraph
  {
    [ps.quote, ps.code, ps.rule, ps.heading, ps.orderedList, ps.unorderedList, ps.paragraph]
  }

  /** `first_of!`: the first alternative that is present, tried left to right. The macro
      as written hands the rest to `try_parse!` rather than to itself, and is called with
      alternatives separated by `or` where its rest pattern expects commas; this is the
      right-nested `or_else` chain it evidently means. */
  function FirstOf<T>(os: seq<Option<T>>): (r: Option<T>)
    decreases |os|
  {
    if |os| == 0 then None
    else if os[0].Some? then os[0]
    else FirstOf(os[1..])
  }

  /** An alternative that applies. */
  predicate Present<T>(o: Option<T>) {
    o.Some?
  }

  /** `first_of!` picks the first alternative that is present, and gives `None` exactly when
      there is none. */
  lemma {:induction false} FirstOfIsFirstPresent<T>(os: seq<Option<T>>)
    ensures var k := FirstIndex(os, Present);
      (k.None? ==> FirstOf(os) == None) && (k.Some? ==> FirstOf(os) == os[k.value])
    decreases |os|
  {
    if |os| > 0 && os[0].None? {
      FirstOfIsFirstPresent(os[1..]);
    }
  }

  /** The message of the error `parse_block` reports: the buffer rendering is a parameter. */
  function BlockError(dump: string): (e: MdError)
    ensures e.ParseError? && "unable to parse a block" <= e.message
    ensures |dump| <= |e.message| && e.message[|e.message| - |dump|..] == dump
  {
    ParseError("unable to parse a block, buffer contents: " + dump)
  }

  /** `parse_block`: the first production that applies, or the parse error. */
  function ParseBlock(ps: Productions, dump: string): (r: MdResult<Block>)
  {
    match FirstOf(Order(ps))
    case Some(b) => b
    case None => Failure(BlockError(dump))
  }

  /** The result is that of the first production that applies, in the order quote, code,
      rule, heading, ordered list, unordered list, paragraph; with none the parse fails. */
  lemma ParseBlockPriority(ps: Productions, dump: string)
    ensures var k := FirstIndex(Order(ps), Present);
      (k.Some? ==> ParseBlock(ps, dump) == Order(ps)[k.value].value)
      && (k.None? ==> ParseBlock(ps, dump) == Failure(BlockError(dump)))
  {
    FirstOfIsFirstPresent(Order(ps));
  }
}
