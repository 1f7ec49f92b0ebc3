/** `read_while_possible` of src/md/lib.rs and src/lib.rs: drain the parser's results into
    a document. The results `next()` returns are given as the sequence it would produce. */
module Drain {
  import opened Core
  import opened Errors
  import opened Results

  /** The stream of results reaches one that is not a full success. */
  predicate EventuallyStops<T>(rs: seq<MdResult<T>>) {
    exists i :: 0 <= i < |rs| && !rs[i].Success?
  }

  /** The position of the first result that is not a full success. */
  function FirstStop<T>(rs: seq<MdResult<T>>): (k: nat)
    requires EventuallyStops(rs)
    ensures k < |rs| && !rs[k].Success?
    ensures forall i :: 0 <= i < k ==> rs[i].Success?
    decreases |rs|
  {
    if !rs[0].Success? then 0
    else
      var i :| 0 <= i < |rs| && !rs[i].Success?;
      assert 0 <= i - 1 < |rs[1..]| && !rs[1..][i - 1].Success?;
      1 + FirstStop(rs[1..])
  }

  /** The values carried by a run of results none of which is a failure. */
  function Values<T>(rs: seq<MdResult<T>>): (vs: seq<T>)
    requires forall i :: 0 <= i < |rs| ==> !rs[i].Failure?
    ensures |vs| == |rs| && forall i :: 0 <= i < |rs| ==> vs[i] == rs[i].value
  {
    seq(|rs|, i requires 0 <= i < |rs| => rs[i].value)
  }

  /** What the stopping result contributes to the document. */
  function StopTokens<T>(r: MdResult<T>): seq<T> {
    if r.PartialSuccess? then [r.value] else []
  }

  /** The error reported for the stopping result: a partial success reports its error, a
      failure at end of file reports nothing, any other failure reports itself. */
  function StopError<T>(r: MdResult<T>): Option<MdError>
    requires !r.Success?
  {
    match r
    case PartialSuccess(_, e) => Some(e)
    case Failure(e) => if IsEndOfFile(e) then None else Some(e)
  }

  /** `read_while_possible` of src/md/lib.rs: collect the tokens of the leading successes,
      then stop at the first result that is not one. */
  method ReadWhilePossible<T>(rs: seq<MdResult<T>>) returns (doc: seq<T>, error: Option<MdError>)
    requires EventuallyStops(rs)
    ensures var k := FirstStop(rs);
      doc == Values(rs[..k]) + StopTokens(rs[k]) && error == StopError(rs[k])
    ensures error.None? <==> rs[FirstStop(rs)].Failure? && IsEndOfFile(rs[FirstStop(rs)].error)
  {
    var k := FirstStop(rs);
    doc := [];
    error := None;
    var i := 0;
    while true
      invariant i <= k
      invariant doc == Values(rs[..i])
      decreases |rs| - i
    {
      match rs[i]
      case Success(token) =>
        assert Values(rs[..i + 1]) == Values(rs[..i]) + [token];
        doc := doc + [token];
        i := i + 1;
      case PartialSuccess(token, err) =>
        doc := doc + [token];
        error := Some(err);
        break;
      case Failure(err) =>
        if IsEndOfFile(err) {
          break;
        }
        error := Some(err);
        break;
    }
  }

  /** `read_while_possible` of src/lib.rs, which returns from inside the loop. */
  function LibReadWhilePossible<T>(rs: seq<MdResult<T>>): (seq<T>, Option<MdError>)
    requires EventuallyStops(rs)
    decreases |rs|
  {
    match rs[0]
    case Success(token) =>
      assert EventuallyStops(rs[1..]) by {
        var i :| 0 <= i < |rs| && !rs[i].Success?;
        assert !rs[1..][i - 1].Success?;
      }
      var (rest, err) := LibReadWhilePossible(rs[1..]);
      ([token] + rest, err)
    case PartialSuccess(token, err) => ([token], Some(err))
    case Failure(err) => if IsEndOfFile(err) then ([], None) else ([], Some(err))
  }

  /** The early-returning loop of src/lib.rs drains exactly like the one of src/md/lib.rs:
      the leading tokens, up to and including a partial success, and at most one error. */
  lemma {:induction false} LibReadWhilePossibleAgrees<T>(rs: seq<MdResult<T>>)
    requires EventuallyStops(rs)
    ensures var k := FirstStop(rs);
      LibReadWhilePossible(rs) == (Values(rs[..k]) + StopTokens(rs[k]), StopError(rs[k]))
    decreases |rs|
  {
    if rs[0].Success? {
      var i :| 0 <= i < |rs| && !rs[i].Success?;
      assert !rs[1..][i - 1].Success?;
      LibReadWhilePossibleAgrees(rs[1..]);
      var k := FirstStop(rs);
      assert FirstStop(rs[1..]) == k - 1;
      assert rs[1..][..k - 1] == rs[1..k];
      assert rs[1..][k - 1] == rs[k];
      assert Values(rs[..k]) == [rs[0].value] + Values(rs[1..k]);
      var (rest, err) := LibReadWhilePossible(rs[1..]);
      assert LibReadWhilePossible(rs) == ([rs[0].value] + rest, err);
      assert rest == Values(rs[1..k]) + StopTokens(rs[k]);
      assert [rs[0].value] + rest == Values(rs[..k]) + StopTokens(rs[k]);
    } else {
      assert FirstStop(rs) == 0;
      assert Values(rs[..0]) + StopTokens(rs[0]) == StopTokens(rs[0]);
      assert LibReadWhilePossible(rs) == (StopTokens(rs[0]), StopError(rs[0]));
    }
  }

  /** The iterator adaptor: `next().to_result().ok()`, a token unless the step failed. */
  function IterNext<T>(r: MdResult<T>): (t: Option<T>)
    ensures t.Some? <==> !r.Failure?
    ensures t.Some? ==> t.value == r.value
  {
    match ToResult(r)
    case Ok(v) => Some(v)
    case Err(_) => None
  }
}
