/** src/result.rs: the error type and its rendering. */
module Errors {
  import Io

  /** `MarkdownError`. */
  datatype MdError = ParseError(message: string) | IoError(cause: Io.IoError)

  /** The `fmt::Show` rendering of a `MarkdownError`. */
  function Show(e: MdError): (s: string)
    ensures e.ParseError? ==> |s| >= 13 && s[..13] == "parse error: " && s[13..] == e.message
    ensures e.IoError? ==> |s| >= 11 && s[..11] == "i/o error: " && s[11..] == e.cause.desc
  {
    match e
    case ParseError(msg) => "parse error: " + msg
    case IoError(err) => "i/o error: " + err.desc
  }

  /** The rendering of a parse error determines it: no other error, and no I/O error in
      particular, renders to the same text. */
  lemma ShowParseErrorIsInjective(msg: string, e: MdError)
    requires Show(ParseError(msg)) == Show(e)
    ensures e == ParseError(msg)
  {
    var s := Show(ParseError(msg));
    assert Show(e)[0] == s[0] == 'p';
    assert e.ParseError?;
    assert e.message == Show(e)[13..] == s[13..] == msg;
  }

  /** `MarkdownError::from_io`. */
  function FromIo(err: Io.IoError): (e: MdError)
    ensures e.IoError? && e.cause == err
  {
    IoError(err)
  }

  /** Wrapping an I/O error loses nothing: it renders with the I/O prefix and the
      description of the wrapped error, and distinct causes stay distinct. */
  lemma FromIoFaithful(a: Io.IoError, b: Io.IoError)
    ensures Show(FromIo(a))[11..] == a.desc
    ensures FromIo(a) == FromIo(b) <==> a == b
  {
  }

  /** The error that ends a parse cleanly: an I/O error of kind end of file. */
  predicate IsEndOfFile(e: MdError) {
    e.IoError? && e.cause.kind == Io.EndOfFile
  }
}

/** src/result.rs: the three-way result every block production of the reader-based
    parser returns to its driver. */
module Results {
  import opened Core
  import opened Errors

  /** `PartialResult`: a value, a value with the error that cut it short, or an error. */
  datatype PartialResult<T, E1, E2> =
    | Success(value: T)
    | PartialSuccess(value: T, partial: E1)
    | Failure(error: E2)

  /** `to_result`: keep the value of a success, full or partial, and drop the partial error. */
  function ToResult<T, E1, E2>(p: PartialResult<T, E1, E2>): (r: Result<T, E2>)
    ensures r.Ok? <==> !p.Failure?
    ensures r.Ok? ==> r.value == p.value
    ensures r.Err? ==> r.error == p.error
  {
    match p
    case Success(v) => Ok(v)
    case PartialSuccess(v, _) => Ok(v)
    case Failure(e) => Err(e)
  }

  /** `MarkdownResult<T>`. */
  type MdResult<T> = PartialResult<T, MdError, MdError>

  /** The embedding of an ordinary result into the three-way one. */
  function FromResult<T, E1, E2>(r: Result<T, E2>): PartialResult<T, E1, E2> {
    match r
    case Ok(v) => Success(v)
    case Err(e) => Failure(e)
  }

  /** `to_result` is a left inverse of the embedding, and the embedding undoes `to_result`
      exactly on results that carry no partial error. */
  lemma ToResultRoundTrip<T, E1, E2>(r: Result<T, E2>, p: PartialResult<T, E1, E2>)
    ensures ToResult(FromResult<T, E1, E2>(r)) == r
    ensures FromResult<T, E1, E2>(ToResult(p)) == p <==> !p.PartialSuccess?
  {
  }
}
