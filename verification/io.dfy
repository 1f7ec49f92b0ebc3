/** The byte source every snapshot reads from, reduced to what the parser observes. */
module Io {
  import opened Util

  /** The error kinds the parser distinguishes: end of file, and every other kind. */
  datatype IoErrorKind = EndOfFile | OtherKind(code: nat)

  /** `io::IoError`: a kind and a description. */
  datatype IoError = IoError(kind: IoErrorKind, desc: string)

  /** A finite source: the bytes it delivers, then the error every further read returns. */
  datatype Source = Source(bytes: Bytes, tail: IoError)

  /** The error a read past the end of an in-memory buffer reports. */
  const EOF: IoError := IoError(EndOfFile, "end of file")

  /** A buffer handed to a nested parser: its bytes, then end of file. */
  function SubSource(buf: Bytes): (src: Source)
    ensures src.bytes == buf && src.tail.kind == EndOfFile
  {
    Source(buf, EOF)
  }
}
