/** The replay buffer of src/lib.rs: bytes read from a source are recorded so that a
    production can rewind and read them again. */
module Replay {
  import opened Core
  import opened Util
  import opened Io

  /** A source being read: the bytes it delivers and how many it has delivered. */
  datatype Reader = Reader(src: Source, next: nat) {
    ghost predicate Valid() {
      next <= |src.bytes|
    }
  }

  /** `Reader::read_byte`: the next byte, or the source's error once the bytes run out
      (the failed read does not advance the source). */
  function ReadSource(rd: Reader): (res: (Result<Byte, IoError>, Reader))
    requires rd.Valid()
    ensures res.1.Valid() && res.1.src == rd.src
    ensures res.0.Ok? <==> rd.next < |rd.src.bytes|
    ensures res.0.Ok? ==> res.0.value == rd.src.bytes[rd.next] && res.1.next == rd.next + 1
    ensures res.0.Err? ==> res.0.error == rd.src.tail && res.1 == rd
  {
    if rd.next < |rd.src.bytes| then (Ok(rd.src.bytes[rd.next]), rd.(next := rd.next + 1))
    else (Err(rd.src.tail), rd)
  }

  /** `Buf`: the bytes recorded so far and the replay position among them. */
  datatype Buf = Buf(data: Bytes, pos: nat) {
    ghost predicate Valid() {
      pos <= |data|
    }
  }

  /** The outcome of one read through a buffer. */
  datatype ReadStep = ReadStep(result: Result<Byte, IoError>, buf: Buf, reader: Reader)

  /** `Buf::new`. */
  function NewBuf(): (b: Buf)
    ensures b.Valid() && b.data == [] && b.pos == 0
  {
    Buf([], 0)
  }

  /** `Buf::read_from`: replay a recorded byte if there is one, otherwise read the source
      and record what it delivers. */
  function ReadFrom(b: Buf, rd: Reader): (r: ReadStep)
    requires b.Valid() && rd.Valid()
    ensures r.buf.Valid() && r.reader.Valid() && r.reader.src == rd.src
    // replaying: the recorded byte, and the source is not touched
    ensures b.pos < |b.data| ==>
      r.result == Ok(b.data[b.pos]) && r.buf == Buf(b.data, b.pos + 1) && r.reader == rd
    // reading through: a delivered byte is appended and is the byte just before the position
    ensures b.pos == |b.data| && r.result.Ok? ==>
      r.buf.data == b.data + [r.result.value] && r.buf.pos == b.pos + 1
      && r.result.value == r.buf.data[r.buf.pos - 1] && r.reader.next == rd.next + 1
    // a failed read changes nothing
    ensures r.result.Err? ==> r.buf == b && r.reader == rd && r.result.error == rd.src.tail
  {
    if b.pos < |b.data| then
      ReadStep(Ok(b.data[b.pos]), Buf(b.data, b.pos + 1), rd)
    else
      var (res, rd') := ReadSource(rd);
      match res
      case Ok(c) => ReadStep(Ok(c), Buf(b.data + [c], b.pos + 1), rd')
      case Err(e) => ReadStep(Err(e), b, rd')
  }

  /** `Buf::rewind`: replay from the first recorded byte. */
  function Rewind(b: Buf): (r: Buf)
    ensures r.Valid() && r.data == b.data && r.pos == 0
  {
    b.(pos := 0)
  }

  /** `Buf::consume`: forget everything recorded. */
  function Consume(b: Buf): (r: Buf)
    ensures r.Valid() && r.data == [] && r.pos == 0
  {
    Buf([], 0)
  }

  /** `k` successive reads through a buffer. */
  function ReadN(b: Buf, rd: Reader, k: nat): (Bytes, Buf, Reader)
    requires b.Valid() && rd.Valid()
    decreases k
  {
    if k == 0 then ([], b, rd)
    else
      var step := ReadFrom(b, rd);
      match step.result
      case Err(_) => ([], step.buf, step.reader)
      case Ok(c) =>
        var (rest, b', rd') := ReadN(step.buf, step.reader, k - 1);
        ([c] + rest, b', rd')
  }

  /** Reading `k` bytes from inside the recorded data replays them in order and never
      touches the source. */
  lemma {:induction false} ReplayReadsRecorded(b: Buf, rd: Reader, k: nat)
    requires b.Valid() && rd.Valid() && b.pos + k <= |b.data|
    ensures ReadN(b, rd, k) == (b.data[b.pos..b.pos + k], Buf(b.data, b.pos + k), rd)
    decreases k
  {
    if k > 0 {
      var next := Buf(b.data, b.pos + 1);
      assert ReadFrom(b, rd) == ReadStep(Ok(b.data[b.pos]), next, rd);
      ReplayReadsRecorded(next, rd, k - 1);
      var (rest, b', rd') := ReadN(next, rd, k - 1);
      assert ReadN(b, rd, k) == ([b.data[b.pos]] + rest, b', rd');
      assert [b.data[b.pos]] + b.data[b.pos + 1..b.pos + k] == b.data[b.pos..b.pos + k];
    } else {
      assert ReadN(b, rd, 0) == ([], b, rd);
      assert b.data[b.pos..b.pos] == [];
    }
  }

  /** After a rewind the next `|data|` reads return the recorded bytes in order, leave the
      source where it was, and end at the end of the recording. */
  lemma RewindReplaysAll(b: Buf, rd: Reader)
    requires b.Valid() && rd.Valid()
    ensures ReadN(Rewind(b), rd, |b.data|) == (b.data, Buf(b.data, |b.data|), rd)
  {
    ReplayReadsRecorded(Rewind(b), rd, |b.data|);
    assert b.data[0..|b.data|] == b.data;
  }

  /** `BufferStack`: nested replay buffers, the innermost last. */
  datatype BufferStack = BufferStack(bufs: seq<Buf>) {
    ghost predicate Valid() {
      forall i :: 0 <= i < |bufs| ==> bufs[i].Valid()
    }
  }

  /** `BufferStack::new`. */
  function NewStack(): (s: BufferStack)
    ensures s.Valid() && s.bufs == []
  {
    BufferStack([])
  }

  /** `push_new`: an empty buffer on top. */
  function PushNew(s: BufferStack): (r: BufferStack)
    requires s.Valid()
    ensures r.Valid() && |r.bufs| == |s.bufs| + 1
    ensures r.bufs[..|s.bufs|] == s.bufs && r.bufs[|s.bufs|] == NewBuf()
  {
    BufferStack(s.bufs + [NewBuf()])
  }

  /** `pop`: drop the top buffer (the source asserts the stack is not empty). */
  function Pop(s: BufferStack): (r: BufferStack)
    requires s.Valid() && |s.bufs| > 0
    ensures r.Valid() && r.bufs == s.bufs[..|s.bufs| - 1]
  {
    BufferStack(s.bufs[..|s.bufs| - 1])
  }

  /** `rewind`: rewind the top buffer only. */
  function RewindTop(s: BufferStack): (r: BufferStack)
    requires s.Valid() && |s.bufs| > 0
    ensures r.Valid() && |r.bufs| == |s.bufs|
    ensures r.bufs[..|s.bufs| - 1] == s.bufs[..|s.bufs| - 1]
    ensures r.bufs[|s.bufs| - 1] == Rewind(s.bufs[|s.bufs| - 1])
  {
    BufferStack(s.bufs[..|s.bufs| - 1] + [Rewind(s.bufs[|s.bufs| - 1])])
  }

  /** `consume`: clear the top buffer only. */
  function ConsumeTop(s: BufferStack): (r: BufferStack)
    requires s.Valid() && |s.bufs| > 0
    ensures r.Valid() && |r.bufs| == |s.bufs|
    ensures r.bufs[..|s.bufs| - 1] == s.bufs[..|s.bufs| - 1]
    ensures r.bufs[|s.bufs| - 1] == Consume(s.bufs[|s.bufs| - 1])
  {
    BufferStack(s.bufs[..|s.bufs| - 1] + [Consume(s.bufs[|s.bufs| - 1])])
  }

  /** The outcome of one read through the stack. */
  datatype StackStep = StackStep(result: Result<Byte, IoError>, stack: BufferStack, reader: Reader)

  /** `read_from`: read through the top buffer only. */
  function ReadFromTop(s: BufferStack, rd: Reader): (r: StackStep)
    requires s.Valid() && |s.bufs| > 0 && rd.Valid()
    ensures r.stack.Valid() && r.reader.Valid() && |r.stack.bufs| == |s.bufs|
    ensures r.stack.bufs[..|s.bufs| - 1] == s.bufs[..|s.bufs| - 1]
    ensures var step := ReadFrom(s.bufs[|s.bufs| - 1], rd);
      r.result == step.result && r.stack.bufs[|s.bufs| - 1] == step.buf && r.reader == step.reader
  {
    var top := s.bufs[|s.bufs| - 1];
    var step := ReadFrom(top, rd);
    StackStep(step.result, BufferStack(s.bufs[..|s.bufs| - 1] + [step.buf]), step.reader)
  }
}
