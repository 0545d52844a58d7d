/** What the background reader does with each read of the connected
    socket's input stream: which reads become published chunks, and how the
    read characters become bytes. */
module ByteStream {

  /** An unsigned 8-bit value, as C#'s `byte`. */
  type byte = b: int | 0 <= b < 256

  /** The reader allocates a buffer of this many characters for every read. */
  const ReadBufferSize: nat := 1024

  /** The platform's answer to one `ReadAsync` call: the number of characters
      it reports and the buffer it filled, or an exception. */
  datatype ReadOutcome =
    | Read(count: int, buffer: seq<char>)
    | ReadFailed
  {
    /** The platform fills the reader's own 1024-character buffer and never
        reports more characters than that buffer holds. */
    predicate WellFormed() {
      Read? ==> |buffer| == ReadBufferSize && count <= ReadBufferSize
    }
  }

  /** Casting each character to `byte` keeps its low eight bits (an
      unchecked C# narrowing conversion). */
  function ToBytes(cs: seq<char>): (r: seq<byte>)
    ensures |r| == |cs|
    ensures forall i :: 0 <= i < |cs| ==> r[i] == (cs[i] as int) % 256
  {
    if cs == [] then []
    else [(cs[0] as int) % 256] + ToBytes(cs[1..])
  }

  /** `buffer.Take(count).Select(c => (byte)c)`: the first `count`
      characters (none for a count of zero or less), each narrowed to a byte. */
  function Chunk(buffer: seq<char>, count: int): (r: seq<byte>)
    ensures count <= 0 ==> r == []
    ensures 0 < count <= |buffer| ==> |r| == count
    ensures |buffer| < count ==> |r| == |buffer|
    ensures forall i :: 0 <= i < |r| ==> r[i] == (buffer[i] as int) % 256
  {
    if count <= 0 then []
    else if count < |buffer| then ToBytes(buffer[..count])
    else ToBytes(buffer)
  }

  /** What one loop iteration publishes: a chunk for a positive-length read,
      nothing for an empty read or end of stream, nothing for an exception. */
  function Emit(o: ReadOutcome): (r: seq<seq<byte>>)
    ensures |r| <= 1
    ensures r != [] <==> o.Read? && o.count > 0
    ensures r != [] ==> r[0] == Chunk(o.buffer, o.count)
  {
    match o
    case Read(count, buffer) => if count > 0 then [Chunk(buffer, count)] else []
    case ReadFailed => []
  }

  /** Everything a run of iterations over `rs` publishes, in order. */
  function Emitted(rs: seq<ReadOutcome>): (r: seq<seq<byte>>)
    ensures |r| <= |rs|
  {
    if rs == [] then []
    else Emitted(rs[..|rs| - 1]) + Emit(rs[|rs| - 1])
  }

  /** One more iteration publishes what that iteration emits, after what came before. */
  lemma EmittedSnoc(rs: seq<ReadOutcome>, k: nat)
    requires k < |rs|
    ensures Emitted(rs[..k + 1]) == Emitted(rs[..k]) + Emit(rs[k])
  {
    assert rs[..k + 1][..k] == rs[..k];
  }

  /** Index of the first read that throws, or `|rs|` when none does. */
  function FailureIndex(rs: seq<ReadOutcome>): (k: nat)
    ensures k <= |rs|
    ensures forall j :: 0 <= j < k ==> rs[j].Read?
    ensures k < |rs| ==> rs[k].ReadFailed?
  {
    if rs == [] then 0
    else if rs[0].ReadFailed? then 0
    else 1 + FailureIndex(rs[1..])
  }

  /** Before the first failure, a read fails exactly when it is that failure. */
  lemma FailureIndexAt(rs: seq<ReadOutcome>, i: nat)
    requires i < |rs| && i <= FailureIndex(rs)
    ensures rs[i].ReadFailed? <==> i == FailureIndex(rs)
  {
  }

  /** No published chunk is empty, and none is longer than the read buffer. */
  lemma {:induction false} EmittedChunksBounded(rs: seq<ReadOutcome>)
    requires forall k :: 0 <= k < |rs| ==> rs[k].WellFormed()
    ensures forall c :: c in Emitted(rs) ==> 0 < |c| <= ReadBufferSize
  {
    if rs != [] {
      var last := rs[|rs| - 1];
      EmittedChunksBounded(rs[..|rs| - 1]);
      assert last.WellFormed();
    }
  }
}
