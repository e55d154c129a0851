/**
 * The stream capturer: standard input is read into a 32 KiB buffer again and
 * again, each chunk appended to an in-memory byte buffer, until a read
 * returns no bytes; the caller then writes the whole buffer to the staging
 * file in one go.
 */
module StreamCapture {
  import opened Wrappers
  import opened LocalFileSystem

  /** The size of the read buffer: one read delivers at most this many bytes. */
  const BufferSize: nat := 32 * 1024

  type Chunk = s: seq<Byte> | |s| <= BufferSize

  /**
   * One call of System.in.read(buffer): the bytes it delivered, or the
   * IOException it threw. Standard input is the list of these; once the list
   * is used up every read returns -1, the end of the stream.
   */
  datatype ReadStep = Bytes(data: Chunk) | ReadFailure

  /** The read returned a positive count, so the loop appends the chunk and reads again. */
  predicate Continues(step: ReadStep) {
    step.Bytes? && |step.data| > 0
  }

  /** The index of the read that ends the loop: the first that fails or returns 0 or -1. */
  function FirstStop(stdin: seq<ReadStep>): (n: nat)
    ensures n <= |stdin|
    ensures forall i :: 0 <= i < n ==> Continues(stdin[i])
    ensures n < |stdin| ==> !Continues(stdin[n])
  {
    if stdin == [] || !Continues(stdin[0]) then 0 else 1 + FirstStop(stdin[1..])
  }

  function DataOf(step: ReadStep): seq<Byte> {
    if step.Bytes? then step.data else []
  }

  /** The bytes of the given reads, in the order they were read. */
  function Flatten(steps: seq<ReadStep>): seq<Byte> {
    if steps == [] then [] else Flatten(steps[..|steps| - 1]) + DataOf(steps[|steps| - 1])
  }

  /**
   * What the loop leaves in the byte buffer: the in-order concatenation of the
   * chunks read before the first read that returned no bytes, or None when
   * that read threw an IOException instead.
   */
  function Captured(stdin: seq<ReadStep>): Option<seq<Byte>> {
    var n := FirstStop(stdin);
    if n < |stdin| && stdin[n].ReadFailure? then None else Some(Flatten(stdin[..n]))
  }

  /** The read loop of main, appending each chunk to the buffer in place. */
  method ReadStandardInput(stdin: seq<ReadStep>) returns (captured: Option<seq<Byte>>)
    ensures captured == Captured(stdin)
  {
    var buffer: seq<Byte> := [];
    var i := 0;
    while i < |stdin| && Continues(stdin[i])
      invariant i <= FirstStop(stdin)
      invariant buffer == Flatten(stdin[..i])
    {
      assert stdin[..i + 1][..i] == stdin[..i];
      buffer := buffer + stdin[i].data;
      i := i + 1;
    }
    if i < |stdin| && stdin[i].ReadFailure? {
      return None;
    }
    return Some(buffer);
  }

  lemma {:induction false} FlattenPrepend(step: ReadStep, rest: seq<ReadStep>)
    ensures Flatten([step] + rest) == DataOf(step) + Flatten(rest)
    decreases |rest|
  {
    if rest == [] {
      assert Flatten([step]) == Flatten([]) + DataOf(step);
    } else {
      var all := [step] + rest;
      var init := rest[..|rest| - 1];
      assert all[..|all| - 1] == [step] + init;
      FlattenPrepend(step, init);
    }
  }

  /**
   * Chunks are kept in the order they are read: a chunk that continues the
   * loop ends up in front of everything read after it.
   */
  lemma FirstChunkComesFirst(step: ReadStep, rest: seq<ReadStep>)
    requires Continues(step)
    ensures Captured([step] + rest) == match Captured(rest)
      case None => None
      case Some(b) => Some(step.data + b)
  {
    var all := [step] + rest;
    assert all[1..] == rest;
    var n := FirstStop(rest);
    assert FirstStop(all) == n + 1;
    assert all[..n + 1] == [step] + rest[..n];
    FlattenPrepend(step, rest[..n]);
  }

  /** Empty standard input leaves an empty buffer. */
  lemma EmptyInputCapturesNothing()
    ensures Captured([]) == Some([])
  {
  }

  /** Nothing offered after the read that stops the loop is ever read. */
  lemma {:induction false} LaterReadsIgnored(stdin: seq<ReadStep>, later: seq<ReadStep>)
    requires FirstStop(stdin) < |stdin|
    ensures FirstStop(stdin + later) == FirstStop(stdin)
    ensures Captured(stdin + later) == Captured(stdin)
    decreases |stdin|
  {
    var all := stdin + later;
    if Continues(stdin[0]) {
      assert all[1..] == stdin[1..] + later;
      LaterReadsIgnored(stdin[1..], later);
    }
    var n := FirstStop(stdin);
    assert all[..n] == stdin[..n];
  }

  /** The captured length is between one byte and one full buffer per chunk read. */
  lemma {:induction false} FlattenLength(steps: seq<ReadStep>)
    requires forall i :: 0 <= i < |steps| ==> Continues(steps[i])
    ensures |steps| <= |Flatten(steps)| <= BufferSize * |steps|
    decreases |steps|
  {
    if steps != [] {
      FlattenLength(steps[..|steps| - 1]);
    }
  }

  lemma CapturedSizeBound(stdin: seq<ReadStep>)
    requires Captured(stdin).Some?
    ensures FirstStop(stdin) <= |Captured(stdin).value| <= BufferSize * FirstStop(stdin)
  {
    FlattenLength(stdin[..FirstStop(stdin)]);
  }
}
