/** The destination that collects the output in memory, in a buffer that doubles. */
module MemoryDestination {
  import opened Bits

  const DEST_BUFFER_SIZE := 0x1_0000

  class Manager {
    var current: array<Byte>
    var bufferSize: nat
    /** The next place of the buffer to be written, and the room behind it. */
    var nextOutputByte: nat
    var freeInBuffer: nat
    /** What the application will be told. */
    var output: array<Byte>
    var outputSize: nat

    /** Everything that was written, in order. */
    ghost var received: seq<Byte>

    ghost predicate Valid()
      reads this, current
    {
      && current.Length == bufferSize > 0
      && nextOutputByte + freeInBuffer == bufferSize
      && current[..nextOutputByte] == received
      && output == current
    }

    /** `jpegli_mem_dest`: an application that brings no buffer gets one. */
    constructor (given: array<Byte>)
      ensures Valid() && received == [] && (current == given || fresh(current))
      ensures given.Length > 0 ==> current == given
    {
      var buffer := given;
      if given.Length == 0 {
        buffer := new Byte[DEST_BUFFER_SIZE];
      }
      current, output := buffer, buffer;
      bufferSize, outputSize := buffer.Length, buffer.Length;
      nextOutputByte, freeInBuffer := 0, buffer.Length;
      received := [];
    }

    /** Copies the full buffer to the lower half of one twice its size. */
    method EmptyOutputBuffer() returns (ok: bool)
      requires Valid() && freeInBuffer == 0
      modifies this`current, this`bufferSize, this`nextOutputByte, this`freeInBuffer, this`output, this`outputSize
      ensures Valid() && ok && freeInBuffer > 0 && bufferSize == 2 * old(bufferSize) && fresh(current)
    {
      var next := new Byte[bufferSize * 2];
      var i := 0;
      while i < bufferSize
        invariant Valid() && bufferSize == old(bufferSize) && 0 <= i <= bufferSize && next[..i] == current[..i]
      {
        next[i] := current[i];
        i := i + 1;
      }
      current, output := next, next;
      outputSize := bufferSize;
      nextOutputByte := bufferSize;
      freeInBuffer := bufferSize;
      bufferSize := bufferSize * 2;
      ok := true;
    }

    /** Writes a marker segment or a piece of entropy coded data. */
    method WriteOutput(buf: seq<Byte>)
      requires Valid()
      modifies this, current
      ensures Valid() && received == old(received) + buf && (current == old(current) || fresh(current))
    {
      var pos := 0;
      while pos < |buf|
        invariant 0 <= pos <= |buf| && Valid() && received == old(received) + buf[..pos]
        invariant current == old(current) || fresh(current)
        decreases |buf| - pos
      {
        if freeInBuffer == 0 {
          var _ := EmptyOutputBuffer();
        }
        var len := if freeInBuffer < |buf| - pos then freeInBuffer else |buf| - pos;
        Copy(buf, pos, len);
        assert buf[..pos + len] == buf[..pos] + buf[pos..pos + len];
        pos := pos + len;
      }
      assert buf[..pos] == buf;
    }

    /** The `memcpy` into the buffer, and the bookkeeping behind it. */
    method Copy(buf: seq<Byte>, pos: nat, len: nat)
      requires Valid() && pos + len <= |buf| && len <= freeInBuffer
      modifies this`nextOutputByte, this`freeInBuffer, this`received, current
      ensures Valid() && received == old(received) + buf[pos..pos + len]
    {
      var i := 0;
      ghost var start := nextOutputByte;
      while i < len
        invariant 0 <= i <= len && current == old(current)
        invariant current[..start + i] == old(received) + buf[pos..pos + i]
        invariant nextOutputByte == start && freeInBuffer == old(freeInBuffer) && received == old(received)
      {
        current[nextOutputByte + i] := buf[pos + i];
        i := i + 1;
      }
      nextOutputByte := nextOutputByte + len;
      freeInBuffer := freeInBuffer - len;
      received := received + buf[pos..pos + len];
    }

    /** The application finds exactly what was written. */
    method TermDestination()
      requires Valid()
      modifies this`outputSize
      ensures Valid() && outputSize == |received| <= output.Length && output[..outputSize] == received
    {
      outputSize := bufferSize - freeInBuffer;
    }
  }

  function Joined(pieces: seq<seq<Byte>>): seq<Byte> {
    if pieces == [] then [] else Joined(pieces[..|pieces| - 1]) + pieces[|pieces| - 1]
  }

  /** A whole file, whatever the initial buffer and the pieces in which it is written. */
  method WriteFile(given: array<Byte>, pieces: seq<seq<Byte>>) returns (output: array<Byte>, size: nat)
    modifies given
    ensures size <= output.Length && output[..size] == Joined(pieces)
  {
    var dest := new Manager(given);
    for i := 0 to |pieces|
      invariant dest.Valid() && fresh(dest) && (dest.current == given || fresh(dest.current))
      invariant dest.received == Joined(pieces[..i])
    {
      assert pieces[..i + 1][..i] == pieces[..i];
      dest.WriteOutput(pieces[i]);
    }
    assert pieces[..|pieces|] == pieces;
    dest.TermDestination();
    output, size := dest.output, dest.outputSize;
  }
}
