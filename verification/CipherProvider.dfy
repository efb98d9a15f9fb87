/** The provider that processes a whole buffer in chunks of a fixed size. */
module CipherProviders {
  import opened Bytes
  import opened Transducers
  import opened Spans
  import opened LeafProcessors

  const INTERMEDIATE_SIZE: nat := 4096

  /** Runs the processor over `buffer`, 4096 bytes at a time, then the rest, then the finalization. The intermediate
      buffer has room for `margin` bytes more than a chunk (the longest block of the cipher library). */
  method ProcessData<S>(processor: Leaf<S>, buffer: Span, margin: nat) returns (result: seq<byte>)
    requires buffer.Valid()
    requires Fits(processor.t, INTERMEDIATE_SIZE, INTERMEDIATE_SIZE + margin)
    modifies processor
    ensures result == Transform(processor.t, buffer.Bytes())
  {
    var intermediate := new byte[INTERMEDIATE_SIZE + margin];
    var size := if buffer.Span? then buffer.len else 0;
    var complete := size / INTERMEDIATE_SIZE * INTERMEDIATE_SIZE;
    ghost var t, all := processor.t, buffer.Bytes();
    result := [];
    processor.Init();

    var i := 0;
    while i < complete
      invariant 0 <= i <= complete && i % INTERMEDIATE_SIZE == 0
      invariant processor.state == After(t, t.start, all[..i])
      invariant result == Emit(t, t.start, all[..i])
    {
      assert i + INTERMEDIATE_SIZE <= size / INTERMEDIATE_SIZE * INTERMEDIATE_SIZE;
      result := ProcessChunk(processor, buffer, i, INTERMEDIATE_SIZE, intermediate, result);
      i := i + INTERMEDIATE_SIZE;
    }
    if complete < size {
      result := ProcessChunk(processor, buffer, complete, size - complete, intermediate, result);
    }
    assert all[..size] == all;
    result := ProcessEnd(processor, intermediate, result, all);
  }

  /** The finalization. */
  method ProcessEnd<S>(processor: Leaf<S>, intermediate: array<byte>, done: seq<byte>, ghost all: seq<byte>)
    returns (result: seq<byte>)
    requires Fits(processor.t, INTERMEDIATE_SIZE, intermediate.Length)
    requires processor.state == After(processor.t, processor.t.start, all)
    requires done == Emit(processor.t, processor.t.start, all)
    modifies processor, intermediate
    ensures result == Transform(processor.t, all)
  {
    var output := processor.Finalize(Whole(intermediate));
    result := done + intermediate[..output.len];
  }

  /** One update: `size` bytes from position `i`. What is copied starts where the intermediate buffer starts. */
  method ProcessChunk<S>(
      processor: Leaf<S>, buffer: Span, i: nat, size: nat, intermediate: array<byte>, done: seq<byte>)
    returns (result: seq<byte>)
    requires buffer.Span? && buffer.Valid() && buffer.buf != intermediate && i + size <= buffer.len
    requires size <= INTERMEDIATE_SIZE && Fits(processor.t, INTERMEDIATE_SIZE, intermediate.Length)
    requires processor.state == After(processor.t, processor.t.start, buffer.Bytes()[..i])
    requires done == Emit(processor.t, processor.t.start, buffer.Bytes()[..i])
    modifies processor, intermediate
    ensures processor.state == After(processor.t, processor.t.start, buffer.Bytes()[..i + size])
    ensures result == Emit(processor.t, processor.t.start, buffer.Bytes()[..i + size])
  {
    ghost var t, all := processor.t, buffer.Bytes();
    var chunk := Span(buffer.buf, buffer.off + i, size);
    assert all[..i + size] == all[..i] + chunk.Bytes();
    RunAppend(t, t.start, all[..i], chunk.Bytes());
    var output := processor.Update(chunk, Whole(intermediate));
    result := done + intermediate[..output.len];
  }
}
