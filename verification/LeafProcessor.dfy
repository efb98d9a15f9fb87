/** A leaf chunk processor: a transducer that writes into spans it is handed. */
module LeafProcessors {
  import opened Bytes
  import opened Transducers
  import opened Spans

  /** At any point of any run, an update on at most `inSize` bytes and the finalization emit at most `outSize` bytes. */
  ghost predicate Fits<S>(t: Transducer<S>, inSize: nat, outSize: nat) {
    && (forall seen, xs :: |xs| <= inSize ==> |Emit(t, After(t, t.start, seen), xs)| <= outSize)
    && (forall seen :: |t.flush(After(t, t.start, seen))| <= outSize)
  }

  /** The bytes before and after `output` are what they were. */
  twostate predicate UnchangedAround(output: Span)
    requires output.Span? && output.Valid()
    reads output.buf
  {
    && output.buf[..output.off] == old(output.buf[..output.off])
    && output.buf[output.off + output.len..] == old(output.buf[output.off + output.len..])
  }

  class Leaf<!S> {
    const t: Transducer<S>
    const bufferSize: nat   // size of the input buffer the leaf asks for
    const outputSize: nat   // calculate_output_buffer_size of the leaf, see BufferSizes
    var state: S

    constructor (t: Transducer<S>, bufferSize: nat, outputSize: nat)
      ensures this.t == t && state == t.start
      ensures this.bufferSize == bufferSize && this.outputSize == outputSize
    {
      this.t, this.bufferSize, this.outputSize := t, bufferSize, outputSize;
      state := t.start;
    }

    method Init()
      modifies this
      ensures state == t.start
    {
      state := t.start;
    }

    /** Processes a chunk. The result is the prefix of `output` that was written; nothing outside `output` changes. */
    method Update(input: Span, output: Span) returns (written: Span)
      requires input.Valid() && output.Span? && output.Valid() && input.Apart(output)
      requires |Emit(t, state, input.Bytes())| <= output.len
      modifies this, output.buf
      ensures state == After(t, old(state), old(input.Bytes()))
      ensures written.Valid() && written.Inside(output) && written == output.(len := |written.Bytes()|)
      ensures written.Bytes() == Emit(t, old(state), old(input.Bytes()))
      ensures UnchangedAround(output)
    {
      var bytes := Emit(t, state, input.Bytes());
      state := After(t, state, input.Bytes());
      written := Store(output, bytes);
    }

    /** Emits the last piece. The state is not meaningful afterwards until the next `Init`. */
    method Finalize(output: Span) returns (written: Span)
      requires output.Span? && output.Valid()
      requires |t.flush(state)| <= output.len
      modifies this, output.buf
      ensures written.Valid() && written.Inside(output) && written == output.(len := |written.Bytes()|)
      ensures written.Bytes() == old(t.flush(state))
      ensures UnchangedAround(output)
    {
      written := Store(output, t.flush(state));
    }
  }

  /** Copies `bytes` to the start of `output` and shrinks it to what was written. */
  method Store(output: Span, bytes: seq<byte>) returns (written: Span)
    requires output.Span? && output.Valid() && |bytes| <= output.len
    modifies output.buf
    ensures written == Span(output.buf, output.off, |bytes|) && written.Bytes() == bytes
    ensures UnchangedAround(output)
  {
    forall i | 0 <= i < |bytes| {
      output.buf[output.off + i] := bytes[i];
    }
    written := Span(output.buf, output.off, |bytes|);
  }
}
