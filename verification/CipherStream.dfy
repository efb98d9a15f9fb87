/** The stream buffer that sends what is put into it through a leaf processor and on to another stream. */
module CipherStreams {
  import opened Wrappers
  import opened Bytes
  import opened Transducers
  import opened Spans
  import opened LeafProcessors

  /** The downstream stream: the bytes written to it. */
  class Sink {
    var written: seq<byte>

    constructor ()
      ensures written == []
    {
      written := [];
    }

    method Write(bytes: seq<byte>)
      modifies this
      ensures written == old(written) + bytes
    {
      written := written + bytes;
    }
  }

  /** What is downstream of the bytes processed so far, when more are processed. */
  lemma {:induction false} Extend<S>(t: Transducer<S>, before: seq<byte>, processed: seq<byte>, xs: seq<byte>)
    ensures After(t, t.start, processed + xs) == After(t, After(t, t.start, processed), xs)
    ensures before + Emit(t, t.start, processed + xs)
         == before + Emit(t, t.start, processed) + Emit(t, After(t, t.start, processed), xs)
  {
    RunAppend(t, t.start, processed, xs);
  }

  class CipherStreambuf<!S> {
    var pair: array<byte>     // the put area, then the output buffer
    var pptr: nat             // next position of the put area
    var epptr: nat            // end of the put area
    var sink: Sink?           // null when closed
    var processor: Leaf?<S>

    // History since the stream was opened.
    ghost var before: seq<byte>     // what the sink held then
    ghost var accepted: seq<byte>   // every byte put so far
    ghost var processed: seq<byte>  // the part of it that went through the processor

    constructor ()
      ensures Valid() && !IsOpen()
    {
      pair := new byte[0];
      pptr, epptr, sink, processor := 0, 0, null, null;
      before, accepted, processed := [], [], [];
    }

    predicate IsOpen()
      reads this
    {
      sink != null
    }

    ghost function Footprint(): set<object?>
      reads this
    {
      {this, pair, sink, processor}
    }

    /** Accepted bytes are the processed ones and the put area; the sink got what the processor made of the former. */
    ghost predicate Valid()
      reads this, Footprint()
    {
      if sink == null then pptr == epptr == 0
      else
        && processor != null
        && 0 < processor.bufferSize == epptr <= 0x7fff_ffff
        && pair.Length == processor.bufferSize + processor.outputSize
        && pptr <= epptr
        && Fits(processor.t, processor.bufferSize, processor.outputSize)
        && accepted == processed + pair[..pptr]
        && processor.state == After(processor.t, processor.t.start, processed)
        && sink.written == before + Emit(processor.t, processor.t.start, processed)
    }

    /** The stream stays open on the same sink and processor. */
    twostate predicate SameStream()
      reads this
    {
      sink == old(sink) && processor == old(processor) && pair == old(pair) && before == old(before)
    }

    /** Opens on `sink`. Whatever a stream that was still open held back is dropped. */
    method Init(sink: Sink, processor: Leaf<S>)
      requires 0 < processor.bufferSize <= 0x7fff_ffff
      requires Fits(processor.t, processor.bufferSize, processor.outputSize)
      modifies this, processor
      ensures Valid() && this.sink == sink && this.processor == processor && fresh(pair)
      ensures accepted == [] && before == old(sink.written) && sink.written == before
    {
      this.pair := new byte[processor.bufferSize + processor.outputSize];
      this.sink, this.processor := sink, processor;
      pptr, epptr := 0, processor.bufferSize;
      processor.Init();
      before, accepted, processed := sink.written, [], [];
      assert sink.written + [] == sink.written;
    }

    /** Sends the put area through the processor and empties it. */
    method ProcessBuffer()
      requires Valid()
      modifies this, Footprint()
      ensures Valid() && SameStream() && accepted == old(accepted)
      ensures IsOpen() ==> processed == accepted && pptr == 0
    {
      if sink != null {
        var input := Span(pair, 0, pptr);
        var output := Span(pair, epptr, pair.Length - epptr);
        ghost var xs := input.Bytes();
        output := processor.Update(input, output);
        sink.Write(output.Bytes());
        Extend(processor.t, before, processed, xs);
        pptr := pptr - input.len;
        processed := processed + xs;
        assert processed + pair[..pptr] == processed;
      }
    }

    /** Called when the put area is full, or with nothing. A closed stream accepts nothing. */
    method Overflow(ch: Option<byte>) returns (r: Option<byte>)
      requires Valid()
      modifies this, Footprint()
      ensures Valid() && SameStream()
      ensures r == if old(IsOpen()) then ch else None
      ensures accepted == if r.Some? then old(accepted) + [r.value] else old(accepted)
    {
      if sink == null || ch == None {
        return None;
      }
      if pptr >= epptr {
        ProcessBuffer();
      }
      pair[pptr] := ch.value;
      pptr := pptr + 1;
      accepted := accepted + [ch.value];
      assert pair[..pptr] == pair[..pptr - 1] + [ch.value];
      r := ch;
    }

    /** Puts one byte: into the put area while there is room. */
    method Put(ch: byte) returns (ok: bool)
      requires Valid()
      modifies this, Footprint()
      ensures Valid() && SameStream()
      ensures ok == old(IsOpen())
      ensures accepted == if ok then old(accepted) + [ch] else old(accepted)
    {
      if pptr < epptr {
        pair[pptr] := ch;
        pptr := pptr + 1;
        accepted := accepted + [ch];
        assert pair[..pptr] == pair[..pptr - 1] + [ch];
        ok := true;
      } else {
        var r := Overflow(Some(ch));
        ok := r.Some?;
      }
    }

    /** Puts a block byte by byte until one is refused. */
    method PutBlock(bytes: seq<byte>) returns (n: nat)
      requires Valid()
      modifies this, Footprint()
      ensures Valid() && SameStream()
      ensures n == if old(IsOpen()) then |bytes| else 0
      ensures accepted == old(accepted) + bytes[..n]
    {
      n := 0;
      while n < |bytes|
        invariant Valid() && SameStream() && n <= |bytes| && fresh(Footprint() - old(Footprint()))
        invariant accepted == old(accepted) + bytes[..n]
        invariant n > 0 ==> IsOpen()
      {
        var ok := Put(bytes[n]);
        if !ok {
          return;
        }
        assert old(accepted) + bytes[..n] + [bytes[n]] == old(accepted) + bytes[..n + 1];
        n := n + 1;
      }
    }

    /** Flush: everything accepted so far goes through the processor. */
    method Sync() returns (code: int)
      requires Valid()
      modifies this, Footprint()
      ensures Valid() && SameStream() && accepted == old(accepted)
      ensures code == if old(IsOpen()) then 0 else -1
      ensures IsOpen() ==> processed == accepted && pptr == 0
    {
      if sink == null {
        return -1;
      }
      if pptr > 0 {
        ProcessBuffer();
      } else {
        assert processed + pair[..0] == processed;
      }
      code := 0;
    }

    /** Finalizes the processor behind everything accepted. Afterwards only closing makes sense. */
    method Finalize()
      requires Valid()
      modifies this, Footprint()
      ensures SameStream() && accepted == old(accepted)
      ensures !IsOpen() ==> Valid()
      ensures IsOpen() ==> sink.written == before + Transform(processor.t, accepted)
    {
      var code := Sync();
      if code == 0 {
        var output := Span(pair, epptr, pair.Length - epptr);
        output := processor.Finalize(output);
        sink.Write(output.Bytes());
      }
    }

    /** Finalizes an open stream and lets go of its sink; a closed one is left alone. */
    method Close()
      requires Valid()
      modifies this, Footprint()
      ensures Valid() && !IsOpen() && accepted == old(accepted)
      ensures old(sink) != null ==>
                old(sink).written == old(before) + Transform(old(processor).t, old(accepted))
    {
      if sink != null {
        Finalize();
        sink, processor := null, null;
        pptr, epptr := 0, 0;
      }
    }
  }
}
