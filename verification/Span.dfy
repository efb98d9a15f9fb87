/** Spans over byte arrays and the buffer pair that a chain ping-pongs between. */
module Spans {
  import opened Bytes
  import opened Transducers

  /** A view of `len` bytes of `buf`, or the default-constructed span that refers to nothing. */
  datatype Span = Nowhere | Span(buf: array<byte>, off: nat, len: nat) {

    predicate Valid() {
      Span? ==> off + len <= buf.Length
    }

    function Bytes(): seq<byte>
      requires Valid()
      reads if Span? then {buf} else {}
    {
      if Span? then buf[off..off + len] else []
    }

    /** `this` lies inside `outer`. */
    predicate Inside(outer: Span) {
      Span? && outer.Span? && buf == outer.buf && outer.off <= off && off + len <= outer.off + outer.len
    }

    /** The two spans share no byte. */
    predicate Apart(other: Span) {
      Span? && other.Span? && buf == other.buf ==> off + len <= other.off || other.off + other.len <= off
    }
  }

  /** Byte number i of an array belongs to the span. */
  predicate Covers(span: Span, buf: array<byte>, i: nat) {
    span.Span? && span.buf == buf && span.off <= i < span.off + span.len
  }

  /** Spans that are apart share no byte; and unless one of them is empty, spans that share none are apart. */
  lemma {:induction false} ApartIsDisjoint(a: Span, b: Span)
    ensures a.Apart(b) ==> forall buf, i: nat :: !(Covers(a, buf, i) && Covers(b, buf, i))
    ensures a.Span? && b.Span? && a.len > 0 && b.len > 0 && a.buf == b.buf && !a.Apart(b) ==>
              var i := if a.off < b.off then b.off else a.off; Covers(a, a.buf, i) && Covers(b, a.buf, i)
  {
  }

  /** A span inside another has only bytes of the other. */
  lemma {:induction false} InsideIsCovered(a: Span, b: Span)
    ensures a.Inside(b) ==> forall buf, i: nat | Covers(a, buf, i) :: Covers(b, buf, i)
    ensures a.Span? && a.len > 0 && (forall i: nat | Covers(a, a.buf, i) :: Covers(b, a.buf, i)) ==> a.Inside(b)
  {
    if a.Span? && a.len > 0 && forall i: nat | Covers(a, a.buf, i) :: Covers(b, a.buf, i) {
      assert Covers(a, a.buf, a.off) && Covers(a, a.buf, a.off + a.len - 1);
    }
  }

  /** The whole array as a span. */
  function Whole(a: array<byte>): Span {
    Span(a, 0, a.Length)
  }

  /** What a temporary replacement of the outputs puts back. */
  datatype SavedOut = SavedOut(swapped: Span, unswapped: Span)

  /** The state machine for foreground and background buffer swapping. */
  class SwappingBuffer {
    var swapping: bool
    var swappedOut: Span
    var unswappedOut: Span
    var currentIn: Span
    var currentOut: Span

    constructor (swapped: Span, unswapped: Span)
      ensures !swapping && swappedOut == swapped && unswappedOut == unswapped
      ensures currentIn == Nowhere && currentOut == unswapped
    {
      swapping := false;
      swappedOut, unswappedOut := swapped, unswapped;
      currentIn, currentOut := Nowhere, unswapped;
    }

    /** The output buffer before any stage shrank it. */
    function OriginalOut(): Span
      reads this
    {
      if swapping then swappedOut else unswappedOut
    }

    /** The buffer that is not the current output. */
    function OtherOut(): Span
      reads this
    {
      if swapping then unswappedOut else swappedOut
    }

    method Reset(input: Span)
      modifies this
      ensures !swapping && currentIn == input && currentOut == OriginalOut()
      ensures swappedOut == old(swappedOut) && unswappedOut == old(unswappedOut)
    {
      currentIn := input;
      currentOut := unswappedOut;
      swapping := false;
    }

    method SetOut(swapped: Span, unswapped: Span, input: Span)
      modifies this
      ensures swappedOut == swapped && unswappedOut == unswapped
      ensures !swapping && currentIn == input && currentOut == OriginalOut()
    {
      swappedOut := swapped;
      unswappedOut := unswapped;
      Reset(input);
    }

    /** Entry of the scope: the outputs are replaced, and the old ones are kept for the exit. */
    method SetTemporaryOut(swapped: Span, unswapped: Span) returns (saved: SavedOut)
      modifies this
      ensures saved == SavedOut(old(swappedOut), old(unswappedOut))
      ensures swappedOut == swapped && unswappedOut == unswapped
      ensures !swapping && currentIn == Nowhere && currentOut == OriginalOut()
    {
      saved := SavedOut(swappedOut, unswappedOut);
      SetOut(swapped, unswapped, Nowhere);
    }

    /** Exit of the scope. */
    method Restore(saved: SavedOut)
      modifies this
      ensures swappedOut == saved.swapped && unswappedOut == saved.unswapped
      ensures !swapping && currentIn == Nowhere && currentOut == OriginalOut()
    {
      SetOut(saved.swapped, saved.unswapped, Nowhere);
      Reset(Nowhere);
    }

    /** What was written becomes the next input, and the other buffer the next output. */
    method Swap()
      modifies this
      ensures swapping == !old(swapping)
      ensures currentIn == old(currentOut) && currentOut == OriginalOut() == old(OtherOut())
      ensures swappedOut == old(swappedOut) && unswappedOut == old(unswappedOut)
    {
      currentIn := currentOut;
      swapping := !swapping;
      if swapping {
        currentOut := swappedOut;
      } else {
        currentOut := unswappedOut;
      }
    }
  }
}
