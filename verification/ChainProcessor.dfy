/** The chain of processors: every stage reads what the stage before it wrote into one of two buffers. */
module ChainProcessors {
  import opened Wrappers
  import opened Bytes
  import opened Transducers
  import opened Spans
  import opened LeafProcessors

  datatype ChainError = TooFewProcessors | MixedDirections

  /** The largest buffer any of the stages asks for. */
  function MaxBufferSize<S>(stages: seq<Leaf<S>>): (n: nat)
    requires stages != []
    ensures forall leaf | leaf in stages :: leaf.bufferSize <= n && leaf.outputSize <= n
    ensures exists leaf | leaf in stages :: n == leaf.bufferSize || n == leaf.outputSize
  {
    var first := stages[0];
    var own := if first.bufferSize < first.outputSize then first.outputSize else first.bufferSize;
    if |stages| == 1 then assert first in stages; own
    else
      var rest := MaxBufferSize(stages[1..]);
      if own < rest then rest else assert first in stages; own
  }

  /** Processors are uniquely owned, so no leaf occurs twice in a chain. */
  predicate Distinct<S>(stages: seq<Leaf<S>>) {
    forall i, j | 0 <= i < j < |stages| :: stages[i] != stages[j]
  }

  /** Some stage and its successor differ in direction. */
  predicate AdjacentDiffer<S>(stages: seq<Leaf<S>>) {
    exists i :: 0 <= i < |stages| - 1 && stages[i].t.forward != stages[i + 1].t.forward
  }

  /** Looking at neighbours only is enough to tell that all stages have the same direction. */
  lemma {:induction false} AdjacentSuffice<S>(stages: seq<Leaf<S>>)
    ensures AdjacentDiffer(stages)
       <==> exists i, j :: 0 <= i < j < |stages| && stages[i].t.forward != stages[j].t.forward
  {
    if !AdjacentDiffer(stages) {
      forall j | 0 <= j < |stages| ensures stages[j].t.forward == stages[0].t.forward {
        SameAsFirst(stages, j);
      }
    }
  }

  lemma {:induction false} SameAsFirst<S>(stages: seq<Leaf<S>>, j: nat)
    requires j < |stages| && !AdjacentDiffer(stages)
    ensures stages[j].t.forward == stages[0].t.forward
  {
    if j > 0 {
      SameAsFirst(stages, j - 1);
      assert stages[j - 1].t.forward == stages[j - 1 + 1].t.forward;
    }
  }

  /** Every stage's output for this update fits into `cap` bytes. */
  predicate UpdateFits<S>(ts: seq<Transducer<S>>, ss: seq<S>, xs: seq<byte>, cap: nat)
    requires |ss| == |ts|
  {
    ts != [] ==>
      && |Emit(ts[0], ss[0], xs)| <= cap
      && UpdateFits(ts[1..], ss[1..], Emit(ts[0], ss[0], xs), cap)
  }

  /** What one stage of the recurrence makes of `g`. */
  function StageFlush<S>(t: Transducer<S>, s: S, g: seq<byte>): seq<byte> {
    Emit(t, s, g) + t.flush(After(t, s, g))
  }

  /** Every stage's U and F parts together fit into `cap` bytes. */
  predicate FlushFits<S>(ts: seq<Transducer<S>>, ss: seq<S>, g: seq<byte>, cap: nat)
    requires |ss| == |ts|
  {
    ts != [] ==>
      && |StageFlush(ts[0], ss[0], g)| <= cap
      && FlushFits(ts[1..], ss[1..], StageFlush(ts[0], ss[0], g), cap)
  }

  /** The work that stages k, k + 1, ... still have to do on `xs`, in terms of stage k and the stages after it. */
  lemma UnfoldStage<S>(ts: seq<Transducer<S>>, ss: seq<S>, k: nat, xs: seq<byte>, cap: nat)
    requires |ss| == |ts| && k < |ts|
    ensures var ys := Emit(ts[k], ss[k], xs);
      && ChainEmit(ts[k..], ss[k..], xs) == ChainEmit(ts[k + 1..], ss[k + 1..], ys)
      && ChainAfter(ts[k..], ss[k..], xs) == [After(ts[k], ss[k], xs)] + ChainAfter(ts[k + 1..], ss[k + 1..], ys)
      && (UpdateFits(ts[k..], ss[k..], xs, cap) <==>
            |ys| <= cap && UpdateFits(ts[k + 1..], ss[k + 1..], ys, cap))
    ensures var g := StageFlush(ts[k], ss[k], xs);
      && ChainFlush(ts[k..], ss[k..], xs) == ChainFlush(ts[k + 1..], ss[k + 1..], g)
      && (FlushFits(ts[k..], ss[k..], xs, cap) <==>
            |g| <= cap && FlushFits(ts[k + 1..], ss[k + 1..], g, cap))
  {
    assert ts[k..][1..] == ts[k + 1..] && ss[k..][1..] == ss[k + 1..];
  }

  class ChainProcessor<!S> {
    const stages: seq<Leaf<S>>
    const half: nat
    const pair: array<byte>          // both halves of the buffer pair
    const finalization: array<byte>  // only used while finalizing
    const swapper: SwappingBuffer

    // History since the last Init, for as long as the chain has not been finalized.
    ghost var running: bool
    ghost var accepted: seq<byte>
    ghost var emitted: seq<byte>

    function Transducers(): (ts: seq<Transducer<S>>)
      ensures |ts| == |stages|
    {
      seq(|stages|, i requires 0 <= i < |stages| => stages[i].t)
    }

    function States(): (ss: seq<S>)
      reads stages
      ensures |ss| == |stages|
    {
      seq(|stages|, i requires 0 <= i < |stages| reads stages => stages[i].state)
    }

    function InHalf(): Span {
      Span(pair, 0, half)
    }

    function OutHalf(): Span {
      Span(pair, half, half)
    }

    ghost predicate Wired()
      reads swapper
    {
      && |stages| >= 2
      && pair != finalization
      && pair.Length == 2 * half == finalization.Length
      && swapper.swappedOut == InHalf()
      && swapper.unswappedOut == OutHalf()
    }

    /** The outputs are the two halves of the pair, and all states and outputs are those of the accepted bytes. */
    ghost predicate Valid()
      reads this, swapper, stages
    {
      && Wired()
      && Distinct(stages)
      && !AdjacentDiffer(stages)
      && (running ==>
            && States() == ChainAfter(Transducers(), Starts(Transducers()), accepted)
            && emitted == ChainEmit(Transducers(), Starts(Transducers()), accepted))
    }

    /** The objects the operations write to. */
    ghost function Repr(): set<object> {
      {this, swapper, pair, finalization} + (set leaf | leaf in stages)
    }

    constructor (stages: seq<Leaf<S>>)
      requires |stages| >= 2 && !AdjacentDiffer(stages)
      requires Distinct(stages)
      ensures Valid() && this.stages == stages && half == MaxBufferSize(stages) && !running
      ensures fresh(Repr() - (set leaf | leaf in stages))
    {
      var n := MaxBufferSize(stages);
      this.stages, half := stages, n;
      var a := new byte[2 * n];
      var b := new byte[2 * n];
      pair, finalization := a, b;
      swapper := new SwappingBuffer(Span(a, 0, n), Span(a, n, n));
      running, accepted, emitted := false, [], [];
    }

    method Init()
      requires Valid()
      modifies Repr()
      ensures Valid() && running && accepted == [] && emitted == []
    {
      ghost var ts := Transducers();
      for i := 0 to |stages|
        invariant Wired()
        invariant forall j | 0 <= j < i :: stages[j].state == ts[j].start
      {
        stages[i].Init();
      }
      running, accepted, emitted := true, [], [];
      assert States() == Starts(ts);
      ChainOnNothing(ts, Starts(ts));
    }

    /** The read span and the write span of the next stage never overlap. */
    ghost predicate Swapped(k: nat)
      requires Wired()
      reads this, swapper
    {
      && swapper.swapping == (k % 2 == 1)
      && swapper.currentOut == swapper.OriginalOut()
      && swapper.currentIn.Valid()
      && if k == 0 then swapper.currentIn.Span? ==> swapper.currentIn.buf != pair
         else swapper.currentIn.Inside(swapper.OtherOut())
    }

    /** One stage of an update, without the swap. */
    method UpdateStage(k: nat)
      requires Wired() && k < |stages|
      requires swapper.currentOut == swapper.OriginalOut()
      requires swapper.currentIn.Valid() && swapper.currentIn.Apart(swapper.currentOut)
      requires |Emit(stages[k].t, stages[k].state, swapper.currentIn.Bytes())| <= half
      modifies swapper`currentOut, pair, stages[k]
      ensures stages[k].state == After(stages[k].t, old(stages[k].state), old(swapper.currentIn.Bytes()))
      ensures swapper.currentOut.Valid() && swapper.currentOut.Inside(swapper.OriginalOut())
      ensures swapper.currentOut.Bytes() == Emit(stages[k].t, old(stages[k].state), old(swapper.currentIn.Bytes()))
    {
      var written := stages[k].Update(swapper.currentIn, swapper.currentOut);
      swapper.currentOut := written;
    }

    /** What is left to do from stage k on still produces `out` and `target`. */
    ghost predicate Pending(k: nat, ss: seq<S>, xs: seq<byte>, target: seq<S>, out: seq<byte>)
      requires |ss| == |stages| == |target| && k <= |stages|
    {
      && ChainEmit(Transducers()[k..], ss[k..], xs) == out
      && ChainAfter(Transducers()[k..], ss[k..], xs) == target[k..]
      && UpdateFits(Transducers()[k..], ss[k..], xs, half)
    }

    lemma PendingStep(k: nat, ss: seq<S>, xs: seq<byte>, target: seq<S>, out: seq<byte>)
      requires |ss| == |stages| == |target| && k < |stages| && Pending(k, ss, xs, target, out)
      ensures After(stages[k].t, ss[k], xs) == target[k]
      ensures |Emit(stages[k].t, ss[k], xs)| <= half
      ensures Pending(k + 1, ss, Emit(stages[k].t, ss[k], xs), target, out)
    {
      UnfoldStage(Transducers(), ss, k, xs, half);
      assert target[k..][0] == target[k] && target[k..][1..] == target[k + 1..];
    }

    /** The first k stages have been updated, the others not yet. */
    ghost predicate Updated(k: nat, ss: seq<S>, target: seq<S>)
      requires |ss| == |stages| == |target|
      reads stages
    {
      forall j | 0 <= j < |stages| :: stages[j].state == if j < k then target[j] else ss[j]
    }

    /** One round of the loop of an update: the stage's own state moves on, and the next stage reads what it wrote. */
    method UpdateAndSwap(k: nat, ghost ss: seq<S>, ghost target: seq<S>)
      requires Wired() && k < |stages| - 1 && |ss| == |target| == |stages|
      requires forall j | 0 <= j < |stages| && j != k :: stages[j] != stages[k]
      requires Swapped(k) && Updated(k, ss, target)
      requires After(stages[k].t, ss[k], swapper.currentIn.Bytes()) == target[k]
      requires |Emit(stages[k].t, ss[k], swapper.currentIn.Bytes())| <= half
      modifies swapper, pair, stages[k]
      ensures Wired() && Swapped(k + 1) && Updated(k + 1, ss, target)
      ensures swapper.currentIn.Bytes() == Emit(stages[k].t, ss[k], old(swapper.currentIn.Bytes()))
    {
      UpdateStage(k);
      swapper.Swap();
    }

    /** The loop of an update over a non-empty chunk. */
    method UpdateStages(input: Span, ghost target: seq<S>, ghost out: seq<byte>)
      requires Wired() && Distinct(stages) && |target| == |stages|
      requires input.Valid() && (input.Span? ==> input.buf != pair)
      requires Pending(0, States(), input.Bytes(), target, out)
      modifies swapper, pair, stages
      ensures Wired() && States() == target
      ensures swapper.currentOut.Valid()
      ensures swapper.currentOut.Inside(InHalf()) || swapper.currentOut.Inside(OutHalf())
      ensures swapper.currentOut.Bytes() == out
    {
      ghost var ss := States();
      ghost var xs := input.Bytes();
      swapper.Reset(input);
      for k := 0 to |stages| - 1
        invariant Wired() && Swapped(k) && Updated(k, ss, target)
        invariant swapper.currentIn.Bytes() == xs
        invariant Pending(k, ss, xs, target, out)
      {
        PendingStep(k, ss, xs, target, out);
        UpdateAndSwap(k, ss, target);
        xs := Emit(stages[k].t, ss[k], xs);
      }
      UpdateLast(ss, xs, target, out);
    }

    /** The final processor, without swapping. */
    method UpdateLast(ghost ss: seq<S>, ghost xs: seq<byte>, ghost target: seq<S>, ghost out: seq<byte>)
      requires Wired() && Distinct(stages) && |ss| == |target| == |stages|
      requires Swapped(|stages| - 1) && Updated(|stages| - 1, ss, target)
      requires swapper.currentIn.Bytes() == xs && Pending(|stages| - 1, ss, xs, target, out)
      modifies swapper`currentOut, pair, stages[|stages| - 1]
      ensures States() == target
      ensures swapper.currentOut.Valid() && swapper.currentOut.Inside(swapper.OriginalOut())
      ensures swapper.currentOut.Bytes() == out
    {
      PendingStep(|stages| - 1, ss, xs, target, out);
      UpdateStage(|stages| - 1);
      assert Updated(|stages|, ss, target);
    }

    /** Processes a chunk: every stage reads the output of the one before and writes into the other half. */
    method Update(input: Span) returns (output: Span)
      requires Valid() && input.Valid() && (input.Span? ==> input.buf != pair)
      requires UpdateFits(Transducers(), States(), input.Bytes(), half)
      modifies this, swapper, pair, stages
      ensures Valid() && running == old(running)
      ensures output.Valid() && (output == Nowhere || output.Inside(InHalf()) || output.Inside(OutHalf()))
      ensures output.Bytes() == ChainEmit(Transducers(), old(States()), old(input.Bytes()))
      ensures States() == ChainAfter(Transducers(), old(States()), old(input.Bytes()))
      ensures running ==> accepted == old(accepted) + old(input.Bytes()) && emitted == old(emitted) + output.Bytes()
    {
      ghost var ts, ss, xs := Transducers(), States(), input.Bytes();
      if input.Bytes() == [] {
        ChainOnNothing(ts, ss);
        output := Nowhere;
      } else {
        ghost var target, out := ChainAfter(ts, ss, xs), ChainEmit(ts, ss, xs);
        assert ts[0..] == ts && ss[0..] == ss && target[0..] == target;
        UpdateStages(input, target, out);
        output := swapper.currentOut;
      }
      if running {
        ChainRunAppend(ts, Starts(ts), accepted, xs);
        accepted, emitted := accepted + xs, emitted + output.Bytes();
      }
    }

    // -------------------------------------------------------------- finalization

    /** While finalizing, the whole pair and the finalization buffer take the places of the two halves. */
    ghost predicate Rewired()
      reads swapper
    {
      && |stages| >= 2
      && pair != finalization
      && pair.Length == 2 * half == finalization.Length
      && swapper.swappedOut == Whole(finalization)
      && swapper.unswappedOut == Whole(pair)
    }

    /** Stage k is about to read what stage k - 1 left, and to write into the whole other buffer. */
    ghost predicate FlushReady(k: nat)
      requires Rewired()
      reads this, swapper
    {
      && swapper.swapping == (k % 2 == 1)
      && swapper.currentOut == swapper.OriginalOut()
      && swapper.currentIn.Valid()
      && swapper.currentIn.Inside(swapper.OtherOut())
    }

    /** The original output minus its first n bytes. */
    function OutAfter(n: nat): Span
      requires swapper.OriginalOut().Span? && n <= swapper.OriginalOut().len
      reads swapper
    {
      var original := swapper.OriginalOut();
      Span(original.buf, original.off + n, original.len - n)
    }

    /** The U part of a stage: it stands at the start of the original output, and the output becomes what follows. */
    method FlushU(k: nat) returns (ghost u: seq<byte>)
      requires Rewired() && 0 < k < |stages| && FlushReady(k)
      requires |StageFlush(stages[k].t, stages[k].state, swapper.currentIn.Bytes())| <= 2 * half
      modifies swapper`currentOut, pair, finalization, stages[k]
      ensures u == Emit(stages[k].t, old(stages[k].state), old(swapper.currentIn.Bytes()))
      ensures stages[k].state == After(stages[k].t, old(stages[k].state), old(swapper.currentIn.Bytes()))
      ensures |u| <= 2 * half && swapper.currentOut == OutAfter(|u|)
      ensures swapper.OriginalOut().buf[..|u|] == u
    {
      var written := stages[k].Update(swapper.currentIn, swapper.currentOut);
      u := written.Bytes();
      swapper.currentOut := OutAfter(written.off + written.len - swapper.OriginalOut().off);
    }

    /** The F part of a stage: it stands right after the U part, and the output becomes both together. */
    method FlushF(k: nat, ghost u: seq<byte>)
      requires Rewired() && k < |stages|
      requires |u| + |stages[k].t.flush(stages[k].state)| <= 2 * half
      requires swapper.currentOut == OutAfter(|u|) && swapper.OriginalOut().buf[..|u|] == u
      modifies swapper`currentOut, pair, finalization, stages[k]
      ensures swapper.currentOut.Valid() && swapper.currentOut.Inside(swapper.OriginalOut())
      ensures swapper.currentOut.Bytes() == u + old(stages[k].t.flush(stages[k].state))
    {
      var written := stages[k].Finalize(swapper.currentOut);
      var original := swapper.OriginalOut();
      swapper.currentOut := Span(original.buf, original.off, written.off + written.len - original.off);
      assert original.buf[..|u| + written.len] == original.buf[..|u|] + written.Bytes();
    }

    /** G_k = U_k(G_{k-1}) ++ F_k, contiguous in the original output. */
    method FlushStage(k: nat)
      requires Rewired() && 0 < k < |stages| && FlushReady(k)
      requires |StageFlush(stages[k].t, stages[k].state, swapper.currentIn.Bytes())| <= 2 * half
      modifies swapper`currentOut, pair, finalization, stages[k]
      ensures swapper.currentOut.Valid() && swapper.currentOut.Inside(swapper.OriginalOut())
      ensures swapper.currentOut.Bytes()
           == StageFlush(stages[k].t, old(stages[k].state), old(swapper.currentIn.Bytes()))
    {
      ghost var u := FlushU(k);
      FlushF(k, u);
    }

    /** What is left to do from stage k on still produces `out`, and those stages are untouched. */
    ghost predicate PendingFlush(k: nat, ss: seq<S>, g: seq<byte>, out: seq<byte>)
      requires |ss| == |stages| && k <= |stages|
    {
      && ChainFlush(Transducers()[k..], ss[k..], g) == out
      && FlushFits(Transducers()[k..], ss[k..], g, 2 * half)
    }

    ghost predicate UntouchedFrom(k: nat, ss: seq<S>)
      requires |ss| == |stages|
      reads stages
    {
      forall j | k <= j < |stages| :: stages[j].state == ss[j]
    }

    lemma PendingFlushStep(k: nat, ss: seq<S>, g: seq<byte>, out: seq<byte>)
      requires |ss| == |stages| && k < |stages| && PendingFlush(k, ss, g, out)
      ensures |StageFlush(stages[k].t, ss[k], g)| <= 2 * half
      ensures PendingFlush(k + 1, ss, StageFlush(stages[k].t, ss[k], g), out)
    {
      UnfoldStage(Transducers(), ss, k, g, 2 * half);
    }

    /** One round of the loop of the finalization. */
    method FlushAndSwap(k: nat, ghost ss: seq<S>, ghost out: seq<byte>)
      requires Rewired() && 0 < k < |stages| - 1 && |ss| == |stages|
      requires forall j | 0 <= j < |stages| && j != k :: stages[j] != stages[k]
      requires FlushReady(k) && UntouchedFrom(k, ss) && PendingFlush(k, ss, swapper.currentIn.Bytes(), out)
      modifies swapper, pair, finalization, stages[k]
      ensures Rewired() && FlushReady(k + 1) && UntouchedFrom(k + 1, ss)
      ensures PendingFlush(k + 1, ss, swapper.currentIn.Bytes(), out)
    {
      PendingFlushStep(k, ss, swapper.currentIn.Bytes(), out);
      FlushStage(k);
      swapper.Swap();
    }

    /** G_1 = F_1. */
    method FlushFirst(ghost ss: seq<S>, ghost out: seq<byte>)
      requires Rewired() && |ss| == |stages|
      requires forall j | 0 < j < |stages| :: stages[j] != stages[0]
      requires !swapper.swapping && swapper.currentOut == swapper.OriginalOut()
      requires UntouchedFrom(0, ss) && PendingFlush(0, ss, [], out)
      modifies swapper, pair, stages[0]
      ensures Rewired() && FlushReady(1) && UntouchedFrom(1, ss)
      ensures PendingFlush(1, ss, swapper.currentIn.Bytes(), out)
    {
      PendingFlushStep(0, ss, [], out);
      var first := stages[0].Finalize(swapper.currentOut);
      assert first.Bytes() == StageFlush(stages[0].t, ss[0], []);
      swapper.currentOut := first;
      swapper.Swap();
    }

    /** The finalization over the replaced outputs. */
    method FlushStages(ghost out: seq<byte>)
      requires Rewired() && Distinct(stages)
      requires !swapper.swapping && swapper.currentOut == swapper.OriginalOut()
      requires PendingFlush(0, States(), [], out)
      modifies swapper, pair, finalization, stages
      ensures Rewired() && swapper.currentOut.Valid()
      ensures swapper.currentOut.Inside(Whole(pair)) || swapper.currentOut.Inside(Whole(finalization))
      ensures swapper.currentOut.Bytes() == out
    {
      ghost var ss := States();
      FlushFirst(ss, out);
      for k := 1 to |stages| - 1
        invariant Rewired() && FlushReady(k) && UntouchedFrom(k, ss)
        invariant PendingFlush(k, ss, swapper.currentIn.Bytes(), out)
      {
        FlushAndSwap(k, ss, out);
      }
      PendingFlushStep(|stages| - 1, ss, swapper.currentIn.Bytes(), out);
      FlushStage(|stages| - 1);
    }

    /** Emits the last piece. With the outputs of the updates since `Init` it makes up the composition of all the
        transforms on everything that was accepted; afterwards the chain is wired for its next run. */
    method Finalize() returns (output: Span)
      requires Valid()
      requires FlushFits(Transducers(), States(), [], 2 * half)
      modifies this, swapper, pair, finalization, stages
      ensures Valid() && !running
      ensures output.Valid() && (output.Inside(Whole(pair)) || output.Inside(Whole(finalization)))
      ensures output.Bytes() == ChainFlush(Transducers(), old(States()), [])
      ensures old(running) ==> old(emitted) + output.Bytes() == Compose(Transducers(), old(accepted))
    {
      ghost var ts, ss := Transducers(), States();
      ghost var out := ChainFlush(ts, ss, []);
      assert ts[0..] == ts && ss[0..] == ss;
      var saved := swapper.SetTemporaryOut(Whole(finalization), Whole(pair));
      FlushStages(out);
      output := swapper.currentOut;
      swapper.Restore(saved);
      if running {
        ChainIsComposition(ts, accepted, []);
        assert accepted + [] == accepted;
      }
      running := false;
    }
  }

  /** Makes a chain, or tells why the processors cannot be chained. */
  method Chain<S>(stages: seq<Leaf<S>>) returns (r: Result<ChainProcessor<S>, ChainError>)
    requires Distinct(stages)
    ensures |stages| < 2 ==> r == Failure(TooFewProcessors)
    ensures |stages| >= 2 ==>
              if forall i, j | 0 <= i < j < |stages| :: stages[i].t.forward == stages[j].t.forward
              then r.Success? && r.value.Valid() && r.value.stages == stages && r.value.half == MaxBufferSize(stages)
              else r == Failure(MixedDirections)
  {
    AdjacentSuffice(stages);
    if |stages| < 2 {
      return Failure(TooFewProcessors);
    }
    if AdjacentDiffer(stages) {
      return Failure(MixedDirections);
    }
    var chain := new ChainProcessor(stages);
    r := Success(chain);
  }
}
