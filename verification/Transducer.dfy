/** Byte transducers: what a chunk processor computes, apart from where it puts the bytes.

A leaf processor has a state, reacts to every input byte by emitting some bytes, and emits a last piece when it
is finalized. A chain of processors is a sequence of transducers together with the sequence of their states. */
module Transducers {

  import opened Bytes

  /** `forward` tells an encoder from a decoder. */
  datatype Transducer<!S> = Transducer(
    start: S,
    step: (S, byte) -> (S, seq<byte>),
    flush: S -> seq<byte>,
    forward: bool)

  /** The state after consuming `xs`. */
  function After<S>(t: Transducer<S>, s: S, xs: seq<byte>): S {
    if xs == [] then s else After(t, t.step(s, xs[0]).0, xs[1..])
  }

  /** The bytes emitted while consuming `xs`, one `update` call in the source. */
  function Emit<S>(t: Transducer<S>, s: S, xs: seq<byte>): seq<byte> {
    if xs == [] then [] else t.step(s, xs[0]).1 + Emit(t, t.step(s, xs[0]).0, xs[1..])
  }

  /** A whole run on `xs`: initialize, one update, finalize. */
  function Transform<S>(t: Transducer<S>, xs: seq<byte>): seq<byte> {
    Emit(t, t.start, xs) + t.flush(After(t, t.start, xs))
  }

  function Concat(chunks: seq<seq<byte>>): seq<byte> {
    if chunks == [] then [] else chunks[0] + Concat(chunks[1..])
  }

  lemma {:induction false} RunAppend<S>(t: Transducer<S>, s: S, xs: seq<byte>, ys: seq<byte>)
    ensures After(t, s, xs + ys) == After(t, After(t, s, xs), ys)
    ensures Emit(t, s, xs + ys) == Emit(t, s, xs) + Emit(t, After(t, s, xs), ys)
  {
    if xs == [] {
      assert xs + ys == ys;
    } else {
      assert (xs + ys)[1..] == xs[1..] + ys;
      RunAppend(t, t.step(s, xs[0]).0, xs[1..], ys);
    }
  }

  /** One byte makes one step. */
  lemma {:induction false} OneByte<S>(t: Transducer<S>, s: S, x: byte)
    ensures After(t, s, [x]) == t.step(s, x).0 && Emit(t, s, [x]) == t.step(s, x).1
  {
    assert [x][1..] == [];
    assert t.step(s, x).1 + [] == t.step(s, x).1;
  }

  /** The k-th step of a run: what it reacts to is the state after the first k bytes. */
  lemma {:induction false} NextByte<S>(t: Transducer<S>, s: S, xs: seq<byte>, k: nat)
    requires k < |xs|
    ensures After(t, s, xs[..k + 1]) == t.step(After(t, s, xs[..k]), xs[k]).0
    ensures Emit(t, s, xs[..k + 1]) == Emit(t, s, xs[..k]) + t.step(After(t, s, xs[..k]), xs[k]).1
  {
    assert xs[..k + 1] == xs[..k] + [xs[k]];
    RunAppend(t, s, xs[..k], [xs[k]]);
    OneByte(t, After(t, s, xs[..k]), xs[k]);
  }

  /** What is emitted is what the steps emit, one after the other. */
  lemma {:induction false} EmitIsConcatenation<S>(t: Transducer<S>, s: S, xs: seq<byte>, n: nat)
    requires n <= |xs|
    ensures Emit(t, s, xs[..n])
         == Concat(seq(n, k requires 0 <= k < n => t.step(After(t, s, xs[..k]), xs[k]).1))
    decreases n
  {
    var pieces := seq(n, k requires 0 <= k < n => t.step(After(t, s, xs[..k]), xs[k]).1);
    if n > 0 {
      var before := seq(n - 1, k requires 0 <= k < n - 1 => t.step(After(t, s, xs[..k]), xs[k]).1);
      EmitIsConcatenation(t, s, xs, n - 1);
      NextByte(t, s, xs, n - 1);
      assert pieces == before + [pieces[n - 1]];
      ConcatAppend(before, [pieces[n - 1]]);
      ConcatOne(pieces[n - 1]);
    } else {
      assert xs[..0] == [];
    }
  }

  lemma {:induction false} ConcatOne(chunk: seq<byte>)
    ensures Concat([chunk]) == chunk
  {
    assert [chunk][1..] == [];
    assert chunk + [] == chunk;
  }

  /** One byte for one step and two runs for two inputs: no other pair of functions does that. */
  lemma {:induction false} RunIsUnique<S>(
      t: Transducer<S>, after: (S, seq<byte>) -> S, emit: (S, seq<byte>) -> seq<byte>, s: S, xs: seq<byte>)
    requires forall s, x :: after(s, [x]) == t.step(s, x).0 && emit(s, [x]) == t.step(s, x).1
    requires forall s :: after(s, []) == s && emit(s, []) == []
    requires forall s, xs, ys :: after(s, xs + ys) == after(after(s, xs), ys)
    requires forall s, xs, ys :: emit(s, xs + ys) == emit(s, xs) + emit(after(s, xs), ys)
    ensures after(s, xs) == After(t, s, xs) && emit(s, xs) == Emit(t, s, xs)
    decreases |xs|
  {
    if xs != [] {
      assert xs == [xs[0]] + xs[1..];
      RunIsUnique(t, after, emit, t.step(s, xs[0]).0, xs[1..]);
    }
  }

  lemma {:induction false} ConcatAppend(a: seq<seq<byte>>, b: seq<seq<byte>>)
    ensures Concat(a + b) == Concat(a) + Concat(b)
  {
    if a == [] {
      assert a + b == b;
    } else {
      assert (a + b)[1..] == a[1..] + b;
      ConcatAppend(a[1..], b);
    }
  }

  /** One output per input chunk, the state carried along. */
  function EmitChunks<S>(t: Transducer<S>, s: S, chunks: seq<seq<byte>>): (outs: seq<seq<byte>>)
    ensures |outs| == |chunks|
  {
    if chunks == [] then [] else [Emit(t, s, chunks[0])] + EmitChunks(t, After(t, s, chunks[0]), chunks[1..])
  }

  /** How the input is cut into chunks does not matter to a single transducer. */
  lemma {:induction false} SplitIndependence<S>(t: Transducer<S>, s: S, chunks: seq<seq<byte>>)
    ensures Concat(EmitChunks(t, s, chunks)) == Emit(t, s, Concat(chunks))
  {
    if chunks != [] {
      var s' := After(t, s, chunks[0]);
      SplitIndependence(t, s', chunks[1..]);
      RunAppend(t, s, chunks[0], Concat(chunks[1..]));
      assert EmitChunks(t, s, chunks)[1..] == EmitChunks(t, s', chunks[1..]);
    }
  }

  // ---------------------------------------------------------------- chains

  /** T_n(... T_1(xs)): the composition of the whole transforms. */
  function Compose<S>(ts: seq<Transducer<S>>, xs: seq<byte>): seq<byte> {
    if ts == [] then xs else Compose(ts[1..], Transform(ts[0], xs))
  }

  function Starts<S>(ts: seq<Transducer<S>>): (ss: seq<S>)
    ensures |ss| == |ts|
  {
    seq(|ts|, i requires 0 <= i < |ts| => ts[i].start)
  }

  /** The bytes the chain emits when `xs` goes through every stage in turn. */
  function ChainEmit<S>(ts: seq<Transducer<S>>, ss: seq<S>, xs: seq<byte>): seq<byte>
    requires |ss| == |ts|
  {
    if ts == [] then xs else ChainEmit(ts[1..], ss[1..], Emit(ts[0], ss[0], xs))
  }

  /** The states of all stages after `xs` went through the chain. */
  function ChainAfter<S>(ts: seq<Transducer<S>>, ss: seq<S>, xs: seq<byte>): (ss': seq<S>)
    requires |ss| == |ts|
    ensures |ss'| == |ts|
  {
    if ts == [] then [] else [After(ts[0], ss[0], xs)] + ChainAfter(ts[1..], ss[1..], Emit(ts[0], ss[0], xs))
  }

  /** The recurrence of the chain's finalization: given G of the stages before, G_n = U_n(G_{n-1}) ++ F_n. */
  function ChainFlush<S>(ts: seq<Transducer<S>>, ss: seq<S>, g: seq<byte>): seq<byte>
    requires |ss| == |ts|
  {
    if ts == [] then g
    else ChainFlush(ts[1..], ss[1..], Emit(ts[0], ss[0], g) + ts[0].flush(After(ts[0], ss[0], g)))
  }

  /** The states after feeding the chunks one `update` call each. */
  function ChainAfterAll<S>(ts: seq<Transducer<S>>, ss: seq<S>, chunks: seq<seq<byte>>): (ss': seq<S>)
    requires |ss| == |ts|
    ensures |ss'| == |ts|
    decreases |chunks|
  {
    if chunks == [] then ss else ChainAfterAll(ts, ChainAfter(ts, ss, chunks[0]), chunks[1..])
  }

  /** The concatenated outputs of feeding the chunks one `update` call each. */
  function ChainEmitAll<S>(ts: seq<Transducer<S>>, ss: seq<S>, chunks: seq<seq<byte>>): seq<byte>
    requires |ss| == |ts|
    decreases |chunks|
  {
    if chunks == [] then []
    else ChainEmit(ts, ss, chunks[0]) + ChainEmitAll(ts, ChainAfter(ts, ss, chunks[0]), chunks[1..])
  }

  lemma {:induction false} ChainRunAppend<S>(ts: seq<Transducer<S>>, ss: seq<S>, xs: seq<byte>, ys: seq<byte>)
    requires |ss| == |ts|
    ensures ChainAfter(ts, ss, xs + ys) == ChainAfter(ts, ChainAfter(ts, ss, xs), ys)
    ensures ChainEmit(ts, ss, xs + ys) == ChainEmit(ts, ss, xs) + ChainEmit(ts, ChainAfter(ts, ss, xs), ys)
  {
    if ts != [] {
      RunAppend(ts[0], ss[0], xs, ys);
      var s' := After(ts[0], ss[0], xs);
      ChainRunAppend(ts[1..], ss[1..], Emit(ts[0], ss[0], xs), Emit(ts[0], s', ys));
      assert ChainAfter(ts, ss, xs)[1..] == ChainAfter(ts[1..], ss[1..], Emit(ts[0], ss[0], xs));
    }
  }

  /** Update calls on chunks amount to one update call on their concatenation. */
  lemma {:induction false} ChainSplitIndependence<S>(ts: seq<Transducer<S>>, ss: seq<S>, chunks: seq<seq<byte>>)
    requires |ss| == |ts|
    ensures ChainEmitAll(ts, ss, chunks) == ChainEmit(ts, ss, Concat(chunks))
    ensures ChainAfterAll(ts, ss, chunks) == ChainAfter(ts, ss, Concat(chunks))
    decreases |chunks|
  {
    if chunks == [] {
      ChainOnNothing(ts, ss);
    } else {
      ChainSplitIndependence(ts, ChainAfter(ts, ss, chunks[0]), chunks[1..]);
      ChainRunAppend(ts, ss, chunks[0], Concat(chunks[1..]));
    }
  }

  /** An empty update leaves every stage alone, which is why the chain may skip it. */
  lemma {:induction false} ChainOnNothing<S>(ts: seq<Transducer<S>>, ss: seq<S>)
    requires |ss| == |ts|
    ensures ChainEmit(ts, ss, []) == []
    ensures ChainAfter(ts, ss, []) == ss
  {
    if ts != [] {
      ChainOnNothing(ts[1..], ss[1..]);
    }
  }

  /** Emitted so far, then the recurrence: together they are the composition of the transforms. */
  lemma {:induction false} ChainIsComposition<S>(ts: seq<Transducer<S>>, xs: seq<byte>, g: seq<byte>)
    ensures ChainEmit(ts, Starts(ts), xs) + ChainFlush(ts, ChainAfter(ts, Starts(ts), xs), g) == Compose(ts, xs + g)
  {
    if ts != [] {
      var t, ss := ts[0], Starts(ts);
      var s' := After(t, t.start, xs);
      assert Starts(ts)[1..] == Starts(ts[1..]);
      RunAppend(t, t.start, xs, g);
      var xs' := Emit(t, t.start, xs);
      var g' := Emit(t, s', g) + t.flush(After(t, s', g));
      ChainIsComposition(ts[1..], xs', g');
      assert xs' + g' == Transform(t, xs + g);
      assert ChainAfter(ts, ss, xs)[1..] == ChainAfter(ts[1..], ss[1..], xs');
    }
  }

  /** The main theorem about chains: for every way to cut the input, the outputs of the update calls followed by
      the output of the finalization are T_n(... T_1(the whole input)). */
  lemma ChainTheorem<S>(ts: seq<Transducer<S>>, chunks: seq<seq<byte>>)
    ensures ChainEmitAll(ts, Starts(ts), chunks) + ChainFlush(ts, ChainAfterAll(ts, Starts(ts), chunks), [])
         == Compose(ts, Concat(chunks))
  {
    ChainSplitIndependence(ts, Starts(ts), chunks);
    ChainIsComposition(ts, Concat(chunks), []);
    assert Concat(chunks) + [] == Concat(chunks);
  }
}
