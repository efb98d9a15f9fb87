/** When the outputs of the stages fit: from how much each leaf can grow what it is given. */
module ChainRooms {
  import opened Bytes
  import opened Gcds
  import opened Transducers
  import opened LeafProcessors
  import opened Spans
  import opened ChainProcessors

  /** At most `num` bytes for every `den` bytes of input, and `slack` bytes that were held back. */
  datatype Growth = Growth(num: nat, den: nat, slack: nat) {
    function Bound(n: nat): nat
      requires den > 0
    {
      n * num / den + slack
    }
  }

  /** In every run, updates emit within the bound, and the finalization what may have been held back. */
  ghost predicate Grows<S>(t: Transducer<S>, g: Growth) {
    && g.den > 0
    && (forall seen, xs :: |Emit(t, After(t, t.start, seen), xs)| <= g.Bound(|xs|))
    && (forall seen :: |t.flush(After(t, t.start, seen))| <= g.slack)
  }

  predicate Proper(gs: seq<Growth>) {
    forall i | 0 <= i < |gs| :: gs[i].den > 0
  }

  /** Growing from n bytes stage by stage, an update never needs more than `cap` bytes. */
  predicate UpdateRoom(gs: seq<Growth>, n: nat, cap: nat)
    requires Proper(gs)
  {
    gs != [] ==> gs[0].Bound(n) <= cap && UpdateRoom(gs[1..], gs[0].Bound(n), cap)
  }

  /** The same for the finalization, where every stage also emits what it held back. */
  predicate FlushRoom(gs: seq<Growth>, n: nat, cap: nat)
    requires Proper(gs)
  {
    gs != [] ==>
      && gs[0].Bound(n) + gs[0].slack <= cap
      && FlushRoom(gs[1..], gs[0].Bound(n) + gs[0].slack, cap)
  }

  lemma {:induction false} CancelLess(d: nat, m: nat, n: nat)
    requires d * m < d * n
    ensures m < n
  {
  }

  lemma {:induction false} Spread(d: nat, m: nat, n: nat)
    ensures d * (m + n) == d * m + d * n
  {
  }

  lemma {:induction false} QuotientAtLeast(d: nat, q: nat, n: nat)
    requires d > 0 && d * q <= n
    ensures q <= n / d
  {
    Spread(d, n / d, 1);
    CancelLess(d, q, n / d + 1);
  }

  lemma {:induction false} BoundMonotone(g: Growth, m: nat, n: nat)
    requires g.den > 0 && m <= n
    ensures g.Bound(m) <= g.Bound(n)
  {
    assert m * g.num <= n * g.num;
    QuotientAtLeast(g.den, m * g.num / g.den, n * g.num);
  }

  /** Less input needs no more room. */
  lemma {:induction false} RoomMonotone(gs: seq<Growth>, m: nat, n: nat, cap: nat)
    requires Proper(gs) && m <= n
    ensures UpdateRoom(gs, n, cap) ==> UpdateRoom(gs, m, cap)
    ensures FlushRoom(gs, n, cap) ==> FlushRoom(gs, m, cap)
    decreases |gs|
  {
    if gs != [] {
      BoundMonotone(gs[0], m, n);
      RoomMonotone(gs[1..], gs[0].Bound(m), gs[0].Bound(n), cap);
      RoomMonotone(gs[1..], gs[0].Bound(m) + gs[0].slack, gs[0].Bound(n) + gs[0].slack, cap);
    }
  }

  /** The states of the later stages, after what the first one made of the input so far. */
  lemma {:induction false} LaterStates<S>(ts: seq<Transducer<S>>, seen: seq<byte>)
    requires ts != []
    ensures ChainAfter(ts, Starts(ts), seen)[0] == After(ts[0], ts[0].start, seen)
    ensures ChainAfter(ts, Starts(ts), seen)[1..]
         == ChainAfter(ts[1..], Starts(ts[1..]), Emit(ts[0], ts[0].start, seen))
  {
    assert Starts(ts)[1..] == Starts(ts[1..]);
  }

  lemma {:induction false} RoomForUpdate<S>(
      ts: seq<Transducer<S>>, gs: seq<Growth>, seen: seq<byte>, xs: seq<byte>, cap: nat)
    requires |gs| == |ts| && Proper(gs) && forall i | 0 <= i < |ts| :: Grows(ts[i], gs[i])
    requires UpdateRoom(gs, |xs|, cap)
    ensures UpdateFits(ts, ChainAfter(ts, Starts(ts), seen), xs, cap)
    decreases |ts|
  {
    if ts != [] {
      var ys := Emit(ts[0], After(ts[0], ts[0].start, seen), xs);
      LaterStates(ts, seen);
      RoomMonotone(gs[1..], |ys|, gs[0].Bound(|xs|), cap);
      RoomForUpdate(ts[1..], gs[1..], Emit(ts[0], ts[0].start, seen), ys, cap);
    }
  }

  lemma {:induction false} StageFlushGrows<S>(t: Transducer<S>, growth: Growth, seen: seq<byte>, g: seq<byte>)
    requires Grows(t, growth)
    ensures |StageFlush(t, After(t, t.start, seen), g)| <= growth.Bound(|g|) + growth.slack
  {
    RunAppend(t, t.start, seen, g);
    assert |t.flush(After(t, t.start, seen + g))| <= growth.slack;
  }

  lemma {:induction false} RoomForFlush<S>(
      ts: seq<Transducer<S>>, gs: seq<Growth>, seen: seq<byte>, g: seq<byte>, cap: nat)
    requires |gs| == |ts| && Proper(gs) && forall i | 0 <= i < |ts| :: Grows(ts[i], gs[i])
    requires FlushRoom(gs, |g|, cap)
    ensures FlushFits(ts, ChainAfter(ts, Starts(ts), seen), g, cap)
    decreases |ts|
  {
    if ts != [] {
      var h := StageFlush(ts[0], After(ts[0], ts[0].start, seen), g);
      LaterStates(ts, seen);
      StageFlushGrows(ts[0], gs[0], seen, g);
      RoomMonotone(gs[1..], |h|, gs[0].Bound(|g|) + gs[0].slack, cap);
      RoomForFlush(ts[1..], gs[1..], Emit(ts[0], ts[0].start, seen), h, cap);
    }
  }

  /** A condition on each leaf alone: if the growths of the stages, one after the other, stay within the halves for an
      update on `xs`, and within the whole buffers for the finalization, then both fit in every run. */
  lemma {:induction false} RoomForChain<S>(
      ts: seq<Transducer<S>>, gs: seq<Growth>, seen: seq<byte>, xs: seq<byte>, half: nat)
    requires |gs| == |ts| && Proper(gs) && forall i | 0 <= i < |ts| :: Grows(ts[i], gs[i])
    requires UpdateRoom(gs, |xs|, half) && FlushRoom(gs, 0, 2 * half)
    ensures UpdateFits(ts, ChainAfter(ts, Starts(ts), seen), xs, half)
    ensures FlushFits(ts, ChainAfter(ts, Starts(ts), seen), [], 2 * half)
  {
    RoomForUpdate(ts, gs, seen, xs, half);
    RoomForFlush(ts, gs, seen, [], 2 * half);
  }

  // ---------------------------------------------------------------- leaves that keep the length but for some slack

  /** The growth of a leaf that emits at most `b` bytes more than it is given. */
  function Slack(b: nat): Growth {
    Growth(1, 1, b)
  }

  lemma {:induction false} SlackBound(b: nat, n: nat)
    ensures Slack(b).Bound(n) == n + b
  {
  }

  lemma {:induction false} OneMore(k: nat, b: nat)
    requires k > 0
    ensures k * b == (k - 1) * b + b && (k - 1) * b >= 0
  {
  }

  predicate AllSlack(gs: seq<Growth>, b: nat) {
    forall i | 0 <= i < |gs| :: gs[i] == Slack(b)
  }

  /** For k leaves with slack b an update needs room for k * b bytes more than its input. */
  lemma {:induction false} SlackUpdateRoom(gs: seq<Growth>, b: nat, n: nat, cap: nat)
    requires AllSlack(gs, b) && n <= cap
    ensures Proper(gs) && (UpdateRoom(gs, n, cap) <==> n + |gs| * b <= cap)
    decreases |gs|
  {
    if gs != [] {
      SlackBound(b, n);
      OneMore(|gs|, b);
      if n + b <= cap {
        SlackUpdateRoom(gs[1..], b, n + b, cap);
      }
    }
  }

  /** The finalization needs twice that. */
  lemma {:induction false} SlackFlushRoom(gs: seq<Growth>, b: nat, n: nat, cap: nat)
    requires AllSlack(gs, b) && n <= cap
    ensures Proper(gs) && (FlushRoom(gs, n, cap) <==> n + |gs| * (2 * b) <= cap)
    decreases |gs|
  {
    if gs != [] {
      SlackBound(b, n);
      OneMore(|gs|, 2 * b);
      if n + 2 * b <= cap {
        SlackFlushRoom(gs[1..], b, n + 2 * b, cap);
      }
    }
  }

  /** Room for a whole chain with the same slack everywhere. */
  lemma {:induction false} SlackRoom(gs: seq<Growth>, b: nat, n: nat, half: nat)
    requires AllSlack(gs, b) && n + |gs| * b <= half
    ensures Proper(gs) && UpdateRoom(gs, n, half) && FlushRoom(gs, 0, 2 * half)
  {
    assert |gs| * (2 * b) == 2 * (|gs| * b);
    assert |gs| * b >= 0;
    SlackUpdateRoom(gs, b, n, half);
    SlackFlushRoom(gs, b, 0, 2 * half);
  }

  /** A chain of leaves with slack b, such as ciphers with blocks of b bytes, in terms of its length. */
  lemma {:induction false} RoomForSlack<S>(ts: seq<Transducer<S>>, b: nat, seen: seq<byte>, xs: seq<byte>, half: nat)
    requires forall i | 0 <= i < |ts| :: Grows(ts[i], Slack(b))
    requires |xs| + |ts| * b <= half
    ensures UpdateFits(ts, ChainAfter(ts, Starts(ts), seen), xs, half)
    ensures FlushFits(ts, ChainAfter(ts, Starts(ts), seen), [], 2 * half)
  {
    var gs := seq(|ts|, _ => Slack(b));
    SlackRoom(gs, b, |xs|, half);
    RoomForChain(ts, gs, seen, xs, half);
  }

  // ---------------------------------------------------------------- which leaves grow how

  /** Bookkeeping of a leaf: `held` weighs what a state still owes, out of which it pays for what it emits. */
  ghost predicate PaysFor<S(!new)>(t: Transducer<S>, g: Growth, held: S -> nat) {
    && g.den > 0
    && held(t.start) <= g.den * g.slack
    && (forall s, x :: held(s) <= g.den * g.slack ==>
          && held(t.step(s, x).0) <= g.den * g.slack
          && g.den * |t.step(s, x).1| + held(t.step(s, x).0) <= g.num + held(s))
    && (forall s :: held(s) <= g.den * g.slack ==> |t.flush(s)| <= g.slack)
  }

  lemma {:induction false} PaidRun<S(!new)>(t: Transducer<S>, g: Growth, held: S -> nat, s: S, xs: seq<byte>)
    requires PaysFor(t, g, held) && held(s) <= g.den * g.slack
    ensures held(After(t, s, xs)) <= g.den * g.slack
    ensures g.den * |Emit(t, s, xs)| + held(After(t, s, xs)) <= |xs| * g.num + held(s)
    decreases |xs|
  {
    if xs != [] {
      var (s', ys) := t.step(s, xs[0]);
      PaidRun(t, g, held, s', xs[1..]);
      Spread(g.den, |ys|, |Emit(t, s', xs[1..])|);
      OneMore(|xs|, g.num);
    }
  }

  lemma {:induction false} PaidBound(d: nat, slack: nat, m: nat, n: nat)
    requires d > 0 && d * m <= n + d * slack
    ensures m <= n / d + slack
  {
    if m > slack {
      Spread(d, m - slack, slack);
      QuotientAtLeast(d, m - slack, n);
    }
  }

  /** A leaf that pays for what it emits grows accordingly. */
  lemma {:induction false} PayingGrows<S(!new)>(t: Transducer<S>, g: Growth, held: S -> nat)
    requires PaysFor(t, g, held)
    ensures Grows(t, g)
  {
    forall seen, xs ensures |Emit(t, After(t, t.start, seen), xs)| <= g.Bound(|xs|) {
      var s := After(t, t.start, seen);
      PaidRun(t, g, held, t.start, seen);
      PaidRun(t, g, held, s, xs);
      PaidBound(g.den, g.slack, |Emit(t, s, xs)|, |xs| * g.num);
    }
    forall seen ensures |t.flush(After(t, t.start, seen))| <= g.slack {
      PaidRun(t, g, held, t.start, seen);
    }
  }

  /** A leaf without a memory that maps every byte to one byte. */
  function ByteMap(f: byte -> byte, forward: bool): Transducer<()> {
    Transducer((), (s, x) => ((), [f(x)]), s => [], forward)
  }

  /** It keeps the length exactly. */
  lemma {:induction false} LengthPreserving(f: byte -> byte, forward: bool)
    ensures Grows(ByteMap(f, forward), Slack(0))
  {
    PayingGrows(ByteMap(f, forward), Slack(0), s => 0);
  }

  /** A leaf that collects `take` bytes and turns them into `give`; `last` is what it makes of an incomplete group. */
  function Grouping(take: nat, code: seq<byte> -> seq<byte>, last: seq<byte> -> seq<byte>, forward: bool)
    : Transducer<seq<byte>>
  {
    Transducer([], (s, x) => if |s| + 1 < take then (s + [x], []) else ([], code(s + [x])), last, forward)
  }

  /** A group is turned into its code when it is complete, and nothing of it is held back then. */
  lemma {:induction false} GroupCompletes(
      take: nat, code: seq<byte> -> seq<byte>, last: seq<byte> -> seq<byte>, forward: bool, s: seq<byte>, xs: seq<byte>)
    requires xs != [] && |s| + |xs| == take
    ensures Emit(Grouping(take, code, last, forward), s, xs) == code(s + xs)
    ensures After(Grouping(take, code, last, forward), s, xs) == []
    decreases |xs|
  {
    var t := Grouping(take, code, last, forward);
    if |xs| == 1 {
      assert xs == [xs[0]];
      OneByte(t, s, xs[0]);
    } else {
      GroupCompletes(take, code, last, forward, s + [xs[0]], xs[1..]);
      assert s + [xs[0]] + xs[1..] == s + xs;
      assert [] + code(s + xs) == code(s + xs);
    }
  }

  /** What an incomplete group weighs; no state holds a complete one. */
  function GroupHeld(take: nat, give: nat, s: seq<byte>): nat {
    if |s| < take then give * |s| else take * give + 1
  }

  lemma {:induction false} GroupPays(take: nat, give: nat, code: seq<byte> -> seq<byte>, s: seq<byte>, x: byte)
    requires take > 0 && |s| < take && |code(s + [x])| <= give
    ensures |s| + 1 < take ==> GroupHeld(take, give, s + [x]) == give + GroupHeld(take, give, s) <= take * give
    ensures |s| + 1 == take ==> take * |code(s + [x])| <= give + GroupHeld(take, give, s)
  {
    if |s| + 1 < take {
      Spread(give, |s|, 1);
      Spread(give, |s| + 1, take - |s| - 1);
    } else {
      Spread(take, |code(s + [x])|, give - |code(s + [x])|);
      Spread(give, 1, take - 1);
    }
  }

  /** Block ciphers (as many bytes as they take), Base64 encoders (four for three) and decoders (three for four) grow
      by the ratio of their groups, and by one group that was held back. */
  lemma {:induction false} GroupingGrows(
      take: nat, give: nat, code: seq<byte> -> seq<byte>, last: seq<byte> -> seq<byte>, forward: bool)
    requires take > 0 && forall s :: |code(s)| <= give && |last(s)| <= give
    ensures Grows(Grouping(take, code, last, forward), Growth(give, take, give))
  {
    var t := Grouping(take, code, last, forward);
    var held := (s: seq<byte>) => GroupHeld(take, give, s);
    forall s: seq<byte>, x: byte | held(s) <= take * give
      ensures held(t.step(s, x).0) <= take * give
      ensures take * |t.step(s, x).1| + held(t.step(s, x).0) <= give + held(s)
    {
      GroupPays(take, give, code, s, x);
    }
    PayingGrows(t, Growth(give, take, give), held);
  }

  /** A block cipher keeps the length but for one block. */
  lemma {:induction false} BlocksGrow(
      block: nat, code: seq<byte> -> seq<byte>, last: seq<byte> -> seq<byte>, forward: bool)
    requires block > 0 && forall s :: |code(s)| <= block && |last(s)| <= block
    ensures Grows(Grouping(block, code, last, forward), Slack(block))
  {
    var t := Grouping(block, code, last, forward);
    GroupingGrows(block, block, code, last, forward);
    forall seen, xs ensures |Emit(t, After(t, t.start, seen), xs)| <= Slack(block).Bound(|xs|) {
      NatQuotient(block, |xs|);
      assert |xs| * block == block * |xs|;
      SlackBound(block, |xs|);
      assert |Emit(t, After(t, t.start, seen), xs)| <= Growth(block, block, block).Bound(|xs|);
    }
  }

  /** What a Base64 encoder makes of a chunk and of two blocks that a cipher held back fits into 8192 bytes. */
  lemma {:induction false} EncoderRoom(n: nat)
    requires n <= 4128
    ensures Growth(65, 48, 65).Bound(n) <= 5655
  {
    BoundMonotone(Growth(65, 48, 65), n, 4128);
  }

  /** A chain of the repository's own leaves: a cipher and a Base64 encoder, on chunks of up to 4096 bytes in the
      halves of 8192 bytes that the chain makes for them. */
  lemma {:induction false} CipherThenBase64<S>(
      cipher: Transducer<S>, encoder: Transducer<S>, block: nat, seen: seq<byte>, xs: seq<byte>)
    requires block <= 32 && Grows(cipher, Slack(block)) && Grows(encoder, Growth(65, 48, 65)) && |xs| <= 4096
    ensures var ts := [cipher, encoder];
      && UpdateFits(ts, ChainAfter(ts, Starts(ts), seen), xs, 8192)
      && FlushFits(ts, ChainAfter(ts, Starts(ts), seen), [], 16384)
  {
    var ts, gs := [cipher, encoder], [Slack(block), Growth(65, 48, 65)];
    assert gs[1..] == [Growth(65, 48, 65)] && gs[1..][1..] == [];
    SlackBound(block, |xs|);
    SlackBound(block, 0);
    EncoderRoom(|xs| + block);
    EncoderRoom(block + block);
    RoomForChain(ts, gs, seen, xs, 8192);
  }

  /** How much a leaf grows tells for which buffers its outputs fit. */
  lemma {:induction false} GrowthFits<S>(t: Transducer<S>, g: Growth, inSize: nat, outSize: nat)
    requires Grows(t, g) && g.Bound(inSize) <= outSize
    ensures Fits(t, inSize, outSize)
  {
    forall seen, xs: seq<byte> | |xs| <= inSize ensures |Emit(t, After(t, t.start, seen), xs)| <= outSize {
      BoundMonotone(g, |xs|, inSize);
    }
  }

  /** The repository's leaves fit the buffers they ask for, 4096 bytes of input each: a cipher with blocks of at most
      `margin` bytes, a Base64 encoder of groups of 48 bytes, with a line end after each or not, and a decoder. */
  lemma {:induction false} OwnLeavesFit(
      block: nat, margin: nat, code: seq<byte> -> seq<byte>, last: seq<byte> -> seq<byte>, forward: bool)
    requires forall s :: |last(s)| <= |code(s)|
    ensures 0 < block <= margin && (forall s :: |code(s)| <= block) ==>
              Fits(Grouping(block, code, last, forward), 4096, 4096 + margin)
    ensures (forall s :: |code(s)| <= 65) ==> Fits(Grouping(48, code, last, forward), 4096, 8192)
    ensures (forall s :: |code(s)| <= 3) ==> Fits(Grouping(4, code, last, forward), 4096, 4096)
  {
    if 0 < block <= margin && forall s :: |code(s)| <= block {
      BlocksGrow(block, code, last, forward);
      SlackBound(block, 4096);
      GrowthFits(Grouping(block, code, last, forward), Slack(block), 4096, 4096 + margin);
    }
    if forall s :: |code(s)| <= 65 {
      GroupingGrows(48, 65, code, last, forward);
      GrowthFits(Grouping(48, code, last, forward), Growth(65, 48, 65), 4096, 8192);
    }
    if forall s :: |code(s)| <= 3 {
      GroupingGrows(4, 3, code, last, forward);
      GrowthFits(Grouping(4, code, last, forward), Growth(3, 4, 3), 4096, 4096);
    }
  }

  // ---------------------------------------------------------------- a chain of byte maps

  /** What a byte becomes on its way through all maps. */
  function Through(fs: seq<byte -> byte>, x: byte): byte {
    if fs == [] then x else Through(fs[1..], fs[0](x))
  }

  function ThroughAll(fs: seq<byte -> byte>, xs: seq<byte>): (ys: seq<byte>)
    ensures |ys| == |xs|
  {
    seq(|xs|, i requires 0 <= i < |xs| => Through(fs, xs[i]))
  }

  lemma {:induction false} ByteMapEmits(f: byte -> byte, forward: bool, xs: seq<byte>)
    ensures Emit(ByteMap(f, forward), (), xs) == ThroughAll([f], xs)
    decreases |xs|
  {
    if xs != [] {
      ByteMapEmits(f, forward, xs[1..]);
      assert [f][1..] == [] && Through([f], xs[0]) == f(xs[0]);
      assert ThroughAll([f], xs) == [f(xs[0])] + ThroughAll([f], xs[1..]);
    }
  }

  ghost predicate AreByteMaps(ts: seq<Transducer<()>>, fs: seq<byte -> byte>, forward: bool) {
    |ts| == |fs| && forall i | 0 <= i < |fs| :: ts[i] == ByteMap(fs[i], forward)
  }

  lemma {:induction false} ThroughFirst(fs: seq<byte -> byte>, xs: seq<byte>)
    requires fs != []
    ensures ThroughAll(fs[1..], ThroughAll([fs[0]], xs)) == ThroughAll(fs, xs)
  {
    forall i | 0 <= i < |xs| ensures Through([fs[0]], xs[i]) == fs[0](xs[i]) {
      assert [fs[0]][1..] == [];
    }
  }

  /** Such a chain maps every byte through all maps, in order, and has room whenever the input fits. */
  lemma {:induction false} ChainOfMaps(
      ts: seq<Transducer<()>>, fs: seq<byte -> byte>, forward: bool, ss: seq<()>, xs: seq<byte>, half: nat)
    requires AreByteMaps(ts, fs, forward) && |ss| == |ts| && |xs| <= half
    ensures ChainEmit(ts, ss, xs) == ThroughAll(fs, xs)
    ensures UpdateFits(ts, ss, xs, half)
    decreases |ts|
  {
    if ts != [] {
      ByteMapEmits(fs[0], forward, xs);
      ChainOfMaps(ts[1..], fs[1..], forward, ss[1..], ThroughAll([fs[0]], xs), half);
      ThroughFirst(fs, xs);
    } else {
      assert ThroughAll(fs, xs) == xs;
    }
  }

  /** An update of a chain of byte maps writes, for every byte of the input, what the maps make of it one after the
      other. */
  method UpdateByteMaps(chain: ChainProcessor<()>, ghost fs: seq<byte -> byte>, ghost forward: bool, input: Span)
    returns (output: Span)
    requires chain.Valid() && AreByteMaps(chain.Transducers(), fs, forward)
    requires input.Valid() && (input.Span? ==> input.buf != chain.pair) && |input.Bytes()| <= chain.half
    modifies chain, chain.swapper, chain.pair, chain.stages
    ensures chain.Valid() && output.Valid() && |output.Bytes()| == |old(input.Bytes())|
    ensures forall i | 0 <= i < |output.Bytes()| :: output.Bytes()[i] == Through(fs, old(input.Bytes())[i])
  {
    ChainOfMaps(chain.Transducers(), fs, forward, chain.States(), input.Bytes(), chain.half);
    output := chain.Update(input);
  }
}
