/** parallel_for: workers take ids from one shared 64-bit counter.

The workers are modelled as interleaved steps on shared state, one step per access to a shared variable, under
sequential consistency. A call of the handler takes two steps, so calls of different workers overlap freely. */
module ParallelFors {

  import opened Words

  /** The ids [start, end) and the number of worker threads. */
  datatype Config = Config(start: nat, end: nat, count: nat) {
    predicate Valid() {
      start < TWO_TO_THE_64 && end < TWO_TO_THE_64
    }

    function Top(): nat {
      if start < end then end else start
    }

    /** Room for one last increment by every worker. */
    predicate Bounded() {
      Top() + count <= TWO_TO_THE_64
    }

    function Size(): nat {
      if start < end then end - start else 0
    }
  }

  /** The number of workers: a thread count of 0 asks for that of the hardware, which is 0 when it is not known. */
  function WorkerCount(threadCount: nat, hardware: nat): nat {
    if threadCount == 0 then hardware else threadCount
  }

  /** What became of an id that a worker took. */
  datatype Outcome = Waiting | Running | Handled(setExit: bool) | Skipped | Threw

  datatype Claim = Claim(id: nat, worker: nat, outcome: Outcome)

  /** Where a worker stands; `c` is the position in the log of claims of the id it works on. */
  datatype Phase = Fetching | Holding(c: nat) | Calling(c: nat) | Catching | Storing | Done

  datatype Worker = Worker(phase: Phase, exit: bool)

  datatype State = State(current: nat, workers: seq<Worker>, claims: seq<Claim>, lastException: bool) {
    predicate AllDone() {
      forall w | 0 <= w < |workers| :: workers[w].phase == Done
    }

    /** No handler has thrown. */
    predicate Quiet() {
      forall c | 0 <= c < |claims| :: claims[c].outcome != Threw
    }

    function Move(w: nat, phase: Phase): State
      requires w < |workers|
    {
      this.(workers := workers[w := workers[w].(phase := phase)])
    }

    function Resolve(c: nat, outcome: Outcome): State
      requires c < |claims|
    {
      this.(claims := claims[c := claims[c].(outcome := outcome)])
    }
  }

  function Init(cfg: Config): State {
    State(cfg.start, seq(cfg.count, _ => Worker(Fetching, false)), [], false)
  }

  datatype Action = Fetch | Skip | Call | Return(exit: bool) | Throw | Catch | Store

  predicate Enabled(s: State, w: nat, a: Action) {
    w < |s.workers| &&
    match (a, s.workers[w].phase)
    case (Fetch, Fetching) => true
    case (Skip, Holding(c)) => c < |s.claims| && s.workers[w].exit
    case (Call, Holding(c)) => c < |s.claims| && !s.workers[w].exit
    case (Return(_), Calling(c)) => c < |s.claims|
    case (Throw, Calling(c)) => c < |s.claims|
    case (Catch, Catching) => true
    case (Store, Storing) => true
    case _ => false
  }

  function Step(cfg: Config, s: State, w: nat, a: Action): State
    requires Enabled(s, w, a)
  {
    match a
    case Fetch =>
      // fetch_add: the counter wraps at 2^64
      var s' := s.(current := (s.current + 1) % TWO_TO_THE_64);
      if s.current >= cfg.end then s'.Move(w, Done)
      else s'.(claims := s.claims + [Claim(s.current, w, Waiting)]).Move(w, Holding(|s.claims|))
    case Skip => s.Resolve(s.workers[w].phase.c, Skipped).Move(w, Fetching)
    case Call => s.Resolve(s.workers[w].phase.c, Running).Move(w, Calling(s.workers[w].phase.c))
    case Return(exit) =>
      s.Resolve(s.workers[w].phase.c, Handled(exit)).(workers := s.workers[w := Worker(Fetching, exit)])
    case Throw => s.Resolve(s.workers[w].phase.c, Threw).Move(w, Catching)
    case Catch => s.(lastException := true).Move(w, Storing)
    case Store => s.(current := cfg.end).Move(w, Done)
  }

  type Run = seq<(nat, Action)>

  predicate Possible(cfg: Config, s: State, run: Run)
    decreases |run|
  {
    run != [] ==> Enabled(s, run[0].0, run[0].1) && Possible(cfg, Step(cfg, s, run[0].0, run[0].1), run[1..])
  }

  function After(cfg: Config, s: State, run: Run): State
    requires Possible(cfg, s, run)
    decreases |run|
  {
    if run == [] then s else After(cfg, Step(cfg, s, run[0].0, run[0].1), run[1..])
  }

  // ---------------------------------------------------------------- sums over the workers

  function Total(ws: seq<Worker>, f: Worker -> nat): nat {
    if ws == [] then 0 else f(ws[0]) + Total(ws[1..], f)
  }

  lemma {:induction false} TotalUpdate(ws: seq<Worker>, f: Worker -> nat, w: nat, x: Worker)
    requires w < |ws|
    ensures Total(ws[w := x], f) + f(ws[w]) == Total(ws, f) + f(x)
  {
    if w == 0 {
      assert ws[0 := x][1..] == ws[1..];
    } else {
      assert ws[w := x][1..] == ws[1..][w - 1 := x];
      TotalUpdate(ws[1..], f, w - 1, x);
    }
  }

  lemma {:induction false} TotalAtLeast(ws: seq<Worker>, f: Worker -> nat, w: nat)
    requires w < |ws|
    ensures f(ws[w]) <= Total(ws, f)
  {
    if w > 0 {
      TotalAtLeast(ws[1..], f, w - 1);
    }
  }

  /** 1 for a worker that has not finished. */
  function Active(worker: Worker): nat {
    if worker.phase == Done then 0 else 1
  }

  /** More than the number of steps a worker takes before it fetches again or finishes. */
  function Weight(worker: Worker): nat {
    match worker.phase
    case Holding(_) => 4
    case Calling(_) => 3
    case Catching => 2
    case Storing => 1
    case Fetching => 1
    case Done => 0
  }

  lemma {:induction false} ActiveMeansNotAllDone(s: State)
    ensures s.AllDone() <==> Total(s.workers, Active) == 0
    ensures Total(s.workers, Active) <= |s.workers|
    ensures s.AllDone() <==> Total(s.workers, Weight) == 0
    decreases |s.workers|
  {
    if s.workers != [] {
      ActiveMeansNotAllDone(s.(workers := s.workers[1..]));
      assert s.AllDone() <==> s.workers[0].phase == Done && s.(workers := s.workers[1..]).AllDone() by {
        if s.workers[0].phase == Done && s.(workers := s.workers[1..]).AllDone() {
          forall w | 0 <= w < |s.workers| ensures s.workers[w].phase == Done {
            assert w > 0 ==> s.workers[w] == s.(workers := s.workers[1..]).workers[w - 1];
          }
        }
      }
    }
  }

  // ---------------------------------------------------------------- the invariant

  /** The workers that are still active have not pushed the counter past one increment per finished worker. */
  predicate CounterInv(cfg: Config, s: State) {
    var active := Total(s.workers, Active);
    && |s.workers| == cfg.count
    && active <= cfg.count
    && s.current <= cfg.Top() + cfg.count
    && (active > 0 ==> s.current <= cfg.Top() + (cfg.count - active))
  }

  /** The k-th claim is the k-th id, and if there are workers and nothing was thrown no id was passed over. */
  predicate ClaimInv(cfg: Config, s: State) {
    && |s.claims| <= cfg.Size()
    && (forall c | 0 <= c < |s.claims| :: s.claims[c].id == cfg.start + c && s.claims[c].worker < |s.workers|)
    && (Total(s.workers, Active) > 0 && s.current < cfg.end ==> s.current == cfg.start + |s.claims|)
    && (s.Quiet() && cfg.count > 0 && (Total(s.workers, Active) == 0 || s.current >= cfg.end) ==>
          |s.claims| == cfg.Size())
  }

  /** The claim a worker works on is its own, and is marked accordingly. */
  predicate WorkerOk(s: State, w: nat)
    requires w < |s.workers|
  {
    var phase := s.workers[w].phase;
    phase.Holding? || phase.Calling? ==>
      && phase.c < |s.claims|
      && s.claims[phase.c].worker == w
      && s.claims[phase.c].outcome == (if phase.Holding? then Waiting else Running)
  }

  /** An unsettled claim is the one its worker works on. */
  predicate ClaimOk(s: State, c: nat)
    requires c < |s.claims|
  {
    var claim := s.claims[c];
    && claim.worker < |s.workers|
    && (claim.outcome == Waiting ==> s.workers[claim.worker].phase == Holding(c))
    && (claim.outcome == Running ==> s.workers[claim.worker].phase == Calling(c))
  }

  predicate WorkInv(s: State) {
    && (forall w | 0 <= w < |s.workers| :: WorkerOk(s, w))
    && (forall c | 0 <= c < |s.claims| :: ClaimOk(s, c))
  }

  /** Once a thrown exception is caught it is kept until the join. */
  predicate ThrowInv(s: State) {
    && (s.lastException ==> !s.Quiet())
    && (forall w | 0 <= w < |s.workers| ::
          && (s.workers[w].phase == Catching ==> !s.Quiet())
          && (s.workers[w].phase == Storing ==> s.lastException))
    && (forall c | 0 <= c < |s.claims| && s.claims[c].worker < |s.workers| && s.claims[c].outcome == Threw ::
          s.lastException || s.workers[s.claims[c].worker].phase == Catching)
  }

  /** Worker `w` asked for its exit in a claim before the c-th. */
  predicate ExitedBefore(claims: seq<Claim>, w: nat, c: nat) {
    exists b :: 0 <= b < c && b < |claims| && claims[b].worker == w && claims[b].outcome == Handled(true)
  }

  /** The exit flag of a worker is set by its own handler calls only. */
  predicate ExitOk(s: State, w: nat)
    requires w < |s.workers|
  {
    s.workers[w].exit <==> ExitedBefore(s.claims, w, |s.claims|)
  }

  /** A settled claim was skipped exactly if its worker had asked for its exit before. */
  predicate SkipOk(s: State, c: nat)
    requires c < |s.claims|
  {
    var claim := s.claims[c];
    && (claim.outcome == Skipped ==> ExitedBefore(s.claims, claim.worker, c))
    && (claim.outcome.Handled? || claim.outcome == Threw || claim.outcome == Running ==>
          !ExitedBefore(s.claims, claim.worker, c))
  }

  predicate ExitInv(s: State) {
    && (forall w | 0 <= w < |s.workers| :: ExitOk(s, w))
    && (forall c | 0 <= c < |s.claims| :: SkipOk(s, c))
    && (forall b, c | 0 <= b < c < |s.claims| && s.claims[b].worker == s.claims[c].worker ::
          s.claims[b].outcome != Waiting && s.claims[b].outcome != Running)
  }

  predicate Inv(cfg: Config, s: State) {
    CounterInv(cfg, s) && ClaimInv(cfg, s) && WorkInv(s) && ThrowInv(s) && ExitInv(s)
  }

  // ---------------------------------------------------------------- every step keeps it

  lemma {:induction false} CounterKept(cfg: Config, s: State, w: nat, a: Action)
    requires cfg.Valid() && cfg.Bounded() && CounterInv(cfg, s) && Enabled(s, w, a)
    ensures CounterInv(cfg, Step(cfg, s, w, a))
  {
    var s' := Step(cfg, s, w, a);
    TotalUpdate(s.workers, Active, w, s'.workers[w]);
    TotalAtLeast(s.workers, Active, w);
  }

  /** What a step does to the logs: a fetch may add a claim, every other step settles at most the worker's own. */
  lemma {:induction false} StepFrame(cfg: Config, s: State, w: nat, a: Action)
    requires WorkInv(s) && Enabled(s, w, a)
    ensures var s' := Step(cfg, s, w, a);
      && s'.workers == s.workers[w := s'.workers[w]]
      && |s.claims| <= |s'.claims|
      && (forall c | 0 <= c < |s.claims| ::
            && s'.claims[c].id == s.claims[c].id && s'.claims[c].worker == s.claims[c].worker
            && (s'.claims[c] != s.claims[c] ==>
                  s.claims[c].worker == w && s.workers[w].phase in {Holding(c), Calling(c)}))
      && (s'.Quiet() ==> s.Quiet())
  {
    var s' := Step(cfg, s, w, a);
    assert WorkerOk(s, w);
    forall c | 0 <= c < |s.claims| && s.claims[c].outcome == Threw ensures s'.claims[c].outcome == Threw {
    }
  }

  lemma {:induction false} ClaimsKeptByFetch(cfg: Config, s: State, w: nat)
    requires cfg.Valid() && cfg.Bounded() && CounterInv(cfg, s) && ClaimInv(cfg, s)
    requires Enabled(s, w, Fetch)
    ensures ClaimInv(cfg, Step(cfg, s, w, Fetch))
  {
    var s' := Step(cfg, s, w, Fetch);
    TotalUpdate(s.workers, Active, w, s'.workers[w]);
    TotalAtLeast(s.workers, Active, w);
    if s.current < cfg.end {
      assert s'.claims[..|s.claims|] == s.claims;
      if s'.Quiet() {
        assert forall c | 0 <= c < |s.claims| :: s.claims[c] == s'.claims[c];
      }
    }
  }

  lemma {:induction false} ClaimsKept(cfg: Config, s: State, w: nat, a: Action)
    requires cfg.Valid() && cfg.Bounded() && CounterInv(cfg, s) && ClaimInv(cfg, s) && WorkInv(s) && ThrowInv(s)
    requires Enabled(s, w, a)
    ensures ClaimInv(cfg, Step(cfg, s, w, a))
  {
    if a == Fetch {
      ClaimsKeptByFetch(cfg, s, w);
    } else {
      var s' := Step(cfg, s, w, a);
      TotalUpdate(s.workers, Active, w, s'.workers[w]);
      TotalAtLeast(s.workers, Active, w);
      StepFrame(cfg, s, w, a);
      if a == Store {
        assert !s.Quiet();
      }
    }
  }

  lemma {:induction false} WorkKept(cfg: Config, s: State, w: nat, a: Action)
    requires WorkInv(s) && Enabled(s, w, a)
    ensures WorkInv(Step(cfg, s, w, a))
  {
    var s' := Step(cfg, s, w, a);
    StepFrame(cfg, s, w, a);
    assert WorkerOk(s, w);
    forall v | 0 <= v < |s'.workers| ensures WorkerOk(s', v) {
      assert WorkerOk(s, v);
    }
    forall c | 0 <= c < |s'.claims| ensures ClaimOk(s', c) {
      if c < |s.claims| {
        assert ClaimOk(s, c);
      }
    }
  }

  lemma {:induction false} ThrowKept(cfg: Config, s: State, w: nat, a: Action)
    requires WorkInv(s) && ThrowInv(s) && Enabled(s, w, a)
    ensures ThrowInv(Step(cfg, s, w, a))
  {
    var s' := Step(cfg, s, w, a);
    StepFrame(cfg, s, w, a);
    assert WorkerOk(s, w);
    if a == Throw {
      assert s'.claims[s.workers[w].phase.c].outcome == Threw;
    }
    forall c | 0 <= c < |s.claims| && s.claims[c].outcome == Threw ensures s'.claims[c].outcome == Threw {
    }
  }

  /** The claim a worker works on is the last one it made. */
  lemma {:induction false} WorksOnLast(s: State, w: nat, c: nat)
    requires WorkInv(s) && ExitInv(s) && w < |s.workers| && s.workers[w].phase in {Holding(c), Calling(c)}
    ensures c < |s.claims| && forall d | c < d < |s.claims| :: s.claims[d].worker != w
    ensures ExitedBefore(s.claims, w, c) <==> s.workers[w].exit
  {
    assert WorkerOk(s, w) && ExitOk(s, w);
  }

  /** Only a return with a request to exit changes who asked for an exit before which claim. */
  lemma {:induction false} ExitedKept(cfg: Config, s: State, w: nat, a: Action, v: nat, c: nat)
    requires WorkInv(s) && ExitInv(s) && Enabled(s, w, a) && c <= |s.claims|
    requires v == w && s.workers[w].phase.Calling? ==> c <= s.workers[w].phase.c
    ensures ExitedBefore(Step(cfg, s, w, a).claims, v, c) <==> ExitedBefore(s.claims, v, c)
  {
    var s' := Step(cfg, s, w, a);
    assert WorkerOk(s, w);
    forall b | 0 <= b < c && s.claims[b].worker == v
      ensures s'.claims[b].worker == v
      ensures s'.claims[b].outcome == Handled(true) <==> s.claims[b].outcome == Handled(true)
    {
    }
    forall b | 0 <= b < c ensures s'.claims[b].worker == s.claims[b].worker {
    }
  }

  lemma {:induction false} ExitFlagsKept(cfg: Config, s: State, w: nat, a: Action, v: nat)
    requires WorkInv(s) && ExitInv(s) && Enabled(s, w, a) && v < |s.workers|
    ensures ExitOk(Step(cfg, s, w, a), v)
  {
    var s' := Step(cfg, s, w, a);
    assert ExitOk(s, v);
    if v == w && s.workers[w].phase.Calling? {
      var c := s.workers[w].phase.c;
      WorksOnLast(s, w, c);
      ExitedKept(cfg, s, w, a, w, c);
      assert SkipOk(s, c) && WorkerOk(s, w);
      assert !ExitedBefore(s'.claims, w, c);
      if ExitedBefore(s'.claims, w, |s'.claims|) {
        var b :| 0 <= b < |s'.claims| && s'.claims[b].worker == w && s'.claims[b].outcome == Handled(true);
        assert b == c;
      }
      assert s'.claims[c].worker == w;
    } else {
      ExitedKept(cfg, s, w, a, v, |s.claims|);
      assert ExitedBefore(s'.claims, v, |s'.claims|) <==> ExitedBefore(s'.claims, v, |s.claims|);
    }
  }

  lemma {:induction false} SkipsKept(cfg: Config, s: State, w: nat, a: Action, c: nat)
    requires WorkInv(s) && ExitInv(s) && Enabled(s, w, a) && c < |Step(cfg, s, w, a).claims|
    ensures SkipOk(Step(cfg, s, w, a), c)
  {
    var s' := Step(cfg, s, w, a);
    assert WorkerOk(s, w);
    if c < |s.claims| {
      var v := s.claims[c].worker;
      assert SkipOk(s, c);
      if s.workers[w].phase.Calling? || s.workers[w].phase.Holding? {
        WorksOnLast(s, w, s.workers[w].phase.c);
      }
      ExitedKept(cfg, s, w, a, v, c);
    }
  }

  lemma {:induction false} ExitKept(cfg: Config, s: State, w: nat, a: Action)
    requires WorkInv(s) && ExitInv(s) && Enabled(s, w, a)
    ensures ExitInv(Step(cfg, s, w, a))
  {
    var s' := Step(cfg, s, w, a);
    forall v | 0 <= v < |s'.workers| ensures ExitOk(s', v) {
      ExitFlagsKept(cfg, s, w, a, v);
    }
    forall c | 0 <= c < |s'.claims| ensures SkipOk(s', c) {
      SkipsKept(cfg, s, w, a, c);
    }
    StepFrame(cfg, s, w, a);
    assert WorkerOk(s, w);
    forall b, c | 0 <= b < c < |s'.claims| && s'.claims[b].worker == s'.claims[c].worker
      ensures s'.claims[b].outcome != Waiting && s'.claims[b].outcome != Running
    {
      assert ClaimOk(s, b);
    }
  }

  lemma {:induction false} InitInv(cfg: Config)
    requires cfg.Valid()
    ensures Inv(cfg, Init(cfg))
  {
    AllActive(Init(cfg).workers);
    ActiveMeansNotAllDone(Init(cfg));
  }

  lemma {:induction false} AllActive(ws: seq<Worker>)
    requires forall w | 0 <= w < |ws| :: ws[w].phase != Done
    ensures Total(ws, Active) == |ws|
  {
    if ws != [] {
      AllActive(ws[1..]);
    }
  }

  lemma {:induction false} StepKeepsInv(cfg: Config, s: State, w: nat, a: Action)
    requires cfg.Valid() && cfg.Bounded() && Inv(cfg, s) && Enabled(s, w, a)
    ensures Inv(cfg, Step(cfg, s, w, a))
  {
    CounterKept(cfg, s, w, a);
    ClaimsKept(cfg, s, w, a);
    WorkKept(cfg, s, w, a);
    ThrowKept(cfg, s, w, a);
    ExitKept(cfg, s, w, a);
  }

  lemma {:induction false} InvAfter(cfg: Config, s: State, run: Run)
    requires cfg.Valid() && cfg.Bounded() && Inv(cfg, s) && Possible(cfg, s, run)
    ensures Inv(cfg, After(cfg, s, run))
    decreases |run|
  {
    if run != [] {
      var (w, a) := run[0];
      StepKeepsInv(cfg, s, w, a);
      InvAfter(cfg, Step(cfg, s, w, a), run[1..]);
    }
  }

  // ---------------------------------------------------------------- what every interleaving guarantees

  /** Every id handed out belongs to the range, and none is handed out twice. */
  predicate WellClaimed(cfg: Config, s: State) {
    && (forall c | 0 <= c < |s.claims| :: cfg.start <= s.claims[c].id < cfg.end)
    && (forall b, c | 0 <= b < c < |s.claims| :: s.claims[b].id != s.claims[c].id)
  }

  /** At every moment of every interleaving: ids are well claimed and the counter stays within one increment per
      worker of the range, even across the store of `end` by a worker that caught an exception. */
  lemma {:induction false} Safety(cfg: Config, run: Run)
    requires cfg.Valid() && cfg.Bounded() && Possible(cfg, Init(cfg), run)
    ensures var s := After(cfg, Init(cfg), run);
      WellClaimed(cfg, s) && s.current <= cfg.Top() + cfg.count
  {
    InitInv(cfg);
    InvAfter(cfg, Init(cfg), run);
  }

  /** Exactly the ids of the range were claimed, in order. */
  predicate Complete(cfg: Config, s: State) {
    |s.claims| == cfg.Size() && forall i | 0 <= i < cfg.Size() :: s.claims[i].id == cfg.start + i
  }

  /** When all workers have finished: the call rethrows exactly if a handler threw; every claim is settled, and was
      skipped exactly if its worker had asked for its exit in an earlier claim; and if there are workers at all, or no
      ids, then unless a handler threw exactly the ids of the range were claimed, in order. */
  lemma {:induction false} AtJoin(cfg: Config, run: Run)
    requires cfg.Valid() && cfg.Bounded() && Possible(cfg, Init(cfg), run)
    requires After(cfg, Init(cfg), run).AllDone()
    ensures var s := After(cfg, Init(cfg), run);
      && (s.lastException <==> exists c :: 0 <= c < |s.claims| && s.claims[c].outcome == Threw)
      && (forall c | 0 <= c < |s.claims| :: s.claims[c].outcome.Handled? || s.claims[c].outcome in {Skipped, Threw})
      && (forall c | 0 <= c < |s.claims| ::
            s.claims[c].outcome == Skipped <==> ExitedBefore(s.claims, s.claims[c].worker, c))
      && (s.Quiet() && (cfg.count > 0 || cfg.Size() == 0) ==> Complete(cfg, s))
  {
    InitInv(cfg);
    InvAfter(cfg, Init(cfg), run);
    var s := After(cfg, Init(cfg), run);
    ActiveMeansNotAllDone(s);
    forall c | 0 <= c < |s.claims|
      ensures s.claims[c].outcome.Handled? || s.claims[c].outcome in {Skipped, Threw}
      ensures s.claims[c].outcome == Skipped <==> ExitedBefore(s.claims, s.claims[c].worker, c)
    {
      assert ClaimOk(s, c) && SkipOk(s, c);
    }
  }

  predicate CompletesIfQuiet(cfg: Config, run: Run)
    requires Possible(cfg, Init(cfg), run)
  {
    var s := After(cfg, Init(cfg), run);
    s.AllDone() && s.Quiet() ==> Complete(cfg, s)
  }

  /** Every call that does not throw hands out all its ids exactly if the range is empty or there are workers; there are
      none with a thread count of 0 on a system that does not know its hardware concurrency. */
  lemma {:induction false} CompleteExactly(start: nat, end: nat, threadCount: nat, hardware: nat)
    requires Config(start, end, WorkerCount(threadCount, hardware)).Valid()
    requires Config(start, end, WorkerCount(threadCount, hardware)).Bounded()
    ensures var cfg := Config(start, end, WorkerCount(threadCount, hardware));
      (forall run | Possible(cfg, Init(cfg), run) :: CompletesIfQuiet(cfg, run))
      <==> threadCount > 0 || hardware > 0 || end <= start
    ensures |Init(Config(start, end, WorkerCount(threadCount, hardware))).workers|
         == if threadCount > 0 then threadCount else hardware
  {
    var cfg := Config(start, end, WorkerCount(threadCount, hardware));
    if cfg.count > 0 || cfg.Size() == 0 {
      forall run | Possible(cfg, Init(cfg), run) ensures CompletesIfQuiet(cfg, run) {
        if After(cfg, Init(cfg), run).AllDone() {
          AtJoin(cfg, run);
        }
      }
    } else {
      // the call is over before it began
      var run: Run := [];
      assert Possible(cfg, Init(cfg), run) && !CompletesIfQuiet(cfg, run);
    }
  }

  // ---------------------------------------------------------------- termination

  /** The ids that no worker has taken. */
  function Remaining(cfg: Config, s: State): nat {
    if s.current < cfg.end then cfg.end - s.current else 0
  }

  /** Bounds the number of steps still to come. */
  function Variant(cfg: Config, s: State): nat {
    if s.AllDone() then 0 else 4 * Remaining(cfg, s) + Total(s.workers, Weight)
  }

  /** The last worker to finish may wrap the counter; otherwise a step takes an id or brings its worker further. */
  lemma {:induction false} StepShrinks(cfg: Config, s: State, w: nat, a: Action)
    requires cfg.Valid() && cfg.Bounded() && CounterInv(cfg, s) && Enabled(s, w, a)
    ensures var s' := Step(cfg, s, w, a);
      || Total(s'.workers, Active) == 0
      || 4 * Remaining(cfg, s') + Weight(s'.workers[w]) < 4 * Remaining(cfg, s) + Weight(s.workers[w])
  {
    var s' := Step(cfg, s, w, a);
    TotalUpdate(s.workers, Active, w, s'.workers[w]);
    TotalAtLeast(s.workers, Active, w);
  }

  lemma {:induction false} VariantDecreases(cfg: Config, s: State, w: nat, a: Action)
    requires cfg.Valid() && cfg.Bounded() && Inv(cfg, s) && Enabled(s, w, a)
    ensures Variant(cfg, Step(cfg, s, w, a)) < Variant(cfg, s)
  {
    var s' := Step(cfg, s, w, a);
    StepShrinks(cfg, s, w, a);
    TotalUpdate(s.workers, Weight, w, s'.workers[w]);
    TotalAtLeast(s.workers, Weight, w);
    ActiveMeansNotAllDone(s');
    assert s.workers[w].phase != Done;
  }

  /** No run is longer than four steps for every id and one more for every worker. */
  lemma {:induction false} RunLength(cfg: Config, s: State, run: Run)
    requires cfg.Valid() && cfg.Bounded() && Inv(cfg, s) && Possible(cfg, s, run)
    ensures |run| + Variant(cfg, After(cfg, s, run)) <= Variant(cfg, s)
    decreases |run|
  {
    if run != [] {
      var (w, a) := run[0];
      VariantDecreases(cfg, s, w, a);
      StepKeepsInv(cfg, s, w, a);
      RunLength(cfg, Step(cfg, s, w, a), run[1..]);
    }
  }

  /** The call terminates: runs are bounded, and as long as a worker is active it can take a step. */
  lemma {:induction false} Termination(cfg: Config, run: Run)
    requires cfg.Valid() && cfg.Bounded() && Possible(cfg, Init(cfg), run)
    ensures |run| <= 4 * cfg.Size() + cfg.count
    ensures !After(cfg, Init(cfg), run).AllDone() ==> exists w, a :: Enabled(After(cfg, Init(cfg), run), w, a)
  {
    InitInv(cfg);
    InvAfter(cfg, Init(cfg), run);
    RunLength(cfg, Init(cfg), run);
    AllWaitForId(Init(cfg).workers);
    var s := After(cfg, Init(cfg), run);
    if !s.AllDone() {
      var w :| 0 <= w < |s.workers| && s.workers[w].phase != Done;
      assert WorkerOk(s, w);
      var a := match s.workers[w].phase
        case Fetching => Fetch
        case Holding(_) => if s.workers[w].exit then Skip else Call
        case Calling(_) => Throw
        case Catching => Catch
        case Storing => Store
        case Done => Fetch;
      assert Enabled(s, w, a);
    }
  }

  lemma {:induction false} AllWaitForId(ws: seq<Worker>)
    requires forall w | 0 <= w < |ws| :: ws[w].phase == Fetching
    ensures Total(ws, Weight) == |ws|
  {
    if ws != [] {
      AllWaitForId(ws[1..]);
    }
  }
}
