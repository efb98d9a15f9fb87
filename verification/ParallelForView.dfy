/** parallel_for over a view refines the loop of a single thread. */
module ParallelForView {
  import opened ParallelFors

  /** The handler's effect on the element at `index`. */
  type Handler<!T> = (nat, T) -> T

  /** What the handler makes of the elements from `lo` up to `hi`; the others stay. */
  function Mapped<T>(f: Handler<T>, view: seq<T>, lo: nat, hi: nat): (r: seq<T>)
    ensures |r| == |view|
  {
    seq(|view|, i requires 0 <= i < |view| => if lo <= i < hi then f(i, view[i]) else view[i])
  }

  /** The loop that runs when there is one thread. */
  method SingleThread<T>(view: array<T>, f: Handler<T>)
    modifies view
    ensures view[..] == Mapped(f, old(view[..]), 0, view.Length)
  {
    var id := 0;
    while id < view.Length
      invariant 0 <= id <= view.Length
      invariant view[..] == Mapped(f, old(view[..]), 0, id)
    {
      view[id] := f(id, view[id]);
      id := id + 1;
    }
  }

  /** A handler that may ask for its exit or throw: what it does at each id. */
  datatype Reaction = Continues | Exits | Throws

  /** The loop of a single thread with such a handler: it handles the ids up to and including the first one where
      the handler does not continue; a throw leaves the loop at once, an exit lets the rest of the ids pass by. */
  method SingleThreadExits(start: nat, end: nat, handler: nat -> Reaction) returns (handled: seq<nat>, threw: bool)
    ensures |handled| <= if start < end then end - start else 0
    ensures forall i | 0 <= i < |handled| :: handled[i] == start + i
    ensures forall i | 0 <= i < |handled| - 1 :: handler(handled[i]) == Continues
    ensures |handled| < end - start ==> handled != [] && handler(handled[|handled| - 1]) != Continues
    ensures threw <==> handled != [] && handler(handled[|handled| - 1]) == Throws
  {
    handled, threw := [], false;
    var exit, id := false, start;
    while id < end
      invariant start <= id && (id <= end || id == start)
      invariant |handled| <= id - start && (!exit ==> |handled| == id - start)
      invariant forall i | 0 <= i < |handled| :: handled[i] == start + i
      invariant forall i | 0 <= i < |handled| - 1 :: handler(handled[i]) == Continues
      invariant handled != [] ==> handler(handled[|handled| - 1]) == if exit then Exits else Continues
      invariant exit ==> handled != []
    {
      if !exit {
        handled := handled + [id];
        match handler(id) {
          case Continues =>
          case Exits => exit := true;
          case Throws => return handled, true;
        }
      }
      id := id + 1;
    }
  }

  /** The interleaved workers together with the view. A call reads the element when it begins and writes the result
      when it returns; `held` is what each worker read. */
  datatype ViewState<T> = ViewState(core: State, view: seq<T>, held: seq<T>)

  /** Steps of a handler that never exits or throws. */
  predicate ViewEnabled<T>(vs: ViewState<T>, w: nat, a: Action) {
    && Enabled(vs.core, w, a)
    && a != Return(true) && a != Throw
    && |vs.held| == |vs.core.workers|
    && (a in {Call, Return(false)} ==>
          vs.core.claims[vs.core.workers[w].phase.c].id < |vs.view|)
  }

  function ViewStep<T>(cfg: Config, f: Handler<T>, vs: ViewState<T>, w: nat, a: Action): ViewState<T>
    requires ViewEnabled(vs, w, a)
  {
    var core := Step(cfg, vs.core, w, a);
    match a
    case Call => vs.(core := core, held := vs.held[w := vs.view[vs.core.claims[vs.core.workers[w].phase.c].id]])
    case Return(_) =>
      var id := vs.core.claims[vs.core.workers[w].phase.c].id;
      vs.(core := core, view := vs.view[id := f(id, vs.held[w])])
    case _ => vs.(core := core)
  }

  predicate ViewPossible<T>(cfg: Config, f: Handler<T>, vs: ViewState<T>, run: Run)
    decreases |run|
  {
    run != [] ==>
      && ViewEnabled(vs, run[0].0, run[0].1)
      && ViewPossible(cfg, f, ViewStep(cfg, f, vs, run[0].0, run[0].1), run[1..])
  }

  function ViewAfter<T>(cfg: Config, f: Handler<T>, vs: ViewState<T>, run: Run): ViewState<T>
    requires ViewPossible(cfg, f, vs, run)
    decreases |run|
  {
    if run == [] then vs else ViewAfter(cfg, f, ViewStep(cfg, f, vs, run[0].0, run[0].1), run[1..])
  }

  /** Each element is the handler's result if its id was handled, else the old element, which is also what a worker
      that is working on it has read. */
  ghost predicate ViewInv<T>(f: Handler<T>, old_: seq<T>, vs: ViewState<T>) {
    && |vs.view| == |old_| && |vs.held| == |vs.core.workers|
    && |vs.core.claims| <= |old_|
    && (forall i | 0 <= i < |old_| ::
          vs.view[i] == if i < |vs.core.claims| && vs.core.claims[i].outcome.Handled? then f(i, old_[i]) else old_[i])
    && (forall w | 0 <= w < |vs.core.workers| && vs.core.workers[w].phase.Calling? ::
          vs.core.workers[w].phase.c < |old_| && vs.held[w] == old_[vs.core.workers[w].phase.c])
    && (forall c | 0 <= c < |vs.core.claims| ::
          vs.core.claims[c].outcome != Handled(true) && vs.core.claims[c].outcome != Threw)
  }

  lemma {:induction false} ViewStepKeeps<T>(
      cfg: Config, f: Handler<T>, old_: seq<T>, vs: ViewState<T>, w: nat, a: Action)
    requires cfg.Valid() && cfg.Bounded() && cfg.start == 0 && cfg.end == |old_|
    requires Inv(cfg, vs.core) && ViewInv(f, old_, vs) && ViewEnabled(vs, w, a)
    ensures Inv(cfg, ViewStep(cfg, f, vs, w, a).core) && ViewInv(f, old_, ViewStep(cfg, f, vs, w, a))
  {
    StepKeepsInv(cfg, vs.core, w, a);
    assert WorkerOk(vs.core, w);
    var vs' := ViewStep(cfg, f, vs, w, a);
    forall v | 0 <= v < |vs'.core.workers| && vs'.core.workers[v].phase.Calling?
      ensures vs'.core.workers[v].phase.c < |old_| && vs'.held[v] == old_[vs'.core.workers[v].phase.c]
    {
      assert WorkerOk(vs.core, v);
    }
  }

  /** The workers never step outside the view, so every step that the protocol allows such a handler is there. */
  lemma {:induction false} ViewKeepsUp<T>(cfg: Config, f: Handler<T>, old_: seq<T>, vs: ViewState<T>, w: nat, a: Action)
    requires cfg.start == 0 && cfg.end == |old_| && Inv(cfg, vs.core) && ViewInv(f, old_, vs)
    requires a != Return(true) && a != Throw
    ensures ViewEnabled(vs, w, a) <==> Enabled(vs.core, w, a)
  {
    if Enabled(vs.core, w, a) {
      assert WorkerOk(vs.core, w);
    }
  }

  lemma {:induction false} ViewInvAfter<T>(cfg: Config, f: Handler<T>, old_: seq<T>, vs: ViewState<T>, run: Run)
    requires cfg.Valid() && cfg.Bounded() && cfg.start == 0 && cfg.end == |old_|
    requires Inv(cfg, vs.core) && ViewInv(f, old_, vs) && ViewPossible(cfg, f, vs, run)
    ensures Inv(cfg, ViewAfter(cfg, f, vs, run).core) && ViewInv(f, old_, ViewAfter(cfg, f, vs, run))
    decreases |run|
  {
    if run != [] {
      ViewStepKeeps(cfg, f, old_, vs, run[0].0, run[0].1);
      ViewInvAfter(cfg, f, old_, ViewStep(cfg, f, vs, run[0].0, run[0].1), run[1..]);
    }
  }

  /** Whatever the interleaving, the workers leave the view as the loop of a single thread does. */
  lemma {:induction false} RefinesSingleThread<T>(cfg: Config, f: Handler<T>, view: seq<T>, held: seq<T>, run: Run)
    requires cfg.Valid() && cfg.Bounded() && cfg.start == 0 && cfg.end == |view| && |held| == cfg.count
    requires cfg.count > 0 || view == []
    requires ViewPossible(cfg, f, ViewState(Init(cfg), view, held), run)
    requires ViewAfter(cfg, f, ViewState(Init(cfg), view, held), run).core.AllDone()
    ensures ViewAfter(cfg, f, ViewState(Init(cfg), view, held), run).view == Mapped(f, view, 0, |view|)
  {
    InitInv(cfg);
    ViewInvAfter(cfg, f, view, ViewState(Init(cfg), view, held), run);
    var core := ViewAfter(cfg, f, ViewState(Init(cfg), view, held), run).core;
    ActiveMeansNotAllDone(core);
    assert |core.claims| == |view|;
    forall c | 0 <= c < |view| ensures core.claims[c].outcome == Handled(false) {
      assert ClaimOk(core, c) && SkipOk(core, c);
    }
  }
}
