/** The interruptable timer: a worker thread and one controlling thread that meet in four shared cells.

Every access to a shared cell is one step, and the steps of the two threads interleave freely under sequential
consistency. Waiting on a condition variable may end at any time at which its predicate holds, a timed wait at any
time at all, so notifications need no steps of their own. */
module InterruptableTimers {
  import opened Wrappers

  /** What `start` publishes. `valid` says that there is a callback and a positive period, `deferred` that the
      deferred time is positive. */
  datatype TimerInfo = TimerInfo(id: nat, valid: bool, deferred: bool)

  /** The worker, by the step it takes next; from `Deferring` on it holds the info it has loaded. */
  datatype WorkerPc =
    | AwaitWork                       // waits until idle_pending is false
    | ClearIdle                       // idle_running := false
    | ClearPending                    // idle_pending := false
    | LoadInfo                        // loads timer_info
    | CheckDefer(info: TimerInfo)     // loads timer_running to decide about deferring
    | Deferring(info: TimerInfo)      // timed wait
    | CheckRunning(info: TimerInfo)   // loads timer_running
    | InCallback(info: TimerInfo)     // the callback is running
    | Pausing(info: TimerInfo)        // timed wait
    | SetIdle                         // idle_running := true
    | ClearPendingAgain               // idle_pending := false

  /** The controlling thread; `next` is the info to publish when the stop is part of a start. */
  datatype ControllerPc =
    | Outside
    | StopInfo(next: Option<TimerInfo>)     // timer_info := null
    | StopRunning(next: Option<TimerInfo>)  // timer_running := false
    | StopPending(next: Option<TimerInfo>)  // idle_pending := true
    | AwaitIdle(next: Option<TimerInfo>)    // waits until idle_running is true
    | StartInfo(info: TimerInfo)            // timer_info := info
    | StartRunning                          // timer_running := true
    | StartPending                          // idle_pending := false

  datatype Event =
    | Published(info: TimerInfo)
    | Stopped
    | Taken(info: TimerInfo)            // the worker has loaded it for a round of callbacks
    | Deferred(info: TimerInfo)         // the wait before the first callback is over
    | DeferralSkipped(info: TimerInfo)  // it was to be deferred, but timer_running was down
    | CallbackBegins(info: TimerInfo)
    | CallbackEnds(info: TimerInfo)
    | Paused(info: TimerInfo)           // the wait between two callbacks is over

  datatype State = State(
    idleRunning: bool,
    idlePending: bool,
    timerRunning: bool,
    timerInfo: Option<TimerInfo>,
    worker: WorkerPc,
    controller: ControllerPc,
    log: seq<Event>)

  /** The state in which the constructor leaves the cells. */
  const INITIAL := State(true, true, false, None, AwaitWork, Outside, [])

  datatype Step =
    | Work                           // the worker's next step
    | CallStop                       // the controller calls stop
    | CallStart(info: TimerInfo)     // the controller calls start
    | Control                        // the controller's next step

  predicate Enabled(s: State, step: Step) {
    match step
    case Work => s.worker == AwaitWork ==> !s.idlePending
    case CallStop => s.controller == Outside
    case CallStart(_) => s.controller == Outside
    case Control => s.controller != Outside && (s.controller.AwaitIdle? ==> s.idleRunning)
  }

  function WorkStep(s: State): State
    requires Enabled(s, Work)
  {
    match s.worker
    case AwaitWork => s.(worker := ClearIdle)
    case ClearIdle => s.(idleRunning := false, worker := ClearPending)
    case ClearPending => s.(idlePending := false, worker := LoadInfo)
    case LoadInfo =>
      if s.timerInfo.Some? && s.timerInfo.value.valid then s.(worker := CheckDefer(s.timerInfo.value))
      else s.(worker := SetIdle)
    case CheckDefer(info) =>
      s.(worker := if s.timerRunning && info.deferred then Deferring(info) else CheckRunning(info))
    case Deferring(info) => s.(worker := CheckRunning(info))
    case CheckRunning(info) =>
      if s.timerRunning then s.(worker := InCallback(info))
      else s.(worker := SetIdle)
    case InCallback(info) => s.(worker := Pausing(info))
    case Pausing(info) => s.(worker := CheckRunning(info))
    case SetIdle => s.(idleRunning := true, worker := ClearPendingAgain)
    case ClearPendingAgain => s.(idlePending := false, worker := AwaitWork)
  }

  function ControlStep(s: State): State
    requires Enabled(s, Control)
  {
    match s.controller
    case StopInfo(next) => s.(timerInfo := None, controller := StopRunning(next))
    case StopRunning(next) => s.(timerRunning := false, controller := StopPending(next))
    case StopPending(next) => s.(idlePending := true, controller := AwaitIdle(next))
    case AwaitIdle(next) =>
      s.(controller := if next.Some? then StartInfo(next.value) else Outside)
    case StartInfo(info) => s.(timerInfo := Some(info), controller := StartRunning)
    case StartRunning => s.(timerRunning := true, controller := StartPending)
    case StartPending => s.(idlePending := false, controller := Outside)
  }

  /** What a step of the worker means to an observer. */
  function WorkEvents(s: State): seq<Event> {
    match s.worker
    case LoadInfo => if s.timerInfo.Some? && s.timerInfo.value.valid then [Taken(s.timerInfo.value)] else []
    case CheckDefer(info) => if !s.timerRunning && info.deferred then [DeferralSkipped(info)] else []
    case Deferring(info) => [Deferred(info)]
    case CheckRunning(info) => if s.timerRunning then [CallbackBegins(info)] else []
    case InCallback(info) => [CallbackEnds(info)]
    case Pausing(info) => [Paused(info)]
    case _ => []
  }

  /** What a step means to an observer of callbacks, stops and starts. */
  function Events(s: State, step: Step): seq<Event> {
    if step == Work then WorkEvents(s)
    else if step == Control && s.controller.AwaitIdle? then [Stopped]
    else if step == Control && s.controller.StartInfo? then [Published(s.controller.info)]
    else []
  }

  function Next(s: State, step: Step): State
    requires Enabled(s, step)
  {
    var s' :=
      match step
      case Work => WorkStep(s)
      case CallStop => s.(controller := StopInfo(None))
      case CallStart(info) => s.(controller := StopInfo(Some(info)))
      case Control => ControlStep(s);
    s'.(log := s.log + Events(s, step))
  }

  predicate Possible(s: State, run: seq<Step>)
    decreases |run|
  {
    run != [] ==> Enabled(s, run[0]) && Possible(Next(s, run[0]), run[1..])
  }

  function After(s: State, run: seq<Step>): State
    requires Possible(s, run)
    decreases |run|
  {
    if run == [] then s else After(Next(s, run[0]), run[1..])
  }

  // ---------------------------------------------------------------- the property

  /** What the controller did last, as far as callbacks are concerned: nothing or a completed stop is `None`. */
  function LastPublished(log: seq<Event>): Option<TimerInfo> {
    if log == [] then None
    else match log[|log| - 1]
      case Published(info) => Some(info)
      case Stopped => None
      case _ => LastPublished(log[..|log| - 1])
  }

  /** Callbacks begin and end only for the info published last, with no stop completed in between. */
  predicate CallbacksInTime(log: seq<Event>) {
    forall i | 0 <= i < |log| ::
      match log[i]
      case CallbackBegins(info) => LastPublished(log[..i]) == Some(info) && info.valid
      case CallbackEnds(info) => LastPublished(log[..i]) == Some(info)
      case _ => true
  }

  // ---------------------------------------------------------------- the invariant

  predicate Holds(worker: WorkerPc) {
    worker.CheckDefer? || worker.Deferring? || worker.CheckRunning? || worker.InCallback? || worker.Pausing?
  }

  predicate WorkerIdle(worker: WorkerPc) {
    worker.AwaitWork? || worker.ClearIdle? || worker.ClearPendingAgain?
  }

  predicate Withdrawn(controller: ControllerPc) {
    controller.StopRunning? || controller.StopPending? || controller.AwaitIdle? || controller.StartInfo?
  }

  /** How the cells and the two threads agree, given the info published last. */
  predicate Agreed(s: State, last: Option<TimerInfo>) {
    // idle_running tells where the worker is
    && (s.idleRunning <==> WorkerIdle(s.worker))
    // nothing is published between the first store of a stop and the store of a start
    && (Withdrawn(s.controller) ==> s.timerInfo == None)
    // what is published or held by the worker was published last
    && (s.timerInfo.Some? ==> last == s.timerInfo)
    && (s.controller.Outside? || s.controller.StopInfo? || s.controller.StartRunning? || s.controller.StartPending? ==>
          last == s.timerInfo)
    && (Holds(s.worker) ==> s.worker.info.valid && last == Some(s.worker.info))
    && (s.controller.StartInfo? ==> last == None)
    // timer_running is down from its store in a stop to its store in a start, and up while something is published
    && (s.controller.StopPending? || s.controller.AwaitIdle? || s.controller.StartInfo? ==> !s.timerRunning)
    && (s.timerInfo.Some? && (s.controller.Outside? || s.controller.StopInfo? || s.controller.StartPending?) ==>
          s.timerRunning)
    && (s.timerInfo.Some? && (s.controller.Outside? || s.controller.StopInfo?) ==> !s.idlePending)
  }

  predicate Inv(s: State) {
    Agreed(s, LastPublished(s.log)) && CallbacksInTime(s.log)
  }

  /** The info published last, after one more event. */
  function Later(last: Option<TimerInfo>, events: seq<Event>): Option<TimerInfo> {
    if events == [] then last
    else match events[0]
      case Published(info) => Some(info)
      case Stopped => None
      case _ => last
  }

  lemma {:induction false} LogEvents(log: seq<Event>, events: seq<Event>)
    requires CallbacksInTime(log) && |events| <= 1
    requires forall e | e in events :: e.CallbackBegins? ==> LastPublished(log) == Some(e.info) && e.info.valid
    requires forall e | e in events :: e.CallbackEnds? ==> LastPublished(log) == Some(e.info)
    ensures CallbacksInTime(log + events) && LastPublished(log + events) == Later(LastPublished(log), events)
  {
    if events == [] {
      assert log + events == log;
    } else {
      assert (log + events)[..|log|] == log && (log + events)[|log|] == events[0];
      forall i | 0 <= i < |log| ensures (log + events)[..i] == log[..i] {
      }
    }
  }

  lemma {:induction false} WorkKeepsAgreed(s: State, last: Option<TimerInfo>)
    requires Agreed(s, last) && Enabled(s, Work)
    ensures Agreed(Next(s, Work), Later(last, Events(s, Work)))
  {
  }

  lemma {:induction false} StepKeepsAgreed(s: State, step: Step, last: Option<TimerInfo>)
    requires Agreed(s, last) && Enabled(s, step)
    ensures Agreed(Next(s, step), Later(last, Events(s, step)))
  {
    if step == Work {
      WorkKeepsAgreed(s, last);
    }
  }

  lemma {:induction false} StepKeepsInv(s: State, step: Step)
    requires Inv(s) && Enabled(s, step)
    ensures Inv(Next(s, step))
  {
    StepKeepsAgreed(s, step, LastPublished(s.log));
    LogEvents(s.log, Events(s, step));
  }

  lemma {:induction false} InvAfter(s: State, run: seq<Step>)
    requires Inv(s) && Possible(s, run)
    ensures Inv(After(s, run))
    decreases |run|
  {
    if run != [] {
      StepKeepsInv(s, run[0]);
      InvAfter(Next(s, run[0]), run[1..]);
    }
  }

  /** In every interleaving every callback belongs to the info that was published last, and neither begins nor is
      still running between the return of a stop and the publication by the next start. */
  lemma {:induction false} TimerSafety(run: seq<Step>)
    requires Possible(INITIAL, run)
    ensures var s := After(INITIAL, run);
      && CallbacksInTime(s.log)
      && (LastPublished(s.log) == None ==> !s.worker.InCallback?)
  {
    InvAfter(INITIAL, run);
  }

  // ---------------------------------------------------------------- progress, as far as the cells decide it

  function Works(n: nat): seq<Step> {
    if n == 0 then [] else [Work] + Works(n - 1)
  }

  /** Steps of the worker until it reports idle, once timer_running is down and nothing is published. */
  function ToIdle(worker: WorkerPc): nat {
    match worker
    case CheckDefer(_) => 4
    case Deferring(_) => 4
    case InCallback(_) => 4
    case Pausing(_) => 3
    case CheckRunning(_) => 2
    case ClearPending => 3
    case LoadInfo => 2
    case SetIdle => 1
    case _ => 0
  }

  /** Steps of the worker until the callback runs, once it is published and timer_running is up. */
  function ToCallback(worker: WorkerPc): nat {
    match worker
    case SetIdle => 9
    case ClearPendingAgain => 8
    case AwaitWork => 7
    case ClearIdle => 6
    case ClearPending => 5
    case LoadInfo => 4
    case CheckDefer(_) => 3
    case Deferring(_) => 2
    case Pausing(_) => 2
    case CheckRunning(_) => 1
    case InCallback(_) => 0
  }

  /** A stop that waits gets its answer: the worker reports idle after a few steps of its own, none of which can be
      refused. In particular a pause or a deferral does not have to be repeated. */
  lemma {:induction false} StopIsAnswered(s: State)
    requires Inv(s) && s.controller.AwaitIdle?
    ensures exists n :: 0 <= n <= 4 && Possible(s, Works(n)) && After(s, Works(n)).idleRunning
  {
    var n := AnswerStop(s);
  }

  lemma {:induction false} CloserToIdle(s: State, last: Option<TimerInfo>)
    requires Agreed(s, last) && s.controller.AwaitIdle? && !s.idleRunning
    ensures Enabled(s, Work) && ToIdle(Next(s, Work).worker) < ToIdle(s.worker) <= 4
    ensures Next(s, Work).controller == s.controller
  {
  }

  lemma {:induction false} AnswerStop(s: State) returns (n: nat)
    requires Inv(s) && s.controller.AwaitIdle?
    ensures n <= ToIdle(s.worker) && Possible(s, Works(n)) && After(s, Works(n)).idleRunning
    decreases ToIdle(s.worker)
  {
    if s.idleRunning {
      n := 0;
    } else {
      CloserToIdle(s, LastPublished(s.log));
      StepKeepsInv(s, Work);
      n := AnswerStop(Next(s, Work));
      n := n + 1;
      assert Works(n)[0] == Work && Works(n)[1..] == Works(n - 1);
    }
  }

  /** A start takes effect: if the controller does nothing more, the worker soon runs the published callback. */
  lemma {:induction false} StartTakesEffect(s: State)
    requires Inv(s) && s.controller == Outside && s.timerInfo.Some? && s.timerInfo.value.valid
    ensures exists n :: 0 <= n <= 9 && Possible(s, Works(n)) &&
                        After(s, Works(n)).worker == InCallback(s.timerInfo.value)
  {
    var n := RunCallback(s);
  }

  lemma {:induction false} CloserToCallback(s: State, last: Option<TimerInfo>)
    requires Agreed(s, last) && s.controller == Outside && s.timerInfo.Some? && s.timerInfo.value.valid
    requires !s.worker.InCallback?
    ensures Enabled(s, Work) && ToCallback(Next(s, Work).worker) < ToCallback(s.worker)
    ensures Next(s, Work).timerInfo == s.timerInfo && Next(s, Work).controller == Outside
  {
  }

  lemma {:induction false} RunCallback(s: State) returns (n: nat)
    requires Inv(s) && s.controller == Outside && s.timerInfo.Some? && s.timerInfo.value.valid
    ensures n <= ToCallback(s.worker) && Possible(s, Works(n))
    ensures After(s, Works(n)).worker == InCallback(s.timerInfo.value)
    decreases ToCallback(s.worker)
  {
    if s.worker.InCallback? {
      n := 0;
    } else {
      CloserToCallback(s, LastPublished(s.log));
      StepKeepsInv(s, Work);
      n := RunCallback(Next(s, Work));
      n := n + 1;
      assert Works(n)[0] == Work && Works(n)[1..] == Works(n - 1);
    }
  }
}
