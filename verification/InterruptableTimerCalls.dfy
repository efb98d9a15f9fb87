/** What calls of start and stop promise, from the call to the return and after it, and how callbacks are paced. */
module InterruptableTimerCalls {
  import opened InterruptableTimers
  import opened Wrappers

  // ---------------------------------------------------------------- runs

  lemma {:induction false} RunsCompose(s: State, a: seq<Step>, b: seq<Step>)
    requires Possible(s, a) && Possible(After(s, a), b)
    ensures Possible(s, a + b) && After(s, a + b) == After(After(s, a), b)
    decreases |a|
  {
    if a == [] {
      assert a + b == b;
    } else {
      assert (a + b)[1..] == a[1..] + b;
      RunsCompose(Next(s, a[0]), a[1..], b);
    }
  }

  lemma {:induction false} Prepend(s: State, step: Step, rest: seq<Step>)
    requires Enabled(s, step) && Possible(Next(s, step), rest)
    ensures Possible(s, [step] + rest) && After(s, [step] + rest) == After(Next(s, step), rest)
  {
    assert ([step] + rest)[1..] == rest;
  }

  /** The controller makes no further call. */
  predicate CallFree(run: seq<Step>) {
    forall i | 0 <= i < |run| :: run[i] == Work || run[i] == Control
  }

  lemma {:induction false} WorksCallFree(n: nat)
    ensures CallFree(Works(n))
  {
    if n > 0 {
      WorksCallFree(n - 1);
    }
  }

  lemma {:induction false} WorkKeepsControl(s: State)
    requires Enabled(s, Work)
    ensures Next(s, Work).controller == s.controller
  {
  }

  lemma {:induction false} WorksKeepControl(s: State, n: nat)
    requires Possible(s, Works(n))
    ensures After(s, Works(n)).controller == s.controller
    decreases n
  {
    if n > 0 {
      assert Works(n)[1..] == Works(n - 1);
      WorkKeepsControl(s);
      WorksKeepControl(Next(s, Work), n - 1);
    }
  }

  // ---------------------------------------------------------------- what a call does

  /** The events of the controller in a log. */
  function ControlEvents(log: seq<Event>): seq<Event> {
    if log == [] then []
    else
      var last := log[|log| - 1];
      ControlEvents(log[..|log| - 1]) + (if last.Published? || last.Stopped? then [last] else [])
  }

  lemma {:induction false} ControlAppend(log: seq<Event>, events: seq<Event>)
    requires |events| <= 1
    ensures ControlEvents(log + events)
         == ControlEvents(log) + if events != [] && (events[0].Published? || events[0].Stopped?) then events else []
  {
    if events == [] {
      assert log + events == log;
    } else {
      assert (log + events)[..|log|] == log && (log + events)[|log|] == events[0] && [events[0]] == events;
    }
  }

  /** What was published last, by the controller's events alone. */
  lemma {:induction false} LastOfControl(log: seq<Event>)
    ensures var events := ControlEvents(log);
      LastPublished(log)
      == if events != [] && events[|events| - 1].Published? then Some(events[|events| - 1].info) else None
  {
    if log != [] {
      LastOfControl(log[..|log| - 1]);
    }
  }

  /** What the controller still has to report before it returns. */
  function Due(controller: ControllerPc): seq<Event> {
    match controller
    case Outside => []
    case StartInfo(info) => [Published(info)]
    case StartRunning => []
    case StartPending => []
    case _ => if controller.next.Some? then [Stopped, Published(controller.next.value)] else [Stopped]
  }

  /** What will be published when it returns. */
  function InfoDue(s: State): Option<TimerInfo> {
    match s.controller
    case Outside => s.timerInfo
    case StartInfo(info) => Some(info)
    case StartRunning => s.timerInfo
    case StartPending => s.timerInfo
    case StopInfo(next) => next
    case _ => if s.controller.next.Some? then s.controller.next else s.timerInfo
  }

  /** Whether timer_running will be up when it returns. */
  function RunningDue(s: State): bool {
    match s.controller
    case Outside => s.timerRunning
    case StartInfo(_) => true
    case StartRunning => true
    case StartPending => s.timerRunning
    case AwaitIdle(next) => if next.Some? then true else s.timerRunning
    case StopPending(next) => if next.Some? then true else s.timerRunning
    case _ => s.controller.next.Some?
  }

  lemma {:induction false} Rejoin(a: seq<Event>, b: seq<Event>, c: seq<Event>)
    ensures a + b + c == a + (b + c)
    ensures a + [] == a
  {
  }

  lemma {:induction false} DueControl(s: State)
    requires Enabled(s, Control)
    ensures Due(s.controller) == Events(s, Control) + Due(Next(s, Control).controller)
    ensures InfoDue(Next(s, Control)) == InfoDue(s) && RunningDue(Next(s, Control)) == RunningDue(s)
  {
    var rest := Due(Next(s, Control).controller);
    assert [] + rest == rest;
    if s.controller.AwaitIdle? && s.controller.next.Some? {
      assert [Stopped] + [Published(s.controller.next.value)] == [Stopped, Published(s.controller.next.value)];
    } else {
      assert Events(s, Control) != [] ==> Events(s, Control) + [] == Events(s, Control);
    }
  }

  lemma {:induction false} DueWork(s: State)
    requires Enabled(s, Work)
    ensures Next(s, Work).controller == s.controller
    ensures InfoDue(Next(s, Work)) == InfoDue(s) && RunningDue(Next(s, Work)) == RunningDue(s)
    ensures forall e | e in Events(s, Work) :: !e.Published? && !e.Stopped?
  {
  }

  lemma {:induction false} DueStep(s: State, step: Step)
    requires Enabled(s, step) && (step == Work || step == Control)
    ensures ControlEvents(Next(s, step).log) + Due(Next(s, step).controller) == ControlEvents(s.log) + Due(s.controller)
    ensures InfoDue(Next(s, step)) == InfoDue(s) && RunningDue(Next(s, step)) == RunningDue(s)
  {
    ControlAppend(s.log, Events(s, step));
    if step == Work {
      DueWork(s);
      Rejoin(ControlEvents(s.log), [], []);
    } else {
      DueControl(s);
      Rejoin(ControlEvents(s.log), Events(s, Control), Due(Next(s, Control).controller));
    }
  }

  lemma {:induction false} DueRun(s: State, run: seq<Step>)
    requires Possible(s, run) && CallFree(run)
    ensures var end := After(s, run);
      && ControlEvents(end.log) + Due(end.controller) == ControlEvents(s.log) + Due(s.controller)
      && InfoDue(end) == InfoDue(s) && RunningDue(end) == RunningDue(s)
    decreases |run|
  {
    if run != [] {
      DueStep(s, run[0]);
      DueRun(Next(s, run[0]), run[1..]);
    }
  }

  /** A stop, from its call to its return, whatever the worker does meanwhile and has done before: it reports just that
      it stopped, and at its return nothing is published, timer_running is down, and no callback is running. */
  lemma {:induction false} StopWithdraws(before: seq<Step>, run: seq<Step>)
    requires Possible(INITIAL, before) && After(INITIAL, before).controller == Outside
    requires Possible(After(INITIAL, before), [CallStop] + run) && CallFree(run)
    requires After(After(INITIAL, before), [CallStop] + run).controller == Outside
    ensures var s := After(INITIAL, before);
      var end := After(s, [CallStop] + run);
      && ControlEvents(end.log) == ControlEvents(s.log) + [Stopped]
      && end.timerInfo == None && !end.timerRunning && !end.worker.InCallback?
      && LastPublished(end.log) == None
  {
    var s := After(INITIAL, before);
    var end := After(s, [CallStop] + run);
    assert ([CallStop] + run)[1..] == run;
    InvAfter(INITIAL, before);
    InvAfter(s, [CallStop] + run);
    assert Next(s, CallStop).log == s.log;
    DueRun(Next(s, CallStop), run);
    Rejoin(ControlEvents(end.log), [], []);
    LastOfControl(end.log);
    assert !end.worker.InCallback? && end.timerInfo == None;
  }

  /** A start, from its call to its return: it reports that it stopped and then that it published its info, and at its
      return that info is published and timer_running is up. */
  lemma {:induction false} StartPublishes(before: seq<Step>, info: TimerInfo, run: seq<Step>)
    requires Possible(INITIAL, before) && After(INITIAL, before).controller == Outside
    requires Possible(After(INITIAL, before), [CallStart(info)] + run) && CallFree(run)
    requires After(After(INITIAL, before), [CallStart(info)] + run).controller == Outside
    ensures var s := After(INITIAL, before);
      var end := After(s, [CallStart(info)] + run);
      && ControlEvents(end.log) == ControlEvents(s.log) + [Stopped, Published(info)]
      && end.timerInfo == Some(info) && end.timerRunning && !end.idlePending
  {
    var s := After(INITIAL, before);
    var end := After(s, [CallStart(info)] + run);
    assert ([CallStart(info)] + run)[1..] == run;
    InvAfter(INITIAL, before);
    InvAfter(s, [CallStart(info)] + run);
    assert Next(s, CallStart(info)).log == s.log;
    DueRun(Next(s, CallStart(info)), run);
    Rejoin(ControlEvents(end.log), [], []);
  }

  lemma {:induction false} LogGrows(s: State, run: seq<Step>)
    requires Possible(s, run)
    ensures s.log <= After(s, run).log
    decreases |run|
  {
    if run != [] {
      LogGrows(Next(s, run[0]), run[1..]);
    }
  }

  lemma {:induction false} StaysUnpublished(log: seq<Event>, n: nat, i: nat)
    requires n <= i <= |log| && LastPublished(log[..n]) == None
    requires forall k | n <= k < i :: !log[k].Published?
    ensures LastPublished(log[..i]) == None
    decreases i
  {
    if n < i {
      StaysUnpublished(log, n, i - 1);
      assert log[..i][..i - 1] == log[..i - 1];
    }
  }

  /** Once nothing is published, no callback begins or ends before something is. */
  lemma {:induction false} SilentUntilPublished(s: State, run: seq<Step>)
    requires Inv(s) && LastPublished(s.log) == None && Possible(s, run)
    requires forall i | |s.log| <= i < |After(s, run).log| :: !After(s, run).log[i].Published?
    ensures s.log <= After(s, run).log
    ensures forall i | |s.log| <= i < |After(s, run).log| ::
              !After(s, run).log[i].CallbackBegins? && !After(s, run).log[i].CallbackEnds?
  {
    var log := After(s, run).log;
    InvAfter(s, run);
    LogGrows(s, run);
    assert log[..|s.log|] == s.log;
    forall i | |s.log| <= i < |log| ensures !log[i].CallbackBegins? && !log[i].CallbackEnds? {
      StaysUnpublished(log, |s.log|, i);
    }
  }

  /** After the return of a stop no callback begins, or ends, before the next start publishes: in every continuation,
      whatever is called in it. */
  lemma {:induction false} StopSilences(before: seq<Step>, run: seq<Step>, later: seq<Step>)
    requires Possible(INITIAL, before) && After(INITIAL, before).controller == Outside
    requires Possible(After(INITIAL, before), [CallStop] + run) && CallFree(run)
    requires After(After(INITIAL, before), [CallStop] + run).controller == Outside
    requires Possible(After(After(INITIAL, before), [CallStop] + run), later)
    requires var s := After(After(INITIAL, before), [CallStop] + run);
      forall i | |s.log| <= i < |After(s, later).log| :: !After(s, later).log[i].Published?
    ensures var s := After(After(INITIAL, before), [CallStop] + run);
      forall i | |s.log| <= i < |After(s, later).log| ::
        !After(s, later).log[i].CallbackBegins? && !After(s, later).log[i].CallbackEnds?
  {
    StopWithdraws(before, run);
    InvAfter(INITIAL, before);
    InvAfter(After(INITIAL, before), [CallStop] + run);
    SilentUntilPublished(After(After(INITIAL, before), [CallStop] + run), later);
  }

  // ---------------------------------------------------------------- calls return

  /** From the first store of a stop on, alone or as part of a start, its end can be reached. */
  lemma {:induction false} StopPart(s: State, next: Option<TimerInfo>) returns (run: seq<Step>)
    requires Inv(s) && s.controller == StopInfo(next)
    ensures Possible(s, run) && CallFree(run) && Inv(After(s, run))
    ensures After(s, run).controller == if next.Some? then StartInfo(next.value) else Outside
  {
    var s1 := Next(s, Control);
    var s2 := Next(s1, Control);
    var s3 := Next(s2, Control);
    StepKeepsInv(s, Control);
    StepKeepsInv(s1, Control);
    StepKeepsInv(s2, Control);
    var n := AnswerStop(s3);
    WorksKeepControl(s3, n);
    WorksCallFree(n);
    var s4 := After(s3, Works(n));
    Prepend(s4, Control, []);
    RunsCompose(s3, Works(n), [Control] + []);
    run := Works(n) + ([Control] + []);
    Prepend(s2, Control, run);
    run := [Control] + run;
    Prepend(s1, Control, run);
    run := [Control] + run;
    Prepend(s, Control, run);
    run := [Control] + run;
    InvAfter(s, run);
  }

  /** A stop can always return: its call is followed by a run that ends with its return. */
  lemma {:induction false} StopReturns(s: State)
    requires Inv(s) && s.controller == Outside
    ensures exists run :: CallFree(run) && Possible(s, [CallStop] + run)
                          && After(s, [CallStop] + run).controller == Outside
  {
    StepKeepsInv(s, CallStop);
    var run := StopPart(Next(s, CallStop), None);
    Prepend(s, CallStop, run);
  }

  /** A start can always return, and its callback can run: whatever state earlier calls have left. */
  lemma {:induction false} StartRuns(s: State, info: TimerInfo)
    requires Inv(s) && s.controller == Outside && info.valid
    ensures exists run :: CallFree(run) && Possible(s, [CallStart(info)] + run)
                          && After(s, [CallStart(info)] + run).controller == Outside
                          && After(s, [CallStart(info)] + run).worker == InCallback(info)
  {
    StepKeepsInv(s, CallStart(info));
    var s0 := Next(s, CallStart(info));
    var stop := StopPart(s0, Some(info));
    var s1 := After(s0, stop);
    var rest := StartPart(s1, info);
    RunsCompose(s0, stop, rest);
    Prepend(s, CallStart(info), stop + rest);
  }

  lemma {:induction false} StartPart(s: State, info: TimerInfo) returns (run: seq<Step>)
    requires Inv(s) && s.controller == StartInfo(info) && info.valid
    ensures Possible(s, run) && CallFree(run)
    ensures After(s, run).controller == Outside && After(s, run).worker == InCallback(info)
  {
    var s1 := Next(s, Control);
    var s2 := Next(s1, Control);
    var s3 := Next(s2, Control);
    StepKeepsInv(s, Control);
    StepKeepsInv(s1, Control);
    StepKeepsInv(s2, Control);
    var n := RunCallback(s3);
    WorksKeepControl(s3, n);
    WorksCallFree(n);
    run := Works(n);
    Prepend(s2, Control, run);
    run := [Control] + run;
    Prepend(s1, Control, run);
    run := [Control] + run;
    Prepend(s, Control, run);
    run := [Control] + run;
  }

  /** A stop of a timer at rest leaves its worker waiting. */
  lemma {:induction false} StopParks(s: State)
    requires s.controller == Outside && s.worker == AwaitWork && s.idleRunning
    ensures var run := [CallStop, Control, Control, Control, Control];
      && Possible(s, run)
      && After(s, run).controller == Outside && After(s, run).worker == AwaitWork && !Enabled(After(s, run), Work)
  {
    var s1 := Next(s, CallStop);
    var s2 := Next(s1, Control);
    var s3 := Next(s2, Control);
    var s4 := Next(s3, Control);
    Prepend(s4, Control, []);
    Prepend(s3, Control, [Control]);
    Prepend(s2, Control, [Control, Control]);
    Prepend(s1, Control, [Control, Control, Control]);
    Prepend(s, CallStop, [Control, Control, Control, Control]);
    assert [Control] + [] == [Control] && [Control] + [Control] == [Control, Control];
    assert [Control] + [Control, Control] == [Control, Control, Control];
    assert [Control] + [Control, Control, Control] == [Control, Control, Control, Control];
    assert [CallStop] + [Control, Control, Control, Control] == [CallStop, Control, Control, Control, Control];
  }

  /** A worker that has been woken reports that it is not idle and takes back idle_pending before it looks for an
      info. */
  lemma {:induction false} RoundBegins(s: State)
    requires s.worker == ClearIdle
    ensures Possible(s, [Work, Work])
    ensures var end := After(s, [Work, Work]); end.worker == LoadInfo && !end.idleRunning && !end.idlePending
  {
    Prepend(Next(s, Work), Work, []);
    Prepend(s, Work, [Work]);
    assert [Work] + [] == [Work] && [Work] + [Work] == [Work, Work];
  }

  // ---------------------------------------------------------------- pacing

  /** The worker's last event. */
  function LastWork(log: seq<Event>): Option<Event> {
    if log == [] then None
    else
      var last := log[|log| - 1];
      if last.Published? || last.Stopped? then LastWork(log[..|log| - 1]) else Some(last)
  }

  /** A callback may follow a pause after the one before, a deferral, or the load of an info that is not deferred; of
      one that is, only if timer_running was down when the worker looked. */
  predicate MayBegin(last: Option<Event>, info: TimerInfo) {
    match last
    case Some(Paused(i)) => i == info
    case Some(Deferred(i)) => i == info && info.deferred
    case Some(DeferralSkipped(i)) => i == info && info.deferred
    case Some(Taken(i)) => i == info && !info.deferred
    case _ => false
  }

  predicate CallbacksPaced(log: seq<Event>) {
    forall i | 0 <= i < |log| && log[i].CallbackBegins? :: MayBegin(LastWork(log[..i]), log[i].info)
  }

  /** How the worker's position and its last event agree. */
  predicate PaceAgreed(worker: WorkerPc, last: Option<Event>) {
    match worker
    case CheckDefer(info) => last == Some(Taken(info))
    case Deferring(info) => last == Some(Taken(info)) && info.deferred
    case CheckRunning(info) => MayBegin(last, info)
    case InCallback(info) => last == Some(CallbackBegins(info))
    case Pausing(info) => last == Some(CallbackEnds(info))
    case _ => true
  }

  lemma {:induction false} LastWorkAppend(log: seq<Event>, events: seq<Event>)
    requires |events| <= 1
    ensures LastWork(log + events)
         == if events == [] || events[0].Published? || events[0].Stopped? then LastWork(log) else Some(events[0])
  {
    if events == [] {
      assert log + events == log;
    } else {
      assert (log + events)[..|log|] == log;
    }
  }

  lemma {:induction false} PaceWork(s: State, last: Option<Event>)
    requires Enabled(s, Work) && PaceAgreed(s.worker, last)
    ensures var events := WorkEvents(s);
      && PaceAgreed(WorkStep(s).worker, if events == [] then last else Some(events[0]))
      && (forall e | e in events :: !e.Published? && !e.Stopped? && (e.CallbackBegins? ==> MayBegin(last, e.info)))
  {
  }

  lemma {:induction false} PacedAppend(log: seq<Event>, events: seq<Event>)
    requires |events| <= 1 && CallbacksPaced(log)
    requires forall e | e in events && e.CallbackBegins? :: MayBegin(LastWork(log), e.info)
    ensures CallbacksPaced(log + events)
  {
    forall i | 0 <= i < |log + events| && (log + events)[i].CallbackBegins?
      ensures MayBegin(LastWork((log + events)[..i]), (log + events)[i].info)
    {
      if i < |log| {
        assert (log + events)[..i] == log[..i];
      } else {
        assert (log + events)[..i] == log && (log + events)[i] == events[0];
      }
    }
  }

  lemma {:induction false} PaceLog(log: seq<Event>, events: seq<Event>, worker: WorkerPc)
    requires |events| <= 1 && CallbacksPaced(log)
    requires forall e | e in events && e.CallbackBegins? :: MayBegin(LastWork(log), e.info)
    requires PaceAgreed(worker, if events == [] || events[0].Published? || events[0].Stopped? then LastWork(log)
                                else Some(events[0]))
    ensures PaceAgreed(worker, LastWork(log + events)) && CallbacksPaced(log + events)
  {
    LastWorkAppend(log, events);
    PacedAppend(log, events);
  }

  lemma {:induction false} PaceStep(s: State, step: Step)
    requires Enabled(s, step) && PaceAgreed(s.worker, LastWork(s.log)) && CallbacksPaced(s.log)
    ensures PaceAgreed(Next(s, step).worker, LastWork(Next(s, step).log)) && CallbacksPaced(Next(s, step).log)
  {
    if step == Work {
      PaceWork(s, LastWork(s.log));
    }
    PaceLog(s.log, Events(s, step), Next(s, step).worker);
  }

  lemma {:induction false} PaceRun(s: State, run: seq<Step>)
    requires Possible(s, run) && PaceAgreed(s.worker, LastWork(s.log)) && CallbacksPaced(s.log)
    ensures CallbacksPaced(After(s, run).log)
    decreases |run|
  {
    if run != [] {
      PaceStep(s, run[0]);
      PaceRun(Next(s, run[0]), run[1..]);
    }
  }

  /** In every interleaving there is a wait before every callback: the pause after the one before it or, before the
      first of an info that is deferred, the deferral, unless that was skipped. */
  lemma {:induction false} Pacing(run: seq<Step>)
    requires Possible(INITIAL, run)
    ensures CallbacksPaced(After(INITIAL, run).log)
  {
    PaceRun(INITIAL, run);
  }

  /** The worker defers the first callback exactly if it finds timer_running up, and finds it down only while the
      controller is inside a call. */
  lemma {:induction false} DefersExactly(before: seq<Step>)
    requires Possible(INITIAL, before)
    ensures var s := After(INITIAL, before);
      s.worker.CheckDefer? && s.worker.info.deferred ==>
        && (Next(s, Work).worker == Deferring(s.worker.info) <==> s.timerRunning)
        && (!s.timerRunning ==> s.controller != Outside && s.controller != StartPending && !s.controller.StopInfo?)
  {
    InvAfter(INITIAL, before);
  }

  /** A deferral can be skipped: when the worker comes round once more just before a start, it may find the info before
      timer_running is raised, and run the callback at once. */
  lemma {:induction false} DeferralMayBeSkipped(s: State, info: TimerInfo) returns (run: seq<Step>)
    requires s.controller == Outside && s.worker == AwaitWork && !s.idlePending && s.idleRunning
    requires info.valid && info.deferred
    ensures Possible(s, run)
    ensures var end := After(s, run);
      && end.worker == InCallback(info) && |end.log| > 1
      && end.log[|end.log| - 2] == DeferralSkipped(info) && end.log[|end.log| - 1] == CallbackBegins(info)
  {
    var s1 := Next(s, Work);
    var s2 := Next(s1, CallStart(info));
    var s3 := Next(s2, Control);
    var s4 := Next(s3, Control);
    var s5 := Next(s4, Control);
    var s6 := Next(s5, Control);
    var s7 := Next(s6, Control);
    run := SkipDeferral(s7, info);
    Prepend(s6, Control, run);
    run := [Control] + run;
    Prepend(s5, Control, run);
    run := [Control] + run;
    Prepend(s4, Control, run);
    run := [Control] + run;
    Prepend(s3, Control, run);
    run := [Control] + run;
    Prepend(s2, Control, run);
    run := [Control] + run;
    Prepend(s1, CallStart(info), run);
    run := [CallStart(info)] + run;
    Prepend(s, Work, run);
    run := [Work] + run;
  }

  lemma {:induction false} SkipDeferral(s: State, info: TimerInfo) returns (run: seq<Step>)
    requires s.controller == StartRunning && s.worker == ClearIdle && s.timerInfo == Some(info) && !s.timerRunning
    requires info.valid && info.deferred
    ensures Possible(s, run)
    ensures var end := After(s, run);
      && end.worker == InCallback(info)
      && end.log == s.log + [Taken(info)] + [DeferralSkipped(info)] + [CallbackBegins(info)]
  {
    var s1 := Next(s, Work);
    var s2 := Next(s1, Work);
    var s3 := Next(s2, Work);
    var s4 := Next(s3, Work);
    var s5 := Next(s4, Control);
    assert s2.log == s.log && s5.log == s.log + [Taken(info)] + [DeferralSkipped(info)];
    Prepend(s5, Work, []);
    run := [Work] + [];
    Prepend(s4, Control, run);
    run := [Control] + run;
    Prepend(s3, Work, run);
    run := [Work] + run;
    Prepend(s2, Work, run);
    run := [Work] + run;
    Prepend(s1, Work, run);
    run := [Work] + run;
    Prepend(s, Work, run);
    run := [Work] + run;
  }

  /** A worker whose callback ends while a stop waits reports idle and comes round once more. */
  lemma {:induction false} RoundEnds(s: State, info: TimerInfo) returns (run: seq<Step>)
    requires s.controller == AwaitIdle(None) && s.worker == InCallback(info) && !s.timerRunning
    ensures Possible(s, run)
    ensures var end := After(s, run);
      end.controller == Outside && end.worker == AwaitWork && !end.idlePending && end.idleRunning
  {
    var s1 := Next(s, Work);
    var s2 := Next(s1, Work);
    var s3 := Next(s2, Work);
    var s4 := Next(s3, Work);
    var s5 := Next(s4, Work);
    Prepend(s5, Control, []);
    run := [Control] + [];
    Prepend(s4, Work, run);
    run := [Work] + run;
    Prepend(s3, Work, run);
    run := [Work] + run;
    Prepend(s2, Work, run);
    run := [Work] + run;
    Prepend(s1, Work, run);
    run := [Work] + run;
    Prepend(s, Work, run);
    run := [Work] + run;
  }

  /** Such a state is what a stop can leave: the worker clears idle_pending behind the controller that has set it. */
  lemma {:induction false} StopLeavesWorkerTurning(s: State, info: TimerInfo) returns (run: seq<Step>)
    requires s.controller == Outside && s.worker == InCallback(info)
    ensures Possible(s, run)
    ensures var end := After(s, run);
      end.controller == Outside && end.worker == AwaitWork && !end.idlePending && end.idleRunning
  {
    var s1 := Next(s, CallStop);
    var s2 := Next(s1, Control);
    var s3 := Next(s2, Control);
    var s4 := Next(s3, Control);
    run := RoundEnds(s4, info);
    Prepend(s3, Control, run);
    run := [Control] + run;
    Prepend(s2, Control, run);
    run := [Control] + run;
    Prepend(s1, Control, run);
    run := [Control] + run;
    Prepend(s, CallStop, run);
    run := [CallStop] + run;
  }

  /** A whole run from the constructor on in which a deferral is skipped: start, stop, and a deferred start. */
  lemma {:induction false} SkippedDeferralIsReachable(first: TimerInfo, second: TimerInfo) returns (run: seq<Step>)
    requires first.valid && second.valid && second.deferred
    ensures Possible(INITIAL, run)
    ensures var end := After(INITIAL, run);
      end.worker == InCallback(second)
      && |end.log| > 1 && end.log[|end.log| - 2] == DeferralSkipped(second)
  {
    StartRuns(INITIAL, first);
    var a :| CallFree(a) && Possible(INITIAL, [CallStart(first)] + a)
             && After(INITIAL, [CallStart(first)] + a).controller == Outside
             && After(INITIAL, [CallStart(first)] + a).worker == InCallback(first);
    var s := After(INITIAL, [CallStart(first)] + a);
    var b := StopLeavesWorkerTurning(s, first);
    var c := DeferralMayBeSkipped(After(s, b), second);
    RunsCompose(s, b, c);
    RunsCompose(INITIAL, [CallStart(first)] + a, b + c);
    run := [CallStart(first)] + a + (b + c);
  }
}
