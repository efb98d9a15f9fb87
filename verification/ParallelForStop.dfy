/** How parallel_for stops early: an exception ends the handing out of ids, and a request to exit makes its worker skip
what it takes from then on. */
module ParallelForStop {
  import opened ParallelForBound
  import opened ParallelFors
  import opened Words

  lemma {:induction false} SplitRun(cfg: Config, s: State, run: Run, k: nat)
    requires Possible(cfg, s, run) && k <= |run|
    ensures Possible(cfg, s, run[..k])
    ensures Possible(cfg, After(cfg, s, run[..k]), run[k..])
    ensures After(cfg, s, run) == After(cfg, After(cfg, s, run[..k]), run[k..])
    decreases k
  {
    if k == 0 {
      assert run[0..] == run;
    } else {
      SplitRun(cfg, Step(cfg, s, run[0].0, run[0].1), run[1..], k - 1);
      assert run[..k][0] == run[0] && run[..k][1..] == run[1..][..k - 1] && run[1..][k - 1..] == run[k..];
    }
  }

  // ---------------------------------------------------------------- exceptions

  /** No more ids will be handed out. */
  predicate Closed(cfg: Config, s: State) {
    s.AllDone() || s.current >= cfg.end
  }

  lemma {:induction false} ClosedKept(cfg: Config, s: State, w: nat, a: Action)
    requires cfg.Valid() && cfg.Bounded() && Inv(cfg, s) && Closed(cfg, s) && Enabled(s, w, a)
    ensures Closed(cfg, Step(cfg, s, w, a)) && |Step(cfg, s, w, a).claims| == |s.claims|
  {
    var s' := Step(cfg, s, w, a);
    assert !s.AllDone();
    TotalUpdate(s.workers, Active, w, s'.workers[w]);
    TotalAtLeast(s.workers, Active, w);
    ActiveMeansNotAllDone(s');
  }

  lemma {:induction false} ClosedForGood(cfg: Config, s: State, run: Run)
    requires cfg.Valid() && cfg.Bounded() && Inv(cfg, s) && Closed(cfg, s) && Possible(cfg, s, run)
    ensures |After(cfg, s, run).claims| == |s.claims|
    decreases |run|
  {
    if run != [] {
      ClosedKept(cfg, s, run[0].0, run[0].1);
      StepKeepsInv(cfg, s, run[0].0, run[0].1);
      ClosedForGood(cfg, Step(cfg, s, run[0].0, run[0].1), run[1..]);
    }
  }

  /** An exception stops the others: from the store of `end` on no worker gets an id, in whatever interleaving. So at
      the join every id was handed out before the first store. */
  lemma {:induction false} NothingAfterStore(cfg: Config, run: Run, k: nat)
    requires cfg.Valid() && cfg.Bounded() && Possible(cfg, Init(cfg), run) && k < |run| && run[k].1 == Store
    ensures Possible(cfg, Init(cfg), run[..k])
    ensures |After(cfg, Init(cfg), run).claims| == |After(cfg, Init(cfg), run[..k]).claims|
  {
    SplitRun(cfg, Init(cfg), run, k);
    var s := After(cfg, Init(cfg), run[..k]);
    InitInv(cfg);
    InvAfter(cfg, Init(cfg), run[..k]);
    assert run[k..][0] == run[k] && run[k..][1..] == run[k + 1..];
    StepKeepsInv(cfg, s, run[k].0, Store);
    ClosedForGood(cfg, Step(cfg, s, run[k].0, Store), run[k + 1..]);
  }

  /** A range is given up at its first id when the handler throws there before anybody else comes: the call is over with
      that one claim, and rethrows. */
  lemma {:induction false} FirstThrows(cfg: Config) returns (run: Run)
    requires cfg.Valid() && cfg.Bounded() && cfg.count > 0 && cfg.start < cfg.end
    ensures Possible(cfg, Init(cfg), run)
    ensures var s := After(cfg, Init(cfg), run);
      s.AllDone() && s.lastException && s.claims == [Claim(cfg.start, 0, Threw)]
  {
    var s := Init(cfg);
    var s1 := Step(cfg, s, 0, Fetch);
    var s2 := Step(cfg, s1, 0, Call);
    var s3 := Step(cfg, s2, 0, Throw);
    var s4 := Step(cfg, s3, 0, Catch);
    var s5 := Step(cfg, s4, 0, Store);
    assert s5.claims == [Claim(cfg.start, 0, Threw)];
    run := Retire(cfg, s5, 1, cfg.count - 1);
    run := Prepend(cfg, s4, 0, Store, run);
    run := Prepend(cfg, s3, 0, Catch, run);
    run := Prepend(cfg, s2, 0, Throw, run);
    run := Prepend(cfg, s1, 0, Call, run);
    run := Prepend(cfg, s, 0, Fetch, run);
  }

  // ---------------------------------------------------------------- exits

  /** The first worker, which has asked for its exit, takes the next n ids without handling them. */
  lemma {:induction false} SkipIds(cfg: Config, s: State, n: nat) returns (run: Run)
    requires cfg.Valid() && |s.workers| > 0 && s.workers[0] == Worker(Fetching, true)
    requires n > 0 ==> s.current + n <= cfg.end
    ensures Possible(cfg, s, run)
    ensures var s' := After(cfg, s, run);
      && s'.workers == s.workers && s'.current == s.current + n && s'.lastException == s.lastException
      && |s'.claims| == |s.claims| + n
      && (forall c | 0 <= c < |s.claims| :: s'.claims[c] == s.claims[c])
      && (forall c | |s.claims| <= c < |s'.claims| :: s'.claims[c].outcome == Skipped)
    decreases n
  {
    if n == 0 {
      run := [];
    } else {
      var s1 := Step(cfg, s, 0, Fetch);
      var s2 := Step(cfg, s1, 0, Skip);
      assert s2.workers == s.workers;
      assert s2.claims == s.claims + [Claim(s.current, 0, Skipped)];
      run := SkipIds(cfg, s2, n - 1);
      run := Prepend(cfg, s1, 0, Skip, run);
      run := Prepend(cfg, s, 0, Fetch, run);
    }
  }

  /** The first worker has handled the first id and asked for its exit there. */
  function ExitedFirst(cfg: Config): State
    requires cfg.count > 0
  {
    State(cfg.start + 1, Init(cfg).workers[0 := Worker(Fetching, true)], [Claim(cfg.start, 0, Handled(true))], false)
  }

  lemma {:induction false} ExitFirst(cfg: Config, rest: Run) returns (run: Run)
    requires cfg.Valid() && cfg.count > 0 && cfg.start < cfg.end && Possible(cfg, ExitedFirst(cfg), rest)
    ensures Possible(cfg, Init(cfg), run) && After(cfg, Init(cfg), run) == After(cfg, ExitedFirst(cfg), rest)
  {
    var s := Init(cfg);
    var s1 := Step(cfg, s, 0, Fetch);
    var s2 := Step(cfg, s1, 0, Call);
    assert Step(cfg, s2, 0, Return(true)) == ExitedFirst(cfg);
    run := Prepend(cfg, s2, 0, Return(true), rest);
    run := Prepend(cfg, s1, 0, Call, run);
    run := Prepend(cfg, s, 0, Fetch, run);
  }

  /** The first worker takes what is left, then all workers finish. */
  lemma {:induction false} SkipRest(cfg: Config) returns (run: Run)
    requires cfg.Valid() && cfg.Bounded() && cfg.count > 0 && cfg.start < cfg.end
    ensures Possible(cfg, ExitedFirst(cfg), run)
    ensures var s := After(cfg, ExitedFirst(cfg), run);
      && s.AllDone() && !s.lastException && |s.claims| == cfg.Size()
      && s.claims[0].outcome == Handled(true)
      && forall c | 0 < c < |s.claims| :: s.claims[c].outcome == Skipped
  {
    var s := ExitedFirst(cfg);
    var skip := SkipIds(cfg, s, cfg.Size() - 1);
    var s' := After(cfg, s, skip);
    var retire := Retire(cfg, s', 0, cfg.count);
    RunsCompose(cfg, s, skip, retire);
    run := skip + retire;
  }

  /** A request to exit does not stop the range: when the first worker asks for it at the first id and nobody else comes
      in time, it takes all other ids and handles none. */
  lemma {:induction false} FirstExits(cfg: Config) returns (run: Run)
    requires cfg.Valid() && cfg.Bounded() && cfg.count > 0 && cfg.start < cfg.end
    ensures Possible(cfg, Init(cfg), run)
    ensures var s := After(cfg, Init(cfg), run);
      && s.AllDone() && !s.lastException && Complete(cfg, s)
      && s.claims[0].outcome == Handled(true)
      && forall c | 0 < c < |s.claims| :: s.claims[c].outcome == Skipped
  {
    var rest := SkipRest(cfg);
    run := ExitFirst(cfg, rest);
    InitInv(cfg);
    InvAfter(cfg, Init(cfg), run);
  }
}
