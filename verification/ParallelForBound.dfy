/** The bound on ids and workers under which parallel_for is right is exact: past it the counter wraps while workers
still fetch, and the id 0 is handed out wrongly. (The remark beside the store of `end` in the source says that the
counter may overflow harmlessly; that is so only for the last fetch of all.) */
module ParallelForBound {
  import opened ParallelFors
  import opened Words

  lemma {:induction false} RunsCompose(cfg: Config, s: State, a: Run, b: Run)
    requires Possible(cfg, s, a) && Possible(cfg, After(cfg, s, a), b)
    ensures Possible(cfg, s, a + b) && After(cfg, s, a + b) == After(cfg, After(cfg, s, a), b)
    decreases |a|
  {
    if a == [] {
      assert a + b == b;
    } else {
      assert (a + b)[1..] == a[1..] + b;
      RunsCompose(cfg, Step(cfg, s, a[0].0, a[0].1), a[1..], b);
    }
  }

  lemma {:induction false} Prepend(cfg: Config, s: State, w: nat, a: Action, rest: Run) returns (run: Run)
    requires Enabled(s, w, a) && Possible(cfg, Step(cfg, s, w, a), rest)
    ensures Possible(cfg, s, run) && After(cfg, s, run) == After(cfg, Step(cfg, s, w, a), rest)
  {
    run := [(w, a)] + rest;
    assert run[0] == (w, a) && run[1..] == rest;
  }

  /** The state after the first worker has taken and handled the next id. */
  function AfterId(cfg: Config, s: State): State
    requires |s.workers| > 0 && s.workers[0] == Worker(Fetching, false) && s.current < cfg.end
  {
    State(s.current + 1, s.workers, s.claims + [Claim(s.current, 0, Handled(false))], s.lastException)
  }

  lemma {:induction false} TakeId(cfg: Config, s: State)
    requires cfg.Valid() && |s.workers| > 0 && s.workers[0] == Worker(Fetching, false) && s.current < cfg.end
    ensures Enabled(s, 0, Fetch) && Enabled(Step(cfg, s, 0, Fetch), 0, Call)
    ensures Enabled(Step(cfg, Step(cfg, s, 0, Fetch), 0, Call), 0, Return(false))
    ensures Step(cfg, Step(cfg, Step(cfg, s, 0, Fetch), 0, Call), 0, Return(false)) == AfterId(cfg, s)
  {
    var s3 := Step(cfg, Step(cfg, Step(cfg, s, 0, Fetch), 0, Call), 0, Return(false));
    assert s3.workers == s.workers;
    assert s3.claims == s.claims + [Claim(s.current, 0, Handled(false))];
  }

  /** The first worker takes and handles the next n ids on its own. */
  lemma {:induction false} TakeIds(cfg: Config, s: State, n: nat) returns (run: Run)
    requires cfg.Valid() && |s.workers| > 0 && s.workers[0] == Worker(Fetching, false)
    requires n > 0 ==> s.current + n <= cfg.end
    ensures Possible(cfg, s, run)
    ensures var s' := After(cfg, s, run);
      && s'.workers == s.workers && s'.current == s.current + n
      && |s'.claims| == |s.claims| + n
      && (forall c | 0 <= c < |s.claims| :: s'.claims[c] == s.claims[c])
      && (n > 0 ==> s'.claims[|s.claims|].id == s.current)
    decreases n
  {
    if n == 0 {
      run := [];
    } else {
      TakeId(cfg, s);
      var s' := AfterId(cfg, s);
      var rest := TakeIds(cfg, s', n - 1);
      run := Prepend(cfg, Step(cfg, Step(cfg, s, 0, Fetch), 0, Call), 0, Return(false), rest);
      run := Prepend(cfg, Step(cfg, s, 0, Fetch), 0, Call, run);
      run := Prepend(cfg, s, 0, Fetch, run);
    }
  }

  /** Workers `from`, `from` + 1, ... fetch once each and finish: the range is used up. */
  lemma {:induction false} Retire(cfg: Config, s: State, from: nat, n: nat) returns (run: Run)
    requires cfg.Valid() && from + n <= |s.workers| && cfg.end <= s.current && s.current + n <= TWO_TO_THE_64
    requires forall w | from <= w < |s.workers| :: s.workers[w].phase == Fetching
    ensures Possible(cfg, s, run)
    ensures var s' := After(cfg, s, run);
      && s'.claims == s.claims && |s'.workers| == |s.workers|
      && (n > 0 ==> s'.current == (s.current + n) % TWO_TO_THE_64)
      && (forall w | from + n <= w < |s.workers| :: s'.workers[w].phase == Fetching)
      && (forall w | from <= w < from + n :: s'.workers[w].phase == Done)
      && (forall w | 0 <= w < from :: s'.workers[w] == s.workers[w])
      && s'.lastException == s.lastException
    decreases n
  {
    if n == 0 {
      run := [];
    } else {
      var s1 := Step(cfg, s, from, Fetch);
      var rest := [];
      if n > 1 {
        rest := Retire(cfg, s1, from + 1, n - 1);
      }
      run := Prepend(cfg, s, from, Fetch, rest);
    }
  }

  /** One worker handles the whole range, then so many others retire that the counter is 0 again. */
  lemma {:induction false} UseUp(cfg: Config) returns (run: Run)
    requires cfg.Valid() && !cfg.Bounded()
    ensures Possible(cfg, Init(cfg), run)
    ensures var s := After(cfg, Init(cfg), run);
      && s.current == 0 && |s.workers| == cfg.count
      && s.workers[TWO_TO_THE_64 - cfg.Top()].phase == Fetching
      && |s.claims| == cfg.Size() && (cfg.Size() > 0 ==> s.claims[0].id == cfg.start)
  {
    var take := TakeIds(cfg, Init(cfg), cfg.Size());
    var s := After(cfg, Init(cfg), take);
    assert s.workers == Init(cfg).workers && s.current == cfg.Top();
    var retire := Retire(cfg, s, 0, TWO_TO_THE_64 - cfg.Top());
    RunsCompose(cfg, Init(cfg), take, retire);
    run := take + retire;
  }

  /** Past the bound there is an interleaving that hands out the id 0 outside the range or a second time. */
  lemma {:induction false} WrapsPastBound(cfg: Config) returns (run: Run)
    requires cfg.Valid() && !cfg.Bounded() && cfg.end > 0
    ensures Possible(cfg, Init(cfg), run) && !WellClaimed(cfg, After(cfg, Init(cfg), run))
  {
    var used := UseUp(cfg);
    var s := After(cfg, Init(cfg), used);
    var k := TWO_TO_THE_64 - cfg.Top();
    var last := Prepend(cfg, s, k, Fetch, []);
    RunsCompose(cfg, Init(cfg), used, last);
    run := used + last;
    var s' := After(cfg, Init(cfg), run);
    assert s'.claims == s.claims + [Claim(0, k, Waiting)];
    assert s'.claims[|s.claims|].id == 0;
    assert cfg.start == 0 ==> s'.claims[0].id == 0;
  }

  /** With an empty range that ends at 0 no counter value is ever below the end. */
  lemma {:induction false} NothingBelowZero(cfg: Config, s: State, run: Run)
    requires cfg.end == 0 && s.claims == [] && Possible(cfg, s, run)
    ensures After(cfg, s, run).claims == []
    decreases |run|
  {
    if run != [] {
      NothingBelowZero(cfg, Step(cfg, s, run[0].0, run[0].1), run[1..]);
    }
  }

  /** Exactly when every interleaving hands out ids rightly. */
  lemma {:induction false} BoundIsExact(cfg: Config)
    requires cfg.Valid()
    ensures (forall run | Possible(cfg, Init(cfg), run) :: WellClaimed(cfg, After(cfg, Init(cfg), run)))
       <==> cfg.Bounded() || cfg.end == 0
  {
    if cfg.end == 0 {
      forall run | Possible(cfg, Init(cfg), run) ensures WellClaimed(cfg, After(cfg, Init(cfg), run)) {
        NothingBelowZero(cfg, Init(cfg), run);
      }
    } else if cfg.Bounded() {
      forall run | Possible(cfg, Init(cfg), run) ensures WellClaimed(cfg, After(cfg, Init(cfg), run)) {
        Safety(cfg, run);
      }
    } else {
      var run := WrapsPastBound(cfg);
    }
  }
}
