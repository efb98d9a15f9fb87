/** A delegate under concurrent use: one thread changes it step by step while others invoke it.

Published copies live at addresses that are never reused here; a reader holds the address it loaded. Handlers run
between the steps of a reader, so what they do to the delegate is covered by the writer's steps. Sequential
consistency is assumed. */
module DelegateReaders {
  import opened Words
  import opened Wrappers
  import opened Delegates

  /** A completed change, with the ids that were handed out. */
  datatype Change<F> = Added(entries: seq<Entry<F>>) | Removed(id: nat)

  /** The listeners registered after the given changes. */
  function Registered<F>(changes: seq<Change<F>>): seq<Entry<F>> {
    if changes == [] then []
    else
      var before := Registered(changes[..|changes| - 1]);
      match changes[|changes| - 1]
      case Added(entries) => before + entries
      case Removed(id) => Without(before, id)
  }

  /** The writer: between two changes, in the middle of adding (some added, some still to add), or about to publish. */
  datatype Writer<F> = Idle | Adding(added: seq<Entry<F>>, rest: seq<Option<F>>) | Publishing(change: Change<F>)

  /** A reader walks the copy at `address` from position `pos` on. */
  datatype Reader<F> = Reader(address: nat, pos: nat, called: seq<F>, finished: bool)

  datatype State<F> = State(
    counter: nat,
    listeners: seq<Entry<F>>,
    copies: seq<seq<Option<F>>>,   // every copy ever published; the last one is current
    changes: seq<Change<F>>,       // the changes completed by the publications after the first
    writer: Writer<F>,
    readers: seq<Reader<F>>)

  function Init<F>(): State<F> {
    State(0, [], [Copy<F>([])], [], Idle, [])
  }

  datatype Step<F> =
    | BeginAdd(funcs: seq<Option<F>>)  // += of one function, or of another delegate's functions
    | AddOne
    | Remove(id: nat)
    | Publish
    | CountElsewhere                   // another delegate takes a counter value
    | Load                             // a new invocation loads the current copy
    | Walk(r: nat)                     // invocation r takes its next step

  predicate Enabled<F(==)>(s: State<F>, step: Step<F>) {
    match step
    case BeginAdd(_) => s.writer == Idle
    case AddOne => s.writer.Adding? && s.writer.rest != []
    case Remove(_) => s.writer == Idle
    case Publish => s.writer.Publishing? || (s.writer.Adding? && s.writer.rest == [])
    case CountElsewhere => true
    case Load => s.copies != []
    case Walk(r) =>
      && r < |s.readers| && !s.readers[r].finished
      && s.readers[r].address < |s.copies| && s.readers[r].pos < |s.copies[s.readers[r].address]|
  }

  function Next<F(==)>(s: State<F>, step: Step<F>): State<F>
    requires Enabled(s, step)
  {
    match step
    case BeginAdd(funcs) => s.(writer := Adding([], funcs))
    case AddOne =>
      var entry := Entry(s.counter + 1, s.writer.rest[0]);
      s.(counter := s.counter + 1,
         listeners := s.listeners + [entry],
         writer := Adding(s.writer.added + [entry], s.writer.rest[1..]))
    case Remove(id) =>
      if exists i :: 0 <= i < |s.listeners| && s.listeners[i].id == id
      then s.(listeners := Without(s.listeners, id), writer := Publishing(Removed(id)))
      else s
    case Publish =>
      var change := if s.writer.Publishing? then s.writer.change else Added(s.writer.added);
      s.(copies := s.copies + [Copy(s.listeners)], changes := s.changes + [change], writer := Idle)
    case CountElsewhere => s.(counter := s.counter + 1)
    case Load => s.(readers := s.readers + [Reader(|s.copies| - 1, 0, [], false)])
    case Walk(r) =>
      var reader := s.readers[r];
      var func := s.copies[reader.address][reader.pos];
      s.(readers := s.readers[r :=
          if func == None then reader.(finished := true)
          else reader.(pos := reader.pos + 1, called := reader.called + [func.value])])
  }

  predicate Possible<F(==)>(s: State<F>, run: seq<Step<F>>)
    decreases |run|
  {
    run != [] ==> Enabled(s, run[0]) && Possible(Next(s, run[0]), run[1..])
  }

  function After<F(==)>(s: State<F>, run: seq<Step<F>>): State<F>
    requires Possible(s, run)
    decreases |run|
  {
    if run == [] then s else After(Next(s, run[0]), run[1..])
  }

  /** The listeners are the registered ones, but for the change under way. */
  ghost predicate WriterInv<F>(s: State<F>) {
    && Ordered(s.listeners)
    && (forall i | 0 <= i < |s.listeners| :: s.listeners[i].id <= s.counter)
    && match s.writer
       case Idle => s.listeners == Registered(s.changes)
       case Adding(added, _) => s.listeners == Registered(s.changes) + added
       case Publishing(change) => s.listeners == Registered(s.changes + [change])
  }

  /** The k-th copy shows what was registered after k changes: no step in the middle of a change is visible. */
  ghost predicate CopiesInv<F>(s: State<F>) {
    && |s.copies| == |s.changes| + 1
    && forall k | 0 <= k < |s.copies| :: s.copies[k] == Copy(Registered(s.changes[..k]))
  }

  /** A reader has called what stands before its position, and ends at an empty function only. */
  ghost predicate ReaderOk<F>(s: State<F>, reader: Reader<F>) {
    && reader.address < |s.copies| && reader.pos < |s.copies[reader.address]|
    && (forall i | 0 <= i < reader.pos :: s.copies[reader.address][i].Some?)
    && reader.called == Called(s.copies[reader.address][..reader.pos])
    && (reader.finished ==> s.copies[reader.address][reader.pos] == None)
  }

  ghost predicate Inv<F>(s: State<F>) {
    && WriterInv(s) && CopiesInv(s)
    && forall r | 0 <= r < |s.readers| :: ReaderOk(s, s.readers[r])
  }

  lemma {:induction false} RegisteredMore<F>(changes: seq<Change<F>>, change: Change<F>)
    ensures change.Added? ==> Registered(changes + [change]) == Registered(changes) + change.entries
    ensures change.Removed? ==> Registered(changes + [change]) == Without(Registered(changes), change.id)
  {
    assert (changes + [change])[..|changes|] == changes;
  }

  lemma {:induction false} RemoveKeepsWriter<F>(s: State<F>, id: nat)
    requires WriterInv(s) && Enabled(s, Remove(id))
    ensures WriterInv(Next(s, Remove(id)))
  {
    RegisteredMore(s.changes, Removed(id));
    if i :| 0 <= i < |s.listeners| && s.listeners[i].id == id {
      WithoutOne(s.listeners, i);
      OrderedWithoutOne(s.listeners, i, s.counter);
    }
  }

  lemma {:induction false} Regroup<T>(a: seq<T>, b: seq<T>, c: seq<T>)
    ensures a + b + c == a + (b + c)
  {
  }

  lemma {:induction false} WriterKept<F>(s: State<F>, step: Step<F>)
    requires WriterInv(s) && Enabled(s, step)
    ensures WriterInv(Next(s, step))
  {
    match step {
      case Remove(id) => RemoveKeepsWriter(s, id);
      case AddOne => Regroup(Registered(s.changes), s.writer.added, [Entry(s.counter + 1, s.writer.rest[0])]);
      case Publish =>
        if s.writer.Adding? {
          RegisteredMore(s.changes, Added(s.writer.added));
        }
      case BeginAdd(_) =>
        assert Registered(s.changes) + [] == Registered(s.changes);
      case _ =>
    }
  }

  lemma {:induction false} CopiesKept<F>(s: State<F>, step: Step<F>)
    requires WriterInv(s) && CopiesInv(s) && Enabled(s, step)
    ensures CopiesInv(Next(s, step))
  {
    var s' := Next(s, step);
    if step == Publish {
      WriterKept(s, step);
      CopyAdded(s, s'.listeners, s'.changes[|s.changes|]);
    } else {
      assert s'.copies == s.copies && s'.changes == s.changes;
    }
  }

  lemma {:induction false} CopyAdded<F>(s: State<F>, listeners: seq<Entry<F>>, change: Change<F>)
    requires CopiesInv(s) && listeners == Registered(s.changes + [change])
    ensures CopiesInv(s.(copies := s.copies + [Copy(listeners)], changes := s.changes + [change]))
  {
    var changes, copies := s.changes + [change], s.copies + [Copy(listeners)];
    forall k | 0 <= k < |copies| ensures copies[k] == Copy(Registered(changes[..k])) {
      if k < |s.copies| {
        assert changes[..k] == s.changes[..k];
      } else {
        assert changes[..k] == changes;
      }
    }
  }

  lemma {:induction false} ReadersKept<F>(s: State<F>, step: Step<F>)
    requires Inv(s) && Enabled(s, step)
    ensures forall r | 0 <= r < |Next(s, step).readers| :: ReaderOk(Next(s, step), Next(s, step).readers[r])
  {
    var s' := Next(s, step);
    forall r | 0 <= r < |s'.readers| ensures ReaderOk(s', s'.readers[r]) {
      if r < |s.readers| {
        assert ReaderOk(s, s.readers[r]);
        if step == Walk(r) {
          var copy := s.copies[s.readers[r].address];
          CalledPrefix(copy, s.readers[r].pos);
          assert copy != [] && copy[|copy| - 1] == None;
        }
      }
    }
  }

  lemma {:induction false} InvAfter<F>(s: State<F>, run: seq<Step<F>>)
    requires Inv(s) && Possible(s, run)
    ensures Inv(After(s, run))
    decreases |run|
  {
    if run != [] {
      WriterKept(s, run[0]);
      CopiesKept(s, run[0]);
      ReadersKept(s, run[0]);
      InvAfter(Next(s, run[0]), run[1..]);
    }
  }

  /** Readers are never dropped, and neither the copy a reader walks nor the changes before it are altered. */
  lemma {:induction false} OnlyGrows<F>(s: State<F>, run: seq<Step<F>>)
    requires Possible(s, run)
    ensures s.changes <= After(s, run).changes && |s.readers| <= |After(s, run).readers|
    ensures forall r | 0 <= r < |s.readers| :: After(s, run).readers[r].address == s.readers[r].address
    decreases |run|
  {
    if run != [] {
      OnlyGrows(Next(s, run[0]), run[1..]);
    }
  }

  /** An invocation that begins after `before` and is finished after `later` more steps has called exactly what
      walking the listeners that were registered when it began calls, whatever happened in `later`. */
  lemma {:induction false} SnapshotInvocation<F>(before: seq<Step<F>>, later: seq<Step<F>>)
    requires Possible(Init<F>(), before) && Enabled(After(Init<F>(), before), Load)
    requires Possible(Next(After(Init<F>(), before), Load), later)
    requires var s := After(Init<F>(), before);
      var end := After(Next(s, Load), later);
      |s.readers| < |end.readers| && end.readers[|s.readers|].finished
    ensures var s := After(Init<F>(), before);
      var end := After(Next(s, Load), later);
      |s.readers| < |end.readers| && end.readers[|s.readers|].called == Called(Copy(Registered(s.changes)))
  {
    var s := After(Init<F>(), before);
    var loaded := Next(s, Load);
    var end := After(loaded, later);
    InvAfter(Init<F>(), before);
    CopiesKept(s, Load);
    WriterKept(s, Load);
    ReadersKept(s, Load);
    InvAfter(loaded, later);
    OnlyGrows(loaded, later);
    var reader := end.readers[|s.readers|];
    assert ReaderOk(end, reader) && reader.address == |s.changes|;
    CalledPrefix(end.copies[reader.address], reader.pos);
    assert end.changes[..|s.changes|] == s.changes;
  }

  /** The steps of reader r from its position to the end. */
  function Walks<F>(r: nat, n: nat): seq<Step<F>> {
    if n == 0 then [] else [Walk(r)] + Walks(r, n - 1)
  }

  /** A reader that has not finished can go on to the end of its copy, without the writer. */
  lemma {:induction false} ReaderFinishes<F>(s: State<F>, r: nat) returns (n: nat)
    requires Inv(s) && r < |s.readers|
    ensures Possible(s, Walks<F>(r, n)) && r < |After(s, Walks<F>(r, n)).readers|
    ensures After(s, Walks<F>(r, n)).readers[r].finished
    decreases if s.readers[r].finished then 0 else |s.copies[s.readers[r].address]| - s.readers[r].pos + 1
  {
    assert ReaderOk(s, s.readers[r]);
    if s.readers[r].finished {
      n := 0;
    } else {
      var s' := Next(s, Walk(r));
      WriterKept(s, Walk(r));
      CopiesKept(s, Walk(r));
      ReadersKept(s, Walk(r));
      assert ReaderOk(s', s'.readers[r]);
      n := ReaderFinishes(s', r);
      n := n + 1;
      assert Walks<F>(r, n)[1..] == Walks(r, n - 1);
    }
  }

  /** At any time a delegate can be invoked, and the invocation can finish. */
  lemma {:induction false} InvocationFinishes<F>(before: seq<Step<F>>) returns (later: seq<Step<F>>)
    requires Possible(Init<F>(), before)
    ensures Enabled(After(Init<F>(), before), Load) && Possible(Next(After(Init<F>(), before), Load), later)
    ensures var s := After(Init<F>(), before);
      var end := After(Next(s, Load), later);
      |s.readers| < |end.readers| && end.readers[|s.readers|].finished
  {
    var s := After(Init<F>(), before);
    InvAfter(Init<F>(), before);
    WriterKept(s, Load);
    CopiesKept(s, Load);
    ReadersKept(s, Load);
    var n := ReaderFinishes(Next(s, Load), |s.readers|);
    later := Walks(|s.readers|, n);
  }

  // ---------------------------------------------------------------- the steps and the methods

  /** The steps of a `+=`, once it has begun and n functions are still to be added. */
  function AddAll<F>(n: nat): seq<Step<F>> {
    if n == 0 then [Publish] else [AddOne] + AddAll(n - 1)
  }

  /** The state after a change has been completed and published. */
  function Changed<F>(s: State<F>, count: nat, listeners: seq<Entry<F>>, change: Change<F>): State<F> {
    State(count, listeners, s.copies + [Copy(listeners)], s.changes + [change], Idle, s.readers)
  }

  lemma {:induction false} NumberedCons<F>(count: nat, funcs: seq<Option<F>>)
    requires funcs != []
    ensures Numbered(count, funcs) == [Entry(count + 1, funcs[0])] + Numbered(count + 1, funcs[1..])
  {
  }

  lemma {:induction false} AddAllSteps<F>(s: State<F>)
    requires s.writer.Adding?
    ensures var steps := AddAll<F>(|s.writer.rest|);
      var added := Numbered(s.counter, s.writer.rest);
      && Possible(s, steps)
      && After(s, steps)
         == Changed(s, s.counter + |s.writer.rest|, s.listeners + added, Added(s.writer.added + added))
    decreases |s.writer.rest|
  {
    var rest := s.writer.rest;
    var steps := AddAll<F>(|rest|);
    if rest == [] {
      assert s.listeners + [] == s.listeners && s.writer.added + [] == s.writer.added;
      assert steps[1..] == [];
    } else {
      var entry := Entry(s.counter + 1, rest[0]);
      AddAllSteps(Next(s, AddOne));
      assert steps[1..] == AddAll(|rest| - 1);
      NumberedCons(s.counter, rest);
      Regroup(s.listeners, [entry], Numbered(s.counter + 1, rest[1..]));
      Regroup(s.writer.added, [entry], Numbered(s.counter + 1, rest[1..]));
    }
  }

  /** All steps of a `+=` on their own: the functions follow under the next ids, in one publication. */
  lemma {:induction false} AddBySteps<F>(s: State<F>, funcs: seq<Option<F>>)
    requires s.writer == Idle
    ensures var run := [BeginAdd(funcs)] + AddAll(|funcs|);
      var added := Numbered(s.counter, funcs);
      && Possible(s, run)
      && After(s, run) == Changed(s, s.counter + |funcs|, s.listeners + added, Added(added))
  {
    var run := [BeginAdd(funcs)] + AddAll(|funcs|);
    AddAllSteps(Next(s, BeginAdd(funcs)));
    assert run[0] == BeginAdd(funcs) && run[1..] == AddAll(|funcs|);
    assert [] + Numbered(s.counter, funcs) == Numbered(s.counter, funcs);
  }

  lemma {:induction false} OneStep<F>(s: State<F>, step: Step<F>, rest: seq<Step<F>>)
    requires Enabled(s, step)
    ensures Possible(s, [step] + rest) <==> Possible(Next(s, step), rest)
    ensures Possible(Next(s, step), rest) ==> After(s, [step] + rest) == After(Next(s, step), rest)
  {
    assert ([step] + rest)[1..] == rest;
  }

  /** An id that another delegate has taken from the shared counter is passed over. */
  lemma {:induction false} ElsewhereIsSkipped<F>(s: State<F>, funcs: seq<Option<F>>)
    requires s.writer == Idle
    ensures var run := [CountElsewhere] + ([BeginAdd(funcs)] + AddAll(|funcs|));
      Possible(s, run) && After(s, run).listeners == s.listeners + Numbered(s.counter + 1, funcs)
    ensures forall entry | entry in Numbered(s.counter + 1, funcs) :: entry.id > s.counter + 1
  {
    AddBySteps(s.(counter := s.counter + 1), funcs);
    OneStep(s, CountElsewhere, [BeginAdd(funcs)] + AddAll(|funcs|));
  }

  /** The steps of a removal: without such a listener there is nothing to publish. */
  function RemoveRun<F(==)>(s: State<F>, id: nat): seq<Step<F>> {
    if exists i :: 0 <= i < |s.listeners| && s.listeners[i].id == id then [Remove(id), Publish] else [Remove(id)]
  }

  lemma {:induction false} RemoveBySteps<F>(s: State<F>, id: nat)
    requires s.writer == Idle
    ensures var run := RemoveRun(s, id);
      && Possible(s, run)
      && After(s, run)
         == if exists i :: 0 <= i < |s.listeners| && s.listeners[i].id == id
            then Changed(s, s.counter, Without(s.listeners, id), Removed(id)) else s
    ensures After(s, RemoveRun(s, id)).listeners == Without(s.listeners, id)
  {
    var run := RemoveRun(s, id);
    if exists i :: 0 <= i < |s.listeners| && s.listeners[i].id == id {
      OneStep(s, Remove(id), [Publish] + []);
      OneStep(Next(s, Remove(id)), Publish, []);
      assert run == [Remove(id)] + ([Publish] + []);
    } else {
      OneStep(s, Remove(id), []);
      assert run == [Remove(id)] + [];
      WithoutAbsent(s.listeners, id);
    }
  }

  /** The state is that of a delegate at rest. */
  ghost predicate Shows<F>(s: State<F>, delegate: Delegate<F>)
    reads delegate, delegate.counter, delegate.readable
  {
    && s.writer == Idle && s.listeners == delegate.listeners && s.counter == delegate.counter.value
    && s.copies != [] && s.copies[|s.copies| - 1] == delegate.readable[..]
  }

  /** Appending a delegate does what its steps do when nobody interferes. */
  method AppendAsSteps<F>(ghost s: State<F>, delegate: Delegate<F>, right: Delegate<F>)
    requires Shows(s, delegate) && right != delegate && delegate.Valid()
    requires delegate.counter.value + |right.listeners| < TWO_TO_THE_64
    modifies delegate, delegate.counter
    ensures var run := [BeginAdd(Funcs(old(right.listeners)))] + AddAll(|old(right.listeners)|);
      Possible(s, run) && Shows(After(s, run), delegate)
  {
    ghost var funcs := Funcs(right.listeners);
    AddBySteps(s, funcs);
    delegate.Append(right);
    ghost var end := After(s, [BeginAdd(funcs)] + AddAll(|funcs|));
    assert end.copies[|end.copies| - 1] == Copy(delegate.listeners);
  }

  /** So does adding a function. */
  method AddAsSteps<F>(ghost s: State<F>, delegate: Delegate<F>, func: Option<F>) returns (id: nat)
    requires Shows(s, delegate) && delegate.Valid() && delegate.counter.value + 1 < TWO_TO_THE_64
    modifies delegate, delegate.counter
    ensures var run := [BeginAdd([func])] + AddAll(1);
      Possible(s, run) && Shows(After(s, run), delegate)
  {
    AddBySteps(s, [func]);
    id := delegate.AddListener(true, func);
    assert Numbered(s.counter, [func]) == [Entry(id, func)];
  }

  /** So does removing a listener. */
  method RemoveAsSteps<F>(ghost s: State<F>, delegate: Delegate<F>, id: nat)
    requires Shows(s, delegate) && delegate.Valid()
    modifies delegate
    ensures Possible(s, RemoveRun(s, id)) && Shows(After(s, RemoveRun(s, id)), delegate)
  {
    RemoveBySteps(s, id);
    delegate.RemoveListener(id);
  }
}
