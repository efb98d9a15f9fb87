/** The multicast delegate: listeners in a list, invoked from an immutable copy of it.

Whoever changes the list publishes a fresh copy; whoever invokes walks the copy that was current when the invocation
began. `None` stands for an empty function, which also marks the end of a copy. */
module Delegates {
  import opened Words
  import opened Wrappers

  datatype Entry<+F> = Entry(id: nat, func: Option<F>)

  function Funcs<F>(entries: seq<Entry<F>>): (fs: seq<Option<F>>)
    ensures |fs| == |entries|
  {
    seq(|entries|, i requires 0 <= i < |entries| => entries[i].func)
  }

  /** The copy that is published for `entries`. */
  function Copy<F>(entries: seq<Entry<F>>): seq<Option<F>> {
    Funcs(entries) + [None]
  }

  /** Counter values are handed out in increasing order. */
  predicate Ordered<F>(entries: seq<Entry<F>>) {
    forall i, j | 0 <= i < j < |entries| :: entries[i].id < entries[j].id
  }

  /** Everything but the listener with this id, in the old order. */
  function Without<F>(entries: seq<Entry<F>>, id: nat): seq<Entry<F>> {
    if entries == [] then []
    else (if entries[0].id == id then [] else [entries[0]]) + Without(entries[1..], id)
  }

  lemma {:induction false} WithoutAbsent<F>(entries: seq<Entry<F>>, id: nat)
    requires forall i | 0 <= i < |entries| :: entries[i].id != id
    ensures Without(entries, id) == entries
  {
    if entries != [] {
      WithoutAbsent(entries[1..], id);
    }
  }

  /** In an ordered list the id occurs at most once, so erasing one position removes just that listener. */
  lemma {:induction false} WithoutOne<F>(entries: seq<Entry<F>>, k: nat)
    requires Ordered(entries) && k < |entries|
    ensures Without(entries, entries[k].id) == entries[..k] + entries[k + 1..]
  {
    if k == 0 {
      WithoutAbsent(entries[1..], entries[0].id);
    } else {
      WithoutOne(entries[1..], k - 1);
      assert entries[1..][..k - 1] == entries[1..k] && entries[1..][k..] == entries[k + 1..];
      assert entries[..k] == [entries[0]] + entries[1..k];
    }
  }

  lemma {:induction false} OrderedWithoutOne<F>(entries: seq<Entry<F>>, k: nat, bound: nat)
    requires Ordered(entries) && k < |entries| && forall i | 0 <= i < |entries| :: entries[i].id <= bound
    ensures Ordered(entries[..k] + entries[k + 1..])
    ensures var rest := entries[..k] + entries[k + 1..]; forall i | 0 <= i < |rest| :: rest[i].id <= bound
  {
    var rest := entries[..k] + entries[k + 1..];
    assert forall i | 0 <= i < |rest| :: rest[i] == entries[if i < k then i else i + 1];
  }

  /** Dropping a token takes out the listener it stands for, whatever was added before or after it. */
  lemma {:induction false} DropTakesOutOne<F>(before: seq<Entry<F>>, own: Entry<F>, later: seq<Entry<F>>)
    requires Ordered(before + [own] + later)
    ensures Without(before + [own] + later, own.id) == before + later
  {
    WithoutOne(before + [own] + later, |before|);
  }

  /** The entries for functions that are added one after the other, the counter being at `count`. */
  function Numbered<F>(count: nat, funcs: seq<Option<F>>): (entries: seq<Entry<F>>)
    ensures |entries| == |funcs| && Funcs(entries) == funcs
  {
    seq(|funcs|, i requires 0 <= i < |funcs| => Entry(count + 1 + i, funcs[i]))
  }

  /** The functions up to the first empty one: what walking a copy calls. */
  function Called<F>(fs: seq<Option<F>>): seq<F> {
    if fs == [] || fs[0] == None then [] else [fs[0].value] + Called(fs[1..])
  }

  lemma {:induction false} CalledPrefix<F>(fs: seq<Option<F>>, n: nat)
    requires n <= |fs| && forall i | 0 <= i < n :: fs[i].Some?
    ensures |Called(fs)| >= n && Called(fs)[..n] == Called(fs[..n])
    ensures n < |fs| ==> Called(fs[..n + 1]) == Called(fs[..n]) + (if fs[n].Some? then [fs[n].value] else [])
    ensures n == |fs| || fs[n] == None ==> Called(fs) == Called(fs[..n])
  {
    if n > 0 {
      CalledPrefix(fs[1..], n - 1);
      assert fs[..n][1..] == fs[1..][..n - 1];
      if n < |fs| {
        assert fs[..n + 1][1..] == fs[1..][..n];
      }
    }
  }

  /** An invocation reaches every registered listener exactly if none of them is empty; then it calls them in
      insertion order. */
  lemma {:induction false} AllAreCalled<F>(entries: seq<Entry<F>>)
    ensures |Called(Copy(entries))| <= |entries|
    ensures |Called(Copy(entries))| == |entries| <==> forall i | 0 <= i < |entries| :: entries[i].func.Some?
    ensures forall i | 0 <= i < |Called(Copy(entries))| :: Some(Called(Copy(entries))[i]) == entries[i].func
  {
    if entries != [] && entries[0].func.Some? {
      AllAreCalled(entries[1..]);
      assert Funcs(entries) == [entries[0].func] + Funcs(entries[1..]);
      assert Copy(entries)[1..] == Copy(entries[1..]);
      assert forall i | 0 <= i < |entries| - 1 :: entries[1..][i] == entries[i + 1];
    }
  }

  /** The counter that all delegates of one type share. */
  class Counter {
    var value: nat

    constructor ()
      ensures value == 0
    {
      value := 0;
    }

    method FetchAdd() returns (old_: nat)
      requires value + 1 < TWO_TO_THE_64
      modifies this
      ensures old_ == old(value) && value == old(value) + 1
    {
      old_ := value;
      value := value + 1;
    }
  }

  class Delegate<F> {
    var listeners: seq<Entry<F>>
    var readable: array<Option<F>>
    const counter: Counter

    /** What is published is a copy of the listeners, whose ids come from the counter. */
    ghost predicate Valid()
      reads this, readable, counter
    {
      Current() && readable[..] == Copy(listeners)
    }

    ghost predicate Current()
      reads this, counter
    {
      Ordered(listeners) && forall i | 0 <= i < |listeners| :: listeners[i].id <= counter.value
    }

    constructor (counter: Counter)
      ensures Valid() && listeners == [] && this.counter == counter && fresh(readable)
    {
      this.counter := counter;
      listeners := [];
      readable := new Option<F>[1](_ => None);
    }

    /** Publishes a fresh copy; copies that are already out there stay as they are. */
    method UpdateReadableBuffer()
      requires Current()
      modifies this`readable
      ensures Valid() && fresh(readable)
    {
      var buffer := new Option<F>[|listeners| + 1](_ => None);
      for i := 0 to |listeners|
        invariant forall j | 0 <= j < buffer.Length :: buffer[j] == if j < i then listeners[j].func else None
      {
        buffer[i] := listeners[i].func;
      }
      readable := buffer;
    }

    method AddListener(update: bool, func: Option<F>) returns (id: nat)
      requires Current() && counter.value + 1 < TWO_TO_THE_64
      modifies this, counter
      ensures counter.value == old(counter.value) + 1 && id == counter.value
      ensures Current() && listeners == old(listeners) + [Entry(id, func)]
      ensures if update then Valid() && fresh(readable) else readable == old(readable)
    {
      var count := counter.FetchAdd();
      id := count + 1;
      listeners := listeners + [Entry(id, func)];
      if update {
        UpdateReadableBuffer();
      }
    }

    method RemoveListener(id: nat)
      requires Valid()
      modifies this
      ensures Valid() && listeners == Without(old(listeners), id)
      ensures if exists i :: 0 <= i < |old(listeners)| && old(listeners)[i].id == id then fresh(readable)
              else readable == old(readable)
    {
      for i := 0 to |listeners|
        invariant forall j | 0 <= j < i :: listeners[j].id != id
      {
        if listeners[i].id == id {
          WithoutOne(listeners, i);
          OrderedWithoutOne(listeners, i, counter.value);
          listeners := listeners[..i] + listeners[i + 1..];
          UpdateReadableBuffer();
          return;
        }
      }
      WithoutAbsent(listeners, id);
    }

    /** Appends the listeners of another delegate under ids of their own; only the last step publishes. */
    method Append(right: Delegate<F>)
      requires right != this && Valid() && counter.value + |right.listeners| < TWO_TO_THE_64
      modifies this, counter
      ensures Valid() && fresh(readable)
      ensures |listeners| == |old(listeners)| + |right.listeners| && listeners[..|old(listeners)|] == old(listeners)
      ensures Funcs(listeners) == Funcs(old(listeners)) + Funcs(right.listeners)
      ensures listeners == old(listeners) + Numbered(old(counter.value), Funcs(right.listeners))
      ensures counter.value == old(counter.value) + |right.listeners|
    {
      var n := |listeners|;
      for i := 0 to |right.listeners|
        invariant Current() && counter.value == old(counter.value) + i
        invariant readable == old(readable) && right.listeners == old(right.listeners)
        invariant |listeners| == n + i && listeners[..n] == old(listeners)
        invariant forall j | 0 <= j < i ::
            listeners[n + j] == Entry(old(counter.value) + 1 + j, right.listeners[j].func)
      {
        var id := AddListener(false, right.listeners[i].func);
      }
      UpdateReadableBuffer();
    }

    /** Invokes the delegate for a result, from the copy that is current. The refusal that is promised for a delegate
        without subscribers never comes. */
    method TryInvoke<R>(apply: F -> R) returns (called: seq<F>, outcome: Outcome<R>)
      requires Valid()
      ensures outcome != NoSubscriber
      ensures outcome == ReadsPastEnd <==> listeners == []
      ensures outcome == CallsEmpty <==> listeners != [] && listeners[0].func == None
      ensures called == Called(Copy(listeners))
      ensures outcome.Returned? ==> called != [] && outcome.result == apply(called[|called| - 1])
    {
      called, outcome := InvokeForResult(readable, apply);
    }

    /** Adds a listener for as long as the returned token lives. */
    method AddScoped(func: Option<F>) returns (token: nat)
      requires Valid() && counter.value + 1 < TWO_TO_THE_64
      modifies this, counter
      ensures Valid() && listeners == old(listeners) + [Entry(token, func)]
      ensures forall i | 0 <= i < |old(listeners)| :: old(listeners)[i].id != token
    {
      token := AddListener(true, func);
    }
  }

  /** The end of a token; `alive` says whether the delegate is still there. */
  method DropToken<F>(alive: bool, delegate: Delegate<F>, token: nat)
    requires alive ==> delegate.Valid()
    modifies delegate
    ensures alive ==> delegate.Valid() && delegate.listeners == Without(old(delegate.listeners), token)
    ensures !alive ==> delegate.listeners == old(delegate.listeners) && delegate.readable == old(delegate.readable)
  {
    if alive {
      delegate.RemoveListener(token);
    }
  }

  /** An invocation without results, on the copy it has loaded: the functions it calls, in order. */
  method Invoke<F>(buffer: array<Option<F>>) returns (called: seq<F>)
    requires buffer.Length > 0 && buffer[buffer.Length - 1] == None
    ensures called == Called(buffer[..])
  {
    called := [];
    var ptr := 0;
    while buffer[ptr].Some?
      invariant ptr < buffer.Length
      invariant forall i | 0 <= i < ptr :: buffer[i].Some?
      invariant called == Called(buffer[..ptr])
      decreases buffer.Length - ptr
    {
      CalledPrefix(buffer[..], ptr);
      assert buffer[..][..ptr] == buffer[..ptr] && buffer[..][..ptr + 1] == buffer[..ptr + 1];
      called := called + [buffer[ptr].value];
      ptr := ptr + 1;
    }
    CalledPrefix(buffer[..], ptr);
    assert buffer[..][..ptr] == buffer[..ptr];
  }

  /** How an invocation for a result ends: with the refusal that is promised for a delegate without subscribers, with a
      read outside the copy, with a call of an empty function, or with a result. */
  datatype Outcome<+R> = NoSubscriber | ReadsPastEnd | CallsEmpty | Returned(result: R)

  /** An invocation with results, on the copy it has loaded: it calls the same functions and returns the last result.
      Whether there is a second element is read off the copy without asking for its length. */
  method InvokeForResult<F, R>(buffer: array?<Option<F>>, apply: F -> R) returns (called: seq<F>, outcome: Outcome<R>)
    requires buffer != null ==> buffer.Length > 0 && buffer[buffer.Length - 1] == None
    ensures outcome == NoSubscriber <==> buffer == null
    ensures outcome == ReadsPastEnd <==> buffer != null && buffer.Length == 1
    ensures outcome == CallsEmpty <==> buffer != null && buffer.Length > 1 && buffer[0] == None
    ensures called == if buffer == null then [] else Called(buffer[..])
    ensures outcome.Returned? ==> called != [] && outcome.result == apply(called[|called| - 1])
  {
    called := [];
    if buffer == null {
      return called, NoSubscriber;
    }
    if buffer.Length == 1 {
      return called, ReadsPastEnd;
    }
    var ptr := 0;
    if buffer[1] != None {
      while buffer[ptr + 1] != None
        invariant ptr + 1 < buffer.Length
        invariant ptr == 0 || forall i | 0 <= i <= ptr :: buffer[i].Some?
        invariant called == Called(buffer[..ptr]) && |called| == ptr
        decreases buffer.Length - ptr
      {
        if buffer[ptr] == None {
          return called, CallsEmpty;
        }
        CalledNext(buffer[..], ptr);
        assert buffer[..][..ptr] == buffer[..ptr] && buffer[..][..ptr + 1] == buffer[..ptr + 1];
        called := called + [buffer[ptr].value];
        ptr := ptr + 1;
      }
    }
    if buffer[ptr] == None {
      return called, CallsEmpty;
    }
    CalledNext(buffer[..], ptr);
    CalledPrefix(buffer[..], ptr + 1);
    assert buffer[..][..ptr] == buffer[..ptr] && buffer[..][..ptr + 1] == buffer[..ptr + 1];
    called := called + [buffer[ptr].value];
    outcome := Returned(apply(buffer[ptr].value));
  }

  /** One more function is called. */
  lemma {:induction false} CalledNext<F>(fs: seq<Option<F>>, n: nat)
    requires n < |fs| && forall i | 0 <= i <= n :: fs[i].Some?
    ensures Called(fs[..n + 1]) == Called(fs[..n]) + [fs[n].value] && |Called(fs[..n + 1])| == n + 1
  {
    CalledPrefix(fs, n);
    CalledPrefix(fs, n + 1);
  }

  /** A delegate that has just been made reads outside its copy when it is invoked for a result. */
  method InvokeFresh<F, R>(counter: Counter, apply: F -> R) returns (outcome: Outcome<R>)
    ensures outcome == ReadsPastEnd
  {
    var delegate := new Delegate<F>(counter);
    var called;
    called, outcome := delegate.TryInvoke(apply);
  }

  /** The copy of an empty list ends where an invocation for a result looks for a second function. */
  lemma {:induction false} NoSecondElement<F>(delegate: Delegate<F>)
    requires delegate.Valid()
    ensures delegate.readable.Length == |delegate.listeners| + 1
    ensures delegate.readable.Length <= 1 <==> delegate.listeners == []
  {
    assert |delegate.readable[..]| == |Copy(delegate.listeners)|;
  }
}
