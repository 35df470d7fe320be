/** The editor's `debounce` wrapper as a state machine. It holds at most one
    pending call; a new call cancels the pending one and takes its place, and
    when the wait elapses the pending call runs. A superseded call never runs
    (its promise never settles). Timers are abstract: `Elapse` is the moment
    the currently scheduled timeout fires. */
module Debounce {
  import opened NoteTypes

  datatype Debouncer<A> = Debouncer(pending: Option<A>)

  /** No call scheduled. */
  function Idle<A>(): (d: Debouncer<A>)
    ensures d.pending.None?
  {
    Debouncer(None)
  }

  /** Invoking the debounced function with `args`: whatever was pending is
      dropped and `args` is scheduled. */
  function Invoke<A>(d: Debouncer<A>, args: A): (r: Debouncer<A>)
    ensures r.pending == Some(args)
  {
    Debouncer(Some(args))
  }

  /** The timeout fires: the pending call, if any, runs, and nothing stays
      pending. */
  function Elapse<A>(d: Debouncer<A>): (r: (Debouncer<A>, Option<A>))
    ensures r.0.pending.None?
    ensures r.1 == d.pending
  {
    (Debouncer(None), d.pending)
  }

  datatype Event<A> = Call(args: A) | Fire

  /** Run a trace of events from `d`: the final state and the arguments of
      the calls that actually ran, in order. */
  function Run<A>(d: Debouncer<A>, trace: seq<Event<A>>): (r: (Debouncer<A>, seq<A>))
    ensures |r.1| <= |trace|
    ensures forall x :: x in r.1 ==> d.pending == Some(x) || Call(x) in trace
    decreases |trace|
  {
    if |trace| == 0 then (d, [])
    else
      match trace[0]
      case Call(a) => Run(Invoke(d, a), trace[1..])
      case Fire =>
        var (d1, ran) := Elapse(d);
        var (d2, rest) := Run(d1, trace[1..]);
        (d2, (if ran.Some? then [ran.value] else []) + rest)
  }

  /** Reference definition, independent of the state machine: a call survives
      exactly when the very next event is the timeout firing. */
  function Survivors<A>(trace: seq<Event<A>>): (r: seq<A>)
    decreases |trace|
  {
    if |trace| < 2 then []
    else (if trace[0].Call? && trace[1].Fire? then [trace[0].args] else []) + Survivors(trace[1..])
  }

  /** From any state, the calls that run are: the call already pending if the
      first event fires the timer, then the survivors of the trace. */
  lemma {:induction false} RunFrom<A>(d: Debouncer<A>, trace: seq<Event<A>>)
    ensures Run(d, trace).1 ==
      (if d.pending.Some? && |trace| > 0 && trace[0].Fire? then [d.pending.value] else []) + Survivors(trace)
    decreases |trace|
  {
    if |trace| > 0 {
      var tail := trace[1..];
      match trace[0]
      case Call(a) =>
        RunFrom(Invoke(d, a), tail);
        if |trace| >= 2 {
          assert tail[0] == trace[1];
        }
      case Fire =>
        RunFrom(Debouncer(None), tail);
    }
  }

  /** Starting idle, exactly the survivors run: a call runs if and only if no
      other call came before the timer fired. */
  lemma RunMatchesSurvivors<A>(trace: seq<Event<A>>)
    ensures Run(Idle(), trace).1 == Survivors(trace)
  {
    RunFrom(Idle(), trace);
  }

  /** What the first two events of a trace contribute to its survivors. */
  function Lead<A>(trace: seq<Event<A>>): seq<A>
    requires |trace| >= 2
  {
    if trace[0].Call? && trace[1].Fire? then [trace[0].args] else []
  }

  /** What the boundary between two traces contributes to the survivors of
      their concatenation. */
  function Seam<A>(p: seq<Event<A>>, q: seq<Event<A>>): seq<A>
    requires |p| > 0 && |q| > 0
  {
    if p[|p| - 1].Call? && q[0].Fire? then [p[|p| - 1].args] else []
  }

  /** Survivors of a concatenation: those of each half, plus the last call
      of the first half when the second half starts with the timer firing. */
  lemma {:induction false} SurvivorsSplit<A>(p: seq<Event<A>>, q: seq<Event<A>>)
    requires |p| > 0 && |q| > 0
    ensures Survivors(p + q) == Survivors(p) + Seam(p, q) + Survivors(q)
    decreases |p|
  {
    var t := p + q;
    assert t[0] == p[0];
    if |p| == 1 {
      assert t[1] == q[0] && t[1..] == q;
      assert Survivors(t) == Lead(t) + Survivors(q);
    } else {
      var p' := p[1..];
      assert t[1] == p[1] && t[1..] == p' + q;
      assert p'[|p'| - 1] == p[|p| - 1];
      var lead, rest := Lead(p), Survivors(p');
      assert Survivors(t) == lead + Survivors(p' + q);
      assert Survivors(p) == lead + rest;
      SurvivorsSplit(p', q);
      var seam, tail := Seam(p, q), Survivors(q);
      assert Survivors(p' + q) == rest + seam + tail;
      assert lead + (rest + seam + tail) == (lead + rest) + seam + tail;
    }
  }

  /** A call immediately followed by another call never runs: the survivors
      are exactly those before it and those from the superseding call on. */
  lemma SupersededCallDoesNotRun<A>(prefix: seq<Event<A>>, a: A, rest: seq<Event<A>>)
    requires |rest| > 0 && rest[0].Call?
    ensures Survivors(prefix + [Call(a)] + rest) == Survivors(prefix) + Survivors(rest)
  {
    SplitBeforeCall(prefix + [Call(a)], rest);
    TrailingCall(prefix, a);
  }

  /** A call immediately followed by the timer runs, in its place in the order:
      after what runs before it and before what runs from the timer on. */
  lemma FiredCallRuns<A>(prefix: seq<Event<A>>, a: A, rest: seq<Event<A>>)
    requires |rest| > 0 && rest[0].Fire?
    ensures Survivors(prefix + [Call(a)] + rest) == Survivors(prefix) + [a] + Survivors(rest)
  {
    var p := prefix + [Call(a)];
    SurvivorsSplit(p, rest);
    TrailingCall(prefix, a);
    assert Seam(p, rest) == [a];
  }

  /** Splitting a trace just before a call: no survivor crosses the seam. */
  lemma SplitBeforeCall<A>(p: seq<Event<A>>, q: seq<Event<A>>)
    requires |p| > 0 && |q| > 0 && q[0].Call?
    ensures Survivors(p + q) == Survivors(p) + Survivors(q)
  {
    SurvivorsSplit(p, q);
    assert Seam(p, q) == [];
    assert Survivors(p) + Seam(p, q) == Survivors(p);
  }

  /** A call at the very end of a trace adds nothing to its survivors. */
  lemma TrailingCall<A>(prefix: seq<Event<A>>, a: A)
    ensures Survivors(prefix + [Call(a)]) == Survivors(prefix)
  {
    if |prefix| > 0 {
      SurvivorsSplit(prefix, [Call(a)]);
    } else {
      assert prefix + [Call(a)] == [Call(a)];
    }
  }

  /** After a trace, something is pending exactly when the last event was a
      call, and then it is that call's arguments. */
  lemma {:induction false} PendingIsLastCall<A>(d: Debouncer<A>, trace: seq<Event<A>>)
    requires |trace| > 0
    ensures Run(d, trace).0.pending.Some? <==> trace[|trace| - 1].Call?
    ensures trace[|trace| - 1].Call? ==> Run(d, trace).0.pending == Some(trace[|trace| - 1].args)
    decreases |trace|
  {
    var tail := trace[1..];
    if |trace| > 1 {
      assert tail[|tail| - 1] == trace[|trace| - 1];
      match trace[0]
      case Call(a) => PendingIsLastCall(Invoke(d, a), tail);
      case Fire => PendingIsLastCall(Debouncer(None), tail);
    }
  }
}
