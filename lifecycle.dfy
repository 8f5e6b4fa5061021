/**
  The hook protocol of the state machine, on values.

  A state is an opaque identifier of type S. Running one of its hooks
  (Enter, Execute, Exit of the NBIState interface) is recorded as an event.
  A host drives a machine with a sequence of calls; Final and Trace replay
  such a sequence and give the current state and the hooks that ran.
  The lemmas state what the replay guarantees for every call sequence.
 */
module Lifecycle {
  import opened Wrappers

  /** One hook invocation, on the state it ran on. */
  datatype Event<S> = Enter(state: S) | Execute(state: S) | Exit(state: S)

  /** One call a host makes: ChangeState(target) or Update(). */
  datatype Call<S> = ChangeTo(target: S) | Tick

  /** The hooks one call runs, given the current state before it. */
  function Emitted<S>(current: Option<S>, call: Call<S>): seq<Event<S>>
  {
    match call
    case ChangeTo(s) => (if current.Some? then [Exit(current.value)] else []) + [Enter(s)]
    case Tick => if current.Some? then [Execute(current.value)] else []
  }

  /** The current state after one call. */
  function Next<S>(current: Option<S>, call: Call<S>): Option<S>
  {
    match call
    case ChangeTo(s) => Some(s)
    case Tick => current
  }

  /** The current state after `calls`, starting with `start` current. */
  function Final<S>(start: Option<S>, calls: seq<Call<S>>): Option<S>
  {
    if calls == [] then start
    else Next(Final(start, calls[..|calls| - 1]), calls[|calls| - 1])
  }

  /** Every hook run by `calls`, in order, starting with `start` current. */
  function Trace<S>(start: Option<S>, calls: seq<Call<S>>): seq<Event<S>>
  {
    if calls == [] then []
    else
      var init := calls[..|calls| - 1];
      Trace(start, init) + Emitted(Final(start, init), calls[|calls| - 1])
  }

  /** Helper: one more call in the log extends the replay by that call. */
  lemma ReplayAppend<S>(start: Option<S>, calls: seq<Call<S>>, call: Call<S>)
    ensures Final(start, calls + [call]) == Next(Final(start, calls), call)
    ensures Trace(start, calls + [call]) == Trace(start, calls) + Emitted(Final(start, calls), call)
  {
  }

  // ---------------------------------------------------------------------
  // Which state is current

  /** Some call in `calls` is a ChangeState. */
  predicate HasChange<S>(calls: seq<Call<S>>)
  {
    exists i :: 0 <= i < |calls| && calls[i].ChangeTo?
  }

  /**
    The machine has a current state exactly when it started with one or some
    ChangeState was made: nothing ever clears the current state.
   */
  lemma {:induction false} StartedIffChanged<S>(start: Option<S>, calls: seq<Call<S>>)
    ensures Final(start, calls).Some? <==> start.Some? || HasChange(calls)
  {
    if calls != [] {
      var init := calls[..|calls| - 1];
      StartedIffChanged(start, init);
      if HasChange(init) {
        var i :| 0 <= i < |init| && init[i].ChangeTo?;
        assert calls[i].ChangeTo?;
      }
      if HasChange(calls) && calls[|calls| - 1].Tick? {
        var i :| 0 <= i < |calls| && calls[i].ChangeTo?;
        assert init[i].ChangeTo?;
      }
    }
  }

  /** After the last ChangeState of a sequence, its target stays current whatever Updates follow. */
  lemma {:induction false} LastChangeWins<S>(start: Option<S>, calls: seq<Call<S>>, i: nat)
    requires i < |calls| && calls[i].ChangeTo?
    requires forall j :: i < j < |calls| ==> calls[j].Tick?
    ensures Final(start, calls) == Some(calls[i].target)
  {
    if i < |calls| - 1 {
      LastChangeWins(start, calls[..|calls| - 1], i);
    }
  }

  /** Updates alone never change the current state. */
  lemma {:induction false} TicksKeepCurrent<S>(start: Option<S>, calls: seq<Call<S>>)
    requires forall j :: 0 <= j < |calls| ==> calls[j].Tick?
    ensures Final(start, calls) == start
    ensures start.None? ==> Trace(start, calls) == []
  {
    if calls != [] {
      TicksKeepCurrent(start, calls[..|calls| - 1]);
    }
  }

  /** The state of the most recent Enter event of a trace, if there is one. */
  function LastEntered<S>(t: seq<Event<S>>): Option<S>
  {
    if t == [] then None
    else if t[|t| - 1].Enter? then Some(t[|t| - 1].state)
    else LastEntered(t[..|t| - 1])
  }

  lemma {:induction false} LastEnteredAppend<S>(a: seq<Event<S>>, b: seq<Event<S>>)
    ensures LastEntered(a + b) == if LastEntered(b).Some? then LastEntered(b) else LastEntered(a)
  {
    if b != [] {
      assert (a + b)[..|a + b| - 1] == a + b[..|b| - 1];
      LastEnteredAppend(a, b[..|b| - 1]);
    } else {
      assert a + b == a;
    }
  }

  /**
    The current state is the state whose Enter hook ran last, or the starting
    state when no Enter ran.
   */
  lemma {:induction false} CurrentIsLastEntered<S>(start: Option<S>, calls: seq<Call<S>>)
    ensures Final(start, calls) ==
      if LastEntered(Trace(start, calls)).Some? then LastEntered(Trace(start, calls)) else start
  {
    if calls != [] {
      var init := calls[..|calls| - 1];
      var last := calls[|calls| - 1];
      CurrentIsLastEntered(start, init);
      var chunk := Emitted(Final(start, init), last);
      LastEnteredAppend(Trace(start, init), chunk);
      match last
      case ChangeTo(s) =>
        assert chunk[|chunk| - 1] == Enter(s);
      case Tick =>
        assert chunk == [] || chunk == [Execute(Final(start, init).value)];
    }
  }

  // ---------------------------------------------------------------------
  // The order in which hooks run

  /**
    The phases of the hook protocol: no state entered yet, a state active,
    or a state exited and not yet replaced.
   */
  datatype Phase<S> = Idle | Active(state: S) | Exited(state: S)

  function PhaseOf<S>(current: Option<S>): Phase<S>
  {
    match current
    case None => Idle
    case Some(s) => Active(s)
  }

  /**
    The protocol as an automaton: Enter only when nothing is active or right
    after an Exit; Execute and Exit only on the active state. None rejects.
   */
  function Step<S(==)>(p: Phase<S>, e: Event<S>): Option<Phase<S>>
  {
    match (p, e)
    case (Idle, Enter(s)) => Some(Active(s))
    case (Active(a), Execute(s)) => if a == s then Some(p) else None
    case (Active(a), Exit(s)) => if a == s then Some(Exited(a)) else None
    case (Exited(_), Enter(s)) => Some(Active(s))
    case _ => None
  }

  /** Runs the automaton over a trace; None when the trace breaks the protocol. */
  function Scan<S(==)>(p: Phase<S>, t: seq<Event<S>>): Option<Phase<S>>
    decreases |t|
  {
    if t == [] then Some(p)
    else
      match Step(p, t[0])
      case None => None
      case Some(q) => Scan(q, t[1..])
  }

  lemma {:induction false} ScanAppend<S>(p: Phase<S>, a: seq<Event<S>>, b: seq<Event<S>>)
    ensures Scan(p, a + b) == match Scan(p, a) case None => None case Some(q) => Scan(q, b)
    decreases |a|
  {
    if a == [] {
      assert a + b == b;
    } else {
      assert (a + b)[0] == a[0];
      assert (a + b)[1..] == a[1..] + b;
      match Step(p, a[0])
      case None =>
      case Some(q) => ScanAppend(q, a[1..], b);
    }
  }

  /**
    Every trace follows the protocol: Exit runs on the current state before
    Enter runs on the new one, Execute runs only on the current state, and
    the trace ends in the phase of the final current state.
   */
  lemma {:induction false} TraceFollowsProtocol<S>(start: Option<S>, calls: seq<Call<S>>)
    ensures Scan(PhaseOf(start), Trace(start, calls)) == Some(PhaseOf(Final(start, calls)))
  {
    if calls != [] {
      var init := calls[..|calls| - 1];
      var last := calls[|calls| - 1];
      var c := Final(start, init);
      TraceFollowsProtocol(start, init);
      ScanAppend(PhaseOf(start), Trace(start, init), Emitted(c, last));
      match last
      case ChangeTo(s) =>
        if c.Some? {
          var t := [Exit(c.value), Enter(s)];
          assert Emitted(c, last) == t;
          assert t[1..] == [Enter(s)];
          assert Scan(Exited(c.value), [Enter(s)]) == Scan(Active(s), []);
        } else {
          assert Emitted(c, last) == [Enter(s)];
          assert Scan(Idle, [Enter(s)]) == Scan(Active(s), []);
        }
      case Tick =>
    }
  }

  // ---------------------------------------------------------------------
  // How often hooks run

  datatype Hook = OnEnter | OnExecute | OnExit

  function HookOf<S>(e: Event<S>): Hook
  {
    match e
    case Enter(_) => OnEnter
    case Execute(_) => OnExecute
    case Exit(_) => OnExit
  }

  /** The number of `h` events in a trace. */
  function Count<S>(t: seq<Event<S>>, h: Hook): nat
  {
    if t == [] then 0
    else Count(t[..|t| - 1], h) + (if HookOf(t[|t| - 1]) == h then 1 else 0)
  }

  lemma {:induction false} CountAppend<S>(a: seq<Event<S>>, b: seq<Event<S>>, h: Hook)
    ensures Count(a + b, h) == Count(a, h) + Count(b, h)
  {
    if b == [] {
      assert a + b == a;
    } else {
      assert (a + b)[..|a + b| - 1] == a + b[..|b| - 1];
      CountAppend(a, b[..|b| - 1], h);
    }
  }

  /** The number of ChangeState calls in a call sequence. */
  function Changes<S>(calls: seq<Call<S>>): nat
  {
    if calls == [] then 0
    else Changes(calls[..|calls| - 1]) + (if calls[|calls| - 1].ChangeTo? then 1 else 0)
  }

  /** The number of Update calls in a call sequence. */
  function Ticks<S>(calls: seq<Call<S>>): nat
  {
    if calls == [] then 0
    else Ticks(calls[..|calls| - 1]) + (if calls[|calls| - 1].Tick? then 1 else 0)
  }

  /** The hooks each call runs, counted by kind. */
  lemma EmittedCounts<S>(c: Option<S>, call: Call<S>)
    ensures Count(Emitted(c, call), OnEnter) == (if call.ChangeTo? then 1 else 0)
    ensures Count(Emitted(c, call), OnExit) == (if call.ChangeTo? && c.Some? then 1 else 0)
    ensures Count(Emitted(c, call), OnExecute) == (if call.Tick? && c.Some? then 1 else 0)
  {
    match call
    case ChangeTo(s) =>
      if c.Some? {
        CountSingle(Exit(c.value));
        CountPair(Exit(c.value), Enter(s));
      } else {
        CountSingle(Enter(s));
      }
    case Tick =>
      if c.Some? {
        CountSingle(Execute(c.value));
      }
  }

  lemma CountSingle<S>(e: Event<S>)
    ensures forall h :: Count([e], h) == if HookOf(e) == h then 1 else 0
  {
  }

  lemma CountPair<S>(e: Event<S>, f: Event<S>)
    ensures forall h :: Count([e, f], h) == Count([e], h) + (if HookOf(f) == h then 1 else 0)
  {
  }

  /**
    Enter runs exactly once per ChangeState; Exit runs once per ChangeState
    that found a current state, so Exits trail Enters by one exactly when the
    machine went from no state to some state.
   */
  lemma {:induction false} EnterExitBalance<S>(start: Option<S>, calls: seq<Call<S>>)
    ensures Count(Trace(start, calls), OnEnter) == Changes(calls)
    ensures Count(Trace(start, calls), OnExit) + (if Final(start, calls).Some? then 1 else 0)
         == Count(Trace(start, calls), OnEnter) + (if start.Some? then 1 else 0)
  {
    if calls != [] {
      var init := calls[..|calls| - 1];
      var last := calls[|calls| - 1];
      EnterExitBalance(start, init);
      CountAppend(Trace(start, init), Emitted(Final(start, init), last), OnEnter);
      CountAppend(Trace(start, init), Emitted(Final(start, init), last), OnExit);
      EmittedCounts(Final(start, init), last);
    }
  }

  /**
    Execute runs at most once per Update, and exactly once per Update on a
    machine that already had a current state.
   */
  lemma {:induction false} ExecutePerTick<S>(start: Option<S>, calls: seq<Call<S>>)
    ensures Count(Trace(start, calls), OnExecute) <= Ticks(calls)
    ensures start.Some? ==> Count(Trace(start, calls), OnExecute) == Ticks(calls)
  {
    if calls != [] {
      var init := calls[..|calls| - 1];
      var last := calls[|calls| - 1];
      ExecutePerTick(start, init);
      CountAppend(Trace(start, init), Emitted(Final(start, init), last), OnExecute);
      EmittedCounts(Final(start, init), last);
      StartedIffChanged(start, init);
    }
  }
}
