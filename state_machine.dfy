/**
  The StateMachine class of namespace NB: one mutable field holding the
  current state, changed in place by ChangeState and read by Update.
 */
module NB {
  import opened Wrappers
  import opened Lifecycle

  /**
    A state machine over states identified by S. The hooks a state runs are
    not modelled as code: each hook invocation is appended to the ghost
    `trace`, and every call made on the machine to the ghost `calls` log.
   */
  class StateMachine<S> {
    /** The state most recently passed to ChangeState; None (null) before that. */
    var currentState: Option<S>
    ghost var calls: seq<Call<S>>
    ghost var trace: seq<Event<S>>

    /** The current state and the hooks run so far are the replay of the calls made so far. */
    ghost predicate Valid()
      reads this
    {
      currentState == Final(None, calls) && trace == Trace(None, calls)
    }

    /** A new machine has no current state and has run no hook. */
    constructor ()
      ensures Valid()
      ensures currentState == None && calls == [] && trace == []
    {
      currentState := None;
      calls := [];
      trace := [];
    }

    /**
      Runs Exit on the current state if there is one, makes `newState`
      current, then runs Enter on it. There is no shortcut when `newState`
      is already current: it is exited and entered again.
     */
    method ChangeState(newState: S)
      requires Valid()
      modifies this
      ensures Valid()
      ensures calls == old(calls) + [ChangeTo(newState)]
      ensures currentState == Some(newState)
      ensures old(currentState).None? ==> trace == old(trace) + [Enter(newState)]
      ensures old(currentState).Some? ==>
        trace == old(trace) + [Exit(old(currentState).value), Enter(newState)]
    {
      ReplayAppend(None, calls, ChangeTo(newState));
      if currentState.Some? {
        trace := trace + [Exit(currentState.value)];
      }
      currentState := Some(newState);
      trace := trace + [Enter(newState)];
      calls := calls + [ChangeTo(newState)];
    }

    /** Runs Execute on the current state if there is one; changes no state. */
    method Update()
      requires Valid()
      modifies this
      ensures Valid()
      ensures calls == old(calls) + [Tick]
      ensures currentState == old(currentState)
      ensures old(currentState).None? ==> trace == old(trace)
      ensures old(currentState).Some? ==> trace == old(trace) + [Execute(old(currentState).value)]
    {
      ReplayAppend(None, calls, Tick);
      if currentState.Some? {
        trace := trace + [Execute(currentState.value)];
      }
      calls := calls + [Tick];
    }
  }

  /**
    On any machine, whatever calls were made to it, the hooks ran in protocol
    order, the current state is the state entered last, and Enter ran once per
    ChangeState.
   */
  lemma MachineFollowsProtocol<S>(m: StateMachine<S>)
    requires m.Valid()
    ensures Scan(Idle, m.trace) == Some(PhaseOf(m.currentState))
    ensures m.currentState == LastEntered(m.trace)
    ensures Count(m.trace, OnEnter) == Changes(m.calls)
  {
    TraceFollowsProtocol(None, m.calls);
    CurrentIsLastEntered(None, m.calls);
    EnterExitBalance(None, m.calls);
  }
}
