# StateMachine (namespace NB) — a Dafny model

The repository's state-machine utility is one class, `StateMachine`, holding a
single mutable field `currentState` of interface type `NBIState`. A state has
three hooks, `Enter`, `Execute` and `Exit`. `ChangeState(newState)` runs `Exit`
on the current state if there is one, stores `newState`, then runs `Enter` on
it. `Update()` runs `Execute` on the current state if there is one.

This project models that class and proves which hooks fire, in what order, and
which state is current afterwards.

- `wrappers.dfy` — `Option`, standing for a reference that may be null.
- `lifecycle.dfy` (module `Lifecycle`) — the behaviour on values. A state is an
  opaque identifier (type parameter `S`). A hook invocation is an `Event`
  (`Enter(s)`, `Execute(s)`, `Exit(s)`). A call is `ChangeTo(s)` (ChangeState)
  or `Tick` (Update). `Final` and `Trace` replay a sequence of calls and give
  the current state and the hooks run. The lemmas state what holds for every
  call sequence. Three reference definitions back them: a protocol automaton
  (`Step`/`Scan`), "the state entered last" (`LastEntered`), and hook counts
  (`Count`).
- `state_machine.dfy` (module `NB`) — the class `StateMachine<S>`. It has the
  field `currentState`, a ghost `trace` of hook events, and a ghost log `calls`
  of the calls made. `Valid()` says that the field and the trace are the replay
  of the log. So every lemma of `Lifecycle` applies to every object.

`ChangeState` as written in `StateMachine.cs`:

- It does no lookup: the machine keeps no registry of states and checks no names.
- It has no same-state shortcut: `ChangeState(s)` with `s` current runs
  `Exit(s)` and then `Enter(s)`.
- It runs `Exit` before it stores the new state.

## Model

| member | source | states |
|---|---|---|
| NB.StateMachine.constructor | StateMachine.cs:39-41 | a new machine has no current state (the field starts null) and has run no hook |
| NB.StateMachine.ChangeState | StateMachine.cs:43-50 | afterwards the current state is `newState`; with no current state only `Enter(newState)` runs; with current state `a` exactly `Exit(a)` then `Enter(newState)` run, in that order, even when `a == newState` |
| NB.StateMachine.Update | StateMachine.cs:52-56 | the current state is unchanged; with no current state no hook runs; with current state `s` exactly `Execute(s)` runs |
| NB.MachineFollowsProtocol | StateMachine.cs:41-56 | for any machine, the hooks run so far follow the enter/execute/exit protocol and end in the phase of the current state; the current state is the one whose `Enter` ran last; `Enter` ran once per ChangeState |
| Lifecycle.StartedIffChanged | StateMachine.cs:41-56 | the machine has a current state exactly when it started with one or some ChangeState was made: once set, the current state is never cleared again |
| Lifecycle.LastChangeWins | StateMachine.cs:48 | after the last ChangeState in a call sequence, its target is current whatever Updates follow |
| Lifecycle.TicksKeepCurrent | StateMachine.cs:52-56 | a sequence of Updates never changes the current state, and on a machine with no current state it runs no hook |
| Lifecycle.CurrentIsLastEntered | StateMachine.cs:48-49 | the current state is the state whose `Enter` ran last, or the starting state if no `Enter` ran |
| Lifecycle.TraceFollowsProtocol | StateMachine.cs:43-56 | every trace is accepted by the protocol automaton: `Enter` only with no state active or right after an `Exit`; `Exit` and `Execute` only on the active state; the trace ends in the phase of the final current state |
| Lifecycle.EmittedCounts | StateMachine.cs:43-56 | one ChangeState runs one `Enter`, plus one `Exit` if a state was current; one Update runs one `Execute` if a state was current and nothing otherwise |
| Lifecycle.EnterExitBalance | StateMachine.cs:45-49 | `Enter` runs exactly once per ChangeState; the `Exit` count trails the `Enter` count by one exactly when the machine went from no state to a current state |
| Lifecycle.ExecutePerTick | StateMachine.cs:54-55 | `Execute` runs at most once per Update, and exactly once per Update on a machine that already had a current state |

## Left out

- Hook bodies are not modelled. `NBIState` implementations are opaque: a hook is only an event in the trace.
- Hooks are assumed to return normally. In C#, if `Exit` throws, the old state stays current and `Enter` never runs. If `Enter` throws, the new state is already stored. The model does not represent these partial transitions.
- Re-entrant calls from inside a hook are not modelled. A hook that calls back into the machine is out of scope.
- `NB.StateMachine.ChangeState` takes a non-null state. The parameter type is `S`, not `Option<S>`. In C#, passing null runs `Exit` on the old state, stores null, and then fails when it dereferences null in `Enter`. That leaves `currentState` null. The model does not represent that failure or the null state it leaves behind.
- The example host `GameManagerExample.cs` is not part of this model. It covers Unity lifecycle methods, scene loading, UI toggling and logging.
- The name-keyed API that `GameManagerExample.cs` calls is not part of this model: `NBState`, the named constructor, `GoToState` and `StateMachineUpdate`. `StateMachine.cs` does not define it.
- Lifecycle.StartedIffChanged: "once set, the current state is never cleared" holds only when hooks return normally and no null state is passed. In C#, a caller that catches the exception from `ChangeState(null)` is left with no current state.
- Concurrency is not modelled. The class has no locking, and every call is treated as a sequential step.
