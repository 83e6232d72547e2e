# jACT-R event dispatcher, modelled in Dafny

This project models `ACTREventDispatcher`, the listener registry that jACT-R's runtime subsystems use to publish events. It keeps an ordered list of registrations. Each registration (the inner `Pair`) holds a listener and a delivery mode. A registration added with no executor is *direct*: the listener is called in the firing thread. A registration added with an executor is *pooled*: `fire` hands the executor one task per event. One flag per dispatcher, `_haveEncounteredREE`, records that some executor refused a task. Only the first refusal logs a burst of warnings.

Everything is in `event_dispatcher.dfy`, module `EventDispatch`:

- `ACTREventDispatcher<E, L, X>` is a class over opaque event, listener and executor types. Its fields are `entries`, the registration list, and `haveEncounteredRejection`, the flag. A ghost counter `warningsLogged` counts warning bursts over the object's life. `Valid()` says that counter is at most one, and zero while the flag is down.
- Java's `null` arguments are `Option` values. The `IllegalArgumentException` for a null listener is the `IllegalArgument` outcome.
- Three things are decided outside the dispatcher, and a `Context` value carries them into `Fire`: whether an executor accepts the task submitted for the entry at a given position, whether a listener's handler throws when the entry at a given position delivers an event to it (so one listener registered twice may throw on one delivery and not on the other), and whether the logger has warnings enabled.
- `Fire` returns a trace with one `Delivery` per registration. A record is `Called` (a direct call, with whether the caught handler threw), `Submitted` (one task handed to the executor) or `Rejected` (the executor refused, with whether a warning burst was logged). `Fire` is a loop proved against the function `Dispatch`, which folds `PairFire` (the inner `Pair.fire`) over the first n registrations. The lemmas below are about `Dispatch`, for every n up to the length of the list.
- `removeListener` calls `List.remove` with the raw listener. That removes the first element `e` for which `listener.equals(e)` holds, and the elements are `Pair` wrappers. The model keeps this as it is. `RemoveListener` takes the listener's `equals`, applied to a registration, as the parameter `equalsPair`, and removes the first entry it accepts. `Pair` defines no `equals`, and its equality test `hasListener` is commented out (`ACTREventDispatcher.java:126-128`). A `Pair` therefore inherits `Object.equals`, which is identity, and no listener is one of the dispatcher's private `Pair` objects. So if the listener's `equals` is symmetric, as the contract of `Object.equals` requires, it accepts no `Pair`, and removal leaves the list unchanged (`RemoveListenerIsNoOp`, which takes that symmetry as its premise). Registrations are therefore append-only until `clear()`, as the dispatcher is written. A null listener passed to `removeListener` also removes nothing, because no `Pair` is null.
- The warning text at `ACTREventDispatcher.java:78` says that further warnings are suppressed "for this event source". The code raises one flag per dispatcher instance, shared by all listeners and executors (`:38`, `:83`). The model follows the code.

## Model

| member | source | states |
|---|---|---|
| EventDispatch.ACTREventDispatcher.constructor | org.jactr/java/org/jactr/core/event/ACTREventDispatcher.java:36-42 | a new dispatcher has no registrations, its rejection flag is down and no warning has been logged |
| EventDispatch.ACTREventDispatcher.Clear | org.jactr/java/org/jactr/core/event/ACTREventDispatcher.java:44-46 | afterwards the list is empty and `HasListeners()` is false; the frame excludes the rejection flag, so `clear` never resets it |
| EventDispatch.ACTREventDispatcher.AddListener | org.jactr/java/org/jactr/core/event/ACTREventDispatcher.java:48-90 | a null listener yields `IllegalArgument` and leaves the list unchanged; otherwise exactly one entry (direct if the executor is null, pooled otherwise) is appended after the unchanged old entries, and `getListeners` gains the listener at its end |
| EventDispatch.ACTREventDispatcher.RemoveListener | org.jactr/java/org/jactr/core/event/ACTREventDispatcher.java:92-97 | a null listener leaves the list unchanged; otherwise the list becomes the old list minus the first entry the listener's `equals` accepts, and if `equals` accepts no registration the list is unchanged; the flag is untouched |
| EventDispatch.ACTREventDispatcher.HasListeners | org.jactr/java/org/jactr/core/event/ACTREventDispatcher.java:99-101 | true exactly when at least one registration exists |
| EventDispatch.ACTREventDispatcher.GetListeners | org.jactr/java/org/jactr/core/event/ACTREventDispatcher.java:137-145 | one listener per registration, in registration order, duplicates included |
| EventDispatch.ACTREventDispatcher.FirePair | org.jactr/java/org/jactr/core/event/ACTREventDispatcher.java:52-89 | `Valid()` is kept; one registration's delivery and the new flag are exactly `PairFire` of the old flag: a direct call records whether the caught handler threw; a pooled entry records a submission, or a refusal that raises the flag; the warning counter grows by one exactly when that refusal logged a warning burst |
| EventDispatch.ACTREventDispatcher.Fire | org.jactr/java/org/jactr/core/event/ACTREventDispatcher.java:103-106 | the trace and the new flag are exactly what `Dispatch` gives on the registrations and the old flag; the warning counter grows by the trace's warnings and `Valid()` (at most one burst per dispatcher) is kept; a raised flag stays raised |
| EventDispatch.Listeners | org.jactr/java/org/jactr/core/event/ACTREventDispatcher.java:144 | the listener list has one element per entry, and element k is entry k's listener |
| EventDispatch.RemoveFirst | org.jactr/java/org/jactr/core/event/ACTREventDispatcher.java:95 | removal deletes at most one entry |
| EventDispatch.Dispatch | org.jactr/java/org/jactr/core/event/ACTREventDispatcher.java:104-105 | a fan-out over the first n registrations produces exactly n delivery records |
| EventDispatch.ListenersAppend | org.jactr/java/org/jactr/core/event/ACTREventDispatcher.java:137-145 | the listeners of a concatenation are the listeners of each part, in order |
| EventDispatch.DuplicateRegistrationCountsTwice | org.jactr/java/org/jactr/core/event/ACTREventDispatcher.java:52-89 | registering one listener twice keeps the earlier entries and lists the listener twice, once per independent entry |
| EventDispatch.RemoveFirstWithoutMatch | org.jactr/java/org/jactr/core/event/ACTREventDispatcher.java:92-97 | if `equals` accepts no entry, removal returns the list unchanged |
| EventDispatch.RemoveFirstAtFirstMatch | org.jactr/java/org/jactr/core/event/ACTREventDispatcher.java:92-97 | if entry i is the first that `equals` accepts, removal returns the list without entry i and with the other entries in order |
| EventDispatch.RemoveListenerIsNoOp | org.jactr/java/org/jactr/core/event/ACTREventDispatcher.java:117-132 | if the listener's `equals` is symmetric and a `Pair`'s inherited identity `equals` never accepts the listener, removal leaves the list unchanged |
| EventDispatch.DispatchVisitsEachEntry | org.jactr/java/org/jactr/core/event/ACTREventDispatcher.java:53-64 | the record at position k belongs to entry k's listener; a direct entry is called in the firing step, recording whether the handler threw on that entry's delivery; a pooled entry is either submitted once to its own executor or refused by it, and delivers nothing itself |
| EventDispatch.WarnsOnlyOnFirstRejection | org.jactr/java/org/jactr/core/event/ACTREventDispatcher.java:65-84 | a refused submission logs a warning burst exactly when warnings are enabled, the flag was down before the fan-out, and no earlier entry in this fan-out was refused; the flag ends up raised exactly when it was raised before or some executor refused |
| EventDispatch.AtMostOneWarning | org.jactr/java/org/jactr/core/event/ACTREventDispatcher.java:38-84 | a fan-out logs at most one warning burst, none if the flag was already raised, and logging one leaves the flag raised; a raised flag is never lowered |
| EventDispatch.DuplicateDirectEntriesThrowIndependently | org.jactr/java/org/jactr/core/event/ACTREventDispatcher.java:53-57 | a listener registered twice as a direct entry is called once per entry, and those calls can end differently: the first may throw and the second return normally |
| EventDispatch.HandlerFailuresDoNotStopFanOut | org.jactr/java/org/jactr/core/event/ACTREventDispatcher.java:108-115 | whichever handlers throw, the same entries are visited with the same submissions, refusals, warnings and final flag; only the caught-exception bit of direct calls changes |

## Left out

- Concurrency is not modelled. That covers the thread safety of `CopyOnWriteArrayList`, registrations changed by other threads during `fire`, and the asynchronous running of submitted tasks. `fire` iterates over a snapshot of the list, as the copy-on-write list's iterator does.
- A listener that registers or removes listeners on the same dispatcher while handling an event is not modelled. A handler is an opaque outcome that either returns or throws.
- What a listener does with an event is not modelled. `event.fire(listener)` is a foreign call, reduced to whether it throws.
- The running of a submitted task, `execute` on the executor's thread, is not modelled. The trace records the submission only.
- Exceptions from `executor.execute` other than `RejectedExecutionException` are not modelled. They would propagate out of `fire`.
- `Throwable`s that are not `Exception`s, such as `Error`s thrown by a handler, are not modelled. `execute` does not catch them. The model treats every handler failure as caught.
- The text of the log messages is not modelled, because logging is I/O. The model keeps only whether a warning burst was logged.
- The model assumes that the calls which build the log and error messages return normally. These are `toString` on the executor, `getClass` on the event, and `event.getSource().getClass()` in the rejection warning (`:69-79`), and the string joining `event` and the listener in `execute`'s catch (`:112-113`). If a call in the rejection warning throws, say because `getSource()` returns null, the exception leaves `fire` before `:83`: the flag stays down and the later entries are not visited, where the model records the warning, raises the flag and continues. If the string in `execute`'s catch throws for a direct entry, the exception leaves `fire` with the flag as it was and the later entries unvisited, where the model records the caught throw and continues; for a pooled entry that string is built in the submitted task on the executor's thread, which the model does not run.
- The result of `getListeners` is a sequence. `getListeners` returns a `Stream` over the copy-on-write list, which sees the list as it was when `stream()` was called, as the sequence does. Only the stream's laziness and single use are lost.
- EventDispatch.ACTREventDispatcher.RemoveListener: a listener's `equals` sees a registration by value (listener and mode), not by object identity. The model cannot tell two equal registrations apart the way an identity-based `equals` on `Pair` objects could.
