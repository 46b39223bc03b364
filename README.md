# EventManager: registration and dispatch, modelled in Dafny

This project models the core of an in-process event system. Listeners register
annotated handler methods for exact event classes. `call(event)` then runs the
handlers stored under the event's own class in ascending priority. A handler
that ignores cancelled events is skipped while a cancellable event is cancelled.

Two modules make up the model:

- `Events` (events.dfy) holds the values and the specification:
  - the handler, method descriptor, event, callback effect and call result;
  - the per-class TreeSet, modelled as a sequence strictly ascending by priority, with `Insert` for `TreeSet.add` and `Keyed` for the set it represents;
  - registration (`RegisterOne`, `RegisterAll`) and dispatch (`RunHandlers`, `Dispatch`);
  - the lemmas about them.
- `Manager` (manager.dfy) holds the class `EventManager`:
  - the fields are the static fields `SYNC`, `INITIALIZED` and `HANDLERS`;
  - `Initialize` overwrites all three fields; `Register` and `Call` are imperative methods whose loops are proved against `RegisterAll` and `Dispatch`.

Modelling choices:

- Reflection over a listener's declared methods becomes an input sequence of `MethodDecl`. Each descriptor holds its parameter types, the annotation if present, and the callback that binding the method yields. That callback is `None` when binding fails, and the handler is then stored with a null consumer, as at EventManager.java:54. Whether `Event` is assignable from a parameter type is a boolean on that parameter.
- Callbacks are opaque ids. A total function `effect` says what each one does to the event: keep it, set or clear its cancelled flag, or throw. `Call` returns the handlers that ran, in order, together with the event as the callbacks left it and the exception that ended the call, if any.
- Exceptions are returned as `Option<Fault>` values:
  - `NotInitialized` is `EventSystemNotInitializedException`;
  - `NullConsumer` is the `NullPointerException` raised when a handler with a null consumer is reached and not skipped;
  - `CallbackThrew` is an exception propagating out of a callback.
  In each case the call stops and the registry is unchanged.
- The static state becomes one `EventManager` object. Its constructor is the state at class loading: not initialised, with the `null` registry represented by an empty map.

Behaviour of the code that a reader might not expect:

- Equal priorities. The TreeSet's only comparator is the priority (EventManager.java:48). A second handler with the same priority for the same class is therefore silently not added, and the first one registered is the one that runs (`RegisterKeepsEarlier`, `RegisterDuplicatePriorityUnchanged`). "All N handlers run" holds only when the priorities are distinct (`RegisterDistinctAllStored`).
- The skip test reads the flag afresh before every handler (`SkipAt`). It does not check that an earlier handler of the same call set the flag, so an event that is already cancelled when `call` starts skips every ignoring handler (`CancelledSkipsIgnoring`), just as one cancelled by an earlier handler does (`CancelledMidCallSkipsIgnoring`).
- Re-initialising is a silent reset. It discards all registrations (`EventManager.Initialize`).

## Model

| member | source | states |
|---|---|---|
| `Events.InsertIsTreeSetAdd` | src/sexy/kostya/events/EventManager.java:48-54 | adding a handler keeps the entry strictly ascending by priority; on the set it represents, a handler whose priority is present is dropped, otherwise it is stored under its priority |
| `Events.KeyedDeterminesEntry` | src/sexy/kostya/events/EventManager.java:48 | a strictly ascending entry is determined by the priority-to-handler set it holds, so the sequence is exactly the TreeSet's iteration order |
| `Events.RegisterAllWellFormed` | src/sexy/kostya/events/EventManager.java:46-54 | after registration every entry is non-empty and strictly ascending, holding at most one handler per priority |
| `Events.RegisterOtherClassesUnchanged` | src/sexy/kostya/events/EventManager.java:40-54 | an entry for a class that no qualifying method takes as parameter is neither created nor changed; non-qualifying methods add nothing |
| `Events.RegisterKeepsEarlier` | src/sexy/kostya/events/EventManager.java:48-54 | a handler stored under a priority is still the one stored there after any later registration, so the first registered wins |
| `Events.RegisterDuplicatePriorityUnchanged` | src/sexy/kostya/events/EventManager.java:54 | registering a qualifying method whose priority the entry already holds leaves the whole registry unchanged |
| `Events.RegisterOccupiesPriority` | src/sexy/kostya/events/EventManager.java:40-54 | every qualifying method results in an entry for its parameter class that holds its priority, creating the entry when absent |
| `Events.RegisterStoresFirst` | src/sexy/kostya/events/EventManager.java:40-54 | the handler an entry holds under a priority after registration is the one it held before or, when there was none, exactly the handler (priority, ignoreCancelled, consumer) built from the first method of the listener that qualifies for that class with that priority |
| `Events.RegisterDistinctAllStored` | src/sexy/kostya/events/EventManager.java:46-54 | when the qualifying methods for a class have pairwise distinct priorities not yet present, each one's handler is stored |
| `Events.RunInOrder` | src/sexy/kostya/events/EventManager.java:70-73 | only handlers of the entry run, in entry order; on an ascending entry they run in strictly ascending priority |
| `Events.NotIgnoringAlwaysRuns` | src/sexy/kostya/events/EventManager.java:71-73 | a handler with ignoreCancelled false is never skipped: if the call ends normally, it ran |
| `Events.PlainNeverSkips` | src/sexy/kostya/events/EventManager.java:69-73 | for a non-cancellable event, the handlers that ran are a prefix of the entry, the whole entry when nothing was thrown, and the event is unchanged |
| `Events.NeverCancelledRunsAll` | src/sexy/kostya/events/EventManager.java:69-73 | a cancellable event that starts uncancelled and that no callback cancels skips no handler |
| `Events.RunSplit` | src/sexy/kostya/events/EventManager.java:70-74 | the call over an entry is the call over a prefix whose handlers did not throw, followed by the call over the rest from the event as the prefix's callbacks left it |
| `Events.SkipAt` | src/sexy/kostya/events/EventManager.java:69-73 | on an ascending entry, the handler at any position runs exactly when it has a consumer and is not skipped (ignoreCancelled, cancellable, flag set) for the event as the earlier callbacks of the same call left it |
| `Events.CancelledMidCallSkipsIgnoring` | src/sexy/kostya/events/EventManager.java:69-72 | once the earlier handlers of a call have left the event cancelled, no later handler that ignores cancelled events runs, as long as no later callback clears the flag |
| `Events.CancelledSkipsIgnoring` | src/sexy/kostya/events/EventManager.java:69-72 | an event cancelled when the call starts, that no callback uncancels, runs no handler that ignores cancelled events |
| `Events.ExactClassRouting` | src/sexy/kostya/events/EventManager.java:59-66 | registering methods for other classes does not change what a call on an event of a given class does, so handlers of a parent class never run |
| `Events.NoEntryNoEffect` | src/sexy/kostya/events/EventManager.java:66-68 | a call on a class without an entry runs nothing, leaves the event unchanged and returns normally |
| `Events.LoginScenario` | src/sexy/kostya/events/EventManager.java:40-75 | handlers with priorities 1 (cancels), 2 (ignores cancelled) and 3 registered for one class run as 1 then 3 on a cancellable event |
| `Manager.EventManager.constructor` | src/sexy/kostya/events/EventManager.java:17-19 | before initialisation the system is not initialised, the mode flag is false and the registry (Java's `null`) is an empty map |
| `Manager.EventManager.Initialize` | src/sexy/kostya/events/EventManager.java:25-28 | afterwards the registry is empty, the mode is the one given and the system is initialised, whatever was registered before |
| `Manager.EventManager.Register` | src/sexy/kostya/events/EventManager.java:35-56 | before initialisation it throws and changes nothing; otherwise the registry becomes `RegisterAll` of the old one over the listener's methods, entries stay well formed, and the flags are unchanged |
| `Manager.EventManager.Call` | src/sexy/kostya/events/EventManager.java:63-75 | before initialisation it throws and runs nothing; a class without an entry runs nothing; otherwise the result is `Dispatch`; the handlers that ran all belong to the event's exact class and run in strictly ascending priority |

## Left out

- Binding a listener method to a callback (`constructConsumer`, `constructLookup`) uses reflection and `LambdaMetafactory`. It is replaced by the callback id each `MethodDecl` carries. A binding failure shows up only as a missing id: the printed stack trace is not modelled.
- The concurrent mode's `ConcurrentHashMap` and synchronized sets are not modelled, and neither is any interleaving of `register` and `call`. The model is sequential, and `sync` is kept only as a stored flag.
- Java class identity and assignability are not modelled as a type hierarchy. A class is an id, and "assignable to `Event`" is a boolean on each parameter. The order in which reflection lists declared methods is whatever order the input sequence has.
- Handler callbacks and event payloads are modelled only through their effect on the cancelled flag, or a throw. A callback that changes the flag and then throws is not distinguished from one that only throws.
- Events are values, not objects: the model does not capture a callback writing the flag of the object being dispatched in place, or aliasing of that object elsewhere.
- Entry sets are values inside the map. Java mutates the TreeSet already stored in the map through an alias, which is not modelled; the resulting map is the same.
- Manager.EventManager.Call: a callback that calls `register` or `call` re-entrantly is not modelled.
- `HANDLERS` is `null` before `initialize` in Java; the model uses an empty map, which no operation can observe because both `register` and `call` throw first. A `null` listener or event passed after initialisation raises a `NullPointerException` (EventManager.java:38, 66); the model has no null values, so that case is not modelled.
