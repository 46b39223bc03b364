/** The `EventManager`: its three static fields become the fields of one
    object, and `initialize`, `register` and `call` its methods. */
module Manager {

  import opened Events

  class EventManager {
    /** `SYNC`: the mode chosen at initialisation; no sequential effect. */
    var sync: bool
    /** `INITIALIZED` */
    var initialized: bool
    /** `HANDLERS`: exact event class to its TreeSet of handlers. */
    var handlers: Registry

    /** Every entry is a non-empty, strictly ascending TreeSet; before
        initialisation there is no registry at all. */
    ghost predicate Valid()
      reads this
    {
      WellFormed(handlers) && (!initialized ==> handlers == map[])
    }

    /** The state the class is loaded in: not initialised. */
    constructor ()
      ensures Valid() && !initialized && !sync && handlers == map[]
    {
      sync := false;
      initialized := false;
      handlers := map[];
    }

    /** Allocates a fresh, empty registry and sets both flags. A second call
        discards every earlier registration. */
    method Initialize(sync: bool)
      modifies this
      ensures Valid()
      ensures initialized && this.sync == sync && handlers == map[]
    {
      this.sync := sync;
      handlers := map[];
      initialized := true;
    }

    /** Registers each qualifying method of the listener, in the order
        reflection lists them. Throws NotInitialized, changing nothing, before
        `Initialize`. */
    method Register(listener: seq<MethodDecl>) returns (thrown: Option<Fault>)
      requires Valid()
      modifies this
      ensures Valid()
      ensures initialized == old(initialized) && sync == old(sync)
      ensures !initialized ==> thrown == Some(NotInitialized) && handlers == old(handlers)
      ensures initialized ==> thrown == None && handlers == RegisterAll(old(handlers), listener)
    {
      if !initialized {
        return Some(NotInitialized);
      }
      for i := 0 to |listener|
        invariant initialized && sync == old(sync)
        invariant handlers == RegisterAll(old(handlers), listener[..i])
        invariant WellFormed(handlers)
      {
        assert listener[..i + 1][..i] == listener[..i];
        var m := listener[i];
        if |m.params| != 1 || m.annotation.None? {
          continue;
        }
        var param := m.params[0];
        if !param.isEvent {
          continue;
        }
        var entry: seq<Handler>;
        if param.cls in handlers {
          entry := handlers[param.cls];
        } else {
          entry := [];
          handlers := handlers[param.cls := entry];
        }
        var annotation := m.annotation.value;
        InsertIsTreeSetAdd(entry, Handler(annotation.priority, annotation.ignoreCancelled, m.binding));
        handlers := handlers[param.cls := Insert(entry, Handler(annotation.priority, annotation.ignoreCancelled, m.binding))];
      }
      assert listener[..|listener|] == listener;
      return None;
    }

    /** Calls the handlers stored under the event's exact class in ascending
        priority, skipping a handler that ignores cancelled events while the
        event is a cancelled cancellable one. `effect` says what each callback
        does to the event. */
    method Call(event: Event, effect: CallbackId -> Effect) returns (r: CallResult)
      requires Valid()
      ensures r == Dispatch(initialized, handlers, event, effect)
      ensures !initialized ==> r == CallResult([], event, Some(NotInitialized))
      ensures initialized && event.cls !in handlers ==> r == CallResult([], event, None)
      ensures forall h :: h in r.invoked ==> h in Entry(handlers, event.cls)
      ensures StrictlyAscending(r.invoked)
    {
      if !initialized {
        return CallResult([], event, Some(NotInitialized));
      }
      if event.cls !in handlers {
        return CallResult([], event, None);
      }
      var entry := handlers[event.cls];
      RunInOrder(entry, event, effect);
      var e := event;
      var invoked: seq<Handler> := [];
      for i := 0 to |entry|
        invariant e.cls == event.cls
        invariant RunHandlers(entry, event, effect) == Prepend(invoked, RunHandlers(entry[i..], e, effect))
      {
        var h := entry[i];
        assert entry[i..][1..] == entry[i + 1..];
        if h.ignoreCancelled && e.Cancellable? && e.cancelled {
          continue;
        }
        match h.consumer {
          case None =>
            return CallResult(invoked, e, Some(NullConsumer));
          case Some(id) =>
            invoked := invoked + [h];
            if effect(id) == Throw {
              return CallResult(invoked, e, Some(CallbackThrew(id)));
            }
            e := Apply(e, effect(id));
        }
      }
      return CallResult(invoked, e, None);
    }
  }
}
