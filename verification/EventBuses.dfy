/** The event bus: one publisher at a time delivers an event to the queues of all handlers that
    know its type, while handlers change their callbacks and take events from their queues. */
module EventBuses {
  import opened SyncQueues

  /** An event with the number of its publication. */
  datatype Event = Event(id: nat, kind: string)

  /** What a publication makes of the queue of a subscriber with callbacks for these types. */
  function Receives(queue: seq<Event>, types: set<string>, e: Event): seq<Event>
  {
    queue + if e.kind in types then [e] else []
  }

  // ----- the operations, one at a time -----

  class EventHandler {
    const events: SyncQueue<Event>
    /** The types with a callback. */
    var handles: set<string>
    /** The events given to a callback. */
    var handled: seq<Event>

    constructor ()
      ensures fresh(events) && events.queue == [] && !events.stopRequested && handles == {} && handled == []
    {
      events := new SyncQueue();
      handles, handled := {}, [];
    }

    /** Registers a callback, unless there is one for the type. */
    method On(kind: string) returns (ok: bool)
      modifies this
      ensures ok == (kind !in old(handles)) && handles == old(handles) + {kind} && handled == old(handled)
    {
      if kind in handles {
        return false;
      }
      handles := handles + {kind};
      return true;
    }

    method Cancel(kind: string)
      modifies this
      ensures handles == old(handles) - {kind} && handled == old(handled)
    {
      handles := handles - {kind};
    }

    method HasType(kind: string) returns (b: bool)
      ensures b == (kind in handles)
    {
      b := kind in handles;
    }

    method Deliver(e: Event)
      modifies events
      ensures events.queue == old(events.queue) + [e] && events.stopRequested == old(events.stopRequested)
    {
      events.Push(e);
    }

    /** One turn of the handler's thread: the callback that is registered now gets the event. */
    method HandleNext()
      requires events.queue != [] && !events.stopRequested
      modifies this, events
      ensures events.queue == old(events.queue)[1..] && handles == old(handles)
      ensures var e := old(events.queue)[0];
              handled == if e.kind in handles then old(handled) + [e] else old(handled)
    {
      var event := events.Pop();
      if event.None? {
        return;
      }
      if event.value.kind !in handles {
        return;
      }
      handled := handled + [event.value];
    }
  }

  class EventBus {
    var handlers: set<EventHandler>

    constructor ()
      ensures handlers == {}
    {
      handlers := {};
    }

    /** Handlers do not share their queues. */
    ghost predicate Valid()
      reads this
    {
      forall g, h :: g in handlers && h in handlers && g != h ==> g.events != h.events
    }

    method Subscribe(handler: EventHandler) returns (ok: bool)
      requires Valid() && forall h :: h in handlers && h != handler ==> h.events != handler.events
      modifies this
      ensures Valid() && ok == (handler !in old(handlers)) && handlers == old(handlers) + {handler}
    {
      ok := handler !in handlers;
      handlers := handlers + {handler};
    }

    method Unsubscribe(handler: EventHandler)
      requires Valid()
      modifies this
      ensures Valid() && handlers == old(handlers) - {handler}
    {
      handlers := handlers - {handler};
    }

    /** Every subscriber that knows the type gets the event, as its last one, and no other. */
    method Publish(e: Event) returns (result: bool)
      requires Valid()
      modifies set h | h in handlers :: h.events
      ensures result <==> exists h :: h in handlers && e.kind in h.handles
      ensures forall h :: h in handlers ==> h.events.queue == Receives(old(h.events.queue), h.handles, e)
    {
      result := false;
      var rest := handlers;
      while rest != {}
        invariant rest <= handlers
        invariant result <==> exists h :: h in handlers - rest && e.kind in h.handles
        invariant forall h :: h in handlers - rest ==>
                    h.events.queue == Receives(old(h.events.queue), h.handles, e)
        invariant forall h :: h in rest ==> h.events.queue == old(h.events.queue)
        decreases rest
      {
        var handler :| handler in rest;
        var known := handler.HasType(e.kind);
        if known {
          handler.Deliver(e);
          result := true;
        }
        rest := rest - {handler};
      }
    }
  }
}
