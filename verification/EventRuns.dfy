/** All interleavings of publishers, subscribers and handler threads on an event bus. The bus
    mutex is held from the start to the end of a publication; between looking up a type and
    delivering, and between two handlers, everybody else may act. A handler's mutex is held while
    one of its callbacks runs, and the callback may take the bus mutex. */
module EventRuns {
  import opened SyncQueues
  import opened EventBuses

  /** The callback of a handler: none is running; or one is, and it waits for the bus mutex, or
      publishes and so has it, or neither. */
  datatype Call = Outside | Running | Waits | Publishes

  /** A handler: the types with a callback, the queue, what its thread has taken from it, the
      event it is about to dispatch, the events given to a callback, and the callback. Its mutex
      is held while a callback runs. */
  datatype Handler = Handler(types: set<string>, queue: seq<Event>, popped: seq<Event>,
                             current: Option<Event>, handled: seq<Event>, call: Call)

  /** The bus mutex: while publishing, the handlers still to visit, whether the type has been
      found at the first of them, and the handler whose callback publishes, if it is one. */
  datatype Lock = Free | Publishing(remaining: seq<nat>, found: bool, reached: set<nat>, caller: Option<nat>)

  /** All handlers, those subscribed, and the types of all events published so far. */
  datatype State = State(handlers: map<nat, Handler>, subscribed: set<nat>, published: seq<string>, lock: Lock)

  /** What takes the bus mutex is done by a handler's callback or by some other thread. */
  datatype Action = Create(h: nat) | Subscribe(caller: Option<nat>, h: nat) | Unsubscribe(caller: Option<nat>, h: nat)
                  | Start(caller: Option<nat>, kind: string, order: seq<nat>) | Look | Deliver | End
                  | On(h: nat, kind: string) | Cancel(h: nat, kind: string) | Clear(h: nat)
                  | Pop(h: nat) | Dispatch(h: nat) | Want(h: nat) | Finish(h: nat)

  const INITIAL := State(map[], {}, [], Free)

  predicate Distinct(s: seq<nat>)
  {
    forall i, j :: 0 <= i < j < |s| ==> s[i] != s[j]
  }

  function Update(s: State, h: nat, handler: Handler): State
  {
    s.(handlers := s.handlers[h := handler])
  }

  /** The event being published. */
  function Current(s: State): Event
    requires s.published != []
  {
    Event(|s.published| - 1, s.published[|s.published| - 1])
  }

  /** The mutex of a handler is free. */
  predicate Unlocked(s: State, h: nat)
  {
    h in s.handlers && s.handlers[h].call == Outside
  }

  /** The bus mutex can be taken. */
  predicate MayTake(s: State, caller: Option<nat>)
  {
    s.lock.Free? && (caller.Some? ==> caller.value in s.handlers && s.handlers[caller.value].call == Waits)
  }

  /** A callback that takes the bus mutex, or has returned it, is set to this. */
  function Mark(s: State, caller: Option<nat>, call: Call): State
  {
    if caller.Some? && caller.value in s.handlers then
      Update(s, caller.value, s.handlers[caller.value].(call := call))
    else s
  }

  /** The state after an action, if it is possible. */
  function Next(s: State, a: Action): Option<State>
  {
    match a
    case Create(h) =>
      if h in s.handlers then None else Some(Update(s, h, Handler({}, [], [], None, [], Outside)))
    case Subscribe(caller, h) =>
      if MayTake(s, caller) && h in s.handlers then Some(Mark(s, caller, Running).(subscribed := s.subscribed + {h})) else None
    case Unsubscribe(caller, h) =>
      if MayTake(s, caller) then Some(Mark(s, caller, Running).(subscribed := s.subscribed - {h})) else None
    case Start(caller, kind, order) =>
      if MayTake(s, caller) && Distinct(order) && (set h | h in order) == s.subscribed then
        Some(Mark(s, caller, Publishes).(published := s.published + [kind], lock := Publishing(order, false, {}, caller)))
      else None
    case Look =>
      if s.lock.Publishing? && s.published != [] && s.lock.remaining != [] && !s.lock.found
         && Unlocked(s, s.lock.remaining[0]) then
        if Current(s).kind in s.handlers[s.lock.remaining[0]].types then Some(s.(lock := s.lock.(found := true)))
        else Some(s.(lock := s.lock.(remaining := s.lock.remaining[1..])))
      else None
    case Deliver =>
      if s.lock.Publishing? && s.published != [] && s.lock.remaining != [] && s.lock.found
         && s.lock.remaining[0] in s.handlers then
        var h := s.lock.remaining[0];
        var handler := s.handlers[h];
        Some(Update(s, h, handler.(queue := handler.queue + [Current(s)]))
             .(lock := s.lock.(remaining := s.lock.remaining[1..], found := false, reached := s.lock.reached + {h})))
      else None
    case End =>
      if s.lock.Publishing? && s.lock.remaining == [] then Some(Mark(s, s.lock.caller, Running).(lock := Free)) else None
    case On(h, kind) =>
      if Unlocked(s, h) then Some(Update(s, h, s.handlers[h].(types := s.handlers[h].types + {kind}))) else None
    case Cancel(h, kind) =>
      if Unlocked(s, h) then Some(Update(s, h, s.handlers[h].(types := s.handlers[h].types - {kind}))) else None
    case Clear(h) =>
      if h in s.handlers then Some(Update(s, h, s.handlers[h].(queue := []))) else None
    case Pop(h) =>
      if Unlocked(s, h) && s.handlers[h].queue != [] && s.handlers[h].current == None then
        var handler := s.handlers[h];
        Some(Update(s, h, handler.(queue := handler.queue[1..], popped := handler.popped + [handler.queue[0]],
                                   current := Some(handler.queue[0]))))
      else None
    case Dispatch(h) =>
      if Unlocked(s, h) && s.handlers[h].current.Some? then
        var handler := s.handlers[h];
        var e := handler.current.value;
        Some(Update(s, h, handler.(current := None,
                                   handled := handler.handled + if e.kind in handler.types then [e] else [],
                                   call := if e.kind in handler.types then Running else Outside)))
      else None
    case Want(h) =>
      if h in s.handlers && s.handlers[h].call == Running then
        Some(Update(s, h, s.handlers[h].(call := Waits)))
      else None
    case Finish(h) =>
      if h in s.handlers && s.handlers[h].call == Running then
        Some(Update(s, h, s.handlers[h].(call := Outside)))
      else None
  }

  /** The state after some actions, if every one of them was possible. */
  function ExecFrom(start: State, actions: seq<Action>): Option<State>
  {
    if actions == [] then Some(start) else
      var before := ExecFrom(start, actions[..|actions| - 1]);
      if before.None? then None else Next(before.value, actions[|actions| - 1])
  }

  /** The state after a run. */
  function Exec(actions: seq<Action>): Option<State>
  {
    ExecFrom(INITIAL, actions)
  }

  lemma ExecSnoc(start: State, actions: seq<Action>, a: Action)
    ensures ExecFrom(start, actions + [a])
         == var before := ExecFrom(start, actions); if before.None? then None else Next(before.value, a)
  {
    assert (actions + [a])[..|actions|] == actions;
  }

  lemma {:induction false} ExecConcat(start: State, first: seq<Action>, second: seq<Action>)
    ensures ExecFrom(start, first + second)
         == var before := ExecFrom(start, first); if before.None? then None else ExecFrom(before.value, second)
  {
    hide Next;
    if second == [] {
      assert first + second == first;
    } else {
      var init, a := second[..|second| - 1], second[|second| - 1];
      assert first + second == (first + init) + [a] && second == init + [a];
      ExecConcat(start, first, init);
      ExecSnoc(start, first + init, a);
    }
  }

  // ----- what every run keeps -----

  /** Events in the order of their publications, none of them twice. */
  predicate Increasing(s: seq<Event>)
  {
    forall i, j :: 0 <= i < j < |s| ==> s[i].id < s[j].id
  }

  /** The events of a handler, taken and queued. */
  function Stream(handler: Handler): seq<Event> { handler.popped + handler.queue }

  /** A subsequence of the events published before the bound. */
  ghost predicate InOrder(s: seq<Event>, published: seq<string>, bound: int)
  {
    Increasing(s) && forall i :: 0 <= i < |s| ==> s[i].id < bound <= |published| && s[i].kind == published[s[i].id]
  }

  /** The callbacks have seen, in order, events that were taken before the current one. */
  ghost predicate Dispatched(handler: Handler)
  {
    && Increasing(handler.handled)
    && (handler.current.Some? ==> handler.popped != [] && handler.popped[|handler.popped| - 1] == handler.current.value)
    && forall i :: 0 <= i < |handler.handled| ==>
         handler.handled[i] in if handler.current.Some? then handler.popped[..|handler.popped| - 1] else handler.popped
  }

  /** Handlers still to be visited have only older events. */
  function Bound(s: State, h: nat): int
  {
    if s.lock.Publishing? && h in s.lock.remaining then |s.published| - 1 else |s.published|
  }

  /** The bus mutex and the callback that has it agree, and only known handlers are visited. */
  ghost predicate LockInv(s: State)
  {
    && s.subscribed <= s.handlers.Keys
    && (s.lock.Publishing? ==>
          && s.published != [] && Distinct(s.lock.remaining) && (s.lock.found ==> s.lock.remaining != [])
          && (forall h :: h in s.lock.remaining ==> h in s.handlers)
          && (s.lock.caller.Some? ==> s.lock.caller.value in s.handlers && s.handlers[s.lock.caller.value].call == Publishes))
    && forall h :: h in s.handlers && s.handlers[h].call == Publishes ==> s.lock.Publishing? && s.lock.caller == Some(h)
  }

  ghost predicate Inv(s: State)
  {
    && LockInv(s)
    && forall h :: h in s.handlers ==>
         InOrder(Stream(s.handlers[h]), s.published, Bound(s, h)) && Dispatched(s.handlers[h])
  }

  lemma OrderAppend(s: seq<Event>, published: seq<string>, e: Event)
    requires InOrder(s, published, |published| - 1) && published != []
    requires e == Event(|published| - 1, published[|published| - 1])
    ensures InOrder(s + [e], published, |published|)
  {
  }

  lemma OrderPart(s: seq<Event>, published: seq<string>, bound: int, more: seq<string>, higher: int, part: seq<Event>)
    requires InOrder(s, published, bound) && published <= more && bound <= higher <= |more| && part <= s
    ensures InOrder(part, more, higher)
  {
    forall i | 0 <= i < |part|
      ensures part[i].id < higher && part[i].kind == more[part[i].id]
    {
      assert part[i] == s[i];
    }
  }

  lemma DispatchKeeps(handler: Handler)
    requires handler.current.Some? && Dispatched(handler) && Increasing(handler.popped)
    ensures var e := handler.current.value;
            Dispatched(handler.(current := None, handled := handler.handled + if e.kind in handler.types then [e] else []))
  {
    var e, earlier := handler.current.value, handler.popped[..|handler.popped| - 1];
    assert handler.popped == earlier + [e];
    forall i | 0 <= i < |handler.handled|
      ensures handler.handled[i].id < e.id && handler.handled[i] in handler.popped
    {
      var k :| 0 <= k < |earlier| && earlier[k] == handler.handled[i];
      assert handler.popped[k] == handler.handled[i];
    }
  }

  lemma PopKeeps(handler: Handler)
    requires handler.current == None && handler.queue != [] && Dispatched(handler)
    ensures var e := handler.queue[0];
            var after := handler.(queue := handler.queue[1..], popped := handler.popped + [e], current := Some(e));
            Dispatched(after) && Stream(after) == Stream(handler)
  {
    var popped := handler.popped + [handler.queue[0]];
    assert popped[..|popped| - 1] == handler.popped;
  }

  /** Whether an action is one of those that need the bus mutex. */
  predicate OnBus(a: Action)
  {
    a.Subscribe? || a.Unsubscribe? || a.Start? || a.Look? || a.Deliver? || a.End?
  }

  lemma HandlerKeepsLock(s: State, a: Action)
    requires LockInv(s) && Next(s, a).Some? && !OnBus(a)
    ensures LockInv(Next(s, a).value)
  {
  }

  lemma BusKeepsLock(s: State, a: Action)
    requires LockInv(s) && Next(s, a).Some? && OnBus(a)
    ensures LockInv(Next(s, a).value)
  {
  }

  lemma LockKept(s: State, a: Action)
    requires LockInv(s) && Next(s, a).Some?
    ensures LockInv(Next(s, a).value)
  {
    hide LockInv, Next;
    if OnBus(a) {
      BusKeepsLock(s, a);
    } else {
      HandlerKeepsLock(s, a);
    }
  }

  /** Every action keeps the events of every handler in the order of publication. */
  lemma NextKeeps(s: State, a: Action)
    requires Inv(s) && Next(s, a).Some?
    ensures Inv(Next(s, a).value)
  {
    var t := Next(s, a).value;
    LockKept(s, a);
    forall h | h in t.handlers
      ensures InOrder(Stream(t.handlers[h]), t.published, Bound(t, h)) && Dispatched(t.handlers[h])
    {
      if h in s.handlers {
        HandlerKeeps(s, a, h);
      }
    }
  }

  lemma DispatchedSame(handler: Handler, other: Handler)
    requires Dispatched(handler) && other.popped == handler.popped
    requires other.current == handler.current && other.handled == handler.handled
    ensures Dispatched(other)
  {
  }

  /** What an action does to a handler's events, other than delivering one to it. */
  lemma HandlerStep(s: State, a: Action, h: nat)
    requires Inv(s) && Next(s, a).Some? && h in s.handlers && !(a.Deliver? && h == s.lock.remaining[0])
    ensures var t := Next(s, a).value;
            && h in t.handlers && Dispatched(t.handlers[h]) && s.published <= t.published
            && Stream(t.handlers[h]) <= Stream(s.handlers[h])
            && (!(a.Clear? && a.h == h) ==> Stream(t.handlers[h]) == Stream(s.handlers[h]))
  {
    hide InOrder, Dispatched;
    var before, after := s.handlers[h], Next(s, a).value.handlers[h];
    if a.Pop? && a.h == h {
      PopKeeps(before);
    } else if a.Dispatch? && a.h == h {
      var e := before.current.value;
      PoppedInOrder(before, s.published, Bound(s, h));
      DispatchKeeps(before);
      DispatchedSame(before.(current := None, handled := before.handled + if e.kind in before.types then [e] else []),
                     after);
    } else {
      DispatchedSame(before, after);
    }
  }

  lemma PoppedInOrder(handler: Handler, published: seq<string>, bound: int)
    requires InOrder(Stream(handler), published, bound) && bound <= |published|
    ensures Increasing(handler.popped)
  {
    OrderPart(Stream(handler), published, bound, published, bound, handler.popped);
  }

  lemma BoundStep(s: State, a: Action, h: nat)
    requires Inv(s) && Next(s, a).Some? && h in s.handlers && !(a.Deliver? && h == s.lock.remaining[0])
    ensures Bound(s, h) <= Bound(Next(s, a).value, h) <= |Next(s, a).value.published|
  {
    hide InOrder, Dispatched;
  }

  lemma HandlerKeeps(s: State, a: Action, h: nat)
    requires Inv(s) && Next(s, a).Some? && h in s.handlers
    ensures var t := Next(s, a).value;
            h in t.handlers && InOrder(Stream(t.handlers[h]), t.published, Bound(t, h)) && Dispatched(t.handlers[h])
  {
    if a.Deliver? && h == s.lock.remaining[0] {
      DeliverKeeps(s, h);
    } else {
      hide InOrder, Dispatched, Next, Bound;
      var t := Next(s, a).value;
      HandlerStep(s, a, h);
      BoundStep(s, a, h);
      OrderPart(Stream(s.handlers[h]), s.published, Bound(s, h), t.published, Bound(t, h), Stream(t.handlers[h]));
    }
  }

  lemma DeliverKeeps(s: State, h: nat)
    requires Inv(s) && Next(s, Deliver).Some? && h in s.handlers && h == s.lock.remaining[0]
    ensures var t := Next(s, Deliver).value;
            && h in t.handlers && InOrder(Stream(t.handlers[h]), t.published, Bound(t, h)) && Dispatched(t.handlers[h])
            && Stream(t.handlers[h]) == Stream(s.handlers[h]) + [Current(s)]
  {
    hide InOrder, Dispatched;
    var before, after := s.handlers[h], Next(s, Deliver).value.handlers[h];
    assert Stream(after) == Stream(before) + [Current(s)];
    OrderAppend(Stream(before), s.published, Current(s));
    DispatchedSame(before, after);
  }

  /** In every run the events taken and queued by a handler are published events in the order
      of their publication, none twice, and so are those its callbacks have seen. */
  lemma {:induction false} RunKeepsOrder(actions: seq<Action>)
    requires Exec(actions).Some?
    ensures Inv(Exec(actions).value)
    ensures forall h :: h in Exec(actions).value.handlers ==>
              && InOrder(Stream(Exec(actions).value.handlers[h]), Exec(actions).value.published,
                         Bound(Exec(actions).value, h))
              && Increasing(Exec(actions).value.handlers[h].handled)
  {
    if actions != [] {
      RunKeepsOrder(actions[..|actions| - 1]);
      NextKeeps(Exec(actions[..|actions| - 1]).value, actions[|actions| - 1]);
    }
  }

  /** Two handlers never have two common events in opposite orders. */
  lemma SameOrder(actions: seq<Action>, g: nat, h: nat, i: nat, j: nat, k: nat, l: nat)
    requires Exec(actions).Some?
    requires var s := Exec(actions).value;
             && g in s.handlers && h in s.handlers
             && i < |Stream(s.handlers[g])| && j < |Stream(s.handlers[g])|
             && k < |Stream(s.handlers[h])| && l < |Stream(s.handlers[h])|
             && Stream(s.handlers[g])[i] == Stream(s.handlers[h])[k]
             && Stream(s.handlers[g])[j] == Stream(s.handlers[h])[l]
    ensures i < j <==> k < l
    ensures i == j <==> k == l
  {
    RunKeepsOrder(actions);
    var s := Exec(actions).value;
    IdsOrder(Stream(s.handlers[g]), i, j);
    IdsOrder(Stream(s.handlers[h]), k, l);
  }

  lemma IdsOrder(s: seq<Event>, i: nat, j: nat)
    requires Increasing(s) && i < |s| && j < |s|
    ensures i < j <==> s[i].id < s[j].id
    ensures i == j <==> s[i].id == s[j].id
  {
    if i < j {
      assert s[i].id < s[j].id;
    } else if j < i {
      assert s[j].id < s[i].id;
    }
  }

  // ----- what a publication reaches -----

  /** While nobody clears its queue, a handler never loses an event. */
  lemma NothingLost(s: State, a: Action, h: nat)
    requires Inv(s) && Next(s, a).Some? && h in s.handlers && !(a.Clear? && a.h == h)
    ensures h in Next(s, a).value.handlers && Stream(s.handlers[h]) <= Stream(Next(s, a).value.handlers[h])
  {
    if a.Deliver? && h == s.lock.remaining[0] {
      DeliverKeeps(s, h);
    } else {
      HandlerStep(s, a, h);
    }
  }

  /** What a publication under way owes a subscriber that knows the type: to visit it, unless
      the event is already there. */
  ghost predicate Promised(s: State, h: nat, e: Event)
  {
    && s.lock.Publishing? && s.published != [] && Current(s) == e
    && h in s.handlers && e.kind in s.handlers[h].types
    && (h in s.lock.remaining || e in Stream(s.handlers[h]))
  }

  /** Only subscribers are visited, and only they have the event. */
  ghost predicate Confined(s: State, subscribed: set<nat>, e: Event)
  {
    && s.lock.Publishing? && s.published != [] && Current(s) == e && s.subscribed == subscribed
    && (forall h :: h in s.lock.remaining ==> h in subscribed)
    && forall h :: h in s.handlers && e in Stream(s.handlers[h]) ==> h in subscribed
  }

  lemma PromiseKept(s: State, a: Action, h: nat, e: Event)
    requires Inv(s) && Promised(s, h, e) && Next(s, a).Some? && !a.End?
    requires a != Clear(h) && a != Cancel(h, e.kind)
    ensures Promised(Next(s, a).value, h, e)
  {
    hide InOrder, Dispatched, Stream;
    NothingLost(s, a, h);
    if a.Deliver? && h == s.lock.remaining[0] {
      DeliverKeeps(s, h);
    }
  }

  lemma ConfinedStream(s: State, a: Action, subscribed: set<nat>, e: Event, h: nat)
    requires Inv(s) && Confined(s, subscribed, e) && Next(s, a).Some?
    requires h in Next(s, a).value.handlers && e in Stream(Next(s, a).value.handlers[h])
    ensures h in subscribed
  {
    hide InOrder, Dispatched;
    if h in s.handlers && !(a.Deliver? && h == s.lock.remaining[0]) {
      hide Next, Stream;
      HandlerStep(s, a, h);
    }
  }

  lemma ConfinedKept(s: State, a: Action, subscribed: set<nat>, e: Event)
    requires Inv(s) && Confined(s, subscribed, e) && Next(s, a).Some? && !a.End?
    ensures Confined(Next(s, a).value, subscribed, e)
  {
    hide InOrder, Dispatched, Stream;
    var t := Next(s, a).value;
    forall h | h in t.handlers && e in Stream(t.handlers[h])
      ensures h in subscribed
    {
      ConfinedStream(s, a, subscribed, e, h);
    }
  }

  /** A publication, with anything that may happen between its steps. */
  lemma {:induction false} DuringPublication(s: State, actions: seq<Action>, h: nat, e: Event, subscribed: set<nat>)
    requires Inv(s) && ExecFrom(s, actions).Some? && End !in actions
    requires Confined(s, subscribed, e)
    ensures Inv(ExecFrom(s, actions).value) && Confined(ExecFrom(s, actions).value, subscribed, e)
    ensures Promised(s, h, e) && Clear(h) !in actions && Cancel(h, e.kind) !in actions ==>
              Promised(ExecFrom(s, actions).value, h, e)
  {
    hide Next, Inv, Confined, Promised;
    if actions != [] {
      var init, a := actions[..|actions| - 1], actions[|actions| - 1];
      assert actions == init + [a];
      DuringPublication(s, init, h, e, subscribed);
      var t := ExecFrom(s, init).value;
      NextKeeps(t, a);
      ConfinedKept(t, a, subscribed, e);
      if Promised(t, h, e) && Clear(h) !in actions && Cancel(h, e.kind) !in actions {
        PromiseKept(t, a, h, e);
      }
    }
  }

  lemma NewestIsLast(s: seq<Event>, published: seq<string>, e: Event)
    requires InOrder(s, published, |published|) && e in s && e.id == |published| - 1
    ensures s[|s| - 1] == e
  {
    var i :| 0 <= i < |s| && s[i] == e;
    IdsOrder(s, i, |s| - 1);
  }

  lemma PublicationStarts(s: State, caller: Option<nat>, kind: string, order: seq<nat>)
    requires Inv(s) && Next(s, Start(caller, kind, order)).Some?
    ensures var t, e := Next(s, Start(caller, kind, order)).value, Event(|s.published|, kind);
            && Inv(t) && Confined(t, s.subscribed, e)
            && forall h :: h in s.subscribed && h in s.handlers && kind in s.handlers[h].types ==> Promised(t, h, e)
  {
    NextKeeps(s, Start(caller, kind, order));
    var e := Event(|s.published|, kind);
    forall h | h in s.handlers
      ensures e !in Stream(s.handlers[h])
    {
      assert InOrder(Stream(s.handlers[h]), s.published, Bound(s, h));
    }
  }

  /** When a publication ends, every subscriber that knew the type all the time has the event as
      its last one, whatever else happened meanwhile, short of clearing its queue; and nobody
      but a subscriber has it. */
  lemma PublicationReaches(before: seq<Action>, caller: Option<nat>, kind: string, order: seq<nat>,
                           during: seq<Action>, h: nat)
    requires Exec(before + [Start(caller, kind, order)] + during + [End]).Some? && End !in during
    ensures Exec(before).Some?
    ensures var s, t := Exec(before).value, Exec(before + [Start(caller, kind, order)] + during + [End]).value;
            var e := Event(|s.published|, kind);
            && (h in s.subscribed && h in s.handlers && kind in s.handlers[h].types
                && Clear(h) !in during && Cancel(h, kind) !in during ==>
                  h in t.handlers && Stream(t.handlers[h]) != [] && Stream(t.handlers[h])[|Stream(t.handlers[h])| - 1] == e)
            && (h in t.handlers && e in Stream(t.handlers[h]) ==> h in s.subscribed)
  {
    hide Inv, Confined, Promised, Next;
    var start := before + [Start(caller, kind, order)];
    ExecSnoc(INITIAL, start + during, End);
    ExecConcat(INITIAL, start, during);
    ExecSnoc(INITIAL, before, Start(caller, kind, order));
    var s, e := Exec(before).value, Event(|Exec(before).value.published|, kind);
    RunKeepsOrder(before);
    PublicationStarts(s, caller, kind, order);
    var first := Next(s, Start(caller, kind, order)).value;
    DuringPublication(first, during, h, e, s.subscribed);
    PublicationEnds(ExecFrom(first, during).value, h, e, s.subscribed);
  }

  lemma PublicationEnds(s: State, h: nat, e: Event, subscribed: set<nat>)
    requires Inv(s) && Confined(s, subscribed, e) && Next(s, End).Some?
    ensures var t := Next(s, End).value;
            && (Promised(s, h, e) ==>
                  h in t.handlers && Stream(t.handlers[h]) != [] && Stream(t.handlers[h])[|Stream(t.handlers[h])| - 1] == e)
            && (h in t.handlers && e in Stream(t.handlers[h]) ==> h in subscribed)
  {
    if Promised(s, h, e) {
      NewestIsLast(Stream(s.handlers[h]), s.published, e);
    }
  }

  // ----- what a handler's thread makes of its events -----

  /** Taking an event and dispatching it without interruption does what the method does: the
      callback of its type gets it, and then runs, if there is one. */
  lemma TurnUninterrupted(s: State, h: nat)
    requires Unlocked(s, h) && s.handlers[h].queue != [] && s.handlers[h].current == None
    ensures var before, e := s.handlers[h], s.handlers[h].queue[0];
            ExecFrom(s, [Pop(h), Dispatch(h)])
            == Some(s.(handlers := s.handlers[h := Handler(
                 before.types, before.queue[1..], before.popped + [e], None,
                 if e.kind in before.types then before.handled + [e] else before.handled,
                 if e.kind in before.types then Running else Outside)]))
  {
    hide ExecFrom;
    ExecSnoc(s, [], Pop(h));
    ExecSnoc(s, [Pop(h)], Dispatch(h));
    assert [] + [Pop(h)] == [Pop(h)] && [Pop(h)] + [Dispatch(h)] == [Pop(h), Dispatch(h)];
    NoActions(s);
    var e, t := s.handlers[h].queue[0], Next(s, Pop(h)).value;
    assert s.handlers[h].handled + [] == s.handlers[h].handled;
    assert Next(t, Dispatch(h)).value.handlers == s.handlers[h := Next(t, Dispatch(h)).value.handlers[h]];
  }

  lemma NoActions(s: State)
    ensures ExecFrom(s, []) == Some(s)
  {
  }

  /** The handler is done with the event. */
  predicate Done(handler: Handler, e: Event)
  {
    e in handler.popped && handler.current != Some(e)
  }

  /** While the type has a callback, or none, the events done with have been given to it, or not. */
  ghost predicate GivenIf(s: State, h: nat, e: Event, known: bool)
  {
    && h in s.handlers && (e.kind in s.handlers[h].types) == known
    && if known then Done(s.handlers[h], e) ==> e in s.handlers[h].handled else e !in s.handlers[h].handled
  }

  lemma GivenKept(s: State, a: Action, h: nat, e: Event, known: bool)
    requires GivenIf(s, h, e, known) && Next(s, a).Some?
    requires a != if known then Cancel(h, e.kind) else On(h, e.kind)
    ensures GivenIf(Next(s, a).value, h, e, known)
  {
    if a.Dispatch? && a.h == h {
      var before := s.handlers[h];
      assert before.current == Some(e) || Done(before, e) == (e in before.popped);
    }
  }

  lemma {:induction false} GivenInRun(s: State, actions: seq<Action>, h: nat, e: Event, known: bool)
    requires GivenIf(s, h, e, known) && ExecFrom(s, actions).Some?
    requires (if known then Cancel(h, e.kind) else On(h, e.kind)) !in actions
    ensures GivenIf(ExecFrom(s, actions).value, h, e, known)
  {
    hide Next, GivenIf;
    if actions != [] {
      var init, a := actions[..|actions| - 1], actions[|actions| - 1];
      assert actions == init + [a];
      GivenInRun(s, init, h, e, known);
      GivenKept(ExecFrom(s, init).value, a, h, e, known);
    }
  }

  /** An event the handler is not yet done with reaches the callback of its type if that stays
      registered until the handler is done with it, and does not if none is registered meanwhile. */
  lemma KnownIsHandled(before: seq<Action>, during: seq<Action>, h: nat, e: Event)
    requires Exec(before).Some? && Exec(before + during).Some?
    requires h in Exec(before).value.handlers && !Done(Exec(before).value.handlers[h], e)
    ensures var types, t := Exec(before).value.handlers[h].types, Exec(before + during).value;
            && h in t.handlers
            && (e.kind in types && Cancel(h, e.kind) !in during && Done(t.handlers[h], e) ==> e in t.handlers[h].handled)
            && (e.kind !in types && On(h, e.kind) !in during ==> e !in t.handlers[h].handled)
  {
    hide Next, Inv;
    var s := Exec(before).value;
    ExecConcat(INITIAL, before, during);
    HandlersStay(s, during, h);
    RunKeepsOrder(before);
    NotYetHandled(s, h, e);
    if e.kind in s.handlers[h].types && Cancel(h, e.kind) !in during {
      GivenInRun(s, during, h, e, true);
    } else if e.kind !in s.handlers[h].types && On(h, e.kind) !in during {
      GivenInRun(s, during, h, e, false);
    }
  }

  /** An event that a handler has taken and is done with has been given to its callback, if that
      was registered when the event was published and has not been cancelled since. */
  lemma PublishedIsHandled(before: seq<Action>, caller: Option<nat>, kind: string, order: seq<nat>,
                           during: seq<Action>, h: nat)
    requires Exec(before + [Start(caller, kind, order)] + during).Some? && Cancel(h, kind) !in during
    ensures Exec(before).Some?
    ensures var s, t := Exec(before).value, Exec(before + [Start(caller, kind, order)] + during).value;
            var e := Event(|s.published|, kind);
            h in s.handlers && kind in s.handlers[h].types ==>
              && h in t.handlers
              && (e in t.handlers[h].popped && t.handlers[h].current != Some(e) ==> e in t.handlers[h].handled)
  {
    hide Inv, Next;
    var start := before + [Start(caller, kind, order)];
    ExecConcat(INITIAL, start, during);
    ExecSnoc(INITIAL, before, Start(caller, kind, order));
    var s := Exec(before).value;
    if h in s.handlers && kind in s.handlers[h].types {
      RunKeepsOrder(before);
      NotYetPublished(s, caller, kind, order, h);
      KnownIsHandled(start, during, h, Event(|s.published|, kind));
    }
  }

  lemma NotYetPublished(s: State, caller: Option<nat>, kind: string, order: seq<nat>, h: nat)
    requires Inv(s) && h in s.handlers && Next(s, Start(caller, kind, order)).Some?
    ensures var t := Next(s, Start(caller, kind, order)).value;
            && h in t.handlers && t.handlers[h].types == s.handlers[h].types
            && !Done(t.handlers[h], Event(|s.published|, kind))
  {
    var handler, e := s.handlers[h], Event(|s.published|, kind);
    assert InOrder(Stream(handler), s.published, Bound(s, h));
    assert e in handler.popped ==> e in Stream(handler);
  }

  lemma NotYetHandled(s: State, h: nat, e: Event)
    requires Inv(s) && h in s.handlers && !Done(s.handlers[h], e)
    ensures e !in s.handlers[h].handled
  {
    var handler := s.handlers[h];
    PoppedInOrder(handler, s.published, Bound(s, h));
    assert Dispatched(handler);
  }

  lemma {:induction false} HandlersStay(s: State, actions: seq<Action>, h: nat)
    requires ExecFrom(s, actions).Some? && h in s.handlers
    ensures h in ExecFrom(s, actions).value.handlers
  {
    if actions != [] {
      HandlersStay(s, actions[..|actions| - 1], h);
    }
  }

  /** What holds of a handler none of whose callbacks is ever cancelled. */
  ghost predicate AllKnown(s: State, h: nat)
    requires h in s.handlers
  {
    var handler := s.handlers[h];
    && (forall e :: e in handler.queue ==> e.kind in handler.types)
    && (handler.current.Some? ==> handler.current.value.kind in handler.types)
    && (s.lock.Publishing? && s.lock.found && s.lock.remaining != [] && s.lock.remaining[0] == h && s.published != [] ==>
          Current(s).kind in handler.types)
    && handler.popped == handler.handled + if handler.current.Some? then [handler.current.value] else []
  }

  lemma BusKeepsKnown(s: State, a: Action, h: nat)
    requires Next(s, a).Some? && h in s.handlers && AllKnown(s, h) && OnBus(a)
    ensures h in Next(s, a).value.handlers && AllKnown(Next(s, a).value, h)
  {
  }

  lemma HandlerKeepsKnown(s: State, a: Action, h: nat)
    requires Next(s, a).Some? && h in s.handlers && AllKnown(s, h) && !OnBus(a) && !(a.Cancel? && a.h == h)
    ensures h in Next(s, a).value.handlers && AllKnown(Next(s, a).value, h)
  {
    var before, after := s.handlers[h], Next(s, a).value.handlers[h];
    if a.Pop? && a.h == h {
      assert after.popped == before.handled + [after.current.value];
    } else if a.Dispatch? && a.h == h {
      assert after.popped == after.handled + [];
    }
  }

  /** A handler that has just been created is not visited. */
  lemma CreatedKnown(s: State, a: Action, h: nat)
    requires LockInv(s) && Next(s, a).Some? && h !in s.handlers && h in Next(s, a).value.handlers
    ensures AllKnown(Next(s, a).value, h)
  {
  }

  /** If no callback of a handler is ever cancelled, its callbacks have seen all events that it has
      taken, in that order, but for the one about to be dispatched. */
  lemma {:induction false} AllHandled(actions: seq<Action>, h: nat)
    requires Exec(actions).Some? && h in Exec(actions).value.handlers
    requires forall kind :: Cancel(h, kind) !in actions
    ensures AllKnown(Exec(actions).value, h)
    ensures var handler := Exec(actions).value.handlers[h];
            handler.popped == handler.handled + if handler.current.Some? then [handler.current.value] else []
  {
    hide Next, Inv;
    RunKeepsOrder(actions);
    if actions != [] {
      var init, a := actions[..|actions| - 1], actions[|actions| - 1];
      assert actions == init + [a];
      var s := Exec(init).value;
      RunKeepsOrder(init);
      InvLock(s);
      if h !in s.handlers {
        CreatedKnown(s, a, h);
      } else {
        AllHandled(init, h);
        if OnBus(a) {
          BusKeepsKnown(s, a, h);
        } else {
          HandlerKeepsKnown(s, a, h);
        }
      }
    }
  }

  lemma InvLock(s: State)
    requires Inv(s)
    ensures LockInv(s)
  {
  }

  // ----- what unsubscribing and clearing keep away -----

  /** The handler has nothing published since the bound and is not to be visited. */
  ghost predicate LeftOut(s: State, h: nat, bound: nat)
  {
    && h !in s.subscribed && bound <= |s.published| && (s.lock.Publishing? ==> h !in s.lock.remaining)
    && (h in s.handlers ==> forall e :: e in Stream(s.handlers[h]) ==> e.id < bound)
  }

  lemma LeftOutKept(s: State, a: Action, h: nat, bound: nat)
    requires LeftOut(s, h, bound) && Next(s, a).Some? && !(a.Subscribe? && a.h == h)
    ensures LeftOut(Next(s, a).value, h, bound)
  {
    var t := Next(s, a).value;
    if a.Start? {
      assert h !in set g | g in a.order;
    }
    if h in t.handlers {
      forall e | e in Stream(t.handlers[h])
        ensures e.id < bound
      {
        assert h in s.handlers && e in Stream(s.handlers[h]);
      }
    }
  }

  lemma {:induction false} LeftOutInRun(s: State, actions: seq<Action>, h: nat, bound: nat)
    requires LeftOut(s, h, bound) && ExecFrom(s, actions).Some?
    requires forall caller :: Subscribe(caller, h) !in actions
    ensures LeftOut(ExecFrom(s, actions).value, h, bound)
  {
    hide Next, LeftOut;
    if actions != [] {
      var init, a := actions[..|actions| - 1], actions[|actions| - 1];
      assert actions == init + [a];
      LeftOutInRun(s, init, h, bound);
      LeftOutKept(ExecFrom(s, init).value, a, h, bound);
    }
  }

  /** A handler that has been unsubscribed, and not subscribed again, has only events published
      before. */
  lemma UnsubscribedGetsNone(before: seq<Action>, caller: Option<nat>, h: nat, during: seq<Action>)
    requires Exec(before).Some? && Exec(before + [Unsubscribe(caller, h)] + during).Some?
    requires forall other :: Subscribe(other, h) !in during
    ensures var s, t := Exec(before).value, Exec(before + [Unsubscribe(caller, h)] + during).value;
            h !in t.subscribed && (h in t.handlers ==> forall e :: e in Stream(t.handlers[h]) ==> e.id < |s.published|)
  {
    hide Inv;
    var s, first := Exec(before).value, before + [Unsubscribe(caller, h)];
    ExecConcat(INITIAL, first, during);
    ExecSnoc(INITIAL, before, Unsubscribe(caller, h));
    RunKeepsOrder(before);
    LeftOutStarts(s, caller, h);
    LeftOutInRun(Exec(first).value, during, h, |s.published|);
  }

  lemma LeftOutStarts(s: State, caller: Option<nat>, h: nat)
    requires Inv(s) && Next(s, Unsubscribe(caller, h)).Some?
    ensures LeftOut(Next(s, Unsubscribe(caller, h)).value, h, |s.published|)
  {
    if h in s.handlers {
      assert InOrder(Stream(s.handlers[h]), s.published, Bound(s, h));
    }
  }

  /** The event has been published, and the handler does not have it and will not get it. */
  ghost predicate Gone(s: State, h: nat, e: Event)
  {
    && h in s.handlers && e !in Stream(s.handlers[h]) && e.id < |s.published|
    && (s.lock.Publishing? && h in s.lock.remaining ==> e.id < |s.published| - 1)
  }

  lemma GoneKept(s: State, a: Action, h: nat, e: Event)
    requires Inv(s) && Gone(s, h, e) && Next(s, a).Some?
    ensures Gone(Next(s, a).value, h, e)
  {
    hide InOrder, Dispatched, Stream;
    if a.Deliver? && h == s.lock.remaining[0] {
      DeliverKeeps(s, h);
    } else {
      HandlerStep(s, a, h);
    }
  }

  lemma {:induction false} GoneInRun(s: State, actions: seq<Action>, h: nat, e: Event)
    requires Inv(s) && Gone(s, h, e) && ExecFrom(s, actions).Some?
    ensures Inv(ExecFrom(s, actions).value) && Gone(ExecFrom(s, actions).value, h, e)
  {
    hide Next, Gone, Inv;
    if actions != [] {
      GoneInRun(s, actions[..|actions| - 1], h, e);
      var t := ExecFrom(s, actions[..|actions| - 1]).value;
      GoneKept(t, actions[|actions| - 1], h, e);
      NextKeeps(t, actions[|actions| - 1]);
    }
  }

  lemma ClearedGone(s: State, h: nat, e: Event)
    requires Inv(s) && h in s.handlers && e in s.handlers[h].queue && Next(s, Clear(h)).Some?
    ensures Gone(Next(s, Clear(h)).value, h, e)
  {
    var handler := s.handlers[h];
    var events := Stream(handler);
    assert InOrder(events, s.published, Bound(s, h));
    var k :| 0 <= k < |handler.queue| && handler.queue[k] == e;
    assert events[|handler.popped| + k] == e;
    forall i | 0 <= i < |handler.popped|
      ensures handler.popped[i] != e
    {
      assert events[i] == handler.popped[i];
    }
  }

  /** What was queued when a handler's queue was cleared is never taken from it. */
  lemma ClearedNeverTaken(before: seq<Action>, h: nat, during: seq<Action>, e: Event)
    requires Exec(before).Some? && Exec(before + [Clear(h)] + during).Some?
    requires h in Exec(before).value.handlers && e in Exec(before).value.handlers[h].queue
    ensures var t := Exec(before + [Clear(h)] + during).value;
            h in t.handlers && e !in t.handlers[h].popped && e !in t.handlers[h].queue
  {
    hide Inv, Next;
    ExecConcat(INITIAL, before + [Clear(h)], during);
    ExecSnoc(INITIAL, before, Clear(h));
    RunKeepsOrder(before);
    RunKeepsOrder(before + [Clear(h)]);
    ClearedGone(Exec(before).value, h, e);
    GoneInRun(Exec(before + [Clear(h)]).value, during, h, e);
    var t := Exec(before + [Clear(h)] + during).value;
    assert forall x :: x in t.handlers[h].popped || x in t.handlers[h].queue ==> x in Stream(t.handlers[h]);
  }

  /** A handler is subscribed from a subscription on until it is unsubscribed. */
  lemma {:induction false} SubscriptionStands(s: State, caller: Option<nat>, h: nat, during: seq<Action>)
    requires ExecFrom(s, [Subscribe(caller, h)] + during).Some?
    requires forall other :: Unsubscribe(other, h) !in during
    ensures h in ExecFrom(s, [Subscribe(caller, h)] + during).value.subscribed
  {
    hide ExecFrom;
    var start := [Subscribe(caller, h)];
    if during == [] {
      ExecSnoc(s, [], start[0]);
      assert [] + start == start == start + during;
    } else {
      var init, a := during[..|during| - 1], during[|during| - 1];
      assert during == init + [a] && start + during == (start + init) + [a];
      ExecSnoc(s, start + init, a);
      SubscriptionStands(s, caller, h, init);
    }
  }

  /** A type has a callback from its registration on until it is cancelled, and none the other way
      round. */
  lemma {:induction false} CallbackStands(s: State, first: Action, h: nat, kind: string, during: seq<Action>)
    requires ExecFrom(s, [first] + during).Some?
    requires (first == On(h, kind) && Cancel(h, kind) !in during) || (first == Cancel(h, kind) && On(h, kind) !in during)
    ensures var t := ExecFrom(s, [first] + during).value;
            h in t.handlers && (kind in t.handlers[h].types) == first.On?
  {
    hide ExecFrom;
    if during == [] {
      ExecSnoc(s, [], first);
      NoActions(s);
      assert [] + [first] == [first] == [first] + during;
    } else {
      var init, a := during[..|during| - 1], during[|during| - 1];
      assert during == init + [a] && [first] + during == ([first] + init) + [a];
      ExecSnoc(s, [first] + init, a);
      CallbackStands(s, first, h, kind, init);
    }
  }

  // ----- the two mutexes -----

  /** From the start to the end of a publication nobody else takes the bus mutex. */
  lemma {:induction false} BusExclusive(s: State, caller: Option<nat>, kind: string, order: seq<nat>, during: seq<Action>)
    requires ExecFrom(s, [Start(caller, kind, order)] + during).Some? && End !in during
    ensures forall a :: a in during ==> !a.Start? && !a.Subscribe? && !a.Unsubscribe?
    ensures ExecFrom(s, [Start(caller, kind, order)] + during).value.lock.Publishing?
  {
    hide ExecFrom;
    var start := [Start(caller, kind, order)];
    if during == [] {
      ExecSnoc(s, [], Start(caller, kind, order));
      assert [] + start == start == start + during;
    } else {
      var init, a := during[..|during| - 1], during[|during| - 1];
      assert during == init + [a] && start + during == (start + init) + [a];
      ExecSnoc(s, start + init, a);
      BusExclusive(s, caller, kind, order, init);
    }
  }

  /** An action that takes the handler's mutex. */
  ghost predicate Locks(s: State, a: Action, h: nat)
  {
    a == Pop(h) || a == Dispatch(h) || (exists kind :: a == On(h, kind) || a == Cancel(h, kind))
    || (a.Look? && s.lock.Publishing? && s.lock.remaining != [] && s.lock.remaining[0] == h)
  }

  lemma MayNotLock(s: State, a: Action, h: nat)
    requires h in s.handlers && s.handlers[h].call != Outside
    ensures Locks(s, a, h) ==> Next(s, a).None?
  {
  }

  lemma StaysLocked(s: State, a: Action, h: nat)
    requires h in s.handlers && s.handlers[h].call != Outside && Next(s, a).Some? && a != Finish(h)
    ensures var t := Next(s, a).value;
            h in t.handlers && t.handlers[h].call != Outside && t.handlers[h].types == s.handlers[h].types
  {
  }

  lemma DispatchCalls(s: State, h: nat)
    requires h in s.handlers && s.handlers[h].current.Some? && s.handlers[h].current.value.kind in s.handlers[h].types
    requires Next(s, Dispatch(h)).Some?
    ensures var t := Next(s, Dispatch(h)).value;
            h in t.handlers && t.handlers[h].call != Outside && t.handlers[h].types == s.handlers[h].types
  {
  }

  /** From the dispatch of an event to a callback until that has finished nobody takes the handler's
      mutex: its callbacks run one at a time, and are not changed meanwhile. */
  lemma {:induction false} HandlerExclusive(s: State, h: nat, during: seq<Action>, a: Action)
    requires h in s.handlers && s.handlers[h].current.Some? && s.handlers[h].current.value.kind in s.handlers[h].types
    requires ExecFrom(s, [Dispatch(h)] + during).Some? && Finish(h) !in during
    ensures var t := ExecFrom(s, [Dispatch(h)] + during).value;
            && h in t.handlers && t.handlers[h].call != Outside && t.handlers[h].types == s.handlers[h].types
            && (Locks(t, a, h) ==> Next(t, a).None?)
  {
    hide ExecFrom, Next, Locks;
    var start := [Dispatch(h)];
    if during == [] {
      ExecSnoc(s, [], Dispatch(h));
      assert [] + start == start == start + during;
      NoActions(s);
      DispatchCalls(s, h);
    } else {
      var init, b := during[..|during| - 1], during[|during| - 1];
      assert during == init + [b] && start + during == (start + init) + [b];
      ExecSnoc(s, start + init, b);
      HandlerExclusive(s, h, init, b);
      StaysLocked(ExecFrom(s, start + init).value, b, h);
    }
    MayNotLock(ExecFrom(s, start + during).value, a, h);
  }

  // ----- a publication that nobody interrupts -----

  /** Looking a type up at every handler, and delivering where it is known. */
  function Visits(known: set<nat>, order: seq<nat>): seq<Action>
  {
    if order == [] then [] else (if order[0] in known then [Look, Deliver] else [Look]) + Visits(known, order[1..])
  }

  /** The state t is s after the visits of the handlers in order. */
  ghost predicate Visited(s: State, t: State, known: set<nat>, order: seq<nat>)
    requires s.lock.Publishing? && s.published != []
  {
    && t.lock == s.lock.(remaining := [], found := false, reached := s.lock.reached + set h | h in order && h in known)
    && t.published == s.published && t.subscribed == s.subscribed && t.handlers.Keys == s.handlers.Keys
    && forall h :: h in s.handlers ==>
         t.handlers[h] == if h in order then
           s.handlers[h].(queue := Receives(s.handlers[h].queue, s.handlers[h].types, Current(s)))
         else s.handlers[h]
  }

  ghost predicate KnowIt(s: State, known: set<nat>)
    requires s.published != []
  {
    forall h :: h in s.handlers ==> (h in known <==> Current(s).kind in s.handlers[h].types)
  }

  lemma TwoSteps(s: State)
    ensures ExecFrom(s, [Look]) == Next(s, Look)
    ensures ExecFrom(s, [Look, Deliver]) == if Next(s, Look).None? then None else Next(Next(s, Look).value, Deliver)
  {
    hide Next;
    ExecSnoc(s, [], Look);
    ExecSnoc(s, [Look], Deliver);
    assert [] + [Look] == [Look] && [Look] + [Deliver] == [Look, Deliver];
  }

  /** The visit of one handler. */
  lemma VisitOne(s: State, known: set<nat>, order: seq<nat>) returns (t: State)
    requires s.lock.Publishing? && s.published != [] && KnowIt(s, known)
    requires order != [] && s.lock.remaining == order && !s.lock.found && Unlocked(s, order[0])
    ensures ExecFrom(s, if order[0] in known then [Look, Deliver] else [Look]) == Some(t)
    ensures var h := order[0];
            && t.handlers == s.handlers[h := s.handlers[h].(queue :=
                 Receives(s.handlers[h].queue, s.handlers[h].types, Current(s)))]
            && t.lock == s.lock.(remaining := order[1..], found := false,
                                 reached := if h in known then s.lock.reached + {h} else s.lock.reached)
            && t.published == s.published && t.subscribed == s.subscribed
  {
    hide ExecFrom;
    TwoSteps(s);
    var h := order[0];
    if h in known {
      t := Next(Next(s, Look).value, Deliver).value;
    } else {
      t := Next(s, Look).value;
      assert s.handlers[h].(queue := s.handlers[h].queue + []) == s.handlers[h];
    }
  }

  /** The first visit and the others together. */
  lemma VisitedTogether(s: State, t: State, u: State, known: set<nat>, order: seq<nat>)
    requires s.lock.Publishing? && s.published != [] && t.lock.Publishing? && Distinct(order)
    requires order != [] && order[0] in s.handlers
    requires var h := order[0];
             && t.handlers == s.handlers[h := s.handlers[h].(queue :=
                  Receives(s.handlers[h].queue, s.handlers[h].types, Current(s)))]
             && t.lock.reached == (if h in known then s.lock.reached + {h} else s.lock.reached)
             && t.lock.caller == s.lock.caller
             && t.published == s.published && t.subscribed == s.subscribed
    requires Visited(t, u, known, order[1..])
    ensures Visited(s, u, known, order)
  {
    hide Receives, Distinct;
    FirstOnce(order);
    assert u.lock.reached == s.lock.reached + set h | h in order && h in known;
  }

  lemma FirstOnce(order: seq<nat>)
    requires order != [] && Distinct(order)
    ensures order[0] !in order[1..] && Distinct(order[1..])
    ensures forall h :: h in order <==> h == order[0] || h in order[1..]
  {
    assert order == [order[0]] + order[1..];
  }

  lemma {:induction false} VisitAll(s: State, known: set<nat>, order: seq<nat>)
    requires s.lock.Publishing? && s.published != [] && KnowIt(s, known)
    requires s.lock.remaining == order && !s.lock.found && Distinct(order)
    requires forall h :: h in order ==> Unlocked(s, h)
    ensures ExecFrom(s, Visits(known, order)).Some?
    ensures Visited(s, ExecFrom(s, Visits(known, order)).value, known, order)
    decreases |order|
  {
    hide Next;
    if order != [] {
      hide ExecFrom, Visited, Receives;
      var first := if order[0] in known then [Look, Deliver] else [Look];
      var t := VisitOne(s, known, order);
      FirstOnce(order);
      ExecConcat(s, first, Visits(known, order[1..]));
      VisitAll(t, known, order[1..]);
      VisitedTogether(s, t, ExecFrom(t, Visits(known, order[1..])).value, known, order);
    }
  }

  /** The steps of a publication that nobody interrupts do what the method does: exactly the
      subscribers that know the type are reached, and every subscriber's queue becomes what the
      method makes of it. */
  lemma Uninterrupted(s: State, kind: string, order: seq<nat>, known: set<nat>)
    requires s.lock.Free? && Distinct(order) && (set h | h in order) == s.subscribed
    requires forall h :: h in s.subscribed ==> Unlocked(s, h)
    requires known == set h | h in s.handlers && kind in s.handlers[h].types
    ensures var steps := [Start(None, kind, order)] + Visits(known, order);
            var e := Event(|s.published|, kind);
            && ExecFrom(s, steps).Some?
            && ExecFrom(s, steps).value.lock == Publishing([], false, s.subscribed * known, None)
            && ExecFrom(s, steps + [End]).Some?
            && var t := ExecFrom(s, steps + [End]).value;
               && t.lock == Free && t.published == s.published + [kind] && t.subscribed == s.subscribed
               && t.handlers.Keys == s.handlers.Keys
               && forall h :: h in s.handlers ==>
                    t.handlers[h] == if h in s.subscribed then
                      s.handlers[h].(queue := Receives(s.handlers[h].queue, s.handlers[h].types, e))
                    else s.handlers[h]
  {
    hide Next, ExecFrom, Visits, Receives;
    var first := s.(published := s.published + [kind], lock := Publishing(order, false, {}, None));
    var steps := [Start(None, kind, order)] + Visits(known, order);
    StartAlone(s, kind, order);
    forall h | h in order
      ensures Unlocked(first, h)
    {
      assert h in set h | h in order;
      assert Unlocked(s, h);
    }
    ExecConcat(s, [Start(None, kind, order)], Visits(known, order));
    VisitAll(first, known, order);
    ExecSnoc(s, steps, End);
    EndAlone(ExecFrom(s, steps).value);
    assert s.subscribed * known == set h | h in order && h in known;
  }

  lemma StartAlone(s: State, kind: string, order: seq<nat>)
    requires s.lock.Free? && Distinct(order) && (set h | h in order) == s.subscribed
    ensures ExecFrom(s, [Start(None, kind, order)])
         == Some(s.(published := s.published + [kind], lock := Publishing(order, false, {}, None)))
  {
    ExecSnoc(s, [], Start(None, kind, order));
    assert [] + [Start(None, kind, order)] == [Start(None, kind, order)];
  }

  lemma EndAlone(s: State)
    requires s.lock.Publishing? && s.lock.remaining == [] && s.lock.caller == None
    ensures Next(s, End) == Some(s.(lock := Free))
  {
  }

  // ----- whether a publication can be finished -----

  /** The handlers whose types are still to be looked up. */
  function Unvisited(s: State): seq<nat>
    requires s.lock.Publishing? && (s.lock.found ==> s.lock.remaining != [])
  {
    if s.lock.found then s.lock.remaining[1..] else s.lock.remaining
  }

  /** A callback of the handler waits for the bus mutex, or publishes. */
  predicate HoldsUp(s: State, h: nat)
  {
    h in s.handlers && (s.handlers[h].call == Waits || s.handlers[h].call == Publishes)
  }

  ghost predicate HeldUp(s: State)
    requires LockInv(s) && s.lock.Publishing?
  {
    exists h :: h in Unvisited(s) && HoldsUp(s, h)
  }

  /** Some steps end the publication under way. */
  ghost predicate CanEnd(s: State)
  {
    exists actions: seq<Action> :: End !in actions && ExecFrom(s, actions + [End]).Some?
  }

  /** A handler that holds the publication up is not visited, and goes on doing so. */
  lemma HeldUpForever(s: State, a: Action, h: nat)
    requires LockInv(s) && s.lock.Publishing? && Next(s, a).Some?
    requires h in Unvisited(s) && HoldsUp(s, h)
    ensures !a.End?
    ensures var t := Next(s, a).value;
            LockInv(t) && t.lock.Publishing? && h in Unvisited(t) && HoldsUp(t, h)
  {
    LockKept(s, a);
    assert s.lock.remaining == [s.lock.remaining[0]] + s.lock.remaining[1..];
  }

  lemma {:induction false} NeverEnds(s: State, actions: seq<Action>, h: nat)
    requires LockInv(s) && s.lock.Publishing? && ExecFrom(s, actions).Some?
    requires h in Unvisited(s) && HoldsUp(s, h)
    ensures End !in actions
    ensures var t := ExecFrom(s, actions).value;
            LockInv(t) && t.lock.Publishing? && h in Unvisited(t) && HoldsUp(t, h)
  {
    hide Next, LockInv, HoldsUp;
    if actions != [] {
      var init, a := actions[..|actions| - 1], actions[|actions| - 1];
      assert actions == init + [a];
      NeverEnds(s, init, h);
      HeldUpForever(ExecFrom(s, init).value, a, h);
    }
  }

  /** The next step towards the end: a callback that is running finishes, or the publication
      goes on. */
  function NextStep(s: State): Action
    requires LockInv(s) && s.lock.Publishing? && s.lock.remaining != []
  {
    var h := s.lock.remaining[0];
    if s.lock.found then Deliver else if s.handlers[h].call == Running then Finish(h) else Look
  }

  /** How many steps may be left. */
  function StepsLeft(s: State): nat
    requires LockInv(s) && s.lock.Publishing?
  {
    if s.lock.remaining == [] then 0 else
      3 * |s.lock.remaining| - (if s.lock.found then 2 else if s.handlers[s.lock.remaining[0]].call == Running then 0 else 1)
  }

  lemma StepTaken(s: State)
    requires LockInv(s) && s.lock.Publishing? && s.lock.remaining != [] && !HeldUp(s)
    ensures Next(s, NextStep(s)).Some?
    ensures var t := Next(s, NextStep(s)).value;
            LockInv(t) && t.lock.Publishing? && !HeldUp(t) && StepsLeft(t) < StepsLeft(s)
  {
    var h, a := s.lock.remaining[0], NextStep(s);
    assert !s.lock.found ==> h in Unvisited(s);
    var t := Next(s, a).value;
    LockKept(s, a);
    forall g | g in Unvisited(t)
      ensures !HoldsUp(t, g)
    {
      assert g in Unvisited(s);
    }
  }

  lemma {:induction false} GoesToEnd(s: State) returns (actions: seq<Action>)
    requires LockInv(s) && s.lock.Publishing? && !HeldUp(s)
    ensures End !in actions && ExecFrom(s, actions + [End]).Some?
    decreases StepsLeft(s)
  {
    hide Next, LockInv, HeldUp, NextStep, StepsLeft;
    if s.lock.remaining == [] {
      actions := [];
      EndPossible(s);
      ExecSnoc(s, [], End);
    } else {
      StepTaken(s);
      var a := NextStep(s);
      var rest := GoesToEnd(Next(s, a).value);
      actions := [a] + rest;
      NotEnd(s);
      ExecSnoc(s, [], a);
      assert [] + [a] == [a] && actions + [End] == [a] + (rest + [End]);
      ExecConcat(s, [a], rest + [End]);
    }
  }

  lemma EndPossible(s: State)
    requires s.lock.Publishing? && s.lock.remaining == []
    ensures Next(s, End).Some?
  {
  }

  lemma NotEnd(s: State)
    requires LockInv(s) && s.lock.Publishing? && s.lock.remaining != []
    ensures NextStep(s) != End
  {
  }

  /** A publication under way can be finished exactly if no handler it has still to visit is held
      by a callback that waits for the bus mutex or publishes. */
  lemma EndsExactly(s: State)
    requires LockInv(s) && s.lock.Publishing?
    ensures CanEnd(s) <==> !HeldUp(s)
  {
    hide ExecFrom;
    if HeldUp(s) {
      var h :| h in Unvisited(s) && HoldsUp(s, h);
      forall actions: seq<Action> | ExecFrom(s, actions + [End]).Some?
        ensures false
      {
        assert (actions + [End])[|actions|] == End;
        NeverEnds(s, actions + [End], h);
      }
    } else {
      var actions := GoesToEnd(s);
    }
  }

  ghost predicate NobodyWaits(s: State)
  {
    forall h :: h in s.handlers ==> s.handlers[h].call == Outside || s.handlers[h].call == Running
  }

  /** In a run in which no callback takes the bus mutex, a publication under way can always be
      finished. */
  lemma {:induction false} RunCanEnd(actions: seq<Action>)
    requires Exec(actions).Some? && forall a :: a in actions ==> !a.Want?
    ensures var s := Exec(actions).value; LockInv(s) && NobodyWaits(s) && (s.lock.Publishing? ==> CanEnd(s))
  {
    RunKeepsOrder(actions);
    RunNobodyWaits(actions);
    var s := Exec(actions).value;
    if s.lock.Publishing? {
      EndsExactly(s);
    }
  }

  lemma {:induction false} RunNobodyWaits(actions: seq<Action>)
    requires Exec(actions).Some? && forall a :: a in actions ==> !a.Want?
    ensures NobodyWaits(Exec(actions).value)
  {
    if actions != [] {
      var before, a := actions[..|actions| - 1], actions[|actions| - 1];
      RunNobodyWaits(before);
      NobodyStarts(Exec(before).value, a);
    }
  }

  lemma NobodyStarts(s: State, a: Action)
    requires NobodyWaits(s) && Next(s, a).Some? && !a.Want?
    ensures NobodyWaits(Next(s, a).value)
  {
  }

  /** A callback that publishes while its own handler is subscribed never returns. */
  lemma OwnPublication(s: State, h: nat, kind: string, order: seq<nat>)
    requires LockInv(s) && h in s.subscribed && Next(s, Start(Some(h), kind, order)).Some?
    ensures var t := Next(s, Start(Some(h), kind, order)).value; LockInv(t) && t.lock.Publishing? && !CanEnd(t)
  {
    var t := Next(s, Start(Some(h), kind, order)).value;
    LockKept(s, Start(Some(h), kind, order));
    assert h in set g | g in order;
    assert h in Unvisited(t) && HoldsUp(t, h);
    EndsExactly(t);
  }

  /** So does one that waits for the bus mutex while somebody else publishes. */
  lemma OtherPublication(s: State, h: nat, kind: string, order: seq<nat>)
    requires LockInv(s) && h in s.subscribed && s.handlers[h].call == Waits
    requires Next(s, Start(None, kind, order)).Some?
    ensures var t := Next(s, Start(None, kind, order)).value; LockInv(t) && t.lock.Publishing? && !CanEnd(t)
  {
    var t := Next(s, Start(None, kind, order)).value;
    LockKept(s, Start(None, kind, order));
    assert h in set g | g in order;
    assert h in Unvisited(t) && HoldsUp(t, h);
    EndsExactly(t);
  }

  /** A run, its state, and one more action. */
  lemma OneMore(actions: seq<Action>, s: State, a: Action) returns (more: seq<Action>, t: State)
    requires Exec(actions) == Some(s) && Next(s, a).Some?
    ensures more == actions + [a] && Next(s, a) == Some(t) && Exec(more) == Some(t)
  {
    ExecSnoc(INITIAL, actions, a);
    more, t := actions + [a], Next(s, a).value;
  }

  /** One handler is there and subscribed, and in this state. */
  ghost predicate Alone(s: State, handler: Handler)
  {
    s.handlers.Keys == {1} && s.handlers[1] == handler && s.subscribed == {1}
  }

  lemma AloneSubscribed() returns (actions: seq<Action>, s: State)
    ensures Exec(actions) == Some(s) && Alone(s, Handler({"a"}, [], [], None, [], Outside))
    ensures s.published == [] && s.lock == Free
  {
    hide Exec;
    actions, s := [], INITIAL;
    assert Exec(actions) == Some(s) by {
      NothingDone();
    }
    actions, s := OneMore(actions, s, Create(1));
    assert s.handlers[1] == Handler({}, [], [], None, [], Outside);
    actions, s := OneMore(actions, s, On(1, "a"));
    assert s.handlers[1] == Handler({"a"}, [], [], None, [], Outside);
    actions, s := OneMore(actions, s, Subscribe(None, 1));
  }

  lemma NothingDone()
    ensures Exec([]) == Some(INITIAL)
  {
  }

  lemma AloneDelivered() returns (actions: seq<Action>, s: State)
    ensures Exec(actions) == Some(s) && Alone(s, Handler({"a"}, [Event(0, "a")], [], None, [], Outside))
    ensures s.published == ["a"] && s.lock == Free
  {
    hide Exec;
    actions, s := AloneSubscribed();
    assert (set h | h in [1]) == {1};
    actions, s := OneMore(actions, s, Start(None, "a", [1]));
    actions, s := OneMore(actions, s, Look);
    actions, s := OneMore(actions, s, Deliver);
    actions, s := OneMore(actions, s, End);
  }

  /** A run in which the only callback publishes the type it was called for, and what then never
      ends. */
  lemma CallbackPublishes() returns (actions: seq<Action>)
    ensures Exec(actions).Some? && Exec(actions).value.lock.Publishing? && !CanEnd(Exec(actions).value)
  {
    hide Exec, CanEnd;
    var s;
    actions, s := AloneDelivered();
    actions, s := OneMore(actions, s, Pop(1));
    actions, s := OneMore(actions, s, Dispatch(1));
    actions, s := OneMore(actions, s, Want(1));
    assert (set h | h in [1]) == {1};
    assert LockInv(s) by {
      RunKeepsOrder(actions);
    }
    OwnPublication(s, 1, "a", [1]);
    actions, s := OneMore(actions, s, Start(Some(1), "a", [1]));
  }
}
