/** All interleavings of submitters and worker threads of a pool that has been started and not
    yet shut down. Submitters hold the pool's mutex from the check of the counter until their
    task is queued; worker threads take no part in that. */
module ThreadPoolRuns {
  import opened Powers
  import opened SyncQueues
  import opened ThreadPools

  /** What a worker thread is doing: at the top of its loop, waiting for a task, with a task
      taken from the queue but not yet marked busy, running it, or done with it but not yet
      having counted it off. */
  datatype Phase = Top | Waiting | Taken(task: Task) | Running(task: Task) | Ran(task: Task)

  /** A worker, with all tasks ever queued and all tasks ever finished. */
  datatype WorkerState = WorkerState(phase: Phase, busy: bool, queue: seq<Task>, pushed: seq<Task>, done: seq<Task>)

  /** What the submitter that holds the mutex is doing: looking for an idle worker, having
      chosen one, or having counted its task but not yet queued it. A new worker is not listed
      in the pool until its task is queued. */
  datatype Submitter = Idle | Looking(task: Task, i: nat) | Chosen(task: Task, w: nat) | Counted(task: Task, w: nat)

  datatype State = State(workers: seq<WorkerState>, listed: nat, counter: int, submitter: Submitter,
                         next: Task, maxTasks: nat, expand: bool, hardware: nat)

  datatype Action = Submit | Look | Pick(w: nat) | NewWorker | Count | Push
                  | Wait(w: nat) | Take(w: nat) | Mark(w: nat) | Finish(w: nat) | CountOff(w: nat)

  const NEW_WORKER := WorkerState(Top, false, [], [], [])

  function Initial(workers: nat, maxTasks: nat, expand: bool, hardware: nat): State
  {
    State(seq(workers, _ => NEW_WORKER), workers, 0, Idle, 0, maxTasks, expand, hardware)
  }

  function Update(s: State, w: nat, worker: WorkerState): State
    requires w < |s.workers|
  {
    s.(workers := s.workers[w := worker])
  }

  /** The submitter has found no idle worker. */
  predicate NoneIdle(s: State)
  {
    s.submitter.Looking? && s.submitter.i == s.listed
  }

  predicate CanGrow(s: State)
  {
    MayGrow(s.listed, s.expand, s.hardware)
  }

  /** The size of the counter's type. */
  const WORD := 0x1_0000_0000_0000_0000

  /** The state after an action, if it is possible. A task gets its number when it is accepted. */
  function Next(s: State, a: Action): Option<State>
  {
    match a
    case Submit =>
      if s.submitter == Idle && s.counter <= s.maxTasks then Some(s.(submitter := Looking(s.next, 0), next := s.next + 1))
      else None
    case Look =>
      if s.submitter.Looking? && s.submitter.i < s.listed <= |s.workers| then
        if s.workers[s.submitter.i].busy then Some(s.(submitter := Looking(s.submitter.task, s.submitter.i + 1)))
        else Some(s.(submitter := Chosen(s.submitter.task, s.submitter.i)))
      else None
    case Pick(w) =>
      if NoneIdle(s) && !CanGrow(s) && w < s.listed then Some(s.(submitter := Chosen(s.submitter.task, w))) else None
    case NewWorker =>
      if NoneIdle(s) && CanGrow(s) then
        Some(s.(workers := s.workers + [NEW_WORKER], submitter := Chosen(s.submitter.task, |s.workers|)))
      else None
    case Count =>
      if s.submitter.Chosen? then
        Some(s.(counter := (s.counter + 1) % WORD, submitter := Counted(s.submitter.task, s.submitter.w)))
      else None
    case Push =>
      if s.submitter.Counted? && s.submitter.w < |s.workers| then
        var w, task := s.submitter.w, s.submitter.task;
        var worker := s.workers[w];
        Some(Update(s, w, worker.(queue := worker.queue + [task], pushed := worker.pushed + [task]))
             .(submitter := Idle, listed := |s.workers|))
      else None
    case Wait(w) =>
      if w < |s.workers| && s.workers[w].phase.Top? then
        Some(Update(s, w, s.workers[w].(phase := Waiting, busy := false)))
      else None
    case Take(w) =>
      if w < |s.workers| && s.workers[w].phase.Waiting? && s.workers[w].queue != [] then
        var worker := s.workers[w];
        Some(Update(s, w, worker.(phase := Taken(worker.queue[0]), queue := worker.queue[1..])))
      else None
    case Mark(w) =>
      if w < |s.workers| && s.workers[w].phase.Taken? then
        Some(Update(s, w, s.workers[w].(phase := Running(s.workers[w].phase.task), busy := true)))
      else None
    case Finish(w) =>
      if w < |s.workers| && s.workers[w].phase.Running? then
        Some(Update(s, w, s.workers[w].(phase := Ran(s.workers[w].phase.task))))
      else None
    case CountOff(w) =>
      if w < |s.workers| && s.workers[w].phase.Ran? then
        var worker := s.workers[w];
        Some(Update(s, w, worker.(phase := Top, done := worker.done + [worker.phase.task]))
             .(counter := (s.counter - 1) % WORD))
      else None
  }

  // ----- where the tasks are -----

  /** The task in a worker's hands. */
  function Hand(p: Phase): seq<Task>
  {
    if p.Taken? || p.Running? || p.Ran? then [p.task] else []
  }

  /** The worker has finished, holds, and still has in its queue what was pushed, in that order. */
  predicate Fifo(worker: WorkerState)
  {
    worker.pushed == worker.done + Hand(worker.phase) + worker.queue
  }

  /** The number of tasks a worker has not finished. */
  function Pending(worker: WorkerState): nat
  {
    |Hand(worker.phase)| + |worker.queue|
  }

  function AllPending(workers: seq<WorkerState>): nat
  {
    if workers == [] then 0 else AllPending(workers[..|workers| - 1]) + Pending(workers[|workers| - 1])
  }

  /** How often a task has been pushed to a worker, and to any worker. */
  function Copies(worker: WorkerState, t: Task): nat
  {
    multiset(worker.pushed)[t]
  }

  function AllCopies(workers: seq<WorkerState>, t: Task): nat
  {
    if workers == [] then 0 else AllCopies(workers[..|workers| - 1], t) + Copies(workers[|workers| - 1], t)
  }

  lemma {:induction false} PendingUpdate(workers: seq<WorkerState>, w: nat, worker: WorkerState)
    requires w < |workers|
    ensures AllPending(workers[w := worker]) + Pending(workers[w]) == AllPending(workers) + Pending(worker)
    ensures AllPending(workers) >= Pending(workers[w])
  {
    var last := |workers| - 1;
    if w < last {
      PendingUpdate(workers[..last], w, worker);
      assert workers[w := worker][..last] == workers[..last][w := worker];
    } else {
      assert workers[w := worker][..last] == workers[..last];
    }
  }

  lemma {:induction false} CopiesUpdate(workers: seq<WorkerState>, w: nat, worker: WorkerState, t: Task)
    requires w < |workers|
    ensures AllCopies(workers[w := worker], t) + Copies(workers[w], t) == AllCopies(workers, t) + Copies(worker, t)
    ensures AllCopies(workers, t) >= Copies(workers[w], t)
  {
    var last := |workers| - 1;
    if w < last {
      CopiesUpdate(workers[..last], w, worker, t);
      assert workers[w := worker][..last] == workers[..last][w := worker];
    } else {
      assert workers[w := worker][..last] == workers[..last];
    }
  }

  lemma NothingNew(workers: seq<WorkerState>, t: Task)
    ensures AllPending(workers + [NEW_WORKER]) == AllPending(workers)
    ensures AllCopies(workers + [NEW_WORKER], t) == AllCopies(workers, t)
  {
    assert (workers + [NEW_WORKER])[..|workers|] == workers;
  }

  // ----- what every run keeps -----

  /** The task the submitter holds: not counted, or counted and not yet queued. */
  function HeldCopies(u: Submitter, t: Task): nat
  {
    if !u.Idle? && u.task == t then 1 else 0
  }

  function Uncounted(u: Submitter): bool { u.Looking? || u.Chosen? }

  /** Every task given a number is held by the submitter or has been pushed once. */
  ghost predicate EachOnce(s: State)
  {
    forall t: Task :: AllCopies(s.workers, t) + HeldCopies(s.submitter, t) == (if t < s.next then 1 else 0)
  }

  ghost predicate AllFifo(workers: seq<WorkerState>)
  {
    forall w :: 0 <= w < |workers| ==> Fifo(workers[w])
  }

  /** The counter holds what has been counted and not been counted off. */
  ghost predicate CountedRight(s: State)
  {
    s.counter == AllPending(s.workers) + (if s.submitter.Counted? then 1 else 0)
  }

  /** The counter and the number of workers stay within their limits; at most one new worker is
      not listed, the one the submitter is about to queue its task at. */
  ghost predicate Bounded(s: State, initial: nat)
  {
    && 0 < initial && s.maxTasks + 1 < WORD && 0 <= s.counter <= s.maxTasks + 1
    && (Uncounted(s.submitter) ==> s.counter <= s.maxTasks)
    && (|s.workers| <= initial || |s.workers| <= s.hardware * 2) && 0 < s.listed
    && (if s.submitter.Chosen? || s.submitter.Counted? then
          s.listed <= |s.workers| <= s.listed + 1 && s.submitter.w < |s.workers|
        else s.listed == |s.workers|)
    && (s.submitter.Looking? ==> s.submitter.i <= s.listed)
  }

  ghost predicate Inv(s: State, initial: nat)
  {
    AllFifo(s.workers) && EachOnce(s) && CountedRight(s) && Bounded(s, initial)
  }

  lemma {:induction false} InitialPending(workers: seq<WorkerState>, t: Task)
    requires forall w :: 0 <= w < |workers| ==> workers[w] == NEW_WORKER
    ensures AllPending(workers) == 0 && AllCopies(workers, t) == 0
  {
    if workers != [] {
      InitialPending(workers[..|workers| - 1], t);
    }
  }

  lemma InitialInv(workers: nat, maxTasks: nat, expand: bool, hardware: nat)
    requires workers > 0 && maxTasks + 1 < WORD
    ensures Inv(Initial(workers, maxTasks, expand, hardware), workers)
  {
    var s := Initial(workers, maxTasks, expand, hardware);
    InitialPending(s.workers, 0);
    forall t: Task
      ensures AllCopies(s.workers, t) + HeldCopies(s.submitter, t) == (if t < s.next then 1 else 0)
    {
      InitialPending(s.workers, t);
    }
  }

  /** An action of one worker's thread keeps everything, if it keeps the worker's own record. */
  lemma WorkerKeeps(s: State, w: nat, worker: WorkerState, counter: int, initial: nat)
    requires Inv(s, initial) && w < |s.workers| && Fifo(worker) && worker.pushed == s.workers[w].pushed
    requires counter == s.counter - Pending(s.workers[w]) + Pending(worker) <= s.counter
    ensures Inv(Update(s, w, worker).(counter := counter), initial)
  {
    hide Fifo, Pending, AllPending, AllCopies;
    var t := Update(s, w, worker).(counter := counter);
    PendingUpdate(s.workers, w, worker);
    forall x: Task
      ensures AllCopies(t.workers, x) + HeldCopies(t.submitter, x) == (if x < t.next then 1 else 0)
    {
      CopiesUpdate(s.workers, w, worker, x);
      assert AllCopies(s.workers, x) + HeldCopies(s.submitter, x) == (if x < s.next then 1 else 0);
    }
  }

  /** Queueing a task moves it from the submitter to the worker. */
  lemma PushKeeps(s: State, initial: nat)
    requires Inv(s, initial) && Next(s, Push).Some?
    ensures Inv(Next(s, Push).value, initial)
  {
    hide AllPending, AllCopies;
    var t, w, task := Next(s, Push).value, s.submitter.w, s.submitter.task;
    var before, after := s.workers[w], t.workers[w];
    assert Fifo(before);
    assert after.pushed == after.done + Hand(after.phase) + after.queue;
    PendingUpdate(s.workers, w, after);
    forall x: Task
      ensures AllCopies(t.workers, x) + HeldCopies(t.submitter, x) == (if x < t.next then 1 else 0)
    {
      CopiesUpdate(s.workers, w, after, x);
      assert AllCopies(s.workers, x) + HeldCopies(s.submitter, x) == (if x < s.next then 1 else 0);
      assert Copies(after, x) == Copies(before, x) + (if x == task then 1 else 0);
    }
  }

  lemma NewWorkerKeeps(s: State, initial: nat)
    requires Inv(s, initial) && Next(s, NewWorker).Some?
    ensures Inv(Next(s, NewWorker).value, initial)
  {
    hide AllPending, AllCopies;
    var t := Next(s, NewWorker).value;
    NothingNew(s.workers, 0);
    forall x: Task
      ensures AllCopies(t.workers, x) + HeldCopies(t.submitter, x) == (if x < t.next then 1 else 0)
    {
      NothingNew(s.workers, x);
      assert AllCopies(s.workers, x) + HeldCopies(s.submitter, x) == (if x < s.next then 1 else 0);
    }
  }

  /** Accepting a task gives it a number that no other has. */
  lemma SubmitterKeeps(s: State, a: Action, initial: nat)
    requires Inv(s, initial) && Next(s, a).Some? && (a.Submit? || a.Look? || a.Pick? || a.Count?)
    ensures Inv(Next(s, a).value, initial)
  {
    hide AllPending, AllCopies, AllFifo;
    var t := Next(s, a).value;
    forall x: Task
      ensures AllCopies(t.workers, x) + HeldCopies(t.submitter, x) == (if x < t.next then 1 else 0)
    {
      assert AllCopies(s.workers, x) + HeldCopies(s.submitter, x) == (if x < s.next then 1 else 0);
    }
  }

  lemma NextKeeps(s: State, a: Action, initial: nat)
    requires Inv(s, initial) && Next(s, a).Some?
    ensures Inv(Next(s, a).value, initial)
  {
    hide Inv;
    match a
    case Push => PushKeeps(s, initial);
    case NewWorker => NewWorkerKeeps(s, initial);
    case Submit => SubmitterKeeps(s, a, initial);
    case Look => SubmitterKeeps(s, a, initial);
    case Pick(_) => SubmitterKeeps(s, a, initial);
    case Count => SubmitterKeeps(s, a, initial);
    case _ => ThreadKeeps(s, a, initial);
  }

  /** Every action of a worker's thread moves its front task on; counting off never wraps. */
  lemma ThreadKeeps(s: State, a: Action, initial: nat)
    requires Inv(s, initial) && Next(s, a).Some? && (a.Wait? || a.Take? || a.Mark? || a.Finish? || a.CountOff?)
    ensures Inv(Next(s, a).value, initial)
  {
    hide AllPending, AllCopies, EachOnce;
    var t, w := Next(s, a).value, a.w;
    var before, after := s.workers[w], t.workers[w];
    assert Fifo(before);
    if a.Take? {
      assert before.done + [] + before.queue == before.done + [before.queue[0]] + before.queue[1..];
    } else if a.CountOff? {
      assert before.done + [before.phase.task] + before.queue == after.done + [] + after.queue;
    }
    PendingUpdate(s.workers, w, after);
    WorkerKeeps(s, w, after, t.counter, initial);
  }

  /** The state of a pool after a run, if every action of it was possible. */
  function Exec(start: State, actions: seq<Action>): Option<State>
  {
    if actions == [] then Some(start) else
      var before := Exec(start, actions[..|actions| - 1]);
      if before.None? then None else Next(before.value, actions[|actions| - 1])
  }

  lemma {:induction false} RunKeeps(workers: nat, maxTasks: nat, expand: bool, hardware: nat, actions: seq<Action>)
    requires workers > 0 && maxTasks + 1 < WORD
    requires Exec(Initial(workers, maxTasks, expand, hardware), actions).Some?
    ensures Inv(Exec(Initial(workers, maxTasks, expand, hardware), actions).value, workers)
  {
    hide Inv, Next;
    if actions == [] {
      InitialInv(workers, maxTasks, expand, hardware);
    } else {
      var before := actions[..|actions| - 1];
      RunKeeps(workers, maxTasks, expand, hardware, before);
      NextKeeps(Exec(Initial(workers, maxTasks, expand, hardware), before).value, actions[|actions| - 1], workers);
    }
  }

  /** In every run the counter is the number of tasks being queued, queued and in hand, and
      never exceeds the maximum by more than one; the workers are never more than there were or
      than twice the hardware threads; and every worker finishes its tasks in the order in which
      they were queued. */
  lemma PoolLimits(workers: nat, maxTasks: nat, expand: bool, hardware: nat, actions: seq<Action>)
    requires workers > 0 && maxTasks + 1 < WORD
    requires Exec(Initial(workers, maxTasks, expand, hardware), actions).Some?
    ensures var s := Exec(Initial(workers, maxTasks, expand, hardware), actions).value;
            && s.counter == AllPending(s.workers) + (if s.submitter.Counted? then 1 else 0)
            && s.counter <= maxTasks + 1
            && (|s.workers| <= workers || |s.workers| <= 2 * hardware)
            && forall w :: 0 <= w < |s.workers| ==>
                 s.workers[w].done + Hand(s.workers[w].phase) + s.workers[w].queue == s.workers[w].pushed
  {
    RunKeeps(workers, maxTasks, expand, hardware, actions);
    RunConstants(Initial(workers, maxTasks, expand, hardware), actions);
  }

  lemma {:induction false} RunConstants(start: State, actions: seq<Action>)
    requires Exec(start, actions).Some?
    ensures var s := Exec(start, actions).value;
            s.maxTasks == start.maxTasks && s.hardware == start.hardware && s.expand == start.expand
  {
    if actions != [] {
      RunConstants(start, actions[..|actions| - 1]);
    }
  }

  /** In every run, a submitter that has looked at all workers and found none idle adds one exactly
      if the pool may expand and there are fewer than twice the hardware threads, and may pick any
      of them exactly if it adds none. */
  lemma GrowsExactly(workers: nat, maxTasks: nat, expand: bool, hardware: nat, actions: seq<Action>, w: nat)
    requires workers > 0 && maxTasks + 1 < WORD
    requires Exec(Initial(workers, maxTasks, expand, hardware), actions).Some?
    ensures var s := Exec(Initial(workers, maxTasks, expand, hardware), actions).value;
            && (Next(s, NewWorker).Some? ==> s.submitter == Looking(s.submitter.task, |s.workers|))
            && (s.submitter.Looking? && s.submitter.i == |s.workers| ==>
                  && (Next(s, NewWorker).Some? <==> expand && |s.workers| < 2 * hardware)
                  && (Next(s, Pick(w)).Some? <==> w < |s.workers| && !(expand && |s.workers| < 2 * hardware)))
  {
    RunKeeps(workers, maxTasks, expand, hardware, actions);
    RunConstants(Initial(workers, maxTasks, expand, hardware), actions);
  }

  ghost predicate BusyRight(worker: WorkerState)
  {
    worker.busy <==> worker.phase.Running? || worker.phase.Ran? || (worker.phase.Top? && worker.done != [])
  }

  lemma BusyKept(s: State, a: Action)
    requires Next(s, a).Some? && forall w :: 0 <= w < |s.workers| ==> BusyRight(s.workers[w])
    ensures var t := Next(s, a).value; forall w :: 0 <= w < |t.workers| ==> BusyRight(t.workers[w])
  {
  }

  /** In every run a worker is marked busy exactly while it runs a task or has not returned to its
      wait behind one. */
  lemma {:induction false} BusyExactly(workers: nat, maxTasks: nat, expand: bool, hardware: nat, actions: seq<Action>)
    requires Exec(Initial(workers, maxTasks, expand, hardware), actions).Some?
    ensures var s := Exec(Initial(workers, maxTasks, expand, hardware), actions).value;
            forall w :: 0 <= w < |s.workers| ==> BusyRight(s.workers[w])
  {
    if actions != [] {
      hide Next, BusyRight;
      BusyExactly(workers, maxTasks, expand, hardware, actions[..|actions| - 1]);
      BusyKept(Exec(Initial(workers, maxTasks, expand, hardware), actions[..|actions| - 1]).value, actions[|actions| - 1]);
    }
  }

  /** One turn of a worker's thread, from the top of its loop to the top, does what the method does:
      the front task is taken, run and counted off, and the worker is busy from then on. */
  lemma TurnUninterrupted(s: State, w: nat)
    requires w < |s.workers| && s.workers[w].phase == Top && s.workers[w].queue != [] && 0 < s.counter < WORD
    ensures var worker := s.workers[w];
            Exec(s, [Wait(w), Take(w), Mark(w), Finish(w), CountOff(w)])
            == Some(s.(counter := s.counter - 1,
                       workers := s.workers[w := WorkerState(Top, true, worker.queue[1..], worker.pushed,
                                                             worker.done + [worker.queue[0]])]))
  {
    hide Exec;
    Nothing(s);
    var actions, t := OneMore(s, [], s, Wait(w));
    actions, t := OneMore(s, actions, t, Take(w));
    actions, t := OneMore(s, actions, t, Mark(w));
    var worker, task := s.workers[w], s.workers[w].queue[0];
    assert t == Update(s, w, WorkerState(Running(task), true, worker.queue[1..], worker.pushed, worker.done));
    actions, t := OneMore(s, actions, t, Finish(w));
    CountDown(t);
    actions, t := OneMore(s, actions, t, CountOff(w));
    assert actions == [Wait(w), Take(w), Mark(w), Finish(w), CountOff(w)];
    assert t.workers == s.workers[w := t.workers[w]];
  }

  lemma Nothing(s: State)
    ensures Exec(s, []) == Some(s)
  {
  }

  lemma CountDown(s: State)
    requires 0 < s.counter < WORD
    ensures (s.counter - 1) % WORD == s.counter - 1
  {
    DivSmall(s.counter - 1, WORD);
  }

  /** A run, its state, and one more action. */
  lemma OneMore(start: State, actions: seq<Action>, s: State, a: Action) returns (more: seq<Action>, t: State)
    requires Exec(start, actions) == Some(s) && Next(s, a).Some?
    ensures more == actions + [a] && Next(s, a) == Some(t) && Exec(start, more) == Some(t)
  {
    ExecSnoc(start, actions, a);
    more, t := actions + [a], Next(s, a).value;
  }

  /** Where a task is: finished, in hand or in the queue of a worker. */
  function PlacesAt(worker: WorkerState, t: Task): nat
  {
    multiset(worker.done)[t] + multiset(Hand(worker.phase))[t] + multiset(worker.queue)[t]
  }

  lemma {:induction false} OneWorker(workers: seq<WorkerState>, t: Task) returns (w: nat)
    requires AllCopies(workers, t) == 1
    ensures w < |workers| && Copies(workers[w], t) == 1
    ensures forall v :: 0 <= v < |workers| && v != w ==> Copies(workers[v], t) == 0
  {
    var last := |workers| - 1;
    if Copies(workers[last], t) == 1 {
      w := last;
      NoWorker(workers[..last], t);
      forall v | 0 <= v < last
        ensures Copies(workers[v], t) == 0
      {
        assert workers[..last][v] == workers[v];
      }
    } else {
      w := OneWorker(workers[..last], t);
      forall v | 0 <= v < last && v != w
        ensures Copies(workers[v], t) == 0
      {
        assert workers[..last][v] == workers[v];
      }
    }
  }

  lemma {:induction false} NoWorker(workers: seq<WorkerState>, t: Task)
    requires AllCopies(workers, t) == 0
    ensures forall v :: 0 <= v < |workers| ==> Copies(workers[v], t) == 0
  {
    if workers != [] {
      NoWorker(workers[..|workers| - 1], t);
      forall v | 0 <= v < |workers| - 1
        ensures Copies(workers[v], t) == 0
      {
        assert workers[..|workers| - 1][v] == workers[v];
      }
    }
  }

  lemma PlacesOfCopies(worker: WorkerState, t: Task)
    requires Fifo(worker)
    ensures PlacesAt(worker, t) == Copies(worker, t)
  {
    assert multiset(worker.pushed) == multiset(worker.done) + multiset(Hand(worker.phase)) + multiset(worker.queue);
  }

  /** In every run an accepted task is in exactly one place: with the submitter, or once with
      exactly one worker. */
  lemma TaskInOnePlace(workers: nat, maxTasks: nat, expand: bool, hardware: nat, actions: seq<Action>, t: Task)
    requires workers > 0 && maxTasks + 1 < WORD
    requires Exec(Initial(workers, maxTasks, expand, hardware), actions).Some?
    requires t < Exec(Initial(workers, maxTasks, expand, hardware), actions).value.next
    ensures var s := Exec(Initial(workers, maxTasks, expand, hardware), actions).value;
            if !s.submitter.Idle? && s.submitter.task == t then
              forall w :: 0 <= w < |s.workers| ==> PlacesAt(s.workers[w], t) == 0
            else
              exists w :: 0 <= w < |s.workers| && PlacesAt(s.workers[w], t) == 1
                && forall v :: 0 <= v < |s.workers| && v != w ==> PlacesAt(s.workers[v], t) == 0
  {
    hide Next, Fifo;
    RunKeeps(workers, maxTasks, expand, hardware, actions);
    var s := Exec(Initial(workers, maxTasks, expand, hardware), actions).value;
    assert AllCopies(s.workers, t) + HeldCopies(s.submitter, t) == 1;
    forall w | 0 <= w < |s.workers|
      ensures PlacesAt(s.workers[w], t) == Copies(s.workers[w], t)
    {
      PlacesOfCopies(s.workers[w], t);
    }
    if !s.submitter.Idle? && s.submitter.task == t {
      NoWorker(s.workers, t);
    } else {
      var w := OneWorker(s.workers, t);
      assert PlacesAt(s.workers[w], t) == 1;
    }
  }

  // ----- a submission that nobody interrupts -----

  function SlotsOf(s: State): seq<Slot>
  {
    seq(|s.workers|, i requires 0 <= i < |s.workers| => Slot(s.workers[i].busy, s.workers[i].queue))
  }

  function Looks(n: nat): seq<Action>
  {
    if n == 0 then [] else Looks(n - 1) + [Look]
  }

  /** Finding the worker: the first idle one, or none and then a new one or the pick. */
  function FindSteps(s: State, pick: nat): seq<Action>
  {
    var slots := SlotsOf(s);
    var k := FirstIdle(slots, 0);
    if k < |slots| then [Submit] + Looks(k) + [Look]
    else [Submit] + Looks(k) + [if CanGrow(s) then NewWorker else Pick(pick)]
  }

  lemma ExecSnoc(start: State, actions: seq<Action>, a: Action)
    ensures Exec(start, actions + [a])
         == var before := Exec(start, actions); if before.None? then None else Next(before.value, a)
  {
    assert (actions + [a])[..|actions|] == actions;
  }

  /** Nobody holds the mutex, and the counter lets a task in. */
  ghost predicate Accepts(s: State)
  {
    s.submitter == Idle && s.listed == |s.workers| && 0 <= s.counter <= s.maxTasks < WORD - 1
  }

  lemma LookPast(t: State)
    requires t.submitter.Looking? && t.submitter.i < t.listed <= |t.workers| && t.workers[t.submitter.i].busy
    ensures Next(t, Look) == Some(t.(submitter := Looking(t.submitter.task, t.submitter.i + 1)))
  {
  }

  lemma BeforeIdle(s: State, j: nat)
    requires j < FirstIdle(SlotsOf(s), 0)
    ensures j < |s.workers| && s.workers[j].busy
  {
    assert SlotsOf(s)[j].busy;
  }

  lemma SubmitAlone(s: State)
    requires Accepts(s)
    ensures Exec(s, [Submit]) == Some(s.(submitter := Looking(s.next, 0), next := s.next + 1))
  {
    ExecSnoc(s, [], Submit);
    assert [] + [Submit] == [Submit];
  }

  lemma {:induction false} LooksPassBusy(s: State, n: nat)
    requires Accepts(s) && n <= FirstIdle(SlotsOf(s), 0)
    ensures Exec(s, [Submit] + Looks(n)) == Some(s.(submitter := Looking(s.next, n), next := s.next + 1))
  {
    hide Exec, Next, SlotsOf, FirstIdle;
    if n == 0 {
      SubmitAlone(s);
      assert [Submit] + Looks(0) == [Submit];
    } else {
      LooksPassBusy(s, n - 1);
      BeforeIdle(s, n - 1);
      LookPast(s.(submitter := Looking(s.next, n - 1), next := s.next + 1));
      ExecSnoc(s, [Submit] + Looks(n - 1), Look);
      assert [Submit] + Looks(n) == [Submit] + Looks(n - 1) + [Look];
    }
  }

  /** The worker found is the one the method picks; a new one is there, and not yet listed. */
  lemma Found(s: State, pick: nat)
    requires Accepts(s) && pick < s.listed
    ensures var w := Target(SlotsOf(s), s.expand, s.hardware, pick);
            && w <= |s.workers|
            && Exec(s, FindSteps(s, pick))
            == Some(s.(workers := if w < |s.workers| then s.workers else s.workers + [NEW_WORKER],
                       submitter := Chosen(s.next, w), next := s.next + 1))
  {
    hide Exec, Looks;
    var slots := SlotsOf(s);
    var k := FirstIdle(slots, 0);
    LooksPassBusy(s, k);
    TargetMeans(slots, s.expand, s.hardware, pick);
    ExecSnoc(s, [Submit] + Looks(k), if k < |slots| then Look else if CanGrow(s) then NewWorker else Pick(pick));
  }

  function Pushed(worker: WorkerState, task: Task): WorkerState
  {
    worker.(queue := worker.queue + [task], pushed := worker.pushed + [task])
  }

  lemma CountStep(t: State)
    requires t.submitter.Chosen? && 0 <= t.counter < WORD - 1
    ensures Next(t, Count) == Some(t.(counter := t.counter + 1, submitter := Counted(t.submitter.task, t.submitter.w)))
  {
    DivSmall(t.counter + 1, WORD);
  }

  lemma PushStep(t: State)
    requires t.submitter.Counted? && t.submitter.w < |t.workers|
    ensures Next(t, Push)
         == Some(t.(workers := t.workers[t.submitter.w := Pushed(t.workers[t.submitter.w], t.submitter.task)],
                    submitter := Idle, listed := |t.workers|))
  {
  }

  /** Counting and queueing the task. */
  lemma CountedAndPushed(s: State, actions: seq<Action>, t: State)
    requires Exec(s, actions) == Some(t) && t.submitter.Chosen? && t.submitter.w < |t.workers|
    requires 0 <= t.counter < WORD - 1
    ensures Exec(s, actions + [Count] + [Push])
         == Some(t.(workers := t.workers[t.submitter.w := Pushed(t.workers[t.submitter.w], t.submitter.task)],
                    submitter := Idle, listed := |t.workers|, counter := t.counter + 1))
  {
    hide Exec, Next, Pushed;
    ExecSnoc(s, actions, Count);
    ExecSnoc(s, actions + [Count], Push);
    CountStep(t);
    PushStep(Next(t, Count).value);
  }

  /** The slots of the workers after the task has been queued. */
  lemma SlotsPushed(s: State, t: State, w: nat, task: Task)
    requires w <= |s.workers|
    requires var grown := if w < |s.workers| then s.workers else s.workers + [NEW_WORKER];
             t.workers == grown[w := Pushed(grown[w], task)]
    ensures SlotsOf(t) == Submitted(SlotsOf(s), w, task)
  {
    var after := Submitted(SlotsOf(s), w, task);
    assert |SlotsOf(t)| == |after|;
    forall i | 0 <= i < |after|
      ensures SlotsOf(t)[i] == after[i]
    {
      assert SlotsOf(t)[i] == Slot(t.workers[i].busy, t.workers[i].queue);
    }
  }

  /** The steps of a submission that nobody interrupts do what the method does: the task is
      refused if more than the maximum is pending, and else counted and queued where the
      method queues it. */
  lemma Uninterrupted(s: State, pick: nat)
    requires s.submitter == Idle && s.listed == |s.workers| && 0 <= s.counter && s.maxTasks < WORD - 1 && pick < s.listed
    ensures s.counter > s.maxTasks ==> Next(s, Submit) == None
    ensures s.counter <= s.maxTasks ==>
              var w := Target(SlotsOf(s), s.expand, s.hardware, pick);
              var end := Exec(s, FindSteps(s, pick) + [Count] + [Push]);
              && w <= |s.workers| && end.Some? && SlotsOf(end.value) == Submitted(SlotsOf(s), w, s.next)
              && end.value.counter == s.counter + 1 && Accepted(s, end.value)
  {
    if s.counter <= s.maxTasks {
      hide Exec, SlotsOf, Target, FindSteps, Submitted, Pushed;
      Found(s, pick);
      var w := Target(SlotsOf(s), s.expand, s.hardware, pick);
      var t := Exec(s, FindSteps(s, pick)).value;
      CountedAndPushed(s, FindSteps(s, pick), t);
      SlotsPushed(s, Exec(s, FindSteps(s, pick) + [Count] + [Push]).value, w, s.next);
    }
  }

  /** The submission is over, and its worker is listed. */
  ghost predicate Accepted(s: State, t: State)
  {
    && t.submitter == Idle && t.listed == |t.workers| && t.next == s.next + 1
    && t.maxTasks == s.maxTasks && t.expand == s.expand && t.hardware == s.hardware
  }
}
