/** The thread pool: tasks go to an idle worker, to a new one, or to any one. */
module ThreadPools {
  import opened SyncQueues

  /** A task by its number. */
  type Task = nat

  // ----- where a submission goes -----

  /** What a submission sees of a worker. */
  datatype Slot = Slot(busy: bool, queue: seq<Task>)

  /** The first worker from i on that is not busy, or their number. */
  function FirstIdle(slots: seq<Slot>, i: nat): (k: nat)
    requires i <= |slots|
    ensures i <= k <= |slots| && (k < |slots| ==> !slots[k].busy)
    ensures forall j :: i <= j < k ==> slots[j].busy
    decreases |slots| - i
  {
    if i == |slots| || !slots[i].busy then i else FirstIdle(slots, i + 1)
  }

  predicate MayGrow(workers: nat, expand: bool, hardwareThreads: nat)
  {
    expand && workers + 1 <= hardwareThreads * 2
  }

  /** The first idle worker; else a new one behind the others, if the pool may grow; else the
      one picked. */
  function Target(slots: seq<Slot>, expand: bool, hardwareThreads: nat, pick: nat): nat
  {
    var k := FirstIdle(slots, 0);
    if k < |slots| || MayGrow(|slots|, expand, hardwareThreads) then k else pick
  }

  function Queued(slots: seq<Slot>, w: nat, task: Task): seq<Slot>
    requires w < |slots|
  {
    slots[w := slots[w].(queue := slots[w].queue + [task])]
  }

  /** Who that is: no worker before an idle one that is chosen is idle; there is a new one
      exactly if all are busy and the pool may grow; and only if it may not, it is the pick. */
  lemma TargetMeans(slots: seq<Slot>, expand: bool, hardwareThreads: nat, pick: nat)
    requires pick < |slots|
    ensures var w := Target(slots, expand, hardwareThreads, pick);
            && w <= |slots|
            && (w == |slots| <==> expand && |slots| + 1 <= 2 * hardwareThreads
                                  && forall i :: 0 <= i < |slots| ==> slots[i].busy)
            && (w < |slots| && slots[w].busy ==> w == pick && forall i :: 0 <= i < |slots| ==> slots[i].busy)
            && (w < |slots| && !slots[w].busy ==> forall i :: 0 <= i < w ==> slots[i].busy)
  {
    var k := FirstIdle(slots, 0);
  }

  /** The workers after a task has gone to one of them, or to a new one. */
  function Submitted(slots: seq<Slot>, w: nat, task: Task): seq<Slot>
    requires w <= |slots|
  {
    if w < |slots| then Queued(slots, w, task) else slots + [Slot(false, [task])]
  }

  class AtomicCounter {
    var value: nat

    constructor ()
      ensures value == 0
    {
      value := 0;
    }
  }

  class Worker {
    const tasks: SyncQueue<Task>
    const counter: AtomicCounter
    var busy: bool

    constructor (counter: AtomicCounter)
      ensures this.counter == counter && fresh(tasks) && tasks.queue == [] && !tasks.stopRequested && !busy
    {
      this.counter := counter;
      tasks := new SyncQueue();
      busy := false;
    }

    /** Counts a task, and then queues it. */
    method PushTask(task: Task)
      modifies counter, tasks
      ensures counter.value == old(counter.value) + 1
      ensures tasks.queue == old(tasks.queue) + [task] && tasks.stopRequested == old(tasks.stopRequested)
    {
      counter.value := counter.value + 1;
      tasks.Push(task);
    }

    /** One turn of the worker's thread, before a stop. */
    method RunNext() returns (ran: Task)
      requires tasks.queue != [] && !tasks.stopRequested && counter.value > 0
      modifies this, counter, tasks
      ensures [ran] + tasks.queue == old(tasks.queue) && counter.value == old(counter.value) - 1 && busy
    {
      busy := false;
      var task := tasks.Pop();
      busy := true;
      ran := task.value;
      counter.value := counter.value - 1;
    }
  }

  class ThreadPool {
    const counter: AtomicCounter
    var workers: seq<Worker>
    var started: bool
    var allowExpand: bool
    var maxTaskCount: nat

    constructor ()
      ensures !started && workers == [] && fresh(counter) && counter.value == 0
    {
      counter := new AtomicCounter();
      workers, started, allowExpand, maxTaskCount := [], false, true, 0;
    }

    ghost predicate Valid()
      reads this
    {
      && (started ==> workers != [])
      && (forall i :: 0 <= i < |workers| ==> workers[i].counter == counter)
      && (forall i, j :: 0 <= i < j < |workers| ==> workers[i].tasks != workers[j].tasks)
    }

    /** The workers as a submission sees them. */
    ghost function Slots(): (slots: seq<Slot>)
      reads this, set w | w in workers, set w | w in workers :: w.tasks
      ensures |slots| == |workers|
      ensures forall i :: 0 <= i < |slots| ==> slots[i] == Slot(workers[i].busy, workers[i].tasks.queue)
    {
      seq(|workers|, i requires 0 <= i < |workers|
                       reads this, set w | w in workers, set w | w in workers :: w.tasks =>
        Slot(workers[i].busy, workers[i].tasks.queue))
    }

    method Startup(threadCount: nat, maxTasks: nat, expand: bool)
      requires Valid() && (!started ==> workers == [])
      modifies this
      ensures Valid() && started
      ensures old(started) ==>
                workers == old(workers) && maxTaskCount == old(maxTaskCount) && allowExpand == old(allowExpand)
      ensures !old(started) ==>
                && |workers| == (if threadCount == 0 then 1 else threadCount)
                && maxTaskCount == (if maxTasks == 0 then 999 else maxTasks) && allowExpand == expand
                && forall i :: 0 <= i < |workers| ==> fresh(workers[i].tasks) && workers[i].tasks.queue == []
    {
      if started {
        return;
      }
      maxTaskCount := if maxTasks == 0 then 999 else maxTasks;
      allowExpand := expand;
      var createCount := if threadCount == 0 then 1 else threadCount;
      for i := 0 to createCount
        invariant |workers| == i && Valid() && !started && allowExpand == expand
        invariant maxTaskCount == if maxTasks == 0 then 999 else maxTasks
        invariant forall k :: 0 <= k < |workers| ==> fresh(workers[k].tasks) && workers[k].tasks.queue == []
      {
        var worker := new Worker(counter);
        workers := workers + [worker];
      }
      started := true;
    }

    /** Hands a task to a worker of the pool. */
    method PushTo(w: nat, task: Task)
      requires Valid() && w < |workers|
      modifies counter, workers[w].tasks
      ensures Valid() && counter.value == old(counter.value) + 1
      ensures Slots() == Queued(old(Slots()), w, task)
    {
      workers[w].PushTask(task);
    }

    /** Adds a worker behind the others, with a first task. */
    method Grow(task: Task)
      requires Valid()
      modifies this`workers, counter
      ensures Valid() && counter.value == old(counter.value) + 1 && old(workers) <= workers
      ensures Slots() == old(Slots()) + [Slot(false, [task])]
    {
      ghost var before := Slots();
      var worker := new Worker(counter);
      worker.PushTask(task);
      workers := workers + [worker];
      assert forall i :: 0 <= i < |before| ==> Slots()[i] == before[i];
      assert Slots()[|before|] == Slot(worker.busy, worker.tasks.queue);
      assert worker.tasks.queue == [task] && !worker.busy;
    }

    /** Accepts a task while at most the maximum is pending, and gives it to the first worker that
        is not busy; else to a new worker, while there are fewer than twice the hardware threads;
        else to the one picked at random. */
    method Submit(task: Task, hardwareThreads: nat, pick: nat) returns (ok: bool, ghost chosen: nat)
      requires Valid() && (started ==> pick < |workers|)
      modifies this`workers, counter, set w | w in workers :: w.tasks
      ensures ok == (started && old(counter.value) <= maxTaskCount)
      ensures counter.value == old(counter.value) + if ok then 1 else 0
      ensures old(workers) <= workers && (ok ==> Valid() && chosen <= |old(Slots())|)
      ensures ok ==> chosen == Target(old(Slots()), allowExpand, hardwareThreads, pick)
      ensures Slots() == if ok then Submitted(old(Slots()), chosen, task) else old(Slots())
    {
      chosen := 0;
      if !started {
        return false, chosen;
      }
      if counter.value > maxTaskCount {
        return false, chosen;
      }
      ok := true;
      var i := 0;
      while i < |workers|
        invariant 0 <= i <= |workers| && forall k :: 0 <= k < i ==> workers[k].busy
      {
        if !workers[i].busy {
          chosen := i;
          PushTo(i, task);
          return;
        }
        i := i + 1;
      }
      var maxThreadCount := hardwareThreads * 2;
      if !allowExpand || |workers| + 1 > maxThreadCount {
        chosen := pick;
        PushTo(pick, task);
      } else {
        chosen := |workers|;
        Grow(task);
      }
    }
  }
}
