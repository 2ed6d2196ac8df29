/** The queue that both protocols use. Every method runs under the queue's mutex. */
module SyncQueues {

  datatype Option<T> = None | Some(value: T)

  class SyncQueue<T> {
    var queue: seq<T>
    var stopRequested: bool

    constructor ()
      ensures queue == [] && !stopRequested
    {
      queue, stopRequested := [], false;
    }

    method Push(value: T)
      modifies this
      ensures queue == old(queue) + [value] && stopRequested == old(stopRequested)
    {
      queue := queue + [value];
    }

    /** Takes the front element, once there is one or a stop has been requested: the precondition
        is what the wait on the condition variable establishes. A stop wins over an element. */
    method Pop() returns (r: Option<T>)
      requires queue != [] || stopRequested
      modifies this
      ensures stopRequested == old(stopRequested)
      ensures stopRequested ==> r == None && queue == old(queue)
      ensures !stopRequested ==> r.Some? && [r.value] + queue == old(queue)
    {
      if stopRequested {
        return None;
      }
      r := Some(queue[0]);
      queue := queue[1..];
    }

    method Clear()
      modifies this
      ensures queue == [] && stopRequested == old(stopRequested)
    {
      while queue != []
        invariant stopRequested == old(stopRequested)
        decreases |queue|
      {
        queue := queue[1..];
      }
    }

    method Stop()
      modifies this
      ensures stopRequested && queue == old(queue)
    {
      stopRequested := true;
    }

    method Size() returns (n: nat)
      ensures n == |queue|
    {
      n := |queue|;
    }
  }
}
