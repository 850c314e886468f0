/** The queue between threads: tasks under a mutex, and an eventfd that wakes the reader. */
module ThreadQueue {

  /** The largest value an eventfd counter can hold; a write beyond it fails and is ignored. */
  const MAX_COUNT := 0xFFFF_FFFF_FFFF_FFFE

  function Flatten<T>(batches: seq<seq<T>>): (s: seq<T>) {
    if batches == [] then [] else Flatten(batches[..|batches| - 1]) + batches[|batches| - 1]
  }

  class Queue<T> {
    var queue: seq<T>
    var counter: nat
    ghost var sent: seq<T>
    ghost var received: seq<seq<T>>

    /** Nothing is lost, duplicated or reordered, and the descriptor is readable exactly
        while something is queued. */
    ghost predicate Valid()
      reads this
    {
      && sent == Flatten(received) + queue
      && counter == (if |queue| <= MAX_COUNT then |queue| else MAX_COUNT)
      && (counter > 0 <==> queue != [])
    }

    constructor ()
      ensures Valid() && queue == [] && sent == [] && received == []
    {
      queue, counter, sent, received := [], 0, [], [];
    }

    method Send(task: T)
      requires Valid()
      modifies this
      ensures Valid() && queue == old(queue) + [task] && sent == old(sent) + [task] && received == old(received)
    {
      queue := queue + [task];
      if counter < MAX_COUNT {
        counter := counter + 1;
      }
      sent := sent + [task];
    }

    /** Takes everything; reading an eventfd resets it to zero. */
    method Recv() returns (batch: seq<T>)
      requires Valid()
      modifies this
      ensures Valid() && batch == old(queue) && queue == [] && counter == 0
      ensures sent == old(sent) && received == old(received) + [batch]
    {
      counter := 0;
      batch, queue := queue, [];
      received := received + [batch];
      assert received[..|received| - 1] == old(received);
    }
  }

  /** `send_task`: every thread's queue gets the task once. */
  method SendTask<T>(queues: array<Queue<T>>, task: T)
    requires forall i, j | 0 <= i < j < queues.Length :: queues[i] != queues[j]
    requires forall i | 0 <= i < queues.Length :: queues[i].Valid()
    modifies queues[..]
    ensures forall i | 0 <= i < queues.Length ::
              queues[i].Valid() && queues[i].queue == old(queues[i].queue) + [task]
  {
    var i := 0;
    while i < queues.Length
      invariant 0 <= i <= queues.Length
      invariant forall k | 0 <= k < queues.Length :: queues[k].Valid()
      invariant forall k | 0 <= k < i :: queues[k].queue == old(queues[k].queue) + [task]
      invariant forall k | i <= k < queues.Length :: queues[k].queue == old(queues[k].queue)
    {
      queues[i].Send(task);
      i := i + 1;
    }
  }
}
