/**
 The FIFO flexible semaphore: a count that may be entered by any amount while it
 is positive, a queue of waiters, and cancellation. Each locked section of the
 original is one atomic step here.
 */
module FifoSemaphore {
  import opened Results

  /** A waiting call, standing for its task completion source. */
  type Waiter = nat

  datatype TaskState = Pending | Completed | Canceled

  datatype Entry = Entry(increment: nat, waiter: Waiter)

  datatype SemaphoreError = ArgumentOutOfRange | BeyondMaximum

  datatype State = State(max: int, current: int, queue: seq<Entry>, tasks: map<Waiter, TaskState>)
  {
    predicate Waiting(w: Waiter) {
      w in tasks && tasks[w] == Pending
    }
  }

  datatype Entering = Entered | Queued

  // ----- What each step does to the state ---------------------------------------------

  function TryEntered(s: State, count: nat): State {
    if s.current <= 0 then s else s.(current := s.current - count)
  }

  function AfterEnter(s: State, count: nat, w: Waiter): State {
    if s.current > 0 then s.(current := s.current - count)
    else s.(queue := s.queue + [Entry(count, w)], tasks := s.tasks[w := Pending])
  }

  function AfterCancel(s: State, w: Waiter): State {
    if s.Waiting(w) then s.(tasks := s.tasks[w := Canceled]) else s
  }

  /** The dequeue loop: while the count is positive the head leaves the queue,
      and takes its increment unless it was cancelled. */
  function Drained(s: State): State
    decreases |s.queue|
  {
    if s.current > 0 && s.queue != [] then Drained(Dequeued(s)) else s
  }

  function Dequeued(s: State): State
    requires s.queue != []
  {
    var e := s.queue[0];
    if s.Waiting(e.waiter)
    then State(s.max, s.current - e.increment, s.queue[1..], s.tasks[e.waiter := Completed])
    else s.(queue := s.queue[1..])
  }

  /** The entries the dequeue loop grants, in order. */
  function Grants(s: State): seq<Entry>
    decreases |s.queue|
  {
    if s.current > 0 && s.queue != [] then
      (if s.Waiting(s.queue[0].waiter) then [s.queue[0]] else []) + Grants(Dequeued(s))
    else []
  }

  function Decreased(s: State, count: int): State {
    s.(current := s.current - count)
  }

  predicate ReleaseThrows(s: State, count: nat) {
    s.current + count > s.max
  }

  function AfterRelease(s: State, count: nat): State {
    if ReleaseThrows(s, count) then s else Drained(s.(current := s.current + count))
  }

  // ----- The class -----------------------------------------------------------------------

  class FifoFlexibleSemaphore {
    const MaximumCount: int
    var CurrentCount: int
    var waitingQueue: seq<Entry>
    var tasks: map<Waiter, TaskState>

    function Snapshot(): State
      reads this
    {
      State(MaximumCount, CurrentCount, waitingQueue, tasks)
    }

    constructor (maximumCount: int)
      requires maximumCount > 0
      ensures Snapshot() == State(maximumCount, maximumCount, [], map[])
    {
      MaximumCount := maximumCount;
      CurrentCount := maximumCount;
      waitingQueue := [];
      tasks := map[];
    }

    method TryEnter(count: int) returns (r: Result<bool, SemaphoreError>)
      modifies this
      ensures count < 0 ==> r == Err(ArgumentOutOfRange) && Snapshot() == old(Snapshot())
      ensures count >= 0 ==> r == Ok(old(CurrentCount) > 0) && Snapshot() == TryEntered(old(Snapshot()), count)
    {
      if count < 0 {
        return Err(ArgumentOutOfRange);
      }
      if CurrentCount <= 0 {
        return Ok(false);
      }
      CurrentCount := CurrentCount - count;
      return Ok(true);
    }

    /** The locked section of EnterAsync; `w` stands for the new task source. */
    method EnterAsync(count: int, w: Waiter) returns (r: Result<Entering, SemaphoreError>)
      modifies this
      ensures count < 0 ==> r == Err(ArgumentOutOfRange) && Snapshot() == old(Snapshot())
      ensures count >= 0 ==> Snapshot() == AfterEnter(old(Snapshot()), count, w)
      ensures count >= 0 ==> r == Ok(if old(CurrentCount) > 0 then Entered else Queued)
    {
      if count < 0 {
        return Err(ArgumentOutOfRange);
      }
      if CurrentCount > 0 {
        CurrentCount := CurrentCount - count;
        return Ok(Entered);
      }
      tasks := tasks[w := Pending];
      waitingQueue := waitingQueue + [Entry(count, w)];
      return Ok(Queued);
    }

    /** The cancellation callback. */
    method TrySetCanceled(w: Waiter)
      modifies this
      ensures Snapshot() == AfterCancel(old(Snapshot()), w)
    {
      if w in tasks && tasks[w] == Pending {
        tasks := tasks[w := Canceled];
      }
    }

    method DecreaseCount(count: int)
      modifies this
      ensures Snapshot() == Decreased(old(Snapshot()), count)
    {
      CurrentCount := CurrentCount - count;
    }

    method Release(count: int) returns (r: Result<(), SemaphoreError>)
      modifies this
      ensures count < 0 ==> r == Err(ArgumentOutOfRange) && Snapshot() == old(Snapshot())
      ensures count >= 0 ==> Snapshot() == AfterRelease(old(Snapshot()), count)
      ensures count >= 0 ==> r == if ReleaseThrows(old(Snapshot()), count) then Err(BeyondMaximum) else Ok(())
    {
      if count < 0 {
        return Err(ArgumentOutOfRange);
      }
      if CurrentCount + count > MaximumCount {
        return Err(BeyondMaximum);
      }
      CurrentCount := CurrentCount + count;
      ghost var start := Snapshot();
      while CurrentCount > 0 && waitingQueue != []
        invariant Drained(Snapshot()) == Drained(start)
        decreases |waitingQueue|
      {
        var entry := waitingQueue[0];
        waitingQueue := waitingQueue[1..];
        if entry.waiter in tasks && tasks[entry.waiter] == Pending {
          tasks := tasks[entry.waiter := Completed];
          CurrentCount := CurrentCount - entry.increment;
        }
      }
      return Ok(());
    }
  }
}
