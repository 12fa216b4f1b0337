/**
 Collecting ids until a batch is full, and loading them together.
 */
module BatchLoader {
  import opened Results

  type Id = nat

  /** A batch that was loaded, and whether filling the buffer set it off. */
  datatype Batch = Batch(ids: seq<Id>, automatic: bool)

  /** The buffer, and the batches loaded so far. */
  datatype State = State(queue: seq<Id>, capacity: nat, loaded: seq<Batch>)

  datatype Op =
    | Queue(id: Id, grown: nat, loads: bool)   // `grown`: the capacity if the buffer was full
    | LoadRemaining(loads: bool)

  function Initial(batchSize: nat): State {
    State([], batchSize, [])
  }

  /** A buffer without room grows on a write, by as much as it likes. */
  predicate Enabled(s: State, op: Op) {
    op.Queue? && |s.queue| >= s.capacity ==> op.grown > |s.queue|
  }

  function Write(s: State, id: Id, grown: nat): State {
    s.(queue := s.queue + [id], capacity := if |s.queue| < s.capacity then s.capacity else grown)
  }

  /** The queue is cleared only after the load has succeeded. */
  function LoadQueued(s: State, automatic: bool, loads: bool): State {
    if loads then s.(queue := [], loaded := s.loaded + [Batch(s.queue, automatic)]) else s
  }

  function After(s: State, op: Op): State {
    match op
    case Queue(id, grown, loads) =>
      var w := Write(s, id, grown);
      if |w.queue| < w.capacity then w else LoadQueued(w, true, loads)
    case LoadRemaining(loads) =>
      if s.queue == [] then s else LoadQueued(s, false, loads)
  }

  // ----- The loader ------------------------------------------------------------------------------

  datatype LoadError = LoadFailed

  class Loader<TValue(0)> {
    var queue: seq<Id>
    var capacity: nat
    ghost var loaded: seq<Batch>
    /** What the loads gave, batch by batch, and how many loads failed. */
    ghost var results: seq<seq<TValue>>
    ghost var failures: nat

    ghost predicate Valid()
      reads this
    {
      |queue| <= capacity && capacity > 0 && |results| == |loaded|
    }

    /** The values of the batches loaded since there were `n`. */
    ghost function Since(n: nat): seq<TValue>
      requires n <= |results| <= n + 1
      reads this
    {
      if |results| == n then [] else results[n]
    }

    ghost function Now(): State
      reads this
    {
      State(queue, capacity, loaded)
    }

    /** The original throws unless the batch size is positive. */
    constructor (batchSize: nat)
      requires batchSize > 0
      ensures Valid() && Now() == Initial(batchSize)
    {
      queue, capacity, loaded, results, failures := [], batchSize, [], [], 0;
    }

    /** The derived class loads the ids, or fails. */
    method LoadBatch(ids: seq<Id>, ghost automatic: bool) returns (r: Result<seq<TValue>, LoadError>)
      modifies this`loaded, this`results, this`failures
      ensures r.Ok? ==>
        && loaded == old(loaded) + [Batch(ids, automatic)] && results == old(results) + [r.value]
        && failures == old(failures)
      ensures r.Err? ==> loaded == old(loaded) && results == old(results) && failures == old(failures) + 1
    {
      var ok: bool := *;
      var values: seq<TValue> := *;
      if ok {
        loaded, results := loaded + [Batch(ids, automatic)], results + [values];
        r := Ok(values);
      } else {
        failures := failures + 1;
        r := Err(LoadFailed);
      }
    }

    method LoadQueuedBatch(ghost automatic: bool) returns (r: Result<seq<TValue>, LoadError>)
      requires Valid()
      modifies this
      ensures Valid() && Now() == LoadQueued(old(Now()), automatic, r.Ok?)
      ensures failures == old(failures) + (if r.Err? then 1 else 0)
      ensures r.Ok? ==> results == old(results) + [r.value]
    {
      r := LoadBatch(queue, automatic);
      if r.Ok? {
        queue := [];
      }
    }

    /** Fails exactly when a load does; else it gives what was loaded, or nothing. */

    method QueueAndTryLoadBatch(id: Id) returns (r: Result<seq<TValue>, LoadError>)
      requires Valid()
      modifies this
      ensures Valid()
      ensures Enabled(old(Now()), Queue(id, capacity, r.Ok?)) && Now() == After(old(Now()), Queue(id, capacity, r.Ok?))
      ensures failures == old(failures) + (if r.Err? then 1 else 0)
      ensures |old(loaded)| <= |loaded| <= |old(loaded)| + 1
      ensures r.Ok? ==> r.value == Since(|old(loaded)|)
    {
      if |queue| >= capacity {
        var grown: nat :| grown > |queue|;
        capacity := grown;
      }
      queue := queue + [id];
      if capacity - |queue| > 0 {
        return Ok([]);
      }
      r := LoadQueuedBatch(true);
    }

    /** Fails exactly when a load does. After success the queue is empty, and the ids that
        were in it are the last loaded batch. */
    method LoadRemainingIds() returns (r: Result<seq<TValue>, LoadError>)
      requires Valid()
      modifies this
      ensures Valid() && Now() == After(old(Now()), LoadRemaining(r.Ok?))
      ensures failures == old(failures) + (if r.Err? then 1 else 0)
      ensures |old(loaded)| <= |loaded| <= |old(loaded)| + 1
      ensures r.Ok? ==> r.value == Since(|old(loaded)|)
      ensures r.Ok? ==>
        && queue == []
        && loaded == old(loaded) + (if old(queue) == [] then [] else [Batch(old(queue), false)])
    {
      if |queue| == 0 {
        return Ok([]);
      }
      r := LoadQueuedBatch(false);
    }
  }

  // ----- Whole sequences of calls -----------------------------------------------------------------

  predicate IsRun(s: State, ops: seq<Op>, s': State)
    decreases |ops|
  {
    if ops == [] then s == s' else Enabled(s, ops[0]) && IsRun(After(s, ops[0]), ops[1..], s')
  }

  function Queued(ops: seq<Op>): seq<Id> {
    if ops == [] then []
    else (if ops[0].Queue? then [ops[0].id] else []) + Queued(ops[1..])
  }

  function LoadedIds(loaded: seq<Batch>): seq<Id> {
    if loaded == [] then []
    else LoadedIds(loaded[..|loaded| - 1]) + loaded[|loaded| - 1].ids
  }

  function Taken(s: State): seq<Id> {
    LoadedIds(s.loaded) + s.queue
  }

  lemma StepConserves(s: State, op: Op)
    ensures Taken(After(s, op)) == Taken(s) + Queued([op])
  {
    assert Queued([op]) == (if op.Queue? then [op.id] else []) + Queued([op][1..]);
    var w := if op.Queue? then Write(s, op.id, op.grown) else s;
    assert (s.loaded + [Batch(w.queue, op.Queue?)])[..|s.loaded|] == s.loaded;
  }

  /** Nothing is lost, duplicated or reordered, whichever loads fail: the ids of the
      loaded batches followed by those still queued are the ids queued, in order. */
  lemma {:induction false} RunsConserve(s: State, ops: seq<Op>, s': State)
    requires IsRun(s, ops, s')
    ensures Taken(s') == Taken(s) + Queued(ops)
    decreases |ops|
  {
    if ops != [] {
      StepConserves(s, ops[0]);
      RunsConserve(After(s, ops[0]), ops[1..], s');
      assert Queued([ops[0]]) == (if ops[0].Queue? then [ops[0].id] else []) + Queued([ops[0]][1..]);
    }
  }

  /** After any calls, a call for the rest that succeeds leaves nothing queued: the ids of the
      loaded batches are all the ids queued, in order. */
  lemma RemainingAreLoaded(s: State, ops: seq<Op>, s': State)
    requires IsRun(s, ops, s')
    ensures var end := After(s', LoadRemaining(true));
      end.queue == [] && LoadedIds(end.loaded) == Taken(s) + Queued(ops)
  {
    RunsConserve(s, ops, s');
    var end := After(s', LoadRemaining(true));
    StepConserves(s', LoadRemaining(true));
    assert Queued([LoadRemaining(true)]) == [] + Queued([LoadRemaining(true)][1..]);
    assert Taken(end) == LoadedIds(end.loaded) + [];
  }

  /** The automatic load comes exactly when the id fills the buffer. */
  lemma LoadsExactlyWhenFull(s: State, id: Id, grown: nat)
    requires Enabled(s, Queue(id, grown, true)) && |s.queue| <= s.capacity
    ensures var s' := After(s, Queue(id, grown, true));
      if |s.queue| + 1 < s.capacity || (|s.queue| == s.capacity && |s.queue| + 1 < grown)
      then s'.queue == s.queue + [id] && s'.loaded == s.loaded
      else s'.queue == [] && s'.loaded == s.loaded + [Batch(s.queue + [id], true)]
  {
  }

  // ----- The size of automatic batches ---------------------------------------------------------------

  /** Some id is queued while the buffer is full, as a failed load may leave it. */
  predicate Outgrows(s: State, ops: seq<Op>)
    decreases |ops|
  {
    ops != [] && ((ops[0].Queue? && |s.queue| >= s.capacity) || Outgrows(After(s, ops[0]), ops[1..]))
  }

  /** Every batch set off by filling the buffer had the batch size. */
  predicate InStep(s: State, batchSize: nat) {
    && s.capacity == batchSize && |s.queue| <= batchSize
    && forall i :: 0 <= i < |s.loaded| && s.loaded[i].automatic ==> |s.loaded[i].ids| == batchSize
  }

  lemma {:induction false} CapacityGrows(s: State, ops: seq<Op>, s': State)
    requires |s.queue| <= s.capacity && IsRun(s, ops, s')
    ensures |s'.queue| <= s'.capacity && s.capacity <= s'.capacity
    ensures Outgrows(s, ops) ==> s.capacity < s'.capacity
    decreases |ops|
  {
    if ops != [] {
      CapacityGrows(After(s, ops[0]), ops[1..], s');
    }
  }

  /** The threshold is the batch size, and every automatic batch has exactly that size,
      if and only if no id is queued while the buffer is full. The documentation states
      the threshold without that condition. */
  lemma {:induction false} BatchSizeIsKeptExactlyWhen(s: State, ops: seq<Op>, s': State, batchSize: nat)
    requires InStep(s, batchSize) && IsRun(s, ops, s')
    ensures InStep(s', batchSize) <==> !Outgrows(s, ops)
    decreases |ops|
  {
    CapacityGrows(s, ops, s');
    if ops != [] && !Outgrows(s, ops) {
      BatchSizeIsKeptExactlyWhen(After(s, ops[0]), ops[1..], s', batchSize);
    }
  }

  /** Without failed loads that never happens. */
  lemma {:induction false} NoFailureNoGrowth(s: State, ops: seq<Op>, s': State)
    requires |s.queue| < s.capacity && IsRun(s, ops, s') && forall i :: 0 <= i < |ops| ==> ops[i].loads
    ensures !Outgrows(s, ops) && |s'.queue| < s'.capacity
    decreases |ops|
  {
    if ops != [] {
      assert ops[0].loads;
      assert forall i :: 0 <= i < |ops[1..]| ==> ops[1..][i] == ops[i + 1];
      NoFailureNoGrowth(After(s, ops[0]), ops[1..], s');
    }
  }

  /** One failed load is enough: the id queued next outgrows the buffer, and a queue longer
      than the batch size no longer sets off a load. */
  lemma FailedLoadRaisesTheThreshold(s: State, first: Id, second: Id, grown: nat)
    requires s.capacity == |s.queue| + 1 && grown > s.capacity + 1
    ensures var failed := After(s, Queue(first, 0, false)); var next := After(failed, Queue(second, grown, true));
      && Enabled(s, Queue(first, 0, false)) && Enabled(failed, Queue(second, grown, true))
      && next.loaded == s.loaded && |next.queue| > s.capacity
  {
  }
}
