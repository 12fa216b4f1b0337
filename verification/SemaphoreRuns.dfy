/**
 Whole runs of the semaphore: any interleaving of the atomic steps, with a
 ledger of what was granted, decreased and released.
 */
module SemaphoreRuns {
  import opened FifoSemaphore

  datatype Action =
    | TryEnter(count: nat)
    | Enter(count: nat, waiter: Waiter)
    | Cancel(waiter: Waiter)
    | Decrease(amount: int)
    | Release(count: nat)

  /** `arrivals` are the queued calls in order, `gone` those that left the queue,
      `served` those granted from it, in the order of their grants. */
  datatype World = World(sem: State, granted: int, decreased: int, released: int,
                         arrivals: seq<Waiter>, gone: seq<Waiter>, served: seq<Waiter>)
  {
    /** What clients hold, by the ledger. */
    function Held(): int {
      granted - released
    }
  }

  function Total(es: seq<Entry>): nat {
    if es == [] then 0 else es[0].increment + Total(es[1..])
  }

  function Waiters(es: seq<Entry>): seq<Waiter> {
    seq(|es|, i requires 0 <= i < |es| => es[i].waiter)
  }

  function Step(w: World, a: Action): World {
    var s := w.sem;
    match a
    case TryEnter(count) =>
      w.(sem := TryEntered(s, count), granted := w.granted + (if s.current > 0 then count else 0))
    case Enter(count, waiter) =>
      if s.current > 0 then w.(sem := AfterEnter(s, count, waiter), granted := w.granted + count)
      else w.(sem := AfterEnter(s, count, waiter), arrivals := w.arrivals + [waiter])
    case Cancel(waiter) => w.(sem := AfterCancel(s, waiter))
    case Decrease(amount) =>
      w.(sem := Decreased(s, amount), decreased := w.decreased + amount)
    case Release(count) =>
      if ReleaseThrows(s, count) then w else Settle(w.(released := w.released + count,
                                                       sem := s.(current := s.current + count)))
  }

  /** The dequeue loop with its ledger. */
  function Settle(w: World): World
    decreases |w.sem.queue|
  {
    if w.sem.current > 0 && w.sem.queue != [] then Settle(DequeueOne(w)) else w
  }

  function DequeueOne(w: World): World
    requires w.sem.queue != []
  {
    var e := w.sem.queue[0];
    var w' := w.(sem := Dequeued(w.sem), gone := w.gone + [e.waiter]);
    if w.sem.Waiting(e.waiter)
    then w'.(granted := w.granted + e.increment, served := w.served + [e.waiter])
    else w'
  }

  function Start(max: int): World {
    World(State(max, max, [], map[]), 0, 0, 0, [], [], [])
  }

  /** A queued call gets a task source of its own. */
  predicate Allowed(w: World, a: Action) {
    a.Enter? ==> a.waiter !in w.sem.tasks
  }

  predicate AllowedRun(w: World, run: seq<Action>)
    decreases |run|
  {
    run == [] || (Allowed(w, run[0]) && AllowedRun(Step(w, run[0]), run[1..]))
  }

  function Run(w: World, run: seq<Action>): World
    decreases |run|
  {
    if run == [] then w else Run(Step(w, run[0]), run[1..])
  }

  /** A negative decrease that lifts the count above zero past sleeping waiters. */
  predicate LiftsPastQueue(w: World, a: Action) {
    a.Decrease? && w.sem.queue != [] && w.sem.current - a.amount > 0
  }

  predicate NeverLiftsPastQueue(w: World, run: seq<Action>)
    decreases |run|
  {
    run == [] || (!LiftsPastQueue(w, run[0]) && NeverLiftsPastQueue(Step(w, run[0]), run[1..]))
  }

  // ----- The ledger and the queue, in every reachable state -------------------------------

  type Tasks = map<Waiter, TaskState>

  /** The completed waiters among `ws`, in order. */
  function CompletedOf(tasks: Tasks, ws: seq<Waiter>): seq<Waiter> {
    if ws == [] then []
    else
      var k := |ws| - 1;
      CompletedOf(tasks, ws[..k]) +
      (if ws[k] in tasks && tasks[ws[k]] == Completed then [ws[k]] else [])
  }

  predicate Distinct(ws: seq<Waiter>) {
    forall i, j :: 0 <= i < j < |ws| ==> ws[i] != ws[j]
  }

  function Members(ws: seq<Waiter>): set<Waiter> {
    set x | x in ws
  }

  /** Every count is accounted for: what left the semaphore was granted or taken
      away, and what came back was released. */
  predicate Balanced(w: World) {
    w.sem.max - w.sem.current == w.granted + w.decreased - w.released
  }

  /** Whoever left the queue is settled, whoever is in it has not been granted,
      and grants follow arrivals. */
  ghost predicate InLine(gone: seq<Waiter>, queue: seq<Waiter>, tasks: Tasks, served: seq<Waiter>) {
    && Distinct(gone + queue)
    && Members(gone + queue) == tasks.Keys
    && (forall i :: 0 <= i < |gone| ==> tasks[gone[i]] != Pending)
    && (forall i :: 0 <= i < |queue| ==> tasks[queue[i]] != Completed)
    && served == CompletedOf(tasks, gone)
  }

  ghost predicate Queueing(w: World) {
    && w.arrivals == w.gone + Waiters(w.sem.queue)
    && InLine(w.gone, Waiters(w.sem.queue), w.sem.tasks, w.served)
  }

  predicate NoOvertaking(w: World) {
    w.sem.queue != [] ==> w.sem.current <= 0
  }

  lemma {:induction false} CompletedOfUnchanged(tasks: Tasks, tasks': Tasks, ws: seq<Waiter>)
    requires forall i :: 0 <= i < |ws| ==> ws[i] in tasks && ws[i] in tasks' && tasks[ws[i]] == tasks'[ws[i]]
    ensures CompletedOf(tasks, ws) == CompletedOf(tasks', ws)
  {
    if ws != [] {
      CompletedOfUnchanged(tasks, tasks', ws[..|ws| - 1]);
    }
  }

  /** The head leaves the line settled. */
  lemma HeadLeaves(gone: seq<Waiter>, queue: seq<Waiter>, tasks: Tasks, served: seq<Waiter>,
                   tasks': Tasks, served': seq<Waiter>)
    requires InLine(gone, queue, tasks, served) && queue != []
    requires var x := queue[0]; var waiting := x in tasks && tasks[x] == Pending;
      && tasks' == (if waiting then tasks[x := Completed] else tasks)
      && served' == if waiting then served + [x] else served
    ensures InLine(gone + [queue[0]], queue[1..], tasks', served')
  {
    var x := queue[0];
    var gone' := gone + [x];
    assert gone' + queue[1..] == gone + queue;
    assert (gone + queue)[|gone|] == x && x in Members(gone + queue);
    forall i | 0 <= i < |gone| ensures gone[i] in tasks && gone[i] != x {
      assert (gone + queue)[i] == gone[i] && (gone + queue)[|gone|] == x;
      assert gone[i] in Members(gone + queue);
    }
    forall i | 0 <= i < |queue| - 1 ensures queue[1..][i] in tasks && queue[1..][i] != x {
      assert (gone + queue)[|gone| + 1 + i] == queue[1..][i] && (gone + queue)[|gone|] == x;
      assert queue[1..][i] in Members(gone + queue);
    }
    CompletedOfUnchanged(tasks, tasks', gone);
    assert gone'[..|gone|] == gone && gone'[|gone|] == x;
  }

  lemma Arrives(gone: seq<Waiter>, queue: seq<Waiter>, tasks: Tasks, served: seq<Waiter>, x: Waiter)
    requires InLine(gone, queue, tasks, served) && x !in tasks
    ensures InLine(gone, queue + [x], tasks[x := Pending], served)
  {
    assert gone + (queue + [x]) == (gone + queue) + [x];
    assert Members((gone + queue) + [x]) == Members(gone + queue) + {x};
    assert forall i :: 0 <= i < |gone + queue| ==> (gone + queue)[i] in Members(gone + queue);
    forall i | 0 <= i < |gone| ensures gone[i] in tasks {
      assert (gone + queue)[i] == gone[i] && gone[i] in Members(gone + queue);
    }
    forall i | 0 <= i < |queue| ensures queue[i] in tasks {
      assert (gone + queue)[|gone| + i] == queue[i] && queue[i] in Members(gone + queue);
    }
    CompletedOfUnchanged(tasks, tasks[x := Pending], gone);
  }

  lemma IsCanceled(gone: seq<Waiter>, queue: seq<Waiter>, tasks: Tasks, served: seq<Waiter>, x: Waiter)
    requires InLine(gone, queue, tasks, served) && x in tasks && tasks[x] == Pending
    ensures InLine(gone, queue, tasks[x := Canceled], served)
  {
    forall i | 0 <= i < |gone| ensures gone[i] in tasks && gone[i] != x {
      assert (gone + queue)[i] == gone[i] && gone[i] in Members(gone + queue);
    }
    forall i | 0 <= i < |queue| ensures queue[i] in tasks {
      assert (gone + queue)[|gone| + i] == queue[i] && queue[i] in Members(gone + queue);
    }
    CompletedOfUnchanged(tasks, tasks[x := Canceled], gone);
  }

  lemma DequeueKeepsOrder(w: World)
    requires Queueing(w) && w.sem.queue != []
    ensures Queueing(DequeueOne(w))
  {
    var q := Waiters(w.sem.queue);
    var x := w.sem.queue[0].waiter;
    assert q[0] == x;
    var w' := DequeueOne(w);
    DequeuedLine(w);
    HeadLeaves(w.gone, q, w.sem.tasks, w.served, w'.sem.tasks, w'.served);
    WaitersTail(w.sem.queue);
    HeadMoves(w.gone, q);
  }

  lemma HeadMoves(gone: seq<Waiter>, queue: seq<Waiter>)
    requires queue != []
    ensures gone + queue == (gone + [queue[0]]) + queue[1..]
  {
  }

  lemma DequeuedLine(w: World)
    requires w.sem.queue != []
    ensures var x := w.sem.queue[0].waiter; var w' := DequeueOne(w);
      && w'.arrivals == w.arrivals && w'.gone == w.gone + [x] && w'.sem.queue == w.sem.queue[1..]
      && (w.sem.Waiting(x) <==> x in w.sem.tasks && w.sem.tasks[x] == Pending)
      && w'.sem.tasks == (if w.sem.Waiting(x) then w.sem.tasks[x := Completed] else w.sem.tasks)
      && w'.served == if w.sem.Waiting(x) then w.served + [x] else w.served
  {
  }

  lemma WaitersTail(es: seq<Entry>)
    requires es != []
    ensures Waiters(es)[1..] == Waiters(es[1..])
  {
  }

  lemma DequeueKeepsBalance(w: World)
    requires Balanced(w) && w.sem.queue != []
    ensures Balanced(DequeueOne(w))
  {
  }

  lemma {:induction false} SettleKeeps(w: World)
    requires Balanced(w) && Queueing(w)
    ensures Balanced(Settle(w)) && Queueing(Settle(w)) && NoOvertaking(Settle(w))
    decreases |w.sem.queue|
  {
    if w.sem.current > 0 && w.sem.queue != [] {
      DequeueKeepsOrder(w);
      DequeueKeepsBalance(w);
      SettleKeeps(DequeueOne(w));
    }
  }

  lemma TotalCons(e: Entry, es: seq<Entry>)
    ensures Total([e] + es) == e.increment + Total(es)
  {
    assert ([e] + es)[1..] == es;
  }

  /** The ledger's dequeue loop is the semaphore's, and its books are the sum of
      the entries it granted. */
  lemma {:induction false} SettleFollowsDrained(w: World)
    ensures Settle(w).sem == Drained(w.sem)
    ensures Settle(w).granted == w.granted + Total(Grants(w.sem))
    decreases |w.sem.queue|
  {
    if w.sem.current > 0 && w.sem.queue != [] {
      var d := DequeueOne(w);
      SettleFollowsDrained(d);
      assert d.sem == Dequeued(w.sem);
      if w.sem.Waiting(w.sem.queue[0].waiter) {
        TotalCons(w.sem.queue[0], Grants(d.sem));
      } else {
        assert [] + Grants(d.sem) == Grants(d.sem);
      }
    }
  }

  lemma WaitersSnoc(es: seq<Entry>, e: Entry)
    ensures Waiters(es + [e]) == Waiters(es) + [e.waiter]
  {
  }

  lemma StepKeepsBooks(w: World, a: Action)
    requires Balanced(w) && Queueing(w) && Allowed(w, a)
    ensures Balanced(Step(w, a)) && Queueing(Step(w, a))
  {
    match a
    case TryEnter(count) =>
    case Enter(count, x) =>
      if w.sem.current <= 0 {
        Arrives(w.gone, Waiters(w.sem.queue), w.sem.tasks, w.served, x);
        WaitersSnoc(w.sem.queue, Entry(count, x));
      }
    case Cancel(x) =>
      if w.sem.Waiting(x) {
        IsCanceled(w.gone, Waiters(w.sem.queue), w.sem.tasks, w.served, x);
      }
    case Decrease(amount) =>
    case Release(count) => ReleaseKeepsBooks(w, count);
  }

  lemma ReleaseKeepsBooks(w: World, count: nat)
    requires Balanced(w) && Queueing(w)
    ensures Balanced(Step(w, Release(count))) && Queueing(Step(w, Release(count)))
    ensures NoOvertaking(w) ==> NoOvertaking(Step(w, Release(count)))
  {
    if !ReleaseThrows(w.sem, count) {
      var v := w.(released := w.released + count, sem := w.sem.(current := w.sem.current + count));
      assert Balanced(v) && Queueing(v);
      SettleKeeps(v);
    }
  }

  /** A step keeps waiters from being overtaken exactly when it does not lift the
      count past them, which only a negative decrease can do. */
  lemma StepKeepsOrderExactlyWhen(w: World, a: Action)
    requires Balanced(w) && Queueing(w) && Allowed(w, a) && NoOvertaking(w)
    ensures NoOvertaking(Step(w, a)) <==> !LiftsPastQueue(w, a)
  {
    if a.Release? {
      ReleaseKeepsBooks(w, a.count);
    }
  }

  /** In every reachable state the counts balance and no entry overtakes the
      queue, whatever the interleaving and whoever was cancelled. */
  lemma {:induction false} ReachableInvariant(w: World, run: seq<Action>)
    requires Balanced(w) && Queueing(w) && NoOvertaking(w)
    requires AllowedRun(w, run) && NeverLiftsPastQueue(w, run)
    ensures Balanced(Run(w, run)) && Queueing(Run(w, run)) && NoOvertaking(Run(w, run))
    decreases |run|
  {
    if run != [] {
      StepKeepsBooks(w, run[0]);
      StepKeepsOrderExactlyWhen(w, run[0]);
      ReachableInvariant(Step(w, run[0]), run[1..]);
    }
  }

  /** Each step changes the semaphore as the class does. */
  lemma StepFollowsTheSemaphore(w: World, a: Action)
    ensures match a
      case TryEnter(count) => Step(w, a).sem == TryEntered(w.sem, count)
      case Enter(count, x) => Step(w, a).sem == AfterEnter(w.sem, count, x)
      case Cancel(x) => Step(w, a).sem == AfterCancel(w.sem, x)
      case Decrease(amount) => Step(w, a).sem == Decreased(w.sem, amount)
      case Release(count) => Step(w, a).sem == AfterRelease(w.sem, count)
  {
    if a.Release? && !ReleaseThrows(w.sem, a.count) {
      SettleFollowsDrained(w.(released := w.released + a.count, sem := w.sem.(current := w.sem.current + a.count)));
    }
  }

  // ----- What the invariant gives ----------------------------------------------------------

  lemma StartIsInOrder(max: int)
    requires max > 0
    ensures Balanced(Start(max)) && Queueing(Start(max)) && NoOvertaking(Start(max))
  {
    assert Members([]) == {};
  }

  /** While anybody is queued, new calls fail or queue up behind. */
  lemma QueueBlocksEntry(max: int, run: seq<Action>, count: nat, x: Waiter)
    requires max > 0 && AllowedRun(Start(max), run) && NeverLiftsPastQueue(Start(max), run)
    requires Run(Start(max), run).sem.queue != []
    ensures
      var s := Run(Start(max), run).sem;
      && TryEntered(s, count) == s
      && AfterEnter(s, count, x).queue == s.queue + [Entry(count, x)]
  {
    StartIsInOrder(max);
    ReachableInvariant(Start(max), run);
  }

  lemma {:induction false} CompletedOfConcat(tasks: Tasks, a: seq<Waiter>, b: seq<Waiter>)
    requires forall i :: 0 <= i < |b| ==> b[i] in tasks && tasks[b[i]] != Completed
    ensures CompletedOf(tasks, a + b) == CompletedOf(tasks, a)
  {
    if b == [] {
      assert a + b == a;
    } else {
      var k := |b| - 1;
      assert (a + b)[..|a + b| - 1] == a + b[..k];
      CompletedOfConcat(tasks, a, b[..k]);
    }
  }

  lemma EverybodyHasATask(w: World, i: nat)
    requires Queueing(w) && i < |w.arrivals|
    ensures w.arrivals[i] in w.sem.tasks
  {
    assert w.arrivals[i] in Members(w.gone + Waiters(w.sem.queue));
  }

  /** Grants from the queue are exactly the completed arrivals in arrival order,
      and nobody was granted past a call that is still waiting. */
  lemma QueuedGrantsAreFifo(max: int, run: seq<Action>, i: nat, j: nat)
    requires max > 0 && AllowedRun(Start(max), run) && NeverLiftsPastQueue(Start(max), run)
    ensures var w := Run(Start(max), run); w.served == CompletedOf(w.sem.tasks, w.arrivals)
    ensures
      var w := Run(Start(max), run);
      i < j < |w.arrivals| ==>
        && w.arrivals[i] in w.sem.tasks && w.arrivals[j] in w.sem.tasks
        && (w.sem.tasks[w.arrivals[j]] == Completed ==> w.sem.tasks[w.arrivals[i]] != Pending)
  {
    StartIsInOrder(max);
    ReachableInvariant(Start(max), run);
    var w := Run(Start(max), run);
    var q := Waiters(w.sem.queue);
    forall k | 0 <= k < |q| ensures q[k] in w.sem.tasks {
      EverybodyHasATask(w, |w.gone| + k);
    }
    CompletedOfConcat(w.sem.tasks, w.gone, q);
    if i < j < |w.arrivals| {
      EverybodyHasATask(w, i);
      EverybodyHasATask(w, j);
      if j >= |w.gone| {
        assert w.arrivals[j] == q[j - |w.gone|];
      } else {
        assert w.arrivals[i] == w.gone[i];
      }
    }
  }

  /** A release throws exactly when it returns more than is outstanding, so a
      client that releases only what it holds never sees the exception; and once
      nothing is outstanding nobody is queued. */
  lemma ReleaseThrowsExactlyWhenTooMuch(max: int, run: seq<Action>, count: nat)
    requires max > 0 && AllowedRun(Start(max), run) && NeverLiftsPastQueue(Start(max), run)
    ensures
      var w := Run(Start(max), run);
      && (ReleaseThrows(w.sem, count) <==> count > w.granted + w.decreased - w.released)
      && (w.granted + w.decreased == w.released ==> w.sem.queue == [])
  {
    StartIsInOrder(max);
    ReachableInvariant(Start(max), run);
    MaxIsFixed(Start(max), run);
  }

  lemma {:induction false} SettleKeepsMax(w: World)
    ensures Settle(w).sem.max == w.sem.max
    decreases |w.sem.queue|
  {
    if w.sem.current > 0 && w.sem.queue != [] {
      SettleKeepsMax(DequeueOne(w));
    }
  }

  lemma {:induction false} MaxIsFixed(w: World, run: seq<Action>)
    ensures Run(w, run).sem.max == w.sem.max
    decreases |run|
  {
    if run != [] {
      var a := run[0];
      if a.Release? && !ReleaseThrows(w.sem, a.count) {
        SettleKeepsMax(w.(released := w.released + a.count, sem := w.sem.(current := w.sem.current + a.count)));
      }
      MaxIsFixed(Step(w, a), run[1..]);
    }
  }

  // ----- How far the count can overshoot -----------------------------------------------------

  /** No request is larger than `limit` and no decrease is negative. */
  predicate Modest(a: Action, limit: nat) {
    match a
    case TryEnter(count) => count <= limit
    case Enter(count, _) => count <= limit
    case Decrease(amount) => amount >= 0
    case _ => true
  }

  predicate Within(w: World, limit: nat) {
    && w.decreased >= 0
    && w.sem.current + w.decreased + limit > 0
    && forall i :: 0 <= i < |w.sem.queue| ==> w.sem.queue[i].increment <= limit
  }

  lemma {:induction false} SettleStaysWithin(w: World, limit: nat)
    requires Within(w, limit)
    ensures Within(Settle(w), limit)
    decreases |w.sem.queue|
  {
    if w.sem.current > 0 && w.sem.queue != [] {
      SettleStaysWithin(DequeueOne(w), limit);
    }
  }

  lemma StepStaysWithin(w: World, a: Action, limit: nat)
    requires Within(w, limit) && Modest(a, limit)
    ensures Within(Step(w, a), limit)
  {
    if a.Release? && !ReleaseThrows(w.sem, a.count) {
      SettleStaysWithin(w.(released := w.released + a.count, sem := w.sem.(current := w.sem.current + a.count)), limit);
    }
  }

  lemma {:induction false} RunStaysWithin(w: World, run: seq<Action>, limit: nat)
    requires Within(w, limit) && forall i :: 0 <= i < |run| ==> Modest(run[i], limit)
    ensures Within(Run(w, run), limit)
    decreases |run|
  {
    if run != [] {
      StepStaysWithin(w, run[0], limit);
      RunStaysWithin(Step(w, run[0]), run[1..], limit);
    }
  }

  /** What is held stays below the maximum plus the largest single request, also
      when clients decrease the count. */
  lemma HeldIsBounded(max: int, run: seq<Action>, limit: nat)
    requires max > 0 && AllowedRun(Start(max), run)
    requires forall i :: 0 <= i < |run| ==> Modest(run[i], limit)
    ensures Run(Start(max), run).Held() < max + limit
  {
    StartIsInOrder(max);
    QueueingIsReached(Start(max), run);
    MaxIsFixed(Start(max), run);
    RunStaysWithin(Start(max), run, limit);
  }

  // ----- How a call ends --------------------------------------------------------------------------

  datatype EnterOutcome = Returns | Throws | StillWaiting

  /** How a queued EnterAsync ends. It looks at its token once its cancellation callback is
      registered. If it `found` the token cancelled, it waits until the callback is over
      or unregistered, and returns; else it awaits its task. `task` is the state of the
      task when the call ends, which may be later than the look. */
  function EnterEnds(found: bool, task: TaskState): EnterOutcome {
    if found then Returns
    else match task
      case Completed => Returns
      case Canceled => Throws
      case Pending => StillWaiting
  }

  lemma {:induction false} QueueingIsReached(w: World, run: seq<Action>)
    requires Balanced(w) && Queueing(w) && AllowedRun(w, run)
    ensures Balanced(Run(w, run)) && Queueing(Run(w, run))
    decreases |run|
  {
    if run != [] {
      StepKeepsBooks(w, run[0]);
      QueueingIsReached(Step(w, run[0]), run[1..]);
    }
  }

  lemma ServedExactlyWhenCompleted(w: World, x: Waiter)
    requires Queueing(w) && x in w.sem.tasks
    ensures x in w.served <==> w.sem.tasks[x] == Completed
  {
    var q := Waiters(w.sem.queue);
    CompletedAre(w.sem.tasks, w.gone, x);
    assert x in Members(w.gone + q);
    var i :| 0 <= i < |w.gone + q| && (w.gone + q)[i] == x;
    if i < |w.gone| {
      assert w.gone[i] == x;
    } else {
      assert q[i - |w.gone|] == x;
    }
  }

  lemma {:induction false} CompletedAre(tasks: Tasks, ws: seq<Waiter>, x: Waiter)
    ensures x in CompletedOf(tasks, ws) <==> x in ws && x in tasks && tasks[x] == Completed
  {
    if ws != [] {
      var k := |ws| - 1;
      CompletedAre(tasks, ws[..k], x);
      assert ws == ws[..k] + [ws[k]];
    }
  }

  lemma {:induction false} SettleKeepsTasks(w: World)
    ensures w.sem.tasks.Keys <= Settle(w).sem.tasks.Keys
    decreases |w.sem.queue|
  {
    if w.sem.current > 0 && w.sem.queue != [] {
      SettleKeepsTasks(DequeueOne(w));
    }
  }

  lemma {:induction false} TasksStay(w: World, run: seq<Action>)
    ensures w.sem.tasks.Keys <= Run(w, run).sem.tasks.Keys
    decreases |run|
  {
    if run != [] {
      var a := run[0];
      if a.Release? && !ReleaseThrows(w.sem, a.count) {
        SettleKeepsTasks(w.(released := w.released + a.count, sem := w.sem.(current := w.sem.current + a.count)));
      }
      TasksStay(Step(w, a), run[1..]);
    }
  }

  /** Returning is not holding, in any reachable state. A call that finds the count
      positive holds its amount and has no task, whatever its token. A call that was
      queued looks at its token after any steps `beforeLook`, and ends after any further
      steps `beforeEnd`: it returns without a grant if and only if it found the token
      cancelled and its task is not completed when it returns. */
  lemma ReturnsWithoutGrantExactlyWhen(max: int, run: seq<Action>, count: nat, x: Waiter, beforeLook: seq<Action>,
      found: bool, beforeEnd: seq<Action>)
    requires max > 0 && AllowedRun(Start(max), run)
    requires var w := Run(Start(max), run);
      && Allowed(w, Enter(count, x)) && AllowedRun(Step(w, Enter(count, x)), beforeLook)
      && AllowedRun(Run(Step(w, Enter(count, x)), beforeLook), beforeEnd)
    ensures
      var w := Run(Start(max), run);
      var entered := Step(w, Enter(count, x));
      var v := Run(Run(entered, beforeLook), beforeEnd);
      if w.sem.current > 0 then
        entered.granted == w.granted + count && x !in entered.sem.tasks
      else
        && entered.granted == w.granted && x in v.sem.tasks
        && (x in v.served <==> v.sem.tasks[x] == Completed)
        && (EnterEnds(found, v.sem.tasks[x]) == Returns && x !in v.served <==>
              found && v.sem.tasks[x] != Completed)
        && (EnterEnds(found, v.sem.tasks[x]) == Throws <==> !found && v.sem.tasks[x] == Canceled)
        && (EnterEnds(found, v.sem.tasks[x]) == StillWaiting <==> !found && v.sem.tasks[x] == Pending)
  {
    var w := Run(Start(max), run);
    var entered := Step(w, Enter(count, x));
    StartIsInOrder(max);
    QueueingIsReached(Start(max), run);
    if w.sem.current <= 0 {
      StepKeepsBooks(w, Enter(count, x));
      QueueingIsReached(entered, beforeLook);
      QueueingIsReached(Run(entered, beforeLook), beforeEnd);
      TasksStay(entered, beforeLook);
      TasksStay(Run(entered, beforeLook), beforeEnd);
      assert x in entered.sem.tasks.Keys;
      ServedExactlyWhenCompleted(Run(Run(entered, beforeLook), beforeEnd), x);
    }
  }

  // ----- Grants to calls that have returned ---------------------------------------------------

  /** The dequeue loop only completes tasks, and shortens a queue it finds open. */
  lemma {:induction false} SettleCompletes(w: World, x: Waiter)
    requires x in w.sem.tasks
    ensures x in Settle(w).sem.tasks
    ensures Settle(w).sem.tasks[x] == w.sem.tasks[x] || (w.sem.Waiting(x) && Settle(w).sem.tasks[x] == Completed)
    ensures |Settle(w).sem.queue| <= |w.sem.queue|
    ensures w.sem.current > 0 && w.sem.queue != [] ==> |Settle(w).sem.queue| < |w.sem.queue|
    decreases |w.sem.queue|
  {
    if w.sem.current > 0 && w.sem.queue != [] {
      SettleCompletes(DequeueOne(w), x);
    }
  }

  lemma {:induction false} CanceledStays(w: World, run: seq<Action>, x: Waiter)
    requires AllowedRun(w, run) && x in w.sem.tasks && w.sem.tasks[x] == Canceled
    ensures var v := Run(w, run); x in v.sem.tasks && v.sem.tasks[x] == Canceled
    decreases |run|
  {
    if run != [] {
      var a := run[0];
      if a.Release? && !ReleaseThrows(w.sem, a.count) {
        SettleCompletes(w.(released := w.released + a.count, sem := w.sem.(current := w.sem.current + a.count)), x);
      }
      CanceledStays(Step(w, a), run[1..], x);
    }
  }

  predicate OnlyEntersAndReleases(run: seq<Action>) {
    forall i :: 0 <= i < |run| ==> run[i].TryEnter? || run[i].Release?
  }

  /** What a negative decrease added beyond the maximum, and what is missing to it. */
  function Excess(s: State): nat {
    if s.current > s.max then s.current - s.max else 0
  }

  function Missing(s: State): nat {
    if s.current > s.max then 0 else s.max - s.current
  }

  /** Everything outstanding comes back, after any excess is taken. */
  function ReleaseAll(s: State): seq<Action> {
    [TryEnter(Excess(s)), Release(Missing(s))]
  }

  lemma ReleaseAllIsARun(w: World, rest: seq<Action>)
    requires AllowedRun(Step(Step(w, TryEnter(Excess(w.sem))), Release(Missing(w.sem))), rest)
    ensures var run := ReleaseAll(w.sem) + rest;
      && AllowedRun(w, run)
      && Run(w, run) == Run(Step(Step(w, TryEnter(Excess(w.sem))), Release(Missing(w.sem))), rest)
  {
    var run := ReleaseAll(w.sem) + rest;
    assert run[1..] == [Release(Missing(w.sem))] + rest && run[1..][1..] == rest;
  }

  /** From `w` to `w'` the queue has moved on, and `x` is waiting or granted. */
  ghost predicate MovesOn(w: World, w': World, x: Waiter) {
    && Balanced(w') && Queueing(w') && w'.sem.max == w.sem.max && |w'.sem.queue| < |w.sem.queue|
    && x in w'.sem.tasks && (w'.sem.tasks[x] == Pending || w'.sem.tasks[x] == Completed)
  }

  /** A release up to the maximum lets at least the head go. */
  lemma FullReleaseMovesOn(w: World, count: nat, x: Waiter)
    requires Balanced(w) && Queueing(w) && w.sem.max > 0 && x in w.sem.tasks && w.sem.tasks[x] == Pending
    requires w.sem.current + count == w.sem.max
    ensures MovesOn(w, Step(w, Release(count)), x)
  {
    PendingIsQueued(w, x);
    var v := w.(released := w.released + count, sem := w.sem.(current := w.sem.current + count));
    ReleaseKeepsBooks(w, count);
    SettleCompletes(v, x);
    SettleKeepsMax(v);
  }

  lemma ExcessIsTaken(w: World)
    requires Balanced(w) && Queueing(w) && w.sem.max > 0
    ensures var v := Step(w, TryEnter(Excess(w.sem)));
      && Balanced(v) && Queueing(v) && v.sem.tasks == w.sem.tasks && v.sem.queue == w.sem.queue
      && v.sem.max == w.sem.max && v.sem.current + Missing(w.sem) == v.sem.max
  {
  }

  /** A pending call is granted once everything outstanding comes back often enough. */
  lemma {:induction false} PendingCanBeGranted(w: World, x: Waiter) returns (run: seq<Action>)
    requires Balanced(w) && Queueing(w) && w.sem.max > 0 && x in w.sem.tasks && w.sem.tasks[x] == Pending
    ensures AllowedRun(w, run) && OnlyEntersAndReleases(run) && x in Run(w, run).served
    decreases |w.sem.queue|
  {
    ExcessIsTaken(w);
    var v := Step(w, TryEnter(Excess(w.sem)));
    FullReleaseMovesOn(v, Missing(w.sem), x);
    var w' := Step(v, Release(Missing(w.sem)));
    var rest := [];
    if w'.sem.tasks[x] == Pending {
      rest := PendingCanBeGranted(w', x);
    } else {
      ServedExactlyWhenCompleted(w', x);
    }
    ReleaseAllIsARun(w, rest);
    run := ReleaseAll(w.sem) + rest;
  }

  lemma PendingIsQueued(w: World, x: Waiter)
    requires Queueing(w) && x in w.sem.tasks && w.sem.tasks[x] == Pending
    ensures w.sem.queue != []
  {
    assert x in Members(w.gone + Waiters(w.sem.queue));
  }

  /** A call that is without a grant, and may have returned so, is never granted later if
      and only if its task is cancelled. One whose callback was unregistered keeps its
      place in the queue. */
  lemma NeverGrantedLaterExactlyWhen(max: int, run: seq<Action>, x: Waiter)
    requires max > 0 && AllowedRun(Start(max), run)
    requires var w := Run(Start(max), run); x in w.sem.tasks && x !in w.served
    ensures var w := Run(Start(max), run);
      (forall later :: AllowedRun(w, later) ==> x !in Run(w, later).served) <==> w.sem.tasks[x] == Canceled
  {
    var w := Run(Start(max), run);
    StartIsInOrder(max);
    QueueingIsReached(Start(max), run);
    MaxIsFixed(Start(max), run);
    ServedExactlyWhenCompleted(w, x);
    if w.sem.tasks[x] == Canceled {
      forall later | AllowedRun(w, later) ensures x !in Run(w, later).served {
        CanceledStays(w, later, x);
        QueueingIsReached(w, later);
        ServedExactlyWhenCompleted(Run(w, later), x);
      }
    } else {
      var later := PendingCanBeGranted(w, x);
    }
  }

  lemma ReleaseToHead(w: World, count: nat, x: Waiter, released: nat)
    requires w.sem.queue == [Entry(count, x)] && 0 < w.sem.current + released <= w.sem.max
    ensures var v := Step(w, Release(released));
      && v.sem.queue == [] && v.sem.max == w.sem.max
      && v.sem.tasks == (if w.sem.Waiting(x) then w.sem.tasks[x := Completed] else w.sem.tasks)
      && v.served == (if w.sem.Waiting(x) then w.served + [x] else w.served)
      && v.granted == (if w.sem.Waiting(x) then w.granted + count else w.granted)
      && v.sem.current == w.sem.current + released - (if w.sem.Waiting(x) then count else 0)
  {
    var v := w.(released := w.released + released, sem := w.sem.(current := w.sem.current + released));
    var d := DequeueOne(v);
    assert v.sem.queue[0] == Entry(count, x) && (v.sem.Waiting(x) <==> w.sem.Waiting(x));
    assert d.sem.queue == [] && Settle(d) == d;
    assert Settle(v) == Settle(d);
  }

  /** All ends of a call that found its token cancelled while its task was pending are
      reachable from a full semaphore. With the callback it returns holding nothing and
      never will; without any step it returns with its task pending. A release gives it
      its amount in that state: before it returns it then holds it, after that the
      release is spent on a call that is gone and lets nobody in. */
  lemma CancelledCallsEndThreeWays(w: World, count: nat, x: Waiter)
    requires w.sem.queue == [] && w.sem.current == 0 && x !in w.sem.tasks
    requires 0 < count <= w.sem.max
    ensures
      var looked := Step(w, Enter(count, x));
      var cancelled, released := Step(looked, Cancel(x)), Step(looked, Release(count));
      && EnterEnds(true, Pending) == EnterEnds(true, Canceled) == EnterEnds(true, Completed) == Returns
      && looked.sem.tasks == w.sem.tasks[x := Pending] && looked.granted == w.granted
      && cancelled.sem.tasks == w.sem.tasks[x := Canceled] && cancelled.granted == w.granted
      && released.sem.tasks == w.sem.tasks[x := Completed] && released.granted == w.granted + count
      && released.sem.current == 0 && (forall n: nat :: TryEntered(released.sem, n) == released.sem)
  {
    var queued := Step(w, Enter(count, x));
    assert queued.sem.queue == [Entry(count, x)] && queued.sem.Waiting(x);
    ReleaseToHead(queued, count, x, count);
  }

  // ----- Two ways clients lose the guarantees ----------------------------------------------------

  /** If the client of a call that returned without a grant releases what it does not
      hold, another call gets in beside the holders, and the semaphore refuses to take
      back all that they now hold together. */
  lemma ReleaseWithoutGrantLetsOneIn(w: World, count: nat, x: Waiter)
    requires w.sem.queue == [] && w.sem.current == 0 && x !in w.sem.tasks
    requires 0 < count <= w.sem.max
    ensures
      var returned := Step(Step(w, Enter(count, x)), Cancel(x));
      var intruded := Step(Step(returned, Release(count)), TryEnter(count));
      && returned.granted == w.granted
      && intruded.granted == w.granted + count
      && ReleaseThrows(intruded.sem, w.sem.max + count)
  {
    var queued := Step(w, Enter(count, x));
    assert queued.sem.queue == [Entry(count, x)] && queued.sem.Waiting(x);
    ReleaseToHead(Step(queued, Cancel(x)), count, x, count);
  }

  /** A negative decrease wakes nobody: the next call overtakes the queue. */
  lemma NegativeDecreaseOvertakes(w: World, count: nat, x: Waiter, lift: int)
    requires w.sem.queue == [] && w.sem.current <= 0 && x !in w.sem.tasks
    requires w.sem.current + lift > 0
    ensures
      var lifted := Step(Step(w, Enter(count, x)), Decrease(-lift));
      && lifted.sem.queue == [Entry(count, x)] && lifted.sem.Waiting(x)
      && Step(lifted, TryEnter(count)).granted == w.granted + count
      && Step(lifted, TryEnter(count)).sem.Waiting(x)
  {
  }
}
