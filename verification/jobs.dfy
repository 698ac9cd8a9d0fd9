/** The job scheduler of the GUI: jobs, job factories, and a scheduler that
    runs one job at a time on a worker thread, highest priority first.

    The scheduler is an immutable state `Scheduler(running, thread, queue,
    active)`; each critical section of the source (everything done while the
    condition variable's lock is held) is one function from state to state.
    The worker thread, the condition variable and its waits and notifies are
    not modelled: `Dispatch` and `Finish` are the worker's two critical
    sections, and whatever a caller or the worker does in between is just
    another transition. */
module Jobs {
  import opened Basics

  /** The identity of a Python object: `a is b` compares handles. */
  type Handle = nat

  /** `JobFactory`: a named issuer of job ids; `nextId` is the state of its
      id counter. */
  datatype JobFactory = JobFactory(handle: Handle, name: string, nextId: nat)

  /** `Job`. `factory` is the handle of the factory that made it: a
      back-reference, not ownership. */
  datatype Job = Job(handle: Handle, factory: Handle, id: nat, priority: int, canStop: bool)

  /** Class-level defaults of `Job`: not interruptible, priority 0. */
  const DefaultCanStop := false
  const DefaultPriority := 0

  /** `Job.__eq__` is `self is other`: equality is identity, never value. */
  predicate SameJob(a: Job, b: Job)
  {
    a.handle == b.handle
  }

  /** `job.factory == factory`, where `JobFactory.__eq__` is identity too. */
  predicate MadeBy(j: Job, f: JobFactory)
  {
    j.factory == f.handle
  }

  /** Python 2's built-in `cmp` on integers. */
  function Cmp(x: int, y: int): int
  {
    if x < y then -1 else if x == y then 0 else 1
  }

  /** `Job.__cmp__`. The heap is a min-heap; comparing the priorities in
      reverse order makes it pop the highest priority first. */
  function Compare(a: Job, b: Job): (c: int)
    ensures c < 0 <==> a.priority > b.priority
    ensures c == 0 <==> a.priority == b.priority
  {
    Cmp(b.priority, a.priority)
  }

  /** What a concrete factory's `make` is given besides its own arguments:
      the identity of the new object and the class attributes of its job
      class. */
  datatype JobOrder = JobOrder(handle: Handle, priority: int, canStop: bool)

  /** One `make`: the job takes `next(self.id_generator)` as its id. */
  function Make(f: JobFactory, order: JobOrder): (r: (JobFactory, Job))
    ensures MadeBy(r.1, f) && r.0.handle == f.handle && r.0.name == f.name
    ensures f.nextId == r.1.id < r.0.nextId
  {
    (f.(nextId := f.nextId + 1), Job(order.handle, f.handle, f.nextId, order.priority, order.canStop))
  }

  /** A run of `make` calls on one factory. */
  function MakeAll(f: JobFactory, orders: seq<JobOrder>): (r: (JobFactory, seq<Job>))
    ensures |r.1| == |orders| && r.0.handle == f.handle
    ensures f.nextId <= r.0.nextId
    ensures forall i :: 0 <= i < |r.1| ==> MadeBy(r.1[i], f)
    ensures forall i :: 0 <= i < |r.1| ==> f.nextId <= r.1[i].id < r.0.nextId
    ensures forall i, k :: 0 <= i < k < |r.1| ==> r.1[i].id < r.1[k].id
    decreases |orders|
  {
    if orders == [] then (f, [])
    else
      var (f1, j) := Make(f, orders[0]);
      var (f2, js) := MakeAll(f1, orders[1..]);
      (f2, [j] + js)
  }

  /** No two jobs of one factory ever share an id. */
  lemma MadeIdsDistinct(f: JobFactory, orders: seq<JobOrder>, i: int, k: int)
    requires 0 <= i < k < |orders|
    ensures MakeAll(f, orders).1[i].id != MakeAll(f, orders).1[k].id
  {
  }

  /** A failed `assert` and the `JobException` raised by `add`. */
  datatype SchedulerError = AssertionFailed | JobException(job: Job)

  /** `JobScheduler`. `running` is the lifecycle flag, `thread` says whether
      `_thread` is set, `queue` holds the heap's elements in insertion order
      (the heap's internal layout is not modelled) and `active` is
      `_active_job`. */
  datatype Scheduler = Scheduler(name: string, running: bool, thread: bool, queue: seq<Job>, active: Option<Job>)

  /** Some queued job is `j` (the `in` operator of a list uses `__eq__`). */
  predicate Queued(q: seq<Job>, j: Job)
  {
    exists i :: 0 <= i < |q| && SameJob(q[i], j)
  }

  predicate IsActive(s: Scheduler, j: Job)
  {
    s.active.Some? && SameJob(s.active.value, j)
  }

  /** No job is queued twice. */
  predicate Distinct(q: seq<Job>)
  {
    forall i, k :: 0 <= i < k < |q| ==> !SameJob(q[i], q[k])
  }

  /** The scheduler's invariant: a job is in at most one place, the
      worker thread exists exactly while the scheduler runs, and a stopped
      scheduler has no job running. */
  predicate Valid(s: Scheduler)
  {
    && s.running == s.thread
    && Distinct(s.queue)
    && (s.active.Some? ==> !Queued(s.queue, s.active.value))
    && (!s.running ==> s.active == None)
  }

  /** `JobScheduler.__init__`. */
  function NewScheduler(name: string): (s: Scheduler)
    ensures Valid(s) && !s.running && s.queue == [] && s.active == None
  {
    Scheduler(name, false, false, [], None)
  }

  /** `start`: asserts that the scheduler is stopped and has no thread,
      then marks it running with a worker thread. */
  function Start(s: Scheduler): (r: Result<Scheduler, SchedulerError>)
    ensures r.Err? <==> s.running || s.thread
    ensures r.Ok? ==> r.value.running && r.value.thread
    ensures r.Ok? ==> r.value.queue == s.queue && r.value.active == s.active
    ensures Valid(s) && r.Ok? ==> Valid(r.value)
  {
    if s.running || s.thread then Err(AssertionFailed)
    else Ok(s.(running := true, thread := true))
  }

  /** `add`: a job that is already queued or active is refused with a
      `JobException`; any other job joins the queue. */
  function Add(s: Scheduler, job: Job): (r: Result<Scheduler, SchedulerError>)
    ensures r.Err? <==> Queued(s.queue, job) || IsActive(s, job)
    ensures r.Err? ==> r.error == JobException(job)
    ensures r.Ok? ==> r.value == s.(queue := s.queue + [job])
    ensures Valid(s) && r.Ok? ==> Valid(r.value)
  {
    if Queued(s.queue, job) || IsActive(s, job) then Err(JobException(job))
    else
      var q := s.queue + [job];
      assert forall i :: 0 <= i < |s.queue| ==> q[i] == s.queue[i];
      Ok(s.(queue := q))
  }

  function Priorities(q: seq<Job>): (p: seq<int>)
    ensures |p| == |q| && forall i :: 0 <= i < |q| ==> p[i] == q[i].priority
  {
    seq(|q|, i requires 0 <= i < |q| => q[i].priority)
  }

  /** The queue without its element at `k`. */
  function RemoveAt(q: seq<Job>, k: nat): (r: seq<Job>)
    requires k < |q|
    ensures |r| == |q| - 1
    ensures forall i :: 0 <= i < k ==> r[i] == q[i]
    ensures forall i :: k <= i < |r| ==> r[i] == q[i + 1]
    ensures multiset(r) + multiset{q[k]} == multiset(q)
  {
    assert q == q[..k] + [q[k]] + q[k + 1..];
    q[..k] + q[k + 1..]
  }

  /** What the worker's first critical section does: leave the loop when
      the scheduler is stopped, wait while the queue is empty, or pop the
      job the heap holds at its top into the active slot. */
  datatype DispatchStep = Exit | Wait | Run(next: Scheduler, job: Job)

  /** The worker's dispatch step. Among jobs of equal priority the heap
      makes no promise; this model pops the earliest queued one. */
  function Dispatch(s: Scheduler): (r: DispatchStep)
    ensures r.Exit? <==> !s.running
    ensures r.Wait? <==> s.running && s.queue == []
    ensures r.Run? ==> r.next.active == Some(r.job) && r.job in s.queue
    ensures r.Run? ==> multiset(r.next.queue) + multiset{r.job} == multiset(s.queue)
    ensures r.Run? ==> forall j :: j in s.queue ==> Compare(r.job, j) <= 0
    ensures r.Run? ==> r.next.running == s.running && r.next.thread == s.thread
    ensures r.Run? && Valid(s) ==> Valid(r.next)
  {
    if !s.running then Exit
    else if s.queue == [] then Wait
    else
      var k := FirstMax(Priorities(s.queue));
      var rest := RemoveAt(s.queue, k);
      assert Distinct(s.queue) ==> forall i :: 0 <= i < |rest| ==> !SameJob(rest[i], s.queue[k]) by {
        forall i | 0 <= i < |rest| && Distinct(s.queue)
          ensures !SameJob(rest[i], s.queue[k])
        {
          if i < k { assert rest[i] == s.queue[i]; } else { assert rest[i] == s.queue[i + 1]; }
        }
      }
      Run(s.(queue := rest, active := Some(s.queue[k])), s.queue[k])
  }

  /** How `do()` ended. */
  datatype DoOutcome = Returned | Raised(reason: string)

  /** The worker's second critical section, after `do()` returned or raised:
      the active slot is cleared, and the worker goes on exactly when the
      scheduler is still running. The second component says whether the
      loop continues. `outcome` is not consulted: the `except Exception`
      around `do()` logs a failure and goes on as after a return. */
  function Finish(s: Scheduler, outcome: DoOutcome): (r: (Scheduler, bool))
    ensures r.0.active == None && r.0.queue == s.queue
    ensures r.0.running == s.running && r.0.thread == s.thread
    ensures r.1 <==> s.running
    ensures Valid(s) ==> Valid(r.0)
  {
    (s.(active := None), s.running)
  }

  /** An exception from `do()` is logged and swallowed: it ends the job,
      never the scheduler. */
  lemma FailureDoesNotStopScheduler(s: Scheduler, reason: string)
    ensures Finish(s, Raised(reason)) == Finish(s, Returned)
  {
  }

  /** `a` is `b` with some elements left out, the rest in their order. */
  predicate Subsequence(a: seq<Job>, b: seq<Job>)
    decreases |b|
  {
    || a == []
    || (b != [] && (Subsequence(a, b[1..]) || (a[0] == b[0] && Subsequence(a[1..], b[1..]))))
  }

  /** The queued jobs that `cond` does not match keep their queue order,
      which `Dispatch` relies on to break priority ties. */
  lemma {:induction false} KeepKeepsOrder(q: seq<Job>, cond: Job -> bool)
    ensures Subsequence(Keep(q, cond), q)
  {
    if q != [] {
      KeepKeepsOrder(q[1..], cond);
      var r := Keep(q, cond);
      if !cond(q[0]) {
        assert r[0] == q[0] && r[1..] == Keep(q[1..], cond);
      }
    }
  }

  /** The queued jobs that `cond` does not match, in their order
      (`KeepKeepsOrder`). */
  function Keep(q: seq<Job>, cond: Job -> bool): (r: seq<Job>)
    ensures forall j :: j in r <==> j in q && !cond(j)
    ensures |r| <= |q|
    ensures Distinct(q) ==> Distinct(r)
  {
    if q == [] then []
    else
      var rest := Keep(q[1..], cond);
      if cond(q[0]) then rest
      else
        assert Distinct(q) ==> forall i :: 0 <= i < |rest| ==> !SameJob(q[0], rest[i]) by {
          if Distinct(q) {
            forall i | 0 <= i < |rest|
              ensures !SameJob(q[0], rest[i])
            {
              assert rest[i] in q[1..];
            }
          }
        }
        [q[0]] + rest
  }

  /** What `cancel_matching_jobs` does to a matching active job. */
  datatype CancelEffect = NoActiveMatch | StopRequested(job: Job) | CannotStop(job: Job)

  /** `cancel_matching_jobs` as its design intends: every queued job that
      `cond` matches is dropped, every other one stays; a matching active
      job is asked to stop if it can be stopped, and otherwise only a
      warning is logged and it keeps running. The active slot itself is
      left for the worker to clear. */
  function CancelMatching(s: Scheduler, cond: Job -> bool): (r: (Scheduler, CancelEffect))
    ensures r.0 == s.(queue := r.0.queue)
    ensures forall j :: j in r.0.queue <==> j in s.queue && !cond(j)
    ensures r.1.StopRequested? <==> s.active.Some? && cond(s.active.value) && s.active.value.canStop
    ensures r.1.CannotStop? <==> s.active.Some? && cond(s.active.value) && !s.active.value.canStop
    ensures !r.1.NoActiveMatch? ==> r.1.job == s.active.value
    ensures Valid(s) ==> Valid(r.0)
  {
    var q := Keep(s.queue, cond);
    assert s.active.Some? && Queued(q, s.active.value) ==> Queued(s.queue, s.active.value) by {
      if s.active.Some? && Queued(q, s.active.value) {
        var i :| 0 <= i < |q| && SameJob(q[i], s.active.value);
        assert q[i] in s.queue;
      }
    }
    var effect :=
      if s.active.None? || !cond(s.active.value) then NoActiveMatch
      else if s.active.value.canStop then StopRequested(s.active.value)
      else CannotStop(s.active.value);
    (s.(queue := q), effect)
  }

  /** `cancel(job)`: cancel by identity. */
  function Cancel(s: Scheduler, target: Job): (r: (Scheduler, CancelEffect))
    ensures forall j :: j in r.0.queue <==> j in s.queue && !SameJob(j, target)
    ensures !Queued(r.0.queue, target)
    ensures r.0.active == s.active
    ensures r.1.StopRequested? <==> IsActive(s, target) && s.active.value.canStop
    ensures r.1.CannotStop? <==> IsActive(s, target) && !s.active.value.canStop
  {
    CancelMatching(s, j => SameJob(j, target))
  }

  /** `cancel_all(factory)`: cancel every job of one factory, and never a
      job of another one. */
  function CancelAll(s: Scheduler, f: JobFactory): (r: (Scheduler, CancelEffect))
    ensures forall j :: j in r.0.queue <==> j in s.queue && !MadeBy(j, f)
    ensures r.0.active == s.active
    ensures r.1.StopRequested? <==> s.active.Some? && MadeBy(s.active.value, f) && s.active.value.canStop
    ensures r.1.CannotStop? <==> s.active.Some? && MadeBy(s.active.value, f) && !s.active.value.canStop
  {
    CancelMatching(s, j => MadeBy(j, f))
  }

  /** What `stop` does to the active job. */
  datatype StopEffect = Idle | StopCalled(job: Job) | LeftRunning(job: Job)

  /** `stop`: asserts that the scheduler runs and has a thread, clears
      `running`, asks a stoppable active job to stop, and forgets the
      thread once it has been joined. The join returns once the worker has
      finished its job and cleared the active slot. Queued jobs stay queued
      but are never dispatched. An unstoppable active job is not asked to
      stop (see `JobsAsWritten.StopAsWritten` for the source's behaviour). */
  function Stop(s: Scheduler): (r: Result<(Scheduler, StopEffect), SchedulerError>)
    ensures r.Err? <==> !s.running || !s.thread
    ensures r.Ok? ==> r.value.0 == s.(running := false, thread := false, active := None)
    ensures r.Ok? ==> (r.value.1.StopCalled? <==> s.active.Some? && s.active.value.canStop)
    ensures r.Ok? ==> (r.value.1.LeftRunning? <==> s.active.Some? && !s.active.value.canStop)
    ensures r.Ok? && !r.value.1.Idle? ==> r.value.1.job == s.active.value
    ensures Valid(s) && r.Ok? ==> Valid(r.value.0)
  {
    if !s.running || !s.thread then Err(AssertionFailed)
    else
      var effect :=
        if s.active.None? then Idle
        else if s.active.value.canStop then StopCalled(s.active.value)
        else LeftRunning(s.active.value);
      Ok((s.(running := false, thread := false, active := None), effect))
  }

  /** The lifecycle: a stopped scheduler can be started, cannot be started
      twice, and stopping it again returns it to where it was; a stopped
      scheduler cannot be stopped. */
  lemma {:induction false} Lifecycle(s: Scheduler)
    requires Valid(s) && !s.running
    ensures Stop(s).Err?
    ensures Start(s).Ok?
    ensures Start(Start(s).value).Err?
    ensures Stop(Start(s).value).Ok? && Stop(Start(s).value).value.0 == s
  {
    assert !s.thread;
  }

  /** Stopping a running scheduler and starting it again: the job that was
      running when it stopped can be queued again, since the join left no
      job in the active slot. */
  lemma RestartAfterStop(s: Scheduler)
    requires Valid(s) && s.running
    ensures Stop(s).Ok? && Start(Stop(s).value.0).Ok?
    ensures s.active.Some? ==> Add(Start(Stop(s).value.0).value, s.active.value).Ok?
  {
  }

  /** The worker thread run to idle with no other caller interfering: it
      dispatches and finishes jobs until the queue is empty. Returns the
      final state and the jobs in the order their `do()` ran. */
  function Drain(s: Scheduler): (r: (Scheduler, seq<Job>))
    ensures s.running ==> multiset(r.1) == multiset(s.queue) && r.0.queue == []
    ensures !s.running ==> r == (s, [])
    decreases |s.queue|
  {
    if !s.running || s.queue == [] then (s, [])
    else
      var step := Dispatch(s);
      var after := Finish(step.next, Returned).0;
      assert |after.queue| < |s.queue| by {
        assert |multiset(after.queue)| + 1 == |multiset(s.queue)|;
      }
      var rest := Drain(after);
      (rest.0, [step.job] + rest.1)
  }

  /** Run to idle, the jobs run in order of non-increasing priority: a
      higher priority job always runs before a lower priority one. */
  lemma {:induction false} DrainRunsByPriority(s: Scheduler)
    ensures forall i, k :: 0 <= i < k < |Drain(s).1| ==> Drain(s).1[i].priority >= Drain(s).1[k].priority
    decreases |s.queue|
  {
    if s.running && s.queue != [] {
      var step := Dispatch(s);
      var after := Finish(step.next, Returned).0;
      var ran := DrainStep(s);
      DrainRunsByPriority(after);
      ByPriorityCons(step.job, ran);
    }
  }

  /** One round of `Drain`: the job dispatched first runs first, and every
      job that runs after it has at most its priority. */
  lemma DrainStep(s: Scheduler) returns (ran: seq<Job>)
    requires s.running && s.queue != []
    ensures var after := Finish(Dispatch(s).next, Returned).0;
      && |after.queue| < |s.queue|
      && ran == Drain(after).1
      && Drain(s).1 == [Dispatch(s).job] + ran
      && forall j :: j in ran ==> j.priority <= Dispatch(s).job.priority
  {
    var step := Dispatch(s);
    var after := Finish(step.next, Returned).0;
    assert |multiset(after.queue)| + 1 == |multiset(s.queue)|;
    ran := Drain(after).1;
    forall j | j in ran
      ensures j.priority <= step.job.priority
    {
      assert j in multiset(ran);
      assert j in multiset(s.queue);
    }
  }

  lemma ByPriorityCons(first: Job, rest: seq<Job>)
    requires forall i, k :: 0 <= i < k < |rest| ==> rest[i].priority >= rest[k].priority
    requires forall j :: j in rest ==> j.priority <= first.priority
    ensures forall i, k :: 0 <= i < k < |[first] + rest| ==> ([first] + rest)[i].priority >= ([first] + rest)[k].priority
  {
    var all := [first] + rest;
    forall i, k | 0 <= i < k < |all|
      ensures all[i].priority >= all[k].priority
    {
      assert all[k] == rest[k - 1];
      if i > 0 {
        assert all[i] == rest[i - 1];
      } else {
        assert rest[k - 1] in rest;
      }
    }
  }
}
