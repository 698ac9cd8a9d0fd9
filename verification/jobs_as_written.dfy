/** Parts of the scheduler modelled as the source writes them, where that
    differs from what the design evidently intends. Each definition here is
    paired with a lemma exhibiting an input on which it and the intended
    definition in `Jobs` part ways. Nothing else in the model uses them. */
module JobsAsWritten {
  import opened Basics
  import opened Jobs

  /** The Python exceptions these paths raise. The `TypeError` comes from
      the log lines of `cancel_matching_jobs` (jobs.py:165-166, 175-176 and
      178-179): each format string has three conversions but is given a
      pair, and Python applies `%` before the logger is called. */
  datatype PyError = AssertionError | NameError | NotImplementedError | TypeError

  /** `list.remove(job)`: drops the first element equal to `job`, where
      equality is identity. */
  function RemoveFirst(q: seq<Job>, j: Job): (r: seq<Job>)
    ensures Queued(q, j) ==> |r| == |q| - 1
    ensures !Queued(q, j) ==> r == q
    ensures forall x :: x in r ==> x in q
  {
    if q == [] then []
    else if SameJob(q[0], j) then q[1..]
    else
      assert Queued(q, j) ==> Queued(q[1..], j) by {
        if Queued(q, j) {
          var i :| 0 <= i < |q| && SameJob(q[i], j);
          assert q[1..][i - 1] == q[i];
        }
      }
      assert !Queued(q, j) ==> !Queued(q[1..], j) by {
        if Queued(q[1..], j) {
          var i :| 0 <= i < |q[1..]| && SameJob(q[1..][i], j);
          assert q[i + 1] == q[1..][i];
        }
      }
      [q[0]] + RemoveFirst(q[1..], j)
  }

  /** In a queue without duplicates, removing the job at `k` drops exactly
      that position. */
  lemma {:induction false} RemoveFirstAt(q: seq<Job>, k: nat)
    requires Distinct(q) && k < |q|
    ensures RemoveFirst(q, q[k]) == q[..k] + q[k + 1..]
  {
    if k > 0 {
      var t := q[1..];
      assert t[k - 1] == q[k];
      DistinctTail(q);
      RemoveFirstAt(t, k - 1);
      assert !SameJob(q[0], q[k]);
      assert RemoveFirst(q, q[k]) == [q[0]] + (t[..k - 1] + t[k..]);
      SpliceTail(q, k);
    }
  }

  lemma DistinctTail(q: seq<Job>)
    requires Distinct(q) && q != []
    ensures Distinct(q[1..])
  {
    var t := q[1..];
    forall i, m | 0 <= i < m < |t|
      ensures !SameJob(t[i], t[m])
    {
      assert t[i] == q[i + 1] && t[m] == q[m + 1];
    }
  }

  lemma SpliceTail<T>(q: seq<T>, k: nat)
    requires 0 < k < |q|
    ensures q[..k] + q[k + 1..] == [q[0]] + (q[1..][..k - 1] + q[1..][k..])
  {
    assert q[..k] == [q[0]] + q[1..][..k - 1];
    assert q[k + 1..] == q[1..][k..];
  }

  /** How the sweep at lines 162-168 ends. `Swept`: it went through the
      whole queue and left the loop variable `job` on `last`. `SweepRaised`:
      it removed a job and the log line right after the removal raised
      `TypeError`, which the `except ValueError` does not catch. */
  datatype SweepEnd = Swept(queue: seq<Job>, last: Option<Job>) | SweepRaised(queue: seq<Job>)

  /** The sweep `for job in self._job_queue: if ...: remove(job); log` as
      written, from iterator index `i` with the loop variable on `last`. */
  function SweepAsWritten(q: seq<Job>, cond: Job -> bool, i: nat, last: Option<Job>): (r: SweepEnd)
    ensures r.SweepRaised? <==> exists k :: i <= k < |q| && cond(q[k])
    ensures r.Swept? ==> r.queue == q && r.last == (if i < |q| then Some(q[|q| - 1]) else last)
    ensures r.SweepRaised? ==> |r.queue| == |q| - 1 && forall x :: x in r.queue ==> x in q
    decreases |q| - i
  {
    if i >= |q| then Swept(q, last)
    else if cond(q[i]) then
      assert Queued(q, q[i]);
      SweepRaised(RemoveFirst(q, q[i]))
    else SweepAsWritten(q, cond, i + 1, Some(q[i]))
  }

  /** The sweep as written removes the first matching job and raises; any
      later matching job stays queued, where the intended `Keep` drops it. */
  lemma SweepRemovesFirstMatch(q: seq<Job>, cond: Job -> bool, k: nat)
    requires Distinct(q) && k < |q| && cond(q[k])
    requires forall m :: 0 <= m < k ==> !cond(q[m])
    ensures SweepAsWritten(q, cond, 0, None) == SweepRaised(q[..k] + q[k + 1..])
    ensures (exists m :: k < m < |q| && cond(q[m])) ==> SweepAsWritten(q, cond, 0, None).queue != Keep(q, cond)
  {
    SweepFromRemovesFirst(q, cond, 0, None, k);
    if exists m :: k < m < |q| && cond(q[m]) {
      var m :| k < m < |q| && cond(q[m]);
      LaterMatchStays(q, cond, k, m);
    }
  }

  lemma {:induction false} SweepFromRemovesFirst(q: seq<Job>, cond: Job -> bool, i: nat, last: Option<Job>, k: nat)
    requires Distinct(q) && i <= k < |q| && cond(q[k])
    requires forall m :: i <= m < k ==> !cond(q[m])
    ensures SweepAsWritten(q, cond, i, last) == SweepRaised(q[..k] + q[k + 1..])
    decreases k - i
  {
    if i < k {
      SweepFromRemovesFirst(q, cond, i + 1, Some(q[i]), k);
    } else {
      RemoveFirstAt(q, k);
    }
  }

  /** A matching job after position `k` survives the removal at `k`, but
      not `Keep`. */
  lemma LaterMatchStays(q: seq<Job>, cond: Job -> bool, k: nat, m: nat)
    requires k < m < |q| && cond(q[m])
    ensures q[..k] + q[k + 1..] != Keep(q, cond)
  {
    var r := q[..k] + q[k + 1..];
    assert r[m - 1] == q[m];
    assert q[m] in r;
    assert q[m] !in Keep(q, cond);
  }

  /** The same loop with its log line's arguments corrected, so that it
      runs to the end. A list iterator walks an index; removing the current
      element shifts the next one under that index, and the iterator then
      steps past it unexamined. The second component is the loop variable. */
  function SweepLogFixed(q: seq<Job>, cond: Job -> bool, i: nat, last: Option<Job>): (r: (seq<Job>, Option<Job>))
    ensures forall x :: x in r.0 ==> x in q
    ensures i < |q| ==> r.1.Some? && r.1.value in q
    ensures i >= |q| ==> r == (q, last)
    decreases |q| - i
  {
    if i >= |q| then (q, last)
    else if cond(q[i]) then
      assert Queued(q, q[i]);
      SweepLogFixed(RemoveFirst(q, q[i]), cond, i + 1, Some(q[i]))
    else SweepLogFixed(q, cond, i + 1, Some(q[i]))
  }

  /** Two adjacent queued jobs that both match. As written the first is
      removed and the log line raises, so the second stays queued. With the
      log line corrected the second still stays: the iterator steps over
      it. The intended `Keep` drops both. */
  lemma SweepSkipsNeighbour(a: Job, b: Job, cond: Job -> bool)
    requires !SameJob(a, b) && cond(a) && cond(b)
    ensures SweepAsWritten([a, b], cond, 0, None) == SweepRaised([b])
    ensures SweepLogFixed([a, b], cond, 0, None).0 == [b]
    ensures Keep([a, b], cond) == []
  {
    assert RemoveFirst([a, b], a) == [b];
    assert Keep([b], cond) == [];
  }

  /** Line 163 hands the condition `job.factory`, but the condition built by
      `cancel` compares its argument with the target job. `JobFactory.__eq__`
      is identity, and a factory is never the same object as a job. */
  function FactoryIsJob(factory: Handle, target: Job): bool
  {
    false
  }

  /** The queue left by `cancel(target)`'s sweep as written. */
  function CancelQueueAsWritten(q: seq<Job>, target: Job): (r: seq<Job>)
    ensures forall x :: x in r ==> x in q
  {
    SweepAsWritten(q, (j: Job) => FactoryIsJob(j.factory, target), 0, None).queue
  }

  /** As written, `cancel` never removes its target from the queue; the
      intended `Cancel` always does. */
  lemma CancelLeavesTargetQueued(s: Scheduler, target: Job)
    requires Queued(s.queue, target)
    ensures CancelQueueAsWritten(s.queue, target) == s.queue
    ensures Queued(CancelQueueAsWritten(s.queue, target), target)
    ensures !Queued(Cancel(s, target).0.queue, target)
  {
  }

  /** How `cancel_matching_jobs` as written ends. `Escaped(error, stopped)`:
      an exception escaped it, after `stop()` was called on `stopped`, if
      on anything. */
  datatype CancelEnd = Completed | Escaped(error: PyError, stopped: Option<Job>)

  /** Lines 170-179 as written: the active job is tested, but the
      `can_stop` check, the `stop()` call and both log lines use the loop
      variable `job`. That name is unbound when the queue was empty, which
      raises `NameError`; otherwise it holds the last queued job the sweep
      visited. Either log line then raises `TypeError`: the warning before
      anything is logged, and the debug line after `stop()` and the wait. */
  function ActiveEffectAsWritten(s: Scheduler, cond: Job -> bool, last: Option<Job>): (r: CancelEnd)
    ensures r.Completed? <==> s.active.None? || !cond(s.active.value)
    ensures r.Escaped? ==> (r.error == NameError <==> last.None?)
    ensures r.Escaped? && r.error != NameError ==> r.error == TypeError
    ensures r.Escaped? ==> (r.stopped.Some? <==> last.Some? && last.value.canStop)
    ensures r.Escaped? && r.stopped.Some? ==> r.stopped == last
  {
    if s.active.None? || !cond(s.active.value) then Completed
    else match last
      case None => Escaped(NameError, None)
      case Some(job) => Escaped(TypeError, if job.canStop then Some(job) else None)
  }

  /** `cancel_matching_jobs` as written. `onQueued` is the test the sweep
      applies to a queued job (`condition(job.factory)`), `onActive` the
      one applied to the active job (`condition(self._active_job)`). */
  function CancelMatchingAsWritten(s: Scheduler, onQueued: Job -> bool, onActive: Job -> bool): (r: (Scheduler, CancelEnd))
    ensures r.0 == s.(queue := r.0.queue)
    ensures (exists k :: 0 <= k < |s.queue| && onQueued(s.queue[k])) ==> r.1 == Escaped(TypeError, None)
    ensures r.1.Completed? ==> r.0.queue == s.queue
    ensures r.1.Escaped? && r.1.stopped.Some? ==> r.1.stopped.value in s.queue
    ensures Valid(s) && r.1.Escaped? && r.1.stopped.Some? ==> !IsActive(s, r.1.stopped.value)
  {
    match SweepAsWritten(s.queue, onQueued, 0, None)
    case SweepRaised(q) => (s.(queue := q), Escaped(TypeError, None))
    case Swept(q, last) =>
      var effect := ActiveEffectAsWritten(s, onActive, last);
      assert effect.Escaped? && effect.stopped.Some? ==> Queued(s.queue, effect.stopped.value) by {
        if effect.Escaped? && effect.stopped.Some? {
          assert SameJob(s.queue[|s.queue| - 1], effect.stopped.value);
        }
      }
      (s.(queue := q), effect)
  }

  /** The call `cancel` makes at lines 186-187 as written: the sweep tests
      each queued job's factory, the active-job branch the active job. */
  function CancelCallAsWritten(s: Scheduler, target: Job): (r: (Scheduler, CancelEnd))
    ensures r.0.queue == s.queue && r.0.active == s.active
  {
    CancelMatchingAsWritten(s, (j: Job) => FactoryIsJob(j.factory, target), (j: Job) => SameJob(j, target))
  }

  /** Cancelling the active job as written. With an empty queue it raises
      `NameError`. Otherwise the last queued job, not the active one, is
      the job asked to stop (when it can stop), and `TypeError` follows in
      either case. The intended `Cancel` acts on the active job. */
  lemma CancelStopsWrongJob(s: Scheduler)
    requires s.active.Some?
    ensures s.queue == [] ==> CancelCallAsWritten(s, s.active.value).1 == Escaped(NameError, None)
    ensures s.queue != [] ==>
      var queued := s.queue[|s.queue| - 1];
      CancelCallAsWritten(s, s.active.value).1 == Escaped(TypeError, if queued.canStop then Some(queued) else None)
    ensures Cancel(s, s.active.value).1 == (if s.active.value.canStop then StopRequested(s.active.value) else CannotStop(s.active.value))
  {
  }

  /** `stop` as written: it calls `stop()` on any active job. A job that
      cannot be stopped keeps the base class's `stop`, which raises
      `NotImplementedError`; the exception leaves `stop` after `running`
      was cleared but before the thread is joined and forgotten. */
  function StopAsWritten(s: Scheduler): (r: Result<(Scheduler, StopEffect), (PyError, Scheduler)>)
    ensures r.Ok? <==> s.running && s.thread && (s.active.None? || s.active.value.canStop)
    ensures r.Ok? ==> r.value.0 == s.(running := false, thread := false, active := None)
    ensures r.Err? && r.error.0 == NotImplementedError ==> r.error.1.thread && !r.error.1.running
  {
    if !s.running || !s.thread then Err((AssertionError, s))
    else if s.active.None? then Ok((s.(running := false, thread := false), Idle))
    else if s.active.value.canStop then Ok((s.(running := false, thread := false, active := None), StopCalled(s.active.value)))
    else Err((NotImplementedError, s.(running := false)))
  }

  /** Stopping while an unstoppable job runs: as written the scheduler is
      left with a thread handle, so it can never be started again. The
      intended `Stop` succeeds and the scheduler can be restarted. */
  lemma StopStrandsScheduler(s: Scheduler)
    requires Valid(s) && s.running && s.active.Some? && !s.active.value.canStop
    ensures StopAsWritten(s).Err?
    ensures Start(StopAsWritten(s).error.1).Err?
    ensures Stop(s).Ok? && Start(Stop(s).value.0).Ok?
  {
  }

  /** The job at `i` does not outrank its parent in the heap's tree. */
  predicate BelowParent(h: seq<Job>, i: nat)
    requires 0 < i < |h|
  {
    h[i].priority <= h[(i - 1) / 2].priority
  }

  /** The heap property of a `heapq` list under `Job.__cmp__`: no job
      outranks its parent. */
  predicate IsHeap(h: seq<Job>)
  {
    forall i: nat :: 0 < i < |h| ==> BelowParent(h, i)
  }

  /** In a heap, the job at the root has the highest priority. */
  lemma {:induction false} HeapRootIsMax(h: seq<Job>, i: nat)
    requires IsHeap(h) && i < |h|
    ensures h[i].priority <= h[0].priority
    decreases i
  {
    if i > 0 {
      assert BelowParent(h, i);
      HeapRootIsMax(h, (i - 1) / 2);
    }
  }

  /** The job `heapq.heappop` returns: it moves the last element to the
      root and sifts it down, but what it returns is the element the list
      held at index 0, whatever the list's layout. The new layout is not
      modelled. */
  function HeapPopJob(h: seq<Job>): (j: Job)
    requires |h| > 0
    ensures j in h
    ensures IsHeap(h) ==> forall x :: x in h ==> x.priority <= j.priority
  {
    assert IsHeap(h) ==> forall x :: x in h ==> x.priority <= h[0].priority by {
      if IsHeap(h) {
        forall x | x in h
          ensures x.priority <= h[0].priority
        {
          var i :| 0 <= i < |h| && h[i] == x;
          HeapRootIsMax(h, i);
        }
      }
    }
    h[0]
  }

  /** `list.remove` on the heap breaks the heap property. The heap of three
      jobs `[a, b, c]`, which pushing `a`, `b`, `c` in that order builds,
      loses its root `a` to a cancel; the worker's `heappop` then returns
      `b` although `c` outranks it. The intended `Dispatch` runs `c`. */
  lemma RemoveBreaksHeap(s: Scheduler, a: Job, b: Job, c: Job)
    requires !SameJob(a, b) && !SameJob(a, c) && !SameJob(b, c)
    requires b.priority < c.priority <= a.priority
    requires s.running && s.queue == [b, c]
    ensures IsHeap([a, b, c])
    ensures RemoveFirst([a, b, c], a) == [b, c]
    ensures !IsHeap([b, c])
    ensures HeapPopJob([b, c]) == b
    ensures Dispatch(s) == Run(s.(queue := [b], active := Some(c)), c)
  {
    assert !BelowParent([b, c], 1);
    DispatchOfTwo(s, b, c);
  }

  /** Of two queued jobs, the intended dispatch runs the higher one. */
  lemma DispatchOfTwo(s: Scheduler, b: Job, c: Job)
    requires s.running && s.queue == [b, c] && b.priority < c.priority
    ensures Dispatch(s) == Run(s.(queue := [b], active := Some(c)), c)
  {
    assert Priorities(s.queue) == [b.priority, c.priority];
    assert FirstMax([b.priority, c.priority]) == 1;
    assert RemoveAt(s.queue, 1) == [b];
  }
}
