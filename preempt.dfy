/**
 The sequential skeleton of the preemptive coordinator (cpt_preempt): its slot
 array of worker tasks, the lifecycle of the struct (init and uninit), the slot
 lookup a worker does on start, the arrival counter that signals the
 controller, the worker loop that contends on the job, the resume loop that
 releases the workers, and the single-registrant join slot.

 Real scheduling is not modelled. Task handles and semaphore handles are
 naturals with 0 standing for NULL. Calls into the scheduler whose only effect
 is outside this struct (deleting or resuming a task, deleting a semaphore,
 notifying a task) are returned as a sequence of `Effect`s. The creation of
 tasks and of the job lock are inputs: a NULL handle stands for a failed
 creation. Iterations of the workers' loops, which the job lock serialises, are
 executed one at a time in an order chosen by a `schedule` of worker indices.
 */
module CptPreempt {
  import opened CptJob

  type TaskHandle = nat
  const NullHandle: TaskHandle := 0

  type SemaphoreHandle = nat
  const NullSemaphore: SemaphoreHandle := 0

  /** The esp_err_t codes this component returns. */
  datatype EspErr = EspOk | EspErrInvalidState

  /** One slot of the array, cpt_preempt_task. */
  datatype TaskRecord = TaskRecord(handle: TaskHandle, counter: nat)

  /** A zeroed slot. */
  const EmptyTask: TaskRecord := TaskRecord(NullHandle, 0)

  /** A call into the scheduler whose effect lies outside the coordinator's struct. */
  datatype Effect =
    | DeleteTask(task: TaskHandle)
    | DeleteSemaphore(semaphore: SemaphoreHandle)
    | NotifyGive(task: TaskHandle)

  function Handles(tasks: seq<TaskRecord>): seq<TaskHandle>
  {
    seq(|tasks|, i requires 0 <= i < |tasks| => tasks[i].handle)
  }

  function Counters(tasks: seq<TaskRecord>): seq<nat>
  {
    seq(|tasks|, i requires 0 <= i < |tasks| => tasks[i].counter)
  }

  // ---------------------------------------------------------------------------
  // Lifecycle: what init creates and what uninit deletes
  // ---------------------------------------------------------------------------

  /**
   The vTaskDelete calls uninit makes for a slot array: one per non-NULL
   handle, in slot order, and nothing for a NULL slot.
   */
  function TaskDeletions(tasks: seq<TaskRecord>): (effects: seq<Effect>)
    ensures |effects| <= |tasks|
  {
    if tasks == [] then []
    else
      var h := tasks[|tasks| - 1].handle;
      TaskDeletions(tasks[..|tasks| - 1]) + (if h != NullHandle then [DeleteTask(h)] else [])
  }

  /** Uninit deletes exactly the tasks whose handles are in non-NULL slots, and nothing else. */
  lemma {:induction false} TaskDeletionsExact(tasks: seq<TaskRecord>)
    ensures forall e :: e in TaskDeletions(tasks) ==> e.DeleteTask? && e.task != NullHandle
    ensures forall h :: DeleteTask(h) in TaskDeletions(tasks) <==> h != NullHandle && h in Handles(tasks)
    decreases |tasks|
  {
    if tasks != [] {
      var front := tasks[..|tasks| - 1];
      TaskDeletionsExact(front);
      assert Handles(tasks) == Handles(front) + [tasks[|tasks| - 1].handle];
    }
  }

  /** The vSemaphoreDelete call uninit makes for the job lock, if it is not NULL. */
  function LockDeletion(lock: SemaphoreHandle): (effects: seq<Effect>)
    ensures |effects| <= 1
    ensures forall e :: e in effects <==> lock != NullSemaphore && e == DeleteSemaphore(lock)
  {
    if lock != NullSemaphore then [DeleteSemaphore(lock)] else []
  }

  /** A slot array with every handle NULL (in particular a zeroed one) deletes nothing. */
  lemma EmptySlotsDeleteNothing(tasks: seq<TaskRecord>)
    requires forall i :: 0 <= i < |tasks| ==> tasks[i].handle == NullHandle
    ensures TaskDeletions(tasks) == []
  {
  }

  /**
   The handles init stores before the first failed task creation: the longest
   prefix of `spawned` made of non-NULL handles.
   */
  function CreatedPrefix(spawned: seq<TaskHandle>): (p: seq<TaskHandle>)
    ensures p <= spawned
    ensures forall i :: 0 <= i < |p| ==> p[i] != NullHandle
    ensures |p| < |spawned| ==> spawned[|p|] == NullHandle
  {
    if spawned == [] || spawned[0] == NullHandle then []
    else [spawned[0]] + CreatedPrefix(spawned[1..])
  }

  /** The created prefix is determined by the position of the first NULL handle. */
  lemma CreatedPrefixAt(spawned: seq<TaskHandle>, k: nat)
    requires k <= |spawned|
    requires forall j :: 0 <= j < k ==> spawned[j] != NullHandle
    requires k == |spawned| || spawned[k] == NullHandle
    ensures CreatedPrefix(spawned) == spawned[..k]
  {
  }

  /**
   The slot array as init leaves it once task creation stops: the created
   tasks with their counters at zero, then zeroed slots.
   */
  function SlotsAfterSpawn(spawned: seq<TaskHandle>, n: nat): (slots: seq<TaskRecord>)
    requires |spawned| == n
    ensures |slots| == n
    ensures forall i :: 0 <= i < n ==>
              slots[i] == if i < |CreatedPrefix(spawned)| then TaskRecord(spawned[i], 0) else EmptyTask
  {
    var p := CreatedPrefix(spawned);
    seq(n, i requires 0 <= i < n => if i < |p| then TaskRecord(spawned[i], 0) else EmptyTask)
  }

  /** The vTaskDelete call for each of `hs`, in order. */
  function DeleteAll(hs: seq<TaskHandle>): seq<Effect>
  {
    seq(|hs|, i requires 0 <= i < |hs| => DeleteTask(hs[i]))
  }

  /**
   A slot array holding the non-NULL handles `hs` in its first slots and NULL
   everywhere after makes uninit delete exactly the tasks of `hs`, in order.
   */
  lemma {:induction false} CreatedSlotsDeletion(slots: seq<TaskRecord>, hs: seq<TaskHandle>)
    requires |hs| <= |slots|
    requires forall i :: 0 <= i < |hs| ==> slots[i].handle == hs[i] && hs[i] != NullHandle
    requires forall i :: |hs| <= i < |slots| ==> slots[i].handle == NullHandle
    ensures TaskDeletions(slots) == DeleteAll(hs)
    decreases |slots|
  {
    if slots != [] {
      var front := slots[..|slots| - 1];
      if |hs| == |slots| {
        CreatedSlotsDeletion(front, hs[..|hs| - 1]);
        assert DeleteAll(hs) == DeleteAll(hs[..|hs| - 1]) + [DeleteTask(hs[|hs| - 1])];
      } else {
        CreatedSlotsDeletion(front, hs);
      }
    }
  }

  // ---------------------------------------------------------------------------
  // Arrivals at the start barrier
  // ---------------------------------------------------------------------------

  /**
   For `count` serialised arrivals starting from a join counter of `start`,
   whether each arrival's fetch-add saw n - 1 and so signals the controller.
   */
  function ArrivalSignals(start: nat, count: nat, n: nat): (signals: seq<bool>)
    ensures |signals| == count
  {
    if count == 0 then []
    else ArrivalSignals(start, count - 1, n) + [start + count - 1 == n - 1]
  }

  /** Arrival number j signals exactly when the counter it saw was n - 1. */
  lemma {:induction false} ArrivalSignalsAt(start: nat, count: nat, n: nat, j: nat)
    requires j < count
    ensures ArrivalSignals(start, count, n)[j] == (start + j == n - 1)
  {
    if j < count - 1 {
      ArrivalSignalsAt(start, count - 1, n, j);
    }
  }

  /** From a zero join counter, of the n arrivals exactly one, the n-th, signals. */
  lemma OnlyLastArrivalSignals(n: nat)
    requires n >= 1
    ensures forall j :: 0 <= j < n ==> (ArrivalSignals(0, n, n)[j] <==> j == n - 1)
  {
    forall j | 0 <= j < n
      ensures ArrivalSignals(0, n, n)[j] <==> j == n - 1
    {
      ArrivalSignalsAt(0, n, n, j);
    }
  }

  // ---------------------------------------------------------------------------
  // The worker loops as a serialised interleaving
  // ---------------------------------------------------------------------------

  /**
   What the worker loops share: the job counter, each worker's iteration
   counter, and whether each worker has left its loop.
   */
  datatype World = World(jobCounter: nat, counters: seq<nat>, done: seq<bool>)

  predicate WellFormed(w: World)
  {
    |w.counters| == |w.done|
  }

  /**
   One iteration of worker i's loop: one cpt_job_run under the lock, then its
   own counter is bumped, and its loop ends if the run returned Done.
   */
  function Iteration(w: World, i: nat): (w': World)
    requires WellFormed(w) && i < |w.done|
    ensures WellFormed(w') && |w'.done| == |w.done|
    ensures w.jobCounter <= MaxCount ==> w'.jobCounter == Min(w.jobCounter + 1, MaxCount)
    ensures w'.jobCounter >= w.jobCounter
    ensures w'.done[i] <==> w.jobCounter >= MaxCount
    ensures w'.counters[i] == w.counters[i] + 1
    ensures forall j :: 0 <= j < |w.done| && j != i ==> w'.counters[j] == w.counters[j] && w'.done[j] == w.done[j]
  {
    var (c, st) := Step(w.jobCounter);
    World(c, w.counters[i := w.counters[i] + 1], w.done[i := st == Done])
  }

  /** The scheduler picks worker `id`; a worker that has left its loop (or no worker) does nothing. */
  function ScheduleStep(w: World, id: nat): (w': World)
    requires WellFormed(w)
    ensures WellFormed(w') && |w'.done| == |w.done|
    ensures w'.jobCounter >= w.jobCounter
    ensures forall j :: 0 <= j < |w.done| && w.done[j] ==> w'.done[j] && w'.counters[j] == w.counters[j]
  {
    if id < |w.done| && !w.done[id] then Iteration(w, id) else w
  }

  /** The iterations chosen by `schedule`, executed in order. */
  function RunSchedule(w: World, schedule: seq<nat>): (w': World)
    requires WellFormed(w)
    ensures WellFormed(w') && |w'.done| == |w.done|
    ensures w'.jobCounter >= w.jobCounter
    ensures forall j :: 0 <= j < |w.done| && w.done[j] ==> w'.done[j] && w'.counters[j] == w.counters[j]
  {
    if schedule == [] then w
    else ScheduleStep(RunSchedule(w, schedule[..|schedule| - 1]), schedule[|schedule| - 1])
  }

  function SumOf(s: seq<nat>): nat
  {
    if s == [] then 0 else SumOf(s[..|s| - 1]) + s[|s| - 1]
  }

  function CountDone(d: seq<bool>): nat
  {
    if d == [] then 0 else CountDone(d[..|d| - 1]) + (if d[|d| - 1] then 1 else 0)
  }

  /**
   The accounting invariant of the worker loops: every iteration is one run of
   the job, and every run but a worker's last one incremented the job counter.
   So the iteration counters add up to the job counter plus the number of
   workers that have left; the job counter stays within the ceiling; and a
   worker has left only once the job counter reached the ceiling. Each
   worker's own counter is at most the job counter, plus one once it has left.
   */
  predicate Accounting(w: World)
  {
    && WellFormed(w)
    && SumOf(w.counters) == w.jobCounter + CountDone(w.done)
    && w.jobCounter <= MaxCount
    && (CountDone(w.done) > 0 ==> w.jobCounter == MaxCount)
    && forall i :: 0 <= i < |w.counters| ==> w.counters[i] <= w.jobCounter + (if w.done[i] then 1 else 0)
  }

  lemma {:induction false} SumOfIncrement(s: seq<nat>, i: nat)
    requires i < |s|
    ensures SumOf(s[i := s[i] + 1]) == SumOf(s) + 1
    decreases |s|
  {
    var t := s[i := s[i] + 1];
    assert t[..|t| - 1] == if i < |s| - 1 then s[..|s| - 1][i := s[i] + 1] else s[..|s| - 1];
    if i < |s| - 1 {
      SumOfIncrement(s[..|s| - 1], i);
    }
  }

  lemma {:induction false} CountDoneSet(d: seq<bool>, i: nat)
    requires i < |d| && !d[i]
    ensures CountDone(d[i := true]) == CountDone(d) + 1
    decreases |d|
  {
    var t := d[i := true];
    assert t[..|t| - 1] == if i < |d| - 1 then d[..|d| - 1][i := true] else d[..|d| - 1];
    if i < |d| - 1 {
      CountDoneSet(d[..|d| - 1], i);
    }
  }

  lemma {:induction false} CountDoneBounds(d: seq<bool>)
    ensures CountDone(d) <= |d|
    ensures CountDone(d) == |d| <==> forall i :: 0 <= i < |d| ==> d[i]
    ensures CountDone(d) == 0 <==> forall i :: 0 <= i < |d| ==> !d[i]
    decreases |d|
  {
    if d != [] {
      var front := d[..|d| - 1];
      CountDoneBounds(front);
      assert forall i :: 0 <= i < |d| - 1 ==> d[i] == front[i];
    }
  }

  lemma {:induction false} SumOfZeros(s: seq<nat>)
    requires forall i :: 0 <= i < |s| ==> s[i] == 0
    ensures SumOf(s) == 0
    decreases |s|
  {
    if s != [] {
      SumOfZeros(s[..|s| - 1]);
    }
  }

  /** Freshly created workers, with a job counter at zero, satisfy the accounting invariant. */
  lemma InitialAccounting(w: World)
    requires WellFormed(w) && w.jobCounter == 0
    requires forall i :: 0 <= i < |w.counters| ==> w.counters[i] == 0 && !w.done[i]
    ensures Accounting(w)
  {
    SumOfZeros(w.counters);
    CountDoneBounds(w.done);
  }

  /** One iteration of a worker still in its loop preserves the accounting invariant. */
  lemma IterationKeepsAccounting(w: World, i: nat)
    requires Accounting(w) && i < |w.done| && !w.done[i]
    ensures Accounting(Iteration(w, i))
  {
    var w' := Iteration(w, i);
    SumOfIncrement(w.counters, i);
    if w'.done[i] {
      CountDoneSet(w.done, i);
    } else {
      assert w'.done == w.done;
    }
  }

  /** Every serialised interleaving of iterations preserves the accounting invariant. */
  lemma {:induction false} ScheduleKeepsAccounting(w: World, schedule: seq<nat>)
    requires Accounting(w)
    ensures Accounting(RunSchedule(w, schedule))
    decreases |schedule|
  {
    if schedule != [] {
      var before := RunSchedule(w, schedule[..|schedule| - 1]);
      ScheduleKeepsAccounting(w, schedule[..|schedule| - 1]);
      var id := schedule[|schedule| - 1];
      if id < |before.done| && !before.done[id] {
        IterationKeepsAccounting(before, id);
      }
    }
  }

  /**
   Under the invariant the job counter lies between the sum of the iteration
   counters minus the number of workers and that sum.
   */
  lemma AccountingBounds(w: World)
    requires Accounting(w)
    ensures w.jobCounter <= SumOf(w.counters) <= w.jobCounter + |w.done|
    ensures forall i :: 0 <= i < |w.counters| ==> w.counters[i] <= MaxCount + 1
  {
    CountDoneBounds(w.done);
  }

  /** Once all workers have left their loops the iteration counters sum to MaxCount + n. */
  lemma AllExitedSum(w: World)
    requires Accounting(w) && |w.done| >= 1
    requires forall i :: 0 <= i < |w.done| ==> w.done[i]
    ensures w.jobCounter == MaxCount
    ensures SumOf(w.counters) == MaxCount + |w.done|
  {
    CountDoneBounds(w.done);
  }

  /** With a single worker, its last iteration is the one that saw Done: MaxCount + 1 iterations in all. */
  lemma SingleWorkerIterations(w: World)
    requires Accounting(w) && |w.done| == 1 && w.done[0]
    ensures w.counters[0] == MaxCount + 1
  {
    AllExitedSum(w);
    assert w.counters[..0] == [];
  }

  // ---------------------------------------------------------------------------
  // The coordinator struct
  // ---------------------------------------------------------------------------

  /**
   cpt_preempt. The struct in the header lacks `join_counter` and
   `join_handle`, which the implementation uses; they are fields here. `done`
   is not part of the struct: it gathers the local `done` flag of each
   worker's loop, which the serialised model needs in one place.
   */
  class Preempt {
    /** CPT_TASK_COUNT; a slot index is an int8_t with -1 as "not found". */
    const n: nat
    const tasks: array<TaskRecord>
    var job: Job?
    var jobLock: SemaphoreHandle
    var joinLock: SemaphoreHandle
    var joinCounter: nat
    var joinHandle: TaskHandle
    var done: seq<bool>

    ghost predicate Valid()
      reads this
    {
      1 <= n < 128 && tasks.Length == n && |done| == n
    }

    /** The struct after `* preempt = (cpt_preempt) {0}`. */
    ghost predicate Zeroed()
      reads this, tasks
    {
      && job == null
      && jobLock == NullSemaphore
      && joinLock == NullSemaphore
      && joinCounter == 0
      && joinHandle == NullHandle
      && forall i :: 0 <= i < tasks.Length ==> tasks[i] == EmptyTask
    }

    /** What the worker loops see of the coordinator and its job. */
    ghost function WorldOf(): World
      reads this, tasks, job
      requires Valid() && job != null
    {
      World(job.counter, Counters(tasks[..]), done)
    }

    /**
     `index` is the slot a task whose current handle is `current` finds: the
     first slot holding `current`, or -1 exactly when no slot holds it.
     */
    ghost predicate IsTaskIndex(current: TaskHandle, index: int)
      reads this, tasks
      requires Valid()
    {
      && -1 <= index < n
      && (index == -1 <==> forall j :: 0 <= j < n ==> tasks[j].handle != current)
      && (index != -1 ==> tasks[index].handle == current
                          && forall j :: 0 <= j < index ==> tasks[j].handle != current)
    }

    /** Zero-initialised storage for a coordinator of `taskCount` workers. */
    constructor (taskCount: nat)
      requires 1 <= taskCount < 128
      ensures Valid() && Zeroed() && n == taskCount && fresh(tasks)
      ensures done == seq(taskCount, _ => false)
    {
      n := taskCount;
      tasks := new TaskRecord[taskCount](_ => EmptyTask);
      job := null;
      jobLock, joinLock := NullSemaphore, NullSemaphore;
      joinCounter, joinHandle := 0, NullHandle;
      done := seq(taskCount, _ => false);
    }

    /** `* preempt = (cpt_preempt) {0}`. */
    method Zero()
      requires Valid()
      modifies this, tasks
      ensures Valid() && Zeroed() && done == old(done)
    {
      job := null;
      jobLock, joinLock := NullSemaphore, NullSemaphore;
      joinCounter, joinHandle := 0, NullHandle;
      forall i | 0 <= i < tasks.Length {
        tasks[i] := EmptyTask;
      }
    }

    /**
     cpt_preempt_init. `semaphore` is what xSemaphoreCreateCounting returns and
     spawned[i] the handle xTaskCreatePinnedToCore gives worker i (NULL when the
     creation fails). Success needs the lock and every worker; on any failure
     uninit runs, which deletes exactly what was created and leaves the struct
     zeroed, and the result is ESP_ERR_INVALID_STATE.
     */
    method Init(job: Job, semaphore: SemaphoreHandle, spawned: seq<TaskHandle>)
      returns (err: EspErr, effects: seq<Effect>)
      requires Valid() && |spawned| == n
      modifies this, tasks
      ensures Valid() && done == seq(n, _ => false)
      ensures err == EspOk <==> semaphore != NullSemaphore && CreatedPrefix(spawned) == spawned
      ensures err == EspOk ==>
                && this.job == job && jobLock == semaphore && joinLock == NullSemaphore
                && joinCounter == 0 && joinHandle == NullHandle
                && tasks[..] == SlotsAfterSpawn(spawned, n)
                && effects == []
      ensures err == EspErrInvalidState ==>
                && Zeroed()
                && effects == (if semaphore == NullSemaphore then []
                               else DeleteAll(CreatedPrefix(spawned)) + [DeleteSemaphore(semaphore)])
    {
      Zero();
      this.job := job;
      jobLock := semaphore;
      done := seq(n, _ => false);
      err, effects := EspOk, [];
      var i := 0;
      if jobLock == NullSemaphore {
        err := EspErrInvalidState;
      } else {
        while i < n
          invariant 0 <= i <= n && err == EspOk
          invariant forall j :: 0 <= j < i ==> spawned[j] != NullHandle
          invariant forall j :: 0 <= j < i ==> tasks[j] == TaskRecord(spawned[j], 0)
          invariant forall j :: i <= j < n ==> tasks[j] == EmptyTask
          invariant this.job == job && jobLock == semaphore && joinLock == NullSemaphore
          invariant joinCounter == 0 && joinHandle == NullHandle
          invariant done == seq(n, _ => false)
        {
          tasks[i] := TaskRecord(spawned[i], 0);
          if spawned[i] == NullHandle {
            err := EspErrInvalidState;
            break;
          }
          i := i + 1;
        }
        CreatedPrefixAt(spawned, i);
        assert tasks[..] == SlotsAfterSpawn(spawned, n);
      }
      if err != EspOk {
        ghost var slots := tasks[..];
        effects := Uninit();
        if semaphore == NullSemaphore {
          EmptySlotsDeleteNothing(slots);
        } else {
          CreatedSlotsDeletion(slots, CreatedPrefix(spawned));
        }
      }
    }

    /**
     cpt_preempt_uninit: deletes the task of every non-NULL slot, in slot order,
     then the job lock if it is not NULL, and zeroes the struct. On a zeroed
     struct it deletes nothing, so a second call is harmless.
     */
    method Uninit() returns (effects: seq<Effect>)
      requires Valid()
      modifies this, tasks
      ensures Valid() && Zeroed() && done == old(done)
      ensures effects == TaskDeletions(old(tasks[..])) + LockDeletion(old(jobLock))
      ensures old(Zeroed()) ==> effects == []
    {
      effects := [];
      for i := 0 to n
        invariant effects == TaskDeletions(tasks[..i])
      {
        if tasks[i].handle != NullHandle {
          effects := effects + [DeleteTask(tasks[i].handle)];
        }
        assert tasks[..i + 1][..i] == tasks[..i];
      }
      assert tasks[..n] == tasks[..];
      if Zeroed() {
        EmptySlotsDeleteNothing(tasks[..]);
      }
      if jobLock != NullSemaphore {
        effects := effects + [DeleteSemaphore(jobLock)];
      }
      Zero();
    }

    /**
     cpt_preempt_get_current_task_index, with the calling task's handle as
     `current`: a linear search for the first slot holding it, -1 if none does.
     */
    method GetCurrentTaskIndex(current: TaskHandle) returns (index: int)
      requires Valid()
      ensures -1 <= index < n
      ensures index == -1 <==> forall j :: 0 <= j < n ==> tasks[j].handle != current
      ensures index != -1 ==> tasks[index].handle == current
      ensures index != -1 ==> forall j :: 0 <= j < index ==> tasks[j].handle != current
    {
      for i := 0 to n
        invariant forall j :: 0 <= j < i ==> tasks[j].handle != current
      {
        if tasks[i].handle == current {
          return i;
        }
      }
      return -1;
    }

    /**
     The start of cpt_preempt_task_function up to its self-suspension. A task
     that finds no slot returns at once and touches nothing. Otherwise it
     fetch-adds the join counter, and the task whose fetch-add saw n - 1
     notifies whatever handle the join slot holds.
     */
    method TaskStart(current: TaskHandle) returns (index: int, signaled: bool, effects: seq<Effect>)
      requires Valid()
      modifies this`joinCounter
      ensures IsTaskIndex(current, index)
      ensures index == -1 ==> joinCounter == old(joinCounter) && !signaled
      ensures index != -1 ==> joinCounter == old(joinCounter) + 1 && signaled == (old(joinCounter) == n - 1)
      ensures effects == if signaled then [NotifyGive(joinHandle)] else []
    {
      index := GetCurrentTaskIndex(current);
      signaled, effects := false, [];
      if index == -1 {
        return;
      }
      var prior := joinCounter;
      joinCounter := joinCounter + 1;
      if prior == n - 1 {
        signaled := true;
        effects := [NotifyGive(joinHandle)];
      }
    }

    /**
     The arrivals of the tasks in the slots listed in `order`, one after the
     other: the join counter advances by one per arrival and the signals are
     those of ArrivalSignals.
     */
    method ArriveInOrder(order: seq<nat>) returns (signals: seq<bool>)
      requires Valid()
      requires forall k :: 0 <= k < |order| ==> order[k] < n
      modifies this`joinCounter
      ensures joinCounter == old(joinCounter) + |order|
      ensures signals == ArrivalSignals(old(joinCounter), |order|, n)
    {
      signals := [];
      for k := 0 to |order|
        invariant joinCounter == old(joinCounter) + k
        invariant signals == ArrivalSignals(old(joinCounter), k, n)
      {
        var index, signaled, _ := TaskStart(tasks[order[k]].handle);
        signals := signals + [signaled];
      }
    }

    /**
     One iteration of the worker loop of task i (cpt_preempt_task_function):
     take the job lock, run the job once, give the lock back, bump the task's
     own counter; the loop ends after the iteration whose run returned Done.
     */
    method WorkerIteration(i: nat) returns (status: JobStatus)
      requires Valid() && job != null && i < n && !done[i]
      modifies tasks, job, this`done
      ensures Valid()
      ensures status == StatusOf(old(job.counter))
      ensures job.counter == Step(old(job.counter)).0
      ensures tasks[i] == old(tasks[i]).(counter := old(tasks[i].counter) + 1)
      ensures forall j :: 0 <= j < n && j != i ==> tasks[j] == old(tasks[j])
      ensures done == old(done)[i := status == Done]
      ensures WorldOf() == Iteration(old(WorldOf()), i)
    {
      status := job.Run();
      done := done[i := status == Done];
      tasks[i] := tasks[i].(counter := tasks[i].counter + 1);
    }

    /**
     The worker loops run as the serialised interleaving of iterations that
     `schedule` names; an entry naming a worker that has left its loop (or no
     worker) is skipped. The result is RunSchedule of the state before, slot
     handles do not change, and the accounting invariant is preserved.
     */
    method RunWorkers(schedule: seq<nat>)
      requires Valid() && job != null
      modifies tasks, job, this`done
      ensures Valid()
      ensures WorldOf() == RunSchedule(old(WorldOf()), schedule)
      ensures Handles(tasks[..]) == old(Handles(tasks[..]))
      ensures old(Accounting(WorldOf())) ==> Accounting(WorldOf())
    {
      ghost var w0 := WorldOf();
      for k := 0 to |schedule|
        invariant Valid()
        invariant WorldOf() == RunSchedule(w0, schedule[..k])
        invariant Handles(tasks[..]) == old(Handles(tasks[..]))
      {
        var id := schedule[k];
        if id < n && !done[id] {
          var _ := WorkerIteration(id);
        }
        assert schedule[..k + 1][..k] == schedule[..k];
      }
      assert schedule[..|schedule|] == schedule;
      if Accounting(w0) {
        ScheduleKeepsAccounting(w0, schedule);
      }
    }

    /**
     The resume loop of cpt_preempt_run_job: resumes the slots in order and
     fails with ESP_ERR_INVALID_STATE at the first NULL handle, having resumed
     exactly the slots before it; otherwise every slot is resumed. `resumed`
     lists the handles passed to vTaskResume, in order.
     */
    method ResumeTasks() returns (err: EspErr, resumed: seq<TaskHandle>)
      requires Valid()
      ensures err == EspErrInvalidState <==> NullHandle in Handles(tasks[..])
      ensures err == EspOk ==> resumed == Handles(tasks[..])
      ensures err == EspErrInvalidState ==>
                |resumed| < n && tasks[|resumed|].handle == NullHandle
                && resumed == Handles(tasks[..|resumed|])
      ensures NullHandle !in resumed
    {
      resumed := [];
      for i := 0 to n
        invariant resumed == Handles(tasks[..i])
        invariant NullHandle !in resumed
      {
        if tasks[i].handle == NullHandle {
          assert Handles(tasks[..])[i] == NullHandle;
          return EspErrInvalidState, resumed;
        }
        assert Handles(tasks[..i + 1]) == Handles(tasks[..i]) + [tasks[i].handle];
        resumed := resumed + [tasks[i].handle];
      }
      assert tasks[..n] == tasks[..];
      return EspOk, resumed;
    }

    /**
     The registration in cpt_preempt_wait_for_join: a compare-and-swap of the
     join slot from NULL to the caller's handle, failing with
     ESP_ERR_INVALID_STATE (slot unchanged) when a handle is already there.
     */
    method RegisterJoin(current: TaskHandle) returns (err: EspErr)
      modifies this`joinHandle
      ensures err == EspOk <==> old(joinHandle) == NullHandle
      ensures joinHandle == if err == EspOk then current else old(joinHandle)
    {
      if joinHandle == NullHandle {
        joinHandle := current;
        err := EspOk;
      } else {
        err := EspErrInvalidState;
      }
    }

    /**
     The exit of cpt_preempt_wait_for_join: a compare-and-swap of the join slot
     from the caller's handle to NULL, so the slot is cleared only if it still
     holds the caller's own handle.
     */
    method UnregisterJoin(current: TaskHandle)
      modifies this`joinHandle
      ensures joinHandle == if old(joinHandle) == current then NullHandle else old(joinHandle)
    {
      if joinHandle == current {
        joinHandle := NullHandle;
      }
    }

    /**
     cpt_preempt_wait_for_join with the wait for the notification taken as
     returning at once: registration, then the clearing exit. A second
     registrant is refused and leaves the slot as it was; a successful wait
     leaves the slot empty again.
     */
    method WaitForJoin(current: TaskHandle) returns (err: EspErr)
      modifies this`joinHandle
      ensures err == EspOk <==> old(joinHandle) == NullHandle
      ensures err == EspErrInvalidState ==> joinHandle == old(joinHandle)
      ensures err == EspOk ==> joinHandle == NullHandle
    {
      err := RegisterJoin(current);
      if err != EspOk {
        return;
      }
      UnregisterJoin(current);
    }
  }
}
