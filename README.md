# Contention benchmark core, modelled in Dafny

This project models the sequential logic inside a FreeRTOS contention
benchmark: N worker tasks take turns, under a lock, incrementing a shared job
counter up to a ceiling of 10000.

- `job.dfy` (module `CptJob`) models the job (`cpt_job`). It is a counter that
  `cpt_job_run` increments while it is below the ceiling. Past the ceiling,
  `cpt_job_run` reports `DONE` and leaves the counter alone. The job is a
  class whose counter is updated in place. `StatusOf`, `Step` and `Runs` are
  the pure counterparts used in the proofs.
- `preempt.dfy` (module `CptPreempt`) models the sequential skeleton of the
  preemptive coordinator (`cpt_preempt`). The class `Preempt` holds the
  fixed-size slot array (an `array` of `TaskRecord`) and the other struct
  fields. It models:
  - init and uninit, and which foreign resources they delete;
  - the slot lookup a worker performs when it starts;
  - the arrival counter that signals the controller once all workers are in;
  - the worker loop;
  - the resume loop;
  - the single-registrant join slot.

  The worker loops are run as a serialised interleaving: a `schedule` of
  worker indices picks which worker performs the next atomic iteration. The
  pure `World`/`RunSchedule` model and the `Accounting` invariant state what
  every such interleaving preserves.
- `time.dfy` (module `CptUtils`) models the arithmetic of
  `cpt_get_current_time_ms`. It takes a `(seconds, microseconds)` reading and
  returns whole milliseconds, using C's truncating division and the
  conversion to `uint64_t`.

Model conventions:
- Task handles and semaphore handles are naturals, and 0 stands for NULL, so
  zeroing the struct is literal.
- Creating the job lock and creating each worker are inputs. A NULL handle
  means that creation failed.
- Scheduler calls that act outside the struct are returned as a sequence of
  `Effect`s: `vTaskDelete`, `vSemaphoreDelete` and `xTaskNotifyGive`. The
  handles passed to `vTaskResume` are returned as a sequence too.
- `CPT_TASK_COUNT` is the constant `n` of a coordinator, with
  `1 <= n < 128`. The bound holds because the slot index is an `int8_t` that
  uses -1 as its "not found" value.

Behaviour of the code worth noting:
- A worker bumps its own counter on every iteration, including the last one,
  which saw `DONE`. So with one worker, the worker's counter ends at 10000 + 1
  (`SingleWorkerIterations`). Once all N workers have left their loops, the
  counters sum to exactly 10000 + N (`AllExitedSum`).
- A failed semaphore or task creation in `cpt_preempt_init` returns
  `ESP_ERR_INVALID_STATE`.
- A worker that finds no slot logs an error and returns; nothing in the
  struct changes.
- The controller learns that every worker has arrived through `join_counter`
  and `join_handle`: the last arrival notifies the registered handle. The
  worker loop neither yields nor publishes a completion state.

## Model

| member | source | states |
|---|---|---|
| `CptJob.StatusOf` | lib/cpt_job/cpt_job.c:55-63 | the status is NOT_DONE exactly when the counter is below 10000, and DONE exactly when it is at or past it |
| `CptJob.Step` | lib/cpt_job/cpt_job.c:44-53 | one run returns the status seen before the call; the counter grows by exactly 1 when that status is NOT_DONE and is unchanged otherwise; a counter within the ceiling stays within it |
| `CptJob.Runs` | lib/cpt_job/cpt_job.c:44-53 | k consecutive runs return exactly k statuses |
| `CptJob.RunsFrom` | lib/cpt_job/cpt_job.c:44-63 | k runs from a counter c <= 10000 leave min(c + k, 10000), and run j returns NOT_DONE iff c + j < 10000 |
| `CptJob.RunsNeverExceedCeiling` | lib/cpt_job/cpt_job.c:30-53 | starting from init, no number of runs takes the counter past 10000 |
| `CptJob.RunsFromZero` | lib/cpt_job/cpt_job.c:44-63 | from 0, exactly the first 10000 runs return NOT_DONE and every later run returns DONE |
| `CptJob.RunsPastCeiling` | lib/cpt_job/cpt_job.c:44-53 | at or past the ceiling, repeated runs are idempotent: the counter is unchanged and every run returns DONE |
| `CptJob.Job.constructor` | src/main.c:35 | storage for a job that holds an arbitrary counter until init |
| `CptJob.Job.Init` | lib/cpt_job/cpt_job.c:32-36 | after init the counter is 0 |
| `CptJob.Job.Uninit` | lib/cpt_job/cpt_job.c:38-41 | uninit changes nothing |
| `CptJob.Job.GetStatus` | lib/cpt_job/cpt_job.c:55-63 | reads the job without changing it; NOT_DONE iff counter < 10000 |
| `CptJob.Job.Run` | lib/cpt_job/cpt_job.c:44-53 | the returned status equals get_status before the call; the new counter is given by Step |
| `CptPreempt.TaskDeletions` | lib/cpt_preempt/cpt_preempt.c:95-101 | at most one deletion per slot (defined as one `vTaskDelete` per non-NULL slot, in slot order; what is deleted is stated by `TaskDeletionsExact`) |
| `CptPreempt.LockDeletion` | lib/cpt_preempt/cpt_preempt.c:103-106 | at most one deletion: the job lock's, exactly when the lock is non-NULL |
| `CptPreempt.TaskDeletionsExact` | lib/cpt_preempt/cpt_preempt.c:95-101 | uninit deletes a task handle iff it is non-NULL and held by some slot, and deletes nothing else |
| `CptPreempt.EmptySlotsDeleteNothing` | lib/cpt_preempt/cpt_preempt.c:95-108 | on a zeroed slot array uninit deletes no task, so a second uninit deletes nothing |
| `CptPreempt.CreatedPrefix` | lib/cpt_preempt/cpt_preempt.c:69-79 | the handles init stores are the prefix of the creation results before the first failure, all non-NULL |
| `CptPreempt.CreatedPrefixAt` | lib/cpt_preempt/cpt_preempt.c:69-79 | the stored prefix ends exactly at the first failed creation |
| `CptPreempt.SlotsAfterSpawn` | lib/cpt_preempt/cpt_preempt.c:60-79 | the slot array init builds has one slot per worker: slot i holds the i-th created task with a zero counter while i is within the created prefix, and is zeroed after it |
| `CptPreempt.CreatedSlotsDeletion` | lib/cpt_preempt/cpt_preempt.c:83-101 | a slot array holding the created handles followed by NULL slots makes uninit delete exactly those tasks, in order |
| `CptPreempt.ArrivalSignals` | lib/cpt_preempt/cpt_preempt.c:149 | one signal flag per serialised arrival |
| `CptPreempt.ArrivalSignalsAt` | lib/cpt_preempt/cpt_preempt.c:149 | arrival j signals iff its fetch-add returned N - 1 |
| `CptPreempt.OnlyLastArrivalSignals` | lib/cpt_preempt/cpt_preempt.c:149-154 | of N arrivals from a zero join counter, exactly one signals: the N-th |
| `CptPreempt.Iteration` | lib/cpt_preempt/cpt_preempt.c:162-170 | one worker iteration: the job counter below the ceiling grows by 1 and never shrinks; the worker's own counter grows by 1; it leaves its loop iff the job counter was at the ceiling; every other worker is untouched |
| `CptPreempt.ScheduleStep` | lib/cpt_preempt/cpt_preempt.c:162-170 | a scheduled step never lowers the job counter, and a worker that has left its loop stays out with its counter unchanged |
| `CptPreempt.RunSchedule` | lib/cpt_preempt/cpt_preempt.c:162-170 | a serialised interleaving keeps the number of workers, never lowers the job counter, and leaves a worker that has left its loop out of it with its counter unchanged |
| `CptPreempt.InitialAccounting` | lib/cpt_preempt/cpt_preempt.c:162-170 | freshly started workers with the job at 0 satisfy the accounting invariant |
| `CptPreempt.IterationKeepsAccounting` | lib/cpt_preempt/cpt_preempt.c:162-170 | one iteration of a running worker preserves: sum of counters == job counter + exited workers, job counter <= 10000, any exit implies the job counter is 10000, and each worker's counter is at most the job counter (plus 1 once it has exited) |
| `CptPreempt.ScheduleKeepsAccounting` | lib/cpt_preempt/cpt_preempt.c:162-170 | every serialised interleaving of iterations preserves the accounting invariant |
| `CptPreempt.AccountingBounds` | lib/cpt_preempt/cpt_preempt.c:162-170 | job counter <= sum of per-task counters <= job counter + N, and each per-task counter is at most 10000 + 1 |
| `CptPreempt.AllExitedSum` | lib/cpt_preempt/cpt_preempt.c:162-170 | once all N workers have exited, the job counter is 10000 and the per-task counters sum to 10000 + N |
| `CptPreempt.SingleWorkerIterations` | lib/cpt_preempt/cpt_preempt.c:162-170 | with one worker, its counter ends at 10000 + 1 |
| `CptPreempt.Preempt.constructor` | lib/cpt_preempt/cpt_preempt.h:41-47 | storage for a coordinator: N slots, everything zeroed |
| `CptPreempt.Preempt.Zero` | lib/cpt_preempt/cpt_preempt.c:108 | the whole struct is zeroed, every slot included |
| `CptPreempt.Preempt.Init` | lib/cpt_preempt/cpt_preempt.c:58-90 | success iff the lock and every task are created, in which case the slots hold the new handles with zero counters; on failure it returns INVALID_STATE, the struct is zeroed, and exactly the created tasks and then the lock are deleted (nothing if the lock failed) |
| `CptPreempt.Preempt.Uninit` | lib/cpt_preempt/cpt_preempt.c:92-109 | deletes exactly the non-NULL slot handles in order, then the lock only if non-NULL; leaves the struct zeroed; deletes nothing when already zeroed |
| `CptPreempt.Preempt.GetCurrentTaskIndex` | lib/cpt_preempt/cpt_preempt.c:112-130 | returns the smallest slot index holding the current handle, or -1 iff no slot holds it; changes nothing |
| `CptPreempt.Preempt.TaskStart` | lib/cpt_preempt/cpt_preempt.c:135-154 | a task with index -1 changes nothing; otherwise the join counter grows by 1, and the task notifies the join handle iff its fetch-add saw N - 1 |
| `CptPreempt.Preempt.ArriveInOrder` | lib/cpt_preempt/cpt_preempt.c:149-154 | serialised arrivals advance the join counter by their number and signal as ArrivalSignals says |
| `CptPreempt.Preempt.WorkerIteration` | lib/cpt_preempt/cpt_preempt.c:162-170 | one job run per iteration; only this task's counter grows, by exactly 1; the loop ends iff the run returned DONE |
| `CptPreempt.Preempt.RunWorkers` | lib/cpt_preempt/cpt_preempt.c:162-170 | the state after the interleaving is RunSchedule of the state before; the slot handles are unchanged; the accounting invariant is preserved |
| `CptPreempt.Preempt.ResumeTasks` | lib/cpt_preempt/cpt_preempt.c:206-212 | INVALID_STATE iff some slot is NULL, after resuming exactly the slots before the first NULL one; otherwise it resumes every slot in order and returns OK |
| `CptPreempt.Preempt.RegisterJoin` | lib/cpt_preempt/cpt_preempt.c:41-44 | fails with INVALID_STATE, leaving the slot unchanged, iff a handle is already registered; otherwise stores the caller's handle |
| `CptPreempt.Preempt.UnregisterJoin` | lib/cpt_preempt/cpt_preempt.c:47 | clears the join slot only if it still holds the caller's own handle |
| `CptPreempt.Preempt.WaitForJoin` | lib/cpt_preempt/cpt_preempt.c:39-50 | a second registrant gets INVALID_STATE and the slot is unchanged; a successful wait leaves the slot empty |
| `CptUtils.TruncDiv` | lib/cpt_utils/cpt_utils.c:42 | C division: truncates toward zero, and the remainder keeps the dividend's sign and is smaller than the divisor |
| `CptUtils.TimeMs` | lib/cpt_utils/cpt_utils.c:42 | the value is sec * 1000 plus usec truncated toward zero to whole milliseconds: within 1000 microseconds of usec, on usec's side of zero |
| `CptUtils.CurrentTimeMs` | lib/cpt_utils/cpt_utils.c:38-43 | the result is a uint64_t, and equals sec * 1000 + usec / 1000 whenever that value fits (assuming the signed expression `tv_sec * 1000 + tv_usec / 1000`, the product or the sum, does not overflow; see "Left out") |
| `CptUtils.SubMillisecondIgnored` | lib/cpt_utils/cpt_utils.c:42 | for 0 <= usec < 1000 the microseconds contribute nothing |
| `CptUtils.SecondsRecovered` | lib/cpt_utils/cpt_utils.c:42 | for normalised usec the microsecond term is in [0, 999], so TimeMs / 1000 (rounded down) == sec; for sec >= 0 and no wrap-around, the returned uint64_t divided by 1000 is sec |
| `CptUtils.TimeMsIsFloorOfMicroseconds` | lib/cpt_utils/cpt_utils.c:42 | for normalised readings the result is the total microseconds divided by 1000, rounded down |
| `CptUtils.TimeMsMonotone` | lib/cpt_utils/cpt_utils.c:42 | a lexicographically later normalised reading never gives a smaller result |
| `CptUtils.ElapsedNonNegative` | lib/cpt_utils/cpt_utils.c:42 | for ordered normalised readings within range, the uint64_t difference end - start is non-negative and is the true difference |

## Left out

- Real concurrency. What task creation and deletion, suspension and
  resumption, semaphores and task notifications do to the scheduler is not
  modelled. The model only takes creation results as inputs and records which
  deletions, resumes and notifications are made and with which handles. The
  memory ordering of the C11 atomics is not modelled. The job lock appears
  only as "iterations are serialised", and nothing is claimed about
  preemption.
- The spin loop of `cpt_preempt_run_job` that polls until every worker reports
  suspended. It depends on task states reported by the scheduler.
- The blocking wait inside `cpt_preempt_wait_for_join`. `WaitForJoin` takes
  the wait as returning at once. The race in which the last arrival notifies
  before the controller registers is visible but not analysed:
  `TaskStart` then returns a `NotifyGive` of the NULL handle.
- `cpt_preempt_run_job` as a whole. Only its resume loop (`ResumeTasks`)
  and its join (`WaitForJoin`) are modelled.
- `cpt_preempt_wait_for_time`. Its body is commented out and it always
  returns OK.
- The task-name formatting, stack size, priority and core pinning passed to
  task creation. They are configuration of foreign calls.
- The coordinator state enum (`cpt_state`). No shown code implements its
  transitions, and `cpt_wait_for_state_change` is defined by no file shown.
- `gettimeofday`, and the memory and task statistics logging of the utilities
  file. These are I/O and floating point.
- The cooperative variant, which is all stubs, and the driver `app_main`.
- `Preempt.constructor`: the C struct is uninitialised stack storage, but the
  model starts it zeroed, because `cpt_preempt_init` zeroes it before any use.
- Integer widths of the counters. The job counter (`unsigned long long`) only
  grows below 10000. Under `Accounting`, each per-task counter
  (`unsigned long`) is at most 10000 + 1 (`AccountingBounds`), so neither can
  wrap from a freshly initialised state. Both are modelled as unbounded naturals. The type
  of `join_counter` is not shown and is modelled as a natural.
- `CurrentTimeMs`: overflow of the signed expression
  `tv_sec * 1000 + tv_usec / 1000`, the product or the sum, at whatever width
  `time_t` and `suseconds_t` have, is not modelled. It is undefined in C. No
  file shown fixes those widths. With a 32-bit `time_t`, the product overflows
  once `tv_sec` exceeds 2147483, and the sum can overflow even when the
  product does not (sec = 2147483, usec = 700000 gives 2147483700). The model
  computes the value exactly and then reduces it modulo 2^64 for the
  `uint64_t` return. So its equality with sec * 1000 + usec / 1000 holds only
  while neither the product nor the sum overflows.
