/**
 The shared job of the contention benchmark: a counter that a step operation
 increments until it reaches a fixed ceiling, after which every step reports
 completion and leaves the counter alone. The step is not reentrant; callers
 serialise it (the coordinator does so under its job lock).
 */
module CptJob {

  /** The ceiling CPT_JOB_MAX_COUNT. */
  const MaxCount: nat := 10000

  datatype JobStatus = NotDone | Done

  /** cpt_job_get_status as a function of the counter value. */
  function StatusOf(counter: nat): (s: JobStatus)
    ensures s == NotDone <==> counter < MaxCount
    ensures s == Done <==> counter >= MaxCount
  {
    if counter < MaxCount then NotDone else Done
  }

  /**
   The effect of one cpt_job_run on a counter value: the counter afterwards and
   the status returned. The status is the one observed before the call, and the
   counter moves by one exactly when that status is NotDone.
   */
  function Step(counter: nat): (r: (nat, JobStatus))
    ensures r.1 == StatusOf(counter)
    ensures r.0 == (if r.1 == NotDone then counter + 1 else counter)
    ensures counter <= MaxCount ==> r.0 <= MaxCount
  {
    if StatusOf(counter) == NotDone then (counter + 1, NotDone) else (counter, Done)
  }

  /** The counter after, and the statuses returned by, `k` consecutive runs from `counter`. */
  function Runs(counter: nat, k: nat): (r: (nat, seq<JobStatus>))
    ensures |r.1| == k
    decreases k
  {
    if k == 0 then (counter, [])
    else
      var (c, st) := Step(counter);
      var (c', sts) := Runs(c, k - 1);
      (c', [st] + sts)
  }

  function Min(a: nat, b: nat): nat { if a <= b then a else b }

  /**
   From any counter at or below the ceiling, `k` runs leave the counter at
   min(counter + k, MaxCount), and run number j (from 0) reports NotDone exactly
   when counter + j is still below the ceiling.
   */
  lemma {:induction false} RunsFrom(counter: nat, k: nat)
    requires counter <= MaxCount
    ensures Runs(counter, k).0 == Min(counter + k, MaxCount)
    ensures forall j :: 0 <= j < k ==>
              Runs(counter, k).1[j] == (if counter + j < MaxCount then NotDone else Done)
    decreases k
  {
    if k > 0 {
      var c := Step(counter).0;
      RunsFrom(c, k - 1);
      var sts := Runs(counter, k).1;
      assert sts == [Step(counter).1] + Runs(c, k - 1).1;
      forall j | 0 <= j < k
        ensures sts[j] == (if counter + j < MaxCount then NotDone else Done)
      {
        if j > 0 {
          assert sts[j] == Runs(c, k - 1).1[j - 1];
          if counter < MaxCount {
            assert c == counter + 1;
          } else {
            assert c == counter;
          }
        }
      }
    }
  }

  /** Starting from the initial counter, no sequence of runs exceeds the ceiling. */
  lemma RunsNeverExceedCeiling(k: nat)
    ensures Runs(0, k).0 <= MaxCount
  {
    RunsFrom(0, k);
  }

  /**
   From 0, exactly MaxCount runs report NotDone, followed only by Done: run j
   reports NotDone iff j < MaxCount.
   */
  lemma RunsFromZero(k: nat)
    ensures Runs(0, k).0 == Min(k, MaxCount)
    ensures forall j :: 0 <= j < k ==> (Runs(0, k).1[j] == NotDone <==> j < MaxCount)
  {
    RunsFrom(0, k);
  }

  /** Past the ceiling, runs are idempotent: the counter stays and every run reports Done. */
  lemma {:induction false} RunsPastCeiling(counter: nat, k: nat)
    requires counter >= MaxCount
    ensures Runs(counter, k).0 == counter
    ensures forall j :: 0 <= j < k ==> Runs(counter, k).1[j] == Done
    decreases k
  {
    if k > 0 {
      RunsPastCeiling(counter, k - 1);
      assert Runs(counter, k).1 == [Done] + Runs(counter, k - 1).1;
    }
  }

  /** The job object, cpt_job; its counter is updated in place through a pointer. */
  class Job {
    var counter: nat

    /** Storage for a job holding whatever it held; cpt_job_init gives it its defined state. */
    constructor (initial: nat)
      ensures counter == initial
    {
      counter := initial;
    }

    /** cpt_job_init: the whole struct is zeroed (it always reports ESP_OK). */
    method Init()
      modifies this
      ensures counter == 0
    {
      counter := 0;
    }

    /** cpt_job_uninit: does nothing. */
    method Uninit()
      ensures unchanged(this)
    {
    }

    /** cpt_job_get_status: a pure predicate on the counter. */
    function GetStatus(): (s: JobStatus)
      reads this
      ensures s == NotDone <==> counter < MaxCount
    {
      StatusOf(counter)
    }

    /**
     cpt_job_run: returns the status seen before the call, and increments the
     counter exactly when that status was NotDone.
     */
    method Run() returns (status: JobStatus)
      modifies this
      ensures status == old(GetStatus())
      ensures (counter, status) == Step(old(counter))
      ensures old(counter) <= MaxCount ==> counter <= MaxCount
    {
      if GetStatus() == NotDone {
        counter := counter + 1;
        return NotDone;
      }
      return Done;
    }
  }
}
