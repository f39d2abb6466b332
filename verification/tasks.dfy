/**
 * `parallel_processing`: every task is handed to one of the worker threads through a
 * channel; each worker keeps the errors of the tasks it ran, and the workers' lists are
 * joined in spawn order.  The threads are replaced by a schedule saying which worker took
 * which task; the result does not depend on it beyond the order of the errors.
 */
module Tasks {
  import opened Wrappers

  type Pos = n: nat | n >= 1 witness 1

  /** What one task returned: `Ok(())` or `Err(message)`. */
  datatype Outcome<+E> = Done | Failed(error: E)

  /** Which of `workers` threads received task `i` from the channel: `owner(i) % workers`. */
  datatype Schedule = Schedule(workers: Pos, owner: nat -> nat)

  function WorkerOf(s: Schedule, i: nat): (w: nat)
    ensures w < s.workers
  {
    s.owner(i) % s.workers
  }

  /** `available_parallelism().map(|n| n.get()).unwrap_or(1)`. */
  function WorkerCount(available: Option<Pos>): (n: Pos)
    ensures available.Some? ==> n == available.value
    ensures available.None? ==> n == 1
  {
    available.GetOr(1)
  }

  /** The errors of the failing tasks, in task order: the sequential reading of the aggregation. */
  function Failures<E>(outs: seq<Outcome<E>>): (errs: seq<E>)
    ensures |errs| <= |outs|
    ensures forall e :: e in errs ==> Failed(e) in outs
  {
    if |outs| == 0 then []
    else
      var last := outs[|outs| - 1];
      Failures(outs[..|outs| - 1]) + (if last.Failed? then [last.error] else [])
  }

  /** The error list worker `w` returns when joined: its failing tasks, in the order it received them. */
  function WorkerErrors<E>(outs: seq<Outcome<E>>, s: Schedule, w: nat): seq<E> {
    if |outs| == 0 then []
    else
      var last := outs[|outs| - 1];
      WorkerErrors(outs[..|outs| - 1], s, w)
        + (if last.Failed? && WorkerOf(s, |outs| - 1) == w then [last.error] else [])
  }

  /** The errors of the first `n` workers, joined in spawn order. */
  function Gather<E>(outs: seq<Outcome<E>>, s: Schedule, n: nat): seq<E> {
    if n == 0 then [] else Gather(outs, s, n - 1) + WorkerErrors(outs, s, n - 1)
  }

  /** `Ok(())` when the joined error list is empty, else `Err` of it. */
  function Collect<E>(outs: seq<Outcome<E>>, s: Schedule): Result<(), seq<E>> {
    var errors := Gather(outs, s, s.workers);
    if |errors| == 0 then Success(()) else Failure(errors)
  }

  /** Every task is applied once, to produce its outcome. */
  function Apply<T, E>(tasks: seq<T>, f: T -> Outcome<E>): (outs: seq<Outcome<E>>)
    ensures |outs| == |tasks|
    ensures forall i :: 0 <= i < |tasks| ==> outs[i] == f(tasks[i])
  {
    seq(|tasks|, i requires 0 <= i < |tasks| => f(tasks[i]))
  }

  function ParallelProcessing<T, E>(tasks: seq<T>, f: T -> Outcome<E>, s: Schedule): Result<(), seq<E>> {
    Collect(Apply(tasks, f), s)
  }

  // ---------------------------------------------------------------------------------------

  /** The failures of tasks taken by a worker numbered below `n`. */
  function OwnedBelow<E>(outs: seq<Outcome<E>>, s: Schedule, n: nat): seq<E> {
    if |outs| == 0 then []
    else
      var last := outs[|outs| - 1];
      OwnedBelow(outs[..|outs| - 1], s, n)
        + (if last.Failed? && WorkerOf(s, |outs| - 1) < n then [last.error] else [])
  }

  lemma {:induction false} OwnedBelowStep<E>(outs: seq<Outcome<E>>, s: Schedule, n: nat)
    requires n > 0
    ensures multiset(OwnedBelow(outs, s, n))
         == multiset(OwnedBelow(outs, s, n - 1)) + multiset(WorkerErrors(outs, s, n - 1))
    decreases |outs|
  {
    if |outs| > 0 {
      OwnedBelowStep(outs[..|outs| - 1], s, n);
    }
  }

  lemma {:induction false} GatherOwnedBelow<E>(outs: seq<Outcome<E>>, s: Schedule, n: nat)
    ensures multiset(Gather(outs, s, n)) == multiset(OwnedBelow(outs, s, n))
    decreases n
  {
    if n == 0 {
      NoneOwnedBelowZero(outs, s);
    } else {
      GatherOwnedBelow(outs, s, n - 1);
      GatherOwnedBelowStep(outs, s, n);
    }
  }

  lemma GatherOwnedBelowStep<E>(outs: seq<Outcome<E>>, s: Schedule, n: nat)
    requires n > 0 && multiset(Gather(outs, s, n - 1)) == multiset(OwnedBelow(outs, s, n - 1))
    ensures multiset(Gather(outs, s, n)) == multiset(OwnedBelow(outs, s, n))
  {
    var w := multiset(WorkerErrors(outs, s, n - 1));
    calc {
      multiset(Gather(outs, s, n));
      { GatherStep(outs, s, n); }
      multiset(Gather(outs, s, n - 1)) + w;
      multiset(OwnedBelow(outs, s, n - 1)) + w;
      { OwnedBelowStep(outs, s, n); }
      multiset(OwnedBelow(outs, s, n));
    }
  }

  lemma GatherStep<E>(outs: seq<Outcome<E>>, s: Schedule, n: nat)
    requires n > 0
    ensures multiset(Gather(outs, s, n)) == multiset(Gather(outs, s, n - 1)) + multiset(WorkerErrors(outs, s, n - 1))
  {
    assert Gather(outs, s, n) == Gather(outs, s, n - 1) + WorkerErrors(outs, s, n - 1);
  }

  lemma {:induction false} NoneOwnedBelowZero<E>(outs: seq<Outcome<E>>, s: Schedule)
    ensures OwnedBelow(outs, s, 0) == []
    decreases |outs|
  {
    if |outs| > 0 {
      NoneOwnedBelowZero(outs[..|outs| - 1], s);
    }
  }

  lemma {:induction false} OwnedBelowAll<E>(outs: seq<Outcome<E>>, s: Schedule)
    ensures OwnedBelow(outs, s, s.workers) == Failures(outs)
    decreases |outs|
  {
    if |outs| > 0 {
      OwnedBelowAll(outs[..|outs| - 1], s);
    }
  }

  /** There are no failures exactly when every task is done. */
  lemma {:induction false} FailuresEmpty<E>(outs: seq<Outcome<E>>)
    ensures |Failures(outs)| == 0 <==> forall i :: 0 <= i < |outs| ==> outs[i].Done?
    decreases |outs|
  {
    if |outs| > 0 {
      var front := outs[..|outs| - 1];
      FailuresEmpty(front);
      assert forall i :: 0 <= i < |front| ==> front[i] == outs[i];
    }
  }

  /**
   * Whatever the schedule and worker count: the result is `Ok` exactly when no task failed,
   * and otherwise the error list holds one error per failing task (as a multiset).
   */
  lemma CollectSound<E>(outs: seq<Outcome<E>>, s: Schedule)
    ensures Collect(outs, s).Success? <==> forall i :: 0 <= i < |outs| ==> outs[i].Done?
    ensures Collect(outs, s).Failure? ==> multiset(Collect(outs, s).error) == multiset(Failures(outs))
  {
    GatherOwnedBelow(outs, s, s.workers);
    OwnedBelowAll(outs, s);
    FailuresEmpty(outs);
    assert |Gather(outs, s, s.workers)| == |multiset(Gather(outs, s, s.workers))|;
    assert |Failures(outs)| == |multiset(Failures(outs))|;
  }

  /** Two schedules, with any worker counts, give the same verdict and the same errors. */
  lemma ScheduleIndependent<T, E>(tasks: seq<T>, f: T -> Outcome<E>, s1: Schedule, s2: Schedule)
    ensures ParallelProcessing(tasks, f, s1).Success? == ParallelProcessing(tasks, f, s2).Success?
    ensures ParallelProcessing(tasks, f, s1).Failure? ==>
      multiset(ParallelProcessing(tasks, f, s1).error) == multiset(ParallelProcessing(tasks, f, s2).error)
  {
    CollectSound(Apply(tasks, f), s1);
    CollectSound(Apply(tasks, f), s2);
  }

  /** With one worker the errors come back in task order. */
  lemma {:induction false} SingleWorkerInOrder<E>(outs: seq<Outcome<E>>, s: Schedule)
    requires s.workers == 1
    ensures Gather(outs, s, 1) == Failures(outs)
    decreases |outs|
  {
    if |outs| > 0 {
      SingleWorkerInOrder(outs[..|outs| - 1], s);
      assert WorkerOf(s, |outs| - 1) == 0;
    }
  }
}
