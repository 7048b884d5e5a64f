/**
 The evaluation worker `execute_task` (src/bayesian_optimize.py): take a
 task, stop on `None`, run the simulation, and push the negated mean of the
 divergence list as the target. The simulation is an input: for each task,
 `None` when `task_function` caught an exception, or the list it returned.
 */
module Worker {
  import opened Wrappers
  import Canonical
  import Divergence

  /** The value `-np.sum(target) / len(target)` takes. */
  datatype Target = Score(value: real) | NegInfinity | NotANumber

  /** `{"params": params, "target": res}` on the result queue. */
  datatype Observation = Observation(params: Canonical.Dict, target: Target)

  /** A task taken from the queue (`None` is the stop pill) and what evaluating it returns. */
  datatype Job = Job(task: Option<Canonical.Dict>, evaluation: Option<seq<Divergence.Kl>>)

  /** One turn of the worker loop: stop, or evaluate and call `task_done`, maybe pushing a result. */
  datatype Turn = Stop | Acknowledged(pushed: Option<Observation>)

  predicate AnyInfinite(kls: seq<Divergence.Kl>) {
    exists i :: 0 <= i < |kls| && kls[i].Infinite?
  }

  predicate AnyUndefined(kls: seq<Divergence.Kl>) {
    exists i :: 0 <= i < |kls| && kls[i].Undefined?
  }

  /** The sum of the finite entries. */
  function FiniteSum(kls: seq<Divergence.Kl>): real
    decreases |kls|
  {
    if |kls| == 0 then 0.0
    else (if kls[0].Finite? then kls[0].value else 0.0) + FiniteSum(kls[1..])
  }

  /**
   `-np.sum(target) / len(target)`: a `nan` entry makes the sum `nan`; an
   infinite entry (with no `nan`) makes the sum `inf` and the target `-inf`;
   an empty list divides 0.0 by 0, which numpy answers with `nan` (and a
   warning), not an exception.
   */
  function MeanTarget(kls: seq<Divergence.Kl>): (t: Target)
    ensures t.NotANumber? <==> |kls| == 0 || AnyUndefined(kls)
    ensures t.NegInfinity? <==> |kls| > 0 && !AnyUndefined(kls) && AnyInfinite(kls)
    ensures t.Score? ==> t.value * |kls| as real == -FiniteSum(kls)
  {
    if |kls| == 0 then NotANumber
    else if AnyUndefined(kls) then NotANumber
    else if AnyInfinite(kls) then NegInfinity
    else
      var n := |kls| as real;
      assert (-FiniteSum(kls) / n) * n == -FiniteSum(kls);
      Score(-FiniteSum(kls) / n)
  }

  lemma {:induction false} FiniteSumMonotone(a: seq<Divergence.Kl>, b: seq<Divergence.Kl>)
    requires |a| == |b|
    requires forall i :: 0 <= i < |a| ==> a[i].Finite? && b[i].Finite? && a[i].value <= b[i].value
    ensures FiniteSum(a) <= FiniteSum(b)
    decreases |a|
  {
    if |a| > 0 {
      FiniteSumMonotone(a[1..], b[1..]);
    }
  }

  /**
   The optimizer maximizes the target, so a list of divergences that is
   nowhere larger never scores worse.
   */
  lemma MeanTargetAntitone(a: seq<Divergence.Kl>, b: seq<Divergence.Kl>)
    requires |a| == |b| > 0
    requires forall i :: 0 <= i < |a| ==> a[i].Finite? && b[i].Finite? && a[i].value <= b[i].value
    ensures MeanTarget(a).Score? && MeanTarget(b).Score?
    ensures MeanTarget(a).value >= MeanTarget(b).value
  {
    FiniteSumMonotone(a, b);
    var n := |a| as real;
    assert -FiniteSum(a) / n >= -FiniteSum(b) / n;
  }

  /** One turn of `execute_task`'s loop (lines 29-41). */
  function ExecuteTask(job: Job): (turn: Turn)
    ensures turn.Stop? <==> job.task.None?
    ensures turn.Acknowledged? ==> (turn.pushed.Some? <==> job.evaluation.Some?)
    ensures turn.Acknowledged? && turn.pushed.Some? ==>
      turn.pushed.value.params == job.task.value && turn.pushed.value.target == MeanTarget(job.evaluation.value)
  {
    match job.task
    case None => Stop
    case Some(params) =>
      match job.evaluation
      case None => Acknowledged(None)
      case Some(kls) => Acknowledged(Some(Observation(params, MeanTarget(kls))))
  }

  /** Reference: the results pushed for a run of evaluated jobs, in order. */
  function Pushed(jobs: seq<Job>): (r: seq<Observation>)
    decreases |jobs|
  {
    if |jobs| == 0 then []
    else
      var last := jobs[|jobs| - 1];
      Pushed(jobs[..|jobs| - 1])
        + (if last.task.Some? && last.evaluation.Some?
           then [Observation(last.task.value, MeanTarget(last.evaluation.value))] else [])
  }

  /** The number of jobs whose evaluation returned a list. */
  function Successes(jobs: seq<Job>): nat
    decreases |jobs|
  {
    if |jobs| == 0 then 0
    else Successes(jobs[..|jobs| - 1]) + (if jobs[|jobs| - 1].evaluation.Some? then 1 else 0)
  }

  /** `o` is the result job `i` pushes. */
  predicate ResultOf(jobs: seq<Job>, i: int, o: Observation) {
    && 0 <= i < |jobs|
    && jobs[i].evaluation.Some?
    && jobs[i].task == Some(o.params)
    && o.target == MeanTarget(jobs[i].evaluation.value)
  }

  /** Some job of `jobs` pushes `o`. */
  ghost predicate PushedBy(jobs: seq<Job>, o: Observation) {
    exists i :: ResultOf(jobs, i, o)
  }

  /**
   A failed evaluation pushes nothing and a successful one pushes exactly one
   result, carrying the task's own parameters unchanged.
   */
  lemma {:induction false} PushedSpec(jobs: seq<Job>)
    requires forall i :: 0 <= i < |jobs| ==> jobs[i].task.Some?
    ensures |Pushed(jobs)| == Successes(jobs) <= |jobs|
    ensures forall k :: 0 <= k < |Pushed(jobs)| ==> PushedBy(jobs, Pushed(jobs)[k])
    decreases |jobs|
  {
    if |jobs| > 0 {
      var init := jobs[..|jobs| - 1];
      PushedSpec(init);
      var last := jobs[|jobs| - 1];
      var tail := if last.task.Some? && last.evaluation.Some?
                  then [Observation(last.task.value, MeanTarget(last.evaluation.value))] else [];
      assert Pushed(jobs) == Pushed(init) + tail;
      forall k | 0 <= k < |Pushed(jobs)|
        ensures PushedBy(jobs, Pushed(jobs)[k])
      {
        if k < |Pushed(init)| {
          var i :| ResultOf(init, i, Pushed(init)[k]);
          assert jobs[i] == init[i];
          assert ResultOf(jobs, i, Pushed(jobs)[k]);
        } else {
          assert ResultOf(jobs, |jobs| - 1, Pushed(jobs)[k]);
        }
      }
    }
  }

  /**
   ... and in job order: the result of successful job `i` sits right after
   those of the successful jobs before it. Since the positions
   `Successes(jobs[..i])` grow strictly with `i` and there are as many
   results as successes, successful jobs and pushed results match one to one.
   */
  lemma {:induction false} PushedInOrder(jobs: seq<Job>)
    requires forall i :: 0 <= i < |jobs| ==> jobs[i].task.Some?
    ensures forall i :: 0 <= i < |jobs| && jobs[i].evaluation.Some? ==>
      Successes(jobs[..i]) < |Pushed(jobs)| && ResultOf(jobs, i, Pushed(jobs)[Successes(jobs[..i])])
    decreases |jobs|
  {
    if |jobs| > 0 {
      var n := |jobs| - 1;
      var init := jobs[..n];
      PushedInOrder(init);
      PushedSpec(init);
      assert jobs[..n] == init;
      forall i | 0 <= i < |jobs| && jobs[i].evaluation.Some?
        ensures Successes(jobs[..i]) < |Pushed(jobs)| && ResultOf(jobs, i, Pushed(jobs)[Successes(jobs[..i])])
      {
        if i < n {
          assert jobs[..i] == init[..i];
          assert jobs[i] == init[i];
        }
      }
    }
  }

  /**
   The worker loop over the tasks it takes: it stops at the first `None`
   without evaluating it, calls `task_done` once for every task it evaluated,
   and pushes the results of the successful evaluations in order.
   */
  method RunWorker(jobs: seq<Job>) returns (pushed: seq<Observation>, acknowledged: nat, stopped: bool)
    ensures acknowledged <= |jobs|
    ensures forall i :: 0 <= i < acknowledged ==> jobs[i].task.Some?
    ensures stopped <==> acknowledged < |jobs|
    ensures stopped ==> jobs[acknowledged].task.None?
    ensures pushed == Pushed(jobs[..acknowledged])
  {
    pushed, acknowledged, stopped := [], 0, false;
    while acknowledged < |jobs|
      invariant acknowledged <= |jobs|
      invariant forall i :: 0 <= i < acknowledged ==> jobs[i].task.Some?
      invariant pushed == Pushed(jobs[..acknowledged])
    {
      var turn := ExecuteTask(jobs[acknowledged]);
      if turn.Stop? {
        stopped := true;
        return;
      }
      if turn.pushed.Some? {
        pushed := pushed + [turn.pushed.value];
      }
      assert jobs[..acknowledged + 1][..acknowledged] == jobs[..acknowledged];
      acknowledged := acknowledged + 1;
    }
  }
}
