/** That the pool does not get stuck, and that stopping it comes to an end. */
module PoolStop {
  import opened ThreadPool
  import opened PoolSafety

  /** `m_needStop` is set by one step and `m_running` cleared by another, and by no other. */
  lemma {:induction false} FlagsSetOnce(s: Pool, step: Step)
    requires Enabled(s, step)
    ensures NeedStop(Apply(s, step)) <==> NeedStop(s) || step == SetStop
    ensures IsRunning(Apply(s, step)) <==> IsRunning(s) && step != Halt
  {
  }

  predicate IsWorkerStep(step: Step) {
    step.Loop? || step.Take? || step.StirWorker? || step.Next? || step.Start? || step.Finish?
  }

  /** How many steps a worker may still take once `m_running` is false. */
  function StepsLeft(w: Worker): nat {
    match w
    case Done => 0
    case Looping => 1
    case Batch(_) => 2
    case Running(_, _) => 3
    case Taking => 3
    case Checked(_, _) => 4
    case Sleeping => 4
  }

  function AllStepsLeft(ws: seq<Worker>): nat {
    if ws == [] then 0 else StepsLeft(ws[0]) + AllStepsLeft(ws[1..])
  }

  lemma {:induction false} StepsLeftUpdate(ws: seq<Worker>, i: nat, x: Worker)
    requires i < |ws|
    ensures AllStepsLeft(ws[i := x]) + StepsLeft(ws[i]) == AllStepsLeft(ws) + StepsLeft(x)
    decreases |ws|
  {
    if i > 0 {
      StepsLeftUpdate(ws[1..], i - 1, x);
      assert ws[i := x][1..] == ws[1..][i - 1 := x];
    } else {
      assert ws[i := x][1..] == ws[1..];
    }
  }

  lemma {:induction false} StepsLeftBound(ws: seq<Worker>)
    ensures AllStepsLeft(ws) <= 4 * |ws|
    decreases |ws|
  {
    if ws != [] {
      StepsLeftBound(ws[1..]);
    }
  }

  /** Once `m_running` is false each step of a worker brings it closer to its end
      and no other step undoes that. */
  lemma {:induction false} StepSettles(s: Pool, step: Step)
    requires Enabled(s, step) && !IsRunning(s)
    ensures !IsRunning(Apply(s, step))
    ensures AllStepsLeft(Apply(s, step).workers) + (if IsWorkerStep(step) then 1 else 0) <= AllStepsLeft(s.workers)
  {
    if IsWorkerStep(step) {
      StepsLeftUpdate(s.workers, step.w, Apply(s, step).workers[step.w]);
    }
  }

  function WorkerSteps(steps: seq<Step>): nat {
    if steps == [] then 0 else (if IsWorkerStep(steps[0]) then 1 else 0) + WorkerSteps(steps[1..])
  }

  /** The workers take at most four steps each after `m_running` is false. */
  lemma {:induction false} WorkersSettle(s: Pool, steps: seq<Step>)
    requires IsRun(s, steps) && !IsRunning(s)
    ensures WorkerSteps(steps) + AllStepsLeft(After(s, steps).workers) <= AllStepsLeft(s.workers)
    ensures WorkerSteps(steps) <= 4 * |s.workers|
    decreases |steps|
  {
    StepsLeftBound(s.workers);
    if steps != [] {
      StepSettles(s, steps[0]);
      WorkersSettle(Apply(s, steps[0]), steps[1..]);
    }
  }

  // ----- a step is always possible -----

  /** A step that is not a wake-up without notification. */
  predicate IsProgress(step: Step) {
    !step.StirProducer? && !step.StirWorker?
  }

  ghost predicate CanWork(s: Pool, i: nat) {
    exists step :: IsProgress(step) && IsWorkerStep(step) && step.w == i && Enabled(s, step)
  }

  ghost predicate CanAdd(s: Pool, i: nat) {
    exists wake :: Enabled(s, Add(i, wake))
  }

  lemma {:induction false} WakesAny(ps: seq<Producer>, ws: seq<Worker>) returns (p: Option, w: Option)
    ensures WakesProducer(ps, p) && WakesWorker(ws, w)
  {
    p, w := None, None;
    if AnyBlocked(ps) {
      var i :| 0 <= i < |ps| && ps[i].Blocked?;
      p := Some(i);
    }
    if AnySleeping(ws) {
      var i :| 0 <= i < |ws| && ws[i].Sleeping?;
      w := Some(i);
    }
  }

  /** A worker that is neither asleep nor done can go on. */
  lemma {:induction false} AwakeCanWork(s: Pool, i: nat)
    requires i < |s.workers| && !s.workers[i].Sleeping? && !s.workers[i].Done?
    ensures CanWork(s, i)
  {
    var p, w := WakesAny(s.producers, s.workers);
    var wake := if !NeedStop(s) && s.queue != [] then p else None;
    var step :=
      match s.workers[i]
      case Looping => Loop(i)
      case Taking => Take(i, false, wake)
      case Checked(_, _) => Start(i)
      case Running(_, _) => Finish(i)
      case _ => Next(i);
    assert IsProgress(step) && IsWorkerStep(step) && step.w == i && Enabled(s, step);
  }

  lemma {:induction false} TryingCanAdd(s: Pool, i: nat)
    requires i < |s.producers| && s.producers[i].Trying?
    ensures CanAdd(s, i)
  {
    var p, w := WakesAny(s.producers, s.workers);
    assert Enabled(s, Add(i, if !NeedStop(s) && HasRoom(s) then w else None));
  }

  /** As long as `stop` has not been called, work left over or a caller waiting
      for room means that a worker or a caller can go on by itself. */
  lemma {:induction false} NoDeadlock(s: Pool, capacity: nat, producers: nat, workers: nat)
    requires Reached(s, capacity, producers, workers) && capacity >= 1 && workers >= 1
    requires s.phase.Open? && (s.queue != [] || AnyBlocked(s.producers))
    ensures (exists i :: CanWork(s, i)) || (exists i :: CanAdd(s, i))
  {
    ReachedInv(s, capacity, producers, workers);
    if s.queue != [] {
      var i :| 0 <= i < |s.workers| && !s.workers[i].Sleeping? && !s.workers[i].Done?;
      AwakeCanWork(s, i);
    } else {
      var i :| 0 <= i < |s.producers| && s.producers[i].Trying?;
      TryingCanAdd(s, i);
    }
  }

  /** Once `m_running` is false, either a worker can go on or `join` can return. */
  lemma {:induction false} WorkersCanReturn(s: Pool)
    requires Inv(s) && s.phase.Halted?
    ensures Enabled(s, Join) || exists i :: CanWork(s, i)
  {
    if !Enabled(s, Join) {
      var i :| 0 <= i < |s.workers| && !s.workers[i].Done?;
      assert s.workers[i].Sleeping? ==> AnySleeping(s.workers);
      AwakeCanWork(s, i);
    }
  }

  /** The next step on the way to the end of `stop`: its own, if it can take one. */
  lemma {:induction false} StepToStop(s: Pool) returns (step: Step)
    requires Inv(s) && !s.phase.Joined?
    ensures Enabled(s, step) && IsProgress(step)
    ensures var r := Apply(s, step);
      Rank(r.phase) > Rank(s.phase) || (r.phase == s.phase && AllStepsLeft(r.workers) < AllStepsLeft(s.workers))
  {
    match s.phase
    case Open => step := SetStop;
    case Stopping => step := NotifyProducers;
    case ProducersNotified => step := NotifyWorkers;
    case AllNotified => step := Halt;
    case Halted =>
      WorkersCanReturn(s);
      if Enabled(s, Join) {
        step := Join;
      } else {
        var i :| CanWork(s, i);
        step :| IsProgress(step) && IsWorkerStep(step) && step.w == i && Enabled(s, step);
        StepSettles(s, step);
      }
  }

  /** Whatever the threads are doing, `stop` can run to its end without any
      spurious wake-up. */
  lemma {:induction false} StopCompletes(s: Pool) returns (steps: seq<Step>)
    requires Inv(s)
    ensures IsRun(s, steps) && After(s, steps).phase.Joined?
    ensures forall i :: 0 <= i < |steps| ==> IsProgress(steps[i])
    decreases 5 - Rank(s.phase), AllStepsLeft(s.workers)
  {
    if s.phase.Joined? {
      return [];
    }
    var step := StepToStop(s);
    StepInv(s, step);
    var rest := StopCompletes(Apply(s, step));
    steps := [step] + rest;
    assert steps[1..] == rest;
  }

  /** No caller of `put` stays asleep once the producers have been notified:
      it can return, and its task is refused. */
  lemma {:induction false} CallersReturn(s: Pool, capacity: nat, producers: nat, workers: nat, i: nat)
    requires Reached(s, capacity, producers, workers) && Rank(s.phase) >= 2
    requires i < |s.producers| && !s.producers[i].Idle?
    ensures Enabled(s, Add(i, None))
    ensures var r := Apply(s, Add(i, None));
      r.producers[i].Idle? && r.refused == s.refused + [s.producers[i].task] && r.queue == s.queue
  {
    ReachedInv(s, capacity, producers, workers);
    assert s.producers[i].Blocked? ==> AnyBlocked(s.producers);
  }
}
