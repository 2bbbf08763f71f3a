/** That an open pool works off everything submitted to it, however its threads
    are scheduled, as long as they go on. */
module PoolDrain {
  import opened ThreadPool
  import opened PoolSafety
  import opened PoolStop

  /** A step of a caller or a worker that is neither a new submission nor a
      wake-up without notification. */
  predicate IsDrainStep(step: Step) {
    step.Add? || step.Loop? || step.Take? || step.Next? || step.Start? || step.Finish?
  }

  /** Nobody can go on by itself. */
  ghost predicate Quiet(s: Pool) {
    forall step :: IsDrainStep(step) ==> !Enabled(s, step)
  }

  // ----- how much there is left to do -----

  function ProducerLoad(p: Producer): nat {
    match p
    case Idle => 0
    case Blocked(_) => 8
    case Trying(_) => 9
  }

  function WorkerLoad(w: Worker): nat {
    match w
    case Sleeping => 0
    case Taking => 1
    case Looping => 2
    case Batch(rest) => 3 + 3 * |rest|
    case Running(_, rest) => 4 + 3 * |rest|
    case Checked(_, rest) => 5 + 3 * |rest|
    case Done => 0
  }

  function ProducersLoad(ps: seq<Producer>): nat {
    if ps == [] then 0 else ProducerLoad(ps[0]) + ProducersLoad(ps[1..])
  }

  function WorkersLoad(ws: seq<Worker>): nat {
    if ws == [] then 0 else WorkerLoad(ws[0]) + WorkersLoad(ws[1..])
  }

  function Load(s: Pool): nat {
    ProducersLoad(s.producers) + 7 * |s.queue| + WorkersLoad(s.workers)
  }

  lemma {:induction false} ProducersLoadUpdate(ps: seq<Producer>, i: nat, x: Producer)
    requires i < |ps|
    ensures ProducersLoad(ps[i := x]) + ProducerLoad(ps[i]) == ProducersLoad(ps) + ProducerLoad(x)
    decreases |ps|
  {
    if i > 0 {
      ProducersLoadUpdate(ps[1..], i - 1, x);
      assert ps[i := x][1..] == ps[1..][i - 1 := x];
    } else {
      assert ps[i := x][1..] == ps[1..];
    }
  }

  lemma {:induction false} WorkersLoadUpdate(ws: seq<Worker>, i: nat, x: Worker)
    requires i < |ws|
    ensures WorkersLoad(ws[i := x]) + WorkerLoad(ws[i]) == WorkersLoad(ws) + WorkerLoad(x)
    decreases |ws|
  {
    if i > 0 {
      WorkersLoadUpdate(ws[1..], i - 1, x);
      assert ws[i := x][1..] == ws[1..][i - 1 := x];
    } else {
      assert ws[i := x][1..] == ws[1..];
    }
  }

  lemma {:induction false} NotifyLoads(ps: seq<Producer>, ws: seq<Worker>, wake: Option)
    ensures WakesProducer(ps, wake) ==> ProducersLoad(NotifyProducer(ps, wake)) <= ProducersLoad(ps) + 1
    ensures WakesWorker(ws, wake) ==> WorkersLoad(NotifyWorker(ws, wake)) <= WorkersLoad(ws) + 1
  {
    if WakesProducer(ps, wake) && wake.Some? {
      ProducersLoadUpdate(ps, wake.index, Trying(ps[wake.index].task));
    }
    if WakesWorker(ws, wake) && wake.Some? {
      WorkersLoadUpdate(ws, wake.index, Taking);
    }
  }

  lemma {:induction false} AddUnloads(s: Pool, p: nat, wake: Option)
    requires s.phase.Open? && Enabled(s, Add(p, wake))
    ensures Load(StepAdd(s, p, wake)) < Load(s)
  {
    var x := s.producers[p].task;
    if HasRoom(s) {
      ProducersLoadUpdate(s.producers, p, Idle);
      NotifyLoads(s.producers, s.workers, wake);
    } else {
      ProducersLoadUpdate(s.producers, p, Blocked(x));
    }
  }

  lemma {:induction false} TakeUnloads(s: Pool, w: nat, one: bool, wake: Option)
    requires s.phase.Open? && Enabled(s, Take(w, one, wake))
    ensures Load(StepTake(s, w, one, wake)) < Load(s)
  {
    WorkersLoadUpdate(s.workers, w, StepTake(s, w, one, wake).workers[w]);
    if s.queue != [] {
      NotifyLoads(s.producers, s.workers, wake);
    }
  }

  /** Every step that is not a submission or a spurious wake-up gets nearer to the end. */
  lemma {:induction false} StepUnloads(s: Pool, step: Step)
    requires s.phase.Open? && IsDrainStep(step) && Enabled(s, step)
    ensures Apply(s, step).phase.Open? && Apply(s, step).submitted == s.submitted
    ensures Load(Apply(s, step)) < Load(s)
  {
    if step.Add? {
      AddUnloads(s, step.p, step.wake);
    } else if step.Take? {
      TakeUnloads(s, step.w, step.one, step.wake);
    } else {
      WorkersLoadUpdate(s.workers, step.w, Apply(s, step).workers[step.w]);
    }
  }

  lemma {:induction false} RunUnloads(s: Pool, steps: seq<Step>)
    requires s.phase.Open? && IsRun(s, steps) && forall i :: 0 <= i < |steps| ==> IsDrainStep(steps[i])
    ensures After(s, steps).phase.Open? && After(s, steps).submitted == s.submitted
    ensures |steps| + Load(After(s, steps)) <= Load(s)
    decreases |steps|
  {
    if steps != [] {
      StepUnloads(s, steps[0]);
      RunUnloads(Apply(s, steps[0]), steps[1..]);
    }
  }

  // ----- when nobody can go on, everything is done -----

  lemma {:induction false} AwakeIsNotQuiet(s: Pool)
    requires SomeAwake(s.workers) || SomeTrying(s.producers)
    ensures !Quiet(s)
  {
    if SomeAwake(s.workers) {
      var i :| 0 <= i < |s.workers| && !s.workers[i].Sleeping? && !s.workers[i].Done?;
      AwakeCanWork(s, i);
      var step :| IsProgress(step) && IsWorkerStep(step) && step.w == i && Enabled(s, step);
      assert IsDrainStep(step);
    } else {
      var i :| 0 <= i < |s.producers| && s.producers[i].Trying?;
      TryingCanAdd(s, i);
      var wake :| Enabled(s, Add(i, wake));
      assert IsDrainStep(Add(i, wake));
    }
  }

  lemma {:induction false} QuietIsDone(s: Pool, t: Task)
    requires Inv(s) && s.phase.Open? && s.capacity >= 1 && |s.workers| >= 1 && Quiet(s)
    ensures s.queue == [] && InList(s.started, t) == if t < s.submitted then 1 else 0
  {
    assert !SomeAwake(s.workers) && !SomeTrying(s.producers) by {
      if SomeAwake(s.workers) || SomeTrying(s.producers) {
        AwakeIsNotQuiet(s);
      }
    }
    assert s.queue == [];
    assert !AnyBlocked(s.producers);
    assert forall i :: 0 <= i < |s.producers| ==> !s.producers[i].Trying? && !s.producers[i].Blocked?;
    assert forall i :: 0 <= i < |s.workers| ==> s.workers[i].Sleeping? || s.workers[i].Done?;
    NobodyHolds(s.producers, s.workers, t);
    assert Handed(s, t) && Dealt(s, t);
    assert s.taken == s.pushed;
  }

  /** From every reachable state of an open pool: however the callers and workers
      are scheduled, without new submissions they take at most `Load(s)` steps,
      and when none can go on every submitted task has been started exactly once. */
  lemma {:induction false} EveryTaskStarts(s: Pool, capacity: nat, producers: nat, workers: nat,
      steps: seq<Step>, t: Task)
    requires Reached(s, capacity, producers, workers) && capacity >= 1 && workers >= 1 && s.phase.Open?
    requires IsRun(s, steps) && forall i :: 0 <= i < |steps| ==> IsDrainStep(steps[i])
    ensures |steps| <= Load(s)
    ensures Quiet(After(s, steps)) ==> InList(After(s, steps).started, t) == if t < s.submitted then 1 else 0
  {
    ReachedInv(s, capacity, producers, workers);
    RunInv(s, steps);
    RunUnloads(s, steps);
    if Quiet(After(s, steps)) {
      QuietIsDone(After(s, steps), t);
    }
  }
}
