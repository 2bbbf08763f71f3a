/** What every run of the thread pool keeps. */
module PoolSafety {
  import opened ThreadPool

  // ----- counting tasks -----

  lemma {:induction false} WorkersUpdate(ws: seq<Worker>, i: nat, x: Worker, t: Task)
    requires i < |ws|
    ensures InWorkers(ws[i := x], t) + InWorker(ws[i], t) == InWorkers(ws, t) + InWorker(x, t)
    decreases |ws|
  {
    if i > 0 {
      WorkersUpdate(ws[1..], i - 1, x, t);
      assert ws[i := x][1..] == ws[1..][i - 1 := x];
    } else {
      assert ws[i := x][1..] == ws[1..];
    }
  }

  lemma {:induction false} ProducersUpdate(ps: seq<Producer>, i: nat, x: Producer, t: Task)
    requires i < |ps|
    ensures InProducers(ps[i := x], t) + InProducer(ps[i], t) == InProducers(ps, t) + InProducer(x, t)
    decreases |ps|
  {
    if i > 0 {
      ProducersUpdate(ps[1..], i - 1, x, t);
      assert ps[i := x][1..] == ps[1..][i - 1 := x];
    } else {
      assert ps[i := x][1..] == ps[1..];
    }
  }

  lemma {:induction false} WorkersAlike(ws: seq<Worker>, vs: seq<Worker>, t: Task)
    requires |ws| == |vs| && forall i :: 0 <= i < |ws| ==> InWorker(ws[i], t) == InWorker(vs[i], t)
    ensures InWorkers(ws, t) == InWorkers(vs, t)
    decreases |ws|
  {
    if ws != [] {
      WorkersAlike(ws[1..], vs[1..], t);
    }
  }

  lemma {:induction false} ProducersAlike(ps: seq<Producer>, qs: seq<Producer>, t: Task)
    requires |ps| == |qs| && forall i :: 0 <= i < |ps| ==> InProducer(ps[i], t) == InProducer(qs[i], t)
    ensures InProducers(ps, t) == InProducers(qs, t)
    decreases |ps|
  {
    if ps != [] {
      ProducersAlike(ps[1..], qs[1..], t);
    }
  }

  lemma {:induction false} NobodyHolds(ps: seq<Producer>, ws: seq<Worker>, t: Task)
    requires forall i :: 0 <= i < |ps| ==> InProducer(ps[i], t) == 0
    requires forall i :: 0 <= i < |ws| ==> InWorker(ws[i], t) == 0
    ensures InProducers(ps, t) == 0 && InWorkers(ws, t) == 0
    decreases |ps|, |ws|
  {
    if ps != [] {
      NobodyHolds(ps[1..], ws, t);
    } else if ws != [] {
      NobodyHolds(ps, ws[1..], t);
    }
  }

  lemma {:induction false} Joined(xs: seq<Task>, ys: seq<Task>, t: Task)
    ensures InList(xs + ys, t) == InList(xs, t) + InList(ys, t)
  {
    assert multiset(xs + ys) == multiset(xs) + multiset(ys);
  }

  lemma {:induction false} Split(xs: seq<Task>, n: nat, t: Task)
    requires n <= |xs|
    ensures InList(xs[..n], t) + InList(xs[n..], t) == InList(xs, t)
  {
    Joined(xs[..n], xs[n..], t);
    assert xs[..n] + xs[n..] == xs;
  }

  // ----- each task is in exactly one place -----

  /** A submitted task is with its caller, refused, or pushed. */
  ghost predicate Handed(s: Pool, t: Task) {
    InProducers(s.producers, t) + InList(s.refused, t) + InList(s.pushed, t) == if t < s.submitted then 1 else 0
  }

  /** A task that was taken is in a worker's batch, started, or discarded. */
  ghost predicate Dealt(s: Pool, t: Task) {
    InList(s.taken, t) == InWorkers(s.workers, t) + InList(s.started, t) + InList(s.discarded, t)
  }

  ghost predicate Census(s: Pool) {
    forall t :: Handed(s, t) && Dealt(s, t)
  }

  lemma {:induction false} AddKeepsHanded(s: Pool, p: nat, wake: Option, t: Task)
    requires Handed(s, t) && Enabled(s, Add(p, wake))
    ensures Handed(StepAdd(s, p, wake), t)
  {
    var x := s.producers[p].task;
    if NeedStop(s) {
      Joined(s.refused, [x], t);
      ProducersUpdate(s.producers, p, Idle, t);
    } else if HasRoom(s) {
      Joined(s.pushed, [x], t);
      ProducersUpdate(s.producers, p, Idle, t);
    } else {
      ProducersUpdate(s.producers, p, Blocked(x), t);
    }
  }

  lemma {:induction false} StepKeepsHanded(s: Pool, step: Step, t: Task)
    requires Handed(s, t) && Enabled(s, step)
    ensures Handed(Apply(s, step), t)
  {
    match step
    case Submit(p) => ProducersUpdate(s.producers, p, Trying(s.submitted), t);
    case Add(p, wake) => AddKeepsHanded(s, p, wake, t);
    case StirProducer(p) => ProducersUpdate(s.producers, p, Trying(s.producers[p].task), t);
    case Take(w, one, wake) => ProducersAlike(Apply(s, step).producers, s.producers, t);
    case NotifyProducers => ProducersAlike(Apply(s, step).producers, s.producers, t);
    case _ =>
  }

  lemma {:induction false} TakeKeepsDealt(s: Pool, w: nat, one: bool, wake: Option, t: Task)
    requires Dealt(s, t) && Enabled(s, Take(w, one, wake))
    ensures Dealt(StepTake(s, w, one, wake), t)
  {
    WorkersUpdate(s.workers, w, StepTake(s, w, one, wake).workers[w], t);
    if !NeedStop(s) && s.queue != [] {
      Joined(s.taken, s.queue[..if one then 1 else |s.queue|], t);
    }
  }

  lemma {:induction false} NextKeepsDealt(s: Pool, w: nat, t: Task)
    requires Dealt(s, t) && Enabled(s, Next(w))
    ensures Dealt(StepNext(s, w), t)
  {
    var rest := s.workers[w].rest;
    if rest == [] {
      WorkersUpdate(s.workers, w, Looping, t);
    } else if !IsRunning(s) {
      Joined(s.discarded, rest, t);
      WorkersUpdate(s.workers, w, Done, t);
    } else {
      Split(rest, 1, t);
      assert rest[..1] == [rest[0]];
      WorkersUpdate(s.workers, w, Checked(rest[0], rest[1..]), t);
    }
  }

  lemma {:induction false} WorkKeepsDealt(s: Pool, step: Step, t: Task)
    requires Dealt(s, t) && Enabled(s, step) && (step.Loop? || step.StirWorker? || step.Start? || step.Finish?)
    ensures Dealt(Apply(s, step), t)
  {
    var r := Apply(s, step);
    WorkersUpdate(s.workers, step.w, r.workers[step.w], t);
    if step.Start? {
      Joined(s.started, [s.workers[step.w].task], t);
    }
  }

  lemma {:induction false} StepKeepsDealt(s: Pool, step: Step, t: Task)
    requires Dealt(s, t) && Enabled(s, step)
    ensures Dealt(Apply(s, step), t)
  {
    match step
    case Add(p, wake) => WorkersAlike(StepAdd(s, p, wake).workers, s.workers, t);
    case Take(w, one, wake) => TakeKeepsDealt(s, w, one, wake, t);
    case Next(w) => NextKeepsDealt(s, w, t);
    case Loop(_) => WorkKeepsDealt(s, step, t);
    case StirWorker(_) => WorkKeepsDealt(s, step, t);
    case Start(_) => WorkKeepsDealt(s, step, t);
    case Finish(_) => WorkKeepsDealt(s, step, t);
    case NotifyWorkers => WorkersAlike(Apply(s, step).workers, s.workers, t);
    case _ =>
  }

  lemma {:induction false} StepKeepsCensus(s: Pool, step: Step)
    requires Census(s) && Enabled(s, step)
    ensures Census(Apply(s, step))
  {
    forall t
      ensures Handed(Apply(s, step), t) && Dealt(Apply(s, step), t)
    {
      assert Handed(s, t) && Dealt(s, t);
      StepKeepsHanded(s, step, t);
      StepKeepsDealt(s, step, t);
    }
  }

  // ----- first in, first out -----

  ghost predicate Ordered(s: Pool) {
    s.taken + s.queue == s.pushed && |s.queue| <= s.capacity
  }

  lemma {:induction false} StepKeepsOrder(s: Pool, step: Step)
    requires Ordered(s) && Enabled(s, step)
    ensures Ordered(Apply(s, step))
  {
    match step
    case Add(p, wake) =>
      var x := s.producers[p].task;
      assert s.taken + (s.queue + [x]) == (s.taken + s.queue) + [x];
    case Take(w, one, wake) =>
      if !NeedStop(s) && s.queue != [] {
        var n := if one then 1 else |s.queue|;
        assert (s.taken + s.queue[..n]) + s.queue[n..] == s.taken + s.queue;
      }
    case _ =>
  }

  /** Tasks one worker has taken and not yet started. */
  function Pending(w: Worker): seq<Task> {
    match w
    case Batch(rest) => rest
    case Checked(x, rest) => [x] + rest
    case Running(_, rest) => rest
    case _ => []
  }

  /** A lone worker starts the tasks in the order in which they were pushed. */
  ghost predicate InTurn(s: Pool) {
    |s.workers| == 1 ==>
      && s.taken == s.started + Pending(s.workers[0]) + s.discarded
      && (s.discarded != [] ==> s.workers[0].Done?)
  }

  lemma {:induction false} TakeKeepsTurn(s: Pool, w: nat, one: bool, wake: Option)
    requires InTurn(s) && Enabled(s, Take(w, one, wake))
    ensures InTurn(StepTake(s, w, one, wake))
  {
    if |s.workers| == 1 && !NeedStop(s) && s.queue != [] {
      assert w == 0;
      assert s.started + [] + [] == s.started;
    }
  }

  lemma {:induction false} NextKeepsTurn(s: Pool, w: nat)
    requires InTurn(s) && Enabled(s, Next(w))
    ensures InTurn(StepNext(s, w))
  {
    if |s.workers| == 1 {
      assert w == 0;
      var rest := s.workers[0].rest;
      assert rest != [] ==> rest == [rest[0]] + rest[1..];
      assert s.started + rest + [] == s.started + [] + rest;
    }
  }

  lemma {:induction false} StepKeepsTurn(s: Pool, step: Step)
    requires InTurn(s) && Enabled(s, step)
    ensures InTurn(Apply(s, step))
  {
    match step
    case Take(w, one, wake) => TakeKeepsTurn(s, w, one, wake);
    case Next(w) => NextKeepsTurn(s, w);
    case Start(w) =>
      if |s.workers| == 1 {
        var Checked(x, rest) := s.workers[0];
        assert s.started + ([x] + rest) + s.discarded == (s.started + [x]) + rest + s.discarded;
      }
    case _ =>
  }

  // ----- who is asleep -----

  /** After the notifications of `stop` nobody is asleep, and nobody falls asleep again. */
  ghost predicate Awake(s: Pool) {
    && (Rank(s.phase) >= 2 ==> !AnyBlocked(s.producers))
    && (Rank(s.phase) >= 3 ==> !AnySleeping(s.workers))
  }

  lemma {:induction false} StepKeepsAwake(s: Pool, step: Step)
    requires Awake(s) && Enabled(s, step)
    ensures Awake(Apply(s, step))
  {
    var r := Apply(s, step);
    if Rank(s.phase) >= 2 {
      assert forall i :: 0 <= i < |r.producers| ==> r.producers[i] == s.producers[i] || !r.producers[i].Blocked?;
      assert forall i :: 0 <= i < |s.producers| ==> !s.producers[i].Blocked?;
    }
    if Rank(s.phase) >= 3 {
      assert forall i :: 0 <= i < |r.workers| ==> r.workers[i] == s.workers[i] || !r.workers[i].Sleeping?;
      assert forall i :: 0 <= i < |s.workers| ==> !s.workers[i].Sleeping?;
    }
  }

  predicate SomeTrying(ps: seq<Producer>) {
    exists i :: 0 <= i < |ps| && ps[i].Trying?
  }

  predicate SomeAwake(ws: seq<Worker>) {
    exists i :: 0 <= i < |ws| && !ws[i].Sleeping? && !ws[i].Done?
  }

  /** Nobody is left asleep for whom there is work or room, before `stop` is called. */
  ghost predicate ProducersServed(s: Pool) {
    s.phase.Open? && AnyBlocked(s.producers) ==> s.queue != [] || SomeTrying(s.producers)
  }

  ghost predicate WorkersServed(s: Pool) {
    s.phase.Open? && s.queue != [] ==> SomeAwake(s.workers)
  }

  ghost predicate OnlyStoppedAreDone(s: Pool) {
    IsRunning(s) ==> forall i :: 0 <= i < |s.workers| ==> !s.workers[i].Done?
  }

  lemma {:induction false} StepKeepsDone(s: Pool, step: Step)
    requires OnlyStoppedAreDone(s) && Enabled(s, step)
    ensures OnlyStoppedAreDone(Apply(s, step))
  {
    var r := Apply(s, step);
    if IsRunning(r) {
      assert IsRunning(s);
      assert forall i :: 0 <= i < |r.workers| ==> r.workers[i] == s.workers[i] || !r.workers[i].Done?;
    }
  }

  /** `join` returns only when the worker has. */
  ghost predicate JoinedAreDone(s: Pool) {
    s.phase.Joined? ==> forall i :: 0 <= i < |s.workers| ==> s.workers[i].Done?
  }

  /** No task is refused before `stop`, or discarded before `m_running` is false. */
  ghost predicate NothingDropped(s: Pool) {
    (!NeedStop(s) ==> s.refused == []) && (IsRunning(s) ==> s.discarded == [])
  }

  lemma {:induction false} StepServesProducers(s: Pool, step: Step)
    requires ProducersServed(s) && s.capacity >= 1 && Enabled(s, step)
    ensures ProducersServed(Apply(s, step))
  {
    var r := Apply(s, step);
    if r.phase.Open? && AnyBlocked(r.producers) && r.queue == [] {
      match step
      case Submit(p) => assert r.producers[p].Trying?;
      case StirProducer(p) => assert r.producers[p].Trying?;
      case Add(p, wake) => assert false;
      case Take(w, one, wake) =>
        assert wake.Some? ==> r.producers[wake.index].Trying?;
        assert wake.None? ==> r.producers == s.producers;
      case _ => assert r.producers == s.producers && r.queue == s.queue;
    }
  }

  lemma {:induction false} StepServesWorkers(s: Pool, step: Step)
    requires WorkersServed(s) && OnlyStoppedAreDone(s) && |s.workers| >= 1 && Enabled(s, step)
    ensures WorkersServed(Apply(s, step))
  {
    var r := Apply(s, step);
    if r.phase.Open? && r.queue != [] {
      match step
      case Add(p, wake) =>
        if !HasRoom(s) {
          assert r.workers == s.workers;
        } else if wake.Some? {
          assert !r.workers[wake.index].Sleeping? && !r.workers[wake.index].Done?;
        } else {
          assert !r.workers[0].Sleeping? && !r.workers[0].Done?;
        }
      case Loop(w) => assert !r.workers[w].Sleeping? && !r.workers[w].Done?;
      case Take(w, one, wake) => assert !r.workers[w].Sleeping? && !r.workers[w].Done?;
      case StirWorker(w) => assert !r.workers[w].Sleeping? && !r.workers[w].Done?;
      case Next(w) => assert !r.workers[w].Sleeping? && !r.workers[w].Done?;
      case Start(w) => assert !r.workers[w].Sleeping? && !r.workers[w].Done?;
      case Finish(w) => assert !r.workers[w].Sleeping? && !r.workers[w].Done?;
      case _ => assert r.workers == s.workers && r.queue == s.queue;
    }
  }

  // ----- sleeping workers and queued tasks -----

  function TakingCount(ws: seq<Worker>): nat {
    if ws == [] then 0 else (if ws[0].Taking? then 1 else 0) + TakingCount(ws[1..])
  }

  lemma {:induction false} TakingUpdate(ws: seq<Worker>, i: nat, x: Worker)
    requires i < |ws|
    ensures TakingCount(ws[i := x]) + (if ws[i].Taking? then 1 else 0)
         == TakingCount(ws) + (if x.Taking? then 1 else 0)
    decreases |ws|
  {
    if i > 0 {
      TakingUpdate(ws[1..], i - 1, x);
      assert ws[i := x][1..] == ws[1..][i - 1 := x];
    } else {
      assert ws[i := x][1..] == ws[1..];
    }
  }

  /** While a worker sleeps, every queued task has a worker on its way to take
      it; workers that are busy with other tasks do not count. */
  ghost predicate SleepersCovered(s: Pool) {
    s.phase.Open? && AnySleeping(s.workers) ==> |s.queue| <= TakingCount(s.workers)
  }

  lemma {:induction false} AddCovers(s: Pool, p: nat, wake: Option)
    requires SleepersCovered(s) && Enabled(s, Add(p, wake))
    ensures SleepersCovered(StepAdd(s, p, wake))
  {
    if wake.Some? {
      assert AnySleeping(s.workers);
      TakingUpdate(s.workers, wake.index, Taking);
    }
  }

  lemma {:induction false} StepCovers(s: Pool, step: Step)
    requires SleepersCovered(s) && Enabled(s, step)
    ensures SleepersCovered(Apply(s, step))
  {
    var r := Apply(s, step);
    if step.Add? {
      AddCovers(s, step.p, step.wake);
    } else if step.Loop? || step.Take? || step.StirWorker? || step.Next? || step.Start? || step.Finish? {
      TakingUpdate(s.workers, step.w, r.workers[step.w]);
      assert forall i :: 0 <= i < |r.workers| && i != step.w ==> r.workers[i] == s.workers[i];
    }
  }

  // ----- all of it, over all runs -----

  ghost predicate Inv(s: Pool) {
    && Census(s) && Ordered(s) && InTurn(s) && Awake(s) && OnlyStoppedAreDone(s)
    && JoinedAreDone(s) && NothingDropped(s) && SleepersCovered(s)
    && (s.producers == [] ==> s.queue == [])
    && (s.capacity >= 1 ==> ProducersServed(s))
    && (|s.workers| >= 1 ==> WorkersServed(s))
  }

  lemma {:induction false} InitialInv(capacity: nat, producers: nat, workers: nat)
    ensures Inv(Initial(capacity, producers, workers))
  {
    var s := Initial(capacity, producers, workers);
    forall t
      ensures Handed(s, t) && Dealt(s, t)
    {
      NobodyHolds(s.producers, s.workers, t);
    }
  }

  lemma {:induction false} StepInv(s: Pool, step: Step)
    requires Inv(s) && Enabled(s, step)
    ensures Inv(Apply(s, step))
    ensures Apply(s, step).capacity == s.capacity
    ensures |Apply(s, step).workers| == |s.workers| && |Apply(s, step).producers| == |s.producers|
  {
    StepKeepsCensus(s, step);
    StepKeepsOrder(s, step);
    StepKeepsTurn(s, step);
    StepKeepsAwake(s, step);
    StepKeepsDone(s, step);
    StepCovers(s, step);
    if s.capacity >= 1 {
      StepServesProducers(s, step);
    }
    if |s.workers| >= 1 {
      StepServesWorkers(s, step);
    }
  }

  lemma {:induction false} RunInv(s: Pool, steps: seq<Step>)
    requires Inv(s) && IsRun(s, steps)
    ensures Inv(After(s, steps))
    ensures After(s, steps).capacity == s.capacity
    ensures |After(s, steps).workers| == |s.workers| && |After(s, steps).producers| == |s.producers|
    decreases |steps|
  {
    if steps != [] {
      StepInv(s, steps[0]);
      RunInv(Apply(s, steps[0]), steps[1..]);
    }
  }

  /** A pool that some run reaches. */
  ghost predicate Reached(s: Pool, capacity: nat, producers: nat, workers: nat) {
    exists steps :: IsRun(Initial(capacity, producers, workers), steps)
      && s == After(Initial(capacity, producers, workers), steps)
  }

  lemma {:induction false} ReachedInv(s: Pool, capacity: nat, producers: nat, workers: nat)
    requires Reached(s, capacity, producers, workers)
    ensures Inv(s) && s.capacity == capacity && |s.workers| == workers && |s.producers| == producers
  {
    var steps :| IsRun(Initial(capacity, producers, workers), steps)
      && s == After(Initial(capacity, producers, workers), steps);
    InitialInv(capacity, producers, workers);
    RunInv(Initial(capacity, producers, workers), steps);
  }

  /** Every submitted task is in exactly one place, so it is started at most
      once, and a task nobody submitted is never started. */
  lemma {:induction false} OnePlace(s: Pool, capacity: nat, producers: nat, workers: nat, t: Task)
    requires Reached(s, capacity, producers, workers)
    ensures Places(s, t) == if t < s.submitted then 1 else 0
    ensures InList(s.taken, t) + InList(s.queue, t) == InList(s.pushed, t)
    ensures InList(s.started, t) <= InList(s.taken, t) <= 1
  {
    ReachedInv(s, capacity, producers, workers);
    Joined(s.taken, s.queue, t);
    assert Handed(s, t) && Dealt(s, t);
  }

  /** When `stop` has returned no worker holds a task: each submitted task was
      started or discarded, or is still queued, or was never accepted. */
  lemma {:induction false} NothingHeldAfterJoin(s: Pool, capacity: nat, producers: nat, workers: nat, t: Task)
    requires Reached(s, capacity, producers, workers) && s.phase.Joined?
    ensures InProducers(s.producers, t) + InList(s.refused, t) + InList(s.queue, t)
              + InList(s.started, t) + InList(s.discarded, t) == if t < s.submitted then 1 else 0
  {
    OnePlace(s, capacity, producers, workers, t);
    ReachedInv(s, capacity, producers, workers);
    NobodyHolds([], s.workers, t);
  }

  /** What was taken in lock order, followed by the queue, is what was pushed,
      and the queue never holds more than its capacity. */
  lemma {:induction false} FirstInFirstOut(s: Pool, capacity: nat, producers: nat, workers: nat)
    requires Reached(s, capacity, producers, workers)
    ensures s.taken + s.queue == s.pushed && |s.queue| <= capacity
    ensures workers == 1 && s.discarded == [] ==> s.started <= s.pushed
  {
    ReachedInv(s, capacity, producers, workers);
    if workers == 1 && s.discarded == [] {
      assert s.started + Pending(s.workers[0]) + [] + s.queue
          == s.started + (Pending(s.workers[0]) + s.queue);
    }
  }

  /** After `stop` has set its flag nothing is pushed or taken any more. */
  lemma {:induction false} StopFreezesQueue(s: Pool, steps: seq<Step>)
    requires NeedStop(s) && IsRun(s, steps)
    ensures NeedStop(After(s, steps))
    ensures After(s, steps).queue == s.queue
    ensures After(s, steps).pushed == s.pushed && After(s, steps).taken == s.taken
    decreases |steps|
  {
    if steps != [] {
      StopFreezesQueue(Apply(s, steps[0]), steps[1..]);
    }
  }

  /** Once `stop` has notified both conditions nobody is asleep, ever after. */
  lemma {:induction false} NobodySleepsAfterStop(s: Pool, capacity: nat, producers: nat, workers: nat, i: nat)
    requires Reached(s, capacity, producers, workers) && Rank(s.phase) >= 3
    ensures i < |s.producers| ==> !s.producers[i].Blocked?
    ensures i < |s.workers| ==> !s.workers[i].Sleeping?
  {
    ReachedInv(s, capacity, producers, workers);
    assert i < |s.producers| && s.producers[i].Blocked? ==> AnyBlocked(s.producers);
    assert i < |s.workers| && s.workers[i].Sleeping? ==> AnySleeping(s.workers);
  }

  /** How often a run lets worker `w` start a task. */
  function StartsOf(steps: seq<Step>, w: nat): nat {
    if steps == [] then 0 else (if steps[0] == Start(w) then 1 else 0) + StartsOf(steps[1..], w)
  }

  /** From any moment after `m_running` has become false, each worker starts at
      most one more task: the one for which it had already looked at the flag. */
  lemma {:induction false} OneLateStart(s: Pool, steps: seq<Step>, w: nat)
    requires !IsRunning(s) && IsRun(s, steps) && w < |s.workers|
    ensures StartsOf(steps, w) <= if s.workers[w].Checked? then 1 else 0
    decreases |steps|
  {
    if steps != [] {
      OneLateStart(Apply(s, steps[0]), steps[1..], w);
    }
  }

  // ----- no lost wake-up, exactly when the queue can hold something -----

  /** No reachable state leaves producers asleep with nobody to wake them. */
  ghost predicate NeverStarves(capacity: nat, producers: nat, workers: nat) {
    forall s :: Reached(s, capacity, producers, workers) ==> ProducersServed(s)
  }

  ghost predicate NeverIdles(capacity: nat, producers: nat, workers: nat) {
    forall s :: Reached(s, capacity, producers, workers) ==> WorkersServed(s)
  }

  lemma {:induction false} ZeroCapacityStarves(producers: nat, workers: nat)
    requires producers >= 1
    ensures !NeverStarves(0, producers, workers)
  {
    var s := Initial(0, producers, workers);
    var s1 := Apply(s, Submit(0));
    var s2 := Apply(s1, Add(0, None));
    var steps := [Submit(0), Add(0, None)];
    assert steps[1..] == [Add(0, None)] && steps[1..][1..] == [];
    assert After(s, steps) == s2;
    assert s2.producers[0] == Blocked(0);
    assert forall i :: 0 <= i < producers ==> !s2.producers[i].Trying?;
    assert Reached(s2, 0, producers, workers) && !ProducersServed(s2);
  }

  lemma {:induction false} NoWorkerIdles(capacity: nat, producers: nat)
    requires capacity >= 1 && producers >= 1
    ensures !NeverIdles(capacity, producers, 0)
  {
    var s := Initial(capacity, producers, 0);
    var s1 := Apply(s, Submit(0));
    var s2 := Apply(s1, Add(0, None));
    var steps := [Submit(0), Add(0, None)];
    assert steps[1..] == [Add(0, None)] && steps[1..][1..] == [];
    assert After(s, steps) == s2;
    assert s2.queue == [0] && s2.workers == [];
    assert Reached(s2, capacity, producers, 0) && !WorkersServed(s2);
  }

  /** A producer is never left asleep while the queue is empty and nobody else
      tries to add, for any interleaving, if and only if the capacity is not 0. */
  lemma {:induction false} NoLostWakeupOfProducers(capacity: nat, producers: nat, workers: nat)
    ensures NeverStarves(capacity, producers, workers) <==> (capacity >= 1 || producers == 0)
  {
    if capacity >= 1 || producers == 0 {
      forall s | Reached(s, capacity, producers, workers)
        ensures ProducersServed(s)
      {
        ReachedInv(s, capacity, producers, workers);
      }
    } else {
      ZeroCapacityStarves(producers, workers);
    }
  }

  /** A non-empty queue always has a worker that is awake, for any interleaving,
      if and only if there is a worker (or nothing can be queued).  And as long as
      any worker sleeps there are at least as many on their way to `take`, not
      counting busy ones, as there are tasks queued. */
  lemma {:induction false} NoLostWakeupOfWorkers(capacity: nat, producers: nat, workers: nat)
    ensures NeverIdles(capacity, producers, workers) <==> (workers >= 1 || capacity == 0 || producers == 0)
    ensures forall s :: Reached(s, capacity, producers, workers) && s.phase.Open? && AnySleeping(s.workers) ==>
      |s.queue| <= TakingCount(s.workers)
  {
    forall s | Reached(s, capacity, producers, workers)
      ensures Inv(s) && |s.workers| == workers && |s.producers| == producers && s.capacity == capacity
    {
      ReachedInv(s, capacity, producers, workers);
    }
    if !(workers >= 1 || capacity == 0 || producers == 0) {
      NoWorkerIdles(capacity, producers);
    }
  }
}
