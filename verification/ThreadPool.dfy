/** The bounded queue of sync-queue.h and the worker pool of thread-pool.h, as
    a transition system.  One step is what a thread does while it holds the
    mutex, or one access to `m_running`; waiting threads may wake up at any
    time without a notification. */
module ThreadPool {

  type Task = nat

  datatype Option = None | Some(index: nat)

  /** A thread that calls `add_task`. */
  datatype Producer =
    | Idle
    | Trying(task: Task)   // in `add`, about to lock the mutex and test the condition
    | Blocked(task: Task)  // asleep on `m_notFull`

  /** A thread in `run_in_thread`. */
  datatype Worker =
    | Looping                          // about to test `while (m_running)`
    | Taking                           // in `take`, about to lock the mutex and test the condition
    | Sleeping                         // asleep on `m_notEmpty`
    | Batch(rest: seq<Task>)           // in the `for` loop, about to look at the next task
    | Checked(task: Task, rest: seq<Task>)  // has seen `m_running` true, about to call it
    | Running(task: Task, rest: seq<Task>)
    | Done

  /** How far `stop_thread_group` has got. */
  datatype Phase = Open | Stopping | ProducersNotified | AllNotified | Halted | Joined

  datatype Pool = Pool(
    capacity: nat, queue: seq<Task>, phase: Phase,
    producers: seq<Producer>, workers: seq<Worker>,
    // history
    submitted: nat, pushed: seq<Task>, taken: seq<Task>, started: seq<Task>,
    refused: seq<Task>, discarded: seq<Task>)

  function Rank(p: Phase): nat {
    match p
    case Open => 0
    case Stopping => 1
    case ProducersNotified => 2
    case AllNotified => 3
    case Halted => 4
    case Joined => 5
  }

  /** `m_needStop` and `m_running`. */
  predicate NeedStop(s: Pool) {
    Rank(s.phase) >= 1
  }

  predicate IsRunning(s: Pool) {
    Rank(s.phase) < 4
  }

  function Initial(capacity: nat, producers: nat, workers: nat): Pool {
    Pool(capacity, [], Open, seq(producers, _ => Idle), seq(workers, _ => Looping),
         0, [], [], [], [], [])
  }

  datatype Step =
    | Submit(p: nat)                    // a call of `put`
    | Add(p: nat, wake: Option)         // the body of `add` under the mutex
    | StirProducer(p: nat)              // spurious wake-up
    | Loop(w: nat)
    | Take(w: nat, one: bool, wake: Option)  // the body of either `take` under the mutex
    | StirWorker(w: nat)                // spurious wake-up
    | Next(w: nat)
    | Start(w: nat)
    | Finish(w: nat)
    | SetStop | NotifyProducers | NotifyWorkers | Halt | Join

  predicate AnyBlocked(ps: seq<Producer>) {
    exists i :: 0 <= i < |ps| && ps[i].Blocked?
  }

  predicate AnySleeping(ws: seq<Worker>) {
    exists i :: 0 <= i < |ws| && ws[i].Sleeping?
  }

  /** `notify_one` wakes one sleeping thread if there is any. */
  predicate WakesProducer(ps: seq<Producer>, wake: Option) {
    if wake.None? then !AnyBlocked(ps) else wake.index < |ps| && ps[wake.index].Blocked?
  }

  predicate WakesWorker(ws: seq<Worker>, wake: Option) {
    if wake.None? then !AnySleeping(ws) else wake.index < |ws| && ws[wake.index].Sleeping?
  }

  function NotifyProducer(ps: seq<Producer>, wake: Option): seq<Producer>
    requires WakesProducer(ps, wake)
  {
    if wake.None? then ps else ps[wake.index := Trying(ps[wake.index].task)]
  }

  function NotifyWorker(ws: seq<Worker>, wake: Option): seq<Worker>
    requires WakesWorker(ws, wake)
  {
    if wake.None? then ws else ws[wake.index := Taking]
  }

  predicate HasRoom(s: Pool) {
    |s.queue| < s.capacity
  }

  predicate Enabled(s: Pool, step: Step) {
    match step
    case Submit(p) => p < |s.producers| && s.producers[p].Idle?
    case Add(p, wake) =>
      && p < |s.producers| && s.producers[p].Trying?
      && (if !NeedStop(s) && HasRoom(s) then WakesWorker(s.workers, wake) else wake.None?)
    case StirProducer(p) => p < |s.producers| && s.producers[p].Blocked?
    case Loop(w) => w < |s.workers| && s.workers[w].Looping?
    case Take(w, _, wake) =>
      && w < |s.workers| && s.workers[w].Taking?
      && (if !NeedStop(s) && s.queue != [] then WakesProducer(s.producers, wake) else wake.None?)
    case StirWorker(w) => w < |s.workers| && s.workers[w].Sleeping?
    case Next(w) => w < |s.workers| && s.workers[w].Batch?
    case Start(w) => w < |s.workers| && s.workers[w].Checked?
    case Finish(w) => w < |s.workers| && s.workers[w].Running?
    case SetStop => s.phase.Open?
    case NotifyProducers => s.phase.Stopping?
    case NotifyWorkers => s.phase.ProducersNotified?
    case Halt => s.phase.AllNotified?
    case Join => s.phase.Halted? && forall i :: 0 <= i < |s.workers| ==> s.workers[i].Done?
  }

  function StepAdd(s: Pool, p: nat, wake: Option): Pool
    requires Enabled(s, Add(p, wake))
  {
    var x := s.producers[p].task;
    if NeedStop(s) then s.(producers := s.producers[p := Idle], refused := s.refused + [x])
    else if HasRoom(s) then
      s.(queue := s.queue + [x], pushed := s.pushed + [x],
         producers := s.producers[p := Idle], workers := NotifyWorker(s.workers, wake))
    else s.(producers := s.producers[p := Blocked(x)])
  }

  function StepTake(s: Pool, w: nat, one: bool, wake: Option): Pool
    requires Enabled(s, Take(w, one, wake))
  {
    if NeedStop(s) then s.(workers := s.workers[w := Batch([])])
    else if s.queue != [] then
      var n := if one then 1 else |s.queue|;
      s.(queue := s.queue[n..], taken := s.taken + s.queue[..n],
         workers := s.workers[w := Batch(s.queue[..n])], producers := NotifyProducer(s.producers, wake))
    else s.(workers := s.workers[w := Sleeping])
  }

  function StepNext(s: Pool, w: nat): Pool
    requires Enabled(s, Next(w))
  {
    var rest := s.workers[w].rest;
    if rest == [] then s.(workers := s.workers[w := Looping])
    else if !IsRunning(s) then s.(workers := s.workers[w := Done], discarded := s.discarded + rest)
    else s.(workers := s.workers[w := Checked(rest[0], rest[1..])])
  }

  function StepStart(s: Pool, w: nat): Pool
    requires Enabled(s, Start(w))
  {
    var Checked(x, rest) := s.workers[w];
    s.(workers := s.workers[w := Running(x, rest)], started := s.started + [x])
  }

  function Apply(s: Pool, step: Step): Pool
    requires Enabled(s, step)
  {
    match step
    case Submit(p) => s.(producers := s.producers[p := Trying(s.submitted)], submitted := s.submitted + 1)
    case Add(p, wake) => StepAdd(s, p, wake)
    case StirProducer(p) => s.(producers := s.producers[p := Trying(s.producers[p].task)])
    case Loop(w) => s.(workers := s.workers[w := if IsRunning(s) then Taking else Done])
    case Take(w, one, wake) => StepTake(s, w, one, wake)
    case StirWorker(w) => s.(workers := s.workers[w := Taking])
    case Next(w) => StepNext(s, w)
    case Start(w) => StepStart(s, w)
    case Finish(w) => s.(workers := s.workers[w := Batch(s.workers[w].rest)])
    case SetStop => s.(phase := Stopping)
    case NotifyProducers =>
      s.(phase := ProducersNotified,
         producers := seq(|s.producers|, i requires 0 <= i < |s.producers| =>
           if s.producers[i].Blocked? then Trying(s.producers[i].task) else s.producers[i]))
    case NotifyWorkers =>
      s.(phase := AllNotified,
         workers := seq(|s.workers|, i requires 0 <= i < |s.workers| =>
           if s.workers[i].Sleeping? then Taking else s.workers[i]))
    case Halt => s.(phase := Halted)
    case Join => s.(phase := Joined)
  }

  /** A run is any interleaving of enabled steps. */
  predicate IsRun(s: Pool, steps: seq<Step>)
    decreases |steps|
  {
    steps == [] || (Enabled(s, steps[0]) && IsRun(Apply(s, steps[0]), steps[1..]))
  }

  function After(s: Pool, steps: seq<Step>): Pool
    requires IsRun(s, steps)
    decreases |steps|
  {
    if steps == [] then s else After(Apply(s, steps[0]), steps[1..])
  }

  // ----- where a task is -----

  function InList(xs: seq<Task>, t: Task): nat {
    multiset(xs)[t]
  }

  function InProducer(p: Producer, t: Task): nat {
    if p.Idle? || p.task != t then 0 else 1
  }

  function InWorker(w: Worker, t: Task): nat {
    match w
    case Batch(rest) => InList(rest, t)
    case Checked(x, rest) => (if x == t then 1 else 0) + InList(rest, t)
    case Running(_, rest) => InList(rest, t)
    case _ => 0
  }

  function InProducers(ps: seq<Producer>, t: Task): nat {
    if ps == [] then 0 else InProducer(ps[0], t) + InProducers(ps[1..], t)
  }

  function InWorkers(ws: seq<Worker>, t: Task): nat {
    if ws == [] then 0 else InWorker(ws[0], t) + InWorkers(ws[1..], t)
  }

  /** In how many places `t` is: with a caller of `put`, refused, queued, in a
      worker's batch, started, or discarded by a worker that stopped. */
  function Places(s: Pool, t: Task): nat {
    InProducers(s.producers, t) + InList(s.refused, t) + InList(s.queue, t)
    + InWorkers(s.workers, t) + InList(s.started, t) + InList(s.discarded, t)
  }
}
