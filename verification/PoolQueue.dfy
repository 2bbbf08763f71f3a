/** Order inside each worker's share, and how much the queue takes. */
module PoolQueue {
  import opened ThreadPool
  import opened PoolSafety

  // ----- each worker keeps the order of its batches -----

  /** What a history has gained. */
  function Added(before: seq<Task>, after: seq<Task>): seq<Task> {
    if |before| <= |after| then after[|before|..] else []
  }

  /** What worker `w` takes, starts or discards in one step. */
  function Takes(s: Pool, step: Step, w: nat): seq<Task>
    requires Enabled(s, step)
  {
    if step.Take? && step.w == w then Added(s.taken, Apply(s, step).taken) else []
  }

  function Starts(s: Pool, step: Step, w: nat): seq<Task>
    requires Enabled(s, step)
  {
    if step == Start(w) then Added(s.started, Apply(s, step).started) else []
  }

  function Discards(s: Pool, step: Step, w: nat): seq<Task>
    requires Enabled(s, step)
  {
    if step == Next(w) then Added(s.discarded, Apply(s, step).discarded) else []
  }

  /** What it takes in the course of a run, in lock order. */
  function TakenBy(s: Pool, steps: seq<Step>, w: nat): seq<Task>
    requires IsRun(s, steps)
    decreases |steps|
  {
    if steps == [] then [] else Takes(s, steps[0], w) + TakenBy(Apply(s, steps[0]), steps[1..], w)
  }

  /** What it starts, in order. */
  function StartedBy(s: Pool, steps: seq<Step>, w: nat): seq<Task>
    requires IsRun(s, steps)
    decreases |steps|
  {
    if steps == [] then [] else Starts(s, steps[0], w) + StartedBy(Apply(s, steps[0]), steps[1..], w)
  }

  /** What it discards when it finds that the pool has stopped. */
  function DiscardedBy(s: Pool, steps: seq<Step>, w: nat): seq<Task>
    requires IsRun(s, steps)
    decreases |steps|
  {
    if steps == [] then [] else Discards(s, steps[0], w) + DiscardedBy(Apply(s, steps[0]), steps[1..], w)
  }

  lemma {:induction false} DoneTakesNothing(s: Pool, steps: seq<Step>, w: nat)
    requires IsRun(s, steps) && w < |s.workers| && s.workers[w].Done?
    ensures TakenBy(s, steps, w) == [] && StartedBy(s, steps, w) == [] && DiscardedBy(s, steps, w) == []
    ensures w < |After(s, steps).workers| && After(s, steps).workers[w].Done?
    decreases |steps|
  {
    if steps != [] {
      DoneTakesNothing(Apply(s, steps[0]), steps[1..], w);
    }
  }

  /** One step of any thread, as worker `w` sees it. */
  lemma {:induction false} StepKeepsShare(s: Pool, step: Step, w: nat)
    requires Enabled(s, step) && w < |s.workers|
    ensures var r := Apply(s, step);
      && |r.workers| == |s.workers|
      && Pending(s.workers[w]) + Takes(s, step, w)
         == Starts(s, step, w) + (Pending(r.workers[w]) + Discards(s, step, w))
      && (Takes(s, step, w) == [] || (Pending(s.workers[w]) == [] && Starts(s, step, w) == []))
      && (Discards(s, step, w) == [] || r.workers[w].Done?)
  {
    var r := Apply(s, step);
    if step == Start(w) {
      assert Added(s.started, r.started) == [s.workers[w].task];
    } else if step == Next(w) && s.workers[w].rest != [] {
      var rest := s.workers[w].rest;
      assert rest == [rest[0]] + rest[1..];
      assert r.workers[w].Done? ==> Added(s.discarded, r.discarded) == rest;
    } else if step.Take? && step.w == w {
      assert r.taken == s.taken || (!NeedStop(s) && s.queue != []);
    }
  }

  /** `before`, `after`: what is held before and after a step; the rest of the run
      does the same with `after`. */
  lemma {:induction false} Weave(before: seq<Task>, takes: seq<Task>, starts: seq<Task>, after: seq<Task>,
      discards: seq<Task>, taken: seq<Task>, started: seq<Task>, held: seq<Task>, discarded: seq<Task>)
    requires before + takes == starts + (after + discards)
    requires after + taken == started + held + discarded
    requires discards == [] || (taken == [] && started == [] && held == [] && discarded == [])
    ensures before + (takes + taken) == starts + started + held + (discards + discarded)
  {
    assert before + (takes + taken) == (before + takes) + taken;
    if discards == [] {
      assert starts + (after + discards) == starts + after;
      assert (starts + after) + taken == starts + (after + taken);
      assert starts + (started + held + discarded) == starts + started + held + discarded;
    } else {
      assert after == [];
    }
  }

  /** For every number of workers and every run: what a worker holds and then takes
      is, in this order, what it starts, what it still holds, and what it discards. */
  lemma {:induction false} EachWorkerInOrder(s: Pool, steps: seq<Step>, w: nat)
    requires IsRun(s, steps) && w < |s.workers|
    ensures w < |After(s, steps).workers|
    ensures Pending(s.workers[w]) + TakenBy(s, steps, w)
         == StartedBy(s, steps, w) + Pending(After(s, steps).workers[w]) + DiscardedBy(s, steps, w)
    decreases |steps|
  {
    if steps != [] {
      var step, rest := steps[0], steps[1..];
      var r := Apply(s, step);
      StepKeepsShare(s, step, w);
      EachWorkerInOrder(r, rest, w);
      if Discards(s, step, w) != [] {
        DoneTakesNothing(r, rest, w);
      }
      Weave(Pending(s.workers[w]), Takes(s, step, w), Starts(s, step, w), Pending(r.workers[w]),
        Discards(s, step, w), TakenBy(r, rest, w), StartedBy(r, rest, w),
        Pending(After(r, rest).workers[w]), DiscardedBy(r, rest, w));
    }
  }

  /** The histories only grow, and each only by its own kind of step. */
  lemma {:induction false} StepExtendsHistories(s: Pool, step: Step)
    requires Enabled(s, step)
    ensures var r := Apply(s, step);
      && s.pushed <= r.pushed && (step.Add? || r.pushed == s.pushed)
      && s.refused <= r.refused && (step.Add? || r.refused == s.refused)
      && s.taken <= r.taken && (step.Take? || r.taken == s.taken)
      && s.started <= r.started && (step.Start? || r.started == s.started)
      && s.discarded <= r.discarded && (step.Next? || r.discarded == s.discarded)
  {
  }

  // ----- how much the queue takes -----

  /** `add` waits exactly when the queue holds `capacity` tasks or more and the
      pool has not stopped; if it does not wait, it pushes or is refused. */
  lemma {:induction false} AddWaitsIffFull(s: Pool, p: nat, wake: Option)
    requires Enabled(s, Add(p, wake))
    ensures var x, r := s.producers[p].task, Apply(s, Add(p, wake));
      && (r.producers[p] == Blocked(x) <==> s.phase.Open? && |s.queue| >= s.capacity)
      && (s.phase.Open? && |s.queue| < s.capacity ==>
            r.producers[p] == Idle && r.queue == s.queue + [x] && r.pushed == s.pushed + [x])
      && (!s.phase.Open? ==> r.producers[p] == Idle && r.queue == s.queue && r.refused == s.refused + [x])
  {
  }

  lemma {:induction false} RunConcat(s: Pool, a: seq<Step>, b: seq<Step>)
    requires IsRun(s, a) && IsRun(After(s, a), b)
    ensures IsRun(s, a + b) && After(s, a + b) == After(After(s, a), b)
    decreases |a|
  {
    if a == [] {
      assert a + b == b;
    } else {
      RunConcat(Apply(s, a[0]), a[1..], b);
      assert (a + b)[1..] == a[1..] + b;
    }
  }

  /** One caller fills the queue before any worker has looked at it. */
  lemma {:induction false} Fill(capacity: nat, producers: nat, workers: nat, n: nat) returns (steps: seq<Step>)
    requires producers >= 1 && n <= capacity
    ensures IsRun(Initial(capacity, producers, workers), steps)
    ensures var s := Initial(capacity, producers, workers); var r := After(s, steps);
      r.phase.Open? && |r.queue| == n && r.capacity == capacity && r.producers == s.producers && r.workers == s.workers
  {
    var s := Initial(capacity, producers, workers);
    if n == 0 {
      steps := [];
    } else {
      var before := Fill(capacity, producers, workers, n - 1);
      var r := After(s, before);
      var r1 := Apply(r, Submit(0));
      assert Enabled(r1, Add(0, None));
      var r2 := Apply(r1, Add(0, None));
      var more := [Submit(0), Add(0, None)];
      assert more[1..] == [Add(0, None)] && more[1..][1..] == [];
      assert IsRun(r, more) && After(r, more) == r2;
      assert r2.producers == s.producers;
      RunConcat(s, before, more);
      steps := before + more;
    }
  }

  /** The queue can hold any number of tasks up to its capacity, and no more. */
  lemma {:induction false} LengthsReached(capacity: nat, producers: nat, workers: nat, n: nat)
    requires producers >= 1
    ensures (exists s :: Reached(s, capacity, producers, workers) && s.phase.Open? && |s.queue| == n) <==> n <= capacity
  {
    if n <= capacity {
      var steps := Fill(capacity, producers, workers, n);
      var r := After(Initial(capacity, producers, workers), steps);
      assert Reached(r, capacity, producers, workers);
    }
    forall s | Reached(s, capacity, producers, workers)
      ensures |s.queue| <= capacity
    {
      FirstInFirstOut(s, capacity, producers, workers);
    }
  }
}
