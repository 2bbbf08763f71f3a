/** What each notification does, whoever else is busy, and what that amounts to
    over whole runs. */
module PoolWakeups {
  import opened ThreadPool
  import opened PoolSafety
  import opened PoolQueue
  import opened PoolStop

  function SleepingCount(ws: seq<Worker>): nat {
    if ws == [] then 0 else (if ws[0].Sleeping? then 1 else 0) + SleepingCount(ws[1..])
  }

  function BlockedCount(ps: seq<Producer>): nat {
    if ps == [] then 0 else (if ps[0].Blocked? then 1 else 0) + BlockedCount(ps[1..])
  }

  function TryingCount(ps: seq<Producer>): nat {
    if ps == [] then 0 else (if ps[0].Trying? then 1 else 0) + TryingCount(ps[1..])
  }

  lemma {:induction false} SleepingUpdate(ws: seq<Worker>, i: nat, x: Worker)
    requires i < |ws|
    ensures SleepingCount(ws[i := x]) + (if ws[i].Sleeping? then 1 else 0)
         == SleepingCount(ws) + (if x.Sleeping? then 1 else 0)
    decreases |ws|
  {
    if i > 0 {
      SleepingUpdate(ws[1..], i - 1, x);
      assert ws[i := x][1..] == ws[1..][i - 1 := x];
    } else {
      assert ws[i := x][1..] == ws[1..];
    }
  }

  lemma {:induction false} BlockedUpdate(ps: seq<Producer>, i: nat, x: Producer)
    requires i < |ps|
    ensures BlockedCount(ps[i := x]) + (if ps[i].Blocked? then 1 else 0)
         == BlockedCount(ps) + (if x.Blocked? then 1 else 0)
    ensures TryingCount(ps[i := x]) + (if ps[i].Trying? then 1 else 0)
         == TryingCount(ps) + (if x.Trying? then 1 else 0)
    decreases |ps|
  {
    if i > 0 {
      BlockedUpdate(ps[1..], i - 1, x);
      assert ps[i := x][1..] == ps[1..][i - 1 := x];
    } else {
      assert ps[i := x][1..] == ps[1..];
    }
  }

  lemma {:induction false} NoneSleeping(ws: seq<Worker>)
    ensures SleepingCount(ws) == 0 <==> !AnySleeping(ws)
    decreases |ws|
  {
    if ws != [] {
      NoneSleeping(ws[1..]);
      assert AnySleeping(ws) <==> ws[0].Sleeping? || AnySleeping(ws[1..]) by {
        assert forall i :: 0 <= i < |ws| ==> ws[i] == if i == 0 then ws[0] else ws[1..][i - 1];
        assert forall i :: 0 <= i < |ws[1..]| ==> ws[1..][i] == ws[i + 1];
      }
    }
  }

  lemma {:induction false} NoneBlocked(ps: seq<Producer>)
    ensures BlockedCount(ps) == 0 <==> !AnyBlocked(ps)
    decreases |ps|
  {
    if ps != [] {
      NoneBlocked(ps[1..]);
      assert AnyBlocked(ps) <==> ps[0].Blocked? || AnyBlocked(ps[1..]) by {
        assert forall i :: 0 <= i < |ps| ==> ps[i] == if i == 0 then ps[0] else ps[1..][i - 1];
        assert forall i :: 0 <= i < |ps[1..]| ==> ps[1..][i] == ps[i + 1];
      }
    }
  }

  /** Every push wakes exactly one sleeping worker if there is any, no matter what
      the others are doing; an `add` that does not push wakes nobody. */
  lemma {:induction false} PushWakesOne(s: Pool, p: nat, wake: Option)
    requires Enabled(s, Add(p, wake))
    ensures var r := Apply(s, Add(p, wake));
      SleepingCount(r.workers) ==
        if r.pushed != s.pushed && SleepingCount(s.workers) > 0 then SleepingCount(s.workers) - 1
        else SleepingCount(s.workers)
  {
    NoneSleeping(s.workers);
    if wake.Some? {
      SleepingUpdate(s.workers, wake.index, Taking);
    }
  }

  /** Every `take` that gets something wakes exactly one blocked caller if there is any. */
  lemma {:induction false} TakeWakesOne(s: Pool, w: nat, one: bool, wake: Option)
    requires Enabled(s, Take(w, one, wake))
    ensures var r := Apply(s, Take(w, one, wake));
      BlockedCount(r.producers) ==
        if r.taken != s.taken && BlockedCount(s.producers) > 0 then BlockedCount(s.producers) - 1
        else BlockedCount(s.producers)
  {
    NoneBlocked(s.producers);
    if wake.Some? {
      BlockedUpdate(s.producers, wake.index, Trying(s.producers[wake.index].task));
    }
  }

  // ----- which steps a thread can always take -----

  /** A thread that wants the mutex gets it, in either `take`; `notify_one` may
      wake any sleeping thread; and any sleeping thread may wake up by itself. */
  lemma {:induction false} AnyThreadCanMove(s: Pool, i: nat, j: nat)
    ensures i < |s.workers| && s.workers[i].Taking? ==>
      (exists wake :: Enabled(s, Take(i, true, wake))) && (exists wake :: Enabled(s, Take(i, false, wake)))
    ensures i < |s.producers| && s.producers[i].Trying? ==> exists wake :: Enabled(s, Add(i, wake))
    ensures (&& i < |s.producers| && s.producers[i].Trying? && s.phase.Open? && |s.queue| < s.capacity
             && j < |s.workers| && s.workers[j].Sleeping?) ==>
        Enabled(s, Add(i, Some(j))) && Apply(s, Add(i, Some(j))).workers[j].Taking?
    ensures (&& i < |s.workers| && s.workers[i].Taking? && s.phase.Open? && s.queue != []
             && j < |s.producers| && s.producers[j].Blocked?) ==>
        forall one :: Enabled(s, Take(i, one, Some(j)))
          && Apply(s, Take(i, one, Some(j))).producers[j] == Trying(s.producers[j].task)
    ensures i < |s.workers| && s.workers[i].Sleeping? ==>
      Enabled(s, StirWorker(i)) && Apply(s, StirWorker(i)).workers == s.workers[i := Taking]
    ensures i < |s.producers| && s.producers[i].Blocked? ==>
      Enabled(s, StirProducer(i))
      && Apply(s, StirProducer(i)).producers == s.producers[i := Trying(s.producers[i].task)]
  {
    var p, w := WakesAny(s.producers, s.workers);
    if i < |s.workers| && s.workers[i].Taking? {
      var wake := if !NeedStop(s) && s.queue != [] then p else None;
      assert Enabled(s, Take(i, true, wake)) && Enabled(s, Take(i, false, wake));
    }
    if i < |s.producers| && s.producers[i].Trying? {
      TryingCanAdd(s, i);
      var wake :| Enabled(s, Add(i, wake));
    }
  }

  // ----- blocked callers and free places -----

  /** Batches free more places than the one caller they notify: how many more,
      over a run. */
  function Surplus(s: Pool, steps: seq<Step>): nat
    requires IsRun(s, steps)
    decreases |steps|
  {
    if steps == [] then 0
    else
      var r := Apply(s, steps[0]);
      var n := |Added(s.taken, r.taken)|;
      (if n > 1 then n - 1 else 0) + Surplus(r, steps[1..])
  }

  /** While a caller is blocked, each free place has a caller on its way to fill
      it, but for `k` of them. */
  ghost predicate RoomCovered(s: Pool, k: nat) {
    s.phase.Open? && AnyBlocked(s.producers) ==> s.capacity <= |s.queue| + TryingCount(s.producers) + k
  }

  lemma {:induction false} AddKeepsRoom(s: Pool, p: nat, wake: Option, k: nat)
    requires Enabled(s, Add(p, wake)) && RoomCovered(s, k)
    ensures RoomCovered(StepAdd(s, p, wake), k)
  {
    var r := StepAdd(s, p, wake);
    BlockedUpdate(s.producers, p, r.producers[p]);
    assert forall i :: 0 <= i < |s.producers| && i != p ==> r.producers[i] == s.producers[i];
  }

  lemma {:induction false} TakeKeepsRoom(s: Pool, w: nat, one: bool, wake: Option, k: nat)
    requires Enabled(s, Take(w, one, wake)) && RoomCovered(s, k)
    ensures var r := StepTake(s, w, one, wake);
      var n := |Added(s.taken, r.taken)|;
      RoomCovered(r, k + if n > 1 then n - 1 else 0)
  {
    if wake.Some? {
      BlockedUpdate(s.producers, wake.index, Trying(s.producers[wake.index].task));
    }
  }

  lemma {:induction false} StepKeepsRoom(s: Pool, step: Step, k: nat)
    requires Enabled(s, step) && RoomCovered(s, k)
    ensures var r := Apply(s, step);
      var n := |Added(s.taken, r.taken)|;
      RoomCovered(r, k + if n > 1 then n - 1 else 0)
  {
    var r := Apply(s, step);
    if step.Add? {
      AddKeepsRoom(s, step.p, step.wake, k);
    } else if step.Take? {
      TakeKeepsRoom(s, step.w, step.one, step.wake, k);
    } else if step.Submit? || step.StirProducer? {
      BlockedUpdate(s.producers, step.p, r.producers[step.p]);
      assert forall i :: 0 <= i < |s.producers| && i != step.p ==> r.producers[i] == s.producers[i];
    }
  }

  lemma {:induction false} RunKeepsRoom(s: Pool, steps: seq<Step>, k: nat)
    requires IsRun(s, steps) && RoomCovered(s, k)
    ensures RoomCovered(After(s, steps), k + Surplus(s, steps))
    decreases |steps|
  {
    if steps != [] {
      var r := Apply(s, steps[0]);
      var n := |Added(s.taken, r.taken)|;
      StepKeepsRoom(s, steps[0], k);
      RunKeepsRoom(r, steps[1..], k + if n > 1 then n - 1 else 0);
    }
  }

  /** Over all runs of an open pool, for every capacity: while a caller is blocked,
      the free places without a caller on its way are at most the surplus of the
      batches; with single takes there is none. */
  lemma {:induction false} BlockedCallersCovered(capacity: nat, producers: nat, workers: nat, steps: seq<Step>)
    requires IsRun(Initial(capacity, producers, workers), steps)
    ensures var s := Initial(capacity, producers, workers); var r := After(s, steps);
      r.phase.Open? && AnyBlocked(r.producers) ==>
        capacity <= |r.queue| + TryingCount(r.producers) + Surplus(s, steps)
  {
    var s := Initial(capacity, producers, workers);
    InitialInv(capacity, producers, workers);
    RunInv(s, steps);
    RunKeepsRoom(s, steps, 0);
  }

  lemma {:induction false} SingleTakesHaveNoSurplus(s: Pool, steps: seq<Step>)
    requires IsRun(s, steps) && forall i :: 0 <= i < |steps| && steps[i].Take? ==> steps[i].one
    ensures Surplus(s, steps) == 0
    decreases |steps|
  {
    if steps != [] {
      assert steps[0].Take? ==> steps[0].one;
      StepExtendsHistories(s, steps[0]);
      SingleTakesHaveNoSurplus(Apply(s, steps[0]), steps[1..]);
    }
  }
}
