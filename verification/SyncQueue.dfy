/** The queue object itself: what each operation of `SyncQueue` does to the
    fields while it holds the mutex, tied to the steps of the transition system. */
module SyncQueue {
  import T = ThreadPool

  /** How one passage through the critical section ends. */
  datatype Outcome =
    | Waits     // the condition is false: the mutex is released and the thread sleeps
    | Stopped   // returns because of `m_needStop`
    | Passed    // did its work and called `notify_one` on the other condition

  class Queue {
    var queue: seq<T.Task>
    const maxSize: nat
    var needStop: bool

    constructor (capacity: nat)
      ensures maxSize == capacity && queue == [] && !needStop
      ensures forall producers, workers :: Represents(T.Initial(capacity, producers, workers))
    {
      maxSize := capacity;
      queue := [];
      needStop := false;
    }

    ghost predicate Represents(s: T.Pool)
      reads this
    {
      queue == s.queue && maxSize == s.capacity && needStop == T.NeedStop(s)
    }

    predicate NotFull()
      reads this
    {
      !(|queue| >= maxSize)
    }

    predicate NotEmpty()
      reads this
    {
      queue != []
    }

    /** `add`: from locking the mutex to unlocking it, by waiting or by returning. */
    method Add(x: T.Task, ghost s: T.Pool, ghost p: nat, ghost wake: T.Option) returns (outcome: Outcome)
      requires Represents(s) && T.Enabled(s, T.Add(p, wake)) && s.producers[p].task == x
      modifies this`queue
      ensures Represents(T.Apply(s, T.Add(p, wake)))
      ensures outcome.Waits? <==> T.Apply(s, T.Add(p, wake)).producers[p] == T.Blocked(x)
      ensures outcome.Passed? <==> T.Apply(s, T.Add(p, wake)).pushed == s.pushed + [x]
      ensures outcome.Stopped? <==> old(needStop)
      ensures outcome.Waits? <==> !old(needStop) && |old(queue)| >= maxSize
      ensures queue == if outcome.Passed? then old(queue) + [x] else old(queue)
    {
      if !(needStop || NotFull()) {
        return Waits;
      }
      if needStop {
        return Stopped;
      }
      queue := queue + [x];
      assert s.pushed + [x] != s.pushed;
      return Passed;
    }

    /** `take` into a list: the whole queue moves into the caller's empty list. */
    method TakeAll(ghost s: T.Pool, ghost w: nat, ghost wake: T.Option) returns (list: seq<T.Task>, outcome: Outcome)
      requires Represents(s) && T.Enabled(s, T.Take(w, false, wake))
      modifies this`queue
      ensures Represents(T.Apply(s, T.Take(w, false, wake)))
      ensures T.Apply(s, T.Take(w, false, wake)).workers[w] == if outcome.Waits? then T.Sleeping else T.Batch(list)
      ensures T.Apply(s, T.Take(w, false, wake)).taken == s.taken + list
      ensures outcome.Passed? <==> list != []
      ensures outcome.Stopped? <==> old(needStop)
      ensures outcome.Waits? <==> !old(needStop) && old(queue) == []
      ensures if outcome.Passed? then list == old(queue) && queue == [] else queue == old(queue)
    {
      list := [];
      assert s.taken + list == s.taken;
      if !(needStop || NotEmpty()) {
        return list, Waits;
      }
      if needStop {
        return list, Stopped;
      }
      list, queue := queue, [];
      return list, Passed;
    }

    /** `take` of one task; `t` is what the caller's variable held before. */
    method TakeOne(t: T.Task, ghost s: T.Pool, ghost w: nat, ghost wake: T.Option) returns (r: T.Task, outcome: Outcome)
      requires Represents(s) && T.Enabled(s, T.Take(w, true, wake))
      modifies this`queue
      ensures Represents(T.Apply(s, T.Take(w, true, wake)))
      ensures outcome.Passed? ==> T.Apply(s, T.Take(w, true, wake)).workers[w] == T.Batch([r])
      ensures outcome.Passed? ==> T.Apply(s, T.Take(w, true, wake)).taken == s.taken + [r]
      ensures outcome.Waits? <==> T.Apply(s, T.Take(w, true, wake)).workers[w] == T.Sleeping
      ensures !outcome.Passed? ==> r == t
      ensures outcome.Stopped? <==> old(needStop)
      ensures outcome.Waits? <==> !old(needStop) && old(queue) == []
      ensures if outcome.Passed? then old(queue) == [r] + queue else queue == old(queue)
    {
      r := t;
      if !(needStop || NotEmpty()) {
        return r, Waits;
      }
      if needStop {
        return r, Stopped;
      }
      assert queue[..1] == [queue[0]];
      r := queue[0];
      queue := queue[1..];
      return r, Passed;
    }

    /** The critical section of `stop`. */
    method Stop(ghost s: T.Pool)
      requires Represents(s) && T.Enabled(s, T.SetStop)
      modifies this`needStop
      ensures Represents(T.Apply(s, T.SetStop)) && needStop
    {
      needStop := true;
    }
  }
}
