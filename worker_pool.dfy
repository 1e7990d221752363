/**
 * The worker pool of src/app/shared/worker/worker-pool.ts.
 *
 * The pool keeps three pieces of state: the list of workers, the array
 * `queues` (which holds dispatched tasks as well as waiting ones, because
 * `runTask` appends every task it posts) and the set of busy workers.
 * JavaScript delivers every worker message on one thread, so each handler
 * below is one atomic transition. Workers are numbered 0, 1, …; what the
 * pool does to the outside world (postMessage, resolve, reject, terminate)
 * is appended to the ghost `log`.
 */
module WorkerPool {
  import opened Wrappers

  /** One entry of `queues`: the message data and the promise `run` returned for it. */
  datatype Task<D> = Task(promise: nat, data: D)

  /** One effect of the pool on the outside world. */
  datatype Event<D, M, E> =
    | Posted(worker: nat, data: D)               // worker.postMessage(data)
    | Resolved(promise: nat, value: Option<M>)   // resolve(data); None is resolve(null)
    | Rejected(promise: nat, error: E)           // reject(e)
    | Terminated(worker: nat)                    // worker.terminate()

  function Max(a: int, b: int): int { if a >= b then a else b }

  function Min(a: int, b: int): int { if a <= b then a else b }

  /**
   * `workerSize` in initWorkers. An absent or zero `hardwareConcurrency`
   * is falsy and gives the default of 2.
   */
  function PoolSize(hardwareConcurrency: Option<int>): (n: nat)
    ensures 2 <= n <= 4
    ensures hardwareConcurrency.None? || hardwareConcurrency.value <= 3 ==> n == 2
    ensures hardwareConcurrency == Some(4) ==> n == 3
    ensures hardwareConcurrency.Some? && hardwareConcurrency.value >= 5 ==> n == 4
  {
    Max(2, if hardwareConcurrency.Some? && hardwareConcurrency.value != 0
           then Min(4, hardwareConcurrency.value - 1)
           else 2)
  }

  /**
   * `workers.find(w => !busyWorkers.has(w))`, given as the position of the
   * worker found: the first idle worker in pool order, or None when all are busy.
   */
  function FirstIdle(workers: seq<nat>, busy: set<nat>): (r: Option<nat>)
    ensures r.None? <==> forall i :: 0 <= i < |workers| ==> workers[i] in busy
    ensures r.Some? ==> && r.value < |workers| && workers[r.value] !in busy
                        && forall j :: 0 <= j < r.value ==> workers[j] in busy
  {
    if workers == [] then None
    else if workers[0] !in busy then Some(0)
    else match FirstIdle(workers[1..], busy)
      case None => None
      case Some(i) => Some(i + 1)
  }

  /** The effects of resolving every task of `tasks` with `null`, in order. */
  function NullResolutions<D, M, E>(tasks: seq<Task<D>>): (r: seq<Event<D, M, E>>)
    ensures |r| == |tasks|
  {
    seq(|tasks|, k requires 0 <= k < |tasks| => Resolved(tasks[k].promise, None))
  }

  /** The effects of terminating every worker of `workers`, in order. */
  function Terminations<D, M, E>(workers: seq<nat>): (r: seq<Event<D, M, E>>)
    ensures |r| == |workers|
  {
    seq(|workers|, k requires 0 <= k < |workers| => Terminated(workers[k]))
  }

  /** A set of numbers below `n` has at most `n` elements. */
  lemma {:induction false} BoundedBelow(s: set<nat>, n: nat)
    requires forall x :: x in s ==> x < n
    ensures |s| <= n
  {
    if n == 0 {
      assert s == {};
    } else {
      BoundedBelow(s - {n - 1}, n - 1);
    }
  }

  class Pool<D, M, E> {
    var workers: seq<nat>
    var queues: seq<Task<D>>
    var busyWorkers: set<nat>
    /** How many promises `run` has returned; it stands for the identity of the next one. */
    var issued: nat
    /** The workers initWorkers created, whether or not they were destroyed since. */
    ghost var created: seq<nat>
    ghost var log: seq<Event<D, M, E>>

    ghost predicate Valid()
      reads this
    {
      && 2 <= |created| <= 4
      && (forall i :: 0 <= i < |created| ==> created[i] == i)
      && (workers == created || workers == [])
      && (forall w :: w in busyWorkers ==> w < |created|)
    }

    /** The constructor together with initWorkers: PoolSize workers, all idle, nothing queued. */
    constructor (hardwareConcurrency: Option<int>)
      ensures Valid()
      ensures |workers| == PoolSize(hardwareConcurrency) && workers == created
      ensures queues == [] && busyWorkers == {} && issued == 0 && log == []
    {
      var size := PoolSize(hardwareConcurrency);
      var ws: seq<nat> := [];
      for i := 0 to size
        invariant |ws| == i
        invariant forall k :: 0 <= k < i ==> ws[k] == k
      {
        ws := ws + [i];
      }
      workers := ws;
      created := ws;
      queues := [];
      busyWorkers := {};
      issued := 0;
      log := [];
    }

    /** At no time are more workers busy than the pool ever had, so never more than four. */
    lemma BusyBounded()
      requires Valid()
      ensures |busyWorkers| <= |created| <= 4
    {
      BoundedBelow(busyWorkers, |created|);
    }

    /**
     * runTask: marks the worker busy, appends the task to `queues` unless it
     * was taken from there, and posts the data to the worker.
     */
    method RunTask(worker: nat, task: Task<D>, fromQueues: bool)
      requires Valid() && worker in workers
      modifies this
      ensures Valid()
      ensures busyWorkers == old(busyWorkers) + {worker}
      ensures queues == if fromQueues then old(queues) else old(queues) + [task]
      ensures log == old(log) + [Posted(worker, task.data)]
      ensures workers == old(workers) && created == old(created) && issued == old(issued)
    {
      busyWorkers := busyWorkers + {worker};
      if !fromQueues {
        queues := queues + [task];
      }
      log := log + [Posted(worker, task.data)];
    }

    /**
     * run: the new task always goes to the end of `queues`. If some worker
     * is idle, the first one in pool order becomes busy and receives the
     * data; otherwise nothing is posted and the busy set is unchanged.
     */
    method Run(data: D) returns (promise: nat)
      requires Valid()
      modifies this
      ensures Valid()
      ensures promise == old(issued) && issued == old(issued) + 1
      ensures queues == old(queues) + [Task(promise, data)]
      ensures workers == old(workers) && created == old(created)
      ensures var free := FirstIdle(old(workers), old(busyWorkers));
              if free.None? then busyWorkers == old(busyWorkers) && log == old(log)
              else && busyWorkers == old(busyWorkers) + {old(workers)[free.value]}
                   && log == old(log) + [Posted(old(workers)[free.value], data)]
    {
      promise := issued;
      issued := issued + 1;
      var free := FirstIdle(workers, busyWorkers);
      if free.Some? {
        RunTask(workers[free.value], Task(promise, data), false);
      } else {
        queues := queues + [Task(promise, data)];
      }
    }

    /**
     * cleanup: the worker leaves the busy set; if a task is queued, the head
     * is shifted off and run on this worker, which appends it again at the tail.
     */
    method Cleanup(worker: nat)
      requires Valid() && worker in workers
      modifies this
      ensures Valid()
      ensures workers == old(workers) && created == old(created) && issued == old(issued)
      ensures old(queues) == [] ==>
                && queues == [] && busyWorkers == old(busyWorkers) - {worker} && log == old(log)
      ensures old(queues) != [] ==>
                && queues == old(queues)[1..] + [old(queues)[0]]
                && busyWorkers == old(busyWorkers) + {worker}
                && log == old(log) + [Posted(worker, old(queues)[0].data)]
    {
      busyWorkers := busyWorkers - {worker};
      if |queues| > 0 {
        var next := queues[0];
        queues := queues[1..];
        RunTask(worker, next, false);
      }
    }

    /**
     * handleResult, the worker's `onmessage`: resolves the LAST task of
     * `queues` with the message without removing it, then shifts off the
     * FIRST task and posts it again to the same worker (without appending
     * it again). With nothing queued the worker just becomes idle.
     */
    method HandleResult(worker: nat, data: M)
      requires Valid() && worker in workers
      modifies this
      ensures Valid()
      ensures workers == old(workers) && created == old(created) && issued == old(issued)
      ensures old(queues) == [] ==>
                && queues == [] && busyWorkers == old(busyWorkers) - {worker} && log == old(log)
      ensures old(queues) != [] ==>
                && queues == old(queues)[1..]
                && busyWorkers == old(busyWorkers) + {worker}
                && log == old(log) + [Resolved(old(queues)[|old(queues)| - 1].promise, Some(data)),
                                      Posted(worker, old(queues)[0].data)]
    {
      busyWorkers := busyWorkers - {worker};
      if |queues| > 0 {
        log := log + [Resolved(queues[|queues| - 1].promise, Some(data))];
      }
      if |queues| > 0 {
        var task := queues[0];
        queues := queues[1..];
        RunTask(worker, task, true);
      } else {
        Cleanup(worker);
      }
    }

    /**
     * handleErrorResult, the worker's `onerror`: rejects and drops the head
     * of `queues`, then cleanup moves the next head (if any) to the tail and
     * posts it to the same worker.
     */
    method HandleErrorResult(worker: nat, e: E)
      requires Valid() && worker in workers
      modifies this
      ensures Valid()
      ensures workers == old(workers) && created == old(created) && issued == old(issued)
      ensures old(queues) == [] ==>
                && queues == [] && busyWorkers == old(busyWorkers) - {worker} && log == old(log)
      ensures |old(queues)| == 1 ==>
                && queues == [] && busyWorkers == old(busyWorkers) - {worker}
                && log == old(log) + [Rejected(old(queues)[0].promise, e)]
      ensures |old(queues)| >= 2 ==>
                && queues == old(queues)[2..] + [old(queues)[1]]
                && busyWorkers == old(busyWorkers) + {worker}
                && log == old(log) + [Rejected(old(queues)[0].promise, e),
                                      Posted(worker, old(queues)[1].data)]
    {
      if |queues| > 0 {
        var task := queues[0];
        queues := queues[1..];
        log := log + [Rejected(task.promise, e)];
      }
      Cleanup(worker);
    }

    /**
     * cleanupAllWorkers: every task in `queues` is resolved with `null`, in
     * queue order; afterwards nothing is queued and no worker counts as busy.
     */
    method CleanupAllWorkers()
      requires Valid()
      modifies this
      ensures Valid()
      ensures queues == [] && busyWorkers == {}
      ensures log == old(log) + NullResolutions(old(queues))
      ensures workers == old(workers) && created == old(created) && issued == old(issued)
    {
      busyWorkers := {};
      for i := 0 to |queues|
        invariant log == old(log) + NullResolutions(queues[..i])
        invariant queues == old(queues) && busyWorkers == {}
        invariant workers == old(workers) && created == old(created) && issued == old(issued)
      {
        log := log + [Resolved(queues[i].promise, None)];
      }
      queues := [];
    }

    /**
     * destroyWorkers: detaches and terminates every worker, then empties the
     * list. `queues` and the busy set are left as they were; a second call
     * finds no workers and does nothing.
     */
    method DestroyWorkers()
      requires Valid()
      modifies this
      ensures Valid()
      ensures workers == []
      ensures log == old(log) + Terminations(old(workers))
      ensures old(workers) == [] ==> log == old(log)
      ensures queues == old(queues) && busyWorkers == old(busyWorkers)
      ensures created == old(created) && issued == old(issued)
    {
      for i := 0 to |workers|
        invariant log == old(log) + Terminations(workers[..i])
        invariant workers == old(workers) && queues == old(queues) && busyWorkers == old(busyWorkers)
        invariant created == old(created) && issued == old(issued)
      {
        log := log + [Terminated(workers[i])];
      }
      workers := [];
    }
  }

  /**
   * Two workers, five tasks: the first completion resolves the promise of
   * the fifth task with the first task's result, and posts the first task's
   * data to worker 0 again; this first result does not dispatch the third task.
   */
  method CompletionScenario() returns (pool: Pool<int, string, string>, promises: seq<nat>)
    ensures fresh(pool) && pool.Valid() && pool.workers == [0, 1]
    ensures promises == [0, 1, 2, 3, 4]
    ensures pool.log == [Posted(0, 10), Posted(1, 20), Resolved(4, Some("cells of 10")), Posted(0, 10)]
    ensures pool.queues == [Task(1, 20), Task(2, 30), Task(3, 40), Task(4, 50)]
    ensures pool.busyWorkers == {0, 1}
  {
    pool := new Pool(Some(3));
    var p1 := pool.Run(10);
    var p2 := pool.Run(20);
    var p3 := pool.Run(30);
    var p4 := pool.Run(40);
    var p5 := pool.Run(50);
    promises := [p1, p2, p3, p4, p5];
    pool.HandleResult(0, "cells of 10");
  }

  /**
   * A worker error: the failing task is rejected, the worker becomes idle,
   * and the next `run` is dispatched to that same worker.
   */
  method ErrorScenario() returns (pool: Pool<int, string, string>)
    ensures pool.Valid()
    ensures pool.log == [Posted(0, 10), Rejected(0, "boom"), Posted(0, 20)]
    ensures pool.queues == [Task(1, 20)] && pool.busyWorkers == {0}
  {
    pool := new Pool(None);
    var p1 := pool.Run(10);
    pool.HandleErrorResult(0, "boom");
    var p2 := pool.Run(20);
  }

  /**
   * After destroyWorkers, run finds no worker: the task is only appended to
   * `queues`, nothing is posted, and a second destroyWorkers does nothing.
   */
  method DestroyedScenario() returns (pool: Pool<int, string, string>)
    ensures pool.Valid() && pool.workers == []
    ensures pool.log == [Terminated(0), Terminated(1)]
    ensures pool.queues == [Task(0, 10)] && pool.busyWorkers == {}
  {
    pool := new Pool(Some(2));
    pool.DestroyWorkers();
    pool.DestroyWorkers();
    var p1 := pool.Run(10);
  }

  /**
   * One feature after another, as updateHexagons awaits them: the first
   * reply resolves the first promise but posts the first task again to
   * worker 0; the second run goes to worker 1; and worker 0's second reply,
   * computed from the first task's data, resolves the SECOND promise.
   */
  method MisresolveScenario() returns (pool: Pool<int, string, string>, p1: nat, p2: nat)
    ensures fresh(pool) && pool.Valid() && pool.workers == [0, 1]
    ensures p1 == 0 && p2 == 1
    ensures pool.log == [Posted(0, 10), Resolved(0, Some("cells of 10")), Posted(0, 10),
                         Posted(1, 20), Resolved(1, Some("cells of 10 again")), Posted(0, 20)]
  {
    pool := new Pool(None);
    p1 := pool.Run(10);
    pool.HandleResult(0, "cells of 10");
    p2 := pool.Run(20);
    pool.HandleResult(0, "cells of 10 again");
  }
}
