/**
 * The `throttle` wrapper of src/app/shared/optimization/throttle/throttle.ts.
 *
 * The closure variable `inThrottle` becomes a field of a `Throttled` object;
 * calling the wrapper is `Call`, and the `setTimeout` callback firing is the
 * explicit event `Expire`, so real time is left out. The wrapped function is
 * the parameter `fn`, from the `this` value and the arguments to what the
 * call returns or throws.
 */
module Throttle {
  import opened Wrappers

  /** How a call of `fn` ends. */
  datatype Outcome<R, E> = Returned(value: R) | Threw(error: E)

  /** What a throttled function does over its life, in order. */
  datatype Event<T, A> =
    | Invoked(self: T, args: A)   // `fn.apply(this, args)`
    | Scheduled(delay: int)       // `setTimeout(..., limit)`
    | Reset                       // the timer callback clears the flag

  /** Any two invocations of `fn` have a reset between them. */
  ghost predicate Separated<T, A>(h: seq<Event<T, A>>) {
    forall i, j :: 0 <= i < j < |h| && h[i].Invoked? && h[j].Invoked? ==>
      exists k :: i < k < j && h[k].Reset?
  }

  /** The number of invocations since the last reset. */
  function InvokedSinceReset<T, A>(h: seq<Event<T, A>>): (n: nat)
    ensures n <= |h|
  {
    if h == [] || h[|h| - 1].Reset? then 0
    else InvokedSinceReset(h[..|h| - 1]) + (if h[|h| - 1].Invoked? then 1 else 0)
  }

  /** The number of timers scheduled since the last reset. */
  function ScheduledSinceReset<T, A>(h: seq<Event<T, A>>): (n: nat)
    ensures n <= |h|
  {
    if h == [] || h[|h| - 1].Reset? then 0
    else ScheduledSinceReset(h[..|h| - 1]) + (if h[|h| - 1].Scheduled? then 1 else 0)
  }

  /** With no invocation since the last reset, every earlier invocation is followed by a reset. */
  lemma {:induction false} NoneSinceReset<T, A>(h: seq<Event<T, A>>, i: nat)
    requires InvokedSinceReset(h) == 0
    requires i < |h| && h[i].Invoked?
    ensures exists k :: i < k < |h| && h[k].Reset?
  {
    var last := |h| - 1;
    if h[last].Reset? {
      assert i < last;
    } else {
      assert i < last;
      NoneSinceReset(h[..last], i);
      var k :| i < k < last && h[..last][k].Reset?;
      assert h[k].Reset?;
    }
  }

  /** An invocation right after a reset (or at the start) keeps invocations separated. */
  lemma InvokeKeepsSeparated<T, A>(h: seq<Event<T, A>>, e: Event<T, A>)
    requires Separated(h) && InvokedSinceReset(h) == 0
    ensures Separated(h + [e])
  {
    var h' := h + [e];
    forall i, j | 0 <= i < j < |h'| && h'[i].Invoked? && h'[j].Invoked?
      ensures exists k :: i < k < j && h'[k].Reset?
    {
      if j < |h| {
        assert h[i].Invoked? && h[j].Invoked?;
        var k :| i < k < j && h[k].Reset?;
        assert h'[k].Reset?;
      } else {
        assert h[i].Invoked?;
        NoneSinceReset(h, i);
        var k :| i < k < |h| && h[k].Reset?;
        assert h'[k].Reset?;
      }
    }
  }

  /** Appending an event that is not an invocation keeps invocations separated. */
  lemma QuietKeepsSeparated<T, A>(h: seq<Event<T, A>>, e: Event<T, A>)
    requires Separated(h) && !e.Invoked?
    ensures Separated(h + [e])
  {
    var h' := h + [e];
    forall i, j | 0 <= i < j < |h'| && h'[i].Invoked? && h'[j].Invoked?
      ensures exists k :: i < k < j && h'[k].Reset?
    {
      assert j < |h| && h[i].Invoked? && h[j].Invoked?;
      var k :| i < k < j && h[k].Reset?;
      assert h'[k].Reset?;
    }
  }

  /** The function returned by `throttle(fn, limit)`, with its `inThrottle` flag. */
  class Throttled<T, A, R, E> {
    const fn: (T, A) -> Outcome<R, E>
    const limit: int
    var inThrottle: bool
    /** Every invocation, timer and reset so far. */
    ghost var history: seq<Event<T, A>>

    /**
     * The flag is set exactly while one invocation is outstanding since the
     * last reset; at most that invocation's timer is pending (none if `fn`
     * threw); and `fn` never ran twice without a reset in between.
     */
    ghost predicate Valid()
      reads this
    {
      && Separated(history)
      && InvokedSinceReset(history) == (if inThrottle then 1 else 0)
      && ScheduledSinceReset(history) <= InvokedSinceReset(history)
    }

    /** `throttle(fn, limit)`: the flag starts cleared. */
    constructor (fn: (T, A) -> Outcome<R, E>, limit: int)
      ensures Valid()
      ensures this.fn == fn && this.limit == limit
      ensures !inThrottle && history == []
    {
      this.fn := fn;
      this.limit := limit;
      inThrottle := false;
      history := [];
    }

    /**
     * One call of the throttled function. Unthrottled, it sets the flag and
     * invokes `fn` with the same `this` and arguments; if `fn` returns, one
     * reset is scheduled after `limit` and `fn`'s result is returned; if `fn`
     * throws, the exception propagates before `setTimeout` is reached, so no
     * reset is scheduled and the flag stays set. Throttled, it does nothing
     * and returns `undefined` (None).
     */
    method Call(self: T, args: A) returns (result: Option<Outcome<R, E>>)
      requires Valid()
      modifies this
      ensures Valid()
      ensures !old(inThrottle) && fn(self, args).Returned? ==>
                && result == Some(fn(self, args)) && inThrottle
                && history == old(history) + [Invoked(self, args), Scheduled(limit)]
      ensures !old(inThrottle) && fn(self, args).Threw? ==>
                && result == Some(fn(self, args)) && inThrottle
                && history == old(history) + [Invoked(self, args)]
                && ScheduledSinceReset(history) == 0
      ensures old(inThrottle) ==> result == None && inThrottle && history == old(history)
    {
      if !inThrottle {
        inThrottle := true;
        var outcome := fn(self, args);
        InvokeKeepsSeparated(history, Invoked(self, args));
        history := history + [Invoked(self, args)];
        assert history[..|history| - 1] == old(history);
        if outcome.Threw? {
          return Some(outcome);
        }
        QuietKeepsSeparated(history, Scheduled(limit));
        history := history + [Scheduled(limit)];
        assert history[..|history| - 1][..|history| - 2] == old(history);
        return Some(outcome);
      }
      return None;
    }

    /** The scheduled timer fires: `inThrottle = false`. */
    method Expire()
      requires Valid() && ScheduledSinceReset(history) > 0
      modifies this
      ensures Valid()
      ensures !inThrottle && history == old(history) + [Reset]
    {
      QuietKeepsSeparated(history, Reset);
      inThrottle := false;
      history := history + [Reset];
    }
  }

  /**
   * A call, a second call before the timer fires, the timer, and a third
   * call: `fn` runs for the first and third only.
   */
  method BurstScenario<T, A, R, E>(fn: (T, A) -> Outcome<R, E>, limit: int, self: T, a1: A, a2: A, a3: A)
    returns (r1: Option<Outcome<R, E>>, r2: Option<Outcome<R, E>>, r3: Option<Outcome<R, E>>)
    requires fn(self, a1).Returned?
    ensures r1 == Some(fn(self, a1)) && r2 == None && r3 == Some(fn(self, a3))
  {
    var throttled := new Throttled(fn, limit);
    r1 := throttled.Call(self, a1);
    r2 := throttled.Call(self, a2);
    throttled.Expire();
    r3 := throttled.Call(self, a3);
  }

  /**
   * When `fn` throws, no timer is pending, so Expire can never fire: the flag
   * stays set and every later call returns `undefined` without running `fn`.
   */
  method ThrowScenario<T, A, R, E>(fn: (T, A) -> Outcome<R, E>, limit: int, self: T, a1: A, a2: A)
    returns (throttled: Throttled<T, A, R, E>, r1: Option<Outcome<R, E>>, r2: Option<Outcome<R, E>>)
    requires fn(self, a1).Threw?
    ensures r1 == Some(fn(self, a1)) && r2 == None
    ensures throttled.Valid() && throttled.inThrottle && ScheduledSinceReset(throttled.history) == 0
  {
    throttled := new Throttled(fn, limit);
    r1 := throttled.Call(self, a1);
    r2 := throttled.Call(self, a2);
  }
}
