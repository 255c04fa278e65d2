/** The executor object, one method for every stretch that runs under the lock. */
module CommandExecutor {
  import opened Executor

  datatype Outcome = Closed | Stale | Available | Sleep | Leased | Busy

  class ConnectionCommandExecutor {
    const generation: Generation
    var active: bool
    var foregroundWaiters: int
    var valid: bool
    /** The calls in progress; `notify_all` acts on those that sleep. */
    ghost var threads: map<Thread, Phase>

    constructor (g: Generation)
      ensures State() == Init(g)
    {
      generation := g;
      active := false;
      foregroundWaiters := 0;
      valid := true;
      threads := map[];
    }

    ghost function State(): State
      reads this
    {
      Executor.State(active, foregroundWaiters, valid, generation, threads)
    }

    method NotifyAll()
      modifies `threads
      ensures threads == Executor.NotifyAll(old(threads))
    {
      threads := Executor.NotifyAll(threads);
    }

    method RaiseIfUnavailable(g: Generation) returns (r: Outcome)
      ensures r == if !valid then Closed else if g != generation then Stale else Available
    {
      if !valid {
        return Closed;
      }
      if g != generation {
        return Stale;
      }
      return Available;
    }

    /** From the call to the first `wait`, or to the lease. */
    method EnterForeground(ghost t: Thread, g: Generation) returns (r: Outcome)
      requires t !in threads
      modifies this
      ensures State() == Apply(old(State()), Event.EnterForeground(t, g))
      ensures r == if !old(valid) then Closed else if g != generation then Stale
                   else if old(active) then Sleep else Leased
    {
      r := RaiseIfUnavailable(g);
      if r != Available {
        return;
      }
      foregroundWaiters := foregroundWaiters + 1;
      NotifyAll();
      r := SleepOrLease(t);
    }

    /** From a `wait` that returned to the next one, to the lease, or to the exception. */
    method Wake(ghost t: Thread, g: Generation) returns (r: Outcome)
      requires t in threads && threads[t] == Waiting(true) && g == generation
      modifies this
      ensures State() == Apply(old(State()), Event.Wake(t))
      ensures r == if !old(valid) then Closed else if old(active) then Sleep else Leased
    {
      r := RaiseIfUnavailable(g);
      if r != Available {
        foregroundWaiters := foregroundWaiters - 1;
        threads := Without(threads, t);
        return;
      }
      r := SleepOrLease(t);
    }

    /** The test of the wait loop, and what follows it. */
    method SleepOrLease(ghost t: Thread) returns (r: Outcome)
      modifies this
      ensures State() == Executor.SleepOrLease(old(State()), t)
      ensures r == if old(active) then Sleep else Leased
    {
      if active {
        threads := threads[t := Waiting(false)];
        return Sleep;
      }
      active := true;
      foregroundWaiters := foregroundWaiters - 1;
      threads := threads[t := Foreground(false)];
      return Leased;
    }

    method TryMaintenance(ghost t: Thread, g: Generation) returns (r: Outcome)
      requires t !in threads
      modifies this
      ensures State() == Apply(old(State()), Event.TryMaintenance(t, g))
      ensures r == if !old(valid) then Closed else if g != generation then Stale
                   else if old(active) || old(foregroundWaiters) != 0 then Busy else Leased
    {
      if !valid {
        return Closed;
      }
      if g != generation {
        return Stale;
      }
      if active || foregroundWaiters != 0 {
        return Busy;
      }
      active := true;
      threads := threads[t := Maintenance(false)];
      return Leased;
    }

    /** The `finally` behind an action. */
    method Release(ghost t: Thread)
      requires t in threads && Holding(threads[t])
      modifies this
      ensures State() == Apply(old(State()), Event.Release(t))
    {
      active := false;
      threads := Without(threads, t);
      NotifyAll();
    }

    method Invalidate()
      modifies this
      ensures State() == Apply(old(State()), Event.Invalidate)
    {
      valid := false;
      NotifyAll();
    }
  }
}
