/** The PC's command executor: a lease under a condition variable that prefers the
    foreground, run by any number of threads in any interleaving. */
module Executor {

  type Thread = nat
  type Generation = nat

  /** Where a thread inside a call is: asleep in `wait`, or holding the lease with its
      action not yet or already started. */
  datatype Phase =
    | Waiting(notified: bool)
    | Foreground(started: bool)
    | Maintenance(started: bool)

  predicate Holding(p: Phase) {
    p.Foreground? || p.Maintenance?
  }

  datatype State = State(
    active: bool,
    foregroundWaiters: int,
    valid: bool,
    generation: Generation,
    threads: map<Thread, Phase>)

  /** One step is one stretch under the lock, or the start of an action outside it. */
  datatype Event =
    | EnterForeground(t: Thread, generation: Generation)
    | Wake(t: Thread)
    | StartAction(t: Thread)
    | Release(t: Thread)
    | TryMaintenance(t: Thread, generation: Generation)
    | Invalidate

  function Notified(p: Phase): Phase {
    if p.Waiting? then Waiting(true) else p
  }

  /** `notify_all` */
  function NotifyAll(threads: map<Thread, Phase>): map<Thread, Phase> {
    map t | t in threads :: Notified(threads[t])
  }

  function Without(threads: map<Thread, Phase>, t: Thread): map<Thread, Phase> {
    map u | u in threads && u != t :: threads[u]
  }

  /** A step that is not possible in a state leaves it as it is. */
  predicate Enabled(s: State, ev: Event) {
    match ev
    case EnterForeground(t, _) => t !in s.threads
    case Wake(t) => t in s.threads && s.threads[t] == Waiting(true)
    case StartAction(t) => t in s.threads && Holding(s.threads[t]) && !s.threads[t].started
    case Release(t) => t in s.threads && Holding(s.threads[t])
    case TryMaintenance(t, _) => t !in s.threads
    case Invalidate => true
  }

  /** The loop test of a foreground call: sleep while a command is active, else take
      the lease and stop being a waiter. */
  function SleepOrLease(s: State, t: Thread): State {
    if s.active then s.(threads := s.threads[t := Waiting(false)])
    else s.(active := true, foregroundWaiters := s.foregroundWaiters - 1, threads := s.threads[t := Foreground(false)])
  }

  function Started(p: Phase): Phase
    requires Holding(p)
  {
    if p.Foreground? then Foreground(true) else Maintenance(true)
  }

  function Apply(s: State, ev: Event): State {
    if !Enabled(s, ev) then s
    else match ev
      case EnterForeground(t, generation) =>
        if !s.valid || generation != s.generation then s
        else SleepOrLease(s.(foregroundWaiters := s.foregroundWaiters + 1, threads := NotifyAll(s.threads)), t)
      case Wake(t) =>
        if !s.valid then s.(foregroundWaiters := s.foregroundWaiters - 1, threads := Without(s.threads, t))
        else SleepOrLease(s, t)
      case StartAction(t) => s.(threads := s.threads[t := Started(s.threads[t])])
      case Release(t) => s.(active := false, threads := NotifyAll(Without(s.threads, t)))
      case TryMaintenance(t, generation) =>
        if !s.valid || generation != s.generation || s.active || s.foregroundWaiters != 0 then s
        else s.(active := true, threads := s.threads[t := Maintenance(false)])
      case Invalidate => s.(valid := false, threads := NotifyAll(s.threads))
  }

  function Init(generation: Generation): State {
    State(false, 0, true, generation, map[])
  }

  function After(generation: Generation, run: seq<Event>): State {
    if run == [] then Init(generation) else Apply(After(generation, run[..|run| - 1]), run[|run| - 1])
  }

  // ---------------------------------------------------------------- the invariant

  function Waiters(threads: map<Thread, Phase>): set<Thread> {
    set t | t in threads && threads[t].Waiting?
  }

  /** At most one thread holds the lease, and `active` says whether one does. */
  ghost predicate OneHolder(s: State) {
    && (s.active <==> exists t :: t in s.threads && Holding(s.threads[t]))
    && (forall t, u :: t in s.threads && u in s.threads && Holding(s.threads[t]) && Holding(s.threads[u]) ==> t == u)
  }

  /** A sleeper that was not notified has something to wait for. */
  predicate NoLostWakeup(s: State) {
    forall t :: t in s.threads && s.threads[t] == Waiting(false) ==> s.active && s.valid
  }

  ghost predicate Invariant(s: State) {
    && OneHolder(s)
    && s.foregroundWaiters == |Waiters(s.threads)|
    && NoLostWakeup(s)
  }

  lemma WaitersNotified(threads: map<Thread, Phase>)
    ensures Waiters(NotifyAll(threads)) == Waiters(threads)
  {
  }

  lemma WaitersWithout(threads: map<Thread, Phase>, t: Thread)
    requires t in threads
    ensures |Waiters(Without(threads, t))| == |Waiters(threads)| - if threads[t].Waiting? then 1 else 0
  {
    assert Waiters(Without(threads, t)) == Waiters(threads) - {t};
  }

  lemma WaitersUpdate(threads: map<Thread, Phase>, t: Thread, p: Phase)
    ensures |Waiters(threads[t := p])| == |Waiters(threads)|
              - (if t in threads && threads[t].Waiting? then 1 else 0) + if p.Waiting? then 1 else 0
  {
    var before, after := Waiters(threads), Waiters(threads[t := p]);
    if p.Waiting? {
      assert after == before + {t};
    } else {
      assert after == before - {t};
    }
  }

  /** The end of the foreground loop, with `t` counted as a waiter but not yet asleep. */
  lemma SleepOrLeaseKeeps(s: State, t: Thread)
    requires OneHolder(s) && NoLostWakeup(s) && s.valid
    requires t in s.threads ==> s.threads[t].Waiting?
    requires s.foregroundWaiters == |Waiters(s.threads)| + if t in s.threads then 0 else 1
    ensures Invariant(SleepOrLease(s, t))
  {
    WaitersUpdate(s.threads, t, if s.active then Waiting(false) else Foreground(false));
    var after := SleepOrLease(s, t);
    assert t in after.threads;
    if s.active {
      var h :| h in s.threads && Holding(s.threads[h]);
      assert h in after.threads && Holding(after.threads[h]);
    }
  }

  lemma NotifyKeepsHolder(s: State, threads: map<Thread, Phase>)
    requires OneHolder(s) && threads == NotifyAll(s.threads)
    ensures OneHolder(s.(threads := threads))
  {
    if s.active {
      var h :| h in s.threads && Holding(s.threads[h]);
      assert h in threads && Holding(threads[h]);
    }
  }

  lemma EnterKeeps(s: State, t: Thread, generation: Generation)
    requires Invariant(s)
    ensures Invariant(Apply(s, EnterForeground(t, generation)))
  {
    if t !in s.threads && s.valid && generation == s.generation {
      WaitersNotified(s.threads);
      NotifyKeepsHolder(s, NotifyAll(s.threads));
      SleepOrLeaseKeeps(s.(foregroundWaiters := s.foregroundWaiters + 1, threads := NotifyAll(s.threads)), t);
    }
  }

  lemma WakeKeeps(s: State, t: Thread)
    requires Invariant(s)
    ensures Invariant(Apply(s, Wake(t)))
  {
    if Enabled(s, Wake(t)) {
      if s.valid {
        SleepOrLeaseKeeps(s, t);
      } else {
        WaitersWithout(s.threads, t);
        if s.active {
          var h :| h in s.threads && Holding(s.threads[h]);
          assert h in Without(s.threads, t);
        }
      }
    }
  }

  lemma StartKeeps(s: State, t: Thread)
    requires Invariant(s)
    ensures Invariant(Apply(s, StartAction(t)))
  {
    if Enabled(s, StartAction(t)) {
      var after := Apply(s, StartAction(t));
      WaitersUpdate(s.threads, t, Started(s.threads[t]));
      assert t in after.threads && Holding(after.threads[t]);
    }
  }

  lemma ReleaseKeeps(s: State, t: Thread)
    requires Invariant(s)
    ensures Invariant(Apply(s, Release(t)))
  {
    if Enabled(s, Release(t)) {
      WaitersWithout(s.threads, t);
      WaitersNotified(Without(s.threads, t));
    }
  }

  lemma MaintenanceKeeps(s: State, t: Thread, generation: Generation)
    requires Invariant(s)
    ensures Invariant(Apply(s, TryMaintenance(t, generation)))
  {
    var after := Apply(s, TryMaintenance(t, generation));
    if after != s {
      WaitersUpdate(s.threads, t, Maintenance(false));
      assert t in after.threads && Holding(after.threads[t]);
    }
  }

  lemma InvalidateKeeps(s: State)
    requires Invariant(s)
    ensures Invariant(Apply(s, Invalidate))
  {
    WaitersNotified(s.threads);
    NotifyKeepsHolder(s, NotifyAll(s.threads));
  }

  lemma StepKeepsInvariant(s: State, ev: Event)
    requires Invariant(s)
    ensures Invariant(Apply(s, ev))
  {
    match ev
    case EnterForeground(t, generation) => EnterKeeps(s, t, generation);
    case Wake(t) => WakeKeeps(s, t);
    case StartAction(t) => StartKeeps(s, t);
    case Release(t) => ReleaseKeeps(s, t);
    case TryMaintenance(t, generation) => MaintenanceKeeps(s, t, generation);
    case Invalidate => InvalidateKeeps(s);
  }

  /** For any number of threads and any interleaving: at most one action holds the
      lease, the counter is the number of sleeping foreground calls, and no sleeper is
      forgotten. */
  lemma {:induction false} RunsKeepInvariant(generation: Generation, run: seq<Event>)
    ensures Invariant(After(generation, run))
  {
    if run == [] {
    } else {
      RunsKeepInvariant(generation, run[..|run| - 1]);
      StepKeepsInvariant(After(generation, run[..|run| - 1]), run[|run| - 1]);
    }
  }

  // ---------------------------------------------------------------- priority and closing

  /** The step gives `t` the lease. */
  predicate TakesLease(s: State, ev: Event, t: Thread) {
    var after := Apply(s, ev);
    t in after.threads && Holding(after.threads[t]) && !(t in s.threads && Holding(s.threads[t]))
  }

  /** Maintenance gets the lease exactly when the executor is open, of this generation
      and idle, with no foreground call asleep. */
  lemma MaintenanceYieldsToForeground(generation: Generation, run: seq<Event>, t: Thread, mine: Generation)
    requires t !in After(generation, run).threads
    ensures var s := After(generation, run);
      TakesLease(s, TryMaintenance(t, mine), t) <==>
        && s.valid && mine == generation
        && (forall u :: u in s.threads ==> !Holding(s.threads[u]) && !s.threads[u].Waiting?)
    ensures var s := After(generation, run);
      var after := Apply(s, TryMaintenance(t, mine));
      after == s || (after.active && after == s.(active := true, threads := s.threads[t := Maintenance(false)]))
  {
    var s := After(generation, run);
    RunsKeepInvariant(generation, run);
    GenerationIsFixed(generation, run);
    if s.foregroundWaiters == 0 {
      assert Waiters(s.threads) == {};
      assert forall u :: u in s.threads && s.threads[u].Waiting? ==> u in Waiters(s.threads);
    } else {
      var u :| u in Waiters(s.threads);
    }
  }

  lemma {:induction false} GenerationIsFixed(generation: Generation, run: seq<Event>)
    ensures After(generation, run).generation == generation
  {
    if run != [] {
      GenerationIsFixed(generation, run[..|run| - 1]);
    }
  }

  /** No lease is given out once the executor is closed. */
  lemma NoLeaseAfterInvalidate(s: State, ev: Event, t: Thread)
    requires Invariant(s) && !s.valid
    ensures !Apply(s, ev).valid && !TakesLease(s, ev, t)
  {
  }

  /** The lease is held by a thread whose action has not started. */
  ghost predicate Pending(s: State) {
    exists t :: t in s.threads && Holding(s.threads[t]) && !s.threads[t].started
  }

  lemma {:induction false} StaysClosed(s: State, run: seq<Event>)
    requires Invariant(s) && !s.valid
    ensures Invariant(Continue(s, run)) && !Continue(s, run).valid
    ensures Pending(Continue(s, run)) ==> Pending(s)
  {
    if run == [] {
    } else {
      var before := Continue(s, run[..|run| - 1]);
      StaysClosed(s, run[..|run| - 1]);
      StepKeepsInvariant(before, run[|run| - 1]);
      if Pending(Continue(s, run)) {
        var after := Continue(s, run);
        var t :| t in after.threads && Holding(after.threads[t]) && !after.threads[t].started;
        NoLeaseAfterInvalidate(before, run[|run| - 1], t);
      }
    }
  }

  function Continue(s: State, run: seq<Event>): State {
    if run == [] then s else Apply(Continue(s, run[..|run| - 1]), run[|run| - 1])
  }

  /** The action runs outside the lock, so one can still start after the executor was
      closed: exactly when its lease was already held at that moment. */
  lemma ActionAfterInvalidate(s: State)
    requires Invariant(s)
    ensures (exists run: seq<Event>, t: Thread :: Enabled(Continue(Apply(s, Invalidate), run), StartAction(t))) <==>
            Pending(s)
  {
    var closed := Apply(s, Invalidate);
    InvalidateKeeps(s);
    if Pending(s) {
      var t :| t in s.threads && Holding(s.threads[t]) && !s.threads[t].started;
      assert Continue(closed, []) == closed;
      assert Enabled(Continue(closed, []), StartAction(t));
    }
    if run: seq<Event>, t: Thread :| Enabled(Continue(closed, run), StartAction(t)) {
      StaysClosed(closed, run);
      assert Pending(Continue(closed, run));
      var u :| u in closed.threads && Holding(closed.threads[u]) && !closed.threads[u].started;
      assert s.threads[u] == closed.threads[u];
    }
  }

  /** Such a state is reached: maintenance takes the lease, the executor is closed, and
      the maintenance action starts. */
  lemma ActionCanStartAfterInvalidate(generation: Generation)
    ensures var run := [TryMaintenance(0, generation), Invalidate];
      Enabled(After(generation, run), StartAction(0)) && !After(generation, run).valid
  {
    var first := [TryMaintenance(0, generation)];
    var run := [TryMaintenance(0, generation), Invalidate];
    assert first[..0] == [] && run[..1] == first;
    assert After(generation, first).threads == map[0 := Maintenance(false)];
  }

  // ---------------------------------------------------------------- what the steps do

  /** Someone holds the lease. */
  ghost predicate Busy(s: State) {
    exists h :: h in s.threads && Holding(s.threads[h])
  }

  /** Everyone in a call sleeps and was notified. */
  predicate AllNotified(s: State) {
    forall u :: u in s.threads ==> s.threads[u] == Waiting(true)
  }

  /** Giving the lease back ends the call, leaves the executor idle, and wakes every
      sleeper; no waiter is lost or invented. */
  lemma ReleaseFreesExecutor(generation: Generation, run: seq<Event>, t: Thread)
    requires t in After(generation, run).threads && Holding(After(generation, run).threads[t])
    ensures var s := After(generation, run);
      var after := Apply(s, Release(t));
      && after.threads.Keys == s.threads.Keys - {t}
      && !after.active && !Busy(after) && AllNotified(after)
      && after.foregroundWaiters == s.foregroundWaiters == |after.threads|
      && after.valid == s.valid && after.generation == generation
  {
    var s := After(generation, run);
    var after := Apply(s, Release(t));
    RunsKeepInvariant(generation, run);
    GenerationIsFixed(generation, run);
    forall u | u in after.threads
      ensures after.threads[u] == Waiting(true)
    {
      assert u != t && u in s.threads && !Holding(s.threads[u]);
    }
    ReleaseKeeps(s, t);
    assert Waiters(after.threads) == after.threads.Keys;
    WaitersWithout(s.threads, t);
    WaitersNotified(Without(s.threads, t));
  }

  /** The others in a call are as before, except that sleepers were notified. */
  ghost predicate OthersNotified(s: State, after: State, t: Thread) {
    forall u :: u != t ==>
      && (u in after.threads <==> u in s.threads)
      && (u in s.threads ==> after.threads[u] == if s.threads[u].Waiting? then Waiting(true) else s.threads[u])
  }

  ghost predicate OthersUnchanged(s: State, after: State, t: Thread) {
    forall u :: u != t ==>
      (u in after.threads <==> u in s.threads) && (u in s.threads ==> after.threads[u] == s.threads[u])
  }

  /** A foreground call takes the lease at once exactly when the executor is open, of its
      generation and idle; on an open one that is busy it goes to sleep as one more waiter;
      otherwise it raises and nothing changes. */
  lemma EnterExactly(generation: Generation, run: seq<Event>, t: Thread, mine: Generation)
    requires t !in After(generation, run).threads
    ensures var s := After(generation, run);
      var after := Apply(s, EnterForeground(t, mine));
      && (t in after.threads && Holding(after.threads[t]) <==> s.valid && mine == generation && !Busy(s))
      && (t in after.threads && after.threads[t].Waiting? <==> s.valid && mine == generation && Busy(s))
      && (t !in after.threads ==> after == s)
      && (t in after.threads ==>
            && after.threads[t] == (if Busy(s) then Waiting(false) else Foreground(false))
            && after.active && after.valid && OthersNotified(s, after, t)
            && after.foregroundWaiters == s.foregroundWaiters + if Busy(s) then 1 else 0)
  {
    RunsKeepInvariant(generation, run);
    GenerationIsFixed(generation, run);
  }

  /** A woken sleeper takes the lease exactly when the executor is open and idle, sleeps on
      while it is busy, and leaves when it was closed. */
  lemma WakeExactly(generation: Generation, run: seq<Event>, t: Thread)
    requires t in After(generation, run).threads && After(generation, run).threads[t] == Waiting(true)
    ensures var s := After(generation, run);
      var after := Apply(s, Wake(t));
      && (t in after.threads && Holding(after.threads[t]) <==> s.valid && !Busy(s))
      && (t in after.threads && after.threads[t] == Waiting(false) <==> s.valid && Busy(s))
      && (t !in after.threads <==> !s.valid)
      && OthersUnchanged(s, after, t) && after.valid == s.valid
      && (after.active <==> s.valid || Busy(s))
      && after.foregroundWaiters == s.foregroundWaiters - if s.valid && Busy(s) then 0 else 1
  {
    RunsKeepInvariant(generation, run);
  }

  /** Closing wakes every sleeper and touches no lease. */
  lemma InvalidateClosesExactly(s: State)
    ensures var after := Apply(s, Invalidate);
      && !after.valid && after.active == s.active && after.foregroundWaiters == s.foregroundWaiters
      && after.threads.Keys == s.threads.Keys
      && forall u :: u in s.threads ==>
           after.threads[u] == if s.threads[u].Waiting? then Waiting(true) else s.threads[u]
  {
  }

  /** An action starts once, under a lease that it keeps. */
  lemma StartExactly(s: State, t: Thread)
    requires Enabled(s, StartAction(t))
    ensures var after := Apply(s, StartAction(t));
      && t in after.threads && Holding(after.threads[t]) && after.threads[t].started
      && after.threads[t].Foreground? == s.threads[t].Foreground?
      && !Enabled(after, StartAction(t)) && OthersUnchanged(s, after, t)
      && after.active == s.active && after.foregroundWaiters == s.foregroundWaiters && after.valid == s.valid
  {
  }

  // ---------------------------------------------------------------- progress

  /** Every event of the run is possible when its turn comes. */
  predicate AllEnabled(s: State, run: seq<Event>) {
    forall k :: 0 <= k < |run| ==> Enabled(Continue(s, run[..k]), run[k])
  }

  lemma ContinueTwo(s: State, a: Event, b: Event)
    ensures Continue(s, [a]) == Apply(s, a)
    ensures Continue(s, [a, b]) == Apply(Apply(s, a), b)
    ensures AllEnabled(s, [a]) <==> Enabled(s, a)
    ensures AllEnabled(s, [a, b]) <==> Enabled(s, a) && Enabled(Apply(s, a), b)
  {
    hide Apply, Enabled;
    assert [a][..0] == [] && [a, b][..0] == [] && [a, b][..1] == [a];
    assert Continue(s, []) == s;
    assert [a][0] == a && [a, b][0] == a && [a, b][1] == b;
  }

  lemma AfterOne(generation: Generation, run: seq<Event>, ev: Event)
    ensures After(generation, run + [ev]) == Apply(After(generation, run), ev)
  {
    assert (run + [ev])[..|run|] == run;
  }

  /** No sleeper is stuck: from every reachable state steps that the calls in progress
      take by themselves, a release and a wake, bring it to the lease or out of the call. */
  lemma SleepersAreServed(generation: Generation, run: seq<Event>, t: Thread) returns (more: seq<Event>)
    requires t in After(generation, run).threads && After(generation, run).threads[t].Waiting?
    ensures var s := After(generation, run);
      && AllEnabled(s, more) && |more| <= 2 && (forall ev :: ev in more ==> ev.Release? || ev == Wake(t))
      && (t in Continue(s, more).threads ==> Holding(Continue(s, more).threads[t]))
  {
    var s := After(generation, run);
    RunsKeepInvariant(generation, run);
    if s.valid && Busy(s) {
      var h :| h in s.threads && Holding(s.threads[h]);
      more := [Release(h), Wake(t)];
      ReleaseFreesExecutor(generation, run, h);
      AfterOne(generation, run, Release(h));
      WakeExactly(generation, run + [Release(h)], t);
      ContinueTwo(s, Release(h), Wake(t));
    } else {
      more := [Wake(t)];
      WakeExactly(generation, run, t);
      ContinueTwo(s, Wake(t), Wake(t));
    }
  }
}
