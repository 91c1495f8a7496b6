/**
 When a wakeup can be lost. A timed-out waiter may take a signal with it (IEEE Std 1003.1-2008,
 System Interfaces, pthread_cond_timedwait()), and the code then returns without passing it on.
 Both sides of the queue are treated alike: `pops` selects consumers and queued frames, or
 producers and free slots.
 */
module Wakeups {
  import opened Machine
  import opened Frames
  import opened QueueMonitor

  /** What the sleepers of one side wait for: queued frames, or free slots. */
  function Available(s: State, pops: bool): int {
    if pops then |s.queue| else s.capacity - |s.queue|
  }

  /** Waiters of one side that were signalled and nevertheless reported a timeout. */
  function Lost(s: State, pops: bool): nat {
    if pops then s.lostPops else s.lostPushes
  }

  /** While one of this side sleeps, whatever is available is matched by one woken and yet to run. */
  ghost predicate WakeupsKept(s: State, pops: bool) {
    !s.closed && Sleepers(s.threads, pops) != {} ==> Available(s, pops) <= |Pending(s.threads, pops)|
  }

  /** Something is available, one that waits for it sleeps, and nobody is left that could wake it. */
  ghost predicate Stranded(s: State, pops: bool) {
    && !s.closed && Available(s, pops) > 0 && Sleepers(s.threads, pops) != {}
    && (forall t :: t in s.threads ==> !s.threads[t].Entering? && !s.threads[t].Woken?)
  }

  lemma StrandedLost(s: State, pops: bool)
    requires Stranded(s, pops)
    ensures !WakeupsKept(s, pops)
  {
    assert Pending(s.threads, pops) == {};
  }

  // ----- Without lost signals ------------------------------------------------------------------

  lemma StepKeeps(s: State, step: Step)
    requires Enabled(s, step)
    ensures Apply(s, step).capacity == s.capacity
    ensures Apply(s, step).threads.Keys == s.threads.Keys
  {
    hide SignalMayWake;
  }

  /** In every run, the wakeups missing on a side never exceed the signals it lost. */
  lemma MissingWakeupsBounded(capacity: nat, threads: set<Tid>, run: seq<Step>, pops: bool)
    requires capacity > 0 && Legal(Start(capacity, threads), run)
    ensures var s := Final(Start(capacity, threads), run);
            !s.closed && Sleepers(s.threads, pops) != {} ==>
              Available(s, pops) <= |Pending(s.threads, pops)| + Lost(s, pops)
  {
    hide Final;
    StartInv(capacity, threads);
    RunInv(Start(capacity, threads), run);
  }

  /** A side that lost no signal has lost no wakeup, whatever happened on the other side. */
  lemma NoLostWakeup(capacity: nat, threads: set<Tid>, run: seq<Step>, pops: bool)
    requires capacity > 0 && Legal(Start(capacity, threads), run)
    requires Lost(Final(Start(capacity, threads), run), pops) == 0
    ensures WakeupsKept(Final(Start(capacity, threads), run), pops)
  {
    hide Final;
    MissingWakeupsBounded(capacity, threads, run, pops);
  }

  /** Nor can a side be stuck: if one sleeps beside something available, one that was woken can run. */
  lemma SomebodyCanRun(capacity: nat, threads: set<Tid>, run: seq<Step>, pops: bool)
    requires capacity > 0 && Legal(Start(capacity, threads), run)
    requires var s := Final(Start(capacity, threads), run);
             && Lost(s, pops) == 0 && !s.closed
             && Sleepers(s.threads, pops) != {} && Available(s, pops) > 0
    ensures var s := Final(Start(capacity, threads), run);
            exists t, wake ::
              Enabled(s, Run(t, wake)) && s.threads[t].Woken? && s.threads[t].call.Pop? == pops
  {
    hide Final;
    var s := Final(Start(capacity, threads), run);
    NoLostWakeup(capacity, threads, run, pops);
    assert Pending(s.threads, pops) != {};
    var t :| t in Pending(s.threads, pops);
    assert Enabled(s, Run(t, Sleepers(s.threads, s.threads[t].call.Push?)));
  }

  /** Consumers and producers are never all asleep: if both sides sleep, one of them can run. */
  lemma NeverAllAsleep(capacity: nat, threads: set<Tid>, run: seq<Step>)
    requires capacity > 0 && Legal(Start(capacity, threads), run)
    requires var s := Final(Start(capacity, threads), run);
             && s.lostPops == s.lostPushes == 0 && !s.closed
             && Sleepers(s.threads, true) != {} && Sleepers(s.threads, false) != {}
    ensures var s := Final(Start(capacity, threads), run);
            exists t, wake :: Enabled(s, Run(t, wake)) && s.threads[t].Woken?
  {
    hide Legal, Final;
    var s := Final(Start(capacity, threads), run);
    CapacityKept(Start(capacity, threads), run);
    SomebodyCanRun(capacity, threads, run, s.queue != []);
  }

  lemma {:induction false} CapacityKept(s: State, run: seq<Step>)
    requires Legal(s, run)
    ensures Final(s, run).capacity == s.capacity
    decreases |run|
  {
    hide Enabled, Apply;
    if run != [] {
      StepKeeps(s, run[0]);
      CapacityKept(Apply(s, run[0]), run[1..]);
    }
  }

  // ----- What a caller can do about it ---------------------------------------------------------------

  /** Every call of this side uses one of the allowed limits. */
  ghost predicate Limits(run: seq<Step>, pops: bool, allowed: set<U32>) {
    forall i :: 0 <= i < |run| ==> LimitAllowed(run[i], pops, allowed)
  }

  ghost predicate LimitAllowed(step: Step, pops: bool, allowed: set<U32>) {
    step.Invoke? && step.call.Pop? == pops ==> step.call.timeout in allowed
  }

  /** Calls either return at once or wait without limit. */
  ghost predicate Untimed(allowed: set<U32>) {
    forall d :: d in allowed ==> d == 0 || d == WAIT_FOREVER
  }

  ghost predicate PhaseUntimed(p: Phase, pops: bool) {
    && (p.Entering? && p.call.Pop? == pops ==> p.call.timeout == 0 || p.call.timeout == WAIT_FOREVER)
    && ((p.Sleeping? || p.Woken?) && p.call.Pop? == pops ==> p.call.timeout == WAIT_FOREVER)
  }

  /** On this side no signal has been lost and none can be. */
  ghost predicate SideUntimed(s: State, pops: bool) {
    Lost(s, pops) == 0 && forall t :: t in s.threads ==> PhaseUntimed(s.threads[t], pops)
  }

  lemma UntimedStep(s: State, step: Step, pops: bool, allowed: set<U32>)
    requires SideUntimed(s, pops) && Enabled(s, step) && LimitAllowed(step, pops, allowed) && Untimed(allowed)
    ensures SideUntimed(Apply(s, step), pops)
  {
    hide SignalMayWake;
    if step.Run? {
      var call := s.threads[step.t].call;
      UntimedAttempt(s, step.t, step.wake, pops);
      UntimedAttempt(CountEncounter(s, call), step.t, step.wake, pops);
      hide Attempt, CountEncounter;
    }
  }

  lemma UntimedAttempt(s: State, t: Tid, wake: set<Tid>, pops: bool)
    requires SideUntimed(s, pops) && t in s.threads && (s.threads[t].Entering? || s.threads[t].Woken?)
    ensures SideUntimed(Attempt(s, t, s.threads[t].call, wake), pops)
  {
  }

  lemma {:induction false} UntimedRun(s: State, run: seq<Step>, pops: bool, allowed: set<U32>)
    requires SideUntimed(s, pops) && Legal(s, run) && Limits(run, pops, allowed) && Untimed(allowed)
    ensures SideUntimed(Final(s, run), pops)
    decreases |run|
  {
    hide SideUntimed, Enabled, Apply, Untimed, LimitAllowed;
    if run != [] {
      UntimedStep(s, run[0], pops, allowed);
      UntimedRun(Apply(s, run[0]), run[1..], pops, allowed);
    }
  }

  // ----- Two threads cannot lose a wakeup -------------------------------------------------------------

  /** Nobody sleeps beside something it could have. */
  ghost predicate SleepersBlocked(s: State) {
    forall pops :: Sleepers(s.threads, pops) != {} ==> s.closed || Available(s, pops) == 0
  }

  lemma OneSleeperWoken(threads: map<Tid, Phase>, t: Tid, pops: bool, wake: set<Tid>)
    requires t in threads && |threads.Keys| < 3 && !threads[t].Sleeping?
    requires SignalMayWake(threads, pops, wake)
    ensures Sleepers(threads, pops) - wake == {}
  {
    forall x | x in Sleepers(threads, pops) ensures x in wake {
      var y :| y in wake;
      SubsetSize({t, x, y}, threads.Keys);
      assert x != y ==> |{t, x, y}| == 3;
    }
  }

  lemma TwoThreadsMove(s: State, t: Tid, call: Call, wake: set<Tid>)
    requires SleepersBlocked(s) && t in s.threads && |s.threads.Keys| < 3 && !s.threads[t].Sleeping?
    requires SignalMayWake(s.threads, call.Push?, wake)
    ensures SleepersBlocked(Attempt(s, t, call, wake))
  {
    hide Sleepers, SignalMayWake;
    var after := Attempt(s, t, call, wake);
    OneSleeperWoken(s.threads, t, call.Push?, wake);
    forall pops | Sleepers(after.threads, pops) != {} ensures after.closed || Available(after, pops) == 0 {
      SignalledSleepers(s.threads, wake, pops);
      PhaseChange(WakeAll(s.threads, wake), t, after.threads[t], pops);
      PhaseChange(s.threads, t, after.threads[t], pops);
      Membership(s.threads, t, pops);
      hide WakeAll;
    }
  }

  lemma TwoThreadsStep(s: State, step: Step)
    requires SleepersBlocked(s) && |s.threads.Keys| < 3 && Enabled(s, step)
    ensures SleepersBlocked(Apply(s, step))
  {
    hide Sleepers, Attempt;
    match step
    case Run(t, wake) =>
      var call := s.threads[t].call;
      if s.threads[t].Woken? && s.threads[t].why == TimedOut {
        PhaseChange(s.threads, t, Returned(call, Timeout, []), true);
        PhaseChange(s.threads, t, Returned(call, Timeout, []), false);
        PhaseChange(s.threads, t, Returned(call, Closed, []), true);
        PhaseChange(s.threads, t, Returned(call, Closed, []), false);
      } else if s.threads[t].Entering? {
        TwoThreadsMove(CountEncounter(s, call), t, call, wake);
      } else {
        TwoThreadsMove(s, t, call, wake);
      }
    case Close =>
    case ResetStats =>
    case _ =>
      PhaseChange(s.threads, step.t, Apply(s, step).threads[step.t], true);
      PhaseChange(s.threads, step.t, Apply(s, step).threads[step.t], false);
  }

  lemma {:induction false} TwoThreadsRun(s: State, run: seq<Step>)
    requires SleepersBlocked(s) && |s.threads.Keys| < 3 && Legal(s, run)
    ensures SleepersBlocked(Final(s, run))
    decreases |run|
  {
    hide SleepersBlocked, Enabled, Apply;
    if run != [] {
      TwoThreadsStep(s, run[0]);
      StepKeeps(s, run[0]);
      TwoThreadsRun(Apply(s, run[0]), run[1..]);
    }
  }

  // ----- Three threads can ---------------------------------------------------------------------------

  /** A run within the limits that leads to `s`. */
  ghost predicate Reaches(start: State, run: seq<Step>, s: State, pops: bool, allowed: set<U32>) {
    Legal(start, run) && Final(start, run) == s && Limits(run, pops, allowed)
  }

  lemma Onward(start: State, run: seq<Step>, s: State, step: Step, pops: bool, allowed: set<U32>)
    requires Reaches(start, run, s, pops, allowed) && Enabled(s, step) && LimitAllowed(step, pops, allowed)
    ensures Reaches(start, run + [step], Apply(s, step), pops, allowed)
  {
    hide Enabled, Apply, Final, Legal;
    Extend(start, run, step);
  }

  ghost predicate Resting(p: Phase) {
    p.Outside? || p.Returned?
  }

  /** Nobody is inside an operation except those asleep. */
  ghost predicate Quiet(s: State) {
    !s.closed && forall t :: t in s.threads ==> Resting(s.threads[t]) || s.threads[t].Sleeping?
  }

  /** A thread makes one call and comes to the end of its first critical section. */
  lemma OneCall(start: State, run: seq<Step>, s: State, t: Tid, call: Call, wake: set<Tid>,
                pops: bool, allowed: set<U32>)
    returns (longer: seq<Step>)
    requires Reaches(start, run, s, pops, allowed) && t in s.threads && Resting(s.threads[t])
    requires SignalMayWake(s.threads, call.Push?, wake)
    requires call.Pop? == pops ==> call.timeout in allowed
    ensures var entered := s.(threads := s.threads[t := Entering(call)]);
            Reaches(start, longer, Attempt(CountEncounter(entered, call), t, call, wake), pops, allowed)
  {
    hide Reaches, Attempt, CountEncounter, Sleepers;
    var entered := s.(threads := s.threads[t := Entering(call)]);
    PhaseChange(s.threads, t, Entering(call), call.Push?);
    Membership(s.threads, t, call.Push?);
    assert Sleepers(entered.threads, call.Push?) == Sleepers(s.threads, call.Push?);
    Onward(start, run, s, Invoke(t, call), pops, allowed);
    Onward(start, run + [Invoke(t, call)], entered, Run(t, wake), pops, allowed);
    longer := run + [Invoke(t, call)] + [Run(t, wake)];
  }

  /** The call that waits on this side. */
  function Waiting(pops: bool, f: Frame, d: U32): Call {
    if pops then Pop(d) else Push(f, d)
  }

  /** A thread falls asleep because nothing is available. */
  lemma FallsAsleep(start: State, run: seq<Step>, s: State, t: Tid, f: Frame, d: U32, pops: bool)
    returns (longer: seq<Step>, after: State)
    requires Reaches(start, run, s, pops, {d}) && Quiet(s) && t in s.threads && Resting(s.threads[t])
    requires Available(s, pops) == 0 && d != 0
    ensures Reaches(start, longer, after, pops, {d})
    ensures after.threads == s.threads[t := Sleeping(Waiting(pops, f, d))]
    ensures Quiet(after) && after.queue == s.queue && after.capacity == s.capacity
  {
    hide Reaches, Sleepers, WakeAll;
    var call := Waiting(pops, f, d);
    var wake := Sleepers(s.threads, call.Push?);
    longer := OneCall(start, run, s, t, call, wake, pops, {d});
    var entered := s.(threads := s.threads[t := Entering(call)]);
    after := Attempt(CountEncounter(entered, call), t, call, wake);
  }

  /** A thread moves one frame at once. */
  lemma MovesOne(start: State, run: seq<Step>, s: State, t: Tid, call: Call, wake: set<Tid>,
                 pops: bool, allowed: set<U32>)
    returns (longer: seq<Step>, after: State)
    requires Reaches(start, run, s, pops, allowed) && !s.closed && t in s.threads && Resting(s.threads[t])
    requires SignalMayWake(s.threads, call.Push?, wake)
    requires MayProceed(s, call) && (call.Pop? == pops ==> call.timeout in allowed)
    ensures Reaches(start, longer, after, pops, allowed) && !after.closed && after.capacity == s.capacity
    ensures after.queue == if call.Push? then s.queue + [call.frame] else s.queue[1..]
    ensures t in after.threads && after.threads[t].Returned?
    ensures after.threads == WakeAll(s.threads, wake)[t := after.threads[t]]
  {
    hide Reaches, Sleepers, SignalMayWake;
    longer := OneCall(start, run, s, t, call, wake, pops, allowed);
    var entered := s.(threads := s.threads[t := Entering(call)]);
    after := Attempt(CountEncounter(entered, call), t, call, wake);
  }

  /** With nobody asleep, one thread fills the queue. */
  lemma {:induction false} FillUp(start: State, run: seq<Step>, s: State, t: Tid, f: Frame, d: U32)
    returns (longer: seq<Step>, after: State)
    requires Reaches(start, run, s, false, {d}) && !s.closed && t in s.threads
    requires forall u :: u in s.threads ==> Resting(s.threads[u])
    requires |s.queue| <= s.capacity
    ensures Reaches(start, longer, after, false, {d}) && !after.closed && after.capacity == s.capacity
    ensures |after.queue| == after.capacity && after.threads.Keys == s.threads.Keys
    ensures forall u :: u in s.threads ==> Resting(after.threads[u]) && (u != t ==> after.threads[u] == s.threads[u])
    decreases s.capacity - |s.queue|
  {
    hide Reaches;
    longer, after := run, s;
    if |s.queue| < s.capacity {
      var more, next := MovesOne(start, run, s, t, Push(f, d), {}, false, {d});
      longer, after := FillUp(start, more, next, t, f, d);
    }
  }

  /** A state in which nothing is available and all threads but perhaps one are still outside. */
  lemma NothingAvailable(capacity: nat, threads: set<Tid>, pops: bool, f: Frame, d: U32, c: Tid)
    returns (run: seq<Step>, s: State)
    requires c in threads
    ensures Reaches(Start(capacity, threads), run, s, pops, {d})
    ensures Quiet(s) && s.threads.Keys == threads && s.capacity == capacity && Available(s, pops) == 0
    ensures forall u :: u in threads ==> Resting(s.threads[u])
  {
    var start := Start(capacity, threads);
    run, s := [], start;
    assert Reaches(start, [], start, pops, {d});
    hide Reaches;
    if !pops {
      run, s := FillUp(start, [], start, c, f, d);
    }
  }

  /** The signalled waiter's limit passes before it runs: it reports a timeout and keeps the signal. */
  lemma SignalTakenAway(start: State, run: seq<Step>, s: State, a: Tid, pops: bool, allowed: set<U32>)
    returns (longer: seq<Step>, after: State)
    requires Reaches(start, run, s, pops, allowed) && !s.closed
    requires a in s.threads && s.threads[a].Woken? && s.threads[a].why == Signalled
    requires s.threads[a].call.timeout != WAIT_FOREVER
    ensures Reaches(start, longer, after, pops, allowed) && !after.closed
    ensures after.queue == s.queue && after.capacity == s.capacity
    ensures after.threads == s.threads[a := Returned(s.threads[a].call, Timeout, [])]
  {
    hide Reaches, Sleepers;
    var call := s.threads[a].call;
    var expired := Apply(s, ExpireSignalled(a));
    var wake := Sleepers(expired.threads, call.Push?);
    Onward(start, run, s, ExpireSignalled(a), pops, allowed);
    Onward(start, run + [ExpireSignalled(a)], expired, Run(a, wake), pops, allowed);
    longer := run + [ExpireSignalled(a)] + [Run(a, wake)];
    after := Apply(expired, Run(a, wake));
  }

  /** Two waiters with the same limit fall asleep. */
  lemma TwoAsleep(capacity: nat, threads: set<Tid>, pops: bool, f: Frame, d: U32, a: Tid, b: Tid, c: Tid)
    returns (run: seq<Step>, s: State)
    requires {a, b, c} <= threads && a != b && a != c && b != c && d != 0
    ensures Reaches(Start(capacity, threads), run, s, pops, {d})
    ensures Quiet(s) && s.threads.Keys == threads && s.capacity == capacity && Available(s, pops) == 0
    ensures s.threads[a] == s.threads[b] == Sleeping(Waiting(pops, f, d)) && Resting(s.threads[c])
  {
    hide Reaches, Sleepers;
    var start := Start(capacity, threads);
    var run0, s0 := NothingAvailable(capacity, threads, pops, f, d, c);
    var run1, s1 := FallsAsleep(start, run0, s0, a, f, d, pops);
    run, s := FallsAsleep(start, run1, s1, b, f, d, pops);
  }

  /** One thread provides what they wait for, and the one it wakes takes the signal away. */
  lemma StrandedRun(capacity: nat, threads: set<Tid>, pops: bool, d: U32, a: Tid, b: Tid, c: Tid)
    returns (run: seq<Step>)
    requires capacity > 0 && {a, b, c} <= threads && a != b && a != c && b != c
    requires d != 0 && d != WAIT_FOREVER
    ensures Legal(Start(capacity, threads), run) && Limits(run, pops, {d})
    ensures Stranded(Final(Start(capacity, threads), run), pops)
  {
    hide Reaches, Sleepers, Legal, Final, Limits, LimitAllowed;
    var start, f := Start(capacity, threads), NewFrame(TYPE_REPORT, 0, []);
    var before, s := TwoAsleep(capacity, threads, pops, f, d, a, b, c);
    Membership(s.threads, a, pops);
    var moved, t := MovesOne(start, before, s, c, Waiting(!pops, f, 0), {a}, pops, {d});
    var after, end := SignalTakenAway(start, moved, t, a, pops, {d});
    Membership(end.threads, b, pops);
    ReachesMeans(start, after, end, pops, {d});
    run := after;
  }

  lemma ReachesMeans(start: State, run: seq<Step>, s: State, pops: bool, allowed: set<U32>)
    requires Reaches(start, run, s, pops, allowed)
    ensures Legal(start, run) && Limits(run, pops, allowed) && s == Final(start, run)
  {
  }

  // ----- The exact condition -------------------------------------------------------------------------

  /** No run with these limits on this side's calls loses one of its wakeups. */
  ghost predicate NeverLoses(capacity: nat, threads: set<Tid>, pops: bool, allowed: set<U32>) {
    forall run :: Legal(Start(capacity, threads), run) && Limits(run, pops, allowed) ==>
                    WakeupsKept(Final(Start(capacity, threads), run), pops)
  }

  /** No run with these limits on this side's calls leaves a sleeper behind. */
  ghost predicate NeverStrands(capacity: nat, threads: set<Tid>, pops: bool, allowed: set<U32>) {
    forall run :: Legal(Start(capacity, threads), run) && Limits(run, pops, allowed) ==>
                    !Stranded(Final(Start(capacity, threads), run), pops)
  }

  /** A side whose calls have no finite limit keeps its wakeups, whatever limits the other side uses. */
  lemma UntimedSideKeepsWakeups(capacity: nat, threads: set<Tid>, run: seq<Step>, pops: bool, allowed: set<U32>)
    requires capacity > 0 && Legal(Start(capacity, threads), run)
    requires Limits(run, pops, allowed) && Untimed(allowed)
    ensures WakeupsKept(Final(Start(capacity, threads), run), pops)
  {
    hide Legal, Final, Limits, Untimed, WakeupsKept;
    UntimedRun(Start(capacity, threads), run, pops, allowed);
    NoLostWakeup(capacity, threads, run, pops);
  }

  lemma FewThreadsKeepWakeups(capacity: nat, threads: set<Tid>, run: seq<Step>, pops: bool)
    requires |threads| < 3 && Legal(Start(capacity, threads), run)
    ensures WakeupsKept(Final(Start(capacity, threads), run), pops)
  {
    hide Legal, Final;
    assert Start(capacity, threads).threads.Keys == threads;
    TwoThreadsRun(Start(capacity, threads), run);
  }

  lemma ThreeOf(threads: set<Tid>) returns (a: Tid, b: Tid, c: Tid)
    requires |threads| >= 3
    ensures {a, b, c} <= threads && a != b && a != c && b != c
  {
    a :| a in threads;
    assert |threads - {a}| >= 2;
    b :| b in threads - {a};
    assert |threads - {a} - {b}| >= 1;
    c :| c in threads - {a} - {b};
  }

  /**
   Wakeups are kept on a side exactly if there are fewer than three threads or every call of
   that side either returns at once or waits without limit; and the same condition decides
   whether a sleeper can be left behind.
   */
  lemma LostWakeupExactly(capacity: nat, threads: set<Tid>, pops: bool, allowed: set<U32>)
    requires capacity > 0
    ensures NeverLoses(capacity, threads, pops, allowed) <==> |threads| < 3 || Untimed(allowed)
    ensures NeverStrands(capacity, threads, pops, allowed) <==> |threads| < 3 || Untimed(allowed)
  {
    hide Legal, Final, Limits, WakeupsKept, Stranded, Start;
    var start := Start(capacity, threads);
    forall run | Legal(start, run) && Limits(run, pops, allowed)
      ensures |threads| < 3 || Untimed(allowed) ==>
                WakeupsKept(Final(start, run), pops) && !Stranded(Final(start, run), pops)
    {
      if |threads| < 3 {
        FewThreadsKeepWakeups(capacity, threads, run, pops);
      } else if Untimed(allowed) {
        UntimedSideKeepsWakeups(capacity, threads, run, pops, allowed);
      }
      if Stranded(Final(start, run), pops) {
        StrandedLost(Final(start, run), pops);
      }
    }
    if |threads| >= 3 && !Untimed(allowed) {
      var d :| d in allowed && d != 0 && d != WAIT_FOREVER;
      var a, b, c := ThreeOf(threads);
      var run := StrandedRun(capacity, threads, pops, d, a, b, c);
      MoreLimits(run, pops, {d}, allowed);
      StrandedLost(Final(start, run), pops);
    }
  }

  lemma MoreLimits(run: seq<Step>, pops: bool, fewer: set<U32>, more: set<U32>)
    requires Limits(run, pops, fewer) && fewer <= more
    ensures Limits(run, pops, more)
  {
    forall i | 0 <= i < |run| ensures LimitAllowed(run[i], pops, more) {
      assert LimitAllowed(run[i], pops, fewer);
    }
  }
}
