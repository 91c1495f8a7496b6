/**
 The synchronised frame queue as a step machine: any number of threads, one mutex, and the
 two condition variables. One step is everything a thread does between taking the mutex and
 releasing it, or one event of the waiting set. A signal wakes at least one sleeper; sleepers
 may wake spuriously or by timeout; woken threads compete with newcomers for the mutex.
 (IEEE Std 1003.1-2008, System Interfaces, pthread_cond_signal() and pthread_cond_timedwait().)
 */
module QueueMonitor {
  import opened Machine
  import opened Frames

  type Tid = nat

  const WAIT_FOREVER: U32 := 0xFFFF_FFFF

  datatype Call = Push(frame: Frame, timeout: U32) | Pop(timeout: U32)

  datatype Result = Ok | Timeout | Closed

  datatype Wake = Signalled | Spurious | TimedOut

  /** Where a thread is with respect to this queue; `moved` holds the frame of a successful call. */
  datatype Phase =
    | Outside
    | Entering(call: Call)
    | Sleeping(call: Call)
    | Woken(call: Call, why: Wake)
    | Returned(call: Call, result: Result, moved: seq<Frame>)

  /** Exact counts; the C counters show them up to their maximum. */
  datatype Stats = Stats(pushed: nat, popped: nat, fullEncounters: nat, emptyEncounters: nat,
                         pushWaits: nat, popWaits: nat, pushTimeouts: nat, popTimeouts: nat,
                         peak: nat)

  /**
   `base` is the depth at the last statistics reset. `lostPops` and `lostPushes` count waiters
   that were signalled and nevertheless reported a timeout.
   */
  datatype State = State(
    capacity: nat, queue: seq<Frame>, closed: bool, threads: map<Tid, Phase>, stats: Stats,
    base: nat, lostPops: nat, lostPushes: nat)

  datatype Step =
    | Invoke(t: Tid, call: Call)
    | Run(t: Tid, wake: set<Tid>)
    | WakeSpuriously(t: Tid)
    | Expire(t: Tid)
    | ExpireSignalled(t: Tid)
    | Close
    | ResetStats

  const NO_STATS := Stats(0, 0, 0, 0, 0, 0, 0, 0, 0)

  function Start(capacity: nat, threads: set<Tid>): State {
    State(capacity, [], false, map t | t in threads :: Outside, NO_STATS, 0, 0, 0)
  }

  // ----- The waiting sets --------------------------------------------------------------------

  /** Consumers asleep on `not_empty`, or producers asleep on `not_full`. */
  function Sleepers(threads: map<Tid, Phase>, pops: bool): set<Tid> {
    set t | t in threads && threads[t].Sleeping? && threads[t].call.Pop? == pops
  }

  /** Those a signal has woken and that have not run yet. */
  function Pending(threads: map<Tid, Phase>, pops: bool): set<Tid> {
    set t | t in threads && threads[t].Woken? && threads[t].why == Signalled && threads[t].call.Pop? == pops
  }

  function WakeAll(threads: map<Tid, Phase>, wake: set<Tid>): (r: map<Tid, Phase>)
    ensures r.Keys == threads.Keys
  {
    map t | t in threads ::
      if t in wake && threads[t].Sleeping? then Woken(threads[t].call, Signalled) else threads[t]
  }

  /** What one `pthread_cond_signal` may wake: at least one sleeper when there is one. */
  predicate SignalMayWake(threads: map<Tid, Phase>, pops: bool, wake: set<Tid>) {
    && wake <= Sleepers(threads, pops)
    && (Sleepers(threads, pops) != {} ==> wake != {})
  }

  // ----- One critical section ------------------------------------------------------------------

  /** The loop condition of the call does not hold, so it does not wait. */
  predicate MayProceed(s: State, call: Call) {
    s.closed || if call.Push? then |s.queue| != s.capacity else s.queue != []
  }

  function Returning(s: State, t: Tid, call: Call, result: Result): State {
    s.(threads := s.threads[t := Returned(call, result, [])])
  }

  function CountTimeout(s: State, call: Call): State {
    s.(stats := if call.Push? then s.stats.(pushTimeouts := s.stats.pushTimeouts + 1)
                else s.stats.(popTimeouts := s.stats.popTimeouts + 1))
  }

  /** The statistics kept before the waiting loop, once per call. */
  function CountEncounter(s: State, call: Call): (r: State)
    ensures r == s.(stats := r.stats)
  {
    if MayProceed(s, call) then s
    else if call.Push? then
      s.(stats := s.stats.(fullEncounters := s.stats.fullEncounters + 1,
                           pushWaits := s.stats.pushWaits + if call.timeout != 0 then 1 else 0))
    else
      s.(stats := s.stats.(emptyEncounters := s.stats.emptyEncounters + 1,
                           popWaits := s.stats.popWaits + if call.timeout != 0 then 1 else 0))
  }

  /** From the loop condition on: wait, give up, or move one frame and signal. */
  function Attempt(s: State, t: Tid, call: Call, wake: set<Tid>): State {
    if !MayProceed(s, call) then
      if call.timeout == 0 then Returning(CountTimeout(s, call), t, call, Timeout)
      else s.(threads := s.threads[t := Sleeping(call)])
    else if call.Push? then
      if s.closed || |s.queue| == s.capacity then Returning(s, t, call, Closed)
      else
        s.(queue := s.queue + [call.frame],
           stats := s.stats.(pushed := s.stats.pushed + 1, peak := Max(s.stats.peak, |s.queue| + 1)),
           threads := WakeAll(s.threads, wake)[t := Returned(call, Ok, [call.frame])])
    else
      if s.queue == [] then Returning(s, t, call, Closed)
      else
        s.(queue := s.queue[1..],
           stats := s.stats.(popped := s.stats.popped + 1),
           threads := WakeAll(s.threads, wake)[t := Returned(call, Ok, [s.queue[0]])])
  }

  /** After a wait that reported a timeout: the condition is not tested again. */
  function GiveUp(s: State, t: Tid, call: Call): State {
    if s.closed && (call.Push? || s.queue == []) then Returning(s, t, call, Closed)
    else Returning(CountTimeout(s, call), t, call, Timeout)
  }

  predicate Enabled(s: State, step: Step) {
    match step
    case Invoke(t, call) => t in s.threads && (s.threads[t].Outside? || s.threads[t].Returned?)
    case Run(t, wake) =>
      && t in s.threads && (s.threads[t].Entering? || s.threads[t].Woken?)
      && SignalMayWake(s.threads, s.threads[t].call.Push?, wake)
    case WakeSpuriously(t) => t in s.threads && s.threads[t].Sleeping?
    case Expire(t) => t in s.threads && s.threads[t].Sleeping? && s.threads[t].call.timeout != WAIT_FOREVER
    case ExpireSignalled(t) =>
      && t in s.threads && s.threads[t].Woken? && s.threads[t].why == Signalled
      && s.threads[t].call.timeout != WAIT_FOREVER
    case Close => true
    case ResetStats => true
  }

  function Apply(s: State, step: Step): State
    requires Enabled(s, step)
  {
    match step
    case Invoke(t, call) => s.(threads := s.threads[t := Entering(call)])
    case Run(t, wake) =>
      var call := s.threads[t].call;
      if s.threads[t].Entering? then Attempt(CountEncounter(s, call), t, call, wake)
      else if s.threads[t].why == TimedOut then GiveUp(s, t, call)
      else Attempt(s, t, call, wake)
    case WakeSpuriously(t) => s.(threads := s.threads[t := Woken(s.threads[t].call, Spurious)])
    case Expire(t) => s.(threads := s.threads[t := Woken(s.threads[t].call, TimedOut)])
    case ExpireSignalled(t) =>
      var call := s.threads[t].call;
      s.(threads := s.threads[t := Woken(call, TimedOut)],
         lostPops := s.lostPops + (if call.Pop? then 1 else 0),
         lostPushes := s.lostPushes + (if call.Push? then 1 else 0))
    case Close => s.(closed := true, threads := WakeAll(s.threads, s.threads.Keys))
    case ResetStats => s.(stats := NO_STATS.(peak := |s.queue|), base := |s.queue|)
  }

  // ----- Runs ------------------------------------------------------------------------------------

  ghost predicate Legal(s: State, run: seq<Step>)
    decreases |run|
  {
    run == [] || (Enabled(s, run[0]) && Legal(Apply(s, run[0]), run[1..]))
  }

  ghost function Final(s: State, run: seq<Step>): State
    requires Legal(s, run)
    decreases |run|
  {
    if run == [] then s else Final(Apply(s, run[0]), run[1..])
  }

  lemma {:induction false} Extend(s: State, run: seq<Step>, step: Step)
    requires Legal(s, run) && Enabled(Final(s, run), step)
    ensures Legal(s, run + [step]) && Final(s, run + [step]) == Apply(Final(s, run), step)
    decreases |run|
  {
    hide Enabled;
    hide Apply;
    if run == [] {
      assert [] + [step] == [step];
      assert [step][1..] == [];
    } else {
      assert (run + [step])[1..] == run[1..] + [step];
      Extend(Apply(s, run[0]), run[1..], step);
    }
  }

  // ----- The invariant -----------------------------------------------------------------------------

  ghost predicate NobodySleepsClosed(s: State) {
    s.closed ==> Sleepers(s.threads, true) == {} && Sleepers(s.threads, false) == {}
  }

  /**
   While somebody sleeps, every frame (or every free slot) is matched by a woken thread that
   has yet to run, up to the signals that timed-out waiters took with them.
   */
  ghost predicate WakeupsOwed(s: State) {
    && (!s.closed && Sleepers(s.threads, true) != {} ==>
          |s.queue| <= |Pending(s.threads, true)| + s.lostPops)
    && (!s.closed && Sleepers(s.threads, false) != {} ==>
          s.capacity - |s.queue| <= |Pending(s.threads, false)| + s.lostPushes)
  }

  ghost predicate StatsBalance(s: State) {
    && s.stats.pushed + s.base == s.stats.popped + |s.queue|
    && |s.queue| <= s.stats.peak <= s.capacity
    && s.stats.pushWaits <= s.stats.fullEncounters
    && s.stats.popWaits <= s.stats.emptyEncounters
  }

  ghost predicate Inv(s: State) {
    s.capacity > 0 && |s.queue| <= s.capacity && NobodySleepsClosed(s) && WakeupsOwed(s) && StatsBalance(s)
  }

  // ----- How a step changes the waiting sets ------------------------------------------------------

  lemma PhaseChange(threads: map<Tid, Phase>, t: Tid, p: Phase, pops: bool)
    requires t in threads
    ensures Sleepers(threads[t := p], pops)
         == Sleepers(threads, pops) - {t} + (if p.Sleeping? && p.call.Pop? == pops then {t} else {})
    ensures Pending(threads[t := p], pops)
         == Pending(threads, pops) - {t}
            + (if p.Woken? && p.why == Signalled && p.call.Pop? == pops then {t} else {})
  {
  }

  lemma SignalledSleepers(threads: map<Tid, Phase>, wake: set<Tid>, pops: bool)
    ensures Sleepers(WakeAll(threads, wake), pops) == Sleepers(threads, pops) - wake
  {
  }

  lemma SignalledPending(threads: map<Tid, Phase>, wake: set<Tid>, pops: bool)
    ensures Pending(WakeAll(threads, wake), pops) == Pending(threads, pops) + Sleepers(threads, pops) * wake
  {
  }

  lemma Membership(threads: map<Tid, Phase>, t: Tid, b: bool)
    ensures t in Sleepers(threads, b) <==>
              t in threads && threads[t].Sleeping? && threads[t].call.Pop? == b
    ensures t in Pending(threads, b) <==>
              t in threads && threads[t].Woken? && threads[t].why == Signalled && threads[t].call.Pop? == b
  {
  }

  lemma WaitingSetsDisjoint(threads: map<Tid, Phase>, b: bool)
    ensures Pending(threads, b) !! Sleepers(threads, b)
    ensures Sleepers(threads, b) !! Sleepers(threads, !b)
  {
  }

  lemma NonEmptySize(x: set<Tid>)
    requires x != {}
    ensures |x| >= 1
  {
    var e :| e in x;
    assert |x - {e}| == |x| - 1;
  }

  lemma RemovedSize(x: set<Tid>, t: Tid)
    ensures |x - {t}| == if t in x then |x| - 1 else |x|
    ensures t !in x ==> x - {t} == x
  {
    if t !in x {
      assert x - {t} == x;
    }
  }

  lemma SizesAfterMove(sleepers: set<Tid>, pending: set<Tid>, wake: set<Tid>, t: Tid)
    requires t !in sleepers && pending !! sleepers
    ensures sleepers - wake - {t} == sleepers - wake
    ensures wake <= sleepers && t !in pending ==>
              |pending + sleepers * wake - {t}| == |pending| + |wake|
    ensures wake !! sleepers ==>
              sleepers - wake == sleepers && |pending + sleepers * wake - {t}| >= |pending| - 1
  {
    if wake <= sleepers && t !in pending {
      assert pending + sleepers * wake - {t} == pending + wake;
      assert pending !! wake;
    }
    if wake !! sleepers {
      assert pending + sleepers * wake - {t} == pending - {t};
      RemovedSize(pending, t);
    }
  }

  lemma MovedSets(threads: map<Tid, Phase>, t: Tid, wake: set<Tid>, p: Phase, b: bool)
    requires t in threads && !threads[t].Sleeping? && p.Returned?
    ensures var after := WakeAll(threads, wake)[t := p];
            && Sleepers(after, b) == Sleepers(threads, b) - wake
            && (wake <= Sleepers(threads, b) && t !in Pending(threads, b) ==>
                  |Pending(after, b)| == |Pending(threads, b)| + |wake|)
            && (wake !! Sleepers(threads, b) ==>
                  && Sleepers(after, b) == Sleepers(threads, b)
                  && |Pending(after, b)| >= |Pending(threads, b)| - 1)
  {
    hide Sleepers;
    hide Pending;
    hide WakeAll;
    SignalledSleepers(threads, wake, b);
    SignalledPending(threads, wake, b);
    PhaseChange(WakeAll(threads, wake), t, p, b);
    Membership(threads, t, b);
    WaitingSetsDisjoint(threads, b);
    SizesAfterMove(Sleepers(threads, b), Pending(threads, b), wake, t);
  }

  /** The sizes that matter after `t` moves a frame and signals the other side. */
  lemma MovedOne(threads: map<Tid, Phase>, t: Tid, wake: set<Tid>, p: Phase, pops: bool)
    requires t in threads && !threads[t].Sleeping? && p.Returned?
    requires threads[t].Woken? ==> threads[t].call.Pop? != pops
    requires SignalMayWake(threads, pops, wake)
    ensures var after := WakeAll(threads, wake)[t := p];
            && Sleepers(after, pops) == Sleepers(threads, pops) - wake
            && Sleepers(after, !pops) == Sleepers(threads, !pops)
            && |Pending(after, pops)| == |Pending(threads, pops)| + |wake|
            && |Pending(after, !pops)| >= |Pending(threads, !pops)| - 1
            && (Sleepers(threads, pops) != {} ==> |wake| >= 1)
  {
    hide Sleepers;
    hide Pending;
    hide WakeAll;
    MovedSets(threads, t, wake, p, pops);
    MovedSets(threads, t, wake, p, !pops);
    WaitingSetsDisjoint(threads, pops);
    Membership(threads, t, pops);
    if wake != {} {
      NonEmptySize(wake);
    }
  }

  // ----- Every step keeps the invariant --------------------------------------------------------------

  /** A thread that neither sleeps before nor afterwards, and was not counted on, changes nothing. */
  lemma WaitingSetsKept(threads: map<Tid, Phase>, t: Tid, p: Phase)
    requires t in threads && !threads[t].Sleeping? && !p.Sleeping?
    requires !(threads[t].Woken? && threads[t].why == Signalled)
    requires !(p.Woken? && p.why == Signalled)
    ensures forall b :: Sleepers(threads[t := p], b) == Sleepers(threads, b)
    ensures forall b :: Pending(threads[t := p], b) == Pending(threads, b)
  {
    forall b
      ensures Sleepers(threads[t := p], b) == Sleepers(threads, b)
      ensures Pending(threads[t := p], b) == Pending(threads, b)
    {
      PhaseChange(threads, t, p, b);
    }
  }

  /** A thread that stops sleeping without a signal leaves the signalled ones as they are. */
  lemma SleeperLeaves(threads: map<Tid, Phase>, t: Tid, p: Phase, pops: bool)
    requires t in threads && threads[t].Sleeping? && p.Woken? && p.why != Signalled
    ensures Sleepers(threads[t := p], pops) == Sleepers(threads, pops) - {t}
    ensures Pending(threads[t := p], pops) == Pending(threads, pops)
  {
    PhaseChange(threads, t, p, pops);
  }

  /** The sizes that matter after `t` stops without moving a frame. */
  lemma StoppedSets(threads: map<Tid, Phase>, t: Tid, p: Phase, b: bool)
    requires t in threads && (threads[t].Entering? || threads[t].Woken?)
    requires p.Returned? || p.Sleeping?
    ensures p.Returned? || p.call.Pop? != b ==> Sleepers(threads[t := p], b) == Sleepers(threads, b)
    ensures var counted := threads[t].Woken? && threads[t].why == Signalled && threads[t].call.Pop? == b;
            |Pending(threads[t := p], b)| == |Pending(threads, b)| - if counted then 1 else 0
  {
    hide Sleepers;
    hide Pending;
    PhaseChange(threads, t, p, b);
    Membership(threads, t, b);
    RemovedSize(Pending(threads, b), t);
    RemovedSize(Sleepers(threads, b), t);
  }

  /** Running `t` through a wait or a refusal. */
  lemma StoppedInv(s: State, t: Tid, p: Phase)
    requires Inv(s) && t in s.threads
    requires s.threads[t].Entering? || s.threads[t].Woken?
    requires p.Returned? || (p.Sleeping? && p.call == s.threads[t].call && !MayProceed(s, p.call))
    requires p.Returned? && s.threads[t].Woken? && s.threads[t].why == Signalled ==>
               s.closed || (if s.threads[t].call.Push? then |s.queue| == s.capacity else s.queue == [])
    ensures Inv(s.(threads := s.threads[t := p]))
  {
    hide Sleepers;
    hide Pending;
    StoppedSets(s.threads, t, p, true);
    StoppedSets(s.threads, t, p, false);
  }

  lemma PushedInv(s: State, t: Tid, call: Call, wake: set<Tid>)
    requires Inv(s) && t in s.threads && !s.threads[t].Sleeping? && call.Push?
    requires !s.closed && |s.queue| < s.capacity && SignalMayWake(s.threads, true, wake)
    requires s.threads[t].Woken? ==> s.threads[t].call.Push?
    ensures Inv(Attempt(s, t, call, wake))
  {
    hide Sleepers;
    hide Pending;
    hide WakeAll;
    MovedOne(s.threads, t, wake, Returned(call, Ok, [call.frame]), true);
  }

  lemma PoppedInv(s: State, t: Tid, call: Call, wake: set<Tid>)
    requires Inv(s) && t in s.threads && !s.threads[t].Sleeping? && call.Pop?
    requires s.queue != [] && SignalMayWake(s.threads, false, wake)
    requires s.threads[t].Woken? ==> s.threads[t].call.Pop?
    ensures Inv(Attempt(s, t, call, wake))
  {
    hide Sleepers;
    hide Pending;
    hide WakeAll;
    MovedOne(s.threads, t, wake, Returned(call, Ok, [s.queue[0]]), false);
  }

  lemma AttemptInv(s: State, t: Tid, wake: set<Tid>)
    requires Inv(s) && t in s.threads && (s.threads[t].Entering? || s.threads[t].Woken?)
    requires SignalMayWake(s.threads, s.threads[t].call.Push?, wake)
    ensures Inv(Attempt(s, t, s.threads[t].call, wake))
  {
    hide Sleepers;
    hide Pending;
    hide WakeAll;
    var call := s.threads[t].call;
    if !MayProceed(s, call) {
      if call.timeout == 0 {
        StoppedInv(s, t, Returned(call, Timeout, []));
      } else {
        StoppedInv(s, t, Sleeping(call));
      }
    } else if s.closed && (call.Push? || s.queue == []) {
      StoppedInv(s, t, Returned(call, Closed, []));
    } else if call.Push? {
      PushedInv(s, t, call, wake);
    } else {
      PoppedInv(s, t, call, wake);
    }
  }

  lemma GiveUpInv(s: State, t: Tid)
    requires Inv(s) && t in s.threads && s.threads[t].Woken? && s.threads[t].why == TimedOut
    ensures Inv(GiveUp(s, t, s.threads[t].call))
  {
    hide Sleepers;
    hide Pending;
    var call := s.threads[t].call;
    StoppedInv(s, t, Returned(call, Timeout, []));
    StoppedInv(s, t, Returned(call, Closed, []));
  }

  lemma InvokeInv(s: State, t: Tid, call: Call)
    requires Inv(s) && t in s.threads && (s.threads[t].Outside? || s.threads[t].Returned?)
    ensures Inv(s.(threads := s.threads[t := Entering(call)]))
  {
    hide Sleepers;
    hide Pending;
    WaitingSetsKept(s.threads, t, Entering(call));
  }

  lemma WokenUpInv(s: State, t: Tid, why: Wake)
    requires Inv(s) && t in s.threads && s.threads[t].Sleeping? && why != Signalled
    ensures Inv(s.(threads := s.threads[t := Woken(s.threads[t].call, why)]))
  {
    hide Sleepers;
    hide Pending;
    var p := Woken(s.threads[t].call, why);
    SleeperLeaves(s.threads, t, p, true);
    SleeperLeaves(s.threads, t, p, false);
  }

  /** A signalled waiter that times out takes the signal with it, and is counted for that. */
  lemma ExpireSignalledInv(s: State, t: Tid)
    requires Inv(s) && Enabled(s, ExpireSignalled(t))
    ensures Inv(Apply(s, ExpireSignalled(t)))
  {
    hide Sleepers;
    hide Pending;
    var p := Woken(s.threads[t].call, TimedOut);
    SignalLost(s.threads, t, p, true);
    SignalLost(s.threads, t, p, false);
  }

  lemma SignalLost(threads: map<Tid, Phase>, t: Tid, p: Phase, b: bool)
    requires t in threads && threads[t].Woken? && p.Woken? && p.why != Signalled
    ensures Sleepers(threads[t := p], b) == Sleepers(threads, b)
    ensures threads[t].call.Pop? != b ==> |Pending(threads[t := p], b)| == |Pending(threads, b)|
    ensures |Pending(threads[t := p], b)| + 1 >= |Pending(threads, b)|
  {
    hide Sleepers;
    hide Pending;
    Membership(threads, t, b);
    PhaseChange(threads, t, p, b);
    RemovedSize(Pending(threads, b), t);
  }

  lemma CloseInv(s: State)
    requires Inv(s)
    ensures Inv(Apply(s, Close))
  {
    hide Sleepers;
    hide Pending;
    hide WakeAll;
    SignalledSleepers(s.threads, s.threads.Keys, true);
    SignalledSleepers(s.threads, s.threads.Keys, false);
    forall t: Tid, b: bool ensures t in Sleepers(s.threads, b) ==> t in s.threads.Keys {
      Membership(s.threads, t, b);
    }
  }

  lemma StepInv(s: State, step: Step)
    requires Inv(s) && Enabled(s, step)
    ensures Inv(Apply(s, step))
  {
    hide Sleepers;
    hide Pending;
    hide WakeAll;
    match step
    case Run(t, wake) =>
      var call := s.threads[t].call;
      hide Attempt;
      hide GiveUp;
      if s.threads[t].Entering? {
        AttemptInv(CountEncounter(s, call), t, wake);
      } else if s.threads[t].why == TimedOut {
        GiveUpInv(s, t);
      } else {
        AttemptInv(s, t, wake);
      }
    case Close =>
      CloseInv(s);
    case Invoke(t, call) =>
      InvokeInv(s, t, call);
    case WakeSpuriously(t) =>
      WokenUpInv(s, t, Spurious);
    case Expire(t) =>
      WokenUpInv(s, t, TimedOut);
    case ExpireSignalled(t) =>
      ExpireSignalledInv(s, t);
    case ResetStats =>
  }

  lemma StartInv(capacity: nat, threads: set<Tid>)
    requires capacity > 0
    ensures Inv(Start(capacity, threads))
  {
  }

  lemma {:induction false} RunInv(s: State, run: seq<Step>)
    requires Inv(s) && Legal(s, run)
    ensures Inv(Final(s, run))
    decreases |run|
  {
    hide Inv;
    hide Apply;
    hide Enabled;
    if run != [] {
      StepInv(s, run[0]);
      RunInv(Apply(s, run[0]), run[1..]);
    }
  }

  // ----- First in, first out ----------------------------------------------------------------------

  /** The frame a successful push (or pop) moved in this step, if the step completed one. */
  function MovedBy(s: State, step: Step, pushes: bool): seq<Frame>
    requires Enabled(s, step)
  {
    if step.Run? then
      var p := Apply(s, step).threads[step.t];
      if p.Returned? && p.result == Ok && p.call.Push? == pushes then p.moved else []
    else []
  }

  /** The frames moved by the successful pushes (or pops) of a run, in mutex order. */
  ghost function Moved(s: State, run: seq<Step>, pushes: bool): seq<Frame>
    requires Legal(s, run)
    decreases |run|
  {
    if run == [] then []
    else MovedBy(s, run[0], pushes) + Moved(Apply(s, run[0]), run[1..], pushes)
  }

  lemma AttemptMoves(s: State, t: Tid, call: Call, wake: set<Tid>)
    requires t in s.threads
    ensures var after := Attempt(s, t, call, wake);
            var p := after.threads[t];
            var done := p.Returned? && p.result == Ok;
            && p.call == call
            && after.queue == (if done && call.Push? then s.queue + p.moved
                               else if done then s.queue[|p.moved|..] else s.queue)
            && (done && call.Push? ==> !s.closed)
            && (done && call.Pop? ==> p.moved <= s.queue)
  {
    hide WakeAll;
  }

  /** A step appends what it pushed at the back of the queue and takes what it popped from the front. */
  lemma StepMoves(s: State, step: Step)
    requires Enabled(s, step)
    ensures s.queue + MovedBy(s, step, true) == MovedBy(s, step, false) + Apply(s, step).queue
    ensures s.closed ==> MovedBy(s, step, true) == []
  {
    hide WakeAll;
    hide SignalMayWake;
    hide Attempt;
    hide CountEncounter;
    if step.Run? {
      var call := s.threads[step.t].call;
      AttemptMoves(s, step.t, call, step.wake);
      AttemptMoves(CountEncounter(s, call), step.t, call, step.wake);
    }
  }

  lemma Regroup(q: seq<Frame>, a: seq<Frame>, b: seq<Frame>, q': seq<Frame>,
                later: seq<Frame>, laterOut: seq<Frame>, q'': seq<Frame>)
    requires q + a == b + q' && q' + later == laterOut + q''
    ensures q + (a + later) == b + laterOut + q''
  {
    assert q + (a + later) == q + a + later;
    assert b + q' + later == b + (q' + later);
    assert b + (laterOut + q'') == b + laterOut + q'';
  }

  /**
   Under every interleaving, what was in the queue followed by what pushes accepted is what pops
   returned followed by what is still in the queue.
   */
  lemma {:induction false} FirstInFirstOut(s: State, run: seq<Step>)
    requires Legal(s, run)
    ensures s.queue + Moved(s, run, true) == Moved(s, run, false) + Final(s, run).queue
    decreases |run|
  {
    hide Apply;
    hide Enabled;
    hide MovedBy;
    if run != [] {
      var after, rest := Apply(s, run[0]), run[1..];
      StepMoves(s, run[0]);
      FirstInFirstOut(after, rest);
      Regroup(s.queue, MovedBy(s, run[0], true), MovedBy(s, run[0], false), after.queue,
              Moved(after, rest, true), Moved(after, rest, false), Final(s, run).queue);
    }
  }

  /** A closed queue stays closed and accepts nothing. */
  lemma {:induction false} NothingAcceptedAfterClose(s: State, run: seq<Step>)
    requires Legal(s, run) && s.closed
    ensures Final(s, run).closed && Moved(s, run, true) == []
    decreases |run|
  {
    hide Apply;
    hide Enabled;
    hide MovedBy;
    if run != [] {
      StepMoves(s, run[0]);
      ClosedStays(s, run[0]);
      NothingAcceptedAfterClose(Apply(s, run[0]), run[1..]);
    }
  }

  lemma ClosedStays(s: State, step: Step)
    requires Enabled(s, step)
    ensures s.closed ==> Apply(s, step).closed
  {
  }

  /** What each result tells the caller about the queue at that moment. */
  lemma ResultMeaning(s: State, t: Tid, wake: set<Tid>)
    requires Enabled(s, Run(t, wake))
    ensures var p := Apply(s, Run(t, wake)).threads[t];
            p.Returned? ==>
              && (p.result == Closed ==> s.closed && (p.call.Pop? ==> s.queue == []))
              && (p.result == Ok && p.call.Push? ==>
                    !s.closed && |s.queue| != s.capacity && p.moved == [p.call.frame])
              && (p.result == Ok && p.call.Pop? ==> s.queue != [] && p.moved == [s.queue[0]])
              && (p.result == Timeout ==>
                    (if s.threads[t].Woken? && s.threads[t].why == TimedOut
                     then !s.closed || (p.call.Pop? && s.queue != [])
                     else p.call.timeout == 0 && !MayProceed(s, p.call)))
  {
    hide WakeAll, SignalMayWake;
    var call := s.threads[t].call;
    AttemptMeans(s, t, call, wake);
    AttemptMeans(CountEncounter(s, call), t, call, wake);
    hide Attempt, CountEncounter;
  }

  lemma AttemptMeans(s: State, t: Tid, call: Call, wake: set<Tid>)
    ensures var p := Attempt(s, t, call, wake).threads[t];
            && p.call == call
            && (p.Returned? ==>
                  && (p.result == Closed ==> s.closed && (call.Pop? ==> s.queue == []))
                  && (p.result == Ok && call.Push? ==>
                        !s.closed && |s.queue| != s.capacity && p.moved == [call.frame])
                  && (p.result == Ok && call.Pop? ==> s.queue != [] && p.moved == [s.queue[0]])
                  && (p.result == Timeout ==> call.timeout == 0 && !MayProceed(s, call)))
  {
    hide WakeAll;
  }

  /** `pop` reports a closed queue only after every accepted frame has been delivered. */
  lemma {:induction false} ClosedMeansDrained(capacity: nat, threads: set<Tid>, run: seq<Step>, t: Tid, wake: set<Tid>)
    requires Legal(Start(capacity, threads), run)
    requires var s := Final(Start(capacity, threads), run);
             && Enabled(s, Run(t, wake))
             && var p := Apply(s, Run(t, wake)).threads[t];
                p.Returned? && p.result == Closed && p.call.Pop?
    ensures Moved(Start(capacity, threads), run, true) == Moved(Start(capacity, threads), run, false)
  {
    hide Apply;
    hide Enabled;
    var start := Start(capacity, threads);
    ResultMeaning(Final(start, run), t, wake);
    FirstInFirstOut(start, run);
    assert start.queue + Moved(start, run, true) == Moved(start, run, true);
  }

  // ----- One thread's part of a run -------------------------------------------------------------

  /** The steps by which `t` itself acts: it calls an operation, or goes through a critical section. */
  function Own(run: seq<Step>, t: Tid): seq<Step> {
    if run == [] then []
    else
      var last := run[|run| - 1];
      Own(run[..|run| - 1], t) + if (last.Invoke? || last.Run?) && last.t == t then [last] else []
  }

  /** The call of `t` that this step completes, with its result and the frame it moved. */
  function CompletedBy(s: State, step: Step, t: Tid): seq<Phase>
    requires Enabled(s, step)
  {
    if step.Run? && step.t == t && Apply(s, step).threads[t].Returned? then [Apply(s, step).threads[t]] else []
  }

  /** The calls that `t` has completed, in order. */
  ghost function Completed(s: State, run: seq<Step>, t: Tid): seq<Phase>
    requires Legal(s, run)
    decreases |run|
  {
    if run == [] then [] else CompletedBy(s, run[0], t) + Completed(Apply(s, run[0]), run[1..], t)
  }

  lemma OwnExtended(run: seq<Step>, step: Step, t: Tid)
    ensures Own(run + [step], t)
         == Own(run, t) + if (step.Invoke? || step.Run?) && step.t == t then [step] else []
  {
    assert (run + [step])[..|run|] == run;
  }

  lemma {:induction false} CompletedExtended(s: State, run: seq<Step>, step: Step, t: Tid)
    requires Legal(s, run) && Enabled(Final(s, run), step)
    ensures Legal(s, run + [step])
    ensures Completed(s, run + [step], t) == Completed(s, run, t) + CompletedBy(Final(s, run), step, t)
    decreases |run|
  {
    hide Enabled, Apply, CompletedBy;
    Extend(s, run, step);
    if run == [] {
      assert [] + [step] == [step];
      assert [step][1..] == [];
    } else {
      assert (run + [step])[1..] == run[1..] + [step];
      CompletedExtended(Apply(s, run[0]), run[1..], step, t);
    }
  }

  /** A frame is moved by a step exactly if the step completes a successful call with that frame. */
  lemma MovesComplete(s: State, step: Step, pushes: bool)
    requires Enabled(s, step) && step.Run?
    ensures MovedBy(s, step, pushes)
         == var done := CompletedBy(s, step, step.t);
            if done != [] && done[0].result == Ok && done[0].call.Push? == pushes then done[0].moved else []
  {
  }

  // ----- Close and statistics ----------------------------------------------------------------------

  /** After close nobody sleeps, and every call that runs returns. */
  lemma ClosedQueueReleases(capacity: nat, threads: set<Tid>, run: seq<Step>)
    requires capacity > 0 && Legal(Start(capacity, threads), run)
    requires Final(Start(capacity, threads), run).closed
    ensures var s := Final(Start(capacity, threads), run);
            && (forall t :: t in s.threads ==> !s.threads[t].Sleeping?)
            && (forall t, wake :: Enabled(s, Run(t, wake)) ==> Apply(s, Run(t, wake)).threads[t].Returned?)
  {
    hide Final;
    hide WakeAll;
    var s := Final(Start(capacity, threads), run);
    StartInv(capacity, threads);
    RunInv(Start(capacity, threads), run);
    forall t | t in s.threads ensures !s.threads[t].Sleeping? {
      Membership(s.threads, t, true);
      Membership(s.threads, t, false);
    }
  }

  /** The counters balance, and the peak bounds every depth since the last reset. */
  lemma StatsAlwaysBalance(capacity: nat, threads: set<Tid>, run: seq<Step>)
    requires capacity > 0 && Legal(Start(capacity, threads), run)
    ensures StatsBalance(Final(Start(capacity, threads), run))
  {
    hide Final;
    hide StatsBalance;
    StartInv(capacity, threads);
    RunInv(Start(capacity, threads), run);
  }
}
