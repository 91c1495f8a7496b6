/**
 The pthread queue's operations as the code writes them: a mutex, a waiting loop, the
 sequential queue inside. Each operation is shown to take exactly the steps of `QueueMonitor`;
 other threads run whenever the mutex is free.
 */
module PthreadQueue {
  import opened Machine
  import opened Frames
  import opened QueueMonitor
  import opened QueueCounts
  import Circular
  import F = FrameQueue

  class SharedStats {
    var framesPushed: U64
    var framesPopped: U64
    var pushFullEncounters: U64
    var popEmptyEncounters: U64
    var pushWaitCount: U64
    var popWaitCount: U64
    var pushTimeoutCount: U64
    var popTimeoutCount: U64
    var peakSize: SizeT

    /** The counters show the exact counts up to their maximum. */
    predicate Shows(s: Stats)
      reads this
    {
      && framesPushed == AddSaturating(0, s.pushed)
      && framesPopped == AddSaturating(0, s.popped)
      && pushFullEncounters == AddSaturating(0, s.fullEncounters)
      && popEmptyEncounters == AddSaturating(0, s.emptyEncounters)
      && pushWaitCount == AddSaturating(0, s.pushWaits)
      && popWaitCount == AddSaturating(0, s.popWaits)
      && pushTimeoutCount == AddSaturating(0, s.pushTimeouts)
      && popTimeoutCount == AddSaturating(0, s.popTimeouts)
      && peakSize == s.peak
    }

    method Clear(currentSize: SizeT)
      modifies this
      ensures Shows(NO_STATS.(peak := currentSize))
    {
      framesPushed, framesPopped := 0, 0;
      pushFullEncounters, popEmptyEncounters := 0, 0;
      pushWaitCount, popWaitCount := 0, 0;
      pushTimeoutCount, popTimeoutCount := 0, 0;
      peakSize := currentSize;
    }

    method CopyFrom(other: SharedStats, ghost s: Stats)
      requires other != this && other.Shows(s)
      modifies this
      ensures Shows(s)
    {
      hide AddSaturating;
      framesPushed, framesPopped := other.framesPushed, other.framesPopped;
      pushFullEncounters, popEmptyEncounters := other.pushFullEncounters, other.popEmptyEncounters;
      pushWaitCount, popWaitCount := other.pushWaitCount, other.popWaitCount;
      pushTimeoutCount, popTimeoutCount := other.pushTimeoutCount, other.popTimeoutCount;
      peakSize := other.peakSize;
    }

    /** A call that found the queue full (or empty) on entry. */
    method CountBlocked(push: bool, waits: bool, ghost s: Stats)
      requires Shows(s)
      modifies this
      ensures push ==> Shows(s.(fullEncounters := s.fullEncounters + 1,
                                pushWaits := s.pushWaits + if waits then 1 else 0))
      ensures !push ==> Shows(s.(emptyEncounters := s.emptyEncounters + 1,
                                 popWaits := s.popWaits + if waits then 1 else 0))
    {
      if push {
        pushFullEncounters := Increment(pushFullEncounters);
        if waits {
          pushWaitCount := Increment(pushWaitCount);
        }
      } else {
        popEmptyEncounters := Increment(popEmptyEncounters);
        if waits {
          popWaitCount := Increment(popWaitCount);
        }
      }
    }

    method CountTimeout(push: bool, ghost s: Stats)
      requires Shows(s)
      modifies this
      ensures push ==> Shows(s.(pushTimeouts := s.pushTimeouts + 1))
      ensures !push ==> Shows(s.(popTimeouts := s.popTimeouts + 1))
    {
      if push {
        pushTimeoutCount := Increment(pushTimeoutCount);
      } else {
        popTimeoutCount := Increment(popTimeoutCount);
      }
    }

    method CountPushed(used: SizeT, ghost s: Stats)
      requires Shows(s)
      modifies this
      ensures Shows(s.(pushed := s.pushed + 1, peak := Max(s.peak, used)))
    {
      framesPushed := Increment(framesPushed);
      if used > peakSize {
        peakSize := used;
      }
    }

    method CountPopped(ghost s: Stats)
      requires Shows(s)
      modifies this
      ensures Shows(s.(popped := s.popped + 1))
    {
      framesPopped := Increment(framesPopped);
    }
  }

  /** The critical section `t` is in: its encounter is already counted when it has just entered. */
  ghost function Section(s: State, t: Tid): State
    requires t in s.threads && (s.threads[t].Entering? || s.threads[t].Woken?)
  {
    if s.threads[t].Entering? then CountEncounter(s, s.threads[t].call) else s
  }

  class SharedQueue {
    const core: F.Queue
    const stats: SharedStats?
    var closed: bool
    ghost const threads: set<Tid>
    ghost var run: seq<Step>

    ghost function Initial(): State
      reads core
    {
      Start(core.capacity, threads)
    }

    /** The fields hold the state `m`. */
    ghost predicate Holds(m: State)
      reads this, core, core.storage, stats
    {
      && core.Valid()
      && m.capacity == core.capacity
      && m.queue == core.Contents()
      && m.closed == closed
      && (stats != null ==> stats.Shows(m.stats))
    }

    /** The steps taken so far are legal from an empty queue. */
    ghost predicate Sound()
      reads this, core
    {
      core.capacity > 0 && Legal(Initial(), run)
    }

    /** The state those steps lead to. */
    ghost function Model(): State
      reads this, core
      requires Sound()
    {
      Final(Initial(), run)
    }

    ghost predicate Valid()
      reads this, core, core.storage, stats
    {
      Sound() && Holds(Model())
    }

    /** The calls `t` has completed so far, with their results and the frames they moved. */
    ghost function Calls(t: Tid): seq<Phase>
      reads this, core
      requires Sound()
    {
      Completed(Initial(), run, t)
    }

    /** The steps by which `t` itself acted so far. */
    ghost function Mine(t: Tid): seq<Step>
      reads this
    {
      Own(run, t)
    }

    constructor (storage: array<Frame>, capacity: SizeT, stats: SharedStats?, ghost threads: set<Tid>)
      requires 0 < capacity <= storage.Length
      modifies stats
      ensures Valid() && Model() == Start(capacity, threads)
      ensures fresh(core) && core.storage == storage && this.stats == stats && this.threads == threads
    {
      core := new F.Queue(storage, capacity);
      this.stats := stats;
      closed := false;
      this.threads := threads;
      run := [];
      new;
      if stats != null {
        stats.Clear(0);
      }
    }

    /** Used plus free space equals the capacity exactly when the core's indices are sound. */
    method CoreIsValid() returns (valid: bool)
      requires core.HasMemory()
      ensures valid <==> core.Valid()
    {
      if core.capacity == 0 {
        return false;
      }
      var used := core.Size();
      var free := core.FreeSpace();
      return used + free == core.capacity;
    }

    /** The check made whenever the mutex has been taken never fails. */
    method CheckCore()
      requires core.Valid()
    {
      var valid := CoreIsValid();
      assert valid;
    }

    ghost method Take(step: Step, t: Tid)
      requires Sound() && Enabled(Model(), step)
      modifies this`run
      ensures Sound() && Model() == Apply(old(Model()), step) && run == old(run) + [step]
      ensures Calls(t) == old(Calls(t)) + CompletedBy(old(Model()), step, t)
      ensures Mine(t) == old(Mine(t)) + if (step.Invoke? || step.Run?) && step.t == t then [step] else []
    {
      hide Enabled, Apply, CompletedBy, Legal, Final, Completed;
      Extend(Initial(), run, step);
      CompletedExtended(Initial(), run, step, t);
      OwnExtended(run, step, t);
      run := run + [step];
    }

    // ----- What other threads may do -----------------------------------------------------------

    /**
     Waiting for the mutex: any number of legal steps of others may come first. Callers know
     the contract only; the body is the case that nobody else runs.
     */
    method LockMutex(ghost t: Tid)
      requires Valid() && t in Model().threads && Model().threads[t].Entering?
      modifies this`closed, this`run, core`readIndex, core`writeIndex, core`used, core.storage, stats
      ensures Valid() && old(run) <= run && t in Model().threads
      ensures Model().threads[t] == old(Model().threads[t])
      ensures Mine(t) == old(Mine(t)) && Calls(t) == old(Calls(t))
    {
    }

    /**
     Sleeping on a condition variable until woken and holding the mutex again; others may take
     any legal steps meanwhile. Callers know the contract only; the body is a spurious wakeup.
     */
    method Wait(ghost t: Tid, ghost call: Call) returns (timedOut: bool)
      requires Valid() && t in Model().threads && Model().threads[t] == Sleeping(call)
      modifies this`closed, this`run, core`readIndex, core`writeIndex, core`used, core.storage, stats
      ensures Valid() && old(run) <= run && t in Model().threads
      ensures Model().threads[t].Woken? && Model().threads[t].call == call
      ensures timedOut <==> Model().threads[t].why == TimedOut
      ensures timedOut ==> call.timeout != WAIT_FOREVER
      ensures Mine(t) == old(Mine(t)) && Calls(t) == old(Calls(t))
    {
      Take(WakeSpuriously(t), t);
      timedOut := false;
    }

    /** Which sleepers one signal wakes: callers know only that it may. */
    ghost method Signal(pops: bool) returns (wake: set<Tid>)
      requires Sound()
      ensures SignalMayWake(Model().threads, pops, wake)
    {
      wake := Sleepers(Model().threads, pops);
    }

    // ----- The operations ------------------------------------------------------------------------

    method Close()
      requires Valid()
      modifies this`closed, this`run
      ensures Valid() && run == old(run) + [Step.Close] && Model() == Apply(old(Model()), Step.Close)
    {
      closed := true;
      Take(Step.Close, 0);
    }

    method ResetStats() returns (enabled: bool)
      requires Valid()
      modifies this`run, stats
      ensures Valid() && enabled == (stats != null)
      ensures run == old(run) + if enabled then [Step.ResetStats] else []
      ensures Model() == if enabled then Apply(old(Model()), Step.ResetStats) else old(Model())
    {
      if stats == null {
        return false;
      }
      CheckCore();
      stats.Clear(core.used);
      Take(Step.ResetStats, 0);
      return true;
    }

    /** The snapshot balances with the depth of the queue at that moment. */
    method GetStats(output: SharedStats) returns (enabled: bool)
      requires Valid() && output != stats
      modifies output
      ensures Valid() && enabled == (stats != null)
      ensures enabled ==> output.Shows(Model().stats)
      ensures enabled ==> |Model().queue| <= output.peakSize <= core.capacity
      ensures enabled && output.framesPushed < U64_MAX && output.framesPopped < U64_MAX ==>
                output.framesPushed + Model().base == output.framesPopped + |Model().queue|
      ensures enabled ==>
                && output.framesPushed == Min(Since(Initial(), run, PushSucceeded), U64_MAX)
                && output.framesPopped == Min(Since(Initial(), run, PopSucceeded), U64_MAX)
                && output.pushFullEncounters == Min(Since(Initial(), run, FoundFull), U64_MAX)
                && output.popEmptyEncounters == Min(Since(Initial(), run, FoundEmpty), U64_MAX)
                && output.pushWaitCount == Min(Since(Initial(), run, PushWaits), U64_MAX)
                && output.popWaitCount == Min(Since(Initial(), run, PopWaits), U64_MAX)
                && output.pushTimeoutCount == Min(Since(Initial(), run, PushTimedOut), U64_MAX)
                && output.popTimeoutCount == Min(Since(Initial(), run, PopTimedOut), U64_MAX)
                && output.peakSize == DeepestOn(Initial(), run, 0)
      ensures !enabled ==> unchanged(output)
    {
      hide Legal, Final, Since, DeepestOn;
      if stats == null {
        return false;
      }
      CheckCore();
      output.CopyFrom(stats, Model().stats);
      StartInv(core.capacity, threads);
      RunInv(Initial(), run);
      StatsCount(core.capacity, threads, run);
      return true;
    }

    /** The critical section ends: `t` has attempted its call. */
    ghost method FinishSection(t: Tid, wake: set<Tid>)
      requires Sound() && t in Model().threads && InSection(Model().threads[t])
      requires SignalMayWake(Model().threads, Model().threads[t].call.Push?, wake)
      modifies this`run
      ensures Sound() && old(run) <= run
      ensures Model() == old(Attempt(Section(Model(), t), t, Model().threads[t].call, wake))
      ensures Ran(old(Mine(t)), Mine(t))
      ensures t in Model().threads
           && Calls(t) == old(Calls(t)) + if Model().threads[t].Returned? then [Model().threads[t]] else []
    {
      hide Attempt;
      AttemptKeeps(Section(Model(), t), t, Model().threads[t].call, wake);
      Take(Run(t, wake), t);
    }

    /** The critical section after a wait that timed out ends. */
    ghost method FinishTimedOut(t: Tid)
      requires Sound() && t in Model().threads
      requires Model().threads[t].Woken? && Model().threads[t].why == TimedOut
      modifies this`run
      ensures Sound() && old(run) <= run
      ensures Model() == old(GiveUp(Model(), t, Model().threads[t].call))
      ensures Ran(old(Mine(t)), Mine(t))
      ensures t in Model().threads && Model().threads[t].Returned?
           && Calls(t) == old(Calls(t)) + [Model().threads[t]]
    {
      TimedOutGivesUp(Model(), t, Model().threads[t].call);
      hide GiveUp;
      Take(Run(t, Sleepers(Model().threads, Model().threads[t].call.Push?)), t);
    }

    /** The waiting condition of the call: the queue is open and full, or open and empty. */
    method Blocked(call: Call, ghost m: State) returns (blocked: bool)
      requires Holds(m)
      ensures blocked == !MayProceed(m, call)
    {
      if call.Push? {
        return !closed && core.used == core.capacity;
      } else {
        return !closed && core.used == 0;
      }
    }

    /** The statistics kept once per call before the waiting loop. */
    method KeepEncounter(call: Call, ghost m: State)
      requires Holds(m)
      modifies stats
      ensures Holds(CountEncounter(m, call))
    {
      var blocked := Blocked(call, m);
      if stats != null && blocked {
        stats.CountBlocked(call.Push?, call.timeout != 0, m.stats);
      }
    }

    method KeepTimeout(call: Call, ghost m: State)
      requires Holds(m)
      modifies stats
      ensures Holds(QueueMonitor.CountTimeout(m, call))
    {
      if stats != null {
        stats.CountTimeout(call.Push?, m.stats);
      }
    }

    method PushCore(frame: Frame, ghost m: State)
      requires Holds(m) && |m.queue| != m.capacity
      modifies core`writeIndex, core`used, core.storage, stats
      ensures Holds(m.(queue := m.queue + [frame],
                       stats := m.stats.(pushed := m.stats.pushed + 1,
                                         peak := Max(m.stats.peak, |m.queue| + 1))))
    {
      hide Circular.Window;
      hide Circular.AdvanceIndex;
      var pushed := core.PushInternal(frame, null);
      assert pushed == F.QueueResult.Ok;
      if stats != null {
        stats.CountPushed(core.used, m.stats);
      }
    }

    method PopCore(frame: FrameSlot, ghost m: State)
      requires Holds(m) && m.queue != []
      modifies core`readIndex, core`used, stats, frame
      ensures frame.value == m.queue[0]
      ensures Holds(m.(queue := m.queue[1..], stats := m.stats.(popped := m.stats.popped + 1)))
    {
      hide Circular.Window;
      hide Circular.AdvanceIndex;
      var popped := core.PopInternal(frame, null);
      assert popped == F.QueueResult.Ok;
      if stats != null {
        stats.CountPopped(m.stats);
      }
    }

    /** Taking the mutex for the first time. */
    method Enter(ghost t: Tid, call: Call)
      requires Valid() && t in Model().threads
      requires Model().threads[t].Outside? || Model().threads[t].Returned?
      modifies this`closed, this`run, core`readIndex, core`writeIndex, core`used, core.storage, stats
      ensures Sound() && old(run) <= run && t in Model().threads
      ensures Model().threads[t] == Entering(call) && Holds(Section(Model(), t))
      ensures Mine(t) == old(Mine(t)) + [Invoke(t, call)] && Calls(t) == old(Calls(t))
    {
      hide Apply;
      hide MayProceed;
      hide CountEncounter;
      hide F.Queue.Contents;
      hide F.Queue.Valid;
      InvokeEnters(Model(), t, call);
      Take(Invoke(t, call), t);
      LockMutex(t);
      CheckCore();
      KeepEncounter(call, Model());
    }

    /**
     One turn of the waiting loop; `last` cuts the observation off while asleep. A limit of 0
     gives up at once, other limits fall asleep, and only a finite one can end the waiting.
     */
    method WaitingTurn(ghost t: Tid, call: Call, last: bool) returns (turn: Turn)
      requires Sound() && t in Model().threads && InSection(Model().threads[t])
      requires Model().threads[t].call == call
      requires Holds(Section(Model(), t)) && !MayProceed(Section(Model(), t), call)
      modifies this`closed, this`run, core`readIndex, core`writeIndex, core`used, core.storage, stats
      ensures Sound() && old(run) <= run && t in Model().threads && Ran(old(Mine(t)), Mine(t))
      ensures call.timeout == 0 ==> turn == Ended(Done(Timeout))
      ensures call.timeout != 0 && last ==> turn == Ended(Asleep)
      ensures call.timeout == 0xFFFF_FFFF && !last ==> turn == GoesOn
      ensures turn.GoesOn? ==>
                && Model().threads[t].Woken? && Model().threads[t].why != TimedOut
                && Model().threads[t].call == call
                && Holds(Section(Model(), t)) && Calls(t) == old(Calls(t))
      ensures turn.Ended? ==> Valid() && EndsAs(Model().threads[t], call, turn.outcome, [])
      ensures turn.Ended? ==> Calls(t) == old(Calls(t)) + Report(Model().threads[t], turn.outcome)
      ensures turn.Ended? && call.timeout != 0 && !last ==> turn.outcome == Done(GivenUpResult(Model(), call))
    {
      hide MayProceed, F.Queue.Contents, F.Queue.Valid, CountTimeout, Legal, Final, Completed, Own, Ran;
      ghost var mine := Mine(t);
      if call.timeout == 0 {
        GiveUpAtOnce(t, call);
        return Ended(Done(Timeout));
      }
      FallAsleep(t, call);
      if last {
        return Ended(Asleep);
      }
      var timedOut := Wait(t, call);
      ghost var waited := Mine(t);
      if timedOut {
        var outcome := TimedOutSection(t, call);
        RanOn(mine, waited, Mine(t));
        return Ended(outcome);
      }
      CheckCore();
      return GoesOn;
    }

    /** A call that must not wait reports a timeout in its first critical section. */
    method GiveUpAtOnce(ghost t: Tid, call: Call)
      requires Sound() && t in Model().threads && InSection(Model().threads[t])
      requires Model().threads[t].call == call && call.timeout == 0
      requires Holds(Section(Model(), t)) && !MayProceed(Section(Model(), t), call)
      modifies this`run, stats
      ensures Valid() && old(run) <= run && Ran(old(Mine(t)), Mine(t))
      ensures t in Model().threads && Model().threads[t] == Returned(call, Timeout, [])
      ensures Calls(t) == old(Calls(t)) + [Model().threads[t]]
    {
      hide Attempt, MayProceed, Apply, F.Queue.Contents, F.Queue.Valid;
      ghost var m := Section(Model(), t);
      ghost var wake := Signal(call.Push?);
      BlockedAttempt(m, t, call, wake);
      KeepTimeout(call, m);
      FinishSection(t, wake);
    }

    /** Entering `pthread_cond_wait` or `pthread_cond_timedwait`: the mutex is free again. */
    ghost method FallAsleep(t: Tid, call: Call)
      requires Sound() && t in Model().threads && InSection(Model().threads[t])
      requires Model().threads[t].call == call && call.timeout != 0
      requires Holds(Section(Model(), t)) && !MayProceed(Section(Model(), t), call)
      modifies this`run
      ensures Valid() && old(run) <= run && Ran(old(Mine(t)), Mine(t))
      ensures t in Model().threads && Model().threads[t] == Sleeping(call)
      ensures Calls(t) == old(Calls(t))
    {
      hide Attempt, MayProceed, Apply, F.Queue.Contents, F.Queue.Valid;
      var m := Section(Model(), t);
      var wake := Signal(call.Push?);
      BlockedAttempt(m, t, call, wake);
      FinishSection(t, wake);
    }

    /** After a wait that reported a timeout: the queue is not tested for room or frames again. */
    method TimedOutSection(ghost t: Tid, call: Call) returns (outcome: Outcome)
      requires Valid() && t in Model().threads && Model().threads[t] == Woken(call, TimedOut)
      modifies this`run, stats
      ensures Valid() && old(run) <= run && t in Model().threads && Ran(old(Mine(t)), Mine(t))
      ensures outcome == Done(GivenUpResult(old(Model()), call)) == Done(GivenUpResult(Model(), call))
      ensures EndsAs(Model().threads[t], call, outcome, [])
      ensures Calls(t) == old(Calls(t)) + Report(Model().threads[t], outcome)
    {
      hide GiveUp;
      hide Apply;
      ghost var m := Model();
      TimedOutGivesUp(m, t, call);
      if closed && (call.Push? || core.used == 0) {
        FinishTimedOut(t);
        return Done(Closed);
      }
      KeepTimeout(call, m);
      FinishTimedOut(t);
      return Done(Timeout);
    }

    /** The waiting loop, observed for at most `wakeups` returns from waiting. */
    method AwaitTurn(ghost t: Tid, call: Call, wakeups: nat) returns (turn: Turn)
      requires Sound() && t in Model().threads && InSection(Model().threads[t])
      requires Model().threads[t].call == call && Holds(Section(Model(), t))
      modifies this`closed, this`run, core`readIndex, core`writeIndex, core`used, core.storage, stats
      ensures Sound() && old(run) <= run && t in Model().threads && Ran(old(Mine(t)), Mine(t))
      ensures turn.GoesOn? ==>
                && InSection(Model().threads[t]) && Model().threads[t].call == call
                && Holds(Section(Model(), t)) && MayProceed(Section(Model(), t), call)
                && Calls(t) == old(Calls(t))
      ensures turn.Ended? ==> Valid() && turn.outcome != Done(Ok)
      ensures turn.Ended? ==> EndsAs(Model().threads[t], call, turn.outcome, [])
      ensures turn.Ended? ==> Calls(t) == old(Calls(t)) + Report(Model().threads[t], turn.outcome)
    {
      hide MayProceed, Section, F.Queue.Contents, F.Queue.Valid, EndsAs, Report;
      var left := wakeups;
      var blocked := Blocked(call, Section(Model(), t));
      while blocked
        invariant Sound() && old(run) <= run && t in Model().threads && Ran(old(Mine(t)), Mine(t))
        invariant InSection(Model().threads[t]) && Model().threads[t].call == call
        invariant Holds(Section(Model(), t)) && Calls(t) == old(Calls(t))
        invariant blocked == !MayProceed(Section(Model(), t), call)
        decreases left, blocked
      {
        turn := WaitingTurn(t, call, left == 0);
        if turn.Ended? {
          return;
        }
        left := left - 1;
        blocked := Blocked(call, Section(Model(), t));
      }
      return GoesOn;
    }

    /**
     `comm_frame_queue_pthread_push`, observed for at most `wakeups` returns from waiting. `t`
     invokes the call once, completes it once, and moves this frame exactly on success.
     */
    method Push(ghost t: Tid, frame: Frame, timeout: U32, wakeups: nat) returns (outcome: Outcome)
      requires Valid() && t in Model().threads
      requires Model().threads[t].Outside? || Model().threads[t].Returned?
      modifies this`closed, this`run, core`readIndex, core`writeIndex, core`used, core.storage, stats
      ensures Valid() && old(run) <= run
      ensures t in Model().threads && EndsAs(Model().threads[t], Call.Push(frame, timeout), outcome, [frame])
      ensures Ran(old(Mine(t)) + [Invoke(t, Call.Push(frame, timeout))], Mine(t))
      ensures Calls(t) == old(Calls(t)) + Report(Model().threads[t], outcome)
    {
      hide MayProceed, Section, F.Queue.Contents, F.Queue.Valid, Ran, Legal, Final, Completed, Own, Holds;
      var call := Call.Push(frame, timeout);
      Enter(t, call);
      ghost var entered := Mine(t);
      var turn := AwaitTurn(t, call, wakeups);
      ghost var waited := Mine(t);
      if turn.Ended? {
        return turn.outcome;
      }
      outcome := PushSection(t, frame, timeout);
      RanOn(entered, waited, Mine(t));
    }

    /** The push itself, once the loop is left. */
    method PushSection(ghost t: Tid, frame: Frame, timeout: U32) returns (outcome: Outcome)
      requires Sound() && t in Model().threads && InSection(Model().threads[t])
      requires Model().threads[t].call == Call.Push(frame, timeout)
      requires Holds(Section(Model(), t)) && MayProceed(Section(Model(), t), Model().threads[t].call)
      modifies this`run, core`writeIndex, core`used, core.storage, stats
      ensures Valid() && old(run) <= run
      ensures t in Model().threads && EndsAs(Model().threads[t], Call.Push(frame, timeout), outcome, [frame])
      ensures Ran(old(Mine(t)), Mine(t))
      ensures Calls(t) == old(Calls(t)) + Report(Model().threads[t], outcome)
    {
      hide Attempt;
      hide Apply;
      hide F.Queue.Contents;
      hide F.Queue.Valid;
      ghost var m := Section(Model(), t);
      ghost var wake := Signal(true);
      PushAttempt(m, t, Model().threads[t].call, wake);
      if closed {
        FinishSection(t, wake);
        return Done(Closed);
      }
      PushCore(frame, m);
      FinishSection(t, wake);
      return Done(Ok);
    }

    /**
     `comm_frame_queue_pthread_pop`, observed for at most `wakeups` returns from waiting. `t`
     invokes the call once, completes it once, and moves exactly the frame it hands out.
     */
    method Pop(ghost t: Tid, frame: FrameSlot, timeout: U32, wakeups: nat) returns (outcome: Outcome)
      requires Valid() && t in Model().threads
      requires Model().threads[t].Outside? || Model().threads[t].Returned?
      modifies this`closed, this`run, core`readIndex, core`writeIndex, core`used, core.storage, stats, frame
      ensures Valid() && old(run) <= run
      ensures t in Model().threads && EndsAs(Model().threads[t], Call.Pop(timeout), outcome, [frame.value])
      ensures Ran(old(Mine(t)) + [Invoke(t, Call.Pop(timeout))], Mine(t))
      ensures Calls(t) == old(Calls(t)) + Report(Model().threads[t], outcome)
      ensures outcome != Done(Ok) ==> frame.value == old(frame.value)
    {
      hide MayProceed, Section, F.Queue.Contents, F.Queue.Valid, Ran, Legal, Final, Completed, Own, Holds;
      var call := Call.Pop(timeout);
      Enter(t, call);
      ghost var entered := Mine(t);
      var turn := AwaitTurn(t, call, wakeups);
      ghost var waited := Mine(t);
      if turn.Ended? {
        return turn.outcome;
      }
      outcome := PopSection(t, frame, timeout);
      RanOn(entered, waited, Mine(t));
    }

    /** The pop itself, once the loop is left. */
    method PopSection(ghost t: Tid, frame: FrameSlot, timeout: U32) returns (outcome: Outcome)
      requires Sound() && t in Model().threads && InSection(Model().threads[t])
      requires Model().threads[t].call == Call.Pop(timeout)
      requires Holds(Section(Model(), t)) && MayProceed(Section(Model(), t), Model().threads[t].call)
      modifies this`run, core`readIndex, core`used, stats, frame
      ensures Valid() && old(run) <= run
      ensures t in Model().threads && EndsAs(Model().threads[t], Call.Pop(timeout), outcome, [frame.value])
      ensures Ran(old(Mine(t)), Mine(t))
      ensures Calls(t) == old(Calls(t)) + Report(Model().threads[t], outcome)
      ensures outcome != Done(Ok) ==> frame.value == old(frame.value)
    {
      hide Attempt;
      hide Apply;
      hide F.Queue.Contents;
      hide F.Queue.Valid;
      ghost var m := Section(Model(), t);
      ghost var wake := Signal(false);
      PopAttempt(m, t, Model().threads[t].call, wake);
      if closed && core.used == 0 {
        FinishSection(t, wake);
        return Done(Closed);
      }
      PopCore(frame, m);
      FinishSection(t, wake);
      return Done(Ok);
    }
  }

  datatype Turn = Ended(outcome: Outcome) | GoesOn

  /** How an operation ends when it is observed for a bounded number of wakeups. */
  datatype Outcome = Done(result: Result) | Asleep

  /** The phase in which a call ends; a successful one has moved `moved`. */
  predicate EndsAs(p: Phase, call: Call, outcome: Outcome, moved: seq<Frame>) {
    if outcome.Done? then p == Returned(call, outcome.result, if outcome.result == Ok then moved else [])
    else p == Sleeping(call)
  }

  /** What the operation adds to the completed calls of its thread. */
  function Report(p: Phase, outcome: Outcome): seq<Phase> {
    if outcome.Done? then [p] else []
  }

  /** Between the two, the thread did nothing but go through critical sections. */
  predicate Ran(before: seq<Step>, after: seq<Step>) {
    before <= after && forall i :: |before| <= i < |after| ==> after[i].Run?
  }

  lemma RanOn(first: seq<Step>, second: seq<Step>, third: seq<Step>)
    requires Ran(first, second) && Ran(second, third)
    ensures Ran(first, third)
  {
  }

  /** What a call reports whose waiting time has run out. */
  function GivenUpResult(m: State, call: Call): Result {
    if m.closed && (call.Push? || m.queue == []) then Closed else Timeout
  }

  predicate InSection(p: Phase) {
    p.Entering? || (p.Woken? && p.why != TimedOut)
  }

  lemma InvokeEnters(m: State, t: Tid, call: Call)
    requires t in m.threads && (m.threads[t].Outside? || m.threads[t].Returned?)
    ensures Enabled(m, Invoke(t, call))
    ensures Apply(m, Invoke(t, call)) == m.(threads := m.threads[t := Entering(call)])
  {
  }

  lemma AttemptKeeps(m: State, t: Tid, call: Call, wake: set<Tid>)
    requires t in m.threads
    ensures t in Attempt(m, t, call, wake).threads
  {
    hide WakeAll;
  }

  lemma BlockedAttempt(m: State, t: Tid, call: Call, wake: set<Tid>)
    requires t in m.threads && !MayProceed(m, call)
    ensures Attempt(m, t, call, wake)
         == if call.timeout == 0 then
              CountTimeout(m, call).(threads := m.threads[t := Returned(call, Timeout, [])])
            else m.(threads := m.threads[t := Sleeping(call)])
  {
  }

  lemma PushAttempt(m: State, t: Tid, call: Call, wake: set<Tid>)
    requires t in m.threads && MayProceed(m, call) && call.Push?
    ensures m.closed || |m.queue| != m.capacity
    ensures Attempt(m, t, call, wake)
         == if m.closed then m.(threads := m.threads[t := Returned(call, Closed, [])])
            else
              m.(queue := m.queue + [call.frame],
                 stats := m.stats.(pushed := m.stats.pushed + 1, peak := Max(m.stats.peak, |m.queue| + 1)),
                 threads := WakeAll(m.threads, wake)[t := Returned(call, Ok, [call.frame])])
  {
    hide WakeAll;
  }

  lemma PopAttempt(m: State, t: Tid, call: Call, wake: set<Tid>)
    requires t in m.threads && MayProceed(m, call) && call.Pop?
    ensures m.closed || m.queue != []
    ensures Attempt(m, t, call, wake)
         == if m.queue == [] then m.(threads := m.threads[t := Returned(call, Closed, [])])
            else
              m.(queue := m.queue[1..],
                 stats := m.stats.(popped := m.stats.popped + 1),
                 threads := WakeAll(m.threads, wake)[t := Returned(call, Ok, [m.queue[0]])])
  {
    hide WakeAll;
  }

  lemma TimedOutGivesUp(m: State, t: Tid, call: Call)
    requires t in m.threads
    ensures GiveUp(m, t, call)
         == if m.closed && (call.Push? || m.queue == []) then
              m.(threads := m.threads[t := Returned(call, Closed, [])])
            else CountTimeout(m, call).(threads := m.threads[t := Returned(call, Timeout, [])])
  {
  }
}
