/** What the statistics of the synchronised queue count, said about the steps of a run. */
module QueueCounts {
  import opened Machine
  import opened Frames
  import opened QueueMonitor

  datatype Happening =
    | PushSucceeded
    | PopSucceeded
    | FoundFull
    | FoundEmpty
    | PushWaits
    | PopWaits
    | PushTimedOut
    | PopTimedOut

  /** The step completes a call of this kind with this result. */
  predicate Completes(s: State, step: Step, push: bool, result: Result)
    requires Enabled(s, step)
  {
    && step.Run?
    && var p := Apply(s, step).threads[step.t];
       p.Returned? && p.call.Push? == push && p.result == result
  }

  /** The step is the first critical section of a call, and finds the open queue full (or empty). */
  predicate FirstFinds(s: State, step: Step, push: bool)
    requires Enabled(s, step)
  {
    && step.Run? && s.threads[step.t].Entering? && s.threads[step.t].call.Push? == push
    && !s.closed && |s.queue| == if push then s.capacity else 0
  }

  predicate Happens(s: State, step: Step, h: Happening)
    requires Enabled(s, step)
  {
    match h
    case PushSucceeded => Completes(s, step, true, Ok)
    case PopSucceeded => Completes(s, step, false, Ok)
    case FoundFull => FirstFinds(s, step, true)
    case FoundEmpty => FirstFinds(s, step, false)
    case PushWaits => FirstFinds(s, step, true) && s.threads[step.t].call.timeout != 0
    case PopWaits => FirstFinds(s, step, false) && s.threads[step.t].call.timeout != 0
    case PushTimedOut => Completes(s, step, true, Timeout)
    case PopTimedOut => Completes(s, step, false, Timeout)
  }

  /** How often it happens in the run, starting from `sofar` and anew at every reset. */
  ghost function CountOn(s: State, run: seq<Step>, h: Happening, sofar: nat): nat
    requires Legal(s, run)
    decreases |run|
  {
    if run == [] then sofar
    else
      CountOn(Apply(s, run[0]), run[1..], h,
              if run[0].ResetStats? then 0 else sofar + if Happens(s, run[0], h) then 1 else 0)
  }

  /** How often it has happened since the last reset. */
  ghost function Since(s: State, run: seq<Step>, h: Happening): nat
    requires Legal(s, run)
  {
    CountOn(s, run, h, 0)
  }

  /** The deepest the queue has been, starting from `sofar` and anew at every reset. */
  ghost function DeepestOn(s: State, run: seq<Step>, sofar: nat): nat
    requires Legal(s, run)
    decreases |run|
  {
    if run == [] then sofar
    else
      var depth := |Apply(s, run[0]).queue|;
      DeepestOn(Apply(s, run[0]), run[1..], if run[0].ResetStats? || depth > sofar then depth else sofar)
  }

  /** The counter that is there for it. */
  function Counter(stats: Stats, h: Happening): nat {
    match h
    case PushSucceeded => stats.pushed
    case PopSucceeded => stats.popped
    case FoundFull => stats.fullEncounters
    case FoundEmpty => stats.emptyEncounters
    case PushWaits => stats.pushWaits
    case PopWaits => stats.popWaits
    case PushTimedOut => stats.pushTimeouts
    case PopTimedOut => stats.popTimeouts
  }

  lemma AttemptCounts(s: State, t: Tid, call: Call, wake: set<Tid>, h: Happening)
    requires t in s.threads
    ensures var after := Attempt(s, t, call, wake);
            var p := after.threads[t];
            Counter(after.stats, h)
            == Counter(s.stats, h)
               + match h
                 case PushSucceeded => if p.Returned? && call.Push? && p.result == Ok then 1 else 0
                 case PopSucceeded => if p.Returned? && call.Pop? && p.result == Ok then 1 else 0
                 case PushTimedOut => if p.Returned? && call.Push? && p.result == Timeout then 1 else 0
                 case PopTimedOut => if p.Returned? && call.Pop? && p.result == Timeout then 1 else 0
                 case _ => 0
    ensures Attempt(s, t, call, wake).threads[t].call == call
    ensures Attempt(s, t, call, wake).stats.peak
         == if |Attempt(s, t, call, wake).queue| > |s.queue| then
              Max(s.stats.peak, |Attempt(s, t, call, wake).queue|) else s.stats.peak
  {
    hide WakeAll;
  }

  lemma EncounterCounts(s: State, t: Tid, call: Call, h: Happening)
    requires t in s.threads && s.threads[t] == Entering(call)
    ensures Counter(CountEncounter(s, call).stats, h)
         == Counter(s.stats, h)
            + match h
              case FoundFull => if call.Push? && !s.closed && |s.queue| == s.capacity then 1 else 0
              case FoundEmpty => if call.Pop? && !s.closed && |s.queue| == 0 then 1 else 0
              case PushWaits =>
                if call.Push? && !s.closed && |s.queue| == s.capacity && call.timeout != 0 then 1 else 0
              case PopWaits => if call.Pop? && !s.closed && |s.queue| == 0 && call.timeout != 0 then 1 else 0
              case _ => 0
    ensures CountEncounter(s, call).stats.peak == s.stats.peak
  {
  }

  lemma StepCounts(s: State, step: Step, h: Happening)
    requires Enabled(s, step)
    ensures Counter(Apply(s, step).stats, h)
         == if step.ResetStats? then 0 else Counter(s.stats, h) + if Happens(s, step, h) then 1 else 0
  {
    hide SignalMayWake;
    if step.Run? {
      var call := s.threads[step.t].call;
      if s.threads[step.t].Entering? {
        EncounterCounts(s, step.t, call, h);
        AttemptCounts(CountEncounter(s, call), step.t, call, step.wake, h);
        hide Attempt, CountEncounter;
      } else {
        AttemptCounts(s, step.t, call, step.wake, h);
        hide Attempt, CountEncounter;
      }
    }
  }

  lemma StepDeepest(s: State, step: Step)
    requires Enabled(s, step) && |s.queue| <= s.stats.peak
    ensures var depth := |Apply(s, step).queue|;
            Apply(s, step).stats.peak == if step.ResetStats? || depth > s.stats.peak then depth else s.stats.peak
  {
    hide SignalMayWake, WakeAll;
    if step.Run? {
      var call := s.threads[step.t].call;
      AttemptCounts(s, step.t, call, step.wake, PushSucceeded);
      AttemptCounts(CountEncounter(s, call), step.t, call, step.wake, PushSucceeded);
      if s.threads[step.t].Entering? {
        EncounterCounts(s, step.t, call, PushSucceeded);
      }
      hide Attempt, CountEncounter;
    }
  }

  lemma {:induction false} RunCounts(s: State, run: seq<Step>, h: Happening)
    requires Legal(s, run)
    ensures Counter(Final(s, run).stats, h) == CountOn(s, run, h, Counter(s.stats, h))
    decreases |run|
  {
    hide Enabled, Apply, Happens, Counter;
    if run != [] {
      StepCounts(s, run[0], h);
      RunCounts(Apply(s, run[0]), run[1..], h);
    }
  }

  lemma {:induction false} RunDeepest(s: State, run: seq<Step>)
    requires Legal(s, run) && Inv(s)
    ensures Final(s, run).stats.peak == DeepestOn(s, run, s.stats.peak)
    decreases |run|
  {
    hide Enabled, Apply, NobodySleepsClosed, WakeupsOwed;
    if run != [] {
      StepInv(s, run[0]);
      StepDeepest(s, run[0]);
      RunDeepest(Apply(s, run[0]), run[1..]);
    }
  }

  /** Every counter is the number of times what it is there for has happened since the last reset. */
  lemma StatsCount(capacity: nat, threads: set<Tid>, run: seq<Step>)
    requires capacity > 0 && Legal(Start(capacity, threads), run)
    ensures var start := Start(capacity, threads);
            var stats := Final(start, run).stats;
            && stats.pushed == Since(start, run, PushSucceeded)
            && stats.popped == Since(start, run, PopSucceeded)
            && stats.fullEncounters == Since(start, run, FoundFull)
            && stats.emptyEncounters == Since(start, run, FoundEmpty)
            && stats.pushWaits == Since(start, run, PushWaits)
            && stats.popWaits == Since(start, run, PopWaits)
            && stats.pushTimeouts == Since(start, run, PushTimedOut)
            && stats.popTimeouts == Since(start, run, PopTimedOut)
            && stats.peak == DeepestOn(start, run, 0)
  {
    hide Legal, Final, CountOn, DeepestOn;
    var start := Start(capacity, threads);
    StartInv(capacity, threads);
    RunDeepest(start, run);
    RunCounts(start, run, PushSucceeded);
    RunCounts(start, run, PopSucceeded);
    RunCounts(start, run, FoundFull);
    RunCounts(start, run, FoundEmpty);
    RunCounts(start, run, PushWaits);
    RunCounts(start, run, PopWaits);
    RunCounts(start, run, PushTimedOut);
    RunCounts(start, run, PopTimedOut);
  }

  // ----- What one critical section does ------------------------------------------------------

  /** Everything a critical section decides, from the state it finds. */
  lemma SectionOutcome(s: State, t: Tid, wake: set<Tid>)
    requires Enabled(s, Run(t, wake))
    ensures var call := s.threads[t].call;
            var after := Apply(s, Run(t, wake));
            var p := after.threads[t];
            var blocked := !s.closed && if call.Push? then |s.queue| == s.capacity else s.queue == [];
            && after.closed == s.closed
            && (s.threads[t].Woken? && s.threads[t].why == TimedOut ==>
                  && p == Returned(call, if s.closed && (call.Push? || s.queue == []) then Closed else Timeout, [])
                  && after.queue == s.queue)
            && (!(s.threads[t].Woken? && s.threads[t].why == TimedOut) ==>
                  && (blocked ==>
                        && p == (if call.timeout == 0 then Returned(call, Timeout, []) else Sleeping(call))
                        && after.queue == s.queue)
                  && (!blocked && call.Push? ==>
                        && p == (if s.closed || |s.queue| == s.capacity then Returned(call, Closed, [])
                                 else Returned(call, Ok, [call.frame]))
                        && after.queue == s.queue + p.moved)
                  && (!blocked && call.Pop? ==>
                        && p == (if s.queue == [] then Returned(call, Closed, [])
                                 else Returned(call, Ok, [s.queue[0]]))
                        && s.queue == p.moved + after.queue))
  {
    hide WakeAll, SignalMayWake;
    var call := s.threads[t].call;
    AttemptOutcome(s, t, call, wake);
    AttemptOutcome(CountEncounter(s, call), t, call, wake);
    hide Attempt;
  }

  lemma AttemptOutcome(s: State, t: Tid, call: Call, wake: set<Tid>)
    ensures var after := Attempt(s, t, call, wake);
            var p := after.threads[t];
            var blocked := !s.closed && if call.Push? then |s.queue| == s.capacity else s.queue == [];
            && after.closed == s.closed
            && (blocked ==>
                  && p == (if call.timeout == 0 then Returned(call, Timeout, []) else Sleeping(call))
                  && after.queue == s.queue)
            && (!blocked && call.Push? ==>
                  && p == (if s.closed || |s.queue| == s.capacity then Returned(call, Closed, [])
                           else Returned(call, Ok, [call.frame]))
                  && after.queue == s.queue + p.moved)
            && (!blocked && call.Pop? ==>
                  && p == (if s.queue == [] then Returned(call, Closed, []) else Returned(call, Ok, [s.queue[0]]))
                  && s.queue == p.moved + after.queue)
  {
    hide WakeAll;
  }

  /** Close closes, and leaves nobody asleep, nor the frames. */
  lemma CloseOutcome(s: State)
    ensures var after := Apply(s, Close);
            && after.closed && after.queue == s.queue && after.stats == s.stats
            && forall t :: t in s.threads ==>
                             t in after.threads && !after.threads[t].Sleeping?
                             && (s.threads[t].Sleeping? ==> after.threads[t] == Woken(s.threads[t].call, Signalled))
                             && (!s.threads[t].Sleeping? ==> after.threads[t] == s.threads[t])
  {
  }
}
