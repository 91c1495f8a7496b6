/** The caller's array of pending requests, as values: its invariant, and what one sweep does to it. */
module PendingSlots {
  import opened Machine
  import opened Frames
  import opened Transactions

  /** Only `active` is meaningful in a free slot; C lets it hold any integer. */
  datatype Pending = Pending(request: Frame, deadline: U64, retries: U8, active: int)

  datatype ChannelResult = Accepted | Timeout | Closed | NullArgument | BadState | BackendError

  /** The manager's results, for the branches that are part of this model. */
  datatype Result =
    | Ok
    | InvalidConfig
    | InvalidState
    | PayloadTooLarge
    | InvalidSequence
    | PendingFull
    | SequenceExhausted
    | UnsupportedFrameType
    | ChannelTimeout
    | ChannelClosed
    | ChannelError

  function MapChannelResult(r: ChannelResult): Result {
    match r
    case Accepted => Ok
    case Timeout => ChannelTimeout
    case Closed => ChannelClosed
    case _ => ChannelError
  }

  /** Which answers of the channel each result stands for. */
  lemma MapMeans(r: ChannelResult)
    ensures MapChannelResult(r) == Ok <==> r == Accepted
    ensures MapChannelResult(r) == ChannelTimeout <==> r == Timeout
    ensures MapChannelResult(r) == ChannelClosed <==> r == Closed
    ensures MapChannelResult(r) == ChannelError <==> r == NullArgument || r == BadState || r == BackendError
  {
  }

  // ----- The invariant of the array --------------------------------------------------------------

  predicate SlotSound(p: Policy, slot: Pending) {
    || slot.active == 0
    || (slot.active == 1
        && slot.request.version == VERSION && slot.request.kind == TYPE_REQUEST
        && slot.request.sequence != 0 && slot.request.payloadLength <= MAX_PAYLOAD_SIZE
        && slot.retries <= p.maxRetries)
  }

  predicate Holds(slot: Pending, v: U16) {
    slot.active == 1 && slot.request.sequence == v
  }

  ghost predicate Distinct(slots: seq<Pending>) {
    forall i, j :: 0 <= i < j < |slots| && slots[i].active == 1 ==> !Holds(slots[j], slots[i].request.sequence)
  }

  ghost predicate SlotsSound(p: Policy, slots: seq<Pending>) {
    Distinct(slots) && forall i :: 0 <= i < |slots| ==> SlotSound(p, slots[i])
  }

  function TransactionIn(slot: Pending): Transaction {
    Transaction(slot.request, slot.deadline, slot.retries)
  }

  /** The transactions the array holds. */
  function Open(slots: seq<Pending>): (open: map<U16, Transaction>) {
    if slots == [] then map[]
    else
      var last, open := slots[|slots| - 1], Open(slots[..|slots| - 1]);
      if last.active == 1 then open[last.request.sequence := TransactionIn(last)] else open
  }

  ghost predicate SomebodyHolds(slots: seq<Pending>, v: U16) {
    exists i :: 0 <= i < |slots| && Holds(slots[i], v)
  }

  lemma HeldInPrefix(slots: seq<Pending>, v: U16)
    requires slots != []
    ensures SomebodyHolds(slots, v)
       <==> SomebodyHolds(slots[..|slots| - 1], v) || Holds(slots[|slots| - 1], v)
  {
    var n := |slots| - 1;
    if SomebodyHolds(slots[..n], v) {
      var i :| 0 <= i < n && Holds(slots[..n][i], v);
      assert Holds(slots[i], v);
    }
    if SomebodyHolds(slots, v) && !Holds(slots[n], v) {
      var i :| 0 <= i <= n && Holds(slots[i], v);
      assert Holds(slots[..n][i], v);
    }
  }

  lemma NobodyInNothing(v: U16)
    ensures !SomebodyHolds([], v)
  {
  }

  lemma {:induction false} OpenMeans(slots: seq<Pending>, v: U16)
    ensures v in Open(slots) <==> SomebodyHolds(slots, v)
  {
    hide SomebodyHolds;
    if slots == [] {
      NobodyInNothing(v);
    } else {
      HeldInPrefix(slots, v);
      OpenMeans(slots[..|slots| - 1], v);
    }
  }

  lemma DistinctPrefix(slots: seq<Pending>)
    requires slots != [] && Distinct(slots)
    ensures var n := |slots| - 1;
            && Distinct(slots[..n])
            && (slots[n].active == 1 ==> !SomebodyHolds(slots[..n], slots[n].request.sequence))
  {
    var n := |slots| - 1;
    var v := slots[n].request.sequence;
    forall i | 0 <= i < n && slots[n].active == 1 ensures !Holds(slots[..n][i], v) {
      assert slots[i].active == 1 ==> !Holds(slots[n], slots[i].request.sequence);
    }
  }

  lemma {:induction false} OpenHolds(slots: seq<Pending>, i: nat)
    requires Distinct(slots) && i < |slots| && slots[i].active == 1
    ensures slots[i].request.sequence in Open(slots)
    ensures Open(slots)[slots[i].request.sequence] == TransactionIn(slots[i])
  {
    var n := |slots| - 1;
    if i < n {
      DistinctPrefix(slots);
      assert slots[..n][i] == slots[i];
      OpenHolds(slots[..n], i);
      assert !Holds(slots[n], slots[i].request.sequence);
    }
  }

  /** Clearing the slot of an open transaction removes exactly that transaction. */
  lemma {:induction false} SlotReleased(slots: seq<Pending>, i: nat)
    requires Distinct(slots) && i < |slots| && slots[i].active == 1
    ensures var after := slots[i := slots[i].(active := 0)];
            Distinct(after) && Open(after) == Open(slots) - {slots[i].request.sequence}
  {
    var v, after, n := slots[i].request.sequence, slots[i := slots[i].(active := 0)], |slots| - 1;
    DistinctPrefix(slots);
    if i == n {
      OpenMeans(slots[..n], v);
      assert after[..n] == slots[..n];
    } else {
      SlotReleased(slots[..n], i);
      assert after[..n] == slots[..n][i := slots[i].(active := 0)];
      assert !Holds(slots[n], v);
    }
  }

  /** Filling a slot adds or replaces one transaction. */
  lemma {:induction false} SlotFilled(slots: seq<Pending>, i: nat, slot: Pending)
    requires Distinct(slots) && i < |slots| && slot.active == 1
    requires if slots[i].active == 1 then slots[i].request.sequence == slot.request.sequence
             else slot.request.sequence !in Open(slots)
    ensures Distinct(slots[i := slot])
    ensures Open(slots[i := slot]) == Open(slots)[slot.request.sequence := TransactionIn(slot)]
  {
    var v, after, n := slot.request.sequence, slots[i := slot], |slots| - 1;
    forall j | 0 <= j < |slots| && j != i ensures !Holds(slots[j], v) {
      if slots[j].active == 1 {
        OpenHolds(slots, j);
        assert slots[i].active == 1 ==>
            !Holds(slots[if i < j then j else i], slots[if i < j then i else j].request.sequence);
      }
    }
    DistinctPrefix(slots);
    if i == n {
      assert after[..n] == slots[..n];
    } else {
      SlotFilled(slots[..n], i, slot);
      assert after[..n] == slots[..n][i := slot];
    }
  }

  function ActiveCount(slots: seq<Pending>): (n: nat)
    ensures n <= |slots|
  {
    if slots == [] then 0
    else ActiveCount(slots[..|slots| - 1]) + if slots[|slots| - 1].active == 1 then 1 else 0
  }

  lemma {:induction false} OpenCount(slots: seq<Pending>)
    requires Distinct(slots)
    ensures |Open(slots)| == ActiveCount(slots)
  {
    if slots != [] {
      var last, fewer := slots[|slots| - 1], slots[..|slots| - 1];
      DistinctPrefix(slots);
      OpenCount(fewer);
      OpenMeans(fewer, last.request.sequence);
      EntryAdded(Open(fewer), last.request.sequence, TransactionIn(last));
    }
  }

  /** The array is full exactly when no slot is free. */
  lemma {:induction false} FullWhenNoneFree(p: Policy, slots: seq<Pending>)
    requires forall i :: 0 <= i < |slots| ==> SlotSound(p, slots[i])
    ensures ActiveCount(slots) == |slots| <==> forall i :: 0 <= i < |slots| ==> slots[i].active != 0
  {
    if slots != [] {
      FullWhenNoneFree(p, slots[..|slots| - 1]);
    }
  }

  // ----- One sweep over the array ------------------------------------------------------------------

  /** The waiting time of an active slot has passed. */
  predicate Due(slot: Pending, now: U64) {
    slot.active != 0 && slot.deadline <= now
  }

  predicate Expires(p: Policy, slot: Pending, now: U64) {
    Due(slot, now) && slot.retries >= p.maxRetries
  }

  predicate Repeats(p: Policy, slot: Pending, now: U64) {
    Due(slot, now) && slot.retries < p.maxRetries
  }

  /** What the sweep makes of one slot, given the channel's answer in case it asks. */
  function Swept(p: Policy, slot: Pending, now: U64, answer: ChannelResult): Pending {
    if Expires(p, slot, now) then slot.(active := 0)
    else if Repeats(p, slot, now) && answer.Accepted? then
      slot.(retries := slot.retries + 1, deadline := Deadline(now, p.timeout))
    else slot
  }

  /** How often the channel is asked for the first `n` slots. */
  function Asked(p: Policy, slots: seq<Pending>, now: U64, n: nat): nat
    requires n <= |slots|
  {
    if n == 0 then 0 else Asked(p, slots, now, n - 1) + if Repeats(p, slots[n - 1], now) then 1 else 0
  }

  /** Each slot on its own: the channel's `k`-th answer goes to the `k`-th slot that repeats. */
  ghost function SweptAll(p: Policy, slots: seq<Pending>, now: U64, answers: nat -> ChannelResult): (r: seq<Pending>)
    ensures |r| == |slots|
  {
    seq(|slots|, i requires 0 <= i < |slots| =>
      Swept(p, slots[i], now, answers(Asked(p, slots, now, i))))
  }

  /** The event of one slot of a sweep. */
  function ExpiryOf(p: Policy, slot: Pending, now: U64): seq<Event> {
    if Expires(p, slot, now) then [Event(RequestTimeout, slot.request, slot.retries)] else []
  }

  /** The final timeouts of the first `n` slots, in slot order. */
  function ExpiryEvents(p: Policy, slots: seq<Pending>, now: U64, n: nat): seq<Event>
    requires n <= |slots|
  {
    if n == 0 then [] else ExpiryEvents(p, slots, now, n - 1) + ExpiryOf(p, slots[n - 1], now)
  }

  /** The step of a slot that asks the channel. */
  function RepeatOutcome(slot: Pending, now: U64, answer: ChannelResult): Step {
    if answer.Accepted? then Resent(slot.request, slot.retries + 1, now) else Refused(slot.request)
  }

  /** What the sweep of one slot adds to the run. */
  function StepsOf(p: Policy, slot: Pending, now: U64, answer: ChannelResult): seq<Step> {
    if Expires(p, slot, now) then [TimedOut(slot.request, slot.retries, now)]
    else if Repeats(p, slot, now) then [RepeatOutcome(slot, now, answer)]
    else []
  }

  /** The steps of the first `n` slots, in slot order. */
  ghost function SweepSteps(p: Policy, slots: seq<Pending>, now: U64, answers: nat -> ChannelResult,
                            n: nat): seq<Step>
    requires n <= |slots|
  {
    if n == 0 then []
    else
      SweepSteps(p, slots, now, answers, n - 1)
      + StepsOf(p, slots[n - 1], now, answers(Asked(p, slots, now, n - 1)))
  }

  /** Every step that has a time has this one. */
  ghost predicate AllAt(steps: seq<Step>, now: U64) {
    forall k :: 0 <= k < |steps| && (steps[k].TimedOut? || steps[k].Resent?) ==> steps[k].now == now
  }

  lemma {:induction false} SweepStepsAtNow(p: Policy, slots: seq<Pending>, now: U64,
                                           answers: nat -> ChannelResult, n: nat)
    requires n <= |slots|
    ensures AllAt(SweepSteps(p, slots, now, answers, n), now)
  {
    if n > 0 {
      SweepStepsAtNow(p, slots, now, answers, n - 1);
      var before := SweepSteps(p, slots, now, answers, n - 1);
      var more := StepsOf(p, slots[n - 1], now, answers(Asked(p, slots, now, n - 1)));
      var steps: seq<Step> := before + more;
      forall k | 0 <= k < |steps| && (steps[k].TimedOut? || steps[k].Resent?) ensures steps[k].now == now {
        assert steps[k] == if k < |before| then before[k] else more[k - |before|];
      }
    }
  }

  /** The step puts this request to the channel again, or gives it up. */
  predicate Treats(step: Step, f: Frame) {
    || (step.Resent? && step.request == f)
    || (step.Refused? && step.frame == f)
    || (step.TimedOut? && step.request == f)
  }

  ghost predicate Treated(steps: seq<Step>, f: Frame) {
    exists m :: 0 <= m < |steps| && Treats(steps[m], f)
  }

  lemma TreatedLater(steps: seq<Step>, more: seq<Step>, f: Frame)
    ensures Treated(steps + more, f) <==> Treated(steps, f) || Treated(more, f)
  {
    var all := steps + more;
    if Treated(steps, f) {
      var m :| 0 <= m < |steps| && Treats(steps[m], f);
      assert Treats(all[m], f);
    }
    if Treated(more, f) {
      var m :| 0 <= m < |more| && Treats(more[m], f);
      assert Treats(all[|steps| + m], f);
    }
    if Treated(all, f) {
      var m :| 0 <= m < |all| && Treats(all[m], f);
      assert if m < |steps| then Treats(steps[m], f) else Treats(more[m - |steps|], f);
    }
  }

  lemma SlotTreats(p: Policy, slot: Pending, now: U64, answer: ChannelResult, f: Frame)
    requires SlotSound(p, slot)
    ensures Treated(StepsOf(p, slot, now, answer), f) <==> slot.active == 1 && slot.deadline <= now && slot.request == f
  {
    var steps := StepsOf(p, slot, now, answer);
    if slot.active == 1 && slot.deadline <= now && slot.request == f {
      assert Treats(steps[0], f);
    }
  }

  /** A sweep treats the request of an active slot exactly if its waiting time is over. */
  lemma {:induction false} SweepTreats(p: Policy, slots: seq<Pending>, now: U64, answers: nat -> ChannelResult,
                                       n: nat, i: nat)
    requires SlotsSound(p, slots) && n <= |slots| && i < |slots| && slots[i].active == 1
    ensures Treated(SweepSteps(p, slots, now, answers, n), slots[i].request)
       <==> i < n && slots[i].deadline <= now
  {
    hide SlotSound, Treated, StepsOf;
    if n == 0 {
      NothingTreated(slots[i].request);
    } else {
      var answer := answers(Asked(p, slots, now, n - 1));
      SweepTreats(p, slots, now, answers, n - 1, i);
      TreatedLater(SweepSteps(p, slots, now, answers, n - 1), StepsOf(p, slots[n - 1], now, answer), slots[i].request);
      assert SlotSound(p, slots[n - 1]);
      SlotTreats(p, slots[n - 1], now, answer, slots[i].request);
      if slots[n - 1].active == 1 && i != n - 1 {
        RequestsDiffer(slots, i, n - 1);
      }
    }
  }

  lemma NothingTreated(f: Frame)
    ensures !Treated([], f)
  {
  }

  lemma RequestsDiffer(slots: seq<Pending>, i: nat, j: nat)
    requires Distinct(slots) && i < |slots| && j < |slots| && slots[i].active == slots[j].active == 1
    requires i != j
    ensures slots[i].request != slots[j].request
  {
    var a, b := if i < j then i else j, if i < j then j else i;
    assert !Holds(slots[b], slots[a].request.sequence);
  }

  /** How many of the first `n` slots have waited for the last time. */
  function GivenUp(p: Policy, slots: seq<Pending>, now: U64, n: nat): nat
    requires n <= |slots|
  {
    if n == 0 then 0
    else
      var slot := slots[n - 1];
      GivenUp(p, slots, now, n - 1)
      + if slot.active != 0 && slot.deadline <= now && slot.retries >= p.maxRetries then 1 else 0
  }

  /** Each request given up is reported once, in slot order, with its own frame and retries. */
  lemma {:induction false} ExpiryEventsMean(p: Policy, slots: seq<Pending>, now: U64, n: nat, i: nat)
    requires i < n <= |slots|
    ensures |ExpiryEvents(p, slots, now, n)| == GivenUp(p, slots, now, n)
    ensures slots[i].active != 0 && slots[i].deadline <= now && slots[i].retries >= p.maxRetries ==>
              && GivenUp(p, slots, now, i) < GivenUp(p, slots, now, n)
              && ExpiryEvents(p, slots, now, n)[GivenUp(p, slots, now, i)]
              == Event(RequestTimeout, slots[i].request, slots[i].retries)
    decreases n
  {
    if i < n - 1 {
      ExpiryEventsMean(p, slots, now, n - 1, i);
    } else if n > 1 {
      ExpiryEventsMean(p, slots, now, n - 1, n - 2);
    }
  }

  /** The first of `n` answers that is not an acceptance, as the manager reports it. */
  ghost function FirstError(answers: nat -> ChannelResult, n: nat): Result {
    if n == 0 then Ok
    else if FirstError(answers, n - 1) != Ok then FirstError(answers, n - 1)
    else MapChannelResult(answers(n - 1))
  }

  /** Call `k` is the earliest refused one. */
  ghost predicate FirstRefused(answers: nat -> ChannelResult, k: nat) {
    !answers(k).Accepted? && forall j :: 0 <= j < k ==> answers(j).Accepted?
  }

  /** Without counting: the reported error answers the earliest refused call. */
  lemma {:induction false} FirstErrorIsFirst(answers: nat -> ChannelResult, n: nat)
    ensures FirstError(answers, n) == Ok <==> forall k :: 0 <= k < n ==> answers(k).Accepted?
    ensures forall k :: 0 <= k < n && FirstRefused(answers, k) ==>
                          FirstError(answers, n) == MapChannelResult(answers(k))
  {
    if n > 0 {
      FirstErrorIsFirst(answers, n - 1);
      var earlier := FirstError(answers, n - 1);
      assert MapChannelResult(answers(n - 1)) == Ok <==> answers(n - 1).Accepted?;
      forall k | 0 <= k < n && FirstRefused(answers, k)
        ensures FirstError(answers, n) == MapChannelResult(answers(k))
      {
        if k < n - 1 {
          assert earlier == MapChannelResult(answers(k));
        } else {
          assert earlier == Ok;
        }
      }
    }
  }

  /** A slot is due again at the same time exactly if its repeat was refused or the clock has stopped. */
  lemma DueAgain(p: Policy, slot: Pending, now: U64, answer: ChannelResult)
    requires p.timeout > 0
    ensures Due(Swept(p, slot, now, answer), now)
       <==> Repeats(p, slot, now) && (!answer.Accepted? || now == U64_MAX)
  {
  }

  lemma {:induction false} NobodyAsked(p: Policy, slots: seq<Pending>, now: U64, n: nat)
    requires n <= |slots| && forall i :: 0 <= i < |slots| ==> !Due(slots[i], now)
    ensures Asked(p, slots, now, n) == 0 && ExpiryEvents(p, slots, now, n) == []
  {
    if n > 0 {
      NobodyAsked(p, slots, now, n - 1);
    }
  }

  /** A due slot makes the sweep ask or report something. */
  lemma {:induction false} DueDoesSomething(p: Policy, slots: seq<Pending>, now: U64, i: nat, n: nat)
    requires i < n <= |slots| && Due(slots[i], now)
    ensures Asked(p, slots, now, n) > 0 || ExpiryEvents(p, slots, now, n) != []
  {
    if i < n - 1 {
      DueDoesSomething(p, slots, now, i, n - 1);
    }
  }

  /** Every question is asked for some slot. */
  lemma {:induction false} QuestionOf(p: Policy, slots: seq<Pending>, now: U64, k: nat, n: nat) returns (i: nat)
    requires n <= |slots| && k < Asked(p, slots, now, n)
    ensures i < n && Repeats(p, slots[i], now) && Asked(p, slots, now, i) == k
  {
    if k < Asked(p, slots, now, n - 1) {
      i := QuestionOf(p, slots, now, k, n - 1);
    } else {
      i := n - 1;
    }
  }

  /** The sweep finds nothing to do. */
  ghost predicate Quiet(p: Policy, slots: seq<Pending>, now: U64) {
    Asked(p, slots, now, |slots|) == 0 && ExpiryEvents(p, slots, now, |slots|) == []
  }

  /**
   A second sweep at the same moment does nothing exactly if the channel accepted every repeat
   of the first and, when there was one, the clock was not at its last value.
   */
  lemma SecondSweepQuietExactly(p: Policy, slots: seq<Pending>, now: U64, answers: nat -> ChannelResult)
    requires p.timeout > 0
    ensures Quiet(p, SweptAll(p, slots, now, answers), now)
       <==> && (forall k :: 0 <= k < Asked(p, slots, now, |slots|) ==> answers(k).Accepted?)
            && (Asked(p, slots, now, |slots|) > 0 ==> now < U64_MAX)
  {
    hide Swept;
    var after, asked := SweptAll(p, slots, now, answers), Asked(p, slots, now, |slots|);
    if (forall k :: 0 <= k < asked ==> answers(k).Accepted?) && (asked > 0 ==> now < U64_MAX) {
      forall i | 0 <= i < |slots| ensures !Due(after[i], now) {
        DueAgain(p, slots[i], now, answers(Asked(p, slots, now, i)));
        if Repeats(p, slots[i], now) {
          AskedGrows(p, slots, now, i + 1, |slots|);
        }
      }
      NobodyAsked(p, after, now, |after|);
    } else {
      var k :| 0 <= k < asked && (!answers(k).Accepted? || now == U64_MAX);
      var i := QuestionOf(p, slots, now, k, |slots|);
      DueAgain(p, slots[i], now, answers(k));
      DueDoesSomething(p, after, now, i, |after|);
    }
  }

  /** A sweep that finds nothing to do changes nothing. */
  lemma QuietChangesNothing(p: Policy, slots: seq<Pending>, now: U64, answers: nat -> ChannelResult)
    requires Quiet(p, slots, now)
    ensures SweptAll(p, slots, now, answers) == slots
  {
    hide Swept;
    forall i | 0 <= i < |slots| ensures SweptAll(p, slots, now, answers)[i] == slots[i] {
      if Due(slots[i], now) {
        DueDoesSomething(p, slots, now, i, |slots|);
      }
      NotDueKept(p, slots[i], now, answers(Asked(p, slots, now, i)));
    }
  }

  /** With an accepting channel, before the end of time, a second sweep at the same moment does nothing. */
  lemma SecondSweepQuiet(p: Policy, slots: seq<Pending>, now: U64, answers: nat -> ChannelResult,
                         later: nat -> ChannelResult)
    requires p.timeout > 0 && now < U64_MAX
    requires forall k :: 0 <= k < Asked(p, slots, now, |slots|) ==> answers(k).Accepted?
    ensures var after := SweptAll(p, slots, now, answers);
            && SweptAll(p, after, now, later) == after
            && Asked(p, after, now, |after|) == 0
            && ExpiryEvents(p, after, now, |after|) == []
  {
    SecondSweepQuietExactly(p, slots, now, answers);
    QuietChangesNothing(p, SweptAll(p, slots, now, answers), now, later);
  }

  lemma NotDueKept(p: Policy, slot: Pending, now: U64, answer: ChannelResult)
    requires !Due(slot, now)
    ensures Swept(p, slot, now, answer) == slot
  {
  }

  lemma {:induction false} AskedGrows(p: Policy, slots: seq<Pending>, now: U64, m: nat, n: nat)
    requires m <= n <= |slots|
    ensures Asked(p, slots, now, m) <= Asked(p, slots, now, n)
  {
    if m < n {
      AskedGrows(p, slots, now, m, n - 1);
    }
  }

  /** At the clock's last value every call repeats the request again at once. */
  lemma RepeatsAtEndOfTime(p: Policy, slot: Pending, later: ChannelResult)
    requires p.timeout > 0 && Repeats(p, slot, U64_MAX) && slot.retries + 1 < p.maxRetries
    ensures Repeats(p, Swept(p, slot, U64_MAX, Accepted), U64_MAX)
  {
  }

  /** Sweeps at the given times over one slot, the channel accepting every repeat. */
  function SweptAt(p: Policy, slot: Pending, times: seq<U64>): Pending
    decreases |times|
  {
    if times == [] then slot else SweptAt(p, Swept(p, slot, times[0], Accepted), times[1..])
  }

  /** How many of the sweeps find the slot due; the others leave it alone. */
  function DueSweeps(p: Policy, slot: Pending, times: seq<U64>): nat
    decreases |times|
  {
    if times == [] then 0
    else (if Due(slot, times[0]) then 1 else 0) + DueSweeps(p, Swept(p, slot, times[0], Accepted), times[1..])
  }

  /** An unanswered request ends with the due sweep after its last permitted repeat, no earlier and no later. */
  lemma {:induction false} UnansweredRequestEnds(p: Policy, slot: Pending, times: seq<U64>)
    requires SlotSound(p, slot)
    ensures SweptAt(p, slot, times).active == 0
       <==> slot.active == 0 || DueSweeps(p, slot, times) > p.maxRetries - slot.retries
    decreases |times|
  {
    if times != [] {
      UnansweredRequestEnds(p, Swept(p, slot, times[0], Accepted), times[1..]);
    }
  }

  const ALWAYS_ACCEPTED: nat -> ChannelResult := (k: nat) => Accepted

  /** Sweeps at the given times over the whole array, the channel accepting every repeat. */
  ghost function SweptAllAt(p: Policy, slots: seq<Pending>, times: seq<U64>): (r: seq<Pending>)
    ensures |r| == |slots|
    decreases |times|
  {
    if times == [] then slots
    else SweptAllAt(p, SweptAll(p, slots, times[0], ALWAYS_ACCEPTED), times[1..])
  }

  lemma {:induction false} EachSlotAlone(p: Policy, slots: seq<Pending>, times: seq<U64>, i: nat)
    requires i < |slots|
    ensures SweptAllAt(p, slots, times)[i] == SweptAt(p, slots[i], times)
    decreases |times|
  {
    hide Swept;
    if times != [] {
      EachSlotAlone(p, SweptAll(p, slots, times[0], ALWAYS_ACCEPTED), times[1..], i);
    }
  }

  /** All requests have ended exactly when each has met more due sweeps than it had repeats left. */
  lemma EveryRequestEnds(p: Policy, slots: seq<Pending>, times: seq<U64>)
    requires SlotsSound(p, slots)
    ensures (forall i :: 0 <= i < |slots| ==> SweptAllAt(p, slots, times)[i].active == 0)
       <==> forall i :: 0 <= i < |slots| ==>
                          slots[i].active == 0 || DueSweeps(p, slots[i], times) > p.maxRetries - slots[i].retries
  {
    hide SlotSound, SweptAllAt, SweptAt, DueSweeps;
    forall i | 0 <= i < |slots|
      ensures SweptAllAt(p, slots, times)[i].active == 0
         <==> slots[i].active == 0 || DueSweeps(p, slots[i], times) > p.maxRetries - slots[i].retries
    {
      EachSlotAlone(p, slots, times, i);
      assert SlotSound(p, slots[i]);
      UnansweredRequestEnds(p, slots[i], times);
    }
  }

  /** The first sweep is not before `first`, and each later one a waiting time after the one before. */
  predicate Spaced(p: Policy, times: seq<U64>, first: U64)
    decreases |times|
  {
    times == [] || (first <= times[0] && Spaced(p, times[1..], Deadline(times[0], p.timeout)))
  }

  lemma {:induction false} SpacedSweepsAreDue(p: Policy, slot: Pending, times: seq<U64>, first: U64)
    requires slot.active == 1 && slot.retries <= p.maxRetries && slot.deadline <= first
    requires Spaced(p, times, first) && |times| > p.maxRetries - slot.retries
    ensures DueSweeps(p, slot, times) > p.maxRetries - slot.retries
    decreases |times|
  {
    var after := Swept(p, slot, times[0], Accepted);
    if slot.retries < p.maxRetries {
      SpacedSweepsAreDue(p, after, times[1..], Deadline(times[0], p.timeout));
    }
  }

  /** Left alone, every request ends within `1 + maxRetries` sweeps a waiting time apart. */
  lemma SpacedSweepsEndAll(p: Policy, slots: seq<Pending>, times: seq<U64>, first: U64)
    requires SlotsSound(p, slots) && Spaced(p, times, first) && |times| > p.maxRetries
    requires forall i :: 0 <= i < |slots| && slots[i].active == 1 ==> slots[i].deadline <= first
    ensures forall i :: 0 <= i < |slots| ==> SweptAllAt(p, slots, times)[i].active == 0
  {
    hide Spaced, DueSweeps, SweptAllAt;
    EveryRequestEnds(p, slots, times);
    forall i | 0 <= i < |slots|
      ensures slots[i].active == 0 || DueSweeps(p, slots[i], times) > p.maxRetries - slots[i].retries
    {
      assert SlotSound(p, slots[i]);
      if slots[i].active == 1 {
        SpacedSweepsAreDue(p, slots[i], times, first);
      }
    }
  }
}
