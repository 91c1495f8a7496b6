/**
 The message manager as the code writes it: an array of pending slots, a cursor, counters.
 Each operation is shown to take exactly the steps of `Transactions`, whatever the channel answers.
 */
module MessageManager {
  import opened Machine
  import opened Frames
  import opened Transactions
  import opened PendingSlots

  /** The sending channel: an arbitrary answer to every call. */
  class Channel {
    const results: nat -> ChannelResult
    var calls: nat
    ghost var accepted: seq<Frame>
    ghost var limit: U32

    constructor (results: nat -> ChannelResult)
      ensures this.results == results && calls == 0 && accepted == []
    {
      this.results := results;
      calls := 0;
      accepted := [];
    }

    /** The answers to the calls to come. */
    ghost function Upcoming(): nat -> ChannelResult
      reads this
    {
      var made := calls;
      (k: nat) => results(made + k)
    }

    method Push(frame: Frame, timeout: U32) returns (r: ChannelResult)
      modifies this
      ensures r == old(Upcoming())(0) && calls == old(calls) + 1
      ensures accepted == old(accepted) + if r.Accepted? then [frame] else []
      ensures limit == timeout
    {
      limit := timeout;
      r := results(calls);
      calls := calls + 1;
      if r.Accepted? {
        accepted := accepted + [frame];
      }
    }
  }

  /** A caller's `uint16_t` for a new sequence number. */
  class NumberSlot {
    var value: U16
  }

  class ManagerStats {
    var framesSent: U64
    var requestsSent: U64
    var sendFailures: U64
    var requestsReceived: U64
    var reportsReceived: U64
    var responsesMatched: U64
    var errorsMatched: U64
    var unmatchedReplies: U64
    var retriesSent: U64
    var requestTimeouts: U64
    var pendingFull: U64
    var pendingPeak: SizeT

    /** The counters show exact counts up to their maximum. */
    predicate Shows(t: Tally, peak: nat)
      reads this
    {
      && framesSent == AddSaturating(0, t.framesSent)
      && requestsSent == AddSaturating(0, t.requestsSent)
      && sendFailures == AddSaturating(0, t.sendFailures)
      && requestsReceived == AddSaturating(0, t.requestsReceived)
      && reportsReceived == AddSaturating(0, t.reportsReceived)
      && responsesMatched == AddSaturating(0, t.responsesMatched)
      && errorsMatched == AddSaturating(0, t.errorsMatched)
      && unmatchedReplies == AddSaturating(0, t.unmatchedReplies)
      && retriesSent == AddSaturating(0, t.retriesSent)
      && requestTimeouts == AddSaturating(0, t.requestTimeouts)
      && pendingFull == AddSaturating(0, t.pendingFull)
      && pendingPeak == peak
    }

    method Clear(active: SizeT)
      modifies this
      ensures Shows(NOTHING, active)
    {
      framesSent, requestsSent, sendFailures := 0, 0, 0;
      requestsReceived, reportsReceived := 0, 0;
      responsesMatched, errorsMatched, unmatchedReplies := 0, 0, 0;
      retriesSent, requestTimeouts, pendingFull := 0, 0, 0;
      pendingPeak := active;
    }

    /** No counter of the balance has reached its maximum. */
    predicate Unsaturated()
      reads this
    {
      && framesSent < U64_MAX && requestsSent < U64_MAX && retriesSent < U64_MAX
      && responsesMatched < U64_MAX && errorsMatched < U64_MAX && requestTimeouts < U64_MAX
    }

    method CopyFrom(other: ManagerStats, ghost t: Tally, ghost peak: nat)
      requires other != this && other.Shows(t, peak)
      modifies this
      ensures Shows(t, peak)
    {
      hide AddSaturating;
      framesSent, requestsSent, sendFailures := other.framesSent, other.requestsSent, other.sendFailures;
      requestsReceived, reportsReceived := other.requestsReceived, other.reportsReceived;
      responsesMatched, errorsMatched := other.responsesMatched, other.errorsMatched;
      unmatchedReplies, retriesSent := other.unmatchedReplies, other.retriesSent;
      requestTimeouts, pendingFull := other.requestTimeouts, other.pendingFull;
      pendingPeak := other.pendingPeak;
    }

    method CountPush(accepted: bool, ghost t: Tally, ghost peak: nat)
      requires Shows(t, peak)
      modifies this
      ensures Shows(if accepted then t.(framesSent := t.framesSent + 1)
                    else t.(sendFailures := t.sendFailures + 1), peak)
    {
      if accepted {
        framesSent := Increment(framesSent);
      } else {
        sendFailures := Increment(sendFailures);
      }
    }

    method CountRequest(active: SizeT, ghost t: Tally, ghost peak: nat)
      requires Shows(t, peak)
      modifies this
      ensures Shows(t.(requestsSent := t.requestsSent + 1), Max(peak, active))
    {
      requestsSent := Increment(requestsSent);
      if active > pendingPeak {
        pendingPeak := active;
      }
    }

    method CountRetry(ghost t: Tally, ghost peak: nat)
      requires Shows(t, peak)
      modifies this
      ensures Shows(t.(retriesSent := t.retriesSent + 1), peak)
    {
      retriesSent := Increment(retriesSent);
    }

    method CountFull(ghost t: Tally, ghost peak: nat)
      requires Shows(t, peak)
      modifies this
      ensures Shows(t.(pendingFull := t.pendingFull + 1), peak)
    {
      pendingFull := Increment(pendingFull);
    }

    /** One event, counted by its kind; `step` is the step that produced it. */
    method CountEvent(kind: EventKind, ghost step: Step, ghost t: Tally, ghost peak: nat)
      requires Shows(t, peak) && |EventOf(step)| == 1 && EventOf(step)[0].kind == kind
      modifies this
      ensures Shows(Count(t, step), peak)
    {
      match kind
      case RequestReceived => requestsReceived := Increment(requestsReceived);
      case ReportReceived => reportsReceived := Increment(reportsReceived);
      case ResponseReceived => responsesMatched := Increment(responsesMatched);
      case ErrorReceived => errorsMatched := Increment(errorsMatched);
      case UnmatchedReply => unmatchedReplies := Increment(unmatchedReplies);
      case RequestTimeout => requestTimeouts := Increment(requestTimeouts);
    }
  }

  datatype Config = Config(responseTimeout: U32, sendTimeout: U32, maxRetries: U8)

  /** The end of the waiting time, without passing the clock's last value. */
  function MakeDeadline(now: U64, timeout: U32): (deadline: U64)
    ensures deadline == if now + timeout <= U64_MAX then now + timeout else U64_MAX
    ensures deadline == Deadline(now, timeout)
  {
    if now > U64_MAX - timeout then U64_MAX else now + timeout
  }

  class Manager {
    const channel: Channel
    const pending: array<Pending>
    const capacity: SizeT
    const config: Config
    const stats: ManagerStats?
    var nextSequence: U16
    var events: seq<Event>
    ghost var run: seq<Step>
    ghost var since: nat

    ghost function P(): Policy {
      Policy(capacity, config.responseTimeout, config.maxRetries)
    }

    ghost predicate HasMemory()
    {
      0 < capacity <= pending.Length && config.responseTimeout > 0
    }

    ghost function Slots(): (slots: seq<Pending>)
      requires HasMemory()
      reads pending
      ensures |slots| == capacity
    {
      pending[..capacity]
    }

    /** What the manager checks before it relies on its slots. */
    ghost predicate Sound()
      requires HasMemory()
      reads this`nextSequence, pending
    {
      nextSequence != 0 && SlotsSound(P(), Slots())
    }

    /** The counters and the events tell what happened in the run. */
    ghost predicate Ledger()
      reads this`run, this`since, this`events, stats
    {
      && Legal(P(), run) && since <= |run|
      && (stats != null ==> stats.Shows(Totals(run, since, |run|), Peak(P(), run, since, |run|)))
      && events == Events(run, 0, |run|)
    }

    /** The slots and the cursor are in the state the run leads to. */
    ghost predicate InState(s: State)
      requires HasMemory()
      reads this`nextSequence, pending
    {
      s == State(PendingSlots.Open(Slots()), nextSequence)
    }

    /** Sound slots are what the run has led to; others may have been damaged from outside. */
    ghost predicate Valid()
      reads this, pending, stats
    {
      HasMemory() && Ledger() && (Sound() ==> InState(End(P(), run)))
    }

    constructor (channel: Channel, pending: array<Pending>, capacity: SizeT, config: Config, stats: ManagerStats?)
      requires 0 < capacity <= pending.Length && config.responseTimeout > 0
      modifies pending, stats
      ensures pending[capacity..] == old(pending[capacity..])
      ensures Valid() && Sound() && run == [] && InState(START) && nextSequence == 1
      ensures this.channel == channel && this.pending == pending && this.capacity == capacity
      ensures this.config == config && this.stats == stats
    {
      this.channel := channel;
      this.pending := pending;
      this.capacity := capacity;
      this.config := config;
      this.stats := stats;
      nextSequence := 1;
      events := [];
      run := [];
      since := 0;
      new;
      ClearPending();
      if stats != null {
        stats.Clear(0);
      }
    }

    /** Frees every slot; the rest of a slot is left as it is. */
    method ClearPending()
      requires HasMemory()
      modifies pending
      ensures pending[capacity..] == old(pending[capacity..])
      ensures PendingSlots.Open(Slots()) == map[]
      ensures SlotsSound(P(), Slots())
      ensures forall i :: 0 <= i < capacity ==> pending[i] == old(pending[i]).(active := 0)
    {
      for index := 0 to capacity
        invariant forall i :: 0 <= i < index ==> pending[i] == old(pending[i]).(active := 0)
        invariant forall i :: index <= i < pending.Length ==> pending[i] == old(pending[i])
      {
        pending[index] := pending[index].(active := 0);
      }
      NothingOpen(Slots());
    }

    method CountPending() returns (count: SizeT)
      requires HasMemory()
      ensures count == ActiveCount(Slots())
    {
      count := 0;
      for index := 0 to capacity
        invariant count <= index
        invariant count == ActiveCount(pending[..index])
      {
        assert pending[..index + 1][..index] == pending[..index];
        if pending[index].active == 1 {
          count := count + 1;
        }
      }
    }

    /** What soundness is, field by field. */
    lemma SoundMeans()
      requires HasMemory()
      ensures Sound() <==>
              && nextSequence != 0
              && (forall i :: 0 <= i < capacity && Slots()[i].active != 0 ==>
                    && Slots()[i].active == 1 && Slots()[i].retries <= config.maxRetries
                    && Slots()[i].request.version == VERSION && Slots()[i].request.kind == TYPE_REQUEST
                    && Slots()[i].request.sequence != 0 && Slots()[i].request.payloadLength <= MAX_PAYLOAD_SIZE)
              && (forall i, j :: 0 <= i < j < capacity && Slots()[i].active == 1 && Slots()[j].active == 1 ==>
                    Slots()[i].request.sequence != Slots()[j].request.sequence)
    {
      if forall i, j :: 0 <= i < j < capacity && Slots()[i].active == 1 && Slots()[j].active == 1 ==>
                          Slots()[i].request.sequence != Slots()[j].request.sequence {
        assert Distinct(Slots());
      }
    }

    /** The nested loops decide exactly whether the slots are sound. */
    method HasValidPendingState() returns (valid: bool)
      requires HasMemory()
      ensures valid <==> Sound()
    {
      if nextSequence == 0 {
        return false;
      }
      for index := 0 to capacity
        invariant forall i :: 0 <= i < index ==> SlotSound(P(), pending[i])
        invariant forall i, j :: 0 <= i < index && i < j < capacity && pending[i].active == 1 ==>
                                   !Holds(pending[j], pending[i].request.sequence)
      {
        var slot := pending[index];
        assert slot == Slots()[index];
        if slot.active != 0 && slot.active != 1 {
          return false;
        }
        if slot.active == 0 {
          continue;
        }
        if slot.request.version != VERSION || slot.request.kind != TYPE_REQUEST
           || slot.request.sequence == 0 || slot.request.payloadLength > MAX_PAYLOAD_SIZE
           || slot.retries > config.maxRetries {
          return false;
        }
        for other := index + 1 to capacity
          invariant forall j :: index < j < other ==> !Holds(pending[j], slot.request.sequence)
        {
          if pending[other].active == 1 && pending[other].request.sequence == slot.request.sequence {
            assert Holds(Slots()[other], Slots()[index].request.sequence);
            return false;
          }
        }
      }
      return true;
    }

    method SequenceIsActive(sequence: U16) returns (active: bool)
      requires HasMemory()
      ensures active <==> SomebodyHolds(Slots(), sequence)
    {
      for index := 0 to capacity
        invariant forall i :: 0 <= i < index ==> !Holds(pending[i], sequence)
      {
        if pending[index].active == 1 && pending[index].request.sequence == sequence {
          assert Holds(Slots()[index], sequence);
          return true;
        }
      }
      return false;
    }

    method FindPendingBySequence(sequence: U16) returns (found: bool, index: SizeT)
      requires HasMemory()
      ensures found <==> SomebodyHolds(Slots(), sequence)
      ensures found ==> index < capacity && Holds(Slots()[index], sequence)
    {
      index := 0;
      while index < capacity
        invariant index <= capacity
        invariant forall i :: 0 <= i < index ==> !Holds(pending[i], sequence)
      {
        if pending[index].active == 1 && pending[index].request.sequence == sequence {
          assert Holds(Slots()[index], sequence);
          return true, index;
        }
        index := index + 1;
      }
      return false, 0;
    }

    method FindFreePending() returns (found: bool, index: SizeT)
      requires HasMemory()
      ensures !found ==> forall i :: 0 <= i < capacity ==> Slots()[i].active != 0
      ensures found ==> index < capacity && Slots()[index].active == 0
                        && forall i :: 0 <= i < index ==> Slots()[i].active != 0
    {
      index := 0;
      while index < capacity
        invariant index <= capacity
        invariant forall i :: 0 <= i < index ==> pending[i].active != 0
      {
        if pending[index].active == 0 {
          return true, index;
        }
        index := index + 1;
      }
      return false, 0;
    }

    /** The search tries every number once, in cyclic order from the cursor. */
    method FindUnusedSequence() returns (found: bool, candidate: U16)
      requires HasMemory() && nextSequence != 0
      ensures found ==> FirstUnused(nextSequence, PendingSlots.Open(Slots()).Keys, candidate)
      ensures !found ==> forall v: U16 :: v != 0 ==> v in PendingSlots.Open(Slots())
    {
      ghost var used := PendingSlots.Open(Slots()).Keys;
      candidate := nextSequence;
      var attempts := 0;
      while attempts < U16_MAX
        invariant 0 <= attempts <= U16_MAX && candidate != 0
        invariant attempts < U16_MAX ==> Distance(nextSequence, candidate) == attempts
        invariant forall v: U16 :: v != 0 && Distance(nextSequence, v) < attempts ==> v in used
      {
        var active := SequenceIsActive(candidate);
        OpenMeans(Slots(), candidate);
        if !active {
          return true, candidate;
        }
        candidate := NextSequence(candidate);
        attempts := attempts + 1;
      }
      return false, candidate;
    }

    // ----- The run behind the fields -------------------------------------------------------------

    ghost function Tallied(): Tally
      requires since <= |run|
      reads this`run, this`since
    {
      Totals(run, since, |run|)
    }

    ghost function Highest(): nat
      requires since <= |run|
      reads this`run, this`since
    {
      Peak(P(), run, since, |run|)
    }

    ghost predicate Showing(t: Tally, peak: nat)
      reads stats
    {
      stats != null ==> stats.Shows(t, peak)
    }

    lemma StateIsReached()
      requires HasMemory() && Ledger() && Sound() && InState(End(P(), run))
      ensures Legal(P(), run) && SlotsSound(P(), Slots())
      ensures End(P(), run) == State(PendingSlots.Open(Slots()), nextSequence)
    {
    }

    lemma RunIsLegal()
      requires Ledger()
      ensures Legal(P(), run)
    {
    }

    ghost method Record(step: Step)
      requires Legal(P(), run) && since <= |run| && Enabled(P(), End(P(), run), step)
      modifies this`run
      ensures run == old(run) + [step] && Legal(P(), run)
      ensures End(P(), run) == Apply(P(), old(End(P(), run)), step)
      ensures Tallied() == Count(old(Tallied()), step)
      ensures Highest() == if step.Started? then Max(old(Highest()), |End(P(), run).open|) else old(Highest())
      ensures Events(run, 0, |run|) == old(Events(run, 0, |run|)) + EventOf(step)
      ensures Channelled(run, |old(run)|, |run|) == FrameOf(step)
    {
      StepRecorded(P(), run, step, since);
      run := run + [step];
    }

    // ----- Sending ---------------------------------------------------------------------------------

    /** Every frame for the channel goes this way and is counted here. */
    method PushFrame(frame: Frame, ghost t: Tally, ghost peak: nat) returns (r: ChannelResult)
      requires Showing(t, peak)
      modifies channel, stats
      ensures r == old(channel.Upcoming())(0) && channel.calls == old(channel.calls) + 1
      ensures channel.accepted == old(channel.accepted) + if r.Accepted? then [frame] else []
      ensures channel.limit == config.sendTimeout
      ensures Showing(if r.Accepted? then t.(framesSent := t.framesSent + 1)
                      else t.(sendFailures := t.sendFailures + 1), peak)
    {
      r := channel.Push(frame, config.sendTimeout);
      if stats != null {
        stats.CountPush(r.Accepted?, t, peak);
      }
    }

    /** A frame that needs no pending slot. */
    method SendFrame(kind: U8, sequence: U16, payload: seq<Byte>) returns (result: Result)
      requires Valid()
      requires kind == TYPE_RESPONSE || kind == TYPE_ERROR || (kind == TYPE_REPORT && sequence == 0)
      modifies this`run, channel, stats
      ensures Valid() && old(run) <= run
      ensures result ==
              if |payload| > MAX_PAYLOAD_SIZE then PayloadTooLarge
              else if kind != TYPE_REPORT && sequence == 0 then InvalidSequence
              else MapChannelResult(old(channel.Upcoming())(0))
      ensures result == PayloadTooLarge || result == InvalidSequence ==> run == old(run)
      ensures result == Ok ==>
                |payload| <= MAX_PAYLOAD_SIZE && run == old(run) + [Sent(NewFrame(kind, sequence, payload))]
      ensures result in {ChannelTimeout, ChannelClosed, ChannelError} ==>
                run == old(run) + [Refused(NewFrame(kind, sequence, payload))]
      ensures channel.accepted == old(channel.accepted)
                                  + if result == Ok then [NewFrame(kind, sequence, payload)] else []
      ensures channel.accepted == old(channel.accepted) + Channelled(run, |old(run)|, |run|)
    {
      hide Legal, End, Totals, Peak, Events, Channelled, PendingSlots.Open, SlotsSound, NewFrame;
      assert Channelled(run, |run|, |run|) == [] by { NothingChannelled(run); }
      if |payload| > MAX_PAYLOAD_SIZE {
        return PayloadTooLarge;
      }
      if (kind == TYPE_RESPONSE || kind == TYPE_ERROR) && sequence == 0 {
        return InvalidSequence;
      }
      var frame := NewFrame(kind, sequence, payload);
      var pushed := PushFrame(frame, Tallied(), Highest());
      Record(if pushed.Accepted? then Sent(frame) else Refused(frame));
      return MapChannelResult(pushed);
    }

    method SendResponse(sequence: U16, payload: seq<Byte>) returns (result: Result)
      requires Valid()
      modifies this`run, channel, stats
      ensures Valid() && old(run) <= run
      ensures result ==
              if |payload| > MAX_PAYLOAD_SIZE then PayloadTooLarge
              else if sequence == 0 then InvalidSequence
              else MapChannelResult(old(channel.Upcoming())(0))
      ensures result == Ok ==>
                |payload| <= MAX_PAYLOAD_SIZE && run == old(run) + [Sent(NewFrame(TYPE_RESPONSE, sequence, payload))]
      ensures channel.accepted == old(channel.accepted)
                                  + if result == Ok then [NewFrame(TYPE_RESPONSE, sequence, payload)] else []
      ensures channel.accepted == old(channel.accepted) + Channelled(run, |old(run)|, |run|)
    {
      result := SendFrame(TYPE_RESPONSE, sequence, payload);
    }

    method SendReport(payload: seq<Byte>) returns (result: Result)
      requires Valid()
      modifies this`run, channel, stats
      ensures Valid() && old(run) <= run
      ensures result ==
              if |payload| > MAX_PAYLOAD_SIZE then PayloadTooLarge
              else MapChannelResult(old(channel.Upcoming())(0))
      ensures result == Ok ==>
                |payload| <= MAX_PAYLOAD_SIZE && run == old(run) + [Sent(NewFrame(TYPE_REPORT, 0, payload))]
      ensures channel.accepted == old(channel.accepted)
                                  + if result == Ok then [NewFrame(TYPE_REPORT, 0, payload)] else []
      ensures channel.accepted == old(channel.accepted) + Channelled(run, |old(run)|, |run|)
    {
      result := SendFrame(TYPE_REPORT, 0, payload);
    }

    method SendError(sequence: U16, payload: seq<Byte>) returns (result: Result)
      requires Valid()
      modifies this`run, channel, stats
      ensures Valid() && old(run) <= run
      ensures result ==
              if |payload| > MAX_PAYLOAD_SIZE then PayloadTooLarge
              else if sequence == 0 then InvalidSequence
              else MapChannelResult(old(channel.Upcoming())(0))
      ensures result == Ok ==>
                |payload| <= MAX_PAYLOAD_SIZE && run == old(run) + [Sent(NewFrame(TYPE_ERROR, sequence, payload))]
      ensures channel.accepted == old(channel.accepted)
                                  + if result == Ok then [NewFrame(TYPE_ERROR, sequence, payload)] else []
      ensures channel.accepted == old(channel.accepted) + Channelled(run, |old(run)|, |run|)
    {
      result := SendFrame(TYPE_ERROR, sequence, payload);
    }

    /** Enters an accepted request into a free slot. */
    method Register(index: SizeT, frame: Frame, now: U64, ghost s: State, ghost t: Tally, ghost peak: nat)
      requires HasMemory() && Sound() && InState(s)
      requires index < capacity && Slots()[index].active == 0
      requires Enabled(P(), s, Started(frame, now))
      requires Showing(t.(framesSent := t.framesSent + 1), peak)
      modifies this`nextSequence, pending, stats
      ensures pending[capacity..] == old(pending[capacity..])
      ensures Sound() && InState(Apply(P(), s, Started(frame, now)))
      ensures Slots() == old(Slots())[index := Pending(
                frame,
                if now + config.responseTimeout <= U64_MAX then now + config.responseTimeout else U64_MAX,
                0, 1)]
      ensures nextSequence == if frame.sequence == 65535 then 1 else frame.sequence + 1
      ensures Showing(Count(t, Started(frame, now)), Max(peak, |Apply(P(), s, Started(frame, now)).open|))
    {
      ghost var before := Slots();
      pending[index] := Pending(frame, MakeDeadline(now, config.responseTimeout), 0, 1);
      nextSequence := NextSequence(frame.sequence);
      ghost var slot := pending[index];
      assert Slots() == before[index := slot];
      SlotFilled(before, index, slot);
      StillSound(P(), before, index, slot);
      hide SlotSound, Distinct;
      if stats != null {
        var active := CountPending();
        OpenCount(Slots());
        stats.CountRequest(active, t.(framesSent := t.framesSent + 1), peak);
      }
    }

    /** The slots have no room for another request. */
    ghost predicate Full()
      requires HasMemory()
      reads pending
    {
      forall i :: 0 <= i < capacity ==> Slots()[i].active != 0
    }

    /** Counts a request that found no free slot. */
    method TurnAway()
      requires Valid() && Sound() && Full()
      modifies this`run, stats
      ensures Valid() && run == old(run) + [TurnedAway]
      ensures Channelled(run, |old(run)|, |run|) == []
    {
      hide Legal, End, Totals, Peak, Events, Channelled, SlotsSound;
      RoomWhenFree(P(), Slots());
      if stats != null {
        stats.CountFull(Tallied(), Highest());
      }
      Record(TurnedAway);
    }

    method SendRequest(payload: seq<Byte>, now: U64, sequence: NumberSlot) returns (result: Result)
      requires Valid()
      modifies this`nextSequence, this`run, pending, channel, stats, sequence
      ensures pending[capacity..] == old(pending[capacity..])
      ensures Valid() && (Sound() <==> old(Sound())) && old(run) <= run
      ensures result ==
              if !old(Sound()) then InvalidState
              else if |payload| > MAX_PAYLOAD_SIZE then PayloadTooLarge
              else if old(Full()) then PendingFull
              else if old(forall v: U16 :: v != 0 ==> v in PendingSlots.Open(Slots())) then SequenceExhausted
              else MapChannelResult(old(channel.Upcoming())(0))
      ensures result == Ok ==>
                && run == old(run) + [Started(NewFrame(TYPE_REQUEST, sequence.value, payload), now)]
                && exists i :: 0 <= i < capacity && old(Slots())[i].active == 0
                            && (forall j :: 0 <= j < i ==> old(Slots())[j].active != 0)
                            && Slots() == old(Slots())[i := Pending(
                                 NewFrame(TYPE_REQUEST, sequence.value, payload),
                                 if now + config.responseTimeout <= U64_MAX then now + config.responseTimeout
                                 else U64_MAX,
                                 0, 1)]
      ensures result == Ok ==>
                nextSequence == if sequence.value == 65535 then 1 else sequence.value + 1
      ensures result != Ok ==> Slots() == old(Slots()) && nextSequence == old(nextSequence)
      ensures result != Ok ==> sequence.value == old(sequence.value)
      ensures result == PendingFull ==> run == old(run) + [TurnedAway]
      ensures result in {InvalidState, PayloadTooLarge, SequenceExhausted} ==> run == old(run)
      ensures result in {ChannelTimeout, ChannelClosed, ChannelError} ==>
                exists v :: FirstUnused(nextSequence, PendingSlots.Open(Slots()).Keys, v)
                            && run == old(run) + [Refused(NewFrame(TYPE_REQUEST, v, payload))]
      ensures result == SequenceExhausted ==> capacity > U16_MAX
      ensures channel.accepted == old(channel.accepted)
                                  + if result == Ok then [NewFrame(TYPE_REQUEST, sequence.value, payload)] else []
      ensures channel.accepted == old(channel.accepted) + Channelled(run, |old(run)|, |run|)
    {
      hide Legal, End, Totals, Peak, Events, Channelled, SlotsSound, FirstUnused, NewFrame;
      NothingChannelled(run);
      var valid := HasValidPendingState();
      if !valid {
        return InvalidState;
      }
      if |payload| > MAX_PAYLOAD_SIZE {
        return PayloadTooLarge;
      }
      RoomWhenFree(P(), Slots());
      var free, index := FindFreePending();
      if !free {
        TurnAway();
        return PendingFull;
      }
      var found, candidate := FindUnusedSequence();
      if !found {
        NumbersSuffice(PendingSlots.Open(Slots()), capacity);
        return SequenceExhausted;
      }
      result := Transmit(index, candidate, payload, now, sequence);
    }

    /** Sends a request with its number and, if the channel takes it, enters it. */
    method Transmit(index: SizeT, candidate: U16, payload: seq<Byte>, now: U64, sequence: NumberSlot)
      returns (result: Result)
      requires Valid() && Sound() && |payload| <= MAX_PAYLOAD_SIZE
      requires index < capacity && Slots()[index].active == 0
      requires FirstUnused(nextSequence, PendingSlots.Open(Slots()).Keys, candidate)
      modifies this`nextSequence, this`run, pending, channel, stats, sequence
      ensures pending[capacity..] == old(pending[capacity..])
      ensures Valid() && Sound() && old(run) <= run
      ensures result == MapChannelResult(old(channel.Upcoming())(0))
      ensures result == Ok ==>
                && run == old(run) + [Started(NewFrame(TYPE_REQUEST, candidate, payload), now)]
                && sequence.value == candidate
                && nextSequence == (if candidate == 65535 then 1 else candidate + 1)
                && Slots() == old(Slots())[index := Pending(
                     NewFrame(TYPE_REQUEST, candidate, payload),
                     if now + config.responseTimeout <= U64_MAX then now + config.responseTimeout else U64_MAX,
                     0, 1)]
      ensures result != Ok ==>
                && run == old(run) + [Refused(NewFrame(TYPE_REQUEST, candidate, payload))]
                && sequence.value == old(sequence.value)
                && Slots() == old(Slots()) && nextSequence == old(nextSequence)
      ensures channel.accepted == old(channel.accepted)
                                  + if result == Ok then [NewFrame(TYPE_REQUEST, candidate, payload)] else []
      ensures channel.accepted == old(channel.accepted) + Channelled(run, |old(run)|, |run|)
    {
      hide Legal, End, Totals, Peak, Events, Channelled, SlotsSound, FirstUnused, NewFrame;
      hide Enabled, Apply;
      var frame := NewFrame(TYPE_REQUEST, candidate, payload);
      ghost var s, t, peak := End(P(), run), Tallied(), Highest();
      RoomWhenFree(P(), Slots());
      var pushed := PushFrame(frame, t, peak);
      RequestSteps(P(), s, frame, now);
      if !pushed.Accepted? {
        Record(Refused(frame));
        return MapChannelResult(pushed);
      }
      Register(index, frame, now, s, t, peak);
      sequence.value := candidate;
      Record(Started(frame, now));
      return Ok;
    }

    // ----- Receiving -----------------------------------------------------------------------------

    /** Counts an event, then hands it to the callback. */
    method NotifyEvent(event: Event, ghost step: Step, ghost t: Tally, ghost peak: nat)
      requires Showing(t, peak) && EventOf(step) == [event]
      modifies this`events, stats
      ensures Showing(Count(t, step), peak)
      ensures events == old(events) + [event]
    {
      if stats != null {
        stats.CountEvent(event.kind, step, t, peak);
      }
      events := events + [event];
    }

    /** Ends the transaction in a slot. */
    method Release(index: SizeT)
      requires HasMemory() && Sound() && index < capacity && Slots()[index].active == 1
      modifies pending
      ensures pending[capacity..] == old(pending[capacity..])
      ensures Sound() && Slots() == old(Slots())[index := old(Slots())[index].(active := 0)]
      ensures PendingSlots.Open(Slots()) == old(PendingSlots.Open(Slots())) - {old(Slots())[index].request.sequence}
    {
      ghost var before := Slots();
      pending[index] := pending[index].(active := 0);
      assert Slots() == before[index := before[index].(active := 0)];
      SlotReleased(before, index);
      StillSound(P(), before, index, before[index].(active := 0));
    }

    /** Replies go to the request with their number; everything else is only reported. */
    method HandleFrame(frame: Frame) returns (result: Result)
      requires Valid()
      modifies this`run, this`events, pending, stats
      ensures pending[capacity..] == old(pending[capacity..])
      ensures Valid() && (Sound() <==> old(Sound()))
      ensures result ==
              if !old(Sound()) then InvalidState
              else if !TypeIsValid(frame.kind) then UnsupportedFrameType
              else Ok
      ensures result != Ok ==> run == old(run) && events == old(events) && Slots() == old(Slots())
      ensures result == Ok ==>
                && run == old(run) + [Reaction(old(PendingSlots.Open(Slots())), frame)]
                && events == old(events) + EventOf(Reaction(old(PendingSlots.Open(Slots())), frame))
                && forall i :: 0 <= i < capacity ==> Slots()[i] == Answered(old(Slots())[i], frame)
      ensures result == Ok ==>
                && |events| == old(|events|) + 1 && old(events) <= events
                && EventTells(events[old(|events|)], frame, old(Slots()))
    {
      hide Legal, End, Totals, Peak, Events, Channelled, SlotsSound, Answered, EventOf, EventTells;
      var valid := HasValidPendingState();
      if !valid {
        return InvalidState;
      }
      if TypeIsValid(frame.kind) {
        ReactionTells(P(), Slots(), frame);
      }
      if frame.kind == TYPE_REQUEST || frame.kind == TYPE_REPORT {
        NotAReply(frame, Slots());
        HandOn(frame);
      } else if frame.kind == TYPE_RESPONSE || frame.kind == TYPE_ERROR {
        HandleReply(frame);
      } else {
        return UnsupportedFrameType;
      }
      return Ok;
    }

    /** A request or a report of the peer. */
    method HandOn(frame: Frame)
      requires Valid() && Sound() && (frame.kind == TYPE_REQUEST || frame.kind == TYPE_REPORT)
      modifies this`run, this`events, stats
      ensures Valid() && run == old(run) + [Arrived(frame)]
      ensures events == old(events) + EventOf(Arrived(frame))
    {
      hide Legal, End, Totals, Peak, Events, Channelled, SlotsSound;
      var kind := if frame.kind == TYPE_REQUEST then RequestReceived else ReportReceived;
      NotifyEvent(Event(kind, frame, 0), Arrived(frame), Tallied(), Highest());
      Record(Arrived(frame));
    }

    /** A response or an error report: it ends the request it answers, if there is one. */
    method HandleReply(frame: Frame)
      requires Valid() && Sound() && IsReply(frame)
      modifies this`run, this`events, pending, stats
      ensures pending[capacity..] == old(pending[capacity..])
      ensures Valid() && Sound()
      ensures run == old(run) + [Reaction(old(PendingSlots.Open(Slots())), frame)]
      ensures events == old(events) + EventOf(Reaction(old(PendingSlots.Open(Slots())), frame))
      ensures forall i :: 0 <= i < capacity ==> Slots()[i] == Answered(old(Slots())[i], frame)
    {
      hide Legal, End, Totals, Peak, Events, Channelled, SlotsSound, Count, Apply, Enabled, Answered;
      hide SomebodyHolds;
      ghost var s, t, peak := End(P(), run), Tallied(), Highest();
      ghost var step := Reaction(s.open, frame);
      ReplyIsAnswered(P(), Slots(), frame, nextSequence);
      var found, index := FindPendingBySequence(frame.sequence);
      if !found {
        NotifyEvent(Event(UnmatchedReply, frame, 0), step, t, peak);
        Record(step);
        return;
      }
      var retries := pending[index].retries;
      var kind := if frame.kind == TYPE_RESPONSE then ResponseReceived else ErrorReceived;
      SoundSlot(P(), Slots(), index);
      Release(index);
      NotifyEvent(Event(kind, frame, retries), step, t, peak);
      Record(step);
    }

    // ----- Time ------------------------------------------------------------------------------------

    /** One slot of the sweep: left alone, given up, or repeated. */
    method ProcessSlot(index: SizeT, now: U64) returns (retryResult: Result)
      requires Valid() && Sound() && index < capacity
      modifies this`run, this`events, pending, channel, stats
      ensures pending[capacity..] == old(pending[capacity..])
      ensures Valid() && Sound()
      ensures run == old(run) + StepsOf(P(), old(Slots())[index], now, old(channel.Upcoming())(0))
      ensures Slots() == old(Slots())[index := Swept(P(), old(Slots())[index], now, old(channel.Upcoming())(0))]
      ensures channel.calls == old(channel.calls) + if Repeats(P(), old(Slots())[index], now) then 1 else 0
      ensures events == old(events) + ExpiryOf(P(), old(Slots())[index], now)
      ensures retryResult ==
              if Repeats(P(), old(Slots())[index], now) then MapChannelResult(old(channel.Upcoming())(0)) else Ok
      ensures channel.accepted == old(channel.accepted) + Channelled(run, |old(run)|, |run|)
    {
      hide Legal, End, Totals, Peak, Events, Channelled, SlotsSound;
      NothingChannelled(run);
      var slot := pending[index];
      if slot.active == 0 || now < slot.deadline {
        assert Slots() == Slots()[index := slot];
        assert run + [] == run;
        return Ok;
      }
      if slot.retries >= config.maxRetries {
        GiveUp(index, now);
        return Ok;
      }
      retryResult := Repeat(index, now);
    }

    /** The last waiting time of a request has passed. */
    method GiveUp(index: SizeT, now: U64)
      requires Valid() && Sound() && index < capacity && Expires(P(), Slots()[index], now)
      modifies this`run, this`events, pending, stats
      ensures pending[capacity..] == old(pending[capacity..])
      ensures Valid() && Sound()
      ensures run == old(run) + [TimedOut(old(Slots())[index].request, old(Slots())[index].retries, now)]
      ensures Slots() == old(Slots())[index := old(Slots())[index].(active := 0)]
      ensures events == old(events) + ExpiryOf(P(), old(Slots())[index], now)
      ensures events == old(events) + [Event(RequestTimeout, old(Slots())[index].request, old(Slots())[index].retries)]
      ensures Channelled(run, |old(run)|, |run|) == []
    {
      hide Legal, End, Totals, Peak, Events, Channelled, Count, Enabled, SlotsSound, SlotSound;
      ghost var s, t, peak := End(P(), run), Tallied(), Highest();
      var slot := pending[index];
      SoundSlot(P(), Slots(), index);
      ghost var step := TimedOut(slot.request, slot.retries, now);
      TimeoutStep(P(), s, slot, now);
      var event := Event(RequestTimeout, slot.request, slot.retries);
      Release(index);
      NotifyEvent(event, step, t, peak);
      Record(step);
    }

    /** A waiting time has passed and the request may be sent again. */
    method Repeat(index: SizeT, now: U64) returns (retryResult: Result)
      requires Valid() && Sound() && index < capacity && Repeats(P(), Slots()[index], now)
      modifies this`run, pending, channel, stats
      ensures pending[capacity..] == old(pending[capacity..])
      ensures Valid() && Sound()
      ensures run == old(run) + [RepeatOutcome(old(Slots())[index], now, old(channel.Upcoming())(0))]
      ensures Slots() == old(Slots())[index := Swept(P(), old(Slots())[index], now, old(channel.Upcoming())(0))]
      ensures retryResult == Ok ==>
                && Slots()[index].retries == old(Slots())[index].retries + 1
                && Slots()[index].deadline
                == if now + config.responseTimeout <= U64_MAX then now + config.responseTimeout else U64_MAX
      ensures retryResult != Ok ==> Slots() == old(Slots())
      ensures channel.accepted == old(channel.accepted)
                                  + if retryResult == Ok then [old(Slots())[index].request] else []
      ensures channel.calls == old(channel.calls) + 1
      ensures retryResult == MapChannelResult(old(channel.Upcoming())(0))
      ensures channel.accepted == old(channel.accepted) + Channelled(run, |old(run)|, |run|)
    {
      hide Legal, End, Totals, Peak, Events, Channelled, Enabled, Apply, SlotsSound, SlotSound;
      hide Swept, Repeats, MapChannelResult, TransactionIn, EventOf;
      ghost var s, t, peak := End(P(), run), Tallied(), Highest();
      var slot := pending[index];
      assert slot.active != 0 by { RepeatsIsDue(P(), slot, now); }
      SoundSlot(P(), Slots(), index);
      var channelResult := PushFrame(slot.request, t, peak);
      RepeatStep(P(), s, slot, now, channelResult);
      RenewedSlot(P(), slot, now);
      retryResult := MapChannelResult(channelResult);
      if retryResult == Ok {
        Renew(index, now);
        if stats != null {
          stats.CountRetry(t.(framesSent := t.framesSent + 1), peak);
        }
      } else {
        assert Slots() == Slots()[index := slot];
        assert s.open == s.open[slot.request.sequence := TransactionIn(slot)];
      }
      Record(RepeatOutcome(slot, now, channelResult));
    }

    /** Starts the next waiting time of a request. */
    method Renew(index: SizeT, now: U64)
      requires HasMemory() && Sound() && index < capacity && Repeats(P(), Slots()[index], now)
      modifies pending
      ensures pending[capacity..] == old(pending[capacity..])
      ensures Sound()
      ensures Slots() == old(Slots())[index := Swept(P(), old(Slots())[index], now, Accepted)]
      ensures PendingSlots.Open(Slots())
           == old(PendingSlots.Open(Slots()))[old(Slots())[index].request.sequence :=
                TransactionIn(Swept(P(), old(Slots())[index], now, Accepted))]
    {
      ghost var before := Slots();
      var slot := pending[index];
      assert SlotSound(P(), before[index]);
      pending[index] := slot.(retries := slot.retries + 1, deadline := MakeDeadline(now, config.responseTimeout));
      ghost var after := pending[index];
      assert Slots() == before[index := after];
      SlotFilled(before, index, after);
      StillSound(P(), before, index, after);
    }

    /**
     Every slot is treated by itself, in order, whatever happens to the others; the first
     refusal of the channel is reported. Whatever it gives up has waited long enough by `now`,
     and whatever has waited since its last copy is asked for again or given up.
     */
    method ProcessTimeouts(now: U64) returns (result: Result)
      requires Valid()
      modifies this`run, this`events, pending, channel, stats
      ensures pending[capacity..] == old(pending[capacity..])
      ensures Valid() && (Sound() <==> old(Sound())) && old(run) <= run
      ensures !old(Sound()) ==>
                && result == InvalidState && run == old(run) && Slots() == old(Slots())
                && events == old(events) && channel.calls == old(channel.calls)
      ensures old(Sound()) ==>
                && Slots() == SweptAll(P(), old(Slots()), now, old(channel.Upcoming()))
                && channel.calls == old(channel.calls) + Asked(P(), old(Slots()), now, capacity)
                && events == old(events) + ExpiryEvents(P(), old(Slots()), now, capacity)
                && result == FirstError(old(channel.Upcoming()), Asked(P(), old(Slots()), now, capacity))
                && run == old(run) + SweepSteps(P(), old(Slots()), now, old(channel.Upcoming()), capacity)
      ensures forall k :: |old(run)| <= k < |run| && run[k].TimedOut? ==> WaitedUntil(P(), run, k, now)
      ensures old(Sound()) ==> AllOnTime(config.responseTimeout, old(run), run, old(Slots()), now)
      ensures channel.accepted == old(channel.accepted) + Channelled(run, |old(run)|, |run|)
    {
      hide Legal, SlotsSound, Ledger, InState, Sound, SweptAll, Asked, ExpiryEvents, FirstError, SweepSteps;
      hide Channelled, AllOnTime, WaitedUntil;
      ghost var slots, answers, before := Slots(), channel.Upcoming(), run;
      NothingChannelled(run);
      assert run + [] == run;
      var valid := HasValidPendingState();
      if !valid {
        return InvalidState;
      }
      StateIsReached();
      SweepOnTime(P(), before, nextSequence, slots, now, answers);
      result := Sweep(now);
      RunIsLegal();
      SweepWaited(P(), before, slots, now, answers);
    }

    /** The loop over the slots. */
    method Sweep(now: U64) returns (result: Result)
      requires Valid() && Sound()
      modifies this`run, this`events, pending, channel, stats
      ensures pending[capacity..] == old(pending[capacity..])
      ensures Valid() && Sound()
      ensures Slots() == SweptAll(P(), old(Slots()), now, old(channel.Upcoming()))
      ensures channel.calls == old(channel.calls) + Asked(P(), old(Slots()), now, capacity)
      ensures events == old(events) + ExpiryEvents(P(), old(Slots()), now, capacity)
      ensures result == FirstError(old(channel.Upcoming()), Asked(P(), old(Slots()), now, capacity))
      ensures run == old(run) + SweepSteps(P(), old(Slots()), now, old(channel.Upcoming()), capacity)
      ensures channel.accepted == old(channel.accepted) + Channelled(run, |old(run)|, |run|)
    {
      hide Legal, End, Channelled, SlotsSound, Ledger, InState, Swept, MapChannelResult, Repeats, ExpiryOf;
      hide StepsOf, WaitedUntil, SweptAll, Asked, ExpiryEvents, FirstError, SweepSteps;
      hide SweptUpTo, Sound;
      ghost var slots, answers, before := Slots(), channel.Upcoming(), run;
      ghost var asked: nat, found: seq<Event>, steps: seq<Step> := 0, [], [];
      assert run + [] == run;
      NothingChannelled(run);
      SweepBegins(P(), slots, now, answers);
      result := Ok;
      for index := 0 to capacity
        invariant Valid() && Sound() && run == before + steps
        invariant SweptUpTo(P(), slots, now, answers, index, Slots(), asked, found, steps, result)
        invariant channel.calls == old(channel.calls) + asked && events == old(events) + found
        invariant channel.accepted == old(channel.accepted) + Channelled(run, |before|, |run|)
        invariant pending[capacity..] == old(pending[capacity..])
      {
        ghost var earlier, current := run, Slots();
        assert channel.Upcoming()(0) == answers(asked);
        var retryResult := ProcessSlot(index, now);
        SweepAdvances(P(), slots, now, answers, index, current, asked, found, steps, result, retryResult);
        ghost var more := StepsOf(P(), current[index], now, answers(asked));
        assert before + steps + more == before + (steps + more);
        steps := steps + more;
        found := found + ExpiryOf(P(), current[index], now);
        asked := asked + if Repeats(P(), current[index], now) then 1 else 0;
        ChannelledJoins(before, earlier, run);
        if retryResult != Ok && result == Ok {
          result := retryResult;
        }
      }
      SweepEnds(P(), slots, now, answers, Slots(), asked, found, steps, result);
    }

    // ----- Starting over ---------------------------------------------------------------------------

    /** Repairs any slots; nothing is reported for the requests it drops. */
    method Reset() returns (result: Result)
      requires Valid()
      modifies this`nextSequence, this`run, pending
      ensures pending[capacity..] == old(pending[capacity..])
      ensures Valid() && Sound() && InState(START) && nextSequence == 1 && result == Ok
      ensures forall i :: 0 <= i < capacity ==> Slots()[i] == old(Slots())[i].(active := 0)
      ensures run == old(run) + [Step.Reset(|old(End(P(), run)).open|)]
    {
      hide Legal, Totals, Peak, Events, SlotsSound;
      ClearPending();
      nextSequence := 1;
      Record(Step.Reset(|End(P(), run).open|));
      return Ok;
    }

    method ResetStats() returns (result: Result)
      requires Valid()
      modifies this`since, stats
      ensures Valid() && (Sound() <==> old(Sound()))
      ensures result == if Sound() && stats != null then Ok else InvalidState
      ensures since == if result == Ok then |run| else old(since)
    {
      hide Legal, At, Events, SlotsSound;
      var valid := HasValidPendingState();
      if !valid || stats == null {
        return InvalidState;
      }
      var active := CountPending();
      RoomWhenFree(P(), Slots());
      stats.Clear(active);
      since := |run|;
      return Ok;
    }

    /** The snapshot balances: nothing that was started has been lost, and nothing ended twice. */
    method GetStats(output: ManagerStats) returns (result: Result)
      requires Valid() && output != stats
      modifies output
      ensures Valid() && result == if Sound() && stats != null then Ok else InvalidState
      ensures result == Ok ==> output.Shows(Tallied(), Highest()) && output.pendingPeak <= capacity
      ensures result == Ok ==>
                && output.framesSent == Min(HowMany(run, since, |run|, FrameAccepted), U64_MAX)
                && output.requestsSent == Min(HowMany(run, since, |run|, RequestAccepted), U64_MAX)
                && output.sendFailures == Min(HowMany(run, since, |run|, FrameRefused), U64_MAX)
                && output.requestsReceived == Min(HowMany(run, since, |run|, RequestArrived), U64_MAX)
                && output.reportsReceived == Min(HowMany(run, since, |run|, ReportArrived), U64_MAX)
                && output.responsesMatched == Min(HowMany(run, since, |run|, ResponseMatched), U64_MAX)
                && output.errorsMatched == Min(HowMany(run, since, |run|, ErrorMatched), U64_MAX)
                && output.unmatchedReplies == Min(HowMany(run, since, |run|, ReplyUnmatched), U64_MAX)
                && output.retriesSent == Min(HowMany(run, since, |run|, RepeatAccepted), U64_MAX)
                && output.requestTimeouts == Min(HowMany(run, since, |run|, RequestGivenUp), U64_MAX)
                && output.pendingFull == Min(HowMany(run, since, |run|, RequestTurnedAway), U64_MAX)
                && (forall k :: since <= k <= |run| ==> |At(P(), run, k).open| <= output.pendingPeak)
                && (exists k :: since <= k <= |run| && |At(P(), run, k).open| == output.pendingPeak)
      ensures result == Ok && output.Unsaturated() ==>
                && |At(P(), run, since).open| + output.requestsSent
                == output.responsesMatched + output.errorsMatched + output.requestTimeouts
                   + Tallied().cancelled + ActiveCount(Slots())
                && output.framesSent == output.requestsSent + output.retriesSent + Tallied().otherSent
      ensures result != Ok ==> unchanged(output)
    {
      hide Legal, At, Events, SlotsSound, Totals, Peak;
      var valid := HasValidPendingState();
      if !valid || stats == null {
        return InvalidState;
      }
      output.CopyFrom(stats, Tallied(), Highest());
      RoomWhenFree(P(), Slots());
      Conservation(P(), run, since, |run|);
      PeakWithin(P(), run, since, |run|);
      TotalsCount(P(), run, since, |run|);
      ghost var reached := PeakReached(P(), run, since, |run|);
      forall k | since <= k <= |run| ensures |At(P(), run, k).open| <= output.pendingPeak {
        PeakCovers(P(), run, since, |run|, k);
      }
      return Ok;
    }
  }

  /** Initialisation, with the configurations it refuses; a refusal touches nothing. */
  method Init(channel: Channel, pending: array<Pending>, capacity: SizeT, config: Config, stats: ManagerStats?)
    returns (result: Result, manager: Manager?)
    requires capacity <= pending.Length
    modifies pending, stats
    ensures result == if capacity == 0 || config.responseTimeout == 0 then InvalidConfig else Ok
    ensures result == Ok <==> manager != null
    ensures pending[capacity..] == old(pending[capacity..])
    ensures manager != null ==>
              && manager.Valid() && manager.Sound() && manager.run == [] && manager.InState(START)
              && manager.nextSequence == 1
              && manager.P() == Policy(capacity, config.responseTimeout, config.maxRetries)
    ensures manager == null ==> pending[..] == old(pending[..]) && (stats != null ==> unchanged(stats))
  {
    if capacity == 0 || config.responseTimeout == 0 {
      return InvalidConfig, null;
    }
    manager := new Manager(channel, pending, capacity, config, stats);
    return Ok, manager;
  }

  lemma StepRecorded(p: Policy, run: seq<Step>, step: Step, since: nat)
    requires Legal(p, run) && since <= |run| && Enabled(p, End(p, run), step)
    ensures var r := run + [step];
            && Legal(p, r) && End(p, r) == Apply(p, End(p, run), step)
            && Totals(r, since, |r|) == Count(Totals(run, since, |run|), step)
            && Peak(p, r, since, |r|)
            == (if step.Started? then Max(Peak(p, run, since, |run|), |End(p, r).open|)
                else Peak(p, run, since, |run|))
            && Events(r, 0, |r|) == Events(run, 0, |run|) + EventOf(step)
            && Channelled(r, |run|, |r|) == FrameOf(step)
  {
    hide Legal, Enabled, Apply, Count, EventOf, FrameOf;
    Extend(p, run, step);
    SummariesExtended(p, run, step, since, |run|);
    SummariesExtended(p, run, step, 0, |run|);
    OpenAfter(p, End(p, run), step);
    AtExtended(p, run, step, |run|);
  }

  lemma RequestSteps(p: Policy, s: State, frame: Frame, now: U64)
    requires Encodable(frame) && Normalised(frame) == frame && frame.kind == TYPE_REQUEST
    requires |s.open| < p.capacity && FirstUnused(s.cursor, s.open.Keys, frame.sequence)
    ensures Enabled(p, s, Started(frame, now))
    ensures Enabled(p, s, Refused(frame)) && Apply(p, s, Refused(frame)) == s
  {
  }

  /** The step a received frame causes. */
  function Reaction(open: map<U16, Transaction>, frame: Frame): Step {
    if !IsReply(frame) then Arrived(frame)
    else if frame.sequence in open then Matched(frame, open[frame.sequence].retries)
    else Unmatched(frame)
  }

  /** What a received frame makes of one slot. */
  function Answered(slot: Pending, frame: Frame): Pending {
    if IsReply(frame) && Holds(slot, frame.sequence) then slot.(active := 0) else slot
  }

  /** What the one event about a received frame says, given the slots before. */
  ghost predicate EventTells(e: Event, frame: Frame, slots: seq<Pending>) {
    && e.frame == frame
    && (frame.kind == TYPE_REQUEST ==> e.kind == RequestReceived && e.retries == 0)
    && (frame.kind == TYPE_REPORT ==> e.kind == ReportReceived && e.retries == 0)
    && (frame.kind == TYPE_RESPONSE || frame.kind == TYPE_ERROR ==>
          && (forall i :: 0 <= i < |slots| && slots[i].active == 1 && slots[i].request.sequence == frame.sequence ==>
                            && e.retries == slots[i].retries
                            && e.kind == if frame.kind == TYPE_RESPONSE then ResponseReceived else ErrorReceived)
          && ((forall i :: 0 <= i < |slots| ==> slots[i].active != 1 || slots[i].request.sequence != frame.sequence) ==>
                e.retries == 0 && e.kind == UnmatchedReply))
  }

  lemma ReactionTells(p: Policy, slots: seq<Pending>, frame: Frame)
    requires SlotsSound(p, slots) && TypeIsValid(frame.kind)
    ensures var told := EventOf(Reaction(PendingSlots.Open(slots), frame));
            |told| == 1 && EventTells(told[0], frame, slots)
  {
    OpenMeans(slots, frame.sequence);
    forall i | 0 <= i < |slots| && slots[i].active == 1 && slots[i].request.sequence == frame.sequence
      ensures frame.sequence in PendingSlots.Open(slots)
      ensures PendingSlots.Open(slots)[frame.sequence].retries == slots[i].retries
    {
      OpenHolds(slots, i);
    }
    assert SomebodyHolds(slots, frame.sequence)
        || forall i :: 0 <= i < |slots| ==> !Holds(slots[i], frame.sequence);
  }

  lemma NotAReply(frame: Frame, slots: seq<Pending>)
    requires !IsReply(frame)
    ensures forall i :: 0 <= i < |slots| ==> Answered(slots[i], frame) == slots[i]
  {
  }

  lemma ReplyIsAnswered(p: Policy, slots: seq<Pending>, frame: Frame, cursor: U16)
    requires SlotsSound(p, slots) && IsReply(frame)
    ensures frame.sequence in PendingSlots.Open(slots) <==> SomebodyHolds(slots, frame.sequence)
    ensures var s := State(PendingSlots.Open(slots), cursor);
            var step := Reaction(s.open, frame);
            && Enabled(p, s, step)
            && Apply(p, s, step) == (if frame.sequence in s.open then s.(open := s.open - {frame.sequence}) else s)
    ensures forall i :: 0 <= i < |slots| && Holds(slots[i], frame.sequence) ==>
                          forall j :: 0 <= j < |slots| ==>
                                        slots[i := slots[i].(active := 0)][j] == Answered(slots[j], frame)
    ensures !SomebodyHolds(slots, frame.sequence) ==>
              forall i :: 0 <= i < |slots| ==> slots[i] == Answered(slots[i], frame)
  {
    OpenMeans(slots, frame.sequence);
  }

  lemma TimeoutStep(p: Policy, s: State, slot: Pending, now: U64)
    requires Expires(p, slot, now) && SlotSound(p, slot)
    requires slot.request.sequence in s.open && s.open[slot.request.sequence] == TransactionIn(slot)
    ensures Enabled(p, s, TimedOut(slot.request, slot.retries, now))
  {
  }

  lemma RenewedSlot(p: Policy, slot: Pending, now: U64)
    requires Repeats(p, slot, now)
    ensures var after := Swept(p, slot, now, Accepted);
            && after.retries == slot.retries + 1
            && after.deadline == if now + p.timeout <= U64_MAX then now + p.timeout else U64_MAX
  {
  }

  lemma RepeatsIsDue(p: Policy, slot: Pending, now: U64)
    requires Repeats(p, slot, now)
    ensures slot.active != 0 && slot.deadline <= now && slot.retries < p.maxRetries
  {
  }

  lemma RepeatStep(p: Policy, s: State, slot: Pending, now: U64, answer: ChannelResult)
    requires Repeats(p, slot, now) && SlotSound(p, slot)
    requires slot.request.sequence in s.open && s.open[slot.request.sequence] == TransactionIn(slot)
    ensures var step := RepeatOutcome(slot, now, answer);
            && Enabled(p, s, step) && EventOf(step) == [] && !step.Started?
            && Apply(p, s, step)
            == s.(open := s.open[slot.request.sequence := TransactionIn(Swept(p, slot, now, answer))])
            && FrameOf(step) == if answer.Accepted? then [slot.request] else []
    ensures !answer.Accepted? ==> Swept(p, slot, now, answer) == slot
    ensures MapChannelResult(answer) == Ok <==> answer.Accepted?
  {
  }

  lemma {:induction false} ChannelledSplits(run: seq<Step>, from: nat, mid: nat, to: nat)
    requires from <= mid <= to <= |run|
    ensures Channelled(run, from, to) == Channelled(run, from, mid) + Channelled(run, mid, to)
  {
    if mid < to {
      ChannelledSplits(run, from, mid, to - 1);
    }
  }

  lemma {:induction false} ChannelledPrefix(run: seq<Step>, longer: seq<Step>, from: nat, to: nat)
    requires run <= longer && from <= to <= |run|
    ensures Channelled(longer, from, to) == Channelled(run, from, to)
  {
    if from < to {
      ChannelledPrefix(run, longer, from, to - 1);
    }
  }

  lemma ChannelledJoins(first: seq<Step>, second: seq<Step>, third: seq<Step>)
    requires first <= second <= third
    ensures Channelled(third, |first|, |third|)
         == Channelled(second, |first|, |second|) + Channelled(third, |second|, |third|)
  {
    ChannelledSplits(third, |first|, |second|, |third|);
    ChannelledPrefix(second, third, |first|, |second|);
  }

  lemma NothingChannelled(run: seq<Step>)
    ensures Channelled(run, |run|, |run|) == []
  {
  }

  lemma StillSound(p: Policy, slots: seq<Pending>, i: nat, slot: Pending)
    requires SlotsSound(p, slots) && i < |slots| && SlotSound(p, slot) && Distinct(slots[i := slot])
    ensures SlotsSound(p, slots[i := slot])
  {
  }

  lemma SoundSlot(p: Policy, slots: seq<Pending>, i: nat)
    requires SlotsSound(p, slots) && i < |slots| && slots[i].active != 0
    ensures slots[i].active == 1 && SlotSound(p, slots[i])
    ensures var v := slots[i].request.sequence;
            v in PendingSlots.Open(slots) && PendingSlots.Open(slots)[v] == TransactionIn(slots[i])
  {
    assert SlotSound(p, slots[i]);
    OpenHolds(slots, i);
  }

  /** Step `k` gives up a request whose `1 + maxRetries` waiting times have all passed by `now`. */
  ghost predicate WaitedUntil(p: Policy, run: seq<Step>, k: nat, now: U64)
    requires k < |run| && run[k].TimedOut?
  {
    && run[k].now == now
    && exists i :: && 0 <= i < k
                   && LifeOf(p, run, i, k, run[k].request, p.maxRetries)
                   && NotBefore(run[i].now, 1 + p.maxRetries, p.timeout) <= now
  }

  lemma SweepWaited(p: Policy, before: seq<Step>, slots: seq<Pending>, now: U64, answers: nat -> ChannelResult)
    requires Legal(p, before + SweepSteps(p, slots, now, answers, |slots|))
    ensures var run := before + SweepSteps(p, slots, now, answers, |slots|);
            forall k :: |before| <= k < |run| && run[k].TimedOut? ==> WaitedUntil(p, run, k, now)
  {
    hide Legal, LifeOf, NotBefore, SweepSteps;
    var steps := SweepSteps(p, slots, now, answers, |slots|);
    var run := before + steps;
    SweepStepsAtNow(p, slots, now, answers, |slots|);
    forall k | |before| <= k < |run| && run[k].TimedOut? ensures WaitedUntil(p, run, k, now) {
      assert run[k] == steps[k - |before|];
      var i := NoEarlyTimeout(p, run, k);
    }
  }

  /**
   In the steps after `before`, the request `f` is treated exactly if `timeout` has passed since
   its last copy was put on the channel, or the clock is at its last value.
   */
  ghost predicate TreatedOnTime(timeout: U32, before: seq<Step>, after: seq<Step>, f: Frame, now: U64)
    requires before <= after
  {
    exists k: nat :: && LastCopyAt(before, k, |before|, f.sequence) && before[k].request == f
                     && (Treated(after[|before|..], f) <==> before[k].now + timeout <= now || now == U64_MAX)
  }

  ghost predicate AllOnTime(timeout: U32, before: seq<Step>, after: seq<Step>, slots: seq<Pending>, now: U64)
    requires before <= after
  {
    forall i :: 0 <= i < |slots| && slots[i].active == 1 ==>
                  TreatedOnTime(timeout, before, after, slots[i].request, now)
  }

  lemma SweepOnTime(p: Policy, before: seq<Step>, cursor: U16, slots: seq<Pending>, now: U64,
                    answers: nat -> ChannelResult)
    requires Legal(p, before) && SlotsSound(p, slots) && End(p, before) == State(PendingSlots.Open(slots), cursor)
    ensures AllOnTime(p.timeout, before, before + SweepSteps(p, slots, now, answers, |slots|), slots, now)
  {
    hide Legal, SweepSteps, Treated, LastCopyAt;
    var after := before + SweepSteps(p, slots, now, answers, |slots|);
    assert after[|before|..] == SweepSteps(p, slots, now, answers, |slots|);
    forall i | 0 <= i < |slots| && slots[i].active == 1
      ensures TreatedOnTime(p.timeout, before, after, slots[i].request, now)
    {
      OpenHolds(slots, i);
      var k := WaitsFromLastCopy(p, before, |before|, slots[i].request.sequence);
      SweepTreats(p, slots, now, answers, |slots|, i);
    }
  }

  /** The first `i` slots of a sweep have been treated: array, questions asked, events and result so far. */
  ghost predicate SweptUpTo(p: Policy, slots: seq<Pending>, now: U64, answers: nat -> ChannelResult, i: nat,
                            current: seq<Pending>, asked: nat, events: seq<Event>, steps: seq<Step>,
                            result: Result)
  {
    && i <= |slots|
    && current == SweptAll(p, slots, now, answers)[..i] + slots[i..]
    && asked == Asked(p, slots, now, i)
    && events == ExpiryEvents(p, slots, now, i)
    && steps == SweepSteps(p, slots, now, answers, i)
    && result == FirstError(answers, asked)
  }

  lemma SweepBegins(p: Policy, slots: seq<Pending>, now: U64, answers: nat -> ChannelResult)
    ensures SweptUpTo(p, slots, now, answers, 0, slots, 0, [], [], Ok)
  {
  }

  lemma SweepEnds(p: Policy, slots: seq<Pending>, now: U64, answers: nat -> ChannelResult,
                  current: seq<Pending>, asked: nat, events: seq<Event>, steps: seq<Step>,
                            result: Result)
    requires SweptUpTo(p, slots, now, answers, |slots|, current, asked, events, steps, result)
    ensures current == SweptAll(p, slots, now, answers)
    ensures asked == Asked(p, slots, now, |slots|) && events == ExpiryEvents(p, slots, now, |slots|)
    ensures result == FirstError(answers, asked) && steps == SweepSteps(p, slots, now, answers, |slots|)
  {
  }

  lemma SweepAdvances(p: Policy, slots: seq<Pending>, now: U64, answers: nat -> ChannelResult, i: nat,
                      current: seq<Pending>, asked: nat, events: seq<Event>, steps: seq<Step>,
                            result: Result, retryResult: Result)
    requires SweptUpTo(p, slots, now, answers, i, current, asked, events, steps, result) && i < |slots|
    requires retryResult == if Repeats(p, current[i], now) then MapChannelResult(answers(asked)) else Ok
    ensures SweptUpTo(p, slots, now, answers, i + 1,
                      current[i := Swept(p, current[i], now, answers(asked))],
                      asked + (if Repeats(p, current[i], now) then 1 else 0),
                      events + ExpiryOf(p, current[i], now),
                      steps + StepsOf(p, current[i], now, answers(asked)),
                      if result == Ok then retryResult else result)
  {
  }

  /** A free slot means room for a transaction, no free slot means none. */
  lemma RoomWhenFree(p: Policy, slots: seq<Pending>)
    requires SlotsSound(p, slots)
    ensures |PendingSlots.Open(slots)| == ActiveCount(slots)
    ensures |PendingSlots.Open(slots)| <= |slots|
    ensures |PendingSlots.Open(slots)| == |slots| <==> forall i :: 0 <= i < |slots| ==> slots[i].active != 0
  {
    OpenCount(slots);
    FullWhenNoneFree(p, slots);
  }

  lemma {:induction false} NothingOpen(slots: seq<Pending>)
    requires forall i :: 0 <= i < |slots| ==> slots[i].active == 0
    ensures PendingSlots.Open(slots) == map[]
  {
    if slots != [] {
      NothingOpen(slots[..|slots| - 1]);
    }
  }
}
