/**
 What the runtime's send and receive loops make of a schedule of system calls, as functions:
 which bytes go out, which frames come in, and which calls are left. A schedule is an arbitrary
 sequence of interruptions, failures and partial transfers; its end means the runtime is stopping.
 */
module Delivery {
  import opened Machine
  import opened Frames
  import opened Codec
  import opened WireProperties
  import S = Scanner

  /** The outcome the environment picks for the next system call: at most `limit` bytes. */
  datatype Turn = Interrupt | Fail | Transfer(limit: SizeT)

  datatype IoResult = Interrupted | Ended | Moved(count: SizeT)

  const INPUT_SIZE: SizeT := 7
  const SEND_CHUNK: SizeT := 3

  /** What a call returns that could move `possible` bytes. */
  function IoOutcome(turn: Turn, possible: SizeT): IoResult {
    match turn
    case Interrupt => Interrupted
    case Fail => Ended
    case Transfer(limit) => if Min(limit, possible) == 0 then Ended else Moved(Min(limit, possible))
  }

  /** A call that is not cut off: it may be interrupted, but it moves bytes when there are any. */
  predicate Good(turn: Turn) {
    turn.Interrupt? || (turn.Transfer? && turn.limit > 0)
  }

  ghost predicate Benign(schedule: seq<Turn>) {
    forall i :: 0 <= i < |schedule| ==> Good(schedule[i])
  }

  /** How many calls of a schedule are willing to move bytes. */
  function Transfers(schedule: seq<Turn>): nat {
    if schedule == [] then 0
    else (if Good(schedule[0]) && schedule[0].Transfer? then 1 else 0) + Transfers(schedule[1..])
  }

  /** A schedule of single bytes. */
  function Ones(n: nat): (schedule: seq<Turn>)
    ensures |schedule| == n && Benign(schedule)
    ensures forall i :: 0 <= i < n ==> schedule[i] == Transfer(1)
  {
    seq(n, i => Transfer(1))
  }

  lemma {:induction false} OnesTransfer(n: nat)
    ensures Transfers(Ones(n)) == n
  {
    if n > 0 {
      assert Ones(n)[1..] == Ones(n - 1);
      OnesTransfer(n - 1);
    }
  }

  /** `left` is what remains of a schedule after good calls only. */
  ghost predicate Used(schedule: seq<Turn>, left: seq<Turn>) {
    && |left| <= |schedule| && schedule[|schedule| - |left|..] == left
    && Benign(schedule[..|schedule| - |left|])
  }

  /** `left` is what remains after good calls and then a last one, which may be any. */
  ghost predicate UsedThen(schedule: seq<Turn>, last: Turn, left: seq<Turn>) {
    Used(schedule, [last] + left)
  }

  lemma UsedNone(schedule: seq<Turn>)
    ensures Used(schedule, schedule)
  {
  }

  lemma UsedOne(schedule: seq<Turn>, left: seq<Turn>)
    requires schedule != [] && Good(schedule[0]) && Used(schedule[1..], left)
    ensures Used(schedule, left)
  {
    var n := |schedule| - |left|;
    assert schedule[n..] == schedule[1..][n - 1..];
    forall i | 0 <= i < n ensures Good(schedule[..n][i]) {
      assert i > 0 ==> schedule[i] == schedule[1..][..n - 1][i - 1];
    }
  }

  lemma UsedNext(schedule: seq<Turn>, left: seq<Turn>)
    requires Used(schedule, left) && left != [] && Good(left[0])
    ensures Used(schedule, left[1..])
  {
    var n := |schedule| - |left|;
    assert schedule[n + 1..] == left[1..];
    var used := schedule[..n + 1];
    forall i | 0 <= i < |used| ensures Good(used[i]) {
      assert used[i] == if i < n then schedule[..n][i] else left[0];
    }
  }

  lemma LastUsed(schedule: seq<Turn>)
    requires schedule != []
    ensures UsedThen(schedule, schedule[0], schedule[1..])
  {
    assert [schedule[0]] + schedule[1..] == schedule;
  }

  // ----- Sending -----------------------------------------------------------------------------

  /** How many of `size` bytes go out, and what is left of the schedule. */
  datatype Written = Written(count: nat, left: seq<Turn>)

  function Write(size: SizeT, schedule: seq<Turn>): (w: Written)
    ensures w.count <= size
    decreases |schedule|
  {
    if size == 0 || schedule == [] then Written(0, schedule)
    else
      match IoOutcome(schedule[0], Min(size, SEND_CHUNK))
      case Interrupted => Write(size, schedule[1..])
      case Ended => Written(0, schedule[1..])
      case Moved(count) =>
        var w := Write(size - count, schedule[1..]);
        w.(count := count + w.count)
  }

  /** The defining equation, one call at a time. */
  lemma WriteStep(size: SizeT, schedule: seq<Turn>, r: IoResult)
    requires size > 0 && schedule != [] && r == IoOutcome(schedule[0], Min(size, SEND_CHUNK))
    ensures r.Interrupted? ==> Write(size, schedule) == Write(size, schedule[1..])
    ensures r.Ended? ==> Write(size, schedule) == Written(0, schedule[1..])
    ensures r.Moved? ==>
              && r.count <= size
              && var w := Write(size - r.count, schedule[1..]);
                 Write(size, schedule) == w.(count := r.count + w.count)
  {
  }

  lemma NothingWritten(size: SizeT, schedule: seq<Turn>)
    requires size == 0 || schedule == []
    ensures Write(size, schedule) == Written(0, schedule)
  {
  }

  /** The wire after sending, and how many frames are whole on it. */
  datatype Outgoing = Outgoing(wire: seq<Byte>, sent: nat, left: seq<Turn>)

  function Send(frames: seq<Frame>, schedule: seq<Turn>): (o: Outgoing)
    requires AllEncodable(frames)
    ensures o.sent <= |frames|
    decreases |frames|
  {
    if frames == [] then Outgoing([], 0, schedule)
    else
      var wire, w := Encoded(frames[0]), Write(EncodedSize(frames[0]), schedule);
      if w.count < |wire| then Outgoing(wire[..w.count], 0, w.left)
      else
        var o := Send(frames[1..], w.left);
        Outgoing(wire + o.wire, 1 + o.sent, o.left)
  }

  /** The defining equation, one frame at a time. */
  lemma SendStep(frames: seq<Frame>, n: nat, schedule: seq<Turn>)
    requires AllEncodable(frames) && n < |frames|
    ensures var wire, w := Encoded(frames[n]), Write(EncodedSize(frames[n]), schedule);
            var o := Send(frames[n + 1..], w.left);
            Send(frames[n..], schedule)
            == (if w.count < |wire| then Outgoing(wire[..w.count], 0, w.left)
                else Outgoing(wire + o.wire, 1 + o.sent, o.left))
  {
    hide Encoded, Write;
    assert frames[n..][1..] == frames[n + 1..];
  }

  lemma NothingToSend(schedule: seq<Turn>)
    ensures Send([], schedule) == Outgoing([], 0, schedule)
  {
  }

  /** Without a failure, what is not sent could not be: each transfer has moved a byte. */
  lemma {:induction false} WriteProgress(size: SizeT, schedule: seq<Turn>)
    requires Benign(schedule)
    ensures var w := Write(size, schedule);
            && Benign(w.left) && Transfers(schedule) <= w.count + Transfers(w.left)
            && (w.count < size ==> w.left == [])
    decreases |schedule|
  {
    if size > 0 && schedule != [] {
      assert Good(schedule[0]);
      match IoOutcome(schedule[0], Min(size, SEND_CHUNK))
      case Interrupted => WriteProgress(size, schedule[1..]);
      case Ended =>
      case Moved(count) => WriteProgress(size - count, schedule[1..]);
    }
  }

  /**
   For every schedule: all calls used are good, except that the last one used may be a failure or
   an empty transfer, and then nothing more is sent. A call moves at most three bytes.
   */
  lemma {:induction false} WriteUses(size: SizeT, schedule: seq<Turn>)
    ensures var w := Write(size, schedule);
            && (w.count == size ==> Used(schedule, w.left))
            && (w.count < size ==>
                  || (w.left == [] && Used(schedule, []))
                  || exists last :: UsedThen(schedule, last, w.left) && !Good(last))
            && w.count <= 3 * (|schedule| - |w.left|)
    decreases |schedule|
  {
    hide Used, Good;
    UsedNone(schedule);
    if size > 0 && schedule != [] {
      var r := IoOutcome(schedule[0], Min(size, SEND_CHUNK));
      var w := Write(size, schedule);
      GoodUnlessEnded(schedule[0], Min(size, SEND_CHUNK));
      if r.Ended? {
        LastUsed(schedule);
        assert UsedThen(schedule, schedule[0], w.left) && !Good(schedule[0]);
      } else {
        var rest := if r.Moved? then size - r.count else size;
        WriteUses(rest, schedule[1..]);
        if Used(schedule[1..], w.left) {
          UsedOne(schedule, w.left);
        }
        if w.count < size && !(w.left == [] && Used(schedule[1..], [])) {
          var last :| UsedThen(schedule[1..], last, w.left) && !Good(last);
          UsedOne(schedule, [last] + w.left);
          assert UsedThen(schedule, last, w.left);
        }
      }
    }
  }

  /** One transfer moves what it allows of the next three bytes. */
  lemma OnePiece(size: SizeT, limit: SizeT)
    ensures Write(size, [Transfer(limit)]).count == Min(limit, Min(size, 3))
  {
    var schedule := [Transfer(limit)];
    assert schedule[1..] == [];
    assert forall rest: SizeT :: Write(rest, []).count == 0;
  }

  lemma GoodUnlessEnded(turn: Turn, possible: SizeT)
    ensures possible > 0 ==> (IoOutcome(turn, possible).Ended? <==> !Good(turn))
    ensures turn.Fail? ==> IoOutcome(turn, possible).Ended?
    ensures IoOutcome(turn, possible).Ended? && Good(turn) ==> possible == 0
    ensures !IoOutcome(turn, possible).Ended? ==> Good(turn)
  {
  }

  lemma {:induction false} SendProgress(frames: seq<Frame>, schedule: seq<Turn>)
    requires AllEncodable(frames) && Benign(schedule)
    ensures var o := Send(frames, schedule);
            && Benign(o.left) && Transfers(schedule) <= |o.wire| + Transfers(o.left)
            && (o.sent < |frames| ==> o.left == [])
    decreases |frames|
  {
    hide Encoded, Write;
    if frames != [] {
      var w := Write(EncodedSize(frames[0]), schedule);
      WriteProgress(EncodedSize(frames[0]), schedule);
      if w.count == EncodedSize(frames[0]) {
        SendProgress(frames[1..], w.left);
      }
    }
  }

  /** Single bytes: no more goes out than there are calls. */
  lemma {:induction false} OnesWrite(size: SizeT, n: nat)
    ensures var w := Write(size, Ones(n));
            w.count <= n && w.left == Ones(n - w.count)
    decreases n
  {
    if size > 0 && n > 0 {
      assert Ones(n)[1..] == Ones(n - 1);
      OnesWrite(size - 1, n - 1);
    }
  }

  lemma {:induction false} OnesSend(frames: seq<Frame>, n: nat)
    requires AllEncodable(frames)
    ensures |Send(frames, Ones(n)).wire| <= n
    decreases |frames|
  {
    hide Encoded, Write, Ones;
    if frames != [] {
      var w := Write(EncodedSize(frames[0]), Ones(n));
      OnesWrite(EncodedSize(frames[0]), n);
      if w.count == EncodedSize(frames[0]) {
        OnesSend(frames[1..], n - w.count);
      }
    }
  }

  // ----- What is on the wire -------------------------------------------------------------------

  /** The wire holds the first `sent` frames whole and a proper part of the next one, if there is one. */
  ghost predicate Underway(wire: seq<Byte>, frames: seq<Frame>, sent: nat) {
    && AllEncodable(frames) && sent <= |frames|
    && if sent == |frames| then wire == Concatenated(frames)
       else exists k :: 0 <= k < |Encoded(frames[sent])|
                        && wire == Concatenated(frames[..sent]) + Encoded(frames[sent])[..k]
  }

  /** One more whole frame in front. */
  lemma UnderwayBehind(wire: seq<Byte>, frames: seq<Frame>, sent: nat)
    requires AllEncodable(frames) && frames != [] && Underway(wire, frames[1..], sent)
    ensures Underway(Encoded(frames[0]) + wire, frames, sent + 1)
  {
    hide Encoded;
    if sent < |frames[1..]| {
      var k :| 0 <= k < |Encoded(frames[1..][sent])|
               && wire == Concatenated(frames[1..][..sent]) + Encoded(frames[1..][sent])[..k];
      var part := Encoded(frames[1 + sent])[..k];
      assert frames[..1 + sent][1..] == frames[1..][..sent];
      assert Encoded(frames[0]) + (Concatenated(frames[1..][..sent]) + part)
          == Concatenated(frames[..1 + sent]) + part;
    }
  }

  lemma {:induction false} SendUnderway(frames: seq<Frame>, schedule: seq<Turn>)
    requires AllEncodable(frames)
    ensures Underway(Send(frames, schedule).wire, frames, Send(frames, schedule).sent)
    decreases |frames|
  {
    hide Encoded, Write;
    if frames != [] {
      var f, w := frames[0], Write(EncodedSize(frames[0]), schedule);
      if w.count < |Encoded(f)| {
        assert Send(frames, schedule).wire == Concatenated(frames[..0]) + Encoded(f)[..w.count];
      } else {
        hide Underway;
        SendUnderway(frames[1..], w.left);
        UnderwayBehind(Send(frames[1..], w.left).wire, frames, Send(frames[1..], w.left).sent);
      }
    }
  }

  /** Whole frames, or part of the next one, are never longer than all of them. */
  lemma {:induction false} SendLength(frames: seq<Frame>, schedule: seq<Turn>)
    requires AllEncodable(frames)
    ensures var o := Send(frames, schedule);
            if o.sent == |frames| then o.wire == Concatenated(frames) else |o.wire| < |Concatenated(frames)|
    decreases |frames|
  {
    hide Encoded, Write;
    if frames != [] {
      SendLength(frames[1..], Write(EncodedSize(frames[0]), schedule).left);
    }
  }

  /** The start of an encoding delivers nothing and is kept whole. */
  lemma PartWaits(f: Frame, k: nat)
    requires Encodable(f) && k < |Encoded(f)|
    ensures S.Drain(Encoded(f)[..k]) == S.Run([], Encoded(f)[..k], S.NOTHING)
  {
    hide Encoded;
    hide S.Decide;
    var part := Encoded(f)[..k];
    S.AcceptEncoded(f, []);
    assert part + Encoded(f)[k..] == Encoded(f) == Encoded(f) + [];
    if S.Decide(part) != S.More {
      S.DecisionStable(part, Encoded(f)[k..]);
      assert false;
    }
  }

  /** Whole frames followed by part of another one deliver the whole frames. */
  lemma {:induction false} WholeFramesArrive(frames: seq<Frame>, rest: seq<Byte>)
    requires AllEncodable(frames)
    ensures S.Drain(Concatenated(frames) + rest).frames == NormalisedAll(frames) + S.Drain(rest).frames
    ensures S.Drain(Concatenated(frames) + rest).rest == S.Drain(rest).rest
    decreases |frames|
  {
    hide Encoded;
    hide Normalised;
    hide S.Drain;
    if frames == [] {
      assert Concatenated(frames) + rest == rest;
    } else {
      var later := Concatenated(frames[1..]);
      assert Concatenated(frames) + rest == Encoded(frames[0]) + (later + rest);
      S.DrainEncoded(frames[0], later + rest);
      WholeFramesArrive(frames[1..], rest);
      assert NormalisedAll(frames) == [Normalised(frames[0])] + NormalisedAll(frames[1..]);
    }
  }

  /** Whatever was sent, the receiver finds exactly the whole frames in it. */
  lemma UnderwayDelivers(wire: seq<Byte>, frames: seq<Frame>, sent: nat)
    requires Underway(wire, frames, sent)
    ensures S.Drain(wire).frames == NormalisedAll(frames[..sent])
  {
    hide Encoded;
    hide S.Drain;
    assert frames[..|frames|] == frames;
    if sent == |frames| {
      assert wire + [] == wire;
      WholeFramesArrive(frames, []);
      S.DrainNothing();
    } else {
      var k :| 0 <= k < |Encoded(frames[sent])|
               && wire == Concatenated(frames[..sent]) + Encoded(frames[sent])[..k];
      WholeFramesArrive(frames[..sent], Encoded(frames[sent])[..k]);
      PartWaits(frames[sent], k);
    }
  }

  // ----- Receiving -----------------------------------------------------------------------------

  /** How `receive_frame` ends; its internal failures cannot happen. */
  datatype Received = Delivered | Stopping | TransportEnded

  /** The frames handed on, and what is left: bytes kept in the ring, bytes unread, calls. */
  datatype Incoming = Incoming(frames: seq<Frame>, kept: seq<Byte>, wire: seq<Byte>, left: seq<Turn>, end: Received)
  {
    function Behind(frame: Frame): Incoming {
      this.(frames := [frame] + frames)
    }
  }

  /** A call that asks for more data leaves less than one frame, with no frame in it. */
  lemma PendingIsShort(s: seq<Byte>)
    requires S.Next(s).Pending?
    ensures |S.Next(s).rest| < MAX_ENCODED_SIZE && S.Drain(S.Next(s).rest).frames == []
    ensures |S.Next(s).rest| <= |s|
  {
    hide S.Next;
    hide S.Drain;
    S.DrainIsCalls(s);
    S.RetainedWaits(s);
    S.DrainStep(S.Next(s).rest);
  }

  /** The room the ring offers to the next read. */
  function Room(kept: seq<Byte>, wire: seq<Byte>): (n: nat)
    ensures n <= INPUT_SIZE && n <= |wire|
  {
    if |kept| >= MAX_ENCODED_SIZE then 0 else Min(Min(MAX_ENCODED_SIZE - |kept|, INPUT_SIZE), |wire|)
  }

  function Receive(kept: seq<Byte>, wire: seq<Byte>, schedule: seq<Turn>): Incoming
    decreases |schedule|, 1, |kept|
  {
    if schedule == [] then Incoming([], kept, wire, [], Stopping)
    else
      match S.Next(kept)
      case Ready(frame, rest, _) => Receive(rest, wire, schedule).Behind(frame)
      case Pending(rest, _) => Read(rest, wire, schedule)
  }

  function Read(kept: seq<Byte>, wire: seq<Byte>, schedule: seq<Turn>): Incoming
    requires schedule != []
    decreases |schedule|, 0, 0
  {
    match IoOutcome(schedule[0], Room(kept, wire))
    case Interrupted => Receive(kept, wire, schedule[1..])
    case Ended => Incoming([], kept, wire, schedule[1..], TransportEnded)
    case Moved(count) => Receive(kept + wire[..count], wire[count..], schedule[1..])
  }

  /** Frames handed on and those still ahead are together those ahead at the start. */
  lemma {:induction false} ReceiveConserves(kept: seq<Byte>, wire: seq<Byte>, schedule: seq<Turn>)
    ensures var r := Receive(kept, wire, schedule);
            && r.frames + S.Drain(r.kept + r.wire).frames == S.Drain(kept + wire).frames
            && S.Drain(r.kept + r.wire).rest == S.Drain(kept + wire).rest
    decreases |schedule|, |kept|
  {
    hide S.Drain, S.Next, Room;
    if schedule != [] {
      S.FramesAfterCall(kept, wire);
      match S.Next(kept)
      case Ready(frame, rest, _) =>
        ReceiveConserves(rest, wire, schedule);
        var r := Receive(rest, wire, schedule);
        assert [frame] + (r.frames + S.Drain(r.kept + r.wire).frames)
            == [frame] + r.frames + S.Drain(r.kept + r.wire).frames;
      case Pending(rest, _) =>
        match IoOutcome(schedule[0], Room(rest, wire))
        case Interrupted =>
          ReceiveConserves(rest, wire, schedule[1..]);
        case Ended =>
        case Moved(count) =>
          assert rest + wire == rest + wire[..count] + wire[count..];
          ReceiveConserves(rest + wire[..count], wire[count..], schedule[1..]);
    }
  }

  /** When the transport ends on an empty wire, no frame is left in the ring. */
  lemma {:induction false} EndLeavesNothing(kept: seq<Byte>, wire: seq<Byte>, schedule: seq<Turn>)
    ensures var r := Receive(kept, wire, schedule);
            r.end == TransportEnded ==> S.Drain(r.kept).frames == []
    decreases |schedule|, |kept|
  {
    hide S.Drain, S.Next, Room;
    if schedule != [] {
      match S.Next(kept)
      case Ready(frame, rest, _) => EndLeavesNothing(rest, wire, schedule);
      case Pending(rest, _) =>
        PendingIsShort(kept);
        match IoOutcome(schedule[0], Room(rest, wire))
        case Interrupted => EndLeavesNothing(rest, wire, schedule[1..]);
        case Ended =>
        case Moved(count) => EndLeavesNothing(rest + wire[..count], wire[count..], schedule[1..]);
    }
  }

  /** Without a failure, receiving ends only with the wire or with the schedule, each transfer reading a byte. */
  lemma {:induction false} ReceiveProgress(kept: seq<Byte>, wire: seq<Byte>, schedule: seq<Turn>)
    requires Benign(schedule)
    ensures var r := Receive(kept, wire, schedule);
            && r.end != Delivered && |r.wire| <= |wire|
            && (r.end == TransportEnded ==> r.wire == [])
            && (r.end == Stopping ==> r.left == [] && Transfers(schedule) + |r.wire| <= |wire|)
    decreases |schedule|, |kept|
  {
    hide S.Drain, S.Next;
    if schedule != [] {
      match S.Next(kept)
      case Ready(frame, rest, _) => ReceiveProgress(rest, wire, schedule);
      case Pending(rest, _) =>
        PendingIsShort(kept);
        assert Good(schedule[0]);
        match IoOutcome(schedule[0], Room(rest, wire))
        case Interrupted => ReceiveProgress(rest, wire, schedule[1..]);
        case Ended =>
        case Moved(count) => ReceiveProgress(rest + wire[..count], wire[count..], schedule[1..]);
    }
  }

  /** What receiving has used of the schedule when it ends with this result. */
  ghost predicate EndsBy(schedule: seq<Turn>, left: seq<Turn>, unread: nat, end: Received) {
    match end
    case Delivered => Used(schedule, left)
    case Stopping => left == [] && Used(schedule, left)
    case TransportEnded => exists last :: UsedThen(schedule, last, left) && (Good(last) ==> unread == 0)
  }

  lemma EndsByMeans(schedule: seq<Turn>)
    ensures forall left, unread :: EndsBy(schedule, left, unread, Delivered) <==> Used(schedule, left)
  {
  }

  lemma EndsByOne(schedule: seq<Turn>, left: seq<Turn>, unread: nat, end: Received)
    requires schedule != [] && Good(schedule[0]) && EndsBy(schedule[1..], left, unread, end)
    ensures EndsBy(schedule, left, unread, end)
  {
    hide Used, Good;
    match end
    case TransportEnded =>
      var last :| UsedThen(schedule[1..], last, left) && (Good(last) ==> unread == 0);
      UsedOne(schedule, [last] + left);
      assert UsedThen(schedule, last, left);
    case _ =>
      UsedOne(schedule, left);
  }

  /**
   For every schedule: receiving goes on over good calls only. A failed call, or an empty
   transfer, is the last that is made, and the transport has then ended; it ends otherwise only
   with an empty wire.
   */
  lemma {:induction false} ReceiveUses(kept: seq<Byte>, wire: seq<Byte>, schedule: seq<Turn>)
    ensures var r := Receive(kept, wire, schedule);
            r.end != Delivered && EndsBy(schedule, r.left, |r.wire|, r.end)
    decreases |schedule|, |kept|
  {
    hide S.Next, S.Drain, Room;
    if schedule == [] {
      UsedNone([]);
    } else {
      hide Used, Good;
      match S.Next(kept)
      case Ready(frame, rest, _) => ReceiveUses(rest, wire, schedule);
      case Pending(rest, _) =>
        PendingIsShort(kept);
        RoomIsThere(rest, wire);
        GoodUnlessEnded(schedule[0], Room(rest, wire));
        match IoOutcome(schedule[0], Room(rest, wire))
        case Interrupted =>
          InterruptIsGood(schedule[0]);
          ReceiveUses(rest, wire, schedule[1..]);
          EndsByOne(schedule, Receive(kept, wire, schedule).left, |Receive(kept, wire, schedule).wire|,
                    Receive(kept, wire, schedule).end);
        case Ended =>
          LastUsed(schedule);
          assert UsedThen(schedule, schedule[0], schedule[1..]);
        case Moved(count) =>
          InterruptIsGood(schedule[0]);
          ReceiveUses(rest + wire[..count], wire[count..], schedule[1..]);
          EndsByOne(schedule, Receive(kept, wire, schedule).left, |Receive(kept, wire, schedule).wire|,
                    Receive(kept, wire, schedule).end);
    }
  }

  lemma RoomIsThere(kept: seq<Byte>, wire: seq<Byte>)
    requires |kept| < MAX_ENCODED_SIZE
    ensures Room(kept, wire) == 0 <==> wire == []
    ensures Room(kept, wire) == Min(Min(7, 10 + MAX_PAYLOAD_SIZE - |kept|), |wire|)
  {
  }

  lemma InterruptIsGood(turn: Turn)
    ensures turn.Interrupt? || (turn.Transfer? && turn.limit > 0) <==> Good(turn)
  {
  }

  /** Once a call fails, the calls after it have no influence; receiving has ended by then. */
  lemma {:induction false} FailureIsFinal(kept: seq<Byte>, wire: seq<Byte>, before: seq<Turn>, after: seq<Turn>)
    ensures var r := Receive(kept, wire, before + [Fail]);
            && r.end == TransportEnded
            && Receive(kept, wire, before + [Fail] + after) == r.(left := r.left + after)
    decreases |before|, |kept|
  {
    hide S.Next, S.Drain, Room;
    var short, long := before + [Fail], before + [Fail] + after;
    assert long[1..] == short[1..] + after && long[0] == short[0];
    match S.Next(kept)
    case Ready(frame, rest, _) => FailureIsFinal(rest, wire, before, after);
    case Pending(rest, _) =>
      PendingIsShort(kept);
      if before != [] {
        assert short[1..] == before[1..] + [Fail] && long[1..] == before[1..] + [Fail] + after;
        match IoOutcome(before[0], Room(rest, wire))
        case Interrupted => FailureIsFinal(rest, wire, before[1..], after);
        case Ended =>
        case Moved(count) => FailureIsFinal(rest + wire[..count], wire[count..], before[1..], after);
      }
  }

  /** Without a failure and with more transfers than bytes, every frame ahead is handed on. */
  lemma EnoughToReceive(wire: seq<Byte>, schedule: seq<Turn>)
    requires Benign(schedule) && Transfers(schedule) > |wire|
    ensures Receive([], wire, schedule).frames == S.Drain(wire).frames
  {
    hide S.Drain, Receive;
    var r := Receive([], wire, schedule);
    ReceiveConserves([], wire, schedule);
    ReceiveProgress([], wire, schedule);
    EndLeavesNothing([], wire, schedule);
    assert [] + wire == wire && r.kept + [] == r.kept;
  }

  // ----- How many transfers are needed ---------------------------------------------------------

  lemma {:induction false} NextTakesItsBytes(s: seq<Byte>)
    ensures S.Next(s).Ready? ==> EncodedSize(S.Next(s).frame) + |S.Next(s).rest| <= |s|
    ensures S.Next(s).Pending? ==> |S.Next(s).rest| <= |s|
    decreases |s|
  {
    hide S.Decide;
    match S.Decide(s)
    case More =>
    case Skip(reason) => NextTakesItsBytes(s[1..]);
    case Accept(frame, size) => S.AcceptedSize(s);
  }

  lemma {:induction false} ReceiveTakesBytes(kept: seq<Byte>, wire: seq<Byte>, schedule: seq<Turn>)
    ensures var r := Receive(kept, wire, schedule);
            S.EncodedBytes(r.frames) + |r.kept| + |r.wire| <= |kept| + |wire|
    decreases |schedule|, |kept|
  {
    hide S.Drain, S.Next, Room;
    if schedule != [] {
      NextTakesItsBytes(kept);
      match S.Next(kept)
      case Ready(frame, rest, _) =>
        ReceiveTakesBytes(rest, wire, schedule);
        assert Receive(kept, wire, schedule).frames[1..] == Receive(rest, wire, schedule).frames;
      case Pending(rest, _) =>
        match IoOutcome(schedule[0], Room(rest, wire))
        case Interrupted => ReceiveTakesBytes(rest, wire, schedule[1..]);
        case Ended =>
        case Moved(count) => ReceiveTakesBytes(rest + wire[..count], wire[count..], schedule[1..]);
    }
  }

  /** Read byte by byte with no call to spare, the last byte is never looked at. */
  lemma {:induction false} LastByteUnseen(kept: seq<Byte>, wire: seq<Byte>)
    requires wire != []
    ensures Receive(kept, wire, Ones(|wire|)).kept != []
    decreases |wire|, |kept|
  {
    hide S.Drain, S.Next;
    match S.Next(kept)
    case Ready(frame, rest, _) =>
      NextTakesItsBytes(kept);
      LastByteUnseen(rest, wire);
    case Pending(rest, _) =>
      PendingIsShort(kept);
      assert Ones(|wire|)[1..] == Ones(|wire| - 1);
      var r := Receive(rest + wire[..1], wire[1..], Ones(|wire| - 1));
      assert Receive(kept, wire, Ones(|wire|)) == r;
      if |wire| > 1 {
        LastByteUnseen(rest + wire[..1], wire[1..]);
      } else {
        assert r == Incoming([], rest + wire[..1], wire[1..], [], Stopping);
      }
  }

  lemma {:induction false} BytesOfFrames(frames: seq<Frame>)
    requires AllEncodable(frames)
    ensures S.EncodedBytes(NormalisedAll(frames)) == |Concatenated(frames)|
    decreases |frames|
  {
    hide Encoded;
    if frames != [] {
      assert NormalisedAll(frames)[1..] == NormalisedAll(frames[1..]);
      BytesOfFrames(frames[1..]);
    }
  }

  /** Every schedule without failures and with `m` transfers sends all frames. */
  ghost predicate SendsAll(frames: seq<Frame>, m: nat)
    requires AllEncodable(frames)
  {
    forall schedule :: Benign(schedule) && Transfers(schedule) >= m ==>
                         Send(frames, schedule).sent == |frames|
  }

  /** Every schedule without failures and with `m` transfers receives all frames. */
  ghost predicate ReceivesAll(frames: seq<Frame>, m: nat)
    requires AllEncodable(frames)
  {
    forall schedule :: Benign(schedule) && Transfers(schedule) >= m ==>
                         Receive([], Concatenated(frames), schedule).frames == NormalisedAll(frames)
  }

  /**
   A transfer for every byte is what sending needs. Receiving needs one more: the loop may be
   told to stop between reading the last byte and parsing it.
   */
  lemma TransfersNeeded(frames: seq<Frame>, m: nat)
    requires AllEncodable(frames) && frames != []
    ensures SendsAll(frames, m) <==> m >= |Concatenated(frames)|
    ensures ReceivesAll(frames, m) <==> m > |Concatenated(frames)|
  {
    hide Encoded, Send, Receive, Transfers, Benign, Ones;
    var wire := Concatenated(frames);
    forall schedule | Benign(schedule) && Transfers(schedule) >= m
      ensures m >= |wire| ==> Send(frames, schedule).sent == |frames|
      ensures m > |wire| ==> Receive([], wire, schedule).frames == NormalisedAll(frames)
    {
      SendProgress(frames, schedule);
      SendLength(frames, schedule);
      NothingLeft();
      if m > |wire| {
        EnoughToReceive(wire, schedule);
        S.ConcatenationDrains(frames);
      }
    }
    OnesTransfer(m);
    OnesSend(frames, m);
    SendLength(frames, Ones(m));
    OnesTransfer(|wire|);
    LastByteUnseen([], wire);
    ReceiveTakesBytes([], wire, Ones(|wire|));
    BytesOfFrames(frames);
  }

  lemma NothingLeft()
    ensures Transfers([]) == 0
  {
  }

  /**
   Frames sent with short writes and received in pieces. What is delivered is always a beginning
   of the frames sent whole; with enough transfers and no failure on a side, that side is complete.
   */
  lemma FramesArrive(frames: seq<Frame>, sending: seq<Turn>, receiving: seq<Turn>)
    requires AllEncodable(frames)
    ensures var o := Send(frames, sending);
            var r := Receive([], o.wire, receiving);
            && r.frames <= NormalisedAll(frames[..o.sent])
            && (Benign(sending) && Transfers(sending) >= |Concatenated(frames)| ==> o.sent == |frames|)
            && (Benign(receiving) && Transfers(receiving) > |Concatenated(frames)| ==>
                  r.frames == NormalisedAll(frames[..o.sent]))
            && (r.end == TransportEnded && r.wire == [] ==> r.frames == NormalisedAll(frames[..o.sent]))
  {
    hide Encoded, Send, Receive, Transfers, Benign, S.Drain;
    var o := Send(frames, sending);
    var r := Receive([], o.wire, receiving);
    SendUnderway(frames, sending);
    SendLength(frames, sending);
    UnderwayDelivers(o.wire, frames, o.sent);
    ReceiveConserves([], o.wire, receiving);
    assert [] + o.wire == o.wire;
    if Benign(sending) && Transfers(sending) >= |Concatenated(frames)| {
      SendProgress(frames, sending);
      NothingLeft();
    }
    if Benign(receiving) && Transfers(receiving) > |Concatenated(frames)| {
      EnoughToReceive(o.wire, receiving);
    }
    EndLeavesNothing([], o.wire, receiving);
    assert r.kept + [] == r.kept;
  }
}
