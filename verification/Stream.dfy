/**
 The runtime's receive and send loops over a stream socket, as the code writes them. They do
 exactly what `Delivery` says of the schedule of system calls, whatever that schedule is.
 */
module Stream {
  import opened Machine
  import opened Frames
  import opened Codec
  import opened Circular
  import opened RingBuffer
  import opened Parser
  import opened WireProperties
  import opened Delivery
  import S = Scanner

  /** One direction of a stream socket; once its schedule runs out, the runtime is stopping. */
  class Socket {
    var wire: seq<Byte>
    var schedule: seq<Turn>

    constructor (schedule: seq<Turn>)
      ensures this.schedule == schedule && wire == []
    {
      this.schedule := schedule;
      wire := [];
    }

    /** Copies what the next call allows, in order; nothing to copy means the end of the stream. */
    method Recv(input: array<Byte>, available: SizeT) returns (r: IoResult)
      requires schedule != [] && 0 < available <= input.Length
      modifies this, input
      ensures schedule == old(schedule)[1..]
      ensures r == IoOutcome(old(schedule)[0], Min(available, old(|wire|)))
      ensures r.Moved? ==> old(wire) == input[..r.count] + wire
      ensures !r.Moved? ==> wire == old(wire) && unchanged(input)
    {
      var turn := schedule[0];
      schedule := schedule[1..];
      match turn
      case Interrupt => return Interrupted;
      case Fail => return Ended;
      case Transfer(limit) =>
        var count := Min(limit, Min(available, |wire|));
        if count == 0 {
          return Ended;
        }
        forall i | 0 <= i < count {
          input[i] := wire[i];
        }
        wire := wire[count..];
        return Moved(count);
    }

    /** Appends what the next call allows of the `chunk` bytes of `data` from `offset`. */
    method Send(data: array<Byte>, offset: SizeT, chunk: SizeT) returns (r: IoResult)
      requires schedule != [] && 0 < chunk && offset + chunk <= data.Length
      modifies this
      ensures schedule == old(schedule)[1..]
      ensures r == IoOutcome(old(schedule)[0], chunk)
      ensures r.Moved? ==> wire == old(wire) + data[offset..offset + r.count]
      ensures !r.Moved? ==> wire == old(wire)
    {
      var turn := schedule[0];
      schedule := schedule[1..];
      match turn
      case Interrupt => return Interrupted;
      case Fail => return Ended;
      case Transfer(limit) =>
        var count: SizeT := Min(limit, chunk);
        if count == 0 {
          return Ended;
        }
        wire := wire + data[offset..offset + count];
        return Moved(count);
    }
  }

  // ----- Receiving -----------------------------------------------------------------------------

  class Reader {
    const ring: Ring
    const scratch: array<Byte>

    constructor ()
      ensures Ready() && ring.Contents() == []
      ensures fresh(ring) && fresh(ring.storage) && fresh(scratch)
    {
      var storage := new Byte[MAX_ENCODED_SIZE](i => 0);
      scratch := new Byte[MAX_ENCODED_SIZE](i => 0);
      ring := new Ring(storage, MAX_ENCODED_SIZE);
    }

    ghost predicate Ready()
      reads this, ring
    {
      && ring.Valid()
      && ring.capacity == MAX_ENCODED_SIZE
      && scratch != ring.storage
      && scratch.Length == MAX_ENCODED_SIZE
    }
  }

  /** Everything that will still be received, with this schedule. */
  ghost function ToCome(reader: Reader, socket: Socket): Incoming
    requires reader.Ready()
    reads reader, reader.ring, reader.ring.storage, socket
  {
    Receive(reader.ring.Contents(), socket.wire, socket.schedule)
  }

  /** Everything that buffered and unread bytes still hold. */
  ghost function Ahead(reader: Reader, socket: Socket): S.Run
    requires reader.Ready()
    reads reader, reader.ring, reader.ring.storage, socket
  {
    S.Drain(reader.ring.Contents() + socket.wire)
  }

  ghost function BytesAhead(reader: Reader, socket: Socket): nat
    requires reader.Ready()
    reads reader, reader.ring, reader.ring.storage, socket
  {
    |reader.ring.Contents()| + |socket.wire|
  }

  /** The state of both ends when receiving is over. */
  ghost function Left(reader: Reader, socket: Socket, frames: seq<Frame>, end: Received): Incoming
    requires reader.Ready()
    reads reader, reader.ring, reader.ring.storage, socket
  {
    Incoming(frames, reader.ring.Contents(), socket.wire, socket.schedule, end)
  }

  /** Reads into whatever room the ring has; there is always some. */
  method ReadMore(reader: Reader, socket: Socket, input: array<Byte>) returns (got: IoResult)
    requires reader.Ready() && |reader.ring.Contents()| < MAX_ENCODED_SIZE
    requires socket.schedule != [] && input.Length == INPUT_SIZE && input != reader.ring.storage
    modifies reader.ring`writeIndex, reader.ring`used, reader.ring.storage, socket, input
    ensures reader.Ready()
    ensures BytesAhead(reader, socket) == old(BytesAhead(reader, socket))
    ensures socket.schedule == old(socket.schedule)[1..]
    ensures got == IoOutcome(old(socket.schedule)[0], old(Room(reader.ring.Contents(), socket.wire)))
    ensures old(Read(reader.ring.Contents(), socket.wire, socket.schedule))
         == if got.Ended? then Left(reader, socket, [], TransportEnded) else ToCome(reader, socket)
  {
    hide AdvanceIndex, Window, Receive;
    var available := reader.ring.FreeSpace();
    assert 0 < available;
    if available > INPUT_SIZE {
      available := INPUT_SIZE;
    }
    ghost var kept, wire := reader.ring.Contents(), socket.wire;
    got := socket.Recv(input, available);
    match got
    case Interrupted =>
    case Ended =>
    case Moved(count) =>
      var written := reader.ring.Write(input, count);
      assert input[..count] == wire[..count] && socket.wire == wire[count..];
  }

  method ReceiveFrame(reader: Reader, socket: Socket, frame: FrameSlot) returns (r: Received)
    requires reader.Ready()
    modifies reader.ring`readIndex, reader.ring`writeIndex, reader.ring`used
    modifies reader.ring.storage, reader.scratch, socket, frame
    ensures reader.Ready()
    ensures r == Delivered ==>
              && old(ToCome(reader, socket)) == ToCome(reader, socket).Behind(frame.value)
              && BytesAhead(reader, socket) < old(BytesAhead(reader, socket))
    ensures r != Delivered ==>
              && old(ToCome(reader, socket)) == Left(reader, socket, [], r)
              && frame.value == old(frame.value)
    ensures EndsBy(old(socket.schedule), socket.schedule, |socket.wire|, r)
  {
    ReceiveUses(reader.ring.Contents(), socket.wire, socket.schedule);
    UsedNone(socket.schedule);
    EndsByMeans(socket.schedule);
    hide S.Next, AdvanceIndex, Window, Read, EndsBy, Used, Room, Good;
    var input := new Byte[INPUT_SIZE](i => 0);
    while socket.schedule != []
      invariant reader.Ready()
      invariant ToCome(reader, socket) == old(ToCome(reader, socket))
      invariant BytesAhead(reader, socket) <= old(BytesAhead(reader, socket))
      invariant frame.value == old(frame.value) && Used(old(socket.schedule), socket.schedule)
      decreases |socket.schedule|
    {
      ghost var before, turn := reader.ring.Contents(), socket.schedule[0];
      NextTakesItsBytes(before);
      var parsed := NextInternal(reader.ring, reader.scratch, MAX_ENCODED_SIZE, frame, null);
      if parsed == FrameReady {
        return Delivered;
      }
      PendingIsShort(before);
      ghost var schedule, room := socket.schedule, Room(reader.ring.Contents(), socket.wire);
      var got := ReadMore(reader, socket, input);
      if got.Ended? {
        return TransportEnded;
      }
      GoodUnlessEnded(turn, room);
      UsedNext(old(socket.schedule), schedule);
    }
    return Stopping;
  }

  /** The receiving thread's loop, handing each frame on in turn. */
  method ReceiveAll(reader: Reader, socket: Socket, frame: FrameSlot)
    returns (delivered: seq<Frame>, end: Received)
    requires reader.Ready()
    modifies reader.ring`readIndex, reader.ring`writeIndex, reader.ring`used
    modifies reader.ring.storage, reader.scratch, socket, frame
    ensures reader.Ready() && end != Delivered
    ensures old(ToCome(reader, socket)) == Left(reader, socket, delivered, end)
    ensures delivered + Ahead(reader, socket).frames == old(Ahead(reader, socket)).frames
    ensures EndsBy(old(socket.schedule), socket.schedule, |socket.wire|, end)
  {
    ReceiveUses(reader.ring.Contents(), socket.wire, socket.schedule);
    hide EndsBy;
    ReceiveConserves(reader.ring.Contents(), socket.wire, socket.schedule);
    hide Ahead;
    hide ToCome, AdvanceIndex, Window, Ring.Contents;
    delivered := [];
    ghost var storage := reader.ring.storage;
    while true
      invariant reader.Ready() && reader.ring.storage == storage
      invariant old(ToCome(reader, socket)) == Follows(delivered, ToCome(reader, socket))
      decreases BytesAhead(reader, socket)
    {
      end := ReceiveFrame(reader, socket, frame);
      if end != Delivered {
        assert delivered + [] == delivered;
        return;
      }
      FollowsOn(delivered, frame.value, ToCome(reader, socket));
      delivered := delivered + [frame.value];
    }
  }

  function Follows(first: seq<Frame>, later: Incoming): Incoming {
    later.(frames := first + later.frames)
  }

  lemma FollowsOn(first: seq<Frame>, frame: Frame, later: Incoming)
    ensures Follows(first, later.Behind(frame)) == Follows(first + [frame], later)
  {
    assert first + ([frame] + later.frames) == first + [frame] + later.frames;
  }

  // ----- Sending -------------------------------------------------------------------------------

  /** Sends the first `size` bytes of `data` in small pieces; short writes only advance. */
  method SendBytes(socket: Socket, data: array<Byte>, size: SizeT) returns (sent: bool)
    requires size <= data.Length
    modifies socket
    ensures var w := Write(size, old(socket.schedule));
            && sent == (w.count == size)
            && socket.wire == old(socket.wire) + data[..w.count]
            && socket.schedule == w.left
  {
    hide Write, IoOutcome;
    var offset: SizeT := 0;
    while offset < size && socket.schedule != []
      invariant 0 <= offset <= size
      invariant socket.wire == old(socket.wire) + data[..offset]
      invariant var w := Write(size - offset, socket.schedule);
                Write(size, old(socket.schedule)) == w.(count := offset + w.count)
      decreases |socket.schedule|
    {
      var chunk: SizeT := size - offset;
      if chunk > SEND_CHUNK {
        chunk := SEND_CHUNK;
      }
      ghost var schedule := socket.schedule;
      var r := socket.Send(data, offset, chunk);
      WriteStep(size - offset, schedule, r);
      match r
      case Interrupted =>
      case Ended =>
        return false;
      case Moved(count) =>
        assert data[..offset + count] == data[..offset] + data[offset..offset + count];
        offset := offset + count;
    }
    NothingWritten(size - offset, socket.schedule);
    return offset == size;
  }

  /** Encodes a frame and sends it. */
  method SendFrame(socket: Socket, frame: Frame) returns (sent: bool)
    modifies socket
    ensures !Encodable(frame) ==>
              !sent && socket.wire == old(socket.wire) && socket.schedule == old(socket.schedule)
    ensures Encodable(frame) ==>
              var w := Write(EncodedSize(frame), old(socket.schedule));
              && sent == (w.count == EncodedSize(frame))
              && socket.wire == old(socket.wire) + Encoded(frame)[..w.count]
              && socket.schedule == w.left
  {
    hide Encoded, Write;
    var wire := new Byte[MAX_ENCODED_SIZE](i => 0);
    var result, size := Encode(frame, wire, MAX_ENCODED_SIZE);
    if result != CodecResult.Ok {
      return false;
    }
    ghost var schedule := socket.schedule;
    sent := SendBytes(socket, wire, size);
    ghost var count := Write(size, schedule).count;
    assert wire[..count] == wire[..size][..count];
  }

  /** The sending thread's loop over the frames it takes from its queue. */
  method SendAll(socket: Socket, frames: seq<Frame>) returns (sent: nat)
    requires AllEncodable(frames)
    modifies socket
    ensures var o := Delivery.Send(frames, old(socket.schedule));
            && sent == o.sent
            && socket.wire == old(socket.wire) + o.wire
            && socket.schedule == o.left
  {
    hide Encoded, Write, Delivery.Send;
    sent := 0;
    ghost var whole: seq<Byte> := [];
    assert frames[0..] == frames;
    while sent < |frames|
      invariant sent <= |frames| && socket.wire == old(socket.wire) + whole
      invariant Delivery.Send(frames, old(socket.schedule))
             == Onto(whole, sent, Delivery.Send(frames[sent..], socket.schedule))
    {
      ghost var wire, w := Encoded(frames[sent]), Write(EncodedSize(frames[sent]), socket.schedule);
      SendStep(frames, sent, socket.schedule);
      var ok := SendFrame(socket, frames[sent]);
      assert old(socket.wire) + whole + wire[..w.count] == old(socket.wire) + (whole + wire[..w.count]);
      if !ok {
        return;
      }
      OntoMore(whole, sent, wire, Delivery.Send(frames[sent + 1..], socket.schedule));
      whole := whole + wire;
      sent := sent + 1;
    }
    NothingToSend(socket.schedule);
  }

  /** What is sent later, behind `sent` frames already on the wire. */
  function Onto(whole: seq<Byte>, sent: nat, later: Outgoing): Outgoing {
    Outgoing(whole + later.wire, sent + later.sent, later.left)
  }

  lemma OntoMore(whole: seq<Byte>, sent: nat, wire: seq<Byte>, later: Outgoing)
    ensures Onto(whole, sent, Outgoing(wire + later.wire, 1 + later.sent, later.left))
         == Onto(whole + wire, sent + 1, later)
  {
    assert whole + (wire + later.wire) == whole + wire + later.wire;
  }

  /** Frames sent over one socket and then received from it, with arbitrary schedules. */
  method Transport(frames: seq<Frame>, sending: seq<Turn>, receiving: seq<Turn>)
    returns (sent: nat, delivered: seq<Frame>, end: Received, unread: seq<Byte>)
    requires AllEncodable(frames)
    ensures var o := Delivery.Send(frames, sending);
            var r := Receive([], o.wire, receiving);
            sent == o.sent && delivered == r.frames && end == r.end && unread == r.wire
    ensures sent <= |frames| && delivered <= NormalisedAll(frames[..sent])
    ensures end == TransportEnded && unread == [] ==> delivered == NormalisedAll(frames[..sent])
    ensures Benign(sending) && Transfers(sending) >= |Concatenated(frames)| ==> sent == |frames|
    ensures Benign(receiving) && Transfers(receiving) > |Concatenated(frames)| ==>
              delivered == NormalisedAll(frames[..sent])
    ensures (&& Benign(sending) && Transfers(sending) >= |Concatenated(frames)|
             && Benign(receiving) && Transfers(receiving) > |Concatenated(frames)|) ==>
              delivered == NormalisedAll(frames)
  {
    hide Encoded, Delivery.Send, Receive, Transfers, Benign;
    var socket := new Socket(sending);
    sent := SendAll(socket, frames);
    assert [] + Delivery.Send(frames, sending).wire == Delivery.Send(frames, sending).wire;
    socket.schedule := receiving;
    var reader := new Reader();
    var frame := new FrameSlot(NewFrame(TYPE_REPORT, 0, []));
    delivered, end := ReceiveAll(reader, socket, frame);
    unread := socket.wire;
    FramesArrive(frames, sending, receiving);
    assert frames[..|frames|] == frames;
  }
}
