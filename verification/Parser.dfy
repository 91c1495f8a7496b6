/** The incremental parser over the ring buffer. */
module Parser {
  import opened Machine
  import opened Frames
  import opened Codec
  import opened Circular
  import opened RingBuffer
  import S = Scanner

  datatype ParserResult =
    | FrameReady
    | NeedMoreData
    | ScratchTooSmall
    | RingTooSmall
    | RingError

  /** The values of the diagnostic counters. */
  datatype Counters = Counters(framesReady: U64, discardedBytes: U64, oversized: U64,
                               decodeErrors: U64, crcErrors: U64)
  {
    /** Each counter advanced by its part of a tally, sticking at its maximum. */
    function Plus(t: S.Tally): Counters {
      Counters(AddSaturating(framesReady, t.framesReady),
               AddSaturating(discardedBytes, t.discardedBytes),
               AddSaturating(oversized, t.oversized),
               AddSaturating(decodeErrors, t.decodeErrors),
               AddSaturating(crcErrors, t.crcErrors))
    }
  }

  lemma PlusTwice(c: Counters, a: S.Tally, b: S.Tally)
    ensures c.Plus(a).Plus(b) == c.Plus(a.Plus(b))
  {
  }

  /** The diagnostic counters a caller may ask the parser to keep. */
  class ParserStats {
    var framesReady: U64
    var discardedBytes: U64
    var oversizedLengthCandidates: U64
    var decodeErrors: U64
    var crcErrors: U64

    function Values(): Counters
      reads this
    {
      Counters(framesReady, discardedBytes, oversizedLengthCandidates, decodeErrors, crcErrors)
    }

    method Reset()
      modifies this
      ensures Values() == Counters(0, 0, 0, 0, 0)
    {
      framesReady := 0;
      discardedBytes := 0;
      oversizedLengthCandidates := 0;
      decodeErrors := 0;
      crcErrors := 0;
    }
  }

  method DiscardOne(ring: Ring, stats: ParserStats?)
    requires ring.Valid() && ring.Contents() != []
    modifies ring`readIndex, ring`used, stats
    ensures ring.Valid() && ring.Contents() == old(ring.Contents())[1..]
    ensures stats != null ==> stats.Values() == old(stats.Values()).Plus(S.OneSkip(S.NotSync))
  {
    var result := ring.Discard(1);
    assert result == RingResult.Ok;
    if stats != null {
      stats.discardedBytes := Increment(stats.discardedBytes);
    }
  }

  /** What one turn of the parser's loop decides to do with the candidate at the front. */
  datatype Verdict = Wait | Drop(reason: S.SkipReason) | Take(size: SizeT)

  /** The checks of one loop turn: it looks at the ring through `scratch` and consumes nothing. */
  method Examine(ring: Ring, scratch: array<Byte>, frame: FrameSlot) returns (v: Verdict)
    requires ring.Valid() && scratch != ring.storage && MAX_ENCODED_SIZE <= scratch.Length
    modifies scratch, frame
    ensures match S.Decide(ring.Contents())
            case More => v == Wait && frame.value == old(frame.value)
            case Skip(reason) => v == Drop(reason) && frame.value == old(frame.value)
            case Accept(f, size) => v == Take(size) && frame.value == f
  {
    hide DecodeCheck, Decoded, FirstFailure, HasLayout, Normalised;
    hide AdvanceIndex;
    hide Window;
    ghost var s := ring.Contents();
    var available := ring.Size();
    if available == 0 {
      return Wait;
    }
    var ok := ring.Peek(0, scratch, 0, 1);
    assert scratch[0] == scratch[0..1][0] == s[0];
    if scratch[0] != SYNC_BYTE_0 {
      return Drop(S.NotSync);
    }
    if available < 2 {
      return Wait;
    }
    ok := ring.Peek(1, scratch, 1, 1);
    assert scratch[1..2] == s[1..2];
    assert scratch[1] == scratch[1..2][0] == s[1..2][0];
    if scratch[1] != SYNC_BYTE_1 {
      return Drop(S.NotSync);
    }
    if available < HEADER_SIZE {
      return Wait;
    }
    ok := ring.Peek(0, scratch, 0, HEADER_SIZE);
    assert scratch[..HEADER_SIZE] == scratch[0..HEADER_SIZE] == s[..HEADER_SIZE];
    var payloadLength := DeclaredLength(scratch[..HEADER_SIZE]);
    assert payloadLength == DeclaredLength(s);
    if payloadLength > MAX_PAYLOAD_SIZE {
      return Drop(S.Oversized);
    }
    var frameSize: SizeT := MIN_ENCODED_SIZE + payloadLength;
    if available < frameSize {
      return Wait;
    }
    ok := ring.Peek(0, scratch, 0, frameSize);
    assert scratch[..frameSize] == scratch[0..frameSize] == s[..frameSize];
    var decoded := Decode(scratch, frameSize, frame);
    return if decoded == CodecResult.Ok then Take(frameSize) else Drop(S.Undecodable(decoded));
  }

  /** Drops the candidate's first byte and counts why. */
  method DropCandidate(ring: Ring, stats: ParserStats?, reason: S.SkipReason)
    requires ring.Valid() && ring.Contents() != []
    modifies ring`readIndex, ring`used, stats
    ensures ring.Valid() && ring.Contents() == old(ring.Contents())[1..]
    ensures stats != null ==> stats.Values() == old(stats.Values()).Plus(S.OneSkip(reason))
  {
    if stats != null {
      match reason
      case NotSync =>
      case Oversized =>
        stats.oversizedLengthCandidates := Increment(stats.oversizedLengthCandidates);
      case Undecodable(cause) =>
        stats.decodeErrors := Increment(stats.decodeErrors);
        if cause == CrcMismatch {
          stats.crcErrors := Increment(stats.crcErrors);
        }
    }
    DiscardOne(ring, stats);
  }

  /**
   Extracts the next frame from the ring. Both public entries share it; `stats` may be
   absent. The scanner over the ring's contents says what it finds, keeps and counts.
   */
  method NextInternal(ring: Ring, scratch: array<Byte>, scratchCapacity: SizeT,
                      frame: FrameSlot, stats: ParserStats?)
    returns (result: ParserResult)
    requires ring.HasMemory() && scratch != ring.storage
    requires scratchCapacity <= scratch.Length
    modifies ring`readIndex, ring`used, scratch, frame, stats
    ensures result == ScratchTooSmall <==> scratchCapacity < MAX_ENCODED_SIZE
    ensures result == RingError <==> scratchCapacity >= MAX_ENCODED_SIZE && !old(ring.Valid())
    ensures result == RingTooSmall <==>
              scratchCapacity >= MAX_ENCODED_SIZE && old(ring.Valid()) && ring.capacity < MAX_ENCODED_SIZE
    ensures result != FrameReady && result != NeedMoreData ==>
              unchanged(ring) && unchanged(frame) && (stats != null ==> unchanged(stats))
    ensures result == FrameReady || result == NeedMoreData ==>
              var o := S.Next(old(ring.Contents()));
              && ring.Valid() && ring.Contents() == o.rest
              && result == (if o.Ready? then FrameReady else NeedMoreData)
              && frame.value == (if o.Ready? then o.frame else old(frame.value))
              && (stats != null ==> stats.Values() == old(stats.Values()).Plus(o.tally))
  {
    hide S.Decide;
    hide S.Next;
    hide S.OneSkip;
    hide S.Tally.Plus;
    hide AdvanceIndex;
    hide Window;
    if scratchCapacity < MAX_ENCODED_SIZE {
      return ScratchTooSmall;
    }
    var ok := ring.Peek(0, scratch, 0, 0);
    if ok != RingResult.Ok {
      return RingError;
    }
    if ring.capacity < MAX_ENCODED_SIZE {
      return RingTooSmall;
    }
    ghost var sofar := S.NOTHING;
    S.NothingIsNeutral(S.Next(ring.Contents()), sofar);
    while true
      invariant ring.Valid() && frame.value == old(frame.value)
      invariant S.Next(old(ring.Contents())) == S.Next(ring.Contents()).After(sofar)
      invariant stats != null ==> stats.Values() == old(stats.Values()).Plus(sofar)
      decreases ring.used
    {
      S.NextStep(ring.Contents());
      S.NothingIsNeutral(S.Next(ring.Contents()), sofar);
      var v := Examine(ring, scratch, frame);
      match v
      case Wait =>
        return NeedMoreData;
      case Drop(reason) =>
        ghost var next := S.Next(ring.Contents()[1..]);
        S.AfterTwice(next, sofar, S.OneSkip(reason));
        if stats != null {
          PlusTwice(old(stats.Values()), sofar, S.OneSkip(reason));
        }
        DropCandidate(ring, stats, reason);
        sofar := sofar.Plus(S.OneSkip(reason));
      case Take(size) =>
        if stats != null {
          PlusTwice(old(stats.Values()), sofar, S.ONE_FRAME);
        }
        ok := ring.Discard(size);
        if stats != null {
          stats.framesReady := Increment(stats.framesReady);
        }
        return FrameReady;
    }
  }

  /** The entry that keeps statistics: each counter by itself, up to its maximum. */
  method NextWithStats(ring: Ring, scratch: array<Byte>, scratchCapacity: SizeT,
                       frame: FrameSlot, stats: ParserStats)
    returns (result: ParserResult)
    requires ring.HasMemory() && scratch != ring.storage
    requires scratchCapacity <= scratch.Length
    modifies ring`readIndex, ring`used, scratch, frame, stats
    ensures result == FrameReady || result == NeedMoreData ==> old(ring.Valid())
    ensures result == FrameReady || result == NeedMoreData ==>
              var o := S.Next(old(ring.Contents()));
              && ring.Valid() && ring.Contents() == o.rest
              && result == (if o.Ready? then FrameReady else NeedMoreData)
              && frame.value == (if o.Ready? then o.frame else old(frame.value))
              && stats.framesReady == Min(old(stats.framesReady) + o.tally.framesReady, U64_MAX)
              && stats.discardedBytes == Min(old(stats.discardedBytes) + o.tally.discardedBytes, U64_MAX)
              && stats.oversizedLengthCandidates
              == Min(old(stats.oversizedLengthCandidates) + o.tally.oversized, U64_MAX)
              && stats.decodeErrors == Min(old(stats.decodeErrors) + o.tally.decodeErrors, U64_MAX)
              && stats.crcErrors == Min(old(stats.crcErrors) + o.tally.crcErrors, U64_MAX)
    ensures result != FrameReady && result != NeedMoreData ==> unchanged(ring) && unchanged(frame) && unchanged(stats)
  {
    hide S.Next, S.Decide, AdvanceIndex, Window;
    result := NextInternal(ring, scratch, scratchCapacity, frame, stats);
  }
}
