/**
 The stream scanner on byte sequences: what the incremental parser does, without its ring
 buffer. A run over a stream does not depend on how the stream was cut into chunks, finds
 every frame between runs of garbage, and accounts for every byte.
 */
module Scanner {
  import opened Machine
  import opened Frames
  import opened Codec
  import opened WireProperties
  import Crc

  datatype SkipReason = NotSync | Oversized | Undecodable(cause: CodecResult)

  /** What the bytes at the front of the stream allow the scanner to do next. */
  datatype Decision = More | Skip(reason: SkipReason) | Accept(frame: Frame, size: nat)

  function Decide(s: seq<Byte>): (d: Decision)
    ensures d.Skip? ==> s != []
    ensures d.Accept? ==> MIN_ENCODED_SIZE <= d.size <= |s|
  {
    if s == [] then More
    else if s[0] != SYNC_BYTE_0 then Skip(NotSync)
    else if |s| < 2 then More
    else if s[1] != SYNC_BYTE_1 then Skip(NotSync)
    else if |s| < HEADER_SIZE then More
    else if DeclaredLength(s) > MAX_PAYLOAD_SIZE then Skip(Oversized)
    else
      var size := MIN_ENCODED_SIZE + DeclaredLength(s);
      if |s| < size then More
      else
        var check := DecodeCheck(s[..size]);
        if check == Ok then Accept(Decoded(s[..size]), size) else Skip(Undecodable(check))
  }

  /** The diagnostic counts of a stretch of scanning. */
  datatype Tally = Tally(framesReady: nat, discardedBytes: nat, oversized: nat,
                         decodeErrors: nat, crcErrors: nat)
  {
    function Plus(other: Tally): Tally {
      Tally(framesReady + other.framesReady, discardedBytes + other.discardedBytes,
            oversized + other.oversized, decodeErrors + other.decodeErrors,
            crcErrors + other.crcErrors)
    }
  }

  const NOTHING := Tally(0, 0, 0, 0, 0)
  const ONE_FRAME := Tally(1, 0, 0, 0, 0)

  function OneSkip(reason: SkipReason): Tally {
    match reason
    case NotSync => Tally(0, 1, 0, 0, 0)
    case Oversized => Tally(0, 1, 1, 0, 0)
    case Undecodable(cause) => Tally(0, 1, 0, 1, if cause == CrcMismatch then 1 else 0)
  }

  /** The outcome of one call: the first frame found, or the bytes that must wait for more. */
  datatype Outcome =
    | Ready(frame: Frame, rest: seq<Byte>, tally: Tally)
    | Pending(rest: seq<Byte>, tally: Tally)
  {
    function After(before: Tally): Outcome {
      this.(tally := before.Plus(tally))
    }
  }

  function Next(s: seq<Byte>): (o: Outcome)
    ensures o.Ready? ==> |o.rest| < |s|
    decreases |s|
  {
    match Decide(s)
    case More => Pending(s, NOTHING)
    case Skip(reason) => Next(s[1..]).After(OneSkip(reason))
    case Accept(frame, size) => Ready(frame, s[size..], ONE_FRAME)
  }

  /** The defining equation, one decision at a time. */
  lemma NextStep(s: seq<Byte>)
    ensures Decide(s) == More ==> Next(s) == Pending(s, NOTHING)
    ensures Decide(s).Skip? ==> Next(s) == Next(s[1..]).After(OneSkip(Decide(s).reason))
    ensures Decide(s).Accept? ==> Next(s) == Ready(Decide(s).frame, s[Decide(s).size..], ONE_FRAME)
  {
    hide Decide;
  }

  lemma NothingIsNeutral(o: Outcome, t: Tally)
    ensures o.After(NOTHING) == o && t.Plus(NOTHING) == t
  {
  }

  lemma AfterTwice(o: Outcome, a: Tally, b: Tally)
    ensures o.After(b).After(a) == o.After(a.Plus(b))
  {
  }

  /** Everything repeated calls deliver until one asks for more data. */
  datatype Run = Run(frames: seq<Frame>, rest: seq<Byte>, tally: Tally) {
    /** This run continued by another one. */
    function Then(next: Run): Run {
      Run(frames + next.frames, next.rest, tally.Plus(next.tally))
    }
  }

  function Found(frames: seq<Frame>, tally: Tally): Run {
    Run(frames, [], tally)
  }

  function Drain(s: seq<Byte>): Run
    decreases |s|
  {
    match Decide(s)
    case More => Run([], s, NOTHING)
    case Skip(reason) => Found([], OneSkip(reason)).Then(Drain(s[1..]))
    case Accept(frame, size) => Found([frame], ONE_FRAME).Then(Drain(s[size..]))
  }

  /** The defining equation, one decision at a time. */
  lemma DrainStep(s: seq<Byte>)
    ensures Decide(s) == More ==> Drain(s) == Run([], s, NOTHING)
    ensures Decide(s).Skip? ==> Drain(s) == Found([], OneSkip(Decide(s).reason)).Then(Drain(s[1..]))
    ensures Decide(s).Accept? ==>
              Drain(s) == Found([Decide(s).frame], ONE_FRAME).Then(Drain(s[Decide(s).size..]))
  {
    hide Decide;
  }

  lemma ThenAssociative(a: Run, b: Run, c: Run)
    ensures a.Then(b).Then(c) == a.Then(b.Then(c))
  {
    assert a.frames + b.frames + c.frames == a.frames + (b.frames + c.frames);
  }

  /** Repeated calls until one asks for more data. */
  function Calls(o: Outcome): Run {
    match o
    case Pending(rest, tally) => Run([], rest, tally)
    case Ready(frame, rest, tally) => Found([frame], tally).Then(Drain(rest))
  }

  lemma CallsAfter(o: Outcome, before: Tally)
    ensures Calls(o.After(before)) == Found([], before).Then(Calls(o))
  {
    match o
    case Pending(rest, tally) =>
    case Ready(frame, rest, tally) =>
      ThenAssociative(Found([], before), Found([frame], tally), Drain(rest));
  }

  /** A run is the first call's outcome and then the run over what it left. */
  lemma {:induction false} DrainIsCalls(s: seq<Byte>)
    ensures Drain(s) == Calls(Next(s))
    decreases |s|
  {
    hide Decide;
    match Decide(s)
    case More =>
    case Skip(reason) =>
      DrainIsCalls(s[1..]);
      CallsAfter(Next(s[1..]), OneSkip(reason));
    case Accept(frame, size) =>
  }

  // ----- Chunking ----------------------------------------------------------------------------

  /** Once made, a decision does not depend on the bytes that arrive later. */
  lemma DecisionStable(s: seq<Byte>, t: seq<Byte>)
    requires Decide(s) != More
    ensures Decide(s + t) == Decide(s)
  {
    hide DecodeCheck;
    hide Decoded;
    var u := s + t;
    assert u[0] == s[0];
    if |s| >= 2 {
      assert u[1] == s[1];
    }
    if |s| >= HEADER_SIZE {
      assert u[6] == s[6] && u[7] == s[7];
      var size := MIN_ENCODED_SIZE + DeclaredLength(s);
      if size <= |s| {
        assert u[..size] == s[..size];
      }
    }
  }

  /** A run's frames and counts, without what it retains. */
  function Head(r: Run): Run {
    Found(r.frames, r.tally)
  }

  lemma HeadThen(a: Run, b: Run, c: Run)
    ensures Head(a.Then(b)).Then(c) == Found(a.frames, a.tally).Then(Head(b).Then(c))
  {
    assert a.frames + b.frames + c.frames == a.frames + (b.frames + c.frames);
  }

  lemma HeadOfNothing(s: seq<Byte>, c: Run)
    ensures Head(Run([], s, NOTHING)).Then(c) == c
  {
    assert [] + c.frames == c.frames;
  }

  /** Draining a chunk first and the rest later changes neither the frames nor the counts. */
  lemma {:induction false} DrainSplit(s: seq<Byte>, t: seq<Byte>)
    ensures Drain(s + t) == Head(Drain(s)).Then(Drain(Drain(s).rest + t))
    decreases |s|
  {
    hide Decide;
    hide Head;
    hide Run.Then;
    match Decide(s)
    case More =>
      HeadOfNothing(s, Drain(s + t));
    case Skip(reason) =>
      DecisionStable(s, t);
      DrainSplitStep(s, t, 1, Found([], OneSkip(reason)));
    case Accept(frame, size) =>
      DecisionStable(s, t);
      DrainSplitStep(s, t, size, Found([frame], ONE_FRAME));
  }

  lemma {:induction false} DrainSplitStep(s: seq<Byte>, t: seq<Byte>, n: nat, first: Run)
    requires 0 < n <= |s| && first.rest == []
    requires Drain(s) == first.Then(Drain(s[n..]))
    requires Drain(s + t) == first.Then(Drain((s + t)[n..]))
    ensures Drain(s + t) == Head(Drain(s)).Then(Drain(Drain(s).rest + t))
    decreases |s|, 0
  {
    hide Drain;
    assert (s + t)[n..] == s[n..] + t;
    DrainSplit(s[n..], t);
    HeadThen(first, Drain(s[n..]), Drain(Drain(s).rest + t));
  }

  /** A frame found in a chunk is found, with the same rest plus the later bytes, in the whole. */
  lemma {:induction false} NextStable(s: seq<Byte>, t: seq<Byte>)
    requires Next(s).Ready?
    ensures Next(s + t) == Ready(Next(s).frame, Next(s).rest + t, Next(s).tally)
    decreases |s|
  {
    hide Decide;
    hide Next;
    NextStep(s);
    DecisionStable(s, t);
    NextStep(s + t);
    match Decide(s)
    case Skip(reason) =>
      assert (s + t)[1..] == s[1..] + t;
      NextStable(s[1..], t);
    case Accept(frame, size) =>
      assert (s + t)[size..] == s[size..] + t;
  }

  /** One call and later bytes: the frames still to come are those of what the call left. */
  lemma FramesAfterCall(s: seq<Byte>, t: seq<Byte>)
    ensures var o := Next(s);
            && Drain(s + t).rest == Drain(o.rest + t).rest
            && Drain(s + t).frames == (if o.Ready? then [o.frame] else []) + Drain(o.rest + t).frames
  {
    hide Next;
    hide Drain;
    if Next(s).Ready? {
      NextStable(s, t);
      DrainIsCalls(s + t);
    } else {
      DrainIsCalls(s);
      DrainSplit(s, t);
    }
  }

  function Joined(chunks: seq<seq<Byte>>): seq<Byte> {
    if chunks == [] then [] else chunks[0] + Joined(chunks[1..])
  }

  /** Draining after each chunk, starting from bytes already retained. */
  function DrainChunks(retained: seq<Byte>, chunks: seq<seq<Byte>>): Run
    decreases |chunks|
  {
    if chunks == [] then Drain(retained)
    else
      var d := Drain(retained);
      Head(d).Then(DrainChunks(d.rest + chunks[0], chunks[1..]))
  }

  /** However a stream is cut, draining chunk by chunk equals draining it whole. */
  lemma {:induction false} ChunkingInvariance(retained: seq<Byte>, chunks: seq<seq<Byte>>)
    ensures DrainChunks(retained, chunks) == Drain(retained + Joined(chunks))
    decreases |chunks|
  {
    hide Drain;
    hide Run.Then;
    if chunks == [] {
      assert retained + Joined(chunks) == retained;
    } else {
      var d := Drain(retained);
      ChunkingInvariance(d.rest + chunks[0], chunks[1..]);
      DrainSplit(retained, Joined(chunks));
      assert d.rest + Joined(chunks) == d.rest + chunks[0] + Joined(chunks[1..]);
    }
  }

  lemma WaitingIsShort(s: seq<Byte>)
    requires Decide(s) == More
    ensures |s| < MAX_ENCODED_SIZE
  {
    hide DecodeCheck;
    hide Decoded;
  }

  /** What a run retains is a waiting suffix, shorter than the longest frame. */
  lemma {:induction false} RetainedWaits(s: seq<Byte>)
    ensures var rest := Drain(s).rest;
            && Decide(rest) == More && |rest| < MAX_ENCODED_SIZE
            && |rest| <= |s| && rest == s[|s| - |rest|..]
    decreases |s|
  {
    hide Decide;
    hide Drain;
    DrainStep(s);
    match Decide(s)
    case More =>
      WaitingIsShort(s);
    case Skip(reason) =>
      RetainedWaits(s[1..]);
      SuffixOfSuffix(s, 1, |s| - |Drain(s).rest|);
    case Accept(frame, size) =>
      RetainedWaits(s[size..]);
      SuffixOfSuffix(s, size, |s| - |Drain(s).rest|);
  }

  lemma SuffixOfSuffix(s: seq<Byte>, n: nat, k: nat)
    requires n <= k <= |s|
    ensures s[n..][k - n..] == s[k..]
  {
  }

  // ----- Resynchronisation -------------------------------------------------------------------

  lemma AcceptEncoded(f: Frame, t: seq<Byte>)
    requires Encodable(f)
    ensures Decide(Encoded(f) + t) == Accept(Normalised(f), EncodedSize(f))
  {
    hide Checksum;
    hide DecodeCheck;
    hide Decoded;
    var s := Encoded(f) + t;
    DecodeEncoded(f);
    DeclaredLengthOfEncoded(f, t);
    assert s[0] == Body(f)[0] && s[1] == Body(f)[1];
    assert s[..EncodedSize(f)] == Encoded(f);
  }

  lemma DrainEncoded(f: Frame, t: seq<Byte>)
    requires Encodable(f)
    ensures Drain(Encoded(f) + t) == Found([Normalised(f)], ONE_FRAME).Then(Drain(t))
  {
    hide Encoded;
    AcceptEncoded(f, t);
    assert (Encoded(f) + t)[EncodedSize(f)..] == t;
  }

  /** Noise in which the two sync bytes never stand side by side. */
  ghost predicate SyncFree(g: seq<Byte>) {
    forall i :: 0 <= i < |g| - 1 ==> !SyncAt(g, i)
  }

  predicate SyncAt(g: seq<Byte>, i: nat)
    requires i + 1 < |g|
  {
    g[i] == SYNC_BYTE_0 && g[i + 1] == SYNC_BYTE_1
  }

  lemma SyncFreeTail(g: seq<Byte>)
    requires SyncFree(g) && g != []
    ensures SyncFree(g[1..])
    ensures |g| >= 2 ==> g[0] != SYNC_BYTE_0 || g[1] != SYNC_BYTE_1
  {
    forall i | 0 <= i < |g| - 2 ensures !SyncAt(g[1..], i) {
      assert !SyncAt(g, i + 1);
    }
    if |g| >= 2 {
      assert !SyncAt(g, 0);
    }
  }

  function Discarded(n: nat): Tally {
    Tally(0, n, 0, 0, 0)
  }

  lemma NoSyncSkips(s: seq<Byte>)
    requires s != [] && (s[0] != SYNC_BYTE_0 || (|s| >= 2 && s[1] != SYNC_BYTE_1))
    ensures Decide(s) == Skip(NotSync)
  {
  }

  lemma EncodedStart(f: Frame)
    requires Encodable(f)
    ensures Encoded(f)[0] == SYNC_BYTE_0 && Encoded(f)[1] == SYNC_BYTE_1
  {
    hide Checksum;
    assert Encoded(f)[0] == Body(f)[0] && Encoded(f)[1] == Body(f)[1];
  }

  lemma NoiseByteSkips(g: seq<Byte>, f: Frame, t: seq<Byte>)
    requires SyncFree(g) && Encodable(f) && g != []
    ensures var s := g + Encoded(f) + t;
            Decide(s) == Skip(NotSync) && s[1..] == g[1..] + Encoded(f) + t
  {
    hide Decide;
    hide Encoded;
    var s := g + Encoded(f) + t;
    EncodedStart(f);
    SyncFreeTail(g);
    assert s[0] == g[0] && s[1] == if |g| > 1 then g[1] else SYNC_BYTE_0;
    NoSyncSkips(s);
  }

  /** Noise before a frame is dropped byte for byte, even when it ends in the first sync byte. */
  lemma {:induction false} NoiseThenFrame(g: seq<Byte>, f: Frame, t: seq<Byte>)
    requires SyncFree(g) && Encodable(f)
    ensures Drain(g + Encoded(f) + t) == Found([Normalised(f)], Discarded(|g|).Plus(ONE_FRAME)).Then(Drain(t))
    decreases |g|
  {
    hide Decide;
    hide Encoded;
    hide Drain;
    hide Normalised;
    if g == [] {
      assert g + Encoded(f) + t == Encoded(f) + t;
      DrainEncoded(f, t);
    } else {
      NoiseByteDrains(g, f, t);
      NoiseThenFrame(g[1..], f, t);
      OneMoreDiscarded(|g|, Normalised(f), Drain(t));
    }
  }

  lemma NoiseByteDrains(g: seq<Byte>, f: Frame, t: seq<Byte>)
    requires SyncFree(g) && Encodable(f) && g != []
    ensures Drain(g + Encoded(f) + t) == Found([], Discarded(1)).Then(Drain(g[1..] + Encoded(f) + t))
    ensures SyncFree(g[1..])
  {
    hide Decide;
    hide Encoded;
    hide Drain;
    SyncFreeTail(g);
    NoiseByteSkips(g, f, t);
    DrainStep(g + Encoded(f) + t);
  }

  lemma OneMoreDiscarded(n: nat, f: Frame, d: Run)
    requires n > 0
    ensures Found([], Discarded(1)).Then(Found([f], Discarded(n - 1).Plus(ONE_FRAME)).Then(d))
         == Found([f], Discarded(n).Plus(ONE_FRAME)).Then(d)
  {
    var found := Found([f], Discarded(n - 1).Plus(ONE_FRAME));
    ThenAssociative(Found([], Discarded(1)), found, d);
    assert Found([], Discarded(1)).Then(found) == Found([f], Discarded(n).Plus(ONE_FRAME));
  }

  /** Frames with a run of noise before each, then whatever follows. */
  function Interleaved(noise: seq<seq<Byte>>, frames: seq<Frame>, tail: seq<Byte>): seq<Byte>
    requires |noise| == |frames| && AllEncodable(frames)
  {
    if frames == [] then tail
    else noise[0] + Encoded(frames[0]) + Interleaved(noise[1..], frames[1..], tail)
  }

  /** The scanner delivers exactly the frames and drops exactly the noise before the tail. */
  lemma {:induction false} Resynchronises(noise: seq<seq<Byte>>, frames: seq<Frame>, tail: seq<Byte>)
    requires |noise| == |frames| && AllEncodable(frames)
    requires forall i :: 0 <= i < |noise| ==> SyncFree(noise[i])
    ensures Drain(Interleaved(noise, frames, tail))
         == Found(NormalisedAll(frames), Tally(|frames|, |Joined(noise)|, 0, 0, 0)).Then(Drain(tail))
    decreases |frames|
  {
    hide Drain;
    hide Normalised;
    hide Encoded;
    if frames == [] {
      assert Found([], NOTHING).Then(Drain(tail)) == Drain(tail);
      assert NormalisedAll(frames) == [];
    } else {
      var later := Tally(|frames| - 1, |Joined(noise[1..])|, 0, 0, 0);
      NoiseThenFrame(noise[0], frames[0], Interleaved(noise[1..], frames[1..], tail));
      Resynchronises(noise[1..], frames[1..], tail);
      ThenAssociative(Found([Normalised(frames[0])], Discarded(|noise[0]|).Plus(ONE_FRAME)),
                      Found(NormalisedAll(frames[1..]), later), Drain(tail));
      assert NormalisedAll(frames) == [Normalised(frames[0])] + NormalisedAll(frames[1..]);
    }
  }

  lemma LoneSyncByteWaits(s: seq<Byte>)
    requires s == [SYNC_BYTE_0]
    ensures Decide(s) == More
  {
  }

  /** The part of trailing noise that may still start a frame. */
  function Kept(g: seq<Byte>): seq<Byte> {
    if g != [] && g[|g| - 1] == SYNC_BYTE_0 then [SYNC_BYTE_0] else []
  }

  lemma NoiseByteDropped(g: seq<Byte>, n: nat)
    requires Decide(g) == Skip(NotSync)
    requires Drain(g[1..]) == Run([], Kept(g), Discarded(n))
    ensures Drain(g) == Run([], Kept(g), Discarded(n + 1))
  {
    hide Decide;
    hide Drain;
    hide Kept;
    DrainStep(g);
  }

  /** Noise at the end is dropped too, but for a final byte that may start a frame. */
  lemma {:induction false} NoiseAtTheEnd(g: seq<Byte>)
    requires SyncFree(g)
    ensures Drain(g) == Run([], Kept(g), Discarded(|g| - |Kept(g)|))
    decreases |g|
  {
    hide Decide;
    hide Drain;
    if g == [] {
      DrainNothing();
    } else if g == [SYNC_BYTE_0] {
      LoneSyncByteWaits(g);
      DrainStep(g);
    } else {
      SyncFreeTail(g);
      NoSyncSkips(g);
      NoiseAtTheEnd(g[1..]);
      NoiseByteDropped(g, |g| - 1 - |Kept(g)|);
    }
  }

  lemma DrainNothing()
    ensures Drain([]) == Run([], [], NOTHING)
  {
  }

  /** Without noise: a concatenation of encodings drains to its frames. */
  lemma {:induction false} ConcatenationDrains(frames: seq<Frame>)
    requires AllEncodable(frames)
    ensures Drain(Concatenated(frames)) == Run(NormalisedAll(frames), [], Tally(|frames|, 0, 0, 0, 0))
    decreases |frames|
  {
    hide Drain;
    hide Normalised;
    hide Encoded;
    if frames == [] {
      DrainNothing();
    } else {
      DrainEncoded(frames[0], Concatenated(frames[1..]));
      ConcatenationDrains(frames[1..]);
      assert NormalisedAll(frames) == [Normalised(frames[0])] + NormalisedAll(frames[1..]);
    }
  }

  /** Position `p` of the stream starts an accepted frame or lies inside one. */
  ghost predicate FrameCovers(s: seq<Byte>, p: nat)
    decreases |s|
  {
    match Decide(s)
    case More => false
    case Skip(_) => p > 0 && FrameCovers(s[1..], p - 1)
    case Accept(_, size) => p < size || FrameCovers(s[size..], p - size)
  }

  /**
   Whatever precedes it, a genuine encoding is never discarded as noise and never left
   waiting once a frame's worth of bytes follows: it is accepted, unless its first byte
   already belongs to another accepted frame.
   */
  lemma {:induction false} GenuineFrameCovered(a: seq<Byte>, f: Frame, t: seq<Byte>)
    requires Encodable(f) && |t| >= MAX_ENCODED_SIZE
    ensures FrameCovers(a + Encoded(f) + t, |a|)
    decreases |a|
  {
    hide Decide;
    hide Encoded;
    var s := a + Encoded(f) + t;
    if a == [] {
      assert s == Encoded(f) + t;
      AcceptEncoded(f, t);
    } else {
      match Decide(s)
      case More =>
        WaitingIsShort(s);
      case Skip(_) =>
        assert s[1..] == a[1..] + Encoded(f) + t;
        GenuineFrameCovered(a[1..], f, t);
      case Accept(_, size) =>
        if size <= |a| {
          assert s[size..] == a[size..] + Encoded(f) + t;
          GenuineFrameCovered(a[size..], f, t);
        }
    }
  }

  // ----- Accounting ----------------------------------------------------------------------------

  function EncodedBytes(frames: seq<Frame>): nat {
    if frames == [] then 0 else EncodedSize(frames[0]) + EncodedBytes(frames[1..])
  }

  lemma AcceptedSize(s: seq<Byte>)
    requires Decide(s).Accept?
    ensures Encodable(Decide(s).frame) && Decide(s).size == EncodedSize(Decide(s).frame)
    ensures Encoded(Decide(s).frame) == s[..Decide(s).size]
  {
    hide DecodeCheck;
    var size := MIN_ENCODED_SIZE + DeclaredLength(s);
    assert DecodeCheck(s[..size]) == Ok && Decide(s) == Accept(Decoded(s[..size]), size);
    EncodeDecoded(s[..size]);
  }

  /** Which bytes at the front lead to which decision. */
  lemma DecisionsExactly(s: seq<Byte>)
    ensures Decide(s) == Skip(NotSync) <==>
              s != [] && (s[0] != 0xAA || (|s| >= 2 && s[1] != 0x55))
    ensures Decide(s) == Skip(Oversized) <==>
              |s| >= 8 && s[0] == 0xAA && s[1] == 0x55 && Word(s[6], s[7]) > MAX_PAYLOAD_SIZE
    ensures Decide(s).Skip? && Decide(s).reason.Undecodable? <==> CompleteCandidate(s) && !Intact(Front(s))
    ensures Decide(s) == Skip(Undecodable(CrcMismatch)) <==>
              CompleteCandidate(s) && s[2] == 0x01 && s[3] in {0x01, 0x02, 0x03, 0x04} && !Intact(Front(s))
    ensures Decide(s).Accept? <==> CompleteCandidate(s) && Intact(Front(s))
    ensures Decide(s).Accept? ==> Decide(s).size == 10 + Word(s[6], s[7])
    ensures Decide(s) == More <==>
              || s == []
              || (|s| == 1 && s[0] == 0xAA)
              || (2 <= |s| < 8 && s[0] == 0xAA && s[1] == 0x55)
              || (|s| >= 8 && s[0] == 0xAA && s[1] == 0x55
                  && Word(s[6], s[7]) <= MAX_PAYLOAD_SIZE && |s| < 10 + Word(s[6], s[7]))
  {
    hide Crc.Crc16, Decoded;
    if CompleteCandidate(s) {
      RejectionsExactly(Front(s));
      hide DecodeCheck;
    }
  }

  /** A sync pattern, a length within the limit, and as many bytes as that length asks for. */
  predicate CompleteCandidate(s: seq<Byte>) {
    && |s| >= 8 && s[0] == 0xAA && s[1] == 0x55
    && Word(s[6], s[7]) <= MAX_PAYLOAD_SIZE && |s| >= 10 + Word(s[6], s[7])
  }

  /** The bytes of the candidate. */
  function Front(s: seq<Byte>): (b: seq<Byte>)
    requires CompleteCandidate(s)
  {
    s[..10 + Word(s[6], s[7])]
  }

  /** The stretches of the stream the scanner looks at from its front, one for each byte it drops. */
  function Dropped(s: seq<Byte>): seq<seq<Byte>>
    decreases |s|
  {
    match Decide(s)
    case More => []
    case Skip(_) => [s] + Dropped(s[1..])
    case Accept(_, size) => Dropped(s[size..])
  }

  /** The front is dropped because its length field is too large. */
  predicate TooLong(s: seq<Byte>) {
    |s| >= 8 && s[0] == 0xAA && s[1] == 0x55 && Word(s[6], s[7]) > MAX_PAYLOAD_SIZE
  }

  predicate Undecoded(s: seq<Byte>) {
    CompleteCandidate(s) && !Intact(Front(s))
  }

  predicate WrongChecksum(s: seq<Byte>) {
    Undecoded(s) && s[2] == 0x01 && s[3] in {0x01, 0x02, 0x03, 0x04}
  }

  datatype Cause = TooLongCause | UndecodedCause | ChecksumCause

  predicate Because(s: seq<Byte>, cause: Cause) {
    match cause
    case TooLongCause => TooLong(s)
    case UndecodedCause => Undecoded(s)
    case ChecksumCause => WrongChecksum(s)
  }

  function HowMany(dropped: seq<seq<Byte>>, cause: Cause): nat {
    if dropped == [] then 0 else (if Because(dropped[0], cause) then 1 else 0) + HowMany(dropped[1..], cause)
  }

  lemma SkipCounts(s: seq<Byte>)
    requires Decide(s).Skip?
    ensures var t := OneSkip(Decide(s).reason);
            && t.framesReady == 0 && t.discardedBytes == 1
            && t.oversized == (if Because(s, TooLongCause) then 1 else 0)
            && t.decodeErrors == (if Because(s, UndecodedCause) then 1 else 0)
            && t.crcErrors == (if Because(s, ChecksumCause) then 1 else 0)
  {
    DecisionsExactly(s);
    hide Decide, Intact;
  }

  /** Each counter is the number of dropped bytes with its cause, and every dropped byte is counted. */
  lemma {:induction false} TallyCounts(s: seq<Byte>)
    ensures var t := Drain(s).tally;
            && t.discardedBytes == |Dropped(s)|
            && t.oversized == HowMany(Dropped(s), TooLongCause)
            && t.decodeErrors == HowMany(Dropped(s), UndecodedCause)
            && t.crcErrors == HowMany(Dropped(s), ChecksumCause)
            && t.framesReady == |Drain(s).frames|
    decreases |s|
  {
    hide Decide, Because, OneSkip;
    match Decide(s)
    case More =>
    case Skip(reason) =>
      SkipCounts(s);
      TallyCounts(s[1..]);
      assert Dropped(s)[1..] == Dropped(s[1..]);
    case Accept(frame, size) =>
      TallyCounts(s[size..]);
  }

  /** A complete candidate can fail only in its version, its type or its checksum. */
  lemma FailureCauses(s: seq<Byte>)
    requires Decide(s).Skip? && Decide(s).reason.Undecodable?
    ensures Decide(s).reason.cause in {UnsupportedVersion, InvalidType, CrcMismatch}
  {
    hide Checksum;
    var b := s[..MIN_ENCODED_SIZE + DeclaredLength(s)];
    assert b[0] == s[0] && b[1] == s[1] && b[6] == s[6] && b[7] == s[7];
  }

  /** Every byte is discarded, part of a delivered frame, or retained. */
  lemma {:induction false} EveryByteAccounted(s: seq<Byte>)
    ensures var d := Drain(s);
            && |s| == d.tally.discardedBytes + EncodedBytes(d.frames) + |d.rest|
            && d.tally.framesReady == |d.frames|
            && d.tally.decodeErrors + d.tally.oversized <= d.tally.discardedBytes
            && d.tally.crcErrors <= d.tally.decodeErrors
    decreases |s|
  {
    hide Decide;
    match Decide(s)
    case More =>
    case Skip(reason) =>
      EveryByteAccounted(s[1..]);
      assert Drain(s).frames == Drain(s[1..]).frames;
    case Accept(frame, size) =>
      AcceptedSize(s);
      EveryByteAccounted(s[size..]);
      assert Drain(s).frames[1..] == Drain(s[size..]).frames;
  }
}
