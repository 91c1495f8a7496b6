/** Encoding one frame into bytes and decoding exactly one frame from bytes. */
module Codec {
  import opened Machine
  import opened Frames
  import opened BitPolynomials
  import opened Words
  import opened Crc

  datatype CodecResult =
    | Ok
    | UnsupportedVersion
    | InvalidType
    | PayloadTooLarge
    | OutputTooSmall
    | InputTooSmall
    | InvalidSync
    | LengthMismatch
    | CrcMismatch

  function EncodedSize(f: Frame): (size: nat) {
    MIN_ENCODED_SIZE + f.payloadLength
  }

  function Header(f: Frame): (b: seq<Byte>)
    ensures |b| == HEADER_SIZE
  {
    [SYNC_BYTE_0, SYNC_BYTE_1, f.version, f.kind,
     HighByte(f.sequence), LowByte(f.sequence),
     HighByte(f.payloadLength), LowByte(f.payloadLength)]
  }

  /** Everything up to the checksum. */
  function Body(f: Frame): (b: seq<Byte>)
    requires f.payloadLength <= MAX_PAYLOAD_SIZE
    ensures |b| == HEADER_SIZE + f.payloadLength
  {
    Header(f) + f.payload[..f.payloadLength]
  }

  /** The checksum covers version, type, sequence, length and payload. */
  function Checksum(body: seq<Byte>): U16
    requires |body| >= VERSION_OFFSET
  {
    Crc16(body[VERSION_OFFSET..])
  }

  /** The encoding of a frame. */
  function Encoded(f: Frame): (b: seq<Byte>)
    requires Encodable(f)
    ensures |b| == EncodedSize(f)
  {
    var crc := Checksum(Body(f));
    Body(f) + [HighByte(crc), LowByte(crc)]
  }

  /** Which check of the encoder fails first, in its order. */
  function EncodeCheck(f: Frame, capacity: nat): (r: CodecResult)
    ensures r == Ok <==> Encodable(f) && EncodedSize(f) <= capacity
  {
    if f.version != VERSION then UnsupportedVersion
    else if !TypeIsValid(f.kind) then InvalidType
    else if f.payloadLength > MAX_PAYLOAD_SIZE then PayloadTooLarge
    else if capacity < EncodedSize(f) then OutputTooSmall
    else Ok
  }

  function DeclaredLength(b: seq<Byte>): (n: U16)
    requires |b| >= HEADER_SIZE
  {
    FromBigEndian(b[PAYLOAD_LENGTH_OFFSET], b[PAYLOAD_LENGTH_OFFSET + 1])
  }

  /** The input is as long as the length field in it says, within the limit. */
  predicate WellSized(b: seq<Byte>) {
    && |b| >= MIN_ENCODED_SIZE
    && DeclaredLength(b) <= MAX_PAYLOAD_SIZE
    && |b| == MIN_ENCODED_SIZE + DeclaredLength(b)
  }

  /** Which check of the decoder fails first, in its order. */
  function DecodeCheck(b: seq<Byte>): (r: CodecResult)
    ensures r == Ok || r == CrcMismatch ==> WellSized(b)
  {
    if |b| < MIN_ENCODED_SIZE then InputTooSmall
    else if b[0] != SYNC_BYTE_0 || b[1] != SYNC_BYTE_1 then InvalidSync
    else if b[VERSION_OFFSET] != VERSION then UnsupportedVersion
    else if !TypeIsValid(b[TYPE_OFFSET]) then InvalidType
    else
      var length := DeclaredLength(b);
      if length > MAX_PAYLOAD_SIZE then PayloadTooLarge
      else if |b| != MIN_ENCODED_SIZE + length then LengthMismatch
      else if FromBigEndian(b[HEADER_SIZE + length], b[HEADER_SIZE + length + 1])
           != Checksum(b[..HEADER_SIZE + length]) then CrcMismatch
      else Ok
  }

  /** The frame whose fields the input holds. */
  function Decoded(b: seq<Byte>): (f: Frame)
    requires WellSized(b)
  {
    var length := DeclaredLength(b);
    Frame(b[VERSION_OFFSET], b[TYPE_OFFSET],
          FromBigEndian(b[SEQUENCE_OFFSET], b[SEQUENCE_OFFSET + 1]), length,
          b[HEADER_SIZE..HEADER_SIZE + length] + ZeroBytes(MAX_PAYLOAD_SIZE - length))
  }

  function Word(high: int, low: int): int {
    0x100 * high + low
  }

  /** The wire format: sync, version, type, two big-endian words, payload, big-endian checksum. */
  ghost predicate HasLayout(b: seq<Byte>, f: Frame) {
    var n := f.payloadLength;
    && n <= MAX_PAYLOAD_SIZE && |b| == 10 + n
    && b[0] == 0xAA && b[1] == 0x55 && b[2] == f.version && b[3] == f.kind
    && Word(b[4], b[5]) == f.sequence && Word(b[6], b[7]) == n
    && b[8..8 + n] == f.payload[..n]
    && Word(b[8 + n], b[9 + n]) == Crc16(b[2..8 + n])
  }

  lemma EncodedLayout(f: Frame)
    requires Encodable(f)
    ensures HasLayout(Encoded(f), f)
  {
    hide Crc16;
    var b, n := Encoded(f), f.payloadLength;
    assert b[8..8 + n] == f.payload[..n];
    assert b[2..8 + n] == Body(f)[VERSION_OFFSET..];
  }

  lemma SameFront(b: seq<Byte>, c: seq<Byte>, f: Frame)
    requires HasLayout(b, f) && HasLayout(c, f)
    ensures |b| == |c| && b[..8 + f.payloadLength] == c[..8 + f.payloadLength]
  {
    hide Crc16;
    var n: int := f.payloadLength;
    forall i | 0 <= i < 8 + n ensures b[i] == c[i] {
      if i >= 8 {
        assert b[i] == b[8..8 + n][i - 8] && c[i] == c[8..8 + n][i - 8];
      }
    }
  }

  /** The layout leaves no choice. */
  lemma LayoutDetermines(b: seq<Byte>, f: Frame)
    requires Encodable(f) && HasLayout(b, f)
    ensures b == Encoded(f)
  {
    hide Crc16, Encoded;
    var c, n := Encoded(f), f.payloadLength;
    EncodedLayout(f);
    SameFront(b, c, f);
    assert b[2..8 + n] == b[..8 + n][2..] && c[2..8 + n] == c[..8 + n][2..];
    assert Word(b[8 + n], b[9 + n]) == Word(c[8 + n], c[9 + n]);
    assert b == b[..8 + n] + [b[8 + n], b[9 + n]];
    assert c == c[..8 + n] + [c[8 + n], c[9 + n]];
  }

  // The decoder's questions, each including those before it.

  predicate LongEnough(b: seq<Byte>) {
    |b| >= 10
  }

  predicate Synced(b: seq<Byte>) {
    LongEnough(b) && b[0] == 0xAA && b[1] == 0x55
  }

  predicate Versioned(b: seq<Byte>) {
    Synced(b) && b[2] == 0x01
  }

  predicate Typed(b: seq<Byte>) {
    Versioned(b) && b[3] in {0x01, 0x02, 0x03, 0x04}
  }

  predicate Bounded(b: seq<Byte>) {
    Typed(b) && Word(b[6], b[7]) <= MAX_PAYLOAD_SIZE
  }

  predicate Sized(b: seq<Byte>) {
    Bounded(b) && |b| == 10 + Word(b[6], b[7])
  }

  predicate Intact(b: seq<Byte>) {
    Sized(b) && Word(b[|b| - 2], b[|b| - 1]) == Crc16(b[2..|b| - 2])
  }

  /** `r` answers the first question that `b` fails. */
  predicate FirstFailure(b: seq<Byte>, r: CodecResult) {
    && (r == InputTooSmall <==> !LongEnough(b))
    && (r == InvalidSync <==> LongEnough(b) && !Synced(b))
    && (r == UnsupportedVersion <==> Synced(b) && !Versioned(b))
    && (r == InvalidType <==> Versioned(b) && !Typed(b))
    && (r == PayloadTooLarge <==> Typed(b) && !Bounded(b))
    && (r == LengthMismatch <==> Bounded(b) && !Sized(b))
    && (r == CrcMismatch <==> Sized(b) && !Intact(b))
    && (r == Ok <==> Intact(b))
  }

  lemma RejectionsExactly(b: seq<Byte>)
    ensures FirstFailure(b, DecodeCheck(b))
  {
    hide Crc16;
    if WellSized(b) {
      assert b[..|b| - 2][VERSION_OFFSET..] == b[2..|b| - 2];
    }
  }

  // ----- The two operations ----------------------------------------------------------------

  method WriteHeader(frame: Frame, output: array<Byte>)
    requires HEADER_SIZE <= output.Length
    modifies output
    ensures forall i :: 0 <= i < HEADER_SIZE ==> output[i] == Header(frame)[i]
    ensures forall i :: HEADER_SIZE <= i < output.Length ==> output[i] == old(output[i])
  {
    hide HighByte;
    hide LowByte;
    output[0] := SYNC_BYTE_0;
    output[1] := SYNC_BYTE_1;
    output[VERSION_OFFSET] := frame.version;
    output[TYPE_OFFSET] := frame.kind;
    output[SEQUENCE_OFFSET] := HighByte(frame.sequence);
    output[SEQUENCE_OFFSET + 1] := LowByte(frame.sequence);
    output[PAYLOAD_LENGTH_OFFSET] := HighByte(frame.payloadLength);
    output[PAYLOAD_LENGTH_OFFSET + 1] := LowByte(frame.payloadLength);
  }

  /** The writes of the encoder, once every check has passed. */
  method WriteFrame(frame: Frame, output: array<Byte>)
    requires Encodable(frame) && EncodedSize(frame) <= output.Length <= SIZE_MAX
    modifies output
    ensures output[..EncodedSize(frame)] == Encoded(frame)
    ensures output[EncodedSize(frame)..] == old(output[EncodedSize(frame)..])
  {
    hide Crc16;
    hide HighByte;
    hide LowByte;
    hide Header;
    var n := frame.payloadLength;
    ghost var rest := output[EncodedSize(frame)..];
    WriteHeader(frame, output);
    assert output[EncodedSize(frame)..] == rest;
    forall i | 0 <= i < n {
      output[HEADER_SIZE + i] := frame.payload[i];
    }
    assert output[..HEADER_SIZE] == Header(frame);
    assert output[HEADER_SIZE..HEADER_SIZE + n] == frame.payload[..n];
    assert output[..HEADER_SIZE + n] == Body(frame);
    assert output[VERSION_OFFSET..HEADER_SIZE + n] == Body(frame)[VERSION_OFFSET..];
    assert output[EncodedSize(frame)..] == rest;
    var crc := Compute(output, VERSION_OFFSET, HEADER_SIZE - VERSION_OFFSET + n);
    output[HEADER_SIZE + n] := HighByte(crc);
    output[HEADER_SIZE + n + 1] := LowByte(crc);
    assert output[..HEADER_SIZE + n] == Body(frame);
    assert output[..EncodedSize(frame)] == Encoded(frame);
  }

  /** Fills the front of `output`; touches nothing when a check fails. */
  method Encode(frame: Frame, output: array<Byte>, capacity: SizeT)
    returns (result: CodecResult, encodedSize: SizeT)
    requires capacity <= output.Length <= SIZE_MAX
    modifies output
    ensures result == EncodeCheck(frame, capacity)
    ensures result == Ok ==>
              encodedSize == EncodedSize(frame)
              && output[..encodedSize] == Encoded(frame)
              && output[encodedSize..] == old(output[encodedSize..])
    ensures result != Ok ==> encodedSize == 0 && output[..] == old(output[..])
    ensures result == UnsupportedVersion <==> frame.version != 1
    ensures result == InvalidType <==> frame.version == 1 && frame.kind !in {1, 2, 3, 4}
    ensures result == PayloadTooLarge <==>
              frame.version == 1 && frame.kind in {1, 2, 3, 4} && frame.payloadLength > MAX_PAYLOAD_SIZE
    ensures result == OutputTooSmall <==>
              && frame.version == 1 && frame.kind in {1, 2, 3, 4} && frame.payloadLength <= MAX_PAYLOAD_SIZE
              && capacity < 10 + frame.payloadLength
    ensures result == Ok ==> encodedSize == 10 + frame.payloadLength && HasLayout(output[..encodedSize], frame)
  {
    hide Encoded, HasLayout;
    if EncodeCheck(frame, capacity) == Ok {
      EncodedLayout(frame);
    }
    encodedSize := 0;
    if frame.version != VERSION {
      return UnsupportedVersion, 0;
    }
    if !TypeIsValid(frame.kind) {
      return InvalidType, 0;
    }
    if frame.payloadLength > MAX_PAYLOAD_SIZE {
      return PayloadTooLarge, 0;
    }
    var requiredSize: SizeT := MIN_ENCODED_SIZE + frame.payloadLength;
    if capacity < requiredSize {
      return OutputTooSmall, 0;
    }
    WriteFrame(frame, output);
    return Ok, requiredSize;
  }

  /** Fills `frame` only when every check passes. */
  method Decode(input: array<Byte>, inputSize: SizeT, frame: FrameSlot) returns (result: CodecResult)
    requires inputSize <= input.Length
    modifies frame
    ensures result == DecodeCheck(input[..inputSize])
    ensures frame.value == if result == Ok then Decoded(input[..inputSize]) else old(frame.value)
    ensures FirstFailure(input[..inputSize], result)
    ensures result == Ok ==> HasLayout(input[..inputSize], frame.value) && Normalised(frame.value) == frame.value
  {
    hide Crc16, HasLayout, FirstFailure, Normalised;
    ghost var b := input[..inputSize];
    RejectionsExactly(b);
    if DecodeCheck(b) == Ok {
      EncodeDecoded(b);
      EncodedLayout(Decoded(b));
    }
    if inputSize < MIN_ENCODED_SIZE {
      return InputTooSmall;
    }
    if input[0] != SYNC_BYTE_0 || input[1] != SYNC_BYTE_1 {
      return InvalidSync;
    }
    if input[VERSION_OFFSET] != VERSION {
      return UnsupportedVersion;
    }
    if !TypeIsValid(input[TYPE_OFFSET]) {
      return InvalidType;
    }
    var length := FromBigEndian(input[PAYLOAD_LENGTH_OFFSET], input[PAYLOAD_LENGTH_OFFSET + 1]);
    if length > MAX_PAYLOAD_SIZE {
      return PayloadTooLarge;
    }
    var expectedSize: SizeT := MIN_ENCODED_SIZE + length;
    if inputSize != expectedSize {
      return LengthMismatch;
    }
    var calculated := Compute(input, VERSION_OFFSET, HEADER_SIZE - VERSION_OFFSET + length);
    assert input[VERSION_OFFSET..HEADER_SIZE + length] == b[..HEADER_SIZE + length][VERSION_OFFSET..];
    var received := FromBigEndian(input[HEADER_SIZE + length], input[HEADER_SIZE + length + 1]);
    if received != calculated {
      return CrcMismatch;
    }
    assert input[HEADER_SIZE..HEADER_SIZE + length] == b[HEADER_SIZE..HEADER_SIZE + length];
    frame.value :=
      Frame(input[VERSION_OFFSET], input[TYPE_OFFSET],
            FromBigEndian(input[SEQUENCE_OFFSET], input[SEQUENCE_OFFSET + 1]), length,
            input[HEADER_SIZE..HEADER_SIZE + length] + ZeroBytes(MAX_PAYLOAD_SIZE - length));
    return Ok;
  }

  // ----- Round trips -----------------------------------------------------------------------

  /** Decoding undoes encoding, clearing the bytes after the payload. */
  lemma DecodeEncoded(f: Frame)
    requires Encodable(f)
    ensures DecodeCheck(Encoded(f)) == Ok && Decoded(Encoded(f)) == Normalised(f)
  {
    hide Crc16;
    var b, n := Encoded(f), f.payloadLength;
    BigEndianRoundTrip(f.sequence);
    BigEndianRoundTrip(n);
    BigEndianRoundTrip(Checksum(Body(f)));
    assert b[..HEADER_SIZE + n] == Body(f);
    assert b[HEADER_SIZE..HEADER_SIZE + n] == f.payload[..n];
  }

  lemma TailIsZero(f: Frame)
    requires f.payloadLength <= MAX_PAYLOAD_SIZE
    ensures Normalised(f) == f <==> forall i :: f.payloadLength <= i < MAX_PAYLOAD_SIZE ==> f.payload[i] == 0
  {
    var n: int := f.payloadLength;
    var g := Normalised(f);
    forall i | n <= i < MAX_PAYLOAD_SIZE ensures g.payload[i] == 0 {
    }
    if forall i :: n <= i < MAX_PAYLOAD_SIZE ==> f.payload[i] == 0 {
      assert f.payload[n..] == ZeroBytes(MAX_PAYLOAD_SIZE - n);
      assert f.payload == f.payload[..n] + f.payload[n..];
    }
  }

  /** A frame comes back as it was exactly if nothing but zeros follows its payload. */
  lemma RoundTripExactly(f: Frame)
    requires Encodable(f)
    ensures DecodeCheck(Encoded(f)) == Ok
    ensures Decoded(Encoded(f)) == f <==> forall i :: f.payloadLength <= i < MAX_PAYLOAD_SIZE ==> f.payload[i] == 0
  {
    hide Encoded, Decoded, DecodeCheck, Normalised;
    DecodeEncoded(f);
    TailIsZero(f);
  }

  /** A frame with an empty payload and a byte behind it does not come back. */
  lemma RoundTripLosesTail()
    ensures exists f: Frame :: Encodable(f) && DecodeCheck(Encoded(f)) == Ok && Decoded(Encoded(f)) != f
  {
    hide Encoded, DecodeCheck, Decoded;
    var f: Frame := Frame(VERSION, TYPE_REPORT, 0, 0, seq(MAX_PAYLOAD_SIZE, i => 1));
    RoundTripExactly(f);
    assert f.payload[0] == 1;
  }

  /** The decoder accepts nothing but encodings, and encoding undoes it. */
  lemma EncodeDecoded(b: seq<Byte>)
    requires DecodeCheck(b) == Ok
    ensures Encodable(Decoded(b)) && Encoded(Decoded(b)) == b
    ensures Normalised(Decoded(b)) == Decoded(b)
  {
    hide Crc16;
    var f := Decoded(b);
    var n := f.payloadLength;
    FromBigEndianBytes(b[4], b[5]);
    FromBigEndianBytes(b[6], b[7]);
    FromBigEndianBytes(b[HEADER_SIZE + n], b[HEADER_SIZE + n + 1]);
    assert f.payload[..n] == b[HEADER_SIZE..HEADER_SIZE + n];
    assert b[..HEADER_SIZE] == Header(f);
    assert b[..HEADER_SIZE + n] == b[..HEADER_SIZE] + b[HEADER_SIZE..HEADER_SIZE + n];
    assert b == b[..HEADER_SIZE + n] + [b[HEADER_SIZE + n], b[HEADER_SIZE + n + 1]];
  }

  /** Acceptance and the result of the decoder, without mentioning its checks. */
  lemma DecodeCharacterised(b: seq<Byte>, f: Frame)
    ensures DecodeCheck(b) == Ok && Decoded(b) == f
       <==> Encodable(f) && Normalised(f) == f && b == Encoded(f)
  {
    if DecodeCheck(b) == Ok {
      EncodeDecoded(b);
    }
    if Encodable(f) {
      DecodeEncoded(f);
    }
  }
}
