/** The wire format's constants and the frame as the modules pass it around in memory. */
module Frames {
  import opened Machine

  /** The configured payload limit: any value the build accepts. */
  type PayloadLimit = n: int | 1 <= n <= U16_MAX witness 256
  const MAX_PAYLOAD_SIZE: PayloadLimit

  const SYNC_BYTE_0: Byte := 0xAA
  const SYNC_BYTE_1: Byte := 0x55
  const VERSION: U8 := 0x01

  const VERSION_OFFSET := 2
  const TYPE_OFFSET := 3
  const SEQUENCE_OFFSET := 4
  const PAYLOAD_LENGTH_OFFSET := 6
  const HEADER_SIZE := 8
  const CRC_SIZE := 2
  const MIN_ENCODED_SIZE := HEADER_SIZE + CRC_SIZE
  const MAX_ENCODED_SIZE := MIN_ENCODED_SIZE + MAX_PAYLOAD_SIZE

  const TYPE_REQUEST: U8 := 0x01
  const TYPE_RESPONSE: U8 := 0x02
  const TYPE_REPORT: U8 := 0x03
  const TYPE_ERROR: U8 := 0x04

  /** A frame owns the whole payload buffer; only its first `payloadLength` bytes count. */
  datatype FrameRecord =
    Frame(version: U8, kind: U8, sequence: U16, payloadLength: U16, payload: seq<Byte>)

  type Frame = f: FrameRecord | |f.payload| == MAX_PAYLOAD_SIZE
    witness FrameRecord.Frame(0, 0, 0, 0, seq(MAX_PAYLOAD_SIZE, i => 0))

  /** A caller's `comm_frame_t` that a function may fill in. */
  class FrameSlot {
    var value: Frame

    constructor (initial: Frame)
      ensures value == initial
    {
      value := initial;
    }
  }

  predicate TypeIsValid(kind: U8) {
    kind == TYPE_REQUEST || kind == TYPE_RESPONSE || kind == TYPE_REPORT || kind == TYPE_ERROR
  }

  function ZeroBytes(n: nat): (z: seq<Byte>)
    ensures |z| == n && forall i :: 0 <= i < n ==> z[i] == 0
  {
    seq(n, i => 0)
  }

  /** The frames the codec has an encoding for. */
  predicate Encodable(f: Frame) {
    f.version == VERSION && TypeIsValid(f.kind) && f.payloadLength <= MAX_PAYLOAD_SIZE
  }

  /** The frame with the bytes after its payload cleared. */
  function Normalised(f: Frame): (g: Frame)
    requires f.payloadLength <= MAX_PAYLOAD_SIZE
  {
    f.(payload := f.payload[..f.payloadLength] + ZeroBytes(MAX_PAYLOAD_SIZE - f.payloadLength))
  }

  /** A frame whose payload buffer is `data` followed by zeros. */
  function NewFrame(kind: U8, sequence: U16, data: seq<Byte>): (f: Frame)
    requires |data| <= MAX_PAYLOAD_SIZE
    ensures f.kind == kind && f.sequence == sequence && f.payloadLength == |data|
    ensures f.payload[..|data|] == data && Normalised(f) == f
    ensures Encodable(f) <==> TypeIsValid(kind)
  {
    var f: Frame :=
      Frame(VERSION, kind, sequence, |data|, data + ZeroBytes(MAX_PAYLOAD_SIZE - |data|));
    assert f.payload[..|data|] == data;
    f
  }
}
