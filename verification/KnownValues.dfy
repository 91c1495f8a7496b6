/**
 Published and literal values: the check value of CRC-16/CCITT-FALSE and the bytes of one frame
 of each type. They fix the constants of the checksum and of the wire format.
 */
module KnownValues {
  import opened Machine
  import opened Frames
  import opened BitPolynomials
  import opened Words
  import opened Crc
  import opened Codec

  // ----- Bytes and words from bits -------------------------------------------------------------

  function Push(v: nat, b: bool): nat {
    2 * v + if b then 1 else 0
  }

  lemma PushBits(v: nat, n: nat, b: bool)
    ensures BitsOfWord(Push(v, b), n + 1) == BitsOfWord(v, n) + [b]
  {
    assert Push(v, b) / 2 == v && (Push(v, b) % 2 == 1) == b;
  }

  datatype Octet = Octet(b7: bool, b6: bool, b5: bool, b4: bool, b3: bool, b2: bool, b1: bool, b0: bool) {
    function Bit(i: nat): bool {
      if i == 0 then b7 else if i == 1 then b6 else if i == 2 then b5 else if i == 3 then b4
      else if i == 4 then b3 else if i == 5 then b2 else if i == 6 then b1 else b0
    }

    function Bits(): (bits: Bits) {
      seq(8, (i: nat) => Bit(i))
    }

    function High(): (v: nat)
      ensures v < 0x10
    {
      Push(Push(Push(Push(0, b7), b6), b5), b4)
    }

    function Value(): Byte {
      Push(Push(Push(Push(High(), b3), b2), b1), b0)
    }
  }

  lemma HighBits(o: Octet)
    ensures BitsOfWord(o.High(), 4) == [] + [o.b7] + [o.b6] + [o.b5] + [o.b4]
  {
    hide Push;
    assert BitsOfWord(0, 0) == [];
    hide BitsOfWord;
    PushBits(0, 0, o.b7);
    PushBits(Push(0, o.b7), 1, o.b6);
    PushBits(Push(Push(0, o.b7), o.b6), 2, o.b5);
    PushBits(Push(Push(Push(0, o.b7), o.b6), o.b5), 3, o.b4);
  }

  lemma OctetBits(o: Octet)
    ensures Bits8(o.Value()) == o.Bits()
  {
    HighBits(o);
    hide Push, BitsOfWord, Octet.High;
    var v := o.High();
    PushBits(v, 4, o.b3);
    PushBits(Push(v, o.b3), 5, o.b2);
    PushBits(Push(Push(v, o.b3), o.b2), 6, o.b1);
    PushBits(Push(Push(Push(v, o.b3), o.b2), o.b1), 7, o.b0);
    assert Bits8(o.Value()) == [] + [o.b7] + [o.b6] + [o.b5] + [o.b4] + [o.b3] + [o.b2] + [o.b1] + [o.b0];
  }

  // ----- The register bit by bit ---------------------------------------------------------------

  datatype Flops = Flops(high: Octet, low: Octet) {
    function Bit(i: nat): bool {
      if i < 8 then high.Bit(i) else low.Bit(i - 8)
    }

    function Bits(): Register {
      seq(16, (i: nat) => Bit(i))
    }

    /** One clock: a shift, with the bits of 0x1021 inverted when what falls out differs from `b`. */
    function Clock(b: bool): Flops {
      var x := high.b7 != b;
      Flops(Octet(high.b6, high.b5, high.b4, high.b3 != x, high.b2, high.b1, high.b0, low.b7),
            Octet(low.b6, low.b5, low.b4 != x, low.b3, low.b2, low.b1, low.b0, x))
    }

    function Clocks(o: Octet): Flops {
      Clock(o.b7).Clock(o.b6).Clock(o.b5).Clock(o.b4).Clock(o.b3).Clock(o.b2).Clock(o.b1).Clock(o.b0)
    }
  }


  lemma GeneratorBits(i: nat)
    requires i < 16
    ensures GENERATOR[i] <==> i == 3 || i == 10 || i == 15
  {
  }

  lemma ClockBit(r: Flops, b: bool, i: nat)
    requires i < 16
    ensures r.Clock(b).Bit(i)
         == ((i < 15 && r.Bit(i + 1)) != ((i == 3 || i == 10 || i == 15) && r.Bit(0) != b))
  {
  }

  lemma ClockFeeds(r: Flops, b: bool)
    ensures r.Clock(b).Bits() == Feed(r.Bits(), b)
  {
    hide Flops.Clock, Flops.Bit, GENERATOR;
    forall i | 0 <= i < 16 ensures r.Clock(b).Bits()[i] == Feed(r.Bits(), b)[i] {
      ClockBit(r, b, i);
      GeneratorBits(i);
      assert (r.Bits()[1..] + [false])[i] == (i < 15 && r.Bit(i + 1));
    }
  }

  lemma ClocksRun(r: Flops, o: Octet)
    ensures r.Clocks(o).Bits() == Run(r.Bits(), o.Bits())
  {
    hide Flops.Clock, Flops.Bits, Feed;
    var r7 := r.Clock(o.b7);
    var r6 := r7.Clock(o.b6);
    var r5 := r6.Clock(o.b5);
    var r4 := r5.Clock(o.b4);
    ClockFeeds(r, o.b7);
    ClockFeeds(r7, o.b6);
    ClockFeeds(r6, o.b5);
    ClockFeeds(r5, o.b4);
    FourClocks(r.Bits(), o.b7, o.b6, o.b5, o.b4);
    var r3 := r4.Clock(o.b3);
    var r2 := r3.Clock(o.b2);
    var r1 := r2.Clock(o.b1);
    ClockFeeds(r4, o.b3);
    ClockFeeds(r3, o.b2);
    ClockFeeds(r2, o.b1);
    ClockFeeds(r1, o.b0);
    FourClocks(r4.Bits(), o.b3, o.b2, o.b1, o.b0);
    RunAppend(r.Bits(), [o.b7, o.b6, o.b5, o.b4], [o.b3, o.b2, o.b1, o.b0]);
    assert o.Bits() == [o.b7, o.b6, o.b5, o.b4] + [o.b3, o.b2, o.b1, o.b0];
  }

  lemma FourClocks(r: Register, a: bool, b: bool, c: bool, d: bool)
    ensures Run(r, [a, b, c, d]) == Feed(Feed(Feed(Feed(r, a), b), c), d)
  {
    hide Feed;
    ClockOnce(r, [], a);
    ClockOnce(r, [a], b);
    ClockOnce(r, [a, b], c);
    ClockOnce(r, [a, b, c], d);
    assert [] + [a] == [a] && [a] + [b] == [a, b] && [a, b] + [c] == [a, b, c] && [a, b, c] + [d] == [a, b, c, d];
  }

  /** The register after some bytes, started with ones. */
  ghost predicate Holds(data: seq<Byte>, r: Flops) {
    r.Bits() == Run(Ones(16), BitsOf(data))
  }

  lemma HoldsAtStart()
    ensures Holds([], Flops(BFF, BFF))
  {
    InitialBits();
    assert Flops(BFF, BFF).Bits() == Ones(16);
  }

  lemma HoldsOn(data: seq<Byte>, n: nat, r: Flops, o: Octet, next: Flops)
    requires n < |data| && Holds(data[..n], r) && r.Clocks(o) == next && o.Value() == data[n]
    ensures Holds(data[..n + 1], next)
  {
    hide Run, BitsOf, Bits8, Flops.Clocks, Octet.Value;
    ClocksRun(r, o);
    OctetBits(o);
    OneMoreByte(Ones(16), data[..n], o.Value());
    assert data[..n + 1] == data[..n] + [o.Value()];
  }

  lemma HoldsCrc(data: seq<Byte>, r: Flops)
    requires Holds(data, r)
    ensures Crc16(data) == r.high.Value() * 0x100 + r.low.Value()
  {
    hide Crc16, Bits16, Bits8, Octet.Value;
    OctetBits(r.high);
    OctetBits(r.low);
    SplitBits(r.high.Value(), r.low.Value());
    assert r.Bits() == r.high.Bits() + r.low.Bits();
    Crc16Bits(data);
    Bits16Injective(Crc16(data), r.high.Value() * 0x100 + r.low.Value());
  }

  // ----- The check value -----------------------------------------------------------------------

  const B18 := Octet(false, false, false, true, true, false, false, false)
  const B29 := Octet(false, false, true, false, true, false, false, true)
  const B2B := Octet(false, false, true, false, true, false, true, true)
  const B2E := Octet(false, false, true, false, true, true, true, false)
  const B31 := Octet(false, false, true, true, false, false, false, true)
  const B32 := Octet(false, false, true, true, false, false, true, false)
  const B33 := Octet(false, false, true, true, false, false, true, true)
  const B34 := Octet(false, false, true, true, false, true, false, false)
  const B35 := Octet(false, false, true, true, false, true, false, true)
  const B36 := Octet(false, false, true, true, false, true, true, false)
  const B37 := Octet(false, false, true, true, false, true, true, true)
  const B38 := Octet(false, false, true, true, true, false, false, false)
  const B39 := Octet(false, false, true, true, true, false, false, true)
  const B3D := Octet(false, false, true, true, true, true, false, true)
  const B45 := Octet(false, true, false, false, false, true, false, true)
  const B49 := Octet(false, true, false, false, true, false, false, true)
  const B53 := Octet(false, true, false, true, false, false, true, true)
  const B5B := Octet(false, true, false, true, true, false, true, true)
  const B60 := Octet(false, true, true, false, false, false, false, false)
  const B77 := Octet(false, true, true, true, false, true, true, true)
  const B82 := Octet(true, false, false, false, false, false, true, false)
  const BA1 := Octet(true, false, true, false, false, false, false, true)
  const BB1 := Octet(true, false, true, true, false, false, false, true)
  const BBA := Octet(true, false, true, true, true, false, true, false)
  const BC7 := Octet(true, true, false, false, false, true, true, true)
  const BCE := Octet(true, true, false, false, true, true, true, false)
  const BF4 := Octet(true, true, true, true, false, true, false, false)
  const BFF := Octet(true, true, true, true, true, true, true, true)

  lemma FirstDigits()
    ensures B31.Value() == 0x31 && B32.Value() == 0x32 && B33.Value() == 0x33
    ensures Flops(BFF, BFF).Clocks(B31) == Flops(BC7, B82)
    ensures Flops(BC7, B82).Clocks(B32) == Flops(B3D, BBA)
    ensures Flops(B3D, BBA).Clocks(B33) == Flops(B5B, BCE)
  {
  }

  lemma MiddleDigits()
    ensures B34.Value() == 0x34 && B35.Value() == 0x35 && B36.Value() == 0x36
    ensures Flops(B5B, BCE).Clocks(B34) == Flops(B53, B49)
    ensures Flops(B53, B49).Clocks(B35) == Flops(B45, B60)
    ensures Flops(B45, B60).Clocks(B36) == Flops(B2E, BF4)
  {
  }

  lemma LastDigits()
    ensures B37.Value() == 0x37 && B38.Value() == 0x38 && B39.Value() == 0x39
    ensures Flops(B2E, BF4).Clocks(B37) == Flops(B77, B18)
    ensures Flops(B77, B18).Clocks(B38) == Flops(BA1, B2B)
    ensures Flops(BA1, B2B).Clocks(B39) == Flops(B29, BB1)
  {
  }

  lemma CheckBytes()
    ensures B29.Value() * 0x100 + BB1.Value() == 0x29B1
  {
  }

  /** The checksum of the nine digits "123456789" is the catalogue's check value. */
  lemma CheckValue()
    ensures Crc16([0x31, 0x32, 0x33, 0x34, 0x35, 0x36, 0x37, 0x38, 0x39]) == 0x29B1
  {
    hide Holds, Crc16, Flops.Clocks, Octet.Value;
    FirstDigits();
    MiddleDigits();
    LastDigits();
    var digits: seq<Byte> := [0x31, 0x32, 0x33, 0x34, 0x35, 0x36, 0x37, 0x38, 0x39];
    HoldsAtStart();
    assert digits[..0] == [] && digits[..9] == digits;
    HoldsOn(digits, 0, Flops(BFF, BFF), B31, Flops(BC7, B82));
    HoldsOn(digits, 1, Flops(BC7, B82), B32, Flops(B3D, BBA));
    HoldsOn(digits, 2, Flops(B3D, BBA), B33, Flops(B5B, BCE));
    HoldsOn(digits, 3, Flops(B5B, BCE), B34, Flops(B53, B49));
    HoldsOn(digits, 4, Flops(B53, B49), B35, Flops(B45, B60));
    HoldsOn(digits, 5, Flops(B45, B60), B36, Flops(B2E, BF4));
    HoldsOn(digits, 6, Flops(B2E, BF4), B37, Flops(B77, B18));
    HoldsOn(digits, 7, Flops(B77, B18), B38, Flops(BA1, B2B));
    HoldsOn(digits, 8, Flops(BA1, B2B), B39, Flops(B29, BB1));
    HoldsCrc(digits, Flops(B29, BB1));
    CheckBytes();
  }

  // ----- The bytes of a frame ------------------------------------------------------------------

  /** The two bytes of a checksum, high byte first. */
  function InOrder(crc: U16): seq<Byte> {
    [crc / 0x100, crc % 0x100]
  }

  lemma LiteralLayout(kind: U8, b: seq<Byte>)
    requires kind in {1, 2, 3, 4}
    requires b == [0xAA, 0x55, 0x01, kind, 0x12, 0x34, 0x00, 0x01, 0xA5]
                  + InOrder(Crc16([0x01, kind, 0x12, 0x34, 0x00, 0x01, 0xA5]))
    ensures b == Encoded(NewFrame(kind, 0x1234, [0xA5]))
  {
    hide Crc16, Encoded;
    var f := NewFrame(kind, 0x1234, [0xA5]);
    assert b[2..9] == [0x01, kind, 0x12, 0x34, 0x00, 0x01, 0xA5];
    assert b[8..9] == [0xA5];
    LayoutDetermines(b, f);
  }

  /** The encodings of the four types of frame with number 0x1234 and the payload A5. */
  lemma LiteralEncodings()
    ensures Encoded(NewFrame(TYPE_REQUEST, 0x1234, [0xA5]))
         == [0xAA, 0x55, 0x01, 0x01, 0x12, 0x34, 0x00, 0x01, 0xA5]
            + InOrder(Crc16([0x01, 0x01, 0x12, 0x34, 0x00, 0x01, 0xA5]))
    ensures Encoded(NewFrame(TYPE_RESPONSE, 0x1234, [0xA5]))
         == [0xAA, 0x55, 0x01, 0x02, 0x12, 0x34, 0x00, 0x01, 0xA5]
            + InOrder(Crc16([0x01, 0x02, 0x12, 0x34, 0x00, 0x01, 0xA5]))
    ensures Encoded(NewFrame(TYPE_REPORT, 0x1234, [0xA5]))
         == [0xAA, 0x55, 0x01, 0x03, 0x12, 0x34, 0x00, 0x01, 0xA5]
            + InOrder(Crc16([0x01, 0x03, 0x12, 0x34, 0x00, 0x01, 0xA5]))
    ensures Encoded(NewFrame(TYPE_ERROR, 0x1234, [0xA5]))
         == [0xAA, 0x55, 0x01, 0x04, 0x12, 0x34, 0x00, 0x01, 0xA5]
            + InOrder(Crc16([0x01, 0x04, 0x12, 0x34, 0x00, 0x01, 0xA5]))
  {
    hide Crc16, Encoded, NewFrame, InOrder;
    LiteralLayout(1, [0xAA, 0x55, 0x01, 0x01, 0x12, 0x34, 0x00, 0x01, 0xA5]
                     + InOrder(Crc16([0x01, 0x01, 0x12, 0x34, 0x00, 0x01, 0xA5])));
    LiteralLayout(2, [0xAA, 0x55, 0x01, 0x02, 0x12, 0x34, 0x00, 0x01, 0xA5]
                     + InOrder(Crc16([0x01, 0x02, 0x12, 0x34, 0x00, 0x01, 0xA5])));
    LiteralLayout(3, [0xAA, 0x55, 0x01, 0x03, 0x12, 0x34, 0x00, 0x01, 0xA5]
                     + InOrder(Crc16([0x01, 0x03, 0x12, 0x34, 0x00, 0x01, 0xA5])));
    LiteralLayout(4, [0xAA, 0x55, 0x01, 0x04, 0x12, 0x34, 0x00, 0x01, 0xA5]
                     + InOrder(Crc16([0x01, 0x04, 0x12, 0x34, 0x00, 0x01, 0xA5])));
  }
}
