/**
 The bitwise CRC-16/CCITT-FALSE loop of the codec, and what it computes: a polynomial
 remainder over GF(2), with the detection properties that follow from it.
 */
module Crc {
  import opened Machine
  import opened BitPolynomials
  import opened Words

  const POLYNOMIAL: U16 := 0x1021
  const INITIAL_VALUE: U16 := 0xFFFF
  const XOR_OUT: U16 := 0x0000

  function BitStep(crc: U16): U16 {
    if HighBit16(crc) then Xor16(ShiftLeft16(crc), POLYNOMIAL) else ShiftLeft16(crc)
  }

  /** The checksum: the feedback register after the message, started with ones. */
  function Crc16(data: seq<Byte>): U16 {
    Pow2Small();
    Value(Run(Ones(16), BitsOf(data)))
  }

  /** The inner loop: eight shifts of the word are eight clocks of the register. */
  method ShiftByte(start: U16) returns (crc: U16)
    ensures Bits16(crc) == Run(Bits16(start), Zeros(8))
  {
    hide BitStep;
    crc := start;
    var bit := 0;
    while bit < 8
      invariant 0 <= bit <= 8
      invariant Bits16(crc) == Run(Bits16(start), Zeros(bit))
    {
      BitStepBits(crc);
      ClockOnce(Bits16(start), Zeros(bit), false);
      assert Zeros(bit) + [false] == Zeros(bit + 1);
      crc := BitStep(crc);
      bit := bit + 1;
    }
  }

  /** The outer loop, over `length` bytes of `data` from `offset`. */
  method Compute(data: array<Byte>, offset: SizeT, length: SizeT) returns (crc: U16)
    requires offset + length <= data.Length
    ensures crc == Crc16(data[offset..offset + length])
  {
    hide Crc16, Run, BitsOf, Bits16, Spread;
    ghost var input := data[offset..offset + length];
    crc := INITIAL_VALUE;
    var index: SizeT := 0;
    InitialBits();
    while index < length
      invariant 0 <= index <= length
      invariant Bits16(crc) == Run(Ones(16), BitsOf(input[..index]))
    {
      var shifted := ShiftByte(Xor16(crc, Spread(data[offset + index])));
      ByteFed(crc, input[index], shifted);
      assert input[..index + 1] == input[..index] + [input[index]];
      OneMoreByte(Ones(16), input[..index], input[index]);
      crc := shifted;
      index := index + 1;
    }
    assert input[..length] == input;
    RegisterIsCrc(input, crc);
    crc := Xor16(crc, XOR_OUT);
  }

  // ----- The loops as the feedback register ------------------------------------------------

  function BitsOf(data: seq<Byte>): (bits: Bits)
    ensures |bits| == 8 * |data|
  {
    if data == [] then [] else Bits8(data[0]) + BitsOf(data[1..])
  }

  lemma {:induction false} BitsOfAppend(a: seq<Byte>, b: seq<Byte>)
    ensures BitsOf(a + b) == BitsOf(a) + BitsOf(b)
    decreases |a|
  {
    if a == [] {
      assert a + b == b;
    } else {
      assert (a + b)[1..] == a[1..] + b;
      BitsOfAppend(a[1..], b);
    }
  }

  lemma {:induction false} ZeroBits(n: nat)
    ensures BitsOfWord(0, n) == Zeros(n)
    decreases n
  {
    if n > 0 {
      ZeroBits(n - 1);
    }
  }

  lemma {:induction false} OneBits(n: nat)
    ensures BitsOfWord(Pow2(n) - 1, n) == Ones(n)
    decreases n
  {
    if n > 0 {
      assert (Pow2(n) - 1) / 2 == Pow2(n - 1) - 1 && (Pow2(n) - 1) % 2 == 1;
      OneBits(n - 1);
    }
  }

  /** The polynomial constant is the generator, byte by byte. */
  lemma PolynomialBits()
    ensures Bits16(POLYNOMIAL) == GENERATOR
  {
    SplitBits(0x10, 0x21);
    HighPolynomialByte();
    LowPolynomialByte();
    assert GENERATOR == GENERATOR[..8] + GENERATOR[8..];
  }

  lemma HighPolynomialByte()
    ensures Bits8(0x10) == GENERATOR[..8]
  {
  }

  lemma LowPolynomialByte()
    ensures Bits8(0x21) == GENERATOR[8..]
  {
  }

  lemma InitialBits()
    ensures Bits16(INITIAL_VALUE) == Ones(16) == Run(Ones(16), BitsOf([]))
  {
    Pow2Small();
    OneBits(16);
  }

  lemma BitStepBits(crc: U16)
    ensures Bits16(BitStep(crc)) == Feed(Bits16(crc), false)
  {
    ShiftLeft16Bits(crc);
    PolynomialBits();
  }

  lemma ClockOnce(r: Register, bs: Bits, b: bool)
    ensures Run(r, bs + [b]) == Feed(Run(r, bs), b)
  {
    hide Feed;
    RunAppend(r, bs, [b]);
    assert Run(Run(r, bs), [b]) == Run(Feed(Run(r, bs), b), []);
  }

  /** Adding a byte to the register and shifting eight times feeds its eight bits. */
  lemma ByteFed(crc: U16, b: Byte, shifted: U16)
    requires Bits16(shifted) == Run(Bits16(Xor16(crc, Spread(b))), Zeros(8))
    ensures Bits16(shifted) == Run(Bits16(crc), Bits8(b))
  {
    var r, p, w := Bits16(crc), Bits16(Spread(b)), Bits8(b);
    assert p == Pad(w);
    RunLinear(r, p, w, w);
    OwnBitsCancel(w);
    XorZeroEqual(w, w);
    XorZeros(Run(r, w));
  }

  lemma OneMoreByte(r: Register, data: seq<Byte>, b: Byte)
    ensures Run(r, BitsOf(data + [b])) == Run(Run(r, BitsOf(data)), Bits8(b))
  {
    BitsOfAppend(data, [b]);
    assert BitsOf([b]) == Bits8(b);
    RunAppend(r, BitsOf(data), Bits8(b));
  }

  lemma Crc16Bits(data: seq<Byte>)
    ensures Bits16(Crc16(data)) == Run(Ones(16), BitsOf(data))
  {
    ValueBits(Run(Ones(16), BitsOf(data)));
  }

  /** A word holding the final register is the checksum, before and after the final exclusive or. */
  lemma RegisterIsCrc(data: seq<Byte>, crc: U16)
    requires Bits16(crc) == Run(Ones(16), BitsOf(data))
    ensures Xor16(crc, XOR_OUT) == Crc16(data)
  {
    hide Crc16;
    ZeroBits(16);
    XorZeros(Bits16(crc));
    Crc16Bits(data);
    Bits16Injective(Xor16(crc, XOR_OUT), Crc16(data));
  }

  // ----- What the CRC is -------------------------------------------------------------------

  /** The CRC is the remainder of the preset message polynomial, and the only one. */
  lemma CrcIsRemainder(data: seq<Byte>, q: Bits, crc: U16)
    requires |q| == 8 * |data|
    ensures Dividend(Ones(16), BitsOf(data)) == Recompose(q, Bits16(crc))
       <==> q == Quotient(Ones(16), BitsOf(data)) && crc == Crc16(data)
  {
    hide Crc16;
    RegisterIsRemainder(Ones(16), BitsOf(data), q, Bits16(crc));
    Crc16Bits(data);
    if Bits16(crc) == Bits16(Crc16(data)) {
      Bits16Injective(crc, Crc16(data));
    }
  }

  function XorBytes(a: seq<Byte>, b: seq<Byte>): (c: seq<Byte>)
    requires |a| == |b|
    ensures |c| == |a|
  {
    seq(|a|, i requires 0 <= i < |a| => Xor8(a[i], b[i]))
  }

  lemma {:induction false} XorBytesBits(a: seq<Byte>, b: seq<Byte>)
    requires |a| == |b|
    ensures BitsOf(XorBytes(a, b)) == Xor(BitsOf(a), BitsOf(b))
    decreases |a|
  {
    if a != [] {
      assert XorBytes(a, b)[1..] == XorBytes(a[1..], b[1..]);
      XorBytesBits(a[1..], b[1..]);
    }
  }

  /** The CRC is affine over messages of equal length. */
  lemma CrcAffine(x: seq<Byte>, y: seq<Byte>, z: seq<Byte>)
    requires |x| == |y| == |z|
    ensures Xor16(Xor16(Crc16(x), Crc16(y)), Crc16(z)) == Crc16(XorBytes(XorBytes(x, y), z))
  {
    hide Crc16;
    var a, b, c := BitsOf(x), BitsOf(y), BitsOf(z);
    XorBytesBits(x, y);
    XorBytesBits(XorBytes(x, y), z);
    Crc16Bits(x);
    Crc16Bits(y);
    Crc16Bits(z);
    Crc16Bits(XorBytes(XorBytes(x, y), z));
    RunLinear(Ones(16), Ones(16), a, b);
    RunLinear(Xor(Ones(16), Ones(16)), Ones(16), Xor(a, b), c);
    assert Xor(Xor(Ones(16), Ones(16)), Ones(16)) == Ones(16);
    Bits16Injective(Xor16(Xor16(Crc16(x), Crc16(y)), Crc16(z)),
                    Crc16(XorBytes(XorBytes(x, y), z)));
  }

  // ----- Residue and error detection over whole messages ------------------------------------

  /** `(uint8_t)(value >> 8)` and `(uint8_t)(value & 0xFF)`. */
  function HighByte(w: U16): Byte {
    w / 0x100
  }

  function LowByte(w: U16): Byte {
    w % 0x100
  }

  function FromBigEndian(high: Byte, low: Byte): U16 {
    high * 0x100 + low
  }

  lemma BigEndianRoundTrip(w: U16)
    ensures FromBigEndian(HighByte(w), LowByte(w)) == w
  {
  }

  lemma FromBigEndianBytes(high: Byte, low: Byte)
    ensures HighByte(FromBigEndian(high, low)) == high
    ensures LowByte(FromBigEndian(high, low)) == low
  {
  }

  /** The checksum of a message and two more bytes is zero exactly when they are the message's checksum. */
  lemma ResidueZeroIffCrc(data: seq<Byte>, high: Byte, low: Byte)
    ensures Crc16(data + [high, low]) == 0 <==> FromBigEndian(high, low) == Crc16(data)
  {
    hide Crc16;
    var crc, message := FromBigEndian(high, low), data + [high, low];
    MessageBits(data, high, low);
    Crc16Bits(data);
    Crc16Bits(message);
    ZeroBits(16);
    ResidueZeroIff(Ones(16), BitsOf(data), Bits16(crc));
    if Bits16(Crc16(message)) == Bits16(0) {
      Bits16Injective(Crc16(message), 0);
    }
    if Bits16(crc) == Bits16(Crc16(data)) {
      Bits16Injective(crc, Crc16(data));
    }
  }

  lemma {:induction false} MessageBits(data: seq<Byte>, high: Byte, low: Byte)
    ensures BitsOf(data + [high, low]) == BitsOf(data) + Bits16(FromBigEndian(high, low))
  {
    BitsOfAppend(data, [high, low]);
    assert [high, low][1..] == [low];
    assert BitsOf([low]) == Bits8(low);
    SplitBits(high, low);
  }
}
