/**
 What the encoding guarantees on the wire: a concatenation of encodings splits in one way
 only, and damage that a checksum of this kind must catch is caught wherever it falls.
 */
module WireProperties {
  import opened Machine
  import opened Frames
  import opened BitPolynomials
  import opened Words
  import opened Crc
  import opened Codec

  // ----- Concatenated encodings ------------------------------------------------------------

  ghost predicate AllEncodable(frames: seq<Frame>) {
    forall i :: 0 <= i < |frames| ==> Encodable(frames[i])
  }

  function Concatenated(frames: seq<Frame>): (wire: seq<Byte>)
    requires AllEncodable(frames)
  {
    if frames == [] then [] else Encoded(frames[0]) + Concatenated(frames[1..])
  }

  function NormalisedAll(frames: seq<Frame>): (r: seq<Frame>)
    requires AllEncodable(frames)
    ensures |r| == |frames|
    ensures forall i :: 0 <= i < |frames| ==> r[i] == Normalised(frames[i])
  {
    seq(|frames|, i requires 0 <= i < |frames| => Normalised(frames[i]))
  }

  lemma DeclaredLengthOfEncoded(f: Frame, rest: seq<Byte>)
    requires Encodable(f)
    ensures DeclaredLength(Encoded(f) + rest) == f.payloadLength
  {
    hide Crc16;
    var b := Encoded(f) + rest;
    assert b[6] == Body(f)[6] && b[7] == Body(f)[7];
    BigEndianRoundTrip(f.payloadLength);
  }

  /** No encoding is a proper prefix of another. */
  lemma PrefixFree(f: Frame, g: Frame, s: seq<Byte>, t: seq<Byte>)
    requires Encodable(f) && Encodable(g)
    requires Encoded(f) + s == Encoded(g) + t
    ensures Encoded(f) == Encoded(g) && s == t && Normalised(f) == Normalised(g)
  {
    hide Encoded;
    DeclaredLengthOfEncoded(f, s);
    DeclaredLengthOfEncoded(g, t);
    var whole, size := Encoded(f) + s, EncodedSize(f);
    assert Encoded(f) == whole[..size] && s == whole[size..];
    assert Encoded(g) == whole[..size] && t == whole[size..];
    DecodeEncoded(f);
    DecodeEncoded(g);
  }

  /** Two lists of frames with the same concatenation carry the same frames. */
  lemma {:induction false} ConcatenationSplitsOnce(frames: seq<Frame>, others: seq<Frame>)
    requires AllEncodable(frames) && AllEncodable(others)
    requires Concatenated(frames) == Concatenated(others)
    ensures NormalisedAll(frames) == NormalisedAll(others)
    decreases |frames|
  {
    hide Encoded;
    if frames != [] && others != [] {
      PrefixFree(frames[0], others[0], Concatenated(frames[1..]), Concatenated(others[1..]));
      ConcatenationSplitsOnce(frames[1..], others[1..]);
      assert NormalisedAll(frames) == [Normalised(frames[0])] + NormalisedAll(frames[1..]);
      assert NormalisedAll(others) == [Normalised(others[0])] + NormalisedAll(others[1..]);
    }
  }

  // ----- Damage --------------------------------------------------------------------------

  /** The positions at which two inputs of the same length differ. */
  function Damage(b: seq<Byte>, c: seq<Byte>): (e: Bits)
    requires |b| == |c|
    ensures |e| == 8 * |b|
  {
    Xor(BitsOf(b), BitsOf(c))
  }

  lemma AcceptedResidue(b: seq<Byte>)
    requires WellSized(b)
    ensures Crc16(b[VERSION_OFFSET..]) == 0
       <==> FromBigEndian(b[|b| - 2], b[|b| - 1]) == Checksum(b[..|b| - 2])
  {
    hide Crc16;
    hide FromBigEndian;
    var n := |b|;
    assert b[VERSION_OFFSET..] == b[..n - 2][VERSION_OFFSET..] + [b[n - 2], b[n - 1]];
    ResidueZeroIffCrc(b[..n - 2][VERSION_OFFSET..], b[n - 2], b[n - 1]);
  }

  /** Messages of equal length end in the same register exactly when their difference runs to zero. */
  lemma SameRegister(x: seq<Byte>, y: seq<Byte>)
    requires |x| == |y|
    ensures Crc16(x) == Crc16(y)
       <==> Run(Zeros(16), Damage(x, y)) == Zeros(16)
  {
    hide Crc16;
    var u, v := Crc16(x), Crc16(y);
    Crc16Bits(x);
    Crc16Bits(y);
    RunLinear(Ones(16), Ones(16), BitsOf(x), BitsOf(y));
    XorZeroEqual(Ones(16), Ones(16));
    XorZeroEqual(Bits16(u), Bits16(v));
    if Bits16(u) == Bits16(v) {
      Bits16Injective(u, v);
    }
  }

  lemma {:induction false} DamageSplit(b: seq<Byte>, c: seq<Byte>, k: nat)
    requires |b| == |c| && k <= |b|
    ensures Damage(b, c) == Damage(b[..k], c[..k]) + Damage(b[k..], c[k..])
  {
    BitsOfAppend(b[..k], b[k..]);
    BitsOfAppend(c[..k], c[k..]);
    assert b == b[..k] + b[k..] && c == c[..k] + c[k..];
  }

  lemma NoDamage(b: seq<Byte>)
    ensures Damage(b, b) == Zeros(8 * |b|)
  {
    XorZeroEqual(BitsOf(b), BitsOf(b));
  }

  lemma {:induction false} DamageVisible(b: seq<Byte>, c: seq<Byte>)
    requires |b| == |c| && b != c
    ensures Damage(b, c) != Zeros(8 * |b|)
    decreases |b|
  {
    DamageSplit(b, c, 1);
    var first, rest := Damage(b[..1], c[..1]), Damage(b[1..], c[1..]);
    if b[0] != c[0] {
      assert BitsOf(b[..1]) == Bits8(b[0]) && BitsOf(c[..1]) == Bits8(c[0]);
      if Bits8(b[0]) == Bits8(c[0]) {
        Bits8Injective(b[0], c[0]);
      }
      XorZeroEqual(Bits8(b[0]), Bits8(c[0]));
      var i :| 0 <= i < 8 && first[i];
      assert Damage(b, c)[i];
    } else {
      assert b == [b[0]] + b[1..] && c == [c[0]] + c[1..];
      DamageVisible(b[1..], c[1..]);
      var i :| 0 <= i < |rest| && rest[i];
      assert Damage(b, c)[8 + i];
    }
  }

  /** The fields the decoder compares with constants, and the length, are the sender's. */
  predicate FieldsIntact(b: seq<Byte>, c: seq<Byte>)
    requires |c| == |b| >= HEADER_SIZE
  {
    && c[0] == SYNC_BYTE_0 && c[1] == SYNC_BYTE_1
    && c[VERSION_OFFSET] == VERSION && TypeIsValid(c[TYPE_OFFSET])
    && DeclaredLength(c) == DeclaredLength(b)
  }

  lemma AcceptedIffResidue(b: seq<Byte>, c: seq<Byte>)
    requires WellSized(b) && |c| == |b|
    ensures DecodeCheck(c) == Ok
       <==> FieldsIntact(b, c) && Crc16(c[VERSION_OFFSET..]) == 0
  {
    hide Checksum;
    hide Crc16;
    if WellSized(c) {
      AcceptedResidue(c);
    }
  }

  /**
   Exactly which damage to an accepted input goes unnoticed: the fields the decoder compares
   are still good, and the damage after the sync bytes is a multiple of the generator.
   */
  lemma DamageUnnoticedIff(b: seq<Byte>, c: seq<Byte>)
    requires DecodeCheck(b) == Ok && |c| == |b|
    ensures DecodeCheck(c) == Ok
       <==> && FieldsIntact(b, c)
            && var e := Damage(b[VERSION_OFFSET..], c[VERSION_OFFSET..]);
               exists q :: |q| == |e| && TimesGenerator(q) == e + Zeros(16)
  {
    hide DecodeCheck;
    hide Crc16;
    hide Damage;
    hide Run;
    AcceptedIffResidue(b, b);
    AcceptedIffResidue(b, c);
    SameRegister(b[VERSION_OFFSET..], c[VERSION_OFFSET..]);
    ZeroIffMultiple(Damage(b[VERSION_OFFSET..], c[VERSION_OFFSET..]));
  }

  /** Two accepted inputs of the same length differ by a pattern that runs to zero. */
  lemma {:induction false} AcceptedDamage(b: seq<Byte>, c: seq<Byte>)
    requires |b| == |c| && DecodeCheck(b) == Ok && DecodeCheck(c) == Ok
    ensures Run(Zeros(16), Damage(b, c)) == Zeros(16)
  {
    hide Checksum;
    hide Crc16;
    AcceptedResidue(b);
    AcceptedResidue(c);
    hide Run, Damage;
    SameRegister(b[2..], c[2..]);
    DamageSplit(b, c, 2);
    assert b[..2] == c[..2];
    NoDamage(b[..2]);
    RunAppend(Zeros(16), Zeros(16), Damage(b[2..], c[2..]));
    ZeroRun(16);
  }

  /** Damage confined to sixteen consecutive bits, wherever it falls, is rejected. */
  lemma BurstRejected(b: seq<Byte>, c: seq<Byte>, before: nat, w: Bits, after: nat)
    requires DecodeCheck(b) == Ok && |c| == |b|
    requires |w| <= 16 && w != Zeros(|w|)
    requires Damage(b, c) == Zeros(before) + w + Zeros(after)
    ensures DecodeCheck(c) != Ok
  {
    BurstNonZero(before, w, after);
    if DecodeCheck(c) == Ok {
      AcceptedDamage(b, c);
    }
  }

  /** An odd number of damaged bits is rejected. */
  lemma OddDamageRejected(b: seq<Byte>, c: seq<Byte>)
    requires DecodeCheck(b) == Ok && |c| == |b| && Parity(Damage(b, c))
    ensures DecodeCheck(c) != Ok
  {
    RunParity(Zeros(16), Damage(b, c));
    ZerosParity(16);
    if DecodeCheck(c) == Ok {
      AcceptedDamage(b, c);
    }
  }

  /** Any change confined to two adjacent bytes is rejected, wherever it falls. */
  lemma {:induction false} TwoBytesRejected(b: seq<Byte>, c: seq<Byte>, k: nat)
    requires DecodeCheck(b) == Ok && |c| == |b| && c != b && k + 2 <= |b|
    requires forall i :: 0 <= i < |b| && i != k && i != k + 1 ==> c[i] == b[i]
    ensures DecodeCheck(c) != Ok
  {
    hide DecodeCheck;
    var before, w, after := b[..k], Damage(b[k..k + 2], c[k..k + 2]), b[k + 2..];
    assert c[..k] == before && c[k + 2..] == after;
    DamageSplit(b, c, k);
    DamageSplit(b[k..], c[k..], 2);
    assert b[k..][..2] == b[k..k + 2] && c[k..][..2] == c[k..k + 2];
    assert b[k..][2..] == after && c[k..][2..] == after;
    NoDamage(before);
    NoDamage(after);
    var i :| 0 <= i < |b| && b[i] != c[i];
    assert b[k..k + 2][i - k] != c[k..k + 2][i - k];
    DamageVisible(b[k..k + 2], c[k..k + 2]);
    assert Damage(b, c) == Zeros(8 * k) + w + Zeros(8 * |after|);
    BurstRejected(b, c, 8 * k, w, 8 * |after|);
  }
}
