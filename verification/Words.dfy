/**
 Unsigned machine words as bit sequences, highest bit first: the exclusive or and the left
 shift of C on 16-bit words, defined bit by bit and by arithmetic.
 */
module Words {
  import opened Machine
  import opened BitPolynomials

  function Pow2(n: nat): (p: nat)
    ensures p > 0
  {
    if n == 0 then 1 else 2 * Pow2(n - 1)
  }

  /** The lowest `n` bits of `w`. */
  function BitsOfWord(w: nat, n: nat): (bits: Bits)
    ensures |bits| == n
    decreases n, w
  {
    if n == 0 then [] else BitsOfWord(w / 2, n - 1) + [w % 2 == 1]
  }

  function Value(bits: Bits): (w: nat)
    ensures w < Pow2(|bits|)
  {
    if bits == [] then 0
    else 2 * Value(bits[..|bits| - 1]) + if bits[|bits| - 1] then 1 else 0
  }

  lemma {:induction false} ValueBits(bits: Bits)
    ensures BitsOfWord(Value(bits), |bits|) == bits
  {
    if bits != [] {
      ValueBits(bits[..|bits| - 1]);
    }
  }

  lemma {:induction false} BitsValue(w: nat, n: nat)
    requires w < Pow2(n)
    ensures Value(BitsOfWord(w, n)) == w
    decreases n
  {
    if n > 0 {
      BitsValue(w / 2, n - 1);
      var bits := BitsOfWord(w, n);
      assert bits[..n - 1] == BitsOfWord(w / 2, n - 1);
    }
  }

  lemma {:induction false} TopBit(w: nat, n: nat)
    requires w < Pow2(n + 1)
    ensures BitsOfWord(w, n + 1)[0] == (w >= Pow2(n))
    decreases n
  {
    if n > 0 {
      TopBit(w / 2, n - 1);
      assert BitsOfWord(w, n + 1)[0] == BitsOfWord(w / 2, n)[0];
    }
  }

  lemma {:induction false} DropTop(w: nat, n: nat)
    ensures BitsOfWord(w, n + 1)[1..] == BitsOfWord(w, n)
    decreases n
  {
    if n > 0 {
      DropTop(w / 2, n - 1);
    }
  }

  lemma {:induction false} IgnoreHigher(w: nat, n: nat)
    ensures BitsOfWord(w + Pow2(n), n) == BitsOfWord(w, n)
    decreases n
  {
    if n > 0 {
      assert (w + Pow2(n)) / 2 == w / 2 + Pow2(n - 1);
      IgnoreHigher(w / 2, n - 1);
    }
  }

  lemma {:induction false} ScaledBits(w: nat, n: nat, k: nat)
    ensures BitsOfWord(w * Pow2(k), n + k) == BitsOfWord(w, n) + Zeros(k)
    decreases k
  {
    if k > 0 {
      var scaled := w * Pow2(k);
      assert scaled == 2 * (w * Pow2(k - 1));
      ScaledBits(w, n, k - 1);
      assert BitsOfWord(w, n) + Zeros(k) == BitsOfWord(w, n) + Zeros(k - 1) + [false];
    } else {
      assert w * Pow2(0) == w;
      assert BitsOfWord(w, n) + Zeros(0) == BitsOfWord(w, n);
    }
  }

  lemma Pow2Small()
    ensures Pow2(8) == 0x100 && Pow2(15) == 0x8000 && Pow2(16) == 0x1_0000
  {
    assert Pow2(4) == 16;
    assert Pow2(8) == 256;
    assert Pow2(12) == 4096;
    assert Pow2(15) == 8 * Pow2(12);
  }

  // ----- Sixteen-bit words -----------------------------------------------------------------

  function Bits16(w: U16): Register {
    BitsOfWord(w, 16)
  }

  function Bits8(b: Byte): (bits: Bits)
    ensures |bits| == 8
  {
    BitsOfWord(b, 8)
  }

  /** C's exclusive or on 16-bit operands. */
  function Xor16(a: U16, b: U16): (c: U16)
    ensures Bits16(c) == Xor(Bits16(a), Bits16(b))
  {
    Pow2Small();
    var bits := Xor(Bits16(a), Bits16(b));
    ValueBits(bits);
    Value(bits)
  }

  /** C's exclusive or on bytes. */
  function Xor8(a: Byte, b: Byte): (c: Byte)
    ensures Bits8(c) == Xor(Bits8(a), Bits8(b))
  {
    Pow2Small();
    var bits := Xor(Bits8(a), Bits8(b));
    ValueBits(bits);
    Value(bits)
  }

  lemma Bits16Injective(a: U16, b: U16)
    requires Bits16(a) == Bits16(b)
    ensures a == b
  {
    Pow2Small();
    BitsValue(a, 16);
    BitsValue(b, 16);
  }

  lemma Bits8Injective(a: Byte, b: Byte)
    requires Bits8(a) == Bits8(b)
    ensures a == b
  {
    Pow2Small();
    BitsValue(a, 8);
    BitsValue(b, 8);
  }

  /** `word << 1` truncated to sixteen bits. */
  function ShiftLeft16(w: U16): (r: U16)
    ensures r == (2 * w) % 0x1_0000
  {
    2 * WithoutTop(w)
  }

  function WithoutTop(w: U16): (low: nat)
    ensures low < 0x8000
  {
    if w >= 0x8000 then w - 0x8000 else w
  }

  lemma {:induction false} ShiftLeft16Bits(w: U16)
    ensures Bits16(ShiftLeft16(w)) == Bits16(w)[1..] + [false]
  {
    hide BitsOfWord;
    assert w == WithoutTop(w) || w == WithoutTop(w) + Pow2(15) by {
      Pow2Small();
    }
    ShiftOut(w, 15, WithoutTop(w));
  }

  lemma {:induction false} ShiftOut(w: nat, n: nat, low: nat)
    requires w == low || w == low + Pow2(n)
    ensures BitsOfWord(2 * low, n + 1) == BitsOfWord(w, n + 1)[1..] + [false]
  {
    DropTop(w, n);
    IgnoreHigher(low, n);
    assert (2 * low) / 2 == low && (2 * low) % 2 == 0;
  }

  /** `word & 0x8000` is nonzero exactly when the first bit is set. */
  predicate HighBit16(w: U16)
    ensures HighBit16(w) == Bits16(w)[0]
  {
    Pow2Small();
    TopBit(w, 15);
    w >= 0x8000
  }

  /** `(uint16_t)byte << 8`. */
  function Spread(b: Byte): (w: U16)
    ensures Bits16(w) == Bits8(b) + Zeros(8)
  {
    Pow2Small();
    ScaledBits(b, 8, 8);
    b * 0x100
  }

  /** A word's bits are those of its high byte, then those of its low byte. */
  lemma {:induction false} SplitBits(high: Byte, low: Byte)
    ensures Bits16(high * 0x100 + low) == Bits8(high) + Bits8(low)
  {
    Pow2Small();
    SplitWord(high, low, 8);
  }

  lemma {:induction false} SplitWord(high: nat, low: nat, k: nat)
    requires low < Pow2(k)
    ensures BitsOfWord(high * Pow2(k) + low, 8 + k) == BitsOfWord(high, 8) + BitsOfWord(low, k)
    decreases k
  {
    if k > 0 {
      Halve(high, Pow2(k - 1), low);
      SplitWord(high, low / 2, k - 1);
      assert BitsOfWord(low, k) == BitsOfWord(low / 2, k - 1) + [low % 2 == 1];
    } else {
      assert BitsOfWord(high, 8) + BitsOfWord(low, 0) == BitsOfWord(high, 8);
    }
  }

  lemma Halve(high: nat, p: nat, low: nat)
    ensures (high * (2 * p) + low) / 2 == high * p + low / 2
    ensures (high * (2 * p) + low) % 2 == low % 2
  {
    var product := high * p;
    assert high * (2 * p) == 2 * product;
  }
}
