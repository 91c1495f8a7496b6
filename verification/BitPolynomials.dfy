/**
 Polynomials over GF(2), written as bit sequences with the highest power first, and the
 16-bit feedback register that divides by the generator x^16 + x^12 + x^5 + 1 of
 CRC-16/CCITT-FALSE. Nothing here mentions machine words; `Crc` ties the register to the
 word arithmetic of the codec.
 */
module BitPolynomials {

  type Bits = seq<bool>

  /** A register holds sixteen coefficients, x^15 first. */
  type Register = r: Bits | |r| == 16 witness seq(16, i => false)

  /** The generator below its leading x^16: the bits of 0x1021. */
  const GENERATOR: Register :=
    [false, false, false, true, false, false, false, false,
     false, false, true, false, false, false, false, true]

  function Zeros(n: nat): (z: Bits)
    ensures |z| == n && forall i :: 0 <= i < n ==> !z[i]
  {
    seq(n, i => false)
  }

  function Ones(n: nat): (z: Bits)
    ensures |z| == n && forall i :: 0 <= i < n ==> z[i]
  {
    seq(n, i => true)
  }

  /** Addition of polynomials of equal length. */
  function Xor(a: Bits, b: Bits): (c: Bits)
    requires |a| == |b|
    ensures |c| == |a| && forall i :: 0 <= i < |a| ==> c[i] == (a[i] != b[i])
  {
    seq(|a|, i requires 0 <= i < |a| => a[i] != b[i])
  }

  /** One clock of the register: shift in `b` at the top, feeding the generator back. */
  function Feed(r: Register, b: bool): Register {
    if r[0] != b then Xor(r[1..] + [false], GENERATOR) else r[1..] + [false]
  }

  function Run(r: Register, bs: Bits): Register
    decreases |bs|
  {
    if bs == [] then r else Run(Feed(r, bs[0]), bs[1..])
  }

  /** The multiple of the generator that a leading coefficient `f` contributes. */
  function Lead(f: bool, n: nat): (d: Bits)
    ensures |d| == n + 17
  {
    if f then [true] + GENERATOR + Zeros(n) else Zeros(n + 17)
  }

  /** The product of `q` with the whole generator, by shift and add. */
  function TimesGenerator(q: Bits): (p: Bits)
    ensures |p| == |q| + 16
  {
    if q == [] then Zeros(16)
    else
      Xor(Lead(q[0], |q| - 1), [false] + TimesGenerator(q[1..]))
  }

  /** The quotient bits the register drops while it runs. */
  function Quotient(r: Register, bs: Bits): (q: Bits)
    ensures |q| == |bs|
    decreases |bs|
  {
    if bs == [] then [] else [r[0] != bs[0]] + Quotient(Feed(r, bs[0]), bs[1..])
  }

  /** True exactly when an odd number of bits are set. */
  function Parity(bs: Bits): bool {
    if bs == [] then false else bs[0] != Parity(bs[1..])
  }

  // ----- The register as a linear, injective map --------------------------------------

  lemma {:induction false} RunAppend(r: Register, a: Bits, b: Bits)
    ensures Run(r, a + b) == Run(Run(r, a), b)
    decreases |a|
  {
    if a == [] {
      assert a + b == b;
    } else {
      assert (a + b)[1..] == a[1..] + b;
      RunAppend(Feed(r, a[0]), a[1..], b);
    }
  }

  lemma FeedLinear(r: Register, s: Register, a: bool, b: bool)
    ensures Feed(Xor(r, s), a != b) == Xor(Feed(r, a), Feed(s, b))
  {
    var t := Feed(Xor(r, s), a != b);
    var u := Xor(Feed(r, a), Feed(s, b));
    forall i | 0 <= i < 16 ensures t[i] == u[i] {
      if i < 15 {
        assert Xor(r, s)[i + 1] == (r[i + 1] != s[i + 1]);
      }
    }
  }

  lemma {:induction false} RunLinear(r: Register, s: Register, a: Bits, b: Bits)
    requires |a| == |b|
    ensures Run(Xor(r, s), Xor(a, b)) == Xor(Run(r, a), Run(s, b))
    decreases |a|
  {
    if a != [] {
      FeedLinear(r, s, a[0], b[0]);
      assert Xor(a, b)[1..] == Xor(a[1..], b[1..]);
      RunLinear(Feed(r, a[0]), Feed(s, b[0]), a[1..], b[1..]);
    }
  }

  lemma FeedInjective(r: Register, s: Register, b: bool)
    requires Feed(r, b) == Feed(s, b)
    ensures r == s
  {
    // The generator has a constant term, so the last bit reveals the feedback.
    assert Feed(r, b)[15] == (r[0] != b) && Feed(s, b)[15] == (s[0] != b);
    forall i | 1 <= i < 16 ensures r[i] == s[i] {
      assert Feed(r, b)[i - 1] == (r[i] != ((r[0] != b) && GENERATOR[i - 1]));
      assert Feed(s, b)[i - 1] == (s[i] != ((s[0] != b) && GENERATOR[i - 1]));
    }
  }

  lemma {:induction false} RunInjective(r: Register, s: Register, bs: Bits)
    requires Run(r, bs) == Run(s, bs)
    ensures r == s
    decreases |bs|
  {
    if bs != [] {
      RunInjective(Feed(r, bs[0]), Feed(s, bs[0]), bs[1..]);
      FeedInjective(r, s, bs[0]);
    }
  }

  lemma {:induction false} ZeroRun(n: nat)
    ensures Run(Zeros(16), Zeros(n)) == Zeros(16)
  {
    if n > 0 {
      assert Feed(Zeros(16), false) == Zeros(16);
      assert Zeros(n)[1..] == Zeros(n - 1);
      ZeroRun(n - 1);
    }
  }

  /** Feeding a register its own leading bits only shifts it. */
  lemma {:induction false} SelfCancel(r: Register, k: nat)
    requires k <= 16
    ensures Run(r, r[..k]) == r[k..] + Zeros(k)
    decreases k
  {
    if k > 0 {
      var r' := Feed(r, r[0]);
      assert r[..k][1..] == r'[..k - 1];
      SelfCancel(r', k - 1);
      assert r'[k - 1..] + Zeros(k - 1) == r[k..] + Zeros(k);
    } else {
      assert r[..0] == [];
    }
  }

  /** Appending the register's own contents always ends at zero: the residue theorem. */
  lemma {:induction false} ResidueZero(r: Register, bs: Bits)
    ensures Run(r, bs + Run(r, bs)) == Zeros(16)
  {
    var c := Run(r, bs);
    RunAppend(r, bs, c);
    SelfCancel(c, 16);
    assert c[..16] == c;
    assert c[16..] + Zeros(16) == Zeros(16);
  }

  /** Only the appended register contents end at zero. */
  lemma {:induction false} ResidueZeroIff(r: Register, bs: Bits, c: Register)
    ensures Run(r, bs + c) == Zeros(16) <==> c == Run(r, bs)
  {
    ResidueZero(r, bs);
    if Run(r, bs + c) == Zeros(16) {
      RunAppend(r, bs, c);
      SelfCancel(c, 16);
      assert c[..16] == c;
      assert c[16..] + Zeros(16) == Zeros(16);
      RunInjective(Run(r, bs), c, c);
    }
  }

  // ----- Error detection ---------------------------------------------------------------

  function Pad(w: Bits): Register
    requires |w| <= 16
  {
    w + Zeros(16 - |w|)
  }

  /** Feeding `w` to an empty register equals feeding zeros to a register preset with `w`. */
  lemma {:induction false} PresetEquivalence(w: Bits)
    requires |w| <= 16
    ensures Run(Zeros(16), w) == Run(Pad(w), Zeros(|w|))
  {
    var n, z, r := |w|, Zeros(16), Pad(w);
    OwnBitsCancel(w);
    XorZeros(r);
    ZerosXor(w);
    RunLinear(r, z, Zeros(n), w);
    XorZeroEqual(Run(r, Zeros(n)), Run(z, w));
  }

  lemma {:induction false} OwnBitsCancel(w: Bits)
    requires |w| <= 16
    ensures Run(Pad(w), w) == Zeros(16)
  {
    SelfCancel(Pad(w), |w|);
    assert Pad(w)[..|w|] == w;
    assert Pad(w)[|w|..] + Zeros(|w|) == Zeros(16);
  }

  lemma XorZeros(a: Bits)
    ensures Xor(a, Zeros(|a|)) == a
  {
  }

  lemma ZerosXor(a: Bits)
    ensures Xor(Zeros(|a|), a) == a
  {
  }

  lemma XorZeroEqual(a: Bits, b: Bits)
    requires |a| == |b|
    ensures Xor(a, b) == Zeros(|a|) <==> a == b
  {
    if Xor(a, b) == Zeros(|a|) {
      forall i | 0 <= i < |a| ensures a[i] == b[i] {
        assert !Xor(a, b)[i];
      }
    }
  }

  /** A nonzero pattern of at most sixteen bits never runs to zero. */
  lemma {:induction false} PatternNonZero(w: Bits)
    requires |w| <= 16 && w != Zeros(|w|)
    ensures Run(Zeros(16), w) != Zeros(16)
  {
    var k :| 0 <= k < |w| && w[k];
    assert Pad(w)[k];
    PresetEquivalence(w);
    ZeroRun(|w|);
    if Run(Zeros(16), w) == Zeros(16) {
      RunInjective(Pad(w), Zeros(16), Zeros(|w|));
    }
  }

  /** A burst of at most sixteen bits anywhere in a message leaves a nonzero register. */
  lemma {:induction false} BurstNonZero(before: nat, w: Bits, after: nat)
    requires |w| <= 16 && w != Zeros(|w|)
    ensures Run(Zeros(16), Zeros(before) + w + Zeros(after)) != Zeros(16)
  {
    var z := Zeros(16);
    RunAppend(z, Zeros(before) + w, Zeros(after));
    RunAppend(z, Zeros(before), w);
    ZeroRun(before);
    PatternNonZero(w);
    ZeroRun(after);
    if Run(Run(z, w), Zeros(after)) == z {
      RunInjective(Run(z, w), z, Zeros(after));
    }
  }

  lemma {:induction false} ParityXor(a: Bits, b: Bits)
    requires |a| == |b|
    ensures Parity(Xor(a, b)) == (Parity(a) != Parity(b))
    decreases |a|
  {
    if a != [] {
      assert Xor(a, b)[1..] == Xor(a[1..], b[1..]);
      ParityXor(a[1..], b[1..]);
    }
  }

  lemma {:induction false} ParityAppend(a: Bits, b: Bits)
    ensures Parity(a + b) == (Parity(a) != Parity(b))
    decreases |a|
  {
    if a == [] {
      assert a + b == b;
    } else {
      assert (a + b)[1..] == a[1..] + b;
      ParityAppend(a[1..], b);
    }
  }

  lemma {:induction false} ParitySuffix(bs: Bits, i: nat)
    requires i < |bs|
    ensures Parity(bs[i..]) == (bs[i] != Parity(bs[i + 1..]))
  {
    assert bs[i..][1..] == bs[i + 1..];
  }

  lemma GeneratorParity()
    ensures Parity(GENERATOR)
  {
    var i := 16;
    while i > 0
      invariant 0 <= i <= 16
      invariant Parity(GENERATOR[i..]) == (i <= 3 || 10 < i <= 15)
    {
      i := i - 1;
      ParitySuffix(GENERATOR, i);
    }
    assert GENERATOR[0..] == GENERATOR;
  }

  lemma {:induction false} FeedParity(r: Register, b: bool)
    ensures Parity(Feed(r, b)) == (Parity(r) != b)
  {
    var shifted := r[1..] + [false];
    ParityAppend(r[1..], [false]);
    if r[0] != b {
      ParityXor(shifted, GENERATOR);
      GeneratorParity();
    }
  }

  /** x + 1 divides the generator, so the register tracks the parity of everything fed. */
  lemma {:induction false} RunParity(r: Register, bs: Bits)
    ensures Parity(Run(r, bs)) == (Parity(r) != Parity(bs))
    decreases |bs|
  {
    if bs != [] {
      FeedParity(r, bs[0]);
      RunParity(Feed(r, bs[0]), bs[1..]);
    }
  }

  lemma {:induction false} ZerosParity(n: nat)
    ensures !Parity(Zeros(n))
  {
    if n > 0 {
      assert Zeros(n)[1..] == Zeros(n - 1);
      ZerosParity(n - 1);
    }
  }

  // ----- The register computes a polynomial remainder ----------------------------------

  /** The message with the preset added to its first sixteen bits, times x^16. */
  function Dividend(preset: Register, bs: Bits): (d: Bits)
    ensures |d| == |bs| + 16
  {
    Xor(preset + Zeros(|bs|), bs + Zeros(16))
  }

  /** Quotient times generator plus remainder. */
  function Recompose(q: Bits, r: Register): (d: Bits)
    ensures |d| == |q| + 16
  {
    Xor(TimesGenerator(q), Zeros(|q|) + r)
  }

  lemma {:induction false} DividendStep(r: Register, bs: Bits, i: nat)
    requires bs != [] && 0 < i < |bs| + 16
    ensures Dividend(r, bs)[0] == (r[0] != bs[0])
    ensures Dividend(r, bs)[i]
         == (Lead(r[0] != bs[0], |bs| - 1)[i] != Dividend(Feed(r, bs[0]), bs[1..])[i - 1])
  {
    var r' := Feed(r, bs[0]);
    assert (bs + Zeros(16))[i] == (bs[1..] + Zeros(16))[i - 1];
    if i < 17 {
      assert (r' + Zeros(|bs| - 1))[i - 1] == r'[i - 1];
    }
  }

  lemma {:induction false} ProductStep(q: Bits, i: nat)
    requires q != [] && 0 < i < |q| + 16
    ensures TimesGenerator(q)[0] == q[0]
    ensures TimesGenerator(q)[i] == (Lead(q[0], |q| - 1)[i] != TimesGenerator(q[1..])[i - 1])
  {
    ShiftedSum(Lead(q[0], |q| - 1), TimesGenerator(q[1..]), i);
  }

  lemma ShiftedSum(a: Bits, b: Bits, i: nat)
    requires |a| == |b| + 1 && 0 < i < |a|
    ensures Xor(a, [false] + b)[0] == a[0]
    ensures Xor(a, [false] + b)[i] == (a[i] != b[i - 1])
  {
  }

  lemma {:induction false} RecomposeStep(q: Bits, r: Register, i: nat)
    requires q != [] && 0 < i < |q| + 16
    ensures Recompose(q, r)[0] == q[0]
    ensures Recompose(q, r)[i] == (Lead(q[0], |q| - 1)[i] != Recompose(q[1..], r)[i - 1])
  {
    ProductStep(q, i);
    var tail := Zeros(|q|) + r;
    assert tail[i] == (Zeros(|q| - 1) + r)[i - 1];
    assert Recompose(q[1..], r)[i - 1]
        == (TimesGenerator(q[1..])[i - 1] != (Zeros(|q| - 1) + r)[i - 1]);
  }

  /** Division algorithm: dividend equals quotient times generator plus register. */
  lemma {:induction false} DivisionIdentity(r: Register, bs: Bits)
    ensures Dividend(r, bs) == Recompose(Quotient(r, bs), Run(r, bs))
    decreases |bs|
  {
    var q := Quotient(r, bs);
    var left, right := Dividend(r, bs), Recompose(q, Run(r, bs));
    if bs != [] {
      DivisionIdentity(Feed(r, bs[0]), bs[1..]);
      assert q[1..] == Quotient(Feed(r, bs[0]), bs[1..]);
      forall i | 0 <= i < |left| ensures left[i] == right[i] {
        var k := if i == 0 then 1 else i;
        DividendStep(r, bs, k);
        RecomposeStep(q, Run(r, bs), k);
      }
    }
  }

  lemma {:induction false} RemainderUnique(q: Bits, p: Bits, r: Register, s: Register)
    requires |q| == |p| && Recompose(q, r) == Recompose(p, s)
    ensures q == p && r == s
    decreases |q|
  {
    if q == [] {
      assert forall i :: 0 <= i < 16 ==> Recompose(q, r)[i] == r[i] && Recompose(p, s)[i] == s[i];
    } else {
      var a, b := Recompose(q[1..], r), Recompose(p[1..], s);
      forall i | 0 <= i < |a| ensures a[i] == b[i] {
        RecomposeStep(q, r, i + 1);
        RecomposeStep(p, s, i + 1);
      }
      RecomposeStep(q, r, 1);
      RecomposeStep(p, s, 1);
      RemainderUnique(q[1..], p[1..], r, s);
      assert q == [q[0]] + q[1..] && p == [p[0]] + p[1..];
    }
  }

  /** The register is the remainder of the dividend, and there is no other. */
  lemma {:induction false} RegisterIsRemainder(preset: Register, bs: Bits, q: Bits, r: Register)
    requires |q| == |bs|
    ensures Dividend(preset, bs) == Recompose(q, r)
       <==> q == Quotient(preset, bs) && r == Run(preset, bs)
  {
    DivisionIdentity(preset, bs);
    if Dividend(preset, bs) == Recompose(q, r) {
      RemainderUnique(q, Quotient(preset, bs), r, Run(preset, bs));
    }
  }

  /** An empty register ends empty exactly on the multiples of the generator. */
  lemma {:induction false} ZeroIffMultiple(e: Bits)
    ensures Run(Zeros(16), e) == Zeros(16)
       <==> exists q :: |q| == |e| && TimesGenerator(q) == e + Zeros(16)
  {
    var z := Zeros(16);
    assert Dividend(z, e) == e + z;
    DivisionIdentity(z, e);
    if Run(z, e) == z {
      var q := Quotient(z, e);
      XorZeros(TimesGenerator(q));
      assert Zeros(|q|) + z == Zeros(|q| + 16);
      assert |q| == |e| && TimesGenerator(q) == e + z;
    }
    if q :| |q| == |e| && TimesGenerator(q) == e + z {
      XorZeros(TimesGenerator(q));
      assert Zeros(|q|) + z == Zeros(|q| + 16);
      RemainderUnique(q, Quotient(z, e), z, Run(z, e));
    }
  }
}
