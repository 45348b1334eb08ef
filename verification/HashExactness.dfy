/** The limits that the analysis reports for its hash programs are exactly the sizes of their
    tables: with unknown input nothing survives of the hash but the final mask or shift. */
module HashExactness {
  import opened Words
  import opened KnownBits
  import opened HashLimits

  /** Adding anything to something whose lowest bit is unknown leaves nothing known. */
  lemma AddForgets(a: Bits, b: Bits)
    requires a.Valid() && b.Valid() && a.Width() == b.Width()
    requires a.Width() > 0 ==> !(a.Known(0) && b.Known(0))
    ensures AddBits(a, b) == Top(a.Width())
  {
    forall n | 0 < n <= a.Width()
      ensures !KnownBelow(a, b, n)
    {
      assert !(a.Known(0) && b.Known(0));
    }
  }

  lemma TopShifted(W: nat)
    ensures ShlBits(Top(W), 0) == Top(W)
  {
  }

  lemma XorForgets(a: Bits)
    requires a.Valid()
    ensures XorBits(a, Top(a.Width())) == Top(a.Width()) && XorBits(Top(a.Width()), a) == Top(a.Width())
  {
  }

  lemma {:induction false} OddTimesTop(W: nat, c: nat, n: nat)
    requires c % 2 == 1 && n >= 1
    ensures MulUpTo(Top(W), c, n) == Top(W)
  {
    hide AddBits, ShlBits, Const;
    if n == 1 {
      assert HasBit(c, 0);
      TopShifted(W);
      AddForgets(Const(0, W), Top(W));
    } else {
      OddTimesTop(W, c, n - 1);
      if HasBit(c, n - 1) { AddForgets(Top(W), ShlBits(Top(W), n - 1)); }
    }
  }

  lemma MulForgets(W: nat, c: nat)
    requires c % 2 == 1
    ensures MulConstBits(Top(W), c) == Top(W)
  {
    hide MulUpTo;
    if W > 0 {
      OddTimesTop(W, c, W);
    } else {
      assert MulConstBits(Top(W), c).k1 == [] && MulConstBits(Top(W), c).k0 == [];
    }
  }

  lemma {:induction false} Fnv1aForgets(rounds: nat, W: nat)
    requires rounds >= 1
    ensures Fnv1aBits(rounds, W) == Top(W)
  {
    hide MulConstBits, XorBits;
    XorForgets(Fnv1aBits(rounds - 1, W));
    MulForgets(W, FNV_PRIME);
  }

  /** The mask 2^n - 1 has exactly its n low bits set. */
  lemma {:induction false} MaskBits(n: nat, width: nat, i: nat)
    requires i < width
    ensures FromNat(Pow2(n) - 1, width)[i] <==> i < n
  {
    hide FromNat;
    if n == 0 {
      FromNatZero(width);
    } else {
      MaskUnfold(n, width);
      if i > 0 { MaskBits(n - 1, width - 1, i - 1); }
    }
  }

  lemma MaskValue(n: nat, W: nat)
    requires n <= W
    ensures Value(FromNat(Pow2(n) - 1, W)) == Pow2(n) - 1
  {
    hide FromNat, Value;
    ValueFromNat(Pow2(n) - 1, W);
    Pow2Monotone(n, W);
    ModUnique(Pow2(n) - 1, 0, Pow2(W), Pow2(n) - 1);
  }

  /** An abstract value of which exactly the bits from n up are known, to be zero. */
  lemma LowUnknown(r: Bits, n: nat, W: nat)
    requires r.Valid() && r.Width() == W && n <= W
    requires forall i :: 0 <= i < W ==> !r.k1[i] && (r.k0[i] <==> i >= n)
    ensures r.Interval() == (0, Pow2(n) - 1)
  {
    hide FromNat, Value, Pow2;
    var mask := FromNat(Pow2(n) - 1, W);
    forall i | 0 <= i < W
      ensures r.Highest()[i] == mask[i]
    {
      MaskBits(n, W, i);
    }
    assert r.Highest() == mask && r.k1 == Zeros(W);
    MaskValue(n, W);
    ValueZeros(W);
  }

  /** All three programs report exactly [0, 2^n - 1], whatever the number of rounds. */
  lemma LimitsAreExact(rounds: nat, n: nat, W: nat)
    requires rounds >= 1 && n <= W
    ensures ModPow2(Fnv1aBits(rounds, W), n).Interval() == (0, Pow2(n) - 1)
    ensures MultShiftBits(n, W).Interval() == (0, Pow2(n) - 1)
    ensures ModPow2(XorshiftBits(Top(W)), n).Interval() == (0, Pow2(n) - 1)
  {
    hide FromNat, Pow2, Fnv1aBits, MulConstBits;
    Fnv1aForgets(rounds, W);
    MulForgets(W, FIBONACCI);
    assert XorshiftBits(Top(W)) == Top(W) by { XorshiftForgets(W); }
    MaskedTop(n, W);
    LowUnknown(ShrBits(Top(W), W - n), n, W);
  }

  lemma XorshiftForgets(W: nat)
    ensures XorshiftBits(Top(W)) == Top(W)
  {
    hide XorBits;
    XorForgets(ShlBits(Top(W), 13));
    XorForgets(ShrBits(Top(W), 17));
    XorForgets(ShlBits(Top(W), 5));
  }

  lemma MaskedTop(n: nat, W: nat)
    requires n <= W
    ensures ModPow2(Top(W), n).Interval() == (0, Pow2(n) - 1)
  {
    hide FromNat, Pow2;
    var mask := FromNat(Pow2(n) - 1, W);
    forall i | 0 <= i < W
      ensures mask[i] <==> i < n
    {
      MaskBits(n, W, i);
    }
    LowUnknown(ModPow2(Top(W), n), n, W);
  }

  // ----- what the concrete hashes are ----------------------------------------------------------

  /** FNV-1a as arithmetic: exclusive-or first, then multiply by the prime. */
  lemma Fnv1aArithmetic(input: seq<Word>, w: Word, W: nat)
    requires |w| == W && forall v :: v in input ==> |v| == W
    ensures Value(Fnv1a([], W)) == 2166136261 % Pow2(W)
    ensures Value(Fnv1a(input + [w], W)) == Value(Xor(Fnv1a(input, W), w)) * 16777619 % Pow2(W)
  {
    hide FromNat, Value, Pow2, Xor, Times;
    assert (input + [w])[..|input|] == input;
    ValueFromNat(2166136261, W);
    TimesValue(Xor(Fnv1a(input, W), w), 16777619);
  }

  /** The word with the single bit n set. */
  function Single(n: nat): (x: Word)
    ensures |x| == 32
  {
    seq(32, i => i == n)
  }

  /** Two words whose images under the 13, 17, 5 xorshift are known, one for each end. */
  lemma XorshiftVectors()
    ensures forall i :: 0 <= i < 32 ==> (Xorshift(Single(0))[i] <==> i == 0 || i == 5 || i == 13 || i == 18)
    ensures forall i :: 0 <= i < 32 ==> (Xorshift(Single(31))[i] <==> i == 14 || i == 19 || i == 31)
  {
    var x, u := Single(0), Single(31);
    var y, v := Xor(x, Shl(x, 13)), Xor(u, Shl(u, 13));
    assert forall i :: 0 <= i < 32 ==> (y[i] <==> i == 0 || i == 13);
    assert forall i :: 0 <= i < 32 ==> (v[i] <==> i == 31);
    var z, w := Xor(y, Shr(y, 17)), Xor(v, Shr(v, 17));
    assert forall i :: 0 <= i < 32 ==> (z[i] <==> i == 0 || i == 13);
    assert forall i :: 0 <= i < 32 ==> (w[i] <==> i == 14 || i == 31);
  }
}
