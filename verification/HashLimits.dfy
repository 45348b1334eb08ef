/** The hash functions of the demo as abstract programs over known bits, next to the
    concrete hashes they stand for, and the limits the analysis reports for them.
    The program fixes the width `W` at 32; every statement here holds for any width. */
module HashLimits {
  import opened Words
  import opened KnownBits

  const FNV_OFFSET_BASIS := 2166136261
  const FNV_PRIME := 16777619
  const FIBONACCI := 2654435761

  function Times(x: Word, c: nat): (r: Word)
    ensures |r| == |x|
  {
    FromNat(Value(x) * c, |x|)
  }

  // ----- FNV-1a folded into a power-of-two table ------------------------------------

  /** The 32-bit FNV-1a accumulator over a sequence of inputs. */
  function Fnv1a(input: seq<Word>, W: nat): (h: Word)
    requires forall w :: w in input ==> |w| == W
    ensures |h| == W
  {
    if input == [] then FromNat(FNV_OFFSET_BASIS, W)
    else
      var last := |input| - 1;
      Times(Xor(Fnv1a(input[..last], W), input[last]), FNV_PRIME)
  }

  function Fnv1aBits(rounds: nat, W: nat): (h: Bits)
    ensures h.Valid() && h.Width() == W
  {
    if rounds == 0 then Const(FNV_OFFSET_BASIS, W)
    else MulConstBits(XorBits(Fnv1aBits(rounds - 1, W), Top(W)), FNV_PRIME)
  }

  method AbstractFnv1a(rounds: nat, tableBits: nat, W: nat) returns (r: Bits)
    ensures r == ModPow2(Fnv1aBits(rounds, W), tableBits)
  {
    var h := Const(FNV_OFFSET_BASIS, W);
    for i := 0 to rounds
      invariant h == Fnv1aBits(i, W)
    {
      h := XorBits(h, Top(W));
      h := MulConst(h, FNV_PRIME);
    }
    r := ModPow2(h, tableBits);
  }

  lemma {:induction false} Fnv1aSound(input: seq<Word>, W: nat)
    requires forall w :: w in input ==> |w| == W
    ensures Fnv1aBits(|input|, W).Contains(Fnv1a(input, W))
  {
    if input == [] {
      ConstContains(FNV_OFFSET_BASIS, W);
    } else {
      var last := |input| - 1;
      var a, h := Fnv1aBits(last, W), Fnv1a(input[..last], W);
      Fnv1aSound(input[..last], W);
      BitwiseSound(a, Top(W), h, input[last]);
      MulConstSound(XorBits(a, Top(W)), Xor(h, input[last]), FNV_PRIME);
    }
  }

  /** For any number of rounds and any input, the table index lies in the abstract
      result, hence within its interval, which itself stays inside the table. */
  lemma {:induction false} Fnv1aLimit(input: seq<Word>, tableBits: nat, W: nat)
    requires forall w :: w in input ==> |w| == W
    ensures var r := ModPow2(Fnv1aBits(|input|, W), tableBits);
            var index := Value(Fnv1a(input, W)) % Pow2(tableBits);
            && r.Contains(FromNat(index, W))
            && r.Interval().0 <= index <= r.Interval().1 < Pow2(tableBits)
  {
    Fnv1aSound(input, W);
    MaskedLimit(Fnv1aBits(|input|, W), Fnv1a(input, W), tableBits);
  }

  /** What a final power-of-two mask does to any abstract value. */
  lemma MaskedLimit(a: Bits, h: Word, n: nat)
    requires a.Valid() && a.Contains(h)
    ensures var r := ModPow2(a, n);
            var v := Value(h) % Pow2(n);
            && r.Contains(FromNat(v, a.Width()))
            && r.Interval().0 <= v <= r.Interval().1 < Pow2(n)
  {
    ModPow2Sound(a, h, n);
    ModAtMost(Value(h), Pow2(n));
    IntervalBounds(ModPow2(a, n), Value(h) % Pow2(n), Value(h));
    MaskedInterval(a, n);
  }

  /** A number no larger than a word's value keeps its value in the word. */
  lemma IntervalBounds(r: Bits, v: nat, bound: nat)
    requires r.Valid() && r.Contains(FromNat(v, r.Width()))
    requires v <= bound < Pow2(r.Width())
    ensures r.Interval().0 <= v <= r.Interval().1
  {
    IntervalIsTight(r);
    ValueFromNat(v, r.Width());
    ModUnique(v, 0, Pow2(r.Width()), v);
  }

  lemma MaskedInterval(a: Bits, n: nat)
    requires a.Valid()
    ensures ModPow2(a, n).Interval().1 < Pow2(n)
  {
    hide Value, Pow2;
    var mask := FromNat(Pow2(n) - 1, a.Width());
    var r := ModPow2(a, n);
    forall i | 0 <= i < a.Width()
      ensures r.Highest()[i] ==> mask[i]
    {
      assert !mask[i] ==> r.k0[i];
    }
    ValueMonotone(r.Highest(), mask);
    ValueFromNat(Pow2(n) - 1, a.Width());
    ModAtMost(Pow2(n) - 1, Pow2(a.Width()));
  }

  lemma ModAtMost(v: nat, m: nat)
    requires m > 0
    ensures v % m <= v
  {
    if v < m { ModUnique(v, 0, m, v); }
  }

  // ----- multiplicative hash ------------------------------------------------------------

  function MultShiftBits(outBits: nat, W: nat): (r: Bits)
    requires outBits <= W
    ensures r.Valid() && r.Width() == W
  {
    ShrBits(MulConstBits(Top(W), FIBONACCI), W - outBits)
  }

  lemma MultShiftWord(x: Word, outBits: nat, W: nat)
    requires |x| == W && outBits <= W
    ensures var r, v := MultShiftBits(outBits, W), Value(Shr(Times(x, FIBONACCI), W - outBits));
            && r.Contains(FromNat(v, W))
            && r.Interval().0 <= v <= r.Interval().1 < Pow2(outBits)
  {
    hide FromNat, Value, Pow2, MulUpTo, MulConstBits, ShrBits, Shr;
    MulConstSound(Top(W), x, FIBONACCI);
    ShiftedLimit(MulConstBits(Top(W), FIBONACCI), Times(x, FIBONACCI), W - outBits);
  }

  /** (x * C mod 2^W) shifted right, in plain arithmetic. */
  function MultShift(x: Word, outBits: nat): (v: nat)
    requires outBits <= |x|
  {
    Value(x) * FIBONACCI % Pow2(|x|) / Pow2(|x| - outBits)
  }

  lemma {:induction false} MultShiftLimit(x: Word, outBits: nat, W: nat)
    requires |x| == W && outBits <= W
    ensures var r, v := MultShiftBits(outBits, W), MultShift(x, outBits);
            && r.Contains(FromNat(v, W))
            && r.Interval().0 <= v <= r.Interval().1 < Pow2(outBits)
  {
    hide FromNat, Value, Pow2, MultShiftBits, Times;
    TimesValue(x, FIBONACCI);
    ShrValue(Times(x, FIBONACCI), W - outBits);
    MultShiftWord(x, outBits, W);
  }

  lemma {:induction false} TimesValue(x: Word, c: nat)
    ensures Value(Times(x, c)) == Value(x) * c % Pow2(|x|)
  {
    ValueFromNat(Value(x) * c, |x|);
  }

  /** What a final right shift does to any abstract value. */
  lemma ShiftedLimit(a: Bits, p: Word, n: nat)
    requires a.Valid() && a.Contains(p) && n <= a.Width()
    ensures var r := ShrBits(a, n);
            var v := Value(Shr(p, n));
            && r.Contains(FromNat(v, a.Width()))
            && r.Interval().0 <= v <= r.Interval().1 < Pow2(a.Width() - n)
  {
    var r, w := ShrBits(a, n), Shr(p, n);
    assert r.Contains(w) by { ShiftSound(a, p, n); }
    assert FromNat(Value(w), |w|) == w by { FromNatValue(w); }
    assert r.Interval().0 <= Value(w) <= r.Interval().1 by { IntervalIsTight(r); }
    HighBitsClear(r, a.Width() - n);
  }

  /** If the bits from k upwards are known to be zero, the maximum is below 2^k. */
  lemma HighBitsClear(r: Bits, k: nat)
    requires r.Valid() && k <= r.Width()
    requires forall i :: k <= i < r.Width() ==> r.k0[i]
    ensures r.Interval().1 < Pow2(k)
  {
    var w := r.Highest();
    assert w == w[..k] + Zeros(|w| - k);
    ValueConcat(w[..k], Zeros(|w| - k));
    ValueZeros(|w| - k);
    assert Pow2(k) * 0 == 0;
  }

  // ----- xorshift and a mask ---------------------------------------------------------------

  function Xorshift(x: Word): (r: Word)
    ensures |r| == |x|
  {
    var y := Xor(x, Shl(x, 13));
    var z := Xor(y, Shr(y, 17));
    Xor(z, Shl(z, 5))
  }

  function XorshiftBits(a: Bits): (r: Bits)
    requires a.Valid()
    ensures r.Valid() && r.Width() == a.Width()
  {
    var y := XorBits(a, ShlBits(a, 13));
    var z := XorBits(y, ShrBits(y, 17));
    XorBits(z, ShlBits(z, 5))
  }

  method AbstractXorshiftMask(maskBits: nat, W: nat) returns (r: Bits)
    ensures r == ModPow2(XorshiftBits(Top(W)), maskBits)
  {
    var x := Top(W);
    x := XorBits(x, ShlBits(x, 13));
    x := XorBits(x, ShrBits(x, 17));
    x := XorBits(x, ShlBits(x, 5));
    r := AndBits(x, Const(Pow2(maskBits) - 1, W));
  }

  lemma XorshiftSound(a: Bits, x: Word)
    requires a.Valid() && a.Contains(x)
    ensures XorshiftBits(a).Contains(Xorshift(x))
  {
    ShiftSound(a, x, 13);
    BitwiseSound(a, ShlBits(a, 13), x, Shl(x, 13));
    var b, y := XorBits(a, ShlBits(a, 13)), Xor(x, Shl(x, 13));
    ShiftSound(b, y, 17);
    BitwiseSound(b, ShrBits(b, 17), y, Shr(y, 17));
    var c, z := XorBits(b, ShrBits(b, 17)), Xor(y, Shr(y, 17));
    ShiftSound(c, z, 5);
    BitwiseSound(c, ShlBits(c, 5), z, Shl(z, 5));
  }

  lemma XorshiftLimit(x: Word, maskBits: nat, W: nat)
    requires |x| == W
    ensures var r := ModPow2(XorshiftBits(Top(W)), maskBits);
            var v := Value(Xorshift(x)) % Pow2(maskBits);
            && r.Contains(FromNat(v, W))
            && r.Interval().0 <= v <= r.Interval().1 < Pow2(maskBits)
  {
    XorshiftSound(Top(W), x);
    MaskedLimit(XorshiftBits(Top(W)), Xorshift(x), maskBits);
  }

  // ----- ring of any size ----------------------------------------------------------------------

  /** The reported limit of a hash reduced modulo the ring size: below twice the ring. */
  lemma RingLimit(x: Word, ringSize: nat, W: nat)
    requires |x| == W && 1 <= ringSize <= Pow2(W)
    ensures var r := ModConst(ringSize, W);
            var v := Value(x) % ringSize;
            && r.Contains(FromNat(v, W))
            && r.Interval().0 == 0 && v <= r.Interval().1 && r.Interval().1 < Pow2(BitLength(ringSize - 1))
  {
    var r := ModConst(ringSize, W);
    ModConstSound(ringSize, Value(x), W);
    ModAtMost(Value(x), ringSize);
    IntervalBounds(r, Value(x) % ringSize, Value(x));
    ValueZeros(W);
    RingBitLength(ringSize, W);
    HighBitsClear(r, BitLength(ringSize - 1));
  }

  lemma RingBitLength(ringSize: nat, W: nat)
    requires 1 <= ringSize <= Pow2(W)
    ensures BitLength(ringSize - 1) <= W
  {
    var top := BitLength(ringSize - 1);
    if top > W {
      Pow2Monotone(W, top - 1);
      assert false;
    }
  }
}
