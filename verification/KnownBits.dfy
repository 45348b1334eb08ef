/** The known-bits abstract domain: every bit of a word is known to be one, known to
    be zero, or unknown.  The width is a parameter; the program fixes it at 32. */
module KnownBits {
  import opened Words

  /** `k1`: bits known to be one, `k0`: bits known to be zero. */
  datatype Bits = Bits(k1: Word, k0: Word) {

    function Width(): nat {
      |k1|
    }

    /** No bit is claimed to be both one and zero. */
    predicate Valid() {
      && |k0| == |k1|
      && forall i :: 0 <= i < |k1| ==> !(k1[i] && k0[i])
    }

    /** The concretisation: the words this abstract value stands for. */
    predicate Contains(x: Word)
      requires Valid()
    {
      && |x| == |k1|
      && forall i :: 0 <= i < |x| ==> (k1[i] ==> x[i]) && (k0[i] ==> !x[i])
    }

    predicate Known(i: nat)
      requires Valid() && i < Width()
    {
      k1[i] || k0[i]
    }

    function Lowest(): (w: Word)
    {
      k1
    }

    function Highest(): (w: Word)
      requires Valid()
      ensures |w| == Width()
    {
      Or(k1, Not(Or(k1, k0)))
    }

    /** (min, max) of the value. */
    function Interval(): (r: (nat, nat))
      requires Valid()
    {
      (Value(Lowest()), Value(Highest()))
    }
  }

  /** `a` claims at least as much as `b`. */
  predicate AtLeastAsPrecise(a: Bits, b: Bits)
    requires a.Valid() && b.Valid() && a.Width() == b.Width()
  {
    forall i :: 0 <= i < a.Width() ==> (b.k1[i] ==> a.k1[i]) && (b.k0[i] ==> a.k0[i])
  }

  function Const(c: nat, width: nat): (r: Bits)
    ensures r.Valid() && r.Width() == width
  {
    Bits(FromNat(c, width), Not(FromNat(c, width)))
  }

  function Top(width: nat): (r: Bits)
    ensures r.Valid() && r.Width() == width
    ensures forall x: Word :: |x| == width ==> r.Contains(x)
  {
    Bits(Zeros(width), Zeros(width))
  }

  // ----- transfer functions ------------------------------------------------------

  function AndBits(a: Bits, b: Bits): (r: Bits)
    requires a.Valid() && b.Valid() && a.Width() == b.Width()
    ensures r.Valid() && r.Width() == a.Width()
  {
    Bits(And(a.k1, b.k1), Or(a.k0, b.k0))
  }

  function OrBits(a: Bits, b: Bits): (r: Bits)
    requires a.Valid() && b.Valid() && a.Width() == b.Width()
    ensures r.Valid() && r.Width() == a.Width()
  {
    Bits(Or(a.k1, b.k1), And(a.k0, b.k0))
  }

  function XorBits(a: Bits, b: Bits): (r: Bits)
    requires a.Valid() && b.Valid() && a.Width() == b.Width()
    ensures r.Valid() && r.Width() == a.Width()
  {
    var both := And(Or(a.k1, a.k0), Or(b.k1, b.k0));
    var v1 := And(Xor(a.k1, b.k1), both);
    Bits(v1, And(both, Not(v1)))
  }

  function ShlBits(a: Bits, n: nat): (r: Bits)
    requires a.Valid()
    ensures r.Valid() && r.Width() == a.Width()
  {
    var lowZero := seq(a.Width(), i => i < n);
    Bits(Shl(a.k1, n), Or(Shl(a.k0, n), lowZero))
  }

  function ShrBits(a: Bits, n: nat): (r: Bits)
    requires a.Valid()
    ensures r.Valid() && r.Width() == a.Width()
  {
    var highZero := seq(a.Width(), i => i + n >= a.Width());
    Bits(Shr(a.k1, n), Or(Shr(a.k0, n), highZero))
  }

  /** Every bit of both operands below position n is known. */
  predicate KnownBelow(a: Bits, b: Bits, n: nat)
    requires a.Valid() && b.Valid() && a.Width() == b.Width() && n <= a.Width()
  {
    forall j :: 0 <= j < n ==> a.Known(j) && b.Known(j)
  }

  /** What the adder answers: sum bits up to the first unknown input bit, nothing above. */
  function AddBits(a: Bits, b: Bits): (r: Bits)
    requires a.Valid() && b.Valid() && a.Width() == b.Width()
    ensures r.Valid() && r.Width() == a.Width()
  {
    Bits(seq(a.Width(), i requires 0 <= i < a.Width() => KnownBelow(a, b, i + 1) && SumBit(a.k1, b.k1, i)),
         seq(a.Width(), i requires 0 <= i < a.Width() => KnownBelow(a, b, i + 1) && !SumBit(a.k1, b.k1, i)))
  }

  /** The loop: one output bit per round, the carry becoming unknown for good at the
      first position where an input bit or the carry is unknown. */
  method Adder(a: Bits, b: Bits) returns (r: Bits)
    requires a.Valid() && b.Valid() && a.Width() == b.Width()
    ensures r == AddBits(a, b)
  {
    var k1, k0: Word := [], [];
    var carryKnown, carry := true, false;
    ghost var sum := AddBits(a, b);
    for i := 0 to a.Width()
      invariant carryKnown == KnownBelow(a, b, i)
      invariant carryKnown ==> carry == Carry(a.k1, b.k1, i)
      invariant k1 == sum.k1[..i] && k0 == sum.k0[..i]
    {
      assert sum.k1[..i + 1] == sum.k1[..i] + [sum.k1[i]];
      assert sum.k0[..i + 1] == sum.k0[..i] + [sum.k0[i]];
      if a.Known(i) && b.Known(i) && carryKnown {
        var s := Bit(a.k1[i]) + Bit(b.k1[i]) + Bit(carry);
        assert KnownBelow(a, b, i + 1);
        assert sum.k1[i] == (s % 2 == 1) && sum.k0[i] == (s % 2 == 0);
        carry := s >= 2;
        k1, k0 := k1 + [s % 2 == 1], k0 + [s % 2 == 0];
      } else {
        assert !KnownBelow(a, b, i + 1);
        assert !sum.k1[i] && !sum.k0[i];
        carryKnown := false;
        k1, k0 := k1 + [false], k0 + [false];
      }
    }
    r := Bits(k1, k0);
  }

  function HasBit(c: nat, i: nat): (b: bool)
  {
    (c / Pow2(i)) % 2 == 1
  }

  /** The sum of the shifted copies of `a` for the set bits of `c` below `n`. */
  function MulUpTo(a: Bits, c: nat, n: nat): (r: Bits)
    requires a.Valid()
    ensures r.Valid() && r.Width() == a.Width()
  {
    if n == 0 then Const(0, a.Width())
    else if HasBit(c, n - 1) then AddBits(MulUpTo(a, c, n - 1), ShlBits(a, n - 1))
    else MulUpTo(a, c, n - 1)
  }

  function MulConstBits(a: Bits, c: nat): (r: Bits)
    requires a.Valid()
    ensures r.Valid() && r.Width() == a.Width()
  {
    MulUpTo(a, c, a.Width())
  }

  method MulConst(a: Bits, c: nat) returns (r: Bits)
    requires a.Valid()
    ensures r == MulConstBits(a, c)
  {
    r := Const(0, a.Width());
    for i := 0 to a.Width()
      invariant r == MulUpTo(a, c, i)
    {
      if HasBit(c, i) {
        r := Adder(r, ShlBits(a, i));
      }
    }
  }

  function ModPow2(a: Bits, n: nat): (r: Bits)
    requires a.Valid()
    ensures r.Valid() && r.Width() == a.Width()
  {
    AndBits(a, Const(Pow2(n) - 1, a.Width()))
  }

  function BitLength(v: nat): (n: nat)
    ensures v < Pow2(n)
    ensures n > 0 ==> Pow2(n - 1) <= v
  {
    if v == 0 then 0 else 1 + BitLength(v / 2)
  }

  function ModConst(m: nat, width: nat): (r: Bits)
    requires m >= 1
    ensures r.Valid() && r.Width() == width
  {
    var top := BitLength(m - 1);
    Bits(Zeros(width), seq(width, i => i >= top))
  }

  // ----- the interval ----------------------------------------------------------------

  /** `interval()` bounds every concrete value, and both ends are concrete values. */
  lemma IntervalIsTight(a: Bits)
    requires a.Valid()
    ensures a.Contains(a.Lowest()) && a.Contains(a.Highest())
    ensures forall x :: a.Contains(x) ==> a.Interval().0 <= Value(x) <= a.Interval().1
  {
    forall x | a.Contains(x)
      ensures a.Interval().0 <= Value(x) <= a.Interval().1
    {
      ValueMonotone(a.Lowest(), x);
      ValueMonotone(x, a.Highest());
    }
  }

  /** Precision is inclusion of concretisations, in both directions. */
  lemma PrecisionIsInclusion(a: Bits, b: Bits)
    requires a.Valid() && b.Valid() && a.Width() == b.Width()
    ensures AtLeastAsPrecise(a, b) <==> forall x :: a.Contains(x) ==> b.Contains(x)
  {
    if forall x :: a.Contains(x) ==> b.Contains(x) {
      assert a.Contains(a.Lowest()) && a.Contains(a.Highest());
      assert b.Contains(a.Lowest()) && b.Contains(a.Highest());
      forall i | 0 <= i < a.Width()
        ensures (b.k1[i] ==> a.k1[i]) && (b.k0[i] ==> a.k0[i])
      {
        assert b.k1[i] ==> a.Lowest()[i];
        assert b.k0[i] ==> !a.Highest()[i];
      }
    }
  }

  // ----- soundness and best precision of the bitwise operators --------------------------

  lemma BitwiseSound(a: Bits, b: Bits, x: Word, y: Word)
    requires a.Valid() && b.Valid() && a.Width() == b.Width()
    requires a.Contains(x) && b.Contains(y)
    ensures AndBits(a, b).Contains(And(x, y))
    ensures OrBits(a, b).Contains(Or(x, y))
    ensures XorBits(a, b).Contains(Xor(x, y))
  {
  }

  /** Any sound answer for `and` claims no more than AndBits does. */
  lemma AndIsBest(a: Bits, b: Bits, r: Bits)
    requires a.Valid() && b.Valid() && r.Valid() && a.Width() == b.Width() == r.Width()
    requires forall x, y :: a.Contains(x) && b.Contains(y) ==> r.Contains(And(x, y))
    ensures AtLeastAsPrecise(AndBits(a, b), r)
  {
    assert a.Contains(a.Lowest()) && b.Contains(b.Lowest());
    assert a.Contains(a.Highest()) && b.Contains(b.Highest());
    var lo, hi := And(a.Lowest(), b.Lowest()), And(a.Highest(), b.Highest());
    assert r.Contains(lo) && r.Contains(hi);
    forall i | 0 <= i < a.Width()
      ensures (r.k1[i] ==> AndBits(a, b).k1[i]) && (r.k0[i] ==> AndBits(a, b).k0[i])
    {
      assert (r.k1[i] ==> lo[i]) && (r.k0[i] ==> !hi[i]);
    }
  }

  lemma OrIsBest(a: Bits, b: Bits, r: Bits)
    requires a.Valid() && b.Valid() && r.Valid() && a.Width() == b.Width() == r.Width()
    requires forall x, y :: a.Contains(x) && b.Contains(y) ==> r.Contains(Or(x, y))
    ensures AtLeastAsPrecise(OrBits(a, b), r)
  {
    assert a.Contains(a.Lowest()) && b.Contains(b.Lowest());
    assert a.Contains(a.Highest()) && b.Contains(b.Highest());
    var lo, hi := Or(a.Lowest(), b.Lowest()), Or(a.Highest(), b.Highest());
    assert r.Contains(lo) && r.Contains(hi);
    forall i | 0 <= i < a.Width()
      ensures (r.k1[i] ==> OrBits(a, b).k1[i]) && (r.k0[i] ==> OrBits(a, b).k0[i])
    {
      assert (r.k1[i] ==> lo[i]) && (r.k0[i] ==> !hi[i]);
    }
  }

  lemma XorIsBest(a: Bits, b: Bits, r: Bits)
    requires a.Valid() && b.Valid() && r.Valid() && a.Width() == b.Width() == r.Width()
    requires forall x, y :: a.Contains(x) && b.Contains(y) ==> r.Contains(Xor(x, y))
    ensures AtLeastAsPrecise(XorBits(a, b), r)
  {
    var al, ah, bl, bh := a.Lowest(), a.Highest(), b.Lowest(), b.Highest();
    assert a.Contains(al) && a.Contains(ah) && b.Contains(bl) && b.Contains(bh);
    var ll, hl, lh := Xor(al, bl), Xor(ah, bl), Xor(al, bh);
    assert r.Contains(ll) && r.Contains(hl) && r.Contains(lh);
    forall i | 0 <= i < a.Width()
      ensures (r.k1[i] ==> XorBits(a, b).k1[i]) && (r.k0[i] ==> XorBits(a, b).k0[i])
    {
      assert r.k1[i] ==> ll[i] && hl[i] && lh[i];
      assert r.k0[i] ==> !ll[i] && !hl[i] && !lh[i];
    }
  }

  lemma ShiftSound(a: Bits, x: Word, n: nat)
    requires a.Valid() && a.Contains(x)
    ensures ShlBits(a, n).Contains(Shl(x, n))
    ensures ShrBits(a, n).Contains(Shr(x, n))
  {
  }

  lemma ShlIsBest(a: Bits, n: nat, r: Bits)
    requires a.Valid() && r.Valid() && a.Width() == r.Width()
    requires forall x :: a.Contains(x) ==> r.Contains(Shl(x, n))
    ensures AtLeastAsPrecise(ShlBits(a, n), r)
  {
    var lo, hi := a.Lowest(), a.Highest();
    assert a.Contains(lo) && a.Contains(hi);
    assert r.Contains(Shl(lo, n)) && r.Contains(Shl(hi, n));
    forall i | 0 <= i < a.Width()
      ensures (r.k1[i] ==> ShlBits(a, n).k1[i]) && (r.k0[i] ==> ShlBits(a, n).k0[i])
    {
      assert (r.k1[i] ==> Shl(lo, n)[i]) && (r.k0[i] ==> !Shl(hi, n)[i]);
      if n <= i {
        assert Shl(lo, n)[i] == lo[i - n] && Shl(hi, n)[i] == hi[i - n];
      }
    }
  }

  lemma ShrIsBest(a: Bits, n: nat, r: Bits)
    requires a.Valid() && r.Valid() && a.Width() == r.Width()
    requires forall x :: a.Contains(x) ==> r.Contains(Shr(x, n))
    ensures AtLeastAsPrecise(ShrBits(a, n), r)
  {
    var lo, hi := a.Lowest(), a.Highest();
    assert a.Contains(lo) && a.Contains(hi);
    assert r.Contains(Shr(lo, n)) && r.Contains(Shr(hi, n));
    forall i | 0 <= i < a.Width()
      ensures (r.k1[i] ==> ShrBits(a, n).k1[i]) && (r.k0[i] ==> ShrBits(a, n).k0[i])
    {
      assert (r.k1[i] ==> Shr(lo, n)[i]) && (r.k0[i] ==> !Shr(hi, n)[i]);
      if i + n < a.Width() {
        assert Shr(lo, n)[i] == lo[i + n] && Shr(hi, n)[i] == hi[i + n];
        assert Shr(a.k0, n)[i] == a.k0[i + n];
      }
    }
  }

  // ----- the adder -----------------------------------------------------------------------

  /** Carries agree as long as the operands do. */
  lemma {:induction false} CarryPrefix(x: Word, y: Word, u: Word, v: Word, n: nat)
    requires |x| == |y| == |u| == |v| && n <= |x|
    requires forall j :: 0 <= j < n ==> x[j] == u[j] && y[j] == v[j]
    ensures Carry(x, y, n) == Carry(u, v, n)
  {
    if n != 0 { CarryPrefix(x, y, u, v, n - 1); }
  }

  lemma AddSoundOnWords(a: Bits, b: Bits, x: Word, y: Word)
    requires a.Valid() && b.Valid() && a.Width() == b.Width()
    requires a.Contains(x) && b.Contains(y)
    ensures AddBits(a, b).Contains(Add(x, y))
  {
    forall i | 0 <= i < |x| && KnownBelow(a, b, i + 1)
      ensures SumBit(a.k1, b.k1, i) == SumBit(x, y, i)
    {
      forall j | 0 <= j <= i
        ensures x[j] == a.k1[j] && y[j] == b.k1[j]
      {
        assert a.Known(j) && b.Known(j);
      }
      CarryPrefix(a.k1, b.k1, x, y, i);
    }
  }

  /** For all words of any width: the machine sum lies in the abstract sum. */
  lemma AddSound(a: Bits, b: Bits, x: Word, y: Word)
    requires a.Valid() && b.Valid() && a.Width() == b.Width()
    requires a.Contains(x) && b.Contains(y)
    ensures AddBits(a, b).Contains(FromNat(Value(x) + Value(y), a.Width()))
  {
    AddSoundOnWords(a, b, x, y);
    AddIsAddition(x, y);
  }

  /** Unlike the bitwise operators the adder is not the most precise one: adding zero
      to a word whose low bit alone is unknown forgets the high bit. */
  lemma AddIsNotBest()
    ensures var a, b := Bits([false, false], [false, true]), Bits([false, false], [true, true]);
            && (forall x, y :: a.Contains(x) && b.Contains(y) ==> a.Contains(Add(x, y)))
            && !AtLeastAsPrecise(AddBits(a, b), a)
  {
    var a, b := Bits([false, false], [false, true]), Bits([false, false], [true, true]);
    forall x, y | a.Contains(x) && b.Contains(y)
      ensures a.Contains(Add(x, y))
    {
      assert b.k0[0] && !y[0] && !y[1] && !x[1];
      assert !Carry(x, y, 1);
      assert !Add(x, y)[1];
    }
    assert !a.Known(0) && !KnownBelow(a, b, 2);
    assert a.k0[1] && !AddBits(a, b).k0[1];
  }

  // ----- multiplication by a constant ---------------------------------------------------------

  lemma ConstContains(c: nat, width: nat)
    ensures Const(c, width).Contains(FromNat(c, width))
    ensures forall x :: Const(c, width).Contains(x) ==> x == FromNat(c, width)
  {
    forall x | Const(c, width).Contains(x)
      ensures x == FromNat(c, width)
    {
      forall i | 0 <= i < width
        ensures x[i] == FromNat(c, width)[i]
      {
        assert Const(c, width).k0[i] == !FromNat(c, width)[i];
      }
    }
  }

  /** The word that the first n rounds of shift-and-add have accumulated. */
  function Product(x: Word, c: nat, n: nat): (w: Word)
    ensures |w| == |x|
  {
    FromNat(Value(x) * (c % Pow2(n)), |x|)
  }

  lemma {:induction false} ProductZero(x: Word, c: nat)
    ensures Product(x, c, 0) == FromNat(0, |x|)
  {
    assert c % 1 == 0;
  }

  lemma ProductStep(x: Word, c: nat, n: nat)
    ensures Product(x, c, n + 1) ==
            if HasBit(c, n) then Add(Product(x, c, n), Shl(x, n)) else Product(x, c, n)
  {
    hide FromNat, Value, Shl, Add, HasBit, Pow2;
    LowBits(c, n);
    if HasBit(c, n) {
      MulPlus(Value(x), c % Pow2(n), Pow2(n));
      AddShifted(Value(x) * (c % Pow2(n)), x, n);
    }
  }

  lemma MulPlus(v: int, a: int, b: int)
    ensures v * (a + b) == v * a + v * b
  {
  }

  /** Adding words is adding the numbers they were cut from. */
  lemma AddTruncated(u: nat, v: nat, width: nat)
    ensures Add(FromNat(u, width), FromNat(v, width)) == FromNat(u + v, width)
  {
    var m := Pow2(width);
    AddIsAddition(FromNat(u, width), FromNat(v, width));
    ValueFromNat(u, width);
    ValueFromNat(v, width);
    ModAdd(u, v, m);
    FromNatCongruent(u % m + v % m, u + v, width);
  }

  lemma AddShifted(u: nat, x: Word, n: nat)
    ensures Add(FromNat(u, |x|), Shl(x, n)) == FromNat(u + Value(x) * Pow2(n), |x|)
  {
    var s := Value(x) * Pow2(n);
    ShlValue(x, n);
    ValueFromNat(s, |x|);
    ValueInjective(Shl(x, n), FromNat(s, |x|));
    AddTruncated(u, s, |x|);
  }

  lemma LowBits(c: nat, n: nat)
    ensures c % Pow2(n + 1) == c % Pow2(n) + (if HasBit(c, n) then Pow2(n) else 0)
  {
    var p := Pow2(n);
    var q := c / p;
    var b := q % 2;
    assert c == q * p + c % p;
    assert q == 2 * (q / 2) + b;
    assert q * p == (q / 2) * (2 * p) + b * p;
    assert b * p == if b == 1 then p else 0;
    ModUnique(c, q / 2, 2 * p, b * p + c % p);
  }

  lemma {:induction false} MulUpToSound(a: Bits, x: Word, c: nat, n: nat)
    requires a.Valid() && a.Contains(x)
    ensures MulUpTo(a, c, n).Contains(Product(x, c, n))
  {
    hide AddBits, ShlBits, Product, Const, Shl, Add, HasBit;
    if n == 0 {
      ProductZero(x, c);
      ConstContains(0, a.Width());
    } else {
      MulUpToSound(a, x, c, n - 1);
      ProductStep(x, c, n - 1);
      if HasBit(c, n - 1) {
        ShiftSound(a, x, n - 1);
        AddSoundOnWords(MulUpTo(a, c, n - 1), ShlBits(a, n - 1), Product(x, c, n - 1), Shl(x, n - 1));
      }
    }
  }

  /** For every constant, however large: the machine product lies in the abstract one. */
  lemma {:induction false} MulConstSound(a: Bits, x: Word, c: nat)
    requires a.Valid() && a.Contains(x)
    ensures MulConstBits(a, c).Contains(FromNat(Value(x) * c, a.Width()))
  {
    MulUpToSound(a, x, c, |x|);
    ModMul(Value(x), c, Pow2(|x|));
    FromNatCongruent(Value(x) * (c % Pow2(|x|)), Value(x) * c, |x|);
  }

  lemma FromNatCongruent(u: nat, v: nat, width: nat)
    requires u % Pow2(width) == v % Pow2(width)
    ensures FromNat(u, width) == FromNat(v, width)
  {
    FromNatMod(u, width);
    FromNatMod(v, width);
  }

  /** Constants stay exact under both operations. */
  lemma AddConstExact(c: nat, d: nat, width: nat)
    ensures AddBits(Const(c, width), Const(d, width)) == Const(c + d, width)
  {
    var x, y := FromNat(c, width), FromNat(d, width);
    ConstContains(c, width);
    ConstContains(d, width);
    AddSoundOnWords(Const(c, width), Const(d, width), x, y);
    AddTruncated(c, d, width);
    AddAllKnown(Const(c, width), Const(d, width));
    KnownIsConst(AddBits(Const(c, width), Const(d, width)), c + d);
  }

  lemma MulConstExact(c: nat, d: nat, width: nat)
    ensures MulConstBits(Const(c, width), d) == Const(c * d, width)
  {
    ConstContains(c, width);
    MulConstSound(Const(c, width), FromNat(c, width), d);
    MulTruncated(c, d, width);
    MulAllKnown(Const(c, width), d, width);
    KnownIsConst(MulConstBits(Const(c, width), d), c * d);
  }

  lemma MulTruncated(c: nat, d: nat, width: nat)
    ensures FromNat(Value(FromNat(c, width)) * d, width) == FromNat(c * d, width)
  {
    var u := Value(FromNat(c, width));
    assert u == c % Pow2(width) by { ValueFromNat(c, width); }
    ModMulLeft(u, c, d, Pow2(width));
    FromNatCongruent(u * d, c * d, width);
  }

  predicate AllKnown(a: Bits)
    requires a.Valid()
  {
    forall i :: 0 <= i < a.Width() ==> a.Known(i)
  }

  lemma KnownIsConst(a: Bits, c: nat)
    requires a.Valid() && AllKnown(a) && a.Contains(FromNat(c, a.Width()))
    ensures a == Const(c, a.Width())
  {
    var w := FromNat(c, a.Width());
    forall i | 0 <= i < a.Width()
      ensures a.k1[i] == w[i] && a.k0[i] == !w[i]
    {
      assert a.Known(i);
    }
    assert a.k1 == w && a.k0 == Not(w);
  }

  lemma AddAllKnown(a: Bits, b: Bits)
    requires a.Valid() && b.Valid() && a.Width() == b.Width()
    requires AllKnown(a) && AllKnown(b)
    ensures AllKnown(AddBits(a, b))
  {
    forall i | 0 <= i < a.Width()
      ensures AddBits(a, b).Known(i)
    {
      assert KnownBelow(a, b, i + 1);
    }
  }

  lemma {:induction false} MulAllKnown(a: Bits, c: nat, n: nat)
    requires a.Valid() && AllKnown(a)
    ensures AllKnown(MulUpTo(a, c, n))
  {
    if n != 0 {
      MulAllKnown(a, c, n - 1);
      if HasBit(c, n - 1) {
        ShlAllKnown(a, n - 1);
        AddAllKnown(MulUpTo(a, c, n - 1), ShlBits(a, n - 1));
      }
    }
  }

  lemma ShlAllKnown(a: Bits, n: nat)
    requires a.Valid() && AllKnown(a)
    ensures AllKnown(ShlBits(a, n))
  {
    forall i | 0 <= i < a.Width()
      ensures ShlBits(a, n).Known(i)
    {
      if n <= i { assert a.Known(i - n); }
    }
  }

  // ----- remainders ---------------------------------------------------------------------------

  lemma ModPow2Sound(a: Bits, x: Word, n: nat)
    requires a.Valid() && a.Contains(x)
    ensures ModPow2(a, n).Contains(FromNat(Value(x) % Pow2(n), a.Width()))
  {
    var mask := FromNat(Pow2(n) - 1, |x|);
    ConstContains(Pow2(n) - 1, |x|);
    BitwiseSound(a, Const(Pow2(n) - 1, |x|), x, mask);
    MaskIsRemainder(x, n);
  }

  lemma {:induction false} MaskIsRemainder(x: Word, n: nat)
    ensures And(x, FromNat(Pow2(n) - 1, |x|)) == FromNat(Value(x) % Pow2(n), |x|)
  {
    hide FromNat, Value, Pow2, And;
    if |x| == 0 || n == 0 {
      MaskZero(x, n);
    } else {
      MaskIsRemainder(x[1..], n - 1);
      MaskUnfold(n, |x|);
      RemainderUnfold(x, n);
      AndCons(x, FromNat(Pow2(n - 1) - 1, |x| - 1));
    }
  }

  lemma MaskZero(x: Word, n: nat)
    requires |x| == 0 || n == 0
    ensures And(x, FromNat(Pow2(n) - 1, |x|)) == FromNat(Value(x) % Pow2(n), |x|)
  {
    if |x| != 0 {
      hide FromNat, Value;
      assert Value(x) % 1 == 0;
      FromNatZero(|x|);
      assert And(x, Zeros(|x|)) == Zeros(|x|);
    }
  }

  lemma AndCons(x: Word, y: Word)
    requires |x| == |y| + 1
    ensures And(x, [true] + y) == [x[0]] + And(x[1..], y)
  {
  }

  lemma MaskUnfold(n: nat, width: nat)
    requires n > 0 && width > 0
    ensures FromNat(Pow2(n) - 1, width) == [true] + FromNat(Pow2(n - 1) - 1, width - 1)
  {
    var q := Pow2(n) - 1;
    assert q == 2 * (Pow2(n - 1) - 1) + 1;
    assert q % 2 == 1 && q / 2 == Pow2(n - 1) - 1;
  }

  lemma RemainderUnfold(x: Word, n: nat)
    requires n > 0 && |x| > 0
    ensures FromNat(Value(x) % Pow2(n), |x|) == [x[0]] + FromNat(Value(x[1..]) % Pow2(n - 1), |x| - 1)
  {
    var t := Value(x[1..]);
    ModDouble(Bit(x[0]), t, Pow2(n - 1));
    var r, q := Value(x) % Pow2(n), t % Pow2(n - 1);
    assert r == Bit(x[0]) + 2 * q;
    assert r % 2 == Bit(x[0]) && r / 2 == q;
  }

  lemma {:induction false} FromNatZero(width: nat)
    ensures FromNat(0, width) == Zeros(width)
  {
    if width != 0 { FromNatZero(width - 1); }
  }

  lemma ModConstSound(m: nat, v: nat, width: nat)
    requires m >= 1
    ensures ModConst(m, width).Contains(FromNat(v % m, width))
  {
    var top := BitLength(m - 1);
    var w := FromNat(v % m, width);
    forall i | 0 <= i < width && i >= top
      ensures !w[i]
    {
      FromNatBit(v % m, width, i);
      Pow2Monotone(top, i);
      ModUnique(v % m, 0, Pow2(i), v % m);
    }
  }

  /** "The tightest Bits enclosing" 0 .. m-1: any value containing them all claims no more. */
  lemma ModConstIsTightest(m: nat, width: nat, b: Bits)
    requires 1 <= m <= Pow2(width) && b.Valid() && b.Width() == width
    requires forall v: nat :: v < m ==> b.Contains(FromNat(v, width))
    ensures AtLeastAsPrecise(ModConst(m, width), b)
  {
    hide FromNat, Value;
    var r, top := ModConst(m, width), BitLength(m - 1);
    FromNatZero(width);
    assert b.Contains(FromNat(0, width));
    forall i | 0 <= i < width
      ensures (b.k1[i] ==> r.k1[i]) && (b.k0[i] ==> r.k0[i])
    {
      assert !b.k1[i] by { assert !FromNat(0, width)[i]; }
      if i < top {
        Pow2Monotone(i, top - 1);
        FromNatBit(Pow2(i), width, i);
        assert Pow2(i) / Pow2(i) == 1;
        assert b.Contains(FromNat(Pow2(i), width));
      }
    }
  }
}
