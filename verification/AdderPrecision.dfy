/** How much the known-bits adder could know, and exactly when it knows that much. */
module AdderPrecision {
  import opened Words
  import opened KnownBits

  predicate SameWidth(a: Bits, b: Bits) {
    a.Valid() && b.Valid() && a.Width() == b.Width()
  }

  /** An answer that holds of every sum. */
  ghost predicate SoundSum(a: Bits, b: Bits, r: Bits)
    requires SameWidth(a, b)
  {
    && SameWidth(a, r)
    && forall x, y :: a.Contains(x) && b.Contains(y) ==> r.Contains(Add(x, y))
  }

  /** Both operands know bit i and the carry into it is not ambiguous: it is the same for
      the smallest and for the largest operands. */
  predicate Fixed(a: Bits, b: Bits, i: nat)
    requires SameWidth(a, b) && i < a.Width()
  {
    && a.Known(i) && b.Known(i)
    && Carry(a.Lowest(), b.Lowest(), i) == Carry(a.Highest(), b.Highest(), i)
  }

  /** The adder that forgets a bit only when it has to. */
  function BestAdd(a: Bits, b: Bits): (r: Bits)
    requires SameWidth(a, b)
    ensures r.Valid() && r.Width() == a.Width()
  {
    Bits(seq(a.Width(), i requires 0 <= i < a.Width() => Fixed(a, b, i) && SumBit(a.k1, b.k1, i)),
         seq(a.Width(), i requires 0 <= i < a.Width() => Fixed(a, b, i) && !SumBit(a.k1, b.k1, i)))
  }

  lemma {:induction false} CarryMonotone(x: Word, y: Word, u: Word, v: Word, n: nat)
    requires |x| == |y| == |u| == |v| && n <= |x|
    requires forall j :: 0 <= j < n ==> (x[j] ==> u[j]) && (y[j] ==> v[j])
    ensures Carry(x, y, n) ==> Carry(u, v, n)
  {
    if n != 0 { CarryMonotone(x, y, u, v, n - 1); }
  }

  lemma BestAddSound(a: Bits, b: Bits)
    requires SameWidth(a, b)
    ensures SoundSum(a, b, BestAdd(a, b))
  {
    forall x, y | a.Contains(x) && b.Contains(y)
      ensures BestAdd(a, b).Contains(Add(x, y))
    {
      forall i | 0 <= i < a.Width() && Fixed(a, b, i)
        ensures SumBit(x, y, i) == SumBit(a.k1, b.k1, i)
      {
        CarryMonotone(a.Lowest(), b.Lowest(), x, y, i);
        CarryMonotone(x, y, a.Highest(), b.Highest(), i);
      }
    }
  }

  /** Sums of words that agree below bit i and differ there, or there agree and differ in
      the carry, differ in that bit. */
  lemma {:induction false} SumsDiffer(x: Word, y: Word, u: Word, v: Word, i: nat)
    requires |x| == |y| == |u| == |v| && i < |x|
    requires Bit(x[i]) + Bit(y[i]) + Bit(Carry(x, y, i)) != Bit(u[i]) + Bit(v[i]) + Bit(Carry(u, v, i))
    requires (x[i] == u[i] && y[i] == v[i]) || (Carry(x, y, i) == Carry(u, v, i) && (x[i] == u[i] || y[i] == v[i]))
    ensures Add(x, y)[i] != Add(u, v)[i]
  {
    hide Carry;
  }

  /** A bit that is not fixed comes out both ways. */
  lemma NotFixedBothWays(a: Bits, b: Bits, i: nat) returns (x: Word, y: Word)
    requires SameWidth(a, b) && i < a.Width() && !Fixed(a, b, i)
    ensures a.Contains(x) && b.Contains(y)
    ensures a.Contains(a.Lowest()) && b.Contains(b.Lowest())
    ensures Add(x, y)[i] != Add(a.Lowest(), b.Lowest())[i]
  {
    hide Carry, Add;
    x, y := a.Lowest(), b.Lowest();
    if !a.Known(i) {
      x := x[i := true];
      CarryPrefix(a.Lowest(), b.Lowest(), x, y, i);
    } else if !b.Known(i) {
      y := y[i := true];
      CarryPrefix(a.Lowest(), b.Lowest(), x, y, i);
    } else {
      x, y := a.Highest(), b.Highest();
      assert x[i] == a.Lowest()[i] && y[i] == b.Lowest()[i];
    }
    SumsDiffer(x, y, a.Lowest(), b.Lowest(), i);
  }

  lemma BestAddIsBest(a: Bits, b: Bits, r: Bits)
    requires SameWidth(a, b) && SoundSum(a, b, r)
    ensures AtLeastAsPrecise(BestAdd(a, b), r)
  {
    assert a.Contains(a.Lowest()) && b.Contains(b.Lowest());
    assert r.Contains(Add(a.Lowest(), b.Lowest()));
    forall i | 0 <= i < a.Width() && !Fixed(a, b, i)
      ensures !r.Known(i)
    {
      var x, y := NotFixedBothWays(a, b, i);
      assert r.Contains(Add(x, y));
    }
  }

  /** The adder of the program is the most precise one for given operands if and only if
      every bit it could know lies below the first unknown operand bit. */
  lemma AdderIsBestIff(a: Bits, b: Bits)
    requires SameWidth(a, b)
    ensures (forall r :: SoundSum(a, b, r) ==> AtLeastAsPrecise(AddBits(a, b), r)) <==>
            (forall i :: 0 <= i < a.Width() && Fixed(a, b, i) ==> KnownBelow(a, b, i + 1))
  {
    BestAddSound(a, b);
    if forall r :: SoundSum(a, b, r) ==> AtLeastAsPrecise(AddBits(a, b), r) {
      assert AtLeastAsPrecise(AddBits(a, b), BestAdd(a, b));
      forall i | 0 <= i < a.Width() && Fixed(a, b, i)
        ensures KnownBelow(a, b, i + 1)
      {
        assert BestAdd(a, b).Known(i);
      }
    }
    if forall i :: 0 <= i < a.Width() && Fixed(a, b, i) ==> KnownBelow(a, b, i + 1) {
      forall r | SoundSum(a, b, r)
        ensures AtLeastAsPrecise(AddBits(a, b), r)
      {
        BestAddIsBest(a, b, r);
      }
    }
  }
}
