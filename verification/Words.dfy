/** Fixed-width machine words as sequences of bits, least significant bit first,
    together with their meaning as natural numbers.  The bit-level operators of the
    programs (and, or, xor, shifts) are read off the sequence; `Value` ties them to
    arithmetic modulo a power of two. */
module Words {

  type Word = seq<bool>

  function Pow2(n: nat): (p: nat)
    ensures p >= 1
  {
    if n == 0 then 1 else 2 * Pow2(n - 1)
  }

  function Bit(b: bool): (v: nat)
  {
    if b then 1 else 0
  }

  function Value(w: Word): (v: nat)
    ensures v < Pow2(|w|)
  {
    if w == [] then 0 else Bit(w[0]) + 2 * Value(w[1..])
  }

  /** The `width` low bits of `v`, the way a machine register truncates. */
  function FromNat(v: nat, width: nat): (w: Word)
    ensures |w| == width
  {
    if width == 0 then [] else [v % 2 == 1] + FromNat(v / 2, width - 1)
  }

  function Zeros(n: nat): (w: Word)
    ensures |w| == n && forall i :: 0 <= i < n ==> !w[i]
  {
    seq(n, i => false)
  }

  function And(x: Word, y: Word): (w: Word)
    requires |x| == |y|
    ensures |w| == |x|
  {
    seq(|x|, i requires 0 <= i < |x| => x[i] && y[i])
  }

  function Or(x: Word, y: Word): (w: Word)
    requires |x| == |y|
    ensures |w| == |x|
  {
    seq(|x|, i requires 0 <= i < |x| => x[i] || y[i])
  }

  function Xor(x: Word, y: Word): (w: Word)
    requires |x| == |y|
    ensures |w| == |x|
  {
    seq(|x|, i requires 0 <= i < |x| => x[i] != y[i])
  }

  function Not(x: Word): (w: Word)
    ensures |w| == |x|
  {
    seq(|x|, i requires 0 <= i < |x| => !x[i])
  }

  /** Left shift within the width: vacated low bits are zero. */
  function Shl(w: Word, n: nat): (r: Word)
    ensures |r| == |w|
  {
    if n >= |w| then Zeros(|w|) else Zeros(n) + w[..|w| - n]
  }

  /** Logical right shift: vacated high bits are zero. */
  function Shr(w: Word, n: nat): (r: Word)
    ensures |r| == |w|
  {
    if n >= |w| then Zeros(|w|) else w[n..] + Zeros(n)
  }

  /** The carry a chain of full adders brings into bit i. */
  function Carry(x: Word, y: Word, i: nat): (c: bool)
    requires |x| == |y| && i <= |x|
  {
    i > 0 && Bit(x[i - 1]) + Bit(y[i - 1]) + Bit(Carry(x, y, i - 1)) >= 2
  }

  function SumBit(x: Word, y: Word, i: nat): (b: bool)
    requires |x| == |y| && i < |x|
  {
    (Bit(x[i]) + Bit(y[i]) + Bit(Carry(x, y, i))) % 2 == 1
  }

  /** Addition as the hardware does it, one full adder per bit. */
  function Add(x: Word, y: Word): (r: Word)
    requires |x| == |y|
    ensures |r| == |x|
  {
    seq(|x|, i requires 0 <= i < |x| => SumBit(x, y, i))
  }

  // ----- modular arithmetic ---------------------------------------------------

  lemma MulAssoc(a: int, b: int, c: int)
    ensures a * (b * c) == (a * b) * c
  {
  }

  lemma ModUnique(n: int, q: int, m: int, r: int)
    requires m > 0 && 0 <= r < m && n == q * m + r
    ensures n % m == r && n / m == q
  {
    var d := n / m - q;
    assert n == (n / m) * m + n % m;
    assert d * m == r - n % m by {
      assert d * m == (n / m) * m - q * m;
    }
    assert d >= 1 ==> d * m >= m;
    assert d <= -1 ==> d * m <= -m;
  }

  lemma DivModParts(n: int, q: int, m: int, r: int)
    requires m > 0 && 0 <= r < m && n == r + m * q
    ensures n % m == r && n / m == q
  {
    ModUnique(n, q, m, r);
  }

  lemma ModAdd(a: int, b: int, m: int)
    requires m > 0
    ensures (a % m + b % m) % m == (a + b) % m
  {
    var r := (a % m + b % m) % m;
    var q := (a % m + b % m) / m;
    assert a % m + b % m == q * m + r;
    assert a == (a / m) * m + a % m && b == (b / m) * m + b % m;
    assert a + b == (a / m + b / m + q) * m + r;
    ModUnique(a + b, a / m + b / m + q, m, r);
  }

  lemma ModMul(a: int, b: int, m: int)
    requires m > 0
    ensures (a * (b % m)) % m == (a * b) % m
  {
    var r := (a * (b % m)) % m;
    var q := (a * (b % m)) / m;
    assert a * (b % m) == q * m + r;
    assert b == (b / m) * m + b % m;
    assert a * b == a * ((b / m) * m) + a * (b % m);
    assert a * ((b / m) * m) == (a * (b / m)) * m;
    assert a * b == (a * (b / m) + q) * m + r by {
      assert (a * (b / m) + q) * m == (a * (b / m)) * m + q * m;
    }
    ModUnique(a * b, a * (b / m) + q, m, r);
  }

  lemma ModMulLeft(u: int, c: int, d: int, m: int)
    requires m > 0 && u == c % m
    ensures (u * d) % m == (c * d) % m
  {
    ModMul(d, c, m);
    assert u * d == d * (c % m) && c * d == d * c;
  }

  /** Appending a low bit below a residue. */
  lemma ModDouble(b: int, t: int, p: int)
    requires 0 <= b <= 1 && p > 0
    ensures (b + 2 * t) % (2 * p) == b + 2 * (t % p) && (b + 2 * t) / (2 * p) == t / p
  {
    var q, r := t / p, t % p;
    assert t == q * p + r;
    MulAssoc(2, q, p);
    assert q * (2 * p) == 2 * q * p;
    ModUnique(b + 2 * t, q, 2 * p, b + 2 * r);
  }

  lemma ModScale(v: int, d: int, p: int)
    requires d > 0 && p > 0
    ensures d * p > 0 && (v * p) % (d * p) == p * (v % d)
  {
    var q, r := v / d, v % d;
    assert v == q * d + r;
    assert v * p == q * (d * p) + p * r by {
      assert (q * d + r) * p == (q * d) * p + r * p;
      MulAssoc(q, d, p);
    }
    assert p * r < d * p by {
      assert p * (r + 1) <= p * d;
    }
    assert 0 <= p * r;
    ModUnique(v * p, q, d * p, p * r);
  }

  lemma {:induction false} Pow2Add(m: nat, n: nat)
    ensures Pow2(m + n) == Pow2(m) * Pow2(n)
  {
    if m != 0 {
      Pow2Add(m - 1, n);
      assert Pow2(m) * Pow2(n) == 2 * (Pow2(m - 1) * Pow2(n));
    }
  }

  lemma {:induction false} Pow2Monotone(m: nat, n: nat)
    requires m <= n
    ensures Pow2(m) <= Pow2(n)
  {
    if m < n { Pow2Monotone(m, n - 1); }
  }

  // ----- what the operators mean as numbers ------------------------------------

  lemma {:induction false} ValueZeros(n: nat)
    ensures Value(Zeros(n)) == 0
  {
    if n != 0 {
      assert Zeros(n)[1..] == Zeros(n - 1);
      ValueZeros(n - 1);
    }
  }

  lemma {:induction false} ValueConcat(u: Word, v: Word)
    ensures Value(u + v) == Value(u) + Pow2(|u|) * Value(v)
  {
    if u == [] {
      assert u + v == v;
    } else {
      assert (u + v)[1..] == u[1..] + v;
      ValueConcat(u[1..], v);
      MulAssoc(2, Pow2(|u| - 1), Value(v));
    }
  }

  lemma ValueConcatDivMod(u: Word, v: Word)
    ensures Value(u + v) % Pow2(|u|) == Value(u)
    ensures Value(u + v) / Pow2(|u|) == Value(v)
  {
    ValueConcat(u, v);
    DivModParts(Value(u + v), Value(v), Pow2(|u|), Value(u));
  }

  /** Splitting a word at bit n is division by 2^n. */
  lemma ValueSplit(w: Word, n: nat)
    requires n <= |w|
    ensures Value(w[..n]) == Value(w) % Pow2(n)
    ensures Value(w[n..]) == Value(w) / Pow2(n)
  {
    assert w[..n] + w[n..] == w;
    ValueConcatDivMod(w[..n], w[n..]);
  }

  lemma {:induction false} ValueFromNat(v: nat, width: nat)
    ensures Value(FromNat(v, width)) == v % Pow2(width)
  {
    if width == 0 {
      ModUnique(v, v, 1, 0);
    } else {
      var p := Pow2(width - 1);
      ValueFromNat(v / 2, width - 1);
      assert FromNat(v, width)[1..] == FromNat(v / 2, width - 1);
      ModDouble(v % 2, v / 2, p);
    }
  }

  lemma {:induction false} FromNatValue(w: Word)
    ensures FromNat(Value(w), |w|) == w
  {
    if w != [] {
      FromNatValue(w[1..]);
      assert Value(w) / 2 == Value(w[1..]);
      assert w == [w[0]] + w[1..];
    }
  }

  /** Two words of one width are equal exactly when their values are. */
  lemma ValueInjective(x: Word, y: Word)
    requires |x| == |y| && Value(x) == Value(y)
    ensures x == y
  {
    FromNatValue(x);
    FromNatValue(y);
  }

  lemma FromNatMod(v: nat, width: nat)
    ensures FromNat(v % Pow2(width), width) == FromNat(v, width)
  {
    ValueFromNat(v, width);
    ValueFromNat(v % Pow2(width), width);
    var m := Pow2(width);
    ModUnique(v % m, 0, m, v % m);
    ValueInjective(FromNat(v % m, width), FromNat(v, width));
  }

  lemma ValueSnoc(w: Word, n: nat)
    requires n < |w|
    ensures Value(w[..n + 1]) == Value(w[..n]) + Bit(w[n]) * Pow2(n)
  {
    assert w[..n + 1] == w[..n] + [w[n]];
    ValueConcat(w[..n], [w[n]]);
    assert Value([w[n]]) == Bit(w[n]);
  }

  /** Below bit n the sum and the carry out of it account for both operands. */
  lemma {:induction false} AddPrefixValue(x: Word, y: Word, n: nat)
    requires |x| == |y| && n <= |x|
    ensures Value(Add(x, y)[..n]) + Bit(Carry(x, y, n)) * Pow2(n) == Value(x[..n]) + Value(y[..n])
  {
    if n != 0 {
      hide Add, Carry, Value, Bit;
      var w, m := Add(x, y), n - 1;
      AddPrefixValue(x, y, m);
      ValueSnoc(w, m);
      ValueSnoc(x, m);
      ValueSnoc(y, m);
      AddBit(x, y, m);
      FullAdder(Value(w[..m]), Value(x[..m]), Value(y[..m]), Bit(x[m]), Bit(y[m]), Bit(Carry(x, y, m)),
                Bit(w[m]), Bit(Carry(x, y, n)), Pow2(m), Pow2(n));
    }
  }

  /** Sum and carry of one position. */
  lemma AddBit(x: Word, y: Word, m: nat)
    requires |x| == |y| && m < |x|
    ensures var s := Bit(x[m]) + Bit(y[m]) + Bit(Carry(x, y, m));
            s <= 3 && Bit(Add(x, y)[m]) == s % 2 && Bit(Carry(x, y, m + 1)) == s / 2
  {
  }

  lemma FullAdder(sum: int, u: int, v: int, a: int, b: int, c: int, s: int, c': int, p: int, p': int)
    requires sum + c * p == u + v && p' == 2 * p
    requires 0 <= a + b + c <= 3 && s == (a + b + c) % 2 && c' == (a + b + c) / 2
    ensures (sum + s * p) + c' * p' == (u + a * p) + (v + b * p)
  {
    assert s + 2 * c' == a + b + c;
    assert s * p + c' * p' == (s + 2 * c') * p;
  }

  /** The chain of full adders computes the sum modulo the width. */
  lemma AddIsAddition(x: Word, y: Word)
    requires |x| == |y|
    ensures Add(x, y) == FromNat(Value(x) + Value(y), |x|)
  {
    hide Add, Carry, Value, FromNat, Pow2;
    var w, n := Add(x, y), |x|;
    assert w[..n] == w && x[..n] == x && y[..n] == y;
    AddPrefixValue(x, y, n);
    ModUnique(Value(x) + Value(y), Bit(Carry(x, y, n)), Pow2(n), Value(w));
    ValueFromNat(Value(x) + Value(y), n);
    ValueInjective(w, FromNat(Value(x) + Value(y), n));
  }

  lemma {:induction false} ShlValue(w: Word, n: nat)
    ensures Value(Shl(w, n)) == (Value(w) * Pow2(n)) % Pow2(|w|)
  {
    var m := Pow2(|w|);
    if n >= |w| {
      ValueZeros(|w|);
      Pow2Add(n - |w|, |w|);
      var k := Value(w) * Pow2(n - |w|);
      MulAssoc(Value(w), Pow2(n - |w|), m);
      ModUnique(Value(w) * Pow2(n), k, m, 0);
    } else {
      var low := w[..|w| - n];
      var d, p := Pow2(|w| - n), Pow2(n);
      assert Value(Shl(w, n)) == p * Value(low) by {
        ValueZeros(n);
        ValueConcat(Zeros(n), low);
      }
      assert Value(low) == Value(w) % d by { ValueSplit(w, |w| - n); }
      assert m == d * p by { Pow2Add(|w| - n, n); }
      ModScale(Value(w), d, p);
    }
  }

  lemma ShrValue(w: Word, n: nat)
    ensures Value(Shr(w, n)) == Value(w) / Pow2(n)
  {
    if n >= |w| {
      ValueZeros(|w|);
      Pow2Monotone(|w|, n);
      ModUnique(Value(w), 0, Pow2(n), Value(w));
    } else {
      ValueZeros(n);
      ValueConcat(w[n..], Zeros(n));
      ValueSplit(w, n);
      assert Value(w[n..]) + Pow2(|w[n..]|) * 0 == Value(w[n..]);
    }
  }

  /** A word whose bits are all covered by another's is numerically no larger. */
  lemma {:induction false} ValueMonotone(x: Word, y: Word)
    requires |x| == |y| && forall i :: 0 <= i < |x| ==> x[i] ==> y[i]
    ensures Value(x) <= Value(y)
  {
    if x != [] {
      ValueMonotone(x[1..], y[1..]);
    }
  }

  /** Bit i of a number's word. */
  lemma {:induction false} FromNatBit(v: nat, width: nat, i: nat)
    requires i < width
    ensures FromNat(v, width)[i] == ((v / Pow2(i)) % 2 == 1)
  {
    if i == 0 {
      assert v / 1 == v;
    } else {
      FromNatBit(v / 2, width - 1, i - 1);
      var p := Pow2(i - 1);
      DivDiv(v, p);
    }
  }

  lemma DivDiv(v: nat, p: nat)
    requires p > 0
    ensures (v / 2) / p == v / (2 * p)
  {
    ModDouble(v % 2, v / 2, p);
  }

  // ----- population count -------------------------------------------------------

  function PopCount(w: Word): (n: nat)
  {
    if w == [] then 0 else Bit(w[0]) + PopCount(w[1..])
  }

  /** The indices of the bits that are set. */
  function Ones(w: Word): (s: set<nat>)
    ensures forall i: nat :: i in s <==> i < |w| && w[i]
  {
    set i: nat | i < |w| && w[i]
  }

  lemma {:induction false} PopCountIsCardinality(w: Word)
    ensures PopCount(w) == |Ones(w)|
  {
    if w == [] {
      assert Ones(w) == {};
    } else {
      var u, b := w[..|w| - 1], w[|w| - 1];
      PopCountIsCardinality(u);
      PopCountSnoc(u, b);
      assert w == u + [b];
      if b {
        assert Ones(w) == Ones(u) + {|u|};
      } else {
        assert Ones(w) == Ones(u);
      }
    }
  }

  lemma {:induction false} PopCountSnoc(u: Word, b: bool)
    ensures PopCount(u + [b]) == PopCount(u) + Bit(b)
  {
    if u == [] {
      assert u + [b] == [b];
    } else {
      assert (u + [b])[1..] == u[1..] + [b];
      PopCountSnoc(u[1..], b);
    }
  }
}
