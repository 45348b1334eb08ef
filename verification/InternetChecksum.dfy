/** Internet checksums as the load balancer computes and adjusts them.  Header words are
    16-bit values as a little-endian machine loads them; the ones' complement sum does
    not depend on that choice (section 1 of RFC 1071). */
module InternetChecksum {
  import opened Bytes

  /** The 16-bit ones' complement sum that a plain sum stands for: the representative in
      1 .. 65535 modulo 65535, and zero only for zero. */
  function OnesSum(sum: nat): (r: u16)
    ensures r % 65535 == sum % 65535
    ensures r == 0 <==> sum == 0
  {
    if sum == 0 then 0 else 1 + (sum - 1) % 65535
  }

  /** Adding the carries above 16 bits back in, if there are any. */
  function Fold(sum: nat): (r: nat)
  {
    if sum / 0x1_0000 != 0 then sum % 0x1_0000 + sum / 0x1_0000 else sum
  }

  lemma FoldKeepsSum(sum: nat)
    ensures OnesSum(Fold(sum)) == OnesSum(sum)
    ensures Fold(sum) < 0x1_0000 ==> Fold(sum) == OnesSum(sum)
  {
    var lo, hi := sum % 0x1_0000, sum / 0x1_0000;
    assert sum == Fold(sum) + 65535 * (if hi != 0 then hi else 0);
    OnesSumUnique(sum, Fold(sum), if hi != 0 then hi else 0);
  }

  lemma OnesSumUnique(a: nat, b: nat, k: nat)
    requires a == b + 65535 * k && (b == 0 ==> k == 0)
    ensures OnesSum(a) == OnesSum(b)
    ensures b < 0x1_0000 ==> OnesSum(a) == b
  {
  }

  method CsumFoldHelper(csum: u64) returns (r: u16)
    ensures r == 0xffff - OnesSum(csum)
  {
    var sum: nat := csum;
    for i := 0 to 4
      invariant OnesSum(sum) == OnesSum(csum)
      invariant sum <= FoldBound(i)
    {
      FoldKeepsSum(sum);
      FoldShrinks(sum, i);
      if sum / 0x1_0000 != 0 {
        sum := sum % 0x1_0000 + sum / 0x1_0000;
      }
    }
    FoldKeepsSum(sum);
    r := 0xffff - sum;
  }

  /** How large a 64-bit sum can still be after i folds. */
  function FoldBound(i: nat): (b: nat)
  {
    if i == 0 then 0xffff_ffff_ffff_ffff
    else if i == 1 then 0x1_0000_0000_fffe
    else if i == 2 then 0x1_0000_fffe
    else if i == 3 then 0x1_fffe
    else 0xffff
  }

  lemma FoldShrinks(sum: nat, i: nat)
    requires i < 4 && sum <= FoldBound(i)
    ensures Fold(sum) <= FoldBound(i + 1)
  {
    var lo, hi := sum % 0x1_0000, sum / 0x1_0000;
    assert sum == lo + 0x1_0000 * hi;
  }

  /** Four folds are needed for a 64-bit sum. */
  lemma ThreeFoldsAreNotEnough()
    ensures Fold(Fold(Fold(0xffff_ffff_ffff_ffff))) > 0xffff
  {
    assert Fold(0xffff_ffff_ffff_ffff) == 0x1_0000_0000_fffe;
    assert Fold(0x1_0000_0000_fffe) == 0x1_0000_fffe;
  }

  // ----- IPv4 headers ----------------------------------------------------------------------------

  /** The ten words of a header without options. */
  datatype Fields = Fields(verIhl: byte, tos: byte, totLen: u16, id: u16, fragOff: u16,
                           ttl: byte, protocol: byte, check: u16, saddr: u32, daddr: u32)

  function Sum(h: Fields): (s: nat)
    ensures s <= 10 * 0xffff
  {
    (h.verIhl + 0x100 * (h.tos as int)) + h.totLen + h.id + h.fragOff + (h.ttl + 0x100 * (h.protocol as int)) + h.check +
    h.saddr % 0x1_0000 + h.saddr / 0x1_0000 + h.daddr % 0x1_0000 + h.daddr / 0x1_0000
  }

  /** A header verifies when the sum over all its words, checksum included, is all ones
      (section 3.1 of RFC 791). */
  predicate Verifies(h: Fields) {
    OnesSum(Sum(h)) == 0xffff
  }

  function SwapBytes(v: u16): (r: u16)
  {
    v % 0x100 * 0x100 + v / 0x100
  }

  const DEFAULT_TTL := 64

  /** The outer header for a packet of the given length; the identification is whatever
      was in memory. */
  function V4Header(tos: byte, saddr: u32, daddr: u32, pktBytes: u16, proto: byte, id: u16): (h: Fields)
  {
    var h0 := Fields(0x45, tos, SwapBytes((pktBytes + 20) % 0x1_0000), id, 0, DEFAULT_TTL, proto, 0, saddr, daddr);
    h0.(check := 0xffff - OnesSum(Sum(h0)))
  }

  class IpHeader {
    var h: Fields

    constructor (h: Fields)
      ensures this.h == h
    {
      this.h := h;
    }

    /** The sum over the header's ten 16-bit words, folded and complemented. */
    method Ipv4CsumInline() returns (csum: u16)
      ensures csum == 0xffff - OnesSum(Sum(h))
    {
      var words := [h.verIhl + 0x100 * (h.tos as int), h.totLen, h.id, h.fragOff, h.ttl + 0x100 * (h.protocol as int),
                    h.check, h.saddr % 0x1_0000, h.saddr / 0x1_0000, h.daddr % 0x1_0000, h.daddr / 0x1_0000];
      var sum := 0;
      for i := 0 to |words|
        invariant sum == SumOf(words[..i])
        invariant sum <= i * 0xffff
      {
        assert words[..i + 1] == words[..i] + [words[i]];
        SumOfSnoc(words[..i], words[i]);
        sum := sum + words[i];
      }
      assert words[..10] == words;
      SumOfTen(words);
      csum := CsumFoldHelper(sum);
    }

    /** Builds the outer header in memory whose identification field is left as it was. */
    method CreateV4Hdr(tos: byte, saddr: u32, daddr: u32, pktBytes: u16, proto: byte)
      modifies this
      ensures h == V4Header(tos, saddr, daddr, pktBytes, proto, old(h.id)) && Verifies(h)
    {
      h := h.(verIhl := 0x45);
      h := h.(fragOff := 0);
      h := h.(protocol := proto);
      h := h.(check := 0);
      h := h.(tos := tos);
      h := h.(totLen := SwapBytes((pktBytes + 20) % 0x1_0000));
      h := h.(daddr := daddr);
      h := h.(saddr := saddr);
      h := h.(ttl := DEFAULT_TTL);
      var csum := Ipv4CsumInline();
      FilledInVerifies(h);
      h := h.(check := csum);
    }

    /** Decrements the time to live and adjusts the checksum instead of recomputing it.
        A valid header that goes on stays valid exactly when the time to live was at
        least two: zero wraps around to 255. */
    method DecrementTtl() returns (dropped: bool)
      modifies this
      ensures dropped <==> old(h.ttl) == 1
      ensures h.(ttl := 0, check := 0) == old(h).(ttl := 0, check := 0)
      ensures h.ttl == (old(h.ttl) + 255) % 256
      ensures !dropped && Verifies(old(h)) ==> (Verifies(h) <==> old(h.ttl) >= 2)
    {
      ghost var before := h;
      h := h.(ttl := (h.ttl + 255) % 256);
      if h.ttl == 0 {
        return true;
      }
      var csum := h.check + 1;
      h := h.(check := csum % 0x1_0000 + csum / 0x1_0000);
      AdjustedSum(before, h);
      return false;
    }
  }

  function SumOf(words: seq<int>): (s: int)
  {
    if words == [] then 0 else words[0] + SumOf(words[1..])
  }

  lemma {:induction false} SumOfSnoc(words: seq<int>, w: int)
    ensures SumOf(words + [w]) == SumOf(words) + w
  {
    if words == [] {
      assert words + [w] == [w];
    } else {
      assert (words + [w])[1..] == words[1..] + [w];
      SumOfSnoc(words[1..], w);
    }
  }

  lemma SumOfTen(w: seq<int>)
    requires |w| == 10
    ensures SumOf(w) == w[0] + w[1] + w[2] + w[3] + w[4] + w[5] + w[6] + w[7] + w[8] + w[9]
  {
    SumOfFive(w);
    SumOfFive(w[5..]);
  }

  lemma SumOfFive(w: seq<int>)
    requires |w| >= 5
    ensures SumOf(w) == w[0] + w[1] + w[2] + w[3] + w[4] + SumOf(w[5..])
  {
    assert SumOf(w[1..]) == w[1] + SumOf(w[2..]) by { assert w[1..][1..] == w[2..]; }
    assert SumOf(w[2..]) == w[2] + SumOf(w[3..]) by { assert w[2..][1..] == w[3..]; }
    assert SumOf(w[3..]) == w[3] + SumOf(w[4..]) by { assert w[3..][1..] == w[4..]; }
    assert SumOf(w[4..]) == w[4] + SumOf(w[5..]) by { assert w[4..][1..] == w[5..]; }
  }

  /** Putting the complement of the sum into a zero checksum field completes it. */
  lemma FilledInVerifies(h: Fields)
    requires h.check == 0 && Sum(h) > 0
    ensures Verifies(h.(check := 0xffff - OnesSum(Sum(h))))
  {
    var s, c := Sum(h), 0xffff - OnesSum(Sum(h));
    assert Sum(h.(check := c)) == s + c;
    var k := (s - 1) / 65535;
    assert s == OnesSum(s) + 65535 * k;
    OnesSumUnique(s + c, 65535, k);
  }

  lemma V4HeaderVerifies(tos: byte, saddr: u32, daddr: u32, pktBytes: u16, proto: byte, id: u16)
    ensures Verifies(V4Header(tos, saddr, daddr, pktBytes, proto, id))
  {
    FilledInVerifies(V4Header(tos, saddr, daddr, pktBytes, proto, id).(check := 0));
  }

  /** One less in a word and one more, with end-around carry, in the checksum cancel out
      (section 2 of RFC 1071); 255 more does not. */
  lemma AdjustedSum(h: Fields, h': Fields)
    requires h'.ttl == (h.ttl + 255) % 256 && h.ttl != 1
    requires h'.check == (h.check + 1) % 0x1_0000 + (h.check + 1) / 0x1_0000
    requires h'.(ttl := 0, check := 0) == h.(ttl := 0, check := 0)
    ensures Verifies(h) ==> (Verifies(h') <==> h.ttl >= 2)
  {
    var c, c' := h.check, h'.check;
    assert c' == if c == 0xffff then 1 else c + 1;
    assert h'.ttl == if h.ttl == 0 then 255 else h.ttl - 1;
    assert Sum(h') - Sum(h) == (c' - c) + (h'.ttl - h.ttl);
  }

  // ----- the single fold of the other programs -------------------------------------------------------

  /** Folding once and complementing gives a valid header exactly when that fold does not
      itself carry. */
  lemma SingleFoldVerifiesIff(h: Fields)
    requires h.check == 0 && Sum(h) > 0
    ensures var folded := Sum(h) % 0x1_0000 + Sum(h) / 0x1_0000;
            Verifies(h.(check := (0xffff_ffff - folded) % 0x1_0000)) <==> folded <= 0xffff
  {
    var s := Sum(h);
    var lo, hi := s % 0x1_0000, s / 0x1_0000;
    var folded := lo + hi;
    var c := (0xffff_ffff - folded) % 0x1_0000;
    assert hi <= 9;
    assert c == if folded <= 0xffff then 0xffff - folded else 0xffff - (folded - 0x1_0000);
    assert Sum(h.(check := c)) == s + c;
    if folded <= 0xffff {
      OnesSumUnique(s + c, 65535, hi);
    } else {
      OnesSumUnique(s + c, 1, hi + 2);
    }
  }

  /** A header for which one fold is not enough. */
  lemma SingleFoldCanFail()
    ensures var h := Fields(0x45, 0, 0xffff, 0xee7b, 0, 64, 17, 0, 0, 0);
            var folded := Sum(h) % 0x1_0000 + Sum(h) / 0x1_0000;
            folded > 0xffff && !Verifies(h.(check := (0xffff_ffff - folded) % 0x1_0000))
  {
    var h := Fields(0x45, 0, 0xffff, 0xee7b, 0, 64, 17, 0, 0, 0);
    SingleFoldVerifiesIff(h);
  }
}
