/** IP-in-IP encapsulation in place: the packet head moves into the headroom and the new
    headers are written over the old Ethernet header; decapsulation undoes it. */
module Encapsulation {
  import opened Bytes
  import opened PacketHead
  import opened InternetChecksum

  const IPPROTO_IPIP := 4
  const IPPROTO_IPV6 := 41
  /** Ethertypes as they are on the wire. */
  const ETH_P_IP: seq<byte> := [0x08, 0x00]
  const ETH_P_IPV6: seq<byte> := [0x86, 0xdd]

  function Le16Bytes(v: u16): (b: seq<byte>)
    ensures |b| == 2
  {
    [v % 0x100, v / 0x100]
  }

  function HeaderBytes(h: Fields): (b: seq<byte>)
    ensures |b| == IPV4_LEN
  {
    [h.verIhl, h.tos] + Le16Bytes(h.totLen) + Le16Bytes(h.id) + Le16Bytes(h.fragOff) +
    [h.ttl, h.protocol] + Le16Bytes(h.check) + Le32Bytes(h.saddr) + Le32Bytes(h.daddr)
  }

  /** The fixed part of an IPv6 header; `trafficClass` is split over two fields. */
  function V6Header(trafficClass: byte, saddr: seq<byte>, daddr: seq<byte>, payloadLen: u16, proto: byte): (b: seq<byte>)
    requires |saddr| == |daddr| == 16
    ensures |b| == IPV6_LEN
  {
    [0x60 + trafficClass / 0x10, trafficClass % 0x10 * 0x10, 0, 0, payloadLen / 0x100, payloadLen % 0x100, proto, DEFAULT_TTL]
    + saddr + daddr
  }

  /** Reading a header back from the wire. */
  function ParseHeader(b: seq<byte>): (h: Fields)
    requires |b| >= IPV4_LEN
  {
    Fields(b[0], b[1], Le16(b, 2), Le16(b, 4), Le16(b, 6), b[8], b[9], Le16(b, 10), Le32(b, 12), Le32(b, 16))
  }

  lemma HeaderRoundTrip(h: Fields)
    ensures ParseHeader(HeaderBytes(h)) == h
  {
    hide Le32, Le32Bytes;
    var b := HeaderBytes(h);
    assert b[12..16] == Le32Bytes(h.saddr)[0..4] && b[16..20] == Le32Bytes(h.daddr)[0..4];
    Le32Same(b, 12, Le32Bytes(h.saddr), 0);
    Le32Same(b, 16, Le32Bytes(h.daddr), 0);
    Le32RoundTrip(h.saddr);
    Le32RoundTrip(h.daddr);
  }

  // ----- what the operations mean on packets -------------------------------------------------------

  function Encapped(p: seq<byte>, mac: seq<byte>, ethertype: seq<byte>, header: seq<byte>): (q: seq<byte>)
    requires ETH_LEN <= |p| && |mac| == 6 && |ethertype| == 2
  {
    mac + p[0..6] + ethertype + header + p[ETH_LEN..]
  }

  function Decapped(q: seq<byte>, headerLen: nat, ethertype: seq<byte>): (p: seq<byte>)
    requires ETH_LEN + headerLen <= |q| && |ethertype| == 2
  {
    q[0..12] + ethertype + q[ETH_LEN + headerLen..]
  }

  /** Decapsulation undoes encapsulation: same length, every byte after the Ethernet
      header as it was. */
  lemma DecapUndoesEncap(p: seq<byte>, mac: seq<byte>, outer: seq<byte>, header: seq<byte>, inner: seq<byte>)
    requires ETH_LEN <= |p| && |mac| == 6 && |outer| == 2 && |inner| == 2
    ensures var q := Encapped(p, mac, outer, header);
            var r := Decapped(q, |header|, inner);
            && |r| == |p| && r[ETH_LEN..] == p[ETH_LEN..]
            && r[0..6] == mac && r[6..12] == p[0..6] && r[12..14] == inner
  {
    var q := Encapped(p, mac, outer, header);
    assert q[0..12] == mac + p[0..6];
    assert q[ETH_LEN + |header|..] == p[ETH_LEN..];
  }

  // ----- in place ---------------------------------------------------------------------------------------

  class Xdp {
    const buf: array<byte>
    var head: nat
    var end: nat

    ghost predicate Valid()
      reads this
    {
      head <= end <= buf.Length
    }

    ghost function Packet(): (p: seq<byte>)
      requires Valid()
      reads this, buf
    {
      buf[head..end]
    }

    constructor (buf: array<byte>, head: nat, end: nat)
      requires head <= end <= buf.Length
      ensures Valid() && this.buf == buf && this.head == head && this.end == end
    {
      this.buf, this.head, this.end := buf, head, end;
    }

    /** Moves the head; fails without headroom or when no Ethernet header would remain. */
    method AdjustHead(delta: int) returns (failed: bool)
      requires Valid()
      modifies this`head
      ensures Valid()
      ensures failed <==> HeadOutOfRange(old(head) + delta, end)
      ensures head == if failed then old(head) else old(head) + delta
    {
      if head + delta < 0 || head + delta + ETH_LEN > end {
        return true;
      }
      head := head + delta;
      return false;
    }

    /** Writes new Ethernet and IP headers in front; the IP header lands on the old
        Ethernet header, whose destination has been saved in the new one by then. */
    method Push(mac: seq<byte>, ethertype: seq<byte>, header: seq<byte>)
      requires Valid() && |mac| == 6 && |ethertype| == 2 && |header| >= ETH_LEN
      requires head + |header| + ETH_LEN <= end
      modifies buf
      ensures Packet() == Encapped(old(Packet())[|header|..], mac, ethertype, header)
    {
      hide Patch, Encapped;
      ghost var before := buf[..];
      Store(buf, head, mac);
      Store(buf, head + 6, buf[..][head + |header|..head + |header| + 6]);
      Store(buf, head + 12, ethertype);
      Store(buf, head + ETH_LEN, header);
      assert buf[..] == Pushed(before, head, mac, ethertype, header);
      PushedPacket(before, head, end, mac, ethertype, header);
      assert Packet() == buf[..][head..end] && old(Packet()) == before[head..end];
    }

    /** Copies the Ethernet addresses over the end of the outer header and drops the rest. */
    method Pop(headerLen: nat, ethertype: seq<byte>) returns (ok: bool)
      requires Valid() && |ethertype| == 2 && headerLen >= ETH_LEN
      requires head + headerLen + ETH_LEN <= end
      modifies this`head, buf
      ensures Valid() && ok
      ensures Packet() == Decapped(old(Packet()), headerLen, ethertype)
    {
      hide Patch, Decapped;
      var newEth := head + headerLen;
      ghost var before := buf[..];
      Store(buf, newEth + 6, buf[..][head + 6..head + 12]);
      Store(buf, newEth, buf[..][head..head + 6]);
      Store(buf, newEth + 12, ethertype);
      assert buf[..] == Popped(before, head, headerLen, ethertype);
      PoppedPacket(before, head, end, headerLen, ethertype);
      var failed := AdjustHead(headerLen);
      assert Packet() == buf[..][head..end] && old(Packet()) == before[old(head)..end];
      ok := !failed;
    }

    method EncapV4(mac: seq<byte>, tos: byte, saddr: u32, daddr: u32, pktBytes: u32) returns (ok: bool)
      requires Valid() && |mac| == 6 && ETH_LEN <= end - head
      modifies this`head, buf
      ensures Valid()
      ensures ok <==> IPV4_LEN <= old(head)
      ensures !ok ==> Packet() == old(Packet())
      ensures ok ==>
                var id := old(if head >= IPV4_LEN then Le16(buf[..], head - 2) else 0);
                var h := V4Header(tos, saddr, daddr, pktBytes % 0x1_0000, IPPROTO_IPIP, id);
                Packet() == Encapped(old(Packet()), mac, ETH_P_IP, HeaderBytes(h))
    {
      var failed := AdjustHead(-IPV4_LEN);
      if failed {
        return false;
      }
      // not assigned: whatever is in the headroom where the field will be
      var id := Le16(buf[..], head + 18);
      var header := HeaderBytes(V4Header(tos, saddr, daddr, pktBytes % 0x1_0000, IPPROTO_IPIP, id));
      assert Packet()[IPV4_LEN..] == old(Packet());
      Push(mac, ETH_P_IP, header);
      return true;
    }

    method EncapV6(mac: seq<byte>, tos: byte, isIpv6: bool, saddr: seq<byte>, daddr: seq<byte>, pktBytes: u32)
      returns (ok: bool)
      requires Valid() && |mac| == 6 && ETH_LEN <= end - head && |saddr| == |daddr| == 16
      modifies this`head, buf
      ensures Valid()
      ensures ok <==> IPV6_LEN <= old(head)
      ensures !ok ==> Packet() == old(Packet())
      ensures ok ==>
                var h := V6Header(tos, saddr, daddr, (pktBytes + if isIpv6 then IPV6_LEN else 0) % 0x1_0000,
                                  if isIpv6 then IPPROTO_IPV6 else IPPROTO_IPIP);
                Packet() == Encapped(old(Packet()), mac, ETH_P_IPV6, h)
    {
      var failed := AdjustHead(-IPV6_LEN);
      if failed {
        return false;
      }
      var proto, payloadLen;
      if isIpv6 {
        proto, payloadLen := IPPROTO_IPV6, (pktBytes + IPV6_LEN) % 0x1_0000;
      } else {
        proto, payloadLen := IPPROTO_IPIP, pktBytes % 0x1_0000;
      }
      assert Packet()[IPV6_LEN..] == old(Packet());
      Push(mac, ETH_P_IPV6, V6Header(tos, saddr, daddr, payloadLen, proto));
      return true;
    }

    method DecapV4() returns (ok: bool)
      requires Valid() && head + IPV4_LEN + ETH_LEN <= end
      modifies this`head, buf
      ensures Valid() && ok && Packet() == Decapped(old(Packet()), IPV4_LEN, ETH_P_IP)
    {
      ok := Pop(IPV4_LEN, ETH_P_IP);
    }

    method DecapV6(innerV4: bool) returns (ok: bool)
      requires Valid() && head + IPV6_LEN + ETH_LEN <= end
      modifies this`head, buf
      ensures Valid() && ok && Packet() == Decapped(old(Packet()), IPV6_LEN, if innerV4 then ETH_P_IP else ETH_P_IPV6)
    {
      ok := Pop(IPV6_LEN, if innerV4 then ETH_P_IP else ETH_P_IPV6);
    }

    /** The balancer's tunnel and the far end's decapsulation, one after the other on the
        same buffer: what follows the Ethernet header comes back where it was, with its own
        ethertype exactly when no IPv6 packet went through an IPv4 tunnel. */
    method ThereAndBack(isIpv6: bool, realIsV6: bool, mac: seq<byte>, tos: byte, saddr: u32, daddr: u32,
                        saddr6: seq<byte>, daddr6: seq<byte>, pktBytes: u32) returns (ok: bool)
      requires Valid() && |mac| == 6 && ETH_LEN <= end - head && |saddr6| == |daddr6| == 16
      requires Packet()[12..14] == if isIpv6 then ETH_P_IPV6 else ETH_P_IP
      modifies this`head, buf
      ensures Valid()
      ensures ok <==> old(head) >= if isIpv6 && realIsV6 then IPV6_LEN else IPV4_LEN
      ensures !ok ==> Packet() == old(Packet())
      ensures ok ==>
                && head == old(head) && |Packet()| == |old(Packet())|
                && Packet()[ETH_LEN..] == old(Packet())[ETH_LEN..]
                && (Packet()[12..14] == old(Packet())[12..14] <==> !isIpv6 || realIsV6)
    {
      hide HeaderBytes, V6Header, V4Header, Encapped, Decapped;
      ghost var p := Packet();
      if isIpv6 && realIsV6 {
        ok := EncapV6(mac, tos, isIpv6, saddr6, daddr6, pktBytes);
        if ok {
          ghost var h := V6Header(tos, saddr6, daddr6, (pktBytes + IPV6_LEN) % 0x1_0000, IPPROTO_IPV6);
          TunnelTop(p, mac, ETH_P_IPV6, h);
          V6Protocol(tos, saddr6, daddr6, (pktBytes + IPV6_LEN) % 0x1_0000, IPPROTO_IPV6);
          assert buf[head + ETH_LEN + 6] == Packet()[ETH_LEN + 6] == IPPROTO_IPV6;
          DecapUndoesEncap(p, mac, ETH_P_IPV6, h, ETH_P_IPV6);
          ok := DecapV6(buf[head + ETH_LEN + 6] == IPPROTO_IPIP);
        }
      } else {
        ghost var id := if head >= IPV4_LEN then Le16(buf[..], head - 2) else 0;
        ok := EncapV4(mac, tos, saddr, daddr, pktBytes);
        if ok {
          ghost var h := HeaderBytes(V4Header(tos, saddr, daddr, pktBytes % 0x1_0000, IPPROTO_IPIP, id));
          TunnelTop(p, mac, ETH_P_IP, h);
          DecapUndoesEncap(p, mac, ETH_P_IP, h, ETH_P_IP);
          assert ETH_P_IP[0] != ETH_P_IPV6[0];
          ok := DecapV4();
        }
      }
    }
  }

  ghost function Pushed(b: seq<byte>, head: nat, mac: seq<byte>, ethertype: seq<byte>, header: seq<byte>): (r: seq<byte>)
    requires |mac| == 6 && |ethertype| == 2 && |header| >= ETH_LEN && head + |header| + ETH_LEN <= |b|
    ensures |r| == |b|
  {
    var b1 := Patch(b, head, mac);
    var b2 := Patch(b1, head + 6, b1[head + |header|..head + |header| + 6]);
    Patch(Patch(b2, head + 12, ethertype), head + ETH_LEN, header)
  }

  lemma PushedPacket(b: seq<byte>, head: nat, end: nat, mac: seq<byte>, ethertype: seq<byte>, header: seq<byte>)
    requires |mac| == 6 && |ethertype| == 2 && |header| >= ETH_LEN && head + |header| + ETH_LEN <= end <= |b|
    ensures Pushed(b, head, mac, ethertype, header)[head..end] ==
            Encapped(b[head..end][|header|..], mac, ethertype, header)
  {
    hide Patch;
    var n, p := |header|, b[head..end][|header|..];
    var l, r := Pushed(b, head, mac, ethertype, header)[head..end], Encapped(p, mac, ethertype, header);
    var b1 := Patch(b, head, mac);
    var b2 := Patch(b1, head + 6, b1[head + n..head + n + 6]);
    var b3 := Patch(b2, head + 12, ethertype);
    var b4 := Patch(b3, head + ETH_LEN, header);
    forall i | 0 <= i < end - head
      ensures l[i] == r[i]
    {
      var x := head + i;
      assert l[i] == b4[x];
      if i < 6 {
        assert b4[x] == b3[x] == b2[x] == b1[x] == mac[i] == r[i];
      } else if i < 12 {
        assert b4[x] == b3[x] == b2[x] == b1[head + n..head + n + 6][i - 6] == b1[x + n - 6] == b[x + n - 6];
        assert r[i] == p[i - 6] == b[x + n - 6];
      } else if i < ETH_LEN {
        assert b4[x] == b3[x] == ethertype[i - 12] == r[i];
      } else if i < ETH_LEN + n {
        assert b4[x] == header[i - ETH_LEN] == r[i];
      } else {
        assert b4[x] == b3[x] == b2[x] == b1[x] == b[x];
        assert r[i] == p[i - n] == b[x];
      }
    }
  }

  ghost function Popped(b: seq<byte>, head: nat, n: nat, ethertype: seq<byte>): (r: seq<byte>)
    requires |ethertype| == 2 && n >= ETH_LEN && head + n + ETH_LEN <= |b|
    ensures |r| == |b|
  {
    var b1 := Patch(b, head + n + 6, b[head + 6..head + 12]);
    var b2 := Patch(b1, head + n, b1[head..head + 6]);
    Patch(b2, head + n + 12, ethertype)
  }

  lemma PoppedPacket(b: seq<byte>, head: nat, end: nat, n: nat, ethertype: seq<byte>)
    requires |ethertype| == 2 && n >= ETH_LEN && head + n + ETH_LEN <= end <= |b|
    ensures Popped(b, head, n, ethertype)[head + n..end] == Decapped(b[head..end], n, ethertype)
  {
    hide Patch;
    var l, q := Popped(b, head, n, ethertype)[head + n..end], b[head..end];
    var r := Decapped(q, n, ethertype);
    var b1 := Patch(b, head + n + 6, b[head + 6..head + 12]);
    var b2 := Patch(b1, head + n, b1[head..head + 6]);
    var b3 := Patch(b2, head + n + 12, ethertype);
    forall i | 0 <= i < end - head - n
      ensures l[i] == r[i]
    {
      var x := head + n + i;
      assert l[i] == b3[x];
      if i < 6 {
        assert b3[x] == b2[x] == b1[head..head + 6][i] == b1[head + i] == b[head + i];
        assert r[i] == q[i] == b[head + i];
      } else if i < 12 {
        assert b3[x] == b2[x] == b1[x] == b[head + 6..head + 12][i - 6] == b[head + i];
        assert r[i] == q[i] == b[head + i];
      } else if i < ETH_LEN {
        assert b3[x] == ethertype[i - 12] == r[i];
      } else {
        assert b3[x] == b2[x] == b1[x] == b[x];
        assert r[i] == q[ETH_LEN + n..][i - ETH_LEN] == b[x];
      }
    }
  }

  // ----- through the balancer and back ---------------------------------------------------------------------

  /** The balancer uses the IPv6 tunnel only for IPv6 packets to IPv6 reals; the far end
      tells what is inside from the outer header's protocol. */
  function Tunnelled(p: seq<byte>, isIpv6: bool, realIsV6: bool, mac: seq<byte>, h4: Fields, h6: seq<byte>): (q: seq<byte>)
    requires ETH_LEN <= |p| && |mac| == 6 && |h6| == IPV6_LEN
  {
    if isIpv6 && realIsV6 then Encapped(p, mac, ETH_P_IPV6, h6) else Encapped(p, mac, ETH_P_IP, HeaderBytes(h4))
  }

  function Untunnelled(q: seq<byte>): (p: seq<byte>)
    requires |q| >= ETH_LEN + IPV6_LEN
  {
    if q[12..14] == ETH_P_IPV6
    then Decapped(q, IPV6_LEN, if q[ETH_LEN + 6] == IPPROTO_IPIP then ETH_P_IP else ETH_P_IPV6)
    else Decapped(q, IPV4_LEN, ETH_P_IP)
  }

  /** The original network-layer packet always comes back; with its own ethertype exactly
      when no IPv6 packet was put into an IPv4 tunnel. */
  lemma TunnelRoundTrip(p: seq<byte>, isIpv6: bool, realIsV6: bool, mac: seq<byte>, h4: Fields,
                        tc: byte, saddr: seq<byte>, daddr: seq<byte>, len: u16)
    requires ETH_LEN + IPV4_LEN <= |p| && |mac| == 6 && |saddr| == |daddr| == 16
    requires p[12..14] == if isIpv6 then ETH_P_IPV6 else ETH_P_IP
    ensures var q := Tunnelled(p, isIpv6, realIsV6, mac, h4, V6Header(tc, saddr, daddr, len, IPPROTO_IPV6));
            && |q| >= ETH_LEN + IPV6_LEN
            && |Untunnelled(q)| == |p|
            && Untunnelled(q)[ETH_LEN..] == p[ETH_LEN..]
            && (Untunnelled(q)[12..14] == p[12..14] <==> !isIpv6 || realIsV6)
  {
    var h6 := V6Header(tc, saddr, daddr, len, IPPROTO_IPV6);
    var q := Tunnelled(p, isIpv6, realIsV6, mac, h4, h6);
    if isIpv6 && realIsV6 {
      TunnelTop(p, mac, ETH_P_IPV6, h6);
      DecapUndoesEncap(p, mac, ETH_P_IPV6, h6, ETH_P_IPV6);
    } else {
      TunnelTop(p, mac, ETH_P_IP, HeaderBytes(h4));
      DecapUndoesEncap(p, mac, ETH_P_IP, HeaderBytes(h4), ETH_P_IP);
      assert ETH_P_IP[0] != ETH_P_IPV6[0];
    }
  }

  lemma V6Protocol(tc: byte, saddr: seq<byte>, daddr: seq<byte>, len: u16, proto: byte)
    requires |saddr| == |daddr| == 16
    ensures V6Header(tc, saddr, daddr, len, proto)[6] == proto
  {
  }

  lemma TunnelTop(p: seq<byte>, mac: seq<byte>, ethertype: seq<byte>, header: seq<byte>)
    requires ETH_LEN <= |p| && |mac| == 6 && |ethertype| == 2 && |header| >= 7
    ensures var q := Encapped(p, mac, ethertype, header);
            q[12..14] == ethertype && q[ETH_LEN + 6] == header[6] && |q| == |p| + |header|
  {
  }

  /** The byte count the balancer hands over: the total length of an IPv4 packet but the
      payload length of an IPv6 one. */
  function PacketBytes(p: seq<byte>, isIpv6: bool): (n: nat)
    requires ETH_LEN + (if isIpv6 then IPV6_LEN else 0) <= |p|
  {
    |p| - ETH_LEN - if isIpv6 then IPV6_LEN else 0
  }

  /** The outer header on the wire verifies and names the real's address. Its total length
      is that of the packet from the outer IP header on, as section 3 of RFC 2003 has it, if
      and only if the packet inside is IPv4. */
  lemma OuterV4Header(p: seq<byte>, isIpv6: bool, mac: seq<byte>, tos: byte, saddr: u32, daddr: u32, id: u16)
    requires ETH_LEN + (if isIpv6 then IPV6_LEN else 0) <= |p| <= 1514 && |mac| == 6
    ensures var h := V4Header(tos, saddr, daddr, PacketBytes(p, isIpv6), IPPROTO_IPIP, id);
            var q := Encapped(p, mac, ETH_P_IP, HeaderBytes(h));
            && |q| >= ETH_LEN + IPV4_LEN
            && ParseHeader(q[ETH_LEN..]) == h && Verifies(h)
            && (SwapBytes(h.totLen) == |q| - ETH_LEN <==> !isIpv6)
            && h.saddr == saddr && h.daddr == daddr && h.protocol == IPPROTO_IPIP
            && h.verIhl == 0x45 && h.tos == tos && h.id == id && h.fragOff == 0 && h.ttl == 64
            && q[0..6] == mac && q[6..12] == p[0..6] && q[12..14] == [0x08, 0x00]
            && q[23] == 4 && q[26..30] == Le32Bytes(saddr) && q[30..34] == Le32Bytes(daddr) && q[34..] == p[ETH_LEN..]
  {
    hide OnesSum, Sum, Verifies, HeaderBytes, ParseHeader, SwapBytes, Le32Bytes;
    var n := PacketBytes(p, isIpv6);
    var h := V4Header(tos, saddr, daddr, n, IPPROTO_IPIP, id);
    V4HeaderVerifies(tos, saddr, daddr, n, IPPROTO_IPIP, id);
    var q := Encapped(p, mac, ETH_P_IP, HeaderBytes(h));
    HeaderRoundTrip(h);
    ParsePrefix(HeaderBytes(h), p[ETH_LEN..]);
    SwapTwice(n + IPV4_LEN);
    assert q[ETH_LEN..] == HeaderBytes(h) + p[ETH_LEN..];
    AddressesAt(h);
    assert q[14..34] == HeaderBytes(h) && q[23] == q[14..34][9];
    SubSlice(q, 14, 34, 12, 16);
    SubSlice(q, 14, 34, 16, 20);
  }

  lemma AddressesAt(h: Fields)
    ensures HeaderBytes(h)[9] == h.protocol
    ensures HeaderBytes(h)[12..16] == Le32Bytes(h.saddr) && HeaderBytes(h)[16..20] == Le32Bytes(h.daddr)
  {
    hide Le32Bytes;
  }

  lemma SwapTwice(v: u16)
    ensures SwapBytes(SwapBytes(v)) == v
  {
    var lo, hi := v % 0x100, v / 0x100;
    assert SwapBytes(v) == lo * 0x100 + hi;
    assert (lo * 0x100 + hi) % 0x100 == hi;
    assert (lo * 0x100 + hi) / 0x100 == lo;
  }

  lemma ParsePrefix(b: seq<byte>, rest: seq<byte>)
    requires |b| == IPV4_LEN
    ensures ParseHeader(b + rest) == ParseHeader(b)
  {
  }

  /** The IPv6 tunnel's payload length is that of the packet after the outer header, and
      the header names the real's address. */
  lemma OuterV6Header(p: seq<byte>, mac: seq<byte>, tc: byte, saddr: seq<byte>, daddr: seq<byte>)
    requires ETH_LEN + IPV6_LEN <= |p| <= 1514 && |mac| == 6 && |saddr| == |daddr| == 16
    ensures var inner := |p| - ETH_LEN - IPV6_LEN;
            var q := Encapped(p, mac, ETH_P_IPV6, V6Header(tc, saddr, daddr, (inner + IPV6_LEN) % 0x1_0000, IPPROTO_IPV6));
            && |q| >= ETH_LEN + IPV6_LEN
            && 0x100 * (q[ETH_LEN + 4] as int) + q[ETH_LEN + 5] == |q| - ETH_LEN - IPV6_LEN
            && q[ETH_LEN + 8..ETH_LEN + 24] == saddr && q[ETH_LEN + 24..ETH_LEN + 40] == daddr
            && q[14] / 0x10 == 6 && q[14] % 0x10 * 0x10 + q[15] / 0x10 == tc && q[15] % 0x10 == q[16] == q[17] == 0
            && q[20] == 41 && q[21] == 64
            && q[0..6] == mac && q[6..12] == p[0..6] && q[12..14] == [0x86, 0xdd] && q[54..] == p[ETH_LEN..]
  {
  }
}
