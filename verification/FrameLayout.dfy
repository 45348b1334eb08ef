/** Frames laid out field by field, independently of the parser, and what the parser makes of
    them: every header field is read from where the protocols put it. */
module FrameLayout {
  import opened Bytes
  import opened PacketHead
  import opened InternetChecksum
  import opened Encapsulation
  import opened FlowRouting
  import PacketParsing

  type Parsed = PacketParsing.Parsed

  /** What the transport header `t` of a packet between two addresses amounts to. */
  function Transport(src: nat, dst: nat, proto: byte, t: seq<byte>): (r: Parsed)
  {
    if proto != 6 && proto != 17 then PacketParsing.Stopped(PacketParsing.Pass)
    else if |t| < (if proto == 6 then 20 else 8) then PacketParsing.Stopped(PacketParsing.Drop)
    else
      var srcPort, dstPort := t[0] + 0x100 * (t[1] as int), t[2] + 0x100 * (t[3] as int);
      PacketParsing.Parsed(Headers(Flow(src, dst, srcPort, dstPort, proto), proto == 6 && t[13] / 2 % 2 == 1))
  }

  /** The same for a quoted packet, which went the other way. */
  function QuotedTransport(src: nat, dst: nat, proto: byte, t: seq<byte>): (r: Parsed)
  {
    match Transport(src, dst, proto, t)
    case Stopped(action) => PacketParsing.Stopped(action)
    case Parsed(h) => PacketParsing.Parsed(Headers(Flow(dst, src, h.flow.dstPort, h.flow.srcPort, proto), h.syn))
  }

  predicate HasOptions(h: Fields) {
    h.verIhl % 0x10 != 5
  }

  /** More fragments, or a fragment offset. */
  predicate IsFragment(h: Fields) {
    h.fragOff % 0x40 != 0 || h.fragOff / 0x100 != 0
  }

  function Number(addr: seq<byte>): (n: nat)
    requires |addr| == 16
  {
    Le64(addr, 0) + 0x1_0000_0000_0000_0000 * Le64(addr, 8)
  }

  // ----- IPv4 ----------------------------------------------------------------------------------

  function V4Frame(eth: seq<byte>, h: Fields, t: seq<byte>): (f: seq<byte>)
    requires |eth| == ETH_LEN
  {
    eth + HeaderBytes(h) + t
  }

  /** The fields of a header at any place in a frame. */
  lemma HeaderAt(f: seq<byte>, at: nat, h: Fields)
    requires at + IPV4_LEN <= |f| && f[at..at + IPV4_LEN] == HeaderBytes(h)
    ensures f[at] == h.verIhl && f[at + 9] == h.protocol
    ensures Le16(f, at + 2) == h.totLen && Le16(f, at + 6) == h.fragOff
    ensures Le32(f, at + 12) == h.saddr && Le32(f, at + 16) == h.daddr
  {
    hide Le32, HeaderBytes;
    var b := HeaderBytes(h);
    HeaderRoundTrip(h);
    assert forall i :: 0 <= i < IPV4_LEN ==> b[i] == f[at..at + IPV4_LEN][i] == f[at + i];
    SubSlice(f, at, at + IPV4_LEN, 12, 16);
    SubSlice(f, at, at + IPV4_LEN, 16, 20);
    Le32Same(f, at + 12, b, 12);
    Le32Same(f, at + 16, b, 16);
  }

  lemma WireOrder(f: seq<byte>, at: nat)
    requires at + 2 <= |f|
    ensures SwapBytes(Le16(f, at)) == 0x100 * (f[at] as int) + f[at + 1]
  {
  }

  /** Every IPv4 frame that is not ICMP: options and fragments are dropped, other protocols
      passed, and the flow of the rest is read from its own fields. */
  lemma V4FrameParses(eth: seq<byte>, h: Fields, t: seq<byte>)
    requires |eth| == ETH_LEN && h.protocol != 1
    ensures PacketParsing.Parse(V4Frame(eth, h, t), false) ==
            if HasOptions(h) || IsFragment(h) then PacketParsing.Stopped(PacketParsing.Drop)
            else Transport(h.saddr, h.daddr, h.protocol, t)
    ensures PacketParsing.HeaderLength(V4Frame(eth, h, t), false) == SwapBytes(h.totLen)
  {
    hide Le32, HeaderBytes, SwapBytes;
    var f := V4Frame(eth, h, t);
    assert f[14..34] == HeaderBytes(h) && f[34..] == t;
    HeaderAt(f, 14, h);
    WireOrder(f, 16);
    assert forall i :: 0 <= i < |t| ==> f[34 + i] == f[34..][i] == t[i];
  }

  /** Every ICMP frame: echo requests are answered, errors are taken for the packet they quote,
      everything else is passed. */
  lemma V4ErrorParses(eth: seq<byte>, h: Fields, icmp: seq<byte>, q: Fields, t: seq<byte>)
    requires |eth| == ETH_LEN && h.protocol == 1 && |icmp| == 8
    ensures PacketParsing.Parse(V4Frame(eth, h, icmp + HeaderBytes(q) + t), false) ==
            if HasOptions(h) || IsFragment(h) then PacketParsing.Stopped(PacketParsing.Drop)
            else if icmp[0] == 8 then PacketParsing.Stopped(PacketParsing.EchoReply)
            else if icmp[0] != 3 then PacketParsing.Stopped(PacketParsing.Pass)
            else if HasOptions(q) then PacketParsing.Stopped(PacketParsing.Drop)
            else QuotedTransport(q.saddr, q.daddr, q.protocol, t)
  {
    hide Le32, HeaderBytes;
    var f := V4Frame(eth, h, icmp + HeaderBytes(q) + t);
    assert f[14..34] == HeaderBytes(h) && f[42..62] == HeaderBytes(q) && f[62..] == t && f[34] == icmp[0];
    HeaderAt(f, 14, h);
    HeaderAt(f, 42, q);
    assert forall i :: 0 <= i < |t| ==> f[62 + i] == f[62..][i] == t[i];
  }

  // ----- IPv6 ----------------------------------------------------------------------------------

  function V6Frame(eth: seq<byte>, header: seq<byte>, t: seq<byte>): (f: seq<byte>)
    requires |eth| == ETH_LEN && |header| == IPV6_LEN
  {
    eth + header + t
  }

  lemma V6HeaderAt(f: seq<byte>, at: nat, tc: byte, saddr: seq<byte>, daddr: seq<byte>, len: u16, proto: byte)
    requires |saddr| == |daddr| == 16 && at + IPV6_LEN <= |f|
    requires f[at..at + IPV6_LEN] == V6Header(tc, saddr, daddr, len, proto)
    ensures f[at + 6] == proto && 0x100 * (f[at + 4] as int) + f[at + 5] == len
    ensures PacketParsing.Address(f, at + 8, true) == Number(saddr) && PacketParsing.Address(f, at + 24, true) == Number(daddr)
  {
    hide Le32;
    var b := V6Header(tc, saddr, daddr, len, proto);
    assert forall i :: 0 <= i < IPV6_LEN ==> b[i] == f[at..at + IPV6_LEN][i] == f[at + i];
    assert b[8..24] == saddr && b[24..40] == daddr;
    SubSlice(f, at, at + IPV6_LEN, 8, 24);
    SubSlice(f, at, at + IPV6_LEN, 24, 40);
    SameNumber(f, at + 8, saddr);
    SameNumber(f, at + 24, daddr);
  }

  lemma SameNumber(f: seq<byte>, at: nat, addr: seq<byte>)
    requires |addr| == 16 && at + 16 <= |f| && f[at..at + 16] == addr
    ensures PacketParsing.Address(f, at, true) == Number(addr)
  {
    hide Le32;
    SubSlice(f, at, at + 16, 0, 4);
    SubSlice(f, at, at + 16, 4, 8);
    SubSlice(f, at, at + 16, 8, 12);
    SubSlice(f, at, at + 16, 12, 16);
    Le32Same(f, at, addr, 0);
    Le32Same(f, at + 4, addr, 4);
    Le32Same(f, at + 8, addr, 8);
    Le32Same(f, at + 12, addr, 12);
  }

  lemma V6FrameParses(eth: seq<byte>, tc: byte, saddr: seq<byte>, daddr: seq<byte>, len: u16, proto: byte, t: seq<byte>)
    requires |eth| == ETH_LEN && |saddr| == |daddr| == 16 && proto != 58
    ensures var f := V6Frame(eth, V6Header(tc, saddr, daddr, len, proto), t);
            && PacketParsing.Parse(f, true) ==
               (if proto == 44 then PacketParsing.Stopped(PacketParsing.Drop)
                else Transport(Number(saddr), Number(daddr), proto, t))
            && PacketParsing.HeaderLength(f, true) == len
  {
    hide Le32, V6Header, PacketParsing.Address, Number;
    var f := V6Frame(eth, V6Header(tc, saddr, daddr, len, proto), t);
    assert f[14..54] == V6Header(tc, saddr, daddr, len, proto) && f[54..] == t;
    V6HeaderAt(f, 14, tc, saddr, daddr, len, proto);
    assert forall i :: 0 <= i < |t| ==> f[54 + i] == f[54..][i] == t[i];
  }

  lemma V6ErrorParses(eth: seq<byte>, tc: byte, saddr: seq<byte>, daddr: seq<byte>, len: u16, icmp: seq<byte>,
                      tc': byte, saddr': seq<byte>, daddr': seq<byte>, len': u16, proto: byte, t: seq<byte>)
    requires |eth| == ETH_LEN && |saddr| == |daddr| == |saddr'| == |daddr'| == 16 && |icmp| == 8
    ensures var f := V6Frame(eth, V6Header(tc, saddr, daddr, len, 58), icmp + V6Header(tc', saddr', daddr', len', proto) + t);
            PacketParsing.Parse(f, true) ==
            if icmp[0] == 128 then PacketParsing.Stopped(PacketParsing.EchoReply)
            else if icmp[0] != 1 && icmp[0] != 2 then PacketParsing.Stopped(PacketParsing.Pass)
            else QuotedTransport(Number(saddr'), Number(daddr'), proto, t)
  {
    hide Le32, V6Header, PacketParsing.Address, Number;
    var q := V6Header(tc', saddr', daddr', len', proto);
    var f := V6Frame(eth, V6Header(tc, saddr, daddr, len, 58), icmp + q + t);
    assert f[14..54] == V6Header(tc, saddr, daddr, len, 58) && f[62..102] == q && f[102..] == t && f[54] == icmp[0];
    V6HeaderAt(f, 14, tc, saddr, daddr, len, 58);
    V6HeaderAt(f, 62, tc', saddr', daddr', len', proto);
    assert forall i :: 0 <= i < |t| ==> f[102 + i] == f[102..][i] == t[i];
  }
}
