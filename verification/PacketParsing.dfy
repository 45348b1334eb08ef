/** How the load balancer reads a frame: network header, quoted header of an ICMP error, and
    transport header, into the description of a packet. */
module PacketParsing {
  import opened Bytes
  import opened PacketHead
  import opened FlowRouting
  import opened FlowProperties

  const MAX_PCKT_SIZE := 1514
  const ICMP_LEN := 8
  const TCP_LEN := 20
  const UDP_LEN := 8
  const ICMP := 1
  const FRAGMENT := 44
  const ICMPV6 := 58
  const ICMP_DEST_UNREACH := 3
  const ICMP_ECHO := 8
  const ICMPV6_DEST_UNREACH := 1
  const ICMPV6_PKT_TOOBIG := 2
  const ICMPV6_ECHO_REQUEST := 128

  /** Ways in which a packet is finished with before it is routed. */
  datatype Action = Drop | Pass | EchoReply

  datatype Network = Stop(action: Action) | Network(src: nat, dst: nat, proto: byte, icmp: bool)

  datatype Parsed = Stopped(action: Action) | Parsed(headers: Headers)

  // ----- where the fields are ------------------------------------------------------------------

  function NetLen(isIpv6: bool): (n: nat)
  {
    if isIpv6 then IPV6_LEN else IPV4_LEN
  }

  function ProtocolAt(isIpv6: bool): (at: nat)
  {
    if isIpv6 then 6 else 9
  }

  function SourceAt(isIpv6: bool): (at: nat)
  {
    if isIpv6 then 8 else 12
  }

  function DestAt(isIpv6: bool): (at: nat)
  {
    if isIpv6 then 24 else 16
  }

  /** An address as it lies in the flow's 16 bytes, which are zero beyond an IPv4 address. */
  function Address(f: seq<byte>, at: nat, isIpv6: bool): (a: nat)
    requires at + (if isIpv6 then 16 else 4) <= |f|
  {
    if isIpv6 then Le64(f, at) + 0x1_0000_0000_0000_0000 * Le64(f, at + 8) else Le32(f, at)
  }

  /** Where the transport header starts. */
  function TransportAt(isIpv6: bool, icmp: bool): (at: nat)
  {
    ETH_LEN + NetLen(isIpv6) + if icmp then ICMP_LEN + NetLen(isIpv6) else 0
  }

  function TransportLen(proto: byte): (n: nat)
  {
    if proto == TCP then TCP_LEN else UDP_LEN
  }

  predicate Fragmented(f: seq<byte>)
    requires ETH_LEN + IPV4_LEN <= |f|
  {
    f[ETH_LEN + 6] % 0x40 != 0 || f[ETH_LEN + 7] != 0
  }

  predicate SynBit(flags: byte) {
    flags / 2 % 2 == 1
  }

  // ----- what is read from them ---------------------------------------------------------------------

  function ParseNetwork(f: seq<byte>, isIpv6: bool): (r: Network)
  {
    if |f| < ETH_LEN + NetLen(isIpv6) then Stop(Drop)
    else if !isIpv6 && (f[ETH_LEN] % 0x10 != 5 || Fragmented(f)) then Stop(Drop)
    else
      var proto := f[ETH_LEN + ProtocolAt(isIpv6)];
      if isIpv6 && proto == FRAGMENT then Stop(Drop)
      else if proto == (if isIpv6 then ICMPV6 else ICMP) then ParseQuoted(f, isIpv6)
      else Network(Address(f, ETH_LEN + SourceAt(isIpv6), isIpv6), Address(f, ETH_LEN + DestAt(isIpv6), isIpv6), proto, false)
  }

  predicate IsErrorType(kind: byte, isIpv6: bool) {
    if isIpv6 then kind == ICMPV6_PKT_TOOBIG || kind == ICMPV6_DEST_UNREACH else kind == ICMP_DEST_UNREACH
  }

  /** An ICMP message: of an error, the addresses of the packet it quotes, exchanged. */
  function ParseQuoted(f: seq<byte>, isIpv6: bool): (r: Network)
    requires ETH_LEN + NetLen(isIpv6) <= |f|
  {
    var at := ETH_LEN + NetLen(isIpv6);
    var quoted := at + ICMP_LEN;
    if |f| < quoted then Stop(Drop)
    else if f[at] == (if isIpv6 then ICMPV6_ECHO_REQUEST else ICMP_ECHO) then Stop(EchoReply)
    else if !IsErrorType(f[at], isIpv6) then Stop(Pass)
    else if |f| < quoted + NetLen(isIpv6) then Stop(Drop)
    else if !isIpv6 && f[quoted] % 0x10 != 5 then Stop(Drop)
    else
      Network(Address(f, quoted + DestAt(isIpv6), isIpv6), Address(f, quoted + SourceAt(isIpv6), isIpv6),
              f[quoted + ProtocolAt(isIpv6)], true)
  }

  function ParseTransport(f: seq<byte>, isIpv6: bool, n: Network): (r: Parsed)
    requires n.Network?
  {
    var at := TransportAt(isIpv6, n.icmp);
    if n.proto != TCP && n.proto != UDP then Stopped(Pass)
    else if |f| < at + TransportLen(n.proto) then Stopped(Drop)
    else
      var first, second := Le16(f, at), Le16(f, at + 2);
      var flow := if n.icmp then Flow(n.src, n.dst, second, first, n.proto) else Flow(n.src, n.dst, first, second, n.proto);
      Parsed(Headers(flow, n.proto == TCP && SynBit(f[at + 13])))
  }

  function Parse(f: seq<byte>, isIpv6: bool): (r: Parsed)
  {
    match ParseNetwork(f, isIpv6)
    case Stop(action) => Stopped(action)
    case Network(src, dst, proto, icmp) => ParseTransport(f, isIpv6, Network(src, dst, proto, icmp))
  }

  // ----- the same, as the program does it ------------------------------------------------------------

  method CalcOffset(isIpv6: bool, isIcmp: bool) returns (off: nat)
    ensures off == TransportAt(isIpv6, isIcmp)
  {
    off := ETH_LEN;
    if isIpv6 {
      off := off + IPV6_LEN;
      if isIcmp {
        off := off + (ICMP_LEN + IPV6_LEN);
      }
    } else {
      off := off + IPV4_LEN;
      if isIcmp {
        off := off + (ICMP_LEN + IPV4_LEN);
      }
    }
  }

  /** `Ok` is further processing. */
  datatype Step = Ok | Done(action: Action)

  /** The packet description that the parsing routines fill in. */
  class Description {
    var src: nat
    var dst: nat
    var srcPort: u16
    var dstPort: u16
    var proto: byte
    var icmp: bool
    var syn: bool

    constructor ()
      ensures !icmp && !syn
    {
      src, dst, srcPort, dstPort, proto, icmp, syn := 0, 0, 0, 0, 0, false, false;
    }

    ghost predicate Describes(n: Network)
      reads this
    {
      n.Network? && n == Network(src, dst, proto, icmp)
    }

    ghost predicate Agrees(step: Step, n: Network)
      reads this
    {
      match step
      case Ok => Describes(n)
      case Done(action) => n == Stop(action)
    }

    method ParseIcmp(f: seq<byte>, off: nat)
      returns (step: Step)
      requires off == ETH_LEN + IPV4_LEN <= |f|
      modifies this
      ensures Agrees(step, ParseQuoted(f, false)) && syn == old(syn)
    {
      if off + ICMP_LEN > |f| {
        return Done(Drop);
      }
      if f[off] == ICMP_ECHO {
        return Done(EchoReply);
      }
      if f[off] != ICMP_DEST_UNREACH {
        return Done(Pass);
      }
      var iph := off + ICMP_LEN;
      if iph + IPV4_LEN > |f| {
        return Done(Drop);
      }
      if f[iph] % 0x10 != 5 {
        return Done(Drop);
      }
      proto := f[iph + 9];
      icmp := true;
      src := Le32(f, iph + 16);
      dst := Le32(f, iph + 12);
      return Ok;
    }

    method ParseIcmpv6(f: seq<byte>, off: nat)
      returns (step: Step)
      requires off == ETH_LEN + IPV6_LEN <= |f|
      modifies this
      ensures Agrees(step, ParseQuoted(f, true)) && syn == old(syn)
    {
      if off + ICMP_LEN > |f| {
        return Done(Drop);
      }
      if f[off] == ICMPV6_ECHO_REQUEST {
        return Done(EchoReply);
      }
      if f[off] != ICMPV6_PKT_TOOBIG && f[off] != ICMPV6_DEST_UNREACH {
        return Done(Pass);
      }
      var ip6h := off + ICMP_LEN;
      if ip6h + IPV6_LEN > |f| {
        return Done(Drop);
      }
      proto := f[ip6h + 6];
      icmp := true;
      src := Address(f, ip6h + 24, true);
      dst := Address(f, ip6h + 8, true);
      return Ok;
    }

    method ProcessL3Headers(f: seq<byte>, isIpv6: bool) returns (step: Step, bytes: u16)
      requires !icmp
      modifies this
      ensures Agrees(step, ParseNetwork(f, isIpv6)) && syn == old(syn)
      ensures ETH_LEN + NetLen(isIpv6) <= |f| && step.Ok? ==> bytes == HeaderLength(f, isIpv6)
    {
      hide Address, Le32;
      bytes := 0;
      var off := ETH_LEN;
      if isIpv6 {
        if off + IPV6_LEN > |f| {
          return Done(Drop), 0;
        }
        proto := f[off + 6];
        bytes := HeaderLength(f, true);
        if proto == FRAGMENT {
          return Done(Drop), bytes;
        } else if proto == ICMPV6 {
          step := ParseIcmpv6(f, off + IPV6_LEN);
          return;
        } else {
          src := Address(f, off + 8, true);
          dst := Address(f, off + 24, true);
        }
      } else {
        if off + IPV4_LEN > |f| {
          return Done(Drop), 0;
        }
        if f[off] % 0x10 != 5 {
          return Done(Drop), 0;
        }
        proto := f[off + 9];
        bytes := HeaderLength(f, false);
        if Fragmented(f) {
          return Done(Drop), bytes;
        }
        if proto == ICMP {
          step := ParseIcmp(f, off + IPV4_LEN);
          return;
        } else {
          src := Address(f, off + 12, false);
          dst := Address(f, off + 16, false);
        }
      }
      return Ok, bytes;
    }

    method ParsePorts(f: seq<byte>, isIpv6: bool) returns (ok: bool)
      requires proto == TCP || proto == UDP
      modifies this`srcPort, this`dstPort, this`syn
      ensures var at := TransportAt(isIpv6, icmp);
              && ok == (at + TransportLen(proto) <= |f|)
              && (ok ==> syn == (old(syn) || (proto == TCP && SynBit(f[at + 13]))))
              && (ok ==> (srcPort, dstPort) == if icmp then (Le16(f, at + 2), Le16(f, at)) else (Le16(f, at), Le16(f, at + 2)))
    {
      var off := CalcOffset(isIpv6, icmp);
      if off + TransportLen(proto) > |f| {
        return false;
      }
      if proto == TCP && SynBit(f[off + 13]) {
        syn := true;
      }
      if !icmp {
        srcPort, dstPort := Le16(f, off), Le16(f, off + 2);
      } else {
        srcPort, dstPort := Le16(f, off + 2), Le16(f, off);
      }
      return true;
    }
  }

  /** The length field the balancer counts as the packet's bytes. */
  function HeaderLength(f: seq<byte>, isIpv6: bool): (n: u16)
    requires ETH_LEN + NetLen(isIpv6) <= |f|
  {
    var at := ETH_LEN + if isIpv6 then 4 else 2;
    0x100 * (f[at] as int) + f[at + 1]
  }

  datatype FrameVerdict = Finished(action: Action) | Routed(verdict: Verdict)

  /** What the balancer does with a frame, parsing included. */
  function ProcessFrame(vips: Vips, s: State, f: seq<byte>, isIpv6: bool, e: Env): (r: (FrameVerdict, State))
    requires s.Valid() && e.Valid()
    ensures r.1.Valid()
  {
    match Parse(f, isIpv6)
    case Stopped(action) => (Finished(action), s)
    case Parsed(h) =>
      var bytes := if ETH_LEN + NetLen(isIpv6) <= |f| then HeaderLength(f, isIpv6) else 0;
      var (v, s') := Process(vips, s, h, e.(bytes := bytes, tooBig := |f| > MAX_PCKT_SIZE));
      (Routed(v), s')
  }

  method HandleFrame(balancer: Balancer, f: seq<byte>, isIpv6: bool, e: Env) returns (verdict: FrameVerdict)
    requires balancer.Maps().Valid() && e.Valid()
    modifies balancer
    ensures (verdict, balancer.Maps()) == ProcessFrame(balancer.vips, old(balancer.Maps()), f, isIpv6, e)
  {
    hide Process, HeaderLength;
    var d := new Description();
    var step, bytes := d.ProcessL3Headers(f, isIpv6);
    if step.Done? {
      return Finished(step.action);
    }
    if d.proto != TCP && d.proto != UDP {
      return Finished(Pass);
    }
    var ok := d.ParsePorts(f, isIpv6);
    if !ok {
      return Finished(Drop);
    }
    var h := Headers(Flow(d.src, d.dst, d.srcPort, d.dstPort, d.proto), d.syn);
    var v := balancer.ProcessPacket(h, e.(bytes := bytes, tooBig := |f| > MAX_PCKT_SIZE));
    return Routed(v);
  }

  /** Frames too short for their network header are dropped. */
  lemma ShortFrames(f: seq<byte>, isIpv6: bool)
    requires |f| < if isIpv6 then 54 else 34
    ensures Parse(f, isIpv6) == Stopped(Drop)
  {
  }

  // ----- ICMP errors -------------------------------------------------------------------------------------

  /** `error` is an ICMP error that ends with the first n bytes of a packet, counted from its
      network header. */
  predicate Quotes(error: seq<byte>, packet: seq<byte>, isIpv6: bool, n: nat) {
    var quoted := ETH_LEN + NetLen(isIpv6) + ICMP_LEN;
    && ETH_LEN + n <= |packet|
    && |error| == quoted + n && error[quoted..] == packet[ETH_LEN..ETH_LEN + n]
    && IsError(error, isIpv6)
  }

  predicate IsError(error: seq<byte>, isIpv6: bool)
    requires ETH_LEN + NetLen(isIpv6) + ICMP_LEN <= |error|
  {
    && (!isIpv6 ==> error[ETH_LEN] % 0x10 == 5 && !Fragmented(error))
    && error[ETH_LEN + ProtocolAt(isIpv6)] == (if isIpv6 then ICMPV6 else ICMP)
    && IsErrorType(error[ETH_LEN + NetLen(isIpv6)], isIpv6)
  }

  /** Bytes at corresponding places are the same. */
  lemma QuotedByte(error: seq<byte>, packet: seq<byte>, isIpv6: bool, n: nat, k: nat)
    requires Quotes(error, packet, isIpv6, n) && k < n
    ensures error[ETH_LEN + NetLen(isIpv6) + ICMP_LEN + k] == packet[ETH_LEN + k]
  {
    var quoted := ETH_LEN + NetLen(isIpv6) + ICMP_LEN;
    assert error[quoted..][k] == packet[ETH_LEN..ETH_LEN + n][k];
  }

  /** So are words, and addresses. */
  lemma QuotedWord(error: seq<byte>, packet: seq<byte>, isIpv6: bool, n: nat, k: nat)
    requires Quotes(error, packet, isIpv6, n) && k + 4 <= n
    ensures Le32(error, ETH_LEN + NetLen(isIpv6) + ICMP_LEN + k) == Le32(packet, ETH_LEN + k)
  {
    hide Le32, IsError;
    var quoted := ETH_LEN + NetLen(isIpv6) + ICMP_LEN;
    SubSlice(error, quoted, |error|, k, k + 4);
    SubSlice(packet, ETH_LEN, ETH_LEN + n, k, k + 4);
    assert error[quoted..|error|] == error[quoted..];
    Le32Same(error, quoted + k, packet, ETH_LEN + k);
  }

  lemma QuotedAddress(error: seq<byte>, packet: seq<byte>, isIpv6: bool, n: nat, k: nat)
    requires Quotes(error, packet, isIpv6, n) && k + (if isIpv6 then 16 else 4) <= n
    ensures Address(error, ETH_LEN + NetLen(isIpv6) + ICMP_LEN + k, isIpv6) == Address(packet, ETH_LEN + k, isIpv6)
  {
    hide Le32, IsError;
    QuotedWord(error, packet, isIpv6, n, k);
    if isIpv6 {
      QuotedWord(error, packet, isIpv6, n, k + 4);
      QuotedWord(error, packet, isIpv6, n, k + 8);
      QuotedWord(error, packet, isIpv6, n, k + 12);
    }
  }

  /** The network part: addresses come out exchanged. */
  lemma QuotedNetwork(error: seq<byte>, packet: seq<byte>, isIpv6: bool, n: nat)
    requires Quotes(error, packet, isIpv6, n)
    requires ParseNetwork(packet, isIpv6).Network? && !ParseNetwork(packet, isIpv6).icmp
    ensures ParseNetwork(error, isIpv6) ==
            if n < NetLen(isIpv6) then Stop(Drop)
            else var p := ParseNetwork(packet, isIpv6); Network(p.dst, p.src, p.proto, true)
  {
    hide Address, Fragmented;
    if n >= NetLen(isIpv6) {
      QuotedByte(error, packet, isIpv6, n, 0);
      QuotedByte(error, packet, isIpv6, n, ProtocolAt(isIpv6));
      QuotedAddress(error, packet, isIpv6, n, SourceAt(isIpv6));
      QuotedAddress(error, packet, isIpv6, n, DestAt(isIpv6));
    }
  }

  /** An ICMP error that quotes a packet has that packet's flow in reverse, and counts as a
      SYN exactly when the quoted packet does; provided that it quotes the whole transport
      header, and is dropped otherwise. */
  lemma IcmpErrorIsReversed(error: seq<byte>, packet: seq<byte>, isIpv6: bool, n: nat)
    requires Quotes(error, packet, isIpv6, n)
    requires Parse(packet, isIpv6).Parsed? && !ParseNetwork(packet, isIpv6).icmp
    ensures var h := Parse(packet, isIpv6).headers;
            Parse(error, isIpv6) ==
            if n < NetLen(isIpv6) + TransportLen(h.flow.proto) then Stopped(Drop)
            else Parsed(Headers(Reverse(h.flow), h.syn))
  {
    hide ParseNetwork;
    var p := ParseNetwork(packet, isIpv6);
    QuotedNetwork(error, packet, isIpv6, n);
    if n >= NetLen(isIpv6) + TransportLen(p.proto) {
      var shift := NetLen(isIpv6) + ICMP_LEN;
      forall j | ETH_LEN + NetLen(isIpv6) <= j < ETH_LEN + n
        ensures packet[j] == error[j + shift]
      {
        QuotedByte(error, packet, isIpv6, n, j - ETH_LEN);
      }
    }
  }

  /** So an error quoting a reply of a flow belongs to the same connection-table key as the
      flow's own packets. */
  lemma IcmpErrorFollowsFlow(error: seq<byte>, reply: seq<byte>, isIpv6: bool, n: nat, own: Headers,
                             vips: Vips, key: Flow, flags: Flags)
    requires Quotes(error, reply, isIpv6, n)
    requires Parse(reply, isIpv6).Parsed? && !ParseNetwork(reply, isIpv6).icmp
    requires Parse(reply, isIpv6).headers.flow == Reverse(own.flow)
    requires n >= NetLen(isIpv6) + TransportLen(own.flow.proto)
    ensures Parse(error, isIpv6).Parsed?
    ensures BelongsTo(vips, Parse(error, isIpv6).headers, key, flags) <==> BelongsTo(vips, own, key, flags)
    ensures SynSet(Parse(error, isIpv6).headers) <==> SynSet(Parse(reply, isIpv6).headers)
  {
    IcmpErrorIsReversed(error, reply, isIpv6, n);
    assert Reverse(Reverse(own.flow)) == own.flow;
  }
}
