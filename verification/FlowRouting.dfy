/** The load balancer's packet path after the headers are parsed: virtual IP lookup,
    connection table, consistent-hash ring, and the statistics.  The contents of the
    ring, the hash, the clock and whether encapsulation succeeds come from outside and
    may be different for every packet; the virtual IPs are fixed. */
module FlowRouting {
  import opened Bytes
  import opened Options
  import ConnectionRate

  const RING_SIZE := 127
  const MAX_VIPS := 32
  const MAX_REALS := 256
  const CH_RINGS_SIZE := 4064
  const STATS_MAP_SIZE := 64
  const LRU_UDP_TIMEOUT := 30000000000
  const LRU_CNTRS := 0
  const LRU_MISS_CNTR := 1
  const NEW_CONN_RATE_CNTR := 2
  const QUIC_ROUTE_STATS := 7
  const QUIC_CID_VERSION_STATS := 8
  const QUIC_CID_DROP_STATS := 9
  const QUIC_CONNID_VERSION_V1_MAX_VAL := 0xFFFF
  /** Every virtual IP that is found is given this number. */
  const VIP_NUM := 7
  const TCP := 6
  const UDP := 17

  // ----- from headers to a flow ---------------------------------------------------------------

  datatype Flow = Flow(src: nat, dst: nat, srcPort: u16, dstPort: u16, proto: byte)

  /** What the parser makes of a packet: its flow and whether it opens a connection. */
  datatype Headers = Headers(flow: Flow, syn: bool)

  function Reverse(f: Flow): (r: Flow)
  {
    Flow(f.dst, f.src, f.dstPort, f.srcPort, f.proto)
  }

  predicate SynSet(h: Headers) {
    h.flow.proto == TCP && h.syn
  }

  datatype Flags = Flags(hashNoSrcPort: bool, lruBypass: bool, quicVip: bool, hashDportOnly: bool)

  datatype Vip = Vip(addr: nat, port: u16, proto: byte)

  type Vips = map<Vip, Flags>

  /** The flags of the virtual IP an address, port and protocol belong to: an exact match,
      or else the one for all ports. */
  function FlagsFor(vips: Vips, addr: nat, port: u16, proto: byte): (r: Option<Flags>)
  {
    if Vip(addr, port, proto) in vips then Some(vips[Vip(addr, port, proto)])
    else if Vip(addr, 0, proto) in vips then Some(vips[Vip(addr, 0, proto)])
    else None
  }

  /** The flow as the virtual IP wants it identified. */
  function Normalised(vips: Vips, f: Flow, flags: Flags): (r: Flow)
  {
    if Vip(f.dst, f.dstPort, f.proto) !in vips && !flags.hashDportOnly then f.(dstPort := 0) else f
  }

  /** The connection-table key of a packet. */
  function KeyOf(f: Flow, flags: Flags): (r: Flow)
  {
    if flags.hashNoSrcPort then f.(srcPort := 0) else f
  }

  // ----- state ---------------------------------------------------------------------------------------

  datatype LruEntry = LruEntry(pos: u32, atime: u64)
  datatype Stat = Stat(v1: u64, v2: u64)

  datatype State = State(lru: map<Flow, LruEntry>, stats: seq<Stat>, realsStats: seq<Stat>) {
    predicate Valid() {
      |stats| == STATS_MAP_SIZE && |realsStats| == MAX_REALS
    }
  }

  /** What the rest of the system contributes to handling one packet. */
  datatype Env = Env(now: u64, hash: nat, rings: seq<u32>, quicIndex: int, quicReal: u32,
                     tooBig: bool, bytes: u16, encapOk: bool) {
    predicate Valid() {
      |rings| == CH_RINGS_SIZE
    }
  }

  datatype Verdict = Passed | Dropped | Sent(dst: nat)

  function Bump(s: seq<Stat>, i: nat, d1: nat, d2: nat): (r: seq<Stat>)
    requires i < |s|
    ensures |r| == |s|
  {
    s[i := Stat(ConnectionRate.Wrap(s[i].v1 + d1), ConnectionRate.Wrap(s[i].v2 + d2))]
  }

  /** The real that the ring names for a packet. */
  function RingReal(e: Env): (pos: nat)
    requires e.Valid()
  {
    e.rings[RING_SIZE * VIP_NUM + e.hash % RING_SIZE]
  }

  // ----- the pieces ---------------------------------------------------------------------------------------

  /** Looking a flow up in the connection table; a stale UDP entry does not count. */
  function Lookup(lru: map<Flow, LruEntry>, key: Flow, now: u64): (r: (Option<nat>, map<Flow, LruEntry>))
  {
    if key !in lru then (None, lru)
    else if key.proto == UDP && ConnectionRate.Wrap(now - lru[key].atime) > LRU_UDP_TIMEOUT then (None, lru)
    else
      var lru' := if key.proto == UDP then lru[key := lru[key].(atime := now)] else lru;
      (if lru[key].pos < MAX_REALS then Some(lru[key].pos) else None, lru')
  }

  /** The key under which a new connection is entered. */
  function InsertKey(key: Flow, flags: Flags): (r: Flow)
  {
    if flags.hashDportOnly then key.(srcPort := key.dstPort, src := 0) else key
  }

  function RateOf(s: State): (r: ConnectionRate.Rate)
    requires s.Valid()
  {
    ConnectionRate.Rate(s.stats[MAX_VIPS + NEW_CONN_RATE_CNTR].v1, s.stats[MAX_VIPS + NEW_CONN_RATE_CNTR].v2)
  }

  /** Choosing a real for a new connection from the ring, and entering it. */
  function NewDestination(s: State, key: Flow, flags: Flags, e: Env): (r: (Option<nat>, State))
    requires s.Valid() && e.Valid()
    ensures r.1.Valid()
  {
    var flood := ConnectionRate.Flood(RateOf(s), e.now, ConnectionRate.MAX_CONN_RATE);
    var rate := ConnectionRate.Next(RateOf(s), e.now);
    var s1 := s.(stats := s.stats[MAX_VIPS + NEW_CONN_RATE_CNTR := Stat(rate.v1, rate.v2)]);
    var pos := RingReal(e);
    if pos >= MAX_REALS then (None, s1)
    else if flags.lruBypass || flood then (Some(pos), s1)
    else (Some(pos), s1.(lru := s1.lru[InsertKey(key, flags) := LruEntry(pos, if key.proto == UDP then e.now else 0)]))
  }

  /** QUIC routing by connection id: a verdict to drop, or a real, or neither. */
  function QuicRoute(stats: seq<Stat>, e: Env): (r: (bool, Option<nat>, seq<Stat>))
    requires |stats| == STATS_MAP_SIZE
    ensures |r.2| == STATS_MAP_SIZE
    ensures r.1.Some? ==> r.1.value < MAX_REALS
  {
    if e.quicIndex <= 0 || e.quicIndex >= MAX_REALS then
      // no usable connection id, or none mapped: fall back to the ring
      var s1 := if e.quicIndex <= 0 then stats else CidVersion(stats, e.quicIndex);
      (false, None, Bump(s1, MAX_VIPS + QUIC_ROUTE_STATS, 1, 0))
    else
      var s1 := CidVersion(stats, e.quicIndex);
      var s2 := if e.quicReal == 0 then Bump(s1, MAX_VIPS + QUIC_CID_DROP_STATS, 0, 1) else s1;
      if e.quicReal >= MAX_REALS then (true, None, Bump(s2, MAX_VIPS + QUIC_CID_DROP_STATS, 1, 0))
      else (false, Some(e.quicReal), Bump(s2, MAX_VIPS + QUIC_ROUTE_STATS, 0, 1))
  }

  function CidVersion(stats: seq<Stat>, index: int): (r: seq<Stat>)
    requires |stats| == STATS_MAP_SIZE
    ensures |r| == STATS_MAP_SIZE
  {
    if index > QUIC_CONNID_VERSION_V1_MAX_VAL then Bump(stats, MAX_VIPS + QUIC_CID_VERSION_STATS, 0, 1)
    else Bump(stats, MAX_VIPS + QUIC_CID_VERSION_STATS, 1, 0)
  }

  /** The connection table, and the ring if that has no answer. */
  function TableRoute(s: State, key: Flow, syn: bool, flags: Flags, e: Env): (r: (Option<nat>, State))
    requires s.Valid() && e.Valid()
    ensures r.1.Valid()
    ensures r.0.Some? ==> r.0.value < MAX_REALS
  {
    var (hit, lru') := if !syn && !flags.lruBypass then Lookup(s.lru, key, e.now) else (None, s.lru);
    if hit.Some? then (hit, s.(lru := lru'))
    else
      var s1 := s.(lru := lru',
                   stats := if key.proto != TCP then s.stats
                            else Bump(s.stats, MAX_VIPS + LRU_MISS_CNTR, if syn then 1 else 0, if syn then 0 else 1));
      var (dst, s2) := NewDestination(s1, key, flags, e);
      (dst, if dst.Some? then s2.(stats := Bump(s2.stats, MAX_VIPS + LRU_CNTRS, 0, 1)) else s2)
  }

  /** Counting a packet that is sent on: once for its virtual IP and once for its real. */
  function Account(s: State, dst: nat, bytes: u16): (r: State)
    requires s.Valid() && dst < MAX_REALS
    ensures r.Valid()
  {
    s.(stats := Bump(s.stats, VIP_NUM, 1, bytes), realsStats := Bump(s.realsStats, dst, 1, bytes))
  }

  function Finish(s: State, dst: Option<nat>, e: Env): (r: (Verdict, State))
    requires s.Valid() && (dst.Some? ==> dst.value < MAX_REALS)
    ensures r.1.Valid()
  {
    if dst.None? || !e.encapOk then (Dropped, s) else (Sent(dst.value), Account(s, dst.value, e.bytes))
  }

  /** The whole path of one packet. */
  function Process(vips: Vips, s: State, h: Headers, e: Env): (r: (Verdict, State))
    requires s.Valid() && e.Valid()
    ensures r.1.Valid()
  {
    var f := h.flow;
    if f.proto != TCP && f.proto != UDP then (Passed, s)
    else
      match FlagsFor(vips, f.dst, f.dstPort, f.proto)
      case None => (Passed, s)
      case Some(flags) =>
        if e.tooBig then (Dropped, s)
        else
          var s1 := s.(stats := Bump(s.stats, MAX_VIPS + LRU_CNTRS, 1, 0));
          var (drop, quic, stats2) := if f.proto == UDP && flags.quicVip then QuicRoute(s1.stats, e) else (false, None, s1.stats);
          var s2 := s1.(stats := stats2);
          if drop then (Dropped, s2)
          else if quic.Some? then Finish(s2, quic, e)
          else
            var (dst, s3) := TableRoute(s2, KeyOf(Normalised(vips, f, flags), flags), SynSet(h), flags, e);
            Finish(s3, dst, e)
  }

  // ----- the same, as the program does it ------------------------------------------------------------------

  class Balancer {
    const vips: Vips
    var lru: map<Flow, LruEntry>
    var stats: seq<Stat>
    var realsStats: seq<Stat>

    ghost function Maps(): (s: State)
      reads this
    {
      State(lru, stats, realsStats)
    }

    constructor (vips: Vips)
      ensures this.vips == vips && Maps().Valid() && lru == map[]
      ensures forall i :: 0 <= i < STATS_MAP_SIZE ==> stats[i] == Stat(0, 0)
      ensures forall i :: 0 <= i < MAX_REALS ==> realsStats[i] == Stat(0, 0)
    {
      this.vips, lru := vips, map[];
      stats := seq(STATS_MAP_SIZE, i => Stat(0, 0));
      realsStats := seq(MAX_REALS, i => Stat(0, 0));
    }

    method IsUnderFlood(now: u64) returns (flood: bool)
      requires Maps().Valid()
      modifies this`stats
      ensures var rate := ConnectionRate.Next(RateOf(old(Maps())), now);
              stats == old(stats)[MAX_VIPS + NEW_CONN_RATE_CNTR := Stat(rate.v1, rate.v2)]
      ensures flood == ConnectionRate.Flood(RateOf(old(Maps())), now, ConnectionRate.MAX_CONN_RATE)
    {
      var i := MAX_VIPS + NEW_CONN_RATE_CNTR;
      if ConnectionRate.Wrap(now - stats[i].v2) > ConnectionRate.ONE_SEC {
        stats := stats[i := Stat(1, now)];
      } else {
        stats := stats[i := Stat(ConnectionRate.Wrap(stats[i].v1 + 1), stats[i].v2)];
        if stats[i].v1 > ConnectionRate.MAX_CONN_RATE {
          return true;
        }
      }
      return false;
    }

    method GetPacketDst(flow: Flow, flags: Flags, e: Env) returns (dst: Option<nat>)
      requires Maps().Valid() && e.Valid()
      modifies this`stats, this`lru
      ensures (dst, Maps()) == NewDestination(old(Maps()), flow, flags, e)
    {
      var underFlood := IsUnderFlood(e.now);
      var key := flow;
      if flags.hashDportOnly {
        key := key.(srcPort := key.dstPort, src := 0);
      }
      var pos := e.rings[RING_SIZE * VIP_NUM + e.hash % RING_SIZE];
      if pos >= MAX_REALS {
        return None;
      }
      if !flags.lruBypass && !underFlood {
        lru := lru[key := LruEntry(pos, if key.proto == UDP then e.now else 0)];
      }
      return Some(pos);
    }

    method ConnectionTableLookup(flow: Flow, now: u64) returns (dst: Option<nat>)
      modifies this`lru
      ensures (dst, lru) == Lookup(old(lru), flow, now)
    {
      if flow !in lru {
        return None;
      }
      var entry := lru[flow];
      if flow.proto == UDP {
        if ConnectionRate.Wrap(now - entry.atime) > LRU_UDP_TIMEOUT {
          return None;
        }
        lru := lru[flow := entry.(atime := now)];
      }
      if entry.pos >= MAX_REALS {
        return None;
      }
      return Some(entry.pos);
    }

    method Count(i: nat, d1: nat, d2: nat)
      requires Maps().Valid() && i < STATS_MAP_SIZE
      modifies this`stats
      ensures stats == Bump(old(stats), i, d1, d2)
    {
      stats := stats[i := Stat(ConnectionRate.Wrap(stats[i].v1 + d1), ConnectionRate.Wrap(stats[i].v2 + d2))];
    }

    method Route(flow: Flow, syn: bool, flags: Flags, e: Env) returns (dst: Option<nat>)
      requires Maps().Valid() && e.Valid()
      modifies this`stats, this`lru
      ensures (dst, Maps()) == TableRoute(old(Maps()), KeyOf(flow, flags), syn, flags, e)
    {
      var key := flow;
      if flags.hashNoSrcPort {
        key := key.(srcPort := 0);
      }
      dst := None;
      if !syn && !flags.lruBypass {
        dst := ConnectionTableLookup(key, e.now);
      }
      if dst.None? {
        if key.proto == TCP {
          if syn {
            Count(MAX_VIPS + LRU_MISS_CNTR, 1, 0);
          } else {
            Count(MAX_VIPS + LRU_MISS_CNTR, 0, 1);
          }
        }
        dst := GetPacketDst(key, flags, e);
        if dst.Some? {
          Count(MAX_VIPS + LRU_CNTRS, 0, 1);
        }
      }
    }

    method ProcessPacket(h: Headers, e: Env) returns (verdict: Verdict)
      requires Maps().Valid() && e.Valid()
      modifies this
      ensures (verdict, Maps()) == Process(vips, old(Maps()), h, e)
    {
      hide TableRoute, QuicRoute, Bump;
      var flow := h.flow;
      if flow.proto != TCP && flow.proto != UDP {
        return Passed;
      }
      var flags;
      if Vip(flow.dst, flow.dstPort, flow.proto) in vips {
        flags := vips[Vip(flow.dst, flow.dstPort, flow.proto)];
      } else if Vip(flow.dst, 0, flow.proto) in vips {
        flags := vips[Vip(flow.dst, 0, flow.proto)];
        if !flags.hashDportOnly {
          flow := flow.(dstPort := 0);
        }
      } else {
        return Passed;
      }
      if e.tooBig {
        return Dropped;
      }
      Count(MAX_VIPS + LRU_CNTRS, 1, 0);
      var dst: Option<nat> := None;
      if flow.proto == UDP && flags.quicVip {
        var drop, quic := Quic(e);
        if drop {
          return Dropped;
        }
        dst := quic;
      }
      if dst.None? {
        dst := Route(flow, SynSet(h), flags, e);
      }
      if dst.None? || !e.encapOk {
        return Dropped;
      }
      Count(VIP_NUM, 1, e.bytes);
      realsStats := Bump(realsStats, dst.value, 1, e.bytes);
      return Sent(dst.value);
    }

    method Quic(e: Env) returns (drop: bool, dst: Option<nat>)
      requires Maps().Valid()
      modifies this`stats
      ensures (drop, dst, stats) == QuicRoute(old(stats), e) && Maps().Valid()
    {
      if e.quicIndex > 0 {
        stats := CidVersion(stats, e.quicIndex);
        if e.quicIndex < MAX_REALS {
          if e.quicReal == 0 {
            Count(MAX_VIPS + QUIC_CID_DROP_STATS, 0, 1);
          }
          if e.quicReal >= MAX_REALS {
            Count(MAX_VIPS + QUIC_CID_DROP_STATS, 1, 0);
            return true, None;
          }
          Count(MAX_VIPS + QUIC_ROUTE_STATS, 0, 1);
          return false, Some(e.quicReal);
        }
        Count(MAX_VIPS + QUIC_ROUTE_STATS, 1, 0);
      } else {
        Count(MAX_VIPS + QUIC_ROUTE_STATS, 1, 0);
      }
      return false, None;
    }
  }
}
