/** The balancer's decisions as a table: for every packet and every state, which rule applies
    and exactly what the state is afterwards, in terms of the packet's own fields. */
module RoutingCases {
  import opened Bytes
  import opened Options
  import opened FlowRouting
  import ConnectionRate

  /** The virtual IP for exactly this port wins over the one for all ports. */
  predicate Governs(vips: Vips, f: Flow, flags: Flags) {
    && (f.proto == 6 || f.proto == 17)
    && if Vip(f.dst, f.dstPort, f.proto) in vips then vips[Vip(f.dst, f.dstPort, f.proto)] == flags
       else Vip(f.dst, 0, f.proto) in vips && vips[Vip(f.dst, 0, f.proto)] == flags
  }

  /** What identifies a flow in the connection table. */
  function TableKey(vips: Vips, f: Flow, flags: Flags): (key: Flow)
  {
    Flow(f.src, f.dst, if flags.hashNoSrcPort then 0 else f.srcPort,
         if Vip(f.dst, f.dstPort, f.proto) in vips || flags.hashDportOnly then f.dstPort else 0, f.proto)
  }

  /** Time passed, as 64-bit unsigned subtraction has it. */
  function Elapsed(since: u64, now: u64): (d: nat)
  {
    (now - since) % 0x1_0000_0000_0000_0000
  }

  lemma ElapsedIsWrapped(since: u64, now: u64)
    ensures ConnectionRate.Wrap(now - since) == Elapsed(since, now)
  {
    if now < since {
      assert (now - since + 0x1_0000_0000_0000_0000) % 0x1_0000_0000_0000_0000 == now - since + 0x1_0000_0000_0000_0000;
    }
  }

  /** The entry has not been left alone for too long; only UDP entries can be. */
  predicate Recent(s: State, key: Flow, now: u64)
    requires key in s.lru
  {
    key.proto == 17 ==> Elapsed(s.lru[key].atime, now) <= 30_000_000_000
  }

  predicate MayLookUp(h: Headers, flags: Flags) {
    !(h.flow.proto == 6 && h.syn) && !flags.lruBypass
  }

  predicate FoundInTable(s: State, h: Headers, flags: Flags, key: Flow, now: u64) {
    MayLookUp(h, flags) && key in s.lru && Recent(s, key, now) && s.lru[key].pos < 256
  }

  predicate RoutedByQuic(h: Headers, flags: Flags, e: Env) {
    h.flow.proto == 17 && flags.quicVip && 0 < e.quicIndex < 256
  }

  /** Each packet sent on is counted for virtual IP 7 and for its real. */
  function SentOn(s: State, dst: nat, e: Env): (r: (Verdict, State))
    requires s.Valid() && dst < 256
  {
    if e.encapOk
    then (Sent(dst), s.(stats := Bump(s.stats, 7, 1, e.bytes), realsStats := Bump(s.realsStats, dst, 1, e.bytes)))
    else (Dropped, s)
  }

  // ----- packets that are not routed --------------------------------------------------------------

  lemma FlagsAreGoverning(vips: Vips, f: Flow, flags: Flags)
    requires f.proto == 6 || f.proto == 17
    ensures FlagsFor(vips, f.dst, f.dstPort, f.proto) == Some(flags) <==> Governs(vips, f, flags)
  {
  }

  /** Traffic of other protocols and to other addresses is passed, and nothing is changed. */
  lemma OtherTraffic(vips: Vips, s: State, h: Headers, e: Env)
    requires s.Valid() && e.Valid()
    ensures (forall flags :: !Governs(vips, h.flow, flags)) <==> Process(vips, s, h, e).0 == Passed
    ensures Process(vips, s, h, e).0 == Passed ==> Process(vips, s, h, e).1 == s
  {
    hide TableRoute, QuicRoute, Bump;
    var f := h.flow;
    if f.proto == 6 || f.proto == 17 {
      var found := FlagsFor(vips, f.dst, f.dstPort, f.proto);
      if found.Some? {
        assert Governs(vips, f, found.value);
      } else {
        forall flags
          ensures !Governs(vips, f, flags)
        {
          FlagsAreGoverning(vips, f, flags);
        }
      }
    }
  }

  lemma TooBig(vips: Vips, s: State, h: Headers, e: Env, flags: Flags)
    requires s.Valid() && e.Valid() && Governs(vips, h.flow, flags) && e.tooBig
    ensures Process(vips, s, h, e) == (Dropped, s)
  {
    hide TableRoute, QuicRoute;
  }

  // ----- by connection id ---------------------------------------------------------------------------

  /** A QUIC packet whose connection id names a server goes there, or is dropped if that real
      is gone; the connection table is not involved. */
  lemma QuicCase(vips: Vips, s: State, h: Headers, e: Env, flags: Flags)
    requires s.Valid() && e.Valid() && Governs(vips, h.flow, flags) && !e.tooBig && RoutedByQuic(h, flags, e)
    ensures var s1 := s.(stats := Bump(Bump(s.stats, 32, 1, 0), 40, 1, 0));
            var s2 := if e.quicReal == 0 then s1.(stats := Bump(s1.stats, 41, 0, 1)) else s1;
            Process(vips, s, h, e) ==
            if e.quicReal >= 256 then (Dropped, s2.(stats := Bump(s2.stats, 41, 1, 0)))
            else SentOn(s2.(stats := Bump(s2.stats, 39, 0, 1)), e.quicReal, e)
  {
    hide TableRoute, Bump;
    FlagsAreGoverning(vips, h.flow, flags);
  }

  // ----- by the connection table -------------------------------------------------------------------

  /** What has been counted when a packet gets as far as the table. */
  function Arrived(stats: seq<Stat>, h: Headers, flags: Flags, e: Env): (r: seq<Stat>)
    requires |stats| == STATS_MAP_SIZE
    ensures |r| == STATS_MAP_SIZE
  {
    var s1 := Bump(stats, 32, 1, 0);
    if !(h.flow.proto == 17 && flags.quicVip) then s1
    else
      var s2 := if e.quicIndex <= 0 then s1 else if e.quicIndex > 0xffff then Bump(s1, 40, 0, 1) else Bump(s1, 40, 1, 0);
      Bump(s2, 39, 1, 0)
  }

  /** The packet reaches the table in this state, under this key. */
  lemma ReachesTable(vips: Vips, s: State, h: Headers, e: Env, flags: Flags)
    requires s.Valid() && e.Valid() && Governs(vips, h.flow, flags) && !e.tooBig && !RoutedByQuic(h, flags, e)
    ensures var s1 := s.(stats := Arrived(s.stats, h, flags, e));
            var (dst, s2) := TableRoute(s1, TableKey(vips, h.flow, flags), h.flow.proto == 6 && h.syn, flags, e);
            Process(vips, s, h, e) == if dst.Some? then SentOn(s2, dst.value, e) else (Dropped, s2)
  {
    hide TableRoute, Bump;
    FlagsAreGoverning(vips, h.flow, flags);
  }

  /** A packet whose flow has a recent entry with an existing real goes there; a UDP entry is
      renewed and nothing else about the table changes. */
  lemma TableCase(vips: Vips, s: State, h: Headers, e: Env, flags: Flags)
    requires s.Valid() && e.Valid() && Governs(vips, h.flow, flags) && !e.tooBig && !RoutedByQuic(h, flags, e)
    requires FoundInTable(s, h, flags, TableKey(vips, h.flow, flags), e.now)
    ensures var key := TableKey(vips, h.flow, flags);
            var lru := if key.proto == 17 then s.lru[key := LruEntry(s.lru[key].pos, e.now)] else s.lru;
            Process(vips, s, h, e) == SentOn(s.(stats := Arrived(s.stats, h, flags, e), lru := lru), s.lru[key].pos, e)
  {
    hide Process, Bump, ConnectionRate.Wrap;
    ReachesTable(vips, s, h, e, flags);
    ElapsedIsWrapped(s.lru[TableKey(vips, h.flow, flags)].atime, e.now);
  }

  // ----- by the ring ------------------------------------------------------------------------------------

  /** More than 125000 calls within the current second. */
  predicate Flooded(s: State, now: u64)
    requires s.Valid()
  {
    Elapsed(s.stats[34].v2, now) <= 1_000_000_000 && (s.stats[34].v1 + 1) % 0x1_0000_0000_0000_0000 > 125_000
  }

  /** The limiter's slot after a call. */
  function Ticked(s: State, now: u64): (r: Stat)
    requires s.Valid()
  {
    if Elapsed(s.stats[34].v2, now) > 1_000_000_000 then Stat(1, now)
    else Stat((s.stats[34].v1 + 1) % 0x1_0000_0000_0000_0000, s.stats[34].v2)
  }

  /** The table before a real is chosen: a UDP entry is renewed even if its real is gone. */
  function LookedUp(s: State, h: Headers, flags: Flags, key: Flow, now: u64): (lru: map<Flow, LruEntry>)
  {
    if MayLookUp(h, flags) && key in s.lru && Recent(s, key, now) && key.proto == 17
    then s.lru[key := LruEntry(s.lru[key].pos, now)] else s.lru
  }

  /** Any other packet goes where slot hash mod 127 of the seventh ring points, if that real
      exists; an entry is made for it unless the virtual IP bypasses the table or there is a
      flood, under the flow's key or, where only the destination port counts, the port's. */
  lemma RingCase(vips: Vips, s: State, h: Headers, e: Env, flags: Flags)
    requires s.Valid() && e.Valid() && Governs(vips, h.flow, flags) && !e.tooBig && !RoutedByQuic(h, flags, e)
    requires !FoundInTable(s, h, flags, TableKey(vips, h.flow, flags), e.now)
    ensures var key, chosen := TableKey(vips, h.flow, flags), e.rings[889 + e.hash % 127];
            var at := if flags.hashDportOnly then Flow(0, key.dst, key.dstPort, key.dstPort, key.proto) else key;
            var before := LookedUp(s, h, flags, key, e.now);
            var s1 := Arrived(s.stats, h, flags, e);
            var s2 := if h.flow.proto != 6 then s1 else if h.syn then Bump(s1, 33, 1, 0) else Bump(s1, 33, 0, 1);
            var s3 := s2[34 := Ticked(s, e.now)];
            Process(vips, s, h, e) ==
            if chosen >= 256 then (Dropped, s.(lru := before, stats := s3))
            else
              SentOn(s.(stats := Bump(s3, 32, 0, 1),
                        lru := if flags.lruBypass || Flooded(s, e.now) then before
                               else before[at := LruEntry(chosen, if key.proto == 17 then e.now else 0)]), chosen, e)
  {
    hide Process, ConnectionRate.Wrap, Arrived, TableRoute, Elapsed;
    var key := TableKey(vips, h.flow, flags);
    var syn := h.flow.proto == 6 && h.syn;
    ReachesTable(vips, s, h, e, flags);
    var t := s.(stats := Arrived(s.stats, h, flags, e));
    ArrivedKeepsRate(s.stats, h, flags, e);
    Misses(t, s, h, key, syn, flags, e);
  }

  lemma ArrivedKeepsRate(stats: seq<Stat>, h: Headers, flags: Flags, e: Env)
    requires |stats| == STATS_MAP_SIZE
    ensures Arrived(stats, h, flags, e)[34] == stats[34]
  {
    hide ConnectionRate.Wrap;
  }

  /** What the table has no answer for. */
  lemma Misses(t: State, s: State, h: Headers, key: Flow, syn: bool, flags: Flags, e: Env)
    requires s.Valid() && t.Valid() && e.Valid() && t.lru == s.lru && t.stats[34] == s.stats[34]
    requires key.proto == h.flow.proto && syn == (h.flow.proto == 6 && h.syn)
    requires !FoundInTable(s, h, flags, key, e.now)
    ensures var chosen := e.rings[889 + e.hash % 127];
            var at := if flags.hashDportOnly then Flow(0, key.dst, key.dstPort, key.dstPort, key.proto) else key;
            var before := LookedUp(s, h, flags, key, e.now);
            var s2 := if key.proto != 6 then t.stats else if h.syn then Bump(t.stats, 33, 1, 0) else Bump(t.stats, 33, 0, 1);
            var s3 := s2[34 := Ticked(s, e.now)];
            TableRoute(t, key, syn, flags, e) ==
            if chosen >= 256 then (None, t.(lru := before, stats := s3))
            else (Some(chosen), t.(stats := Bump(s3, 32, 0, 1),
                                 lru := if flags.lruBypass || Flooded(s, e.now) then before
                                        else before[at := LruEntry(chosen, if key.proto == 17 then e.now else 0)]))
  {
    hide Elapsed, ConnectionRate.Wrap, Bump;
    var s2 := if key.proto != 6 then t.stats else if h.syn then Bump(t.stats, 33, 1, 0) else Bump(t.stats, 33, 0, 1);
    BumpElsewhere(t.stats);
    assert s2[34] == s.stats[34];
    if key in s.lru { ElapsedIsWrapped(s.lru[key].atime, e.now); }
    ElapsedIsWrapped(s.stats[34].v2, e.now);
    NextCount(s.stats[34].v1);
  }

  lemma BumpElsewhere(stats: seq<Stat>)
    requires |stats| == STATS_MAP_SIZE
    ensures forall d1: nat, d2: nat :: Bump(stats, 33, d1, d2)[34] == stats[34]
  {
  }

  lemma NextCount(v: u64)
    ensures ConnectionRate.Wrap(v + 1) == (v + 1) % 0x1_0000_0000_0000_0000
  {
  }
}
