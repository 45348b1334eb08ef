/** What the load balancer promises over whole traces of packets: flows stick to their
    real, and the statistics agree. */
module FlowProperties {
  import opened Bytes
  import opened Options
  import opened FlowRouting
  import ConnectionRate

  datatype Event = Event(headers: Headers, env: Env)

  predicate ValidTrace(events: seq<Event>) {
    forall i :: 0 <= i < |events| ==> events[i].env.Valid()
  }

  function StateAfter(vips: Vips, s: State, events: seq<Event>): (r: State)
    requires s.Valid() && ValidTrace(events)
    ensures r.Valid()
    decreases |events|
  {
    if events == [] then s
    else StateAfter(vips, Process(vips, s, events[0].headers, events[0].env).1, events[1..])
  }

  lemma {:induction false} StateAfterSnoc(vips: Vips, s: State, events: seq<Event>, n: nat)
    requires s.Valid() && ValidTrace(events) && n < |events|
    ensures StateAfter(vips, s, events[..n + 1]) ==
            Process(vips, StateAfter(vips, s, events[..n]), events[n].headers, events[n].env).1
    decreases n
  {
    hide Process;
    assert events[..n + 1][0] == events[0];
    if n == 0 {
      assert events[..1][1..] == [] && events[..0] == [];
    } else {
      var s' := Process(vips, s, events[0].headers, events[0].env).1;
      StateAfterSnoc(vips, s', events[1..], n - 1);
      assert events[..n + 1][1..] == events[1..][..n] && events[..n][1..] == events[1..][..n - 1];
    }
  }

  // ----- which packets belong to a connection-table key ---------------------------------------------

  /** The key and flags of a packet for a virtual IP. */
  predicate BelongsTo(vips: Vips, h: Headers, key: Flow, flags: Flags) {
    var f := h.flow;
    && (f.proto == TCP || f.proto == UDP)
    && FlagsFor(vips, f.dst, f.dstPort, f.proto) == Some(flags)
    && KeyOf(Normalised(vips, f, flags), flags) == key
  }

  /** The virtual IP's flags can be read off the key. */
  lemma FlagsFromKey(vips: Vips, h: Headers, key: Flow, flags: Flags)
    requires BelongsTo(vips, h, key, flags)
    ensures FlagsFor(vips, key.dst, key.dstPort, key.proto) == Some(flags)
    ensures FlagsFor(vips, InsertKey(key, flags).dst, InsertKey(key, flags).dstPort, key.proto) == Some(flags)
  {
  }

  /** The packet would make its entry under `key`; its own key may be a different one. */
  predicate EntersUnder(vips: Vips, h: Headers, key: Flow, flags: Flags) {
    var f := h.flow;
    && (f.proto == TCP || f.proto == UDP)
    && FlagsFor(vips, f.dst, f.dstPort, f.proto) == Some(flags)
    && InsertKey(KeyOf(Normalised(vips, f, flags), flags), flags) == key
  }

  /** The form in which flows of a destination-port-only virtual IP are entered. */
  predicate PortOnlyForm(key: Flow) {
    key.src == 0 && key.srcPort == key.dstPort
  }

  /** Flows that can stick: the connection table is used, and the flow is looked up under
      the key it is entered under. */
  predicate Sticky(key: Flow, flags: Flags) {
    !flags.lruBypass && !flags.quicVip && (flags.hashDportOnly ==> PortOnlyForm(key))
  }

  /** `key` is entered for `dst`, last used (if UDP) at time `used`. */
  predicate Bound(s: State, key: Flow, dst: nat, used: u64) {
    && key in s.lru && s.lru[key].pos == dst < MAX_REALS
    && (key.proto == UDP ==> s.lru[key].atime == used)
  }

  // ----- one packet ------------------------------------------------------------------------------------

  /** A packet of any other key leaves the entry alone, unless it is entered there itself. */
  lemma OtherPacketKeeps(vips: Vips, s: State, h: Headers, e: Env, key: Flow, flags: Flags, dst: nat, used: u64)
    requires s.Valid() && e.Valid() && Bound(s, key, dst, used)
    requires FlagsFor(vips, key.dst, key.dstPort, key.proto) == Some(flags) && Sticky(key, flags)
    requires !BelongsTo(vips, h, key, flags) && !EntersUnder(vips, h, key, flags)
    ensures Bound(Process(vips, s, h, e).1, key, dst, used)
  {
    var f := h.flow;
    var found := FlagsFor(vips, f.dst, f.dstPort, f.proto);
    if (f.proto == TCP || f.proto == UDP) && found.Some? {
      var other := KeyOf(Normalised(vips, f, found.value), found.value);
      FlagsFromKey(vips, h, other, found.value);
      assert other != key && InsertKey(other, found.value) != key;
      TableKeepsOthers(s, other, SynSet(h), found.value, e, key);
      LruOnly(vips, s, h, e, other, found.value);
    }
  }

  /** Routing changes the connection table only at the packet's own key. */
  lemma TableKeepsOthers(s: State, other: Flow, syn: bool, flags: Flags, e: Env, key: Flow)
    requires s.Valid() && e.Valid() && key in s.lru
    requires other != key && InsertKey(other, flags) != key
    ensures key in TableRoute(s, other, syn, flags, e).1.lru
    ensures TableRoute(s, other, syn, flags, e).1.lru[key] == s.lru[key]
  {
  }

  /** What routing does to the connection table does not depend on the other counters. */
  lemma RouteIgnoresCounters(s: State, t: State, key: Flow, syn: bool, flags: Flags, e: Env)
    requires s.Valid() && t.Valid() && e.Valid() && s.lru == t.lru && RateOf(s) == RateOf(t)
    ensures TableRoute(s, key, syn, flags, e).1.lru == TableRoute(t, key, syn, flags, e).1.lru
  {
    hide Lookup, ConnectionRate.Next, ConnectionRate.Flood;
  }

  lemma QuicKeepsRate(stats: seq<Stat>, e: Env)
    requires |stats| == STATS_MAP_SIZE
    ensures QuicRoute(stats, e).2[MAX_VIPS + NEW_CONN_RATE_CNTR] == stats[MAX_VIPS + NEW_CONN_RATE_CNTR]
  {
    hide ConnectionRate.Wrap;
  }

  /** Packets touch the connection table only through TableRoute. */
  lemma LruOnly(vips: Vips, s: State, h: Headers, e: Env, key: Flow, flags: Flags)
    requires s.Valid() && e.Valid() && BelongsTo(vips, h, key, flags)
    ensures Process(vips, s, h, e).1.lru == s.lru ||
            Process(vips, s, h, e).1.lru == TableRoute(s, key, SynSet(h), flags, e).1.lru
  {
    hide TableRoute, QuicRoute, ConnectionRate.Wrap, FlagsFor;
    var f := h.flow;
    var s1 := s.(stats := Bump(s.stats, MAX_VIPS + LRU_CNTRS, 1, 0));
    QuicKeepsRate(s1.stats, e);
    var s2 := s1.(stats := if f.proto == UDP && flags.quicVip then QuicRoute(s1.stats, e).2 else s1.stats);
    RouteIgnoresCounters(s2, s, key, SynSet(h), flags, e);
  }

  /** A non-SYN packet of the key goes to the bound real and renews the entry. */
  lemma BoundPacketFollows(vips: Vips, s: State, h: Headers, e: Env, key: Flow, flags: Flags, dst: nat, used: u64)
    requires s.Valid() && e.Valid() && Bound(s, key, dst, used)
    requires BelongsTo(vips, h, key, flags) && Sticky(key, flags) && !SynSet(h)
    requires key.proto == UDP ==> used <= e.now && e.now - used <= LRU_UDP_TIMEOUT
    ensures var r := Process(vips, s, h, e);
            && (r.0 == Dropped || r.0 == Sent(dst))
            && (!e.tooBig && e.encapOk ==> r.0 == Sent(dst))
            && Bound(r.1, key, dst, if key.proto == UDP && !e.tooBig then e.now else used)
  {
  }

  // ----- whole traces --------------------------------------------------------------------------------------

  /** Packets of the key are not SYN, and for UDP arrive in time; no packet of another flow
      is entered under it, which only destination-port-only virtual IPs could do. */
  predicate KeptAlive(vips: Vips, events: seq<Event>, key: Flow, flags: Flags, used: u64) {
    events == [] ||
    (var e := events[0];
     if BelongsTo(vips, e.headers, key, flags) then
       && !SynSet(e.headers)
       && (key.proto == UDP ==> used <= e.env.now && e.env.now - used <= LRU_UDP_TIMEOUT)
       && KeptAlive(vips, events[1..], key, flags, if key.proto == UDP && !e.env.tooBig then e.env.now else used)
     else !EntersUnder(vips, e.headers, key, flags) && KeptAlive(vips, events[1..], key, flags, used))
  }

  /** Once a flow is in the connection table, every later packet of it that is sent on goes
      to the same real, whatever else happens and however the ring changes meanwhile. */
  lemma {:induction false} FlowsStick(vips: Vips, s: State, events: seq<Event>, key: Flow, flags: Flags, dst: nat, used: u64, i: nat)
    requires s.Valid() && ValidTrace(events) && Bound(s, key, dst, used)
    requires FlagsFor(vips, key.dst, key.dstPort, key.proto) == Some(flags) && Sticky(key, flags)
    requires KeptAlive(vips, events, key, flags, used)
    requires i < |events| && BelongsTo(vips, events[i].headers, key, flags)
    ensures var verdict := Process(vips, StateAfter(vips, s, events[..i]), events[i].headers, events[i].env).0;
            && (verdict == Dropped || verdict == Sent(dst))
            && (!events[i].env.tooBig && events[i].env.encapOk ==> verdict == Sent(dst))
    decreases |events|
  {
    hide Process, BelongsTo, EntersUnder, Bound, FlagsFor;
    var e := events[0];
    var s' := Process(vips, s, e.headers, e.env).1;
    if i == 0 {
      assert events[..0] == [];
      BoundPacketFollows(vips, s, e.headers, e.env, key, flags, dst, used);
    } else {
      assert events[..i][0] == e && events[..i][1..] == events[1..][..i - 1];
      assert events[1..][i - 1] == events[i];
      if BelongsTo(vips, e.headers, key, flags) {
        BoundPacketFollows(vips, s, e.headers, e.env, key, flags, dst, used);
        FlowsStick(vips, s', events[1..], key, flags, dst, if key.proto == UDP && !e.env.tooBig then e.env.now else used, i - 1);
      } else {
        OtherPacketKeeps(vips, s, e.headers, e.env, key, flags, dst, used);
        FlowsStick(vips, s', events[1..], key, flags, dst, used, i - 1);
      }
    }
  }

  /** How a flow gets into the table: a packet that the table has no usable answer for,
      outside a flood, is entered for the real it is sent to.  A SYN always is, so it
      rebinds; so does a packet whose entry is stale or names a real that is gone. */
  lemma RingPacketBinds(vips: Vips, s: State, h: Headers, e: Env, key: Flow, flags: Flags)
    requires s.Valid() && e.Valid() && BelongsTo(vips, h, key, flags) && !flags.lruBypass && !flags.quicVip && !e.tooBig
    requires SynSet(h) || Lookup(s.lru, key, e.now).0.None?
    requires !ConnectionRate.Flood(RateOf(s), e.now, ConnectionRate.MAX_CONN_RATE) && RingReal(e) < MAX_REALS
    ensures Bound(Process(vips, s, h, e).1, InsertKey(key, flags), RingReal(e), e.now)
    ensures e.encapOk ==> Process(vips, s, h, e).0 == Sent(RingReal(e))
  {
    hide ConnectionRate.Next, ConnectionRate.Flood;
  }

  /** Why KeptAlive speaks of other flows: one that shares the entry, as flows to the same port
      of a destination-port-only virtual IP do, moves it to wherever the ring points by then. */
  lemma SharedEntryIsRebound(vips: Vips, s: State, h: Headers, e: Env, key: Flow, flags: Flags)
    requires s.Valid() && e.Valid() && EntersUnder(vips, h, key, flags) && !BelongsTo(vips, h, key, flags)
    requires forall own :: BelongsTo(vips, h, own, flags) ==> own !in s.lru
    requires !flags.lruBypass && !flags.quicVip && !e.tooBig
    requires !ConnectionRate.Flood(RateOf(s), e.now, ConnectionRate.MAX_CONN_RATE) && RingReal(e) < MAX_REALS
    ensures flags.hashDportOnly && PortOnlyForm(key)
    ensures Bound(Process(vips, s, h, e).1, key, RingReal(e), e.now)
  {
    hide ConnectionRate.Flood, Process;
    var own := KeyOf(Normalised(vips, h.flow, flags), flags);
    assert BelongsTo(vips, h, own, flags);
    RingPacketBinds(vips, s, h, e, own, flags);
  }

  // ----- where flows do not stick --------------------------------------------------------------------------------

  /** With destination-port-only hashing the entry is made under a rewritten key: choosing a
      real from the ring enters the flow itself exactly when its key has that form already
      and an entry is made at all. */
  lemma DportOnlyBindsIff(s: State, key: Flow, flags: Flags, e: Env)
    requires s.Valid() && e.Valid() && flags.hashDportOnly && key !in s.lru
    ensures key in NewDestination(s, key, flags, e).1.lru <==>
            && PortOnlyForm(key) && !flags.lruBypass && RingReal(e) < MAX_REALS
            && !ConnectionRate.Flood(RateOf(s), e.now, ConnectionRate.MAX_CONN_RATE)
  {
    hide ConnectionRate.Next, ConnectionRate.Flood;
  }

  /** Routing adds at most one key, the one the packet is entered under. */
  lemma TableAdds(s: State, own: Flow, syn: bool, flags: Flags, e: Env, key: Flow)
    requires s.Valid() && e.Valid() && key !in s.lru && InsertKey(own, flags) != key
    ensures key !in TableRoute(s, own, syn, flags, e).1.lru
  {
  }

  lemma PacketAdds(vips: Vips, s: State, h: Headers, e: Env, key: Flow, flags: Flags)
    requires s.Valid() && e.Valid() && key !in s.lru
    requires FlagsFor(vips, key.dst, key.dstPort, key.proto) == Some(flags) && !EntersUnder(vips, h, key, flags)
    ensures key !in Process(vips, s, h, e).1.lru
  {
    var f := h.flow;
    var found := FlagsFor(vips, f.dst, f.dstPort, f.proto);
    if (f.proto == TCP || f.proto == UDP) && found.Some? {
      var own := KeyOf(Normalised(vips, f, found.value), found.value);
      FlagsFromKey(vips, h, own, found.value);
      TableAdds(s, own, SynSet(h), found.value, e, key);
      LruOnly(vips, s, h, e, own, found.value);
    }
  }

  /** A flow of such a virtual IP whose key does not have that form is never found in the
      table, whatever packets of whatever flows arrive. */
  lemma {:induction false} DportOnlyNeverBinds(vips: Vips, s: State, events: seq<Event>, key: Flow, flags: Flags)
    requires s.Valid() && ValidTrace(events) && key !in s.lru
    requires FlagsFor(vips, key.dst, key.dstPort, key.proto) == Some(flags) && flags.hashDportOnly && !PortOnlyForm(key)
    ensures key !in StateAfter(vips, s, events).lru
    decreases |events|
  {
    hide Process, FlagsFor;
    if events != [] {
      PacketAdds(vips, s, events[0].headers, events[0].env, key, flags);
      DportOnlyNeverBinds(vips, Process(vips, s, events[0].headers, events[0].env).1, events[1..], key, flags);
    }
  }

  /** So each of its packets goes wherever the ring points at that moment. */
  lemma DportOnlyFollowsRing(vips: Vips, s: State, events: seq<Event>, key: Flow, flags: Flags, i: nat)
    requires s.Valid() && ValidTrace(events) && key !in s.lru && i < |events|
    requires BelongsTo(vips, events[i].headers, key, flags) && flags.hashDportOnly && !PortOnlyForm(key) && !flags.quicVip
    ensures var e := events[i].env;
            Process(vips, StateAfter(vips, s, events[..i]), events[i].headers, e).0 ==
            if e.tooBig || !e.encapOk || RingReal(e) >= MAX_REALS then Dropped else Sent(RingReal(e))
  {
    FlagsFromKey(vips, events[i].headers, key, flags);
    DportOnlyNeverBinds(vips, s, events[..i], key, flags);
    UnboundFollowsRing(vips, StateAfter(vips, s, events[..i]), events[i].headers, events[i].env, key, flags);
  }

  lemma UnboundFollowsRing(vips: Vips, s: State, h: Headers, e: Env, key: Flow, flags: Flags)
    requires s.Valid() && e.Valid() && key !in s.lru && BelongsTo(vips, h, key, flags) && !flags.quicVip
    ensures Process(vips, s, h, e).0 ==
            if e.tooBig || !e.encapOk || RingReal(e) >= MAX_REALS then Dropped else Sent(RingReal(e))
  {
    hide ConnectionRate.Next, ConnectionRate.Flood;
  }
}
