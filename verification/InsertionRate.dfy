/** The limiter inside the packet path: what the bound on admitted calls means for the
    connection table over whole traces of packets. */
module InsertionRate {
  import opened Bytes
  import opened Options
  import opened FlowRouting
  import opened FlowProperties
  import opened ConnectionRate

  /** The packet gets as far as choosing a real from the ring, where the limiter is asked. */
  predicate AsksLimiter(vips: Vips, s: State, h: Headers, e: Env)
    requires s.Valid() && e.Valid()
  {
    var f := h.flow;
    && (f.proto == TCP || f.proto == UDP)
    && var found := FlagsFor(vips, f.dst, f.dstPort, f.proto);
       && found.Some? && !e.tooBig
       && var flags := found.value;
          && (f.proto == UDP && flags.quicVip ==> !QuicRoute(s.stats, e).0 && QuicRoute(s.stats, e).1.None?)
          && (!SynSet(h) && !flags.lruBypass ==> Lookup(s.lru, KeyOf(Normalised(vips, f, flags), flags), e.now).0.None?)
  }

  /** Everything but the limiter would have the packet enter the connection table. */
  predicate Eligible(vips: Vips, h: Headers, e: Env)
    requires e.Valid()
  {
    var f := h.flow;
    && FlagsFor(vips, f.dst, f.dstPort, f.proto).Some?
    && !FlagsFor(vips, f.dst, f.dstPort, f.proto).value.lruBypass
    && e.rings[RING_SIZE * VIP_NUM + e.hash % RING_SIZE] < MAX_REALS
  }

  /** The packet makes an entry in the connection table. */
  predicate MakesEntry(vips: Vips, s: State, h: Headers, e: Env)
    requires s.Valid() && e.Valid()
  {
    AsksLimiter(vips, s, h, e) && Eligible(vips, h, e) && !Flood(RateOf(s), e.now, MAX_CONN_RATE)
  }

  /** QUIC routing decides by the packet alone, and leaves the limiter's counter alone. */
  lemma QuicIgnoresCounters(a: seq<Stat>, b: seq<Stat>, e: Env)
    requires |a| == |b| == STATS_MAP_SIZE
    ensures QuicRoute(a, e).0 == QuicRoute(b, e).0 && QuicRoute(a, e).1 == QuicRoute(b, e).1
  {
    hide Wrap;
  }

  lemma TableRouteRate(s: State, key: Flow, syn: bool, flags: Flags, e: Env)
    requires s.Valid() && e.Valid()
    ensures var asks := !syn && !flags.lruBypass ==> Lookup(s.lru, key, e.now).0.None?;
            RateOf(TableRoute(s, key, syn, flags, e).1) == if asks then Next(RateOf(s), e.now) else RateOf(s)
  {
    hide Next, Flood, Wrap;
  }

  lemma FinishRate(s: State, dst: Option<nat>, e: Env)
    requires s.Valid() && (dst.Some? ==> dst.value < MAX_REALS)
    ensures RateOf(Finish(s, dst, e).1) == RateOf(s)
  {
    hide Wrap;
  }

  /** The limiter's counter moves exactly for the packets that ask it. */
  lemma PacketRate(vips: Vips, s: State, h: Headers, e: Env)
    requires s.Valid() && e.Valid()
    ensures RateOf(Process(vips, s, h, e).1) == if AsksLimiter(vips, s, h, e) then Next(RateOf(s), e.now) else RateOf(s)
  {
    hide TableRoute, QuicRoute, Finish, Next, Wrap, Lookup, FlagsFor, SynSet;
    var f := h.flow;
    var found := FlagsFor(vips, f.dst, f.dstPort, f.proto);
    if (f.proto == TCP || f.proto == UDP) && found.Some? && !e.tooBig {
      var flags := found.value;
      var s1 := s.(stats := Bump(s.stats, MAX_VIPS + LRU_CNTRS, 1, 0));
      QuicKeepsRate(s1.stats, e);
      QuicIgnoresCounters(s.stats, s1.stats, e);
      var (drop, quic, stats2) := if f.proto == UDP && flags.quicVip then QuicRoute(s1.stats, e) else (false, None, s1.stats);
      var s2 := s1.(stats := stats2);
      assert RateOf(s2) == RateOf(s);
      if !drop {
        var key := KeyOf(Normalised(vips, f, flags), flags);
        if quic.Some? {
          FinishRate(s2, quic, e);
        } else {
          TableRouteRate(s2, key, SynSet(h), flags, e);
          FinishRate(TableRoute(s2, key, SynSet(h), flags, e).1, TableRoute(s2, key, SynSet(h), flags, e).0, e);
        }
      }
    }
  }

  /** Without an entry being made, the table's keys and the reals they name do not change. */
  lemma NoEntryNoChange(vips: Vips, s: State, h: Headers, e: Env, key: Flow)
    requires s.Valid() && e.Valid() && !MakesEntry(vips, s, h, e)
    ensures key in Process(vips, s, h, e).1.lru <==> key in s.lru
    ensures key in s.lru ==> Process(vips, s, h, e).1.lru[key].pos == s.lru[key].pos
  {
    hide Next, Wrap, Flood, TableRoute, QuicRoute, Lookup, FlagsFor, SynSet;
    var f := h.flow;
    var found := FlagsFor(vips, f.dst, f.dstPort, f.proto);
    if (f.proto == TCP || f.proto == UDP) && found.Some? && !e.tooBig {
      var flags := found.value;
      var own := KeyOf(Normalised(vips, f, flags), flags);
      QuicIgnoresCounters(s.stats, Bump(s.stats, MAX_VIPS + LRU_CNTRS, 1, 0), e);
      if f.proto == UDP && flags.quicVip && (QuicRoute(s.stats, e).0 || QuicRoute(s.stats, e).1.Some?) {
        QuicLeavesTable(vips, s, h, e, flags);
      } else {
        LruOnly(vips, s, h, e, own, flags);
        NoEntryRoute(s, own, SynSet(h), flags, e, key);
      }
    }
  }

  lemma QuicLeavesTable(vips: Vips, s: State, h: Headers, e: Env, flags: Flags)
    requires s.Valid() && e.Valid() && h.flow.proto == UDP && flags.quicVip
    requires FlagsFor(vips, h.flow.dst, h.flow.dstPort, UDP) == Some(flags)
    requires QuicRoute(s.stats, e).0 || QuicRoute(s.stats, e).1.Some?
    ensures Process(vips, s, h, e).1.lru == s.lru
  {
    hide TableRoute, QuicRoute, Wrap, FlagsFor;
    QuicIgnoresCounters(s.stats, Bump(s.stats, MAX_VIPS + LRU_CNTRS, 1, 0), e);
  }

  lemma NoEntryRoute(s: State, own: Flow, syn: bool, flags: Flags, e: Env, key: Flow)
    requires s.Valid() && e.Valid()
    requires (!syn && !flags.lruBypass && Lookup(s.lru, own, e.now).0.Some?) || flags.lruBypass ||
             e.rings[RING_SIZE * VIP_NUM + e.hash % RING_SIZE] >= MAX_REALS || Flood(RateOf(s), e.now, MAX_CONN_RATE)
    ensures var lru := TableRoute(s, own, syn, flags, e).1.lru;
            (key in lru <==> key in s.lru) && (key in s.lru ==> lru[key].pos == s.lru[key].pos)
  {
    hide Next, Wrap;
  }

  // ----- traces ---------------------------------------------------------------------------------

  /** The calls to the limiter that the first n packets make. */
  function Calls(vips: Vips, s: State, events: seq<Event>, n: nat): (calls: seq<Call>)
    requires s.Valid() && ValidTrace(events) && n <= |events|
    ensures |calls| <= n
  {
    if n == 0 then []
    else
      var t, e := StateAfter(vips, s, events[..n - 1]), events[n - 1];
      Calls(vips, s, events, n - 1) +
      if AsksLimiter(vips, t, e.headers, e.env) then [Call(e.env.now, Eligible(vips, e.headers, e.env))] else []
  }

  /** Entries made in the connection table by packets i up to j. */
  function EntriesMade(vips: Vips, s: State, events: seq<Event>, i: nat, j: nat): (n: nat)
    requires s.Valid() && ValidTrace(events) && i <= j <= |events|
  {
    if i == j then 0
    else
      var t, e := StateAfter(vips, s, events[..j - 1]), events[j - 1];
      EntriesMade(vips, s, events, i, j - 1) + if MakesEntry(vips, t, e.headers, e.env) then 1 else 0
  }

  lemma {:induction false} RateTracksCalls(vips: Vips, s: State, events: seq<Event>, n: nat)
    requires s.Valid() && ValidTrace(events) && n <= |events| && RateOf(s) == Rate(0, 0)
    ensures RateOf(StateAfter(vips, s, events[..n])) == RateAfter(Calls(vips, s, events, n))
  {
    hide Process, AsksLimiter, Eligible, StateAfter, RateOf, Next;
    if n == 0 {
      assert events[..0] == [] && StateAfter(vips, s, []) == s by { StateAfterNothing(vips, s); }
    } else {
      var t, e := StateAfter(vips, s, events[..n - 1]), events[n - 1];
      RateTracksCalls(vips, s, events, n - 1);
      StateAfterSnoc(vips, s, events, n - 1);
      PacketRate(vips, t, e.headers, e.env);
      var before, after := Calls(vips, s, events, n - 1), Calls(vips, s, events, n);
      if AsksLimiter(vips, t, e.headers, e.env) {
        assert after[..|before|] == before;
      } else {
        assert after == before;
      }
    }
  }

  lemma StateAfterNothing(vips: Vips, s: State)
    requires s.Valid()
    ensures StateAfter(vips, s, []) == s
  {
  }

  /** Insertions among the first calls do not depend on later ones. */
  lemma {:induction false} InsertionsPrefix(calls: seq<Call>, more: seq<Call>, i: nat, j: nat, max: nat)
    requires i <= j <= |calls|
    ensures Insertions(calls + more, i, j, max) == Insertions(calls, i, j, max)
  {
    if i < j {
      InsertionsPrefix(calls, more, i, j - 1, max);
      assert (calls + more)[..j - 1] == calls[..j - 1];
    }
  }

  lemma {:induction false} CallsGrow(vips: Vips, s: State, events: seq<Event>, i: nat, j: nat)
    requires s.Valid() && ValidTrace(events) && i <= j <= |events|
    ensures Calls(vips, s, events, i) <= Calls(vips, s, events, j)
  {
    hide AsksLimiter, Eligible, StateAfter;
    if i < j { CallsGrow(vips, s, events, i, j - 1); }
  }

  /** Entries in the table are the limiter's insertions. */
  lemma {:induction false} EntriesAreInsertions(vips: Vips, s: State, events: seq<Event>, i: nat, j: nat)
    requires s.Valid() && ValidTrace(events) && i <= j <= |events| && RateOf(s) == Rate(0, 0)
    ensures |Calls(vips, s, events, i)| <= |Calls(vips, s, events, j)|
    ensures EntriesMade(vips, s, events, i, j) ==
            Insertions(Calls(vips, s, events, j), |Calls(vips, s, events, i)|, |Calls(vips, s, events, j)|, MAX_CONN_RATE)
  {
    hide AsksLimiter, Eligible, StateAfter, RateOf, Flood, RateAfter, Process;
    CallsGrow(vips, s, events, i, j);
    if i < j {
      var t, e := StateAfter(vips, s, events[..j - 1]), events[j - 1];
      var before, after := Calls(vips, s, events, j - 1), Calls(vips, s, events, j);
      CallsGrow(vips, s, events, i, j - 1);
      EntriesAreInsertions(vips, s, events, i, j - 1);
      RateTracksCalls(vips, s, events, j - 1);
      if AsksLimiter(vips, t, e.headers, e.env) {
        var c := Call(e.env.now, Eligible(vips, e.headers, e.env));
        assert after == before + [c] && after[..|before|] == before;
        InsertionsPrefix(before, [c], |Calls(vips, s, events, i)|, |before|, MAX_CONN_RATE);
      } else {
        assert after == before;
      }
    }
  }

  predicate TimeOrdered(events: seq<Event>) {
    forall i, j :: 0 <= i <= j < |events| ==> events[i].env.now <= events[j].env.now
  }

  /** Calls carry the times of the packets that made them, in order. */
  lemma {:induction false} CallTimes(vips: Vips, s: State, events: seq<Event>, n: nat)
    requires s.Valid() && ValidTrace(events) && n <= |events| && TimeOrdered(events)
    ensures InOrder(Calls(vips, s, events, n))
    ensures forall k :: 0 <= k < |Calls(vips, s, events, n)| ==>
              n > 0 && Calls(vips, s, events, n)[k].time <= events[n - 1].env.now
  {
    hide AsksLimiter, Eligible, StateAfter;
    if n != 0 {
      CallTimes(vips, s, events, n - 1);
      assert n > 1 ==> events[n - 2].env.now <= events[n - 1].env.now;
    }
  }

  lemma {:induction false} LaterCallTimes(vips: Vips, s: State, events: seq<Event>, i: nat, j: nat, k: nat)
    requires s.Valid() && ValidTrace(events) && i < j <= |events| && TimeOrdered(events)
    requires |Calls(vips, s, events, i)| <= k < |Calls(vips, s, events, j)|
    ensures Calls(vips, s, events, j)[k].time >= events[i].env.now
  {
    hide AsksLimiter, Eligible, StateAfter;
    var before := Calls(vips, s, events, j - 1);
    assert events[i].env.now <= events[j - 1].env.now;
    if k < |before| {
      assert i != j - 1;
      LaterCallTimes(vips, s, events, i, j - 1, k);
    }
  }

  /** Over every trace of packets in order of time, from zeroed counters: the packets of
      any one-second window make at most 2 * MAX_CONN_RATE entries in the table. */
  lemma EntryRateBound(vips: Vips, s: State, events: seq<Event>, i: nat, j: nat)
    requires s.Valid() && ValidTrace(events) && TimeOrdered(events) && RateOf(s) == Rate(0, 0)
    requires i < j <= |events| < 0x1_0000_0000_0000_0000
    requires events[j - 1].env.now - events[i].env.now <= ONE_SEC
    ensures EntriesMade(vips, s, events, i, j) <= 2 * MAX_CONN_RATE
  {
    hide AsksLimiter, Eligible, StateAfter, Calls, Insertions, RateOf, EntriesMade;
    var calls, from := Calls(vips, s, events, j), |Calls(vips, s, events, i)|;
    EntriesAreInsertions(vips, s, events, i, j);
    CallTimes(vips, s, events, j);
    if from < |calls| {
      LaterCallTimes(vips, s, events, i, j, from);
    }
    WindowBound(calls, from, |calls|, MAX_CONN_RATE);
  }
}
