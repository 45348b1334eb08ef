/** What the load balancer's statistics count. */
module FlowStatistics {
  import opened Bytes
  import opened Options
  import opened FlowRouting
  import opened FlowProperties
  import ConnectionRate

  function Sum1(s: seq<Stat>): (n: int)
  {
    if s == [] then 0 else s[0].v1 + Sum1(s[1..])
  }

  function Sum2(s: seq<Stat>): (n: int)
  {
    if s == [] then 0 else s[0].v2 + Sum2(s[1..])
  }

  const M := 0x1_0000_0000_0000_0000

  /** Equal as 64-bit totals. */
  predicate Congruent(a: int, b: int) {
    (a - b) % M == 0
  }

  /** Packets and bytes counted per virtual IP agree with those counted per real. */
  predicate Balanced(s: State)
    requires s.Valid()
  {
    && Congruent(Sum1(s.stats[..MAX_VIPS]), Sum1(s.realsStats))
    && Congruent(Sum2(s.stats[..MAX_VIPS]), Sum2(s.realsStats))
  }

  lemma {:induction false} SumBump(s: seq<Stat>, i: nat, d1: nat, d2: nat)
    requires i < |s|
    ensures Congruent(Sum1(Bump(s, i, d1, d2)), Sum1(s) + d1)
    ensures Congruent(Sum2(Bump(s, i, d1, d2)), Sum2(s) + d2)
  {
    var t := Bump(s, i, d1, d2);
    if i == 0 {
      assert t[1..] == s[1..];
      WrapCongruent(s[0].v1 + d1);
      WrapCongruent(s[0].v2 + d2);
    } else {
      assert t[1..] == Bump(s[1..], i - 1, d1, d2);
      SumBump(s[1..], i - 1, d1, d2);
    }
  }

  lemma WrapCongruent(v: int)
    ensures Congruent(ConnectionRate.Wrap(v), v)
  {
  }

  lemma CongruentStep(a: int, b: int, a': int, b': int, d: int)
    requires Congruent(a, b) && Congruent(a', a + d) && Congruent(b', b + d)
    ensures Congruent(a', b')
  {
    var x, y, z := (a - b) / M, (a' - (a + d)) / M, (b' - (b + d)) / M;
    assert a' - b' == M * (x + y - z);
  }

  lemma BumpPrefix(s: seq<Stat>, i: nat, d1: nat, d2: nat)
    requires i < |s| && MAX_VIPS <= |s|
    ensures Bump(s, i, d1, d2)[..MAX_VIPS] == if i < MAX_VIPS then Bump(s[..MAX_VIPS], i, d1, d2) else s[..MAX_VIPS]
  {
  }

  /** Everything but the final accounting leaves the two sets of counters alone. */
  ghost predicate SameTotals(s: State, t: State)
    requires s.Valid() && t.Valid()
  {
    t.stats[..MAX_VIPS] == s.stats[..MAX_VIPS] && t.realsStats == s.realsStats
  }

  lemma TableRouteKeepsTotals(s: State, key: Flow, syn: bool, flags: Flags, e: Env)
    requires s.Valid() && e.Valid()
    ensures SameTotals(s, TableRoute(s, key, syn, flags, e).1)
  {
    hide Lookup, ConnectionRate.Next, ConnectionRate.Flood, ConnectionRate.Wrap;
  }

  lemma QuicRouteKeepsTotals(stats: seq<Stat>, e: Env)
    requires |stats| == STATS_MAP_SIZE
    ensures QuicRoute(stats, e).2[..MAX_VIPS] == stats[..MAX_VIPS]
  {
    hide ConnectionRate.Wrap;
  }

  /** A packet that is sent on is counted once for its virtual IP and once for its real;
      any other packet is not counted. */
  ghost predicate CountedOnce(s: State, verdict: Verdict, bytes: u16, t: State)
    requires s.Valid() && t.Valid()
  {
    if verdict.Sent? then
      && verdict.dst < MAX_REALS
      && t.stats[..MAX_VIPS] == Bump(s.stats[..MAX_VIPS], VIP_NUM, 1, bytes)
      && t.realsStats == Bump(s.realsStats, verdict.dst, 1, bytes)
    else SameTotals(s, t)
  }

  lemma FinishCounts(s: State, t: State, dst: Option<nat>, e: Env)
    requires s.Valid() && t.Valid() && (dst.Some? ==> dst.value < MAX_REALS) && SameTotals(s, t)
    ensures CountedOnce(s, Finish(t, dst, e).0, e.bytes, Finish(t, dst, e).1)
  {
    hide Bump;
    BumpPrefix(t.stats, VIP_NUM, 1, e.bytes);
  }

  lemma PacketCounts(vips: Vips, s: State, h: Headers, e: Env)
    requires s.Valid() && e.Valid()
    ensures CountedOnce(s, Process(vips, s, h, e).0, e.bytes, Process(vips, s, h, e).1)
  {
    hide TableRoute, QuicRoute, Finish, FlagsFor, Bump;
    var f := h.flow;
    var found := FlagsFor(vips, f.dst, f.dstPort, f.proto);
    if (f.proto == TCP || f.proto == UDP) && found.Some? && !e.tooBig {
      var flags := found.value;
      var s1 := s.(stats := Bump(s.stats, MAX_VIPS + LRU_CNTRS, 1, 0));
      BumpPrefix(s.stats, MAX_VIPS + LRU_CNTRS, 1, 0);
      QuicRouteKeepsTotals(s1.stats, e);
      var (drop, quic, stats2) := if f.proto == UDP && flags.quicVip then QuicRoute(s1.stats, e) else (false, None, s1.stats);
      var s2 := s1.(stats := stats2);
      if !drop {
        if quic.Some? {
          FinishCounts(s, s2, quic, e);
        } else {
          var key := KeyOf(Normalised(vips, f, flags), flags);
          TableRouteKeepsTotals(s2, key, SynSet(h), flags, e);
          var (dst, s3) := TableRoute(s2, key, SynSet(h), flags, e);
          FinishCounts(s, s3, dst, e);
        }
      }
    }
  }

  lemma PacketKeepsBalance(vips: Vips, s: State, h: Headers, e: Env)
    requires s.Valid() && e.Valid() && Balanced(s)
    ensures Balanced(Process(vips, s, h, e).1)
  {
    hide Process, Sum1, Sum2, Bump, Congruent;
    PacketCounts(vips, s, h, e);
    var (verdict, t) := Process(vips, s, h, e);
    if verdict.Sent? {
      var v, v' := s.stats[..MAX_VIPS], t.stats[..MAX_VIPS];
      SumBump(v, VIP_NUM, 1, e.bytes);
      SumBump(s.realsStats, verdict.dst, 1, e.bytes);
      CongruentStep(Sum1(v), Sum1(s.realsStats), Sum1(v'), Sum1(t.realsStats), 1);
      CongruentStep(Sum2(v), Sum2(s.realsStats), Sum2(v'), Sum2(t.realsStats), e.bytes);
    }
  }

  /** In every state reachable from zeroed counters the per-VIP totals equal the per-real
      totals, for packets and for bytes. */
  lemma {:induction false} StatisticsAgree(vips: Vips, s: State, events: seq<Event>)
    requires s.Valid() && ValidTrace(events) && Balanced(s)
    ensures Balanced(StateAfter(vips, s, events))
    decreases |events|
  {
    hide Balanced, Process;
    if events != [] {
      PacketKeepsBalance(vips, s, events[0].headers, events[0].env);
      StatisticsAgree(vips, Process(vips, s, events[0].headers, events[0].env).1, events[1..]);
    }
  }

  // ----- what they count ------------------------------------------------------------------------------------------

  /** Everything zero, as the maps are when the program is loaded. */
  predicate Zeroed(s: State)
    requires s.Valid()
  {
    && (forall i :: 0 <= i < STATS_MAP_SIZE ==> s.stats[i] == Stat(0, 0))
    && (forall i :: 0 <= i < MAX_REALS ==> s.realsStats[i] == Stat(0, 0))
  }

  function LastVerdict(vips: Vips, s: State, events: seq<Event>): (v: Verdict)
    requires s.Valid() && ValidTrace(events) && events != []
  {
    var last := |events| - 1;
    Process(vips, StateAfter(vips, s, events[..last]), events[last].headers, events[last].env).0
  }

  /** Sent on to the given real, or to any. */
  predicate SentTo(v: Verdict, to: Option<nat>) {
    v.Sent? && (to.Some? ==> v.dst == to.value)
  }

  /** How many packets of a trace were sent on. */
  function SentPackets(vips: Vips, s: State, events: seq<Event>, to: Option<nat>): (n: nat)
    requires s.Valid() && ValidTrace(events)
  {
    if events == [] then 0
    else
      var v := LastVerdict(vips, s, events);
      SentPackets(vips, s, events[..|events| - 1], to) + if SentTo(v, to) then 1 else 0
  }

  /** How many bytes they had. */
  function SentBytes(vips: Vips, s: State, events: seq<Event>, to: Option<nat>): (n: nat)
    requires s.Valid() && ValidTrace(events)
  {
    if events == [] then 0
    else
      var v := LastVerdict(vips, s, events);
      SentBytes(vips, s, events[..|events| - 1], to) + if SentTo(v, to) then events[|events| - 1].env.bytes else 0
  }

  function Counter(vips: Vips, s: State, events: seq<Event>, to: Option<nat>): (c: Stat)
    requires s.Valid() && ValidTrace(events)
  {
    Stat(ConnectionRate.Wrap(SentPackets(vips, s, events, to)), ConnectionRate.Wrap(SentBytes(vips, s, events, to)))
  }

  lemma WrapAdd(a: nat, d: nat)
    ensures ConnectionRate.Wrap(ConnectionRate.Wrap(a) + d) == ConnectionRate.Wrap(a + d)
  {
  }

  /** What the last packet of a trace adds to a counter. */
  lemma CounterStep(vips: Vips, s: State, events: seq<Event>, to: Option<nat>)
    requires s.Valid() && ValidTrace(events) && events != []
    ensures var before := [Counter(vips, s, events[..|events| - 1], to)];
            Counter(vips, s, events, to) ==
            (if SentTo(LastVerdict(vips, s, events), to) then Bump(before, 0, 1, events[|events| - 1].env.bytes) else before)[0]
  {
    hide LastVerdict, ConnectionRate.Wrap;
    var last := |events| - 1;
    WrapAdd(SentPackets(vips, s, events[..last], to), 1);
    WrapAdd(SentBytes(vips, s, events[..last], to), events[last].env.bytes);
  }

  /** Each counter says how many packets and bytes were sent on, to its real or in all, as
      far as 64 bits hold it; the counters of other virtual IPs stay zero. */
  ghost predicate Meaning(vips: Vips, s: State, events: seq<Event>, t: State)
    requires s.Valid() && ValidTrace(events) && t.Valid()
  {
    && (forall i :: 0 <= i < MAX_REALS ==> t.realsStats[i] == Counter(vips, s, events, Some(i)))
    && (forall i :: 0 <= i < MAX_VIPS ==>
          t.stats[..MAX_VIPS][i] == if i == VIP_NUM then Counter(vips, s, events, None) else Stat(0, 0))
  }

  lemma {:induction false} CountersMean(vips: Vips, s: State, events: seq<Event>)
    requires s.Valid() && ValidTrace(events) && Zeroed(s)
    ensures Meaning(vips, s, events, StateAfter(vips, s, events))
  {
    hide Process;
    if events != [] {
      var last := |events| - 1;
      CountersMean(vips, s, events[..last]);
      StateAfterSnoc(vips, s, events, last);
      assert events[..last + 1] == events;
      PacketCounts(vips, StateAfter(vips, s, events[..last]), events[last].headers, events[last].env);
      MeaningStep(vips, s, events, StateAfter(vips, s, events[..last]), StateAfter(vips, s, events));
    }
  }

  lemma MeaningStep(vips: Vips, s: State, events: seq<Event>, u: State, t: State)
    requires s.Valid() && ValidTrace(events) && events != [] && u.Valid() && t.Valid()
    requires Meaning(vips, s, events[..|events| - 1], u)
    requires CountedOnce(u, LastVerdict(vips, s, events), events[|events| - 1].env.bytes, t)
    ensures Meaning(vips, s, events, t)
  {
    hide LastVerdict, ConnectionRate.Wrap, Counter;
    CounterStep(vips, s, events, None);
    forall i | 0 <= i < MAX_REALS
      ensures t.realsStats[i] == Counter(vips, s, events, Some(i))
    {
      CounterStep(vips, s, events, Some(i));
    }
  }

  // ----- as long as nothing overflows ---------------------------------------------------------------------------

  lemma {:induction false} ElementAtMostSum(s: seq<Stat>, i: nat)
    requires i < |s|
    ensures 0 <= s[i].v1 <= Sum1(s) && 0 <= s[i].v2 <= Sum2(s)
  {
    if i > 0 {
      ElementAtMostSum(s[1..], i - 1);
    } else if |s| > 1 {
      ElementAtMostSum(s[1..], 0);
    }
  }

  lemma {:induction false} SumBumpExact(s: seq<Stat>, i: nat, d1: nat, d2: nat)
    requires i < |s|
    ensures Sum1(s) + d1 < M ==> Sum1(Bump(s, i, d1, d2)) == Sum1(s) + d1
    ensures Sum2(s) + d2 < M ==> Sum2(Bump(s, i, d1, d2)) == Sum2(s) + d2
  {
    var t := Bump(s, i, d1, d2);
    ElementAtMostSum(s, i);
    if i == 0 {
      assert t[1..] == s[1..];
    } else {
      assert t[1..] == Bump(s[1..], i - 1, d1, d2);
      SumBumpExact(s[1..], i - 1, d1, d2);
    }
  }

  /** Both sets of counters add up to the number of packets and bytes sent on, as long as
      those numbers fit 64 bits. */
  lemma {:induction false} StatisticsCount(vips: Vips, s: State, events: seq<Event>)
    requires s.Valid() && ValidTrace(events) && Zeroed(s)
    ensures var t := StateAfter(vips, s, events);
            var n, b := SentPackets(vips, s, events, None), SentBytes(vips, s, events, None);
            && (n < M ==> Sum1(t.stats[..MAX_VIPS]) == Sum1(t.realsStats) == n)
            && (b < M ==> Sum2(t.stats[..MAX_VIPS]) == Sum2(t.realsStats) == b)
  {
    hide Process, Sum1, Sum2, Bump;
    if events == [] {
      ZeroSums(s.stats[..MAX_VIPS]);
      ZeroSums(s.realsStats);
    } else {
      var last := |events| - 1;
      var before, e := events[..last], events[last];
      StatisticsCount(vips, s, before);
      StateAfterSnoc(vips, s, events, last);
      assert events[..last + 1] == events;
      var u := StateAfter(vips, s, before);
      PacketCounts(vips, u, e.headers, e.env);
      var v := LastVerdict(vips, s, events);
      if v.Sent? {
        SumBumpExact(u.stats[..MAX_VIPS], VIP_NUM, 1, e.env.bytes);
        SumBumpExact(u.realsStats, v.dst, 1, e.env.bytes);
      }
    }
  }

  lemma ZeroedIsBalanced(s: State)
    requires s.Valid() && Zeroed(s)
    ensures Balanced(s)
  {
    ZeroSums(s.stats[..MAX_VIPS]);
    ZeroSums(s.realsStats);
  }

  lemma {:induction false} ZeroSums(s: seq<Stat>)
    requires forall i :: 0 <= i < |s| ==> s[i] == Stat(0, 0)
    ensures Sum1(s) == 0 && Sum2(s) == 0
  {
    if s != [] { ZeroSums(s[1..]); }
  }
}
