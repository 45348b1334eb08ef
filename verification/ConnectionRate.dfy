/** The load balancer's limiter for new connections: a counter that restarts with each
    time quantum decides whether a packet may insert a connection-table entry. */
module ConnectionRate {
  import opened Bytes

  const ONE_SEC := 1000000000
  const MAX_CONN_RATE := 125000

  /** `v1`: new connections in the current quantum; `v2`: when it started. */
  datatype Rate = Rate(v1: u64, v2: u64)

  function Wrap(v: int): (r: u64)
  {
    if 0 <= v < 0x1_0000_0000_0000_0000 then v else v % 0x1_0000_0000_0000_0000
  }

  predicate Restarts(r: Rate, now: u64) {
    Wrap(now - r.v2) > ONE_SEC
  }

  function Next(r: Rate, now: u64): (r': Rate)
  {
    if Restarts(r, now) then Rate(1, now) else Rate(Wrap(r.v1 + 1), r.v2)
  }

  predicate Flood(r: Rate, now: u64, max: nat) {
    !Restarts(r, now) && Wrap(r.v1 + 1) > max
  }

  // ----- traces of calls ----------------------------------------------------------------------

  /** A packet reaching the limiter; `eligible` is every other condition for inserting. */
  datatype Call = Call(time: u64, eligible: bool)

  predicate InOrder(calls: seq<Call>) {
    forall i, j :: 0 <= i <= j < |calls| ==> calls[i].time <= calls[j].time
  }

  function RateAfter(calls: seq<Call>): (r: Rate)
  {
    if calls == [] then Rate(0, 0)
    else
      var last := |calls| - 1;
      Next(RateAfter(calls[..last]), calls[last].time)
  }

  predicate Inserts(calls: seq<Call>, i: nat, max: nat)
    requires i < |calls|
  {
    calls[i].eligible && !Flood(RateAfter(calls[..i]), calls[i].time, max)
  }

  /** Connection-table insertions among calls i up to j. */
  function Insertions(calls: seq<Call>, i: nat, j: nat, max: nat): (n: nat)
    requires i <= j <= |calls|
  {
    if i == j then 0
    else Insertions(calls, i, j - 1, max) + if Inserts(calls, j - 1, max) then 1 else 0
  }

  /** A quantum starts among calls i up to j. */
  predicate Restarted(calls: seq<Call>, i: nat, j: nat)
    requires i <= j <= |calls|
  {
    exists k :: i <= k < j && Restarts(RateAfter(calls[..k]), calls[k].time)
  }

  lemma RateAfterSnoc(calls: seq<Call>, j: nat)
    requires j < |calls|
    ensures RateAfter(calls[..j + 1]) == Next(RateAfter(calls[..j]), calls[j].time)
  {
    assert calls[..j + 1][..j] == calls[..j];
  }

  /** The counter never wraps and the quantum started in the past. */
  lemma {:induction false} RateBounds(calls: seq<Call>, j: nat)
    requires InOrder(calls) && j <= |calls| < 0x1_0000_0000_0000_0000
    ensures RateAfter(calls[..j]).v1 <= j
    ensures j > 0 ==> RateAfter(calls[..j]).v2 <= calls[j - 1].time
  {
    if j == 0 {
      assert calls[..0] == [];
    } else {
      RateBounds(calls, j - 1);
      RateAfterSnoc(calls, j - 1);
      assert j > 1 ==> calls[j - 2].time <= calls[j - 1].time;
    }
  }

  /** Once a quantum has started within the block, it started no earlier than the block. */
  lemma {:induction false} RestartIsRecent(calls: seq<Call>, i: nat, j: nat)
    requires InOrder(calls) && i <= j <= |calls| && Restarted(calls, i, j)
    ensures RateAfter(calls[..j]).v2 >= calls[i].time
  {
    hide RateAfter, Restarts;
    var k :| i <= k < j && Restarts(RateAfter(calls[..k]), calls[k].time);
    RateAfterSnoc(calls, j - 1);
    if k < j - 1 && !Restarts(RateAfter(calls[..j - 1]), calls[j - 1].time) {
      RestartIsRecent(calls, i, j - 1);
    }
  }

  /** Starts of quanta are more than ONE_SEC apart. */
  lemma NoSecondRestart(calls: seq<Call>, i: nat, j: nat)
    requires InOrder(calls) && |calls| < 0x1_0000_0000_0000_0000 && i <= j < |calls|
    requires calls[j].time - calls[i].time <= ONE_SEC && Restarted(calls, i, j)
    ensures !Restarts(RateAfter(calls[..j]), calls[j].time)
  {
    hide RateAfter;
    RestartIsRecent(calls, i, j);
    RateBounds(calls, j);
    assert calls[j - 1].time <= calls[j].time;
  }

  function Min(a: nat, b: nat): nat {
    if a <= b then a else b
  }

  /** A quantum that started before the block, and one that starts in it, admit at most
      `max` insertions each. */
  lemma {:induction false} BlockBound(calls: seq<Call>, i: nat, j: nat, max: nat)
    requires InOrder(calls) && |calls| < 0x1_0000_0000_0000_0000 && max >= 1
    requires i < j <= |calls| && calls[j - 1].time - calls[i].time <= ONE_SEC
    ensures Insertions(calls, i, j, max) <=
            (if Restarted(calls, i, j) then max else 0) + Min(RateAfter(calls[..j]).v1, max)
  {
    hide RateAfter;
    var r := RateAfter(calls[..j - 1]);
    RateBounds(calls, j - 1);
    RateAfterSnoc(calls, j - 1);
    assert Restarted(calls, i, j) <==> Restarted(calls, i, j - 1) || Restarts(r, calls[j - 1].time);
    if i < j - 1 {
      assert calls[j - 2].time <= calls[j - 1].time;
      BlockBound(calls, i, j - 1, max);
      if Restarted(calls, i, j - 1) {
        NoSecondRestart(calls, i, j - 1);
      }
    }
  }

  /** Over every trace of calls in order of time, any window of one second contains at
      most 2 * max insertions. */
  lemma WindowBound(calls: seq<Call>, i: nat, j: nat, max: nat)
    requires InOrder(calls) && |calls| < 0x1_0000_0000_0000_0000 && max >= 1
    requires i <= j <= |calls| && (i < j ==> calls[j - 1].time - calls[i].time <= ONE_SEC)
    ensures Insertions(calls, i, j, max) <= 2 * max
  {
    if i < j { BlockBound(calls, i, j, max); }
  }

  // ----- the bound is attained ---------------------------------------------------------------------

  /** `max` packets one second after boot, and as many one nanosecond later. */
  function Burst(max: nat): (calls: seq<Call>)
    ensures |calls| == 2 * max
  {
    seq(2 * max, i => Call(if i < max then ONE_SEC else ONE_SEC + 1, true))
  }

  lemma {:induction false} BurstCounts(max: nat, n: nat)
    requires 1 <= max && 2 * max < 0x1_0000_0000_0000_0000 && n <= 2 * max
    ensures Insertions(Burst(max), 0, n, max) == n
    ensures RateAfter(Burst(max)[..n]) == if n <= max then Rate(n, 0) else Rate(n - max, ONE_SEC + 1)
  {
    hide RateAfter, Burst, Next, Flood;
    if n == 0 {
      NothingYet(Burst(max), max);
    } else {
      BurstCounts(max, n - 1);
      RateAfterSnoc(Burst(max), n - 1);
      BurstStep(max, n - 1, RateAfter(Burst(max)[..n - 1]));
    }
  }

  lemma NothingYet(calls: seq<Call>, max: nat)
    ensures RateAfter(calls[..0]) == Rate(0, 0) && Insertions(calls, 0, 0, max) == 0
  {
    assert calls[..0] == [];
  }

  /** One call of the burst. */
  lemma BurstStep(max: nat, n: nat, r: Rate)
    requires 1 <= max && n < 2 * max < 0x1_0000_0000_0000_0000
    requires r == if n <= max then Rate(n, 0) else Rate(n - max, ONE_SEC + 1)
    ensures var c := Burst(max)[n];
            && c.eligible && !Flood(r, c.time, max)
            && Next(r, c.time) == if n + 1 <= max then Rate(n + 1, 0) else Rate(n + 1 - max, ONE_SEC + 1)
  {
  }

  lemma WindowBoundIsTight(max: nat)
    requires 1 <= max && 2 * max < 0x1_0000_0000_0000_0000
    ensures InOrder(Burst(max)) && Burst(max)[2 * max - 1].time - Burst(max)[0].time <= ONE_SEC
    ensures Insertions(Burst(max), 0, 2 * max, max) == 2 * max
  {
    BurstCounts(max, 2 * max);
  }
}
