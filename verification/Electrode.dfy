/** The in-kernel fast path of the consensus protocol as a distributed system: one
    leader with its quorum table, the followers' Prepare handlers, and a network that
    may lose, duplicate and reorder every message. */
module Electrode {
  import opened Bytes
  import opened Words
  import opened QuorumTable

  // ----- the follower's decision -----------------------------------------------------------

  datatype Status = Normal | ViewChange | Recovering

  /** The control state a follower keeps in its maps; `context` is the operation number
      that replies carry. */
  datatype FollowerState = FollowerState(status: Status, myIdx: u32, view: u64, lastOp: u64, context: u64)

  datatype Prepare = Prepare(view: u32, lastOp: u32, batchStart: u32)

  datatype Decision = DropIt | PassItUp | Resend | Accept

  function Decide(s: FollowerState, m: Prepare): (d: Decision)
  {
    if s.status != Normal then DropIt
    else if m.view < s.view then DropIt
    else if m.view > s.view then PassItUp
    else if m.lastOp <= s.lastOp then Resend
    else if m.batchStart > s.lastOp + 1 then PassItUp
    else Accept
  }

  function AfterPrepare(s: FollowerState, m: Prepare): (r: FollowerState)
  {
    if Decide(s, m) == Accept then s.(lastOp := m.lastOp, context := m.lastOp) else s
  }

  function Low32(v: u64): (r: u32)
  {
    v % 0x1_0000_0000
  }

  datatype AckMsg = AckMsg(key: Key, replica: u32)

  /** The three words a reply carries. */
  function Reply(s: FollowerState): (a: AckMsg)
  {
    AckMsg(Key(Low32(s.view), Low32(s.context)), s.myIdx)
  }

  /** A Prepare that extends what the follower has, in the follower's own view and outside
      view changes and recovery. */
  predicate Extends(s: FollowerState, m: Prepare) {
    s.status == Normal && m.view == s.view && m.lastOp > s.lastOp && m.batchStart <= s.lastOp + 1
  }

  /** A Prepare of the follower's view that it has had already. */
  predicate Repeats(s: FollowerState, m: Prepare) {
    s.status == Normal && m.view == s.view && m.lastOp <= s.lastOp
  }

  // ----- the system ----------------------------------------------------------------------------

  /** The replica indices below n. */
  function Below(n: nat): (s: set<nat>)
    ensures forall i: nat :: i in s <==> i < n
  {
    if n == 0 then {} else Below(n - 1) + {n - 1}
  }

  datatype Config = Config(clusterSize: nat, leader: nat, startView: u32) {
    predicate Valid() {
      clusterSize % 2 == 1 && 3 <= clusterSize <= 31 && leader < clusterSize
    }

    function Followers(): (s: set<nat>) {
      Below(clusterSize) - {leader}
    }
  }

  datatype Batch = Batch(view: u32, start: u32, last: u32)

  /** A follower and, for the record, the batches it has accepted. */
  datatype Replica = Replica(state: FollowerState, accepted: seq<Batch>)

  /** `prepares` and `acks` are everything ever sent: the network may deliver any of it
      any number of times, in any order, or never.  `quorums` records the operations
      whose completing ack the leader passed up. */
  datatype System = System(replicas: map<nat, Replica>, table: Table,
                           prepares: set<Prepare>, acks: set<AckMsg>, quorums: set<Key>)

  /** `replied` is whether a resend or acceptance got as far as transmitting its reply: a
      full ring buffer or an unsuitable packet length ends the handler chain early.
      InstallView is user space changing a follower's status and raising its view. */
  datatype Step =
    | SendPrepare(m: Prepare)
    | DeliverPrepare(i: nat, m: Prepare, replied: bool)
    | DeliverAck(a: AckMsg)
    | InstallView(i: nat, status: Status, view: u64)

  function Init(c: Config): (s: System)
  {
    System(map i | i in c.Followers() :: Replica(FollowerState(Normal, AsIndex(i), c.startView, 0, 0), []),
           ZeroedTable(), {}, {}, {})
  }

  function AsIndex(i: nat): u32 {
    i % 0x1_0000_0000
  }

  predicate Enabled(s: System, step: Step) {
    match step
    case SendPrepare(m) => true
    case DeliverPrepare(i, m, replied) => i in s.replicas && m in s.prepares
    case DeliverAck(a) => a in s.acks
    case InstallView(i, st, v) => i in s.replicas && v >= s.replicas[i].state.view
  }

  function Apply(c: Config, s: System, step: Step): (r: System)
    requires Enabled(s, step)
  {
    match step
    case SendPrepare(m) =>
      s.(prepares := s.prepares + {m}, table := Opened(s.table, Key(m.view, m.lastOp)))
    case DeliverPrepare(i, m, replied) =>
      var d, r := Decide(s.replicas[i].state, m), Received(s.replicas[i], m);
      s.(replicas := s.replicas[i := r],
         acks := if d in {Resend, Accept} && replied then s.acks + {Reply(r.state)} else s.acks)
    case DeliverAck(a) =>
      s.(table := Acked(s.table, a.key, a.replica),
         quorums := if AckVerdict(s.table, a.key, a.replica, c.clusterSize) == Pass(true)
                    then s.quorums + {a.key} else s.quorums)
    case InstallView(i, st, v) =>
      s.(replicas := s.replicas[i := s.replicas[i].(state := s.replicas[i].state.(status := st, view := v))])
  }

  function Received(r: Replica, m: Prepare): (r': Replica)
  {
    Replica(AfterPrepare(r.state, m),
            if Decide(r.state, m) == Accept then r.accepted + [Batch(m.view, m.batchStart, m.lastOp)] else r.accepted)
  }

  /** The states of a run: each step enabled where it is taken. */
  ghost predicate IsRun(c: Config, steps: seq<Step>)
    decreases |steps|, 0
  {
    steps == [] ||
    (var last := |steps| - 1;
     IsRun(c, steps[..last]) && Enabled(After(c, steps[..last]), steps[last]))
  }

  ghost function After(c: Config, steps: seq<Step>): (s: System)
    requires IsRun(c, steps)
    decreases |steps|, 1
  {
    if steps == [] then Init(c)
    else
      var last := |steps| - 1;
      Apply(c, After(c, steps[..last]), steps[last])
  }

  // ----- what every step keeps ---------------------------------------------------------------------

  predicate Covers(batches: seq<Batch>, x: int) {
    exists i :: 0 <= i < |batches| && batches[i].start <= x <= batches[i].last
  }

  /** Every operation from 1 up to `op` lies in some accepted batch. */
  ghost predicate NoGapUpTo(batches: seq<Batch>, op: int) {
    forall x :: 1 <= x <= op ==> Covers(batches, x)
  }

  /** Some batch ending exactly at `op` was accepted in a view no later than `view`. */
  predicate AcceptedBy(batches: seq<Batch>, op: int, view: int) {
    exists i :: 0 <= i < |batches| && batches[i].last == op && batches[i].view <= view
  }

  ghost predicate ReplicaOk(i: nat, r: Replica) {
    && r.state.myIdx == i
    && r.state.context == r.state.lastOp < 0x1_0000_0000
    && NoGapUpTo(r.accepted, r.state.lastOp)
    && (r.state.lastOp > 0 ==> AcceptedBy(r.accepted, r.state.lastOp, r.state.view))
  }

  ghost predicate AckOk(s: System, a: AckMsg) {
    && a.replica in s.replicas
    && var r := s.replicas[a.replica];
       && a.key.op <= r.state.lastOp
       && a.key.view <= r.state.view
       && (a.key.op > 0 ==> AcceptedBy(r.accepted, a.key.op, a.key.view))
  }

  predicate TableOk(t: Table, acks: set<AckMsg>) {
    forall i, r :: 0 <= i < SLOTS && 0 <= r < BITSET_WIDTH && t[i].bitset[r] ==> AckMsg(t[i].key, r) in acks
  }

  function Ackers(acks: set<AckMsg>, k: Key): (s: set<nat>)
  {
    set a | a in acks && a.key == k :: a.replica
  }

  ghost predicate Inv(c: Config, s: System) {
    && s.replicas.Keys == c.Followers()
    && (forall i :: i in s.replicas ==> ReplicaOk(i, s.replicas[i]))
    && (forall a :: a in s.acks ==> AckOk(s, a))
    && TableOk(s.table, s.acks)
    && (forall k :: k in s.quorums ==> |Ackers(s.acks, k)| >= QuorumSize(c.clusterSize) - 1)
  }

  /** Replicas only move forward: their operation number grows and nothing accepted is lost. */
  ghost predicate Grew(r: Replica, r': Replica) {
    && r.state.lastOp <= r'.state.lastOp
    && r.state.view <= r'.state.view
    && |r.accepted| <= |r'.accepted| && r'.accepted[..|r.accepted|] == r.accepted
  }

  lemma GrewKeeps(r: Replica, r': Replica, op: int, view: int)
    requires Grew(r, r')
    ensures NoGapUpTo(r.accepted, op) ==> NoGapUpTo(r'.accepted, op)
    ensures AcceptedBy(r.accepted, op, view) ==> AcceptedBy(r'.accepted, op, view)
  {
    forall x | Covers(r.accepted, x)
      ensures Covers(r'.accepted, x)
    {
      var i :| 0 <= i < |r.accepted| && r.accepted[i].start <= x <= r.accepted[i].last;
      assert r'.accepted[i] == r.accepted[i];
    }
    if AcceptedBy(r.accepted, op, view) {
      var i :| 0 <= i < |r.accepted| && r.accepted[i].last == op && r.accepted[i].view <= view;
      assert r'.accepted[i] == r.accepted[i];
    }
  }

  /** A Prepare is accepted only when it leaves no gap. */
  lemma ReceivedOk(i: nat, r: Replica, m: Prepare)
    requires ReplicaOk(i, r)
    ensures ReplicaOk(i, Received(r, m)) && Grew(r, Received(r, m))
  {
    var r' := Received(r, m);
    if Decide(r.state, m) == Accept {
      var n := |r.accepted|;
      assert r'.accepted[n] == Batch(m.view, m.batchStart, m.lastOp);
      GrewKeeps(r, r', r.state.lastOp, r.state.view);
      forall x | 1 <= x <= r'.state.lastOp
        ensures Covers(r'.accepted, x)
      {
        if x > r.state.lastOp {
          assert r'.accepted[n].start <= x <= r'.accepted[n].last;
        }
      }
    }
  }

  lemma AcksSurvive(s: System, s': System, acks: set<AckMsg>)
    requires s.replicas.Keys == s'.replicas.Keys
    requires forall i :: i in s.replicas ==> Grew(s.replicas[i], s'.replicas[i])
    requires forall a :: a in acks ==> AckOk(s, a)
    ensures forall a :: a in acks ==> AckOk(s', a)
  {
    forall a | a in acks
      ensures AckOk(s', a)
    {
      GrewKeeps(s.replicas[a.replica], s'.replicas[a.replica], a.key.op, a.key.view);
    }
  }

  lemma AckersGrow(acks: set<AckMsg>, acks': set<AckMsg>, k: Key)
    requires acks <= acks'
    ensures Ackers(acks, k) <= Ackers(acks', k) && |Ackers(acks, k)| <= |Ackers(acks', k)|
  {
    SubsetSize(Ackers(acks, k), Ackers(acks', k));
  }

  lemma SubsetSize<T>(a: set<T>, b: set<T>)
    requires a <= b
    ensures |a| <= |b|
  {
    assert b == a + (b - a);
  }

  lemma DeliverPrepareKeeps(c: Config, s: System, i: nat, m: Prepare, replied: bool)
    requires c.Valid() && Inv(c, s) && Enabled(s, DeliverPrepare(i, m, replied))
    ensures Inv(c, Apply(c, s, DeliverPrepare(i, m, replied)))
  {
    hide NoGapUpTo, AcceptedBy, QuorumSize, Ackers, TableOk;
    var s' := Apply(c, s, DeliverPrepare(i, m, replied));
    var r' := Received(s.replicas[i], m);
    ReceivedOk(i, s.replicas[i], m);
    AcksSurvive(s, s', s.acks);
    TableKept(s.table, s.acks, s'.acks);
    if Decide(s.replicas[i].state, m) in {Resend, Accept} && replied {
      assert Reply(r'.state).key == Key(r'.state.view, r'.state.lastOp);
      assert AckOk(s', Reply(r'.state));
    }
    forall k | k in s'.quorums
      ensures |Ackers(s'.acks, k)| >= QuorumSize(c.clusterSize) - 1
    {
      AckersGrow(s.acks, s'.acks, k);
    }
  }

  lemma TableKept(t: Table, acks: set<AckMsg>, acks': set<AckMsg>)
    requires TableOk(t, acks) && acks <= acks'
    ensures TableOk(t, acks')
  {
  }

  /** What delivering a Prepare does, for each follower and message: a batch is recorded, and
      the operation number moves, only for one that extends the log; an ack is sent only for
      one that extends or repeats it; everything else leaves the whole system as it was. */
  lemma PrepareStep(c: Config, s: System, i: nat, m: Prepare, replied: bool)
    requires Enabled(s, DeliverPrepare(i, m, replied))
    ensures var r, s' := s.replicas[i], Apply(c, s, DeliverPrepare(i, m, replied));
            && s'.replicas == s.replicas[i := if Extends(r.state, m)
                                              then Replica(r.state.(lastOp := m.lastOp, context := m.lastOp),
                                                           r.accepted + [Batch(m.view, m.batchStart, m.lastOp)])
                                              else r]
            && s'.acks == (if (Extends(r.state, m) || Repeats(r.state, m)) && replied
                           then s.acks + {Reply(s'.replicas[i].state)} else s.acks)
            && s' == s.(replicas := s'.replicas, acks := s'.acks)
  {
  }

  /** In every run a follower that is changing views or recovering ignores Prepares: the
      step changes nothing at all. */
  lemma OnlyNormalFollowersAct(c: Config, steps: seq<Step>, n: nat)
    requires n < |steps| && IsRun(c, steps[..n]) && IsRun(c, steps[..n + 1]) && steps[n].DeliverPrepare?
    requires steps[n].i in After(c, steps[..n]).replicas
    requires var s := After(c, steps[..n]).replicas[steps[n].i].state;
             s.status != Normal || steps[n].m.view != s.view
    ensures After(c, steps[..n + 1]) == After(c, steps[..n])
  {
    assert steps[..n + 1][..n] == steps[..n];
    var s := After(c, steps[..n]);
    PrepareStep(c, s, steps[n].i, steps[n].m, steps[n].replied);
    assert s.replicas[steps[n].i := s.replicas[steps[n].i]] == s.replicas;
  }

  lemma DeliverAckKeeps(c: Config, s: System, a: AckMsg)
    requires c.Valid() && Inv(c, s) && Enabled(s, DeliverAck(a))
    ensures Inv(c, Apply(c, s, DeliverAck(a)))
  {
    var s' := Apply(c, s, DeliverAck(a));
    assert a.replica < BITSET_WIDTH by { assert AckOk(s, a); }
    TableAcked(s.table, s.acks, a);
    if AckVerdict(s.table, a.key, a.replica, c.clusterSize) == Pass(true) {
      CountedAcks(s'.table, s.acks, a.key);
    }
    assert forall b :: b in s'.acks ==> AckOk(s, b) && AckOk(s', b);
  }

  lemma TableAcked(t: Table, acks: set<AckMsg>, a: AckMsg)
    requires TableOk(t, acks) && a in acks && a.replica < BITSET_WIDTH
    ensures TableOk(Acked(t, a.key, a.replica), acks)
  {
  }

  /** The bits of a slot count distinct replicas that acked its key. */
  lemma CountedAcks(t: Table, acks: set<AckMsg>, k: Key)
    requires TableOk(t, acks) && Holds(t, k)
    ensures PopCount(t[Slot(k)].bitset) <= |Ackers(acks, k)|
  {
    var bits := t[Slot(k)].bitset;
    PopCountIsCardinality(bits);
    forall r | r in Ones(bits)
      ensures r in Ackers(acks, k)
    {
      assert AckMsg(t[Slot(k)].key, r) in acks;
    }
    SubsetSize(Ones(bits), Ackers(acks, k));
  }

  lemma StepKeeps(c: Config, s: System, step: Step)
    requires c.Valid() && Inv(c, s) && Enabled(s, step)
    ensures Inv(c, Apply(c, s, step))
    ensures forall i :: i in s.replicas ==> Grew(s.replicas[i], Apply(c, s, step).replicas[i])
    ensures s.acks <= Apply(c, s, step).acks && s.quorums <= Apply(c, s, step).quorums
  {
    var s' := Apply(c, s, step);
    match step
    case SendPrepare(m) =>
      assert TableOk(s'.table, s'.acks);
      assert forall a :: a in s'.acks ==> AckOk(s, a) && AckOk(s', a);
    case DeliverPrepare(i, m, replied) =>
      DeliverPrepareKeeps(c, s, i, m, replied);
      ReceivedOk(i, s.replicas[i], m);
    case DeliverAck(a) =>
      DeliverAckKeeps(c, s, a);
    case InstallView(i, st, v) =>
      AcksSurvive(s, s', s.acks);
      InstallViewOk(i, s.replicas[i], st, v);
  }

  lemma InstallViewOk(i: nat, r: Replica, st: Status, v: u64)
    requires ReplicaOk(i, r) && v >= r.state.view
    ensures ReplicaOk(i, r.(state := r.state.(status := st, view := v)))
  {
    if r.state.lastOp > 0 {
      var j :| 0 <= j < |r.accepted| && r.accepted[j].last == r.state.lastOp && r.accepted[j].view <= r.state.view;
      assert r.accepted[j].view <= v;
    }
  }

  lemma InitOk(c: Config)
    requires c.Valid()
    ensures Inv(c, Init(c))
  {
    assert forall i :: i in c.Followers() ==> AsIndex(i) == i;
  }

  /** The invariant holds in every state of every run. */
  lemma {:induction false} RunKeeps(c: Config, steps: seq<Step>)
    requires c.Valid() && IsRun(c, steps)
    ensures Inv(c, After(c, steps))
  {
    if steps == [] {
      InitOk(c);
    } else {
      var last := |steps| - 1;
      RunKeeps(c, steps[..last]);
      StepKeeps(c, After(c, steps[..last]), steps[last]);
    }
  }

  lemma {:induction false} RunGrows(c: Config, steps: seq<Step>, n: nat)
    requires c.Valid() && IsRun(c, steps) && n <= |steps|
    ensures IsRun(c, steps[..n])
    ensures After(c, steps[..n]).replicas.Keys == After(c, steps).replicas.Keys == c.Followers()
    ensures forall i :: i in c.Followers() ==> Grew(After(c, steps[..n]).replicas[i], After(c, steps).replicas[i])
  {
    RunKeeps(c, steps);
    if n == |steps| {
      assert steps[..n] == steps;
    } else {
      var last := |steps| - 1;
      assert steps[..last][..n] == steps[..n];
      RunGrows(c, steps[..last], n);
      RunKeeps(c, steps[..last]);
      StepKeeps(c, After(c, steps[..last]), steps[last]);
      GrewTransitive(After(c, steps[..n]).replicas, After(c, steps[..last]).replicas, After(c, steps).replicas);
    }
  }

  lemma GrewTransitive(a: map<nat, Replica>, b: map<nat, Replica>, d: map<nat, Replica>)
    requires a.Keys == b.Keys == d.Keys
    requires forall i :: i in a ==> Grew(a[i], b[i])
    requires forall i :: i in a ==> Grew(b[i], d[i])
    ensures forall i :: i in a ==> Grew(a[i], d[i])
  {
    forall i | i in a
      ensures Grew(a[i], d[i])
    {
      assert Grew(a[i], b[i]) && Grew(b[i], d[i]);
      assert d[i].accepted[..|a[i].accepted|] == b[i].accepted[..|a[i].accepted|];
    }
  }

  // ----- safety over whole runs -------------------------------------------------------------------

  /** Whenever the leader has passed up a quorum for (view, op) within the first n steps
      of a run, enough distinct followers have acked exactly that view and operation,
      and from then on each of them has it and everything before it, without a gap. */
  lemma {:induction false} QuorumIsDurable(c: Config, steps: seq<Step>, n: nat, k: Key)
    requires c.Valid() && IsRun(c, steps) && n <= |steps|
    requires IsRun(c, steps[..n]) && k in After(c, steps[..n]).quorums
    ensures var ackers := Ackers(After(c, steps[..n]).acks, k);
            && ackers <= c.Followers()
            && |ackers| >= QuorumSize(c.clusterSize) - 1
            && After(c, steps).replicas.Keys == c.Followers()
            && (forall i :: i in ackers ==>
                  var r := After(c, steps).replicas[i];
                  r.state.lastOp >= k.op && NoGapUpTo(r.accepted, k.op))
  {
    var s, s' := After(c, steps[..n]), After(c, steps);
    var ackers := Ackers(s.acks, k);
    RunKeeps(c, steps[..n]);
    RunGrows(c, steps, n);
    forall i | i in ackers
      ensures i in c.Followers()
      ensures s'.replicas[i].state.lastOp >= k.op && NoGapUpTo(s'.replicas[i].accepted, k.op)
    {
      var a :| a in s.acks && a.key == k && a.replica == i;
      assert AckOk(s, a) && ReplicaOk(i, s.replicas[i]);
      assert NoGapUpTo(s.replicas[i].accepted, k.op);
      GrewKeeps(s.replicas[i], s'.replicas[i], k.op, k.view);
    }
  }

  /** Every majority of the cluster, at any later time, contains the leader or a follower
      that holds the operation and everything before it. */
  lemma EveryMajorityKnows(c: Config, steps: seq<Step>, n: nat, k: Key, majority: set<nat>)
    requires c.Valid() && IsRun(c, steps) && n <= |steps|
    requires IsRun(c, steps[..n]) && k in After(c, steps[..n]).quorums
    requires (forall i :: i in majority ==> i < c.clusterSize) && |majority| >= QuorumSize(c.clusterSize)
    ensures After(c, steps).replicas.Keys == c.Followers()
    ensures c.leader in majority ||
            exists i :: i in majority && i in c.Followers() &&
                        After(c, steps).replicas[i].state.lastOp >= k.op &&
                        NoGapUpTo(After(c, steps).replicas[i].accepted, k.op)
  {
    QuorumIsDurable(c, steps, n, k);
    var quorum := Ackers(After(c, steps[..n]).acks, k) + {c.leader};
    QuorumsIntersect(c.clusterSize, majority, quorum);
    var i :| i in majority && i in quorum;
    if i != c.leader {
      assert i in c.Followers();
    }
  }

  lemma {:induction false} BelowSize(n: nat)
    ensures |Below(n)| == n
  {
    if n != 0 {
      BelowSize(n - 1);
    }
  }

  lemma QuorumsIntersect(n: nat, a: set<nat>, b: set<nat>)
    requires n % 2 == 1
    requires a <= Below(n) && b <= Below(n)
    requires |a| >= QuorumSize(n) && |b| >= QuorumSize(n)
    ensures exists i :: i in a && i in b
  {
    hide Below;
    BelowSize(n);
    SubsetSize(a + b, Below(n));
    assert |a + b| + |a * b| == |a| + |b|;
    assert a * b != {};
    var i :| i in a * b;
  }

  /** Quorums of this size intersect exactly when the cluster size is odd. */
  lemma QuorumsIntersectIffOdd(n: nat)
    requires n >= 1
    ensures (forall a: set<nat>, b: set<nat> ::
               a <= Below(n) && b <= Below(n) && |a| >= QuorumSize(n) && |b| >= QuorumSize(n) ==> a * b != {})
            <==> n % 2 == 1
  {
    if n % 2 == 1 {
      forall a: set<nat>, b: set<nat> | a <= Below(n) && b <= Below(n) && |a| >= QuorumSize(n) && |b| >= QuorumSize(n)
        ensures a * b != {}
      {
        QuorumsIntersect(n, a, b);
        var i :| i in a && i in b;
        assert i in a * b;
      }
    } else {
      var a, b := Below(n / 2), Below(n) - Below(n / 2);
      BelowSize(n);
      BelowSize(n / 2);
      assert Below(n) == a + b;
      assert |a + b| == |a| + |b|;
      assert a * b == {};
    }
  }

  // ----- which view an ack speaks for -----------------------------------------------------------------

  /** An ack for (view, op) comes from a follower that accepted a batch ending at op in
      that view or an earlier one. */
  lemma AckWasAccepted(c: Config, steps: seq<Step>, a: AckMsg)
    requires c.Valid() && IsRun(c, steps) && a in After(c, steps).acks
    ensures a.replica in After(c, steps).replicas
    ensures a.key.op > 0 ==> AcceptedBy(After(c, steps).replicas[a.replica].accepted, a.key.op, a.key.view)
  {
    RunKeeps(c, steps);
    assert AckOk(After(c, steps), a);
  }

  predicate NoViewChange(steps: seq<Step>) {
    forall i :: 0 <= i < |steps| ==> !steps[i].InstallView?
  }

  predicate SteadyReplica(r: Replica, view: u32) {
    r.state.view == view && forall j :: 0 <= j < |r.accepted| ==> r.accepted[j].view == view
  }

  predicate Steady(s: System, view: u32) {
    && (forall a :: a in s.acks ==> a.key.view == view)
    && (forall i :: i in s.replicas ==> SteadyReplica(s.replicas[i], view))
  }

  /** Without view changes every batch and every ack belongs to the one view. */
  lemma {:induction false} SteadyView(c: Config, steps: seq<Step>)
    requires c.Valid() && IsRun(c, steps) && NoViewChange(steps)
    ensures Steady(After(c, steps), c.startView)
  {
    if steps != [] {
      var last := |steps| - 1;
      SteadyView(c, steps[..last]);
      assert !steps[last].InstallView?;
      assert After(c, steps) == Apply(c, After(c, steps[..last]), steps[last]);
      SteadyStep(c, After(c, steps[..last]), steps[last]);
    }
  }

  lemma SteadyStep(c: Config, s: System, step: Step)
    requires Steady(s, c.startView) && Enabled(s, step) && !step.InstallView?
    ensures Steady(Apply(c, s, step), c.startView)
  {
    if step.DeliverPrepare? {
      var r, r' := s.replicas[step.i], Received(s.replicas[step.i], step.m);
      assert SteadyReplica(r, c.startView);
      assert SteadyReplica(r', c.startView);
      assert Apply(c, s, step).replicas == s.replicas[step.i := r'];
    }
  }

  /** The batches a follower has accepted end later and later, the last one at its
      operation number, and none was accepted in a view it has yet to reach. */
  ghost predicate Ordered(r: Replica) {
    && (forall j, k :: 0 <= j < k < |r.accepted| ==> r.accepted[j].last < r.accepted[k].last)
    && (forall j :: 0 <= j < |r.accepted| ==> 0 < r.accepted[j].last <= r.state.lastOp && r.accepted[j].view <= r.state.view)
    && (r.accepted == [] ==> r.state.lastOp == 0)
    && (r.accepted != [] ==> r.accepted[|r.accepted| - 1].last == r.state.lastOp)
  }

  /** A batch ending at `op` was accepted in exactly this view. */
  predicate AcceptedIn(batches: seq<Batch>, op: int, view: int) {
    exists j :: 0 <= j < |batches| && batches[j].last == op && batches[j].view == view
  }

  /** Follower i has accepted a batch, and user space has not raised its view since. */
  ghost predicate NotRaisedSince(c: Config, steps: seq<Step>, i: nat)
    requires IsRun(c, steps)
  {
    steps != [] &&
    var last := |steps| - 1;
    var s, step := After(c, steps[..last]), steps[last];
    if step.DeliverPrepare? && step.i == i && Decide(s.replicas[i].state, step.m) == Accept then true
    else if step.InstallView? && step.i == i && step.view > s.replicas[i].state.view then false
    else NotRaisedSince(c, steps[..last], i)
  }

  /** In an ordered log the batch that ends at the operation number is the last one. */
  lemma CurrentIsLast(r: Replica)
    requires Ordered(r)
    ensures AcceptedIn(r.accepted, r.state.lastOp, r.state.view) <==>
            r.accepted != [] && r.accepted[|r.accepted| - 1].view == r.state.view
  {
  }

  /** The exact condition: in every run, a follower holds a batch that ends at its operation
      number and was accepted in its current view if and only if it has accepted a batch and
      its view was not raised since. */
  lemma {:induction false} AcceptedInCurrentViewIff(c: Config, steps: seq<Step>, i: nat)
    requires c.Valid() && IsRun(c, steps) && i in c.Followers()
    ensures i in After(c, steps).replicas && Ordered(After(c, steps).replicas[i])
    ensures var r := After(c, steps).replicas[i];
            AcceptedIn(r.accepted, r.state.lastOp, r.state.view) <==> NotRaisedSince(c, steps, i)
  {
    if steps != [] {
      var last := |steps| - 1;
      AcceptedInCurrentViewIff(c, steps[..last], i);
      CurrentStep(c, After(c, steps[..last]), steps[last], i);
      CurrentIsLast(After(c, steps[..last]).replicas[i]);
      CurrentIsLast(After(c, steps).replicas[i]);
    }
  }

  lemma CurrentStep(c: Config, s: System, step: Step, i: nat)
    requires Enabled(s, step) && i in s.replicas && Ordered(s.replicas[i])
    ensures var r, r' := s.replicas[i], Apply(c, s, step).replicas[i];
            && Ordered(r')
            && (step.DeliverPrepare? && step.i == i && Decide(r.state, step.m) == Accept ==>
                  r'.accepted != [] && r'.accepted[|r'.accepted| - 1].view == r'.state.view)
            && (!(step.DeliverPrepare? && step.i == i && Decide(r.state, step.m) == Accept) ==>
                  r'.accepted == r.accepted &&
                  r'.state.view == if step.InstallView? && step.i == i then step.view else r.state.view)
  {
  }

  /** Step n of a run sends an ack. */
  ghost predicate Replies(c: Config, steps: seq<Step>, n: nat)
    requires n < |steps| && IsRun(c, steps[..n])
  {
    && steps[n].DeliverPrepare? && steps[n].replied && steps[n].i in After(c, steps[..n]).replicas
    && Decide(After(c, steps[..n]).replicas[steps[n].i].state, steps[n].m) in {Resend, Accept}
  }

  /** The ack a replying step sends speaks for its own view, in the sense that its sender has
      accepted a batch ending at that operation in that view, then or at any later time, if
      and only if the sender's view had not been raised since the last batch it accepted. */
  lemma AckSpeaksForItsViewIff(c: Config, steps: seq<Step>, n: nat)
    requires c.Valid() && IsRun(c, steps) && n < |steps|
    requires IsRun(c, steps[..n]) && IsRun(c, steps[..n + 1]) && Replies(c, steps, n)
    ensures var i := steps[n].i;
            && i in After(c, steps[..n + 1]).replicas && i in After(c, steps).replicas
            && var a := Reply(After(c, steps[..n + 1]).replicas[i].state);
               && a in After(c, steps[..n + 1]).acks
               && (AcceptedIn(After(c, steps).replicas[i].accepted, a.key.op, a.key.view) <==>
                   NotRaisedSince(c, steps[..n + 1], i))
  {
    hide Inv, Ordered, Apply, Reply, AcceptedIn;
    var i, s := steps[n].i, After(c, steps[..n]);
    assert steps[..n + 1][..n] == steps[..n];
    RunKeeps(c, steps[..n]);
    RunGrows(c, steps, n + 1);
    ReplyKey(c, s, steps[n]);
    AcceptedInCurrentViewIff(c, steps[..n + 1], i);
    AcceptedInCurrentViewIff(c, steps, i);
    SameBatch(After(c, steps[..n + 1]).replicas[i], After(c, steps).replicas[i]);
  }

  lemma ReplyKey(c: Config, s: System, step: Step)
    requires Inv(c, s) && Enabled(s, step) && step.DeliverPrepare? && step.replied
    requires Decide(s.replicas[step.i].state, step.m) in {Resend, Accept}
    ensures var s' := Apply(c, s, step);
            var state := s'.replicas[step.i].state;
            && Reply(state) in s'.acks
            && Reply(state).key.view == state.view && Reply(state).key.op == state.lastOp
  {
    assert ReplicaOk(step.i, s.replicas[step.i]);
  }

  /** A batch accepted later ends later. */
  lemma SameBatch(r: Replica, r': Replica)
    requires Ordered(r) && Ordered(r') && Grew(r, r')
    ensures AcceptedIn(r'.accepted, r.state.lastOp, r.state.view) <==> AcceptedIn(r.accepted, r.state.lastOp, r.state.view)
  {
    var n := |r.accepted|;
    assert forall j :: 0 <= j < n ==> r'.accepted[j] == r.accepted[j];
  }

  const EXAMPLE := Config(3, 0, 1)
  const IN_VIEW_1 := Prepare(1, 1, 1)
  const IN_VIEW_2 := Prepare(2, 1, 1)
  const EXAMPLE_START := [SendPrepare(IN_VIEW_1), DeliverPrepare(1, IN_VIEW_1, true), InstallView(1, Normal, 2)]
  const EXAMPLE_END :=
    [SendPrepare(IN_VIEW_2), DeliverPrepare(1, IN_VIEW_2, true), DeliverAck(AckMsg(Key(2, 1), 1))]

  /** Follower 1 has accepted operation 1 in view 1 and moved on to view 2. */
  predicate MovedOn(s: System) {
    && s.replicas == map[1 := Replica(FollowerState(Normal, 1, 2, 1, 1), [Batch(1, 1, 1)]),
                         2 := Replica(FollowerState(Normal, 2, 1, 0, 0), [])]
    && s.table[1] == Entry(Key(1, 1), Zeros(BITSET_WIDTH))
  }

  lemma ExampleStart()
    ensures IsRun(EXAMPLE, EXAMPLE_START) && MovedOn(After(EXAMPLE, EXAMPLE_START))
  {
    var c, p := EXAMPLE, EXAMPLE_START;
    var s0 := Init(c);
    assert Below(3) == {0, 1, 2};
    assert s0.replicas.Keys == {1, 2};
    RunSnoc(c, [], p[0]);
    assert s0.replicas[1] == Replica(FollowerState(Normal, 1, 1, 0, 0), []);
    assert Received(s0.replicas[1], IN_VIEW_1) ==
           Replica(FollowerState(Normal, 1, 1, 1, 1), [Batch(1, 1, 1)]);
    assert [] + [p[0]] == p[..1];
    RunSnoc(c, p[..1], p[1]);
    assert p[..1] + [p[1]] == p[..2];
    RunSnoc(c, p[..2], p[2]);
    assert p[..2] + [p[2]] == p;
    var r := After(c, p).replicas;
    assert r.Keys == {1, 2};
    assert r[1] == Replica(FollowerState(Normal, 1, 2, 1, 1), [Batch(1, 1, 1)]);
  }

  /** With a view change it can be an earlier view: a run in which the leader passes up a
      quorum for view 2 although no follower ever accepted anything in view 2. */
  lemma QuorumFromAnEarlierView()
    ensures EXAMPLE.Valid() && IsRun(EXAMPLE, EXAMPLE_START + EXAMPLE_END)
    ensures Key(2, 1) in After(EXAMPLE, EXAMPLE_START + EXAMPLE_END).quorums
    ensures forall i :: i in After(EXAMPLE, EXAMPLE_START + EXAMPLE_END).replicas ==>
              forall b :: b in After(EXAMPLE, EXAMPLE_START + EXAMPLE_END).replicas[i].accepted ==> b.view == 1
  {
    hide AckVerdict, PopCount, Acked, Below, ZeroedTable;
    var c, p, q := EXAMPLE, EXAMPLE_START, EXAMPLE_END;
    ExampleStart();
    var s3 := After(c, p);
    RunSnoc(c, p, q[0]);
    var s4 := Apply(c, s3, q[0]);
    assert s4.table[1] == Entry(Key(2, 1), Zeros(BITSET_WIDTH));
    RunSnoc(c, p + [q[0]], q[1]);
    var s5 := Apply(c, s4, q[1]);
    assert AckMsg(Key(2, 1), 1) in s5.acks;
    RunSnoc(c, p + [q[0]] + [q[1]], q[2]);
    assert p + [q[0]] + [q[1]] + [q[2]] == p + q;
    FirstAckCompletes(s5.table);
  }

  /** In a cluster of three a single follower completes the quorum. */
  lemma FirstAckCompletes(t: Table)
    requires t[1] == Entry(Key(2, 1), Zeros(BITSET_WIDTH))
    ensures AckVerdict(t, Key(2, 1), 1, 3) == Pass(true)
  {
    var bits := Acked(t, Key(2, 1), 1)[1].bitset;
    PopCountIsCardinality(bits);
    assert Ones(bits) == {1};
  }

  lemma RunSnoc(c: Config, steps: seq<Step>, step: Step)
    requires IsRun(c, steps) && Enabled(After(c, steps), step)
    ensures IsRun(c, steps + [step]) && After(c, steps + [step]) == Apply(c, After(c, steps), step)
  {
    assert (steps + [step])[..|steps|] == steps;
  }
}
