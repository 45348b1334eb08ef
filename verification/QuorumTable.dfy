/** The leader's quorum table: 1024 direct-mapped slots, one per operation number
    modulo 1024, each holding the view and operation it counts for and a bit set of
    the replicas heard from.  Its meaning is given over whole event traces. */
module QuorumTable {
  import opened Bytes
  import opened Words

  const SLOTS := 1024
  const BITSET_WIDTH := 32

  datatype Key = Key(view: u32, op: u32)
  datatype Entry = Entry(key: Key, bitset: Word)

  /** `Pass` hands the packet to user space; only the pass of a completed quorum moves
      the packet head back to the start of the frame. */
  datatype Verdict = Pass(headRestored: bool) | Drop

  type Table = t: seq<Entry> | TableShape(t) witness ZeroedTable()

  predicate TableShape(t: seq<Entry>) {
    |t| == SLOTS && forall i :: 0 <= i < SLOTS ==> |t[i].bitset| == BITSET_WIDTH
  }

  /** A freshly created array map reads as zero in every field. */
  function ZeroedTable(): (t: seq<Entry>)
    ensures TableShape(t)
  {
    seq(SLOTS, i => Entry(Key(0, 0), Zeros(BITSET_WIDTH)))
  }

  function Slot(k: Key): (i: nat)
    ensures i < SLOTS
  {
    k.op % SLOTS
  }

  function QuorumSize(clusterSize: nat): (q: nat)
  {
    (clusterSize + 1) / 2
  }

  predicate Holds(t: Table, k: Key) {
    t[Slot(k)].key == k
  }

  /** Sending a Prepare for `k` claims its slot unless `k` has it already. */
  function Opened(t: Table, k: Key): (r: Table)
  {
    if Holds(t, k) then t else t[Slot(k) := Entry(k, Zeros(BITSET_WIDTH))]
  }

  function WithBit(w: Word, i: nat): (r: Word)
    requires i < |w|
    ensures |r| == |w| && Ones(r) == Ones(w) + {i}
  {
    w[i := true]
  }

  /** Receiving a PrepareOK for `k` from a replica; the shift count wraps at 32. */
  function Acked(t: Table, k: Key, replica: u32): (r: Table)
  {
    if Holds(t, k) then t[Slot(k) := Entry(k, WithBit(t[Slot(k)].bitset, replica % BITSET_WIDTH))] else t
  }

  function AckVerdict(t: Table, k: Key, replica: u32, clusterSize: nat): (v: Verdict)
  {
    if !Holds(t, k) then Pass(false)
    else if PopCount(Acked(t, k, replica)[Slot(k)].bitset) != QuorumSize(clusterSize) - 1 then Drop
    else Pass(true)
  }

  class Leader {
    const clusterSize: nat
    var table: array<Entry>

    ghost predicate Valid()
      reads this, table
    {
      TableShape(table[..])
    }

    constructor (clusterSize: nat)
      ensures Valid() && fresh(table) && table[..] == ZeroedTable() && this.clusterSize == clusterSize
    {
      this.clusterSize := clusterSize;
      table := new Entry[SLOTS](i => Entry(Key(0, 0), Zeros(BITSET_WIDTH)));
      new;
      assert table[..] == ZeroedTable();
    }

    /** The table part of the egress program. */
    method Open(view: u32, op: u32)
      requires Valid()
      modifies table
      ensures Valid() && table[..] == Opened(old(table[..]), Key(view, op))
    {
      var idx := op % SLOTS;
      var entry := table[idx];
      if entry.key.view != view || entry.key.op != op {
        table[idx] := Entry(Key(view, op), Zeros(BITSET_WIDTH));
      }
      assert table[..] == Opened(old(table[..]), Key(view, op));
    }

    /** The PrepareOK handler once its three words are parsed. */
    method HandlePrepareOK(view: u32, op: u32, replica: u32) returns (verdict: Verdict)
      requires Valid()
      modifies table
      ensures Valid() && table[..] == Acked(old(table[..]), Key(view, op), replica)
      ensures verdict == AckVerdict(old(table[..]), Key(view, op), replica, clusterSize)
    {
      var idx := op % SLOTS;
      var entry := table[idx];
      if entry.key.view != view || entry.key.op != op {
        return Pass(false);
      }
      var bits := WithBit(entry.bitset, replica % BITSET_WIDTH);
      table[idx] := Entry(entry.key, bits);
      assert table[..] == Acked(old(table[..]), Key(view, op), replica);
      var count := PopCount(bits);
      if count != QuorumSize(clusterSize) - 1 {
        return Drop;
      }
      return Pass(true);
    }
  }

  // ----- the meaning of a trace ----------------------------------------------------------

  datatype Event = Open(key: Key) | Ack(key: Key, replica: u32)

  predicate KnownReplicas(trace: seq<Event>) {
    forall i :: 0 <= i < |trace| && trace[i].Ack? ==> trace[i].replica < BITSET_WIDTH
  }

  function Run(trace: seq<Event>): (t: Table)
  {
    if trace == [] then ZeroedTable()
    else
      var last := |trace| - 1;
      match trace[last]
      case Open(k) => Opened(Run(trace[..last]), k)
      case Ack(k, r) => Acked(Run(trace[..last]), k, r)
  }

  /** The key a slot belongs to: the last one opened in it. */
  function Holder(trace: seq<Event>, slot: nat): (k: Key)
  {
    if trace == [] then Key(0, 0)
    else
      var last := |trace| - 1;
      if trace[last].Open? && Slot(trace[last].key) == slot then trace[last].key
      else Holder(trace[..last], slot)
  }

  /** `k` has had its slot to itself from before event j to the end of the trace. */
  predicate HeldSince(trace: seq<Event>, k: Key, j: nat)
    requires j <= |trace|
  {
    forall l :: j <= l <= |trace| ==> Holder(trace[..l], Slot(k)) == k
  }

  /** The replicas that acked exactly (view, op) since the slot was opened for it. */
  function AckersSince(trace: seq<Event>, k: Key): (s: set<nat>)
  {
    set j: nat | j < |trace| && trace[j].Ack? && trace[j].key == k && HeldSince(trace, k, j) :: trace[j].replica
  }

  lemma {:induction false} HeldSinceSnoc(trace: seq<Event>, e: Event, k: Key, j: nat)
    requires j <= |trace|
    ensures HeldSince(trace + [e], k, j) <==> HeldSince(trace, k, j) && Holder(trace + [e], Slot(k)) == k
  {
    var longer := trace + [e];
    assert longer[..|longer|] == longer;
    forall l | j <= l <= |trace|
      ensures longer[..l] == trace[..l]
    {
    }
    if HeldSince(longer, k, j) {
      forall l | j <= l <= |trace|
        ensures Holder(trace[..l], Slot(k)) == k
      {
        assert Holder(longer[..l], Slot(k)) == k;
      }
      assert Holder(longer[..|longer|], Slot(k)) == k;
    }
    if HeldSince(trace, k, j) && Holder(longer, Slot(k)) == k {
      forall l | j <= l <= |longer|
        ensures Holder(longer[..l], Slot(k)) == k
      {
        if l <= |trace| { assert Holder(trace[..l], Slot(k)) == k; }
      }
    }
  }

  /** How one event changes the set of ackers. */
  lemma AckersSnoc(trace: seq<Event>, e: Event, k: Key)
    ensures var held := Holder(trace, Slot(k)) == k;
            var kept := Holder(trace + [e], Slot(k)) == k;
            AckersSince(trace + [e], k) ==
            if !held || !kept then {}
            else if e.Ack? && e.key == k then AckersSince(trace, k) + {e.replica}
            else AckersSince(trace, k)
  {
    var longer := trace + [e];
    assert longer[..|trace|] == trace && trace[..|trace|] == trace;
    forall j: nat | j <= |trace|
      ensures HeldSince(longer, k, j) <==> HeldSince(trace, k, j) && Holder(longer, Slot(k)) == k
      ensures HeldSince(trace, k, j) ==> Holder(trace, Slot(k)) == k
    {
      HeldSinceSnoc(trace, e, k, j);
      if HeldSince(trace, k, j) { assert Holder(trace[..|trace|], Slot(k)) == k; }
    }
    assert HeldSince(trace, k, |trace|) <==> Holder(trace, Slot(k)) == k;
    forall j: nat | j < |trace|
      ensures longer[j] == trace[j]
    {
    }
    var next := if Holder(trace, Slot(k)) != k || Holder(longer, Slot(k)) != k then {}
                else if e.Ack? && e.key == k then AckersSince(trace, k) + {e.replica}
                else AckersSince(trace, k);
    forall r | r in AckersSince(longer, k)
      ensures r in next
    {
      var j: nat :| j < |longer| && longer[j].Ack? && longer[j].key == k && HeldSince(longer, k, j) && longer[j].replica == r;
    }
    forall r | r in next
      ensures r in AckersSince(longer, k)
    {
      if r in AckersSince(trace, k) {
        var j: nat :| j < |trace| && trace[j].Ack? && trace[j].key == k && HeldSince(trace, k, j) && trace[j].replica == r;
        assert longer[j] == trace[j] && HeldSince(longer, k, j);
      } else {
        assert longer[|trace|] == e && HeldSince(longer, k, |trace|);
      }
    }
  }

  /** The bounded table means the unbounded trace: a slot belongs to the key last opened
      in it, and its bits are exactly the replicas that acked that view and operation
      since then.  No ack of another view or operation is ever counted. */
  lemma {:induction false} TableMeaning(trace: seq<Event>, k: Key)
    requires KnownReplicas(trace)
    ensures Holds(Run(trace), k) <==> Holder(trace, Slot(k)) == k
    ensures Holds(Run(trace), k) ==> Ones(Run(trace)[Slot(k)].bitset) == AckersSince(trace, k)
  {
    if trace == [] {
      assert AckersSince(trace, k) == {} == Ones(Zeros(BITSET_WIDTH));
    } else {
      var last := |trace| - 1;
      var shorter, e := trace[..last], trace[last];
      assert trace == shorter + [e];
      TableMeaning(shorter, k);
      AckersSnoc(shorter, e, k);
      assert !Holds(Run(shorter), k) && Holds(Run(trace), k) ==> Ones(Run(trace)[Slot(k)].bitset) == {};
    }
  }

  /** The handler's verdict on the next ack, in terms of the trace alone. */
  lemma {:induction false} VerdictMeaning(trace: seq<Event>, k: Key, r: u32, clusterSize: nat)
    requires KnownReplicas(trace) && r < BITSET_WIDTH
    ensures AckVerdict(Run(trace), k, r, clusterSize) ==
            if Holder(trace, Slot(k)) != k then Pass(false)
            else if |AckersSince(trace, k) + {r}| == QuorumSize(clusterSize) - 1 then Pass(true)
            else Drop
  {
    hide Run, Holder, AckersSince, PopCount, HeldSince;
    TableMeaning(trace, k);
    if Holds(Run(trace), k) {
      PopCountIsCardinality(Acked(Run(trace), k, r)[Slot(k)].bitset);
    }
  }

  /** Pruning never loses a quorum: whenever enough replicas have acked an open
      operation, one of those acks was passed up as the completing one, and the slot
      has been held by the operation ever since. */
  lemma {:induction false} QuorumWasPassedUp(trace: seq<Event>, k: Key, clusterSize: nat) returns (j: nat)
    requires KnownReplicas(trace) && Holder(trace, Slot(k)) == k
    requires 1 <= QuorumSize(clusterSize) - 1 <= |AckersSince(trace, k)|
    ensures j < |trace| && trace[j].Ack? && trace[j].key == k
    ensures AckVerdict(Run(trace[..j]), k, trace[j].replica, clusterSize) == Pass(true)
    ensures HeldSince(trace, k, j)
  {
    assert trace == [] ==> AckersSince(trace, k) == {};
    var last := |trace| - 1;
    var shorter, e := trace[..last], trace[last];
    assert trace == shorter + [e];
    AckersSnoc(shorter, e, k);
    if |AckersSince(shorter, k)| >= QuorumSize(clusterSize) - 1 {
      j := QuorumWasPassedUp(shorter, k, clusterSize);
      HeldSinceSnoc(shorter, e, k, j);
      assert shorter[..j] == trace[..j];
    } else {
      j := last;
      VerdictMeaning(shorter, k, e.replica, clusterSize);
      assert shorter[..last] == shorter;
      HeldSinceSnoc(shorter, e, k, last);
    }
  }

  // ----- how many operations can be outstanding ----------------------------------------------

  /** Opening b takes a's entry away exactly when they are different keys whose operation
      numbers agree modulo 1024. */
  lemma EvictsIff(t: Table, a: Key, b: Key)
    requires Holds(t, a)
    ensures !Holds(Opened(t, b), a) <==> a != b && a.op % 1024 == b.op % 1024
    ensures Holds(Opened(t, b), b)
  {
  }

  /** k is opened at event j, and every other key opened after that is for an operation that
      is at least 1 and at most 1023 away. */
  predicate InWindow(trace: seq<Event>, k: Key, j: nat) {
    && j < |trace| && trace[j] == Open(k)
    && forall i :: j < i < |trace| && trace[i].Open? && trace[i].key != k ==>
         1 <= trace[i].key.op - k.op <= 1023 || 1 <= k.op - trace[i].key.op <= 1023
  }

  /** The replicas that acked k after event j. */
  function AckersAfter(trace: seq<Event>, k: Key, j: nat): (s: set<nat>)
  {
    set i: nat | j < i < |trace| && trace[i].Ack? && trace[i].key == k :: trace[i].replica
  }

  lemma AckersAfterSnoc(trace: seq<Event>, e: Event, k: Key, j: nat)
    requires j < |trace|
    ensures AckersAfter(trace + [e], k, j) ==
            if e.Ack? && e.key == k then AckersAfter(trace, k, j) + {e.replica} else AckersAfter(trace, k, j)
  {
    var longer, more := trace + [e], if e.Ack? && e.key == k then {e.replica} else {};
    forall r | r in AckersAfter(trace, k, j) + more
      ensures r in AckersAfter(longer, k, j)
    {
      if r in AckersAfter(trace, k, j) {
        var i: nat :| j < i < |trace| && trace[i].Ack? && trace[i].key == k && trace[i].replica == r;
        assert longer[i] == trace[i];
      } else {
        assert longer[|trace|] == e;
      }
    }
    forall r | r in AckersAfter(longer, k, j)
      ensures r in AckersAfter(trace, k, j) + more
    {
      var i: nat :| j < i < |longer| && longer[i].Ack? && longer[i].key == k && longer[i].replica == r;
      assert i < |trace| ==> longer[i] == trace[i];
    }
  }

  lemma AckersAfterSelf(trace: seq<Event>, k: Key, j: nat)
    ensures |trace| <= j + 1 ==> AckersAfter(trace, k, j) == {}
  {
  }

  /** The window law: as long as no operation 1024 or more away is opened, k keeps its entry,
      and the entry's bits are exactly the replicas that acked k since it was opened. */
  lemma {:induction false} WindowLaw(trace: seq<Event>, k: Key, j: nat)
    requires KnownReplicas(trace) && InWindow(trace, k, j) && !Holds(Run(trace[..j]), k)
    ensures Holds(Run(trace), k)
    ensures Ones(Run(trace)[k.op % 1024].bitset) == AckersAfter(trace, k, j)
  {
    var last := |trace| - 1;
    var shorter, e := trace[..last], trace[last];
    assert trace == shorter + [e];
    if j == last {
      assert shorter == trace[..j];
      assert AckersAfter(trace, k, j) == {} == Ones(Zeros(BITSET_WIDTH));
    } else {
      assert shorter[..j] == trace[..j];
      forall i | j < i < |shorter|
        ensures shorter[i] == trace[i]
      {
      }
      WindowLaw(shorter, k, j);
      AckersAfterSnoc(shorter, e, k, j);
      WindowStep(Run(shorter), e, k);
    }
  }

  /** One event of the window. */
  lemma WindowStep(t: Table, e: Event, k: Key)
    requires Holds(t, k) && (e.Ack? ==> e.replica < BITSET_WIDTH)
    requires e.Open? && e.key != k ==> 1 <= e.key.op - k.op <= 1023 || 1 <= k.op - e.key.op <= 1023
    ensures var t' := match e case Open(b) => Opened(t, b) case Ack(b, r) => Acked(t, b, r);
            && Holds(t', k)
            && Ones(t'[k.op % 1024].bitset) ==
               Ones(t[k.op % 1024].bitset) + if e.Ack? && e.key == k then {e.replica} else {}
  {
    hide Ones;
    if e.Open? && e.key != k {
      DifferentSlots(e.key.op, k.op);
    }
  }

  lemma DifferentSlots(a: nat, b: nat)
    requires 1 <= a - b <= 1023 || 1 <= b - a <= 1023
    ensures a % 1024 != b % 1024
  {
    assert a == 1024 * (a / 1024) + a % 1024 && b == 1024 * (b / 1024) + b % 1024;
  }

  /** Within the window pruning loses no quorum: the very ack that brings the replicas heard
      from to one less than a quorum is passed up as completing. */
  lemma {:induction false} WindowQuorum(trace: seq<Event>, k: Key, j: nat, clusterSize: nat) returns (n: nat)
    requires KnownReplicas(trace) && InWindow(trace, k, j) && !Holds(Run(trace[..j]), k)
    requires 1 <= QuorumSize(clusterSize) - 1 <= |AckersAfter(trace, k, j)|
    ensures j < n < |trace| && trace[n].Ack? && trace[n].key == k
    ensures |AckersAfter(trace[..n], k, j)| < |AckersAfter(trace[..n + 1], k, j)| == (clusterSize + 1) / 2 - 1
    ensures AckVerdict(Run(trace[..n]), k, trace[n].replica, clusterSize) == Pass(true)
  {
    hide Run, AckersAfter, AckVerdict;
    var last := |trace| - 1;
    var shorter, e := trace[..last], trace[last];
    assert trace == shorter + [e] && trace[..last + 1] == trace;
    AckersAfterSelf(trace, k, j);
    AckersAfterSnoc(shorter, e, k, j);
    assert shorter[..j] == trace[..j] && shorter[j] == trace[j];
    assert forall i :: 0 <= i < last ==> shorter[i] == trace[i];
    if |AckersAfter(shorter, k, j)| >= QuorumSize(clusterSize) - 1 {
      n := WindowQuorum(shorter, k, j, clusterSize);
      assert shorter[..n] == trace[..n] && shorter[..n + 1] == trace[..n + 1];
    } else {
      n := last;
      WindowLaw(shorter, k, j);
      CompletingVerdict(Run(shorter), k, e.replica, clusterSize);
    }
  }

  lemma CompletingVerdict(t: Table, k: Key, r: u32, clusterSize: nat)
    requires Holds(t, k) && r < BITSET_WIDTH && |Ones(t[k.op % 1024].bitset) + {r}| == QuorumSize(clusterSize) - 1
    ensures AckVerdict(t, k, r, clusterSize) == Pass(true)
  {
    hide PopCount, Ones;
    PopCountIsCardinality(Acked(t, k, r)[Slot(k)].bitset);
  }
}
