/** The leader's egress program: it opens the quorum entry of an outgoing Prepare and
    turns one broadcast packet into a chain of clones, one per replica, each clone
    passing through the same program again.  Payloads are the bytes after the UDP
    header; the destination fields written from the replica's configuration are
    represented by the replica index itself. */
module Broadcast {
  import opened Bytes
  import opened ElectrodeFormat
  import QuorumTable

  const TYPE_LEN_AT := 4
  const TYPE_AT := 12
  const BROADCAST_BIT: u32 := 0x8000_0000

  /** What leaves the interface: to a replica chosen by the program, or as it was addressed. */
  datatype Sent = ToReplica(id: nat, payload: seq<byte>) | AsAddressed(payload: seq<byte>)

  function TypeLen(p: seq<byte>): (n: nat)
    requires |p| >= TYPE_AT
  {
    Le64(p, TYPE_LEN_AT)
  }

  /** The header checks before the message words are read. */
  predicate Parses(p: seq<byte>) {
    && |p| >= TYPE_AT
    && p[..4] == MAGIC
    && TYPE_AT + 5 < |p|
    && TypeLen(p) < MTU
    && TYPE_AT + TypeLen(p) + DATA_LEN <= |p|
  }

  predicate IsPrepare(p: seq<byte>) {
    PrepareType(p, TYPE_AT)
  }

  function ViewAt(p: seq<byte>): (at: nat)
    requires Parses(p)
    ensures at + DATA_LEN <= |p|
  {
    TYPE_AT + TypeLen(p)
  }

  predicate IsBroadcast(p: seq<byte>)
    requires Parses(p)
  {
    Le32(p, ViewAt(p)) >= BROADCAST_BIT
  }

  /** The view with the broadcast bit cleared. */
  function View(p: seq<byte>): (v: u32)
    requires Parses(p)
  {
    Le32(p, ViewAt(p)) % BROADCAST_BIT
  }

  function EntryKey(p: seq<byte>): (k: QuorumTable.Key)
    requires Parses(p)
  {
    QuorumTable.Key(View(p), Le32(p, ViewAt(p) + 4))
  }

  /** The packet with its view cleaned and its type string starting "sp" again. */
  function Restored(p: seq<byte>): (r: seq<byte>)
    requires Parses(p)
    ensures |r| == |p|
  {
    Restore(p, View(p))
  }

  /** Writing a view back and the start of the type string. */
  function Restore(p: seq<byte>, view: u32): (r: seq<byte>)
    requires Parses(p)
    ensures |r| == |p|
  {
    Patch(Patch(p, ViewAt(p), Le32Bytes(view)), TYPE_AT, ['s' as int, 'p' as int])
  }

  /** Storing into a signed 8-bit char. */
  function AsChar(v: int): (c: int)
    ensures -128 <= c < 128
  {
    (v + 128) % 256 - 128
  }

  function AsByte(c: int): (b: byte)
  {
    c % 256
  }

  /** The first replica a fresh broadcast is addressed to. */
  function FirstId(leader: nat): (id: int)
  {
    if leader == 0 then 1 else 0
  }

  /** The replica index written into the clone. */
  function NextId(id: int, leader: nat): (nxt: int)
    ensures -128 <= nxt < 128
  {
    var nxt := AsChar(id + 1);
    AsChar(nxt + if leader == nxt then 1 else 0)
  }

  /** The index a packet entering the program stands for. */
  function IdOf(p: seq<byte>, leader: nat): (id: int)
    requires Parses(p)
    ensures -128 <= id < 128
  {
    if Fresh(p) then FirstId(leader) else AsChar(p[TYPE_AT])
  }

  /** The packet as it is when it is cloned: addressed onwards, marked as part of a chain. */
  function Cloned(p: seq<byte>, leader: nat): (r: seq<byte>)
    requires Parses(p)
    ensures |r| == |p|
  {
    var data := p[TYPE_AT := AsByte(NextId(IdOf(p, leader), leader))];
    if Fresh(p) then data[TYPE_AT + 1 := 'M' as int] else data
  }

  predicate Fresh(p: seq<byte>)
    requires Parses(p)
  {
    p[TYPE_AT] == 's' as int && p[TYPE_AT + 1] == 'p' as int
  }

  /** The chain never turns a type string into one that looks fresh: its index does not get
      as far as 's', or what follows the index is not 'p'. */
  predicate Unambiguous(p: seq<byte>, clusterSize: nat)
    requires Parses(p)
  {
    clusterSize <= 's' as int || Fresh(p) || p[TYPE_AT + 1] != 'p' as int
  }

  /** A packet can look fresh at most once more, and after that never again. */
  function Rank(p: seq<byte>): (n: nat)
    requires Parses(p)
  {
    if Fresh(p) then 1 else if p[TYPE_AT + 1] == 'p' as int then 2 else 0
  }

  function ChainMeasure(id: int): (m: nat)
    requires -128 <= id < 128
  {
    if id == 127 then 256 else 127 - id
  }

  /** The indices a chain starting at `id` addresses, in the order the copies leave: a
      clone goes through completely before the packet it was cloned from is sent. */
  function ChainIds(clusterSize: nat, leader: nat, id: int): (ids: seq<int>)
    requires leader < clusterSize <= 127 && -128 <= id < 128
    decreases ChainMeasure(id)
  {
    (if NextId(id, leader) < clusterSize then ChainIds(clusterSize, leader, NextId(id, leader)) else []) + [id]
  }

  /** Indices outside the configuration map have no address, and the packet is discarded. */
  function Copies(ids: seq<int>, payload: seq<byte>): (sent: seq<Sent>)
  {
    if ids == [] then []
    else Copies(ids[..|ids| - 1], payload) + CopyTo(ids[|ids| - 1], payload)
  }

  function CopyTo(id: int, payload: seq<byte>): (sent: seq<Sent>)
  {
    if 0 <= id < FAST_REPLICA_MAX then [ToReplica(id, payload)] else []
  }

  /** The type string is long enough for its first two bytes not to be message words. */
  predicate Separate(p: seq<byte>)
    requires Parses(p)
  {
    TypeLen(p) >= 2
  }

  /** What one pass over the packet does to the quorum table. */
  function TableAfter(t: QuorumTable.Table, p: seq<byte>): (r: QuorumTable.Table)
    requires Parses(p)
  {
    if IsPrepare(p) then QuorumTable.Opened(t, EntryKey(p)) else t
  }

  /** One pass of the program over a packet, its clones included. */
  method FastBroadCast(quorum: QuorumTable.Leader, leader: nat, p: seq<byte>) returns (sent: seq<Sent>)
    requires quorum.Valid() && leader < quorum.clusterSize <= 127
    modifies quorum.table
    ensures quorum.Valid()
    ensures !Parses(p) ==> quorum.table[..] == old(quorum.table[..])
    ensures !(Parses(p) && IsBroadcast(p)) ==> sent == [AsAddressed(p)]
    ensures Parses(p) && (IsBroadcast(p) ==> Separate(p)) ==> quorum.table[..] == TableAfter(old(quorum.table[..]), p)
    ensures Parses(p) && IsBroadcast(p) && Separate(p) && Unambiguous(p, quorum.clusterSize) ==>
              sent == Copies(ChainIds(quorum.clusterSize, leader, IdOf(p, leader)), Restored(p))
    decreases if Parses(p) then Rank(p) else 0, if Parses(p) then ChainMeasure(IdOf(p, leader)) else 0, 1
  {
    if !Parses(p) {
      return [AsAddressed(p)];
    }
    if IsPrepare(p) {
      quorum.Open(View(p), Le32(p, ViewAt(p) + 4));
    }
    if !IsBroadcast(p) {
      return [AsAddressed(p)];
    }
    sent := Multicast(quorum, leader, p);
  }

  /** The second half: send a clone on to the next replica, then address this packet. */
  method Multicast(quorum: QuorumTable.Leader, leader: nat, p: seq<byte>) returns (sent: seq<Sent>)
    requires quorum.Valid() && leader < quorum.clusterSize <= 127
    requires Parses(p) && IsBroadcast(p)
    requires Separate(p) && IsPrepare(p) ==> QuorumTable.Holds(quorum.table[..], EntryKey(p))
    modifies quorum.table
    ensures quorum.Valid()
    ensures Separate(p) ==> quorum.table[..] == old(quorum.table[..])
    ensures Separate(p) && Unambiguous(p, quorum.clusterSize) ==>
              sent == Copies(ChainIds(quorum.clusterSize, leader, IdOf(p, leader)), Restored(p))
    decreases Rank(p), ChainMeasure(IdOf(p, leader)), 0
  {
    hide Le32, Le64, TypeLen, NextId, IsPrepare, Restore, ChainIds, Copies;
    var view, id := View(p), IdOf(p, leader);
    var nxt := NextId(id, leader);
    var data := p[TYPE_AT := AsByte(nxt)];
    if Fresh(p) {
      data := data[TYPE_AT + 1 := 'M' as int];
    }
    CloneFacts(p, leader);
    sent := [];
    if nxt < quorum.clusterSize {
      CloneId(p, leader, quorum.clusterSize);
      sent := FastBroadCast(quorum, leader, data);
    }
    data := Restore(data, view);
    if 0 <= id < FAST_REPLICA_MAX {
      sent := sent + [ToReplica(id, data)];
    }
    CopiesOfChain(quorum.clusterSize, leader, id, Restored(p));
  }

  lemma CopiesOfChain(clusterSize: nat, leader: nat, id: int, payload: seq<byte>)
    requires leader < clusterSize <= 127 && -128 <= id < 128
    ensures Copies(ChainIds(clusterSize, leader, id), payload) ==
            (if NextId(id, leader) < clusterSize
             then Copies(ChainIds(clusterSize, leader, NextId(id, leader)), payload) else [])
            + CopyTo(id, payload)
  {
    var rest := if NextId(id, leader) < clusterSize
                then ChainIds(clusterSize, leader, NextId(id, leader)) else [];
    assert ChainIds(clusterSize, leader, id) == rest + [id];
    assert (rest + [id])[..|rest|] == rest;
  }

  /** Packets that carry the same message and differ only in how they are addressed. */
  ghost predicate SameMessage(p: seq<byte>, q: seq<byte>)
    requires Parses(p) && Parses(q)
  {
    && Separate(q) && IsBroadcast(q) == IsBroadcast(p) && IsPrepare(q) == IsPrepare(p)
    && EntryKey(q) == EntryKey(p) && Restored(q) == Restored(p)
  }

  /** Addressing a clone leaves everything else about the packet alone. */
  lemma CloneFacts(p: seq<byte>, leader: nat)
    requires Parses(p)
    ensures var q := Cloned(p, leader);
            && Parses(q) && Restore(q, View(p)) == Restored(p)
            && (Separate(p) ==> SameMessage(p, q))
  {
    hide Le32, Le64, NextId, IsPrepare, Patch;
    var q := Cloned(p, leader);
    assert q[..TYPE_AT] == p[..TYPE_AT];
    SameHeader(p, q);
    RestoreHides(p, q, View(p));
    if Separate(p) {
      ClonePrepare(p, q);
      CloneWords(p, q);
      RestoreHides(p, q, View(q));
    }
  }

  lemma CloneWords(p: seq<byte>, q: seq<byte>)
    requires |p| == |q| && Parses(p) && Parses(q) && ViewAt(q) == ViewAt(p) && Separate(p)
    requires forall i :: 0 <= i < |p| && i != TYPE_AT && i != TYPE_AT + 1 ==> q[i] == p[i]
    ensures Le32(q, ViewAt(q)) == Le32(p, ViewAt(p)) && Le32(q, ViewAt(q) + 4) == Le32(p, ViewAt(p) + 4)
  {
    var at := ViewAt(p);
    assert q[at..at + 4] == p[at..at + 4] && q[at + 4..at + 8] == p[at + 4..at + 8];
    Le32Same(q, at, p, at);
    Le32Same(q, at + 4, p, at + 4);
  }

  lemma RestoreHides(p: seq<byte>, q: seq<byte>, view: u32)
    requires |p| == |q| && Parses(p) && Parses(q) && ViewAt(q) == ViewAt(p)
    requires forall i :: 0 <= i < |p| && i != TYPE_AT && i != TYPE_AT + 1 ==> q[i] == p[i]
    ensures Restore(q, view) == Restore(p, view)
  {
  }

  /** Magic number and type length decide how a packet is parsed. */
  lemma SameHeader(p: seq<byte>, q: seq<byte>)
    requires |p| == |q| && Parses(p) && q[..TYPE_AT] == p[..TYPE_AT]
    ensures Parses(q) && ViewAt(q) == ViewAt(p)
  {
    assert q[..4] == q[..TYPE_AT][..4] && p[..4] == p[..TYPE_AT][..4];
    assert q[4..8] == q[..TYPE_AT][4..8] && p[4..8] == p[..TYPE_AT][4..8];
    assert q[8..12] == q[..TYPE_AT][8..12] && p[8..12] == p[..TYPE_AT][8..12];
    Le32Same(q, 4, p, 4);
    Le32Same(q, 8, p, 8);
  }

  lemma ClonePrepare(p: seq<byte>, q: seq<byte>)
    requires |p| == |q| >= TYPE_AT + 2
    requires forall i :: 0 <= i < |p| && i != TYPE_AT && i != TYPE_AT + 1 ==> q[i] == p[i]
    ensures IsPrepare(q) == IsPrepare(p)
  {
    if TYPE_AT + PREPARE_TYPE_LEN < |p| {
      assert q[TYPE_AT + 10..TYPE_AT + 12] == p[TYPE_AT + 10..TYPE_AT + 12];
      assert q[TYPE_AT + 19..TYPE_AT + 27] == p[TYPE_AT + 19..TYPE_AT + 27];
    }
  }

  lemma CloneId(p: seq<byte>, leader: nat, clusterSize: nat)
    requires Parses(p) && leader < clusterSize <= 127
    requires Parses(Cloned(p, leader)) && NextId(IdOf(p, leader), leader) < clusterSize
    ensures var q := Cloned(p, leader);
            && (Rank(q) < Rank(p) || (Rank(q) == Rank(p) && ChainMeasure(IdOf(q, leader)) < ChainMeasure(IdOf(p, leader))))
            && (Unambiguous(p, clusterSize) ==>
                  IdOf(q, leader) == NextId(IdOf(p, leader), leader) && Unambiguous(q, clusterSize))
  {
    hide Le64, IsPrepare, AsChar, AsByte, NextId, ChainMeasure;
    var nxt := NextId(IdOf(p, leader), leader);
    CharRoundTrip(nxt);
    NextMeasure(IdOf(p, leader), leader, clusterSize);
  }

  lemma CharRoundTrip(c: int)
    requires -128 <= c < 128
    ensures AsChar(AsByte(c)) == c && (AsByte(c) == 's' as int ==> c == 's' as int)
  {
  }

  lemma NextMeasure(id: int, leader: nat, clusterSize: nat)
    requires -128 <= id < 128 && leader < clusterSize <= 127 && NextId(id, leader) < clusterSize
    ensures ChainMeasure(NextId(id, leader)) < ChainMeasure(id)
  {
  }

  // ----- exactly one copy each ------------------------------------------------------------------

  /** Exactly the indices from `id` up, without the leader, in descending order. */
  ghost predicate DescendingFrom(ids: seq<int>, id: int, clusterSize: nat, leader: nat) {
    && (forall j :: j in ids <==> id <= j < clusterSize && j != leader)
    && (forall i, j :: 0 <= i < j < |ids| ==> ids[i] > ids[j])
  }

  lemma {:induction false} ChainFrom(clusterSize: nat, leader: nat, id: int)
    requires leader < clusterSize <= 127 && 0 <= id < clusterSize && id != leader
    ensures DescendingFrom(ChainIds(clusterSize, leader, id), id, clusterSize, leader)
    decreases clusterSize - id
  {
    var nxt := NextId(id, leader);
    assert nxt == if leader == id + 1 then id + 2 else id + 1;
    if nxt < clusterSize {
      ChainFrom(clusterSize, leader, nxt);
      DescendingSnoc(ChainIds(clusterSize, leader, nxt), nxt, id, clusterSize, leader);
    } else {
      assert ChainIds(clusterSize, leader, id) == [id];
    }
  }

  lemma DescendingSnoc(rest: seq<int>, nxt: int, id: int, clusterSize: nat, leader: nat)
    requires DescendingFrom(rest, nxt, clusterSize, leader) && id < clusterSize && id != leader
    requires nxt == if leader == id + 1 then id + 2 else id + 1
    ensures DescendingFrom(rest + [id], id, clusterSize, leader)
  {
    forall i | 0 <= i < |rest|
      ensures rest[i] > id
    {
      assert rest[i] in rest;
    }
    forall j
      ensures j in rest + [id] <==> id <= j < clusterSize && j != leader
    {
      assert j in rest + [id] <==> j in rest || j == id;
    }
  }

  /** One broadcast addresses every replica other than the leader, each exactly once. */
  lemma ChainReachesEveryone(clusterSize: nat, leader: nat)
    requires 2 <= clusterSize <= 127 && leader < clusterSize
    ensures var ids := ChainIds(clusterSize, leader, FirstId(leader));
            && (forall j :: j in ids <==> 0 <= j < clusterSize && j != leader)
            && (forall i, j :: 0 <= i < j < |ids| ==> ids[i] != ids[j])
  {
    ChainFrom(clusterSize, leader, FirstId(leader));
  }

  lemma {:induction false} CopiesAre(ids: seq<int>, payload: seq<byte>)
    ensures forall s :: s in Copies(ids, payload) <==>
              s.ToReplica? && s.payload == payload && s.id < FAST_REPLICA_MAX && s.id in ids
    ensures (forall i, j :: 0 <= i < j < |ids| ==> ids[i] != ids[j]) ==>
              forall i, j :: 0 <= i < j < |Copies(ids, payload)| ==> Copies(ids, payload)[i] != Copies(ids, payload)[j]
  {
    if ids != [] {
      var last := |ids| - 1;
      CopiesAre(ids[..last], payload);
      assert ids == ids[..last] + [ids[last]];
    }
  }

  /** Every replica other than the leader gets exactly one copy, the same restored packet,
      precisely when all their indices fit the configuration map. */
  lemma OneCopyEachIffConfigured(clusterSize: nat, leader: nat, payload: seq<byte>)
    requires 2 <= clusterSize <= 127 && leader < clusterSize
    ensures var sent := Copies(ChainIds(clusterSize, leader, FirstId(leader)), payload);
            && (forall i, j :: 0 <= i < j < |sent| ==> sent[i] != sent[j])
            && ((forall s :: s in sent <==>
                   s.ToReplica? && s.payload == payload && s.id < clusterSize && s.id != leader)
                <==> clusterSize <= FAST_REPLICA_MAX || (clusterSize == FAST_REPLICA_MAX + 1 && leader == FAST_REPLICA_MAX))
  {
    var ids := ChainIds(clusterSize, leader, FirstId(leader));
    ChainReachesEveryone(clusterSize, leader);
    CopiesAre(ids, payload);
    var sent := Copies(ids, payload);
    if clusterSize > FAST_REPLICA_MAX && !(clusterSize == FAST_REPLICA_MAX + 1 && leader == FAST_REPLICA_MAX) {
      var missed := if leader == FAST_REPLICA_MAX then FAST_REPLICA_MAX + 1 else FAST_REPLICA_MAX;
      assert ToReplica(missed, payload) !in sent;
    }
  }

  /** The whole broadcast of a Prepare, from the leader's point of view: one copy for every
      other replica that has a configuration entry. */
  method BroadcastPrepare(quorum: QuorumTable.Leader, leader: nat, p: seq<byte>) returns (sent: seq<Sent>)
    requires quorum.Valid() && 2 <= quorum.clusterSize <= 127 && leader < quorum.clusterSize
    requires Parses(p) && IsBroadcast(p) && Separate(p) && Fresh(p)
    modifies quorum.table
    ensures quorum.Valid() && quorum.table[..] == TableAfter(old(quorum.table[..]), p)
    ensures forall s :: s in sent <==>
              && s.ToReplica? && s.payload == Restored(p)
              && s.id < quorum.clusterSize && s.id != leader && s.id < FAST_REPLICA_MAX
    ensures forall i, j :: 0 <= i < j < |sent| ==> sent[i] != sent[j]
  {
    sent := FastBroadCast(quorum, leader, p);
    hide ChainIds, Copies, Parses;
    ChainReachesEveryone(quorum.clusterSize, leader);
    CopiesAre(ChainIds(quorum.clusterSize, leader, FirstId(leader)), Restored(p));
  }

  /** Each copy is the original with the broadcast bit cleared and nothing else changed. */
  lemma RestoredIsOriginal(p: seq<byte>)
    requires Parses(p) && IsBroadcast(p) && Separate(p) && Fresh(p)
    ensures Restored(p) == p[ViewAt(p) + 3 := p[ViewAt(p) + 3] - 0x80]
    ensures Parses(Restored(p)) && !IsBroadcast(Restored(p)) && EntryKey(Restored(p)) == EntryKey(p)
  {
    hide Le32, Le64, Le32Bytes;
    var at := ViewAt(p);
    FourBytes(p, at);
    ClearTopBit(p[at], p[at + 1], p[at + 2], p[at + 3]);
    RestoredFields(p);
  }

  lemma FourBytes(p: seq<byte>, at: nat)
    requires at + 4 <= |p|
    ensures Le32(p, at) == Le32([p[at], p[at + 1], p[at + 2], p[at + 3]], 0)
  {
  }

  lemma RestoredFields(p: seq<byte>)
    requires Parses(p) && Separate(p)
    ensures var r := Restored(p);
            && Parses(r) && !IsBroadcast(r) && EntryKey(r) == EntryKey(p)
  {
    hide Le32, Le64, Restore, Le32Bytes;
    var at, r := ViewAt(p), Restored(p);
    RestoredBytes(p);
    SameHeader(p, r);
    Le32RoundTrip(View(p));
    Le32Same(r, at, Le32Bytes(View(p)), 0);
    Le32Same(r, at + 4, p, at + 4);
  }

  lemma RestoredBytes(p: seq<byte>)
    requires Parses(p) && Separate(p)
    ensures var at, r := ViewAt(p), Restored(p);
            && r[..TYPE_AT] == p[..TYPE_AT]
            && r[at..at + 4] == Le32Bytes(View(p))[0..4]
            && r[at + 4..at + 8] == p[at + 4..at + 8]
  {
  }

  lemma ClearTopBit(b0: byte, b1: byte, b2: byte, b3: byte)
    requires Le32([b0, b1, b2, b3], 0) >= BROADCAST_BIT
    ensures b3 >= 0x80
    ensures Le32Bytes(Le32([b0, b1, b2, b3], 0) % BROADCAST_BIT) == [b0, b1, b2, b3 - 0x80]
  {
    hide Le32Bytes;
    var v := Le32([b0, b1, b2, b3], 0);
    assert v == b0 + 0x100 * (b1 as int) + 0x1_0000 * (b2 as int) + 0x100_0000 * (b3 as int);
    assert v % BROADCAST_BIT == v - BROADCAST_BIT;
    Le32BytesOf(b0, b1, b2, b3 - 0x80);
  }

  // ----- when the chain ends at all -----------------------------------------------------------------

  /** The index reached after a number of clones. */
  function IdAfter(leader: nat, clones: nat): (id: int)
    ensures -128 <= id < 128
  {
    if clones == 0 then FirstId(leader) else NextId(IdAfter(leader, clones - 1), leader)
  }

  /** Indices are signed 8-bit chars: the chain of clones ends exactly when the cluster
      size is below 128. */
  lemma ChainEndsIff(clusterSize: nat, leader: nat)
    requires 2 <= clusterSize && leader < clusterSize
    ensures (exists k: nat :: IdAfter(leader, k) >= clusterSize) <==> clusterSize <= 127
  {
    if clusterSize <= 127 {
      var k := ChainEnd(clusterSize, leader, 0);
      assert IdAfter(leader, k) >= clusterSize;
    }
  }

  lemma {:induction false} ChainEnd(clusterSize: nat, leader: nat, from: nat) returns (k: nat)
    requires 2 <= clusterSize <= 127 && leader < clusterSize
    ensures IdAfter(leader, k) >= clusterSize
    decreases ChainMeasure(IdAfter(leader, from))
  {
    if IdAfter(leader, from + 1) >= clusterSize {
      k := from + 1;
    } else {
      k := ChainEnd(clusterSize, leader, from + 1);
    }
  }
}
