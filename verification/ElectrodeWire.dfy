/** The fast path on the wire: how frames are classified, the follower's handlers that
    turn a Prepare frame into its reply in place, and the leader's parse of that reply. */
module ElectrodeWire {
  import opened Bytes
  import opened ElectrodeFormat
  import opened PacketHead
  import opened Options
  import opened Electrode
  import QuorumTable
  import InternetChecksum
  import Encapsulation

  const MAX_DATA_LEN := 64
  const IPPROTO_UDP := 17

  // offsets into a frame: Ethernet 14, IPv4 20, UDP 8, magic 4, type length 8
  const IP_TOT_LEN_AT := 16
  const IP_PROTOCOL_AT := 23
  const IP_CHECK_AT := 24
  const IP_SADDR_AT := 26
  const IP_DADDR_AT := 30
  const UDP_AT := 34
  const UDP_DEST_AT := 36
  const PAYLOAD_AT := 42
  const TYPE_LEN_AT := 46
  const TYPE_AT := 54

  const PREPARE_DATA_AT := TYPE_AT + PREPARE_TYPE_LEN
  const PROTO_AT := PREPARE_DATA_AT + DATA_LEN
  const REPLY_DATA_AT := TYPE_AT + MYPREPAREOK_TYPE_LEN
  const REPLY_END := REPLY_DATA_AT + DATA_LEN + 28

  /** Port 12345 in network byte order. */
  const PORT: seq<byte> := [0x30, 0x39]

  // ----- the entry program's classification -------------------------------------------------

  predicate IsPrepare(f: seq<byte>) {
    PrepareType(f, TYPE_AT)
  }

  predicate IsPrepareOK(f: seq<byte>) {
    TYPE_AT + PREPAREOK_TYPE_LEN < |f| && At(f, TYPE_AT + 10, Ascii("vr")) && At(f, TYPE_AT + 19, Ascii("PrepareO"))
  }

  predicate IsMyPrepareOK(f: seq<byte>) {
    TYPE_AT + MYPREPAREOK_TYPE_LEN < |f| && At(f, TYPE_AT + 10, Ascii("vr")) && At(f, TYPE_AT + 13, Ascii("MyPr"))
  }

  /** The checks every protocol frame must pass. */
  predicate IsProtocolFrame(f: seq<byte>) {
    && TYPE_AT <= |f|
    && At(f, UDP_DEST_AT, PORT)
    && f[IP_PROTOCOL_AT] == IPPROTO_UDP
    && At(f, PAYLOAD_AT, MAGIC)
    && Le64(f, TYPE_LEN_AT) < MTU
    && TYPE_AT + Le64(f, TYPE_LEN_AT) <= |f|
  }

  datatype Dispatch = ToStack | ToPrepare | ToPrepareOK(head: nat)

  /** Which handler a frame goes to; PrepareOK frames have their head moved to the data. */
  function Classify(f: seq<byte>): (d: Dispatch)
  {
    if !IsProtocolFrame(f) then ToStack
    else if IsPrepare(f) then ToPrepare
    else if IsPrepareOK(f) || IsMyPrepareOK(f) then ToPrepareOK(TYPE_AT + Le64(f, TYPE_LEN_AT))
    else ToStack
  }

  // ----- the reply, written over the Prepare ----------------------------------------------------

  datatype LeaderInfo = LeaderInfo(addr: seq<byte>, port: seq<byte>) {
    predicate Valid() {
      |addr| == 4 && |port| == 2
    }
  }

  /** The protocol payload of the reply. */
  function ReplyPayload(f: seq<byte>, s: FollowerState): (r: seq<byte>)
    requires REPLY_END <= |f|
    ensures |r| == |f|
  {
    Patch(HalfReply(f, s), REPLY_DATA_AT + DATA_LEN, AckProto(s))
  }

  /** The three words the leader's kernel program reads. */
  function AckWords(s: FollowerState): (r: seq<byte>)
    ensures |r| == DATA_LEN
  {
    Le32Bytes(Low32(s.view)) + Le32Bytes(Low32(s.context)) + Le32Bytes(s.myIdx)
  }

  /** The message the leader's user space reads. */
  function AckProto(s: FollowerState): (r: seq<byte>)
    ensures |r| == 28
  {
    Le64Bytes(20) + Le64Bytes(s.view) + Le64Bytes(s.context) + Le32Bytes(s.myIdx)
  }

  function Be16(v: nat): (r: seq<byte>)
    ensures |r| == 2
  {
    [v / 0x100 % 0x100, v % 0x100]
  }

  /** The header fields: addressed back to the leader, lengths for the shorter packet. */
  function ReplyHeaders(f: seq<byte>, leader: LeaderInfo): (r: seq<byte>)
    requires REPLY_END <= |f| && leader.Valid()
    ensures |r| == |f|
  {
    var a := Patch(f, UDP_AT, f[UDP_DEST_AT..UDP_DEST_AT + 2] + leader.port + Be16(REPLY_END - UDP_AT) + [0, 0]);
    var b := Patch(a, IP_TOT_LEN_AT, Be16(REPLY_END - UDP_AT + 20));
    var c := Patch(b, IP_SADDR_AT, b[IP_DADDR_AT..IP_DADDR_AT + 4] + leader.addr);
    var d := Patch(c, IP_CHECK_AT, IpChecksum(c));
    Patch(d, 0, d[6..12] + d[0..6])
  }

  /** The header checksum folded once, as this program computes it. */
  function IpChecksum(f: seq<byte>): (r: seq<byte>)
    requires UDP_AT <= |f|
    ensures |r| == 2
  {
    CheckBytes(HeaderSum(Patch(f, IP_CHECK_AT, [0, 0])[14..UDP_AT]))
  }

  /** The complement of a sum folded once, as it is stored. */
  function CheckBytes(sum: nat): (r: seq<byte>)
    ensures |r| == 2
  {
    var check := 0xffff_ffff - (sum % 0x1_0000 + sum / 0x1_0000) % 0x1_0000_0000;
    [check % 0x100, check / 0x100 % 0x100]
  }

  function HeaderSum(h: seq<byte>): (sum: nat)
  {
    if |h| < 2 then 0 else h[0] as int + 0x100 * (h[1] as int) + HeaderSum(h[2..])
  }

  datatype FrameVerdict = PassFrame | DropFrame | Transmit(length: nat)

  /** A frame too short for the whole reply is noticed when the first part has been written. */
  function HalfReply(f: seq<byte>, s: FollowerState): (r: seq<byte>)
    requires PROTO_AT <= |f|
    ensures |r| == |f|
  {
    var a := Patch(f, PAYLOAD_AT, MAGIC);
    var b := Patch(a, TYPE_LEN_AT, Le64Bytes(MYPREPAREOK_TYPE_LEN));
    var c := Patch(b, TYPE_AT + 13, Ascii("MyPrepareOK"));
    Patch(c, REPLY_DATA_AT, AckWords(s))
  }

  /** What replying makes of a frame: the verdict and the frame as it is left. */
  function FastReply(f: seq<byte>, s: FollowerState, leader: Option<LeaderInfo>): (r: (FrameVerdict, seq<byte>))
    requires leader.Some? ==> leader.value.Valid()
  {
    if |f| <= PROTO_AT + 8 || leader.None? then (PassFrame, f)
    else if |f| < REPLY_END then (PassFrame, HalfReply(f, s))
    else (Transmit(REPLY_END), ReplyHeaders(ReplyPayload(f, s), leader.value))
  }

  /** The message after the fixed part is small enough for a ring buffer slot. */
  predicate FitsRing(f: seq<byte>) {
    PROTO_AT < |f| <= PROTO_AT + MAX_DATA_LEN
  }

  /** What handling a Prepare makes of a frame, in a follower whose state is `s` by then. */
  function Handled(d: Decision, f: seq<byte>, s: FollowerState, leader: Option<LeaderInfo>, ringHasRoom: bool)
    : (r: (FrameVerdict, seq<byte>))
    requires leader.Some? ==> leader.value.Valid()
  {
    match d
    case DropIt => (DropFrame, f)
    case PassItUp => (PassFrame, f)
    case Resend => FastReply(f, s, leader)
    case Accept => if FitsRing(f) && ringHasRoom then FastReply(f, s, leader) else (PassFrame, f)
  }

  class Follower {
    var state: FollowerState
    var leaderIdx: int
    const replicas: seq<LeaderInfo>
    /** What has been handed to user space through the ring buffer. */
    var ring: seq<seq<byte>>

    ghost predicate Valid()
      reads this
    {
      |replicas| == FAST_REPLICA_MAX && forall i :: 0 <= i < |replicas| ==> replicas[i].Valid()
    }

    constructor (state: FollowerState, leaderIdx: int, replicas: seq<LeaderInfo>)
      requires |replicas| == FAST_REPLICA_MAX && forall i :: 0 <= i < |replicas| ==> replicas[i].Valid()
      ensures Valid() && this.state == state && this.leaderIdx == leaderIdx && this.replicas == replicas && ring == []
    {
      this.state, this.leaderIdx, this.replicas, this.ring := state, leaderIdx, replicas, [];
    }

    /** The leader's entry in the configuration map, if its index has one. */
    ghost function LeaderEntry(): (l: Option<LeaderInfo>)
      requires Valid()
      reads this
      ensures l.Some? ==> l.value.Valid()
    {
      if 0 <= leaderIdx < FAST_REPLICA_MAX then Some(replicas[leaderIdx]) else None
    }

    /** Writes the reply into the first part of the frame in `buf`. */
    method PrepareFastReply(buf: array<byte>) returns (verdict: FrameVerdict)
      requires Valid()
      modifies buf
      ensures (verdict, buf[..]) == FastReply(old(buf[..]), state, LeaderEntry())
    {
      hide ReplyHeaders, Ascii, AckWords, AckProto, Le64Bytes;
      if PROTO_AT + 8 >= buf.Length {
        return PassFrame;
      }
      if !(0 <= leaderIdx < FAST_REPLICA_MAX) {
        return PassFrame;
      }
      var leader := replicas[leaderIdx];
      Store(buf, PAYLOAD_AT, MAGIC);
      Store(buf, TYPE_LEN_AT, Le64Bytes(MYPREPAREOK_TYPE_LEN));
      Store(buf, TYPE_AT + 13, Ascii("MyPrepareOK"));
      Store(buf, REPLY_DATA_AT, AckWords(state));
      assert buf[..] == HalfReply(old(buf[..]), state);
      if REPLY_END > buf.Length {
        return PassFrame;
      }
      Store(buf, REPLY_DATA_AT + DATA_LEN, AckProto(state));
      WriteHeaders(buf, leader);
      return Transmit(REPLY_END);
    }

    static method WriteHeaders(buf: array<byte>, leader: LeaderInfo)
      requires REPLY_END <= buf.Length && leader.Valid()
      modifies buf
      ensures buf[..] == ReplyHeaders(old(buf[..]), leader)
    {
      Store(buf, UDP_AT, buf[..][UDP_DEST_AT..UDP_DEST_AT + 2] + leader.port + Be16(REPLY_END - UDP_AT) + [0, 0]);
      Store(buf, IP_TOT_LEN_AT, Be16(REPLY_END - UDP_AT + 20));
      Store(buf, IP_SADDR_AT, buf[..][IP_DADDR_AT..IP_DADDR_AT + 4] + leader.addr);
      Store(buf, IP_CHECK_AT, IpChecksum(buf[..]));
      Store(buf, 0, buf[..][6..12] + buf[..][0..6]);
    }

    /** Copies the message to the ring buffer if it fits there, then replies. */
    method WriteBuffer(buf: array<byte>, ringHasRoom: bool) returns (verdict: FrameVerdict)
      requires Valid()
      modifies buf, this`ring
      ensures ring == old(ring) + if FitsRing(old(buf[..])) && ringHasRoom then [old(buf[..])[PROTO_AT..]] else []
      ensures (verdict, buf[..]) == Handled(Accept, old(buf[..]), state, LeaderEntry(), ringHasRoom)
    {
      hide FastReply;
      if PROTO_AT >= buf.Length {
        return PassFrame;
      }
      if PROTO_AT + MAX_DATA_LEN < buf.Length {
        return PassFrame;
      }
      if !ringHasRoom {
        return PassFrame;
      }
      ring := ring + [buf[PROTO_AT..]];
      assert buf[PROTO_AT..] == buf[..][PROTO_AT..];
      verdict := PrepareFastReply(buf);
    }

    /** The Prepare handler, tail calls included. */
    method HandlePrepare(buf: array<byte>, ringHasRoom: bool) returns (verdict: FrameVerdict)
      requires Valid()
      modifies buf, this`state, this`ring
      ensures Valid()
      ensures buf.Length < PROTO_AT ==>
                verdict == PassFrame && state == old(state) && ring == old(ring) && buf[..] == old(buf[..])
      ensures PROTO_AT <= buf.Length ==>
                var m := ParsePrepare(old(buf[..]));
                var d := Decide(old(state), m);
                && state == AfterPrepare(old(state), m)
                && (verdict, buf[..]) == Handled(d, old(buf[..]), state, LeaderEntry(), ringHasRoom)
                && ring == old(ring) + if d == Accept && FitsRing(old(buf[..])) && ringHasRoom
                                       then [old(buf[..])[PROTO_AT..]] else []
      // what becomes of the three words of the frame
      ensures PROTO_AT <= buf.Length ==>
                var f, s := old(buf[..]), old(state);
                var view, lastOp, start := Le32(f, 87), Le32(f, 91), Le32(f, 95);
                && (s.status != Normal || view < s.view ==>
                      verdict == DropFrame && state == s && ring == old(ring) && buf[..] == f)
                && (s.status == Normal && (view > s.view || (view == s.view && lastOp > s.lastOp && start > s.lastOp + 1)) ==>
                      verdict == PassFrame && state == s && ring == old(ring) && buf[..] == f)
                && (state != s <==> s.status == Normal && view == s.view && lastOp > s.lastOp && start <= s.lastOp + 1)
                && (state != s ==> state == s.(lastOp := lastOp, context := lastOp))
                && (verdict.Transmit? <==>
                      && s.status == Normal && view == s.view && 118 <= |f| && 0 <= leaderIdx < 100
                      && (lastOp <= s.lastOp || (start <= s.lastOp + 1 && |f| <= 163 && ringHasRoom)))
      // an accepted message reaches user space, through the ring buffer or untouched
      ensures PROTO_AT <= buf.Length && Decide(old(state), ParsePrepare(old(buf[..]))) == Accept ==>
                || ring == old(ring) + [old(buf[..])[PROTO_AT..]]
                || (ring == old(ring) && verdict == PassFrame && buf[..] == old(buf[..]))
    {
      hide ReplyHeaders, ReplyPayload, HalfReply, Le32;
      if PROTO_AT > buf.Length {
        return PassFrame;
      }
      var view, lastOp := Le32(buf[..], PREPARE_DATA_AT), Le32(buf[..], PREPARE_DATA_AT + 4);
      var batchStart := Le32(buf[..], PREPARE_DATA_AT + 8);
      if state.status != Normal {
        return DropFrame;
      }
      if view < state.view {
        return DropFrame;
      }
      if view > state.view {
        return PassFrame;
      }
      if lastOp <= state.lastOp {
        verdict := PrepareFastReply(buf);
        return;
      }
      if batchStart > state.lastOp + 1 {
        return PassFrame;
      }
      state := state.(context := lastOp, lastOp := lastOp);
      verdict := WriteBuffer(buf, ringHasRoom);
    }
  }

  /** A Prepare frame that is passed up after a reply was tried is as it came if and only if
      its length is not one of 108 to 117, or the leader has no configuration entry. */
  lemma PassedUntouchedIff(f: seq<byte>, s: FollowerState, leader: Option<LeaderInfo>)
    requires Classify(f) == ToPrepare && (leader.Some? ==> leader.value.Valid())
    requires FastReply(f, s, leader).0 == PassFrame
    ensures FastReply(f, s, leader).1 == f <==> !(108 <= |f| <= 117) || leader.None?
  {
    hide AckWords, Le64Bytes;
    if 108 <= |f| <= 117 && leader.Some? {
      var r := HalfReply(f, s);
      assert r[TYPE_AT + 19] == Ascii("MyPrepareOK")[6] == 'a' as int;
      assert f[TYPE_AT + 19] == f[TYPE_AT + 19..TYPE_AT + 27][0] == Ascii("PrepareM")[0] == 'P' as int;
    }
  }

  function ParsePrepare(f: seq<byte>): (m: Prepare)
    requires PROTO_AT <= |f|
  {
    Prepare(Le32(f, PREPARE_DATA_AT), Le32(f, PREPARE_DATA_AT + 4), Le32(f, PREPARE_DATA_AT + 8))
  }

  // ----- the leader's end ---------------------------------------------------------------------------

  function ParseAck(f: seq<byte>, head: nat): (a: AckMsg)
    requires head + DATA_LEN <= |f|
  {
    AckMsg(QuorumTable.Key(Le32(f, head), Le32(f, head + 4)), Le32(f, head + 8))
  }

  /** Where the handler finds its words: after the type string, or at the start of the frame
      if the head could not be moved there, which the entry program does not look at. */
  function WordsAt(f: seq<byte>, headroom: nat): (at: nat)
    requires Classify(f).ToPrepareOK?
    ensures at + DATA_LEN <= |f|
  {
    if HeadOutOfRange(headroom + Classify(f).head, headroom + |f|) then 0 else Classify(f).head
  }

  /** The leader's ingress path for a frame with so much headroom before it; `head` is where
      the packet starts afterwards, counted from where the frame started. */
  method HandleAckFrame(quorum: QuorumTable.Leader, f: seq<byte>, headroom: nat) returns (verdict: FrameVerdict, head: int)
    requires quorum.Valid()
    modifies quorum.table
    ensures quorum.Valid()
    ensures !Classify(f).ToPrepareOK? ==> verdict == PassFrame && head == 0 && quorum.table[..] == old(quorum.table[..])
    ensures Classify(f).ToPrepareOK? ==>
              var a := ParseAck(f, WordsAt(f, headroom));
              var v := QuorumTable.AckVerdict(old(quorum.table[..]), a.key, a.replica, quorum.clusterSize);
              && quorum.table[..] == QuorumTable.Acked(old(quorum.table[..]), a.key, a.replica)
              && verdict == (if v == QuorumTable.Drop then DropFrame else PassFrame)
              && (v == QuorumTable.Pass(false) ==> head == WordsAt(f, headroom))
              // a completing ack is passed up as it came exactly when an Ethernet header's
              // worth of bytes follows the type string, or the head cannot be moved back either
              && (v == QuorumTable.Pass(true) ==>
                    (head == 0 <==> Classify(f).head + ETH_LEN <= |f| || headroom < Classify(f).head))
              && (v == QuorumTable.Pass(true) && head != 0 ==> head + Classify(f).head == 0)
  {
    hide Le32, Le64, IsPrepare, IsPrepareOK, IsMyPrepareOK;
    head := 0;
    var d := Classify(f);
    if !d.ToPrepareOK? {
      return PassFrame, 0;
    }
    var context := d.head;
    if !HeadOutOfRange(headroom + context, headroom + |f|) {
      head := context;
    }
    // the handler's own length test cannot fail
    assert head == WordsAt(f, headroom) && head + DATA_LEN <= |f|;
    var v := quorum.HandlePrepareOK(Le32(f, head), Le32(f, head + 4), Le32(f, head + 8));
    if v == QuorumTable.Drop {
      return DropFrame, head;
    }
    if v.headRestored && !HeadOutOfRange(headroom + head - context, headroom + |f|) {
      head := head - context;
    }
    return PassFrame, head;
  }

  // ----- the reply is understood -----------------------------------------------------------------------

  lemma HeadersLeavePayload(f: seq<byte>, leader: LeaderInfo)
    requires REPLY_END <= |f| && leader.Valid()
    ensures var r := ReplyHeaders(f, leader);
            && r[PAYLOAD_AT..] == f[PAYLOAD_AT..]
            && r[UDP_DEST_AT..UDP_DEST_AT + 2] == leader.port
            && r[IP_PROTOCOL_AT] == f[IP_PROTOCOL_AT]
  {
    hide HeaderSum, IpChecksum;
  }

  lemma PayloadFields(f: seq<byte>, s: FollowerState)
    requires REPLY_END <= |f|
    ensures var r := ReplyPayload(f, s);
            && r[PAYLOAD_AT..TYPE_LEN_AT] == MAGIC
            && r[TYPE_LEN_AT..TYPE_AT] == Le64Bytes(MYPREPAREOK_TYPE_LEN)
            && r[TYPE_AT..TYPE_AT + 13] == f[TYPE_AT..TYPE_AT + 13]
            && r[TYPE_AT + 13..REPLY_DATA_AT] == Ascii("MyPrepareOK")
            && r[REPLY_DATA_AT..REPLY_DATA_AT + DATA_LEN] == AckWords(s)
            && r[..PAYLOAD_AT] == f[..PAYLOAD_AT]
  {
    hide Le64Bytes, AckWords, AckProto, Ascii;
  }

  /** What the leader sees of a transmitted reply. */
  function ReplyFrame(f: seq<byte>, s: FollowerState, leader: LeaderInfo): (r: seq<byte>)
    requires REPLY_END <= |f| && leader.Valid()
    ensures |r| == REPLY_END
  {
    ReplyHeaders(ReplyPayload(f, s), leader)[..REPLY_END]
  }

  lemma ReplyFields(f: seq<byte>, s: FollowerState, leader: LeaderInfo)
    requires REPLY_END <= |f| && leader.Valid()
    ensures var r := ReplyFrame(f, s, leader);
            && r[UDP_DEST_AT..UDP_DEST_AT + 2] == leader.port
            && r[IP_PROTOCOL_AT] == f[IP_PROTOCOL_AT]
            && r[PAYLOAD_AT..TYPE_LEN_AT] == MAGIC
            && r[TYPE_LEN_AT..TYPE_AT] == Le64Bytes(MYPREPAREOK_TYPE_LEN)
            && r[TYPE_AT..TYPE_AT + 13] == f[TYPE_AT..TYPE_AT + 13]
            && r[TYPE_AT + 13..REPLY_DATA_AT] == Ascii("MyPrepareOK")
            && r[REPLY_DATA_AT..REPLY_DATA_AT + DATA_LEN] == AckWords(s)
  {
    hide ReplyPayload, ReplyHeaders, Le64Bytes, AckWords, Ascii;
    var p := ReplyPayload(f, s);
    var h := ReplyHeaders(p, leader);
    var r := ReplyFrame(f, s, leader);
    HeadersLeavePayload(p, leader);
    PayloadFields(f, s);
    assert p[IP_PROTOCOL_AT] == p[..PAYLOAD_AT][IP_PROTOCOL_AT] && f[IP_PROTOCOL_AT] == f[..PAYLOAD_AT][IP_PROTOCOL_AT];
    Slices(r, h, p);
  }

  /** Two bytes in network order. */
  function Be16At(f: seq<byte>, at: nat): (v: nat)
    requires at + 2 <= |f|
  {
    0x100 * (f[at] as int) + f[at + 1]
  }

  /** Where a reply goes: back through the interfaces it came by, from the address and port it
      was sent to, to the leader's; and both lengths are those of the shortened frame. */
  lemma ReplyAddressing(f: seq<byte>, s: FollowerState, leader: LeaderInfo)
    requires REPLY_END <= |f| && leader.Valid()
    ensures var r := ReplyFrame(f, s, leader);
            && |r| == 118
            && r[0..6] == f[6..12] && r[6..12] == f[0..6] && r[12..14] == f[12..14]
            && r[26..30] == f[30..34] && r[30..34] == leader.addr
            && r[34..36] == f[36..38] && r[36..38] == leader.port && r[40..42] == [0, 0]
            && Be16At(r, 38) == |r| - 34 && Be16At(r, 16) == |r| - 14
            && r[14..16] == f[14..16] && r[18..24] == f[18..24]
  {
    hide ReplyPayload, ReplyHeaders;
    var p := ReplyPayload(f, s);
    PayloadFields(f, s);
    assert forall i :: 0 <= i < PAYLOAD_AT ==> p[i] == p[..PAYLOAD_AT][i] == f[i];
    HeaderFields(p, leader);
    var h := ReplyHeaders(p, leader);
    var r := ReplyFrame(f, s, leader);
    assert forall i :: 0 <= i < REPLY_END ==> r[i] == h[i];
  }

  /** The same byte by byte for the header rewrite alone. */
  lemma HeaderFields(p: seq<byte>, leader: LeaderInfo)
    requires REPLY_END <= |p| && leader.Valid()
    ensures var h := ReplyHeaders(p, leader);
            && (forall i :: 0 <= i < 6 ==> h[i] == p[i + 6])
            && (forall i :: 6 <= i < 12 ==> h[i] == p[i - 6])
            && h[12] == p[12] && h[13] == p[13] && h[14] == p[14] && h[15] == p[15]
            && h[16] == 0 && h[17] == 104
            && (forall i :: 18 <= i < 24 ==> h[i] == p[i])
            && (forall i :: 26 <= i < 30 ==> h[i] == p[i + 4])
            && (forall i :: 30 <= i < 34 ==> h[i] == leader.addr[i - 30])
            && (forall i :: 34 <= i < 36 ==> h[i] == p[i + 2])
            && (forall i :: 36 <= i < 38 ==> h[i] == leader.port[i - 36])
            && h[38] == 0 && h[39] == 84 && h[40] == 0 && h[41] == 0
  {
    hide HeaderSum, IpChecksum, Patch;
    assert Be16(104) == [0, 104] && Be16(84) == [0, 84];
  }

  /** What the leader's two programs read: three words for the kernel, and after them a length
      and the same three values in full for user space. */
  lemma ReplyMessage(f: seq<byte>, s: FollowerState, leader: LeaderInfo)
    requires REPLY_END <= |f| && leader.Valid()
    ensures var r := ReplyFrame(f, s, leader);
            && Le32(r, 78) == s.view % 0x1_0000_0000 && Le32(r, 82) == s.context % 0x1_0000_0000 && Le32(r, 86) == s.myIdx
            && Le64(r, 90) == 20 && Le64(r, 98) == s.view && Le64(r, 106) == s.context && Le32(r, 114) == s.myIdx
  {
    hide Le32, Le64, Le32Bytes, Le64Bytes, ReplyHeaders, HalfReply;
    var p := ReplyPayload(f, s);
    var r := ReplyFrame(f, s, leader);
    HeadersLeavePayload(p, leader);
    Slices(r, ReplyHeaders(p, leader), p);
    ReplyFields(f, s, leader);
    AckWordsParse(r, REPLY_DATA_AT, s);
    var b := AckProto(s);
    assert p[90..118] == b;
    assert r[90..118] == b;
    SubSlice(r, 90, 118, 0, 8);
    SubSlice(r, 90, 118, 8, 16);
    SubSlice(r, 90, 118, 16, 24);
    SubSlice(r, 90, 118, 24, 28);
    assert b[0..8] == Le64Bytes(20) && b[8..16] == Le64Bytes(s.view) && b[16..24] == Le64Bytes(s.context);
    assert b[24..28] == Le32Bytes(s.myIdx) == Le32Bytes(s.myIdx)[0..4];
    Le64Read(r, 90, 20);
    Le64Read(r, 98, s.view);
    Le64Read(r, 106, s.context);
    Le32Same(r, 114, Le32Bytes(s.myIdx), 0);
    Le32RoundTrip(s.myIdx);
  }

  /** The header checksum of the reply, folded once as this program does it, is right exactly
      when that fold leaves no carry. */
  lemma ReplyChecksumIff(f: seq<byte>, s: FollowerState, leader: LeaderInfo)
    requires REPLY_END <= |f| && leader.Valid()
    ensures var h := Encapsulation.ParseHeader(ReplyFrame(f, s, leader)[14..34]);
            var sum := InternetChecksum.Sum(h.(check := 0));
            InternetChecksum.Verifies(h) <==> sum % 0x1_0000 + sum / 0x1_0000 <= 0xffff
  {
    hide ReplyHeaders, ReplyPayload, HeaderSum, CheckBytes, Encapsulation.ParseHeader,
         InternetChecksum.Sum, InternetChecksum.Verifies;
    var p := ReplyPayload(f, s);
    var b := ReplyFrame(f, s, leader)[14..34];
    assert b == ReplyHeaders(p, leader)[14..34];
    HeaderFields(p, leader);
    ChecksumBytes(p, leader);
    HeaderChecksumIff(b);
  }

  /** Any header whose checksum field was filled in by one fold. */
  lemma HeaderChecksumIff(b: seq<byte>)
    requires |b| == 20 && b[2] == 0 && b[3] > 0
    requires b[10..12] == CheckBytes(HeaderSum(b[10 := 0][11 := 0]))
    ensures var h := Encapsulation.ParseHeader(b);
            var sum := InternetChecksum.Sum(h.(check := 0));
            InternetChecksum.Verifies(h) <==> sum % 0x1_0000 + sum / 0x1_0000 <= 0xffff
  {
    hide HeaderSum, InternetChecksum.Verifies;
    var h, z := Encapsulation.ParseHeader(b), b[10 := 0][11 := 0];
    ZeroedCheck(b);
    SumOfHeader(z);
    var sum := InternetChecksum.Sum(h.(check := 0));
    CheckWord(sum, b);
    assert h.totLen > 0;
    InternetChecksum.SingleFoldVerifiesIff(h.(check := 0));
    assert h.(check := 0).(check := h.check) == h;
  }

  lemma ZeroedCheck(b: seq<byte>)
    requires |b| == 20
    ensures Encapsulation.ParseHeader(b[10 := 0][11 := 0]) == Encapsulation.ParseHeader(b).(check := 0)
  {
    hide Le32;
    var z := b[10 := 0][11 := 0];
    assert z[12..16] == b[12..16] && z[16..20] == b[16..20];
    Le32Same(z, 12, b, 12);
    Le32Same(z, 16, b, 16);
  }

  /** Summing the bytes of a header in pairs is summing its fields. */
  lemma SumOfHeader(b: seq<byte>)
    requires |b| == 20
    ensures HeaderSum(b) == InternetChecksum.Sum(Encapsulation.ParseHeader(b))
  {
    hide Le32;
    Halves(b, 12);
    Halves(b, 16);
    SumOfTail(b, 12);
    SumOfTail(b, 4);
  }

  lemma {:induction false} SumOfTail(b: seq<byte>, at: nat)
    requires at + 8 <= |b|
    ensures HeaderSum(b[at..]) == Le16(b, at) + Le16(b, at + 2) + Le16(b, at + 4) + Le16(b, at + 6) + HeaderSum(b[at + 8..])
  {
    SumOfPair(b, at);
    SumOfPair(b, at + 2);
    SumOfPair(b, at + 4);
    SumOfPair(b, at + 6);
  }

  lemma SumOfPair(b: seq<byte>, at: nat)
    requires at + 2 <= |b|
    ensures HeaderSum(b[at..]) == Le16(b, at) + HeaderSum(b[at + 2..])
  {
    assert b[at..][2..] == b[at + 2..];
  }

  lemma Halves(b: seq<byte>, at: nat)
    requires at + 4 <= |b|
    ensures Le32(b, at) % 0x1_0000 == Le16(b, at) && Le32(b, at) / 0x1_0000 == Le16(b, at + 2)
  {
    assert Le32(b, at) == Le16(b, at) + 0x1_0000 * Le16(b, at + 2);
  }

  lemma CheckWord(sum: nat, b: seq<byte>)
    requires |b| == 20 && sum <= 10 * 0xffff && b[10..12] == CheckBytes(sum)
    ensures Le16(b, 10) == (0xffff_ffff - (sum % 0x1_0000 + sum / 0x1_0000)) % 0x1_0000
  {
    var c := 0xffff_ffff - (sum % 0x1_0000 + sum / 0x1_0000);
    assert b[10] == b[10..12][0] == c % 0x100 && b[11] == b[10..12][1] == c / 0x100 % 0x100;
    LowWord(c);
  }

  lemma LowWord(c: nat)
    ensures c % 0x1_0000 == c % 0x100 + 0x100 * (c / 0x100 % 0x100)
  {
    var q := c / 0x100;
    assert c == c % 0x100 + 0x100 * (q % 0x100 + 0x100 * (q / 0x100));
  }

  /** The checksum is computed over the header as it is sent. */
  lemma ChecksumBytes(p: seq<byte>, leader: LeaderInfo)
    requires REPLY_END <= |p| && leader.Valid()
    ensures var b := ReplyHeaders(p, leader)[14..34];
            b[10..12] == CheckBytes(HeaderSum(b[10 := 0][11 := 0]))
  {
    hide HeaderSum, CheckBytes;
    var a := Patch(p, UDP_AT, p[UDP_DEST_AT..UDP_DEST_AT + 2] + leader.port + Be16(REPLY_END - UDP_AT) + [0, 0]);
    var b1 := Patch(a, IP_TOT_LEN_AT, Be16(REPLY_END - UDP_AT + 20));
    var c := Patch(b1, IP_SADDR_AT, b1[IP_DADDR_AT..IP_DADDR_AT + 4] + leader.addr);
    var h := ReplyHeaders(p, leader);
    var b := h[14..34];
    assert forall i :: 14 <= i < 34 && i != 24 && i != 25 ==> h[i] == c[i];
    assert b[10 := 0][11 := 0] == Patch(c, IP_CHECK_AT, [0, 0])[14..UDP_AT];
    assert h[24] == IpChecksum(c)[0] && h[25] == IpChecksum(c)[1];
  }

  /** Slices of the payload part survive the header rewrite and the truncation. */
  lemma Slices(r: seq<byte>, h: seq<byte>, p: seq<byte>)
    requires REPLY_END <= |h| == |p| && r == h[..REPLY_END] && h[PAYLOAD_AT..] == p[PAYLOAD_AT..]
    ensures r[UDP_DEST_AT..UDP_DEST_AT + 2] == h[UDP_DEST_AT..UDP_DEST_AT + 2] && r[IP_PROTOCOL_AT] == h[IP_PROTOCOL_AT]
    ensures forall i, j :: PAYLOAD_AT <= i <= j <= REPLY_END ==> r[i..j] == p[i..j]
  {
    forall i, j | PAYLOAD_AT <= i <= j <= REPLY_END
      ensures r[i..j] == p[i..j]
    {
      assert h[i..j] == h[PAYLOAD_AT..][i - PAYLOAD_AT..j - PAYLOAD_AT];
      assert p[i..j] == p[PAYLOAD_AT..][i - PAYLOAD_AT..j - PAYLOAD_AT];
    }
  }

  lemma AckWordsParse(f: seq<byte>, at: nat, s: FollowerState)
    requires at + DATA_LEN <= |f| && f[at..at + DATA_LEN] == AckWords(s)
    ensures ParseAck(f, at) == Reply(s)
  {
    hide Le32, Le32Bytes;
    var w := AckWords(s);
    var b0, b1, b2 := Le32Bytes(Low32(s.view)), Le32Bytes(Low32(s.context)), Le32Bytes(s.myIdx);
    assert f[at..at + 4] == w[0..4] == b0[0..4];
    assert f[at + 4..at + 8] == w[4..8] == b1[0..4];
    assert f[at + 8..at + 12] == w[8..12] == b2[0..4];
    Le32Same(f, at, b0, 0);
    Le32Same(f, at + 4, b1, 0);
    Le32Same(f, at + 8, b2, 0);
    Le32RoundTrip(Low32(s.view));
    Le32RoundTrip(Low32(s.context));
    Le32RoundTrip(s.myIdx);
  }

  /** A reply written over any Prepare frame is classified as a PrepareOK by the leader,
      whose parse yields the low 32 bits of the follower's view and operation number and
      the follower's index. */
  lemma ReplyIsUnderstood(f: seq<byte>, s: FollowerState, leader: LeaderInfo)
    requires Classify(f) == ToPrepare && REPLY_END <= |f|
    requires leader.Valid() && leader.port == PORT
    ensures var r := ReplyFrame(f, s, leader);
            && Classify(r) == ToPrepareOK(REPLY_DATA_AT)
            && ParseAck(r, REPLY_DATA_AT) == Reply(s)
  {
    hide ReplyFrame, Le64, Le64Bytes, AckWords, Le32;
    var r := ReplyFrame(f, s, leader);
    ReplyFields(f, s, leader);
    Le64Read(r, TYPE_LEN_AT, MYPREPAREOK_TYPE_LEN);
    AckWordsParse(r, REPLY_DATA_AT, s);
    assert r[TYPE_AT + 10..TYPE_AT + 12] == Ascii("vr") by {
      SubSlice(r, TYPE_AT, TYPE_AT + 13, 10, 12);
      SubSlice(f, TYPE_AT, TYPE_AT + 13, 10, 12);
    }
    TypeStringIsMine(r);
  }

  lemma TypeStringIsMine(r: seq<byte>)
    requires REPLY_END <= |r| && r[TYPE_AT + 13..REPLY_DATA_AT] == Ascii("MyPrepareOK")
    ensures !At(r, TYPE_AT + 19, Ascii("PrepareM")) && !At(r, TYPE_AT + 19, Ascii("PrepareO"))
    ensures At(r, TYPE_AT + 13, Ascii("MyPr"))
  {
    var t := r[TYPE_AT + 13..REPLY_DATA_AT];
    assert r[TYPE_AT + 19] == t[6] == 'a' as int;
    assert r[TYPE_AT + 19..TYPE_AT + 27][0] == r[TYPE_AT + 19];
    assert Ascii("PrepareM")[0] == 'P' as int && Ascii("PrepareO")[0] == 'P' as int;
    assert t[0..4] == Ascii("MyPr");
    assert r[TYPE_AT + 13..TYPE_AT + 17] == t[0..4];
  }
}
