/** The messages of the protocol laid out byte by byte, and what the programs of leader and
    follower make of them: they speak of the same view and operation throughout. */
module ElectrodeAgreement {
  import opened Bytes
  import opened ElectrodeFormat
  import opened Electrode
  import opened ElectrodeWire
  import Broadcast
  import QuorumTable

  // the type strings, with the parts that the programs look at set off
  const PREPARE := "specpaxos." + "vr" + ".proto." + "PrepareM" + "essage"
  const PREPARE_OK := "specpaxos." + "vr" + ".proto." + "PrepareO" + "KMessage"
  const MY_PREPARE_OK := "specpaxos." + "vr" + "." + "MyPr" + "ep" + "areOK"

  /** What follows the UDP header: magic number, type string with its length, three words. */
  function Message(name: string, view: u32, op: u32, third: u32, rest: seq<byte>): (p: seq<byte>)
    requires |name| < 1500
    ensures |p| == 24 + |name| + |rest|
  {
    [0x18, 0x03, 0x05, 0x20] + Le64Bytes(|name|) + Ascii(name) + Le32Bytes(view) + Le32Bytes(op) + Le32Bytes(third) + rest
  }

  /** Where the parts of a message are. */
  lemma MessageParts(name: string, view: u32, op: u32, third: u32, rest: seq<byte>)
    requires |name| < 1500
    ensures var p, n := Message(name, view, op, third, rest), |name|;
            && p[..4] == MAGIC && p[4..12] == Le64Bytes(n) && Le64(p, 4) == n
            && p[12..12 + n] == Ascii(name)
            && Le32(p, 12 + n) == view && Le32(p, 16 + n) == op && Le32(p, 20 + n) == third
  {
    hide Le32, Le64, Le32Bytes, Le64Bytes, Ascii;
    var p, n := Message(name, view, op, third, rest), |name|;
    Le64Read(p, 4, n);
    WordAt(p, 12 + n, view);
    WordAt(p, 16 + n, op);
    WordAt(p, 20 + n, third);
  }

  lemma WordAt(p: seq<byte>, at: nat, v: u32)
    requires at + 4 <= |p| && p[at..at + 4] == Le32Bytes(v)
    ensures Le32(p, at) == v
  {
    hide Le32, Le32Bytes;
    assert Le32Bytes(v)[0..4] == Le32Bytes(v);
    Le32Same(p, at, Le32Bytes(v), 0);
    Le32RoundTrip(v);
  }

  /** A frame of the protocol: any headers with the right protocol and port, then a message. */
  predicate Carries(f: seq<byte>, p: seq<byte>) {
    |f| == 42 + |p| && f[42..] == p && f[23] == 17 && f[36..38] == [0x30, 0x39]
  }

  lemma Carried(f: seq<byte>, p: seq<byte>, i: nat, j: nat)
    requires Carries(f, p) && i <= j <= |p|
    ensures f[42 + i..42 + j] == p[i..j]
  {
    assert f[42..|f|] == p;
    SubSlice(f, 42, |f|, i, j);
  }

  lemma CarriedWord(f: seq<byte>, p: seq<byte>, i: nat)
    requires Carries(f, p) && i + 4 <= |p|
    ensures Le32(f, 42 + i) == Le32(p, i)
  {
    hide Le32;
    Carried(f, p, i, i + 4);
    Le32Same(f, 42 + i, p, i);
  }

  /** A frame that carries a message is the protocol's, with the message's type string. */
  lemma CarriedMessage(f: seq<byte>, name: string, view: u32, op: u32, third: u32, rest: seq<byte>)
    requires |name| < 1500 && Carries(f, Message(name, view, op, third, rest))
    ensures IsProtocolFrame(f) && Le64(f, TYPE_LEN_AT) == |name|
    ensures f[54..54 + |name|] == Ascii(name)
    ensures Le32(f, 54 + |name|) == view && Le32(f, 58 + |name|) == op && Le32(f, 62 + |name|) == third
  {
    hide Le32, Le32Bytes, Ascii, Message;
    var p, n := Message(name, view, op, third, rest), |name|;
    MessageParts(name, view, op, third, rest);
    Carried(f, p, 0, 4);
    assert p[0..4] == p[..4];
    Carried(f, p, 12, 12 + n);
    CarriedWord(f, p, 4);
    CarriedWord(f, p, 8);
    CarriedWord(f, p, 12 + n);
    CarriedWord(f, p, 16 + n);
    CarriedWord(f, p, 20 + n);
  }

  lemma TypeBytes(f: seq<byte>, name: string, i: nat, part: string)
    requires 54 + |name| <= |f| && f[54..54 + |name|] == Ascii(name) && i + |part| <= |name| && name[i..i + |part|] == part
    ensures At(f, 54 + i, Ascii(part))
  {
    SubSlice(f, 54, 54 + |name|, i, i + |part|);
    forall k | 0 <= k < |part|
      ensures Ascii(name)[i..i + |part|][k] == Ascii(part)[k]
    {
      assert name[i + k] == name[i..i + |part|][k] == part[k];
    }
  }

  /** The parts of the type strings that are looked at. */
  lemma Names()
    ensures PREPARE[0] == 's' && PREPARE[1] == 'p' && PREPARE[10..12] == "vr" && PREPARE[19..27] == "PrepareM"
    ensures PREPARE_OK[10..12] == "vr" && PREPARE_OK[19..27] == "PrepareO"
    ensures MY_PREPARE_OK[10..12] == "vr" && MY_PREPARE_OK[13..17] == "MyPr" && MY_PREPARE_OK[19..24] == "areOK"
  {
    assert PREPARE[..10] == "specpaxos." && PREPARE[0] == PREPARE[..10][0] && PREPARE[1] == PREPARE[..10][1];
  }

  /** The three type strings reach their handlers. */
  lemma MessagesAreDispatched(f: seq<byte>, name: string, view: u32, op: u32, third: u32, rest: seq<byte>)
    requires |name| < 1500 && Carries(f, Message(name, view, op, third, rest))
    ensures name == PREPARE ==> Classify(f) == ToPrepare && ParsePrepare(f) == Prepare(view, op, third)
    ensures name == PREPARE_OK || name == MY_PREPARE_OK ==>
              && Classify(f) == ToPrepareOK(54 + |name|)
              && ParseAck(f, 54 + |name|) == AckMsg(QuorumTable.Key(view, op), third)
  {
    hide Le32, Le64, Message, Carries, IsProtocolFrame, At, Ascii;
    assert |f| >= 66 + |name| by { CarriedLength(f, name, view, op, third, rest); }
    CarriedMessage(f, name, view, op, third, rest);
    Names();
    if name == PREPARE {
      TypeBytes(f, name, 10, "vr");
      TypeBytes(f, name, 19, "PrepareM");
    } else if name == PREPARE_OK {
      TypeBytes(f, name, 10, "vr");
      TypeBytes(f, name, 19, "PrepareO");
      NotAt(f, 54 + 19, "PrepareO", "PrepareM");
    } else if name == MY_PREPARE_OK {
      TypeBytes(f, name, 10, "vr");
      TypeBytes(f, name, 13, "MyPr");
      TypeBytes(f, name, 19, "areOK");
      NotPrefix(f);
    }
  }

  lemma CarriedLength(f: seq<byte>, name: string, view: u32, op: u32, third: u32, rest: seq<byte>)
    requires |name| < 1500 && Carries(f, Message(name, view, op, third, rest))
    ensures |f| >= 66 + |name|
  {
  }

  lemma NotAt(f: seq<byte>, at: nat, a: string, b: string)
    requires |a| == |b| == 8 && a[7] as int % 256 != b[7] as int % 256 && At(f, at, Ascii(a))
    ensures !At(f, at, Ascii(b))
  {
    assert f[at..at + 8][7] == Ascii(a)[7];
  }

  lemma NotPrefix(f: seq<byte>)
    requires At(f, 73, Ascii("areOK"))
    ensures !At(f, 73, Ascii("PrepareM")) && !At(f, 73, Ascii("PrepareO"))
  {
    assert f[73] == f[73..78][0] == Ascii("areOK")[0] == 'a' as int;
    if 81 <= |f| {
      assert f[73..81][0] == f[73];
      assert Ascii("PrepareM")[0] == 'P' as int && Ascii("PrepareO")[0] == 'P' as int;
    }
  }

  /** A Prepare broadcast by the leader: its egress program opens exactly the entry of the
      message's view and operation, and each copy is the message with the bit cleared. */
  lemma BroadcastOpensItsKey(view: u32, op: u32, start: u32, rest: seq<byte>)
    requires view < 0x8000_0000
    ensures var p := Message(PREPARE, 0x8000_0000 + view, op, start, rest);
            && Broadcast.Parses(p) && Broadcast.IsBroadcast(p) && Broadcast.IsPrepare(p)
            && Broadcast.Fresh(p) && Broadcast.Separate(p)
            && Broadcast.EntryKey(p) == QuorumTable.Key(view, op)
            && Broadcast.Restored(p) == Message(PREPARE, view, op, start, rest)
  {
    hide Le32, Le64, Le32Bytes, Le64Bytes, Ascii, Message, Broadcast.Restore;
    var p := Message(PREPARE, 0x8000_0000 + view, op, start, rest);
    MessageParts(PREPARE, 0x8000_0000 + view, op, start, rest);
    PayloadType(p);
    assert Broadcast.ViewAt(p) == 45;
    RestoredMessage(view, op, start, rest);
  }

  lemma PayloadType(p: seq<byte>)
    requires 57 <= |p| && p[12..45] == Ascii(PREPARE)
    ensures Broadcast.IsPrepare(p) && p[12] == 's' as int && p[13] == 'p' as int
  {
    Names();
    forall i | 0 <= i < 33
      ensures p[12 + i] == PREPARE[i] as int % 256
    {
      assert p[12..45][i] == p[12 + i];
    }
    PayloadPart(p, 10, "vr");
    PayloadPart(p, 19, "PrepareM");
  }

  lemma PayloadPart(p: seq<byte>, i: nat, part: string)
    requires 57 <= |p| && i + |part| <= 33 && PREPARE[i..i + |part|] == part
    requires forall k :: 0 <= k < 33 ==> p[12 + k] == PREPARE[k] as int % 256
    ensures At(p, 12 + i, Ascii(part))
  {
    forall k | 0 <= k < |part|
      ensures p[12 + i..12 + i + |part|][k] == Ascii(part)[k]
    {
      assert p[12 + i..12 + i + |part|][k] == p[12 + (i + k)];
      assert PREPARE[i + k] == PREPARE[i..i + |part|][k] == part[k];
    }
  }

  /** Clearing the bit in a broadcast message gives the plain one. */
  lemma RestoredMessage(view: u32, op: u32, start: u32, rest: seq<byte>)
    requires view < 0x8000_0000
    ensures var p, q := Message(PREPARE, 0x8000_0000 + view, op, start, rest), Message(PREPARE, view, op, start, rest);
            Broadcast.Parses(p) && Broadcast.ViewAt(p) == 45 ==> Broadcast.Restore(p, view) == q
  {
    hide Le32, Le64, Le32Bytes, Le64Bytes, Broadcast.Parses;
    var p, q := Message(PREPARE, 0x8000_0000 + view, op, start, rest), Message(PREPARE, view, op, start, rest);
    Names();
    var w := Le32Bytes(view);
    assert q == p[..45] + w + p[49..];
    assert p[12] == Ascii(PREPARE)[0] == 's' as int && p[13] == Ascii(PREPARE)[1] == 'p' as int;
    if Broadcast.Parses(p) && Broadcast.ViewAt(p) == 45 {
      assert Patch(p, 45, w) == q;
      assert Patch(q, 12, ['s' as int, 'p' as int]) == q;
    }
  }

  /** From the leader's broadcast to its quorum table: a follower that accepts the copy it
      gets acks the very entry that the leader opened. */
  lemma AckNamesTheOpenedEntry(view: u32, op: u32, start: u32, rest: seq<byte>, f: seq<byte>, s: FollowerState)
    requires view < 0x8000_0000
    requires var p := Message(PREPARE, 0x8000_0000 + view, op, start, rest);
             Broadcast.Parses(p) && Carries(f, Broadcast.Restored(p))
    requires s.status == Normal && s.view == view && op > s.lastOp && start <= s.lastOp + 1
    ensures Classify(f) == ToPrepare
    ensures Reply(AfterPrepare(s, ParsePrepare(f))) ==
            AckMsg(Broadcast.EntryKey(Message(PREPARE, 0x8000_0000 + view, op, start, rest)), s.myIdx)
  {
    hide Message, Broadcast.Restored, Broadcast.EntryKey, Carries, Classify;
    BroadcastOpensItsKey(view, op, start, rest);
    MessagesAreDispatched(f, PREPARE, view, op, start, rest);
    ParseableLength(f, view, op, start, rest);
  }

  lemma ParseableLength(f: seq<byte>, view: u32, op: u32, start: u32, rest: seq<byte>)
    requires Carries(f, Message(PREPARE, view, op, start, rest))
    ensures |f| >= PROTO_AT
  {
  }

  /** Only frames with the protocol's magic number, UDP and its port are looked at. */
  lemma OthersGoToTheStack(f: seq<byte>)
    requires Classify(f) != ToStack
    ensures |f| > 78 && f[23] == 17 && f[36..38] == [0x30, 0x39] && f[42..46] == [0x18, 0x03, 0x05, 0x20]
    ensures 54 + Le64(f, 46) <= |f| && Le64(f, 46) < 1500
  {
    hide Le64;
  }
}
