/** What the consensus programs agree on about their packets: a magic number, the length of
    a type string, the type string, and three message words. */
module ElectrodeFormat {
  import opened Bytes

  const MTU := 1500
  /** Entries of the replica configuration map. */
  const FAST_REPLICA_MAX := 100
  const PREPARE_TYPE_LEN := 33
  const PREPAREOK_TYPE_LEN := 35
  const MYPREPAREOK_TYPE_LEN := 24
  const DATA_LEN := 12
  const MAGIC: seq<byte> := [0x18, 0x03, 0x05, 0x20]

  function Ascii(s: string): (b: seq<byte>)
    ensures |b| == |s|
    ensures forall i :: 0 <= i < |s| ==> b[i] == s[i] as int % 256
  {
    seq(|s|, i requires 0 <= i < |s| => s[i] as int % 256)
  }

  predicate At(f: seq<byte>, at: nat, b: seq<byte>) {
    at + |b| <= |f| && f[at..at + |b|] == b
  }

  /** The bytes of the type string that the programs look at. */
  predicate PrepareType(f: seq<byte>, at: nat) {
    at + PREPARE_TYPE_LEN < |f| && At(f, at + 10, Ascii("vr")) && At(f, at + 19, Ascii("PrepareM"))
  }
}
