/** Packet bytes and the little-endian fields that the programs read and write through
    pointer casts. */
module Bytes {
  type byte = x: int | 0 <= x < 256
  type u16 = x: int | 0 <= x < 0x1_0000
  type u32 = x: int | 0 <= x < 0x1_0000_0000
  type u64 = x: int | 0 <= x < 0x1_0000_0000_0000_0000

  function Le16(s: seq<byte>, at: nat): (v: u16)
    requires at + 2 <= |s|
  {
    s[at] + 0x100 * (s[at + 1] as int)
  }

  function Le32(s: seq<byte>, at: nat): (v: u32)
    requires at + 4 <= |s|
  {
    var b0: int, b1: int, b2: int, b3: int := s[at], s[at + 1], s[at + 2], s[at + 3];
    b0 + 0x100 * (b1 + 0x100 * (b2 + 0x100 * b3))
  }

  function Le32Bytes(v: u32): (b: seq<byte>)
    ensures |b| == 4
  {
    var w := v / 0x100;
    var x := w / 0x100;
    [v % 0x100, w % 0x100, x % 0x100, x / 0x100]
  }

  function Le64(s: seq<byte>, at: nat): (v: u64)
    requires at + 8 <= |s|
  {
    Le32(s, at) + 0x1_0000_0000 * Le32(s, at + 4)
  }

  function Le64Bytes(v: u64): (b: seq<byte>)
    ensures |b| == 8
  {
    Le32Bytes(v % 0x1_0000_0000) + Le32Bytes(v / 0x1_0000_0000)
  }

  /** Overwriting the bytes from `at` on, the length unchanged. */
  function Patch(s: seq<byte>, at: nat, b: seq<byte>): (r: seq<byte>)
    requires at + |b| <= |s|
    ensures |r| == |s|
    ensures forall i :: 0 <= i < |s| ==> r[i] == if at <= i < at + |b| then b[i - at] else s[i]
  {
    s[..at] + b + s[at + |b|..]
  }

  lemma Le32RoundTrip(v: u32)
    ensures Le32(Le32Bytes(v), 0) == v
  {
  }

  lemma Le32BytesOf(b0: byte, b1: byte, b2: byte, b3: byte)
    ensures Le32Bytes(Le32([b0, b1, b2, b3], 0)) == [b0, b1, b2, b3]
  {
    var c0: int, c1: int, c2: int, c3: int := b0, b1, b2, b3;
    var v := Le32([b0, b1, b2, b3], 0);
    assert v / 0x100 == c1 + 0x100 * (c2 + 0x100 * c3);
    assert v / 0x100 / 0x100 == c2 + 0x100 * c3;
  }

  /** A field reads the same wherever its bytes are the same. */
  lemma Le32Same(s: seq<byte>, i: nat, t: seq<byte>, j: nat)
    requires i + 4 <= |s| && j + 4 <= |t|
    requires s[i..i + 4] == t[j..j + 4]
    ensures Le32(s, i) == Le32(t, j)
  {
    var u := s[i..i + 4];
    assert u[0] == s[i] && u[1] == s[i + 1] && u[2] == s[i + 2] && u[3] == s[i + 3];
    assert u[0] == t[j] && u[1] == t[j + 1] && u[2] == t[j + 2] && u[3] == t[j + 3];
  }

  lemma SubSlice(s: seq<byte>, a: nat, b: nat, i: nat, j: nat)
    requires a <= b <= |s| && i <= j <= b - a
    ensures s[a..b][i..j] == s[a + i..a + j]
  {
    var t, u := s[a..b][i..j], s[a + i..a + j];
    forall n | 0 <= n < j - i
      ensures t[n] == u[n]
    {
      assert t[n] == s[a..b][i + n];
    }
  }

  lemma Le64Read(s: seq<byte>, at: nat, v: u64)
    requires at + 8 <= |s| && s[at..at + 8] == Le64Bytes(v)
    ensures Le64(s, at) == v
  {
    hide Le64Bytes;
    assert Patch(s, at, Le64Bytes(v)) == s;
    Le64Patched(s, at, v);
  }

  lemma Le64Patched(s: seq<byte>, at: nat, v: u64)
    requires at + 8 <= |s|
    ensures Le64(Patch(s, at, Le64Bytes(v)), at) == v
  {
    var r, lo, hi := Patch(s, at, Le64Bytes(v)), v % 0x1_0000_0000, v / 0x1_0000_0000;
    assert r[at..at + 4] == Le32Bytes(lo)[0..4] && r[at + 4..at + 8] == Le32Bytes(hi)[0..4];
    Le32Same(r, at, Le32Bytes(lo), 0);
    Le32Same(r, at + 4, Le32Bytes(hi), 0);
    Le32RoundTrip(lo);
    Le32RoundTrip(hi);
  }

  /** Copying bytes into a packet buffer. */
  method Store(buf: array<byte>, at: nat, b: seq<byte>)
    requires at + |b| <= buf.Length
    modifies buf
    ensures buf[..] == Patch(old(buf[..]), at, b)
  {
    for i := 0 to |b|
      invariant buf[..] == Patch(old(buf[..]), at, b[..i])
    {
      buf[at + i] := b[i];
    }
    assert b[..|b|] == b;
  }
}
