/** The in-kernel memcached cache: three separate byte scanners must agree on the slot of
    a key, so that a SET invalidates what a GET would be served from. */
module BmcCache {
  import opened Bytes

  const MAX_KEY_LENGTH := 250
  const MAX_DATA_SIZE := 1303
  const MAX_PACKET_LENGTH := 1500
  const ENTRY_COUNT := 2
  const SPACE: byte := 32
  const CR: byte := 13
  const LF: byte := 10

  // ----- hashing ---------------------------------------------------------------------------

  /** A signed char widened to 32 bits. */
  function SignExtended(c: byte): (r: bv32)
  {
    if c < 128 then c as bv32 else (c as bv32) | 0xFFFF_FF00
  }

  function HashStep(h: bv32, c: byte): (r: bv32)
  {
    (h ^ SignExtended(c)) * 16777619
  }

  /** FNV-1a over a key. */
  function Fnv(key: seq<byte>): (h: bv32)
  {
    if key == [] then 2166136261 else HashStep(Fnv(key[..|key| - 1]), key[|key| - 1])
  }

  function Slot(h: bv32): (i: nat)
    ensures i < ENTRY_COUNT
  {
    (h as int) % ENTRY_COUNT
  }

  /** Published values of the 32-bit FNV-1a hash, and one for a byte that is sign-extended. */
  lemma FnvVectors()
    ensures Fnv([97]) == 0xe40c292c
    ensures Fnv([97, 98]) == 0x4d2505ca
    ensures Fnv([255]) == 0xf9f3a14e
  {
    hide HashStep;
    assert [97][..0] == [] && [255][..0] == [] && [97, 98][..1] == [97];
    StepA();
    StepB();
    StepHigh();
  }

  lemma StepA()
    ensures HashStep(2166136261, 97) == 0xe40c292c
  {
    assert SignExtended(97) == 97;
  }

  lemma StepB()
    ensures HashStep(0xe40c292c, 98) == 0x4d2505ca
  {
    assert SignExtended(98) == 98;
  }

  lemma StepHigh()
    ensures HashStep(2166136261, 255) == 0xf9f3a14e
  {
    assert SignExtended(255) == 0xffff_ffff;
  }

  /** Two hashes fall into the same slot exactly when they differ by an even number. */
  lemma SlotsSeparate(a: bv32, b: bv32)
    ensures Slot(a) == Slot(b) <==> ((a as int) - (b as int)) % 2 == 0
  {
    SameParity(a as int, b as int);
  }

  lemma SameParity(x: int, y: int)
    ensures x % 2 == y % 2 <==> (x - y) % 2 == 0
  {
  }

  lemma FnvSnoc(p: seq<byte>, i: nat, j: nat)
    requires i <= j < |p|
    ensures Fnv(p[i..j + 1]) == HashStep(Fnv(p[i..j]), p[j])
  {
    hide HashStep;
    assert p[i..j + 1][..j - i] == p[i..j];
  }

  /** How many bytes a scanner takes: up to `max`, stopping at a byte in `stop`. */
  function KeyEnd(p: seq<byte>, from: nat, max: nat, stop: set<byte>): (end: nat)
    requires from <= |p|
    ensures from <= end <= |p| && end - from <= max
    ensures forall i :: from <= i < end ==> p[i] !in stop
    ensures end < |p| && end - from < max ==> p[end] in stop
    decreases max
  {
    if max == 0 || from == |p| || p[from] in stop then from else KeyEnd(p, from + 1, max - 1, stop)
  }

  lemma {:induction false} KeyEndIs(p: seq<byte>, from: nat, max: nat, stop: set<byte>, end: nat)
    requires from <= end <= |p| && end - from <= max
    requires forall i :: from <= i < end ==> p[i] !in stop
    requires end - from == max || end == |p| || p[end] in stop
    ensures KeyEnd(p, from, max, stop) == end
    decreases max
  {
    if from < end { KeyEndIs(p, from + 1, max - 1, stop, end); }
  }

  /** The scanner of GET requests. */
  method HashGetKey(payload: seq<byte>) returns (hash: bv32, keyLen: nat)
    ensures var end := KeyEnd(payload, 0, MAX_KEY_LENGTH + 1, {CR, SPACE});
            hash == Fnv(payload[0..end]) && keyLen == end
    ensures forall n :: KeyAt(payload, 0, n, {CR, SPACE}) && (n == |payload| || payload[n] in {CR, SPACE}) ==>
              hash == Fnv(payload[..n]) && keyLen == n
  {
    hide HashStep;
    hash, keyLen := 2166136261, 0;
    var off := 0;
    while off < MAX_KEY_LENGTH + 1 && off + 1 <= |payload|
      invariant off <= |payload| && off <= MAX_KEY_LENGTH + 1 && keyLen == off
      invariant forall i :: 0 <= i < off ==> payload[i] !in {CR, SPACE}
      invariant hash == Fnv(payload[0..off])
    {
      if payload[off] == CR {
        break;
      } else if payload[off] == SPACE {
        break;
      }
      FnvSnoc(payload, 0, off);
      hash := HashStep(hash, payload[off]);
      keyLen := keyLen + 1;
      off := off + 1;
    }
    KeyEndIs(payload, 0, MAX_KEY_LENGTH + 1, {CR, SPACE}, off);
    forall n | KeyAt(payload, 0, n, {CR, SPACE}) && (n == |payload| || payload[n] in {CR, SPACE})
      ensures hash == Fnv(payload[..n]) && keyLen == n
    {
      KeyEndIs(payload, 0, MAX_KEY_LENGTH + 1, {CR, SPACE}, n);
      assert payload[0..n] == payload[..n];
    }
  }

  /** A key of legal length from `from` to `end`, without any of the bytes that end one. */
  predicate KeyAt(p: seq<byte>, from: nat, end: int, stop: set<byte>) {
    from < end <= |p| && end - from <= MAX_KEY_LENGTH && forall i :: from <= i < end ==> p[i] !in stop
  }

  /** The scanner of GET replies, which start with "VALUE ". */
  method HashReplyKey(payload: seq<byte>) returns (hash: bv32)
    ensures hash == ReplyHash(payload)
    ensures forall n :: KeyAt(payload, 6, n, {SPACE}) && n < |payload| && payload[n] == SPACE ==> hash == Fnv(payload[6..n])
  {
    hide HashStep;
    hash := 2166136261;
    if |payload| < 6 {
      return;
    }
    var off := 6;
    assert payload[6..6] == [];
    while off - 6 < MAX_KEY_LENGTH && off + 1 <= |payload| && payload[off] != SPACE
      invariant 6 <= off <= |payload| && off - 6 <= MAX_KEY_LENGTH
      invariant forall i :: 6 <= i < off ==> payload[i] !in {SPACE}
      invariant hash == Fnv(payload[6..off])
    {
      FnvSnoc(payload, 6, off);
      hash := HashStep(hash, payload[off]);
      off := off + 1;
    }
    KeyEndIs(payload, 6, MAX_KEY_LENGTH, {SPACE}, off);
    forall n | KeyAt(payload, 6, n, {SPACE}) && n < |payload| && payload[n] == SPACE
      ensures hash == Fnv(payload[6..n])
    {
      KeyEndIs(payload, 6, MAX_KEY_LENGTH, {SPACE}, n);
    }
  }

  function ReplyHash(payload: seq<byte>): (h: bv32)
  {
    if |payload| < 6 then Fnv([]) else Fnv(payload[6..KeyEnd(payload, 6, MAX_KEY_LENGTH, {SPACE})])
  }

  predicate IsKey(key: seq<byte>) {
    1 <= |key| <= MAX_KEY_LENGTH && forall i :: 0 <= i < |key| ==> key[i] != SPACE && key[i] != CR
  }

  /** For every legal key, a GET of it and a reply for it hash it alike. */
  lemma {:induction false} ScannersAgree(key: seq<byte>, get: seq<byte>, reply: seq<byte>)
    requires IsKey(key)
    requires key <= get && (|get| == |key| || get[|key|] in {CR, SPACE})
    requires |reply| > 6 + |key| && reply[6..6 + |key|] == key && reply[6 + |key|] == SPACE
    ensures Fnv(get[0..KeyEnd(get, 0, MAX_KEY_LENGTH + 1, {CR, SPACE})]) == Fnv(key)
    ensures ReplyHash(reply) == Fnv(key)
  {
    hide Fnv;
    assert forall i :: 0 <= i < |key| ==> get[i] == key[i];
    KeyEndIs(get, 0, MAX_KEY_LENGTH + 1, {CR, SPACE}, |key|);
    assert get[0..|key|] == key;
    forall i | 6 <= i < 6 + |key|
      ensures reply[i] !in {SPACE}
    {
      assert reply[i] == reply[6..6 + |key|][i - 6];
    }
    KeyEndIs(reply, 6, MAX_KEY_LENGTH, {SPACE}, 6 + |key|);
  }

  // ----- the scanner of SET requests -------------------------------------------------------------

  /** The scanner's variables, and what it does to the cache and the statistics. */
  datatype Scan = Scan(setFound: bool, keyFound: bool, hash: bv32, valid: seq<bool>, sets: nat, invalidations: nat)

  predicate SetAt(p: seq<byte>, off: nat) {
    off + 3 <= |p| && p[off] == 's' as int && p[off + 1] == 'e' as int && p[off + 2] == 't' as int
  }

  /** One round of the loop: the new variables and the offset of the next round. */
  function Round(p: seq<byte>, off: nat, s: Scan): (r: (Scan, nat))
    requires off < |p| && |s.valid| == ENTRY_COUNT
    ensures |r.0.valid| == ENTRY_COUNT && r.1 > off
  {
    if !s.setFound && SetAt(p, off) then (s.(setFound := true, sets := s.sets + 1), off + 4)
    else if !s.keyFound && s.setFound && p[off] != SPACE then
      if p[off] == CR then (s.(setFound := false, keyFound := false), off + 1)
      else (s.(hash := HashStep(2166136261, p[off]), keyFound := true), off + 1)
    else if s.keyFound then
      if p[off] == SPACE then (Invalidated(s), off + 1)
      else (s.(hash := HashStep(s.hash, p[off])), off + 1)
    else (s, off + 1)
  }

  /** The end of a key: its slot is invalidated. */
  function Invalidated(s: Scan): (r: Scan)
    requires |s.valid| == ENTRY_COUNT
    ensures |r.valid| == ENTRY_COUNT
  {
    var i := Slot(s.hash);
    s.(setFound := false, keyFound := false,
       valid := s.valid[i := false], invalidations := s.invalidations + if s.valid[i] then 1 else 0)
  }

  predicate InPacket(p: seq<byte>, off: nat) {
    off < MAX_PACKET_LENGTH && off < |p|
  }

  function ScanFrom(p: seq<byte>, off: nat, s: Scan): (r: Scan)
    requires |s.valid| == ENTRY_COUNT
    ensures |r.valid| == ENTRY_COUNT
    decreases MAX_PACKET_LENGTH - off
  {
    if InPacket(p, off) then ScanFrom(p, Round(p, off, s).1, Round(p, off, s).0) else s
  }

  lemma ScanUnfold(p: seq<byte>, off: nat, s: Scan)
    requires |s.valid| == ENTRY_COUNT
    ensures ScanFrom(p, off, s) == if InPacket(p, off) then ScanFrom(p, Round(p, off, s).1, Round(p, off, s).0) else s
  {
    hide Round;
  }

  function Idle(valid: seq<bool>, sets: nat, invalidations: nat): (s: Scan)
  {
    Scan(false, false, 0, valid, sets, invalidations)
  }

  /** The scan from (off, s) comes by (at, t). */
  predicate Visits(p: seq<byte>, off: nat, s: Scan, at: nat, t: Scan)
    requires |s.valid| == ENTRY_COUNT
    decreases MAX_PACKET_LENGTH - off
  {
    || (off == at && s == t)
    || (InPacket(p, off) && Visits(p, Round(p, off, s).1, Round(p, off, s).0, at, t))
  }

  lemma {:induction false} VisitedContinues(p: seq<byte>, off: nat, s: Scan, at: nat, t: Scan)
    requires |s.valid| == ENTRY_COUNT && Visits(p, off, s, at, t)
    ensures |t.valid| == ENTRY_COUNT && ScanFrom(p, off, s) == ScanFrom(p, at, t)
    decreases MAX_PACKET_LENGTH - off
  {
    hide Round;
    if !(off == at && s == t) {
      VisitedContinues(p, Round(p, off, s).1, Round(p, off, s).0, at, t);
    }
  }

  /** The number of valid slots. */
  function ValidCount(valid: seq<bool>): (n: nat)
  {
    if valid == [] then 0 else (if valid[0] then 1 else 0) + ValidCount(valid[1..])
  }

  lemma {:induction false} ClearOne(valid: seq<bool>, i: nat)
    requires i < |valid|
    ensures ValidCount(valid[i := false]) == ValidCount(valid) - if valid[i] then 1 else 0
  {
    if i == 0 {
      assert valid[i := false][1..] == valid[1..];
    } else {
      assert valid[i := false][1..] == valid[1..][i - 1 := false];
      ClearOne(valid[1..], i - 1);
    }
  }

  lemma RoundConserves(p: seq<byte>, off: nat, s: Scan)
    requires off < |p| && |s.valid| == ENTRY_COUNT
    ensures Round(p, off, s).0.invalidations + ValidCount(Round(p, off, s).0.valid) == s.invalidations + ValidCount(s.valid)
    ensures forall i :: 0 <= i < ENTRY_COUNT ==> Round(p, off, s).0.valid[i] ==> s.valid[i]
  {
    hide ValidCount, HashStep, SetAt;
    ClearOne(s.valid, Slot(s.hash));
  }

  /** A scan only ever invalidates, and the counter grows by exactly the number of slots
      that went from valid to invalid. */
  lemma {:induction false} ScanConserves(p: seq<byte>, off: nat, s: Scan)
    requires |s.valid| == ENTRY_COUNT
    ensures ScanFrom(p, off, s).invalidations - s.invalidations == ValidCount(s.valid) - ValidCount(ScanFrom(p, off, s).valid)
    ensures forall i :: 0 <= i < ENTRY_COUNT ==> ScanFrom(p, off, s).valid[i] ==> s.valid[i]
    decreases MAX_PACKET_LENGTH - off
  {
    hide Round, ValidCount;
    if InPacket(p, off) {
      RoundConserves(p, off, s);
      ScanConserves(p, Round(p, off, s).1, Round(p, off, s).0);
    }
  }

  /** Inside a key the scanner accumulates its hash; the space after it invalidates. */
  lemma {:induction false} KeyScan(p: seq<byte>, start: nat, at: nat, end: nat, s: Scan)
    requires start < at <= end < |p| && end < MAX_PACKET_LENGTH && |s.valid| == ENTRY_COUNT
    requires s.setFound && s.keyFound && s.hash == Fnv(p[start..at])
    requires (forall i :: start <= i < end ==> p[i] != SPACE) && p[end] == SPACE
    ensures !ScanFrom(p, at, s).valid[Slot(Fnv(p[start..end]))]
    decreases end - at
  {
    hide HashStep, Slot, Fnv;
    if at == end {
      ScanConserves(p, at + 1, Round(p, at, s).0);
    } else {
      FnvSnoc(p, start, at);
      KeyScan(p, start, at + 1, end, Round(p, at, s).0);
    }
  }

  /** Spaces between the command and the key are skipped. */
  lemma {:induction false} SpaceScan(p: seq<byte>, at: nat, start: nat, end: nat, s: Scan)
    requires at <= start < end < |p| && end < MAX_PACKET_LENGTH && |s.valid| == ENTRY_COUNT
    requires s.setFound && !s.keyFound
    requires forall i :: at <= i < start ==> p[i] == SPACE
    requires p[start] != CR && (forall i :: start <= i < end ==> p[i] != SPACE) && p[end] == SPACE
    ensures !ScanFrom(p, at, s).valid[Slot(Fnv(p[start..end]))]
    decreases start - at
  {
    hide HashStep, Slot;
    if at == start {
      assert p[start..start] == [] && p[start..start + 1][..0] == [];
      FnvSnoc(p, start, start);
      KeyScan(p, start, start + 1, end, Round(p, at, s).0);
    } else {
      SpaceScan(p, at + 1, start, end, Round(p, at, s).0);
    }
  }

  /** From `at` on there may be spaces, and then a key that starts at `start` and whose first
      space is at `end`. */
  predicate KeyFrom(p: seq<byte>, at: nat, start: nat, end: nat) {
    && at <= start < end < |p| && end < MAX_PACKET_LENGTH
    && (forall i :: at <= i < start ==> p[i] == SPACE)
    && p[start] != CR && (forall i :: start <= i < end ==> p[i] != SPACE) && p[end] == SPACE
  }

  /** "set", one more byte, spaces if any, a key and a space. */
  predicate SetsKey(p: seq<byte>, at: nat, start: nat, end: nat) {
    at + 3 <= |p| && p[at..at + 3] == ['s' as int, 'e' as int, 't' as int] && KeyFrom(p, at + 4, start, end)
  }

  /** Whenever the scanner, idle, comes by a SET of a key, the slot of that key is invalid
      when the packet has been scanned. */
  lemma {:induction false} SetInvalidates(p: seq<byte>, s: Scan, at: nat, t: Scan, start: nat, end: nat)
    requires |s.valid| == ENTRY_COUNT && Visits(p, 0, s, at, t) && !t.setFound && !t.keyFound
    requires SetsKey(p, at, start, end)
    ensures !ScanFrom(p, 0, s).valid[Slot(Fnv(p[start..end]))]
  {
    hide HashStep, Slot, Fnv;
    VisitedContinues(p, 0, s, at, t);
    assert p[at] == p[at..at + 3][0] && p[at + 1] == p[at..at + 3][1] && p[at + 2] == p[at..at + 3][2];
    assert Round(p, at, t) == (t.(setFound := true, sets := t.sets + 1), at + 4);
    SpaceScan(p, at + 4, start, end, Round(p, at, t).0);
  }

  /** A SET of a key whose slot this is, found from an idle scanner. */
  ghost predicate SetLater(p: seq<byte>, off: nat, s: Scan, slot: nat)
    requires |s.valid| == ENTRY_COUNT
  {
    exists at: nat, t, start: nat, end: nat :: SetFromIdle(p, off, s, at, t, start, end) && Slot(Fnv(p[start..end])) == slot
  }

  ghost predicate SetFromIdle(p: seq<byte>, off: nat, s: Scan, at: nat, t: Scan, start: nat, end: nat)
    requires |s.valid| == ENTRY_COUNT
    ensures SetFromIdle(p, off, s, at, t, start, end) ==> start <= end <= |p|
  {
    Visits(p, off, s, at, t) && !t.setFound && !t.keyFound && SetsKey(p, at, start, end)
  }

  /** Why a slot was invalidated, for each state the scanner can be in: the key it is inside
      or about to enter, or a SET it comes by later. */
  ghost predicate Explained(p: seq<byte>, off: nat, s: Scan, from: nat, slot: nat)
    requires |s.valid| == ENTRY_COUNT
  {
    || SetLater(p, off, s, slot)
    || (s.setFound && !s.keyFound && exists start: nat, end: nat :: KeyFrom(p, off, start, end) && Slot(Fnv(p[start..end])) == slot)
    || (s.keyFound && exists end: nat :: EndsKey(p, from, off, end) && Slot(Fnv(p[from..end])) == slot)
  }

  /** Inside a key that started at `from`: the space that ends it. */
  predicate EndsKey(p: seq<byte>, from: nat, off: nat, end: nat) {
    && from < off <= end < |p| && end < MAX_PACKET_LENGTH
    && (forall i :: off <= i < end ==> p[i] != SPACE) && p[end] == SPACE
  }

  ghost predicate Scanning(p: seq<byte>, off: nat, s: Scan, from: nat) {
    && |s.valid| == ENTRY_COUNT && (s.keyFound ==> s.setFound)
    && (s.keyFound ==> from < off <= |p| && s.hash == Fnv(p[from..off]) && p[from] != CR &&
                       forall i :: from <= i < off ==> p[i] != SPACE)
  }

  /** A slot that the scan made invalid is explained. */
  lemma {:induction false} InvalidatedIsExplained(p: seq<byte>, off: nat, s: Scan, from: nat, slot: nat)
    requires Scanning(p, off, s, from) && slot < ENTRY_COUNT && s.valid[slot] && !ScanFrom(p, off, s).valid[slot]
    ensures Explained(p, off, s, from, slot)
    decreases MAX_PACKET_LENGTH - off
  {
    hide HashStep, Slot, Fnv, ScanFrom, SetsKey, KeyFrom, Round;
    ScanUnfold(p, off, s);
    var (s', off') := Round(p, off, s);
    var from' := if !s.keyFound && s'.keyFound then off else from;
    RoundScans(p, off, s, from);
    if s'.valid[slot] {
      InvalidatedIsExplained(p, off', s', from', slot);
      StepExplained(p, off, s, from, slot);
    } else {
      assert EndsKey(p, from, off, off) && Slot(Fnv(p[from..off])) == slot;
    }
  }

  /** What one round does for the invariant. */
  lemma RoundScans(p: seq<byte>, off: nat, s: Scan, from: nat)
    requires Scanning(p, off, s, from) && InPacket(p, off)
    ensures var (s', off') := Round(p, off, s);
            && Scanning(p, off', s', if !s.keyFound && s'.keyFound then off else from)
            && forall slot :: 0 <= slot < ENTRY_COUNT && s.valid[slot] && !s'.valid[slot] ==>
                 s.keyFound && p[off] == SPACE && slot == Slot(s.hash)
  {
    hide HashStep, Slot;
    if s.keyFound {
      FnvSnoc(p, from, off);
    } else {
      FnvSnoc(p, off, off);
      assert p[off..off] == [];
    }
  }

  /** An explanation after a round is one before it. */
  lemma StepExplained(p: seq<byte>, off: nat, s: Scan, from: nat, slot: nat)
    requires Scanning(p, off, s, from) && InPacket(p, off)
    ensures var (s', off') := Round(p, off, s);
            Explained(p, off', s', if !s.keyFound && s'.keyFound then off else from, slot) ==> Explained(p, off, s, from, slot)
  {
    hide HashStep, Slot, Fnv;
    var (s', off') := Round(p, off, s);
    if !Explained(p, off', s', if !s.keyFound && s'.keyFound then off else from, slot) {
      return;
    }
    if SetLater(p, off', s', slot) {
      var at: nat, t, start: nat, end: nat :| SetFromIdle(p, off', s', at, t, start, end) && Slot(Fnv(p[start..end])) == slot;
      assert SetFromIdle(p, off, s, at, t, start, end);
    } else if s'.keyFound {
      var from' := if !s.keyFound then off else from;
      var end: nat :| EndsKey(p, from', off', end) && Slot(Fnv(p[from'..end])) == slot;
      if s.keyFound {
        assert EndsKey(p, from, off, end);
      } else {
        assert KeyFrom(p, off, off, end);
      }
    } else {
      var start: nat, end: nat :| KeyFrom(p, off', start, end) && Slot(Fnv(p[start..end])) == slot;
      if s.setFound {
        assert KeyFrom(p, off, start, end);
      } else {
        assert p[off..off + 3] == ['s' as int, 'e' as int, 't' as int];
        assert SetFromIdle(p, off, s, off, s, start, end);
      }
    }
  }

  /** Exactly the slots of the keys that are set are invalidated: a slot that was valid is
      invalid after the packet if and only if the scanner, idle, comes by a SET of one of its keys. */
  lemma {:induction false} InvalidatedIff(p: seq<byte>, valid: seq<bool>, sets: nat, invalidations: nat, slot: nat)
    requires |valid| == ENTRY_COUNT && slot < ENTRY_COUNT && valid[slot]
    ensures var s := Idle(valid, sets, invalidations);
            !ScanFrom(p, 0, s).valid[slot] <==> SetLater(p, 0, s, slot)
  {
    hide HashStep, Slot, Fnv, ScanFrom, SetsKey;
    var s := Idle(valid, sets, invalidations);
    if SetLater(p, 0, s, slot) {
      var at: nat, t, start: nat, end: nat :| SetFromIdle(p, 0, s, at, t, start, end) && Slot(Fnv(p[start..end])) == slot;
      SetInvalidates(p, s, at, t, start, end);
    }
    if !ScanFrom(p, 0, s).valid[slot] {
      InvalidatedIsExplained(p, 0, s, 0, slot);
    }
  }

  // ----- entries ------------------------------------------------------------------------------------

  /** A slot: the stored reply is the first `len` bytes of `data`. */
  datatype Entry = Entry(len: nat, valid: bool, hash: bv32, data: seq<byte>) {
    predicate Ok() {
      |data| == MAX_DATA_SIZE && len <= MAX_DATA_SIZE
    }
  }

  function Newlines(p: seq<byte>): (n: nat)
  {
    if p == [] then 0 else Newlines(p[..|p| - 1]) + if p[|p| - 1] == LF then 1 else 0
  }

  lemma NewlinesSnoc(p: seq<byte>, j: nat)
    requires j < |p|
    ensures Newlines(p[..j + 1]) == Newlines(p[..j]) + if p[j] == LF then 1 else 0
  {
    assert p[..j + 1][..j] == p[..j];
  }

  /** How much of a reply is stored: through its second newline, if that comes in time. */
  function StoredLength(p: seq<byte>, j: nat): (n: nat)
    requires j <= |p| && j <= MAX_DATA_SIZE
    ensures j <= n <= |p| && n <= MAX_DATA_SIZE
    decreases |p| - j
  {
    if j < MAX_DATA_SIZE && j < |p| && Newlines(p[..j]) < 2 then StoredLength(p, j + 1) else j
  }

  /** The reply's two lines fit in an entry. */
  predicate Complete(p: seq<byte>) {
    Newlines(p[..StoredLength(p, 0)]) >= 2
  }

  /** The key bytes compared to decide whether an entry is up to date: up to the space in
      both, at most 250. */
  predicate SameKey(e: Entry, p: seq<byte>, off: nat)
    requires e.Ok()
    decreases MAX_KEY_LENGTH + 6 - off
  {
    if off - 6 < MAX_KEY_LENGTH && off < |p| && off < e.len && (p[off] != SPACE || e.data[off] != SPACE)
    then e.data[off] == p[off] && SameKey(e, p, off + 1)
    else true
  }

  predicate UpToDate(e: Entry, p: seq<byte>)
    requires e.Ok()
  {
    e.valid && e.hash == ReplyHash(p) && SameKey(e, p, 6)
  }

  function Updated(e: Entry, p: seq<byte>): (r: Entry)
    requires e.Ok()
    ensures r.Ok()
  {
    if UpToDate(e, p) then e
    else
      var n := StoredLength(p, 0);
      var stored := e.(len := n, data := p[..n] + e.data[n..]);
      if Complete(p) then stored.(valid := true, hash := ReplyHash(p)) else stored
  }

  lemma {:induction false} StoredNewlines(p: seq<byte>, j: nat)
    requires j <= |p| && j <= MAX_DATA_SIZE && Newlines(p[..j]) <= 2
    ensures Newlines(p[..StoredLength(p, j)]) <= 2
    decreases |p| - j
  {
    if j < MAX_DATA_SIZE && j < |p| && Newlines(p[..j]) < 2 {
      NewlinesSnoc(p, j);
      StoredNewlines(p, j + 1);
    }
  }

  /** A valid entry holds a whole reply: both its lines. */
  predicate WellFormed(e: Entry)
    requires e.Ok()
  {
    e.valid ==> Newlines(e.data[..e.len]) == 2
  }

  /** A reply keeps an entry well formed exactly when it is complete, or not stored, or the
      entry was not valid: a truncated reply overwrites a valid entry and leaves it valid. */
  lemma UpdateKeepsWellFormedIff(e: Entry, p: seq<byte>)
    requires e.Ok() && WellFormed(e)
    ensures WellFormed(Updated(e, p)) <==> UpToDate(e, p) || Complete(p) || !e.valid
  {
    hide UpToDate, ReplyHash, StoredLength;
    var n := StoredLength(p, 0);
    assert p[..0] == [];
    StoredNewlines(p, 0);
    assert (p[..n] + e.data[n..])[..n] == p[..n];
  }

  /** A complete reply for a key, once stored, is what a GET of that key is served: the
      entry is valid under the key's hash, starts with the key, and holds the reply. */
  lemma {:induction false} StoredReplyIsServed(e: Entry, p: seq<byte>, key: seq<byte>)
    requires e.Ok() && IsKey(key) && !UpToDate(e, p) && Complete(p)
    requires |p| > 6 + |key| && p[6..6 + |key|] == key && p[6 + |key|] == SPACE && Newlines(p[..6 + |key|]) == 0
    ensures var r := Updated(e, p);
            && r.valid && r.hash == Fnv(key) && r.data[6..6 + |key|] == key
            && r.len == StoredLength(p, 0) && r.data[..r.len] == p[..r.len]
            && 6 + |key| <= r.len
  {
    hide Fnv, UpToDate, StoredLength;
    var n, r := StoredLength(p, 0), Updated(e, p);
    ScannersAgree(key, key, p);
    StoredPast(p, n, 6 + |key|);
    assert r.data[..n] == p[..n];
    forall i | 0 <= i < |key|
      ensures r.data[6..6 + |key|][i] == key[i]
    {
      assert p[6..6 + |key|][i] == p[6 + i];
    }
  }

  /** n is where the second line of p ends, in time to be stored. */
  predicate TwoLines(p: seq<byte>, n: nat) {
    0 < n <= |p| && n <= MAX_DATA_SIZE && p[n - 1] == LF && Newlines(p[..n]) == 2
  }

  /** Such a reply is complete, and is stored to that point. */
  lemma {:induction false} StoredLengthIs(p: seq<byte>, n: nat, j: nat)
    requires TwoLines(p, n) && j <= n
    ensures StoredLength(p, j) == n
    decreases n - j
  {
    if j < n {
      NewlinesSnoc(p, n - 1);
      NewlinesMonotone(p, j, n - 1);
      StoredLengthIs(p, n, j + 1);
    }
  }

  lemma {:induction false} CompleteIff(p: seq<byte>)
    ensures Complete(p) <==> exists n :: TwoLines(p, n)
  {
    if n :| TwoLines(p, n) {
      StoredLengthIs(p, n, 0);
    }
    if Complete(p) {
      assert p[..0] == [];
      StoredEndsInNewline(p, 0);
    }
  }

  lemma {:induction false} StoredEndsInNewline(p: seq<byte>, j: nat)
    requires j <= |p| && j <= MAX_DATA_SIZE && Newlines(p[..j]) < 2 && Newlines(p[..StoredLength(p, j)]) >= 2
    ensures TwoLines(p, StoredLength(p, j))
    decreases |p| - j
  {
    NewlinesSnoc(p, j);
    if Newlines(p[..j + 1]) < 2 {
      StoredEndsInNewline(p, j + 1);
    } else {
      assert StoredLength(p, j) == StoredLength(p, j + 1) == j + 1;
    }
  }

  /** A reply for the key: "VALUE ", the key and a space, before any newline. */
  predicate ReplyFor(p: seq<byte>, key: seq<byte>) {
    && IsKey(key) && |p| > 6 + |key|
    && p[6..6 + |key|] == key && p[6 + |key|] == SPACE && Newlines(p[..6 + |key|]) == 0
  }

  /** What a slot holds after a complete reply for a key, whatever it held before: the reply,
      or what it held if that was already valid for the same key. */
  lemma {:induction false} ReplyIsKept(e: Entry, p: seq<byte>, n: nat, key: seq<byte>)
    requires e.Ok() && ReplyFor(p, key) && TwoLines(p, n) && (e.valid ==> e.len > 6 + |key|)
    ensures var r := Updated(e, p);
            && r.valid && r.hash == Fnv(key) && r.data[6..6 + |key|] == key
            && (|key| < MAX_KEY_LENGTH ==> r.data[6 + |key|] == SPACE)
            && ((r.len == n && r.data[..n] == p[..n]) ||
                (r == e && e.valid && e.hash == Fnv(key) && e.data[6..6 + |key|] == key))
  {
    hide Fnv, StoredLength, ReplyHash;
    StoredLengthIs(p, n, 0);
    ScannersAgree(key, key, p);
    if UpToDate(e, p) {
      SameKeyMeans(e, p, key, 6);
    } else {
      StoredReplyIsServed(e, p, key);
      NewlinesSnoc(p, n - 1);
      StoredPast(p, n, 6 + |key|);
      var r := Updated(e, p);
      NewlinesMonotone(p, 6 + |key|, n);
      assert 6 + |key| < n;
      assert r.data[6 + |key|] == r.data[..n][6 + |key|] == p[..n][6 + |key|];
    }
  }

  /** Comparing an entry with a reply finds the reply's key in the entry. */
  lemma {:induction false} SameKeyMeans(e: Entry, p: seq<byte>, key: seq<byte>, off: nat)
    requires e.Ok() && ReplyFor(p, key) && e.len > 6 + |key| && 6 <= off <= 6 + |key|
    requires SameKey(e, p, off) && e.data[6..off] == key[..off - 6]
    ensures e.data[6..6 + |key|] == key
    ensures |key| < MAX_KEY_LENGTH ==> e.data[6 + |key|] == SPACE
    decreases 6 + |key| - off
  {
    if off < 6 + |key| {
      assert p[off] == p[6..6 + |key|][off - 6] == key[off - 6];
      assert e.data[6..off + 1] == e.data[6..off] + [e.data[off]];
      assert key[..off + 1 - 6] == key[..off - 6] + [key[off - 6]];
      SameKeyMeans(e, p, key, off + 1);
    } else {
      assert key[..off - 6] == key;
    }
  }

  /** Enough newlines cannot all lie before a point that has none behind it. */
  lemma StoredPast(p: seq<byte>, n: nat, k: nat)
    requires n <= |p| && k <= |p| && Newlines(p[..n]) >= 2 && Newlines(p[..k]) == 0
    ensures k <= n
  {
    if n < k { NewlinesMonotone(p, n, k); }
  }

  lemma {:induction false} NewlinesMonotone(p: seq<byte>, i: nat, j: nat)
    requires i <= j <= |p|
    ensures Newlines(p[..i]) <= Newlines(p[..j])
  {
    if i < j {
      NewlinesMonotone(p, i, j - 1);
      NewlinesSnoc(p, j - 1);
    }
  }

  predicate AllOk(entries: seq<Entry>) {
    |entries| == ENTRY_COUNT && forall i :: 0 <= i < |entries| ==> entries[i].Ok()
  }

  predicate SameButValid(a: seq<Entry>, b: seq<Entry>) {
    |a| == |b| && forall i :: 0 <= i < |a| ==> b[i] == a[i].(valid := b[i].valid)
  }

  // ----- the cache -----------------------------------------------------------------------------------------

  lemma SameTransitive(a: seq<Entry>, b: seq<Entry>, c: seq<Entry>)
    ensures SameButValid(a, a) && (SameButValid(a, b) && SameButValid(b, c) ==> SameButValid(a, c))
  {
  }

  /** The valid bits. */
  function ValidOf(entries: seq<Entry>): (v: seq<bool>)
    ensures |v| == |entries| && forall i :: 0 <= i < |v| ==> v[i] == entries[i].valid
  {
    seq(|entries|, i requires 0 <= i < |entries| => entries[i].valid)
  }

  class Cache {
    var entries: seq<Entry>
    var sets: nat
    var updates: nat
    var invalidations: nat
    var hits: nat
    var misses: nat

    ghost predicate Valid()
      reads this
    {
      AllOk(entries)
    }

    constructor ()
      ensures Valid() && forall i :: 0 <= i < ENTRY_COUNT ==> !entries[i].valid
    {
      entries := seq(ENTRY_COUNT, i => Entry(0, false, 0, seq(MAX_DATA_SIZE, j => 0)));
      sets, updates, invalidations, hits, misses := 0, 0, 0, 0, 0;
    }

    /** Scans a TCP packet for SET commands. */
    method InvalidateCache(payload: seq<byte>)
      requires Valid()
      modifies this`entries, this`sets, this`invalidations
      ensures Valid()
      ensures var r := ScanFrom(payload, 0, Idle(ValidOf(old(entries)), old(sets), old(invalidations)));
              ValidOf(entries) == r.valid && sets == r.sets && invalidations == r.invalidations
      ensures SameButValid(old(entries), entries)
    {
      hide HashStep, ValidCount, Slot, ScanFrom, ValidOf, SameButValid;
      var setFound, keyFound, hash: bv32 := false, false, 0;
      var off := 0;
      SameTransitive(entries, entries, entries);
      ghost var goal := ScanFrom(payload, 0, Idle(ValidOf(entries), sets, invalidations));
      while off < MAX_PACKET_LENGTH && off + 1 <= |payload|
        invariant Valid()
        invariant ScanFrom(payload, off, Scan(setFound, keyFound, hash, ValidOf(entries), sets, invalidations)) == goal
        invariant SameButValid(old(entries), entries)
        decreases MAX_PACKET_LENGTH - off
      {
        ghost var off0 := off;
        ghost var s := Scan(setFound, keyFound, hash, ValidOf(entries), sets, invalidations);
        ScanUnfold(payload, off, s);
        if !setFound && SetAt(payload, off) {
          setFound := true;
          off := off + 3;
          sets := sets + 1;
        } else if !keyFound && setFound && payload[off] != SPACE {
          if payload[off] == CR {
            setFound, keyFound := false, false;
          } else {
            hash := HashStep(2166136261, payload[off]);
            keyFound := true;
          }
        } else if keyFound {
          if payload[off] == SPACE {
            ghost var before := entries;
            EndOfKey(hash);
            SameTransitive(old(entries), before, entries);
            setFound, keyFound := false, false;
          } else {
            hash := HashStep(hash, payload[off]);
          }
        }
        off := off + 1;
        assert ValidOf(entries) == Round(payload, off0, s).0.valid;
        assert Round(payload, off0, s) == (Scan(setFound, keyFound, hash, ValidOf(entries), sets, invalidations), off);
      }
      ScanUnfold(payload, off, Scan(setFound, keyFound, hash, ValidOf(entries), sets, invalidations));
    }

    /** Invalidates the slot of a key. */
    method EndOfKey(hash: bv32)
      requires Valid()
      modifies this`entries, this`invalidations
      ensures Valid() && ValidOf(entries) == ValidOf(old(entries))[Slot(hash) := false]
      ensures invalidations == old(invalidations) + if old(entries)[Slot(hash)].valid then 1 else 0
      ensures SameButValid(old(entries), entries)
    {
      hide Slot;
      var idx := Slot(hash);
      if entries[idx].valid {
        entries := entries[idx := entries[idx].(valid := false)];
        invalidations := invalidations + 1;
      }
      assert ValidOf(entries) == ValidOf(old(entries))[idx := false];
    }

    /** Stores a GET reply in the slot of its key. */
    method UpdateCache(payload: seq<byte>)
      requires Valid()
      modifies this`entries, this`updates
      ensures Valid()
      ensures entries == old(entries)[Slot(ReplyHash(payload)) := Updated(old(entries)[Slot(ReplyHash(payload))], payload)]
      ensures updates == old(updates) +
                         if !UpToDate(old(entries)[Slot(ReplyHash(payload))], payload) && Complete(payload) then 1 else 0
    {
      hide Slot;
      var hash := HashReplyKey(payload);
      var idx := Slot(hash);
      var entry := entries[idx];
      if entry.valid && entry.hash == hash {
        var diff := DiffersFrom(entry, payload);
        if !diff {
          return;
        }
      }
      var stored, count := StoreReply(entry, payload);
      if count == 2 {
        stored := stored.(valid := true, hash := hash);
        updates := updates + 1;
      }
      entries := entries[idx := stored];
    }

    /** A reply is served once it has been seen: a GET of its key that follows is a hit. */
    method UpdateThenServe(payload: seq<byte>, ghost n: nat, key: seq<byte>, reply: array<byte>) returns (written: nat)
      requires Valid() && ReplyFor(payload, key) && TwoLines(payload, n)
      requires var e := entries[Slot(Fnv(key))]; e.valid ==> e.len > 6 + |key|
      modifies reply, this`entries, this`updates, this`hits, this`misses
      ensures Valid()
      ensures var e := entries[Slot(Fnv(key))];
              && e.valid && e.data[6..6 + |key|] == key
              && hits == old(hits) + 1 && misses == old(misses)
              && written == Min(e.len, reply.Length)
              && reply[..] == e.data[..written] + old(reply[..])[written..]
      ensures var e, was := entries[Slot(Fnv(key))], old(entries)[Slot(Fnv(key))];
              (e.len == n && e.data[..n] == payload[..n]) || (e == was && was.valid && was.hash == Fnv(key))
    {
      hide Fnv, Slot, Updated, Complete, UpToDate;
      ScannersAgree(key, key, payload);
      ReplyIsKept(entries[Slot(Fnv(key))], payload, n, key);
      UpdateCache(payload);
      written := WriteReply(Fnv(key), key, reply);
    }

    static method DiffersFrom(entry: Entry, payload: seq<byte>) returns (diff: bool)
      requires entry.Ok()
      ensures diff == !SameKey(entry, payload, 6)
    {
      diff := false;
      var off := 6;
      while off - 6 < MAX_KEY_LENGTH && off + 1 <= |payload| && off < entry.len &&
            (payload[off] != SPACE || entry.data[off] != SPACE)
        invariant 6 <= off
        invariant SameKey(entry, payload, 6) == SameKey(entry, payload, off)
      {
        if entry.data[off] != payload[off] {
          diff := true;
          break;
        }
        off := off + 1;
      }
    }

    static method StoreReply(entry: Entry, payload: seq<byte>) returns (stored: Entry, count: nat)
      requires entry.Ok()
      ensures var n := StoredLength(payload, 0);
              stored == entry.(len := n, data := payload[..n] + entry.data[n..]) && count == Newlines(payload[..n]) <= 2
    {
      count := 0;
      stored := entry.(len := 0);
      var j := 0;
      assert entry.data == payload[..0] + entry.data[0..] && payload[..0] == [];
      while j < MAX_DATA_SIZE && j + 1 <= |payload| && count < 2
        invariant j <= |payload| && j <= MAX_DATA_SIZE
        invariant stored == entry.(len := j, data := payload[..j] + entry.data[j..])
        invariant count == Newlines(payload[..j]) <= 2
        invariant StoredLength(payload, 0) == StoredLength(payload, j)
      {
        hide Newlines;
        NewlinesSnoc(payload, j);
        StoreStep(payload, entry.data, j);
        stored := stored.(data := stored.data[j := payload[j]], len := stored.len + 1);
        if payload[j] == LF {
          count := count + 1;
        }
        j := j + 1;
      }
    }

    /** Serves a key remembered from a GET into the reply packet.  Whole words are copied
        first, then single bytes.  When the entry is no longer valid, or is another key's,
        nothing is written; that is counted as a miss only if the hashes matched, and as a
        hit otherwise. */
    method WriteReply(keyHash: bv32, key: seq<byte>, payload: array<byte>) returns (written: nat)
      requires Valid() && |key| <= MAX_KEY_LENGTH
      modifies payload, this`hits, this`misses
      ensures var e := entries[Slot(keyHash)];
              var hit := e.valid && e.hash == keyHash && e.data[6..6 + |key|] == key;
              && written == (if hit then Min(e.len, payload.Length) else 0)
              && payload[..] == e.data[..written] + old(payload[..])[written..]
              && misses == old(misses) + (if e.valid && e.hash == keyHash && !hit then 1 else 0)
              && hits + misses == old(hits) + old(misses) + 1
    {
      hide Slot;
      var e := entries[Slot(keyHash)];
      var cacheHit := true;
      written := 0;
      assert payload[..] == e.data[..0] + old(payload[..])[0..];
      if e.valid && e.hash == keyHash {
        cacheHit := Matches(e, key);
        if cacheHit {
          written := CopyOut(e, payload);
        }
      }
      if cacheHit {
        hits := hits + 1;
      } else {
        misses := misses + 1;
      }
    }

    static method Matches(e: Entry, key: seq<byte>) returns (same: bool)
      requires e.Ok() && |key| <= MAX_KEY_LENGTH
      ensures same == (e.data[6..6 + |key|] == key)
    {
      same := true;
      for i := 0 to |key|
        invariant same == (e.data[6..6 + i] == key[..i])
      {
        assert e.data[6..6 + i + 1] == e.data[6..6 + i] + [e.data[6 + i]];
        assert key[..i + 1] == key[..i] + [key[i]];
        if key[i] != e.data[6 + i] {
          same := false;
        }
      }
      assert key[..|key|] == key;
    }

    static method CopyOut(e: Entry, payload: array<byte>) returns (written: nat)
      requires e.Ok()
      modifies payload
      ensures written == Min(e.len, payload.Length)
      ensures payload[..] == CopiedOver(e.data, old(payload[..]), written)
    {
      hide CopiedOver, Patch;
      var off := 0;
      written := 0;
      ghost var before := payload[..];
      CopyStep(e.data, before, 0, 0);
      while off + 8 < MAX_DATA_SIZE && off + 8 <= e.len && off + 8 <= payload.Length
        invariant off == written <= e.len && off <= payload.Length
        invariant payload[..] == CopiedOver(e.data, before, off)
      {
        CopyStep(e.data, before, off, 8);
        Store(payload, off, e.data[off..off + 8]);
        off := off + 8;
        written := written + 8;
      }
      while off < MAX_DATA_SIZE && off < e.len && off + 1 <= payload.Length
        invariant off == written <= e.len && off <= payload.Length
        invariant payload[..] == CopiedOver(e.data, before, off)
      {
        CopyStep(e.data, before, off, 1);
        Store(payload, off, e.data[off..off + 1]);
        off := off + 1;
        written := written + 1;
      }
    }
  }

  /** The first n bytes replaced by those of an entry. */
  function CopiedOver(data: seq<byte>, before: seq<byte>, n: nat): (r: seq<byte>)
    requires n <= |data| && n <= |before|
    ensures |r| == |before|
  {
    data[..n] + before[n..]
  }

  lemma StoreStep(p: seq<byte>, data: seq<byte>, j: nat)
    requires j < |p| && j < |data|
    ensures (p[..j] + data[j..])[j := p[j]] == p[..j + 1] + data[j + 1..]
  {
  }

  lemma CopyStep(data: seq<byte>, before: seq<byte>, off: nat, n: nat)
    requires off + n <= |data| && off + n <= |before|
    ensures CopiedOver(data, before, 0) == before
    ensures Patch(CopiedOver(data, before, off), off, data[off..off + n]) == CopiedOver(data, before, off + n)
  {
  }

  function Min(a: nat, b: nat): nat {
    if a <= b then a else b
  }

  // ----- from a SET to the next update ------------------------------------------------------------------

  /** Packets that reach the cache after a SET. */
  datatype Packet = Request(payload: seq<byte>) | GetReply(payload: seq<byte>)

  function WithValid(entries: seq<Entry>, v: seq<bool>): (r: seq<Entry>)
    requires |v| == |entries|
    ensures |r| == |entries| && forall i :: 0 <= i < |r| ==> r[i] == entries[i].(valid := v[i])
    ensures AllOk(entries) ==> AllOk(r)
  {
    seq(|entries|, i requires 0 <= i < |entries| => entries[i].(valid := v[i]))
  }

  /** What a packet does to the validity of the slots, given the entries' other contents. */
  function AfterPacket(entries: seq<Entry>, p: Packet): (r: seq<Entry>)
    requires AllOk(entries)
    ensures AllOk(r)
  {
    match p
    case Request(payload) =>
      WithValid(entries, ScanFrom(payload, 0, Idle(ValidOf(entries), 0, 0)).valid)
    case GetReply(payload) =>
      var i := Slot(ReplyHash(payload));
      entries[i := Updated(entries[i], payload)]
  }

  function AfterPackets(entries: seq<Entry>, ps: seq<Packet>): (r: seq<Entry>)
    requires AllOk(entries)
    ensures AllOk(r)
    decreases |ps|
  {
    if ps == [] then entries else AfterPackets(AfterPacket(entries, ps[0]), ps[1..])
  }

  /** Once invalid, a slot stays so through any packets until a complete reply for it. */
  lemma {:induction false} StaysInvalid(entries: seq<Entry>, ps: seq<Packet>, slot: nat)
    requires AllOk(entries)
    requires slot < ENTRY_COUNT && !entries[slot].valid
    requires forall i :: 0 <= i < |ps| && ps[i].GetReply? ==>
               Slot(ReplyHash(ps[i].payload)) != slot || !Complete(ps[i].payload)
    ensures !AfterPackets(entries, ps)[slot].valid
    decreases |ps|
  {
    hide Slot, ReplyHash, Complete, ScanFrom;
    if ps != [] {
      if ps[0].Request? {
        ScanConserves(ps[0].payload, 0, Idle(ValidOf(entries), 0, 0));
      }
      StaysInvalid(AfterPacket(entries, ps[0]), ps[1..], slot);
    }
  }
}
