/** The assertion library linked into verified programs: expected and forbidden return
    values, and memory regions whose contents are packed one after the other into a
    buffer when they are registered and compared with memory when the program returns. */
module AssertSpec {
  import opened Bytes

  const XDP_REDIRECT := 4
  const MAX_CONSTANTS := 10
  const BUFFER_SIZE := 80000
  const MAX_LEADS_TO := 10
  const MAX_IF_ACTIONS := 10
  const MAX_IFS := 10

  /** Where snapshot i starts: the sizes before it added up. */
  function Offset(sizes: seq<nat>, i: nat): (n: nat)
    requires i <= |sizes|
  {
    if i == 0 then 0 else Offset(sizes, i - 1) + sizes[i - 1]
  }

  lemma {:induction false} OffsetMonotone(sizes: seq<nat>, i: nat, j: nat)
    requires i <= j <= |sizes|
    ensures Offset(sizes, i) <= Offset(sizes, j)
  {
    if i < j { OffsetMonotone(sizes, i, j - 1); }
  }

  lemma {:induction false} OffsetPrefix(sizes: seq<nat>, n: nat, i: nat)
    requires i <= |sizes|
    ensures Offset(sizes + [n], i) == Offset(sizes, i)
  {
    if i != 0 { OffsetPrefix(sizes, n, i - 1); }
  }

  /** The part of a packed buffer that belongs to registration i. */
  function SnapshotAt(buffer: seq<byte>, sizes: seq<nat>, i: nat): (s: seq<byte>)
    requires i < |sizes| && Offset(sizes, |sizes|) <= |buffer|
  {
    OffsetMonotone(sizes, i + 1, |sizes|);
    buffer[Offset(sizes, i)..Offset(sizes, i + 1)]
  }

  /** A registered region and what was in it. */
  datatype Constant = Constant(ptr: nat, bytes: seq<byte>)

  function Packed(buffer: seq<byte>, pointers: seq<nat>, sizes: seq<nat>): (r: seq<Constant>)
    requires |pointers| == |sizes| && Offset(sizes, |sizes|) <= |buffer|
    ensures |r| == |sizes|
  {
    seq(|sizes|, i requires 0 <= i < |sizes| => Constant(pointers[i], SnapshotAt(buffer, sizes, i)))
  }

  lemma PackedAt(buffer: seq<byte>, pointers: seq<nat>, sizes: seq<nat>, i: nat)
    requires |pointers| == |sizes| && Offset(sizes, |sizes|) <= |buffer| && i < |sizes|
    ensures Offset(sizes, i + 1) == Offset(sizes, i) + sizes[i] <= |buffer|
    ensures Packed(buffer, pointers, sizes)[i] ==
            Constant(pointers[i], buffer[Offset(sizes, i)..Offset(sizes, i) + sizes[i]])
  {
    OffsetMonotone(sizes, i + 1, |sizes|);
  }

  /** Appending a snapshot at the end of the packed part leaves the others alone. */
  lemma {:induction false} PackedSnoc(buffer: seq<byte>, pointers: seq<nat>, sizes: seq<nat>, ptr: nat, bytes: seq<byte>)
    requires |pointers| == |sizes| && Offset(sizes, |sizes|) + |bytes| <= |buffer|
    ensures Offset(sizes + [|bytes|], |sizes| + 1) == Offset(sizes, |sizes|) + |bytes|
    ensures Packed(Patch(buffer, Offset(sizes, |sizes|), bytes), pointers + [ptr], sizes + [|bytes|]) ==
            Packed(buffer, pointers, sizes) + [Constant(ptr, bytes)]
  {
    var n, at := |sizes|, Offset(sizes, |sizes|);
    var sizes', buffer' := sizes + [|bytes|], Patch(buffer, at, bytes);
    OffsetPrefix(sizes, |bytes|, n);
    forall i | 0 <= i < n
      ensures SnapshotAt(buffer', sizes', i) == SnapshotAt(buffer, sizes, i)
    {
      OffsetPrefix(sizes, |bytes|, i);
      OffsetPrefix(sizes, |bytes|, i + 1);
      OffsetMonotone(sizes, i, i + 1);
      OffsetMonotone(sizes, i + 1, n);
    }
    assert SnapshotAt(buffer', sizes', n) == bytes;
  }

  /** Memory still holds what was registered. */
  predicate Unchanged(mem: seq<byte>, c: Constant) {
    c.ptr + |c.bytes| <= |mem| && mem[c.ptr..c.ptr + |c.bytes|] == c.bytes
  }

  /** Comparing a region with its part of the packed buffer is comparing it with its snapshot. */
  lemma SnapshotUnchanged(mem: seq<byte>, buffer: seq<byte>, pointers: seq<nat>, sizes: seq<nat>, i: nat)
    requires |pointers| == |sizes| && Offset(sizes, |sizes|) <= |buffer| && i < |sizes|
    ensures Offset(sizes, i + 1) == Offset(sizes, i) + sizes[i] <= |buffer|
    ensures var c := Packed(buffer, pointers, sizes)[i];
            && c.ptr == pointers[i] && |c.bytes| == sizes[i]
            && (pointers[i] + sizes[i] <= |mem| ==>
                  (Unchanged(mem, c) <==>
                   mem[pointers[i]..pointers[i] + sizes[i]] == buffer[Offset(sizes, i)..Offset(sizes, i) + sizes[i]]))
  {
    hide Packed;
    PackedAt(buffer, pointers, sizes, i);
  }

  /** A region expected to hold, or not to hold, certain bytes at the end. */
  datatype Expectation = Expectation(ptr: nat, bytes: seq<byte>, equal: bool) {
    predicate Within(length: nat) {
      ptr + |bytes| <= length
    }

    predicate Met(mem: seq<byte>) {
      Within(|mem|) && (mem[ptr..ptr + |bytes|] == bytes <==> equal)
    }
  }

  /** How a call of the library ends: normally, with one of its own assertions failing, or
      by indexing its table of forbidden return values out of bounds. */
  datatype Outcome = Done | AssertionFails | OutOfBounds

  predicate IsAction(value: int) {
    0 <= value <= XDP_REDIRECT
  }

  class Spec {
    var expectedReturn: int
    var expectedNot: seq<bool>
    var pointers: seq<nat>
    var sizes: seq<nat>
    var bufferPtr: nat
    const buffer: array<byte>
    /** The return values that conditions found true demand. */
    var leadsTo: seq<int>
    /** Expectations that apply if a given value is returned. */
    var ifActions: seq<(int, Expectation)>
    var ifs: seq<Expectation>

    ghost predicate Valid()
      reads this, buffer
    {
      && buffer.Length == BUFFER_SIZE
      && |expectedNot| == XDP_REDIRECT + 1
      && -1 <= expectedReturn <= XDP_REDIRECT
      && |pointers| == |sizes| <= MAX_CONSTANTS
      && bufferPtr == Offset(sizes, |sizes|) <= BUFFER_SIZE
      && (expectedReturn != -1 ==> !expectedNot[expectedReturn])
      && |leadsTo| <= MAX_LEADS_TO && |ifActions| <= MAX_IF_ACTIONS && |ifs| <= MAX_IFS
    }

    /** The regions registered so far with their contents at registration. */
    ghost function Constants(): (r: seq<Constant>)
      requires Valid()
      reads this, buffer
    {
      Packed(buffer[..], pointers, sizes)
    }

    constructor ()
      ensures Valid() && fresh(buffer) && Constants() == [] && expectedReturn == -1
      ensures forall v :: IsAction(v) ==> !expectedNot[v]
      ensures leadsTo == [] && ifActions == [] && ifs == []
    {
      expectedReturn := -1;
      expectedNot := seq(XDP_REDIRECT + 1, i => false);
      pointers, sizes, bufferPtr := [], [], 0;
      leadsTo, ifActions, ifs := [], [], [];
      buffer := new byte[BUFFER_SIZE](i => 0);
    }

    method SetExpectedReturn(value: int) returns (o: Outcome)
      requires Valid()
      modifies this`expectedReturn
      ensures Valid()
      ensures o == if !IsAction(value) then OutOfBounds else if expectedNot[value] then AssertionFails else Done
      ensures expectedReturn == if o == Done then value else old(expectedReturn)
    {
      if !IsAction(value) {
        return OutOfBounds;
      }
      if expectedNot[value] {
        return AssertionFails;
      }
      expectedReturn := value;
      return Done;
    }

    method SetExpectedNotReturn(value: int) returns (o: Outcome)
      requires Valid()
      modifies this`expectedNot
      ensures Valid()
      ensures o == if value > XDP_REDIRECT || value == expectedReturn then AssertionFails
                   else if value < 0 then OutOfBounds else Done
      ensures expectedNot == if o == Done then old(expectedNot)[value := true] else old(expectedNot)
    {
      if value > XDP_REDIRECT {
        return AssertionFails;
      }
      if value == expectedReturn {
        return AssertionFails;
      }
      if value < 0 {
        return OutOfBounds;
      }
      expectedNot := expectedNot[value := true];
      return Done;
    }

    /** `ok` is whether the library's own assertions hold; where one fails the program ends. */
    method AddConstant(mem: array<byte>, ptr: nat, len: nat) returns (ok: bool)
      requires Valid() && mem != buffer && ptr + len <= mem.Length
      modifies this`pointers, this`sizes, this`bufferPtr, buffer
      ensures Valid()
      ensures ok <==> |old(sizes)| < MAX_CONSTANTS && old(bufferPtr) + len <= BUFFER_SIZE
      ensures Constants() == if ok then old(Constants()) + [Constant(ptr, mem[ptr..ptr + len])] else old(Constants())
    {
      if |sizes| >= MAX_CONSTANTS {
        return false;
      }
      if bufferPtr + len > BUFFER_SIZE {
        return false;
      }
      PackedSnoc(buffer[..], pointers, sizes, ptr, mem[ptr..ptr + len]);
      Store(buffer, bufferPtr, mem[ptr..ptr + len]);
      pointers := pointers + [ptr];
      sizes := sizes + [len];
      bufferPtr := bufferPtr + len;
      return true;
    }

    method AddLeadsTo(condition: bool, value: int) returns (ok: bool)
      requires Valid()
      modifies this`leadsTo
      ensures Valid()
      ensures ok <==> condition ==> |old(leadsTo)| < MAX_LEADS_TO
      ensures leadsTo == old(leadsTo) + if condition && ok then [value] else []
    {
      if condition {
        if |leadsTo| >= MAX_LEADS_TO {
          return false;
        }
        leadsTo := leadsTo + [value];
      }
      return true;
    }

    method AddIfAction(value: int, x: Expectation) returns (ok: bool)
      requires Valid()
      modifies this`ifActions
      ensures Valid()
      ensures ok <==> |old(ifActions)| < MAX_IF_ACTIONS
      ensures ifActions == old(ifActions) + if ok then [(value, x)] else []
    {
      if |ifActions| >= MAX_IF_ACTIONS {
        return false;
      }
      ifActions := ifActions + [(value, x)];
      return true;
    }

    method AddIf(x: Expectation) returns (ok: bool)
      requires Valid()
      modifies this`ifs
      ensures Valid()
      ensures ok <==> |old(ifs)| < MAX_IFS
      ensures ifs == old(ifs) + if ok then [x] else []
    {
      if |ifs| >= MAX_IFS {
        return false;
      }
      ifs := ifs + [x];
      return true;
    }

    /** The checks made when the program returns. */
    method RunUnrestrictedAsserts(mem: array<byte>, returnValue: int) returns (passed: bool)
      requires Valid() && mem != buffer && IsAction(returnValue)
      requires forall c :: c in Constants() ==> c.ptr + |c.bytes| <= mem.Length
      requires forall x :: x in ifActions ==> x.1.Within(mem.Length)
      requires forall x :: x in ifs ==> x.Within(mem.Length)
      modifies this`bufferPtr
      ensures passed <==>
                && (expectedReturn == -1 || expectedReturn == returnValue)
                && !expectedNot[returnValue]
                && (forall c :: c in old(Constants()) ==>
                      c.ptr + |c.bytes| <= mem.Length && mem[..][c.ptr..c.ptr + |c.bytes|] == c.bytes)
                && (forall v :: v in leadsTo ==> v == returnValue)
                && (forall x :: x in old(ifActions) && x.0 == returnValue ==>
                      x.1.ptr + |x.1.bytes| <= mem.Length &&
                      (mem[..][x.1.ptr..x.1.ptr + |x.1.bytes|] == x.1.bytes <==> x.1.equal))
                && (forall x :: x in old(ifs) ==>
                      x.ptr + |x.bytes| <= mem.Length && (mem[..][x.ptr..x.ptr + |x.bytes|] == x.bytes <==> x.equal))
      ensures passed ==> Valid()
    {
      hide Packed;
      if !(expectedReturn == -1 || expectedReturn == returnValue) {
        return false;
      }
      if expectedNot[returnValue] {
        return false;
      }
      assert forall i :: 0 <= i < |sizes| ==> Constants()[i] in Constants();
      passed := CheckConstants(mem);
      if !passed {
        return;
      }
      for i := 0 to |leadsTo|
        invariant forall j :: 0 <= j < i ==> leadsTo[j] == returnValue
      {
        assert leadsTo[i] in leadsTo;
        if leadsTo[i] != returnValue {
          return false;
        }
      }
      passed := CheckIfActions(mem, returnValue);
      if !passed {
        return;
      }
      for i := 0 to |ifs|
        invariant Valid()
        invariant forall j :: 0 <= j < i ==> ifs[j].Met(mem[..])
      {
        var met := Check(mem, ifs[i]);
        if !met {
          return false;
        }
      }
      return true;
    }

    /** Replays the snapshots in the order they were packed. */
    method CheckConstants(mem: array<byte>) returns (same: bool)
      requires Valid() && mem != buffer
      requires forall i :: 0 <= i < |sizes| ==> Constants()[i].ptr + |Constants()[i].bytes| <= mem.Length
      modifies this`bufferPtr
      ensures same <==> forall i :: 0 <= i < |sizes| ==> Unchanged(mem[..], old(Constants())[i])
      ensures same ==> bufferPtr == old(bufferPtr)
    {
      hide Packed, Unchanged;
      ghost var constants, packed := Constants(), buffer[..];
      bufferPtr := 0;
      for i := 0 to |sizes|
        invariant bufferPtr == Offset(sizes, i)
        invariant forall j :: 0 <= j < i ==> Unchanged(mem[..], constants[j])
      {
        hide Offset;
        SnapshotUnchanged(mem[..], packed, pointers, sizes, i);
        var expected := buffer[bufferPtr..bufferPtr + sizes[i]];
        assert expected == packed[bufferPtr..bufferPtr + sizes[i]];
        var matches := Memcmp(mem, pointers[i], expected);
        if !matches {
          return false;
        }
        bufferPtr := bufferPtr + sizes[i];
      }
      return true;
    }

    method CheckIfActions(mem: array<byte>, returnValue: int) returns (met: bool)
      requires forall x :: x in ifActions ==> x.1.Within(mem.Length)
      ensures met <==> forall x :: x in ifActions && x.0 == returnValue ==> x.1.Met(mem[..])
    {
      for i := 0 to |ifActions|
        invariant forall j :: 0 <= j < i && ifActions[j].0 == returnValue ==> ifActions[j].1.Met(mem[..])
      {
        if ifActions[i].0 == returnValue {
          met := Check(mem, ifActions[i].1);
          if !met {
            assert ifActions[i] in ifActions;
            return false;
          }
        }
      }
      return true;
    }

    static method Check(mem: array<byte>, x: Expectation) returns (met: bool)
      requires x.Within(mem.Length)
      ensures met <==> x.Met(mem[..])
    {
      met := Memcmp(mem, x.ptr, x.bytes);
      if !x.equal {
        met := !met;
      }
    }

    static method Memcmp(mem: array<byte>, p: nat, b: seq<byte>) returns (same: bool)
      requires p + |b| <= mem.Length
      ensures same <==> mem[..][p..p + |b|] == b
    {
      for i := 0 to |b|
        invariant mem[p..p + i] == b[..i]
      {
        if mem[p + i] != b[i] {
          assert mem[..][p..p + |b|][i] != b[i];
          return false;
        }
        assert mem[p..p + i + 1] == mem[p..p + i] + [mem[p + i]] && b[..i + 1] == b[..i] + [b[i]];
      }
      assert mem[..][p..p + |b|] == mem[p..p + |b|] && b[..|b|] == b;
      return true;
    }
  }
}
