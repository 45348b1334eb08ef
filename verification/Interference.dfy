/** What the interference analysis is for: if it reports no overlap, two programs can
    be run in either order with the same effect. */
module Interference {
  import opened Bytes
  import opened ReadWriteSet
  import opened Options

  /** A piece of state: a variable, or the entry of a map under one concrete key. */
  datatype Location = Var(name: string) | Entry(mapName: string, key: seq<byte>)

  /** The concrete keys a key of the given size stands for. */
  predicate Denotes(k: MapKey, bytes: seq<byte>) {
    match k
    case Concrete(v) => v < Pow256(|bytes|) && bytes == LittleEndian(v, |bytes|)
    case Symbolic(p) => |p| == |bytes| && forall i :: 0 <= i < |p| ==> p[i] == Sym || p[i] == Val(bytes[i])
  }

  /** `size` gives the key size of every map. */
  predicate Touches(e: Element, l: Location, size: string -> nat) {
    match l
    case Var(name) => e == Variable(name)
    case Entry(m, bytes) => e.Access? && e.mapName == m && |bytes| == size(m) && Denotes(e.key, bytes)
  }

  ghost predicate CommonLocation(s1: seq<Element>, s2: seq<Element>, size: string -> nat) {
    exists e1, e2, l :: e1 in s1 && e2 in s2 && Touches(e1, l, size) && Touches(e2, l, size)
  }

  // ----- when the answer is exact ------------------------------------------------------------------

  predicate KeyFits(k: MapKey, size: nat) {
    && size >= 1
    && match k
       case Concrete(v) => v < Pow256(size)
       case Symbolic(p) => |p| == size
  }

  /** All keys of a map have the size the map was created with. */
  predicate WellSized(s: seq<Element>, size: string -> nat) {
    forall e :: e in s && e.Access? ==> KeyFits(e.key, size(e.mapName))
  }

  /** A key whose bytes the analysis gets right. */
  predicate EvenDigits(k: MapKey) {
    k.Concrete? ==> k.value == 0 || HexDigits(k.value) % 2 == 0
  }

  predicate AllEvenDigits(s: seq<Element>) {
    forall e :: e in s && e.Access? ==> EvenDigits(e.key)
  }

  predicate SymbolicIn(s1: seq<Element>, s2: seq<Element>, m: string) {
    exists k :: k in KeysOf(s1, m) + KeysOf(s2, m) && k.Symbolic?
  }

  predicate HasSymbolicKey(s1: seq<Element>, s2: seq<Element>, m: string) {
    SymbolicIn(Difference(s1, s2), Difference(s2, s1), m)
  }

  /** Either every shared map has a symbolic key or none has. */
  ghost predicate Uniform(s1: seq<Element>, s2: seq<Element>) {
    || (forall m :: Shared(s1, s2, m) ==> HasSymbolicKey(s1, s2, m))
    || (forall m :: Shared(s1, s2, m) ==> !HasSymbolicKey(s1, s2, m))
  }

  lemma PatternIsBytes(k: MapKey, size: nat)
    requires k.Concrete? && KeyFits(k, size) && EvenDigits(k)
    ensures |Pattern(k, size)| == size
    ensures forall i :: 0 <= i < size ==> Pattern(k, size)[i] == Val(LittleEndian(k.value, size)[i])
  {
    hide LittleEndian, HexDigits, Pow256;
    ConcreteBytesRightIff(k.value, size);
  }

  /** For well-formed keys, matching byte by byte is having a common concrete key. */
  lemma {:induction false} MatchIsCommonKey(k1: MapKey, k2: MapKey, size: nat)
    requires KeyFits(k1, size) && KeyFits(k2, size) && EvenDigits(k1) && EvenDigits(k2)
    ensures |Pattern(k1, size)| == |Pattern(k2, size)| == size
    ensures MayMatch(Pattern(k1, size), Pattern(k2, size)) <==> KeysMeet(k1, k2, size)
  {
    hide LittleEndian, HexDigits, Pow256, ConcreteBytes;
    var p, q := Pattern(k1, size), Pattern(k2, size);
    if k1.Concrete? { PatternIsBytes(k1, size); }
    if k2.Concrete? { PatternIsBytes(k2, size); }
    if MayMatch(p, q) {
      var bytes := seq(size, i requires 0 <= i < size => if p[i].Val? then p[i].b else if q[i].Val? then q[i].b else 0);
      MatchDenotes(k1, p, bytes);
      MatchDenotes(k2, q, bytes);
    }
  }

  lemma MatchDenotes(k: MapKey, p: seq<ByteVal>, bytes: seq<byte>)
    requires |p| == |bytes| && KeyFits(k, |bytes|)
    requires k.Symbolic? ==> p == k.bytes
    requires k.Concrete? ==> forall i :: 0 <= i < |p| ==> p[i] == Val(LittleEndian(k.value, |bytes|)[i])
    requires forall i :: 0 <= i < |p| ==> p[i] == Sym || p[i] == Val(bytes[i])
    ensures Denotes(k, bytes)
  {
    hide LittleEndian, HexDigits, Pow256;
    if k.Concrete? {
      assert bytes == LittleEndian(k.value, |bytes|);
    }
  }

  /** Every well-sized key stands for at least one concrete key. */
  lemma Inhabited(k: MapKey, size: nat) returns (bytes: seq<byte>)
    requires KeyFits(k, size)
    ensures |bytes| == size && Denotes(k, bytes)
  {
    match k
    case Concrete(v) => bytes := LittleEndian(v, size);
    case Symbolic(p) => bytes := seq(size, i requires 0 <= i < size => if p[i].Val? then p[i].b else 0);
  }

  ghost predicate KeysMeet(k1: MapKey, k2: MapKey, size: nat) {
    exists bytes :: |bytes| == size && Denotes(k1, bytes) && Denotes(k2, bytes)
  }

  ghost predicate CommonKey(s1: seq<Element>, s2: seq<Element>, m: string, size: nat) {
    exists k1, k2 :: Access(m, k1) in s1 && Access(m, k2) in s2 && KeysMeet(k1, k2, size)
  }

  predicate GoodKeys(keys: seq<MapKey>, size: nat) {
    forall k :: k in keys ==> KeyFits(k, size) && EvenDigits(k)
  }

  lemma ListsAreExact(keys1: seq<MapKey>, keys2: seq<MapKey>, size: nat)
    requires GoodKeys(keys1, size) && GoodKeys(keys2, size)
    ensures LengthsAgree(keys1, keys2, size)
    ensures Matches(keys1, keys2, size) != {} <==>
            exists k1, k2 :: k1 in keys1 && k2 in keys2 && KeysMeet(k1, k2, size)
  {
    hide Pattern, MayMatch, KeyFits, EvenDigits, KeysMeet, Denotes;
    forall k1, k2 | k1 in keys1 && k2 in keys2
      ensures |Pattern(k1, size)| == |Pattern(k2, size)|
      ensures MayMatch(Pattern(k1, size), Pattern(k2, size)) <==> KeysMeet(k1, k2, size)
    {
      MatchIsCommonKey(k1, k2, size);
    }
    if k1, k2 :| k1 in keys1 && k2 in keys2 && KeysMeet(k1, k2, size) {
      var i :| 0 <= i < |keys1| && keys1[i] == k1;
      var j :| 0 <= j < |keys2| && keys2[j] == k2;
      assert keys1[i] in Matches(keys1, keys2, size);
    }
    if k :| k in Matches(keys1, keys2, size) {
      var i, j :| 0 <= i < |keys1| && 0 <= j < |keys2| &&
                  MayMatch(Pattern(keys1[i], size), Pattern(keys2[j], size)) && k == keys1[i];
      assert keys1[i] in keys1 && keys2[j] in keys2;
    }
  }

  /** One visited map: its keys are reported exactly when two of them can coincide. */
  lemma MapIsExact(s1: seq<Element>, s2: seq<Element>, m: string, size: nat)
    requires GoodKeys(KeysOf(s1, m), size) && GoodKeys(KeysOf(s2, m), size)
    ensures LengthsAgree(KeysOf(s1, m), KeysOf(s2, m), size)
    ensures Matches(KeysOf(s1, m), KeysOf(s2, m), size) != {} <==> CommonKey(s1, s2, m, size)
  {
    hide KeysOf, KeysMeet, GoodKeys, LengthsAgree, Matches;
    ListsAreExact(KeysOf(s1, m), KeysOf(s2, m), size);
  }

  lemma {:induction false} AssumedSizeOf(keys: seq<MapKey>, size: nat)
    requires forall k :: k in keys ==> KeyFits(k, size)
    ensures AssumedSize(keys) == if exists k :: k in keys && k.Symbolic? then Ok(size) else AssertionFailed
  {
    if keys != [] {
      assert forall k :: k in keys[1..] ==> k in keys;
      AssumedSizeOf(keys[1..], size);
      assert KeyFits(keys[0], size);
      assert forall k :: k in keys <==> k == keys[0] || k in keys[1..];
    }
  }

  lemma GoodKeysOf(s: seq<Element>, m: string, size: string -> nat)
    requires WellSized(s, size) && AllEvenDigits(s)
    ensures GoodKeys(KeysOf(s, m), size(m))
  {
    hide KeyFits, EvenDigits;
    forall k | k in KeysOf(s, m)
      ensures KeyFits(k, size(m)) && EvenDigits(k)
    {
      assert Access(m, k) in s && Access(m, k).Access?;
    }
  }

  /** Scanning maps that all have a symbolic key misses nothing and invents nothing. */
  lemma {:induction false} ScanIsExact(s1: seq<Element>, s2: seq<Element>, order: seq<string>, size: string -> nat)
    requires WellSized(s1, size) && WellSized(s2, size) && AllEvenDigits(s1) && AllEvenDigits(s2)
    requires forall m :: m in order ==> SymbolicIn(s1, s2, m)
    ensures Scan(s1, s2, order).Ok?
    ensures Scan(s1, s2, order).value != {} <==> exists m :: m in order && CommonKey(s1, s2, m, size(m))
  {
    if order != [] {
      hide KeyFits, EvenDigits, Matches, LengthsAgree, CommonKey, AssumedSize, KeysOf;
      var m := order[0];
      var keys1, keys2 := KeysOf(s1, m), KeysOf(s2, m);
      GoodKeysOf(s1, m, size);
      GoodKeysOf(s2, m, size);
      MapIsExact(s1, s2, m, size(m));
      assert SymbolicIn(s1, s2, m);
      AssumedSizeOf(keys1 + keys2, size(m));
      assert forall n :: n in order[1..] ==> n in order;
      ScanIsExact(s1, s2, order[1..], size);
      var here := set k | k in Matches(keys1, keys2, size(m)) :: Possible(m, k);
      assert here != {} <==> Matches(keys1, keys2, size(m)) != {} by {
        if k :| k in Matches(keys1, keys2, size(m)) { assert Possible(m, k) in here; }
      }
      var rest := Scan(s1, s2, order[1..]).value;
      assert Scan(s1, s2, order).value == here + rest;
      assert here + rest != {} <==> here != {} || rest != {};
      assert forall n :: n in order <==> n == m || n in order[1..];
    }
  }

  /** A common location is a common element or a common concrete key of the remaining ones. */
  lemma CommonLocationCases(s1: seq<Element>, s2: seq<Element>, size: string -> nat)
    requires WellSized(s1, size) && WellSized(s2, size)
    ensures CommonLocation(s1, s2, size) <==>
            || CommonElements(s1, s2) != {}
            || exists m :: CommonKey(Difference(s1, s2), Difference(s2, s1), m, size(m))
  {
    hide Denotes, KeyFits, Difference;
    var d1, d2 := Difference(s1, s2), Difference(s2, s1);
    if CommonLocation(s1, s2, size) {
      var e1, e2, l :| e1 in s1 && e2 in s2 && Touches(e1, l, size) && Touches(e2, l, size);
      if e1 in s2 {
        assert Common(e1) in CommonElements(s1, s2);
      } else if e2 in s1 {
        assert Common(e2) in CommonElements(s1, s2);
      } else {
        assert l.Entry?;
        assert e1 in d1 && e2 in d2;
        assert Access(l.mapName, e1.key) == e1 && Access(l.mapName, e2.key) == e2;
        assert KeysMeet(e1.key, e2.key, size(l.mapName));
        assert CommonKey(d1, d2, l.mapName, size(l.mapName));
      }
    }
    if r :| r in CommonElements(s1, s2) {
      CommonElementTouches(s1, s2, r.element, size);
    }
    if m :| CommonKey(d1, d2, m, size(m)) {
      var k1, k2 :| Access(m, k1) in d1 && Access(m, k2) in d2 && KeysMeet(k1, k2, size(m));
      var bytes :| |bytes| == size(m) && Denotes(k1, bytes) && Denotes(k2, bytes);
      assert Touches(Access(m, k1), Entry(m, bytes), size) && Touches(Access(m, k2), Entry(m, bytes), size);
    }
  }

  lemma CommonElementTouches(s1: seq<Element>, s2: seq<Element>, e: Element, size: string -> nat)
    requires WellSized(s1, size) && e in s1 && e in s2
    ensures CommonLocation(s1, s2, size)
  {
    hide Denotes, KeyFits;
    match e
    case Variable(name) =>
      assert Touches(e, Var(name), size);
    case Access(m, k) =>
      var bytes := Inhabited(k, size(m));
      assert Touches(e, Entry(m, bytes), size);
  }

  /** Maps whose remaining keys are all concrete have no common key. */
  lemma ConcreteKeysDiffer(s1: seq<Element>, s2: seq<Element>, m: string, size: nat)
    requires !HasSymbolicKey(s1, s2, m)
    ensures !CommonKey(Difference(s1, s2), Difference(s2, s1), m, size)
  {
    hide LittleEndian, Difference, KeysOf;
    var d1, d2 := Difference(s1, s2), Difference(s2, s1);
    forall k1, k2, bytes | Access(m, k1) in d1 && Access(m, k2) in d2 && |bytes| == size
      ensures !(Denotes(k1, bytes) && Denotes(k2, bytes))
    {
      assert k1 in KeysOf(d1, m) + KeysOf(d2, m) && k2 in KeysOf(d1, m) + KeysOf(d2, m);
      assert k1 != k2;
      if Denotes(k1, bytes) && Denotes(k2, bytes) {
        LittleEndianInjective(k1.value, k2.value, size);
      }
    }
  }

  lemma WellSizedDifference(s1: seq<Element>, s2: seq<Element>, size: string -> nat)
    requires WellSized(s1, size) && AllEvenDigits(s1)
    ensures WellSized(Difference(s1, s2), size) && AllEvenDigits(Difference(s1, s2))
  {
    hide KeyFits, EvenDigits, Difference;
  }

  /** A map without symbolic keys ends the scan before it has found anything. */
  lemma ScanStops(s1: seq<Element>, s2: seq<Element>, order: seq<string>, size: string -> nat)
    requires WellSized(s1, size) && WellSized(s2, size) && AllEvenDigits(s1) && AllEvenDigits(s2)
    requires order != [] && !SymbolicIn(s1, s2, order[0])
    ensures Scan(s1, s2, order) == Ok({})
  {
    hide KeyFits, EvenDigits, KeysOf;
    GoodKeysOf(s1, order[0], size);
    GoodKeysOf(s2, order[0], size);
    AssumedSizeOf(KeysOf(s1, order[0]) + KeysOf(s2, order[0]), size(order[0]));
  }

  /** The analysis of two sets is exact: for well-sized keys with their bytes read
      correctly and uniformly keyed maps, in any iteration order, it reports something if
      and only if some location is touched by both. */
  lemma OverlapIsExact(s1: seq<Element>, s2: seq<Element>, order: seq<string>, size: string -> nat)
    requires WellSized(s1, size) && WellSized(s2, size) && AllEvenDigits(s1) && AllEvenDigits(s2)
    requires IsOrder(s1, s2, order) && Uniform(s1, s2)
    ensures Overlap(s1, s2, order).Ok?
    ensures Overlap(s1, s2, order).value != {} <==> CommonLocation(s1, s2, size)
  {
    hide WellSized, AllEvenDigits, CommonKey, Difference, KeysOf, Scan, CommonLocation, SymbolicIn;
    var d1, d2 := Difference(s1, s2), Difference(s2, s1);
    WellSizedDifference(s1, s2, size);
    WellSizedDifference(s2, s1, size);
    CommonLocationCases(s1, s2, size);
    forall m | CommonKey(d1, d2, m, size(m))
      ensures m in order
    {
      CommonKeyIsShared(d1, d2, m, size(m));
      assert Shared(s1, s2, m);
    }
    if forall m :: m in order ==> HasSymbolicKey(s1, s2, m) {
      ScanIsExact(d1, d2, order, size);
    } else {
      var m0 :| m0 in order && !HasSymbolicKey(s1, s2, m0);
      assert Shared(s1, s2, m0);
      assert Shared(s1, s2, order[0]) by { assert order[0] in order; }
      ScanStops(d1, d2, order, size);
      forall m | m in order
        ensures !CommonKey(d1, d2, m, size(m))
      {
        assert Shared(s1, s2, m);
        ConcreteKeysDiffer(s1, s2, m, size(m));
      }
    }
  }

  lemma CommonKeyIsShared(d1: seq<Element>, d2: seq<Element>, m: string, size: nat)
    requires CommonKey(d1, d2, m, size)
    ensures KeysOf(d1, m) != [] && KeysOf(d2, m) != []
  {
    hide KeysOf, KeysMeet;
    var k1, k2 :| Access(m, k1) in d1 && Access(m, k2) in d2 && KeysMeet(k1, k2, size);
    assert k1 in KeysOf(d1, m) && k2 in KeysOf(d2, m);
  }

  // ----- where it is not ---------------------------------------------------------------------------------

  /** Without uniformly keyed maps there is an iteration order for which only common
      elements are reported, whatever symbolic keys of other maps coincide. */
  lemma {:induction false} MixedMapsCanBeMissed(s1: seq<Element>, s2: seq<Element>, order: seq<string>, m: string, size: string -> nat)
    requires WellSized(s1, size) && WellSized(s2, size) && AllEvenDigits(s1) && AllEvenDigits(s2)
    requires IsOrder(s1, s2, order) && m in order && !HasSymbolicKey(s1, s2, m)
    ensures var other := [m] + Without(order, m);
            IsOrder(s1, s2, other) && Overlap(s1, s2, other) == Ok(CommonElements(s1, s2))
  {
    hide WellSized, AllEvenDigits, Difference, KeysOf, SymbolicIn;
    var other := [m] + Without(order, m);
    WellSizedDifference(s1, s2, size);
    WellSizedDifference(s2, s1, size);
    ScanStops(Difference(s1, s2), Difference(s2, s1), other, size);
    assert CommonElements(s1, s2) + {} == CommonElements(s1, s2);
    forall n
      ensures n in other <==> n in order
    {
    }
  }

  function Without(order: seq<string>, m: string): (r: seq<string>)
    ensures forall n :: n in r <==> n in order && n != m
  {
    if order == [] then [] else (if order[0] == m then [] else [order[0]]) + Without(order[1..], m)
  }

  /** The maps that are looked at: those visited before the first one without a symbolic key. */
  function Visited(s1: seq<Element>, s2: seq<Element>, order: seq<string>): (r: seq<string>)
    ensures forall m :: m in r ==> m in order && SymbolicIn(s1, s2, m)
  {
    if order == [] || !SymbolicIn(s1, s2, order[0]) then [] else [order[0]] + Visited(s1, s2, order[1..])
  }

  lemma {:induction false} ScanVisits(s1: seq<Element>, s2: seq<Element>, order: seq<string>, size: string -> nat)
    requires WellSized(s1, size) && WellSized(s2, size) && AllEvenDigits(s1) && AllEvenDigits(s2)
    ensures Scan(s1, s2, order) == Scan(s1, s2, Visited(s1, s2, order))
  {
    hide WellSized, AllEvenDigits, KeysOf, SymbolicIn, AssumedSize, LengthsAgree, Matches;
    if order != [] {
      if SymbolicIn(s1, s2, order[0]) {
        ScanVisits(s1, s2, order[1..], size);
        assert Visited(s1, s2, order)[1..] == Visited(s1, s2, order[1..]);
      } else {
        ScanStops(s1, s2, order, size);
      }
    }
  }

  /** What the analysis reports in a given order, for all keys read correctly: something if
      and only if an element is common or a map looked at has a common concrete key. So
      whatever the order, it never reports an overlap that is not there. */
  lemma OverlapSees(s1: seq<Element>, s2: seq<Element>, order: seq<string>, size: string -> nat)
    requires WellSized(s1, size) && WellSized(s2, size) && AllEvenDigits(s1) && AllEvenDigits(s2)
    ensures Overlap(s1, s2, order).Ok?
    ensures var d1, d2 := Difference(s1, s2), Difference(s2, s1);
            Overlap(s1, s2, order).value != {} <==>
            CommonElements(s1, s2) != {} || exists m :: m in Visited(d1, d2, order) && CommonKey(d1, d2, m, size(m))
    ensures Overlap(s1, s2, order).value != {} ==> CommonLocation(s1, s2, size)
  {
    hide WellSized, AllEvenDigits, CommonKey, Difference, KeysOf, Scan, CommonLocation, SymbolicIn, Visited, CommonElements;
    var d1, d2 := Difference(s1, s2), Difference(s2, s1);
    WellSizedDifference(s1, s2, size);
    WellSizedDifference(s2, s1, size);
    CommonLocationCases(s1, s2, size);
    ScanVisits(d1, d2, order, size);
    ScanIsExact(d1, d2, Visited(d1, d2, order), size);
  }

  /** The report itself: the elements in both sets, and those keys of the first program, in the
      maps looked at, that share a concrete key with one of the second. */
  lemma {:induction false} ReportIsExact(s1: seq<Element>, s2: seq<Element>, order: seq<string>, size: string -> nat, r: Report)
    requires WellSized(s1, size) && WellSized(s2, size) && AllEvenDigits(s1) && AllEvenDigits(s2)
    ensures Overlap(s1, s2, order).Ok?
    ensures var d1, d2 := Difference(s1, s2), Difference(s2, s1);
            r in Overlap(s1, s2, order).value <==>
            match r
            case Common(e) => e in s1 && e in s2
            case Possible(m, k) =>
              m in Visited(d1, d2, order) && Access(m, k) in d1 &&
              exists k2 :: Access(m, k2) in d2 && KeysMeet(k, k2, size(m))
  {
    hide WellSized, AllEvenDigits, Difference, KeysOf, Scan, SymbolicIn, Visited, KeysMeet;
    var d1, d2 := Difference(s1, s2), Difference(s2, s1);
    WellSizedDifference(s1, s2, size);
    WellSizedDifference(s2, s1, size);
    ScanVisits(d1, d2, order, size);
    ScanReports(d1, d2, Visited(d1, d2, order), size, r);
    assert r in CommonElements(s1, s2) <==> r.Common? && r.element in s1 && r.element in s2;
  }

  lemma {:induction false} ScanReports(s1: seq<Element>, s2: seq<Element>, order: seq<string>, size: string -> nat, r: Report)
    requires WellSized(s1, size) && WellSized(s2, size) && AllEvenDigits(s1) && AllEvenDigits(s2)
    requires forall m :: m in order ==> SymbolicIn(s1, s2, m)
    ensures Scan(s1, s2, order).Ok?
    ensures r in Scan(s1, s2, order).value <==>
            && r.Possible? && r.mapName in order && Access(r.mapName, r.key) in s1
            && exists k2 :: Access(r.mapName, k2) in s2 && KeysMeet(r.key, k2, size(r.mapName))
  {
    hide KeyFits, EvenDigits, Matches, LengthsAgree, AssumedSize, KeysOf, KeysMeet, WellSized, AllEvenDigits;
    if order != [] {
      var m := order[0];
      var keys1, keys2 := KeysOf(s1, m), KeysOf(s2, m);
      GoodKeysOf(s1, m, size);
      GoodKeysOf(s2, m, size);
      ListsAreExact(keys1, keys2, size(m));
      assert SymbolicIn(s1, s2, m);
      AssumedSizeOf(keys1 + keys2, size(m));
      assert forall n :: n in order[1..] ==> n in order;
      ScanReports(s1, s2, order[1..], size, r);
      var here := set k | k in Matches(keys1, keys2, size(m)) :: Possible(m, k);
      var rest := Scan(s1, s2, order[1..]).value;
      assert Scan(s1, s2, order).value == here + rest;
      assert forall n :: n in order <==> n == m || n in order[1..];
      if r.Possible? {
        MatchesAreKeys(keys1, keys2, size(m), r.key);
        assert r in here <==> r.mapName == m && r.key in Matches(keys1, keys2, size(m));
        assert forall k2 :: k2 in keys2 <==> Access(m, k2) in s2;
      }
    }
  }

  lemma {:induction false} MatchesAreKeys(keys1: seq<MapKey>, keys2: seq<MapKey>, size: nat, k: MapKey)
    requires GoodKeys(keys1, size) && GoodKeys(keys2, size) && LengthsAgree(keys1, keys2, size)
    ensures k in Matches(keys1, keys2, size) <==> k in keys1 && exists k2 :: k2 in keys2 && KeysMeet(k, k2, size)
  {
    hide Pattern, MayMatch, KeyFits, EvenDigits, KeysMeet;
    forall k1, k2 | k1 in keys1 && k2 in keys2
      ensures |Pattern(k1, size)| == |Pattern(k2, size)|
      ensures MayMatch(Pattern(k1, size), Pattern(k2, size)) <==> KeysMeet(k1, k2, size)
    {
      MatchIsCommonKey(k1, k2, size);
    }
    if k in keys1 {
      if k2 :| k2 in keys2 && KeysMeet(k, k2, size) {
        var i, j :| 0 <= i < |keys1| && keys1[i] == k && 0 <= j < |keys2| && keys2[j] == k2;
        assert MayMatch(Pattern(keys1[i], size), Pattern(keys2[j], size));
      }
    }
  }

  /** Keys of different lengths in a map that is looked at fail the analysis's assertion. */
  lemma {:induction false} WrongSizeFails(s1: seq<Element>, s2: seq<Element>, order: seq<string>, m: string,
                                          p: seq<ByteVal>, q: seq<ByteVal>)
    requires order != [] && order[0] == m && |p| != |q|
    requires Access(m, Symbolic(p)) in Difference(s1, s2) && Access(m, Symbolic(q)) in Difference(s2, s1)
    ensures Overlap(s1, s2, order) == AssertionFailed
  {
    hide Difference, KeysOf, AssumedSize;
    var keys1, keys2 := KeysOf(Difference(s1, s2), m), KeysOf(Difference(s2, s1), m);
    assert Symbolic(p) in keys1 && Symbolic(q) in keys2;
    SizeIsAssumed(keys1 + keys2, Symbolic(p));
    var i, j :| 0 <= i < |keys1| && keys1[i] == Symbolic(p) && 0 <= j < |keys2| && keys2[j] == Symbolic(q);
    assert forall n :: |Pattern(keys1[i], n)| != |Pattern(keys2[j], n)|;
  }

  lemma {:induction false} SizeIsAssumed(keys: seq<MapKey>, k: MapKey)
    requires k in keys && k.Symbolic?
    ensures AssumedSize(keys).Ok?
  {
    if keys[0] != k { SizeIsAssumed(keys[1..], k); }
  }

  /** Right in this order. */
  ghost predicate RightIn(s1: seq<Element>, s2: seq<Element>, order: seq<string>, size: string -> nat) {
    && Overlap(s1, s2, order).Ok?
    && (Overlap(s1, s2, order).value != {} <==> CommonLocation(s1, s2, size))
  }

  /** The exact condition for the answer not to depend on the order in which Python happens
      to yield the maps: uniformly keyed maps, or an element in both sets, or nothing to find. */
  lemma RightInEveryOrderIff(s1: seq<Element>, s2: seq<Element>, someOrder: seq<string>, size: string -> nat)
    requires WellSized(s1, size) && WellSized(s2, size) && AllEvenDigits(s1) && AllEvenDigits(s2)
    requires IsOrder(s1, s2, someOrder)
    ensures (forall order :: IsOrder(s1, s2, order) ==> RightIn(s1, s2, order, size)) <==>
            Uniform(s1, s2) || CommonElements(s1, s2) != {} || !CommonLocation(s1, s2, size)
  {
    hide WellSized, AllEvenDigits, CommonLocation, HasSymbolicKey, Overlap, Shared, CommonElements;
    if Uniform(s1, s2) || CommonElements(s1, s2) != {} || !CommonLocation(s1, s2, size) {
      forall order | IsOrder(s1, s2, order)
        ensures RightIn(s1, s2, order, size)
      {
        OverlapSees(s1, s2, order, size);
        if Uniform(s1, s2) { OverlapIsExact(s1, s2, order, size); }
      }
    } else {
      var m :| Shared(s1, s2, m) && !HasSymbolicKey(s1, s2, m);
      MixedMapsCanBeMissed(s1, s2, someOrder, m, size);
      assert !RightIn(s1, s2, [m] + Without(someOrder, m), size);
    }
  }

  const TWO_MAPS_1 := [Access("a", Concrete(16)), Access("b", Symbolic([Sym]))]
  const TWO_MAPS_2 := [Access("a", Concrete(17)), Access("b", Symbolic([Val(1)]))]

  lemma TwoMapsShared(m: string)
    ensures Shared(TWO_MAPS_1, TWO_MAPS_2, m) <==> m in ["a", "b"]
    ensures !HasSymbolicKey(TWO_MAPS_1, TWO_MAPS_2, "a")
  {
    hide KeysOf, Difference;
    var d1, d2 := Difference(TWO_MAPS_1, TWO_MAPS_2), Difference(TWO_MAPS_2, TWO_MAPS_1);
    assert TWO_MAPS_1[0] in d1 && TWO_MAPS_1[1] in d1 && TWO_MAPS_2[0] in d2 && TWO_MAPS_2[1] in d2;
    assert Concrete(16) in KeysOf(d1, "a") && Symbolic([Sym]) in KeysOf(d1, "b");
    assert Concrete(17) in KeysOf(d2, "a") && Symbolic([Val(1)]) in KeysOf(d2, "b");
    if KeysOf(d1, m) != [] {
      assert Access(m, KeysOf(d1, m)[0]) in TWO_MAPS_1;
    }
  }

  /** A real overlap missed in one order. */
  lemma {:induction false} MissedBehindAConcreteMap()
    ensures IsOrder(TWO_MAPS_1, TWO_MAPS_2, ["a", "b"])
    ensures Overlap(TWO_MAPS_1, TWO_MAPS_2, ["a", "b"]) == Ok({})
    ensures CommonLocation(TWO_MAPS_1, TWO_MAPS_2, m => 1)
  {
    hide Overlap, Shared, HasSymbolicKey;
    var s1, s2, order := TWO_MAPS_1, TWO_MAPS_2, ["a", "b"];
    forall m
      ensures Shared(s1, s2, m) <==> m in order
    {
      TwoMapsShared(m);
    }
    TwoMapsShared("a");
    assert HexDigits(16) == 2 && HexDigits(17) == 2 && Pow256(1) == 256 * Pow256(0);
    MixedMapsCanBeMissed(s1, s2, order, "a", m => 1);
    assert order[1..] == ["b"] && Without(["b"], "a") == ["b"] + Without([], "a");
    assert ["a"] + Without(order, "a") == order;
    assert CommonElements(s1, s2) == {};
    assert Touches(s1[1], Entry("b", [1]), m => 1) && Touches(s2[1], Entry("b", [1]), m => 1);
  }

  /** A one-digit key is read as zero, so its entry is not found among symbolic keys. */
  lemma OddDigitKeyIsMissed()
    ensures var k1, k2 := Concrete(5), Symbolic([Val(5)]);
            && KeyFits(k1, 1) && KeyFits(k2, 1) && KeysMeet(k1, k2, 1)
            && |Pattern(k1, 1)| == |Pattern(k2, 1)| && !MayMatch(Pattern(k1, 1), Pattern(k2, 1))
  {
    assert Pow256(1) == 256 * Pow256(0);
    assert LittleEndian(5, 1) == [5] + LittleEndian(0, 0);
    assert Denotes(Concrete(5), [5]) && Denotes(Symbolic([Val(5)]), [5]);
    assert HexDigits(5) == 1;
    assert ConcreteBytes(5, 1) == [0];
  }

  // ----- programs commute ------------------------------------------------------------------------------------


  type State<V> = map<Location, V>

  function Get<V>(s: State<V>, l: Location): (r: Option<V>)
  {
    if l in s then Some(s[l]) else None
  }

  ghost predicate TouchedBy(l: Location, s: seq<Element>, size: string -> nat) {
    exists e :: e in s && Touches(e, l, size)
  }

  /** The program changes only what its write set names; and what it does is determined
      by what its read set names: on states that agree there it leaves a location alone
      in both or gives it the same contents in both. */
  ghost predicate Respects<V(!new)>(p: State<V> -> State<V>, readSet: seq<Element>, writes: seq<Element>, size: string -> nat) {
    && (forall s, l :: !TouchedBy(l, writes, size) ==> Get(p(s), l) == Get(s, l))
    && (forall s, t, l :: (forall r :: TouchedBy(r, readSet, size) ==> Get(s, r) == Get(t, r)) ==>
          || Get(p(s), l) == Get(p(t), l)
          || (Get(p(s), l) == Get(s, l) && Get(p(t), l) == Get(t, l)))
  }

  /** Nothing one program writes is read or written by the other. */
  ghost predicate Independent(reads1: seq<Element>, writes1: seq<Element>,
                              reads2: seq<Element>, writes2: seq<Element>, size: string -> nat) {
    && !CommonLocation(reads1, writes2, size)
    && !CommonLocation(writes1, reads2, size)
    && !CommonLocation(writes1, writes2, size)
  }

  lemma Disjoint(s1: seq<Element>, s2: seq<Element>, l: Location, size: string -> nat)
    requires !CommonLocation(s1, s2, size)
    ensures !(TouchedBy(l, s1, size) && TouchedBy(l, s2, size))
  {
    hide Touches;
  }

  /** The effect of p is the same after q as before it, wherever p has an effect. */
  lemma UnaffectedBy<V(!new)>(p: State<V> -> State<V>, q: State<V> -> State<V>,
      reads1: seq<Element>, writes1: seq<Element>, writes2: seq<Element>, size: string -> nat, s: State<V>, l: Location)
    requires Respects(p, reads1, writes1, size)
    requires forall t, k :: !TouchedBy(k, writes2, size) ==> Get(q(t), k) == Get(t, k)
    requires !CommonLocation(reads1, writes2, size) && !CommonLocation(writes1, writes2, size)
    ensures TouchedBy(l, writes1, size) ==> Get(p(q(s)), l) == Get(p(s), l)
    ensures !TouchedBy(l, writes1, size) ==> Get(p(q(s)), l) == Get(q(s), l)
  {
    hide CommonLocation, TouchedBy;
    forall r | TouchedBy(r, reads1, size)
      ensures Get(q(s), r) == Get(s, r)
    {
      Disjoint(reads1, writes2, r, size);
    }
    Disjoint(writes1, writes2, l, size);
  }

  /** Programs whose sets the analysis clears can be run in either order. */
  lemma IndependentProgramsCommute<V(!new)>(p: State<V> -> State<V>, q: State<V> -> State<V>,
      reads1: seq<Element>, writes1: seq<Element>, reads2: seq<Element>, writes2: seq<Element>,
      size: string -> nat, s: State<V>)
    requires Respects(p, reads1, writes1, size) && Respects(q, reads2, writes2, size)
    requires Independent(reads1, writes1, reads2, writes2, size)
    ensures p(q(s)) == q(p(s))
  {
    hide CommonLocation, TouchedBy;
    CommonLocationSymmetric(writes1, reads2, size);
    CommonLocationSymmetric(writes1, writes2, size);
    forall l
      ensures Get(p(q(s)), l) == Get(q(p(s)), l)
    {
      UnaffectedBy(p, q, reads1, writes1, writes2, size, s, l);
      UnaffectedBy(q, p, reads2, writes2, writes1, size, s, l);
      Disjoint(writes1, writes2, l, size);
    }
    SameEverywhere(p(q(s)), q(p(s)));
  }

  lemma CommonLocationSymmetric(s1: seq<Element>, s2: seq<Element>, size: string -> nat)
    ensures CommonLocation(s1, s2, size) == CommonLocation(s2, s1, size)
  {
    hide Touches;
  }

  lemma SameEverywhere<V>(s: State<V>, t: State<V>)
    requires forall l :: Get(s, l) == Get(t, l)
    ensures s == t
  {
    forall l
      ensures l in s <==> l in t
      ensures l in s && l in t ==> s[l] == t[l]
    {
      assert Get(s, l) == Get(t, l);
    }
  }

  // ----- the analysis as a whole ---------------------------------------------------------------------------------

  datatype Orders = Orders(r1w2: seq<string>, w1r2: seq<string>, w1w2: seq<string>)

  ghost predicate Clean(s1: seq<Element>, s2: seq<Element>, size: string -> nat) {
    && WellSized(s1, size) && WellSized(s2, size) && AllEvenDigits(s1) && AllEvenDigits(s2) && Uniform(s1, s2)
  }

  /** What the three comparisons together answer. */
  function Found(r1w2: Outcome<set<Report>>, w1r2: Outcome<set<Report>>, w1w2: Outcome<set<Report>>): (r: Outcome<bool>)
  {
    if r1w2.AssertionFailed? || w1r2.AssertionFailed? || w1w2.AssertionFailed? then AssertionFailed
    else Ok(r1w2.value != {} || w1r2.value != {} || w1w2.value != {})
  }

  function Analysis(reads1: seq<Element>, writes1: seq<Element>, reads2: seq<Element>, writes2: seq<Element>,
                    orders: Orders): (r: Outcome<bool>)
  {
    Found(Overlap(reads1, writes2, orders.r1w2), Overlap(writes1, reads2, orders.w1r2), Overlap(writes1, writes2, orders.w1w2))
  }

  ghost predicate AreOrders(reads1: seq<Element>, writes1: seq<Element>, reads2: seq<Element>, writes2: seq<Element>,
                            orders: Orders) {
    IsOrder(reads1, writes2, orders.r1w2) && IsOrder(writes1, reads2, orders.w1r2) && IsOrder(writes1, writes2, orders.w1w2)
  }

  method ReadWriteSetAnalysis(reads1: seq<Element>, writes1: seq<Element>,
                              reads2: seq<Element>, writes2: seq<Element>, orders: Orders)
    returns (foundOverlap: Outcome<bool>)
    requires AreOrders(reads1, writes1, reads2, writes2, orders)
    ensures foundOverlap == Analysis(reads1, writes1, reads2, writes2, orders)
  {
    hide IsOrder, Overlap;
    var found := false;
    var r1w2 := DetermineOverlap(reads1, writes2, orders.r1w2);
    if r1w2.AssertionFailed? {
      return AssertionFailed;
    }
    if r1w2.value != {} {
      found := true;
    }
    var r2w1 := DetermineOverlap(writes1, reads2, orders.w1r2);
    if r2w1.AssertionFailed? {
      return AssertionFailed;
    }
    if r2w1.value != {} {
      found := true;
    }
    var w1w2 := DetermineOverlap(writes1, writes2, orders.w1w2);
    if w1w2.AssertionFailed? {
      return AssertionFailed;
    }
    if w1w2.value != {} {
      found := true;
    }
    return Ok(found);
  }

  /** For clean sets the analysis finds an overlap exactly when the programs are not
      independent. */
  lemma {:induction false} AnalysisIsExact(reads1: seq<Element>, writes1: seq<Element>, reads2: seq<Element>, writes2: seq<Element>,
                                           orders: Orders, size: string -> nat)
    requires AreOrders(reads1, writes1, reads2, writes2, orders)
    requires Clean(reads1, writes2, size) && Clean(writes1, reads2, size) && Clean(writes1, writes2, size)
    ensures Analysis(reads1, writes1, reads2, writes2, orders) == Ok(!Independent(reads1, writes1, reads2, writes2, size))
  {
    hide CommonLocation, WellSized, AllEvenDigits, Uniform, IsOrder, Overlap;
    OverlapIsExact(reads1, writes2, orders.r1w2, size);
    OverlapIsExact(writes1, reads2, orders.w1r2, size);
    OverlapIsExact(writes1, writes2, orders.w1w2, size);
  }

  /** Even where the maps are not uniformly keyed, an overlap that is reported is real. */
  lemma AlarmIsReal(reads1: seq<Element>, writes1: seq<Element>, reads2: seq<Element>, writes2: seq<Element>,
                                       orders: Orders, size: string -> nat)
    requires WellSized(reads1, size) && WellSized(writes1, size) && WellSized(reads2, size) && WellSized(writes2, size)
    requires AllEvenDigits(reads1) && AllEvenDigits(writes1) && AllEvenDigits(reads2) && AllEvenDigits(writes2)
    ensures Analysis(reads1, writes1, reads2, writes2, orders).Ok?
    ensures Analysis(reads1, writes1, reads2, writes2, orders).value ==> !Independent(reads1, writes1, reads2, writes2, size)
  {
    hide CommonLocation, WellSized, AllEvenDigits, Overlap, Visited, CommonKey;
    OverlapSees(reads1, writes2, orders.r1w2, size);
    OverlapSees(writes1, reads2, orders.w1r2, size);
    OverlapSees(writes1, writes2, orders.w1w2, size);
  }

  /** What the analysis is for: if it reports no overlap between two programs that respect
      their sets, running them in either order from any state ends in the same state. */
  lemma NoOverlapMeansCommute<V(!new)>(p: State<V> -> State<V>, q: State<V> -> State<V>,
      reads1: seq<Element>, writes1: seq<Element>, reads2: seq<Element>, writes2: seq<Element>,
      orders: Orders, size: string -> nat, s: State<V>)
    requires AreOrders(reads1, writes1, reads2, writes2, orders)
    requires Clean(reads1, writes2, size) && Clean(writes1, reads2, size) && Clean(writes1, writes2, size)
    requires Respects(p, reads1, writes1, size) && Respects(q, reads2, writes2, size)
    requires Analysis(reads1, writes1, reads2, writes2, orders) == Ok(false)
    ensures p(q(s)) == q(p(s))
  {
    hide Clean, AreOrders, Analysis, Respects, Independent;
    AnalysisIsExact(reads1, writes1, reads2, writes2, orders, size);
    IndependentProgramsCommute(p, q, reads1, writes1, reads2, writes2, size, s);
  }
}
