/** The interference analysis: do the read and write sets of two programs overlap?
    Elements arrive as text; here they are already parsed into variables and map keys,
    a key being a number or a list of bytes some of which are symbolic.  Python sets
    are lists here, in whatever order their elements are iterated. */
module ReadWriteSet {
  import opened Bytes

  datatype ByteVal = Sym | Val(b: byte)
  datatype MapKey = Concrete(value: nat) | Symbolic(bytes: seq<ByteVal>)
  datatype Element = Variable(name: string) | Access(mapName: string, key: MapKey)

  /** An element named by both sets, or a pair of keys that could be the same. */
  datatype Report = Common(element: Element) | Possible(mapName: string, key: MapKey)

  datatype Outcome<T> = Ok(value: T) | AssertionFailed

  // ----- bytes of a concrete key ----------------------------------------------------------------

  function Pow256(n: nat): (p: nat)
    ensures p >= 1
  {
    if n == 0 then 1 else 256 * Pow256(n - 1)
  }

  /** The number of hex digits Python prints. */
  function HexDigits(v: nat): (n: nat)
    ensures n >= 1
  {
    if v < 16 then 1 else 1 + HexDigits(v / 16)
  }

  /** The first `size` bytes of a number, least significant first. */
  function LittleEndian(v: nat, size: nat): (r: seq<byte>)
    ensures |r| == size
  {
    if size == 0 then [] else [v % 256] + LittleEndian(v / 256, size - 1)
  }

  function ZeroBytes(n: int): (r: seq<byte>)
  {
    if n <= 0 then [] else seq(n, i => 0)
  }

  /** The bytes the analysis gives a concrete key: pairs of hex digits from the right,
      an unpaired leading digit skipped, then zeros up to the size of the key. */
  function ConcreteBytes(key: nat, size: nat): (r: seq<byte>)
  {
    var pairs := HexDigits(key) / 2;
    LittleEndian(key, pairs) + ZeroBytes(size - pairs)
  }

  method GetConcreteBytes(key: nat, lastByteNum: nat) returns (bytes: seq<byte>)
    ensures bytes == ConcreteBytes(key, lastByteNum + 1)
  {
    bytes := [];
    var byteNum := 0;
    var b, rest := HexDigits(key) - 2, key;
    while b > -1
      invariant b == HexDigits(key) - 2 - 2 * byteNum && b >= -2
      invariant 0 <= byteNum <= HexDigits(key) / 2
      invariant bytes + LittleEndian(rest, HexDigits(key) / 2 - byteNum) == LittleEndian(key, HexDigits(key) / 2)
      invariant |bytes| == byteNum
    {
      assert bytes + LittleEndian(rest, HexDigits(key) / 2 - byteNum) ==
             (bytes + [rest % 256]) + LittleEndian(rest / 256, HexDigits(key) / 2 - byteNum - 1);
      bytes := bytes + [rest % 256];
      rest := rest / 256;
      byteNum := byteNum + 1;
      b := b - 2;
    }
    assert byteNum == HexDigits(key) / 2;
    assert bytes == LittleEndian(key, byteNum);
    var n := byteNum;
    while n < lastByteNum + 1
      invariant byteNum <= n && (n <= lastByteNum + 1 || n == byteNum)
      invariant bytes == LittleEndian(key, byteNum) + ZeroBytes(n - byteNum)
    {
      bytes := bytes + [0];
      n := n + 1;
    }
  }

  lemma {:induction false} ZeroLittleEndian(size: nat)
    ensures LittleEndian(0, size) == ZeroBytes(size)
  {
    if size != 0 { ZeroLittleEndian(size - 1); }
  }

  /** Exactly when the bytes of a key are right: an odd number of hex digits loses the
      leading one, unless there is nothing to lose. */
  lemma {:induction false} ConcreteBytesRightIff(key: nat, size: nat)
    requires size >= 1 && key < Pow256(size)
    ensures ConcreteBytes(key, size) == LittleEndian(key, size) <==> key == 0 || HexDigits(key) % 2 == 0
  {
    if key < 256 {
      ZeroLittleEndian(size);
      ZeroLittleEndian(size - 1);
      assert LittleEndian(key, size) == [key] + ZeroBytes(size - 1);
      if key < 16 {
        assert ConcreteBytes(key, size) == ZeroBytes(size);
        assert key != 0 ==> LittleEndian(key, size)[0] != ZeroBytes(size)[0];
      } else {
        assert HexDigits(key) == 2;
        assert LittleEndian(key, 1) == [key] + LittleEndian(0, 0);
        assert ConcreteBytes(key, size) == [key] + ZeroBytes(size - 1);
      }
    } else {
      ConcreteBytesRightIff(key / 256, size - 1);
      assert HexDigits(key) == 2 + HexDigits(key / 256) by { assert key / 16 / 16 == key / 256; }
      var pairs := HexDigits(key / 256) / 2;
      assert ConcreteBytes(key, size) == [key % 256] + ConcreteBytes(key / 256, size - 1);
      assert ConcreteBytes(key, size)[1..] == ConcreteBytes(key / 256, size - 1);
      assert LittleEndian(key, size)[1..] == LittleEndian(key / 256, size - 1);
    }
  }

  lemma {:induction false} ConcreteBytesLength(key: nat, size: nat)
    requires size >= 1 && key < Pow256(size)
    ensures |ConcreteBytes(key, size)| == size
  {
    if key < 256 {
    } else {
      ConcreteBytesLength(key / 256, size - 1);
      assert HexDigits(key) == 2 + HexDigits(key / 256) by { assert key / 16 / 16 == key / 256; }
    }
  }

  lemma {:induction false} LittleEndianInjective(v: nat, w: nat, size: nat)
    requires v < Pow256(size) && w < Pow256(size) && LittleEndian(v, size) == LittleEndian(w, size)
    ensures v == w
  {
    if size != 0 {
      assert LittleEndian(v, size)[0] == LittleEndian(w, size)[0];
      assert LittleEndian(v, size)[1..] == LittleEndian(w, size)[1..];
      LittleEndianInjective(v / 256, w / 256, size - 1);
    }
  }

  // ----- comparing keys ------------------------------------------------------------------------------

  /** A key as the list of bytes the analysis compares. */
  function Pattern(k: MapKey, size: nat): (p: seq<ByteVal>)
  {
    match k
    case Symbolic(bytes) => bytes
    case Concrete(v) =>
      var b := ConcreteBytes(v, size);
      seq(|b|, i requires 0 <= i < |b| => Val(b[i]))
  }

  predicate MayMatch(p: seq<ByteVal>, q: seq<ByteVal>)
    requires |p| == |q|
  {
    forall i :: 0 <= i < |p| ==> p[i] == Sym || q[i] == Sym || p[i] == q[i]
  }

  method Same(p: seq<ByteVal>, q: seq<ByteVal>) returns (same: bool)
    requires |p| == |q|
    ensures same == MayMatch(p, q)
  {
    same := true;
    for k := 0 to |p|
      invariant same && forall i :: 0 <= i < k ==> p[i] == Sym || q[i] == Sym || p[i] == q[i]
    {
      if p[k] != Sym && q[k] != Sym && p[k] != q[k] {
        same := false;
        break;
      }
    }
  }

  // ----- collecting keys ---------------------------------------------------------------------------------

  /** The elements of one set that are not in the other. */
  function Difference(s: seq<Element>, t: seq<Element>): (r: seq<Element>)
    ensures forall e :: e in r <==> e in s && e !in t
  {
    if s == [] then []
    else (if s[0] in t then [] else [s[0]]) + Difference(s[1..], t)
  }

  function KeysOf(s: seq<Element>, m: string): (keys: seq<MapKey>)
    ensures forall k :: k in keys <==> Access(m, k) in s
  {
    if s == [] then []
    else
      var last := |s| - 1;
      KeysOf(s[..last], m) + if s[last].Access? && s[last].mapName == m then [s[last].key] else []
  }

  method GetMaps(s: seq<Element>) returns (maps: map<string, seq<MapKey>>)
    ensures forall m :: m in maps <==> KeysOf(s, m) != []
    ensures forall m :: m in maps ==> maps[m] == KeysOf(s, m)
  {
    maps := map[];
    for i := 0 to |s|
      invariant forall m :: m in maps <==> KeysOf(s[..i], m) != []
      invariant forall m :: m in maps ==> maps[m] == KeysOf(s[..i], m)
    {
      assert s[..i + 1][..i] == s[..i];
      match s[i]
      case Variable(_) =>
      case Access(m, key) =>
        if m in maps {
          maps := maps[m := maps[m] + [key]];
        } else {
          maps := maps[m := [key]];
        }
    }
    assert s[..|s|] == s;
  }

  // ----- the overlap of two sets -----------------------------------------------------------------------------

  /** The key size the analysis assumes for a map: that of the first symbolic key. */
  function AssumedSize(keys: seq<MapKey>): (r: Outcome<nat>)
  {
    if keys == [] then AssertionFailed
    else if keys[0].Symbolic? then Ok(|keys[0].bytes|)
    else AssumedSize(keys[1..])
  }

  predicate LengthsAgree(keys1: seq<MapKey>, keys2: seq<MapKey>, size: nat) {
    forall i, j :: 0 <= i < |keys1| && 0 <= j < |keys2| ==> |Pattern(keys1[i], size)| == |Pattern(keys2[j], size)|
  }

  /** The keys of the first list that could equal some key of the second. */
  function Matches(keys1: seq<MapKey>, keys2: seq<MapKey>, size: nat): (r: set<MapKey>)
    requires LengthsAgree(keys1, keys2, size)
  {
    set i, j | 0 <= i < |keys1| && 0 <= j < |keys2| &&
               MayMatch(Pattern(keys1[i], size), Pattern(keys2[j], size)) :: keys1[i]
  }

  /** The maps both sets use, in the order they are visited; a map whose keys are all
      concrete ends the whole scan. */
  function Scan(s1: seq<Element>, s2: seq<Element>, order: seq<string>): (r: Outcome<set<Report>>)
  {
    if order == [] then Ok({})
    else
      var keys1, keys2 := KeysOf(s1, order[0]), KeysOf(s2, order[0]);
      match AssumedSize(keys1 + keys2)
      case AssertionFailed => Ok({})
      case Ok(size) =>
        if !LengthsAgree(keys1, keys2, size) then AssertionFailed
        else
          match Scan(s1, s2, order[1..])
          case AssertionFailed => AssertionFailed
          case Ok(rest) => Ok((set k | k in Matches(keys1, keys2, size) :: Possible(order[0], k)) + rest)
  }

  function CommonElements(s1: seq<Element>, s2: seq<Element>): (r: set<Report>)
  {
    set e | e in s1 && e in s2 :: Common(e)
  }

  function Overlap(s1: seq<Element>, s2: seq<Element>, order: seq<string>): (r: Outcome<set<Report>>)
  {
    match Scan(Difference(s1, s2), Difference(s2, s1), order)
    case AssertionFailed => AssertionFailed
    case Ok(found) => Ok(CommonElements(s1, s2) + found)
  }

  predicate Shared(s1: seq<Element>, s2: seq<Element>, m: string) {
    KeysOf(Difference(s1, s2), m) != [] && KeysOf(Difference(s2, s1), m) != []
  }

  /** `order` lists the shared maps: the order in which a Python set happens to yield them. */
  ghost predicate IsOrder(s1: seq<Element>, s2: seq<Element>, order: seq<string>) {
    forall m :: m in order <==> Shared(s1, s2, m)
  }

  method MatchKeys(m: string, keys1: seq<MapKey>, keys2: seq<MapKey>, size: nat) returns (r: Outcome<set<Report>>)
    ensures r == if LengthsAgree(keys1, keys2, size)
                 then Ok(set k | k in Matches(keys1, keys2, size) :: Possible(m, k)) else AssertionFailed
  {
    hide Pattern, MayMatch;
    var found: set<Report> := {};
    for i := 0 to |keys1|
      invariant LengthsAgree(keys1[..i], keys2, size)
      invariant found == set k | k in Matches(keys1[..i], keys2, size) :: Possible(m, k)
    {
      ghost var before := found;
      for j := 0 to |keys2|
        invariant forall l :: 0 <= l < j ==> |Pattern(keys1[i], size)| == |Pattern(keys2[l], size)|
        invariant found == before + if exists l :: 0 <= l < j && MayMatch(Pattern(keys1[i], size), Pattern(keys2[l], size))
                                    then {Possible(m, keys1[i])} else {}
      {
        var curr1, curr2 := Pattern(keys1[i], size), Pattern(keys2[j], size);
        if |curr1| != |curr2| {
          return AssertionFailed;
        }
        var same := Same(curr1, curr2);
        if same {
          found := found + {Possible(m, keys1[i])};
        }
      }
      MatchesSnoc(keys1[..i], keys1[i], keys2, size);
      assert keys1[..i] + [keys1[i]] == keys1[..i + 1];
    }
    assert keys1[..|keys1|] == keys1;
    return Ok(found);
  }

  lemma MatchesSnoc(keys1: seq<MapKey>, k: MapKey, keys2: seq<MapKey>, size: nat)
    requires LengthsAgree(keys1, keys2, size)
    requires forall l :: 0 <= l < |keys2| ==> |Pattern(k, size)| == |Pattern(keys2[l], size)|
    ensures LengthsAgree(keys1 + [k], keys2, size)
    ensures Matches(keys1 + [k], keys2, size) == Matches(keys1, keys2, size) +
            if exists l :: 0 <= l < |keys2| && MayMatch(Pattern(k, size), Pattern(keys2[l], size)) then {k} else {}
  {
    hide Pattern, MayMatch;
    var longer := keys1 + [k];
    forall x | x in Matches(keys1, keys2, size)
      ensures x in Matches(longer, keys2, size)
    {
      var i, j :| 0 <= i < |keys1| && 0 <= j < |keys2| &&
                  MayMatch(Pattern(keys1[i], size), Pattern(keys2[j], size)) && x == keys1[i];
      assert longer[i] == keys1[i];
    }
    if l :| 0 <= l < |keys2| && MayMatch(Pattern(k, size), Pattern(keys2[l], size)) {
      assert longer[|keys1|] == k;
      assert k in Matches(longer, keys2, size);
    }
  }

  method DetermineOverlap(s1: seq<Element>, s2: seq<Element>, order: seq<string>) returns (r: Outcome<set<Report>>)
    requires IsOrder(s1, s2, order)
    ensures r == Overlap(s1, s2, order)
  {
    hide Scan, AssumedSize, LengthsAgree, Matches, Difference, KeysOf, CommonElements;
    var d1, d2 := Difference(s1, s2), Difference(s2, s1);
    var found := CommonElements(s1, s2);
    var maps1 := GetMaps(d1);
    var maps2 := GetMaps(d2);
    for i := 0 to |order|
      invariant Overlap(s1, s2, order) == WithFound(found, Scan(d1, d2, order[i..]))
    {
      var m := order[i];
      assert m in order && Shared(s1, s2, m);
      var keys1, keys2 := maps1[m], maps2[m];
      assert order[i..][0] == m && order[i..][1..] == order[i + 1..];
      ScanStep(d1, d2, order[i..], found);
      var size := AssumedSize(keys1 + keys2);
      if size.AssertionFailed? {
        return Ok(found);
      }
      var here := MatchKeys(m, keys1, keys2, size.value);
      if here.AssertionFailed? {
        return AssertionFailed;
      }
      found := found + here.value;
    }
    assert order[|order|..] == [];
    ScanNothing(d1, d2, found);
    return Ok(found);
  }

  /** Reports found before, and those of the rest of the scan. */
  function WithFound(found: set<Report>, rest: Outcome<set<Report>>): (r: Outcome<set<Report>>)
  {
    match rest
    case AssertionFailed => AssertionFailed
    case Ok(more) => Ok(found + more)
  }

  lemma ScanNothing(s1: seq<Element>, s2: seq<Element>, found: set<Report>)
    ensures WithFound(found, Scan(s1, s2, [])) == Ok(found)
  {
    assert found + {} == found;
  }

  /** One round of the scan. */
  lemma ScanStep(s1: seq<Element>, s2: seq<Element>, order: seq<string>, found: set<Report>)
    requires order != []
    ensures var keys1, keys2 := KeysOf(s1, order[0]), KeysOf(s2, order[0]);
            var size := AssumedSize(keys1 + keys2);
            WithFound(found, Scan(s1, s2, order)) ==
            if size.AssertionFailed? then Ok(found)
            else if !LengthsAgree(keys1, keys2, size.value) then AssertionFailed
            else WithFound(found + (set k | k in Matches(keys1, keys2, size.value) :: Possible(order[0], k)),
                           Scan(s1, s2, order[1..]))
  {
    hide AssumedSize, LengthsAgree, Matches, KeysOf;
    assert found + {} == found;
    var keys1, keys2, rest := KeysOf(s1, order[0]), KeysOf(s2, order[0]), Scan(s1, s2, order[1..]);
    var size := AssumedSize(keys1 + keys2);
    if size.Ok? && LengthsAgree(keys1, keys2, size.value) && rest.Ok? {
      var here := set k | k in Matches(keys1, keys2, size.value) :: Possible(order[0], k);
      assert found + (here + rest.value) == (found + here) + rest.value;
    }
  }
}
