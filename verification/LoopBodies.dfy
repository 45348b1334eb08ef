/** Loop-body discovery: two worklist searches over a control-flow graph, their
    intersection, and the count of edges that leave it.  The graph maps each block to
    the labels its lines mention; labels without a block of their own are allowed. */
module LoopBodies {

  type Label = string
  type Graph = map<Label, seq<Label>>

  function Succ(g: Graph, x: Label): (s: seq<Label>)
  {
    if x in g then g[x] else []
  }

  predicate IsPath(g: Graph, p: seq<Label>) {
    && p != []
    && forall i :: 0 <= i < |p| - 1 ==> p[i + 1] in Succ(g, p[i])
  }

  predicate PathFromTo(g: Graph, p: seq<Label>, x: Label, y: Label) {
    IsPath(g, p) && p[0] == x && p[|p| - 1] == y
  }

  /** Reflexive-transitive closure of the edges. */
  ghost predicate Reaches(g: Graph, x: Label, y: Label) {
    exists p :: PathFromTo(g, p, x, y)
  }

  lemma ReachesSelf(g: Graph, x: Label)
    ensures Reaches(g, x, x)
  {
    assert PathFromTo(g, [x], x, x);
  }

  lemma ReachesStep(g: Graph, x: Label, y: Label, z: Label)
    requires Reaches(g, x, y) && z in Succ(g, y)
    ensures Reaches(g, x, z)
  {
    var p :| PathFromTo(g, p, x, y);
    assert PathFromTo(g, p + [z], x, z);
  }

  lemma PathConcat(g: Graph, p: seq<Label>, q: seq<Label>, x: Label, y: Label, z: Label)
    requires PathFromTo(g, p, x, y) && PathFromTo(g, q, y, z)
    ensures PathFromTo(g, p + q[1..], x, z)
  {
    var r := p + q[1..];
    forall i | 0 <= i < |r| - 1
      ensures r[i + 1] in Succ(g, r[i])
    {
      if i >= |p| - 1 {
        var j := i - (|p| - 1);
        assert r[i] == q[j] && r[i + 1] == q[j + 1];
      }
    }
  }

  lemma PathSplit(g: Graph, p: seq<Label>, x: Label, y: Label, i: nat)
    requires PathFromTo(g, p, x, y) && i < |p|
    ensures PathFromTo(g, p[..i + 1], x, p[i]) && PathFromTo(g, p[i..], p[i], y)
  {
    forall j | 0 <= j < |p[i..]| - 1
      ensures p[i..][j + 1] in Succ(g, p[i..][j])
    {
      assert p[(i + j) + 1] in Succ(g, p[i + j]);
    }
  }

  lemma ReachesTransitive(g: Graph, x: Label, y: Label, z: Label)
    requires Reaches(g, x, y) && Reaches(g, y, z)
    ensures Reaches(g, x, z)
  {
    var p :| PathFromTo(g, p, x, y);
    var q :| PathFromTo(g, q, y, z);
    PathConcat(g, p, q, x, y, z);
  }

  /** A set closed under edges contains everything reachable from its members. */
  lemma {:induction false} ClosedContains(g: Graph, s: set<Label>, p: seq<Label>)
    requires IsPath(g, p) && p[0] in s
    requires forall x, y :: x in s && y in Succ(g, x) ==> y in s
    ensures p[|p| - 1] in s
    decreases |p|
  {
    if |p| > 1 {
      assert p[0 + 1] in Succ(g, p[0]);
      PathSplit(g, p, p[0], p[|p| - 1], 1);
      ClosedContains(g, s, p[1..]);
    }
  }

  /** All labels a search can meet. */
  function Labels(g: Graph, start: Label): (s: set<Label>)
  {
    {start} + set x, y | x in g && y in g[x] :: y
  }

  /** Pushes the successors that have not been seen. */
  method PushUnseen(succ: seq<Label>, seen: set<Label>, stk: seq<Label>) returns (r: seq<Label>)
    ensures forall y :: y in r <==> y in stk || (y in succ && y !in seen)
  {
    r := stk;
    for i := 0 to |succ|
      invariant forall y :: y in r <==> y in stk || (y in succ[..i] && y !in seen)
    {
      assert succ[..i + 1] == succ[..i] + [succ[i]];
      if succ[i] !in seen {
        r := r + [succ[i]];
      }
    }
    assert succ[..|succ|] == succ;
  }

  /** Everything met so far is reachable, and edges from seen labels lead to labels met. */
  ghost predicate Frontier(g: Graph, start: Label, seen: set<Label>, stk: seq<Label>) {
    && (start in seen || start in stk)
    && (forall y :: y in seen || y in stk ==> y in Labels(g, start) && Reaches(g, start, y))
    && (forall x, y :: x in seen && y in Succ(g, x) ==> y in seen || y in stk)
  }

  /** The worklist search, used forwards and backwards. */
  method Search(g: Graph, start: Label) returns (seen: set<Label>)
    ensures forall y :: y in seen <==> Reaches(g, start, y)
  {
    hide Frontier, Labels, Reaches, Succ;
    seen := {};
    var stk := [start];
    FrontierStart(g, start);
    while stk != []
      invariant Frontier(g, start, seen, stk)
      decreases |Labels(g, start) - seen|, |stk|
    {
      var x := stk[|stk| - 1];
      ghost var stk0, seen0 := stk, seen;
      stk := stk[..|stk| - 1];
      if x in seen {
        FrontierSkip(g, start, seen, stk0);
        continue;
      }
      seen := seen + {x};
      stk := PushUnseen(Succ(g, x), seen, stk);
      FrontierStep(g, start, seen0, stk0, x, seen, stk);
    }
    FrontierDone(g, start, seen);
  }

  lemma FrontierStart(g: Graph, start: Label)
    ensures Frontier(g, start, {}, [start])
  {
    ReachesSelf(g, start);
  }

  lemma FrontierSkip(g: Graph, start: Label, seen: set<Label>, stk: seq<Label>)
    requires Frontier(g, start, seen, stk) && stk != [] && stk[|stk| - 1] in seen
    ensures Frontier(g, start, seen, stk[..|stk| - 1])
  {
    hide Reaches, Labels, Succ;
    assert stk == stk[..|stk| - 1] + [stk[|stk| - 1]];
  }

  /** With nothing left to visit, the labels seen are exactly those reachable. */
  lemma FrontierDone(g: Graph, start: Label, seen: set<Label>)
    requires Frontier(g, start, seen, [])
    ensures forall y :: y in seen <==> Reaches(g, start, y)
  {
    hide Labels, Succ;
    forall y | Reaches(g, start, y)
      ensures y in seen
    {
      var p :| PathFromTo(g, p, start, y);
      ClosedContains(g, seen, p);
    }
  }

  lemma FrontierStep(g: Graph, start: Label, seen: set<Label>, stk: seq<Label>, x: Label, seen': set<Label>, stk': seq<Label>)
    requires Frontier(g, start, seen, stk) && stk != [] && x == stk[|stk| - 1] && x !in seen && seen' == seen + {x}
    requires forall y :: y in stk' <==> y in stk[..|stk| - 1] || (y in Succ(g, x) && y !in seen')
    ensures Frontier(g, start, seen', stk')
    ensures |Labels(g, start) - seen'| < |Labels(g, start) - seen|
  {
    hide Reaches, Labels, Succ;
    assert stk == stk[..|stk| - 1] + [x];
    forall y | y in Succ(g, x)
      ensures y in Labels(g, start) && Reaches(g, start, y)
    {
      ReachesStep(g, start, x, y);
      SuccIsLabel(g, start, x, y);
    }
    SmallerSet(Labels(g, start) - seen', Labels(g, start) - seen);
  }

  lemma SuccIsLabel(g: Graph, start: Label, x: Label, y: Label)
    requires y in Succ(g, x)
    ensures y in Labels(g, start)
  {
  }

  lemma SmallerSet<T>(a: set<T>, b: set<T>)
    requires a < b
    ensures |a| < |b|
  {
    var x :| x in b && x !in a;
    assert b == a + (b - a) && x in b - a;
  }

  // ----- predecessors -------------------------------------------------------------------------------

  ghost predicate IsReversed(g: Graph, r: Graph) {
    forall x, y :: y in Succ(g, x) <==> x in Succ(r, y)
  }

  /** The predecessor lists, built edge by edge. */
  method Predecessors(g: Graph) returns (pred: Graph)
    ensures IsReversed(g, pred)
  {
    pred := map[];
    var todo := g.Keys;
    while todo != {}
      invariant todo <= g.Keys
      invariant forall x, y :: x in Succ(pred, y) <==> x !in todo && y in Succ(g, x)
      decreases |todo|
    {
      var b :| b in todo;
      pred := AddEdges(pred, b, g[b]);
      todo := todo - {b};
    }
  }

  method AddEdges(pred: Graph, b: Label, ss: seq<Label>) returns (r: Graph)
    ensures forall x, y :: x in Succ(r, y) <==> x in Succ(pred, y) || (x == b && y in ss)
  {
    r := pred;
    for i := 0 to |ss|
      invariant forall x, y :: x in Succ(r, y) <==> x in Succ(pred, y) || (x == b && y in ss[..i])
    {
      assert ss[..i + 1] == ss[..i] + [ss[i]];
      ghost var r0 := r;
      r := r[ss[i] := Succ(r, ss[i]) + [b]];
      assert forall y :: y != ss[i] ==> Succ(r, y) == Succ(r0, y);
      assert Succ(r, ss[i]) == Succ(r0, ss[i]) + [b];
    }
    assert ss[..|ss|] == ss;
  }

  function Reversed(p: seq<Label>): (r: seq<Label>)
    ensures |r| == |p|
  {
    seq(|p|, i requires 0 <= i < |p| => p[|p| - 1 - i])
  }

  lemma ReversedPath(g: Graph, r: Graph, p: seq<Label>, x: Label, y: Label)
    requires IsReversed(g, r) && PathFromTo(g, p, x, y)
    ensures PathFromTo(r, Reversed(p), y, x)
  {
    var q := Reversed(p);
    forall i | 0 <= i < |q| - 1
      ensures q[i + 1] in Succ(r, q[i])
    {
      var j := |p| - 2 - i;
      assert q[i] == p[j + 1] && q[i + 1] == p[j];
      assert p[j + 1] in Succ(g, p[j]);
    }
  }

  lemma ReversedReaches(g: Graph, r: Graph, x: Label, y: Label)
    requires IsReversed(g, r)
    ensures Reaches(r, x, y) <==> Reaches(g, y, x)
  {
    if Reaches(g, y, x) {
      var p :| PathFromTo(g, p, y, x);
      ReversedPath(g, r, p, y, x);
    }
    if Reaches(r, x, y) {
      var p :| PathFromTo(r, p, x, y);
      ReversedPath(r, g, p, x, y);
    }
  }

  // ----- loop bodies -----------------------------------------------------------------------------------

  /** Mutually reachable: in one strongly connected component. */
  ghost predicate Connected(g: Graph, x: Label, y: Label) {
    Reaches(g, x, y) && Reaches(g, y, x)
  }

  /** Occurrences of edges that start in `from` and end outside `body`. */
  function ExitEdges(g: Graph, from: set<Label>, body: set<Label>): (s: set<(Label, nat)>)
  {
    set b, i: nat | b in from && i < |Succ(g, b)| && Succ(g, b)[i] !in body :: (b, i)
  }

  /** The body of the loop at `header` and its number of exits. */
  method LoopBody(g: Graph, header: Label) returns (body: set<Label>, exits: nat)
    ensures forall b :: b in body <==> Connected(g, header, b)
    ensures exits == |ExitEdges(g, body, body)|
  {
    var pred := Predecessors(g);
    var fwd := Search(g, header);
    var bwd := Search(pred, header);
    body := fwd * bwd;
    ReachesSelf(g, header);
    forall b
      ensures b in body + {header} <==> Connected(g, header, b)
    {
      ReversedReaches(g, pred, header, b);
    }
    body := body + {header};
    exits := CountExits(g, body);
  }

  method CountExits(g: Graph, body: set<Label>) returns (exits: nat)
    ensures exits == |ExitEdges(g, body, body)|
  {
    exits := 0;
    var todo := body;
    assert ExitEdges(g, body - todo, body) == {};
    while todo != {}
      invariant todo <= body
      invariant exits == |ExitEdges(g, body - todo, body)|
      decreases |todo|
    {
      var b :| b in todo;
      var n := ExitsOf(Succ(g, b), b, body);
      ExitEdgesSplit(g, body - todo, b, body);
      assert body - (todo - {b}) == (body - todo) + {b};
      exits := exits + n;
      todo := todo - {b};
    }
    assert body - todo == body;
  }

  /** The edges among the first n out of `b` that leave the body. */
  function RowExits(succ: seq<Label>, n: nat, b: Label, body: set<Label>): (s: set<(Label, nat)>)
    requires n <= |succ|
  {
    set i: nat | i < n && succ[i] !in body :: (b, i)
  }

  method ExitsOf(succ: seq<Label>, b: Label, body: set<Label>) returns (n: nat)
    ensures n == |RowExits(succ, |succ|, b, body)|
  {
    n := 0;
    for i := 0 to |succ|
      invariant n == |RowExits(succ, i, b, body)|
    {
      RowExitsSnoc(succ, i, b, body);
      if succ[i] !in body {
        n := n + 1;
      }
    }
  }

  lemma RowExitsSnoc(succ: seq<Label>, i: nat, b: Label, body: set<Label>)
    requires i < |succ|
    ensures |RowExits(succ, i + 1, b, body)| == |RowExits(succ, i, b, body)| + if succ[i] !in body then 1 else 0
  {
    var u, v := RowExits(succ, i, b, body), RowExits(succ, i + 1, b, body);
    if succ[i] !in body {
      assert v == u + {(b, i)} && (b, i) !in u;
    } else {
      assert v == u;
    }
  }

  lemma ExitEdgesSplit(g: Graph, from: set<Label>, b: Label, body: set<Label>)
    requires b !in from
    ensures |ExitEdges(g, from + {b}, body)| == |ExitEdges(g, from, body)| + |RowExits(Succ(g, b), |Succ(g, b)|, b, body)|
  {
    var u, row := ExitEdges(g, from, body), RowExits(Succ(g, b), |Succ(g, b)|, b, body);
    assert ExitEdges(g, from + {b}, body) == u + row;
    assert u !! row;
  }

  // ----- what a loop body is --------------------------------------------------------------------------------

  /** `b` lies on a cycle through `header`. */
  ghost predicate OnCycle(g: Graph, header: Label, b: Label) {
    exists p :: PathFromTo(g, p, header, header) && b in p
  }

  /** The strongly connected component is exactly the blocks on cycles through the header. */
  lemma ComponentIsCycles(g: Graph, header: Label, b: Label)
    ensures Connected(g, header, b) <==> OnCycle(g, header, b)
  {
    if Connected(g, header, b) {
      var p :| PathFromTo(g, p, header, b);
      var q :| PathFromTo(g, q, b, header);
      PathConcat(g, p, q, header, b, header);
      assert p[|p| - 1] in p + q[1..];
    }
    if OnCycle(g, header, b) {
      var p :| PathFromTo(g, p, header, header) && b in p;
      var i :| 0 <= i < |p| && p[i] == b;
      PathSplit(g, p, header, header, i);
    }
  }

  /** Loop bodies are equal or disjoint, whichever of their blocks is taken as header. */
  lemma BodiesPartition(g: Graph, h1: Label, h2: Label, b: Label, c: Label)
    requires Connected(g, h1, b) && Connected(g, h2, b)
    ensures Connected(g, h1, c) <==> Connected(g, h2, c)
  {
    ReachesTransitive(g, h1, b, h2);
    ReachesTransitive(g, h2, b, h1);
    if Connected(g, h1, c) {
      ReachesTransitive(g, h2, h1, c);
      ReachesTransitive(g, c, h1, h2);
    }
    if Connected(g, h2, c) {
      ReachesTransitive(g, h1, h2, c);
      ReachesTransitive(g, c, h2, h1);
    }
  }
}
