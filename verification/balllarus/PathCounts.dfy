/** Paths through the abstract graph of BallLarusProfiler, how many there are, and what it means that
    the edge values number them. */
module PathCounts {

  /** An edge of the abstract graph: its end points, the value used for numbering, the increment used
      for instrumentation, the number of the back edge it stands for (0: none), and whether it is
      instrumented. */
  datatype Edge = Edge(from: nat, to: nat, val: int, inc: int, backedgeNumber: nat, chordEdge: bool)

  type Adjacency = map<nat, seq<Edge>>

  function Out(g: Adjacency, b: nat): seq<Edge> {
    if b in g then g[b] else []
  }

  /** The same edges in the same order, apart from the values on them. */
  ghost predicate SameButVals(a: seq<Edge>, b: seq<Edge>) {
    |b| == |a| && forall i | 0 <= i < |a| :: b[i] == a[i].(val := b[i].val)
  }

  ghost predicate ValsOnly(g0: Adjacency, g1: Adjacency) {
    forall b :: SameButVals(Out(g0, b), Out(g1, b))
  }

  lemma ValsOnlyTransitive(g0: Adjacency, g1: Adjacency, g2: Adjacency)
    requires ValsOnly(g0, g1) && ValsOnly(g1, g2)
    ensures ValsOnly(g0, g2)
  {
    forall b
      ensures SameButVals(Out(g0, b), Out(g2, b))
    {
      assert SameButVals(Out(g0, b), Out(g1, b)) && SameButVals(Out(g1, b), Out(g2, b));
    }
  }

  lemma ValsOnlySame(g0: Adjacency, g1: Adjacency)
    requires forall b :: Out(g1, b) == Out(g0, b)
    ensures ValsOnly(g0, g1)
  {
  }

  /** The successors of every block, in order: what numbering the edges does not change. */
  type Shape = map<nat, seq<nat>>

  function Succ(t: Shape, b: nat): seq<nat> {
    if b in t then t[b] else []
  }

  ghost predicate HasShape(g: Adjacency, t: Shape) {
    forall b :: HasShapeAt(g, t, b)
  }

  ghost predicate HasShapeAt(g: Adjacency, t: Shape, b: nat) {
    |Out(g, b)| == |Succ(t, b)| && forall i | 0 <= i < |Succ(t, b)| ::
      Out(g, b)[i].to == Succ(t, b)[i] && Out(g, b)[i].from == b
  }

  /** The region is closed under successors and rank falls along every edge in it: it has no cycle. */
  ghost predicate IsDag(t: Shape, region: set<nat>, rank: nat -> nat) {
    forall u, i | u in region && 0 <= i < |Succ(t, u)| :: Succ(t, u)[i] in region && rank(Succ(t, u)[i]) < rank(u)
  }

  /** The number of paths from u to a block without successors. */
  ghost function PathCount(t: Shape, region: set<nat>, rank: nat -> nat, u: nat): nat
    requires IsDag(t, region, rank) && u in region
    decreases rank(u), |Succ(t, u)| + 1
  {
    if Succ(t, u) == [] then 1 else CountBelow(t, region, rank, u, |Succ(t, u)|)
  }

  /** The number of those that start with one of the first i edges of u. */
  ghost function CountBelow(t: Shape, region: set<nat>, rank: nat -> nat, u: nat, i: nat): nat
    requires IsDag(t, region, rank) && u in region && i <= |Succ(t, u)|
    decreases rank(u), i
  {
    if i == 0 then 0 else CountBelow(t, region, rank, u, i - 1) + PathCount(t, region, rank, Succ(t, u)[i - 1])
  }

  lemma {:induction false} PathCountPositive(t: Shape, region: set<nat>, rank: nat -> nat, u: nat)
    requires IsDag(t, region, rank) && u in region
    ensures PathCount(t, region, rank, u) >= 1
    decreases rank(u), 0
  {
    if Succ(t, u) != [] {
      PathCountPositive(t, region, rank, Succ(t, u)[|Succ(t, u)| - 1]);
    }
  }

  /** CountBelow is strictly increasing. */
  lemma {:induction false} CountBelowIncreases(t: Shape, region: set<nat>, rank: nat -> nat, u: nat, i: nat, j: nat)
    requires IsDag(t, region, rank) && u in region && i < j <= |Succ(t, u)|
    ensures CountBelow(t, region, rank, u, i) + PathCount(t, region, rank, Succ(t, u)[i]) <=
      CountBelow(t, region, rank, u, j)
    ensures CountBelow(t, region, rank, u, i) < CountBelow(t, region, rank, u, j) <= PathCount(t, region, rank, u)
    decreases |Succ(t, u)| - i, j
  {
    PathCountPositive(t, region, rank, Succ(t, u)[i]);
    if i + 1 < j {
      CountBelowIncreases(t, region, rank, u, i, j - 1);
      PathCountPositive(t, region, rank, Succ(t, u)[j - 1]);
    }
    if j < |Succ(t, u)| {
      CountBelowIncreases(t, region, rank, u, j, |Succ(t, u)|);
    }
  }

  /** A successor has no more paths than the block before it. */
  lemma SuccessorHasFewer(t: Shape, region: set<nat>, rank: nat -> nat, u: nat, i: nat)
    requires IsDag(t, region, rank) && u in region && i < |Succ(t, u)|
    ensures PathCount(t, region, rank, Succ(t, u)[i]) <= PathCount(t, region, rank, u)
  {
    CountBelowIncreases(t, region, rank, u, i, i + 1);
  }

  /** The counts do not depend on which closed region around u they are taken in. */
  lemma {:induction false} SameCounts(t: Shape, region: set<nat>, part: set<nat>, rank: nat -> nat, u: nat)
    requires IsDag(t, region, rank) && IsDag(t, part, rank) && u in part && part <= region
    ensures PathCount(t, part, rank, u) == PathCount(t, region, rank, u)
    decreases rank(u), |Succ(t, u)| + 1
  {
    SameCountsBelow(t, region, part, rank, u, |Succ(t, u)|);
  }

  lemma {:induction false} SameCountsBelow(t: Shape, region: set<nat>, part: set<nat>, rank: nat -> nat, u: nat, i: nat)
    requires IsDag(t, region, rank) && IsDag(t, part, rank) && u in part && part <= region && i <= |Succ(t, u)|
    ensures CountBelow(t, part, rank, u, i) == CountBelow(t, region, rank, u, i)
    decreases rank(u), i
  {
    if i > 0 {
      SameCountsBelow(t, region, part, rank, u, i - 1);
      SameCounts(t, region, part, rank, Succ(t, u)[i - 1]);
    }
  }

  // ----- paths -----

  /** A walk from u chooses an edge by its position in each block's list, so parallel edges differ. */
  predicate IsWalk(t: Shape, u: nat, p: seq<nat>)
    decreases |p|
  {
    p == [] || (p[0] < |Succ(t, u)| && IsWalk(t, Succ(t, u)[p[0]], p[1..]))
  }

  function End(t: Shape, u: nat, p: seq<nat>): nat
    requires IsWalk(t, u, p)
    decreases |p|
  {
    if p == [] then u else End(t, Succ(t, u)[p[0]], p[1..])
  }

  /** The blocks a walk visits. */
  function Blocks(t: Shape, u: nat, p: seq<nat>): seq<nat>
    requires IsWalk(t, u, p)
    decreases |p|
  {
    [u] + if p == [] then [] else Blocks(t, Succ(t, u)[p[0]], p[1..])
  }

  /** A walk that cannot be continued. */
  predicate IsComplete(t: Shape, u: nat, p: seq<nat>) {
    IsWalk(t, u, p) && Succ(t, End(t, u, p)) == []
  }

  /** The sum of the edge values along a walk. */
  function PathSum(g: Adjacency, t: Shape, u: nat, p: seq<nat>): int
    requires IsWalk(t, u, p) && HasShape(g, t)
    decreases |p|
  {
    if p == [] then 0
    else
      assert HasShapeAt(g, t, u);
      Out(g, u)[p[0]].val + PathSum(g, t, Succ(t, u)[p[0]], p[1..])
  }

  /** Every edge of u has as value the number of paths that start with an earlier edge of u. */
  ghost predicate NumberedAt(g: Adjacency, t: Shape, region: set<nat>, rank: nat -> nat, u: nat)
    requires IsDag(t, region, rank) && u in region
  {
    |Out(g, u)| == |Succ(t, u)| &&
    forall i | 0 <= i < |Succ(t, u)| :: Out(g, u)[i].val == CountBelow(t, region, rank, u, i)
  }

  ghost predicate Numbered(g: Adjacency, t: Shape, region: set<nat>, rank: nat -> nat)
    requires IsDag(t, region, rank)
  {
    forall u | u in region :: NumberedAt(g, t, region, rank, u)
  }

  /** Path sums are numbers below the path count. */
  lemma {:induction false} PathSumInRange(g: Adjacency, t: Shape, region: set<nat>, rank: nat -> nat, u: nat,
                                          p: seq<nat>)
    requires IsDag(t, region, rank) && HasShape(g, t) && Numbered(g, t, region, rank) && u in region &&
      IsComplete(t, u, p)
    ensures 0 <= PathSum(g, t, u, p) < PathCount(t, region, rank, u)
    decreases |p|
  {
    if p != [] {
      assert HasShapeAt(g, t, u) && NumberedAt(g, t, region, rank, u);
      PathSumInRange(g, t, region, rank, Succ(t, u)[p[0]], p[1..]);
      CountBelowIncreases(t, region, rank, u, p[0], p[0] + 1);
    }
  }

  /** Different paths have different sums. */
  lemma {:induction false} PathSumInjective(g: Adjacency, t: Shape, region: set<nat>, rank: nat -> nat, u: nat,
                                            p: seq<nat>, q: seq<nat>)
    requires IsDag(t, region, rank) && HasShape(g, t) && Numbered(g, t, region, rank) && u in region
    requires IsComplete(t, u, p) && IsComplete(t, u, q) && PathSum(g, t, u, p) == PathSum(g, t, u, q)
    ensures p == q
    decreases |p|
  {
    hide HasShape, HasShapeAt, Numbered, CountBelow, PathCount, IsDag;
    if p != [] && q != [] {
      SumFollowsFirstEdge(g, t, region, rank, u, p);
      SumFollowsFirstEdge(g, t, region, rank, u, q);
      if p[0] < q[0] {
        CountBelowMonotone(t, region, rank, u, p[0] + 1, q[0]);
      } else if q[0] < p[0] {
        CountBelowMonotone(t, region, rank, u, q[0] + 1, p[0]);
      } else {
        PathSumInjective(g, t, region, rank, Succ(t, u)[p[0]], p[1..], q[1..]);
        assert p == [p[0]] + p[1..] && q == [q[0]] + q[1..];
      }
    }
  }

  lemma CountBelowMonotone(t: Shape, region: set<nat>, rank: nat -> nat, u: nat, i: nat, j: nat)
    requires IsDag(t, region, rank) && u in region && i <= j <= |Succ(t, u)|
    ensures CountBelow(t, region, rank, u, i) <= CountBelow(t, region, rank, u, j)
  {
    if i < j {
      CountBelowIncreases(t, region, rank, u, i, j);
    }
  }

  /** The sum lies in the range of the first edge. */
  lemma SumFollowsFirstEdge(g: Adjacency, t: Shape, region: set<nat>, rank: nat -> nat, u: nat, p: seq<nat>)
    requires IsDag(t, region, rank) && HasShape(g, t) && Numbered(g, t, region, rank) && u in region &&
      IsComplete(t, u, p)
    requires p != []
    ensures HasShapeAt(g, t, u) && p[0] < |Out(g, u)| && Out(g, u)[p[0]].val == CountBelow(t, region, rank, u, p[0])
    ensures CountBelow(t, region, rank, u, p[0]) <= PathSum(g, t, u, p) < CountBelow(t, region, rank, u, p[0] + 1)
    ensures IsComplete(t, Succ(t, u)[p[0]], p[1..]) && Succ(t, u)[p[0]] in region
  {
    assert HasShapeAt(g, t, u) && NumberedAt(g, t, region, rank, u);
    PathSumInRange(g, t, region, rank, Succ(t, u)[p[0]], p[1..]);
  }

  /** The edge whose range of numbers contains n. */
  lemma {:induction false} EdgeFor(t: Shape, region: set<nat>, rank: nat -> nat, u: nat, n: nat, i: nat)
    returns (k: nat)
    requires IsDag(t, region, rank) && u in region && i <= |Succ(t, u)| && n < CountBelow(t, region, rank, u, i)
    ensures k < i && CountBelow(t, region, rank, u, k) <= n < CountBelow(t, region, rank, u, k + 1)
  {
    if CountBelow(t, region, rank, u, i - 1) <= n {
      k := i - 1;
    } else {
      k := EdgeFor(t, region, rank, u, n, i - 1);
    }
  }

  /** Every number below the path count is the sum of a path. */
  lemma {:induction false} PathSumOnto(g: Adjacency, t: Shape, region: set<nat>, rank: nat -> nat, u: nat, n: nat)
    returns (p: seq<nat>)
    requires IsDag(t, region, rank) && HasShape(g, t) && Numbered(g, t, region, rank) && u in region
    requires n < PathCount(t, region, rank, u)
    ensures IsComplete(t, u, p) && PathSum(g, t, u, p) == n
    decreases rank(u)
  {
    if Succ(t, u) == [] {
      p := [];
    } else {
      assert HasShapeAt(g, t, u) && NumberedAt(g, t, region, rank, u);
      var k := EdgeFor(t, region, rank, u, n, |Succ(t, u)|);
      var rest := PathSumOnto(g, t, region, rank, Succ(t, u)[k], n - CountBelow(t, region, rank, u, k));
      p := [k] + rest;
      assert p[1..] == rest;
    }
  }

  // ----- composition of walks -----

  lemma {:induction false} WalkAppend(t: Shape, u: nat, p: seq<nat>, q: seq<nat>)
    requires IsWalk(t, u, p) && IsWalk(t, End(t, u, p), q)
    ensures IsWalk(t, u, p + q) && End(t, u, p + q) == End(t, End(t, u, p), q)
    decreases |p|
  {
    if p == [] {
      assert p + q == q;
    } else {
      assert (p + q)[1..] == p[1..] + q;
      WalkAppend(t, Succ(t, u)[p[0]], p[1..], q);
    }
  }

  /** Extending a walk by one edge. */
  lemma {:induction false} WalkStep(g: Adjacency, t: Shape, u: nat, p: seq<nat>, i: nat)
    requires HasShape(g, t) && IsWalk(t, u, p) && i < |Succ(t, End(t, u, p))|
    ensures HasShapeAt(g, t, End(t, u, p))
    ensures IsWalk(t, u, p + [i]) && End(t, u, p + [i]) == Succ(t, End(t, u, p))[i]
    ensures PathSum(g, t, u, p + [i]) == PathSum(g, t, u, p) + Out(g, End(t, u, p))[i].val
    ensures Blocks(t, u, p + [i]) == Blocks(t, u, p) + [Succ(t, End(t, u, p))[i]]
    decreases |p|
  {
    assert HasShapeAt(g, t, u);
    if p == [] {
      assert p + [i] == [i] && [i][1..] == [];
    } else {
      assert (p + [i])[1..] == p[1..] + [i];
      WalkStep(g, t, Succ(t, u)[p[0]], p[1..], i);
    }
  }

  lemma {:induction false} WalkStaysInRegion(t: Shape, region: set<nat>, rank: nat -> nat, u: nat, p: seq<nat>)
    requires IsDag(t, region, rank) && u in region && IsWalk(t, u, p)
    ensures End(t, u, p) in region && rank(End(t, u, p)) + |p| <= rank(u)
    decreases |p|
  {
    if p != [] {
      WalkStaysInRegion(t, region, rank, Succ(t, u)[p[0]], p[1..]);
    }
  }
}
