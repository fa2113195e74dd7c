/** Decoding a path number, as GP::numToPath in BallLarusProfiler/GeneratePath.cpp does. */
module GeneratePath {
  import opened PathCounts

  /** The first edge with the largest value from 0 to n among the first m. */
  ghost predicate IsMaxEdge(edges: seq<Edge>, n: int, k: nat, m: nat)
    requires m <= |edges|
  {
    && k < m && 0 <= edges[k].val <= n
    && (forall j | 0 <= j < k && edges[j].val <= n :: edges[j].val < edges[k].val)
    && (forall j | k < j < m && edges[j].val <= n :: edges[j].val <= edges[k].val)
  }

  /** The search of numToPath; without such an edge the value is -1. */
  method MaxEdge(edges: seq<Edge>, n: int) returns (best: Edge, ghost k: nat)
    ensures best.val == -1 <==> forall i | 0 <= i < |edges| :: !(0 <= edges[i].val <= n)
    ensures best.val != -1 ==>
      best in edges && forall i | 0 <= i < |edges| && edges[i].val <= n :: edges[i].val <= best.val
    ensures best.val != -1 ==> IsMaxEdge(edges, n, k, |edges|) && best == edges[k]
  {
    best := Edge(0, 0, -1, 0, 0, false);
    k := 0;
    var i := 0;
    while i < |edges|
      invariant 0 <= i <= |edges|
      invariant if best.val == -1 then forall j | 0 <= j < i :: !(0 <= edges[j].val <= n)
                else IsMaxEdge(edges, n, k, i) && best == edges[k]
    {
      if !(edges[i].val > n) {
        if edges[i].val > best.val {
          best := edges[i];
          k := i;
        }
      }
      i := i + 1;
    }
  }

  /** The dumped graph lists, except at the exit, the same targets and values. */
  ghost predicate IsDumpOf(dump: Adjacency, g: Adjacency, exit: nat) {
    forall b | b != exit :: SameValues(dump, g, b)
  }

  ghost predicate SameValues(dump: Adjacency, g: Adjacency, b: nat) {
    |Out(dump, b)| == |Out(g, b)| &&
    forall i | 0 <= i < |Out(g, b)| :: Out(dump, b)[i].to == Out(g, b)[i].to && Out(dump, b)[i].val == Out(g, b)[i].val
  }

  /** The path with a given sum. */
  ghost function PathOf(g: Adjacency, t: Shape, region: set<nat>, rank: nat -> nat, entry: nat, n: nat): (p: seq<nat>)
    requires IsDag(t, region, rank) && HasShape(g, t) && Numbered(g, t, region, rank) && entry in region
    requires n < PathCount(t, region, rank, entry)
    ensures IsComplete(t, entry, p) && PathSum(g, t, entry, p) == n
  {
    assert exists p :: IsComplete(t, entry, p) && PathSum(g, t, entry, p) == n by {
      var q := PathSumOnto(g, t, region, rank, entry, n);
    }
    var p :| IsComplete(t, entry, p) && PathSum(g, t, entry, p) == n;
    p
  }

  /** Decoding terminates for every number that is not negative. The blocks returned are those of a
      path from the entry to the exit; for a number below the path count it is the only path with
      that sum. The graph read back is the one dumped after the closing edge was added at the exit. */
  method NumToPath(dump: Adjacency, entry: nat, exit: nat, hotPathNum: int,
                   ghost g: Adjacency, ghost t: Shape, ghost region: set<nat>, ghost rank: nat -> nat)
    returns (path: seq<nat>)
    requires IsDag(t, region, rank) && HasShape(g, t) && Numbered(g, t, region, rank) && entry in region
    requires IsDumpOf(dump, g, exit) && forall u | u in region :: Succ(t, u) == [] <==> u == exit
    requires hotPathNum >= 0
    ensures exists p :: IsComplete(t, entry, p) && path == Blocks(t, entry, p) && PathSum(g, t, entry, p) <= hotPathNum
    ensures hotPathNum < PathCount(t, region, rank, entry) ==>
      path == Blocks(t, entry, PathOf(g, t, region, rank, entry, hotPathNum))
    ensures hotPathNum < PathCount(t, region, rank, entry) ==>
      exists p :: IsComplete(t, entry, p) && path == Blocks(t, entry, p) && PathSum(g, t, entry, p) == hotPathNum &&
        forall q | IsComplete(t, entry, q) && PathSum(g, t, entry, q) == hotPathNum :: q == p
  {
    hide PathCount, CountBelow, HasShape, NumberedAt;
    var n := hotPathNum;
    var parentBB := entry;
    path := [parentBB];
    ghost var p := [];
    while parentBB != exit
      invariant IsWalk(t, entry, p) && End(t, entry, p) == parentBB && parentBB in region
      invariant path == Blocks(t, entry, p) && PathSum(g, t, entry, p) + n == hotPathNum && n >= 0
      invariant hotPathNum < PathCount(t, region, rank, entry) ==> n < PathCount(t, region, rank, parentBB)
      decreases rank(parentBB)
    {
      EdgesOf(g, t, region, rank, parentBB);
      assert SameValues(dump, g, parentBB);
      ghost var k;
      var best;
      assert 0 <= dump[parentBB][0].val <= n;
      best, k := MaxEdge(dump[parentBB], n);
      NextRange(g, t, region, rank, parentBB, k, n);
      WalkStep(g, t, entry, p, k);
      n := n - best.val;
      parentBB := best.to;
      path := path + [parentBB];
      p := p + [k];
    }
    ExitHasOnePath(t, region, rank, exit);
    forall q | IsComplete(t, entry, q) && PathSum(g, t, entry, q) == hotPathNum && PathSum(g, t, entry, p) == hotPathNum
      ensures q == p
    {
      PathSumInjective(g, t, region, rank, entry, p, q);
    }
  }

  lemma ExitHasOnePath(t: Shape, region: set<nat>, rank: nat -> nat, u: nat)
    requires IsDag(t, region, rank) && u in region && Succ(t, u) == []
    ensures PathCount(t, region, rank, u) == 1
  {
  }

  /** The values of a block's edges start at 0 and increase. */
  lemma EdgesOf(g: Adjacency, t: Shape, region: set<nat>, rank: nat -> nat, u: nat)
    requires IsDag(t, region, rank) && HasShape(g, t) && Numbered(g, t, region, rank) && u in region && Succ(t, u) != []
    ensures u in g && |g[u]| == |Succ(t, u)| && g[u][0].val == 0
    ensures forall i, j | 0 <= i < j < |g[u]| :: g[u][i].val < g[u][j].val
    ensures forall i | 0 <= i < |g[u]| ::
      g[u][i].to == Succ(t, u)[i] && Succ(t, u)[i] in region && rank(Succ(t, u)[i]) < rank(u)
  {
    assert HasShapeAt(g, t, u) && NumberedAt(g, t, region, rank, u);
    forall i, j | 0 <= i < j < |g[u]|
      ensures g[u][i].val < g[u][j].val
    {
      CountBelowIncreases(t, region, rank, u, i, j);
    }
  }

  /** What is left of the number after the last edge it covers is a number below that edge's target. */
  lemma NextRange(g: Adjacency, t: Shape, region: set<nat>, rank: nat -> nat, u: nat, k: nat, n: int)
    requires IsDag(t, region, rank) && HasShape(g, t) && Numbered(g, t, region, rank) && u in region && k < |Succ(t, u)|
    requires |Out(g, u)| == |Succ(t, u)| && Out(g, u)[k].val <= n
    requires k + 1 < |Succ(t, u)| ==> n < Out(g, u)[k + 1].val
    ensures n < PathCount(t, region, rank, u) ==> n - Out(g, u)[k].val < PathCount(t, region, rank, Succ(t, u)[k])
  {
    assert NumberedAt(g, t, region, rank, u);
    hide HasShape, Numbered, IsDag, HasShapeAt;
    if n < PathCount(t, region, rank, u) {
      assert n < CountBelow(t, region, rank, u, k + 1);
    }
  }
}
