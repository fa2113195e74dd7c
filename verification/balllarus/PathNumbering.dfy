/** TopoSort and getEdgeValues of BallLarusProfiler/BallLarusProfiler.cpp. */
module PathNumbering {
  import opened PathCounts

  const INT32_MAX: int := 0x7fff_ffff

  /** The value of a 32-bit signed integer after wrap-around. */
  function ToInt32(x: int): (r: int)
    ensures -0x8000_0000 <= r <= INT32_MAX
    ensures -0x8000_0000 <= x <= INT32_MAX ==> r == x
  {
    (x + 0x8000_0000) % 0x1_0000_0000 - 0x8000_0000
  }

  /** The maps the depth-first search fills, and its clock. */
  datatype Search = Search(visited: set<nat>, finish: map<nat, int>, cntr: int)

  /** Finished blocks are closed under successors, and finish after them. */
  ghost predicate SearchOk(t: Shape, region: set<nat>, s: Search) {
    && s.finish.Keys <= s.visited <= region && s.cntr >= 0
    && (forall u | u in s.finish :: 0 < s.finish[u] < s.cntr)
    && SuccessorsFirst(t, s.finish)
  }

  ghost predicate SuccessorsFirst(t: Shape, finish: map<nat, int>) {
    forall u, i | u in finish && 0 <= i < |Succ(t, u)| :: Succ(t, u)[i] in finish && finish[Succ(t, u)[i]] < finish[u]
  }

  /** The search went on below bb: it left the blocks that were open as they were, and what it finished
      has no more paths than bb. */
  ghost predicate WentOn(t: Shape, region: set<nat>, rank: nat -> nat, s0: Search, s1: Search, bb: nat)
    requires IsDag(t, region, rank) && bb in region
  {
    && s0.visited <= s1.visited && s0.cntr <= s1.cntr
    && (forall v | v in s0.finish :: v in s1.finish && s1.finish[v] == s0.finish[v])
    && (forall v | v in s1.visited && v !in s1.finish :: v in s0.visited && v !in s0.finish)
    && (forall v | v in s0.visited && v !in s0.finish :: v !in s1.finish)
    && (forall v | v in s1.finish && v !in s0.finish ::
         v in region && PathCount(t, region, rank, v) <= PathCount(t, region, rank, bb))
  }

  lemma WentOnBelow(t: Shape, region: set<nat>, rank: nat -> nat, s0: Search, s1: Search, s2: Search, bb: nat, i: nat)
    requires IsDag(t, region, rank) && bb in region && i < |Succ(t, bb)|
    requires WentOn(t, region, rank, s0, s1, bb) && WentOn(t, region, rank, s1, s2, Succ(t, bb)[i])
    ensures WentOn(t, region, rank, s0, s2, bb)
  {
    SuccessorHasFewer(t, region, rank, bb, i);
    hide PathCount;
  }

  /** Marking bb visited opens it. */
  lemma StartsBelow(t: Shape, region: set<nat>, rank: nat -> nat, s0: Search, bb: nat)
    requires IsDag(t, region, rank) && SearchOk(t, region, s0) && bb in region && bb !in s0.visited
    ensures var start := Search(s0.visited + {bb}, s0.finish, s0.cntr + 1);
      SearchOk(t, region, start) && WentOn(t, region, rank, start, start, bb)
  {
    hide PathCount;
  }

  /** The open blocks are bb and those above it, so a visited successor of bb is finished. */
  lemma OpenAreAbove(t: Shape, region: set<nat>, rank: nat -> nat, s0: Search, s: Search, bb: nat)
    requires IsDag(t, region, rank) && SearchOk(t, region, s) && bb in region && bb !in s0.visited
    requires forall v | v in s0.visited && v !in s0.finish :: rank(v) > rank(bb)
    requires WentOn(t, region, rank, Search(s0.visited + {bb}, s0.finish, s0.cntr + 1), s, bb)
    ensures forall v | v in s.visited && v !in s.finish :: rank(v) >= rank(bb)
    ensures |region - s.visited| < |region - s0.visited| && SearchOk(t, region, s)
  {
    hide PathCount;
    Smaller(region, s0.visited, bb);
    FewerLeft(region, s0.visited + {bb}, s.visited);
  }

  /** What bb finished before it stays finished. */
  lemma StaysFinished(t: Shape, region: set<nat>, rank: nat -> nat, s0: Search, s1: Search, bb: nat)
    requires IsDag(t, region, rank) && bb in region && WentOn(t, region, rank, s0, s1, bb)
    ensures s0.finish.Keys <= s1.finish.Keys
  {
  }

  /** The first i successors of bb are finished. */
  ghost predicate FinishedUpTo(t: Shape, bb: nat, finish: map<nat, int>, i: nat) {
    i <= |Succ(t, bb)| && forall j | 0 <= j < i :: Succ(t, bb)[j] in finish
  }

  lemma OneMoreFinished(t: Shape, bb: nat, finish0: map<nat, int>, finish: map<nat, int>, i: nat)
    requires FinishedUpTo(t, bb, finish0, i) && finish0.Keys <= finish.Keys && i < |Succ(t, bb)| &&
      Succ(t, bb)[i] in finish
    ensures FinishedUpTo(t, bb, finish, i + 1)
  {
  }

  /** All successors finished, bb finishes. */
  lemma Finished(t: Shape, region: set<nat>, rank: nat -> nat, s0: Search, s1: Search, bb: nat)
    requires IsDag(t, region, rank) && bb in region && bb !in s0.visited
    requires SearchOk(t, region, s0) && SearchOk(t, region, s1)
    requires WentOn(t, region, rank, Search(s0.visited + {bb}, s0.finish, s0.cntr + 1), s1, bb)
    requires FinishedUpTo(t, bb, s1.finish, |Succ(t, bb)|)
    ensures SearchOk(t, region, Search(s1.visited, s1.finish[bb := s1.cntr], s1.cntr + 1))
    ensures WentOn(t, region, rank, s0, Search(s1.visited, s1.finish[bb := s1.cntr], s1.cntr + 1), bb)
  {
    hide PathCount;
    assert bb !in s1.finish;
  }

  /** Default 0 for blocks the search did not reach. */
  function FinishTime(finish: map<nat, int>, b: nat): int {
    if b in finish then finish[b] else 0
  }

  /** In decreasing order of finishing time. */
  ghost predicate SortedByFinish(list: seq<nat>, finish: map<nat, int>) {
    forall i, j | 0 <= i < j < |list| :: FinishTime(finish, list[i]) >= FinishTime(finish, list[j])
  }

  lemma SuccInDag(t: Shape, region: set<nat>, rank: nat -> nat, u: nat, i: nat)
    requires IsDag(t, region, rank) && u in region && i < |Succ(t, u)|
    ensures Succ(t, u)[i] in region && rank(Succ(t, u)[i]) < rank(u)
  {
  }

  class Graph {
    var G: Adjacency

    constructor (g: Adjacency)
      ensures G == g
    {
      G := g;
    }

    /** Depth-first search from bb. Looking a block up creates an empty entry for it. */
    method DFS(bb: nat, s0: Search, ghost t: Shape, ghost region: set<nat>, ghost rank: nat -> nat) returns (s: Search)
      requires IsDag(t, region, rank) && HasShape(G, t) && SearchOk(t, region, s0) && s0.finish.Keys <= G.Keys
      requires bb in region && bb !in s0.visited
      requires forall v | v in s0.visited && v !in s0.finish :: rank(v) > rank(bb)
      modifies this
      ensures HasShape(G, t) && old(G).Keys <= G.Keys <= old(G).Keys + region && s.finish.Keys <= G.Keys
      ensures SearchOk(t, region, s) && WentOn(t, region, rank, s0, s, bb) && bb in s.finish
      ensures forall b :: Out(G, b) == Out(old(G), b)
      decreases |region - s0.visited|
    {
      assert FinishedUpTo(t, bb, s0.finish, 0);
      hide PathCount, HasShape, SearchOk, WentOn, IsDag, FinishedUpTo;
      ghost var start := Search(s0.visited + {bb}, s0.finish, s0.cntr + 1);
      s := Search(s0.visited + {bb}, s0.finish, s0.cntr + 1);
      StartsBelow(t, region, rank, s0, bb);
      if bb !in G {
        G := G[bb := []];
        EmptyEntry(old(G), t, bb);
      }
      var outEdges := G[bb];
      ShapeAt(G, t, bb);
      var i := 0;
      while i < |outEdges|
        invariant 0 <= i <= |outEdges| && HasShape(G, t) && old(G).Keys + {bb} <= G.Keys <= old(G).Keys + region &&
          s.finish.Keys <= G.Keys
        invariant SearchOk(t, region, s) && WentOn(t, region, rank, start, s, bb)
        invariant FinishedUpTo(t, bb, s.finish, i) && forall b :: Out(G, b) == Out(old(G), b)
      {
        var to := outEdges[i].to;
        SuccInDag(t, region, rank, bb, i);
        OpenAreAbove(t, region, rank, s0, s, bb);
        ghost var before := s;
        if to !in s.visited {
          s := DFS(to, s, t, region, rank);
          WentOnBelow(t, region, rank, start, before, s, bb, i);
          StaysFinished(t, region, rank, before, s, to);
        }
        OneMoreFinished(t, bb, before.finish, s.finish, i);
        i := i + 1;
      }
      Finished(t, region, rank, s0, s, bb);
      s := Search(s.visited, s.finish[bb := s.cntr], s.cntr + 1);
    }

    /** The blocks of the graph in decreasing order of finishing time: a topological order of what the
        entry reaches. */
    method TopoSort(entry: nat, ghost t: Shape, ghost region: set<nat>, ghost rank: nat -> nat)
      returns (list: seq<nat>, ghost finish: map<nat, int>)
      requires IsDag(t, region, rank) && HasShape(G, t) && entry in region
      modifies this
      ensures HasShape(G, t) && old(G).Keys <= G.Keys <= old(G).Keys + region
      ensures forall b :: Out(G, b) == Out(old(G), b)
      ensures (forall b :: b in list <==> b in G) && (forall i, j | 0 <= i < j < |list| :: list[i] != list[j])
      ensures SortedByFinish(list, finish) && SuccessorsFirst(t, finish)
      ensures entry in finish && finish.Keys <= G.Keys * region
      ensures forall u | u in finish ::
        u in region && PathCount(t, region, rank, u) <= PathCount(t, region, rank, entry)
    {
      hide PathCount, HasShape, SuccessorsFirst;
      assert SuccessorsFirst(t, map[]) by {
        NothingFinished(t);
      }
      var s := DFS(entry, Search({}, map[], 0), t, region, rank);
      finish := s.finish;
      list := [];
      var keys := G.Keys;
      ghost var g := G;
      while keys != {}
        invariant G == g
        invariant keys <= G.Keys && (forall b :: b in list <==> b in G && b !in keys)
        invariant forall i, j | 0 <= i < j < |list| :: list[i] != list[j]
        invariant SortedByFinish(list, finish)
        decreases keys
      {
        var b :| b in keys;
        keys := keys - {b};
        list := InsertByFinish(list, b, s.finish);
      }
    }

    /** Sets the value of the k-th edge of bb. */
    method SetVal(bb: nat, k: nat, val: int)
      requires bb in G && k < |G[bb]|
      modifies this
      ensures G == old(G)[bb := old(G)[bb][k := old(G)[bb][k].(val := val)]]
    {
      G := G[bb := G[bb][k := G[bb][k].(val := val)]];
    }

    /** Numbers the edges, successors before predecessors, in 32-bit arithmetic. When the number of
        paths from the entry fits, every block the entry reaches is numbered; and it fits exactly when
        the computed count is the number of paths. */
    method GetEdgeValues(entry: nat, ghost t: Shape, ghost region: set<nat>, ghost rank: nat -> nat)
      returns (numPaths: map<nat, int>, ghost reached: set<nat>)
      requires IsDag(t, region, rank) && HasShape(G, t) && entry in region
      modifies this
      ensures HasShape(G, t) && old(G).Keys <= G.Keys <= old(G).Keys + region && ValsOnly(old(G), G)
      ensures entry in reached && reached <= region && reached <= G.Keys
      ensures IsDag(t, reached, rank)
      ensures PathCount(t, region, rank, entry) <= INT32_MAX ==> Numbered(G, t, reached, rank)
      ensures entry in numPaths &&
        (numPaths[entry] == PathCount(t, region, rank, entry) <==> PathCount(t, region, rank, entry) <= INT32_MAX)
    {
      hide PathCount, Numbered, CountedAll, HasShape, SortedByFinish, IsDag, SuccessorsFirst, ValsOnly;
      ghost var finish;
      ghost var g0 := G;
      var list;
      list, finish := TopoSort(entry, t, region, rank);
      ValsOnlySame(g0, G);
      reached := finish.Keys;
      ReachedIsDag(t, region, rank, finish);
      NothingCounted(G, t, region, rank, reached);
      numPaths := map[];
      ghost var fits := PathCount(t, region, rank, entry) <= INT32_MAX;
      var k := |list|;
      while k > 0
        invariant 0 <= k <= |list| && HasShape(G, t) && (forall b :: b in list <==> b in G) && ValsOnly(g0, G)
        invariant forall b :: b in numPaths <==> b in list[k..]
        invariant forall u | u in numPaths :: -0x8000_0000 <= numPaths[u] <= INT32_MAX
        invariant old(G).Keys <= G.Keys <= old(G).Keys + region && reached <= G.Keys
        invariant fits ==> CountedAll(G, numPaths, t, region, rank, reached * numPaths.Keys)
      {
        k := k - 1;
        var bb := list[k];
        assert list[k..] == [bb] + list[k + 1..];
        if fits && bb in reached {
          SuccessorsDone(t, list, finish, k);
          SuccessorsAreCounted(G, numPaths, t, region, rank, reached, finish, list[k + 1..], bb);
        }
        ghost var before, countsBefore := G, numPaths;
        numPaths := NumberBlock(bb, numPaths, t, region, rank, fits && bb in reached);
        ValsOnlyTransitive(g0, before, G);
        if fits {
          CountedOneMore(before, G, countsBefore, numPaths, t, region, rank, reached, bb);
        }
      }
      assert list[0..] == list;
      if fits {
        NumberedInReached(G, numPaths, t, region, rank, reached);
      }
    }

    /** The body of the numbering loop for one block. */
    method NumberBlock(bb: nat, numPaths0: map<nat, int>, ghost t: Shape, ghost region: set<nat>,
                       ghost rank: nat -> nat, ghost fits: bool)
      returns (numPaths: map<nat, int>)
      requires IsDag(t, region, rank) && HasShape(G, t) && bb in G
      requires fits ==> bb in region && PathCount(t, region, rank, bb) <= INT32_MAX
      requires fits ==> SuccessorsCounted(numPaths0, t, region, rank, bb)
      requires forall u | u in numPaths0 :: -0x8000_0000 <= numPaths0[u] <= INT32_MAX
      requires bb !in numPaths0
      modifies this
      ensures HasShape(G, t) && G.Keys == old(G).Keys && forall b | b in G && b != bb :: G[b] == old(G)[b]
      ensures ValsOnly(old(G), G)
      ensures numPaths.Keys == numPaths0.Keys + {bb} && forall u | u in numPaths0 :: numPaths[u] == numPaths0[u]
      ensures -0x8000_0000 <= numPaths[bb] <= INT32_MAX
      ensures fits ==> NumberedAt(G, t, region, rank, bb) && numPaths[bb] == PathCount(t, region, rank, bb)
    {
      hide PathCount, HasShape, IsDag, CountBelow, ValsOnly;
      ghost var g0 := G;
      ValsOnlySame(g0, G);
      ShapeAt(G, t, bb);
      LeafCounts(t, region, rank, bb);
      if G[bb] == [] {
        return numPaths0[bb := 1];
      }
      var total := 0;
      var i := 0;
      ghost var n := |G[bb]|;
      while i < |G[bb]|
        invariant bb in G && 0 <= i <= |G[bb]| == n == |Succ(t, bb)| && HasShape(G, t) && G.Keys == old(G).Keys
        invariant forall b | b in G && b != bb :: G[b] == old(G)[b]
        invariant ValsOnly(g0, G)
        invariant -0x8000_0000 <= total <= INT32_MAX
        invariant fits ==> total == CountBelow(t, region, rank, bb, i)
        invariant fits ==> forall j | 0 <= j < i :: G[bb][j].val == CountBelow(t, region, rank, bb, j)
      {
        ShapeAt(G, t, bb);
        var succ := G[bb][i].to;
        ghost var before := G;
        SetVal(bb, i, total);
        ValKeepsShape(before, G, t, bb);
        OneValOnly(before, G, bb, i, total);
        ValsOnlyTransitive(g0, before, G);
        var more := if succ in numPaths0 then numPaths0[succ] else 0;
        if fits {
          NextPartialSum(t, region, rank, bb, i);
        }
        total := ToInt32(total + more);
        i := i + 1;
      }
      numPaths := numPaths0[bb := total];
    }
  }

  /** A block without edges has one path; any other has those below its edges. */
  lemma LeafCounts(t: Shape, region: set<nat>, rank: nat -> nat, u: nat)
    ensures IsDag(t, region, rank) && u in region && Succ(t, u) == [] ==> PathCount(t, region, rank, u) == 1
    ensures IsDag(t, region, rank) && u in region && Succ(t, u) != [] ==>
      PathCount(t, region, rank, u) == CountBelow(t, region, rank, u, |Succ(t, u)|)
    ensures IsDag(t, region, rank) && u in region ==> CountBelow(t, region, rank, u, 0) == 0
  {
  }

  lemma NextPartialSum(t: Shape, region: set<nat>, rank: nat -> nat, u: nat, i: nat)
    requires IsDag(t, region, rank) && u in region && i < |Succ(t, u)|
    ensures Succ(t, u)[i] in region
    ensures CountBelow(t, region, rank, u, i + 1) ==
      CountBelow(t, region, rank, u, i) + PathCount(t, region, rank, Succ(t, u)[i])
    ensures CountBelow(t, region, rank, u, i + 1) <= PathCount(t, region, rank, u)
  {
    CountBelowIncreases(t, region, rank, u, i, i + 1);
  }

  ghost predicate SuccessorsCounted(counts: map<nat, int>, t: Shape, region: set<nat>, rank: nat -> nat, u: nat)
    requires IsDag(t, region, rank) && u in region
  {
    forall i | 0 <= i < |Succ(t, u)| ::
      Succ(t, u)[i] in counts && counts[Succ(t, u)[i]] == PathCount(t, region, rank, Succ(t, u)[i])
  }

  /** The blocks listed are numbered and have their path count. */
  ghost predicate CountedAll(g: Adjacency, counts: map<nat, int>, t: Shape, region: set<nat>, rank: nat -> nat,
                             blocks: set<nat>)
    requires IsDag(t, region, rank) && blocks <= region
  {
    forall u | u in blocks :: NumberedAt(g, t, region, rank, u) && u in counts &&
      counts[u] == PathCount(t, region, rank, u)
  }

  lemma SuccessorsAreCounted(g: Adjacency, counts: map<nat, int>, t: Shape, region: set<nat>, rank: nat -> nat,
                             reached: set<nat>, finish: map<nat, int>, later: seq<nat>, u: nat)
    requires IsDag(t, region, rank) && SuccessorsFirst(t, finish) && reached == finish.Keys && reached <= region &&
      u in reached
    requires forall i | 0 <= i < |Succ(t, u)| :: Succ(t, u)[i] in later
    requires forall b | b in later :: b in counts
    requires CountedAll(g, counts, t, region, rank, reached * counts.Keys)
    ensures SuccessorsCounted(counts, t, region, rank, u)
  {
    hide PathCount;
    forall i | 0 <= i < |Succ(t, u)|
      ensures Succ(t, u)[i] in counts && counts[Succ(t, u)[i]] == PathCount(t, region, rank, Succ(t, u)[i])
    {
      assert Succ(t, u)[i] in reached * counts.Keys;
    }
  }

  lemma CountedOneMore(g: Adjacency, g': Adjacency, counts: map<nat, int>, counts': map<nat, int>,
                       t: Shape, region: set<nat>, rank: nat -> nat, reached: set<nat>, b: nat)
    requires IsDag(t, region, rank) && reached <= region && b !in counts && g'.Keys == g.Keys && reached <= g.Keys
    requires forall c | c in g && c != b :: g'[c] == g[c]
    requires counts'.Keys == counts.Keys + {b} && forall u | u in counts :: counts'[u] == counts[u]
    requires CountedAll(g, counts, t, region, rank, reached * counts.Keys)
    requires b in reached ==> NumberedAt(g', t, region, rank, b) && counts'[b] == PathCount(t, region, rank, b)
    ensures CountedAll(g', counts', t, region, rank, reached * counts'.Keys)
  {
    hide PathCount;
    forall u | u in reached * counts'.Keys && u != b
      ensures NumberedAt(g', t, region, rank, u) && counts'[u] == PathCount(t, region, rank, u)
    {
      assert u in reached * counts.Keys;
    }
  }

  lemma NumberedInReached(g: Adjacency, counts: map<nat, int>, t: Shape, region: set<nat>, rank: nat -> nat,
                          reached: set<nat>)
    requires IsDag(t, region, rank) && IsDag(t, reached, rank) && reached <= region && HasShape(g, t)
    requires reached <= counts.Keys && CountedAll(g, counts, t, region, rank, reached * counts.Keys)
    ensures Numbered(g, t, reached, rank) && forall u | u in reached :: counts[u] == PathCount(t, region, rank, u)
  {
    forall u | u in reached
      ensures NumberedAt(g, t, reached, rank, u) && counts[u] == PathCount(t, region, rank, u)
    {
      assert u in reached * counts.Keys;
      assert HasShapeAt(g, t, u);
      assert NumberedAt(g, t, region, rank, u);
      forall i | 0 <= i < |Succ(t, u)|
        ensures Out(g, u)[i].val == CountBelow(t, reached, rank, u, i)
      {
        SameCountsBelow(t, region, reached, rank, u, i);
      }
    }
  }

  lemma ReachedIsDag(t: Shape, region: set<nat>, rank: nat -> nat, finish: map<nat, int>)
    requires IsDag(t, region, rank) && SuccessorsFirst(t, finish) && finish.Keys <= region
    ensures IsDag(t, finish.Keys, rank)
  {
  }

  lemma NothingCounted(g: Adjacency, t: Shape, region: set<nat>, rank: nat -> nat, reached: set<nat>)
    requires IsDag(t, region, rank)
    ensures var none: map<nat, int> := map[]; CountedAll(g, none, t, region, rank, reached * none.Keys)
  {
  }

  lemma NothingFinished(t: Shape)
    ensures SuccessorsFirst(t, map[])
  {
  }

  lemma ShapeAt(g: Adjacency, t: Shape, b: nat)
    requires HasShape(g, t)
    ensures HasShapeAt(g, t, b)
  {
  }

  lemma Smaller(region: set<nat>, visited: set<nat>, b: nat)
    requires b in region && b !in visited
    ensures |region - (visited + {b})| < |region - visited|
  {
    assert region - visited == (region - (visited + {b})) + {b};
  }

  lemma FewerLeft(region: set<nat>, a: set<nat>, b: set<nat>)
    requires a <= b
    ensures |region - b| <= |region - a|
  {
    assert region - a == (region - b) + ((region - a) - (region - b));
  }

  lemma EmptyEntry(g: Adjacency, t: Shape, b: nat)
    requires HasShape(g, t) && b !in g
    ensures HasShape(g[b := []], t)
  {
    var g' := g[b := []];
    forall c
      ensures HasShapeAt(g', t, c)
    {
      assert HasShapeAt(g, t, c);
    }
  }

  lemma OneValOnly(g: Adjacency, g': Adjacency, b: nat, k: nat, val: int)
    requires b in g && k < |g[b]| && g' == g[b := g[b][k := g[b][k].(val := val)]]
    ensures ValsOnly(g, g')
  {
    forall c
      ensures SameButVals(Out(g, c), Out(g', c))
    {
    }
  }

  lemma ValKeepsShape(g: Adjacency, g': Adjacency, t: Shape, b: nat)
    requires HasShape(g, t) && b in g && g'.Keys == g.Keys && (forall c | c in g && c != b :: g'[c] == g[c])
    requires |g'[b]| == |g[b]| && forall i | 0 <= i < |g[b]| ::
      g'[b][i].to == g[b][i].to && g'[b][i].from == g[b][i].from
    ensures HasShape(g', t)
  {
    forall c
      ensures HasShapeAt(g', t, c)
    {
      assert HasShapeAt(g, t, c);
    }
  }

  /** A block's successors finish earlier, so they come later in the list. */
  lemma SuccessorsDone(t: Shape, list: seq<nat>, finish: map<nat, int>, k: nat)
    requires k < |list| && SortedByFinish(list, finish) && list[k] in finish
    requires forall b | b in finish :: b in list
    requires SuccessorsFirst(t, finish)
    ensures forall i | 0 <= i < |Succ(t, list[k])| :: Succ(t, list[k])[i] in list[k + 1..]
  {
    forall i | 0 <= i < |Succ(t, list[k])|
      ensures Succ(t, list[k])[i] in list[k + 1..]
    {
      var s := Succ(t, list[k])[i];
      var m :| 0 <= m < |list| && list[m] == s;
      assert m > k;
      assert list[k + 1..][m - k - 1] == s;
    }
  }

  method InsertByFinish(list: seq<nat>, b: nat, finish: map<nat, int>) returns (r: seq<nat>)
    requires SortedByFinish(list, finish) && b !in list && forall i, j | 0 <= i < j < |list| :: list[i] != list[j]
    ensures SortedByFinish(r, finish) && (forall x :: x in r <==> x in list || x == b)
    ensures forall i, j | 0 <= i < j < |r| :: r[i] != r[j]
  {
    var i := 0;
    while i < |list| && FinishTime(finish, list[i]) >= FinishTime(finish, b)
      invariant 0 <= i <= |list| && forall j | 0 <= j < i :: FinishTime(finish, list[j]) >= FinishTime(finish, b)
    {
      i := i + 1;
    }
    r := list[..i] + [b] + list[i..];
    assert list == list[..i] + list[i..];
  }
}
