/** Pushing a mark down from an edge, as pushInitializationFromEdge does, and what it does to the paths
    below the edge. The mark never moves past a node with several predecessor edges, past an edge of
    `stops`, or into the exit. pushCountersFromEdge is the same operation on the reversed dag, with
    the initialising edges as stops. */
module PushMarks {
  import opened InstrumentationDag

  /** x is e, or is reached from e through nodes with a single predecessor edge: only such edges can
      receive e's mark. */
  ghost predicate InRegion(g: Dag, rank: seq<nat>, stops: set<nat>, e: nat, x: nat)
    requires g.Ranked(rank) && x < g.Edges()
    decreases if x == g.ExitRootEdge() then 0 else rank[g.source[x]] + 1
  {
    x == e ||
    (x != g.ExitRootEdge() && |g.pred[g.source[x]]| == 1 &&
     var h := g.pred[g.source[x]][0];
     h !in stops && if h == g.ExitRootEdge() then e == h else InRegion(g, rank, stops, e, h))
  }

  /** A path that starts with e and ends at the exit. */
  ghost predicate ToExit(g: Dag, e: nat, q: seq<nat>)
    requires g.Shape()
  {
    g.IsPath(q) && |q| > 0 && q[0] == e && g.target[q[|q| - 1]] == g.exit && g.ExitRootEdge() !in q[1..]
  }

  /** Along q the increments up to its k-th edge, and `add` with them, have moved to that edge, which
      carries the mark; the rest of q is as in base. */
  ghost predicate SplitAt(g: Dag, stops: set<nat>, base: Marks, add: int, m: Marks, q: seq<nat>, k: nat)
    requires MarksFit(g, base) && MarksFit(g, m) && forall i | 0 <= i < |q| :: q[i] < g.Edges()
  {
    && k < |q|
    && (forall j | 0 <= j < k :: m.inc[q[j]] == 0 && !m.init[q[j]] && q[j] !in stops)
    && m.init[q[k]] && m.inc[q[k]] == add + Sum(base.inc, q[..k + 1])
    && (forall j | k < j < |q| :: m.inc[q[j]] == base.inc[q[j]] && m.init[q[j]] == base.init[q[j]])
  }

  ghost predicate Split(g: Dag, stops: set<nat>, base: Marks, add: int, m: Marks, q: seq<nat>)
    requires MarksFit(g, base) && MarksFit(g, m) && forall i | 0 <= i < |q| :: q[i] < g.Edges()
  {
    exists k: nat :: SplitAt(g, stops, base, add, m, q, k)
  }

  ghost predicate SameAt(m0: Marks, m: Marks, x: nat)
    requires x < |m0.inc| && x < |m0.init| && x < |m.inc| && x < |m.init|
  {
    m.inc[x] == m0.inc[x] && m.init[x] == m0.init[x]
  }

  /** A mark is not pushed on from x: the node below has several predecessor edges or is the exit, or x is a stop. */
  ghost predicate MayStop(g: Dag, stops: set<nat>, x: nat)
    requires g.Shape() && x < g.Edges()
  {
    |g.pred[g.target[x]]| > 1 || g.target[x] == g.exit || x in stops
  }

  /** The effect of pushing from e: every path from e to the exit is split, nothing outside e's region changes, and a
      mark that has moved stands where it may stop. */
  ghost predicate Pushed(g: Dag, rank: seq<nat>, stops: set<nat>, m0: Marks, m: Marks, e: nat)
    requires g.Ranked(rank) && e < g.Edges()
  {
    && MarksFit(g, m0) && MarksFit(g, m) && m.count == m0.count
    && (forall x | 0 <= x < g.Edges() && !InRegion(g, rank, stops, e, x) :: SameAt(m0, m, x))
    && (forall q | ToExit(g, e, q) :: Split(g, stops, m0, 0, m, q))
    && (forall x | 0 <= x < g.Edges() && m.init[x] :: MayStop(g, stops, x) || (m0.init[x] && x != e))
  }

  /** The same while the first i successor edges of e's target have been pushed to. */
  ghost predicate PartlyPushed(g: Dag, rank: seq<nat>, stops: set<nat>, m0: Marks, m: Marks, e: nat, i: nat)
    requires g.Ranked(rank) && e < g.Edges() && i <= |g.succ[g.target[e]]|
  {
    var out := g.succ[g.target[e]];
    && MarksFit(g, m0) && MarksFit(g, m) && m.count == m0.count
    && (forall x | 0 <= x < g.Edges() && (forall j | 0 <= j < i :: !InRegion(g, rank, stops, out[j], x)) ::
         SameAt(m0, m, x))
    && (forall j, q | 0 <= j < i && ToExit(g, out[j], q) :: Split(g, stops, m0, m0.inc[e], m, q))
    && (forall x | 0 <= x < g.Edges() && m.init[x] :: MayStop(g, stops, x) || m0.init[x])
  }

  // ----- regions -----

  /** An edge in f's region other than f starts above f. */
  lemma {:induction false} RegionIsBelow(g: Dag, rank: seq<nat>, stops: set<nat>, f: nat, x: nat)
    requires g.Ranked(rank) && f < g.Edges() && x < g.Edges() && InRegion(g, rank, stops, f, x)
    requires f != g.ExitRootEdge()
    ensures x != g.ExitRootEdge() && (x == f || rank[g.source[f]] < rank[g.source[x]])
    decreases if x == g.ExitRootEdge() then 0 else rank[g.source[x]] + 1
  {
    if x != f {
      var h := g.pred[g.source[x]][0];
      RegionIsBelow(g, rank, stops, f, h);
    }
  }

  /** Along a path the sources rise. */
  lemma {:induction false} PathRises(g: Dag, rank: seq<nat>, q: seq<nat>, i: nat, j: nat)
    requires g.Ranked(rank) && g.IsPath(q) && i < j < |q| && g.ExitRootEdge() !in q[i..]
    ensures rank[g.source[q[i]]] < rank[g.source[q[j]]]
    decreases j - i
  {
    assert q[i] == q[i..][0];
    assert g.target[q[i]] == g.source[q[i + 1]];
    if i + 1 < j {
      assert forall x | x in q[i + 1..] :: x in q[i..] by {
        assert q[i + 1..] == q[i..][1..];
      }
      PathRises(g, rank, q, i + 1, j);
    }
  }

  /** A path that enters f's region was in it from the start, or passed through f. */
  lemma {:induction false} RegionDominates(g: Dag, rank: seq<nat>, stops: set<nat>, f: nat, q: seq<nat>, j: nat)
    requires g.Ranked(rank) && g.IsPath(q) && j < |q| && f < g.Edges() && InRegion(g, rank, stops, f, q[j])
    requires g.ExitRootEdge() !in q[1..]
    ensures InRegion(g, rank, stops, f, q[0]) || f in q[..j + 1]
  {
    if q[j] == f {
      assert f in q[..j + 1];
    } else if j > 0 {
      assert q[j] == q[1..][j - 1];
      var h := g.pred[g.source[q[j]]][0];
      assert g.target[q[j - 1]] == g.source[q[j]];
      assert q[j - 1] == h;
      RegionDominates(g, rank, stops, f, q, j - 1);
      if f in q[..j] {
        assert f in q[..j + 1];
      }
    }
  }

  /** The regions below two successor edges of one node do not meet on a path from either of them. */
  lemma SiblingRegionsApart(g: Dag, rank: seq<nat>, stops: set<nat>, e: nat, f: nat, f': nat, q: seq<nat>, j: nat)
    requires g.Ranked(rank) && e < g.Edges() && g.target[e] != g.exit && g.pred[g.target[e]] == [e] && e !in stops
    requires f in g.succ[g.target[e]] && f' in g.succ[g.target[e]] && f != f'
    requires ToExit(g, f', q) && j < |q|
    ensures !InRegion(g, rank, stops, f, q[j])
  {
    assert g.source[f] == g.source[f'] == g.target[e];
    if InRegion(g, rank, stops, f, q[j]) {
      RegionDominates(g, rank, stops, f, q, j);
      if InRegion(g, rank, stops, f, f') {
        RegionIsBelow(g, rank, stops, f, f');
        assert false;
      } else {
        var k :| 0 <= k < j + 1 && q[k] == f;
        assert q[0] != g.ExitRootEdge();
        assert g.ExitRootEdge() !in q[0..] by {
          assert q == [q[0]] + q[1..];
        }
        PathRises(g, rank, q, 0, k);
        assert false;
      }
    }
  }

  /** The region of a successor edge of a node with the single predecessor edge e is part of e's. */
  lemma {:induction false} SuccessorRegion(g: Dag, rank: seq<nat>, stops: set<nat>, e: nat, f: nat, x: nat)
    requires g.Ranked(rank) && e < g.Edges() && g.target[e] != g.exit && g.pred[g.target[e]] == [e] && e !in stops
    requires f in g.succ[g.target[e]] && x < g.Edges() && InRegion(g, rank, stops, f, x)
    ensures InRegion(g, rank, stops, e, x) && x != e
    decreases if x == g.ExitRootEdge() then 0 else rank[g.source[x]] + 1
  {
    assert g.source[f] == g.target[e] && f != g.ExitRootEdge();
    RegionIsBelow(g, rank, stops, f, x);
    if x != f {
      var h := g.pred[g.source[x]][0];
      SuccessorRegion(g, rank, stops, e, f, h);
    }
  }

  // ----- the steps of a push -----

  lemma StopIsPushed(g: Dag, rank: seq<nat>, stops: set<nat>, m: Marks, e: nat)
    requires g.Ranked(rank) && e < g.Edges() && MarksFit(g, m) && m.init[e]
    requires |g.pred[g.target[e]]| > 1 || g.target[e] == g.exit || e in stops
    ensures Pushed(g, rank, stops, m, m, e)
  {
    forall q | ToExit(g, e, q)
      ensures Split(g, stops, m, 0, m, q)
    {
      assert q[..1] == [e];
      assert SplitAt(g, stops, m, 0, m, q, 0);
    }
  }

  /** One successor edge f takes over e's increment and is pushed from. */
  lemma NextSuccessor(g: Dag, rank: seq<nat>, stops: set<nat>, m0: Marks, m: Marks, mid: Marks, m1: Marks, e: nat,
                      i: nat)
    requires g.Ranked(rank) && e < g.Edges() && g.target[e] != g.exit && g.pred[g.target[e]] == [e] && e !in stops
    requires i < |g.succ[g.target[e]]| && PartlyPushed(g, rank, stops, m0, m, e, i)
    requires var f := g.succ[g.target[e]][i];
      mid == Marks(m.inc[f := m.inc[f] + m.inc[e]], m.init[f := true], m.count) && Pushed(g, rank, stops, mid, m1, f)
    ensures PartlyPushed(g, rank, stops, m0, m1, e, i + 1)
  {
    var out := g.succ[g.target[e]];
    var f := out[i];
    SuccessorsUntouched(g, rank, stops, m0, m, e, i);
    forall x | 0 <= x < g.Edges() && (forall j | 0 <= j < i + 1 :: !InRegion(g, rank, stops, out[j], x))
      ensures SameAt(m0, m1, x)
    {
      assert !InRegion(g, rank, stops, out[i], x) && x != f;
      assert SameAt(mid, m1, x) && SameAt(m0, m, x);
    }
    forall j, q | 0 <= j < i + 1 && ToExit(g, out[j], q)
      ensures Split(g, stops, m0, m0.inc[e], m1, q)
    {
      if j == i {
        NewSuccessorSplit(g, rank, stops, m0, m, mid, m1, e, i, q);
      } else {
        OldSuccessorSplit(g, rank, stops, m0, m, mid, m1, e, i, j, q);
      }
    }
  }

  lemma SuccessorsUntouched(g: Dag, rank: seq<nat>, stops: set<nat>, m0: Marks, m: Marks, e: nat, i: nat)
    requires g.Ranked(rank) && e < g.Edges() && g.target[e] != g.exit && g.pred[g.target[e]] == [e] && e !in stops
    requires i < |g.succ[g.target[e]]| && PartlyPushed(g, rank, stops, m0, m, e, i)
    ensures SameAt(m0, m, e) && SameAt(m0, m, g.succ[g.target[e]][i])
  {
    var out := g.succ[g.target[e]];
    forall j | 0 <= j < i
      ensures !InRegion(g, rank, stops, out[j], e) && !InRegion(g, rank, stops, out[j], out[i])
    {
      assert out[j] in out && out[i] in out;
      assert g.source[out[j]] == g.source[out[i]] == g.target[e];
      NotInSuccessorRegion(g, rank, stops, e, out[j]);
      NotInSiblingRegion(g, rank, stops, out[j], out[i]);
    }
  }

  lemma NotInSuccessorRegion(g: Dag, rank: seq<nat>, stops: set<nat>, e: nat, f: nat)
    requires g.Ranked(rank) && e < g.Edges() && g.target[e] != g.exit && g.pred[g.target[e]] == [e] && e !in stops &&
      f in g.succ[g.target[e]]
    ensures !InRegion(g, rank, stops, f, e)
  {
    if InRegion(g, rank, stops, f, e) {
      SuccessorRegion(g, rank, stops, e, f, e);
    }
  }

  lemma NotInSiblingRegion(g: Dag, rank: seq<nat>, stops: set<nat>, f: nat, h: nat)
    requires g.Ranked(rank) && f < g.Edges() && h < g.Edges() && f != h && g.source[f] == g.source[h]
    ensures !InRegion(g, rank, stops, f, h)
  {
    if InRegion(g, rank, stops, f, h) {
      RegionIsBelow(g, rank, stops, f, h);
    }
  }

  /** On a path through an earlier sibling nothing changes any more. */
  lemma OldSuccessorSplit(g: Dag, rank: seq<nat>, stops: set<nat>, m0: Marks, m: Marks, mid: Marks, m1: Marks, e: nat,
                          i: nat, j: nat, q: seq<nat>)
    requires g.Ranked(rank) && e < g.Edges() && g.target[e] != g.exit && g.pred[g.target[e]] == [e] && e !in stops
    requires j < i < |g.succ[g.target[e]]| && PartlyPushed(g, rank, stops, m0, m, e, i)
    requires var f := g.succ[g.target[e]][i];
      mid == Marks(m.inc[f := m.inc[f] + m.inc[e]], m.init[f := true], m.count) && Pushed(g, rank, stops, mid, m1, f)
    requires ToExit(g, g.succ[g.target[e]][j], q)
    ensures Split(g, stops, m0, m0.inc[e], m1, q)
  {
    var out := g.succ[g.target[e]];
    forall n | 0 <= n < |q|
      ensures SameAt(m, m1, q[n])
    {
      SiblingRegionsApart(g, rank, stops, e, out[i], out[j], q, n);
      assert SameAt(mid, m1, q[n]);
    }
    assert Split(g, stops, m0, m0.inc[e], m, q);
    var k: nat :| SplitAt(g, stops, m0, m0.inc[e], m, q, k);
    assert SplitAt(g, stops, m0, m0.inc[e], m1, q, k);
  }

  lemma NewSuccessorSplit(g: Dag, rank: seq<nat>, stops: set<nat>, m0: Marks, m: Marks, mid: Marks, m1: Marks, e: nat,
                          i: nat, q: seq<nat>)
    requires g.Ranked(rank) && e < g.Edges() && g.target[e] != g.exit && g.pred[g.target[e]] == [e] && e !in stops
    requires i < |g.succ[g.target[e]]| && PartlyPushed(g, rank, stops, m0, m, e, i)
    requires SameAt(m0, m, e) && SameAt(m0, m, g.succ[g.target[e]][i])
    requires var f := g.succ[g.target[e]][i];
      mid == Marks(m.inc[f := m.inc[f] + m.inc[e]], m.init[f := true], m.count) && Pushed(g, rank, stops, mid, m1, f)
    requires ToExit(g, g.succ[g.target[e]][i], q)
    ensures Split(g, stops, m0, m0.inc[e], m1, q)
  {
    var out := g.succ[g.target[e]];
    var f := out[i];
    assert f in out && f != g.ExitRootEdge();
    forall n | 1 <= n < |q|
      ensures SameAt(m0, mid, q[n])
    {
      forall j | 0 <= j < i
        ensures !InRegion(g, rank, stops, out[j], q[n])
      {
        SiblingRegionsApart(g, rank, stops, e, out[j], f, q, n);
      }
      assert SameAt(m0, m, q[n]);
      assert g.ExitRootEdge() !in q[0..] by {
        assert q == [q[0]] + q[1..];
      }
      PathRises(g, rank, q, 0, n);
    }
    assert Split(g, stops, mid, 0, m1, q);
    var k: nat :| SplitAt(g, stops, mid, 0, m1, q, k);
    var head := q[..k + 1];
    assert head[1..] == q[1..k + 1];
    SumSame(mid.inc, m0.inc, head[1..]);
    assert SplitAt(g, stops, m0, m0.inc[e], m1, q, k);
  }

  /** All successor edges served, e gives its mark up. */
  lemma LastStep(g: Dag, rank: seq<nat>, stops: set<nat>, m0: Marks, m: Marks, m1: Marks, e: nat)
    requires g.Ranked(rank) && e < g.Edges() && g.target[e] != g.exit && g.pred[g.target[e]] == [e] && e !in stops
    requires PartlyPushed(g, rank, stops, m0, m, e, |g.succ[g.target[e]]|)
    requires m1 == Marks(m.inc[e := 0], m.init[e := false], m.count)
    ensures Pushed(g, rank, stops, m0, m1, e)
  {
    var out := g.succ[g.target[e]];
    forall x | 0 <= x < g.Edges() && !InRegion(g, rank, stops, e, x)
      ensures SameAt(m0, m1, x)
    {
      forall j | 0 <= j < |out|
        ensures !InRegion(g, rank, stops, out[j], x)
      {
        if InRegion(g, rank, stops, out[j], x) {
          SuccessorRegion(g, rank, stops, e, out[j], x);
        }
      }
      assert SameAt(m0, m, x);
    }
    forall q | ToExit(g, e, q)
      ensures Split(g, stops, m0, 0, m1, q)
    {
      LastStepSplit(g, rank, stops, m0, m, m1, e, q);
    }
  }

  lemma LastStepSplit(g: Dag, rank: seq<nat>, stops: set<nat>, m0: Marks, m: Marks, m1: Marks, e: nat, q: seq<nat>)
    requires g.Ranked(rank) && e < g.Edges() && g.target[e] != g.exit && g.pred[g.target[e]] == [e] && e !in stops
    requires PartlyPushed(g, rank, stops, m0, m, e, |g.succ[g.target[e]]|)
    requires m1 == Marks(m.inc[e := 0], m.init[e := false], m.count) && ToExit(g, e, q)
    ensures Split(g, stops, m0, 0, m1, q)
  {
    var out := g.succ[g.target[e]];
    RestToExit(g, e, q);
    var j :| 0 <= j < |out| && out[j] == q[1];
    assert Split(g, stops, m0, m0.inc[e], m, q[1..]);
    var k: nat :| SplitAt(g, stops, m0, m0.inc[e], m, q[1..], k);
    forall n | 1 <= n < |q|
      ensures q[n] != e
    {
      NotRepeated(g, rank, e, q, n);
    }
    ShiftSplit(g, stops, m0, m, m1, e, q, k);
  }

  lemma RestToExit(g: Dag, e: nat, q: seq<nat>)
    requires g.Shape() && e < g.Edges() && g.target[e] != g.exit && ToExit(g, e, q)
    ensures |q| > 1 && q[1] in g.succ[g.target[e]] && ToExit(g, q[1], q[1..])
  {
    var rest := q[1..];
    assert |q| > 1;
    assert g.target[q[0]] == g.source[q[1]];
    assert forall i | 0 <= i < |rest| :: rest[i] == q[i + 1];
    assert forall x | x in rest[1..] :: x in rest;
  }

  lemma ShiftSplit(g: Dag, stops: set<nat>, m0: Marks, m: Marks, m1: Marks, e: nat, q: seq<nat>, k: nat)
    requires MarksFit(g, m0) && MarksFit(g, m) && e < g.Edges()
    requires (forall i | 0 <= i < |q| :: q[i] < g.Edges()) && |q| > 1 && q[0] == e && e !in stops
    requires forall n | 1 <= n < |q| :: q[n] != e
    requires m1 == Marks(m.inc[e := 0], m.init[e := false], m.count)
    requires SplitAt(g, stops, m0, m0.inc[e], m, q[1..], k)
    ensures Split(g, stops, m0, 0, m1, q)
  {
    assert q[..k + 2][1..] == q[1..][..k + 1];
    assert forall n | 1 <= n < |q| :: q[n] == q[1..][n - 1];
    assert SplitAt(g, stops, m0, 0, m1, q, k + 1);
  }

  lemma NotRepeated(g: Dag, rank: seq<nat>, e: nat, q: seq<nat>, n: nat)
    requires g.Ranked(rank) && ToExit(g, e, q) && 1 <= n < |q|
    ensures q[n] != e
  {
    assert q[n] == q[1..][n - 1];
    if q[n] == e {
      assert g.ExitRootEdge() !in q[0..] by {
        assert q == [q[0]] + q[1..];
      }
      PathRises(g, rank, q, 0, n);
    }
  }

  // ----- the reversed dag -----

  /** All edges turned around; pushing counters up is pushing marks down here. */
  function Reverse(g: Dag): Dag {
    Dag(g.nodes, g.target, g.source, g.weight, g.pred, g.succ, g.exit, g.root)
  }

  function ReverseRank(g: Dag, rank: seq<nat>): (r: seq<nat>)
    requires |rank| == g.nodes && forall v | 0 <= v < g.nodes :: rank[v] < g.nodes
    ensures |r| == g.nodes && forall v | 0 <= v < g.nodes :: r[v] == g.nodes - 1 - rank[v]
  {
    seq(g.nodes, v requires 0 <= v < g.nodes => g.nodes - 1 - rank[v])
  }

  /** Initialising and counting exchange their roles. */
  function Exchange(m: Marks): Marks {
    Marks(m.inc, m.count, m.init)
  }

  lemma ReverseRanked(g: Dag, rank: seq<nat>)
    requires g.Ranked(rank)
    ensures Reverse(g).Ranked(ReverseRank(g, rank)) && Reverse(g).ExitRootEdge() == g.ExitRootEdge()
  {
    var e := g.ExitRootEdge();
    assert e in g.pred[g.target[e]];
    assert Reverse(g).Shape();
  }

  function Backwards(p: seq<nat>): (r: seq<nat>)
    ensures |r| == |p| && forall i | 0 <= i < |p| :: r[i] == p[|p| - 1 - i]
  {
    if p == [] then [] else Backwards(p[1..]) + [p[0]]
  }

  lemma {:induction false} SumBackwards(values: seq<int>, p: seq<nat>)
    requires forall i | 0 <= i < |p| :: p[i] < |values|
    ensures Sum(values, Backwards(p)) == Sum(values, p)
  {
    if p != [] {
      SumBackwards(values, p[1..]);
      assert [p[0]][1..] == [];
      SumAppend(values, Backwards(p[1..]), [p[0]]);
    }
  }

  // ----- both pushes together -----

  /** The closed walk of a root-to-exit path, starting with the closing edge. */
  lemma ClosedFromExit(g: Dag, p: seq<nat>)
    requires g.Shape() && g.IsRootToExit(p)
    ensures ToExit(g, g.ExitRootEdge(), [g.ExitRootEdge()] + p)
  {
    var q := [g.ExitRootEdge()] + p;
    assert q[1..] == p;
    assert forall i | 1 <= i < |q| :: q[i] == p[i - 1];
  }

  lemma BackwardsConnects(g: Dag, p: seq<nat>)
    requires g.Shape() && g.IsRootToExit(p)
    ensures |Backwards(p)| == |p| && forall i | 0 <= i < |p| :: Backwards(p)[i] < g.Edges()
    ensures forall i | 0 <= i < |p| - 1 :: g.source[Backwards(p)[i]] == g.target[Backwards(p)[i + 1]]
  {
    var b := Backwards(p);
    forall i | 0 <= i < |b| - 1
      ensures g.source[b[i]] == g.target[b[i + 1]]
    {
      var k := |p| - 2 - i;
      assert g.target[p[k]] == g.source[p[k + 1]];
    }
  }

  /** The same walk backwards, as a path of the reversed dag. */
  lemma ClosedFromRoot(g: Dag, rank: seq<nat>, p: seq<nat>)
    requires g.Ranked(rank) && g.IsRootToExit(p)
    ensures Reverse(g).Shape() && ToExit(Reverse(g), g.ExitRootEdge(), [g.ExitRootEdge()] + Backwards(p))
  {
    ReverseRanked(g, rank);
    BackwardsConnects(g, p);
    var b := Backwards(p);
    var q := [g.ExitRootEdge()] + b;
    assert q[1..] == b;
    assert forall i | 1 <= i < |q| :: q[i] == b[i - 1];
    assert g.ExitRootEdge() !in b;
  }

  /** One edge of p initialises the register and one edge at or after it bumps the counter; what comes
      before the first and after the second is zero, and the increments from the first through the
      second add up to total. */
  ghost predicate Instrumented(m: Marks, p: seq<nat>, total: int, a: nat, b: nat)
    requires |m.init| == |m.inc| && |m.count| == |m.inc| && forall i | 0 <= i < |p| :: p[i] < |m.inc|
  {
    && a <= b < |p|
    && (forall j | 0 <= j < |p| :: m.init[p[j]] <==> j == a)
    && (forall j | 0 <= j < |p| :: m.count[p[j]] <==> j == b)
    && (forall j | 0 <= j < a || b < j < |p| :: m.inc[p[j]] == 0)
    && Sum(m.inc, p[a..b + 1]) == total
  }

  /** Pushing the initialization from the closing edge and then the counter back up from it leaves
      every root-to-exit path with one initialising and one counting edge. */
  lemma PushedTwice(g: Dag, rank: seq<nat>, m0: Marks, m1: Marks, m2: Marks, p: seq<nat>) returns (a: nat, b: nat)
    requires g.Ranked(rank) && MarksFit(g, m0) && MarksFit(g, m1) && MarksFit(g, m2)
    requires Reverse(g).Ranked(ReverseRank(g, rank)) && Reverse(g).ExitRootEdge() == g.ExitRootEdge()
    requires var e := g.ExitRootEdge();
      && (forall x | 0 <= x < g.Edges() :: !m0.init[x] && !m0.count[x])
      && Pushed(g, rank, {}, m0.(init := m0.init[e := true]), m1, e)
      && !m1.init[e] && m1.inc[e] == 0
      && Pushed(Reverse(g), ReverseRank(g, rank), InitEdges(m1), Exchange(m1.(count := m1.count[e := true])),
           Exchange(m2), e)
      && !m2.count[e] && m2.inc[e] == 0
    requires g.IsRootToExit(p)
    ensures Instrumented(m2, p, Sum(m0.inc, [g.ExitRootEdge()] + p), a, b)
  {
    var e := g.ExitRootEdge();
    var q := [e] + p;
    ClosedFromExit(g, p);
    ClosedFromRoot(g, rank, p);
    assert Split(g, {}, m0.(init := m0.init[e := true]), 0, m1, q);
    var k: nat :| SplitAt(g, {}, m0.(init := m0.init[e := true]), 0, m1, q, k);
    assert q[0] == e && k > 0;
    a := k - 1;
    FirstPush(g, m0, m1, p, a);
    var r := [e] + Backwards(p);
    var marked := m1.(count := m1.count[e := true]);
    assert Split(Reverse(g), InitEdges(m1), Exchange(marked), 0, Exchange(m2), r);
    var l: nat :| SplitAt(Reverse(g), InitEdges(m1), Exchange(marked), 0, Exchange(m2), r, l);
    assert r[0] == e && l > 0;
    b := |p| - l;
    SecondPush(g, m0, m1, m2, p, a, b);
  }

  function InitEdges(m: Marks): set<nat> {
    set x: nat | 0 <= x < |m.init| && m.init[x]
  }

  /** After the first push: one initialising edge, with the increments up to it. */
  lemma FirstPush(g: Dag, m0: Marks, m1: Marks, p: seq<nat>, a: nat)
    requires g.Shape() && MarksFit(g, m0) && MarksFit(g, m1) && g.IsRootToExit(p)
    requires forall x | 0 <= x < g.Edges() :: !m0.init[x]
    requires var e := g.ExitRootEdge();
      SplitAt(g, {}, m0.(init := m0.init[e := true]), 0, m1, [e] + p, a + 1)
    ensures a < |p| && (forall j | 0 <= j < |p| :: m1.init[p[j]] <==> j == a)
    ensures forall j | 0 <= j < a :: m1.inc[p[j]] == 0
    ensures Sum(m1.inc, p[a..]) == Sum(m0.inc, [g.ExitRootEdge()] + p)
  {
    var e := g.ExitRootEdge();
    var q := [e] + p;
    assert forall j | 0 <= j < |p| :: q[j + 1] == p[j] && p[j] != e && p[j] < g.Edges();
    hide Dag.Shape, Dag.IsPath;
    forall j | 0 <= j < |p|
      ensures m1.init[p[j]] <==> j == a
      ensures j < a ==> m1.inc[p[j]] == 0
      ensures j > a ==> m1.inc[p[j]] == m0.inc[p[j]]
    {
      assert q[j + 1] == p[j];
    }
    MovedSum(m0.inc, m1.inc, e, p, a);
  }

  lemma SumSplit(values: seq<int>, q: seq<nat>, k: nat)
    requires k <= |q| && forall i | 0 <= i < |q| :: q[i] < |values|
    ensures Sum(values, q) == Sum(values, q[..k]) + Sum(values, q[k..])
  {
    assert q == q[..k] + q[k..];
    SumAppend(values, q[..k], q[k..]);
  }

  lemma SumFrom(values: seq<int>, p: seq<nat>, a: nat)
    requires a < |p| && forall i | 0 <= i < |p| :: p[i] < |values|
    ensures Sum(values, p[a..]) == values[p[a]] + Sum(values, p[a + 1..])
  {
    assert p[a..][1..] == p[a + 1..];
  }

  lemma TailWithout(e: nat, p: seq<nat>, a: nat)
    requires a < |p|
    ensures ([e] + p)[a + 2..] == p[a + 1..]
  {
  }

  lemma MovedSum(inc0: seq<int>, inc1: seq<int>, e: nat, p: seq<nat>, a: nat)
    requires |inc0| == |inc1| && e < |inc0| && a < |p| && forall i | 0 <= i < |p| :: p[i] < |inc0|
    requires inc1[p[a]] == Sum(inc0, ([e] + p)[..a + 2])
    requires forall j | a < j < |p| :: inc1[p[j]] == inc0[p[j]]
    ensures Sum(inc1, p[a..]) == Sum(inc0, [e] + p)
  {
    hide Sum;
    SumSplit(inc0, [e] + p, a + 2);
    TailWithout(e, p, a);
    SumSame(inc0, inc1, p[a + 1..]);
    SumFrom(inc1, p, a);
  }

  /** After the second push: one counting edge, with the increments from it on. */
  lemma SecondPush(g: Dag, m0: Marks, m1: Marks, m2: Marks, p: seq<nat>, a: nat, b: nat)
    requires g.Shape() && MarksFit(g, m0) && MarksFit(g, m1) && MarksFit(g, m2) && g.IsRootToExit(p)
    requires forall x | 0 <= x < g.Edges() :: !m1.count[x]
    requires a < |p| && (forall j | 0 <= j < |p| :: m1.init[p[j]] <==> j == a)
    requires forall j | 0 <= j < a :: m1.inc[p[j]] == 0
    requires m1.inc[g.ExitRootEdge()] == 0 && m2.init == m1.init && b < |p|
    requires var e := g.ExitRootEdge();
      SplitAt(Reverse(g), InitEdges(m1), Exchange(m1.(count := m1.count[e := true])), 0, Exchange(m2),
        [e] + Backwards(p), |p| - b)
    ensures Instrumented(m2, p, Sum(m1.inc, p[a..]), a, b)
  {
    var e := g.ExitRootEdge();
    BackwardsFacts(g, m1, m2, p, b);
    assert forall j | 0 <= j < |p| :: p[j] < g.Edges();
    hide Dag.Shape, Dag.IsPath, SplitAt, Backwards, Sum, Instrumented, InitEdges;
    InitBeforeCount(m1, p, a, b);
    MovedBackSum(m1.inc, m2.inc, e, p, a, b);
    Assembled(m1, m2, p, a, b);
  }

  lemma BackwardsFacts(g: Dag, m1: Marks, m2: Marks, p: seq<nat>, b: nat)
    requires g.Shape() && MarksFit(g, m1) && MarksFit(g, m2) && g.IsRootToExit(p) && b < |p|
    requires var e := g.ExitRootEdge();
      SplitAt(Reverse(g), InitEdges(m1), Exchange(m1.(count := m1.count[e := true])), 0, Exchange(m2),
        [e] + Backwards(p), |p| - b)
    ensures forall j {:trigger p[j]} | b < j < |p| ::
      p[j] < g.Edges() && m2.inc[p[j]] == 0 && !m2.count[p[j]] && p[j] !in InitEdges(m1)
    ensures p[b] < g.Edges() && m2.count[p[b]] &&
      m2.inc[p[b]] == Sum(m1.inc, ([g.ExitRootEdge()] + Backwards(p))[..|p| - b + 1])
    ensures forall j {:trigger p[j]} | 0 <= j < b ::
      p[j] < g.Edges() && m2.inc[p[j]] == m1.inc[p[j]] && m2.count[p[j]] == m1.count[p[j]]
  {
    var e := g.ExitRootEdge();
    assert forall j | 0 <= j < |p| :: p[j] != e && p[j] < g.Edges();
    var marked := m1.(count := m1.count[e := true]);
    assert e < g.Edges() && |g.target| == |g.source| && MarksFit(g, marked);
    hide Dag.Shape, Dag.IsPath, SplitAt, Backwards, Sum, InitEdges;
    SplitBackwards(g, marked, m2, InitEdges(m1), e, p, b);
  }

  lemma Assembled(m1: Marks, m2: Marks, p: seq<nat>, a: nat, b: nat)
    requires |m1.inc| == |m1.init| == |m1.count| == |m2.inc| == |m2.count| && m2.init == m1.init && a <= b < |p|
    requires forall j | 0 <= j < |p| :: p[j] < |m1.inc| && !m1.count[p[j]]
    requires forall j | 0 <= j < |p| :: m1.init[p[j]] <==> j == a
    requires forall j | 0 <= j < a :: m1.inc[p[j]] == 0
    requires forall j {:trigger p[j]} | b < j < |p| :: m2.inc[p[j]] == 0 && !m2.count[p[j]]
    requires m2.count[p[b]]
    requires forall j {:trigger p[j]} | 0 <= j < b :: m2.inc[p[j]] == m1.inc[p[j]] && m2.count[p[j]] == m1.count[p[j]]
    ensures Instrumented(m2, p, Sum(m2.inc, p[a..b + 1]), a, b)
  {
    hide Sum;
  }

  lemma InitBeforeCount(m: Marks, p: seq<nat>, a: nat, b: nat)
    requires a < |p| && b < |p| && p[a] < |m.init| && m.init[p[a]]
    requires forall j {:trigger p[j]} | b < j < |p| :: p[j] !in InitEdges(m)
    ensures a <= b
  {
    assert p[a] in InitEdges(m);
  }

  /** What a split of the backwards walk says about the path itself. */
  lemma SplitBackwards(g: Dag, m1: Marks, m2: Marks, stops: set<nat>, e: nat, p: seq<nat>, b: nat)
    requires MarksFit(g, m1) && MarksFit(g, m2) && e < g.Edges() && b < |p| &&
      forall j | 0 <= j < |p| :: p[j] < g.Edges()
    requires |g.target| == |g.source|
    requires SplitAt(Reverse(g), stops, Exchange(m1), 0, Exchange(m2), [e] + Backwards(p), |p| - b)
    ensures forall j {:trigger p[j]} | b < j < |p| :: m2.inc[p[j]] == 0 && !m2.count[p[j]] && p[j] !in stops
    ensures m2.count[p[b]] && m2.inc[p[b]] == Sum(m1.inc, ([e] + Backwards(p))[..|p| - b + 1])
    ensures forall j {:trigger p[j]} | 0 <= j < b :: m2.inc[p[j]] == m1.inc[p[j]] && m2.count[p[j]] == m1.count[p[j]]
  {
    hide Backwards;
    var r := [e] + Backwards(p);
    assert forall j {:trigger p[j]} | 0 <= j < |p| :: r[|p| - j] == p[j];
  }

  lemma {:induction false} BackwardsPrefix(e: nat, p: seq<nat>, b: nat)
    requires b <= |p|
    ensures ([e] + Backwards(p))[..|p| - b + 1] == [e] + Backwards(p[b..])
  {
    if b == 0 {
      assert p[0..] == p;
    } else {
      BackwardsPrefix(e, p[1..], b - 1);
      assert p[1..][b - 1..] == p[b..];
      assert [e] + Backwards(p) == ([e] + Backwards(p[1..])) + [p[0]];
    }
  }

  lemma MovedBackSum(inc1: seq<int>, inc2: seq<int>, e: nat, p: seq<nat>, a: nat, b: nat)
    requires |inc1| == |inc2| && e < |inc1| && a <= b < |p| && forall i | 0 <= i < |p| :: p[i] < |inc1|
    requires inc1[e] == 0 && inc2[p[b]] == Sum(inc1, ([e] + Backwards(p))[..|p| - b + 1])
    requires forall j | 0 <= j < b :: inc2[p[j]] == inc1[p[j]]
    ensures Sum(inc2, p[a..b + 1]) == Sum(inc1, p[a..])
  {
    hide Sum, Backwards;
    BackwardsPrefix(e, p, b);
    SumOfTail(inc1, e, p[b..]);
    assert inc2[p[b]] == Sum(inc1, p[b..]);
    SumSplit(inc1, p[a..], b - a);
    SumSplit(inc2, p[a..b + 1], b - a);
    MiddleOf(p, a, b);
    SumOne(inc2, p[b]);
    SumSame(inc2, inc1, p[a..b]);
  }

  lemma MiddleOf(p: seq<nat>, a: nat, b: nat)
    requires a <= b < |p|
    ensures p[a..][..b - a] == p[a..b] && p[a..][b - a..] == p[b..]
    ensures p[a..b + 1][..b - a] == p[a..b] && p[a..b + 1][b - a..] == [p[b]]
  {
  }

  lemma SumOne(values: seq<int>, v: nat)
    requires v < |values|
    ensures Sum(values, [v]) == values[v]
  {
    assert [v][1..] == [];
  }

  lemma SumOfTail(values: seq<int>, e: nat, tail: seq<nat>)
    requires e < |values| && values[e] == 0 && forall i | 0 <= i < |tail| :: tail[i] < |values|
    ensures Sum(values, [e] + Backwards(tail)) == Sum(values, tail)
  {
    assert ([e] + Backwards(tail))[1..] == Backwards(tail);
    SumBackwards(values, tail);
  }
}
