/** BLInstrumentationDag of assets/LLVMProfiler/PathProfiling.cpp: placing the increments of Figure 4 of
    [Ball94] on the chords of a spanning tree, then grouping them with the initialization and the
    counter. */
module PathProfiling {
  import opened Wrappers
  import opened InstrumentationDag
  import opened SpanningTree
  import opened ChordIncrements
  import opened PushMarks

  class BLInstrumentationDag {
    const g: Dag
    const edges: seq<BLInstrumentationEdge>
    const treeEdges: seq<nat>
    const chordEdges: seq<nat>
    ghost const rank: seq<nat>
    ghost const depth: seq<nat>

    /** The spanning tree is given; its edges and the chords partition the edges. */
    ghost predicate Valid() {
      && g.Ranked(rank) && IsSpanningTree(g, treeEdges, depth)
      && |edges| == g.Edges()
      && (forall i, j | 0 <= i < j < |edges| :: edges[i] != edges[j])
      && (forall i | 0 <= i < |chordEdges| :: chordEdges[i] < g.Edges())
      && (forall i, j | 0 <= i < j < |chordEdges| :: chordEdges[i] != chordEdges[j])
      && (forall e | 0 <= e < g.Edges() :: e in treeEdges <==> e !in chordEdges)
    }

    ghost function Marks(): Marks
      reads edges
    {
      InstrumentationDag.Marks(
        seq(|edges|, i requires 0 <= i < |edges| reads edges => edges[i].increment),
        seq(|edges|, i requires 0 <= i < |edges| reads edges => edges[i].isInitialization),
        seq(|edges|, i requires 0 <= i < |edges| reads edges => edges[i].isCounterIncrement))
    }

    constructor (g: Dag, treeEdges: seq<nat>, chordEdges: seq<nat>, ghost rank: seq<nat>, ghost depth: seq<nat>)
      requires g.Ranked(rank) && IsSpanningTree(g, treeEdges, depth)
      requires forall i | 0 <= i < |chordEdges| :: chordEdges[i] < g.Edges()
      requires forall i, j | 0 <= i < j < |chordEdges| :: chordEdges[i] != chordEdges[j]
      requires forall e | 0 <= e < g.Edges() :: e in treeEdges <==> e !in chordEdges
      ensures Valid() && fresh(edges) && this.g == g && this.treeEdges == treeEdges && this.chordEdges == chordEdges
      ensures this.rank == rank && this.depth == depth
      ensures MarksFit(g, Marks()) && forall e | 0 <= e < g.Edges() ::
        Marks().inc[e] == 0 && !Marks().init[e] && !Marks().count[e]
    {
      var es: seq<BLInstrumentationEdge> := [];
      while |es| < g.Edges()
        invariant |es| <= g.Edges() && fresh(es)
        invariant forall i, j | 0 <= i < j < |es| :: es[i] != es[j]
        invariant forall i | 0 <= i < |es| ::
          es[i].increment == 0 && !es[i].isInitialization && !es[i].isCounterIncrement
      {
        var e := new BLInstrumentationEdge();
        es := es + [e];
      }
      this.g, this.edges := g, es;
      this.treeEdges, this.chordEdges := treeEdges, chordEdges;
      this.rank, this.depth := rank, depth;
    }

    method SetIncrement(e: nat, increment: int)
      requires Valid() && e < |edges|
      modifies edges[e]
      ensures Marks() == old(Marks()).(inc := old(Marks()).inc[e := increment])
    {
      edges[e].increment := increment;
      assert forall i | 0 <= i < |edges| && i != e :: edges[i] != edges[e];
    }

    method SetIsInitialization(e: nat, b: bool)
      requires Valid() && e < |edges|
      modifies edges[e]
      ensures Marks() == old(Marks()).(init := old(Marks()).init[e := b])
    {
      edges[e].isInitialization := b;
      assert forall i | 0 <= i < |edges| && i != e :: edges[i] != edges[e];
    }

    method SetIsCounterIncrement(e: nat, b: bool)
      requires Valid() && e < |edges|
      modifies edges[e]
      ensures Marks() == old(Marks()).(count := old(Marks()).count[e := b])
    {
      edges[e].isCounterIncrement := b;
      assert forall i | 0 <= i < |edges| && i != e :: edges[i] != edges[e];
    }

    // ----- chord increments -----

    /** Depth-first over the tree from v, reached along e: every chord receives the contributions of
        the nodes below v. */
    method CalculateChordIncrementsDfs(weight: int, v: nat, e: Option<nat>)
      requires Valid() && v < g.nodes && Carries(g, treeEdges, depth, weight, v, e)
      modifies edges
      ensures Received(g, treeEdges, depth, chordEdges, old(Marks()), Marks(), Subtree(g, treeEdges, depth, v))
      decreases g.nodes - depth[v]
    {
      hide Potential, Below, Contribution, ChildSubtrees, Subtree;
      ghost var m0 := Marks();
      ghost var done: set<nat> := ChildSubtrees(g, treeEdges, depth, v, 0);
      NothingReceived(g, treeEdges, depth, chordEdges, m0, v);
      var i := 0;
      while i < |treeEdges|
        invariant 0 <= i <= |treeEdges| && done == ChildSubtrees(g, treeEdges, depth, v, i)
        invariant Received(g, treeEdges, depth, chordEdges, m0, Marks(), done)
      {
        var f := treeEdges[i];
        NextChild(g, treeEdges, depth, v, i);
        OnlyDown(g, treeEdges, depth, v, e, f);
        if e != Some(f) && v == g.target[f] {
          CarriesOn(g, rank, treeEdges, depth, weight, v, e, f);
          ghost var m1 := Marks();
          CalculateChordIncrementsDfs(Direction(g, e, f) * weight + g.weight[f], g.source[f], Some(f));
          ReceivedTogether(g, treeEdges, depth, chordEdges, m0, m1, Marks(), done,
            Subtree(g, treeEdges, depth, g.source[f]));
          done := done + Subtree(g, treeEdges, depth, g.source[f]);
        }
        if e != Some(f) && v == g.source[f] {
          CarriesOn(g, rank, treeEdges, depth, weight, v, e, f);
          ghost var m1 := Marks();
          CalculateChordIncrementsDfs(Direction(g, e, f) * weight + g.weight[f], g.target[f], Some(f));
          ReceivedTogether(g, treeEdges, depth, chordEdges, m0, m1, Marks(), done,
            Subtree(g, treeEdges, depth, g.target[f]));
          done := done + Subtree(g, treeEdges, depth, g.target[f]);
        }
        i := i + 1;
      }
      ghost var m1 := Marks();
      VisitChords(weight, v, e);
      WholeSubtree(g, treeEdges, depth, v);
      ReceivedTogether(g, treeEdges, depth, chordEdges, m0, m1, Marks(), done, {v});
    }

    /** The chords at v receive v's own contribution. */
    method VisitChords(weight: int, v: nat, e: Option<nat>)
      requires Valid() && v < g.nodes && Carries(g, treeEdges, depth, weight, v, e)
      modifies edges
      ensures Received(g, treeEdges, depth, chordEdges, old(Marks()), Marks(), {v})
    {
      assert e.Some? ==> e.value < g.Edges();
      hide Potential, Below, Contribution, IsSpanningTree, Carries;
      ghost var m0 := Marks();
      var i := 0;
      while i < |chordEdges|
        invariant 0 <= i <= |chordEdges|
        invariant Received(g, treeEdges, depth, chordEdges[..i], m0, Marks(), {v})
      {
        var f := chordEdges[i];
        ReceivedHere(g, rank, treeEdges, depth, weight, v, e, f);
        assert f !in chordEdges[..i];
        if v == g.source[f] || v == g.target[f] {
          SetIncrement(f, edges[f].increment + Direction(g, e, f) * weight);
        }
        assert chordEdges[..i + 1] == chordEdges[..i] + [f];
        i := i + 1;
      }
      assert chordEdges[..i] == chordEdges;
    }

    /** From zero increments: every edge gets its weight plus the fall of the potential along it, which
        is nothing on tree edges. */
    method CalculateChordIncrements()
      requires Valid() && forall e | 0 <= e < g.Edges() :: Marks().inc[e] == 0
      modifies edges
      ensures HasChordIncrements(g, treeEdges, depth, Marks().inc)
      ensures Marks().init == old(Marks()).init && Marks().count == old(Marks()).count
    {
      hide Potential, Below, Subtree, HasChordIncrements;
      ghost var m0 := Marks();
      CalculateChordIncrementsDfs(0, g.root, None);
      ghost var m1 := Marks();
      RootReceivesAll(g, treeEdges, depth, chordEdges, m0, m1);
      hide IsSpanningTree, Received, Dag.Ranked;
      var i := 0;
      while i < |chordEdges|
        invariant 0 <= i <= |chordEdges| && Marks().init == m1.init && Marks().count == m1.count
        invariant forall f | 0 <= f < g.Edges() :: Marks().inc[f] == m1.inc[f] + if f in chordEdges[..i]
          then g.weight[f] else 0
      {
        var f := chordEdges[i];
        assert f !in chordEdges[..i];
        SetIncrement(f, edges[f].increment + g.weight[f]);
        assert chordEdges[..i + 1] == chordEdges[..i] + [f];
        i := i + 1;
      }
      assert chordEdges[..i] == chordEdges;
      AllIncrements(g, treeEdges, depth, chordEdges, m1, Marks().inc);
    }

    // ----- grouping -----

    /** f takes over e's increment and initializes the register. */
    method MoveInitialization(e: nat, f: nat)
      requires Valid() && e < |edges| && f < |edges|
      modifies edges[f]
      ensures var m := old(Marks());
        Marks() == InstrumentationDag.Marks(m.inc[f := m.inc[f] + m.inc[e]], m.init[f := true], m.count)
    {
      SetIncrement(f, edges[f].increment + edges[e].increment);
      SetIsInitialization(f, true);
    }

    /** f takes over e's increment and bumps the counter. */
    method MoveCounter(e: nat, f: nat)
      requires Valid() && e < |edges| && f < |edges|
      modifies edges[f]
      ensures var m := old(Marks());
        Marks() == InstrumentationDag.Marks(m.inc[f := m.inc[f] + m.inc[e]], m.init, m.count[f := true])
    {
      SetIncrement(f, edges[f].increment + edges[e].increment);
      SetIsCounterIncrement(f, true);
    }

    /** Pushes e's initialization down to every successor edge, as long as e's target has no other
        predecessor edge and is not the exit. */
    method PushInitializationFromEdge(e: nat)
      requires Valid() && e < g.Edges() && Marks().init[e]
      modifies edges
      ensures Pushed(g, rank, {}, old(Marks()), Marks(), e)
      ensures g.pred[g.target[e]] == [e] && g.target[e] != g.exit ==> !Marks().init[e] && Marks().inc[e] == 0
      ensures InitsStop(g, old(Marks()), Marks(), e)
      decreases g.nodes - rank[g.target[e]], 1
    {
      hide IsSpanningTree, InRegion, PartlyPushed, Pushed, InitsStop;
      ghost var m0 := Marks();
      var target := g.target[e];
      assert e in g.pred[target];
      if |g.pred[target]| > 1 || target == g.exit {
        StopIsPushed(g, rank, {}, m0, e);
        PushedStops(g, rank, m0, m0, e);
        return;
      }
      assert g.pred[target] == [e];
      var i := 0;
      NothingPushed(g, rank, {}, m0, e);
      while i < |g.succ[target]|
        invariant 0 <= i <= |g.succ[target]|
        invariant PartlyPushed(g, rank, {}, m0, Marks(), e, i)
      {
        PushIntoSuccessor(e, i, m0);
        i := i + 1;
      }
      ghost var m := Marks();
      SetIncrement(e, 0);
      SetIsInitialization(e, false);
      LastStep(g, rank, {}, m0, m, Marks(), e);
      PushedStops(g, rank, m0, Marks(), e);
    }

    /** The i-th successor edge takes over e's initialization and pushes it on. */
    method PushIntoSuccessor(e: nat, i: nat, ghost m0: Marks)
      requires Valid() && e < g.Edges() && g.target[e] != g.exit && g.pred[g.target[e]] == [e] &&
        i < |g.succ[g.target[e]]|
      requires PartlyPushed(g, rank, {}, m0, Marks(), e, i)
      modifies edges
      ensures PartlyPushed(g, rank, {}, m0, Marks(), e, i + 1)
      decreases g.nodes - rank[g.target[e]], 0
    {
      hide IsSpanningTree, InRegion, PartlyPushed, Pushed;
      var intoEdge := g.succ[g.target[e]][i];
      ghost var m := Marks();
      assert intoEdge != g.ExitRootEdge();
      MoveInitialization(e, intoEdge);
      ghost var mid := Marks();
      PushInitializationFromEdge(intoEdge);
      NextSuccessor(g, rank, {}, m0, m, mid, Marks(), e, i);
    }

    /** Pushes e's counter up to every predecessor edge, as long as e's source has no other successor
        edge and is not the root, and e does not initialise the register. */
    method PushCountersFromEdge(e: nat, ghost stops: set<nat>)
      requires Valid() && e < g.Edges() && Marks().count[e] && stops == InitEdges(Marks()) && ReverseFits(g, rank)
      modifies edges
      ensures PushedUp(g, rank, stops, old(Marks()), Marks(), e)
      ensures MarksFit(g, Marks()) && Marks().init == old(Marks()).init
      ensures g.succ[g.source[e]] == [e] && g.source[e] != g.root && e !in stops ==>
        !Marks().count[e] && Marks().inc[e] == 0
      ensures CountsStop(g, old(Marks()), Marks(), e)
      decreases rank[g.source[e]], 1
    {
      hide IsSpanningTree, ReverseFits, PushedUp, PartlyPushedUp, CountsStop;
      ghost var m0 := Marks();
      var source := g.source[e];
      assert e in g.succ[source];
      if |g.succ[source]| > 1 || source == g.root || edges[e].isInitialization {
        StopIsPushedUp(g, rank, stops, m0, e);
        PushedUpStops(g, rank, stops, m0, m0, e);
        return;
      }
      assert g.succ[source] == [e];
      PredecessorsRank(g, rank, source);
      var i := 0;
      NothingPushedUp(g, rank, stops, m0, e);
      while i < |g.pred[source]|
        invariant 0 <= i <= |g.pred[source]| && MarksFit(g, Marks()) && Marks().init == m0.init
        invariant PartlyPushedUp(g, rank, stops, m0, Marks(), e, i)
      {
        PushIntoPredecessor(e, i, stops, m0);
        i := i + 1;
      }
      ghost var m := Marks();
      SetIncrement(e, 0);
      SetIsCounterIncrement(e, false);
      LastStepUp(g, rank, stops, m0, m, Marks(), e);
      PushedUpStops(g, rank, stops, m0, Marks(), e);
    }

    /** The i-th predecessor edge takes over e's counter and pushes it on. */
    method PushIntoPredecessor(e: nat, i: nat, ghost stops: set<nat>, ghost m0: Marks)
      requires Valid() && e < g.Edges() && g.source[e] != g.root && g.succ[g.source[e]] == [e] && e !in stops &&
        i < |g.pred[g.source[e]]|
      requires stops == InitEdges(Marks()) && ReverseFits(g, rank) && MarksFit(g, Marks()) &&
        PartlyPushedUp(g, rank, stops, m0, Marks(), e, i)
      modifies edges
      ensures MarksFit(g, Marks()) && Marks().init == old(Marks()).init &&
        PartlyPushedUp(g, rank, stops, m0, Marks(), e, i + 1)
      decreases rank[g.source[e]], 0
    {
      hide IsSpanningTree, ReverseFits, PushedUp, PartlyPushedUp;
      PredecessorsRank(g, rank, g.source[e]);
      var fromEdge := g.pred[g.source[e]][i];
      ghost var m := Marks();
      MoveCounter(e, fromEdge);
      ghost var mid := Marks();
      PushCountersFromEdge(fromEdge, stops);
      NextPredecessor(g, rank, stops, m0, m, mid, Marks(), e, i);
    }

    method PushInitialization()
      requires Valid() && forall e | 0 <= e < g.Edges() :: !Marks().init[e]
      modifies edges
      ensures var e := g.ExitRootEdge();
        var m0 := old(Marks());
        Pushed(g, rank, {}, m0.(init := m0.init[e := true]), Marks(), e) && !Marks().init[e] && Marks().inc[e] == 0
      ensures Marks().count == old(Marks()).count
      ensures forall x | 0 <= x < g.Edges() && Marks().init[x] :: |g.pred[g.target[x]]| > 1 || g.target[x] == g.exit
    {
      hide IsSpanningTree, InRegion;
      var e := g.ExitRootEdge();
      assert e in g.pred[g.root];
      SetIsInitialization(e, true);
      PushInitializationFromEdge(e);
    }

    method PushCounters()
      requires Valid() && !Marks().init[g.ExitRootEdge()]
      modifies edges
      ensures ReverseFits(g, rank) && MarksFit(g, Marks())
      ensures var e := g.ExitRootEdge();
        var m0 := old(Marks());
        && PushedUp(g, rank, InitEdges(m0), m0.(count := m0.count[e := true]), Marks(), e)
        && !Marks().count[e] && Marks().inc[e] == 0
      ensures forall x | 0 <= x < g.Edges() && Marks().count[x] && !old(Marks()).count[x] ::
        |g.succ[g.source[x]]| > 1 || g.source[x] == g.root || Marks().init[x]
      ensures Marks().init == old(Marks()).init
    {
      hide IsSpanningTree, PushedUp;
      ReverseRanked(g, rank);
      ghost var m0 := Marks();
      var e := g.ExitRootEdge();
      assert g.succ[g.exit] == [e];
      SetIsCounterIncrement(e, true);
      assert InitEdges(Marks()) == InitEdges(m0);
      PushCountersFromEdge(e, InitEdges(m0));
    }

    /** The three phases in order. Every path from the root to the exit then has exactly one edge that
        initialises the register and exactly one, at or after it, that bumps a counter; and that
        counter is the one of the sum of the weights on the path (plus the closing edge's weight). Both are pushed as
        far as they go: an initialising edge leads to the exit or to a node with several predecessor edges; a counting
        edge leaves the root or a node with several successor edges, unless it initialises the register as well. */
    method PlaceInstrumentation()
      requires Valid() && forall e | 0 <= e < g.Edges() :: Marks().inc[e] == 0 && !Marks().init[e] && !Marks().count[e]
      modifies edges
      ensures MarksFit(g, Marks())
      ensures MarksEveryPathOnce(g, Marks()) && CountsEverySum(g, Marks())
      ensures forall e | 0 <= e < g.Edges() && Marks().init[e] :: |g.pred[g.target[e]]| > 1 || g.target[e] == g.exit
      ensures forall e | 0 <= e < g.Edges() && Marks().count[e] ::
        |g.succ[g.source[e]]| > 1 || g.source[e] == g.root || Marks().init[e]
    {
      assert g.Shape() && g.Ranked(rank) && IsSpanningTree(g, treeEdges, depth);
      hide IsSpanningTree, InRegion, HasChordIncrements, Potential, Pushed, PushedUp, ReverseFits, Dag.Ranked,
        MarksEveryPathOnce, CountsEverySum, BLInstrumentationDag.Valid;
      CalculateChordIncrements();
      ghost var m0 := Marks();
      PushInitialization();
      ghost var m1 := Marks();
      PushCounters();
      ghost var m2 := Marks();
      EveryPathInstrumented(g, rank, treeEdges, depth, m0, m1, m2);
    }
  }

  /** Where the initialisation of e has gone, it goes no further: the node below has several predecessor edges or is
      the exit. */
  ghost predicate InitsStop(g: Dag, m0: Marks, m: Marks, e: nat)
    requires g.Shape() && MarksFit(g, m0) && MarksFit(g, m)
  {
    forall x | 0 <= x < g.Edges() && m.init[x] && (x == e || !m0.init[x]) ::
      |g.pred[g.target[x]]| > 1 || g.target[x] == g.exit
  }

  /** Where the counter of e has gone, it goes no further: the node above has several successor edges or is the root, or
      the edge initialises the register. */
  ghost predicate CountsStop(g: Dag, m0: Marks, m: Marks, e: nat)
    requires g.Shape() && MarksFit(g, m0) && MarksFit(g, m)
  {
    forall x | 0 <= x < g.Edges() && m.count[x] && (x == e || !m0.count[x]) ::
      |g.succ[g.source[x]]| > 1 || g.source[x] == g.root || m.init[x]
  }

  lemma PushedStops(g: Dag, rank: seq<nat>, m0: Marks, m: Marks, e: nat)
    requires g.Ranked(rank) && e < g.Edges() && Pushed(g, rank, {}, m0, m, e)
    ensures MarksFit(g, m0) && MarksFit(g, m) && InitsStop(g, m0, m, e)
  {
    hide Split, InRegion;
  }

  lemma PushedUpStops(g: Dag, rank: seq<nat>, stops: set<nat>, m0: Marks, m: Marks, e: nat)
    requires g.Ranked(rank) && ReverseFits(g, rank) && e < g.Edges() && MarksFit(g, m0) && MarksFit(g, m)
    requires PushedUp(g, rank, stops, m0, m, e) && stops == InitEdges(m)
    ensures CountsStop(g, m0, m, e)
  {
    hide Split, InRegion;
    var r := Reverse(g);
    forall x | 0 <= x < g.Edges() && m.count[x] && (x == e || !m0.count[x])
      ensures |g.succ[g.source[x]]| > 1 || g.source[x] == g.root || m.init[x]
    {
      assert Exchange(m).init[x] && MayStop(r, stops, x);
    }
  }

  /** Every path from the root to the exit has one initialising edge and one counting edge at or after
      it, and the increments from the first through the second add up to the weights. */
  ghost predicate MarksEveryPathOnce(g: Dag, m: Marks)
    requires g.Shape() && MarksFit(g, m)
  {
    forall p | g.IsRootToExit(p) :: HasOneOfEach(m, p, Sum(g.weight, p) + g.weight[g.ExitRootEdge()])
  }

  /** Running along any path from the root to the exit, whatever the register held before, bumps one
      counter: that of the sum of the weights on the path. */
  ghost predicate CountsEverySum(g: Dag, m: Marks)
    requires g.Shape() && MarksFit(g, m)
  {
    forall p, register: int | g.IsRootToExit(p) ::
      Counted(m, p, register) == [Sum(g.weight, p) + g.weight[g.ExitRootEdge()]]
  }

  lemma EveryPathInstrumented(g: Dag, rank: seq<nat>, tree: seq<nat>, depth: seq<nat>, m0: Marks, m1: Marks, m2: Marks)
    requires g.Ranked(rank) && IsSpanningTree(g, tree, depth) && HasChordIncrements(g, tree, depth, m0.inc)
    requires MarksFit(g, m0) && MarksFit(g, m1) && MarksFit(g, m2)
    requires ReverseFits(g, rank)
    requires var e := g.ExitRootEdge();
      && (forall x | 0 <= x < g.Edges() :: !m0.init[x] && !m0.count[x])
      && Pushed(g, rank, {}, m0.(init := m0.init[e := true]), m1, e)
      && !m1.init[e] && m1.inc[e] == 0
      && PushedUp(g, rank, InitEdges(m1), m1.(count := m1.count[e := true]), m2, e)
      && !m2.count[e] && m2.inc[e] == 0
    ensures MarksEveryPathOnce(g, m2) && CountsEverySum(g, m2)
  {
    hide HasChordIncrements, Pushed, HasOneOfEach, Counted, Sum, IsSpanningTree;
    forall p | g.IsRootToExit(p)
      ensures HasOneOfEach(m2, p, Sum(g.weight, p) + g.weight[g.ExitRootEdge()])
    {
      var a, b := PushedTwice(g, rank, m0, m1, m2, p);
      ClosedSum(g, tree, depth, m0.inc, p);
      Witnessed(m2, p, Sum(g.weight, p) + g.weight[g.ExitRootEdge()], a, b);
    }
    forall p, register: int | g.IsRootToExit(p)
      ensures Counted(m2, p, register) == [Sum(g.weight, p) + g.weight[g.ExitRootEdge()]]
    {
      OneOfEachCounts(m2, p, Sum(g.weight, p) + g.weight[g.ExitRootEdge()], register);
    }
  }

  // ----- pushing counters is pushing marks on the reversed dag -----

  ghost predicate ReverseFits(g: Dag, rank: seq<nat>)
    requires g.Ranked(rank)
  {
    Reverse(g).Ranked(ReverseRank(g, rank)) && Reverse(g).ExitRootEdge() == g.ExitRootEdge()
  }

  ghost predicate PushedUp(g: Dag, rank: seq<nat>, stops: set<nat>, m0: Marks, m: Marks, e: nat)
    requires g.Ranked(rank) && ReverseFits(g, rank) && e < g.Edges()
  {
    Pushed(Reverse(g), ReverseRank(g, rank), stops, Exchange(m0), Exchange(m), e)
  }

  ghost predicate PartlyPushedUp(g: Dag, rank: seq<nat>, stops: set<nat>, m0: Marks, m: Marks, e: nat, i: nat)
    requires g.Ranked(rank) && ReverseFits(g, rank) && e < g.Edges() && i <= |g.pred[g.source[e]]|
  {
    PartlyPushed(Reverse(g), ReverseRank(g, rank), stops, Exchange(m0), Exchange(m), e, i)
  }

  lemma StopIsPushedUp(g: Dag, rank: seq<nat>, stops: set<nat>, m: Marks, e: nat)
    requires g.Ranked(rank) && ReverseFits(g, rank) && e < g.Edges() && MarksFit(g, m) && m.count[e]
    requires |g.succ[g.source[e]]| > 1 || g.source[e] == g.root || e in stops
    ensures PushedUp(g, rank, stops, m, m, e)
  {
    StopIsPushed(Reverse(g), ReverseRank(g, rank), stops, Exchange(m), e);
  }

  lemma NothingPushedUp(g: Dag, rank: seq<nat>, stops: set<nat>, m: Marks, e: nat)
    requires g.Ranked(rank) && ReverseFits(g, rank) && e < g.Edges() && MarksFit(g, m)
    ensures PartlyPushedUp(g, rank, stops, m, m, e, 0)
  {
    NothingPushed(Reverse(g), ReverseRank(g, rank), stops, Exchange(m), e);
  }

  lemma NextPredecessor(g: Dag, rank: seq<nat>, stops: set<nat>, m0: Marks, m: Marks, mid: Marks, m1: Marks, e: nat,
                        i: nat)
    requires g.Ranked(rank) && ReverseFits(g, rank) && MarksFit(g, m)
    requires e < g.Edges() && g.source[e] != g.root && g.succ[g.source[e]] == [e] && e !in stops
    requires i < |g.pred[g.source[e]]| && PartlyPushedUp(g, rank, stops, m0, m, e, i)
    requires var f := g.pred[g.source[e]][i];
      mid == Marks(m.inc[f := m.inc[f] + m.inc[e]], m.init, m.count[f := true]) && PushedUp(g, rank, stops, mid, m1, f)
    ensures PartlyPushedUp(g, rank, stops, m0, m1, e, i + 1)
  {
    hide PartlyPushed, Pushed;
    NextSuccessor(Reverse(g), ReverseRank(g, rank), stops, Exchange(m0), Exchange(m), Exchange(mid), Exchange(m1), e,
      i);
  }

  lemma LastStepUp(g: Dag, rank: seq<nat>, stops: set<nat>, m0: Marks, m: Marks, m1: Marks, e: nat)
    requires g.Ranked(rank) && ReverseFits(g, rank) && MarksFit(g, m)
    requires e < g.Edges() && g.source[e] != g.root && g.succ[g.source[e]] == [e] && e !in stops
    requires PartlyPushedUp(g, rank, stops, m0, m, e, |g.pred[g.source[e]]|)
    requires m1 == Marks(m.inc[e := 0], m.init, m.count[e := false])
    ensures PushedUp(g, rank, stops, m0, m1, e)
  {
    hide PartlyPushed, Pushed;
    LastStep(Reverse(g), ReverseRank(g, rank), stops, Exchange(m0), Exchange(m), Exchange(m1), e);
  }

  /** The predecessor edges of a node other than the root come from lower ranks. */
  lemma PredecessorsRank(g: Dag, rank: seq<nat>, v: nat)
    requires g.Ranked(rank) && v < g.nodes && v != g.root
    ensures |g.pred| == g.nodes && forall i | 0 <= i < |g.pred[v]| ::
      g.pred[v][i] < g.Edges() && g.source[g.pred[v][i]] < g.nodes && rank[g.source[g.pred[v][i]]] < rank[v]
  {
  }

  ghost predicate HasOneOfEach(m: Marks, p: seq<nat>, total: int)
    requires |m.init| == |m.inc| && |m.count| == |m.inc| && forall i | 0 <= i < |p| :: p[i] < |m.inc|
  {
    exists a: nat, b: nat :: Instrumented(m, p, total, a, b)
  }

  lemma NothingPushed(g: Dag, rank: seq<nat>, stops: set<nat>, m: Marks, e: nat)
    requires g.Ranked(rank) && e < g.Edges() && MarksFit(g, m)
    ensures PartlyPushed(g, rank, stops, m, m, e, 0)
  {
  }

  /** The increments on the closed walk of a path add up to the weights. */
  lemma ClosedSum(g: Dag, tree: seq<nat>, depth: seq<nat>, inc: seq<int>, p: seq<nat>)
    requires g.Shape() && IsSpanningTree(g, tree, depth) && HasChordIncrements(g, tree, depth, inc) && g.IsRootToExit(p)
    ensures Sum(inc, [g.ExitRootEdge()] + p) == Sum(g.weight, p) + g.weight[g.ExitRootEdge()]
  {
    var q := [g.ExitRootEdge()] + p;
    ClosedFromExit(g, p);
    assert q[|q| - 1] == p[|p| - 1];
    ClosedWalkSum(g, tree, depth, inc, q);
    assert q[1..] == p;
  }

  lemma {:induction false} NoMarksNoCount(m: Marks, p: seq<nat>, register: int)
    requires |m.init| == |m.inc| && |m.count| == |m.inc| && forall i | 0 <= i < |p| :: p[i] < |m.inc|
    requires forall j | 0 <= j < |p| :: !m.count[p[j]]
    ensures Counted(m, p, register) == []
  {
    if p != [] {
      NoMarksNoCount(m, p[1..], if m.init[p[0]] then m.inc[p[0]] else register + m.inc[p[0]]);
    }
  }

  lemma {:induction false} CountedAt(m: Marks, p: seq<nat>, b: nat, register: int)
    requires |m.init| == |m.inc| && |m.count| == |m.inc| && forall i | 0 <= i < |p| :: p[i] < |m.inc|
    requires b < |p| && (forall j | 0 <= j < |p| :: m.count[p[j]] <==> j == b) &&
      (forall j | 0 <= j < |p| :: !m.init[p[j]])
    ensures Counted(m, p, register) == [register + Sum(m.inc, p[..b + 1])]
  {
    var r := register + m.inc[p[0]];
    assert p[..b + 1][1..] == p[1..][..b];
    if b == 0 {
      NoMarksNoCount(m, p[1..], r);
    } else {
      CountedAt(m, p[1..], b - 1, r);
    }
  }

  /** Running along an instrumented path bumps exactly the counter of its total, whatever the register
      held before. */
  lemma {:induction false} InstrumentedCounts(m: Marks, p: seq<nat>, total: int, a: nat, b: nat, register: int)
    requires |m.init| == |m.inc| && |m.count| == |m.inc| && forall i | 0 <= i < |p| :: p[i] < |m.inc|
    requires Instrumented(m, p, total, a, b)
    ensures Counted(m, p, register) == [total]
  {
    var q := p[1..];
    forall j | 0 <= j < |q|
      ensures q[j] == p[j + 1]
    {
    }
    if a > 0 {
      assert q[a - 1..b] == p[a..b + 1];
      InstrumentedCounts(m, q, total, a - 1, b - 1, register + m.inc[p[0]]);
    } else {
      var r := m.inc[p[0]];
      assert p[0..b + 1] == p[..b + 1] && p[..b + 1][1..] == q[..b];
      assert Sum(m.inc, p[..b + 1]) == m.inc[p[0]] + Sum(m.inc, q[..b]);
      if b == 0 {
        NoMarksNoCount(m, q, r);
      } else {
        CountedAt(m, q, b - 1, r);
      }
    }
  }

  lemma Witnessed(m: Marks, p: seq<nat>, total: int, a: nat, b: nat)
    requires |m.init| == |m.inc| && |m.count| == |m.inc| && forall i | 0 <= i < |p| :: p[i] < |m.inc|
    requires Instrumented(m, p, total, a, b)
    ensures HasOneOfEach(m, p, total)
  {
  }

  lemma OneOfEachCounts(m: Marks, p: seq<nat>, total: int, register: int)
    requires |m.init| == |m.inc| && |m.count| == |m.inc| && forall i | 0 <= i < |p| :: p[i] < |m.inc|
    requires HasOneOfEach(m, p, total)
    ensures Counted(m, p, register) == [total]
  {
    var a: nat, b: nat :| Instrumented(m, p, total, a, b);
    InstrumentedCounts(m, p, total, a, b, register);
  }

  lemma NothingReceived(g: Dag, tree: seq<nat>, depth: seq<nat>, chords: seq<nat>, m: Marks, v: nat)
    requires IsSpanningTree(g, tree, depth) && MarksFit(g, m)
    ensures ChildSubtrees(g, tree, depth, v, 0) == {} && Received(g, tree, depth, chords, m, m, {})
  {
  }

  /** A tree edge at v that is not the one the walk arrived along leads down. */
  lemma OnlyDown(g: Dag, tree: seq<nat>, depth: seq<nat>, v: nat, e: Option<nat>, f: nat)
    requires IsSpanningTree(g, tree, depth) && v < g.nodes && f in tree
    requires e.None? ==> v == g.root
    requires e.Some? ==> e.value in tree && Lower(g, depth, e.value) == v
    ensures Upper(g, depth, f) == v <==> e != Some(f) && (g.source[f] == v || g.target[f] == v)
    ensures g.source[f] != g.target[f]
    ensures Upper(g, depth, f) == v ==> Lower(g, depth, f) == (if g.source[f] == v then g.target[f] else g.source[f])
    ensures Upper(g, depth, f) == v ==> depth[Lower(g, depth, f)] == depth[v] + 1
  {
    ParentEdgeUnique(g, tree, depth, f);
    if e.Some? {
      ParentEdgeUnique(g, tree, depth, e.value);
    }
  }

  ghost function PotentialFall(g: Dag, tree: seq<nat>, depth: seq<nat>, f: nat): int
    requires IsSpanningTree(g, tree, depth) && f < g.Edges()
  {
    Potential(g, tree, depth, g.source[f]) - Potential(g, tree, depth, g.target[f])
  }

  lemma RootReceivesAll(g: Dag, tree: seq<nat>, depth: seq<nat>, chords: seq<nat>, m0: Marks, m1: Marks)
    requires IsSpanningTree(g, tree, depth)
    requires Received(g, tree, depth, chords, m0, m1, Subtree(g, tree, depth, g.root))
    requires forall e | 0 <= e < g.Edges() :: m0.inc[e] == 0
    ensures forall f | 0 <= f < g.Edges() :: m1.inc[f] == if f in chords then PotentialFall(g, tree, depth, f) else 0
  {
    forall u: nat | u < g.nodes
      ensures u in Subtree(g, tree, depth, g.root)
    {
      AllBelowRoot(g, tree, depth, u);
    }
    hide Potential, Below;
  }

  lemma AllIncrements(g: Dag, tree: seq<nat>, depth: seq<nat>, chords: seq<nat>, m1: Marks, inc: seq<int>)
    requires IsSpanningTree(g, tree, depth) && MarksFit(g, m1) && |inc| == g.Edges()
    requires forall e | 0 <= e < g.Edges() :: e in tree <==> e !in chords
    requires forall f | 0 <= f < g.Edges() :: m1.inc[f] == if f in chords then PotentialFall(g, tree, depth, f) else 0
    requires forall f | 0 <= f < g.Edges() :: inc[f] == m1.inc[f] + if f in chords then g.weight[f] else 0
    ensures HasChordIncrements(g, tree, depth, inc)
  {
    hide Potential;
    forall e | 0 <= e < g.Edges()
      ensures inc[e] == g.weight[e] + Potential(g, tree, depth, g.source[e]) - Potential(g, tree, depth, g.target[e])
    {
      if e in tree {
        TreeEdgePotential(g, tree, depth, e);
      }
    }
  }
}
