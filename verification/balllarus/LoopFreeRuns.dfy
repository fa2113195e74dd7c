/** BallLarusProfiler and GeneratePath from end to end: the abstract graph of a program is built, numbered and
    instrumented, a run without loops is recorded, and the record is decoded. */
module LoopFreeRuns {
  import opened PathCounts
  import opened PathNumbering
  import opened SpanningTrees
  import opened Forests
  import opened IncValues
  import opened ChordCounter
  import opened Decodability
  import opened AbstractGraph
  import opened WalkSplitting

  /** The entry reaches every block of the function. */
  ghost predicate NoDeadBlocks(f: CFG) {
    forall b: nat | b < |f.succ| :: IsReached(CfgShape(f), 0, b)
  }

  /** The abstract graph before it is numbered. */
  function Unnumbered(f: CFG): Adjacency {
    map b: nat | b < |f.succ| :: AbstractEdges(f, b)
  }

  /** Its branches that are not the first of their block make up no cycle, and none of them leads straight from the
      entry to the exit. */
  ghost predicate IsDecodable(f: CFG) {
    var closed := WithClosingEdge(Unnumbered(f), 0, f.exit);
    IsForest(closed, LaterEdges(closed)) && NoLaterShortcut(Unnumbered(f), 0, f.exit)
  }

  ghost function NumPaths(f: CFG, region: set<nat>, rank: nat -> nat): nat
    requires IsCfg(f, region, rank)
  {
    AbstractIsDag(f, region, rank);
    PathCount(AbstractShape(f), region, AbstractRank(f, rank), 0)
  }

  // ----- reaching blocks -----

  /** Back edges lead to the exit in the abstract graph, but their headers follow the entry. */
  lemma {:induction false} ReachedFrom(f: CFG, region: set<nat>, rank: nat -> nat, u: nat, cur: seq<nat>, w: seq<nat>)
    requires IsCfg(f, region, rank) && u in region && IsWalk(CfgShape(f), u, w)
    requires IsWalk(AbstractShape(f), 0, cur) && End(AbstractShape(f), 0, cur) == u
    ensures IsReached(AbstractShape(f), 0, End(CfgShape(f), u, w))
    decreases |w|
  {
    hide IsCfg, AbstractShape, CfgShape, SuccOf, IsBack, HeaderIndex, Blocks;
    if w != [] {
      var i := w[0];
      SuccOfCfg(f, u);
      RunStep(f, region, rank, u, cur, i);
      var next := cur + [i];
      if IsBack(f, u, i) {
        RestartAtHeader(f, region, rank, u, i);
        next := [HeaderIndex(f, u, i)];
      }
      ReachedFrom(f, region, rank, SuccOf(f, u)[i], next, w[1..]);
    }
  }

  /** Every block is reached in the abstract graph, and lies in any closed set of blocks that holds the entry. */
  lemma BlocksReached(f: CFG, region: set<nat>, rank: nat -> nat, reached: set<nat>)
    requires IsCfg(f, region, rank) && NoDeadBlocks(f)
    requires 0 in reached && IsDag(AbstractShape(f), reached, AbstractRank(f, rank))
    ensures forall b: nat | b < |f.succ| :: IsReached(AbstractShape(f), 0, b) && b in reached
  {
    CfgStarts(f, region, rank);
    hide IsCfg, AbstractShape, CfgShape, AbstractRank, IsDag;
    forall b: nat | b < |f.succ|
      ensures IsReached(AbstractShape(f), 0, b) && b in reached
    {
      assert IsReached(CfgShape(f), 0, b);
      var w :| IsWalk(CfgShape(f), 0, w) && End(CfgShape(f), 0, w) == b;
      ReachedFrom(f, region, rank, 0, [], w);
      var p :| IsWalk(AbstractShape(f), 0, p) && End(AbstractShape(f), 0, p) == b;
      WalkStaysInRegion(AbstractShape(f), reached, AbstractRank(f, rank), 0, p);
    }
  }

  /** A walk from the entry is also a walk in the graph taken as undirected. */
  lemma {:induction false} WalkConnects(g: Adjacency, t: Shape, entry: nat, exit: nat, u: nat, p: seq<nat>)
    requires HasShape(g, t) && IsWalk(t, u, p)
    ensures Connects(WithClosingEdge(g, entry, exit), AllEdges(WithClosingEdge(g, entry, exit)), u, End(t, u, p))
    decreases |p|
  {
    hide WithClosingEdge, HasShape, Connects;
    var gc := WithClosingEdge(g, entry, exit);
    if p == [] {
      ConnectsSelf(gc, AllEdges(gc), u);
    } else {
      EdgeOnPath(g, t, entry, exit, u, p[0]);
      ConnectsAlong(gc, AllEdges(gc), (u, p[0]));
      WalkConnects(g, t, entry, exit, Succ(t, u)[p[0]], p[1..]);
      ConnectsThrough(gc, AllEdges(gc), u, Succ(t, u)[p[0]], End(t, u, p));
    }
  }

  lemma ReachedConnects(g: Adjacency, t: Shape, entry: nat, exit: nat)
    requires HasShape(g, t) && exit in g && forall b | b in g :: IsReached(t, entry, b)
    ensures Connected(WithClosingEdge(g, entry, exit), AllEdges(WithClosingEdge(g, entry, exit)))
  {
    hide HasShape, Connects, AllEdges;
    var gc := WithClosingEdge(g, entry, exit);
    var s := AllEdges(gc);
    forall a, b | a in gc && b in gc
      ensures Connects(gc, s, a, b)
    {
      var p :| IsWalk(t, entry, p) && End(t, entry, p) == a;
      var q :| IsWalk(t, entry, q) && End(t, entry, q) == b;
      WalkConnects(g, t, entry, exit, entry, p);
      WalkConnects(g, t, entry, exit, entry, q);
      ConnectsBack(gc, s, entry, a);
      ConnectsThrough(gc, s, a, entry, b);
    }
  }

  // ----- the numbering does not change the edges -----

  ghost predicate SameEdges(g: Adjacency, g': Adjacency) {
    forall e: EdgeId :: (IsEdge(g, e) <==> IsEdge(g', e)) && (IsEdge(g, e) ==> Head(g, e) == Head(g', e))
  }

  lemma {:induction false} SameWalks(g: Adjacency, g': Adjacency, s: set<EdgeId>, a: nat, w: seq<EdgeId>, b: nat)
    requires SameEdges(g, g')
    ensures Leads(g, s, a, w, b) == Leads(g', s, a, w, b)
    decreases |w|
  {
    if w != [] {
      assert IsEdge(g, w[0]) <==> IsEdge(g', w[0]);
      if IsEdge(g, w[0]) {
        SameWalks(g, g', s, Other(g, w[0], a), w[1..], b);
      }
    }
  }

  lemma SameForest(g: Adjacency, g': Adjacency, s: set<EdgeId>)
    requires SameEdges(g, g')
    ensures IsForest(g, s) <==> IsForest(g', s)
  {
    hide Leads, SameEdges;
    forall a, w
      ensures IsTrail(g, s, a, w, a) == IsTrail(g', s, a, w, a)
    {
      SameWalks(g, g', s, a, w, a);
    }
  }

  lemma SameLater(g: Adjacency, g': Adjacency)
    requires SameEdges(g, g')
    ensures LaterEdges(g) == LaterEdges(g')
  {
    assert forall e: EdgeId :: e in AllEdges(g) <==> IsEdge(g, e);
    assert forall e: EdgeId :: e in AllEdges(g') <==> IsEdge(g', e);
  }

  lemma SameSimple(g: Adjacency, g': Adjacency)
    requires SameEdges(g, g') && Simple(g)
    ensures Simple(g')
  {
    forall e: EdgeId, f: EdgeId | IsEdge(g', e) && IsEdge(g', f) && SameEnds(g', e, f)
      ensures e == f
    {
      assert IsEdge(g, e) && IsEdge(g, f) && SameEnds(g, e, f);
    }
  }

  predicate SameTargets(g: Adjacency, g': Adjacency, b: nat) {
    |Out(g, b)| == |Out(g', b)| && forall i | 0 <= i < |Out(g, b)| :: Out(g, b)[i].to == Out(g', b)[i].to
  }

  lemma UnnumberedTargets(f: CFG, g: Adjacency, b: nat)
    requires HasShape(g, AbstractShape(f))
    ensures SameTargets(Unnumbered(f), g, b)
  {
    hide AbstractEdges;
    assert HasShapeAt(g, AbstractShape(f), b);
  }

  lemma CloseBoth(g: Adjacency, g': Adjacency, entry: nat, exit: nat)
    requires forall b: nat :: SameTargets(g, g', b)
    ensures SameEdges(WithClosingEdge(g, entry, exit), WithClosingEdge(g', entry, exit))
  {
    forall e: EdgeId
      ensures var gc, gc' := WithClosingEdge(g, entry, exit), WithClosingEdge(g', entry, exit);
        (IsEdge(gc, e) <==> IsEdge(gc', e)) && (IsEdge(gc, e) ==> Head(gc, e) == Head(gc', e))
    {
      assert SameTargets(g, g', e.0);
    }
  }

  /** What only depends on where edges lead holds of both graphs or of neither. */
  lemma SameConditions(g: Adjacency, g': Adjacency, entry: nat, exit: nat)
    requires forall b: nat :: SameTargets(g, g', b)
    ensures SameEdges(g, g') && SameEdges(WithClosingEdge(g, entry, exit), WithClosingEdge(g', entry, exit))
    ensures NoLaterShortcut(g, entry, exit) <==> NoLaterShortcut(g', entry, exit)
  {
    forall e: EdgeId
      ensures (IsEdge(g, e) <==> IsEdge(g', e)) && (IsEdge(g, e) ==> Head(g, e) == Head(g', e))
    {
      assert SameTargets(g, g', e.0);
    }
    CloseBoth(g, g', entry, exit);
    forall i: nat
      ensures IsShortcut(g, entry, exit, i) <==> IsShortcut(g', entry, exit, i)
    {
      assert SameTargets(g, g', entry);
    }
  }

  // ----- the graph that is instrumented -----

  /** What NumberProgram leaves is a numbered graph of which the entry reaches every block. */
  lemma NumberedProgram(f: CFG, region: set<nat>, rank: nat -> nat, reached: set<nat>, g: Adjacency)
    requires IsCfg(f, region, rank) && NoDeadBlocks(f)
    requires 0 in reached && reached <= region && IsDag(AbstractShape(f), region, AbstractRank(f, rank))
    requires IsDag(AbstractShape(f), reached, AbstractRank(f, rank))
    requires PathCount(AbstractShape(f), region, AbstractRank(f, rank), 0) <= INT32_MAX
    requires HasShape(g, AbstractShape(f)) && Numbered(g, AbstractShape(f), reached, AbstractRank(f, rank))
    requires reached <= g.Keys && forall b | b in g :: b < |f.succ|
    ensures IsNumbered(g, AbstractShape(f), reached, AbstractRank(f, rank), 0, f.exit) &&
      AllReached(g, AbstractShape(f), 0)
    ensures var gc := WithClosingEdge(g, 0, f.exit); WellNumbered(gc) && Closed(gc) && Connected(gc, AllEdges(gc))
  {
    hide *;
    var t, r := AbstractShape(f), AbstractRank(f, rank);
    CfgBlocks(f, region, rank);
    AbstractIsDag(f, region, rank);
    BlocksReached(f, region, rank, reached);
    SameCounts(t, region, reached, r, 0);
    assert g.Keys == reached;
    ReachedIsNumbered(g, t, reached, r, 0, f.exit);
    ReachedConnects(g, t, 0, f.exit);
    ClosedIsWell(g, t, reached, r, 0, f.exit);
  }

  lemma CfgBlocks(f: CFG, region: set<nat>, rank: nat -> nat)
    requires IsCfg(f, region, rank)
    ensures f.exit < |f.succ| && forall b | b in region :: b < |f.succ|
  {
  }

  lemma ReachedIsNumbered(g: Adjacency, t: Shape, region: set<nat>, rank: nat -> nat, entry: nat, exit: nat)
    requires IsDag(t, region, rank) && HasShape(g, t) && Numbered(g, t, region, rank)
    requires entry in region && exit in region && (forall u | u in region :: Succ(t, u) == [] <==> u == exit)
    requires PathCount(t, region, rank, entry) <= INT32_MAX
    requires forall b | b in g :: IsReached(t, entry, b)
    ensures IsNumbered(g, t, region, rank, entry, exit) && AllReached(g, t, entry)
  {
    hide IsDag, HasShape, Numbered, PathCount, IsReached;
  }

  lemma ClosedIsWell(g: Adjacency, t: Shape, region: set<nat>, rank: nat -> nat, entry: nat, exit: nat)
    requires IsDag(t, region, rank) && HasShape(g, t) && Numbered(g, t, region, rank)
    requires entry in region && exit in region && Succ(t, exit) == [] && g.Keys == region
    ensures WellNumbered(WithClosingEdge(g, entry, exit)) && Closed(WithClosingEdge(g, entry, exit))
  {
    var gc := WithClosingEdge(g, entry, exit);
    forall e: EdgeId | IsEdge(gc, e)
      ensures gc[e.0][e.1].from == e.0 && Val(gc, e) > INT_MIN && Head(gc, e) in gc
    {
      assert HasShapeAt(g, t, e.0);
      EdgeOfClosed(g, t, entry, exit, e);
      if e.0 != exit {
        ValNotNegative(g, t, region, rank, e.0, e.1);
      }
    }
  }

  /** On the instrumented graph of a decodable program all paths decode; without parallel edges, of no other. */
  lemma ProgramDecodes(f: CFG, g: Adjacency, region: set<nat>, rank: nat -> nat, g': Adjacency, inc: IncTable,
                       w: Growth)
    requires IsNumbered(g, AbstractShape(f), region, rank, 0, f.exit) && AllReached(g, AbstractShape(f), 0)
    requires IncrementsOk(WithClosingEdge(g, 0, f.exit), g', inc, w)
    requires IsSpanningTree(WithClosingEdge(g, 0, f.exit), TreeOf(w))
    requires IsHeaviest(WithClosingEdge(g, 0, f.exit), TreeOf(w))
    ensures IsDecodable(f) ==> AllRunsDecode(g', g, AbstractShape(f), region, rank, 0, f.exit)
    ensures Simple(Unnumbered(f)) && AllRunsDecode(g', g, AbstractShape(f), region, rank, 0, f.exit) ==> IsDecodable(f)
  {
    hide Unnumbered, WithClosingEdge, AbstractShape, HasShape, AllRunsDecode, IsForest, LaterEdges, SameEdges,
      IncrementsOk, SameTargets, NoLaterShortcut, Simple;
    var g0 := Unnumbered(f);
    var closed0, closed := WithClosingEdge(g0, 0, f.exit), WithClosingEdge(g, 0, f.exit);
    forall b: nat
      ensures SameTargets(g0, g, b)
    {
      UnnumberedTargets(f, g, b);
    }
    SameConditions(g0, g, 0, f.exit);
    if Simple(g0) {
      SameSimple(g0, g);
    }
    SameLater(closed0, closed);
    SameForest(closed0, closed, LaterEdges(closed));
    AllRunsDecodeIffForest(g, AbstractShape(f), region, rank, 0, f.exit, g', inc, w);
  }

  // ----- a run without loops -----

  /** A run that takes no back edge is one path of the abstract graph, through the same blocks. */
  lemma LoopFreeRun(f: CFG, region: set<nat>, rank: nat -> nat, w: seq<nat>)
    requires IsCfg(f, region, rank) && IsRun(f, w) && BackSteps(f, 0, w) == 0
    ensures IsComplete(AbstractShape(f), 0, w) && Blocks(AbstractShape(f), 0, w) == Blocks(CfgShape(f), 0, w)
  {
    hide IsCfg, AbstractShape, CfgShape, Blocks, Glue, BlocksOfAll, Split, IsComplete;
    RunSplits(f, region, rank, w);
    RunIsGlued(f, region, rank, w);
    NoSplit(f, 0, [], w);
    assert [] + w == w;
    GlueOne(AbstractShape(f), w);
    assert IsComplete(AbstractShape(f), 0, [w][0]);
  }

  lemma {:induction false} NoSplit(f: CFG, u: nat, cur: seq<nat>, w: seq<nat>)
    requires IsWalk(CfgShape(f), u, w) && BackSteps(f, u, w) == 0
    ensures Split(f, u, cur, w) == [cur + w]
    decreases |w|
  {
    if w == [] {
      assert cur + w == cur;
    } else {
      NoSplit(f, SuccOf(f, u)[w[0]], cur + [w[0]], w[1..]);
      assert cur + [w[0]] + w[1..] == cur + w;
    }
  }

  /** Builds, numbers and instruments the abstract graph, makes the run and decodes what it recorded. If the program is
      decodable, the blocks of the run come out. */
  method ProfileRun(f: CFG, w: seq<nat>, ghost region: set<nat>, ghost rank: nat -> nat) returns (path: seq<nat>)
    requires IsCfg(f, region, rank) && NoDeadBlocks(f)
    requires NumPaths(f, region, rank) <= INT32_MAX
    requires IsRun(f, w) && BackSteps(f, 0, w) == 0
    ensures IsDecodable(f) ==> path == Blocks(CfgShape(f), 0, w)
  {
    hide IsDag, PathCount, Numbered, AbstractShape, HasShape, RunsAreTold, NoDeadBlocks, Unnumbered, IsComplete;
    hide WellNumbered, Closed, Connected, Simple, IsSpanningTree, IsGreedy, IncrementsOk, IsNumbered, WithClosingEdge;
    hide IsDecodable, ShortcutVal;
    ghost var t, r := AbstractShape(f), AbstractRank(f, rank);
    ghost var reached, tree;
    var graph, inc;
    graph, reached := NumberProgram(f, region, rank);
    ghost var g := graph.G;
    NumberedProgram(f, region, rank, reached, g);
    inc, tree := GetIncValues(graph, 0, f.exit);
    LoopFreeRun(f, region, rank, w);
    ProgramDecodes(f, g, reached, r, graph.G, inc, tree);
    path := RecordAndDecode(graph.G, AbstractShape(f), 0, f.exit, w, g, reached, r, inc, tree);
  }
}
