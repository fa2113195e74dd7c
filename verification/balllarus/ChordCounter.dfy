/** What the instrumented program records on a loop-free run, and when the record decodes to the run:
    chord placement in BallLarusProfiler::run, counter in BallLarusProfiler/pathProfiler.cpp. */
module ChordCounter {
  import opened PathCounts
  import opened PathNumbering
  import opened SpanningTrees
  import opened IncValues
  import opened GeneratePath

  /** At most one edge joins any two blocks. */
  ghost predicate Simple(g: Adjacency) {
    forall e: EdgeId, f: EdgeId | IsEdge(g, e) && IsEdge(g, f) && SameEnds(g, e, f) :: e == f
  }

  /** The numbered graph before it is closed: without edges at the exit, and with edges at every other block
      the entry reaches. */
  ghost predicate IsNumbered(g: Adjacency, t: Shape, region: set<nat>, rank: nat -> nat, entry: nat, exit: nat) {
    && IsDag(t, region, rank) && HasShape(g, t) && Numbered(g, t, region, rank)
    && entry in region && exit in region && (forall u | u in region :: Succ(t, u) == [] <==> u == exit)
    && PathCount(t, region, rank, entry) <= INT32_MAX
  }

  // ----- the instrumented run -----

  /** A chord adds its increment to the 32-bit register. */
  function CrossEdge(g': Adjacency, e: EdgeId, r: int): int {
    if IsEdge(g', e) && g'[e.0][e.1].chordEdge then ToInt32(r + g'[e.0][e.1].inc) else r
  }

  function Register(g': Adjacency, t: Shape, u: nat, p: seq<nat>, r: int): int
    requires IsWalk(t, u, p)
    decreases |p|
  {
    if p == [] then r else Register(g', t, Succ(t, u)[p[0]], p[1..], CrossEdge(g', (u, p[0]), r))
  }

  /** What is passed to counter at the end of the exit block: the chord that closes the graph, if it is one,
      was instrumented there. */
  function CounterAtExit(g': Adjacency, t: Shape, entry: nat, exit: nat, p: seq<nat>): int
    requires IsWalk(t, entry, p)
  {
    CrossEdge(g', (exit, 0), Register(g', t, entry, p, 0))
  }

  /** counter stores the absolute value. */
  function Recorded(n: int): int {
    if n < 0 then -n else n
  }

  // ----- tree values and chord values along a path -----

  function TreeVals(g: Adjacency, t: Shape, tree: set<EdgeId>, u: nat, p: seq<nat>): int
    requires IsWalk(t, u, p) && HasShape(g, t)
    decreases |p|
  {
    if p == [] then 0
    else
      assert HasShapeAt(g, t, u);
      (if (u, p[0]) in tree then Out(g, u)[p[0]].val else 0) + TreeVals(g, t, tree, Succ(t, u)[p[0]], p[1..])
  }

  function ChordVals(g: Adjacency, t: Shape, tree: set<EdgeId>, u: nat, p: seq<nat>): int
    requires IsWalk(t, u, p) && HasShape(g, t)
    decreases |p|
  {
    if p == [] then 0
    else
      assert HasShapeAt(g, t, u);
      (if (u, p[0]) in tree then 0 else Out(g, u)[p[0]].val) + ChordVals(g, t, tree, Succ(t, u)[p[0]], p[1..])
  }

  /** The j-th edge of a block is in the tree and leads to the same block as the i-th. */
  predicate IsTwin(t: Shape, tree: set<EdgeId>, u: nat, i: nat, j: nat) {
    i < |Succ(t, u)| && j < |Succ(t, u)| && Succ(t, u)[j] == Succ(t, u)[i] && (u, j) in tree
  }

  ghost predicate HasTwin(t: Shape, tree: set<EdgeId>, u: nat, i: nat) {
    exists j: nat :: IsTwin(t, tree, u, i, j)
  }

  /** The value of the tree edge that joins the same blocks, which the run counts instead of the edge it takes. */
  ghost function JoinedVal(g: Adjacency, t: Shape, tree: set<EdgeId>, u: nat, i: nat): int
    requires HasShape(g, t) && i < |Succ(t, u)|
  {
    assert HasShapeAt(g, t, u);
    if HasTwin(t, tree, u, i) then
      var j: nat :| IsTwin(t, tree, u, i, j);
      Out(g, u)[j].val
    else 0
  }

  ghost function JoinedVals(g: Adjacency, t: Shape, tree: set<EdgeId>, u: nat, p: seq<nat>): int
    requires IsWalk(t, u, p) && HasShape(g, t)
    decreases |p|
  {
    if p == [] then 0 else JoinedVal(g, t, tree, u, p[0]) + JoinedVals(g, t, tree, Succ(t, u)[p[0]], p[1..])
  }

  lemma TwinEdge(g: Adjacency, t: Shape, tree: set<EdgeId>, u: nat, i: nat) returns (j: nat)
    requires HasShape(g, t) && HasTwin(t, tree, u, i)
    ensures IsTwin(t, tree, u, i, j) && |Out(g, u)| == |Succ(t, u)| && JoinedVal(g, t, tree, u, i) == Out(g, u)[j].val
  {
    assert HasShapeAt(g, t, u);
    j :| IsTwin(t, tree, u, i, j) && JoinedVal(g, t, tree, u, i) == Out(g, u)[j].val;
  }

  /** With at most one edge between two blocks, the tree edge that joins the same blocks is the edge itself. */
  lemma {:induction false} JoinedIsTree(g: Adjacency, t: Shape, tree: set<EdgeId>, u: nat, p: seq<nat>)
    requires HasShape(g, t) && Simple(g) && IsWalk(t, u, p)
    ensures JoinedVals(g, t, tree, u, p) == TreeVals(g, t, tree, u, p)
    decreases |p|
  {
    hide Simple, HasShape, JoinedVal;
    if p != [] {
      JoinedIsTree(g, t, tree, Succ(t, u)[p[0]], p[1..]);
      JoinedIsOwn(g, t, tree, u, p[0]);
    }
  }

  lemma JoinedIsOwn(g: Adjacency, t: Shape, tree: set<EdgeId>, u: nat, i: nat)
    requires HasShape(g, t) && Simple(g) && i < |Succ(t, u)|
    ensures |Out(g, u)| == |Succ(t, u)|
    ensures JoinedVal(g, t, tree, u, i) == if (u, i) in tree then Out(g, u)[i].val else 0
  {
    assert HasShapeAt(g, t, u);
    if HasTwin(t, tree, u, i) {
      var j := TwinEdge(g, t, tree, u, i);
      SameTarget(g, t, u, i, j);
    } else {
      assert !IsTwin(t, tree, u, i, i);
    }
  }

  /** The path through the same blocks that takes the tree edge wherever there is one. */
  lemma {:induction false} TwinPath(g: Adjacency, t: Shape, region: set<nat>, rank: nat -> nat, tree: set<EdgeId>,
                                    u: nat,
                                    p: seq<nat>)
    returns (q: seq<nat>)
    requires IsDag(t, region, rank) && HasShape(g, t) && Numbered(g, t, region, rank) && u in region && IsWalk(t, u, p)
    ensures IsWalk(t, u, q) && End(t, u, q) == End(t, u, p) && Blocks(t, u, q) == Blocks(t, u, p)
    ensures 0 <= JoinedVals(g, t, tree, u, p) <= PathSum(g, t, u, q)
    ensures ChordVals(g, t, tree, u, q) == 0 ==> PathSum(g, t, u, q) == JoinedVals(g, t, tree, u, p)
    decreases |p|
  {
    hide HasShape, Numbered, JoinedVal, HasTwin, IsDag;
    if p == [] {
      q := [];
    } else {
      ValNotNegative(g, t, region, rank, u, p[0]);
      var v := Succ(t, u)[p[0]];
      var rest := TwinPath(g, t, region, rank, tree, v, p[1..]);
      ValsSplit(g, t, region, rank, tree, v, rest);
      var j := TwinOrSelf(g, t, tree, u, p[0]);
      ValNotNegative(g, t, region, rank, u, j);
      q := [j] + rest;
      assert q[1..] == rest;
    }
  }

  lemma TwinOrSelf(g: Adjacency, t: Shape, tree: set<EdgeId>, u: nat, i: nat) returns (j: nat)
    requires HasShape(g, t) && i < |Succ(t, u)|
    ensures j < |Succ(t, u)| && Succ(t, u)[j] == Succ(t, u)[i] && |Out(g, u)| == |Succ(t, u)|
    ensures JoinedVal(g, t, tree, u, i) == if (u, j) in tree then Out(g, u)[j].val else 0
  {
    assert HasShapeAt(g, t, u);
    if HasTwin(t, tree, u, i) {
      j := TwinEdge(g, t, tree, u, i);
    } else {
      assert !IsTwin(t, tree, u, i, i);
      j := i;
    }
  }

  lemma ValNotNegative(g: Adjacency, t: Shape, region: set<nat>, rank: nat -> nat, u: nat, i: nat)
    requires IsDag(t, region, rank) && HasShape(g, t) && Numbered(g, t, region, rank) && u in region && i < |Succ(t, u)|
    ensures |Out(g, u)| == |Succ(t, u)| && Out(g, u)[i].val >= 0 && Succ(t, u)[i] in region
  {
    assert HasShapeAt(g, t, u) && NumberedAt(g, t, region, rank, u);
    CountBelowMonotone(t, region, rank, u, 0, i);
  }

  lemma {:induction false} ValsSplit(g: Adjacency, t: Shape, region: set<nat>, rank: nat -> nat, tree: set<EdgeId>,
                                     u: nat, p: seq<nat>)
    requires IsDag(t, region, rank) && HasShape(g, t) && Numbered(g, t, region, rank) && u in region && IsWalk(t, u, p)
    ensures PathSum(g, t, u, p) == TreeVals(g, t, tree, u, p) + ChordVals(g, t, tree, u, p)
    ensures TreeVals(g, t, tree, u, p) >= 0 && ChordVals(g, t, tree, u, p) >= 0
    decreases |p|
  {
    if p != [] {
      ValNotNegative(g, t, region, rank, u, p[0]);
      ValsSplit(g, t, region, rank, tree, Succ(t, u)[p[0]], p[1..]);
    }
  }

  // ----- the register -----

  lemma EdgeFacts(g: Adjacency, g': Adjacency, inc: IncTable, w: Growth, e: EdgeId)
    requires IncrementsOk(g, g', inc, w) && IsEdge(g, e)
    ensures AreEdges(g, TreeOf(w)) && EdgeOk(g, g', inc, TreeOf(w), e) && e.0 in w.pot && Head(g, e) in w.pot
    ensures IncOf(inc, e.0, Head(g, e)) == ToInt32(w.pot[Head(g, e)] - w.pot[e.0])
    ensures e in TreeOf(w) ==> w.pot[Head(g, e)] - w.pot[e.0] == Val(g, e)
  {
    hide TreeOf, EdgeOk, ToInt32, IncOf;
  }

  /** An edge of a path is a chord unless it has a twin in the tree, or the closing edge joins its ends there. */
  lemma NotChord(g: Adjacency, t: Shape, region: set<nat>, rank: nat -> nat, entry: nat, exit: nat, g': Adjacency,
                 inc: IncTable, tree: set<EdgeId>, u: nat, i: nat)
    requires IsDag(t, region, rank) && HasShape(g, t) && u in region && i < |Succ(t, u)| && Succ(t, exit) == []
    requires AreEdges(WithClosingEdge(g, entry, exit), tree) && IsEdge(WithClosingEdge(g, entry, exit), (u, i))
    requires EdgeOk(WithClosingEdge(g, entry, exit), g', inc, tree, (u, i))
    ensures IsEdge(g', (u, i)) && g'[u][i].inc == IncOf(inc, u, Succ(t, u)[i])
    ensures HasTwin(t, tree, u, i) ==> !g'[u][i].chordEdge
    ensures !g'[u][i].chordEdge && !HasTwin(t, tree, u, i) ==> (exit, 0) in tree && u == entry && Succ(t, u)[i] == exit
  {
    var gc := WithClosingEdge(g, entry, exit);
    var e: EdgeId := (u, i);
    EdgeOnPath(g, t, entry, exit, u, i);
    if j: nat :| IsTwin(t, tree, u, i, j) {
      EdgeOnPath(g, t, entry, exit, u, j);
      assert SameEnds(gc, e, (u, j));
    }
    if !g'[u][i].chordEdge && !HasTwin(t, tree, u, i) {
      var f :| f in tree && SameEnds(gc, e, f);
      assert HasShapeAt(g, t, f.0);
      if f.0 == u {
        assert Head(gc, f) == Succ(t, u)[i];
        assert IsTwin(t, tree, u, i, f.1);
      } else if f.0 == exit {
        assert f == (exit, 0);
      } else {
        EdgeOnPath(g, t, entry, exit, f.0, f.1);
        assert false;
      }
    }
  }

  /** An edge of a path changes the register by the potential difference of its ends, less the value counted for it. */
  lemma CrossOne(g: Adjacency, t: Shape, region: set<nat>, rank: nat -> nat, entry: nat, exit: nat, g': Adjacency,
                 inc: IncTable, w: Growth, u: nat, i: nat, r: int)
    requires IsDag(t, region, rank) && HasShape(g, t) && u in region && i < |Succ(t, u)| && Succ(t, exit) == []
    requires IncrementsOk(WithClosingEdge(g, entry, exit), g', inc, w) && r == ToInt32(r)
    ensures u in w.pot && Succ(t, u)[i] in w.pot
    ensures CrossEdge(g', (u, i), r) ==
      ToInt32(r + w.pot[Succ(t, u)[i]] - w.pot[u] - JoinedVal(g, t, TreeOf(w), u, i))
  {
    hide IncrementsOk, HasShape, IsDag, IncOf, EdgeOk, TreeOf, ToInt32, WithClosingEdge, JoinedVal, HasTwin, Simple;
    var gc := WithClosingEdge(g, entry, exit);
    EdgeOnPath(g, t, entry, exit, u, i);
    EdgeFacts(gc, g', inc, w, (u, i));
    NotChord(g, t, region, rank, entry, exit, g', inc, TreeOf(w), u, i);
    WrapSum(w.pot[Succ(t, u)[i]] - w.pot[u], r);
    if HasTwin(t, TreeOf(w), u, i) {
      TwinDifference(g, t, entry, exit, g', inc, w, u, i);
    } else {
      NoTwin(g, t, TreeOf(w), u, i);
      ClosedDifference(g, t, entry, exit, g', inc, w);
    }
  }

  lemma TwinDifference(g: Adjacency, t: Shape, entry: nat, exit: nat, g': Adjacency, inc: IncTable, w: Growth, u: nat,
                       i: nat)
    requires HasShape(g, t) && IncrementsOk(WithClosingEdge(g, entry, exit), g', inc, w) && HasTwin(t, TreeOf(w), u, i)
    ensures i < |Succ(t, u)| && u in w.pot && Succ(t, u)[i] in w.pot
    ensures JoinedVal(g, t, TreeOf(w), u, i) == w.pot[Succ(t, u)[i]] - w.pot[u]
  {
    var j := TwinEdge(g, t, TreeOf(w), u, i);
    hide IncrementsOk, HasShape, IncOf, EdgeOk, TreeOf, ToInt32, WithClosingEdge, JoinedVal, HasTwin;
    EdgeOnPath(g, t, entry, exit, u, j);
    EdgeFacts(WithClosingEdge(g, entry, exit), g', inc, w, (u, j));
  }

  lemma ClosedDifference(g: Adjacency, t: Shape, entry: nat, exit: nat, g': Adjacency, inc: IncTable, w: Growth)
    requires HasShape(g, t) && Succ(t, exit) == [] && IncrementsOk(WithClosingEdge(g, entry, exit), g', inc, w)
    ensures entry in w.pot && exit in w.pot && ((exit, 0) in TreeOf(w) ==> w.pot[entry] == w.pot[exit])
  {
    hide IncrementsOk, HasShape, IncOf, EdgeOk, TreeOf, ToInt32, WithClosingEdge;
    NoEdgesAt(g, t, exit);
    ClosingEdge(g, entry, exit);
    EdgeFacts(WithClosingEdge(g, entry, exit), g', inc, w, (exit, 0));
  }

  lemma NoTwin(g: Adjacency, t: Shape, tree: set<EdgeId>, u: nat, i: nat)
    requires HasShape(g, t) && i < |Succ(t, u)| && !HasTwin(t, tree, u, i)
    ensures JoinedVal(g, t, tree, u, i) == 0
  {
  }

  lemma ClosingEdge(g: Adjacency, entry: nat, exit: nat)
    requires Out(g, exit) == []
    ensures var gc := WithClosingEdge(g, entry, exit);
      IsEdge(gc, (exit, 0)) && Head(gc, (exit, 0)) == entry && Val(gc, (exit, 0)) == 0
  {
  }

  // ----- edges straight from the entry to the exit -----

  predicate IsShortcut(g: Adjacency, entry: nat, exit: nat, i: nat) {
    i < |Out(g, entry)| && Out(g, entry)[i].to == exit
  }

  ghost predicate HasShortcut(g: Adjacency, tree: set<EdgeId>, entry: nat, exit: nat) {
    exists i: nat :: IsShortcut(g, entry, exit, i) && (entry, i) in tree
  }

  /** The value of a tree edge that leads straight from the entry to the exit. It keeps the closing edge, between the
      same blocks, from being instrumented. */
  ghost function ShortcutVal(g: Adjacency, tree: set<EdgeId>, entry: nat, exit: nat): int {
    if HasShortcut(g, tree, entry, exit) then
      var i: nat :| IsShortcut(g, entry, exit, i) && (entry, i) in tree;
      Out(g, entry)[i].val
    else 0
  }

  lemma ShortcutInTree(g: Adjacency, entry: nat, exit: nat, g': Adjacency, inc: IncTable, w: Growth)
    requires Out(g, exit) == [] && IncrementsOk(WithClosingEdge(g, entry, exit), g', inc, w)
    ensures entry in w.pot && exit in w.pot
    ensures HasShortcut(g, TreeOf(w), entry, exit) ==>
      ShortcutVal(g, TreeOf(w), entry, exit) == w.pot[exit] - w.pot[entry]
  {
    ClosingEdge(g, entry, exit);
    var gc := WithClosingEdge(g, entry, exit);
    EdgeFacts(gc, g', inc, w, (exit, 0));
    if HasShortcut(g, TreeOf(w), entry, exit) {
      var i: nat :| IsShortcut(g, entry, exit, i) && (entry, i) in TreeOf(w) &&
        ShortcutVal(g, TreeOf(w), entry, exit) == Out(g, entry)[i].val;
      hide IncrementsOk, TreeOf, EdgeOk, ToInt32;
      assert entry != exit && gc[entry] == g[entry];
      EdgeFacts(gc, g', inc, w, (entry, i));
    }
  }

  /** The closing edge is a chord unless it or a shortcut is in the tree. */
  lemma ClosingIsChord(g: Adjacency, entry: nat, exit: nat, g': Adjacency, inc: IncTable, tree: set<EdgeId>)
    requires Out(g, exit) == [] && AreEdges(WithClosingEdge(g, entry, exit), tree)
    requires IsEdge(WithClosingEdge(g, entry, exit), (exit, 0))
    requires EdgeOk(WithClosingEdge(g, entry, exit), g', inc, tree, (exit, 0))
    ensures IsEdge(g', (exit, 0)) && g'[exit][0].inc ==
      IncOf(inc, exit, Head(WithClosingEdge(g, entry, exit), (exit, 0)))
    ensures g'[exit][0].chordEdge <==> (exit, 0) !in tree && !HasShortcut(g, tree, entry, exit)
  {
    var gc := WithClosingEdge(g, entry, exit);
    var closing: EdgeId := (exit, 0);
    assert SameEnds(gc, closing, closing);
    if i: nat :| IsShortcut(g, entry, exit, i) && (entry, i) in tree {
      assert SameEnds(gc, closing, (entry, i));
    }
    if f :| f in tree && SameEnds(gc, closing, f) && f != closing {
      assert f.0 == entry && IsShortcut(g, entry, exit, f.1) && (entry, f.1) == f;
    }
  }

  /** Leaving through the closing edge adds the potential difference of its ends, and the value of a shortcut in the
      tree. */
  lemma CrossClosing(g: Adjacency, entry: nat, exit: nat, g': Adjacency, inc: IncTable, w: Growth, r: int)
    requires Out(g, exit) == [] && IncrementsOk(WithClosingEdge(g, entry, exit), g', inc, w) && r == ToInt32(r)
    ensures entry in w.pot && exit in w.pot
    ensures CrossEdge(g', (exit, 0), r) ==
      ToInt32(r + w.pot[entry] - w.pot[exit] + ShortcutVal(g, TreeOf(w), entry, exit))
  {
    ClosingEdge(g, entry, exit);
    ShortcutInTree(g, entry, exit, g', inc, w);
    var gc := WithClosingEdge(g, entry, exit);
    hide IncrementsOk, IncOf, EdgeOk, TreeOf, ToInt32, WithClosingEdge, HasShortcut;
    EdgeFacts(gc, g', inc, w, (exit, 0));
    ClosingIsChord(g, entry, exit, g', inc, TreeOf(w));
    WrapSum(w.pot[entry] - w.pot[exit], r);
  }

  /** The edges along paths are edges of the closed graph. */
  lemma EdgeOnPath(g: Adjacency, t: Shape, entry: nat, exit: nat, u: nat, i: nat)
    requires HasShape(g, t) && i < |Succ(t, u)|
    ensures IsEdge(WithClosingEdge(g, entry, exit), (u, i)) && |Out(g, u)| == |Succ(t, u)|
    ensures Head(WithClosingEdge(g, entry, exit), (u, i)) == Succ(t, u)[i]
    ensures Val(WithClosingEdge(g, entry, exit), (u, i)) == Out(g, u)[i].val
  {
    assert HasShapeAt(g, t, u);
  }

  lemma {:induction false} RegisterIs(g: Adjacency, t: Shape, region: set<nat>, rank: nat -> nat, entry: nat, exit: nat,
                                      g': Adjacency, inc: IncTable, w: Growth, u: nat, p: seq<nat>, r: int)
    requires IsDag(t, region, rank) && HasShape(g, t) && u in region && IsWalk(t, u, p) && u in w.pot && r == ToInt32(r)
    requires Succ(t, exit) == [] && IncrementsOk(WithClosingEdge(g, entry, exit), g', inc, w)
    ensures End(t, u, p) in w.pot
    ensures Register(g', t, u, p, r) == ToInt32(r + w.pot[End(t, u, p)] - w.pot[u] - JoinedVals(g, t, TreeOf(w), u, p))
    decreases |p|
  {
    hide IncrementsOk, HasShape, IsDag, ToInt32, TreeOf, WithClosingEdge, CrossEdge, JoinedVal;
    if p != [] {
      CrossOne(g, t, region, rank, entry, exit, g', inc, w, u, p[0], r);
      SuccInDag(t, region, rank, u, p[0]);
      var v := Succ(t, u)[p[0]];
      var d := w.pot[v] - w.pot[u] - JoinedVal(g, t, TreeOf(w), u, p[0]);
      WrapSum(r + d, 0);
      RegisterIs(g, t, region, rank, entry, exit, g', inc, w, v, p[1..], CrossEdge(g', (u, p[0]), r));
      WrapSum(r + d, w.pot[End(t, u, p)] - w.pot[v] - JoinedVals(g, t, TreeOf(w), v, p[1..]));
    }
  }

  lemma NoEdgesAt(g: Adjacency, t: Shape, b: nat)
    requires HasShape(g, t) && Succ(t, b) == []
    ensures Out(g, b) == []
  {
    assert HasShapeAt(g, t, b);
  }

  /** At the exit the counter is minus the sum of the values counted on the path, whatever wrapped around on the way,
      plus the value of a shortcut if there is one in the tree. */
  lemma CounterIsMinusTreeVals(g: Adjacency, t: Shape, region: set<nat>, rank: nat -> nat, entry: nat, exit: nat,
                               g': Adjacency, inc: IncTable, w: Growth, p: seq<nat>)
    requires IsNumbered(g, t, region, rank, entry, exit) && IsComplete(t, entry, p)
    requires IncrementsOk(WithClosingEdge(g, entry, exit), g', inc, w)
    ensures CounterAtExit(g', t, entry, exit, p) ==
      ShortcutVal(g, TreeOf(w), entry, exit) - JoinedVals(g, t, TreeOf(w), entry, p)
    ensures 0 <= ShortcutVal(g, TreeOf(w), entry, exit) < PathCount(t, region, rank, entry)
    ensures 0 <= JoinedVals(g, t, TreeOf(w), entry, p) < PathCount(t, region, rank, entry)
    ensures Simple(g) ==> JoinedVals(g, t, TreeOf(w), entry, p) == TreeVals(g, t, TreeOf(w), entry, p)
  {
    hide IncrementsOk, Simple, HasShape, TreeOf, WithClosingEdge, PathCount, CountBelow, Numbered, ShortcutVal, ToInt32;
    hide IsDag, JoinedVals, TreeVals, PathSum, CounterAtExit, Blocks;
    WalkStaysInRegion(t, region, rank, entry, p);
    var q := TwinPath(g, t, region, rank, TreeOf(w), entry, p);
    PathSumInRange(g, t, region, rank, entry, q);
    CounterWraps(g, t, region, rank, entry, exit, g', inc, w, p);
    ShortcutInRange(g, t, region, rank, TreeOf(w), entry, exit);
    if Simple(g) {
      JoinedIsTree(g, t, TreeOf(w), entry, p);
    }
  }

  lemma ShortcutInRange(g: Adjacency, t: Shape, region: set<nat>, rank: nat -> nat, tree: set<EdgeId>, entry: nat,
                        exit: nat)
    requires IsDag(t, region, rank) && HasShape(g, t) && Numbered(g, t, region, rank) && entry in region
    ensures 0 <= ShortcutVal(g, tree, entry, exit) < PathCount(t, region, rank, entry)
  {
    PathCountPositive(t, region, rank, entry);
    hide PathCount, CountBelow;
    if HasShortcut(g, tree, entry, exit) {
      var i: nat :| IsShortcut(g, entry, exit, i) && (entry, i) in tree &&
        ShortcutVal(g, tree, entry, exit) == Out(g, entry)[i].val;
      assert HasShapeAt(g, t, entry) && NumberedAt(g, t, region, rank, entry);
      CountBelowIncreases(t, region, rank, entry, i, |Succ(t, entry)|);
    }
  }

  lemma CounterWraps(g: Adjacency, t: Shape, region: set<nat>, rank: nat -> nat, entry: nat, exit: nat, g': Adjacency,
                     inc: IncTable, w: Growth, p: seq<nat>)
    requires IsDag(t, region, rank) && HasShape(g, t) && entry in region
    requires IsWalk(t, entry, p) && End(t, entry, p) == exit && Succ(t, exit) == []
    requires IncrementsOk(WithClosingEdge(g, entry, exit), g', inc, w)
    ensures CounterAtExit(g', t, entry, exit, p) ==
      ToInt32(ShortcutVal(g, TreeOf(w), entry, exit) - JoinedVals(g, t, TreeOf(w), entry, p))
  {
    hide IncrementsOk, IsDag, HasShape, ToInt32, TreeOf, WithClosingEdge, CrossEdge, ShortcutVal, HasShortcut;
    NoEdgesAt(g, t, exit);
    ZeroFits();
    ShortcutInTree(g, entry, exit, g', inc, w);
    RegisterIs(g, t, region, rank, entry, exit, g', inc, w, entry, p, 0);
    var sum := JoinedVals(g, t, TreeOf(w), entry, p);
    var d := w.pot[entry] - w.pot[exit];
    var r := Register(g', t, entry, p, 0);
    assert r == ToInt32(-d - sum);
    WrapSum(-d - sum, 0);
    CrossClosing(g, entry, exit, g', inc, w, r);
    WrapSum(-d - sum, d + ShortcutVal(g, TreeOf(w), entry, exit));
  }

  lemma ZeroFits()
    ensures ToInt32(0) == 0
  {
  }

  // ----- decoding the record -----

  /** Without parallel edges, the blocks determine the path. */
  lemma {:induction false} BlocksInjective(g: Adjacency, t: Shape, u: nat, p: seq<nat>, q: seq<nat>)
    requires HasShape(g, t) && Simple(g) && IsWalk(t, u, p) && IsWalk(t, u, q)
    requires Blocks(t, u, p) == Blocks(t, u, q)
    ensures p == q
    decreases |p|
  {
    hide Simple, HasShape;
    BlocksLength(t, u, p);
    BlocksLength(t, u, q);
    if p != [] {
      var v := Succ(t, u)[p[0]];
      assert Blocks(t, u, p)[1..] == Blocks(t, v, p[1..]);
      assert Blocks(t, u, q)[1..] == Blocks(t, Succ(t, u)[q[0]], q[1..]);
      BlocksLength(t, v, p[1..]);
      BlocksLength(t, Succ(t, u)[q[0]], q[1..]);
      SameTarget(g, t, u, p[0], q[0]);
      BlocksInjective(g, t, v, p[1..], q[1..]);
      assert p == [p[0]] + p[1..] && q == [q[0]] + q[1..];
    }
  }

  lemma SameTarget(g: Adjacency, t: Shape, u: nat, i: nat, j: nat)
    requires HasShape(g, t) && Simple(g) && i < |Succ(t, u)| && j < |Succ(t, u)| && Succ(t, u)[i] == Succ(t, u)[j]
    ensures i == j
  {
    assert HasShapeAt(g, t, u);
    var e: EdgeId, f: EdgeId := (u, i), (u, j);
    assert IsEdge(g, e) && IsEdge(g, f) && SameEnds(g, e, f);
  }

  lemma {:induction false} BlocksLength(t: Shape, u: nat, p: seq<nat>)
    requires IsWalk(t, u, p)
    ensures |Blocks(t, u, p)| == |p| + 1 && Blocks(t, u, p)[0] == u
    decreases |p|
  {
    if p != [] {
      BlocksLength(t, Succ(t, u)[p[0]], p[1..]);
    }
  }

  /** The record of the run along p is the number of a path, and that path goes through the same blocks. */
  ghost predicate RunDecodes(g': Adjacency, g: Adjacency, t: Shape, region: set<nat>, rank: nat -> nat, entry: nat,
                             exit: nat, p: seq<nat>)
    requires IsNumbered(g, t, region, rank, entry, exit) && IsWalk(t, entry, p)
  {
    var n := Recorded(CounterAtExit(g', t, entry, exit, p));
    n < PathCount(t, region, rank, entry) &&
      Blocks(t, entry, PathOf(g, t, region, rank, entry, n)) == Blocks(t, entry, p)
  }

  /** n is the number of a path through the same blocks as p. */
  ghost predicate IsNumberOf(g: Adjacency, t: Shape, entry: nat, p: seq<nat>, n: int)
    requires HasShape(g, t) && IsWalk(t, entry, p)
  {
    exists q :: IsComplete(t, entry, q) && Blocks(t, entry, q) == Blocks(t, entry, p) && PathSum(g, t, entry, q) == n
  }

  /** Decoding a number gives the blocks of p exactly when it is the number of a path through them. */
  lemma DecodesToBlocks(g: Adjacency, t: Shape, region: set<nat>, rank: nat -> nat, entry: nat, p: seq<nat>, n: nat)
    requires IsDag(t, region, rank) && HasShape(g, t) && Numbered(g, t, region, rank) && entry in region
    requires n < PathCount(t, region, rank, entry) && IsWalk(t, entry, p)
    ensures IsNumberOf(g, t, entry, p, n) <==>
      Blocks(t, entry, PathOf(g, t, region, rank, entry, n)) == Blocks(t, entry, p)
  {
    hide PathCount, HasShape, Numbered, IsDag;
    var q := PathOf(g, t, region, rank, entry, n);
    if r :| IsComplete(t, entry, r) && Blocks(t, entry, r) == Blocks(t, entry, p) && PathSum(g, t, entry, r) == n {
      PathSumInjective(g, t, region, rank, entry, r, q);
    }
  }

  /** The record decodes to the run exactly when it is the number of a path through the same blocks. */
  lemma RunDecodesIff(g: Adjacency, t: Shape, region: set<nat>, rank: nat -> nat, entry: nat, exit: nat,
                      g': Adjacency, inc: IncTable, w: Growth, p: seq<nat>)
    requires IsNumbered(g, t, region, rank, entry, exit) && IsComplete(t, entry, p)
    requires IncrementsOk(WithClosingEdge(g, entry, exit), g', inc, w)
    ensures Recorded(CounterAtExit(g', t, entry, exit, p)) < PathCount(t, region, rank, entry)
    ensures RunDecodes(g', g, t, region, rank, entry, exit, p) <==> IsNumberOf(g, t, entry, p,
      Recorded(ShortcutVal(g, TreeOf(w), entry, exit) - JoinedVals(g, t, TreeOf(w), entry, p)))
  {
    hide IncrementsOk, TreeOf, WithClosingEdge, PathCount, CountBelow, Numbered, HasShape, ShortcutVal, IsNumberOf;
    hide CounterAtExit, PathSum, JoinedVals, TreeVals, Blocks;
    CounterIsMinusTreeVals(g, t, region, rank, entry, exit, g', inc, w, p);
    DecodesToBlocks(g, t, region, rank, entry, p, Recorded(CounterAtExit(g', t, entry, exit, p)));
  }

  /** Without parallel edges the record is this number exactly when it is the sum of the run's values; without a
      shortcut in the tree, exactly when the chords on the run have value 0. */
  lemma SimpleRunDecodesIff(g: Adjacency, t: Shape, region: set<nat>, rank: nat -> nat, entry: nat, exit: nat,
                            tree: set<EdgeId>, p: seq<nat>, shortcut: int)
    requires IsNumbered(g, t, region, rank, entry, exit) && IsComplete(t, entry, p) && Simple(g)
    ensures IsNumberOf(g, t, entry, p, Recorded(shortcut - JoinedVals(g, t, tree, entry, p))) <==>
      PathSum(g, t, entry, p) == Recorded(shortcut - TreeVals(g, t, tree, entry, p))
    ensures shortcut == 0 ==>
      (IsNumberOf(g, t, entry, p, Recorded(shortcut - JoinedVals(g, t, tree, entry, p))) <==>
       ChordVals(g, t, tree, entry, p) == 0)
  {
    hide PathCount, CountBelow, Numbered, HasShape, Simple, PathSum, JoinedVals, TreeVals, ChordVals, Recorded;
    JoinedIsTree(g, t, tree, entry, p);
    forall q | IsComplete(t, entry, q) && Blocks(t, entry, q) == Blocks(t, entry, p)
      ensures q == p
    {
      BlocksInjective(g, t, entry, p, q);
    }
    if shortcut == 0 {
      RecordIsSum(g, t, region, rank, tree, entry, p);
    }
  }

  lemma RecordIsSum(g: Adjacency, t: Shape, region: set<nat>, rank: nat -> nat, tree: set<EdgeId>, u: nat, p: seq<nat>)
    requires IsDag(t, region, rank) && HasShape(g, t) && Numbered(g, t, region, rank) && u in region && IsWalk(t, u, p)
    ensures PathSum(g, t, u, p) == Recorded(0 - TreeVals(g, t, tree, u, p)) <==> ChordVals(g, t, tree, u, p) == 0
  {
    hide PathSum, TreeVals, ChordVals, HasShape, Numbered, IsDag;
    ValsSplit(g, t, region, rank, tree, u, p);
  }

  /** If the chords on all runs have value 0 and no shortcut with a value is in the tree, every run decodes. */
  lemma TreeRunDecodes(g: Adjacency, t: Shape, region: set<nat>, rank: nat -> nat, entry: nat, exit: nat,
                       g': Adjacency, inc: IncTable, w: Growth, p: seq<nat>)
    requires IsNumbered(g, t, region, rank, entry, exit) && IsComplete(t, entry, p)
    requires IncrementsOk(WithClosingEdge(g, entry, exit), g', inc, w)
    requires ShortcutVal(g, TreeOf(w), entry, exit) == 0
    requires forall q | IsComplete(t, entry, q) :: ChordVals(g, t, TreeOf(w), entry, q) == 0
    ensures RunDecodes(g', g, t, region, rank, entry, exit, p)
  {
    hide IncrementsOk, TreeOf, WithClosingEdge, PathCount, CountBelow, Numbered, HasShape, ShortcutVal, RunDecodes;
    hide PathSum, JoinedVals, ChordVals;
    RunDecodesIff(g, t, region, rank, entry, exit, g', inc, w, p);
    var q := TwinPath(g, t, region, rank, TreeOf(w), entry, p);
    assert IsNumberOf(g, t, entry, p, PathSum(g, t, entry, q));
  }

  /** Runs the instrumented program along p, and decodes what it recorded from the dumped graph. Without parallel edges
      and without a shortcut in the tree the result is the run exactly when the chords on it have value 0. */
  method RecordAndDecode(g': Adjacency, t: Shape, entry: nat, exit: nat, p: seq<nat>,
                         ghost g: Adjacency, ghost region: set<nat>, ghost rank: nat -> nat, ghost inc: IncTable,
                         ghost w: Growth)
    returns (path: seq<nat>)
    requires IsNumbered(g, t, region, rank, entry, exit) && IsComplete(t, entry, p)
    requires IncrementsOk(WithClosingEdge(g, entry, exit), g', inc, w)
    ensures path == Blocks(t, entry, p) <==> RunDecodes(g', g, t, region, rank, entry, exit, p)
    ensures path == Blocks(t, entry, p) <==> IsNumberOf(g, t, entry, p,
      Recorded(ShortcutVal(g, TreeOf(w), entry, exit) - JoinedVals(g, t, TreeOf(w), entry, p)))
    ensures Simple(g) && ShortcutVal(g, TreeOf(w), entry, exit) == 0 ==>
      (path == Blocks(t, entry, p) <==> ChordVals(g, t, TreeOf(w), entry, p) == 0)
  {
    hide IncrementsOk, Simple, TreeOf, WithClosingEdge, PathCount, CountBelow, Numbered, HasShape, ShortcutVal;
    hide IsNumberOf, IsDag, JoinedVals, TreeVals, ChordVals, PathSum, CounterAtExit, Blocks;
    RunDecodesIff(g, t, region, rank, entry, exit, g', inc, w, p);
    if Simple(g) {
      SimpleRunDecodesIff(g, t, region, rank, entry, exit, TreeOf(w), p, ShortcutVal(g, TreeOf(w), entry, exit));
    }
    DumpKeepsValues(g, t, entry, exit, g', inc, w);
    path := NumToPath(g', entry, exit, Recorded(CounterAtExit(g', t, entry, exit, p)), g, t, region, rank);
  }

  /** The dump was made after the closing edge was added and the edges were annotated. */
  lemma DumpKeepsValues(g: Adjacency, t: Shape, entry: nat, exit: nat, g': Adjacency, inc: IncTable, w: Growth)
    requires HasShape(g, t) && IncrementsOk(WithClosingEdge(g, entry, exit), g', inc, w)
    ensures IsDumpOf(g', g, exit)
  {
    hide HasShape, IncrementsOk;
    forall b | b != exit
      ensures SameValues(g', g, b)
    {
      SameLengths(WithClosingEdge(g, entry, exit), g', inc, w, b);
      forall i | 0 <= i < |Out(g, b)|
        ensures Out(g', b)[i].to == Out(g, b)[i].to && Out(g', b)[i].val == Out(g, b)[i].val
      {
        EdgeFacts(WithClosingEdge(g, entry, exit), g', inc, w, (b, i));
      }
    }
  }

  lemma SameLengths(g: Adjacency, g': Adjacency, inc: IncTable, w: Growth, b: nat)
    requires IncrementsOk(g, g', inc, w)
    ensures |Out(g', b)| == |Out(g, b)|
  {
    hide TreeOf, EdgeOk;
  }
}
