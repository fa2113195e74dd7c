/** For which graphs every loop-free run recorded through the chords decodes to itself. */
module Decodability {
  import opened PathCounts
  import opened PathNumbering
  import opened SpanningTrees
  import opened Forests
  import opened IncValues
  import opened ChordCounter

  /** Every edge a run can take that has a value is in the tree. */
  ghost predicate ValuedEdgesInTree(g: Adjacency, t: Shape, tree: set<EdgeId>, entry: nat) {
    forall p: seq<nat>, i: nat | IsWalk(t, entry, p) && i < |Succ(t, End(t, entry, p))| ::
      InTreeOrZero(g, tree, End(t, entry, p), i)
  }

  predicate InTreeOrZero(g: Adjacency, tree: set<EdgeId>, u: nat, i: nat) {
    (u, i) in tree || (i < |Out(g, u)| ==> Out(g, u)[i].val == 0)
  }

  ghost predicate NoChordVals(g: Adjacency, t: Shape, tree: set<EdgeId>, entry: nat)
    requires HasShape(g, t)
  {
    forall p | IsComplete(t, entry, p) :: ChordVals(g, t, tree, entry, p) == 0
  }

  /** The chords on every run add up to 0 exactly when no chord that a run can take has a value. */
  lemma NoChordValsIff(g: Adjacency, t: Shape, region: set<nat>, rank: nat -> nat, entry: nat, exit: nat,
                       tree: set<EdgeId>)
    requires IsNumbered(g, t, region, rank, entry, exit)
    ensures NoChordVals(g, t, tree, entry) <==> ValuedEdgesInTree(g, t, tree, entry)
  {
    hide Numbered, PathCount, HasShape, InTreeOrZero, ChordVals, IsDag;
    if NoChordVals(g, t, tree, entry) {
      forall p: seq<nat>, i: nat | IsWalk(t, entry, p) && i < |Succ(t, End(t, entry, p))|
        ensures InTreeOrZero(g, tree, End(t, entry, p), i)
      {
        EdgeOfDecodedRun(g, t, region, rank, entry, tree, p, i);
      }
    }
    if ValuedEdgesInTree(g, t, tree, entry) {
      forall p | IsComplete(t, entry, p)
        ensures ChordVals(g, t, tree, entry, p) == 0
      {
        ZeroAlong(g, t, tree, entry, [], p);
      }
    }
  }

  lemma EdgeOfDecodedRun(g: Adjacency, t: Shape, region: set<nat>, rank: nat -> nat, entry: nat, tree: set<EdgeId>,
                         p: seq<nat>, i: nat)
    requires IsDag(t, region, rank) && HasShape(g, t) && Numbered(g, t, region, rank) && entry in region
    requires NoChordVals(g, t, tree, entry) && IsWalk(t, entry, p) && i < |Succ(t, End(t, entry, p))|
    ensures InTreeOrZero(g, tree, End(t, entry, p), i)
  {
    hide Numbered, PathCount, HasShape, InTreeOrZero, ChordVals, IsDag;
    var one := p + [i];
    WalkStep(g, t, entry, p, i);
    WalkStaysInRegion(t, region, rank, entry, one);
    var q := Completion(t, region, rank, End(t, entry, one));
    WalkAppend(t, entry, one, q);
    Regroup(p, i, q);
    assert IsComplete(t, entry, one + q);
    ChordOnPath(g, t, region, rank, tree, entry, p, i, q);
  }

  lemma Regroup(p: seq<nat>, i: nat, q: seq<nat>)
    ensures p + [i] + q == p + ([i] + q)
  {
  }

  /** Every walk can be continued to the exit. */
  lemma {:induction false} Completion(t: Shape, region: set<nat>, rank: nat -> nat, u: nat) returns (q: seq<nat>)
    requires IsDag(t, region, rank) && u in region
    ensures IsComplete(t, u, q)
    decreases rank(u)
  {
    if Succ(t, u) == [] {
      q := [];
    } else {
      var rest := Completion(t, region, rank, Succ(t, u)[0]);
      q := [0] + rest;
      assert q[1..] == rest;
    }
  }

  lemma {:induction false} ChordOnPath(g: Adjacency, t: Shape, region: set<nat>, rank: nat -> nat, tree: set<EdgeId>,
                                       u: nat, p: seq<nat>, i: nat, q: seq<nat>)
    requires IsDag(t, region, rank) && HasShape(g, t) && Numbered(g, t, region, rank) && u in region
    requires IsWalk(t, u, p) && i < |Succ(t, End(t, u, p))| && IsWalk(t, u, p + ([i] + q))
    requires ChordVals(g, t, tree, u, p + ([i] + q)) == 0
    ensures InTreeOrZero(g, tree, End(t, u, p), i)
    decreases |p|
  {
    hide HasShape, Numbered;
    var r := p + ([i] + q);
    ValNotNegative(g, t, region, rank, u, r[0]);
    ValsSplit(g, t, region, rank, tree, Succ(t, u)[r[0]], r[1..]);
    if p != [] {
      assert r[1..] == p[1..] + ([i] + q);
      ChordOnPath(g, t, region, rank, tree, Succ(t, u)[p[0]], p[1..], i, q);
    }
  }

  lemma {:induction false} ZeroAlong(g: Adjacency, t: Shape, tree: set<EdgeId>, entry: nat, p: seq<nat>, q: seq<nat>)
    requires HasShape(g, t) && ValuedEdgesInTree(g, t, tree, entry) && IsWalk(t, entry, p) &&
      IsWalk(t, End(t, entry, p), q)
    ensures ChordVals(g, t, tree, End(t, entry, p), q) == 0
    decreases |q|
  {
    if q != [] {
      var u := End(t, entry, p);
      assert HasShapeAt(g, t, u);
      assert InTreeOrZero(g, tree, u, q[0]);
      WalkStep(g, t, entry, p, q[0]);
      ZeroAlong(g, t, tree, entry, p + [q[0]], q[1..]);
    }
  }

  // ----- when every run decodes -----

  /** Whatever run is made, its record decodes to the blocks it went through. */
  ghost predicate AllRunsDecode(g': Adjacency, g: Adjacency, t: Shape, region: set<nat>, rank: nat -> nat, entry: nat,
                                exit: nat)
    requires IsNumbered(g, t, region, rank, entry, exit)
  {
    forall p | IsComplete(t, entry, p) :: RunDecodes(g', g, t, region, rank, entry, exit, p)
  }

  /** All runs decode when no chord that a run can take has a value, and no shortcut with one is in the tree; without
      parallel edges, only then. */
  lemma AllRunsDecodeIff(g: Adjacency, t: Shape, region: set<nat>, rank: nat -> nat, entry: nat, exit: nat,
                         g': Adjacency, inc: IncTable, w: Growth)
    requires IsNumbered(g, t, region, rank, entry, exit)
    requires IncrementsOk(WithClosingEdge(g, entry, exit), g', inc, w)
    ensures ValuedEdgesInTree(g, t, TreeOf(w), entry) && ShortcutVal(g, TreeOf(w), entry, exit) == 0 ==>
      AllRunsDecode(g', g, t, region, rank, entry, exit)
    ensures Simple(g) && AllRunsDecode(g', g, t, region, rank, entry, exit) ==>
      ValuedEdgesInTree(g, t, TreeOf(w), entry) && ShortcutVal(g, TreeOf(w), entry, exit) == 0
  {
    hide IncrementsOk, Simple, TreeOf, WithClosingEdge, Numbered, PathCount, HasShape, ChordVals, RunDecodes, IsDag;
    hide ValuedEdgesInTree, ShortcutVal, PathSum, TreeVals, Blocks;
    NoChordValsIff(g, t, region, rank, entry, exit, TreeOf(w));
    if ValuedEdgesInTree(g, t, TreeOf(w), entry) && ShortcutVal(g, TreeOf(w), entry, exit) == 0 {
      forall p | IsComplete(t, entry, p)
        ensures RunDecodes(g', g, t, region, rank, entry, exit, p)
      {
        TreeRunDecodes(g, t, region, rank, entry, exit, g', inc, w, p);
      }
    }
    if Simple(g) && AllRunsDecode(g', g, t, region, rank, entry, exit) {
      if ShortcutVal(g, TreeOf(w), entry, exit) != 0 {
        var p := ShortcutRun(g, t, region, rank, entry, exit, TreeOf(w));
        SimpleRun(g, t, region, rank, entry, exit, g', inc, w, p);
        assert false;
      }
      forall p | IsComplete(t, entry, p)
        ensures ChordVals(g, t, TreeOf(w), entry, p) == 0
      {
        SimpleRun(g, t, region, rank, entry, exit, g', inc, w, p);
      }
    }
  }

  /** When a run decodes in a graph without parallel edges. */
  lemma SimpleRun(g: Adjacency, t: Shape, region: set<nat>, rank: nat -> nat, entry: nat, exit: nat, g': Adjacency,
                  inc: IncTable, w: Growth, p: seq<nat>)
    requires IsNumbered(g, t, region, rank, entry, exit) && IsComplete(t, entry, p) && Simple(g)
    requires IncrementsOk(WithClosingEdge(g, entry, exit), g', inc, w)
    ensures RunDecodes(g', g, t, region, rank, entry, exit, p) <==>
      PathSum(g, t, entry, p) == Recorded(ShortcutVal(g, TreeOf(w), entry, exit) - TreeVals(g, t, TreeOf(w), entry, p))
    ensures ShortcutVal(g, TreeOf(w), entry, exit) == 0 ==>
      (RunDecodes(g', g, t, region, rank, entry, exit, p) <==> ChordVals(g, t, TreeOf(w), entry, p) == 0)
  {
    hide IncrementsOk, Simple, TreeOf, WithClosingEdge, IsNumbered, ChordVals, RunDecodes, IsNumberOf, Recorded;
    hide ShortcutVal, PathSum, TreeVals, JoinedVals, IsComplete;
    RunDecodesIff(g, t, region, rank, entry, exit, g', inc, w, p);
    SimpleRunDecodesIff(g, t, region, rank, entry, exit, TreeOf(w), p, ShortcutVal(g, TreeOf(w), entry, exit));
  }

  /** The run along a shortcut in the tree: nothing it crosses is instrumented. */
  lemma ShortcutRun(g: Adjacency, t: Shape, region: set<nat>, rank: nat -> nat, entry: nat, exit: nat,
                    tree: set<EdgeId>)
    returns (p: seq<nat>)
    requires IsNumbered(g, t, region, rank, entry, exit) && ShortcutVal(g, tree, entry, exit) != 0
    ensures IsComplete(t, entry, p)
    ensures PathSum(g, t, entry, p) == TreeVals(g, t, tree, entry, p) == ShortcutVal(g, tree, entry, exit)
  {
    var i := ShortcutEdge(g, tree, entry, exit);
    assert HasShapeAt(g, t, entry) && Succ(t, exit) == [];
    hide IsNumbered, HasShape, HasShapeAt, ShortcutVal;
    p := OneStep(g, t, tree, entry, i);
  }

  lemma OneStep(g: Adjacency, t: Shape, tree: set<EdgeId>, u: nat, i: nat) returns (p: seq<nat>)
    requires HasShape(g, t) && |Out(g, u)| == |Succ(t, u)| && i < |Succ(t, u)| && Succ(t, Succ(t, u)[i]) == []
    requires (u, i) in tree
    ensures IsComplete(t, u, p) && PathSum(g, t, u, p) == TreeVals(g, t, tree, u, p) == Out(g, u)[i].val
  {
    hide HasShape;
    p := [i];
    assert p[1..] == [];
    var v := Succ(t, u)[i];
    assert IsWalk(t, v, []) && End(t, v, []) == v && PathSum(g, t, v, []) == 0 && TreeVals(g, t, tree, v, []) == 0;
  }

  lemma ShortcutEdge(g: Adjacency, tree: set<EdgeId>, entry: nat, exit: nat) returns (i: nat)
    requires HasShortcut(g, tree, entry, exit)
    ensures IsShortcut(g, entry, exit, i) && (entry, i) in tree
    ensures ShortcutVal(g, tree, entry, exit) == Out(g, entry)[i].val
  {
    i :| IsShortcut(g, entry, exit, i) && (entry, i) in tree &&
      ShortcutVal(g, tree, entry, exit) == Out(g, entry)[i].val;
  }

  ghost predicate IsReached(t: Shape, entry: nat, b: nat) {
    exists p :: IsWalk(t, entry, p) && End(t, entry, p) == b
  }

  /** Every edge leaves a block the entry reaches. */
  ghost predicate AllReached(g: Adjacency, t: Shape, entry: nat) {
    forall e: EdgeId | IsEdge(g, e) :: IsReached(t, entry, e.0)
  }

  /** The edges that are not the first of their block. */
  function LaterEdges(g: Adjacency): set<EdgeId> {
    set e | e in AllEdges(g) && e.1 > 0
  }

  /** At a numbered block the first edge has value 0 and all others have more. */
  lemma ValueOfEdge(g: Adjacency, t: Shape, region: set<nat>, rank: nat -> nat, u: nat, i: nat)
    requires IsDag(t, region, rank) && HasShape(g, t) && Numbered(g, t, region, rank) && u in region && i < |Succ(t, u)|
    ensures |Out(g, u)| == |Succ(t, u)| && (Out(g, u)[i].val > 0 <==> i > 0)
  {
    assert HasShapeAt(g, t, u) && NumberedAt(g, t, region, rank, u);
    if i > 0 {
      CountBelowIncreases(t, region, rank, u, 0, i);
    }
  }

  /** An edge of the closed graph is the closing edge, of value 0, or one of the graph. */
  lemma EdgeOfClosed(g: Adjacency, t: Shape, entry: nat, exit: nat, e: EdgeId)
    requires HasShape(g, t) && Succ(t, exit) == [] && IsEdge(WithClosingEdge(g, entry, exit), e)
    ensures if e.0 == exit then e.1 == 0 && Val(WithClosingEdge(g, entry, exit), e) == 0
            else IsEdge(g, e) && Val(WithClosingEdge(g, entry, exit), e) == Out(g, e.0)[e.1].val && e.1 < |Succ(t, e.0)|
  {
    assert HasShapeAt(g, t, e.0);
  }

  lemma ValuedIsLater(g: Adjacency, t: Shape, region: set<nat>, rank: nat -> nat, entry: nat, exit: nat)
    requires IsNumbered(g, t, region, rank, entry, exit) && AllReached(g, t, entry)
    ensures ValuedEdges(WithClosingEdge(g, entry, exit)) == LaterEdges(WithClosingEdge(g, entry, exit))
  {
    var gc := WithClosingEdge(g, entry, exit);
    forall e | e in AllEdges(gc)
      ensures e in ValuedEdges(gc) <==> e in LaterEdges(gc)
    {
      ValuedIs(gc, e);
      EdgeOfClosed(g, t, entry, exit, e);
      if e.0 != exit {
        var p :| IsWalk(t, entry, p) && End(t, entry, p) == e.0;
        WalkStaysInRegion(t, region, rank, entry, p);
        ValueOfEdge(g, t, region, rank, e.0, e.1);
      }
    }
  }

  /** A tree that holds all edges with a value holds those a run can take. */
  lemma ValuedThenInTree(g: Adjacency, t: Shape, region: set<nat>, rank: nat -> nat, entry: nat, exit: nat,
                         tree: set<EdgeId>)
    requires IsNumbered(g, t, region, rank, entry, exit)
    ensures ValuedEdges(WithClosingEdge(g, entry, exit)) <= tree ==> ValuedEdgesInTree(g, t, tree, entry)
    ensures AllReached(g, t, entry) && ValuedEdgesInTree(g, t, tree, entry) ==>
      ValuedEdges(WithClosingEdge(g, entry, exit)) <= tree
  {
    hide PathCount, CountBelow, ValuedEdges, WithClosingEdge, HasShape;
    var gc := WithClosingEdge(g, entry, exit);
    if ValuedEdges(gc) <= tree {
      forall p: seq<nat>, i: nat | IsWalk(t, entry, p) && i < |Succ(t, End(t, entry, p))|
        ensures InTreeOrZero(g, tree, End(t, entry, p), i)
      {
        var u := End(t, entry, p);
        WalkStaysInRegion(t, region, rank, entry, p);
        EdgeOnPath(g, t, entry, exit, u, i);
        ValNotNegative(g, t, region, rank, u, i);
        ValuedIs(gc, (u, i));
      }
    }
    if AllReached(g, t, entry) && ValuedEdgesInTree(g, t, tree, entry) {
      forall e | e in ValuedEdges(gc)
        ensures e in tree
      {
        ValuedIs(gc, e);
        EdgeOfClosed(g, t, entry, exit, e);
        var p :| IsWalk(t, entry, p) && End(t, entry, p) == e.0;
        assert InTreeOrZero(g, tree, End(t, entry, p), e.1);
      }
    }
  }

  /** The entry leads straight to the exit by its first edge only, if at all. */
  ghost predicate NoLaterShortcut(g: Adjacency, entry: nat, exit: nat) {
    forall i: nat | i > 0 :: !IsShortcut(g, entry, exit, i)
  }

  lemma ShortcutIsFirst(g: Adjacency, t: Shape, region: set<nat>, rank: nat -> nat, entry: nat, exit: nat,
                        tree: set<EdgeId>)
    requires IsNumbered(g, t, region, rank, entry, exit)
    ensures NoLaterShortcut(g, entry, exit) ==> ShortcutVal(g, tree, entry, exit) == 0
    ensures
      Simple(g) && ShortcutVal(g, tree, entry, exit) == 0 && ValuedEdges(WithClosingEdge(g, entry, exit)) <= tree ==>
        NoLaterShortcut(g, entry, exit)
  {
    hide PathCount, CountBelow, NumberedAt, ShortcutVal, ValuedEdges, WithClosingEdge;
    var v := ShortcutVal(g, tree, entry, exit);
    if HasShortcut(g, tree, entry, exit) {
      var i := ShortcutEdge(g, tree, entry, exit);
      assert HasShapeAt(g, t, entry);
      ValueOfEdge(g, t, region, rank, entry, i);
      ValNotNegative(g, t, region, rank, entry, i);
    } else {
      assert v == 0 by {
        NoShortcutVal(g, tree, entry, exit);
      }
    }
    if Simple(g) && v == 0 && ValuedEdges(WithClosingEdge(g, entry, exit)) <= tree {
      forall j: nat | j > 0
        ensures !IsShortcut(g, entry, exit, j)
      {
        if IsShortcut(g, entry, exit, j) {
          LaterShortcutInTree(g, t, region, rank, entry, exit, tree, j);
          var i := ShortcutEdge(g, tree, entry, exit);
          OneShortcut(g, entry, exit, i, j);
          assert false;
        }
      }
    }
  }

  lemma NoShortcutVal(g: Adjacency, tree: set<EdgeId>, entry: nat, exit: nat)
    requires !HasShortcut(g, tree, entry, exit)
    ensures ShortcutVal(g, tree, entry, exit) == 0
  {
  }

  lemma LaterShortcutInTree(g: Adjacency, t: Shape, region: set<nat>, rank: nat -> nat, entry: nat, exit: nat,
                            tree: set<EdgeId>, j: nat)
    requires IsNumbered(g, t, region, rank, entry, exit) && j > 0 && IsShortcut(g, entry, exit, j)
    requires ValuedEdges(WithClosingEdge(g, entry, exit)) <= tree
    ensures HasShortcut(g, tree, entry, exit) && Out(g, entry)[j].val > 0
  {
    hide PathCount, CountBelow, NumberedAt, ValuedEdges, WithClosingEdge;
    assert HasShapeAt(g, t, entry);
    ValueOfEdge(g, t, region, rank, entry, j);
    EdgeOnPath(g, t, entry, exit, entry, j);
    ValuedIs(WithClosingEdge(g, entry, exit), (entry, j));
  }

  lemma OneShortcut(g: Adjacency, entry: nat, exit: nat, i: nat, j: nat)
    requires Simple(g) && IsShortcut(g, entry, exit, i) && IsShortcut(g, entry, exit, j)
    ensures i == j
  {
    var e: EdgeId, f: EdgeId := (entry, i), (entry, j);
    assert IsEdge(g, e) && IsEdge(g, f) && SameEnds(g, e, f);
  }

  /** Every run decodes if the edges with a value have no cycle and none of them leads straight from the entry to the
      exit. When the entry reaches every edge, the edges with a value are those that are not the first of their block,
      so the branches alone decide; and without parallel edges the condition is necessary, too. */
  lemma AllRunsDecodeIffForest(g: Adjacency, t: Shape, region: set<nat>, rank: nat -> nat, entry: nat, exit: nat,
                               g': Adjacency, inc: IncTable, w: Growth)
    requires IsNumbered(g, t, region, rank, entry, exit)
    requires IncrementsOk(WithClosingEdge(g, entry, exit), g', inc, w)
    requires IsSpanningTree(WithClosingEdge(g, entry, exit), TreeOf(w))
    requires IsHeaviest(WithClosingEdge(g, entry, exit), TreeOf(w))
    ensures
      IsForest(WithClosingEdge(g, entry, exit), ValuedEdges(WithClosingEdge(g, entry, exit))) &&
      NoLaterShortcut(g, entry, exit) ==>
        AllRunsDecode(g', g, t, region, rank, entry, exit)
    ensures AllReached(g, t, entry) ==>
      ValuedEdges(WithClosingEdge(g, entry, exit)) == LaterEdges(WithClosingEdge(g, entry, exit))
    ensures AllReached(g, t, entry) && Simple(g) ==>
      (AllRunsDecode(g', g, t, region, rank, entry, exit) <==>
       IsForest(WithClosingEdge(g, entry, exit), LaterEdges(WithClosingEdge(g, entry, exit))) &&
       NoLaterShortcut(g, entry, exit))
  {
    var gc := WithClosingEdge(g, entry, exit);
    ValuedInHeaviest(gc, TreeOf(w));
    hide IsForest, IsHeaviest, IsSpanningTree, IncrementsOk, ValuedEdges, LaterEdges, WithClosingEdge, ShortcutVal;
    hide AllRunsDecode, ValuedEdgesInTree, TreeOf, NoLaterShortcut, AllReached, Simple;
    AllRunsDecodeIff(g, t, region, rank, entry, exit, g', inc, w);
    ValuedThenInTree(g, t, region, rank, entry, exit, TreeOf(w));
    ShortcutIsFirst(g, t, region, rank, entry, exit, TreeOf(w));
    if AllReached(g, t, entry) {
      ValuedIsLater(g, t, region, rank, entry, exit);
    }
  }

  /** The tree grown by getIncValues leaves only chords without a value exactly when the valued edges are part of
      some spanning tree at all. */
  lemma OnlyZeroChordsIff(g: Adjacency, s: set<EdgeId>)
    requires Closed(g) && IsSpanningTree(g, s) && IsHeaviest(g, s)
    ensures ValuedEdges(g) <= s <==> exists r :: IsSpanningTree(g, r) && ValuedEdges(g) <= r
  {
    ValuedInHeaviest(g, s);
    if r :| IsSpanningTree(g, r) && ValuedEdges(g) <= r {
      TreeIsForest(g, r);
      SmallerForest(g, ValuedEdges(g), r);
    }
  }

  // ----- a graph that cannot be decoded -----

  /** A spanning tree lacks one of any three edges that make up a triangle. */
  lemma NoTriangle(g: Adjacency, s: set<EdgeId>, a: EdgeId, b: EdgeId, c: EdgeId)
    requires Closed(g) && IsSpanningTree(g, s) && IsEdge(g, a) && IsEdge(g, b) && IsEdge(g, c)
    requires a.0 == b.0 && Head(g, b) == c.0 && Head(g, c) == Head(g, a)
    requires a.0 != c.0 && c.0 != Head(g, c) && a.0 != Head(g, a)
    ensures !(a in s && b in s && c in s)
  {
    TreeIsForest(g, s);
    if a in s && b in s && c in s {
      var w := AroundTriangle(g, s, a, b, c);
      assert false;
    }
  }

  lemma AroundTriangle(g: Adjacency, s: set<EdgeId>, a: EdgeId, b: EdgeId, c: EdgeId) returns (w: seq<EdgeId>)
    requires IsEdge(g, a) && IsEdge(g, b) && IsEdge(g, c) && a in s && b in s && c in s
    requires a.0 == b.0 && Head(g, b) == c.0 && Head(g, c) == Head(g, a)
    requires a.0 != c.0 && c.0 != Head(g, c) && a.0 != Head(g, a)
    ensures w != [] && IsTrail(g, s, a.0, w, a.0)
  {
    w := [b, c, a];
    assert w[1..] == [c, a] && w[1..][1..] == [a] && w[1..][1..][1..] == [];
    assert Leads(g, s, Head(g, a), w[1..][1..], a.0);
    assert Leads(g, s, c.0, w[1..], a.0);
  }

  /** An edge more valuable than all others is in the tree. */
  lemma LargestInTree(g: Adjacency, order: seq<nat>, tree: seq<EdgeId>, e: EdgeId)
    requires Closed(g) && IsGreedy(g, order, tree) && IsEdge(g, e) && e.0 != Head(g, e)
    requires forall f: EdgeId | IsEdge(g, f) && f != e :: Val(g, f) < Val(g, e)
    ensures e in TreeEdges(tree, |tree|)
  {
    var i :| 0 <= i < |order| && order[i] == e.0;
    var j :| 0 <= j < |order| && order[j] == Head(g, e);
    var k := if i < j then j else i;
    assert AddedBy(g, order, tree[k], k);
    assert order[if i < j then i else j] in Earlier(order, k) && order[k] !in Earlier(order, k);
    assert Crosses(g, e, Earlier(order, k));
  }

  function Plain(from: nat, to: nat, val: int): Edge {
    Edge(from, to, val, 0, 0, false)
  }

  /** Block 0 branches to 1, 2 and 3, block 2 to 1 and 3, and 4 is the exit: the valued edges 0-2, 2-3 and 0-3
      form a triangle. */
  function Triangle(): Adjacency {
    map[0 := [Plain(0, 1, 0), Plain(0, 2, 1), Plain(0, 3, 3)], 1 := [Plain(1, 4, 0)],
        2 := [Plain(2, 1, 0), Plain(2, 3, 1)], 3 := [Plain(3, 4, 0)], 4 := []]
  }

  function TriangleShape(): Shape {
    map[0 := [1, 2, 3], 1 := [4], 2 := [1, 3], 3 := [4], 4 := []]
  }

  function TriangleRank(b: nat): nat {
    match b
    case 0 => 3
    case 2 => 2
    case 1 => 1
    case 3 => 1
    case _ => 0
  }

  lemma TriangleIsNumbered()
    ensures IsNumbered(Triangle(), TriangleShape(), {0, 1, 2, 3, 4}, TriangleRank, 0, 4)
    ensures PathCount(TriangleShape(), {0, 1, 2, 3, 4}, TriangleRank, 0) == 4
  {
    var g, t, region, rank := Triangle(), TriangleShape(), {0, 1, 2, 3, 4}, TriangleRank;
    forall b
      ensures HasShapeAt(g, t, b)
    {
    }
    TriangleCounts();
    forall u | u in region
      ensures NumberedAt(g, t, region, rank, u)
    {
    }
  }

  lemma TriangleCounts()
    ensures IsDag(TriangleShape(), {0, 1, 2, 3, 4}, TriangleRank)
    ensures var t, region := TriangleShape(), {0, 1, 2, 3, 4};
      && CountBelow(t, region, TriangleRank, 0, 0) == 0 && CountBelow(t, region, TriangleRank, 0, 1) == 1
      && CountBelow(t, region, TriangleRank, 0, 2) == 3 && PathCount(t, region, TriangleRank, 0) == 4
      && CountBelow(t, region, TriangleRank, 1, 0) == 0 && CountBelow(t, region, TriangleRank, 3, 0) == 0
      && CountBelow(t, region, TriangleRank, 2, 0) == 0 && CountBelow(t, region, TriangleRank, 2, 1) == 1
  {
    var t, region, rank := TriangleShape(), {0, 1, 2, 3, 4}, TriangleRank;
    assert IsDag(t, region, rank);
    assert PathCount(t, region, rank, 4) == 1;
    assert PathCount(t, region, rank, 3) == 1 by {
      assert CountBelow(t, region, rank, 3, 0) == 0;
    }
    assert PathCount(t, region, rank, 1) == 1 by {
      assert CountBelow(t, region, rank, 1, 0) == 0;
    }
    assert CountBelow(t, region, rank, 2, 0) == 0 && CountBelow(t, region, rank, 2, 1) == 1 &&
      CountBelow(t, region, rank, 2, 2) == 2;
    assert CountBelow(t, region, rank, 0, 0) == 0 && CountBelow(t, region, rank, 0, 1) == 1;
    assert CountBelow(t, region, rank, 0, 2) == 3 && CountBelow(t, region, rank, 0, 3) == 4;
  }

  lemma TriangleRun(tree: set<EdgeId>)
    ensures HasShape(Triangle(), TriangleShape()) && IsComplete(TriangleShape(), 0, [1, 1, 0])
    ensures Blocks(TriangleShape(), 0, [1, 1, 0]) == [0, 2, 3, 4]
    ensures ChordVals(Triangle(), TriangleShape(), tree, 0, [1, 1, 0]) ==
      (if (0, 1) in tree then 0 else 1) + (if (2, 1) in tree then 0 else 1)
  {
    TriangleIsNumbered();
    hide IsNumbered, HasShape, HasShapeAt;
    var g, t := Triangle(), TriangleShape();
    var p: seq<nat> := [1, 1, 0];
    assert p[1..] == [1, 0] && p[1..][1..] == [0] && p[1..][1..][1..] == [];
    assert IsWalk(t, 4, []) && IsWalk(t, 3, [0]) && IsWalk(t, 2, [1, 0]) && IsWalk(t, 0, p);
    assert End(t, 3, [0]) == 4 && End(t, 2, [1, 0]) == 4;
    assert Blocks(t, 3, [0]) == [3, 4] && Blocks(t, 2, [1, 0]) == [2, 3, 4];
    assert ChordVals(g, t, tree, 3, [0]) == 0;
    assert ChordVals(g, t, tree, 2, [1, 0]) == if (2, 1) in tree then 0 else 1;
  }

  /** The triangle with the edge from 4 back to 0. */
  function ClosedTriangle(): Adjacency {
    Triangle()[4 := [Plain(4, 0, 0)]]
  }

  lemma TriangleCloses()
    ensures WithClosingEdge(Triangle(), 0, 4) == ClosedTriangle()
    ensures WellNumbered(ClosedTriangle()) && Closed(ClosedTriangle())
  {
    assert [] + [Plain(4, 0, 0)] == [Plain(4, 0, 0)];
  }

  lemma EdgeOfTriangle(e: EdgeId)
    requires IsEdge(Triangle(), e)
    ensures e in {(0, 0), (0, 1), (0, 2), (1, 0), (2, 0), (2, 1), (3, 0)}
  {
  }

  lemma TriangleIsSimple()
    ensures Simple(Triangle())
  {
    var g := Triangle();
    assert Head(g, (0, 0)) == 1 && Head(g, (0, 1)) == 2 && Head(g, (0, 2)) == 3 && Head(g, (1, 0)) == 4;
    assert Head(g, (2, 0)) == 1 && Head(g, (2, 1)) == 3 && Head(g, (3, 0)) == 4;
    hide Head, Triangle;
    forall e: EdgeId, f: EdgeId | IsEdge(g, e) && IsEdge(g, f) && SameEnds(g, e, f)
      ensures e == f
    {
      EdgeOfTriangle(e);
      EdgeOfTriangle(f);
    }
  }

  lemma TriangleStep(e: EdgeId)
    requires IsEdge(ClosedTriangle(), e)
    ensures var g := ClosedTriangle(); var s := AllEdges(g);
      Connects(g, s, e.0, Head(g, e)) && Connects(g, s, Head(g, e), e.0)
  {
    hide ClosedTriangle;
    assert (e.0, e.1) in AllEdges(ClosedTriangle());
    ConnectsAlong(ClosedTriangle(), AllEdges(ClosedTriangle()), e);
  }

  lemma TriangleConnected()
    ensures Connected(ClosedTriangle(), AllEdges(ClosedTriangle()))
  {
    var g := ClosedTriangle();
    var s := AllEdges(g);
    ConnectsSelf(g, s, 0);
    TriangleStep((0, 0));
    TriangleStep((0, 1));
    TriangleStep((0, 2));
    TriangleStep((1, 0));
    assert Head(g, (0, 0)) == 1 && Head(g, (0, 1)) == 2 && Head(g, (0, 2)) == 3 && Head(g, (1, 0)) == 4;
    assert forall a | a in g :: a in {0, 1, 2, 3, 4};
    hide Connects, AllEdges, Head, ClosedTriangle;
    ConnectsThrough(g, s, 0, 1, 4);
    ConnectsThrough(g, s, 4, 1, 0);
    forall a, b | a in g && b in g
      ensures Connects(g, s, a, b)
    {
      assert Connects(g, s, a, 0) && Connects(g, s, 0, b);
      ConnectsThrough(g, s, a, 0, b);
    }
  }

  /** Whatever tree is grown from it, the run 0, 2, 3, 4 crosses a chord with a value. */
  lemma TriangleRunIsLost(order: seq<nat>, tree: seq<EdgeId>)
    requires IsGreedy(WithClosingEdge(Triangle(), 0, 4), order, tree)
    ensures HasShape(Triangle(), TriangleShape()) && IsComplete(TriangleShape(), 0, [1, 1, 0])
    ensures Blocks(TriangleShape(), 0, [1, 1, 0]) == [0, 2, 3, 4]
    ensures ChordVals(Triangle(), TriangleShape(), TreeEdges(tree, |tree|), 0, [1, 1, 0]) > 0
  {
    hide IsGreedy, TreeEdges, HasShape, ChordVals;
    TriangleRun(TreeEdges(tree, |tree|));
    TriangleCloses();
    TriangleLacksOne(order, tree);
  }

  lemma TriangleLacksOne(order: seq<nat>, tree: seq<EdgeId>)
    requires IsGreedy(ClosedTriangle(), order, tree)
    ensures !((0, 1) in TreeEdges(tree, |tree|) && (2, 1) in TreeEdges(tree, |tree|))
  {
    TriangleCloses();
    var g := ClosedTriangle();
    assert |order| == |g.Keys| && 0 in g;
    hide IsGreedy, TreeEdges, IsSpanningTree, Closed;
    GreedyIsSpanningTree(g, order, tree);
    LargestInTree(g, order, tree, (0, 2));
    NoTriangle(g, TreeEdges(tree, |tree|), (0, 2), (0, 1), (2, 1));
  }

  /** Instruments the triangle, makes the run 0, 2, 3, 4 and decodes its record: another path comes out. */
  method LoseTriangleRun(graph: Graph) returns (path: seq<nat>)
    requires graph.G == Triangle()
    modifies graph
    ensures path != [0, 2, 3, 4]
  {
    hide WellNumbered, Closed, Simple, Connected, IsGreedy, IsSpanningTree, IncrementsOk, IsNumbered, WithClosingEdge,
      ChordVals, IsComplete;
    TriangleIsNumbered();
    TriangleCloses();
    TriangleIsSimple();
    TriangleConnected();
    var inc;
    ghost var w;
    inc, w := GetIncValues(graph, 0, 4);
    TriangleRunIsLost(w.order, w.tree);
    path := RecordAndDecode(graph.G, TriangleShape(), 0, 4, [1, 1, 0], Triangle(), {0, 1, 2, 3, 4}, TriangleRank, inc,
      w);
  }
}
