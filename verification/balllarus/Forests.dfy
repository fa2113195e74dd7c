/** Cycles: a spanning tree has none, it is heaviest exactly when no chord outweighs an edge on the tree path between
    its ends, and a heaviest one holds all edges that have a value exactly when these have no cycle. */
module Forests {
  import opened PathCounts
  import opened SpanningTrees

  /** A walk that takes no edge twice. */
  ghost predicate IsTrail(g: Adjacency, s: set<EdgeId>, a: nat, w: seq<EdgeId>, b: nat) {
    Leads(g, s, a, w, b) && forall i, j | 0 <= i < j < |w| :: w[i] != w[j]
  }

  /** No edges of s make up a cycle. */
  ghost predicate IsForest(g: Adjacency, s: set<EdgeId>) {
    forall a, w | w != [] :: !IsTrail(g, s, a, w, a)
  }

  lemma SmallerForest(g: Adjacency, s: set<EdgeId>, s': set<EdgeId>)
    requires IsForest(g, s') && s <= s'
    ensures IsForest(g, s)
  {
    forall a, w: seq<EdgeId> | w != []
      ensures !IsTrail(g, s, a, w, a)
    {
      if IsTrail(g, s, a, w, a) {
        AllInSet(g, s, a, w, a);
        LeadsWithin(g, s, s', a, w, a);
        assert IsTrail(g, s', a, w, a);
        assert false;
      }
    }
  }

  lemma TrailBetween(g: Adjacency, s: set<EdgeId>, a: nat, b: nat) returns (w: seq<EdgeId>)
    requires Connects(g, s, a, b)
    ensures IsTrail(g, s, a, w, b)
  {
    var w0 :| Leads(g, s, a, w0, b);
    w := ShortestWalk(g, s, a, w0, b);
    forall i, j | 0 <= i < j < |w|
      ensures w[i] != w[j]
    {
      if w[i] == w[j] {
        var c := LeadsSplit(g, s, a, w, b, i);
        var u := Shortcut(g, s, a, w, b, i, c, j);
        assert false;
      }
    }
  }

  // ----- a spanning tree has no cycle -----

  /** Edges of s inside a set of blocks, one fewer than the blocks, grow until they reach all blocks. */
  lemma {:induction false} GrowInside(g: Adjacency, s: set<EdgeId>, inside: set<nat>, used: set<EdgeId>)
    requires Closed(g) && AreEdges(g, s) && Connected(g, s) && inside != {} && inside <= g.Keys
    requires used <= s && |used| + 1 >= |inside| && forall e | e in used :: e.0 in inside && Head(g, e) in inside
    ensures |s| + 1 >= |g.Keys|
    decreases g.Keys - inside
  {
    if g.Keys - inside == {} {
      assert inside == g.Keys;
      SubsetSize(used, s);
    } else {
      assert inside * g.Keys == inside;
      var f := EdgeOut(g, s, inside);
      var next := if f.0 in inside then Head(g, f) else f.0;
      hide Closed, Connected;
      GrowInside(g, s, inside + {next}, used + {f});
    }
  }

  lemma EdgeOut(g: Adjacency, s: set<EdgeId>, inside: set<nat>) returns (f: EdgeId)
    requires Connected(g, s) && inside * g.Keys != {} && g.Keys - inside != {}
    ensures f in s && Crosses(g, f, inside)
  {
    hide Leads, Crosses;
    var a :| a in inside * g.Keys;
    var b :| b in g.Keys - inside;
    var w := TrailBetween(g, s, a, b);
    var i, c := FirstCrossing(g, s, a, w, b, inside);
    AllInSet(g, s, a, w, b);
    f := w[i];
  }

  lemma SubsetSize<T>(a: set<T>, b: set<T>)
    requires a <= b
    ensures |a| <= |b|
  {
    assert b == a + (b - a);
  }

  lemma ConnectedHasEnough(g: Adjacency, s: set<EdgeId>)
    requires Closed(g) && AreEdges(g, s) && Connected(g, s)
    ensures |s| + 1 >= |g.Keys|
  {
    if a :| a in g {
      GrowInside(g, s, {a}, {});
    }
  }

  /** Without one of its edges a spanning tree no longer connects the ends of the edge. */
  lemma EdgeIsBridge(g: Adjacency, s: set<EdgeId>, e: EdgeId)
    requires Closed(g) && IsSpanningTree(g, s) && e in s
    ensures !Connects(g, s - {e}, e.0, Head(g, e))
  {
    if Connects(g, s - {e}, e.0, Head(g, e)) {
      ConnectsBack(g, s - {e}, e.0, Head(g, e));
      StillConnected(g, s, s - {e}, e);
      ConnectedHasEnough(g, s - {e});
      assert false;
    }
  }

  lemma TreeIsForest(g: Adjacency, s: set<EdgeId>)
    requires Closed(g) && IsSpanningTree(g, s)
    ensures IsForest(g, s)
  {
    forall a, w: seq<EdgeId> | w != []
      ensures !IsTrail(g, s, a, w, a)
    {
      if IsTrail(g, s, a, w, a) {
        var e, rest := w[0], w[1..];
        var m := Other(g, e, a);
        AllInSet(g, s, a, w, a);
        assert forall f | f in rest :: f in s - {e};
        LeadsWithin(g, s, s - {e}, m, rest, a);
        assert Connects(g, s - {e}, m, a);
        ConnectsBack(g, s - {e}, m, a);
        EdgeIsBridge(g, s, e);
        assert false;
      }
    }
  }

  // ----- heaviest spanning trees -----

  /** No chord has a larger value than an edge on the tree path between its ends. */
  ghost predicate ChordsAtMostPaths(g: Adjacency, s: set<EdgeId>) {
    forall e: EdgeId, w: seq<EdgeId>, i | IsEdge(g, e) && e !in s && IsTrail(g, s, e.0, w, Head(g, e)) &&
      0 <= i < |w| ::
      IsEdge(g, w[i]) && Val(g, e) <= Val(g, w[i])
  }

  /** The edge on the tree path can be exchanged for the chord. */
  lemma ChordAtMostPath(g: Adjacency, s: set<EdgeId>, e: EdgeId, w: seq<EdgeId>, i: nat)
    requires Closed(g) && IsSpanningTree(g, s) && IsHeaviest(g, s)
    requires IsEdge(g, e) && e !in s && IsTrail(g, s, e.0, w, Head(g, e)) && i < |w|
    ensures IsEdge(g, w[i]) && Val(g, e) <= Val(g, w[i])
  {
    var f := w[i];
    var s' := s - {f} + {e};
    AllInSet(g, s, e.0, w, Head(g, e));
    var c := LeadsSplit(g, s, e.0, w, Head(g, e), i);
    assert w[i..][0] == f && w[i..][1..] == w[i + 1..];
    var d := Other(g, f, c);
    LeadsWithin(g, s, s', e.0, w[..i], c);
    LeadsWithin(g, s, s', d, w[i + 1..], Head(g, e));
    AroundTheCut(g, s', e.0, w[..i], c, d, w[i + 1..], Head(g, e), e);
    StillConnected(g, s, s', f);
    assert IsSpanningTree(g, s');
    WeightWithout(g, s, f);
    WeightWith(g, s - {f}, e);
  }

  /** The blocks that r connects to a without its edge e. */
  ghost function Side(g: Adjacency, r: set<EdgeId>, e: EdgeId, a: nat): set<nat> {
    set b | b in g && Connects(g, r - {e}, a, b)
  }

  /** The only edge of r between the two sides of e is e. */
  lemma OnlyBridge(g: Adjacency, r: set<EdgeId>, e: EdgeId, a: nat, f: EdgeId)
    requires Closed(g) && f in r && Crosses(g, f, Side(g, r, e, a))
    ensures f == e
  {
    if f != e {
      ConnectsAlong(g, r - {e}, f);
      var x := if f.0 in Side(g, r, e, a) then f.0 else Head(g, f);
      var y := if f.0 in Side(g, r, e, a) then Head(g, f) else f.0;
      ConnectsThrough(g, r - {e}, a, x, y);
      assert false;
    }
  }

  /** Another spanning tree weighs no more: its edges outside s are exchanged one by one. */
  lemma {:induction false} WeighsNoMore(g: Adjacency, s: set<EdgeId>, r: set<EdgeId>)
    requires Closed(g) && IsSpanningTree(g, s) && ChordsAtMostPaths(g, s) && IsSpanningTree(g, r)
    ensures Weight(g, r) <= Weight(g, s)
    decreases |r - s|
  {
    if r - s == {} {
      SameSizeSubset(r, s);
    } else {
      var e :| e in r - s;
      var f := Replacement(g, s, r, e);
      var r' := r - {e} + {f};
      WeightWithout(g, r, e);
      WeightWith(g, r - {e}, f);
      assert r - s == (r' - s) + {e};
      WeighsNoMore(g, s, r');
    }
  }

  lemma Replacement(g: Adjacency, s: set<EdgeId>, r: set<EdgeId>, e: EdgeId) returns (f: EdgeId)
    requires Closed(g) && IsSpanningTree(g, s) && ChordsAtMostPaths(g, s) && IsSpanningTree(g, r) && e in r && e !in s
    ensures f in s && f !in r && IsEdge(g, f) && IsEdge(g, e) && Val(g, e) <= Val(g, f)
    ensures IsSpanningTree(g, r - {e} + {f})
  {
    var inside := Side(g, r, e, e.0);
    ConnectsSelf(g, r - {e}, e.0);
    EdgeIsBridge(g, r, e);
    var w := TrailBetween(g, s, e.0, Head(g, e));
    var i, c := FirstCrossing(g, s, e.0, w, Head(g, e), inside);
    f := w[i];
    AllInSet(g, s, e.0, w, Head(g, e));
    if f in r {
      OnlyBridge(g, r, e, e.0, f);
      assert false;
    }
    var f' := Exchange(g, r, inside, f);
    OnlyBridge(g, r, e, e.0, f');
  }

  /** A spanning tree is heaviest exactly when no chord outweighs an edge on the tree path between its ends. */
  lemma HeaviestIff(g: Adjacency, s: set<EdgeId>)
    requires Closed(g) && IsSpanningTree(g, s)
    ensures IsHeaviest(g, s) <==> ChordsAtMostPaths(g, s)
  {
    hide IsTrail;
    if IsHeaviest(g, s) {
      forall e: EdgeId, w: seq<EdgeId>, i | IsEdge(g, e) && e !in s && IsTrail(g, s, e.0, w, Head(g, e)) && 0 <= i < |w|
        ensures IsEdge(g, w[i]) && Val(g, e) <= Val(g, w[i])
      {
        ChordAtMostPath(g, s, e, w, i);
      }
    }
    if ChordsAtMostPaths(g, s) {
      forall r | IsSpanningTree(g, r)
        ensures Weight(g, r) <= Weight(g, s)
      {
        WeighsNoMore(g, s, r);
      }
    }
  }

  // ----- edges with a value -----

  function ValuedEdges(g: Adjacency): set<EdgeId> {
    set e | e in AllEdges(g) && IsEdge(g, e) && Val(g, e) > 0
  }

  lemma ValuedIs(g: Adjacency, e: EdgeId)
    ensures e in ValuedEdges(g) <==> IsEdge(g, e) && Val(g, e) > 0
  {
    if IsEdge(g, e) {
      assert (e.0, e.1) in AllEdges(g);
    }
  }

  /** If the edges that have a value have no cycle, every tree path between the ends of a chord has an edge without
      one. */
  lemma ValuelessOnCycle(g: Adjacency, s: set<EdgeId>, e: EdgeId, w: seq<EdgeId>) returns (i: nat)
    requires IsForest(g, ValuedEdges(g)) && e in ValuedEdges(g) && e !in s && IsTrail(g, s, e.0, w, Head(g, e))
    ensures i < |w| && (IsEdge(g, w[i]) ==> Val(g, w[i]) <= 0)
  {
    AllInSet(g, s, e.0, w, Head(g, e));
    if j :| 0 <= j < |w| && w[j] !in ValuedEdges(g) {
      ValuedIs(g, w[j]);
      i := j;
    } else {
      ValuedIs(g, e);
      var one: seq<EdgeId> := [e];
      assert one[1..] == [] && Leads(g, ValuedEdges(g), Head(g, e), one, e.0);
      LeadsWithin(g, s, ValuedEdges(g), e.0, w, Head(g, e));
      LeadsAppend(g, ValuedEdges(g), e.0, w, Head(g, e), one, e.0);
      assert IsTrail(g, ValuedEdges(g), e.0, w + one, e.0);
      assert false;
    }
  }

  /** A heaviest spanning tree holds every edge that has a value exactly when those edges have no cycle. */
  lemma ValuedInHeaviest(g: Adjacency, s: set<EdgeId>)
    requires Closed(g) && IsSpanningTree(g, s) && IsHeaviest(g, s)
    ensures ValuedEdges(g) <= s <==> IsForest(g, ValuedEdges(g))
  {
    if ValuedEdges(g) <= s {
      TreeIsForest(g, s);
      SmallerForest(g, ValuedEdges(g), s);
    }
    if IsForest(g, ValuedEdges(g)) {
      forall e | e in ValuedEdges(g)
        ensures e in s
      {
        ValuedIs(g, e);
        if e !in s {
          var w := TrailBetween(g, s, e.0, Head(g, e));
          var i := ValuelessOnCycle(g, s, e, w);
          ChordAtMostPath(g, s, e, w, i);
          assert false;
        }
      }
    }
  }
}
