/** Spanning trees of the abstract graph taken as an undirected multigraph, and why a greedily grown one
    is maximum. */
module SpanningTrees {
  import opened PathCounts

  /** An edge is named by its block and its position in the block's list. */
  type EdgeId = (nat, nat)

  predicate IsEdge(g: Adjacency, e: EdgeId) {
    e.0 in g && e.1 < |g[e.0]|
  }

  function Head(g: Adjacency, e: EdgeId): nat
    requires IsEdge(g, e)
  {
    g[e.0][e.1].to
  }

  function Val(g: Adjacency, e: EdgeId): int
    requires IsEdge(g, e)
  {
    g[e.0][e.1].val
  }

  predicate Incident(g: Adjacency, e: EdgeId, a: nat) {
    IsEdge(g, e) && (e.0 == a || Head(g, e) == a)
  }

  function Other(g: Adjacency, e: EdgeId, a: nat): nat
    requires IsEdge(g, e)
  {
    if e.0 == a then Head(g, e) else e.0
  }

  /** Every edge ends at a block of the graph. */
  ghost predicate Closed(g: Adjacency) {
    forall e: EdgeId | IsEdge(g, e) :: Head(g, e) in g
  }

  function AllEdges(g: Adjacency): set<EdgeId> {
    set b, i | b in g && 0 <= i < |g[b]| :: (b, i)
  }

  ghost predicate AreEdges(g: Adjacency, s: set<EdgeId>) {
    forall e | e in s :: IsEdge(g, e)
  }

  /** w leads from a to b along edges of s, in either direction. */
  predicate Leads(g: Adjacency, s: set<EdgeId>, a: nat, w: seq<EdgeId>, b: nat)
    decreases |w|
  {
    if w == [] then a == b
    else w[0] in s && Incident(g, w[0], a) && Leads(g, s, Other(g, w[0], a), w[1..], b)
  }

  ghost predicate Connects(g: Adjacency, s: set<EdgeId>, a: nat, b: nat) {
    exists w :: Leads(g, s, a, w, b)
  }

  ghost predicate Connected(g: Adjacency, s: set<EdgeId>) {
    forall a, b | a in g && b in g :: Connects(g, s, a, b)
  }

  /** A spanning tree: connected with one edge fewer than there are blocks. */
  ghost predicate IsSpanningTree(g: Adjacency, s: set<EdgeId>) {
    AreEdges(g, s) && Connected(g, s) && |s| + 1 == |g.Keys|
  }

  ghost function Weight(g: Adjacency, s: set<EdgeId>): int
    requires AreEdges(g, s)
    decreases |s|
  {
    if s == {} then 0
    else
      var e :| e in s;
      Val(g, e) + Weight(g, s - {e})
  }

  /** No spanning tree weighs more. */
  ghost predicate IsHeaviest(g: Adjacency, s: set<EdgeId>)
    requires AreEdges(g, s)
  {
    forall r | IsSpanningTree(g, r) :: Weight(g, r) <= Weight(g, s)
  }

  lemma {:induction false} WeightWithout(g: Adjacency, s: set<EdgeId>, e: EdgeId)
    requires AreEdges(g, s) && e in s
    ensures Weight(g, s) == Val(g, e) + Weight(g, s - {e})
    decreases |s|
  {
    var f :| f in s && Weight(g, s) == Val(g, f) + Weight(g, s - {f});
    if f != e {
      WeightWithout(g, s - {f}, e);
      WeightWithout(g, s - {e}, f);
      assert s - {f} - {e} == s - {e} - {f};
    }
  }

  lemma WeightWith(g: Adjacency, s: set<EdgeId>, e: EdgeId)
    requires AreEdges(g, s) && IsEdge(g, e) && e !in s
    ensures Weight(g, s + {e}) == Weight(g, s) + Val(g, e)
  {
    WeightWithout(g, s + {e}, e);
    assert s + {e} - {e} == s;
  }

  // ----- walks -----

  lemma {:induction false} LeadsAppend(g: Adjacency, s: set<EdgeId>, a: nat, v: seq<EdgeId>, b: nat, w: seq<EdgeId>,
                                       c: nat)
    requires Leads(g, s, a, v, b) && Leads(g, s, b, w, c)
    ensures Leads(g, s, a, v + w, c)
    decreases |v|
  {
    if v == [] {
      assert v + w == w;
    } else {
      assert (v + w)[1..] == v[1..] + w;
      LeadsAppend(g, s, Other(g, v[0], a), v[1..], b, w, c);
    }
  }

  lemma {:induction false} LeadsBack(g: Adjacency, s: set<EdgeId>, a: nat, w: seq<EdgeId>, b: nat)
    returns (v: seq<EdgeId>)
    requires Leads(g, s, a, w, b)
    ensures Leads(g, s, b, v, a)
    decreases |w|
  {
    if w == [] {
      v := [];
    } else {
      var m := Other(g, w[0], a);
      v := LeadsBack(g, s, m, w[1..], b);
      var one: seq<EdgeId> := [w[0]];
      assert one[1..] == [];
      assert Leads(g, s, m, one, a);
      LeadsAppend(g, s, b, v, m, one, a);
      v := v + one;
    }
  }

  lemma ConnectsThrough(g: Adjacency, s: set<EdgeId>, a: nat, b: nat, c: nat)
    requires Connects(g, s, a, b) && Connects(g, s, b, c)
    ensures Connects(g, s, a, c)
  {
    var v :| Leads(g, s, a, v, b);
    var w :| Leads(g, s, b, w, c);
    LeadsAppend(g, s, a, v, b, w, c);
  }

  lemma ConnectsBack(g: Adjacency, s: set<EdgeId>, a: nat, b: nat)
    requires Connects(g, s, a, b)
    ensures Connects(g, s, b, a)
  {
    var w :| Leads(g, s, a, w, b);
    var v := LeadsBack(g, s, a, w, b);
  }

  lemma ConnectsAlong(g: Adjacency, s: set<EdgeId>, e: EdgeId)
    requires e in s && IsEdge(g, e)
    ensures Connects(g, s, e.0, Head(g, e)) && Connects(g, s, Head(g, e), e.0)
  {
    var one: seq<EdgeId> := [e];
    assert one[1..] == [];
    assert Leads(g, s, e.0, one, Head(g, e));
    ConnectsBack(g, s, e.0, Head(g, e));
  }

  lemma ConnectsSelf(g: Adjacency, s: set<EdgeId>, a: nat)
    ensures Connects(g, s, a, a)
  {
    assert Leads(g, s, a, [], a);
  }

  /** A walk stays a walk in any edge set that connects the ends of each of its edges. */
  lemma {:induction false} Rerouted(g: Adjacency, s: set<EdgeId>, s': set<EdgeId>, a: nat, w: seq<EdgeId>, b: nat)
    requires Leads(g, s, a, w, b)
    requires forall e | e in w && IsEdge(g, e) :: Connects(g, s', e.0, Head(g, e)) && Connects(g, s', Head(g, e), e.0)
    ensures Connects(g, s', a, b)
    decreases |w|
  {
    if w == [] {
      ConnectsSelf(g, s', a);
    } else {
      var m := Other(g, w[0], a);
      assert w[0] in w;
      Rerouted(g, s, s', m, w[1..], b);
      ConnectsThrough(g, s', a, m, b);
    }
  }

  lemma {:induction false} ShortestWalk(g: Adjacency, s: set<EdgeId>, a: nat, w: seq<EdgeId>, b: nat)
    returns (v: seq<EdgeId>)
    requires Leads(g, s, a, w, b)
    ensures Leads(g, s, a, v, b) && forall u | Leads(g, s, a, u, b) :: |v| <= |u|
    decreases |w|
  {
    if u :| Leads(g, s, a, u, b) && |u| < |w| {
      v := ShortestWalk(g, s, a, u, b);
    } else {
      v := w;
    }
  }

  /** A walk splits at every position. */
  lemma {:induction false} LeadsSplit(g: Adjacency, s: set<EdgeId>, a: nat, w: seq<EdgeId>, b: nat, i: nat)
    returns (m: nat)
    requires Leads(g, s, a, w, b) && i <= |w|
    ensures Leads(g, s, a, w[..i], m) && Leads(g, s, m, w[i..], b)
    decreases |w|
  {
    if i == 0 {
      m := a;
      assert w[..0] == [] && w[0..] == w;
    } else {
      m := LeadsSplit(g, s, Other(g, w[0], a), w[1..], b, i - 1);
      assert w[..i][1..] == w[1..][..i - 1] && w[1..][i - 1..] == w[i..];
    }
  }

  /** A walk that takes the same edge twice can be cut short; c is where it stands before its i-th edge. */
  lemma Shortcut(g: Adjacency, s: set<EdgeId>, a: nat, w: seq<EdgeId>, b: nat, i: nat, c: nat, j: nat)
    returns (u: seq<EdgeId>)
    requires Leads(g, s, a, w, b) && i < j < |w| && w[j] == w[i]
    requires Leads(g, s, a, w[..i], c) && Leads(g, s, c, w[i..], b)
    ensures Leads(g, s, a, u, b) && |u| < |w|
  {
    var d := LeadsSplit(g, s, c, w[i..], b, j - i);
    assert w[i..][j - i..] == w[j..];
    if d == c {
      LeadsAppend(g, s, a, w[..i], c, w[j..], b);
      u := w[..i] + w[j..];
    } else {
      assert w[j..][0] == w[j] && w[i..][0] == w[i];
      assert Other(g, w[j], d) == c;
      assert w[j..][1..] == w[j + 1..];
      LeadsAppend(g, s, a, w[..i], c, w[j + 1..], b);
      u := w[..i] + w[j + 1..];
    }
  }

  /** One end inside, one outside. */
  predicate Crosses(g: Adjacency, e: EdgeId, inside: set<nat>) {
    IsEdge(g, e) && (e.0 in inside) != (Head(g, e) in inside)
  }

  /** The first edge of a walk that leaves the set it starts in. */
  lemma {:induction false} FirstCrossing(g: Adjacency, s: set<EdgeId>, a: nat, w: seq<EdgeId>, b: nat, inside: set<nat>)
    returns (i: nat, c: nat)
    requires Leads(g, s, a, w, b) && a in inside && b !in inside
    ensures i < |w| && Crosses(g, w[i], inside) && c in inside
    ensures Leads(g, s, a, w[..i], c) && Leads(g, s, c, w[i..], b)
    ensures forall j | 0 <= j < i :: !Crosses(g, w[j], inside)
    decreases |w|
  {
    var m := Other(g, w[0], a);
    if m !in inside {
      i, c := 0, a;
      assert w[..0] == [] && w[0..] == w;
    } else {
      i, c := FirstCrossing(g, s, m, w[1..], b, inside);
      i := i + 1;
      assert w[..i][1..] == w[1..][..i - 1] && w[1..][i - 1..] == w[i..];
      forall j | 0 <= j < i
        ensures !Crosses(g, w[j], inside)
      {
        if j > 0 {
          assert w[j] == w[1..][j - 1];
        }
      }
    }
  }

  lemma {:induction false} LeadsWithin(g: Adjacency, s: set<EdgeId>, s': set<EdgeId>, a: nat, w: seq<EdgeId>, b: nat)
    requires Leads(g, s, a, w, b) && forall e | e in w :: e in s'
    ensures Leads(g, s', a, w, b)
    decreases |w|
  {
    if w != [] {
      assert w[0] in w && forall e | e in w[1..] :: e in w;
      LeadsWithin(g, s, s', Other(g, w[0], a), w[1..], b);
    }
  }

  /** Exchange: a spanning tree meets any edge t that crosses a cut in a crossing edge f, and putting t
      in place of f leaves a spanning tree. */
  lemma Exchange(g: Adjacency, s: set<EdgeId>, inside: set<nat>, t: EdgeId) returns (f: EdgeId)
    requires Closed(g) && IsSpanningTree(g, s) && Crosses(g, t, inside) && t !in s
    ensures f in s && Crosses(g, f, inside) && IsSpanningTree(g, s - {f} + {t})
  {
    var x, y := if t.0 in inside then t.0 else Head(g, t), if t.0 in inside then Head(g, t) else t.0;
    assert Connects(g, s, x, y);
    var w0 :| Leads(g, s, x, w0, y);
    var w := ShortestWalk(g, s, x, w0, y);
    var i, c := FirstCrossing(g, s, x, w, y, inside);
    f := w[i];
    assert w[i..][0] == f && w[i..][1..] == w[i + 1..];
    var d := Other(g, f, c);
    var s' := s - {f} + {t};
    AllInSet(g, s, x, w, y);
    forall j | i < j < |w|
      ensures w[j] != f
    {
      if w[j] == f {
        var u := Shortcut(g, s, x, w, y, i, c, j);
        assert false;
      }
    }
    LeadsWithin(g, s, s', x, w[..i], c);
    LeadsWithin(g, s, s', d, w[i + 1..], y);
    AroundTheCut(g, s', x, w[..i], c, d, w[i + 1..], y, t);
    StillConnected(g, s, s', f);
  }

  /** From c back to x, over t to y, and back to d. */
  lemma AroundTheCut(g: Adjacency, s: set<EdgeId>, x: nat, v: seq<EdgeId>, c: nat, d: nat, w: seq<EdgeId>, y: nat,
                     t: EdgeId)
    requires Leads(g, s, x, v, c) && Leads(g, s, d, w, y) && t in s && IsEdge(g, t)
    requires (t.0 == x && Head(g, t) == y) || (t.0 == y && Head(g, t) == x)
    ensures Connects(g, s, c, d) && Connects(g, s, d, c)
  {
    assert Connects(g, s, x, c) && Connects(g, s, d, y);
    ConnectsBack(g, s, x, c);
    ConnectsAlong(g, s, t);
    ConnectsThrough(g, s, c, x, y);
    ConnectsBack(g, s, d, y);
    ConnectsThrough(g, s, c, y, d);
    ConnectsBack(g, s, c, d);
  }

  lemma {:induction false} AllInSet(g: Adjacency, s: set<EdgeId>, a: nat, w: seq<EdgeId>, b: nat)
    requires Leads(g, s, a, w, b)
    ensures forall e | e in w :: e in s
    decreases |w|
  {
    if w != [] {
      AllInSet(g, s, Other(g, w[0], a), w[1..], b);
      assert w == [w[0]] + w[1..];
    }
  }

  lemma StillConnected(g: Adjacency, s: set<EdgeId>, s': set<EdgeId>, f: EdgeId)
    requires AreEdges(g, s) && Connected(g, s) && f in s && s - {f} <= s'
    requires Connects(g, s', f.0, Head(g, f)) && Connects(g, s', Head(g, f), f.0)
    ensures Connected(g, s')
  {
    forall a, b | a in g && b in g
      ensures Connects(g, s', a, b)
    {
      assert Connects(g, s, a, b);
      var w :| Leads(g, s, a, w, b);
      AllInSet(g, s, a, w, b);
      forall e | e in w && IsEdge(g, e)
        ensures Connects(g, s', e.0, Head(g, e)) && Connects(g, s', Head(g, e), e.0)
      {
        if e != f {
          ConnectsAlong(g, s', e);
        }
      }
      Rerouted(g, s, s', a, w, b);
    }
  }

  // ----- greedy growth -----

  /** The blocks in the order they were added and, for each but the first, the edge it was added by: it
      joins the block to an earlier one, and no edge leaving the earlier blocks has a larger value. */
  ghost predicate IsGreedy(g: Adjacency, order: seq<nat>, tree: seq<EdgeId>) {
    && |tree| == |order| && |order| == |g.Keys| && (forall b :: b in order <==> b in g)
    && (forall i, j | 0 <= i < j < |order| :: order[i] != order[j])
    && (forall k | 1 <= k < |order| :: AddedBy(g, order, tree[k], k))
  }

  function Earlier(order: seq<nat>, k: nat): set<nat>
    requires k <= |order|
  {
    set i | 0 <= i < k :: order[i]
  }

  ghost predicate AddedBy(g: Adjacency, order: seq<nat>, e: EdgeId, k: nat)
    requires k < |order|
  {
    && Incident(g, e, order[k]) && Other(g, e, order[k]) in Earlier(order, k)
    && forall f | Crosses(g, f, Earlier(order, k)) :: Val(g, f) <= Val(g, e)
  }

  /** The edges that added blocks 1 to k - 1. */
  function TreeEdges(tree: seq<EdgeId>, k: nat): set<EdgeId>
    requires k <= |tree|
  {
    set i | 1 <= i < k :: tree[i]
  }

  lemma AddedCrosses(g: Adjacency, order: seq<nat>, tree: seq<EdgeId>, k: nat)
    requires IsGreedy(g, order, tree) && 1 <= k < |order|
    ensures Crosses(g, tree[k], Earlier(order, k))
    ensures forall i | 1 <= i < k :: !Crosses(g, tree[i], Earlier(order, k)) && tree[i] != tree[k]
  {
    assert AddedBy(g, order, tree[k], k);
    assert order[k] !in Earlier(order, k);
    forall i | 1 <= i < k
      ensures !Crosses(g, tree[i], Earlier(order, k))
    {
      assert AddedBy(g, order, tree[i], i);
      assert order[i] in Earlier(order, k) && Earlier(order, i) <= Earlier(order, k);
    }
  }

  lemma {:induction false} TreeSize(g: Adjacency, order: seq<nat>, tree: seq<EdgeId>, k: nat)
    requires IsGreedy(g, order, tree) && 1 <= k <= |order|
    ensures |TreeEdges(tree, k)| == k - 1 && AreEdges(g, TreeEdges(tree, k))
  {
    if k == 1 {
      assert TreeEdges(tree, 1) == {};
    } else {
      TreeSize(g, order, tree, k - 1);
      NotInTreeYet(g, order, tree, k - 1);
      MoreTreeEdges(tree, k - 1);
      hide IsGreedy, TreeEdges;
    }
  }

  lemma NotInTreeYet(g: Adjacency, order: seq<nat>, tree: seq<EdgeId>, k: nat)
    requires IsGreedy(g, order, tree) && 1 <= k < |order|
    ensures tree[k] !in TreeEdges(tree, k) && IsEdge(g, tree[k])
  {
    AddedCrosses(g, order, tree, k);
  }

  lemma MoreTreeEdges(tree: seq<EdgeId>, k: nat)
    requires 1 <= k < |tree|
    ensures TreeEdges(tree, k + 1) == TreeEdges(tree, k) + {tree[k]}
  {
    forall e | e in TreeEdges(tree, k + 1)
      ensures e in TreeEdges(tree, k) + {tree[k]}
    {
      var i :| 1 <= i < k + 1 && tree[i] == e;
    }
  }

  lemma {:induction false} ReachesFirst(g: Adjacency, order: seq<nat>, tree: seq<EdgeId>, k: nat)
    requires IsGreedy(g, order, tree) && k < |order|
    ensures Connects(g, TreeEdges(tree, |tree|), order[k], order[0])
  {
    var s := TreeEdges(tree, |tree|);
    if k == 0 {
      ConnectsSelf(g, s, order[0]);
    } else {
      assert AddedBy(g, order, tree[k], k);
      var o := Other(g, tree[k], order[k]);
      var j :| 0 <= j < k && order[j] == o;
      ReachesFirst(g, order, tree, j);
      ConnectsAlong(g, s, tree[k]);
      ConnectsThrough(g, s, order[k], o, order[0]);
    }
  }

  lemma GreedyIsSpanningTree(g: Adjacency, order: seq<nat>, tree: seq<EdgeId>)
    requires IsGreedy(g, order, tree) && |order| > 0
    ensures IsSpanningTree(g, TreeEdges(tree, |tree|))
  {
    var s := TreeEdges(tree, |tree|);
    TreeSize(g, order, tree, |order|);
    forall a, b | a in g && b in g
      ensures Connects(g, s, a, b)
    {
      var i :| 0 <= i < |order| && order[i] == a;
      var j :| 0 <= j < |order| && order[j] == b;
      ReachesFirst(g, order, tree, i);
      ReachesFirst(g, order, tree, j);
      ConnectsBack(g, s, b, order[0]);
      ConnectsThrough(g, s, a, order[0], b);
    }
  }

  /** Any spanning tree can be turned step by step into one that contains the first greedy edges,
      without losing weight. */
  lemma {:induction false} Improve(g: Adjacency, order: seq<nat>, tree: seq<EdgeId>, s: set<EdgeId>, k: nat)
    returns (s': set<EdgeId>)
    requires Closed(g) && IsGreedy(g, order, tree) && 1 <= k <= |order| && IsSpanningTree(g, s)
    ensures IsSpanningTree(g, s') && TreeEdges(tree, k) <= s' && Weight(g, s) <= Weight(g, s')
  {
    if k == 1 {
      s' := s;
      assert TreeEdges(tree, 1) == {};
    } else {
      var r := Improve(g, order, tree, s, k - 1);
      s' := ImproveOnce(g, order, tree, r, k - 1);
    }
  }

  lemma ImproveOnce(g: Adjacency, order: seq<nat>, tree: seq<EdgeId>, r: set<EdgeId>, k: nat) returns (s: set<EdgeId>)
    requires Closed(g) && IsGreedy(g, order, tree) && 1 <= k < |order| && IsSpanningTree(g, r) &&
      TreeEdges(tree, k) <= r
    ensures IsSpanningTree(g, s) && TreeEdges(tree, k + 1) <= s && Weight(g, r) <= Weight(g, s)
  {
    var t := tree[k];
    AddedCrosses(g, order, tree, k);
    assert AddedBy(g, order, t, k);
    MoreTreeEdges(tree, k);
    if t in r {
      s := r;
    } else {
      var f := Exchange(g, r, Earlier(order, k), t);
      s := r - {f} + {t};
      forall e | e in TreeEdges(tree, k)
        ensures e != f
      {
      }
      WeightWithout(g, r, f);
      WeightWith(g, r - {f}, t);
    }
  }

  /** The greedily grown tree is a maximum spanning tree. */
  lemma GreedyIsMaximum(g: Adjacency, order: seq<nat>, tree: seq<EdgeId>, s: set<EdgeId>)
    requires Closed(g) && IsGreedy(g, order, tree) && |order| > 0 && IsSpanningTree(g, s)
    ensures IsSpanningTree(g, TreeEdges(tree, |tree|))
    ensures Weight(g, s) <= Weight(g, TreeEdges(tree, |tree|))
  {
    GreedyIsSpanningTree(g, order, tree);
    var s' := Improve(g, order, tree, s, |order|);
    SameSizeSubset(TreeEdges(tree, |tree|), s');
  }

  lemma SameSizeSubset<T>(a: set<T>, b: set<T>)
    requires a <= b && |a| == |b|
    ensures a == b
  {
    assert b == a + (b - a);
  }
}
