/** Spanning trees of the dag, rooted at its root, and the potential they give every node. */
module SpanningTree {
  import opened InstrumentationDag

  /** The tree edges span the dag: depth is the distance from the root in the tree, and every node but
      the root is the lower end of exactly one tree edge. */
  ghost predicate IsSpanningTree(g: Dag, tree: seq<nat>, depth: seq<nat>) {
    && g.Shape() && |depth| == g.nodes && depth[g.root] == 0
    && (forall v | 0 <= v < g.nodes :: depth[v] < g.nodes)
    && (forall i | 0 <= i < |tree| :: tree[i] < g.Edges() && (depth[g.source[tree[i]]] == depth[g.target[tree[i]]] + 1
                                                          || depth[g.target[tree[i]]] == depth[g.source[tree[i]]] + 1))
    && (forall i, j | 0 <= i < j < |tree| :: tree[i] != tree[j])
    && (forall v | 0 <= v < g.nodes && v != g.root :: IsLowerEnd(g, tree, depth, v))
    && (forall i, j | 0 <= i < j < |tree| :: Lower(g, depth, tree[i]) != Lower(g, depth, tree[j]))
  }

  ghost predicate IsLowerEnd(g: Dag, tree: seq<nat>, depth: seq<nat>, v: nat)
    requires g.Shape() && |depth| == g.nodes
  {
    exists i :: 0 <= i < |tree| && tree[i] < g.Edges() && Lower(g, depth, tree[i]) == v
  }

  function Lower(g: Dag, depth: seq<nat>, e: nat): nat
    requires e < |g.source| == |g.target| && g.source[e] < |depth| && g.target[e] < |depth|
  {
    if depth[g.source[e]] < depth[g.target[e]] then g.target[e] else g.source[e]
  }

  function Upper(g: Dag, depth: seq<nat>, e: nat): nat
    requires e < |g.source| == |g.target| && g.source[e] < |depth| && g.target[e] < |depth|
  {
    if depth[g.source[e]] < depth[g.target[e]] then g.source[e] else g.target[e]
  }

  ghost function ParentEdge(g: Dag, tree: seq<nat>, depth: seq<nat>, v: nat): (e: nat)
    requires IsSpanningTree(g, tree, depth) && v < g.nodes && v != g.root
    ensures e in tree && Lower(g, depth, e) == v
  {
    assert IsLowerEnd(g, tree, depth, v);
    var i :| 0 <= i < |tree| && Lower(g, depth, tree[i]) == v;
    tree[i]
  }

  lemma ParentEdgeUnique(g: Dag, tree: seq<nat>, depth: seq<nat>, e: nat)
    requires IsSpanningTree(g, tree, depth) && e in tree
    ensures Lower(g, depth, e) != g.root && ParentEdge(g, tree, depth, Lower(g, depth, e)) == e
  {
    var v := Lower(g, depth, e);
    var i :| 0 <= i < |tree| && tree[i] == e;
    assert depth[v] > 0;
    var j :| 0 <= j < |tree| && tree[j] == ParentEdge(g, tree, depth, v);
  }

  /** The signed sum of weights on the tree path from the root: forward edges count positive. */
  ghost function Potential(g: Dag, tree: seq<nat>, depth: seq<nat>, v: nat): int
    requires IsSpanningTree(g, tree, depth) && v < g.nodes
    decreases depth[v]
  {
    if v == g.root then 0
    else
      var e := ParentEdge(g, tree, depth, v);
      if g.target[e] == v then Potential(g, tree, depth, g.source[e]) + g.weight[e]
      else Potential(g, tree, depth, g.target[e]) - g.weight[e]
  }

  /** Along a tree edge the potential rises by the weight. */
  lemma TreeEdgePotential(g: Dag, tree: seq<nat>, depth: seq<nat>, e: nat)
    requires IsSpanningTree(g, tree, depth) && e in tree
    ensures Potential(g, tree, depth, g.target[e]) == Potential(g, tree, depth, g.source[e]) + g.weight[e]
  {
    ParentEdgeUnique(g, tree, depth, e);
  }

  /** u is v or lies below v in the tree. */
  ghost predicate Below(g: Dag, tree: seq<nat>, depth: seq<nat>, v: nat, u: nat)
    requires IsSpanningTree(g, tree, depth) && u < g.nodes
    decreases depth[u]
  {
    u == v || (u != g.root && Below(g, tree, depth, v, Upper(g, depth, ParentEdge(g, tree, depth, u))))
  }

  ghost function Subtree(g: Dag, tree: seq<nat>, depth: seq<nat>, v: nat): set<nat>
    requires IsSpanningTree(g, tree, depth)
  {
    set u: nat | 0 <= u < g.nodes && Below(g, tree, depth, v, u)
  }

  lemma {:induction false} BelowIsDeeper(g: Dag, tree: seq<nat>, depth: seq<nat>, v: nat, u: nat)
    requires IsSpanningTree(g, tree, depth) && u < g.nodes && v < g.nodes && Below(g, tree, depth, v, u)
    ensures u == v || depth[v] < depth[u]
    decreases depth[u]
  {
    if u != v {
      BelowIsDeeper(g, tree, depth, v, Upper(g, depth, ParentEdge(g, tree, depth, u)));
    }
  }

  /** The subtrees below two different nodes of the same depth are disjoint. */
  lemma {:induction false} SubtreesApart(g: Dag, tree: seq<nat>, depth: seq<nat>, v: nat, v': nat, u: nat)
    requires IsSpanningTree(g, tree, depth) && u < g.nodes && v < g.nodes && v' < g.nodes
    requires v != v' && depth[v] == depth[v'] && Below(g, tree, depth, v, u)
    ensures !Below(g, tree, depth, v', u)
    decreases depth[u]
  {
    if u == v {
      if Below(g, tree, depth, v', u) {
        BelowIsDeeper(g, tree, depth, v', u);
      }
    } else if u == v' {
      BelowIsDeeper(g, tree, depth, v, u);
    } else {
      SubtreesApart(g, tree, depth, v, v', Upper(g, depth, ParentEdge(g, tree, depth, u)));
    }
  }

  /** Below a node lie the node itself and what lies below the ends of the tree edges down from it. */
  lemma {:induction false} BelowThroughChild(g: Dag, tree: seq<nat>, depth: seq<nat>, v: nat, u: nat)
    requires IsSpanningTree(g, tree, depth) && u < g.nodes && v < g.nodes && Below(g, tree, depth, v, u) && u != v
    ensures exists i ::
      0 <= i < |tree| && Upper(g, depth, tree[i]) == v && Below(g, tree, depth, Lower(g, depth, tree[i]), u)
    decreases depth[u]
  {
    var e := ParentEdge(g, tree, depth, u);
    var up := Upper(g, depth, e);
    if up == v {
      var i :| 0 <= i < |tree| && tree[i] == e;
      assert Below(g, tree, depth, Lower(g, depth, tree[i]), u);
    } else {
      BelowThroughChild(g, tree, depth, v, up);
      var i :| 0 <= i < |tree| && Upper(g, depth, tree[i]) == v && Below(g, tree, depth, Lower(g, depth, tree[i]), up);
      assert Below(g, tree, depth, Lower(g, depth, tree[i]), u);
    }
  }

  lemma {:induction false} ChildBelow(g: Dag, tree: seq<nat>, depth: seq<nat>, e: nat, u: nat)
    requires IsSpanningTree(g, tree, depth) && e in tree && u < g.nodes && Below(g, tree, depth, Lower(g, depth, e), u)
    ensures Below(g, tree, depth, Upper(g, depth, e), u) && u != Upper(g, depth, e)
    decreases depth[u]
  {
    ParentEdgeUnique(g, tree, depth, e);
    BelowIsDeeper(g, tree, depth, Lower(g, depth, e), u);
    if u != Lower(g, depth, e) {
      ChildBelow(g, tree, depth, e, Upper(g, depth, ParentEdge(g, tree, depth, u)));
    }
  }

  lemma {:induction false} AllBelowRoot(g: Dag, tree: seq<nat>, depth: seq<nat>, u: nat)
    requires IsSpanningTree(g, tree, depth) && u < g.nodes
    ensures Below(g, tree, depth, g.root, u)
    decreases depth[u]
  {
    if u != g.root {
      AllBelowRoot(g, tree, depth, Upper(g, depth, ParentEdge(g, tree, depth, u)));
    }
  }

  // ----- increments -----

  /** The increments that replace the weights: weight plus the fall of the potential. Tree edges get 0. */
  ghost predicate HasChordIncrements(g: Dag, tree: seq<nat>, depth: seq<nat>, inc: seq<int>)
    requires IsSpanningTree(g, tree, depth)
  {
    |inc| == g.Edges() && forall e | 0 <= e < g.Edges() ::
      inc[e] == g.weight[e] + Potential(g, tree, depth, g.source[e]) - Potential(g, tree, depth, g.target[e])
  }

  /** The sum over a path telescopes. */
  lemma {:induction false} IncrementsTelescope(g: Dag, tree: seq<nat>, depth: seq<nat>, inc: seq<int>, p: seq<nat>)
    requires g.Shape() && IsSpanningTree(g, tree, depth) && HasChordIncrements(g, tree, depth, inc) && g.IsPath(p) &&
      |p| > 0
    ensures Sum(inc, p) == Sum(g.weight, p) + Potential(g, tree, depth, g.source[p[0]])
                                            - Potential(g, tree, depth, g.target[p[|p| - 1]])
  {
    hide IsSpanningTree, Potential;
    assert Sum(inc, p) == inc[p[0]] + Sum(inc, p[1..]);
    assert Sum(g.weight, p) == g.weight[p[0]] + Sum(g.weight, p[1..]);
    if |p| > 1 {
      assert g.target[p[0]] == g.source[p[1]];
      IncrementsTelescope(g, tree, depth, inc, p[1..]);
    }
  }

  /** On a closed walk the increments of the chords add up to the weights of all edges, so the tree
      edges need no instrumentation. */
  lemma ClosedWalkSum(g: Dag, tree: seq<nat>, depth: seq<nat>, inc: seq<int>, p: seq<nat>)
    requires IsSpanningTree(g, tree, depth) && HasChordIncrements(g, tree, depth, inc) && g.IsPath(p) && |p| > 0
    requires g.target[p[|p| - 1]] == g.source[p[0]]
    ensures Sum(inc, p) == Sum(g.weight, p)
    ensures forall e | e in tree :: inc[e] == 0
  {
    IncrementsTelescope(g, tree, depth, inc, p);
    forall e | e in tree
      ensures inc[e] == 0
    {
      TreeEdgePotential(g, tree, depth, e);
    }
  }
}
