/** The arithmetic of the depth-first walk that computes the chord increments. */
module ChordIncrements {
  import opened Wrappers
  import opened InstrumentationDag
  import opened SpanningTree

  /** Whether the walk leaves along f in the direction in which it arrived along e. */
  function Direction(g: Dag, e: Option<nat>, f: nat): int
    requires f < |g.source| == |g.target| && (e.Some? ==> e.value < |g.source|)
  {
    if e.None? then 1
    else if g.source[e.value] == g.target[f] || g.target[e.value] == g.source[f] then 1
    else -1
  }

  /** The walk carries the potential of v, with the sign of the edge it arrived along. */
  ghost predicate Carries(g: Dag, tree: seq<nat>, depth: seq<nat>, weight: int, v: nat, e: Option<nat>)
    requires IsSpanningTree(g, tree, depth) && v < g.nodes
  {
    match e
    case None => v == g.root && weight == 0
    case Some(e) =>
      && e in tree && Lower(g, depth, e) == v
      && weight == if g.target[e] == v then Potential(g, tree, depth, v) else -Potential(g, tree, depth, v)
  }

  /** What the nodes in `done` contribute to an edge. */
  ghost function Contribution(g: Dag, tree: seq<nat>, depth: seq<nat>, done: set<nat>, f: nat): int
    requires IsSpanningTree(g, tree, depth) && f < g.Edges()
  {
    (if g.source[f] in done then Potential(g, tree, depth, g.source[f]) else 0) -
    (if g.target[f] in done then Potential(g, tree, depth, g.target[f]) else 0)
  }

  /** The chords have received the contributions of `done`; nothing else changed. */
  ghost predicate Received(g: Dag, tree: seq<nat>, depth: seq<nat>, chords: seq<nat>, m0: Marks, m: Marks,
                           done: set<nat>)
    requires IsSpanningTree(g, tree, depth)
  {
    && MarksFit(g, m0) && MarksFit(g, m) && m.init == m0.init && m.count == m0.count
    && forall f | 0 <= f < g.Edges() ::
         m.inc[f] == m0.inc[f] + (if f in chords then Contribution(g, tree, depth, done, f) else 0)
  }

  /** Walking on along a tree edge away from the root carries the potential of its lower end. */
  lemma CarriesOn(g: Dag, rank: seq<nat>, tree: seq<nat>, depth: seq<nat>, weight: int, v: nat, e: Option<nat>, f: nat)
    requires g.Ranked(rank) && IsSpanningTree(g, tree, depth) && v < g.nodes && Carries(g, tree, depth, weight, v, e)
    requires f in tree && e != Some(f) && (g.source[f] == v || g.target[f] == v)
    ensures Upper(g, depth, f) == v
    ensures Carries(g, tree, depth, Direction(g, e, f) * weight + g.weight[f], Lower(g, depth, f), Some(f))
  {
    ParentEdgeUnique(g, tree, depth, f);
    if e.Some? {
      ParentEdgeUnique(g, tree, depth, e.value);
    }
    TreeEdgePotential(g, tree, depth, f);
    DirectionSign(g, rank, tree, depth, weight, v, e, f);
  }

  /** The direction turns the carried weight into plus or minus the potential. */
  lemma DirectionSign(g: Dag, rank: seq<nat>, tree: seq<nat>, depth: seq<nat>, weight: int, v: nat, e: Option<nat>,
                      f: nat)
    requires g.Ranked(rank) && IsSpanningTree(g, tree, depth) && v < g.nodes && Carries(g, tree, depth, weight, v, e)
    requires f < g.Edges() && (g.source[f] == v || g.target[f] == v)
    ensures g.source[f] != g.target[f]
    ensures Direction(g, e, f) * weight == if g.source[f] == v then Potential(g, tree, depth, v)
      else -Potential(g, tree, depth, v)
  {
    var d := Direction(g, e, f);
    assert d == 1 || d == -1;
    assert f != g.ExitRootEdge() ==> rank[g.source[f]] < rank[g.target[f]];
    if e.Some? {
      assert g.source[e.value] != g.target[e.value];
      assert g.source[e.value] == v || g.target[e.value] == v;
    }
  }

  /** The node itself adds its own contribution to the chords at it. */
  lemma ReceivedHere(g: Dag, rank: seq<nat>, tree: seq<nat>, depth: seq<nat>, weight: int, v: nat, e: Option<nat>,
                     f: nat)
    requires g.Ranked(rank) && IsSpanningTree(g, tree, depth) && v < g.nodes && Carries(g, tree, depth, weight, v, e)
    requires f < g.Edges()
    ensures Contribution(g, tree, depth, {v}, f) ==
      if g.source[f] == v || g.target[f] == v then Direction(g, e, f) * weight else 0
  {
    if g.source[f] == v || g.target[f] == v {
      DirectionSign(g, rank, tree, depth, weight, v, e, f);
    }
  }

  lemma ReceivedTogether(g: Dag, tree: seq<nat>, depth: seq<nat>, chords: seq<nat>, m0: Marks, m1: Marks, m2: Marks,
                         a: set<nat>, b: set<nat>)
    requires IsSpanningTree(g, tree, depth) && a !! b
    requires Received(g, tree, depth, chords, m0, m1, a) && Received(g, tree, depth, chords, m1, m2, b)
    ensures Received(g, tree, depth, chords, m0, m2, a + b)
  {
  }

  /** The subtrees below the first i tree edges down from v. */
  ghost function ChildSubtrees(g: Dag, tree: seq<nat>, depth: seq<nat>, v: nat, i: nat): set<nat>
    requires IsSpanningTree(g, tree, depth) && i <= |tree|
  {
    set u: nat | 0 <= u < g.nodes && InChildSubtree(g, tree, depth, v, i, u)
  }

  ghost predicate InChildSubtree(g: Dag, tree: seq<nat>, depth: seq<nat>, v: nat, i: nat, u: nat)
    requires IsSpanningTree(g, tree, depth) && i <= |tree| && u < g.nodes
  {
    exists j :: 0 <= j < i && Upper(g, depth, tree[j]) == v && Below(g, tree, depth, Lower(g, depth, tree[j]), u)
  }

  lemma NextChildMember(g: Dag, tree: seq<nat>, depth: seq<nat>, v: nat, i: nat, u: nat)
    requires IsSpanningTree(g, tree, depth) && v < g.nodes && i < |tree| && u < g.nodes
    ensures InChildSubtree(g, tree, depth, v, i + 1, u) <==>
      InChildSubtree(g, tree, depth, v, i, u) ||
        (Upper(g, depth, tree[i]) == v && Below(g, tree, depth, Lower(g, depth, tree[i]), u))
    ensures !(InChildSubtree(g, tree, depth, v, i, u) && Upper(g, depth, tree[i]) == v &&
      Below(g, tree, depth, Lower(g, depth, tree[i]), u))
  {
    hide Below;
    if InChildSubtree(g, tree, depth, v, i, u) {
      var j :| 0 <= j < i && Upper(g, depth, tree[j]) == v && Below(g, tree, depth, Lower(g, depth, tree[j]), u);
      assert Lower(g, depth, tree[j]) != Lower(g, depth, tree[i]);
      if Upper(g, depth, tree[i]) == v {
        SubtreesApart(g, tree, depth, Lower(g, depth, tree[j]), Lower(g, depth, tree[i]), u);
      }
    }
  }

  lemma NextChild(g: Dag, tree: seq<nat>, depth: seq<nat>, v: nat, i: nat)
    requires IsSpanningTree(g, tree, depth) && v < g.nodes && i < |tree|
    ensures Upper(g, depth, tree[i]) == v ==>
      ChildSubtrees(g, tree, depth, v, i + 1) ==
        ChildSubtrees(g, tree, depth, v, i) + Subtree(g, tree, depth, Lower(g, depth, tree[i]))
      && ChildSubtrees(g, tree, depth, v, i) !! Subtree(g, tree, depth, Lower(g, depth, tree[i]))
    ensures Upper(g, depth, tree[i]) != v ==>
      ChildSubtrees(g, tree, depth, v, i + 1) == ChildSubtrees(g, tree, depth, v, i)
  {
    hide InChildSubtree, Below;
    forall u: nat | u < g.nodes
      ensures InChildSubtree(g, tree, depth, v, i + 1, u) <==>
        InChildSubtree(g, tree, depth, v, i, u) ||
          (Upper(g, depth, tree[i]) == v && Below(g, tree, depth, Lower(g, depth, tree[i]), u))
      ensures !(InChildSubtree(g, tree, depth, v, i, u) && Upper(g, depth, tree[i]) == v &&
        Below(g, tree, depth, Lower(g, depth, tree[i]), u))
    {
      NextChildMember(g, tree, depth, v, i, u);
    }
  }

  lemma WholeSubtree(g: Dag, tree: seq<nat>, depth: seq<nat>, v: nat)
    requires IsSpanningTree(g, tree, depth) && v < g.nodes
    ensures Subtree(g, tree, depth, v) == ChildSubtrees(g, tree, depth, v, |tree|) + {v}
    ensures v !in ChildSubtrees(g, tree, depth, v, |tree|)
  {
    forall u: nat | u < g.nodes
      ensures u in Subtree(g, tree, depth, v) <==> u in ChildSubtrees(g, tree, depth, v, |tree|) + {v}
      ensures u == v ==> u !in ChildSubtrees(g, tree, depth, v, |tree|)
    {
      if u in Subtree(g, tree, depth, v) && u != v {
        BelowThroughChild(g, tree, depth, v, u);
      }
      if u in ChildSubtrees(g, tree, depth, v, |tree|) {
        var j :| 0 <= j < |tree| && Upper(g, depth, tree[j]) == v && Below(g, tree, depth, Lower(g, depth, tree[j]), u);
        ChildBelow(g, tree, depth, tree[j], u);
      }
    }
  }
}
