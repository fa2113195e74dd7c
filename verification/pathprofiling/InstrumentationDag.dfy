/** The Ball-Larus dag of assets/LLVMProfiler/PathProfiling.cpp: nodes and edges are numbered, the
    exit node is closed to the root by one extra edge, and every edge carries the marks that say what
    will be inserted on it. */
module InstrumentationDag {

  datatype Dag = Dag(
    nodes: nat,
    source: seq<nat>,
    target: seq<nat>,
    weight: seq<int>,
    succ: seq<seq<nat>>,
    pred: seq<seq<nat>>,
    root: nat,
    exit: nat)
  {
    function Edges(): nat {
      |source|
    }

    ghost predicate Shape() {
      && |target| == |source| && |weight| == |source| && |succ| == nodes && |pred| == nodes
      && (forall e | 0 <= e < |source| :: source[e] < nodes && target[e] < nodes)
      && (forall v, k | 0 <= v < nodes && 0 <= k < |succ[v]| :: succ[v][k] < |source| && source[succ[v][k]] == v)
      && (forall v, k | 0 <= v < nodes && 0 <= k < |pred[v]| :: pred[v][k] < |source| && target[pred[v][k]] == v)
      && (forall e | 0 <= e < |source| :: e in succ[source[e]] && e in pred[target[e]])
      && (forall v, j, k | 0 <= v < nodes && 0 <= j < k < |succ[v]| :: succ[v][j] != succ[v][k])
      && (forall v, j, k | 0 <= v < nodes && 0 <= j < k < |pred[v]| :: pred[v][j] != pred[v][k])
      && root < nodes && exit < nodes && root != exit
      && |succ[exit]| == 1 && |pred[root]| == 1 && target[succ[exit][0]] == root
    }

    /** The edge from the exit to the root: the exit's only successor edge and the root's only
        predecessor edge. */
    function ExitRootEdge(): (e: nat)
      requires Shape()
      ensures e < |source| && source[e] == exit && target[e] == root
    {
      succ[exit][0]
    }

    /** Without the closing edge there is no cycle: a topological numbering of the nodes increases
        along every other edge. */
    ghost predicate Ranked(rank: seq<nat>) {
      && Shape() && |rank| == nodes
      && (forall v | 0 <= v < nodes :: rank[v] < nodes)
      && forall e | 0 <= e < |source| && e != ExitRootEdge() :: rank[source[e]] < rank[target[e]]
    }

    /** Consecutive edges. */
    ghost predicate IsPath(p: seq<nat>)
      requires Shape()
    {
      && (forall i | 0 <= i < |p| :: p[i] < |source|)
      && (forall i | 0 <= i < |p| - 1 :: target[p[i]] == source[p[i + 1]])
    }

    /** A path through the dag from the root to the exit. */
    ghost predicate IsRootToExit(p: seq<nat>)
      requires Shape()
    {
      IsPath(p) && |p| > 0 && source[p[0]] == root && target[p[|p| - 1]] == exit && ExitRootEdge() !in p
    }
  }

  function Sum(values: seq<int>, p: seq<nat>): int
    requires forall i | 0 <= i < |p| :: p[i] < |values|
  {
    if p == [] then 0 else values[p[0]] + Sum(values, p[1..])
  }

  lemma {:induction false} SumAppend(values: seq<int>, p: seq<nat>, q: seq<nat>)
    requires (forall i | 0 <= i < |p| :: p[i] < |values|) && (forall i | 0 <= i < |q| :: q[i] < |values|)
    ensures Sum(values, p + q) == Sum(values, p) + Sum(values, q)
  {
    if p == [] {
      assert p + q == q;
    } else {
      assert (p + q)[1..] == p[1..] + q;
      SumAppend(values, p[1..], q);
    }
  }

  lemma {:induction false} SumSame(a: seq<int>, b: seq<int>, p: seq<nat>)
    requires (forall i | 0 <= i < |p| :: p[i] < |a|) && |a| == |b|
    requires forall i | 0 <= i < |p| :: a[p[i]] == b[p[i]]
    ensures Sum(a, p) == Sum(b, p)
  {
    if p != [] {
      SumSame(a, b, p[1..]);
    }
  }

  /** What will be inserted on each edge: an increment of the path register, whether it initialises the
      register instead of adding to it, and whether it bumps the counter of the register's value. */
  datatype Marks = Marks(inc: seq<int>, init: seq<bool>, count: seq<bool>)

  ghost predicate MarksFit(g: Dag, m: Marks) {
    |m.inc| == g.Edges() && |m.init| == g.Edges() && |m.count| == g.Edges()
  }

  /** Running along a path from a register value: the register values whose counters are bumped, in order. */
  function Counted(m: Marks, p: seq<nat>, register: int): seq<int>
    requires |m.init| == |m.inc| && |m.count| == |m.inc| && forall i | 0 <= i < |p| :: p[i] < |m.inc|
  {
    if p == [] then []
    else
      var r := if m.init[p[0]] then m.inc[p[0]] else register + m.inc[p[0]];
      (if m.count[p[0]] then [r] else []) + Counted(m, p[1..], r)
  }

  class BLInstrumentationEdge {
    var increment: int
    var isInitialization: bool
    var isCounterIncrement: bool

    constructor ()
      ensures increment == 0 && !isInitialization && !isCounterIncrement
    {
      increment, isInitialization, isCounterIncrement := 0, false, false;
    }
  }
}
