/** getAbstractGraph of BallLarusProfiler/BallLarusProfiler.cpp: every back edge of the control-flow graph is
    replaced by an edge to the exit and an edge from the entry to the loop header. */
module AbstractGraph {
  import opened PathCounts

  /** Blocks are numbered in the order of the function, the entry first; back holds the back edges found in
      the function, named by their ends. */
  datatype CFG = CFG(succ: seq<seq<nat>>, exit: nat, back: set<(nat, nat)>)

  function SuccOf(f: CFG, b: nat): seq<nat> {
    if b < |f.succ| then f.succ[b] else []
  }

  predicate IsBack(f: CFG, b: nat, i: nat) {
    i < |SuccOf(f, b)| && (b, SuccOf(f, b)[i]) in f.back
  }

  /** The headers of the back edges before the i-th edge of block b, in order. */
  function Headers(f: CFG, b: nat, i: nat): seq<nat>
    requires i <= |SuccOf(f, b)|
    decreases b, i
  {
    if i > 0 then Headers(f, b, i - 1) + if IsBack(f, b, i - 1) then [SuccOf(f, b)[i - 1]] else []
    else if b > 0 then Headers(f, b - 1, |SuccOf(f, b - 1)|)
    else []
  }

  function AllHeaders(f: CFG): seq<nat> {
    Headers(f, |f.succ|, 0)
  }

  /** The edge of the abstract graph for the i-th edge of block b; a back edge leads to the exit. */
  function OwnEdge(f: CFG, b: nat, i: nat): Edge
    requires i < |SuccOf(f, b)|
  {
    if IsBack(f, b, i) then Edge(b, f.exit, 0, 0, |Headers(f, b, i)| + 1, false)
    else Edge(b, SuccOf(f, b)[i], 0, 0, 0, false)
  }

  function OwnEdges(f: CFG, b: nat, i: nat): seq<Edge>
    requires i <= |SuccOf(f, b)|
  {
    if i == 0 then [] else OwnEdges(f, b, i - 1) + [OwnEdge(f, b, i - 1)]
  }

  /** A block without successors other than the exit leads to the exit. */
  function EdgesOf(f: CFG, b: nat): seq<Edge> {
    if b < |f.succ| && SuccOf(f, b) == [] && b != f.exit then [Edge(b, f.exit, 0, 0, 0, false)]
    else OwnEdges(f, b, |SuccOf(f, b)|)
  }

  function HeaderEdges(headers: seq<nat>): seq<Edge> {
    seq(|headers|, k requires 0 <= k < |headers| => Edge(0, headers[k], 0, 0, k + 1, false))
  }

  /** The entry has its own edges and then one to the header of every back edge. */
  ghost predicate IsAbstractGraph(f: CFG, g: Adjacency) {
    forall b :: Out(g, b) == AbstractEdges(f, b)
  }

  function AbstractEdges(f: CFG, b: nat): seq<Edge> {
    EdgesOf(f, b) + if b == 0 then HeaderEdges(AllHeaders(f)) else []
  }

  /** The two edges that stand for a back edge carry its number. */
  ghost predicate PairsBackedges(f: CFG, backedge: map<nat, (Edge, Edge)>, b: nat, i: nat) {
    forall c, j | IsBefore(f, c, j, b, i) && IsBack(f, c, j) :: PairedAt(f, backedge, c, j)
  }

  predicate IsBefore(f: CFG, c: nat, j: nat, b: nat, i: nat) {
    j < |SuccOf(f, c)| && (c < b || (c == b && j < i))
  }

  predicate PairedAt(f: CFG, backedge: map<nat, (Edge, Edge)>, c: nat, j: nat)
    requires IsBack(f, c, j)
  {
    var k := |Headers(f, c, j)| + 1;
    k in backedge && backedge[k] == (Edge(0, SuccOf(f, c)[j], 0, 0, k, false), OwnEdge(f, c, j))
  }

  // ----- building it -----

  /** The graph after the first i edges of block b, and all edges of the blocks before it. */
  ghost predicate BuiltUpTo(f: CFG, g: Adjacency, b: nat, i: nat)
    requires i <= |SuccOf(f, b)|
  {
    forall c :: Out(g, c) == BuiltEdges(f, c, b, i)
  }

  function BuiltEdges(f: CFG, c: nat, b: nat, i: nat): seq<Edge>
    requires i <= |SuccOf(f, b)|
  {
    (if c < b then EdgesOf(f, c) else if c == b then OwnEdges(f, b, i) else [])
    + if c == 0 then HeaderEdges(Headers(f, b, i)) else []
  }

  function Push(g: Adjacency, e: Edge): Adjacency {
    g[e.from := Out(g, e.from) + [e]]
  }

  /** No back edge leaves the entry, as nothing is entered before it. */
  ghost predicate EntryFirst(f: CFG) {
    f.succ != [] && forall i :: !IsBack(f, 0, i)
  }

  lemma {:induction false} NoHeadersYet(f: CFG, i: nat)
    requires EntryFirst(f) && i <= |SuccOf(f, 0)|
    ensures Headers(f, 0, i) == []
  {
    if i > 0 {
      NoHeadersYet(f, i - 1);
    }
  }

  function HeaderEdge(f: CFG, b: nat, i: nat): Edge
    requires i < |SuccOf(f, b)|
  {
    Edge(0, SuccOf(f, b)[i], 0, 0, |Headers(f, b, i)| + 1, false)
  }

  lemma OneMoreHeader(f: CFG, b: nat, i: nat)
    requires i < |SuccOf(f, b)|
    ensures HeaderEdges(Headers(f, b, i + 1))
         == HeaderEdges(Headers(f, b, i)) + if IsBack(f, b, i) then [HeaderEdge(f, b, i)] else []
  {
    assert Headers(f, b, i + 1) == Headers(f, b, i) + if IsBack(f, b, i) then [SuccOf(f, b)[i]] else [];
  }

  /** What one more edge adds to the list of block c. */
  lemma BuiltEdgesStep(f: CFG, c: nat, b: nat, i: nat)
    requires EntryFirst(f) && i < |SuccOf(f, b)|
    ensures BuiltEdges(f, c, b, i + 1)
         == BuiltEdges(f, c, b, i)
          + (if c == b then [OwnEdge(f, b, i)] else [])
          + if c == 0 && IsBack(f, b, i) then [HeaderEdge(f, b, i)] else []
  {
    hide HeaderEdges, EdgesOf, Headers, OwnEdge;
    if b == 0 {
      NoHeadersYet(f, i + 1);
      NoHeadersYet(f, i);
      assert HeaderEdges([]) == [] by {
        NoHeaderEdges();
      }
    }
    if c == 0 {
      OneMoreHeader(f, b, i);
    }
  }

  lemma NoHeaderEdges()
    ensures HeaderEdges([]) == []
  {
  }

  lemma PushPlain(f: CFG, g: Adjacency, b: nat, i: nat)
    requires EntryFirst(f) && i < |SuccOf(f, b)| && BuiltUpTo(f, g, b, i) && !IsBack(f, b, i)
    ensures BuiltUpTo(f, Push(g, OwnEdge(f, b, i)), b, i + 1)
  {
    hide BuiltEdges, EntryFirst, Headers;
    forall c
      ensures Out(Push(g, OwnEdge(f, b, i)), c) == BuiltEdges(f, c, b, i + 1)
    {
      BuiltEdgesStep(f, c, b, i);
    }
  }

  lemma PushBack(f: CFG, g: Adjacency, b: nat, i: nat)
    requires EntryFirst(f) && i < |SuccOf(f, b)| && BuiltUpTo(f, g, b, i) && IsBack(f, b, i)
    ensures BuiltUpTo(f, Push(Push(g, HeaderEdge(f, b, i)), OwnEdge(f, b, i)), b, i + 1)
  {
    assert b != 0;
    hide BuiltEdges, EntryFirst, Headers;
    forall c
      ensures Out(Push(Push(g, HeaderEdge(f, b, i)), OwnEdge(f, b, i)), c) == BuiltEdges(f, c, b, i + 1)
    {
      BuiltEdgesStep(f, c, b, i);
    }
  }

  lemma PushDeadEnd(f: CFG, g: Adjacency, b: nat)
    requires EntryFirst(f) && b < |f.succ| && SuccOf(f, b) == [] && BuiltUpTo(f, g, b, 0)
    ensures BuiltUpTo(f, if b == f.exit then g else Push(g, Edge(b, f.exit, 0, 0, 0, false)), b + 1, 0)
  {
    var g' := if b == f.exit then g else Push(g, Edge(b, f.exit, 0, 0, 0, false));
    if b == 0 {
      NoHeadersYet(f, 0);
    }
    forall c
      ensures Out(g', c) == BuiltEdges(f, c, b + 1, 0)
    {
      assert Out(g, c) == BuiltEdges(f, c, b, 0);
    }
  }

  lemma NextBlock(f: CFG, g: Adjacency, b: nat)
    requires b < |f.succ| && SuccOf(f, b) != [] && BuiltUpTo(f, g, b, |SuccOf(f, b)|)
    ensures BuiltUpTo(f, g, b + 1, 0)
  {
    forall c
      ensures Out(g, c) == BuiltEdges(f, c, b + 1, 0)
    {
      assert Out(g, c) == BuiltEdges(f, c, b, |SuccOf(f, b)|);
    }
  }

  /** Builds the abstract graph, numbering the back edges from 1. */
  method GetAbstractGraph(f: CFG) returns (g: Adjacency, backedge: map<nat, (Edge, Edge)>)
    requires EntryFirst(f)
    ensures IsAbstractGraph(f, g) && PairsBackedges(f, backedge, |f.succ|, 0)
    ensures forall k :: k in backedge <==> 1 <= k <= |AllHeaders(f)|
    ensures Reflects(f, g, backedge)
    ensures forall b | b in g :: b < |f.succ|
  {
    hide EntryFirst, BuiltUpTo, PairsBackedges, OwnEdge, Reflects;
    g, backedge := map[], map[];
    assert BuiltUpTo(f, g, 0, 0) && PairsBackedges(f, backedge, 0, 0) by {
      NothingBuilt(f);
    }
    var b, counter := 0, 1;
    while b < |f.succ|
      invariant b <= |f.succ| && counter == |Headers(f, b, 0)| + 1
      invariant BuiltUpTo(f, g, b, 0) && PairsBackedges(f, backedge, b, 0)
      invariant forall k :: k in backedge <==> 1 <= k < counter
      invariant forall c | c in g :: c < |f.succ|
    {
      if |f.succ[b]| == 0 {
        PushDeadEnd(f, g, b);
        if b != f.exit {
          g := Push(g, Edge(b, f.exit, 0, 0, 0, false));
        }
      }
      var i := 0;
      while i < |f.succ[b]|
        invariant 0 <= i <= |f.succ[b]| == |SuccOf(f, b)| && counter == |Headers(f, b, i)| + 1
        invariant if f.succ[b] == [] then BuiltUpTo(f, g, b + 1, 0) else BuiltUpTo(f, g, b, i)
        invariant PairsBackedges(f, backedge, b, i)
        invariant forall k :: k in backedge <==> 1 <= k < counter
        invariant forall c | c in g :: c < |f.succ|
      {
        var s := f.succ[b][i];
        OwnEdgeIs(f, b, i);
        if (b, s) !in f.back {
          PushPlain(f, g, b, i);
          g := Push(g, Edge(b, s, 0, 0, 0, false));
        } else {
          PushBack(f, g, b, i);
          var edge1, edge2 := Edge(0, s, 0, 0, counter, false), Edge(b, f.exit, 0, 0, counter, false);
          g := Push(Push(g, edge1), edge2);
          PairOneMore(f, backedge, b, i);
          backedge := backedge[counter := (edge1, edge2)];
          counter := counter + 1;
        }
        PairsNext(f, backedge, b, i);
        i := i + 1;
      }
      if f.succ[b] != [] {
        NextBlock(f, g, b);
      }
      PairsNextBlock(f, backedge, b);
      b := b + 1;
    }
    BuiltAll(f, g);
    GraphReflects(f, g, backedge);
  }

  lemma OwnEdgeIs(f: CFG, b: nat, i: nat)
    requires i < |SuccOf(f, b)|
    ensures OwnEdge(f, b, i) ==
      if (b, SuccOf(f, b)[i]) in f.back then Edge(b, f.exit, 0, 0, |Headers(f, b, i)| + 1, false)
      else Edge(b, SuccOf(f, b)[i], 0, 0, 0, false)
  {
  }

  lemma NothingBuilt(f: CFG)
    ensures BuiltUpTo(f, map[], 0, 0) && PairsBackedges(f, map[], 0, 0)
  {
  }

  lemma BuiltAll(f: CFG, g: Adjacency)
    requires BuiltUpTo(f, g, |f.succ|, 0)
    ensures IsAbstractGraph(f, g)
  {
    forall b
      ensures Out(g, b) == AbstractEdges(f, b)
    {
      assert Out(g, b) == BuiltEdges(f, b, |f.succ|, 0);
    }
  }

  /** Numbers grow along the order of the edges. */
  lemma {:induction false} HeadersGrow(f: CFG, c: nat, j: nat, b: nat, i: nat)
    requires i <= |SuccOf(f, b)| && j <= |SuccOf(f, c)| && (c < b || (c == b && j <= i))
    ensures |Headers(f, c, j)| <= |Headers(f, b, i)| && Headers(f, c, j) == Headers(f, b, i)[..|Headers(f, c, j)|]
    decreases b, i
  {
    if c == b && j == i {
    } else if i > 0 {
      HeadersGrow(f, c, j, b, i - 1);
    } else {
      HeadersGrow(f, c, j, b - 1, |SuccOf(f, b - 1)|);
    }
  }

  lemma PairOneMore(f: CFG, backedge: map<nat, (Edge, Edge)>, b: nat, i: nat)
    requires PairsBackedges(f, backedge, b, i) && IsBack(f, b, i)
    ensures var k := |Headers(f, b, i)| + 1;
      && PairsBackedges(f, backedge[k := (Edge(0, SuccOf(f, b)[i], 0, 0, k, false), Edge(b, f.exit, 0, 0, k, false))],
           b, i)
      && PairedAt(f, backedge[k := (Edge(0, SuccOf(f, b)[i], 0, 0, k, false), Edge(b, f.exit, 0, 0, k, false))], b, i)
  {
    var k := |Headers(f, b, i)| + 1;
    var backedge' := backedge[k := (Edge(0, SuccOf(f, b)[i], 0, 0, k, false), Edge(b, f.exit, 0, 0, k, false))];
    forall c: nat, j: nat | IsBefore(f, c, j, b, i) && IsBack(f, c, j)
      ensures PairedAt(f, backedge', c, j)
    {
      HeadersGrow(f, c, j + 1, b, i);
      assert PairedAt(f, backedge, c, j);
    }
  }

  lemma PairsNext(f: CFG, backedge: map<nat, (Edge, Edge)>, b: nat, i: nat)
    requires PairsBackedges(f, backedge, b, i) && i < |SuccOf(f, b)| &&
      (IsBack(f, b, i) ==> PairedAt(f, backedge, b, i))
    ensures PairsBackedges(f, backedge, b, i + 1)
  {
    forall c: nat, j: nat | IsBefore(f, c, j, b, i + 1) && IsBack(f, c, j)
      ensures PairedAt(f, backedge, c, j)
    {
      assert IsBefore(f, c, j, b, i) || (c == b && j == i);
    }
  }

  // ----- what the graph says about the program -----

  /** The pair stands for the i-th edge of block b: one edge from the entry to the header, one to the exit, both with
      the number k. */
  ghost predicate StandsFor(f: CFG, pair: (Edge, Edge), k: nat, b: nat, i: nat)
    requires i < |SuccOf(f, b)|
  {
    pair == (Edge(0, SuccOf(f, b)[i], 0, 0, k, false), Edge(b, f.exit, 0, 0, k, false))
  }

  /** The pair of number k stands for a back edge, and both edges are in the graph. */
  ghost predicate IsPaired(f: CFG, g: Adjacency, pair: (Edge, Edge), k: nat) {
    && (exists b: nat, i: nat | i < |SuccOf(f, b)| :: (b, SuccOf(f, b)[i]) in f.back && StandsFor(f, pair, k, b, i))
    && pair.0 in Out(g, pair.0.from) && pair.1 in Out(g, pair.1.from)
  }

  /** An edge with a number is one of the pair of that number. One without joins two blocks of the program that are no
      back edge, or leads from a dead end to the exit. */
  ghost predicate IsExplained(f: CFG, backedge: map<nat, (Edge, Edge)>, b: nat, e: Edge) {
    && e.from == b
    && if e.backedgeNumber != 0
       then e.backedgeNumber in backedge && (e == backedge[e.backedgeNumber].0 || e == backedge[e.backedgeNumber].1)
       else (e.to in SuccOf(f, b) && (b, e.to) !in f.back) ||
            (b < |f.succ| && f.succ[b] == [] && b != f.exit && e.to == f.exit)
  }

  /** The i-th edge of a block is the i-th edge of its list: itself, or the second edge of a pair that stands for it. */
  ghost predicate IsKept(f: CFG, g: Adjacency, backedge: map<nat, (Edge, Edge)>, b: nat, i: nat)
    requires i < |SuccOf(f, b)|
  {
    i < |Out(g, b)| &&
    if (b, SuccOf(f, b)[i]) in f.back
    then var k := Out(g, b)[i].backedgeNumber;
      k in backedge && backedge[k].1 == Out(g, b)[i] && StandsFor(f, backedge[k], k, b, i)
    else Out(g, b)[i] == Edge(b, SuccOf(f, b)[i], 0, 0, 0, false)
  }

  ghost predicate Reflects(f: CFG, g: Adjacency, backedge: map<nat, (Edge, Edge)>) {
    && (forall k | k in backedge :: IsPaired(f, g, backedge[k], k))
    && (forall b: nat, e | e in Out(g, b) :: IsExplained(f, backedge, b, e))
    && (forall b: nat, i: nat | i < |SuccOf(f, b)| :: IsKept(f, g, backedge, b, i))
    && (forall b | 0 <= b < |f.succ| && f.succ[b] == [] && b != f.exit :: Edge(b, f.exit, 0, 0, 0, false) in Out(g, b))
  }

  /** The k-th header is that of some back edge, which has the number k + 1. */
  lemma {:induction false} HeaderAt(f: CFG, b: nat, i: nat, k: nat) returns (c: nat, j: nat)
    requires i <= |SuccOf(f, b)| && k < |Headers(f, b, i)|
    ensures IsBefore(f, c, j, b, i) && IsBack(f, c, j) && |Headers(f, c, j)| == k &&
      Headers(f, b, i)[k] == SuccOf(f, c)[j]
    decreases b, i
  {
    if i > 0 {
      if k < |Headers(f, b, i - 1)| {
        c, j := HeaderAt(f, b, i - 1, k);
      } else {
        c, j := b, i - 1;
      }
    } else {
      c, j := HeaderAt(f, b - 1, |SuccOf(f, b - 1)|, k);
    }
  }

  lemma {:induction false} OwnEdgesAre(f: CFG, b: nat, n: nat)
    requires n <= |SuccOf(f, b)|
    ensures |OwnEdges(f, b, n)| == n && forall j | 0 <= j < n :: OwnEdges(f, b, n)[j] == OwnEdge(f, b, j)
  {
    if n > 0 {
      OwnEdgesAre(f, b, n - 1);
    }
  }

  lemma EdgeIsKept(f: CFG, g: Adjacency, backedge: map<nat, (Edge, Edge)>, b: nat, i: nat)
    requires IsAbstractGraph(f, g) && PairsBackedges(f, backedge, |f.succ|, 0) && i < |SuccOf(f, b)|
    ensures IsKept(f, g, backedge, b, i) && Out(g, b)[i] == OwnEdge(f, b, i)
  {
    hide Headers, HeaderEdges;
    OwnEdgesAre(f, b, |SuccOf(f, b)|);
    assert Out(g, b) == AbstractEdges(f, b);
    assert IsBefore(f, b, i, |f.succ|, 0);
    assert IsBack(f, b, i) ==> PairedAt(f, backedge, b, i);
  }

  lemma PairIsPaired(f: CFG, g: Adjacency, backedge: map<nat, (Edge, Edge)>, k: nat)
    requires IsAbstractGraph(f, g) && PairsBackedges(f, backedge, |f.succ|, 0) && 1 <= k <= |AllHeaders(f)|
    ensures k in backedge && IsPaired(f, g, backedge[k], k) && backedge[k].0 == HeaderEdges(AllHeaders(f))[k - 1]
  {
    var c, j := HeaderAt(f, |f.succ|, 0, k - 1);
    hide Headers;
    assert PairedAt(f, backedge, c, j);
    EdgeIsKept(f, g, backedge, c, j);
    assert (c, SuccOf(f, c)[j]) in f.back && StandsFor(f, backedge[k], k, c, j);
    assert Out(g, 0) == EdgesOf(f, 0) + HeaderEdges(AllHeaders(f));
    assert backedge[k].0 == HeaderEdges(AllHeaders(f))[k - 1];
    assert Out(g, 0)[|EdgesOf(f, 0)| + k - 1] == backedge[k].0;
    assert Out(g, c)[j] == backedge[k].1;
  }

  lemma EdgeIsExplained(f: CFG, g: Adjacency, backedge: map<nat, (Edge, Edge)>, b: nat, n: nat)
    requires IsAbstractGraph(f, g) && PairsBackedges(f, backedge, |f.succ|, 0) && n < |Out(g, b)|
    ensures IsExplained(f, backedge, b, Out(g, b)[n])
  {
    assert Out(g, b) == AbstractEdges(f, b);
    if n < |SuccOf(f, b)| {
      EdgeIsKept(f, g, backedge, b, n);
    } else if n >= |EdgesOf(f, b)| {
      assert Out(g, b)[n] == HeaderEdges(AllHeaders(f))[n - |EdgesOf(f, b)|];
      PairIsPaired(f, g, backedge, n - |EdgesOf(f, b)| + 1);
    } else {
      OwnEdgesAre(f, b, |SuccOf(f, b)|);
    }
  }

  /** The graph and the table say of the program what they should, edge by edge. */
  lemma GraphReflects(f: CFG, g: Adjacency, backedge: map<nat, (Edge, Edge)>)
    requires IsAbstractGraph(f, g) && PairsBackedges(f, backedge, |f.succ|, 0)
    requires forall k :: k in backedge <==> 1 <= k <= |AllHeaders(f)|
    ensures Reflects(f, g, backedge)
  {
    hide PairsBackedges, IsPaired, IsExplained, IsKept, AbstractEdges, Headers;
    forall k | k in backedge
      ensures IsPaired(f, g, backedge[k], k)
    {
      PairIsPaired(f, g, backedge, k);
    }
    forall b: nat, e | e in Out(g, b)
      ensures IsExplained(f, backedge, b, e)
    {
      var n :| 0 <= n < |Out(g, b)| && Out(g, b)[n] == e;
      EdgeIsExplained(f, g, backedge, b, n);
    }
    forall b: nat, i: nat | i < |SuccOf(f, b)|
      ensures IsKept(f, g, backedge, b, i)
    {
      EdgeIsKept(f, g, backedge, b, i);
    }
    forall b: nat | 0 <= b < |f.succ| && f.succ[b] == [] && b != f.exit
      ensures Edge(b, f.exit, 0, 0, 0, false) in Out(g, b)
    {
      DeadEndLeadsToExit(f, g, b);
    }
  }

  lemma DeadEndLeadsToExit(f: CFG, g: Adjacency, b: nat)
    requires IsAbstractGraph(f, g) && b < |f.succ| && f.succ[b] == [] && b != f.exit
    ensures Edge(b, f.exit, 0, 0, 0, false) in Out(g, b)
  {
    assert Out(g, b) == AbstractEdges(f, b);
    assert Out(g, b)[0] == Edge(b, f.exit, 0, 0, 0, false);
  }

  lemma PairsNextBlock(f: CFG, backedge: map<nat, (Edge, Edge)>, b: nat)
    requires PairsBackedges(f, backedge, b, |SuccOf(f, b)|)
    ensures PairsBackedges(f, backedge, b + 1, 0)
  {
    forall c: nat, j: nat | IsBefore(f, c, j, b + 1, 0) && IsBack(f, c, j)
      ensures PairedAt(f, backedge, c, j)
    {
      assert IsBefore(f, c, j, b, |SuccOf(f, b)|);
    }
  }
}
