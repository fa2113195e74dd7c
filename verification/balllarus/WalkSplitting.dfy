/** The abstract graph has no cycles, and every run of the program splits at its back edges into paths of
    it, from which the run can be put together again. */
module WalkSplitting {
  import opened PathCounts
  import opened PathNumbering
  import opened AbstractGraph

  function CfgShape(f: CFG): Shape {
    map b: nat | b < |f.succ| :: f.succ[b]
  }

  function Targets(edges: seq<Edge>): seq<nat> {
    seq(|edges|, i requires 0 <= i < |edges| => edges[i].to)
  }

  function AbstractShape(f: CFG): Shape {
    map b: nat | b < |f.succ| :: Targets(AbstractEdges(f, b))
  }

  /** The entry has no predecessors and the exit no successors; the blocks in region include all that the entry
      reaches, every back edge found starts there, and without the back edges they have no cycle. */
  ghost predicate IsCfg(f: CFG, region: set<nat>, rank: nat -> nat) {
    && EntryFirst(f) && 0 in region && f.exit in region && SuccOf(f, f.exit) == []
    && (forall b | b in region :: b < |f.succ|)
    && (forall e | e in f.back :: e.0 in region) && (f.exit == 0 ==> f.back == {})
    && (forall b, i | 0 <= i < |SuccOf(f, b)| :: SuccOf(f, b)[i] != 0)
    && (forall b, i | b in region && 0 <= i < |SuccOf(f, b)| :: SuccOf(f, b)[i] in region)
    && (forall b, i | b in region && 0 <= i < |SuccOf(f, b)| && !IsBack(f, b, i) :: rank(SuccOf(f, b)[i]) < rank(b))
  }

  /** Edge i of a block is edge i of its list in the abstract graph. */
  lemma OwnTarget(f: CFG, b: nat, i: nat)
    requires i < |SuccOf(f, b)|
    ensures i < |Succ(AbstractShape(f), b)|
    ensures Succ(AbstractShape(f), b)[i] == if IsBack(f, b, i) then f.exit else SuccOf(f, b)[i]
  {
    OwnEdgesAre(f, b, |SuccOf(f, b)|);
  }

  lemma HeaderTarget(f: CFG, k: nat)
    requires k < |AllHeaders(f)| && f.succ != []
    ensures |EdgesOf(f, 0)| + k < |Succ(AbstractShape(f), 0)|
    ensures Succ(AbstractShape(f), 0)[|EdgesOf(f, 0)| + k] == AllHeaders(f)[k]
  {
    var edges := AbstractEdges(f, 0);
    assert edges[|EdgesOf(f, 0)| + k] == HeaderEdges(AllHeaders(f))[k];
  }

  lemma GraphHasShape(f: CFG, g: Adjacency)
    requires IsAbstractGraph(f, g) && EntryFirst(f)
    ensures HasShape(g, AbstractShape(f))
  {
    forall b: nat
      ensures HasShapeAt(g, AbstractShape(f), b)
    {
      assert Out(g, b) == AbstractEdges(f, b);
      ShapeOfEdges(f, b);
    }
  }

  /** Every edge of a list leaves its block; blocks that are not in the function have none. */
  lemma ShapeOfEdges(f: CFG, b: nat)
    requires EntryFirst(f)
    ensures Succ(AbstractShape(f), b) == Targets(AbstractEdges(f, b))
    ensures forall i | 0 <= i < |AbstractEdges(f, b)| :: AbstractEdges(f, b)[i].from == b
  {
    OwnEdgesAre(f, b, |SuccOf(f, b)|);
  }

  // ----- acyclicity -----

  lemma {:induction false} HeadersAreTargets(f: CFG, region: set<nat>, rank: nat -> nat, b: nat, i: nat)
    requires IsCfg(f, region, rank) && i <= |SuccOf(f, b)|
    ensures forall x | x in Headers(f, b, i) :: x in region && x != 0
    decreases b, i
  {
    if i > 0 {
      HeadersAreTargets(f, region, rank, b, i - 1);
      if IsBack(f, b, i - 1) {
        assert (b, SuccOf(f, b)[i - 1]).0 in region;
      }
    } else if b > 0 {
      HeadersAreTargets(f, region, rank, b - 1, |SuccOf(f, b - 1)|);
    }
  }

  function TopRank(rank: nat -> nat, n: nat): (r: nat)
    ensures forall b: nat | b < n :: rank(b) < r
  {
    if n == 0 then 0 else if rank(n - 1) < TopRank(rank, n - 1) then TopRank(rank, n - 1) else rank(n - 1) + 1
  }

  /** The exit comes last and the entry first. */
  function AbstractRank(f: CFG, rank: nat -> nat): nat -> nat {
    (b: nat) => if b == f.exit then 0 else if b == 0 then TopRank(rank, |f.succ|) + 1 else rank(b) + 1
  }

  /** The abstract graph has no cycles, and the exit is its only block without successors. */
  lemma AbstractIsDag(f: CFG, region: set<nat>, rank: nat -> nat)
    requires IsCfg(f, region, rank)
    ensures IsDag(AbstractShape(f), region, AbstractRank(f, rank))
    ensures forall u | u in region :: Succ(AbstractShape(f), u) == [] <==> u == f.exit
  {
    var t := AbstractShape(f);
    forall u, i | u in region && 0 <= i < |Succ(t, u)|
      ensures Succ(t, u)[i] in region && AbstractRank(f, rank)(Succ(t, u)[i]) < AbstractRank(f, rank)(u)
    {
      RankFalls(f, region, rank, u, i);
    }
    forall u | u in region
      ensures Succ(t, u) == [] <==> u == f.exit
    {
      OnlyExitIsLast(f, region, rank, u);
    }
  }

  lemma OnlyExitIsLast(f: CFG, region: set<nat>, rank: nat -> nat, u: nat)
    requires IsCfg(f, region, rank) && u in region
    ensures Succ(AbstractShape(f), u) == [] <==> u == f.exit
  {
    OwnEdgesAre(f, u, |SuccOf(f, u)|);
    if u == f.exit == 0 {
      NoBackNoHeaders(f, |f.succ|, 0);
    }
  }

  lemma {:induction false} NoBackNoHeaders(f: CFG, b: nat, i: nat)
    requires f.back == {} && i <= |SuccOf(f, b)|
    ensures Headers(f, b, i) == []
    decreases b, i
  {
    if i > 0 {
      NoBackNoHeaders(f, b, i - 1);
    } else if b > 0 {
      NoBackNoHeaders(f, b - 1, |SuccOf(f, b - 1)|);
    }
  }

  lemma RankFalls(f: CFG, region: set<nat>, rank: nat -> nat, u: nat, i: nat)
    requires IsCfg(f, region, rank) && u in region && i < |Succ(AbstractShape(f), u)|
    ensures Succ(AbstractShape(f), u)[i] in region
    ensures AbstractRank(f, rank)(Succ(AbstractShape(f), u)[i]) < AbstractRank(f, rank)(u)
  {
    OnlyExitIsLast(f, region, rank, u);
    OwnEdgesAre(f, u, |SuccOf(f, u)|);
    if i < |SuccOf(f, u)| {
      OwnTarget(f, u, i);
    } else if u == 0 && i >= |EdgesOf(f, 0)| {
      HeaderTarget(f, i - |EdgesOf(f, 0)|);
      HeadersAreTargets(f, region, rank, |f.succ|, 0);
      assert AllHeaders(f)[i - |EdgesOf(f, 0)|] in AllHeaders(f);
    } else {
      assert Succ(AbstractShape(f), u)[i] == f.exit;
    }
  }

  // ----- splitting a run -----

  /** The position of the header edge for a back edge in the entry's list. */
  function HeaderIndex(f: CFG, u: nat, i: nat): nat
    requires i < |SuccOf(f, u)|
  {
    |EdgesOf(f, 0)| + |Headers(f, u, i)|
  }

  function BackSteps(f: CFG, u: nat, w: seq<nat>): nat
    requires IsWalk(CfgShape(f), u, w)
    decreases |w|
  {
    if w == [] then 0
    else (if IsBack(f, u, w[0]) then 1 else 0) + BackSteps(f, SuccOf(f, u)[w[0]], w[1..])
  }

  /** Cuts the run at its back edges: cur is the path since the last one. */
  function Split(f: CFG, u: nat, cur: seq<nat>, w: seq<nat>): (r: seq<seq<nat>>)
    requires IsWalk(CfgShape(f), u, w)
    ensures |r| == BackSteps(f, u, w) + 1
    decreases |w|
  {
    if w == [] then [cur]
    else
      var v := SuccOf(f, u)[w[0]];
      if IsBack(f, u, w[0]) then [cur + [w[0]]] + Split(f, v, [HeaderIndex(f, u, w[0])], w[1..])
      else Split(f, v, cur + [w[0]], w[1..])
  }

  /** One more edge of a path of the abstract graph, along edge i of the program. */
  lemma {:induction false} StepOfPath(t: Shape, u: nat, p: seq<nat>, i: nat)
    requires IsWalk(t, u, p) && i < |Succ(t, End(t, u, p))|
    ensures IsWalk(t, u, p + [i]) && End(t, u, p + [i]) == Succ(t, End(t, u, p))[i]
    ensures Blocks(t, u, p + [i]) == Blocks(t, u, p) + [End(t, u, p + [i])]
    decreases |p|
  {
    if p == [] {
      assert p + [i] == [i] && [i][1..] == [];
    } else {
      assert (p + [i])[1..] == p[1..] + [i];
      StepOfPath(t, Succ(t, u)[p[0]], p[1..], i);
    }
  }

  /** The header of a back edge stands among all headers at its number. */
  lemma HeaderOfBack(f: CFG, u: nat, i: nat)
    requires IsBack(f, u, i)
    ensures |Headers(f, u, i)| < |AllHeaders(f)| && AllHeaders(f)[|Headers(f, u, i)|] == SuccOf(f, u)[i] && f.succ != []
  {
    HeadersGrow(f, u, i + 1, |f.succ|, 0);
    assert Headers(f, u, i + 1) == Headers(f, u, i) + [SuccOf(f, u)[i]];
    hide Headers;
    assert Headers(f, u, i + 1)[|Headers(f, u, i)|] == SuccOf(f, u)[i];
  }

  /** After a back edge the path starts again at the entry and goes to the header. */
  lemma RestartAtHeader(f: CFG, region: set<nat>, rank: nat -> nat, u: nat, i: nat)
    requires IsCfg(f, region, rank) && IsBack(f, u, i)
    ensures var t, h := AbstractShape(f), [HeaderIndex(f, u, i)];
      IsWalk(t, 0, h) && End(t, 0, h) == SuccOf(f, u)[i] && Blocks(t, 0, h) == [0, SuccOf(f, u)[i]]
  {
    var k := |Headers(f, u, i)|;
    HeaderOfBack(f, u, i);
    HeaderTarget(f, k);
    hide Headers, AllHeaders, AbstractShape, EdgesOf, IsCfg;
    var h := [HeaderIndex(f, u, i)];
    assert h[1..] == [];
  }

  ghost predicate AllComplete(t: Shape, paths: seq<seq<nat>>) {
    forall j | 0 <= j < |paths| :: IsComplete(t, 0, paths[j])
  }

  /** Following edge i of the program from the end of cur. */
  lemma RunStep(f: CFG, region: set<nat>, rank: nat -> nat, u: nat, cur: seq<nat>, i: nat)
    requires IsCfg(f, region, rank) && u in region && i < |SuccOf(f, u)|
    requires IsWalk(AbstractShape(f), 0, cur) && End(AbstractShape(f), 0, cur) == u
    ensures SuccOf(f, u)[i] in region && Succ(CfgShape(f), u) == SuccOf(f, u)
    ensures var t := AbstractShape(f); var v := if IsBack(f, u, i) then f.exit else SuccOf(f, u)[i];
      IsWalk(t, 0, cur + [i]) && End(t, 0, cur + [i]) == v && Blocks(t, 0, cur + [i]) == Blocks(t, 0, cur) + [v]
    ensures IsBack(f, u, i) ==> IsComplete(AbstractShape(f), 0, cur + [i])
  {
    OwnTarget(f, u, i);
    StepOfPath(AbstractShape(f), 0, cur, i);
    OnlyExitIsLast(f, region, rank, f.exit);
  }

  lemma LastPiece(f: CFG, region: set<nat>, rank: nat -> nat, cur: seq<nat>)
    requires IsCfg(f, region, rank) && IsWalk(AbstractShape(f), 0, cur) && End(AbstractShape(f), 0, cur) == f.exit
    ensures AllComplete(AbstractShape(f), [cur])
  {
    OnlyExitIsLast(f, region, rank, f.exit);
  }

  lemma CompleteThen(t: Shape, p: seq<nat>, rest: seq<seq<nat>>)
    requires IsComplete(t, 0, p) && AllComplete(t, rest)
    ensures AllComplete(t, [p] + rest)
  {
  }

  /** Every piece is a path of the abstract graph from the entry to the exit. */
  lemma {:induction false} PiecesAreComplete(f: CFG, region: set<nat>, rank: nat -> nat, u: nat, cur: seq<nat>,
                                             w: seq<nat>)
    requires IsCfg(f, region, rank) && u in region && IsWalk(CfgShape(f), u, w) && End(CfgShape(f), u, w) == f.exit
    requires IsWalk(AbstractShape(f), 0, cur) && End(AbstractShape(f), 0, cur) == u
    ensures AllComplete(AbstractShape(f), Split(f, u, cur, w))
    decreases |w|
  {
    hide Blocks, IsCfg, AbstractShape, CfgShape, AllComplete, IsComplete, SuccOf, IsBack, HeaderIndex;
    if w == [] {
      LastPiece(f, region, rank, cur);
    } else {
      var i := w[0];
      SuccOfCfg(f, u);
      RunStep(f, region, rank, u, cur, i);
      if IsBack(f, u, i) {
        var h := [HeaderIndex(f, u, i)];
        RestartAtHeader(f, region, rank, u, i);
        PiecesAreComplete(f, region, rank, SuccOf(f, u)[i], h, w[1..]);
        CompleteThen(AbstractShape(f), cur + [i], Split(f, SuccOf(f, u)[i], h, w[1..]));
      } else {
        PiecesAreComplete(f, region, rank, SuccOf(f, u)[i], cur + [i], w[1..]);
      }
    }
  }

  lemma SuccOfCfg(f: CFG, u: nat)
    ensures Succ(CfgShape(f), u) == SuccOf(f, u)
  {
  }

  /** A run from entry to exit with k back edges splits into k + 1 paths of the abstract graph. */
  lemma RunSplits(f: CFG, region: set<nat>, rank: nat -> nat, w: seq<nat>)
    requires IsCfg(f, region, rank) && IsWalk(CfgShape(f), 0, w) && End(CfgShape(f), 0, w) == f.exit
    ensures |Split(f, 0, [], w)| == BackSteps(f, 0, w) + 1 && AllComplete(AbstractShape(f), Split(f, 0, [], w))
  {
    PiecesAreComplete(f, region, rank, 0, [], w);
  }

  // ----- putting a run together again -----

  function BlocksOfAll(t: Shape, paths: seq<seq<nat>>): (r: seq<seq<nat>>)
    requires AllComplete(t, paths)
    ensures |r| == |paths|
  {
    if paths == [] then [] else
      assert forall j | 0 <= j < |paths| - 1 :: IsComplete(t, 0, paths[1..][j]) by {
        assert forall j | 0 <= j < |paths| - 1 :: paths[1..][j] == paths[j + 1];
      }
      [Blocks(t, 0, paths[0])] + BlocksOfAll(t, paths[1..])
  }

  /** Each path but the last without its exit, followed by the next without its entry. */
  function Glue(paths: seq<seq<nat>>): seq<nat> {
    if paths == [] then []
    else if |paths| == 1 then paths[0]
    else DropLast(paths[0]) + DropFirst(Glue(paths[1..]))
  }

  function DropLast(s: seq<nat>): seq<nat> {
    if s == [] then [] else s[..|s| - 1]
  }

  function DropFirst(s: seq<nat>): seq<nat> {
    if s == [] then [] else s[1..]
  }

  lemma GlueTwo(t: Shape, p: seq<nat>, rest: seq<seq<nat>>)
    requires IsComplete(t, 0, p) && AllComplete(t, rest) && rest != []
    ensures AllComplete(t, [p] + rest)
    ensures Glue(BlocksOfAll(t, [p] + rest)) == DropLast(Blocks(t, 0, p)) + DropFirst(Glue(BlocksOfAll(t, rest)))
  {
    CompleteThen(t, p, rest);
    assert ([p] + rest)[1..] == rest;
    assert BlocksOfAll(t, [p] + rest)[1..] == BlocksOfAll(t, rest);
  }

  lemma {:induction false} GluedPieces(f: CFG, region: set<nat>, rank: nat -> nat, u: nat, cur: seq<nat>, w: seq<nat>)
    requires IsCfg(f, region, rank) && u in region && IsWalk(CfgShape(f), u, w) && End(CfgShape(f), u, w) == f.exit
    requires IsWalk(AbstractShape(f), 0, cur) && End(AbstractShape(f), 0, cur) == u
    ensures AllComplete(AbstractShape(f), Split(f, u, cur, w))
    ensures Glue(BlocksOfAll(AbstractShape(f), Split(f, u, cur, w))) ==
      DropLast(Blocks(AbstractShape(f), 0, cur)) + Blocks(CfgShape(f), u, w)
    decreases |w|
  {
    hide IsCfg, AbstractShape, CfgShape, AllComplete, IsComplete, SuccOf, IsBack, HeaderIndex, BlocksOfAll, Glue,
      DropLast, DropFirst;
    var t := AbstractShape(f);
    PiecesAreComplete(f, region, rank, u, cur, w);
    EndsInBlocks(t, 0, cur);
    if w == [] {
      GlueOne(t, cur);
      assert Split(f, u, cur, w) == [cur] && Blocks(CfgShape(f), u, w) == [u];
    } else {
      var i := w[0];
      SuccOfCfg(f, u);
      RunStep(f, region, rank, u, cur, i);
      var v := SuccOf(f, u)[i];
      if IsBack(f, u, i) {
        var h := [HeaderIndex(f, u, i)];
        RestartAtHeader(f, region, rank, u, i);
        GluedPieces(f, region, rank, v, h, w[1..]);
        GlueTwo(t, cur + [i], Split(f, v, h, w[1..]));
        GlueAtBack(Blocks(t, 0, cur), f.exit, u, v, Blocks(CfgShape(f), v, w[1..]));
        assert Split(f, u, cur, w) == [cur + [i]] + Split(f, v, h, w[1..]);
        assert Blocks(CfgShape(f), u, w) == [u] + Blocks(CfgShape(f), v, w[1..]);
      } else {
        GluedPieces(f, region, rank, v, cur + [i], w[1..]);
        assert Split(f, u, cur, w) == Split(f, v, cur + [i], w[1..]);
        GlueAlong(Blocks(t, 0, cur), u, v, Blocks(CfgShape(f), v, w[1..]));
        assert Blocks(CfgShape(f), u, w) == [u] + Blocks(CfgShape(f), v, w[1..]);
      }
    }
  }

  lemma GlueAlong(before: seq<nat>, u: nat, v: nat, after: seq<nat>)
    requires before == DropLast(before) + [u]
    ensures DropLast(before + [v]) + after == DropLast(before) + ([u] + after)
  {
  }

  lemma GlueOne(t: Shape, p: seq<nat>)
    requires AllComplete(t, [p])
    ensures Glue(BlocksOfAll(t, [p])) == Blocks(t, 0, p)
  {
    assert IsComplete(t, 0, [p][0]);
  }

  lemma GlueAtBack(before: seq<nat>, exit: nat, u: nat, v: nat, after: seq<nat>)
    requires before == DropLast(before) + [u]
    ensures DropLast(before + [exit]) + DropFirst(DropLast([0, v]) + after) == DropLast(before) + ([u] + after)
  {
  }

  lemma {:induction false} EndsInBlocks(t: Shape, u: nat, p: seq<nat>)
    requires IsWalk(t, u, p)
    ensures Blocks(t, u, p) != [] && Blocks(t, u, p)[|Blocks(t, u, p)| - 1] == End(t, u, p)
    ensures Blocks(t, u, p) == DropLast(Blocks(t, u, p)) + [End(t, u, p)]
    decreases |p|
  {
    if p != [] {
      EndsInBlocks(t, Succ(t, u)[p[0]], p[1..]);
    }
  }

  /** The blocks of the pieces, glued at the exit and the entry, are the blocks the run went through. */
  lemma RunIsGlued(f: CFG, region: set<nat>, rank: nat -> nat, w: seq<nat>)
    requires IsCfg(f, region, rank) && IsWalk(CfgShape(f), 0, w) && End(CfgShape(f), 0, w) == f.exit
    ensures AllComplete(AbstractShape(f), Split(f, 0, [], w))
    ensures Glue(BlocksOfAll(AbstractShape(f), Split(f, 0, [], w))) == Blocks(CfgShape(f), 0, w)
  {
    GluedPieces(f, region, rank, 0, [], w);
    assert DropLast(Blocks(AbstractShape(f), 0, [])) == [];
  }

  // ----- path numbers determine the run -----

  /** The first piece tells whether and how the run goes on. */
  lemma {:induction false} FirstPiece(f: CFG, u: nat, cur: seq<nat>, w: seq<nat>)
    requires IsWalk(CfgShape(f), u, w)
    ensures w == [] ==> Split(f, u, cur, w)[0] == cur
    ensures w != [] ==> |cur| < |Split(f, u, cur, w)[0]| && Split(f, u, cur, w)[0][|cur|] == w[0]
    decreases |w|
  {
    if w != [] && !IsBack(f, u, w[0]) {
      FirstPieceExtends(f, SuccOf(f, u)[w[0]], cur + [w[0]], w[1..]);
    }
  }

  lemma {:induction false} FirstPieceExtends(f: CFG, u: nat, cur: seq<nat>, w: seq<nat>)
    requires IsWalk(CfgShape(f), u, w)
    ensures cur <= Split(f, u, cur, w)[0]
    decreases |w|
  {
    if w != [] && !IsBack(f, u, w[0]) {
      FirstPieceExtends(f, SuccOf(f, u)[w[0]], cur + [w[0]], w[1..]);
    }
  }

  lemma {:induction false} SplitInjective(f: CFG, u: nat, cur: seq<nat>, v: seq<nat>, w: seq<nat>)
    requires IsWalk(CfgShape(f), u, v) && IsWalk(CfgShape(f), u, w) && Split(f, u, cur, v) == Split(f, u, cur, w)
    ensures v == w
    decreases |v|
  {
    FirstPiece(f, u, cur, v);
    FirstPiece(f, u, cur, w);
    if v != [] {
      assert w != [] && v[0] == w[0];
      var i := v[0];
      var s := SuccOf(f, u)[i];
      if IsBack(f, u, i) {
        var h := [HeaderIndex(f, u, i)];
        assert Split(f, s, h, v[1..]) == Split(f, u, cur, v)[1..];
        assert Split(f, s, h, w[1..]) == Split(f, u, cur, w)[1..];
        SplitInjective(f, s, h, v[1..], w[1..]);
      } else {
        SplitInjective(f, s, cur + [i], v[1..], w[1..]);
      }
      assert v == [i] + v[1..] && w == [i] + w[1..];
    }
  }

  function PathNumbers(g: Adjacency, t: Shape, paths: seq<seq<nat>>): seq<int>
    requires HasShape(g, t) && AllComplete(t, paths)
  {
    seq(|paths|, j requires 0 <= j < |paths| => assert IsComplete(t, 0, paths[j]); PathSum(g, t, 0, paths[j]))
  }

  /** Two runs with the same sequence of path numbers are the same run. */
  lemma NumbersDetermineRun(f: CFG, reached: set<nat>, rank: nat -> nat, g: Adjacency, v: seq<nat>, w: seq<nat>)
    requires IsDag(AbstractShape(f), reached, AbstractRank(f, rank)) && 0 in reached
    requires HasShape(g, AbstractShape(f)) && Numbered(g, AbstractShape(f), reached, AbstractRank(f, rank))
    requires IsWalk(CfgShape(f), 0, v) && IsWalk(CfgShape(f), 0, w)
    requires AllComplete(AbstractShape(f), Split(f, 0, [], v)) && AllComplete(AbstractShape(f), Split(f, 0, [], w))
    requires PathNumbers(g, AbstractShape(f), Split(f, 0, [], v)) ==
      PathNumbers(g, AbstractShape(f), Split(f, 0, [], w))
    ensures v == w
  {
    hide IsDag, HasShape, Numbered, AbstractShape, Split;
    var t, p, q := AbstractShape(f), Split(f, 0, [], v), Split(f, 0, [], w);
    assert |p| == |PathNumbers(g, t, p)| == |q|;
    forall j | 0 <= j < |p|
      ensures p[j] == q[j]
    {
      assert PathNumbers(g, t, p)[j] == PathNumbers(g, t, q)[j];
      PathSumInjective(g, t, reached, AbstractRank(f, rank), 0, p[j], q[j]);
    }
    assert p == q;
    SplitInjective(f, 0, [], v, w);
  }

  /** Builds the abstract graph and numbers its edges. When the paths can be counted in 32 bits, the numbers of the
      paths a run goes through tell it from every other run. */
  method NumberProgram(f: CFG, ghost region: set<nat>, ghost rank: nat -> nat)
    returns (graph: Graph, ghost reached: set<nat>)
    requires IsCfg(f, region, rank)
    ensures IsDag(AbstractShape(f), region, AbstractRank(f, rank)) && HasShape(graph.G, AbstractShape(f))
    ensures 0 in reached && reached <= region && IsDag(AbstractShape(f), reached, AbstractRank(f, rank))
    ensures reached <= graph.G.Keys && (forall b | b in graph.G :: b < |f.succ|) && fresh(graph)
    ensures forall b :: SameButVals(AbstractEdges(f, b), Out(graph.G, b))
    ensures PathCount(AbstractShape(f), region, AbstractRank(f, rank), 0) <= INT32_MAX ==>
      Numbered(graph.G, AbstractShape(f), reached, AbstractRank(f, rank)) && RunsAreTold(f, graph.G)
  {
    hide IsDag, PathCount, Numbered, AbstractShape, HasShape, RunsAreTold, AbstractEdges, SameButVals;
    CfgStarts(f, region, rank);
    var g, backedge := GetAbstractGraph(f);
    GraphHasShape(f, g);
    AbstractIsDag(f, region, rank);
    graph := new Graph(g);
    var counts;
    counts, reached := graph.GetEdgeValues(0, AbstractShape(f), region, AbstractRank(f, rank));
    if PathCount(AbstractShape(f), region, AbstractRank(f, rank), 0) <= INT32_MAX {
      RunsTold(f, region, rank, reached, graph.G);
    }
  }

  lemma CfgStarts(f: CFG, region: set<nat>, rank: nat -> nat)
    requires IsCfg(f, region, rank)
    ensures EntryFirst(f) && 0 in region
  {
  }

  predicate IsRun(f: CFG, w: seq<nat>) {
    IsWalk(CfgShape(f), 0, w) && End(CfgShape(f), 0, w) == f.exit
  }

  ghost predicate RunsAreTold(f: CFG, g: Adjacency)
  {
    HasShape(g, AbstractShape(f)) && (forall w | IsRun(f, w) :: AllComplete(AbstractShape(f), Split(f, 0, [], w))) &&
    forall v, w | IsRun(f, v) && IsRun(f, w) &&
      PathNumbers(g, AbstractShape(f), Split(f, 0, [], v)) == PathNumbers(g, AbstractShape(f), Split(f, 0, [], w)) ::
        v == w
  }

  lemma RunsTold(f: CFG, region: set<nat>, rank: nat -> nat, reached: set<nat>, g: Adjacency)
    requires IsCfg(f, region, rank) && IsDag(AbstractShape(f), reached, AbstractRank(f, rank)) && 0 in reached
    requires HasShape(g, AbstractShape(f)) && Numbered(g, AbstractShape(f), reached, AbstractRank(f, rank))
    ensures RunsAreTold(f, g)
  {
    hide IsCfg, IsDag, Numbered, HasShape, AbstractShape, Split, AllComplete, PathNumbers;
    forall w | IsRun(f, w)
      ensures AllComplete(AbstractShape(f), Split(f, 0, [], w))
    {
      RunSplits(f, region, rank, w);
    }
    forall v, w | IsRun(f, v) && IsRun(f, w) &&
      PathNumbers(g, AbstractShape(f), Split(f, 0, [], v)) == PathNumbers(g, AbstractShape(f), Split(f, 0, [], w))
      ensures v == w
    {
      NumbersDetermineRun(f, reached, rank, g, v, w);
    }
  }
}
