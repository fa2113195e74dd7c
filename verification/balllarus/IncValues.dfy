/** getIncValues of BallLarusProfiler/BallLarusProfiler.cpp: a maximum spanning tree is grown from an
    arbitrary block, together with a table of increments between the blocks added so far. */
module IncValues {
  import opened Wrappers
  import opened PathCounts
  import opened PathNumbering
  import opened SpanningTrees

  const INT_MIN: int := -0x8000_0000

  /** The parent of a block, and whether the tree edge points from the parent to the block. */
  datatype Parent = Parent(first: Option<nat>, second: bool)

  /** The edges that end in each block. */
  method TransposeGraph(g: Adjacency) returns (tag: Adjacency)
    ensures IsTranspose(g, tag)
  {
    tag := map[];
    var keys := g.Keys;
    while keys != {}
      invariant keys <= g.Keys
      invariant forall e: EdgeId | IsEdge(g, e) && e.0 !in keys :: g[e.0][e.1] in Out(tag, Head(g, e))
      invariant forall v, i | 0 <= i < |Out(tag, v)| :: IsIncoming(g, v, Out(tag, v)[i])
      decreases keys
    {
      var b :| b in keys;
      var k := 0;
      while k < |g[b]|
        invariant 0 <= k <= |g[b]|
        invariant forall e: EdgeId | IsEdge(g, e) && (e.0 !in keys || (e.0 == b && e.1 < k)) ::
          g[e.0][e.1] in Out(tag, Head(g, e))
        invariant forall v, i | 0 <= i < |Out(tag, v)| :: IsIncoming(g, v, Out(tag, v)[i])
      {
        var e := g[b][k];
        ghost var before := tag;
        tag := tag[e.to := Out(tag, e.to) + [e]];
        assert IsEdge(g, (b, k)) && Head(g, (b, k)) == e.to;
        assert Out(tag, e.to)[|Out(before, e.to)|] == e;
        forall v, i | 0 <= i < |Out(tag, v)|
          ensures IsIncoming(g, v, Out(tag, v)[i])
        {
          if v == e.to && i == |Out(before, v)| {
            assert g[(b, k).0][(b, k).1] == e;
          } else {
            assert Out(tag, v)[i] == Out(before, v)[i];
          }
        }
        k := k + 1;
      }
      keys := keys - {b};
    }
  }

  /** The lists hold, at the block an edge ends in, that edge and no others. */
  ghost predicate IsTranspose(g: Adjacency, tag: Adjacency) {
    && (forall e: EdgeId | IsEdge(g, e) :: g[e.0][e.1] in Out(tag, Head(g, e)))
    && (forall v, i | 0 <= i < |Out(tag, v)| :: IsIncoming(g, v, Out(tag, v)[i]))
  }

  ghost predicate IsIncoming(g: Adjacency, v: nat, x: Edge) {
    exists e: EdgeId :: IsEdge(g, e) && Head(g, e) == v && g[e.0][e.1] == x
  }

  /** Every edge records the block it leaves, and no value is the one that stands for no edge. */
  ghost predicate WellNumbered(g: Adjacency) {
    forall e: EdgeId | IsEdge(g, e) :: g[e.0][e.1].from == e.0 && Val(g, e) > INT_MIN
  }

  // ----- growing the tree -----

  /** The state of the algorithm: distance and parent of every block. */
  datatype Prim = Prim(distance: map<nat, int>, parent: map<nat, Parent>)

  /** The edge that gives an outside block its distance and parent. */
  ghost predicate Supports(g: Adjacency, p: Prim, inside: set<nat>, b: nat, e: EdgeId) {
    && b in p.distance && b in p.parent
    && Incident(g, e, b) && Other(g, e, b) in inside && Val(g, e) == p.distance[b]
    && p.parent[b] == Parent(Some(Other(g, e, b)), Head(g, e) == b)
  }

  ghost predicate IsSupported(g: Adjacency, p: Prim, inside: set<nat>, b: nat) {
    exists e :: Supports(g, p, inside, b, e)
  }

  /** An outside block's distance is the largest value of an edge to it from inside, or the least
      integer when there is none. */
  ghost predicate DistanceOk(g: Adjacency, p: Prim, inside: set<nat>, b: nat) {
    && b in p.distance
    && (p.distance[b] == INT_MIN || IsSupported(g, p, inside, b))
    && (forall e | Crosses(g, e, inside) && Incident(g, e, b) :: Val(g, e) <= p.distance[b])
  }

  ghost predicate DistancesOk(g: Adjacency, p: Prim, inside: set<nat>) {
    forall b | b in g && b !in inside :: DistanceOk(g, p, inside, b)
  }

  /** The relaxation of one edge between the block just added and another. */
  function Relax(p: Prim, inside: set<nat>, bb: nat, other: nat, val: int, outgoing: bool): Prim {
    if other in inside || other !in p.distance || val <= p.distance[other] then p
    else Prim(p.distance[other := val], p.parent[other := Parent(Some(bb), outgoing)])
  }

  /** While the edges at bb are being relaxed: distances are right for the inside without bb, and never
      too small for the edges at bb already seen. */
  ghost predicate Relaxing(g: Adjacency, p: Prim, inside: set<nat>, bb: nat, seen: iset<EdgeId>)
  {
    bb in inside && forall b | b in g && b !in inside :: RelaxedAt(g, p, inside, bb, seen, b)
  }

  ghost predicate RelaxedAt(g: Adjacency, p: Prim, inside: set<nat>, bb: nat, seen: iset<EdgeId>, b: nat) {
    && b in p.distance
    && (p.distance[b] == INT_MIN || IsSupported(g, p, inside, b))
    && (forall e | Crosses(g, e, inside - {bb}) && Incident(g, e, b) :: Val(g, e) <= p.distance[b])
    && (forall e | e in seen && IsEdge(g, e) && Incident(g, e, b) && Other(g, e, b) == bb :: Val(g, e) <= p.distance[b])
  }

  ghost predicate OthersOk(g: Adjacency, p: Prim, inside: set<nat>, bb: nat) {
    forall b | b in g && b !in inside && b != bb :: DistanceOk(g, p, inside, b)
  }

  lemma StartRelaxing(g: Adjacency, p: Prim, inside: set<nat>, bb: nat)
    requires OthersOk(g, p, inside, bb) && bb !in inside
    ensures Relaxing(g, p, inside + {bb}, bb, iset{})
  {
    assert inside + {bb} - {bb} == inside;
    forall b | b in g && b !in inside + {bb}
      ensures RelaxedAt(g, p, inside + {bb}, bb, iset{}, b)
    {
      assert DistanceOk(g, p, inside, b);
      if p.distance[b] != INT_MIN {
        var e :| Supports(g, p, inside, b, e);
        assert Supports(g, p, inside + {bb}, b, e);
      }
    }
  }

  lemma RelaxOne(g: Adjacency, p: Prim, inside: set<nat>, bb: nat, seen: iset<EdgeId>, e: EdgeId)
    requires WellNumbered(g) && Closed(g) && Relaxing(g, p, inside, bb, seen) && Incident(g, e, bb)
    requires p.distance.Keys == g.Keys
    ensures Relaxing(g, Relax(p, inside, bb, Other(g, e, bb), Val(g, e), e.0 == bb), inside, bb, seen + iset{e})
  {
    var p' := Relax(p, inside, bb, Other(g, e, bb), Val(g, e), e.0 == bb);
    forall b | b in g && b !in inside
      ensures RelaxedAt(g, p', inside, bb, seen + iset{e}, b)
    {
      RelaxOneAt(g, p, inside, bb, seen, e, b);
    }
  }

  lemma RelaxOneAt(g: Adjacency, p: Prim, inside: set<nat>, bb: nat, seen: iset<EdgeId>, e: EdgeId, b: nat)
    requires bb in inside && b in g && b !in inside && RelaxedAt(g, p, inside, bb, seen, b) && Incident(g, e, bb)
    requires p.distance.Keys == g.Keys
    ensures RelaxedAt(g, Relax(p, inside, bb, Other(g, e, bb), Val(g, e), e.0 == bb), inside, bb, seen + iset{e}, b)
  {
    var p' := Relax(p, inside, bb, Other(g, e, bb), Val(g, e), e.0 == bb);
    if b == Other(g, e, bb) && Val(g, e) > p.distance[b] {
      assert Supports(g, p', inside, b, e);
    } else if p.distance[b] != INT_MIN {
      var f :| Supports(g, p, inside, b, f);
      assert Supports(g, p', inside, b, f);
    }
  }

  ghost function CopiesOf(g: Adjacency, x: Edge): iset<EdgeId> {
    iset e: EdgeId | IsEdge(g, e) && g[e.0][e.1] == x
  }

  /** Relaxing an incoming edge serves all its copies. */
  lemma RelaxCopies(g: Adjacency, p: Prim, inside: set<nat>, bb: nat, seen: iset<EdgeId>, x: Edge)
    requires WellNumbered(g) && Closed(g) && Relaxing(g, p, inside, bb, seen) && IsIncoming(g, bb, x)
    requires p.distance.Keys == g.Keys
    ensures Relaxing(g, Relax(p, inside, bb, x.from, x.val, false), inside, bb, seen + CopiesOf(g, x))
  {
    var e: EdgeId :| IsEdge(g, e) && Head(g, e) == bb && g[e.0][e.1] == x;
    if e.0 == bb {
      assert Relax(p, inside, bb, x.from, x.val, false) == p;
    } else {
      RelaxOne(g, p, inside, bb, seen, e);
      assert Other(g, e, bb) == x.from;
    }
    assert forall f | f in CopiesOf(g, x) :: Val(g, f) == x.val && f.0 == x.from && Head(g, f) == bb;
  }

  lemma DoneRelaxing(g: Adjacency, p: Prim, inside: set<nat>, bb: nat, seen: iset<EdgeId>)
    requires Relaxing(g, p, inside, bb, seen) && forall e: EdgeId | Incident(g, e, bb) :: e in seen
    ensures DistancesOk(g, p, inside)
  {
    forall b | b in g && b !in inside
      ensures DistanceOk(g, p, inside, b)
    {
      assert RelaxedAt(g, p, inside, bb, seen, b);
      forall e | Crosses(g, e, inside) && Incident(g, e, b)
        ensures Val(g, e) <= p.distance[b]
      {
        if Other(g, e, b) == bb {
          assert e in seen;
        } else {
          assert Crosses(g, e, inside - {bb});
        }
      }
    }
  }

  /** The blocks inside keep their distance and parent. */
  ghost predicate SameInside(p0: Prim, p: Prim, inside: set<nat>)
  {
    && (forall b | b in inside :: b in p0.distance && b in p.distance && p.distance[b] == p0.distance[b])
    && (forall b | b in inside :: (b in p.parent <==> b in p0.parent) &&
         (b in p.parent ==> p.parent[b] == p0.parent[b]))
  }

  lemma RelaxKeepsInside(p0: Prim, p: Prim, inside: set<nat>, bb: nat, other: nat, val: int, outgoing: bool)
    requires SameInside(p0, p, inside)
    ensures SameInside(p0, Relax(p, inside, bb, other, val, outgoing), inside)
    ensures Relax(p, inside, bb, other, val, outgoing).distance.Keys == p.distance.Keys
  {
  }

  /** Relaxes the edges out of bb, then the edges into it. */
  method RelaxEdges(g: Adjacency, tag: Adjacency, p0: Prim, inside: set<nat>, bb: nat) returns (p: Prim)
    requires WellNumbered(g) && Closed(g) && bb in g && bb !in inside && inside <= g.Keys == p0.distance.Keys
    requires OthersOk(g, p0, inside, bb)
    requires IsTranspose(g, tag)
    ensures DistancesOk(g, p, inside + {bb}) && p.distance.Keys == g.Keys && SameInside(p0, p, inside + {bb})
  {
    hide Relaxing, DistancesOk, OthersOk, Relax, Closed, IsIncoming;
    var inMST := inside + {bb};
    p := p0;
    StartRelaxing(g, p0, inside, bb);
    ghost var seen: iset<EdgeId> := iset{};
    var i := 0;
    while i < |g[bb]|
      invariant 0 <= i <= |g[bb]| && p.distance.Keys == g.Keys && Relaxing(g, p, inMST, bb, seen) &&
        SameInside(p0, p, inMST)
      invariant forall e: EdgeId | IsEdge(g, e) && e.0 == bb && e.1 < i :: e in seen
    {
      ghost var e: EdgeId := (bb, i);
      RelaxOne(g, p, inMST, bb, seen, e);
      RelaxKeepsInside(p0, p, inMST, bb, g[bb][i].to, g[bb][i].val, true);
      p := Relax(p, inMST, bb, g[bb][i].to, g[bb][i].val, true);
      seen := seen + iset{e};
      i := i + 1;
    }
    var incoming := Out(tag, bb);
    i := 0;
    while i < |incoming|
      invariant 0 <= i <= |incoming| && p.distance.Keys == g.Keys && Relaxing(g, p, inMST, bb, seen) &&
        SameInside(p0, p, inMST)
      invariant forall e: EdgeId | IsEdge(g, e) && e.0 == bb :: e in seen
      invariant forall e: EdgeId | IsEdge(g, e) && g[e.0][e.1] in incoming[..i] :: e in seen
    {
      var x := incoming[i];
      RelaxCopies(g, p, inMST, bb, seen, x);
      RelaxKeepsInside(p0, p, inMST, bb, x.from, x.val, false);
      p := Relax(p, inMST, bb, x.from, x.val, false);
      seen := seen + CopiesOf(g, x);
      assert incoming[..i + 1] == incoming[..i] + [x];
      i := i + 1;
    }
    assert incoming[..i] == incoming;
    DoneRelaxing(g, p, inMST, bb, seen);
  }

  // ----- the table of increments -----

  /** One entry for each pair of blocks. */
  type IncTable = map<(nat, nat), int>

  /** A pair that was never stored reads as 0. */
  function IncOf(inc: IncTable, x: nat, y: nat): int {
    if (x, y) in inc then inc[(x, y)] else 0
  }

  /** The table holds the differences of a potential, in 32-bit arithmetic. */
  ghost predicate HoldsDifferences(inc: IncTable, pot: map<nat, int>) {
    forall x, y | x in pot && y in pot :: IncOf(inc, x, y) == ToInt32(pot[y] - pot[x])
  }

  ghost predicate KeysWithin(inc: IncTable, inside: set<nat>) {
    forall x, y | (x, y) in inc :: x in inside && y in inside
  }

  lemma WrapSum(a: int, b: int)
    ensures ToInt32(ToInt32(a) + b) == ToInt32(a + b) && ToInt32(-ToInt32(a)) == ToInt32(-a)
  {
  }

  function Signed(parent: Parent, d: int): int {
    if parent.second then d else -d
  }

  /** The old entries are kept and those of the blocks in done are joined to bb. */
  ghost predicate Joining(inc0: IncTable, inc: IncTable, pot: map<nat, int>, inMST: set<nat>, done: set<nat>, bb: nat)
    requires pot.Keys == inMST + {bb} && done <= inMST
  {
    && KeysWithin(inc, inMST + {bb}) && (bb, bb) !in inc
    && (forall x, y | x in inMST && y in inMST :: IncOf(inc, x, y) == IncOf(inc0, x, y))
    && (forall x | x in done :: JoinedTo(inc, pot, x, bb))
  }

  lemma JoinOne(inc0: IncTable, inc: IncTable, pot: map<nat, int>, inMST: set<nat>, done: set<nat>, bb: nat, x: nat,
                d: int)
    requires pot.Keys == inMST + {bb} && done <= inMST && bb !in inMST && x in inMST
    requires Joining(inc0, inc, pot, inMST, done, bb) && d == ToInt32(pot[bb] - pot[x])
    ensures Joining(inc0, inc[(x, bb) := d][(bb, x) := ToInt32(-d)], pot, inMST, done + {x}, bb)
  {
    WrapSum(pot[bb] - pot[x], 0);
    hide ToInt32;
    var inc' := inc[(x, bb) := d][(bb, x) := ToInt32(-d)];
    forall y, z | y in inMST && z in inMST
      ensures IncOf(inc', y, z) == IncOf(inc0, y, z)
    {
      assert IncOf(inc', y, z) == IncOf(inc, y, z);
    }
    forall y | y in done + {x}
      ensures JoinedTo(inc', pot, y, bb)
    {
      assert y != x ==> JoinedTo(inc, pot, y, bb);
    }
  }

  lemma AllJoined(inc0: IncTable, inc: IncTable, pot0: map<nat, int>, pot: map<nat, int>, inMST: set<nat>, bb: nat)
    requires pot.Keys == inMST + {bb} && bb !in inMST && pot0.Keys == inMST &&
      forall x | x in inMST :: pot[x] == pot0[x]
    requires HoldsDifferences(inc0, pot0) && Joining(inc0, inc, pot, inMST, inMST, bb)
    ensures HoldsDifferences(inc, pot)
  {
    hide Joining, HoldsDifferences, ToInt32;
    forall x, y | x in pot && y in pot
      ensures IncOf(inc, x, y) == ToInt32(pot[y] - pot[x])
    {
      EntryJoined(inc0, inc, pot0, pot, inMST, bb, x, y);
    }
    DifferencesHold(inc, pot);
  }

  lemma EntryJoined(inc0: IncTable, inc: IncTable, pot0: map<nat, int>, pot: map<nat, int>, inMST: set<nat>, bb: nat,
                    x: nat, y: nat)
    requires pot.Keys == inMST + {bb} && bb !in inMST && pot0.Keys == inMST &&
      forall z | z in inMST :: pot[z] == pot0[z]
    requires HoldsDifferences(inc0, pot0) && Joining(inc0, inc, pot, inMST, inMST, bb) && x in pot && y in pot
    ensures IncOf(inc, x, y) == ToInt32(pot[y] - pot[x])
  {
    hide Joining, IncOf, ToInt32;
    if x in inMST && y in inMST {
      OldEntry(inc0, inc, pot, inMST, inMST, bb, x, y);
    } else {
      NewEntry(inc0, inc, pot, inMST, bb, if x == bb then y else x);
    }
  }

  lemma NewEntry(inc0: IncTable, inc: IncTable, pot: map<nat, int>, inMST: set<nat>, bb: nat, x: nat)
    requires pot.Keys == inMST + {bb} && Joining(inc0, inc, pot, inMST, inMST, bb) && x in inMST + {bb}
    ensures JoinedTo(inc, pot, x, bb)
  {
  }

  lemma DifferencesHold(inc: IncTable, pot: map<nat, int>)
    requires forall x, y | x in pot && y in pot :: IncOf(inc, x, y) == ToInt32(pot[y] - pot[x])
    ensures HoldsDifferences(inc, pot)
  {
  }

  /** The entries between the blocks in the tree and the block about to join it. */
  method UpdateInc(inc0: IncTable, inMST: set<nat>, bb: nat, parent: Parent, d: int, ghost pot: map<nat, int>)
    returns (inc: IncTable, ghost pot': map<nat, int>)
    requires HoldsDifferences(inc0, pot) && KeysWithin(inc0, inMST) && pot.Keys == inMST && bb !in inMST
    requires inMST != {} ==> parent.first.Some? && parent.first.value in inMST
    ensures pot' == pot[bb := if inMST == {} then 0 else pot[parent.first.value] + Signed(parent, d)]
    ensures HoldsDifferences(inc, pot') && KeysWithin(inc, inMST + {bb})
  {
    hide ToInt32, Joining;
    pot' := pot[bb := if inMST == {} then 0 else pot[parent.first.value] + Signed(parent, d)];
    inc := inc0;
    assert Joining(inc0, inc, pot', inMST, {}, bb) by {
      NothingJoined(inc0, pot', inMST, bb);
    }
    var left := inMST;
    assert inMST - left == {};
    while left != {}
      invariant left <= inMST && Joining(inc0, inc, pot', inMST, inMST - left, bb)
      decreases left
    {
      var x :| x in left;
      var q := parent.first.value;
      var d' := ToInt32(if q == x then Signed(parent, d) else IncOf(inc, x, q) + Signed(parent, d));
      if q != x {
        OldEntry(inc0, inc, pot', inMST, inMST - left, bb, x, q);
        WrapSum(pot[q] - pot[x], Signed(parent, d));
        assert pot[q] - pot[x] + Signed(parent, d) == pot'[bb] - pot'[x];
      }
      JoinOne(inc0, inc, pot', inMST, inMST - left, bb, x, d');
      inc := inc[(x, bb) := d'][(bb, x) := ToInt32(-d')];
      assert inMST - left + {x} == inMST - (left - {x});
      left := left - {x};
    }
    assert inMST - left == inMST;
    AllJoined(inc0, inc, pot, pot', inMST, bb);
    assert KeysWithin(inc, inMST + {bb}) by {
      KeysOfJoining(inc0, inc, pot', inMST, bb);
    }
  }

  lemma NothingJoined(inc0: IncTable, pot: map<nat, int>, inMST: set<nat>, bb: nat)
    requires pot.Keys == inMST + {bb} && KeysWithin(inc0, inMST) && bb !in inMST
    ensures Joining(inc0, inc0, pot, inMST, {}, bb)
  {
  }

  lemma OldEntry(inc0: IncTable, inc: IncTable, pot: map<nat, int>, inMST: set<nat>, done: set<nat>, bb: nat, x: nat,
                 y: nat)
    requires pot.Keys == inMST + {bb} && done <= inMST && Joining(inc0, inc, pot, inMST, done, bb) && x in inMST &&
      y in inMST
    ensures IncOf(inc, x, y) == IncOf(inc0, x, y)
  {
  }

  lemma KeysOfJoining(inc0: IncTable, inc: IncTable, pot: map<nat, int>, inMST: set<nat>, bb: nat)
    requires pot.Keys == inMST + {bb} && Joining(inc0, inc, pot, inMST, inMST, bb)
    ensures KeysWithin(inc, inMST + {bb})
  {
  }

  ghost predicate JoinedTo(inc: IncTable, pot: map<nat, int>, x: nat, bb: nat)
    requires x in pot && bb in pot
  {
    IncOf(inc, x, bb) == ToInt32(pot[bb] - pot[x]) && IncOf(inc, bb, x) == ToInt32(pot[x] - pot[bb])
  }

  // ----- the whole of getIncValues -----

  /** The blocks added so far, each but the first by its greedy edge, with their parents and a potential
      whose differences along tree edges are their values. */
  datatype Growth = Growth(order: seq<nat>, tree: seq<EdgeId>, pot: map<nat, int>)

  ghost predicate GrownSoFar(g: Adjacency, w: Growth) {
    && |w.tree| == |w.order| && (forall b :: b in w.order <==> b in w.pot) && w.pot.Keys <= g.Keys
    && (forall i, j | 0 <= i < j < |w.order| :: w.order[i] != w.order[j])
    && (forall k | 1 <= k < |w.order| :: AddedBy(g, w.order, w.tree[k], k))
  }

  ghost predicate ParentsOk(g: Adjacency, w: Growth, p: Prim)
    requires GrownSoFar(g, w)
  {
    && (w.order != [] ==> w.order[0] in p.parent && p.parent[w.order[0]] == Parent(None, true))
    && forall k | 1 <= k < |w.order| :: ParentOk(g, w, p, k)
  }

  ghost predicate ParentOk(g: Adjacency, w: Growth, p: Prim, k: nat)
    requires GrownSoFar(g, w) && 1 <= k < |w.order|
  {
    var b, e := w.order[k], w.tree[k];
    && AddedBy(g, w.order, e, k) && e.0 in w.pot && Head(g, e) in w.pot
    && b in p.parent && p.parent[b] == Parent(Some(Other(g, e, b)), Head(g, e) == b)
    && w.pot[Head(g, e)] - w.pot[e.0] == Val(g, e)
  }

  /** While blocks are left, the outside block with the largest distance is joined to the tree by an edge
      of the largest value among those that leave the tree. */
  lemma NextIsGreedy(g: Adjacency, p: Prim, inside: set<nat>, b: nat) returns (e: EdgeId)
    requires WellNumbered(g) && Closed(g) && Connected(g, AllEdges(g)) && DistancesOk(g, p, inside)
    requires inside != {} && inside <= g.Keys && b in g && b !in inside
    requires forall c | c in g && c !in inside :: c in p.distance && p.distance[c] <= p.distance[b]
    ensures Supports(g, p, inside, b, e) && forall f | Crosses(g, f, inside) :: Val(g, f) <= Val(g, e)
  {
    forall f | Crosses(g, f, inside)
      ensures Val(g, f) <= p.distance[b]
    {
      var c := if f.0 in inside then Head(g, f) else f.0;
      assert DistanceOk(g, p, inside, c);
    }
    var a :| a in inside;
    assert Connects(g, AllEdges(g), a, b);
    var w :| Leads(g, AllEdges(g), a, w, b);
    var i, c := FirstCrossing(g, AllEdges(g), a, w, b, inside);
    assert Val(g, w[i]) > INT_MIN;
    assert DistanceOk(g, p, inside, b);
    e :| Supports(g, p, inside, b, e);
  }

  function Joined(w: Growth, b: nat, e: EdgeId, pot: map<nat, int>): Growth {
    Growth(w.order + [b], w.tree + [e], pot)
  }

  lemma EarlierIsPrefix(order: seq<nat>, b: nat, k: nat)
    requires k <= |order|
    ensures Earlier(order + [b], k) == Earlier(order, k)
  {
    assert forall i | 0 <= i < k :: (order + [b])[i] == order[i];
  }

  lemma AllEarlier(order: seq<nat>)
    ensures forall b :: b in Earlier(order, |order|) <==> b in order
  {
  }

  lemma Grows(g: Adjacency, w: Growth, b: nat, e: EdgeId, pot: map<nat, int>)
    requires GrownSoFar(g, w) && b in g && b !in w.pot && pot.Keys == w.pot.Keys + {b}
    requires w.order != [] ==>
      Incident(g, e, b) && Other(g, e, b) in w.pot && forall f | Crosses(g, f, w.pot.Keys) :: Val(g, f) <= Val(g, e)
    ensures GrownSoFar(g, Joined(w, b, e, pot))
  {
    var w' := Joined(w, b, e, pot);
    forall k | 1 <= k < |w'.order|
      ensures AddedBy(g, w'.order, w'.tree[k], k)
    {
      EarlierIsPrefix(w.order, b, k);
      if k < |w.order| {
        assert AddedBy(g, w.order, w.tree[k], k);
      } else {
        AllEarlier(w.order);
        assert Earlier(w'.order, k) == w.pot.Keys;
      }
    }
  }

  lemma ParentsGrow(g: Adjacency, w: Growth, p: Prim, p': Prim, b: nat, e: EdgeId, pot: map<nat, int>)
    requires GrownSoFar(g, w) && ParentsOk(g, w, p) && GrownSoFar(g, Joined(w, b, e, pot)) && b !in w.pot
    requires pot.Keys == w.pot.Keys + {b} && (forall x | x in w.pot :: pot[x] == w.pot[x])
    requires SameInside(p, p', w.pot.Keys + {b}) && b in p.parent
    requires w.order == [] ==> p.parent[b] == Parent(None, true)
    requires w.order != [] ==>
      Supports(g, p, w.pot.Keys, b, e) && pot[b] == pot[Other(g, e, b)] + Signed(p.parent[b], p.distance[b])
    ensures ParentsOk(g, Joined(w, b, e, pot), p')
  {
    var w' := Joined(w, b, e, pot);
    hide AddedBy;
    forall k | 1 <= k < |w'.order|
      ensures ParentOk(g, w', p', k)
    {
      assert AddedBy(g, w'.order, w'.tree[k], k);
      if k < |w.order| {
        assert ParentOk(g, w, p, k);
        assert w'.order[k] == w.order[k] && w'.order[k] in w.order;
      }
    }
    if w.order != [] {
      assert w'.order[0] == w.order[0] && w.order[0] in w.order;
    }
  }

  lemma GrownIsGreedy(g: Adjacency, w: Growth)
    requires GrownSoFar(g, w) && w.pot.Keys == g.Keys
    ensures IsGreedy(g, w.order, w.tree)
  {
    NoRepeats(w.order, w.pot.Keys);
  }

  lemma {:induction false} NoRepeats(s: seq<nat>, members: set<nat>)
    requires (forall b :: b in s <==> b in members) && forall i, j | 0 <= i < j < |s| :: s[i] != s[j]
    ensures |s| == |members|
  {
    if s == [] {
      assert members == {};
    } else {
      var last := s[|s| - 1];
      assert last in s;
      var rest := s[..|s| - 1];
      assert s == rest + [last];
      forall b
        ensures b in rest <==> b in members - {last}
      {
      }
      NoRepeats(rest, members - {last});
    }
  }

  /** The block outside the tree with the largest distance. */
  method PickLargest(notInMST: set<nat>, distance: map<nat, int>) returns (b: nat)
    requires notInMST != {} && notInMST <= distance.Keys
    ensures b in notInMST && forall c | c in notInMST :: distance[c] <= distance[b]
  {
    b :| b in notInMST;
    var left := notInMST - {b};
    while left != {}
      invariant left <= notInMST && b in notInMST
      invariant forall c | c in notInMST && c !in left :: distance[c] <= distance[b]
      decreases left
    {
      var c :| c in left;
      if distance[c] > distance[b] {
        b := c;
      }
      left := left - {c};
    }
  }

  /** What growing the tree keeps; before the first block is added, all that is known is where to start. */
  ghost predicate GrowingOk(g: Adjacency, p: Prim, inc: IncTable, w: Growth, root: nat) {
    && GrownSoFar(g, w) && ParentsOk(g, w, p) && w.pot.Keys <= g.Keys == p.distance.Keys
    && HoldsDifferences(inc, w.pot) && KeysWithin(inc, w.pot.Keys)
    && (w.order == [] <==> w.pot == map[])
    && if w.order == [] then IsStart(g, p, root) && OthersOk(g, p, {}, root) else DistancesOk(g, p, w.pot.Keys)
  }

  /** The block picked has a parent in the tree, unless it is the first. */
  lemma PickedOk(g: Adjacency, p: Prim, inc: IncTable, w: Growth, root: nat, bb: nat) returns (e: EdgeId)
    requires WellNumbered(g) && Closed(g) && Connected(g, AllEdges(g)) && GrowingOk(g, p, inc, w, root)
    requires bb in g && bb !in w.pot && forall c | c in g && c !in w.pot :: p.distance[c] <= p.distance[bb]
    ensures bb in p.parent && bb in p.distance && OthersOk(g, p, w.pot.Keys, bb)
    ensures if w.order == [] then p.parent[bb] == Parent(None, true)
            else Supports(g, p, w.pot.Keys, bb, e) && forall f | Crosses(g, f, w.pot.Keys) :: Val(g, f) <= Val(g, e)
  {
    hide GrownSoFar, ParentsOk, HoldsDifferences, KeysWithin, DistancesOk, OthersOk, WellNumbered, Closed, Connected,
      Crosses;
    if w.order == [] {
      assert root !in w.pot && w.pot.Keys == {};
      FirstIsRoot(g, p, root, bb);
      e := (0, 0);
    } else {
      e := NextIsGreedy(g, p, w.pot.Keys, bb);
      DistancesThenOthers(g, p, w.pot.Keys, bb);
    }
  }

  lemma AddedOk(g: Adjacency, p: Prim, inc: IncTable, w: Growth, root: nat, bb: nat, e: EdgeId, p': Prim,
                inc': IncTable, pot: map<nat, int>)
    requires GrowingOk(g, p, inc, w, root) && bb in g && bb !in w.pot && bb in p.parent && bb in p.distance
    requires if w.order == [] then p.parent[bb] == Parent(None, true)
             else Supports(g, p, w.pot.Keys, bb, e) && forall f | Crosses(g, f, w.pot.Keys) :: Val(g, f) <= Val(g, e)
    requires w.pot == map[] || (p.parent[bb].first.Some? && p.parent[bb].first.value in w.pot)
    requires pot == w.pot[bb := if w.pot == map[] then 0
      else w.pot[p.parent[bb].first.value] + Signed(p.parent[bb], p.distance[bb])]
    requires HoldsDifferences(inc', pot) && KeysWithin(inc', w.pot.Keys + {bb})
    requires DistancesOk(g, p', w.pot.Keys + {bb}) && p'.distance.Keys == g.Keys && SameInside(p, p', w.pot.Keys + {bb})
    ensures GrowingOk(g, p', inc', Joined(w, bb, e, pot), root)
  {
    hide GrownSoFar, ParentsOk, HoldsDifferences, KeysWithin, DistancesOk, OthersOk, Crosses, SameInside, Signed,
      IsStart;
    Grows(g, w, bb, e, pot);
    ParentsGrow(g, w, p, p', bb, e, pot);
    assert pot.Keys == w.pot.Keys + {bb};
  }

  /** Joins bb to the tree: its increments are stored and its edges relaxed. */
  method AddBlock(g: Adjacency, tag: Adjacency, p: Prim, inc: IncTable, inMST: set<nat>, bb: nat, ghost w: Growth,
                  ghost root: nat)
    returns (p': Prim, inc': IncTable, ghost w': Growth)
    requires WellNumbered(g) && Closed(g) && Connected(g, AllEdges(g)) && IsTranspose(g, tag)
    requires GrowingOk(g, p, inc, w, root) && inMST == w.pot.Keys <= g.Keys == p.distance.Keys && bb in g &&
      bb !in inMST
    requires forall c | c in g && c !in inMST :: p.distance[c] <= p.distance[bb]
    ensures GrowingOk(g, p', inc', w', root) && w'.pot.Keys == inMST + {bb} && p'.distance.Keys == g.Keys
  {
    hide GrowingOk, HoldsDifferences, KeysWithin, DistancesOk, OthersOk, WellNumbered, Closed, Connected, IsTranspose,
      Crosses, Signed, SameInside, AddedBy, GrownSoFar, ParentsOk, Supports;
    ghost var e := PickedOk(g, p, inc, w, root, bb);
    ghost var pot;
    GrowingParts(g, p, inc, w, root, bb, e);
    assert w.order == [] <==> inMST == {};
    inc', pot := UpdateInc(inc, inMST, bb, p.parent[bb], p.distance[bb], w.pot);
    p' := RelaxEdges(g, tag, p, inMST, bb);
    AddedOk(g, p, inc, w, root, bb, e, p', inc', pot);
    w' := Joined(w, bb, e, pot);
  }

  /** Grows the tree from an arbitrary block, breaking ties between distances arbitrarily, and fills the
      table of increments on the way. */
  method GrowTree(g: Adjacency) returns (p: Prim, inc: IncTable, ghost w: Growth)
    requires WellNumbered(g) && Closed(g) && Connected(g, AllEdges(g)) && g != map[]
    ensures GrownSoFar(g, w) && w.pot.Keys == g.Keys && IsGreedy(g, w.order, w.tree)
    ensures ParentsOk(g, w, p) && HoldsDifferences(inc, w.pot)
  {
    hide GrowingOk, HoldsDifferences, WellNumbered, Closed, Connected, IsGreedy, IsTranspose, GrownSoFar, ParentsOk;
    var tag := TransposeGraph(g);
    var root :| root in g;
    p := Prim(map b | b in g :: if b == root then 0 else INT_MIN, map[root := Parent(None, true)]);
    inc := map[];
    var notInMST, inMST: set<nat> := g.Keys, {};
    w := Growth([], [], map[]);
    StartGrowing(g, p, root);
    while notInMST != {}
      invariant inMST == w.pot.Keys == g.Keys - notInMST && notInMST <= g.Keys == p.distance.Keys
      invariant GrowingOk(g, p, inc, w, root)
      decreases notInMST
    {
      var bb := PickLargest(notInMST, p.distance);
      p, inc, w := AddBlock(g, tag, p, inc, inMST, bb, w, root);
      inMST, notInMST := inMST + {bb}, notInMST - {bb};
    }
    GrowthEnds(g, p, inc, w, root);
  }

  lemma GrowingParts(g: Adjacency, p: Prim, inc: IncTable, w: Growth, root: nat, bb: nat, e: EdgeId)
    requires GrowingOk(g, p, inc, w, root)
    ensures HoldsDifferences(inc, w.pot) && KeysWithin(inc, w.pot.Keys) && (w.order == [] <==> w.pot == map[])
    ensures w.order == [] || !Supports(g, p, w.pot.Keys, bb, e) ||
      (p.parent[bb].first.Some? && p.parent[bb].first.value in w.pot)
  {
  }

  lemma GrowthEnds(g: Adjacency, p: Prim, inc: IncTable, w: Growth, root: nat)
    requires GrowingOk(g, p, inc, w, root) && w.pot.Keys == g.Keys
    ensures GrownSoFar(g, w) && ParentsOk(g, w, p) && HoldsDifferences(inc, w.pot) && IsGreedy(g, w.order, w.tree)
  {
    GrownIsGreedy(g, w);
  }

  ghost predicate IsStart(g: Adjacency, p: Prim, root: nat) {
    && root in g && p.distance.Keys == g.Keys && p.parent == map[root := Parent(None, true)]
    && forall b | b in g :: p.distance[b] == if b == root then 0 else INT_MIN
  }

  lemma FirstIsRoot(g: Adjacency, p: Prim, root: nat, bb: nat)
    requires IsStart(g, p, root) && bb in g && p.distance[root] <= p.distance[bb]
    ensures bb == root && bb in p.parent && p.parent[bb] == Parent(None, true)
  {
  }

  lemma DistancesThenOthers(g: Adjacency, p: Prim, inside: set<nat>, bb: nat)
    requires DistancesOk(g, p, inside)
    ensures OthersOk(g, p, inside, bb)
  {
  }

  lemma StartGrowing(g: Adjacency, p: Prim, root: nat)
    requires IsStart(g, p, root)
    ensures GrowingOk(g, p, map[], Growth([], [], map[]), root)
  {
  }

  // ----- increments and chords -----

  function ParentOf(p: Prim, b: nat): Option<nat> {
    if b in p.parent then p.parent[b].first else None
  }

  function Annotate(p: Prim, inc: IncTable, e: Edge): Edge {
    e.(inc := IncOf(inc, e.from, e.to), chordEdge := ParentOf(p, e.to) != Some(e.from) &&
      ParentOf(p, e.from) != Some(e.to))
  }

  /** The same edges, each with its increment and whether it is a chord. */
  ghost predicate IsAnnotated(g: Adjacency, g': Adjacency, p: Prim, inc: IncTable) {
    g'.Keys == g.Keys && forall b | b in g :: AnnotatedUpTo(g, g', p, inc, b, |g[b]|)
  }

  ghost predicate AnnotatedUpTo(g: Adjacency, g': Adjacency, p: Prim, inc: IncTable, b: nat, k: nat)
    requires b in g && b in g'
  {
    && k <= |g[b]| == |g'[b]| && (forall i | 0 <= i < k :: g'[b][i] == Annotate(p, inc, g[b][i]))
    && (forall i | k <= i < |g[b]| :: g'[b][i] == g[b][i])
  }

  method AnnotateEdges(g: Adjacency, p: Prim, inc: IncTable) returns (g': Adjacency)
    ensures IsAnnotated(g, g', p, inc)
  {
    g' := g;
    var left := g.Keys;
    while left != {}
      invariant left <= g.Keys == g'.Keys
      invariant forall b | b in left :: g'[b] == g[b]
      invariant forall b | b in g && b !in left :: AnnotatedUpTo(g, g', p, inc, b, |g[b]|)
      decreases left
    {
      hide Annotate;
      var b :| b in left;
      var edges := g[b];
      var i := 0;
      while i < |edges|
        invariant 0 <= i <= |edges| == |g[b]|
        invariant forall j | 0 <= j < i :: edges[j] == Annotate(p, inc, g[b][j])
        invariant forall j | i <= j < |edges| :: edges[j] == g[b][j]
      {
        edges := edges[i := Annotate(p, inc, edges[i])];
        i := i + 1;
      }
      g' := g'[b := edges];
      left := left - {b};
    }
  }

  predicate SameEnds(g: Adjacency, e: EdgeId, f: EdgeId)
    requires IsEdge(g, e) && IsEdge(g, f)
  {
    (e.0 == f.0 && Head(g, e) == Head(g, f)) || (e.0 == Head(g, f) && Head(g, e) == f.0)
  }

  function TreeOf(w: Growth): set<EdgeId> {
    TreeEdges(w.tree, |w.tree|)
  }

  /** The increments are potential differences, along tree edges they are the values, and the chords are the
      edges whose ends no tree edge joins. */
  ghost predicate IncrementsOk(g: Adjacency, g': Adjacency, inc: IncTable, w: Growth)
  {
    && w.pot.Keys == g.Keys && HoldsDifferences(inc, w.pot) && Closed(g) && AreEdges(g, TreeOf(w))
    && (forall e | e in TreeOf(w) :: w.pot[Head(g, e)] - w.pot[e.0] == Val(g, e))
    && g'.Keys == g.Keys && (forall b | b in g :: |g'[b]| == |g[b]|)
    && forall e: EdgeId | IsEdge(g, e) :: EdgeOk(g, g', inc, TreeOf(w), e)
  }

  ghost predicate EdgeOk(g: Adjacency, g': Adjacency, inc: IncTable, tree: set<EdgeId>, e: EdgeId)
    requires IsEdge(g, e) && AreEdges(g, tree)
  {
    && IsEdge(g', e)
    && g'[e.0][e.1] == g[e.0][e.1].(inc := IncOf(inc, e.0, Head(g, e)), chordEdge := g'[e.0][e.1].chordEdge)
    && (g'[e.0][e.1].chordEdge <==> forall f | f in tree :: !SameEnds(g, e, f))
  }

  lemma TreeOfGrowth(g: Adjacency, w: Growth, p: Prim)
    requires GrownSoFar(g, w) && w.pot.Keys == g.Keys && ParentsOk(g, w, p) && Closed(g)
    ensures AreEdges(g, TreeOf(w)) && forall e | e in TreeOf(w) :: w.pot[Head(g, e)] - w.pot[e.0] == Val(g, e)
  {
    hide AddedBy;
    forall e | e in TreeOf(w)
      ensures IsEdge(g, e) && w.pot[Head(g, e)] - w.pot[e.0] == Val(g, e)
    {
      var k :| 1 <= k < |w.tree| && w.tree[k] == e;
      assert ParentOk(g, w, p, k);
      IncidentEnds(g, w, p, k);
    }
  }

  /** An edge is left uninstrumented exactly when it, or another edge between its ends, is in the tree. */
  lemma ChordIff(g: Adjacency, w: Growth, p: Prim, e: EdgeId)
    requires GrownSoFar(g, w) && w.pot.Keys == g.Keys && ParentsOk(g, w, p) && Closed(g) && IsEdge(g, e) &&
      AreEdges(g, TreeOf(w))
    ensures ParentOf(p, Head(g, e)) != Some(e.0) && ParentOf(p, e.0) != Some(Head(g, e)) <==>
      forall f | f in TreeOf(w) :: !SameEnds(g, e, f)
  {
    hide AddedBy;
    forall f | f in TreeOf(w) && SameEnds(g, e, f)
      ensures ParentOf(p, Head(g, e)) == Some(e.0) || ParentOf(p, e.0) == Some(Head(g, e))
    {
      var k :| 1 <= k < |w.tree| && w.tree[k] == f;
      assert ParentOk(g, w, p, k);
      IncidentEnds(g, w, p, k);
    }
    if ParentOf(p, Head(g, e)) == Some(e.0) {
      var f := ParentEdge(g, w, p, Head(g, e));
      assert SameEnds(g, e, f);
    } else if ParentOf(p, e.0) == Some(Head(g, e)) {
      var f := ParentEdge(g, w, p, e.0);
      assert SameEnds(g, e, f);
    }
  }

  lemma IncidentEnds(g: Adjacency, w: Growth, p: Prim, k: nat)
    requires GrownSoFar(g, w) && 1 <= k < |w.order| && ParentOk(g, w, p, k)
    ensures Incident(g, w.tree[k], w.order[k])
  {
  }

  lemma ParentEdge(g: Adjacency, w: Growth, p: Prim, b: nat) returns (f: EdgeId)
    requires GrownSoFar(g, w) && w.pot.Keys == g.Keys && ParentsOk(g, w, p) && b in g && ParentOf(p, b).Some?
    ensures f in TreeOf(w) && Incident(g, f, b) && Other(g, f, b) == ParentOf(p, b).value
  {
    hide AddedBy;
    assert b in w.pot;
    var k :| 0 <= k < |w.order| && w.order[k] == b;
    assert k > 0;
    assert ParentOk(g, w, p, k);
    IncidentEnds(g, w, p, k);
    f := w.tree[k];
  }

  lemma AnnotatedIsOk(g: Adjacency, g': Adjacency, w: Growth, p: Prim, inc: IncTable)
    requires WellNumbered(g) && Closed(g) && GrownSoFar(g, w) && w.pot.Keys == g.Keys && ParentsOk(g, w, p)
    requires HoldsDifferences(inc, w.pot) && IsAnnotated(g, g', p, inc)
    ensures IncrementsOk(g, g', inc, w)
  {
    TreeOfGrowth(g, w, p);
    hide GrownSoFar, ParentsOk, HoldsDifferences, TreeOf;
    forall b | b in g
      ensures |g'[b]| == |g[b]|
    {
      assert AnnotatedUpTo(g, g', p, inc, b, |g[b]|);
    }
    forall e: EdgeId | IsEdge(g, e)
      ensures EdgeOk(g, g', inc, TreeOf(w), e)
    {
      ChordIff(g, w, p, e);
      assert AnnotatedUpTo(g, g', p, inc, e.0, |g[e.0]|);
      assert g'[e.0][e.1] == Annotate(p, inc, g[e.0][e.1]);
    }
  }

  /** The edge from the exit back to the entry, with value 0. */
  function WithClosingEdge(g: Adjacency, entry: nat, exit: nat): Adjacency {
    g[exit := Out(g, exit) + [Edge(exit, entry, 0, 0, 0, false)]]
  }

  /** Closes the graph, and leaves on every edge its increment and whether it is to be instrumented. The edges
      left out are a maximum spanning tree. */
  method GetIncValues(graph: Graph, entry: nat, exit: nat) returns (inc: IncTable, ghost w: Growth)
    requires var g := WithClosingEdge(graph.G, entry, exit);
      WellNumbered(g) && Closed(g) && Connected(g, AllEdges(g))
    modifies graph
    ensures var g := old(WithClosingEdge(graph.G, entry, exit));
      && IncrementsOk(g, graph.G, inc, w) && IsGreedy(g, w.order, w.tree)
      && IsSpanningTree(g, TreeOf(w)) && IsHeaviest(g, TreeOf(w))
  {
    hide WellNumbered, Closed, Connected, IsSpanningTree, IsGreedy, GrownSoFar, ParentsOk, HoldsDifferences,
      IncrementsOk, IsAnnotated;
    var g := WithClosingEdge(graph.G, entry, exit);
    assert exit in g;
    var p;
    p, inc, w := GrowTree(g);
    var g' := AnnotateEdges(g, p, inc);
    AnnotatedIsOk(g, g', w, p, inc);
    GrowthIsMaximum(g, w);
    graph.G := g';
  }

  lemma GrowthIsMaximum(g: Adjacency, w: Growth)
    requires Closed(g) && IsGreedy(g, w.order, w.tree) && g != map[]
    ensures IsSpanningTree(g, TreeOf(w)) && IsHeaviest(g, TreeOf(w))
  {
    hide Closed;
    assert |w.order| > 0 by {
      var b :| b in g;
      assert b in w.order;
    }
    GreedyIsSpanningTree(g, w.order, w.tree);
    forall s | IsSpanningTree(g, s)
      ensures Weight(g, s) <= Weight(g, TreeOf(w))
    {
      GreedyIsMaximum(g, w.order, w.tree, s);
    }
  }
}
