/** Propagation of a phi's frame along hot paths in HPSSAPass::run (src/HPSSA.cpp), and the taus it inserts. */
module FramePropagation {
  import opened BuddySets
  import opened CaloricConnectors
  import opened PrefixClasses
  import opened Frames

  type Successors = map<nat, seq<nat>>

  function SuccsOf(succs: Successors, b: nat): seq<nat> {
    if b in succs then succs[b] else []
  }

  ghost predicate AreConverse(f: FlowGraph, succs: Successors) {
    forall b, s :: s in SuccsOf(succs, b) <==> b in PredsOf(f, s)
  }

  /** What dominance gives: a block strictly dominated by b is entered only from b or such blocks. */
  ghost predicate IsDominated(f: FlowGraph, b: nat, dom: set<nat>) {
    && f.order != [] && f.order[0] !in dom && b !in dom
    && forall c, p | c in dom && p in PredsOf(f, c) && p in f.order :: p == b || p in dom
  }

  // ----- the table of frames -----

  type FrameMap = map<nat, Frame>

  function FrameAt(acc: FrameMap, c: nat): Frame {
    if c in acc then acc[c] else map[]
  }

  /** The paths of a predecessor visited from the k-th to before the j-th block. */
  ghost predicate Arrives(f: FlowGraph, hot: HotPathSet, c: nat, k: nat, j: nat, x: nat) {
    exists i :: k <= i < j && i < |f.order| && f.order[i] in PredsOf(f, c) && x in HotAt(hot, f.order[i])
  }

  /** What a block has received once the j-th block is reached. */
  ghost predicate HasReceived(f: FlowGraph, hot: HotPathSet, init: Frame, c: nat, k: nat, j: nat, paths: Paths,
                              fr: Frame)
  {
    && (forall x :: x in paths <==> x in HotAt(hot, c) && Arrives(f, hot, c, k, j, x))
    && fr == Restrict(init, paths)
  }

  /** The blocks to come hold what their visited predecessors passed on; b itself was given all its paths and
      the initial frame, every visited block all its paths and the part of the initial frame they carry. */
  ghost predicate Propagated(f: FlowGraph, hot: HotPathSet, init: Frame, b: nat, dom: set<nat>, k: nat, j: nat,
                             curr: HotPathSet, acc: FrameMap)
    requires k <= j <= |f.order|
  {
    && (forall c | c in dom && c !in f.order[k..j] ::
         HasReceived(f, hot, init, c, k, j, HotAt(curr, c), FrameAt(acc, c)))
    && (forall c | c == b || c in f.order[k..j] ::
         HotAt(curr, c) == HotAt(hot, c) && FrameAt(acc, c) == Restrict(init, HotAt(hot, c)))
  }

  // ----- passing a frame on -----

  /** Adds to a frame the part of another that the paths carry. */
  method PassFrame(fr0: Frame, curr: Frame, temp: Paths) returns (fr: Frame)
    requires IsTidy(fr0)
    ensures IsTidy(fr) && forall d :: PathsOf(fr, d) == PathsOf(fr0, d) + PathsOf(curr, d) * temp
  {
    fr := fr0;
    var keys := curr.Keys;
    while keys != {}
      invariant keys <= curr.Keys && IsTidy(fr)
      invariant forall d :: PathsOf(fr, d) == PathsOf(fr0, d) + if d in curr && d !in keys then curr[d] * temp else {}
      decreases keys
    {
      var d :| d in keys;
      var common := curr[d] * temp;
      if common != {} {
        fr := Add(fr, d, common);
      }
      keys := keys - {d};
    }
  }

  /** A frame restricted to some of its block's paths, joined to what another block has received. */
  lemma PassedOn(init: Frame, r: Paths, here: Paths, temp: Paths, fr: Frame)
    requires temp <= here && IsTidy(fr)
    requires forall d :: PathsOf(fr, d) == PathsOf(Restrict(init, r), d) + PathsOf(Restrict(init, here), d) * temp
    ensures fr == Restrict(init, r + temp)
  {
    forall d: nat
      ensures PathsOf(fr, d) == PathsOf(Restrict(init, r + temp), d)
    {
      RestrictUnion(init, r, temp, d);
      if d in init {
        assert init[d] * here * temp == init[d] * temp;
      }
    }
    SameFrame(fr, Restrict(init, r + temp));
  }

  /** The values after the frame of c has been passed on. */
  ghost predicate IsPassed(succs: Successors, hot: HotPathSet, init: Frame, dom: set<nat>, c: nat,
                           curr: HotPathSet, acc: FrameMap, curr': HotPathSet, acc': FrameMap) {
    forall s :: IsPassedTo(succs, hot, init, dom, c, curr, acc, curr', acc', s)
  }

  ghost predicate IsPassedTo(succs: Successors, hot: HotPathSet, init: Frame, dom: set<nat>, c: nat,
                             curr: HotPathSet, acc: FrameMap, curr': HotPathSet, acc': FrameMap, s: nat) {
    if s in dom && s in SuccsOf(succs, c) then
      HotAt(curr', s) == HotAt(curr, s) + HotAt(hot, s) * HotAt(hot, c) &&
        FrameAt(acc', s) == Restrict(init, HotAt(curr', s))
    else HotAt(curr', s) == HotAt(curr, s) && FrameAt(acc', s) == FrameAt(acc, s)
  }

  /** Passes the frame of block c on to its successors that b dominates. */
  method PassToSuccs(f: FlowGraph, succs: Successors, hot: HotPathSet, dom: set<nat>, c: nat, curr0: HotPathSet,
                     acc0: FrameMap, ghost init: Frame)
    returns (curr: HotPathSet, acc: FrameMap)
    requires IsTidy(init) && c !in SuccsOf(succs, c) && HotAt(curr0, c) == HotAt(hot, c) &&
      FrameAt(acc0, c) == Restrict(init, HotAt(hot, c))
    requires forall s | s in dom && s in SuccsOf(succs, c) :: FrameAt(acc0, s) == Restrict(init, HotAt(curr0, s))
    ensures IsPassed(succs, hot, init, dom, c, curr0, acc0, curr, acc)
  {
    curr, acc := curr0, acc0;
    var list := SuccsOf(succs, c);
    var i := 0;
    while i < |list|
      invariant 0 <= i <= |list|
      invariant forall s | s !in dom || s !in list[..i] ::
        HotAt(curr, s) == HotAt(curr0, s) && FrameAt(acc, s) == FrameAt(acc0, s)
      invariant forall s | s in dom && s in list[..i] ::
        HotAt(curr, s) == HotAt(curr0, s) + HotAt(hot, s) * HotAt(hot, c)
      invariant forall s | s in dom && s in list :: FrameAt(acc, s) == Restrict(init, HotAt(curr, s))
    {
      var succ := list[i];
      assert list[..i + 1] == list[..i] + [succ];
      assert succ in list && c !in list;
      if succ in dom {
        var temp := HotAt(hot, succ) * HotAt(curr, c);
        if temp != {} {
          var fr := PassFrame(FrameAt(acc, succ), FrameAt(acc, c), temp);
          PassedOn(init, HotAt(curr, succ), HotAt(hot, c), temp, fr);
          curr, acc := curr[succ := HotAt(curr, succ) + temp], acc[succ := fr];
        }
      }
      i := i + 1;
    }
    assert list[..i] == list;
  }

  // ----- the walk over the dominated blocks -----

  /** The input of the propagation: hot paths that start at the entry of a graph without cycles, and what b
      dominates. */
  ghost predicate IsSetting(f: FlowGraph, succs: Successors, paths: seq<seq<nat>>, hot: HotPathSet, b: nat, k: nat,
                            dom: set<nat>)
  {
    && IsAcyclic(f) && AreRooted(f, paths) && AreConverse(f, succs) &&
         (forall c :: HotAt(hot, c) == PathsThrough(paths, c))
    && k < |f.order| && f.order[k] == b && IsDominated(f, b, dom)
  }

  lemma IndexOfOrder(f: FlowGraph, k: nat)
    requires IsTopological(f) && k < |f.order|
    ensures IndexOf(f.order, f.order[k]) == k
  {
  }

  /** On a path from the entry, a dominated block comes after b, and so it does in the order. */
  lemma {:induction false} DominatedIsLater(f: FlowGraph, path: seq<nat>, b: nat, k: nat, dom: set<nat>, i: nat)
    requires IsTopological(f) && IsRooted(f, path) && IsDominated(f, b, dom) && k < |f.order| && f.order[k] == b
    requires i < |path| && path[i] in dom
    ensures path[i] in f.order && k < IndexOf(f.order, path[i])
  {
    hide IsTopological;
    assert path[i] in path;
    assert i > 0 && path[i - 1] in path;
    PathIncreases(f, path, i - 1, i);
    IndexOfOrder(f, k);
    if path[i - 1] != b {
      DominatedIsLater(f, path, b, k, dom, i - 1);
    }
  }

  /** A dominated block has received all its hot paths by the time it is visited. */
  lemma AllArrive(f: FlowGraph, succs: Successors, paths: seq<seq<nat>>, hot: HotPathSet, b: nat, k: nat, dom: set<nat>,
                  j: nat, x: nat)
    requires IsSetting(f, succs, paths, hot, b, k, dom) && j < |f.order| && f.order[j] in dom &&
      x in HotAt(hot, f.order[j])
    ensures Arrives(f, hot, f.order[j], k, j, x)
  {
    hide AreConverse;
    var c := f.order[j];
    var path := paths[x];
    assert IsRooted(f, path) && c in path;
    var p := CameFrom(f, path, c);
    EarlierThan(f, j, p);
    var i := IndexOf(f.order, p);
    if p == b {
      IndexOfOrder(f, k);
    } else {
      DominatedIsLater(f, path, b, k, dom, IndexOf(path, p));
    }
    assert f.order[i] == p && x in HotAt(hot, p);
  }

  lemma VisitedOk(f: FlowGraph, succs: Successors, paths: seq<seq<nat>>, hot: HotPathSet, init: Frame, b: nat, k: nat,
                  dom: set<nat>,
                  j: nat, curr: HotPathSet, acc: FrameMap)
    requires IsSetting(f, succs, paths, hot, b, k, dom) && k <= j < |f.order| &&
      Propagated(f, hot, init, b, dom, k, j, curr, acc)
    requires f.order[j] == b || f.order[j] in dom
    ensures HotAt(curr, f.order[j]) == HotAt(hot, f.order[j]) &&
      FrameAt(acc, f.order[j]) == Restrict(init, HotAt(hot, f.order[j]))
  {
    var c := f.order[j];
    if c != b {
      assert c !in f.order[k..j];
      assert HasReceived(f, hot, init, c, k, j, HotAt(curr, c), FrameAt(acc, c));
      forall x | x in HotAt(hot, c)
        ensures Arrives(f, hot, c, k, j, x)
      {
        AllArrive(f, succs, paths, hot, b, k, dom, j, x);
      }
      assert HotAt(curr, c) == HotAt(hot, c);
    }
  }

  /** A block's successors come later in the order. */
  lemma SuccIsLater(f: FlowGraph, succs: Successors, k: nat, j: nat, s: nat)
    requires IsTopological(f) && AreConverse(f, succs) && k <= j < |f.order| && s in SuccsOf(succs, f.order[j])
    ensures s !in f.order[k..j] && s != f.order[j]
  {
    if s in f.order[k..j] || s == f.order[j] {
      var i :| k <= i <= j && f.order[i] == s;
      assert f.order[j] in PredsOf(f, s);
      EarlierOrOut(f, i, f.order[j]);
      InSuffix(f.order, i, j);
    }
  }

  lemma EarlierOrOut(f: FlowGraph, i: nat, p: nat)
    requires IsTopological(f) && i < |f.order| && p in PredsOf(f, f.order[i])
    ensures p !in f.order[i..]
  {
    var n :| 0 <= n < |PredsOf(f, f.order[i])| && PredsOf(f, f.order[i])[n] == p;
  }

  lemma ReceivedStep(f: FlowGraph, succs: Successors, hot: HotPathSet, init: Frame, dom: set<nat>, k: nat, j: nat,
                     s: nat,
                     curr: HotPathSet, acc: FrameMap, curr': HotPathSet, acc': FrameMap)
    requires AreConverse(f, succs) && k <= j < |f.order| && s in dom
    requires IsPassedTo(succs, hot, init, dom, f.order[j], curr, acc, curr', acc', s)
    requires HasReceived(f, hot, init, s, k, j, HotAt(curr, s), FrameAt(acc, s))
    ensures HasReceived(f, hot, init, s, k, j + 1, HotAt(curr', s), FrameAt(acc', s))
  {
    var c := f.order[j];
    forall x: nat
      ensures Arrives(f, hot, s, k, j + 1, x) <==>
        Arrives(f, hot, s, k, j, x) || (c in PredsOf(f, s) && x in HotAt(hot, c))
    {
      if c in PredsOf(f, s) && x in HotAt(hot, c) {
        assert k <= j < j + 1 && f.order[j] == c;
      }
    }
  }

  lemma PropagatedStep(f: FlowGraph, succs: Successors, paths: seq<seq<nat>>, hot: HotPathSet, init: Frame, b: nat,
                       k: nat, dom: set<nat>,
                       j: nat, curr: HotPathSet, acc: FrameMap, curr': HotPathSet, acc': FrameMap)
    requires IsSetting(f, succs, paths, hot, b, k, dom) && k <= j < |f.order| &&
      Propagated(f, hot, init, b, dom, k, j, curr, acc)
    requires (f.order[j] == b || f.order[j] in dom) &&
      IsPassed(succs, hot, init, dom, f.order[j], curr, acc, curr', acc')
    ensures Propagated(f, hot, init, b, dom, k, j + 1, curr', acc')
  {
    hide HasReceived, IsAcyclic, AreRooted, AreConverse, IsDominated;
    var c := f.order[j];
    VisitedOk(f, succs, paths, hot, init, b, k, dom, j, curr, acc);
    assert f.order[k..j + 1] == f.order[k..j] + [c];
    forall s: nat | s in dom && s !in f.order[k..j + 1]
      ensures HasReceived(f, hot, init, s, k, j + 1, HotAt(curr', s), FrameAt(acc', s))
    {
      assert IsPassedTo(succs, hot, init, dom, c, curr, acc, curr', acc', s);
      assert HasReceived(f, hot, init, s, k, j, HotAt(curr, s), FrameAt(acc, s));
      ReceivedStep(f, succs, hot, init, dom, k, j, s, curr, acc, curr', acc');
    }
    forall s: nat | s == b || s in f.order[k..j + 1]
      ensures HotAt(curr', s) == HotAt(hot, s) && FrameAt(acc', s) == Restrict(init, HotAt(hot, s))
    {
      assert IsPassedTo(succs, hot, init, dom, c, curr, acc, curr', acc', s);
      NotPassedBack(f, succs, paths, hot, b, k, dom, j, s);
    }
  }

  lemma NotPassedBack(f: FlowGraph, succs: Successors, paths: seq<seq<nat>>, hot: HotPathSet, b: nat, k: nat,
                      dom: set<nat>, j: nat, s: nat)
    requires IsSetting(f, succs, paths, hot, b, k, dom) && k <= j < |f.order| &&
      (s == b || s in f.order[k..j] || s == f.order[j])
    ensures !(s in dom && s in SuccsOf(succs, f.order[j]))
  {
    if s in SuccsOf(succs, f.order[j]) {
      SuccIsLater(f, succs, k, j, s);
    }
  }

  lemma PropagationStarts(f: FlowGraph, hot: HotPathSet, phi: PhiNode, init: Frame, b: nat, k: nat, dom: set<nat>)
    requires k < |f.order| && f.order[k] == b && b !in dom && IsInitialFrame(hot, phi, b, init)
    ensures Propagated(f, hot, init, b, dom, k, k, map[b := HotAt(hot, b)], map[b := init])
  {
    forall d | d in init
      ensures init[d] * HotAt(hot, b) == init[d]
    {
      assert forall x :: x in PathsOf(init, d) ==> x in HotAt(hot, b);
    }
    assert Restrict(init, HotAt(hot, b)) == init;
    forall c: nat | c in dom && c !in f.order[k..k]
      ensures HasReceived(f, hot, init, c, k, k, HotAt(map[b := HotAt(hot, b)], c), FrameAt(map[b := init], c))
    {
      assert Restrict(init, {}) == map[];
    }
  }

  /** The blocks from the k-th to before the end-th hold the part of the initial frame their hot paths carry, and
      the caloric ones among them have a tau with the definitions in it. */
  ghost predicate TausAreFrames(f: FlowGraph, hot: HotPathSet, caloric: set<nat>, init: Frame, k: nat, end: nat,
                                acc: FrameMap, taus: map<nat, set<nat>>)
    requires k <= end <= |f.order|
  {
    (forall c | c in f.order[k..end] :: FrameAt(acc, c) == Restrict(init, HotAt(hot, c))) &&
      TausUpTo(f, hot, caloric, init, k, end, taus)
  }

  ghost predicate TausUpTo(f: FlowGraph, hot: HotPathSet, caloric: set<nat>, init: Frame, k: nat, end: nat,
                           taus: map<nat, set<nat>>)
    requires k <= end <= |f.order|
  {
    && (forall c :: c in taus <==> c in f.order[k..end] && c in caloric && Restrict(init, HotAt(hot, c)) != map[])
    && (forall c | c in taus :: taus[c] == Restrict(init, HotAt(hot, c)).Keys)
  }

  /** Some hot path through the phi's block and through c came from an incoming block of d. */
  ghost predicate ReachesWith(hot: HotPathSet, phi: PhiNode, b: nat, c: nat, d: nat) {
    exists x, i | 0 <= i < |phi.args| :: GoesThrough(hot, phi.args[i], b, c, d, x)
  }

  predicate GoesThrough(hot: HotPathSet, arg: Arg, b: nat, c: nat, d: nat, x: nat) {
    arg.def == d && x in HotAt(hot, arg.from) && x in HotAt(hot, b) && x in HotAt(hot, c)
  }

  /** The caloric blocks visited that some definition reaches have a tau, with exactly the definitions that reach
      them. */
  lemma TausAreReached(f: FlowGraph, hot: HotPathSet, caloric: set<nat>, phi: PhiNode, b: nat, init: Frame, k: nat,
                       end: nat, acc: FrameMap, taus: map<nat, set<nat>>, c: nat, d: nat)
    requires k <= end <= |f.order| && IsInitialFrame(hot, phi, b, init)
    requires TausAreFrames(f, hot, caloric, init, k, end, acc, taus) && c in f.order[k..end]
    ensures c in taus <==> c in caloric && exists e :: ReachesWith(hot, phi, b, c, e)
    ensures c in taus ==> (d in taus[c] <==> ReachesWith(hot, phi, b, c, d))
  {
    forall e: nat
      ensures e in Restrict(init, HotAt(hot, c)) <==> ReachesWith(hot, phi, b, c, e)
    {
      RestrictKeeps(init, HotAt(hot, c), e);
      hide Restrict;
      if x: nat :| x in PathsOf(init, e) && x in HotAt(hot, c) {
        assert x in HotAt(hot, b) && Carries(hot, phi, e, x, |phi.args|);
        var i :| 0 <= i < |phi.args| && phi.args[i].def == e && x in HotAt(hot, phi.args[i].from);
        assert GoesThrough(hot, phi.args[i], b, c, e, x);
      }
      if x, i :| 0 <= i < |phi.args| && GoesThrough(hot, phi.args[i], b, c, e, x) {
        assert Carries(hot, phi, e, x, |phi.args|);
        assert x in PathsOf(init, e);
      }
    }
    hide Restrict, ReachesWith;
    if Restrict(init, HotAt(hot, c)) != map[] {
      var e :| e in Restrict(init, HotAt(hot, c));
    }
  }

  /** Carries the frame of a phi along hot paths until a block is met that the phi's block does not dominate. */
  method PropagateFrame(f: FlowGraph, succs: Successors, hot: HotPathSet, phi: PhiNode, b: nat, k: nat, dom: set<nat>,
                        caloric: set<nat>, ghost paths: seq<seq<nat>>)
    returns (acc: FrameMap, taus: map<nat, set<nat>>, end: nat, ghost init: Frame)
    requires IsSetting(f, succs, paths, hot, b, k, dom) && MatchesPreds(f, phi, b)
    ensures k <= end <= |f.order| && IsInitialFrame(hot, phi, b, init)
    ensures TausAreFrames(f, hot, caloric, init, k, end, acc, taus)
    ensures HotAt(hot, b) == {} ==> init == map[]
    ensures HotAt(hot, b) != {} && end < |f.order| ==> f.order[end] != b && f.order[end] !in dom
  {
    hide IsSetting, MatchesPreds, Propagated, IsInitialFrame, IsPassed, TausUpTo, Restrict;
    var first := InitialFrameByPreds(f, hot, phi, b);
    init, taus, end := first, map[], k;
    SettingFacts(f, succs, paths, hot, b, k, dom, phi, init);
    NoTaus(f, hot, caloric, init, k);
    if HotAt(hot, b) == {} {
      acc := map[];
      return;
    }
    acc := map[b := first];
    var curr: HotPathSet := map[b := HotAt(hot, b)];
    PropagationStarts(f, hot, phi, init, b, k, dom);
    while end < |f.order|
      invariant k <= end <= |f.order| && Propagated(f, hot, init, b, dom, k, end, curr, acc)
      invariant TausUpTo(f, hot, caloric, init, k, end, taus)
    {
      var c := f.order[end];
      if c != b && c !in dom {
        break;
      }
      VisitedOk(f, succs, paths, hot, init, b, k, dom, end, curr, acc);
      NotYet(f, succs, paths, hot, b, k, dom, end);
      NextTau(f, hot, caloric, init, k, end, taus);
      if c in caloric && |FrameAt(acc, c)| != 0 {
        taus := taus[c := FrameAt(acc, c).Keys];
      }
      ghost var curr0, acc0 := curr, acc;
      SuccFrames(f, succs, paths, hot, init, b, k, dom, end, curr, acc);
      curr, acc := PassToSuccs(f, succs, hot, dom, c, curr, acc, init);
      PropagatedStep(f, succs, paths, hot, init, b, k, dom, end, curr0, acc0, curr, acc);
      end := end + 1;
    }
    PropagatedEnds(f, hot, init, b, dom, k, end, curr, acc);
  }

  lemma SettingFacts(f: FlowGraph, succs: Successors, paths: seq<seq<nat>>, hot: HotPathSet, b: nat, k: nat,
                     dom: set<nat>, phi: PhiNode, init: Frame)
    requires IsSetting(f, succs, paths, hot, b, k, dom) && IsInitialFrame(hot, phi, b, init)
    ensures k < |f.order| && f.order[k] == b && b !in dom && IsTidy(init)
    ensures HotAt(hot, b) == {} ==> init == map[]
  {
    forall d | d in init
      ensures init[d] <= HotAt(hot, b)
    {
      assert forall x | x in init[d] :: x in PathsOf(init, d);
    }
    if HotAt(hot, b) == {} {
      assert init.Keys == {};
    }
  }

  lemma NoTaus(f: FlowGraph, hot: HotPathSet, caloric: set<nat>, init: Frame, k: nat)
    requires k < |f.order|
    ensures TausUpTo(f, hot, caloric, init, k, k, map[])
  {
  }

  lemma NextTau(f: FlowGraph, hot: HotPathSet, caloric: set<nat>, init: Frame, k: nat, j: nat, taus: map<nat, set<nat>>)
    requires k <= j < |f.order| && f.order[j] !in f.order[k..j] && TausUpTo(f, hot, caloric, init, k, j, taus)
    ensures var c := f.order[j]; var fr := Restrict(init, HotAt(hot, c));
      TausUpTo(f, hot, caloric, init, k, j + 1, if c in caloric && |fr| != 0 then taus[c := fr.Keys] else taus)
  {
    assert f.order[k..j + 1] == f.order[k..j] + [f.order[j]];
  }

  lemma NotYet(f: FlowGraph, succs: Successors, paths: seq<seq<nat>>, hot: HotPathSet, b: nat, k: nat, dom: set<nat>,
               j: nat)
    requires IsSetting(f, succs, paths, hot, b, k, dom) && k <= j < |f.order|
    ensures f.order[j] !in f.order[k..j]
  {
  }

  lemma SuccFrames(f: FlowGraph, succs: Successors, paths: seq<seq<nat>>, hot: HotPathSet, init: Frame, b: nat, k: nat,
                   dom: set<nat>, j: nat, curr: HotPathSet, acc: FrameMap)
    requires IsSetting(f, succs, paths, hot, b, k, dom) && k <= j < |f.order| &&
      Propagated(f, hot, init, b, dom, k, j, curr, acc)
    ensures f.order[j] !in SuccsOf(succs, f.order[j])
    ensures forall s | s in dom && s in SuccsOf(succs, f.order[j]) :: FrameAt(acc, s) == Restrict(init, HotAt(curr, s))
  {
    var c := f.order[j];
    if c in SuccsOf(succs, c) {
      SuccIsLater(f, succs, k, j, c);
    }
    forall s: nat | s in dom && s in SuccsOf(succs, c)
      ensures FrameAt(acc, s) == Restrict(init, HotAt(curr, s))
    {
      SuccIsLater(f, succs, k, j, s);
      assert HasReceived(f, hot, init, s, k, j, HotAt(curr, s), FrameAt(acc, s));
    }
  }

  lemma PropagatedEnds(f: FlowGraph, hot: HotPathSet, init: Frame, b: nat, dom: set<nat>, k: nat, end: nat,
                       curr: HotPathSet, acc: FrameMap)
    requires k <= end <= |f.order| && Propagated(f, hot, init, b, dom, k, end, curr, acc)
    ensures forall c | c in f.order[k..end] :: FrameAt(acc, c) == Restrict(init, HotAt(hot, c))
  {
  }
}
