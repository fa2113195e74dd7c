/** HPSSAPass::Search (src/HPSSA.cpp, src/HPSSA_new.cpp): renaming over the dominator tree. */
module Renaming {
  import opened TauForm
  import opened RenamingState
  import opened DominatorTree
  import opened PhiOperands

  // ----- what is left of a body not walked yet -----

  ghost predicate InBlocks(plan: Plan, blocks: set<nat>, v: nat) {
    exists c :: c in blocks && v in ListOf(plan.p1, c)
  }

  /** Not met: a phi may have had operands renamed, anything else is as it was inserted. */
  ghost predicate IsFresh(plan: Plan, w: Walk, v: nat) {
    && v in plan.p1.insts && v in w.body.insts && v !in w.dep && w.body.insts[v].kind == plan.p1.insts[v].kind
    && if IsPhi(plan.p1, v) then v !in w.stacks else w.body.insts[v] == plan.p1.insts[v]
  }

  ghost predicate BlockFresh(plan: Plan, w: Walk, b: nat) {
    && ListOf(w.body, b) == ListOf(plan.p1, b) && (forall v | v in ListOf(plan.p1, b) :: IsFresh(plan, w, v))
    && forall phi :: (b, phi) !in w.hasTau
  }

  ghost predicate AllFresh(plan: Plan, w: Walk, blocks: set<nat>) {
    forall b | b in blocks :: BlockFresh(plan, w, b)
  }

  /** Between w and w' only these blocks were walked: elsewhere only operands of phis have changed. */
  ghost predicate Touches(plan: Plan, w: Walk, w': Walk, blocks: set<nat>) {
    && w.stacks.Keys <= w'.stacks.Keys
    && (forall v | !InBlocks(plan, blocks, v) :: InstTouched(plan, w, w', v))
    && (forall c | c !in blocks :: ListTouched(w, w', c))
  }

  ghost predicate InstTouched(plan: Plan, w: Walk, w': Walk, v: nat) {
    && (v in w.body.insts <==> v in w'.body.insts) && (v in w.stacks <==> v in w'.stacks) &&
         (v in w.dep <==> v in w'.dep)
    && (v in w.body.insts ==> w'.body.insts[v].kind == w.body.insts[v].kind)
    && (v in w.body.insts && !IsPhi(plan.p1, v) ==> w'.body.insts[v] == w.body.insts[v])
  }

  ghost predicate ListTouched(w: Walk, w': Walk, c: nat) {
    ListOf(w'.body, c) == ListOf(w.body, c) && forall phi :: (c, phi) in w'.hasTau <==> (c, phi) in w.hasTau
  }

  lemma TouchesMore(plan: Plan, w: Walk, w1: Walk, w2: Walk, b1: set<nat>, b2: set<nat>, all: set<nat>)
    requires Touches(plan, w, w1, b1) && Touches(plan, w1, w2, b2) && b1 + b2 <= all
    ensures Touches(plan, w, w2, all)
  {
    forall v | !InBlocks(plan, all, v)
      ensures InstTouched(plan, w, w2, v)
    {
      assert !InBlocks(plan, b1, v) && !InBlocks(plan, b2, v);
      assert InstTouched(plan, w, w1, v) && InstTouched(plan, w1, w2, v);
    }
    forall c | c !in all
      ensures ListTouched(w, w2, c)
    {
      assert ListTouched(w, w1, c) && ListTouched(w1, w2, c);
    }
  }

  lemma TouchesSelf(plan: Plan, w: Walk, blocks: set<nat>)
    ensures Touches(plan, w, w, blocks)
  {
  }

  lemma FreshStays(plan: Plan, w: Walk, w': Walk, walked: set<nat>, blocks: set<nat>)
    requires IsInserted(plan) && Touches(plan, w, w', walked) && AllFresh(plan, w, blocks) && walked !! blocks
    ensures AllFresh(plan, w', blocks)
  {
    forall b | b in blocks
      ensures BlockFresh(plan, w', b)
    {
      assert BlockFresh(plan, w, b) && ListTouched(w, w', b);
      forall v | v in ListOf(plan.p1, b)
        ensures IsFresh(plan, w', v)
      {
        NotInOthers(plan, walked, b, v);
        assert IsFresh(plan, w, v) && InstTouched(plan, w, w', v);
      }
    }
  }

  lemma NotInOthers(plan: Plan, walked: set<nat>, b: nat, v: nat)
    requires IsInserted(plan) && v in ListOf(plan.p1, b) && b !in walked
    ensures !InBlocks(plan, walked, v)
  {
  }

  // ----- names of operands -----

  function NamesOf(tauOf: map<nat, nat>, met: seq<nat>, ops: seq<nat>): (r: seq<nat>)
    ensures |r| == |ops|
  {
    seq(|ops|, k requires 0 <= k < |ops| => NameOf(tauOf, met, ops[k]))
  }

  /** Every operand of the instruction is the latest tau met for it. Only a tau may have been erased. */
  ghost predicate IsNamed(plan: Plan, body: Body, met: seq<nat>, v: nat) {
    && v in plan.p1.insts && (Rank(plan.p1, v) == 2 ==> v in body.insts)
    && (v in body.insts ==>
          body.insts[v] == plan.p1.insts[v].(ops := NamesOf(plan.tauOf, met, plan.p1.insts[v].ops)))
  }

  /** The taus and other instructions of a block that are no phis use the taus met on the way to the block and in it,
      before themselves. */
  ghost predicate BlockNamed(plan: Plan, body: Body, b: nat, met: seq<nat>) {
    var list := ListOf(plan.p1, b);
    forall n | 0 <= n < |list| && Rank(plan.p1, list[n]) >= 1 :: IsNamed(plan, body, met + list[..n], list[n])
  }

  /** In every block of the tree; met are the instructions of the blocks that dominate it. */
  ghost predicate AllNamed(plan: Plan, t: DomTree, met: seq<nat>, body: Body) {
    BlockNamed(plan, body, t.block, met) &&
      forall i | 0 <= i < |t.children| :: AllNamed(plan, t.children[i], met + ListOf(plan.p1, t.block), body)
  }

  /** In these blocks nothing but phis has changed, apart from taus erased. */
  ghost predicate SameOthers(plan: Plan, body: Body, body': Body, blocks: set<nat>) {
    forall v | InBlocks(plan, blocks, v) && Rank(plan.p1, v) >= 1 :: SameOrErased(plan, body, body', v)
  }

  ghost predicate SameOrErased(plan: Plan, body: Body, body': Body, v: nat) {
    && (v in body.insts && Rank(plan.p1, v) == 2 ==> v in body'.insts)
    && (v in body'.insts ==> v in body.insts && body'.insts[v] == body.insts[v])
  }

  lemma {:induction false} NamedStays(plan: Plan, t: DomTree, met: seq<nat>, body: Body, body': Body, blocks: set<nat>)
    requires AllNamed(plan, t, met, body) && SameOthers(plan, body, body', blocks) && BlocksOf(t) <= blocks
    ensures AllNamed(plan, t, met, body')
  {
    var list := ListOf(plan.p1, t.block);
    forall n | 0 <= n < |list| && Rank(plan.p1, list[n]) >= 1
      ensures IsNamed(plan, body', met + list[..n], list[n])
    {
      assert t.block in BlocksOf(t) && list[n] in list;
      assert InBlocks(plan, blocks, list[n]);
      assert SameOrErased(plan, body, body', list[n]);
    }
    forall i | 0 <= i < |t.children|
      ensures AllNamed(plan, t.children[i], met + ListOf(plan.p1, t.block), body')
    {
      assert forall b | b in BlocksOf(t.children[i]) :: b in BlocksOf(t);
      NamedStays(plan, t.children[i], met + ListOf(plan.p1, t.block), body, body', blocks);
    }
  }

  lemma TouchedKeepsOthers(plan: Plan, w: Walk, w': Walk, walked: set<nat>, blocks: set<nat>)
    requires IsInserted(plan) && Touches(plan, w, w', walked) && walked !! blocks
    ensures SameOthers(plan, w.body, w'.body, blocks)
  {
    forall v | InBlocks(plan, blocks, v) && Rank(plan.p1, v) >= 1
      ensures SameOrErased(plan, w.body, w'.body, v)
    {
      var c :| c in blocks && v in ListOf(plan.p1, c);
      NotInOthers(plan, walked, c, v);
      assert InstTouched(plan, w, w', v);
    }
  }

  // ----- what dominance gives -----

  ghost function PhisOf(plan: Plan, b: nat): set<nat> {
    set v | v in ListOf(plan.p1, b) && IsPhi(plan.p1, v)
  }

  /** A tau stands below its phi, and a phi that is an incoming value dominates the block it comes from. */
  ghost predicate IsDominated(plan: Plan, t: DomTree, above: set<nat>) {
    && DominatedIn(plan, t.block, above + PhisOf(plan, t.block))
    && forall i | 0 <= i < |t.children| :: IsDominated(plan, t.children[i], above + PhisOf(plan, t.block))
  }

  ghost predicate DominatedIn(plan: Plan, b: nat, here: set<nat>) {
    && (forall v | v in ListOf(plan.p1, b) && v in plan.tauOf :: plan.tauOf[v] in here)
    && (forall v, k | IsPhi(plan.p0, v) && 0 <= k < |plan.p0.insts[v].ops| && k < |plan.p0.insts[v].kind.from| &&
         plan.p0.insts[v].kind.from[k] == b && IsPhi(plan.p0, plan.p0.insts[v].ops[k]) ::
          plan.p0.insts[v].ops[k] in here)
  }

  // ----- meeting one instruction -----

  ghost function Visited(w: Walk, b: nat, v: nat): Walk
    requires v in w.body.insts
  {
    var ops := Renamed(w.stacks, w.body.insts[v].ops);
    match w.body.insts[v].kind
    case Phi(from) => MeetPhi(w.(body := WithOps(w.body, v, ops)), v)
    case Tau => if ops != [] && ops[0] in w.stackmap then MeetTau(w, b, v, w.stackmap[ops[0]], ops) else w
    case Other => w.(body := WithOps(w.body, v, ops))
  }

  lemma InsertedKinds(plan: Plan, v: nat)
    requires IsInserted(plan) && v in plan.p1.insts
    ensures if v in plan.tauOf then plan.p1.insts[v].kind == Tau && v !in plan.p0.insts && IsPhi(plan.p0, plan.tauOf[v])
            else v in plan.p0.insts && plan.p1.insts[v].kind == plan.p0.insts[v].kind && plan.p1.insts[v].kind != Tau
  {
    assert InstOk(plan.p0, plan.p1, plan.tauOf, v);
  }

  lemma VisitedGood(plan: Plan, w: Walk, b: nat, v: nat)
    requires IsInserted(plan) && Good(plan, w) && IsFresh(plan, w, v) && (v in plan.tauOf ==> plan.tauOf[v] in w.stacks)
    ensures Good(plan, Visited(w, b, v))
    ensures v in plan.tauOf ==>
      Visited(w, b, v) == MeetTau(w, b, v, plan.tauOf[v], Renamed(w.stacks, w.body.insts[v].ops))
  {
    InsertedKinds(plan, v);
    var ops := Renamed(w.stacks, w.body.insts[v].ops);
    hide IsInserted, Good;
    if v in plan.tauOf {
      MeetTauGood(plan, w, b, v, ops);
    } else {
      RenamedHasSameRoots(plan, w, v);
      OpsRenamed(plan, w, v, ops);
      if w.body.insts[v].kind.Phi? {
        MeetPhiGood(plan, w.(body := WithOps(w.body, v, ops)), v);
      }
    }
  }

  lemma VisitedStacks(plan: Plan, w: Walk, b: nat, v: nat, met: seq<nat>)
    requires IsInserted(plan) && Good(plan, w) && IsFresh(plan, w, v) && (v in plan.tauOf ==> plan.tauOf[v] in w.stacks)
    requires StacksAre(plan.tauOf, w.stacks, met)
    ensures StacksAre(plan.tauOf, Visited(w, b, v).stacks, met + [v])
  {
    InsertedKinds(plan, v);
    VisitedGood(plan, w, b, v);
    hide IsInserted, Good, StacksAre;
    if v in plan.tauOf {
      MetTau(plan.tauOf, w.stacks, met, v);
    } else if w.body.insts[v].kind.Phi? {
      MetPhi(plan.tauOf, w.stacks, met, v);
    } else {
      MetOther(plan.tauOf, w.stacks, met, v);
    }
  }

  /** Meeting v leaves every other instruction alone. */
  lemma VisitedElsewhere(plan: Plan, w: Walk, b: nat, v: nat, u: nat)
    requires v in w.body.insts && u != v &&
      (w.body.insts[v].kind == Tau ==>
        Renamed(w.stacks, w.body.insts[v].ops) != [] && Renamed(w.stacks, w.body.insts[v].ops)[0] in w.stackmap)
    requires w.body.insts[v].kind == Tau ==> w.stackmap[Renamed(w.stacks, w.body.insts[v].ops)[0]] in w.stacks
    ensures InstTouched(plan, w, Visited(w, b, v), u) &&
      (u in w.body.insts ==> Visited(w, b, v).body.insts[u] == w.body.insts[u])
  {
  }

  lemma TauOperandMapped(plan: Plan, w: Walk, b: nat, v: nat)
    requires IsInserted(plan) && Good(plan, w) && IsFresh(plan, w, v) && (v in plan.tauOf ==> plan.tauOf[v] in w.stacks)
    ensures w.body.insts[v].kind == Tau ==>
      var ops := Renamed(w.stacks, w.body.insts[v].ops);
        ops != [] && ops[0] in w.stackmap && w.stackmap[ops[0]] in w.stacks
  {
    InsertedKinds(plan, v);
    if v in plan.tauOf {
      MeetTauGood(plan, w, b, v, Renamed(w.stacks, w.body.insts[v].ops));
    }
  }

  lemma VisitedTouches(plan: Plan, w: Walk, b: nat, v: nat)
    requires IsInserted(plan) && Good(plan, w) && IsFresh(plan, w, v) &&
      (v in plan.tauOf ==> plan.tauOf[v] in w.stacks) && v in ListOf(plan.p1, b)
    ensures Touches(plan, w, Visited(w, b, v), {b})
    ensures Visited(w, b, v).body.lists == w.body.lists
    ensures forall u: nat | u != v ::
      InstTouched(plan, w, Visited(w, b, v), u) &&
      (u in w.body.insts ==> Visited(w, b, v).body.insts[u] == w.body.insts[u])
  {
    TauOperandMapped(plan, w, b, v);
    var w' := Visited(w, b, v);
    VisitedRest(w, b, v);
    InBlock(plan, b, v);
    hide IsInserted, Good, InstTouched, Visited, Renamed, InBlocks, IsFresh;
    forall u: nat | u != v
      ensures InstTouched(plan, w, w', u) && (u in w.body.insts ==> w'.body.insts[u] == w.body.insts[u])
    {
      VisitedElsewhere(plan, w, b, v, u);
    }
  }

  lemma InBlock(plan: Plan, b: nat, v: nat)
    requires v in ListOf(plan.p1, b)
    ensures InBlocks(plan, {b}, v)
  {
  }

  lemma VisitedRest(w: Walk, b: nat, v: nat)
    requires v in w.body.insts
    ensures Visited(w, b, v).body.lists == w.body.lists && w.stacks.Keys <= Visited(w, b, v).stacks.Keys
    ensures forall c | c !in {b} :: ListTouched(w, Visited(w, b, v), c)
  {
    hide Renamed;
  }

  // ----- meeting the instructions of a block -----

  ghost predicate HasTauIs(plan: Plan, w: Walk, b: nat, met: seq<nat>) {
    forall phi: nat :: (b, phi) in w.hasTau <==> TausFor(plan.tauOf, met, phi) != []
  }

  /** The first n instructions have been met. */
  ghost predicate Visiting(plan: Plan, w0: Walk, w: Walk, b: nat, met: seq<nat>, above: set<nat>, n: nat)
    requires n <= |ListOf(plan.p1, b)|
  {
    var list := ListOf(plan.p1, b);
    && Good(plan, w) && StacksAre(plan.tauOf, w.stacks, met + list[..n]) && Touches(plan, w0, w, {b}) &&
         ListOf(w.body, b) == list
    && above <= w.stacks.Keys && HasTauIs(plan, w, b, list[..n])
    && (forall m | n <= m < |list| :: IsFresh(plan, w, list[m]))
    && (forall m | 0 <= m < n && IsPhi(plan.p1, list[m]) :: list[m] in w.stacks)
    && (forall m | 0 <= m < n && Rank(plan.p1, list[m]) >= 1 :: IsNamed(plan, w.body, met + list[..m], list[m]))
  }

  lemma VisitStarts(plan: Plan, w: Walk, b: nat, met: seq<nat>, above: set<nat>)
    requires Good(plan, w) && StacksAre(plan.tauOf, w.stacks, met) && BlockFresh(plan, w, b) && above <= w.stacks.Keys
    ensures Visiting(plan, w, w, b, met, above, 0)
  {
    var list := ListOf(plan.p1, b);
    assert met + list[..0] == met;
    TouchesSelf(plan, w, {b});
    hide Good, StacksAre, Touches, IsFresh;
    forall m | 0 <= m < |list|
      ensures IsFresh(plan, w, list[m])
    {
      assert list[m] in list;
    }
  }

  /** The phi of the next tau has been met. */
  lemma TauPhiMet(plan: Plan, w0: Walk, w: Walk, b: nat, met: seq<nat>, above: set<nat>, n: nat)
    requires IsInserted(plan) && n < |ListOf(plan.p1, b)| && Visiting(plan, w0, w, b, met, above, n)
    requires DominatedIn(plan, b, above + PhisOf(plan, b))
    ensures ListOf(plan.p1, b)[n] in plan.tauOf ==> plan.tauOf[ListOf(plan.p1, b)[n]] in w.stacks
  {
    var list := ListOf(plan.p1, b);
    var v := list[n];
    assert v in list;
    if v in plan.tauOf {
      var phi := plan.tauOf[v];
      assert IsFresh(plan, w, v);
      InsertedKinds(plan, v);
      if phi !in above {
        assert phi in PhisOf(plan, b);
        var m :| 0 <= m < |list| && list[m] == phi;
        RankOrder(plan, b, m, n);
      }
    }
  }

  lemma RankOrder(plan: Plan, b: nat, m: nat, n: nat)
    requires IsInserted(plan) && m < |ListOf(plan.p1, b)| && n < |ListOf(plan.p1, b)|
    requires Rank(plan.p1, ListOf(plan.p1, b)[m]) < Rank(plan.p1, ListOf(plan.p1, b)[n])
    ensures m < n
  {
  }

  lemma {:induction false} NoTausNone(tauOf: map<nat, nat>, met: seq<nat>, phi: nat)
    requires forall v | v in met :: v !in tauOf
    ensures TausFor(tauOf, met, phi) == []
  {
    if met != [] {
      assert met == met[..|met| - 1] + [met[|met| - 1]];
      NoTausNone(tauOf, met[..|met| - 1], phi);
    }
  }

  /** A tau or another instruction that is no phi gets the names of its operands. */
  lemma VisitedNamed(plan: Plan, w: Walk, b: nat, v: nat, met: seq<nat>)
    requires IsInserted(plan) && Good(plan, w) && Rank(plan.p1, v) >= 1 && IsFresh(plan, w, v)
    requires v in plan.tauOf ==> plan.tauOf[v] in w.stacks
    requires StacksAre(plan.tauOf, w.stacks, met)
    ensures IsNamed(plan, Visited(w, b, v).body, met, v)
  {
    var ops := plan.p1.insts[v].ops;
    InsertedKinds(plan, v);
    VisitedGood(plan, w, b, v);
    hide IsInserted, StacksAre, Good;
    forall k | 0 <= k < |ops|
      ensures Renamed(w.stacks, ops)[k] == NamesOf(plan.tauOf, met, ops)[k]
    {
      TopIsName(plan.tauOf, w.stacks, met, ops[k]);
    }
    assert Renamed(w.stacks, ops) == NamesOf(plan.tauOf, met, ops);
  }

  lemma VisitedHasTau(plan: Plan, w: Walk, b: nat, v: nat, met: seq<nat>)
    requires IsInserted(plan) && Good(plan, w) && IsFresh(plan, w, v) && (v in plan.tauOf ==> plan.tauOf[v] in w.stacks)
    requires HasTauIs(plan, w, b, met)
    ensures HasTauIs(plan, Visited(w, b, v), b, met + [v])
  {
    VisitedHasTauSet(plan, w, b, v);
    hide IsInserted, Good, Renamed, Visited, IsFresh, TausFor;
    var w' := Visited(w, b, v);
    forall phi: nat
      ensures (b, phi) in w'.hasTau <==> TausFor(plan.tauOf, met + [v], phi) != []
    {
      TausForStep(plan.tauOf, met, v, phi);
      assert (b, phi) in w.hasTau <==> TausFor(plan.tauOf, met, phi) != [];
    }
  }

  lemma VisitedHasTauSet(plan: Plan, w: Walk, b: nat, v: nat)
    requires IsInserted(plan) && Good(plan, w) && IsFresh(plan, w, v) && (v in plan.tauOf ==> plan.tauOf[v] in w.stacks)
    ensures Visited(w, b, v).hasTau == if v in plan.tauOf then w.hasTau + {(b, plan.tauOf[v])} else w.hasTau
  {
    hide IsInserted, Good, Renamed, WithOps, StackOf;
    InsertedKinds(plan, v);
    VisitedGood(plan, w, b, v);
  }

  lemma VisitStep(plan: Plan, w0: Walk, w: Walk, b: nat, met: seq<nat>, above: set<nat>, n: nat)
    requires IsInserted(plan) && n < |ListOf(plan.p1, b)| && Visiting(plan, w0, w, b, met, above, n)
    requires DominatedIn(plan, b, above + PhisOf(plan, b))
    ensures ListOf(plan.p1, b)[n] in w.body.insts &&
      Visiting(plan, w0, Visited(w, b, ListOf(plan.p1, b)[n]), b, met, above, n + 1)
  {
    var list := ListOf(plan.p1, b);
    var v := list[n];
    assert IsFresh(plan, w, v);
    var w' := Visited(w, b, v);
    TauPhiMet(plan, w0, w, b, met, above, n);
    hide Good, StacksAre, Touches, HasTauIs, Visited, IsNamed, IsInserted, IsFresh;
    VisitedGood(plan, w, b, v);
    VisitedStacks(plan, w, b, v, met + list[..n]);
    VisitedHasTau(plan, w, b, v, list[..n]);
    VisitedTouches(plan, w, b, v);
    TouchesMore(plan, w0, w, w', {b}, {b}, {b});
    PhisMetSoFar(plan, w0, w, b, met, above, n);
    RestFresh(plan, w0, w, b, met, above, n);
    AllNamedSoFar(plan, w0, w, b, met, above, n);
    hide ListOf, Rank, IsPhi;
    VisitAssembled(plan, w0, w', b, met, above, n);
  }

  lemma VisitAssembled(plan: Plan, w0: Walk, w: Walk, b: nat, met: seq<nat>, above: set<nat>, n: nat)
    requires n < |ListOf(plan.p1, b)| && Good(plan, w) && Touches(plan, w0, w, {b}) &&
      ListOf(w.body, b) == ListOf(plan.p1, b) && above <= w.stacks.Keys
    requires StacksAre(plan.tauOf, w.stacks, met + ListOf(plan.p1, b)[..n] + [ListOf(plan.p1, b)[n]])
    requires HasTauIs(plan, w, b, ListOf(plan.p1, b)[..n] + [ListOf(plan.p1, b)[n]])
    requires forall m | n < m < |ListOf(plan.p1, b)| :: IsFresh(plan, w, ListOf(plan.p1, b)[m])
    requires forall m | 0 <= m <= n && IsPhi(plan.p1, ListOf(plan.p1, b)[m]) :: ListOf(plan.p1, b)[m] in w.stacks
    requires forall m | 0 <= m <= n && Rank(plan.p1, ListOf(plan.p1, b)[m]) >= 1 ::
      IsNamed(plan, w.body, met + ListOf(plan.p1, b)[..m], ListOf(plan.p1, b)[m])
    ensures Visiting(plan, w0, w, b, met, above, n + 1)
  {
    hide Good, StacksAre, Touches, HasTauIs, IsNamed, IsFresh, ListOf, Rank, IsPhi;
    var list := ListOf(plan.p1, b);
    assert list[..n + 1] == list[..n] + [list[n]];
    assert met + list[..n + 1] == met + list[..n] + [list[n]];
  }

  lemma PhisMetSoFar(plan: Plan, w0: Walk, w: Walk, b: nat, met: seq<nat>, above: set<nat>, n: nat)
    requires n < |ListOf(plan.p1, b)| && Visiting(plan, w0, w, b, met, above, n)
    ensures ListOf(plan.p1, b)[n] in w.body.insts
    ensures forall m | 0 <= m <= n && IsPhi(plan.p1, ListOf(plan.p1, b)[m]) ::
      ListOf(plan.p1, b)[m] in Visited(w, b, ListOf(plan.p1, b)[n]).stacks
    ensures above <= Visited(w, b, ListOf(plan.p1, b)[n]).stacks.Keys &&
      ListOf(Visited(w, b, ListOf(plan.p1, b)[n]).body, b) == ListOf(plan.p1, b)
  {
    hide Good, StacksAre, Touches, HasTauIs, Visited, IsNamed;
    assert IsFresh(plan, w, ListOf(plan.p1, b)[n]);
    VisitedPhi(plan, w, b, ListOf(plan.p1, b)[n]);
    VisitedRest(w, b, ListOf(plan.p1, b)[n]);
  }

  lemma RestFresh(plan: Plan, w0: Walk, w: Walk, b: nat, met: seq<nat>, above: set<nat>, n: nat)
    requires IsInserted(plan) && n < |ListOf(plan.p1, b)| && Visiting(plan, w0, w, b, met, above, n)
    requires ListOf(plan.p1, b)[n] in plan.tauOf ==> plan.tauOf[ListOf(plan.p1, b)[n]] in w.stacks
    ensures ListOf(plan.p1, b)[n] in w.body.insts
    ensures forall m | n < m < |ListOf(plan.p1, b)| ::
      IsFresh(plan, Visited(w, b, ListOf(plan.p1, b)[n]), ListOf(plan.p1, b)[m])
  {
    var list := ListOf(plan.p1, b);
    assert IsFresh(plan, w, list[n]);
    hide Good, StacksAre, Touches, HasTauIs, Visited, IsNamed, IsInserted, IsFresh, InstTouched;
    VisitedTouches(plan, w, b, list[n]);
    var w' := Visited(w, b, list[n]);
    forall m | n < m < |list|
      ensures IsFresh(plan, w', list[m])
    {
      Distinct(plan, b, m, n);
      KeptFresh(plan, w, w', list[m]);
    }
  }

  lemma KeptFresh(plan: Plan, w: Walk, w': Walk, v: nat)
    requires IsFresh(plan, w, v) && InstTouched(plan, w, w', v)
    ensures IsFresh(plan, w', v)
  {
  }

  lemma AllNamedSoFar(plan: Plan, w0: Walk, w: Walk, b: nat, met: seq<nat>, above: set<nat>, n: nat)
    requires IsInserted(plan) && n < |ListOf(plan.p1, b)| && Visiting(plan, w0, w, b, met, above, n)
    requires ListOf(plan.p1, b)[n] in plan.tauOf ==> plan.tauOf[ListOf(plan.p1, b)[n]] in w.stacks
    ensures ListOf(plan.p1, b)[n] in w.body.insts
    ensures forall m | 0 <= m <= n && Rank(plan.p1, ListOf(plan.p1, b)[m]) >= 1 ::
      IsNamed(plan, Visited(w, b, ListOf(plan.p1, b)[n]).body, met + ListOf(plan.p1, b)[..m], ListOf(plan.p1, b)[m])
  {
    var list := ListOf(plan.p1, b);
    assert IsFresh(plan, w, list[n]);
    hide Good, StacksAre, Touches, HasTauIs, Visited, IsNamed, IsInserted, InstTouched;
    VisitedTouches(plan, w, b, list[n]);
    var w' := Visited(w, b, list[n]);
    forall m | 0 <= m <= n && Rank(plan.p1, list[m]) >= 1
      ensures IsNamed(plan, w'.body, met + list[..m], list[m])
    {
      if m == n {
        VisitedNamed(plan, w, b, list[n], met + list[..n]);
      } else {
        Distinct(plan, b, m, n);
        KeptNamed(plan, w, w', met + list[..m], list[m]);
      }
    }
  }

  lemma KeptNamed(plan: Plan, w: Walk, w': Walk, met: seq<nat>, v: nat)
    requires IsNamed(plan, w.body, met, v) && InstTouched(plan, w, w', v) &&
      (v in w.body.insts ==> w'.body.insts[v] == w.body.insts[v])
    ensures IsNamed(plan, w'.body, met, v)
  {
  }

  lemma VisitedPhi(plan: Plan, w: Walk, b: nat, v: nat)
    requires IsFresh(plan, w, v)
    ensures IsPhi(plan.p1, v) ==> v in Visited(w, b, v).stacks
    ensures w.stacks.Keys <= Visited(w, b, v).stacks.Keys
  {
  }

  lemma Distinct(plan: Plan, b: nat, m: nat, n: nat)
    requires IsInserted(plan) && m < |ListOf(plan.p1, b)| && n < |ListOf(plan.p1, b)| && m != n
    ensures ListOf(plan.p1, b)[m] != ListOf(plan.p1, b)[n]
  {
  }

  // ----- incoming values -----

  /** The incoming value of a phi of the program from block b: as a phi it has been met, as a tau its operand 0 has. */
  lemma IncomingMapped(plan: Plan, w: Walk, v: nat, b: nat, k: nat, here: set<nat>)
    requires IsInserted(plan) && Good(plan, w) && DominatedIn(plan, b, here) && here <= w.stacks.Keys
    requires IsPhi(w.body, v) && k < |w.body.insts[v].kind.from| && w.body.insts[v].kind.from[k] == b
    ensures v in plan.p0.insts && IsPhi(plan.p1, v) && v !in w.dep && k < |w.body.insts[v].ops|
    ensures var x := w.body.insts[v].ops[k];
      (IsPhi(w.body, x) ==> x in w.stackmap && w.stackmap[x] == Root(plan.tauOf, x) && Root(plan.tauOf, x) in w.stacks)
  {
    PhiOfProgram(plan, w, v);
    var x := w.body.insts[v].ops[k];
    if IsPhi(w.body, x) {
      PhiOfProgram(plan, w, x);
      assert x == plan.p0.insts[v].ops[k];
      assert x in here;
    }
  }

  /** A phi or tau is known by the current name of the phi it stands for, any other value by itself. */
  ghost function CurrentName(plan: Plan, w: Walk, x: nat): nat {
    var phi := Root(plan.tauOf, x);
    if IsPhi(w.body, x) || IsTau(w.body, x) then Last(StackOf(w.stacks, phi), phi) else x
  }

  /** Wherever v uses the value it takes from b, it now uses that value's current name; nothing else has changed. */
  ghost predicate IncomingUpdated(plan: Plan, w0: Walk, w: Walk, v: nat, b: nat)
    requires IsPhi(w0.body, v)
  {
    var from, ops := w0.body.insts[v].kind.from, w0.body.insts[v].ops;
    && (b !in from ==> w == w0)
    && forall k: nat | IsIncoming(from, b, k) && k < |ops| :: UpdatedAt(plan, w0, w, v, ops[k])
  }

  ghost predicate UpdatedAt(plan: Plan, w0: Walk, w: Walk, v: nat, x: nat)
    requires IsPhi(w0.body, v)
  {
    w == w0.(body := WithOps(w0.body, v, Subst(w0.body.insts[v].ops, x, CurrentName(plan, w0, x))))
  }

  lemma UpdatedAtFirst(plan: Plan, w0: Walk, w: Walk, v: nat, b: nat, k: nat)
    requires IsPhi(w0.body, v) && k < |w0.body.insts[v].ops| && IsIncoming(w0.body.insts[v].kind.from, b, k)
    requires UpdatedAt(plan, w0, w, v, w0.body.insts[v].ops[k])
    ensures IncomingUpdated(plan, w0, w, v, b)
  {
    hide UpdatedAt;
    forall j: nat | IsIncoming(w0.body.insts[v].kind.from, b, j)
      ensures j == k
    {
    }
  }

  lemma NothingUpdated(plan: Plan, w: Walk, v: nat, x: nat)
    requires IsPhi(w.body, v) && CurrentName(plan, w, x) == x
    ensures UpdatedAt(plan, w, w, v, x)
  {
    var ops := w.body.insts[v].ops;
    assert Subst(ops, x, x) == ops;
    assert w.body.insts[v := w.body.insts[v].(ops := ops)] == w.body.insts;
  }

  lemma PhiOfProgram(plan: Plan, w: Walk, v: nat)
    requires IsInserted(plan) && Good(plan, w) && IsPhi(w.body, v)
    ensures IsPhi(plan.p0, v) && IsPhi(plan.p1, v) && v !in w.dep && v !in plan.tauOf &&
      SameUpToTaus(plan.tauOf, plan.p0.insts[v], w.body.insts[v])
    ensures |w.body.insts[v].kind.from| == |w.body.insts[v].ops|
  {
    assert InstOk(plan.p0, w.body, plan.tauOf, v);
    assert v in plan.p0.insts;
    assert InstOk(plan.p0, plan.p1, plan.tauOf, v);
    PhiIsNoTau(plan, w, v);
  }

  // ----- the operands of phis -----

  lemma PhiRoots(plan: Plan, w: Walk, v: nat)
    requires IsInserted(plan) && Good(plan, w) && IsPhi(plan.p1, v)
    ensures IsPhi(w.body, v) && w.body.insts[v].kind == plan.p1.insts[v].kind &&
      |w.body.insts[v].ops| == |plan.p1.insts[v].ops| == |plan.p1.insts[v].kind.from|
    ensures forall j | 0 <= j < |plan.p1.insts[v].ops| ::
      Root(plan.tauOf, w.body.insts[v].ops[j]) == plan.p1.insts[v].ops[j]
  {
    InsertedKinds(plan, v);
    assert InstOk(plan.p0, plan.p1, plan.tauOf, v);
    PhiIsNoTau(plan, w, v);
    forall j | 0 <= j < |plan.p1.insts[v].ops|
      ensures plan.p1.insts[v].ops[j] == plan.p0.insts[v].ops[j]
    {
      assert Root(plan.tauOf, plan.p1.insts[v].ops[j]) == plan.p1.insts[v].ops[j];
    }
  }

  /** The instructions before a phi of a block are phis, so nothing is pushed on a stack between. */
  lemma StacksAbove(plan: Plan, stacks: map<nat, seq<nat>>, b: nat, n: nat, met: seq<nat>)
    requires IsInserted(plan) && n < |ListOf(plan.p1, b)| && IsPhi(plan.p1, ListOf(plan.p1, b)[n])
    requires StacksAre(plan.tauOf, stacks, met + ListOf(plan.p1, b)[..n])
    ensures StacksAre(plan.tauOf, stacks, met)
  {
    var before := ListOf(plan.p1, b)[..n];
    forall v | v in before
      ensures v !in plan.tauOf
    {
      var m :| 0 <= m < n && before[m] == v;
      PhiBefore(plan, b, m, n);
    }
    forall phi: nat
      ensures StackIs(plan.tauOf, stacks, met, phi)
    {
      assert StackIs(plan.tauOf, stacks, met + before, phi);
      TausForAppend(plan.tauOf, met, before, phi);
      NoTausNone(plan.tauOf, before, phi);
    }
  }

  lemma PhiBefore(plan: Plan, b: nat, m: nat, n: nat)
    requires IsInserted(plan) && m < n < |ListOf(plan.p1, b)| && IsPhi(plan.p1, ListOf(plan.p1, b)[n])
    ensures ListOf(plan.p1, b)[m] !in plan.tauOf
  {
    var v := ListOf(plan.p1, b)[m];
    assert v in ListOf(plan.p1, b) && ListOk(plan.p0, plan.p1, plan.tauOf, b);
    InsertedKinds(plan, v);
  }

  /** Meeting an instruction keeps the operands of phis named. */
  lemma VisitKeepsSlots(plan: Plan, w: Walk, b: nat, n: nat, met: seq<nat>, at: Met, walked: set<nat>)
    requires IsInserted(plan) && Good(plan, w) && n < |ListOf(plan.p1, b)|
    requires IsFresh(plan, w, ListOf(plan.p1, b)[n])
    requires ListOf(plan.p1, b)[n] in plan.tauOf ==> plan.tauOf[ListOf(plan.p1, b)[n]] in w.stacks
    requires StacksAre(plan.tauOf, w.stacks, met + ListOf(plan.p1, b)[..n])
    requires b in at && at[b] == met + ListOf(plan.p1, b) && Slots(plan, at, w.body, walked)
    requires walked <= at.Keys
    ensures Slots(plan, at, Visited(w, b, ListOf(plan.p1, b)[n]).body, walked)
  {
    var v := ListOf(plan.p1, b)[n];
    var w' := Visited(w, b, v);
    VisitedTouches(plan, w, b, v);
    VisitedPhiOps(plan, w, b, v);
    hide IsInserted, Good, IsFresh, StacksAre, Touches, InstTouched, Visited, SlotsOk, FitsEdges;
    if FitsEdges(plan, at) {
      forall u
        ensures SlotsOk(plan, at, w'.body, walked, u)
      {
        assert SlotsOk(plan, at, w.body, walked, u);
        if IsPhi(plan.p1, u) {
          PhiRoots(plan, w, u);
          if u == v {
            StacksAbove(plan, w.stacks, b, n, met);
            RenamedKeepsSlots(plan, w, b, v, met, at, walked);
          } else {
            SlotsKept(plan, at, w.body, w'.body, walked, u);
          }
        } else {
          SlotsKept(plan, at, w.body, w'.body, walked, u);
        }
      }
    }
  }

  lemma VisitedPhiOps(plan: Plan, w: Walk, b: nat, v: nat)
    requires IsFresh(plan, w, v)
    ensures IsPhi(plan.p1, v) ==>
      Visited(w, b, v).body == WithOps(w.body, v, Renamed(w.stacks, w.body.insts[v].ops))
  {
  }

  lemma RenamedKeepsSlots(plan: Plan, w: Walk, b: nat, v: nat, met: seq<nat>, at: Met, walked: set<nat>)
    requires IsInserted(plan) && Good(plan, w) && IsPhi(plan.p1, v) && v in ListOf(plan.p1, b)
    requires StacksAre(plan.tauOf, w.stacks, met) && b in at && at[b] == met + ListOf(plan.p1, b)
    requires FitsEdges(plan, at) && walked <= at.Keys && SlotsOk(plan, at, w.body, walked, v)
    ensures v in w.body.insts
    ensures SlotsOk(plan, at, WithOps(w.body, v, Renamed(w.stacks, w.body.insts[v].ops)), walked, v)
  {
    PhiRoots(plan, w, v);
    forall phi | phi in w.stacks
      ensures phi !in plan.tauOf
    {
      RootIsRoot(plan, w, phi);
    }
    forall c, j: nat | c in walked && c in at && Passes(plan, c, v, j)
      ensures met <= at[c]
    {
      var i :| 0 <= i < |SuccsOf(plan, c)| && v in ListOf(plan.p1, SuccsOf(plan, c)[i]);
      OnePlace(plan, b, SuccsOf(plan, c)[i], v);
      assert b in SuccsOf(plan, c);
      assert at[b][..|at[b]| - |ListOf(plan.p1, b)|] == met;
    }
    hide IsInserted, Good, StacksAre, SlotsOk, FitsEdges, Passes;
    SlotsRenamed(plan, at, w.body, walked, v, w.stacks, met);
  }

  lemma OnePlace(plan: Plan, b: nat, c: nat, v: nat)
    requires IsInserted(plan) && v in ListOf(plan.p1, b) && v in ListOf(plan.p1, c)
    ensures b == c
  {
  }

  /** A live value's current name is that of its root where these instructions were met. */
  lemma CurrentIsName(plan: Plan, w: Walk, v: nat, k: nat, met: seq<nat>)
    requires IsInserted(plan) && Good(plan, w) && IsPhi(plan.p1, v) && StacksAre(plan.tauOf, w.stacks, met)
    requires k < |plan.p1.insts[v].ops| && v in w.body.insts && k < |w.body.insts[v].ops|
    ensures CurrentName(plan, w, w.body.insts[v].ops[k]) == NameOf(plan.tauOf, met, plan.p1.insts[v].ops[k])
  {
    PhiRoots(plan, w, v);
    var x, x0 := w.body.insts[v].ops[k], plan.p1.insts[v].ops[k];
    TopIsName(plan.tauOf, w.stacks, met, x0);
    if !IsPhi(w.body, x) && !IsTau(w.body, x) {
      OperandLive(plan, w, v, k);
      if x in plan.tauOf {
        TauStaysTau(plan, w, x);
      }
      assert x == x0;
      if x in w.stacks {
        StackedIsPhi(plan, w, x);
      }
    }
  }

  lemma TauStaysTau(plan: Plan, w: Walk, x: nat)
    requires Good(plan, w) && x in plan.tauOf && x in w.body.insts
    ensures IsTau(w.body, x)
  {
    assert InstOk(plan.p0, w.body, plan.tauOf, x);
    if x in plan.p0.insts {
      PhiIsNoTau(plan, w, x);
    }
  }

  lemma StackedIsPhi(plan: Plan, w: Walk, x: nat)
    requires Good(plan, w) && x in w.stacks
    ensures IsPhi(w.body, x)
  {
    assert StackGood(plan, w, x);
    PhiIsNoTau(plan, w, x);
  }

  /** Updating one phi in a successor of b. */
  lemma UpdateKeepsSlots(plan: Plan, w0: Walk, w: Walk, v: nat, b: nat, at: Met, walked: set<nat>, done: set<nat>)
    requires IsInserted(plan) && Good(plan, w0) && IsPhi(w0.body, v) && IsPhi(plan.p1, v) && InSuccessor(plan, b, v)
    requires IncomingUpdated(plan, w0, w, v, b) && b in at && StacksAre(plan.tauOf, w0.stacks, at[b])
    requires SlotsDone(plan, at, w0.body, walked, b, done)
    ensures SlotsDone(plan, at, w.body, walked, b, done + {v})
  {
    PhiRoots(plan, w0, v);
    hide IsInserted, Good, StacksAre, SlotsOk, FitsEdges, InSuccessor;
    if FitsEdges(plan, at) {
      forall u
        ensures SlotsOk(plan, at, w.body, if u in done + {v} then walked + {b} else walked, u)
      {
        var before := if u in done then walked + {b} else walked;
        assert SlotsOk(plan, at, w0.body, before, u);
        if u == v {
          UpdatedSlots(plan, w0, w, v, b, at, before);
          assert before + {b} == walked + {b};
        } else {
          OthersNotUpdated(plan, w0, w, v, b, u);
          SlotsKept(plan, at, w0.body, w.body, before, u);
        }
      }
    }
  }

  lemma OthersNotUpdated(plan: Plan, w0: Walk, w: Walk, v: nat, b: nat, u: nat)
    requires IsPhi(w0.body, v) && IncomingUpdated(plan, w0, w, v, b) && u != v
    requires |w0.body.insts[v].ops| == |w0.body.insts[v].kind.from|
    ensures (u in w.body.insts <==> u in w0.body.insts) && (u in w0.body.insts ==> w.body.insts[u] == w0.body.insts[u])
  {
    var from := w0.body.insts[v].kind.from;
    if b in from {
      var k := FirstFrom(from, b);
      assert UpdatedAt(plan, w0, w, v, w0.body.insts[v].ops[k]);
    }
  }

  lemma {:induction false} FirstFrom(from: seq<nat>, b: nat) returns (k: nat)
    requires b in from
    ensures IsIncoming(from, b, k)
  {
    if from[0] == b {
      k := 0;
    } else {
      k := FirstFrom(from[1..], b);
      k := k + 1;
      assert forall j | 0 < j < |from| :: from[j] == from[1..][j - 1];
    }
  }

  lemma UpdatedSlots(plan: Plan, w0: Walk, w: Walk, v: nat, b: nat, at: Met, walked: set<nat>)
    requires IsInserted(plan) && Good(plan, w0) && IsPhi(w0.body, v) && IsPhi(plan.p1, v) && InSuccessor(plan, b, v)
    requires IncomingUpdated(plan, w0, w, v, b) && b in at && StacksAre(plan.tauOf, w0.stacks, at[b])
    requires SlotsOk(plan, at, w0.body, walked, v)
    ensures SlotsOk(plan, at, w.body, walked + {b}, v)
  {
    PhiRoots(plan, w0, v);
    var from := w0.body.insts[v].kind.from;
    hide IsInserted, Good, StacksAre, SlotsOk, InSuccessor;
    if b in from {
      var k := FirstFrom(from, b);
      assert UpdatedAt(plan, w0, w, v, w0.body.insts[v].ops[k]);
      CurrentIsName(plan, w0, v, k, at[b]);
      SlotReplaced(plan, at, w0.body, walked, b, v, k, NameOf(plan.tauOf, at[b], plan.p1.insts[v].ops[k]));
    } else {
      NothingFrom(plan, at, w0.body, walked, b, v);
    }
  }

  /** The phis of a block are still listed there. */
  lemma PhisListed(plan: Plan, w: Walk, s: nat, v: nat)
    requires IsInserted(plan) && Good(plan, w) && v in ListOf(plan.p1, s) && IsPhi(plan.p1, v)
    ensures v in ListOf(w.body, s)
  {
    assert ListOk(plan.p0, plan.p1, plan.tauOf, s) && ListOk(plan.p0, w.body, plan.tauOf, s);
    InsertedKinds(plan, v);
    WithoutTausMembers(ListOf(plan.p1, s), plan.tauOf, v);
    WithoutTausMembers(ListOf(w.body, s), plan.tauOf, v);
  }

  lemma ListedBefore(plan: Plan, w: Walk, s: nat, v: nat)
    requires IsInserted(plan) && Good(plan, w) && v in ListOf(w.body, s) && IsPhi(w.body, v)
    ensures v in ListOf(plan.p1, s) && IsPhi(plan.p1, v)
  {
    assert ListOk(plan.p0, plan.p1, plan.tauOf, s) && ListOk(plan.p0, w.body, plan.tauOf, s);
    PhiOfProgram(plan, w, v);
    WithoutTausMembers(ListOf(plan.p1, s), plan.tauOf, v);
    WithoutTausMembers(ListOf(w.body, s), plan.tauOf, v);
  }

  /** All phis in successors updated, b has been left. */
  lemma AllUpdated(plan: Plan, at: Met, body: Body, walked: set<nat>, b: nat, done: set<nat>)
    requires SlotsDone(plan, at, body, walked, b, done)
    requires forall v | InSuccessor(plan, b, v) && IsPhi(plan.p1, v) :: v in done
    ensures Slots(plan, at, body, walked + {b})
  {
    hide SlotsOk, FitsEdges, InSuccessor;
    if FitsEdges(plan, at) {
      forall v
        ensures SlotsOk(plan, at, body, walked + {b}, v)
      {
        assert SlotsOk(plan, at, body, if v in done then walked + {b} else walked, v);
        if v !in done {
          NothingFrom(plan, at, body, walked, b, v);
        }
      }
    }
  }

  /** Leaving a block erases taus only. */
  lemma LeaveKeepsSlots(plan: Plan, w0: Walk, w: Walk, b: nat, at: Met, walked: set<nat>)
    requires IsInserted(plan) && Good(plan, w) && Pruned(plan, w0, w, b, {}) && Slots(plan, at, w0.body, walked)
    ensures Slots(plan, at, w.body, walked)
  {
    hide SlotsOk, FitsEdges, IsInserted, Good;
    if FitsEdges(plan, at) {
      forall v
        ensures SlotsOk(plan, at, w.body, walked, v)
      {
        assert SlotsOk(plan, at, w0.body, walked, v);
        if IsPhi(plan.p1, v) {
          PhiRoots(plan, w, v);
        }
        SlotsKept(plan, at, w0.body, w.body, walked, v);
      }
    }
  }

  // ----- leaving a block -----

  /** The stacks of the phis in left have still to be popped. */
  ghost predicate Leaving(plan: Plan, w0: Walk, w: Walk, b: nat, met: seq<nat>, left: set<nat>) {
    && Good(plan, w) && left <= w.stacks.Keys == w0.stacks.Keys && w.dep == w0.dep && w.hasTau == w0.hasTau
    && (forall phi | phi in left :: w.stacks[phi] == w0.stacks[phi])
    && (forall phi | phi in w.stacks && phi !in left :: w.stacks[phi] == [phi] + TausFor(plan.tauOf, met, phi))
    && (forall v | v in ListOf(plan.p1, b) && v in plan.tauOf && plan.tauOf[v] in left :: v in ListOf(w.body, b))
    && (forall v | v !in plan.tauOf || v !in ListOf(plan.p1, b) :: InstKept(w0, w, v))
    && (forall c | c != b :: ListOf(w.body, c) == ListOf(w0.body, c))
  }

  ghost predicate InstKept(w0: Walk, w: Walk, v: nat) {
    (v in w.body.insts <==> v in w0.body.insts) && (v in w0.body.insts ==> w.body.insts[v] == w0.body.insts[v])
  }

  /** What the block pushed on the stack of a phi. */
  lemma PushedByBlock(plan: Plan, w: Walk, b: nat, met: seq<nat>, phi: nat)
    requires IsInserted(plan) && phi in w.stacks && StacksAre(plan.tauOf, w.stacks, met + ListOf(plan.p1, b)) &&
      HasTauIs(plan, w, b, ListOf(plan.p1, b))
    ensures if (b, phi) in w.hasTau
            then |w.stacks[phi]| > 1 && w.stacks[phi][..|w.stacks[phi]| - 1] == [phi] + TausFor(plan.tauOf, met, phi)
              && w.stacks[phi][|w.stacks[phi]| - 1] in ListOf(plan.p1, b)
              && w.stacks[phi][|w.stacks[phi]| - 1] in plan.tauOf
              && plan.tauOf[w.stacks[phi][|w.stacks[phi]| - 1]] == phi
            else w.stacks[phi] == [phi] + TausFor(plan.tauOf, met, phi)
  {
    var list := ListOf(plan.p1, b);
    assert StackIs(plan.tauOf, w.stacks, met + list, phi);
    TausForAppend(plan.tauOf, met, list, phi);
    OneTauInBlock(plan, b, phi);
    TausForMembers(plan.tauOf, list, phi);
    var taus := TausFor(plan.tauOf, list, phi);
    hide IsInserted, TausFor, StacksAre, StackIs;
    if (b, phi) in w.hasTau {
      assert taus == [taus[0]] && taus[0] in taus;
      assert w.stacks[phi] == [phi] + TausFor(plan.tauOf, met, phi) + [taus[0]];
    }
  }

  lemma OneTauInBlock(plan: Plan, b: nat, phi: nat)
    requires IsInserted(plan)
    ensures |TausFor(plan.tauOf, ListOf(plan.p1, b), phi)| <= 1
  {
    AtMostOne(plan.tauOf, ListOf(plan.p1, b), phi);
  }

  /** One stack is popped, or holds nothing of the block. */
  ghost function Left(w: Walk, b: nat, phi: nat): Walk
    requires phi in w.stacks
  {
    if (b, phi) in w.hasTau && |w.stacks[phi]| > 1 then PopTau(w, b, phi) else w
  }

  lemma LeaveStep(plan: Plan, w0: Walk, w: Walk, b: nat, met: seq<nat>, left: set<nat>, phi: nat)
    requires IsInserted(plan) && Leaving(plan, w0, w, b, met, left) && phi in left
    requires StacksAre(plan.tauOf, w0.stacks, met + ListOf(plan.p1, b)) && HasTauIs(plan, w0, b, ListOf(plan.p1, b))
    ensures (b, phi) in w.hasTau ==> |w.stacks[phi]| > 1
    ensures Leaving(plan, w0, Left(w, b, phi), b, met, left - {phi})
  {
    hide IsInserted, StacksAre, HasTauIs, TausFor, PopTau, ListOf, Leaving;
    NotPoppedYet(plan, w0, w, b, met, left, phi);
    PushedByBlock(plan, w0, b, met, phi);
    if (b, phi) in w.hasTau {
      LeavePopped(plan, w0, w, b, met, left, phi);
    } else {
      LeaveUnpopped(plan, w0, w, b, met, left, phi);
    }
  }

  lemma NotPoppedYet(plan: Plan, w0: Walk, w: Walk, b: nat, met: seq<nat>, left: set<nat>, phi: nat)
    requires Leaving(plan, w0, w, b, met, left) && phi in left
    ensures phi in w.stacks && phi in w0.stacks && w.stacks[phi] == w0.stacks[phi] && w.hasTau == w0.hasTau
  {
  }

  lemma LeaveUnpopped(plan: Plan, w0: Walk, w: Walk, b: nat, met: seq<nat>, left: set<nat>, phi: nat)
    requires Leaving(plan, w0, w, b, met, left) && phi in left && w.stacks[phi] == [phi] + TausFor(plan.tauOf, met, phi)
    ensures Leaving(plan, w0, w, b, met, left - {phi})
  {
    hide Good, TausFor, InstKept, ListOf;
  }

  lemma LeavePopped(plan: Plan, w0: Walk, w: Walk, b: nat, met: seq<nat>, left: set<nat>, phi: nat)
    requires Leaving(plan, w0, w, b, met, left) && phi in left && |w.stacks[phi]| > 1
    requires w.stacks[phi][..|w.stacks[phi]| - 1] == [phi] + TausFor(plan.tauOf, met, phi)
    requires var tau := w.stacks[phi][|w.stacks[phi]| - 1];
      tau in ListOf(plan.p1, b) && tau in plan.tauOf && plan.tauOf[tau] == phi
    ensures Leaving(plan, w0, PopTau(w, b, phi), b, met, left - {phi})
  {
    hide Good, TausFor, PopTau, InstKept, ListOf;
    var tau := w.stacks[phi][|w.stacks[phi]| - 1];
    PopTauGood(plan, w, b, phi);
    PopStacks(w, b, phi);
    PopKeeps(plan, w0, w, b, phi, tau);
    ListAfterPop(plan, w, b, phi, left, tau);
  }

  lemma PopStacks(w: Walk, b: nat, phi: nat)
    requires phi in w.stacks && |w.stacks[phi]| > 1
    ensures PopTau(w, b, phi).stacks == w.stacks[phi := w.stacks[phi][..|w.stacks[phi]| - 1]]
    ensures PopTau(w, b, phi).dep == w.dep && PopTau(w, b, phi).hasTau == w.hasTau
  {
  }

  lemma PopKeeps(plan: Plan, w0: Walk, w: Walk, b: nat, phi: nat, tau: nat)
    requires phi in w.stacks && |w.stacks[phi]| > 1 && tau == w.stacks[phi][|w.stacks[phi]| - 1] && tau in plan.tauOf &&
      tau in ListOf(plan.p1, b)
    requires forall v | v !in plan.tauOf || v !in ListOf(plan.p1, b) :: InstKept(w0, w, v)
    ensures forall v | v !in plan.tauOf || v !in ListOf(plan.p1, b) :: InstKept(w0, PopTau(w, b, phi), v)
    ensures forall c | c != b :: ListOf(PopTau(w, b, phi).body, c) == ListOf(w.body, c)
  {
    var w' := PopTau(w, b, phi);
    forall v | v !in plan.tauOf || v !in ListOf(plan.p1, b)
      ensures InstKept(w0, w', v)
    {
      assert InstKept(w0, w, v) && v != tau;
    }
  }

  lemma ListAfterPop(plan: Plan, w: Walk, b: nat, phi: nat, left: set<nat>, tau: nat)
    requires phi in w.stacks && |w.stacks[phi]| > 1 && tau == w.stacks[phi][|w.stacks[phi]| - 1] && tau in plan.tauOf &&
      plan.tauOf[tau] == phi
    requires forall v | v in ListOf(plan.p1, b) && v in plan.tauOf && plan.tauOf[v] in left :: v in ListOf(w.body, b)
    ensures forall v | v in ListOf(plan.p1, b) && v in plan.tauOf && plan.tauOf[v] in left - {phi} ::
      v in ListOf(PopTau(w, b, phi).body, b)
  {
    forall v | v in ListOf(plan.p1, b) && v in plan.tauOf && plan.tauOf[v] in left - {phi}
      ensures v in ListOf(PopTau(w, b, phi).body, b)
    {
      WithoutMembers(ListOf(w.body, b), tau, v);
    }
  }

  lemma LeaveEnds(plan: Plan, w0: Walk, w: Walk, b: nat, met: seq<nat>)
    requires IsInserted(plan) && Leaving(plan, w0, w, b, met, {}) && Pruned(plan, w0, w, b, {}) &&
      StacksAre(plan.tauOf, w0.stacks, met + ListOf(plan.p1, b))
    ensures Good(plan, w) && StacksAre(plan.tauOf, w.stacks, met) && Touches(plan, w0, w, {b})
    ensures forall blocks :: SameOthers(plan, w0.body, w.body, blocks)
  {
    hide Good, TausFor, IsInserted, InstKept, ListOf, InBlocks;
    forall phi: nat
      ensures StackIs(plan.tauOf, w.stacks, met, phi)
    {
      assert StackIs(plan.tauOf, w0.stacks, met + ListOf(plan.p1, b), phi);
      TausForAppend(plan.tauOf, met, ListOf(plan.p1, b), phi);
    }
    LeaveTouches(plan, w0, w, b, met);
    forall blocks: set<nat>
      ensures SameOthers(plan, w0.body, w.body, blocks)
    {
      OthersKept(plan, w0, w, b, blocks);
    }
  }

  lemma LeaveTouches(plan: Plan, w0: Walk, w: Walk, b: nat, met: seq<nat>)
    requires Leaving(plan, w0, w, b, met, {})
    ensures Touches(plan, w0, w, {b})
  {
    hide Good, TausFor, ListOf, InBlocks;
    forall v: nat | !InBlocks(plan, {b}, v)
      ensures InstTouched(plan, w0, w, v)
    {
      if v in ListOf(plan.p1, b) {
        InBlock(plan, b, v);
      }
      assert InstKept(w0, w, v);
    }
  }

  lemma OthersKept(plan: Plan, w0: Walk, w: Walk, b: nat, blocks: set<nat>)
    requires IsInserted(plan) && forall v | v !in plan.tauOf || v !in ListOf(plan.p1, b) :: InstKept(w0, w, v)
    requires forall v | v in w.body.insts :: v in w0.body.insts && w.body.insts[v] == w0.body.insts[v]
    ensures SameOthers(plan, w0.body, w.body, blocks)
  {
    forall v | InBlocks(plan, blocks, v) && Rank(plan.p1, v) >= 1
      ensures SameOrErased(plan, w0.body, w.body, v)
    {
      var c :| c in blocks && v in ListOf(plan.p1, c);
      assert ListOk(plan.p0, plan.p1, plan.tauOf, c);
      InsertedKinds(plan, v);
      assert Rank(plan.p1, v) == 2 ==> InstKept(w0, w, v);
    }
  }

  /** Nothing but taus has been dropped, and of the taus whose stacks have been popped all that nothing used. */
  ghost predicate Pruned(plan: Plan, w0: Walk, w: Walk, b: nat, left: set<nat>) {
    && (forall v | v in w.body.insts :: v in w0.body.insts && w.body.insts[v] == w0.body.insts[v])
    && (forall v | v in ListOf(plan.p1, b) && v in plan.tauOf && plan.tauOf[v] !in left && !IsUsed(w0.body, v) ::
         v !in w.body.insts)
  }

  lemma PruneStarts(plan: Plan, w: Walk, b: nat, met: seq<nat>)
    requires StacksAre(plan.tauOf, w.stacks, met + ListOf(plan.p1, b))
    ensures Pruned(plan, w, w, b, w.stacks.Keys)
  {
    forall v | v in ListOf(plan.p1, b) && v in plan.tauOf
      ensures plan.tauOf[v] in w.stacks
    {
      assert StackIs(plan.tauOf, w.stacks, met + ListOf(plan.p1, b), plan.tauOf[v]);
      TausForMembers(plan.tauOf, met + ListOf(plan.p1, b), plan.tauOf[v]);
    }
  }

  /** The block has no other tau for a phi than the one on top of its stack. */
  lemma TausOfPhi(plan: Plan, w: Walk, b: nat, met: seq<nat>, phi: nat, v: nat)
    requires IsInserted(plan) && phi in w.stacks && StacksAre(plan.tauOf, w.stacks, met + ListOf(plan.p1, b)) &&
      HasTauIs(plan, w, b, ListOf(plan.p1, b))
    requires v in ListOf(plan.p1, b) && v in plan.tauOf && plan.tauOf[v] == phi
    ensures (b, phi) in w.hasTau && |w.stacks[phi]| > 1 && v == w.stacks[phi][|w.stacks[phi]| - 1]
  {
    TausForMembers(plan.tauOf, ListOf(plan.p1, b), phi);
    PushedByBlock(plan, w, b, met, phi);
  }

  lemma PruneStep(plan: Plan, w0: Walk, w: Walk, b: nat, met: seq<nat>, left: set<nat>, phi: nat)
    requires IsInserted(plan) && Leaving(plan, w0, w, b, met, left) && phi in left && Pruned(plan, w0, w, b, left)
    requires StacksAre(plan.tauOf, w0.stacks, met + ListOf(plan.p1, b)) && HasTauIs(plan, w0, b, ListOf(plan.p1, b))
    ensures Pruned(plan, w0, Left(w, b, phi), b, left - {phi})
  {
    hide IsInserted, Good, StacksAre, HasTauIs, TausFor, Leaving, ListOf, Left, IsUsed;
    NotPoppedYet(plan, w0, w, b, met, left, phi);
    LeftDrops(w0, w, b, phi);
    forall v | v in ListOf(plan.p1, b) && v in plan.tauOf && plan.tauOf[v] !in left - {phi} && !IsUsed(w0.body, v)
      ensures v !in Left(w, b, phi).body.insts
    {
      if plan.tauOf[v] == phi {
        TausOfPhi(plan, w0, b, met, phi, v);
      }
    }
  }

  lemma LeftDrops(w0: Walk, w: Walk, b: nat, phi: nat)
    requires phi in w.stacks && forall v | v in w.body.insts ::
      v in w0.body.insts && w.body.insts[v] == w0.body.insts[v]
    ensures forall v | v in Left(w, b, phi).body.insts ::
      v in w.body.insts && Left(w, b, phi).body.insts[v] == w.body.insts[v]
    ensures (b, phi) in w.hasTau && |w.stacks[phi]| > 1 && !IsUsed(w0.body, w.stacks[phi][|w.stacks[phi]| - 1]) ==>
      w.stacks[phi][|w.stacks[phi]| - 1] !in Left(w, b, phi).body.insts
  {
  }

  // ----- the walk itself -----

  /** Same values in everything but the body. */
  ghost predicate OnlyBody(w0: Walk, w: Walk) {
    w.stacks == w0.stacks && w.stackmap == w0.stackmap && w.hasTau == w0.hasTau && w.dep == w0.dep &&
      w.body.lists == w0.body.lists
  }

  /** The current name of a phi is the phi or no phi. */
  ghost predicate TopsApart(stacks: map<nat, seq<nat>>) {
    forall phi | phi in stacks :: Last(stacks[phi], phi) == phi || Last(stacks[phi], phi) !in stacks
  }

  lemma GoodTopsApart(plan: Plan, w: Walk)
    requires Good(plan, w)
    ensures TopsApart(w.stacks)
  {
    forall phi | phi in w.stacks
      ensures Last(w.stacks[phi], phi) == phi || Last(w.stacks[phi], phi) !in w.stacks
    {
      TopIsGood(plan, w, phi);
      if Last(w.stacks[phi], phi) in w.stacks {
        RootIsRoot(plan, w, Last(w.stacks[phi], phi));
      }
    }
  }

  class Renamer {
    var body: Body
    var stacks: map<nat, seq<nat>>
    var stackmap: map<nat, nat>
    var hasTau: set<(nat, nat)>
    ghost var dep: map<nat, nat>

    ghost function State(): Walk
      reads this
    {
      Walk(body, stacks, stackmap, hasTau, dep)
    }

    constructor (p: Body)
      ensures State() == Walk(p, map[], map[], {}, map[])
    {
      body, stacks, stackmap, hasTau, dep := p, map[], map[], {}, map[];
    }

    /** Replaces, phi by phi, every use of a phi in the instruction by the phi's current name. */
    method RenameUses(v: nat)
      requires v in body.insts && TopsApart(stacks)
      modifies `body
      ensures body == WithOps(old(body), v, Renamed(stacks, old(body).insts[v].ops))
    {
      var ops0 := body.insts[v].ops;
      var ops := ops0;
      var left := stacks.Keys;
      while left != {}
        invariant left <= stacks.Keys && |ops| == |ops0|
        invariant forall k | 0 <= k < |ops| :: ops[k] == if ops0[k] in stacks && ops0[k] !in left
          then Last(stacks[ops0[k]], ops0[k]) else ops0[k]
        decreases left
      {
        var phi :| phi in left;
        ops := Subst(ops, phi, Last(stacks[phi], phi));
        left := left - {phi};
      }
      assert ops == Renamed(stacks, ops0);
      body := WithOps(body, v, ops);
    }

    /** One instruction of block b: its uses are renamed; a phi or tau becomes a current name. */
    method VisitInst(b: nat, v: nat, ghost plan: Plan)
      requires IsInserted(plan) && Good(plan, State()) && IsFresh(plan, State(), v) &&
        (v in plan.tauOf ==> plan.tauOf[v] in stacks)
      modifies this
      ensures State() == old(Visited(State(), b, v))
    {
      hide IsInserted, Good;
      GoodTopsApart(plan, State());
      InsertedKinds(plan, v);
      TauOperandMapped(plan, State(), b, v);
      RenameUses(v);
      match body.insts[v].kind {
        case Phi(from) =>
          stacks := stacks[v := StackOf(stacks, v) + [v]];
          stackmap := stackmap[v := v];
        case Tau =>
          var parPhi := body.insts[v].ops[0];
          var phi := stackmap[parPhi];
          hasTau := hasTau + {(b, phi)};
          stacks := stacks[phi := StackOf(stacks, phi) + [v]];
          stackmap := stackmap[v := phi];
          dep := dep[v := |dep|];
        case Other =>
      }
    }

    /** The instructions of a block, in order. */
    method VisitBlock(b: nat, ghost plan: Plan, ghost met: seq<nat>, ghost above: set<nat>, ghost at: Met,
                      ghost walked: set<nat>)
      requires b in at && at[b] == met + ListOf(plan.p1, b) && walked <= at.Keys && Slots(plan, at, body, walked)
      requires IsInserted(plan) && Good(plan, State()) && StacksAre(plan.tauOf, stacks, met) &&
        BlockFresh(plan, State(), b) && above <= stacks.Keys
      requires DominatedIn(plan, b, above + PhisOf(plan, b))
      modifies this
      ensures Visiting(plan, old(State()), State(), b, met, above, |ListOf(plan.p1, b)|)
      ensures Slots(plan, at, body, walked)
    {
      hide IsInserted, Good, StacksAre, DominatedIn, Visiting, PhisOf, Visited, Slots;
      var list := ListOf(body, b);
      VisitStarts(plan, State(), b, met, above);
      var n := 0;
      while n < |list|
        invariant 0 <= n <= |list| && list == ListOf(plan.p1, b)
        invariant Visiting(plan, old(State()), State(), b, met, above, n) && Slots(plan, at, body, walked)
      {
        VisitStep(plan, old(State()), State(), b, met, above, n);
        TauPhiMet(plan, old(State()), State(), b, met, above, n);
        NextIsFresh(plan, old(State()), State(), b, met, above, n);
        VisitKeepsSlots(plan, State(), b, n, met, at, walked);
        VisitInst(b, list[n], plan);
        n := n + 1;
      }
    }

    /** The value a phi in a successor gets from block b is replaced, wherever the phi uses it, by its current name. */
    method UpdateIncoming(v: nat, b: nat, ghost plan: Plan, ghost here: set<nat>)
      requires IsInserted(plan) && Good(plan, State()) && DominatedIn(plan, b, here) && here <= stacks.Keys &&
        IsPhi(body, v)
      modifies `body
      ensures Good(plan, State()) && OnlyBody(old(State()), State()) && Touches(plan, old(State()), State(), {})
      ensures IncomingUpdated(plan, old(State()), State(), v, b)
    {
      hide IsInserted, Good, DominatedIn, Touches, Subst, WithOps, Root;
      TouchesSelf(plan, State(), {});
      var from := body.insts[v].kind.from;
      var k := 0;
      while k < |from| && from[k] != b
        invariant 0 <= k <= |from| && forall j | 0 <= j < k :: from[j] != b
      {
        k := k + 1;
      }
      if k < |from| {
        IncomingMapped(plan, State(), v, b, k, here);
        var x := body.insts[v].ops[k];
        if IsPhi(body, x) {
          ReplaceIncoming(v, x, stackmap[x], plan);
        } else if IsTau(body, x) {
          UsedTauIsMapped(plan, State(), v, k);
          ReplaceIncoming(v, x, stackmap[body.insts[x].ops[0]], plan);
        } else {
          NothingUpdated(plan, State(), v, x);
        }
        UpdatedAtFirst(plan, old(State()), State(), v, b, k);
      }
    }

    method ReplaceIncoming(v: nat, x: nat, phi: nat, ghost plan: Plan)
      requires Good(plan, State()) && IsPhi(body, v) && IsPhi(plan.p1, v) && v !in dep && phi == Root(plan.tauOf, x) &&
        phi in stacks
      modifies `body
      ensures Good(plan, State()) && OnlyBody(old(State()), State()) && Touches(plan, old(State()), State(), {})
      ensures State() == old(State()).(body :=
        WithOps(old(body), v, Subst(old(body).insts[v].ops, x, Last(StackOf(stacks, phi), phi))))
    {
      hide Good, Touches, Subst, WithOps;
      IncomingRenamed(plan, State(), v, x);
      PhiOpsTouch(plan, State(), v, Subst(body.insts[v].ops, x, Last(StackOf(stacks, phi), phi)));
      body := WithOps(body, v, Subst(body.insts[v].ops, x, Last(StackOf(stacks, phi), phi)));
    }

    /** The phis of all successors. */
    method UpdateSuccs(b: nat, succs: map<nat, seq<nat>>, ghost plan: Plan, ghost here: set<nat>, ghost at: Met,
                       ghost walked: set<nat>)
      requires IsInserted(plan) && Good(plan, State()) && DominatedIn(plan, b, here) && here <= stacks.Keys
      requires succs == plan.succs && b in at && StacksAre(plan.tauOf, stacks, at[b]) && Slots(plan, at, body, walked)
      modifies `body
      ensures Good(plan, State()) && OnlyBody(old(State()), State()) && Touches(plan, old(State()), State(), {})
      ensures Slots(plan, at, body, walked + {b})
    {
      hide IsInserted, Good, DominatedIn, Touches, StacksAre, Slots, SlotsDone;
      TouchesSelf(plan, State(), {});
      var list := if b in succs then succs[b] else [];
      ghost var done: set<nat> := {};
      NothingDone(plan, at, body, walked, b);
      var i := 0;
      while i < |list|
        invariant 0 <= i <= |list| && Good(plan, State()) && OnlyBody(old(State()), State()) &&
          Touches(plan, old(State()), State(), {})
        invariant SlotsDone(plan, at, body, walked, b, done) && DoneIn(plan, list[..i], done)
      {
        var insts := ListOf(body, list[i]);
        var n := 0;
        while n < |insts|
          invariant 0 <= n <= |insts| && Good(plan, State()) && OnlyBody(old(State()), State()) &&
            Touches(plan, old(State()), State(), {})
          invariant SlotsDone(plan, at, body, walked, b, done) && DoneIn(plan, list[..i], done)
          invariant forall m | 0 <= m < n && IsPhi(plan.p1, insts[m]) :: insts[m] in done
        {
          ghost var before := State();
          if IsPhi(body, insts[n]) {
            ListedBefore(plan, State(), list[i], insts[n]);
            UpdateIncoming(insts[n], b, plan, here);
            TouchesMore(plan, old(State()), before, State(), {}, {}, {});
            InSuccessorHere(plan, b, i, insts[n]);
            UpdateKeepsSlots(plan, before, State(), insts[n], b, at, walked, done);
            done := done + {insts[n]};
          } else if IsPhi(plan.p1, insts[n]) {
            PhiRoots(plan, State(), insts[n]);
          }
          n := n + 1;
        }
        BlockDone(plan, State(), list, i, done);
        i := i + 1;
      }
      AllDone(plan, b, list, done);
      AllUpdated(plan, at, body, walked, b, done);
    }

    /** Pops the tau of the block off its stack, and erases it when it is unused. */
    method LeaveBlock(b: nat, ghost plan: Plan, ghost met: seq<nat>)
      requires IsInserted(plan) && Good(plan, State()) && StacksAre(plan.tauOf, stacks, met + ListOf(plan.p1, b)) &&
        HasTauIs(plan, State(), b, ListOf(plan.p1, b))
      requires ListOf(body, b) == ListOf(plan.p1, b)
      modifies this
      ensures Good(plan, State()) && StacksAre(plan.tauOf, stacks, met) && Touches(plan, old(State()), State(), {b})
      ensures forall blocks :: SameOthers(plan, old(body), body, blocks)
      ensures Pruned(plan, old(State()), State(), b, {})
    {
      hide IsInserted, Good, StacksAre, HasTauIs, Leaving, SameOthers, Touches, Pruned;
      LeaveStarts(plan, State(), b, met);
      PruneStarts(plan, State(), b, met);
      var left := stacks.Keys;
      while left != {}
        invariant Leaving(plan, old(State()), State(), b, met, left) && Pruned(plan, old(State()), State(), b, left)
        decreases left
      {
        var phi :| phi in left;
        LeaveStep(plan, old(State()), State(), b, met, left, phi);
        PruneStep(plan, old(State()), State(), b, met, left, phi);
        NotPoppedYet(plan, old(State()), State(), b, met, left, phi);
        if (b, phi) in hasTau {
          var s := stacks[phi];
          var tau := s[|s| - 1];
          ghost var before := State();
          if !exists u :: u in body.insts && tau in body.insts[u].ops {
            body := Erase(body, b, tau);
          }
          stacks := stacks[phi := s[..|s| - 1]];
          assert State() == PopTau(before, b, phi);
        }
        left := left - {phi};
      }
      LeaveEnds(plan, old(State()), State(), b, met);
    }

    /** Walks a block and the blocks it dominates. The stacks are left as they were found, apart from those of phis met
        for the first time, and every other instruction names the taus nearest above it. */
    method Search(t: DomTree, succs: map<nat, seq<nat>>, ghost plan: Plan, ghost met: seq<nat>, ghost above: set<nat>,
                  ghost at: Met, ghost walked: set<nat>)
      requires IsInserted(plan) && IsTree(t) && IsDominated(plan, t, above) && Good(plan, State())
      requires succs == plan.succs && Follows(plan, t, met, at) && BlocksOf(t) + walked <= at.Keys
      requires Slots(plan, at, body, walked)
      requires StacksAre(plan.tauOf, stacks, met) && above <= stacks.Keys && AllFresh(plan, State(), BlocksOf(t))
      modifies this
      ensures Good(plan, State()) && StacksAre(plan.tauOf, stacks, met) &&
        Touches(plan, old(State()), State(), BlocksOf(t))
      ensures AllNamed(plan, t, met, body)
      ensures Slots(plan, at, body, walked + BlocksOf(t))
      decreases t, 1
    {
      hide IsInserted, IsTree, IsDominated, Good, StacksAre, AllFresh, Touches, AllNamed, Visiting, BlocksOf, PhisOf,
        OnlyBody, BlockNamed, Slots;
      ghost var b, w0 := t.block, State();
      ghost var list := ListOf(plan.p1, b);
      RootFacts(t);
      RootReady(plan, w0, t, above);
      VisitBlock(t.block, plan, met, above, at, walked);
      ghost var w1 := State();
      BlockMet(plan, w0, w1, b, met, above);
      UpdateSuccs(t.block, succs, plan, above + PhisOf(plan, b), at, walked);
      ghost var w2 := State();
      BodyChanged(plan, w1, w2, b, met);
      TouchesMore(plan, w0, w1, w2, {b}, {}, {b});
      ChildrenReady(plan, w0, w2, t, above);
      SearchChildren(t, succs, plan, met + list, above + PhisOf(plan, b), at, walked + {b});
      ghost var w3 := State();
      TouchesMore(plan, w0, w2, w3, {b}, BlocksOf(t) - {b}, BlocksOf(t));
      AfterChildren(plan, w1, w2, w3, t, met);
      LeaveBlock(t.block, plan, met);
      LeaveKeepsSlots(plan, w3, State(), b, at, walked + {b} + ChildBlocks(t, |t.children|));
      AllBlocks(t, walked);
      TouchesMore(plan, w0, w3, State(), BlocksOf(t), {b}, BlocksOf(t));
      TreeNamed(plan, t, met, w3.body);
      NamedStays(plan, t, met, w3.body, body, BlocksOf(t));
    }

    method SearchChildren(t: DomTree, succs: map<nat, seq<nat>>, ghost plan: Plan, ghost met: seq<nat>,
                          ghost above: set<nat>, ghost at: Met, ghost walked: set<nat>)
      requires succs == plan.succs && t.block in at && at[t.block] == met && Slots(plan, at, body, walked)
      requires BlocksOf(t) + walked <= at.Keys &&
        forall i | 0 <= i < |t.children| :: Follows(plan, t.children[i], met, at)
      requires IsInserted(plan) && IsTree(t) && Good(plan, State()) && StacksAre(plan.tauOf, stacks, met) &&
        above <= stacks.Keys
      requires forall i | 0 <= i < |t.children| ::
        IsDominated(plan, t.children[i], above) && AllFresh(plan, State(), BlocksOf(t.children[i]))
      modifies this
      ensures Good(plan, State()) && StacksAre(plan.tauOf, stacks, met) &&
        Touches(plan, old(State()), State(), BlocksOf(t) - {t.block})
      ensures forall i | 0 <= i < |t.children| :: AllNamed(plan, t.children[i], met, body)
      ensures Slots(plan, at, body, walked + ChildBlocks(t, |t.children|))
      decreases t, 0
    {
      hide IsInserted, IsTree, IsDominated, Good, StacksAre, AllFresh, Touches, AllNamed, BlocksOf, SameOthers, Slots,
        Follows;
      NoChildYet(t, walked);
      TouchesSelf(plan, State(), BlocksOf(t) - {t.block});
      var i := 0;
      while i < |t.children|
        invariant 0 <= i <= |t.children| && Good(plan, State()) && StacksAre(plan.tauOf, stacks, met) &&
          above <= stacks.Keys
        invariant forall j | i <= j < |t.children| :: AllFresh(plan, State(), BlocksOf(t.children[j]))
        invariant forall j | 0 <= j < i :: AllNamed(plan, t.children[j], met, body)
        invariant Touches(plan, old(State()), State(), BlocksOf(t) - {t.block})
        invariant Slots(plan, at, body, walked + ChildBlocks(t, i))
      {
        var c := t.children[i];
        ghost var w := State();
        ChildFacts(t, i, {});
        NextChild(t, i, walked);
        Search(c, succs, plan, met, above, at, walked + ChildBlocks(t, i));
        KeysGrow(plan, w, State(), BlocksOf(c));
        TouchesMore(plan, old(State()), w, State(), BlocksOf(t) - {t.block}, BlocksOf(c), BlocksOf(t) - {t.block});
        forall j | i < j < |t.children|
          ensures AllFresh(plan, State(), BlocksOf(t.children[j]))
        {
          ChildrenDisjoint(t, i, j);
          FreshStays(plan, w, State(), BlocksOf(c), BlocksOf(t.children[j]));
        }
        forall j | 0 <= j < i
          ensures AllNamed(plan, t.children[j], met, body)
        {
          ChildrenDisjoint(t, j, i);
          TouchedKeepsOthers(plan, w, State(), BlocksOf(c), BlocksOf(t.children[j]));
          NamedStays(plan, t.children[j], met, w.body, body, BlocksOf(t.children[j]));
        }
        i := i + 1;
      }
    }
  }

  /** The blocks of the first n children. */
  ghost function ChildBlocks(t: DomTree, n: nat): set<nat>
    requires n <= |t.children|
  {
    set i: nat, b: nat | i < n && b in BlocksOf(t.children[i]) :: b
  }

  lemma AllBlocks(t: DomTree, walked: set<nat>)
    ensures walked + {t.block} + ChildBlocks(t, |t.children|) == walked + BlocksOf(t)
  {
  }

  lemma NoChildYet(t: DomTree, walked: set<nat>)
    ensures walked + ChildBlocks(t, 0) == walked
  {
  }

  lemma NextChild(t: DomTree, i: nat, walked: set<nat>)
    requires i < |t.children|
    ensures walked + ChildBlocks(t, i) + BlocksOf(t.children[i]) == walked + ChildBlocks(t, i + 1)
    ensures BlocksOf(t.children[i]) <= BlocksOf(t) && ChildBlocks(t, i) <= BlocksOf(t)
  {
  }

  /** All phis of these blocks have been updated. */
  ghost predicate DoneIn(plan: Plan, blocks: seq<nat>, done: set<nat>) {
    forall i, v | 0 <= i < |blocks| && v in ListOf(plan.p1, blocks[i]) && IsPhi(plan.p1, v) :: v in done
  }

  lemma NothingDone(plan: Plan, at: Met, body: Body, walked: set<nat>, b: nat)
    requires Slots(plan, at, body, walked)
    ensures SlotsDone(plan, at, body, walked, b, {}) && DoneIn(plan, [], {})
  {
  }

  lemma InSuccessorHere(plan: Plan, b: nat, i: nat, v: nat)
    requires i < |SuccsOf(plan, b)| && v in ListOf(plan.p1, SuccsOf(plan, b)[i])
    ensures InSuccessor(plan, b, v)
  {
  }

  lemma BlockDone(plan: Plan, w: Walk, list: seq<nat>, i: nat, done: set<nat>)
    requires IsInserted(plan) && Good(plan, w) && i < |list| && DoneIn(plan, list[..i], done)
    requires forall v | v in ListOf(w.body, list[i]) && IsPhi(plan.p1, v) :: v in done
    ensures DoneIn(plan, list[..i + 1], done)
  {
    hide IsInserted, Good;
    forall j: nat, v | j <= i && v in ListOf(plan.p1, list[j]) && IsPhi(plan.p1, v)
      ensures v in done
    {
      if j < i {
        assert list[..i][j] == list[j];
      } else {
        PhisListed(plan, w, list[i], v);
      }
    }
  }

  lemma AllDone(plan: Plan, b: nat, list: seq<nat>, done: set<nat>)
    requires list == SuccsOf(plan, b) && DoneIn(plan, list[..|list|], done)
    ensures forall v | InSuccessor(plan, b, v) && IsPhi(plan.p1, v) :: v in done
  {
    assert list[..|list|] == list;
  }

  lemma PhiOpsTouch(plan: Plan, w: Walk, v: nat, ops: seq<nat>)
    requires IsPhi(plan.p1, v) && v in w.body.insts
    ensures Touches(plan, w, w.(body := WithOps(w.body, v, ops)), {}) &&
      OnlyBody(w, w.(body := WithOps(w.body, v, ops)))
  {
  }

  lemma NextIsFresh(plan: Plan, w0: Walk, w: Walk, b: nat, met: seq<nat>, above: set<nat>, n: nat)
    requires n < |ListOf(plan.p1, b)| && Visiting(plan, w0, w, b, met, above, n)
    ensures IsFresh(plan, w, ListOf(plan.p1, b)[n]) && Good(plan, w)
    ensures StacksAre(plan.tauOf, w.stacks, met + ListOf(plan.p1, b)[..n])
  {
  }

  lemma LeaveStarts(plan: Plan, w: Walk, b: nat, met: seq<nat>)
    requires Good(plan, w) && ListOf(w.body, b) == ListOf(plan.p1, b)
    ensures Leaving(plan, w, w, b, met, w.stacks.Keys)
  {
  }

  lemma KeysGrow(plan: Plan, w: Walk, w': Walk, blocks: set<nat>)
    requires Touches(plan, w, w', blocks)
    ensures w.stacks.Keys <= w'.stacks.Keys
  {
  }

  lemma RootReady(plan: Plan, w: Walk, t: DomTree, above: set<nat>)
    requires AllFresh(plan, w, BlocksOf(t)) && t.block in BlocksOf(t) && IsDominated(plan, t, above)
    ensures BlockFresh(plan, w, t.block) && DominatedIn(plan, t.block, above + PhisOf(plan, t.block))
  {
  }

  /** All instructions of the block have been met. */
  lemma BlockMet(plan: Plan, w0: Walk, w: Walk, b: nat, met: seq<nat>, above: set<nat>)
    requires Visiting(plan, w0, w, b, met, above, |ListOf(plan.p1, b)|)
    ensures Good(plan, w) && StacksAre(plan.tauOf, w.stacks, met + ListOf(plan.p1, b)) && Touches(plan, w0, w, {b})
    ensures above + PhisOf(plan, b) <= w.stacks.Keys && HasTauIs(plan, w, b, ListOf(plan.p1, b)) &&
      ListOf(w.body, b) == ListOf(plan.p1, b)
    ensures BlockNamed(plan, w.body, b, met)
  {
    var list := ListOf(plan.p1, b);
    assert list[..|list|] == list;
    hide Good, StacksAre, Touches, HasTauIs, IsNamed;
  }

  /** The incoming values have been updated. */
  lemma BodyChanged(plan: Plan, w1: Walk, w2: Walk, b: nat, met: seq<nat>)
    requires IsInserted(plan) && OnlyBody(w1, w2) && Touches(plan, w1, w2, {})
    requires HasTauIs(plan, w1, b, ListOf(plan.p1, b)) && ListOf(w1.body, b) == ListOf(plan.p1, b) &&
      BlockNamed(plan, w1.body, b, met)
    ensures HasTauIs(plan, w2, b, ListOf(plan.p1, b)) && ListOf(w2.body, b) == ListOf(plan.p1, b) &&
      BlockNamed(plan, w2.body, b, met)
    ensures w2.stacks == w1.stacks
  {
    TouchedKeepsOthers(plan, w1, w2, {}, {b});
    BlockStaysNamed(plan, w1.body, w2.body, b, met);
  }

  lemma BlockStaysNamed(plan: Plan, body: Body, body': Body, b: nat, met: seq<nat>)
    requires BlockNamed(plan, body, b, met) && SameOthers(plan, body, body', {b})
    ensures BlockNamed(plan, body', b, met)
  {
    var list := ListOf(plan.p1, b);
    forall n | 0 <= n < |list| && Rank(plan.p1, list[n]) >= 1
      ensures IsNamed(plan, body', met + list[..n], list[n])
    {
      InBlock(plan, b, list[n]);
      assert SameOrErased(plan, body, body', list[n]);
    }
  }

  lemma ChildrenReady(plan: Plan, w0: Walk, w: Walk, t: DomTree, above: set<nat>)
    requires IsInserted(plan) && IsTree(t) && IsDominated(plan, t, above) && AllFresh(plan, w0, BlocksOf(t)) &&
      Touches(plan, w0, w, {t.block})
    ensures forall i | 0 <= i < |t.children| ::
      IsDominated(plan, t.children[i], above + PhisOf(plan, t.block)) && AllFresh(plan, w, BlocksOf(t.children[i]))
  {
    hide IsInserted, IsTree, Touches, BlockFresh, BlocksOf, PhisOf;
    forall i | 0 <= i < |t.children|
      ensures AllFresh(plan, w, BlocksOf(t.children[i]))
    {
      ChildFacts(t, i, {});
      FreshStays(plan, w0, w, {t.block}, BlocksOf(t.children[i]));
    }
  }

  /** Walking the blocks below leaves the block ready to be left. */
  lemma AfterChildren(plan: Plan, w1: Walk, w2: Walk, w3: Walk, t: DomTree, met: seq<nat>)
    requires IsInserted(plan) && Touches(plan, w2, w3, BlocksOf(t) - {t.block})
    requires HasTauIs(plan, w2, t.block, ListOf(plan.p1, t.block)) &&
      ListOf(w2.body, t.block) == ListOf(plan.p1, t.block) && BlockNamed(plan, w2.body, t.block, met)
    ensures HasTauIs(plan, w3, t.block, ListOf(plan.p1, t.block)) &&
      ListOf(w3.body, t.block) == ListOf(plan.p1, t.block) && BlockNamed(plan, w3.body, t.block, met)
  {
    TouchedKeepsOthers(plan, w2, w3, BlocksOf(t) - {t.block}, {t.block});
    BlockStaysNamed(plan, w2.body, w3.body, t.block, met);
    assert ListTouched(w2, w3, t.block);
  }

  lemma TreeNamed(plan: Plan, t: DomTree, met: seq<nat>, body: Body)
    requires BlockNamed(plan, body, t.block, met) &&
      forall i | 0 <= i < |t.children| :: AllNamed(plan, t.children[i], met + ListOf(plan.p1, t.block), body)
    ensures AllNamed(plan, t, met, body)
  {
  }
}
