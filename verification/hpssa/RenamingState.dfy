/** The state of HPSSAPass::Search (src/HPSSA.cpp, src/HPSSA_new.cpp), which renames the uses of phis to taus, and what
    every step of it keeps. */
module RenamingState {
  import opened TauForm

  /** The body without taus, the same body after taus were inserted, the phi every tau belongs to, and the successors of
      every block. */
  datatype Plan = Plan(p0: Body, p1: Body, tauOf: map<nat, nat>, succs: map<nat, seq<nat>>)

  predicate IsPhi(p: Body, v: nat) {
    v in p.insts && p.insts[v].kind.Phi?
  }

  predicate IsTau(p: Body, v: nat) {
    v in p.insts && p.insts[v].kind == Tau
  }

  function Rank(p: Body, v: nat): nat {
    if IsPhi(p, v) then 0 else if IsTau(p, v) then 1 else 2
  }

  /** In every block phis come first, then taus, at most one for a phi; nothing uses a tau yet. */
  ghost predicate IsInserted(plan: Plan) {
    && IsExpansion(plan.p0, plan.p1, plan.tauOf)
    && (forall b, i, j | 0 <= i < j < |ListOf(plan.p1, b)| ::
         Rank(plan.p1, ListOf(plan.p1, b)[i]) <= Rank(plan.p1, ListOf(plan.p1, b)[j]))
    && (forall b, v, w | v in ListOf(plan.p1, b) && w in ListOf(plan.p1, b) && v in plan.tauOf && w in plan.tauOf &&
         plan.tauOf[v] == plan.tauOf[w] :: v == w)
    && (forall v, k | v in plan.p1.insts && 0 <= k < |plan.p1.insts[v].ops| :: plan.p1.insts[v].ops[k] !in plan.tauOf)
    && (forall v | v in plan.tauOf :: IsPhi(plan.p0, plan.tauOf[v]))
    && (forall v | IsPhi(plan.p0, v) :: |plan.p0.insts[v].kind.from| == |plan.p0.insts[v].ops|)
  }

  /** The body as changed so far; for each phi the taus that may be its current name; the phi every name stands for;
      where taus were met. The depth of a tau counts the taus met before it. */
  datatype Walk = Walk(body: Body, stacks: map<nat, seq<nat>>, stackmap: map<nat, nat>, hasTau: set<(nat, nat)>,
    dep: map<nat, nat>)

  function Last(s: seq<nat>, v: nat): nat {
    if s == [] then v else s[|s| - 1]
  }

  function StackOf(stacks: map<nat, seq<nat>>, v: nat): seq<nat> {
    if v in stacks then stacks[v] else []
  }

  // ----- what every step keeps -----

  ghost predicate StackGood(plan: Plan, w: Walk, phi: nat) {
    var s := StackOf(w.stacks, phi);
    && IsPhi(plan.p0, phi) && s != [] && s[0] == phi
    && (forall i | 1 <= i < |s| :: s[i] in plan.tauOf && plan.tauOf[s[i]] == phi && s[i] in w.dep &&
         s[i] in w.body.insts)
    && (forall i, j | 0 <= i < j < |s| :: s[i] != s[j])
  }

  ghost predicate UsesGood(plan: Plan, w: Walk, v: nat) {
    v in w.body.insts ==> forall k | 0 <= k < |w.body.insts[v].ops| && w.body.insts[v].ops[k] in plan.tauOf ::
      w.body.insts[v].ops[k] in w.dep
  }

  ghost predicate ChainGood(plan: Plan, w: Walk, v: nat) {
    IsTau(w.body, v) ==>
      && w.body.insts[v].ops != []
      && if v in w.dep then
           w.body.insts[v].ops[0] in w.stackmap &&
           (w.body.insts[v].ops[0] in plan.tauOf ==>
             w.body.insts[v].ops[0] in w.dep && w.dep[w.body.insts[v].ops[0]] < w.dep[v])
         else w.body.insts[v].ops[0] !in plan.tauOf
  }

  ghost predicate MapGood(plan: Plan, w: Walk) {
    && w.stacks.Keys <= w.stackmap.Keys && w.dep.Keys <= w.stackmap.Keys && w.dep.Keys <= plan.tauOf.Keys
    && (forall v | v in w.stackmap :: w.stackmap[v] == Root(plan.tauOf, v) && w.stackmap[v] in w.stacks)
    && (forall v | v in w.dep :: w.dep[v] < |w.dep|)
  }

  ghost predicate Good(plan: Plan, w: Walk) {
    IsExpansion(plan.p0, w.body, plan.tauOf) && StacksGood(plan, w) && InstsGood(plan, w) && MapGood(plan, w)
  }

  ghost predicate StacksGood(plan: Plan, w: Walk) {
    forall phi | phi in w.stacks :: StackGood(plan, w, phi)
  }

  ghost predicate InstsGood(plan: Plan, w: Walk) {
    forall v: nat :: UsesGood(plan, w, v) && ChainGood(plan, w, v)
  }

  // ----- changing the operands of one instruction -----

  function WithOps(p: Body, v: nat, ops: seq<nat>): Body
    requires v in p.insts
  {
    p.(insts := p.insts[v := p.insts[v].(ops := ops)])
  }

  /** The new operands stand for the same values as the old, and are no taus but ones already met. */
  ghost predicate SameRoots(plan: Plan, w: Walk, ops: seq<nat>, ops': seq<nat>) {
    && |ops'| == |ops|
    && forall k | 0 <= k < |ops| :: Root(plan.tauOf, ops'[k]) == Root(plan.tauOf, ops[k]) &&
         (ops'[k] in plan.tauOf ==> ops'[k] in w.dep && ops'[k] in w.body.insts)
  }

  lemma ExpansionKept(p0: Body, p: Body, tauOf: map<nat, nat>, v: nat, ops: seq<nat>)
    requires IsExpansion(p0, p, tauOf) && v in p.insts && |ops| == |p.insts[v].ops|
    requires forall k | 0 <= k < |ops| ::
      Root(tauOf, ops[k]) == Root(tauOf, p.insts[v].ops[k]) && (ops[k] in tauOf ==> ops[k] in p.insts)
    ensures IsExpansion(p0, WithOps(p, v, ops), tauOf)
  {
    var p' := WithOps(p, v, ops);
    forall u | u in p'.insts
      ensures InstOk(p0, p', tauOf, u)
    {
      assert InstOk(p0, p, tauOf, u);
      if u !in p0.insts {
        var b :| u in ListOf(p, b);
        assert u in ListOf(p', b);
      }
      if u in p0.insts && u == v {
        forall k | 0 <= k < |p0.insts[v].ops|
          ensures Root(tauOf, p'.insts[v].ops[k]) == p0.insts[v].ops[k]
        {
          assert p0.insts[v].ops[k] !in tauOf;
        }
      }
    }
    forall c
      ensures ListOf(p', c) == ListOf(p, c) && ListOk(p0, p', tauOf, c)
    {
      assert ListOk(p0, p, tauOf, c);
    }
  }

  /** Renaming the operands of an instruction that is not a tau already met. */
  lemma OpsRenamed(plan: Plan, w: Walk, v: nat, ops: seq<nat>)
    requires Good(plan, w) && v in w.body.insts && SameRoots(plan, w, w.body.insts[v].ops, ops) && v !in w.dep
    requires w.body.insts[v].kind != Tau
    ensures Good(plan, w.(body := WithOps(w.body, v, ops)))
  {
    ExpansionKept(plan.p0, w.body, plan.tauOf, v, ops);
    hide IsExpansion, UsesGood, ChainGood, StackGood, SameRoots;
    var w' := w.(body := WithOps(w.body, v, ops));
    forall phi | phi in w'.stacks
      ensures StackGood(plan, w', phi)
    {
      StackStays(plan, w, w', phi);
    }
    forall u: nat
      ensures UsesGood(plan, w', u) && ChainGood(plan, w', u)
    {
      if u == v {
        RenamedInstGood(plan, w, v, ops);
      } else {
        InstStays(plan, w, w', u);
      }
    }
  }

  lemma RenamedInstGood(plan: Plan, w: Walk, v: nat, ops: seq<nat>)
    requires v in w.body.insts && SameRoots(plan, w, w.body.insts[v].ops, ops) && w.body.insts[v].kind != Tau
    ensures var w' := w.(body := WithOps(w.body, v, ops)); UsesGood(plan, w', v) && ChainGood(plan, w', v)
  {
  }

  // ----- the renaming of one instruction -----

  function Renamed(stacks: map<nat, seq<nat>>, ops: seq<nat>): (r: seq<nat>)
    ensures |r| == |ops|
  {
    seq(|ops|, k requires 0 <= k < |ops| => Last(StackOf(stacks, ops[k]), ops[k]))
  }

  lemma TopIsGood(plan: Plan, w: Walk, phi: nat)
    requires Good(plan, w)
    ensures var top := Last(StackOf(w.stacks, phi), phi);
      && Root(plan.tauOf, top) == Root(plan.tauOf, phi) &&
           (top != phi ==> top in w.dep && top in w.body.insts && top in plan.tauOf)
      && (phi in w.stacks ==> top in w.stackmap)
  {
    if phi in w.stacks {
      assert StackGood(plan, w, phi);
      hide IsExpansion;
      assert phi !in plan.tauOf by {
        PhiIsNoTau(plan, w, phi);
      }
    }
  }

  lemma PhiIsNoTau(plan: Plan, w: Walk, v: nat)
    requires IsExpansion(plan.p0, w.body, plan.tauOf) && v in plan.p0.insts
    ensures v !in plan.tauOf && v in w.body.insts && SameUpToTaus(plan.tauOf, plan.p0.insts[v], w.body.insts[v])
  {
    assert InstOk(plan.p0, w.body, plan.tauOf, v);
  }

  lemma TauIsNew(plan: Plan, w: Walk, v: nat)
    requires IsExpansion(plan.p0, w.body, plan.tauOf) && IsTau(w.body, v)
    ensures v !in plan.p0.insts && IsTauInst(plan.tauOf, v, w.body.insts[v])
  {
    assert InstOk(plan.p0, w.body, plan.tauOf, v);
  }

  lemma RenamedHasSameRoots(plan: Plan, w: Walk, v: nat)
    requires Good(plan, w) && v in w.body.insts
    ensures SameRoots(plan, w, w.body.insts[v].ops, Renamed(w.stacks, w.body.insts[v].ops))
  {
    var ops := w.body.insts[v].ops;
    assert UsesGood(plan, w, v);
    forall k | 0 <= k < |ops|
      ensures Root(plan.tauOf, Renamed(w.stacks, ops)[k]) == Root(plan.tauOf, ops[k])
      ensures Renamed(w.stacks, ops)[k] in plan.tauOf ==>
        Renamed(w.stacks, ops)[k] in w.dep && Renamed(w.stacks, ops)[k] in w.body.insts
    {
      TopIsGood(plan, w, ops[k]);
      OperandLive(plan, w, v, k);
      hide Good;
    }
  }

  lemma OperandLive(plan: Plan, w: Walk, v: nat, k: nat)
    requires IsExpansion(plan.p0, w.body, plan.tauOf) && v in w.body.insts && k < |w.body.insts[v].ops|
    ensures w.body.insts[v].ops[k] in plan.tauOf ==> w.body.insts[v].ops[k] in w.body.insts
  {
    assert InstOk(plan.p0, w.body, plan.tauOf, v);
  }

  /** A phi met for the first time is its own current name. */
  function MeetPhi(w: Walk, v: nat): Walk {
    w.(stacks := w.stacks[v := StackOf(w.stacks, v) + [v]], stackmap := w.stackmap[v := v])
  }

  lemma StackStays(plan: Plan, w: Walk, w': Walk, phi: nat)
    requires StackGood(plan, w, phi) && StackOf(w'.stacks, phi) == StackOf(w.stacks, phi)
    requires w.dep.Keys <= w'.dep.Keys && w.body.insts.Keys <= w'.body.insts.Keys
    ensures StackGood(plan, w', phi)
  {
  }

  /** An instruction that is not touched, while more taus may have been met. */
  lemma InstStays(plan: Plan, w: Walk, w': Walk, v: nat)
    requires UsesGood(plan, w, v) && ChainGood(plan, w, v) &&
      (v in w'.body.insts ==> v in w.body.insts && w'.body.insts[v] == w.body.insts[v])
    requires (v in w'.dep <==> v in w.dep) && (forall u | u in w.dep :: u in w'.dep && w'.dep[u] == w.dep[u])
    requires w.stackmap.Keys <= w'.stackmap.Keys
    ensures UsesGood(plan, w', v) && ChainGood(plan, w', v)
  {
  }

  lemma MeetPhiGood(plan: Plan, w: Walk, v: nat)
    requires Good(plan, w) && IsPhi(plan.p0, v) && v !in w.stacks
    ensures Good(plan, MeetPhi(w, v))
  {
    PhiIsNoTau(plan, w, v);
    hide IsExpansion, UsesGood, ChainGood, StackGood, StacksGood;
    StacksAfterPhi(plan, w, v);
    var w' := MeetPhi(w, v);
    forall u: nat
      ensures UsesGood(plan, w', u) && ChainGood(plan, w', u)
    {
      InstStays(plan, w, w', u);
    }
  }

  lemma StacksAfterPhi(plan: Plan, w: Walk, v: nat)
    requires StacksGood(plan, w) && IsPhi(plan.p0, v) && v !in w.stacks
    ensures StacksGood(plan, MeetPhi(w, v))
  {
    hide StackGood;
    var w' := MeetPhi(w, v);
    forall phi | phi in w'.stacks
      ensures StackGood(plan, w', phi)
    {
      if phi != v {
        StackStays(plan, w, w', phi);
      } else {
        NewStackGood(plan, w', v);
      }
    }
  }

  lemma NewStackGood(plan: Plan, w: Walk, v: nat)
    requires IsPhi(plan.p0, v) && StackOf(w.stacks, v) == [v]
    ensures StackGood(plan, w, v)
  {
  }

  /** A tau becomes the current name of its phi. */
  function MeetTau(w: Walk, b: nat, v: nat, phi: nat, ops: seq<nat>): Walk
    requires v in w.body.insts
  {
    Walk(WithOps(w.body, v, ops), w.stacks[phi := StackOf(w.stacks, phi) + [v]], w.stackmap[v := phi],
      w.hasTau + {(b, phi)}, w.dep[v := |w.dep|])
  }

  lemma MeetTauGood(plan: Plan, w: Walk, b: nat, v: nat, ops: seq<nat>)
    requires Good(plan, w) && IsTau(w.body, v) && v !in w.dep && v in plan.tauOf && plan.tauOf[v] in w.stacks
    requires ops == Renamed(w.stacks, w.body.insts[v].ops)
    ensures ops != [] && ops[0] in w.stackmap && w.stackmap[ops[0]] == plan.tauOf[v]
    ensures Good(plan, MeetTau(w, b, v, plan.tauOf[v], ops))
  {
    RenamedHasSameRoots(plan, w, v);
    ExpansionKept(plan.p0, w.body, plan.tauOf, v, ops);
    MetTauFacts(plan, w, v, ops);
    hide IsExpansion, StacksGood, InstsGood, MapGood;
    StacksAfterTau(plan, w, b, v, ops);
    InstsAfterTau(plan, w, b, v, ops);
    MapAfterTau(plan, w, b, v, ops);
  }

  lemma AfterMeetTau(w: Walk, b: nat, v: nat, phi: nat, ops: seq<nat>)
    requires v in w.body.insts
    ensures var w' := MeetTau(w, b, v, phi, ops);
      && w'.body.insts.Keys == w.body.insts.Keys && w'.dep.Keys == w.dep.Keys + {v} &&
           w'.stacks.Keys == w.stacks.Keys + {phi}
      && StackOf(w'.stacks, phi) == StackOf(w.stacks, phi) + [v] &&
           forall p | p != phi :: StackOf(w'.stacks, p) == StackOf(w.stacks, p)
  {
    KeysWith(w.body.insts, v, w.body.insts[v].(ops := ops));
    KeysWith(w.stacks, phi, StackOf(w.stacks, phi) + [v]);
    KeysWith(w.dep, v, |w.dep|);
  }

  lemma KeysWith<T>(m: map<nat, T>, k: nat, x: T)
    ensures m[k := x].Keys == m.Keys + {k}
  {
  }

  lemma StacksAfterTau(plan: Plan, w: Walk, b: nat, v: nat, ops: seq<nat>)
    requires IsExpansion(plan.p0, w.body, plan.tauOf) && StacksGood(plan, w) && v in w.body.insts
    requires v !in w.dep && v in plan.tauOf && plan.tauOf[v] in w.stacks
    ensures StacksGood(plan, MeetTau(w, b, v, plan.tauOf[v], ops))
  {
    hide IsExpansion, StackGood, WithOps, MeetTau;
    var w' := MeetTau(w, b, v, plan.tauOf[v], ops);
    AfterMeetTau(w, b, v, plan.tauOf[v], ops);
    forall p | p in w'.stacks
      ensures StackGood(plan, w', p)
    {
      assert StackGood(plan, w, p);
      if p != plan.tauOf[v] {
        StackStays(plan, w, w', p);
      } else {
        PushedStackGood(plan, w, w', v);
      }
    }
  }

  lemma InstsAfterTau(plan: Plan, w: Walk, b: nat, v: nat, ops: seq<nat>)
    requires InstsGood(plan, w) && MapGood(plan, w) && v in w.body.insts && v !in w.dep && v in plan.tauOf
    requires |ops| == |w.body.insts[v].ops| && SameRoots(plan, w, w.body.insts[v].ops, ops) && ops != [] &&
      ops[0] in w.stackmap
    ensures InstsGood(plan, MeetTau(w, b, v, plan.tauOf[v], ops))
  {
    hide UsesGood, ChainGood, MapGood, SameRoots;
    var w' := MeetTau(w, b, v, plan.tauOf[v], ops);
    forall u: nat
      ensures UsesGood(plan, w', u) && ChainGood(plan, w', u)
    {
      if u == v {
        MetTauGood(plan, w, w', b, v, ops);
      } else {
        InstStays(plan, w, w', u);
      }
    }
  }

  lemma MetTauFacts(plan: Plan, w: Walk, v: nat, ops: seq<nat>)
    requires Good(plan, w) && IsTau(w.body, v) && v !in w.dep && v in plan.tauOf && plan.tauOf[v] in w.stacks
    requires ops == Renamed(w.stacks, w.body.insts[v].ops)
    ensures ops != [] && ops[0] in w.stackmap && w.stackmap[ops[0]] == plan.tauOf[v] &&
      (ops[0] in plan.tauOf ==> ops[0] in w.dep)
  {
    TauIsNew(plan, w, v);
    assert ChainGood(plan, w, v);
    TopIsGood(plan, w, w.body.insts[v].ops[0]);
    hide IsExpansion, StackGood, UsesGood;
  }

  lemma PushedStackGood(plan: Plan, w: Walk, w': Walk, v: nat)
    requires v in plan.tauOf && StackGood(plan, w, plan.tauOf[v]) && v !in w.dep && v in w.body.insts
    requires StackOf(w'.stacks, plan.tauOf[v]) == StackOf(w.stacks, plan.tauOf[v]) + [v]
    requires w'.dep.Keys == w.dep.Keys + {v} && w'.body.insts.Keys == w.body.insts.Keys &&
      IsExpansion(plan.p0, w.body, plan.tauOf)
    ensures StackGood(plan, w', plan.tauOf[v])
  {
    PhiIsNoTau(plan, w, plan.tauOf[v]);
    hide IsExpansion;
  }

  lemma MetTauGood(plan: Plan, w: Walk, w': Walk, b: nat, v: nat, ops: seq<nat>)
    requires MapGood(plan, w) && v in w.body.insts && v !in w.dep && v in plan.tauOf &&
      w' == MeetTau(w, b, v, plan.tauOf[v], ops)
    requires |ops| == |w.body.insts[v].ops| && SameRoots(plan, w, w.body.insts[v].ops, ops) && ops != [] &&
      ops[0] in w.stackmap
    ensures UsesGood(plan, w', v) && ChainGood(plan, w', v)
  {
  }

  lemma MapAfterTau(plan: Plan, w: Walk, b: nat, v: nat, ops: seq<nat>)
    requires MapGood(plan, w) && v in w.body.insts && v !in w.dep && v in plan.tauOf && plan.tauOf[v] in w.stacks
    ensures MapGood(plan, MeetTau(w, b, v, plan.tauOf[v], ops))
  {
    OneMoreKey(w.dep, v, |w.dep|);
  }

  lemma OneMoreKey(m: map<nat, nat>, k: nat, v: nat)
    requires k !in m
    ensures |m[k := v]| == |m| + 1
  {
    assert m[k := v].Keys == m.Keys + {k};
    assert |m[k := v]| == |m[k := v].Keys| && |m| == |m.Keys|;
  }

  // ----- incoming values of phis in successors -----

  /** The current name of what an operand stands for. */
  lemma IncomingRenamed(plan: Plan, w: Walk, v: nat, x: nat)
    requires Good(plan, w) && v in w.body.insts && w.body.insts[v].kind != Tau && v !in w.dep &&
      Root(plan.tauOf, x) in w.stacks
    ensures var phi := Root(plan.tauOf, x);
      Good(plan, w.(body := WithOps(w.body, v, Subst(w.body.insts[v].ops, x, Last(StackOf(w.stacks, phi), phi)))))
  {
    var phi := Root(plan.tauOf, x);
    var ops := w.body.insts[v].ops;
    var ops' := Subst(ops, x, Last(StackOf(w.stacks, phi), phi));
    assert UsesGood(plan, w, v);
    TopIsGood(plan, w, phi);
    RootIsRoot(plan, w, phi);
    forall k | 0 <= k < |ops|
      ensures Root(plan.tauOf, ops'[k]) == Root(plan.tauOf, ops[k])
      ensures ops'[k] in plan.tauOf ==> ops'[k] in w.dep && ops'[k] in w.body.insts
    {
      OperandLive(plan, w, v, k);
    }
    hide Good;
    OpsRenamed(plan, w, v, ops');
  }

  lemma RootIsRoot(plan: Plan, w: Walk, phi: nat)
    requires Good(plan, w) && phi in w.stacks
    ensures phi !in plan.tauOf
  {
    assert StackGood(plan, w, phi);
    PhiIsNoTau(plan, w, phi);
  }

  /** What stackmap holds for the operand 0 of a tau that is used somewhere. */
  lemma UsedTauIsMapped(plan: Plan, w: Walk, v: nat, k: nat)
    requires Good(plan, w) && v in w.body.insts && k < |w.body.insts[v].ops| && IsTau(w.body, w.body.insts[v].ops[k])
    ensures var x := w.body.insts[v].ops[k];
      w.body.insts[x].ops != [] && w.body.insts[x].ops[0] in w.stackmap &&
        w.stackmap[w.body.insts[x].ops[0]] == Root(plan.tauOf, x)
      && Root(plan.tauOf, x) in w.stacks
  {
    var x := w.body.insts[v].ops[k];
    TauIsNew(plan, w, x);
    assert UsesGood(plan, w, v) && ChainGood(plan, w, x);
    hide IsExpansion;
  }

  // ----- leaving a block -----

  ghost predicate IsUsed(p: Body, v: nat) {
    exists u :: u in p.insts && v in p.insts[u].ops
  }

  /** Pops the tau of the block, and drops the tau if nothing uses it. */
  ghost function PopTau(w: Walk, b: nat, phi: nat): Walk
    requires phi in w.stacks && |w.stacks[phi]| > 1
  {
    var s := w.stacks[phi];
    var tau := s[|s| - 1];
    w.(body := if IsUsed(w.body, tau) then w.body else Erase(w.body, b, tau), stacks := w.stacks[phi := s[..|s| - 1]])
  }

  lemma PopTauGood(plan: Plan, w: Walk, b: nat, phi: nat)
    requires Good(plan, w) && phi in w.stacks && |w.stacks[phi]| > 1 &&
      w.stacks[phi][|w.stacks[phi]| - 1] in ListOf(w.body, b)
    ensures Good(plan, PopTau(w, b, phi))
  {
    var tau := w.stacks[phi][|w.stacks[phi]| - 1];
    assert StackGood(plan, w, phi);
    if !IsUsed(w.body, tau) {
      assert forall v, k | v in w.body.insts && 0 <= k < |w.body.insts[v].ops| ::
        w.body.insts[v].ops[k] in w.body.insts[v].ops;
      EraseUnused(plan.p0, w.body, plan.tauOf, b, tau);
    }
    PhiIsNoTau(plan, w, phi);
    hide IsExpansion, StacksGood, InstsGood;
    StacksAfterPop(plan, w, b, phi);
    InstsAfterPop(plan, w, b, phi);
  }

  lemma StacksAfterPop(plan: Plan, w: Walk, b: nat, phi: nat)
    requires IsExpansion(plan.p0, w.body, plan.tauOf) && StacksGood(plan, w) && phi in w.stacks &&
      |w.stacks[phi]| > 1 && phi !in plan.tauOf
    ensures StacksGood(plan, PopTau(w, b, phi))
  {
    hide IsExpansion, StackGood;
    var w' := PopTau(w, b, phi);
    forall p | p in w'.stacks
      ensures StackGood(plan, w', p)
    {
      OtherStack(plan, w, phi, p);
      PoppedStackGood(plan, w, w', phi, p);
    }
  }

  lemma InstsAfterPop(plan: Plan, w: Walk, b: nat, phi: nat)
    requires InstsGood(plan, w) && phi in w.stacks && |w.stacks[phi]| > 1
    ensures InstsGood(plan, PopTau(w, b, phi))
  {
    hide UsesGood, ChainGood;
    var w' := PopTau(w, b, phi);
    forall u: nat
      ensures UsesGood(plan, w', u) && ChainGood(plan, w', u)
    {
      InstStays(plan, w, w', u);
    }
  }

  /** The top of one stack is on no other. */
  lemma OtherStack(plan: Plan, w: Walk, phi: nat, p: nat)
    requires StackGood(plan, w, phi) && |StackOf(w.stacks, phi)| > 1 && StackGood(plan, w, p) && phi !in plan.tauOf
    requires IsExpansion(plan.p0, w.body, plan.tauOf)
    ensures var s := StackOf(w.stacks, phi); p != phi ==> s[|s| - 1] !in StackOf(w.stacks, p)
  {
    PhiIsNoTau(plan, w, p);
    hide IsExpansion;
  }

  lemma PoppedStackGood(plan: Plan, w: Walk, w': Walk, phi: nat, p: nat)
    requires StackGood(plan, w, phi) && |StackOf(w.stacks, phi)| > 1 && StackGood(plan, w, p)
    requires p != phi ==> StackOf(w.stacks, phi)[|StackOf(w.stacks, phi)| - 1] !in StackOf(w.stacks, p)
    requires StackOf(w'.stacks, p) == if p == phi then StackOf(w.stacks, phi)[..|StackOf(w.stacks, phi)| - 1]
      else StackOf(w.stacks, p)
    requires w.body.insts.Keys - {StackOf(w.stacks, phi)[|StackOf(w.stacks, phi)| - 1]} <= w'.body.insts.Keys &&
      w'.dep == w.dep
    ensures StackGood(plan, w', p)
  {
  }

  /** At the end operand 0 leads from every tau to its phi. */
  lemma GoodIsAcyclic(plan: Plan, w: Walk)
    requires Good(plan, w)
    ensures IsExpansion(plan.p0, w.body, plan.tauOf) && IsAcyclic(w.body, plan.tauOf, w.dep)
  {
    hide IsExpansion, StacksGood, MapGood;
    forall v | v in w.body.insts && w.body.insts[v].kind == Tau
      ensures ChainFalls(plan.tauOf, w.dep, v, w.body.insts[v])
    {
      assert ChainGood(plan, w, v);
    }
  }

  // ----- the stacks along a path of the dominator tree -----

  /** The taus for a phi among the instructions met, in order. */
  function TausFor(tauOf: map<nat, nat>, met: seq<nat>, phi: nat): seq<nat> {
    if met == [] then [] else
      var v := met[|met| - 1];
      TausFor(tauOf, met[..|met| - 1], phi) + if v in tauOf && tauOf[v] == phi then [v] else []
  }

  /** Every stack holds the phi and then its taus met on the way here; a phi not met yet has none. */
  ghost predicate StacksAre(tauOf: map<nat, nat>, stacks: map<nat, seq<nat>>, met: seq<nat>) {
    forall phi: nat :: StackIs(tauOf, stacks, met, phi)
  }

  ghost predicate StackIs(tauOf: map<nat, nat>, stacks: map<nat, seq<nat>>, met: seq<nat>, phi: nat) {
    if phi in stacks then stacks[phi] == [phi] + TausFor(tauOf, met, phi) else TausFor(tauOf, met, phi) == []
  }

  /** The name of a value where these instructions were met last: its latest tau, or itself. */
  function NameOf(tauOf: map<nat, nat>, met: seq<nat>, v: nat): nat {
    Last(TausFor(tauOf, met, v), v)
  }

  /** The name is the tau met last that stands for v, and v itself when none does. */
  lemma {:induction false} NameIsLatest(tauOf: map<nat, nat>, met: seq<nat>, v: nat)
    ensures (forall i | 0 <= i < |met| :: !(met[i] in tauOf && tauOf[met[i]] == v)) ==> NameOf(tauOf, met, v) == v
    ensures forall i | 0 <= i < |met| && met[i] in tauOf && tauOf[met[i]] == v &&
      (forall j | i < j < |met| :: !(met[j] in tauOf && tauOf[met[j]] == v)) :: NameOf(tauOf, met, v) == met[i]
  {
    if met != [] {
      var init, u := met[..|met| - 1], met[|met| - 1];
      NameIsLatest(tauOf, init, v);
      assert met == init + [u];
      TausForStep(tauOf, init, u, v);
      hide TausFor;
      assert forall i | 0 <= i < |init| :: met[i] == init[i];
      if !(u in tauOf && tauOf[u] == v) {
        assert NameOf(tauOf, met, v) == NameOf(tauOf, init, v);
      }
    }
  }

  lemma TopIsName(tauOf: map<nat, nat>, stacks: map<nat, seq<nat>>, met: seq<nat>, v: nat)
    requires StacksAre(tauOf, stacks, met)
    ensures Last(StackOf(stacks, v), v) == NameOf(tauOf, met, v)
  {
    assert StackIs(tauOf, stacks, met, v);
  }

  lemma TausForStep(tauOf: map<nat, nat>, met: seq<nat>, v: nat, phi: nat)
    ensures TausFor(tauOf, met + [v], phi) == TausFor(tauOf, met, phi) + if v in tauOf && tauOf[v] == phi then [v]
      else []
  {
    assert (met + [v])[..|met|] == met;
  }

  lemma {:induction false} TausForAppend(tauOf: map<nat, nat>, a: seq<nat>, b: seq<nat>, phi: nat)
    ensures TausFor(tauOf, a + b, phi) == TausFor(tauOf, a, phi) + TausFor(tauOf, b, phi)
    decreases |b|
  {
    if b == [] {
      assert a + b == a;
    } else {
      var v, rest := b[|b| - 1], b[..|b| - 1];
      assert a + b == a + rest + [v] && b == rest + [v];
      TausForStep(tauOf, a + rest, v, phi);
      TausForAppend(tauOf, a, rest, phi);
    }
  }

  lemma MetPhi(tauOf: map<nat, nat>, stacks: map<nat, seq<nat>>, met: seq<nat>, v: nat)
    requires StacksAre(tauOf, stacks, met) && v !in tauOf && v !in stacks
    ensures StacksAre(tauOf, stacks[v := StackOf(stacks, v) + [v]], met + [v])
  {
    hide TausFor;
    var stacks' := stacks[v := StackOf(stacks, v) + [v]];
    forall phi: nat
      ensures StackIs(tauOf, stacks', met + [v], phi)
    {
      TausForStep(tauOf, met, v, phi);
      assert StackIs(tauOf, stacks, met, phi);
    }
  }

  lemma MetTau(tauOf: map<nat, nat>, stacks: map<nat, seq<nat>>, met: seq<nat>, v: nat)
    requires StacksAre(tauOf, stacks, met) && v in tauOf && tauOf[v] in stacks
    ensures StacksAre(tauOf, stacks[tauOf[v] := StackOf(stacks, tauOf[v]) + [v]], met + [v])
  {
    hide TausFor;
    var stacks' := stacks[tauOf[v] := StackOf(stacks, tauOf[v]) + [v]];
    forall phi: nat
      ensures StackIs(tauOf, stacks', met + [v], phi)
    {
      TausForStep(tauOf, met, v, phi);
      assert StackIs(tauOf, stacks, met, phi);
    }
  }

  lemma MetOther(tauOf: map<nat, nat>, stacks: map<nat, seq<nat>>, met: seq<nat>, v: nat)
    requires StacksAre(tauOf, stacks, met) && v !in tauOf
    ensures StacksAre(tauOf, stacks, met + [v])
  {
    hide TausFor;
    forall phi: nat
      ensures StackIs(tauOf, stacks, met + [v], phi)
    {
      TausForStep(tauOf, met, v, phi);
      assert StackIs(tauOf, stacks, met, phi);
    }
  }

  lemma {:induction false} TausForMembers(tauOf: map<nat, nat>, met: seq<nat>, phi: nat)
    ensures forall v :: v in TausFor(tauOf, met, phi) <==> v in met && v in tauOf && tauOf[v] == phi
  {
    if met != [] {
      assert met == met[..|met| - 1] + [met[|met| - 1]];
      TausForMembers(tauOf, met[..|met| - 1], phi);
    }
  }

  /** With one tau for a phi in the list, the list adds just that one. */
  lemma {:induction false} AtMostOne(tauOf: map<nat, nat>, list: seq<nat>, phi: nat)
    requires forall i, j | 0 <= i < j < |list| :: list[i] != list[j]
    requires forall v, w | v in list && w in list && v in tauOf && w in tauOf && tauOf[v] == tauOf[w] :: v == w
    ensures |TausFor(tauOf, list, phi)| <= 1
  {
    if list != [] {
      var rest, last := list[..|list| - 1], list[|list| - 1];
      assert list == rest + [last];
      assert last !in rest;
      AtMostOne(tauOf, rest, phi);
      TausForMembers(tauOf, rest, phi);
      if TausFor(tauOf, rest, phi) != [] {
        assert TausFor(tauOf, rest, phi)[0] in TausFor(tauOf, rest, phi);
      }
    }
  }
}
