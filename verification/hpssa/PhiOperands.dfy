/** What Search (src/HPSSA.cpp, src/HPSSA_new.cpp) does to the operands of phis. The value a phi takes from a block is
    replaced, when that block is left, wherever the phi uses it; so operands that started as the same value stay the
    same, and all take the name found in the block walked last. */
module PhiOperands {
  import opened TauForm
  import opened RenamingState
  import opened DominatorTree

  function SuccsOf(plan: Plan, b: nat): seq<nat> {
    if b in plan.succs then plan.succs[b] else []
  }

  /** Position k is the first at which the phi takes a value from block b. */
  predicate IsIncoming(from: seq<nat>, b: nat, k: nat) {
    k < |from| && from[k] == b && forall j | 0 <= j < k :: from[j] != b
  }

  /** The phi stands in a successor of b, and position k is where it takes the value from b. */
  predicate Passes(plan: Plan, b: nat, v: nat, k: nat) {
    && InSuccessor(plan, b, v)
    && IsPhi(plan.p1, v) && IsIncoming(plan.p1.insts[v].kind.from, b, k) && k < |plan.p1.insts[v].ops|
  }

  predicate InSuccessor(plan: Plan, b: nat, v: nat) {
    exists i | 0 <= i < |SuccsOf(plan, b)| :: v in ListOf(plan.p1, SuccsOf(plan, b)[i])
  }

  // ----- what has been met in every block -----

  /** The instructions met on the way to each block and in it. */
  type Met = map<nat, seq<nat>>

  ghost predicate Follows(plan: Plan, t: DomTree, met: seq<nat>, at: Met) {
    && t.block in at && at[t.block] == met + ListOf(plan.p1, t.block)
    && forall i | 0 <= i < |t.children| :: Follows(plan, t.children[i], at[t.block], at)
  }

  /** What is met above a block is met above all its predecessors, or in them: the tree is the dominator tree of the
      graph. */
  ghost predicate FitsEdges(plan: Plan, at: Met) {
    forall b, s | b in at && s in at && s in SuccsOf(plan, b) ::
      |ListOf(plan.p1, s)| <= |at[s]| && at[s][..|at[s]| - |ListOf(plan.p1, s)|] <= at[b]
  }

  ghost function MetAt(plan: Plan, t: DomTree, met: seq<nat>, b: nat): seq<nat>
    requires b in BlocksOf(t)
    decreases t
  {
    var here := met + ListOf(plan.p1, t.block);
    if b == t.block then here
    else
      var k :| 0 <= k < |t.children| && b in BlocksOf(t.children[k]);
      MetAt(plan, t.children[k], here, b)
  }

  ghost function MetIn(plan: Plan, t: DomTree): Met {
    map b | b in BlocksOf(t) :: MetAt(plan, t, [], b)
  }

  lemma {:induction false} MetFollows(plan: Plan, t: DomTree, met: seq<nat>, at: Met)
    requires IsTree(t) && forall b | b in BlocksOf(t) :: b in at && at[b] == MetAt(plan, t, met, b)
    ensures Follows(plan, t, met, at)
  {
    RootFacts(t);
    var here := met + ListOf(plan.p1, t.block);
    forall i | 0 <= i < |t.children|
      ensures Follows(plan, t.children[i], here, at)
    {
      ChildFacts(t, i, {});
      forall b | b in BlocksOf(t.children[i])
        ensures b in at && at[b] == MetAt(plan, t.children[i], here, b)
      {
        ChildMet(plan, t, met, i, b);
      }
      MetFollows(plan, t.children[i], here, at);
    }
  }

  lemma ChildMet(plan: Plan, t: DomTree, met: seq<nat>, i: nat, b: nat)
    requires IsTree(t) && i < |t.children| && b in BlocksOf(t.children[i])
    ensures b in BlocksOf(t) && b != t.block
    ensures MetAt(plan, t, met, b) == MetAt(plan, t.children[i], met + ListOf(plan.p1, t.block), b)
  {
    ChildFacts(t, i, {});
    forall k | 0 <= k < |t.children| && b in BlocksOf(t.children[k])
      ensures k == i
    {
    }
  }

  // ----- the operands of one phi -----

  /** Operands that were the same value are the same value. */
  ghost predicate IsUniform(ops0: seq<nat>, ops: seq<nat>) {
    |ops| == |ops0| && forall j, k | 0 <= j < |ops0| && 0 <= k < |ops0| && ops0[j] == ops0[k] :: ops[j] == ops[k]
  }

  /** Operand k has the name that an operand that was the same value has in the block it comes from. */
  ghost predicate IsNameFrom(plan: Plan, at: Met, walked: set<nat>, v: nat, k: nat, name: nat) {
    exists c, j: nat :: IsNameAt(plan, at, walked, v, k, name, c, j)
  }

  ghost predicate IsNameAt(plan: Plan, at: Met, walked: set<nat>, v: nat, k: nat, name: nat, c: nat, j: nat) {
    && c in walked && c in at && Passes(plan, c, v, j) && k < |plan.p1.insts[v].ops|
    && plan.p1.insts[v].ops[j] == plan.p1.insts[v].ops[k]
    && name == NameOf(plan.tauOf, at[c], plan.p1.insts[v].ops[k])
  }

  ghost predicate SlotsOk(plan: Plan, at: Met, body: Body, walked: set<nat>, v: nat) {
    IsPhi(plan.p1, v) ==>
      && v in body.insts && IsUniform(plan.p1.insts[v].ops, body.insts[v].ops)
      && forall b: nat, k: nat :: SlotOk(plan, at, body, walked, v, b, k)
  }

  ghost predicate SlotOk(plan: Plan, at: Met, body: Body, walked: set<nat>, v: nat, b: nat, k: nat) {
    b in walked && Passes(plan, b, v, k) ==>
      v in body.insts && k < |body.insts[v].ops| && IsNameFrom(plan, at, walked, v, k, body.insts[v].ops[k])
  }

  ghost predicate AllSlotsOk(plan: Plan, at: Met, body: Body, walked: set<nat>) {
    forall v :: SlotsOk(plan, at, body, walked, v)
  }

  /** What Search keeps, when the tree is the dominator tree. */
  ghost predicate Slots(plan: Plan, at: Met, body: Body, walked: set<nat>) {
    FitsEdges(plan, at) ==> AllSlotsOk(plan, at, body, walked)
  }

  /** While b is being left, the phis in `done` have been updated. */
  ghost predicate SlotsDone(plan: Plan, at: Met, body: Body, walked: set<nat>, b: nat, done: set<nat>) {
    FitsEdges(plan, at) ==> forall v :: SlotsOk(plan, at, body, if v in done then walked + {b} else walked, v)
  }

  lemma NothingPassed(plan: Plan, at: Met)
    ensures Slots(plan, at, plan.p1, {})
  {
  }

  /** A phi that stays the same. */
  lemma SlotsKept(plan: Plan, at: Met, body: Body, body': Body, walked: set<nat>, v: nat)
    requires SlotsOk(plan, at, body, walked, v)
    requires IsPhi(plan.p1, v) ==> v in body'.insts && (v in body.insts ==> body'.insts[v] == body.insts[v])
    ensures SlotsOk(plan, at, body', walked, v)
  {
    hide Passes, IsNameFrom;
    if IsPhi(plan.p1, v) {
      forall b: nat, k: nat
        ensures SlotOk(plan, at, body', walked, v, b, k)
      {
        assert SlotOk(plan, at, body, walked, v, b, k);
      }
    }
  }

  /** A block that passes the phi nothing. */
  lemma NothingFrom(plan: Plan, at: Met, body: Body, walked: set<nat>, b: nat, v: nat)
    requires SlotsOk(plan, at, body, walked, v) && forall k: nat :: !Passes(plan, b, v, k)
    ensures SlotsOk(plan, at, body, walked + {b}, v)
  {
    if IsPhi(plan.p1, v) {
      forall c: nat, k: nat
        ensures SlotOk(plan, at, body, walked + {b}, v, c, k)
      {
        if c in walked && Passes(plan, c, v, k) {
          assert SlotOk(plan, at, body, walked, v, c, k);
          NameStays(plan, at, walked, b, v, k, body.insts[v].ops[k]);
        }
      }
    }
  }

  /** Once the value from b has been replaced wherever the phi uses it, the slots are right for b as well. */
  lemma SlotReplaced(plan: Plan, at: Met, body: Body, walked: set<nat>, b: nat, v: nat, k: nat, name: nat)
    requires SlotsOk(plan, at, body, walked, v) && Passes(plan, b, v, k) && b in at
    requires forall j | 0 <= j < |plan.p1.insts[v].ops| && v in body.insts && j < |body.insts[v].ops| ::
      Root(plan.tauOf, body.insts[v].ops[j]) == plan.p1.insts[v].ops[j]
    requires name == NameOf(plan.tauOf, at[b], plan.p1.insts[v].ops[k])
    ensures v in body.insts && k < |body.insts[v].ops|
    ensures SlotsOk(plan, at, WithOps(body, v, Subst(body.insts[v].ops, body.insts[v].ops[k], name)), walked + {b}, v)
  {
    PassesFacts(plan, b, v, k);
    var ops0, ops := plan.p1.insts[v].ops, body.insts[v].ops;
    var body' := WithOps(body, v, Subst(ops, ops[k], name));
    ReplacedUniformly(plan.tauOf, ops0, ops, k, name);
    hide Subst, NameOf, Root, Passes, IsUniform, IsNameFrom;
    forall c: nat, j: nat
      ensures SlotOk(plan, at, body', walked + {b}, v, c, j)
    {
      if c in walked + {b} && Passes(plan, c, v, j) {
        PassesFacts(plan, c, v, j);
        if ops0[j] == ops0[k] {
          NameIsNew(plan, at, walked, b, v, k, j, name);
        } else {
          assert c != b && SlotOk(plan, at, body, walked, v, c, j);
          NameStays(plan, at, walked, b, v, j, ops[j]);
        }
      }
    }
  }

  lemma PassesFacts(plan: Plan, b: nat, v: nat, k: nat)
    requires Passes(plan, b, v, k)
    ensures IsPhi(plan.p1, v) && IsIncoming(plan.p1.insts[v].kind.from, b, k) && k < |plan.p1.insts[v].ops|
  {
  }

  lemma ReplacedUniformly(tauOf: map<nat, nat>, ops0: seq<nat>, ops: seq<nat>, k: nat, name: nat)
    requires k < |ops0| && IsUniform(ops0, ops) && forall j | 0 <= j < |ops0| :: Root(tauOf, ops[j]) == ops0[j]
    ensures var ops' := Subst(ops, ops[k], name);
      IsUniform(ops0, ops') && forall j | 0 <= j < |ops0| :: ops'[j] == if ops0[j] == ops0[k] then name else ops[j]
  {
  }

  lemma NameIsNew(plan: Plan, at: Met, walked: set<nat>, b: nat, v: nat, k: nat, j: nat, name: nat)
    requires Passes(plan, b, v, k) && b in at && j < |plan.p1.insts[v].ops| &&
      plan.p1.insts[v].ops[j] == plan.p1.insts[v].ops[k]
    requires name == NameOf(plan.tauOf, at[b], plan.p1.insts[v].ops[k])
    ensures IsNameFrom(plan, at, walked + {b}, v, j, name)
  {
    assert IsNameAt(plan, at, walked + {b}, v, j, name, b, k);
  }

  lemma NameStays(plan: Plan, at: Met, walked: set<nat>, b: nat, v: nat, k: nat, name: nat)
    requires IsNameFrom(plan, at, walked, v, k, name)
    ensures IsNameFrom(plan, at, walked + {b}, v, k, name)
  {
    var c, j: nat :| IsNameAt(plan, at, walked, v, k, name, c, j);
    assert IsNameAt(plan, at, walked + {b}, v, k, name, c, j);
  }

  /** Renaming the phi itself, when it is met, changes none of its operands from blocks already left. */
  lemma SlotsRenamed(plan: Plan, at: Met, body: Body, walked: set<nat>, v: nat, stacks: map<nat, seq<nat>>,
                     above: seq<nat>)
    requires SlotsOk(plan, at, body, walked, v) && IsPhi(plan.p1, v) && v in body.insts
    requires StacksAre(plan.tauOf, stacks, above)
    requires forall j | 0 <= j < |plan.p1.insts[v].ops| && j < |body.insts[v].ops| ::
      Root(plan.tauOf, body.insts[v].ops[j]) == plan.p1.insts[v].ops[j]
    requires forall phi | phi in stacks :: phi !in plan.tauOf
    requires forall c, j: nat | c in walked && c in at && Passes(plan, c, v, j) :: above <= at[c]
    ensures SlotsOk(plan, at, WithOps(body, v, Renamed(stacks, body.insts[v].ops)), walked, v)
  {
    var ops0, ops := plan.p1.insts[v].ops, body.insts[v].ops;
    var ops' := Renamed(stacks, ops);
    var body' := WithOps(body, v, ops');
    hide NameOf, StacksAre;
    forall b: nat, k: nat
      ensures SlotOk(plan, at, body', walked, v, b, k)
    {
      if b in walked && Passes(plan, b, v, k) {
        PassesFacts(plan, b, v, k);
        assert SlotOk(plan, at, body, walked, v, b, k);
        var c, j: nat :| IsNameAt(plan, at, walked, v, k, ops[k], c, j);
        if ops[k] in stacks {
          NoNameAbove(plan.tauOf, above, at[c], ops0[k]);
          TopIsName(plan.tauOf, stacks, above, ops[k]);
        }
        assert IsNameAt(plan, at, walked, v, k, ops'[k], c, j);
      }
    }
  }

  /** A value that is its own name has no tau, further up neither. */
  lemma NoNameAbove(tauOf: map<nat, nat>, above: seq<nat>, met: seq<nat>, x: nat)
    requires above <= met && NameOf(tauOf, met, x) == x && x !in tauOf
    ensures NameOf(tauOf, above, x) == x
  {
    assert met == above + met[|above|..];
    TausForAppend(tauOf, above, met[|above|..], x);
    LatestIsTau(tauOf, met, x);
  }

  lemma LatestIsTau(tauOf: map<nat, nat>, met: seq<nat>, x: nat)
    ensures TausFor(tauOf, met, x) != [] ==> NameOf(tauOf, met, x) in tauOf
  {
    var taus := TausFor(tauOf, met, x);
    TausForMembers(tauOf, met, x);
    if taus != [] {
      assert taus[|taus| - 1] in taus;
    }
  }

  // ----- when the operands are right -----

  /** Every operand is the name of its value in the block it comes from. */
  ghost predicate HasRightNames(plan: Plan, at: Met, body: Body, walked: set<nat>, v: nat)
    requires IsPhi(plan.p1, v) && v in body.insts && |body.insts[v].ops| == |plan.p1.insts[v].ops|
    requires walked <= at.Keys
  {
    forall b, k: nat | b in walked && Passes(plan, b, v, k) ::
      body.insts[v].ops[k] == NameOf(plan.tauOf, at[b], plan.p1.insts[v].ops[k])
  }

  /** A value the phi takes from two blocks has the same name in both. */
  ghost predicate NamesAgree(plan: Plan, at: Met, walked: set<nat>, v: nat)
    requires IsPhi(plan.p1, v) && walked <= at.Keys
  {
    forall b, c, j: nat, k: nat | b in walked && c in walked && Passes(plan, b, v, j) && Passes(plan, c, v, k) &&
      plan.p1.insts[v].ops[j] == plan.p1.insts[v].ops[k] ::
        NameOf(plan.tauOf, at[b], plan.p1.insts[v].ops[j]) == NameOf(plan.tauOf, at[c], plan.p1.insts[v].ops[k])
  }

  lemma AgreeingIsRight(plan: Plan, at: Met, body: Body, walked: set<nat>, v: nat, b: nat, k: nat)
    requires IsPhi(plan.p1, v) && walked <= at.Keys && SlotsOk(plan, at, body, walked, v)
    requires NamesAgree(plan, at, walked, v) && b in walked && Passes(plan, b, v, k)
    ensures v in body.insts && k < |body.insts[v].ops| && k < |plan.p1.insts[v].ops|
    ensures body.insts[v].ops[k] == NameOf(plan.tauOf, at[b], plan.p1.insts[v].ops[k])
  {
    PassesFacts(plan, b, v, k);
    SlotHasName(plan, at, body, walked, v, b, k);
    hide Passes, NameOf, SlotsOk;
    var c, j: nat :| IsNameAt(plan, at, walked, v, k, body.insts[v].ops[k], c, j);
  }

  lemma SlotHasName(plan: Plan, at: Met, body: Body, walked: set<nat>, v: nat, b: nat, k: nat)
    requires IsPhi(plan.p1, v) && SlotsOk(plan, at, body, walked, v) && b in walked && Passes(plan, b, v, k)
    ensures v in body.insts && IsUniform(plan.p1.insts[v].ops, body.insts[v].ops)
    ensures k < |body.insts[v].ops| && IsNameFrom(plan, at, walked, v, k, body.insts[v].ops[k])
  {
    hide IsNameFrom, Passes;
    assert SlotOk(plan, at, body, walked, v, b, k);
  }

  lemma RightIsAgreeing(plan: Plan, at: Met, body: Body, walked: set<nat>, v: nat, b: nat, c: nat, j: nat, k: nat)
    requires IsPhi(plan.p1, v) && walked <= at.Keys && v in body.insts
    requires IsUniform(plan.p1.insts[v].ops, body.insts[v].ops) && HasRightNames(plan, at, body, walked, v)
    requires b in walked && c in walked && Passes(plan, b, v, j) && Passes(plan, c, v, k)
    ensures j < |plan.p1.insts[v].ops| && k < |plan.p1.insts[v].ops|
    ensures plan.p1.insts[v].ops[j] == plan.p1.insts[v].ops[k] ==>
      NameOf(plan.tauOf, at[b], plan.p1.insts[v].ops[j]) == NameOf(plan.tauOf, at[c], plan.p1.insts[v].ops[k])
  {
    PassesFacts(plan, b, v, j);
    PassesFacts(plan, c, v, k);
    hide Passes, NameOf;
  }

  /** The operands of a phi are right exactly when no value it takes from two blocks has different names there. */
  lemma RightNamesIff(plan: Plan, at: Met, body: Body, walked: set<nat>, v: nat)
    requires IsPhi(plan.p1, v) && walked <= at.Keys && SlotsOk(plan, at, body, walked, v)
    ensures v in body.insts && |body.insts[v].ops| == |plan.p1.insts[v].ops|
    ensures HasRightNames(plan, at, body, walked, v) <==> NamesAgree(plan, at, walked, v)
  {
    assert v in body.insts && IsUniform(plan.p1.insts[v].ops, body.insts[v].ops);
    hide Passes, NameOf, SlotsOk;
    if NamesAgree(plan, at, walked, v) {
      hide NamesAgree;
      forall b, k: nat | b in walked && Passes(plan, b, v, k)
        ensures k < |plan.p1.insts[v].ops|
        ensures body.insts[v].ops[k] == NameOf(plan.tauOf, at[b], plan.p1.insts[v].ops[k])
      {
        AgreeingIsRight(plan, at, body, walked, v, b, k);
      }
    }
    if HasRightNames(plan, at, body, walked, v) {
      hide HasRightNames;
      forall b, c, j: nat, k: nat | b in walked && c in walked && Passes(plan, b, v, j) && Passes(plan, c, v, k)
        ensures j < |plan.p1.insts[v].ops| && k < |plan.p1.insts[v].ops|
        ensures plan.p1.insts[v].ops[j] == plan.p1.insts[v].ops[k] ==>
          NameOf(plan.tauOf, at[b], plan.p1.insts[v].ops[j]) == NameOf(plan.tauOf, at[c], plan.p1.insts[v].ops[k])
      {
        RightIsAgreeing(plan, at, body, walked, v, b, c, j, k);
      }
    }
  }
}
