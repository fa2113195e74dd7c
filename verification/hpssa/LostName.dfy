/** A program on which Search (src/HPSSA.cpp, src/HPSSA_new.cpp) leaves a phi with a wrong operand. */
module LostName {
  import opened TauForm
  import opened RenamingState
  import opened DominatorTree
  import opened PhiOperands
  import opened TauRoundTrip

  /** Block 1 defines phi 10; blocks 2 and 3 are a loop below it, whose phi 11 takes 10 from both 1 and 3. */
  const LOOP := Body(
    map[0 := [], 1 := [10], 2 := [11], 3 := []],
    map[10 := Inst(Phi([0]), [100]), 11 := Inst(Phi([1, 3]), [10, 10])])

  const LOOP_SUCCS: map<nat, seq<nat>> := map[0 := [1], 1 := [2], 2 := [3], 3 := [2]]

  const LATCH := Node(3, [])
  const HEADER := Node(2, [LATCH])
  const ABOVE := Node(1, [HEADER])
  const LOOP_TREE := Node(0, [ABOVE])

  /** Tau 20 for phi 10 goes into block 3 only. */
  const TAU_IN_LATCH := [Request(20, 10, 3, [])]

  lemma LoopLists(b: nat)
    ensures ListOf(LOOP, b) == if b == 1 then [10] else if b == 2 then [11] else []
  {
  }

  lemma LoopIsProgram()
    ensures IsProgram(LOOP)
  {
    forall b: nat
      ensures |ListOf(LOOP, b)| <= 1
      ensures forall v | v in ListOf(LOOP, b) :: (v == 10 && b == 1) || (v == 11 && b == 2)
    {
      LoopLists(b);
    }
    hide ListOf;
  }

  lemma LoopRequests()
    ensures AreRequests(LOOP, TAU_IN_LATCH)
  {
    assert LOOP.insts.Keys == {10, 11};
  }

  // ----- the tree -----

  lemma OneBelow(b: nat, c: DomTree)
    requires IsTree(c) && b !in BlocksOf(c)
    ensures IsTree(Node(b, [c])) && BlocksOf(Node(b, [c])) == {b} + BlocksOf(c)
  {
    var t := Node(b, [c]);
    assert t.children[0] == c;
    forall x
      ensures x in BlocksOf(t) <==> x == b || x in BlocksOf(c)
    {
      if x in BlocksOf(t) && x != b {
        var i := ChildWith(t, x);
      }
      if x in BlocksOf(c) {
        assert x in BlocksOf(t.children[0]);
      }
    }
  }

  lemma LatchTree()
    ensures IsTree(LATCH) && BlocksOf(LATCH) == {3}
  {
  }

  lemma LoopTree()
    ensures IsTree(LOOP_TREE) && BlocksOf(LOOP_TREE) == {0, 1, 2, 3}
  {
    LatchTree();
    hide IsTree, BlocksOf;
    OneBelow(2, LATCH);
    OneBelow(1, HEADER);
    OneBelow(0, ABOVE);
  }

  lemma BlockDominated(t: DomTree, above: set<nat>)
    requires t.block == 1 || t.block == 3 ==> 10 in above + ProgramPhis(LOOP, t.block)
    requires forall i | 0 <= i < |t.children| ::
      RequestsDominated(LOOP, TAU_IN_LATCH, t.children[i], above + ProgramPhis(LOOP, t.block))
    ensures RequestsDominated(LOOP, TAU_IN_LATCH, t, above)
  {
  }

  lemma LoopDominated()
    ensures RequestsDominated(LOOP, TAU_IN_LATCH, LOOP_TREE, {})
  {
    LoopLists(1);
    var at1 := {} + ProgramPhis(LOOP, 0);
    var at2 := at1 + ProgramPhis(LOOP, 1);
    var at3 := at2 + ProgramPhis(LOOP, 2);
    assert 10 in ProgramPhis(LOOP, 1);
    hide RequestsDominated, ProgramPhis;
    BlockDominated(LATCH, at3);
    BlockDominated(HEADER, at2);
    BlockDominated(ABOVE, at1);
    BlockDominated(LOOP_TREE, {});
  }

  // ----- the names -----

  /** The lists after insertion: the tau stands in the latch, and the others have not changed. */
  lemma LoopInserted(plan: Plan, b: nat)
    requires plan.p0 == LOOP && HasInserted(plan, TAU_IN_LATCH, 1)
    ensures plan.tauOf == map[20 := 10]
    ensures ListOf(plan.p1, b) == if b == 3 then [20] else ListOf(LOOP, b)
  {
    var list := ListOf(plan.p1, b);
    assert CarriedOut(plan, TAU_IN_LATCH[0]);
    forall v | v in plan.tauOf
      ensures v == 20
    {
      assert IsOf(TAU_IN_LATCH, 1, v, plan.tauOf[v]);
    }
    assert plan.tauOf.Keys == {20};
    assert ListOk(plan.p0, plan.p1, plan.tauOf, b);
    LoopLists(b);
    forall v | v in list && v in plan.tauOf
      ensures b == 3
    {
      TauInLatch(plan, b, v);
    }
    if b == 3 {
      forall v | v in list
        ensures v == 20
      {
        WithoutTausMembers(list, plan.tauOf, v);
      }
      OnlyOne(list, 20);
    } else {
      NothingWithout(list, plan.tauOf);
    }
  }

  lemma OnlyOne(list: seq<nat>, x: nat)
    requires x in list && (forall v | v in list :: v == x) && forall i, j | 0 <= i < j < |list| :: list[i] != list[j]
    ensures list == [x]
  {
    SameTwice(list, x);
  }

  lemma SameTwice(list: seq<nat>, x: nat)
    requires forall v | v in list :: v == x
    ensures |list| >= 2 ==> list[0] == list[1]
  {
    if |list| >= 2 {
      assert list[0] in list && list[1] in list;
    }
  }

  lemma TauInLatch(plan: Plan, b: nat, v: nat)
    requires HasInserted(plan, TAU_IN_LATCH, 1) && v in ListOf(plan.p1, b) && v in plan.tauOf
    ensures b == 3
  {
    assert StandsIn(TAU_IN_LATCH, 1, v, b);
  }

  /** What has been met, block by block. */
  lemma LoopMet(plan: Plan, at: Met)
    requires plan.p0 == LOOP && HasInserted(plan, TAU_IN_LATCH, 1) && Follows(plan, LOOP_TREE, [], at)
    ensures 0 in at && at[0] == [] && 1 in at && at[1] == [10] && 2 in at && at[2] == [10, 11]
    ensures 3 in at && at[3] == [10, 11, 20]
  {
    forall b: nat
      ensures ListOf(plan.p1, b) == if b == 3 then [20] else ListOf(LOOP, b)
    {
      LoopInserted(plan, b);
    }
    hide HasInserted, ListOf;
    LoopLists(0);
    LoopLists(1);
    LoopLists(2);
    assert Follows(plan, LOOP_TREE.children[0], at[0], at);
    assert Follows(plan, ABOVE.children[0], at[1], at);
    assert Follows(plan, HEADER.children[0], at[2], at);
  }

  lemma LoopFits(plan: Plan, at: Met)
    requires plan.p0 == LOOP && plan.succs == LOOP_SUCCS && HasInserted(plan, TAU_IN_LATCH, 1)
    requires at == map[0 := [], 1 := [10], 2 := [10, 11], 3 := [10, 11, 20]]
    ensures FitsEdges(plan, at)
  {
    forall b, s | b in at && s in at && s in SuccsOf(plan, b)
      ensures |ListOf(plan.p1, s)| <= |at[s]| && at[s][..|at[s]| - |ListOf(plan.p1, s)|] <= at[b]
    {
      LoopInserted(plan, s);
      LoopLists(s);
      hide HasInserted, ListOf;
      LoopEdge(plan, b, s);
    }
  }

  lemma LoopEdge(plan: Plan, b: nat, s: nat)
    requires plan.succs == LOOP_SUCCS && s in SuccsOf(plan, b)
    ensures (b, s) in {(0, 1), (1, 2), (2, 3), (3, 2)}
  {
  }

  /** In block 1 the phi is its own name, in the latch the tau is. */
  lemma LoopNames(tauOf: map<nat, nat>)
    requires tauOf == map[20 := 10]
    ensures NameOf(tauOf, [10], 10) == 10 && NameOf(tauOf, [10, 11, 20], 10) == 20
  {
    NameIsLatest(tauOf, [10], 10);
    NameIsLatest(tauOf, [10, 11, 20], 10);
    assert [10, 11, 20][2] == 20;
  }

  lemma LoopPasses(plan: Plan)
    requires plan.p0 == LOOP && plan.succs == LOOP_SUCCS && HasInserted(plan, TAU_IN_LATCH, 1)
    ensures IsPhi(plan.p1, 11) && plan.p1.insts[11] == LOOP.insts[11]
    ensures Passes(plan, 1, 11, 0) && Passes(plan, 3, 11, 1)
  {
    LoopInserted(plan, 2);
    LoopLists(2);
    assert 11 in plan.p1.insts by {
      assert ListOk(plan.p0, plan.p1, plan.tauOf, 2);
    }
    hide IsInserted, ListOf;
    assert SuccsOf(plan, 1)[0] == 2 && SuccsOf(plan, 3)[0] == 2;
  }

  /** The phi of the loop should take 10 from above and tau 20 from the latch; it does not. */
  method LoseName() returns (p: Body)
    ensures 11 in p.insts && |p.insts[11].ops| == 2 && p.insts[11].ops != [10, 20]
  {
    LoopIsProgram();
    LoopRequests();
    LoopTree();
    LoopDominated();
    ghost var plan, dep;
    p, plan, dep := BuildTauForm(LOOP, TAU_IN_LATCH, LOOP_TREE, LOOP_SUCCS);
    LoopIsWrong(plan, p);
  }

  lemma LoopIsWrong(plan: Plan, p: Body)
    requires plan.p0 == LOOP && plan.succs == LOOP_SUCCS && HasInserted(plan, TAU_IN_LATCH, 1)
    requires Follows(plan, LOOP_TREE, [], MetIn(plan, LOOP_TREE)) && PhisNamedIff(plan, LOOP_TREE, p)
    ensures 11 in p.insts && |p.insts[11].ops| == 2 && p.insts[11].ops != [10, 20]
  {
    hide Follows, FitsEdges, Passes, NameOf, BlocksOf, IsTree, HasInserted, HasRightNames, NamesAgree, MetIn;
    var at := MetIn(plan, LOOP_TREE);
    LoopTree();
    LoopMet(plan, at);
    MetBlocks(plan, LOOP_TREE);
    assert at == map[0 := [], 1 := [10], 2 := [10, 11], 3 := [10, 11, 20]];
    LoopFits(plan, at);
    LoopInserted(plan, 0);
    LoopNames(plan.tauOf);
    LoopPasses(plan);
    assert PhiNamedIff(plan, LOOP_TREE, p, 11);
    NamesDiffer(plan, at, BlocksOf(LOOP_TREE));
    if p.insts[11].ops == [10, 20] {
      RightSlots(plan, at, p, BlocksOf(LOOP_TREE));
    }
  }

  lemma MetBlocks(plan: Plan, t: DomTree)
    ensures MetIn(plan, t).Keys == BlocksOf(t)
  {
  }

  lemma NamesDiffer(plan: Plan, at: Met, walked: set<nat>)
    requires Passes(plan, 1, 11, 0) && Passes(plan, 3, 11, 1) && plan.p1.insts[11] == LOOP.insts[11]
    requires walked <= at.Keys && walked == {0, 1, 2, 3} && at[1] == [10] && at[3] == [10, 11, 20]
    requires NameOf(plan.tauOf, [10], 10) == 10 && NameOf(plan.tauOf, [10, 11, 20], 10) == 20
    ensures IsPhi(plan.p1, 11) && !NamesAgree(plan, at, walked, 11)
  {
    PassesFacts(plan, 1, 11, 0);
    hide NameOf, Passes;
  }

  lemma RightSlots(plan: Plan, at: Met, p: Body, walked: set<nat>)
    requires IsPhi(plan.p1, 11) && 11 in p.insts && plan.p1.insts[11] == LOOP.insts[11] && p.insts[11].ops == [10, 20]
    requires walked <= at.Keys && at.Keys == {0, 1, 2, 3} && at[1] == [10] && at[3] == [10, 11, 20]
    requires NameOf(plan.tauOf, [10], 10) == 10 && NameOf(plan.tauOf, [10, 11, 20], 10) == 20
    ensures HasRightNames(plan, at, p, walked, 11)
  {
    forall b, k: nat | b in walked && Passes(plan, b, 11, k)
      ensures p.insts[11].ops[k] == NameOf(plan.tauOf, at[b], plan.p1.insts[11].ops[k])
    {
      PassesFacts(plan, b, 11, k);
      hide NameOf;
      assert [1, 3][k] == b;
    }
  }
}
