/** The dominator tree over which src/HPSSA_new.cpp and Search walk. */
module DominatorTree {

  /** The dominator tree; the children of a block in topological order. */
  datatype DomTree = Node(block: nat, children: seq<DomTree>)

  function BlocksOf(t: DomTree): set<nat> {
    {t.block} + set i: nat, b: nat | i < |t.children| && b in BlocksOf(t.children[i]) :: b
  }

  /** No block occurs twice. */
  ghost predicate IsTree(t: DomTree) {
    && (forall i | 0 <= i < |t.children| :: IsTree(t.children[i]) && t.block !in BlocksOf(t.children[i]))
    && forall i, j | 0 <= i < j < |t.children| :: BlocksOf(t.children[i]) !! BlocksOf(t.children[j])
  }

  lemma RootFacts(t: DomTree)
    ensures t.block in BlocksOf(t)
  {
  }

  lemma ChildFacts(t: DomTree, i: nat, path: set<nat>)
    requires IsTree(t) && i < |t.children| && BlocksOf(t) !! path
    ensures IsTree(t.children[i]) && BlocksOf(t.children[i]) <= BlocksOf(t) - {t.block} &&
      BlocksOf(t.children[i]) !! path + {t.block}
    ensures t.block in BlocksOf(t)
  {
    assert forall b | b in BlocksOf(t.children[i]) :: b in BlocksOf(t);
  }

  lemma ChildrenDisjoint(t: DomTree, i: nat, j: nat)
    requires IsTree(t) && i < j < |t.children|
    ensures BlocksOf(t.children[i]) !! BlocksOf(t.children[j])
  {
  }

  lemma ChildWith(t: DomTree, b: nat) returns (k: nat)
    requires b in BlocksOf(t) && b != t.block
    ensures k < |t.children| && b in BlocksOf(t.children[k])
  {
    k :| k < |t.children| && b in BlocksOf(t.children[k]);
  }
}
