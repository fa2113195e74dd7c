/** Function bodies with tau instructions, and their removal by TDSTRPass (src/TDestruction.cpp). */
module TauForm {

  /** A phi knows the block each operand comes from. */
  datatype Kind = Phi(from: seq<nat>) | Tau | Other

  /** Operands name values; constants and arguments have names that no instruction has. */
  datatype Inst = Inst(kind: Kind, ops: seq<nat>)

  /** The instructions of every block in order. */
  datatype Body = Body(lists: map<nat, seq<nat>>, insts: map<nat, Inst>)

  function ListOf(p: Body, b: nat): seq<nat> {
    if b in p.lists then p.lists[b] else []
  }

  /** The phi a tau was inserted for; any other value stands for itself. */
  function Root(tauOf: map<nat, nat>, v: nat): nat {
    if v in tauOf then tauOf[v] else v
  }

  function WithoutTaus(s: seq<nat>, tauOf: map<nat, nat>): seq<nat> {
    if s == [] then [] else (if s[0] in tauOf then [] else [s[0]]) + WithoutTaus(s[1..], tauOf)
  }

  function Without(s: seq<nat>, v: nat): seq<nat> {
    if s == [] then [] else (if s[0] == v then [] else [s[0]]) + Without(s[1..], v)
  }

  ghost predicate SameUpToTaus(tauOf: map<nat, nat>, i0: Inst, i: Inst) {
    i.kind == i0.kind && |i.ops| == |i0.ops| && forall k | 0 <= k < |i0.ops| :: Root(tauOf, i.ops[k]) == i0.ops[k]
  }

  ghost predicate IsTauInst(tauOf: map<nat, nat>, v: nat, i: Inst) {
    v in tauOf && i.kind == Tau && i.ops != [] && Root(tauOf, i.ops[0]) == tauOf[v]
  }

  /** Every tau used is still there. */
  ghost predicate OpsLive(p: Body, tauOf: map<nat, nat>, i: Inst) {
    forall k | 0 <= k < |i.ops| && i.ops[k] in tauOf :: i.ops[k] in p.insts
  }

  ghost predicate TauFree(p0: Body, tauOf: map<nat, nat>) {
    forall v | v in p0.insts :: v !in tauOf && p0.insts[v].kind != Tau &&
      forall k | 0 <= k < |p0.insts[v].ops| :: p0.insts[v].ops[k] !in tauOf
  }

  ghost predicate ListOk(p0: Body, p: Body, tauOf: map<nat, nat>, b: nat) {
    WithoutTaus(ListOf(p, b), tauOf) == ListOf(p0, b) && forall v | v in ListOf(p, b) :: v in p.insts
  }

  ghost predicate InstOk(p0: Body, p: Body, tauOf: map<nat, nat>, v: nat)
    requires v in p.insts
  {
    && OpsLive(p, tauOf, p.insts[v])
    && if v in p0.insts then SameUpToTaus(tauOf, p0.insts[v], p.insts[v])
         else IsTauInst(tauOf, v, p.insts[v]) && exists b :: v in ListOf(p, b)
  }

  ghost predicate NoRepeats(p: Body) {
    forall b, i, j | 0 <= i < j < |ListOf(p, b)| :: ListOf(p, b)[i] != ListOf(p, b)[j]
  }

  /** p is p0 with taus added, and operands replaced by taus for the same phi. */
  ghost predicate IsExpansion(p0: Body, p: Body, tauOf: map<nat, nat>) {
    && TauFree(p0, tauOf) && NoRepeats(p) && p.lists.Keys == p0.lists.Keys && p0.insts.Keys <= p.insts.Keys
    && (forall v | v in p.insts :: InstOk(p0, p, tauOf, v))
    && (forall b :: ListOk(p0, p, tauOf, b))
    && (forall b, c, v | v in ListOf(p, b) && v in ListOf(p, c) :: b == c)
  }

  /** Following operand 0 from tau to tau ends. */
  ghost predicate IsAcyclic(p: Body, tauOf: map<nat, nat>, dep: map<nat, nat>) {
    forall v | v in p.insts && p.insts[v].kind == Tau :: ChainFalls(tauOf, dep, v, p.insts[v])
  }

  function Depth(dep: map<nat, nat>, v: nat): nat {
    if v in dep then dep[v] + 1 else 0
  }

  ghost predicate ChainFalls(tauOf: map<nat, nat>, dep: map<nat, nat>, v: nat, i: Inst) {
    i.ops != [] && (i.ops[0] in tauOf ==> Depth(dep, i.ops[0]) < Depth(dep, v))
  }

  // ----- replacing and erasing -----

  function Subst(ops: seq<nat>, x: nat, y: nat): (r: seq<nat>)
    ensures |r| == |ops|
  {
    seq(|ops|, k requires 0 <= k < |ops| => if ops[k] == x then y else ops[k])
  }

  /** replaceAllUsesWith */
  function ReplaceAll(p: Body, x: nat, y: nat): Body {
    p.(insts := map v | v in p.insts :: p.insts[v].(ops := Subst(p.insts[v].ops, x, y)))
  }

  /** eraseFromParent */
  function Erase(p: Body, b: nat, x: nat): Body {
    p.(lists := if b in p.lists then p.lists[b := Without(p.lists[b], x)] else p.lists, insts := p.insts - {x})
  }

  lemma {:induction false} WithoutMembers(s: seq<nat>, x: nat, v: nat)
    ensures v in Without(s, x) <==> v in s && v != x
  {
    if s != [] {
      WithoutMembers(s[1..], x, v);
      assert s == [s[0]] + s[1..];
    }
  }

  lemma {:induction false} WithoutKeepsDistinct(s: seq<nat>, x: nat)
    requires forall i, j | 0 <= i < j < |s| :: s[i] != s[j]
    ensures forall i, j | 0 <= i < j < |Without(s, x)| :: Without(s, x)[i] != Without(s, x)[j]
  {
    if s != [] {
      WithoutKeepsDistinct(s[1..], x);
      WithoutMembers(s[1..], x, s[0]);
      assert s[0] !in s[1..];
      var rest := Without(s[1..], x);
      forall j | 0 <= j < |rest|
        ensures rest[j] != s[0]
      {
        assert rest[j] in rest;
      }
    }
  }

  lemma {:induction false} WithoutTausMembers(s: seq<nat>, tauOf: map<nat, nat>, v: nat)
    ensures v in WithoutTaus(s, tauOf) <==> v in s && v !in tauOf
  {
    if s != [] {
      WithoutTausMembers(s[1..], tauOf, v);
      assert s == [s[0]] + s[1..];
    }
  }

  lemma {:induction false} WithoutTau(s: seq<nat>, tauOf: map<nat, nat>, x: nat)
    requires x in tauOf
    ensures WithoutTaus(Without(s, x), tauOf) == WithoutTaus(s, tauOf)
  {
    if s != [] {
      WithoutTau(s[1..], tauOf, x);
      if s[0] != x {
        assert Without(s, x)[1..] == Without(s[1..], x);
      } else {
        assert Without(s, x) == Without(s[1..], x);
      }
    }
  }

  lemma {:induction false} NothingWithout(s: seq<nat>, tauOf: map<nat, nat>)
    requires forall v | v in s :: v !in tauOf
    ensures WithoutTaus(s, tauOf) == s
  {
    if s != [] {
      assert s[0] in s && forall v | v in s[1..] :: v in s;
      NothingWithout(s[1..], tauOf);
    }
  }

  /** Erasing an unused tau leaves an expansion. */
  lemma EraseUnused(p0: Body, p: Body, tauOf: map<nat, nat>, b: nat, x: nat)
    requires IsExpansion(p0, p, tauOf) && x in tauOf && x in ListOf(p, b)
    requires forall v, k | v in p.insts && 0 <= k < |p.insts[v].ops| && v != x :: p.insts[v].ops[k] != x
    ensures IsExpansion(p0, Erase(p, b, x), tauOf)
  {
    var p' := Erase(p, b, x);
    forall c, v
      ensures v in ListOf(p', c) <==> v in ListOf(p, c) && v != x
    {
      if c == b {
        WithoutMembers(ListOf(p, b), x, v);
      } else {
        assert x !in ListOf(p, c);
      }
    }
    assert NoRepeats(p') by {
      WithoutKeepsDistinct(ListOf(p, b), x);
      assert forall c | c != b :: ListOf(p', c) == ListOf(p, c);
    }
    forall v | v in p'.insts
      ensures InstOk(p0, p', tauOf, v)
    {
      assert InstOk(p0, p, tauOf, v);
      if v !in p0.insts {
        var c :| v in ListOf(p, c);
        assert v in ListOf(p', c);
      }
    }
    forall c
      ensures ListOk(p0, p', tauOf, c)
    {
      assert ListOk(p0, p, tauOf, c);
      if c == b {
        WithoutTau(ListOf(p, b), tauOf, x);
      }
    }
  }

  /** Replacing a tau by its operand 0 leaves an expansion in which the tau is unused. */
  lemma ReplaceTau(p0: Body, p: Body, tauOf: map<nat, nat>, dep: map<nat, nat>, x: nat)
    requires IsExpansion(p0, p, tauOf) && IsAcyclic(p, tauOf, dep) && x in p.insts && p.insts[x].kind == Tau
    ensures x in tauOf && p.insts[x].ops != [] && p.insts[x].ops[0] != x
    ensures var p' := ReplaceAll(p, x, p.insts[x].ops[0]);
      && IsExpansion(p0, p', tauOf) && IsAcyclic(p', tauOf, dep)
      && forall v, k | v in p'.insts && 0 <= k < |p'.insts[v].ops| :: p'.insts[v].ops[k] != x
  {
    TauToReplace(p0, p, tauOf, dep, x);
    ReplaceInAll(p0, p, tauOf, dep, x);
    ListsKept(p0, p, ReplaceAll(p, x, p.insts[x].ops[0]), tauOf);
    ReplacedUnused(p, x, p.insts[x].ops[0]);
    hide InstOk, ListOk, TauFree, NoRepeats, IsAcyclic, ListOf;
  }

  lemma ListsKept(p0: Body, p: Body, p': Body, tauOf: map<nat, nat>)
    requires p'.lists == p.lists && p'.insts.Keys == p.insts.Keys && NoRepeats(p)
    requires (forall b :: ListOk(p0, p, tauOf, b)) && forall b, c, v | v in ListOf(p, b) && v in ListOf(p, c) :: b == c
    ensures (forall b :: ListOk(p0, p', tauOf, b)) &&
      (forall b, c, v | v in ListOf(p', b) && v in ListOf(p', c) :: b == c) && NoRepeats(p')
  {
    assert forall b :: ListOf(p', b) == ListOf(p, b);
    hide ListOf;
    forall b
      ensures ListOk(p0, p', tauOf, b)
    {
      assert ListOk(p0, p, tauOf, b);
    }
  }

  lemma ReplacedUnused(p: Body, x: nat, y: nat)
    requires x != y
    ensures var p' := ReplaceAll(p, x, y); forall v, k | v in p'.insts && 0 <= k < |p'.insts[v].ops| ::
      p'.insts[v].ops[k] != x
  {
  }

  lemma TauToReplace(p0: Body, p: Body, tauOf: map<nat, nat>, dep: map<nat, nat>, x: nat)
    requires IsExpansion(p0, p, tauOf) && IsAcyclic(p, tauOf, dep) && x in p.insts && p.insts[x].kind == Tau
    ensures x in tauOf && x !in p0.insts && p.insts[x].ops != [] && p.insts[x].ops[0] != x
    ensures InstOk(p0, p, tauOf, x) && ChainFalls(tauOf, dep, x, p.insts[x])
  {
    assert InstOk(p0, p, tauOf, x) && ChainFalls(tauOf, dep, x, p.insts[x]);
  }

  lemma ReplaceInAll(p0: Body, p: Body, tauOf: map<nat, nat>, dep: map<nat, nat>, x: nat)
    requires x in p.insts && x !in p0.insts && InstOk(p0, p, tauOf, x) && ChainFalls(tauOf, dep, x, p.insts[x])
    requires (forall v | v in p.insts :: InstOk(p0, p, tauOf, v)) && IsAcyclic(p, tauOf, dep)
    ensures var p' := ReplaceAll(p, x, p.insts[x].ops[0]);
      (forall v | v in p'.insts :: InstOk(p0, p', tauOf, v)) && IsAcyclic(p', tauOf, dep)
  {
    hide InstOk, Subst;
    var p' := ReplaceAll(p, x, p.insts[x].ops[0]);
    forall v | v in p'.insts
      ensures InstOk(p0, p', tauOf, v)
      ensures p'.insts[v].kind == Tau ==> ChainFalls(tauOf, dep, v, p'.insts[v])
    {
      ReplaceInOne(p0, p, tauOf, dep, x, v);
    }
  }

  lemma ReplaceInOne(p0: Body, p: Body, tauOf: map<nat, nat>, dep: map<nat, nat>, x: nat, v: nat)
    requires x in p.insts && x !in p0.insts && InstOk(p0, p, tauOf, x) && ChainFalls(tauOf, dep, x, p.insts[x])
    requires v in p.insts && InstOk(p0, p, tauOf, v) &&
      (p.insts[v].kind == Tau ==> ChainFalls(tauOf, dep, v, p.insts[v]))
    ensures var p' := ReplaceAll(p, x, p.insts[x].ops[0]);
      InstOk(p0, p', tauOf, v) && (p'.insts[v].kind == Tau ==> ChainFalls(tauOf, dep, v, p'.insts[v]))
  {
    var y := p.insts[x].ops[0];
    var p' := ReplaceAll(p, x, y);
    var ops, ops' := p.insts[v].ops, p'.insts[v].ops;
    assert Root(tauOf, y) == Root(tauOf, x);
    forall k | 0 <= k < |ops|
      ensures Root(tauOf, ops'[k]) == Root(tauOf, ops[k])
      ensures ops'[k] in tauOf ==> ops'[k] in p'.insts
    {
    }
    if v !in p0.insts {
      var b :| v in ListOf(p, b);
      assert v in ListOf(p', b);
    }
  }

  // ----- destruction -----

  /** The taus of the body, in any order, each with its block. */
  ghost predicate AreTheTaus(p: Body, order: seq<(nat, nat)>) {
    && (forall i | 0 <= i < |order| :: IsTauOf(p, order[i].0, order[i].1))
    && (forall i, j | 0 <= i < j < |order| :: order[i].1 != order[j].1)
    && (forall b: nat, v: nat | IsTauOf(p, b, v) :: (b, v) in order)
  }

  predicate IsTauOf(p: Body, b: nat, v: nat) {
    v in ListOf(p, b) && v in p.insts && p.insts[v].kind == Tau
  }

  ghost predicate AreTausOf(p: Body, b: nat, list: seq<nat>, taus: seq<(nat, nat)>) {
    && (forall i | 0 <= i < |taus| :: taus[i].0 == b && taus[i].1 in list && IsTauOf(p, b, taus[i].1))
    && (forall i, j | 0 <= i < j < |taus| :: taus[i].1 != taus[j].1)
    && (forall v: nat | v in list && IsTauOf(p, b, v) :: (b, v) in taus)
  }

  /** The taus of one block. */
  method CollectBlock(p: Body, b: nat) returns (taus: seq<(nat, nat)>)
    requires NoRepeats(p) && forall v | v in ListOf(p, b) :: v in p.insts
    ensures AreTausOf(p, b, ListOf(p, b), taus)
  {
    var list := ListOf(p, b);
    taus := [];
    var i := 0;
    while i < |list|
      invariant 0 <= i <= |list| && AreTausOf(p, b, list[..i], taus)
    {
      assert list[i] in ListOf(p, b);
      assert list[..i + 1] == list[..i] + [list[i]];
      if p.insts[list[i]].kind == Tau {
        assert list[i] !in list[..i];
        taus := taus + [(b, list[i])];
      }
      i := i + 1;
    }
    assert list[..i] == list;
  }

  /** The taus of some blocks. */
  ghost predicate AreTausOfBlocks(p: Body, blocks: seq<nat>, taus: seq<(nat, nat)>) {
    && (forall i | 0 <= i < |taus| :: taus[i].0 in blocks && IsTauOf(p, taus[i].0, taus[i].1))
    && (forall i, j | 0 <= i < j < |taus| :: taus[i].1 != taus[j].1)
    && (forall b: nat, v: nat | b in blocks && IsTauOf(p, b, v) :: (b, v) in taus)
  }

  lemma TausOfNextBlock(p: Body, blocks: seq<nat>, b: nat, taus: seq<(nat, nat)>, more: seq<(nat, nat)>)
    requires AreTausOfBlocks(p, blocks, taus) && AreTausOf(p, b, ListOf(p, b), more) && b !in blocks
    requires forall c, v | v in ListOf(p, b) && v in ListOf(p, c) :: b == c
    ensures AreTausOfBlocks(p, blocks + [b], taus + more)
  {
    forall i, j | 0 <= i < |taus| && 0 <= j < |more|
      ensures taus[i].1 != more[j].1
    {
      assert taus[i].1 in ListOf(p, taus[i].0);
    }
  }

  /** The taus block by block. */
  method CollectTaus(p: Body, blocks: seq<nat>) returns (toBeRemoved: seq<(nat, nat)>)
    requires NoRepeats(p) && (forall b, c, v | v in ListOf(p, b) && v in ListOf(p, c) :: b == c)
    requires (forall b | b in p.lists :: b in blocks) && (forall i, j | 0 <= i < j < |blocks| :: blocks[i] != blocks[j])
    requires forall b, v | v in ListOf(p, b) :: v in p.insts
    ensures AreTheTaus(p, toBeRemoved)
  {
    toBeRemoved := [];
    var n := 0;
    while n < |blocks|
      invariant 0 <= n <= |blocks| && AreTausOfBlocks(p, blocks[..n], toBeRemoved)
    {
      assert blocks[..n + 1] == blocks[..n] + [blocks[n]];
      var more := CollectBlock(p, blocks[n]);
      TausOfNextBlock(p, blocks[..n], blocks[n], toBeRemoved, more);
      toBeRemoved := toBeRemoved + more;
      n := n + 1;
    }
    assert blocks[..n] == blocks;
  }

  lemma DestroyOne(p0: Body, p: Body, tauOf: map<nat, nat>, dep: map<nat, nat>, order: seq<(nat, nat)>)
    requires IsExpansion(p0, p, tauOf) && IsAcyclic(p, tauOf, dep) && order != [] && AreTheTaus(p, order)
    ensures order[0].1 in p.insts && p.insts[order[0].1].ops != []
    ensures var x := order[0].1; var p' := Erase(ReplaceAll(p, x, p.insts[x].ops[0]), order[0].0, x);
      IsExpansion(p0, p', tauOf) && IsAcyclic(p', tauOf, dep) && AreTheTaus(p', order[1..])
  {
    var b, x := order[0].0, order[0].1;
    assert IsTauOf(p, b, x);
    ReplaceTau(p0, p, tauOf, dep, x);
    var r := ReplaceAll(p, x, p.insts[x].ops[0]);
    EraseUnused(p0, r, tauOf, b, x);
    TausAfter(p, r, order, x);
    hide IsExpansion;
  }

  lemma TausAfter(p: Body, r: Body, order: seq<(nat, nat)>, x: nat)
    requires order != [] && AreTheTaus(p, order) && order[0].1 == x && x in p.insts && p.insts[x].ops != []
    requires r == ReplaceAll(p, x, p.insts[x].ops[0])
    ensures AreTheTaus(Erase(r, order[0].0, x), order[1..])
  {
    var b := order[0].0;
    var p' := Erase(r, b, x);
    var rest := order[1..];
    forall c, v
      ensures v in ListOf(p', c) <==> if c == b then v in ListOf(p, c) && v != x else v in ListOf(p, c)
    {
      if c == b {
        WithoutMembers(ListOf(p, b), x, v);
      }
    }
    forall i | 0 <= i < |rest|
      ensures IsTauOf(p', rest[i].0, rest[i].1)
    {
      assert rest[i] == order[i + 1] && IsTauOf(p, order[i + 1].0, order[i + 1].1);
    }
    forall c: nat, v: nat | IsTauOf(p', c, v)
      ensures (c, v) in rest
    {
      assert IsTauOf(p, c, v);
      assert (c, v) in order && v != x;
      assert order == [order[0]] + rest;
    }
  }

  /** Without taus an expansion is the body it came from. */
  lemma NoTausLeft(p0: Body, p: Body, tauOf: map<nat, nat>)
    requires IsExpansion(p0, p, tauOf) && AreTheTaus(p, [])
    ensures p == p0
  {
    forall v | v in p.insts
      ensures v in p0.insts && p.insts[v] == p0.insts[v]
    {
      assert InstOk(p0, p, tauOf, v);
      if v !in p0.insts {
        var b :| v in ListOf(p, b);
        assert IsTauOf(p, b, v);
      }
      forall k | 0 <= k < |p.insts[v].ops|
        ensures p.insts[v].ops[k] == p0.insts[v].ops[k]
      {
        TauNotLive(p0, p, tauOf, p.insts[v].ops[k]);
      }
      assert p.insts[v].ops == p0.insts[v].ops;
    }
    assert p.insts == p0.insts;
    forall b | b in p.lists
      ensures p.lists[b] == p0.lists[b]
    {
      assert ListOk(p0, p, tauOf, b);
      forall v | v in ListOf(p, b)
        ensures v !in tauOf
      {
        TauNotLive(p0, p, tauOf, v);
      }
      NothingWithout(p.lists[b], tauOf);
    }
    assert p.lists == p0.lists;
  }

  lemma TauNotLive(p0: Body, p: Body, tauOf: map<nat, nat>, v: nat)
    requires IsExpansion(p0, p, tauOf) && AreTheTaus(p, [])
    ensures v in p.insts ==> v !in tauOf
  {
    if v in p.insts && v in tauOf {
      assert v !in p0.insts && InstOk(p0, p, tauOf, v);
      var b :| v in ListOf(p, b);
      assert IsTauOf(p, b, v);
    }
  }

  /** Replaces the taus one after the other, in whatever order they come, each by its operand 0 at that time. What is
      left is the body before any tau was inserted. */
  method DestroyTaus(p: Body, toBeRemoved: seq<(nat, nat)>, ghost p0: Body, ghost tauOf: map<nat, nat>,
                     ghost dep: map<nat, nat>) returns (r: Body)
    requires IsExpansion(p0, p, tauOf) && IsAcyclic(p, tauOf, dep) && AreTheTaus(p, toBeRemoved)
    ensures r == p0
  {
    hide IsExpansion, IsAcyclic, AreTheTaus;
    r := p;
    var i := 0;
    assert toBeRemoved[0..] == toBeRemoved;
    while i < |toBeRemoved|
      invariant 0 <= i <= |toBeRemoved|
      invariant IsExpansion(p0, r, tauOf) && IsAcyclic(r, tauOf, dep) && AreTheTaus(r, toBeRemoved[i..])
    {
      DestroyOne(p0, r, tauOf, dep, toBeRemoved[i..]);
      var b, x := toBeRemoved[i].0, toBeRemoved[i].1;
      r := Erase(ReplaceAll(r, x, r.insts[x].ops[0]), b, x);
      i := i + 1;
    }
    NoTausLeft(p0, r, tauOf);
  }
}
