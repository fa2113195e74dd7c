/** Inserting taus, renaming, pruning and destroying them again gives back the program (src/HPSSA.cpp,
    src/TDestruction.cpp). */
module TauRoundTrip {
  import opened TauForm
  import opened RenamingState
  import opened Renaming
  import opened DominatorTree
  import opened PhiOperands

  /** A tau to insert: its name, its phi, its block and its speculative arguments. */
  datatype Request = Request(tau: nat, phi: nat, block: nat, args: seq<nat>)

  /** A program before taus are inserted: phis first in every block, every instruction in one place. */
  ghost predicate IsProgram(p0: Body) {
    && NoRepeats(p0) && (forall b, c, v | v in ListOf(p0, b) && v in ListOf(p0, c) :: b == c)
    && (forall b, v | v in ListOf(p0, b) :: v in p0.insts)
    && (forall v | v in p0.insts :: p0.insts[v].kind != Tau)
    && (forall b, i, j | 0 <= i < j < |ListOf(p0, b)| :: Rank(p0, ListOf(p0, b)[i]) <= Rank(p0, ListOf(p0, b)[j]))
    && (forall v | IsPhi(p0, v) :: |p0.insts[v].kind.from| == |p0.insts[v].ops|)
  }

  ghost predicate IsNew(p: Body, v: nat) {
    v !in p.insts && forall u | u in p.insts :: v !in p.insts[u].ops
  }

  /** Each tau is new and for a phi of the program; its arguments are values of the program; a block gets one for a
      phi. */
  ghost predicate AreRequests(p0: Body, requests: seq<Request>) {
    && (forall i | 0 <= i < |requests| :: IsNew(p0, requests[i].tau) && IsPhi(p0, requests[i].phi) &&
         requests[i].block in p0.lists)
    && (forall i, j | 0 <= i < |requests| && 0 <= j < |requests| ::
         requests[i].tau !in requests[j].args && requests[i].tau != requests[j].phi)
    && (forall i, j | 0 <= i < j < |requests| ::
         requests[i].tau != requests[j].tau && (requests[i].phi, requests[i].block) !=
           (requests[j].phi, requests[j].block))
  }

  // ----- insertion -----

  /** getFirstNonPHI */
  method FirstNonPhi(p: Body, b: nat) returns (i: nat)
    ensures i <= |ListOf(p, b)| && (forall j | 0 <= j < i :: IsPhi(p, ListOf(p, b)[j])) &&
      (i < |ListOf(p, b)| ==> !IsPhi(p, ListOf(p, b)[i]))
  {
    i := 0;
    while i < |ListOf(p, b)| && IsPhi(p, ListOf(p, b)[i])
      invariant i <= |ListOf(p, b)| && forall j | 0 <= j < i :: IsPhi(p, ListOf(p, b)[j])
    {
      i := i + 1;
    }
  }

  function Inserted(p: Body, r: Request, i: nat): Body
    requires r.block in p.lists && i <= |p.lists[r.block]|
  {
    Body(p.lists[r.block := p.lists[r.block][..i] + [r.tau] + p.lists[r.block][i..]],
      p.insts[r.tau := Inst(Tau, [r.phi] + r.args)])
  }

  /** The next tau is new to the body so far, and its block has none for its phi. */
  ghost predicate FitsIn(plan: Plan, r: Request, i: nat) {
    && IsNew(plan.p1, r.tau) && r.tau !in plan.tauOf && r.tau != r.phi && r.tau !in r.args && IsPhi(plan.p0, r.phi)
    && (forall v | v in plan.tauOf :: plan.tauOf[v] != r.tau) && (forall a | a in r.args :: a !in plan.tauOf) &&
         r.phi !in plan.tauOf
    && (forall v | v in ListOf(plan.p1, r.block) && v in plan.tauOf :: plan.tauOf[v] != r.phi)
    && r.block in plan.p1.lists && i <= |plan.p1.lists[r.block]|
    && (forall j | 0 <= j < i :: IsPhi(plan.p1, plan.p1.lists[r.block][j])) &&
         (i < |plan.p1.lists[r.block]| ==> !IsPhi(plan.p1, plan.p1.lists[r.block][i]))
  }

  ghost function WithRequest(plan: Plan, r: Request, i: nat): Plan
    requires r.block in plan.p1.lists && i <= |plan.p1.lists[r.block]|
  {
    Plan(plan.p0, Inserted(plan.p1, r, i), plan.tauOf[r.tau := r.phi], plan.succs)
  }

  lemma {:induction false} WithoutTausAppend(a: seq<nat>, b: seq<nat>, tauOf: map<nat, nat>)
    ensures WithoutTaus(a + b, tauOf) == WithoutTaus(a, tauOf) + WithoutTaus(b, tauOf)
  {
    if a == [] {
      assert a + b == b;
    } else {
      assert (a + b)[1..] == a[1..] + b;
      WithoutTausAppend(a[1..], b, tauOf);
    }
  }

  lemma {:induction false} SameWithoutTaus(s: seq<nat>, tauOf: map<nat, nat>, x: nat, phi: nat)
    requires x !in s
    ensures WithoutTaus(s, tauOf[x := phi]) == WithoutTaus(s, tauOf)
  {
    if s != [] {
      assert s[0] in s && forall v | v in s[1..] :: v in s;
      SameWithoutTaus(s[1..], tauOf, x, phi);
    }
  }

  lemma ListAfterInsert(plan: Plan, r: Request, i: nat)
    requires IsInserted(plan) && FitsIn(plan, r, i)
    ensures var plan' := WithRequest(plan, r, i); forall b :: ListOk(plan'.p0, plan'.p1, plan'.tauOf, b)
  {
    var plan' := WithRequest(plan, r, i);
    hide IsInserted, FitsIn;
    forall b
      ensures ListOk(plan'.p0, plan'.p1, plan'.tauOf, b)
    {
      TauNotListed(plan, r, i, b);
      ListOkAt(plan, r, i, b);
    }
  }

  lemma TauNotListed(plan: Plan, r: Request, i: nat, b: nat)
    requires IsInserted(plan) && FitsIn(plan, r, i)
    ensures r.tau !in ListOf(plan.p1, b) && ListOk(plan.p0, plan.p1, plan.tauOf, b)
    ensures r.block in plan.p1.lists && i <= |plan.p1.lists[r.block]|
  {
    assert ListOk(plan.p0, plan.p1, plan.tauOf, b);
  }

  lemma OneTauAlone(tauOf: map<nat, nat>, v: nat)
    requires v in tauOf
    ensures WithoutTaus([v], tauOf) == []
  {
  }

  lemma ListOkAt(plan: Plan, r: Request, i: nat, b: nat)
    requires r.block in plan.p1.lists && i <= |plan.p1.lists[r.block]| && ListOk(plan.p0, plan.p1, plan.tauOf, b) &&
      r.tau !in ListOf(plan.p1, b)
    ensures var plan' := WithRequest(plan, r, i); ListOk(plan'.p0, plan'.p1, plan'.tauOf, b)
  {
    var tauOf' := plan.tauOf[r.tau := r.phi];
    var list := ListOf(plan.p1, b);
    if b == r.block {
      var a, c := list[..i], list[i..];
      assert list == a + c;
      WithoutTausAppend(a, c, plan.tauOf);
      WithoutTausAppend(a + [r.tau], c, tauOf');
      WithoutTausAppend(a, [r.tau], tauOf');
      SameWithoutTaus(a, plan.tauOf, r.tau, r.phi);
      SameWithoutTaus(c, plan.tauOf, r.tau, r.phi);
      OneTauAlone(tauOf', r.tau);
      hide WithoutTaus;
    } else {
      SameWithoutTaus(list, plan.tauOf, r.tau, r.phi);
    }
  }

  lemma InstAfterInsert(plan: Plan, r: Request, i: nat, v: nat)
    requires IsInserted(plan) && FitsIn(plan, r, i) && v in WithRequest(plan, r, i).p1.insts
    ensures var plan' := WithRequest(plan, r, i); InstOk(plan'.p0, plan'.p1, plan'.tauOf, v)
  {
    var plan' := WithRequest(plan, r, i);
    if v == r.tau {
      var list := plan'.p1.lists[r.block];
      assert list[i] == r.tau;
      assert r.tau in ListOf(plan'.p1, r.block);
    } else {
      assert InstOk(plan.p0, plan.p1, plan.tauOf, v);
      assert forall k | 0 <= k < |plan.p1.insts[v].ops| :: plan.p1.insts[v].ops[k] in plan.p1.insts[v].ops;
      if v !in plan.p0.insts {
        var b :| v in ListOf(plan.p1, b);
        InsertedMembers(plan.p1, r, i, b, v);
        assert v in ListOf(plan'.p1, b);
      }
    }
  }

  lemma InsertedMembers(p: Body, r: Request, i: nat, b: nat, v: nat)
    requires r.block in p.lists && i <= |p.lists[r.block]|
    ensures v in ListOf(Inserted(p, r, i), b) <==> v in ListOf(p, b) || (b == r.block && v == r.tau)
  {
    if b == r.block {
      var list := p.lists[b];
      assert list == list[..i] + list[i..];
    }
  }

  lemma FreshAfterInsert(plan: Plan, r: Request, i: nat)
    requires IsInserted(plan) && FitsIn(plan, r, i)
    ensures var plan' := WithRequest(plan, r, i);
      && TauFree(plan'.p0, plan'.tauOf)
      && (forall v, k | v in plan'.p1.insts && 0 <= k < |plan'.p1.insts[v].ops| ::
           plan'.p1.insts[v].ops[k] !in plan'.tauOf)
      && (forall v | v in plan'.tauOf :: IsPhi(plan'.p0, plan'.tauOf[v]))
  {
    var plan' := WithRequest(plan, r, i);
    forall v, k | v in plan'.p1.insts && 0 <= k < |plan'.p1.insts[v].ops|
      ensures plan'.p1.insts[v].ops[k] !in plan'.tauOf
    {
      assert plan'.p1.insts[v].ops[k] in plan'.p1.insts[v].ops;
    }
    forall v | v in plan.p0.insts
      ensures v !in plan'.tauOf && forall k | 0 <= k < |plan.p0.insts[v].ops| :: plan.p0.insts[v].ops[k] !in plan'.tauOf
    {
      OpsNew(plan, r, v);
    }
  }

  /** A value new to the body is not used in the program either: no tau is used yet. */
  lemma OpsNew(plan: Plan, r: Request, v: nat)
    requires IsInserted(plan) && IsNew(plan.p1, r.tau) && v in plan.p0.insts
    ensures v != r.tau && r.tau !in plan.p0.insts[v].ops
  {
    assert InstOk(plan.p0, plan.p1, plan.tauOf, v);
    var ops0, ops := plan.p0.insts[v].ops, plan.p1.insts[v].ops;
    forall k | 0 <= k < |ops0|
      ensures ops0[k] == ops[k]
    {
      assert Root(plan.tauOf, ops[k]) == ops0[k];
    }
    assert ops0 == ops;
  }

  /** The shape of the lists: phis, taus, the rest; one place for an instruction, one tau of a block for a phi. */
  ghost predicate ListsShaped(plan: Plan) {
    && NoRepeats(plan.p1) && (forall b, c, v | v in ListOf(plan.p1, b) && v in ListOf(plan.p1, c) :: b == c)
    && (forall b, i, j | 0 <= i < j < |ListOf(plan.p1, b)| ::
         Rank(plan.p1, ListOf(plan.p1, b)[i]) <= Rank(plan.p1, ListOf(plan.p1, b)[j]))
    && (forall b, v, w | v in ListOf(plan.p1, b) && w in ListOf(plan.p1, b) && v in plan.tauOf && w in plan.tauOf &&
         plan.tauOf[v] == plan.tauOf[w] :: v == w)
  }

  lemma ShapeAfterInsert(plan: Plan, r: Request, i: nat)
    requires IsInserted(plan) && FitsIn(plan, r, i)
    ensures ListsShaped(WithRequest(plan, r, i))
  {
    var plan' := WithRequest(plan, r, i);
    forall b: nat
      ensures r.tau !in ListOf(plan.p1, b)
    {
      TauNotListed(plan, r, i, b);
    }
    forall b: nat, v: nat
      ensures v in ListOf(plan'.p1, b) <==> v in ListOf(plan.p1, b) || (b == r.block && v == r.tau)
    {
      InsertedMembers(plan.p1, r, i, b, v);
    }
    hide Inserted, IsExpansion, IsNew, ListOf;
    forall b: nat, m, n | 0 <= m < n < |ListOf(plan'.p1, b)|
      ensures ListOf(plan'.p1, b)[m] != ListOf(plan'.p1, b)[n]
      ensures Rank(plan'.p1, ListOf(plan'.p1, b)[m]) <= Rank(plan'.p1, ListOf(plan'.p1, b)[n])
    {
      OrderAfterInsert(plan, r, i, b, m, n);
    }
  }

  /** Where the instructions stand after the insertion. */
  function Place(r: Request, i: nat, b: nat, m: nat): nat {
    if b == r.block && m > i then m - 1 else m
  }

  lemma PlaceIs(plan: Plan, r: Request, i: nat, b: nat, m: nat)
    requires IsInserted(plan) && FitsIn(plan, r, i) && m < |ListOf(Inserted(plan.p1, r, i), b)|
    ensures var p' := Inserted(plan.p1, r, i);
      if b == r.block && m == i then ListOf(p', b)[m] == r.tau && Rank(p', r.tau) == 1
      else Place(r, i, b, m) < |ListOf(plan.p1, b)| && ListOf(p', b)[m] == ListOf(plan.p1, b)[Place(r, i, b, m)]
           && ListOf(p', b)[m] != r.tau && Rank(p', ListOf(p', b)[m]) == Rank(plan.p1, ListOf(p', b)[m])
  {
    hide IsInserted, FitsIn;
    TauNotListed(plan, r, i, b);
    var p' := Inserted(plan.p1, r, i);
    if !(b == r.block && m == i) {
      assert ListOf(p', b)[m] == ListOf(plan.p1, b)[Place(r, i, b, m)];
      assert ListOf(p', b)[m] in ListOf(plan.p1, b);
    }
  }

  lemma OrderAfterInsert(plan: Plan, r: Request, i: nat, b: nat, m: nat, n: nat)
    requires IsInserted(plan) && FitsIn(plan, r, i) && m < n < |ListOf(Inserted(plan.p1, r, i), b)|
    ensures var p' := Inserted(plan.p1, r, i);
      ListOf(p', b)[m] != ListOf(p', b)[n] && Rank(p', ListOf(p', b)[m]) <= Rank(p', ListOf(p', b)[n])
  {
    PlaceIs(plan, r, i, b, m);
    PlaceIs(plan, r, i, b, n);
    if b == r.block && m == i {
      RankFrom(plan, r, b, i, n - 1);
    } else if b == r.block && n == i {
      RankBefore(plan, r, b, i, m);
    } else {
      hide FitsIn, Rank;
      Ordered(plan, b, Place(r, i, b, m), Place(r, i, b, n));
    }
  }

  lemma Ordered(plan: Plan, b: nat, m: nat, n: nat)
    requires IsInserted(plan) && m < n < |ListOf(plan.p1, b)|
    ensures ListOf(plan.p1, b)[m] != ListOf(plan.p1, b)[n] &&
      Rank(plan.p1, ListOf(plan.p1, b)[m]) <= Rank(plan.p1, ListOf(plan.p1, b)[n])
  {
  }

  lemma RankBefore(plan: Plan, r: Request, b: nat, i: nat, m: nat)
    requires FitsIn(plan, r, i) && b == r.block && m < i
    ensures m < |ListOf(plan.p1, b)| && Rank(plan.p1, ListOf(plan.p1, b)[m]) == 0
  {
  }

  lemma RankFrom(plan: Plan, r: Request, b: nat, i: nat, n: nat)
    requires IsInserted(plan) && FitsIn(plan, r, i) && b == r.block && i <= n < |ListOf(plan.p1, b)|
    ensures Rank(plan.p1, ListOf(plan.p1, b)[n]) >= 1
  {
    assert Rank(plan.p1, ListOf(plan.p1, b)[i]) >= 1;
  }

  lemma KindsAfterInsert(plan: Plan, r: Request, i: nat)
    requires IsInserted(plan) && FitsIn(plan, r, i)
    ensures var plan' := WithRequest(plan, r, i);
      && plan'.p1.lists.Keys == plan'.p0.lists.Keys && plan'.p0.insts.Keys <= plan'.p1.insts.Keys
      && forall v | IsPhi(plan'.p0, v) :: |plan'.p0.insts[v].kind.from| == |plan'.p0.insts[v].ops|
  {
  }

  lemma InsertStep(plan: Plan, r: Request, i: nat)
    requires IsInserted(plan) && FitsIn(plan, r, i)
    ensures IsInserted(WithRequest(plan, r, i))
  {
    ListAfterInsert(plan, r, i);
    FreshAfterInsert(plan, r, i);
    ShapeAfterInsert(plan, r, i);
    KindsAfterInsert(plan, r, i);
    var plan' := WithRequest(plan, r, i);
    hide InstOk, ListOk, TauFree, Rank, FitsIn, IsPhi;
    forall v | v in plan'.p1.insts
      ensures InstOk(plan'.p0, plan'.p1, plan'.tauOf, v)
    {
      InstAfterInsert(plan, r, i, v);
    }
  }

  // ----- all insertions -----

  ghost predicate IsOf(requests: seq<Request>, n: nat, v: nat, phi: nat) {
    exists j :: 0 <= j < n <= |requests| && requests[j].tau == v && requests[j].phi == phi
  }

  ghost predicate StandsIn(requests: seq<Request>, n: nat, v: nat, b: nat) {
    exists j :: 0 <= j < n <= |requests| && requests[j].tau == v && requests[j].block == b
  }

  ghost predicate InstOfRequest(requests: seq<Request>, n: nat, v: nat, i: Inst) {
    exists j :: 0 <= j < n <= |requests| && requests[j].tau == v && i == Inst(Tau, [requests[j].phi] + requests[j].args)
  }

  /** The tau stands in its block, for its phi, with the phi and the speculative arguments as operands. */
  ghost predicate CarriedOut(plan: Plan, r: Request) {
    && r.tau in plan.tauOf && plan.tauOf[r.tau] == r.phi && r.tau in ListOf(plan.p1, r.block)
    && r.tau in plan.p1.insts && plan.p1.insts[r.tau] == Inst(Tau, [r.phi] + r.args)
  }

  /** The first n requests have been carried out, and nothing else was inserted. A later tau of a block stands before
      the earlier ones. */
  ghost predicate HasInserted(plan: Plan, requests: seq<Request>, n: nat) {
    && IsInserted(plan) && plan.p1.lists.Keys == plan.p0.lists.Keys
    && (forall v | v in plan.tauOf :: IsOf(requests, n, v, plan.tauOf[v]))
    && (forall b, v | v in ListOf(plan.p1, b) && v in plan.tauOf :: StandsIn(requests, n, v, b))
    && (forall v | v in plan.p1.insts :: (v in plan.p0.insts && plan.p1.insts[v] == plan.p0.insts[v]) ||
         InstOfRequest(requests, n, v, plan.p1.insts[v]))
    && (forall j | 0 <= j < n <= |requests| :: CarriedOut(plan, requests[j]))
    && LatestFirst(plan.p1, requests, n)
  }

  ghost predicate LatestFirst(p: Body, requests: seq<Request>, n: nat) {
    forall j, k | 0 <= j < k < n <= |requests| && requests[j].block == requests[k].block ::
      Precedes(ListOf(p, requests[j].block), requests[k].tau, requests[j].tau)
  }

  ghost predicate Precedes(s: seq<nat>, x: nat, y: nat) {
    exists i, j :: 0 <= i < j < |s| && s[i] == x && s[j] == y
  }

  lemma {:induction false} NoTausIn(p0: Body, s: seq<nat>)
    ensures WithoutTaus(s, map[]) == s
  {
    NothingWithout(s, map[]);
  }

  lemma InsertStarts(p0: Body, succs: map<nat, seq<nat>>, requests: seq<Request>)
    requires IsProgram(p0)
    ensures HasInserted(Plan(p0, p0, map[], succs), requests, 0)
  {
    forall b
      ensures ListOk(p0, p0, map[], b)
    {
      NoTausIn(p0, ListOf(p0, b));
    }
    forall v | v in p0.insts
      ensures InstOk(p0, p0, map[], v)
    {
    }
  }

  lemma NextFits(plan: Plan, requests: seq<Request>, n: nat, i: nat)
    requires AreRequests(plan.p0, requests) && n < |requests| && HasInserted(plan, requests, n)
    requires requests[n].block in plan.p1.lists && i <= |plan.p1.lists[requests[n].block]|
    requires forall j | 0 <= j < i :: IsPhi(plan.p1, plan.p1.lists[requests[n].block][j])
    requires i < |plan.p1.lists[requests[n].block]| ==> !IsPhi(plan.p1, plan.p1.lists[requests[n].block][i])
    ensures FitsIn(plan, requests[n], i)
  {
    hide IsInserted;
    var r := requests[n];
    assert IsNew(plan.p0, r.tau);
    forall v | v in plan.tauOf
      ensures v != r.tau && v != r.phi && v !in r.args && plan.tauOf[v] != r.tau
    {
      assert IsOf(requests, n, v, plan.tauOf[v]);
    }
    forall u | u in plan.p1.insts
      ensures u != r.tau && r.tau !in plan.p1.insts[u].ops
    {
      assert (u in plan.p0.insts && plan.p1.insts[u] == plan.p0.insts[u]) ||
        InstOfRequest(requests, n, u, plan.p1.insts[u]);
    }
    forall v | v in ListOf(plan.p1, r.block) && v in plan.tauOf
      ensures plan.tauOf[v] != r.phi
    {
      SameRequest(plan.p0, requests, n, v, plan.tauOf[v], r.block);
    }
  }

  lemma SameRequest(p0: Body, requests: seq<Request>, n: nat, v: nat, phi: nat, b: nat)
    requires AreRequests(p0, requests) && n < |requests| && IsOf(requests, n, v, phi) && StandsIn(requests, n, v, b)
    ensures (phi, b) != (requests[n].phi, requests[n].block)
  {
    var j :| 0 <= j < n <= |requests| && requests[j].tau == v && requests[j].phi == phi;
    var k :| 0 <= k < n <= |requests| && requests[k].tau == v && requests[k].block == b;
    assert j == k;
  }

  lemma CarriedOutStays(plan: Plan, r: Request, i: nat, q: Request)
    requires r.block in plan.p1.lists && i <= |plan.p1.lists[r.block]|
    requires CarriedOut(plan, q) && q.tau != r.tau
    ensures CarriedOut(WithRequest(plan, r, i), q)
  {
    InsertedMembers(plan.p1, r, i, q.block, q.tau);
  }

  lemma CarriedOutNow(plan: Plan, r: Request, i: nat)
    requires r.block in plan.p1.lists && i <= |plan.p1.lists[r.block]|
    ensures CarriedOut(WithRequest(plan, r, i), r)
  {
    InsertedMembers(plan.p1, r, i, r.block, r.tau);
  }

  lemma InsertedOneMore(plan: Plan, requests: seq<Request>, n: nat, i: nat)
    requires AreRequests(plan.p0, requests) && n < |requests| && HasInserted(plan, requests, n) &&
      FitsIn(plan, requests[n], i)
    ensures HasInserted(WithRequest(plan, requests[n], i), requests, n + 1)
  {
    InsertStep(plan, requests[n], i);
    hide IsInserted, CarriedOut, FitsIn, AreRequests, IsOf, StandsIn, InstOfRequest, Inserted, LatestFirst;
    NamedOneMore(plan, requests, n, i);
    PlacedOneMore(plan, requests, n, i);
    OrderedOneMore(plan, requests, n, i);
    AllCarriedOut(plan, requests, n, i);
  }

  lemma NamedOneMore(plan: Plan, requests: seq<Request>, n: nat, i: nat)
    requires n < |requests| && HasInserted(plan, requests, n) && FitsIn(plan, requests[n], i)
    ensures var plan' := WithRequest(plan, requests[n], i);
      && plan'.p1.lists.Keys == plan'.p0.lists.Keys
      && (forall v | v in plan'.tauOf :: IsOf(requests, n + 1, v, plan'.tauOf[v]))
      && forall v | v in plan'.p1.insts :: (v in plan'.p0.insts && plan'.p1.insts[v] == plan'.p0.insts[v]) ||
           InstOfRequest(requests, n + 1, v, plan'.p1.insts[v])
  {
    hide IsInserted, CarriedOut;
    var plan' := WithRequest(plan, requests[n], i);
    forall v | v in plan'.tauOf
      ensures IsOf(requests, n + 1, v, plan'.tauOf[v])
    {
      assert v != requests[n].tau ==> IsOf(requests, n, v, plan.tauOf[v]);
    }
    forall v | v in plan'.p1.insts
      ensures (v in plan'.p0.insts && plan'.p1.insts[v] == plan'.p0.insts[v]) ||
        InstOfRequest(requests, n + 1, v, plan'.p1.insts[v])
    {
      if v != requests[n].tau && InstOfRequest(requests, n, v, plan.p1.insts[v]) {
        assert InstOfRequest(requests, n + 1, v, plan'.p1.insts[v]);
      }
    }
  }

  lemma PlacedOneMore(plan: Plan, requests: seq<Request>, n: nat, i: nat)
    requires n < |requests| && HasInserted(plan, requests, n) && FitsIn(plan, requests[n], i)
    ensures var plan' := WithRequest(plan, requests[n], i);
      forall b, v | v in ListOf(plan'.p1, b) && v in plan'.tauOf :: StandsIn(requests, n + 1, v, b)
  {
    hide IsInserted, CarriedOut;
    var r := requests[n];
    var plan' := WithRequest(plan, r, i);
    hide FitsIn;
    forall b: nat, v: nat | v in ListOf(plan'.p1, b) && v in plan'.tauOf
      ensures StandsIn(requests, n + 1, v, b)
    {
      TauNotListed(plan, r, i, b);
      InsertedMembers(plan.p1, r, i, b, v);
      if v in ListOf(plan.p1, b) {
        assert StandsIn(requests, n, v, b);
      }
    }
  }

  lemma OrderedOneMore(plan: Plan, requests: seq<Request>, n: nat, i: nat)
    requires n < |requests| && HasInserted(plan, requests, n) && FitsIn(plan, requests[n], i)
    ensures LatestFirst(WithRequest(plan, requests[n], i).p1, requests, n + 1)
  {
    assert forall j | 0 <= j < n :: CarriedOut(plan, requests[j]);
    hide HasInserted, FitsIn, LatestFirst, CarriedOut, WithRequest;
    TauPrecedesEarlier(plan, requests, n, i);
  }

  lemma TauPrecedesEarlier(plan: Plan, requests: seq<Request>, n: nat, i: nat)
    requires n < |requests| && FitsIn(plan, requests[n], i) && LatestFirst(plan.p1, requests, n)
    requires forall j | 0 <= j < n :: CarriedOut(plan, requests[j])
    ensures LatestFirst(WithRequest(plan, requests[n], i).p1, requests, n + 1)
  {
    var r := requests[n];
    var plan' := WithRequest(plan, r, i);
    hide Inserted, FitsIn, CarriedOut, Precedes;
    forall j, k | 0 <= j < k < n + 1 && requests[j].block == requests[k].block
      ensures Precedes(ListOf(plan'.p1, requests[j].block), requests[k].tau, requests[j].tau)
    {
      if k < n {
        PrecedesStill(plan.p1, r, i, requests[j].block, requests[k].tau, requests[j].tau);
      } else {
        NewTauPrecedes(plan, r, i, requests[j]);
      }
    }
  }

  lemma NewTauPrecedes(plan: Plan, r: Request, i: nat, q: Request)
    requires FitsIn(plan, r, i) && CarriedOut(plan, q) && q.block == r.block
    ensures Precedes(ListOf(WithRequest(plan, r, i).p1, r.block), r.tau, q.tau)
  {
    PrecedesNow(plan.p1, r, i, q.tau);
  }

  lemma PrecedesStill(p: Body, r: Request, i: nat, b: nat, x: nat, y: nat)
    requires r.block in p.lists && i <= |p.lists[r.block]| && Precedes(ListOf(p, b), x, y)
    ensures Precedes(ListOf(Inserted(p, r, i), b), x, y)
  {
    var s, s' := ListOf(p, b), ListOf(Inserted(p, r, i), b);
    var j, k :| 0 <= j < k < |s| && s[j] == x && s[k] == y;
    var j', k' := if b == r.block && j >= i then j + 1 else j, if b == r.block && k >= i then k + 1 else k;
    assert s'[j'] == x && s'[k'] == y;
  }

  /** The new tau stands before everything that is no phi. */
  lemma PrecedesNow(p: Body, r: Request, i: nat, y: nat)
    requires r.block in p.lists && i <= |p.lists[r.block]| && y in p.lists[r.block] && !IsPhi(p, y)
    requires forall j | 0 <= j < i :: IsPhi(p, p.lists[r.block][j])
    ensures Precedes(ListOf(Inserted(p, r, i), r.block), r.tau, y)
  {
    var s, s' := p.lists[r.block], ListOf(Inserted(p, r, i), r.block);
    var k :| 0 <= k < |s| && s[k] == y;
    assert s'[i] == r.tau && s'[k + 1] == y;
  }

  lemma AllCarriedOut(plan: Plan, requests: seq<Request>, n: nat, i: nat)
    requires AreRequests(plan.p0, requests) && n < |requests| && HasInserted(plan, requests, n) &&
      FitsIn(plan, requests[n], i)
    ensures forall j | 0 <= j < n + 1 :: CarriedOut(WithRequest(plan, requests[n], i), requests[j])
  {
    hide IsInserted, CarriedOut;
    forall j | 0 <= j < n + 1
      ensures CarriedOut(WithRequest(plan, requests[n], i), requests[j])
    {
      if j < n {
        CarriedOutStays(plan, requests[n], i, requests[j]);
      } else {
        CarriedOutNow(plan, requests[n], i);
      }
    }
  }

  /** Inserts the taus before the first instruction that is no phi. */
  method InsertTaus(p0: Body, requests: seq<Request>, ghost succs: map<nat, seq<nat>>)
    returns (p: Body, ghost tauOf: map<nat, nat>)
    requires IsProgram(p0) && AreRequests(p0, requests)
    ensures HasInserted(Plan(p0, p, tauOf, succs), requests, |requests|)
  {
    hide IsProgram, IsInserted, FitsIn;
    p, tauOf := p0, map[];
    InsertStarts(p0, succs, requests);
    var n := 0;
    while n < |requests|
      invariant 0 <= n <= |requests| && HasInserted(Plan(p0, p, tauOf, succs), requests, n)
    {
      var r := requests[n];
      var i := FirstNonPhi(p, r.block);
      NextFits(Plan(p0, p, tauOf, succs), requests, n, i);
      InsertedOneMore(Plan(p0, p, tauOf, succs), requests, n, i);
      p, tauOf := Inserted(p, r, i), tauOf[r.tau := r.phi];
      n := n + 1;
    }
  }

  // ----- dominance -----

  ghost function ProgramPhis(p0: Body, b: nat): set<nat> {
    set v | v in ListOf(p0, b) && IsPhi(p0, v)
  }

  /** Every tau is requested in a block that its phi dominates, and a phi that is an incoming value dominates the block
      it comes from. */
  ghost predicate RequestsDominated(p0: Body, requests: seq<Request>, t: DomTree, above: set<nat>) {
    var here := above + ProgramPhis(p0, t.block);
    && (forall j | 0 <= j < |requests| && requests[j].block == t.block :: requests[j].phi in here)
    && (forall v, k | IsPhi(p0, v) && 0 <= k < |p0.insts[v].ops| && k < |p0.insts[v].kind.from| &&
         p0.insts[v].kind.from[k] == t.block && IsPhi(p0, p0.insts[v].ops[k]) ::
          p0.insts[v].ops[k] in here)
    && forall i | 0 <= i < |t.children| :: RequestsDominated(p0, requests, t.children[i], here)
  }

  lemma SamePhis(plan: Plan, b: nat)
    requires IsInserted(plan)
    ensures PhisOf(plan, b) == ProgramPhis(plan.p0, b)
  {
    assert ListOk(plan.p0, plan.p1, plan.tauOf, b);
    forall v: nat
      ensures v in ListOf(plan.p1, b) && IsPhi(plan.p1, v) <==> v in ListOf(plan.p0, b) && IsPhi(plan.p0, v)
    {
      WithoutTausMembers(ListOf(plan.p1, b), plan.tauOf, v);
      if v in ListOf(plan.p1, b) {
        InsertedKinds(plan, v);
      }
    }
  }

  lemma {:induction false} DominatedAfterInsert(plan: Plan, requests: seq<Request>, t: DomTree, above: set<nat>)
    requires AreRequests(plan.p0, requests) && HasInserted(plan, requests, |requests|) &&
      RequestsDominated(plan.p0, requests, t, above)
    ensures IsDominated(plan, t, above)
  {
    hide IsInserted;
    SamePhis(plan, t.block);
    var here := above + PhisOf(plan, t.block);
    forall v | v in ListOf(plan.p1, t.block) && v in plan.tauOf
      ensures plan.tauOf[v] in here
    {
      PhiOfRequest(plan, requests, t.block, v);
    }
    forall i | 0 <= i < |t.children|
      ensures IsDominated(plan, t.children[i], here)
    {
      DominatedAfterInsert(plan, requests, t.children[i], here);
    }
  }

  lemma PhiOfRequest(plan: Plan, requests: seq<Request>, b: nat, v: nat)
    requires AreRequests(plan.p0, requests) && HasInserted(plan, requests, |requests|) && v in ListOf(plan.p1, b) &&
      v in plan.tauOf
    ensures exists j :: 0 <= j < |requests| && requests[j].block == b && requests[j].phi == plan.tauOf[v]
  {
    hide IsInserted;
    assert IsOf(requests, |requests|, v, plan.tauOf[v]) && StandsIn(requests, |requests|, v, b);
    var j :| 0 <= j < |requests| && requests[j].tau == v && requests[j].phi == plan.tauOf[v];
    var k :| 0 <= k < |requests| && requests[k].tau == v && requests[k].block == b;
    assert j == k;
  }

  // ----- the round trip -----

  lemma StartIsGood(plan: Plan)
    requires IsInserted(plan)
    ensures Good(plan, Walk(plan.p1, map[], map[], {}, map[]))
  {
    var w := Walk(plan.p1, map[], map[], {}, map[]);
    forall v: nat
      ensures UsesGood(plan, w, v) && ChainGood(plan, w, v)
    {
      if IsTau(plan.p1, v) {
        TauIsNew(plan, w, v);
      }
    }
  }

  lemma StartIsFresh(plan: Plan, blocks: set<nat>)
    requires IsInserted(plan)
    ensures AllFresh(plan, Walk(plan.p1, map[], map[], {}, map[]), blocks)
    ensures StacksAre(plan.tauOf, map[], [])
  {
    forall b | b in blocks
      ensures BlockFresh(plan, Walk(plan.p1, map[], map[], {}, map[]), b)
    {
      assert ListOk(plan.p0, plan.p1, plan.tauOf, b);
    }
  }

  /** In a dominator tree, the operands of a phi are right exactly when the names agree. */
  ghost predicate PhisNamedIff(plan: Plan, t: DomTree, p: Body) {
    FitsEdges(plan, MetIn(plan, t)) ==>
      forall v | IsPhi(plan.p1, v) :: PhiNamedIff(plan, t, p, v)
  }

  ghost predicate PhiNamedIff(plan: Plan, t: DomTree, p: Body, v: nat)
    requires IsPhi(plan.p1, v)
  {
    && v in p.insts && |p.insts[v].ops| == |plan.p1.insts[v].ops|
    && (HasRightNames(plan, MetIn(plan, t), p, BlocksOf(t), v) <==> NamesAgree(plan, MetIn(plan, t), BlocksOf(t), v))
  }

  lemma TreeFollowed(plan: Plan, t: DomTree)
    requires IsTree(t)
    ensures Follows(plan, t, [], MetIn(plan, t))
  {
    MetFollows(plan, t, [], MetIn(plan, t));
  }

  lemma PhisAreNamed(plan: Plan, t: DomTree, p: Body)
    requires Slots(plan, MetIn(plan, t), p, {} + BlocksOf(t))
    ensures PhisNamedIff(plan, t, p)
  {
    assert {} + BlocksOf(t) == BlocksOf(t);
    hide FitsEdges, SlotsOk, HasRightNames, NamesAgree;
    if FitsEdges(plan, MetIn(plan, t)) {
      forall v | IsPhi(plan.p1, v)
        ensures PhiNamedIff(plan, t, p, v)
      {
        assert SlotsOk(plan, MetIn(plan, t), p, BlocksOf(t), v);
        RightNamesIff(plan, MetIn(plan, t), p, BlocksOf(t), v);
      }
    }
  }

  /** Inserts the taus and renames over the dominator tree. The result is the program up to taus; following operand 0
      from tau to tau ends; and every instruction that is no phi names the nearest taus above it. When the tree is the
      dominator tree, the operands of a phi are the names found at the end of the blocks they come from exactly when no
      value that the phi takes from two blocks has different names there. */
  method BuildTauForm(p0: Body, requests: seq<Request>, t: DomTree, succs: map<nat, seq<nat>>)
    returns (p: Body, ghost plan: Plan, ghost dep: map<nat, nat>)
    requires IsProgram(p0) && AreRequests(p0, requests) && IsTree(t) && RequestsDominated(p0, requests, t, {})
    ensures plan.p0 == p0 && plan.succs == succs && HasInserted(plan, requests, |requests|)
    ensures IsExpansion(p0, p, plan.tauOf) && IsAcyclic(p, plan.tauOf, dep)
    ensures AllNamed(plan, t, [], p)
    ensures Follows(plan, t, [], MetIn(plan, t)) && PhisNamedIff(plan, t, p)
  {
    hide IsProgram, AreRequests, IsTree, RequestsDominated, IsInserted, IsDominated, Good, StacksAre, AllFresh,
      AllNamed, Touches, IsExpansion, CarriedOut, LatestFirst, Follows, PhisNamedIff, Slots;
    ghost var tauOf;
    var p1;
    p1, tauOf := InsertTaus(p0, requests, succs);
    plan := Plan(p0, p1, tauOf, succs);
    DominatedAfterInsert(plan, requests, t, {});
    StartIsGood(plan);
    StartIsFresh(plan, BlocksOf(t));
    var renamer := new Renamer(p1);
    NothingPassed(plan, MetIn(plan, t));
    TreeFollowed(plan, t);
    renamer.Search(t, succs, plan, [], {}, MetIn(plan, t), {});
    PhisAreNamed(plan, t, renamer.body);
    GoodIsAcyclic(plan, renamer.State());
    p, dep := renamer.body, renamer.dep;
  }

  lemma ExpansionLists(p0: Body, p: Body, tauOf: map<nat, nat>)
    requires IsExpansion(p0, p, tauOf)
    ensures NoRepeats(p) && (forall b, c, v | v in ListOf(p, b) && v in ListOf(p, c) :: b == c) &&
      p.lists.Keys == p0.lists.Keys
    ensures forall b, v | v in ListOf(p, b) :: v in p.insts
  {
    forall b, v | v in ListOf(p, b)
      ensures v in p.insts
    {
      assert ListOk(p0, p, tauOf, b);
    }
  }

  /** Building the tau form and destroying it gives back the program, instruction by instruction and operand by
      operand. */
  method RoundTrip(p0: Body, requests: seq<Request>, t: DomTree, succs: map<nat, seq<nat>>, blocks: seq<nat>)
    returns (r: Body)
    requires IsProgram(p0) && AreRequests(p0, requests) && IsTree(t) && RequestsDominated(p0, requests, t, {})
    requires (forall b | b in p0.lists :: b in blocks) &&
      (forall i, j | 0 <= i < j < |blocks| :: blocks[i] != blocks[j])
    ensures r == p0
  {
    hide IsProgram, AreRequests, IsTree, RequestsDominated, IsExpansion, AllNamed, IsAcyclic, HasInserted, NoRepeats,
      AreTheTaus, Follows, PhisNamedIff;
    ghost var plan, dep;
    var p;
    p, plan, dep := BuildTauForm(p0, requests, t, succs);
    ExpansionLists(p0, p, plan.tauOf);
    var toBeRemoved := CollectTaus(p, blocks);
    r := DestroyTaus(p, toBeRemoved, p0, plan.tauOf, dep);
  }
}
