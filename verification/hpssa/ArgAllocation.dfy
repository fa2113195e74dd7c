/** AllocateArgs of src/HPSSA_new.cpp: the arguments of taus are read off stacks of frames, one stack for each
    phi, kept while the dominator tree is walked. */
module ArgAllocation {
  import opened DominatorTree
  import opened BuddySets
  import opened CaloricConnectors
  import opened PrefixClasses
  import opened Frames
  import opened FramePropagation

  /** Everything the walk reads: the flow graph and hot paths, the phis of each block, the taus inserted in it with the
      phis they belong to, the back edges, and which values are phis or taus. */
  datatype Context = Context(f: FlowGraph, succs: Successors, hot: HotPathSet, phis: map<nat, seq<PhiNode>>,
                             taus: map<nat, seq<(nat, nat)>>, back: set<(nat, nat)>, phiOrTau: set<nat>)

  function PhisOf(cx: Context, b: nat): seq<PhiNode> {
    if b in cx.phis then cx.phis[b] else []
  }

  function TausOf(cx: Context, b: nat): seq<(nat, nat)> {
    if b in cx.taus then cx.taus[b] else []
  }

  /** Every phi stands in one block, and every tau. */
  ghost predicate IsWellFormed(cx: Context) {
    && (forall b, c, i, j | 0 <= i < |PhisOf(cx, b)| && 0 <= j < |PhisOf(cx, c)| &&
         PhisOf(cx, b)[i].id == PhisOf(cx, c)[j].id :: b == c && i == j)
    && (forall b, c, i, j | 0 <= i < |TausOf(cx, b)| && 0 <= j < |TausOf(cx, c)| &&
         TausOf(cx, b)[i].0 == TausOf(cx, c)[j].0 :: b == c && i == j)
  }

  ghost predicate IsPhiOf(cx: Context, b: nat, phi: nat) {
    exists i :: 0 <= i < |PhisOf(cx, b)| && PhisOf(cx, b)[i].id == phi
  }

  // ----- frames pushed at a phi -----

  /** The hot paths of a block that go through no predecessor. */
  function PredPaths(f: FlowGraph, hot: HotPathSet, b: nat, n: nat): Paths
    requires n <= |PredsOf(f, b)|
  {
    if n == 0 then {} else PredPaths(f, hot, b, n - 1) + HotAt(hot, PredsOf(f, b)[n - 1])
  }

  function IncubationPaths(cx: Context, b: nat): Paths {
    HotAt(cx.hot, b) - PredPaths(cx.f, cx.hot, b, |PredsOf(cx.f, b)|)
  }

  /** x is a hot path of the block and of none of its predecessors. */
  predicate Incubates(cx: Context, b: nat, x: nat) {
    x in HotAt(cx.hot, b) && forall i | 0 <= i < |PredsOf(cx.f, b)| :: x !in HotAt(cx.hot, PredsOf(cx.f, b)[i])
  }

  lemma {:induction false} PredPathsIff(f: FlowGraph, hot: HotPathSet, b: nat, n: nat, x: nat)
    requires n <= |PredsOf(f, b)|
    ensures x in PredPaths(f, hot, b, n) <==> exists i | 0 <= i < n :: x in HotAt(hot, PredsOf(f, b)[i])
  {
    if n > 0 {
      PredPathsIff(f, hot, b, n - 1, x);
      assert PredPaths(f, hot, b, n) == PredPaths(f, hot, b, n - 1) + HotAt(hot, PredsOf(f, b)[n - 1]);
    }
  }

  lemma IncubatesIff(cx: Context, b: nat, x: nat)
    ensures x in IncubationPaths(cx, b) <==> Incubates(cx, b, x)
  {
    PredPathsIff(cx.f, cx.hot, b, |PredsOf(cx.f, b)|, x);
  }

  method GetIncubationPaths(cx: Context, b: nat) returns (r: Paths)
    ensures r == IncubationPaths(cx, b)
    ensures forall x: nat :: x in r <==>
      x in HotAt(cx.hot, b) && forall p | p in PredsOf(cx.f, b) :: x !in HotAt(cx.hot, p)
  {
    var predVector: Paths := {};
    var i := 0;
    while i < |PredsOf(cx.f, b)|
      invariant 0 <= i <= |PredsOf(cx.f, b)| && predVector == PredPaths(cx.f, cx.hot, b, i)
    {
      predVector := predVector + HotAt(cx.hot, PredsOf(cx.f, b)[i]);
      i := i + 1;
    }
    r := HotAt(cx.hot, b) + predVector - predVector;
    forall x: nat
      ensures x in r <==> x in HotAt(cx.hot, b) && forall p | p in PredsOf(cx.f, b) :: x !in HotAt(cx.hot, p)
    {
      IncubatesIff(cx, b, x);
    }
  }

  /** The definitions the phi merges, operand by operand, added to what is in the frame. */
  function DefFrame(hot: HotPathSet, phi: PhiNode, b: nat, n: nat): Frame
    requires n <= |phi.args|
  {
    if n == 0 then map[] else
      var fr, paths := DefFrame(hot, phi, b, n - 1), HotAt(hot, phi.args[n - 1].from) * HotAt(hot, b);
      if paths == {} then fr else Add(fr, phi.args[n - 1].def, paths)
  }

  lemma {:induction false} DefFrameIsInitial(hot: HotPathSet, phi: PhiNode, b: nat, n: nat)
    requires n <= |phi.args|
    ensures IsInitialUpTo(hot, phi, b, DefFrame(hot, phi, b, n), n)
  {
    if n > 0 {
      DefFrameIsInitial(hot, phi, b, n - 1);
      OneMoreArg(hot, phi, b, DefFrame(hot, phi, b, n - 1), n - 1);
    }
  }

  function AddAll(fr: Frame, keys: set<nat>, paths: Paths): Frame {
    map d | d in fr.Keys + keys :: PathsOf(fr, d) + if d in keys then paths else {}
  }

  /** The frame for paths that start in the block. */
  function IncubationFrame(cx: Context, phi: PhiNode, b: nat, top: Frame, n: nat): Frame
    requires n <= |phi.args|
  {
    if n == 0 then AddAll(top, top.Keys, IncubationPaths(cx, b))
    else AddOperand(cx, phi.args[n - 1], b, IncubationFrame(cx, phi, b, top, n - 1))
  }

  function AddOperand(cx: Context, arg: Arg, b: nat, fr: Frame): Frame {
    var fr1 := if arg.def in cx.phiOrTau then fr
               else Add(Add(fr, arg.def, IncubationPaths(cx, b)), arg.def, HotAt(cx.hot, arg.from) * HotAt(cx.hot, b));
    if (arg.from, b) in cx.back then Add(fr1, arg.def, IncubationPaths(cx, b)) else fr1
  }

  /** Operand i brings definition d into the incubation frame. */
  predicate BringsDef(cx: Context, phi: PhiNode, b: nat, i: nat, d: nat)
    requires i < |phi.args|
  {
    phi.args[i].def == d && (d !in cx.phiOrTau || (phi.args[i].from, b) in cx.back)
  }

  /** Operand i is d, no phi or tau, and x goes through its incoming block and b. */
  predicate BringsPath(cx: Context, phi: PhiNode, b: nat, i: nat, d: nat, x: nat)
    requires i < |phi.args|
  {
    phi.args[i].def == d && d !in cx.phiOrTau && x in HotAt(cx.hot, phi.args[i].from) * HotAt(cx.hot, b)
  }

  /** x carries d: it is on the top frame; or it incubates and d is held at all; or an operand brings it. */
  predicate Carries(cx: Context, phi: PhiNode, b: nat, top: Frame, n: nat, held: bool, d: nat, x: nat)
    requires n <= |phi.args|
  {
    || x in PathsOf(top, d)
    || (Incubates(cx, b, x) && held)
    || exists i | 0 <= i < n :: BringsPath(cx, phi, b, i, d, x)
  }

  /** The frame holds the definitions of the top frame and those an operand brings that is no phi or tau or comes along
      a back edge. Each is carried by its paths of the top frame, by all incubating paths, and, if it is no phi or tau,
      by the block's paths through its incoming blocks. */
  ghost predicate IsIncubated(cx: Context, phi: PhiNode, b: nat, top: Frame, n: nat, fr: Frame, d: nat)
    requires n <= |phi.args|
  {
    && (d in fr <==> d in top || exists i | 0 <= i < n :: BringsDef(cx, phi, b, i, d))
    && forall x :: x in PathsOf(fr, d) <==> Carries(cx, phi, b, top, n, d in fr, d, x)
  }

  lemma OneMoreOperand(cx: Context, phi: PhiNode, b: nat, top: Frame, n: nat, fr: Frame, d: nat)
    requires n < |phi.args| && IsIncubated(cx, phi, b, top, n, fr, d)
    ensures IsIncubated(cx, phi, b, top, n + 1, AddOperand(cx, phi.args[n], b, fr), d)
  {
    hide IncubationPaths, Incubates;
    var fr' := AddOperand(cx, phi.args[n], b, fr);
    assert (exists i | 0 <= i < n + 1 :: BringsDef(cx, phi, b, i, d)) <==>
           (exists i | 0 <= i < n :: BringsDef(cx, phi, b, i, d)) || BringsDef(cx, phi, b, n, d);
    forall x
      ensures x in PathsOf(fr', d) <==> Carries(cx, phi, b, top, n + 1, d in fr', d, x)
    {
      IncubatesIff(cx, b, x);
      assert x in PathsOf(fr, d) <==> Carries(cx, phi, b, top, n, d in fr, d, x);
      assert (exists i | 0 <= i < n + 1 :: BringsPath(cx, phi, b, i, d, x)) <==>
             (exists i | 0 <= i < n :: BringsPath(cx, phi, b, i, d, x)) || BringsPath(cx, phi, b, n, d, x);
    }
  }

  lemma {:induction false} IncubationFrameIs(cx: Context, phi: PhiNode, b: nat, top: Frame, n: nat, d: nat)
    requires n <= |phi.args|
    ensures IsIncubated(cx, phi, b, top, n, IncubationFrame(cx, phi, b, top, n), d)
  {
    hide IncubationPaths, Incubates;
    if n > 0 {
      IncubationFrameIs(cx, phi, b, top, n - 1, d);
      OneMoreOperand(cx, phi, b, top, n - 1, IncubationFrame(cx, phi, b, top, n - 1), d);
    } else {
      forall x: nat
        ensures x in IncubationPaths(cx, b) <==> Incubates(cx, b, x)
      {
        IncubatesIff(cx, b, x);
      }
    }
  }

  // ----- the stacks -----

  type Stack = seq<(Frame, nat)>

  function StackOf(stacks: map<nat, Stack>, phi: nat): Stack {
    if phi in stacks then stacks[phi] else []
  }

  function TopOf(s: Stack): Frame {
    if s == [] then map[] else s[|s| - 1].0
  }

  /** The stack of a phi after its block was entered. */
  function Pushed(cx: Context, phi: PhiNode, b: nat, s: Stack): Stack {
    var de := DefFrame(cx.hot, phi, b, |phi.args|);
    var s1 := if de == map[] then s else s + [(de, b)];
    if IncubationPaths(cx, b) == {} then s1 else s1 + [(IncubationFrame(cx, phi, b, TopOf(s1), |phi.args|), b)]
  }

  /** pStack::pop */
  method Pop(s: Stack, b: nat) returns (r: Stack)
    ensures r <= s && (forall i | |r| <= i < |s| :: s[i].1 == b) && (r != [] ==> r[|r| - 1].1 != b)
  {
    r := s;
    while r != []
      invariant r <= s && forall i | |r| <= i < |s| :: s[i].1 == b
    {
      if r[|r| - 1].1 != b {
        break;
      }
      r := r[..|r| - 1];
    }
  }

  /** All stacks at once; every phi has one. */
  type Stacks = imap<nat, Stack>

  ghost function AllStacks(stacks: map<nat, Stack>): Stacks {
    imap phi: nat :: StackOf(stacks, phi)
  }

  /** The stacks after a block was entered: those of its phis are pushed. */
  ghost function Entered(cx: Context, b: nat, st: Stacks, n: nat): (r: Stacks)
    requires n <= |PhisOf(cx, b)| && forall phi: nat :: phi in st
    ensures forall phi: nat :: phi in r
  {
    if n == 0 then st else
      var prev, phi := Entered(cx, b, st, n - 1), PhisOf(cx, b)[n - 1];
      prev[phi.id := Pushed(cx, phi, b, prev[phi.id])]
  }

  /** What a tau is given: the definitions of the top frame that one of the block's hot paths carries. */
  function Chosen(top: Frame, here: Paths): set<nat> {
    Restrict(top, here).Keys
  }

  ghost predicate TausAllocated(cx: Context, b: nat, st: Stacks, args: map<nat, set<nat>>)
    requires forall phi: nat :: phi in st
  {
    forall i | 0 <= i < |TausOf(cx, b)| :: TausOf(cx, b)[i].0 in args &&
      args[TausOf(cx, b)[i].0] == Chosen(TopOf(st[TausOf(cx, b)[i].1]), HotAt(cx.hot, b))
  }

  /** The taus of all blocks of the tree are given their arguments from the stacks on the way to them. */
  ghost predicate Allocated(cx: Context, t: DomTree, st: Stacks, args: map<nat, set<nat>>)
    requires forall phi: nat :: phi in st
  {
    var here := Entered(cx, t.block, st, |PhisOf(cx, t.block)|);
    TausAllocated(cx, t.block, here, args) &&
      forall i | 0 <= i < |t.children| :: Allocated(cx, t.children[i], here, args)
  }

  // ----- invariants of the walk -----

  /** All frames on the stack of a phi were pushed in its own block, on the way to here. */
  ghost predicate Homed(cx: Context, st: Stacks, path: set<nat>) {
    (forall phi: nat :: phi in st) && forall phi: nat :: HomedAt(cx, phi, st[phi], path)
  }

  ghost predicate HomedAt(cx: Context, phi: nat, s: Stack, path: set<nat>) {
    forall i | 0 <= i < |s| :: s[i].1 in path && IsPhiOf(cx, s[i].1, phi)
  }

  function DefAccAt(defAcc: map<(nat, nat), Frame>, b: nat, phi: nat): Frame {
    if (b, phi) in defAcc then defAcc[(b, phi)] else map[]
  }

  /** Nothing was accumulated for the phis of these blocks. */
  ghost predicate Untouched(cx: Context, defAcc: map<(nat, nat), Frame>, blocks: set<nat>) {
    forall b, phi | b in blocks && IsPhiOf(cx, b, phi) :: DefAccAt(defAcc, b, phi) == map[]
  }

  lemma {:induction false} EnteredAt(cx: Context, b: nat, st: Stacks, n: nat, phi: nat)
    requires IsWellFormed(cx) && n <= |PhisOf(cx, b)| && forall p: nat :: p in st
    ensures (forall i | 0 <= i < n :: PhisOf(cx, b)[i].id != phi) ==> Entered(cx, b, st, n)[phi] == st[phi]
    ensures forall i | 0 <= i < n && PhisOf(cx, b)[i].id == phi ::
      Entered(cx, b, st, n)[phi] == Pushed(cx, PhisOf(cx, b)[i], b, st[phi])
  {
    if n > 0 {
      EnteredAt(cx, b, st, n - 1, phi);
    }
  }

  /** Entering a block only adds frames of that block. */
  lemma EnteredExtends(cx: Context, b: nat, st: Stacks, phi: nat)
    requires IsWellFormed(cx) && forall p: nat :: p in st
    ensures var s := Entered(cx, b, st, |PhisOf(cx, b)|)[phi];
      st[phi] <= s && (forall i | |st[phi]| <= i < |s| :: s[i].1 == b) && (IsPhiOf(cx, b, phi) || s == st[phi])
  {
    EnteredAt(cx, b, st, |PhisOf(cx, b)|, phi);
    if IsPhiOf(cx, b, phi) {
      var i :| 0 <= i < |PhisOf(cx, b)| && PhisOf(cx, b)[i].id == phi;
      assert Entered(cx, b, st, |PhisOf(cx, b)|)[phi] == Pushed(cx, PhisOf(cx, b)[i], b, st[phi]);
    }
  }

  lemma EnteredHomed(cx: Context, b: nat, st: Stacks, path: set<nat>)
    requires IsWellFormed(cx) && Homed(cx, st, path)
    ensures Homed(cx, Entered(cx, b, st, |PhisOf(cx, b)|), path + {b})
  {
    var r := Entered(cx, b, st, |PhisOf(cx, b)|);
    forall phi: nat
      ensures HomedAt(cx, phi, r[phi], path + {b})
    {
      EnteredExtends(cx, b, st, phi);
      assert HomedAt(cx, phi, st[phi], path);
    }
  }

  /** Popping the frames of a block undoes entering it, as long as the block was not on the way before. */
  lemma PopUndoes(cx: Context, b: nat, st: Stacks, path: set<nat>, phi: nat, r: Stack)
    requires IsWellFormed(cx) && Homed(cx, st, path) && b !in path
    requires var s := Entered(cx, b, st, |PhisOf(cx, b)|)[phi];
      r <= s && (forall i | |r| <= i < |s| :: s[i].1 == b) && (r != [] ==> r[|r| - 1].1 != b)
    ensures r == st[phi]
  {
    EnteredExtends(cx, b, st, phi);
    assert HomedAt(cx, phi, st[phi], path);
    var s := Entered(cx, b, st, |PhisOf(cx, b)|)[phi];
    PoppedBack(st[phi], s, r, b);
  }

  lemma {:induction false} PoppedBack(before: Stack, s: Stack, r: Stack, b: nat)
    requires before <= s && (forall i | |before| <= i < |s| :: s[i].1 == b) &&
      (forall i | 0 <= i < |before| :: s[i].1 != b)
    requires r <= s && (forall i | |r| <= i < |s| :: s[i].1 == b) && (|r| > 0 ==> s[|r| - 1].1 != b)
    ensures r == before
    decreases |s|
  {
    if s != [] && s[|s| - 1].1 == b {
      PoppedBack(before, s[..|s| - 1], r, b);
    }
  }

  lemma PhiInOneBlock(cx: Context, b: nat, c: nat, phi: nat)
    requires IsWellFormed(cx) && IsPhiOf(cx, b, phi) && IsPhiOf(cx, c, phi)
    ensures b == c
  {
  }

  /** Accumulating for a block outside the way never concerns that block's own phis. */
  lemma OthersUntouched(cx: Context, st: Stacks, path: set<nat>, b: nat, phi: nat)
    requires IsWellFormed(cx) && Homed(cx, st, path) && b !in path && IsPhiOf(cx, b, phi)
    ensures st[phi] == []
  {
    hide IsWellFormed;
    assert HomedAt(cx, phi, st[phi], path);
    if st[phi] != [] {
      PhiInOneBlock(cx, b, st[phi][0].1, phi);
    }
  }

  // ----- the walk -----

  ghost predicate SameElsewhere(cx: Context, d0: map<(nat, nat), Frame>, d: map<(nat, nat), Frame>, blocks: set<nat>) {
    forall b, phi | b !in blocks && IsPhiOf(cx, b, phi) :: DefAccAt(d, b, phi) == DefAccAt(d0, b, phi)
  }

  lemma StillUntouched(cx: Context, d0: map<(nat, nat), Frame>, d: map<(nat, nat), Frame>, changed: set<nat>,
                       blocks: set<nat>)
    requires Untouched(cx, d0, blocks) && SameElsewhere(cx, d0, d, changed) && changed !! blocks
    ensures Untouched(cx, d, blocks)
  {
  }

  ghost predicate IsTauIn(cx: Context, blocks: set<nat>, tau: nat) {
    exists b :: b in blocks && IsTauOf(cx, b, tau)
  }

  ghost predicate IsTauOf(cx: Context, b: nat, tau: nat) {
    exists i :: 0 <= i < |TausOf(cx, b)| && TausOf(cx, b)[i].0 == tau
  }

  /** Only taus of these blocks have changed. */
  ghost predicate ArgsKept(cx: Context, a0: map<nat, set<nat>>, a1: map<nat, set<nat>>, blocks: set<nat>) {
    forall tau | !IsTauIn(cx, blocks, tau) :: (tau in a1 <==> tau in a0) && (tau in a0 ==> a1[tau] == a0[tau])
  }

  lemma ArgsKeptMore(cx: Context, a0: map<nat, set<nat>>, a1: map<nat, set<nat>>, a2: map<nat, set<nat>>, b1: set<nat>,
                     b2: set<nat>, all: set<nat>)
    requires ArgsKept(cx, a0, a1, b1) && ArgsKept(cx, a1, a2, b2) && b1 + b2 <= all
    ensures ArgsKept(cx, a0, a2, all)
  {
    forall tau: nat | !IsTauIn(cx, all, tau)
      ensures (tau in a2 <==> tau in a0) && (tau in a0 ==> a2[tau] == a0[tau])
    {
      assert !IsTauIn(cx, b1, tau) && !IsTauIn(cx, b2, tau);
    }
  }

  lemma {:induction false} AllocatedStays(cx: Context, t: DomTree, st: Stacks, a0: map<nat, set<nat>>,
                                          a1: map<nat, set<nat>>, blocks: set<nat>)
    requires IsWellFormed(cx) && (forall phi: nat :: phi in st) && Allocated(cx, t, st, a0) &&
      ArgsKept(cx, a0, a1, blocks) && BlocksOf(t) !! blocks
    ensures Allocated(cx, t, st, a1)
  {
    var here := Entered(cx, t.block, st, |PhisOf(cx, t.block)|);
    assert TausAllocated(cx, t.block, here, a1) by {
      TausStay(cx, t.block, here, a0, a1, blocks);
    }
    forall i | 0 <= i < |t.children|
      ensures Allocated(cx, t.children[i], here, a1)
    {
      assert BlocksOf(t.children[i]) <= BlocksOf(t);
      AllocatedStays(cx, t.children[i], here, a0, a1, blocks);
    }
  }

  lemma TausStay(cx: Context, b: nat, st: Stacks, a0: map<nat, set<nat>>, a1: map<nat, set<nat>>, blocks: set<nat>)
    requires IsWellFormed(cx) && (forall phi: nat :: phi in st) && TausAllocated(cx, b, st, a0) &&
      ArgsKept(cx, a0, a1, blocks) && b !in blocks
    ensures TausAllocated(cx, b, st, a1)
  {
    hide Chosen;
    forall i | 0 <= i < |TausOf(cx, b)|
      ensures !IsTauIn(cx, blocks, TausOf(cx, b)[i].0)
    {
    }
  }

  class ArgAllocator {
    var phiStack: map<nat, Stack>
    var defAcc: map<(nat, nat), Frame>
    var args: map<nat, set<nat>>

    constructor ()
      ensures phiStack == map[] && defAcc == map[] && args == map[]
    {
      phiStack, defAcc, args := map[], map[], map[];
    }

    /** Accumulates the operands of a phi on top of what reached its block, and pushes the frames. */
    method PushPhi(cx: Context, b: nat, phi: PhiNode, incubation: Paths)
      requires DefAccAt(defAcc, b, phi.id) == map[] && incubation == IncubationPaths(cx, b)
      modifies `phiStack, `defAcc
      ensures AllStacks(phiStack) == old(AllStacks(phiStack)[phi.id := Pushed(cx, phi, b, StackOf(phiStack, phi.id))])
      ensures forall c: nat, p: nat | (c, p) != (b, phi.id) :: DefAccAt(defAcc, c, p) == old(DefAccAt(defAcc, c, p))
    {
      var i := 0;
      while i < |phi.args|
        invariant 0 <= i <= |phi.args| && DefAccAt(defAcc, b, phi.id) == DefFrame(cx.hot, phi, b, i) &&
          phiStack == old(phiStack)
        invariant forall c: nat, p: nat | (c, p) != (b, phi.id) :: DefAccAt(defAcc, c, p) == old(DefAccAt(defAcc, c, p))
      {
        var pathInt := HotAt(cx.hot, phi.args[i].from) * HotAt(cx.hot, b);
        if pathInt != {} {
          defAcc := defAcc[(b, phi.id) := Add(DefAccAt(defAcc, b, phi.id), phi.args[i].def, pathInt)];
        }
        i := i + 1;
      }
      var deFrame := DefAccAt(defAcc, b, phi.id);
      var s := StackOf(phiStack, phi.id);
      if deFrame != map[] {
        s := s + [(deFrame, b)];
      }
      if incubation != {} {
        var newFrame := MakeIncubationFrame(cx, b, phi, TopOf(s), incubation);
        s := s + [(newFrame, b)];
      }
      phiStack := phiStack[phi.id := s];
    }

    static method AddToAll(top: Frame, paths: Paths) returns (fr: Frame)
      ensures fr == AddAll(top, top.Keys, paths)
    {
      fr := top;
      var keys := top.Keys;
      while keys != {}
        invariant keys <= top.Keys == fr.Keys
        invariant forall d | d in top :: fr[d] == if d in keys then top[d] else top[d] + paths
        decreases keys
      {
        var d :| d in keys;
        fr := Add(fr, d, paths);
        keys := keys - {d};
      }
    }

    static method MakeIncubationFrame(cx: Context, b: nat, phi: PhiNode, top: Frame, incubation: Paths)
      returns (fr: Frame)
      requires incubation == IncubationPaths(cx, b)
      ensures fr == IncubationFrame(cx, phi, b, top, |phi.args|)
      ensures forall d: nat :: IsIncubated(cx, phi, b, top, |phi.args|, fr, d)
    {
      fr := AddToAll(top, incubation);
      var i := 0;
      while i < |phi.args|
        invariant 0 <= i <= |phi.args| && fr == IncubationFrame(cx, phi, b, top, i)
      {
        var arg := phi.args[i];
        if arg.def !in cx.phiOrTau {
          var pathSet := HotAt(cx.hot, arg.from) * HotAt(cx.hot, b);
          fr := Add(fr, arg.def, incubation);
          fr := Add(fr, arg.def, pathSet);
        }
        if (arg.from, b) in cx.back {
          fr := Add(fr, arg.def, incubation);
        }
        i := i + 1;
      }
      forall d: nat
        ensures IsIncubated(cx, phi, b, top, |phi.args|, fr, d)
      {
        IncubationFrameIs(cx, phi, b, top, |phi.args|, d);
      }
    }

    /** The phis of a block. */
    method EnterBlock(cx: Context, b: nat)
      requires IsWellFormed(cx) && Untouched(cx, defAcc, {b})
      modifies `phiStack, `defAcc
      ensures AllStacks(phiStack) == Entered(cx, b, old(AllStacks(phiStack)), |PhisOf(cx, b)|)
      ensures SameElsewhere(cx, old(defAcc), defAcc, {b})
    {
      hide IncubationPaths, Pushed;
      var incubation := GetIncubationPaths(cx, b);
      var phis := PhisOf(cx, b);
      var n := 0;
      while n < |phis|
        invariant 0 <= n <= |phis| && AllStacks(phiStack) == Entered(cx, b, old(AllStacks(phiStack)), n)
        invariant forall i | n <= i < |phis| :: DefAccAt(defAcc, b, phis[i].id) == map[]
        invariant SameElsewhere(cx, old(defAcc), defAcc, {b})
      {
        PushPhi(cx, b, phis[n], incubation);
        n := n + 1;
      }
    }

    /** Gives every tau of the block the definitions of the top frame that a hot path of the block carries. */
    method AllocateTaus(cx: Context, b: nat)
      requires IsWellFormed(cx)
      modifies `args
      ensures TausAllocated(cx, b, AllStacks(phiStack), args)
      ensures ArgsKept(cx, old(args), args, {b})
    {
      var taus := TausOf(cx, b);
      var n := 0;
      while n < |taus|
        invariant 0 <= n <= |taus|
        invariant forall i | 0 <= i < n ::
          taus[i].0 in args && args[taus[i].0] == Chosen(TopOf(StackOf(phiStack, taus[i].1)), HotAt(cx.hot, b))
        invariant ArgsKept(cx, old(args), args, {b})
      {
        var top := TopOf(StackOf(phiStack, taus[n].1));
        var chosen := {};
        var left := top.Keys;
        while left != {}
          invariant left <= top.Keys && chosen == Restrict(top, HotAt(cx.hot, b)).Keys - left
          decreases left
        {
          var d :| d in left;
          if top[d] * HotAt(cx.hot, b) != {} {
            chosen := chosen + {d};
          }
          left := left - {d};
        }
        assert IsTauOf(cx, b, taus[n].0);
        args := args[taus[n].0 := chosen];
        n := n + 1;
      }
    }

    /** Passes the top frames on to the join blocks that follow. */
    method AccumulateForSuccs(cx: Context, b: nat, ghost path: set<nat>)
      requires IsWellFormed(cx) && Homed(cx, AllStacks(phiStack), path)
      modifies `defAcc
      ensures SameElsewhere(cx, old(defAcc), defAcc, path)
    {
      var succs := SuccsOf(cx.succs, b);
      var n := 0;
      while n < |succs|
        invariant 0 <= n <= |succs| && SameElsewhere(cx, old(defAcc), defAcc, path)
      {
        var s := succs[n];
        if |PredsOf(cx.f, s)| > 1 {
          var pathSet := HotAt(cx.hot, s) * HotAt(cx.hot, b);
          var left := phiStack.Keys;
          while left != {}
            invariant left <= phiStack.Keys && SameElsewhere(cx, old(defAcc), defAcc, path)
            decreases left
          {
            var phi :| phi in left;
            if phiStack[phi] != [] {
              AccumulateOne(cx, s, phi, pathSet, path);
            }
            left := left - {phi};
          }
        }
        n := n + 1;
      }
    }

    method AccumulateOne(cx: Context, s: nat, phi: nat, pathSet: Paths, ghost path: set<nat>)
      requires IsWellFormed(cx) && Homed(cx, AllStacks(phiStack), path) && StackOf(phiStack, phi) != []
      modifies `defAcc
      ensures SameElsewhere(cx, old(defAcc), defAcc, path)
    {
      var top := TopOf(StackOf(phiStack, phi));
      var fr := DefAccAt(defAcc, s, phi);
      var keys := top.Keys;
      while keys != {}
        invariant keys <= top.Keys
        decreases keys
      {
        var d :| d in keys;
        fr := Add(fr, d, top[d] * pathSet);
        keys := keys - {d};
      }
      if s !in path && IsPhiOf(cx, s, phi) {
        OthersUntouched(cx, AllStacks(phiStack), path, s, phi);
      }
      defAcc := defAcc[(s, phi) := fr];
    }

    /** Pops the frames of the block off every stack. */
    method LeaveBlock(cx: Context, b: nat, ghost st: Stacks, ghost path: set<nat>)
      requires IsWellFormed(cx) && Homed(cx, st, path) && b !in path
      requires AllStacks(phiStack) == Entered(cx, b, st, |PhisOf(cx, b)|)
      modifies `phiStack
      ensures AllStacks(phiStack) == st
    {
      hide IsWellFormed, HomedAt, Entered;
      var left := phiStack.Keys;
      ghost var here := AllStacks(phiStack);
      while left != {}
        invariant left <= phiStack.Keys == old(phiStack).Keys
        invariant forall phi: nat | phi in left :: phiStack[phi] == here[phi]
        invariant forall phi: nat | phi in phiStack && phi !in left :: phiStack[phi] == st[phi]
        decreases left
      {
        var phi :| phi in left;
        var s := Pop(phiStack[phi], b);
        PopUndoes(cx, b, st, path, phi, s);
        phiStack := phiStack[phi := s];
        left := left - {phi};
      }
      forall phi: nat
        ensures StackOf(phiStack, phi) == st[phi]
      {
        if phi !in phiStack {
          EnteredExtends(cx, b, st, phi);
        }
      }
    }

    /** One block and what it dominates: every stack is left as it was found, whatever the graph. */
    method AllocateArgs(cx: Context, t: DomTree, ghost path: set<nat>)
      requires IsWellFormed(cx) && IsTree(t) && BlocksOf(t) !! path
      requires Homed(cx, AllStacks(phiStack), path) && Untouched(cx, defAcc, BlocksOf(t))
      modifies this
      ensures AllStacks(phiStack) == old(AllStacks(phiStack))
      ensures Allocated(cx, t, old(AllStacks(phiStack)), args)
      ensures ArgsKept(cx, old(args), args, BlocksOf(t)) && SameElsewhere(cx, old(defAcc), defAcc, path + BlocksOf(t))
      decreases t, 1
    {
      hide IsWellFormed, IsTree, Homed, Untouched, SameElsewhere, ArgsKept, TausAllocated, BlocksOf, AllStacks, Entered,
        IncubationPaths;
      var b := t.block;
      RootFacts(t);
      ghost var st, d0, a0 := AllStacks(phiStack), defAcc, args;
      assert forall phi: nat :: phi in st by {
        AllPhis(phiStack);
      }
      UntouchedPart(cx, defAcc, BlocksOf(t), {b});
      EnteredHomed(cx, b, st, path);
      EnterBlock(cx, b);
      ghost var here, d1 := AllStacks(phiStack), defAcc;
      AllocateTaus(cx, b);
      ghost var a1 := args;
      AccumulateForSuccs(cx, b, path + {b});
      ghost var d2 := defAcc;
      SameElsewhereMore(cx, d0, d1, d2, {b}, path + {b}, path + {b});
      ChildrenUntouched(cx, t, d0, d2, path);
      AllocateChildren(cx, t, here, path);
      SameElsewhereMore(cx, d0, d2, defAcc, path + {b}, path + BlocksOf(t), path + BlocksOf(t));
      RootStays(cx, t, here, a0, a1, args);
      LeaveBlock(cx, b, st, path);
    }

    /** The blocks immediately dominated, one after the other. */
    method AllocateChildren(cx: Context, t: DomTree, ghost here: Stacks, ghost path: set<nat>)
      requires IsWellFormed(cx) && IsTree(t) && BlocksOf(t) !! path && here == AllStacks(phiStack) &&
        Homed(cx, here, path + {t.block})
      requires forall i | 0 <= i < |t.children| :: Untouched(cx, defAcc, BlocksOf(t.children[i]))
      modifies this
      ensures AllStacks(phiStack) == here
      ensures forall i | 0 <= i < |t.children| :: Allocated(cx, t.children[i], here, args)
      ensures ArgsKept(cx, old(args), args, BlocksOf(t) - {t.block})
      ensures SameElsewhere(cx, old(defAcc), defAcc, path + BlocksOf(t))
      decreases t, 0
    {
      hide IsWellFormed, Homed, Untouched, SameElsewhere, ArgsKept, Allocated, AllStacks, IsTree, BlocksOf;
      assert forall phi: nat :: phi in here by {
        AllPhis(phiStack);
      }
      NothingKept(cx, args, defAcc, BlocksOf(t) - {t.block}, path + BlocksOf(t));
      var i := 0;
      while i < |t.children|
        invariant 0 <= i <= |t.children| && AllStacks(phiStack) == here
        invariant forall j | 0 <= j < i :: Allocated(cx, t.children[j], here, args)
        invariant forall j | i <= j < |t.children| :: Untouched(cx, defAcc, BlocksOf(t.children[j]))
        invariant ArgsKept(cx, old(args), args, BlocksOf(t) - {t.block})
        invariant SameElsewhere(cx, old(defAcc), defAcc, path + BlocksOf(t))
      {
        var c := t.children[i];
        ghost var a, d := args, defAcc;
        ChildFacts(t, i, path);
        AllocateArgs(cx, c, path + {t.block});
        forall j | 0 <= j < i
          ensures Allocated(cx, t.children[j], here, args)
        {
          ChildrenDisjoint(t, j, i);
          AllocatedStays(cx, t.children[j], here, a, args, BlocksOf(c));
        }
        forall j | i < j < |t.children|
          ensures Untouched(cx, defAcc, BlocksOf(t.children[j]))
        {
          ChildrenDisjoint(t, i, j);
          ChildFacts(t, j, path);
          StillUntouched(cx, d, defAcc, path + {t.block} + BlocksOf(c), BlocksOf(t.children[j]));
        }
        ArgsKeptMore(cx, old(args), a, args, BlocksOf(t) - {t.block}, BlocksOf(c), BlocksOf(t) - {t.block});
        SameElsewhereMore(cx, old(defAcc), d, defAcc, path + BlocksOf(t), path + {t.block} + BlocksOf(c),
          path + BlocksOf(t));
        i := i + 1;
      }
    }
  }

  lemma AllPhis(stacks: map<nat, Stack>)
    ensures forall phi: nat :: phi in AllStacks(stacks)
  {
  }

  lemma UntouchedPart(cx: Context, defAcc: map<(nat, nat), Frame>, blocks: set<nat>, part: set<nat>)
    requires Untouched(cx, defAcc, blocks) && part <= blocks
    ensures Untouched(cx, defAcc, part)
  {
  }

  lemma ChildrenUntouched(cx: Context, t: DomTree, d0: map<(nat, nat), Frame>, d: map<(nat, nat), Frame>,
                          path: set<nat>)
    requires IsTree(t) && BlocksOf(t) !! path && Untouched(cx, d0, BlocksOf(t)) &&
      SameElsewhere(cx, d0, d, path + {t.block})
    ensures forall i | 0 <= i < |t.children| :: Untouched(cx, d, BlocksOf(t.children[i]))
  {
    hide Untouched, SameElsewhere, BlocksOf, IsTree;
    forall i | 0 <= i < |t.children|
      ensures Untouched(cx, d, BlocksOf(t.children[i]))
    {
      ChildFacts(t, i, path);
      UntouchedPart(cx, d0, BlocksOf(t), BlocksOf(t.children[i]));
      StillUntouched(cx, d0, d, path + {t.block}, BlocksOf(t.children[i]));
    }
  }

  lemma SameElsewhereMore(cx: Context, d0: map<(nat, nat), Frame>, d1: map<(nat, nat), Frame>,
                          d2: map<(nat, nat), Frame>,
                          b1: set<nat>, b2: set<nat>, all: set<nat>)
    requires SameElsewhere(cx, d0, d1, b1) && SameElsewhere(cx, d1, d2, b2) && b1 + b2 <= all
    ensures SameElsewhere(cx, d0, d2, all)
  {
  }

  lemma NothingKept(cx: Context, a: map<nat, set<nat>>, d: map<(nat, nat), Frame>, b1: set<nat>, b2: set<nat>)
    ensures ArgsKept(cx, a, a, b1) && SameElsewhere(cx, d, d, b2)
  {
  }

  /** The taus of a block keep their arguments while those of the blocks below are allocated. */
  lemma RootStays(cx: Context, t: DomTree, here: Stacks, a0: map<nat, set<nat>>, a1: map<nat, set<nat>>,
                  a2: map<nat, set<nat>>)
    requires IsWellFormed(cx) && (forall phi: nat :: phi in here) && TausAllocated(cx, t.block, here, a1) &&
      t.block in BlocksOf(t)
    requires ArgsKept(cx, a0, a1, {t.block}) && ArgsKept(cx, a1, a2, BlocksOf(t) - {t.block})
    ensures TausAllocated(cx, t.block, here, a2) && ArgsKept(cx, a0, a2, BlocksOf(t))
  {
    hide IsWellFormed, ArgsKept, TausAllocated, BlocksOf;
    TausStay(cx, t.block, here, a1, a2, BlocksOf(t) - {t.block});
    ArgsKeptMore(cx, a0, a1, a2, {t.block}, BlocksOf(t) - {t.block}, BlocksOf(t));
  }

  // ----- what the taus of a phi are given -----

  /** Below its own block nothing is pushed for a phi, so every tau sees the frames pushed there. */
  lemma {:induction false} ArgsBelow(cx: Context, t: DomTree, st: Stacks, args: map<nat, set<nat>>, phi: nat, c: nat,
                                     i: nat)
    requires IsWellFormed(cx) && (forall p: nat :: p in st) && Allocated(cx, t, st, args)
    requires (forall b | b in BlocksOf(t) :: !IsPhiOf(cx, b, phi)) && c in BlocksOf(t) && i < |TausOf(cx, c)| &&
      TausOf(cx, c)[i].1 == phi
    ensures TausOf(cx, c)[i].0 in args && args[TausOf(cx, c)[i].0] == Chosen(TopOf(st[phi]), HotAt(cx.hot, c))
  {
    hide Chosen, TopOf;
    assert t.block in BlocksOf(t);
    EnteredExtends(cx, t.block, st, phi);
    if c != t.block {
      var k: nat :| k < |t.children| && c in BlocksOf(t.children[k]);
      forall b | b in BlocksOf(t.children[k])
        ensures !IsPhiOf(cx, b, phi)
      {
        assert b in BlocksOf(t);
      }
      ArgsBelow(cx, t.children[k], Entered(cx, t.block, st, |PhisOf(cx, t.block)|), args, phi, c, i);
    }
  }

  /** The initial frame, with the incubating paths added to it when hot paths start in the block. */
  function TopFrame(cx: Context, phi: PhiNode, b: nat, init: Frame): Frame {
    if IncubationPaths(cx, b) == {} then init else IncubationFrame(cx, phi, b, init, |phi.args|)
  }

  /** The taus of a phi of the block are given, in every block dominated by it, the definitions of the initial frame,
      with the incubating paths added to it, that a hot path of that block carries. */
  lemma ArgsAreFrame(cx: Context, t: DomTree, st: Stacks, path: set<nat>, args: map<nat, set<nat>>, n: nat, c: nat,
                     i: nat, init: Frame)
    requires IsWellFormed(cx) && IsTree(t) && Homed(cx, st, path) && BlocksOf(t) !! path && Allocated(cx, t, st, args)
    requires n < |PhisOf(cx, t.block)| && IsInitialFrame(cx.hot, PhisOf(cx, t.block)[n], t.block, init)
    requires c in BlocksOf(t) && i < |TausOf(cx, c)| && TausOf(cx, c)[i].1 == PhisOf(cx, t.block)[n].id
    ensures var top := TopFrame(cx, PhisOf(cx, t.block)[n], t.block, init);
      TausOf(cx, c)[i].0 in args && args[TausOf(cx, c)[i].0] == Restrict(top, HotAt(cx.hot, c)).Keys
  {
    var b, phi := t.block, PhisOf(cx, t.block)[n];
    assert b in BlocksOf(t) && IsPhiOf(cx, b, phi.id);
    OthersUntouched(cx, st, path, b, phi.id);
    DefFrameIsInitial(cx.hot, phi, b, |phi.args|);
    InitialFrameUnique(cx.hot, phi, b, init, DefFrame(cx.hot, phi, b, |phi.args|));
    var here := Entered(cx, b, st, |PhisOf(cx, b)|);
    EnteredAt(cx, b, st, |PhisOf(cx, b)|, phi.id);
    hide IsWellFormed, Homed, Restrict, IsInitialFrame, Pushed, TopFrame, DefFrame;
    PushedOnEmpty(cx, phi, b, init);
    assert TopOf(here[phi.id]) == TopFrame(cx, phi, b, init);
    if c != b {
      var k: nat :| k < |t.children| && c in BlocksOf(t.children[k]);
      NoPhiBelow(cx, t, k, phi.id);
      ArgsBelow(cx, t.children[k], here, args, phi.id, c, i);
    }
  }

  /** Operand i is d, and x goes through its incoming block and b. */
  predicate ComesFrom(cx: Context, phi: PhiNode, b: nat, i: nat, d: nat, x: nat)
    requires i < |phi.args|
  {
    phi.args[i].def == d && x in HotAt(cx.hot, phi.args[i].from) && x in HotAt(cx.hot, b)
  }

  /** x carries d from the phi's block down: it came with d from an incoming block; or it starts in the phi's block, and
      d came with some path, is no phi or tau, or comes along a back edge. */
  ghost predicate IsCarried(cx: Context, phi: PhiNode, b: nat, d: nat, x: nat) {
    || (exists i | 0 <= i < |phi.args| :: ComesFrom(cx, phi, b, i, d, x))
    || (Incubates(cx, b, x) &&
         ((exists i, y: nat | 0 <= i < |phi.args| :: ComesFrom(cx, phi, b, i, d, y)) ||
          (exists i | 0 <= i < |phi.args| :: BringsDef(cx, phi, b, i, d))))
  }

  lemma InitialComesFrom(cx: Context, phi: PhiNode, b: nat, init: Frame, d: nat)
    requires IsInitialFrame(cx.hot, phi, b, init)
    ensures forall x: nat :: x in PathsOf(init, d) <==> exists i | 0 <= i < |phi.args| :: ComesFrom(cx, phi, b, i, d, x)
    ensures d in init <==> exists i, y: nat | 0 <= i < |phi.args| :: ComesFrom(cx, phi, b, i, d, y)
  {
    forall x: nat
      ensures x in PathsOf(init, d) <==> exists i | 0 <= i < |phi.args| :: ComesFrom(cx, phi, b, i, d, x)
    {
      assert x in PathsOf(init, d) <==> x in HotAt(cx.hot, b) && Frames.Carries(cx.hot, phi, d, x, |phi.args|);
      if x in PathsOf(init, d) {
        var i :| 0 <= i < |phi.args| && phi.args[i].def == d && x in HotAt(cx.hot, phi.args[i].from);
        assert ComesFrom(cx, phi, b, i, d, x);
      }
    }
    if d in init {
      var y :| y in init[d];
      assert y in PathsOf(init, d);
      var i :| 0 <= i < |phi.args| && ComesFrom(cx, phi, b, i, d, y);
    } else if i, y: nat :| 0 <= i < |phi.args| && ComesFrom(cx, phi, b, i, d, y) {
      assert y in PathsOf(init, d);
    }
  }

  lemma TopFrameCarries(cx: Context, phi: PhiNode, b: nat, init: Frame, d: nat, x: nat)
    requires IsInitialFrame(cx.hot, phi, b, init)
    ensures x in PathsOf(TopFrame(cx, phi, b, init), d) <==> IsCarried(cx, phi, b, d, x)
  {
    hide IsInitialFrame, Incubates, BringsDef, IncubationPaths, IncubationFrame;
    InitialComesFrom(cx, phi, b, init, d);
    IncubatesIff(cx, b, x);
    IncubationFrameIs(cx, phi, b, init, |phi.args|, d);
    var fr := IncubationFrame(cx, phi, b, init, |phi.args|);
    assert x in PathsOf(fr, d) <==> Carries(cx, phi, b, init, |phi.args|, d in fr, d, x);
    forall i | 0 <= i < |phi.args| && BringsPath(cx, phi, b, i, d, x)
      ensures x in PathsOf(init, d)
    {
      assert ComesFrom(cx, phi, b, i, d, x);
    }
  }

  /** A tau of a phi of the block is given exactly the definitions that some hot path of the tau's block carries. */
  lemma ArgsAreCarried(cx: Context, t: DomTree, st: Stacks, path: set<nat>, args: map<nat, set<nat>>, n: nat, c: nat,
                       i: nat, d: nat)
    requires IsWellFormed(cx) && IsTree(t) && Homed(cx, st, path) && BlocksOf(t) !! path && Allocated(cx, t, st, args)
    requires n < |PhisOf(cx, t.block)|
    requires c in BlocksOf(t) && i < |TausOf(cx, c)| && TausOf(cx, c)[i].1 == PhisOf(cx, t.block)[n].id
    ensures TausOf(cx, c)[i].0 in args
    ensures d in args[TausOf(cx, c)[i].0] <==>
      exists x | x in HotAt(cx.hot, c) :: IsCarried(cx, PhisOf(cx, t.block)[n], t.block, d, x)
  {
    var b, phi := t.block, PhisOf(cx, t.block)[n];
    var init := DefFrame(cx.hot, phi, b, |phi.args|);
    DefFrameIsInitial(cx.hot, phi, b, |phi.args|);
    ArgsAreFrame(cx, t, st, path, args, n, c, i, init);
    hide IsWellFormed, IsTree, Homed, Allocated, TopFrame, IsCarried, DefFrame;
    var top := TopFrame(cx, phi, b, init);
    forall x: nat
      ensures x in PathsOf(top, d) <==> IsCarried(cx, phi, b, d, x)
    {
      TopFrameCarries(cx, phi, b, init, d, x);
    }
    if x :| x in HotAt(cx.hot, c) && IsCarried(cx, phi, b, d, x) {
      assert x in top[d] * HotAt(cx.hot, c);
    }
    if d in Restrict(top, HotAt(cx.hot, c)) {
      var x :| x in top[d] * HotAt(cx.hot, c);
      assert x in PathsOf(top, d);
    }
  }

  lemma PushedOnEmpty(cx: Context, phi: PhiNode, b: nat, init: Frame)
    requires init == DefFrame(cx.hot, phi, b, |phi.args|)
    ensures TopOf(Pushed(cx, phi, b, [])) == TopFrame(cx, phi, b, init)
  {
    hide DefFrame, IncubationFrame, IncubationPaths;
  }

  lemma NoPhiBelow(cx: Context, t: DomTree, k: nat, phi: nat)
    requires IsWellFormed(cx) && IsTree(t) && IsPhiOf(cx, t.block, phi) && k < |t.children|
    ensures forall b | b in BlocksOf(t.children[k]) :: !IsPhiOf(cx, b, phi)
  {
    hide IsWellFormed;
    forall b | b in BlocksOf(t.children[k])
      ensures !IsPhiOf(cx, b, phi)
    {
      if IsPhiOf(cx, b, phi) {
        PhiInOneBlock(cx, t.block, b, phi);
      }
    }
  }

  /** Where all hot paths start at the entry, none starts in another block. */
  lemma NoneIncubates(cx: Context, paths: seq<seq<nat>>, b: nat)
    requires IsAcyclic(cx.f) && AreRooted(cx.f, paths) && (forall c :: HotAt(cx.hot, c) == PathsThrough(paths, c)) &&
      b != cx.f.order[0]
    ensures IncubationPaths(cx, b) == {}
  {
    forall x | x in HotAt(cx.hot, b)
      ensures x in PredPaths(cx.f, cx.hot, b, |PredsOf(cx.f, b)|)
    {
      assert IsRooted(cx.f, paths[x]);
      var p := CameFrom(cx.f, paths[x], b);
      var j :| 0 <= j < |PredsOf(cx.f, b)| && PredsOf(cx.f, b)[j] == p;
      InPredPaths(cx.f, cx.hot, b, |PredsOf(cx.f, b)|, j, x);
    }
  }

  lemma {:induction false} InPredPaths(f: FlowGraph, hot: HotPathSet, b: nat, n: nat, j: nat, x: nat)
    requires j < n <= |PredsOf(f, b)| && x in HotAt(hot, PredsOf(f, b)[j])
    ensures x in PredPaths(f, hot, b, n)
  {
    if j < n - 1 {
      InPredPaths(f, hot, b, n - 1, j, x);
    }
  }

  /** The two ways of finding a tau's arguments agree: what src/HPSSA.cpp accumulates along hot paths in a block it
      visits is what src/HPSSA_new.cpp reads off the top frame of the phi's stack there. */
  lemma ArgumentsAgree(cx: Context, paths: seq<seq<nat>>, t: DomTree, st: Stacks, path: set<nat>,
                       args: map<nat, set<nat>>, n: nat, i: nat, c: nat,
                       k: nat, dom: set<nat>, end: nat, caloric: set<nat>, init: Frame, acc: FrameMap,
                       taus: map<nat, set<nat>>)
    requires IsWellFormed(cx) && IsTree(t) && Homed(cx, st, path) && BlocksOf(t) !! path && Allocated(cx, t, st, args)
    requires n < |PhisOf(cx, t.block)| && IsSetting(cx.f, cx.succs, paths, cx.hot, t.block, k, dom) && k > 0
    requires k <= end <= |cx.f.order| && IsInitialFrame(cx.hot, PhisOf(cx, t.block)[n], t.block, init)
    requires TausAreFrames(cx.f, cx.hot, caloric, init, k, end, acc, taus)
    requires c in BlocksOf(t) && c in cx.f.order[k..end] && i < |TausOf(cx, c)| &&
      TausOf(cx, c)[i].1 == PhisOf(cx, t.block)[n].id
    ensures TausOf(cx, c)[i].0 in args && args[TausOf(cx, c)[i].0] == FrameAt(acc, c).Keys
    ensures c in caloric ==> args[TausOf(cx, c)[i].0] == if c in taus then taus[c] else {}
  {
    assert t.block != cx.f.order[0];
    NoneIncubates(cx, paths, t.block);
    hide IsWellFormed, IsTree, Homed, Allocated, IsSetting, IsInitialFrame, IncubationPaths;
    ArgsAreFrame(cx, t, st, path, args, n, c, i, init);
  }

  /** Every block of the tree is reached with stacks of frames from the blocks on the way to it. */
  lemma {:induction false} AllocatedAt(cx: Context, root: DomTree, st0: Stacks, path0: set<nat>,
                                       args: map<nat, set<nat>>, b: nat)
    returns (t: DomTree, st: Stacks, path: set<nat>)
    requires IsWellFormed(cx) && IsTree(root) && Homed(cx, st0, path0) && BlocksOf(root) !! path0 &&
      Allocated(cx, root, st0, args) && b in BlocksOf(root)
    ensures t.block == b && IsTree(t) && Homed(cx, st, path) && BlocksOf(t) !! path && Allocated(cx, t, st, args)
    decreases root
  {
    hide IsWellFormed, HomedAt, IsTree, BlocksOf, Entered, TausAllocated;
    if b == root.block {
      t, st, path := root, st0, path0;
    } else {
      var k := ChildWith(root, b);
      ChildFacts(root, k, path0);
      EnteredHomed(cx, root.block, st0, path0);
      t, st, path := AllocatedAt(cx, root.children[k], Entered(cx, root.block, st0, |PhisOf(cx, root.block)|),
        path0 + {root.block}, args, b);
    }
  }

  /** The whole walk, from empty stacks. */
  method AllocateAll(cx: Context, root: DomTree) returns (allocator: ArgAllocator)
    requires IsWellFormed(cx) && IsTree(root)
    ensures Allocated(cx, root, AllStacks(map[]), allocator.args) && Homed(cx, AllStacks(map[]), {})
    ensures AllStacks(allocator.phiStack) == AllStacks(map[])
  {
    allocator := new ArgAllocator();
    allocator.AllocateArgs(cx, root, {});
  }
}
