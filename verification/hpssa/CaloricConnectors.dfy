/** getCaloricConnector of src/HPSSA.cpp and src/HPSSA_new.cpp: buddy sets of all blocks in reverse post
    order, and the blocks where hot and cold definitions meet. */
module CaloricConnectors {
  import opened BuddySets

  /** The predecessors of every block, and the blocks the entry reaches in reverse post order. */
  datatype FlowGraph = FlowGraph(preds: map<nat, seq<nat>>, order: seq<nat>)

  type HotPathSet = map<nat, Paths>
  type BuddyMap = map<nat, seq<Paths>>

  function PredsOf(f: FlowGraph, b: nat): seq<nat> {
    if b in f.preds then f.preds[b] else []
  }

  function HotAt(hot: HotPathSet, b: nat): Paths {
    if b in hot then hot[b] else {}
  }

  function BuddiesAt(buddies: BuddyMap, b: nat): seq<Paths> {
    if b in buddies then buddies[b] else []
  }

  /** Reverse post order of a graph without cycles: every predecessor the entry reaches comes earlier. */
  ghost predicate IsTopological(f: FlowGraph) {
    && f.order != [] && (forall i, j | 0 <= i < j < |f.order| :: f.order[i] != f.order[j])
    && forall k, i | 0 <= k < |f.order| && 0 <= i < |PredsOf(f, f.order[k])| ::
         PredsOf(f, f.order[k])[i] !in f.order[k..]
  }

  // ----- what reaches a block -----

  function Meet(sets: seq<Paths>, here: Paths): (r: seq<Paths>)
    ensures |r| == |sets|
  {
    seq(|sets|, k requires 0 <= k < |sets| => sets[k] * here)
  }

  /** The buddy sets of the first i predecessors, as far as their paths pass through b. */
  function Incoming(f: FlowGraph, hot: HotPathSet, buddies: BuddyMap, b: nat, i: nat): seq<Paths>
    requires i <= |PredsOf(f, b)|
  {
    if i == 0 then []
    else Incoming(f, hot, buddies, b, i - 1) + Meet(BuddiesAt(buddies, PredsOf(f, b)[i - 1]), HotAt(hot, b))
  }

  /** The predecessor is on no hot path, or has a buddy set with no path through b. */
  ghost predicate IsColdFor(hot: HotPathSet, buddies: BuddyMap, b: nat, p: nat) {
    HotAt(hot, p) == {} ||
    exists k :: 0 <= k < |BuddiesAt(buddies, p)| && BuddiesAt(buddies, p)[k] * HotAt(hot, b) == {}
  }

  ghost predicate HasColdPred(f: FlowGraph, hot: HotPathSet, buddies: BuddyMap, b: nat, i: nat)
    requires i <= |PredsOf(f, b)|
  {
    exists j :: 0 <= j < i && IsColdFor(hot, buddies, b, PredsOf(f, b)[j])
  }

  /** The hot paths of the first k blocks. */
  function SeenBefore(f: FlowGraph, hot: HotPathSet, k: nat): Paths
    requires k <= |f.order|
  {
    if k == 0 then {} else SeenBefore(f, hot, k - 1) + HotAt(hot, f.order[k - 1])
  }

  function WithIncubation(sets: seq<Paths>, incubation: Paths): (r: seq<Paths>)
    ensures |r| == |sets|
  {
    seq(|sets|, k requires 0 <= k < |sets| => sets[k] + incubation)
  }

  ghost predicate HasRefinement(f: FlowGraph, hot: HotPathSet, buddies: BuddyMap, b: nat, here: seq<Paths>,
                                incubation: Paths)
  {
    exists raw :: IsRefinement(raw, Incoming(f, hot, buddies, b, |PredsOf(f, b)|)) &&
      here == WithIncubation(raw, incubation)
  }

  /** What is computed for the k-th block of the order. */
  ghost predicate BlockOk(f: FlowGraph, hot: HotPathSet, buddies: BuddyMap, caloric: set<nat>, k: nat)
    requires k < |f.order|
  {
    var b := f.order[k];
    b in buddies &&
    if k == 0 then buddies[b] == [HotAt(hot, b)] && b !in caloric
    else
      && HasRefinement(f, hot, buddies, b, buddies[b], HotAt(hot, b) - SeenBefore(f, hot, k))
      && (b in caloric <==> HotAt(hot, b) != {} && HasColdPred(f, hot, buddies, b, |PredsOf(f, b)|))
  }

  // ----- the computation -----

  lemma SkipEmpty(sets: seq<Paths>, already: Paths, seen: seq<Paths>)
    requires Refines(sets, already, seen)
    ensures Refines(sets, already, seen + [{}])
  {
    hide IsPartition;
    var all: seq<Paths> := seen + [{}];
    forall x, y
      ensures InSome(all, x) <==> InSome(seen, x)
      ensures SameMembers(all, x, y) <==> SameMembers(seen, x, y)
    {
      AlsoIn(seen, {}, x);
      AlsoSame(seen, {}, x, y);
    }
  }

  /** Takes the buddy sets of one predecessor into account. */
  method VisitPred(sets: seq<Paths>, already: Paths, predSets: seq<Paths>, here: Paths, ghost seen: seq<Paths>)
    returns (sets': seq<Paths>, already': Paths, cold: bool)
    requires Refines(sets, already, seen)
    ensures Refines(sets', already', seen + Meet(predSets, here))
    ensures cold <==> exists k :: 0 <= k < |predSets| && predSets[k] * here == {}
  {
    hide Refines;
    sets', already', cold := sets, already, false;
    ghost var done := seen;
    var i := 0;
    while i < |predSets|
      invariant 0 <= i <= |predSets| && done == seen + Meet(predSets, here)[..i] && Refines(sets', already', done)
      invariant cold <==> exists k :: 0 <= k < i && predSets[k] * here == {}
    {
      var pathsHere := predSets[i] * here;
      assert seen + Meet(predSets, here)[..i + 1] == done + [pathsHere];
      if pathsHere == {} {
        cold := true;
        SkipEmpty(sets', already', done);
      } else {
        sets', already' := RefineBy(sets', already', pathsHere, done);
      }
      done := done + [pathsHere];
      i := i + 1;
    }
    assert Meet(predSets, here)[..i] == Meet(predSets, here);
  }

  /** The buddy sets of one block other than the entry, and whether it is a caloric connector. */
  method VisitBlock(f: FlowGraph, hot: HotPathSet, buddies: BuddyMap, b: nat, incubation: Paths)
    returns (here: seq<Paths>, isCaloric: bool)
    ensures HasRefinement(f, hot, buddies, b, here, incubation)
    ensures isCaloric <==> HotAt(hot, b) != {} && HasColdPred(f, hot, buddies, b, |PredsOf(f, b)|)
  {
    hide Refines;
    var sets, already: Paths := [], {};
    var hasColdPath := false;
    var preds := PredsOf(f, b);
    assert Refines(sets, already, []) by {
      NothingRefined();
    }
    var i := 0;
    while i < |preds|
      invariant 0 <= i <= |preds| && Refines(sets, already, Incoming(f, hot, buddies, b, i))
      invariant hasColdPath <==> HasColdPred(f, hot, buddies, b, i)
    {
      var cold;
      sets, already, cold :=
        VisitPred(sets, already, BuddiesAt(buddies, preds[i]), HotAt(hot, b), Incoming(f, hot, buddies, b, i));
      hasColdPath := hasColdPath || HotAt(hot, preds[i]) == {} || cold;
      assert IsColdFor(hot, buddies, b, preds[i]) <==> HotAt(hot, preds[i]) == {} || cold;
      i := i + 1;
    }
    RefinesIsRefinement(sets, already, Incoming(f, hot, buddies, b, i));
    here := sets;
    var j := 0;
    while j < |here|
      invariant 0 <= j <= |here| == |sets|
      invariant forall k | 0 <= k < j :: here[k] == sets[k] + incubation
      invariant forall k | j <= k < |here| :: here[k] == sets[k]
    {
      here := here[j := here[j] + incubation];
      j := j + 1;
    }
    assert here == WithIncubation(sets, incubation);
    isCaloric := HotAt(hot, b) != {} && hasColdPath;
  }

  lemma NothingRefined()
    ensures Refines([], {}, [])
  {
  }

  lemma RefinesIsRefinement(sets: seq<Paths>, already: Paths, seen: seq<Paths>)
    requires Refines(sets, already, seen)
    ensures IsRefinement(sets, seen)
  {
  }

  lemma {:induction false} IncomingStays(f: FlowGraph, hot: HotPathSet, buddies: BuddyMap, buddies': BuddyMap, b: nat,
                                         i: nat)
    requires i <= |PredsOf(f, b)| && forall p | p in PredsOf(f, b) :: BuddiesAt(buddies', p) == BuddiesAt(buddies, p)
    ensures Incoming(f, hot, buddies', b, i) == Incoming(f, hot, buddies, b, i)
  {
    if i > 0 {
      IncomingStays(f, hot, buddies, buddies', b, i - 1);
      assert PredsOf(f, b)[i - 1] in PredsOf(f, b);
    }
  }

  /** Adding a later block leaves what was computed for the earlier ones, and its own predecessors. */
  lemma BlockStaysOk(f: FlowGraph, hot: HotPathSet, buddies: BuddyMap, buddies': BuddyMap, caloric: set<nat>,
                     caloric': set<nat>, k: nat, n: nat)
    requires IsTopological(f) && k < n < |f.order| && BlockOk(f, hot, buddies, caloric, k)
    requires (forall b | b != f.order[n] ::
      BuddiesAt(buddies', b) == BuddiesAt(buddies, b) && (b in caloric' <==> b in caloric))
    requires buddies.Keys <= buddies'.Keys
    ensures BlockOk(f, hot, buddies', caloric', k)
  {
    hide IsRefinement;
    var b := f.order[k];
    assert f.order[k..][n - k] == f.order[n];
    forall p | p in PredsOf(f, b)
      ensures p != f.order[n]
    {
    }
    assert BuddiesAt(buddies', b) == BuddiesAt(buddies, b);
    if k > 0 {
      IncomingStays(f, hot, buddies, buddies', b, |PredsOf(f, b)|);
      forall j | 0 <= j < |PredsOf(f, b)|
        ensures IsColdFor(hot, buddies', b, PredsOf(f, b)[j]) <==> IsColdFor(hot, buddies, b, PredsOf(f, b)[j])
      {
        assert PredsOf(f, b)[j] in PredsOf(f, b);
      }
    }
  }

  lemma BlockBecomesOk(f: FlowGraph, hot: HotPathSet, buddies: BuddyMap, here: seq<Paths>, caloric: set<nat>,
                       isCaloric: bool, n: nat)
    requires IsTopological(f) && 0 < n < |f.order| && f.order[n] !in caloric
    requires HasRefinement(f, hot, buddies, f.order[n], here, HotAt(hot, f.order[n]) - SeenBefore(f, hot, n))
    requires isCaloric <==>
      HotAt(hot, f.order[n]) != {} && HasColdPred(f, hot, buddies, f.order[n], |PredsOf(f, f.order[n])|)
    ensures BlockOk(f, hot, buddies[f.order[n] := here], if isCaloric then caloric + {f.order[n]} else caloric, n)
  {
    hide IsRefinement;
    var b := f.order[n];
    var buddies' := buddies[b := here];
    assert f.order[n..][0] == b;
    forall p | p in PredsOf(f, b)
      ensures p != b
    {
    }
    IncomingStays(f, hot, buddies, buddies', b, |PredsOf(f, b)|);
    forall j | 0 <= j < |PredsOf(f, b)|
      ensures IsColdFor(hot, buddies', b, PredsOf(f, b)[j]) <==> IsColdFor(hot, buddies, b, PredsOf(f, b)[j])
    {
      assert PredsOf(f, b)[j] in PredsOf(f, b);
    }
  }

  method GetCaloricConnector(f: FlowGraph, hot: HotPathSet) returns (buddies: BuddyMap, caloric: set<nat>)
    requires IsTopological(f)
    ensures forall k | 0 <= k < |f.order| :: BlockOk(f, hot, buddies, caloric, k)
    ensures forall b | b in caloric || b in buddies :: b in f.order
  {
    hide IsTopological, BlockOk, HasColdPred, HasRefinement;
    buddies, caloric := map[], {};
    var allPaths: Paths := {};
    var n := 0;
    while n < |f.order|
      invariant 0 <= n <= |f.order| && allPaths == SeenBefore(f, hot, n)
      invariant forall k | 0 <= k < n :: BlockOk(f, hot, buddies, caloric, k)
      invariant forall b | b in caloric || b in buddies :: b in f.order[..n]
    {
      var b := f.order[n];
      NotBefore(f, n);
      var incubation := HotAt(hot, b) - allPaths;
      assert allPaths + incubation == SeenBefore(f, hot, n + 1);
      allPaths := allPaths + incubation;
      ghost var buddies0, caloric0 := buddies, caloric;
      if n == 0 {
        buddies := buddies[b := [HotAt(hot, b)]];
        EntryOk(f, hot, buddies, caloric);
      } else {
        var here, isCaloric := VisitBlock(f, hot, buddies, b, incubation);
        BlockBecomesOk(f, hot, buddies, here, caloric, isCaloric, n);
        buddies := buddies[b := here];
        caloric := if isCaloric then caloric + {b} else caloric;
      }
      forall k | 0 <= k < n
        ensures BlockOk(f, hot, buddies, caloric, k)
      {
        BlockStaysOk(f, hot, buddies0, buddies, caloric0, caloric, k, n);
      }
      assert f.order[..n + 1] == f.order[..n] + [b];
      n := n + 1;
    }
    assert f.order[..n] == f.order;
  }

  lemma NotBefore(f: FlowGraph, n: nat)
    requires IsTopological(f) && n < |f.order|
    ensures f.order[n] !in f.order[..n]
  {
  }

  lemma EntryOk(f: FlowGraph, hot: HotPathSet, buddies: BuddyMap, caloric: set<nat>)
    requires f.order != [] && f.order[0] !in caloric && f.order[0] in buddies &&
      buddies[f.order[0]] == [HotAt(hot, f.order[0])]
    ensures BlockOk(f, hot, buddies, caloric, 0)
  {
  }

  // ----- what the sets of a block are -----

  /** An incoming set holds a path when a predecessor's buddy set does and the path goes through b. */
  lemma {:induction false} IncomingSets(f: FlowGraph, hot: HotPathSet, buddies: BuddyMap, b: nat, n: nat)
    requires n <= |PredsOf(f, b)|
    ensures forall k | 0 <= k < |Incoming(f, hot, buddies, b, n)| ::
      IsIncoming(f, hot, buddies, b, n, Incoming(f, hot, buddies, b, n)[k])
    ensures forall j, i | 0 <= j < n && 0 <= i < |BuddiesAt(buddies, PredsOf(f, b)[j])| ::
      BuddiesAt(buddies, PredsOf(f, b)[j])[i] * HotAt(hot, b) in Incoming(f, hot, buddies, b, n)
  {
    if n > 0 {
      IncomingSets(f, hot, buddies, b, n - 1);
      var last := BuddiesAt(buddies, PredsOf(f, b)[n - 1]);
      var met := Meet(last, HotAt(hot, b));
      var before := Incoming(f, hot, buddies, b, n - 1);
      forall k | 0 <= k < |before + met|
        ensures IsIncoming(f, hot, buddies, b, n, (before + met)[k])
      {
        if k < |before| {
          assert IsIncoming(f, hot, buddies, b, n - 1, before[k]);
        } else {
          assert (before + met)[k] == last[k - |before|] * HotAt(hot, b);
          assert IsFrom(hot, buddies, b, PredsOf(f, b)[n - 1], (before + met)[k]);
        }
      }
      forall i | 0 <= i < |last|
        ensures last[i] * HotAt(hot, b) in before + met
      {
        assert (before + met)[|before| + i] == last[i] * HotAt(hot, b);
      }
    }
  }

  ghost predicate IsFrom(hot: HotPathSet, buddies: BuddyMap, b: nat, p: nat, s: Paths) {
    exists i :: 0 <= i < |BuddiesAt(buddies, p)| && s == BuddiesAt(buddies, p)[i] * HotAt(hot, b)
  }

  ghost predicate IsIncoming(f: FlowGraph, hot: HotPathSet, buddies: BuddyMap, b: nat, n: nat, s: Paths)
    requires n <= |PredsOf(f, b)|
  {
    exists j :: 0 <= j < n && IsFrom(hot, buddies, b, PredsOf(f, b)[j], s)
  }

  /** A hot path of the k-th block and of none of the blocks before it. */
  ghost predicate StartsAt(f: FlowGraph, hot: HotPathSet, k: nat, x: nat)
    requires k < |f.order|
  {
    x in HotAt(hot, f.order[k]) && forall j | 0 <= j < k :: x !in HotAt(hot, f.order[j])
  }

  /** A hot path of the block that a buddy set of a predecessor holds. */
  ghost predicate Arrives(f: FlowGraph, hot: HotPathSet, buddies: BuddyMap, b: nat, x: nat) {
    x in HotAt(hot, b) && exists p | p in PredsOf(f, b) :: InSome(BuddiesAt(buddies, p), x)
  }

  /** Every buddy set of every predecessor holds both or neither. */
  ghost predicate NeverParted(f: FlowGraph, buddies: BuddyMap, b: nat, x: nat, y: nat) {
    forall p | p in PredsOf(f, b) :: SameMembers(BuddiesAt(buddies, p), x, y)
  }

  lemma {:induction false} SeenBeforeIff(f: FlowGraph, hot: HotPathSet, k: nat, x: nat)
    requires k <= |f.order|
    ensures x in SeenBefore(f, hot, k) <==> exists j | 0 <= j < k :: x in HotAt(hot, f.order[j])
  {
    if k > 0 {
      SeenBeforeIff(f, hot, k - 1, x);
      assert SeenBefore(f, hot, k) == SeenBefore(f, hot, k - 1) + HotAt(hot, f.order[k - 1]);
    }
  }

  lemma ArrivesIff(f: FlowGraph, hot: HotPathSet, buddies: BuddyMap, b: nat, x: nat)
    ensures InSome(Incoming(f, hot, buddies, b, |PredsOf(f, b)|), x) <==> Arrives(f, hot, buddies, b, x)
  {
    hide Arrives, Incoming;
    if InSome(Incoming(f, hot, buddies, b, |PredsOf(f, b)|), x) {
      IncomingArrives(f, hot, buddies, b, x);
    }
    if Arrives(f, hot, buddies, b, x) {
      ArrivesIncoming(f, hot, buddies, b, x);
    }
  }

  lemma IncomingArrives(f: FlowGraph, hot: HotPathSet, buddies: BuddyMap, b: nat, x: nat)
    requires InSome(Incoming(f, hot, buddies, b, |PredsOf(f, b)|), x)
    ensures Arrives(f, hot, buddies, b, x)
  {
    var n := |PredsOf(f, b)|;
    var sets := Incoming(f, hot, buddies, b, n);
    IncomingSets(f, hot, buddies, b, n);
    hide Incoming;
    var k :| 0 <= k < |sets| && x in sets[k];
    assert IsIncoming(f, hot, buddies, b, n, sets[k]);
    var j :| 0 <= j < n && IsFrom(hot, buddies, b, PredsOf(f, b)[j], sets[k]);
    assert InSome(BuddiesAt(buddies, PredsOf(f, b)[j]), x);
  }

  lemma ArrivesIncoming(f: FlowGraph, hot: HotPathSet, buddies: BuddyMap, b: nat, x: nat)
    requires Arrives(f, hot, buddies, b, x)
    ensures InSome(Incoming(f, hot, buddies, b, |PredsOf(f, b)|), x)
  {
    var n := |PredsOf(f, b)|;
    var sets := Incoming(f, hot, buddies, b, n);
    var p :| p in PredsOf(f, b) && InSome(BuddiesAt(buddies, p), x);
    var j :| 0 <= j < n && PredsOf(f, b)[j] == p;
    var i :| 0 <= i < |BuddiesAt(buddies, p)| && x in BuddiesAt(buddies, p)[i];
    IncomingSets(f, hot, buddies, b, n);
    hide Incoming, IsIncoming, PredsOf, BuddiesAt;
    assert BuddiesAt(buddies, PredsOf(f, b)[j])[i] * HotAt(hot, b) in sets;
    var k :| 0 <= k < |sets| && sets[k] == BuddiesAt(buddies, p)[i] * HotAt(hot, b);
    assert x in sets[k];
  }

  lemma PartedIff(f: FlowGraph, hot: HotPathSet, buddies: BuddyMap, b: nat, x: nat, y: nat)
    requires x in HotAt(hot, b) && y in HotAt(hot, b)
    ensures SameMembers(Incoming(f, hot, buddies, b, |PredsOf(f, b)|), x, y) <==> NeverParted(f, buddies, b, x, y)
  {
    var n := |PredsOf(f, b)|;
    var sets := Incoming(f, hot, buddies, b, n);
    IncomingSets(f, hot, buddies, b, n);
    hide Incoming;
    if SameMembers(sets, x, y) {
      forall j, i | 0 <= j < n && 0 <= i < |BuddiesAt(buddies, PredsOf(f, b)[j])|
        ensures x in BuddiesAt(buddies, PredsOf(f, b)[j])[i] <==> y in BuddiesAt(buddies, PredsOf(f, b)[j])[i]
      {
        var s := BuddiesAt(buddies, PredsOf(f, b)[j])[i] * HotAt(hot, b);
        assert s in sets;
        var k :| 0 <= k < |sets| && sets[k] == s;
        assert x in sets[k] <==> y in sets[k];
      }
    }
    if NeverParted(f, buddies, b, x, y) {
      forall k | 0 <= k < |sets|
        ensures x in sets[k] <==> y in sets[k]
      {
        assert IsIncoming(f, hot, buddies, b, n, sets[k]);
        var j :| 0 <= j < n && IsFrom(hot, buddies, b, PredsOf(f, b)[j], sets[k]);
        assert SameMembers(BuddiesAt(buddies, PredsOf(f, b)[j]), x, y);
      }
    }
  }

  /** Paths that start at a block are in all of its sets. Of the others, those that arrive are in one, and two of them
      together exactly when no set of a predecessor has parted them. */
  lemma BuddiesAreGroups(f: FlowGraph, hot: HotPathSet, buddies: BuddyMap, caloric: set<nat>, k: nat, x: nat, y: nat)
    requires 0 < k < |f.order| && BlockOk(f, hot, buddies, caloric, k)
    ensures var sets, b := BuddiesAt(buddies, f.order[k]), f.order[k];
      && (StartsAt(f, hot, k, x) ==> forall i | 0 <= i < |sets| :: x in sets[i])
      && (!StartsAt(f, hot, k, x) ==> (InSome(sets, x) <==> Arrives(f, hot, buddies, b, x)))
      && (!StartsAt(f, hot, k, x) && !StartsAt(f, hot, k, y) ==>
            (Together(sets, x, y) <==>
               Arrives(f, hot, buddies, b, x) && Arrives(f, hot, buddies, b, y) && NeverParted(f, buddies, b, x, y)))
  {
    var b := f.order[k];
    var incubation := HotAt(hot, b) - SeenBefore(f, hot, k);
    SeenBeforeIff(f, hot, k, x);
    SeenBeforeIff(f, hot, k, y);
    ArrivesIff(f, hot, buddies, b, x);
    ArrivesIff(f, hot, buddies, b, y);
    if x in HotAt(hot, b) && y in HotAt(hot, b) {
      PartedIff(f, hot, buddies, b, x, y);
    }
    hide SeenBefore, Incoming, NeverParted, IsPartition;
    var raw :| IsRefinement(raw, Incoming(f, hot, buddies, b, |PredsOf(f, b)|)) &&
      buddies[b] == WithIncubation(raw, incubation);
    GroupsWithIncubation(raw, incubation, x, y);
  }

  lemma GroupsWithIncubation(raw: seq<Paths>, incubation: Paths, x: nat, y: nat)
    ensures var sets := WithIncubation(raw, incubation);
      && (x in incubation ==> forall i | 0 <= i < |sets| :: x in sets[i])
      && (x !in incubation ==> (InSome(sets, x) <==> InSome(raw, x)))
      && (x !in incubation && y !in incubation ==> (Together(sets, x, y) <==> Together(raw, x, y)))
  {
    var sets := WithIncubation(raw, incubation);
    assert forall i | 0 <= i < |raw| :: sets[i] == raw[i] + incubation;
  }
}
