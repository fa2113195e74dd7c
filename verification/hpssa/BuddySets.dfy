/** The refinement of buddy sets in getCaloricConnector (src/HPSSA.cpp, src/HPSSA_new.cpp): hot paths of a
    block stay together as long as every set that reaches the block holds both or neither. */
module BuddySets {

  type Paths = set<nat>

  ghost predicate InSome(sets: seq<Paths>, x: nat) {
    exists k :: 0 <= k < |sets| && x in sets[k]
  }

  ghost predicate Together(sets: seq<Paths>, x: nat, y: nat) {
    exists k :: 0 <= k < |sets| && x in sets[k] && y in sets[k]
  }

  /** Both or neither are in each of the sets. */
  ghost predicate SameMembers(sets: seq<Paths>, x: nat, y: nat) {
    forall k | 0 <= k < |sets| :: x in sets[k] <==> y in sets[k]
  }

  /** Non-empty and disjoint. */
  ghost predicate IsPartition(sets: seq<Paths>) {
    (forall k | 0 <= k < |sets| :: sets[k] != {}) && forall j, k | 0 <= j < k < |sets| :: sets[j] !! sets[k]
  }

  /** The coarsest common refinement of the incoming sets. */
  ghost predicate IsRefinement(buddies: seq<Paths>, incoming: seq<Paths>) {
    && IsPartition(buddies)
    && (forall x :: InSome(buddies, x) <==> InSome(incoming, x))
    && (forall x, y :: Together(buddies, x, y) <==>
         InSome(incoming, x) && InSome(incoming, y) && SameMembers(incoming, x, y))
  }

  /** Any family whose sets each lie inside or outside every incoming set lies within the refinement. */
  lemma RefinementIsCoarsest(buddies: seq<Paths>, incoming: seq<Paths>, r: Paths)
    requires IsRefinement(buddies, incoming) && r != {}
    requires forall x | x in r :: InSome(incoming, x)
    requires forall k | 0 <= k < |incoming| :: r <= incoming[k] || r !! incoming[k]
    ensures exists k :: 0 <= k < |buddies| && r <= buddies[k]
  {
    var x :| x in r;
    assert InSome(buddies, x);
    var k :| 0 <= k < |buddies| && x in buddies[k];
    forall y | y in r
      ensures y in buddies[k]
    {
      assert SameMembers(incoming, x, y);
      assert Together(buddies, x, y);
      var j :| 0 <= j < |buddies| && x in buddies[j] && y in buddies[j];
      assert j == k;
    }
  }

  // ----- splitting the sets that some of the paths are in -----

  predicate IsBroken(buddy: Paths, oldPaths: Paths) {
    buddy * oldPaths != {} && buddy * oldPaths != buddy
  }

  function Kept(buddy: Paths, oldPaths: Paths): Paths {
    if IsBroken(buddy, oldPaths) then buddy - oldPaths else buddy
  }

  /** The second parts, in the order of the sets they come from. */
  ghost predicate ArePushed(buddies: seq<Paths>, oldPaths: Paths, toPush: seq<Paths>, source: seq<nat>, j: nat)
    requires j <= |buddies|
  {
    && |toPush| == |source|
    && (forall i | 0 <= i < |source| :: source[i] < j && IsBroken(buddies[source[i]], oldPaths) &&
         toPush[i] == buddies[source[i]] * oldPaths)
    && (forall i, k | 0 <= i < k < |source| :: source[i] < source[k])
    && (forall k | 0 <= k < j && IsBroken(buddies[k], oldPaths) :: k in source)
  }

  ghost predicate AreSplit(buddies: seq<Paths>, oldPaths: Paths, kept: seq<Paths>, toPush: seq<Paths>,
                           source: seq<nat>)
  {
    && |kept| == |buddies| && (forall k | 0 <= k < |buddies| :: kept[k] == Kept(buddies[k], oldPaths))
    && ArePushed(buddies, oldPaths, toPush, source, |buddies|)
  }

  /** The paths in the first j sets. */
  ghost function UnionOf(buddies: seq<Paths>, j: nat): Paths
    requires j <= |buddies|
  {
    if j == 0 then {} else UnionOf(buddies, j - 1) + buddies[j - 1]
  }

  lemma {:induction false} LaterApart(buddies: seq<Paths>, j: nat, k: nat)
    requires IsPartition(buddies) && j <= k < |buddies|
    ensures UnionOf(buddies, j) !! buddies[k]
  {
    if j > 0 {
      LaterApart(buddies, j - 1, k);
      assert buddies[j - 1] !! buddies[k];
    }
  }

  /** Breaks every set that holds some but not all of the old paths in two. */
  method SplitBuddies(buddies: seq<Paths>, oldPaths: Paths)
    returns (kept: seq<Paths>, toPush: seq<Paths>, ghost source: seq<nat>)
    requires IsPartition(buddies)
    ensures AreSplit(buddies, oldPaths, kept, toPush, source)
  {
    hide IsPartition, ArePushed;
    kept, toPush, source := buddies, [], [];
    var left := oldPaths;
    var j := 0;
    assert ArePushed(buddies, oldPaths, toPush, source, j) by {
      NothingPushed(buddies, oldPaths);
    }
    while j < |buddies|
      invariant 0 <= j <= |buddies| == |kept|
      invariant forall k | 0 <= k < j :: kept[k] == Kept(buddies[k], oldPaths)
      invariant forall k | j <= k < |buddies| :: kept[k] == buddies[k]
      invariant ArePushed(buddies, oldPaths, toPush, source, j) && left == oldPaths - UnionOf(buddies, j)
    {
      if left == {} {
        break;
      }
      LaterApart(buddies, j, j);
      var temp := left * kept[j];
      assert temp == buddies[j] * oldPaths;
      OnePushed(buddies, oldPaths, toPush, source, j);
      if temp != {} {
        if temp != kept[j] {
          kept := kept[j := kept[j] - temp];
          assert kept[j] == buddies[j] - oldPaths;
          toPush, source := toPush + [temp], source + [j];
        }
        left := left - temp;
      }
      j := j + 1;
    }
    if j < |buddies| {
      RestUnbroken(buddies, oldPaths, j);
      AllPushed(buddies, oldPaths, toPush, source, j);
    }
  }

  lemma NothingPushed(buddies: seq<Paths>, oldPaths: Paths)
    ensures ArePushed(buddies, oldPaths, [], [], 0)
  {
  }

  lemma OnePushed(buddies: seq<Paths>, oldPaths: Paths, toPush: seq<Paths>, source: seq<nat>, j: nat)
    requires j < |buddies| && ArePushed(buddies, oldPaths, toPush, source, j)
    ensures if IsBroken(buddies[j], oldPaths)
      then ArePushed(buddies, oldPaths, toPush + [buddies[j] * oldPaths], source + [j], j + 1)
            else ArePushed(buddies, oldPaths, toPush, source, j + 1)
  {
    if IsBroken(buddies[j], oldPaths) {
      var source' := source + [j];
      forall k | 0 <= k < j + 1 && IsBroken(buddies[k], oldPaths)
        ensures k in source'
      {
        if k == j {
          assert source'[|source|] == j;
        }
      }
    }
  }

  lemma AllPushed(buddies: seq<Paths>, oldPaths: Paths, toPush: seq<Paths>, source: seq<nat>, j: nat)
    requires j <= |buddies| && ArePushed(buddies, oldPaths, toPush, source, j) &&
      forall k | j <= k < |buddies| :: !IsBroken(buddies[k], oldPaths)
    ensures ArePushed(buddies, oldPaths, toPush, source, |buddies|)
  {
  }

  lemma RestUnbroken(buddies: seq<Paths>, oldPaths: Paths, j: nat)
    requires IsPartition(buddies) && j <= |buddies| && oldPaths - UnionOf(buddies, j) == {}
    ensures forall k | j <= k < |buddies| :: !IsBroken(buddies[k], oldPaths)
  {
    forall k | j <= k < |buddies|
      ensures buddies[k] * oldPaths == {}
    {
      LaterApart(buddies, j, k);
      hide IsPartition;
      assert oldPaths <= UnionOf(buddies, j) by {
        assert oldPaths == oldPaths - UnionOf(buddies, j) + oldPaths * UnionOf(buddies, j);
      }
    }
  }

  /** After the split, two paths are together when they were, and are both old or both not. */
  lemma SplitTogether(buddies: seq<Paths>, oldPaths: Paths, kept: seq<Paths>, toPush: seq<Paths>, source: seq<nat>,
                      x: nat, y: nat)
    requires AreSplit(buddies, oldPaths, kept, toPush, source)
    ensures Together(kept + toPush, x, y) <==> Together(buddies, x, y) && (x in oldPaths <==> y in oldPaths)
  {
    var r := kept + toPush;
    if Together(buddies, x, y) && (x in oldPaths <==> y in oldPaths) {
      var k :| 0 <= k < |buddies| && x in buddies[k] && y in buddies[k];
      if IsBroken(buddies[k], oldPaths) && x in oldPaths {
        var i :| 0 <= i < |source| && source[i] == k;
        assert r[|kept| + i] == toPush[i];
      } else {
        assert r[k] == Kept(buddies[k], oldPaths);
      }
    }
    if Together(r, x, y) {
      var k :| 0 <= k < |r| && x in r[k] && y in r[k];
      if k < |kept| {
        assert r[k] == Kept(buddies[k], oldPaths) && x in buddies[k] && y in buddies[k];
        assert x in buddies[k] * oldPaths <==> x in oldPaths;
        assert y in buddies[k] * oldPaths <==> y in oldPaths;
      } else {
        assert r[k] == buddies[source[k - |kept|]] * oldPaths;
      }
    }
  }

  lemma SplitPartition(buddies: seq<Paths>, oldPaths: Paths, kept: seq<Paths>, toPush: seq<Paths>, source: seq<nat>)
    requires IsPartition(buddies) && AreSplit(buddies, oldPaths, kept, toPush, source)
    ensures IsPartition(kept + toPush)
  {
    var r := kept + toPush;
    forall k | 0 <= k < |r|
      ensures r[k] != {}
    {
      if k < |kept| {
        assert r[k] == Kept(buddies[k], oldPaths);
        if IsBroken(buddies[k], oldPaths) {
          assert buddies[k] == buddies[k] * oldPaths + (buddies[k] - oldPaths);
        }
      } else {
        assert r[k] == toPush[k - |kept|];
      }
    }
    forall j, k | 0 <= j < k < |r|
      ensures r[j] !! r[k]
    {
      var sj := if j < |kept| then j else source[j - |kept|];
      var sk := if k < |kept| then k else source[k - |kept|];
      assert r[j] <= buddies[sj] && r[k] <= buddies[sk];
      if sj == sk {
        assert j < |kept| <= k;
      }
    }
  }

  // ----- one incoming set -----

  /** The state of the loop over incoming sets: the sets so far refine those seen. */
  ghost predicate Refines(buddies: seq<Paths>, already: Paths, seen: seq<Paths>) {
    IsRefinement(buddies, seen) && forall x :: x in already <==> InSome(buddies, x)
  }

  /** Takes one more, non-empty, incoming set into account. */
  method RefineBy(buddies: seq<Paths>, already: Paths, incoming: Paths, ghost seen: seq<Paths>)
    returns (buddies': seq<Paths>, already': Paths)
    requires Refines(buddies, already, seen)
    ensures Refines(buddies', already', seen + [incoming])
  {
    hide IsRefinement, AreSplit;
    var oldPaths := already * incoming;
    var newPaths := incoming - oldPaths;
    var pushed := if newPaths != {} then buddies + [newPaths] else buddies;
    already' := already + newPaths;
    assert newPaths == incoming - already;
    WithNewPaths(buddies, already, incoming, seen, pushed);
    ghost var source;
    var kept, toPush;
    kept, toPush, source := SplitBuddies(pushed, oldPaths);
    buddies' := kept + toPush;
    RefinedOnce(buddies, already, incoming, seen, pushed, kept, toPush, source);
  }

  lemma WithNewPaths(buddies: seq<Paths>, already: Paths, incoming: Paths, seen: seq<Paths>, pushed: seq<Paths>)
    requires Refines(buddies, already, seen)
    requires pushed == if incoming - already != {} then buddies + [incoming - already] else buddies
    ensures IsPartition(pushed) && (forall x | x in already * incoming :: InSome(pushed, x))
    ensures incoming - already * incoming == incoming - already
    ensures forall x, y :: Together(pushed, x, y) <==>
      Together(buddies, x, y) || (x in incoming - already && y in incoming - already)
  {
    assert forall k | 0 <= k < |buddies| :: buddies[k] <= already by {
      forall k, x | 0 <= k < |buddies| && x in buddies[k]
        ensures x in already
      {
        assert InSome(buddies, x);
      }
    }
    forall x | x in already * incoming
      ensures InSome(pushed, x)
    {
      assert InSome(buddies, x);
      var k :| 0 <= k < |buddies| && x in buddies[k];
      assert x in pushed[k];
    }
    forall x, y
      ensures Together(pushed, x, y) <==>
        Together(buddies, x, y) || (x in incoming - already && y in incoming - already)
    {
      if Together(buddies, x, y) {
        var k :| 0 <= k < |buddies| && x in buddies[k] && y in buddies[k];
        assert pushed[k] == buddies[k];
      }
      if x in incoming - already && y in incoming - already {
        assert pushed[|buddies|] == incoming - already;
      }
    }
  }

  lemma RefinedOnce(buddies: seq<Paths>, already: Paths, incoming: Paths, seen: seq<Paths>, pushed: seq<Paths>,
                    kept: seq<Paths>, toPush: seq<Paths>, source: seq<nat>)
    requires Refines(buddies, already, seen)
    requires pushed == if incoming - already != {} then buddies + [incoming - already] else buddies
    requires AreSplit(pushed, already * incoming, kept, toPush, source)
    ensures Refines(kept + toPush, already + (incoming - already * incoming), seen + [incoming])
  {
    hide AreSplit, IsPartition;
    WithNewPaths(buddies, already, incoming, seen, pushed);
    SplitPartition(pushed, already * incoming, kept, toPush, source);
    var r, all := kept + toPush, seen + [incoming];
    forall x, y
      ensures Together(r, x, y) <==> InSome(all, x) && InSome(all, y) && SameMembers(all, x, y)
    {
      SplitTogether(pushed, already * incoming, kept, toPush, source, x, y);
      AlsoIn(seen, incoming, x);
      AlsoIn(seen, incoming, y);
      AlsoSame(seen, incoming, x, y);
      TogetherStep(buddies, already, incoming, seen, x, y);
    }
    forall x
      ensures InSome(r, x) <==> InSome(all, x)
      ensures x in already + (incoming - already * incoming) <==> InSome(r, x)
    {
      assert InSome(r, x) <==> Together(r, x, x);
      AlsoIn(seen, incoming, x);
      assert SameMembers(all, x, x);
      assert x in already <==> InSome(seen, x);
    }
  }

  lemma TogetherStep(buddies: seq<Paths>, already: Paths, incoming: Paths, seen: seq<Paths>, x: nat, y: nat)
    requires Refines(buddies, already, seen)
    ensures
      ((Together(buddies, x, y) || (x in incoming - already && y in incoming - already)) &&
       (x in already * incoming <==> y in already * incoming)) <==>
      ((InSome(seen, x) || x in incoming) && (InSome(seen, y) || y in incoming) &&
       SameMembers(seen, x, y) && (x in incoming <==> y in incoming))
  {
    assert x in already <==> InSome(seen, x);
    assert y in already <==> InSome(seen, y);
    assert Together(buddies, x, y) <==> InSome(seen, x) && InSome(seen, y) && SameMembers(seen, x, y);
    if SameMembers(seen, x, y) {
      assert InSome(seen, x) <==> InSome(seen, y);
    }
    if !InSome(seen, x) && !InSome(seen, y) {
      assert SameMembers(seen, x, y);
    }
  }

  lemma AlsoIn(seen: seq<Paths>, incoming: Paths, x: nat)
    ensures InSome(seen + [incoming], x) <==> InSome(seen, x) || x in incoming
  {
    var all := seen + [incoming];
    if InSome(seen, x) {
      var k :| 0 <= k < |seen| && x in seen[k];
      assert x in all[k];
    }
    if x in incoming {
      assert x in all[|seen|];
    }
  }

  lemma AlsoSame(seen: seq<Paths>, incoming: Paths, x: nat, y: nat)
    ensures SameMembers(seen + [incoming], x, y) <==> SameMembers(seen, x, y) && (x in incoming <==> y in incoming)
  {
    var all := seen + [incoming];
    assert all[|seen|] == incoming && forall k | 0 <= k < |seen| :: all[k] == seen[k];
  }
}
