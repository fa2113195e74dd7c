/** What buddy sets mean when all hot paths start at the entry: two hot paths through a block are in one
    buddy set there exactly when they reached it by the same way. */
module PrefixClasses {
  import opened BuddySets
  import opened CaloricConnectors

  /** The hot paths through a block, as getProfileInfo collects them. */
  function PathsThrough(paths: seq<seq<nat>>, b: nat): Paths {
    set i | 0 <= i < |paths| && b in paths[i]
  }

  /** Reads the hot paths block by block. */
  method GetProfileInfo(paths: seq<seq<nat>>) returns (hot: HotPathSet)
    ensures forall b :: HotAt(hot, b) == PathsThrough(paths, b)
  {
    hot := map[];
    var i := 0;
    while i < |paths|
      invariant 0 <= i <= |paths| && forall b :: HotAt(hot, b) == PathsThrough(paths[..i], b)
    {
      var j := 0;
      while j < |paths[i]|
        invariant 0 <= j <= |paths[i]|
        invariant forall b :: HotAt(hot, b) == PathsThrough(paths[..i], b) + if b in paths[i][..j] then {i} else {}
      {
        var node := paths[i][j];
        assert paths[i][..j + 1] == paths[i][..j] + [node];
        hot := hot[node := HotAt(hot, node) + {i}];
        j := j + 1;
      }
      assert paths[i][..j] == paths[i];
      forall b
        ensures PathsThrough(paths[..i + 1], b) == PathsThrough(paths[..i], b) + if b in paths[i] then {i} else {}
      {
        assert forall k | 0 <= k < i :: paths[..i + 1][k] == paths[..i][k];
      }
      i := i + 1;
    }
    assert paths[..i] == paths;
  }

  function IndexOf(s: seq<nat>, b: nat): (i: nat)
    requires b in s
    ensures i < |s| && s[i] == b && b !in s[..i]
  {
    if s[0] == b then 0 else
      var i := IndexOf(s[1..], b) + 1;
      assert s[..i] == [s[0]] + s[1..][..i - 1];
      i
  }

  /** A path from the entry along edges of the graph. */
  ghost predicate IsRooted(f: FlowGraph, path: seq<nat>) {
    && path != [] && f.order != [] && path[0] == f.order[0] && (forall b | b in path :: b in f.order)
    && forall i | 0 < i < |path| :: path[i - 1] in PredsOf(f, path[i])
  }

  ghost predicate AreRooted(f: FlowGraph, paths: seq<seq<nat>>) {
    forall x | 0 <= x < |paths| :: IsRooted(f, paths[x])
  }

  /** The entry has no predecessors. */
  ghost predicate IsAcyclic(f: FlowGraph) {
    IsTopological(f) && PredsOf(f, f.order[0]) == []
  }

  lemma PredIsEarlier(f: FlowGraph, b: nat, p: nat)
    requires IsTopological(f) && b in f.order && p in f.order && p in PredsOf(f, b)
    ensures IndexOf(f.order, p) < IndexOf(f.order, b)
  {
    var k := IndexOf(f.order, b);
    var i :| 0 <= i < |PredsOf(f, b)| && PredsOf(f, b)[i] == p;
    assert PredsOf(f, f.order[k])[i] !in f.order[k..];
    InSuffix(f.order, k, IndexOf(f.order, p));
  }

  lemma InSuffix(s: seq<nat>, k: nat, i: nat)
    requires k <= |s| && i < |s|
    ensures i >= k ==> s[i] in s[k..]
  {
    if i >= k {
      assert s[k..][i - k] == s[i];
    }
  }

  lemma {:induction false} IndexIsFirst(s: seq<nat>, b: nat, i: nat)
    requires i < |s| && s[i] == b
    ensures b in s && IndexOf(s, b) <= i
  {
    if s[0] != b {
      IndexIsFirst(s[1..], b, i - 1);
    }
  }

  lemma {:induction false} PathIncreases(f: FlowGraph, path: seq<nat>, i: nat, j: nat)
    requires IsTopological(f) && IsRooted(f, path) && i < j < |path|
    ensures path[i] in f.order && path[j] in f.order && IndexOf(f.order, path[i]) < IndexOf(f.order, path[j])
  {
    hide IsTopological;
    assert path[j - 1] in path && path[j] in path && path[i] in path;
    PredIsEarlier(f, path[j], path[j - 1]);
    if i < j - 1 {
      PathIncreases(f, path, i, j - 1);
    }
  }

  /** The way a path takes to b. */
  function Prefix(path: seq<nat>, b: nat): (r: seq<nat>)
    requires b in path
    ensures r != [] && r[|r| - 1] == b && r <= path
  {
    path[..IndexOf(path, b) + 1]
  }

  /** A block stands at one place of a path only. */
  lemma OnlyPlace(f: FlowGraph, path: seq<nat>, i: nat)
    requires IsTopological(f) && IsRooted(f, path) && i < |path|
    ensures IndexOf(path, path[i]) == i && Prefix(path, path[i]) == path[..i + 1]
  {
    IndexIsFirst(path, path[i], i);
    var j := IndexOf(path, path[i]);
    if j < i {
      PathIncreases(f, path, j, i);
    }
  }

  /** A path through a block other than the entry came from one of its predecessors. */
  lemma CameFrom(f: FlowGraph, path: seq<nat>, b: nat) returns (p: nat)
    requires IsTopological(f) && IsRooted(f, path) && b in path && b != f.order[0]
    ensures p in PredsOf(f, b) && p in path && p in f.order && Prefix(path, b) == Prefix(path, p) + [b]
  {
    var i := IndexOf(path, b);
    p := path[i - 1];
    OnlyPlace(f, path, i - 1);
    assert p in path;
  }

  /** A predecessor of b that a path goes through lies on its way to b. */
  lemma OnTheWay(f: FlowGraph, path: seq<nat>, b: nat, p: nat)
    requires IsTopological(f) && IsRooted(f, path) && b in path && p in path && p in PredsOf(f, b)
    ensures p in Prefix(path, b) && Prefix(path, p) <= Prefix(path, b) && |Prefix(path, p)| < |Prefix(path, b)|
  {
    var i, j := IndexOf(path, p), IndexOf(path, b);
    assert p in f.order && b in f.order;
    PredIsEarlier(f, b, p);
    if j < i {
      PathIncreases(f, path, j, i);
    }
    assert Prefix(path, b)[i] == p;
  }

  /** The part of a path up to b tells the way to every block on it. */
  lemma SamePrefixEarlier(f: FlowGraph, v: seq<nat>, w: seq<nat>, b: nat, p: nat)
    requires IsTopological(f) && IsRooted(f, v) && IsRooted(f, w) && b in v && b in w && Prefix(v, b) == Prefix(w, b)
    requires p in Prefix(v, b)
    ensures p in v && p in w && Prefix(v, p) == Prefix(w, p)
  {
    var r := Prefix(v, b);
    var i :| 0 <= i < |r| && r[i] == p;
    hide IsTopological, IsRooted, Prefix;
    assert v[i] == p && w[i] == p;
    OnlyPlace(f, v, i);
    OnlyPlace(f, w, i);
    assert v[..i + 1] == r[..i + 1] == w[..i + 1];
  }

  // ----- the theorem -----

  ghost predicate SamePrefix(paths: seq<seq<nat>>, b: nat, x: nat, y: nat) {
    x < |paths| && y < |paths| && b in paths[x] && b in paths[y] && Prefix(paths[x], b) == Prefix(paths[y], b)
  }

  ghost predicate AreDisjoint(sets: seq<Paths>) {
    forall j, k | 0 <= j < k < |sets| :: sets[j] !! sets[k]
  }

  /** The sets are the classes of paths that reach b by the same way. */
  ghost predicate ClassesAt(paths: seq<seq<nat>>, sets: seq<Paths>, b: nat) {
    AreDisjoint(sets) && forall x, y :: Together(sets, x, y) <==> SamePrefix(paths, b, x, y)
  }

  /** Everything computed for the graph and its hot paths. */
  ghost predicate Computed(f: FlowGraph, paths: seq<seq<nat>>, hot: HotPathSet, buddies: BuddyMap, caloric: set<nat>) {
    && IsAcyclic(f) && AreRooted(f, paths) && (forall b :: HotAt(hot, b) == PathsThrough(paths, b))
    && (forall b | b in buddies :: b in f.order) &&
         forall k | 0 <= k < |f.order| :: BlockOk(f, hot, buddies, caloric, k)
  }

  lemma {:induction false} AllSeen(f: FlowGraph, paths: seq<seq<nat>>, hot: HotPathSet, buddies: BuddyMap,
                                   caloric: set<nat>, k: nat)
    requires Computed(f, paths, hot, buddies, caloric) && 0 < k <= |f.order|
    ensures forall x: nat | x < |paths| :: x in SeenBefore(f, hot, k)
  {
    hide BlockOk;
    if k > 1 {
      AllSeen(f, paths, hot, buddies, caloric, k - 1);
    } else {
      forall x: nat | x < |paths|
        ensures x in HotAt(hot, f.order[0])
      {
        assert IsRooted(f, paths[x]) && paths[x][0] in paths[x];
      }
      assert SeenBefore(f, hot, 1) == SeenBefore(f, hot, 0) + HotAt(hot, f.order[0]);
    }
  }

  /** No path starts below the entry, so nothing is added to the refinement. */
  lemma NoIncubation(f: FlowGraph, paths: seq<seq<nat>>, hot: HotPathSet, buddies: BuddyMap, caloric: set<nat>, k: nat)
    requires Computed(f, paths, hot, buddies, caloric) && 0 < k < |f.order|
    ensures var b := f.order[k]; b in buddies && IsRefinement(buddies[b], Incoming(f, hot, buddies, b, |PredsOf(f, b)|))
    ensures var b := f.order[k]; b in caloric <==>
      HotAt(hot, b) != {} && HasColdPred(f, hot, buddies, b, |PredsOf(f, b)|)
  {
    var b := f.order[k];
    assert BlockOk(f, hot, buddies, caloric, k);
    hide IsRefinement, IsAcyclic, AreRooted, HasColdPred;
    AllSeen(f, paths, hot, buddies, caloric, k);
    assert HotAt(hot, b) - SeenBefore(f, hot, k) == {};
    var raw :| IsRefinement(raw, Incoming(f, hot, buddies, b, |PredsOf(f, b)|)) &&
      buddies[b] == WithIncubation(raw, {});
    assert forall i | 0 <= i < |raw| :: raw[i] + {} == raw[i];
    assert WithIncubation(raw, {}) == raw;
  }

  /** The classes at all predecessors the entry reaches. */
  ghost predicate ClassesBefore(f: FlowGraph, paths: seq<seq<nat>>, buddies: BuddyMap, b: nat) {
    forall p | p in PredsOf(f, b) && p in f.order :: ClassesAt(paths, BuddiesAt(buddies, p), p)
  }

  /** Two paths in the same incoming sets go through the same predecessors, in the same way. */
  lemma SameWayToPred(f: FlowGraph, paths: seq<seq<nat>>, hot: HotPathSet, buddies: BuddyMap, b: nat, x: nat, y: nat,
                      p: nat)
    requires IsTopological(f) && ClassesBefore(f, paths, buddies, b) &&
      forall c :: HotAt(hot, c) == PathsThrough(paths, c)
    requires x < |paths| && y < |paths| && b in paths[x] && b in paths[y] && p in PredsOf(f, b) && p in f.order &&
      p in paths[x]
    requires SameMembers(Incoming(f, hot, buddies, b, |PredsOf(f, b)|), x, y)
    ensures SamePrefix(paths, p, x, y)
  {
    hide IsTopological, Incoming, SameMembers;
    var sets := BuddiesAt(buddies, p);
    assert ClassesAt(paths, sets, p);
    hide ClassesBefore;
    InOwnClass(paths, sets, p, x);
    var i :| 0 <= i < |sets| && x in sets[i];
    var s := sets[i] * HotAt(hot, b);
    MeetIsIncoming(f, hot, buddies, b, p, i);
    assert x in s;
    SameInSet(Incoming(f, hot, buddies, b, |PredsOf(f, b)|), x, y, s);
    assert Together(sets, x, y);
  }

  lemma MeetIsIncoming(f: FlowGraph, hot: HotPathSet, buddies: BuddyMap, b: nat, p: nat, i: nat)
    requires p in PredsOf(f, b) && i < |BuddiesAt(buddies, p)|
    ensures BuddiesAt(buddies, p)[i] * HotAt(hot, b) in Incoming(f, hot, buddies, b, |PredsOf(f, b)|)
  {
    IncomingSets(f, hot, buddies, b, |PredsOf(f, b)|);
    var j :| 0 <= j < |PredsOf(f, b)| && PredsOf(f, b)[j] == p;
  }

  lemma SameInSet(sets: seq<Paths>, x: nat, y: nat, s: Paths)
    requires SameMembers(sets, x, y) && s in sets && x in s
    ensures y in s
  {
  }

  /** Paths that are together came the same way. */
  lemma TogetherThenSamePrefix(f: FlowGraph, paths: seq<seq<nat>>, hot: HotPathSet, buddies: BuddyMap, b: nat, x: nat,
                               y: nat)
    requires IsTopological(f) && AreRooted(f, paths) && ClassesBefore(f, paths, buddies, b) && b != f.order[0]
    requires forall c :: HotAt(hot, c) == PathsThrough(paths, c)
    requires x < |paths| && y < |paths| && b in paths[x] && b in paths[y]
    requires SameMembers(Incoming(f, hot, buddies, b, |PredsOf(f, b)|), x, y)
    ensures SamePrefix(paths, b, x, y)
  {
    hide ClassesBefore, SameMembers, PathsThrough;
    assert IsRooted(f, paths[x]) && IsRooted(f, paths[y]);
    var p := CameFrom(f, paths[x], b);
    var q := CameFrom(f, paths[y], b);
    hide IsTopological, IsRooted, AreRooted;
    SameWayToPred(f, paths, hot, buddies, b, x, y, p);
    SameMembersBack(Incoming(f, hot, buddies, b, |PredsOf(f, b)|), x, y);
    SameWayToPred(f, paths, hot, buddies, b, y, x, q);
    OnTheWay(f, paths[y], b, p);
    OnTheWay(f, paths[x], b, q);
    hide Prefix;
    assert |Prefix(paths[x], p)| == |Prefix(paths[y], p)| && |Prefix(paths[x], q)| == |Prefix(paths[y], q)|;
  }

  lemma SameMembersBack(sets: seq<Paths>, x: nat, y: nat)
    requires SameMembers(sets, x, y)
    ensures SameMembers(sets, y, x)
  {
  }

  /** Paths that came the same way are in the same incoming sets. */
  lemma SamePrefixThenSameMembers(f: FlowGraph, paths: seq<seq<nat>>, hot: HotPathSet, buddies: BuddyMap, b: nat,
                                  x: nat, y: nat)
    requires IsTopological(f) && AreRooted(f, paths) && ClassesBefore(f, paths, buddies, b) &&
      SamePrefix(paths, b, x, y)
    requires forall c :: HotAt(hot, c) == PathsThrough(paths, c)
    requires forall c | c in buddies :: c in f.order
    ensures SameMembers(Incoming(f, hot, buddies, b, |PredsOf(f, b)|), x, y)
  {
    hide IsTopological, AreRooted, ClassesBefore, SamePrefix, PathsThrough, Incoming;
    var sets := Incoming(f, hot, buddies, b, |PredsOf(f, b)|);
    SamePrefixBack(paths, b, x, y);
    forall k | 0 <= k < |sets|
      ensures x in sets[k] <==> y in sets[k]
    {
      if x in sets[k] {
        AlsoInSet(f, paths, hot, buddies, b, x, y, k);
      } else if y in sets[k] {
        AlsoInSet(f, paths, hot, buddies, b, y, x, k);
      }
    }
  }

  lemma SamePrefixBack(paths: seq<seq<nat>>, b: nat, x: nat, y: nat)
    requires SamePrefix(paths, b, x, y)
    ensures SamePrefix(paths, b, y, x)
  {
  }

  lemma AlsoInSet(f: FlowGraph, paths: seq<seq<nat>>, hot: HotPathSet, buddies: BuddyMap, b: nat, x: nat, y: nat,
                  k: nat)
    requires IsTopological(f) && AreRooted(f, paths) && ClassesBefore(f, paths, buddies, b) &&
      SamePrefix(paths, b, x, y)
    requires forall c :: HotAt(hot, c) == PathsThrough(paths, c)
    requires forall c | c in buddies :: c in f.order
    requires k < |Incoming(f, hot, buddies, b, |PredsOf(f, b)|)| &&
      x in Incoming(f, hot, buddies, b, |PredsOf(f, b)|)[k]
    ensures y in Incoming(f, hot, buddies, b, |PredsOf(f, b)|)[k]
  {
    hide IsTopological, AreRooted, ClassesBefore, SamePrefix, PathsThrough, Incoming, IsFrom;
    var s := Incoming(f, hot, buddies, b, |PredsOf(f, b)|)[k];
    IncomingSets(f, hot, buddies, b, |PredsOf(f, b)|);
    assert IsIncoming(f, hot, buddies, b, |PredsOf(f, b)|, s);
    var j :| 0 <= j < |PredsOf(f, b)| && IsFrom(hot, buddies, b, PredsOf(f, b)[j], s);
    AlsoFrom(f, paths, hot, buddies, b, x, y, PredsOf(f, b)[j], s);
  }

  lemma AlsoFrom(f: FlowGraph, paths: seq<seq<nat>>, hot: HotPathSet, buddies: BuddyMap, b: nat, x: nat, y: nat, p: nat,
                 s: Paths)
    requires IsTopological(f) && AreRooted(f, paths) && ClassesBefore(f, paths, buddies, b) &&
      SamePrefix(paths, b, x, y)
    requires forall c :: HotAt(hot, c) == PathsThrough(paths, c)
    requires p in PredsOf(f, b) && IsFrom(hot, buddies, b, p, s) && x in s && forall c | c in buddies :: c in f.order
    ensures y in s
  {
    var i :| 0 <= i < |BuddiesAt(buddies, p)| && s == BuddiesAt(buddies, p)[i] * HotAt(hot, b);
    assert Together(BuddiesAt(buddies, p), x, x);
    assert p in f.order && ClassesAt(paths, BuddiesAt(buddies, p), p);
    assert SamePrefix(paths, p, x, x);
    assert IsRooted(f, paths[x]) && IsRooted(f, paths[y]);
    OnTheWay(f, paths[x], b, p);
    SamePrefixEarlier(f, paths[x], paths[y], b, p);
    assert Together(BuddiesAt(buddies, p), x, y);
    hide IsTopological, IsRooted, AreRooted, Prefix, SamePrefix;
    var k :| 0 <= k < |BuddiesAt(buddies, p)| && x in BuddiesAt(buddies, p)[k] && y in BuddiesAt(buddies, p)[k];
    assert y in HotAt(hot, b);
    SameSet(BuddiesAt(buddies, p), x, i, k);
  }

  lemma SameSet(sets: seq<Paths>, x: nat, i: nat, k: nat)
    requires AreDisjoint(sets) && i < |sets| && k < |sets| && x in sets[i] && x in sets[k]
    ensures i == k
  {
  }

  /** At the entry all hot paths are together. */
  lemma ClassesAtEntry(f: FlowGraph, paths: seq<seq<nat>>, hot: HotPathSet, buddies: BuddyMap, caloric: set<nat>)
    requires Computed(f, paths, hot, buddies, caloric)
    ensures ClassesAt(paths, BuddiesAt(buddies, f.order[0]), f.order[0])
  {
    var b := f.order[0];
    assert BlockOk(f, hot, buddies, caloric, 0);
    var sets := BuddiesAt(buddies, b);
    forall x: nat, y: nat
      ensures Together(sets, x, y) <==> SamePrefix(paths, b, x, y)
    {
      assert Together(sets, x, y) <==> x in sets[0] && y in sets[0];
      if x < |paths| && y < |paths| {
        assert IsRooted(f, paths[x]) && IsRooted(f, paths[y]);
      }
    }
  }

  lemma ClassesAtBlock(f: FlowGraph, paths: seq<seq<nat>>, hot: HotPathSet, buddies: BuddyMap, b: nat)
    requires IsTopological(f) && AreRooted(f, paths) && ClassesBefore(f, paths, buddies, b) && b != f.order[0] &&
      b in buddies
    requires forall c :: HotAt(hot, c) == PathsThrough(paths, c)
    requires forall c | c in buddies :: c in f.order
    requires IsRefinement(buddies[b], Incoming(f, hot, buddies, b, |PredsOf(f, b)|))
    ensures ClassesAt(paths, buddies[b], b)
  {
    var sets := Incoming(f, hot, buddies, b, |PredsOf(f, b)|);
    hide IsTopological, AreRooted, ClassesBefore, Incoming;
    forall x, y
      ensures Together(buddies[b], x, y) <==> SamePrefix(paths, b, x, y)
    {
      if Together(buddies[b], x, y) {
        InSomeIsHere(f, hot, buddies, b, x);
        InSomeIsHere(f, hot, buddies, b, y);
        TogetherThenSamePrefix(f, paths, hot, buddies, b, x, y);
      }
      if SamePrefix(paths, b, x, y) {
        SamePrefixThenSameMembers(f, paths, hot, buddies, b, x, y);
        HereIsInSome(f, paths, hot, buddies, b, x);
        HereIsInSome(f, paths, hot, buddies, b, y);
      }
    }
  }

  lemma InSomeIsHere(f: FlowGraph, hot: HotPathSet, buddies: BuddyMap, b: nat, x: nat)
    requires InSome(Incoming(f, hot, buddies, b, |PredsOf(f, b)|), x)
    ensures x in HotAt(hot, b)
  {
    var sets := Incoming(f, hot, buddies, b, |PredsOf(f, b)|);
    IncomingSets(f, hot, buddies, b, |PredsOf(f, b)|);
    var k :| 0 <= k < |sets| && x in sets[k];
    assert IsIncoming(f, hot, buddies, b, |PredsOf(f, b)|, sets[k]);
  }

  lemma HereIsInSome(f: FlowGraph, paths: seq<seq<nat>>, hot: HotPathSet, buddies: BuddyMap, b: nat, x: nat)
    requires IsTopological(f) && AreRooted(f, paths) && ClassesBefore(f, paths, buddies, b) && b != f.order[0]
    requires forall c :: HotAt(hot, c) == PathsThrough(paths, c)
    requires x < |paths| && b in paths[x]
    ensures InSome(Incoming(f, hot, buddies, b, |PredsOf(f, b)|), x)
  {
    assert IsRooted(f, paths[x]);
    var p := CameFrom(f, paths[x], b);
    IncomingSets(f, hot, buddies, b, |PredsOf(f, b)|);
    hide IsTopological, IsRooted, AreRooted;
    assert SamePrefix(paths, p, x, x);
    assert Together(BuddiesAt(buddies, p), x, x);
    var i :| 0 <= i < |BuddiesAt(buddies, p)| && x in BuddiesAt(buddies, p)[i];
    var j :| 0 <= j < |PredsOf(f, b)| && PredsOf(f, b)[j] == p;
    assert x in BuddiesAt(buddies, p)[i] * HotAt(hot, b);
  }

  /** Two hot paths through a block share a buddy set there exactly when they took the same way from the entry. */
  lemma {:induction false} BuddiesArePrefixClasses(f: FlowGraph, paths: seq<seq<nat>>, hot: HotPathSet,
                                                   buddies: BuddyMap, caloric: set<nat>, k: nat)
    requires Computed(f, paths, hot, buddies, caloric) && k < |f.order|
    ensures ClassesAt(paths, BuddiesAt(buddies, f.order[k]), f.order[k])
    decreases k
  {
    hide BlockOk, IsRefinement, ClassesAt;
    if k == 0 {
      ClassesAtEntry(f, paths, hot, buddies, caloric);
    } else {
      var b := f.order[k];
      NoIncubation(f, paths, hot, buddies, caloric, k);
      forall p | p in PredsOf(f, b) && p in f.order
        ensures ClassesAt(paths, BuddiesAt(buddies, p), p)
      {
        EarlierThan(f, k, p);
        BuddiesArePrefixClasses(f, paths, hot, buddies, caloric, IndexOf(f.order, p));
      }
      assert b != f.order[0];
      ClassesAtBlock(f, paths, hot, buddies, b);
    }
  }

  lemma EarlierThan(f: FlowGraph, k: nat, p: nat)
    requires IsTopological(f) && k < |f.order| && p in f.order && p in PredsOf(f, f.order[k])
    ensures IndexOf(f.order, p) < k
  {
    PredIsEarlier(f, f.order[k], p);
    assert IndexOf(f.order, f.order[k]) == k;
  }

  // ----- caloric connectors -----

  /** No hot path came to p as x did and goes on through b. */
  ghost predicate LeavesBehind(paths: seq<seq<nat>>, b: nat, p: nat, x: nat) {
    x < |paths| && p in paths[x] && forall y: nat | y < |paths| && b in paths[y] :: !SamePrefix(paths, p, x, y)
  }

  ghost predicate LeavesSomeBehind(paths: seq<seq<nat>>, b: nat, p: nat) {
    exists x :: LeavesBehind(paths, b, p, x)
  }

  /** A block other than the entry is a caloric connector exactly when it is hot and some predecessor is cold or
      carries a class of paths none of which goes through the block. */
  lemma CaloricIff(f: FlowGraph, paths: seq<seq<nat>>, hot: HotPathSet, buddies: BuddyMap, caloric: set<nat>, k: nat)
    requires Computed(f, paths, hot, buddies, caloric) && 0 < k < |f.order|
    ensures var b := f.order[k];
      b in caloric <==>
        PathsThrough(paths, b) != {} &&
        exists p :: p in PredsOf(f, b) && (PathsThrough(paths, p) == {} || LeavesSomeBehind(paths, b, p))
  {
    var b := f.order[k];
    NoIncubation(f, paths, hot, buddies, caloric, k);
    forall j | 0 <= j < |PredsOf(f, b)|
      ensures IsColdFor(hot, buddies, b, PredsOf(f, b)[j]) <==>
        PathsThrough(paths, PredsOf(f, b)[j]) == {} || LeavesSomeBehind(paths, b, PredsOf(f, b)[j])
    {
      ColdIff(f, paths, hot, buddies, caloric, b, PredsOf(f, b)[j]);
    }
    hide Computed, IsRefinement, IsColdFor;
  }

  lemma ColdIff(f: FlowGraph, paths: seq<seq<nat>>, hot: HotPathSet, buddies: BuddyMap, caloric: set<nat>, b: nat,
                p: nat)
    requires Computed(f, paths, hot, buddies, caloric)
    ensures IsColdFor(hot, buddies, b, p) <==> PathsThrough(paths, p) == {} || LeavesSomeBehind(paths, b, p)
  {
    var sets := BuddiesAt(buddies, p);
    hide BlockOk;
    if PathsThrough(paths, p) != {} {
      var z :| z in PathsThrough(paths, p);
      assert IsRooted(f, paths[z]) && p in f.order;
      var k := IndexOf(f.order, p);
      BuddiesArePrefixClasses(f, paths, hot, buddies, caloric, k);
      SetsNotEmpty(f, paths, hot, buddies, caloric, k);
      hide IsAcyclic, AreRooted, SamePrefix;
      forall x: nat, i | 0 <= i < |sets| && x in sets[i]
        ensures LeavesBehind(paths, b, p, x) <==> sets[i] * HotAt(hot, b) == {}
      {
        LeftBehindIff(paths, hot, sets, b, p, i, x);
      }
      if x :| LeavesBehind(paths, b, p, x) {
        InOwnClass(paths, sets, p, x);
        var i :| 0 <= i < |sets| && x in sets[i];
        assert sets[i] * HotAt(hot, b) == {};
      }
      if i :| 0 <= i < |sets| && sets[i] * HotAt(hot, b) == {} {
        var x :| x in sets[i];
        assert LeavesBehind(paths, b, p, x);
      }
    }
  }

  lemma InOwnClass(paths: seq<seq<nat>>, sets: seq<Paths>, p: nat, x: nat)
    requires ClassesAt(paths, sets, p) && x < |paths| && p in paths[x]
    ensures InSome(sets, x)
  {
    assert SamePrefix(paths, p, x, x);
    assert Together(sets, x, x);
  }

  lemma LeftBehindIff(paths: seq<seq<nat>>, hot: HotPathSet, sets: seq<Paths>, b: nat, p: nat, i: nat, x: nat)
    requires ClassesAt(paths, sets, p) && i < |sets| && x in sets[i] &&
      forall c :: HotAt(hot, c) == PathsThrough(paths, c)
    ensures LeavesBehind(paths, b, p, x) <==> sets[i] * HotAt(hot, b) == {}
  {
    assert Together(sets, x, x) && SamePrefix(paths, p, x, x);
    forall y: nat | y < |paths| && b in paths[y]
      ensures SamePrefix(paths, p, x, y) <==> y in sets[i] * HotAt(hot, b)
    {
      if SamePrefix(paths, p, x, y) {
        assert Together(sets, x, y);
        var k :| 0 <= k < |sets| && x in sets[k] && y in sets[k];
        SameSet(sets, x, i, k);
      }
      if y in sets[i] {
        assert Together(sets, x, y);
      }
    }
  }

  lemma SetsNotEmpty(f: FlowGraph, paths: seq<seq<nat>>, hot: HotPathSet, buddies: BuddyMap, caloric: set<nat>, k: nat)
    requires Computed(f, paths, hot, buddies, caloric) && k < |f.order| && PathsThrough(paths, f.order[k]) != {}
    ensures forall i | 0 <= i < |BuddiesAt(buddies, f.order[k])| :: BuddiesAt(buddies, f.order[k])[i] != {}
  {
    if k > 0 {
      NoIncubation(f, paths, hot, buddies, caloric, k);
    } else {
      assert BlockOk(f, hot, buddies, caloric, 0);
    }
  }

  /** The profile is read, buddy sets are computed, and they are what they should be at every block. */
  method FindConnectors(f: FlowGraph, paths: seq<seq<nat>>)
    returns (hot: HotPathSet, buddies: BuddyMap, caloric: set<nat>)
    requires IsAcyclic(f) && AreRooted(f, paths)
    ensures Computed(f, paths, hot, buddies, caloric)
    ensures forall b | b in f.order :: ClassesAt(paths, BuddiesAt(buddies, b), b)
  {
    hide BlockOk, AreRooted, ClassesAt;
    hot := GetProfileInfo(paths);
    buddies, caloric := GetCaloricConnector(f, hot);
    forall b | b in f.order
      ensures ClassesAt(paths, BuddiesAt(buddies, b), b)
    {
      BuddiesArePrefixClasses(f, paths, hot, buddies, caloric, IndexOf(f.order, b));
    }
  }
}
