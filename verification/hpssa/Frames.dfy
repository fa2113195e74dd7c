/** Frames: the definitions a phi merges, each with the hot paths that carry it (src/HPSSA.cpp, src/HPSSA_new.cpp). */
module Frames {
  import opened BuddySets
  import opened CaloricConnectors

  type Frame = map<nat, Paths>

  datatype Arg = Arg(def: nat, from: nat)

  datatype PhiNode = PhiNode(id: nat, args: seq<Arg>)

  function PathsOf(fr: Frame, d: nat): Paths {
    if d in fr then fr[d] else {}
  }

  /** frame::add */
  function Add(fr: Frame, d: nat, paths: Paths): Frame {
    fr[d := PathsOf(fr, d) + paths]
  }

  /** The part of a frame carried by the given paths; a definition none of them carries is dropped. */
  function Restrict(fr: Frame, paths: Paths): Frame {
    map d | d in fr && fr[d] * paths != {} :: fr[d] * paths
  }

  /** No definition without a path. */
  ghost predicate IsTidy(fr: Frame) {
    forall d | d in fr :: fr[d] != {}
  }

  /** A definition stays with those of its paths that are given, if there is one. */
  lemma RestrictKeeps(fr: Frame, paths: Paths, d: nat)
    ensures forall x: nat :: x in PathsOf(Restrict(fr, paths), d) <==> x in PathsOf(fr, d) && x in paths
    ensures d in Restrict(fr, paths) <==> exists x: nat :: x in PathsOf(fr, d) && x in paths
  {
    if d in fr {
      if fr[d] * paths != {} {
        var x :| x in fr[d] * paths;
        assert x in PathsOf(fr, d);
      }
      forall x: nat | x in PathsOf(fr, d) && x in paths
        ensures x in PathsOf(Restrict(fr, paths), d)
      {
        assert x in fr[d] * paths;
      }
    }
  }

  lemma RestrictUnion(fr: Frame, a: Paths, b: Paths, d: nat)
    ensures PathsOf(Restrict(fr, a + b), d) == PathsOf(Restrict(fr, a), d) + PathsOf(Restrict(fr, b), d)
  {
    if d in fr {
      assert fr[d] * (a + b) == fr[d] * a + fr[d] * b;
    }
  }

  /** Tidy frames with the same paths are the same. */
  lemma SameFrame(a: Frame, b: Frame)
    requires IsTidy(a) && IsTidy(b) && forall d :: PathsOf(a, d) == PathsOf(b, d)
    ensures a == b
  {
    forall d
      ensures d in a <==> d in b
      ensures d in a ==> a[d] == b[d]
    {
      assert PathsOf(a, d) == PathsOf(b, d);
    }
    assert a.Keys == b.Keys;
  }

  // ----- the initial frame -----

  /** A path through the block that may have come from an incoming block of definition d. */
  ghost predicate Carries(hot: HotPathSet, phi: PhiNode, d: nat, x: nat, n: nat)
    requires n <= |phi.args|
  {
    exists i :: 0 <= i < n && phi.args[i].def == d && x in HotAt(hot, phi.args[i].from)
  }

  ghost predicate IsInitialUpTo(hot: HotPathSet, phi: PhiNode, b: nat, fr: Frame, n: nat)
    requires n <= |phi.args|
  {
    IsTidy(fr) && forall d, x :: x in PathsOf(fr, d) <==> x in HotAt(hot, b) && Carries(hot, phi, d, x, n)
  }

  /** Every definition merged by the phi, with the hot paths of the block that go through its incoming blocks. */
  ghost predicate IsInitialFrame(hot: HotPathSet, phi: PhiNode, b: nat, fr: Frame) {
    IsInitialUpTo(hot, phi, b, fr, |phi.args|)
  }

  lemma InitialFrameUnique(hot: HotPathSet, phi: PhiNode, b: nat, f1: Frame, f2: Frame)
    requires IsInitialFrame(hot, phi, b, f1) && IsInitialFrame(hot, phi, b, f2)
    ensures f1 == f2
  {
    forall d: nat
      ensures PathsOf(f1, d) == PathsOf(f2, d)
    {
      forall x: nat
        ensures x in PathsOf(f1, d) <==> x in PathsOf(f2, d)
      {
        assert x in PathsOf(f1, d) <==> x in HotAt(hot, b) && Carries(hot, phi, d, x, |phi.args|);
      }
    }
    SameFrame(f1, f2);
  }

  lemma OneMoreArg(hot: HotPathSet, phi: PhiNode, b: nat, fr: Frame, n: nat)
    requires n < |phi.args| && IsInitialUpTo(hot, phi, b, fr, n)
    ensures var arg := phi.args[n]; var paths := HotAt(hot, arg.from) * HotAt(hot, b);
      IsInitialUpTo(hot, phi, b, if paths == {} then fr else Add(fr, arg.def, paths), n + 1)
  {
    var arg := phi.args[n];
    var paths := HotAt(hot, arg.from) * HotAt(hot, b);
    var fr' := if paths == {} then fr else Add(fr, arg.def, paths);
    forall d: nat, x: nat
      ensures x in PathsOf(fr', d) <==> x in HotAt(hot, b) && Carries(hot, phi, d, x, n + 1)
    {
      assert Carries(hot, phi, d, x, n + 1) <==>
        Carries(hot, phi, d, x, n) || (arg.def == d && x in HotAt(hot, arg.from));
      assert paths == {} ==> !(x in HotAt(hot, arg.from) && x in HotAt(hot, b)) by {
        if x in HotAt(hot, arg.from) && x in HotAt(hot, b) {
          assert x in paths;
        }
      }
    }
  }

  /** The operands name every predecessor, and an edge taken twice brings the same definition. */
  ghost predicate MatchesPreds(f: FlowGraph, phi: PhiNode, b: nat) {
    && (forall p :: p in PredsOf(f, b) <==> exists i :: 0 <= i < |phi.args| && phi.args[i].from == p)
    && forall i, j | 0 <= i < |phi.args| && 0 <= j < |phi.args| && phi.args[i].from == phi.args[j].from ::
         phi.args[i].def == phi.args[j].def
  }

  /** getIncomingValueForBlock */
  method IncomingValueForBlock(phi: PhiNode, p: nat) returns (d: nat)
    requires exists i :: 0 <= i < |phi.args| && phi.args[i].from == p
    ensures exists i :: 0 <= i < |phi.args| && phi.args[i] == Arg(d, p)
  {
    var i := 0;
    while phi.args[i].from != p
      invariant i < |phi.args| && forall j | 0 <= j < i :: phi.args[j].from != p
      decreases |phi.args| - i
    {
      i := i + 1;
    }
    d := phi.args[i].def;
  }

  /** Built operand by operand, as in src/HPSSA_new.cpp; built predecessor by predecessor, in src/HPSSA.cpp. */
  method InitialFrameByOperands(hot: HotPathSet, phi: PhiNode, b: nat) returns (fr: Frame)
    ensures IsInitialFrame(hot, phi, b, fr)
  {
    fr := map[];
    var i := 0;
    while i < |phi.args|
      invariant 0 <= i <= |phi.args| && IsInitialUpTo(hot, phi, b, fr, i)
    {
      OneMoreArg(hot, phi, b, fr, i);
      var paths := HotAt(hot, phi.args[i].from) * HotAt(hot, b);
      if paths != {} {
        fr := Add(fr, phi.args[i].def, paths);
      }
      i := i + 1;
    }
  }

  ghost predicate CarriesFrom(f: FlowGraph, hot: HotPathSet, phi: PhiNode, b: nat, d: nat, x: nat, n: nat)
    requires n <= |PredsOf(f, b)|
  {
    exists j :: 0 <= j < n && Brings(phi, PredsOf(f, b)[j], d) && x in HotAt(hot, PredsOf(f, b)[j])
  }

  ghost predicate Brings(phi: PhiNode, p: nat, d: nat) {
    Arg(d, p) in phi.args
  }

  method InitialFrameByPreds(f: FlowGraph, hot: HotPathSet, phi: PhiNode, b: nat) returns (fr: Frame)
    requires MatchesPreds(f, phi, b)
    ensures IsInitialFrame(hot, phi, b, fr)
  {
    hide MatchesPreds;
    fr := map[];
    var preds := PredsOf(f, b);
    var j := 0;
    while j < |preds|
      invariant 0 <= j <= |preds| && IsTidy(fr)
      invariant forall d, x :: x in PathsOf(fr, d) <==> x in HotAt(hot, b) && CarriesFrom(f, hot, phi, b, d, x, j)
    {
      var temp := HotAt(hot, b) * HotAt(hot, preds[j]);
      ghost var before := fr;
      PredHasArg(f, phi, b, j);
      var arg := IncomingValueForBlock(phi, preds[j]);
      if temp != {} {
        fr := Add(fr, arg, temp);
      }
      OneMorePred(f, hot, phi, b, before, j, arg);
      j := j + 1;
    }
    AllPreds(f, hot, phi, b, fr);
  }

  lemma PredHasArg(f: FlowGraph, phi: PhiNode, b: nat, j: nat)
    requires MatchesPreds(f, phi, b) && j < |PredsOf(f, b)|
    ensures exists i :: 0 <= i < |phi.args| && phi.args[i].from == PredsOf(f, b)[j]
  {
    assert PredsOf(f, b)[j] in PredsOf(f, b);
  }

  lemma OneMorePred(f: FlowGraph, hot: HotPathSet, phi: PhiNode, b: nat, fr: Frame, j: nat, arg: nat)
    requires MatchesPreds(f, phi, b) && j < |PredsOf(f, b)| && Arg(arg, PredsOf(f, b)[j]) in phi.args && IsTidy(fr)
    requires forall d, x :: x in PathsOf(fr, d) <==> x in HotAt(hot, b) && CarriesFrom(f, hot, phi, b, d, x, j)
    ensures var temp := HotAt(hot, b) * HotAt(hot, PredsOf(f, b)[j]);
      var fr' := if temp == {} then fr else Add(fr, arg, temp);
      IsTidy(fr') && forall d, x :: x in PathsOf(fr', d) <==>
        x in HotAt(hot, b) && CarriesFrom(f, hot, phi, b, d, x, j + 1)
  {
    var p := PredsOf(f, b)[j];
    var temp := HotAt(hot, b) * HotAt(hot, p);
    var fr' := if temp == {} then fr else Add(fr, arg, temp);
    forall d: nat, x: nat
      ensures x in PathsOf(fr', d) <==> x in HotAt(hot, b) && CarriesFrom(f, hot, phi, b, d, x, j + 1)
    {
      assert Brings(phi, p, d) <==> d == arg;
      assert CarriesFrom(f, hot, phi, b, d, x, j + 1) <==>
        CarriesFrom(f, hot, phi, b, d, x, j) || (d == arg && x in HotAt(hot, p));
      assert x in temp <==> x in HotAt(hot, b) && x in HotAt(hot, p);
    }
  }

  lemma AllPreds(f: FlowGraph, hot: HotPathSet, phi: PhiNode, b: nat, fr: Frame)
    requires MatchesPreds(f, phi, b) && IsTidy(fr)
    requires forall d, x :: x in PathsOf(fr, d) <==>
      x in HotAt(hot, b) && CarriesFrom(f, hot, phi, b, d, x, |PredsOf(f, b)|)
    ensures IsInitialFrame(hot, phi, b, fr)
  {
    forall d: nat, x: nat
      ensures CarriesFrom(f, hot, phi, b, d, x, |PredsOf(f, b)|) <==> Carries(hot, phi, d, x, |phi.args|)
    {
      if Carries(hot, phi, d, x, |phi.args|) {
        var i :| 0 <= i < |phi.args| && phi.args[i].def == d && x in HotAt(hot, phi.args[i].from);
        assert phi.args[i] == Arg(d, phi.args[i].from);
        assert phi.args[i].from in PredsOf(f, b);
        assert Brings(phi, phi.args[i].from, d);
      }
    }
  }
}
