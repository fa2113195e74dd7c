/** The solver of src/SCCPSolverTau.cpp on tau-free, undef-free integer programs. */
module SCCPSolver {
  import opened Wrappers
  import opened SpecValueLattice
  import opened SCCPProgram
  import opened SCCPSolverState
  import opened SCCPTightness

  const UNTOUCHED := Snapshot(Unknown, false, 0)

  function UsersOf(p: Program, v: nat): set<User> {
    (set i: nat | 0 <= i < |p.values| && p.values[i].HasOperand(Ref(v)) :: InstructionUser(i)) +
    (set b: nat | 0 <= b < |p.blocks| && p.blocks[b].terminator.HasOperand(Ref(v)) :: TerminatorUser(b))
  }

  lemma UsersOfAreUsers(p: Program, v: nat, u: User)
    requires Uses(p, u, v)
    ensures u in UsersOf(p, v)
  {
  }

  function Successors(t: Terminator): seq<nat> {
    match t
    case Branch(_, ifTrue, ifFalse) => [ifTrue, ifFalse]
    case Jump(target) => [target]
    case Return(_) => []
  }

  // ----- single updates as progress -----

  /** s1 differs from s0 in the value of v only, which rose, and v is queued if it did. */
  ghost predicate Updated(s0: State, s1: State, v: nat, x: Snapshot) {
    && s1.values == s0.values[v := x]
    && s1.executable == s0.executable && s1.feasible == s0.feasible && s1.blockList == s0.blockList
    && if x.value == s0.Val(v) then s1.overdefinedList == s0.overdefinedList && s1.instList == s0.instList
       else if x.value.Overdefined? then s1.overdefinedList == s0.overdefinedList + [v] && s1.instList == s0.instList
       else s1.overdefinedList == s0.overdefinedList && s1.instList == s0.instList + [v]
  }

  lemma UpdateIsProgress(arith: Arithmetic, p: Program, s0: State, s1: State, v: nat, x: Snapshot)
    requires WellFormed(p) && StateFits(p, s0) && v < |p.values|
    requires SnapshotFits(x, p.values[v].Size()) && Leq(s0.Val(v), x.value) && Updated(s0, s1, v, x)
    ensures StateFits(p, s1) && Progress(arith, p, s0, s1)
  {
    forall w | 0 <= w < |p.values|
      ensures Leq(s0.Val(w), s1.Val(w)) && (s0.Val(w) != s1.Val(w) ==> s1.Pending(w))
    {
      if w == v {
        assert s1.Val(v) == x.value;
        if s0.Val(v) != x.value {
          if x.value.Overdefined? {
            assert s1.overdefinedList[|s0.overdefinedList|] == v;
          } else {
            assert s1.instList[|s0.instList|] == v;
          }
        }
      } else {
        LeqReflexive(s0.Val(w));
      }
    }
    assert StateFits(p, s1);
    MeasureFalls(p, s0, s1);
  }

  lemma NewBlockIsProgress(arith: Arithmetic, p: Program, s0: State, s1: State, edges: set<(nat, nat)>, b: nat)
    requires WellFormed(p) && StateFits(p, s0) && b < |p.blocks| && b !in s0.executable
    requires forall e | e in edges :: e.0 < |p.blocks| && e.1 == b
    requires s1 == s0.(executable := s0.executable + {b}, feasible := s0.feasible + edges,
      blockList := s0.blockList + [b])
    ensures StateFits(p, s1) && Progress(arith, p, s0, s1) && Measure(p, s1) < Measure(p, s0)
  {
    assert forall w | 0 <= w < |p.values| :: s0.Val(w) == s1.Val(w);
    assert s1.blockList[|s0.blockList|] == b;
    assert StateFits(p, s1);
    MeasureFalls(p, s0, s1);
  }

  lemma EdgeLowersMeasure(p: Program, s0: State, mid: State, e: (nat, nat))
    requires WellFormed(p) && StateFits(p, s0) && e.0 < |p.blocks| && e.1 in s0.executable && e !in s0.feasible
    requires mid == s0.(feasible := s0.feasible + {e})
    ensures StateFits(p, mid) && Measure(p, mid) < Measure(p, s0)
  {
    assert forall w | 0 <= w < |p.values| :: s0.Val(w) == mid.Val(w);
    assert e in mid.feasible;
    MeasureFalls(p, s0, mid);
  }

  /** Adding an edge into an executable block and then bringing its phis up to date is progress. */
  lemma NewEdgeIsProgress(arith: Arithmetic, p: Program, s0: State, mid: State, s1: State, e: (nat, nat))
    requires WellFormed(p) && StateFits(p, s0) && e.0 < |p.blocks| && e.1 in s0.executable && e !in s0.feasible
    requires mid == s0.(feasible := s0.feasible + {e})
    requires Progress(arith, p, mid, s1)
    requires forall v | IsPhiOf(p, e.1, v) :: MetOrPending(arith, p, s1, InstructionUser(v))
    ensures Progress(arith, p, s0, s1) && Measure(p, s1) < Measure(p, s0) && e in s1.feasible
  {
    EdgeLowersMeasure(p, s0, mid, e);
    NewEdgesOrThisOne(arith, p, s0, mid, s1, e);
    SameValuesRise(p, s0, mid, s1);
  }

  lemma SameValuesRise(p: Program, s0: State, mid: State, s1: State)
    requires mid.values == s0.values && ValuesRise(p, mid, s1)
    ensures ValuesRise(p, s0, s1)
  {
    assert forall w | 0 <= w < |p.values| :: s0.Val(w) == mid.Val(w);
  }

  lemma NewEdgesOrThisOne(arith: Arithmetic, p: Program, s0: State, mid: State, s1: State, e: (nat, nat))
    requires mid.feasible == s0.feasible + {e} && NewEdgesHandled(arith, p, mid, s1)
    requires forall v | IsPhiOf(p, e.1, v) :: MetOrPending(arith, p, s1, InstructionUser(v))
    ensures NewEdgesHandled(arith, p, s0, s1)
  {
    forall e', v | e' in s1.feasible && e' !in s0.feasible && e'.1 !in s1.blockList && IsPhiOf(p, e'.1, v)
      ensures MetOrPending(arith, p, s1, InstructionUser(v))
    {
      if e' != e {
        assert e' !in mid.feasible;
      }
    }
  }

  // ----- popping -----

  lemma AllButLast<T>(s: seq<T>)
    requires |s| > 0
    ensures forall x | x in s :: x in s[..|s| - 1] || x == s[|s| - 1]
    ensures forall x | x in s[..|s| - 1] :: x in s
  {
    assert s == s[..|s| - 1] + [s[|s| - 1]];
  }

  lemma PopOverdefined(arith: Arithmetic, p: Program, s0: State, s1: State)
    requires StateFits(p, s0) && WorkListInvariant(arith, p, s0, {}) && |s0.overdefinedList| > 0
    requires s1 == s0.(overdefinedList := s0.overdefinedList[..|s0.overdefinedList| - 1])
    ensures StateFits(p, s1) && Measure(p, s1) == Measure(p, s0) && s1.ListLengths() == s0.ListLengths() - 1
    ensures WorkListInvariant(arith, p, s1, UsersOf(p, s0.overdefinedList[|s0.overdefinedList| - 1]))
  {
    var last := s0.overdefinedList[|s0.overdefinedList| - 1];
    AllButLast(s0.overdefinedList);
    assert forall v | v in s1.overdefinedList :: v in s0.overdefinedList;
    SameMeasure(p, s0, s1);
    forall b, u | b in s1.executable && b !in s1.blockList && IsUserOf(p, b, u) && u !in UsersOf(p, last)
      ensures MetOrPending(arith, p, s1, u)
    {
      StillMetOrPending(arith, p, s0, s1, u, last);
    }
  }

  /** Popping an entry of the instruction list: nothing is owed when its value is overdefined. */
  lemma PopInst(arith: Arithmetic, p: Program, s0: State, s1: State)
    requires StateFits(p, s0) && WorkListInvariant(arith, p, s0, {}) && |s0.instList| > 0
    requires s1 == s0.(instList := s0.instList[..|s0.instList| - 1])
    ensures StateFits(p, s1) && Measure(p, s1) == Measure(p, s0) && s1.ListLengths() == s0.ListLengths() - 1
    ensures var last := s0.instList[|s0.instList| - 1];
      WorkListInvariant(arith, p, s1, if s0.Val(last).Overdefined? then {} else UsersOf(p, last))
  {
    var last := s0.instList[|s0.instList| - 1];
    AllButLast(s0.instList);
    assert forall v | v in s1.instList :: v in s0.instList;
    SameMeasure(p, s0, s1);
    forall b, u | b in s1.executable && b !in s1.blockList && IsUserOf(p, b, u) &&
                  u !in (if s0.Val(last).Overdefined? then {} else UsersOf(p, last))
      ensures MetOrPending(arith, p, s1, u)
    {
      StillMetOrPending(arith, p, s0, s1, u, last);
    }
  }

  lemma StillMetOrPending(arith: Arithmetic, p: Program, s0: State, s1: State, u: User, popped: nat)
    requires s1.values == s0.values && s1.feasible == s0.feasible
    requires forall v | s0.Pending(v) && v != popped :: s1.Pending(v)
    requires s0.Pending(popped) ==> s1.Pending(popped) || u !in UsersOf(p, popped)
    requires MetOrPending(arith, p, s0, u)
    ensures MetOrPending(arith, p, s1, u)
  {
    if v :| Uses(p, u, v) && s0.Pending(v) {
      UsersOfAreUsers(p, v, u);
      assert s1.Pending(v);
    } else {
      SameValuesSameEquations(arith, p, s0, s1, u);
    }
  }

  lemma SameValuesSameEquations(arith: Arithmetic, p: Program, s0: State, s1: State, u: User)
    requires s1.values == s0.values && s1.feasible == s0.feasible && UserMet(arith, p, s0, u)
    ensures UserMet(arith, p, s1, u)
  {
    assert forall v :: s0.Val(v) == s1.Val(v);
    assert forall o, n :: s0.OperandVal(o, n) == s1.OperandVal(o, n);
  }

  lemma SameMeasure(p: Program, s0: State, s1: State)
    requires s1.values == s0.values && s1.executable == s0.executable && s1.feasible == s0.feasible
    ensures Measure(p, s1) == Measure(p, s0)
  {
    SameHeight(p, s0, s1, |p.values|);
  }

  lemma SameHeight(p: Program, s0: State, s1: State, n: nat)
    requires n <= |p.values| && s1.values == s0.values
    ensures HeightLeft(p, s1, n) == HeightLeft(p, s0, n)
  {
  }

  function BlockUsers(p: Program, b: nat, i: nat): set<User>
    requires b < |p.blocks| && i <= |p.blocks[b].body|
  {
    (set j: nat | i <= j < |p.blocks[b].body| :: InstructionUser(p.blocks[b].body[j])) + {TerminatorUser(b)}
  }

  lemma BlockUsersComplete(p: Program, b: nat, u: User)
    requires IsUserOf(p, b, u)
    ensures u in BlockUsers(p, b, 0)
  {
    if u.InstructionUser? {
      var j :| 0 <= j < |p.blocks[b].body| && p.blocks[b].body[j] == u.id;
    }
  }

  lemma PopBlock(arith: Arithmetic, p: Program, s0: State, s1: State)
    requires WellFormed(p) && StateFits(p, s0) && WorkListInvariant(arith, p, s0, {}) && |s0.blockList| > 0
    requires s1 == s0.(blockList := s0.blockList[..|s0.blockList| - 1])
    ensures StateFits(p, s1) && Measure(p, s1) == Measure(p, s0) && s1.ListLengths() == s0.ListLengths() - 1
    ensures s0.blockList[|s0.blockList| - 1] < |p.blocks|
    ensures WorkListInvariant(arith, p, s1, BlockUsers(p, s0.blockList[|s0.blockList| - 1], 0))
  {
    var last := s0.blockList[|s0.blockList| - 1];
    assert last in s0.blockList;
    AllButLast(s0.blockList);
    SameMeasure(p, s0, s1);
    forall b, u | b in s1.executable && b !in s1.blockList && IsUserOf(p, b, u) && u !in BlockUsers(p, last, 0)
      ensures MetOrPending(arith, p, s1, u)
    {
      BlockUsersComplete(p, b, u);
      assert b != last;
      assert MetOrPending(arith, p, s0, u);
      if v :| Uses(p, u, v) && s0.Pending(v) {
        assert s1.Pending(v);
      } else {
        SameValuesSameEquations(arith, p, s0, s1, u);
      }
    }
  }

  /** Visiting one user takes it off the list of users still owed a visit. */
  lemma InvariantAfterVisit(arith: Arithmetic, p: Program, s0: State, s1: State, todo: set<User>, u: User)
    requires WellFormed(p) && arith.Sound() && StateFits(p, s0) && Progress(arith, p, s0, s1)
    requires WorkListInvariant(arith, p, s0, todo)
    requires MetOrPending(arith, p, s1, u)
    ensures WorkListInvariant(arith, p, s1, todo - {u})
  {
    InvariantPreserved(arith, p, s0, s1, todo);
  }

  /** A user outside the executable blocks is owed nothing. */
  lemma InvariantWithoutDeadUser(arith: Arithmetic, p: Program, s: State, todo: set<User>, u: User)
    requires WellFormed(p) && WorkListInvariant(arith, p, s, todo)
    requires forall b | b in s.executable :: !IsUserOf(p, b, u)
    ensures WorkListInvariant(arith, p, s, todo - {u})
  {
  }

  // ----- the widening counter -----

  ghost function TimesExtended(times: map<nat, nat>, v: nat): nat {
    if v in times then times[v] else 0
  }

  /** A phi with k incoming values has its range extended at most k + 1 times. */
  ghost predicate ExtensionsBounded(p: Program, values: map<nat, Snapshot>, times: map<nat, nat>) {
    forall v | 0 <= v < |p.values| && p.values[v].Phi? :: ExtensionsBoundedAt(p, values, times, v)
  }

  ghost predicate ExtensionsBoundedAt(p: Program, values: map<nat, Snapshot>, times: map<nat, nat>, v: nat)
    requires v < |p.values| && p.values[v].Phi?
  {
    && TimesExtended(times, v) <= |p.values[v].incoming| + 1
    && (v !in values || values[v].value.Unknown? ==> TimesExtended(times, v) == 0)
    && (v in values && values[v].value.Range? ==> TimesExtended(times, v) <= values[v].extensions)
  }

  lemma ExtendedAtMost(p: Program, values: map<nat, Snapshot>, times: map<nat, nat>)
    requires ExtensionsBounded(p, values, times)
    ensures forall v | 0 <= v < |p.values| && p.values[v].Phi? :: TimesExtended(times, v) <= |p.values[v].incoming| + 1
  {
    forall v | 0 <= v < |p.values| && p.values[v].Phi?
      ensures TimesExtended(times, v) <= |p.values[v].incoming| + 1
    {
      assert ExtensionsBoundedAt(p, values, times, v);
    }
  }

  ghost function CountExtension(values: map<nat, Snapshot>, times: map<nat, nat>, v: nat, y: Snapshot): map<nat, nat> {
    if v in values && values[v].value.Range? && y.value.Range? && y.value != values[v].value
    then times[v := TimesExtended(times, v) + 1] else times
  }

  /** How one merge moves the widening counter. */
  ghost predicate CounterMoves(x: Snapshot, y: Snapshot, opts: MergeOptions) {
    && (x.value.Range? && y.value.Range? && y.value != x.value && opts.checkWiden ==>
          y.extensions == x.extensions + 1 <= opts.maxWidenSteps)
    && (x.value.Range? && y.value.Range? && y.value == x.value ==> y.extensions >= x.extensions)
    && (!x.value.Unknown? ==> !y.value.Unknown?)
    && (x.value.Overdefined? ==> y.value.Overdefined? && y.extensions == x.extensions)
  }

  lemma ExtensionsAfterMerge(p: Program, values: map<nat, Snapshot>, times: map<nat, nat>, v: nat, y: Snapshot,
                             opts: MergeOptions)
    requires ExtensionsBounded(p, values, times) && v < |p.values|
    requires p.values[v].Phi? ==> opts.checkWiden && opts.maxWidenSteps <= |p.values[v].incoming| + 1
    requires CounterMoves(if v in values then values[v] else UNTOUCHED, y, opts)
    requires v in values ==> values[v].value.Unknown? || values[v].value.Range? || values[v].value.Overdefined?
    requires y.value.Unknown? || y.value.Range? || y.value.Overdefined?
    ensures ExtensionsBounded(p, values[v := y], CountExtension(values, times, v, y))
  {
    if p.values[v].Phi? {
      assert ExtensionsBoundedAt(p, values, times, v);
    }
    forall w | 0 <= w < |p.values| && p.values[w].Phi?
      ensures ExtensionsBoundedAt(p, values[v := y], CountExtension(values, times, v, y), w)
    {
      assert ExtensionsBoundedAt(p, values, times, w);
    }
  }

  lemma ExtensionsAfterOverdefined(p: Program, values: map<nat, Snapshot>, times: map<nat, nat>, v: nat, y: Snapshot)
    requires ExtensionsBounded(p, values, times) && v < |p.values| && y.value.Overdefined?
    ensures ExtensionsBounded(p, values[v := y], times)
  {
    forall w | 0 <= w < |p.values| && p.values[w].Phi?
      ensures ExtensionsBoundedAt(p, values[v := y], times, w)
    {
      assert ExtensionsBoundedAt(p, values, times, w);
    }
  }

  /** mergeIn on the element a map entry holds. */
  method Merge(x: Snapshot, mergeWith: Snapshot, opts: MergeOptions, ghost size: nat)
    returns (y: Snapshot, changed: bool)
    requires SnapshotFits(x, size) && SnapshotFits(mergeWith, size)
    requires opts.checkWiden ==> opts.maxWidenSteps <= 65
    ensures SnapshotFits(y, size)
    ensures y.value == if Widens(x.value, mergeWith.value, x.extensions, opts) then Overdefined
                       else Join(x.value, mergeWith.value)
    ensures Leq(x.value, y.value) && Leq(mergeWith.value, y.value)
    ensures changed == (y.value != x.value)
    ensures CounterMoves(x, y, opts)
    ensures Widens(x.value, mergeWith.value, x.extensions, opts) ==> y.extensions > opts.maxWidenSteps
  {
    JoinIsLeastUpperBound(x.value, mergeWith.value, mergeWith.value);
    JoinValid(x.value, mergeWith.value);
    var iv := new SpecValueLatticeElement.Reference(x);
    changed := iv.MergeIn(mergeWith, opts);
    y := iv.State();
  }

  /** One merge, seen from outside: progress that keeps the counters bounded and everything tight. */
  lemma AfterMerge(arith: Arithmetic, p: Program, s0: State, s1: State, times: map<nat, nat>,
                   forcedEdges: set<(nat, nat)>, forcedValues: set<nat>, widened: set<nat>, v: nat, x: Snapshot,
                   mergeWith: Snapshot, y: Snapshot, opts: MergeOptions)
    requires WellFormed(p) && arith.Sound() && StateFits(p, s0) && ExtensionsBounded(p, s0.values, times)
    requires Tight(arith, p, s0, forcedEdges, forcedValues, widened) && v < |p.values| && IsLive(p, s0, v)
    requires x == if v in s0.values then s0.values[v] else UNTOUCHED
    requires SnapshotFits(mergeWith, p.values[v].Size()) && SnapshotFits(y, p.values[v].Size())
    requires Compatible(x.value, mergeWith.value) && MayMerge(arith, p, s0, v, mergeWith.value, opts)
    requires p.values[v].Phi? ==> opts.checkWiden && opts.maxWidenSteps <= |p.values[v].incoming| + 1
    requires y.value == if Widens(x.value, mergeWith.value, x.extensions, opts) then Overdefined
                        else Join(x.value, mergeWith.value)
    requires Leq(x.value, y.value) && CounterMoves(x, y, opts)
    requires Widens(x.value, mergeWith.value, x.extensions, opts) ==> y.extensions > opts.maxWidenSteps
    requires Updated(s0, s1, v, y)
    ensures StateFits(p, s1) && Progress(arith, p, s0, s1)
    ensures ExtensionsBounded(p, s1.values, CountExtension(s0.values, times, v, y))
    ensures Tight(arith, p, s1, forcedEdges, forcedValues,
              if Widens(x.value, mergeWith.value, x.extensions, opts) then widened + {v} else widened)
  {
    hide WellFormed, Arithmetic.Sound, ExtensionsBounded, Progress, Tight, Widens, MayMerge, Join, Leq, IsLive;
    ExtensionsAfterMerge(p, s0.values, times, v, y, opts);
    UpdateIsProgress(arith, p, s0, s1, v, y);
    TightAfterMerge(arith, p, s0, s1, forcedEdges, forcedValues, widened,
      if Widens(x.value, mergeWith.value, x.extensions, opts) then widened + {v} else widened, v, mergeWith.value, y,
      x.extensions, opts);
  }

  // ----- the solver -----

  class SCCPTauSolver {
    const program: Program
    const arith: Arithmetic

    var valueState: map<nat, Snapshot>
    var bbExecutable: set<nat>
    var knownFeasibleEdges: set<(nat, nat)>
    var overdefinedInstWorkList: seq<nat>
    var instWorkList: seq<nat>
    var bbWorkList: seq<nat>

    /** How often the range of each value was replaced by a larger range. */
    ghost var timesExtended: map<nat, nat>

    /** The edges and values that resolvedUndefsIn forced, the phis that widening made overdefined, and the states in
        which solving came to its end. */
    ghost var forcedEdges: set<(nat, nat)>
    ghost var forcedValues: set<nat>
    ghost var widened: set<nat>
    ghost var stops: seq<State>

    ghost function Now(): State
      reads this
    {
      State(valueState, bbExecutable, knownFeasibleEdges, overdefinedInstWorkList, instWorkList, bbWorkList)
    }

    ghost predicate Valid()
      reads this
    {
      && WellFormed(program) && arith.Sound() && StateFits(program, Now())
      && ExtensionsBounded(program, valueState, timesExtended)
      && Tight(arith, program, Now(), forcedEdges, forcedValues, widened)
    }

    constructor (p: Program, a: Arithmetic)
      requires WellFormed(p) && a.Sound()
      ensures program == p && Valid() && Now() == State(map[], {}, {}, [], [], [])
      ensures arith == a
    {
      program, arith := p, a;
      valueState, bbExecutable, knownFeasibleEdges := map[], {}, {};
      overdefinedInstWorkList, instWorkList, bbWorkList := [], [], [];
      timesExtended, forcedEdges, forcedValues, widened, stops := map[], {}, {}, {}, [];
      new;
      TightAtStart(arith, program, Now());
    }

    function StateOf(v: nat): Snapshot
      reads this
    {
      if v in valueState then valueState[v] else UNTOUCHED
    }

    function OperandState(o: Operand, size: nat): Snapshot
      reads this
    {
      match o
      case Literal(n) => Snapshot(Range(ConstantRange(size, n, n)), false, 0)
      case Ref(id) => StateOf(id)
      case UndefOperand => Snapshot(Value.Undef, false, 0)
    }

    lemma OperandStateFits(o: Operand, size: nat)
      requires Valid() && OperandFits(program, o, size) && size >= 2
      ensures SnapshotFits(OperandState(o, size), size) && OperandState(o, size).value == Now().OperandVal(o, size)
    {
    }

    // ----- lattice updates -----

    method PushToWorkList(v: nat)
      requires v in valueState
      modifies `overdefinedInstWorkList, `instWorkList
      ensures valueState[v].value.Overdefined? ==>
        overdefinedInstWorkList == old(overdefinedInstWorkList) + [v] && instWorkList == old(instWorkList)
      ensures !valueState[v].value.Overdefined? ==>
        overdefinedInstWorkList == old(overdefinedInstWorkList) && instWorkList == old(instWorkList) + [v]
    {
      if valueState[v].value.Overdefined? {
        overdefinedInstWorkList := overdefinedInstWorkList + [v];
      } else {
        instWorkList := instWorkList + [v];
      }
    }

    /** The value becomes its join with the merged one, or overdefined when the widening limit is
        passed, and is queued exactly when it changed. */
    method MergeInValue(v: nat, mergeWith: Snapshot, opts: MergeOptions) returns (changed: bool)
      requires Valid() && v < |program.values| && SnapshotFits(mergeWith, program.values[v].Size())
      requires opts.checkWiden ==> opts.maxWidenSteps <= 65
      requires program.values[v].Phi? ==> opts.checkWiden && opts.maxWidenSteps <= |program.values[v].incoming| + 1
      requires IsLive(program, Now(), v) && Compatible(Now().Val(v), mergeWith.value) &&
        MayMerge(arith, program, Now(), v, mergeWith.value, opts)
      modifies `valueState, `overdefinedInstWorkList, `instWorkList, `timesExtended, `widened
      ensures Valid() && Progress(arith, program, old(Now()), Now())
      ensures Now().Val(v) ==
        if Widens(old(Now()).Val(v), mergeWith.value, old(StateOf(v)).extensions, opts) then Overdefined
        else Join(old(Now()).Val(v), mergeWith.value)
      ensures Leq(mergeWith.value, Now().Val(v))
      ensures v in valueState && changed == (Now().Val(v) != old(Now()).Val(v))
      ensures forall w | w != v :: Now().Val(w) == old(Now()).Val(w)
    {
      hide WellFormed, ExtensionsBounded, Arithmetic.Sound, Progress, CounterMoves, CountExtension, Join, Leq, Tight,
        MayMerge, Widens, IsLive, StateFits, SnapshotFits;
      ghost var s0 := Now();
      ghost var widened0 := widened;
      var x := StateOf(v);
      assert SnapshotFits(x, program.values[v].Size()) by {
        StateFitsAt(program, s0, v);
      }
      var y;
      y, changed := Merge(x, mergeWith, opts, program.values[v].Size());
      ghost var times := timesExtended;
      timesExtended := CountExtension(valueState, timesExtended, v, y);
      widened := if Widens(x.value, mergeWith.value, x.extensions, opts) then widened + {v} else widened;
      valueState := valueState[v := y];
      if changed {
        PushToWorkList(v);
      }
      ghost var s1 := Now();
      assert Updated(s0, s1, v, y);
      AfterMerge(arith, program, s0, s1, times, forcedEdges, forcedValues, widened0, v, x, mergeWith, y, opts);
    }

    method MarkOverdefined(v: nat) returns (changed: bool)
      requires Valid() && v < |program.values| && IsLive(program, Now(), v) &&
        MayOverdefine(arith, program, Now(), forcedValues, v)
      modifies `valueState, `overdefinedInstWorkList, `instWorkList
      ensures Valid() && Progress(arith, program, old(Now()), Now())
      ensures v in valueState && Now().Val(v).Overdefined? && changed == !old(Now()).Val(v).Overdefined?
      ensures forall w | w != v :: Now().Val(w) == old(Now()).Val(w)
    {
      hide WellFormed, ExtensionsBounded, Arithmetic.Sound, Progress, Tight;
      ghost var s0 := Now();
      var x := StateOf(v);
      changed := !x.value.Overdefined?;
      var y := x.(value := Overdefined);
      ExtensionsAfterOverdefined(program, valueState, timesExtended, v, y);
      valueState := valueState[v := y];
      if changed {
        PushToWorkList(v);
      }
      UpdateIsProgress(arith, program, s0, Now(), v, y);
      TightAfterOverdefined(arith, program, s0, Now(), forcedEdges, forcedValues, widened, v, y);
    }

    // ----- visiting instructions -----

    method VisitPHINode(v: nat)
      requires Valid() && v < |program.values| && program.values[v].Phi? && IsLive(program, Now(), v)
      modifies `valueState, `overdefinedInstWorkList, `instWorkList, `timesExtended, `widened
      ensures Valid() && Progress(arith, program, old(Now()), Now())
      ensures UserMet(arith, program, Now(), InstructionUser(v))
    {
      hide WellFormed, ExtensionsBounded, Arithmetic.Sound, Progress, Tight, MayMerge;
      ghost var s0 := Now();
      var incoming := program.values[v].incoming;
      if StateOf(v).value.Overdefined? {
        ProgressReflexive(arith, program, s0);
        return;
      }
      if |incoming| > MAX_PHI_INCOMING {
        var _ := MarkOverdefined(v);
        return;
      }
      var phiState, numActiveIncoming := MergeFeasible(v);
      var _ := MergeInValue(v, phiState, MergeOptions(false, true, numActiveIncoming + 1));
      ghost var s1 := Now();
      PhiMetAfterMerge(arith, program, s0, s1, v, phiState.value);
      RaiseCounter(v, numActiveIncoming);
      ProgressTransitive(arith, program, s0, s1, Now());
      SameValuesMet(arith, program, s1, Now(), v);
    }

    /** The join of the phi's own value with every operand on a feasible edge, and how many there are. */
    method MergeFeasible(v: nat) returns (phiState: Snapshot, numActiveIncoming: nat)
      requires Valid() && v < |program.values| && program.values[v].Phi? &&
        |program.values[v].incoming| <= MAX_PHI_INCOMING
      ensures SnapshotFits(phiState, program.values[v].size) && Compatible(Now().Val(v), phiState.value)
      ensures numActiveIncoming <= |program.values[v].incoming|
      ensures MayMerge(arith, program, Now(), v, phiState.value, MergeOptions(false, true, numActiveIncoming + 1))
      ensures phiState.value.Overdefined? ||
        AboveFirst(program, Now(), v, |program.values[v].incoming|, phiState.value)
    {
      var size, parent, incoming := program.values[v].size, program.values[v].parent, program.values[v].incoming;
      hide WellFormed, ExtensionsBounded, Arithmetic.Sound, Tight, IsSupport, Join, Leq, StateFits, OperandFits,
        AboveFirst;
      ghost var s0 := Now();
      PhiOperandsFit(program, v);
      StateFitsAt(program, s0, v);
      OwnSupport(program, s0, v);
      numActiveIncoming := 0;
      phiState := CopyOf(StateOf(v));
      var i := 0;
      while i < |incoming|
        invariant 0 <= i <= |incoming| && numActiveIncoming <= i
        invariant SnapshotFits(phiState, size) && IsSupport(program, s0, v, phiState.value)
        invariant numActiveIncoming == 0 ==> phiState.value == s0.Val(v)
        invariant AboveFirst(program, s0, v, i, phiState.value)
      {
        if (incoming[i].from, parent) in knownFeasibleEdges {
          OperandStateFits(incoming[i].operand, size);
          SupportMerged(program, s0, v, phiState.value, i);
          ghost var before := phiState.value;
          var changed;
          phiState, changed := Merge(phiState, CopyOf(OperandState(incoming[i].operand, size)), PLAIN_MERGE, size);
          numActiveIncoming := numActiveIncoming + 1;
          StillAbove(program, s0, v, i, before, phiState.value);
          if phiState.value.Overdefined? {
            return;
          }
        }
        AboveNext(program, s0, v, i, phiState.value);
        i := i + 1;
      }
    }

    /** setNumRangeExtensions with the larger of the two counts. */
    method RaiseCounter(v: nat, numActiveIncoming: nat)
      requires Valid() && v in valueState && numActiveIncoming <= MAX_PHI_INCOMING
      modifies `valueState
      ensures Valid() && Progress(arith, program, old(Now()), Now())
      ensures var x := old(valueState)[v];
        valueState == old(valueState)[v :=
          x.(extensions := if numActiveIncoming >= x.extensions then numActiveIncoming else x.extensions)]
      ensures Now() == old(Now()).(values := valueState) && forall w :: Now().Val(w) == old(Now()).Val(w)
    {
      hide WellFormed, ExtensionsBounded, Arithmetic.Sound, Tight, Leq, Progress;
      ghost var s0 := Now();
      var x := valueState[v];
      assert SnapshotFits(x, program.values[v].Size());
      var y := x.(extensions := if numActiveIncoming >= x.extensions then numActiveIncoming else x.extensions);
      ExtensionsAfterRaise(program, valueState, timesExtended, v, y);
      valueState := valueState[v := y];
      LeqReflexive(x.value);
      UpdateIsProgress(arith, program, s0, Now(), v, y);
      TightAfterCount(arith, program, s0, Now(), forcedEdges, forcedValues, widened, v, y);
    }

    /** Both operands known: the library's range operation decides. The copies read here are never
        speculative, and integer values are never of the plain constant kind, so the source's
        branches for those cannot be taken. */
    method VisitBinaryOperator(v: nat)
      requires Valid() && v < |program.values| && program.values[v].Binary? && IsLive(program, Now(), v)
      modifies `valueState, `overdefinedInstWorkList, `instWorkList, `timesExtended, `widened
      ensures Valid() && Progress(arith, program, old(Now()), Now())
      ensures Covers(arith, program, old(Now()), Now(), v) && MetOrPending(arith, program, Now(), InstructionUser(v))
    {
      hide ExtensionsBounded, Progress, Tight;
      ghost var s0 := Now();
      var Binary(_, size, op, l, r) := program.values[v];
      assert InstructionFits(program, program.values[v]);
      OperandStateFits(l, size);
      OperandStateFits(r, size);
      BinaryValueFits(arith, program, s0, op, size, l, r);
      ProgressReflexive(arith, program, s0);
      hide WellFormed, Arithmetic.Sound;
      var x, y := OperandState(l, size).value, OperandState(r, size).value;
      if StateOf(v).value.Overdefined? {
      } else if x.IsUnknownOrUndef() || y.IsUnknownOrUndef() {
      } else if x.Overdefined? && y.Overdefined? {
        var _ := MarkOverdefined(v);
        OwnUpdateMeets(arith, program, s0, Now(), v);
      } else {
        var result := RangeResult(arith.rangeBinary(op, AsRange(x, size), AsRange(y, size)));
        var _ := MergeInValue(v, Snapshot(result, false, 0), PLAIN_MERGE);
        OwnUpdateMeets(arith, program, s0, Now(), v);
      }
    }

    method VisitCmpInst(v: nat)
      requires Valid() && v < |program.values| && program.values[v].Compare? && IsLive(program, Now(), v)
      modifies `valueState, `overdefinedInstWorkList, `instWorkList, `timesExtended, `widened
      ensures Valid() && Progress(arith, program, old(Now()), Now())
      ensures Covers(arith, program, old(Now()), Now(), v) && MetOrPending(arith, program, Now(), InstructionUser(v))
    {
      hide ExtensionsBounded, Progress, Tight;
      ghost var s0 := Now();
      var Compare(_, size, pred, l, r) := program.values[v];
      assert InstructionFits(program, program.values[v]);
      OperandStateFits(l, size);
      OperandStateFits(r, size);
      ProgressReflexive(arith, program, s0);
      TruthIsOverdefined(program, s0, v);
      DemandMerges(arith, program, s0, v);
      hide WellFormed, Arithmetic.Sound, StateFits, IsOverdefined, CompareValue, SnapshotFits;
      if IsOverdefined(StateOf(v).value) {
        var _ := MarkOverdefined(v);
        OwnUpdateMeets(arith, program, s0, Now(), v);
        return;
      }
      var result := CompareValue(arith, pred, OperandState(l, size).value, OperandState(r, size).value);
      if result.Overdefined? {
        var _ := MarkOverdefined(v);
        OwnUpdateMeets(arith, program, s0, Now(), v);
      } else if !result.Unknown? {
        var _ := MergeInValue(v, Snapshot(result, false, 0), PLAIN_MERGE);
        OwnUpdateMeets(arith, program, s0, Now(), v);
      }
    }

    // ----- control flow -----

    /** Which successors the terminator of b can reach. */
    method GetFeasibleSuccessors(b: nat) returns (succs: seq<bool>)
      requires b < |program.blocks|
      ensures |succs| == |Successors(program.blocks[b].terminator)|
      ensures forall t :: t in FeasibleTargets(Now(), program.blocks[b].terminator) <==>
        exists i | 0 <= i < |succs| :: succs[i] && Successors(program.blocks[b].terminator)[i] == t
    {
      match program.blocks[b].terminator
      case Return(_) => succs := [];
      case Jump(target) =>
        succs := [true];
        assert Successors(program.blocks[b].terminator)[0] == target;
      case Branch(c, ifTrue, ifFalse) =>
        var v := OperandState(c, 2).value;
        if v.IsIntConstant() {
          succs := [v.r.lo != 0, v.r.lo == 0];
        } else if !v.IsUnknownOrUndef() {
          succs := [true, true];
        } else {
          succs := [false, false];
        }
        assert Successors(program.blocks[b].terminator)[0] == ifTrue;
        assert Successors(program.blocks[b].terminator)[1] == ifFalse;
    }

    method MarkBlockExecutable(b: nat) returns (isNew: bool)
      requires b < |program.blocks|
      modifies `bbExecutable, `bbWorkList
      ensures isNew == (b !in old(bbExecutable))
      ensures bbExecutable == old(bbExecutable) + {b}
      ensures bbWorkList == if isNew then old(bbWorkList) + [b] else old(bbWorkList)
    {
      if b in bbExecutable {
        return false;
      }
      bbExecutable := bbExecutable + {b};
      bbWorkList := bbWorkList + [b];
      return true;
    }

    /** A new edge must be one the terminator can take, or forced. */
    method MarkEdgeExecutable(source: nat, dest: nat) returns (isNew: bool)
      requires Valid() && source < |program.blocks| && dest < |program.blocks|
      requires EdgeTight(program, Now(), (source, dest)) ||
        ((source, dest) in forcedEdges && EdgeForced(program, Now(), (source, dest)))
      modifies `valueState, `bbExecutable, `knownFeasibleEdges, `overdefinedInstWorkList, `instWorkList, `bbWorkList,
        `timesExtended, `widened
      ensures Valid() && Progress(arith, program, old(Now()), Now())
      ensures knownFeasibleEdges == old(knownFeasibleEdges) + {(source, dest)} &&
        isNew == ((source, dest) !in old(knownFeasibleEdges))
      ensures !isNew ==> Now() == old(Now())
      ensures isNew ==> Measure(program, Now()) < Measure(program, old(Now()))
    {
      hide WellFormed, Arithmetic.Sound, ExtensionsBounded, Progress, StateFits, Measure, MetOrPending, Tight,
        EdgeTight, EdgeForced;
      ghost var s0 := Now();
      if (source, dest) in knownFeasibleEdges {
        ProgressReflexive(arith, program, s0);
        return false;
      }
      knownFeasibleEdges := knownFeasibleEdges + {(source, dest)};
      var blockIsNew := MarkBlockExecutable(dest);
      if blockIsNew {
        NewBlockIsProgress(arith, program, s0, Now(), {(source, dest)}, dest);
        TightAfterEdge(arith, program, s0, Now(), forcedEdges, forcedValues, widened, (source, dest));
      } else {
        assert bbExecutable == s0.executable;
        ghost var mid := Now();
        EdgeLowersMeasure(program, s0, mid, (source, dest));
        TightAfterEdge(arith, program, s0, mid, forcedEdges, forcedValues, widened, (source, dest));
        VisitPhis(dest);
        NewEdgeIsProgress(arith, program, s0, mid, Now(), (source, dest));
      }
      return true;
    }

    /** Visits the phis of a block again because a new edge into it became feasible. */
    method VisitPhis(b: nat)
      requires Valid() && b < |program.blocks| && b in bbExecutable
      modifies `valueState, `overdefinedInstWorkList, `instWorkList, `timesExtended, `widened
      ensures Valid() && Progress(arith, program, old(Now()), Now())
      ensures forall v | IsPhiOf(program, b, v) :: MetOrPending(arith, program, Now(), InstructionUser(v))
    {
      hide Arithmetic.Sound, ExtensionsBounded, Progress, MetOrPending, Tight;
      ghost var s0 := Now();
      var body := program.blocks[b].body;
      assert BlockFits(program, b);
      ProgressReflexive(arith, program, s0);
      var i := 0;
      while i < |body|
        invariant 0 <= i <= |body| && Valid() && Progress(arith, program, s0, Now())
        invariant knownFeasibleEdges == s0.feasible
        invariant forall j | 0 <= j < i :: IsPhiOf(program, b, body[j]) ==>
          MetOrPending(arith, program, Now(), InstructionUser(body[j]))
      {
        if program.values[body[i]].Phi? {
          ghost var s1 := Now();
          VisitPHINode(body[i]);
          MetIsMetOrPending(arith, program, Now(), InstructionUser(body[i]));
          forall j | 0 <= j < i && IsPhiOf(program, b, body[j])
            ensures MetOrPending(arith, program, Now(), InstructionUser(body[j]))
          {
            MetOrPendingPreserved(arith, program, s1, Now(), InstructionUser(body[j]));
          }
          ProgressTransitive(arith, program, s0, s1, Now());
        }
        i := i + 1;
      }
    }

    /** Makes feasible the edges that the terminator can take, and no others. */
    method VisitTerminator(b: nat)
      requires Valid() && b < |program.blocks| && b in bbExecutable
      modifies `valueState, `bbExecutable, `knownFeasibleEdges, `overdefinedInstWorkList, `instWorkList, `bbWorkList,
        `timesExtended, `widened
      ensures Valid() && Progress(arith, program, old(Now()), Now())
      ensures MetOrPending(arith, program, Now(), TerminatorUser(b))
      ensures forall t | t in FeasibleTargets(old(Now()), program.blocks[b].terminator) :: (b, t) in knownFeasibleEdges
      ensures forall e | e in knownFeasibleEdges && e !in old(knownFeasibleEdges) ::
        e.0 == b && e.1 in FeasibleTargets(old(Now()), program.blocks[b].terminator)
    {
      hide Arithmetic.Sound, ExtensionsBounded, Progress, MetOrPending, Tight, EdgeTight, EdgeForced;
      ghost var s0 := Now();
      var t := program.blocks[b].terminator;
      assert BlockFits(program, b);
      hide WellFormed, StateFits, FeasibleTargets, Measure;
      var succs := GetFeasibleSuccessors(b);
      ProgressReflexive(arith, program, s0);
      var i := 0;
      while i < |succs|
        invariant 0 <= i <= |succs| && Valid() && Progress(arith, program, s0, Now())
        invariant forall j | 0 <= j < i :: succs[j] ==> (b, Successors(t)[j]) in knownFeasibleEdges
        invariant forall e | e in knownFeasibleEdges && e !in s0.feasible ::
          e.0 == b && e.1 in FeasibleTargets(s0, t)
      {
        if succs[i] {
          ghost var s1 := Now();
          FeasibleTargetIsTight(program, s0, b, Successors(t)[i]);
          ProgressGrows(arith, program, s0, s1);
          EdgeTightStays(program, s0, s1, (b, Successors(t)[i]));
          var _ := MarkEdgeExecutable(b, Successors(t)[i]);
          ProgressTransitive(arith, program, s0, s1, Now());
          FeasibleGrows(arith, program, s1, Now());
        }
        i := i + 1;
      }
      TargetsFeasibleMeets(arith, program, s0, Now(), b);
    }

    /** Brings one user up to date with its operands. */
    method Visit(u: User)
      requires Valid() && (exists b | b in bbExecutable :: IsUserOf(program, b, u))
      modifies `valueState, `bbExecutable, `knownFeasibleEdges, `overdefinedInstWorkList, `instWorkList, `bbWorkList,
        `timesExtended, `widened
      ensures Valid() && Progress(arith, program, old(Now()), Now())
      ensures MetOrPending(arith, program, Now(), u)
    {
      hide Arithmetic.Sound, ExtensionsBounded, Progress, MetOrPending, StateFits, Tight;
      ghost var b :| b in bbExecutable && IsUserOf(program, b, u);
      assert BlockFits(program, b);
      match u
      case TerminatorUser(c) => VisitTerminator(c);
      case InstructionUser(v) =>
        if program.values[v].Phi? {
          VisitPHINode(v);
          MetIsMetOrPending(arith, program, Now(), u);
        } else if program.values[v].Binary? {
          VisitBinaryOperator(v);
        } else {
          VisitCmpInst(v);
        }
    }

    /** Visits every user of v in an executable block, in any order. */
    method MarkUsersAsChanged(v: nat)
      requires Valid() && WorkListInvariant(arith, program, Now(), UsersOf(program, v))
      modifies `valueState, `bbExecutable, `knownFeasibleEdges, `overdefinedInstWorkList, `instWorkList, `bbWorkList,
        `timesExtended, `widened
      ensures Valid() && Progress(arith, program, old(Now()), Now())
      ensures WorkListInvariant(arith, program, Now(), {})
    {
      hide Arithmetic.Sound, ExtensionsBounded, Progress, MetOrPending, StateFits, WellFormed, WorkListInvariant, Tight;
      ghost var s0 := Now();
      var users := UsersOf(program, v);
      ProgressReflexive(arith, program, s0);
      while users != {}
        invariant Valid() && Progress(arith, program, s0, Now())
        invariant users <= UsersOf(program, v) && WorkListInvariant(arith, program, Now(), users)
        decreases users
      {
        var u :| u in users;
        ghost var s1 := Now();
        UserHasBlock(program, u, v);
        if ParentOf(program, u) in bbExecutable {
          Visit(u);
          InvariantAfterVisit(arith, program, s1, Now(), users, u);
          ProgressTransitive(arith, program, s0, s1, Now());
        } else {
          DeadUser(program, bbExecutable, u);
          InvariantWithoutDeadUser(arith, program, s1, users, u);
        }
        users := users - {u};
      }
    }

    /** Visits every instruction of a block and its terminator. */
    method VisitBlock(b: nat)
      requires Valid() && b < |program.blocks| && b in bbExecutable
      requires WorkListInvariant(arith, program, Now(), BlockUsers(program, b, 0))
      modifies `valueState, `bbExecutable, `knownFeasibleEdges, `overdefinedInstWorkList, `instWorkList, `bbWorkList,
        `timesExtended, `widened
      ensures Valid() && Progress(arith, program, old(Now()), Now())
      ensures WorkListInvariant(arith, program, Now(), {})
    {
      hide Arithmetic.Sound, ExtensionsBounded, Progress, MetOrPending, StateFits, WellFormed, WorkListInvariant, Tight;
      ghost var s0 := Now();
      var body := program.blocks[b].body;
      ProgressReflexive(arith, program, s0);
      var i := 0;
      while i < |body|
        invariant 0 <= i <= |body| && Valid() && Progress(arith, program, s0, Now())
        invariant WorkListInvariant(arith, program, Now(), BlockUsers(program, b, i)) && b in bbExecutable
      {
        ghost var s1 := Now();
        assert IsUserOf(program, b, InstructionUser(body[i]));
        Visit(InstructionUser(body[i]));
        InvariantAfterVisit(arith, program, s1, Now(), BlockUsers(program, b, i), InstructionUser(body[i]));
        InvariantWeakens(arith, program, Now(), BlockUsers(program, b, i) - {InstructionUser(body[i])},
          BlockUsers(program, b, i + 1));
        ProgressTransitive(arith, program, s0, s1, Now());
        ExecutableGrows(arith, program, s1, Now());
        i := i + 1;
      }
      ghost var s1 := Now();
      assert IsUserOf(program, b, TerminatorUser(b));
      Visit(TerminatorUser(b));
      InvariantAfterVisit(arith, program, s1, Now(), BlockUsers(program, b, i), TerminatorUser(b));
      InvariantWeakens(arith, program, Now(), BlockUsers(program, b, i) - {TerminatorUser(b)}, {});
      ProgressTransitive(arith, program, s0, s1, Now());
    }

    /** Empties the work lists. It terminates, keeps the work-list invariant, and only ever raises
        values and adds blocks and edges. */
    method Solve()
      requires Valid() && WorkListInvariant(arith, program, Now(), {})
      modifies `valueState, `bbExecutable, `knownFeasibleEdges, `overdefinedInstWorkList, `instWorkList, `bbWorkList,
        `timesExtended, `widened
      ensures Valid() && WorkListInvariant(arith, program, Now(), {}) && Now().ListLengths() == 0
      ensures Rises(program, old(Now()), Now())
    {
      hide Arithmetic.Sound, ExtensionsBounded, Progress, MetOrPending, StateFits, WellFormed, WorkListInvariant,
        Measure, Rises, Tight;
      ghost var s0 := Now();
      RisesReflexive(program, s0);
      while |bbWorkList| > 0 || |instWorkList| > 0 || |overdefinedInstWorkList| > 0
        invariant Valid() && WorkListInvariant(arith, program, Now(), {}) && Rises(program, s0, Now())
        decreases Measure(program, Now()), Now().ListLengths()
      {
        ghost var head := Now();
        while |overdefinedInstWorkList| > 0
          invariant Valid() && WorkListInvariant(arith, program, Now(), {}) && Rises(program, s0, Now())
          invariant Now() == head || CloserToEnd(program, head, Now())
          decreases Measure(program, Now()), Now().ListLengths()
        {
          ProcessOverdefined(s0);
        }
        while |instWorkList| > 0
          invariant Valid() && WorkListInvariant(arith, program, Now(), {}) && Rises(program, s0, Now())
          invariant CloserToEnd(program, head, Now()) || (Now() == head && |overdefinedInstWorkList| == 0)
          decreases Measure(program, Now()), Now().ListLengths()
        {
          ProcessInst(s0);
        }
        while |bbWorkList| > 0
          invariant Valid() && WorkListInvariant(arith, program, Now(), {}) && Rises(program, s0, Now())
          invariant CloserToEnd(program, head, Now()) ||
                    (Now() == head && |overdefinedInstWorkList| == 0 && |instWorkList| == 0)
          decreases Measure(program, Now()), Now().ListLengths()
        {
          ProcessBlock(s0);
        }
      }
    }

    /** One entry of the overdefined list: its users are visited. */
    method ProcessOverdefined(ghost s0: State)
      requires Valid() && StateFits(program, s0) && WorkListInvariant(arith, program, Now(), {}) &&
        Rises(program, s0, Now()) && |overdefinedInstWorkList| > 0
      modifies `valueState, `bbExecutable, `knownFeasibleEdges, `overdefinedInstWorkList, `instWorkList, `bbWorkList,
        `timesExtended, `widened
      ensures Valid() && WorkListInvariant(arith, program, Now(), {}) && Rises(program, s0, Now()) &&
        CloserToEnd(program, old(Now()), Now())
    {
      hide Arithmetic.Sound, ExtensionsBounded, Progress, MetOrPending, StateFits, WellFormed, WorkListInvariant,
        Measure, Rises, Tight;
      ghost var s1 := Now();
      var v := overdefinedInstWorkList[|overdefinedInstWorkList| - 1];
      overdefinedInstWorkList := overdefinedInstWorkList[..|overdefinedInstWorkList| - 1];
      ghost var s2 := Now();
      PopOverdefined(arith, program, s1, s2);
      TightAfterPop(arith, program, s1, s2, forcedEdges, forcedValues, widened);
      MarkUsersAsChanged(v);
      AfterPop(arith, program, s0, s1, s2, Now());
    }

    /** One entry of the instruction list: its users are visited, unless it has become overdefined and so is
        on the other list. */
    method ProcessInst(ghost s0: State)
      requires Valid() && StateFits(program, s0) && WorkListInvariant(arith, program, Now(), {}) &&
        Rises(program, s0, Now()) && |instWorkList| > 0
      modifies `valueState, `bbExecutable, `knownFeasibleEdges, `overdefinedInstWorkList, `instWorkList, `bbWorkList,
        `timesExtended, `widened
      ensures Valid() && WorkListInvariant(arith, program, Now(), {}) && Rises(program, s0, Now()) &&
        CloserToEnd(program, old(Now()), Now())
    {
      hide Arithmetic.Sound, ExtensionsBounded, Progress, MetOrPending, StateFits, WellFormed, WorkListInvariant,
        Measure, Rises, Tight;
      ghost var s1 := Now();
      var v := instWorkList[|instWorkList| - 1];
      instWorkList := instWorkList[..|instWorkList| - 1];
      ghost var s2 := Now();
      PopInst(arith, program, s1, s2);
      TightAfterPop(arith, program, s1, s2, forcedEdges, forcedValues, widened);
      if !StateOf(v).value.Overdefined? {
        MarkUsersAsChanged(v);
      } else {
        ProgressReflexive(arith, program, s2);
      }
      AfterPop(arith, program, s0, s1, s2, Now());
    }

    /** One entry of the block list: its instructions and its terminator are visited. */
    method ProcessBlock(ghost s0: State)
      requires Valid() && StateFits(program, s0) && WorkListInvariant(arith, program, Now(), {}) &&
        Rises(program, s0, Now()) && |bbWorkList| > 0
      modifies `valueState, `bbExecutable, `knownFeasibleEdges, `overdefinedInstWorkList, `instWorkList, `bbWorkList,
        `timesExtended, `widened
      ensures Valid() && WorkListInvariant(arith, program, Now(), {}) && Rises(program, s0, Now()) &&
        CloserToEnd(program, old(Now()), Now())
    {
      hide Arithmetic.Sound, ExtensionsBounded, Progress, MetOrPending, StateFits, WellFormed, WorkListInvariant,
        Measure, Rises, Tight;
      ghost var s1 := Now();
      var b := bbWorkList[|bbWorkList| - 1];
      bbWorkList := bbWorkList[..|bbWorkList| - 1];
      ghost var s2 := Now();
      PopBlock(arith, program, s1, s2);
      WaitingIsExecutable(program, s1, b);
      TightAfterPop(arith, program, s1, s2, forcedEdges, forcedValues, widened);
      VisitBlock(b);
      AfterPop(arith, program, s0, s1, s2, Now());
    }

    /** Marks overdefined every instruction of an executable block that is still unknown, and lets a
        branch on an unknown condition take its false side. When it answers no, nothing changed and
        every instruction of an executable block is known. Only what was unknown before is forced. */
    method ResolvedUndefsIn() returns (madeChange: bool)
      requires Valid()
      modifies `valueState, `bbExecutable, `knownFeasibleEdges, `overdefinedInstWorkList, `instWorkList, `bbWorkList,
        `timesExtended, `widened, `forcedEdges, `forcedValues
      ensures Valid() && Progress(arith, program, old(Now()), Now())
      ensures ForcedFrom(program, old(Now()), old(forcedEdges), forcedEdges, old(forcedValues), forcedValues)
      ensures madeChange ==> Measure(program, Now()) < Measure(program, old(Now()))
      ensures !madeChange ==> Now() == old(Now()) && AllKnown(program, Now())
    {
      hide Arithmetic.Sound, ExtensionsBounded, Progress, StateFits, WellFormed, Measure, Tight, EdgeTight, EdgeForced,
        ForcedFrom;
      ghost var s0 := Now();
      ghost var edges0, values0 := forcedEdges, forcedValues;
      ProgressReflexive(arith, program, s0);
      NothingForced(program, s0, edges0, values0);
      madeChange := false;
      var b := 0;
      while b < |program.blocks|
        invariant 0 <= b <= |program.blocks| && Valid() && Progress(arith, program, s0, Now())
        invariant ForcedFrom(program, s0, edges0, forcedEdges, values0, forcedValues)
        invariant if madeChange then Measure(program, Now()) < Measure(program, s0) else Now() == s0
        invariant !madeChange ==> forall c | 0 <= c < b ::
          c in bbExecutable ==> KnownIn(program, Now(), c, |program.blocks[c].body|)
      {
        if b in bbExecutable {
          var changed := ResolveBlock(b, madeChange, s0, edges0, values0);
          madeChange := madeChange || changed;
          var t := program.blocks[b].terminator;
          if t.Branch? && OperandState(t.condition, 2).value.IsUnknownOrUndef() {
            ghost var s1 := Now();
            TargetsAreBlocks(program, b);
            ForceEdge(b, s0, edges0, values0);
            var isNew := MarkEdgeExecutable(b, t.ifFalse);
            AfterResolve(arith, program, s0, s1, Now());
            madeChange := madeChange || isNew;
          }
        }
        b := b + 1;
      }
      StateFitsBlocks(program, s0);
    }

    /** Records that the false side of a branch on an unknown condition is forced. */
    ghost method ForceEdge(b: nat, s0: State, edges0: set<(nat, nat)>, values0: set<nat>)
      requires Valid() && b < |program.blocks| && b in bbExecutable && Progress(arith, program, s0, Now())
      requires ForcedFrom(program, s0, edges0, forcedEdges, values0, forcedValues)
      requires program.blocks[b].terminator.Branch? &&
        Now().OperandVal(program.blocks[b].terminator.condition, 2).IsUnknownOrUndef()
      modifies `forcedEdges
      ensures Valid() && ForcedFrom(program, s0, edges0, forcedEdges, values0, forcedValues)
      ensures var e := (b, program.blocks[b].terminator.ifFalse);
        e in forcedEdges && EdgeForced(program, Now(), e)
    {
      hide Arithmetic.Sound, ExtensionsBounded, WellFormed, Tight, StateFits;
      ghost var t := program.blocks[b].terminator;
      assert BlockFits(program, b) by {
        BlocksFit(program, b);
      }
      OperandUnknownBefore(arith, program, s0, Now(), t.condition, 2);
      TightWithMoreForced(arith, program, Now(), forcedEdges, forcedEdges + {(b, t.ifFalse)}, forcedValues,
        forcedValues, widened);
      forcedEdges := forcedEdges + {(b, t.ifFalse)};
    }

    /** Records that an unknown value is forced. */
    ghost method ForceValue(v: nat, s0: State, edges0: set<(nat, nat)>, values0: set<nat>)
      requires Valid() && v < |program.values| && Progress(arith, program, s0, Now())
      requires ForcedFrom(program, s0, edges0, forcedEdges, values0, forcedValues)
      requires Now().Val(v).IsUnknownOrUndef()
      modifies `forcedValues
      ensures Valid() && ForcedFrom(program, s0, edges0, forcedEdges, values0, forcedValues) && v in forcedValues
    {
      hide Arithmetic.Sound, ExtensionsBounded, WellFormed, Tight, StateFits;
      UnknownBefore(arith, program, s0, Now(), v);
      TightWithMoreForced(arith, program, Now(), forcedEdges, forcedEdges, forcedValues, forcedValues + {v}, widened);
      forcedValues := forcedValues + {v};
    }

    /** The part of resolvedUndefsIn about the instructions of one block. */
    method ResolveBlock(b: nat, before: bool, ghost s0: State, ghost edges0: set<(nat, nat)>, ghost values0: set<nat>)
      returns (changed: bool)
      requires Valid() && b < |program.blocks| && StateFits(program, s0) && Progress(arith, program, s0, Now())
      requires b in bbExecutable && ForcedFrom(program, s0, edges0, forcedEdges, values0, forcedValues)
      requires if before then Measure(program, Now()) < Measure(program, s0) else Now() == s0
      modifies `valueState, `bbExecutable, `knownFeasibleEdges, `overdefinedInstWorkList, `instWorkList, `bbWorkList,
        `timesExtended, `widened, `forcedValues
      ensures ForcedFrom(program, s0, edges0, forcedEdges, values0, forcedValues)
      ensures Valid() && Progress(arith, program, s0, Now()) && bbExecutable == old(bbExecutable)
      ensures if before || changed then Measure(program, Now()) < Measure(program, s0) else Now() == s0
      ensures !changed ==> KnownIn(program, Now(), b, |program.blocks[b].body|)
    {
      hide Arithmetic.Sound, ExtensionsBounded, Progress, StateFits, WellFormed, Measure, Tight, ForcedFrom;
      BodyInRange(program, b);
      var body := program.blocks[b].body;
      changed := false;
      var i := 0;
      while i < |body|
        invariant 0 <= i <= |body| && Valid() && Progress(arith, program, s0, Now())
        invariant bbExecutable == old(bbExecutable)
        invariant if before || changed then Measure(program, Now()) < Measure(program, s0) else Now() == s0
        invariant !changed ==> KnownIn(program, Now(), b, i)
        invariant ForcedFrom(program, s0, edges0, forcedEdges, values0, forcedValues)
      {
        if StateOf(body[i]).value.IsUnknownOrUndef() {
          ghost var s1 := Now();
          ForceValue(body[i], s0, edges0, values0);
          var _ := MarkOverdefined(body[i]);
          ChangedValueLowersMeasure(arith, program, s1, Now(), body[i]);
          AfterResolve(arith, program, s0, s1, Now());
          changed := true;
        }
        i := i + 1;
      }
    }

    /** The solving part of runSCCP. It terminates in a post-fixpoint in which every instruction of
        an executable block is known, and which says no more than the program: apart from what was forced because
        nothing was known about it when solving came to its end, edges are feasible, blocks executable and values known
        only as far as the values of the operands make them so. */
    method RunSCCP()
      requires Valid() && Now() == State(map[], {}, {}, [], [], [])
      modifies this
      ensures Valid() && PostFixpoint(arith, program, Now()) && AllKnown(program, Now())
      ensures EdgesTight(program, Now(), forcedEdges) && BlocksTight(Now()) && DeadUnknown(program, Now())
      ensures AllExact(arith, program, Now(), forcedValues, widened)
      ensures ForcedWhenStuck(arith, program, forcedEdges, forcedValues, stops)
      ensures forall v | 0 <= v < |program.values| && program.values[v].Phi? ::
        TimesExtended(timesExtended, v) <= |program.values[v].incoming| + 1
    {
      hide Arithmetic.Sound, ExtensionsBounded, Progress, StateFits, WellFormed, Measure, WorkListInvariant, Rises,
        Tight,
        PostFixpoint, ForcedFrom, ForcedWhenStuck;
      ghost var s0 := Now();
      HasEntry(program);
      forcedEdges, forcedValues, widened, stops := {}, {}, {}, [];
      var _ := MarkBlockExecutable(0);
      NewBlockIsProgress(arith, program, s0, Now(), {}, 0);
      TightAtStart(arith, program, Now());
      MarkArguments(s0);
      NothingStuck(arith, program);
      StartsInvariant(arith, program, s0, Now());
      var resolvedUndefs := true;
      while resolvedUndefs
        invariant Valid() && WorkListInvariant(arith, program, Now(), {}) && 0 in bbExecutable
        invariant forall v | 0 <= v < |program.values| && program.values[v].Argument? :: Now().Val(v).Overdefined?
        invariant !resolvedUndefs ==> Now().ListLengths() == 0 && AllKnown(program, Now())
        invariant ForcedWhenStuck(arith, program, forcedEdges, forcedValues, stops)
        decreases if resolvedUndefs then 1 + Measure(program, Now()) else 0
      {
        ghost var s1 := Now();
        Solve();
        ghost var s2 := Now();
        ArgumentsStay(program, s1, s2);
        EmptyListsMeanPostFixpoint(arith, program, s2);
        ghost var edges, values, before := forcedEdges, forcedValues, stops;
        stops := stops + [s2];
        resolvedUndefs := ResolvedUndefsIn();
        StuckOnceMore(arith, program, edges, forcedEdges, values, forcedValues, before, s2);
        InvariantPreserved(arith, program, s2, Now(), {});
        ProgressRises(arith, program, s2, Now());
        ArgumentsStay(program, s2, Now());
      }
      EmptyListsMeanPostFixpoint(arith, program, Now());
      FixpointIsExact(arith, program, Now(), forcedEdges, forcedValues, widened);
      ExtendedAtMost(program, valueState, timesExtended);
    }

    method MarkArguments(ghost s0: State)
      requires Valid() && StateFits(program, s0) && Progress(arith, program, s0, Now())
      modifies `valueState, `bbExecutable, `knownFeasibleEdges, `overdefinedInstWorkList, `instWorkList, `bbWorkList,
        `timesExtended, `widened
      ensures Valid() && Progress(arith, program, s0, Now()) && bbExecutable == old(bbExecutable)
      ensures bbWorkList == old(bbWorkList)
      ensures forall v | 0 <= v < |program.values| && program.values[v].Argument? :: Now().Val(v).Overdefined?
    {
      hide Arithmetic.Sound, ExtensionsBounded, Progress, StateFits, WellFormed, Measure, Tight;
      var v := 0;
      while v < |program.values|
        invariant 0 <= v <= |program.values| && Valid() && Progress(arith, program, s0, Now())
        invariant bbExecutable == old(bbExecutable) && bbWorkList == old(bbWorkList)
        invariant forall w | 0 <= w < v && program.values[w].Argument? :: Now().Val(w).Overdefined?
      {
        if program.values[v].Argument? {
          ghost var s1 := Now();
          var _ := MarkOverdefined(v);
          ProgressTransitive(arith, program, s0, s1, Now());
        }
        v := v + 1;
      }
    }

    /** visitTauNode. Operand 0 is the safe value, the others are the speculative ones. The tau ends
        as a speculative constant exactly when the speculative operands join to one constant and the
        safe value is not already known to be that constant; otherwise it is unknown. It is never
        queued, so its users are not told. */
    method VisitTauNode(tau: nat, operands: seq<nat>, ghost size: nat)
      requires |operands| >= 2 && tau !in operands
      requires forall v | v in valueState :: valueState[v].value.Valid() && valueState[v].extensions < 256
      requires OfSize(StateOf(operands[0]).value, size) && AllOfSize(StatesOf(operands[1..]), size)
      requires StateOf(operands[0]).value.HasRange() ==> JoinAll(StatesOf(operands[1..]), size).HasRange()
      modifies `valueState
      ensures tau in valueState && valueState == old(valueState)[tau := valueState[tau]]
      ensures var beta := old(JoinAll(StatesOf(operands[1..]), size));
        if IsOneConstant(beta) && LetsThrough(old(StateOf(operands[0]).value), beta)
        then valueState[tau].value == beta && valueState[tau].speculative
        else valueState[tau].value == Unknown
    {
      var safe := CopyOf(StateOf(operands[0]));
      var beta, numActiveIncoming := JoinSpeculative(operands, size);
      var tauState := TauRule(StateOf(tau), safe, beta, numActiveIncoming);
      valueState := valueState[tau := tauState];
    }

    /** beta: the first speculative operand merged with all of them, up to the first overdefined result. */
    method JoinSpeculative(operands: seq<nat>, ghost size: nat) returns (beta: Snapshot, numActiveIncoming: nat)
      requires |operands| >= 2
      requires forall v | v in valueState :: valueState[v].value.Valid() && valueState[v].extensions < 256
      requires AllOfSize(StatesOf(operands[1..]), size)
      ensures !beta.speculative && beta.extensions < 256
      ensures beta.value == JoinAll(StatesOf(operands[1..]), size)
    {
      ghost var states := StatesOf(operands[1..]);
      beta, numActiveIncoming := CopyOf(StateOf(operands[1])), 0;
      var i := 1;
      while i < |operands|
        invariant 1 <= i <= |operands|
        invariant !beta.speculative && beta.extensions < 256
        invariant beta.value == if i == 1 then states[0] else JoinAll(states[..i - 1], size)
      {
        assert states[i - 1] == StateOf(operands[1..][i - 1]).value;
        JoinAllNext(states, size, i - 1);
        beta := MergePlain(beta, CopyOf(StateOf(operands[i])), size);
        numActiveIncoming := numActiveIncoming + 1;
        i := i + 1;
        if beta.value.Overdefined? {
          JoinAllOverdefined(states, size, i - 1);
          return;
        }
      }
      assert states[..i - 1] == states;
    }

    function StatesOf(ids: seq<nat>): (r: seq<Value>)
      reads this
      ensures |r| == |ids| && forall i | 0 <= i < |ids| :: r[i] == StateOf(ids[i]).value
    {
      if ids == [] then [] else [StateOf(ids[0]).value] + StatesOf(ids[1..])
    }
  }

  // ----- tau operands -----

  method MergePlain(x: Snapshot, y: Snapshot, ghost size: nat) returns (z: Snapshot)
    requires OfSize(x.value, size) && OfSize(y.value, size) && !x.speculative && !y.speculative
    requires x.extensions < 256 && y.extensions < 256
    ensures z.value == Join(x.value, y.value) && !z.speculative && z.extensions < 256
  {
    var iv := new SpecValueLatticeElement.Reference(x);
    var _ := iv.MergeIn(y, PLAIN_MERGE);
    z := iv.State();
  }

  /** What visitTauNode does once beta is known: forget the old tag, make a constant beta speculative,
      let it through the safe value, and merge the result into itself. */
  method TauRule(old_: Snapshot, safe: Snapshot, beta: Snapshot, numActiveIncoming: nat) returns (tau: Snapshot)
    requires old_.value.Valid() && safe.value.Valid() && beta.value.Valid() && !beta.speculative
    requires old_.extensions < 256 && safe.extensions < 256 && beta.extensions < 256
    requires safe.value.HasRange() ==> beta.value.HasRange()
    ensures if IsOneConstant(beta.value) && LetsThrough(safe.value, beta.value)
            then tau.value == beta.value && tau.speculative
            else tau.value == Unknown
    ensures tau.extensions < 256
  {
    var tauState := new SpecValueLatticeElement.Reference(old_);
    var _ := tauState.MarkUnknown();
    var x0 := new SpecValueLatticeElement.Reference(safe);
    var b := SpeculativeBeta(beta);
    x0.MergeInSpec(b, tauState);
    var _ := tauState.MergeIn(CopyOf(tauState.State()), MergeOptions(false, true, numActiveIncoming + 1));
    tauState.SetNumRangeExtensions(
      if numActiveIncoming >= tauState.numRangeExtensions then numActiveIncoming else tauState.numRangeExtensions);
    tau := tauState.State();
  }

  method SpeculativeBeta(beta: Snapshot) returns (r: Snapshot)
    requires beta.value.Valid() && !beta.speculative && beta.extensions < 256
    ensures r.value == beta.value && r.extensions < 256
    ensures r.speculative == (beta.value.Const? || beta.value.IsIntConstant())
  {
    var b := new SpecValueLatticeElement.Reference(beta);
    if b.Value().IsIntConstant() {
      var _ := b.MarkSpeculativeConstantRange(b.range);
    }
    if b.tag == TagConstant {
      var _ := b.MarkSpeculativeConstant(b.constVal);
    }
    r := b.State();
  }

  ghost predicate OfSize(v: Value, size: nat) {
    v.Valid() && (v.HasRange() ==> v.r.size == size)
  }

  ghost predicate AllOfSize(vs: seq<Value>, size: nat) {
    forall i | 0 <= i < |vs| :: OfSize(vs[i], size)
  }

  ghost function JoinAll(vs: seq<Value>, size: nat): (r: Value)
    requires AllOfSize(vs, size)
    ensures OfSize(r, size)
  {
    if vs == [] then Unknown else Join(JoinAll(vs[..|vs| - 1], size), vs[|vs| - 1])
  }

  lemma JoinAllNext(vs: seq<Value>, size: nat, k: nat)
    requires AllOfSize(vs, size) && k < |vs|
    ensures JoinAll(vs[..k + 1], size) == Join(JoinAll(vs[..k], size), vs[k])
    ensures k == 0 ==> JoinAll(vs[..1], size) == vs[0] && Join(vs[0], vs[0]) == vs[0]
  {
    assert vs[..k + 1][..k] == vs[..k];
  }

  lemma {:induction false} JoinAllOverdefined(vs: seq<Value>, size: nat, k: nat)
    requires AllOfSize(vs, size) && k <= |vs| && JoinAll(vs[..k], size).Overdefined?
    ensures JoinAll(vs, size).Overdefined?
    decreases |vs| - k
  {
    if k == |vs| {
      assert vs[..k] == vs;
    } else {
      JoinAllNext(vs, size, k);
      JoinAllOverdefined(vs, size, k + 1);
    }
  }

  /** The operands join to exactly {c} when at least one is known, every known one is exactly {c},
      and none may be undef; and only then. */
  lemma {:induction false} JoinsToOneInteger(vs: seq<Value>, size: nat, r: ConstantRange)
    requires AllOfSize(vs, size) && r.Valid() && r.IsSingleElement() && size >= 2
    ensures JoinAll(vs, size) == Range(r) <==>
      (exists i :: 0 <= i < |vs| && vs[i] == Range(r)) &&
        (forall i | 0 <= i < |vs| :: vs[i].Unknown? || vs[i] == Range(r))
    ensures JoinAll(vs, size).Unknown? <==> forall i | 0 <= i < |vs| :: vs[i].Unknown?
  {
    if vs != [] {
      var init, last := vs[..|vs| - 1], vs[|vs| - 1];
      JoinsToOneInteger(init, size, r);
      JoinToOneInteger(JoinAll(init, size), last, r);
      assert vs == init + [last];
      assert forall i | 0 <= i < |init| :: vs[i] == init[i];
      if vs[|vs| - 1] == Range(r) {
      } else if i :| 0 <= i < |init| && init[i] == Range(r) {
        assert vs[i] == Range(r);
      }
    }
  }

  lemma JoinToOneInteger(a: Value, b: Value, r: ConstantRange)
    requires a.Valid() && b.Valid() && Compatible(a, b) && r.IsSingleElement()
    ensures Join(a, b) == Range(r) <==>
      (a == Range(r) || b == Range(r)) && (a.Unknown? || a == Range(r)) && (b.Unknown? || b == Range(r))
  {
  }

  /** The safe value is not already known to be beta. */
  predicate LetsThrough(safe: Value, beta: Value)
    requires safe.HasRange() ==> beta.HasRange()
  {
    safe.Overdefined? || safe.NotConst? || (safe.HasRange() && safe.r != beta.r)
  }

  predicate IsOneConstant(v: Value) {
    v.Const? || (v.Range? && v.r.IsSingleElement())
  }

  lemma TargetsAreBlocks(p: Program, b: nat)
    requires WellFormed(p) && b < |p.blocks| && p.blocks[b].terminator.Branch?
    ensures p.blocks[b].terminator.ifTrue < |p.blocks| && p.blocks[b].terminator.ifFalse < |p.blocks|
  {
    assert BlockFits(p, b);
  }

  lemma HasEntry(p: Program)
    requires WellFormed(p)
    ensures |p.blocks| > 0
  {
  }

  lemma BodyInRange(p: Program, b: nat)
    requires WellFormed(p) && b < |p.blocks|
    ensures forall i | 0 <= i < |p.blocks[b].body| :: p.blocks[b].body[i] < |p.values|
    ensures forall i | 0 <= i < |p.blocks[b].body| ::
      !p.values[p.blocks[b].body[i]].Argument? && p.values[p.blocks[b].body[i]].parent == b
  {
    assert BlockFits(p, b);
  }

  lemma PhiOperandsFit(p: Program, v: nat)
    requires WellFormed(p) && v < |p.values| && p.values[v].Phi?
    ensures p.values[v].size >= 2
    ensures forall i | 0 <= i < |p.values[v].incoming| ::
      OperandFits(p, p.values[v].incoming[i].operand, p.values[v].size)
  {
    assert InstructionFits(p, p.values[v]);
  }

  lemma StateFitsAt(p: Program, s: State, v: nat)
    requires StateFits(p, s) && v < |p.values|
    ensures SnapshotFits(if v in s.values then s.values[v] else UNTOUCHED, p.values[v].Size())
  {
  }

  lemma BlocksFit(p: Program, b: nat)
    requires WellFormed(p) && b < |p.blocks|
    ensures BlockFits(p, b)
  {
  }

  lemma StateFitsBlocks(p: Program, s: State)
    requires StateFits(p, s)
    ensures forall b | b in s.executable :: b < |p.blocks|
  {
  }

  lemma ChangedValueLowersMeasure(arith: Arithmetic, p: Program, s0: State, s1: State, v: nat)
    requires WellFormed(p) && StateFits(p, s0) && Progress(arith, p, s0, s1)
    requires v < |p.values| && s0.Val(v) != s1.Val(v)
    ensures Measure(p, s1) < Measure(p, s0)
  {
    MeasureFalls(p, s0, s1);
  }

  lemma AfterResolve(arith: Arithmetic, p: Program, s0: State, s1: State, s2: State)
    requires WellFormed(p) && arith.Sound() && StateFits(p, s0)
    requires Progress(arith, p, s0, s1) && Progress(arith, p, s1, s2)
    ensures Progress(arith, p, s0, s2)
    ensures Measure(p, s1) < Measure(p, s0) || Measure(p, s2) < Measure(p, s1) ==> Measure(p, s2) < Measure(p, s0)
  {
    ProgressTransitive(arith, p, s0, s1, s2);
  }

  lemma ProgressRises(arith: Arithmetic, p: Program, s0: State, s1: State)
    requires Progress(arith, p, s0, s1)
    ensures Rises(p, s0, s1)
  {
  }

  lemma ArgumentsStay(p: Program, s0: State, s1: State)
    requires Rises(p, s0, s1)
    ensures forall v | 0 <= v < |p.values| :: s0.Val(v).Overdefined? ==> s1.Val(v).Overdefined?
    ensures 0 in s0.executable ==> 0 in s1.executable
    ensures Measure(p, s1) <= Measure(p, s0)
  {
    forall v | 0 <= v < |p.values| && s0.Val(v).Overdefined?
      ensures s1.Val(v).Overdefined?
    {
      assert Leq(s0.Val(v), s1.Val(v));
    }
  }

  /** At the start only the entry is executable, and it waits to be visited. */
  lemma StartsInvariant(arith: Arithmetic, p: Program, s0: State, s1: State)
    requires s0 == State(map[], {}, {}, [], [], []) && Progress(arith, p, s0, s1)
    requires s1.executable == {0}
    ensures WorkListInvariant(arith, p, s1, {}) && 0 in s1.executable
  {
  }

  /** Lexicographically closer to the end of solving. */
  ghost predicate CloserToEnd(p: Program, s0: State, s1: State) {
    Measure(p, s1) < Measure(p, s0) || (Measure(p, s1) == Measure(p, s0) && s1.ListLengths() < s0.ListLengths())
  }

  lemma AfterPop(arith: Arithmetic, p: Program, s0: State, s1: State, s2: State, s3: State)
    requires WellFormed(p) && StateFits(p, s0) && StateFits(p, s1) && StateFits(p, s3)
    requires Rises(p, s0, s1) && s2.values == s1.values && s2.executable == s1.executable && s2.feasible == s1.feasible
    requires Measure(p, s2) == Measure(p, s1) && s2.ListLengths() == s1.ListLengths() - 1
    requires Progress(arith, p, s2, s3)
    ensures Rises(p, s0, s3) && CloserToEnd(p, s1, s3)
  {
    forall v | 0 <= v < |p.values|
      ensures Leq(s0.Val(v), s3.Val(v))
    {
      assert s2.Val(v) == s1.Val(v);
      ValFits(p, s0, v);
      ValFits(p, s1, v);
      ValFits(p, s3, v);
      LeqTransitive(s0.Val(v), s1.Val(v), s3.Val(v), p.values[v].Size());
    }
  }

  lemma RisesReflexive(p: Program, s: State)
    ensures Rises(p, s, s)
  {
    forall v | 0 <= v < |p.values|
      ensures Leq(s.Val(v), s.Val(v))
    {
      LeqReflexive(s.Val(v));
    }
  }

  lemma InvariantWeakens(arith: Arithmetic, p: Program, s: State, todo: set<User>, more: set<User>)
    requires WorkListInvariant(arith, p, s, todo) && todo <= more
    ensures WorkListInvariant(arith, p, s, more)
  {
  }

  function ParentOf(p: Program, u: User): nat {
    match u
    case InstructionUser(v) => if v < |p.values| && !p.values[v].Argument? then p.values[v].parent else 0
    case TerminatorUser(b) => b
  }

  lemma DeadUser(p: Program, executable: set<nat>, u: User)
    requires WellFormed(p) && ParentOf(p, u) !in executable
    ensures forall b | b in executable :: !IsUserOf(p, b, u)
  {
    forall b | IsUserOf(p, b, u)
      ensures b == ParentOf(p, u)
    {
      assert BlockFits(p, b);
    }
  }

  lemma UserHasBlock(p: Program, u: User, v: nat)
    requires WellFormed(p) && u in UsersOf(p, v)
    ensures IsUserOf(p, ParentOf(p, u), u)
  {
    match u
    case InstructionUser(i) =>
      assert i < |p.values| && !p.values[i].Argument?;
      assert InstructionFits(p, p.values[i]);
      assert IsUserOf(p, p.values[i].parent, u);
    case TerminatorUser(b) =>
      assert IsUserOf(p, b, u);
  }

  lemma MetIsMetOrPending(arith: Arithmetic, p: Program, s: State, u: User)
    requires UserMet(arith, p, s, u)
    ensures MetOrPending(arith, p, s, u)
  {
  }

  lemma ExecutableGrows(arith: Arithmetic, p: Program, s0: State, s1: State)
    requires Progress(arith, p, s0, s1)
    ensures s0.executable <= s1.executable
  {
  }

  lemma WaitingIsExecutable(p: Program, s: State, b: nat)
    requires StateFits(p, s) && b in s.blockList
    ensures b in s.executable
  {
  }

  lemma FeasibleGrows(arith: Arithmetic, p: Program, s0: State, s1: State)
    requires Progress(arith, p, s0, s1)
    ensures s0.feasible <= s1.feasible
  {
  }

  /** A truth value that is known but no constant is overdefined. */
  lemma TruthIsOverdefined(p: Program, s: State, v: nat)
    requires StateFits(p, s) && v < |p.values| && p.values[v].Compare?
    ensures IsOverdefined(s.Val(v)) ==> s.Val(v).Overdefined?
  {
  }

  /** What the operands demand can be merged into the value. */
  lemma DemandMerges(arith: Arithmetic, p: Program, s: State, v: nat)
    requires WellFormed(p) && arith.Sound() && StateFits(p, s) && IsOperation(p, v)
    ensures SnapshotFits(Snapshot(Demand(arith, p, s, v), false, 0), p.values[v].Size())
    ensures Compatible(s.Val(v), Demand(arith, p, s, v))
  {
    DemandFits(arith, p, s, v);
    ValFits(p, s, v);
  }

  /** The value of v in s1 covers the result of its operation on the operand values in s0. */
  ghost predicate Covers(arith: Arithmetic, p: Program, s0: State, s1: State, v: nat) {
    v < |p.values| &&
    match p.values[v]
    case Binary(_, n, op, l, r) => Leq(BinaryValue(arith, op, n, s0.OperandVal(l, n), s0.OperandVal(r, n)), s1.Val(v))
    case Compare(_, n, pred, l, r) => Leq(CompareValue(arith, pred, s0.OperandVal(l, n), s0.OperandVal(r, n)),
      s1.Val(v))
    case _ => true
  }

  /** After an update of v's own value that covers what its operands demanded before, v is met, or v
      is its own operand and pending. */
  lemma OwnUpdateMeets(arith: Arithmetic, p: Program, s0: State, s1: State, v: nat)
    requires WellFormed(p) && StateFits(p, s0) && Progress(arith, p, s0, s1)
    requires v < |p.values| && (p.values[v].Binary? || p.values[v].Compare?) && Covers(arith, p, s0, s1, v)
    requires forall w | w != v :: s1.Val(w) == s0.Val(w)
    ensures MetOrPending(arith, p, s1, InstructionUser(v))
  {
    hide BinaryValue, CompareValue, Leq, WellFormed, StateFits;
    if p.values[v].HasOperand(Ref(v)) && s0.Val(v) != s1.Val(v) {
      assert Uses(p, InstructionUser(v), v) && s1.Pending(v);
    } else {
      assert forall o, n | p.values[v].HasOperand(o) :: s0.OperandVal(o, n) == s1.OperandVal(o, n);
      OwnUpdateMeetsSame(arith, p, s0, s1, v);
    }
  }

  lemma OwnUpdateMeetsSame(arith: Arithmetic, p: Program, s0: State, s1: State, v: nat)
    requires v < |p.values| && (p.values[v].Binary? || p.values[v].Compare?)
    requires forall o, n | p.values[v].HasOperand(o) :: s0.OperandVal(o, n) == s1.OperandVal(o, n)
    requires Covers(arith, p, s0, s1, v)
    ensures UserMet(arith, p, s1, InstructionUser(v))
  {
    hide BinaryValue, CompareValue, Leq;
    match p.values[v]
    case Binary(_, n, op, l, r) =>
      assert p.values[v].HasOperand(l) && p.values[v].HasOperand(r);
      assert s0.OperandVal(l, n) == s1.OperandVal(l, n) && s0.OperandVal(r, n) == s1.OperandVal(r, n);
    case Compare(_, n, pred, l, r) =>
      assert p.values[v].HasOperand(l) && p.values[v].HasOperand(r);
      assert s0.OperandVal(l, n) == s1.OperandVal(l, n) && s0.OperandVal(r, n) == s1.OperandVal(r, n);
    case _ =>
  }

  lemma TargetsFeasibleMeets(arith: Arithmetic, p: Program, s0: State, s1: State, b: nat)
    requires WellFormed(p) && StateFits(p, s0) && Progress(arith, p, s0, s1) && b < |p.blocks|
    requires forall t | t in FeasibleTargets(s0, p.blocks[b].terminator) :: (b, t) in s1.feasible
    ensures MetOrPending(arith, p, s1, TerminatorUser(b))
  {
    hide NewEdgesHandled, Measure, Leq, StateFits, ValuesRise;
    var t := p.blocks[b].terminator;
    assert BlockFits(p, b);
    if t.Branch? {
      OperandSameOrPending(arith, p, s0, s1, t.condition, 2);
      if t.condition.Ref? {
        assert Uses(p, TerminatorUser(b), t.condition.id);
      }
    }
  }

  /** x is at least every operand on a feasible edge among the first n. */
  ghost predicate AboveFirst(p: Program, s: State, v: nat, n: nat, x: Value)
    requires v < |p.values| && p.values[v].Phi? && n <= |p.values[v].incoming|
  {
    forall j | 0 <= j < n && (p.values[v].incoming[j].from, p.values[v].parent) in s.feasible ::
      Leq(s.OperandVal(p.values[v].incoming[j].operand, p.values[v].size), x)
  }

  lemma StillAbove(p: Program, s: State, v: nat, n: nat, before: Value, after: Value)
    requires WellFormed(p) && StateFits(p, s) && v < |p.values| && p.values[v].Phi? && n <= |p.values[v].incoming|
    requires Leq(before, after) && OfSize(before, p.values[v].size) && OfSize(after, p.values[v].size)
    requires AboveFirst(p, s, v, n, before)
    ensures AboveFirst(p, s, v, n, after)
  {
    var size, incoming := p.values[v].size, p.values[v].incoming;
    PhiOperandsFit(p, v);
    hide WellFormed, StateFits;
    forall j | 0 <= j < n && (incoming[j].from, p.values[v].parent) in s.feasible
      ensures Leq(s.OperandVal(incoming[j].operand, size), after)
    {
      OperandValFits(p, s, incoming[j].operand, size);
      LeqTransitive(s.OperandVal(incoming[j].operand, size), before, after, size);
    }
  }

  lemma AboveNext(p: Program, s: State, v: nat, n: nat, x: Value)
    requires v < |p.values| && p.values[v].Phi? && n < |p.values[v].incoming| && AboveFirst(p, s, v, n, x)
    requires (p.values[v].incoming[n].from, p.values[v].parent) in s.feasible ==>
      Leq(s.OperandVal(p.values[v].incoming[n].operand, p.values[v].size), x)
    ensures AboveFirst(p, s, v, n + 1, x)
  {
  }

  lemma ExtensionsAfterRaise(p: Program, values: map<nat, Snapshot>, times: map<nat, nat>, v: nat, y: Snapshot)
    requires ExtensionsBounded(p, values, times) && v in values && y.value == values[v].value &&
      y.extensions >= values[v].extensions
    ensures ExtensionsBounded(p, values[v := y], times)
  {
    forall w | 0 <= w < |p.values| && p.values[w].Phi?
      ensures ExtensionsBoundedAt(p, values[v := y], times, w)
    {
      assert ExtensionsBoundedAt(p, values, times, w);
    }
  }

  lemma SameValuesMet(arith: Arithmetic, p: Program, s0: State, s1: State, v: nat)
    requires v < |p.values| && InstructionMet(arith, p, s0, v)
    requires s1.feasible == s0.feasible && forall w :: s1.Val(w) == s0.Val(w)
    ensures InstructionMet(arith, p, s1, v)
  {
    assert forall o, n :: s0.OperandVal(o, n) == s1.OperandVal(o, n);
  }

  lemma PhiMetAfterMerge(arith: Arithmetic, p: Program, s0: State, s1: State, v: nat, merged: Value)
    requires WellFormed(p) && StateFits(p, s0) && StateFits(p, s1)
    requires v < |p.values| && p.values[v].Phi? && s1.feasible == s0.feasible
    requires merged.Valid() && (merged.HasRange() ==> merged.r.size == p.values[v].size) && Leq(merged, s1.Val(v))
    requires forall w | w != v :: s1.Val(w) == s0.Val(w)
    requires merged.Overdefined? || AboveFirst(p, s0, v, |p.values[v].incoming|, merged)
    ensures InstructionMet(arith, p, s1, v)
  {
    var size, incoming := p.values[v].size, p.values[v].incoming;
    assert InstructionFits(p, p.values[v]);
    ValFits(p, s1, v);
    forall j | 0 <= j < |incoming| && (incoming[j].from, p.values[v].parent) in s1.feasible
      ensures Leq(s1.OperandVal(incoming[j].operand, size), s1.Val(v))
    {
      var o := incoming[j].operand;
      OperandValFits(p, s0, o, size);
      OperandValFits(p, s1, o, size);
      if o == Ref(v) {
        LeqReflexive(s1.Val(v));
      } else if !merged.Overdefined? {
        LeqTransitive(s0.OperandVal(o, size), merged, s1.Val(v), size);
      }
    }
  }
}
