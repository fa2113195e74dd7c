/** The state of the solver in src/SCCPSolverTau.cpp as a value, the equations it solves, and the
    relation between the states before and after any of its operations. */
module SCCPSolverState {
  import opened Wrappers
  import opened SpecValueLattice
  import opened SCCPProgram

  /** The fields of the visitor: lattice values, executable blocks, feasible edges, and the three
      work lists. */
  datatype State = State(
    values: map<nat, Snapshot>,
    executable: set<nat>,
    feasible: set<(nat, nat)>,
    overdefinedList: seq<nat>,
    instList: seq<nat>,
    blockList: seq<nat>)
  {
    /** A value that was never looked up is unknown. */
    function Val(v: nat): Value {
      if v in values then values[v].value else Unknown
    }

    function OperandVal(o: Operand, size: nat): Value {
      match o
      case Literal(n) => Range(ConstantRange(size, n, n))
      case Ref(id) => Val(id)
      case UndefOperand => Value.Undef
    }

    /** The users of v will still be visited. An entry of the instruction list is skipped when its
        value has become overdefined, so only other entries count. */
    ghost predicate Pending(v: nat) {
      v in overdefinedList || (v in instList && !Val(v).Overdefined?)
    }

    function ListLengths(): nat {
      |overdefinedList| + |instList| + |blockList|
    }
  }

  /** A place that uses values: an instruction or the terminator of a block. */
  datatype User = InstructionUser(id: nat) | TerminatorUser(block: nat)

  /** Phis with more incoming values are not tracked. */
  const MAX_PHI_INCOMING := 64

  // ----- the equations -----

  function AsRange(v: Value, size: nat): ConstantRange {
    if v.HasRange() then v.r else ConstantRange(size, 0, if size == 0 then 0 else size - 1)
  }

  function RangeResult(r: Option<ConstantRange>): Value {
    if r.None? then Unknown else RangeValue(r.value, false)
  }

  /** The value of a binary operator from the values of its operands. */
  function BinaryValue(arith: Arithmetic, op: nat, size: nat, x: Value, y: Value): Value {
    if x.IsUnknownOrUndef() || y.IsUnknownOrUndef() then Unknown
    else if x.Overdefined? && y.Overdefined? then Overdefined
    else RangeResult(arith.rangeBinary(op, AsRange(x, size), AsRange(y, size)))
  }

  /** isOverdefined of the solver and of the driver: known, and not one constant. */
  predicate IsOverdefined(v: Value) {
    !v.IsUnknownOrUndef() && !v.Const? && !v.IsIntConstant()
  }

  const BOOL_TRUE := Range(ConstantRange(2, 1, 1))
  const BOOL_FALSE := Range(ConstantRange(2, 0, 0))

  /** The value of a comparison from the values of its operands. */
  function CompareValue(arith: Arithmetic, pred: nat, x: Value, y: Value): Value {
    if x.IsUnknownOrUndef() || y.IsUnknownOrUndef() then Unknown
    else if !x.HasRange() || !y.HasRange() then Overdefined
    else if arith.rangeCompare(pred, x.r, y.r) then BOOL_TRUE
    else if arith.rangeCompare(arith.inverse(pred), x.r, y.r) then BOOL_FALSE
    else Overdefined
  }

  /** The successors a terminator can reach, judged by the value of its condition. */
  function FeasibleTargets(s: State, t: Terminator): set<nat> {
    match t
    case Return(_) => {}
    case Jump(target) => {target}
    case Branch(c, ifTrue, ifFalse) =>
      var v := s.OperandVal(c, 2);
      if v.IsIntConstant() then {if v.r.lo == 0 then ifFalse else ifTrue}
      else if v.IsUnknownOrUndef() then {}
      else {ifTrue, ifFalse}
  }

  /** The equation of an instruction holds: its value is at least what its operands demand. */
  ghost predicate InstructionMet(arith: Arithmetic, p: Program, s: State, v: nat)
    requires v < |p.values|
  {
    match p.values[v]
    case Argument(_) => s.Val(v).Overdefined?
    case Phi(parent, size, incoming) =>
      forall i | 0 <= i < |incoming| ::
        (incoming[i].from, parent) in s.feasible ==> Leq(s.OperandVal(incoming[i].operand, size), s.Val(v))
    case Binary(_, size, op, l, r) =>
      Leq(BinaryValue(arith, op, size, s.OperandVal(l, size), s.OperandVal(r, size)), s.Val(v))
    case Compare(_, size, pred, l, r) =>
      Leq(CompareValue(arith, pred, s.OperandVal(l, size), s.OperandVal(r, size)), s.Val(v))
  }

  ghost predicate TerminatorMet(p: Program, s: State, b: nat)
    requires b < |p.blocks|
  {
    forall t | t in FeasibleTargets(s, p.blocks[b].terminator) :: (b, t) in s.feasible
  }

  ghost predicate UserMet(arith: Arithmetic, p: Program, s: State, u: User) {
    match u
    case InstructionUser(v) => v < |p.values| && InstructionMet(arith, p, s, v)
    case TerminatorUser(b) => b < |p.blocks| && TerminatorMet(p, s, b)
  }

  predicate Uses(p: Program, u: User, v: nat) {
    match u
    case InstructionUser(i) => i < |p.values| && p.values[i].HasOperand(Ref(v))
    case TerminatorUser(b) => b < |p.blocks| && p.blocks[b].terminator.HasOperand(Ref(v))
  }

  /** Met, or to be visited again because an operand is pending. */
  ghost predicate MetOrPending(arith: Arithmetic, p: Program, s: State, u: User) {
    UserMet(arith, p, s, u) || exists v :: Uses(p, u, v) && s.Pending(v)
  }

  predicate IsUserOf(p: Program, b: nat, u: User) {
    b < |p.blocks| &&
    match u
    case InstructionUser(v) => v in p.blocks[b].body
    case TerminatorUser(c) => c == b
  }

  // ----- invariants -----

  /** Values of a tau-free integer program: unknown, a range of the right type, or overdefined. */
  ghost predicate SnapshotFits(x: Snapshot, size: nat) {
    && x.value.Valid()
    && (x.value.Unknown? || x.value.Range? || x.value.Overdefined?)
    && (x.value.Range? ==> x.value.r.size == size)
    && !x.speculative
    && x.extensions < 256 && (x.value.Range? ==> x.extensions <= 65)
  }

  ghost predicate StateFits(p: Program, s: State) {
    && (forall v | v in s.values :: v < |p.values| && SnapshotFits(s.values[v], p.values[v].Size()))
    && (forall b | b in s.executable :: b < |p.blocks|)
    && (forall e | e in s.feasible :: e.0 < |p.blocks| && e.1 in s.executable)
    && (forall v | v in s.overdefinedList :: v < |p.values|)
    && (forall v | v in s.instList :: v < |p.values|)
    && (forall b | b in s.blockList :: b in s.executable)
  }

  /** The work-list invariant: in an executable block that is not waiting to be visited, every
      equation that is not met has an operand pending, except for the users still to be visited by
      the operation in progress. */
  ghost predicate WorkListInvariant(arith: Arithmetic, p: Program, s: State, todo: set<User>) {
    forall b, u | b in s.executable && b !in s.blockList && IsUserOf(p, b, u) && u !in todo ::
      MetOrPending(arith, p, s, u)
  }

  /** Every equation of an executable block holds. */
  ghost predicate PostFixpoint(arith: Arithmetic, p: Program, s: State) {
    && 0 in s.executable
    && (forall v | 0 <= v < |p.values| && p.values[v].Argument? :: s.Val(v).Overdefined?)
    && (forall b, u | b in s.executable && IsUserOf(p, b, u) :: UserMet(arith, p, s, u))
  }

  lemma EmptyListsMeanPostFixpoint(arith: Arithmetic, p: Program, s: State)
    requires WorkListInvariant(arith, p, s, {}) && s.ListLengths() == 0
    requires 0 in s.executable
    requires forall v | 0 <= v < |p.values| && p.values[v].Argument? :: s.Val(v).Overdefined?
    ensures PostFixpoint(arith, p, s)
  {
    forall b, u | b in s.executable && IsUserOf(p, b, u)
      ensures UserMet(arith, p, s, u)
    {
      assert MetOrPending(arith, p, s, u);
    }
  }

  // ----- how far the solver still has to go -----

  function HeightLeft(p: Program, s: State, n: nat): nat
    requires n <= |p.values|
  {
    if n == 0 then 0 else HeightLeft(p, s, n - 1) + Height(s.Val(n - 1), p.values[n - 1].Size())
  }

  predicate IsBlock(p: Program, b: nat) {
    b < |p.blocks|
  }

  function AllBlocks(p: Program): set<nat> {
    set b: nat | 0 <= b < |p.blocks| && IsBlock(p, b)
  }

  function AllEdges(p: Program): set<(nat, nat)> {
    set b: nat, c: nat | 0 <= b < |p.blocks| && 0 <= c < |p.blocks| :: (b, c)
  }

  /** Lattice height left, blocks not executable, edges not feasible. */
  function Measure(p: Program, s: State): nat {
    HeightLeft(p, s, |p.values|) + |AllBlocks(p) - s.executable| + |AllEdges(p) - s.feasible|
  }

  // ----- the relation between two states -----

  ghost predicate ValuesRise(p: Program, s0: State, s1: State) {
    forall v | 0 <= v < |p.values| ::
      Leq(s0.Val(v), s1.Val(v)) && (s0.Val(v) != s1.Val(v) ==> s1.Pending(v))
  }

  /** A phi of the target of a newly feasible edge is visited, pending, or in a block waiting to be
      visited. */
  ghost predicate NewEdgesHandled(arith: Arithmetic, p: Program, s0: State, s1: State) {
    forall e, v | e in s1.feasible && e !in s0.feasible && e.1 !in s1.blockList && IsPhiOf(p, e.1, v) ::
      MetOrPending(arith, p, s1, InstructionUser(v))
  }

  ghost predicate Progress(arith: Arithmetic, p: Program, s0: State, s1: State) {
    && StateFits(p, s1)
    && s0.executable <= s1.executable && s0.feasible <= s1.feasible
    && s0.overdefinedList <= s1.overdefinedList && s0.instList <= s1.instList && s0.blockList <= s1.blockList
    && (forall b | b in s1.executable && b !in s0.executable :: b in s1.blockList)
    && ValuesRise(p, s0, s1)
    && NewEdgesHandled(arith, p, s0, s1)
    && Measure(p, s1) <= Measure(p, s0)
    && (s1.ListLengths() == s0.ListLengths() || Measure(p, s1) < Measure(p, s0))
  }

  /** What solving does to the facts: values rise, blocks and edges are added. */
  ghost predicate Rises(p: Program, s0: State, s1: State) {
    && s0.executable <= s1.executable && s0.feasible <= s1.feasible
    && (forall v | 0 <= v < |p.values| :: Leq(s0.Val(v), s1.Val(v)))
    && Measure(p, s1) <= Measure(p, s0)
  }

  lemma LeqReflexive(v: Value)
    ensures Leq(v, v)
  {
  }

  lemma LeqTransitive(a: Value, b: Value, c: Value, size: nat)
    requires a.Valid() && b.Valid() && c.Valid()
    requires a.HasRange() ==> a.r.size == size
    requires b.HasRange() ==> b.r.size == size
    requires c.HasRange() ==> c.r.size == size
    requires Leq(a, b) && Leq(b, c)
    ensures Leq(a, c)
  {
    JoinIsLeastUpperBound(a, b, c);
  }

  lemma ValFits(p: Program, s: State, v: nat)
    requires StateFits(p, s) && v < |p.values|
    ensures s.Val(v).Valid() && (s.Val(v).HasRange() ==> s.Val(v).r.size == p.values[v].Size())
    ensures s.Val(v).Unknown? || s.Val(v).Range? || s.Val(v).Overdefined?
  {
  }

  lemma PendingPreserved(arith: Arithmetic, p: Program, s0: State, s1: State, v: nat)
    requires StateFits(p, s0) && Progress(arith, p, s0, s1) && s0.Pending(v)
    ensures s1.Pending(v)
  {
    assert v < |p.values|;
    assert Leq(s0.Val(v), s1.Val(v));
    if v in s0.overdefinedList {
      assert v in s1.overdefinedList;
    } else {
      assert v in s1.instList;
    }
  }

  /** An operand has the same value as before, or is pending. */
  lemma OperandSameOrPending(arith: Arithmetic, p: Program, s0: State, s1: State, o: Operand, size: nat)
    requires StateFits(p, s0) && Progress(arith, p, s0, s1) && OperandFits(p, o, size)
    ensures s0.OperandVal(o, size) == s1.OperandVal(o, size) || (o.Ref? && s1.Pending(o.id))
  {
    if o.Ref? {
      assert Leq(s0.Val(o.id), s1.Val(o.id));
    }
  }

  /** Progress keeps an equation met or pending, unless a new edge into its phi's block does not. */
  lemma MetOrPendingPreserved(arith: Arithmetic, p: Program, s0: State, s1: State, u: User)
    requires WellFormed(p) && arith.Sound() && StateFits(p, s0) && Progress(arith, p, s0, s1)
    requires MetOrPending(arith, p, s0, u)
    requires u.InstructionUser? && u.id < |p.values| && p.values[u.id].Phi? ==>
      forall from :: (from, p.values[u.id].parent) in s1.feasible ==> (from, p.values[u.id].parent) in s0.feasible
    ensures MetOrPending(arith, p, s1, u)
  {
    if v :| Uses(p, u, v) && s0.Pending(v) {
      PendingPreserved(arith, p, s0, s1, v);
    } else if forall v :: Uses(p, u, v) ==> !s1.Pending(v) {
      assert UserMet(arith, p, s0, u);
      match u {
        case InstructionUser(v) =>
          assert InstructionFits(p, p.values[v]);
          forall o, n | p.values[v].HasOperand(o) && OperandFits(p, o, n)
            ensures s0.OperandVal(o, n) == s1.OperandVal(o, n)
          {
            assert o.Ref? ==> Uses(p, u, o.id);
            OperandSameOrPending(arith, p, s0, s1, o, n);
          }
          InstructionMetPreserved(arith, p, s0, s1, v);
        case TerminatorUser(b) =>
          TerminatorMetPreserved(arith, p, s0, s1, b);
      }
    }
  }

  lemma TerminatorMetPreserved(arith: Arithmetic, p: Program, s0: State, s1: State, b: nat)
    requires WellFormed(p) && StateFits(p, s0) && Progress(arith, p, s0, s1)
    requires b < |p.blocks| && TerminatorMet(p, s0, b)
    requires forall v :: Uses(p, TerminatorUser(b), v) ==> !s1.Pending(v)
    ensures TerminatorMet(p, s1, b)
  {
    hide NewEdgesHandled, Measure, Leq, StateFits;
    var t := p.blocks[b].terminator;
    if t.Branch? {
      assert BlockFits(p, b);
      assert t.condition.Ref? ==> Uses(p, TerminatorUser(b), t.condition.id);
      OperandSameOrPending(arith, p, s0, s1, t.condition, 2);
    }
  }

  lemma OverdefinedStays(a: Value, b: Value)
    requires Leq(a, b) && a.Overdefined?
    ensures b.Overdefined?
  {
  }

  /** An equation whose operands are unchanged stays met when the value itself rises. */
  lemma InstructionMetPreserved(arith: Arithmetic, p: Program, s0: State, s1: State, v: nat)
    requires WellFormed(p) && arith.Sound() && StateFits(p, s0) && StateFits(p, s1)
    requires v < |p.values| && InstructionMet(arith, p, s0, v) && Leq(s0.Val(v), s1.Val(v))
    requires forall o, n | p.values[v].HasOperand(o) && OperandFits(p, o, n) ::
      s0.OperandVal(o, n) == s1.OperandVal(o, n)
    requires p.values[v].Phi? ==>
      forall from :: (from, p.values[v].parent) in s1.feasible ==> (from, p.values[v].parent) in s0.feasible
    ensures InstructionMet(arith, p, s1, v)
  {
    hide Arithmetic.Sound, Leq, BinaryValue;
    var size := p.values[v].Size();
    assert InstructionFits(p, p.values[v]);
    ValFits(p, s0, v);
    ValFits(p, s1, v);
    match p.values[v] {
      case Argument(_) =>
        OverdefinedStays(s0.Val(v), s1.Val(v));
      case Phi(parent, _, incoming) =>
        forall i | 0 <= i < |incoming| && (incoming[i].from, parent) in s1.feasible
          ensures Leq(s1.OperandVal(incoming[i].operand, size), s1.Val(v))
        {
          var o := incoming[i].operand;
          assert p.values[v].HasOperand(o) && OperandFits(p, o, size);
          OperandValFits(p, s0, o, size);
          LeqTransitive(s0.OperandVal(o, size), s0.Val(v), s1.Val(v), size);
        }
      case Binary(_, n, op, l, r) =>
        assert p.values[v].HasOperand(l) && p.values[v].HasOperand(r);
        BinaryValueFits(arith, p, s0, op, n, l, r);
        LeqTransitive(BinaryValue(arith, op, n, s0.OperandVal(l, n), s0.OperandVal(r, n)), s0.Val(v), s1.Val(v), size);
      case Compare(_, n, pred, l, r) =>
        assert p.values[v].HasOperand(l) && p.values[v].HasOperand(r);
        LeqTransitive(CompareValue(arith, pred, s0.OperandVal(l, n), s0.OperandVal(r, n)), s0.Val(v), s1.Val(v), size);
    }
  }

  lemma OperandValFits(p: Program, s: State, o: Operand, size: nat)
    requires StateFits(p, s) && OperandFits(p, o, size) && size >= 2
    ensures var v := s.OperandVal(o, size);
      v.Valid() && (v.HasRange() ==> v.r.size == size) && (v.Unknown? || v.Range? || v.Overdefined?)
  {
    if o.Ref? {
      ValFits(p, s, o.id);
    }
  }

  lemma BinaryValueFits(arith: Arithmetic, p: Program, s: State, op: nat, size: nat, l: Operand, r: Operand)
    requires StateFits(p, s) && OperandFits(p, l, size) && OperandFits(p, r, size) && size >= 2 && arith.Sound()
    ensures var v := BinaryValue(arith, op, size, s.OperandVal(l, size), s.OperandVal(r, size));
      v.Valid() && (v.HasRange() ==> v.r.size == size) && (v.Unknown? || v.Range? || v.Overdefined?)
  {
    OperandValFits(p, s, l, size);
    OperandValFits(p, s, r, size);
    var x, y := s.OperandVal(l, size), s.OperandVal(r, size);
    assert AsRange(x, size).Valid() && AsRange(y, size).Valid();
    assert AsRange(x, size).size == size == AsRange(y, size).size;
    var _ := arith.rangeBinary(op, AsRange(x, size), AsRange(y, size));
  }

  lemma ProgressReflexive(arith: Arithmetic, p: Program, s: State)
    requires StateFits(p, s)
    ensures Progress(arith, p, s, s)
  {
  }

  lemma ProgressTransitive(arith: Arithmetic, p: Program, s0: State, s1: State, s2: State)
    requires WellFormed(p) && arith.Sound() && StateFits(p, s0)
    requires Progress(arith, p, s0, s1) && Progress(arith, p, s1, s2)
    ensures Progress(arith, p, s0, s2)
  {
    hide Arithmetic.Sound, Leq, Measure, MetOrPending, NewEdgesHandled, WellFormed;
    forall v | 0 <= v < |p.values|
      ensures Leq(s0.Val(v), s2.Val(v)) && (s0.Val(v) != s2.Val(v) ==> s2.Pending(v))
    {
      ValFits(p, s0, v);
      ValFits(p, s1, v);
      ValFits(p, s2, v);
      assert Leq(s0.Val(v), s1.Val(v)) && Leq(s1.Val(v), s2.Val(v));
      LeqTransitive(s0.Val(v), s1.Val(v), s2.Val(v), p.values[v].Size());
      if s0.Val(v) != s1.Val(v) {
        PendingPreserved(arith, p, s1, s2, v);
      }
    }
    NewEdgesHandledLater(arith, p, s0, s1, s2);
  }

  lemma NewEdgesHandledLater(arith: Arithmetic, p: Program, s0: State, s1: State, s2: State)
    requires WellFormed(p) && arith.Sound() && StateFits(p, s0)
    requires Progress(arith, p, s0, s1) && Progress(arith, p, s1, s2)
    ensures NewEdgesHandled(arith, p, s0, s2)
  {
    hide Arithmetic.Sound, WellFormed, StateFits, Progress, MetOrPending;
    forall e, v | e in s2.feasible && e !in s0.feasible && e.1 !in s2.blockList && IsPhiOf(p, e.1, v)
      ensures MetOrPending(arith, p, s2, InstructionUser(v))
    {
      NewEdgeHandledLater(arith, p, s0, s1, s2, e, v);
    }
  }

  lemma NewEdgeHandledLater(arith: Arithmetic, p: Program, s0: State, s1: State, s2: State, e: (nat, nat), v: nat)
    requires WellFormed(p) && arith.Sound() && StateFits(p, s0)
    requires Progress(arith, p, s0, s1) && Progress(arith, p, s1, s2)
    requires e in s2.feasible && e !in s0.feasible && e.1 !in s2.blockList && IsPhiOf(p, e.1, v)
    ensures MetOrPending(arith, p, s2, InstructionUser(v))
  {
    hide Arithmetic.Sound, WellFormed, StateFits, MetOrPending, ValuesRise, Measure;
    if from: nat :| (from, e.1) in s2.feasible && (from, e.1) !in s1.feasible {
      var e' := (from, e.1);
      assert MetOrPending(arith, p, s2, InstructionUser(v));
    } else {
      assert e == (e.0, e.1);
      assert e in s1.feasible && e.1 !in s1.blockList;
      MetOrPendingPreserved(arith, p, s1, s2, InstructionUser(v));
    }
  }

  /** Any operation that makes progress keeps the work-list invariant. */
  lemma InvariantPreserved(arith: Arithmetic, p: Program, s0: State, s1: State, todo: set<User>)
    requires WellFormed(p) && arith.Sound() && StateFits(p, s0) && Progress(arith, p, s0, s1)
    requires WorkListInvariant(arith, p, s0, todo)
    ensures WorkListInvariant(arith, p, s1, todo)
  {
    forall b, u | b in s1.executable && b !in s1.blockList && IsUserOf(p, b, u) && u !in todo
      ensures MetOrPending(arith, p, s1, u)
    {
      assert b in s0.executable && b !in s0.blockList;
      assert MetOrPending(arith, p, s0, u);
      assert BlockFits(p, b);
      if u.InstructionUser? && p.values[u.id].Phi? &&
        exists from: nat :: (from, b) in s1.feasible && (from, b) !in s0.feasible {
        var from: nat :| (from, b) in s1.feasible && (from, b) !in s0.feasible;
        var e := (from, b);
        assert IsPhiOf(p, e.1, u.id);
      } else {
        MetOrPendingPreserved(arith, p, s0, s1, u);
      }
    }
  }

  // ----- measures -----

  lemma {:induction false} HeightLeftFalls(p: Program, s0: State, s1: State, n: nat)
    requires n <= |p.values| && WellFormed(p) && StateFits(p, s0) && StateFits(p, s1)
    requires forall v | 0 <= v < |p.values| :: Leq(s0.Val(v), s1.Val(v))
    ensures HeightLeft(p, s1, n) <= HeightLeft(p, s0, n)
    ensures forall v | 0 <= v < n :: s0.Val(v) != s1.Val(v) ==> HeightLeft(p, s1, n) < HeightLeft(p, s0, n)
  {
    if n > 0 {
      HeightLeftFalls(p, s0, s1, n - 1);
      var v := n - 1;
      ValFits(p, s0, v);
      ValFits(p, s1, v);
      assert InstructionFits(p, p.values[v]);
      if s0.Val(v) != s1.Val(v) {
        HeightDrops(s0.Val(v), s1.Val(v), p.values[v].Size());
      }
    }
  }

  lemma MeasureFalls(p: Program, s0: State, s1: State)
    requires WellFormed(p) && StateFits(p, s0) && StateFits(p, s1)
    requires forall v | 0 <= v < |p.values| :: Leq(s0.Val(v), s1.Val(v))
    requires s0.executable <= s1.executable && s0.feasible <= s1.feasible
    ensures Measure(p, s1) <= Measure(p, s0)
    ensures s0.executable != s1.executable ==> Measure(p, s1) < Measure(p, s0)
    ensures s0.feasible != s1.feasible ==> Measure(p, s1) < Measure(p, s0)
    ensures forall v | 0 <= v < |p.values| :: s0.Val(v) != s1.Val(v) ==> Measure(p, s1) < Measure(p, s0)
  {
    HeightLeftFalls(p, s0, s1, |p.values|);
    SubsetSizes(AllBlocks(p) - s1.executable, AllBlocks(p) - s0.executable);
    SubsetSizes(AllEdges(p) - s1.feasible, AllEdges(p) - s0.feasible);
    if s0.executable != s1.executable {
      var b :| b in s1.executable && b !in s0.executable;
      assert b in AllBlocks(p) - s0.executable && b !in AllBlocks(p) - s1.executable;
    }
    if s0.feasible != s1.feasible {
      var e :| e in s1.feasible && e !in s0.feasible;
      assert e == (e.0, e.1);
      assert e in AllEdges(p) - s0.feasible && e !in AllEdges(p) - s1.feasible;
    }
  }

  lemma SubsetSizes<T>(a: set<T>, b: set<T>)
    requires a <= b
    ensures |a| <= |b| && (a != b ==> |a| < |b|)
  {
    assert b == a + (b - a);
  }
}
