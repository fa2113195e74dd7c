/** What bounds the solver's answer from above: an edge is feasible, a block executable and a value known only because
    of what the operands say, apart from what resolvedUndefsIn forces and what widening gives up. */
module SCCPTightness {
  import opened Wrappers
  import opened SpecValueLattice
  import opened SCCPProgram
  import opened SCCPSolverState

  // ----- edges -----

  /** The edge leaves an executable block along its terminator; a branch whose condition is known, and to the side that
      a single integer selects. */
  ghost predicate EdgeTight(p: Program, s: State, e: (nat, nat)) {
    && e.0 < |p.blocks| && e.0 in s.executable
    && match p.blocks[e.0].terminator
       case Return(_) => false
       case Jump(t) => e.1 == t
       case Branch(c, t, f) =>
         var x := s.OperandVal(c, 2);
         && (e.1 == t || e.1 == f) && !x.IsUnknownOrUndef()
         && (x.IsIntConstant() ==> e.1 == if x.r.lo != 0 then t else f)
  }

  /** An edge that resolvedUndefsIn forced is the false side of a branch of an executable block. */
  ghost predicate EdgeForced(p: Program, s: State, e: (nat, nat)) {
    && e.0 < |p.blocks| && e.0 in s.executable
    && p.blocks[e.0].terminator.Branch? && e.1 == p.blocks[e.0].terminator.ifFalse
  }

  ghost predicate EdgesTight(p: Program, s: State, forced: set<(nat, nat)>) {
    forall e | e in s.feasible :: EdgeTight(p, s, e) || (e in forced && EdgeForced(p, s, e))
  }

  /** Every executable block but the entry is entered along a feasible edge. */
  ghost predicate BlocksTight(s: State) {
    forall b | b in s.executable && b != 0 :: IsEntered(s, b)
  }

  ghost predicate IsEntered(s: State, b: nat) {
    exists a: nat :: (a, b) in s.feasible
  }

  // ----- values -----

  /** Unknown or a single integer. */
  predicate IsFlat(v: Value) {
    v.Unknown? || v.IsIntConstant()
  }

  predicate IsOperation(p: Program, v: nat) {
    v < |p.values| && (p.values[v].Binary? || p.values[v].Compare?)
  }

  /** What the operands of an operator or a comparison demand of its value. */
  ghost function Demand(arith: Arithmetic, p: Program, s: State, v: nat): Value
    requires IsOperation(p, v)
  {
    match p.values[v]
    case Binary(_, n, op, l, r) => BinaryValue(arith, op, n, s.OperandVal(l, n), s.OperandVal(r, n))
    case Compare(_, n, pred, l, r) => CompareValue(arith, pred, s.OperandVal(l, n), s.OperandVal(r, n))
  }

  predicate FlatOperands(p: Program, s: State, v: nat)
    requires IsOperation(p, v)
  {
    var n := if p.values[v].Binary? then p.values[v].size else p.values[v].operandSize;
    IsFlat(s.OperandVal(p.values[v].left, n)) && IsFlat(s.OperandVal(p.values[v].right, n))
  }

  /** The value is at most what the operands demand: always when they are single integers, and for any operands when the
      library's arithmetic is monotone. */
  ghost predicate OperationTight(arith: Arithmetic, p: Program, s: State, v: nat)
    requires IsOperation(p, v)
  {
    FlatOperands(p, s, v) || Monotone(arith) ==> Leq(s.Val(v), Demand(arith, p, s, v))
  }

  /** z is at least every operand of the phi on a feasible edge. */
  ghost predicate IsBound(p: Program, s: State, v: nat, z: Value)
    requires v < |p.values| && p.values[v].Phi?
  {
    var size := p.values[v].size;
    && z.Valid() && (z.HasRange() ==> z.r.size == size)
    && forall i | 0 <= i < |p.values[v].incoming| && (p.values[v].incoming[i].from, p.values[v].parent) in s.feasible ::
         Leq(s.OperandVal(p.values[v].incoming[i].operand, size), z)
  }

  /** A phi that is tracked is at most every bound of its operands, unless it was widened; and it is not widened while
      its operands agree on a single integer. */
  ghost predicate PhiTight(p: Program, s: State, widened: set<nat>, v: nat)
    requires v < |p.values| && p.values[v].Phi?
  {
    |p.values[v].incoming| <= MAX_PHI_INCOMING ==>
      && (v in widened ==> s.Val(v).Overdefined?)
      && forall z | IsBound(p, s, v, z) :: if v in widened then !z.IsIntConstant() else Leq(s.Val(v), z)
  }

  ghost predicate ValueTight(arith: Arithmetic, p: Program, s: State, widened: set<nat>, v: nat)
    requires v < |p.values|
  {
    match p.values[v]
    case Argument(_) => true
    case Phi(_, _, _) => PhiTight(p, s, widened, v)
    case _ => OperationTight(arith, p, s, v)
  }

  ghost predicate ValuesTight(arith: Arithmetic, p: Program, s: State, forced: set<nat>, widened: set<nat>) {
    forall v | 0 <= v < |p.values| && v !in forced :: ValueTight(arith, p, s, widened, v)
  }

  /** A phi that was widened is overdefined, and its counter passed the limit for one operand. */
  ghost predicate WidenedLate(s: State, widened: set<nat>) {
    forall v | v in widened :: v in s.values && s.values[v].value.Overdefined? && s.values[v].extensions >= 3
  }

  /** Nothing is known about instructions outside the executable blocks. */
  ghost predicate DeadUnknown(p: Program, s: State) {
    forall v | 0 <= v < |p.values| && !IsLive(p, s, v) :: s.Val(v).Unknown?
  }

  predicate IsLive(p: Program, s: State, v: nat)
    requires v < |p.values|
  {
    p.values[v].Argument? || p.values[v].parent in s.executable
  }

  ghost predicate Tight(arith: Arithmetic, p: Program, s: State, forcedEdges: set<(nat, nat)>, forcedValues: set<nat>,
                        widened: set<nat>)
  {
    && EdgesTight(p, s, forcedEdges) && BlocksTight(s) && DeadUnknown(p, s)
    && ValuesTight(arith, p, s, forcedValues, widened) && WidenedLate(s, widened)
  }

  // ----- what keeps it -----

  /** Values rise, and blocks and edges are added. */
  ghost predicate Grows(p: Program, s0: State, s1: State) {
    && StateFits(p, s0) && StateFits(p, s1) && s0.executable <= s1.executable && s0.feasible <= s1.feasible
    && forall v | 0 <= v < |p.values| :: Leq(s0.Val(v), s1.Val(v))
  }

  lemma OperandGrows(p: Program, s0: State, s1: State, o: Operand, size: nat)
    requires Grows(p, s0, s1) && OperandFits(p, o, size) && size >= 2
    ensures Leq(s0.OperandVal(o, size), s1.OperandVal(o, size))
    ensures IsFlat(s1.OperandVal(o, size)) ==>
      s0.OperandVal(o, size) == s1.OperandVal(o, size) || s0.OperandVal(o, size).Unknown?
  {
    OperandValFits(p, s0, o, size);
    OperandValFits(p, s1, o, size);
    if o.Ref? {
      assert Leq(s0.Val(o.id), s1.Val(o.id));
    }
  }

  lemma EdgeTightStays(p: Program, s0: State, s1: State, e: (nat, nat))
    requires WellFormed(p) && Grows(p, s0, s1) && EdgeTight(p, s0, e)
    ensures EdgeTight(p, s1, e)
  {
    hide Grows, Leq;
    assert BlockFits(p, e.0);
    GrowsFacts(p, s0, s1);
    match p.blocks[e.0].terminator
    case Branch(c, t, f) =>
      OperandGrows(p, s0, s1, c, 2);
      KnownStays(s0.OperandVal(c, 2), s1.OperandVal(c, 2));
    case _ =>
  }

  lemma EdgesTightStay(p: Program, s0: State, s1: State, forced: set<(nat, nat)>)
    requires WellFormed(p) && Grows(p, s0, s1) && EdgesTight(p, s0, forced) && s1.feasible == s0.feasible
    ensures EdgesTight(p, s1, forced)
  {
    GrowsFacts(p, s0, s1);
    hide WellFormed, Grows, EdgeTight;
    forall e | e in s1.feasible
      ensures EdgeTight(p, s1, e) || (e in forced && EdgeForced(p, s1, e))
    {
      if EdgeTight(p, s0, e) {
        EdgeTightStays(p, s0, s1, e);
      }
    }
  }

  lemma GrowsFacts(p: Program, s0: State, s1: State)
    requires Grows(p, s0, s1)
    ensures s0.executable <= s1.executable && s0.feasible <= s1.feasible && StateFits(p, s0) && StateFits(p, s1)
  {
  }

  lemma KnownStays(a: Value, b: Value)
    requires Leq(a, b)
    ensures b.IsUnknownOrUndef() ==> a.IsUnknownOrUndef()
  {
  }

  lemma WithinAsRange(a: Value, b: Value, size: nat)
    requires size >= 2 && Leq(a, b) && a.Valid() && b.Valid() && !a.IsUnknownOrUndef()
    requires (a.Range? || a.Overdefined?) && (b.Unknown? || b.Range? || b.Overdefined?)
    requires (a.HasRange() ==> a.r.size == size) && (b.HasRange() ==> b.r.size == size)
    ensures !b.Unknown? && Within(AsRange(a, size), AsRange(b, size))
    ensures AsRange(a, size).Valid() && AsRange(b, size).Valid()
    ensures AsRange(a, size).size == size == AsRange(b, size).size
    ensures a.Overdefined? ==> b.Overdefined?
  {
  }

  lemma WithinIsLeq(a: ConstantRange, b: ConstantRange)
    requires a.Valid() && b.Valid() && Within(a, b)
    ensures Leq(RangeValue(a, false), RangeValue(b, false))
  {
  }

  /** With monotone arithmetic the demand grows with the operands. */
  lemma BinaryMonotone(arith: Arithmetic, op: nat, size: nat, x0: Value, y0: Value, x1: Value, y1: Value)
    requires arith.Sound() && Monotone(arith) && size >= 2 && Leq(x0, x1) && Leq(y0, y1)
    requires forall v | v in {x0, y0, x1, y1} ::
      v.Valid() && (v.Unknown? || v.Range? || v.Overdefined?) && (v.HasRange() ==> v.r.size == size)
    ensures Leq(BinaryValue(arith, op, size, x0, y0), BinaryValue(arith, op, size, x1, y1))
  {
    if !x0.Unknown? && !y0.Unknown? {
      WithinAsRange(x0, x1, size);
      WithinAsRange(y0, y1, size);
      var a0, b0, a1, b1 := AsRange(x0, size), AsRange(y0, size), AsRange(x1, size), AsRange(y1, size);
      if !(x1.Overdefined? && y1.Overdefined?) && arith.rangeBinary(op, a0, b0).Some? {
        assert arith.rangeBinary(op, a1, b1).Some?;
        WithinIsLeq(arith.rangeBinary(op, a0, b0).value, arith.rangeBinary(op, a1, b1).value);
      }
    }
  }

  lemma CompareMonotone(arith: Arithmetic, pred: nat, size: nat, x0: Value, y0: Value, x1: Value, y1: Value)
    requires arith.Sound() && Monotone(arith) && size >= 2 && Leq(x0, x1) && Leq(y0, y1)
    requires forall v | v in {x0, y0, x1, y1} ::
      v.Valid() && (v.Unknown? || v.Range? || v.Overdefined?) && (v.HasRange() ==> v.r.size == size)
    ensures Leq(CompareValue(arith, pred, x0, y0), CompareValue(arith, pred, x1, y1))
  {
    if x0.Range? && y0.Range? && x1.Range? && y1.Range? {
      WithinAsRange(x0, x1, size);
      WithinAsRange(y0, y1, size);
      assert x0.r.Contains(x0.r.lo) && y0.r.Contains(y0.r.lo);
      NotBoth(arith, pred, x0.r, y0.r);
    }
  }

  /** Ranges that decide a comparison do not decide its negation. */
  lemma NotBoth(arith: Arithmetic, pred: nat, a: ConstantRange, b: ConstantRange)
    requires arith.Sound() && a.Valid() && b.Valid() && a.size == b.size
    ensures !(arith.rangeCompare(pred, a, b) && arith.rangeCompare(arith.inverse(pred), a, b))
  {
    assert a.Contains(a.lo) && b.Contains(b.lo);
    assert arith.rangeCompare(pred, a, b) ==> arith.evalCompare(pred, a.size, a.lo, b.lo);
    assert arith.rangeCompare(arith.inverse(pred), a, b) ==> arith.evalCompare(arith.inverse(pred), a.size, a.lo, b.lo);
  }

  lemma DemandFits(arith: Arithmetic, p: Program, s: State, v: nat)
    requires WellFormed(p) && arith.Sound() && StateFits(p, s) && IsOperation(p, v)
    ensures Demand(arith, p, s, v).Valid()
    ensures Demand(arith, p, s, v).HasRange() ==> Demand(arith, p, s, v).r.size == p.values[v].Size()
    ensures var d := Demand(arith, p, s, v); d.Unknown? || d.Range? || d.Overdefined?
  {
    hide Arithmetic.Sound;
    assert InstructionFits(p, p.values[v]);
    match p.values[v]
    case Binary(_, n, op, l, r) => BinaryValueFits(arith, p, s, op, n, l, r);
    case Compare(_, n, _, l, r) =>
  }

  /** When the operands end as single integers, or the arithmetic is monotone, what they demand only grows. */
  lemma DemandGrows(arith: Arithmetic, p: Program, s0: State, s1: State, v: nat)
    requires WellFormed(p) && arith.Sound() && Grows(p, s0, s1) && IsOperation(p, v)
    requires FlatOperands(p, s1, v) || Monotone(arith)
    ensures Leq(Demand(arith, p, s0, v), Demand(arith, p, s1, v))
    ensures FlatOperands(p, s1, v) ==> FlatOperands(p, s0, v)
  {
    assert InstructionFits(p, p.values[v]);
    GrowsFacts(p, s0, s1);
    var n := if p.values[v].Binary? then p.values[v].size else p.values[v].operandSize;
    var l, r := p.values[v].left, p.values[v].right;
    hide WellFormed, Grows, Arithmetic.Sound, Monotone, BinaryValue, CompareValue, Leq, StateFits;
    OperandGrows(p, s0, s1, l, n);
    OperandGrows(p, s0, s1, r, n);
    OperandValFits(p, s0, l, n);
    OperandValFits(p, s0, r, n);
    OperandValFits(p, s1, l, n);
    OperandValFits(p, s1, r, n);
    var x0, y0, x1, y1 := s0.OperandVal(l, n), s0.OperandVal(r, n), s1.OperandVal(l, n), s1.OperandVal(r, n);
    if Monotone(arith) {
      if p.values[v].Binary? {
        BinaryMonotone(arith, p.values[v].opcode, n, x0, y0, x1, y1);
      } else {
        CompareMonotone(arith, p.values[v].predicate_, n, x0, y0, x1, y1);
      }
    } else if x0 == x1 && y0 == y1 {
      LeqReflexive(Demand(arith, p, s0, v));
    } else {
      UnknownDemand(arith, p, s0, v);
      UnknownIsLeast(Demand(arith, p, s1, v));
    }
  }

  lemma UnknownDemand(arith: Arithmetic, p: Program, s: State, v: nat)
    requires IsOperation(p, v)
    requires var n := if p.values[v].Binary? then p.values[v].size else p.values[v].operandSize;
      s.OperandVal(p.values[v].left, n).Unknown? || s.OperandVal(p.values[v].right, n).Unknown?
    ensures Demand(arith, p, s, v) == Unknown
  {
  }

  lemma UnknownIsLeast(v: Value)
    ensures Leq(Unknown, v)
  {
  }

  /** Merging what the operands demand, or leaving the value alone, keeps it tight. */
  lemma OperationTightGrows(arith: Arithmetic, p: Program, s0: State, s1: State, v: nat)
    requires WellFormed(p) && arith.Sound() && Grows(p, s0, s1) && IsOperation(p, v)
    requires OperationTight(arith, p, s0, v) && Compatible(s0.Val(v), Demand(arith, p, s0, v))
    requires s1.Val(v) == s0.Val(v) || s1.Val(v) == Join(s0.Val(v), Demand(arith, p, s0, v))
    ensures OperationTight(arith, p, s1, v)
  {
    GrowsFacts(p, s0, s1);
    DemandFits(arith, p, s0, v);
    DemandFits(arith, p, s1, v);
    ValFits(p, s0, v);
    hide WellFormed, Grows, Arithmetic.Sound, Monotone, Demand, FlatOperands, Leq, Join, StateFits;
    if FlatOperands(p, s1, v) || Monotone(arith) {
      DemandGrows(arith, p, s0, s1, v);
      LeqTransitive(s0.Val(v), Demand(arith, p, s0, v), Demand(arith, p, s1, v), p.values[v].Size());
      BothBelow(s0.Val(v), Demand(arith, p, s0, v), Demand(arith, p, s1, v));
    }
  }

  lemma BothBelow(a: Value, b: Value, c: Value)
    requires a.Valid() && b.Valid() && c.Valid() && Compatible(a, b) && Compatible(b, c) && Compatible(a, c)
    requires Leq(a, c) && Leq(b, c)
    ensures Leq(Join(a, b), c)
  {
    JoinIsLeastUpperBound(a, b, c);
  }

  // ----- phis -----

  /** A bound of the operands later is one of the operands before. */
  lemma BoundBefore(p: Program, s0: State, s1: State, v: nat, z: Value)
    requires WellFormed(p) && Grows(p, s0, s1) && v < |p.values| && p.values[v].Phi? && IsBound(p, s1, v, z)
    ensures IsBound(p, s0, v, z)
  {
    assert InstructionFits(p, p.values[v]);
    GrowsFacts(p, s0, s1);
    var size, incoming := p.values[v].size, p.values[v].incoming;
    hide WellFormed, Grows, Leq, StateFits;
    forall i | 0 <= i < |incoming| && (incoming[i].from, p.values[v].parent) in s0.feasible
      ensures Leq(s0.OperandVal(incoming[i].operand, size), z)
    {
      var o := incoming[i].operand;
      OperandGrows(p, s0, s1, o, size);
      OperandValFits(p, s0, o, size);
      OperandValFits(p, s1, o, size);
      LeqTransitive(s0.OperandVal(o, size), s1.OperandVal(o, size), z, size);
    }
  }

  lemma PhiTightStays(p: Program, s0: State, s1: State, widened0: set<nat>, widened1: set<nat>, v: nat)
    requires WellFormed(p) && Grows(p, s0, s1) && v < |p.values| && p.values[v].Phi?
    requires PhiTight(p, s0, widened0, v) && s1.Val(v) == s0.Val(v) && (v in widened1 <==> v in widened0)
    ensures PhiTight(p, s1, widened1, v)
  {
    hide WellFormed, Grows, Leq, IsBound;
    forall z | IsBound(p, s1, v, z)
      ensures IsBound(p, s0, v, z)
    {
      BoundBefore(p, s0, s1, v, z);
    }
  }

  /** What is merged into a phi lies below every bound of its value and its operands. */
  ghost predicate IsSupport(p: Program, s: State, v: nat, x: Value)
    requires v < |p.values| && p.values[v].Phi?
  {
    forall z | IsBound(p, s, v, z) && Leq(s.Val(v), z) :: Leq(x, z)
  }

  /** Merging such a value keeps the phi tight; when the limit of widening is passed, the range was really extended, so
      no single integer bounds the operands. */
  lemma PhiTightMerged(p: Program, s0: State, s1: State, widened0: set<nat>, widened1: set<nat>, v: nat, x: Value)
    requires WellFormed(p) && Grows(p, s0, s1) && v < |p.values| && p.values[v].Phi?
    requires PhiTight(p, s0, widened0, v) && IsSupport(p, s0, v, x)
    requires x.Valid() && (x.HasRange() ==> x.r.size == p.values[v].size)
    requires Compatible(s0.Val(v), x)
    requires
      if Extends(s0.Val(v), x) && s1.Val(v).Overdefined? then widened1 == widened0 + {v}
      else widened1 == widened0 && s1.Val(v) == Join(s0.Val(v), x)
    ensures PhiTight(p, s1, widened1, v)
  {
    GrowsFacts(p, s0, s1);
    ValFits(p, s0, v);
    hide WellFormed, Grows, IsBound, StateFits;
    if |p.values[v].incoming| <= MAX_PHI_INCOMING {
      forall z | IsBound(p, s1, v, z)
        ensures if v in widened1 then !z.IsIntConstant() else Leq(s1.Val(v), z)
      {
        BoundBefore(p, s0, s1, v, z);
        BoundIsValid(p, s0, v, z);
        if v !in widened0 {
          assert Leq(s0.Val(v), z) && Leq(x, z);
          if v in widened1 {
            NotOneInteger(s0.Val(v), x, z);
          } else {
            BothBelow(s0.Val(v), x, z);
          }
        }
      }
    }
  }

  lemma BoundIsValid(p: Program, s: State, v: nat, z: Value)
    requires v < |p.values| && p.values[v].Phi? && IsBound(p, s, v, z)
    ensures z.Valid() && (z.HasRange() ==> z.r.size == p.values[v].size)
  {
  }

  /** A range that is extended by x does not lie below a single integer together with x. */
  lemma NotOneInteger(a: Value, x: Value, z: Value)
    requires a.Valid() && x.Valid() && z.Valid() && Compatible(a, x) && Extends(a, x) && Leq(a, z) && Leq(x, z)
    ensures !z.IsIntConstant()
  {
  }

  // ----- steps of the solver -----

  /** A value that stays the same stays tight. */
  lemma ValueTightStays(arith: Arithmetic, p: Program, s0: State, s1: State, widened0: set<nat>, widened1: set<nat>,
                        v: nat)
    requires WellFormed(p) && arith.Sound() && Grows(p, s0, s1) && v < |p.values|
    requires ValueTight(arith, p, s0, widened0, v)
    requires s1.Val(v) == s0.Val(v) && (v in widened1 <==> v in widened0)
    ensures ValueTight(arith, p, s1, widened1, v)
  {
    hide WellFormed, Arithmetic.Sound, Grows, OperationTight, PhiTight;
    match p.values[v]
    case Argument(_) =>
    case Phi(_, _, _) => PhiTightStays(p, s0, s1, widened0, widened1, v);
    case _ => OperationTightStays(arith, p, s0, s1, v);
  }

  lemma OperationTightStays(arith: Arithmetic, p: Program, s0: State, s1: State, v: nat)
    requires WellFormed(p) && arith.Sound() && Grows(p, s0, s1) && IsOperation(p, v)
    requires OperationTight(arith, p, s0, v) && s1.Val(v) == s0.Val(v)
    ensures OperationTight(arith, p, s1, v)
  {
    GrowsFacts(p, s0, s1);
    ValFits(p, s0, v);
    DemandFits(arith, p, s0, v);
    hide WellFormed, Arithmetic.Sound, Grows, Monotone, Demand, FlatOperands, OperationTight;
    OperationTightGrows(arith, p, s0, s1, v);
  }

  /** Updating one value for a reason that makes it tight keeps everything tight. */
  lemma TightAfterUpdate(arith: Arithmetic, p: Program, s0: State, s1: State, forcedEdges: set<(nat, nat)>,
                         forcedValues: set<nat>, widened0: set<nat>, widened1: set<nat>, v: nat)
    requires WellFormed(p) && arith.Sound() && Grows(p, s0, s1)
    requires Tight(arith, p, s0, forcedEdges, forcedValues, widened0)
    requires s1.feasible == s0.feasible && s1.executable == s0.executable && WidenedLate(s1, widened1)
    requires forall w | w != v :: s1.Val(w) == s0.Val(w) && (w in widened1 <==> w in widened0)
    requires v < |p.values| && IsLive(p, s0, v) && (v in forcedValues || ValueTight(arith, p, s1, widened1, v))
    ensures Tight(arith, p, s1, forcedEdges, forcedValues, widened1)
  {
    hide WellFormed, Arithmetic.Sound, Grows, ValueTight, EdgeTight;
    EdgesTightStay(p, s0, s1, forcedEdges);
    forall w | 0 <= w < |p.values| && w !in forcedValues
      ensures ValueTight(arith, p, s1, widened1, w)
    {
      if w != v {
        ValueTightStays(arith, p, s0, s1, widened0, widened1, w);
      }
    }
  }

  /** A new edge that is tight or forced, with its target made executable, keeps everything tight. */
  lemma TightAfterEdge(arith: Arithmetic, p: Program, s0: State, s1: State, forcedEdges: set<(nat, nat)>,
                       forcedValues: set<nat>, widened: set<nat>, e: (nat, nat))
    requires WellFormed(p) && arith.Sound() && StateFits(p, s0) && StateFits(p, s1)
    requires Tight(arith, p, s0, forcedEdges, forcedValues, widened)
    requires s1.feasible == s0.feasible + {e} && s1.executable == s0.executable + {e.1} && s1.values == s0.values
    requires EdgeTight(p, s0, e) || (e in forcedEdges && EdgeForced(p, s0, e))
    ensures Tight(arith, p, s1, forcedEdges, forcedValues, widened)
  {
    SameValuesGrow(p, s0, s1);
    hide WellFormed, Arithmetic.Sound, Grows, ValueTight, EdgeTight, StateFits;
    forall d | d in s1.feasible
      ensures EdgeTight(p, s1, d) || (d in forcedEdges && EdgeForced(p, s1, d))
    {
      if EdgeTight(p, s0, d) {
        EdgeTightStays(p, s0, s1, d);
      }
    }
    forall b | b in s1.executable && b != 0
      ensures IsEntered(s1, b)
    {
      if b == e.1 {
        assert (e.0, b) in s1.feasible;
      } else {
        assert IsEntered(s0, b);
        var a: nat :| (a, b) in s0.feasible;
        assert (a, b) in s1.feasible;
      }
    }
    forall w | 0 <= w < |p.values| && w !in forcedValues
      ensures ValueTight(arith, p, s1, widened, w)
    {
      ValueTightStays(arith, p, s0, s1, widened, widened, w);
    }
  }

  lemma SameValuesGrow(p: Program, s0: State, s1: State)
    requires StateFits(p, s0) && StateFits(p, s1) && forall v :: s1.Val(v) == s0.Val(v)
    requires s0.executable <= s1.executable && s0.feasible <= s1.feasible
    ensures Grows(p, s0, s1)
  {
    forall v | 0 <= v < |p.values|
      ensures Leq(s0.Val(v), s1.Val(v))
    {
      LeqReflexive(s0.Val(v));
    }
  }

  /** The work lists play no part, and the counters only that of what was widened. */
  lemma TightSameFacts(arith: Arithmetic, p: Program, s0: State, s1: State, forcedEdges: set<(nat, nat)>,
                       forcedValues: set<nat>, widened: set<nat>)
    requires WellFormed(p) && arith.Sound() && StateFits(p, s0) && StateFits(p, s1)
    requires Tight(arith, p, s0, forcedEdges, forcedValues, widened)
    requires s1.feasible == s0.feasible && s1.executable == s0.executable && WidenedLate(s1, widened)
    requires forall v :: s1.Val(v) == s0.Val(v)
    ensures Tight(arith, p, s1, forcedEdges, forcedValues, widened)
  {
    SameValuesGrow(p, s0, s1);
    hide WellFormed, Arithmetic.Sound, Grows, ValueTight, EdgeTight, StateFits;
    EdgesTightStay(p, s0, s1, forcedEdges);
    forall v | 0 <= v < |p.values| && v !in forcedValues
      ensures ValueTight(arith, p, s1, widened, v)
    {
      ValueTightStays(arith, p, s0, s1, widened, widened, v);
    }
  }

  /** Forcing more excuses more. */
  lemma TightWithMoreForced(arith: Arithmetic, p: Program, s: State, edges0: set<(nat, nat)>, edges1: set<(nat, nat)>,
                            values0: set<nat>, values1: set<nat>, widened: set<nat>)
    requires Tight(arith, p, s, edges0, values0, widened) && edges0 <= edges1 && values0 <= values1
    ensures Tight(arith, p, s, edges1, values1, widened)
  {
  }

  /** What may be merged into a value: for an operator or a comparison what its operands demand, without widening; for a
      phi something below every bound of its value and its operands, and widening starts with the second count. */
  ghost predicate MayMerge(arith: Arithmetic, p: Program, s: State, v: nat, x: Value, opts: MergeOptions)
    requires v < |p.values| && Compatible(s.Val(v), x)
  {
    match p.values[v]
    case Argument(_) => false
    case Phi(_, _, _) => opts.checkWiden && IsSupport(p, s, v, x) && (Extends(s.Val(v), x) ==> opts.maxWidenSteps >= 2)
    case _ => x == Demand(arith, p, s, v) && opts == PLAIN_MERGE
  }

  /** Why a value may be marked overdefined. */
  ghost predicate MayOverdefine(arith: Arithmetic, p: Program, s: State, forced: set<nat>, v: nat)
    requires v < |p.values|
  {
    || v in forced || s.Val(v).Overdefined?
    || match p.values[v]
       case Argument(_) => true
       case Phi(_, _, incoming) => |incoming| > MAX_PHI_INCOMING
       case _ => Demand(arith, p, s, v).Overdefined?
  }

  lemma ValueTightMerged(arith: Arithmetic, p: Program, s0: State, s1: State, widened0: set<nat>, widened1: set<nat>,
                         v: nat, x: Value, opts: MergeOptions)
    requires WellFormed(p) && arith.Sound() && Grows(p, s0, s1) && v < |p.values|
    requires ValueTight(arith, p, s0, widened0, v)
    requires x.Valid() && (x.HasRange() ==> x.r.size == p.values[v].Size()) && Compatible(s0.Val(v), x)
    requires MayMerge(arith, p, s0, v, x, opts)
    requires
      if opts.checkWiden && Extends(s0.Val(v), x) && s1.Val(v).Overdefined? then widened1 == widened0 + {v}
      else widened1 == widened0 && s1.Val(v) == Join(s0.Val(v), x)
    ensures ValueTight(arith, p, s1, widened1, v)
  {
    hide WellFormed, Arithmetic.Sound, Grows, OperationTight, PhiTight, IsSupport, Join;
    match p.values[v]
    case Phi(_, _, _) =>
      PhiTightMerged(p, s0, s1, widened0, widened1, v, x);
    case _ =>
      OperationTightGrows(arith, p, s0, s1, v);
  }

  lemma ValueTightOverdefined(arith: Arithmetic, p: Program, s0: State, s1: State, forced: set<nat>, widened: set<nat>,
                              v: nat)
    requires WellFormed(p) && arith.Sound() && Grows(p, s0, s1) && v < |p.values|
    requires v !in forced && ValueTight(arith, p, s0, widened, v)
    requires MayOverdefine(arith, p, s0, forced, v) && s1.Val(v).Overdefined?
    ensures ValueTight(arith, p, s1, widened, v)
  {
    if s0.Val(v).Overdefined? {
      ValueTightStays(arith, p, s0, s1, widened, widened, v);
    } else if IsOperation(p, v) {
      hide WellFormed, Arithmetic.Sound, Grows, OperationTight, Demand;
      OperationTightGrows(arith, p, s0, s1, v);
    }
  }

  lemma TightAfterMerge(arith: Arithmetic, p: Program, s0: State, s1: State, forcedEdges: set<(nat, nat)>,
                        forcedValues: set<nat>, widened0: set<nat>, widened1: set<nat>, v: nat, x: Value, y: Snapshot,
                        extensions: nat, opts: MergeOptions)
    requires WellFormed(p) && arith.Sound() && StateFits(p, s0) && Progress(arith, p, s0, s1)
    requires Tight(arith, p, s0, forcedEdges, forcedValues, widened0) && v < |p.values| && IsLive(p, s0, v)
    requires s1.values == s0.values[v := y] && s1.feasible == s0.feasible && s1.executable == s0.executable
    requires x.Valid() && (x.HasRange() ==> x.r.size == p.values[v].Size()) && Compatible(s0.Val(v), x)
    requires MayMerge(arith, p, s0, v, x, opts)
    requires y.value == if Widens(s0.Val(v), x, extensions, opts) then Overdefined else Join(s0.Val(v), x)
    requires Widens(s0.Val(v), x, extensions, opts) ==> y.extensions > opts.maxWidenSteps
    requires v in s0.values && s0.Val(v).Overdefined? ==>
      y.value.Overdefined? && y.extensions == s0.values[v].extensions
    requires widened1 == if Widens(s0.Val(v), x, extensions, opts) then widened0 + {v} else widened0
    ensures Tight(arith, p, s1, forcedEdges, forcedValues, widened1)
  {
    hide WellFormed, Arithmetic.Sound, Grows, ValueTight, EdgesTight, BlocksTight, DeadUnknown, StateFits, Progress,
      Join, MayMerge, Extends;
    ProgressGrows(arith, p, s0, s1);
    ExtendedIsNoFullSet(s0.Val(v), x);
    WidenedIsPhi(arith, p, s0, v, x, extensions, opts);
    assert v in widened0 ==> v in s0.values && s0.Val(v).Overdefined? && s0.values[v].extensions >= 3;
    hide WidenedLate;
    WidenedLateAfter(s0, s1, widened0, widened1, v, y);
    if v !in forcedValues {
      ValueTightMerged(arith, p, s0, s1, widened0, widened1, v, x, opts);
    }
    TightAfterUpdate(arith, p, s0, s1, forcedEdges, forcedValues, widened0, widened1, v);
  }

  lemma WidenedIsPhi(arith: Arithmetic, p: Program, s: State, v: nat, x: Value, extensions: nat, opts: MergeOptions)
    requires v < |p.values| && Compatible(s.Val(v), x) && MayMerge(arith, p, s, v, x, opts)
    ensures Widens(s.Val(v), x, extensions, opts) ==> opts.checkWiden && opts.maxWidenSteps >= 2
  {
  }

  lemma WidenedLateAfter(s0: State, s1: State, widened0: set<nat>, widened1: set<nat>, v: nat, y: Snapshot)
    requires WidenedLate(s0, widened0) && s1.values == s0.values[v := y] && widened1 <= widened0 + {v}
    requires v in widened1 ==> y.value.Overdefined? && y.extensions >= 3
    ensures WidenedLate(s1, widened1)
  {
  }

  lemma ExtendedIsNoFullSet(a: Value, x: Value)
    requires Compatible(a, x)
    ensures Extends(a, x) ==> !Join(a, x).Overdefined?
  {
  }

  lemma TightAfterOverdefined(arith: Arithmetic, p: Program, s0: State, s1: State, forcedEdges: set<(nat, nat)>,
                              forcedValues: set<nat>, widened: set<nat>, v: nat, y: Snapshot)
    requires WellFormed(p) && arith.Sound() && StateFits(p, s0) && Progress(arith, p, s0, s1)
    requires Tight(arith, p, s0, forcedEdges, forcedValues, widened) && v < |p.values| && IsLive(p, s0, v)
    requires s1.values == s0.values[v := y] && s1.feasible == s0.feasible && s1.executable == s0.executable
    requires MayOverdefine(arith, p, s0, forcedValues, v) && y.value.Overdefined?
    requires v in s0.values ==> y.extensions == s0.values[v].extensions
    ensures Tight(arith, p, s1, forcedEdges, forcedValues, widened)
  {
    hide WellFormed, Arithmetic.Sound, Grows, ValueTight, EdgesTight, BlocksTight, DeadUnknown, StateFits, Progress,
      MayOverdefine;
    WidenedLateAfter(s0, s1, widened, widened, v, y);
    ProgressGrows(arith, p, s0, s1);
    hide WidenedLate;
    if v !in forcedValues {
      ValueTightOverdefined(arith, p, s0, s1, forcedValues, widened, v);
    }
    TightAfterUpdate(arith, p, s0, s1, forcedEdges, forcedValues, widened, widened, v);
  }

  lemma TightAfterPop(arith: Arithmetic, p: Program, s0: State, s1: State, forcedEdges: set<(nat, nat)>,
                      forcedValues: set<nat>, widened: set<nat>)
    requires WellFormed(p) && arith.Sound() && StateFits(p, s0) && StateFits(p, s1)
    requires Tight(arith, p, s0, forcedEdges, forcedValues, widened)
    requires s1.values == s0.values && s1.feasible == s0.feasible && s1.executable == s0.executable
    ensures Tight(arith, p, s1, forcedEdges, forcedValues, widened)
  {
    assert WidenedLate(s1, widened);
    assert forall w :: s1.Val(w) == s0.Val(w);
    hide WellFormed, Arithmetic.Sound, Tight, StateFits;
    TightSameFacts(arith, p, s0, s1, forcedEdges, forcedValues, widened);
  }

  lemma TightAfterCount(arith: Arithmetic, p: Program, s0: State, s1: State, forcedEdges: set<(nat, nat)>,
                        forcedValues: set<nat>, widened: set<nat>, v: nat, y: Snapshot)
    requires WellFormed(p) && arith.Sound() && StateFits(p, s0) && StateFits(p, s1)
    requires Tight(arith, p, s0, forcedEdges, forcedValues, widened) && v in s0.values
    requires s1.values == s0.values[v := y] && s1.feasible == s0.feasible && s1.executable == s0.executable
    requires y.value == s0.Val(v) && y.extensions >= s0.values[v].extensions
    ensures Tight(arith, p, s1, forcedEdges, forcedValues, widened)
  {
    WidenedLateAfter(s0, s1, widened, widened, v, y);
    assert forall w :: s1.Val(w) == s0.Val(w);
    hide WellFormed, Arithmetic.Sound, Tight, StateFits;
    TightSameFacts(arith, p, s0, s1, forcedEdges, forcedValues, widened);
  }

  /** A phi's own value lies below every bound it is compared with. */
  lemma OwnSupport(p: Program, s: State, v: nat)
    requires v < |p.values| && p.values[v].Phi?
    ensures IsSupport(p, s, v, s.Val(v))
  {
  }

  /** Merging an operand on a feasible edge stays below every bound. */
  lemma SupportMerged(p: Program, s: State, v: nat, x: Value, i: nat)
    requires WellFormed(p) && StateFits(p, s) && v < |p.values| && p.values[v].Phi? && IsSupport(p, s, v, x)
    requires i < |p.values[v].incoming| && (p.values[v].incoming[i].from, p.values[v].parent) in s.feasible
    requires x.Valid() && (x.HasRange() ==> x.r.size == p.values[v].size)
    ensures Compatible(x, s.OperandVal(p.values[v].incoming[i].operand, p.values[v].size))
    ensures IsSupport(p, s, v, Join(x, s.OperandVal(p.values[v].incoming[i].operand, p.values[v].size)))
  {
    assert InstructionFits(p, p.values[v]);
    var o, size := p.values[v].incoming[i].operand, p.values[v].size;
    OperandValFits(p, s, o, size);
    hide WellFormed, StateFits, Join, Leq;
    forall z | IsBound(p, s, v, z) && Leq(s.Val(v), z)
      ensures Leq(Join(x, s.OperandVal(o, size)), z)
    {
      BothBelow(x, s.OperandVal(o, size), z);
    }
  }

  lemma FeasibleTargetIsTight(p: Program, s: State, b: nat, t: nat)
    requires b < |p.blocks| && b in s.executable && t in FeasibleTargets(s, p.blocks[b].terminator)
    ensures EdgeTight(p, s, (b, t))
  {
  }

  lemma ProgressGrows(arith: Arithmetic, p: Program, s0: State, s1: State)
    requires StateFits(p, s0) && Progress(arith, p, s0, s1)
    ensures Grows(p, s0, s1)
  {
  }

  /** Before the first step, and once the entry is executable. */
  lemma TightAtStart(arith: Arithmetic, p: Program, s: State)
    requires WellFormed(p) && s.values == map[] && s.feasible == {} && s.executable <= {0}
    ensures Tight(arith, p, s, {}, {}, {})
  {
    forall v | 0 <= v < |p.values|
      ensures ValueTight(arith, p, s, {}, v)
    {
      assert s.Val(v) == Unknown;
      if p.values[v].Phi? {
        forall z | IsBound(p, s, v, z)
          ensures Leq(s.Val(v), z)
        {
          UnknownIsLeast(z);
        }
      } else if IsOperation(p, v) {
        UnknownIsLeast(Demand(arith, p, s, v));
      }
    }
  }

  // ----- forcing -----

  /** Forced since solving came to its end in s: values unknown there, and the false sides of branches on a condition
      unknown there. */
  ghost predicate ForcedFrom(p: Program, s: State, edges0: set<(nat, nat)>, edges1: set<(nat, nat)>, values0: set<nat>,
                             values1: set<nat>)
  {
    && edges0 <= edges1 && values0 <= values1
    && (forall v | v in values1 && v !in values0 :: s.Val(v).IsUnknownOrUndef())
    && (forall e | e in edges1 && e !in edges0 :: UnknownBranch(p, s, e))
  }

  ghost predicate UnknownBranch(p: Program, s: State, e: (nat, nat)) {
    && e.0 < |p.blocks| && p.blocks[e.0].terminator.Branch? && e.1 == p.blocks[e.0].terminator.ifFalse
    && s.OperandVal(p.blocks[e.0].terminator.condition, 2).IsUnknownOrUndef()
  }

  /** Whatever was forced was unknown in one of the states in which solving had come to its end. */
  ghost predicate ForcedWhenStuck(arith: Arithmetic, p: Program, edges: set<(nat, nat)>, values: set<nat>,
                                  stops: seq<State>)
  {
    && (forall k | 0 <= k < |stops| :: PostFixpoint(arith, p, stops[k]))
    && (forall v | v in values :: exists k :: 0 <= k < |stops| && stops[k].Val(v).IsUnknownOrUndef())
    && (forall e | e in edges :: exists k :: 0 <= k < |stops| && UnknownBranch(p, stops[k], e))
  }

  lemma NothingForced(p: Program, s: State, edges: set<(nat, nat)>, values: set<nat>)
    ensures ForcedFrom(p, s, edges, edges, values, values)
  {
  }

  lemma NothingStuck(arith: Arithmetic, p: Program)
    ensures ForcedWhenStuck(arith, p, {}, {}, [])
  {
  }

  lemma StuckOnceMore(arith: Arithmetic, p: Program, edges0: set<(nat, nat)>, edges1: set<(nat, nat)>,
                      values0: set<nat>, values1: set<nat>, stops: seq<State>, s: State)
    requires ForcedWhenStuck(arith, p, edges0, values0, stops) && PostFixpoint(arith, p, s)
    requires ForcedFrom(p, s, edges0, edges1, values0, values1)
    ensures ForcedWhenStuck(arith, p, edges1, values1, stops + [s])
  {
    hide PostFixpoint, UnknownBranch, Value.IsUnknownOrUndef;
    var more := stops + [s];
    assert more[|stops|] == s && forall k | 0 <= k < |stops| :: more[k] == stops[k];
    forall v | v in values1
      ensures exists k :: 0 <= k < |more| && more[k].Val(v).IsUnknownOrUndef()
    {
      if v in values0 {
        var k :| 0 <= k < |stops| && stops[k].Val(v).IsUnknownOrUndef();
        assert more[k].Val(v).IsUnknownOrUndef();
      } else {
        assert more[|stops|].Val(v).IsUnknownOrUndef();
      }
    }
    forall e | e in edges1
      ensures exists k :: 0 <= k < |more| && UnknownBranch(p, more[k], e)
    {
      if e in edges0 {
        var k :| 0 <= k < |stops| && UnknownBranch(p, stops[k], e);
        assert UnknownBranch(p, more[k], e);
      } else {
        assert UnknownBranch(p, more[|stops|], e);
      }
    }
  }

  lemma UnknownBefore(arith: Arithmetic, p: Program, s0: State, s1: State, v: nat)
    requires Progress(arith, p, s0, s1) && v < |p.values| && s1.Val(v).IsUnknownOrUndef()
    ensures s0.Val(v).IsUnknownOrUndef()
  {
    KnownStays(s0.Val(v), s1.Val(v));
  }

  lemma OperandUnknownBefore(arith: Arithmetic, p: Program, s0: State, s1: State, o: Operand, size: nat)
    requires Progress(arith, p, s0, s1) && OperandFits(p, o, size) && s1.OperandVal(o, size).IsUnknownOrUndef()
    ensures s0.OperandVal(o, size).IsUnknownOrUndef()
  {
    if o.Ref? {
      UnknownBefore(arith, p, s0, s1, o.id);
    }
  }

  // ----- the answer -----

  /** Exactly the integer x of the type with n values. */
  predicate IsExactly(v: Value, n: nat, x: nat) {
    v == Range(ConstantRange(n, x, x))
  }

  /** An operator on the integers x and y has exactly the library's result on them. */
  ghost predicate BinaryExact(arith: Arithmetic, s: State, v: nat, n: nat, op: nat, l: Operand, r: Operand) {
    forall x: nat, y: nat | IsExactly(s.OperandVal(l, n), n, x) && IsExactly(s.OperandVal(r, n), n, y) ::
      var result := arith.rangeBinary(op, ConstantRange(n, x, x), ConstantRange(n, y, y));
      result.Some? && s.Val(v) == if result.value.IsFullSet() then Overdefined else Range(result.value)
  }

  /** A comparison of the integers x and y is 1, 0 or undecided, as the library answers for them. */
  ghost predicate CompareExact(arith: Arithmetic, s: State, v: nat, n: nat, pred: nat, l: Operand, r: Operand) {
    forall x: nat, y: nat | IsExactly(s.OperandVal(l, n), n, x) && IsExactly(s.OperandVal(r, n), n, y) ::
      var a, b := ConstantRange(n, x, x), ConstantRange(n, y, y);
      if arith.rangeCompare(pred, a, b) then IsExactly(s.Val(v), 2, 1)
      else if arith.rangeCompare(arith.inverse(pred), a, b) then IsExactly(s.Val(v), 2, 0)
      else s.Val(v).Overdefined?
  }

  /** A phi whose known operands on feasible edges are all the integer x is x. One that was not widened is the least
      value above these operands. */
  ghost predicate PhiExact(p: Program, s: State, widened: set<nat>, v: nat)
    requires v < |p.values| && p.values[v].Phi?
  {
    |p.values[v].incoming| <= 64 ==>
      && (forall x: nat | OperandsAre(p, s, v, x) :: IsExactly(s.Val(v), p.values[v].size, x))
      && (if v in widened then s.Val(v).Overdefined? else IsLeastBound(p, s, v, s.Val(v)))
  }

  ghost predicate IsLeastBound(p: Program, s: State, v: nat, x: Value)
    requires v < |p.values| && p.values[v].Phi?
  {
    IsBound(p, s, v, x) && forall z | IsBound(p, s, v, z) :: Leq(x, z)
  }

  ghost predicate OperandsAre(p: Program, s: State, v: nat, x: nat)
    requires v < |p.values| && p.values[v].Phi?
  {
    var incoming, size := p.values[v].incoming, p.values[v].size;
    forall i | 0 <= i < |incoming| && (incoming[i].from, p.values[v].parent) in s.feasible ::
      s.OperandVal(incoming[i].operand, size).Unknown? || IsExactly(s.OperandVal(incoming[i].operand, size), size, x)
  }

  /** With monotone arithmetic the equation of an operation holds exactly, whatever its operands are. */
  ghost predicate ValueExact(arith: Arithmetic, p: Program, s: State, widened: set<nat>, v: nat)
    requires v < |p.values|
  {
    match p.values[v]
    case Argument(_) => s.Val(v).Overdefined?
    case Phi(_, _, _) => PhiExact(p, s, widened, v)
    case Binary(_, n, op, l, r) =>
      BinaryExact(arith, s, v, n, op, l, r) && (Monotone(arith) ==> s.Val(v) == Demand(arith, p, s, v))
    case Compare(_, n, pred, l, r) =>
      CompareExact(arith, s, v, n, pred, l, r) && (Monotone(arith) ==> s.Val(v) == Demand(arith, p, s, v))
  }

  /** Every value of an executable block is exact, unless it was forced. */
  ghost predicate AllExact(arith: Arithmetic, p: Program, s: State, forced: set<nat>, widened: set<nat>) {
    forall v | 0 <= v < |p.values| && IsLive(p, s, v) && v !in forced :: ValueExact(arith, p, s, widened, v)
  }

  /** No instruction of an executable block is unknown. */
  ghost predicate AllKnown(p: Program, s: State) {
    forall b | b in s.executable && b < |p.blocks| :: KnownIn(p, s, b, |p.blocks[b].body|)
  }

  ghost predicate KnownIn(p: Program, s: State, b: nat, n: nat)
    requires b < |p.blocks| && n <= |p.blocks[b].body|
  {
    forall i | 0 <= i < n :: !s.Val(p.blocks[b].body[i]).IsUnknownOrUndef()
  }

  /** At most what is demanded, and at least that. */
  lemma OperationMeetsDemand(arith: Arithmetic, p: Program, s: State, v: nat)
    requires WellFormed(p) && arith.Sound() && StateFits(p, s) && IsOperation(p, v)
    requires OperationTight(arith, p, s, v) && InstructionMet(arith, p, s, v)
    ensures FlatOperands(p, s, v) || Monotone(arith) ==> s.Val(v) == Demand(arith, p, s, v)
  {
    ValFits(p, s, v);
    DemandFits(arith, p, s, v);
    assert Leq(Demand(arith, p, s, v), s.Val(v));
    hide WellFormed, Arithmetic.Sound, StateFits, Demand, Monotone, Leq;
    if FlatOperands(p, s, v) || Monotone(arith) {
      JoinIsLeastUpperBound(s.Val(v), Demand(arith, p, s, v), s.Val(v));
    }
  }

  lemma OperationIsExact(arith: Arithmetic, p: Program, s: State, widened: set<nat>, v: nat)
    requires WellFormed(p) && arith.Sound() && StateFits(p, s) && IsOperation(p, v)
    requires OperationTight(arith, p, s, v) && InstructionMet(arith, p, s, v) && !s.Val(v).IsUnknownOrUndef()
    ensures ValueExact(arith, p, s, widened, v)
  {
    OperationMeetsDemand(arith, p, s, v);
    hide WellFormed, Arithmetic.Sound, StateFits, Monotone, InstructionMet, OperationTight;
  }

  lemma PhiOfOneInteger(p: Program, s: State, widened: set<nat>, v: nat, x: nat)
    requires WellFormed(p) && StateFits(p, s) && v < |p.values| && p.values[v].Phi?
    requires |p.values[v].incoming| <= MAX_PHI_INCOMING && PhiTight(p, s, widened, v)
    requires !s.Val(v).IsUnknownOrUndef() && OperandsAre(p, s, v, x)
    ensures IsExactly(s.Val(v), p.values[v].size, x)
  {
    assert InstructionFits(p, p.values[v]);
    var incoming, size := p.values[v].incoming, p.values[v].size;
    forall i | 0 <= i < |incoming| && (incoming[i].from, p.values[v].parent) in s.feasible
      ensures s.OperandVal(incoming[i].operand, size).Valid()
    {
      OperandValFits(p, s, incoming[i].operand, size);
    }
    hide WellFormed, StateFits;
    var z := Range(ConstantRange(size, if x < size then x else 0, if x < size then x else 0));
    assert IsBound(p, s, v, z);
    assert x >= size ==> IsBound(p, s, v, Unknown);
  }

  lemma PhiIsExact(arith: Arithmetic, p: Program, s: State, widened: set<nat>, v: nat)
    requires WellFormed(p) && StateFits(p, s) && v < |p.values| && p.values[v].Phi?
    requires PhiTight(p, s, widened, v) && InstructionMet(arith, p, s, v) && !s.Val(v).IsUnknownOrUndef()
    ensures PhiExact(p, s, widened, v)
  {
    assert InstructionFits(p, p.values[v]);
    ValFits(p, s, v);
    hide WellFormed, StateFits;
    if |p.values[v].incoming| <= MAX_PHI_INCOMING {
      assert IsBound(p, s, v, s.Val(v));
      forall x: nat | OperandsAre(p, s, v, x)
        ensures IsExactly(s.Val(v), p.values[v].size, x)
      {
        PhiOfOneInteger(p, s, widened, v, x);
      }
    }
  }

  /** A post-fixpoint that is tight, with every instruction known, is exact. */
  lemma FixpointIsExact(arith: Arithmetic, p: Program, s: State, forcedEdges: set<(nat, nat)>, forcedValues: set<nat>,
                        widened: set<nat>)
    requires WellFormed(p) && arith.Sound() && StateFits(p, s) && PostFixpoint(arith, p, s) && AllKnown(p, s)
    requires Tight(arith, p, s, forcedEdges, forcedValues, widened)
    ensures AllExact(arith, p, s, forcedValues, widened)
    ensures EdgesTight(p, s, forcedEdges) && BlocksTight(s) && DeadUnknown(p, s)
  {
    forall v | 0 <= v < |p.values| && IsLive(p, s, v) && v !in forcedValues
      ensures ValueExact(arith, p, s, widened, v)
    {
      assert ValueTight(arith, p, s, widened, v);
      if !p.values[v].Argument? {
        LiveIsMet(arith, p, s, v);
        hide WellFormed, Arithmetic.Sound, StateFits, PostFixpoint, AllKnown, InstructionMet, PhiTight, PhiExact,
          OperationTight;
        if p.values[v].Phi? {
          PhiIsExact(arith, p, s, widened, v);
        } else {
          OperationIsExact(arith, p, s, widened, v);
        }
      }
    }
  }

  lemma LiveIsMet(arith: Arithmetic, p: Program, s: State, v: nat)
    requires WellFormed(p) && PostFixpoint(arith, p, s) && AllKnown(p, s) && v < |p.values|
    requires !p.values[v].Argument? && IsLive(p, s, v)
    ensures InstructionMet(arith, p, s, v) && !s.Val(v).IsUnknownOrUndef()
  {
    hide InstructionMet;
    var b := p.values[v].parent;
    assert InstructionFits(p, p.values[v]);
    assert v in p.blocks[b].body;
    var i :| 0 <= i < |p.blocks[b].body| && p.blocks[b].body[i] == v;
    assert KnownIn(p, s, b, |p.blocks[b].body|);
    assert IsUserOf(p, b, InstructionUser(v));
    assert UserMet(arith, p, s, InstructionUser(v));
  }

  /** On single integers the library's arithmetic loses nothing. */
  ghost predicate ExactOnIntegers(arith: Arithmetic) {
    && (forall op: nat, n: nat, x: nat, y: nat | x < n && y < n && arith.evalBinary(op, n, x, y).Some? ::
          arith.rangeBinary(op, ConstantRange(n, x, x), ConstantRange(n, y, y)) ==
            Some(ConstantRange(n, arith.evalBinary(op, n, x, y).value, arith.evalBinary(op, n, x, y).value)))
    && (forall pred: nat, n: nat, x: nat, y: nat | x < n && y < n && arith.evalCompare(pred, n, x, y) ::
          arith.rangeCompare(pred, ConstantRange(n, x, x), ConstantRange(n, y, y)))
  }

  /** An unforced operator or comparison on known integers is known to be what it evaluates to at run time. */
  lemma ConstantsFold(arith: Arithmetic, p: Program, s: State, forced: set<nat>, widened: set<nat>, v: nat, x: nat,
                      y: nat)
    requires WellFormed(p) && arith.Sound() && ExactOnIntegers(arith) && StateFits(p, s)
    requires AllExact(arith, p, s, forced, widened) && IsOperation(p, v) && IsLive(p, s, v) && v !in forced
    requires var n := if p.values[v].Binary? then p.values[v].size else p.values[v].operandSize;
      IsExactly(s.OperandVal(p.values[v].left, n), n, x) && IsExactly(s.OperandVal(p.values[v].right, n), n, y)
    ensures match p.values[v]
      case Binary(_, n, op, _, _) =>
        arith.evalBinary(op, n, x, y).Some? ==> IsExactly(s.Val(v), n, arith.evalBinary(op, n, x, y).value)
      case Compare(_, n, pred, _, _) => IsExactly(s.Val(v), 2, if arith.evalCompare(pred, n, x, y) then 1 else 0)
  {
    assert InstructionFits(p, p.values[v]);
    assert ValueExact(arith, p, s, widened, v);
    var n := if p.values[v].Binary? then p.values[v].size else p.values[v].operandSize;
    var l, r := p.values[v].left, p.values[v].right;
    OperandValFits(p, s, l, n);
    OperandValFits(p, s, r, n);
    assert x < n && y < n;
    hide WellFormed, StateFits, Monotone, AllExact;
    match p.values[v]
    case Binary(_, _, op, _, _) =>
      assert arith.evalBinary(op, n, x, y).Some? ==> arith.evalBinary(op, n, x, y).value < n;
    case Compare(_, _, pred, _, _) =>
      if !arith.evalCompare(pred, n, x, y) {
        assert arith.evalCompare(arith.inverse(pred), n, x, y);
        NotBoth(arith, pred, ConstantRange(n, x, x), ConstantRange(n, y, y));
      }
  }
}
