/** A post-fixpoint over-approximates every run. */
module SCCPSoundness {
  import opened Wrappers
  import opened SpecValueLattice
  import opened SCCPProgram
  import opened SCCPSolverState

  /** Every value computed so far fits its type, was computed in an executable block, and is one its
      lattice value allows. */
  ghost predicate EnvSound(p: Program, s: State, env: Env) {
    forall v | v in env :: ValueSound(p, s, v, env[v])
  }

  ghost predicate ValueSound(p: Program, s: State, v: nat, x: nat) {
    && v < |p.values| && x < p.values[v].Size() && InGamma(x, s.Val(v))
    && (p.values[v].Argument? || p.values[v].parent in s.executable)
  }

  ghost predicate ConfigSound(p: Program, s: State, c: Config) {
    match c
    case Returned(_) => true
    case At(prev, b, env) =>
      && b in s.executable
      && (prev.Some? ==> (prev.value, b) in s.feasible)
      && EnvSound(p, s, env)
  }

  lemma EvalSound(p: Program, s: State, env: Env, o: Operand, size: nat)
    requires StateFits(p, s) && EnvSound(p, s, env) && OperandFits(p, o, size) && Eval(env, o).Some?
    ensures Eval(env, o).value < size && InGamma(Eval(env, o).value, s.OperandVal(o, size))
  {
    if o.Ref? {
      assert ValueSound(p, s, o.id, env[o.id]);
    }
  }

  lemma {:induction false} SelectIsIncoming(incoming: seq<Incoming>, prev: nat)
    requires Select(incoming, prev).Some?
    ensures exists i :: 0 <= i < |incoming| && incoming[i] == Incoming(prev, Select(incoming, prev).value)
  {
    if incoming[0].from != prev {
      SelectIsIncoming(incoming[1..], prev);
      var i :| 0 <= i < |incoming[1..]| && incoming[1..][i] == Incoming(prev, Select(incoming[1..], prev).value);
      assert incoming[i + 1] == Incoming(prev, Select(incoming, prev).value);
    }
  }

  lemma BinarySound(arith: Arithmetic, op: nat, size: nat, x: Value, y: Value, m: nat, n: nat)
    requires arith.Sound() && size >= 2 && x.Valid() && y.Valid()
    requires (x.HasRange() ==> x.r.size == size) && (y.HasRange() ==> y.r.size == size)
    requires (x.Unknown? || x.Range? || x.Overdefined?) && (y.Unknown? || y.Range? || y.Overdefined?)
    requires m < size && n < size && InGamma(m, x) && InGamma(n, y) && arith.evalBinary(op, size, m, n).Some?
    ensures arith.evalBinary(op, size, m, n).value < size
    ensures InGamma(arith.evalBinary(op, size, m, n).value, BinaryValue(arith, op, size, x, y))
  {
    var a, b := AsRange(x, size), AsRange(y, size);
    assert a.Valid() && b.Valid() && a.size == b.size == size && a.Contains(m) && b.Contains(n);
    assert arith.rangeBinary(op, a, b).Some? &&
      arith.rangeBinary(op, a, b).value.Contains(arith.evalBinary(op, size, m, n).value);
  }

  lemma CompareSound(arith: Arithmetic, pred: nat, size: nat, x: Value, y: Value, m: nat, n: nat)
    requires arith.Sound() && size >= 2 && x.Valid() && y.Valid()
    requires (x.HasRange() ==> x.r.size == size) && (y.HasRange() ==> y.r.size == size)
    requires (x.Unknown? || x.Range? || x.Overdefined?) && (y.Unknown? || y.Range? || y.Overdefined?)
    requires m < size && n < size && InGamma(m, x) && InGamma(n, y)
    ensures InGamma(if arith.evalCompare(pred, size, m, n) then 1 else 0, CompareValue(arith, pred, x, y))
  {
    if x.HasRange() && y.HasRange() {
      if arith.rangeCompare(pred, x.r, y.r) {
        assert arith.evalCompare(pred, size, m, n);
      } else if arith.rangeCompare(arith.inverse(pred), x.r, y.r) {
        assert arith.evalCompare(arith.inverse(pred), size, m, n);
      }
    }
  }

  /** One instruction of an executable block computes an allowed value. */
  lemma ExecuteSound(arith: Arithmetic, p: Program, s: State, v: nat, prev: Option<nat>, entry: Env, env: Env)
    requires WellFormed(p) && arith.Sound() && StateFits(p, s)
    requires v < |p.values| && !p.values[v].Argument? && p.values[v].parent in s.executable
    requires InstructionMet(arith, p, s, v)
    requires prev.Some? ==> (prev.value, p.values[v].parent) in s.feasible
    requires EnvSound(p, s, entry) && EnvSound(p, s, env)
    requires Execute(arith, p.values[v], prev, entry, env).Some?
    ensures ValueSound(p, s, v, Execute(arith, p.values[v], prev, entry, env).value)
  {
    assert InstructionFits(p, p.values[v]);
    ValFits(p, s, v);
    var size := p.values[v].Size();
    match p.values[v] {
      case Phi(parent, _, incoming) =>
        PhiSound(p, s, v, prev.value, entry);
      case Binary(_, n, op, l, r) =>
        EvalSound(p, s, env, l, n);
        EvalSound(p, s, env, r, n);
        OperandValFits(p, s, l, n);
        OperandValFits(p, s, r, n);
        BinarySound(arith, op, n, s.OperandVal(l, n), s.OperandVal(r, n), Eval(env, l).value, Eval(env, r).value);
        BinaryValueFits(arith, p, s, op, n, l, r);
        GammaMonotone(Execute(arith, p.values[v], prev, entry, env).value,
                      BinaryValue(arith, op, n, s.OperandVal(l, n), s.OperandVal(r, n)), s.Val(v));
      case Compare(_, n, pred, l, r) =>
        EvalSound(p, s, env, l, n);
        EvalSound(p, s, env, r, n);
        OperandValFits(p, s, l, n);
        OperandValFits(p, s, r, n);
        CompareSound(arith, pred, n, s.OperandVal(l, n), s.OperandVal(r, n), Eval(env, l).value, Eval(env, r).value);
        GammaMonotone(Execute(arith, p.values[v], prev, entry, env).value,
                      CompareValue(arith, pred, s.OperandVal(l, n), s.OperandVal(r, n)), s.Val(v));
    }
  }

  lemma PhiSound(p: Program, s: State, v: nat, prev: nat, entry: Env)
    requires WellFormed(p) && StateFits(p, s) && v < |p.values| && p.values[v].Phi? && EnvSound(p, s, entry)
    requires (prev, p.values[v].parent) in s.feasible
    requires forall i | 0 <= i < |p.values[v].incoming| ::
      (p.values[v].incoming[i].from, p.values[v].parent) in s.feasible ==>
        Leq(s.OperandVal(p.values[v].incoming[i].operand, p.values[v].size), s.Val(v))
    requires Select(p.values[v].incoming, prev).Some? && Eval(entry, Select(p.values[v].incoming, prev).value).Some?
    ensures var x := Eval(entry, Select(p.values[v].incoming, prev).value).value;
      x < p.values[v].size && InGamma(x, s.Val(v))
  {
    var size, incoming := p.values[v].size, p.values[v].incoming;
    assert InstructionFits(p, p.values[v]);
    SelectIsIncoming(incoming, prev);
    var i :| 0 <= i < |incoming| && incoming[i] == Incoming(prev, Select(incoming, prev).value);
    var o := incoming[i].operand;
    EvalSound(p, s, entry, o, size);
    OperandValFits(p, s, o, size);
    ValFits(p, s, v);
    GammaMonotone(Eval(entry, o).value, s.OperandVal(o, size), s.Val(v));
  }

  lemma {:induction false} ExecuteAllSound(arith: Arithmetic, p: Program, s: State, b: nat, ids: seq<nat>,
                                           prev: Option<nat>, entry: Env, env: Env)
    requires WellFormed(p) && arith.Sound() && StateFits(p, s) && PostFixpoint(arith, p, s)
    requires b < |p.blocks| && b in s.executable && (forall i | 0 <= i < |ids| :: ids[i] in p.blocks[b].body)
    requires prev.Some? ==> (prev.value, b) in s.feasible
    requires EnvSound(p, s, entry) && EnvSound(p, s, env)
    requires ExecuteAll(arith, p, ids, prev, entry, env).Some?
    ensures EnvSound(p, s, ExecuteAll(arith, p, ids, prev, entry, env).value)
    decreases |ids|
  {
    if ids != [] {
      var v := ids[0];
      assert BlockFits(p, b);
      assert v in p.blocks[b].body;
      assert IsUserOf(p, b, InstructionUser(v));
      assert UserMet(arith, p, s, InstructionUser(v));
      ExecuteSound(arith, p, s, v, prev, entry, env);
      var x := Execute(arith, p.values[v], prev, entry, env).value;
      var next := env[v := x];
      assert EnvSound(p, s, next);
      ExecuteAllSound(arith, p, s, b, ids[1..], prev, entry, env[v := x]);
    }
  }

  lemma StepSound(arith: Arithmetic, p: Program, s: State, c: Config)
    requires WellFormed(p) && arith.Sound() && StateFits(p, s) && PostFixpoint(arith, p, s)
    requires ConfigSound(p, s, c) && Step(arith, p, c).Some?
    ensures ConfigSound(p, s, Step(arith, p, c).value)
  {
    var b := c.block;
    ExecuteAllSound(arith, p, s, b, p.blocks[b].body, c.prev, c.env, c.env);
    var env := ExecuteAll(arith, p, p.blocks[b].body, c.prev, c.env, c.env).value;
    assert BlockFits(p, b);
    assert IsUserOf(p, b, TerminatorUser(b)) && UserMet(arith, p, s, TerminatorUser(b));
    var t := p.blocks[b].terminator;
    if t.Branch? {
      EvalSound(p, s, env, t.condition, 2);
      var target := if Eval(env, t.condition).value != 0 then t.ifTrue else t.ifFalse;
      assert target in FeasibleTargets(s, t);
      assert (b, target) in s.feasible;
    } else if t.Jump? {
      assert t.target in FeasibleTargets(s, t);
      assert (b, t.target) in s.feasible;
    }
  }

  /** Soundness over whole runs: a run from any arguments only ever enters executable blocks, along
      feasible edges, and every value it computes is one its lattice value allows. */
  lemma {:induction false} RunsAreSound(arith: Arithmetic, p: Program, s: State, args: Env, n: nat)
    requires WellFormed(p) && arith.Sound() && StateFits(p, s) && PostFixpoint(arith, p, s)
    requires ArgumentsFit(p, args) && Run(arith, p, args, n).Some?
    ensures ConfigSound(p, s, Run(arith, p, args, n).value)
  {
    if n == 0 {
      forall v | v in args
        ensures ValueSound(p, s, v, args[v])
      {
        assert s.Val(v).Overdefined?;
      }
    } else {
      RunsAreSound(arith, p, s, args, n - 1);
      StepSound(arith, p, s, Run(arith, p, args, n - 1).value);
    }
  }
}
