/** The sublanguage the solver is modelled on (phi, integer binary operators, integer comparisons,
    conditional and unconditional branches, return, in SSA form) and its runs. */
module SCCPProgram {
  import opened Wrappers
  import opened SpecValueLattice

  /** An operand: an integer literal, the result of another value, or undef. */
  datatype Operand = Literal(n: nat) | Ref(id: nat) | UndefOperand

  datatype Incoming = Incoming(from: nat, operand: Operand)

  /** A value: an argument of the function or an instruction with its parent block. The integer type
      is given by the number of values it has; a comparison yields the type with two values. */
  datatype Instruction =
    | Argument(size: nat)
    | Phi(parent: nat, size: nat, incoming: seq<Incoming>)
    | Binary(parent: nat, size: nat, opcode: nat, left: Operand, right: Operand)
    | Compare(parent: nat, operandSize: nat, predicate_: nat, left: Operand, right: Operand)
  {
    function Size(): nat {
      if Compare? then 2 else size
    }

    predicate HasOperand(o: Operand) {
      match this
      case Argument(_) => false
      case Phi(_, _, incoming) => exists i | 0 <= i < |incoming| :: incoming[i].operand == o
      case Binary(_, _, _, l, r) => o == l || o == r
      case Compare(_, _, _, l, r) => o == l || o == r
    }
  }

  datatype Terminator =
    | Branch(condition: Operand, ifTrue: nat, ifFalse: nat)
    | Jump(target: nat)
    | Return(result: Operand)
  {
    predicate HasOperand(o: Operand) {
      match this
      case Branch(c, _, _) => o == c
      case Jump(_) => false
      case Return(r) => o == r
    }
  }

  /** The ids of the instructions in order, phis first, then the terminator. */
  datatype Block = Block(body: seq<nat>, terminator: Terminator)

  /** Block 0 is the entry. */
  datatype Program = Program(values: seq<Instruction>, blocks: seq<Block>)

  /** Integer arithmetic at run time, and the library's arithmetic on ranges. An operation without a
      result (a division by zero) stops the run; an operation on ranges may have an empty result. */
  datatype Arithmetic = Arithmetic(
    evalBinary: (nat, nat, nat, nat) -> Option<nat>,
    evalCompare: (nat, nat, nat, nat) -> bool,
    rangeBinary: (nat, ConstantRange, ConstantRange) -> Option<ConstantRange>,
    rangeCompare: (nat, ConstantRange, ConstantRange) -> bool,
    inverse: nat -> nat)
  {
    /** What is assumed of the library: results stay in the type, range operations cover every
        run-time result, and the inverse predicate is the negation. */
    ghost predicate Sound() {
      && (forall op: nat, n: nat, x: nat, y: nat ::
           x < n && y < n && evalBinary(op, n, x, y).Some? ==> evalBinary(op, n, x, y).value < n)
      && (forall op: nat, a: ConstantRange, b: ConstantRange :: a.Valid() && b.Valid() && a.size == b.size ==>
            rangeBinary(op, a, b).Some? ==>
              rangeBinary(op, a, b).value.Valid() && rangeBinary(op, a, b).value.size == a.size)
      && (forall op: nat, a: ConstantRange, b: ConstantRange, x: nat, y: nat ::
            a.Valid() && b.Valid() && a.size == b.size && a.Contains(x) && b.Contains(y) &&
              evalBinary(op, a.size, x, y).Some? ==>
              rangeBinary(op, a, b).Some? && rangeBinary(op, a, b).value.Contains(evalBinary(op, a.size, x, y).value))
      && (forall p: nat, a: ConstantRange, b: ConstantRange, x: nat, y: nat ::
            a.Valid() && b.Valid() && a.size == b.size && a.Contains(x) && b.Contains(y) && rangeCompare(p, a, b) ==>
              evalCompare(p, a.size, x, y))
      && (forall p: nat, n: nat, x: nat, y: nat ::
           x < n && y < n ==> evalCompare(inverse(p), n, x, y) == !evalCompare(p, n, x, y))
    }
  }

  /** A range within another of the same type. */
  predicate Within(a: ConstantRange, b: ConstantRange) {
    a.size == b.size && b.lo <= a.lo && a.hi <= b.hi
  }

  /** Larger operand ranges give larger results and decide fewer comparisons. */
  ghost predicate Monotone(arith: Arithmetic) {
    && (forall op: nat, a: ConstantRange, b: ConstantRange, a': ConstantRange, b': ConstantRange ::
          a.Valid() && b.Valid() && a'.Valid() && b'.Valid() && a.size == b.size && Within(a, a') && Within(b, b') &&
          arith.rangeBinary(op, a, b).Some? ==>
            arith.rangeBinary(op, a', b').Some? &&
            Within(arith.rangeBinary(op, a, b).value, arith.rangeBinary(op, a', b').value))
    && (forall pr: nat, a: ConstantRange, b: ConstantRange, a': ConstantRange, b': ConstantRange ::
          a.Valid() && b.Valid() && a'.Valid() && b'.Valid() && a.size == b.size && Within(a, a') && Within(b, b') &&
          arith.rangeCompare(pr, a', b') ==>
            arith.rangeCompare(pr, a, b))
  }

  // ----- well-formed programs -----

  ghost predicate OperandFits(p: Program, o: Operand, size: nat) {
    match o
    case Literal(n) => n < size
    case Ref(id) => id < |p.values| && p.values[id].Size() == size
    case UndefOperand => false
  }

  ghost predicate InstructionFits(p: Program, v: Instruction) {
    v.Size() >= 2 &&
    match v
    case Argument(_) => true
    case Phi(parent, size, incoming) =>
      parent < |p.blocks| && forall i | 0 <= i < |incoming| :: OperandFits(p, incoming[i].operand, size)
    case Binary(parent, size, _, l, r) => parent < |p.blocks| && OperandFits(p, l, size) && OperandFits(p, r, size)
    case Compare(parent, size, _, l, r) =>
      parent < |p.blocks| && size >= 2 && OperandFits(p, l, size) && OperandFits(p, r, size)
  }

  predicate IsPhiOf(p: Program, b: nat, id: nat) {
    id < |p.values| && p.values[id].Phi? && p.values[id].parent == b
  }

  ghost predicate BlockFits(p: Program, b: nat)
    requires b < |p.blocks|
  {
    var body := p.blocks[b].body;
    && (forall i | 0 <= i < |body| :: body[i] < |p.values| && !p.values[body[i]].Argument? &&
         p.values[body[i]].parent == b)
    && (forall i, j | 0 <= i < j < |body| :: body[i] != body[j])
    && (forall i, j | 0 <= i < j < |body| :: p.values[body[j]].Phi? ==> p.values[body[i]].Phi?)
    && match p.blocks[b].terminator
       case Branch(c, t, f) => OperandFits(p, c, 2) && t < |p.blocks| && f < |p.blocks|
       case Jump(t) => t < |p.blocks|
       case Return(r) => r.UndefOperand? || r.Literal? || (r.Ref? && r.id < |p.values|)
  }

  /** Typed, undef-free, every instruction listed in its parent block, phis first, and no phi in the
      entry block. */
  ghost predicate WellFormed(p: Program) {
    && |p.blocks| >= 1
    && (forall v | 0 <= v < |p.values| :: InstructionFits(p, p.values[v]))
    && (forall b | 0 <= b < |p.blocks| :: BlockFits(p, b))
    && (forall v | 0 <= v < |p.values| :: !p.values[v].Argument? ==> v in p.blocks[p.values[v].parent].body)
  }

  // ----- runs -----

  type Env = map<nat, nat>

  function Eval(env: Env, o: Operand): Option<nat> {
    match o
    case Literal(n) => Some(n)
    case Ref(id) => if id in env then Some(env[id]) else None
    case UndefOperand => None
  }

  /** Where a run is: about to execute `block`, entered from `prev` (none at the start), or returned. */
  datatype Config = At(prev: Option<nat>, block: nat, env: Env) | Returned(result: nat)

  /** The operand a phi takes when its block is entered from prev. */
  function Select(incoming: seq<Incoming>, prev: nat): Option<Operand> {
    if incoming == [] then None
    else if incoming[0].from == prev then Some(incoming[0].operand)
    else Select(incoming[1..], prev)
  }

  /** The result of one instruction; phis read the environment `entry` the block was entered with,
      all others the current one. */
  function Execute(arith: Arithmetic, v: Instruction, prev: Option<nat>, entry: Env, env: Env): Option<nat> {
    match v
    case Argument(_) => None
    case Phi(_, _, incoming) =>
      if prev.None? then None
      else
        var o := Select(incoming, prev.value);
        if o.None? then None else Eval(entry, o.value)
    case Binary(_, size, op, l, r) =>
      var x, y := Eval(env, l), Eval(env, r);
      if x.None? || y.None? then None else arith.evalBinary(op, size, x.value, y.value)
    case Compare(_, size, pr, l, r) =>
      var x, y := Eval(env, l), Eval(env, r);
      if x.None? || y.None? then None else Some(if arith.evalCompare(pr, size, x.value, y.value) then 1 else 0)
  }

  /** Executes the instructions listed, in order; None when one of them has no result. */
  function ExecuteAll(arith: Arithmetic, p: Program, ids: seq<nat>, prev: Option<nat>, entry: Env,
                      env: Env): Option<Env>
  {
    if ids == [] then Some(env)
    else if ids[0] >= |p.values| then None
    else
      var x := Execute(arith, p.values[ids[0]], prev, entry, env);
      if x.None? then None else ExecuteAll(arith, p, ids[1..], prev, entry, env[ids[0] := x.value])
  }

  /** One step executes a whole block and follows its terminator. */
  function Step(arith: Arithmetic, p: Program, c: Config): Option<Config> {
    if c.Returned? || c.block >= |p.blocks| then None
    else
      var after := ExecuteAll(arith, p, p.blocks[c.block].body, c.prev, c.env, c.env);
      if after.None? then None
      else
        match p.blocks[c.block].terminator
        case Jump(t) => Some(At(Some(c.block), t, after.value))
        case Branch(o, t, f) =>
          var x := Eval(after.value, o);
          if x.None? then None else Some(At(Some(c.block), if x.value != 0 then t else f, after.value))
        case Return(o) =>
          var x := Eval(after.value, o);
          if x.None? then None else Some(Returned(x.value))
  }

  /** The configuration after n steps from the entry with the given arguments. */
  function Run(arith: Arithmetic, p: Program, args: Env, n: nat): Option<Config> {
    if n == 0 then Some(At(None, 0, args))
    else
      var c := Run(arith, p, args, n - 1);
      if c.None? then None else Step(arith, p, c.value)
  }

  /** Arguments are given for argument values only, and fit their types. */
  ghost predicate ArgumentsFit(p: Program, args: Env) {
    forall v | v in args :: v < |p.values| && p.values[v].Argument? && args[v] < p.values[v].size
  }
}
