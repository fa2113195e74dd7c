/** The driver in src/SCCPTau.cpp: after solving, instructions with a constant value are replaced by
    the constant, and blocks that are not executable are emptied. Every run keeps its course and its
    result. */
module SCCPTau {
  import opened Wrappers
  import opened SpecValueLattice
  import opened SCCPProgram
  import opened SCCPSolverState
  import opened SCCPSolver
  import opened SCCPTightness
  import opened SCCPSoundness

  /** What each erased instruction was replaced by: a literal or undef. */
  type Substitution = map<nat, Operand>

  predicate NoReferences(m: Substitution) {
    forall v | v in m :: !m[v].Ref?
  }

  function Substitute(o: Operand, m: Substitution): Operand {
    if o.Ref? && o.id in m then m[o.id] else o
  }

  function SubstituteInstruction(v: Instruction, m: Substitution): Instruction {
    match v
    case Argument(_) => v
    case Phi(parent, size, incoming) => Phi(parent, size, SubstituteIncoming(incoming, m))
    case Binary(parent, size, op, l, r) => Binary(parent, size, op, Substitute(l, m), Substitute(r, m))
    case Compare(parent, size, pred, l, r) => Compare(parent, size, pred, Substitute(l, m), Substitute(r, m))
  }

  function SubstituteIncoming(incoming: seq<Incoming>, m: Substitution): (r: seq<Incoming>)
    ensures |r| == |incoming|
    ensures forall i | 0 <= i < |incoming| :: r[i] == Incoming(incoming[i].from, Substitute(incoming[i].operand, m))
  {
    if incoming == [] then []
    else [Incoming(incoming[0].from, Substitute(incoming[0].operand, m))] + SubstituteIncoming(incoming[1..], m)
  }

  function SubstituteTerminator(t: Terminator, m: Substitution): Terminator {
    match t
    case Branch(c, ifTrue, ifFalse) => Branch(Substitute(c, m), ifTrue, ifFalse)
    case Jump(_) => t
    case Return(r) => Return(Substitute(r, m))
  }

  function Without(ids: seq<nat>, erased: set<nat>): seq<nat> {
    if ids == [] then []
    else if ids[0] in erased then Without(ids[1..], erased)
    else [ids[0]] + Without(ids[1..], erased)
  }

  /** All uses replaced by m, and the replaced instructions gone from their blocks. */
  ghost predicate IsSimplified(p: Program, m: Substitution, q: Program) {
    && |q.values| == |p.values| && |q.blocks| == |p.blocks|
    && (forall v | 0 <= v < |p.values| :: q.values[v] == SubstituteInstruction(p.values[v], m))
    && (forall b | 0 <= b < |p.blocks| ::
          q.blocks[b] == Block(Without(p.blocks[b].body, m.Keys), SubstituteTerminator(p.blocks[b].terminator, m)))
  }

  /** The instruction is replaced once its block has been processed. */
  predicate Replaced(p: Program, s: State, done: set<nat>, v: nat) {
    v < |p.values| && !p.values[v].Argument? && p.values[v].parent in done &&
    (p.values[v].parent !in s.executable || !IsOverdefined(s.Val(v)))
  }

  function Replacement(p: Program, s: State, v: nat): Operand
    requires v < |p.values| && !p.values[v].Argument?
  {
    if p.values[v].parent in s.executable && s.Val(v).IsIntConstant() then Literal(s.Val(v).r.lo) else UndefOperand
  }

  function SubstitutionOf(p: Program, s: State, done: set<nat>): Substitution {
    map v: nat | 0 <= v < |p.values| && Replaced(p, s, done, v) :: Replacement(p, s, v)
  }

  // ----- the rewriting -----

  class IRFunction {
    var code: Program

    constructor (p: Program)
      ensures code == p
    {
      code := p;
    }

    /** Replaces every use of v by o and erases v. */
    method ReplaceAndErase(v: nat, o: Operand, ghost p: Program, ghost m: Substitution)
      requires IsSimplified(p, m, code) && v !in m && !o.Ref? && NoReferences(m)
      modifies this
      ensures IsSimplified(p, m[v := o], code)
    {
      var one: Substitution := map[v := o];
      var old_ := code;
      var values := seq(|old_.values|, i requires 0 <= i < |old_.values| => SubstituteInstruction(old_.values[i], one));
      var blocks := seq(|old_.blocks|, b requires 0 <= b < |old_.blocks| =>
        Block(Without(old_.blocks[b].body, {v}), SubstituteTerminator(old_.blocks[b].terminator, one)));
      code := Program(values, blocks);
      forall w | 0 <= w < |p.values|
        ensures code.values[w] == SubstituteInstruction(p.values[w], m[v := o])
      {
        SubstituteTwice(p.values[w], m, v, o);
      }
      forall b | 0 <= b < |p.blocks|
        ensures code.blocks[b] ==
          Block(Without(p.blocks[b].body, m[v := o].Keys), SubstituteTerminator(p.blocks[b].terminator, m[v := o]))
      {
        WithoutTwice(p.blocks[b].body, m.Keys, v);
        assert m[v := o].Keys == m.Keys + {v};
      }
    }
  }

  /** Every reference that survives m was there before, so substituting twice is substituting both. */
  lemma SubstituteTwice(x: Instruction, m: Substitution, v: nat, o: Operand)
    requires v !in m && !o.Ref? && NoReferences(m)
    ensures SubstituteInstruction(SubstituteInstruction(x, m), map[v := o]) == SubstituteInstruction(x, m[v := o])
  {
    if x.Phi? {
      assert SubstituteIncoming(SubstituteIncoming(x.incoming, m), map[v := o]) ==
        SubstituteIncoming(x.incoming, m[v := o]);
    }
  }

  lemma {:induction false} WithoutTwice(ids: seq<nat>, erased: set<nat>, v: nat)
    ensures Without(Without(ids, erased), {v}) == Without(ids, erased + {v})
  {
    if ids != [] {
      WithoutTwice(ids[1..], erased, v);
      if ids[0] !in erased {
        assert ([ids[0]] + Without(ids[1..], erased))[1..] == Without(ids[1..], erased);
      }
    }
  }

  // ----- runs of the rewritten program -----

  /** The two environments give the same value to everything that was not replaced. */
  ghost predicate Agree(m: Substitution, env: Env, env': Env) {
    forall v | v in env && v !in m :: v in env' && env'[v] == env[v]
  }

  ghost predicate ConfigAgree(m: Substitution, c: Config, c': Config) {
    match c
    case Returned(x) => c' == Returned(x)
    case At(prev, b, env) => c'.At? && c'.prev == prev && c'.block == b && Agree(m, env, c'.env)
  }

  /** At run time a replaced operand has the value it was replaced by. */
  lemma EvalAgrees(p: Program, s: State, done: set<nat>, env: Env, env': Env, o: Operand)
    requires EnvSound(p, s, env) && Agree(SubstitutionOf(p, s, done), env, env') && Eval(env, o).Some?
    ensures Eval(env', Substitute(o, SubstitutionOf(p, s, done))) == Eval(env, o)
  {
    if o.Ref? && o.id in SubstitutionOf(p, s, done) {
      assert ValueSound(p, s, o.id, env[o.id]);
    }
  }

  lemma {:induction false} SelectAgrees(incoming: seq<Incoming>, prev: nat, m: Substitution)
    ensures Select(SubstituteIncoming(incoming, m), prev) ==
      if Select(incoming, prev).Some? then Some(Substitute(Select(incoming, prev).value, m)) else None
  {
    if incoming != [] {
      SelectAgrees(incoming[1..], prev, m);
      assert SubstituteIncoming(incoming, m)[1..] == SubstituteIncoming(incoming[1..], m);
    }
  }

  lemma ExecuteAgrees(arith: Arithmetic, p: Program, s: State, done: set<nat>, v: Instruction, prev: Option<nat>,
                      entry: Env, env: Env, entry': Env, env': Env)
    requires EnvSound(p, s, entry) && EnvSound(p, s, env)
    requires Agree(SubstitutionOf(p, s, done), entry, entry') && Agree(SubstitutionOf(p, s, done), env, env')
    requires Execute(arith, v, prev, entry, env).Some?
    ensures Execute(arith, SubstituteInstruction(v, SubstitutionOf(p, s, done)), prev, entry', env') ==
      Execute(arith, v, prev, entry, env)
  {
    match v
    case Argument(_) =>
    case Phi(_, _, incoming) =>
      SelectAgrees(incoming, prev.value, SubstitutionOf(p, s, done));
      EvalAgrees(p, s, done, entry, entry', Select(incoming, prev.value).value);
    case Binary(_, _, _, l, r) =>
      EvalAgrees(p, s, done, env, env', l);
      EvalAgrees(p, s, done, env, env', r);
    case Compare(_, _, _, l, r) =>
      EvalAgrees(p, s, done, env, env', l);
      EvalAgrees(p, s, done, env, env', r);
  }

  lemma {:induction false} ExecuteAllAgrees(arith: Arithmetic, p: Program, s: State, done: set<nat>, q: Program, b: nat,
                                            ids: seq<nat>,
                         prev: Option<nat>, entry: Env, env: Env, entry': Env, env': Env)
    requires WellFormed(p) && arith.Sound() && StateFits(p, s) && PostFixpoint(arith, p, s)
    requires IsSimplified(p, SubstitutionOf(p, s, done), q)
    requires b < |p.blocks| && b in s.executable && (forall i | 0 <= i < |ids| :: ids[i] in p.blocks[b].body)
    requires prev.Some? ==> (prev.value, b) in s.feasible
    requires EnvSound(p, s, entry) && EnvSound(p, s, env)
    requires Agree(SubstitutionOf(p, s, done), entry, entry') && Agree(SubstitutionOf(p, s, done), env, env')
    requires ExecuteAll(arith, p, ids, prev, entry, env).Some?
    ensures ExecuteAll(arith, q, Without(ids, SubstitutionOf(p, s, done).Keys), prev, entry', env').Some?
    ensures Agree(SubstitutionOf(p, s, done), ExecuteAll(arith, p, ids, prev, entry, env).value,
                  ExecuteAll(arith, q, Without(ids, SubstitutionOf(p, s, done).Keys), prev, entry', env').value)
    decreases |ids|
  {
    if ids != [] {
      var m := SubstitutionOf(p, s, done);
      var v := ids[0];
      var x := Execute(arith, p.values[v], prev, entry, env).value;
      ExecuteOneAgrees(arith, p, s, done, q, b, v, prev, entry, env, entry', env');
      hide Arithmetic.Sound, IsSimplified, StateFits, WellFormed, PostFixpoint, EnvSound, Agree, SubstitutionOf,
        Execute;
      if v in m {
        ExecuteAllAgrees(arith, p, s, done, q, b, ids[1..], prev, entry, env[v := x], entry', env');
      } else {
        ExecuteAllAgrees(arith, p, s, done, q, b, ids[1..], prev, entry, env[v := x], entry', env'[v := x]);
        assert Without(ids, m.Keys)[1..] == Without(ids[1..], m.Keys);
      }
    }
  }

  /** One instruction: a replaced one has no effect on what is not replaced, any other computes the same. */
  lemma ExecuteOneAgrees(arith: Arithmetic, p: Program, s: State, done: set<nat>, q: Program, b: nat, v: nat,
                         prev: Option<nat>, entry: Env, env: Env, entry': Env, env': Env)
    requires WellFormed(p) && arith.Sound() && StateFits(p, s) && PostFixpoint(arith, p, s)
    requires IsSimplified(p, SubstitutionOf(p, s, done), q)
    requires b < |p.blocks| && b in s.executable && v in p.blocks[b].body
    requires prev.Some? ==> (prev.value, b) in s.feasible
    requires EnvSound(p, s, entry) && EnvSound(p, s, env)
    requires Agree(SubstitutionOf(p, s, done), entry, entry') && Agree(SubstitutionOf(p, s, done), env, env')
    requires v < |p.values| && Execute(arith, p.values[v], prev, entry, env).Some?
    ensures var m := SubstitutionOf(p, s, done); var x := Execute(arith, p.values[v], prev, entry, env).value;
      && EnvSound(p, s, env[v := x])
      && if v in m then Agree(m, env[v := x], env')
         else
           v < |q.values| && Execute(arith, q.values[v], prev, entry', env') == Some(x) &&
           Agree(m, env[v := x], env'[v := x])
  {
    hide Arithmetic.Sound, StateFits, WellFormed, PostFixpoint, EnvSound, Execute, SubstitutionOf,
      SubstituteInstruction;
    NextEnvSound(arith, p, s, b, v, prev, entry, env);
    if v !in SubstitutionOf(p, s, done) {
      ExecuteAgrees(arith, p, s, done, p.values[v], prev, entry, env, entry', env');
    }
  }

  lemma NextEnvSound(arith: Arithmetic, p: Program, s: State, b: nat, v: nat, prev: Option<nat>, entry: Env, env: Env)
    requires WellFormed(p) && arith.Sound() && StateFits(p, s) && PostFixpoint(arith, p, s)
    requires b < |p.blocks| && b in s.executable && v in p.blocks[b].body &&
      (prev.Some? ==> (prev.value, b) in s.feasible)
    requires EnvSound(p, s, entry) && EnvSound(p, s, env)
    requires v < |p.values| && Execute(arith, p.values[v], prev, entry, env).Some?
    ensures EnvSound(p, s, env[v := Execute(arith, p.values[v], prev, entry, env).value])
  {
    hide Arithmetic.Sound, StateFits, Execute, InstructionMet;
    assert IsUserOf(p, b, InstructionUser(v)) && BlockFits(p, b);
    assert UserMet(arith, p, s, InstructionUser(v));
    ExecuteSound(arith, p, s, v, prev, entry, env);
  }

  lemma StepAgrees(arith: Arithmetic, p: Program, s: State, done: set<nat>, q: Program, c: Config, c': Config)
    requires WellFormed(p) && arith.Sound() && StateFits(p, s) && PostFixpoint(arith, p, s)
    requires IsSimplified(p, SubstitutionOf(p, s, done), q)
    requires ConfigSound(p, s, c) && ConfigAgree(SubstitutionOf(p, s, done), c, c') && Step(arith, p, c).Some?
    ensures Step(arith, q, c').Some?
    ensures ConfigAgree(SubstitutionOf(p, s, done), Step(arith, p, c).value, Step(arith, q, c').value)
  {
    var b := c.block;
    var body := p.blocks[b].body;
    ExecuteAllSound(arith, p, s, b, body, c.prev, c.env, c.env);
    ExecuteAllAgrees(arith, p, s, done, q, b, body, c.prev, c.env, c.env, c'.env, c'.env);
    var env := ExecuteAll(arith, p, body, c.prev, c.env, c.env).value;
    var env' := ExecuteAll(arith, q, Without(body, SubstitutionOf(p, s, done).Keys), c.prev, c'.env, c'.env).value;
    match p.blocks[b].terminator
    case Jump(_) =>
    case Branch(o, _, _) => EvalAgrees(p, s, done, env, env', o);
    case Return(o) => EvalAgrees(p, s, done, env, env', o);
  }

  /** Arguments are never replaced. */
  lemma StartsAgree(p: Program, s: State, done: set<nat>, args: Env)
    requires ArgumentsFit(p, args)
    ensures ConfigAgree(SubstitutionOf(p, s, done), At(None, 0, args), At(None, 0, args))
  {
  }

  /** The rewriting preserves meaning: whatever a run of the original program does in n steps, the
      rewritten program does in n steps, through the same blocks and to the same result. */
  lemma {:induction false} SimplificationPreservesRuns(arith: Arithmetic, p: Program, s: State, done: set<nat>,
                                                       q: Program, args: Env, n: nat)
    requires WellFormed(p) && arith.Sound() && StateFits(p, s) && PostFixpoint(arith, p, s)
    requires IsSimplified(p, SubstitutionOf(p, s, done), q)
    requires ArgumentsFit(p, args) && Run(arith, p, args, n).Some?
    ensures Run(arith, q, args, n).Some?
    ensures ConfigAgree(SubstitutionOf(p, s, done), Run(arith, p, args, n).value, Run(arith, q, args, n).value)
  {
    hide WellFormed, Arithmetic.Sound, StateFits, PostFixpoint, IsSimplified, ConfigSound, ConfigAgree, Step,
      SubstitutionOf, ArgumentsFit;
    if n == 0 {
      StartsAgree(p, s, done, args);
    } else {
      SimplificationPreservesRuns(arith, p, s, done, q, args, n - 1);
      RunsAreSound(arith, p, s, args, n - 1);
      StepAgrees(arith, p, s, done, q, Run(arith, p, args, n - 1).value, Run(arith, q, args, n - 1).value);
    }
  }

  /** The same block entered from the same block, or the same result. */
  predicate SameCourse(c: Config, c': Config) {
    match c
    case Returned(x) => c' == Returned(x)
    case At(prev, b, _) => c'.At? && c'.prev == prev && c'.block == b
  }

  ghost predicate PreservesRuns(arith: Arithmetic, p: Program, q: Program) {
    forall args, n | ArgumentsFit(p, args) && Run(arith, p, args, n).Some? ::
      Run(arith, q, args, n).Some? && SameCourse(Run(arith, p, args, n).value, Run(arith, q, args, n).value)
  }

  function Listed(order: seq<nat>): set<nat> {
    set b | b in order
  }

  // ----- what the rewriting achieves -----

  /** An instruction of a processed block that the solver found to be one integer. */
  ghost predicate IsFolded(p: Program, s: State, done: set<nat>, v: nat) {
    && v < |p.values| && !p.values[v].Argument? && p.values[v].parent in done && p.values[v].parent in s.executable
    && s.Val(v).IsIntConstant()
  }

  /** An instruction of a processed block that is never executed. */
  ghost predicate IsDead(p: Program, s: State, done: set<nat>, v: nat) {
    v < |p.values| && !p.values[v].Argument? && p.values[v].parent in done && p.values[v].parent !in s.executable
  }

  /** A use of a folded instruction becomes its integer, a use of a dead one undef, and any other operand stays. */
  ghost predicate OperandBecomes(p: Program, s: State, done: set<nat>, o: Operand, o': Operand) {
    if o.Ref? && IsFolded(p, s, done, o.id) then o' == Literal(s.Val(o.id).r.lo)
    else if o.Ref? && IsDead(p, s, done, o.id) then o'.UndefOperand?
    else o' == o
  }

  ghost predicate InstructionBecomes(p: Program, s: State, done: set<nat>, x: Instruction, y: Instruction) {
    match x
    case Argument(_) => y == x
    case Phi(parent, size, incoming) =>
      && y.Phi? && y.parent == parent && y.size == size && |y.incoming| == |incoming|
      && forall i | 0 <= i < |incoming| ::
           y.incoming[i].from == incoming[i].from &&
           OperandBecomes(p, s, done, incoming[i].operand, y.incoming[i].operand)
    case Binary(parent, size, op, l, r) =>
      && y.Binary? && y.parent == parent && y.size == size && y.opcode == op
      && OperandBecomes(p, s, done, l, y.left) && OperandBecomes(p, s, done, r, y.right)
    case Compare(parent, size, pred, l, r) =>
      && y.Compare? && y.parent == parent && y.operandSize == size && y.predicate_ == pred
      && OperandBecomes(p, s, done, l, y.left) && OperandBecomes(p, s, done, r, y.right)
  }

  ghost predicate TerminatorBecomes(p: Program, s: State, done: set<nat>, x: Terminator, y: Terminator) {
    match x
    case Branch(c, t, f) => y.Branch? && y.ifTrue == t && y.ifFalse == f && OperandBecomes(p, s, done, c, y.condition)
    case Jump(_) => y == x
    case Return(r) => y.Return? && OperandBecomes(p, s, done, r, y.result)
  }

  /** A dead block is empty. An executable one keeps, in order, the instructions that are not one integer; a block that
      was not processed keeps all. */
  ghost predicate BodyBecomes(p: Program, s: State, done: set<nat>, b: nat, body: seq<nat>)
    requires b < |p.blocks|
  {
    && (b in done && b !in s.executable ==> body == [])
    && (b in done && b in s.executable ==>
          forall v :: v in body <==> v in p.blocks[b].body && !s.Val(v).IsIntConstant())
    && (b !in done ==> body == p.blocks[b].body)
    && (forall i, j | 0 <= i < j < |body| :: InOrder(p.blocks[b].body, body[i], body[j]))
  }

  ghost predicate InOrder(ids: seq<nat>, x: nat, y: nat) {
    exists i, j :: 0 <= i < j < |ids| && ids[i] == x && ids[j] == y
  }

  /** Every instruction of a processed block that is one integer is gone, all its uses are that integer, dead blocks are
      empty, and everything else is as before. */
  ghost predicate ConstantsPropagated(p: Program, s: State, done: set<nat>, q: Program) {
    && |q.values| == |p.values| && |q.blocks| == |p.blocks|
    && (forall v | 0 <= v < |p.values| :: InstructionBecomes(p, s, done, p.values[v], q.values[v]))
    && (forall b | 0 <= b < |p.blocks| :: BodyBecomes(p, s, done, b, q.blocks[b].body))
    && (forall b | 0 <= b < |p.blocks| ::
          TerminatorBecomes(p, s, done, p.blocks[b].terminator, q.blocks[b].terminator))
  }

  /** With every instruction of an executable block known, one that is replaced there is one integer. */
  lemma OperandIsFolded(p: Program, s: State, done: set<nat>, o: Operand)
    requires WellFormed(p) && StateFits(p, s) && AllKnown(p, s)
    ensures OperandBecomes(p, s, done, o, Substitute(o, SubstitutionOf(p, s, done)))
  {
    if o.Ref? && o.id < |p.values| && !p.values[o.id].Argument? && p.values[o.id].parent in s.executable {
      KnownWhenLive(p, s, o.id);
    }
  }

  lemma KnownWhenLive(p: Program, s: State, v: nat)
    requires WellFormed(p) && StateFits(p, s) && AllKnown(p, s)
    requires v < |p.values| && !p.values[v].Argument? && p.values[v].parent in s.executable
    ensures s.Val(v).Range? || s.Val(v).Overdefined?
  {
    var b := p.values[v].parent;
    assert InstructionFits(p, p.values[v]) && v in p.blocks[b].body;
    var i :| 0 <= i < |p.blocks[b].body| && p.blocks[b].body[i] == v;
    assert KnownIn(p, s, b, |p.blocks[b].body|);
    ValFits(p, s, v);
  }

  lemma {:induction false} WithoutKeeps(ids: seq<nat>, erased: set<nat>)
    ensures forall v :: v in Without(ids, erased) <==> v in ids && v !in erased
    ensures forall i, j | 0 <= i < j < |Without(ids, erased)| ::
      InOrder(ids, Without(ids, erased)[i], Without(ids, erased)[j])
  {
    if ids != [] {
      var rest := Without(ids[1..], erased);
      WithoutKeeps(ids[1..], erased);
      forall i, j | 0 <= i < j < |Without(ids, erased)|
        ensures InOrder(ids, Without(ids, erased)[i], Without(ids, erased)[j])
      {
        if ids[0] in erased {
          LaterInOrder(ids, rest[i], rest[j]);
        } else if i > 0 {
          LaterInOrder(ids, rest[i - 1], rest[j - 1]);
        } else {
          assert rest[j - 1] in ids[1..];
          var k :| 0 <= k < |ids[1..]| && ids[1..][k] == rest[j - 1];
          assert ids[0] == Without(ids, erased)[0] && ids[k + 1] == rest[j - 1];
        }
      }
    }
  }

  lemma LaterInOrder(ids: seq<nat>, x: nat, y: nat)
    requires |ids| > 0 && InOrder(ids[1..], x, y)
    ensures InOrder(ids, x, y)
  {
    var i, j :| 0 <= i < j < |ids[1..]| && ids[1..][i] == x && ids[1..][j] == y;
    assert ids[i + 1] == x && ids[j + 1] == y;
  }

  lemma BodyIsFolded(p: Program, s: State, done: set<nat>, b: nat)
    requires WellFormed(p) && StateFits(p, s) && AllKnown(p, s) && b < |p.blocks|
    ensures BodyBecomes(p, s, done, b, Without(p.blocks[b].body, SubstitutionOf(p, s, done).Keys))
  {
    var body, m := p.blocks[b].body, SubstitutionOf(p, s, done);
    WithoutKeeps(body, m.Keys);
    assert BlockFits(p, b);
    forall v | v in body
      ensures v in m <==> b in done && (b !in s.executable || s.Val(v).IsIntConstant())
    {
      if b in s.executable {
        KnownWhenLive(p, s, v);
      }
    }
    if b !in done {
      WithoutNoneOf(body, m.Keys);
    } else if Without(body, m.Keys) != [] {
      assert Without(body, m.Keys)[0] in Without(body, m.Keys);
    }
  }

  lemma {:induction false} WithoutNoneOf(ids: seq<nat>, erased: set<nat>)
    requires forall v | v in ids :: v !in erased
    ensures Without(ids, erased) == ids
  {
    if ids != [] {
      WithoutNoneOf(ids[1..], erased);
    }
  }

  /** The rewriting by the substitution propagates exactly the constants the solver found. */
  lemma SimplifiedPropagates(p: Program, s: State, done: set<nat>, q: Program)
    requires WellFormed(p) && StateFits(p, s) && AllKnown(p, s)
    requires IsSimplified(p, SubstitutionOf(p, s, done), q)
    ensures ConstantsPropagated(p, s, done, q)
  {
    var m := SubstitutionOf(p, s, done);
    forall o: Operand
      ensures OperandBecomes(p, s, done, o, Substitute(o, m))
    {
      OperandIsFolded(p, s, done, o);
    }
    hide WellFormed, StateFits, AllKnown, SubstitutionOf, OperandBecomes, Substitute;
    forall v | 0 <= v < |p.values|
      ensures InstructionBecomes(p, s, done, p.values[v], q.values[v])
    {
    }
    forall b | 0 <= b < |p.blocks|
      ensures BodyBecomes(p, s, done, b, q.blocks[b].body)
    {
      BodyIsFolded(p, s, done, b);
    }
  }

  // ----- the driver -----

  /** Solves, then rewrites the blocks in the given order. The order lists blocks of the function, each
      once; blocks it leaves out (those not reachable from the entry) stay as they are. */
  method RunSCCPTau(f: IRFunction, arith: Arithmetic, order: seq<nat>) returns (solver: SCCPTauSolver)
    requires WellFormed(f.code) && arith.Sound()
    requires forall i | 0 <= i < |order| :: order[i] < |f.code.blocks|
    requires forall i, j | 0 <= i < j < |order| :: order[i] != order[j]
    modifies f
    ensures fresh(solver) && solver.Valid() && solver.program == old(f.code)
    ensures PostFixpoint(arith, old(f.code), solver.Now()) && AllKnown(old(f.code), solver.Now())
    ensures EdgesTight(old(f.code), solver.Now(), solver.forcedEdges) && BlocksTight(solver.Now())
    ensures AllExact(arith, old(f.code), solver.Now(), solver.forcedValues, solver.widened)
    ensures ForcedWhenStuck(arith, old(f.code), solver.forcedEdges, solver.forcedValues, solver.stops)
    ensures ConstantsPropagated(old(f.code), solver.Now(), Listed(order), f.code)
    ensures PreservesRuns(arith, old(f.code), f.code)
  {
    hide IsSimplified, WellFormed, PostFixpoint, StateFits, Arithmetic.Sound, SCCPSolver.ExtensionsBounded, Tight,
      AllKnown, EdgesTight, BlocksTight, AllExact, ForcedWhenStuck, ConstantsPropagated;
    var p := f.code;
    solver := new SCCPTauSolver(p, arith);
    solver.RunSCCP();
    ghost var s, edges, values, wide, stops :=
      solver.Now(), solver.forcedEdges, solver.forcedValues, solver.widened, solver.stops;
    NothingReplacedYet(p, s);
    ghost var done: set<nat> := {};
    var k := 0;
    while k < |order|
      invariant 0 <= k <= |order| && done == Listed(order[..k])
      invariant solver.Now() == s && solver.Valid() && solver.program == p
      invariant solver.forcedEdges == edges && solver.forcedValues == values && solver.widened == wide
      invariant solver.stops == stops
      invariant IsSimplified(p, SubstitutionOf(p, s, done), f.code)
    {
      SimplifyBlock(f, solver, order[k], p, s, done);
      assert order[..k + 1] == order[..k] + [order[k]];
      done := done + {order[k]};
      k := k + 1;
    }
    assert order[..k] == order && done == Listed(order);
    SimplifiedPropagates(p, s, done, f.code);
    forall args, n | ArgumentsFit(p, args) && Run(arith, p, args, n).Some?
      ensures Run(arith, f.code, args, n).Some? &&
        SameCourse(Run(arith, p, args, n).value, Run(arith, f.code, args, n).value)
    {
      SimplificationPreservesRuns(arith, p, s, done, f.code, args, n);
    }
  }

  /** The substitution while block b is being processed and the first i instructions are behind. */
  ghost function PartialSubstitution(p: Program, s: State, done: set<nat>, b: nat, i: nat): Substitution
    requires b < |p.blocks| && i <= |p.blocks[b].body|
  {
    map v: nat | 0 <= v < |p.values| &&
        (Replaced(p, s, done, v) || (v in p.blocks[b].body[..i] && Replaced(p, s, {b}, v))) :: Replacement(p, s, v)
  }

  lemma NextPartial(p: Program, s: State, done: set<nat>, b: nat, i: nat)
    requires WellFormed(p) && b < |p.blocks| && i < |p.blocks[b].body| && b !in done
    ensures var v := p.blocks[b].body[i];
      && v < |p.values| && !p.values[v].Argument? && p.values[v].parent == b
      && v !in PartialSubstitution(p, s, done, b, i)
      && PartialSubstitution(p, s, done, b, i + 1) ==
           if Replaced(p, s, {b}, v) then PartialSubstitution(p, s, done, b, i)[v := Replacement(p, s, v)]
           else PartialSubstitution(p, s, done, b, i)
  {
    assert BlockFits(p, b);
    var body := p.blocks[b].body;
    assert body[..i + 1] == body[..i] + [body[i]];
    assert body[i] !in body[..i];
  }

  lemma BlockComplete(p: Program, s: State, done: set<nat>, b: nat)
    requires WellFormed(p) && b < |p.blocks|
    ensures PartialSubstitution(p, s, done, b, 0) == SubstitutionOf(p, s, done)
    ensures PartialSubstitution(p, s, done, b, |p.blocks[b].body|) == SubstitutionOf(p, s, done + {b})
  {
    assert BlockFits(p, b);
    var body := p.blocks[b].body;
    assert body[..|body|] == body;
    assert forall v | 0 <= v < |p.values| ::
      Replaced(p, s, done + {b}, v) <==> Replaced(p, s, done, v) || Replaced(p, s, {b}, v);
  }

  lemma {:induction false} WithoutNothing(ids: seq<nat>)
    ensures Without(ids, {}) == ids
  {
    if ids != [] {
      WithoutNothing(ids[1..]);
    }
  }

  lemma NothingReplacedYet(p: Program, s: State)
    ensures IsSimplified(p, SubstitutionOf(p, s, {}), p)
  {
    var m := SubstitutionOf(p, s, {});
    assert m == map[] && m.Keys == {};
    assert forall o: Operand :: Substitute(o, m) == o;
    forall v | 0 <= v < |p.values|
      ensures p.values[v] == SubstituteInstruction(p.values[v], m)
    {
      if p.values[v].Phi? {
        assert SubstituteIncoming(p.values[v].incoming, m) == p.values[v].incoming;
      }
    }
    forall b | 0 <= b < |p.blocks|
      ensures Without(p.blocks[b].body, m.Keys) == p.blocks[b].body
    {
      WithoutNothing(p.blocks[b].body);
    }
  }

  /** Empties a block that is not executable; in an executable one replaces what can be replaced. */
  method SimplifyBlock(f: IRFunction, solver: SCCPTauSolver, b: nat, p: Program, ghost s: State, ghost done: set<nat>)
    requires WellFormed(p) && b < |p.blocks| && b !in done && solver.Now() == s
    requires IsSimplified(p, SubstitutionOf(p, s, done), f.code)
    modifies f
    ensures IsSimplified(p, SubstitutionOf(p, s, done + {b}), f.code)
    ensures StateFits(p, s) && AllKnown(p, s) ==> ConstantsPropagated(p, s, done + {b}, f.code)
  {
    hide IsSimplified, WellFormed, StateFits, AllKnown, ConstantsPropagated;
    var body := p.blocks[b].body;
    ghost var m := SubstitutionOf(p, s, done);
    BlockComplete(p, s, done, b);
    var i := 0;
    while i < |body|
      invariant 0 <= i <= |body|
      invariant m == PartialSubstitution(p, s, done, b, i)
      invariant IsSimplified(p, m, f.code)
    {
      var v := body[i];
      NextPartial(p, s, done, b, i);
      var state := solver.StateOf(v);
      assert state.value == s.Val(v);
      if b !in solver.bbExecutable {
        f.ReplaceAndErase(v, UndefOperand, p, m);
        m := m[v := UndefOperand];
      } else if !IsOverdefined(state.value) {
        var o := if state.value.IsIntConstant() then Literal(state.value.r.lo) else UndefOperand;
        f.ReplaceAndErase(v, o, p, m);
        m := m[v := o];
      }
      i := i + 1;
    }
    if StateFits(p, s) && AllKnown(p, s) {
      SimplifiedPropagates(p, s, done + {b}, f.code);
    }
  }
}
