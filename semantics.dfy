/**
 * The transfer function (pkg/domain/semantics.go): evaluates the instructions
 * of a block against an abstract state, updating the state in place. The LLVM
 * instruction objects are replaced by a small datatype holding what the
 * transfer function reads: the kind, the result name and the operands.
 */
module Semantics {
  import opened Intervals
  import opened States

  /** An operand: an integer constant, or a value named by its identifier. */
  datatype Operand = Const(c: int) | Local(ident: string)

  /** Integer comparison predicates of LLVM's icmp. */
  datatype IPred = EQ | NE | UGT | UGE | ULT | ULE | SGT | SGE | SLT | SLE

  datatype Option<T> = None | Some(value: T)

  /**
   * An instruction. An unsupported one (sdiv, srem, a load, a call, ...) may
   * define a result name, which the transfer function never binds.
   */
  datatype Inst =
    | Add(res: string, x: Operand, y: Operand)
    | Sub(res: string, x: Operand, y: Operand)
    | Mul(res: string, x: Operand, y: Operand)
    | ICmp(res: string, pred: IPred, x: Operand, y: Operand)
    | Phi(res: string, incs: seq<Operand>)
    | Unsupported(kind: string, result: Option<string>)

  /** An operand's abstract value: [c, c] for a constant, the state's value of a name. */
  function EvalArgument(v: Operand, s: StateMap): (r: Interval)
    ensures v.Const? ==> forall x :: Contains(r, x) <==> x == v.c
    ensures v.Local? ==> r == Lookup(s, v.ident)
    ensures ValidState(s) ==> WellBounded(r)
  {
    match v
    case Const(i) => InterRange(Endpoint(i), Endpoint(i))
    case Local(loc) => Lookup(s, loc)
  }

  /** The join of the incoming values of a phi, folded from Bot in order. */
  function PhiJoin(incs: seq<Operand>, s: StateMap): (r: Interval)
    ensures ValidState(s) ==> WellBounded(r)
  {
    if incs == [] then InterBot()
    else InterJoin(PhiJoin(incs[..|incs| - 1], s), EvalArgument(incs[|incs| - 1], s))
  }

  /** The phi's value is the least interval subsuming every incoming value; Bot without incomings. */
  lemma {:induction false} PhiJoinIsLub(incs: seq<Operand>, s: StateMap, t: Interval)
    ensures incs == [] ==> PhiJoin(incs, s) == Bot
    ensures forall j :: 0 <= j < |incs| ==> InterOrder(EvalArgument(incs[j], s), PhiJoin(incs, s))
    ensures (forall j :: 0 <= j < |incs| ==> InterOrder(EvalArgument(incs[j], s), t)) ==>
      InterOrder(PhiJoin(incs, s), t)
  {
    if incs != [] {
      var n := |incs| - 1;
      var front := incs[..n];
      PhiJoinIsLub(front, s, t);
      var p := PhiJoin(incs, s);
      forall j | 0 <= j < n ensures InterOrder(EvalArgument(incs[j], s), p) {
        assert incs[j] == front[j];
        InterOrderTrans(EvalArgument(incs[j], s), PhiJoin(front, s), p);
      }
      if forall j :: 0 <= j < |incs| ==> InterOrder(EvalArgument(incs[j], s), t) {
        assert forall j :: 0 <= j < |front| ==> InterOrder(EvalArgument(front[j], s), t) by {
          forall j | 0 <= j < |front| ensures InterOrder(EvalArgument(front[j], s), t) {
            assert front[j] == incs[j];
          }
        }
        InterJoinLeast(PhiJoin(front, s), EvalArgument(incs[n], s), t);
      }
    }
  }

  /** The state after one instruction; an unsupported instruction leaves the state as it is. */
  function InstEffect(s: StateMap, inst: Inst): (r: StateMap)
    requires ValidState(s)
    ensures ValidState(r)
  {
    match inst
    case Add(res, x, y) =>
      var vx, vy := EvalArgument(x, s), EvalArgument(y, s);
      WellBoundedDefined(vx, vy);
      s[res := InterPlus(vx, vy)]
    case Sub(res, x, y) =>
      var vx, vy := EvalArgument(x, s), EvalArgument(y, s);
      WellBoundedDefined(vx, vy);
      s[res := InterMinus(vx, vy)]
    case Mul(res, x, y) =>
      s[res := InterMult(EvalArgument(x, s), EvalArgument(y, s))]
    case ICmp(res, pred, x, y) =>
      var vx, vy := EvalArgument(x, s), EvalArgument(y, s);
      s[res := if pred == SLT then InterSLT(vx, vy) else InterTop()]
    case Phi(res, incs) =>
      s[res := PhiJoin(incs, s)]
    case Unsupported(_, _) =>
      s
  }

  /** The state after the instructions of a block, applied in order. */
  function BlockEffect(s: StateMap, insts: seq<Inst>): (r: StateMap)
    requires ValidState(s)
    ensures ValidState(r)
  {
    if insts == [] then s
    else InstEffect(BlockEffect(s, insts[..|insts| - 1]), insts[|insts| - 1])
  }

  /** The names that the supported instructions of insts bind. */
  function Defs(insts: seq<Inst>): set<string>
  {
    if insts == [] then {}
    else
      var last := insts[|insts| - 1];
      Defs(insts[..|insts| - 1]) + (if last.Unsupported? then {} else {last.res})
  }

  /** A block can only change the names bound by its supported instructions. */
  lemma {:induction false} BlockFrame(s: StateMap, insts: seq<Inst>, k: string)
    requires ValidState(s)
    ensures BlockEffect(s, insts).Keys <= s.Keys + Defs(insts)
    ensures k !in Defs(insts) ==> Lookup(BlockEffect(s, insts), k) == Lookup(s, k)
  {
    if insts != [] {
      BlockFrame(s, insts[..|insts| - 1], k);
    }
  }

  // ---------------------------------------------------------------------------
  // Soundness against a concrete semantics
  // ---------------------------------------------------------------------------

  /** A concrete environment: the integer value of each defined name. */
  type Env = map<string, int>

  predicate Defined(env: Env, v: Operand)
  {
    v.Const? || v.ident in env
  }

  function Value(env: Env, v: Operand): int
    requires Defined(env, v)
  {
    match v
    case Const(c) => c
    case Local(id) => env[id]
  }

  /** env is one of the environments the abstract state s stands for. */
  predicate Models(env: Env, s: StateMap)
  {
    forall k :: k in env ==> Contains(Lookup(s, k), env[k])
  }

  /**
   * One concrete step: arithmetic binds the integer result, icmp slt binds 1 or
   * 0 and any other icmp some value, a phi binds the value of one of its
   * incomings; an unsupported instruction with a result binds it to some value,
   * and one without a result changes nothing.
   */
  ghost predicate Exec(env: Env, inst: Inst, env': Env)
  {
    match inst
    case Add(res, x, y) =>
      Defined(env, x) && Defined(env, y) && env' == env[res := Value(env, x) + Value(env, y)]
    case Sub(res, x, y) =>
      Defined(env, x) && Defined(env, y) && env' == env[res := Value(env, x) - Value(env, y)]
    case Mul(res, x, y) =>
      Defined(env, x) && Defined(env, y) && env' == env[res := Value(env, x) * Value(env, y)]
    case ICmp(res, pred, x, y) =>
      Defined(env, x) && Defined(env, y) && res in env' && env' == env[res := env'[res]] &&
      (pred == SLT ==> env'[res] == if Value(env, x) < Value(env, y) then 1 else 0)
    case Phi(res, incs) =>
      exists j :: 0 <= j < |incs| && Defined(env, incs[j]) && env' == env[res := Value(env, incs[j])]
    case Unsupported(_, result) =>
      if result.Some? then result.value in env' && env' == env[result.value := env'[result.value]]
      else env' == env
  }

  /** A concrete run of a block: envs[i] is the environment before insts[i], the last one after the block. */
  ghost predicate ExecBlock(envs: seq<Env>, insts: seq<Inst>)
  {
    |envs| == |insts| + 1 &&
    forall i :: 0 <= i < |insts| ==> Exec(envs[i], insts[i], envs[i + 1])
  }

  lemma EvalArgumentSound(env: Env, s: StateMap, v: Operand)
    requires Models(env, s) && Defined(env, v)
    ensures Contains(EvalArgument(v, s), Value(env, v))
  {
  }

  /** The instruction is supported, or defines no value: everything it binds, the analysis binds too. */
  predicate Tracked(inst: Inst)
  {
    !(inst.Unsupported? && inst.result.Some?)
  }

  /**
   * Every concrete step of a tracked instruction from an environment of s ends
   * in an environment of the abstract post-state.
   */
  lemma InstSound(env: Env, s: StateMap, inst: Inst, env': Env)
    requires ValidState(s) && Models(env, s) && Tracked(inst) && Exec(env, inst, env')
    ensures Models(env', InstEffect(s, inst))
  {
    var r := InstEffect(s, inst);
    if !inst.Unsupported? {
      var res := inst.res;
      forall k | k in env' ensures Contains(Lookup(r, k), env'[k]) {
        if k != res {
          assert env'[k] == env[k];
        } else {
          match inst
          case Add(_, x, y) =>
            EvalArgumentSound(env, s, x);
            EvalArgumentSound(env, s, y);
            PlusSound(EvalArgument(x, s), EvalArgument(y, s), Value(env, x), Value(env, y));
          case Sub(_, x, y) =>
            EvalArgumentSound(env, s, x);
            EvalArgumentSound(env, s, y);
            MinusSound(EvalArgument(x, s), EvalArgument(y, s), Value(env, x), Value(env, y));
          case Mul(_, x, y) =>
            EvalArgumentSound(env, s, x);
            EvalArgumentSound(env, s, y);
            MultSound(EvalArgument(x, s), EvalArgument(y, s), Value(env, x), Value(env, y));
          case ICmp(_, pred, x, y) =>
            EvalArgumentSound(env, s, x);
            EvalArgumentSound(env, s, y);
            SLTSound(EvalArgument(x, s), EvalArgument(y, s), Value(env, x), Value(env, y));
          case Phi(_, incs) =>
            var j :| 0 <= j < |incs| && Defined(env, incs[j]) && env' == env[res := Value(env, incs[j])];
            EvalArgumentSound(env, s, incs[j]);
            PhiJoinIsLub(incs, s, InterTop());
            InterOrderSound(EvalArgument(incs[j], s), PhiJoin(incs, s), Value(env, incs[j]));
        }
      }
    }
  }

  /**
   * Every concrete run of a block whose instructions are all tracked, from an
   * environment of s, ends in an environment of its abstract post-state.
   */
  lemma {:induction false} BlockSound(envs: seq<Env>, s: StateMap, insts: seq<Inst>)
    requires ValidState(s) && ExecBlock(envs, insts) && Models(envs[0], s)
    requires forall i :: 0 <= i < |insts| ==> Tracked(insts[i])
    ensures Models(envs[|insts|], BlockEffect(s, insts))
  {
    if insts != [] {
      var n := |insts| - 1;
      assert ExecBlock(envs[..n + 1], insts[..n]);
      BlockSound(envs[..n + 1], s, insts[..n]);
      InstSound(envs[n], BlockEffect(s, insts[..n]), insts[n], envs[n + 1]);
    }
  }

  /**
   * Without that hypothesis soundness fails: t = a sdiv 2 is left unbound, so
   * u = t + 1 reads Bot, while a run from a = 4 gives t = 2 and u = 3.
   */
  lemma UntrackedResultUnsound()
    ensures var s := map["a" := Range(Endpoint(4), Endpoint(4))];
      var insts := [Unsupported("sdiv", Some("t")), Add("u", Local("t"), Const(1))];
      var envs: seq<Env> := [map["a" := 4], map["a" := 4, "t" := 2], map["a" := 4, "t" := 2, "u" := 3]];
      ExecBlock(envs, insts) && Models(envs[0], s) && !Models(envs[2], BlockEffect(s, insts))
  {
    var s := map["a" := Range(Endpoint(4), Endpoint(4))];
    var insts := [Unsupported("sdiv", Some("t")), Add("u", Local("t"), Const(1))];
    var envs: seq<Env> := [map["a" := 4], map["a" := 4, "t" := 2], map["a" := 4, "t" := 2, "u" := 3]];
    assert insts[..1] == [insts[0]] && insts[..1][..0] == [];
    assert Exec(envs[0], insts[0], envs[1]);
    assert Exec(envs[1], insts[1], envs[2]);
    assert Lookup(BlockEffect(s, insts), "u") == Bot;
    assert !Contains(Lookup(BlockEffect(s, insts), "u"), envs[2]["u"]);
  }

  // ---------------------------------------------------------------------------
  // Scenarios
  // ---------------------------------------------------------------------------

  /** a = 3 + 4 binds a to [7, 7]. */
  lemma ConstantFold()
    ensures Lookup(BlockEffect(map[], [Add("a", Const(3), Const(4))]), "a") == Range(Endpoint(7), Endpoint(7))
  {
    var insts := [Add("a", Const(3), Const(4))];
    assert insts[..0] == [];
  }

  /** With x unconstrained, y = x + 5 is unconstrained too. */
  lemma StraightLineAdd()
    ensures var s := map["x" := InterTop()];
      Lookup(BlockEffect(s, [Add("y", Local("x"), Const(5))]), "y") == InterTop()
  {
    var insts := [Add("y", Local("x"), Const(5))];
    assert insts[..0] == [];
  }

  /** A phi merging [1, 1] and [5, 5] binds [1, 5]. */
  lemma PhiMerge()
    ensures var s := map["p" := Range(Endpoint(1), Endpoint(1)), "q" := Range(Endpoint(5), Endpoint(5))];
      Lookup(BlockEffect(s, [Phi("v", [Local("p"), Local("q")])]), "v") == Range(Endpoint(1), Endpoint(5))
  {
    var insts := [Phi("v", [Local("p"), Local("q")])];
    var incs := [Local("p"), Local("q")];
    assert insts[..0] == [];
    assert incs[..1][..0] == [];
    assert incs[..1] == [Local("p")];
    var s := map["p" := Range(Endpoint(1), Endpoint(1)), "q" := Range(Endpoint(5), Endpoint(5))];
    assert PhiJoin(incs[..1], s) == Range(Endpoint(1), Endpoint(1));
    assert PhiJoin(incs, s) == InterJoin(Range(Endpoint(1), Endpoint(1)), Range(Endpoint(5), Endpoint(5)));
  }

  // ---------------------------------------------------------------------------
  // The transfer methods, updating a State in place
  // ---------------------------------------------------------------------------

  method TransferInstAdd(s: State, inst: Inst)
    requires inst.Add? && ValidState(s.bindings)
    modifies s
    ensures s.bindings ==
      old(s.bindings)[inst.res := InterPlus(EvalArgument(inst.x, old(s.bindings)), EvalArgument(inst.y, old(s.bindings)))]
  {
    var vx := EvalArgument(inst.x, s.bindings);
    var vy := EvalArgument(inst.y, s.bindings);
    WellBoundedDefined(vx, vy);
    s.Bind(inst.res, InterPlus(vx, vy));
  }

  method TransferInstSub(s: State, inst: Inst)
    requires inst.Sub? && ValidState(s.bindings)
    modifies s
    ensures s.bindings ==
      old(s.bindings)[inst.res := InterMinus(EvalArgument(inst.x, old(s.bindings)), EvalArgument(inst.y, old(s.bindings)))]
  {
    var vx := EvalArgument(inst.x, s.bindings);
    var vy := EvalArgument(inst.y, s.bindings);
    WellBoundedDefined(vx, vy);
    s.Bind(inst.res, InterMinus(vx, vy));
  }

  method TransferInstMul(s: State, inst: Inst)
    requires inst.Mul? && ValidState(s.bindings)
    modifies s
    ensures s.bindings ==
      old(s.bindings)[inst.res := InterMult(EvalArgument(inst.x, old(s.bindings)), EvalArgument(inst.y, old(s.bindings)))]
  {
    var vx := EvalArgument(inst.x, s.bindings);
    var vy := EvalArgument(inst.y, s.bindings);
    s.Bind(inst.res, InterMult(vx, vy));
  }

  method TransferInstICmp(s: State, inst: Inst)
    requires inst.ICmp? && ValidState(s.bindings)
    modifies s
    ensures inst.pred == SLT ==>
      s.bindings == old(s.bindings)[inst.res := InterSLT(EvalArgument(inst.x, old(s.bindings)), EvalArgument(inst.y, old(s.bindings)))]
    ensures inst.pred != SLT ==> s.bindings == old(s.bindings)[inst.res := InterTop()]
  {
    var vx := EvalArgument(inst.x, s.bindings);
    var vy := EvalArgument(inst.y, s.bindings);
    var itv := InterTop();
    if inst.pred == SLT {
      itv := InterSLT(vx, vy);
    }
    s.Bind(inst.res, itv);
  }

  method TransferInstPhi(s: State, inst: Inst)
    requires inst.Phi? && ValidState(s.bindings)
    modifies s
    ensures s.bindings == old(s.bindings)[inst.res := PhiJoin(inst.incs, old(s.bindings))]
  {
    var itv := InterBot();
    for i := 0 to |inst.incs|
      invariant itv == PhiJoin(inst.incs[..i], s.bindings)
    {
      assert inst.incs[..i + 1][..i] == inst.incs[..i];
      itv := InterJoin(itv, EvalArgument(inst.incs[i], s.bindings));
    }
    assert inst.incs[..|inst.incs|] == inst.incs;
    s.Bind(inst.res, itv);
  }

  /** Dispatches on the instruction kind; an unsupported instruction leaves the state unchanged. */
  method TransferInst(s: State, inst: Inst)
    requires ValidState(s.bindings)
    modifies s
    ensures s.bindings == InstEffect(old(s.bindings), inst)
  {
    match inst
    case Add(_, _, _) => TransferInstAdd(s, inst);
    case Sub(_, _, _) => TransferInstSub(s, inst);
    case Mul(_, _, _) => TransferInstMul(s, inst);
    case Phi(_, _) => TransferInstPhi(s, inst);
    case ICmp(_, _, _, _) => TransferInstICmp(s, inst);
    case Unsupported(_, _) =>
  }

  /** Applies the instructions of a block in order. */
  method TransferBlock(s: State, insts: seq<Inst>)
    requires ValidState(s.bindings)
    modifies s
    ensures s.bindings == BlockEffect(old(s.bindings), insts)
  {
    for i := 0 to |insts|
      invariant ValidState(s.bindings)
      invariant s.bindings == BlockEffect(old(s.bindings), insts[..i])
    {
      assert insts[..i + 1][..i] == insts[..i];
      TransferInst(s, insts[i]);
    }
    assert insts[..|insts|] == insts;
  }
}
