/**
 From statements to finished code: what the patched code of a function does, run by distances, is
 what its statements mean.
 */
module Programs {
  import opened Lang
  import opened Opcodes
  import opened Machine
  import opened Fragments
  import opened Jumps
  import opened Statements
  import opened Compiler
  import opened Blocks
  import Words
  import P = Patch
  import R = Registers

  // ----- a machine for whole functions -----

  type Semantics<!A> = (Ins, seq<Ins>, Regs) -> P.Outcome<Regs, A>

  function MoveReg(a: int, b: int, regs: Regs): Regs { regs[a := Get(regs, b)] }

  // The instructions with a handler of their own in the model; the others may mean anything.
  predicate Modelled(i: Ins)
  {
    (Plain(i) || i.op in {EQ, LT, LE, TEST}) && i.op != MOVE && i.op != NOP
  }

  function Lifted<A>(e: Effect, raise: Error -> A): P.Outcome<Regs, A>
  {
    match e
    case Fail(x) => P.Stop(raise(x))
    case Go(r, skip) => P.Go(r, skip)
  }

  ghost predicate Follows<A(!new)>(sem: Semantics<A>, raise: Error -> A, consts: seq<Value>, f: NumberFn)
  {
    forall i: Ins, words: seq<Ins>, regs: Regs ::
      Modelled(i) ==> sem(i, words, regs) == Lifted(Sem(i, consts, f, regs), raise)
  }

  function Reached<A>(exit: Exit, to: int, raise: Error -> A): P.Config<Regs, A>
    requires !exit.ToLabel?
  {
    if exit.Fall? then P.Running(to, exit.regs) else P.Over(P.Stopped(raise(exit.error)))
  }

  lemma StepOne<A(!new)>(code: seq<Ins>, labels: map<int, int>, nups: seq<nat>, consts: seq<Value>, f: NumberFn,
                         sem: Semantics<A>, raise: Error -> A, pc: int, regs: Regs)
    requires 0 <= pc < |code| && OneWord(code[pc]) && code[pc].op != JMP && Follows(sem, raise, consts, f)
    ensures P.Step(code, P.ByLabel(labels), nups, sem, MoveReg, P.Running(pc, regs)) ==
            (match Sem(code[pc], consts, f, regs)
             case Fail(x) => P.Over(P.Stopped(raise(x)))
             case Go(r, skip) => P.Running(pc + 1 + skip, r))
    ensures var effect := Sem(code[pc], consts, f, regs);
            effect.Go? ==> 0 <= effect.skip <= if Plain(code[pc]) then 0 else 1
  {
    var i := code[pc];
    if i.op != MOVE && i.op != NOP {
      assert Modelled(i);
      assert sem(i, P.Words(code, pc + 1, P.Payload(i, nups)), regs) == Lifted(Sem(i, consts, f, regs), raise);
      hide Sem, Follows;
      assert P.Payload(i, nups) == 0;
    }
  }

  ghost predicate Reaches<A(!new)>(code: seq<Ins>, mode: P.Labels, nups: seq<nat>, sem: Semantics<A>,
                                   c: P.Config<Regs, A>, d: P.Config<Regs, A>)
  {
    exists n: nat :: P.Run(code, mode, nups, sem, MoveReg, n, c) == d
  }

  lemma ReachesNext<A(!new)>(code: seq<Ins>, mode: P.Labels, nups: seq<nat>, sem: Semantics<A>,
                             c: P.Config<Regs, A>, d: P.Config<Regs, A>, e: P.Config<Regs, A>)
    requires P.Step(code, mode, nups, sem, MoveReg, c) == d && (d == e || Reaches(code, mode, nups, sem, d, e))
    ensures Reaches(code, mode, nups, sem, c, e)
  {
    P.OneStep(code, mode, nups, sem, MoveReg, c);
    hide P.Run;
    if d != e {
      var m: nat :| P.Run(code, mode, nups, sem, MoveReg, m, d) == e;
      P.RunTwice(code, mode, nups, sem, MoveReg, 1, m, c);
    }
  }

  // Walking a closed stretch is running the machine from its start to its end.
  lemma {:induction false} WalkRuns<A(!new)>(code: seq<Ins>, labels: map<int, int>, lo: int, from: int, to: int,
                                             nups: seq<nat>, consts: seq<Value>, f: NumberFn, sem: Semantics<A>,
                                             raise: Error -> A, pc: int, regs: Regs)
    requires Closed(code, labels, lo, from, to) && from <= pc <= to
    requires forall i :: from <= i < to ==> OneWord(code[i])
    requires Follows(sem, raise, consts, f)
    ensures !Walk(code, labels, lo, consts, f, to, pc, regs).ToLabel?
    ensures Reaches(code, P.ByLabel(labels), nups, sem, P.Running(pc, regs),
                    Reached(Walk(code, labels, lo, consts, f, to, pc, regs), to, raise))
    decreases (to - pc)
  {
    hide Sem, Follows, Plain, OneWord, P.Step, Reaches;
    var mode, c := P.ByLabel(labels), P.Running(pc, regs);
    if pc == to {
      NoSteps(code, mode, nups, sem, c);
    } else {
      assert Inner(code[pc], pc, labels, lo, to) && OneWord(code[pc]);
      var exit := Walk(code, labels, lo, consts, f, to, pc, regs);
      if code[pc].op == JMP {
        JumpStep(code, labels, nups, sem, pc, regs);
        var next := labels[code[pc].sbx] + 1;
        WalkRuns(code, labels, lo, from, to, nups, consts, f, sem, raise, next, regs);
        ReachesNext(code, mode, nups, sem, c, P.Running(next, regs), Reached(exit, to, raise));
      } else {
        StepOne(code, labels, nups, consts, f, sem, raise, pc, regs);
        match Sem(code[pc], consts, f, regs)
        case Fail(x) =>
          ReachesNext(code, mode, nups, sem, c, P.Over(P.Stopped(raise(x))), Reached(exit, to, raise));
        case Go(r, skip) =>
          WalkRuns(code, labels, lo, from, to, nups, consts, f, sem, raise, pc + 1 + skip, r);
          ReachesNext(code, mode, nups, sem, c, P.Running(pc + 1 + skip, r), Reached(exit, to, raise));
      }
    }
  }

  lemma NoSteps<A(!new)>(code: seq<Ins>, mode: P.Labels, nups: seq<nat>, sem: Semantics<A>, c: P.Config<Regs, A>)
    ensures Reaches(code, mode, nups, sem, c, c)
  {
    assert P.Run(code, mode, nups, sem, MoveReg, 0, c) == c;
  }

  lemma JumpStep<A(!new)>(code: seq<Ins>, labels: map<int, int>, nups: seq<nat>, sem: Semantics<A>, pc: int, regs: Regs)
    requires 0 <= pc < |code| && code[pc].op == JMP && code[pc].sbx in labels
    ensures P.Step(code, P.ByLabel(labels), nups, sem, MoveReg, P.Running(pc, regs)) ==
            P.Running(labels[code[pc].sbx] + 1, regs)
  {
  }

  // A configuration that is reached ends as the one it is reached from.
  lemma EndsAfter<A(!new)>(code: seq<Ins>, mode: P.Labels, nups: seq<nat>, sem: Semantics<A>,
                           c: P.Config<Regs, A>, d: P.Config<Regs, A>, e: P.End<Regs, A>)
    requires Reaches(code, mode, nups, sem, c, d)
    ensures P.Ends(code, mode, nups, sem, MoveReg, c, e) <==> P.Ends(code, mode, nups, sem, MoveReg, d, e)
  {
    hide P.Run;
    var n: nat :| P.Run(code, mode, nups, sem, MoveReg, n, c) == d;
    if P.Ends(code, mode, nups, sem, MoveReg, c, e) {
      var m: nat :| P.Run(code, mode, nups, sem, MoveReg, m, c) == P.Over(e);
      if m >= n {
        P.RunTwice(code, mode, nups, sem, MoveReg, n, m - n, c);
      } else {
        P.RunTwice(code, mode, nups, sem, MoveReg, m, n - m, c);
        P.OverStays(code, mode, nups, sem, MoveReg, n - m, P.Over(e));
        P.OverStays(code, mode, nups, sem, MoveReg, 0, d);
      }
    }
    if P.Ends(code, mode, nups, sem, MoveReg, d, e) {
      var m: nat :| P.Run(code, mode, nups, sem, MoveReg, m, d) == P.Over(e);
      P.RunTwice(code, mode, nups, sem, MoveReg, n, m, c);
    }
  }

  // ----- patched code -----

  // How running from a configuration ends, in patched code.
  ghost predicate Finishes<A(!new)>(post: seq<Ins>, nups: seq<nat>, sem: Semantics<A>, c: P.Config<Regs, A>,
                                    e: P.End<Regs, A>)
  {
    P.Ends(post, P.ByDistance, nups, sem, MoveReg, c, e)
  }

  // Code that patching keeps: what the label jumps of `whole` do is what those of the patched code do.
  ghost predicate Patched(whole: seq<Ins>, post: seq<Ins>, labels: map<int, int>, nups: seq<nat>)
  {
    && P.WellFormed(whole, nups) && P.NoJumpBackToJump(whole, labels)
    && P.PatchFrom(whole, labels, nups, 0, 0) == P.Done(post)
  }

  lemma OverEnds<A(!new)>(code: seq<Ins>, mode: P.Labels, nups: seq<nat>, sem: Semantics<A>, d: P.End<Regs, A>,
                          e: P.End<Regs, A>)
    ensures P.Ends(code, mode, nups, sem, MoveReg, P.Over(d), e) <==> e == d
  {
    hide P.Run;
    if P.Ends(code, mode, nups, sem, MoveReg, P.Over(d), e) {
      var n: nat :| P.Run(code, mode, nups, sem, MoveReg, n, P.Over(d)) == P.Over(e);
      P.OverStays(code, mode, nups, sem, MoveReg, n, P.Over(d));
    }
    P.OverStays(code, mode, nups, sem, MoveReg, 0, P.Over(d));
  }

  // A realized block, anywhere in patched code and entered with any registers: it ends the run with the
  // error its statements raise, and otherwise the run ends as one from behind the block does, with the
  // locals as the statements leave them.
  lemma BlockRuns<A(!new)>(ss: seq<Stmt>, whole: seq<Ins>, post: seq<Ins>, labels: map<int, int>, lo: int,
                           consts: seq<Value>, names: seq<string>, f: NumberFn, from: int, to: int, nups: seq<nat>,
                           sem: Semantics<A>, raise: Error -> A, regs: Regs)
      returns (after: Regs)
    requires Realizes(ss, whole, labels, lo, consts, names, f, from, to) && Fits(whole[from..to])
    requires forall i :: from <= i < to ==> OneWord(whole[i])
    requires Patched(whole, post, labels, nups) && Follows(sem, raise, consts, f)
    ensures
      match ExecAll(ss, EnvOf(names, regs), f)
      case Err(x) => forall e :: Finishes(post, nups, sem, P.Running(from, regs), e) <==> e == P.Stopped(raise(x))
      case Ok(env) =>
        && EnvOf(names, after) == env
        && forall e ::
          Finishes(post, nups, sem, P.Running(from, regs), e) <==> Finishes(post, nups, sem, P.Running(to, after), e)
  {
    assert RunsAt(ss, whole, labels, lo, consts, names, f, from, to, regs);
    var exit := Walk(whole, labels, lo, consts, f, to, from, regs);
    after := if exit.Fall? then exit.regs else regs;
    hide Walk, ExecAll, EnvOf, Closed, OneWord, P.WellFormed, P.NoJumpBackToJump, Reaches, Follows;
    WalkRuns(whole, labels, lo, from, to, nups, consts, f, sem, raise, from, regs);
    var start, target := P.Running(from, regs), Reached(exit, to, raise);
    forall e ensures Finishes(post, nups, sem, start, e) <==> Finishes(post, nups, sem, target, e) {
      P.PatchPreservesRuns(whole, labels, nups, sem, MoveReg, start, e);
      EndsAfter(whole, P.ByLabel(labels), nups, sem, start, target, e);
      P.PatchPreservesRuns(whole, labels, nups, sem, MoveReg, target, e);
    }
    if exit.Raised? {
      forall e ensures Finishes(post, nups, sem, target, e) <==> e == P.Stopped(raise(exit.error)) {
        OverEnds(post, P.ByDistance, nups, sem, P.Stopped(raise(exit.error)), e);
      }
    }
  }

  // ----- whole functions -----

  // What every function ends with.
  const RETURN_NOTHING := ABC(RETURN, 0, 1, 0)

  // The code of a function: that of its block and a return, patched, within the register bound.
  ghost predicate Compiled(code: seq<Ins>, numUsedRegs: int, consts: seq<Value>, block: seq<Ins>, labels: map<int, int>,
                           ss: seq<Stmt>, params: seq<string>, f: NumberFn)
  {
    && OneWords(block)
    && Realizes(ss, block + [RETURN_NOTHING], labels, 1, consts, params, f, 0, |block|)
    && P.PatchFrom(block + [RETURN_NOTHING], labels, [], 0, 0) == P.Done(code)
    && numUsedRegs == R.MaxRegister(code, [], |params|) + 1 <= MAX_REGISTERS
  }

  lemma BlockPatched(block: seq<Ins>, labels: map<int, int>, post: seq<Ins>)
    requires OneWords(block) && Closed(block + [RETURN_NOTHING], labels, 1, 0, |block|)
    requires P.PatchFrom(block + [RETURN_NOTHING], labels, [], 0, 0) == P.Done(post)
    ensures Patched(block + [RETURN_NOTHING], post, labels, [])
  {
    var whole := block + [RETURN_NOTHING];
    hide P.PatchFrom;
    forall i | 0 <= i < |whole| ensures P.WellFormedAt(whole, [], i) {
      if i < |block| {
        assert OneWord(block[i]) && whole[i] == block[i];
      }
    }
    forall i | 0 <= i < |whole| && whole[i].op == JMP ensures P.LabelPc(labels, whole[i].sbx) >= i {
      assert Inner(whole[i], i, labels, 1, |block|);
    }
    P.ForwardCode(whole, labels);
  }

  // ----- the register bound -----

  lemma {:induction false} MovesCover(max: int, code: seq<Ins>, from: nat, n: int, j: nat)
    requires from <= j < from + n && j < |code|
    ensures code[j].a <= R.Moves(max, code, from, n)
    decreases n
  {
    var m := Words.Max(Words.Max(max, code[from].a), code[from].b);
    if j > from {
      MovesCover(m, code, from + 1, n - 1, j);
    } else {
      R.MovesGrow(m, code, from + 1, n - 1);
    }
  }

  predicate OneWordOrReturn(i: Ins) { (OneWord(i) && Upward(i)) || i == RETURN_NOTHING }

  // The first words the bound of patched code is computed from: a register each, below the bound.
  lemma PatchedStep(pre: seq<Ins>, post: seq<Ins>, labels: map<int, int>, max: int, pc: nat) returns (next: nat)
    requires P.AllRelated(pre, post, labels, []) && pc < |pre|
    requires forall k :: 0 <= k < |pre| ==> OneWordOrReturn(pre[k])
    requires R.MaxFrom(max, post, [], pc) < BIT_RK
    ensures pc < next && forall k :: pc <= k < next && k < |pre| ==> 0 <= pre[k].a < BIT_RK
    ensures R.MaxFrom(R.Bumped(max, post, [], pc), post, [], next) < BIT_RK
  {
    hide R.MaxFrom, R.Bumped, R.Extra, OneWord, P.AllRelated, P.Leads;
    RelatedAt(pre, post, labels, pc);
    next := pc + 1 + Words.Max(0, R.Extra(post, [], pc));
    R.MaxStep(max, post, [], pc);
    R.MaxGrows(R.Bumped(max, post, [], pc), post, [], next);
    assert OneWordOrReturn(pre[pc]);
    if post[pc].op == MOVEN {
      FusedStep(pre, post, labels, max, pc);
    } else {
      SingleStep(pre[pc], post, max, pc);
    }
  }

  lemma RelatedAt(pre: seq<Ins>, post: seq<Ins>, labels: map<int, int>, k: nat)
    requires P.AllRelated(pre, post, labels, []) && k < |pre|
    ensures |post| == |pre| && P.Related(pre, post, labels, [], k) && post[k].a == pre[k].a
  {
  }

  lemma FusedStep(pre: seq<Ins>, post: seq<Ins>, labels: map<int, int>, max: int, pc: nat)
    requires P.AllRelated(pre, post, labels, []) && pc < |pre|
    requires forall k :: 0 <= k < |pre| ==> OneWordOrReturn(pre[k])
    requires |post| == |pre| && post[pc].op == MOVEN && R.Bumped(max, post, [], pc) < BIT_RK
    ensures forall k :: pc <= k < pc + 1 + Words.Max(0, R.Extra(post, [], pc)) && k < |pre| ==> 0 <= pre[k].a < BIT_RK
  {
    hide P.AllRelated;
    var n := post[pc].c;
    var m := Words.Max(Words.Max(max, post[pc].a), post[pc].b);
    RelatedAt(pre, post, labels, pc);
    R.MovesGrow(m, post, pc + 1, n);
    forall k | pc <= k < pc + 1 + Words.Max(0, n) && k < |pre| ensures 0 <= pre[k].a < BIT_RK {
      RelatedAt(pre, post, labels, k);
      assert OneWordOrReturn(pre[k]);
      if k > pc {
        MovesCover(m, post, pc + 1, n, k);
      }
    }
  }

  lemma SingleStep(i: Ins, post: seq<Ins>, max: int, pc: nat)
    requires pc < |post| && OneWordOrReturn(i) && R.Bumped(max, post, [], pc) < BIT_RK
    requires post[pc] == i || (i.op == JMP && (post[pc] == i.(op := NOP) || post[pc] == i.(sbx := post[pc].sbx)))
    ensures 0 <= i.a < BIT_RK && R.Extra(post, [], pc) == 0
  {
    if OneWord(i) && Upward(i) {
      assert OneWord(post[pc]) && Upward(post[pc]);
      R.OneWordBumps(max, post, [], pc);
    }
  }

  lemma {:induction false} PatchedFits(pre: seq<Ins>, post: seq<Ins>, labels: map<int, int>, max: int, pc: nat)
    requires |post| == |pre| && P.AllRelated(pre, post, labels, [])
    requires forall k :: 0 <= k < |pre| ==> OneWordOrReturn(pre[k])
    requires R.MaxFrom(max, post, [], pc) < BIT_RK
    ensures forall k :: pc <= k < |pre| ==> 0 <= pre[k].a < BIT_RK
    decreases |pre| - pc
  {
    hide R.MaxFrom, R.Bumped, P.AllRelated, OneWordOrReturn;
    if pc < |pre| {
      var next := PatchedStep(pre, post, labels, max, pc);
      PatchedFits(pre, post, labels, R.Bumped(max, post, [], pc), next);
    }
  }

  lemma CompiledFits(code: seq<Ins>, numUsedRegs: int, consts: seq<Value>, block: seq<Ins>, labels: map<int, int>,
                     ss: seq<Stmt>, params: seq<string>, f: NumberFn)
    requires Compiled(code, numUsedRegs, consts, block, labels, ss, params, f)
    ensures var whole := block + [RETURN_NOTHING]; Patched(whole, code, labels, []) && Fits(whole[0..|block|])
  {
    var whole := block + [RETURN_NOTHING];
    BlockPatched(block, labels, code);
    hide P.PatchFrom, P.WellFormed, P.NoJumpBackToJump, P.AllRelated, R.MaxFrom, OneWord, Realizes;
    P.NothingPatched(whole, labels, []);
    P.PatchRelates(whole, whole, labels, [], 0, 0);
    RelatedLength(whole, code, labels);
    forall k | 0 <= k < |whole| ensures OneWordOrReturn(whole[k]) {
    }
    PatchedFits(whole, code, labels, if |params| > 1 then |params| else 1, 0);
  }

  lemma RelatedLength(pre: seq<Ins>, post: seq<Ins>, labels: map<int, int>)
    requires P.AllRelated(pre, post, labels, [])
    ensures |post| == |pre|
  {
  }

  // A compiled function, run from its first instruction with any registers: it stops with the error its
  // statements raise; and otherwise it ends as it does from its return, with the locals as the statements
  // leave them.
  lemma CompiledRuns<A(!new)>(code: seq<Ins>, numUsedRegs: int, consts: seq<Value>, block: seq<Ins>,
                              labels: map<int, int>, ss: seq<Stmt>, params: seq<string>, f: NumberFn,
                              sem: Semantics<A>, raise: Error -> A, regs: Regs)
      returns (after: Regs)
    requires Compiled(code, numUsedRegs, consts, block, labels, ss, params, f) && Follows(sem, raise, consts, f)
    ensures
      match ExecAll(ss, EnvOf(params, regs), f)
      case Err(x) => forall e :: Finishes(code, [], sem, P.Running(0, regs), e) <==> e == P.Stopped(raise(x))
      case Ok(env) =>
        && EnvOf(params, after) == env
        && forall e ::
          Finishes(code, [], sem, P.Running(0, regs), e) <==> Finishes(code, [], sem, P.Running(|block|, after), e)
    ensures |code| == |block| + 1 && code[|block|] == RETURN_NOTHING
  {
    var whole := block + [RETURN_NOTHING];
    CompiledFits(code, numUsedRegs, consts, block, labels, ss, params, f);
    ReturnKept(whole, code, labels);
    forall i | 0 <= i < |block| ensures OneWord(whole[i]) {
    }
    hide Realizes, Patched, Fits, Follows, Finishes, ExecAll, EnvOf, OneWord, P.PatchFrom, R.MaxRegister;
    after := BlockRuns(ss, whole, code, labels, 1, consts, params, f, 0, |block|, [], sem, raise, regs);
  }

  lemma ReturnKept(whole: seq<Ins>, post: seq<Ins>, labels: map<int, int>)
    requires Patched(whole, post, labels, []) && whole != [] && whole[|whole| - 1] == RETURN_NOTHING
    ensures |post| == |whole| && post[|post| - 1] == RETURN_NOTHING
  {
    hide P.PatchFrom, P.WellFormed, P.NoJumpBackToJump, P.AllRelated;
    P.NothingPatched(whole, labels, []);
    P.PatchRelates(whole, whole, labels, [], 0, 0);
    RelatedAt(whole, post, labels, |whole| - 1);
  }

  // patchCode, with the check of the register bound
  method PatchAndBound(whole: seq<Ins>, labels: map<int, int>, numParameters: nat)
    returns (status: Status, code: seq<Ins>, numUsedRegs: int)
    ensures status != TooManyConstants
    ensures status == TooLongToJump <==> P.PatchFrom(whole, labels, [], 0, 0).TooLongToJump?
    ensures status != TooLongToJump ==> P.PatchFrom(whole, labels, [], 0, 0) == P.Done(code)
    ensures status != TooLongToJump ==> numUsedRegs == R.MaxRegister(code, [], numParameters) + 1
    ensures status != TooLongToJump ==> (status.Fine? <==> numUsedRegs <= MAX_REGISTERS)
  {
    hide P.PatchFrom, R.MaxFrom;
    code, numUsedRegs := [], 0;
    var a := new Ins[|whole|](i requires 0 <= i < |whole| => whole[i]);
    assert a[..] == whole;
    var ok := P.PatchCode(a, labels, []);
    if !ok {
      return TooLongToJump, code, numUsedRegs;
    }
    code := a[..];
    var maxreg := R.MaxRegisterUsed(code, [], numParameters);
    numUsedRegs := maxreg + 1;
    status := if numUsedRegs > MAX_REGISTERS then RegisterOverflow else Fine;
  }

  // The statements of a function and its return, before patching.
  method EmitFunction(f: NumberFn, params: seq<string>, ss: seq<Stmt>)
    returns (status: Status, block: seq<Ins>, labels: map<int, int>, consts: seq<Value>)
    requires |params| <= MAX_REGISTERS && forall i :: 0 <= i < |ss| ==> ScopedStmt(ss[i], params)
    ensures status.Fine? ==> OneWords(block) && Realizes(ss, block, labels, 1, consts, params, f, 0, |block|)
  {
    hide ScopedStmt, Realizes, OneWords, Distinct, GrownTo;
    block, labels, consts := [], map[], [];
    var c := new FuncContext(f, params);
    status := CompileBlock(c, ss);
    if status.Fine? {
      block, labels, consts := c.codes[..c.pc], c.labelPc, c.constants;
    }
  }

  // compileFunctionExpr of a function without varargs, upvalues and nested functions
  method CompileFunction(f: NumberFn, params: seq<string>, ss: seq<Stmt>)
    returns (status: Status, code: seq<Ins>, consts: seq<Value>, numUsedRegs: int, ghost block: seq<Ins>,
             ghost labels: map<int, int>)
    requires forall i :: 0 <= i < |ss| ==> ScopedStmt(ss[i], params)
    ensures |params| > MAX_REGISTERS ==> status.RegisterOverflow?
    ensures status.Fine? ==> Compiled(code, numUsedRegs, consts, block, labels, ss, params, f)
  {
    hide ScopedStmt, Realizes, OneWords, P.PatchFrom, R.MaxRegister;
    code, consts, numUsedRegs, block, labels := [], [], 0, [], map[];
    if |params| > MAX_REGISTERS {
      return RegisterOverflow, code, consts, numUsedRegs, block, labels;
    }
    var emitted, labelPc;
    status, emitted, labelPc, consts := EmitFunction(f, params, ss);
    if status.Fine? {
      BlockReturned(ss, emitted, labelPc, consts, params, f);
      block, labels := emitted, labelPc;
      status, code, numUsedRegs := PatchAndBound(emitted + [RETURN_NOTHING], labelPc, |params|);
    }
  }

  lemma BlockReturned(ss: seq<Stmt>, block: seq<Ins>, labels: map<int, int>, consts: seq<Value>, params: seq<string>,
                      f: NumberFn)
    requires Realizes(ss, block, labels, 1, consts, params, f, 0, |block|)
    ensures Realizes(ss, block + [RETURN_NOTHING], labels, 1, consts, params, f, 0, |block|)
  {
    hide Realizes;
    SameExtends(labels);
    RealizedLater(ss, block, block + [RETURN_NOTHING], labels, labels, 1, 1, consts, consts, params, f, 0, |block|);
  }
}
