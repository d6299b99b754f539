/**
 The expression compiler: code store, constant pool, constant folding, and the propagation that
 turns a trailing LOADK or MOVE into an operand.
 */
module Compiler {
  import opened Uint256
  import opened Lang
  import opened Opcodes
  import opened Machine
  import opened Fragments
  import opened Jumps
  import opened Assignments

  // raiseCompileError
  datatype Status = Fine | TooManyConstants | TooLongToJump | RegisterOverflow {
    predicate IsFailure() { !Fine? }
    function PropagateFailure(): Status { this }
  }

  // expcontext: a fresh register, or the register of a local
  datatype ExpContext = Fresh | Local(reg: nat)

  function SaveReg(ec: ExpContext, reg: nat): nat { if ec.Local? then ec.reg else reg }

  const MAX_REGISTERS := 200

  const NO_INSTRUCTION := Ins(RAW, -1, -1, -1, -1, 0, 0)

  ghost predicate Distinct(values: seq<Value>)
  {
    forall i, j :: 0 <= i < j < |values| ==> values[i] != values[j]
  }

  // Code and constants grew at the end.
  ghost predicate After(code: seq<Ins>, consts: seq<Value>, more: seq<Ins>, moreConsts: seq<Value>)
  {
    |code| <= |more| && more[..|code|] == code && consts <= moreConsts
  }

  lemma AfterSame(code: seq<Ins>, consts: seq<Value>)
    ensures After(code, consts, code, consts)
  {
  }

  // What AddLoadNil does to code that starts with code0 and has more behind it.
  lemma AfterNil(code0: seq<Ins>, consts0: seq<Value>, code: seq<Ins>, consts: seq<Value>, more: seq<Ins>, d: int)
    requires After(code0, consts0, code, consts) && |code0| < |code|
    requires more == NilAdded(code, d)
    ensures After(code0, consts0, more, consts) && |code0| < |more|
    ensures more[|code0|..] == NilAdded(code[|code0|..], d)
  {
  }

  lemma AfterTwo(code0: seq<Ins>, consts0: seq<Value>, code1: seq<Ins>, consts1: seq<Value>, code2: seq<Ins>,
                 consts2: seq<Value>)
    requires After(code0, consts0, code1, consts1) && After(code1, consts1, code2, consts2)
    ensures After(code0, consts0, code2, consts2)
    ensures |code0| <= |code2|
    ensures |code1| <= |code2| && code2[..|code1|] == code1 && consts1 <= consts2
    ensures code2[|code0|..] == code1[|code0|..] + code2[|code1|..]
    ensures code2[|code0|..|code1|] == code1[|code0|..]
  {
    assert code2[..|code1|][..|code0|] == code2[..|code0|];
    assert code2[..|code1|][|code0|..] == code2[|code0|..|code1|];
  }

  lemma AfterAdd(code0: seq<Ins>, consts0: seq<Value>, code1: seq<Ins>, consts1: seq<Value>, i: Ins)
    requires After(code0, consts0, code1, consts1)
    ensures After(code0, consts0, code1 + [i], consts1)
    ensures (code1 + [i])[|code0|..] == code1[|code0|..] + [i]
  {
    assert (code1 + [i])[..|code0|] == code1[..|code0|];
  }

  // Two conditions compiled in sequence, with the label lo placed after the first.
  lemma JunctionDecides(c: Expr, code0: seq<Ins>, consts0: seq<Value>, code1: seq<Ins>, consts1: seq<Value>,
                        code2: seq<Ins>, consts2: seq<Value>, labels0: map<int, int>, labels1: map<int, int>,
                        labels2: map<int, int>, lo: int, lo2: int, names: seq<string>, f: NumberFn, t: int, e: int,
                        hasNext: bool, reg: int)
    requires c.And? || c.Or?
    requires After(code0, consts0, code1, consts1) && After(code1, consts1, code2, consts2)
    requires Below(labels0, lo) && LabelsAdded(labels0, labels1, lo + 1)
    requires LabelsAdded(labels1[lo := |code1| - 1], labels2, lo2) && lo < lo2 && t < lo && e < lo && |names| <= reg
    requires Decides(c.lhs, code1, labels1, lo + 1, consts1, names, f, |code0|, |code1|, if c.And? then lo else t,
                     if c.And? then e else lo, c.Or?, reg)
    requires Decides(c.rhs, code2, labels2, lo2, consts2, names, f, |code1|, |code2|, t, e, hasNext, reg)
    ensures After(code0, consts0, code2, consts2) && |code0| <= |code2|
    ensures LabelsAdded(labels0, labels2, lo)
    ensures Decides(c, code2, labels2, lo, consts2, names, f, |code0|, |code2|, t, e, hasNext, reg)
  {
    hide Decides, After, LabelsAdded, Extends, Below;
    AfterTwo(code0, consts0, code1, consts1, code2, consts2);
    LabelsJoin(labels0, labels1, lo, |code1| - 1, labels2, lo2);
    assert Joined(code1, code2, labels1, labels2, lo, lo2, |code1|, |code2|);
    hide Joined;
    JoinedDecides(c.lhs, c.rhs, c.And?, code1, code2, labels1, labels2, lo, lo2, consts1, consts2, names, f, |code0|,
                  |code1|, |code2|, t, e, hasNext, reg);
  }

  class FuncContext {
    const arith: NumberFn

    // codeStore; a popped instruction stays beyond pc until it is overwritten
    var codes: seq<Ins>
    var pc: nat
    var loadNilBarrier: bool

    var constants: seq<Value>
    var names: seq<string>
    var regTop: nat
    var labelId: nat
    var labelPc: map<int, int>

    ghost predicate Valid()
      reads this
    {
      && pc <= |codes|
      && |constants| <= MAX_ARG_BX + 1
      && Distinct(constants)
      && |names| <= regTop <= MAX_REGISTERS
      && Below(labelPc, labelId)
      && OneWords(codes[..pc])
    }

    // codeStore.List
    ghost function Code(): (code: seq<Ins>)
      reads this
      requires pc <= |codes|
      ensures |code| == pc
    {
      codes[..pc]
    }

    // Code and constants grew at the end; names, registers and labels are as before.
    twostate predicate Emitted()
      reads this
      requires old(pc) <= |old(codes)|
    {
      && pc <= |codes|
      && After(old(Code()), old(constants), Code(), constants)
      && names == old(names)
      && regTop == old(regTop)
      && labelId == old(labelId)
      && labelPc == old(labelPc)
    }

    // Code and constants grew at the end, and only new labels were placed.
    twostate predicate Grown()
      reads this
      requires old(pc) <= |old(codes)|
    {
      && pc <= |codes|
      && After(old(Code()), old(constants), Code(), constants)
      && names == old(names)
      && regTop == old(regTop)
      && labelId >= old(labelId)
      && LabelsAdded(old(labelPc), labelPc, old(labelId))
    }

    constructor (f: NumberFn, locals: seq<string>)
      requires |locals| <= MAX_REGISTERS
      ensures Valid() && arith == f && Code() == [] && names == locals && regTop == |locals|
      ensures labelId == 1 && labelPc == map[] && constants == []
    {
      arith := f;
      codes, pc, loadNilBarrier := [], 0, false;
      constants, names, regTop := [], locals, |locals|;
      labelId, labelPc := 1, map[];
    }

    // ----- the code store -----

    method Add(i: Ins)
      requires pc <= |codes|
      modifies `codes, `pc
      ensures pc == old(pc) + 1 <= |codes|
      ensures Code() == old(Code()) + [i]
      ensures OneWords(old(Code())) && OneWord(i) && Upward(i) ==> OneWords(Code())
    {
      hide OneWord;
      if pc == |codes| {
        codes := codes + [i];
      } else {
        codes := codes[pc := i];
      }
      pc := pc + 1;
    }

    method AddASbx(op: Op, a: int, sbx: int)
      requires pc <= |codes|
      modifies `codes, `pc, `loadNilBarrier
      ensures pc == old(pc) + 1 <= |codes|
      ensures Code() == old(Code()) + [ASbx(op, a, sbx)]
      ensures OneWords(old(Code())) && OneWord(ASbx(op, a, sbx)) && Upward(ASbx(op, a, sbx)) ==> OneWords(Code())
      ensures loadNilBarrier == (old(loadNilBarrier) || op == JMP)
      ensures old(Valid()) && OneWord(ASbx(op, a, sbx)) && Upward(ASbx(op, a, sbx)) ==> Valid()
    {
      hide OneWord, OneWords;
      Add(ASbx(op, a, sbx));
      if op == JMP {
        loadNilBarrier := true;
      }
    }

    function Last(): Ins
      reads this
      requires pc <= |codes|
    {
      if pc == 0 then NO_INSTRUCTION else codes[pc - 1]
    }

    // Adjacent nil ranges merge, unless a jump was emitted in between.
    method AddLoadNil(a: nat, b: nat)
      requires pc <= |codes|
      modifies `codes, `pc, `loadNilBarrier
      ensures pc <= |codes| && !loadNilBarrier
      ensures
        if !old(loadNilBarrier) && old(pc) > 0 && old(Last()).op == LOADNIL && old(Last()).b + 1 == a then
          Code() == old(Code())[..old(pc) - 1] + [old(Last()).(b := b)]
        else
          Code() == old(Code()) + [ABC(LOADNIL, a, b, 0)]
      ensures OneWords(old(Code())) && a <= b ==> OneWords(Code())
    {
      var last := Last();
      if !loadNilBarrier && last.op == LOADNIL && last.b + 1 == a {
        codes := codes[pc - 1 := last.(b := b)];
      } else {
        Add(ABC(LOADNIL, a, b, 0));
      }
      loadNilBarrier := false;
    }

    // PropagateKMV; PropagateMV when constants are not wanted
    method Propagate(constantsToo: bool, top: nat, reg: nat, inc: nat) returns (save: int, next: nat)
      requires 0 < pc <= |codes|
      modifies `pc
      ensures var last := old(Last());
              if last.a >= top && constantsToo && last.op == LOADK && last.bx <= MAX_INDEX_RK then
                pc == old(pc) - 1 && save == RkAsk(last.bx) && next == reg
              else if last.a >= top && last.op == MOVE then
                pc == old(pc) - 1 && save == last.b && next == reg
              else
                pc == old(pc) && save == reg && next == reg + inc
      ensures OneWords(old(Code())) ==> OneWords(Code())
    {
      var last := Last();
      if last.a >= top {
        if constantsToo && last.op == LOADK {
          if last.bx <= MAX_INDEX_RK {
            pc := pc - 1;
            return RkAsk(last.bx), reg;
          }
        } else if last.op == MOVE {
          pc := pc - 1;
          return last.b, reg;
        }
      }
      return reg, reg + inc;
    }

    // ----- the constant pool -----

    // The index of a value, appended only when it is not there yet.
    method ConstIndex(value: Value) returns (status: Status, index: nat)
      requires Valid()
      modifies `constants
      ensures old(constants) <= constants
      ensures value in old(constants) ==> constants == old(constants)
      ensures value !in old(constants) ==> constants == old(constants) + [value]
      ensures status.Fine? <==> |constants| <= MAX_ARG_BX + 1
      ensures status.Fine? ==> Valid() && index < |constants| && constants[index] == value
    {
      for i := 0 to |constants|
        invariant value !in constants[..i]
      {
        if constants[i] == value {
          return Fine, i;
        }
      }
      constants := constants + [value];
      index := |constants| - 1;
      if index > MAX_ARG_BX {
        return TooManyConstants, index;
      }
      status := Fine;
    }

    // FindLocalVar
    method FindLocalVar(name: string) returns (r: int)
      ensures r == Slot(names, name)
    {
      hide Slot;
      r := |names| - 1;
      assert names[..|names|] == names;
      while r >= 0
        invariant -1 <= r < |names|
        invariant Slot(names, name) == Slot(names[..r + 1], name)
      {
        SlotStep(names[..r + 1], name);
        assert names[..r + 1][..r] == names[..r];
        if names[r] == name {
          return;
        }
        r := r - 1;
      }
      SlotStep(names[..0], name);
    }

    // ----- expressions -----

    // What is at the end of the code after an expression was compiled into dest.
    ghost predicate Ends(from: nat, dest: int)
      reads this
      requires from <= pc <= |codes|
    {
      && from < pc
      && var last := Code()[pc - 1];
      && last.a == dest && last.op != LOADNIL
      && (last.op == MOVE || last.op == LOADK ==> pc == from + 1)
      && (last.op == MOVE ==> 0 <= last.b < |names| && last == ABC(MOVE, dest, last.b, 0))
      && (last.op == LOADK ==> 0 <= last.bx < |constants| && last == ABx(LOADK, dest, last.bx))
    }

    method LoadConstant(reg: nat, dest: nat, n: U256) returns (status: Status)
      requires Valid()
      modifies this
      ensures status.Fine? ==>
        && Valid() && Emitted() && old(pc) <= pc && Ends(old(pc), dest)
        && Computes(Number(n), Code()[old(pc)..], constants, names, arith, dest, reg)
    {
      hide Computes, Distinct, OneWords;
      var index :- ConstIndex(Num(n));
      AfterAdd(old(Code()), old(constants), old(Code()), constants, ABx(LOADK, dest, index));
      Add(ABx(LOADK, dest, index));
      hide After;
      ConstantComputes(n, index, constants, names, arith, dest, reg);
      assert Code()[old(pc)..] == [ABx(LOADK, dest, index)];
      status := Fine;
    }

    // One instruction does it.
    method Emit(reg: nat, ghost e: Expr, dest: nat, i: Ins)
      requires Valid() && i.a == dest && Plain(i) && i.op != LOADK && i.op != LOADNIL
      requires i.op == MOVE ==> 0 <= i.b < |names| && i == ABC(MOVE, dest, i.b, 0)
      requires Computes(e, [i], constants, names, arith, dest, reg)
      modifies this
      ensures Valid() && Emitted() && old(pc) <= pc && Ends(old(pc), dest)
      ensures Computes(e, Code()[old(pc)..], constants, names, arith, dest, reg)
    {
      hide Computes, Distinct, OneWords;
      Add(i);
      AfterAdd(old(Code()), old(constants), old(Code()), constants, i);
      assert Code()[old(pc)..] == [i];
    }

    // The code computes e, into the local when there is one and otherwise into reg, and keeps every
    // other register below reg.
    method CompileExpr(reg: nat, e: Expr, ec: ExpContext) returns (status: Status, used: nat)
      requires Valid() && Simple(e) && Scoped(e, names)
      requires regTop <= reg && (ec.Local? ==> ec.reg < regTop)
      modifies this
      decreases e, 2
      ensures used == if ec.Local? then 0 else 1
      ensures status.Fine? ==>
        && Valid() && Emitted() && old(pc) <= pc && Ends(old(pc), SaveReg(ec, reg))
        && Computes(e, Code()[old(pc)..], constants, names, arith, SaveReg(ec, reg), reg)
    {
      hide Computes, Eval, Slot, Distinct, After, OneWords;
      var sreg := SaveReg(ec, reg);
      used := if sreg < reg then 0 else 1;
      match e
      case Number(n) =>
        status := LoadConstant(reg, sreg, n);
      case FalseExpr =>
        BooleanComputes(false, constants, names, arith, sreg, reg);
        Emit(reg, e, sreg, ABC(LOADBOOL, sreg, 0, 0));
        status := Fine;
      case TrueExpr =>
        BooleanComputes(true, constants, names, arith, sreg, reg);
        Emit(reg, e, sreg, ABC(LOADBOOL, sreg, 1, 0));
        status := Fine;
      case Ident(x) =>
        var b := FindLocalVar(x);
        LocalComputes(x, constants, names, arith, sreg, reg);
        Emit(reg, e, sreg, ABC(MOVE, sreg, b, 0));
        status := Fine;
      case Arith(op, l, r) =>
        status := CompileArithmeticOp(reg, e, ec);
    }

    method CompileArithmeticOp(reg: nat, e: Expr, ec: ExpContext) returns (status: Status)
      requires Valid() && e.Arith? && PureArith(e) && Scoped(e, names)
      requires regTop <= reg && (ec.Local? ==> ec.reg < regTop)
      modifies this
      decreases e, 1
      ensures status.Fine? ==>
        && Valid() && Emitted() && old(pc) <= pc && Ends(old(pc), SaveReg(ec, reg))
        && Computes(e, Code()[old(pc)..], constants, names, arith, SaveReg(ec, reg), reg)
    {
      hide Computes, Delivers, Slot, ConstFold, Distinct, OneWords;
      var folded := ConstFold(e, arith);
      FoldShape(e, arith);
      if folded.Number? {
        status := LoadConstant(reg, SaveReg(ec, reg), folded.n);
        if status.Fine? {
          FoldedComputes(e, Code()[old(pc)..], constants, names, arith, SaveReg(ec, reg), reg);
        }
        return;
      }
      var a := SaveReg(ec, reg);
      var b, c :- CompilePair(reg, e);
      ghost var frag := Code()[old(pc)..];
      ArithComputes(e.op, e.lhs, e.rhs, frag, constants, names, arith, b, c, reg, a);
      var i := ABC(ArithOpcode(e.op), a, b, c);
      AfterAdd(old(Code()), old(constants), Code(), constants, i);
      ArithOneWord(e.op, a, b, c);
      hide ArithOpcode, OneWord, Upward, After, Pair;
      Add(i);
      status := Fine;
    }

    // The operands of a binary operation, left first.
    method CompilePair(reg: nat, e: Expr) returns (status: Status, b: int, c: int)
      requires Valid() && (e.Arith? || e.Relation?) && PureArith(e.lhs) && PureArith(e.rhs)
      requires Scoped(e.lhs, names) && Scoped(e.rhs, names) && regTop <= reg
      modifies this
      decreases e, 0
      ensures status.Fine? ==>
        && Valid() && Emitted() && old(pc) <= pc
        && Pair(e.lhs, e.rhs, Code()[old(pc)..], constants, names, arith, b, c, reg)
    {
      hide Delivers, Pair, Slot, Distinct, After, OneWords;
      b, c := reg, reg;
      var next, after := reg, reg;
      b, next :- CompileOperand(true, reg, e.lhs);
      ghost var code1, consts1 := Code(), constants;
      c, after :- CompileOperand(true, next, e.rhs);
      AfterTwo(old(Code()), old(constants), code1, consts1, Code(), constants);
      OperandsPair(e.lhs, e.rhs, code1[old(pc)..], Code()[|code1|..], consts1, constants, names, arith, b, c, reg,
                   next, after);
      status := Fine;
    }

    // compileExprWithKMVPropagation and, with no constants, compileExprWithMVPropagation: a constant
    // or a local needs no code when it can be an operand.
    method CompileOperand(constantsToo: bool, reg: nat, e: Expr) returns (status: Status, save: int, next: nat)
      requires Valid() && Simple(e) && Scoped(e, names) && regTop <= reg
      modifies this
      decreases e, 3
      ensures status.Fine? ==>
        && Valid() && Emitted() && old(pc) <= pc && reg <= next
        && Delivers(e, Code()[old(pc)..], constants, names, arith, save, reg, next)
        && (constantsToo || save == reg || 0 <= save < |names|)
    {
      hide Computes, Delivers, Eval, Slot, RkAsk, Distinct, OneWords;
      save, next := reg, reg;
      var used :- CompileExpr(reg, e, Fresh);
      ghost var code, frag, last := Code(), Code()[old(pc)..], Last();
      save, next := Propagate(constantsToo, regTop, reg, used);
      assert Code() == code[..pc];
      if pc == old(pc) {
        assert frag == [last] && Code()[old(pc)..] == [];
        if last.op == LOADK {
          ConstantOperand(e, last.bx, constants, names, arith, reg);
        } else {
          LocalOperand(e, last.b, constants, names, arith, reg);
        }
      } else {
        KeptOperand(e, frag, constants, names, arith, reg);
      }
      status := Fine;
    }

    // ----- conditions -----

    method NewLabel() returns (l: nat)
      modifies `labelId
      ensures l == old(labelId) && labelId == l + 1
      ensures old(Valid()) ==> Valid()
    {
      l := labelId;
      labelId := labelId + 1;
    }

    method SetLabelPc(l: nat, at: int)
      modifies `labelPc
      ensures labelPc == old(labelPc)[l := at]
      ensures old(Valid()) && l < labelId ==> Valid()
    {
      labelPc := labelPc[l := at];
    }

    // A test and the jump taken when it fails, behind the code of its operands.
    method EmitGuard(test: Ins, target: nat, ghost code0: seq<Ins>, ghost consts0: seq<Value>)
      requires Valid() && After(code0, consts0, Code(), constants) && OneWord(test) && Upward(test)
      modifies `codes, `pc, `loadNilBarrier
      ensures Valid() && After(code0, consts0, Code(), constants)
      ensures Code() == old(Code()) + [test, ASbx(JMP, 0, target)]
    {
      AfterAdd(code0, consts0, Code(), constants, test);
      assert OneWord(ASbx(JMP, 0, target)) && Upward(ASbx(JMP, 0, target));
      hide OneWords, OneWord, Distinct;
      Add(test);
      AfterAdd(code0, consts0, Code(), constants, ASbx(JMP, 0, target));
      AddASbx(JMP, 0, target);
      assert old(Code()) + [test] + [ASbx(JMP, 0, target)] == old(Code()) + [test, ASbx(JMP, 0, target)];
    }

    method CompileRelationalAux(reg: nat, e: Expr, thenLabel: nat, elseLabel: nat, hasNext: bool)
      returns (status: Status)
      requires Valid() && e.Relation? && Condition(e) && Scoped(e, names) && regTop <= reg
      requires thenLabel < labelId && elseLabel < labelId
      modifies this
      ensures status.Fine? ==>
        && Valid() && Grown() && old(pc) <= pc
        && Decides(e, Code(), labelPc, old(labelId), constants, names, arith, old(pc), pc,
                   thenLabel, elseLabel, hasNext, reg)
    {
      hide Pair, Decides, Slot, Eval, Distinct, OneWords;
      var flip := Flip(hasNext);
      var jumpLabel := if hasNext then thenLabel else elseLabel;
      var b, c :- CompilePair(reg, e);
      ghost var m, frag := pc, Code()[old(pc)..];
      EmitGuard(CompareIns(e.rel, flip, b, c), jumpLabel, old(Code()), old(constants));
      hide After;
      assert Code()[old(pc)..m] == frag;
      RelationDecides(e.rel, e.lhs, e.rhs, frag, constants, names, arith, b, c, reg, Code(), labelPc, labelId,
                      old(pc), m, pc, thenLabel, elseLabel, hasNext);
      status := Fine;
    }

    // Any other condition: its value is tested.
    method CompileTest(reg: nat, e: Expr, thenLabel: nat, elseLabel: nat, hasNext: bool) returns (status: Status)
      requires Valid() && Simple(e) && Scoped(e, names) && regTop <= reg
      requires thenLabel < labelId && elseLabel < labelId
      modifies this
      ensures status.Fine? ==>
        && Valid() && Grown() && old(pc) <= pc
        && Decides(e, Code(), labelPc, old(labelId), constants, names, arith, old(pc), pc,
                   thenLabel, elseLabel, hasNext, reg)
    {
      hide Delivers, Decides, Slot, Eval, Distinct, OneWords;
      var a, next :- CompileOperand(false, reg, e);
      ghost var m, frag := pc, Code()[old(pc)..];
      EmitGuard(ABC(TEST, a, 0, Flip(hasNext)), if hasNext then thenLabel else elseLabel, old(Code()), old(constants));
      hide After;
      assert Code()[old(pc)..m] == frag;
      TestDecides(e, frag, constants, names, arith, a, reg, next, Code(), labelPc, labelId, old(pc), m, pc,
                  thenLabel, elseLabel, hasNext);
      status := Fine;
    }

    // The code leaves for the then label exactly when the condition is true; falling through means
    // the else label when another condition follows, and the then label otherwise.
    method CompileBranchCondition(reg: nat, e: Expr, thenLabel: nat, elseLabel: nat, hasNext: bool)
      returns (status: Status)
      requires Valid() && Condition(e) && Scoped(e, names) && regTop <= reg
      requires thenLabel < labelId && elseLabel < labelId
      modifies this
      decreases e
      ensures status.Fine? ==>
        && Valid() && Grown() && old(pc) <= pc
        && Decides(e, Code(), labelPc, old(labelId), constants, names, arith, old(pc), pc,
                   thenLabel, elseLabel, hasNext, reg)
    {
      hide Decides, Distinct, OneWords;
      match e
      case FalseExpr =>
        if hasNext {
          status := CompileTest(reg, e, thenLabel, elseLabel, hasNext);
        } else {
          AddASbx(JMP, 0, elseLabel);
          JumpDecides(Code(), labelPc, labelId, constants, names, arith, old(pc), thenLabel, elseLabel, reg);
          status := Fine;
        }
      case TrueExpr | Number(_) =>
        if hasNext {
          status := CompileTest(reg, e, thenLabel, elseLabel, hasNext);
        } else {
          NothingDecides(e, Code(), labelPc, labelId, constants, names, arith, pc, thenLabel, elseLabel, reg);
          status := Fine;
        }
      case Not(c) =>
        status := CompileBranchCondition(reg, c, elseLabel, thenLabel, !hasNext);
        if status.Fine? {
          NotDecides(c, Code(), labelPc, old(labelId), constants, names, arith, old(pc), pc, thenLabel, elseLabel,
                     hasNext, reg);
        }
      case And(_, _) | Or(_, _) =>
        status := CompileJunction(reg, e, thenLabel, elseLabel, hasNext);
      case Relation(_, _, _) =>
        status := CompileRelationalAux(reg, e, thenLabel, elseLabel, hasNext);
      case Ident(_) | Arith(_, _, _) =>
        status := CompileTest(reg, e, thenLabel, elseLabel, hasNext);
    }

    // `and` and `or`: the second condition is decided where the first one does not settle the matter.
    method CompileJunction(reg: nat, e: Expr, thenLabel: nat, elseLabel: nat, hasNext: bool) returns (status: Status)
      requires Valid() && (e.And? || e.Or?) && Condition(e) && Scoped(e, names) && regTop <= reg
      requires thenLabel < labelId && elseLabel < labelId
      modifies this
      decreases e, 1
      ensures status.Fine? ==>
        && Valid() && Grown() && old(pc) <= pc
        && Decides(e, Code(), labelPc, old(labelId), constants, names, arith, old(pc), pc,
                   thenLabel, elseLabel, hasNext, reg)
    {
      var l, r := e.lhs, e.rhs;
      assert Condition(l) && Condition(r) && Scoped(l, names) && Scoped(r, names);
      hide Decides, Condition, Scoped, Extends, LabelsAdded, Distinct, After, OneWords;
      var nextLabel := NewLabel();
      if e.And? {
        :- CompileBranchCondition(reg, l, nextLabel, elseLabel, false);
      } else {
        :- CompileBranchCondition(reg, l, thenLabel, nextLabel, true);
      }
      status := CompileSecond(reg, e, nextLabel, thenLabel, elseLabel, hasNext, old(Code()), old(constants),
                              old(labelPc));
    }

    // Places the label behind the first condition and compiles the second one.
    method CompileSecond(reg: nat, e: Expr, nextLabel: nat, thenLabel: nat, elseLabel: nat, hasNext: bool,
                         ghost code0: seq<Ins>, ghost consts0: seq<Value>, ghost labels0: map<int, int>)
      returns (status: Status)
      requires Valid() && (e.And? || e.Or?) && Condition(e.rhs) && Scoped(e.rhs, names) && regTop <= reg
      requires thenLabel < nextLabel && elseLabel < nextLabel < labelId
      requires After(code0, consts0, Code(), constants) && Below(labels0, nextLabel)
      requires LabelsAdded(labels0, labelPc, nextLabel + 1)
      requires Decides(e.lhs, Code(), labelPc, nextLabel + 1, constants, names, arith, |code0|, pc,
                       if e.And? then nextLabel else thenLabel, if e.And? then elseLabel else nextLabel, e.Or?, reg)
      modifies this
      decreases e, 0
      ensures status.Fine? ==>
        && Valid() && names == old(names) && regTop == old(regTop) && old(labelId) <= labelId && |code0| <= pc
        && After(code0, consts0, Code(), constants) && LabelsAdded(labels0, labelPc, nextLabel)
        && Decides(e, Code(), labelPc, nextLabel, constants, names, arith, |code0|, pc,
                   thenLabel, elseLabel, hasNext, reg)
    {
      hide Decides, Condition, Scoped, Extends, LabelsAdded, Distinct, After, OneWords;
      SetLabelPc(nextLabel, pc as int - 1);
      :- CompileBranchCondition(reg, e.rhs, thenLabel, elseLabel, hasNext);
      JunctionDecides(e, code0, consts0, old(Code()), old(constants), Code(), constants, labels0, old(labelPc),
                      labelPc, nextLabel, old(labelId), names, arith, thenLabel, elseLabel, hasNext, reg);
      status := Fine;
    }

    // ----- assignment to locals -----

    // The next expression of several into the next register.
    method CompileNext(reg: nat, e: Expr, ghost done: seq<Expr>, at: nat, ghost code0: seq<Ins>,
                       ghost consts0: seq<Value>)
      returns (status: Status)
      requires Valid() && Simple(e) && Scoped(e, names) && regTop <= reg && at == reg + |done|
      requires After(code0, consts0, Code(), constants) && |code0| <= pc
      requires Gathers(done, Code()[|code0|..], constants, names, arith, reg)
      modifies this
      ensures status.Fine? ==>
        && Valid() && names == old(names) && regTop == old(regTop) && labelId == old(labelId)
        && labelPc == old(labelPc)
        && After(code0, consts0, Code(), constants) && |code0| < pc && Last().op != LOADNIL
        && Gathers(done + [e], Code()[|code0|..], constants, names, arith, reg)
    {
      hide Gathers, Computes, Distinct, After, OneWords;
      var used :- CompileExpr(at, e, Fresh);
      AfterTwo(code0, consts0, old(Code()), old(constants), Code(), constants);
      GathersOneMore(done, e, old(Code())[|code0|..], Code()[old(pc)..], old(constants), constants, names, arith, reg);
      status := Fine;
    }

    method LoadNextNil(reg: nat, ghost done: seq<Expr>, at: nat, ghost first: nat, ghost code0: seq<Ins>,
                       ghost consts0: seq<Value>)
      requires Valid() && regTop <= reg && at == reg + |done| && first <= at
      requires After(code0, consts0, Code(), constants) && |code0| < pc
      requires Gathers(done, Code()[|code0|..], constants, names, arith, reg)
      requires Last().op == LOADNIL ==> !loadNilBarrier && Last() == ABC(LOADNIL, first, at - 1, 0)
      modifies `codes, `pc, `loadNilBarrier
      ensures Valid() && After(code0, consts0, Code(), constants) && |code0| < pc && !loadNilBarrier
      ensures Last() == if old(Last()).op == LOADNIL then ABC(LOADNIL, first, at, 0) else ABC(LOADNIL, at, at, 0)
      ensures Gathers(done + [NilExpr], Code()[|code0|..], constants, names, arith, reg)
    {
      hide Gathers, Distinct, After, OneWords;
      NilStep(done, Code()[|code0|..], first, constants, names, arith, reg);
      AddLoadNil(at, at);
      AfterNil(code0, consts0, old(Code()), constants, Code(), at);
    }

    // The expressions, and nil for missing ones up to n, into reg, reg + 1, ...
    method CompileFresh(reg: nat, es: seq<Expr>, n: nat) returns (status: Status)
      requires Valid() && regTop <= reg && (es != [] || n == 0)
      requires forall i :: 0 <= i < |es| ==> Simple(es[i]) && Scoped(es[i], names)
      modifies this
      ensures status.Fine? ==>
        && Valid() && Emitted() && old(pc) <= pc
        && Gathers(Padded(es, n), Code()[old(pc)..], constants, names, arith, reg)
    {
      hide Gathers, Distinct, After, Simple, Scoped, OneWords;
      ghost var all, code0, consts0 := Padded(es, n), Code(), constants;
      AfterSame(code0, consts0);
      GathersNone(constants, names, arith, reg);
      assert code0[|code0|..] == [] && all[..0] == [];
      var i := 0;
      while i < |es| || i < n
        invariant i <= |all|
        invariant Valid() && Emitted() && |code0| <= pc
        invariant 0 < i <= |es| ==> |code0| < pc && Last().op != LOADNIL
        invariant i > |es| ==> !loadNilBarrier && |code0| < pc && Last() == ABC(LOADNIL, reg + |es|, reg + i - 1, 0)
        invariant Gathers(all[..i], Code()[|code0|..], constants, names, arith, reg)
        decreases |es| + n - i
      {
        assert all[..i + 1] == all[..i] + [all[i]];
        if i < |es| {
          :- CompileNext(reg, es[i], all[..i], reg + i, code0, consts0);
        } else {
          LoadNextNil(reg, all[..i], reg + i, reg + |es|, code0, consts0);
        }
        i := i + 1;
      }
      assert all[..i] == all;
      status := Fine;
    }

    // compileAssignStmt for local targets.  A lone target is computed in place; several targets get
    // their values from fresh registers, moved from the last to the first.
    method CompileAssignment(targets: seq<string>, rhs: seq<Expr>) returns (status: Status)
      requires Valid() && targets != [] && rhs != []
      requires forall i :: 0 <= i < |targets| ==> targets[i] in names
      requires forall i :: 0 <= i < |rhs| ==> Simple(rhs[i]) && Scoped(rhs[i], names)
      modifies this
      ensures status.Fine? ==>
        && Valid() && Emitted() && old(pc) <= pc
        && Stores(targets, rhs, Code()[old(pc)..], constants, names, arith, regTop)
    {
      hide Gathers, Computes, Stores, Slot, Distinct, After, Moves, OneWords;
      var reg := regTop;
      if |targets| == 1 {
        var r := FindLocalVar(targets[0]);
        var used :- CompileExpr(reg, rhs[0], Local(r));
        ghost var code, consts := Code(), constants;
        :- CompileFresh(reg, rhs[1..], 0);
        AfterTwo(old(Code()), old(constants), code, consts, Code(), constants);
        assert Padded(rhs[1..], 0) == rhs[1..];
        assert targets == [targets[0]];
        OneStored(targets[0], rhs, code[old(pc)..], Code()[|code|..], consts, constants, names, arith, reg);
        return Fine;
      }
      :- CompileFresh(reg, rhs, |targets|);
      SeveralStored(targets, rhs, Code()[old(pc)..], constants, names, arith, reg);
      status := CompileMoves(targets, reg, old(Code()), old(constants));
    }

    method CompileMoves(targets: seq<string>, reg: nat, ghost code0: seq<Ins>, ghost consts0: seq<Value>)
      returns (status: Status)
      requires Valid() && After(code0, consts0, Code(), constants) && |code0| <= pc
      requires forall i :: 0 <= i < |targets| ==> targets[i] in names
      modifies `codes, `pc
      ensures status.Fine? && Valid() && After(code0, consts0, Code(), constants) && |code0| <= pc
      ensures Code()[|code0|..] == old(Code())[|code0|..] + Moves(Slots(names, targets), reg, 0)
    {
      hide After, OneWords, Distinct;
      ghost var slots := Slots(names, targets);
      for i := |targets| downto 0
        invariant Valid() && After(code0, consts0, Code(), constants) && |code0| <= pc
        invariant Code()[|code0|..] == old(Code())[|code0|..] + Moves(slots, reg, i)
      {
        var r := FindLocalVar(targets[i]);
        AfterAdd(code0, consts0, Code(), constants, ABC(MOVE, r, reg + i, 0));
        Add(ABC(MOVE, r, reg + i, 0));
      }
      status := Fine;
    }
  }
}
