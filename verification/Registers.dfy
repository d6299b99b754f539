/**
 The register bound the compiler records, the loader's check of a function prototype, and that the
 two agree.
 */
module Registers {
  import opened Options
  import opened Opcodes
  import opened Words
  import opened Instructions
  import opened Machine
  import opened Fragments

  // ----- maxRegisterUsed -----

  // bumpRange, bumpRK
  function Range(max: int, start: int, end: int): (m: int)
    ensures m >= max && (end >= start ==> m >= end)
  {
    if end >= start then Max(max, end) else max
  }

  function RK(max: int, arg: int): (m: int)
    ensures m >= max && (!IsK(arg) ==> m >= arg)
  {
    if IsK(arg) then max else Max(max, arg)
  }

  // The MOVE words behind a MOVEN.
  function Moves(max: int, code: seq<Ins>, from: nat, n: int): int
    decreases n
  {
    if n <= 0 || from >= |code| then max
    else Moves(Max(Max(max, code[from].a), code[from].b), code, from + 1, n - 1)
  }

  // The binding words behind a CLOSURE.
  function Bindings(max: int, code: seq<Ins>, from: nat, n: int): int
    decreases n
  {
    if n <= 0 || from >= |code| then max
    else Bindings(if code[from].op == MOVE then Max(max, code[from].b) else max, code, from + 1, n - 1)
  }

  // What an instruction without further words makes of the bound.
  function BumpedOne(max: int, i: Ins): int
  {
    match i.op
    case MOVE => Max(Max(max, i.a), i.b)
    case LOADK | LOADBOOL | GETUPVAL | GETGLOBAL | SETUPVAL | SETGLOBAL | NEWTABLE | TEST | CLOSE | NOP => Max(max, i.a)
    case LOADNIL => Range(max, i.a, i.b)
    case GETTABLE | GETTABLEKS => RK(Max(Max(max, i.a), i.b), i.c)
    case SETTABLE | SETTABLEKS => RK(RK(Max(max, i.a), i.b), i.c)
    case SELF => RK(Max(Range(max, i.a, i.a + 1), i.b), i.c)
    case ADD | SUB | MUL | DIV | MOD | POW | BAND | BOR | BXOR | SHL | SHR | IDIV => RK(RK(Max(max, i.a), i.b), i.c)
    case UNM | LEN | BNOT => RK(Max(max, i.a), i.b)
    case NOT | TESTSET => Max(Max(max, i.a), i.b)
    case CONCAT => Range(Max(max, i.a), i.b, i.c)
    case EQ | LT | LE => RK(RK(max, i.b), i.c)
    case CALL =>
      var m := Max(max, i.a);
      var m1 := if i.b > 0 then Max(m, i.a + i.b - 1) else m;
      if i.c > 1 then Max(m1, i.a + i.c - 2) else m1
    case TAILCALL => if i.b > 0 then Max(Max(max, i.a), i.a + i.b - 1) else Max(max, i.a)
    case RETURN | VARARG => if i.b > 1 then Max(Max(max, i.a), i.a + i.b - 2) else Max(max, i.a)
    case FORLOOP => Range(max, i.a, i.a + 3)
    case FORPREP => Range(max, i.a, i.a + 2)
    case TFORLOOP => Range(max, i.a, i.a + 3 + i.c)
    case SETLIST => if i.b > 0 then Max(Max(max, i.a), i.a + i.b) else Max(max, i.a)
    case JMP => max
    case _ => Max(max, i.a)
  }

  // What the instruction at pc makes of the bound.
  function Bumped(max: int, code: seq<Ins>, nups: seq<nat>, pc: nat): int
    requires pc < |code|
  {
    var i := code[pc];
    if i.op == MOVEN then Moves(Max(Max(max, i.a), i.b), code, pc + 1, i.c)
    else if i.op == CLOSURE then Bindings(Max(max, i.a), code, pc + 1, Nups(nups, i.bx))
    else BumpedOne(max, i)
  }

  // The words the instruction at pc takes besides itself.
  function Extra(code: seq<Ins>, nups: seq<nat>, pc: nat): int
    requires pc < |code|
  {
    var i := code[pc];
    if i.op == MOVEN then i.c
    else if i.op == TFORLOOP || (i.op == SETLIST && i.c == 0) then (if pc + 1 < |code| then 1 else 0)
    else if i.op == CLOSURE then Nups(nups, i.bx)
    else 0
  }

  function MaxFrom(max: int, code: seq<Ins>, nups: seq<nat>, pc: nat): int
    decreases |code| - pc
  {
    if pc >= |code| then max
    else MaxFrom(Bumped(max, code, nups, pc), code, nups, pc + 1 + Max(0, Extra(code, nups, pc)))
  }

  function MaxRegister(code: seq<Ins>, nups: seq<nat>, numParameters: int): int
  {
    MaxFrom(if numParameters > 1 then numParameters else 1, code, nups, 0)
  }

  method MaxRegisterUsed(code: seq<Ins>, nups: seq<nat>, numParameters: int) returns (maxreg: int)
    ensures maxreg == MaxRegister(code, nups, numParameters)
  {
    maxreg := if numParameters > 1 then numParameters else 1;
    var pc := 0;
    while pc < |code|
      invariant 0 <= pc
      invariant MaxFrom(maxreg, code, nups, pc) == MaxRegister(code, nups, numParameters)
      decreases |code| - pc
    {
      hide Bumped;
      maxreg := Bumped(maxreg, code, nups, pc);
      pc := pc + 1 + Max(0, Extra(code, nups, pc));
    }
  }

  // ----- the loader -----

  datatype Fault =
    | BadOpcode | BadRegister | BadConstant | BadUpvalue | BadOperand
    | MissingInstruction | BadJump | BadWord | BadClosure
    | TooManyParameters

  // The fault a check reports, which is the first one, and all there are.
  datatype Check = Check(reported: Option<Fault>, faults: set<Fault>)

  const PASSED := Check(None, {})

  function Failed(fault: Fault): Check { Check(Some(fault), {fault}) }

  function And(c: Check, d: Check): Check
  {
    Check(if c.reported.None? then d.reported else c.reported, c.faults + d.faults)
  }

  function Require(condition: bool, fault: Fault): Check { if condition then PASSED else Failed(fault) }

  // What an instruction is checked against.
  datatype Limits = Limits(regs: int, consts: seq<Const>, upvalues: int, nups: seq<nat>, codeLen: int)

  function Reg(l: Limits, r: int): Check { Require(0 <= r < l.regs, BadRegister) }

  function RegRange(l: Limits, start: int, end: int): Check
  {
    Require(0 <= start <= end < l.regs, BadRegister)
  }

  function Konst(l: Limits, k: int): Check { Require(0 <= k < |l.consts|, BadConstant) }

  function StringConst(l: Limits, k: int): Check
  {
    if 0 <= k < |l.consts| then Require(l.consts[k].CString?, BadConstant) else Failed(BadConstant)
  }

  function Upvalue(l: Limits, u: int): Check { Require(0 <= u < l.upvalues, BadUpvalue) }

  function CheckRK(l: Limits, arg: int): Check { if IsK(arg) then Konst(l, IndexK(arg)) else Reg(l, arg) }

  function RKString(l: Limits, arg: int): Check
  {
    if IsK(arg) then StringConst(l, IndexK(arg)) else Failed(BadOperand)
  }

  function HasNext(l: Limits, pc: int): Check { Require(pc + 1 < l.codeLen, MissingInstruction) }

  function JumpTarget(l: Limits, pc: int, sbx: int): Check { Require(0 <= pc + 1 + sbx < l.codeLen, BadJump) }

  function CheckMoves(l: Limits, code: seq<Ins>, from: nat, n: int): Check
    decreases n
  {
    if n <= 0 || from >= |code| then PASSED
    else
      And(Require(code[from].op == MOVE, BadWord),
          And(Reg(l, code[from].a), And(Reg(l, code[from].b), CheckMoves(l, code, from + 1, n - 1))))
  }

  function CheckBindings(l: Limits, code: seq<Ins>, from: nat, n: int): Check
    decreases n
  {
    if n <= 0 || from >= |code| then PASSED
    else
      And(if code[from].op == MOVE then Reg(l, code[from].b)
          else if code[from].op == GETUPVAL then Upvalue(l, code[from].b)
          else Failed(BadWord),
          CheckBindings(l, code, from + 1, n - 1))
  }

  // The checks that look at the instruction alone.
  function CheckOne(l: Limits, i: Ins, pc: nat): Check
  {
    match i.op
    case MOVE => And(Reg(l, i.a), Reg(l, i.b))
    case LOADK => And(Reg(l, i.a), Konst(l, i.bx))
    case LOADBOOL => And(Reg(l, i.a), if i.c != 0 then HasNext(l, pc) else PASSED)
    case LOADNIL => RegRange(l, i.a, i.b)
    case GETUPVAL => And(Reg(l, i.a), Upvalue(l, i.b))
    case GETGLOBAL => And(Reg(l, i.a), StringConst(l, i.bx))
    case GETTABLE => And(Reg(l, i.a), And(Reg(l, i.b), CheckRK(l, i.c)))
    case GETTABLEKS => And(Reg(l, i.a), And(Reg(l, i.b), RKString(l, i.c)))
    case SETGLOBAL => And(Reg(l, i.a), StringConst(l, i.bx))
    case SETUPVAL => And(Reg(l, i.a), Upvalue(l, i.b))
    case SETTABLE => And(Reg(l, i.a), And(CheckRK(l, i.b), CheckRK(l, i.c)))
    case SETTABLEKS => And(Reg(l, i.a), And(RKString(l, i.b), CheckRK(l, i.c)))
    case NEWTABLE => Reg(l, i.a)
    case SELF => And(RegRange(l, i.a, i.a + 1), And(Reg(l, i.b), RKString(l, i.c)))
    case ADD | SUB | MUL | DIV | MOD | POW | BAND | BOR | BXOR | SHL | SHR | IDIV =>
      And(Reg(l, i.a), And(CheckRK(l, i.b), CheckRK(l, i.c)))
    case UNM | LEN | BNOT => And(Reg(l, i.a), CheckRK(l, i.b))
    case NOT => And(Reg(l, i.a), Reg(l, i.b))
    case CONCAT => And(Reg(l, i.a), RegRange(l, i.b, i.c))
    case JMP => JumpTarget(l, pc, i.sbx)
    case EQ | LT | LE => And(CheckRK(l, i.b), And(CheckRK(l, i.c), HasNext(l, pc)))
    case TEST => And(Reg(l, i.a), HasNext(l, pc))
    case TESTSET => And(Reg(l, i.a), And(Reg(l, i.b), HasNext(l, pc)))
    case CALL =>
      And(Reg(l, i.a), And(if i.b > 0 then RegRange(l, i.a, i.a + i.b - 1) else PASSED,
                           if i.c > 1 then RegRange(l, i.a, i.a + i.c - 2) else PASSED))
    case TAILCALL => And(Reg(l, i.a), if i.b > 0 then RegRange(l, i.a, i.a + i.b - 1) else PASSED)
    case RETURN => And(Reg(l, i.a), if i.b > 1 then RegRange(l, i.a, i.a + i.b - 2) else PASSED)
    case FORLOOP => And(RegRange(l, i.a, i.a + 3), JumpTarget(l, pc, i.sbx))
    case FORPREP => And(RegRange(l, i.a, i.a + 2), JumpTarget(l, pc, i.sbx))
    case TFORLOOP => And(RegRange(l, i.a, i.a + 3 + i.c), HasNext(l, pc))
    case SETLIST =>
      And(Reg(l, i.a), And(if i.b > 0 then RegRange(l, i.a + 1, i.a + i.b) else PASSED,
                           if i.c == 0 then HasNext(l, pc) else PASSED))
    case VARARG => And(Reg(l, i.a), if i.b > 1 then RegRange(l, i.a, i.a + i.b - 2) else PASSED)
    case CLOSE | NOP => PASSED
    case _ => Failed(BadOpcode)
  }

  // validateDecodedInstruction; the code is given with all fields of each word
  function CheckInstruction(l: Limits, code: seq<Ins>, pc: nat): Check
    requires pc < |code|
  {
    var i := code[pc];
    if i.op == MOVEN then
      And(Reg(l, i.a), And(Reg(l, i.b),
          And(Require(pc + i.c < |code|, MissingInstruction), CheckMoves(l, code, pc + 1, i.c))))
    else if i.op == CLOSURE then
      And(Reg(l, i.a), And(Require(0 <= i.bx < |l.nups|, BadClosure),
          var n := Nups(l.nups, i.bx);
          And(Require(n == 0 || pc + n < |code|, MissingInstruction), CheckBindings(l, code, pc + 1, n))))
    else if i.op == TFORLOOP then
      And(CheckOne(l, i, pc),
          if pc + 1 < |code| then
            And(Require(code[pc + 1].op == JMP, BadWord), JumpTarget(l, pc + 1, code[pc + 1].sbx))
          else PASSED)
    else CheckOne(l, i, pc)
  }

  function CheckFrom(l: Limits, code: seq<Ins>, pc: nat): Check
    decreases |code| - pc
  {
    if pc >= |code| then PASSED
    else And(CheckInstruction(l, code, pc), CheckFrom(l, code, pc + 1 + Max(0, Extra(code, l.nups, pc))))
  }

  // ----- the two walks agree -----

  // The loader sees the operands the compiler wrote; a data word may read as anything.
  predicate SameOperands(i: Ins, w: Ins)
  {
    i.op == RAW ||
    (w.op == i.op && w.a == i.a &&
     match ShapeOf(i.op)
     case ShapeABC => w.b == i.b && w.c == i.c && 0 <= i.b && 0 <= i.c
     case ShapeABx => w.bx == i.bx
     case ShapeASbx => w.sbx == i.sbx)
  }

  lemma {:induction false} MovesGrow(max: int, code: seq<Ins>, from: nat, n: int)
    ensures max <= Moves(max, code, from, n)
    decreases n
  {
    if n > 0 && from < |code| {
      MovesGrow(Max(Max(max, code[from].a), code[from].b), code, from + 1, n - 1);
    }
  }

  lemma {:induction false} BindingsGrow(max: int, code: seq<Ins>, from: nat, n: int)
    ensures max <= Bindings(max, code, from, n)
    decreases n
  {
    if n > 0 && from < |code| {
      BindingsGrow(if code[from].op == MOVE then Max(max, code[from].b) else max, code, from + 1, n - 1);
    }
  }

  lemma OneGrows(max: int, i: Ins)
    ensures max <= BumpedOne(max, i)
  {
    hide IsK, Max, Range, RK;
  }

  lemma BumpedGrows(max: int, code: seq<Ins>, nups: seq<nat>, pc: nat)
    requires pc < |code|
    ensures max <= Bumped(max, code, nups, pc)
  {
    hide Moves, Bindings, BumpedOne, Max, Nups;
    var i := code[pc];
    OneGrows(max, i);
    MovesGrow(Max(Max(max, i.a), i.b), code, pc + 1, i.c);
    BindingsGrow(Max(max, i.a), code, pc + 1, Nups(nups, i.bx));
  }

  ghost predicate NoBadRegister(c: Check) { BadRegister !in c.faults }

  // An instruction the bound covers passes its register checks.
  lemma OnePasses(l: Limits, i: Ins, w: Ins, pc: nat, max: int)
    requires BumpedOne(max, i) < l.regs && SameOperands(i, w) && Upward(i)
    requires i.op != RAW && i.op != MOVEN && i.op != CLOSURE
    ensures NoBadRegister(CheckOne(l, w, pc))
  {
    NotRegisterFaults(l, w, pc);
    hide Max, Range, RK, IsK, IndexK, Konst, StringConst, Upvalue, HasNext, JumpTarget;
    if i.op in {LOADNIL, SELF, CONCAT, CALL, TAILCALL, RETURN, FORLOOP, FORPREP, TFORLOOP, SETLIST, VARARG} {
      RangesPass(l, i, w, pc, max);
    }
  }

  lemma RangesPass(l: Limits, i: Ins, w: Ins, pc: nat, max: int)
    requires BumpedOne(max, i) < l.regs && SameOperands(i, w) && Upward(i)
    requires i.op in {LOADNIL, SELF, CONCAT, CALL, TAILCALL, RETURN, FORLOOP, FORPREP, TFORLOOP, SETLIST, VARARG}
    ensures NoBadRegister(CheckOne(l, w, pc))
  {
    NotRegisterFaults(l, w, pc);
    hide Max, Range, RK, IsK, IndexK, Konst, StringConst, Upvalue, HasNext, JumpTarget;
  }

  // The other checks report other faults.
  lemma NotRegisterFaults(l: Limits, w: Ins, pc: int)
    ensures NoBadRegister(Konst(l, w.bx)) && NoBadRegister(StringConst(l, w.bx)) && NoBadRegister(Upvalue(l, w.b))
    ensures NoBadRegister(HasNext(l, pc)) && NoBadRegister(JumpTarget(l, pc, w.sbx))
    ensures forall k :: NoBadRegister(Konst(l, k)) && NoBadRegister(StringConst(l, k))
  {
  }
  lemma {:induction false} MaxGrows(max: int, code: seq<Ins>, nups: seq<nat>, pc: nat)
    ensures max <= MaxFrom(max, code, nups, pc)
    decreases |code| - pc
  {
    if pc < |code| {
      BumpedGrows(max, code, nups, pc);
      hide Bumped;
      MaxGrows(Bumped(max, code, nups, pc), code, nups, pc + 1 + Max(0, Extra(code, nups, pc)));
    }
  }

  predicate TakesDataWord(i: Ins) { i.op == SETLIST && i.c == 0 }

  // The words that belong to the instruction at k: the moves of a MOVEN, the bindings of a CLOSURE, the
  // jump of a TFORLOOP, the data word of a SETLIST.
  ghost predicate Accompanied(ir: seq<Ins>, nups: seq<nat>, k: nat)
    requires k < |ir|
  {
    && (ir[k].op == MOVEN ==> AllIn(ir, k + 1, ir[k].c, {MOVE}))
    && (ir[k].op == CLOSURE ==> AllIn(ir, k + 1, Nups(nups, ir[k].bx), {MOVE, GETUPVAL}))
    && (ir[k].op == TFORLOOP ==> AllIn(ir, k + 1, 1, {JMP}))
    && (TakesDataWord(ir[k]) ==> k + 1 < |ir|)
  }

  ghost predicate AllIn(ir: seq<Ins>, from: nat, n: int, ops: set<Op>)
  {
    from + n <= |ir| && forall j :: from <= j < from + n ==> ir[j].op in ops
  }

  // A data word stands behind each SETLIST with C = 0, and nowhere else.
  predicate DataWordAt(ir: seq<Ins>, k: nat)
    requires k < |ir|
  {
    && (TakesDataWord(ir[k]) && k + 1 < |ir| ==> ir[k + 1].op == RAW)
    && (ir[k].op == RAW ==> k > 0 && TakesDataWord(ir[k - 1]))
  }

  // Compiled code, and the fields of its words.
  ghost predicate Compiled(ir: seq<Ins>, nups: seq<nat>, view: seq<Ins>)
  {
    && |view| == |ir|
    && (forall k :: 0 <= k < |ir| ==> DataWordAt(ir, k) && Accompanied(ir, nups, k))
    && (forall k :: 0 <= k < |ir| && ir[k].op != RAW ==> SameOperands(ir[k], view[k]) && Upward(ir[k]))
  }

  // The word before pc does not make the one at pc a data word.
  predicate NotData(ir: seq<Ins>, pc: nat) { pc == 0 || pc > |ir| || !TakesDataWord(ir[pc - 1]) }

  lemma CompiledAt(ir: seq<Ins>, nups: seq<nat>, view: seq<Ins>, k: nat)
    requires Compiled(ir, nups, view) && k < |ir|
    ensures |view| == |ir| && DataWordAt(ir, k) && Accompanied(ir, nups, k)
    ensures ir[k].op != RAW ==> SameOperands(ir[k], view[k]) && Upward(ir[k])
  {
  }

  // A word that is not data: the loader reads what the compiler wrote.
  lemma OwnWord(ir: seq<Ins>, nups: seq<nat>, view: seq<Ins>, k: nat)
    requires Compiled(ir, nups, view) && k < |ir| && NotData(ir, k)
    ensures |view| == |ir| && ir[k].op != RAW && SameOperands(ir[k], view[k]) && Upward(ir[k])
    ensures view[k].op == ir[k].op && view[k].a == ir[k].a >= 0
    ensures ir[k].op in {MOVE, MOVEN, GETUPVAL, SETLIST} ==>
              view[k].b == ir[k].b >= 0 && view[k].c == ir[k].c >= 0
    ensures ir[k].op == CLOSURE ==> view[k].bx == ir[k].bx
    ensures NotData(ir, if TakesDataWord(ir[k]) then k + 2 else k + 1)
  {
    CompiledAt(ir, nups, view, k);
    if k + 1 < |ir| {
      CompiledAt(ir, nups, view, k + 1);
    }
    hide Compiled, Accompanied;
  }

  lemma {:induction false} MovesPass(l: Limits, ir: seq<Ins>, view: seq<Ins>, from: nat, n: int, max: int)
    requires Compiled(ir, l.nups, view) && NotData(ir, from) && Moves(max, ir, from, n) < l.regs
    requires AllIn(ir, from, n, {MOVE})
    ensures NoBadRegister(CheckMoves(l, view, from, n))
    ensures n >= 0 ==> NotData(ir, from + n)
    decreases n
  {
    hide Compiled, NotData, SameOperands, Upward, IsK;
    if n > 0 {
      OwnWord(ir, l.nups, view, from);
      var next := Max(Max(max, ir[from].a), ir[from].b);
      MovesGrow(next, ir, from + 1, n - 1);
      hide Max;
      MovesPass(l, ir, view, from + 1, n - 1, next);
    }
  }

  lemma {:induction false} BindingsPass(l: Limits, ir: seq<Ins>, view: seq<Ins>, from: nat, n: int, max: int)
    requires Compiled(ir, l.nups, view) && NotData(ir, from) && Bindings(max, ir, from, n) < l.regs
    requires AllIn(ir, from, n, {MOVE, GETUPVAL})
    ensures NoBadRegister(CheckBindings(l, view, from, n))
    ensures n >= 0 ==> NotData(ir, from + n)
    decreases n
  {
    hide Compiled, NotData, SameOperands, Upward, IsK;
    if n > 0 {
      OwnWord(ir, l.nups, view, from);
      var next := if ir[from].op == MOVE then Max(max, ir[from].b) else max;
      BindingsGrow(next, ir, from + 1, n - 1);
      hide Max;
      BindingsPass(l, ir, view, from + 1, n - 1, next);
    }
  }

  // At an instruction: all its register checks pass, and the loader goes on where the compiler's walk does.
  ghost predicate PassesAt(l: Limits, ir: seq<Ins>, view: seq<Ins>, pc: nat)
    requires pc < |ir| == |view|
  {
    && NoBadRegister(CheckInstruction(l, view, pc))
    && Extra(view, l.nups, pc) == Extra(ir, l.nups, pc)
    && NotData(ir, pc + 1 + Max(0, Extra(ir, l.nups, pc)))
  }

  lemma MovenPasses(l: Limits, ir: seq<Ins>, view: seq<Ins>, pc: nat, max: int)
    requires Compiled(ir, l.nups, view) && pc < |ir| && NotData(ir, pc) && Bumped(max, ir, l.nups, pc) < l.regs
    requires ir[pc].op == MOVEN
    ensures |view| == |ir| && PassesAt(l, ir, view, pc)
  {
    hide Compiled, NotData, SameOperands, Upward, Moves, CheckMoves, BumpedOne, CheckOne, AllIn;
    var i := ir[pc];
    OwnWord(ir, l.nups, view, pc);
    CompiledAt(ir, l.nups, view, pc);
    MovesGrow(Max(Max(max, i.a), i.b), ir, pc + 1, i.c);
    MovesPass(l, ir, view, pc + 1, i.c, Max(Max(max, i.a), i.b));
  }

  lemma ClosurePasses(l: Limits, ir: seq<Ins>, view: seq<Ins>, pc: nat, max: int)
    requires Compiled(ir, l.nups, view) && pc < |ir| && NotData(ir, pc) && Bumped(max, ir, l.nups, pc) < l.regs
    requires ir[pc].op == CLOSURE
    ensures |view| == |ir| && PassesAt(l, ir, view, pc)
  {
    hide Compiled, NotData, SameOperands, Upward, Bindings, CheckBindings, BumpedOne, CheckOne, Nups, AllIn;
    var i := ir[pc];
    var n := Nups(l.nups, i.bx);
    OwnWord(ir, l.nups, view, pc);
    CompiledAt(ir, l.nups, view, pc);
    BindingsGrow(Max(max, i.a), ir, pc + 1, n);
    BindingsPass(l, ir, view, pc + 1, n, Max(max, i.a));
  }

  lemma OtherPasses(l: Limits, ir: seq<Ins>, view: seq<Ins>, pc: nat, max: int)
    requires Compiled(ir, l.nups, view) && pc < |ir| && NotData(ir, pc) && Bumped(max, ir, l.nups, pc) < l.regs
    requires ir[pc].op != MOVEN && ir[pc].op != CLOSURE
    ensures |view| == |ir| && PassesAt(l, ir, view, pc)
  {
    hide Compiled, NotData, SameOperands, Upward, BumpedOne, CheckOne, Moves, CheckMoves, Bindings, CheckBindings;
    OwnWord(ir, l.nups, view, pc);
    CompiledAt(ir, l.nups, view, pc);
    OnePasses(l, ir[pc], view[pc], pc, max);
    if ir[pc].op == TFORLOOP {
      assert ir[pc + 1].op == JMP;
      OwnWord(ir, l.nups, view, pc + 1);
    }
  }

  lemma InstructionPasses(l: Limits, ir: seq<Ins>, view: seq<Ins>, pc: nat, max: int)
    requires Compiled(ir, l.nups, view) && pc < |ir| && NotData(ir, pc) && Bumped(max, ir, l.nups, pc) < l.regs
    ensures |view| == |ir| && PassesAt(l, ir, view, pc)
  {
    hide *;
    if ir[pc].op == MOVEN {
      MovenPasses(l, ir, view, pc, max);
    } else if ir[pc].op == CLOSURE {
      ClosurePasses(l, ir, view, pc, max);
    } else {
      OtherPasses(l, ir, view, pc, max);
    }
  }

  // All register checks of all instructions on the loader's walk pass, whatever other faults there are.
  lemma {:induction false} WalkPasses(l: Limits, ir: seq<Ins>, view: seq<Ins>, pc: nat, max: int)
    requires Compiled(ir, l.nups, view) && NotData(ir, pc) && MaxFrom(max, ir, l.nups, pc) < l.regs
    ensures NoBadRegister(CheckFrom(l, view, pc))
    decreases |ir| - pc
  {
    hide Bumped, CheckInstruction, NotData, Compiled, Extra;
    if pc < |ir| {
      var bumped := Bumped(max, ir, l.nups, pc);
      var next := pc + 1 + Max(0, Extra(ir, l.nups, pc));
      MaxGrows(bumped, ir, l.nups, next);
      InstructionPasses(l, ir, view, pc, max);
      WalkPasses(l, ir, view, next, bumped);
    } else {
      SameLength(ir, l.nups, view);
    }
  }

  lemma SameLength(ir: seq<Ins>, nups: seq<nat>, view: seq<Ins>)
    requires Compiled(ir, nups, view)
    ensures |view| == |ir|
  {
  }

  // ----- prototypes -----

  // All fields of a word, whatever its operation.
  function Fields(w: Word32): Ins
  {
    Ins(OpOf(OpField(w)), AField(w), BField(w), CField(w), BxField(w), SbxField(w), w)
  }

  function View(code: seq<Word32>): (view: seq<Ins>)
    ensures |view| == |code| && forall k :: 0 <= k < |code| ==> view[k] == Fields(code[k])
  {
    seq(|code|, k requires 0 <= k < |code| => Fields(code[k]))
  }

  function NupsOf<T>(children: seq<Function<T>>): seq<nat>
  {
    seq(|children|, k requires 0 <= k < |children| => children[k].header.numUpvalues)
  }

  function CheckLocals(locals: seq<Option<Local>>, regs: int): Check
  {
    if locals == [] then PASSED
    else
      And(if locals[0].Some? then Require(0 <= locals[0].value.reg < regs, BadRegister) else PASSED,
          CheckLocals(locals[1..], regs))
  }

  // validateDecodedProto
  function CheckProto(p: Proto): Check
  {
    var h := p.header;
    And(Require(h.numParameters <= h.numUsedRegs, TooManyParameters),
    And(CheckLocals(h.locals, h.numUsedRegs),
    And(CheckFrom(Limits(h.numUsedRegs, h.constants, h.numUpvalues, NupsOf(p.children), |p.code|), View(p.code), 0),
        CheckChildren(p.children))))
  }

  function CheckChildren(ps: seq<Proto>): Check
  {
    if ps == [] then PASSED else And(CheckProto(ps[0]), CheckChildren(ps[1..]))
  }

  // The compiler's side: the recorded bound, no debug information, operands that fit their fields, the
  // words that belong to an instruction behind it, and nested functions likewise.
  ghost predicate Bounded(f: IRFunction)
  {
    && f.header.numUsedRegs == MaxRegister(f.code, NupsOf(f.children), f.header.numParameters) + 1
    && f.header.locals == []
    && (forall k :: 0 <= k < |f.code| ==> WellFormedWord(f.code, NupsOf(f.children), k))
    && (forall k :: 0 <= k < |f.children| ==> Bounded(f.children[k]))
  }

  ghost predicate WellFormedWord(ir: seq<Ins>, nups: seq<nat>, k: nat)
    requires k < |ir|
  {
    DataWordAt(ir, k) && Accompanied(ir, nups, k) &&
    if ir[k].op == RAW then 0 <= ir[k].raw < WORDS32 else FitsFields(ir[k]) && Upward(ir[k])
  }

  lemma FieldsSame(i: Ins)
    requires FitsFields(i)
    ensures SameOperands(i, Fields(Pack(i)))
  {
    UnpackPack(i);
    hide Pack, OpOf, OpField, AField, BField, CField, BxField;
  }

  lemma {:induction false} PackedAt(ir: seq<Ins>, k: nat)
    requires Packable(ir) && k < |ir|
    ensures PackCode(ir)[k] == Pack(ir[k])
  {
    if k > 0 {
      PackedAt(ir[1..], k - 1);
    }
    hide Pack;
  }

  lemma PackedCompiled(ir: seq<Ins>, nups: seq<nat>)
    requires forall k :: 0 <= k < |ir| ==> WellFormedWord(ir, nups, k)
    ensures Packable(ir) && Compiled(ir, nups, View(PackCode(ir)))
  {
    forall k | 0 <= k < |ir| && ir[k].op == RAW ensures 0 <= ir[k].raw < WORDS32 {
      assert WellFormedWord(ir, nups, k);
    }
    forall k | 0 <= k < |ir|
      ensures DataWordAt(ir, k) && Accompanied(ir, nups, k)
      ensures ir[k].op != RAW ==> SameOperands(ir[k], View(PackCode(ir))[k]) && Upward(ir[k])
    {
      assert WellFormedWord(ir, nups, k);
      PackedAt(ir, k);
      hide SameOperands, FitsFields, Upward, DataWordAt, Accompanied, Pack, PackCode, Fields;
      if ir[k].op != RAW {
        FieldsSame(ir[k]);
      }
    }
  }

  lemma {:induction false} ChildrenPass(ps: seq<Proto>)
    requires forall k :: 0 <= k < |ps| ==> NoBadRegister(CheckProto(ps[k]))
    ensures NoBadRegister(CheckChildren(ps))
  {
    hide CheckProto;
    if ps != [] {
      assert NoBadRegister(CheckProto(ps[0]));
      assert forall k :: 0 <= k < |ps| - 1 ==> ps[1..][k] == ps[k + 1];
      ChildrenPass(ps[1..]);
    }
  }

  lemma CodePasses(f: IRFunction, l: Limits)
    requires Bounded(f) && l.nups == NupsOf(f.children) && l.regs == f.header.numUsedRegs
    ensures Packable(f.code) && NoBadRegister(CheckFrom(l, View(PackCode(f.code)), 0))
    ensures f.header.numParameters <= f.header.numUsedRegs
  {
    PackedCompiled(f.code, l.nups);
    hide CheckFrom, View, PackCode, Compiled, MaxFrom;
    var start := if f.header.numParameters > 1 then f.header.numParameters else 1;
    MaxGrows(start, f.code, l.nups, 0);
    WalkPasses(l, f.code, View(PackCode(f.code)), 0, start);
  }

  // The bound is always large enough for the loader: on every instruction of every nested function, each
  // check of a register and of a register range passes, whatever other faults there are, and so does that
  // of the parameters.
  lemma {:induction false} LoaderAcceptsRegisters(f: IRFunction)
    requires Bounded(f)
    ensures PackableAll(f)
    ensures NoBadRegister(CheckProto(ProtoOf(f)))
    ensures f.header.numParameters <= f.header.numUsedRegs
  {
    var l := Limits(f.header.numUsedRegs, f.header.constants, f.header.numUpvalues, NupsOf(f.children), |f.code|);
    CodePasses(f, l);
    hide CheckFrom, View, PackCode, MaxRegister;
    forall k | 0 <= k < |f.children|
      ensures PackableAll(f.children[k]) && NoBadRegister(CheckProto(ProtoOf(f.children[k])))
    {
      LoaderAcceptsRegisters(f.children[k]);
    }
    ProtoParts(f);
    hide ProtoOf, Bounded, NupsOf;
    ChildrenPass(ProtoOf(f).children);
    hide CheckChildren;
  }

  lemma ProtoParts(f: IRFunction)
    requires PackableAll(f)
    ensures var p := ProtoOf(f);
            && p.header == f.header && p.code == PackCode(f.code) && |p.children| == |f.children|
            && (forall k :: 0 <= k < |p.children| ==> p.children[k] == ProtoOf(f.children[k]))
            && NupsOf(p.children) == NupsOf(f.children)
  {
    forall k | 0 <= k < |f.children| ensures ProtoOf(f).children[k].header == f.children[k].header {
    }
  }

  // validateDecodedProto
  method ValidateDecodedProto(p: Proto) returns (fault: Option<Fault>)
    ensures fault == CheckProto(p).reported
  {
    var h := p.header;
    if h.numParameters > h.numUsedRegs {
      return Some(TooManyParameters);
    }
    fault := ValidateLocals(h.locals, h.numUsedRegs);
    if fault.Some? {
      return;
    }
    var l := Limits(h.numUsedRegs, h.constants, h.numUpvalues, NupsOf(p.children), |p.code|);
    fault := ValidateCode(l, View(p.code));
    if fault.Some? {
      return;
    }
    assert p.children[0..] == p.children;
    var i := 0;
    while i < |p.children|
      invariant 0 <= i <= |p.children|
      invariant CheckChildren(p.children).reported == CheckChildren(p.children[i..]).reported
    {
      fault := ValidateDecodedProto(p.children[i]);
      assert p.children[i..][1..] == p.children[i + 1..];
      if fault.Some? {
        return;
      }
      i := i + 1;
    }
    fault := None;
  }

  method ValidateLocals(locals: seq<Option<Local>>, regs: int) returns (fault: Option<Fault>)
    ensures fault == CheckLocals(locals, regs).reported
  {
    assert locals[0..] == locals;
    for i := 0 to |locals|
      invariant CheckLocals(locals, regs).reported == CheckLocals(locals[i..], regs).reported
    {
      assert locals[i..][1..] == locals[i + 1..];
      if locals[i].Some? && !(0 <= locals[i].value.reg < regs) {
        return Some(BadRegister);
      }
    }
    fault := None;
  }

  method ValidateCode(l: Limits, view: seq<Ins>) returns (fault: Option<Fault>)
    ensures fault == CheckFrom(l, view, 0).reported
  {
    hide CheckInstruction, Extra;
    var pc := 0;
    while pc < |view|
      invariant 0 <= pc
      invariant CheckFrom(l, view, pc).reported == CheckFrom(l, view, 0).reported
      decreases |view| - pc
    {
      fault := CheckInstruction(l, view, pc).reported;
      if fault.Some? {
        return;
      }
      pc := pc + 1 + Max(0, Extra(view, l.nups, pc));
    }
    fault := None;
  }

  // ----- and the compiler's own assumption -----

  lemma OneWordBumps(max: int, code: seq<Ins>, nups: seq<nat>, pc: nat)
    requires pc < |code| && OneWord(code[pc]) && 0 <= code[pc].a && Upward(code[pc])
    requires Bumped(max, code, nups, pc) < BIT_RK
    ensures code[pc].a < BIT_RK && Extra(code, nups, pc) == 0
  {
    hide IsK, Max, Range, RK, Moves, Bindings;
  }

  lemma MaxStep(max: int, code: seq<Ins>, nups: seq<nat>, pc: nat)
    requires pc < |code|
    ensures MaxFrom(max, code, nups, pc) ==
            MaxFrom(Bumped(max, code, nups, pc), code, nups, pc + 1 + Max(0, Extra(code, nups, pc)))
  {
    hide Bumped, Extra;
  }

  lemma BoundedStep(max: int, code: seq<Ins>, nups: seq<nat>, pc: nat)
    requires OneWords(code) && pc < |code| && MaxFrom(max, code, nups, pc) < BIT_RK
    ensures 0 <= code[pc].a < BIT_RK
    ensures MaxFrom(Bumped(max, code, nups, pc), code, nups, pc + 1) < BIT_RK
  {
    hide MaxFrom, Bumped, Extra, OneWord;
    assert OneWord(code[pc]) && Upward(code[pc]) && 0 <= code[pc].a;
    hide *;
    var next := pc + 1 + Max(0, Extra(code, nups, pc));
    var bumped := Bumped(max, code, nups, pc);
    MaxStep(max, code, nups, pc);
    MaxGrows(bumped, code, nups, next);
    OneWordBumps(max, code, nups, pc);
  }

  lemma {:induction false} BoundedFits(max: int, code: seq<Ins>, nups: seq<nat>, pc: nat)
    requires OneWords(code) && MaxFrom(max, code, nups, pc) < BIT_RK && pc <= |code|
    ensures forall k :: pc <= k < |code| ==> 0 <= code[k].a < BIT_RK
    decreases |code| - pc
  {
    hide MaxFrom, Bumped, OneWords;
    if pc < |code| {
      BoundedStep(max, code, nups, pc);
      BoundedFits(Bumped(max, code, nups, pc), code, nups, pc + 1);
    }
  }

  // Code whose bound passes the overflow check uses no register that could be taken for a constant:
  // the assumption under which the compiled fragments are proved.
  lemma CompiledFits(code: seq<Ins>, nups: seq<nat>, numParameters: int)
    requires OneWords(code)
    requires MaxRegister(code, nups, numParameters) < BIT_RK
    ensures Fits(code)
  {
    BoundedFits(if numParameters > 1 then numParameters else 1, code, nups, 0);
  }
}
