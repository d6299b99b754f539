/**
 What it means for a stretch of code to compute an expression, to deliver an operand, or to decide
 a condition; and how such stretches combine.
 */
module Fragments {
  import opened Uint256
  import opened Lang
  import opened Opcodes
  import opened Machine

  // ----- locals -----

  // FindLocalVar: the register of the innermost declaration of a name, -1 when there is none.
  function Slot(names: seq<string>, x: string): (r: int)
    ensures -1 <= r < |names|
    ensures r == -1 <==> x !in names
    ensures r >= 0 ==> names[r] == x && x !in names[r + 1..]
  {
    if names == [] then -1
    else if names[|names| - 1] == x then |names| - 1
    else Slot(names[..|names| - 1], x)
  }

  lemma SlotStep(names: seq<string>, x: string)
    ensures Slot(names, x) ==
            if names == [] then -1
            else if names[|names| - 1] == x then |names| - 1
            else Slot(names[..|names| - 1], x)
  {
  }

  function EnvOf(names: seq<string>, regs: Regs): Env
  {
    map x | x in names :: Get(regs, Slot(names, x))
  }

  // The registers below n other than `except` hold the same values.
  ghost predicate Agree(before: Regs, after: Regs, n: int, except: int)
  {
    forall r :: 0 <= r < n && r != except ==> Get(after, r) == Get(before, r)
  }

  lemma AgreeTransitive(a: Regs, b: Regs, c: Regs, n: int)
    requires Agree(a, b, n, -1) && Agree(b, c, n, -1)
    ensures Agree(a, c, n, -1)
  {
  }

  lemma EnvAgrees(names: seq<string>, before: Regs, after: Regs, n: int)
    requires Agree(before, after, n, -1) && |names| <= n
    ensures EnvOf(names, after) == EnvOf(names, before)
  {
  }

  // ----- straight-line fragments -----

  // Destination registers fit their 8-bit field, so that none is taken for a constant.
  ghost predicate Fits(frag: seq<Ins>)
  {
    forall k :: 0 <= k < |frag| ==> 0 <= frag[k].a < BIT_RK
  }

  // Ranges run upwards, as the compiler emits them.
  predicate Upward(i: Ins)
  {
    0 <= i.a && (i.op == LOADNIL ==> i.a <= i.b) && (i.op == CONCAT ==> 0 <= i.b <= i.c)
  }

  // What expressions, conditions and assignments compile to: no instruction is followed by a data word.
  predicate OneWord(i: Ins)
  {
    Plain(i) || (i.op in {JMP, EQ, LT, LE} && 0 <= i.a < BIT_RK) || i.op == TEST
  }

  ghost predicate OneWords(code: seq<Ins>)
  {
    forall k :: 0 <= k < |code| ==> OneWord(code[k]) && Upward(code[k])
  }

  predicate Straight(frag: seq<Ins>)
  {
    forall k :: 0 <= k < |frag| ==> Plain(frag[k])
  }

  ghost predicate ComputesAt(e: Expr, frag: seq<Ins>, consts: seq<Value>, names: seq<string>, f: NumberFn,
                             dest: int, reg: int, regs: Regs)
  {
    match Eval(e, EnvOf(names, regs), f)
    case Err(x) => Exec(frag, consts, f, regs) == Err(x)
    case Ok(v) =>
      var out := Exec(frag, consts, f, regs);
      out.Ok? && Get(out.value, dest) == v && Agree(regs, out.value, reg, dest)
  }

  // From any registers, with any later constants, the fragment leaves the value of e in dest and
  // changes nothing else below reg; it raises what e raises.
  ghost predicate Computes(e: Expr, frag: seq<Ins>, consts: seq<Value>, names: seq<string>, f: NumberFn,
                           dest: int, reg: int)
  {
    && frag != [] && Straight(frag)
    && (Fits(frag[..|frag| - 1]) ==>
      forall k, regs :: consts <= k ==> ComputesAt(e, frag, k, names, f, dest, reg, regs))
  }

  ghost predicate DeliversAt(e: Expr, frag: seq<Ins>, consts: seq<Value>, names: seq<string>, f: NumberFn,
                             rk: int, reg: int, regs: Regs)
  {
    match Eval(e, EnvOf(names, regs), f)
    case Err(x) => Exec(frag, consts, f, regs) == Err(x)
    case Ok(v) =>
      var out := Exec(frag, consts, f, regs);
      out.Ok? && RkValue(rk, consts, out.value) == Ok(v) && Agree(regs, out.value, reg, -1)
  }

  // An operand: a constant, a local, or the register reg, in which case later code works from next > reg.
  ghost predicate Held(rk: int, consts: seq<Value>, names: seq<string>, reg: int, next: int)
  {
    || (IsK(rk) && 0 <= IndexK(rk) < |consts| && next == reg)
    || (0 <= rk < |names| && rk < BIT_RK && next == reg)
    || (rk == reg && next == reg + 1)
  }

  ghost predicate Delivers(e: Expr, frag: seq<Ins>, consts: seq<Value>, names: seq<string>, f: NumberFn,
                           rk: int, reg: int, next: int)
  {
    && Held(rk, consts, names, reg, next) && Straight(frag)
    && (next == reg + 1 ==> frag != [] && frag[|frag| - 1].a == reg)
    && (Fits(frag) ==> forall k, regs :: consts <= k ==> DeliversAt(e, frag, k, names, f, rk, reg, regs))
  }

  lemma FitsParts(a: seq<Ins>, b: seq<Ins>)
    ensures Fits(a + b) <==> Fits(a) && Fits(b)
  {
    if Fits(a + b) {
      assert forall k :: 0 <= k < |a| ==> a[k] == (a + b)[k];
      assert forall k :: 0 <= k < |b| ==> b[k] == (a + b)[|a| + k];
    }
  }

  lemma ConstantComputes(n: U256, bx: int, consts: seq<Value>, names: seq<string>, f: NumberFn, dest: int, reg: int)
    requires 0 <= bx < |consts| && consts[bx] == Num(n)
    ensures Computes(Number(n), [ABx(LOADK, dest, bx)], consts, names, f, dest, reg)
  {
    var frag := [ABx(LOADK, dest, bx)];
    forall k, regs | consts <= k ensures ComputesAt(Number(n), frag, k, names, f, dest, reg, regs) {
      ExecOne(frag[0], k, f, regs);
    }
  }

  lemma BooleanComputes(b: bool, consts: seq<Value>, names: seq<string>, f: NumberFn, dest: int, reg: int)
    ensures Computes(if b then TrueExpr else FalseExpr, [ABC(LOADBOOL, dest, if b then 1 else 0, 0)],
                     consts, names, f, dest, reg)
  {
    var e := if b then TrueExpr else FalseExpr;
    var frag := [ABC(LOADBOOL, dest, if b then 1 else 0, 0)];
    forall k, regs | consts <= k ensures ComputesAt(e, frag, k, names, f, dest, reg, regs) {
      ExecOne(frag[0], k, f, regs);
    }
  }

  lemma LocalComputes(x: string, consts: seq<Value>, names: seq<string>, f: NumberFn, dest: int, reg: int)
    requires x in names
    ensures Computes(Ident(x), [ABC(MOVE, dest, Slot(names, x), 0)], consts, names, f, dest, reg)
  {
    var frag := [ABC(MOVE, dest, Slot(names, x), 0)];
    forall k, regs | consts <= k ensures ComputesAt(Ident(x), frag, k, names, f, dest, reg, regs) {
      ExecOne(frag[0], k, f, regs);
    }
  }

  lemma FoldedComputes(e: Expr, frag: seq<Ins>, consts: seq<Value>, names: seq<string>, f: NumberFn,
                       dest: int, reg: int)
    requires Computes(ConstFold(e, f), frag, consts, names, f, dest, reg)
    ensures Computes(e, frag, consts, names, f, dest, reg)
  {
    if Fits(frag[..|frag| - 1]) {
      forall k, regs | consts <= k ensures ComputesAt(e, frag, k, names, f, dest, reg, regs) {
        assert ComputesAt(ConstFold(e, f), frag, k, names, f, dest, reg, regs);
        FoldPreserves(e, EnvOf(names, regs), f);
      }
    }
  }

  // The value left in reg is the operand.
  lemma KeptOperand(e: Expr, frag: seq<Ins>, consts: seq<Value>, names: seq<string>, f: NumberFn, reg: int)
    requires Computes(e, frag, consts, names, f, reg, reg) && frag[|frag| - 1].a == reg
    ensures Delivers(e, frag, consts, names, f, reg, reg, reg + 1)
  {
    if Fits(frag) {
      assert Fits(frag[..|frag| - 1]);
      assert frag[|frag| - 1].a < BIT_RK;
      forall k, regs | consts <= k ensures DeliversAt(e, frag, k, names, f, reg, reg, regs) {
        assert ComputesAt(e, frag, k, names, f, reg, reg, regs);
      }
    }
  }

  // A lone LOADK of a small index is dropped: its constant is the operand.
  lemma ConstantOperand(e: Expr, bx: int, consts: seq<Value>, names: seq<string>, f: NumberFn, reg: int)
    requires 0 <= bx < |consts| && bx <= MAX_INDEX_RK
    requires Computes(e, [ABx(LOADK, reg, bx)], consts, names, f, reg, reg)
    ensures Delivers(e, [], consts, names, f, RkAsk(bx), reg, reg)
  {
    var i := ABx(LOADK, reg, bx);
    RkRoundTrip(bx);
    forall k, regs | consts <= k ensures DeliversAt(e, [], k, names, f, RkAsk(bx), reg, regs) {
      assert ComputesAt(e, [i], k, names, f, reg, reg, regs);
      ExecOne(i, k, f, regs);
    }
  }

  // A lone MOVE is dropped: its source is the operand.
  lemma LocalOperand(e: Expr, b: int, consts: seq<Value>, names: seq<string>, f: NumberFn, reg: int)
    requires 0 <= b < |names| <= BIT_RK
    requires Computes(e, [ABC(MOVE, reg, b, 0)], consts, names, f, reg, reg)
    ensures Delivers(e, [], consts, names, f, b, reg, reg)
  {
    var i := ABC(MOVE, reg, b, 0);
    forall k, regs | consts <= k ensures DeliversAt(e, [], k, names, f, b, reg, regs) {
      assert ComputesAt(e, [i], k, names, f, reg, reg, regs);
      ExecOne(i, k, f, regs);
    }
  }

  // An operand keeps its value while the other one is computed.
  lemma HeldValue(rk: int, consts: seq<Value>, k: seq<Value>, names: seq<string>, reg: int, next: int,
                  before: Regs, after: Regs)
    requires Held(rk, consts, names, reg, next) && consts <= k && |names| <= reg
    requires rk == reg && next == reg + 1 ==> rk < BIT_RK
    requires Agree(before, after, next, -1)
    ensures RkValue(rk, k, after) == RkValue(rk, k, before)
  {
  }

  // Two operands, left first.
  ghost predicate PairAt(l: Expr, r: Expr, frag: seq<Ins>, consts: seq<Value>, names: seq<string>, f: NumberFn,
                         b: int, c: int, reg: int, regs: Regs)
  {
    var env := EnvOf(names, regs);
    var out := Exec(frag, consts, f, regs);
    match Eval(l, env, f)
    case Err(x) => out == Err(x)
    case Ok(v) =>
      match Eval(r, env, f)
      case Err(x) => out == Err(x)
      case Ok(w) =>
        && out.Ok?
        && RkValue(b, consts, out.value) == Ok(v)
        && RkValue(c, consts, out.value) == Ok(w)
        && Agree(regs, out.value, reg, -1)
  }

  lemma PairOfOperands(l: Expr, r: Expr, fl: seq<Ins>, fr: seq<Ins>, consts: seq<Value>, more: seq<Value>,
                       names: seq<string>, f: NumberFn, b: int, c: int, reg: int, mid: int, next: int,
                       k: seq<Value>, regs: Regs)
    requires consts <= more <= k && |names| <= reg
    requires Delivers(l, fl, consts, names, f, b, reg, mid)
    requires Delivers(r, fr, more, names, f, c, mid, next)
    requires Fits(fl + fr)
    ensures PairAt(l, r, fl + fr, k, names, f, b, c, reg, regs)
  {
    FitsParts(fl, fr);
    assert consts <= k;
    assert DeliversAt(l, fl, k, names, f, b, reg, regs);
    ExecAppend(fl, fr, k, f, regs);
    var first := Exec(fl, k, f, regs);
    if Eval(l, EnvOf(names, regs), f).Ok? {
      EnvAgrees(names, regs, first.value, reg);
      assert DeliversAt(r, fr, k, names, f, c, mid, first.value);
      var second := Exec(fr, k, f, first.value);
      if second.Ok? {
        HeldValue(b, consts, k, names, reg, mid, first.value, second.value);
      }
    }
  }

  ghost predicate Pair(l: Expr, r: Expr, frag: seq<Ins>, consts: seq<Value>, names: seq<string>, f: NumberFn,
                       b: int, c: int, reg: int)
  {
    && Straight(frag)
    && (Fits(frag) ==> forall k, regs :: consts <= k ==> PairAt(l, r, frag, k, names, f, b, c, reg, regs))
  }

  lemma OperandsPair(l: Expr, r: Expr, fl: seq<Ins>, fr: seq<Ins>, consts: seq<Value>, more: seq<Value>,
                     names: seq<string>, f: NumberFn, b: int, c: int, reg: int, mid: int, next: int)
    requires consts <= more && |names| <= reg
    requires Delivers(l, fl, consts, names, f, b, reg, mid)
    requires Delivers(r, fr, more, names, f, c, mid, next)
    ensures Pair(l, r, fl + fr, more, names, f, b, c, reg)
  {
    if Fits(fl + fr) {
      forall k, regs | more <= k ensures PairAt(l, r, fl + fr, k, names, f, b, c, reg, regs) {
        PairOfOperands(l, r, fl, fr, consts, more, names, f, b, c, reg, mid, next, k, regs);
      }
    }
    hide PairAt, DeliversAt;
  }

  function ArithOpcode(op: ArithOp): Op
  {
    match op
    case Plus => ADD
    case Minus => SUB
    case Times => MUL
    case Divide => DIV
    case Modulo => MOD
    case Raise => POW
  }

  lemma ArithOneWord(op: ArithOp, dest: nat, b: int, c: int)
    ensures var i := ABC(ArithOpcode(op), dest, b, c);
            OneWord(i) && Upward(i) && i.op != MOVE && i.op != LOADK && i.op != LOADNIL
  {
  }

  lemma ArithSem(op: ArithOp, dest: int, b: int, c: int, k: seq<Value>, f: NumberFn, regs: Regs)
    ensures var i := ABC(ArithOpcode(op), dest, b, c);
            Plain(i) && Sem(i, k, f, regs) == ArithEffect(f, op, i, k, regs)
  {
  }

  lemma ArithAt(op: ArithOp, l: Expr, r: Expr, frag: seq<Ins>, k: seq<Value>, names: seq<string>, f: NumberFn,
                b: int, c: int, reg: int, dest: int, regs: Regs)
    requires PairAt(l, r, frag, k, names, f, b, c, reg, regs)
    ensures ComputesAt(Arith(op, l, r), frag + [ABC(ArithOpcode(op), dest, b, c)], k, names, f, dest, reg, regs)
  {
    var i := ABC(ArithOpcode(op), dest, b, c);
    ExecAppend(frag, [i], k, f, regs);
    var out := Exec(frag, k, f, regs);
    if out.Ok? {
      ExecOne(i, k, f, out.value);
      ArithSem(op, dest, b, c, k, f, out.value);
    }
    hide Exec, Sem, ArithOpcode, RkValue, Apply;
  }

  lemma ArithComputes(op: ArithOp, l: Expr, r: Expr, frag: seq<Ins>, consts: seq<Value>, names: seq<string>,
                      f: NumberFn, b: int, c: int, reg: int, dest: int)
    requires Pair(l, r, frag, consts, names, f, b, c, reg)
    ensures Computes(Arith(op, l, r), frag + [ABC(ArithOpcode(op), dest, b, c)], consts, names, f, dest, reg)
  {
    hide ComputesAt, PairAt, ArithOpcode;
    var i := ABC(ArithOpcode(op), dest, b, c);
    var whole := frag + [i];
    assert whole[..|whole| - 1] == frag;
    assert Plain(i) by {
      ArithSem(op, dest, b, c, consts, f, map[]);
    }
    hide Plain;
    if Fits(frag) {
      forall k, regs | consts <= k ensures ComputesAt(Arith(op, l, r), whole, k, names, f, dest, reg, regs) {
        ArithAt(op, l, r, frag, k, names, f, b, c, reg, dest, regs);
      }
    }
  }
}
