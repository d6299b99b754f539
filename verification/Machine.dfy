/**
 The register machine: one instruction, straight-line code, and code with jumps to labels.
 */
module Machine {
  import opened Uint256
  import opened Lang
  import opened Opcodes

  // Registers of the running frame; a register never written holds nil.
  type Regs = map<int, Value>

  function Get(regs: Regs, r: int): Value { if r in regs then regs[r] else Nil }

  // What one instruction does: continue with new registers, skipping `skip` instructions, or raise.
  datatype Effect = Go(regs: Regs, skip: int) | Fail(error: Error)

  // rkValue
  function RkValue(x: int, consts: seq<Value>, regs: Regs): Result<Value>
  {
    if IsK(x) then (if 0 <= IndexK(x) < |consts| then Ok(consts[IndexK(x)]) else Err(Malformed))
    else Ok(Get(regs, x))
  }

  function NilRange(regs: Regs, a: int, b: int): Regs
    decreases b - a
  {
    if a > b then regs else NilRange(regs, a, b - 1)[b := Nil]
  }

  function Skip(regs: Regs, condition: bool): Effect { Go(regs, if condition then 1 else 0) }

  // EQ, LT, LE: pc++ when the outcome, as 0 for true and 1 for false, equals A
  function CompareEffect(outcome: Result<bool>, a: int, regs: Regs): Effect
  {
    match outcome
    case Err(x) => Fail(x)
    case Ok(b) => Skip(regs, (if b then 0 else 1) == a)
  }

  function ArithEffect(f: NumberFn, op: ArithOp, i: Ins, consts: seq<Value>, regs: Regs): Effect
  {
    match (RkValue(i.b, consts, regs), RkValue(i.c, consts, regs))
    case (Ok(x), Ok(y)) =>
      (match Apply(f, op, x, y)
       case Err(e) => Fail(e)
       case Ok(v) => Go(regs[i.a := v], 0))
    case _ => Fail(Malformed)
  }

  function CompareRk(op: RelOp, i: Ins, consts: seq<Value>, regs: Regs): Effect
  {
    match (RkValue(i.b, consts, regs), RkValue(i.c, consts, regs))
    case (Ok(x), Ok(y)) => CompareEffect(Compare(op, x, y), i.a, regs)
    case _ => Fail(Malformed)
  }

  // Instructions that are always followed by the next one.
  predicate Plain(i: Ins)
  {
    match i.op
    case LOADBOOL => i.c == 0
    case MOVE | LOADK | LOADNIL | ADD | SUB | MUL | DIV | MOD | POW | NOP => true
    case _ => false
  }

  // The handlers of the instructions the compiled fragments consist of, jumps aside.
  function Sem(i: Ins, consts: seq<Value>, f: NumberFn, regs: Regs): (e: Effect)
    ensures e.Go? ==> 0 <= e.skip <= (if Plain(i) then 0 else 1)
  {
    match i.op
    case MOVE => Go(regs[i.a := Get(regs, i.b)], 0)
    case LOADK => if 0 <= i.bx < |consts| then Go(regs[i.a := consts[i.bx]], 0) else Fail(Malformed)
    case LOADBOOL => Go(regs[i.a := Bool(i.b != 0)], if i.c != 0 then 1 else 0)
    case LOADNIL => Go(NilRange(regs, i.a, i.b), 0)
    case ADD => ArithEffect(f, Plus, i, consts, regs)
    case SUB => ArithEffect(f, Minus, i, consts, regs)
    case MUL => ArithEffect(f, Times, i, consts, regs)
    case DIV => ArithEffect(f, Divide, i, consts, regs)
    case MOD => ArithEffect(f, Modulo, i, consts, regs)
    case POW => ArithEffect(f, Raise, i, consts, regs)
    case EQ => CompareRk(Equal, i, consts, regs)
    case LT => CompareRk(Less, i, consts, regs)
    case LE => CompareRk(LessEq, i, consts, regs)
    case TEST => Skip(regs, Truthy(Get(regs, i.a)) == (i.c == 0))
    case NOP => Go(regs, 0)
    case _ => Fail(Malformed)
  }

  // ----- straight-line code -----

  function Exec(code: seq<Ins>, consts: seq<Value>, f: NumberFn, regs: Regs): Result<Regs>
  {
    if code == [] then Ok(regs)
    else
      match Sem(code[0], consts, f, regs)
      case Fail(x) => Err(x)
      case Go(r, skip) => if skip == 0 then Exec(code[1..], consts, f, r) else Err(Malformed)
  }

  lemma {:induction false} ExecAppend(a: seq<Ins>, b: seq<Ins>, consts: seq<Value>, f: NumberFn, regs: Regs)
    ensures Exec(a + b, consts, f, regs) ==
            (match Exec(a, consts, f, regs) case Err(x) => Err(x) case Ok(r) => Exec(b, consts, f, r))
  {
    if a == [] {
      assert a + b == b;
    } else {
      assert (a + b)[1..] == a[1..] + b;
      match Sem(a[0], consts, f, regs)
      case Fail(_) =>
      case Go(r, skip) => if skip == 0 { ExecAppend(a[1..], b, consts, f, r); }
    }
  }

  lemma ExecOne(i: Ins, consts: seq<Value>, f: NumberFn, regs: Regs)
    ensures Exec([i], consts, f, regs) ==
            (match Sem(i, consts, f, regs)
             case Fail(x) => Err(x)
             case Go(r, skip) => if skip == 0 then Ok(r) else Err(Malformed))
  {
    assert [i][1..] == [];
  }

  lemma {:induction false} NilRangeAt(regs: Regs, a: int, b: int, r: int)
    ensures Get(NilRange(regs, a, b), r) == if a <= r <= b then Nil else Get(regs, r)
    decreases b - a
  {
    if a <= b {
      NilRangeAt(regs, a, b - 1, r);
    }
  }
}
