/**
 The part of the source language whose compilation is proved: arithmetic over numbers and locals,
 comparisons, and conditions built with `not`, `and`, `or`.  The number operations themselves are
 a parameter, shared by this evaluator, by the compiler's constant folder and by the machine.
 */
module Lang {
  import opened Uint256

  datatype Value = Nil | Bool(b: bool) | Num(n: U256)

  datatype ArithOp = Plus | Minus | Times | Divide | Modulo | Raise

  datatype RelOp = Less | Greater | LessEq | GreaterEq | Equal | NotEqual

  datatype Expr =
    | NilExpr
    | FalseExpr
    | TrueExpr
    | Number(n: U256)
    | Ident(name: string)
    | Arith(op: ArithOp, lhs: Expr, rhs: Expr)
    | Relation(rel: RelOp, lhs: Expr, rhs: Expr)
    | Not(e: Expr)
    | And(lhs: Expr, rhs: Expr)
    | Or(lhs: Expr, rhs: Expr)

  datatype Error = DivisionByZero | ModuloByZero | BadOperands | BadComparison | Malformed

  datatype Result<T> = Ok(value: T) | Err(error: Error)

  // lu256Add, lu256Sub, lu256Mul, lu256Div, lu256Mod, lu256Pow
  type NumberFn = (ArithOp, U256, U256) -> U256

  type Env = map<string, Value>

  // LVAsBool
  predicate Truthy(v: Value) { v != Nil && v != Bool(false) }

  // numberArith and objectArith: division by zero and non-numbers raise
  function Apply(f: NumberFn, op: ArithOp, x: Value, y: Value): Result<Value>
  {
    if !x.Num? || !y.Num? then Err(BadOperands)
    else if op == Divide && y.n == ZERO then Err(DivisionByZero)
    else if op == Modulo && y.n == ZERO then Err(ModuloByZero)
    else Ok(Num(f(op, x.n, y.n)))
  }

  // lessThan and the LE handler: only numbers are ordered
  function Ordered(x: Value, y: Value, orEqual: bool): Result<bool>
  {
    if x.Num? && y.Num? then Ok(if orEqual then Cmp(x.n, y.n) <= 0 else Cmp(x.n, y.n) < 0)
    else Err(BadComparison)
  }

  function Compare(op: RelOp, x: Value, y: Value): Result<bool>
  {
    match op
    case Less => Ordered(x, y, false)
    case Greater => Ordered(y, x, false)
    case LessEq => Ordered(x, y, true)
    case GreaterEq => Ordered(y, x, true)
    case Equal => Ok(x == y)
    case NotEqual => Ok(x != y)
  }

  // The value of an expression; operands left to right, `and` and `or` only as far as needed.
  function Eval(e: Expr, env: Env, f: NumberFn): Result<Value>
  {
    match e
    case NilExpr => Ok(Nil)
    case FalseExpr => Ok(Bool(false))
    case TrueExpr => Ok(Bool(true))
    case Number(n) => Ok(Num(n))
    case Ident(x) => if x in env then Ok(env[x]) else Err(Malformed)
    case Arith(op, l, r) =>
      (match Eval(l, env, f)
       case Err(x) => Err(x)
       case Ok(v) =>
         match Eval(r, env, f)
         case Err(x) => Err(x)
         case Ok(w) => Apply(f, op, v, w))
    case Relation(op, l, r) =>
      (match Eval(l, env, f)
       case Err(x) => Err(x)
       case Ok(v) =>
         match Eval(r, env, f)
         case Err(x) => Err(x)
         case Ok(w) =>
           match Compare(op, v, w)
           case Err(x) => Err(x)
           case Ok(b) => Ok(Bool(b)))
    case Not(c) =>
      (match Eval(c, env, f)
       case Err(x) => Err(x)
       case Ok(v) => Ok(Bool(!Truthy(v))))
    case And(l, r) =>
      (match Eval(l, env, f)
       case Err(x) => Err(x)
       case Ok(v) => if Truthy(v) then Eval(r, env, f) else Ok(v))
    case Or(l, r) =>
      (match Eval(l, env, f)
       case Err(x) => Err(x)
       case Ok(v) => if Truthy(v) then Ok(v) else Eval(r, env, f))
  }

  // Arithmetic over numbers and locals.
  predicate PureArith(e: Expr)
  {
    match e
    case Number(_) => true
    case Ident(_) => true
    case Arith(_, l, r) => PureArith(l) && PureArith(r)
    case _ => false
  }

  // What may stand to the right of an assignment: arithmetic or a boolean.
  predicate Simple(e: Expr) { PureArith(e) || e.TrueExpr? || e.FalseExpr? }

  // Conditions: booleans, locals, arithmetic, comparisons of arithmetic, not, and, or.
  predicate Condition(e: Expr)
  {
    match e
    case Relation(_, l, r) => PureArith(l) && PureArith(r)
    case Not(c) => Condition(c)
    case And(l, r) => Condition(l) && Condition(r)
    case Or(l, r) => Condition(l) && Condition(r)
    case NilExpr => false
    case _ => Simple(e)
  }

  // Every name is in scope.
  predicate Scoped(e: Expr, names: seq<string>)
  {
    match e
    case Ident(x) => x in names
    case Arith(_, l, r) => Scoped(l, names) && Scoped(r, names)
    case Relation(_, l, r) => Scoped(l, names) && Scoped(r, names)
    case Not(c) => Scoped(c, names)
    case And(l, r) => Scoped(l, names) && Scoped(r, names)
    case Or(l, r) => Scoped(l, names) && Scoped(r, names)
    case _ => true
  }

  // ----- constant folding -----

  // constFold with lnumberValue: a number when all operands fold to numbers and no divisor is zero
  function ConstFold(e: Expr, f: NumberFn): Expr
  {
    match e
    case Arith(op, l, r) =>
      var x, y := ConstFold(l, f), ConstFold(r, f);
      if x.Number? && y.Number? && !((op == Divide || op == Modulo) && y.n == ZERO)
      then Number(f(op, x.n, y.n))
      else e
    case _ => e
  }

  // Folding keeps the value in every environment, and the failure when there is one.
  lemma {:induction false} FoldPreserves(e: Expr, env: Env, f: NumberFn)
    ensures Eval(ConstFold(e, f), env, f) == Eval(e, env, f)
  {
    if e.Arith? {
      FoldPreserves(e.lhs, env, f);
      FoldPreserves(e.rhs, env, f);
    }
  }

  lemma {:induction false} FoldShape(e: Expr, f: NumberFn)
    requires PureArith(e)
    ensures ConstFold(e, f).Number? || ConstFold(e, f) == e
  {
  }
}
