/**
 Assignment of several expressions to several locals: the values, and the code that computes them
 into fresh registers and then moves them.
 */
module Assignments {
  import opened Uint256
  import opened Lang
  import opened Opcodes
  import opened Machine
  import opened Fragments

  // ----- meaning -----

  // Left to right, stopping at the first failure.
  function EvalAll(es: seq<Expr>, env: Env, f: NumberFn): (r: Result<seq<Value>>)
    ensures r.Ok? ==> |r.value| == |es|
    ensures r.Ok? ==> forall i :: 0 <= i < |es| ==> Eval(es[i], env, f) == Ok(r.value[i])
  {
    if es == [] then Ok([])
    else
      match EvalAll(es[..|es| - 1], env, f)
      case Err(x) => Err(x)
      case Ok(vs) =>
        match Eval(es[|es| - 1], env, f)
        case Err(x) => Err(x)
        case Ok(v) => Ok(vs + [v])
  }

  // Missing expressions are nil.
  function Padded(rhs: seq<Expr>, n: nat): (es: seq<Expr>)
    ensures |es| == (if |rhs| < n then n else |rhs|)
    ensures forall i :: 0 <= i < |es| ==> es[i] == if i < |rhs| then rhs[i] else NilExpr
  {
    rhs + seq(if |rhs| < n then n - |rhs| else 0, _ => NilExpr)
  }

  // What the compiled assignment computes: all right-hand sides in the environment before, except
  // that a lone target is written before the surplus expressions are evaluated.
  function Assigned(targets: seq<string>, rhs: seq<Expr>, env: Env, f: NumberFn): (r: Result<seq<Value>>)
    requires targets != [] && rhs != []
    ensures r.Ok? ==> |targets| <= |r.value|
  {
    if |targets| == 1 then
      match Eval(rhs[0], env, f)
      case Err(x) => Err(x)
      case Ok(v) =>
        match EvalAll(rhs[1..], env[targets[0] := v], f)
        case Err(x) => Err(x)
        case Ok(_) => Ok([v])
    else EvalAll(Padded(rhs, |targets|), env, f)
  }

  predicate Mentions(e: Expr, x: string)
  {
    match e
    case Ident(y) => x == y
    case Arith(_, l, r) => Mentions(l, x) || Mentions(r, x)
    case Relation(_, l, r) => Mentions(l, x) || Mentions(r, x)
    case Not(c) => Mentions(c, x)
    case And(l, r) => Mentions(l, x) || Mentions(r, x)
    case Or(l, r) => Mentions(l, x) || Mentions(r, x)
    case _ => false
  }

  lemma {:induction false} EvalUnmentioned(e: Expr, env: Env, x: string, v: Value, f: NumberFn)
    requires !Mentions(e, x)
    ensures Eval(e, env[x := v], f) == Eval(e, env, f)
  {
    match e
    case Arith(_, l, r) => EvalUnmentioned(l, env, x, v, f); EvalUnmentioned(r, env, x, v, f);
    case Relation(_, l, r) => EvalUnmentioned(l, env, x, v, f); EvalUnmentioned(r, env, x, v, f);
    case Not(c) => EvalUnmentioned(c, env, x, v, f);
    case And(l, r) => EvalUnmentioned(l, env, x, v, f); EvalUnmentioned(r, env, x, v, f);
    case Or(l, r) => EvalUnmentioned(l, env, x, v, f); EvalUnmentioned(r, env, x, v, f);
    case _ =>
  }

  lemma {:induction false} EvalAllUnmentioned(es: seq<Expr>, env: Env, x: string, v: Value, f: NumberFn)
    requires forall i :: 0 <= i < |es| ==> !Mentions(es[i], x)
    ensures EvalAll(es, env[x := v], f) == EvalAll(es, env, f)
  {
    if es != [] {
      EvalAllUnmentioned(es[..|es| - 1], env, x, v, f);
      EvalUnmentioned(es[|es| - 1], env, x, v, f);
    }
  }

  lemma {:induction false} EvalAllFirst(e: Expr, es: seq<Expr>, env: Env, f: NumberFn)
    ensures EvalAll([e] + es, env, f) ==
            (match Eval(e, env, f)
             case Err(x) => Err(x)
             case Ok(v) =>
               match EvalAll(es, env, f)
               case Err(x) => Err(x)
               case Ok(vs) => Ok([v] + vs))
  {
    if es == [] {
      assert [e] + es == [e] && [e][..0] == [];
      var v := Eval(e, env, f);
      if v.Ok? {
        assert [] + [v.value] == [v.value] == [v.value] + [];
      }
    } else {
      var whole, last := [e] + es, es[|es| - 1];
      assert whole[..|whole| - 1] == [e] + es[..|es| - 1] && whole[|whole| - 1] == last;
      assert es != [] && whole != [];
      EvalAllFirst(e, es[..|es| - 1], env, f);
      var v, vs, w := Eval(e, env, f), EvalAll(es[..|es| - 1], env, f), Eval(last, env, f);
      if v.Ok? && vs.Ok? && w.Ok? {
        assert [v.value] + (vs.value + [w.value]) == ([v.value] + vs.value) + [w.value];
      }
    }
  }

  // Assignment is simultaneous when there are several targets, or no surplus expression reads the
  // only one: the same failure, or the values the expressions have before.
  lemma AssignmentSimultaneous(targets: seq<string>, rhs: seq<Expr>, env: Env, f: NumberFn)
    requires targets != [] && rhs != []
    requires |targets| > 1 || forall i :: 1 <= i < |rhs| ==> !Mentions(rhs[i], targets[0])
    ensures
      match EvalAll(Padded(rhs, |targets|), env, f)
      case Err(x) => Assigned(targets, rhs, env, f) == Err(x)
      case Ok(vs) =>
        var out := Assigned(targets, rhs, env, f);
        out.Ok? && |targets| <= |out.value| && out.value[..|targets|] == vs[..|targets|]
  {
    if |targets| == 1 {
      assert Padded(rhs, 1) == [rhs[0]] + rhs[1..];
      EvalAllFirst(rhs[0], rhs[1..], env, f);
      var v := Eval(rhs[0], env, f);
      if v.Ok? {
        EvalAllUnmentioned(rhs[1..], env, targets[0], v.value, f);
      }
    }
  }

  // A surplus expression that reads the only target sees the new value: `x = 0, 1 / x` fails where
  // x was 1, though no expression fails before.
  lemma SurplusSeesAssignment(f: NumberFn)
    ensures
      var env := map["x" := Num(ONE)];
      var rhs := [Number(ZERO), Arith(Divide, Number(ONE), Ident("x"))];
      && EvalAll(rhs, env, f).Ok?
      && Assigned(["x"], rhs, env, f) == Err(DivisionByZero)
  {
    var env := map["x" := Num(ONE)];
    var e := Arith(Divide, Number(ONE), Ident("x"));
    var rhs := [Number(ZERO), e];
    EvalAllFirst(Number(ZERO), [e], env, f);
    assert [Number(ZERO)] + [e] == rhs;
    assert rhs[1..] == [e];
    EvalAllFirst(e, [], env, f);
    EvalAllFirst(e, [], env["x" := Num(ZERO)], f);
    assert [e] + [] == [e];
  }

  // ----- into fresh registers -----

  ghost predicate GathersAt(es: seq<Expr>, frag: seq<Ins>, k: seq<Value>, names: seq<string>, f: NumberFn,
                            reg: int, regs: Regs)
  {
    var out := Exec(frag, k, f, regs);
    match EvalAll(es, EnvOf(names, regs), f)
    case Err(x) => out == Err(x)
    case Ok(vs) =>
      && out.Ok?
      && (forall i :: 0 <= i < |es| ==> Get(out.value, reg + i) == vs[i])
      && Agree(regs, out.value, reg, -1)
  }

  // Expression i is left in register reg + i.
  ghost predicate Gathers(es: seq<Expr>, frag: seq<Ins>, consts: seq<Value>, names: seq<string>, f: NumberFn,
                          reg: int)
  {
    && Straight(frag)
    && (Fits(frag) ==> forall k, regs :: consts <= k ==> GathersAt(es, frag, k, names, f, reg, regs))
  }

  lemma GathersNone(consts: seq<Value>, names: seq<string>, f: NumberFn, reg: int)
    ensures Gathers([], [], consts, names, f, reg)
  {
  }

  lemma GathersOneMore(es: seq<Expr>, e: Expr, frag: seq<Ins>, more: seq<Ins>, consts: seq<Value>,
                       moreConsts: seq<Value>, names: seq<string>, f: NumberFn, reg: int)
    requires Gathers(es, frag, consts, names, f, reg) && consts <= moreConsts && |names| <= reg
    requires Computes(e, more, moreConsts, names, f, reg + |es|, reg + |es|)
    ensures Gathers(es + [e], frag + more, moreConsts, names, f, reg)
  {
    FitsParts(frag, more);
    if Fits(frag + more) {
      assert Fits(more[..|more| - 1]);
      forall k, regs | moreConsts <= k ensures GathersAt(es + [e], frag + more, k, names, f, reg, regs) {
        assert consts <= k;
        assert GathersAt(es, frag, k, names, f, reg, regs);
        OneMoreAt(es, e, frag, more, moreConsts, k, names, f, reg, regs);
      }
    }
  }

  lemma OneMoreAt(es: seq<Expr>, e: Expr, frag: seq<Ins>, more: seq<Ins>, consts: seq<Value>, k: seq<Value>,
                  names: seq<string>, f: NumberFn, reg: int, regs: Regs)
    requires GathersAt(es, frag, k, names, f, reg, regs) && consts <= k && |names| <= reg
    requires Computes(e, more, consts, names, f, reg + |es|, reg + |es|) && Fits(more[..|more| - 1])
    ensures GathersAt(es + [e], frag + more, k, names, f, reg, regs)
  {
    ExecAppend(frag, more, k, f, regs);
    assert (es + [e])[..|es|] == es;
    var out := Exec(frag, k, f, regs);
    if out.Ok? {
      hide Exec;
      EnvAgrees(names, regs, out.value, reg);
      assert ComputesAt(e, more, k, names, f, reg + |es|, reg + |es|, out.value);
      hide Eval, EvalAll, EnvOf, Straight, Fits;
    }
  }

  // A nil range one longer.
  lemma GathersNil(es: seq<Expr>, pre: seq<Ins>, a: int, consts: seq<Value>, names: seq<string>,
                   f: NumberFn, reg: int)
    requires Gathers(es, pre + [ABC(LOADNIL, a, reg + |es| - 1, 0)], consts, names, f, reg)
    requires a <= reg + |es| && |names| <= reg
    ensures Gathers(es + [NilExpr], pre + [ABC(LOADNIL, a, reg + |es|, 0)], consts, names, f, reg)
  {
    var d := reg + |es|;
    var i0, i1 := ABC(LOADNIL, a, d - 1, 0), ABC(LOADNIL, a, d, 0);
    assert Straight(pre + [i1]) by {
      assert forall j :: 0 <= j < |pre| ==> (pre + [i1])[j] == (pre + [i0])[j];
    }
    FitsParts(pre, [i0]);
    FitsParts(pre, [i1]);
    if Fits(pre + [i1]) {
      assert [i0][0].a == [i1][0].a;
      forall k, regs | consts <= k ensures GathersAt(es + [NilExpr], pre + [i1], k, names, f, reg, regs) {
        assert GathersAt(es, pre + [i0], k, names, f, reg, regs);
        NilAt(es, pre, a, k, names, f, reg, regs);
      }
    }
  }

  lemma NilAt(es: seq<Expr>, pre: seq<Ins>, a: int, k: seq<Value>, names: seq<string>, f: NumberFn, reg: int,
              regs: Regs)
    requires GathersAt(es, pre + [ABC(LOADNIL, a, reg + |es| - 1, 0)], k, names, f, reg, regs)
    requires a <= reg + |es|
    ensures GathersAt(es + [NilExpr], pre + [ABC(LOADNIL, a, reg + |es|, 0)], k, names, f, reg, regs)
  {
    var d := reg + |es|;
    NilLonger(pre, a, d, k, f, regs);
    assert (es + [NilExpr])[..|es|] == es;
    hide Exec, EnvOf, Eval, NilRange;
  }

  lemma NilLonger(pre: seq<Ins>, a: int, d: int, k: seq<Value>, f: NumberFn, regs: Regs)
    requires a <= d
    ensures Exec(pre + [ABC(LOADNIL, a, d, 0)], k, f, regs) ==
            (match Exec(pre + [ABC(LOADNIL, a, d - 1, 0)], k, f, regs)
             case Err(x) => Err(x)
             case Ok(r) => Ok(r[d := Nil]))
  {
    var i0, i1 := ABC(LOADNIL, a, d - 1, 0), ABC(LOADNIL, a, d, 0);
    ExecAppend(pre, [i0], k, f, regs);
    ExecAppend(pre, [i1], k, f, regs);
    var out := Exec(pre, k, f, regs);
    if out.Ok? {
      ExecOne(i0, k, f, out.value);
      ExecOne(i1, k, f, out.value);
      assert NilRange(out.value, a, d) == NilRange(out.value, a, d - 1)[d := Nil];
    }
  }

  lemma FirstNil(es: seq<Expr>, frag: seq<Ins>, consts: seq<Value>, names: seq<string>, f: NumberFn, reg: int)
    requires Gathers(es, frag, consts, names, f, reg) && |names| <= reg
    ensures Gathers(es + [NilExpr], frag + [ABC(LOADNIL, reg + |es|, reg + |es|, 0)], consts, names, f, reg)
  {
    var d := reg + |es|;
    var i := ABC(LOADNIL, d, d, 0);
    assert Computes(NilExpr, [i], consts, names, f, d, d) by {
      forall k, regs | consts <= k ensures ComputesAt(NilExpr, [i], k, names, f, d, d, regs) {
        ExecOne(i, k, f, regs);
        assert NilRange(regs, d, d) == NilRange(regs, d, d - 1)[d := Nil];
      }
    }
    GathersOneMore(es, NilExpr, frag, [i], consts, consts, names, f, reg);
  }

  // AddLoadNil where no jump was emitted since the last one.
  function NilAdded(code: seq<Ins>, d: int): seq<Ins>
    requires code != []
  {
    var last := code[|code| - 1];
    if last.op == LOADNIL && last.b + 1 == d then code[..|code| - 1] + [last.(b := d)]
    else code + [ABC(LOADNIL, d, d, 0)]
  }

  lemma NilStep(es: seq<Expr>, frag: seq<Ins>, a: int, consts: seq<Value>, names: seq<string>, f: NumberFn, reg: int)
    requires Gathers(es, frag, consts, names, f, reg) && |names| <= reg && frag != [] && a <= reg + |es|
    requires frag[|frag| - 1].op == LOADNIL ==> frag[|frag| - 1] == ABC(LOADNIL, a, reg + |es| - 1, 0)
    ensures Gathers(es + [NilExpr], NilAdded(frag, reg + |es|), consts, names, f, reg)
  {
    hide Gathers;
    var last := frag[|frag| - 1];
    if last.op == LOADNIL {
      assert frag == frag[..|frag| - 1] + [last];
      GathersNil(es, frag[..|frag| - 1], a, consts, names, f, reg);
    } else {
      FirstNil(es, frag, consts, names, f, reg);
    }
  }

  // ----- and from there to the targets -----

  function Slots(names: seq<string>, targets: seq<string>): (slots: seq<int>)
    ensures |slots| == |targets|
    ensures forall i :: 0 <= i < |targets| ==> slots[i] == Slot(names, targets[i])
  {
    seq(|targets|, i requires 0 <= i < |targets| => Slot(names, targets[i]))
  }

  // The first of slots[from..] that is r, -1 when there is none.
  function Leftmost(slots: seq<int>, r: int, from: nat): int
    requires from <= |slots|
    decreases |slots| - from
  {
    if from == |slots| then -1 else if slots[from] == r then from else Leftmost(slots, r, from + 1)
  }

  lemma {:induction false} LeftmostFound(slots: seq<int>, r: int, from: nat)
    requires from <= |slots|
    ensures var i := Leftmost(slots, r, from);
            if i == -1 then r !in slots[from..]
            else from <= i < |slots| && slots[i] == r && r !in slots[from..i]
    decreases |slots| - from
  {
    if from < |slots| && slots[from] != r {
      LeftmostFound(slots, r, from + 1);
      assert slots[from..] == [slots[from]] + slots[from + 1..];
      var i := Leftmost(slots, r, from + 1);
      if i != -1 {
        assert slots[from..i] == [slots[from]] + slots[from + 1..i];
      }
    }
  }

  // The MOVEs of targets i.. , the last one first.
  function Moves(slots: seq<int>, reg: int, i: nat): (code: seq<Ins>)
    requires i <= |slots|
    ensures |code| == |slots| - i
    decreases |slots| - i
  {
    if i == |slots| then [] else Moves(slots, reg, i + 1) + [ABC(MOVE, slots[i], reg + i, 0)]
  }

  lemma {:induction false} MovesStraight(slots: seq<int>, reg: int, i: nat)
    requires i <= |slots|
    ensures Straight(Moves(slots, reg, i))
    decreases |slots| - i
  {
    if i < |slots| {
      MovesStraight(slots, reg, i + 1);
    }
  }

  // Register r after the MOVEs of targets i.. ran from `before`.
  function MovedValue(slots: seq<int>, reg: int, i: nat, before: Regs, r: int): Value
    requires i <= |slots|
  {
    var at := Leftmost(slots, r, i);
    Get(before, if at == -1 then r else reg + at)
  }

  lemma {:induction false} MovesStore(slots: seq<int>, reg: int, i: nat, k: seq<Value>, f: NumberFn, regs: Regs, r: int)
    requires i <= |slots| && forall j :: 0 <= j < |slots| ==> slots[j] < reg
    ensures
      var out := Exec(Moves(slots, reg, i), k, f, regs);
      out.Ok? && Get(out.value, r) == MovedValue(slots, reg, i, regs, r)
    decreases |slots| - i
  {
    if i < |slots| {
      var ins := ABC(MOVE, slots[i], reg + i, 0);
      MovesStore(slots, reg, i + 1, k, f, regs, r);
      MovesStore(slots, reg, i + 1, k, f, regs, reg + i);
      NotASlot(slots, reg + i, i + 1);
      hide Leftmost, Get;
      ExecAppend(Moves(slots, reg, i + 1), [ins], k, f, regs);
      var mid := Exec(Moves(slots, reg, i + 1), k, f, regs).value;
      ExecOne(ins, k, f, mid);
      assert Exec(Moves(slots, reg, i), k, f, regs) == Ok(mid[slots[i] := Get(mid, reg + i)]);
      hide Exec, Moves, Sem;
      MovedOnce(slots, reg, i, regs, mid, r);
    }
  }

  lemma MovedOnce(slots: seq<int>, reg: int, i: nat, regs: Regs, mid: Regs, r: int)
    requires i < |slots|
    requires Get(mid, r) == MovedValue(slots, reg, i + 1, regs, r)
    requires Get(mid, reg + i) == Get(regs, reg + i)
    ensures Get(mid[slots[i] := Get(mid, reg + i)], r) == MovedValue(slots, reg, i, regs, r)
  {
  }

  lemma {:induction false} NotASlot(slots: seq<int>, r: int, from: nat)
    requires from <= |slots| && forall j :: 0 <= j < |slots| ==> slots[j] < r
    ensures Leftmost(slots, r, from) == -1
    decreases |slots| - from
  {
    if from < |slots| {
      NotASlot(slots, r, from + 1);
    }
  }

  ghost predicate StoresAt(targets: seq<string>, rhs: seq<Expr>, frag: seq<Ins>, k: seq<Value>, names: seq<string>,
                           f: NumberFn, top: int, regs: Regs)
    requires targets != [] && rhs != []
  {
    var out := Exec(frag, k, f, regs);
    match Assigned(targets, rhs, EnvOf(names, regs), f)
    case Err(x) => out == Err(x)
    case Ok(vs) =>
      && out.Ok? && |targets| <= |vs|
      && forall r :: 0 <= r < top ==> Get(out.value, r) == StoredValue(Slots(names, targets), vs, regs, r)
  }

  function StoredValue(slots: seq<int>, vs: seq<Value>, regs: Regs, r: int): Value
    requires |slots| <= |vs|
  {
    LeftmostFound(slots, r, 0);
    var i := Leftmost(slots, r, 0);
    if i == -1 then Get(regs, r) else vs[i]
  }

  // Every target holds its value, the leftmost one winning, and every other register below top its old one.
  ghost predicate Stores(targets: seq<string>, rhs: seq<Expr>, frag: seq<Ins>, consts: seq<Value>,
                         names: seq<string>, f: NumberFn, top: int)
    requires targets != [] && rhs != []
  {
    && Straight(frag)
    && (Fits(frag) ==> forall k, regs :: consts <= k ==> StoresAt(targets, rhs, frag, k, names, f, top, regs))
  }

  lemma SeveralStored(targets: seq<string>, rhs: seq<Expr>, frag: seq<Ins>, consts: seq<Value>, names: seq<string>,
                      f: NumberFn, reg: int)
    requires |targets| > 1 && rhs != [] && |names| <= reg
    requires Gathers(Padded(rhs, |targets|), frag, consts, names, f, reg)
    ensures Stores(targets, rhs, frag + Moves(Slots(names, targets), reg, 0), consts, names, f, reg)
  {
    var moves := Moves(Slots(names, targets), reg, 0);
    MovesStraight(Slots(names, targets), reg, 0);
    FitsParts(frag, moves);
    hide Moves, GathersAt, StoresAt, Padded, Slots;
    if Fits(frag + moves) {
      forall k, regs | consts <= k ensures StoresAt(targets, rhs, frag + moves, k, names, f, reg, regs) {
        assert GathersAt(Padded(rhs, |targets|), frag, k, names, f, reg, regs);
        SeveralAt(targets, rhs, frag, k, names, f, reg, regs);
      }
    }
  }

  lemma SeveralAt(targets: seq<string>, rhs: seq<Expr>, frag: seq<Ins>, k: seq<Value>, names: seq<string>,
                  f: NumberFn, reg: int, regs: Regs)
    requires |targets| > 1 && rhs != [] && |names| <= reg
    requires GathersAt(Padded(rhs, |targets|), frag, k, names, f, reg, regs)
    ensures StoresAt(targets, rhs, frag + Moves(Slots(names, targets), reg, 0), k, names, f, reg, regs)
  {
    hide Exec, EvalAll, EnvOf, Moves, Leftmost, Get, Slot;
    var slots := Slots(names, targets);
    ExecAppend(frag, Moves(slots, reg, 0), k, f, regs);
    var out := Exec(frag, k, f, regs);
    if out.Ok? {
      var vs := EvalAll(Padded(rhs, |targets|), EnvOf(names, regs), f).value;
      MovesStore(slots, reg, 0, k, f, out.value, 0);
      var end := Exec(Moves(slots, reg, 0), k, f, out.value).value;
      forall r | 0 <= r < reg ensures Get(end, r) == StoredValue(slots, vs, regs, r) {
        MovesStore(slots, reg, 0, k, f, out.value, r);
        LeftmostFound(slots, r, 0);
      }
    }
  }

  lemma OneStored(target: string, rhs: seq<Expr>, first: seq<Ins>, rest: seq<Ins>, consts: seq<Value>,
                  more: seq<Value>, names: seq<string>, f: NumberFn, reg: int)
    requires rhs != [] && |names| <= reg && target in names && consts <= more
    requires Computes(rhs[0], first, consts, names, f, Slot(names, target), reg)
    requires Gathers(rhs[1..], rest, more, names, f, reg)
    ensures Stores([target], rhs, first + rest, more, names, f, reg)
  {
    FitsParts(first, rest);
    if Fits(first + rest) {
      assert Fits(first[..|first| - 1]);
      forall k, regs | more <= k ensures StoresAt([target], rhs, first + rest, k, names, f, reg, regs) {
        assert consts <= k;
        assert ComputesAt(rhs[0], first, k, names, f, Slot(names, target), reg, regs);
        OneStoredAt(target, rhs, first, rest, more, k, names, f, reg, regs);
      }
    }
  }

  lemma EnvUpdated(names: seq<string>, x: string, v: Value, before: Regs, after: Regs, n: int)
    requires x in names && |names| <= n && Agree(before, after, n, Slot(names, x)) && Get(after, Slot(names, x)) == v
    ensures EnvOf(names, after) == EnvOf(names, before)[x := v]
  {
    forall y | y in names
      ensures Get(after, Slot(names, y)) == if y == x then v else Get(before, Slot(names, y))
    {
      if y != x {
        assert names[Slot(names, y)] == y && names[Slot(names, x)] == x;
      }
    }
  }

  lemma OneStoredAt(target: string, rhs: seq<Expr>, first: seq<Ins>, rest: seq<Ins>, consts: seq<Value>,
                    k: seq<Value>, names: seq<string>, f: NumberFn, reg: int, regs: Regs)
    requires rhs != [] && |names| <= reg && target in names && consts <= k && Fits(rest)
    requires ComputesAt(rhs[0], first, k, names, f, Slot(names, target), reg, regs)
    requires Gathers(rhs[1..], rest, consts, names, f, reg)
    ensures StoresAt([target], rhs, first + rest, k, names, f, reg, regs)
  {
    ExecAppend(first, rest, k, f, regs);
    var v := Eval(rhs[0], EnvOf(names, regs), f);
    if v.Ok? {
      var mid := Exec(first, k, f, regs).value;
      EnvUpdated(names, target, v.value, regs, mid, reg);
      assert GathersAt(rhs[1..], rest, k, names, f, reg, mid);
      var slots := Slots(names, [target]);
      assert slots == [Slot(names, target)];
      forall r ensures StoredValue(slots, [v.value], regs, r) ==
                       (if r == Slot(names, target) then v.value else Get(regs, r)) {
        assert Leftmost(slots, r, 1) == -1;
      }
      hide Exec, EvalAll, Leftmost, EnvOf, Straight;
    }
  }

  // Seen through the names: after the assignment a name that is a target has the value of its leftmost
  // occurrence, and every other name is as before.
  lemma StoredNames(targets: seq<string>, rhs: seq<Expr>, frag: seq<Ins>, k: seq<Value>, names: seq<string>,
                    f: NumberFn, top: int, regs: Regs, x: string)
    requires targets != [] && rhs != [] && |names| <= top && x in names
    requires StoresAt(targets, rhs, frag, k, names, f, top, regs)
    requires Assigned(targets, rhs, EnvOf(names, regs), f).Ok?
    ensures
      var out := Exec(frag, k, f, regs);
      var vs := Assigned(targets, rhs, EnvOf(names, regs), f).value;
      && out.Ok? && |targets| <= |vs|
      && (x !in targets ==> EnvOf(names, out.value)[x] == EnvOf(names, regs)[x])
      && (forall i :: 0 <= i < |targets| && targets[i] == x && x !in targets[..i] ==>
            EnvOf(names, out.value)[x] == vs[i])
  {
    hide Exec, Assigned;
    var r := Slot(names, x);
    var slots := Slots(names, targets);
    LeftmostFound(slots, r, 0);
    forall j | 0 <= j < |targets| ensures slots[j] == r <==> targets[j] == x {
      assert names[r] == x;
    }
    var i := Leftmost(slots, r, 0);
    if i == -1 {
      assert forall j :: 0 <= j < |targets| ==> slots[j] in slots[0..];
    } else {
      forall j | 0 <= j < i ensures slots[j] != r {
        assert slots[j] in slots[0..i];
      }
      forall j | i < j < |targets| ensures x in targets[..j] {
        assert targets[..j][i] == x;
      }
    }
  }
}
