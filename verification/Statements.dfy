/**
 Blocks of assignments and if statements: their meaning, and what it means for a stretch of code to
 realize one.
 */
module Statements {
  import opened Uint256
  import opened Lang
  import opened Opcodes
  import opened Machine
  import opened Fragments
  import opened Jumps
  import opened Assignments

  // ----- meaning -----

  datatype Stmt = Assign(targets: seq<string>, rhs: seq<Expr>) | If(cond: Expr, thn: seq<Stmt>, els: seq<Stmt>)

  // The leftmost target wins.
  function Written(env: Env, targets: seq<string>, vs: seq<Value>, i: nat): Env
    requires i <= |targets| <= |vs|
    decreases |targets| - i
  {
    if i == |targets| then env else Written(env, targets, vs, i + 1)[targets[i] := vs[i]]
  }

  function ExecStmt(s: Stmt, env: Env, f: NumberFn): Result<Env>
    decreases s
  {
    match s
    case Assign(targets, rhs) =>
      (if targets == [] || rhs == [] then Err(Malformed)
       else
         match Assigned(targets, rhs, env, f)
         case Err(x) => Err(x)
         case Ok(vs) => Ok(Written(env, targets, vs, 0)))
    case If(c, thn, els) =>
      match Eval(c, env, f)
      case Err(x) => Err(x)
      case Ok(v) => if Truthy(v) then ExecAll(thn, env, f) else ExecAll(els, env, f)
  }

  function ExecAll(ss: seq<Stmt>, env: Env, f: NumberFn): Result<Env>
    decreases ss
  {
    if ss == [] then Ok(env)
    else
      match ExecAll(ss[..|ss| - 1], env, f)
      case Err(x) => Err(x)
      case Ok(e) => ExecStmt(ss[|ss| - 1], e, f)
  }

  predicate ScopedStmt(s: Stmt, names: seq<string>)
    decreases s
  {
    match s
    case Assign(targets, rhs) =>
      && targets != [] && rhs != []
      && (forall i :: 0 <= i < |targets| ==> targets[i] in names)
      && (forall i :: 0 <= i < |rhs| ==> Simple(rhs[i]) && Scoped(rhs[i], names))
    case If(c, thn, els) =>
      && Condition(c) && Scoped(c, names)
      && (forall i :: 0 <= i < |thn| ==> ScopedStmt(thn[i], names))
      && (forall i :: 0 <= i < |els| ==> ScopedStmt(els[i], names))
  }

  // ----- stretches of code -----

  // Jumps of code[from..to] lead forward to a label of the stretch.
  ghost predicate Closed(code: seq<Ins>, labels: map<int, int>, lo: int, from: int, to: int)
  {
    && 0 <= from <= to <= |code|
    && (forall i :: from <= i < to ==> Inner(code[i], i, labels, lo, to))
  }

  predicate Inner(ins: Ins, i: int, labels: map<int, int>, lo: int, to: int)
  {
    if ins.op == JMP then ins.sbx >= lo && ins.sbx in labels && i <= labels[ins.sbx] < to
    else Plain(ins) || i + 1 < to
  }

  lemma ClosedConfined(code: seq<Ins>, labels: map<int, int>, lo: int, from: int, to: int, t: int, e: int)
    requires Closed(code, labels, lo, from, to)
    ensures Confined(code, labels, lo, from, to, t, e)
  {
    forall i | from <= i < to ensures StaysIn(code[i], i, labels, lo, to, t, e) {
      assert Inner(code[i], i, labels, lo, to);
    }
  }

  ghost predicate Lands(exit: Exit, outcome: Result<Env>, names: seq<string>)
  {
    match outcome
    case Err(x) => exit == Raised(x)
    case Ok(env) => exit.Fall? && EnvOf(names, exit.regs) == env
  }

  ghost predicate RunsAt(ss: seq<Stmt>, code: seq<Ins>, labels: map<int, int>, lo: int, k: seq<Value>,
                         names: seq<string>, f: NumberFn, from: int, to: int, regs: Regs)
    requires 0 <= from && to <= |code|
  {
    Lands(Walk(code, labels, lo, k, f, to, from, regs), ExecAll(ss, EnvOf(names, regs), f), names)
  }

  // From any registers, with any later constants, the stretch raises what the block raises, and
  // otherwise falls through with the locals the block leaves.
  ghost predicate Realizes(ss: seq<Stmt>, code: seq<Ins>, labels: map<int, int>, lo: int, consts: seq<Value>,
                           names: seq<string>, f: NumberFn, from: int, to: int)
  {
    && Closed(code, labels, lo, from, to)
    && (Fits(code[from..to]) ==>
          forall k, regs :: consts <= k ==> RunsAt(ss, code, labels, lo, k, names, f, from, to, regs))
  }

  lemma NothingRealized(code: seq<Ins>, labels: map<int, int>, lo: int, consts: seq<Value>, names: seq<string>,
                        f: NumberFn, at: int)
    requires 0 <= at <= |code|
    ensures Realizes([], code, labels, lo, consts, names, f, at, at)
  {
  }

  lemma ClosedFrame(code: seq<Ins>, more: seq<Ins>, labels: map<int, int>, moreLabels: map<int, int>, lo: int,
                    lo2: int, from: int, to: int)
    requires Closed(code, labels, lo2, from, to) && lo <= lo2
    requires to <= |more| && more[..to] == code[..to] && Extends(labels, moreLabels)
    ensures Closed(more, moreLabels, lo, from, to)
  {
    forall i | from <= i < to ensures Inner(more[i], i, moreLabels, lo, to) {
      assert more[i] == more[..to][i] == code[..to][i] == code[i];
      assert Inner(code[i], i, labels, lo2, to);
    }
  }

  // Later code, labels and constants do not matter, and lower labels may be counted in.
  lemma RealizedLater(ss: seq<Stmt>, code: seq<Ins>, more: seq<Ins>, labels: map<int, int>, moreLabels: map<int, int>,
                      lo: int, lo2: int, consts: seq<Value>, moreConsts: seq<Value>, names: seq<string>, f: NumberFn,
                      from: int, to: int)
    requires Realizes(ss, code, labels, lo2, consts, names, f, from, to) && lo <= lo2
    requires to <= |more| && more[..to] == code[..to] && Extends(labels, moreLabels) && consts <= moreConsts
    ensures Realizes(ss, more, moreLabels, lo, moreConsts, names, f, from, to)
  {
    ClosedFrame(code, more, labels, moreLabels, lo, lo2, from, to);
    ClosedFrame(code, more, labels, moreLabels, lo2, lo2, from, to);
    ClosedConfined(code, labels, lo2, from, to, lo - 1, lo - 1);
    ClosedConfined(more, moreLabels, lo2, from, to, lo - 1, lo - 1);
    hide Closed, Confined, Extends, Walk, Lands, ExecAll;
    if Fits(more[from..to]) {
      assert more[from..to] == more[..to][from..] == code[..to][from..] == code[from..to];
      forall k, regs | moreConsts <= k ensures RunsAt(ss, more, moreLabels, lo, k, names, f, from, to, regs) {
        assert consts <= k;
        assert RunsAt(ss, code, labels, lo2, k, names, f, from, to, regs);
        WalkFrame(code, more, labels, moreLabels, lo2, k, f, from, to, lo - 1, lo - 1, from, regs);
        WalkLower(more, moreLabels, lo, lo2, k, f, from, to, lo - 1, lo - 1, from, regs);
      }
    }
  }

  // ----- running through a part -----

  // An outer label of a part is outside the whole, or placed behind the part.
  predicate Landing(labels: map<int, int>, lo: int, mid: int, hi: int, l: int)
  {
    l < lo || (l in labels && mid - 1 <= labels[l] < hi)
  }

  function After(code: seq<Ins>, labels: map<int, int>, lo: int, k: seq<Value>, f: NumberFn, hi: int, mid: int,
                 exit: Exit): Exit
    requires 0 <= mid && hi <= |code|
    requires exit.ToLabel? ==> Landing(labels, lo, mid, hi, exit.target)
  {
    match exit
    case Raised(x) => Raised(x)
    case Fall(r) => Walk(code, labels, lo, k, f, hi, mid, r)
    case ToLabel(l, r) => if l < lo then exit else Walk(code, labels, lo, k, f, hi, labels[l] + 1, r)
  }

  // Running a stretch is running its first part, and then the rest from where that leaves for.
  lemma {:induction false} WalkThrough(code: seq<Ins>, labels: map<int, int>, lo: int, lo2: int, k: seq<Value>,
                                       f: NumberFn, from: int, mid: int, hi: int, t: int, e: int, pc: int, regs: Regs)
    requires Confined(code, labels, lo2, from, mid, t, e) && lo <= lo2 && t < lo2 && e < lo2
    requires Landing(labels, lo, mid, hi, t) && Landing(labels, lo, mid, hi, e)
    requires from <= pc <= mid <= hi <= |code|
    ensures var first := Walk(code, labels, lo2, k, f, mid, pc, regs);
            && (first.ToLabel? ==> first.target == t || first.target == e)
            && Walk(code, labels, lo, k, f, hi, pc, regs) == After(code, labels, lo, k, f, hi, mid, first)
    decreases mid - pc
  {
    hide Sem, Plain;
    if pc < mid {
      assert StaysIn(code[pc], pc, labels, lo2, mid, t, e);
      if code[pc].op == JMP {
        var l := code[pc].sbx;
        if l >= lo2 {
          WalkThrough(code, labels, lo, lo2, k, f, from, mid, hi, t, e, labels[l] + 1, regs);
        }
      } else {
        match Sem(code[pc], k, f, regs)
        case Fail(_) =>
        case Go(r, skip) => WalkThrough(code, labels, lo, lo2, k, f, from, mid, hi, t, e, pc + 1 + skip, r);
      }
    }
  }

  // A closed part falls through or raises.
  lemma ThroughClosed(code: seq<Ins>, labels: map<int, int>, lo: int, lo2: int, k: seq<Value>, f: NumberFn, from: int,
                      mid: int, hi: int, regs: Regs)
    requires Closed(code, labels, lo2, from, mid) && lo <= lo2 && mid <= hi <= |code|
    ensures var first := Walk(code, labels, lo2, k, f, mid, from, regs);
            Walk(code, labels, lo, k, f, hi, from, regs) ==
            if first.Fall? then Walk(code, labels, lo, k, f, hi, mid, first.regs) else first
  {
    ClosedConfined(code, labels, lo2, from, mid, lo - 1, lo - 1);
    WalkThrough(code, labels, lo, lo2, k, f, from, mid, hi, lo - 1, lo - 1, from, regs);
  }

  // ----- one assignment -----

  lemma {:induction false} WrittenAt(env: Env, targets: seq<string>, vs: seq<Value>, i: nat, x: string)
    requires i <= |targets| <= |vs|
    ensures x in Written(env, targets, vs, i) <==> x in env || x in targets[i..]
    ensures x !in targets[i..] && x in env ==> Written(env, targets, vs, i)[x] == env[x]
    ensures forall j :: i <= j < |targets| && targets[j] == x && x !in targets[i..j] ==>
                          Written(env, targets, vs, i)[x] == vs[j]
    decreases |targets| - i
  {
    if i < |targets| {
      WrittenAt(env, targets, vs, i + 1, x);
      assert targets[i..] == [targets[i]] + targets[i + 1..];
      forall j | i <= j < |targets| && targets[j] == x && x !in targets[i..j]
        ensures Written(env, targets, vs, i)[x] == vs[j]
      {
        if j > i {
          assert targets[i..j][0] == targets[i];
          assert targets[i..j] == [targets[i]] + targets[i + 1..j];
        }
      }
    }
  }

  lemma StoredName(targets: seq<string>, rhs: seq<Expr>, frag: seq<Ins>, k: seq<Value>, names: seq<string>,
                   f: NumberFn, top: int, regs: Regs, x: string)
    requires targets != [] && rhs != [] && |names| <= top && x in names
    requires StoresAt(targets, rhs, frag, k, names, f, top, regs)
    requires Assigned(targets, rhs, EnvOf(names, regs), f).Ok?
    ensures Exec(frag, k, f, regs).Ok?
    ensures var w := Written(EnvOf(names, regs), targets, Assigned(targets, rhs, EnvOf(names, regs), f).value, 0);
            x in w && EnvOf(names, Exec(frag, k, f, regs).value)[x] == w[x]
  {
    StoredNames(targets, rhs, frag, k, names, f, top, regs, x);
    WrittenAt(EnvOf(names, regs), targets, Assigned(targets, rhs, EnvOf(names, regs), f).value, 0, x);
    hide Exec, Assigned, StoresAt, Written, Slot;
    assert targets[0..] == targets;
    if x in targets {
      var j := First(targets, x);
      assert targets[0..j] == targets[..j];
    }
  }

  lemma StoredEnv(targets: seq<string>, rhs: seq<Expr>, frag: seq<Ins>, k: seq<Value>, names: seq<string>,
                  f: NumberFn, top: int, regs: Regs, out: Regs, vs: seq<Value>)
    requires targets != [] && rhs != [] && |names| <= top
    requires forall i :: 0 <= i < |targets| ==> targets[i] in names
    requires StoresAt(targets, rhs, frag, k, names, f, top, regs) && Exec(frag, k, f, regs) == Ok(out)
    requires Assigned(targets, rhs, EnvOf(names, regs), f) == Ok(vs)
    ensures EnvOf(names, out) == Written(EnvOf(names, regs), targets, vs, 0)
  {
    hide Exec, Assigned, StoresAt, Written, Slot;
    var env := EnvOf(names, regs);
    WrittenNames(env, targets, vs, names);
    forall x | x in names ensures EnvOf(names, out)[x] == Written(env, targets, vs, 0)[x] {
      StoredName(targets, rhs, frag, k, names, f, top, regs, x);
    }
  }

  lemma WrittenNames(env: Env, targets: seq<string>, vs: seq<Value>, names: seq<string>)
    requires |targets| <= |vs| && (forall x :: x in env <==> x in names)
    requires forall i :: 0 <= i < |targets| ==> targets[i] in names
    ensures forall x :: x in Written(env, targets, vs, 0) <==> x in names
  {
    forall x ensures x in Written(env, targets, vs, 0) <==> x in names {
      WrittenAt(env, targets, vs, 0, x);
    }
  }

  function First(targets: seq<string>, x: string): (j: nat)
    requires x in targets
    ensures j < |targets| && targets[j] == x && x !in targets[..j]
  {
    if targets[0] == x then 0
    else
      assert targets == [targets[0]] + targets[1..];
      var j := First(targets[1..], x);
      assert targets[..j + 1] == [targets[0]] + targets[1..][..j];
      j + 1
  }

  lemma AssignRealized(targets: seq<string>, rhs: seq<Expr>, code: seq<Ins>, labels: map<int, int>, lo: int,
                       consts: seq<Value>, names: seq<string>, f: NumberFn, from: int, top: int)
    requires ScopedStmt(Assign(targets, rhs), names) && 0 <= from <= |code| && |names| <= top
    requires Stores(targets, rhs, code[from..], consts, names, f, top)
    ensures Realizes([Assign(targets, rhs)], code, labels, lo, consts, names, f, from, |code|)
  {
    var frag, to := code[from..], |code|;
    assert code[from..to] == frag;
    forall i | from <= i < to ensures Inner(code[i], i, labels, lo, to) {
      assert frag[i - from] == code[i];
    }
    if Fits(frag) {
      forall k, regs | consts <= k
        ensures RunsAt([Assign(targets, rhs)], code, labels, lo, k, names, f, from, to, regs)
      {
        assert StoresAt(targets, rhs, frag, k, names, f, top, regs);
        AssignAt(targets, rhs, code, labels, lo, k, names, f, from, top, regs);
      }
    }
  }

  lemma AssignAt(targets: seq<string>, rhs: seq<Expr>, code: seq<Ins>, labels: map<int, int>, lo: int,
                 k: seq<Value>, names: seq<string>, f: NumberFn, from: int, top: int, regs: Regs)
    requires ScopedStmt(Assign(targets, rhs), names) && 0 <= from <= |code| && |names| <= top
    requires Straight(code[from..]) && StoresAt(targets, rhs, code[from..], k, names, f, top, regs)
    ensures RunsAt([Assign(targets, rhs)], code, labels, lo, k, names, f, from, |code|, regs)
  {
    hide Exec, Assigned, EnvOf, Straight, Written, ExecAll, StoredValue, Scoped, Simple;
    var frag, to := code[from..], |code|;
    assert code[from..to] == frag;
    WalkStraight(code, labels, lo, k, f, to, from, to, regs);
    OneStatement(Assign(targets, rhs), EnvOf(names, regs), f);
    if Assigned(targets, rhs, EnvOf(names, regs), f).Ok? {
      StoredEnv(targets, rhs, frag, k, names, f, top, regs, Exec(frag, k, f, regs).value,
                Assigned(targets, rhs, EnvOf(names, regs), f).value);
      hide StoresAt;
    }
  }

  lemma OneStatement(s: Stmt, env: Env, f: NumberFn)
    ensures ExecAll([s], env, f) == ExecStmt(s, env, f)
  {
    assert [s][..0] == [];
  }

  // ----- sequences -----

  lemma {:induction false} ExecAppended(a: seq<Stmt>, b: seq<Stmt>, env: Env, f: NumberFn)
    ensures ExecAll(a + b, env, f) ==
            (match ExecAll(a, env, f) case Err(x) => Err(x) case Ok(e) => ExecAll(b, e, f))
    decreases |b|
  {
    hide ExecStmt;
    if b == [] {
      assert a + b == a;
    } else {
      var n := |b| - 1;
      assert (a + b)[..|a + b| - 1] == a + b[..n] && (a + b)[|a + b| - 1] == b[n];
      ExecAppended(a, b[..n], env, f);
    }
  }

  lemma SequenceRealized(a: seq<Stmt>, b: seq<Stmt>, code: seq<Ins>, labels: map<int, int>, lo: int,
                         consts: seq<Value>, names: seq<string>, f: NumberFn, from: int, mid: int, to: int)
    requires Realizes(a, code, labels, lo, consts, names, f, from, mid)
    requires Realizes(b, code, labels, lo, consts, names, f, mid, to)
    ensures Realizes(a + b, code, labels, lo, consts, names, f, from, to)
  {
    forall i | from <= i < to ensures Inner(code[i], i, labels, lo, to) {
      if i < mid {
        assert Inner(code[i], i, labels, lo, mid);
      }
    }
    hide Closed, ExecAll;
    if Fits(code[from..to]) {
      assert code[from..to] == code[from..mid] + code[mid..to];
      FitsParts(code[from..mid], code[mid..to]);
      forall k, regs | consts <= k ensures RunsAt(a + b, code, labels, lo, k, names, f, from, to, regs) {
        assert RunsAt(a, code, labels, lo, k, names, f, from, mid, regs);
        ThroughClosed(code, labels, lo, lo, k, f, from, mid, to, regs);
        ExecAppended(a, b, EnvOf(names, regs), f);
        var first := Walk(code, labels, lo, k, f, mid, from, regs);
        if first.Fall? {
          assert RunsAt(b, code, labels, lo, k, names, f, mid, to, first.regs);
        }
      }
    }
  }
}
