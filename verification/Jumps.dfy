/**
 Code with forward jumps to labels: running a stretch of code until it is left, and what it means
 for a stretch to decide a condition.
 */
module Jumps {
  import opened Uint256
  import opened Lang
  import opened Opcodes
  import opened Machine
  import opened Fragments

  // How a stretch of code is left: past its end, through a jump to an outer label, or by raising.
  datatype Exit = Fall(regs: Regs) | ToLabel(target: int, regs: Regs) | Raised(error: Error)

  // Runs code[pc..hi].  Labels from lo on belong to the stretch; a jump to a smaller one leaves it.
  // The target of a label is the instruction after its recorded position.
  function Walk(code: seq<Ins>, labels: map<int, int>, lo: int, consts: seq<Value>, f: NumberFn,
                hi: int, pc: int, regs: Regs): Exit
    requires 0 <= pc && hi <= |code|
    decreases hi - pc
  {
    if pc == hi then Fall(regs)
    else if pc > hi then Raised(Malformed)
    else if code[pc].op == JMP then
      var l := code[pc].sbx;
      if l < lo then ToLabel(l, regs)
      else if l in labels && pc <= labels[l] < hi then Walk(code, labels, lo, consts, f, hi, labels[l] + 1, regs)
      else Raised(Malformed)
    else
      match Sem(code[pc], consts, f, regs)
      case Fail(x) => Raised(x)
      case Go(r, skip) => Walk(code, labels, lo, consts, f, hi, pc + 1 + skip, r)
  }

  // Jumps of code[from..to] lead to one of two outer labels or forward to a label of the stretch, and
  // no instruction skips past its end.
  ghost predicate Confined(code: seq<Ins>, labels: map<int, int>, lo: int, from: int, to: int, t: int, e: int)
  {
    && 0 <= from <= to <= |code|
    && (forall i :: from <= i < to ==> StaysIn(code[i], i, labels, lo, to, t, e))
  }

  predicate StaysIn(ins: Ins, i: int, labels: map<int, int>, lo: int, to: int, t: int, e: int)
  {
    if ins.op == JMP then
      ins.sbx == t || ins.sbx == e || (ins.sbx >= lo && ins.sbx in labels && i <= labels[ins.sbx] < to)
    else
      Plain(ins) || i + 1 < to
  }

  ghost predicate Extends(labels: map<int, int>, more: map<int, int>)
  {
    forall l :: l in labels ==> l in more && more[l] == labels[l]
  }

  // All labels are smaller than n.
  ghost predicate Below(labels: map<int, int>, n: int) { forall l :: l in labels ==> l < n }

  // Only labels from n on were added.
  ghost predicate LabelsAdded(labels: map<int, int>, more: map<int, int>, n: int)
  {
    Extends(labels, more) && forall l :: l in more && l < n ==> l in labels
  }

  lemma LabelsJoin(l0: map<int, int>, l1: map<int, int>, lo: int, at: int, l2: map<int, int>, lo2: int)
    requires Below(l0, lo) && LabelsAdded(l0, l1, lo + 1) && LabelsAdded(l1[lo := at], l2, lo2) && lo < lo2
    ensures LabelsAdded(l0, l2, lo) && Extends(l1, l2) && lo in l2 && l2[lo] == at
  {
    assert lo !in l1;
  }

  // ----- running is local -----

  lemma {:induction false} WalkStraight(code: seq<Ins>, labels: map<int, int>, lo: int, k: seq<Value>, f: NumberFn,
                                        hi: int, pc: int, m: int, regs: Regs)
    requires 0 <= pc <= m <= hi <= |code| && Straight(code[pc..m])
    ensures Walk(code, labels, lo, k, f, hi, pc, regs) ==
            (match Exec(code[pc..m], k, f, regs)
             case Err(x) => Raised(x)
             case Ok(r) => Walk(code, labels, lo, k, f, hi, m, r))
    decreases m - pc
  {
    if pc < m {
      assert code[pc..m][0] == code[pc];
      assert Plain(code[pc]) && code[pc].op != JMP;
      assert Straight(code[pc + 1..m]);
      hide Sem, Plain, Straight;
      assert code[pc..m][1..] == code[pc + 1..m];
      match Sem(code[pc], k, f, regs)
      case Fail(_) =>
      case Go(r, _) => WalkStraight(code, labels, lo, k, f, hi, pc + 1, m, r);
    }
  }

  lemma ConfinedFrame(code: seq<Ins>, more: seq<Ins>, labels: map<int, int>, moreLabels: map<int, int>, lo: int,
                      from: int, to: int, t: int, e: int)
    requires Confined(code, labels, lo, from, to, t, e)
    requires to <= |more| && more[..to] == code[..to] && Extends(labels, moreLabels)
    ensures 0 <= from <= to && Confined(more, moreLabels, lo, from, to, t, e)
  {
    forall i | from <= i < to ensures StaysIn(more[i], i, moreLabels, lo, to, t, e) {
      assert more[i] == more[..to][i] == code[..to][i] == code[i];
      assert StaysIn(code[i], i, labels, lo, to, t, e);
    }
  }

  // Later code and later labels do not matter.
  lemma {:induction false} WalkFrame(code: seq<Ins>, more: seq<Ins>, labels: map<int, int>, moreLabels: map<int, int>,
                                     lo: int, k: seq<Value>, f: NumberFn, from: int, hi: int, t: int, e: int,
                                     pc: int, regs: Regs)
    requires Confined(code, labels, lo, from, hi, t, e) && from <= pc && t < lo && e < lo
    requires hi <= |more| && more[..hi] == code[..hi] && Extends(labels, moreLabels)
    ensures Walk(more, moreLabels, lo, k, f, hi, pc, regs) == Walk(code, labels, lo, k, f, hi, pc, regs)
    decreases hi - pc
  {
    hide Sem, Plain;
    if pc < hi {
      assert more[pc] == more[..hi][pc] == code[..hi][pc] == code[pc];
      assert StaysIn(code[pc], pc, labels, lo, hi, t, e);
      if code[pc].op == JMP {
        var l := code[pc].sbx;
        if l >= lo {
          WalkFrame(code, more, labels, moreLabels, lo, k, f, from, hi, t, e, labels[l] + 1, regs);
        }
      } else {
        match Sem(code[pc], k, f, regs)
        case Fail(_) =>
        case Go(r, skip) => WalkFrame(code, more, labels, moreLabels, lo, k, f, from, hi, t, e, pc + 1 + skip, r);
      }
    }
  }

  // Labels the stretch does not use may be counted as inner or as outer.
  lemma {:induction false} WalkLower(code: seq<Ins>, labels: map<int, int>, lo: int, lo2: int, k: seq<Value>,
                                     f: NumberFn, from: int, hi: int, t: int, e: int, pc: int, regs: Regs)
    requires Confined(code, labels, lo2, from, hi, t, e) && from <= pc && t < lo && e < lo && lo <= lo2
    ensures Walk(code, labels, lo, k, f, hi, pc, regs) == Walk(code, labels, lo2, k, f, hi, pc, regs)
    decreases hi - pc
  {
    hide Sem, Plain;
    if pc < hi {
      assert StaysIn(code[pc], pc, labels, lo2, hi, t, e);
      if code[pc].op == JMP {
        var l := code[pc].sbx;
        if l >= lo2 {
          WalkLower(code, labels, lo, lo2, k, f, from, hi, t, e, labels[l] + 1, regs);
        }
      } else {
        match Sem(code[pc], k, f, regs)
        case Fail(_) =>
        case Go(r, skip) => WalkLower(code, labels, lo, lo2, k, f, from, hi, t, e, pc + 1 + skip, r);
      }
    }
  }

  function Onward(code: seq<Ins>, labels: map<int, int>, lo: int, k: seq<Value>, f: NumberFn, hi: int, mid: int,
                  exit: Exit): Exit
    requires 0 <= mid && hi <= |code|
  {
    match exit
    case Raised(x) => Raised(x)
    case Fall(r) => Walk(code, labels, lo, k, f, hi, mid, r)
    case ToLabel(l, r) => if l < lo then exit else Walk(code, labels, lo, k, f, hi, mid, r)
  }

  // Running a stretch is running its first part, and then, when that falls through or jumps to the
  // label lo placed there, the rest.
  lemma {:induction false} WalkSplit(code: seq<Ins>, labels: map<int, int>, lo: int, k: seq<Value>, f: NumberFn,
                                     from: int, mid: int, hi: int, t: int, e: int, pc: int, regs: Regs)
    requires Confined(code, labels, lo + 1, from, mid, t, e) && t <= lo && e <= lo
    requires lo in labels && labels[lo] == mid - 1
    requires from <= pc <= mid <= hi <= |code|
    ensures Walk(code, labels, lo, k, f, hi, pc, regs) ==
            Onward(code, labels, lo, k, f, hi, mid, Walk(code, labels, lo + 1, k, f, mid, pc, regs))
    decreases mid - pc
  {
    hide Sem, Plain;
    if pc < mid {
      assert StaysIn(code[pc], pc, labels, lo + 1, mid, t, e);
      if code[pc].op == JMP {
        var l := code[pc].sbx;
        if l >= lo + 1 {
          WalkSplit(code, labels, lo, k, f, from, mid, hi, t, e, labels[l] + 1, regs);
        }
      } else {
        match Sem(code[pc], k, f, regs)
        case Fail(_) =>
        case Go(r, skip) => WalkSplit(code, labels, lo, k, f, from, mid, hi, t, e, pc + 1 + skip, r);
      }
    }
  }

  // ----- deciding a condition -----

  ghost predicate LeavesFor(exit: Exit, target: int, orFalls: bool, regs: Regs, reg: int)
  {
    && ((exit.ToLabel? && exit.target == target) || (orFalls && exit.Fall?))
    && Agree(regs, exit.regs, reg, -1)
  }

  ghost predicate Settles(exit: Exit, value: Result<Value>, t: int, e: int, hasNext: bool, regs: Regs, reg: int)
  {
    match value
    case Err(x) => exit == Raised(x)
    case Ok(v) =>
      if Truthy(v) then LeavesFor(exit, t, !hasNext, regs, reg) else LeavesFor(exit, e, hasNext, regs, reg)
  }

  ghost predicate DecidesAt(c: Expr, code: seq<Ins>, labels: map<int, int>, lo: int, k: seq<Value>,
                            names: seq<string>, f: NumberFn, from: int, to: int, t: int, e: int, hasNext: bool,
                            reg: int, regs: Regs)
    requires 0 <= from && to <= |code|
  {
    Settles(Walk(code, labels, lo, k, f, to, from, regs), Eval(c, EnvOf(names, regs), f), t, e, hasNext, regs, reg)
  }

  // From any registers, with any later constants: a true condition leaves for t and a false one for e,
  // where falling through stands for e when another condition follows and for t otherwise; no register
  // below reg changes.
  ghost predicate Decides(c: Expr, code: seq<Ins>, labels: map<int, int>, lo: int, consts: seq<Value>,
                          names: seq<string>, f: NumberFn, from: int, to: int, t: int, e: int, hasNext: bool, reg: int)
  {
    && Confined(code, labels, lo, from, to, t, e) && t < lo && e < lo
    && (Fits(code[from..to]) ==>
      forall k, regs :: consts <= k ==> DecidesAt(c, code, labels, lo, k, names, f, from, to, t, e, hasNext, reg, regs))
  }

  // Constant truths emit nothing.
  lemma NothingDecides(c: Expr, code: seq<Ins>, labels: map<int, int>, lo: int, consts: seq<Value>,
                       names: seq<string>, f: NumberFn, from: int, t: int, e: int, reg: int)
    requires c.TrueExpr? || c.Number?
    requires 0 <= from <= |code| && t < lo && e < lo
    ensures Decides(c, code, labels, lo, consts, names, f, from, from, t, e, false, reg)
  {
  }

  lemma JumpDecides(code: seq<Ins>, labels: map<int, int>, lo: int, consts: seq<Value>,
                    names: seq<string>, f: NumberFn, from: int, t: int, e: int, reg: int)
    requires 0 <= from < |code| && t < lo && e < lo && code[from] == ASbx(JMP, 0, e)
    ensures Decides(FalseExpr, code, labels, lo, consts, names, f, from, from + 1, t, e, false, reg)
  {
  }

  lemma NotDecides(c: Expr, code: seq<Ins>, labels: map<int, int>, lo: int, consts: seq<Value>,
                   names: seq<string>, f: NumberFn, from: int, to: int, t: int, e: int, hasNext: bool, reg: int)
    requires Decides(c, code, labels, lo, consts, names, f, from, to, e, t, !hasNext, reg)
    ensures Decides(Not(c), code, labels, lo, consts, names, f, from, to, t, e, hasNext, reg)
  {
    if Fits(code[from..to]) {
      forall k, regs | consts <= k
        ensures DecidesAt(Not(c), code, labels, lo, k, names, f, from, to, t, e, hasNext, reg, regs)
      {
        assert DecidesAt(c, code, labels, lo, k, names, f, from, to, e, t, !hasNext, reg, regs);
      }
    }
  }

  // ----- comparisons and tests -----

  // compileRelationalOpExprAux: greater-than swaps the operands, unequal flips the outcome.
  function CompareIns(op: RelOp, flip: int, b: int, c: int): Ins
  {
    match op
    case Less => ABC(LT, flip, b, c)
    case Greater => ABC(LT, flip, c, b)
    case LessEq => ABC(LE, flip, b, c)
    case GreaterEq => ABC(LE, flip, c, b)
    case Equal => ABC(EQ, flip, b, c)
    case NotEqual => ABC(EQ, 1 - flip, b, c)
  }

  // The comparison skips the jump behind it exactly when its outcome does not want the jump.
  lemma CompareSem(op: RelOp, flip: int, b: int, c: int, k: seq<Value>, f: NumberFn, regs: Regs, v: Value, w: Value)
    requires 0 <= flip <= 1
    requires RkValue(b, k, regs) == Ok(v) && RkValue(c, k, regs) == Ok(w)
    ensures CompareIns(op, flip, b, c).op != JMP
    ensures Sem(CompareIns(op, flip, b, c), k, f, regs) ==
            (match Compare(op, v, w)
             case Err(x) => Fail(x)
             case Ok(outcome) => Go(regs, if outcome == (flip == 0) then 1 else 0))
  {
    hide RkValue, Cmp, Plain;
  }

  function Flip(hasNext: bool): int { if hasNext then 1 else 0 }

  lemma CompareConfined(frag: seq<Ins>, test: Ins, code: seq<Ins>, labels: map<int, int>, lo: int, from: int, m: int,
                        t: int, e: int, hasNext: bool)
    requires 0 <= from <= m && m + 2 <= |code| && code[from..m] == frag && Straight(frag)
    requires code[m] == test && test.op != JMP && code[m + 1] == ASbx(JMP, 0, if hasNext then t else e)
    ensures Confined(code, labels, lo, from, m + 2, t, e)
  {
    forall i | from <= i < m + 2 ensures StaysIn(code[i], i, labels, lo, m + 2, t, e) {
      if i < m {
        assert code[i] == frag[i - from];
      }
    }
  }

  // A test and the jump behind it: the jump is skipped, or taken.
  lemma GuardedJump(code: seq<Ins>, labels: map<int, int>, lo: int, k: seq<Value>, f: NumberFn, m: int, target: int,
                    regs: Regs)
    requires 0 <= m && m + 2 <= |code| && target < lo
    requires code[m].op != JMP && code[m + 1] == ASbx(JMP, 0, target)
    ensures Walk(code, labels, lo, k, f, m + 2, m, regs) ==
            (match Sem(code[m], k, f, regs)
             case Fail(x) => Raised(x)
             case Go(r, skip) => if skip == 1 then Fall(r) else ToLabel(target, r))
  {
    hide Sem, Plain;
  }

  lemma CompareAt(op: RelOp, l: Expr, r: Expr, b: int, c: int, code: seq<Ins>, labels: map<int, int>, lo: int,
                  k: seq<Value>, names: seq<string>, f: NumberFn, from: int, m: int, t: int, e: int, hasNext: bool,
                  reg: int, regs: Regs)
    requires 0 <= from <= m && m + 2 <= |code| && t < lo && e < lo
    requires Straight(code[from..m]) && PairAt(l, r, code[from..m], k, names, f, b, c, reg, regs)
    requires code[m] == CompareIns(op, Flip(hasNext), b, c)
    requires code[m + 1] == ASbx(JMP, 0, if hasNext then t else e)
    ensures DecidesAt(Relation(op, l, r), code, labels, lo, k, names, f, from, m + 2, t, e, hasNext, reg, regs)
  {
    hide Sem, Compare, CompareIns, Straight, RkValue, Agree, Walk, Exec;
    WalkStraight(code, labels, lo, k, f, m + 2, from, m, regs);
    var out := Exec(code[from..m], k, f, regs);
    if out.Ok? {
      var v := Eval(l, EnvOf(names, regs), f).value;
      var w := Eval(r, EnvOf(names, regs), f).value;
      CompareSem(op, Flip(hasNext), b, c, k, f, out.value, v, w);
      GuardedJump(code, labels, lo, k, f, m, if hasNext then t else e, out.value);
    }
  }

  lemma RelationDecides(op: RelOp, l: Expr, r: Expr, frag: seq<Ins>, consts: seq<Value>, names: seq<string>,
                        f: NumberFn, b: int, c: int, reg: int, code: seq<Ins>, labels: map<int, int>, lo: int,
                        from: int, m: int, to: int, t: int, e: int, hasNext: bool)
    requires Pair(l, r, frag, consts, names, f, b, c, reg)
    requires 0 <= from <= m && m + 2 == to <= |code| && t < lo && e < lo && code[from..m] == frag
    requires code[m] == CompareIns(op, Flip(hasNext), b, c)
    requires code[m + 1] == ASbx(JMP, 0, if hasNext then t else e)
    ensures Decides(Relation(op, l, r), code, labels, lo, consts, names, f, from, to, t, e, hasNext, reg)
  {
    CompareConfined(frag, code[m], code, labels, lo, from, m, t, e, hasNext);
    hide Straight, DecidesAt, PairAt, CompareIns, Confined;
    if Fits(code[from..to]) {
      assert code[from..to] == frag + code[m..to];
      FitsParts(frag, code[m..to]);
      forall k, regs | consts <= k
        ensures DecidesAt(Relation(op, l, r), code, labels, lo, k, names, f, from, to, t, e, hasNext, reg, regs)
      {
        CompareAt(op, l, r, b, c, code, labels, lo, k, names, f, from, m, t, e, hasNext, reg, regs);
      }
    }
  }

  lemma TestSem(a: int, flip: int, k: seq<Value>, f: NumberFn, regs: Regs)
    requires 0 <= flip <= 1
    ensures Sem(ABC(TEST, a, 0, flip), k, f, regs) == Skip(regs, Truthy(Get(regs, a)) == (flip == 0))
  {
  }

  // Any other condition is computed and tested.
  lemma TestAt(c: Expr, a: int, code: seq<Ins>, labels: map<int, int>, lo: int, k: seq<Value>, names: seq<string>,
               f: NumberFn, from: int, m: int, t: int, e: int, hasNext: bool, reg: int, regs: Regs)
    requires 0 <= from <= m && m + 2 <= |code| && t < lo && e < lo
    requires Straight(code[from..m]) && DeliversAt(c, code[from..m], k, names, f, a, reg, regs) && !IsK(a)
    requires code[m] == ABC(TEST, a, 0, Flip(hasNext))
    requires code[m + 1] == ASbx(JMP, 0, if hasNext then t else e)
    ensures DecidesAt(c, code, labels, lo, k, names, f, from, m + 2, t, e, hasNext, reg, regs)
  {
    assert forall r: Regs :: RkValue(a, k, r) == Ok(Get(r, a));
    hide Straight, Agree, Eval, Walk, Exec, Sem, RkValue;
    WalkStraight(code, labels, lo, k, f, m + 2, from, m, regs);
    var out := Exec(code[from..m], k, f, regs);
    if out.Ok? {
      GuardedJump(code, labels, lo, k, f, m, if hasNext then t else e, out.value);
      TestSem(a, Flip(hasNext), k, f, out.value);
    }
  }

  lemma TestDecides(c: Expr, frag: seq<Ins>, consts: seq<Value>, names: seq<string>, f: NumberFn, a: int, reg: int,
                    next: int, code: seq<Ins>, labels: map<int, int>, lo: int, from: int, m: int, to: int, t: int,
                    e: int,
                    hasNext: bool)
    requires Delivers(c, frag, consts, names, f, a, reg, next)
    requires a == reg || 0 <= a < |names| <= BIT_RK
    requires 0 <= from <= m && m + 2 == to <= |code| && t < lo && e < lo && code[from..m] == frag && 0 <= reg
    requires code[m] == ABC(TEST, a, 0, Flip(hasNext))
    requires code[m + 1] == ASbx(JMP, 0, if hasNext then t else e)
    ensures Decides(c, code, labels, lo, consts, names, f, from, to, t, e, hasNext, reg)
  {
    CompareConfined(frag, code[m], code, labels, lo, from, m, t, e, hasNext);
    if Fits(code[from..to]) {
      assert code[from..to] == frag + code[m..to];
      FitsParts(frag, code[m..to]);
      assert code[m..to][0].a == a < BIT_RK;
      forall k, regs | consts <= k
        ensures DecidesAt(c, code, labels, lo, k, names, f, from, to, t, e, hasNext, reg, regs)
      {
        assert DeliversAt(c, frag, k, names, f, a, reg, regs);
        TestAt(c, a, code, labels, lo, k, names, f, from, m, t, e, hasNext, reg, regs);
      }
    }
  }

  // ----- and, or -----

  lemma ConfinedJoin(code: seq<Ins>, more: seq<Ins>, labels: map<int, int>, moreLabels: map<int, int>, lo: int,
                     lo2: int,
                     from: int, mid: int, to: int, t1: int, e1: int, t: int, e: int)
    requires Confined(code, labels, lo + 1, from, mid, t1, e1)
    requires Confined(more, moreLabels, lo2, mid, to, t, e) && lo < lo2
    requires more[..mid] == code[..mid] && Extends(labels, moreLabels)
    requires lo in moreLabels && moreLabels[lo] == mid - 1
    requires t1 in {t, e, lo} && e1 in {t, e, lo}
    ensures Confined(more, moreLabels, lo, from, to, t, e)
  {
    forall i | from <= i < to ensures StaysIn(more[i], i, moreLabels, lo, to, t, e) {
      if i < mid {
        assert more[i] == more[..mid][i] == code[..mid][i] == code[i];
        assert StaysIn(code[i], i, labels, lo + 1, mid, t1, e1);
      } else {
        assert StaysIn(more[i], i, moreLabels, lo2, to, t, e);
      }
    }
  }

  // The first condition of two, seen in the finished code: it ends at mid, or leaves for l1.
  ghost predicate Joined(code: seq<Ins>, more: seq<Ins>, labels: map<int, int>, moreLabels: map<int, int>, lo: int,
                         lo2: int, mid: int, to: int)
  {
    && 0 <= mid <= |code| && mid <= to <= |more| && more[..mid] == code[..mid]
    && Extends(labels, moreLabels)
    && lo in moreLabels && moreLabels[lo] == mid - 1 && lo < lo2
  }

  lemma JoinedWalk(code: seq<Ins>, more: seq<Ins>, labels: map<int, int>, moreLabels: map<int, int>, lo: int,
                   lo2: int, k: seq<Value>, f: NumberFn, from: int, mid: int, to: int, t1: int, e1: int, t: int,
                   e: int, regs: Regs)
    requires Joined(code, more, labels, moreLabels, lo, lo2, mid, to) && t < lo && e < lo && t1 <= lo && e1 <= lo
    requires Confined(code, labels, lo + 1, from, mid, t1, e1)
    requires Confined(more, moreLabels, lo2, mid, to, t, e)
    ensures 0 <= from
    ensures
      var first := Walk(code, labels, lo + 1, k, f, mid, from, regs);
      Walk(more, moreLabels, lo, k, f, to, from, regs) ==
      if first.Raised? || (first.ToLabel? && first.target < lo) then first
      else Walk(more, moreLabels, lo2, k, f, to, mid, first.regs)
  {
    ConfinedFrame(code, more, labels, moreLabels, lo + 1, from, mid, t1, e1);
    hide Walk, Confined;
    WalkFrame(code, more, labels, moreLabels, lo + 1, k, f, from, mid, t1, e1, from, regs);
    var first := Walk(code, labels, lo + 1, k, f, mid, from, regs);
    WalkSplit(more, moreLabels, lo, k, f, from, mid, to, t1, e1, from, regs);
    if !first.Raised? {
      WalkLower(more, moreLabels, lo, lo2, k, f, mid, to, t, e, mid, first.regs);
    }
  }

  function Combined(conjunction: bool, v: Result<Value>, w: Result<Value>): Result<Value>
  {
    if v.Ok? && Truthy(v.value) == conjunction then w else v
  }

  lemma SettlesJoin(first: Exit, second: Exit, conjunction: bool, v: Result<Value>, w: Result<Value>, lo: int,
                    t: int, e: int, hasNext: bool, regs: Regs, reg: int)
    requires t < lo && e < lo
    requires Settles(first, v, if conjunction then lo else t, if conjunction then e else lo, !conjunction, regs, reg)
    requires v.Ok? && Truthy(v.value) == conjunction ==> Settles(second, w, t, e, hasNext, first.regs, reg)
    ensures
      var whole := if first.Raised? || (first.ToLabel? && first.target < lo) then first else second;
      Settles(whole, Combined(conjunction, v, w), t, e, hasNext, regs, reg)
  {
    if v.Ok? && w.Ok? && Truthy(v.value) == conjunction {
      AgreeTransitive(regs, first.regs, second.regs, reg);
    }
  }

  lemma JoinedAt(l: Expr, r: Expr, conjunction: bool, code: seq<Ins>, more: seq<Ins>, labels: map<int, int>,
                 moreLabels: map<int, int>, lo: int, lo2: int, k: seq<Value>, names: seq<string>, f: NumberFn,
                 from: int, mid: int, to: int, t: int, e: int, hasNext: bool, reg: int, regs: Regs)
    requires Joined(code, more, labels, moreLabels, lo, lo2, mid, to) && t < lo && e < lo && |names| <= reg
    requires
      var t1, e1 := if conjunction then lo else t, if conjunction then e else lo;
      && Confined(code, labels, lo + 1, from, mid, t1, e1)
      && DecidesAt(l, code, labels, lo + 1, k, names, f, from, mid, t1, e1, !conjunction, reg, regs)
    requires Confined(more, moreLabels, lo2, mid, to, t, e)
    requires forall r1 :: DecidesAt(r, more, moreLabels, lo2, k, names, f, mid, to, t, e, hasNext, reg, r1)
    ensures DecidesAt(if conjunction then And(l, r) else Or(l, r), more, moreLabels, lo, k, names, f, from, to, t, e,
                      hasNext, reg, regs)
  {
    var t1, e1 := if conjunction then lo else t, if conjunction then e else lo;
    JoinedWalk(code, more, labels, moreLabels, lo, lo2, k, f, from, mid, to, t1, e1, t, e, regs);
    var first := Walk(code, labels, lo + 1, k, f, mid, from, regs);
    var v := Eval(l, EnvOf(names, regs), f);
    var w := Eval(r, EnvOf(names, regs), f);
    assert Eval(if conjunction then And(l, r) else Or(l, r), EnvOf(names, regs), f) == Combined(conjunction, v, w);
    if v.Ok? && Truthy(v.value) == conjunction {
      assert Agree(regs, first.regs, reg, -1);
      hide *;
      EnvAgrees(names, regs, first.regs, reg);
      assert DecidesAt(r, more, moreLabels, lo2, k, names, f, mid, to, t, e, hasNext, reg, first.regs);
    }
    hide Walk, Confined, Agree, EnvOf, Extends, Eval, Settles, Combined;
    var second := if first.Raised? then first else Walk(more, moreLabels, lo2, k, f, to, mid, first.regs);
    SettlesJoin(first, second, conjunction, v, w, lo, t, e, hasNext, regs, reg);
  }

  // Both conditions of `and`, or of `or`, in sequence, with the label lo between them.
  lemma JoinedDecides(l: Expr, r: Expr, conjunction: bool, code: seq<Ins>, more: seq<Ins>, labels: map<int, int>,
                      moreLabels: map<int, int>, lo: int, lo2: int, consts: seq<Value>, moreConsts: seq<Value>,
                      names: seq<string>, f: NumberFn, from: int, mid: int, to: int, t: int, e: int, hasNext: bool,
                      reg: int)
    requires Joined(code, more, labels, moreLabels, lo, lo2, mid, to) && |names| <= reg && consts <= moreConsts
    requires var t1, e1 := if conjunction then lo else t, if conjunction then e else lo;
             Decides(l, code, labels, lo + 1, consts, names, f, from, mid, t1, e1, !conjunction, reg)
    requires Decides(r, more, moreLabels, lo2, moreConsts, names, f, mid, to, t, e, hasNext, reg) && t < lo && e < lo
    ensures Decides(if conjunction then And(l, r) else Or(l, r), more, moreLabels, lo, moreConsts, names, f, from, to,
                    t, e, hasNext, reg)
  {
    var c := if conjunction then And(l, r) else Or(l, r);
    var t1, e1 := if conjunction then lo else t, if conjunction then e else lo;
    ConfinedJoin(code, more, labels, moreLabels, lo, lo2, from, mid, to, t1, e1, t, e);
    assert 0 <= from <= mid;
    hide DecidesAt, Confined, Extends;
    if Fits(more[from..to]) {
      assert more[from..to] == more[from..mid] + more[mid..to];
      assert more[from..mid] == more[..mid][from..] == code[from..mid];
      FitsParts(more[from..mid], more[mid..to]);
      forall k, regs | moreConsts <= k
        ensures DecidesAt(c, more, moreLabels, lo, k, names, f, from, to, t, e, hasNext, reg, regs)
      {
        assert consts <= k;
        assert DecidesAt(l, code, labels, lo + 1, k, names, f, from, mid, t1, e1, !conjunction, reg, regs);
        JoinedAt(l, r, conjunction, code, more, labels, moreLabels, lo, lo2, k, names, f, from, mid, to, t, e,
                 hasNext, reg, regs);
      }
    }
  }
}
